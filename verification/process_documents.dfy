/** The decision whether a document's entities are extracted again
    (`_check_document_update`). */
module ProcessDocuments {
  import opened Outcomes

  /** The two fields the decision reads: the current text and the text the
      entities were last extracted from (`None` before the first
      extraction). */
  datatype Document = Document(text: string, nerText: Option<string>)

  /** When entities are (re-)extracted, as a closed condition: always before
      the first extraction; otherwise only from update level 1 on, and at
      level 1 only when the text has changed since. */
  predicate Wanted(d: Document, update: int) {
    d.nerText.None? || (update >= 1 && (d.nerText.value != d.text || update >= 2))
  }

  /** `_check_document_update`: the cascade of the source's branches. It
      answers exactly `Wanted`, and fails only for a negative level on a
      document that was already processed. */
  function CheckUpdate(d: Document, update: int): (r: Result<bool>)
    ensures r.Err? <==> d.nerText.Some? && update < 0
    ensures r.Err? ==> r.error == ValueError
    ensures r.Ok? ==> (r.value <==> Wanted(d, update))
  {
    if d.nerText.None? then Ok(true)
    else if update == 0 || (d.nerText.value == d.text && update == 1) then Ok(false)
    else if d.nerText.value != d.text && update >= 1 then Ok(true)
    else if update >= 2 then Ok(true)
    else Err(ValueError)
  }

  /** Raising the update level never turns a "yes" into a "no". */
  lemma UpdateMonotone(d: Document, u: int, u': int)
    requires 0 <= u <= u' && CheckUpdate(d, u) == Ok(true)
    ensures CheckUpdate(d, u') == Ok(true)
  {
  }
}

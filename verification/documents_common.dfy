/** Selecting documents by "needle" (`_get_where_by_needle`) and assembling
    the answer of `get_documents_by_needles`. The database query itself is
    left out: the documents it returns are a parameter. */
module DocumentsCommon {
  import opened Outcomes
  import opened PyStr

  /** The three document columns the selection reads. */
  datatype Document = Document(id: int, objectType: string, systemId: string)

  /** A needle: a document already in hand, an `int`, a `str`, or a value of
      any other type. */
  datatype Needle =
    | DocumentNeedle(doc: Document)
    | IntNeedle(n: int)
    | StrNeedle(s: string)
    | OtherNeedle

  /** What `Document.id` is compared with: the integer, or the digit string
      as given. */
  datatype IdKey = IntKey(n: int) | TextKey(s: string)

  /** The `where` clause a needle selects: by id, or by object type and
      external id. */
  datatype Where = ById(key: IdKey) | ByTypeAndId(objectType: string, systemId: string)

  /** `s` holds `c` at two different positions. */
  predicate TwoOf(s: string, c: char) {
    exists i, j :: 0 <= i < j < |s| && s[i] == c && s[j] == c
  }

  /** `_get_where_by_needle`. A string that is not all digits is split with
      `split(":", 2)`: no colon is rejected, and two or more colons give three
      parts, which the two-name unpacking refuses. */
  function WhereOf(needle: Needle): (r: Result<Where>)
    ensures r.Ok? && r.value.ById? <==> needle.IntNeedle? || (needle.StrNeedle? && IsNumeric(needle.s))
    ensures needle.DocumentNeedle? ==> r == Err(ValueError)
    ensures needle.OtherNeedle? ==> r == Err(RecomException)
  {
    match needle
    case DocumentNeedle(_) => Err(ValueError)
    case IntNeedle(n) => Ok(ById(IntKey(n)))
    case StrNeedle(s) =>
      if IsNumeric(s) then Ok(ById(TextKey(s)))
      else
        var k := IndexFrom(s, ':', 0);
        if k == |s| then Err(RecomException)
        else if IndexFrom(s, ':', k + 1) < |s| then Err(ValueError)
        else Ok(ByTypeAndId(s[..k], s[k + 1..]))
    case OtherNeedle => Err(RecomException)
  }

  /** The outcome for a string needle that is not all digits: no colon is a
      `RecomException`, two or more a `ValueError`, and exactly one splits the
      string around it. */
  lemma WhereOfText(s: string)
    requires !IsNumeric(s)
    ensures Lacks(s, ':') ==> WhereOf(StrNeedle(s)) == Err(RecomException)
    ensures TwoOf(s, ':') ==> WhereOf(StrNeedle(s)) == Err(ValueError)
    ensures WhereOf(StrNeedle(s)).Ok? ==>
      && WhereOf(StrNeedle(s)).value.ByTypeAndId?
      && s == WhereOf(StrNeedle(s)).value.objectType + [':'] + WhereOf(StrNeedle(s)).value.systemId
      && Lacks(WhereOf(StrNeedle(s)).value.objectType, ':')
      && Lacks(WhereOf(StrNeedle(s)).value.systemId, ':')
  {
    if TwoOf(s, ':') {
      WhereOfTwoColons(s);
    }
    var r := WhereOf(StrNeedle(s));
    if r.Ok? {
      WhereOfOneColon(s, r.value);
    }
  }

  /** Two colons leave a second one after the first: the unpacking fails. */
  lemma WhereOfTwoColons(s: string)
    requires !IsNumeric(s) && TwoOf(s, ':')
    ensures WhereOf(StrNeedle(s)) == Err(ValueError)
  {
    var k := IndexFrom(s, ':', 0);
    var i, j :| 0 <= i < j < |s| && s[i] == ':' && s[j] == ':';
    assert k <= i;
    assert IndexFrom(s, ':', k + 1) <= j;
  }

  /** A successful parse of a string splits it around its only colon. */
  lemma WhereOfOneColon(s: string, w: Where)
    requires !IsNumeric(s) && WhereOf(StrNeedle(s)) == Ok(w)
    ensures w.ByTypeAndId? && s == w.objectType + [':'] + w.systemId
    ensures Lacks(w.objectType, ':') && Lacks(w.systemId, ':')
  {
    var k := IndexFrom(s, ':', 0);
    assert s == s[..k] + [s[k]] + s[k + 1..];
  }

  /** A needle written `type:id`, with no colon in either part, selects
      exactly that object type and external id. */
  lemma NeedleRoundTrip(a: string, b: string)
    requires Lacks(a, ':') && Lacks(b, ':')
    ensures WhereOf(StrNeedle(a + [':'] + b)) == Ok(ByTypeAndId(a, b))
  {
    var s := a + [':'] + b;
    assert s[|a|] == ':' && !IsAsciiDigit(s[|a|]);
    assert forall m :: 0 <= m < |a| ==> s[m] == a[m];
    assert IndexFrom(s, ':', 0) == |a|;
    assert forall m :: |a| + 1 <= m < |s| ==> s[m] == b[m - |a| - 1];
    assert IndexFrom(s, ':', |a| + 1) == |s|;
    assert s[..|a|] == a && s[|a| + 1..] == b;
  }

  // ---------------------------------------------------------------------
  // `str(...)` of the keys

  function DigitChar(d: nat): char
    requires d < 10
  {
    ('0' as int + d) as char
  }

  /** The decimal digits of `n`, without leading zeros. */
  function Digits(n: nat): (r: string)
    ensures |r| >= 1 && (n >= 10 <==> |r| >= 2)
    ensures forall i :: 0 <= i < |r| ==> IsAsciiDigit(r[i])
    ensures r[0] == '0' ==> n == 0
  {
    if n < 10 then [DigitChar(n)] else Digits(n / 10) + [DigitChar(n % 10)]
  }

  /** `str(n)` for an integer. */
  function Decimal(n: int): string {
    if n < 0 then ['-'] + Digits(-n) else Digits(n)
  }

  lemma {:induction false} DigitsInjective(a: nat, b: nat)
    requires Digits(a) == Digits(b)
    ensures a == b
    decreases a
  {
    if a >= 10 && b >= 10 {
      var da := Digits(a);
      var db := Digits(b);
      assert da[|da| - 1] == db[|db| - 1];
      assert a % 10 == b % 10;
      assert da[..|da| - 1] == Digits(a / 10);
      assert db[..|db| - 1] == Digits(b / 10);
      DigitsInjective(a / 10, b / 10);
    }
  }

  /** Distinct integers print differently. */
  lemma DecimalInjective(a: int, b: int)
    requires Decimal(a) == Decimal(b)
    ensures a == b
  {
    if a < 0 && b < 0 {
      assert Decimal(a)[1..] == Digits(-a);
      assert Decimal(b)[1..] == Digits(-b);
      DigitsInjective(-a, -b);
    } else if a >= 0 && b >= 0 {
      DigitsInjective(a, b);
    }
  }

  // ---------------------------------------------------------------------
  // Assembling the answer

  /** A dictionary built by a comprehension over `docs`: a later document
      with the same key replaces an earlier one. */
  function IndexBy(docs: seq<Document>, key: Document -> string): (m: map<string, Document>)
    decreases |docs|
  {
    if |docs| == 0 then map[]
    else
      var n := |docs| - 1;
      IndexBy(docs[..n], key)[key(docs[n]) := docs[n]]
  }

  /** `docs[j]` is the last document with key `k`. */
  predicate LastWith(docs: seq<Document>, key: Document -> string, k: string, j: int) {
    0 <= j < |docs| && key(docs[j]) == k && forall j' :: j < j' < |docs| ==> key(docs[j']) != k
  }

  /** The comprehension holds a key exactly when some document has it. */
  lemma {:induction false} IndexByHas(docs: seq<Document>, key: Document -> string, k: string)
    ensures k in IndexBy(docs, key) <==> exists j :: 0 <= j < |docs| && key(docs[j]) == k
    decreases |docs|
  {
    if |docs| > 0 {
      var n := |docs| - 1;
      IndexByHas(docs[..n], key, k);
      if exists j :: 0 <= j < |docs| && key(docs[j]) == k {
        var j :| 0 <= j < |docs| && key(docs[j]) == k;
        if j < n {
          assert docs[..n][j] == docs[j];
        }
      }
    }
  }

  /** A key the comprehension holds maps to the last document that has it. */
  lemma {:induction false} IndexByLast(docs: seq<Document>, key: Document -> string, k: string, m: map<string, Document>)
    requires IndexBy(docs, key) == m && k in m
    ensures exists j :: LastWith(docs, key, k, j) && m[k] == docs[j]
    decreases |docs|
  {
    var n := |docs| - 1;
    var init := docs[..n];
    var prev := IndexBy(init, key);
    assert m == prev[key(docs[n]) := docs[n]];
    if key(docs[n]) == k {
      assert LastWith(docs, key, k, n);
    } else {
      assert k in prev && m[k] == prev[k];
      IndexByLast(init, key, k, prev);
      var j :| LastWith(init, key, k, j) && prev[k] == init[j];
      assert init[j] == docs[j];
      assert LastWith(docs, key, k, j);
    }
  }

  /** `str(d.id)`, the key of the first dictionary. */
  function IdKeyOf(d: Document): string {
    Decimal(d.id)
  }

  /** `f"{d.object_type}:{d.system_id}"`, the key of the second. */
  function SystemKeyOf(d: Document): string {
    d.objectType + [':'] + d.systemId
  }

  /** `str(needle)` for the needles that reach the lookup. */
  function NeedleText(needle: Needle): string {
    match needle
    case IntNeedle(n) => Decimal(n)
    case StrNeedle(s) => s
    case _ => ""
  }

  /** The needles that become queries, in order. */
  function Queried(needles: seq<Needle>): (q: seq<Needle>)
    ensures forall x :: x in q <==> x in needles && !x.DocumentNeedle?
    decreases |needles|
  {
    if |needles| == 0 then []
    else
      var rest := Queried(needles[1..]);
      assert forall x :: x in needles <==> x == needles[0] || x in needles[1..];
      if needles[0].DocumentNeedle? then rest else [needles[0]] + rest
  }

  /** `documents_by_needle_ids.get(key) or documents_by_needle_system_ids.get(key)`;
      a document is never falsy. */
  function Resolve(needle: Needle, fetched: seq<Document>): Option<Document> {
    if needle.DocumentNeedle? then Some(needle.doc)
    else
      var byId := IndexBy(fetched, IdKeyOf);
      var bySystem := IndexBy(fetched, SystemKeyOf);
      var k := NeedleText(needle);
      if k in byId then Some(byId[k])
      else if k in bySystem then Some(bySystem[k])
      else None
  }

  /** `get_documents_by_needles`, given the documents the query returned.
      Building the queries fails as soon as one needle is malformed;
      otherwise there is one answer per needle, in order, and a document
      needle answers itself. */
  function DocumentsByNeedles(needles: seq<Needle>, fetched: seq<Document>): (r: Result<seq<Option<Document>>>)
    ensures r.Ok? ==> |r.value| == |needles|
    ensures r.Ok? ==> forall i :: 0 <= i < |needles| && needles[i].DocumentNeedle? ==> r.value[i] == Some(needles[i].doc)
  {
    var _ :- Each(WhereOf, Queried(needles));
    Ok(seq(|needles|, i requires 0 <= i < |needles| => Resolve(needles[i], fetched)))
  }

  /** The call fails exactly when some needle that is not a document fails
      to parse. */
  lemma DocumentsByNeedlesFails(needles: seq<Needle>, fetched: seq<Document>)
    ensures DocumentsByNeedles(needles, fetched).Ok?
      <==> forall i :: 0 <= i < |needles| && !needles[i].DocumentNeedle? ==> WhereOf(needles[i]).Ok?
  {
    var q := Queried(needles);
    EachSpec(WhereOf, q);
    if !DocumentsByNeedles(needles, fetched).Ok? {
      var i :| 0 <= i < |q| && !WhereOf(q[i]).Ok?;
      assert q[i] in needles;
    } else {
      forall i | 0 <= i < |needles| && !needles[i].DocumentNeedle?
        ensures WhereOf(needles[i]).Ok?
      {
        assert needles[i] in q;
      }
    }
  }

  /** A needle that is not a document answers, by its text, with the last
      fetched document whose `str(id)` is that text; failing that, with the
      last whose `type:id` key is that text; failing both, with nothing. */
  lemma ResolveOrder(needle: Needle, fetched: seq<Document>)
    requires !needle.DocumentNeedle?
    ensures var k := NeedleText(needle);
      && ((exists j :: 0 <= j < |fetched| && IdKeyOf(fetched[j]) == k) ==>
            exists j :: LastWith(fetched, IdKeyOf, k, j) && Resolve(needle, fetched) == Some(fetched[j]))
      && ((forall j :: 0 <= j < |fetched| ==> IdKeyOf(fetched[j]) != k) &&
          (exists j :: 0 <= j < |fetched| && SystemKeyOf(fetched[j]) == k) ==>
            exists j :: LastWith(fetched, SystemKeyOf, k, j) && Resolve(needle, fetched) == Some(fetched[j]))
      && ((forall j :: 0 <= j < |fetched| ==> IdKeyOf(fetched[j]) != k && SystemKeyOf(fetched[j]) != k) ==>
            Resolve(needle, fetched) == None)
  {
    var k := NeedleText(needle);
    var byId := IndexBy(fetched, IdKeyOf);
    var bySystem := IndexBy(fetched, SystemKeyOf);
    IndexByHas(fetched, IdKeyOf, k);
    IndexByHas(fetched, SystemKeyOf, k);
    if k in byId {
      IndexByLast(fetched, IdKeyOf, k, byId);
    } else if k in bySystem {
      IndexByLast(fetched, SystemKeyOf, k, bySystem);
    }
  }

  /** An integer needle answers with the last fetched document with that id,
      or with nothing when none was fetched. */
  lemma IntNeedleResolves(n: int, fetched: seq<Document>)
    ensures (exists j :: 0 <= j < |fetched| && fetched[j].id == n) ==>
      exists j :: LastWith(fetched, IdKeyOf, Decimal(n), j) && Resolve(IntNeedle(n), fetched) == Some(fetched[j])
    ensures (forall j :: 0 <= j < |fetched| ==> fetched[j].id != n) ==> Resolve(IntNeedle(n), fetched) == None
  {
    var k := Decimal(n);
    IndexByHas(fetched, IdKeyOf, k);
    IndexByHas(fetched, SystemKeyOf, k);
    var byId := IndexBy(fetched, IdKeyOf);
    if k in byId {
      IndexByLast(fetched, IdKeyOf, k, byId);
    }
    forall j | 0 <= j < |fetched| && IdKeyOf(fetched[j]) == k
      ensures fetched[j].id == n
    {
      DecimalInjective(fetched[j].id, n);
    }
    forall j | 0 <= j < |fetched|
      ensures SystemKeyOf(fetched[j]) != k
    {
      var sk := SystemKeyOf(fetched[j]);
      assert sk[|fetched[j].objectType|] == ':';
      if n < 0 {
        assert forall m :: 1 <= m < |k| ==> k[m] == Digits(-n)[m - 1];
      }
    }
  }

  /** A string needle of two or more digits that starts with `0` never
      answers with a document: no `str(id)` has a leading zero and every
      system key holds a colon. */
  lemma ZeroPaddedUnresolved(s: string, fetched: seq<Document>)
    requires IsNumeric(s) && |s| >= 2 && s[0] == '0'
    ensures Resolve(StrNeedle(s), fetched) == None
  {
    IndexByHas(fetched, IdKeyOf, s);
    IndexByHas(fetched, SystemKeyOf, s);
    forall j | 0 <= j < |fetched|
      ensures IdKeyOf(fetched[j]) != s && SystemKeyOf(fetched[j]) != s
    {
      var sk := SystemKeyOf(fetched[j]);
      assert sk[|fetched[j].objectType|] == ':';
      if fetched[j].id == 0 {
        assert |Decimal(0)| == 1;
      }
    }
  }
}

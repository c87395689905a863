/** Reconciliation of two annotations of one document
    (`dt_nav/processes/ner/jsonl_common.py`).

    A `Datum` is a text, its entities and one status per keyword, where the
    keyword of an entity is its covered text lower-cased and stripped. Merging
    a freshly extracted datum (the target) with a stored one (the source) runs
    in three steps: re-anchor the source on the target's text if the texts
    differ, take a status-aware union, and sweep the covered character indices
    resolving overlaps by status priority.
 */
module JsonlCommon {
  import opened Outcomes
  import opened PyStr
  import opened Spans
  import opened Dicts

  // ---------------------------------------------------------------------------
  // Keywords
  // ---------------------------------------------------------------------------

  /** `fix_kw`: the keyword under which a covered text's status is stored. The
      result is the lower-cased text with its leading and trailing whitespace
      removed, and nothing else. */
  function FixKw(kw: string): (r: string)
    ensures exists i ::
      (&& 0 <= i <= |kw| - |r|
       && r == Lower(kw)[i..i + |r|]
       && IsBlank(Lower(kw)[..i])
       && IsBlank(Lower(kw)[i + |r|..]))
    ensures |r| > 0 ==> !IsSpace(r[0]) && !IsSpace(r[|r| - 1])
  {
    StripSlice(Lower(kw));
    Strip(Lower(kw))
  }

  /** Normalising a keyword a second time changes nothing. */
  lemma FixKwIdempotent(kw: string)
    ensures FixKw(FixKw(kw)) == FixKw(kw)
  {
    LowerStripIdempotent(kw);
  }

  /** The keyword of an entity: its covered text, normalised. */
  function Key(text: string, e: Entity): string {
    FixKw(Slice(text, e.start, e.end))
  }

  /** The keyword of an entity whose covered text is already lower-case and
      has no outer whitespace is that text. */
  lemma KeyPlain(text: string, e: Entity)
    requires InText(e, text)
    requires forall k :: e.start <= k < e.end ==> LowerChar(text[k]) == text[k]
    requires e.start < e.end ==> !IsSpace(text[e.start]) && !IsSpace(text[e.end - 1])
    ensures Key(text, e) == text[e.start..e.end]
  {
    var s := text[e.start..e.end];
    assert Slice(text, e.start, e.end) == s;
    assert Lower(s) == s;
    StripUnchanged(s);
  }

  /** `datum["status"].get(key, EXTRACTED)`. */
  function StatusOr(status: map<string, Status>, k: string): Status {
    if k in status then status[k] else Extracted
  }

  /** The first entity, in list order, whose keyword is `v`. */
  function FirstOccurrence(text: string, es: seq<Entity>, v: string): (r: Option<Entity>)
    ensures r.None? <==> forall e :: e in es ==> Key(text, e) != v
    ensures r.Some? ==> r.value in es && Key(text, r.value) == v
  {
    if |es| == 0 then None
    else if Key(text, es[0]) == v then Some(es[0])
    else FirstOccurrence(text, es[1..], v)
  }

  // ---------------------------------------------------------------------------
  // Re-anchoring a datum on a new text (`_update_jsonl_by_text`)
  // ---------------------------------------------------------------------------

  /** The per-class vote of line 69: `classes[c] = classes.get(c, 1)`. */
  function CastVote(classes: seq<(string, int)>, cls: string): seq<(string, int)> {
    Assign(classes, cls, Get(classes, cls, 1))
  }

  /** The first loop of `_update_jsonl_by_text`: for every keyword, in the
      order of first occurrence, the classes voted for it. */
  function CountClasses(text: string, es: seq<Entity>, counts: seq<(string, seq<(string, int)>)>)
    : seq<(string, seq<(string, int)>)>
    decreases |es|
  {
    if |es| == 0 then counts
    else
      var value := Key(text, es[0]);
      var classes := Get(counts, value, []);
      CountClasses(text, es[1..], Assign(counts, value, CastVote(classes, es[0].cls)))
  }

  /** Every class table holds only votes of weight 1, is non-empty, and has
      distinct classes. */
  predicate UnitVotes(counts: seq<(string, seq<(string, int)>)>) {
    && DistinctKeys(counts)
    && forall i :: 0 <= i < |counts| ==>
      && |counts[i].1| > 0
      && DistinctKeys(counts[i].1)
      && forall j :: 0 <= j < |counts[i].1| ==> counts[i].1[j].1 == 1
  }

  lemma UnitVotesGet(counts: seq<(string, seq<(string, int)>)>, v: string)
    requires UnitVotes(counts)
    ensures var c := Get(counts, v, []);
      && DistinctKeys(c) && (forall j :: 0 <= j < |c| ==> c[j].1 == 1)
      && (HasKey(counts, v) ==> |c| > 0)
  {
    if HasKey(counts, v) {
      var i :| 0 <= i < |counts| && counts[i].0 == v;
    }
  }

  lemma CastVoteUnit(classes: seq<(string, int)>, cls: string)
    requires DistinctKeys(classes) && forall j :: 0 <= j < |classes| ==> classes[j].1 == 1
    ensures var c := CastVote(classes, cls);
      && DistinctKeys(c) && |c| > 0 && (forall j :: 0 <= j < |c| ==> c[j].1 == 1)
      && (|classes| > 0 ==> c[0] == classes[0])
  {
    var n := Get(classes, cls, 1);
    assert n == 1 by {
      if HasKey(classes, cls) {
        var j :| 0 <= j < |classes| && classes[j].0 == cls;
      }
    }
    var c := Assign(classes, cls, n);
    if HasKey(classes, cls) {
      var i :| 0 <= i < |classes| && classes[i].0 == cls;
      assert |c| == |classes|;
      forall j | 0 <= j < |c|
        ensures c[j].1 == 1
      {
        if c[j].0 == cls {
          assert Get(c, cls, n) == c[j].1;
        } else {
          assert Get(c, c[j].0, 0) == Get(classes, c[j].0, 0);
          assert Get(classes, c[j].0, 0) == classes[j].1;
        }
      }
      assert c[0] == classes[0] by {
        if classes[0].0 == cls {
          assert Get(c, cls, n) == c[0].1;
        } else {
          assert Get(c, c[0].0, 0) == Get(classes, c[0].0, 0);
        }
      }
    }
  }

  /** Because a vote is assigned `classes.get(c, 1)` and never incremented,
      every count stays 1, and the class table of each keyword starts with the
      class of that keyword's first occurrence. */
  lemma {:induction false} CountClassesFirstClass(
    text: string, es: seq<Entity>, counts: seq<(string, seq<(string, int)>)>, v: string)
    requires UnitVotes(counts)
    ensures var r := CountClasses(text, es, counts);
      && UnitVotes(r)
      && (HasKey(r, v) <==> HasKey(counts, v) || FirstOccurrence(text, es, v).Some?)
      && (HasKey(counts, v) ==> Get(r, v, [])[0] == Get(counts, v, [])[0])
      && (!HasKey(counts, v) && FirstOccurrence(text, es, v).Some? ==>
            Get(r, v, [])[0].0 == FirstOccurrence(text, es, v).value.cls)
    decreases |es|
  {
    if |es| > 0 {
      var value := Key(text, es[0]);
      var classes := Get(counts, value, []);
      UnitVotesGet(counts, value);
      CastVoteUnit(classes, es[0].cls);
      var next := Assign(counts, value, CastVote(classes, es[0].cls));
      AssignUnit(counts, value, CastVote(classes, es[0].cls));
      CountClassesFirstClass(text, es[1..], next, v);
      UnitVotesGet(counts, v);
      if v == value {
        assert Get(next, v, []) == CastVote(classes, es[0].cls);
      } else {
        assert Get(next, v, []) == Get(counts, v, []);
      }
    }
  }

  /** Storing a table of unit votes keeps every table one of unit votes. */
  lemma AssignUnit(counts: seq<(string, seq<(string, int)>)>, value: string, c: seq<(string, int)>)
    requires UnitVotes(counts)
    requires |c| > 0 && DistinctKeys(c) && forall j :: 0 <= j < |c| ==> c[j].1 == 1
    ensures UnitVotes(Assign(counts, value, c))
  {
    var next := Assign(counts, value, c);
    forall i | 0 <= i < |next|
      ensures |next[i].1| > 0 && DistinctKeys(next[i].1)
      ensures forall j :: 0 <= j < |next[i].1| ==> next[i].1[j].1 == 1
    {
      var k := next[i].0;
      assert Get(next, k, []) == next[i].1;
      if k != value {
        assert Get(next, k, []) == Get(counts, k, []);
        assert HasKey(counts, k);
        var i' :| 0 <= i' < |counts| && counts[i'].0 == k;
        assert Get(counts, k, []) == counts[i'].1;
      }
    }
  }

  /** The class chosen for a keyword: `max(classes, key=classes.get)`. */
  function ChosenClass(classes: seq<(string, int)>): string {
    if |classes| == 0 then "" else classes[ArgMax(classes)].0
  }

  /** One entity per located occurrence of `value`, lines 74-76. */
  function Reanchor(value: string, cls: string, starts: seq<int>): (r: seq<Entity>)
    ensures |r| == |starts|
    ensures forall j :: 0 <= j < |r| ==> r[j] == Entity(starts[j], starts[j] + |value|, cls)
  {
    seq(|starts|, j requires 0 <= j < |starts| => Entity(starts[j], starts[j] + |value|, cls))
  }

  /** The second loop of `_update_jsonl_by_text`, over the keywords in order. */
  function ReanchorAll(counts: seq<(string, seq<(string, int)>)>, lowText: string,
                       find: (string, string) -> seq<int>): (r: seq<Entity>)
    ensures forall e :: e in r <==> exists i :: (0 <= i < |counts| &&
      e in Reanchor(counts[i].0, ChosenClass(counts[i].1), find(lowText, counts[i].0)))
  {
    if |counts| == 0 then []
    else
      var here := Reanchor(counts[0].0, ChosenClass(counts[0].1), find(lowText, counts[0].0));
      var rest := ReanchorAll(counts[1..], lowText, find);
      assert forall e :: e in rest <==> exists i :: (1 <= i < |counts| &&
        e in Reanchor(counts[i].0, ChosenClass(counts[i].1), find(lowText, counts[i].0))) by {
        forall e | e in rest
          ensures exists i :: (1 <= i < |counts| &&
            e in Reanchor(counts[i].0, ChosenClass(counts[i].1), find(lowText, counts[i].0)))
        {
          var i :| 0 <= i < |counts[1..]| &&
            e in Reanchor(counts[1..][i].0, ChosenClass(counts[1..][i].1), find(lowText, counts[1..][i].0));
          assert counts[1..][i] == counts[i + 1];
        }
        forall e, i | 1 <= i < |counts| &&
            e in Reanchor(counts[i].0, ChosenClass(counts[i].1), find(lowText, counts[i].0))
          ensures e in rest
        {
          assert counts[1..][i - 1] == counts[i];
        }
      }
      here + rest
  }

  /** The keywords of a class-count table, as a set. */
  function TableKeys(counts: seq<(string, seq<(string, int)>)>): set<string> {
    set i | 0 <= i < |counts| :: counts[i].0
  }

  /** When every vote weighs 1, the chosen class is the first one voted for. */
  lemma ChosenClassUnit(c: seq<(string, int)>)
    requires |c| > 0 && forall j :: 0 <= j < |c| ==> c[j].1 == 1
    ensures ChosenClass(c) == c[0].0
  {
    var m := ArgMax(c);
    assert c[0].1 == c[m].1;
  }

  /** The class-count table of a datum has one row per keyword of the datum,
      and chooses for each the class of the keyword's first occurrence. */
  lemma ChosenClassIsFirst(text: string, es: seq<Entity>, v: string)
    ensures var counts := CountClasses(text, es, []);
      && (v in TableKeys(counts) <==> FirstOccurrence(text, es, v).Some?)
      && (forall i :: 0 <= i < |counts| && counts[i].0 == v ==>
            ChosenClass(counts[i].1) == FirstOccurrence(text, es, v).value.cls)
  {
    var counts := CountClasses(text, es, []);
    var empty: seq<(string, seq<(string, int)>)> := [];
    assert !HasKey(empty, v);
    CountClassesFirstClass(text, es, empty, v);
    assert UnitVotes(counts);
    assert v in TableKeys(counts) <==> HasKey(counts, v);
    forall i | 0 <= i < |counts| && counts[i].0 == v
      ensures ChosenClass(counts[i].1) == FirstOccurrence(text, es, v).value.cls
    {
      var c := counts[i].1;
      assert |c| > 0 && forall j :: 0 <= j < |c| ==> c[j].1 == 1;
      assert Get(counts, v, []) == c;
      ChosenClassUnit(c);
    }
  }

  /** The entity-membership half of `UpdateByText`'s contract. */
  predicate Reanchored(source: Datum, targetText: string, find: (string, string) -> seq<int>,
                       keys: set<string>, e: Entity)
  {
    exists v :: v in keys
      && FirstOccurrence(source.text, source.entities, v).Some?
      && e.start in find(Lower(targetText), v)
      && e.end == e.start + |v|
      && e.cls == FirstOccurrence(source.text, source.entities, v).value.cls
  }

  /** `e` is an occurrence, located in `low`, of the keyword of row `i`, with
      that row's chosen class. */
  predicate LocatedAt(counts: seq<(string, seq<(string, int)>)>, low: string,
                      find: (string, string) -> seq<int>, e: Entity, i: int)
  {
    && 0 <= i < |counts|
    && e.start in find(low, counts[i].0)
    && e.end == e.start + |counts[i].0|
    && e.cls == ChosenClass(counts[i].1)
  }

  /** An entity of `ReanchorAll` is one located occurrence of one row's keyword. */
  lemma ReanchorAllSpec(counts: seq<(string, seq<(string, int)>)>, low: string,
                        find: (string, string) -> seq<int>, e: Entity)
    ensures e in ReanchorAll(counts, low, find) <==> exists i :: LocatedAt(counts, low, find, e, i)
  {
    if e in ReanchorAll(counts, low, find) {
      var i :| 0 <= i < |counts| &&
        e in Reanchor(counts[i].0, ChosenClass(counts[i].1), find(low, counts[i].0));
      var starts := find(low, counts[i].0);
      var j :| 0 <= j < |starts| && Reanchor(counts[i].0, ChosenClass(counts[i].1), starts)[j] == e;
      assert e.start in starts;
      assert LocatedAt(counts, low, find, e, i);
    }
    if i :| LocatedAt(counts, low, find, e, i) {
      var starts := find(low, counts[i].0);
      var j :| 0 <= j < |starts| && starts[j] == e.start;
      assert Reanchor(counts[i].0, ChosenClass(counts[i].1), starts)[j] == e;
    }
  }

  lemma ReanchorAllSound(source: Datum, targetText: string,
                         find: (string, string) -> seq<int>, e: Entity)
    requires e in ReanchorAll(CountClasses(source.text, source.entities, []), Lower(targetText), find)
    ensures Reanchored(source, targetText, find, TableKeys(CountClasses(source.text, source.entities, [])), e)
  {
    var counts := CountClasses(source.text, source.entities, []);
    ReanchorAllSpec(counts, Lower(targetText), find, e);
    var i :| LocatedAt(counts, Lower(targetText), find, e, i);
    ChosenClassIsFirst(source.text, source.entities, counts[i].0);
    assert counts[i].0 in TableKeys(counts);
  }

  lemma ReanchorAllComplete(source: Datum, targetText: string,
                            find: (string, string) -> seq<int>, e: Entity)
    requires Reanchored(source, targetText, find, TableKeys(CountClasses(source.text, source.entities, [])), e)
    ensures e in ReanchorAll(CountClasses(source.text, source.entities, []), Lower(targetText), find)
  {
    var counts := CountClasses(source.text, source.entities, []);
    var low := Lower(targetText);
    var v :| v in TableKeys(counts)
      && FirstOccurrence(source.text, source.entities, v).Some?
      && e.start in find(low, v)
      && e.end == e.start + |v|
      && e.cls == FirstOccurrence(source.text, source.entities, v).value.cls;
    var i :| 0 <= i < |counts| && counts[i].0 == v;
    ChosenClassIsFirst(source.text, source.entities, v);
    assert ChosenClass(counts[i].1) == e.cls;
    assert LocatedAt(counts, low, find, e, i);
    ReanchorAllSpec(counts, low, find, e);
  }

  /** `_update_jsonl_by_text`: the source's keywords re-located in a new text.
      `find(haystack, needle)` stands for `find_good_substring_indices`, whose
      body is not part of this model; it is called on the lower-cased target
      text. Every located occurrence becomes an entity of the keyword's length
      carrying the class of the keyword's first occurrence in the source, every
      source keyword keeps its status (or EXTRACTED when it has none), and the
      entities come out sorted by start. */
  function UpdateByText(source: Datum, targetText: string, find: (string, string) -> seq<int>)
    : (r: Datum)
    ensures r.text == targetText
    ensures SortedByStart(r.entities)
    ensures forall v :: v in r.status <==> FirstOccurrence(source.text, source.entities, v).Some?
    ensures forall v :: v in r.status ==> r.status[v] == StatusOr(source.status, v)
    ensures forall e :: e in r.entities <==> Reanchored(source, targetText, find, r.status.Keys, e)
  {
    var counts := CountClasses(source.text, source.entities, []);
    var entities := ReanchorAll(counts, Lower(targetText), find);
    var status := map v | v in TableKeys(counts) :: StatusOr(source.status, v);
    assert status.Keys == TableKeys(counts);
    assert forall v :: v in status <==> FirstOccurrence(source.text, source.entities, v).Some? by {
      forall v { ChosenClassIsFirst(source.text, source.entities, v); }
    }
    SortByStartMembers(entities);
    assert forall e :: e in entities <==> Reanchored(source, targetText, find, status.Keys, e) by {
      forall e
        ensures e in entities <==> Reanchored(source, targetText, find, status.Keys, e)
      {
        if e in entities {
          ReanchorAllSound(source, targetText, find, e);
        }
        if Reanchored(source, targetText, find, status.Keys, e) {
          ReanchorAllComplete(source, targetText, find, e);
        }
      }
    }
    Datum(targetText, SortByStart(entities), status)
  }
}

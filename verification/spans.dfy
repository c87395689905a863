/** Entities, annotated documents and the stable sort by start offset that
    every stage of the annotation pipeline applies to entity lists.
 */
module Spans {

  /** The lifecycle state of a keyword (`DocumentKeywordStatus`). */
  datatype Status = Extracted | Added | Rejected | Confirmed

  /** One `(start, end, class)` triple: a half-open span of code-point offsets
      into a document's text and its class label. */
  datatype Entity = Entity(start: int, end: int, cls: string)

  /** `JsonlDatum`: a text and its entities. */
  datatype Doc = Doc(text: string, entities: seq<Entity>)

  /** `JsonlDatumStatus`: a text, its entities, and one status per keyword. */
  datatype Datum = Datum(text: string, entities: seq<Entity>, status: map<string, Status>)

  /** The span lies inside the text. */
  predicate InText(e: Entity, text: string) {
    0 <= e.start <= e.end <= |text|
  }

  predicate SortedByStart(es: seq<Entity>) {
    forall i, j :: 0 <= i < j < |es| ==> es[i].start <= es[j].start
  }

  /** The entities that start at `k`, in list order. */
  function StartingAt(es: seq<Entity>, k: int): (r: seq<Entity>)
    ensures |r| <= |es|
  {
    if |es| == 0 then []
    else (if es[0].start == k then [es[0]] else []) + StartingAt(es[1..], k)
  }

  lemma {:induction false} StartingAtAppend(a: seq<Entity>, b: seq<Entity>, k: int)
    ensures StartingAt(a + b, k) == StartingAt(a, k) + StartingAt(b, k)
  {
    if |a| == 0 {
      assert a + b == b;
    } else {
      var head := if a[0].start == k then [a[0]] else [];
      assert (a + b)[0] == a[0] && (a + b)[1..] == a[1..] + b;
      assert StartingAt(a + b, k) == head + StartingAt(a[1..] + b, k);
      StartingAtAppend(a[1..], b, k);
      assert StartingAt(a, k) == head + StartingAt(a[1..], k);
    }
  }

  /** Places `x` before the first entity that starts at or after it. */
  function Insert(x: Entity, es: seq<Entity>): (r: seq<Entity>)
    ensures |r| == |es| + 1
  {
    if |es| == 0 || x.start <= es[0].start then [x] + es
    else [es[0]] + Insert(x, es[1..])
  }

  lemma {:induction false} InsertMultiset(x: Entity, es: seq<Entity>)
    ensures multiset(Insert(x, es)) == multiset(es) + multiset{x}
  {
    if |es| == 0 || x.start <= es[0].start {
    } else {
      InsertMultiset(x, es[1..]);
      assert es == [es[0]] + es[1..];
    }
  }

  /** Inserting an entity that starts at or after `b` among entities that all
      start at or after `b` keeps that bound. */
  lemma {:induction false} InsertBound(x: Entity, es: seq<Entity>, b: int)
    requires x.start >= b
    requires forall i :: 0 <= i < |es| ==> es[i].start >= b
    ensures forall i :: 0 <= i < |Insert(x, es)| ==> Insert(x, es)[i].start >= b
  {
    if |es| == 0 || x.start <= es[0].start {
    } else {
      InsertBound(x, es[1..], b);
    }
  }

  lemma {:induction false} InsertSorted(x: Entity, es: seq<Entity>)
    requires SortedByStart(es)
    ensures SortedByStart(Insert(x, es))
  {
    var r := Insert(x, es);
    if |es| == 0 || x.start <= es[0].start {
      assert r == [x] + es;
      forall i, j | 0 <= i < j < |r|
        ensures r[i].start <= r[j].start
      {
        if i == 0 {
          assert r[j] == es[j - 1];
          assert es[0].start <= es[j - 1].start;
        } else {
          assert r[i] == es[i - 1] && r[j] == es[j - 1];
        }
      }
    } else {
      var t := Insert(x, es[1..]);
      InsertSorted(x, es[1..]);
      InsertBound(x, es[1..], es[0].start);
      assert r == [es[0]] + t;
      forall i, j | 0 <= i < j < |r|
        ensures r[i].start <= r[j].start
      {
        assert r[j] == t[j - 1];
        if i > 0 {
          assert r[i] == t[i - 1];
        }
      }
    }
  }

  /** `x` becomes the first of the entities that start where it does. */
  lemma {:induction false} InsertStartingAt(x: Entity, es: seq<Entity>, k: int)
    ensures StartingAt(Insert(x, es), k) == (if x.start == k then [x] else []) + StartingAt(es, k)
  {
    if |es| == 0 || x.start <= es[0].start {
      var r := [x] + es;
      assert r[1..] == es;
      assert StartingAt(r, k) == (if x.start == k then [x] else []) + StartingAt(r[1..], k);
    } else {
      var t := Insert(x, es[1..]);
      InsertStartingAt(x, es[1..], k);
      var r := [es[0]] + t;
      assert r[1..] == t;
      var head := if es[0].start == k then [es[0]] else [];
      assert StartingAt(r, k) == head + StartingAt(t, k);
      assert StartingAt(es, k) == head + StartingAt(es[1..], k);
      if x.start == k {
        assert head == [];
      }
    }
  }

  /** Python's `sorted(entities, key=lambda e: e[0])`: a stable sort by start.
      The result is ordered, is a permutation of the input, and keeps the
      input order among entities with equal starts. */
  function SortByStart(es: seq<Entity>): (r: seq<Entity>)
    ensures SortedByStart(r)
    ensures multiset(r) == multiset(es)
    ensures forall k :: StartingAt(r, k) == StartingAt(es, k)
  {
    if |es| == 0 then []
    else
      var t := SortByStart(es[1..]);
      assert es == [es[0]] + es[1..];
      InsertSorted(es[0], t);
      InsertMultiset(es[0], t);
      assert forall k :: StartingAt(es, k) == (if es[0].start == k then [es[0]] else []) + StartingAt(es[1..], k);
      assert forall k :: StartingAt(Insert(es[0], t), k) == (if es[0].start == k then [es[0]] else []) + StartingAt(t, k) by {
        forall k { InsertStartingAt(es[0], t, k); }
      }
      Insert(es[0], t)
  }

  /** The entities that `SortByStart` returns are exactly those it was given. */
  lemma SortByStartMembers(es: seq<Entity>)
    ensures forall e :: e in SortByStart(es) <==> e in es
  {
    var r := SortByStart(es);
    forall e
      ensures e in r <==> e in es
    {
      assert e in r <==> e in multiset(r);
      assert e in es <==> e in multiset(es);
    }
  }

  /** Two spans that share no character. */
  predicate Apart(x: Entity, y: Entity) {
    x.end <= y.start || y.end <= x.start
  }

  /** Each entity ends before the next one starts. */
  predicate Separated(es: seq<Entity>) {
    forall a, b :: 0 <= a < b < |es| ==> es[a].end <= es[b].start
  }

  /** A sequence without repeated elements holds each value at most once. */
  lemma {:induction false} UniqueMultiset(s: seq<Entity>, x: Entity)
    requires forall a, b :: 0 <= a < b < |s| ==> s[a] != s[b]
    ensures multiset(s)[x] <= 1
  {
    if |s| > 0 {
      assert s == [s[0]] + s[1..];
      assert forall a, b :: 0 <= a < b < |s[1..]| ==> s[1..][a] != s[1..][b] by {
        forall a, b | 0 <= a < b < |s[1..]|
          ensures s[1..][a] != s[1..][b]
        {
          assert s[1..][a] == s[a + 1] && s[1..][b] == s[b + 1];
        }
      }
      UniqueMultiset(s[1..], x);
    }
  }

  /** A value held at two positions occurs at least twice. */
  lemma TwiceMultiset(s: seq<Entity>, a: nat, b: nat)
    requires a < b < |s| && s[a] == s[b]
    ensures multiset(s)[s[a]] >= 2
  {
    assert s == s[..a] + [s[a]] + s[a + 1..b] + [s[b]] + s[b + 1..];
  }

  /** Sorting non-empty entities that pairwise share no character lays them out
      left to right: each ends before the next one starts. */
  lemma SortSeparated(es: seq<Entity>)
    requires forall e :: e in es ==> e.start < e.end
    requires forall a, b :: 0 <= a < |es| && 0 <= b < |es| && a != b ==> Apart(es[a], es[b])
    ensures Separated(SortByStart(es))
  {
    var r := SortByStart(es);
    ApartDistinct(es);
    forall a, b | 0 <= a < b < |r|
      ensures r[a].end <= r[b].start
    {
      SortedPairSeparated(es, r, a, b);
    }
  }

  /** Entities that are pairwise apart are pairwise different. */
  lemma ApartDistinct(es: seq<Entity>)
    requires forall e :: e in es ==> e.start < e.end
    requires forall a, b :: 0 <= a < |es| && 0 <= b < |es| && a != b ==> Apart(es[a], es[b])
    ensures forall a, b :: 0 <= a < b < |es| ==> es[a] != es[b]
  {
    forall a, b | 0 <= a < b < |es|
      ensures es[a] != es[b]
    {
      assert Apart(es[a], es[b]);
    }
  }

  /** Two positions of a sorted permutation of non-empty entities that are
      pairwise apart hold entities laid out left to right. */
  lemma SortedPairSeparated(es: seq<Entity>, r: seq<Entity>, a: nat, b: nat)
    requires SortedByStart(r) && multiset(r) == multiset(es)
    requires forall e :: e in es ==> e.start < e.end
    requires forall a, b :: 0 <= a < b < |es| ==> es[a] != es[b]
    requires forall a, b :: 0 <= a < |es| && 0 <= b < |es| && a != b ==> Apart(es[a], es[b])
    requires a < b < |r|
    ensures r[a].end <= r[b].start
  {
    assert r[a] in multiset(es) && r[b] in multiset(es);
    if r[a] == r[b] {
      TwiceMultiset(r, a, b);
      UniqueMultiset(es, r[a]);
    }
    var p :| 0 <= p < |es| && es[p] == r[a];
    var q :| 0 <= q < |es| && es[q] == r[b];
    assert Apart(es[p], es[q]);
    assert r[a].start <= r[b].start;
  }
}

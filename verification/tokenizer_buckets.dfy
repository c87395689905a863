/** `add_entities_to_sentences`: entity spans, taken in order, are handed to
    the sentences by a cursor that only moves forward. */
module TokenizerBuckets {
  import opened Outcomes
  import opened Spans
  import opened TokenizerSegment

  /** One output triple `(offset, sentence, tokens)`; the sentence is `None`
      for the entities met before any sentence was loaded (the source then
      emits `(None, None, tokens)`). */
  datatype Bucket = Bucket(sent: Option<Sent>, entities: seq<Entity>)

  /** The sentence under the cursor: `None` before the first load. */
  function Current(sents: seq<Sent>, si: int): (r: Option<Sent>)
    requires -1 <= si < |sents|
    ensures r.Some? <==> si >= 0
  {
    if si < 0 then None else Some(sents[si])
  }

  /** `current_sent_end`, which starts at -1. */
  function CurEnd(sents: seq<Sent>, si: int): int
    requires -1 <= si < |sents|
  {
    if si < 0 then -1 else End(sents[si])
  }

  /** The end a bucket's entities start before. */
  function BucketEnd(b: Bucket): int {
    if b.sent.None? then -1 else End(b.sent.value)
  }

  /** The final loop: the open bucket is emitted when it holds entities or
      empty buckets are wanted, and with `add_empty` every later sentence
      follows with no entities. (The source also tests
      `sent_i <= len(sentences)`, which always holds here.) */
  function TailFrom(sents: seq<Sent>, addEmpty: bool, si: int, cur: seq<Entity>): seq<Bucket>
    requires -1 <= si < |sents|
    decreases |sents| - si
  {
    if |cur| > 0 || addEmpty then
      [Bucket(Current(sents, si), cur)]
        + (if si + 1 < |sents| then TailFrom(sents, addEmpty, si + 1, []) else [])
    else []
  }

  /** `[x] + r` inside a result. */
  function Prepend(xs: seq<Bucket>, r: Result<seq<Bucket>>): Result<seq<Bucket>> {
    if r.Ok? then Ok(xs + r.value) else r
  }

  /** What leaving the sentence at `si` emits: its bucket when it holds
      entities, or when `add_empty` is set and a sentence is loaded. */
  function Emitted(sents: seq<Sent>, addEmpty: bool, si: int, cur: seq<Entity>): seq<Bucket>
    requires -1 <= si < |sents|
  {
    if |cur| > 0 || (addEmpty && si >= 0) then [Bucket(Current(sents, si), cur)] else []
  }

  /** The entity loop from entity `k` on, with the cursor at sentence `si`
      and the entities gathered for it in `cur`. While the entity starts at
      or after the end of the current sentence, the bucket is emitted (when
      it holds entities, or `add_empty` and a sentence is loaded) and the
      cursor moves on, failing with `IndexError` past the last sentence. */
  function Place(sents: seq<Sent>, es: seq<Entity>, addEmpty: bool, k: nat, si: int, cur: seq<Entity>): Result<seq<Bucket>>
    requires k <= |es| && -1 <= si < |sents|
    decreases |es| - k, |sents| - si
  {
    if k == |es| then Ok(TailFrom(sents, addEmpty, si, cur))
    else if es[k].start >= CurEnd(sents, si) then
      if si + 1 >= |sents| then Err(IndexError)
      else
        Prepend(Emitted(sents, addEmpty, si, cur), Place(sents, es, addEmpty, k, si + 1, []))
    else Place(sents, es, addEmpty, k + 1, si, cur + [es[k]])
  }

  /** `add_entities_to_sentences(sentences, entities, add_empty)`. */
  function AddEntitiesToSentences(sents: seq<Sent>, es: seq<Entity>, addEmpty: bool): (r: Result<seq<Bucket>>)
    ensures r.Err? ==> r.error == IndexError
    ensures |sents| == 0 ==> r == Ok([])
    ensures r.Ok? && |sents| > 0 ==> Flatten(r.value) == es
    ensures r.Ok? ==> forall b :: b in r.value ==> InBucket(b)
    ensures r.Ok? && addEmpty ==> Sentences(r.value) == sents
  {
    if |sents| == 0 || |es| == 0 then
      var r := if addEmpty then Empties(sents, 0) else [];
      EmptiesFacts(sents, 0);
      Ok(r)
    else
      PlaceFacts(sents, es, addEmpty, 0, -1, []);
      assert es[0..] == es;
      Place(sents, es, addEmpty, 0, -1, [])
  }

  /** The early exit with `add_empty`: every sentence from `i` on, with no
      entities. */
  function Empties(sents: seq<Sent>, i: nat): seq<Bucket>
    requires i <= |sents|
    decreases |sents| - i
  {
    if i == |sents| then [] else [Bucket(Some(sents[i]), [])] + Empties(sents, i + 1)
  }

  lemma {:induction false} EmptiesFacts(sents: seq<Sent>, i: nat)
    requires i <= |sents|
    ensures Flatten(Empties(sents, i)) == []
    ensures Sentences(Empties(sents, i)) == sents[i..]
    ensures forall b :: b in Empties(sents, i) ==> InBucket(b)
    ensures Occupied(Empties(sents, i)) == []
    decreases |sents| - i
  {
    EmptiesFlat(sents, i);
    EmptiesUnoccupied(sents, i);
    EmptiesInBucket(sents, i);
    EmptiesSentences(sents, i);
  }

  /** The buckets of the early exit hold no entity. */
  lemma {:induction false} EmptiesFlat(sents: seq<Sent>, i: nat)
    requires i <= |sents|
    ensures Flatten(Empties(sents, i)) == []
    decreases |sents| - i
  {
    if i < |sents| {
      EmptiesFlat(sents, i + 1);
      FlattenAppend([Bucket(Some(sents[i]), [])], Empties(sents, i + 1));
    }
  }

  lemma {:induction false} EmptiesUnoccupied(sents: seq<Sent>, i: nat)
    requires i <= |sents|
    ensures Occupied(Empties(sents, i)) == []
    decreases |sents| - i
  {
    if i < |sents| {
      EmptiesUnoccupied(sents, i + 1);
      OccupiedAppend([Bucket(Some(sents[i]), [])], Empties(sents, i + 1));
    }
  }

  lemma {:induction false} EmptiesInBucket(sents: seq<Sent>, i: nat)
    requires i <= |sents|
    ensures forall b :: b in Empties(sents, i) ==> InBucket(b)
    decreases |sents| - i
  {
    if i < |sents| {
      EmptiesInBucket(sents, i + 1);
    }
  }

  /** The early exit lists the sentences from `i` on. */
  lemma {:induction false} EmptiesSentences(sents: seq<Sent>, i: nat)
    requires i <= |sents|
    ensures Sentences(Empties(sents, i)) == sents[i..]
    decreases |sents| - i
  {
    if i < |sents| {
      EmptiesSentences(sents, i + 1);
      SentencesAppend([Bucket(Some(sents[i]), [])], Empties(sents, i + 1));
      assert sents[i..] == [sents[i]] + sents[i + 1..];
    }
  }

  /** The entities of the buckets, in order. */
  function Flatten(bs: seq<Bucket>): seq<Entity> {
    if |bs| == 0 then [] else bs[0].entities + Flatten(bs[1..])
  }

  /** The sentences of the buckets that have one, in order. */
  function Sentences(bs: seq<Bucket>): seq<Sent> {
    if |bs| == 0 then [] else SentOf(bs[0]) + Sentences(bs[1..])
  }

  function SentOf(b: Bucket): seq<Sent> {
    if b.sent.Some? then [b.sent.value] else []
  }

  /** The first sentence the cursor at `si` has still to emit. */
  function Unemitted(si: int): nat {
    if si < 0 then 0 else si
  }

  /** The buckets that hold at least one entity, in order. */
  function Occupied(bs: seq<Bucket>): seq<Bucket> {
    if |bs| == 0 then []
    else (if |bs[0].entities| > 0 then [bs[0]] else []) + Occupied(bs[1..])
  }

  /** Every entity of a bucket starts before the end of its sentence (before
      -1 when it has none). */
  predicate InBucket(b: Bucket) {
    forall e :: e in b.entities ==> e.start < BucketEnd(b)
  }

  lemma {:induction false} FlattenAppend(a: seq<Bucket>, b: seq<Bucket>)
    ensures Flatten(a + b) == Flatten(a) + Flatten(b)
  {
    if |a| == 0 {
      assert a + b == b;
    } else {
      assert (a + b)[1..] == a[1..] + b;
      FlattenAppend(a[1..], b);
    }
  }

  lemma {:induction false} SentencesAppend(a: seq<Bucket>, b: seq<Bucket>)
    ensures Sentences(a + b) == Sentences(a) + Sentences(b)
  {
    if |a| == 0 {
      assert a + b == b;
    } else {
      assert (a + b)[1..] == a[1..] + b;
      SentencesAppend(a[1..], b);
    }
  }

  lemma {:induction false} OccupiedAppend(a: seq<Bucket>, b: seq<Bucket>)
    ensures Occupied(a + b) == Occupied(a) + Occupied(b)
  {
    if |a| == 0 {
      assert a + b == b;
    } else {
      assert (a + b)[1..] == a[1..] + b;
      OccupiedAppend(a[1..], b);
    }
  }

  /** The final loop hands out exactly the open bucket's entities. */
  lemma {:induction false} TailFlatten(sents: seq<Sent>, addEmpty: bool, si: int, cur: seq<Entity>)
    requires -1 <= si < |sents|
    ensures Flatten(TailFrom(sents, addEmpty, si, cur)) == cur
    decreases |sents| - si
  {
    if |cur| > 0 || addEmpty {
      var b := Bucket(Current(sents, si), cur);
      var rest := if si + 1 < |sents| then TailFrom(sents, addEmpty, si + 1, []) else [];
      if si + 1 < |sents| {
        TailFlatten(sents, addEmpty, si + 1, []);
      }
      FlattenAppend([b], rest);
      assert Flatten([b]) == cur;
    }
  }

  /** Every bucket of the final loop keeps its entities inside its
      sentence. */
  lemma {:induction false} TailInBucket(sents: seq<Sent>, addEmpty: bool, si: int, cur: seq<Entity>)
    requires -1 <= si < |sents|
    requires forall e :: e in cur ==> e.start < CurEnd(sents, si)
    ensures forall b :: b in TailFrom(sents, addEmpty, si, cur) ==> InBucket(b)
    decreases |sents| - si
  {
    if |cur| > 0 || addEmpty {
      if si + 1 < |sents| {
        TailInBucket(sents, addEmpty, si + 1, []);
      }
    }
  }

  /** With `add_empty` the final loop lists every sentence from the cursor
      on. */
  lemma {:induction false} TailSentences(sents: seq<Sent>, si: int, cur: seq<Entity>)
    requires -1 <= si < |sents|
    ensures Sentences(TailFrom(sents, true, si, cur)) == sents[Unemitted(si)..]
    decreases |sents| - si
  {
    var b := Bucket(Current(sents, si), cur);
    var rest := if si + 1 < |sents| then TailFrom(sents, true, si + 1, []) else [];
    if si + 1 < |sents| {
      TailSentences(sents, si + 1, []);
    }
    SentencesAppend([b], rest);
    assert Sentences(rest) == sents[si + 1..];
    if si >= 0 {
      assert sents[si..] == [sents[si]] + sents[si + 1..];
    }
  }

  /** The invariants of the entity loop, carried to its result. */
  lemma PlaceFacts(sents: seq<Sent>, es: seq<Entity>, addEmpty: bool, k: nat, si: int, cur: seq<Entity>)
    requires k <= |es| && -1 <= si < |sents|
    requires forall e :: e in cur ==> e.start < CurEnd(sents, si)
    ensures Place(sents, es, addEmpty, k, si, cur).Err? ==> Place(sents, es, addEmpty, k, si, cur).error == IndexError
    ensures Place(sents, es, addEmpty, k, si, cur).Ok? ==> Flatten(Place(sents, es, addEmpty, k, si, cur).value) == cur + es[k..]
    ensures Place(sents, es, addEmpty, k, si, cur).Ok? ==> forall b :: b in Place(sents, es, addEmpty, k, si, cur).value ==> InBucket(b)
    ensures Place(sents, es, addEmpty, k, si, cur).Ok? && addEmpty
      ==> Sentences(Place(sents, es, addEmpty, k, si, cur).value) == sents[Unemitted(si)..]
  {
    PlaceError(sents, es, addEmpty, k, si, cur);
    PlaceFlatten(sents, es, addEmpty, k, si, cur);
    PlaceInBucket(sents, es, addEmpty, k, si, cur);
    if addEmpty {
      PlaceSentences(sents, es, k, si, cur);
    }
  }

  /** The only failure is running past the last sentence. */
  lemma {:induction false} PlaceError(sents: seq<Sent>, es: seq<Entity>, addEmpty: bool, k: nat, si: int, cur: seq<Entity>)
    requires k <= |es| && -1 <= si < |sents|
    ensures Place(sents, es, addEmpty, k, si, cur).Err? ==> Place(sents, es, addEmpty, k, si, cur).error == IndexError
    decreases |es| - k, |sents| - si
  {
    if k < |es| {
      if es[k].start >= CurEnd(sents, si) {
        if si + 1 < |sents| {
          PlaceError(sents, es, addEmpty, k, si + 1, []);
        }
      } else {
        PlaceError(sents, es, addEmpty, k + 1, si, cur + [es[k]]);
      }
    }
  }

  /** The buckets hand out the gathered entities and then the rest, in
      order. */
  lemma {:induction false} PlaceFlatten(sents: seq<Sent>, es: seq<Entity>, addEmpty: bool, k: nat, si: int, cur: seq<Entity>)
    requires k <= |es| && -1 <= si < |sents|
    ensures Place(sents, es, addEmpty, k, si, cur).Ok? ==> Flatten(Place(sents, es, addEmpty, k, si, cur).value) == cur + es[k..]
    decreases |es| - k, |sents| - si, 1
  {
    if k == |es| {
      TailFlatten(sents, addEmpty, si, cur);
      assert cur + es[k..] == cur;
    } else if es[k].start >= CurEnd(sents, si) {
      if si + 1 < |sents| {
        AdvanceFlatten(sents, es, addEmpty, k, si, cur);
      }
    } else {
      PlaceFlatten(sents, es, addEmpty, k + 1, si, cur + [es[k]]);
      assert (cur + [es[k]]) + es[k + 1..] == cur + es[k..];
    }
  }

  lemma {:induction false} AdvanceFlatten(sents: seq<Sent>, es: seq<Entity>, addEmpty: bool, k: nat, si: int, cur: seq<Entity>)
    requires k < |es| && -1 <= si && si + 1 < |sents|
    requires es[k].start >= CurEnd(sents, si)
    ensures Place(sents, es, addEmpty, k, si, cur).Ok? ==> Flatten(Place(sents, es, addEmpty, k, si, cur).value) == cur + es[k..]
    decreases |es| - k, |sents| - si, 0
  {
    var next := Place(sents, es, addEmpty, k, si + 1, []);
    PlaceFlatten(sents, es, addEmpty, k, si + 1, []);
    var em := Emitted(sents, addEmpty, si, cur);
    if next.Ok? {
      assert Place(sents, es, addEmpty, k, si, cur).value == em + next.value;
      FlattenAppend(em, next.value);
      assert Flatten(em) == cur by {
        if |em| > 0 {
          assert Flatten(em) == cur + Flatten([]);
        }
      }
      assert Flatten(next.value) == es[k..];
    }
  }

  /** Every bucket keeps its entities inside its sentence. */
  lemma {:induction false} PlaceInBucket(sents: seq<Sent>, es: seq<Entity>, addEmpty: bool, k: nat, si: int, cur: seq<Entity>)
    requires k <= |es| && -1 <= si < |sents|
    requires forall e :: e in cur ==> e.start < CurEnd(sents, si)
    ensures Place(sents, es, addEmpty, k, si, cur).Ok? ==> forall b :: b in Place(sents, es, addEmpty, k, si, cur).value ==> InBucket(b)
    decreases |es| - k, |sents| - si, 1
  {
    if k == |es| {
      TailInBucket(sents, addEmpty, si, cur);
    } else if es[k].start >= CurEnd(sents, si) {
      if si + 1 < |sents| {
        AdvanceInBucket(sents, es, addEmpty, k, si, cur);
      }
    } else {
      PlaceInBucket(sents, es, addEmpty, k + 1, si, cur + [es[k]]);
    }
  }

  lemma {:induction false} AdvanceInBucket(sents: seq<Sent>, es: seq<Entity>, addEmpty: bool, k: nat, si: int, cur: seq<Entity>)
    requires k < |es| && -1 <= si && si + 1 < |sents|
    requires forall e :: e in cur ==> e.start < CurEnd(sents, si)
    requires es[k].start >= CurEnd(sents, si)
    ensures Place(sents, es, addEmpty, k, si, cur).Ok? ==> forall b :: b in Place(sents, es, addEmpty, k, si, cur).value ==> InBucket(b)
    decreases |es| - k, |sents| - si, 0
  {
    var next := Place(sents, es, addEmpty, k, si + 1, []);
    PlaceInBucket(sents, es, addEmpty, k, si + 1, []);
    var em := Emitted(sents, addEmpty, si, cur);
    assert forall b :: b in em ==> InBucket(b);
  }

  /** With `add_empty`, the buckets list every sentence the cursor has not
      yet left, once each and in order. */
  lemma {:induction false} PlaceSentences(sents: seq<Sent>, es: seq<Entity>, k: nat, si: int, cur: seq<Entity>)
    requires k <= |es| && -1 <= si < |sents|
    ensures Place(sents, es, true, k, si, cur).Ok? ==> Sentences(Place(sents, es, true, k, si, cur).value) == sents[Unemitted(si)..]
    decreases |es| - k, |sents| - si, 1
  {
    if k == |es| {
      TailSentences(sents, si, cur);
    } else if es[k].start >= CurEnd(sents, si) {
      if si + 1 < |sents| {
        AdvanceSentences(sents, es, k, si, cur);
      }
    } else {
      PlaceSentences(sents, es, k + 1, si, cur + [es[k]]);
    }
  }

  lemma {:induction false} AdvanceSentences(sents: seq<Sent>, es: seq<Entity>, k: nat, si: int, cur: seq<Entity>)
    requires k < |es| && -1 <= si && si + 1 < |sents|
    requires es[k].start >= CurEnd(sents, si)
    ensures Place(sents, es, true, k, si, cur).Ok? ==> Sentences(Place(sents, es, true, k, si, cur).value) == sents[Unemitted(si)..]
    decreases |es| - k, |sents| - si, 0
  {
    var next := Place(sents, es, true, k, si + 1, []);
    PlaceSentences(sents, es, k, si + 1, []);
    var em := Emitted(sents, true, si, cur);
    if next.Ok? {
      assert Place(sents, es, true, k, si, cur).value == em + next.value;
      SentencesAppend(em, next.value);
      assert Sentences(next.value) == sents[si + 1..];
      if si >= 0 {
        assert Sentences(em) == [sents[si]] by {
          assert Sentences(em) == [sents[si]] + Sentences([]);
        }
        assert sents[si..] == [sents[si]] + sents[si + 1..];
      } else {
        assert Sentences(em) == [] by {
          if |em| > 0 {
            assert Sentences(em) == [] + Sentences([]);
          }
        }
      }
    }
  }

  /** The result with empty buckets dropped. */
  function DropEmpty(r: Result<seq<Bucket>>): Result<seq<Bucket>> {
    if r.Ok? then Ok(Occupied(r.value)) else r
  }

  /** Asking for empty buckets adds only empty buckets: dropping them from
      the `add_empty` result gives the plain result, failures included. */
  lemma AddEmptyOnlyAddsEmpty(sents: seq<Sent>, es: seq<Entity>)
    ensures DropEmpty(AddEntitiesToSentences(sents, es, true)) == AddEntitiesToSentences(sents, es, false)
  {
    if |sents| == 0 || |es| == 0 {
      EmptiesUnoccupied(sents, 0);
    } else {
      PlaceOccupied(sents, es, 0, -1, []);
    }
  }

  /** The final loop from a bucket with no entities emits only empty
      buckets. */
  lemma {:induction false} TailUnoccupied(sents: seq<Sent>, si: int)
    requires -1 <= si < |sents|
    ensures Occupied(TailFrom(sents, true, si, [])) == []
    decreases |sents| - si
  {
    var rest := if si + 1 < |sents| then TailFrom(sents, true, si + 1, []) else [];
    if si + 1 < |sents| {
      TailUnoccupied(sents, si + 1);
    }
    OccupiedAppend([Bucket(Current(sents, si), [])], rest);
  }

  lemma TailOccupied(sents: seq<Sent>, si: int, cur: seq<Entity>)
    requires -1 <= si < |sents|
    ensures Occupied(TailFrom(sents, true, si, cur)) == TailFrom(sents, false, si, cur)
  {
    var b := Bucket(Current(sents, si), cur);
    var rest := if si + 1 < |sents| then TailFrom(sents, true, si + 1, []) else [];
    if si + 1 < |sents| {
      TailUnoccupied(sents, si + 1);
      assert TailFrom(sents, false, si + 1, []) == [];
    }
    OccupiedAppend([b], rest);
    assert Occupied([b]) == (if |cur| > 0 then [b] else []) + Occupied([]);
  }

  lemma {:induction false} PlaceOccupied(sents: seq<Sent>, es: seq<Entity>, k: nat, si: int, cur: seq<Entity>)
    requires k <= |es| && -1 <= si < |sents|
    ensures DropEmpty(Place(sents, es, true, k, si, cur)) == Place(sents, es, false, k, si, cur)
    decreases |es| - k, |sents| - si, 1
  {
    if k == |es| {
      TailOccupied(sents, si, cur);
    } else if es[k].start >= CurEnd(sents, si) {
      if si + 1 < |sents| {
        AdvanceOccupied(sents, es, k, si, cur);
      }
    } else {
      PlaceOccupied(sents, es, k + 1, si, cur + [es[k]]);
    }
  }

  lemma {:induction false} AdvanceOccupied(sents: seq<Sent>, es: seq<Entity>, k: nat, si: int, cur: seq<Entity>)
    requires k < |es| && -1 <= si && si + 1 < |sents|
    requires es[k].start >= CurEnd(sents, si)
    ensures DropEmpty(Place(sents, es, true, k, si, cur)) == Place(sents, es, false, k, si, cur)
    decreases |es| - k, |sents| - si, 0
  {
    var next := Place(sents, es, true, k, si + 1, []);
    PlaceOccupied(sents, es, k, si + 1, []);
    var em := Emitted(sents, true, si, cur);
    if next.Ok? {
      OccupiedAppend(em, next.value);
      assert Occupied(em) == Emitted(sents, false, si, cur) by {
        if |em| > 0 {
          assert Occupied(em) == (if |cur| > 0 then em else []) + Occupied([]);
        }
      }
    }
  }

  /** Some entity starts at or after the end of the last sentence. */
  predicate Beyond(sents: seq<Sent>, es: seq<Entity>)
    requires |sents| > 0
  {
    exists k :: 0 <= k < |es| && es[k].start >= End(sents[|sents| - 1])
  }

  /** No sentence ends after a later one. */
  predicate EndsSorted(sents: seq<Sent>) {
    forall a, b :: 0 <= a <= b < |sents| ==> End(sents[a]) <= End(sents[b])
  }

  /** `add_entities_to_sentences` fails only when an entity starts at or
      after the end of the last sentence; when the sentences end in order
      (and the last one ends at or after -1, where the cursor starts), any
      such entity makes it fail. */
  lemma AddEntitiesFails(sents: seq<Sent>, es: seq<Entity>, addEmpty: bool)
    requires |sents| > 0
    ensures AddEntitiesToSentences(sents, es, addEmpty).Err? ==> Beyond(sents, es)
    ensures EndsSorted(sents) && End(sents[|sents| - 1]) >= -1 && Beyond(sents, es)
      ==> AddEntitiesToSentences(sents, es, addEmpty).Err?
  {
    if |es| > 0 {
      PlaceErrBeyond(sents, es, addEmpty, 0, -1, []);
      if EndsSorted(sents) && End(sents[|sents| - 1]) >= -1 && Beyond(sents, es) {
        var kb :| 0 <= kb < |es| && es[kb].start >= End(sents[|sents| - 1]);
        PlaceReachesErr(sents, es, addEmpty, 0, -1, [], kb);
      }
    }
  }

  lemma {:induction false} PlaceErrBeyond(sents: seq<Sent>, es: seq<Entity>, addEmpty: bool, k: nat, si: int, cur: seq<Entity>)
    requires k <= |es| && -1 <= si < |sents| && |sents| > 0
    ensures Place(sents, es, addEmpty, k, si, cur).Err? ==> Beyond(sents, es)
    decreases |es| - k, |sents| - si
  {
    if k < |es| {
      if es[k].start >= CurEnd(sents, si) {
        if si + 1 < |sents| {
          PlaceErrBeyond(sents, es, addEmpty, k, si + 1, []);
        } else {
          assert es[k].start >= End(sents[|sents| - 1]);
        }
      } else {
        PlaceErrBeyond(sents, es, addEmpty, k + 1, si, cur + [es[k]]);
      }
    }
  }

  lemma {:induction false} PlaceReachesErr(sents: seq<Sent>, es: seq<Entity>, addEmpty: bool, k: nat, si: int, cur: seq<Entity>, kb: nat)
    requires k <= kb < |es| && -1 <= si < |sents| && |sents| > 0
    requires EndsSorted(sents) && End(sents[|sents| - 1]) >= -1
    requires es[kb].start >= End(sents[|sents| - 1])
    ensures Place(sents, es, addEmpty, k, si, cur).Err?
    decreases |es| - k, |sents| - si
  {
    assert CurEnd(sents, si) <= End(sents[|sents| - 1]);
    if es[k].start >= CurEnd(sents, si) {
      if si + 1 < |sents| {
        PlaceReachesErr(sents, es, addEmpty, k, si + 1, [], kb);
      }
    } else {
      PlaceReachesErr(sents, es, addEmpty, k + 1, si, cur + [es[k]], kb);
    }
  }

  /** Entities in order of start. */
  predicate StartsSorted(es: seq<Entity>) {
    forall a, b :: 0 <= a <= b < |es| ==> es[a].start <= es[b].start
  }

  /** The sentences before `si` all end at or before `t`. */
  predicate Passed(sents: seq<Sent>, si: int, t: int) {
    forall j :: 0 <= j < si && j < |sents| ==> End(sents[j]) <= t
  }

  /** A bucket's sentence has the smallest end exceeding the start of each
      of its entities: with sentence ends strictly increasing, it is the
      first sentence whose end exceeds that start. */
  predicate FirstFit(sents: seq<Sent>, b: Bucket) {
    b.sent.Some? ==>
      forall e, j :: e in b.entities && 0 <= j < |sents| && End(sents[j]) > e.start
        ==> End(sents[j]) >= End(b.sent.value)
  }

  /** For entities sorted by start and sentences sorted by end, every entity
      lands in the first sentence whose end exceeds its start. */
  lemma AddEntitiesFirstFit(sents: seq<Sent>, es: seq<Entity>, addEmpty: bool)
    requires StartsSorted(es) && EndsSorted(sents)
    ensures AddEntitiesToSentences(sents, es, addEmpty).Ok?
      ==> forall b :: b in AddEntitiesToSentences(sents, es, addEmpty).value ==> FirstFit(sents, b)
  {
    if |sents| == 0 || |es| == 0 {
      if addEmpty {
        EmptiesFlatBuckets(sents, 0);
      }
    } else {
      PlaceFirstFit(sents, es, addEmpty, 0, -1, []);
    }
  }

  lemma {:induction false} EmptiesFlatBuckets(sents: seq<Sent>, i: nat)
    requires i <= |sents|
    ensures forall b :: b in Empties(sents, i) ==> b.entities == []
    decreases |sents| - i
  {
    if i < |sents| {
      EmptiesFlatBuckets(sents, i + 1);
    }
  }

  lemma {:induction false} TailFirstFit(sents: seq<Sent>, addEmpty: bool, si: int, cur: seq<Entity>)
    requires -1 <= si < |sents| && EndsSorted(sents)
    requires forall e :: e in cur ==> Passed(sents, si, e.start)
    ensures forall b :: b in TailFrom(sents, addEmpty, si, cur) ==> FirstFit(sents, b)
    decreases |sents| - si
  {
    if |cur| > 0 || addEmpty {
      if si + 1 < |sents| {
        TailFirstFit(sents, addEmpty, si + 1, []);
      }
      OpenFirstFit(sents, si, cur);
    }
  }

  /** The bucket open at `si` fits when its entities have passed the
      earlier sentences. */
  lemma OpenFirstFit(sents: seq<Sent>, si: int, cur: seq<Entity>)
    requires -1 <= si < |sents| && EndsSorted(sents)
    requires forall e :: e in cur ==> Passed(sents, si, e.start)
    ensures FirstFit(sents, Bucket(Current(sents, si), cur))
  {
    if si >= 0 {
      forall e, j | e in cur && 0 <= j < |sents| && End(sents[j]) > e.start
        ensures End(sents[j]) >= End(sents[si])
      {
        assert Passed(sents, si, e.start);
      }
    }
  }

  lemma {:induction false} PlaceFirstFit(sents: seq<Sent>, es: seq<Entity>, addEmpty: bool, k: nat, si: int, cur: seq<Entity>)
    requires k <= |es| && -1 <= si < |sents|
    requires StartsSorted(es) && EndsSorted(sents)
    requires k < |es| ==> Passed(sents, si, es[k].start)
    requires forall e :: e in cur ==> Passed(sents, si, e.start)
    ensures Place(sents, es, addEmpty, k, si, cur).Ok?
      ==> forall b :: b in Place(sents, es, addEmpty, k, si, cur).value ==> FirstFit(sents, b)
    decreases |es| - k, |sents| - si, 1
  {
    if k == |es| {
      TailFirstFit(sents, addEmpty, si, cur);
    } else if es[k].start >= CurEnd(sents, si) {
      if si + 1 < |sents| {
        AdvanceFirstFit(sents, es, addEmpty, k, si, cur);
      }
    } else {
      if k + 1 < |es| {
        assert es[k].start <= es[k + 1].start;
      }
      PlaceFirstFit(sents, es, addEmpty, k + 1, si, cur + [es[k]]);
    }
  }

  lemma {:induction false} AdvanceFirstFit(sents: seq<Sent>, es: seq<Entity>, addEmpty: bool, k: nat, si: int, cur: seq<Entity>)
    requires k < |es| && -1 <= si && si + 1 < |sents|
    requires StartsSorted(es) && EndsSorted(sents)
    requires Passed(sents, si, es[k].start)
    requires forall e :: e in cur ==> Passed(sents, si, e.start)
    requires es[k].start >= CurEnd(sents, si)
    ensures Place(sents, es, addEmpty, k, si, cur).Ok?
      ==> forall b :: b in Place(sents, es, addEmpty, k, si, cur).value ==> FirstFit(sents, b)
    decreases |es| - k, |sents| - si, 0
  {
    assert Passed(sents, si + 1, es[k].start);
    PlaceFirstFit(sents, es, addEmpty, k, si + 1, []);
    OpenFirstFit(sents, si, cur);
  }

  /** A bucket's sentence, when it has one, is one of the input sentences. */
  predicate FromSents(sents: seq<Sent>, b: Bucket) {
    b.sent.Some? ==> b.sent.value in sents
  }

  /** Every bucket's sentence is one of the input sentences. */
  lemma AddEntitiesFromSents(sents: seq<Sent>, es: seq<Entity>, addEmpty: bool)
    ensures AddEntitiesToSentences(sents, es, addEmpty).Ok?
      ==> forall b :: b in AddEntitiesToSentences(sents, es, addEmpty).value ==> FromSents(sents, b)
  {
    if |sents| == 0 || |es| == 0 {
      if addEmpty {
        EmptiesFromSents(sents, 0);
      }
    } else {
      PlaceFromSents(sents, es, addEmpty, 0, -1, []);
    }
  }

  lemma {:induction false} EmptiesFromSents(sents: seq<Sent>, i: nat)
    requires i <= |sents|
    ensures forall b :: b in Empties(sents, i) ==> FromSents(sents, b)
    decreases |sents| - i
  {
    if i < |sents| {
      EmptiesFromSents(sents, i + 1);
    }
  }

  lemma {:induction false} TailFromSents(sents: seq<Sent>, addEmpty: bool, si: int, cur: seq<Entity>)
    requires -1 <= si < |sents|
    ensures forall b :: b in TailFrom(sents, addEmpty, si, cur) ==> FromSents(sents, b)
    decreases |sents| - si
  {
    if |cur| > 0 || addEmpty {
      if si + 1 < |sents| {
        TailFromSents(sents, addEmpty, si + 1, []);
      }
    }
  }

  lemma {:induction false} PlaceFromSents(sents: seq<Sent>, es: seq<Entity>, addEmpty: bool, k: nat, si: int, cur: seq<Entity>)
    requires k <= |es| && -1 <= si < |sents|
    ensures Place(sents, es, addEmpty, k, si, cur).Ok? ==> forall b :: b in Place(sents, es, addEmpty, k, si, cur).value ==> FromSents(sents, b)
    decreases |es| - k, |sents| - si, 1
  {
    if k == |es| {
      TailFromSents(sents, addEmpty, si, cur);
    } else if es[k].start >= CurEnd(sents, si) {
      if si + 1 < |sents| {
        AdvanceFromSents(sents, es, addEmpty, k, si, cur);
      }
    } else {
      PlaceFromSents(sents, es, addEmpty, k + 1, si, cur + [es[k]]);
    }
  }

  lemma {:induction false} AdvanceFromSents(sents: seq<Sent>, es: seq<Entity>, addEmpty: bool, k: nat, si: int, cur: seq<Entity>)
    requires k < |es| && -1 <= si && si + 1 < |sents|
    requires es[k].start >= CurEnd(sents, si)
    ensures Place(sents, es, addEmpty, k, si, cur).Ok? ==> forall b :: b in Place(sents, es, addEmpty, k, si, cur).value ==> FromSents(sents, b)
    decreases |es| - k, |sents| - si, 0
  {
    PlaceFromSents(sents, es, addEmpty, k, si + 1, []);
    var em := Emitted(sents, addEmpty, si, cur);
    assert forall b :: b in em ==> FromSents(sents, b);
  }

  /** Entity `j` of bucket `k` sits at position `|Flatten(bs[..k])| + j` of
      the flattened list. */
  lemma FlattenAt(bs: seq<Bucket>, k: nat, j: nat)
    requires k < |bs| && j < |bs[k].entities|
    ensures |Flatten(bs[..k])| + j < |Flatten(bs)|
    ensures Flatten(bs)[|Flatten(bs[..k])| + j] == bs[k].entities[j]
  {
    assert bs == bs[..k] + bs[k..];
    FlattenAppend(bs[..k], bs[k..]);
    assert Flatten(bs[k..]) == bs[k].entities + Flatten(bs[k + 1..]);
  }

  /** The entities of all buckets are those of all but the last, then the
      last one's. */
  lemma {:induction false} FlattenLast(bs: seq<Bucket>)
    requires |bs| > 0
    ensures Flatten(bs) == Flatten(bs[..|bs| - 1]) + bs[|bs| - 1].entities
  {
    if |bs| == 1 {
      assert bs[1..] == [];
      assert bs[..0] == [];
    } else {
      FlattenLast(bs[1..]);
      assert bs[1..][..|bs| - 2] == bs[..|bs| - 1][1..];
      assert bs[..|bs| - 1][0] == bs[0];
    }
  }
}

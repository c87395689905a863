/** Recording the user's deletions as REJECTED keywords and dropping them
    again (`add_rejected_entities_from_source` and `filter_rejected_entities`
    in `dt_nav/processes/ner/jsonl_common.py`).
 */
module JsonlRejected {
  import opened Outcomes
  import opened Spans
  import opened JsonlCommon

  /** Some entity of `es` has keyword `v`. */
  predicate IsKeyOf(text: string, es: seq<Entity>, v: string) {
    exists e :: e in es && Key(text, e) == v
  }

  /** Some entity of `es` at or after position `i` has keyword `v`. */
  predicate KeyAfter(text: string, es: seq<Entity>, i: nat, v: string) {
    exists j :: i <= j < |es| && Key(text, es[j]) == v
  }

  /** No keyword occurs twice. */
  predicate NoRepeats(ks: seq<string>) {
    forall a, b :: 0 <= a < b < |ks| ==> ks[a] != ks[b]
  }

  /** The keywords seen so far, `acc`, followed by the new keywords of the
      entities from position `i` on, in order of first occurrence. */
  function KeysFrom(text: string, es: seq<Entity>, i: nat, acc: seq<string>): (r: seq<string>)
    requires i <= |es| && NoRepeats(acc)
    ensures NoRepeats(r)
    ensures forall v :: v in r <==> v in acc || KeyAfter(text, es, i, v)
    decreases |es| - i
  {
    if i == |es| then acc
    else
      var v := Key(text, es[i]);
      var next := if v in acc then acc else acc + [v];
      assert NoRepeats(next) by {
        if v !in acc {
          forall a, b | 0 <= a < b < |next|
            ensures next[a] != next[b]
          {
            if b == |acc| {
              assert next[a] == acc[a];
            }
          }
        }
      }
      assert forall w :: KeyAfter(text, es, i, w) <==> w == v || KeyAfter(text, es, i + 1, w) by {
        forall w
          ensures KeyAfter(text, es, i, w) <==> w == v || KeyAfter(text, es, i + 1, w)
        {
          if KeyAfter(text, es, i, w) && w != v {
            var j :| i <= j < |es| && Key(text, es[j]) == w;
            assert j != i;
          }
        }
      }
      KeysFrom(text, es, i + 1, next)
  }

  /** The keys of `group_list_by(es, key)`: every keyword of `es` once, in the
      order of its first occurrence. */
  function KeysInOrder(text: string, es: seq<Entity>): (r: seq<string>)
    ensures forall v :: v in r <==> IsKeyOf(text, es, v)
    ensures NoRepeats(r)
  {
    var r := KeysFrom(text, es, 0, []);
    assert forall v :: KeyAfter(text, es, 0, v) <==> IsKeyOf(text, es, v) by {
      forall v
        ensures KeyAfter(text, es, 0, v) <==> IsKeyOf(text, es, v)
      {
        if IsKeyOf(text, es, v) {
          var e :| e in es && Key(text, e) == v;
          var j :| 0 <= j < |es| && es[j] == e;
        }
      }
    }
    r
  }

  /** The group of `v` in `group_list_by(es, key)`: the entities of `es` with
      keyword `v`, in order. */
  function WithKey(text: string, es: seq<Entity>, v: string): (r: seq<Entity>)
    ensures forall e :: e in r <==> e in es && Key(text, e) == v
  {
    if |es| == 0 then []
    else
      assert forall e :: e in es <==> e == es[0] || e in es[1..];
      (if Key(text, es[0]) == v then [es[0]] else []) + WithKey(text, es[1..], v)
  }

  /** A source keyword whose entities are added as rejected: its source status
      is REJECTED, EXTRACTED or CONFIRMED, and no target entity has it. */
  predicate Eligible(target: Datum, source: Datum, v: string) {
    && v in source.status
    && source.status[v] != Added
    && !IsKeyOf(target.text, target.entities, v)
  }

  /** The loop over the source keywords `keys` (lines 228-243): the entities
      to add and the statuses to set, or KeyError for a keyword without a
      source status. */
  function Rejections(target: Datum, source: Datum, keys: seq<string>)
    : (r: Result<(seq<Entity>, map<string, Status>)>)
    ensures r.Err? <==> exists t :: 0 <= t < |keys| && keys[t] !in source.status
    ensures r.Err? ==> r.error == KeyError
    ensures r.Ok? ==> forall e :: e in r.value.0 <==>
      e in source.entities && Key(source.text, e) in keys && Eligible(target, source, Key(source.text, e))
    ensures r.Ok? ==> forall v :: v in r.value.1 <==> v in keys && Eligible(target, source, v)
    ensures r.Ok? ==> forall v :: v in r.value.1 ==> r.value.1[v] == Rejected
    decreases |keys|
  {
    if |keys| == 0 then Ok(([], map[]))
    else
      var v := keys[0];
      assert forall w :: w in keys <==> w == v || w in keys[1..];
      if v !in source.status then Err(KeyError)
      else
        match Rejections(target, source, keys[1..])
        case Err(e) =>
          assert exists t :: 0 <= t < |keys| && keys[t] !in source.status by {
            var t :| 0 <= t < |keys[1..]| && keys[1..][t] !in source.status;
            assert keys[t + 1] == keys[1..][t];
          }
          Err(e)
        case Ok(rest) =>
          assert forall t :: 0 <= t < |keys| ==> keys[t] in source.status by {
            forall t | 0 <= t < |keys|
              ensures keys[t] in source.status
            {
              if t > 0 {
                assert keys[t] == keys[1..][t - 1];
              }
            }
          }
          if Eligible(target, source, v) then
            Ok((WithKey(source.text, source.entities, v) + rest.0, rest.1[v := Rejected]))
          else Ok(rest)
  }

  /** `add_rejected_entities_from_source`: every source keyword that the user
      removed from the target (its status is not ADDED and no target entity
      has it) comes back with all its source occurrences, marked REJECTED. The
      texts must agree, and every source keyword must have a source status. */
  function AddRejected(target: Datum, source: Datum): (r: Result<Datum>)
    ensures r == Err(AssertionError) <==> target.text != source.text
    ensures r == Err(KeyError) <==>
      target.text == source.text && exists e :: e in source.entities && Key(source.text, e) !in source.status
    ensures r.Err? ==> r.error == AssertionError || r.error == KeyError
    ensures r.Ok? ==>
      && r.value.text == target.text
      && SortedByStart(r.value.entities)
      && (forall e :: e in r.value.entities <==>
            e in target.entities || (e in source.entities && Eligible(target, source, Key(source.text, e))))
      && (forall v :: v in r.value.status <==>
            v in target.status || (IsKeyOf(source.text, source.entities, v) && Eligible(target, source, v)))
      && (forall v :: v in r.value.status ==>
            r.value.status[v] ==
              if IsKeyOf(source.text, source.entities, v) && Eligible(target, source, v) then Rejected
              else target.status[v])
  {
    if target.text != source.text then Err(AssertionError)
    else
      var keys := KeysInOrder(source.text, source.entities);
      RejectionsFail(target, source);
      match Rejections(target, source, keys)
      case Err(e) => Err(e)
      case Ok((added, rejected)) =>
        var all := target.entities + added;
        SortByStartMembers(all);
        Ok(Datum(target.text, SortByStart(all), target.status + rejected))
  }

  /** The loop over the source keywords fails exactly when some source
      entity's keyword has no source status. */
  lemma RejectionsFail(target: Datum, source: Datum)
    ensures var keys := KeysInOrder(source.text, source.entities);
      && (Rejections(target, source, keys).Err? <==>
            exists e :: e in source.entities && Key(source.text, e) !in source.status)
      && forall e :: e in source.entities ==> Key(source.text, e) in keys
  {
    var keys := KeysInOrder(source.text, source.entities);
    forall e | e in source.entities
      ensures Key(source.text, e) in keys
    {
      assert IsKeyOf(source.text, source.entities, Key(source.text, e));
    }
    if Rejections(target, source, keys).Err? {
      var t :| 0 <= t < |keys| && keys[t] !in source.status;
      assert IsKeyOf(source.text, source.entities, keys[t]);
    }
  }

  /** The entities of `es` whose keyword is not REJECTED, in order, or
      KeyError for an entity whose keyword has no status (lines 265-270). */
  function KeepLive(text: string, status: map<string, Status>, es: seq<Entity>): (r: Result<seq<Entity>>)
    ensures r.Err? <==> exists e :: e in es && Key(text, e) !in status
    ensures r.Err? ==> r.error == KeyError
    ensures r.Ok? ==> forall e :: e in r.value <==> e in es && status[Key(text, e)] != Rejected
  {
    if |es| == 0 then Ok([])
    else
      var v := Key(text, es[0]);
      assert forall e :: e in es <==> e == es[0] || e in es[1..];
      if v !in status then Err(KeyError)
      else
        match KeepLive(text, status, es[1..])
        case Err(e) => Err(e)
        case Ok(rest) => if status[v] != Rejected then Ok([es[0]] + rest) else Ok(rest)
  }

  /** Dropping entities from a list sorted by start leaves it sorted. */
  lemma {:induction false} KeepLiveSorted(text: string, status: map<string, Status>, es: seq<Entity>)
    requires KeepLive(text, status, es).Ok? && SortedByStart(es)
    ensures SortedByStart(KeepLive(text, status, es).value)
  {
    if |es| > 0 {
      var rest := KeepLive(text, status, es[1..]).value;
      assert SortedByStart(es[1..]);
      KeepLiveSorted(text, status, es[1..]);
      if status[Key(text, es[0])] != Rejected {
        SortedHead(es);
        assert forall y :: y in rest ==> y in es[1..];
        ConsSorted(es[0], rest);
      }
    }
  }

  /** The head of a sorted list starts no later than anything after it. */
  lemma SortedHead(es: seq<Entity>)
    requires |es| > 0 && SortedByStart(es)
    ensures forall y :: y in es[1..] ==> es[0].start <= y.start
  {
    forall y | y in es[1..]
      ensures es[0].start <= y.start
    {
      var c :| 0 <= c < |es[1..]| && es[1..][c] == y;
      assert es[c + 1] == y;
    }
  }

  /** An entity starting no later than any of a sorted list can go in front. */
  lemma ConsSorted(x: Entity, rest: seq<Entity>)
    requires SortedByStart(rest) && forall y :: y in rest ==> x.start <= y.start
    ensures SortedByStart([x] + rest)
  {
    var r := [x] + rest;
    forall a, b | 0 <= a < b < |r|
      ensures r[a].start <= r[b].start
    {
      assert r[b] == rest[b - 1] && rest[b - 1] in rest;
      if a > 0 {
        assert r[a] == rest[a - 1];
      }
    }
  }

  /** The status map without its REJECTED entries. */
  function LiveStatus(status: map<string, Status>): (r: map<string, Status>)
    ensures forall v :: v in r <==> v in status && status[v] != Rejected
    ensures forall v :: v in r ==> r[v] == status[v]
  {
    map v | v in status && status[v] != Rejected :: status[v]
  }

  /** `filter_rejected_entities`: the entities whose keyword is REJECTED and
      the REJECTED status entries are dropped; everything else is kept. An
      entity whose keyword has no status is a KeyError. */
  function FilterRejected(d: Datum): (r: Result<Datum>)
    ensures r.Err? <==> exists e :: e in d.entities && Key(d.text, e) !in d.status
    ensures r.Err? ==> r.error == KeyError
    ensures r.Ok? ==>
      && r.value.text == d.text
      && (forall e :: e in r.value.entities <==> e in d.entities && d.status[Key(d.text, e)] != Rejected)
      && (SortedByStart(d.entities) ==> SortedByStart(r.value.entities))
      && (forall v :: v in r.value.status <==> v in d.status && d.status[v] != Rejected)
      && (forall v :: v in r.value.status ==> r.value.status[v] == d.status[v])
  {
    match KeepLive(d.text, d.status, d.entities)
    case Err(e) => Err(e)
    case Ok(es) =>
      assert SortedByStart(d.entities) ==> SortedByStart(es) by {
        if SortedByStart(d.entities) {
          KeepLiveSorted(d.text, d.status, d.entities);
        }
      }
      Ok(Datum(d.text, es, LiveStatus(d.status)))
  }

  /** Entities whose keywords all have a status other than REJECTED are all
      kept. */
  lemma {:induction false} KeepLiveAll(text: string, status: map<string, Status>, es: seq<Entity>)
    requires forall e :: e in es ==> Key(text, e) in status && status[Key(text, e)] != Rejected
    ensures KeepLive(text, status, es) == Ok(es)
  {
    if |es| > 0 {
      assert forall e :: e in es[1..] ==> e in es;
      KeepLiveAll(text, status, es[1..]);
      assert es == [es[0]] + es[1..];
    }
  }

  /** Filtering twice is filtering once. */
  lemma FilterRejectedIdempotent(d: Datum)
    requires FilterRejected(d).Ok?
    ensures FilterRejected(FilterRejected(d).value) == FilterRejected(d)
  {
    var f := FilterRejected(d).value;
    KeepLiveAll(f.text, f.status, f.entities);
    assert LiveStatus(f.status) == f.status;
  }

  /** Every entity that `add_rejected_entities_from_source` adds carries a
      REJECTED keyword, so filtering the result keeps only target entities. */
  lemma AddThenFilter(target: Datum, source: Datum)
    requires AddRejected(target, source).Ok?
    requires FilterRejected(AddRejected(target, source).value).Ok?
    ensures forall e :: e in FilterRejected(AddRejected(target, source).value).value.entities ==>
      e in target.entities
  {
    var r := AddRejected(target, source).value;
    var f := FilterRejected(r).value;
    forall e | e in f.entities
      ensures e in target.entities
    {
      var v := Key(source.text, e);
      assert e in source.entities ==> IsKeyOf(source.text, source.entities, v);
    }
  }
}

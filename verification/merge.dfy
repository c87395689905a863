/** Merging a freshly extracted datum with a stored one
    (`_merge_jsonl_entities` and `merge_jsonl_with_status` in
    `dt_nav/processes/ner/jsonl_common.py`).

    The merge is a status-aware union followed by a sweep over the covered
    character indices in increasing order. At every index the covering
    entities that are not yet discarded compete; the one whose keyword has the
    highest status priority wins (ties go to the earliest in list order), and
    the others are discarded for good. Entities are identified by their
    position in the unioned list, as the source's identity set does.
 */
module JsonlMerge {
  import opened Outcomes
  import opened Spans
  import opened Dicts
  import opened PyStr
  import opened JsonlCommon

  // ---------------------------------------------------------------------------
  // Phase 1: status-aware union (lines 123-143)
  // ---------------------------------------------------------------------------

  /** A source entity is skipped when its keyword's source status is EXTRACTED
      or missing. */
  predicate Skipped(source: Datum, e: Entity) {
    StatusOr(source.status, Key(source.text, e)) == Extracted
  }

  /** The new status of a keyword whose source entity matches a target entity
      exactly: ADDED and CONFIRMED become CONFIRMED, REJECTED stays REJECTED.
      EXTRACTED never reaches this point. */
  function Promoted(ss: Status): Status {
    match ss
    case Confirmed => Confirmed
    case Added => Confirmed
    case Rejected => Rejected
    case Extracted => Extracted
  }

  /** The source entities appended to the target's, in source order. */
  function Appended(target: Datum, source: Datum, es: seq<Entity>): (r: seq<Entity>)
    ensures |r| <= |es|
    ensures forall e :: e in r <==> e in es && !Skipped(source, e) && e !in target.entities
  {
    if |es| == 0 then []
    else
      var head := if !Skipped(source, es[0]) && es[0] !in target.entities then [es[0]] else [];
      assert forall e :: e in es <==> e == es[0] || e in es[1..];
      head + Appended(target, source, es[1..])
  }

  /** The unioned entity list: the target's entities, then the appended ones. */
  function Unioned(target: Datum, source: Datum): seq<Entity> {
    target.entities + Appended(target, source, source.entities)
  }

  /** The status loop of the union, as it runs over `es`. */
  function UnionStatus(target: Datum, source: Datum, es: seq<Entity>, status: map<string, Status>)
    : map<string, Status>
    decreases |es|
  {
    if |es| == 0 then status
    else
      var v := Key(source.text, es[0]);
      var ss := StatusOr(source.status, v);
      var next := if ss != Extracted && es[0] in target.entities then status[v := Promoted(ss)] else status;
      UnionStatus(target, source, es[1..], next)
  }

  /** Some entity of `es` with keyword `v` is also a target entity, and `v` is
      not skipped. */
  predicate Matched(target: Datum, source: Datum, es: seq<Entity>, v: string) {
    && StatusOr(source.status, v) != Extracted
    && exists e :: e in es && e in target.entities && Key(source.text, e) == v
  }

  lemma {:induction false} UnionStatusClosed(
    target: Datum, source: Datum, es: seq<Entity>, status: map<string, Status>, v: string)
    ensures var r := UnionStatus(target, source, es, status);
      && (v in r <==> v in status || Matched(target, source, es, v))
      && (v in r ==> r[v] == if Matched(target, source, es, v) then Promoted(StatusOr(source.status, v)) else status[v])
    decreases |es|
  {
    if |es| > 0 {
      var w := Key(source.text, es[0]);
      var ss := StatusOr(source.status, w);
      var next := if ss != Extracted && es[0] in target.entities then status[w := Promoted(ss)] else status;
      UnionStatusClosed(target, source, es[1..], next, v);
      assert UnionStatus(target, source, es, status) == UnionStatus(target, source, es[1..], next);
      if Matched(target, source, es, v) && !Matched(target, source, es[1..], v) {
        var e :| e in es && e in target.entities && Key(source.text, e) == v;
        assert e == es[0];
      }
      if Matched(target, source, es[1..], v) {
        var e :| e in es[1..] && e in target.entities && Key(source.text, e) == v;
        assert e in es;
      }
    }
  }

  /** The status map after the union: the target's, except that every keyword
      of a non-skipped source entity that also occurs, identically, among the
      target's entities takes its promoted source status. */
  function MergedStatus(target: Datum, source: Datum): (r: map<string, Status>)
    ensures forall v :: v in r <==> v in target.status || Matched(target, source, source.entities, v)
    ensures forall v :: v in r ==>
      r[v] == (if Matched(target, source, source.entities, v) then Promoted(StatusOr(source.status, v))
               else target.status[v])
  {
    forall v
      ensures var r := UnionStatus(target, source, source.entities, target.status);
        && (v in r <==> v in target.status || Matched(target, source, source.entities, v))
        && (v in r ==> r[v] == if Matched(target, source, source.entities, v)
              then Promoted(StatusOr(source.status, v)) else target.status[v])
    {
      UnionStatusClosed(target, source, source.entities, target.status, v);
    }
    UnionStatus(target, source, source.entities, target.status)
  }

  // ---------------------------------------------------------------------------
  // Phase 2: the per-index sweep (lines 85-90, 145-175)
  // ---------------------------------------------------------------------------

  /** `_STATUS_PRIORITIES`. */
  function Priority(s: Status): (p: int)
    ensures 1 <= p <= 4
    ensures s == Confirmed <==> p == 4
  {
    match s
    case Confirmed => 4
    case Rejected => 3
    case Added => 2
    case Extracted => 1
  }

  /** Entity number `k` of `u` covers character index `j`. */
  predicate Covers(u: seq<Entity>, k: int, j: int) {
    0 <= k < |u| && u[k].start <= j < u[k].end
  }

  predicate Increasing(ks: seq<nat>) {
    forall a, b :: 0 <= a < b < |ks| ==> ks[a] < ks[b]
  }

  /** `entities_by_index[j]`: the entities among the first `n` that cover `j`,
      in list order. */
  function Covering(u: seq<Entity>, j: int, n: nat): (r: seq<nat>)
    requires n <= |u|
    ensures forall k :: k in r <==> k < n && Covers(u, k, j)
    ensures forall t :: 0 <= t < |r| ==> r[t] < n
    ensures Increasing(r)
  {
    if n == 0 then []
    else
      var rest := Covering(u, j, n - 1);
      if Covers(u, n - 1, j) then
        var r := rest + [n - 1];
        assert forall a :: 0 <= a < |rest| ==> rest[a] in rest;
        assert forall a, b :: 0 <= a < b < |r| ==> r[a] < r[b] by {
          forall a, b | 0 <= a < b < |r|
            ensures r[a] < r[b]
          {
            if b == |rest| {
              assert r[a] == rest[a] && rest[a] in rest;
            } else {
              assert r[a] == rest[a] && r[b] == rest[b];
            }
          }
        }
        r
      else rest
  }

  /** `[e for e in entities_here if e not in rejected]`. */
  function Alive(ks: seq<nat>, rejected: set<nat>): (r: seq<nat>)
    ensures forall k :: k in r <==> k in ks && k !in rejected
    ensures Increasing(ks) ==> Increasing(r)
  {
    if |ks| == 0 then []
    else
      var rest := Alive(ks[1..], rejected);
      assert forall k :: k in ks <==> k == ks[0] || k in ks[1..];
      if ks[0] in rejected then rest
      else
        var r := [ks[0]] + rest;
        assert Increasing(ks) ==> Increasing(r) by {
          if Increasing(ks) {
            assert Increasing(ks[1..]);
            forall a, b | 0 <= a < b < |r|
              ensures r[a] < r[b]
            {
              if a == 0 {
                assert r[b] in rest;
                var c :| 0 <= c < |ks[1..]| && ks[1..][c] == r[b];
                assert ks[c + 1] == r[b];
              } else {
                assert r[a] == rest[a - 1] && r[b] == rest[b - 1];
              }
            }
          }
        }
        r
  }

  /** The priority of entity `k`'s keyword, read with a hard lookup in the
      merged status (line 164). */
  function PriorityOf(u: seq<Entity>, status: map<string, Status>, text: string, k: nat): Result<int> {
    if k >= |u| then Err(IndexError)
    else if Key(text, u[k]) !in status then Err(KeyError)
    else Ok(Priority(status[Key(text, u[k])]))
  }

  /** The sort keys of the competing entities, paired with the entities. */
  function Priorities(u: seq<Entity>, status: map<string, Status>, text: string, ks: seq<nat>)
    : (r: Result<seq<(nat, int)>>)
    ensures r.Ok? <==> forall t :: 0 <= t < |ks| ==> PriorityOf(u, status, text, ks[t]).Ok?
    ensures r.Ok? ==> |r.value| == |ks| && forall t :: 0 <= t < |ks| ==>
      r.value[t] == (ks[t], PriorityOf(u, status, text, ks[t]).value)
  {
    if |ks| == 0 then Ok([])
    else
      match PriorityOf(u, status, text, ks[0])
      case Err(e) => Err(e)
      case Ok(p) =>
        match Priorities(u, status, text, ks[1..])
        case Err(e) => Err(e)
        case Ok(rest) => Ok([(ks[0], p)] + rest)
  }

  /** The sweep's state: the kept entities in the order they were added, and
      the discarded ones. */
  datatype SweepState = SweepState(kept: seq<nat>, rejected: set<nat>)

  /** `result.add(k)` on an identity set. */
  function AddOnce(kept: seq<nat>, k: nat): (r: seq<nat>)
    ensures k in r && forall x :: x in r <==> x in kept || x == k
  {
    if k in kept then kept else kept + [k]
  }

  /** The entities of `here` other than the winner. */
  function Losers(here: seq<nat>, w: nat): (r: set<nat>)
    requires w < |here|
    ensures forall k :: k in r <==> exists t :: 0 <= t < |here| && t != w && here[t] == k
  {
    set t | 0 <= t < |here| && t != w :: here[t]
  }

  /** `w` is the position in `here` of the entity the stable descending sort
      puts first: no competitor has a higher priority, and every earlier one
      has a strictly lower priority. A lone competitor wins without a lookup. */
  predicate FirstBest(u: seq<Entity>, status: map<string, Status>, text: string, here: seq<nat>, w: nat) {
    && w < |here|
    && (|here| > 1 ==>
          && (forall t :: 0 <= t < |here| ==> PriorityOf(u, status, text, here[t]).Ok?)
          && (forall t :: 0 <= t < |here| ==>
                PriorityOf(u, status, text, here[t]).value <= PriorityOf(u, status, text, here[w]).value)
          && (forall t :: 0 <= t < w ==>
                PriorityOf(u, status, text, here[t]).value < PriorityOf(u, status, text, here[w]).value))
  }

  /** The first maximum of the sort keys is the entity a stable descending
      sort puts first. */
  lemma ArgMaxFirstBest(u: seq<Entity>, status: map<string, Status>, text: string,
                        here: seq<nat>, ps: seq<(nat, int)>)
    requires Priorities(u, status, text, here) == Ok(ps) && |here| > 0
    ensures FirstBest(u, status, text, here, ArgMax(ps))
  {
    var w := ArgMax(ps);
    var pw := PriorityOf(u, status, text, here[w]);
    assert pw.Ok? && pw.value == ps[w].1;
    forall t | 0 <= t < |here|
      ensures PriorityOf(u, status, text, here[t]).Ok?
      ensures PriorityOf(u, status, text, here[t]).value <= pw.value
      ensures t < w ==> PriorityOf(u, status, text, here[t]).value < pw.value
    {
      assert ps[t] == (here[t], PriorityOf(u, status, text, here[t]).value);
    }
  }

  /** Only a missing keyword can make the sort keys fail, since every competing
      entity is one of the list's. */
  lemma {:induction false} PrioritiesError(u: seq<Entity>, status: map<string, Status>, text: string, here: seq<nat>)
    requires forall t :: 0 <= t < |here| ==> here[t] < |u|
    ensures Priorities(u, status, text, here).Err? ==> Priorities(u, status, text, here).error == KeyError
  {
    if |here| > 0 && PriorityOf(u, status, text, here[0]).Ok? {
      PrioritiesError(u, status, text, here[1..]);
    }
  }

  /** The competitors at an index are entities of the list. */
  lemma HereValid(u: seq<Entity>, i: int, rejected: set<nat>, here: seq<nat>)
    requires here == Alive(Covering(u, i, |u|), rejected)
    ensures forall t :: 0 <= t < |here| ==> here[t] < |u| && Covers(u, here[t], i)
  {
    forall t | 0 <= t < |here|
      ensures here[t] < |u| && Covers(u, here[t], i)
    {
      assert here[t] in here;
    }
  }

  /** The winner among the competitors `here` (lines 160-168): a lone
      competitor wins without a priority lookup; otherwise the priorities are
      looked up, which fails with KeyError on a keyword missing from the status,
      and the first highest-priority competitor wins. */
  function WinnerOf(u: seq<Entity>, status: map<string, Status>, text: string, here: seq<nat>)
    : (r: Result<nat>)
    requires |here| > 0
    ensures r.Ok? ==> FirstBest(u, status, text, here, r.value)
    ensures r.Err? <==> |here| > 1 && exists t :: 0 <= t < |here| && PriorityOf(u, status, text, here[t]).Err?
    ensures r.Err? && (forall t :: 0 <= t < |here| ==> here[t] < |u|) ==> r.error == KeyError
  {
    if |here| == 1 then
      assert FirstBest(u, status, text, here, 0);
      Ok(0)
    else
      match Priorities(u, status, text, here)
      case Err(e) =>
        assert (forall t :: 0 <= t < |here| ==> here[t] < |u|) ==> e == KeyError by {
          if forall t :: 0 <= t < |here| ==> here[t] < |u| {
            PrioritiesError(u, status, text, here);
          }
        }
        Err(e)
      case Ok(ps) =>
        ArgMaxFirstBest(u, status, text, here, ps);
        Ok(ArgMax(ps))
  }

  /** One iteration of the sweep loop, at character index `i`, as written. An
      index that no entity covers is not among the loop's indices and changes
      nothing; when every covering entity has been discarded, `entities_here[0]`
      raises; otherwise the winner is kept and the other competitors are
      discarded, but nothing leaves the kept entities. */
  function Step(u: seq<Entity>, status: map<string, Status>, text: string, i: int, st: SweepState)
    : (r: Result<SweepState>)
    ensures |Covering(u, i, |u|)| == 0 ==> r == Ok(st)
    ensures r.Err? ==> r.error == IndexError || r.error == KeyError
    ensures r == Err(IndexError) <==>
      |Covering(u, i, |u|)| > 0 && |Alive(Covering(u, i, |u|), st.rejected)| == 0
    ensures r.Ok? && |Covering(u, i, |u|)| > 0 ==>
      var here := Alive(Covering(u, i, |u|), st.rejected);
      && |here| > 0
      && WinnerOf(u, status, text, here).Ok?
      && var w := WinnerOf(u, status, text, here).value;
         && r.value.kept == AddOnce(st.kept, here[w])
         && r.value.rejected == st.rejected + Losers(here, w)
  {
    var covering := Covering(u, i, |u|);
    var here := Alive(covering, st.rejected);
    if |covering| == 0 then Ok(st)
    else if |here| == 0 then Err(IndexError)
    else
      HereValid(u, i, st.rejected, here);
      match WinnerOf(u, status, text, here)
      case Err(e) => Err(e)
      case Ok(w) => Ok(SweepState(AddOnce(st.kept, here[w]), st.rejected + Losers(here, w)))
  }

  /** The kept entities are distinct entities of the list, none of them empty. */
  predicate KeptValid(u: seq<Entity>, kept: seq<nat>) {
    && (forall t :: 0 <= t < |kept| ==> kept[t] < |u| && u[kept[t]].start < u[kept[t]].end)
    && Distinct(kept)
  }

  /** Every index in `[lo, i)` that some entity covers is covered by a kept one. */
  predicate CoveredBy(u: seq<Entity>, kept: seq<nat>, lo: int, i: int) {
    forall j :: lo <= j < i && |Covering(u, j, |u|)| > 0 ==> exists x :: x in kept && Covers(u, x, j)
  }

  lemma StepKept(u: seq<Entity>, status: map<string, Status>, text: string, i: int, st: SweepState)
    requires Step(u, status, text, i, st).Ok?
    ensures var next := Step(u, status, text, i, st).value;
      && (KeptValid(u, st.kept) ==> KeptValid(u, next.kept))
      && (forall x :: x in st.kept ==> x in next.kept)
      && st.rejected <= next.rejected
      && (|Covering(u, i, |u|)| > 0 ==> exists x :: x in next.kept && Covers(u, x, i))
  {
    var covering := Covering(u, i, |u|);
    var next := Step(u, status, text, i, st).value;
    if |covering| > 0 {
      var here := Alive(covering, st.rejected);
      var w := WinnerOf(u, status, text, here).value;
      assert here[w] in here;
      assert Covers(u, here[w], i);
    }
  }

  /** The sweep loop, over the character indices `i, i + 1, ..., hi - 1`. */
  function Sweep(u: seq<Entity>, status: map<string, Status>, text: string, i: int, hi: int, st: SweepState)
    : (r: Result<SweepState>)
    ensures r.Err? ==> r.error == IndexError || r.error == KeyError
    ensures r.Ok? && KeptValid(u, st.kept) ==> KeptValid(u, r.value.kept)
    ensures r.Ok? ==> st.rejected <= r.value.rejected
    ensures r.Ok? ==> forall x :: x in st.kept ==> x in r.value.kept
    ensures r.Ok? && CoveredBy(u, st.kept, i, i) ==> CoveredBy(u, r.value.kept, i, hi)
    decreases hi - i
  {
    if i >= hi then Ok(st)
    else
      match Step(u, status, text, i, st)
      case Err(e) => Err(e)
      case Ok(next) =>
        StepKept(u, status, text, i, st);
        var r := Sweep(u, status, text, i + 1, hi, next);
        assert r.Ok? ==> CoveredBy(u, r.value.kept, i, hi) by {
          if r.Ok? {
            assert CoveredBy(u, next.kept, i + 1, i + 1);
            forall j | i <= j < hi && |Covering(u, j, |u|)| > 0
              ensures exists x :: x in r.value.kept && Covers(u, x, j)
            {
              if j == i {
                var x :| x in next.kept && Covers(u, x, i);
                assert x in r.value.kept;
              }
            }
          }
        }
        r
  }

  /** The smallest start of the list (0 when it is empty). */
  function Lo(u: seq<Entity>): (r: int)
    ensures forall k :: 0 <= k < |u| ==> r <= u[k].start
  {
    if |u| == 0 then 0
    else
      var rest := Lo(u[1..]);
      assert forall k :: 1 <= k < |u| ==> u[k] == u[1..][k - 1];
      if |u| == 1 || u[0].start <= rest then u[0].start else rest
  }

  /** The largest end of the list (0 when it is empty). */
  function Hi(u: seq<Entity>): (r: int)
    ensures forall k :: 0 <= k < |u| ==> u[k].end <= r
  {
    if |u| == 0 then 0
    else
      var rest := Hi(u[1..]);
      assert forall k :: 1 <= k < |u| ==> u[k] == u[1..][k - 1];
      if |u| == 1 || u[0].end >= rest then u[0].end else rest
  }

  /** An index covered by any entity lies in `[Lo(u), Hi(u))`. */
  lemma CoveredInRange(u: seq<Entity>, k: int, j: int)
    requires Covers(u, k, j)
    ensures Lo(u) <= j < Hi(u)
  {
  }

  /** `list(result)`: the kept entities, in the order they were kept. */
  function Pick(u: seq<Entity>, kept: seq<nat>): (r: seq<Entity>)
    requires forall t :: 0 <= t < |kept| ==> kept[t] < |u|
    ensures |r| == |kept| && forall t :: 0 <= t < |kept| ==> r[t] == u[kept[t]]
  {
    seq(|kept|, t requires 0 <= t < |kept| => u[kept[t]])
  }

  /** The sorted kept entities are non-empty entities of the list, and they
      cover what the sweep's coverage invariant says they cover. */
  lemma KeptEntities(u: seq<Entity>, kept: seq<nat>)
    requires KeptValid(u, kept)
    requires CoveredBy(u, kept, Lo(u), Hi(u))
    ensures var es := SortByStart(Pick(u, kept));
      && (forall e :: e in es ==> e.start < e.end && e in u)
      && (forall k, j :: Covers(u, k, j) ==> exists e :: e in es && e.start <= j < e.end)
  {
    var picked := Pick(u, kept);
    var es := SortByStart(picked);
    SortByStartMembers(picked);
    forall e | e in es
      ensures e.start < e.end && e in u
    {
      var t :| 0 <= t < |picked| && picked[t] == e;
    }
    forall k, j | Covers(u, k, j)
      ensures exists e :: e in es && e.start <= j < e.end
    {
      CoveredInRange(u, k, j);
      assert k in Covering(u, j, |u|);
      var x :| x in kept && Covers(u, x, j);
      var t :| 0 <= t < |kept| && kept[t] == x;
      assert picked[t] in es;
    }
  }

  /** An entity of the union is a target entity or a non-skipped source one. */
  lemma UnionedMembers(target: Datum, source: Datum, e: Entity)
    requires e in Unioned(target, source)
    ensures e in target.entities || (e in source.entities && !Skipped(source, e))
  {
  }

  /** `_merge_jsonl_entities`, as written. The texts must agree; the result
      keeps the target's text and the merged status, and its entities, sorted
      by start, are non-empty entities of the target or non-skipped entities of
      the source. Every character that an entity of the union covers is still
      covered. The sweep can fail with IndexError or KeyError (`SweepIndexError`,
      `SweepKeyError`), and its entities can overlap (`SweepOverlap`). */
  function MergeEntities(target: Datum, source: Datum): (r: Result<Datum>)
    ensures r == Err(AssertionError) <==> target.text != source.text
    ensures r.Ok? ==>
      && r.value.text == target.text
      && r.value.status == MergedStatus(target, source)
      && SortedByStart(r.value.entities)
      && (forall e :: e in r.value.entities ==>
            && e.start < e.end
            && (e in target.entities || (e in source.entities && !Skipped(source, e))))
    ensures r.Ok? ==> forall k, j :: Covers(Unioned(target, source), k, j) ==>
      exists e :: e in r.value.entities && e.start <= j < e.end
  {
    if target.text != source.text then Err(AssertionError)
    else
      var u := Unioned(target, source);
      var status := MergedStatus(target, source);
      match Sweep(u, status, target.text, Lo(u), Hi(u), SweepState([], {}))
      case Err(e) => Err(e)
      case Ok(st) =>
        KeptEntities(u, st.kept);
        var es := SortByStart(Pick(u, st.kept));
        assert forall e :: e in es ==> e in target.entities || (e in source.entities && !Skipped(source, e)) by {
          forall e | e in es {
            UnionedMembers(target, source, e);
          }
        }
        Ok(Datum(target.text, es, status))
  }

  /** The source of `merge_jsonl_with_status`, re-anchored on the target's
      text when the texts differ. */
  function Anchored(target: Datum, source: Datum, find: (string, string) -> seq<int>): Datum {
    if target.text != source.text then UpdateByText(source, target.text, find) else source
  }

  /** `merge_jsonl_with_status`: re-anchor the source on the target's text
      when the texts differ, then merge. The text check inside the merge can
      then never fail. Every returned entity is non-empty and comes from the
      target or from the re-anchored source, and every character covered by
      an entity of either is covered by a returned one. */
  function MergeWithStatus(target: Datum, source: Datum, find: (string, string) -> seq<int>)
    : (r: Result<Datum>)
    ensures r != Err(AssertionError)
    ensures r.Ok? ==> r.value.text == target.text && SortedByStart(r.value.entities)
    ensures r.Ok? ==> r.value.status == MergedStatus(target, Anchored(target, source, find))
    ensures r.Ok? ==> forall e :: e in r.value.entities ==>
      && e.start < e.end
      && (e in target.entities || e in Anchored(target, source, find).entities)
    ensures r.Ok? ==> forall k, j :: Covers(Unioned(target, Anchored(target, source, find)), k, j) ==>
      exists e :: e in r.value.entities && e.start <= j < e.end
  {
    MergeEntities(target, Anchored(target, source, find))
  }

  // ---------------------------------------------------------------------------
  // The sweep as evidently intended
  // ---------------------------------------------------------------------------

  /** No index occurs twice. */
  predicate Distinct(ks: seq<nat>) {
    forall a, b :: 0 <= a < b < |ks| ==> ks[a] != ks[b]
  }

  /** The tail of a list without repetitions has none, and lacks the head. */
  lemma DistinctTail(ks: seq<nat>)
    requires |ks| > 0 && Distinct(ks)
    ensures Distinct(ks[1..]) && ks[0] !in ks[1..]
  {
    forall a, b | 0 <= a < b < |ks[1..]|
      ensures ks[1..][a] != ks[1..][b]
    {
      assert ks[1..][a] == ks[a + 1] && ks[1..][b] == ks[b + 1];
    }
    forall b | 0 <= b < |ks[1..]|
      ensures ks[1..][b] != ks[0]
    {
      assert ks[1..][b] == ks[b + 1];
    }
  }

  /** The kept entities other than `losers`, in order. */
  function Remove(kept: seq<nat>, losers: set<nat>): (r: seq<nat>)
    ensures forall x :: x in r <==> x in kept && x !in losers
    ensures forall t :: 0 <= t < |r| ==> r[t] in kept
    ensures Distinct(kept) ==> Distinct(r)
  {
    if |kept| == 0 then []
    else
      var rest := Remove(kept[1..], losers);
      assert forall x :: x in kept <==> x == kept[0] || x in kept[1..];
      if kept[0] in losers then
        assert Distinct(kept) ==> Distinct(rest) by {
          if Distinct(kept) {
            DistinctTail(kept);
          }
        }
        rest
      else
        var r := [kept[0]] + rest;
        assert Distinct(kept) ==> Distinct(r) by {
          if Distinct(kept) {
            DistinctTail(kept);
            forall a, b | 0 <= a < b < |r|
              ensures r[a] != r[b]
            {
              if a == 0 {
                assert r[b] in rest;
              } else {
                assert r[a] == rest[a - 1] && r[b] == rest[b - 1];
              }
            }
          }
        }
        r
  }

  /** The state after `here[w]` wins: the winner is kept, and the losers are
      discarded and leave the kept entities. */
  function Resolve(st: SweepState, here: seq<nat>, w: nat): SweepState
    requires w < |here|
  {
    SweepState(AddOnce(Remove(st.kept, Losers(here, w)), here[w]), st.rejected + Losers(here, w))
  }

  /** One sweep iteration with the two defects repaired: an index whose
      covering entities were all discarded is skipped, and the losers leave
      the kept entities as well. */
  function StepResolved(u: seq<Entity>, status: map<string, Status>, text: string, i: int, st: SweepState)
    : (r: Result<SweepState>)
    ensures r.Err? ==> r.error == KeyError
    ensures r.Ok? && |Alive(Covering(u, i, |u|), st.rejected)| == 0 ==> r.value == st
    ensures r.Ok? && |Alive(Covering(u, i, |u|), st.rejected)| > 0 ==>
      var here := Alive(Covering(u, i, |u|), st.rejected);
      && WinnerOf(u, status, text, here).Ok?
      && r.value == Resolve(st, here, WinnerOf(u, status, text, here).value)
  {
    var here := Alive(Covering(u, i, |u|), st.rejected);
    if |here| == 0 then Ok(st)
    else
      HereValid(u, i, st.rejected, here);
      match WinnerOf(u, status, text, here)
      case Err(e) => Err(e)
      case Ok(w) => Ok(Resolve(st, here, w))
  }

  /** The invariant of the repaired sweep after the indices `[lo, i)`: the kept
      entities are valid and not discarded, and each swept index is covered by
      at most one entity that is not discarded. */
  predicate Resolved(u: seq<Entity>, st: SweepState, lo: int, i: int) {
    && KeptValid(u, st.kept)
    && (forall x :: x in st.kept ==> x !in st.rejected)
    && (forall j, k1, k2 ::
          (&& lo <= j < i && 0 <= k1 < |u| && 0 <= k2 < |u|
           && Covers(u, k1, j) && Covers(u, k2, j)
           && k1 !in st.rejected && k2 !in st.rejected) ==> k1 == k2)
  }

  /** The competitors at an index are distinct, so the winner is not a loser. */
  lemma WinnerNotLoser(here: seq<nat>, w: nat)
    requires w < |here| && Increasing(here)
    ensures here[w] !in Losers(here, w)
  {
  }

  /** Resolving keeps the kept entities valid and apart from the discarded. */
  lemma ResolveKept(u: seq<Entity>, st: SweepState, here: seq<nat>, w: nat, i: int)
    requires w < |here| && Increasing(here) && Covers(u, here[w], i) && here[w] !in st.rejected
    requires KeptValid(u, st.kept) && forall x :: x in st.kept ==> x !in st.rejected
    ensures var next := Resolve(st, here, w);
      && KeptValid(u, next.kept)
      && forall x :: x in next.kept ==> x !in next.rejected
  {
    var losers := Losers(here, w);
    var rest := Remove(st.kept, losers);
    var kept := AddOnce(rest, here[w]);
    WinnerNotLoser(here, w);
    forall t | 0 <= t < |kept|
      ensures kept[t] < |u| && u[kept[t]].start < u[kept[t]].end
    {
      if kept[t] != here[w] {
        assert kept[t] in rest;
        var c :| 0 <= c < |rest| && rest[c] == kept[t];
        assert rest[c] in st.kept;
      }
    }
    if here[w] !in rest {
      forall a, b | 0 <= a < b < |kept|
        ensures kept[a] != kept[b]
      {
        if b == |rest| {
          assert kept[a] == rest[a];
        }
      }
    }
  }

  /** After resolving index `i`, at most one covering entity is not discarded. */
  lemma ResolveUnique(u: seq<Entity>, st: SweepState, here: seq<nat>, w: nat, i: int, k1: nat, k2: nat)
    requires here == Alive(Covering(u, i, |u|), st.rejected) && w < |here|
    requires Covers(u, k1, i) && Covers(u, k2, i)
    requires k1 !in Resolve(st, here, w).rejected && k2 !in Resolve(st, here, w).rejected
    ensures k1 == k2
  {
    assert k1 in Covering(u, i, |u|) && k2 in Covering(u, i, |u|);
    assert k1 in here && k2 in here;
    var t1 :| 0 <= t1 < |here| && here[t1] == k1;
    var t2 :| 0 <= t2 < |here| && here[t2] == k2;
    assert t1 == w && t2 == w;
  }

  lemma StepResolvedKeeps(u: seq<Entity>, status: map<string, Status>, text: string, i: int,
                          st: SweepState, lo: int)
    requires StepResolved(u, status, text, i, st).Ok?
    ensures lo <= i && Resolved(u, st, lo, i) ==>
      Resolved(u, StepResolved(u, status, text, i, st).value, lo, i + 1)
  {
    if lo <= i && Resolved(u, st, lo, i) {
      var next := StepResolved(u, status, text, i, st).value;
      var here := Alive(Covering(u, i, |u|), st.rejected);
      if |here| > 0 {
        var w := WinnerOf(u, status, text, here).value;
        assert here[w] in here;
        ResolveKept(u, st, here, w, i);
        forall k1, k2 | 0 <= k1 < |u| && 0 <= k2 < |u| && Covers(u, k1, i) && Covers(u, k2, i)
            && k1 !in next.rejected && k2 !in next.rejected
          ensures k1 == k2
        {
          ResolveUnique(u, st, here, w, i, k1, k2);
        }
      } else {
        forall k | 0 <= k < |u| && Covers(u, k, i)
          ensures k in st.rejected
        {
          assert k in Covering(u, i, |u|);
        }
      }
    }
  }

  /** The repaired sweep loop. */
  function SweepResolved(u: seq<Entity>, status: map<string, Status>, text: string,
                         lo: int, i: int, hi: int, st: SweepState)
    : (r: Result<SweepState>)
    ensures r.Err? ==> r.error == KeyError
    ensures r.Ok? && lo <= i && Resolved(u, st, lo, i) ==>
      Resolved(u, r.value, lo, if i <= hi then hi else i)
    decreases hi - i
  {
    if i >= hi then Ok(st)
    else
      match StepResolved(u, status, text, i, st)
      case Err(e) => Err(e)
      case Ok(next) =>
        StepResolvedKeeps(u, status, text, i, st, lo);
        SweepResolved(u, status, text, lo, i + 1, hi, next)
  }

  /** After a complete repaired sweep, no two kept entities share a character. */
  lemma ResolvedApart(u: seq<Entity>, st: SweepState)
    requires Resolved(u, st, Lo(u), Hi(u))
    ensures var es := Pick(u, st.kept);
      forall a, b :: 0 <= a < |es| && 0 <= b < |es| && a != b ==> Apart(es[a], es[b])
  {
    var es := Pick(u, st.kept);
    forall a, b | 0 <= a < |es| && 0 <= b < |es| && a != b
      ensures Apart(es[a], es[b])
    {
      var k1, k2 := st.kept[a], st.kept[b];
      if !Apart(u[k1], u[k2]) {
        var j := if u[k1].start <= u[k2].start then u[k2].start else u[k1].start;
        assert Covers(u, k1, j) && Covers(u, k2, j);
        CoveredInRange(u, k1, j);
      }
    }
  }

  /** The entities of a completed repaired sweep, sorted, are laid out left to
      right. */
  lemma ResolvedEntities(u: seq<Entity>, st: SweepState)
    requires Resolved(u, st, Lo(u), Hi(u))
    ensures var es := SortByStart(Pick(u, st.kept));
      && Separated(es)
      && forall e :: e in es ==> e.start < e.end && e in u
  {
    ResolvedApart(u, st);
    var picked := Pick(u, st.kept);
    SortByStartMembers(picked);
    forall e | e in picked
      ensures e.start < e.end && e in u
    {
      var t :| 0 <= t < |picked| && picked[t] == e;
    }
    SortSeparated(picked);
  }

  /** `_merge_jsonl_entities` with the repaired sweep. It never indexes an empty
      list, and its entities are laid out left to right without sharing a
      character. */
  function MergeEntitiesResolved(target: Datum, source: Datum): (r: Result<Datum>)
    ensures r == Err(AssertionError) <==> target.text != source.text
    ensures r.Err? ==> r.error == AssertionError || r.error == KeyError
    ensures r.Ok? ==>
      && r.value.text == target.text
      && r.value.status == MergedStatus(target, source)
      && SortedByStart(r.value.entities)
      && Separated(r.value.entities)
      && (forall e :: e in r.value.entities ==>
            && e.start < e.end
            && (e in target.entities || (e in source.entities && !Skipped(source, e))))
  {
    if target.text != source.text then Err(AssertionError)
    else
      var u := Unioned(target, source);
      var status := MergedStatus(target, source);
      var start := SweepState([], {});
      assert Resolved(u, start, Lo(u), Lo(u));
      match SweepResolved(u, status, target.text, Lo(u), Lo(u), Hi(u), start)
      case Err(e) => Err(e)
      case Ok(st) =>
        assert Resolved(u, st, Lo(u), Hi(u)) by {
          if Hi(u) < Lo(u) {
            assert Resolved(u, st, Lo(u), Lo(u));
          }
        }
        ResolvedEntities(u, st);
        var es := SortByStart(Pick(u, st.kept));
        assert forall e :: e in es ==> e in target.entities || (e in source.entities && !Skipped(source, e)) by {
          forall e | e in es {
            UnionedMembers(target, source, e);
          }
        }
        Ok(Datum(target.text, es, status))
  }

  /** `merge_jsonl_with_status` over the repaired merge. */
  function MergeWithStatusResolved(target: Datum, source: Datum, find: (string, string) -> seq<int>)
    : (r: Result<Datum>)
    ensures r.Err? ==> r.error == KeyError
    ensures r.Ok? ==> r.value.text == target.text && Separated(r.value.entities)
  {
    MergeEntitiesResolved(target, Anchored(target, source, find))
  }

  // ---------------------------------------------------------------------------
  // Defects of the sweep as written
  // ---------------------------------------------------------------------------

  /** Lower-case Latin letters are their own lower case and not whitespace. */
  lemma PlainLetters(t: string)
    requires forall k :: 0 <= k < |t| ==> 'a' <= t[k] <= 'z'
    ensures forall k :: 0 <= k < |t| ==> LowerChar(t[k]) == t[k] && !IsSpace(t[k])
  {
  }

  /** The text "abc", spelled out character by character. */
  predicate IsAbc(t: string) {
    |t| == 3 && t[0] == 'a' && t[1] == 'b' && t[2] == 'c'
  }

  /** The keyword of a span of "abc". */
  lemma AbcKey(t: string, e: Entity)
    requires IsAbc(t) && 0 <= e.start <= e.end <= 3
    ensures Key(t, e) == t[e.start..e.end]
  {
    PlainLetters(t);
    KeyPlain(t, e);
  }

  /** Two overlapping spans, [0, 2) and [1, 3), with different keywords: the
      target stores the first as EXTRACTED, the source the second as ADDED. */
  predicate KeyErrorInput(target: Datum, source: Datum) {
    && |target.text| >= 3 && source.text == target.text
    && |target.entities| == 1 && |source.entities| == 1
    && var a := target.entities[0];
    && var b := source.entities[0];
    && a.start == 0 && a.end == 2 && b.start == 1 && b.end == 3
    && Key(target.text, a) != Key(target.text, b)
    && target.status == map[Key(target.text, a) := Extracted]
    && source.status == map[Key(target.text, b) := Added]
  }

  /** The union appends the source entity after the target's. */
  lemma KeyErrorAppended(target: Datum, source: Datum)
    requires KeyErrorInput(target, source)
    ensures Unioned(target, source) == target.entities + source.entities
  {
    var a, b := target.entities[0], source.entities[0];
    assert source.entities == [b] && target.entities == [a];
    assert !Skipped(source, b);
    assert a.start != b.start;
    AppendedOne(target, source, b);
  }

  /** A single source entity that is neither skipped nor already stored is
      appended. */
  lemma AppendedOne(target: Datum, source: Datum, b: Entity)
    requires !Skipped(source, b) && b !in target.entities
    ensures Appended(target, source, [b]) == [b]
  {
    assert [b][1..] == [];
  }

  /** No source entity matches a target entity, so the status is the
      target's. */
  lemma KeyErrorStatus(target: Datum, source: Datum)
    requires KeyErrorInput(target, source)
    ensures MergedStatus(target, source) == target.status
  {
    var a, b := target.entities[0], source.entities[0];
    assert source.entities == [b] && target.entities == [a] && b != a;
    forall v
      ensures !Matched(target, source, source.entities, v)
    {
    }
  }

  /** The entities of a two-entity list that cover `j`. */
  lemma CoveringOfTwo(u: seq<Entity>, j: int, first: bool, second: bool)
    requires |u| == 2 && Covers(u, 0, j) == first && Covers(u, 1, j) == second
    ensures Covering(u, j, 2) == (if first then [0] else []) + (if second then [1] else [])
  {
    assert Covering(u, j, 0) == [];
    assert Covering(u, j, 1) == (if first then [0] else []);
  }

  /** The range swept over two overlapping spans. */
  lemma TwoSpansRange(u: seq<Entity>)
    requires |u| == 2 && u[0].start == 0 && u[0].end == 2 && u[1].start == 1 && u[1].end == 3
    ensures Lo(u) == 0 && Hi(u) == 3
  {
    var tail := u[1..];
    assert |tail| == 1 && tail[0] == u[1];
    assert Lo(tail) == 1 && Hi(tail) == 3;
  }

  /** An index covered by a single live entity keeps that entity. */
  lemma StepLone(u: seq<Entity>, status: map<string, Status>, text: string, i: int, st: SweepState, k: nat)
    requires Covering(u, i, |u|) == [k] && k !in st.rejected
    ensures Step(u, status, text, i, st) == Ok(SweepState(AddOnce(st.kept, k), st.rejected))
  {
    var here := Alive([k], st.rejected);
    assert here == [k] by {
      assert Alive([k][1..], st.rejected) == [];
    }
    assert WinnerOf(u, status, text, here) == Ok(0);
    assert Losers(here, 0) == {};
    assert st.rejected + {} == st.rejected;
  }

  /** An index where live entities compete and one of them has no status
      entry stops the sweep with KeyError. */
  lemma StepMissingKey(u: seq<Entity>, status: map<string, Status>, text: string, i: int, st: SweepState, k: nat)
    requires |Alive(Covering(u, i, |u|), st.rejected)| > 1
    requires k in Alive(Covering(u, i, |u|), st.rejected) && Key(text, u[k]) !in status
    ensures Step(u, status, text, i, st) == Err(KeyError)
  {
    var covering := Covering(u, i, |u|);
    var here := Alive(covering, st.rejected);
    var t :| 0 <= t < |here| && here[t] == k;
    HereValid(u, i, st.rejected, here);
    WinnerMissingKey(u, status, text, here, t);
    assert k in covering;
  }

  /** Competitors one of which has no status entry have no winner: the
      lookup fails with KeyError. */
  lemma WinnerMissingKey(u: seq<Entity>, status: map<string, Status>, text: string, here: seq<nat>, t: nat)
    requires |here| > 1 && t < |here| && forall t :: 0 <= t < |here| ==> here[t] < |u|
    requires Key(text, u[here[t]]) !in status
    ensures WinnerOf(u, status, text, here) == Err(KeyError)
  {
    assert PriorityOf(u, status, text, here[t]).Err?;
  }

  /** The sweep of the KeyError example stops at index 1, where the two spans
      first compete. */
  lemma KeyErrorSweep(u: seq<Entity>, status: map<string, Status>, t: string)
    requires |u| == 2 && u[0].start == 0 && u[0].end == 2 && u[1].start == 1 && u[1].end == 3
    requires Key(t, u[1]) !in status
    ensures Sweep(u, status, t, Lo(u), Hi(u), SweepState([], {})) == Err(KeyError)
  {
    TwoSpansRange(u);
    FirstSpanAlone(u, status, t);
    SpansCompete(u, status, t);
    var st := SweepState([0], {});
    assert Sweep(u, status, t, 1, 3, st) == Err(KeyError);
    assert Sweep(u, status, t, 0, 3, SweepState([], {})) == Sweep(u, status, t, 1, 3, st);
  }

  /** At index 0 only the first span is live, and it is kept. */
  lemma FirstSpanAlone(u: seq<Entity>, status: map<string, Status>, t: string)
    requires |u| == 2 && u[0].start == 0 && u[0].end == 2 && u[1].start == 1 && u[1].end == 3
    ensures Step(u, status, t, 0, SweepState([], {})) == Ok(SweepState([0], {}))
  {
    CoveringOfTwo(u, 0, true, false);
    assert Covering(u, 0, |u|) == [0];
    StepLone(u, status, t, 0, SweepState([], {}), 0);
    assert AddOnce([], 0) == [0];
  }

  /** At index 1 the two spans compete, and the second has no status entry. */
  lemma SpansCompete(u: seq<Entity>, status: map<string, Status>, t: string)
    requires |u| == 2 && u[0].start == 0 && u[0].end == 2 && u[1].start == 1 && u[1].end == 3
    requires Key(t, u[1]) !in status
    ensures Step(u, status, t, 1, SweepState([0], {})) == Err(KeyError)
  {
    CoveringOfTwo(u, 1, true, true);
    assert Covering(u, 1, |u|) == [0, 1];
    assert Alive([0, 1], {}) == [0, 1] by {
      assert Alive([0, 1][1..], {}) == [1] by {
        assert Alive([1][1..], {}) == [];
      }
    }
    StepMissingKey(u, status, t, 1, SweepState([0], {}), 1);
  }

  /** A sweep that fails makes the merge fail with the same exception. */
  lemma MergeSweepError(target: Datum, source: Datum, e: Error)
    requires target.text == source.text
    requires Sweep(Unioned(target, source), MergedStatus(target, source), target.text,
                   Lo(Unioned(target, source)), Hi(Unioned(target, source)), SweepState([], {})) == Err(e)
    ensures MergeEntities(target, source) == Err(e)
  {
  }

  /** A source entity appended by the union whose keyword has no entry in the
      target's status makes the priority lookup fail as soon as it competes:
      on "abc", the stored ADDED keyword "bc" overlaps the extracted "ab". */
  lemma SweepKeyError(target: Datum, source: Datum)
    requires KeyErrorInput(target, source)
    ensures MergeEntities(target, source) == Err(KeyError)
  {
    KeyErrorAppended(target, source);
    KeyErrorStatus(target, source);
    var u := Unioned(target, source);
    assert u[0] == target.entities[0] && u[1] == source.entities[0];
    KeyErrorSweep(u, target.status, target.text);
    MergeSweepError(target, source, KeyError);
  }

  /** The text "abc" with "ab" stored as EXTRACTED in the target and "bc" as
      ADDED in the source is such an input. */
  lemma KeyErrorAbc(t: string)
    requires IsAbc(t)
    ensures KeyErrorInput(Datum(t, [Entity(0, 2, "A")], map[t[0..2] := Extracted]),
                          Datum(t, [Entity(1, 3, "B")], map[t[1..3] := Added]))
  {
    AbcKey(t, Entity(0, 2, "A"));
    AbcKey(t, Entity(1, 3, "B"));
    assert t[0..2][0] != t[1..3][0];
  }

  /** A newly extracted (target) datum holding the two overlapping spans
      [0, 2) and [1, 3), both with a status, merged with an empty stored
      datum of the same text. */
  predicate TwoSpansInput(target: Datum, source: Datum) {
    && source.text == target.text
    && |source.entities| == 0
    && |target.entities| == 2
    && var u := target.entities;
    && u[0].start == 0 && u[0].end == 2 && u[1].start == 1 && u[1].end == 3
    && Key(target.text, u[0]) in target.status
    && Key(target.text, u[1]) in target.status
  }

  /** The priority of entity `k`'s keyword in a status map that holds it. */
  function KeyPriority(u: seq<Entity>, status: map<string, Status>, text: string, k: nat): int
    requires k < |u| && Key(text, u[k]) in status
  {
    Priority(status[Key(text, u[k])])
  }

  /** With nothing to add, the union is the target's entities and status. */
  lemma EmptySourceUnion(target: Datum, source: Datum)
    requires |source.entities| == 0
    ensures Unioned(target, source) == target.entities
    ensures MergedStatus(target, source) == target.status
  {
    assert Appended(target, source, source.entities) == [];
    assert target.entities + [] == target.entities;
    forall v
      ensures !Matched(target, source, source.entities, v)
    {
    }
  }

  /** At index 1 the two spans compete: the first wins unless the second has a
      strictly higher priority, and the loser is discarded. */
  lemma SpansCompeteKnown(u: seq<Entity>, status: map<string, Status>, t: string, w: nat)
    requires |u| == 2 && u[0].start == 0 && u[0].end == 2 && u[1].start == 1 && u[1].end == 3
    requires Key(t, u[0]) in status && Key(t, u[1]) in status
    requires w == if KeyPriority(u, status, t, 0) >= KeyPriority(u, status, t, 1) then 0 else 1
    ensures Step(u, status, t, 1, SweepState([0], {})) == Ok(SweepState(AddOnce([0], w), {1 - w}))
  {
    var here: seq<nat> := [0, 1];
    BothAliveAt1(u);
    TwoWinner(u, status, t, here);
    LosersOfTwo(w);
  }

  /** Both spans are live at index 1 before anything is discarded. */
  lemma BothAliveAt1(u: seq<Entity>)
    requires |u| == 2 && u[0].start == 0 && u[0].end == 2 && u[1].start == 1 && u[1].end == 3
    ensures Covering(u, 1, |u|) == [0, 1]
    ensures Alive(Covering(u, 1, |u|), {}) == [0, 1]
  {
    CoveringOfTwo(u, 1, true, true);
    assert Alive([0, 1][1..], {}) == [1] by {
      assert Alive([1][1..], {}) == [];
    }
  }

  /** The loser between positions 0 and 1. */
  lemma LosersOfTwo(w: nat)
    requires w < 2
    ensures Losers([0, 1], w) == {1 - w}
    ensures {} + Losers([0, 1], w) == {1 - w}
  {
    var here: seq<nat> := [0, 1];
    assert here[1 - w] in Losers(here, w);
  }

  /** The winner between entities 0 and 1: the first unless the second has a
      strictly higher priority. */
  lemma TwoWinner(u: seq<Entity>, status: map<string, Status>, t: string, here: seq<nat>)
    requires |u| == 2 && here == [0, 1]
    requires Key(t, u[0]) in status && Key(t, u[1]) in status
    ensures WinnerOf(u, status, t, here) ==
      Ok(if KeyPriority(u, status, t, 0) >= KeyPriority(u, status, t, 1) then 0 else 1)
  {
    var p0, p1 := KeyPriority(u, status, t, 0), KeyPriority(u, status, t, 1);
    assert PriorityOf(u, status, t, here[0]) == Ok(p0);
    assert PriorityOf(u, status, t, here[1]) == Ok(p1);
    forall k | 0 <= k < |here|
      ensures PriorityOf(u, status, t, here[k]).Ok?
    {
      assert k == 0 || k == 1;
    }
    var r := WinnerOf(u, status, t, here);
    assert r.Ok?;
    assert FirstBest(u, status, t, here, r.value);
  }

  /** The first maximum of two values. */
  lemma ArgMaxTwo(d: seq<(nat, int)>)
    requires |d| == 2
    ensures ArgMax(d) == if d[0].1 >= d[1].1 then 0 else 1
  {
  }

  /** At index 2 only the second span covers; it is kept when it is live. */
  lemma SecondSpanLast(u: seq<Entity>, status: map<string, Status>, t: string, st: SweepState)
    requires |u| == 2 && u[0].start == 0 && u[0].end == 2 && u[1].start == 1 && u[1].end == 3
    ensures 1 !in st.rejected ==>
      Step(u, status, t, 2, st) == Ok(SweepState(AddOnce(st.kept, 1), st.rejected))
    ensures 1 in st.rejected ==> Step(u, status, t, 2, st) == Err(IndexError)
  {
    CoveringOfTwo(u, 2, false, true);
    assert Covering(u, 2, |u|) == [1];
    if 1 !in st.rejected {
      StepLone(u, status, t, 2, st, 1);
    } else {
      assert Alive([1], st.rejected) == [] by {
        assert Alive([1][1..], st.rejected) == [];
      }
    }
  }

  /** One iteration of the sweep loop, unfolded. */
  lemma SweepUnfold(u: seq<Entity>, status: map<string, Status>, text: string, i: int, hi: int, st: SweepState)
    requires i < hi
    ensures Step(u, status, text, i, st).Err? ==>
      Sweep(u, status, text, i, hi, st) == Err(Step(u, status, text, i, st).error)
    ensures Step(u, status, text, i, st).Ok? ==>
      Sweep(u, status, text, i, hi, st) == Sweep(u, status, text, i + 1, hi, Step(u, status, text, i, st).value)
  {
  }

  /** The sweep keeps the first span at index 0 and moves on. */
  lemma SweepAt0(u: seq<Entity>, status: map<string, Status>, t: string)
    requires |u| == 2 && u[0].start == 0 && u[0].end == 2 && u[1].start == 1 && u[1].end == 3
    ensures Sweep(u, status, t, 0, 3, SweepState([], {})) == Sweep(u, status, t, 1, 3, SweepState([0], {}))
  {
    FirstSpanAlone(u, status, t);
    SweepUnfold(u, status, t, 0, 3, SweepState([], {}));
  }

  /** At index 1 the first span wins unless the second has a strictly higher
      priority; the loser is discarded. */
  lemma SweepAt1FirstWins(u: seq<Entity>, status: map<string, Status>, t: string)
    requires |u| == 2 && u[0].start == 0 && u[0].end == 2 && u[1].start == 1 && u[1].end == 3
    requires Key(t, u[0]) in status && Key(t, u[1]) in status
    requires KeyPriority(u, status, t, 0) >= KeyPriority(u, status, t, 1)
    ensures Sweep(u, status, t, 1, 3, SweepState([0], {})) == Sweep(u, status, t, 2, 3, SweepState([0], {1}))
  {
    SpansCompeteKnown(u, status, t, 0);
    SweepUnfold(u, status, t, 1, 3, SweepState([0], {}));
  }

  lemma SweepAt1SecondWins(u: seq<Entity>, status: map<string, Status>, t: string)
    requires |u| == 2 && u[0].start == 0 && u[0].end == 2 && u[1].start == 1 && u[1].end == 3
    requires Key(t, u[0]) in status && Key(t, u[1]) in status
    requires KeyPriority(u, status, t, 0) < KeyPriority(u, status, t, 1)
    ensures Sweep(u, status, t, 1, 3, SweepState([0], {})) == Sweep(u, status, t, 2, 3, SweepState([0, 1], {0}))
  {
    AddSecond();
    SpansCompeteKnown(u, status, t, 1);
    SweepUnfold(u, status, t, 1, 3, SweepState([0], {}));
  }

  /** Keeping entity 1 after entity 0. */
  lemma AddSecond()
    ensures AddOnce([0], 1) == [0, 1]
  {
    assert 1 !in [0];
  }

  /** At index 2 the second span is kept when live, and the sweep ends. */
  lemma SweepAt2(u: seq<Entity>, status: map<string, Status>, t: string, st: SweepState)
    requires |u| == 2 && u[0].start == 0 && u[0].end == 2 && u[1].start == 1 && u[1].end == 3
    ensures 1 !in st.rejected && 1 in st.kept ==> Sweep(u, status, t, 2, 3, st) == Ok(st)
    ensures 1 in st.rejected ==> Sweep(u, status, t, 2, 3, st) == Err(IndexError)
  {
    SecondSpanLast(u, status, t, st);
    SweepUnfold(u, status, t, 2, 3, st);
    var next := SweepState(AddOnce(st.kept, 1), st.rejected);
    assert Sweep(u, status, t, 3, 3, next) == Ok(next);
  }

  /** The sweep over the two spans when the second has the higher priority:
      it wins index 1, yet the first stays kept. */
  lemma TwoSpansSweepBothKept(u: seq<Entity>, status: map<string, Status>, t: string)
    requires |u| == 2 && u[0].start == 0 && u[0].end == 2 && u[1].start == 1 && u[1].end == 3
    requires Key(t, u[0]) in status && Key(t, u[1]) in status
    requires KeyPriority(u, status, t, 0) < KeyPriority(u, status, t, 1)
    ensures Sweep(u, status, t, Lo(u), Hi(u), SweepState([], {})) == Ok(SweepState([0, 1], {0}))
  {
    TwoSpansRange(u);
    SweepAt0(u, status, t);
    SweepAt1SecondWins(u, status, t);
    SweepAt2(u, status, t, SweepState([0, 1], {0}));
  }

  /** The sweep over the two spans when the first has at least the priority
      of the second: the second is discarded at index 1 and index 2 has no
      live entity left. */
  lemma TwoSpansSweepIndexError(u: seq<Entity>, status: map<string, Status>, t: string)
    requires |u| == 2 && u[0].start == 0 && u[0].end == 2 && u[1].start == 1 && u[1].end == 3
    requires Key(t, u[0]) in status && Key(t, u[1]) in status
    requires KeyPriority(u, status, t, 0) >= KeyPriority(u, status, t, 1)
    ensures Sweep(u, status, t, Lo(u), Hi(u), SweepState([], {})) == Err(IndexError)
  {
    TwoSpansRange(u);
    SweepAt0(u, status, t);
    SweepAt1FirstWins(u, status, t);
    SweepAt2(u, status, t, SweepState([0], {1}));
  }

  /** A sweep that succeeds makes the merge return the kept entities, sorted
      by start, with the merged status. */
  lemma MergeSweepOk(target: Datum, source: Datum, st: SweepState)
    requires target.text == source.text
    requires Sweep(Unioned(target, source), MergedStatus(target, source), target.text,
                   Lo(Unioned(target, source)), Hi(Unioned(target, source)), SweepState([], {})) == Ok(st)
    ensures forall t :: 0 <= t < |st.kept| ==> st.kept[t] < |Unioned(target, source)|
    ensures MergeEntities(target, source) ==
      Ok(Datum(target.text, SortByStart(Pick(Unioned(target, source), st.kept)), MergedStatus(target, source)))
  {
  }

  /** A list holding two different entities that share a character is not
      laid out left to right. */
  lemma SharingNotSeparated(es: seq<Entity>, a: Entity, b: Entity)
    requires a in es && b in es && a != b
    requires b.start < a.end && a.start < b.end
    ensures !Separated(es)
  {
    var p :| 0 <= p < |es| && es[p] == a;
    var q :| 0 <= q < |es| && es[q] == b;
    if p < q {
      assert es[p].end > es[q].start;
    } else {
      assert es[q].end > es[p].start;
    }
  }

  /** The merge as written can return entities that overlap: the second span
      wins index 1 and discards the first, but the first was kept at index 0
      and is never removed. */
  lemma SweepOverlap(target: Datum, source: Datum)
    requires TwoSpansInput(target, source)
    requires KeyPriority(target.entities, target.status, target.text, 0)
           < KeyPriority(target.entities, target.status, target.text, 1)
    ensures MergeEntities(target, source).Ok?
    ensures target.entities[0] in MergeEntities(target, source).value.entities
    ensures target.entities[1] in MergeEntities(target, source).value.entities
    ensures !Separated(MergeEntities(target, source).value.entities)
  {
    var u := target.entities;
    EmptySourceUnion(target, source);
    TwoSpansSweepBothKept(u, target.status, target.text);
    var st := SweepState([0, 1], {0});
    MergeSweepOk(target, source, st);
    var picked := Pick(u, st.kept);
    assert picked[0] == u[0] && picked[1] == u[1];
    SortByStartMembers(picked);
    var es := SortByStart(picked);
    assert u[0] in es && u[1] in es;
    assert u[0] != u[1];
    SharingNotSeparated(es, u[0], u[1]);
  }

  /** The merge as written fails with IndexError when the second span loses
      index 1: at index 2 it is the only covering entity, and it was already
      discarded. */
  lemma SweepIndexError(target: Datum, source: Datum)
    requires TwoSpansInput(target, source)
    requires KeyPriority(target.entities, target.status, target.text, 0)
          >= KeyPriority(target.entities, target.status, target.text, 1)
    ensures MergeEntities(target, source) == Err(IndexError)
  {
    EmptySourceUnion(target, source);
    TwoSpansSweepIndexError(target.entities, target.status, target.text);
    MergeSweepError(target, source, IndexError);
  }

  /** The two spans of "abc" as a newly extracted (target) datum with the
      given statuses; it is merged with an empty stored datum of the same
      text. */
  function AbcExtracted(t: string, first: Status, second: Status): Datum
    requires IsAbc(t)
  {
    Datum(t, [Entity(0, 2, "A"), Entity(1, 3, "B")], map[t[0..2] := first, t[1..3] := second])
  }

  lemma AbcTwoSpans(t: string, first: Status, second: Status)
    requires IsAbc(t)
    ensures TwoSpansInput(AbcExtracted(t, first, second), Datum(t, [], map[]))
    ensures KeyPriority(AbcExtracted(t, first, second).entities, AbcExtracted(t, first, second).status, t, 0) == Priority(first)
    ensures KeyPriority(AbcExtracted(t, first, second).entities, AbcExtracted(t, first, second).status, t, 1) == Priority(second)
  {
    var d := AbcExtracted(t, first, second);
    AbcKey(t, d.entities[0]);
    AbcKey(t, d.entities[1]);
    assert t[0..2][0] != t[1..3][0];
  }

  /** On "abc" with the extracted spans "ab" EXTRACTED and "bc" CONFIRMED,
      the merge with an empty stored datum keeps both overlapping spans. */
  lemma AbcOverlap(t: string)
    requires IsAbc(t)
    ensures var r := MergeEntities(AbcExtracted(t, Extracted, Confirmed), Datum(t, [], map[]));
      r.Ok? && !Separated(r.value.entities)
  {
    AbcTwoSpans(t, Extracted, Confirmed);
    SweepOverlap(AbcExtracted(t, Extracted, Confirmed), Datum(t, [], map[]));
  }

  /** On "abc" with "ab" CONFIRMED and "bc" EXTRACTED, the same merge fails
      with IndexError. */
  lemma AbcIndexError(t: string)
    requires IsAbc(t)
    ensures MergeEntities(AbcExtracted(t, Confirmed, Extracted), Datum(t, [], map[])) == Err(IndexError)
  {
    AbcTwoSpans(t, Confirmed, Extracted);
    SweepIndexError(AbcExtracted(t, Confirmed, Extracted), Datum(t, [], map[]));
  }
}

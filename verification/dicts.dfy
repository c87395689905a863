/** Python's insertion-ordered `dict`, as a list of `(key, value)` pairs with
    distinct keys. Only the operations the modelled code uses are defined:
    lookup with a default, assignment (an existing key keeps its position, a
    new key goes last) and `max(d, key=d.get)`.
 */
module Dicts {
  import opened Outcomes

  predicate DistinctKeys<K(==,!new), V(!new)>(d: seq<(K, V)>) {
    forall i, j :: 0 <= i < j < |d| ==> d[i].0 != d[j].0
  }

  predicate HasKey<K(==,!new), V(!new)>(d: seq<(K, V)>, k: K) {
    exists i :: 0 <= i < |d| && d[i].0 == k
  }

  /** The position of `k`, if present. */
  function IndexOf<K(==,!new), V(!new)>(d: seq<(K, V)>, k: K): (r: Option<nat>)
    ensures r.None? <==> !HasKey(d, k)
    ensures r.Some? ==> r.value < |d| && d[r.value].0 == k
    ensures r.Some? ==> forall j :: 0 <= j < r.value ==> d[j].0 != k
  {
    if |d| == 0 then None
    else if d[0].0 == k then Some(0)
    else match IndexOf(d[1..], k)
      case None => None
      case Some(i) => Some(i + 1)
  }

  /** `d.get(k, default)`. */
  function Get<K(==,!new), V(!new)>(d: seq<(K, V)>, k: K, default: V): (v: V)
    ensures !HasKey(d, k) ==> v == default
    ensures forall i :: 0 <= i < |d| && d[i].0 == k && DistinctKeys(d) ==> v == d[i].1
  {
    match IndexOf(d, k)
    case None => default
    case Some(i) => d[i].1
  }

  /** `d[k] = v`. */
  function Assign<K(==,!new), V(!new)>(d: seq<(K, V)>, k: K, v: V): (r: seq<(K, V)>)
    ensures DistinctKeys(d) ==> DistinctKeys(r)
    ensures HasKey(d, k) ==> |r| == |d| && forall i :: 0 <= i < |d| ==> r[i].0 == d[i].0
    ensures !HasKey(d, k) ==> r == d + [(k, v)]
    ensures DistinctKeys(d) ==> Get(r, k, v) == v
    ensures forall k', dv :: k' != k ==> Get(r, k', dv) == Get(d, k', dv)
    ensures forall k' :: HasKey(r, k') <==> HasKey(d, k') || k' == k
  {
    match IndexOf(d, k)
    case None =>
      var r := d + [(k, v)];
      forall k'
        ensures HasKey(r, k') <==> HasKey(d, k') || k' == k
      {
        if HasKey(r, k') {
          var j :| 0 <= j < |r| && r[j].0 == k';
          assert j < |d| ==> d[j].0 == k';
        }
        if HasKey(d, k') {
          var j :| 0 <= j < |d| && d[j].0 == k';
          assert r[j].0 == k';
        }
        assert r[|d|].0 == k;
      }
      forall k', dv | k' != k
        ensures Get(r, k', dv) == Get(d, k', dv)
      {
        IndexOfAppend(d, k, v, k');
      }
      r
    case Some(i) =>
      var r := d[i := (k, v)];
      assert forall j :: 0 <= j < |d| ==> r[j].0 == d[j].0;
      forall k', dv | k' != k
        ensures Get(r, k', dv) == Get(d, k', dv)
      {
        IndexOfUpdate(d, i, k, v, k');
      }
      r
  }

  /** After `d[k] = v`, looking `k` up gives `v` whatever the default. */
  lemma AssignGet<K(!new), V(!new)>(d: seq<(K, V)>, k: K, v: V, dv: V)
    requires DistinctKeys(d)
    ensures Get(Assign(d, k, v), k, dv) == v
  {
    var r := Assign(d, k, v);
    assert HasKey(r, k);
    assert IndexOf(r, k).Some?;
  }

  lemma {:induction false} IndexOfAppend<K(!new), V(!new)>(d: seq<(K, V)>, k: K, v: V, k': K)
    requires k' != k
    ensures IndexOf(d + [(k, v)], k') == IndexOf(d, k')
  {
    if |d| > 0 {
      assert (d + [(k, v)])[1..] == d[1..] + [(k, v)];
      IndexOfAppend(d[1..], k, v, k');
    }
  }

  lemma {:induction false} IndexOfUpdate<K(!new), V(!new)>(d: seq<(K, V)>, i: nat, k: K, v: V, k': K)
    requires i < |d| && d[i].0 == k && k' != k
    ensures IndexOf(d[i := (k, v)], k') == IndexOf(d, k')
  {
    if i > 0 {
      assert d[i := (k, v)][1..] == d[1..][i - 1 := (k, v)];
      IndexOfUpdate(d[1..], i - 1, k, v, k');
    }
  }

  /** `max(d, key=d.get)`: the first key, in insertion order, whose value is
      the largest. */
  function ArgMax<K>(d: seq<(K, int)>): (r: nat)
    requires |d| > 0
    ensures r < |d|
    ensures forall j :: 0 <= j < |d| ==> d[j].1 <= d[r].1
    ensures forall j :: 0 <= j < r ==> d[j].1 < d[r].1
  {
    if |d| == 1 then 0
    else
      var t := ArgMax(d[1..]);
      if d[0].1 >= d[t + 1].1 then 0 else t + 1
  }
}

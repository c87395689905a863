/** Near-duplicate detection over a list of strings (`dupes_graph`), the
    mapping of each duplicate to its smallest neighbour (`dupes_canonical`)
    and the grouping of that mapping into clusters (`dupes_clusters`).

    The fuzzy string set is a parameter: given the strings added to it so far
    and a query, it answers `None` or a list of scored candidates. */
module Dupes {
  import opened Outcomes

  /** The fuzzy matcher: the strings added so far and the query, to `None`
      or `(score, string)` candidates. */
  type Fuzzy = (seq<string>, string) -> Option<seq<(real, string)>>

  /** Edges `(i, j)` keyed with the later node first, with their weights. */
  type Edges = map<(nat, nat), real>

  /** The undirected graph: nodes `0 .. nodes - 1` and weighted edges. */
  datatype Graph = Graph(nodes: nat, edges: Edges)

  /** The loop state of `dupes_graph`: the positions of each string seen,
      the strings added to the fuzzy set, and the edges. */
  datatype Built = Built(indices: map<string, seq<nat>>, added: seq<string>, edges: Edges)

  /** `G.add_edge(i, old, weight=w)` for every `old` in turn; adding an edge
      again overwrites its weight. */
  function Link(edges: Edges, i: nat, olds: seq<nat>, w: real): Edges
    decreases |olds|
  {
    if |olds| == 0 then edges else Link(edges[(i, olds[0]) := w], i, olds[1..], w)
  }

  /** The fuzzy candidates in turn: one scoring below `cutoff` is skipped,
      any other links `i` to every position of its string. */
  function FuzzyLink(edges: Edges, i: nat, cands: seq<(real, string)>, cutoff: real, indices: map<string, seq<nat>>): Edges
    decreases |cands|
  {
    if |cands| == 0 then edges
    else
      var c := cands[0];
      var next := if c.0 < cutoff then edges
        else Link(edges, i, if c.1 in indices then indices[c.1] else [], c.0);
      FuzzyLink(next, i, cands[1..], cutoff, indices)
  }

  /** One iteration of the loop of `dupes_graph`, for string `i`. */
  function Step(strings: seq<string>, i: nat, st: Built, cutoff: real, minLength: int, fuzzy: Fuzzy): Built
    requires i < |strings|
  {
    var s := strings[i];
    var seen := s in st.indices;
    var edges :=
      if seen then Link(st.edges, i, st.indices[s], 1.0)
      else if |s| >= minLength then
        (var c := fuzzy(st.added, s);
         if c.None? then st.edges else FuzzyLink(st.edges, i, c.value, cutoff, st.indices))
      else st.edges;
    var added := if !seen && |s| >= minLength then st.added + [s] else st.added;
    var positions := if seen then st.indices[s] + [i] else [i];
    Built(st.indices[s := positions], added, edges)
  }

  /** The loop state after the first `k` strings. */
  function BuildUpTo(strings: seq<string>, k: nat, cutoff: real, minLength: int, fuzzy: Fuzzy): Built
    requires k <= |strings|
    decreases k
  {
    if k == 0 then Built(map[], [], map[])
    else Step(strings, k - 1, BuildUpTo(strings, k - 1, cutoff, minLength, fuzzy), cutoff, minLength, fuzzy)
  }

  /** `dupes_graph`: every index is a node. */
  function DupesGraph(strings: seq<string>, cutoff: real, minLength: int, fuzzy: Fuzzy): (g: Graph)
    ensures g.nodes == |strings|
  {
    Graph(|strings|, BuildUpTo(strings, |strings|, cutoff, minLength, fuzzy).edges)
  }

  // ---------------------------------------------------------------------
  // The positions dictionary

  /** The positions below `k` holding `s`, in increasing order. */
  function Positions(strings: seq<string>, k: nat, s: string): seq<nat>
    requires k <= |strings|
    decreases k
  {
    if k == 0 then []
    else Positions(strings, k - 1, s) + (if strings[k - 1] == s then [k - 1] else [])
  }

  /** The positions are exactly those below `k` holding `s`, increasing. */
  lemma {:induction false} PositionsSpec(strings: seq<string>, k: nat, s: string)
    requires k <= |strings|
    ensures var p := Positions(strings, k, s);
      && (forall m :: 0 <= m < |p| ==> p[m] < k && strings[p[m]] == s)
      && (forall j :: 0 <= j < k && strings[j] == s ==> j in p)
      && (forall m :: 0 < m < |p| ==> p[m - 1] < p[m])
    decreases k
  {
    if k > 0 {
      PositionsSpec(strings, k - 1, s);
    }
  }

  /** `indices` maps exactly the strings seen so far, each to its positions
      in order. */
  lemma {:induction false} IndicesAre(strings: seq<string>, k: nat, cutoff: real, minLength: int, fuzzy: Fuzzy, s: string, b: Built)
    requires k <= |strings| && BuildUpTo(strings, k, cutoff, minLength, fuzzy) == b
    ensures s in b.indices <==> exists j :: 0 <= j < k && strings[j] == s
    ensures s in b.indices ==> b.indices[s] == Positions(strings, k, s)
    decreases k
  {
    if k > 0 {
      var prev := BuildUpTo(strings, k - 1, cutoff, minLength, fuzzy);
      var t := strings[k - 1];
      IndicesAre(strings, k - 1, cutoff, minLength, fuzzy, s, prev);
      StepIndices(strings, k - 1, prev, cutoff, minLength, fuzzy);
      if t == s {
        if s !in prev.indices {
          PositionsNone(strings, k - 1, s);
        }
        assert b.indices[s] == Positions(strings, k, s);
      } else {
        assert Positions(strings, k, s) == Positions(strings, k - 1, s) + [];
        assert s in b.indices <==> s in prev.indices;
      }
    }
  }

  /** A step records position `i` under its string and touches no other
      entry of `indices`. */
  lemma StepIndices(strings: seq<string>, i: nat, st: Built, cutoff: real, minLength: int, fuzzy: Fuzzy)
    requires i < |strings|
    ensures var t := strings[i];
      Step(strings, i, st, cutoff, minLength, fuzzy).indices
        == st.indices[t := if t in st.indices then st.indices[t] + [i] else [i]]
  {
  }

  /** A string that does not occur below `k` has no positions there. */
  lemma {:induction false} PositionsNone(strings: seq<string>, k: nat, s: string)
    requires k <= |strings| && forall j :: 0 <= j < k ==> strings[j] != s
    ensures Positions(strings, k, s) == []
    decreases k
  {
    if k > 0 {
      PositionsNone(strings, k - 1, s);
    }
  }

  // ---------------------------------------------------------------------
  // What each step adds to the edges

  /** `Link` adds exactly the edges from `i` to `olds`, all of weight `w`,
      and keeps every other edge. */
  lemma {:induction false} LinkSpec(edges: Edges, i: nat, olds: seq<nat>, w: real, e: (nat, nat))
    ensures e in Link(edges, i, olds, w) <==> e in edges || (e.0 == i && e.1 in olds)
    ensures e.0 == i && e.1 in olds ==> Link(edges, i, olds, w)[e] == w
    ensures !(e.0 == i && e.1 in olds) && e in edges ==> Link(edges, i, olds, w)[e] == edges[e]
    decreases |olds|
  {
    if |olds| > 0 {
      LinkSpec(edges[(i, olds[0]) := w], i, olds[1..], w, e);
      assert forall x :: x in olds <==> x == olds[0] || x in olds[1..];
    }
  }

  /** `FuzzyLink` keeps every edge not from `i`, and every edge it adds or
      overwrites from `i` has a score of at least `cutoff` and leads to a
      position of a candidate's string. */
  lemma {:induction false} FuzzyLinkSpec(edges: Edges, i: nat, cands: seq<(real, string)>, cutoff: real, indices: map<string, seq<nat>>, e: (nat, nat))
    ensures e.0 != i ==> (e in FuzzyLink(edges, i, cands, cutoff, indices) <==> e in edges)
    ensures e.0 != i && e in edges ==> FuzzyLink(edges, i, cands, cutoff, indices)[e] == edges[e]
    ensures e.0 == i && e in FuzzyLink(edges, i, cands, cutoff, indices) && e !in edges ==>
      FuzzyLink(edges, i, cands, cutoff, indices)[e] >= cutoff
      && exists c :: c in cands && c.0 >= cutoff && c.1 in indices && e.1 in indices[c.1]
    decreases |cands|
  {
    if |cands| > 0 {
      var c := cands[0];
      var olds := if c.1 in indices then indices[c.1] else [];
      var next := if c.0 < cutoff then edges else Link(edges, i, olds, c.0);
      if c.0 >= cutoff {
        LinkSpec(edges, i, olds, c.0, e);
      }
      FuzzyLinkSpec(next, i, cands[1..], cutoff, indices, e);
      if e.0 == i && e in FuzzyLink(edges, i, cands, cutoff, indices) && e !in edges {
        if e in next {
          assert c in cands;
          if e in FuzzyLink(next, i, cands[1..], cutoff, indices) && e in next {
            FuzzyLinkWeight(next, i, cands[1..], cutoff, indices, e);
          }
        } else {
          var c' :| c' in cands[1..] && c'.0 >= cutoff && c'.1 in indices && e.1 in indices[c'.1];
          assert c' in cands;
        }
      }
    }
  }

  /** An edge from `i` that is already there keeps a weight that is its
      old weight or a score of at least `cutoff`. */
  lemma {:induction false} FuzzyLinkWeight(edges: Edges, i: nat, cands: seq<(real, string)>, cutoff: real, indices: map<string, seq<nat>>, e: (nat, nat))
    requires e in edges && edges[e] >= cutoff
    ensures e in FuzzyLink(edges, i, cands, cutoff, indices) && FuzzyLink(edges, i, cands, cutoff, indices)[e] >= cutoff
    decreases |cands|
  {
    if |cands| > 0 {
      var c := cands[0];
      var olds := if c.1 in indices then indices[c.1] else [];
      var next := if c.0 < cutoff then edges else Link(edges, i, olds, c.0);
      if c.0 >= cutoff {
        LinkSpec(edges, i, olds, c.0, e);
      }
      FuzzyLinkWeight(next, i, cands[1..], cutoff, indices, e);
    }
  }

  // ---------------------------------------------------------------------
  // The edges of the graph

  /** A position recorded under `t` before string `k` is below `k` and
      holds `t`. */
  lemma IndexBelow(strings: seq<string>, k: nat, cutoff: real, minLength: int, fuzzy: Fuzzy, b: Built, t: string, x: nat)
    requires k <= |strings| && BuildUpTo(strings, k, cutoff, minLength, fuzzy) == b
    requires t in b.indices && x in b.indices[t]
    ensures x < k && strings[x] == t
  {
    IndicesAre(strings, k, cutoff, minLength, fuzzy, t, b);
    PositionsSpec(strings, k, t);
    var p := b.indices[t];
    var m :| 0 <= m < |p| && p[m] == x;
  }

  /** A step changes only edges from `i`. */
  lemma StepKeeps(strings: seq<string>, i: nat, st: Built, cutoff: real, minLength: int, fuzzy: Fuzzy, e: (nat, nat))
    requires i < |strings| && e.0 != i
    ensures e in Step(strings, i, st, cutoff, minLength, fuzzy).edges <==> e in st.edges
    ensures e in st.edges ==> Step(strings, i, st, cutoff, minLength, fuzzy).edges[e] == st.edges[e]
  {
    var t := strings[i];
    if t in st.indices {
      LinkSpec(st.edges, i, st.indices[t], 1.0, e);
    } else if |t| >= minLength && fuzzy(st.added, t).Some? {
      FuzzyLinkSpec(st.edges, i, fuzzy(st.added, t).value, cutoff, st.indices, e);
    }
  }

  /** Edges run from a later string to an earlier one, both among the
      first `k`. */
  lemma {:induction false} EdgesBelow(strings: seq<string>, k: nat, cutoff: real, minLength: int, fuzzy: Fuzzy, b: Built)
    requires k <= |strings| && BuildUpTo(strings, k, cutoff, minLength, fuzzy) == b
    ensures forall e :: e in b.edges ==> e.1 < e.0 < k
    decreases k
  {
    if k > 0 {
      var i := k - 1;
      var prev := BuildUpTo(strings, i, cutoff, minLength, fuzzy);
      EdgesBelow(strings, i, cutoff, minLength, fuzzy, prev);
      var t := strings[i];
      forall e | e in b.edges
        ensures e.1 < e.0 < k
      {
        if e.0 != i {
          StepKeeps(strings, i, prev, cutoff, minLength, fuzzy, e);
        } else if t in prev.indices {
          LinkSpec(prev.edges, i, prev.indices[t], 1.0, e);
          if e !in prev.edges {
            IndexBelow(strings, i, cutoff, minLength, fuzzy, prev, t, e.1);
          }
        } else if |t| >= minLength && fuzzy(prev.added, t).Some? {
          FuzzyLinkSpec(prev.edges, i, fuzzy(prev.added, t).value, cutoff, prev.indices, e);
          if e !in prev.edges {
            var c :| c in fuzzy(prev.added, t).value && c.0 >= cutoff && c.1 in prev.indices && e.1 in prev.indices[c.1];
            IndexBelow(strings, i, cutoff, minLength, fuzzy, prev, c.1, e.1);
          }
        }
      }
    }
  }

  /** Later steps leave the edges from `a` as step `a` made them. */
  lemma {:induction false} EdgesSettled(strings: seq<string>, k: nat, a: nat, cutoff: real, minLength: int, fuzzy: Fuzzy, e: (nat, nat))
    requires a < k <= |strings| && e.0 == a
    ensures var now := BuildUpTo(strings, k, cutoff, minLength, fuzzy).edges;
      var past := BuildUpTo(strings, a + 1, cutoff, minLength, fuzzy).edges;
      (e in now <==> e in past) && (e in past ==> now[e] == past[e])
    decreases k
  {
    if k > a + 1 {
      EdgesSettled(strings, k - 1, a, cutoff, minLength, fuzzy, e);
      StepKeeps(strings, k - 1, BuildUpTo(strings, k - 1, cutoff, minLength, fuzzy), cutoff, minLength, fuzzy, e);
    }
  }

  /** `strings[i]` occurs before `i`. */
  predicate Repeated(strings: seq<string>, i: nat)
    requires i < |strings|
  {
    exists j :: 0 <= j < i && strings[j] == strings[i]
  }

  /** A repeated string is linked, with weight 1, to exactly the earlier
      positions holding the identical string; the fuzzy set is not asked. */
  lemma RepeatEdges(strings: seq<string>, i: nat, cutoff: real, minLength: int, fuzzy: Fuzzy, j: nat)
    requires i < |strings| && Repeated(strings, i)
    ensures var g := DupesGraph(strings, cutoff, minLength, fuzzy);
      && ((i, j) in g.edges <==> j < i && strings[j] == strings[i])
      && ((i, j) in g.edges ==> g.edges[(i, j)] == 1.0)
  {
    var prev := BuildUpTo(strings, i, cutoff, minLength, fuzzy);
    var t := strings[i];
    IndicesAre(strings, i, cutoff, minLength, fuzzy, t, prev);
    PositionsSpec(strings, i, t);
    EdgesBelow(strings, i, cutoff, minLength, fuzzy, prev);
    LinkSpec(prev.edges, i, prev.indices[t], 1.0, (i, j));
    EdgesSettled(strings, |strings|, i, cutoff, minLength, fuzzy, (i, j));
  }

  /** A string seen for the first time and shorter than `minLength` gets no
      edge to an earlier string. */
  lemma ShortUnlinked(strings: seq<string>, i: nat, cutoff: real, minLength: int, fuzzy: Fuzzy, j: nat)
    requires i < |strings| && !Repeated(strings, i) && |strings[i]| < minLength
    ensures (i, j) !in DupesGraph(strings, cutoff, minLength, fuzzy).edges
  {
    var prev := BuildUpTo(strings, i, cutoff, minLength, fuzzy);
    IndicesAre(strings, i, cutoff, minLength, fuzzy, strings[i], prev);
    EdgesBelow(strings, i, cutoff, minLength, fuzzy, prev);
    EdgesSettled(strings, |strings|, i, cutoff, minLength, fuzzy, (i, j));
  }

  /** An edge from a string seen for the first time comes from a fuzzy
      candidate scoring at least `cutoff`, to an earlier position holding
      the candidate's string, and carries a weight of at least `cutoff`. */
  lemma FuzzyEdges(strings: seq<string>, i: nat, cutoff: real, minLength: int, fuzzy: Fuzzy, j: nat)
    requires i < |strings| && !Repeated(strings, i)
    requires (i, j) in DupesGraph(strings, cutoff, minLength, fuzzy).edges
    ensures DupesGraph(strings, cutoff, minLength, fuzzy).edges[(i, j)] >= cutoff
    ensures var asked := fuzzy(BuildUpTo(strings, i, cutoff, minLength, fuzzy).added, strings[i]);
      j < i && asked.Some? && exists c :: c in asked.value && c.0 >= cutoff && c.1 == strings[j]
  {
    var prev := BuildUpTo(strings, i, cutoff, minLength, fuzzy);
    var t := strings[i];
    IndicesAre(strings, i, cutoff, minLength, fuzzy, t, prev);
    EdgesBelow(strings, i, cutoff, minLength, fuzzy, prev);
    EdgesSettled(strings, |strings|, i, cutoff, minLength, fuzzy, (i, j));
    if |t| >= minLength && fuzzy(prev.added, t).Some? {
      var asked := fuzzy(prev.added, t).value;
      FuzzyLinkSpec(prev.edges, i, asked, cutoff, prev.indices, (i, j));
      var c :| c in asked && c.0 >= cutoff && c.1 in prev.indices && j in prev.indices[c.1];
      IndexBelow(strings, i, cutoff, minLength, fuzzy, prev, c.1, j);
    }
  }

  // ---------------------------------------------------------------------
  // Canonical representatives (`dupes_canonical`)

  /** Some item of the list of pairs `c` has key `k`. */
  predicate IsKey<V>(c: seq<(nat, V)>, k: nat) {
    exists p :: 0 <= p < |c| && c[p].0 == k
  }

  /** No key occurs twice in the list of pairs `c`. */
  predicate KeysDistinct<V>(c: seq<(nat, V)>) {
    forall p, q :: 0 <= p < q < |c| ==> c[p].0 != c[q].0
  }

  /** Nodes `i` and `j` share an edge, in either direction. */
  predicate Adjacent(g: Graph, i: nat, j: nat) {
    (i, j) in g.edges || (j, i) in g.edges
  }

  /** The smallest node from `j` on that is adjacent to `i`, if any. */
  function FirstAdjacent(g: Graph, i: nat, j: nat): (r: Option<nat>)
    requires j <= g.nodes
    ensures r.Some? ==> j <= r.value < g.nodes && Adjacent(g, i, r.value)
    ensures forall x :: j <= x < g.nodes && (r.None? || x < r.value) ==> !Adjacent(g, i, x)
    decreases g.nodes - j
  {
    if j == g.nodes then None
    else if Adjacent(g, i, j) then Some(j)
    else FirstAdjacent(g, i, j + 1)
  }

  /** The mapping for nodes `0 .. k - 1`, in node order: a node whose
      smallest neighbour (`min(adj.keys())`) comes before it is mapped to
      that neighbour. */
  function CanonicalUpTo(g: Graph, k: nat): seq<(nat, nat)>
    requires k <= g.nodes
    decreases k
  {
    if k == 0 then []
    else
      var prev := CanonicalUpTo(g, k - 1);
      var m := FirstAdjacent(g, k - 1, 0);
      if m.Some? && m.value < k - 1 then prev + [(k - 1, m.value)] else prev
  }

  /** `dupes_canonical` on a graph, as its items in insertion order. */
  function Canonical(g: Graph): seq<(nat, nat)> {
    CanonicalUpTo(g, g.nodes)
  }

  /** Each item maps a node to a smaller, adjacent node that has no
      smaller neighbour. */
  lemma {:induction false} CanonicalEntry(g: Graph, k: nat, p: nat)
    requires k <= g.nodes && p < |CanonicalUpTo(g, k)|
    ensures var c := CanonicalUpTo(g, k);
      && c[p].1 < c[p].0 < k
      && Adjacent(g, c[p].0, c[p].1)
      && forall x :: 0 <= x < c[p].1 ==> !Adjacent(g, c[p].0, x)
    decreases k
  {
    var prev := CanonicalUpTo(g, k - 1);
    if p < |prev| {
      CanonicalEntry(g, k - 1, p);
    }
  }

  /** The keys of `c` strictly increase. */
  predicate KeysIncrease(c: seq<(nat, nat)>) {
    forall p, q :: 0 <= p < q < |c| ==> c[p].0 < c[q].0
  }

  /** The mapping lists its nodes in increasing order. */
  lemma {:induction false} CanonicalSorted(g: Graph, k: nat)
    requires k <= g.nodes
    ensures KeysIncrease(CanonicalUpTo(g, k))
    decreases k
  {
    if k > 0 {
      CanonicalSorted(g, k - 1);
      var prev := CanonicalUpTo(g, k - 1);
      var c := CanonicalUpTo(g, k);
      forall p, q | 0 <= p < q < |c|
        ensures c[p].0 < c[q].0
      {
        if q == |prev| {
          CanonicalEntry(g, k - 1, p);
          assert c[p] == prev[p];
        } else {
          assert c[p] == prev[p] && c[q] == prev[q];
        }
      }
    }
  }

  /** A node is in the mapping exactly when it has a neighbour before it. */
  lemma {:induction false} CanonicalHas(g: Graph, k: nat, i: nat)
    requires i < k <= g.nodes
    ensures IsKey(CanonicalUpTo(g, k), i) <==> exists j :: 0 <= j < i && Adjacent(g, i, j)
    decreases k
  {
    var c := CanonicalUpTo(g, k);
    var prev := CanonicalUpTo(g, k - 1);
    if p :| 0 <= p < |c| && c[p].0 == i {
      CanonicalEntry(g, k, p);
      assert Adjacent(g, i, c[p].1);
    }
    if i < k - 1 {
      CanonicalHas(g, k - 1, i);
      if p :| 0 <= p < |prev| && prev[p].0 == i {
        assert c[p] == prev[p];
      }
    } else if exists j :: 0 <= j < i && Adjacent(g, i, j) {
      assert c[|prev|].0 == i;
    }
  }

  /** `dupes_canonical`: the graph of the strings, reduced to the mapping. */
  function DupesCanonical(strings: seq<string>, cutoff: real, minLength: int, fuzzy: Fuzzy): seq<(nat, nat)> {
    Canonical(DupesGraph(strings, cutoff, minLength, fuzzy))
  }

  /** Before a node, only its edges to earlier nodes make neighbours. */
  lemma EarlierNeighbour(strings: seq<string>, cutoff: real, minLength: int, fuzzy: Fuzzy, i: nat, x: nat)
    requires x < i
    ensures Adjacent(DupesGraph(strings, cutoff, minLength, fuzzy), i, x)
      <==> (i, x) in DupesGraph(strings, cutoff, minLength, fuzzy).edges
  {
    EdgesBelow(strings, |strings|, cutoff, minLength, fuzzy, BuildUpTo(strings, |strings|, cutoff, minLength, fuzzy));
  }

  /** A repeated string is mapped to the first occurrence of the same
      string, whatever the fuzzy matcher answers. */
  lemma RepeatMapsToFirst(strings: seq<string>, cutoff: real, minLength: int, fuzzy: Fuzzy, i: nat)
    requires i < |strings| && Repeated(strings, i)
    ensures IsKey(DupesCanonical(strings, cutoff, minLength, fuzzy), i)
    ensures var c := DupesCanonical(strings, cutoff, minLength, fuzzy);
      forall p :: 0 <= p < |c| && c[p].0 == i ==>
        && c[p].1 < i && strings[c[p].1] == strings[i]
        && forall x :: 0 <= x < c[p].1 ==> strings[x] != strings[i]
  {
    var g := DupesGraph(strings, cutoff, minLength, fuzzy);
    var c := Canonical(g);
    var j :| 0 <= j < i && strings[j] == strings[i];
    RepeatEdges(strings, i, cutoff, minLength, fuzzy, j);
    EarlierNeighbour(strings, cutoff, minLength, fuzzy, i, j);
    CanonicalHas(g, g.nodes, i);
    forall p | 0 <= p < |c| && c[p].0 == i
      ensures c[p].1 < i && strings[c[p].1] == strings[i]
      ensures forall x :: 0 <= x < c[p].1 ==> strings[x] != strings[i]
    {
      CanonicalEntry(g, g.nodes, p);
      var m := c[p].1;
      RepeatEdges(strings, i, cutoff, minLength, fuzzy, m);
      EarlierNeighbour(strings, cutoff, minLength, fuzzy, i, m);
      forall x | 0 <= x < m
        ensures strings[x] != strings[i]
      {
        RepeatEdges(strings, i, cutoff, minLength, fuzzy, x);
        EarlierNeighbour(strings, cutoff, minLength, fuzzy, i, x);
      }
    }
  }

  /** A string seen for the first time and shorter than `minLength` is not
      mapped to anything. */
  lemma ShortUnmapped(strings: seq<string>, cutoff: real, minLength: int, fuzzy: Fuzzy, i: nat)
    requires i < |strings| && !Repeated(strings, i) && |strings[i]| < minLength
    ensures !IsKey(DupesCanonical(strings, cutoff, minLength, fuzzy), i)
  {
    var g := DupesGraph(strings, cutoff, minLength, fuzzy);
    var c := Canonical(g);
    forall p | 0 <= p < |c|
      ensures c[p].0 != i
    {
      if c[p].0 == i {
        CanonicalEntry(g, g.nodes, p);
        ShortUnlinked(strings, i, cutoff, minLength, fuzzy, c[p].1);
        EarlierNeighbour(strings, cutoff, minLength, fuzzy, i, c[p].1);
        assert false;
      }
    }
  }

  // ---------------------------------------------------------------------
  // Clusters (`dupes_clusters`)

  /** The clusters as `(representative, members)` in the order the
      representatives first appear. */
  type Clustering = seq<(nat, seq<nat>)>

  /** The first position from `p` on whose representative is `key`, or
      `|res|`. */
  function KeyFrom(res: Clustering, key: nat, p: nat): (q: nat)
    requires p <= |res|
    ensures p <= q <= |res|
    ensures forall x :: p <= x < q ==> res[x].0 != key
    ensures q < |res| ==> res[q].0 == key
    decreases |res| - p
  {
    if p == |res| || res[p].0 == key then p else KeyFrom(res, key, p + 1)
  }

  /** The first loop of `dupes_clusters` over the first `k` items: each
      item's key joins the list of its representative, which is created on
      first sight. */
  function Collect(mapping: seq<(nat, nat)>, k: nat): Clustering
    requires k <= |mapping|
    decreases k
  {
    if k == 0 then []
    else
      var prev := Collect(mapping, k - 1);
      var item := mapping[k - 1];
      var q := KeyFrom(prev, item.1, 0);
      if q < |prev| then prev[q := (item.1, prev[q].1 + [item.0])] else prev + [(item.1, [item.0])]
  }

  /** `dupes_clusters`: the second loop closes every cluster with its own
      representative. */
  function Clusters(mapping: seq<(nat, nat)>): Clustering {
    var res := Collect(mapping, |mapping|);
    seq(|res|, p requires 0 <= p < |res| => (res[p].0, res[p].1 + [res[p].0]))
  }

  /** The keys among the first `k` items mapped to `key`, in order. */
  function Members(mapping: seq<(nat, nat)>, k: nat, key: nat): seq<nat>
    requires k <= |mapping|
    decreases k
  {
    if k == 0 then []
    else Members(mapping, k - 1, key) + (if mapping[k - 1].1 == key then [mapping[k - 1].0] else [])
  }

  /** `Members` holds exactly the keys mapped to `key`. */
  lemma {:induction false} MembersSpec(mapping: seq<(nat, nat)>, k: nat, key: nat, x: nat)
    requires k <= |mapping|
    ensures x in Members(mapping, k, key) <==> exists j :: 0 <= j < k && mapping[j] == (x, key)
    decreases k
  {
    if k > 0 {
      MembersSpec(mapping, k - 1, key, x);
      if mapping[k - 1] == (x, key) {
        assert x in Members(mapping, k, key);
      }
    }
  }

  /** No representative appears twice. */
  lemma {:induction false} CollectDistinct(mapping: seq<(nat, nat)>, k: nat)
    requires k <= |mapping|
    ensures KeysDistinct(Collect(mapping, k))
    decreases k
  {
    if k > 0 {
      CollectDistinct(mapping, k - 1);
      var prev := Collect(mapping, k - 1);
      var res := Collect(mapping, k);
      var q := KeyFrom(prev, mapping[k - 1].1, 0);
      forall p | 0 <= p < |prev|
        ensures res[p].0 == prev[p].0
      {
      }
      if q == |prev| {
        assert res[|prev|].0 == mapping[k - 1].1;
      }
    }
  }

  /** The value of every item heads a cluster. */
  lemma {:induction false} CollectCovers(mapping: seq<(nat, nat)>, k: nat, j: nat)
    requires j < k <= |mapping|
    ensures IsKey(Collect(mapping, k), mapping[j].1)
    decreases k
  {
    var prev := Collect(mapping, k - 1);
    var res := Collect(mapping, k);
    var item := mapping[k - 1];
    var q := KeyFrom(prev, item.1, 0);
    if j == k - 1 {
      if q < |prev| {
        assert res[q].0 == item.1;
      } else {
        assert res[|prev|].0 == item.1;
      }
    } else {
      CollectCovers(mapping, k - 1, j);
      var p :| 0 <= p < |prev| && prev[p].0 == mapping[j].1;
      if p == q {
        assert res[p].0 == item.1 == prev[p].0;
      } else {
        assert res[p] == prev[p];
      }
    }
  }

  /** No keys are mapped to a value no item has. */
  lemma {:induction false} MembersNone(mapping: seq<(nat, nat)>, k: nat, key: nat)
    requires k <= |mapping| && forall j :: 0 <= j < k ==> mapping[j].1 != key
    ensures Members(mapping, k, key) == []
    decreases k
  {
    if k > 0 {
      MembersNone(mapping, k - 1, key);
    }
  }

  /** Each cluster holds, in order, the keys mapped to its representative,
      and at least one. */
  lemma {:induction false} CollectEntry(mapping: seq<(nat, nat)>, k: nat, p: nat)
    requires k <= |mapping| && p < |Collect(mapping, k)|
    ensures var res := Collect(mapping, k);
      res[p].1 == Members(mapping, k, res[p].0) && |res[p].1| > 0
    decreases k
  {
    var prev := Collect(mapping, k - 1);
    var res := Collect(mapping, k);
    var item := mapping[k - 1];
    var q := KeyFrom(prev, item.1, 0);
    CollectDistinct(mapping, k - 1);
    if p < |prev| {
      CollectEntry(mapping, k - 1, p);
      if p != q {
        assert prev[p].0 != item.1;
        assert res[p] == prev[p];
        assert Members(mapping, k, res[p].0) == Members(mapping, k - 1, res[p].0) + [];
      }
    } else {
      forall j | 0 <= j < k - 1
        ensures mapping[j].1 != item.1
      {
        CollectCovers(mapping, k - 1, j);
      }
      MembersNone(mapping, k - 1, item.1);
    }
  }

  /** A representative heads a cluster exactly when some item maps to it. */
  lemma CollectHas(mapping: seq<(nat, nat)>, k: nat, key: nat)
    requires k <= |mapping|
    ensures IsKey(Collect(mapping, k), key) <==> exists j :: 0 <= j < k && mapping[j].1 == key
  {
    var res := Collect(mapping, k);
    if p :| 0 <= p < |res| && res[p].0 == key {
      CollectEntry(mapping, k, p);
      var x := res[p].1[0];
      MembersSpec(mapping, k, key, x);
    }
    if j :| 0 <= j < k && mapping[j].1 == key {
      CollectCovers(mapping, k, j);
    }
  }

  /** The clusters have distinct representatives, exactly the values of
      the mapping, and each lists the keys mapped to its representative
      in order, then the representative itself. */
  lemma ClustersSpec(mapping: seq<(nat, nat)>, key: nat)
    ensures KeysDistinct(Clusters(mapping))
    ensures var res := Clusters(mapping);
      forall p :: 0 <= p < |res| ==> res[p].1 == Members(mapping, |mapping|, res[p].0) + [res[p].0]
    ensures IsKey(Clusters(mapping), key) <==> exists j :: 0 <= j < |mapping| && mapping[j].1 == key
  {
    var res := Collect(mapping, |mapping|);
    var out := Clusters(mapping);
    assert |out| == |res| && forall p :: 0 <= p < |res| ==> out[p].0 == res[p].0;
    CollectDistinct(mapping, |mapping|);
    CollectHas(mapping, |mapping|, key);
    forall p | 0 <= p < |res|
      ensures res[p].1 == Members(mapping, |mapping|, res[p].0)
    {
      CollectEntry(mapping, |mapping|, p);
    }
    if p :| 0 <= p < |out| && out[p].0 == key {
      assert res[p].0 == key;
    }
  }
}

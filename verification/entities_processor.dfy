/** The entity passes of `EntitiesProcessor` that work on one datum's text
    and entity triples: dropping empty entities, casting tokens, splitting
    entities at list separators and voting one class per token. */
module EntitiesProcessor {
  import opened Outcomes
  import opened PyStr
  import opened Spans
  import opened Dicts
  import opened TokenizerSplit
  import opened TokenizerSegment

  // ---------------------------------------------------------------------
  // preprocess_filter_empty

  /** `[e for e in entities if e[0] < e[1]]`. */
  function FilterEmpty(es: seq<Entity>): (r: seq<Entity>)
    ensures forall e :: e in r <==> e in es && e.start < e.end
    ensures |r| <= |es|
  {
    if |es| == 0 then []
    else (if es[0].start < es[0].end then [es[0]] else []) + FilterEmpty(es[1..])
  }

  /** The filter keeps the order of the entities: it distributes over
      concatenation. */
  lemma {:induction false} FilterEmptyAppend(a: seq<Entity>, b: seq<Entity>)
    ensures FilterEmpty(a + b) == FilterEmpty(a) + FilterEmpty(b)
  {
    if |a| == 0 {
      assert a + b == b;
    } else {
      assert (a + b)[1..] == a[1..] + b;
      FilterEmptyAppend(a[1..], b);
    }
  }

  /** Filtering twice is filtering once. */
  lemma {:induction false} FilterEmptyIdempotent(es: seq<Entity>)
    ensures FilterEmpty(FilterEmpty(es)) == FilterEmpty(es)
  {
    if |es| > 0 {
      var head := if es[0].start < es[0].end then [es[0]] else [];
      FilterEmptyAppend(head, FilterEmpty(es[1..]));
      FilterEmptyIdempotent(es[1..]);
      assert FilterEmpty(head) == head by {
        if |head| > 0 {
          assert head[1..] == [];
        }
      }
    }
  }

  /** `preprocess_filter_empty` for one datum: the text is left alone. */
  function FilterEmptyDoc(d: Doc): (r: Doc)
    ensures r.text == d.text
    ensures forall e :: e in r.entities <==> e in d.entities && e.start < e.end
  {
    Doc(d.text, FilterEmpty(d.entities))
  }

  // ---------------------------------------------------------------------
  // preprocess_cast_tokens

  /** The Cyrillic small letter es, which the first two keys of
      `_CAST_TOKENS` are written with. */
  const CyrillicEs: char := '\U{0441}'

  /** `_CAST_TOKENS[p]`. The keys "C++" and "C" are upper-case Latin and are
      looked up with a lower-cased token, so they never match. */
  function CastKey(p: string): (r: Option<string>)
    ensures r.Some? ==> |r.value| == |p| && |p| > 0
    ensures r.Some? ==> r.value == "c++" || r.value == "c"
  {
    if p == [CyrillicEs, '+', '+'] then Some("c++")
    else if p == [CyrillicEs] then Some("c")
    else if p == "C++" then Some("c++")
    else if p == "C" then Some("c")
    else None
  }

  /** `s.ljust(n)`. */
  function LJust(s: string, n: nat): (r: string)
    ensures |r| == if |s| < n then n else |s|
    ensures r[..|s|] == s
    ensures forall i :: |s| <= i < |r| ==> r[i] == ' '
  {
    if |s| < n then s + seq(n - |s|, _ => ' ') else s
  }

  /** The length of the normalised token does not exceed the token's. */
  lemma LowerStripShorter(s: string)
    ensures |LowerStrip(s)| <= |s|
  {
    var low := Lower(s);
    var i := SkipSpace(low, 0);
    assert LowerStrip(s) == low[i..BackSpace(low, i, |low|)];
  }

  /** The span of an entity, resolved against a text of length `n` as
      Python's slicing does. */
  predicate Covers(e: Entity, n: nat, i: int) {
    SliceBound(e.start, n) <= i < SliceBound(e.end, n)
  }

  /** The cast value for an entity's normalised token, if it has one. */
  function CastOf(text: string, e: Entity): Option<string> {
    CastKey(LowerStrip(Slice(text, e.start, e.end)))
  }

  /** `text[:start] + v + text[end:]` for a non-empty span as long as `v`. */
  function Splice(text: string, e: Entity, v: string): (r: string)
    requires SliceBound(e.start, |text|) < SliceBound(e.end, |text|)
    requires |v| == SliceBound(e.end, |text|) - SliceBound(e.start, |text|)
    ensures |r| == |text|
    ensures forall i :: 0 <= i < |text| && !Covers(e, |text|, i) ==> r[i] == text[i]
    ensures r[SliceBound(e.start, |text|)..SliceBound(e.end, |text|)] == v
  {
    Prefix(text, e.start) + v + Suffix(text, e.end)
  }

  /** A token with a cast value is non-empty and at least as long as it. */
  lemma CastFits(text: string, e: Entity)
    requires CastOf(text, e).Some?
    ensures SliceBound(e.start, |text|) < SliceBound(e.end, |text|)
    ensures |CastOf(text, e).value| <= |Slice(text, e.start, e.end)|
    ensures |Slice(text, e.start, e.end)| == SliceBound(e.end, |text|) - SliceBound(e.start, |text|)
  {
    LowerStripShorter(Slice(text, e.start, e.end));
  }

  /** The cast of one entity's token within `text`: the token is replaced by
      its cast value, padded with spaces to the token's length. */
  function CastOne(text: string, e: Entity): (r: string)
    ensures |r| == |text|
    ensures forall i :: 0 <= i < |text| && !Covers(e, |text|, i) ==> r[i] == text[i]
    ensures CastOf(text, e).Some? ==>
      var lo := SliceBound(e.start, |text|);
      var hi := SliceBound(e.end, |text|);
      lo < hi && r[lo..hi] == LJust(CastOf(text, e).value, hi - lo)
  {
    var c := CastOf(text, e);
    if c.None? then text
    else
      CastFits(text, e);
      Splice(text, e, LJust(c.value, |Slice(text, e.start, e.end)|))
  }

  /** A token that has just been cast is not cast again: casting is
      idempotent on each entity. */
  lemma CastOneIdempotent(text: string, e: Entity)
    ensures CastOne(CastOne(text, e), e) == CastOne(text, e)
  {
    if CastOf(text, e).Some? {
      CastLeavesNoKey(text, e);
    }
  }

  /** After the cast, the entity's token has no cast value. */
  lemma CastLeavesNoKey(text: string, e: Entity)
    requires CastOf(text, e).Some?
    ensures CastOf(CastOne(text, e), e).None?
  {
    var once := CastOne(text, e);
    var c := CastOf(text, e).value;
    var lo := SliceBound(e.start, |text|);
    var hi := SliceBound(e.end, |text|);
    var padded := LJust(c, hi - lo);
    assert once[lo..hi] == padded;
    SliceResolved(once, e.start, e.end);
    CastValueStays(c, hi - lo);
  }

  /** No key of `_CAST_TOKENS` starts with a Latin small c. */
  lemma NotAKey(p: string)
    requires |p| > 0 && p[0] == 'c'
    ensures CastKey(p) == None
  {
  }

  /** A padded cast value normalises to a string that is not a key. */
  lemma CastValueStays(c: string, n: nat)
    requires c == "c++" || c == "c"
    ensures CastKey(LowerStrip(LJust(c, n))) == None
  {
    var s := LJust(c, n);
    var low := Lower(s);
    assert s[0] == 'c';
    assert low[0] == 'c';
    var k := BackSpace(low, 0, |low|);
    assert k > 0 by {
      assert !IsSpace(low[0]);
    }
    assert SkipSpace(low, 0) == 0;
    assert LowerStrip(s) == low[..k];
    NotAKey(LowerStrip(s));
  }

  /** No entity from `k` on covers position `i`. */
  predicate Uncovered(es: seq<Entity>, k: nat, n: nat, i: int) {
    forall j :: k <= j < |es| ==> !Covers(es[j], n, i)
  }

  /** The casts of the entities from `k` on, in order, each reading the text
      the previous one left. */
  function CastFrom(text: string, es: seq<Entity>, k: nat): (r: string)
    requires k <= |es|
    ensures |r| == |text|
    ensures forall i :: 0 <= i < |text| && Uncovered(es, k, |text|, i) ==> r[i] == text[i]
    decreases |es| - k
  {
    if k == |es| then text else CastFrom(CastOne(text, es[k]), es, k + 1)
  }

  /** `preprocess_cast_tokens` for one datum: the text keeps its length and
      every character outside the entity spans; the entities are unchanged. */
  function CastTokens(d: Doc): (r: Doc)
    ensures |r.text| == |d.text| && r.entities == d.entities
    ensures forall i :: 0 <= i < |d.text| && Uncovered(d.entities, 0, |d.text|, i) ==> r.text[i] == d.text[i]
  {
    Doc(CastFrom(d.text, d.entities, 0), d.entities)
  }

  // ---------------------------------------------------------------------
  // _convert_split, _process_one_split, preprocess_split_tokens

  /** A piece `_convert_split` turns into an entity: non-empty and not in
      the splitter's token list. */
  predicate Keeps(sp: Splitter, s: string) {
    |s| > 0 && !IsSplitToken(sp, s)
  }

  function ToEntities(xs: seq<Sent>, cls: string): (r: seq<Entity>)
    ensures |r| == |xs|
    ensures forall i :: 0 <= i < |xs| ==> r[i] == Entity(xs[i].offset, End(xs[i]), cls)
  {
    seq(|xs|, i requires 0 <= i < |xs| => Entity(xs[i].offset, End(xs[i]), cls))
  }

  /** `Keeps` as the test `Walk` takes. */
  function KeepPiece(sp: Splitter): string -> bool {
    s => Keeps(sp, s)
  }

  /** `_convert_split(start, split, class_, tokens)`: exactly one entity per
      kept piece, in the order of the pieces; kept piece `i` gives the entity
      of class `cls` that starts at `start` plus the length of the pieces
      before it and is as long as the piece. Separators and empty pieces only
      move the offset on. */
  function ConvertSplit(start: int, split: seq<string>, cls: string, sp: Splitter): (r: seq<Entity>)
    ensures |r| == KeptCount(split, 0, |split|, KeepPiece(sp))
    ensures forall i :: 0 <= i < |split| && Keeps(sp, split[i]) ==>
      && KeptCount(split, 0, i, KeepPiece(sp)) < |r|
      && r[KeptCount(split, 0, i, KeepPiece(sp))] == Entity(start + |Concat(split[..i])|, start + |Concat(split[..i])| + |split[i]|, cls)
    ensures forall i :: 0 <= i < |r| ==> r[i].cls == cls && r[i].start < r[i].end
  {
    var xs := Walk(split, 0, start, KeepPiece(sp));
    WalkKeeps(split, 0, start, KeepPiece(sp));
    WalkExact(split, start, KeepPiece(sp));
    ToEntities(xs, cls)
  }

  /** An entity inside `[lo, hi)` of the text, non-empty, whose text is a
      kept piece. */
  predicate PieceWithin(text: string, sp: Splitter, e: Entity, lo: int, hi: int) {
    && 0 <= lo <= e.start < e.end <= hi <= |text|
    && Keeps(sp, text[e.start..e.end])
  }

  /** When the pieces spell out `text[start:hi]`, every converted entity
      covers one kept piece there, in order and without overlap. */
  lemma ConvertSplitLaid(text: string, start: int, hi: int, split: seq<string>, cls: string, sp: Splitter)
    requires 0 <= start <= hi <= |text| && Concat(split) == text[start..hi]
    ensures forall i :: 0 <= i < |ConvertSplit(start, split, cls, sp)| ==>
      PieceWithin(text, sp, ConvertSplit(start, split, cls, sp)[i], start, hi)
    ensures forall a, b :: 0 <= a < b < |ConvertSplit(start, split, cls, sp)| ==>
      ConvertSplit(start, split, cls, sp)[a].end <= ConvertSplit(start, split, cls, sp)[b].start
  {
    var keep := KeepPiece(sp);
    assert split[0..] == split;
    WalkLaid(text, split, 0, start, hi, keep);
    WalkKeeps(split, 0, start, keep);
    var xs := Walk(split, 0, start, keep);
    var r := ConvertSplit(start, split, cls, sp);
    forall i | 0 <= i < |r|
      ensures PieceWithin(text, sp, r[i], start, hi)
    {
      assert Located(text, xs[i]) && keep(xs[i].s);
    }
  }

  /** What `_process_one_split` makes of one entity: its conversion when
      the splitter returns more than two pieces, itself otherwise. */
  function OneSplit(text: string, e: Entity, sp: Splitter): seq<Entity> {
    var split := Apply(sp, Slice(text, e.start, e.end));
    if split.Some? && |split.value| > 2 then ConvertSplit(e.start, split.value, e.cls, sp) else [e]
  }

  /** An entity lying in the text, start not after end. */
  predicate InText(text: string, e: Entity) {
    0 <= e.start <= e.end <= |text|
  }

  /** `x` lies inside `y`'s span and has its class. */
  predicate Inside(x: Entity, y: Entity) {
    x.cls == y.cls && y.start <= x.start && x.end <= y.end
  }

  /** Each entity a located entity is split into lies inside it, in the
      text. */
  lemma OneSplitInside(text: string, e: Entity, sp: Splitter)
    requires InText(text, e)
    ensures forall x :: x in OneSplit(text, e, sp) ==> Inside(x, e) && InText(text, x)
  {
    var split := Apply(sp, Slice(text, e.start, e.end));
    if split.Some? && |split.value| > 2 {
      ConvertSplitLaid(text, e.start, e.end, split.value, e.cls, sp);
      var r := ConvertSplit(e.start, split.value, e.cls, sp);
      forall x | x in r
        ensures Inside(x, e) && InText(text, x)
      {
        var i :| 0 <= i < |r| && r[i] == x;
        assert PieceWithin(text, sp, r[i], e.start, e.end);
      }
    }
  }

  /** `_process_one_split(entities, text, f, tokens)`. */
  function ProcessOneSplit(text: string, es: seq<Entity>, sp: Splitter): seq<Entity> {
    if |es| == 0 then [] else OneSplit(text, es[0], sp) + ProcessOneSplit(text, es[1..], sp)
  }

  /** Every entity of `xs` lies inside some entity of `ys`. */
  predicate Within(xs: seq<Entity>, ys: seq<Entity>) {
    forall x :: x in xs ==> exists y :: y in ys && Inside(x, y)
  }

  predicate AllInText(text: string, es: seq<Entity>) {
    forall e :: e in es ==> InText(text, e)
  }

  /** Splitting located entities gives located entities, each inside one it
      came from. */
  lemma {:induction false} ProcessOneSplitWithin(text: string, es: seq<Entity>, sp: Splitter)
    requires AllInText(text, es)
    ensures AllInText(text, ProcessOneSplit(text, es, sp))
    ensures Within(ProcessOneSplit(text, es, sp), es)
  {
    if |es| > 0 {
      ProcessOneSplitWithin(text, es[1..], sp);
      OneSplitInside(text, es[0], sp);
      var head := OneSplit(text, es[0], sp);
      var tail := ProcessOneSplit(text, es[1..], sp);
      forall x | x in head + tail
        ensures InText(text, x) && exists y :: y in es && Inside(x, y)
      {
        if x in head {
          assert Inside(x, es[0]);
        } else {
          var y :| y in es[1..] && Inside(x, y);
          assert y in es;
        }
      }
    }
  }

  lemma WithinTrans(xs: seq<Entity>, ys: seq<Entity>, zs: seq<Entity>)
    requires Within(xs, ys) && Within(ys, zs)
    ensures Within(xs, zs)
  {
    forall x | x in xs
      ensures exists z :: z in zs && Inside(x, z)
    {
      var y :| y in ys && Inside(x, y);
      var z :| z in zs && Inside(y, z);
      assert Inside(x, z);
    }
  }

  /** `preprocess_split_tokens` for one datum: the passes of the semicolon,
      comma and slash splitters, all reading the same text. */
  function SplitTokens(d: Doc): (r: Doc)
    ensures r.text == d.text
    ensures AllInText(d.text, d.entities) ==> AllInText(r.text, r.entities) && Within(r.entities, d.entities)
  {
    var e1 := ProcessOneSplit(d.text, d.entities, Semi);
    var e2 := ProcessOneSplit(d.text, e1, Comma);
    var e3 := ProcessOneSplit(d.text, e2, Slash);
    SplitTokensWithin(d.text, d.entities);
    Doc(d.text, e3)
  }

  lemma SplitTokensWithin(text: string, es: seq<Entity>)
    ensures var e1 := ProcessOneSplit(text, es, Semi);
            var e3 := ProcessOneSplit(text, ProcessOneSplit(text, e1, Comma), Slash);
            AllInText(text, es) ==> AllInText(text, e3) && Within(e3, es)
  {
    if AllInText(text, es) {
      var e1 := ProcessOneSplit(text, es, Semi);
      ProcessOneSplitWithin(text, es, Semi);
      var e2 := ProcessOneSplit(text, e1, Comma);
      ProcessOneSplitWithin(text, e1, Comma);
      var e3 := ProcessOneSplit(text, e2, Slash);
      ProcessOneSplitWithin(text, e2, Slash);
      WithinTrans(e2, e1, es);
      WithinTrans(e3, e2, es);
    }
  }

  // ---------------------------------------------------------------------
  // process_tokens_freq

  /** `token_data[class_] += 1`, starting from 1 for a new class. */
  function Bump(d: seq<(string, int)>, c: string): seq<(string, int)> {
    Assign(d, c, Get(d, c, 0) + 1)
  }

  /** The per-class counts of one token, as the loop builds them: classes in
      order of first appearance. */
  function Votes(cs: seq<string>): seq<(string, int)> {
    if |cs| == 0 then [] else Bump(Votes(cs[..|cs| - 1]), cs[|cs| - 1])
  }

  /** The position of the first `c` in `cs`. */
  function First(cs: seq<string>, c: string): (i: nat)
    requires c in cs
    ensures i < |cs| && cs[i] == c
    ensures forall j :: 0 <= j < i ==> cs[j] != c
  {
    if cs[0] == c then 0 else First(cs[1..], c) + 1
  }

  lemma FirstAppend(cs: seq<string>, x: string, c: string)
    requires c in cs
    ensures First(cs + [x], c) == First(cs, c)
  {
    var i := First(cs, c);
    var j := First(cs + [x], c);
    assert (cs + [x])[i] == c;
    assert j < |cs| ==> cs[j] == c;
  }

  lemma FirstNew(cs: seq<string>, x: string)
    requires x !in cs
    ensures First(cs + [x], x) == |cs|
  {
    assert forall i :: 0 <= i < |cs| ==> (cs + [x])[i] == cs[i];
  }

  lemma {:induction false} VotesKeys(cs: seq<string>)
    ensures DistinctKeys(Votes(cs))
    ensures forall c :: HasKey(Votes(cs), c) <==> c in cs
  {
    if |cs| > 0 {
      var init := cs[..|cs| - 1];
      VotesKeys(init);
      assert cs == init + [cs[|cs| - 1]];
    }
  }

  /** Each class's count is its number of occurrences. */
  lemma {:induction false} VotesCount(cs: seq<string>)
    ensures forall c :: Get(Votes(cs), c, 0) == multiset(cs)[c]
  {
    if |cs| > 0 {
      var init := cs[..|cs| - 1];
      var x := cs[|cs| - 1];
      VotesCount(init);
      VotesKeys(init);
      assert cs == init + [x];
      assert multiset(cs) == multiset(init) + multiset{x};
    }
  }

  /** The classes of the votes all occur. */
  lemma {:induction false} VotesOccur(cs: seq<string>)
    ensures forall i :: 0 <= i < |Votes(cs)| ==> Votes(cs)[i].0 in cs
  {
    VotesKeys(cs);
    forall i | 0 <= i < |Votes(cs)|
      ensures Votes(cs)[i].0 in cs
    {
      assert HasKey(Votes(cs), Votes(cs)[i].0);
    }
  }

  /** Keys in order of first appearance in `cs`. */
  predicate InFirstOrder(cs: seq<string>, d: seq<(string, int)>) {
    && (forall i :: 0 <= i < |d| ==> d[i].0 in cs)
    && (forall i, j :: 0 <= i < j < |d| ==> First(cs, d[i].0) < First(cs, d[j].0))
  }

  /** The classes stand in order of first appearance. */
  lemma {:induction false} VotesOrder(cs: seq<string>)
    ensures InFirstOrder(cs, Votes(cs))
  {
    if |cs| > 0 {
      var init := cs[..|cs| - 1];
      var x := cs[|cs| - 1];
      VotesOrder(init);
      VotesKeys(init);
      VotesOccur(cs);
      var d := Votes(init);
      var r := Votes(cs);
      assert r == Bump(d, x);
      BumpShape(d, x);
      if HasKey(d, x) {
        OrderSameKeys(cs, d, r);
      } else {
        OrderNewKey(cs, d, r);
      }
    }
  }

  /** A bump keeps the keys in place, or adds the new key last. */
  lemma BumpShape(d: seq<(string, int)>, x: string)
    requires DistinctKeys(d)
    ensures HasKey(d, x) ==> |Bump(d, x)| == |d| && forall i :: 0 <= i < |d| ==> Bump(d, x)[i].0 == d[i].0
    ensures !HasKey(d, x) ==> |Bump(d, x)| == |d| + 1 && Bump(d, x)[..|d|] == d && Bump(d, x)[|d|].0 == x
  {
  }

  /** A class met before the last position is first met at the same place
      with or without the last one. */
  lemma FirstPrefix(cs: seq<string>, c: string)
    requires |cs| > 0 && c in cs[..|cs| - 1]
    ensures First(cs, c) == First(cs[..|cs| - 1], c)
  {
    assert cs == cs[..|cs| - 1] + [cs[|cs| - 1]];
    FirstAppend(cs[..|cs| - 1], cs[|cs| - 1], c);
  }

  lemma FirstLast(cs: seq<string>)
    requires |cs| > 0 && cs[|cs| - 1] !in cs[..|cs| - 1]
    ensures First(cs, cs[|cs| - 1]) == |cs| - 1
  {
    assert cs == cs[..|cs| - 1] + [cs[|cs| - 1]];
    FirstNew(cs[..|cs| - 1], cs[|cs| - 1]);
  }

  lemma OrderSameKeys(cs: seq<string>, d: seq<(string, int)>, r: seq<(string, int)>)
    requires |cs| > 0 && InFirstOrder(cs[..|cs| - 1], d)
    requires |r| == |d| && forall i :: 0 <= i < |d| ==> r[i].0 == d[i].0
    requires forall i :: 0 <= i < |r| ==> r[i].0 in cs
    ensures InFirstOrder(cs, r)
  {
    forall i | 0 <= i < |d|
      ensures First(cs, r[i].0) == First(cs[..|cs| - 1], d[i].0)
    {
      FirstPrefix(cs, d[i].0);
    }
  }

  lemma OrderNewKey(cs: seq<string>, d: seq<(string, int)>, r: seq<(string, int)>)
    requires |cs| > 0 && InFirstOrder(cs[..|cs| - 1], d)
    requires !HasKey(d, cs[|cs| - 1]) && forall c :: HasKey(d, c) <==> c in cs[..|cs| - 1]
    requires |r| == |d| + 1 && r[..|d|] == d && r[|d|].0 == cs[|cs| - 1]
    requires forall i :: 0 <= i < |r| ==> r[i].0 in cs
    ensures InFirstOrder(cs, r)
  {
    forall i | 0 <= i < |d|
      ensures First(cs, r[i].0) == First(cs[..|cs| - 1], d[i].0) < |cs| - 1
    {
      assert r[i] == d[i];
      FirstPrefix(cs, d[i].0);
    }
    FirstLast(cs);
  }

  /** The position of a class among the votes. */
  lemma VotesIndex(cs: seq<string>, c: string) returns (j: nat)
    requires c in cs
    ensures j < |Votes(cs)| && Votes(cs)[j].0 == c
  {
    VotesKeys(cs);
    assert HasKey(Votes(cs), c);
    j :| 0 <= j < |Votes(cs)| && Votes(cs)[j].0 == c;
  }

  /** The vote of the class at position `j` is its number of occurrences. */
  lemma VotesAt(cs: seq<string>, j: nat)
    requires j < |Votes(cs)|
    ensures Votes(cs)[j].1 == multiset(cs)[Votes(cs)[j].0]
  {
    VotesKeys(cs);
    VotesCount(cs);
    assert Get(Votes(cs), Votes(cs)[j].0, 0) == Votes(cs)[j].1;
  }

  /** `max(token_data, key=token_data.get)` for the classes `cs` of a
      token. */
  function TopClass(cs: seq<string>): string
    requires |cs| > 0
  {
    var d := Votes(cs);
    VotesKeys(cs);
    assert HasKey(d, cs[0]);
    d[ArgMax(d)].0
  }

  /** The chosen class occurs, no class occurs more often, and any other
      class that occurs as often first occurs later. */
  lemma TopClassSpec(cs: seq<string>)
    requires |cs| > 0
    ensures TopClass(cs) in cs
    ensures forall c :: c in cs ==> multiset(cs)[c] <= multiset(cs)[TopClass(cs)]
    ensures forall c :: (c in cs && c != TopClass(cs) && multiset(cs)[c] == multiset(cs)[TopClass(cs)]
      ==> First(cs, TopClass(cs)) < First(cs, c))
  {
    var d := Votes(cs);
    var w := ArgMax(d);
    VotesAt(cs, w);
    VotesOrder(cs);
    forall c | c in cs
      ensures multiset(cs)[c] <= multiset(cs)[d[w].0]
      ensures c != d[w].0 && multiset(cs)[c] == multiset(cs)[d[w].0] ==> First(cs, d[w].0) < First(cs, c)
    {
      var j := VotesIndex(cs, c);
      VotesAt(cs, j);
    }
  }

  /** `_preprocess_token_for_cnt(text[start:end])`. */
  function Norm(text: string, e: Entity): string {
    LowerStrip(Slice(text, e.start, e.end))
  }

  /** The (token, class) pairs of one datum, in entity order. */
  function DocPairs(d: Doc): (r: seq<(string, string)>)
    ensures |r| == |d.entities|
    ensures forall j :: 0 <= j < |d.entities| ==> r[j] == (Norm(d.text, d.entities[j]), d.entities[j].cls)
  {
    seq(|d.entities|, j requires 0 <= j < |d.entities| => (Norm(d.text, d.entities[j]), d.entities[j].cls))
  }

  /** The pairs of the whole batch, datum by datum. */
  function Pairs(data: seq<Doc>): seq<(string, string)> {
    if |data| == 0 then [] else Pairs(data[..|data| - 1]) + DocPairs(data[|data| - 1])
  }

  /** The classes met with token `t`, in order. */
  function ClassesOf(ps: seq<(string, string)>, t: string): seq<string> {
    if |ps| == 0 then []
    else ClassesOf(ps[..|ps| - 1], t) + (if ps[|ps| - 1].0 == t then [ps[|ps| - 1].1] else [])
  }

  /** `all_tokens` after the first loop. */
  function Tally(ps: seq<(string, string)>): seq<(string, seq<(string, int)>)> {
    if |ps| == 0 then []
    else
      var table := Tally(ps[..|ps| - 1]);
      var (t, c) := ps[|ps| - 1];
      Assign(table, t, Bump(Get(table, t, []), c))
  }

  /** The table has one entry per token met. */
  lemma {:induction false} TallyKeys(ps: seq<(string, string)>)
    ensures DistinctKeys(Tally(ps))
    ensures forall t :: HasKey(Tally(ps), t) <==> |ClassesOf(ps, t)| > 0
  {
    if |ps| > 0 {
      TallyKeys(ps[..|ps| - 1]);
    }
  }

  /** The table holds, for each token, the votes of its classes alone. */
  lemma {:induction false} TallySeparates(ps: seq<(string, string)>)
    ensures forall t :: Get(Tally(ps), t, []) == Votes(ClassesOf(ps, t))
  {
    if |ps| > 0 {
      var init := ps[..|ps| - 1];
      TallySeparates(init);
      TallyKeys(init);
      forall t
        ensures Get(Tally(ps), t, []) == Votes(ClassesOf(ps, t))
      {
        TallyStep(ps, t);
      }
    }
  }

  lemma TallyStep(ps: seq<(string, string)>, t: string)
    requires |ps| > 0
    requires DistinctKeys(Tally(ps[..|ps| - 1]))
    requires Get(Tally(ps[..|ps| - 1]), t, []) == Votes(ClassesOf(ps[..|ps| - 1], t))
    ensures Get(Tally(ps), t, []) == Votes(ClassesOf(ps, t))
  {
    var table := Tally(ps[..|ps| - 1]);
    var x := ps[|ps| - 1].0;
    var c := ps[|ps| - 1].1;
    var cs := ClassesOf(ps[..|ps| - 1], t);
    TallyLast(ps);
    if t == x {
      ClassesLast(ps, t);
      VotesSnoc(cs, c);
      AssignGet(table, x, Bump(Get(table, x, []), c), []);
    } else {
      ClassesOther(ps, t);
    }
  }

  lemma TallyLast(ps: seq<(string, string)>)
    requires |ps| > 0
    ensures Tally(ps) == Assign(Tally(ps[..|ps| - 1]), ps[|ps| - 1].0, Bump(Get(Tally(ps[..|ps| - 1]), ps[|ps| - 1].0, []), ps[|ps| - 1].1))
  {
  }

  lemma ClassesLast(ps: seq<(string, string)>, t: string)
    requires |ps| > 0 && ps[|ps| - 1].0 == t
    ensures ClassesOf(ps, t) == ClassesOf(ps[..|ps| - 1], t) + [ps[|ps| - 1].1]
  {
  }

  lemma ClassesOther(ps: seq<(string, string)>, t: string)
    requires |ps| > 0 && ps[|ps| - 1].0 != t
    ensures ClassesOf(ps, t) == ClassesOf(ps[..|ps| - 1], t)
  {
  }

  lemma VotesSnoc(cs: seq<string>, c: string)
    ensures Votes(cs + [c]) == Bump(Votes(cs), c)
  {
    assert (cs + [c])[..|cs|] == cs;
  }

  /** The class `token_top_class[token]` gives, failing as the dictionary
      lookups would for a token the table lacks. */
  function TopOf(table: seq<(string, seq<(string, int)>)>, t: string): Result<string> {
    if !HasKey(table, t) then Err(KeyError)
    else
      var d := Get(table, t, []);
      if |d| == 0 then Err(ValueError) else Ok(d[ArgMax(d)].0)
  }

  function Relabel(table: seq<(string, seq<(string, int)>)>, text: string, es: seq<Entity>): (r: Result<seq<Entity>>)
    ensures r.Ok? ==> |r.value| == |es|
  {
    if |es| == 0 then Ok([])
    else
      var c :- TopOf(table, Norm(text, es[0]));
      var rest :- Relabel(table, text, es[1..]);
      Ok([Entity(es[0].start, es[0].end, c)] + rest)
  }

  function RelabelAll(table: seq<(string, seq<(string, int)>)>, data: seq<Doc>): (r: Result<seq<Doc>>)
    ensures r.Ok? ==> |r.value| == |data|
  {
    if |data| == 0 then Ok([])
    else
      var es :- Relabel(table, data[0].text, data[0].entities);
      var rest :- RelabelAll(table, data[1..]);
      Ok([Doc(data[0].text, es)] + rest)
  }

  /** `process_tokens_freq(data)`. */
  function TokensFreq(data: seq<Doc>): Result<seq<Doc>> {
    RelabelAll(Tally(Pairs(data)), data)
  }

  /** Every pair of the batch is a class vote for its token. */
  lemma {:induction false} ClassesHas(ps: seq<(string, string)>, k: nat)
    requires k < |ps|
    ensures ps[k].1 in ClassesOf(ps, ps[k].0)
  {
    if k < |ps| - 1 {
      ClassesHas(ps[..|ps| - 1], k);
    }
  }

  /** The pair of entity `j` of datum `i` is one of the batch's pairs. */
  lemma {:induction false} PairsContains(data: seq<Doc>, i: nat, j: nat)
    requires i < |data| && j < |data[i].entities|
    ensures (Norm(data[i].text, data[i].entities[j]), data[i].entities[j].cls) in Pairs(data)
  {
    var init := data[..|data| - 1];
    if i < |data| - 1 {
      PairsContains(init, i, j);
    } else {
      assert DocPairs(data[i])[j] == (Norm(data[i].text, data[i].entities[j]), data[i].entities[j].cls);
    }
  }

  /** A token met at least once has its top class in the table. */
  lemma TopOfTally(ps: seq<(string, string)>, t: string)
    requires |ClassesOf(ps, t)| > 0
    ensures TopOf(Tally(ps), t) == Ok(TopClass(ClassesOf(ps, t)))
  {
    TallyKeys(ps);
    TallySeparates(ps);
    VotesKeys(ClassesOf(ps, t));
  }

  /** Entity `e'` is entity `e` of `text` with the top class of its token. */
  predicate Relabelled(ps: seq<(string, string)>, text: string, e: Entity, e': Entity) {
    && e'.start == e.start
    && e'.end == e.end
    && |ClassesOf(ps, Norm(text, e))| > 0
    && e'.cls == TopClass(ClassesOf(ps, Norm(text, e)))
  }

  /** Datum `d'` is datum `d` with every entity relabelled. */
  predicate DocRelabelled(ps: seq<(string, string)>, d: Doc, d': Doc) {
    && d'.text == d.text
    && |d'.entities| == |d.entities|
    && forall j :: 0 <= j < |d.entities| ==> Relabelled(ps, d.text, d.entities[j], d'.entities[j])
  }

  predicate Met(ps: seq<(string, string)>, text: string, es: seq<Entity>) {
    forall j :: 0 <= j < |es| ==> |ClassesOf(ps, Norm(text, es[j]))| > 0
  }

  lemma {:induction false} RelabelMet(ps: seq<(string, string)>, text: string, es: seq<Entity>)
    requires Met(ps, text, es)
    ensures Relabel(Tally(ps), text, es).Ok?
    ensures DocRelabelled(ps, Doc(text, es), Doc(text, Relabel(Tally(ps), text, es).value))
  {
    if |es| > 0 {
      TopOfTally(ps, Norm(text, es[0]));
      MetTail(ps, text, es);
      RelabelMet(ps, text, es[1..]);
      var c := TopClass(ClassesOf(ps, Norm(text, es[0])));
      var rest := Relabel(Tally(ps), text, es[1..]).value;
      RelabelCons(Tally(ps), text, es, c, rest);
      var r := [Entity(es[0].start, es[0].end, c)] + rest;
      forall j | 0 <= j < |es|
        ensures Relabelled(ps, text, es[j], r[j])
      {
        if j > 0 {
          assert es[j] == es[1..][j - 1] && r[j] == rest[j - 1];
        }
      }
    }
  }

  lemma MetTail(ps: seq<(string, string)>, text: string, es: seq<Entity>)
    requires |es| > 0 && Met(ps, text, es)
    ensures Met(ps, text, es[1..])
  {
    forall j | 0 <= j < |es| - 1
      ensures |ClassesOf(ps, Norm(text, es[1..][j]))| > 0
    {
      assert es[1..][j] == es[j + 1];
    }
  }

  lemma RelabelCons(table: seq<(string, seq<(string, int)>)>, text: string, es: seq<Entity>, c: string, rest: seq<Entity>)
    requires |es| > 0
    requires TopOf(table, Norm(text, es[0])) == Ok(c)
    requires Relabel(table, text, es[1..]) == Ok(rest)
    ensures Relabel(table, text, es) == Ok([Entity(es[0].start, es[0].end, c)] + rest)
  {
  }

  lemma {:induction false} RelabelAllMet(ps: seq<(string, string)>, data: seq<Doc>)
    requires forall i :: 0 <= i < |data| ==> Met(ps, data[i].text, data[i].entities)
    ensures RelabelAll(Tally(ps), data).Ok?
    ensures forall i :: 0 <= i < |data| ==> DocRelabelled(ps, data[i], RelabelAll(Tally(ps), data).value[i])
  {
    if |data| > 0 {
      RelabelMet(ps, data[0].text, data[0].entities);
      assert forall i :: 0 <= i < |data| - 1 ==> data[1..][i] == data[i + 1];
      RelabelAllMet(ps, data[1..]);
      var es := Relabel(Tally(ps), data[0].text, data[0].entities).value;
      var rest := RelabelAll(Tally(ps), data[1..]).value;
      RelabelAllCons(Tally(ps), data, es, rest);
      var r := [Doc(data[0].text, es)] + rest;
      forall i | 0 <= i < |data|
        ensures DocRelabelled(ps, data[i], r[i])
      {
        if i > 0 {
          assert data[i] == data[1..][i - 1] && r[i] == rest[i - 1];
        }
      }
    }
  }

  lemma RelabelAllCons(table: seq<(string, seq<(string, int)>)>, data: seq<Doc>, es: seq<Entity>, rest: seq<Doc>)
    requires |data| > 0
    requires Relabel(table, data[0].text, data[0].entities) == Ok(es)
    requires RelabelAll(table, data[1..]) == Ok(rest)
    ensures RelabelAll(table, data) == Ok([Doc(data[0].text, es)] + rest)
  {
  }

  /** `process_tokens_freq` never fails, keeps every text and span, and gives
      each entity the class most often met with its normalised token across
      the whole batch (the earliest such class on a tie, by `TopClassSpec`). */
  lemma TokensFreqRelabels(data: seq<Doc>)
    ensures TokensFreq(data).Ok?
    ensures |TokensFreq(data).value| == |data|
    ensures forall i :: 0 <= i < |data| ==> DocRelabelled(Pairs(data), data[i], TokensFreq(data).value[i])
  {
    var ps := Pairs(data);
    forall i | 0 <= i < |data|
      ensures Met(ps, data[i].text, data[i].entities)
    {
      forall j | 0 <= j < |data[i].entities|
        ensures |ClassesOf(ps, Norm(data[i].text, data[i].entities[j]))| > 0
      {
        PairsContains(data, i, j);
        var k :| 0 <= k < |ps| && ps[k] == (Norm(data[i].text, data[i].entities[j]), data[i].entities[j].cls);
        ClassesHas(ps, k);
      }
    }
    RelabelAllMet(ps, data);
  }
}

/** The two passes of the entity preprocessor that move entity offsets:
    `preprocess_punctuation`, which carries every entity across the inserted
    spaces of `fix_punctuation_with_data`, and `preprocess_sentences`, which
    rebuilds the text sentence by sentence. */
module EntitiesOffsets {
  import opened Outcomes
  import opened PyStr
  import opened Spans
  import opened TokenizerSplit
  import opened TokenizerSegment
  import opened TokenizerBuckets

  /** One character of the rewritten text, and whether it belongs to an
      inserted piece. */
  type Mark = (char, bool)

  function PieceMarks(p: Piece): (r: seq<Mark>)
    ensures |r| == |p.text|
    ensures forall j :: 0 <= j < |r| ==> r[j] == (p.text[j], p.added)
  {
    seq(|p.text|, j requires 0 <= j < |p.text| => (p.text[j], p.added))
  }

  /** The characters of the joined pieces, each with its piece's flag. */
  function Marks(ps: seq<Piece>): (r: seq<Mark>)
    ensures |r| == |Concat(Texts(ps))|
    ensures forall i :: 0 <= i < |r| ==> r[i].0 == Concat(Texts(ps))[i]
  {
    if |ps| == 0 then []
    else
      assert Texts(ps) == [ps[0].text] + Texts(ps[1..]);
      ConcatCons(ps[0].text, Texts(ps[1..]));
      PieceMarks(ps[0]) + Marks(ps[1..])
  }

  /** The characters not flagged as inserted, in order. */
  function KeptMarks(ms: seq<Mark>): string {
    if |ms| == 0 then ""
    else KeptMarks(ms[..|ms| - 1]) + (if ms[|ms| - 1].1 then "" else [ms[|ms| - 1].0])
  }

  lemma KeptMarksLast(ms: seq<Mark>, p: nat)
    requires p < |ms|
    ensures KeptMarks(ms[..p + 1]) == KeptMarks(ms[..p]) + (if ms[p].1 then "" else [ms[p].0])
  {
    assert ms[..p + 1][..p] == ms[..p];
  }

  lemma {:induction false} KeptMarksAppend(a: seq<Mark>, b: seq<Mark>)
    ensures KeptMarks(a + b) == KeptMarks(a) + KeptMarks(b)
  {
    if |b| > 0 {
      assert (a + b)[..|a + b| - 1] == a + b[..|b| - 1];
      assert (a + b)[|a + b| - 1] == b[|b| - 1];
      KeptMarksAppend(a, b[..|b| - 1]);
    } else {
      assert a + b == a;
    }
  }

  lemma {:induction false} PieceMarksKeptPrefix(p: Piece, n: nat)
    requires n <= |p.text|
    ensures KeptMarks(PieceMarks(p)[..n]) == if p.added then "" else p.text[..n]
  {
    if n > 0 {
      var ms := PieceMarks(p);
      PieceMarksKeptPrefix(p, n - 1);
      KeptMarksLast(ms, n - 1);
      assert ms[n - 1] == (p.text[n - 1], p.added);
      if p.added {
        assert KeptMarks(ms[..n]) == KeptMarks(ms[..n - 1]);
      } else {
        assert p.text[..n] == p.text[..n - 1] + [p.text[n - 1]];
        assert KeptMarks(ms[..n]) == p.text[..n - 1] + [p.text[n - 1]];
      }
    }
  }

  lemma PieceMarksKept(p: Piece)
    ensures KeptMarks(PieceMarks(p)) == KeptOf(p)
  {
    PieceMarksKeptPrefix(p, |p.text|);
    assert PieceMarks(p)[..|p.text|] == PieceMarks(p);
  }

  lemma MarksCons(ps: seq<Piece>)
    requires |ps| > 0
    ensures Marks(ps) == PieceMarks(ps[0]) + Marks(ps[1..])
  {
  }

  lemma KeptCons(ps: seq<Piece>)
    requires |ps| > 0
    ensures Kept(ps) == KeptOf(ps[0]) + Kept(ps[1..])
  {
  }

  /** Deleting the inserted characters gives back what deleting the inserted
      pieces gives. */
  lemma {:induction false} MarksKept(ps: seq<Piece>)
    ensures KeptMarks(Marks(ps)) == Kept(ps)
  {
    if |ps| > 0 {
      MarksKept(ps[1..]);
      PieceMarksKept(ps[0]);
      MarksCons(ps);
      KeptCons(ps);
      KeptMarksAppend(PieceMarks(ps[0]), Marks(ps[1..]));
    }
  }

  /** `dumb_mapping` once the first `p` characters are walked: old position
      `i` (a key of the dictionary) maps to `m[i]`. */
  function Mapping(ms: seq<Mark>, p: nat): (m: seq<nat>)
    requires p <= |ms|
    ensures |m| == |KeptMarks(ms[..p])|
    ensures forall i :: 0 <= i < |m| ==> m[i] < p && !ms[m[i]].1
  {
    if p == 0 then []
    else
      KeptMarksLast(ms, p - 1);
      Mapping(ms, p - 1) + (if ms[p - 1].1 then [] else [p - 1])
  }

  /** The targets strictly increase. */
  lemma {:induction false} MappingIncreasing(ms: seq<Mark>, p: nat)
    requires p <= |ms|
    ensures forall i, j :: 0 <= i < j < |Mapping(ms, p)| ==> Mapping(ms, p)[i] < Mapping(ms, p)[j]
  {
    if p > 0 {
      MappingIncreasing(ms, p - 1);
    }
  }

  /** The kept characters before target `i` are the first `i` kept ones. */
  lemma {:induction false} MappingPrefix(ms: seq<Mark>, p: nat)
    requires p <= |ms|
    ensures forall i :: 0 <= i < |Mapping(ms, p)| ==> KeptMarks(ms[..Mapping(ms, p)[i]]) == KeptMarks(ms[..p])[..i]
  {
    if p > 0 {
      MappingPrefix(ms, p - 1);
      KeptMarksLast(ms, p - 1);
      var m := Mapping(ms, p - 1);
      var k := KeptMarks(ms[..p - 1]);
      forall i | 0 <= i < |Mapping(ms, p)|
        ensures KeptMarks(ms[..Mapping(ms, p)[i]]) == KeptMarks(ms[..p])[..i]
      {
        if i < |m| {
          assert KeptMarks(ms[..p])[..i] == k[..i];
        }
      }
    }
  }

  /** The characters of `fix_punctuation_with_data(text)`, flagged. */
  function Rewritten(text: string): (ms: seq<Mark>)
    ensures KeptMarks(ms) == text
  {
    var ps := FixPunctuationWithData(text);
    MarksKept(ps);
    Marks(ps)
  }

  /** The characters of the new text, which is the pieces joined. */
  function Chars(ms: seq<Mark>): (r: string)
    ensures |r| == |ms| && forall i :: 0 <= i < |ms| ==> r[i] == ms[i].0
  {
    seq(|ms|, i requires 0 <= i < |ms| => ms[i].0)
  }

  lemma RewrittenText(text: string)
    ensures Chars(Rewritten(text)) == FixPunctuation(text)
  {
  }

  /** The kept characters of a split sequence are those of its two parts. */
  lemma KeptSplit(ms: seq<Mark>, p: nat)
    requires p <= |ms|
    ensures KeptMarks(ms) == KeptMarks(ms[..p]) + KeptMarks(ms[p..])
  {
    assert ms == ms[..p] + ms[p..];
    KeptMarksAppend(ms[..p], ms[p..]);
  }

  /** A kept character preceded by the first `i` kept characters is the
      `i`-th one. */
  lemma KeptAt(ms: seq<Mark>, p: nat, i: nat)
    requires p < |ms| && !ms[p].1
    requires |KeptMarks(ms[..p])| == i
    ensures i < |KeptMarks(ms)| && ms[p].0 == KeptMarks(ms)[i]
  {
    KeptMarksLast(ms, p);
    KeptSplit(ms, p + 1);
    var a := KeptMarks(ms[..p + 1]);
    assert a[i] == ms[p].0;
  }

  /** Target `i` of the full map holds the `i`-th kept character. */
  lemma MappingChar(ms: seq<Mark>, i: nat)
    requires i < |FullMap(ms)|
    ensures FullMap(ms)[i] < |ms| && ms[FullMap(ms)[i]].0 == KeptMarks(ms)[i]
  {
    MappingPrefix(ms, |ms|);
    assert ms[..|ms|] == ms;
    KeptAt(ms, FullMap(ms)[i], i);
  }

  /** `dumb_mapping` once every character is walked. */
  function FullMap(ms: seq<Mark>): (m: seq<nat>)
    ensures |m| == |KeptMarks(ms)|
    ensures forall i :: 0 <= i < |m| ==> m[i] < |ms| && !ms[m[i]].1
  {
    assert ms[..|ms|] == ms;
    Mapping(ms, |ms|)
  }

  /** `dumb_mapping` with one more key, `len(text)`, sent to the end of the
      new text. */
  function Extended(ms: seq<Mark>): (m: seq<nat>)
    ensures |m| == |KeptMarks(ms)| + 1
    ensures m[..|m| - 1] == FullMap(ms) && m[|m| - 1] == |ms|
  {
    FullMap(ms) + [|ms|]
  }

  /** The extended map is strictly increasing. */
  lemma ExtendedIncreasing(ms: seq<Mark>, i: nat, j: nat)
    requires i <= j < |Extended(ms)|
    ensures Extended(ms)[i] <= Extended(ms)[j]
  {
    MappingIncreasing(ms, |ms|);
    assert ms[..|ms|] == ms;
  }

  /** The kept characters before target `i` of the extended map are the
      first `i` characters of the old text. */
  lemma ExtendedPrefix(ms: seq<Mark>, i: nat)
    requires i < |Extended(ms)|
    ensures Extended(ms)[i] <= |ms|
    ensures KeptMarks(ms[..Extended(ms)[i]]) == KeptMarks(ms)[..i]
  {
    if i < |FullMap(ms)| {
      MappingPrefix(ms, |ms|);
      assert ms[..|ms|] == ms;
      assert Extended(ms)[i] == FullMap(ms)[i];
    } else {
      assert ms[..|ms|] == ms;
    }
  }

  /** Between two cut points that keep `k[..s]` and `k[..e]`, the kept
      characters are `k[s..e]`. */
  lemma KeptBetween(ms: seq<Mark>, a: nat, b: nat, s: nat, e: nat)
    requires a <= b <= |ms| && s <= e <= |KeptMarks(ms)|
    requires KeptMarks(ms[..a]) == KeptMarks(ms)[..s]
    requires KeptMarks(ms[..b]) == KeptMarks(ms)[..e]
    ensures KeptMarks(ms[a..b]) == KeptMarks(ms)[s..e]
  {
    KeptSplit(ms[..b], a);
    assert ms[..b][..a] == ms[..a] && ms[..b][a..] == ms[a..b];
  }

  /** The inserted characters removed, the new text between the targets of
      `s` and `e` is the old text between `s` and `e`. */
  lemma SpanCarried(ms: seq<Mark>, s: nat, e: nat)
    requires s <= e <= |KeptMarks(ms)|
    ensures Extended(ms)[s] <= Extended(ms)[e] <= |ms|
    ensures KeptMarks(ms[Extended(ms)[s]..Extended(ms)[e]]) == KeptMarks(ms)[s..e]
  {
    ExtendedIncreasing(ms, s, e);
    ExtendedPrefix(ms, s);
    ExtendedPrefix(ms, e);
    KeptBetween(ms, Extended(ms)[s], Extended(ms)[e], s, e);
  }

  /** A hard `dumb_mapping[k]` lookup. */
  function Lookup(m: seq<nat>, k: int): (r: Result<nat>)
  {
    if 0 <= k < |m| then Ok(m[k]) else Err(KeyError)
  }

  /** Both ends of every entity are keys of the map. */
  predicate Mapped(m: seq<nat>, es: seq<Entity>) {
    forall j :: 0 <= j < |es| ==> 0 <= es[j].start < |m| && 0 <= es[j].end < |m|
  }

  /** The new entity list: each `(start, end, t)` becomes
      `(m[start], m[end], t)`. */
  function MapEntities(m: seq<nat>, es: seq<Entity>): (r: Result<seq<Entity>>)
    ensures r.Ok? <==> Mapped(m, es)
    ensures r.Err? ==> r.error == KeyError
    ensures r.Ok? ==> |r.value| == |es|
    ensures r.Ok? ==> forall j :: 0 <= j < |es| ==> r.value[j] == Entity(m[es[j].start], m[es[j].end], es[j].cls)
  {
    if |es| == 0 then Ok([])
    else
      assert forall j :: 0 <= j < |es| - 1 ==> es[1..][j] == es[j + 1];
      var s :- Lookup(m, es[0].start);
      var e :- Lookup(m, es[0].end);
      var rest :- MapEntities(m, es[1..]);
      Ok([Entity(s, e, es[0].cls)] + rest)
  }

  /** `preprocess_punctuation` on one datum, as written: the map has no key
      for `len(text)`. */
  function PunctuateAsWritten(d: Doc): (r: Result<Doc>)
    ensures r.Ok? <==> Bounded(d.entities, |d.text| - 1)
    ensures r.Err? ==> r.error == KeyError
    ensures r.Ok? ==> r.value.text == FixPunctuation(d.text) && |r.value.entities| == |d.entities|
  {
    var ms := Rewritten(d.text);
    assert ms[..|ms|] == ms;
    var es :- MapEntities(Mapping(ms, |ms|), d.entities);
    RewrittenText(d.text);
    Ok(Doc(Chars(ms), es))
  }

  /** An entity that reaches the end of the text makes the pass fail. */
  lemma PunctuateEndFails(d: Doc, j: nat)
    requires j < |d.entities| && d.entities[j].end == |d.text|
    ensures PunctuateAsWritten(d) == Err(KeyError)
  {
    var ms := Rewritten(d.text);
    assert ms[..|ms|] == ms;
    assert !Mapped(Mapping(ms, |ms|), d.entities);
  }

  /** The smallest instance: "ab" with its whole text as an entity. */
  lemma PunctuateWholeTextFails()
    ensures PunctuateAsWritten(Doc("ab", [Entity(0, 2, "X")])) == Err(KeyError)
  {
    PunctuateEndFails(Doc("ab", [Entity(0, 2, "X")]), 0);
  }

  /** Both ends lie in `[0, n]`. */
  predicate Bounded(es: seq<Entity>, n: int) {
    forall j :: 0 <= j < |es| ==> 0 <= es[j].start <= n && 0 <= es[j].end <= n
  }

  /** Entity `e'` covers, once the inserted characters are removed, what `e`
      covered in the old text. */
  predicate Carried(ms: seq<Mark>, e: Entity, e': Entity) {
    && e'.cls == e.cls
    && 0 <= e.start <= |KeptMarks(ms)| && 0 <= e.end <= |KeptMarks(ms)|
    && 0 <= e'.start <= |ms| && 0 <= e'.end <= |ms|
    && (e.start <= e.end ==> e'.start <= e'.end && KeptMarks(ms[e'.start..e'.end]) == KeptMarks(ms)[e.start..e.end])
  }

  lemma BoundedMapped(m: seq<nat>, es: seq<Entity>, n: nat)
    requires |m| == n + 1
    ensures Mapped(m, es) <==> Bounded(es, n)
  {
  }

  /** `preprocess_punctuation` on one datum, with `len(text)` mapped to the
      end of the new text. It fails exactly when an entity end lies outside
      the text; otherwise every entity is carried across the inserted spaces. */
  function Punctuate(d: Doc): (r: Result<Doc>)
    ensures r.Ok? <==> Bounded(d.entities, |d.text|)
    ensures r.Err? ==> r.error == KeyError
    ensures r.Ok? ==> r.value.text == FixPunctuation(d.text) && |r.value.entities| == |d.entities|
    ensures r.Ok? ==> forall j :: 0 <= j < |d.entities| ==> Carried(Rewritten(d.text), d.entities[j], r.value.entities[j])
  {
    var ms := Rewritten(d.text);
    BoundedMapped(Extended(ms), d.entities, |d.text|);
    var es :- MapEntities(Extended(ms), d.entities);
    PunctuateCarries(ms, d.entities, es);
    RewrittenText(d.text);
    Ok(Doc(Chars(ms), es))
  }

  lemma PunctuateCarries(ms: seq<Mark>, es: seq<Entity>, es': seq<Entity>)
    requires MapEntities(Extended(ms), es) == Ok(es')
    ensures forall j :: 0 <= j < |es| ==> Carried(ms, es[j], es'[j])
  {
    forall j | 0 <= j < |es|
      ensures Carried(ms, es[j], es'[j])
    {
      CarriedOne(ms, es[j], es'[j]);
    }
  }

  /** One entity mapped through the extended table is carried. */
  lemma CarriedOne(ms: seq<Mark>, e: Entity, e': Entity)
    requires 0 <= e.start < |Extended(ms)| && 0 <= e.end < |Extended(ms)|
    requires e' == Entity(Extended(ms)[e.start], Extended(ms)[e.end], e.cls)
    ensures Carried(ms, e, e')
  {
    ExtendedPrefix(ms, e.start);
    ExtendedPrefix(ms, e.end);
    if e.start <= e.end {
      SpanCarried(ms, e.start, e.end);
    }
  }

  /** A lookup table that extends another gives the same entities wherever
      the shorter one has every key. */
  lemma {:induction false} MapEntitiesExtends(m: seq<nat>, m': seq<nat>, es: seq<Entity>)
    requires |m| <= |m'| && m'[..|m|] == m && Mapped(m, es)
    ensures MapEntities(m', es) == MapEntities(m, es)
  {
    assert Mapped(m', es);
    var a := MapEntities(m, es).value;
    var b := MapEntities(m', es).value;
    forall j | 0 <= j < |es|
      ensures a[j] == b[j]
    {
      assert m[es[j].start] == m'[es[j].start] && m[es[j].end] == m'[es[j].end];
    }
    assert a == b;
  }

  /** As written, a pass that succeeds gives what the extended map gives. */
  lemma AsWrittenAgrees(d: Doc)
    ensures PunctuateAsWritten(d).Ok? ==> Punctuate(d) == PunctuateAsWritten(d)
  {
    if PunctuateAsWritten(d).Ok? {
      var ms := Rewritten(d.text);
      assert ms[..|ms|] == ms;
      assert Mapping(ms, |ms|) == FullMap(ms);
      MapEntitiesExtends(FullMap(ms), Extended(ms), d.entities);
    }
  }

  /** `preprocess_punctuation` over a batch, as written; the first failure
      ends it. */
  function PreprocessPunctuationAsWritten(data: seq<Doc>): (r: Result<seq<Doc>>)
    ensures r.Ok? <==> forall i :: 0 <= i < |data| ==> Bounded(data[i].entities, |data[i].text| - 1)
    ensures r.Err? ==> r.error == KeyError
    ensures r.Ok? ==> |r.value| == |data|
    ensures r.Ok? ==> forall i :: 0 <= i < |data| ==> PunctuateAsWritten(data[i]) == Ok(r.value[i])
  {
    EachSpec(PunctuateAsWritten, data);
    Each(PunctuateAsWritten, data)
  }

  /** The corrected `preprocess_punctuation` over a batch, built from
      `Punctuate`; the first failure ends it. */
  function PreprocessPunctuation(data: seq<Doc>): (r: Result<seq<Doc>>)
    ensures r.Ok? <==> forall i :: 0 <= i < |data| ==> Bounded(data[i].entities, |data[i].text|)
    ensures r.Err? ==> r.error == KeyError
    ensures r.Ok? ==> |r.value| == |data|
    ensures r.Ok? ==> forall i :: 0 <= i < |data| ==> Punctuate(data[i]) == Ok(r.value[i])
  {
    EachSpec(Punctuate, data);
    Each(Punctuate, data)
  }

  /** Wherever the batch as written succeeds, the corrected batch gives the
      same documents. */
  lemma PreprocessPunctuationAgrees(data: seq<Doc>)
    ensures PreprocessPunctuationAsWritten(data).Ok? ==> PreprocessPunctuation(data) == PreprocessPunctuationAsWritten(data)
  {
    if PreprocessPunctuationAsWritten(data).Ok? {
      var a := PreprocessPunctuationAsWritten(data).value;
      forall i | 0 <= i < |data|
        ensures Punctuate(data[i]) == Ok(a[i])
      {
        AsWrittenAgrees(data[i]);
      }
      var b := PreprocessPunctuation(data).value;
      assert a == b;
    }
  }

  /** What one sentence adds to the rebuilt text: its right-stripped text,
      then '.' unless that already ends in punctuation, then ' '; nothing
      for a blank sentence. */
  function Block(s: string): (r: string)
  {
    var t := RStrip(s);
    if |t| == 0 then "" else if IsPunctuation(t[|t| - 1]) then t + " " else t + ". "
  }

  /** A block is empty exactly for a blank sentence; otherwise it starts with
      the sentence's right-stripped text and ends with punctuation and one
      space, at most two characters later. */
  lemma BlockShape(s: string)
    ensures |Block(s)| == 0 <==> IsBlank(s)
    ensures |Block(s)| > 0 ==> (
      && |RStrip(s)| < |Block(s)| <= |RStrip(s)| + 2
      && Block(s)[..|RStrip(s)|] == s[..|RStrip(s)|]
      && Block(s)[|Block(s)| - 1] == ' '
      && IsPunctuation(Block(s)[|Block(s)| - 2]))
  {
    var t := RStrip(s);
    if |t| > 0 {
      assert !IsBlank(s) by {
        assert s[|t| - 1] == t[|t| - 1];
      }
    } else {
      assert s == s[0..];
    }
  }

  /** The entities moved by `-delta`. */
  function Shift(es: seq<Entity>, delta: int): (r: seq<Entity>)
    ensures |r| == |es|
    ensures forall j :: 0 <= j < |es| ==> r[j] == Entity(es[j].start - delta, es[j].end - delta, es[j].cls)
  {
    seq(|es|, j requires 0 <= j < |es| => Entity(es[j].start - delta, es[j].end - delta, es[j].cls))
  }

  /** The loop of `preprocess_sentences` over the buckets: the text so far and
      the entities so far. A bucket without a sentence fails on `rstrip`. */
  function Rebuild(bs: seq<Bucket>): (r: Result<(string, seq<Entity>)>)
    ensures r.Err? ==> r.error == AttributeError
  {
    if |bs| == 0 then Ok(("", []))
    else
      var prev := Rebuild(bs[..|bs| - 1]);
      if prev.Err? then prev
      else Append(prev.value, bs[|bs| - 1])
  }

  /** Adds one bucket to the text and entities built so far. */
  function Append(acc: (string, seq<Entity>), b: Bucket): (r: Result<(string, seq<Entity>)>)
  {
    if b.sent.None? then Err(AttributeError)
    else Ok((acc.0 + Block(b.sent.value.s), acc.1 + Shift(b.entities, b.sent.value.offset - |acc.0|)))
  }

  /** One step of the loop, once the earlier buckets have been rebuilt. */
  lemma RebuildStep(bs: seq<Bucket>, acc: (string, seq<Entity>))
    requires |bs| > 0 && Rebuild(bs[..|bs| - 1]) == Ok(acc)
    ensures Rebuild(bs) == Append(acc, bs[|bs| - 1])
  {
  }

  /** Every bucket has a sentence. */
  predicate AllPlaced(bs: seq<Bucket>) {
    forall k :: 0 <= k < |bs| ==> bs[k].sent.Some?
  }

  lemma AllPlacedLast(bs: seq<Bucket>)
    requires |bs| > 0
    ensures AllPlaced(bs) <==> AllPlaced(bs[..|bs| - 1]) && bs[|bs| - 1].sent.Some?
  {
    assert forall k :: 0 <= k < |bs| - 1 ==> bs[..|bs| - 1][k] == bs[k];
  }

  /** The loop fails exactly when some bucket has no sentence. */
  lemma {:induction false} RebuildOk(bs: seq<Bucket>)
    ensures Rebuild(bs).Ok? <==> AllPlaced(bs)
  {
    if |bs| > 0 {
      RebuildOk(bs[..|bs| - 1]);
      AllPlacedLast(bs);
    }
  }

  /** A rebuild lists one entity per bucketed entity. */
  lemma {:induction false} RebuildCount(bs: seq<Bucket>)
    ensures Rebuild(bs).Ok? ==> |Rebuild(bs).value.1| == |Flatten(bs)|
  {
    if |bs| > 0 && Rebuild(bs).Ok? {
      var init := bs[..|bs| - 1];
      RebuildCount(init);
      FlattenLast(bs);
      RebuildStep(bs, Rebuild(init).value);
    }
  }

  /** The length of `s.rstrip()`. */
  function StripEnd(s: string): (n: nat)
    ensures n <= |s|
  {
    BackSpace(s, 0, |s|)
  }

  /** The entity lies inside its bucket's right-stripped sentence. */
  predicate Within(b: Bucket, e: Entity) {
    && b.sent.Some?
    && b.sent.value.offset <= e.start <= e.end <= b.sent.value.offset + StripEnd(b.sent.value.s)
  }

  /** The rebuilt text and entities of a prefix of the buckets are prefixes of
      those of all of them. */
  lemma {:induction false} RebuildPrefix(bs: seq<Bucket>, n: nat)
    requires n <= |bs| && Rebuild(bs).Ok?
    ensures Rebuild(bs[..n]).Ok?
    ensures |Rebuild(bs[..n]).value.0| <= |Rebuild(bs).value.0|
    ensures Rebuild(bs[..n]).value.0 == Rebuild(bs).value.0[..|Rebuild(bs[..n]).value.0|]
    ensures |Rebuild(bs[..n]).value.1| <= |Rebuild(bs).value.1|
    ensures Rebuild(bs[..n]).value.1 == Rebuild(bs).value.1[..|Rebuild(bs[..n]).value.1|]
    decreases |bs|
  {
    if n < |bs| {
      var init := bs[..|bs| - 1];
      assert init[..n] == bs[..n];
      RebuildPrefix(init, n);
    } else {
      assert bs[..n] == bs;
    }
  }

  /** The entities of the last bucket land in the last block, with their
      text unchanged when they lie inside the right-stripped sentence. */
  lemma RebuildLast(text: string, bs: seq<Bucket>, out: Doc, k: nat, j: nat)
    requires |bs| == k + 1 && Rebuild(bs) == Ok((out.text, out.entities))
    requires j < |bs[k].entities| && Within(bs[k], bs[k].entities[j])
    requires Located(text, bs[k].sent.value)
    ensures KeepsText(text, out, |Flatten(bs[..k])| + j, bs[k].entities[j])
  {
    RebuildInit(bs, out);
    var acc := Rebuild(bs[..k]).value;
    RebuildCount(bs[..k]);
    AppendKeeps(text, acc, bs[k], out, j);
  }

  /** The entities of an appended bucket land in its block. */
  lemma AppendKeeps(text: string, acc: (string, seq<Entity>), b: Bucket, out: Doc, j: nat)
    requires Append(acc, b) == Ok((out.text, out.entities))
    requires j < |b.entities| && Within(b, b.entities[j]) && Located(text, b.sent.value)
    ensures KeepsText(text, out, |acc.1| + j, b.entities[j])
  {
    AppendValue(acc, b, out);
    var x := b.sent.value;
    BlockPrefix(x.s);
    ShiftKeeps(text, acc.0, Block(x.s), acc.1, x, StripEnd(x.s), b.entities, j);
  }

  /** A successful rebuild is a successful rebuild of all buckets but the
      last, followed by the last. */
  lemma RebuildInit(bs: seq<Bucket>, out: Doc)
    requires |bs| > 0 && Rebuild(bs) == Ok((out.text, out.entities))
    ensures Rebuild(bs[..|bs| - 1]).Ok?
    ensures Append(Rebuild(bs[..|bs| - 1]).value, bs[|bs| - 1]) == Ok((out.text, out.entities))
  {
  }

  /** What a successful `Append` produces. */
  lemma AppendValue(acc: (string, seq<Entity>), b: Bucket, out: Doc)
    requires Append(acc, b) == Ok((out.text, out.entities))
    ensures b.sent.Some?
    ensures out == Doc(acc.0 + Block(b.sent.value.s), acc.1 + Shift(b.entities, b.sent.value.offset - |acc.0|))
  {
  }

  /** Every block starts with its sentence's right-stripped text. */
  lemma BlockPrefix(s: string)
    ensures StripEnd(s) <= |Block(s)| && Block(s)[..StripEnd(s)] == s[..StripEnd(s)]
  {
    BlockShape(s);
    assert |RStrip(s)| == StripEnd(s);
  }

  /** Appending a text that starts with the first `n` characters of sentence
      `x`, with the entities shifted by the sentence's offset less the text's
      length so far, places entity `j` on the same characters when it lies
      within those `n`. */
  lemma ShiftKeeps(text: string, pre: string, blk: string, ents: seq<Entity>, x: Sent, n: nat, es: seq<Entity>, j: nat)
    requires Located(text, x)
    requires n <= |blk| && n <= |x.s| && blk[..n] == x.s[..n]
    requires j < |es| && x.offset <= es[j].start <= es[j].end <= x.offset + n
    ensures KeepsText(text, Doc(pre + blk, ents + Shift(es, x.offset - |pre|)), |ents| + j, es[j])
  {
    var d := x.offset - |pre|;
    var e' := Entity(es[j].start - d, es[j].end - d, es[j].cls);
    assert (ents + Shift(es, d))[|ents| + j] == e';
    var a := es[j].start - x.offset;
    var b := es[j].end - x.offset;
    assert (pre + blk)[|pre| + a..|pre| + b] == blk[a..b];
    PrefixSlice(blk, x.s, n, a, b);
    SentenceSlice(text, x, es[j].start, es[j].end);
  }

  /** Two sequences that share their first `n` elements share every slice
      within them. */
  lemma PrefixSlice<T>(u: seq<T>, v: seq<T>, n: nat, a: nat, b: nat)
    requires n <= |u| && n <= |v| && u[..n] == v[..n] && a <= b <= n
    ensures u[a..b] == v[a..b]
  {
    forall i | 0 <= i < b - a
      ensures u[a..b][i] == v[a..b][i]
    {
      assert u[a + i] == u[..n][a + i];
    }
  }

  /** Entity `i` of the new datum covers what `e` covered in the old `text`. */
  predicate KeepsText(text: string, d': Doc, i: nat, e: Entity) {
    && i < |d'.entities|
    && d'.entities[i].cls == e.cls
    && 0 <= e.start <= e.end <= |text|
    && 0 <= d'.entities[i].start <= d'.entities[i].end <= |d'.text|
    && d'.text[d'.entities[i].start..d'.entities[i].end] == text[e.start..e.end]
  }

  /** Every entity that lies inside its right-stripped sentence keeps its
      text: entity `j` of bucket `k` is entity `|Flatten(bs[..k])| + j` of
      the rebuilt list. */
  lemma {:induction false} RebuildKeeps(text: string, bs: seq<Bucket>, out: Doc, k: nat, j: nat)
    requires Rebuild(bs) == Ok((out.text, out.entities)) && k < |bs|
    requires j < |bs[k].entities| && Within(bs[k], bs[k].entities[j])
    requires Located(text, bs[k].sent.value)
    ensures KeepsText(text, out, |Flatten(bs[..k])| + j, bs[k].entities[j])
    decreases |bs|
  {
    if k == |bs| - 1 {
      RebuildLast(text, bs, out, k, j);
    } else {
      var init := bs[..|bs| - 1];
      RebuildInit(bs, out);
      var acc := Rebuild(init).value;
      var last := bs[|bs| - 1];
      AppendValue(acc, last, out);
      assert init[..k] == bs[..k] && init[k] == bs[k];
      var prev := Doc(acc.0, acc.1);
      RebuildKeeps(text, init, prev, k, j);
      KeepsAppend(text, prev, Block(last.sent.value.s),
        Shift(last.entities, last.sent.value.offset - |acc.0|), |Flatten(bs[..k])| + j, bs[k].entities[j]);
    }
  }

  /** Appending text and entities keeps what the earlier entities cover. */
  lemma KeepsAppend(text: string, a: Doc, t: string, es: seq<Entity>, i: nat, e: Entity)
    requires KeepsText(text, a, i, e)
    ensures KeepsText(text, Doc(a.text + t, a.entities + es), i, e)
  {
    assert (a.entities + es)[i] == a.entities[i];
    assert (a.text + t)[a.entities[i].start..a.entities[i].end] == a.text[a.entities[i].start..a.entities[i].end];
  }

  /** `preprocess_sentences` on one datum: segment, bucket, rebuild. */
  function SentencesDoc(d: Doc, addEmpty: bool): (r: Result<Doc>)
    ensures r.Err? ==> r.error == IndexError || r.error == AttributeError
  {
    var sents := ExtractSentences(d.text, d.entities);
    var bs :- AddEntitiesToSentences(sents, d.entities, addEmpty);
    var out :- Rebuild(bs);
    Ok(Doc(out.0, out.1))
  }

  /** The buckets `SentencesDoc` rebuilds from. */
  function BucketsOf(d: Doc, addEmpty: bool): Result<seq<Bucket>> {
    AddEntitiesToSentences(ExtractSentences(d.text, d.entities), d.entities, addEmpty)
  }

  /** An entity that lies inside the right-stripped text of its sentence
      keeps its text and class in the rebuilt datum; entity `j` of bucket `k`
      becomes entity `|Flatten(bs[..k])| + j`. */
  lemma SentencesKeep(d: Doc, addEmpty: bool, bs: seq<Bucket>, out: Doc, k: nat, j: nat)
    requires SentencesDoc(d, addEmpty) == Ok(out) && BucketsOf(d, addEmpty) == Ok(bs)
    requires k < |bs| && j < |bs[k].entities| && Within(bs[k], bs[k].entities[j])
    ensures KeepsText(d.text, out, |Flatten(bs[..k])| + j, bs[k].entities[j])
  {
    BucketLocated(d, addEmpty, bs, k);
    SentencesOut(d, addEmpty, bs, out);
    RebuildKeeps(d.text, bs, out, k, j);
  }

  /** Every bucket's sentence lies in the text. */
  lemma BucketLocated(d: Doc, addEmpty: bool, bs: seq<Bucket>, k: nat)
    requires BucketsOf(d, addEmpty) == Ok(bs) && k < |bs| && bs[k].sent.Some?
    ensures Located(d.text, bs[k].sent.value)
  {
    var sents := ExtractSentences(d.text, d.entities);
    AddEntitiesFromSents(sents, d.entities, addEmpty);
    assert FromSents(sents, bs[k]);
    LaidLocated(d.text, sents, bs[k].sent.value);
  }

  /** The datum `SentencesDoc` returns is the rebuilt text and entities. */
  lemma SentencesOut(d: Doc, addEmpty: bool, bs: seq<Bucket>, out: Doc)
    requires SentencesDoc(d, addEmpty) == Ok(out) && BucketsOf(d, addEmpty) == Ok(bs)
    ensures Rebuild(bs) == Ok((out.text, out.entities))
  {
  }

  lemma SentencesDocValue(d: Doc, addEmpty: bool)
    requires SentencesDoc(d, addEmpty).Ok?
    ensures BucketsOf(d, addEmpty).Ok? && Rebuild(BucketsOf(d, addEmpty).value).Ok?
    ensures SentencesDoc(d, addEmpty).value
      == Doc(Rebuild(BucketsOf(d, addEmpty).value).value.0, Rebuild(BucketsOf(d, addEmpty).value).value.1)
  {
  }

  lemma LaidLocated(text: string, sents: seq<Sent>, x: Sent)
    requires Laid(text, sents, 0, |text|) && x in sents
    ensures Located(text, x)
  {
  }

  /** Inside a located sentence, slicing the sentence is slicing the text. */
  lemma SentenceSlice(text: string, x: Sent, a: int, b: int)
    requires Located(text, x) && x.offset <= a <= b <= End(x)
    ensures x.s[a - x.offset..b - x.offset] == text[a..b]
  {
    assert text[a..b] == text[x.offset..End(x)][a - x.offset..b - x.offset];
  }

  /** With no sentence at all the datum comes back empty, entities
      included; otherwise every entity comes back, in order. */
  lemma SentencesCount(d: Doc, addEmpty: bool)
    requires SentencesDoc(d, addEmpty).Ok?
    ensures ExtractSentences(d.text, d.entities) == [] ==> SentencesDoc(d, addEmpty).value == Doc("", [])
    ensures ExtractSentences(d.text, d.entities) != [] ==> |SentencesDoc(d, addEmpty).value.entities| == |d.entities|
  {
    SentencesDocValue(d, addEmpty);
    RebuildCount(BucketsOf(d, addEmpty).value);
  }

  /** The entity that keeps its text is the input entity at the same
      position. */
  lemma SentencesKeepSame(d: Doc, addEmpty: bool, bs: seq<Bucket>, out: Doc, k: nat, j: nat)
    requires SentencesDoc(d, addEmpty) == Ok(out) && BucketsOf(d, addEmpty) == Ok(bs)
    requires ExtractSentences(d.text, d.entities) != []
    requires k < |bs| && j < |bs[k].entities| && Within(bs[k], bs[k].entities[j])
    ensures |Flatten(bs[..k])| + j < |d.entities|
    ensures KeepsText(d.text, out, |Flatten(bs[..k])| + j, d.entities[|Flatten(bs[..k])| + j])
  {
    BucketsCover(d, addEmpty);
    FlattenAt(bs, k, j);
    SentencesKeep(d, addEmpty, bs, out, k, j);
  }

  lemma BucketsCover(d: Doc, addEmpty: bool)
    requires BucketsOf(d, addEmpty).Ok? && ExtractSentences(d.text, d.entities) != []
    ensures Flatten(BucketsOf(d, addEmpty).value) == d.entities
  {
  }

  /** `preprocess_sentences` over a batch; the first failure ends it. */
  function PreprocessSentences(data: seq<Doc>, addEmpty: bool): (r: Result<seq<Doc>>)
    ensures r.Ok? <==> forall i :: 0 <= i < |data| ==> SentencesDoc(data[i], addEmpty).Ok?
    ensures r.Err? ==> r.error == IndexError || r.error == AttributeError
    ensures r.Ok? ==> |r.value| == |data|
    ensures r.Ok? ==> forall i :: 0 <= i < |data| ==> SentencesDoc(data[i], addEmpty) == Ok(r.value[i])
  {
    var f := (d: Doc) => SentencesDoc(d, addEmpty);
    EachSpec(f, data);
    Each(f, data)
  }
}

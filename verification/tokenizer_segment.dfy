/** Sentence segmentation of `CunningTokenizer.extract_sentences`: the text is
    cut at sentence punctuation, each sentence is cut again before headed
    enumeration lines, and a segment of long lines is cut into its lines.
    Every segment keeps its offset into the text, so `text[o:o+len(s)] == s`
    holds for each `(o, s)` returned.
 */
module TokenizerSegment {
  import opened Outcomes
  import opened PyStr
  import opened Regex
  import opened Spans

  /** An `(offset, sentence)` pair. */
  datatype Sent = Sent(offset: int, s: string)

  function End(x: Sent): int {
    x.offset + |x.s|
  }

  /** The sentence is the slice of the text at its offset. */
  predicate Located(text: string, x: Sent) {
    0 <= x.offset && End(x) <= |text| && text[x.offset..End(x)] == x.s
  }

  /** Located sentences, inside `[lo, hi)`, each ending before the next
      begins. */
  predicate Laid(text: string, xs: seq<Sent>, lo: int, hi: int) {
    && (forall k :: 0 <= k < |xs| ==> Located(text, xs[k]))
    && (forall k :: 0 <= k < |xs| ==> lo <= xs[k].offset && End(xs[k]) <= hi)
    && (forall a, b :: 0 <= a < b < |xs| ==> End(xs[a]) <= xs[b].offset)
  }

  /** Laid-out sentences in `[lo, mid)` followed by laid-out sentences in
      `[mid, hi)` are laid out in `[lo, hi)`. */
  lemma Join(text: string, a: seq<Sent>, b: seq<Sent>, lo: int, mid: int, hi: int)
    requires lo <= mid <= hi
    requires Laid(text, a, lo, mid) && Laid(text, b, mid, hi)
    ensures Laid(text, a + b, lo, hi)
  {
    var ab := a + b;
    forall k | 0 <= k < |ab|
      ensures Located(text, ab[k]) && lo <= ab[k].offset && End(ab[k]) <= hi
    {
      if k < |a| {
        assert ab[k] == a[k];
      } else {
        assert ab[k] == b[k - |a|];
      }
    }
    forall x, y | 0 <= x < y < |ab|
      ensures End(ab[x]) <= ab[y].offset
    {
      if y < |a| {
      } else if x >= |a| {
        assert ab[x] == b[x - |a|] && ab[y] == b[y - |a|];
      } else {
        assert ab[y] == b[y - |a|];
      }
    }
  }

  /** Widening the window keeps sentences laid out. */
  lemma Widen(text: string, xs: seq<Sent>, lo: int, hi: int, lo': int, hi': int)
    requires Laid(text, xs, lo, hi) && lo' <= lo && hi <= hi'
    ensures Laid(text, xs, lo', hi')
  {
  }

  /** The first of laid-out sentences, and the others laid out after it. */
  lemma LaidTail(text: string, xs: seq<Sent>, lo: int, hi: int)
    requires Laid(text, xs, lo, hi) && |xs| > 0
    ensures Located(text, xs[0]) && lo <= xs[0].offset && End(xs[0]) <= hi
    ensures Laid(text, xs[1..], End(xs[0]), hi)
  {
    forall k | 0 <= k < |xs[1..]|
      ensures End(xs[0]) <= xs[1..][k].offset
    {
      assert xs[1..][k] == xs[k + 1];
    }
  }

  /** One located sentence. */
  lemma LaidSingle(text: string, x: Sent)
    requires Located(text, x)
    ensures Laid(text, [x], x.offset, End(x))
  {
  }

  /** A text made of a first part and a rest, as slices. */
  lemma SliceCut(text: string, lo: int, hi: int, p: string, rest: string)
    requires 0 <= lo <= hi <= |text| && p + rest == text[lo..hi]
    ensures lo + |p| <= hi
    ensures text[lo..lo + |p|] == p && text[lo + |p|..hi] == rest
  {
    assert |p + rest| == hi - lo;
    assert text[lo..hi][..|p|] == p;
    assert text[lo..hi][|p|..] == rest;
  }

  /** Two adjacent slices form one. */
  lemma SliceJoin(text: string, lo: int, mid: int, hi: int)
    requires 0 <= lo <= mid <= hi <= |text|
    ensures text[lo..mid] + text[mid..hi] == text[lo..hi]
  {
  }

  /** The pieces from `k` on, each at its running offset, keeping those that
      satisfy `keep`. */
  function Walk(pieces: seq<string>, k: nat, off: int, keep: string -> bool): seq<Sent>
    requires k <= |pieces|
    decreases |pieces| - k
  {
    if k == |pieces| then []
    else
      (if keep(pieces[k]) then [Sent(off, pieces[k])] else [])
      + Walk(pieces, k + 1, off + |pieces[k]|, keep)
  }

  /** When the pieces spell out `text[off:hi]`, the kept pieces are laid out
      in that window, and each satisfies `keep`. */
  lemma {:induction false} WalkLaid(text: string, pieces: seq<string>, k: nat, off: int, hi: int, keep: string -> bool)
    requires k <= |pieces| && 0 <= off <= hi <= |text|
    requires Concat(pieces[k..]) == text[off..hi]
    ensures Laid(text, Walk(pieces, k, off, keep), off, hi)
    decreases |pieces| - k
  {
    if k < |pieces| {
      var p := pieces[k];
      ConcatAt(pieces, k);
      SliceCut(text, off, hi, p, Concat(pieces[k + 1..]));
      WalkLaid(text, pieces, k + 1, off + |p|, hi, keep);
      HeadLaid(text, off, p, keep);
      Join(text, if keep(p) then [Sent(off, p)] else [], Walk(pieces, k + 1, off + |p|, keep), off, off + |p|, hi);
    }
  }

  lemma HeadLaid(text: string, off: int, p: string, keep: string -> bool)
    requires 0 <= off && off + |p| <= |text| && text[off..off + |p|] == p
    ensures Laid(text, if keep(p) then [Sent(off, p)] else [], off, off + |p|)
  {
  }

  /** Every piece `Walk` keeps satisfies `keep`. */
  lemma {:induction false} WalkKeeps(pieces: seq<string>, k: nat, off: int, keep: string -> bool)
    requires k <= |pieces|
    ensures forall j :: 0 <= j < |Walk(pieces, k, off, keep)| ==> keep(Walk(pieces, k, off, keep)[j].s)
    decreases |pieces| - k
  {
    if k < |pieces| {
      WalkKeeps(pieces, k + 1, off + |pieces[k]|, keep);
      var head: seq<Sent> := if keep(pieces[k]) then [Sent(off, pieces[k])] else [];
      var rest := Walk(pieces, k + 1, off + |pieces[k]|, keep);
      forall j | 0 <= j < |head + rest|
        ensures keep((head + rest)[j].s)
      {
        if j >= |head| {
          assert (head + rest)[j] == rest[j - |head|];
        }
      }
    }
  }

  /** How many of the pieces in `[k, i)` satisfy `keep`. */
  function KeptCount(pieces: seq<string>, k: nat, i: nat, keep: string -> bool): (n: nat)
    requires k <= i <= |pieces|
    ensures n <= i - k
    decreases i - k
  {
    if k == i then 0 else (if keep(pieces[k]) then 1 else 0) + KeptCount(pieces, k + 1, i, keep)
  }

  /** A kept piece `i` is the `Walk` entry whose rank is the number of kept
      pieces before it, at `off` plus the length of the pieces between `k`
      and `i`. */
  lemma {:induction false} WalkAt(pieces: seq<string>, k: nat, off: int, keep: string -> bool, i: nat)
    requires k <= i < |pieces| && keep(pieces[i])
    ensures KeptCount(pieces, k, i, keep) < |Walk(pieces, k, off, keep)|
    ensures Walk(pieces, k, off, keep)[KeptCount(pieces, k, i, keep)] == Sent(off + |Concat(pieces[k..i])|, pieces[i])
    decreases i - k
  {
    if k < i {
      WalkAt(pieces, k + 1, off + |pieces[k]|, keep, i);
      ConcatRangeAt(pieces, k, i);
      var head: seq<Sent> := if keep(pieces[k]) then [Sent(off, pieces[k])] else [];
      var rest := Walk(pieces, k + 1, off + |pieces[k]|, keep);
      var n := KeptCount(pieces, k + 1, i, keep);
      assert (head + rest)[|head| + n] == rest[n];
    } else {
      assert pieces[k..k] == [];
    }
  }

  /** `Walk` has one entry per kept piece. */
  lemma {:induction false} WalkCount(pieces: seq<string>, k: nat, off: int, keep: string -> bool)
    requires k <= |pieces|
    ensures |Walk(pieces, k, off, keep)| == KeptCount(pieces, k, |pieces|, keep)
    decreases |pieces| - k
  {
    if k < |pieces| {
      WalkCount(pieces, k + 1, off + |pieces[k]|, keep);
    }
  }

  /** The whole of `Walk` from the first piece: one entry per kept piece, the
      entry of kept piece `i` at the rank of `i` among the kept pieces and at
      `off` plus the length of the pieces before `i`. */
  lemma WalkExact(pieces: seq<string>, off: int, keep: string -> bool)
    ensures |Walk(pieces, 0, off, keep)| == KeptCount(pieces, 0, |pieces|, keep)
    ensures forall i :: 0 <= i < |pieces| && keep(pieces[i]) ==>
      && KeptCount(pieces, 0, i, keep) < |Walk(pieces, 0, off, keep)|
      && Walk(pieces, 0, off, keep)[KeptCount(pieces, 0, i, keep)] == Sent(off + |Concat(pieces[..i])|, pieces[i])
  {
    WalkCount(pieces, 0, off, keep);
    forall i | 0 <= i < |pieces| && keep(pieces[i])
      ensures KeptCount(pieces, 0, i, keep) < |Walk(pieces, 0, off, keep)|
      ensures Walk(pieces, 0, off, keep)[KeptCount(pieces, 0, i, keep)] == Sent(off + |Concat(pieces[..i])|, pieces[i])
    {
      WalkAt(pieces, 0, off, keep, i);
      assert pieces[0..i] == pieces[..i];
    }
  }

  /** The pattern `\.[ \n]|\n{3,}|\!\?` that ends a sentence. */
  const SentenceEnd := Alt(Pair(OneOf({'.'}), OneOf({' ', '\n'})), Alt(Run(OneOf({'\n'}), 3), Pair(OneOf({'!'}), OneOf({'?'}))))

  /** Text that `^[\s\.]*$` matches: whitespace and periods only. */
  predicate DotsAndSpaces(s: string) {
    forall i :: 0 <= i < |s| ==> IsSpace(s[i]) || s[i] == '.'
  }

  predicate NotDotsAndSpaces(s: string) {
    !DotsAndSpaces(s)
  }

  /** The first loop of `extract_sentences`: the pieces of the split at
      sentence ends, delimiters included, that are not only whitespace and
      periods, each at its offset. */
  function SentencesByDot(text: string): seq<Sent> {
    Walk(Split(SentenceEnd, text), 0, 0, NotDotsAndSpaces)
  }

  lemma SentencesByDotLaid(text: string)
    ensures Laid(text, SentencesByDot(text), 0, |text|)
    ensures forall k :: 0 <= k < |SentencesByDot(text)| ==> !DotsAndSpaces(SentencesByDot(text)[k].s)
  {
    var pieces := Split(SentenceEnd, text);
    SplitConcat(SentenceEnd, text);
    assert pieces[0..] == pieces;
    WalkLaid(text, pieces, 0, 0, |text|, NotDotsAndSpaces);
    WalkKeeps(pieces, 0, 0, NotDotsAndSpaces);
  }

  /** Every slice of a text of whitespace and periods is one too. */
  lemma DotsAndSpacesSlices(text: string, xs: seq<Sent>)
    requires DotsAndSpaces(text)
    requires forall k :: 0 <= k < |xs| ==> Located(text, xs[k])
    ensures forall k :: 0 <= k < |xs| ==> DotsAndSpaces(xs[k].s)
  {
    forall k | 0 <= k < |xs|
      ensures DotsAndSpaces(xs[k].s)
    {
      forall i | 0 <= i < |xs[k].s|
        ensures IsSpace(xs[k].s[i]) || xs[k].s[i] == '.'
      {
        assert xs[k].s[i] == text[xs[k].offset + i];
      }
    }
  }

  /** A line that `^[А-Я].*:\s*$` matches: an upper-case letter of А-Я, then
      a colon with no line break before it, then whitespace to the end. */
  predicate ColonLine(l: string) {
    && |l| >= 2
    && 'А' <= l[0] <= 'Я'
    && exists q :: 1 <= q < |l| && l[q] == ':' && '\n' !in l[1..q] && IsBlank(l[q + 1..])
  }

  /** The lines of `re.split("(\n)", s)` without the trailing ones that are
      empty or whitespace. */
  function TrimTail(lines: seq<string>): (r: seq<string>)
    ensures |r| <= |lines| && r == lines[..|r|]
    ensures |r| > 0 ==> !IsBlank(r[|r| - 1])
    ensures forall j :: |r| <= j < |lines| ==> IsBlank(lines[j])
  {
    if |lines| > 0 && IsBlank(lines[|lines| - 1]) then TrimTail(lines[..|lines| - 1]) else lines
  }

  /** `res_s`, emitted when it is not whitespace. An empty `res_s` is
      emitted: `"".isspace()` is false. */
  function Flush(at: int, res: string): seq<Sent> {
    if IsSpaceStr(res) then [] else [Sent(at, res)]
  }

  /** Whether line `j` starts a new segment: it is the last line of the last
      sentence and the last entity starts after `upTo`, or it is a headed
      enumeration line. The entity start is an offset into the text, while
      `upTo` counts from the sentence's start (line 92). */
  predicate CutAt(lines: seq<string>, j: nat, upTo: int, lastStart: Option<int>)
    requires j < |lines|
  {
    || (j == |lines| - 1 && lastStart.Some? && lastStart.value > upTo)
    || ColonLine(lines[j])
  }

  /** The loop of `_extract_enums_by_punct` from line `j` on, with the lines
      gathered so far in `res`, which starts at offset `at` of the text,
      `at - base` characters into the sentence at `base`. */
  function PunctFrom(lines: seq<string>, j: nat, at: int, res: string, base: int, lastStart: Option<int>): seq<Sent>
    requires j <= |lines|
    decreases |lines| - j
  {
    if j == |lines| then Flush(at, res)
    else if CutAt(lines, j, at - base + |res|, lastStart) then
      Flush(at, res) + PunctFrom(lines, j + 1, at + |res|, lines[j], base, lastStart)
    else PunctFrom(lines, j + 1, at, res + lines[j], base, lastStart)
  }

  /** The lines `_extract_enums_by_punct` walks: `s` split at line breaks,
      the breaks kept, trailing blank lines dropped. */
  function PunctLines(s: string): (r: seq<string>)
    ensures |Concat(r)| <= |s| && Concat(r) == s[..|Concat(r)|]
    ensures forall i :: |Concat(r)| <= i < |s| ==> IsSpace(s[i])
  {
    var lines := Split(Single(OneOf({'\n'})), s);
    SplitConcat(Single(OneOf({'\n'})), s);
    var r := TrimTail(lines);
    ConcatPrefixLength(lines, |r|);
    BlankTail(lines, |r|);
    r
  }

  /** Pieces that are all empty or whitespace join to whitespace. */
  lemma {:induction false} BlankConcat(xs: seq<string>)
    requires forall j :: 0 <= j < |xs| ==> IsBlank(xs[j])
    ensures IsBlank(Concat(xs))
  {
    if |xs| > 0 {
      BlankConcat(xs[1..]);
      var c := Concat(xs);
      assert c == xs[0] + Concat(xs[1..]);
      forall i | 0 <= i < |c|
        ensures IsSpace(c[i])
      {
        if i >= |xs[0]| {
          assert c[i] == Concat(xs[1..])[i - |xs[0]|];
        }
      }
    }
  }

  /** When the pieces from `m` on are blank, everything after the first `m`
      pieces in their join is whitespace. */
  lemma BlankTail(lines: seq<string>, m: nat)
    requires m <= |lines|
    requires forall j :: m <= j < |lines| ==> IsBlank(lines[j])
    ensures forall i :: |Concat(lines[..m])| <= i < |Concat(lines)| ==> IsSpace(Concat(lines)[i])
  {
    assert lines == lines[..m] + lines[m..];
    ConcatAppend(lines[..m], lines[m..]);
    var tail := lines[m..];
    forall j | 0 <= j < |tail|
      ensures IsBlank(tail[j])
    {
      assert tail[j] == lines[m + j];
    }
    BlankConcat(tail);
    forall i | |Concat(lines[..m])| <= i < |Concat(lines)|
      ensures IsSpace(Concat(lines)[i])
    {
      assert Concat(lines)[i] == Concat(tail)[i - |Concat(lines[..m])|];
    }
  }

  /** `_extract_enums_by_punct(offset, s, ...)`; `lastStart` is the start of
      the last entity when the sentence is the last one and there are
      entities. */
  function EnumsByPunct(base: int, s: string, lastStart: Option<int>): seq<Sent> {
    PunctFrom(PunctLines(s), 0, base, "", base, lastStart)
  }

  /** `res`, when it is the slice of the text at `at`, is laid out in its
      own span. */
  lemma FlushLaid(text: string, at: int, res: string)
    requires 0 <= at && at + |res| <= |text| && text[at..at + |res|] == res
    ensures Laid(text, Flush(at, res), at, at + |res|)
  {
  }

  /** The segments of `PunctFrom` lie in the text where the gathered lines and
      the lines still to come do. */
  lemma {:induction false} PunctLaid(text: string, lines: seq<string>, j: nat, at: int, res: string,
                                     base: int, hi: int, lastStart: Option<int>)
    requires j <= |lines| && 0 <= at && at + |res| <= hi <= |text|
    requires text[at..at + |res|] == res
    requires Concat(lines[j..]) == text[at + |res|..hi]
    ensures Laid(text, PunctFrom(lines, j, at, res, base, lastStart), at, hi)
    decreases |lines| - j, 1
  {
    if j == |lines| {
      FlushLaid(text, at, res);
      Widen(text, Flush(at, res), at, at + |res|, at, hi);
    } else if CutAt(lines, j, at - base + |res|, lastStart) {
      PunctLaidCut(text, lines, j, at, res, base, hi, lastStart);
    } else {
      PunctLaidGather(text, lines, j, at, res, base, hi, lastStart);
    }
  }

  /** `PunctLaid` when line `j` starts a new segment. */
  lemma {:induction false} PunctLaidCut(text: string, lines: seq<string>, j: nat, at: int, res: string,
                                        base: int, hi: int, lastStart: Option<int>)
    requires j < |lines| && 0 <= at && at + |res| <= hi <= |text|
    requires text[at..at + |res|] == res
    requires Concat(lines[j..]) == text[at + |res|..hi]
    requires CutAt(lines, j, at - base + |res|, lastStart)
    ensures Laid(text, PunctFrom(lines, j, at, res, base, lastStart), at, hi)
    decreases |lines| - j, 0
  {
    ConcatAt(lines, j);
    SliceCut(text, at + |res|, hi, lines[j], Concat(lines[j + 1..]));
    PunctLaid(text, lines, j + 1, at + |res|, lines[j], base, hi, lastStart);
    FlushLaid(text, at, res);
    Join(text, Flush(at, res), PunctFrom(lines, j + 1, at + |res|, lines[j], base, lastStart), at, at + |res|, hi);
  }

  /** `PunctLaid` when line `j` joins the gathered lines. */
  lemma {:induction false} PunctLaidGather(text: string, lines: seq<string>, j: nat, at: int, res: string,
                                           base: int, hi: int, lastStart: Option<int>)
    requires j < |lines| && 0 <= at && at + |res| <= hi <= |text|
    requires text[at..at + |res|] == res
    requires Concat(lines[j..]) == text[at + |res|..hi]
    requires !CutAt(lines, j, at - base + |res|, lastStart)
    ensures Laid(text, PunctFrom(lines, j, at, res, base, lastStart), at, hi)
    decreases |lines| - j, 0
  {
    ConcatAt(lines, j);
    SliceCut(text, at + |res|, hi, lines[j], Concat(lines[j + 1..]));
    SliceJoin(text, at, at + |res|, at + |res| + |lines[j]|);
    PunctLaid(text, lines, j + 1, at, res + lines[j], base, hi, lastStart);
  }

  /** The segments of a located sentence lie inside it. */
  lemma EnumsByPunctLaid(text: string, x: Sent, lastStart: Option<int>)
    requires Located(text, x)
    ensures Laid(text, EnumsByPunct(x.offset, x.s, lastStart), x.offset, End(x))
  {
    var lines := PunctLines(x.s);
    var n := |Concat(lines)|;
    assert lines[0..] == lines;
    assert text[x.offset..x.offset + n] == x.s[..n];
    PunctLaid(text, lines, 0, x.offset, "", x.offset, x.offset + n, lastStart);
    Widen(text, EnumsByPunct(x.offset, x.s, lastStart), x.offset, x.offset + n, x.offset, End(x));
  }

  /** No segment strictly contains the position `pos`. */
  predicate NotInside(xs: seq<Sent>, pos: int) {
    forall k :: 0 <= k < |xs| ==> !(xs[k].offset < pos < End(xs[k]))
  }

  /** No segment of `PunctFrom` strictly contains the start of a headed
      enumeration line: such a line always begins a new segment. The line
      `t` starts `|Concat(lines[j..t])|` characters after the gathered
      lines. */
  lemma {:induction false} PunctColon(text: string, lines: seq<string>, j: nat, at: int, res: string,
                                      base: int, hi: int, lastStart: Option<int>, t: nat)
    requires j <= |lines| && 0 <= at && at + |res| <= hi <= |text|
    requires text[at..at + |res|] == res
    requires Concat(lines[j..]) == text[at + |res|..hi]
    requires j <= t < |lines| && ColonLine(lines[t])
    ensures NotInside(PunctFrom(lines, j, at, res, base, lastStart), at + |res| + |Concat(lines[j..t])|)
    decreases |lines| - j, 3
  {
    if CutAt(lines, j, at - base + |res|, lastStart) {
      PunctColonCut(text, lines, j, at, res, base, hi, lastStart, t);
    } else {
      PunctColonGather(text, lines, j, at, res, base, hi, lastStart, t);
    }
  }

  /** Where line `t` starts, counted from the gathered lines at `j`: after
      line `j` and the lines between. */
  lemma LineStart(lines: seq<string>, j: nat, t: nat)
    requires j < t <= |lines|
    ensures |Concat(lines[j..t])| == |lines[j]| + |Concat(lines[j + 1..t])|
  {
    ConcatRangeAt(lines, j, t);
  }

  /** `PunctColon` when line `j` starts a new segment. */
  lemma {:induction false} PunctColonCut(text: string, lines: seq<string>, j: nat, at: int, res: string,
                                         base: int, hi: int, lastStart: Option<int>, t: nat)
    requires j <= |lines| && 0 <= at && at + |res| <= hi <= |text|
    requires text[at..at + |res|] == res
    requires Concat(lines[j..]) == text[at + |res|..hi]
    requires j <= t < |lines| && ColonLine(lines[t])
    requires CutAt(lines, j, at - base + |res|, lastStart)
    ensures NotInside(PunctFrom(lines, j, at, res, base, lastStart), at + |res| + |Concat(lines[j..t])|)
    decreases |lines| - j, 2
  {
    var pos := at + |res| + |Concat(lines[j..t])|;
    var rest := PunctFrom(lines, j + 1, at + |res|, lines[j], base, lastStart);
    AfterCut(text, lines, j, at, res, base, hi, lastStart, t);
    FlushBefore(at, res);
    BothSidesOf(Flush(at, res), rest, pos, at + |res|);
  }

  /** After a cut at line `j`, the later segments do not contain the start
      of the headed line `t`. */
  lemma {:induction false} AfterCut(text: string, lines: seq<string>, j: nat, at: int, res: string,
                                    base: int, hi: int, lastStart: Option<int>, t: nat)
    requires j <= |lines| && 0 <= at && at + |res| <= hi <= |text|
    requires text[at..at + |res|] == res
    requires Concat(lines[j..]) == text[at + |res|..hi]
    requires j <= t < |lines| && ColonLine(lines[t])
    ensures NotInside(PunctFrom(lines, j + 1, at + |res|, lines[j], base, lastStart), at + |res| + |Concat(lines[j..t])|)
    decreases |lines| - j, 1
  {
    if j < t {
      ColonLater(text, lines, j, at, res, base, hi, lastStart, t);
    } else {
      ConcatAt(lines, j);
      SliceCut(text, at + |res|, hi, lines[j], Concat(lines[j + 1..]));
      ColonHere(text, lines, j, at, res, base, hi, lastStart);
    }
  }

  /** `AfterCut` when the headed line lies after line `j`. */
  lemma {:induction false} ColonLater(text: string, lines: seq<string>, j: nat, at: int, res: string,
                                      base: int, hi: int, lastStart: Option<int>, t: nat)
    requires j <= |lines| && 0 <= at && at + |res| <= hi <= |text|
    requires text[at..at + |res|] == res
    requires Concat(lines[j..]) == text[at + |res|..hi]
    requires j < t < |lines| && ColonLine(lines[t])
    ensures NotInside(PunctFrom(lines, j + 1, at + |res|, lines[j], base, lastStart), at + |res| + |Concat(lines[j..t])|)
    decreases |lines| - j, 0
  {
    ConcatAt(lines, j);
    SliceCut(text, at + |res|, hi, lines[j], Concat(lines[j + 1..]));
    LineStart(lines, j, t);
    PunctColon(text, lines, j + 1, at + |res|, lines[j], base, hi, lastStart, t);
  }

  /** The segments after a cut at line `j` do not contain where line `j`
      starts. */
  lemma ColonHere(text: string, lines: seq<string>, j: nat, at: int, res: string,
                  base: int, hi: int, lastStart: Option<int>)
    requires j < |lines| && 0 <= at + |res| && at + |res| + |lines[j]| <= hi <= |text|
    requires text[at + |res|..at + |res| + |lines[j]|] == lines[j]
    requires Concat(lines[j + 1..]) == text[at + |res| + |lines[j]|..hi]
    ensures NotInside(PunctFrom(lines, j + 1, at + |res|, lines[j], base, lastStart), at + |res| + |Concat(lines[j..j])|)
  {
    assert lines[j..j] == [];
    var rest := PunctFrom(lines, j + 1, at + |res|, lines[j], base, lastStart);
    PunctLaid(text, lines, j + 1, at + |res|, lines[j], base, hi, lastStart);
    RestAfter(text, rest, at + |res|, hi);
  }

  lemma FlushBefore(at: int, res: string)
    ensures forall k :: 0 <= k < |Flush(at, res)| ==> End(Flush(at, res)[k]) <= at + |res|
  {
  }

  /** `PunctColon` when line `j` joins the gathered lines; it is then not a
      headed line, so `t` lies further on. */
  lemma {:induction false} PunctColonGather(text: string, lines: seq<string>, j: nat, at: int, res: string,
                                            base: int, hi: int, lastStart: Option<int>, t: nat)
    requires j <= |lines| && 0 <= at && at + |res| <= hi <= |text|
    requires text[at..at + |res|] == res
    requires Concat(lines[j..]) == text[at + |res|..hi]
    requires j <= t < |lines| && ColonLine(lines[t])
    requires !CutAt(lines, j, at - base + |res|, lastStart)
    ensures NotInside(PunctFrom(lines, j, at, res, base, lastStart), at + |res| + |Concat(lines[j..t])|)
    decreases |lines| - j, 0
  {
    assert j < t;
    LineStart(lines, j, t);
    ConcatAt(lines, j);
    SliceCut(text, at + |res|, hi, lines[j], Concat(lines[j + 1..]));
    SliceJoin(text, at, at + |res|, at + |res| + |lines[j]|);
    PunctColon(text, lines, j + 1, at, res + lines[j], base, hi, lastStart, t);
  }

  /** Segments laid out from `pos` on do not contain it. */
  lemma RestAfter(text: string, xs: seq<Sent>, pos: int, hi: int)
    requires Laid(text, xs, pos, hi)
    ensures NotInside(xs, pos)
  {
  }

  /** Segments ending at or before `mid <= pos` followed by segments that do
      not contain `pos` contain `pos` nowhere. */
  lemma BothSidesOf(a: seq<Sent>, b: seq<Sent>, pos: int, mid: int)
    requires mid <= pos
    requires forall k :: 0 <= k < |a| ==> End(a[k]) <= mid
    requires NotInside(b, pos)
    ensures NotInside(a + b, pos)
  {
    forall k | 0 <= k < |a + b|
      ensures !((a + b)[k].offset < pos < End((a + b)[k]))
    {
      if k < |a| {
        assert (a + b)[k] == a[k];
      } else {
        assert (a + b)[k] == b[k - |a|];
      }
    }
  }

  /** A headed enumeration line of a located sentence begins a segment of
      `EnumsByPunct`: no segment strictly contains the offset where the line
      starts. */
  lemma EnumsByPunctColon(text: string, x: Sent, lastStart: Option<int>, t: nat)
    requires Located(text, x)
    requires t < |PunctLines(x.s)| && ColonLine(PunctLines(x.s)[t])
    ensures NotInside(EnumsByPunct(x.offset, x.s, lastStart), x.offset + |Concat(PunctLines(x.s)[..t])|)
  {
    var lines := PunctLines(x.s);
    var n := |Concat(lines)|;
    assert lines[0..] == lines && lines[0..t] == lines[..t];
    assert text[x.offset..x.offset + n] == x.s[..n];
    PunctColon(text, lines, 0, x.offset, "", x.offset, x.offset + n, lastStart, t);
  }

  /** `np.mean(line_lengths) > 55`, written over the integers. */
  const LineThreshold := 55

  predicate NonBlank(l: string) {
    !IsBlank(l)
  }

  /** The lines `_extract_enums_by_line_length` looks at: the split at line
      breaks, breaks kept. */
  function Lines(s: string): (r: seq<string>)
    ensures Concat(r) == s
  {
    SplitConcat(Single(OneOf({'\n'})), s);
    Split(Single(OneOf({'\n'})), s)
  }

  /** The non-blank lines are long on average. */
  predicate LongLines(lines: seq<string>) {
    var n := CountIf(lines, NonBlank);
    n > 0 && LengthIf(lines, NonBlank) > LineThreshold * n
  }

  /** One step of `_extract_enums_by_line_length`: a segment whose
      non-blank lines are longer than 55 characters on average becomes its
      non-blank lines, each at its offset; any other segment stays whole. */
  function ByLength(x: Sent): (r: seq<Sent>)
    ensures LongLines(Lines(x.s)) ==> forall k :: 0 <= k < |r| ==> NonBlank(r[k].s)
    ensures !LongLines(Lines(x.s)) ==> r == [x]
  {
    var lines := Lines(x.s);
    if LongLines(lines) then
      WalkKeeps(lines, 0, x.offset, NonBlank);
      Walk(lines, 0, x.offset, NonBlank)
    else [x]
  }

  /** The segments `ByLength` makes of a located sentence lie inside it. */
  lemma ByLengthLaid(text: string, x: Sent)
    requires Located(text, x)
    ensures Laid(text, ByLength(x), x.offset, End(x))
  {
    var lines := Lines(x.s);
    if LongLines(lines) {
      assert lines[0..] == lines;
      WalkLaid(text, lines, 0, x.offset, End(x), NonBlank);
    } else {
      LaidSingle(text, x);
    }
  }

  /** The blocks `f(i)`, ..., `f(n - 1)` one after the other. */
  function FlatFrom(f: nat -> seq<Sent>, i: nat, n: nat): seq<Sent>
    decreases n - i
  {
    if i >= n then [] else f(i) + FlatFrom(f, i + 1, n)
  }

  /** `_extract_enums_by_line_length` of segment `j`, for any `j`. */
  function ByLengthOf(xs: seq<Sent>): nat -> seq<Sent> {
    (j: nat) => if j < |xs| then ByLength(xs[j]) else []
  }

  /** `_extract_enums_by_line_length` over the segments from `k` on. */
  function ByLengthFrom(xs: seq<Sent>, k: nat): seq<Sent>
    requires k <= |xs|
  {
    FlatFrom(ByLengthOf(xs), k, |xs|)
  }

  lemma {:induction false} ByLengthFromLaid(text: string, xs: seq<Sent>, k: nat, lo: int, hi: int)
    requires k <= |xs| && lo <= hi && Laid(text, xs[k..], lo, hi)
    ensures Laid(text, ByLengthFrom(xs, k), lo, hi)
    decreases |xs| - k
  {
    if k < |xs| {
      LaidTail(text, xs[k..], lo, hi);
      assert xs[k..][0] == xs[k] && xs[k..][1..] == xs[k + 1..];
      ByLengthFromLaid(text, xs, k + 1, End(xs[k]), hi);
      ByLengthLaid(text, xs[k]);
      Widen(text, ByLength(xs[k]), xs[k].offset, End(xs[k]), lo, End(xs[k]));
      Join(text, ByLength(xs[k]), ByLengthFrom(xs, k + 1), lo, End(xs[k]), hi);
    }
  }

  /** The start of the last entity, passed to the last sentence only. */
  function LastStart(sents: seq<Sent>, i: nat, entities: seq<Entity>): Option<int> {
    if i + 1 == |sents| && |entities| > 0 then Some(entities[|entities| - 1].start) else None
  }

  /** Both inner passes of `extract_sentences` for one sentence. */
  function Refine(sents: seq<Sent>, i: nat, entities: seq<Entity>): seq<Sent>
    requires i < |sents|
  {
    ByLengthFrom(EnumsByPunct(sents[i].offset, sents[i].s, LastStart(sents, i, entities)), 0)
  }

  lemma RefineLaid(text: string, sents: seq<Sent>, i: nat, entities: seq<Entity>)
    requires i < |sents| && Located(text, sents[i])
    ensures Laid(text, Refine(sents, i, entities), sents[i].offset, End(sents[i]))
  {
    var x := sents[i];
    var punct := EnumsByPunct(x.offset, x.s, LastStart(sents, i, entities));
    EnumsByPunctLaid(text, x, LastStart(sents, i, entities));
    assert punct[0..] == punct;
    ByLengthFromLaid(text, punct, 0, x.offset, End(x));
  }

  /** The refinement of sentence `j`, for any `j`. */
  function RefineOf(sents: seq<Sent>, entities: seq<Entity>): nat -> seq<Sent> {
    (j: nat) => if j < |sents| then Refine(sents, j, entities) else []
  }

  /** The second loop of `extract_sentences`, from sentence `i` on: the
      refined sentences one after the other. */
  function RefineFrom(sents: seq<Sent>, i: nat, entities: seq<Entity>): seq<Sent>
    requires i <= |sents|
  {
    FlatFrom(RefineOf(sents, entities), i, |sents|)
  }

  lemma {:induction false} RefineFromLaid(text: string, sents: seq<Sent>, i: nat, entities: seq<Entity>, lo: int, hi: int)
    requires i <= |sents| && lo <= hi && Laid(text, sents[i..], lo, hi)
    ensures Laid(text, RefineFrom(sents, i, entities), lo, hi)
    decreases |sents| - i
  {
    if i < |sents| {
      LaidTail(text, sents[i..], lo, hi);
      assert sents[i..][0] == sents[i] && sents[i..][1..] == sents[i + 1..];
      RefineFromLaid(text, sents, i + 1, entities, End(sents[i]), hi);
      RefineLaid(text, sents, i, entities);
      Widen(text, Refine(sents, i, entities), sents[i].offset, End(sents[i]), lo, End(sents[i]));
      Join(text, Refine(sents, i, entities), RefineFrom(sents, i + 1, entities), lo, End(sents[i]), hi);
    }
  }

  /** The segments that are not empty, in order. */
  function NonEmptySents(xs: seq<Sent>): (r: seq<Sent>)
    ensures forall k :: 0 <= k < |r| ==> |r[k].s| > 0
    ensures forall x :: x in r <==> x in xs && |x.s| > 0
  {
    if |xs| == 0 then []
    else
      assert xs == [xs[0]] + xs[1..];
      (if |xs[0].s| > 0 then [xs[0]] else []) + NonEmptySents(xs[1..])
  }

  lemma {:induction false} NonEmptySentsLaid(text: string, xs: seq<Sent>, lo: int, hi: int)
    requires lo <= hi && Laid(text, xs, lo, hi)
    ensures Laid(text, NonEmptySents(xs), lo, hi)
  {
    if |xs| > 0 {
      LaidTail(text, xs, lo, hi);
      NonEmptySentsLaid(text, xs[1..], End(xs[0]), hi);
      var head: seq<Sent> := if |xs[0].s| > 0 then [xs[0]] else [];
      assert Laid(text, head, lo, End(xs[0]));
      Join(text, head, NonEmptySents(xs[1..]), lo, End(xs[0]), hi);
    }
  }

  /** `extract_sentences(text, entities)`: non-empty segments of the text,
      each the slice of the text at its offset, in increasing order and
      pairwise disjoint. A text of whitespace and periods has none. */
  function ExtractSentences(text: string, entities: seq<Entity>): (r: seq<Sent>)
    ensures Laid(text, r, 0, |text|)
    ensures forall k :: 0 <= k < |r| ==> |r[k].s| > 0
    ensures DotsAndSpaces(text) ==> r == []
  {
    var sents := SentencesByDot(text);
    SentencesByDotLaid(text);
    assert sents[0..] == sents;
    RefineFromLaid(text, sents, 0, entities, 0, |text|);
    NonEmptySentsLaid(text, RefineFrom(sents, 0, entities), 0, |text|);
    NoSentencesIn(text);
    NonEmptySents(RefineFrom(sents, 0, entities))
  }

  /** A text of whitespace and periods has no sentence to refine. */
  lemma NoSentencesIn(text: string)
    ensures DotsAndSpaces(text) ==> SentencesByDot(text) == []
  {
    var sents := SentencesByDot(text);
    SentencesByDotLaid(text);
    if |sents| > 0 {
      assert Located(text, sents[0]);
      DotsAndSpacesSlice(text, sents[0]);
    }
  }

  /** A located piece of a text of whitespace and periods is one too. */
  lemma DotsAndSpacesSlice(text: string, x: Sent)
    requires Located(text, x)
    ensures DotsAndSpaces(text) ==> DotsAndSpaces(x.s)
  {
    if DotsAndSpaces(text) {
      DotsAndSpacesSlices(text, [x]);
    }
  }

  // ---------------------------------------------------------------------
  // Coverage: no character other than whitespace and '.' is dropped

  /** A character that `^[\s\.]*$` does not accept. */
  predicate Visible(c: char) {
    !IsSpace(c) && c != '.'
  }

  /** Some segment contains position `p`. */
  predicate CoveredBy(xs: seq<Sent>, p: int) {
    exists k :: 0 <= k < |xs| && xs[k].offset <= p < End(xs[k])
  }

  /** Segment `k` contains position `p`. */
  predicate CoversAt(xs: seq<Sent>, k: nat, p: int) {
    k < |xs| && xs[k].offset <= p < End(xs[k])
  }

  /** When the pieces spell out `text[off:hi]`, `Walk` keeps a segment
      containing `p`, at the returned index, as long as every piece holding
      the character at `p` is kept. */
  lemma {:induction false} WalkCovers(text: string, pieces: seq<string>, k: nat, off: int, hi: int,
                                      keep: string -> bool, p: int)
    returns (w: nat)
    requires k <= |pieces| && 0 <= off <= p < hi <= |text|
    requires Concat(pieces[k..]) == text[off..hi]
    requires forall j :: k <= j < |pieces| && text[p] in pieces[j] ==> keep(pieces[j])
    ensures CoversAt(Walk(pieces, k, off, keep), w, p)
    decreases |pieces| - k
  {
    if k == |pieces| {
      assert false;
    } else {
      var q := pieces[k];
      ConcatAt(pieces, k);
      SliceCut(text, off, hi, q, Concat(pieces[k + 1..]));
      if p < off + |q| {
        assert q[p - off] == text[p];
        assert keep(q);
        w := 0;
      } else {
        var w' := WalkCovers(text, pieces, k + 1, off + |q|, hi, keep, p);
        w := (if keep(q) then 1 else 0) + w';
      }
    }
  }

  /** A string holding a visible character is not whitespace and periods
      only, nor blank. */
  lemma HoldsVisible(s: string, c: char)
    requires c in s && Visible(c)
    ensures NotDotsAndSpaces(s) && NonBlank(s) && !IsSpaceStr(s)
  {
    var i :| 0 <= i < |s| && s[i] == c;
  }

  /** The first loop of `extract_sentences` keeps the piece of every visible
      character, at the returned index. */
  lemma SentencesByDotCovers(text: string, p: int) returns (w: nat)
    requires 0 <= p < |text| && Visible(text[p])
    ensures CoversAt(SentencesByDot(text), w, p)
  {
    var pieces := Split(SentenceEnd, text);
    SplitConcat(SentenceEnd, text);
    assert pieces[0..] == pieces;
    forall j | 0 <= j < |pieces| && text[p] in pieces[j]
      ensures NotDotsAndSpaces(pieces[j])
    {
      HoldsVisible(pieces[j], text[p]);
    }
    w := WalkCovers(text, pieces, 0, 0, |text|, NotDotsAndSpaces, p);
  }

  /** The segments of `PunctFrom` contain every visible character of the
      gathered lines and of the lines still to come; the returned index is
      one that does. */
  lemma {:induction false} PunctCovers(text: string, lines: seq<string>, j: nat, at: int, res: string,
                                       base: int, hi: int, lastStart: Option<int>, p: int)
    returns (w: nat)
    requires j <= |lines| && 0 <= at <= p < hi && at + |res| <= hi <= |text|
    requires text[at..at + |res|] == res
    requires Concat(lines[j..]) == text[at + |res|..hi]
    requires Visible(text[p])
    ensures CoversAt(PunctFrom(lines, j, at, res, base, lastStart), w, p)
    decreases |lines| - j, 1
  {
    if j == |lines| {
      assert lines[j..] == [];
      assert res[p - at] == text[p];
      HoldsVisible(res, text[p]);
      w := 0;
    } else if CutAt(lines, j, at - base + |res|, lastStart) {
      w := PunctCoversCut(text, lines, j, at, res, base, hi, lastStart, p);
    } else {
      ConcatAt(lines, j);
      SliceCut(text, at + |res|, hi, lines[j], Concat(lines[j + 1..]));
      SliceJoin(text, at, at + |res|, at + |res| + |lines[j]|);
      w := PunctCovers(text, lines, j + 1, at, res + lines[j], base, hi, lastStart, p);
    }
  }

  /** `PunctCovers` when line `j` starts a new segment. */
  lemma {:induction false} PunctCoversCut(text: string, lines: seq<string>, j: nat, at: int, res: string,
                                          base: int, hi: int, lastStart: Option<int>, p: int)
    returns (w: nat)
    requires j < |lines| && 0 <= at <= p < hi && at + |res| <= hi <= |text|
    requires text[at..at + |res|] == res
    requires Concat(lines[j..]) == text[at + |res|..hi]
    requires Visible(text[p])
    requires CutAt(lines, j, at - base + |res|, lastStart)
    ensures CoversAt(PunctFrom(lines, j, at, res, base, lastStart), w, p)
    decreases |lines| - j, 0
  {
    if p < at + |res| {
      assert res[p - at] == text[p];
      HoldsVisible(res, text[p]);
      w := 0;
    } else {
      ConcatAt(lines, j);
      SliceCut(text, at + |res|, hi, lines[j], Concat(lines[j + 1..]));
      var w' := PunctCovers(text, lines, j + 1, at + |res|, lines[j], base, hi, lastStart, p);
      w := |Flush(at, res)| + w';
    }
  }

  /** A visible character of a located sentence lies in one of its
      `_extract_enums_by_punct` segments, at the returned index: only
      trailing blank lines are dropped. */
  lemma EnumsByPunctCovers(text: string, x: Sent, lastStart: Option<int>, p: int) returns (w: nat)
    requires Located(text, x) && x.offset <= p < End(x) && Visible(text[p])
    ensures CoversAt(EnumsByPunct(x.offset, x.s, lastStart), w, p)
  {
    var lines := PunctLines(x.s);
    var n := |Concat(lines)|;
    assert text[p] == x.s[p - x.offset];
    assert p < x.offset + n;
    assert lines[0..] == lines;
    assert text[x.offset..x.offset + n] == x.s[..n];
    w := PunctCovers(text, lines, 0, x.offset, "", x.offset, x.offset + n, lastStart, p);
  }

  /** A visible character of a located segment lies in one of the segments
      `ByLength` makes of it, at the returned index: only blank lines are
      dropped. */
  lemma ByLengthCovers(text: string, x: Sent, p: int) returns (w: nat)
    requires Located(text, x) && x.offset <= p < End(x) && Visible(text[p])
    ensures CoversAt(ByLength(x), w, p)
  {
    var lines := Lines(x.s);
    if LongLines(lines) {
      assert lines[0..] == lines;
      forall j | 0 <= j < |lines| && text[p] in lines[j]
        ensures NonBlank(lines[j])
      {
        HoldsVisible(lines[j], text[p]);
      }
      w := WalkCovers(text, lines, 0, x.offset, End(x), NonBlank, p);
    } else {
      w := 0;
    }
  }

  /** `ByLengthFrom` from `k` keeps a visible character of segment `m`, at
      the returned index. */
  lemma ByLengthFromCovers(text: string, xs: seq<Sent>, k: nat, m: nat, p: int) returns (w: nat)
    requires k <= m < |xs| && Located(text, xs[m]) && xs[m].offset <= p < End(xs[m]) && Visible(text[p])
    ensures CoversAt(ByLengthFrom(xs, k), w, p)
  {
    var w0 := ByLengthCovers(text, xs[m], p);
    w := FlatFromAt(ByLengthOf(xs), k, |xs|, m, w0, p);
  }

  /** Both inner passes keep a visible character of a located sentence, at
      the returned index. */
  lemma RefineCovers(text: string, sents: seq<Sent>, i: nat, entities: seq<Entity>, p: int) returns (w: nat)
    requires i < |sents| && Located(text, sents[i]) && sents[i].offset <= p < End(sents[i]) && Visible(text[p])
    ensures CoversAt(Refine(sents, i, entities), w, p)
  {
    var x := sents[i];
    var punct := EnumsByPunct(x.offset, x.s, LastStart(sents, i, entities));
    var m := EnumsByPunctCovers(text, x, LastStart(sents, i, entities), p);
    EnumsByPunctLaid(text, x, LastStart(sents, i, entities));
    w := ByLengthFromCovers(text, punct, 0, m, p);
  }

  /** Segment `k0` of block `m` is kept by `FlatFrom` from any `i <= m`, at
      the returned index. */
  lemma {:induction false} FlatFromAt(f: nat -> seq<Sent>, i: nat, n: nat, m: nat, k0: nat, p: int)
    returns (k: nat)
    requires i <= m < n && CoversAt(f(m), k0, p)
    ensures CoversAt(FlatFrom(f, i, n), k, p)
    decreases m - i
  {
    if i == m {
      k := k0;
    } else {
      var k' := FlatFromAt(f, i + 1, n, m, k0, p);
      k := |f(i)| + k';
    }
  }

  /** Dropping the empty segments keeps every segment that contains a
      position. */
  lemma NonEmptyCovers(xs: seq<Sent>, k: nat, p: int)
    requires CoversAt(xs, k, p)
    ensures CoveredBy(NonEmptySents(xs), p)
  {
    var r := NonEmptySents(xs);
    assert xs[k] in r;
    var t :| 0 <= t < |r| && r[t] == xs[k];
  }

  /** `extract_sentences` drops only whitespace and periods: every other
      character of the text lies in one of the returned sentences, where it
      is the sentence's own character at that offset. */
  lemma ExtractSentencesCovers(text: string, entities: seq<Entity>, p: int)
    requires 0 <= p < |text| && Visible(text[p])
    ensures CoveredBy(ExtractSentences(text, entities), p)
  {
    var sents := SentencesByDot(text);
    var m := SentencesByDotCovers(text, p);
    SentencesByDotLaid(text);
    var k0 := RefineCovers(text, sents, m, entities, p);
    var k := FlatFromAt(RefineOf(sents, entities), 0, |sents|, m, k0, p);
    NonEmptyCovers(RefineFrom(sents, 0, entities), k, p);
  }

  /** `extract_sentences` returns nothing exactly when the text is whitespace
      and periods only. */
  lemma ExtractSentencesEmpty(text: string, entities: seq<Entity>)
    ensures ExtractSentences(text, entities) == [] <==> DotsAndSpaces(text)
  {
    if !DotsAndSpaces(text) {
      var p :| 0 <= p < |text| && !(IsSpace(text[p]) || text[p] == '.');
      ExtractSentencesCovers(text, entities, p);
    }
  }

  /** `sep.join(xs)`. */
  function JoinWith(sep: string, xs: seq<string>): string {
    if |xs| == 0 then "" else if |xs| == 1 then xs[0] else xs[0] + sep + JoinWith(sep, xs[1..])
  }

  function SentTexts(xs: seq<Sent>): (r: seq<string>)
    ensures |r| == |xs|
    ensures forall k :: 0 <= k < |xs| ==> r[k] == xs[k].s
  {
    seq(|xs|, k requires 0 <= k < |xs| => xs[k].s)
  }

  /** `fix_sentences(text)`: the sentences of the text joined by ". ". The
      result is empty exactly when the text has no sentence, as every
      sentence is non-empty. */
  function FixSentences(text: string): (r: string)
    ensures r == "" <==> ExtractSentences(text, []) == []
  {
    var texts := SentTexts(ExtractSentences(text, []));
    JoinEmpty(". ", texts);
    JoinWith(". ", texts)
  }

  /** A join of non-empty pieces is empty only when there are none. */
  lemma JoinEmpty(sep: string, xs: seq<string>)
    requires forall k :: 0 <= k < |xs| ==> |xs[k]| > 0
    ensures JoinWith(sep, xs) == "" <==> |xs| == 0
  {
    if |xs| > 1 {
      assert |JoinWith(sep, xs)| >= |xs[0]|;
    }
  }
}

/** The parts of Python's `str` and `re` behaviour the modelled code relies on,
    stated over `string` (a sequence of code points).
 */
module PyStr {

  /** `c.isspace()`: the code points Python classes as whitespace. */
  predicate IsSpace(c: char) {
    || ('\t' <= c <= '\r')
    || ('\U{1C}' <= c <= '\U{1F}')
    || c == ' '
    || c == '\U{85}'
    || c == '\U{A0}'
    || c == '\U{1680}'
    || ('\U{2000}' <= c <= '\U{200A}')
    || c == '\U{2028}'
    || c == '\U{2029}'
    || c == '\U{202F}'
    || c == '\U{205F}'
    || c == '\U{3000}'
  }

  /** Membership in `string.whitespace`, the six ASCII whitespace characters. */
  predicate IsAsciiWhitespace(c: char) {
    c == ' ' || c == '\t' || c == '\n' || c == '\r' || c == '\U{0B}' || c == '\U{0C}'
  }

  /** `s.isspace()`: non-empty and made only of whitespace. */
  predicate IsSpaceStr(s: string) {
    |s| > 0 && forall i :: 0 <= i < |s| ==> IsSpace(s[i])
  }

  /** A line that is empty or whitespace only (`len(l) == 0 or l.isspace()`). */
  predicate IsBlank(s: string) {
    forall i :: 0 <= i < |s| ==> IsSpace(s[i])
  }

  /** Membership in `string.punctuation`: the printable ASCII characters
      that are neither letters, digits nor space, as four code-point ranges
      (`!` to `/`, `:` to `@`, `[` to the backquote, `{` to `~`). */
  predicate IsPunctuation(c: char) {
    || ('!' <= c <= '/')
    || (':' <= c <= '@')
    || ('[' <= c <= '`')
    || ('{' <= c <= '~')
  }

  /** The regular-expression class `[а-яА-Я]`: U+0430..U+044F and
      U+0410..U+042F. The letters ё and Ё lie outside both ranges. */
  predicate IsCyrillicRange(c: char) {
    ('а' <= c <= 'я') || ('А' <= c <= 'Я')
  }

  predicate IsAsciiDigit(c: char) {
    '0' <= c <= '9'
  }

  /** `s.isnumeric()`, restricted to ASCII digits. */
  predicate IsNumeric(s: string) {
    |s| > 0 && forall i :: 0 <= i < |s| ==> IsAsciiDigit(s[i])
  }

  /** Lower-casing of one code point for the Latin, Latin-1 and Cyrillic
      upper-case letters; every other code point is its own lower case. */
  function LowerChar(c: char): char {
    if 'A' <= c <= 'Z' then (c as int + 32) as char
    else if 'À' <= c <= 'Þ' && c != '×' then (c as int + 32) as char
    else if 'А' <= c <= 'Я' then (c as int + 32) as char
    else if 'Ѐ' <= c <= 'Џ' then (c as int + 80) as char
    else c
  }

  /** `s.lower()`, code point by code point. */
  function Lower(s: string): (r: string)
    ensures |r| == |s|
    ensures forall i :: 0 <= i < |s| ==> r[i] == LowerChar(s[i])
  {
    seq(|s|, i requires 0 <= i < |s| => LowerChar(s[i]))
  }

  /** The first position at or after `i` that does not hold whitespace (or
      the end of `s`). */
  function SkipSpace(s: string, i: nat): (j: nat)
    requires i <= |s|
    ensures i <= j <= |s|
    ensures forall k :: i <= k < j ==> IsSpace(s[k])
    ensures j < |s| ==> !IsSpace(s[j])
    decreases |s| - i
  {
    if i < |s| && IsSpace(s[i]) then SkipSpace(s, i + 1) else i
  }

  /** The start of the run of whitespace that ends `s[..j]`, not going below
      `lo`. */
  function BackSpace(s: string, lo: nat, j: nat): (k: nat)
    requires lo <= j <= |s|
    ensures lo <= k <= j
    ensures forall m :: k <= m < j ==> IsSpace(s[m])
    ensures k > lo ==> !IsSpace(s[k - 1])
    decreases j
  {
    if j > lo && IsSpace(s[j - 1]) then BackSpace(s, lo, j - 1) else j
  }

  /** `s.strip()`: `s` without its leading and its trailing run of
      whitespace. */
  function Strip(s: string): (r: string)
  {
    var i := SkipSpace(s, 0);
    s[i..BackSpace(s, i, |s|)]
  }

  /** `s.rstrip()`: `s` without its trailing run of whitespace. */
  function RStrip(s: string): (r: string)
    ensures |r| <= |s| && r == s[..|r|]
    ensures IsBlank(s[|r|..])
    ensures |r| > 0 ==> !IsSpace(r[|r| - 1])
  {
    var j := BackSpace(s, 0, |s|);
    assert forall k :: 0 <= k < |s[j..]| ==> s[j..][k] == s[j + k];
    s[..j]
  }

  /** `s.strip()` is the slice of `s` left between a blank prefix and a blank
      suffix, and it neither starts nor ends with whitespace. */
  lemma StripSlice(s: string)
    ensures exists i ::
      (&& 0 <= i <= |s| - |Strip(s)|
       && Strip(s) == s[i..i + |Strip(s)|]
       && IsBlank(s[..i])
       && IsBlank(s[i + |Strip(s)|..]))
    ensures |Strip(s)| > 0 ==> !IsSpace(Strip(s)[0]) && !IsSpace(Strip(s)[|Strip(s)| - 1])
  {
    var i := SkipSpace(s, 0);
    var j := BackSpace(s, i, |s|);
    assert Strip(s) == s[i..j];
    assert IsBlank(s[..i]) && IsBlank(s[j..]);
  }

  /** `s.lower().strip()`, the normalisation applied to every keyword. */
  function LowerStrip(s: string): string {
    Strip(Lower(s))
  }

  /** The number of occurrences of `c` in `s` (`s.count(c)`). */
  function Count(s: string, c: char): (n: nat)
    ensures n <= |s|
  {
    if |s| == 0 then 0 else (if s[0] == c then 1 else 0) + Count(s[1..], c)
  }

  /** The first position at or after `i` that holds `c` (or the end of `s`). */
  function IndexFrom(s: string, c: char, i: nat): (k: nat)
    requires i <= |s|
    ensures i <= k <= |s|
    ensures forall m :: i <= m < k ==> s[m] != c
    ensures k < |s| ==> s[k] == c
    decreases |s| - i
  {
    if i == |s| || s[i] == c then i else IndexFrom(s, c, i + 1)
  }

  /** `c` does not occur in `s`. */
  predicate Lacks(s: string, c: char) {
    forall i :: 0 <= i < |s| ==> s[i] != c
  }

  /** `s` never holds `a` immediately followed by `b`. */
  predicate NoPair(s: string, a: char, b: char) {
    forall i :: 0 <= i < |s| - 1 ==> !(s[i] == a && s[i + 1] == b)
  }

  /** Two texts free of the pair stay free of it when joined, unless the
      first ends with `a` and the second begins with `b`. */
  lemma NoPairJoin(x: string, y: string, a: char, b: char)
    requires NoPair(x, a, b) && NoPair(y, a, b)
    requires |x| > 0 && |y| > 0 ==> !(x[|x| - 1] == a && y[0] == b)
    ensures NoPair(x + y, a, b)
  {
    var s := x + y;
    forall i | 0 <= i < |s| - 1
      ensures !(s[i] == a && s[i + 1] == b)
    {
      if i + 1 < |x| {
        assert s[i] == x[i] && s[i + 1] == x[i + 1];
      } else if i >= |x| {
        assert s[i] == y[i - |x|] && s[i + 1] == y[i + 1 - |x|];
      } else {
        assert s[i] == x[|x| - 1] && s[i + 1] == y[0];
      }
    }
  }

  /** The characters of `s` outside `drop`, in order. */
  function Omit(s: string, drop: set<char>): (r: string)
    ensures |r| <= |s|
    decreases |s|
  {
    if |s| == 0 then "" else (if s[0] in drop then "" else [s[0]]) + Omit(s[1..], drop)
  }

  /** Omitting characters distributes over concatenation. */
  lemma {:induction false} OmitAppend(a: string, b: string, drop: set<char>)
    ensures Omit(a + b, drop) == Omit(a, drop) + Omit(b, drop)
    decreases |a|
  {
    if |a| == 0 {
      assert a + b == b;
    } else {
      assert (a + b)[1..] == a[1..] + b;
      OmitAppend(a[1..], b, drop);
    }
  }

  /** A text made only of omitted characters leaves nothing. */
  lemma {:induction false} OmitAll(s: string, drop: set<char>)
    requires forall i :: 0 <= i < |s| ==> s[i] in drop
    ensures Omit(s, drop) == ""
    decreases |s|
  {
    if |s| > 0 {
      OmitAll(s[1..], drop);
    }
  }

  /** Python's resolution of one slice bound against a sequence of length `n`:
      a negative bound counts from the end, and the result is clamped. */
  function SliceBound(i: int, n: nat): (b: nat)
    ensures b <= n
    ensures 0 <= i <= n ==> b == i
  {
    if i < 0 then (if n + i < 0 then 0 else n + i) else if i > n then n else i
  }

  /** `s[i:j]` with Python's semantics: never fails. */
  function Slice(s: string, i: int, j: int): (r: string)
    ensures 0 <= i <= j <= |s| ==> r == s[i..j]
  {
    var lo := SliceBound(i, |s|);
    var hi := SliceBound(j, |s|);
    if lo < hi then s[lo..hi] else ""
  }

  /** A non-empty Python slice is the slice between its resolved bounds. */
  lemma SliceResolved(s: string, i: int, j: int)
    requires SliceBound(i, |s|) < SliceBound(j, |s|)
    ensures Slice(s, i, j) == s[SliceBound(i, |s|)..SliceBound(j, |s|)]
  {
  }

  /** `s[:j]`. */
  function Prefix(s: string, j: int): string {
    s[..SliceBound(j, |s|)]
  }

  /** `s[i:]`. */
  function Suffix(s: string, i: int): string {
    s[SliceBound(i, |s|)..]
  }

  /** The number of pieces that satisfy `p`. */
  function CountIf(xs: seq<string>, p: string -> bool): (n: nat)
    ensures n <= |xs|
  {
    if |xs| == 0 then 0 else (if p(xs[0]) then 1 else 0) + CountIf(xs[1..], p)
  }

  /** The total length of the pieces that satisfy `p`. */
  function LengthIf(xs: seq<string>, p: string -> bool): (n: nat)
  {
    if |xs| == 0 then 0 else (if p(xs[0]) then |xs[0]| else 0) + LengthIf(xs[1..], p)
  }

  /** `"".join(pieces)`. */
  function Concat(pieces: seq<string>): (r: string)
  {
    if |pieces| == 0 then "" else pieces[0] + Concat(pieces[1..])
  }

  lemma {:induction false} ConcatAppend(a: seq<string>, b: seq<string>)
    ensures Concat(a + b) == Concat(a) + Concat(b)
  {
    if |a| == 0 {
      assert a + b == b;
    } else {
      assert (a + b)[1..] == a[1..] + b;
      ConcatAppend(a[1..], b);
    }
  }

  lemma ConcatCons(a: string, rest: seq<string>)
    ensures Concat([a] + rest) == a + Concat(rest)
  {
    assert ([a] + rest)[1..] == rest;
  }

  /** The pieces from `k` on are the `k`-th piece and the pieces after it. */
  lemma ConcatAt(xs: seq<string>, k: nat)
    requires k < |xs|
    ensures Concat(xs[k..]) == xs[k] + Concat(xs[k + 1..])
  {
    assert xs[k..] == [xs[k]] + xs[k + 1..];
    ConcatCons(xs[k], xs[k + 1..]);
  }

  /** The same for the pieces in `[k, t)`. */
  lemma ConcatRangeAt(xs: seq<string>, k: nat, t: nat)
    requires k < t <= |xs|
    ensures Concat(xs[k..t]) == xs[k] + Concat(xs[k + 1..t])
  {
    assert xs[k..t] == [xs[k]] + xs[k + 1..t];
    ConcatCons(xs[k], xs[k + 1..t]);
  }

  lemma ConcatSingle(s: string)
    ensures Concat([s]) == s
  {
    assert Concat([s]) == s + Concat([]);
  }

  lemma {:induction false} ConcatPrefixLength(pieces: seq<string>, k: nat)
    requires k <= |pieces|
    ensures |Concat(pieces[..k])| <= |Concat(pieces)|
    ensures Concat(pieces[..k]) == Concat(pieces)[..|Concat(pieces[..k])|]
  {
    assert pieces == pieces[..k] + pieces[k..];
    ConcatAppend(pieces[..k], pieces[k..]);
  }

  /** Lower-casing a lower-cased code point changes nothing. */
  lemma LowerCharIdempotent(c: char)
    ensures LowerChar(LowerChar(c)) == LowerChar(c)
    ensures IsSpace(LowerChar(c)) <==> IsSpace(c)
  {
  }

  /** Stripping a stripped string changes nothing. */
  lemma StripIdempotent(s: string)
    ensures Strip(Strip(s)) == Strip(s)
  {
    StripSlice(s);
    StripUnchanged(Strip(s));
  }

  /** A string that neither starts nor ends with whitespace is its own strip. */
  lemma StripUnchanged(s: string)
    requires |s| > 0 ==> !IsSpace(s[0]) && !IsSpace(s[|s| - 1])
    ensures Strip(s) == s
  {
    assert SkipSpace(s, 0) == 0;
    assert BackSpace(s, 0, |s|) == |s|;
  }

  /** The strip of a lower-cased string is lower-case. */
  lemma StripOfLowerIsLower(s: string)
    ensures Lower(Strip(Lower(s))) == Strip(Lower(s))
  {
    var low := Lower(s);
    var i := SkipSpace(low, 0);
    var j := BackSpace(low, i, |low|);
    assert Strip(low) == low[i..j];
    LowerOfLowerSlice(s, i, j);
  }

  /** Normalising a normalised string changes nothing. */
  lemma LowerStripIdempotent(s: string)
    ensures LowerStrip(LowerStrip(s)) == LowerStrip(s)
  {
    var r := LowerStrip(s);
    StripOfLowerIsLower(s);
    assert Lower(r) == r;
    StripIdempotent(Lower(s));
  }

  /** Lower-casing commutes with taking a slice of an already lower-case string. */
  lemma LowerOfLowerSlice(s: string, i: nat, j: nat)
    requires i <= j <= |s|
    ensures Lower(Lower(s)[i..j]) == Lower(s)[i..j]
  {
    forall k | 0 <= k < j - i
      ensures Lower(Lower(s)[i..j])[k] == Lower(s)[i..j][k]
    {
      LowerCharIdempotent(s[i + k]);
    }
  }
}

/** The handful of regular expressions the pipeline applies with `re.split`,
    `re.sub` and `re.match`, each written as an explicit scanner.

    Every pattern used matches only non-empty text, so Python's search for the
    leftmost match is a walk over the positions of the string that stops at the
    first position where the pattern matches and resumes after the match.
 */
module Regex {
  import opened PyStr

  /** A regular-expression character class. */
  datatype CharClass =
    | OneOf(chars: set<char>)   // `[...]` listing the characters
    | Whitespace                // `\s`
    | CyrillicRange             // `[а-яА-Я]`
    | Digit                     // `[0-9]`

  predicate InClass(c: char, k: CharClass) {
    match k
    case OneOf(chars) => c in chars
    case Whitespace => IsSpace(c)
    case CyrillicRange => IsCyrillicRange(c)
    case Digit => IsAsciiDigit(c)
  }

  /** The patterns the pipeline uses, by shape. */
  datatype Pattern =
    | Single(k: CharClass)                       // one character of `k`
    | Run(k: CharClass, least: nat)              // `k{least,}`, greedy; `k+` is `least == 1`
    | Pair(first: CharClass, second: CharClass)  // one character of each, in order
    | RunThen(k: CharClass, tail: CharClass)     // `k+` followed by one character of `tail`
    | Alt(left: Pattern, right: Pattern)         // `left|right`: `left` is tried first

  /** The length of the longest run of characters of `k` that starts at `i`. */
  function RunLen(s: string, i: nat, k: CharClass): (n: nat)
    requires i <= |s|
    ensures i + n <= |s|
    ensures forall j :: i <= j < i + n ==> InClass(s[j], k)
    ensures i + n < |s| ==> !InClass(s[i + n], k)
    decreases |s| - i
  {
    if i < |s| && InClass(s[i], k) then 1 + RunLen(s, i + 1, k) else 0
  }

  /** The length of the match of `p` at position `i`, or 0 when there is none.
      A `RunThen` is matched greedily; this agrees with the backtracking
      matcher because in every use the tail class and the run class are
      disjoint. */
  function MatchLen(p: Pattern, s: string, i: nat): (n: nat)
    requires i <= |s|
    ensures i + n <= |s|
  {
    match p
    case Single(k) => if i < |s| && InClass(s[i], k) then 1 else 0
    case Run(k, least) =>
      var n := RunLen(s, i, k);
      if n > 0 && n >= least then n else 0
    case Pair(a, b) => if i + 1 < |s| && InClass(s[i], a) && InClass(s[i + 1], b) then 2 else 0
    case RunThen(k, t) =>
      var n := RunLen(s, i, k);
      if n > 0 && i + n < |s| && InClass(s[i + n], t) then n + 1 else 0
    case Alt(l, r) =>
      var n := MatchLen(l, s, i);
      if n > 0 then n else MatchLen(r, s, i)
  }

  /** A pattern as a function from a text and a position to the length of
      the match there. */
  function Matcher(p: Pattern): (m: (string, nat) -> nat)
    ensures forall t: string, j: nat :: j <= |t| ==> m(t, j) == MatchLen(p, t, j)
  {
    (t: string, j: nat) => if j <= |t| then MatchLen(p, t, j) else 0
  }

  /** The match that `m` reports at `i`, if it is a non-empty match inside
      the text. */
  predicate MatchAt(m: (string, nat) -> nat, s: string, i: nat)
    requires i <= |s|
  {
    0 < m(s, i) <= |s| - i
  }

  /** No match of `m` starts in `[lo, hi)`. */
  predicate NoMatchIn(m: (string, nat) -> nat, s: string, lo: nat, hi: nat)
    requires lo <= hi <= |s|
  {
    forall j :: lo <= j < hi ==> !MatchAt(m, s, j)
  }

  /** The pieces of `re.split` with a capturing group, for the text from
      `from` on, when the scan has reached `i` without finding a match since
      `from`. */
  function Scan(m: (string, nat) -> nat, s: string, from: nat, i: nat): (r: seq<string>)
    requires from <= i <= |s|
    ensures |r| > 0
    decreases |s| - i
  {
    if i == |s| then [s[from..]]
    else if MatchAt(m, s, i) then
      var n := m(s, i);
      [s[from..i], s[i..i + n]] + Scan(m, s, i + n, i + n)
    else Scan(m, s, from, i + 1)
  }

  /** `re.split("(p)", s)`: the text between matches, with every match kept as
      a piece of its own. */
  function Split(p: Pattern, s: string): (r: seq<string>)
    ensures |r| > 0
  {
    Scan(Matcher(p), s, 0, 0)
  }

  /** The pieces of a scan put back together give the scanned text. */
  lemma {:induction false} ScanConcat(m: (string, nat) -> nat, s: string, from: nat, i: nat)
    requires from <= i <= |s|
    ensures Concat(Scan(m, s, from, i)) == s[from..]
    decreases |s| - i
  {
    if i == |s| {
      ConcatSingle(s[from..]);
    } else if MatchAt(m, s, i) {
      var n := m(s, i);
      assert Scan(m, s, from, i) == [s[from..i], s[i..i + n]] + Scan(m, s, i + n, i + n);
      ScanConcat(m, s, i + n, i + n);
      CutConcat(s, from, i, n, Scan(m, s, i + n, i + n));
    } else {
      assert Scan(m, s, from, i) == Scan(m, s, from, i + 1);
      ScanConcat(m, s, from, i + 1);
    }
  }

  /** Putting back the text before a match and the match in front of the
      pieces of the rest gives the text from `from` on. */
  lemma CutConcat(s: string, from: nat, i: nat, n: nat, rest: seq<string>)
    requires from <= i && i + n <= |s| && Concat(rest) == s[i + n..]
    ensures Concat([s[from..i], s[i..i + n]] + rest) == s[from..]
  {
    ConcatCons(s[i..i + n], rest);
    ConcatCons(s[from..i], [s[i..i + n]] + rest);
    assert [s[from..i], s[i..i + n]] + rest == [s[from..i]] + ([s[i..i + n]] + rest);
    assert s[from..] == s[from..i] + s[i..i + n] + s[i + n..];
  }

  /** Joining the pieces of `re.split` gives back the text. */
  lemma SplitConcat(p: Pattern, s: string)
    ensures Concat(Split(p, s)) == s
  {
    ScanConcat(Matcher(p), s, 0, 0);
  }

  /** A scan yields a single piece exactly when no match starts at or after
      `i`. */
  lemma {:induction false} ScanSingle(m: (string, nat) -> nat, s: string, from: nat, i: nat)
    requires from <= i <= |s|
    ensures |Scan(m, s, from, i)| == 1 <==> NoMatchIn(m, s, i, |s|)
    ensures |Scan(m, s, from, i)| == 1 ==> Scan(m, s, from, i) == [s[from..]]
    decreases |s| - i
  {
    if i < |s| && !MatchAt(m, s, i) {
      ScanSingle(m, s, from, i + 1);
    }
  }

  /** `p` matches at no position of `s` (`re.search(p, s) is None`). */
  predicate Nowhere(p: Pattern, s: string) {
    forall j :: 0 <= j < |s| ==> MatchLen(p, s, j) == 0
  }

  /** `re.split` leaves the text whole, as one piece, exactly when the
      pattern matches nowhere in it. */
  lemma SplitSingle(p: Pattern, s: string)
    ensures |Split(p, s)| == 1 <==> Nowhere(p, s)
    ensures |Split(p, s)| == 1 ==> Split(p, s) == [s]
  {
    var m := Matcher(p);
    ScanSingle(m, s, 0, 0);
    assert Split(p, s) == Scan(m, s, 0, 0);
    if Nowhere(p, s) {
      forall j | 0 <= j < |s|
        ensures !MatchAt(m, s, j)
      {
        assert m(s, j) == MatchLen(p, s, j);
      }
      assert NoMatchIn(m, s, 0, |s|);
    } else {
      var j :| 0 <= j < |s| && MatchLen(p, s, j) != 0;
      assert MatchAt(m, s, j);
    }
  }

  /** `re.sub(p, repl, s)` for the text from `i` on. */
  function SubFrom(m: (string, nat) -> nat, s: string, repl: string, i: nat): string
    requires i <= |s|
    decreases |s| - i
  {
    if i == |s| then ""
    else if MatchAt(m, s, i) then repl + SubFrom(m, s, repl, i + m(s, i))
    else [s[i]] + SubFrom(m, s, repl, i + 1)
  }

  /** `re.sub(p, repl, s)`. */
  function Sub(p: Pattern, s: string, repl: string): string {
    SubFrom(Matcher(p), s, repl, 0)
  }

  // ---------------------------------------------------------------------
  // What `re.sub` preserves

  /** `re.sub` introduces no character that neither the replacement nor
      an unmatched character of the text supplies. */
  lemma {:induction false} SubLacks(m: (string, nat) -> nat, s: string, repl: string, c: char, i: nat)
    requires i <= |s| && Lacks(repl, c)
    requires forall j :: i <= j < |s| && !MatchAt(m, s, j) ==> s[j] != c
    ensures Lacks(SubFrom(m, s, repl, i), c)
    decreases |s| - i
  {
    if i < |s| {
      if MatchAt(m, s, i) {
        SubLacks(m, s, repl, c, i + m(s, i));
      } else {
        SubLacks(m, s, repl, c, i + 1);
      }
    }
  }

  /** A text and replacement without `c` give a result without `c`. */
  lemma SubKeepsLacking(p: Pattern, s: string, repl: string, c: char)
    requires Lacks(s, c) && Lacks(repl, c)
    ensures Lacks(Sub(p, s, repl), c)
  {
    SubLacks(Matcher(p), s, repl, c, 0);
  }

  /** What `re.sub` produces from `j` does not begin with `b`. */
  predicate StartsWithout(m: (string, nat) -> nat, s: string, repl: string, j: nat, b: char)
    requires j <= |s|
  {
    j == |s| || (if MatchAt(m, s, j) then |repl| > 0 && repl[0] != b else s[j] != b)
  }

  /** The piece `re.sub` emits at `j` ends with `a` only when what follows
      it does not begin with `b`. */
  predicate JoinsWithout(m: (string, nat) -> nat, s: string, repl: string, a: char, b: char, j: nat)
    requires j < |s|
  {
    if MatchAt(m, s, j) then (|repl| > 0 && repl[|repl| - 1] == a ==> StartsWithout(m, s, repl, j + m(s, j), b))
    else (s[j] == a ==> StartsWithout(m, s, repl, j + 1, b))
  }

  /** With a non-empty replacement free of the pair, `re.sub` produces no
      `a` followed by `b` if no emitted piece ending in `a` is followed by
      one beginning with `b`. */
  lemma {:induction false} SubNoPair(m: (string, nat) -> nat, s: string, repl: string, a: char, b: char, i: nat)
    requires i <= |s| && |repl| > 0 && NoPair(repl, a, b)
    requires forall j :: i <= j < |s| ==> JoinsWithout(m, s, repl, a, b, j)
    ensures NoPair(SubFrom(m, s, repl, i), a, b)
    decreases |s| - i
  {
    if i < |s| {
      var hit := MatchAt(m, s, i);
      var next := if hit then i + m(s, i) else i + 1;
      var piece := if hit then repl else [s[i]];
      SubNoPair(m, s, repl, a, b, next);
      var rest := SubFrom(m, s, repl, next);
      assert SubFrom(m, s, repl, i) == piece + rest;
      assert JoinsWithout(m, s, repl, a, b, i);
      NoPairJoin(piece, rest, a, b);
    }
  }

  /** Every class of `p` lists characters of `chars` only. */
  predicate PatternWithin(p: Pattern, chars: set<char>) {
    match p
    case Single(k) => k.OneOf? && k.chars <= chars
    case Run(k, _) => k.OneOf? && k.chars <= chars
    case Pair(x, y) => x.OneOf? && x.chars <= chars && y.OneOf? && y.chars <= chars
    case RunThen(k, t) => k.OneOf? && k.chars <= chars && t.OneOf? && t.chars <= chars
    case Alt(l, r) => PatternWithin(l, chars) && PatternWithin(r, chars)
  }

  /** A match of such a pattern covers characters of `chars` only. */
  lemma MatchWithin(p: Pattern, s: string, j: nat, chars: set<char>)
    requires j <= |s| && PatternWithin(p, chars)
    ensures forall x :: j <= x < j + MatchLen(p, s, j) ==> s[x] in chars
  {
    if p.Alt? {
      MatchWithin(p.left, s, j, chars);
      MatchWithin(p.right, s, j, chars);
    }
  }

  /** `re.sub` keeps the characters outside `drop` when every match and
      the replacement consist of characters of `drop` only. */
  lemma {:induction false} SubOmit(m: (string, nat) -> nat, s: string, repl: string, drop: set<char>, i: nat)
    requires i <= |s| && Omit(repl, drop) == ""
    requires forall j :: i <= j < |s| && MatchAt(m, s, j) ==> Omit(s[j..j + m(s, j)], drop) == ""
    ensures Omit(SubFrom(m, s, repl, i), drop) == Omit(s[i..], drop)
    decreases |s| - i
  {
    if i < |s| {
      var hit := MatchAt(m, s, i);
      var next := if hit then i + m(s, i) else i + 1;
      var piece := if hit then repl else [s[i]];
      SubOmit(m, s, repl, drop, next);
      assert SubFrom(m, s, repl, i) == piece + SubFrom(m, s, repl, next);
      OmitAppend(piece, SubFrom(m, s, repl, next), drop);
      assert s[i..] == s[i..next] + s[next..];
      OmitAppend(s[i..next], s[next..], drop);
    } else {
      assert s[i..] == "";
    }
  }

  /** Substituting a pattern and a replacement made of characters of
      `drop` leaves the other characters of the text as they were. */
  lemma SubOmitPattern(p: Pattern, s: string, repl: string, drop: set<char>)
    requires PatternWithin(p, drop) && Omit(repl, drop) == ""
    ensures Omit(Sub(p, s, repl), drop) == Omit(s, drop)
  {
    var m := Matcher(p);
    forall j | 0 <= j < |s| && MatchAt(m, s, j)
      ensures Omit(s[j..j + m(s, j)], drop) == ""
    {
      MatchWithin(p, s, j, drop);
      OmitAll(s[j..j + m(s, j)], drop);
    }
    SubOmit(m, s, repl, drop, 0);
    assert s[0..] == s;
  }
}

/** The punctuation rewriting of `CunningTokenizer`: three split heuristics
    (on semicolons and newlines, on commas, on slashes) and the passes of
    `fix_punctuation_with_data`, which cut words at those characters and
    insert a space after each cut, tagging every inserted space as synthetic.
 */
module TokenizerSplit {
  import opened Outcomes
  import opened PyStr
  import opened Regex

  /** `is_english_token`: `re.search("[а-яА-Я]", token) is None`. */
  predicate IsEnglishToken(tok: string) {
    Nowhere(Single(CyrillicRange), tok)
  }

  /** A token is English exactly when none of its characters lies in the
      ranges а-я and А-Я; ё and Ё lie outside both, so they do not count. */
  lemma EnglishTokenChars(tok: string)
    ensures IsEnglishToken(tok) <==> forall i :: 0 <= i < |tok| ==> !IsCyrillicRange(tok[i])
  {
    if IsEnglishToken(tok) {
      forall i | 0 <= i < |tok|
        ensures !IsCyrillicRange(tok[i])
      {
        assert MatchLen(Single(CyrillicRange), tok, i) == 0;
      }
    }
  }

  /** The slash splitter's pattern `[\/]`: the backslash only escapes the
      slash, so it is not itself in the class. */
  const SlashPattern := Single(OneOf({'/'}))
  const CommaPattern := Single(OneOf({','}))
  const SemiPattern := Single(OneOf({';', '\n'}))

  /** A single-character pattern splits a token into two or more pieces
      exactly when one of its characters occurs in the token. */
  lemma SplitOnChars(chars: set<char>, tok: string)
    ensures |Split(Single(OneOf(chars)), tok)| >= 2 <==> exists i :: 0 <= i < |tok| && tok[i] in chars
  {
    var p := Single(OneOf(chars));
    SplitSingle(p, tok);
    if exists i :: 0 <= i < |tok| && tok[i] in chars {
      var i :| 0 <= i < |tok| && tok[i] in chars;
      assert MatchLen(p, tok, i) == 1;
    } else {
      forall j | 0 <= j < |tok|
        ensures MatchLen(p, tok, j) == 0
      {
        assert tok[j] !in chars;
      }
    }
  }

  /** A character that occurs somewhere is counted at least once. */
  lemma {:induction false} CountPositive(s: string, c: char)
    ensures Count(s, c) > 0 ==> c in s
  {
    if Count(s, c) > 0 && s[0] != c {
      CountPositive(s[1..], c);
      var k :| 0 <= k < |s| - 1 && s[1..][k] == c;
      assert s[k + 1] == c;
    }
  }

  predicate AnyNumeric(xs: seq<string>) {
    exists i :: 0 <= i < |xs| && IsNumeric(xs[i])
  }

  /** The pieces `_maybe_split_by_slash` sets apart: `"\\"`, `"/ "`, `" "`
      and `""`. */
  predicate SlashSeparator(s: string) {
    || |s| == 0
    || (|s| == 1 && (s[0] == '\\' || s[0] == ' '))
    || (|s| == 2 && s[0] == '/' && s[1] == ' ')
  }

  predicate SlashEnglish(s: string) {
    !SlashSeparator(s) && IsEnglishToken(s)
  }

  /** `_maybe_split_by_slash`: the split on '/' when the token holds a slash,
      no piece is numeric, and the English pieces are at least half of the
      pieces that are not separators (the delimiter pieces "/" count among
      them). */
  function SplitBySlash(tok: string): (r: Option<seq<string>>)
    ensures r.Some? ==> Concat(r.value) == tok && |r.value| >= 2
    ensures '/' !in tok ==> r == None
    ensures r.Some? ==> forall i :: 0 <= i < |r.value| ==> !IsNumeric(r.value[i])
    ensures r.Some? ==> 2 * CountIf(r.value, SlashEnglish) >= |r.value| - CountIf(r.value, SlashSeparator)
    ensures r.None? && '/' in tok ==>
              var pieces := Split(SlashPattern, tok);
              AnyNumeric(pieces) || 2 * CountIf(pieces, SlashEnglish) < |pieces| - CountIf(pieces, SlashSeparator)
  {
    var pieces := Split(SlashPattern, tok);
    SplitConcat(SlashPattern, tok);
    SplitOnChars({'/'}, tok);
    if |pieces| < 2 then None
    else if AnyNumeric(pieces) then None
    else if 2 * CountIf(pieces, SlashEnglish) < |pieces| - CountIf(pieces, SlashSeparator) then None
    else Some(pieces)
  }

  /** The pieces `_maybe_split_by_comma` sets apart: a single ASCII
      whitespace character, `","` and `", "`. */
  predicate CommaSeparator(s: string) {
    || (|s| == 1 && (IsAsciiWhitespace(s[0]) || s[0] == ','))
    || (|s| == 2 && s[0] == ',' && s[1] == ' ')
  }

  predicate CommaEnglish(s: string) {
    !CommaSeparator(s) && IsEnglishToken(s)
  }

  /** The number of words over all pieces: one more than the spaces of each. */
  function Words(xs: seq<string>): (n: nat)
    ensures n >= |xs|
  {
    if |xs| == 0 then 0 else Count(xs[0], ' ') + 1 + Words(xs[1..])
  }

  /** The comma heuristic's test on the pieces of a token with at most six
      commas: English pieces at least the non-separator pieces divided by 2.5,
      or words at most 2.5 times the non-separator pieces. */
  predicate CommaListLike(pieces: seq<string>) {
    var rest := |pieces| - CountIf(pieces, CommaSeparator);
    5 * CountIf(pieces, CommaEnglish) >= 2 * rest || 2 * Words(pieces) <= 5 * rest
  }

  /** `_maybe_split_by_comma`. */
  function SplitByComma(tok: string): (r: Option<seq<string>>)
    ensures r.Some? ==> Concat(r.value) == tok && |r.value| >= 2
    ensures ',' !in tok ==> r == None
    ensures Count(tok, ',') > 6 ==> r.Some?
    ensures ',' in tok && Count(tok, ',') <= 6 ==> (r.Some? <==> CommaListLike(Split(CommaPattern, tok)))
  {
    var pieces := Split(CommaPattern, tok);
    SplitConcat(CommaPattern, tok);
    SplitOnChars({','}, tok);
    CountPositive(tok, ',');
    if |pieces| < 2 then None
    else if Count(tok, ',') > 6 then Some(pieces)
    else if CommaListLike(pieces) then Some(pieces)
    else None
  }

  /** `_maybe_split_by_semi`: always the split on ';' and '\n'. */
  function SplitBySemi(tok: string): (r: seq<string>)
    ensures Concat(r) == tok
    ensures |r| >= 2 <==> ';' in tok || '\n' in tok
  {
    SplitConcat(SemiPattern, tok);
    SplitOnChars({';', '\n'}, tok);
    Split(SemiPattern, tok)
  }

  /** The three entries of `split_funcs`. */
  datatype Splitter = Semi | Comma | Slash

  function Apply(sp: Splitter, tok: string): (r: Option<seq<string>>)
    ensures r.Some? ==> Concat(r.value) == tok
  {
    match sp
    case Semi => Some(SplitBySemi(tok))
    case Comma => SplitByComma(tok)
    case Slash => SplitBySlash(tok)
  }

  /** Membership in the token list paired with each splitter: its
      delimiters, then every character of `string.whitespace`. */
  predicate IsSplitToken(sp: Splitter, s: string) {
    && |s| == 1
    && (|| IsAsciiWhitespace(s[0])
        || (sp == Semi && (s[0] == ';' || s[0] == '\n'))
        || (sp == Comma && s[0] == ',')
        || (sp == Slash && (s[0] == '/' || s[0] == '\\')))
  }

  /** A word of the rewriting and whether it was inserted by it. */
  datatype Piece = Piece(text: string, added: bool)

  predicate IsSlashPiece(s: string) {
    |s| == 1 && (s[0] == '/' || s[0] == '\\')
  }

  predicate IsOneSpace(s: string) {
    |s| == 1 && s[0] == ' '
  }

  /** Every inserted piece is a single space. */
  predicate AddedAreSpaces(ps: seq<Piece>) {
    forall i :: 0 <= i < |ps| ==> ps[i].added ==> IsOneSpace(ps[i].text)
  }

  function Texts(ps: seq<Piece>): (r: seq<string>)
    ensures |r| == |ps| && forall i :: 0 <= i < |ps| ==> r[i] == ps[i].text
  {
    seq(|ps|, i requires 0 <= i < |ps| => ps[i].text)
  }

  /** What a piece leaves once the inserted pieces are deleted. */
  function KeptOf(p: Piece): string {
    if p.added then "" else p.text
  }

  /** The text that is left once the inserted pieces are deleted. */
  function Kept(ps: seq<Piece>): string {
    if |ps| == 0 then "" else KeptOf(ps[0]) + Kept(ps[1..])
  }

  lemma {:induction false} KeptAppend(a: seq<Piece>, b: seq<Piece>)
    ensures Kept(a + b) == Kept(a) + Kept(b)
  {
    if |a| == 0 {
      assert a + b == b;
    } else {
      assert (a + b)[1..] == a[1..] + b;
      KeptAppend(a[1..], b);
    }
  }

  lemma KeptSingle(p: Piece)
    ensures Kept([p]) == KeptOf(p)
  {
    assert [p][1..] == [];
  }

  /** The pieces of a split with the empty ones left out. */
  function NonEmpty(xs: seq<string>): (r: seq<string>)
    ensures Concat(r) == Concat(xs)
  {
    if |xs| == 0 then []
    else if |xs[0]| == 0 then NonEmpty(xs[1..])
    else
      ConcatCons(xs[0], NonEmpty(xs[1..]));
      [xs[0]] + NonEmpty(xs[1..])
  }

  /** An inserted space. */
  const Space := Piece(" ", true)

  /** A piece with an inserted space before it, after it, both or neither. */
  function Around(p: Piece, before: bool, after: bool): (r: seq<Piece>)
    ensures Kept(r) == KeptOf(p)
    ensures !p.added ==> AddedAreSpaces(r)
  {
    var pre := if before then [Space] else [];
    var post := if after then [Space] else [];
    KeptSingle(p);
    KeptSingle(Space);
    KeptAppend(pre, [p]);
    KeptAppend(pre + [p], post);
    pre + [p] + post
  }

  /** The pieces that replace a split word, from its `i`-th piece on: a
      space before every slash or backslash, the piece itself with the word's
      flag, and a space after every piece in the splitter's token list that
      is not the last one. */
  function Spread(sp: Splitter, xs: seq<string>, added: bool, i: nat): (r: seq<Piece>)
    requires i <= |xs|
    ensures Kept(r) == if added then "" else Concat(xs[i..])
    ensures !added ==> AddedAreSpaces(r)
    decreases |xs| - i
  {
    if i == |xs| then []
    else
      var here := Around(Piece(xs[i], added), IsSlashPiece(xs[i]), IsSplitToken(sp, xs[i]) && i != |xs| - 1);
      var rest := Spread(sp, xs, added, i + 1);
      KeptAppend(here, rest);
      SpacesAppendIf(added, here, rest);
      ConcatAt(xs, i);
      here + rest
  }

  lemma SpacesAppendIf(added: bool, a: seq<Piece>, b: seq<Piece>)
    requires !added ==> AddedAreSpaces(a) && AddedAreSpaces(b)
    ensures !added ==> AddedAreSpaces(a + b)
  {
    if !added {
      SpacesAppend(a, b);
    }
  }

  /** The pieces that replace a word that is not whitespace, given what the
      splitter returned for it: the word itself when there is no split or
      the split leaves a single non-empty piece, nothing when it leaves none,
      and otherwise the non-empty pieces with the inserted spaces. */
  function Cut(sp: Splitter, w: Piece, split: Option<seq<string>>): (r: seq<Piece>)
    requires split.Some? ==> Concat(split.value) == w.text
    ensures Kept(r) == KeptOf(w)
    ensures !w.added ==> AddedAreSpaces(r)
  {
    KeptSingle(w);
    match split
    case None => [w]
    case Some(pieces) =>
      var ps := NonEmpty(pieces);
      if |ps| == 1 then [w]
      else
        assert ps[0..] == ps;
        Spread(sp, ps, w.added, 0)
  }

  /** One word in one pass: a whitespace word is copied and any other word is
      cut by the splitter. A word that splits into no non-empty piece (the
      empty word) disappears. */
  function Rewrite(sp: Splitter, w: Piece): (r: seq<Piece>)
    ensures Kept(r) == KeptOf(w)
    ensures IsSpaceStr(w.text) ==> r == [w]
    ensures (w.added ==> IsOneSpace(w.text)) ==> AddedAreSpaces(r)
  {
    KeptSingle(w);
    OneSpaceIsSpace(w.text);
    if IsSpaceStr(w.text) then [w]
    else Cut(sp, w, Apply(sp, w.text))
  }

  lemma OneSpaceIsSpace(s: string)
    ensures IsOneSpace(s) ==> IsSpaceStr(s)
  {
  }

  lemma SpacesAppend(a: seq<Piece>, b: seq<Piece>)
    requires AddedAreSpaces(a) && AddedAreSpaces(b)
    ensures AddedAreSpaces(a + b)
  {
    forall i | 0 <= i < |a + b|
      ensures (a + b)[i].added ==> IsOneSpace((a + b)[i].text)
    {
      if i >= |a| {
        assert (a + b)[i] == b[i - |a|];
      }
    }
  }

  /** One word rewritten in front of the rewritten rest keeps the text and
      the inserted spaces of the words from `i` on. */
  lemma PassStep(sp: Splitter, words: seq<Piece>, i: nat, rest: seq<Piece>)
    requires i < |words|
    requires Kept(rest) == Kept(words[i + 1..])
    ensures Kept(Rewrite(sp, words[i]) + rest) == Kept(words[i..])
    ensures AddedAreSpaces(words) && AddedAreSpaces(rest) ==> AddedAreSpaces(Rewrite(sp, words[i]) + rest)
  {
    var here := Rewrite(sp, words[i]);
    KeptAppend(here, rest);
    assert words[i..][1..] == words[i + 1..];
    if AddedAreSpaces(words) && AddedAreSpaces(rest) {
      assert words[i].added ==> IsOneSpace(words[i].text);
      SpacesAppend(here, rest);
    }
  }

  /** One pass of `fix_punctuation_with_data` over the words from `i` on. */
  function PassFrom(sp: Splitter, words: seq<Piece>, i: nat): (r: seq<Piece>)
    requires i <= |words|
    ensures Kept(r) == Kept(words[i..])
    ensures AddedAreSpaces(words) ==> AddedAreSpaces(r)
    decreases |words| - i
  {
    if i == |words| then []
    else
      var rest := PassFrom(sp, words, i + 1);
      PassStep(sp, words, i, rest);
      Rewrite(sp, words[i]) + rest
  }

  function Pass(sp: Splitter, words: seq<Piece>): (r: seq<Piece>)
    ensures Kept(r) == Kept(words)
    ensures AddedAreSpaces(words) ==> AddedAreSpaces(r)
  {
    assert words[0..] == words;
    PassFrom(sp, words, 0)
  }

  /** The words of a split, none of them inserted. */
  function Fresh(words: seq<string>): (r: seq<Piece>)
    ensures Kept(r) == Concat(words)
    ensures AddedAreSpaces(r)
  {
    if |words| == 0 then []
    else
      var rest := Fresh(words[1..]);
      assert ([Piece(words[0], false)] + rest)[1..] == rest;
      [Piece(words[0], false)] + rest
  }

  /** The words of `re.split("(\s+)", text)`, none of them inserted. */
  function Initial(text: string): (r: seq<Piece>)
    ensures Kept(r) == text
    ensures AddedAreSpaces(r)
  {
    SplitConcat(Run(Whitespace, 1), text);
    Fresh(Split(Run(Whitespace, 1), text))
  }

  /** `fix_punctuation_with_data`: the semicolon, comma and slash passes in
      that order. Deleting the inserted pieces gives back the text, and each
      inserted piece is one space. */
  function FixPunctuationWithData(text: string): (r: seq<Piece>)
    ensures Kept(r) == text
    ensures AddedAreSpaces(r)
  {
    Pass(Slash, Pass(Comma, Pass(Semi, Initial(text))))
  }

  /** The number of inserted pieces. */
  function AddedCount(ps: seq<Piece>): (n: nat)
    ensures n <= |ps|
  {
    if |ps| == 0 then 0 else (if ps[0].added then 1 else 0) + AddedCount(ps[1..])
  }

  /** When every inserted piece is one space, the joined text is the kept
      text lengthened by one character per inserted piece. */
  lemma {:induction false} JoinedLength(ps: seq<Piece>)
    requires AddedAreSpaces(ps)
    ensures |Concat(Texts(ps))| == |Kept(ps)| + AddedCount(ps)
  {
    if |ps| > 0 {
      assert Texts(ps) == [ps[0].text] + Texts(ps[1..]);
      ConcatCons(ps[0].text, Texts(ps[1..]));
      assert AddedAreSpaces(ps[1..]) by {
        forall i | 0 <= i < |ps[1..]|
          ensures ps[1..][i].added ==> IsOneSpace(ps[1..][i].text)
        {
          assert ps[1..][i] == ps[i + 1];
        }
      }
      JoinedLength(ps[1..]);
      assert ps[0].added ==> IsOneSpace(ps[0].text);
    }
  }

  /** `fix_punctuation`: the pieces joined. It is the text with the inserted
      spaces added, so it is longer by exactly their number. */
  function FixPunctuation(text: string): (r: string)
    ensures |r| == |text| + AddedCount(FixPunctuationWithData(text))
  {
    var ps := FixPunctuationWithData(text);
    JoinedLength(ps);
    Concat(Texts(ps))
  }
}

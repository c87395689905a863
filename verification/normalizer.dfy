/** The text normalizer (`TextNormalizer`): the regular-expression passes
    `fix_text` and `strip_characters`, and the order in which `normalize`
    applies its enabled passes.

    HTML tag removal, stop-word removal and `str.isalnum` are parameters:
    they come from libraries outside this model.
 */
module Normalizer {
  import opened PyStr
  import opened Regex

  // ---------------------------------------------------------------------
  // `fix_text`

  /** `text.replace("\n", " ")`: the same as substituting each newline. */
  function NewlinesToSpaces(text: string): string {
    Sub(Single(OneOf({'\n'})), text, " ")
  }

  /** `re.sub(r"\.+", ".", text)`: each run of dots becomes one dot. */
  function CollapseDots(text: string): string {
    Sub(Run(OneOf({'.'}), 1), text, ".")
  }

  /** `re.sub("\t", " ", text)`. */
  function TabsToSpaces(text: string): string {
    Sub(Single(OneOf({'\t'})), text, " ")
  }

  /** `re.sub(r"( )+", " ", text)`: each run of spaces becomes one space. */
  function CollapseSpaces(text: string): string {
    Sub(Run(OneOf({' '}), 1), text, " ")
  }

  /** `re.sub(r" \.", ".", text)`: a space before a dot is dropped. */
  function GlueDots(text: string): string {
    Sub(Pair(OneOf({' '}), OneOf({'.'})), text, ".")
  }

  /** `re.sub(r"\.{1,} ", ". ", text)`: dots followed by a space become one
      dot and the space. */
  function SpaceAfterDots(text: string): string {
    Sub(RunThen(OneOf({'.'}), OneOf({' '})), text, ". ")
  }

  /** `fix_text`: the six passes in the source's order. */
  function FixText(text: string): string {
    SpaceAfterDots(GlueDots(CollapseSpaces(TabsToSpaces(CollapseDots(NewlinesToSpaces(text))))))
  }

  /** The characters `fix_text` rewrites: spaces, dots, tabs, newlines. */
  const Blanks: set<char> := {' ', '.', '\t', '\n'}

  /** The output of `fix_text` is clean: no newline, no tab, no two
      spaces in a row and no space before a dot. */
  predicate Clean(s: string) {
    Lacks(s, '\n') && Lacks(s, '\t') && NoPair(s, ' ', ' ') && NoPair(s, ' ', '.')
  }

  /** Every character a pass replaces is one that matched. */
  lemma SubRemoves(k: CharClass, s: string, repl: string, c: char)
    requires k.OneOf? && c in k.chars && Lacks(repl, c)
    ensures Lacks(Sub(Single(k), s, repl), c)
  {
    var m := Matcher(Single(k));
    forall j | 0 <= j < |s| && !MatchAt(m, s, j)
      ensures s[j] != c
    {
      assert m(s, j) == MatchLen(Single(k), s, j);
    }
    SubLacks(m, s, repl, c, 0);
  }

  /** After the newline pass no newline is left. */
  lemma NewlinesGone(text: string)
    ensures Lacks(NewlinesToSpaces(text), '\n')
  {
    SubRemoves(OneOf({'\n'}), text, " ", '\n');
  }

  /** After the tab pass no tab is left. */
  lemma TabsGone(text: string)
    ensures Lacks(TabsToSpaces(text), '\t')
  {
    SubRemoves(OneOf({'\t'}), text, " ", '\t');
  }

  /** After collapsing spaces no two spaces are adjacent. */
  lemma SpacesCollapsed(text: string)
    ensures NoPair(CollapseSpaces(text), ' ', ' ')
  {
    var p := Run(OneOf({' '}), 1);
    var m := Matcher(p);
    forall j | 0 <= j < |text|
      ensures JoinsWithout(m, text, " ", ' ', ' ', j)
    {
      assert m(text, j) == MatchLen(p, text, j);
      if MatchAt(m, text, j) {
        var e := j + m(text, j);
        if e < |text| {
          assert m(text, e) == MatchLen(p, text, e);
        }
      }
    }
    SubNoPair(m, text, " ", ' ', ' ', 0);
  }

  /** Dropping the space before each dot keeps single spacing and leaves
      no space before a dot. */
  lemma DotsGlued(text: string)
    requires NoPair(text, ' ', ' ')
    ensures NoPair(GlueDots(text), ' ', ' ') && NoPair(GlueDots(text), ' ', '.')
  {
    var p := Pair(OneOf({' '}), OneOf({'.'}));
    var m := Matcher(p);
    forall j | 0 <= j < |text|
      ensures JoinsWithout(m, text, ".", ' ', ' ', j) && JoinsWithout(m, text, ".", ' ', '.', j)
    {
      assert m(text, j) == MatchLen(p, text, j);
      if j + 1 < |text| {
        assert m(text, j + 1) == MatchLen(p, text, j + 1);
      }
    }
    SubNoPair(m, text, ".", ' ', ' ', 0);
    SubNoPair(m, text, ".", ' ', '.', 0);
  }

  /** Rewriting dots before a space keeps both properties. */
  lemma DotsSpaced(text: string)
    requires NoPair(text, ' ', ' ') && NoPair(text, ' ', '.')
    ensures NoPair(SpaceAfterDots(text), ' ', ' ') && NoPair(SpaceAfterDots(text), ' ', '.')
  {
    var p := RunThen(OneOf({'.'}), OneOf({' '}));
    var m := Matcher(p);
    forall j | 0 <= j < |text|
      ensures JoinsWithout(m, text, ". ", ' ', ' ', j) && JoinsWithout(m, text, ". ", ' ', '.', j)
    {
      assert m(text, j) == MatchLen(p, text, j);
      if MatchAt(m, text, j) {
        var e := j + m(text, j);
        assert text[e - 1] == ' ';
        if e < |text| {
          assert m(text, e) == MatchLen(p, text, e);
        }
      } else if j + 1 < |text| {
        assert m(text, j + 1) == MatchLen(p, text, j + 1);
      }
    }
    SubNoPair(m, text, ". ", ' ', ' ', 0);
    SubNoPair(m, text, ". ", ' ', '.', 0);
  }

  /** `fix_text` leaves no newline, no tab, no double space and no space
      before a dot, and changes nothing but spaces, dots, tabs and
      newlines. */
  lemma FixTextClean(text: string)
    ensures Clean(FixText(text))
    ensures Omit(FixText(text), Blanks) == Omit(text, Blanks)
  {
    var t1 := NewlinesToSpaces(text);
    var t2 := CollapseDots(t1);
    var t3 := TabsToSpaces(t2);
    var t4 := CollapseSpaces(t3);
    var t5 := GlueDots(t4);
    var t6 := SpaceAfterDots(t5);
    NewlinesGone(text);
    SubKeepsLacking(Run(OneOf({'.'}), 1), t1, ".", '\n');
    SubKeepsLacking(Single(OneOf({'\t'})), t2, " ", '\n');
    TabsGone(t2);
    SubKeepsLacking(Run(OneOf({' '}), 1), t3, " ", '\n');
    SubKeepsLacking(Run(OneOf({' '}), 1), t3, " ", '\t');
    SubKeepsLacking(Pair(OneOf({' '}), OneOf({'.'})), t4, ".", '\n');
    SubKeepsLacking(Pair(OneOf({' '}), OneOf({'.'})), t4, ".", '\t');
    SubKeepsLacking(RunThen(OneOf({'.'}), OneOf({' '})), t5, ". ", '\n');
    SubKeepsLacking(RunThen(OneOf({'.'}), OneOf({' '})), t5, ". ", '\t');
    SpacesCollapsed(t3);
    DotsGlued(t4);
    DotsSpaced(t5);
    SubOmitPattern(Single(OneOf({'\n'})), text, " ", Blanks);
    SubOmitPattern(Run(OneOf({'.'}), 1), t1, ".", Blanks);
    SubOmitPattern(Single(OneOf({'\t'})), t2, " ", Blanks);
    SubOmitPattern(Run(OneOf({' '}), 1), t3, " ", Blanks);
    SubOmitPattern(Pair(OneOf({' '}), OneOf({'.'})), t4, ".", Blanks);
    SubOmitPattern(RunThen(OneOf({'.'}), OneOf({' '})), t5, ". ", Blanks);
  }

  // ---------------------------------------------------------------------
  // `strip_characters`

  /** The characters `strip_characters` keeps besides alphanumerics. */
  const Marks: set<char> := {'\n', ' ', '-', ',', '(', ')', '/', '\\', '!', '?', ';', '.'}

  /** Whether the filter loop keeps `c`. */
  predicate Allowed(c: char, isAlnum: char -> bool) {
    isAlnum(c) || c in Marks
  }

  /** The class `[;\.–·]` of the last pattern. */
  const FinalMarks: set<char> := {';', '.', '–', '·'}

  /** `[;\.–·]$` matches at `p`: Python's `$` matches at the very end and
      also just before a newline that ends the text. */
  predicate EndsAt(d: string, p: nat) {
    p < |d| && d[p] in FinalMarks && (p == |d| - 1 || (p == |d| - 2 && d[|d| - 1] == '\n'))
  }

  /** `re.sub(r"[;\.–·]$", "", d)`. */
  function DropFinalMark(d: string): string {
    if |d| > 0 && d[|d| - 1] in FinalMarks then d[..|d| - 1]
    else if |d| > 1 && d[|d| - 1] == '\n' && d[|d| - 2] in FinalMarks then d[..|d| - 2] + ['\n']
    else d
  }

  /** The pattern matches at most once, and the substitution removes
      exactly the matched character, or nothing when there is no match. */
  lemma DropFinalMarkSpec(d: string, p: nat, q: nat)
    ensures EndsAt(d, p) && EndsAt(d, q) ==> p == q
    ensures EndsAt(d, p) ==> DropFinalMark(d) == d[..p] + d[p + 1..]
    ensures (forall x :: !EndsAt(d, x)) ==> DropFinalMark(d) == d
  {
    if |d| > 0 && d[|d| - 1] in FinalMarks {
      assert EndsAt(d, |d| - 1);
    } else if |d| > 1 && d[|d| - 1] == '\n' && d[|d| - 2] in FinalMarks {
      assert EndsAt(d, |d| - 2);
    }
  }

  /** The regular-expression passes of `strip_characters`, in order. */
  function CleanItem(item: string): string {
    var a := Sub(RunThen(Digit, OneOf({'.'})), item, "");
    var b := Sub(Pair(CyrillicRange, OneOf({')'})), a, "");
    var c := Sub(Pair(OneOf({'-'}), OneOf({' '})), b, " ");
    var d := if |c| > 0 && c[0] == '-' then c[1..] else c;
    DropFinalMark(d)
  }

  /** The filter loop of `strip_characters` over `item`: allowed characters
      are copied, and a newline is preceded by a dot unless the output is
      empty or already ends with one. (The early return for an empty item
      gives the same "" the loop would.) */
  function Filter(item: string, isAlnum: char -> bool): string
    decreases |item|
  {
    if |item| == 0 then ""
    else
      var out := Filter(item[..|item| - 1], isAlnum);
      var c := item[|item| - 1];
      if !Allowed(c, isAlnum) then out
      else if c == '\n' && |out| > 0 && out[|out| - 1] != '.' then out + ['.', c]
      else out + [c]
  }

  /** The allowed characters of `item`, in order: what the loop keeps before
      any dot is added. */
  function Kept(item: string, isAlnum: char -> bool): string
    decreases |item|
  {
    if |item| == 0 then ""
    else Kept(item[..|item| - 1], isAlnum) + (if Allowed(item[|item| - 1], isAlnum) then [item[|item| - 1]] else "")
  }

  /** `strip_characters`. */
  function StripCharacters(item: string, isAlnum: char -> bool): string {
    Filter(CleanItem(item), isAlnum)
  }

  /** Every character of `s` is alphanumeric or one of the listed marks. */
  predicate AllAllowed(s: string, isAlnum: char -> bool) {
    forall p :: 0 <= p < |s| ==> Allowed(s[p], isAlnum)
  }

  /** Every newline of `s` after the first position follows a dot. */
  predicate DotBeforeNewlines(s: string) {
    forall p :: 0 < p < |s| && s[p] == '\n' ==> s[p - 1] == '.'
  }

  /** The filter's output consists of allowed characters, with a dot before
      every newline after the first position. */
  lemma {:induction false} FilterShape(item: string, isAlnum: char -> bool)
    ensures AllAllowed(Filter(item, isAlnum), isAlnum)
    ensures DotBeforeNewlines(Filter(item, isAlnum))
    decreases |item|
  {
    if |item| > 0 {
      FilterShape(item[..|item| - 1], isAlnum);
    }
  }

  /** The output is empty exactly when no character of the item is
      allowed. */
  lemma {:induction false} FilterEmpty(item: string, isAlnum: char -> bool)
    ensures |Filter(item, isAlnum)| == 0 <==> |Kept(item, isAlnum)| == 0
    decreases |item|
  {
    if |item| > 0 {
      FilterEmpty(item[..|item| - 1], isAlnum);
    }
  }

  /** Apart from the dots, the output is the allowed characters of the
      item, in order: the only characters the loop adds are dots. */
  lemma {:induction false} FilterKeeps(item: string, isAlnum: char -> bool)
    ensures Omit(Filter(item, isAlnum), {'.'}) == Omit(Kept(item, isAlnum), {'.'})
    decreases |item|
  {
    if |item| > 0 {
      var init := item[..|item| - 1];
      var c := item[|item| - 1];
      FilterKeeps(init, isAlnum);
      var out := Filter(init, isAlnum);
      var kept := Kept(init, isAlnum);
      if Allowed(c, isAlnum) {
        if c == '\n' && |out| > 0 && out[|out| - 1] != '.' {
          assert out + ['.', c] == out + ['.'] + [c];
          OmitAppend(out + ['.'], [c], {'.'});
          OmitAppend(out, ['.'], {'.'});
        } else {
          OmitAppend(out, [c], {'.'});
        }
        OmitAppend(kept, [c], {'.'});
      } else {
        assert Filter(item, isAlnum) == out;
        assert Kept(item, isAlnum) == kept + "";
        assert kept + "" == kept;
      }
    }
  }

  /** `strip_characters` keeps only allowed characters, puts a dot before
      every newline after the first position, returns "" exactly when the
      cleaned item has no allowed character, and apart from dots returns
      the allowed characters of the cleaned item. */
  lemma StripCharactersSpec(item: string, isAlnum: char -> bool)
    ensures AllAllowed(StripCharacters(item, isAlnum), isAlnum)
    ensures DotBeforeNewlines(StripCharacters(item, isAlnum))
    ensures StripCharacters(item, isAlnum) == "" <==> Kept(CleanItem(item), isAlnum) == ""
    ensures Omit(StripCharacters(item, isAlnum), {'.'}) == Omit(Kept(CleanItem(item), isAlnum), {'.'})
  {
    FilterShape(CleanItem(item), isAlnum);
    FilterEmpty(CleanItem(item), isAlnum);
    FilterKeeps(CleanItem(item), isAlnum);
  }

  // ---------------------------------------------------------------------
  // `normalize`

  /** The constructor flags of `TextNormalizer`. */
  datatype Options = Options(lower: bool, stripCharacters: bool, stopwords: bool, removeTags: bool, fixText: bool)

  /** The defaults: lower-casing and `fix_text` on, the rest off. */
  const Defaults := Options(true, false, false, false, true)

  /** `normalize`: strip, then each enabled pass in the fixed order
      tag removal, lower-casing, `strip_characters`, `fix_text`, stop-word
      removal. */
  function Normalize(s: string, o: Options, isAlnum: char -> bool,
                     removeTags: string -> string, dropStopwords: string -> string): string
  {
    var a := Strip(s);
    var b := if o.removeTags then removeTags(a) else a;
    var c := if o.lower then Lower(b) else b;
    var d := if o.stripCharacters then StripCharacters(c, isAlnum) else c;
    var e := if o.fixText then FixText(d) else d;
    if o.stopwords then dropStopwords(e) else e
  }

  /** With `fix_text` on and stop words kept, the result is clean whatever
      the earlier passes did: `fix_text` runs after `strip_characters`,
      which itself emits newlines. */
  lemma NormalizeClean(s: string, o: Options, isAlnum: char -> bool,
                       removeTags: string -> string, dropStopwords: string -> string)
    requires o.fixText && !o.stopwords
    ensures Clean(Normalize(s, o, isAlnum, removeTags, dropStopwords))
  {
    var a := Strip(s);
    var b := if o.removeTags then removeTags(a) else a;
    var c := if o.lower then Lower(b) else b;
    var d := if o.stripCharacters then StripCharacters(c, isAlnum) else c;
    FixTextClean(d);
  }

  /** With the default flags, normalizing lower-cases the stripped text
      and changes nothing but its spaces, dots, tabs and newlines. */
  lemma NormalizeDefaults(s: string, isAlnum: char -> bool,
                          removeTags: string -> string, dropStopwords: string -> string)
    ensures var r := Normalize(s, Defaults, isAlnum, removeTags, dropStopwords);
      Clean(r) && Omit(r, Blanks) == Omit(Lower(Strip(s)), Blanks)
  {
    FixTextClean(Lower(Strip(s)));
  }

  /** With `strip_characters` the last pass, every character of the
      result is allowed and every newline after the first position follows
      a dot. */
  lemma NormalizeStripped(s: string, o: Options, isAlnum: char -> bool,
                          removeTags: string -> string, dropStopwords: string -> string)
    requires o.stripCharacters && !o.fixText && !o.stopwords
    ensures AllAllowed(Normalize(s, o, isAlnum, removeTags, dropStopwords), isAlnum)
    ensures DotBeforeNewlines(Normalize(s, o, isAlnum, removeTags, dropStopwords))
  {
    var a := Strip(s);
    var b := if o.removeTags then removeTags(a) else a;
    var c := if o.lower then Lower(b) else b;
    StripCharactersSpec(c, isAlnum);
  }
}

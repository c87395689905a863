/** Decoding per-token predictions into entity spans (`st_preds_to_jsonl_datum`)
    and the display view of a datum as alternating plain and marked pieces
    (`jsonl_datum_to_annotated_text`). */
module Jsonl {
  import opened Outcomes
  import opened PyStr

  /** A decoded entity. Its class is `None` when the tags are read without
      BIO prefixes, because the class variable is then never assigned. */
  datatype Tagged = Tagged(start: int, end: int, cls: Option<string>)

  /** A datum as the decoder returns it. */
  datatype Decoded = Decoded(text: string, entities: seq<Tagged>)

  /** One tokenized sentence: its tokens and their character offsets. The
      middle element of the source's triple is never read. */
  datatype Sentence = Sentence(tokens: seq<string>, offsets: seq<int>)

  /** The prediction for one token: the items of a dictionary in insertion
      order. The value under the first key is the tag. */
  type Prediction = seq<(string, string)>

  /** A token, its prediction and its offset, as `zip` groups them. */
  datatype Token = Token(text: string, pred: Prediction, offset: int)

  function TokenEnd(t: Token): int {
    t.offset + |t.text|
  }

  function Min(a: nat, b: nat): nat {
    if a <= b then a else b
  }

  /** `zip(tokens, pred_sentence, offsets)`, which stops at the shortest. */
  function Zip3(s: Sentence, preds: seq<Prediction>): (r: seq<Token>)
    ensures |r| == Min(Min(|s.tokens|, |preds|), |s.offsets|)
    ensures forall i :: 0 <= i < |r| ==> r[i] == Token(s.tokens[i], preds[i], s.offsets[i])
  {
    var n := Min(Min(|s.tokens|, |preds|), |s.offsets|);
    seq(n, i requires 0 <= i < n => Token(s.tokens[i], preds[i], s.offsets[i]))
  }

  /** `prediction[list(prediction.keys())[0]]`: an empty dictionary has no
      first key. */
  function TagOf(p: Prediction): (r: Result<string>)
    ensures r.Err? <==> |p| == 0
    ensures r.Err? ==> r.error == IndexError
    ensures r.Ok? ==> r.value == p[0].1
  {
    if |p| == 0 then Err(IndexError) else Ok(p[0].1)
  }

  /** `s` is the one-character string `c`. */
  predicate IsChar(s: string, c: char) {
    |s| == 1 && s[0] == c
  }

  predicate NoDash(s: string) {
    Lacks(s, '-')
  }

  /** `pos, tag = value.split("-")`: the unpacking into two names fails
      unless the value holds exactly one '-'. */
  function SplitTag(v: string): (r: Result<(string, string)>)
    ensures r.Err? ==> r.error == ValueError
  {
    var k := IndexFrom(v, '-', 0);
    if k == |v| || IndexFrom(v, '-', k + 1) < |v| then Err(ValueError)
    else Ok((v[..k], v[k + 1..]))
  }

  /** A successful split yields two dash-free parts joined by the dash. */
  lemma SplitTagParts(v: string)
    requires SplitTag(v).Ok?
    ensures v == SplitTag(v).value.0 + ['-'] + SplitTag(v).value.1
    ensures NoDash(SplitTag(v).value.0) && NoDash(SplitTag(v).value.1)
  {
    var k := IndexFrom(v, '-', 0);
    assert v == v[..k] + [v[k]] + v[k + 1..];
  }

  /** Two dash-free parts joined by a dash split back into themselves. */
  lemma SplitTagJoin(a: string, b: string)
    requires NoDash(a) && NoDash(b)
    ensures SplitTag(a + ['-'] + b) == Ok((a, b))
  {
    var v := a + ['-'] + b;
    assert forall m :: 0 <= m < |a| ==> v[m] == a[m];
    assert v[|a|] == '-';
    assert IndexFrom(v, '-', 0) == |a|;
    assert forall m :: |a| + 1 <= m < |v| ==> v[m] == b[m - |a| - 1];
    assert IndexFrom(v, '-', |a| + 1) == |v|;
    assert v[..|a|] == a && v[|a| + 1..] == b;
  }

  /** A value with no dash, or with two or more, is rejected. */
  lemma SplitTagRejects(v: string)
    requires NoDash(v) || exists i, j :: 0 <= i < j < |v| && v[i] == '-' && v[j] == '-'
    ensures SplitTag(v) == Err(ValueError)
  {
    var k := IndexFrom(v, '-', 0);
    if k < |v| && !NoDash(v) {
      var i, j :| 0 <= i < j < |v| && v[i] == '-' && v[j] == '-';
      assert k <= i;
      assert IndexFrom(v, '-', k + 1) <= j;
    }
  }

  /** The tag `p-x`: position letter `p` (`B` or `I`) and class `x`. */
  function Bio(p: char, x: string): string {
    [p] + ['-'] + x
  }

  /** The token's prediction has tag `v`. */
  predicate HasTag(t: Token, v: string) {
    |t.pred| > 0 && t.pred[0].1 == v
  }

  /** The token's prediction is `O`. */
  predicate IsOutside(t: Token) {
    |t.pred| > 0 && IsChar(t.pred[0].1, 'O')
  }

  /** The entity being built (`start, end, value` with `value` not `None`). */
  datatype Open = Open(start: int, end: int, cls: string)

  /** What closing the current state emits. */
  function Close(st: Option<Open>): seq<Tagged> {
    if st.Some? then [Tagged(st.value.start, st.value.end, Some(st.value.cls))] else []
  }

  /** One iteration of the BIO loop: the next state and what it emits. */
  function Step(st: Option<Open>, t: Token): Result<(Option<Open>, seq<Tagged>)> {
    var v :- TagOf(t.pred);
    if IsChar(v, 'O') then Ok((None, Close(st)))
    else
      var parts :- SplitTag(v);
      var pos := parts.0;
      var tag := parts.1;
      if IsChar(pos, 'B') || (IsChar(pos, 'I') && (st.None? || st.value.cls != tag)) then
        Ok((Some(Open(t.offset, TokenEnd(t), tag)), Close(st)))
      else if IsChar(pos, 'I') then
        Ok((Some(st.value.(end := TokenEnd(t))), []))
      else
        Ok((st, []))
  }

  /** The BIO loop over one sentence from token `i`, ending with the flush
      of a still-open entity. */
  function Run(st: Option<Open>, ts: seq<Token>, i: nat): Result<seq<Tagged>>
    requires i <= |ts|
    decreases |ts| - i
  {
    if i == |ts| then Ok(Close(st))
    else
      var stepped :- Step(st, ts[i]);
      var rest :- Run(stepped.0, ts, i + 1);
      Ok(stepped.1 + rest)
  }

  /** The loop without BIO prefixes, from token `i`. */
  function Flat(ts: seq<Token>, i: nat): Result<seq<Tagged>>
    requires i <= |ts|
    decreases |ts| - i
  {
    if i == |ts| then Ok([])
    else
      var v :- TagOf(ts[i].pred);
      var rest :- Flat(ts, i + 1);
      Ok((if IsChar(v, 'O') then [] else [Tagged(ts[i].offset, TokenEnd(ts[i]), None)]) + rest)
  }

  /** The entities of one sentence; every sentence starts with nothing open. */
  function DecodeSentence(s: Sentence, preds: seq<Prediction>, withBio: bool): Result<seq<Tagged>> {
    var ts := Zip3(s, preds);
    if withBio then Run(None, ts, 0) else Flat(ts, 0)
  }

  function JoinAll(xss: seq<seq<Tagged>>): seq<Tagged> {
    if |xss| == 0 then [] else xss[0] + JoinAll(xss[1..])
  }

  /** `zip(tokenized_sent_data, preds)`. */
  function Pairs(sents: seq<Sentence>, preds: seq<seq<Prediction>>): (r: seq<(Sentence, seq<Prediction>)>)
    ensures |r| == Min(|sents|, |preds|)
    ensures forall k :: 0 <= k < |r| ==> r[k] == (sents[k], preds[k])
  {
    var n := Min(|sents|, |preds|);
    seq(n, k requires 0 <= k < n => (sents[k], preds[k]))
  }

  /** `st_preds_to_jsonl_datum`. */
  function Decode(text: string, sents: seq<Sentence>, preds: seq<seq<Prediction>>, withBio: bool): (r: Result<Decoded>)
    ensures r.Ok? ==> r.value.text == text
  {
    var per :- Each((p: (Sentence, seq<Prediction>)) => DecodeSentence(p.0, p.1, withBio), Pairs(sents, preds));
    Ok(Decoded(text, JoinAll(per)))
  }

  // ---------------------------------------------------------------------
  // The tag transitions

  /** A `B-X` tag closes whatever is open and opens `X` on the token. */
  lemma {:induction false} BeginOpens(st: Option<Open>, t: Token, x: string)
    requires NoDash(x) && HasTag(t, Bio('B', x))
    ensures Step(st, t) == Ok((Some(Open(t.offset, TokenEnd(t), x)), Close(st)))
  {
    SplitTagJoin(['B'], x);
  }

  /** An `I-X` tag extends an open `X` to the end of the token. */
  lemma {:induction false} InsideExtends(o: Open, t: Token)
    requires NoDash(o.cls) && HasTag(t, Bio('I', o.cls))
    ensures Step(Some(o), t) == Ok((Some(Open(o.start, TokenEnd(t), o.cls)), []))
  {
    SplitTagJoin(['I'], o.cls);
  }

  /** An `I-X` tag with nothing open, or with another class open, behaves
      like `B-X`. */
  lemma {:induction false} InsideOpens(st: Option<Open>, t: Token, x: string)
    requires NoDash(x) && HasTag(t, Bio('I', x))
    requires st.None? || st.value.cls != x
    ensures Step(st, t) == Ok((Some(Open(t.offset, TokenEnd(t), x)), Close(st)))
  {
    SplitTagJoin(['I'], x);
  }

  /** An `O` tag emits whatever is open and closes it. */
  lemma {:induction false} OutsideCloses(st: Option<Open>, t: Token)
    requires IsOutside(t)
    ensures Step(st, t) == Ok((None, Close(st)))
  {
  }

  // ---------------------------------------------------------------------
  // Sentences are decoded independently

  lemma {:induction false} JoinAllAt(xss: seq<seq<Tagged>>, k: nat)
    requires k < |xss|
    ensures |JoinAll(xss[..k])| + |xss[k]| <= |JoinAll(xss)|
    ensures JoinAll(xss)[|JoinAll(xss[..k])|..|JoinAll(xss[..k])| + |xss[k]|] == xss[k]
  {
    if k == 0 {
      assert xss[..0] == [];
    } else {
      JoinAllAt(xss[1..], k - 1);
      assert xss[1..][..k - 1] == xss[..k][1..];
      assert xss[1..][k - 1] == xss[k];
    }
  }

  /** Decoding succeeds exactly when every sentence does, and then its
      entities are each sentence's own, one sentence after another: no
      state carries from one sentence into the next. */
  lemma DecodeBySentence(text: string, sents: seq<Sentence>, preds: seq<seq<Prediction>>, withBio: bool)
    ensures Decode(text, sents, preds, withBio).Ok?
      <==> forall k :: 0 <= k < Min(|sents|, |preds|) ==> DecodeSentence(sents[k], preds[k], withBio).Ok?
    ensures Decode(text, sents, preds, withBio).Ok? ==>
      exists per: seq<seq<Tagged>> ::
        && |per| == Min(|sents|, |preds|)
        && (forall k :: 0 <= k < |per| ==> DecodeSentence(sents[k], preds[k], withBio) == Ok(per[k]))
        && Decode(text, sents, preds, withBio).value == Decoded(text, JoinAll(per))
  {
    var f := (p: (Sentence, seq<Prediction>)) => DecodeSentence(p.0, p.1, withBio);
    var ps := Pairs(sents, preds);
    EachSpec(f, ps);
    if Decode(text, sents, preds, withBio).Ok? {
      var per := Each(f, ps).value;
      assert forall k :: 0 <= k < |per| ==> DecodeSentence(sents[k], preds[k], withBio) == Ok(per[k]);
    }
  }

  // ---------------------------------------------------------------------
  // Decoded entities are ordered spans inside the tokens' extent

  /** The entities lie in `[lo, hi]` in order, each ending before the next
      one starts. */
  predicate Chain(es: seq<Tagged>, lo: int, hi: int)
    decreases |es|
  {
    if |es| == 0 then lo <= hi
    else lo <= es[0].start <= es[0].end && Chain(es[1..], es[0].end, hi)
  }

  lemma {:induction false} ChainAppend(a: seq<Tagged>, b: seq<Tagged>, lo: int, mid: int, hi: int)
    requires Chain(a, lo, mid) && Chain(b, mid, hi)
    ensures Chain(a + b, lo, hi)
    decreases |a|
  {
    if |a| == 0 {
      assert a + b == b;
      ChainLower(b, lo, mid, hi);
    } else {
      assert (a + b)[1..] == a[1..] + b;
      ChainAppend(a[1..], b, a[0].end, mid, hi);
    }
  }

  /** A chain's lower bound is at most its upper bound. */
  lemma {:induction false} ChainBounded(es: seq<Tagged>, lo: int, hi: int)
    requires Chain(es, lo, hi)
    ensures lo <= hi
    decreases |es|
  {
    if |es| > 0 {
      ChainBounded(es[1..], es[0].end, hi);
    }
  }

  /** Lowering the lower bound keeps a chain. */
  lemma ChainLower(es: seq<Tagged>, lo: int, lo': int, hi: int)
    requires lo <= lo' && Chain(es, lo', hi)
    ensures Chain(es, lo, hi)
  {
  }

  /** A chain, read pointwise: every entity inside the bounds, and each
      ending before the next starts. */
  lemma {:induction false} ChainPointwise(es: seq<Tagged>, lo: int, hi: int)
    requires Chain(es, lo, hi)
    ensures forall m :: 0 <= m < |es| ==> lo <= es[m].start <= es[m].end <= hi
    ensures forall m :: 0 <= m < |es| - 1 ==> es[m].end <= es[m + 1].start
    decreases |es|
  {
    if |es| > 0 {
      ChainPointwise(es[1..], es[0].end, hi);
      assert forall m :: 1 <= m < |es| ==> es[m] == es[1..][m - 1];
    }
  }

  /** Tokens in order: each ends before the next starts. */
  predicate Ordered(ts: seq<Token>) {
    forall i :: 0 <= i < |ts| - 1 ==> TokenEnd(ts[i]) <= ts[i + 1].offset
  }

  /** The offset of the next token, or `hi` after the last. */
  function Next(ts: seq<Token>, i: nat, hi: int): int
    requires i <= |ts|
  {
    if i < |ts| then ts[i].offset else hi
  }

  /** The state lies in `[lo, nx]`; with nothing open, `lo <= nx`. */
  predicate InBounds(st: Option<Open>, lo: int, nx: int) {
    if st.Some? then lo <= st.value.start <= st.value.end <= nx else lo <= nx
  }

  /** One step keeps the state inside the bounds and emits a chain below the
      new lower bound. */
  lemma {:induction false} StepChain(st: Option<Open>, t: Token, lo: int, nx: int, st': Option<Open>, em: seq<Tagged>) returns (lo': int)
    requires Step(st, t) == Ok((st', em))
    requires InBounds(st, lo, t.offset) && TokenEnd(t) <= nx
    ensures lo <= lo' && Chain(em, lo, lo') && InBounds(st', lo', nx)
  {
    var v := TagOf(t.pred).value;
    if IsChar(v, 'O') {
      lo' := t.offset;
    } else {
      var parts := SplitTag(v).value;
      if IsChar(parts.0, 'B') || (IsChar(parts.0, 'I') && (st.None? || st.value.cls != parts.1)) {
        lo' := t.offset;
      } else {
        lo' := lo;
      }
    }
  }

  /** Over ordered tokens inside `[lo, hi]`, the BIO loop emits an ordered
      chain of spans inside `[lo, hi]`. */
  lemma {:induction false} RunChain(st: Option<Open>, ts: seq<Token>, i: nat, lo: int, hi: int, es: seq<Tagged>)
    requires i <= |ts| && Run(st, ts, i) == Ok(es)
    requires Ordered(ts) && (forall m :: i <= m < |ts| ==> TokenEnd(ts[m]) <= hi)
    requires InBounds(st, lo, Next(ts, i, hi))
    ensures Chain(es, lo, hi)
    decreases |ts| - i
  {
    if i < |ts| {
      var stepped := Step(st, ts[i]).value;
      var rest := Run(stepped.0, ts, i + 1).value;
      assert es == stepped.1 + rest;
      var lo' := StepChain(st, ts[i], lo, Next(ts, i + 1, hi), stepped.0, stepped.1);
      RunChain(stepped.0, ts, i + 1, lo', hi, rest);
      ChainAppend(stepped.1, rest, lo, lo', hi);
    }
  }

  /** The same for the loop without BIO prefixes. */
  lemma {:induction false} FlatChain(ts: seq<Token>, i: nat, lo: int, hi: int, es: seq<Tagged>)
    requires i <= |ts| && Flat(ts, i) == Ok(es)
    requires Ordered(ts) && (forall m :: i <= m < |ts| ==> TokenEnd(ts[m]) <= hi)
    requires lo <= Next(ts, i, hi) && (i < |ts| ==> ts[i].offset <= TokenEnd(ts[i]))
    ensures Chain(es, lo, hi)
    decreases |ts| - i
  {
    if i < |ts| {
      var v := TagOf(ts[i].pred).value;
      var rest := Flat(ts, i + 1).value;
      var head: seq<Tagged> := if IsChar(v, 'O') then [] else [Tagged(ts[i].offset, TokenEnd(ts[i]), None)];
      assert es == head + rest;
      FlatChain(ts, i + 1, TokenEnd(ts[i]), hi, rest);
      ChainAppend(head, rest, lo, TokenEnd(ts[i]), hi);
    }
  }

  /** Every span the loop without BIO prefixes emits is a token with a tag
      other than `O`, with no class; and every such token is emitted. */
  lemma {:induction false} FlatSpans(ts: seq<Token>, i: nat, es: seq<Tagged>)
    requires i <= |ts| && Flat(ts, i) == Ok(es)
    ensures forall m :: i <= m < |ts| ==> |ts[m].pred| > 0
    ensures forall e :: e in es ==>
      e.cls.None? && exists m :: i <= m < |ts| && e == Tagged(ts[m].offset, TokenEnd(ts[m]), None) && !IsChar(ts[m].pred[0].1, 'O')
    ensures forall m :: i <= m < |ts| && !IsChar(ts[m].pred[0].1, 'O') ==> Tagged(ts[m].offset, TokenEnd(ts[m]), None) in es
    decreases |ts| - i
  {
    if i < |ts| {
      var rest := Flat(ts, i + 1).value;
      FlatSpans(ts, i + 1, rest);
      var head: seq<Tagged> := if IsChar(ts[i].pred[0].1, 'O') then [] else [Tagged(ts[i].offset, TokenEnd(ts[i]), None)];
      assert es == head + rest;
      forall e | e in head
        ensures e.cls.None? && exists m :: i <= m < |ts| && e == Tagged(ts[m].offset, TokenEnd(ts[m]), None) && !IsChar(ts[m].pred[0].1, 'O')
      {
        assert e == Tagged(ts[i].offset, TokenEnd(ts[i]), None);
      }
    }
  }

  /** The loop without BIO prefixes fails exactly when some prediction is
      empty. */
  lemma {:induction false} FlatFails(ts: seq<Token>, i: nat)
    requires i <= |ts|
    ensures Flat(ts, i).Err? <==> exists m :: i <= m < |ts| && |ts[m].pred| == 0
    ensures Flat(ts, i).Err? ==> Flat(ts, i).error == IndexError
    decreases |ts| - i
  {
    if i < |ts| {
      FlatFails(ts, i + 1);
    }
  }

  // ---------------------------------------------------------------------
  // Decoding inverts the BIO encoding

  /** A run of tokens `first..last` (inclusive) labelled with class `cls`. */
  datatype Span = Span(first: nat, last: nat, cls: string)

  /** Runs inside `n` tokens, in order and disjoint, with dash-free classes. */
  predicate WellFormed(runs: seq<Span>, n: nat) {
    && (forall k :: 0 <= k < |runs| ==> runs[k].first <= runs[k].last < n && NoDash(runs[k].cls))
    && (forall k :: 0 <= k < |runs| - 1 ==> runs[k].last < runs[k + 1].first)
  }

  /** Token `i` lies in no run. */
  predicate Outside(runs: seq<Span>, i: nat) {
    forall k :: 0 <= k < |runs| ==> !(runs[k].first <= i <= runs[k].last)
  }

  /** Token `i`'s tag spells its place in the runs: `B-X` on the first token
      of a run of class `X`, `I-X` on the rest of it, `O` outside every run. */
  predicate TokenEncodes(ts: seq<Token>, runs: seq<Span>, i: nat)
    requires i < |ts|
  {
    && (forall k :: 0 <= k < |runs| && runs[k].first == i ==> HasTag(ts[i], Bio('B', runs[k].cls)))
    && (forall k :: 0 <= k < |runs| && runs[k].first < i <= runs[k].last ==> HasTag(ts[i], Bio('I', runs[k].cls)))
    && (Outside(runs, i) ==> IsOutside(ts[i]))
  }

  /** The tags spell the runs in BIO. */
  predicate Encodes(ts: seq<Token>, runs: seq<Span>) {
    forall i :: 0 <= i < |ts| ==> TokenEncodes(ts, runs, i)
  }

  /** The entities the runs from `k` on stand for. */
  function Spans(ts: seq<Token>, runs: seq<Span>, k: nat): seq<Tagged>
    requires k <= |runs| && forall m :: 0 <= m < |runs| ==> runs[m].first <= runs[m].last < |ts|
    decreases |runs| - k
  {
    if k == |runs| then []
    else [Tagged(ts[runs[k].first].offset, TokenEnd(ts[runs[k].last]), Some(runs[k].cls))] + Spans(ts, runs, k + 1)
  }

  /** Outside every run, before run `k` and after the runs before it. */
  predicate Gap(runs: seq<Span>, k: nat, i: nat)
    requires k <= |runs|
  {
    && (k > 0 ==> runs[k - 1].last < i)
    && (k < |runs| ==> i <= runs[k].first)
  }

  /** One step of the loop followed by the rest of it. */
  lemma {:induction false} RunStep(st: Option<Open>, ts: seq<Token>, i: nat, st': Option<Open>, em: seq<Tagged>, rest: seq<Tagged>)
    requires i < |ts| && Step(st, ts[i]) == Ok((st', em)) && Run(st', ts, i + 1) == Ok(rest)
    ensures Run(st, ts, i) == Ok(em + rest)
  {
  }

  /** An `I-X` token continuing the open `X`. */
  lemma {:induction false} RunExtend(o: Open, ts: seq<Token>, i: nat, rest: seq<Tagged>)
    requires i < |ts| && NoDash(o.cls) && HasTag(ts[i], Bio('I', o.cls))
    requires Run(Some(Open(o.start, TokenEnd(ts[i]), o.cls)), ts, i + 1) == Ok(rest)
    ensures Run(Some(o), ts, i) == Ok(rest)
  {
    InsideExtends(o, ts[i]);
    RunStep(Some(o), ts, i, Some(Open(o.start, TokenEnd(ts[i]), o.cls)), [], rest);
    assert [] + rest == rest;
  }

  /** A `B-X` token closing what is open. */
  lemma {:induction false} RunBegin(st: Option<Open>, ts: seq<Token>, i: nat, x: string, rest: seq<Tagged>)
    requires i < |ts| && NoDash(x) && HasTag(ts[i], Bio('B', x))
    requires Run(Some(Open(ts[i].offset, TokenEnd(ts[i]), x)), ts, i + 1) == Ok(rest)
    ensures Run(st, ts, i) == Ok(Close(st) + rest)
  {
    BeginOpens(st, ts[i], x);
    RunStep(st, ts, i, Some(Open(ts[i].offset, TokenEnd(ts[i]), x)), Close(st), rest);
  }

  /** An `O` token closing what is open. */
  lemma {:induction false} RunOutside(st: Option<Open>, ts: seq<Token>, i: nat, rest: seq<Tagged>)
    requires i < |ts| && IsOutside(ts[i])
    requires Run(None, ts, i + 1) == Ok(rest)
    ensures Run(st, ts, i) == Ok(Close(st) + rest)
  {
    OutsideCloses(st, ts[i]);
    RunStep(st, ts, i, None, Close(st), rest);
  }

  /** What the encoding puts on token `i`. */
  lemma TagBegin(ts: seq<Token>, runs: seq<Span>, k: nat)
    requires Encodes(ts, runs) && k < |runs| && runs[k].first < |ts|
    ensures HasTag(ts[runs[k].first], Bio('B', runs[k].cls))
  {
    assert TokenEncodes(ts, runs, runs[k].first);
  }

  lemma TagInside(ts: seq<Token>, runs: seq<Span>, k: nat, i: nat)
    requires Encodes(ts, runs) && k < |runs| && runs[k].first < i <= runs[k].last && i < |ts|
    ensures HasTag(ts[i], Bio('I', runs[k].cls))
  {
    assert TokenEncodes(ts, runs, i);
  }

  lemma TagOutside(ts: seq<Token>, runs: seq<Span>, i: nat)
    requires Encodes(ts, runs) && i < |ts| && Outside(runs, i)
    ensures IsOutside(ts[i])
  {
    assert TokenEncodes(ts, runs, i);
  }

  /** The spans from run `k` on are run `k`'s span and those after it. */
  lemma {:induction false} SpansCons(ts: seq<Token>, runs: seq<Span>, k: nat)
    requires k < |runs| && forall m :: 0 <= m < |runs| ==> runs[m].first <= runs[m].last < |ts|
    ensures Spans(ts, runs, k)
      == Close(Some(Open(ts[runs[k].first].offset, TokenEnd(ts[runs[k].last]), runs[k].cls))) + Spans(ts, runs, k + 1)
  {
  }

  /** In a gap position the decoder, with nothing open, emits exactly the
      remaining runs. */
  lemma {:induction false} DecodeGap(ts: seq<Token>, runs: seq<Span>, k: nat, i: nat)
    requires WellFormed(runs, |ts|) && Encodes(ts, runs)
    requires k <= |runs| && i <= |ts| && Gap(runs, k, i)
    ensures Run(None, ts, i) == Ok(Spans(ts, runs, k))
    decreases |ts| - i, 0
  {
    if i == |ts| {
      assert k == |runs|;
    } else if k < |runs| && i == runs[k].first {
      var sp := Spans(ts, runs, k);
      TagBegin(ts, runs, k);
      DecodeInside(ts, runs, k, i + 1);
      RunBegin(None, ts, i, runs[k].cls, sp);
      assert Close(None) + sp == sp;
    } else {
      var sp := Spans(ts, runs, k);
      GapOutside(runs, k, i);
      TagOutside(ts, runs, i);
      DecodeGap(ts, runs, k, i + 1);
      RunOutside(None, ts, i, sp);
      assert Close(None) + sp == sp;
    }
  }

  /** Inside run `k`, past its first token, the decoder holds the run open
      up to token `i - 1` and emits the remaining runs. */
  lemma {:induction false} DecodeInside(ts: seq<Token>, runs: seq<Span>, k: nat, i: nat)
    requires WellFormed(runs, |ts|) && Encodes(ts, runs)
    requires k < |runs| && runs[k].first < i <= runs[k].last + 1 && i <= |ts|
    ensures Run(Some(Open(ts[runs[k].first].offset, TokenEnd(ts[i - 1]), runs[k].cls)), ts, i)
      == Ok(Spans(ts, runs, k))
    decreases |ts| - i, 1
  {
    var o := Open(ts[runs[k].first].offset, TokenEnd(ts[i - 1]), runs[k].cls);
    var sp := Spans(ts, runs, k);
    if i <= runs[k].last {
      assert Run(Some(o), ts, i) == Ok(sp) by {
        TagInside(ts, runs, k, i);
        DecodeInside(ts, runs, k, i + 1);
        RunExtend(o, ts, i, sp);
      }
    } else {
      assert Run(Some(o), ts, i) == Ok(sp) by {
        assert ts[i - 1] == ts[runs[k].last];
        DecodeAfter(ts, runs, k, i);
      }
    }
  }

  /** Just past run `k`, the decoder emits run `k` when the next tag is not
      an `I` continuing it, and then the remaining runs. */
  lemma {:induction false} DecodeAfter(ts: seq<Token>, runs: seq<Span>, k: nat, i: nat)
    requires WellFormed(runs, |ts|) && Encodes(ts, runs)
    requires k < |runs| && i == runs[k].last + 1 && i <= |ts|
    ensures Run(Some(Open(ts[runs[k].first].offset, TokenEnd(ts[runs[k].last]), runs[k].cls)), ts, i)
      == Ok(Spans(ts, runs, k))
    decreases |ts| - i, 0
  {
    var o := Open(ts[runs[k].first].offset, TokenEnd(ts[runs[k].last]), runs[k].cls);
    var sp := Spans(ts, runs, k + 1);
    SpansCons(ts, runs, k);
    assert Spans(ts, runs, k) == Close(Some(o)) + sp;
    if i == |ts| {
      RunsLast(runs, k, |ts|);
      assert sp == [];
      assert Close(Some(o)) + sp == Close(Some(o));
    } else if k + 1 < |runs| && i == runs[k + 1].first {
      RunsNext(runs, |ts|, k);
      TagBegin(ts, runs, k + 1);
      DecodeInside(ts, runs, k + 1, i + 1);
      RunBegin(Some(o), ts, i, runs[k + 1].cls, sp);
    } else {
      RunsNext(runs, |ts|, k);
      GapOutside(runs, k + 1, i);
      TagOutside(ts, runs, i);
      DecodeGap(ts, runs, k + 1, i + 1);
      RunOutside(Some(o), ts, i, sp);
    }
  }

  /** A run that ends at the last token is the last run. */
  lemma RunsLast(runs: seq<Span>, k: nat, n: nat)
    requires WellFormed(runs, n) && k < |runs| && runs[k].last + 1 == n
    ensures k == |runs| - 1
  {
    RunsNext(runs, n, k);
  }

  lemma RunsNext(runs: seq<Span>, n: nat, k: nat)
    requires WellFormed(runs, n) && k < |runs|
    ensures k + 1 < |runs| ==> runs[k].last < runs[k + 1].first <= runs[k + 1].last < n
  {
  }

  /** A gap position that is not the start of run `k` lies outside every run. */
  lemma GapOutside(runs: seq<Span>, k: nat, i: nat)
    requires forall m :: 0 <= m < |runs| ==> runs[m].first <= runs[m].last
    requires forall m :: 0 <= m < |runs| - 1 ==> runs[m].last < runs[m + 1].first
    requires k <= |runs| && Gap(runs, k, i) && (k < |runs| ==> i < runs[k].first)
    ensures Outside(runs, i)
  {
    forall m | 0 <= m < |runs|
      ensures !(runs[m].first <= i <= runs[m].last)
    {
      if m < k {
        RunsBefore(runs, m, k - 1);
      } else if m > k {
        RunsBefore(runs, k, m);
      }
    }
  }

  /** Runs in order: an earlier run ends no later than a later one starts. */
  lemma {:induction false} RunsBefore(runs: seq<Span>, a: nat, b: nat)
    requires a <= b < |runs|
    requires forall m :: 0 <= m < |runs| ==> runs[m].first <= runs[m].last
    requires forall m :: 0 <= m < |runs| - 1 ==> runs[m].last < runs[m + 1].first
    ensures runs[a].last <= runs[b].last && (a < b ==> runs[a].last < runs[b].first)
    decreases b - a
  {
    if a < b {
      RunsBefore(runs, a + 1, b);
    }
  }

  /** Decoding a sentence whose tags are the BIO encoding of well-formed
      runs yields exactly those runs, as character spans. */
  lemma DecodeEncoded(ts: seq<Token>, runs: seq<Span>)
    requires WellFormed(runs, |ts|) && Encodes(ts, runs)
    ensures Run(None, ts, 0) == Ok(Spans(ts, runs, 0))
  {
    DecodeGap(ts, runs, 0, 0);
  }

  // ---------------------------------------------------------------------
  // Annotated text

  /** A plain stretch of text, or an entity's text with its class. */
  datatype Piece = Plain(s: string) | Marked(s: string, cls: Option<string>)

  /** The loop of `jsonl_datum_to_annotated_text` from entity `k`, with
      `idx` the end of the previous entity. */
  function AnnotateFrom(text: string, es: seq<Tagged>, k: nat, idx: int): (r: seq<Piece>)
    requires k <= |es|
    ensures |r| == 2 * (|es| - k) + 1
    decreases |es| - k
  {
    if k == |es| then [Plain(Suffix(text, idx))]
    else
      var here := [Plain(Slice(text, idx, es[k].start)), Marked(Slice(text, es[k].start, es[k].end), es[k].cls)];
      here + AnnotateFrom(text, es, k + 1, es[k].end)
  }

  /** `jsonl_datum_to_annotated_text`. */
  function Annotate(d: Decoded): seq<Piece> {
    AnnotateFrom(d.text, d.entities, 0, 0)
  }

  /** The text of all pieces, joined. */
  function Join(ps: seq<Piece>): string {
    if |ps| == 0 then "" else ps[0].s + Join(ps[1..])
  }

  /** Over an ordered chain inside the text, joining the pieces from entity
      `k` gives back the text from `idx`, and every marked piece is its
      entity's text. */
  lemma {:induction false} JoinFrom(text: string, es: seq<Tagged>, k: nat, idx: int)
    requires k <= |es| && 0 <= idx <= |text| && Chain(es[k..], idx, |text|)
    ensures Join(AnnotateFrom(text, es, k, idx)) == text[idx..]
    decreases |es| - k
  {
    if k < |es| {
      var s := es[k].start;
      var e := es[k].end;
      assert es[k..][0] == es[k] && es[k..][1..] == es[k + 1..];
      ChainBounded(es[k + 1..], e, |text|);
      JoinFrom(text, es, k + 1, e);
      var rest := AnnotateFrom(text, es, k + 1, e);
      JoinTwo(Plain(text[idx..s]), Marked(text[s..e], es[k].cls), rest);
      assert text[idx..] == text[idx..s] + (text[s..e] + text[e..]);
    }
  }

  lemma JoinTwo(a: Piece, b: Piece, rest: seq<Piece>)
    ensures Join([a, b] + rest) == a.s + (b.s + Join(rest))
  {
    assert ([a, b] + rest)[1..] == [b] + rest;
    assert ([b] + rest)[1..] == rest;
  }

  /** The annotated view has `2n + 1` pieces; for ordered entities inside
      the text, its pieces join back into the text. */
  lemma AnnotateRestores(d: Decoded)
    ensures |Annotate(d)| == 2 * |d.entities| + 1
    ensures Chain(d.entities, 0, |d.text|) ==> Join(Annotate(d)) == d.text
  {
    if Chain(d.entities, 0, |d.text|) {
      assert d.entities[0..] == d.entities;
      JoinFrom(d.text, d.entities, 0, 0);
    }
  }

  /** Entities in `[lo, hi]`, each ending before any later one starts:
      `Chain` read pointwise. */
  predicate Laid(es: seq<Tagged>, lo: int, hi: int) {
    && lo <= hi
    && (forall m :: 0 <= m < |es| ==> lo <= es[m].start <= es[m].end <= hi)
    && (forall a, b :: 0 <= a < b < |es| ==> es[a].end <= es[b].start)
  }

  /** The pointwise reading and the chain agree. */
  lemma {:induction false} ChainIsLaid(es: seq<Tagged>, lo: int, hi: int)
    ensures Chain(es, lo, hi) <==> Laid(es, lo, hi)
    decreases |es|
  {
    if |es| > 0 {
      ChainIsLaid(es[1..], es[0].end, hi);
      assert forall m :: 1 <= m < |es| ==> es[m] == es[1..][m - 1];
      if Chain(es, lo, hi) {
        ChainBounded(es[1..], es[0].end, hi);
      }
    }
  }

  /** Piece `2m + 1` is entity `m`'s text with its class, and piece `2m`
      the text between it and the previous entity (or the start). */
  lemma AnnotatedPieces(d: Decoded, m: nat)
    requires m < |d.entities| && Laid(d.entities, 0, |d.text|)
    ensures Annotate(d)[2 * m + 1] == Marked(d.text[d.entities[m].start..d.entities[m].end], d.entities[m].cls)
    ensures Annotate(d)[2 * m]
      == Plain(d.text[(if m == 0 then 0 else d.entities[m - 1].end)..d.entities[m].start])
  {
    AnnotateAt(d.text, d.entities, 0, 0, m);
  }

  lemma {:induction false} AnnotateAt(text: string, es: seq<Tagged>, k: nat, idx: int, m: nat)
    requires k <= m < |es| && Laid(es, 0, |text|) && idx == (if k == 0 then 0 else es[k - 1].end)
    ensures AnnotateFrom(text, es, k, idx)[2 * (m - k) + 1] == Marked(text[es[m].start..es[m].end], es[m].cls)
    ensures AnnotateFrom(text, es, k, idx)[2 * (m - k)]
      == Plain(text[(if m == 0 then 0 else es[m - 1].end)..es[m].start])
    decreases m - k
  {
    if m > k {
      AnnotateAt(text, es, k + 1, es[k].end, m);
    }
  }
}

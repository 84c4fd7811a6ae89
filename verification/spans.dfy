/** `re.sub(opening + r'(.*?)' + closing, repl, s, flags=re.DOTALL)`: the
    non-greedy, newline-spanning substitution the preprocessor uses for `<code>`
    elements (`process_code_blocks`) and for `/* ... */` comments
    (`preprocess_code`), defined once. The scan that finds the matches is
    kept apart from the text that replaces them. */
module Spans {
  import opened Results
  import opened Strings
  import opened Escaping

  /** The pattern matches at `i`: `opening` starts there and `closing` occurs
      somewhere after it. */
  predicate SpanAt(s: string, i: nat, opening: string, closing: string)
    requires |closing| > 0
  {
    i <= |s| && IsPrefix(opening, s[i..]) && Find(s[i + |opening|..], closing).Some?
  }

  /** One step of the scan: a character outside every match, or a match
      with the text between its `opening` and its `closing`. */
  datatype Piece = Kept(c: char) | Match(inner: string)

  /** The next piece of a scan and the number of characters it covers. */
  datatype Next = Next(piece: Piece, length: nat)

  /** One step of the scan at the front of a non-empty `s`: where the
      pattern matches, the match runs to the nearest following `closing`;
      elsewhere the first character is kept. */
  function Step(s: string, opening: string, closing: string): (r: Next)
    requires |opening| > 0 && |closing| > 0 && |s| > 0
    ensures 0 < r.length <= |s|
  {
    if SpanAt(s, 0, opening, closing) then MatchStep(s, opening, closing, Find(s[|opening|..], closing).value)
    else Next(Kept(s[0]), 1)
  }

  /** The step over a match whose `closing` starts `k` characters after its
      `opening`. */
  function MatchStep(s: string, opening: string, closing: string, k: nat): (r: Next)
    requires |opening| + k + |closing| <= |s|
    ensures r.length == |opening| + k + |closing|
  {
    Next(Match(s[|opening|..|opening| + k]), |opening| + k + |closing|)
  }

  /** Scan left to right, one step at a time, resuming after each step. */
  function Scan(s: string, opening: string, closing: string): seq<Piece>
    requires |opening| > 0 && |closing| > 0
    decreases |s|
  {
    if |s| == 0 then []
    else
      var n := Step(s, opening, closing);
      [n.piece] + Scan(s[n.length..], opening, closing)
  }

  /** The replacements the preprocessor substitutes for a match: nothing, for a
      `/* ... */` comment, or the `<code>` element rebuilt around the
      sanitized inside. */
  datatype Replacement = Remove | SanitizedCode

  const CodeOpen: string := "<code>"
  const CodeClose: string := "</code>"

  /** What a match with inside `inner` becomes. */
  function Rewrite(rule: Replacement, inner: string): string {
    match rule
    case Remove => []
    case SanitizedCode => CodeOpen + SanitizeCodeBlock(inner) + CodeClose
  }

  /** The text a scan stands for once every match is replaced. */
  function Render(pieces: seq<Piece>, rule: Replacement): string
    decreases |pieces|
  {
    if |pieces| == 0 then []
    else
      (match pieces[0] case Kept(c) => [c] case Match(inner) => Rewrite(rule, inner))
      + Render(pieces[1..], rule)
  }

  /** Every character kept. */
  function KeptAll(s: string): (r: seq<Piece>)
    ensures |r| == |s|
    ensures forall i :: 0 <= i < |s| ==> r[i] == Kept(s[i])
  {
    seq(|s|, i requires 0 <= i < |s| => Kept(s[i]))
  }

  /** The substitution itself. */
  function SubstituteSpans(s: string, opening: string, closing: string, rule: Replacement): string
    requires |opening| > 0 && |closing| > 0
  {
    Render(Scan(s, opening, closing), rule)
  }

  // ---------------------------------------------------------------------
  // The scan

  /** Matches in the tail are the matches in the whole, shifted by one. */
  lemma SpanAtTail(s: string, i: nat, opening: string, closing: string)
    requires |closing| > 0 && i < |s|
    ensures SpanAt(s[1..], i, opening, closing) <==> SpanAt(s, i + 1, opening, closing)
  {
    assert s[1..][i..] == s[i + 1..];
  }

  /** One step of the scan, then the scan of the rest. */
  lemma ScanStep(s: string, opening: string, closing: string)
    requires |opening| > 0 && |closing| > 0 && |s| > 0
    ensures var n := Step(s, opening, closing);
      Scan(s, opening, closing) == [n.piece] + Scan(s[n.length..], opening, closing)
  {
  }

  /** Where the pattern does not match at the front, the first character is
      kept and scanning resumes at the second. */
  lemma ScanSkip(s: string, opening: string, closing: string)
    requires |opening| > 0 && |closing| > 0 && |s| > 0 && !SpanAt(s, 0, opening, closing)
    ensures Scan(s, opening, closing) == [Kept(s[0])] + Scan(s[1..], opening, closing)
  {
    assert Step(s, opening, closing) == Next(Kept(s[0]), 1);
    ScanStep(s, opening, closing);
  }

  /** A prefix in which no match starts is kept as it is. */
  lemma {:induction false} ScanKeepsPrefix(s: string, n: nat, opening: string, closing: string)
    requires |opening| > 0 && |closing| > 0 && n <= |s|
    requires forall i :: 0 <= i < n ==> !SpanAt(s, i, opening, closing)
    ensures Scan(s, opening, closing) == KeptAll(s[..n]) + Scan(s[n..], opening, closing)
    decreases n
  {
    if n == 0 {
      assert s[..0] == [] && s[0..] == s;
      assert KeptAll([]) == [];
    } else {
      ScanSkip(s, opening, closing);
      NoSpanTail(s, n, opening, closing);
      ScanKeepsPrefix(s[1..], n - 1, opening, closing);
      KeptAllTail(s, n);
      AppendAssoc([Kept(s[0])], KeptAll(s[1..][..n - 1]), Scan(s[n..], opening, closing));
    }
  }

  /** No match among the first `n` positions of `s` means none among the
      first `n - 1` of its tail. */
  lemma NoSpanTail(s: string, n: nat, opening: string, closing: string)
    requires |opening| > 0 && |closing| > 0 && 0 < n <= |s|
    requires forall i :: 0 <= i < n ==> !SpanAt(s, i, opening, closing)
    ensures forall i :: 0 <= i < n - 1 ==> !SpanAt(s[1..], i, opening, closing)
  {
    forall i | 0 <= i < n - 1
      ensures !SpanAt(s[1..], i, opening, closing)
    {
      SpanAtTail(s, i, opening, closing);
    }
  }

  /** Keeping the first `n` characters is keeping the first one, then the
      next `n - 1`. */
  lemma KeptAllTail(s: string, n: nat)
    requires 0 < n <= |s|
    ensures KeptAll(s[..n]) == [Kept(s[0])] + KeptAll(s[1..][..n - 1])
    ensures s[1..][n - 1..] == s[n..]
  {
    assert s[1..][..n - 1] == s[1..n];
  }

  /** The step at a match covers it up to the first `closing` after
      `opening`. */
  lemma StepAtMatch(s: string, opening: string, closing: string, k: nat)
    requires |opening| > 0 && |closing| > 0 && |s| > 0
    requires IsPrefix(opening, s) && Find(s[|opening|..], closing) == Some(k)
    ensures |opening| + k + |closing| <= |s|
    ensures Step(s, opening, closing) == MatchStep(s, opening, closing, k)
  {
    SpanAtFront(s, opening, closing);
  }

  /** A match at the front: `opening` starts `s` and `closing` follows. */
  lemma SpanAtFront(s: string, opening: string, closing: string)
    requires |closing| > 0
    ensures SpanAt(s, 0, opening, closing) <==> IsPrefix(opening, s) && Find(s[|opening|..], closing).Some?
  {
    assert s[0..] == s;
  }

  /** Once the next step is known, the scan is that step's piece followed
      by the scan of what the step leaves. */
  lemma ScanAtStep(s: string, opening: string, closing: string, p: Piece, length: nat)
    requires |opening| > 0 && |closing| > 0 && |s| > 0
    requires Step(s, opening, closing) == Next(p, length)
    ensures length <= |s|
    ensures Scan(s, opening, closing) == [p] + Scan(s[length..], opening, closing)
  {
    ScanStep(s, opening, closing);
  }

  /** The step at the front of `opening + inner + closing + b`, when `inner`
      holds no `closing`, is the match with inside `inner`. */
  lemma StepSpanHere(inner: string, b: string, opening: string, closing: string)
    requires |opening| > 0 && |closing| > 0
    requires forall j :: 0 <= j < |inner| ==> !IsPrefix(closing, (inner + closing + b)[j..])
    ensures Step(opening + inner + closing + b, opening, closing)
         == Next(Match(inner), |opening| + |inner| + |closing|)
  {
    FindAfter(inner, closing, b);
    SpanParts(opening, inner, closing, b);
    StepAtMatch(opening + inner + closing + b, opening, closing, |inner|);
  }

  /** A match at the front, with `inner` the text up to the nearest
      `closing`, is one piece, and scanning resumes after the `closing`. */
  lemma ScanSpanHere(inner: string, b: string, opening: string, closing: string)
    requires |opening| > 0 && |closing| > 0
    requires forall j :: 0 <= j < |inner| ==> !IsPrefix(closing, (inner + closing + b)[j..])
    ensures Scan(opening + inner + closing + b, opening, closing) == [Match(inner)] + Scan(b, opening, closing)
  {
    var s := opening + inner + closing + b;
    var length := |opening| + |inner| + |closing|;
    StepSpanHere(inner, b, opening, closing);
    ScanAtStep(s, opening, closing, Match(inner), length);
    SpanParts(opening, inner, closing, b);
  }

  /** The nearest `closing` in `inner + closing + b`, when `inner` holds
      none, is the one right after `inner`. */
  lemma FindAfter(inner: string, closing: string, b: string)
    requires |closing| > 0
    requires forall j :: 0 <= j < |inner| ==> !IsPrefix(closing, (inner + closing + b)[j..])
    ensures Find(inner + closing + b, closing) == Some(|inner|)
  {
    var t := inner + closing + b;
    assert t[|inner|..] == closing + b;
    assert (closing + b)[..|closing|] == closing;
    FindFirst(t, closing, |inner|);
  }

  /** The parts of `opening + inner + closing + b`, by position. */
  lemma SpanParts(opening: string, inner: string, closing: string, b: string)
    ensures var s := opening + (inner + closing + b);
      && opening + inner + closing + b == s
      && IsPrefix(opening, s)
      && s[|opening|..] == inner + closing + b
      && s[|opening|..|opening| + |inner|] == inner
      && s[|opening| + |inner| + |closing|..] == b
  {
    var s := opening + (inner + closing + b);
    assert s[..|opening|] == opening;
  }

  /** A match preceded by text `a` in which no match starts: `a` is kept,
      the match up to the nearest `closing` is one piece, and scanning
      resumes after the `closing`. */
  lemma ScanSpan(a: string, inner: string, b: string, opening: string, closing: string)
    requires |opening| > 0 && |closing| > 0
    requires forall i :: 0 <= i < |a| ==> !SpanAt(a + opening + inner + closing + b, i, opening, closing)
    requires forall j :: 0 <= j < |inner| ==> !IsPrefix(closing, (inner + closing + b)[j..])
    ensures Scan(a + opening + inner + closing + b, opening, closing)
         == KeptAll(a) + [Match(inner)] + Scan(b, opening, closing)
  {
    var rest := opening + inner + closing + b;
    assert a + opening + inner + closing + b == a + rest;
    ScanAfterKept(a, rest, opening, closing);
    ScanSpanHere(inner, b, opening, closing);
    AppendAssoc(KeptAll(a), [Match(inner)], Scan(b, opening, closing));
  }

  /** Text `a` in which no match starts is kept as it is. */
  lemma ScanAfterKept(a: string, rest: string, opening: string, closing: string)
    requires |opening| > 0 && |closing| > 0
    requires forall i :: 0 <= i < |a| ==> !SpanAt(a + rest, i, opening, closing)
    ensures Scan(a + rest, opening, closing) == KeptAll(a) + Scan(rest, opening, closing)
  {
    var s := a + rest;
    ScanKeepsPrefix(s, |a|, opening, closing);
    assert s[..|a|] == a;
    assert s[|a|..] == rest;
  }

  /** Concatenation of pieces is associative. */
  lemma AppendAssoc(x: seq<Piece>, y: seq<Piece>, z: seq<Piece>)
    ensures x + (y + z) == x + y + z
  {
  }

  /** Every character the scan keeps comes from the input. */
  lemma {:induction false} ScanKeptChars(s: string, opening: string, closing: string)
    requires |opening| > 0 && |closing| > 0
    ensures forall c :: Kept(c) in Scan(s, opening, closing) ==> c in s
    decreases |s|
  {
    if |s| > 0 {
      if SpanAt(s, 0, opening, closing) {
        assert s[0..] == s;
        var k := Find(s[|opening|..], closing).value;
        var rest := s[|opening| + k + |closing|..];
        ScanKeptChars(rest, opening, closing);
        assert forall c :: c in rest ==> c in s;
      } else {
        ScanSkip(s, opening, closing);
        ScanKeptChars(s[1..], opening, closing);
        assert forall c :: c in s[1..] ==> c in s;
      }
    }
  }

  // ---------------------------------------------------------------------
  // Rendering

  lemma {:induction false} RenderAppend(p: seq<Piece>, q: seq<Piece>, rule: Replacement)
    ensures Render(p + q, rule) == Render(p, rule) + Render(q, rule)
    decreases |p|
  {
    if |p| == 0 {
      assert p + q == q;
    } else {
      assert (p + q)[0] == p[0];
      assert (p + q)[1..] == p[1..] + q;
      RenderAppend(p[1..], q, rule);
    }
  }

  /** Kept characters render as themselves. */
  lemma {:induction false} RenderKeptAll(s: string, rule: Replacement)
    ensures Render(KeptAll(s), rule) == s
    decreases |s|
  {
    if |s| > 0 {
      assert KeptAll(s)[1..] == KeptAll(s[1..]);
      RenderKeptAll(s[1..], rule);
      assert s == [s[0]] + s[1..];
    }
  }

  /** With every match removed, only kept characters are left. */
  lemma {:induction false} RenderRemoveChars(p: seq<Piece>)
    ensures forall c :: c in Render(p, Remove) ==> Kept(c) in p
    decreases |p|
  {
    if |p| > 0 {
      RenderRemoveChars(p[1..]);
      assert forall x :: x in p[1..] ==> x in p;
    }
  }

  // ---------------------------------------------------------------------
  // The substitution

  /** Text in which the pattern matches nowhere is returned unchanged. */
  lemma SubstituteUnchanged(s: string, opening: string, closing: string, rule: Replacement)
    requires |opening| > 0 && |closing| > 0
    ensures (forall i :: 0 <= i < |s| ==> !SpanAt(s, i, opening, closing))
            ==> SubstituteSpans(s, opening, closing, rule) == s
  {
    if forall i :: 0 <= i < |s| ==> !SpanAt(s, i, opening, closing) {
      ScanKeepsPrefix(s, |s|, opening, closing);
      assert s[..|s|] == s;
      assert s[|s|..] == [];
      assert KeptAll(s) + [] == KeptAll(s);
      RenderKeptAll(s, rule);
    }
  }

  /** A match preceded by text `a` in which no match starts, with `inner` the
      text up to the nearest `closing`: `a` is kept, the match becomes the
      replacement of `inner`, and the rest is substituted in the same way. */
  lemma SubstituteSpan(a: string, inner: string, b: string, opening: string, closing: string, rule: Replacement)
    requires |opening| > 0 && |closing| > 0
    requires forall i :: 0 <= i < |a| ==> !SpanAt(a + opening + inner + closing + b, i, opening, closing)
    requires forall j :: 0 <= j < |inner| ==> !IsPrefix(closing, (inner + closing + b)[j..])
    ensures SubstituteSpans(a + opening + inner + closing + b, opening, closing, rule)
         == a + Rewrite(rule, inner) + SubstituteSpans(b, opening, closing, rule)
  {
    ScanSpan(a, inner, b, opening, closing);
    RenderSpan(a, inner, Scan(b, opening, closing), rule);
  }

  /** Kept text, then a match, then more pieces, rendered. */
  lemma RenderSpan(a: string, inner: string, rest: seq<Piece>, rule: Replacement)
    ensures Render(KeptAll(a) + [Match(inner)] + rest, rule) == a + Rewrite(rule, inner) + Render(rest, rule)
  {
    RenderAppend(KeptAll(a) + [Match(inner)], rest, rule);
    RenderAppend(KeptAll(a), [Match(inner)], rule);
    RenderKeptAll(a, rule);
    assert Render([Match(inner)], rule) == Rewrite(rule, inner) + Render([], rule);
  }

  /** When every match is replaced by nothing, every character of the result
      comes from the input. */
  lemma SubstituteRemoveChars(s: string, opening: string, closing: string)
    requires |opening| > 0 && |closing| > 0
    ensures forall c :: c in SubstituteSpans(s, opening, closing, Remove) ==> c in s
  {
    RenderRemoveChars(Scan(s, opening, closing));
    ScanKeptChars(s, opening, closing);
  }

  /** `process_code_blocks`: every `<code>` paired with the nearest following
      `</code>` has its inside passed through `sanitize_code_block`. Text with
      no such pair is returned unchanged. */
  function ProcessCodeBlocks(content: string): (r: string)
    ensures (forall i :: 0 <= i < |content| ==> !SpanAt(content, i, CodeOpen, CodeClose)) ==> r == content
  {
    SubstituteUnchanged(content, CodeOpen, CodeClose, SanitizedCode);
    SubstituteSpans(content, CodeOpen, CodeClose, SanitizedCode)
  }

  /** Text before the first `<code>` that has a matching `</code>` is kept,
      the element's inside up to the nearest `</code>` is sanitized, and the
      rest is processed in the same way. */
  lemma ProcessCodeBlocksSpan(a: string, inner: string, b: string)
    requires forall i :: 0 <= i < |a| ==> !SpanAt(a + CodeOpen + inner + CodeClose + b, i, CodeOpen, CodeClose)
    requires forall j :: 0 <= j < |inner| ==> !IsPrefix(CodeClose, (inner + CodeClose + b)[j..])
    ensures ProcessCodeBlocks(a + CodeOpen + inner + CodeClose + b)
         == a + CodeOpen + SanitizeCodeBlock(inner) + CodeClose + ProcessCodeBlocks(b)
  {
    SubstituteSpan(a, inner, b, CodeOpen, CodeClose, SanitizedCode);
  }
}

/** `fix_json_structure` of Preprocessor/data_preprocessor.py: a blind,
    text-level repair of the scraped JSON. It strips surrounding whitespace and
    leading byte-order marks, makes sure the text is wrapped in `[` and `]`,
    puts a comma between `}` and `{` that are separated only by whitespace,
    and drops a comma that is followed, after optional whitespace, by `}` or
    `]`. It does not know about string literals, so it edits their contents
    too. */
module JsonRepair {
  import opened Results
  import opened Strings
  import opened Spans

  /** The byte-order mark U+FEFF, which `str.strip` does not count as
      whitespace. */
  const Bom: char := '\U{FEFF}'

  /** The characters a dangling comma may precede. */
  const Closers: set<char> := {'}', ']'}

  /** The next non-whitespace character of `s` is one of `cs`. */
  predicate NextIn(s: string, cs: set<char>) {
    var n := NextNonSpace(s);
    n.Some? && n.value in cs
  }

  /** No `a` in `t` is followed, after optional whitespace, by a character of
      `cs`. */
  predicate NoneFollowedBy(t: string, a: char, cs: set<char>)
    decreases |t|
  {
    |t| == 0 || ((t[0] == a ==> !NextIn(t[1..], cs)) && NoneFollowedBy(t[1..], a, cs))
  }

  /** `s.lstrip(c)`: the leading copies of `c` removed. */
  function LStripChar(s: string, c: char): (r: string)
    ensures |r| <= |s| && r == s[|s| - |r|..]
    ensures |r| > 0 ==> r[0] != c
    decreases |s|
  {
    if |s| > 0 && s[0] == c then
      var r := LStripChar(s[1..], c);
      assert s[1..][|s| - 1 - |r|..] == s[|s| - |r|..];
      r
    else s
  }

  /** Opens with `[` and closes with `]`. */
  predicate Bracketed(r: string) {
    |r| >= 2 && r[0] == '[' && r[|r| - 1] == ']'
  }

  /** The first three steps of `fix_json_structure`: strip whitespace, then
      leading byte-order marks, then add `[` in front unless the text starts
      with one and `]` at the end unless it ends with one. Whitespace behind a
      byte-order mark stays. */
  function WrapInArray(content: string): (r: string)
    ensures Bracketed(r)
  {
    Wrap(LStripChar(Strip(content), Bom))
  }

  /** `[` added in front of `t` unless it starts with one, then `]` at the
      end unless it ends with one. */
  function Wrap(t: string): (r: string)
    ensures Bracketed(r)
    ensures |t| == 0 ==> r == "[]"
    ensures r == (if |t| > 0 && t[0] == '[' then "" else "[") + t
                 + (if |t| > 0 && t[|t| - 1] == ']' then "" else "]")
  {
    var t1 := if |t| > 0 && t[0] == '[' then t else ['['] + t;
    if t1[|t1| - 1] == ']' then t1 else t1 + [']']
  }

  /** `re.sub(r'}\s*{', '},{', s)`: every `}` followed, after optional
      whitespace, by `{` becomes `},{`, the whitespace dropped. The scan
      resumes at that `{` rather than after it, which changes nothing because
      no match starts with `{`. */
  function InsertObjectCommas(s: string): string
    decreases |s|
  {
    if |s| == 0 then []
    else if s[0] == '}' && NextNonSpace(s[1..]) == Some('{') then
      "}," + InsertObjectCommas(LStrip(s[1..]))
    else [s[0]] + InsertObjectCommas(s[1..])
  }

  /** `re.sub(r',(\s*[}\]])', r'\1', s)`: a comma followed, after optional
      whitespace, by `}` or `]` is deleted. The regular expression resumes
      after the bracket and puts the whitespace and the bracket back as they
      were; none of those characters is a comma, so dropping the comma and
      scanning on from the next character gives the same text. */
  function DropTrailingCommas(s: string): string
    decreases |s|
  {
    if |s| == 0 then []
    else if s[0] == ',' && NextIn(s[1..], Closers) then DropTrailingCommas(s[1..])
    else [s[0]] + DropTrailingCommas(s[1..])
  }

  /** `fix_json_structure`. */
  function FixJsonStructure(content: string): string {
    DropTrailingCommas(InsertObjectCommas(WrapInArray(content)))
  }

  // ---------------------------------------------------------------------
  // Lemmas

  /** The result of `fix_json_structure` starts with `[` and ends with `]`. */
  lemma FixJsonStructureBracketed(content: string)
    ensures Bracketed(FixJsonStructure(content))
  {
    var w := WrapInArray(content);
    InsertObjectCommasBracketed(w);
    DropTrailingCommasBracketed(InsertObjectCommas(w));
    FixJsonStructureSteps(content);
  }

  /** InsertObjectCommas keeps the brackets around the text. */
  lemma InsertObjectCommasBracketed(w: string)
    requires Bracketed(w)
    ensures Bracketed(InsertObjectCommas(w))
  {
    InsertObjectCommasEnds(w);
  }

  /** DropTrailingCommas keeps the brackets around the text. */
  lemma DropTrailingCommasBracketed(c: string)
    requires Bracketed(c)
    ensures Bracketed(DropTrailingCommas(c))
  {
    DropTrailingCommasFirst(c);
    DropTrailingCommasLast(c);
  }

  /** `fix_json_structure` is its three steps in order. */
  lemma FixJsonStructureSteps(content: string)
    ensures FixJsonStructure(content) == DropTrailingCommas(InsertObjectCommas(WrapInArray(content)))
  {
  }

  /** Blank input becomes the empty array. */
  lemma FixJsonStructureBlank(content: string)
    requires Strip(content) == []
    ensures FixJsonStructure(content) == "[]"
  {
    assert WrapInArray(content) == "[]" by {
      assert LStripChar(Strip(content), Bom) == [];
    }
    EmptyArrayUnchanged();
    FixJsonStructureSteps(content);
  }

  /** No `}` of the result is followed, after optional whitespace, by `{`. */
  lemma FixJsonStructureNoGap(content: string)
    ensures NoneFollowedBy(FixJsonStructure(content), '}', {'{'})
  {
    var w := WrapInArray(content);
    InsertObjectCommasNoGap(w);
    DropTrailingCommasNoGap(InsertObjectCommas(w));
  }

  /** When no comma of the wrapped text is followed (after optional
      whitespace) by another comma, no comma of the result is followed by `}`
      or `]`. */
  lemma FixJsonStructureNoDangling(content: string)
    requires NoneFollowedBy(WrapInArray(content), ',', {','})
    ensures NoneFollowedBy(FixJsonStructure(content), ',', Closers)
  {
    var w := WrapInArray(content);
    InsertObjectCommasNoDoubleComma(w);
    DropTrailingCommasNoDangling(InsertObjectCommas(w));
  }

  /** Text that is already a bracketed array, with no `}` followed (after
      optional whitespace) by `{` and no comma followed by `}` or `]`, is
      returned unchanged: the repair only adds brackets and commas where
      they are missing and drops dangling commas. */
  lemma FixJsonStructureFixed(s: string)
    requires Bracketed(s)
    requires NoneFollowedBy(s, '}', {'{'}) && NoneFollowedBy(s, ',', Closers)
    ensures FixJsonStructure(s) == s
  {
    WrapInArrayFixed(s);
    InsertObjectCommasUnchanged(s);
    DropTrailingCommasUnchanged(s);
    FixJsonStructureSteps(s);
  }

  /** Bracketed text has nothing to strip and gets no new bracket. */
  lemma WrapInArrayFixed(s: string)
    requires Bracketed(s)
    ensures WrapInArray(s) == s
  {
    assert LStrip(s) == s && RStrip(s) == s;
    assert LStripChar(s, Bom) == s;
  }

  /** With no `}` followed by `{`, no comma is inserted. */
  lemma {:induction false} InsertObjectCommasUnchanged(s: string)
    requires NoneFollowedBy(s, '}', {'{'})
    ensures InsertObjectCommas(s) == s
    decreases |s|
  {
    if |s| > 0 {
      assert !(s[0] == '}' && NextNonSpace(s[1..]) == Some('{')) by {
        if s[0] == '}' { assert !NextIn(s[1..], {'{'}); }
      }
      InsertObjectCommasUnchanged(s[1..]);
      assert s == [s[0]] + s[1..];
    }
  }

  /** With no comma followed by `}` or `]`, no comma is dropped. */
  lemma {:induction false} DropTrailingCommasUnchanged(s: string)
    requires NoneFollowedBy(s, ',', Closers)
    ensures DropTrailingCommas(s) == s
    decreases |s|
  {
    if |s| > 0 {
      DropTrailingCommasUnchanged(s[1..]);
      assert s == [s[0]] + s[1..];
    }
  }

  /** A dangling comma before the closing bracket is dropped:
      `[{"a":1},]` becomes `[{"a":1}]`. */
  lemma FixJsonStructureTrailingComma(s: string)
    requires s == "[{\"a\":1},]"
    ensures FixJsonStructure(s) == "[{\"a\":1}]"
  {
    WrapInArrayFixed(s);
    TrailingCommaInsert(s);
    TrailingCommaDrop(s);
    FixJsonStructureSteps(s);
  }

  lemma TrailingCommaInsert(s: string)
    requires s == "[{\"a\":1},]"
    ensures InsertObjectCommas(s) == s
  {
    var p := "[{\"a\":1";
    var q := "},]";
    assert s == p + q;
    InsertObjectCommasAfter(p, q);
    BraceCommaClose(q);
  }

  lemma BraceCommaClose(q: string)
    requires q == "},]"
    ensures InsertObjectCommas(q) == q
  {
    var t := q[1..];
    assert t == ",]" && NextNonSpace(t) == Some(',');
    assert '}' !in t;
    InsertObjectCommasNoBrace(t);
    assert q == [q[0]] + t;
  }

  lemma TrailingCommaDrop(s: string)
    requires s == "[{\"a\":1},]"
    ensures DropTrailingCommas(s) == "[{\"a\":1}]"
  {
    var p := "[{\"a\":1}";
    assert s == p + ",]";
    DropTrailingCommasAfter(p, ",]");
    DropCommaClose(",]");
  }

  /** Objects side by side get a comma between them and brackets around
      them: `{} {}` becomes `[{},{}]`. */
  lemma FixJsonStructureAdjacentObjects(s: string)
    requires s == "{} {}"
    ensures FixJsonStructure(s) == "[{},{}]"
  {
    var w := "[{} {}]";
    WrapInArrayUnpadded(s);
    assert Wrap(s) == w;
    AdjacentInsert(w);
    AdjacentDrop("[{},{}]");
    FixJsonStructureSteps(s);
  }

  lemma AdjacentInsert(w: string)
    requires w == "[{} {}]"
    ensures InsertObjectCommas(w) == "[{},{}]"
  {
    var p := "[{";
    var q := "} {}]";
    assert w == p + q;
    assert '}' !in p;
    InsertObjectCommasAfter(p, q);
    GapBeforeObject(q);
    assert p + "},{}]" == "[{},{}]" by {
      assert |p + "},{}]"| == 7;
      forall i | 0 <= i < 7
        ensures (p + "},{}]")[i] == "[{},{}]"[i]
      {
      }
    }
  }

  lemma GapBeforeObject(q: string)
    requires q == "} {}]"
    ensures InsertObjectCommas(q) == "},{}]"
  {
    var t := q[1..];
    var u := "{}]";
    SpaceThenObject(t);
    InsertObjectCommasGap(q);
    ObjectClose(u);
  }

  lemma SpaceThenObject(t: string)
    requires t == " {}]"
    ensures NextNonSpace(t) == Some('{') && LStrip(t) == "{}]"
  {
    var u := t[1..];
    assert u == "{}]" && IsSpace(t[0]) && !IsSpace(u[0]);
    assert t == [' '] + u;
    NextNonSpaceCons(' ', u);
    assert LStrip(t) == LStrip(u);
  }

  lemma ObjectClose(u: string)
    requires u == "{}]"
    ensures InsertObjectCommas(u) == u
  {
    var q := u[1..];
    assert q == "}]";
    InsertObjectCommasKeep(u);
    BraceClose(q);
    assert u == ['{'] + q;
  }

  lemma BraceClose(q: string)
    requires q == "}]"
    ensures InsertObjectCommas(q) == q
  {
    var t := q[1..];
    assert t == "]" && NextNonSpace(t) == Some(']');
    InsertObjectCommasKeep(q);
    InsertObjectCommasNoBrace(t);
    assert q == ['}'] + t;
  }

  lemma AdjacentDrop(t: string)
    requires t == "[{},{}]"
    ensures DropTrailingCommas(t) == t
  {
    var p := "[{}";
    var q := ",{}]";
    assert t == p + q;
    assert ',' !in p;
    DropTrailingCommasAfter(p, q);
    assert q[1..] == "{}]" && NextNonSpace(q[1..]) == Some('{');
    DropTrailingCommasKeep(q);
    assert ',' !in q[1..];
    DropTrailingCommasNoComma(q[1..]);
    assert q == [q[0]] + q[1..];
  }

  /** Text without `}` passes InsertObjectCommas unchanged, and the rest is
      processed on its own. */
  lemma {:induction false} InsertObjectCommasAfter(p: string, q: string)
    requires '}' !in p
    ensures InsertObjectCommas(p + q) == p + InsertObjectCommas(q)
    decreases |p|
  {
    if |p| > 0 {
      var s := p + q;
      assert s[0] == p[0] && s[1..] == p[1..] + q;
      InsertObjectCommasAfter(p[1..], q);
    } else {
      assert p + q == q;
    }
  }

  /** Text without a comma passes DropTrailingCommas unchanged, and the rest
      is processed on its own. */
  lemma {:induction false} DropTrailingCommasAfter(p: string, q: string)
    requires ',' !in p
    ensures DropTrailingCommas(p + q) == p + DropTrailingCommas(q)
    decreases |p|
  {
    if |p| > 0 {
      var s := p + q;
      assert s[0] == p[0] && s[1..] == p[1..] + q;
      DropTrailingCommasAfter(p[1..], q);
    } else {
      assert p + q == q;
    }
  }

  /** The repair is not idempotent: `,,]` becomes `[,]` (only the second
      comma precedes a bracket), and a second pass (FixJsonStructureSecondPass)
      turns that into `[]`. */
  lemma FixJsonStructureNotIdempotent(s: string)
    requires s == ",,]"
    ensures FixJsonStructure(s) == "[,]"
  {
    var w := WrapCommaCommaClose(s);
    BracketCommaCommaClose(w);
    FixJsonStructureSteps(s);
  }

  /** `[,]` loses its comma. */
  lemma FixJsonStructureSecondPass(s: string)
    requires s == "[,]"
    ensures FixJsonStructure(s) == "[]"
  {
    WrapBracketComma(s);
    BracketCommaClose(s);
    FixJsonStructureSteps(s);
  }

  lemma WrapCommaCommaClose(s: string) returns (w: string)
    requires s == ",,]"
    ensures w == "[,,]"
    ensures WrapInArray(s) == w
  {
    w := "[,,]";
    assert ['['] + s == w;
    WrapInArrayUnpadded(s);
  }

  lemma WrapBracketComma(s: string)
    requires s == "[,]"
    ensures WrapInArray(s) == s
  {
    WrapInArrayUnpadded(s);
  }

  /** Text with no whitespace or byte-order mark to strip is only wrapped. */
  lemma WrapInArrayUnpadded(s: string)
    requires |s| > 0 && !IsSpace(s[0]) && !IsSpace(s[|s| - 1]) && s[0] != Bom
    ensures WrapInArray(s) == Wrap(s)
  {
    assert LStrip(s) == s;
    assert RStrip(s) == s;
    assert LStripChar(s, Bom) == s;
  }

  lemma BracketCommaCommaClose(w: string)
    requires w == "[,,]"
    ensures InsertObjectCommas(w) == w
    ensures DropTrailingCommas(w) == "[,]"
  {
    assert '}' !in w;
    InsertObjectCommasNoBrace(w);
    assert w[1..] == ",,]";
    DropCommaCommaClose(w[1..]);
  }

  lemma BracketCommaClose(w: string)
    requires w == "[,]"
    ensures InsertObjectCommas(w) == w
    ensures DropTrailingCommas(w) == "[]"
  {
    assert '}' !in w;
    InsertObjectCommasNoBrace(w);
    assert w[1..] == ",]";
    DropCommaClose(w[1..]);
  }

  lemma DropClose(s: string)
    requires s == "]"
    ensures DropTrailingCommas(s) == s && NextIn(s, Closers)
  {
    assert s[1..] == [];
    assert NextNonSpace(s) == Some(']');
  }

  lemma DropCommaClose(s: string)
    requires s == ",]"
    ensures DropTrailingCommas(s) == "]"
  {
    assert s[1..] == "]";
    DropClose(s[1..]);
  }

  lemma DropCommaCommaClose(s: string)
    requires s == ",,]"
    ensures DropTrailingCommas(s) == ",]"
  {
    var t := s[1..];
    assert t == ",]";
    assert [','] + "]" == ",]";
    assert NextNonSpace(t) == Some(',');
    DropTrailingCommasKeep(s);
    DropCommaClose(t);
  }

  /** DropTrailingCommas where the head is not a dangling comma. */
  lemma DropTrailingCommasKeep(s: string)
    requires |s| > 0 && !(s[0] == ',' && NextIn(s[1..], Closers))
    ensures DropTrailingCommas(s) == [s[0]] + DropTrailingCommas(s[1..])
  {
  }

  /** Text without `}` passes InsertObjectCommas unchanged. */
  lemma {:induction false} InsertObjectCommasNoBrace(s: string)
    requires '}' !in s
    ensures InsertObjectCommas(s) == s
    decreases |s|
  {
    if |s| > 0 {
      assert '}' !in s[1..];
      InsertObjectCommasNoBrace(s[1..]);
      assert s == [s[0]] + s[1..];
    }
  }

  /** Text without commas passes DropTrailingCommas unchanged. */
  lemma {:induction false} DropTrailingCommasNoComma(s: string)
    requires ',' !in s
    ensures DropTrailingCommas(s) == s
    decreases |s|
  {
    if |s| > 0 {
      assert ',' !in s[1..];
      DropTrailingCommasNoComma(s[1..]);
      assert s == [s[0]] + s[1..];
    }
  }

  /** The empty array passes both regular-expression steps unchanged. */
  lemma EmptyArrayUnchanged()
    ensures InsertObjectCommas("[]") == "[]"
    ensures DropTrailingCommas("[]") == "[]"
  {
    assert "[]"[1..] == "]";
    assert "]"[1..] == [];
    assert InsertObjectCommas("]") == "]";
    assert DropTrailingCommas("]") == "]";
  }

  /** Where `}\s*{` matches at the head of `s`: the text from the `{` on. */
  lemma GapMatch(s: string)
    requires |s| > 0 && NextNonSpace(s[1..]) == Some('{')
    ensures var u := LStrip(s[1..]);
      |u| > 0 && u[0] == '{' && u == s[|s| - |u|..]
  {
    var t := s[1..];
    var u := LStrip(t);
    NextNonSpaceLStrip(t);
    assert u == t[|t| - |u|..];
    assert t[|t| - |u|..] == s[|s| - |u|..];
  }

  /** InsertObjectCommas keeps the first and the last character. */
  lemma {:induction false} InsertObjectCommasEnds(s: string)
    ensures var r := InsertObjectCommas(s);
      |s| > 0 ==> |r| > 0 && r[0] == s[0] && r[|r| - 1] == s[|s| - 1]
    decreases |s|
  {
    if |s| == 0 {
    } else if s[0] == '}' && NextNonSpace(s[1..]) == Some('{') {
      GapMatch(s);
      var u := LStrip(s[1..]);
      InsertObjectCommasEnds(u);
    } else {
      InsertObjectCommasEnds(s[1..]);
    }
  }

  /** InsertObjectCommas keeps the first non-whitespace character. */
  lemma {:induction false} InsertObjectCommasNext(s: string)
    ensures NextNonSpace(InsertObjectCommas(s)) == NextNonSpace(s)
    decreases |s|
  {
    if |s| == 0 {
    } else if s[0] == '}' && NextNonSpace(s[1..]) == Some('{') {
      var tail := InsertObjectCommas(LStrip(s[1..]));
      NextNonSpaceCons('}', [','] + tail);
      NextNonSpaceCons('}', s[1..]);
      assert s == [s[0]] + s[1..];
    } else {
      InsertObjectCommasNext(s[1..]);
      NextNonSpaceCons(s[0], InsertObjectCommas(s[1..]));
      NextNonSpaceCons(s[0], s[1..]);
      assert s == [s[0]] + s[1..];
    }
  }

  /** InsertObjectCommas where `}\s*{` matches at the head. */
  lemma InsertObjectCommasGap(s: string)
    requires |s| > 0 && s[0] == '}' && NextNonSpace(s[1..]) == Some('{')
    ensures InsertObjectCommas(s) == "}," + InsertObjectCommas(LStrip(s[1..]))
  {
  }

  /** `},` in front of `t`, one character at a time. */
  lemma BraceComma(t: string)
    ensures "}," + t == ['}'] + ([','] + t)
  {
  }

  /** InsertObjectCommas where no match starts at the head. */
  lemma InsertObjectCommasKeep(s: string)
    requires |s| > 0 && !(s[0] == '}' && NextNonSpace(s[1..]) == Some('{'))
    ensures InsertObjectCommas(s) == [s[0]] + InsertObjectCommas(s[1..])
  {
  }

  /** After InsertObjectCommas no `}` is followed, after optional whitespace,
      by `{`. */
  lemma {:induction false} InsertObjectCommasNoGap(s: string)
    ensures NoneFollowedBy(InsertObjectCommas(s), '}', {'{'})
    decreases |s|
  {
    if |s| == 0 {
    } else if s[0] == '}' && NextNonSpace(s[1..]) == Some('{') {
      GapMatch(s);
      InsertObjectCommasNoGap(LStrip(s[1..]));
      NoGapAtGap(s);
    } else {
      InsertObjectCommasNoGap(s[1..]);
      InsertObjectCommasNext(s[1..]);
      NoGapKeep(s);
    }
  }

  /** The step of InsertObjectCommasNoGap where a match starts at the head. */
  lemma NoGapAtGap(s: string)
    requires |s| > 0 && s[0] == '}' && NextNonSpace(s[1..]) == Some('{')
    requires NoneFollowedBy(InsertObjectCommas(LStrip(s[1..])), '}', {'{'})
    ensures NoneFollowedBy(InsertObjectCommas(s), '}', {'{'})
  {
    var tail := InsertObjectCommas(LStrip(s[1..]));
    BraceComma(tail);
    InsertObjectCommasGap(s);
    NoneFollowedByCons(',', tail, '}', {'{'});
    NextNonSpaceCons(',', tail);
    NoneFollowedByCons('}', [','] + tail, '}', {'{'});
  }

  /** The step of InsertObjectCommasNoGap where no match starts at the head. */
  lemma NoGapKeep(s: string)
    requires |s| > 0 && !(s[0] == '}' && NextNonSpace(s[1..]) == Some('{'))
    requires NoneFollowedBy(InsertObjectCommas(s[1..]), '}', {'{'})
    requires NextNonSpace(InsertObjectCommas(s[1..])) == NextNonSpace(s[1..])
    ensures NoneFollowedBy(InsertObjectCommas(s), '}', {'{'})
  {
    InsertObjectCommasKeep(s);
    NoneFollowedByCons(s[0], InsertObjectCommas(s[1..]), '}', {'{'});
  }

  /** InsertObjectCommas creates no comma followed by a comma. */
  lemma {:induction false} InsertObjectCommasNoDoubleComma(s: string)
    requires NoneFollowedBy(s, ',', {','})
    ensures NoneFollowedBy(InsertObjectCommas(s), ',', {','})
    decreases |s|
  {
    if |s| == 0 {
    } else if s[0] == '}' && NextNonSpace(s[1..]) == Some('{') {
      var u := LStrip(s[1..]);
      assert NoneFollowedBy(u, ',', {','}) by {
        GapMatch(s);
        NoneFollowedBySuffix(s, ',', {','}, |s| - |u|);
      }
      InsertObjectCommasNoDoubleComma(u);
      assert NextNonSpace(InsertObjectCommas(u)) == Some('{') by {
        GapMatch(s);
        InsertObjectCommasNext(u);
      }
      NoDoubleCommaAtGap(s);
    } else {
      assert NoneFollowedBy(s[1..], ',', {','}) && (s[0] == ',' ==> !NextIn(s[1..], {','})) by {
        assert s == [s[0]] + s[1..];
        NoneFollowedByCons(s[0], s[1..], ',', {','});
      }
      InsertObjectCommasNoDoubleComma(s[1..]);
      InsertObjectCommasNext(s[1..]);
      NoDoubleCommaKeep(s);
    }
  }

  /** The step of InsertObjectCommasNoDoubleComma where a match starts at the
      head. */
  lemma NoDoubleCommaAtGap(s: string)
    requires |s| > 0 && s[0] == '}' && NextNonSpace(s[1..]) == Some('{')
    requires NoneFollowedBy(InsertObjectCommas(LStrip(s[1..])), ',', {','})
    requires NextNonSpace(InsertObjectCommas(LStrip(s[1..]))) == Some('{')
    ensures NoneFollowedBy(InsertObjectCommas(s), ',', {','})
  {
    var tail := InsertObjectCommas(LStrip(s[1..]));
    BraceComma(tail);
    InsertObjectCommasGap(s);
    NoneFollowedByCons(',', tail, ',', {','});
    NoneFollowedByCons('}', [','] + tail, ',', {','});
  }

  /** The step of InsertObjectCommasNoDoubleComma where no match starts at
      the head. */
  lemma NoDoubleCommaKeep(s: string)
    requires |s| > 0 && !(s[0] == '}' && NextNonSpace(s[1..]) == Some('{'))
    requires s[0] == ',' ==> !NextIn(s[1..], {','})
    requires NoneFollowedBy(InsertObjectCommas(s[1..]), ',', {','})
    requires NextNonSpace(InsertObjectCommas(s[1..])) == NextNonSpace(s[1..])
    ensures NoneFollowedBy(InsertObjectCommas(s), ',', {','})
  {
    InsertObjectCommasKeep(s);
    NoneFollowedByCons(s[0], InsertObjectCommas(s[1..]), ',', {','});
  }

  /** DropTrailingCommas keeps the first character unless it is a comma. */
  lemma DropTrailingCommasFirst(s: string)
    requires |s| > 0 && s[0] != ','
    ensures var r := DropTrailingCommas(s);
      |r| > 0 && r[0] == s[0]
  {
  }

  /** DropTrailingCommas keeps the last character unless it is a comma. */
  lemma {:induction false} DropTrailingCommasLast(s: string)
    requires |s| > 0 && s[|s| - 1] != ','
    ensures var r := DropTrailingCommas(s);
      |r| > 0 && r[|r| - 1] == s[|s| - 1]
    decreases |s|
  {
    var tail := DropTrailingCommas(s[1..]);
    if |s| > 1 {
      DropTrailingCommasLast(s[1..]);
      assert s[1..][|s| - 2] == s[|s| - 1];
      if s[0] == ',' && NextIn(s[1..], Closers) {
        assert DropTrailingCommas(s) == tail;
      } else {
        assert DropTrailingCommas(s) == [s[0]] + tail;
      }
    } else {
      assert s[1..] == [];
      assert tail == [];
      assert DropTrailingCommas(s) == [s[0]] + tail;
    }
  }

  /** The first non-whitespace character survives DropTrailingCommas, or it
      was a comma that was dropped in front of a closing bracket. */
  lemma {:induction false} DropTrailingCommasNext(s: string)
    ensures var r := DropTrailingCommas(s);
      NextNonSpace(r) == NextNonSpace(s) || (NextNonSpace(s) == Some(',') && NextIn(r, Closers))
    decreases |s|
  {
    if |s| == 0 {
    } else if s[0] == ',' && NextIn(s[1..], Closers) {
      DropTrailingCommasNext(s[1..]);
      assert NextNonSpace(s) == Some(',') by {
        NextNonSpaceCons(',', s[1..]);
        assert s == [s[0]] + s[1..];
      }
    } else {
      DropTrailingCommasNext(s[1..]);
      NextNonSpaceCons(s[0], DropTrailingCommas(s[1..]));
      assert NextNonSpace(s) == if IsSpace(s[0]) then NextNonSpace(s[1..]) else Some(s[0]) by {
        NextNonSpaceCons(s[0], s[1..]);
        assert s == [s[0]] + s[1..];
      }
    }
  }

  /** DropTrailingCommas adds no `{` after a `}`. */
  lemma {:induction false} DropTrailingCommasNoGap(s: string)
    requires NoneFollowedBy(s, '}', {'{'})
    ensures NoneFollowedBy(DropTrailingCommas(s), '}', {'{'})
    decreases |s|
  {
    if |s| == 0 {
    } else {
      assert s == [s[0]] + s[1..];
      NoneFollowedByCons(s[0], s[1..], '}', {'{'});
      DropTrailingCommasNoGap(s[1..]);
      DropTrailingCommasNext(s[1..]);
      NoneFollowedByCons(s[0], DropTrailingCommas(s[1..]), '}', {'{'});
    }
  }

  /** If no comma of `s` is followed (after optional whitespace) by another
      comma, no comma of DropTrailingCommas(s) is followed by `}` or `]`. */
  lemma {:induction false} DropTrailingCommasNoDangling(s: string)
    requires NoneFollowedBy(s, ',', {','})
    ensures NoneFollowedBy(DropTrailingCommas(s), ',', Closers)
    decreases |s|
  {
    if |s| == 0 {
    } else {
      assert s == [s[0]] + s[1..];
      NoneFollowedByCons(s[0], s[1..], ',', {','});
      DropTrailingCommasNoDangling(s[1..]);
      DropTrailingCommasNext(s[1..]);
      NoneFollowedByCons(s[0], DropTrailingCommas(s[1..]), ',', Closers);
    }
  }

  /** NoneFollowedBy for a string that starts with `c`. */
  lemma NoneFollowedByCons(c: char, t: string, a: char, cs: set<char>)
    ensures NoneFollowedBy([c] + t, a, cs) <==> (c == a ==> !NextIn(t, cs)) && NoneFollowedBy(t, a, cs)
  {
    assert ([c] + t)[1..] == t;
  }

  /** NoneFollowedBy carries over to every suffix. */
  lemma {:induction false} NoneFollowedBySuffix(s: string, a: char, cs: set<char>, k: nat)
    requires k <= |s|
    ensures NoneFollowedBy(s, a, cs) ==> NoneFollowedBy(s[k..], a, cs)
    decreases k
  {
    if k > 0 {
      NoneFollowedBySuffix(s[1..], a, cs, k - 1);
      assert s[1..][k - 1..] == s[k..];
    }
  }
}

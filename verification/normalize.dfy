/** The three text normalisers of Preprocessor/data_preprocessor.py:
    `clean_text` (its whitespace part), `preprocess_text` and
    `preprocess_code`. Python's `\s`, `\w` and `lower()` are modelled on ASCII
    (see Strings). */
module Normalize {
  import opened Results
  import opened Strings
  import opened Escaping
  import opened Spans
  import opened JsonValues
  import opened Words

  // ---------------------------------------------------------------------
  // clean_text

  /** `clean_text`: anything but a string becomes the empty string; a string
      is JSON-unescaped, its HTML entities decoded (`decode`, which stands for
      `html.unescape`), and its whitespace normalized. The result is
      normalized and has the words of the decoded text, so it is those words
      joined by single spaces. */
  function CleanText(v: Json, decode: string -> string): (r: string)
    ensures !v.JString? ==> r == []
    ensures Normalized(r)
    ensures v.JString? ==> RemoveSpace(r) == RemoveSpace(decode(UnescapeJson(v.s)))
    ensures v.JString? ==> Split(r) == Split(decode(UnescapeJson(v.s)))
  {
    if v.JString? then
      var t := decode(UnescapeJson(v.s));
      NormalizeSpaceKeepsContent(t);
      NormalizeSpaceSplit(t);
      NormalizeSpace(t)
    else []
  }

  // ---------------------------------------------------------------------
  // preprocess_text

  /** The characters `preprocess_text` can produce. */
  predicate TextChar(c: char) {
    IsLower(c) || IsDigit(c) || c == '.' || c == ' '
  }

  /** The characters the class `[^a-z0-9\s\.]` does not match. */
  predicate KeptByMask(c: char) {
    IsLower(c) || IsDigit(c) || IsSpace(c) || c == '.'
  }

  /** `re.sub(r'[^a-z0-9\s\.]', ' ', s)`: every other character becomes a
      space; nothing is deleted. */
  function MaskDisallowed(s: string): string {
    seq(|s|, i requires 0 <= i < |s| => if KeptByMask(s[i]) then s[i] else ' ')
  }

  /** `preprocess_text`: unescape, lower-case, mask, normalize whitespace. The
      result has only `a-z`, `0-9`, `.` and single inner spaces. */
  function PreprocessText(text: string): (r: string)
    ensures forall c :: c in r ==> TextChar(c)
    ensures Normalized(r)
  {
    var m := MaskDisallowed(Lower(UnescapeJson(text)));
    var r := NormalizeSpace(m);
    NormalizeSpaceChars(m);
    assert forall c :: c in m ==> KeptByMask(c);
    forall c | c in r
      ensures TextChar(c)
    {
      var i :| 0 <= i < |r| && r[i] == c;
      assert IsSpace(r[i]) ==> r[i] == ' ';
    }
    r
  }

  /** `preprocess_text` is idempotent. */
  lemma PreprocessTextIdempotent(text: string)
    ensures PreprocessText(PreprocessText(text)) == PreprocessText(text)
  {
    var r := PreprocessText(text);
    TextCharsFixed(r);
    PreprocessTextSteps(r);
    NormalizeSpaceFixed(r);
  }

  /** The pipeline of `preprocess_text`, one stage per call. */
  lemma PreprocessTextSteps(text: string)
    ensures PreprocessText(text) == NormalizeSpace(MaskDisallowed(Lower(UnescapeJson(text))))
  {
  }

  /** Unescaping, lower-casing and masking leave the characters
      `preprocess_text` produces alone. */
  lemma TextCharsFixed(r: string)
    requires forall c :: c in r ==> TextChar(c)
    ensures MaskDisallowed(Lower(UnescapeJson(r))) == r
  {
    assert '\\' !in r;
    UnescapeWithoutBackslash(r);
    assert Lower(r) == r by {
      forall i | 0 <= i < |r|
        ensures Lower(r)[i] == r[i]
      {
        assert r[i] in r;
      }
    }
    assert MaskDisallowed(r) == r by {
      forall i | 0 <= i < |r|
        ensures MaskDisallowed(r)[i] == r[i]
      {
        assert r[i] in r;
      }
    }
  }

  /** `preprocess_text` keeps every non-whitespace character of the masked,
      lower-cased text in order: a disallowed character separates its
      neighbours instead of joining them. */
  lemma PreprocessTextKeepsContent(text: string)
    ensures RemoveSpace(PreprocessText(text)) == RemoveSpace(MaskDisallowed(Lower(UnescapeJson(text))))
  {
    NormalizeSpaceKeepsContent(MaskDisallowed(Lower(UnescapeJson(text))));
  }

  /** `preprocess_text` keeps the words of the masked, lower-cased text: a
      disallowed character ends a word like whitespace does. */
  lemma PreprocessTextWords(text: string)
    ensures Split(PreprocessText(text)) == Split(MaskDisallowed(Lower(UnescapeJson(text))))
  {
    NormalizeSpaceSplit(MaskDisallowed(Lower(UnescapeJson(text))));
  }

  /** Two runs of allowed characters joined by a disallowed one come out
      separated by a single space: `"a,b"` gives `"a b"`, not `"ab"`. */
  lemma PreprocessTextSeparates(u: string, c: char, v: string)
    requires |u| > 0 && |v| > 0
    requires forall i :: 0 <= i < |u| ==> TextChar(u[i]) && u[i] != ' '
    requires forall i :: 0 <= i < |v| ==> TextChar(v[i]) && v[i] != ' '
    requires c != '\\' && !KeptByMask(ToLower(c))
    ensures PreprocessText(u + [c] + v) == u + " " + v
  {
    var s := u + [c] + v;
    SeparatedNoBackslash(u, c, v);
    UnescapeWithoutBackslash(s);
    SeparatedMask(u, c, v);
    SeparatedNormalized(u, v);
    PreprocessTextSteps(s);
    NormalizeSpaceFixed(u + " " + v);
  }

  /** The joined text holds no backslash. */
  lemma SeparatedNoBackslash(u: string, c: char, v: string)
    requires forall i :: 0 <= i < |u| ==> TextChar(u[i])
    requires forall i :: 0 <= i < |v| ==> TextChar(v[i])
    requires c != '\\'
    ensures '\\' !in u + [c] + v
  {
    var s := u + [c] + v;
    forall i | 0 <= i < |s|
      ensures s[i] != '\\'
    {
      if i < |u| { assert s[i] == u[i]; }
      else if i > |u| { assert s[i] == v[i - |u| - 1]; }
    }
  }

  /** Lower-casing and masking turn the disallowed character into a space
      and leave the allowed ones alone. */
  lemma SeparatedMask(u: string, c: char, v: string)
    requires forall i :: 0 <= i < |u| ==> TextChar(u[i])
    requires forall i :: 0 <= i < |v| ==> TextChar(v[i])
    requires !KeptByMask(ToLower(c))
    ensures MaskDisallowed(Lower(u + [c] + v)) == u + " " + v
  {
    var s := u + [c] + v;
    var t := u + " " + v;
    forall i | 0 <= i < |s|
      ensures MaskDisallowed(Lower(s))[i] == t[i]
    {
      if i < |u| { assert s[i] == u[i] && t[i] == u[i]; }
      else if i > |u| { assert s[i] == v[i - |u| - 1] && t[i] == v[i - |u| - 1]; }
    }
  }

  /** Two non-empty runs of non-space text characters joined by one space
      form normalized text. */
  lemma SeparatedNormalized(u: string, v: string)
    requires |u| > 0 && |v| > 0
    requires forall i :: 0 <= i < |u| ==> TextChar(u[i]) && u[i] != ' '
    requires forall i :: 0 <= i < |v| ==> TextChar(v[i]) && v[i] != ' '
    ensures Normalized(u + " " + v)
  {
    var t := u + " " + v;
    forall i | 0 <= i < |t|
      ensures IsSpace(t[i]) <==> i == |u|
    {
      if i < |u| { assert t[i] == u[i]; }
      else if i > |u| { assert t[i] == v[i - |u| - 1]; }
    }
  }

  // ---------------------------------------------------------------------
  // preprocess_code

  /** The part of `s` from its first newline on (empty if there is none):
      what is left after `.*$` matches in MULTILINE mode, where `.` does not
      match a newline. */
  function FromNewline(s: string): (r: string)
    ensures |r| <= |s| && r == s[|s| - |r|..]
    ensures |r| > 0 ==> r[0] == '\n'
    ensures forall i :: 0 <= i < |s| - |r| ==> s[i] != '\n'
    ensures |s| > 0 && s[0] != '\n' ==> |r| < |s|
  {
    var k := NewlineIndex(s);
    s[k..]
  }

  /** The index of the first newline of `s`, or `|s|` if there is none. */
  function NewlineIndex(s: string): (k: nat)
    ensures k <= |s|
    ensures k < |s| ==> s[k] == '\n'
    ensures forall i :: 0 <= i < k ==> s[i] != '\n'
    decreases |s|
  {
    if |s| == 0 || s[0] == '\n' then 0
    else
      var t := s[1..];
      var k := NewlineIndex(t);
      assert forall i :: 1 <= i < k + 1 ==> s[i] == t[i - 1];
      k + 1
  }

  /** `re.sub(marker + r'.*$', '', s, flags=re.MULTILINE)`: from each
      occurrence of `marker` the rest of its line is deleted; the newline
      stays. */
  function DropLineComments(s: string, marker: string): string
    requires |marker| > 0 && marker[0] != '\n'
    decreases |s|
  {
    if |s| == 0 then []
    else if IsPrefix(marker, s) then DropLineComments(FromNewline(s), marker)
    else [s[0]] + DropLineComments(s[1..], marker)
  }

  /** The three comment-removal steps of `preprocess_code`, in order: `#` to
      the end of the line, `//` to the end of the line, and `/* ... */`
      (non-greedy, across lines). */
  function StripComments(code: string): string {
    var a := DropLineComments(code, "#");
    var b := DropLineComments(a, "//");
    SubstituteSpans(b, "/*", "*/", Remove)
  }

  /** The class `[^\w\s]`. */
  predicate IsSymbol(c: char) {
    !IsWordChar(c) && !IsSpace(c)
  }

  /** `re.sub(r'([^\w\s])', r' \1 ', s)`: a space on each side of every
      symbol. */
  function SpaceOutSymbols(s: string): string
    decreases |s|
  {
    if |s| == 0 then []
    else if IsSymbol(s[0]) then [' ', s[0], ' '] + SpaceOutSymbols(s[1..])
    else [s[0]] + SpaceOutSymbols(s[1..])
  }

  /** Every symbol of `t` has a space on both sides. */
  predicate SymbolsSpaced(t: string) {
    && (forall i :: 0 <= i < |t| && IsSymbol(t[i]) ==> 0 < i < |t| - 1)
    && SymbolsSpacedInside(t)
  }

  /** Every symbol of `t` has a space on both sides, except at the two ends
      of `t`: each neighbour `t[j]` of a symbol `t[i]` is a space. */
  predicate SymbolsSpacedInside(t: string) {
    forall i, j :: 0 <= i < |t| && 0 <= j < |t| && (j == i - 1 || j == i + 1) && IsSymbol(t[i]) ==> t[j] == ' '
  }

  /** The only whitespace character in `t` is the plain space. */
  predicate OnlyPlainSpaces(t: string) {
    forall c :: c in t && IsSpace(c) ==> c == ' '
  }

  /** `preprocess_code`: unescape, drop comments, collapse whitespace, space
      out symbols, strip. The result has no `#`, no whitespace but the plain
      space, none at either end, and a space on each side of every symbol that
      is not at an end. Spacing out symbols can leave two spaces in a row. */
  function PreprocessCode(code: string): (r: string)
    ensures '#' !in r
    ensures OnlyPlainSpaces(r)
    ensures Trimmed(r)
    ensures SymbolsSpacedInside(r)
  {
    var c := StripComments(UnescapeJson(code));
    var w := CollapseSpace(c);
    var x := SpaceOutSymbols(w);
    var r := Strip(x);
    StripCommentsNoHash(UnescapeJson(code));
    CollapseChars(c);
    SpaceOutSymbolsChars(w);
    SpaceOutSymbolsSpaced(w);
    SingleSpacedPlain(w);
    StripKeepsSpaced(x);
    StripKeepsChars(x);
    r
  }

  /** `preprocess_code` has the words of the comment-free code with every
      symbol spaced out: collapsing whitespace first changes no word, and
      every symbol is a word of its own. */
  lemma PreprocessCodeWords(code: string)
    ensures Split(PreprocessCode(code)) ==
              Split(SpaceOutSymbols(StripComments(UnescapeJson(code))))
  {
    var c := StripComments(UnescapeJson(code));
    SplitStrip(SpaceOutSymbols(CollapseSpace(c)));
    SplitSpaceOutCollapse(c, []);
  }

  /** Spacing out one character. */
  lemma SpaceOutCons(c: char, x: string)
    ensures SpaceOutSymbols([c] + x) ==
              (if IsSymbol(c) then [' ', c, ' '] else [c]) + SpaceOutSymbols(x)
  {
    assert ([c] + x)[0] == c && ([c] + x)[1..] == x;
  }

  /** Leading whitespace adds no word to the spaced-out text. */
  lemma {:induction false} SplitSpaceOutLStrip(x: string)
    ensures SplitFrom(SpaceOutSymbols(LStrip(x)), []) == SplitFrom(SpaceOutSymbols(x), [])
    decreases |x|
  {
    if |x| > 0 && IsSpace(x[0]) {
      assert x == [x[0]] + x[1..];
      SpaceOutCons(x[0], x[1..]);
      SplitCons(x[0], SpaceOutSymbols(x[1..]), []);
      SplitSpaceOutLStrip(x[1..]);
    }
  }

  /** Collapsing whitespace before spacing out symbols changes no word. */
  lemma {:induction false} SplitSpaceOutCollapse(s: string, cur: string)
    ensures SplitFrom(SpaceOutSymbols(CollapseSpace(s)), cur) == SplitFrom(SpaceOutSymbols(s), cur)
    decreases |s|
  {
    if |s| > 0 {
      var x := s[0];
      assert s == [x] + s[1..];
      SpaceOutCons(x, s[1..]);
      if IsSpace(x) {
        var rest := CollapseSpace(LStrip(s));
        assert CollapseSpace(s) == [' '] + rest;
        SpaceOutCons(' ', rest);
        SplitCons(' ', SpaceOutSymbols(rest), cur);
        SplitSpaceOutCollapse(LStrip(s), []);
        assert LStrip(s) == LStrip(s[1..]);
        SplitSpaceOutLStrip(s[1..]);
        SplitCons(x, SpaceOutSymbols(s[1..]), cur);
      } else {
        var rest := CollapseSpace(s[1..]);
        assert CollapseSpace(s) == [x] + rest;
        SpaceOutCons(x, rest);
        if IsSymbol(x) {
          SplitSpacedChar(x, SpaceOutSymbols(rest), cur);
          SplitSpacedChar(x, SpaceOutSymbols(s[1..]), cur);
          SplitSpaceOutCollapse(s[1..], []);
        } else {
          SplitCons(x, SpaceOutSymbols(rest), cur);
          SplitCons(x, SpaceOutSymbols(s[1..]), cur);
          SplitSpaceOutCollapse(s[1..], cur + [x]);
        }
      }
    }
  }

  /** `preprocess_code` keeps every non-whitespace character that survives
      comment removal, in order. */
  lemma PreprocessCodeKeepsContent(code: string)
    ensures RemoveSpace(PreprocessCode(code)) == RemoveSpace(StripComments(UnescapeJson(code)))
  {
    var c := StripComments(UnescapeJson(code));
    var w := CollapseSpace(c);
    var x := SpaceOutSymbols(w);
    CollapseKeepsContent(c);
    SpaceOutSymbolsContent(w);
    RemoveSpaceLStrip(x);
    RemoveSpaceRStrip(LStrip(x));
  }

  // ---------------------------------------------------------------------
  // Lemmas

  /** Collapsing whitespace adds no character but the space. */
  lemma {:induction false} CollapseChars(s: string)
    ensures forall c :: c in CollapseSpace(s) ==> c == ' ' || c in s
    decreases |s|
  {
    if |s| > 0 {
      if IsSpace(s[0]) {
        var l := LStrip(s);
        CollapseChars(l);
        assert forall c :: c in l ==> c in s;
      } else {
        CollapseChars(s[1..]);
        assert forall c :: c in s[1..] ==> c in s;
      }
    }
  }

  /** `Strip(s)` is a slice of `s`. */
  lemma StripSlice(s: string) returns (a: nat)
    ensures a + |Strip(s)| <= |s| && Strip(s) == s[a..a + |Strip(s)|]
  {
    var l := LStrip(s);
    a := |s| - |l|;
    var r := RStrip(l);
    assert r == l[..|r|] == s[a..a + |r|];
  }

  /** Whitespace normalization adds no character but the space. */
  lemma NormalizeSpaceChars(s: string)
    ensures forall c :: c in NormalizeSpace(s) ==> c == ' ' || c in s
  {
    var w := CollapseSpace(s);
    CollapseChars(s);
    var a := StripSlice(w);
    assert forall c :: c in Strip(w) ==> c in w;
  }

  /** Stripping a string whose symbols are spaced out leaves them spaced out
      except at the ends. */
  lemma StripKeepsSpaced(x: string)
    requires SymbolsSpaced(x)
    ensures SymbolsSpacedInside(Strip(x))
  {
    var a := StripSlice(x);
    var r := Strip(x);
    forall i | 0 <= i < |r|
      ensures r[i] == x[a + i]
    {
    }
    SymbolsSpacedWithin(x, r, a);
  }

  /** A stretch of text whose symbols are spaced inside has its symbols
      spaced inside. */
  lemma SymbolsSpacedWithin(x: string, u: string, lo: nat)
    requires SymbolsSpacedInside(x) && lo + |u| <= |x|
    requires forall i :: 0 <= i < |u| ==> u[i] == x[lo + i]
    ensures SymbolsSpacedInside(u)
  {
    forall i, j | 0 <= i < |u| && 0 <= j < |u| && (j == i - 1 || j == i + 1) && IsSymbol(u[i])
      ensures u[j] == ' '
    {
      assert u[i] == x[lo + i] && u[j] == x[lo + j];
    }
  }

  /** Stripping adds no character. */
  lemma StripKeepsChars(x: string)
    ensures forall c :: c in Strip(x) ==> c in x
  {
    var a := StripSlice(x);
    assert forall c :: c in x[a..a + |Strip(x)|] ==> c in x;
  }

  /** A single-spaced string has no whitespace but the space. */
  lemma SingleSpacedPlain(t: string)
    requires SingleSpaced(t)
    ensures OnlyPlainSpaces(t)
  {
    forall c | c in t && IsSpace(c)
      ensures c == ' '
    {
      var i :| 0 <= i < |t| && t[i] == c;
    }
  }

  /** After spacing out, every symbol has a space on both sides. */
  lemma {:induction false} SpaceOutSymbolsSpaced(s: string)
    ensures SymbolsSpaced(SpaceOutSymbols(s))
    decreases |s|
  {
    if |s| > 0 {
      SpaceOutSymbolsSpaced(s[1..]);
      var t := SpaceOutSymbols(s[1..]);
      var h := if IsSymbol(s[0]) then [' ', s[0], ' '] else [s[0]];
      var r := h + t;
      assert SpaceOutSymbols(s) == r;
      forall i | 0 <= i < |r| && IsSymbol(r[i])
        ensures 0 < i < |r| - 1
      {
        if i >= |h| {
          assert r[i] == t[i - |h|];
        }
      }
      forall i, j | 0 <= i < |r| && 0 <= j < |r| && (j == i - 1 || j == i + 1) && IsSymbol(r[i])
        ensures r[j] == ' '
      {
        if i >= |h| {
          assert r[i] == t[i - |h|];
          assert t[i - |h|] == r[i];
          if j >= |h| {
            assert r[j] == t[j - |h|];
          } else {
            assert false;
          }
        }
      }
    }
  }

  /** Spacing out symbols adds no character but the space. */
  lemma {:induction false} SpaceOutSymbolsChars(s: string)
    ensures forall c :: c in SpaceOutSymbols(s) ==> c == ' ' || c in s
    decreases |s|
  {
    if |s| > 0 {
      SpaceOutSymbolsChars(s[1..]);
      assert forall c :: c in s[1..] ==> c in s;
    }
  }

  /** Spacing out symbols keeps every non-whitespace character, in order. */
  lemma {:induction false} SpaceOutSymbolsContent(s: string)
    ensures RemoveSpace(SpaceOutSymbols(s)) == RemoveSpace(s)
    decreases |s|
  {
    if |s| > 0 {
      SpaceOutSymbolsContent(s[1..]);
      var t := SpaceOutSymbols(s[1..]);
      if IsSymbol(s[0]) {
        RemoveSpaceAppend([' ', s[0], ' '], t);
        assert RemoveSpace([' ', s[0], ' ']) == [s[0]] by {
          var u := [' ', s[0], ' '];
          assert u[1..] == [s[0], ' '];
          assert [s[0], ' '][1..] == [' '];
          assert [' '][1..] == [];
          assert RemoveSpace([' ']) == [];
          assert RemoveSpace([s[0], ' ']) == [s[0]] + RemoveSpace([' ']);
        }
      } else {
        RemoveSpaceAppend([s[0]], t);
        assert [s[0]][1..] == [];
      }
      assert s == [s[0]] + s[1..];
      RemoveSpaceAppend([s[0]], s[1..]);
      assert [s[0]][1..] == [];
    }
  }

  /** Line-comment removal adds no character, keeps every newline, and leaves
      no one-character marker behind. */
  lemma {:induction false} DropLineCommentsChars(s: string, marker: string)
    requires |marker| > 0 && marker[0] != '\n'
    ensures forall c :: c in DropLineComments(s, marker) ==> c in s
    ensures |marker| == 1 ==> marker[0] !in DropLineComments(s, marker)
    decreases |s|
  {
    if |s| > 0 {
      if IsPrefix(marker, s) {
        var n := FromNewline(s);
        DropLineCommentsChars(n, marker);
        assert forall c :: c in n ==> c in s;
      } else {
        DropLineCommentsChars(s[1..], marker);
        assert forall c :: c in s[1..] ==> c in s;
        if |marker| == 1 {
          assert s[..1] == [s[0]] && marker == [marker[0]];
        }
      }
    }
  }

  /** Text in which the marker's first character does not occur passes
      line-comment removal unchanged. */
  lemma {:induction false} DropLineCommentsUnchanged(s: string, marker: string)
    requires |marker| > 0 && marker[0] != '\n' && marker[0] !in s
    ensures DropLineComments(s, marker) == s
    decreases |s|
  {
    if |s| > 0 {
      assert !IsPrefix(marker, s) by {
        if |marker| <= |s| {
          assert s[..|marker|][0] == s[0];
        }
      }
      assert marker[0] !in s[1..];
      DropLineCommentsUnchanged(s[1..], marker);
      assert s == [s[0]] + s[1..];
    }
  }

  /** Comment removal leaves no `#` and adds no character. */
  lemma StripCommentsNoHash(code: string)
    ensures '#' !in StripComments(code)
    ensures forall c :: c in StripComments(code) ==> c in code
  {
    var a := DropLineComments(code, "#");
    var b := DropLineComments(a, "//");
    DropLineCommentsChars(code, "#");
    DropLineCommentsChars(a, "//");
    SubstituteRemoveChars(b, "/*", "*/");
  }
}

/** The two escaping routines of Preprocessor/data_preprocessor.py:
    `unescape_json`, which undoes JSON-style backslash escapes left in the
    scraped text, and `sanitize_code_block`, which makes the inside of a
    `<code>` element safe to sit inside a JSON string literal. */
module Escaping {
  import opened Strings

  /** `unescape_json`: six literal replacements applied one after the other,
      in the order of `unescape_json`'s mapping. The newline, tab and carriage
      return escapes become a plain space. */
  function UnescapeJson(text: string): string {
    var t1 := Replace(text, "\\\"", "\"");
    var t2 := Replace(t1, "\\n", " ");
    var t3 := Replace(t2, "\\t", " ");
    var t4 := Replace(t3, "\\r", " ");
    var t5 := Replace(t4, "\\\\", "\\");
    Replace(t5, "\\/", "/")
  }

  /** Text without a backslash has nothing to unescape. */
  lemma UnescapeWithoutBackslash(text: string)
    requires '\\' !in text
    ensures UnescapeJson(text) == text
  {
    ReplaceAbsent(text, "\\\"", "\"");
    ReplaceAbsent(text, "\\n", " ");
    ReplaceAbsent(text, "\\t", " ");
    ReplaceAbsent(text, "\\r", " ");
    ReplaceAbsent(text, "\\\\", "\\");
    ReplaceAbsent(text, "\\/", "/");
  }

  /** The first five steps of `sanitize_code_block`: backslashes doubled, then
      quotes escaped, then newline, carriage return and tab written as their
      two-character escapes. */
  function EscapeSpecials(code: string): string {
    var c1 := Replace(code, "\\", "\\\\");
    var c2 := Replace(c1, "\"", "\\\"");
    var c3 := Replace(c2, "\n", "\\n");
    var c4 := Replace(c3, "\r", "\\r");
    Replace(c4, "\t", "\\t")
  }

  /** `re.sub(r'(?<!\\)/', r'\/', s)`: a slash gets a backslash in front unless
      the character before it is a backslash. `afterBackslash` tells whether
      the character just before `s` is one. */
  function EscapeBareSlashes(s: string, afterBackslash: bool): string
    decreases |s|
  {
    if |s| == 0 then []
    else
      (if s[0] == '/' && !afterBackslash then "\\/" else [s[0]])
      + EscapeBareSlashes(s[1..], s[0] == '\\')
  }

  /** How one character of a code block is written out, given whether the
      character before it in the block is a backslash. */
  function EscapeChar(c: char, afterBackslash: bool): string {
    if c == '\\' then "\\\\"
    else if c == '"' then "\\\""
    else if c == '\n' then "\\n"
    else if c == '\r' then "\\r"
    else if c == '\t' then "\\t"
    else if c == '/' && !afterBackslash then "\\/"
    else [c]
  }

  /** A character-by-character reading of `sanitize_code_block`, independent of
      the order of its replacement steps. The result has no raw newline,
      carriage return or tab, every quote follows a backslash, and every slash
      follows a backslash (or `afterBackslash` holds when it comes first). */
  function EscapeEach(s: string, afterBackslash: bool): (r: string)
    ensures forall i :: 0 <= i < |r| ==> r[i] != '\n' && r[i] != '\r' && r[i] != '\t'
    ensures |r| > 0 ==> r[0] != '"' && (r[0] == '/' ==> afterBackslash)
    ensures forall i, j :: 0 <= i < |r| && 0 <= j < |r| && j == i + 1 && (r[j] == '"' || r[j] == '/') ==> r[i] == '\\'
    decreases |s|
  {
    if |s| == 0 then []
    else
      var p := EscapeChar(s[0], afterBackslash);
      var q := EscapeEach(s[1..], s[0] == '\\');
      assert |p| > 0 && (s[0] == '\\' <==> p[|p| - 1] == '\\');
      assert forall i :: |p| <= i < |p + q| ==> (p + q)[i] == q[i - |p|];
      p + q
  }

  /** `sanitize_code_block`. The result has no raw newline, carriage return or
      tab, and every quote and every slash in it comes right after a
      backslash. */
  function SanitizeCodeBlock(code: string): (r: string)
    ensures forall i :: 0 <= i < |r| ==> r[i] != '\n' && r[i] != '\r' && r[i] != '\t'
    ensures |r| > 0 ==> r[0] != '"' && r[0] != '/'
    ensures forall i, j :: 0 <= i && j == i + 1 && j < |r| && (r[j] == '"' || r[j] == '/') ==> r[i] == '\\'
  {
    SanitizeIsCharwise(code);
    EscapeBareSlashes(EscapeSpecials(code), false)
  }

  // ---------------------------------------------------------------------
  // SanitizeCodeBlock agrees with EscapeEach

  /** EscapeSpecials escapes each character on its own. */
  lemma EscapeSpecialsAppend(a: string, b: string)
    ensures EscapeSpecials(a + b) == EscapeSpecials(a) + EscapeSpecials(b)
  {
    var a1, b1 := Replace(a, "\\", "\\\\"), Replace(b, "\\", "\\\\");
    ReplaceCharAppend(a, b, '\\', "\\\\");
    var a2, b2 := Replace(a1, "\"", "\\\""), Replace(b1, "\"", "\\\"");
    ReplaceCharAppend(a1, b1, '"', "\\\"");
    var a3, b3 := Replace(a2, "\n", "\\n"), Replace(b2, "\n", "\\n");
    ReplaceCharAppend(a2, b2, '\n', "\\n");
    var a4, b4 := Replace(a3, "\r", "\\r"), Replace(b3, "\r", "\\r");
    ReplaceCharAppend(a3, b3, '\r', "\\r");
    ReplaceCharAppend(a4, b4, '\t', "\\t");
  }

  /** Replacing a character that a two-character string does not contain. */
  lemma ReplacePairUnchanged(x: char, y: char, c: char, replacement: string)
    requires x != c && y != c
    ensures Replace([x, y], [c], replacement) == [x, y]
  {
    assert [x, y] == [x] + [y];
    ReplaceCharAppend([x], [y], c, replacement);
    ReplaceCharSingle(x, c, replacement);
    ReplaceCharSingle(y, c, replacement);
  }

  /** What EscapeSpecials makes of one character. */
  lemma EscapeSpecialsChar(x: char)
    ensures EscapeSpecials([x]) == EscapeChar(x, true)
  {
    ReplaceCharSingle(x, '\\', "\\\\");
    if x == '\\' {
      ReplacePairUnchanged('\\', '\\', '"', "\\\"");
      ReplacePairUnchanged('\\', '\\', '\n', "\\n");
      ReplacePairUnchanged('\\', '\\', '\r', "\\r");
      ReplacePairUnchanged('\\', '\\', '\t', "\\t");
    } else {
      ReplaceCharSingle(x, '"', "\\\"");
      if x == '"' {
        ReplacePairUnchanged('\\', '"', '\n', "\\n");
        ReplacePairUnchanged('\\', '"', '\r', "\\r");
        ReplacePairUnchanged('\\', '"', '\t', "\\t");
      } else {
        ReplaceCharSingle(x, '\n', "\\n");
        if x == '\n' {
          ReplacePairUnchanged('\\', 'n', '\r', "\\r");
          ReplacePairUnchanged('\\', 'n', '\t', "\\t");
        } else {
          ReplaceCharSingle(x, '\r', "\\r");
          if x == '\r' {
            ReplacePairUnchanged('\\', 'r', '\t', "\\t");
          } else {
            ReplaceCharSingle(x, '\t', "\\t");
          }
        }
      }
    }
  }

  /** EscapeBareSlashes over a concatenation: the second part sees whether the
      first part ends in a backslash. */
  lemma {:induction false} EscapeBareSlashesAppend(a: string, b: string, afterBackslash: bool)
    requires |a| > 0
    ensures EscapeBareSlashes(a + b, afterBackslash)
         == EscapeBareSlashes(a, afterBackslash) + EscapeBareSlashes(b, a[|a| - 1] == '\\')
    decreases |a|
  {
    assert (a + b)[0] == a[0];
    assert (a + b)[1..] == a[1..] + b;
    if |a| > 1 {
      EscapeBareSlashesAppend(a[1..], b, a[0] == '\\');
    } else {
      assert a[1..] + b == b;
    }
  }

  /** EscapeBareSlashes on what EscapeSpecials made of one character. */
  lemma EscapeBareSlashesChar(x: char, afterBackslash: bool)
    ensures EscapeBareSlashes(EscapeChar(x, true), afterBackslash) == EscapeChar(x, afterBackslash)
  {
    var e := EscapeChar(x, true);
    if |e| == 2 {
      assert e == [e[0]] + [e[1]];
      EscapeBareSlashesAppend([e[0]], [e[1]], afterBackslash);
    }
  }

  /** The replacement steps of `sanitize_code_block` escape each character on
      its own, except that a slash looks at the character before it. */
  lemma {:induction false} SanitizeIsCharwiseFrom(s: string, afterBackslash: bool)
    ensures EscapeBareSlashes(EscapeSpecials(s), afterBackslash) == EscapeEach(s, afterBackslash)
    decreases |s|
  {
    if |s| == 0 {
      assert EscapeSpecials(s) == [];
    } else {
      assert s == [s[0]] + s[1..];
      EscapeSpecialsAppend([s[0]], s[1..]);
      EscapeSpecialsChar(s[0]);
      var e := EscapeChar(s[0], true);
      EscapeBareSlashesAppend(e, EscapeSpecials(s[1..]), afterBackslash);
      EscapeBareSlashesChar(s[0], afterBackslash);
      SanitizeIsCharwiseFrom(s[1..], s[0] == '\\');
    }
  }

  /** `sanitize_code_block` agrees with the character-wise reading. */
  lemma SanitizeIsCharwise(code: string)
    ensures EscapeBareSlashes(EscapeSpecials(code), false) == EscapeEach(code, false)
  {
    SanitizeIsCharwiseFrom(code, false);
  }

  // ---------------------------------------------------------------------
  // Round trip

  /** A code block with its slashes written as `\/` and nothing else escaped. */
  function SlashesEscaped(s: string): (r: string)
    ensures |r| > 0 ==> r[|r| - 1] != '\\'
    ensures forall i, j :: 0 <= i < |r| && 0 <= j < |r| && j == i + 1 && r[i] == '\\' ==> r[j] == '/'
    requires '\\' !in s
    decreases |s|
  {
    if |s| == 0 then []
    else
      var p := if s[0] == '/' then "\\/" else [s[0]];
      var q := SlashesEscaped(s[1..]);
      assert forall j :: |p| <= j < |p + q| ==> (p + q)[j] == q[j - |p|];
      p + q
  }

  /** Undoing the quote escapes leaves only the slash escapes. */
  lemma {:induction false} UnescapeQuotes(s: string)
    requires '\\' !in s && '\n' !in s && '\r' !in s && '\t' !in s
    ensures Replace(EscapeEach(s, false), "\\\"", "\"") == SlashesEscaped(s)
    decreases |s|
  {
    if |s| > 0 {
      var x, rest := s[0], s[1..];
      assert x != '\\' by { assert x in s; }
      assert x != '\n' && x != '\r' && x != '\t' by { assert x in s; }
      assert forall c :: c in rest ==> c in s;
      var q := EscapeEach(rest, false);
      assert EscapeEach(s, false) == EscapeChar(x, false) + q;
      assert SlashesEscaped(s) == (if x == '/' then "\\/" else [x]) + SlashesEscaped(rest);
      UnescapeQuotes(rest);
      if x == '"' {
        ReplaceHeadHit("\\\"", "\"", q);
      } else if x == '/' {
        UnescapeQuotesSlash(q);
      } else {
        assert EscapeChar(x, false) == [x];
        ReplaceSkipChar(x, q, "\\\"", "\"");
      }
    }
  }

  /** An escaped slash is left alone by the quote step. */
  lemma UnescapeQuotesSlash(q: string)
    ensures Replace("\\/" + q, "\\\"", "\"") == "\\/" + Replace(q, "\\\"", "\"")
  {
    assert "\\/" + q == ['\\'] + (['/'] + q);
    var t := ['/'] + q;
    assert !IsPrefix("\\\"", ['\\'] + t);
    ReplaceSkip(['\\'] + t, "\\\"", "\"");
    assert (['\\'] + t)[1..] == t;
    ReplaceSkipChar('/', q, "\\\"", "\"");
  }

  /** In text whose every backslash is followed by a slash, only `\/` escapes
      can match. */
  lemma OnlySlashEscapes(u: string, c: char, replacement: string)
    requires c != '/'
    requires |u| > 0 ==> u[|u| - 1] != '\\'
    requires forall i, j :: 0 <= i < |u| && 0 <= j < |u| && j == i + 1 && u[i] == '\\' ==> u[j] == '/'
    ensures Replace(u, ['\\', c], replacement) == u
  {
    forall j | 0 <= j < |u|
      ensures !IsPrefix(['\\', c], u[j..])
    {
      assert j + 1 < |u| ==> u[j..][0] == u[j] && u[j..][1] == u[j + 1];
    }
    ReplaceNoOccurrence(u, ['\\', c], replacement);
  }

  /** Undoing the slash escapes gives the code block back. */
  lemma {:induction false} UnescapeSlashes(s: string)
    requires '\\' !in s
    ensures Replace(SlashesEscaped(s), "\\/", "/") == s
    decreases |s|
  {
    if |s| > 0 {
      var q := SlashesEscaped(s[1..]);
      assert '\\' !in s[1..] by { assert forall c :: c in s[1..] ==> c in s; }
      UnescapeSlashes(s[1..]);
      if s[0] == '/' {
        ReplaceHeadHit("\\/", "/", q);
      } else {
        assert s[0] != '\\' by { assert s[0] in s; }
        ReplaceSkipChar(s[0], q, "\\/", "/");
      }
      assert s == [s[0]] + s[1..];
    }
  }

  /** Round trip: a code block with no backslash, newline, carriage return or
      tab comes back unchanged from `unescape_json(sanitize_code_block(...))`.
      Newlines, carriage returns and tabs would come back as spaces, and a
      backslash could pair with the next character, so the premise cannot be
      dropped. */
  lemma UnescapeSanitize(s: string)
    requires '\\' !in s && '\n' !in s && '\r' !in s && '\t' !in s
    ensures UnescapeJson(SanitizeCodeBlock(s)) == s
  {
    SanitizeIsCharwise(s);
    UnescapeQuotes(s);
    var u := SlashesEscaped(s);
    OnlySlashEscapes(u, 'n', " ");
    OnlySlashEscapes(u, 't', " ");
    OnlySlashEscapes(u, 'r', " ");
    OnlySlashEscapes(u, '\\', "\\");
    assert "\\n" == ['\\', 'n'] && "\\t" == ['\\', 't'] && "\\r" == ['\\', 'r'] && "\\\\" == ['\\', '\\'];
    UnescapeSlashes(s);
  }
}

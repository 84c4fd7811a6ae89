/** Character classes and the string primitives that the preprocessor and `wrangling.py` take from
    Python's `str` methods and from the `re` patterns `\s`, `\s+` and `\w`.
    Character classes are the ASCII ones. */
module Strings {
  import opened Results

  /** `\s` and `str.isspace` on ASCII: space, tab, newline, vertical tab,
      form feed, carriage return, and the four separators U+001C to U+001F. */
  predicate IsSpace(c: char) {
    c == ' ' || '\t' <= c <= '\r' || '\U{001C}' <= c <= '\U{001F}'
  }

  predicate IsDigit(c: char) { '0' <= c <= '9' }

  predicate IsLower(c: char) { 'a' <= c <= 'z' }

  predicate IsUpper(c: char) { 'A' <= c <= 'Z' }

  /** `\w` on ASCII: letters, digits and the underscore. */
  predicate IsWordChar(c: char) { IsLower(c) || IsUpper(c) || IsDigit(c) || c == '_' }

  /** `s.startswith(p)`. */
  predicate IsPrefix(p: string, s: string) {
    |p| <= |s| && s[..|p|] == p
  }

  /** Python's `s.replace(old, new)`: every leftmost, non-overlapping
      occurrence of `old` (here `target`) is replaced by `new`, scanning left to right. */
  function Replace(s: string, target: string, replacement: string): string
    requires |target| > 0
    decreases |s|
  {
    if |s| < |target| then s
    else if s[..|target|] == target then replacement + Replace(s[|target|..], target, replacement)
    else [s[0]] + Replace(s[1..], target, replacement)
  }

  /** The index of the first occurrence of `pat` in `s`, if there is one. */
  function Find(s: string, pat: string): (r: Option<nat>)
    requires |pat| > 0
    ensures r.Some? ==> r.value + |pat| <= |s|
    decreases |s|
  {
    if |s| < |pat| then None
    else if IsPrefix(pat, s) then Some(0)
    else
      match Find(s[1..], pat)
      case Some(k) => Some(k + 1)
      case None => None
  }

  /** Find returns the first occurrence, and finds nothing only where `pat`
      occurs nowhere. */
  lemma {:induction false} FindSpec(s: string, pat: string)
    requires |pat| > 0
    ensures Find(s, pat).Some? ==> IsPrefix(pat, s[Find(s, pat).value..])
    ensures Find(s, pat).Some? ==> forall j :: 0 <= j < Find(s, pat).value ==> !IsPrefix(pat, s[j..])
    ensures Find(s, pat).None? ==> forall j :: 0 <= j <= |s| ==> !IsPrefix(pat, s[j..])
    decreases |s|
  {
    if |s| >= |pat| && !IsPrefix(pat, s) {
      FindSpec(s[1..], pat);
      assert forall j :: 1 <= j <= |s| ==> s[j..] == s[1..][j - 1..];
      if Find(s[1..], pat).Some? {
        var k := Find(s[1..], pat).value;
        assert s[k + 1..] == s[1..][k..];
      }
    }
  }

  /** Find returns the first occurrence. */
  lemma FindFirst(s: string, pat: string, k: nat)
    requires |pat| > 0 && k + |pat| <= |s| && IsPrefix(pat, s[k..])
    requires forall j :: 0 <= j < k ==> !IsPrefix(pat, s[j..])
    ensures Find(s, pat) == Some(k)
  {
    FindSpec(s, pat);
  }

  /** `s.lstrip()`: the leading whitespace removed. */
  function LStrip(s: string): (r: string)
    ensures |r| <= |s| && r == s[|s| - |r|..]
    ensures |r| > 0 ==> !IsSpace(r[0])
    ensures |s| > 0 && IsSpace(s[0]) ==> |r| < |s|
    decreases |s|
  {
    if |s| > 0 && IsSpace(s[0]) then
      var r := LStrip(s[1..]);
      assert s[1..][|s| - 1 - |r|..] == s[|s| - |r|..];
      r
    else s
  }

  /** What `lstrip` removes is whitespace. */
  lemma {:induction false} LStripSpaces(s: string)
    ensures forall i :: 0 <= i < |s| - |LStrip(s)| ==> IsSpace(s[i])
  {
    forall i | 0 <= i < |s| - |LStrip(s)|
      ensures IsSpace(s[i])
    {
      LStripSpaceAt(s, i);
    }
  }

  /** The `i`-th character, when `lstrip` removes it, is whitespace. */
  lemma {:induction false} LStripSpaceAt(s: string, i: nat)
    requires i < |s| - |LStrip(s)|
    ensures IsSpace(s[i])
    decreases i
  {
    assert IsSpace(s[0]);
    if i > 0 {
      var t := s[1..];
      assert |LStrip(s)| == |LStrip(t)|;
      LStripSpaceAt(t, i - 1);
      assert s[i] == t[i - 1];
    }
  }

  /** `s.rstrip()`: the trailing whitespace removed. */
  function RStrip(s: string): (r: string)
    ensures |r| <= |s| && r == s[..|r|]
    ensures |r| > 0 ==> !IsSpace(r[|r| - 1])
    decreases |s|
  {
    if |s| > 0 && IsSpace(s[|s| - 1]) then
      var r := RStrip(s[..|s| - 1]);
      assert s[..|s| - 1][..|r|] == s[..|r|];
      r
    else s
  }

  /** What `rstrip` removes is whitespace. */
  lemma {:induction false} RStripSpaces(s: string)
    ensures forall i :: |RStrip(s)| <= i < |s| ==> IsSpace(s[i])
    decreases |s|
  {
    if |s| > 0 && IsSpace(s[|s| - 1]) {
      RStripSpaces(s[..|s| - 1]);
    }
  }

  /** `s.strip()`. */
  function Strip(s: string): string {
    RStrip(LStrip(s))
  }

  /** The first character of `s` that is not whitespace. */
  function NextNonSpace(s: string): Option<char>
    decreases |s|
  {
    if |s| == 0 then None
    else if IsSpace(s[0]) then NextNonSpace(s[1..])
    else Some(s[0])
  }

  /** The first non-whitespace character is where `lstrip` stops. */
  lemma {:induction false} NextNonSpaceLStrip(s: string)
    ensures NextNonSpace(s) == if |LStrip(s)| == 0 then None else Some(LStrip(s)[0])
    decreases |s|
  {
    if |s| > 0 && IsSpace(s[0]) {
      NextNonSpaceLStrip(s[1..]);
    }
  }

  /** The first non-whitespace character of a string that starts with `c`. */
  lemma NextNonSpaceCons(c: char, t: string)
    ensures NextNonSpace([c] + t) == if IsSpace(c) then NextNonSpace(t) else Some(c)
  {
    assert ([c] + t)[1..] == t;
  }

  /** No whitespace other than the plain space, and never two spaces in a row. */
  predicate SingleSpaced(t: string) {
    && (forall i :: 0 <= i < |t| && IsSpace(t[i]) ==> t[i] == ' ')
    && (forall i, j :: 0 <= i < |t| && 0 <= j < |t| && j == i + 1 && t[i] == ' ' ==> t[j] != ' ')
  }

  /** No whitespace at either end. */
  predicate Trimmed(t: string) {
    |t| > 0 ==> !IsSpace(t[0]) && !IsSpace(t[|t| - 1])
  }

  /** What `re.sub(r'\s+', ' ', s).strip()` produces. */
  predicate Normalized(t: string) {
    SingleSpaced(t) && Trimmed(t)
  }

  /** The non-whitespace characters of `s`, in order. */
  function RemoveSpace(s: string): (r: string)
    ensures forall i :: 0 <= i < |r| ==> !IsSpace(r[i])
    ensures |r| <= |s|
    decreases |s|
  {
    if |s| == 0 then []
    else if IsSpace(s[0]) then RemoveSpace(s[1..])
    else [s[0]] + RemoveSpace(s[1..])
  }

  /** `re.sub(r'\s+', ' ', s)`: each maximal whitespace run becomes one space. */
  function CollapseSpace(s: string): (r: string)
    ensures SingleSpaced(r)
    ensures |s| > 0 ==> |r| > 0 && r[0] == (if IsSpace(s[0]) then ' ' else s[0])
    decreases |s|
  {
    if |s| == 0 then []
    else if IsSpace(s[0]) then [' '] + CollapseSpace(LStrip(s))
    else [s[0]] + CollapseSpace(s[1..])
  }

  /** `re.sub(r'\s+', ' ', s).strip()`, the whitespace step of the
      preprocessor's cleaners and of `wrangling.py`'s hash key. */
  function NormalizeSpace(s: string): (r: string)
    ensures Normalized(r)
  {
    var c := CollapseSpace(s);
    StripKeepsSingleSpaced(c);
    Strip(c)
  }

  /** Text that is already single-spaced passes CollapseSpace unchanged. */
  lemma {:induction false} CollapseSpaceFixed(s: string)
    requires SingleSpaced(s)
    ensures CollapseSpace(s) == s
    decreases |s|
  {
    if |s| > 0 {
      SingleSpacedSlice(s, 1, |s|);
      if IsSpace(s[0]) {
        assert |s| > 1 ==> !IsSpace(s[1]);
        assert LStrip(s) == s[1..] by {
          if |s| > 1 {
            assert !IsSpace(s[1..][0]);
          }
        }
      }
      CollapseSpaceFixed(s[1..]);
      assert s == [s[0]] + s[1..];
    }
  }

  /** NormalizeSpace leaves normalized text alone. */
  lemma NormalizeSpaceFixed(s: string)
    requires Normalized(s)
    ensures NormalizeSpace(s) == s
  {
    CollapseSpaceFixed(s);
    assert LStrip(s) == s && RStrip(s) == s;
  }

  /** Python's `str.lower` on ASCII characters. */
  function ToLower(c: char): (r: char)
    ensures IsUpper(c) ==> IsLower(r)
    ensures !IsUpper(c) ==> r == c
  {
    if IsUpper(c) then (c as int + 32) as char else c
  }

  /** `s.lower()` on ASCII text. */
  function Lower(s: string): (r: string)
    ensures |r| == |s|
    ensures forall i :: 0 <= i < |s| ==> r[i] == ToLower(s[i])
  {
    seq(|s|, i requires 0 <= i < |s| => ToLower(s[i]))
  }

  // ---------------------------------------------------------------------
  // Lemmas about Replace

  /** A string that does not start with `target` keeps its first character,
      and scanning resumes at the second. */
  lemma ReplaceSkip(s: string, target: string, replacement: string)
    requires |target| > 0 && |s| > 0 && !IsPrefix(target, s)
    ensures Replace(s, target, replacement) == [s[0]] + Replace(s[1..], target, replacement)
  {
    if |s| < |target| {
      assert Replace(s[1..], target, replacement) == s[1..];
    }
  }

  /** A first character that cannot start `target` is kept. */
  lemma ReplaceSkipChar(x: char, rest: string, target: string, replacement: string)
    requires |target| > 0 && x != target[0]
    ensures Replace([x] + rest, target, replacement) == [x] + Replace(rest, target, replacement)
  {
    assert ([x] + rest)[0] == x;
    ReplaceSkip([x] + rest, target, replacement);
    assert ([x] + rest)[1..] == rest;
  }

  /** An occurrence at the front is replaced and scanning resumes after it. */
  lemma ReplaceHeadHit(target: string, replacement: string, rest: string)
    requires |target| > 0
    ensures Replace(target + rest, target, replacement) == replacement + Replace(rest, target, replacement)
  {
    assert (target + rest)[..|target|] == target;
    assert (target + rest)[|target|..] == rest;
  }

  /** Replace changes nothing when `target` does not occur. */
  lemma {:induction false} ReplaceNoOccurrence(s: string, target: string, replacement: string)
    requires |target| > 0
    requires forall j :: 0 <= j < |s| ==> !IsPrefix(target, s[j..])
    ensures Replace(s, target, replacement) == s
    decreases |s|
  {
    if |s| >= |target| {
      assert !IsPrefix(target, s[0..]);
      assert s[0..] == s;
      forall j | 0 <= j < |s| - 1
        ensures !IsPrefix(target, s[1..][j..])
      {
        assert s[1..][j..] == s[j + 1..];
      }
      ReplaceNoOccurrence(s[1..], target, replacement);
    }
  }

  /** In particular, Replace changes nothing when the first character of `target`
      does not occur. */
  lemma ReplaceAbsent(s: string, target: string, replacement: string)
    requires |target| > 0 && target[0] !in s
    ensures Replace(s, target, replacement) == s
  {
    forall j | 0 <= j < |s|
      ensures !IsPrefix(target, s[j..])
    {
      assert s[j] in s;
    }
    ReplaceNoOccurrence(s, target, replacement);
  }

  /** Replacing a single character distributes over concatenation. */
  lemma {:induction false} ReplaceCharAppend(a: string, b: string, c: char, replacement: string)
    ensures Replace(a + b, [c], replacement) == Replace(a, [c], replacement) + Replace(b, [c], replacement)
    decreases |a|
  {
    if |a| > 0 {
      assert (a + b)[1..] == a[1..] + b;
      assert (a + b)[..1] == [a[0]];
      assert a[..1] == [a[0]];
      ReplaceCharAppend(a[1..], b, c, replacement);
    } else {
      assert a + b == b;
    }
  }

  /** Replacing a single character in a one-character string. */
  lemma ReplaceCharSingle(x: char, c: char, replacement: string)
    ensures Replace([x], [c], replacement) == if x == c then replacement else [x]
  {
    assert [x][..1] == [x];
    assert [x][1..] == [];
  }

  // ---------------------------------------------------------------------
  // Lemmas about whitespace

  /** Dropping the first or the last character keeps a string single-spaced. */
  lemma SingleSpacedSlice(t: string, lo: nat, hi: nat)
    requires SingleSpaced(t) && lo <= hi <= |t|
    ensures SingleSpaced(t[lo..hi])
  {
    SingleSpacedWithin(t, t[lo..hi], lo);
  }

  /** A stretch of a single-spaced string is single-spaced. */
  lemma SingleSpacedWithin(t: string, u: string, lo: nat)
    requires SingleSpaced(t) && lo + |u| <= |t|
    requires forall i :: 0 <= i < |u| ==> u[i] == t[lo + i]
    ensures SingleSpaced(u)
  {
  }

  /** Stripping a single-spaced string gives a normalized one. */
  lemma StripKeepsSingleSpaced(s: string)
    requires SingleSpaced(s)
    ensures Normalized(Strip(s))
  {
    var l := LStrip(s);
    var r := RStrip(l);
    var lo := |s| - |l|;
    forall i | 0 <= i < |r|
      ensures r[i] == s[lo + i]
    {
      assert r[i] == l[i];
    }
    SingleSpacedWithin(s, r, lo);
  }

  /** Leading whitespace carries no non-whitespace content. */
  lemma {:induction false} RemoveSpaceLStrip(s: string)
    ensures RemoveSpace(LStrip(s)) == RemoveSpace(s)
    decreases |s|
  {
    if |s| > 0 && IsSpace(s[0]) {
      RemoveSpaceLStrip(s[1..]);
    }
  }

  /** Removing whitespace distributes over concatenation. */
  lemma {:induction false} RemoveSpaceAppend(a: string, b: string)
    ensures RemoveSpace(a + b) == RemoveSpace(a) + RemoveSpace(b)
    decreases |a|
  {
    if |a| > 0 {
      assert (a + b)[1..] == a[1..] + b;
      RemoveSpaceAppend(a[1..], b);
    } else {
      assert a + b == b;
    }
  }

  /** Trailing whitespace carries no non-whitespace content. */
  lemma {:induction false} RemoveSpaceRStrip(s: string)
    ensures RemoveSpace(RStrip(s)) == RemoveSpace(s)
    decreases |s|
  {
    if |s| > 0 && IsSpace(s[|s| - 1]) {
      var p := s[..|s| - 1];
      assert s == p + [s[|s| - 1]];
      RemoveSpaceAppend(p, [s[|s| - 1]]);
      RemoveSpaceRStrip(p);
    }
  }

  /** Collapsing whitespace runs keeps every other character, in order. */
  lemma {:induction false} CollapseKeepsContent(s: string)
    ensures RemoveSpace(CollapseSpace(s)) == RemoveSpace(s)
    decreases |s|
  {
    if |s| > 0 {
      if IsSpace(s[0]) {
        RemoveSpaceLStrip(s);
        CollapseKeepsContent(LStrip(s));
      } else {
        CollapseKeepsContent(s[1..]);
      }
    }
  }

  /** The whitespace normalization of the cleaners keeps every
      non-whitespace character, in order, and is idempotent. */
  lemma NormalizeSpaceKeepsContent(s: string)
    ensures RemoveSpace(NormalizeSpace(s)) == RemoveSpace(s)
    ensures NormalizeSpace(NormalizeSpace(s)) == NormalizeSpace(s)
  {
    CollapseKeepsContent(s);
    RemoveSpaceLStrip(CollapseSpace(s));
    RemoveSpaceRStrip(LStrip(CollapseSpace(s)));
    NormalizeSpaceFixed(NormalizeSpace(s));
  }
}

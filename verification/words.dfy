/** Python's `str.split()` with no argument and `' '.join`: the words of a
    text are its maximal runs of non-whitespace characters. They give a
    reading of the whitespace normaliser that does not mention how it is
    computed: `re.sub(r'\s+', ' ', s).strip()` is `' '.join(s.split())`. */
module Words {
  import opened Strings

  /** A word begun and not yet ended, as a list of zero or one words. */
  function Flush(cur: string): seq<string> {
    if |cur| == 0 then [] else [cur]
  }

  /** The words of `cur + s`, where `cur` is the part of a word read so far. */
  function SplitFrom(s: string, cur: string): seq<string>
    decreases |s|
  {
    if |s| == 0 then Flush(cur)
    else if IsSpace(s[0]) then Flush(cur) + SplitFrom(s[1..], [])
    else SplitFrom(s[1..], cur + [s[0]])
  }

  /** `s.split()`. */
  function Split(s: string): seq<string> {
    SplitFrom(s, [])
  }

  /** `' '.join(ws)`. */
  function Join(ws: seq<string>): string
    decreases |ws|
  {
    if |ws| == 0 then []
    else if |ws| == 1 then ws[0]
    else ws[0] + " " + Join(ws[1..])
  }

  /** No character of `w` is whitespace. */
  predicate NoSpace(w: string) {
    forall i :: 0 <= i < |w| ==> !IsSpace(w[i])
  }

  // ---------------------------------------------------------------------
  // Lemmas

  /** Every word is non-empty and holds no whitespace. */
  lemma {:induction false} SplitFromWords(s: string, cur: string)
    requires NoSpace(cur)
    ensures forall k :: 0 <= k < |SplitFrom(s, cur)| ==>
              |SplitFrom(s, cur)[k]| > 0 && NoSpace(SplitFrom(s, cur)[k])
    decreases |s|
  {
    if |s| > 0 {
      if IsSpace(s[0]) {
        SplitFromWords(s[1..], []);
      } else {
        SplitFromWords(s[1..], cur + [s[0]]);
      }
    }
  }

  /** `s.split()` yields non-empty words without whitespace. */
  lemma SplitWords(s: string)
    ensures forall k :: 0 <= k < |Split(s)| ==> |Split(s)[k]| > 0 && NoSpace(Split(s)[k])
  {
    SplitFromWords(s, []);
  }

  /** Whitespace in front of a text ends no word. */
  lemma {:induction false} SplitLStrip(s: string)
    ensures SplitFrom(LStrip(s), []) == SplitFrom(s, [])
    decreases |s|
  {
    if |s| > 0 && IsSpace(s[0]) {
      assert SplitFrom(s, []) == SplitFrom(s[1..], []);
      SplitLStrip(s[1..]);
    }
  }

  /** A whitespace character at the end only ends the word being read. */
  lemma {:induction false} SplitTrailingSpace(p: string, c: char, cur: string)
    requires IsSpace(c)
    ensures SplitFrom(p + [c], cur) == SplitFrom(p, cur)
    decreases |p|
  {
    var s := p + [c];
    if |p| == 0 {
      assert s == [c];
      assert SplitFrom(s, cur) == Flush(cur) + SplitFrom([], []);
    } else {
      assert s[0] == p[0] && s[1..] == p[1..] + [c];
      if IsSpace(p[0]) {
        SplitTrailingSpace(p[1..], c, []);
      } else {
        SplitTrailingSpace(p[1..], c, cur + [p[0]]);
      }
    }
  }

  /** Whitespace at the end of a text ends no word. */
  lemma {:induction false} SplitRStrip(s: string, cur: string)
    ensures SplitFrom(RStrip(s), cur) == SplitFrom(s, cur)
    decreases |s|
  {
    if |s| > 0 && IsSpace(s[|s| - 1]) {
      var p := s[..|s| - 1];
      assert s == p + [s[|s| - 1]];
      SplitTrailingSpace(p, s[|s| - 1], cur);
      SplitRStrip(p, cur);
    }
  }

  /** Collapsing whitespace runs keeps the words. */
  lemma {:induction false} SplitCollapse(s: string, cur: string)
    ensures SplitFrom(CollapseSpace(s), cur) == SplitFrom(s, cur)
    decreases |s|
  {
    if |s| > 0 {
      var c := CollapseSpace(s);
      if IsSpace(s[0]) {
        var rest := CollapseSpace(LStrip(s));
        assert c == [' '] + rest;
        assert c[0] == ' ' && c[1..] == rest;
        assert SplitFrom(c, cur) == Flush(cur) + SplitFrom(rest, []);
        SplitCollapse(LStrip(s), []);
        assert LStrip(s) == LStrip(s[1..]);
        SplitLStrip(s[1..]);
      } else {
        var rest := CollapseSpace(s[1..]);
        assert c == [s[0]] + rest;
        assert c[0] == s[0] && c[1..] == rest;
        SplitCollapse(s[1..], cur + [s[0]]);
      }
    }
  }

  /** `re.sub(r'\s+', ' ', s).strip()` keeps the words of `s`: a whitespace
      run between two words becomes a separator, never nothing. */
  lemma NormalizeSpaceSplit(s: string)
    ensures Split(NormalizeSpace(s)) == Split(s)
  {
    SplitStrip(CollapseSpace(s));
    SplitCollapse(s, []);
  }

  /** `s.strip()` keeps the words of `s`. */
  lemma SplitStrip(s: string)
    ensures Split(Strip(s)) == Split(s)
  {
    SplitRStrip(LStrip(s), []);
    SplitLStrip(s);
  }

  /** Reading one character: whitespace ends the word being read, anything
      else extends it. */
  lemma SplitCons(c: char, y: string, cur: string)
    ensures SplitFrom([c] + y, cur) ==
              if IsSpace(c) then Flush(cur) + SplitFrom(y, []) else SplitFrom(y, cur + [c])
  {
    assert ([c] + y)[0] == c && ([c] + y)[1..] == y;
  }

  /** A non-whitespace character with a space on each side is a word of its
      own. */
  lemma SplitSpacedChar(c: char, y: string, cur: string)
    requires !IsSpace(c)
    ensures SplitFrom([' ', c, ' '] + y, cur) == Flush(cur) + [[c]] + SplitFrom(y, [])
  {
    assert [' ', c, ' '] + y == [' '] + ([c] + ([' '] + y));
    SplitCons(' ', [c] + ([' '] + y), cur);
    SplitCons(c, [' '] + y, []);
    SplitCons(' ', y, [c]);
    assert [] + [c] == [c];
  }

  /** Joining the words of single-spaced text that ends in a word gives the
      text back, after the part of a word already read. */
  lemma {:induction false} JoinSplitFrom(t: string, cur: string)
    requires NoSpace(cur) && SingleSpaced(t)
    requires |t| > 0 ==> !IsSpace(t[|t| - 1])
    requires |cur| == 0 && |t| > 0 ==> !IsSpace(t[0])
    ensures Join(SplitFrom(t, cur)) == cur + t
    decreases |t|
  {
    if |t| == 0 {
      assert cur + t == cur;
    } else {
      var u := t[1..];
      TailSpaced(t);
      if IsSpace(t[0]) {
        SpaceThenWord(t);
        JoinSplitFrom(u, []);
        SplitFromSpace(t, cur);
        JoinCons(cur, SplitFrom(u, []));
        AppendHead(cur, t);
      } else {
        JoinSplitFrom(u, cur + [t[0]]);
        SplitFromWord(t, cur);
        AppendHead(cur, t);
      }
    }
  }

  /** The rest of single-spaced text that ends in a word is such text too. */
  lemma TailSpaced(t: string)
    requires SingleSpaced(t) && |t| > 0 && !IsSpace(t[|t| - 1])
    ensures SingleSpaced(t[1..])
    ensures |t| > 1 ==> !IsSpace(t[1..][|t| - 2])
  {
    SingleSpacedSlice(t, 1, |t|);
  }

  /** A whitespace character ends the word being read. */
  lemma SplitFromSpace(s: string, cur: string)
    requires |s| > 0 && IsSpace(s[0]) && |cur| > 0
    ensures SplitFrom(s, cur) == [cur] + SplitFrom(s[1..], [])
  {
  }

  /** Any other character extends it. */
  lemma SplitFromWord(s: string, cur: string)
    requires |s| > 0 && !IsSpace(s[0])
    ensures SplitFrom(s, cur) == SplitFrom(s[1..], cur + [s[0]])
  {
  }

  /** Text after a prefix, split at its first character. */
  lemma AppendHead(cur: string, t: string)
    requires |t| > 0
    ensures cur + t == cur + [t[0]] + t[1..]
  {
    assert t == [t[0]] + t[1..];
  }

  /** In single-spaced text that ends in a word, a leading whitespace
      character is a plain space followed by a word. */
  lemma SpaceThenWord(t: string)
    requires SingleSpaced(t) && |t| > 0 && IsSpace(t[0]) && !IsSpace(t[|t| - 1])
    ensures t[0] == ' ' && |t| >= 2 && !IsSpace(t[1])
  {
    assert t[0] == ' ';
    assert |t| >= 2;
    assert t[1] != ' ';
  }

  /** Joining a word in front of a non-empty list puts one space after it. */
  lemma JoinCons(w: string, ws: seq<string>)
    requires |ws| > 0
    ensures Join([w] + ws) == w + " " + Join(ws)
  {
    var all := [w] + ws;
    assert all[0] == w && all[1..] == ws;
  }

  /** Normalized text is the join of its words. */
  lemma JoinSplitNormalized(t: string)
    requires Normalized(t)
    ensures Join(Split(t)) == t
  {
    JoinSplitFrom(t, []);
  }

  /** The normaliser, read without its mechanism: `re.sub(r'\s+', ' ',
      s).strip()` is `' '.join(s.split())`. */
  lemma NormalizeSpaceJoin(s: string)
    ensures NormalizeSpace(s) == Join(Split(s))
  {
    NormalizeSpaceSplit(s);
    JoinSplitNormalized(NormalizeSpace(s));
  }

  /** Two normalized texts with the same words are equal. */
  lemma NormalizedByWords(a: string, b: string)
    requires Normalized(a) && Normalized(b) && Split(a) == Split(b)
    ensures a == b
  {
    JoinSplitNormalized(a);
    JoinSplitNormalized(b);
  }
}

/** `clean_html` of WebScraper/wrangling.py on an element tree. BeautifulSoup
    parsing and serialisation, and the whitespace collapse of the serialised
    text, are not modelled: a document is the forest its parser would build,
    and the cleaned document is again a forest. */
module HtmlTree {
  /** A parsed HTML node. Attribute values are lists of words, the form
      BeautifulSoup gives `class`; other attributes hold one value. */
  datatype Node =
    | Element(tag: string, attrs: map<string, seq<string>>, children: seq<Node>)
    | Text(text: string)

  /** The class `find_all(class_='js-post-notice')` looks for. */
  const NoticeClass: string := "js-post-notice"

  /** The tags `clean_html` keeps. */
  const AllowedTags: set<string> := {"p", "code", "a"}

  /** An element carrying the notice class. */
  predicate IsNotice(n: Node) {
    n.Element? && "class" in n.attrs && NoticeClass in n.attrs["class"]
  }

  /** Step 1: every notice element is removed with everything inside it. */
  function RemoveNotices(f: seq<Node>): seq<Node>
    decreases f
  {
    if |f| == 0 then []
    else
      var rest := RemoveNotices(f[1..]);
      match f[0]
      case Text(_) => [f[0]] + rest
      case Element(tag, attrs, children) =>
        if IsNotice(f[0]) then rest
        else [Element(tag, attrs, RemoveNotices(children))] + rest
  }

  /** The attributes step 2 leaves on an element: `href` on `a`, nothing
      elsewhere. */
  function KeptAttrs(tag: string, attrs: map<string, seq<string>>): (r: map<string, seq<string>>)
    ensures tag == "a" ==> r.Keys <= {"href"} && (forall k :: k in r ==> k in attrs && r[k] == attrs[k])
    ensures tag == "a" && "href" in attrs ==> "href" in r
    ensures tag != "a" ==> r == map[]
  {
    if tag == "a" then map k | k in attrs && k == "href" :: attrs[k] else map[]
  }

  /** Step 2: attributes are removed from every element. */
  function StripAttrs(f: seq<Node>): seq<Node>
    decreases f
  {
    if |f| == 0 then []
    else
      var rest := StripAttrs(f[1..]);
      match f[0]
      case Text(_) => [f[0]] + rest
      case Element(tag, attrs, children) =>
        [Element(tag, KeptAttrs(tag, attrs), StripAttrs(children))] + rest
  }

  /** Step 3: every element whose tag is not allowed is replaced by its
      children, which `tag.unwrap()` moves up one level; they are unwrapped
      in turn. */
  function Unwrap(f: seq<Node>): seq<Node>
    decreases f
  {
    if |f| == 0 then []
    else
      var rest := Unwrap(f[1..]);
      match f[0]
      case Text(_) => [f[0]] + rest
      case Element(tag, attrs, children) =>
        if tag in AllowedTags then [Element(tag, attrs, Unwrap(children))] + rest
        else Unwrap(children) + rest
  }

  /** `clean_html` on a parsed document. */
  function CleanForest(f: seq<Node>): seq<Node> {
    Unwrap(StripAttrs(RemoveNotices(f)))
  }

  /** The text of a forest, as `get_text()` concatenates it. */
  function TextOf(f: seq<Node>): string
    decreases f
  {
    if |f| == 0 then []
    else
      match f[0]
      case Text(s) => s + TextOf(f[1..])
      case Element(_, _, children) => TextOf(children) + TextOf(f[1..])
  }

  /** `p` holds of the tag and attributes of every element of the forest,
      at any depth. */
  predicate Every(f: seq<Node>, p: (string, map<string, seq<string>>) -> bool)
    decreases f
  {
    |f| == 0 ||
    (&& (f[0].Element? ==> p(f[0].tag, f[0].attrs) && Every(f[0].children, p))
     && Every(f[1..], p))
  }

  /** The element a tag and attribute map describe is not a notice. */
  predicate NotNotice(tag: string, attrs: map<string, seq<string>>) {
    !("class" in attrs && NoticeClass in attrs["class"])
  }

  /** The attributes are those step 2 leaves. */
  predicate AttrsKept(tag: string, attrs: map<string, seq<string>>) {
    && (tag == "a" ==> attrs.Keys <= {"href"})
    && (tag != "a" ==> attrs == map[])
  }

  predicate TagAllowed(tag: string, attrs: map<string, seq<string>>) {
    tag in AllowedTags
  }

  /** No notice element anywhere in the forest. */
  predicate NoticeFree(f: seq<Node>) {
    Every(f, NotNotice)
  }

  /** The shape `clean_html` promises: only `p`, `code` and `a` elements,
      and no attribute other than the `href` of a link. */
  predicate Clean(f: seq<Node>) {
    Every(f, TagAllowed) && Every(f, AttrsKept)
  }

  lemma {:induction false} EveryAppend(a: seq<Node>, b: seq<Node>, p: (string, map<string, seq<string>>) -> bool)
    ensures Every(a + b, p) <==> Every(a, p) && Every(b, p)
    decreases a
  {
    if |a| > 0 {
      assert (a + b)[0] == a[0];
      assert (a + b)[1..] == a[1..] + b;
      EveryAppend(a[1..], b, p);
    } else {
      assert a + b == b;
    }
  }

  lemma {:induction false} TextOfAppend(a: seq<Node>, b: seq<Node>)
    ensures TextOf(a + b) == TextOf(a) + TextOf(b)
    decreases a
  {
    if |a| > 0 {
      assert (a + b)[0] == a[0];
      assert (a + b)[1..] == a[1..] + b;
      TextOfAppend(a[1..], b);
    } else {
      assert a + b == b;
    }
  }

  /** After step 1 no notice is left, at any depth. */
  lemma {:induction false} RemoveNoticesFree(f: seq<Node>)
    ensures NoticeFree(RemoveNotices(f))
    decreases f
  {
    if |f| > 0 {
      RemoveNoticesFree(f[1..]);
      if f[0].Element? {
        RemoveNoticesFree(f[0].children);
      }
    }
  }

  /** Step 1 removes nothing from a document without notices. */
  lemma {:induction false} RemoveNoticesUnchanged(f: seq<Node>)
    requires NoticeFree(f)
    ensures RemoveNotices(f) == f
    decreases f
  {
    if |f| > 0 {
      RemoveNoticesUnchanged(f[1..]);
      if f[0].Element? {
        RemoveNoticesUnchanged(f[0].children);
      }
    }
  }

  /** After step 2 every element carries only the attributes it may keep. */
  lemma {:induction false} StripAttrsKept(f: seq<Node>)
    ensures Every(StripAttrs(f), AttrsKept)
    decreases f
  {
    if |f| > 0 {
      StripAttrsKept(f[1..]);
      if f[0].Element? {
        StripAttrsKept(f[0].children);
      }
    }
  }

  /** Step 2 changes nothing that already has only kept attributes. */
  lemma {:induction false} StripAttrsUnchanged(f: seq<Node>)
    requires Every(f, AttrsKept)
    ensures StripAttrs(f) == f
    decreases f
  {
    if |f| > 0 {
      StripAttrsUnchanged(f[1..]);
      if f[0].Element? {
        StripAttrsUnchanged(f[0].children);
        var k := KeptAttrs(f[0].tag, f[0].attrs);
        assert k == f[0].attrs;
      }
    }
  }

  /** Step 2 keeps every text, in order. */
  lemma {:induction false} StripAttrsText(f: seq<Node>)
    ensures TextOf(StripAttrs(f)) == TextOf(f)
    decreases f
  {
    if |f| > 0 {
      StripAttrsText(f[1..]);
      if f[0].Element? {
        StripAttrsText(f[0].children);
      }
    }
  }

  /** Step 3 leaves only allowed tags, and keeps any property of tags and
      attributes the elements had. */
  lemma {:induction false} UnwrapEvery(f: seq<Node>, p: (string, map<string, seq<string>>) -> bool)
    requires Every(f, p)
    ensures Every(Unwrap(f), p)
    ensures Every(Unwrap(f), TagAllowed)
    decreases f
  {
    if |f| > 0 {
      UnwrapEvery(f[1..], p);
      if f[0].Element? {
        UnwrapEvery(f[0].children, p);
        if f[0].tag !in AllowedTags {
          EveryAppend(Unwrap(f[0].children), Unwrap(f[1..]), p);
          EveryAppend(Unwrap(f[0].children), Unwrap(f[1..]), TagAllowed);
        }
      }
    }
  }

  /** Step 3 changes nothing whose tags are all allowed. */
  lemma {:induction false} UnwrapUnchanged(f: seq<Node>)
    requires Every(f, TagAllowed)
    ensures Unwrap(f) == f
    decreases f
  {
    if |f| > 0 {
      UnwrapUnchanged(f[1..]);
      if f[0].Element? {
        UnwrapUnchanged(f[0].children);
      }
    }
  }

  /** Step 3 keeps every text, in order. */
  lemma {:induction false} UnwrapText(f: seq<Node>)
    ensures TextOf(Unwrap(f)) == TextOf(f)
    decreases f
  {
    if |f| > 0 {
      UnwrapText(f[1..]);
      if f[0].Element? {
        UnwrapText(f[0].children);
        if f[0].tag !in AllowedTags {
          TextOfAppend(Unwrap(f[0].children), Unwrap(f[1..]));
        }
      }
    }
  }

  /** An element with kept attributes has no class, so is no notice. */
  lemma {:induction false} KeptIsNoticeFree(f: seq<Node>)
    requires Every(f, AttrsKept)
    ensures NoticeFree(f)
    decreases f
  {
    if |f| > 0 {
      KeptIsNoticeFree(f[1..]);
      if f[0].Element? {
        KeptIsNoticeFree(f[0].children);
        assert "class" !in f[0].attrs;
      }
    }
  }

  /** The cleaned document has only `p`, `code` and `a` elements, only the
      `href` of links survives, no notice is left, and the text is that of
      the input with the notices taken out. */
  lemma CleanForestShape(f: seq<Node>)
    ensures Clean(CleanForest(f))
    ensures NoticeFree(CleanForest(f))
    ensures TextOf(CleanForest(f)) == TextOf(RemoveNotices(f))
  {
    var g := StripAttrs(RemoveNotices(f));
    StripAttrsKept(RemoveNotices(f));
    UnwrapEvery(g, AttrsKept);
    KeptIsNoticeFree(CleanForest(f));
    StripAttrsText(RemoveNotices(f));
    UnwrapText(g);
  }

  /** Cleaning a document without notices keeps all of its text. */
  lemma CleanForestKeepsText(f: seq<Node>)
    requires NoticeFree(f)
    ensures TextOf(CleanForest(f)) == TextOf(f)
  {
    CleanForestShape(f);
    RemoveNoticesUnchanged(f);
  }

  /** A clean document is its own cleaning. */
  lemma CleanUnchanged(f: seq<Node>)
    requires Clean(f)
    ensures CleanForest(f) == f
  {
    KeptIsNoticeFree(f);
    RemoveNoticesUnchanged(f);
    StripAttrsUnchanged(f);
    UnwrapUnchanged(f);
  }

  /** `clean_html` is idempotent, so cleaning a stored question again before
      hashing it changes nothing. */
  lemma CleanForestIdempotent(f: seq<Node>)
    ensures CleanForest(CleanForest(f)) == CleanForest(f)
  {
    CleanForestShape(f);
    CleanUnchanged(CleanForest(f));
  }
}

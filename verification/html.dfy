/**
 * The HTML that BeautifulSoup hands the scraper, as a tree of values: text
 * nodes and elements with an ordered attribute list (BeautifulSoup keeps
 * attributes in a dict, in document order) and ordered children.
 */
module Html {
  import opened Wrappers
  import opened Strings

  datatype Attr = Attr(name: string, value: string)

  datatype Node =
    | Text(text: string)
    | Element(tag: string, attrs: seq<Attr>, children: seq<Node>)

  /** `tag.get(name)`: the value of the attribute, or None when the element lacks it. */
  function GetAttr(attrs: seq<Attr>, name: string): (r: Option<string>)
    ensures r.None? <==> forall k :: 0 <= k < |attrs| ==> attrs[k].name != name
    ensures r.Some? ==> exists k :: 0 <= k < |attrs| && attrs[k] == Attr(name, r.value)
  {
    if attrs == [] then None
    else if attrs[0].name == name then Some(attrs[0].value)
    else GetAttr(attrs[1..], name)
  }

  /** `tag[name] = value`: the entry keeps its place in the dict, every other entry is untouched. */
  function SetAttr(attrs: seq<Attr>, name: string, value: string): (r: seq<Attr>)
    ensures |r| == |attrs|
    ensures forall k :: 0 <= k < |r| ==>
              r[k] == if attrs[k].name == name then Attr(name, value) else attrs[k]
  {
    if attrs == [] then []
    else [if attrs[0].name == name then Attr(name, value) else attrs[0]] + SetAttr(attrs[1..], name, value)
  }

  /** Length of the run of non-whitespace characters `s` starts with. */
  function WordLength(s: string): (n: nat)
    ensures n <= |s|
    ensures forall j :: 0 <= j < n ==> !IsSpace(s[j])
    ensures n < |s| ==> IsSpace(s[n])
  {
    if s != [] && !IsSpace(s[0]) then 1 + WordLength(s[1..]) else 0
  }

  /** `s.split()`: the whitespace-separated words of `s`, which is how BeautifulSoup reads `class`. */
  function Words(s: string): (r: seq<string>)
    ensures forall k :: 0 <= k < |r| ==> r[k] != [] && forall j :: 0 <= j < |r[k]| ==> !IsSpace(r[k][j])
    decreases |s|
  {
    var i := LeadingSpaces(s);
    if i == |s| then []
    else
      var w := WordLength(s[i..]);
      assert w > 0;
      [s[i..i + w]] + Words(s[i + w..])
  }

  /** A class list of one word is that word. */
  lemma OneClass(c: string)
    requires c != [] && forall j :: 0 <= j < |c| ==> !IsSpace(c[j])
    ensures Words(c) == [c]
  {
    assert !IsSpace(c[0]);
    assert WordLength(c) == |c|;
    assert c[0..|c|] == c && c[|c|..] == [];
    assert LeadingSpaces([]) == 0;
  }

  /** An element whose `class` attribute is exactly one word has that class. */
  lemma HasOwnClass(tag: string, attrs: seq<Attr>, children: seq<Node>, c: string)
    requires GetAttr(attrs, "class") == Some(c)
    requires c != [] && forall j :: 0 <= j < |c| ==> !IsSpace(c[j])
    ensures HasClass(Element(tag, attrs, children), c)
  {
    OneClass(c);
  }

  /** `class_=c` in a BeautifulSoup search: one of the element's classes is `c`. */
  predicate HasClass(n: Node, c: string) {
    n.Element? && match GetAttr(n.attrs, "class")
                  case None => false
                  case Some(v) => c in Words(v)
  }

  /**
   * html.parser's string containers (Beautiful Soup 4.10 and later): a
   * string whose nearest enclosing container is one of these is a Script,
   * Stylesheet, TemplateString, RubyTextString or RubyParenthesisString
   * rather than a plain NavigableString.
   */
  const StringContainers: set<string> := {"script", "style", "template", "rt", "rp"}

  /**
   * The kind of the strings directly inside an element `tag` that sits
   * among strings of kind `around`: the element's own tag when it is a
   * container, else the kind around it. None is the plain kind.
   */
  function KindIn(tag: string, around: Option<string>): Option<string> {
    if tag in StringContainers then Some(tag) else around
  }

  /**
   * `tag.text`: the strings of the subtree, in document order, of the kind
   * the element is interested in: plain strings for an ordinary element (so
   * the text of a script, style, template, rt or rp below it is skipped),
   * the container's own strings for a container.
   */
  function TextOf(n: Node): string
    decreases n
  {
    match n
    case Text(s) => s
    case Element(tag, _, children) => TextIn(children, KindIn(tag, None), KindIn(tag, None))
  }

  /** The strings of kind `kind` below the siblings `ns`, whose own strings are of kind `around`. */
  function TextIn(ns: seq<Node>, around: Option<string>, kind: Option<string>): string
    decreases ns
  {
    if ns == [] then [] else TextInNode(ns[0], around, kind) + TextIn(ns[1..], around, kind)
  }

  function TextInNode(n: Node, around: Option<string>, kind: Option<string>): string
    decreases n
  {
    match n
    case Text(s) => if around == kind then s else []
    case Element(tag, _, children) => TextIn(children, KindIn(tag, around), kind)
  }

  lemma {:induction false} TextInAppend(a: seq<Node>, b: seq<Node>, around: Option<string>, kind: Option<string>)
    ensures TextIn(a + b, around, kind) == TextIn(a, around, kind) + TextIn(b, around, kind)
  {
    if a != [] {
      assert (a + b)[1..] == a[1..] + b;
      TextInAppend(a[1..], b, around, kind);
    } else {
      assert a + b == b;
    }
  }

  /** Below a container no string is plain. */
  lemma {:induction false} NoPlainInside(ns: seq<Node>, container: string)
    ensures TextIn(ns, Some(container), None) == []
    decreases ns
  {
    if ns != [] {
      NoPlainInside(ns[1..], container);
      match ns[0]
      case Text(_) =>
      case Element(tag, _, children) =>
        NoPlainInside(children, if tag in StringContainers then tag else container);
    }
  }

  /**
   * A script, style, template, rt or rp element adds nothing to the text of
   * an ordinary element it sits in, wherever it sits among the children.
   */
  lemma ContainerAddsNoText(tag: string, attrs: seq<Attr>, before: seq<Node>, c: Node, after: seq<Node>)
    requires tag !in StringContainers && c.Element? && c.tag in StringContainers
    ensures TextOf(Element(tag, attrs, before + [c] + after)) == TextOf(Element(tag, attrs, before + after))
  {
    TextInAppend(before + [c], after, None, None);
    TextInAppend(before, [c], None, None);
    TextInAppend(before, after, None, None);
    NoPlainInside(c.children, c.tag);
    assert [c][1..] == [];
  }

  // ---------------------------------------------------------------------
  // The document-order walk of a tree.

  /** One step of a walk in document order: an opening tag, a closing tag, or a string. */
  datatype Token = Open(tag: string, attrs: seq<Attr>) | Close(tag: string) | Chars(text: string)

  /** The siblings' subtrees walked in document order. */
  function Tokens(ns: seq<Node>): seq<Token>
    decreases ns
  {
    if ns == [] then [] else TokensNode(ns[0]) + Tokens(ns[1..])
  }

  function TokensNode(n: Node): (ts: seq<Token>)
    ensures |ts| >= 1
    decreases n
  {
    match n
    case Text(s) => [Chars(s)]
    case Element(tag, attrs, children) => [Open(tag, attrs)] + Tokens(children) + [Close(tag)]
  }

  lemma TokensCons(n: Node, ns: seq<Node>)
    ensures Tokens([n] + ns) == TokensNode(n) + Tokens(ns)
  {
    assert ([n] + ns)[1..] == ns;
  }

  lemma {:induction false} TokensAppend(a: seq<Node>, b: seq<Node>)
    ensures Tokens(a + b) == Tokens(a) + Tokens(b)
  {
    if a == [] {
      assert a + b == b;
    } else {
      assert (a + b)[1..] == a[1..] + b;
      TokensAppend(a[1..], b);
    }
  }

  /** The innermost string container open at a point of a walk; `around` when none is. */
  function Here(open: seq<string>, around: Option<string>): Option<string> {
    if open == [] then around else Some(open[|open| - 1])
  }

  /** The string containers open after one more token. */
  function Step(open: seq<string>, t: Token): seq<string> {
    match t
    case Open(tag, _) => if tag in StringContainers then open + [tag] else open
    case Close(tag) => if tag in StringContainers && open != [] then open[..|open| - 1] else open
    case Chars(_) => open
  }

  function After(open: seq<string>, ts: seq<Token>): seq<string>
    decreases ts
  {
    if ts == [] then open else After(Step(open, ts[0]), ts[1..])
  }

  /** The strings of kind `kind` met on a walk begun with the containers `open` open, amid strings of kind `around`. */
  function WalkText(ts: seq<Token>, open: seq<string>, around: Option<string>, kind: Option<string>): string {
    if ts == [] then []
    else
      (if ts[0].Chars? && Here(open, around) == kind then ts[0].text else [])
      + WalkText(ts[1..], Step(open, ts[0]), around, kind)
  }

  /** What `.text` of an element `tag` reads off the walk `ts` of its children. */
  function ElementText(tag: string, ts: seq<Token>): string {
    WalkText(ts, [], KindIn(tag, None), KindIn(tag, None))
  }

  lemma {:induction false} WalkTextAppend(a: seq<Token>, b: seq<Token>, open: seq<string>, around: Option<string>,
                                          kind: Option<string>)
    ensures WalkText(a + b, open, around, kind) == WalkText(a, open, around, kind) + WalkText(b, After(open, a), around, kind)
    ensures After(open, a + b) == After(After(open, a), b)
    decreases a
  {
    if a == [] {
      assert a + b == b;
    } else {
      assert (a + b)[0] == a[0] && (a + b)[1..] == a[1..] + b;
      WalkTextAppend(a[1..], b, Step(open, a[0]), around, kind);
    }
  }

  /** Walking siblings reads their text and closes every container it opens. */
  lemma {:induction false} WalkOf(ns: seq<Node>, open: seq<string>, around: Option<string>, kind: Option<string>)
    ensures WalkText(Tokens(ns), open, around, kind) == TextIn(ns, Here(open, around), kind)
    ensures After(open, Tokens(ns)) == open
    decreases ns, 1
  {
    if ns != [] {
      WalkTextAppend(TokensNode(ns[0]), Tokens(ns[1..]), open, around, kind);
      WalkOfNode(ns[0], open, around, kind);
      WalkOf(ns[1..], open, around, kind);
    }
  }

  lemma {:induction false} WalkOfNode(n: Node, open: seq<string>, around: Option<string>, kind: Option<string>)
    ensures WalkText(TokensNode(n), open, around, kind) == TextInNode(n, Here(open, around), kind)
    ensures After(open, TokensNode(n)) == open
    decreases n, 0
  {
    match n
    case Text(s) =>
    case Element(tag, attrs, children) =>
      var inner := Step(open, Open(tag, attrs));
      assert Here(inner, around) == KindIn(tag, Here(open, around));
      WalkOf(children, inner, around, kind);
      WalkTextAppend([Open(tag, attrs)], Tokens(children) + [Close(tag)], open, around, kind);
      WalkTextAppend(Tokens(children), [Close(tag)], inner, around, kind);
      assert TokensNode(n) == [Open(tag, attrs)] + (Tokens(children) + [Close(tag)]);
      assert Step(inner, Close(tag)) == open;
  }

  /**
   * `.text` is the strings met on the walk, in order, that lie in the
   * element's own kind of container: for an ordinary element, those outside
   * every script, style, template, rt and rp element of the walk.
   */
  lemma TextOfWalk(tag: string, attrs: seq<Attr>, children: seq<Node>)
    ensures TextOf(Element(tag, attrs, children)) == ElementText(tag, Tokens(children))
    ensures tag !in StringContainers ==> ElementText(tag, Tokens(children)) == WalkText(Tokens(children), [], None, None)
  {
    WalkOf(children, [], KindIn(tag, None), KindIn(tag, None));
  }

  // ---------------------------------------------------------------------
  // Serialisation, `str(tag)`, with Beautiful Soup's "minimal" formatter:
  // `&`, `<` and `>` are escaped in strings and attribute values, except in
  // a string whose parent is a script or a style; attributes are written in
  // name order; an attribute html.parser splits into words is joined back
  // with single spaces.

  /** Tags html.parser treats as void: rendered `<tag .../>` when they have no children. */
  const VoidTags: set<string> := {
    "area", "base", "br", "col", "embed", "hr", "img", "input", "keygen", "link",
    "menuitem", "meta", "param", "source", "track", "wbr", "basefont", "bgsound",
    "command", "frame", "image", "isindex", "nextid", "spacer"
  }

  /** The parents whose strings the formatter writes out as they are. */
  const CdataTags: set<string> := {"script", "style"}

  /** The attributes html.parser keeps as a list of words: `class` everywhere, and a few per tag. */
  predicate IsListAttr(tag: string, name: string) {
    || name in {"class", "accesskey", "dropzone"}
    || (tag in {"a", "link"} && name in {"rel", "rev"})
    || (tag in {"td", "th"} && name == "headers")
    || (tag == "form" && name == "accept-charset")
    || (tag == "object" && name == "archive")
    || (tag == "area" && name == "rel")
    || (tag == "icon" && name == "sizes")
    || (tag == "iframe" && name == "sandbox")
    || (tag == "output" && name == "for")
  }

  /** The value as written out: the words joined by single spaces for a list attribute. */
  function AttrValue(tag: string, a: Attr): string {
    if IsListAttr(tag, a.name) then Join(" ", Words(a.value)) else a.value
  }

  /** Python's `a <= b` on strings: code point by code point, a proper prefix first. */
  predicate StrLe(a: string, b: string) {
    a == [] || (b != [] && (a[0] < b[0] || (a[0] == b[0] && StrLe(a[1..], b[1..]))))
  }

  lemma {:induction false} StrLeTotal(a: string, b: string)
    ensures StrLe(a, b) || StrLe(b, a)
  {
    if a != [] && b != [] && a[0] == b[0] {
      StrLeTotal(a[1..], b[1..]);
    }
  }

  predicate SortedByName(attrs: seq<Attr>) {
    forall k :: 0 < k < |attrs| ==> StrLe(attrs[k - 1].name, attrs[k].name)
  }

  /** Places `a` before the first attribute whose name is not below its own. */
  function InsertAttr(a: Attr, attrs: seq<Attr>): seq<Attr> {
    if attrs == [] || StrLe(a.name, attrs[0].name) then [a] + attrs
    else [attrs[0]] + InsertAttr(a, attrs[1..])
  }

  /** `sorted(tag.attrs.items())`, the order the formatter writes attributes in (a dict has one entry per name). */
  function SortAttrs(attrs: seq<Attr>): seq<Attr> {
    if attrs == [] then [] else InsertAttr(attrs[0], SortAttrs(attrs[1..]))
  }

  lemma {:induction false} InsertAttrSorted(a: Attr, attrs: seq<Attr>)
    requires SortedByName(attrs)
    ensures var r := InsertAttr(a, attrs);
            && SortedByName(r)
            && multiset(r) == multiset(attrs) + multiset{a}
            && r != [] && (r[0] == a || (attrs != [] && r[0] == attrs[0]))
  {
    if attrs != [] && !StrLe(a.name, attrs[0].name) {
      var tail := attrs[1..];
      assert SortedByName(tail) by {
        forall k | 0 < k < |tail|
          ensures StrLe(tail[k - 1].name, tail[k].name)
        {
          assert tail[k - 1] == attrs[k] && tail[k] == attrs[k + 1];
        }
      }
      InsertAttrSorted(a, tail);
      StrLeTotal(a.name, attrs[0].name);
      var r, t := InsertAttr(a, attrs), InsertAttr(a, tail);
      assert r == [attrs[0]] + t;
      assert attrs == [attrs[0]] + tail;
      forall k | 0 < k < |r|
        ensures StrLe(r[k - 1].name, r[k].name)
      {
        if k > 1 {
          assert r[k - 1] == t[k - 2] && r[k] == t[k - 1];
        }
      }
    }
  }

  /** The attributes are written in name order, each of them once. */
  lemma {:induction false} SortAttrsSorted(attrs: seq<Attr>)
    ensures SortedByName(SortAttrs(attrs))
    ensures multiset(SortAttrs(attrs)) == multiset(attrs)
  {
    if attrs != [] {
      SortAttrsSorted(attrs[1..]);
      InsertAttrSorted(attrs[0], SortAttrs(attrs[1..]));
      assert attrs == [attrs[0]] + attrs[1..];
    }
  }

  /** Replaces `&`, `<` and `>` by their entities. */
  function Escape(s: string): (r: string)
    ensures '<' !in r && '>' !in r
  {
    if s == [] then []
    else
      (if s[0] == '&' then "&amp;" else if s[0] == '<' then "&lt;" else if s[0] == '>' then "&gt;" else [s[0]])
      + Escape(s[1..])
  }

  /** Reads the entities `Escape` writes back as characters. */
  function Unescape(s: string): string
    decreases |s|
  {
    if s == [] then []
    else if |s| >= 5 && s[..5] == "&amp;" then "&" + Unescape(s[5..])
    else if |s| >= 4 && s[..4] == "&lt;" then "<" + Unescape(s[4..])
    else if |s| >= 4 && s[..4] == "&gt;" then ">" + Unescape(s[4..])
    else [s[0]] + Unescape(s[1..])
  }

  /** Escaping loses nothing: the text of a string node can be read back from its serialisation. */
  lemma {:induction false} UnescapeEscape(s: string)
    ensures Unescape(Escape(s)) == s
  {
    if s != [] {
      UnescapeEscape(s[1..]);
      var t := Escape(s[1..]);
      if s[0] == '&' {
        UnescapeEntity("&amp;", "&", t);
      } else if s[0] == '<' {
        UnescapeEntity("&lt;", "<", t);
      } else if s[0] == '>' {
        UnescapeEntity("&gt;", ">", t);
      } else {
        UnescapePlain(s[0], t);
      }
    }
  }

  lemma UnescapeEntity(e: string, c: string, t: string)
    requires (e, c) in {("&amp;", "&"), ("&lt;", "<"), ("&gt;", ">")}
    ensures Unescape(e + t) == c + Unescape(t)
  {
    var s := e + t;
    assert s[..|e|] == e && s[|e|..] == t;
    assert s[0] == '&' && s[1] == e[1];
    if |s| >= 5 {
      assert s[..5][1] == s[1];
    }
    if |s| >= 4 {
      assert s[..4][1] == s[1];
    }
  }

  lemma UnescapePlain(c: char, t: string)
    requires c != '&'
    ensures Unescape([c] + t) == [c] + Unescape(t)
  {
    var s := [c] + t;
    assert s[1..] == t;
    if |s| >= 5 {
      assert s[..5][0] == c;
    }
    if |s| >= 4 {
      assert s[..4][0] == c;
    }
  }

  function ReplaceQuotes(s: string): string {
    if s == [] then [] else (if s[0] == '"' then "&quot;" else [s[0]]) + ReplaceQuotes(s[1..])
  }

  /** An attribute value in quotes: double quotes unless the value holds one, then single quotes unless it holds both. */
  function QuoteAttr(v: string): string {
    var e := Escape(v);
    if '"' !in e then "\"" + e + "\""
    else if '\'' !in e then "'" + e + "'"
    else "\"" + ReplaceQuotes(e) + "\""
  }

  function RenderAttrs(tag: string, attrs: seq<Attr>): string {
    if attrs == [] then []
    else " " + attrs[0].name + "=" + QuoteAttr(AttrValue(tag, attrs[0])) + RenderAttrs(tag, attrs[1..])
  }

  /** `str(tag)`. */
  function Render(n: Node): string
    decreases n
  {
    match n
    case Text(s) => Escape(s)
    case Element(tag, attrs, children) =>
      var start := "<" + tag + RenderAttrs(tag, SortAttrs(attrs));
      if tag in VoidTags && children == [] then start + "/>"
      else start + ">" + RenderIn(children, tag in CdataTags) + "</" + tag + ">"
  }

  /** Siblings serialised in turn; under a script or a style (`raw`) their strings go out unescaped. */
  function RenderIn(ns: seq<Node>, raw: bool): string
    decreases ns
  {
    if ns == [] then [] else (if raw && ns[0].Text? then ns[0].text else Render(ns[0])) + RenderIn(ns[1..], raw)
  }

  /** Siblings serialised in turn, outside any script or style. */
  function RenderAll(ns: seq<Node>): string {
    RenderIn(ns, false)
  }

  /**
   * A string is written verbatim when its parent is a script or a style,
   * escaped elsewhere; the attributes come in name order.
   */
  lemma StringRendering(tag: string, attrs: seq<Attr>, s: string)
    ensures Render(Element(tag, attrs, [Text(s)]))
            == "<" + tag + RenderAttrs(tag, SortAttrs(attrs)) + ">"
               + (if tag in CdataTags then s else Escape(s)) + "</" + tag + ">"
  {
    var raw := tag in CdataTags;
    assert [Text(s)][1..] == [];
    assert RenderIn([Text(s)], raw) == (if raw then s else Escape(s)) + RenderIn([], raw);
    assert [Text(s)] != [];
  }

  lemma {:induction false} RenderInAppend(a: seq<Node>, b: seq<Node>, raw: bool)
    ensures RenderIn(a + b, raw) == RenderIn(a, raw) + RenderIn(b, raw)
  {
    if a == [] {
      assert a + b == b;
    } else {
      assert (a + b)[0] == a[0] && (a + b)[1..] == a[1..] + b;
      RenderInAppend(a[1..], b, raw);
      var x, y, z := (if raw && a[0].Text? then a[0].text else Render(a[0])), RenderIn(a[1..], raw), RenderIn(b, raw);
      assert x + (y + z) == (x + y) + z;
    }
  }

  /** Each sibling serialised on its own. */
  function Rendered(ns: seq<Node>): seq<string> {
    seq(|ns|, i requires 0 <= i < |ns| => Render(ns[i]))
  }

  /** `''.join(str(n) for n in ns)` is the serialisation of the siblings. */
  lemma {:induction false} ConcatRendered(ns: seq<Node>)
    ensures Concat(Rendered(ns)) == RenderAll(ns)
  {
    if ns != [] {
      assert Rendered(ns)[1..] == Rendered(ns[1..]);
      ConcatRendered(ns[1..]);
    }
  }
}

/**
 * Chapter-body sanitation (`_process_chapter_content`): the first loop
 * decomposes every descendant element whose tag name is one of the names
 * handed to `find_all`, the second rewrites the `src` of every remaining
 * `img` that has one to `urljoin(BASE_URL, src)`.
 *
 * `urljoin(BASE_URL, .)` is the parameter `resolve`; the properties that
 * need it to be idempotent say so in their preconditions.
 */
module Sanitizer {
  import opened Wrappers
  import opened Html

  /**
   * The names passed to `find_all`. BeautifulSoup reads each as a tag name,
   * so "div.ad" matches only an element literally named `div.ad`, never a
   * `<div class="ad">`.
   */
  const RemovedTags: set<string> := {"script", "ins", "div.ad"}

  predicate IsRemoved(n: Node) {
    n.Element? && n.tag in RemovedTags
  }

  /** What `find_all('img', src=True)` matches. */
  predicate IsImgWithSrc(n: Node) {
    n.Element? && n.tag == "img" && GetAttr(n.attrs, "src").Some?
  }

  /** The resolver is idempotent on its own output (urljoin is, by section 5.2 of RFC 3986). */
  ghost predicate Idempotent(resolve: string -> string) {
    forall s :: resolve(resolve(s)) == resolve(s)
  }

  // ---------------------------------------------------------------------
  // The two loops.

  /** First loop over a list of siblings: listed elements go, with everything inside them. */
  function PruneAll(ns: seq<Node>): seq<Node>
    decreases ns
  {
    if ns == [] then []
    else if IsRemoved(ns[0]) then PruneAll(ns[1..])
    else [PruneNode(ns[0])] + PruneAll(ns[1..])
  }

  function PruneNode(n: Node): Node
    decreases n
  {
    match n
    case Text(_) => n
    case Element(tag, attrs, children) => Element(tag, attrs, PruneAll(children))
  }

  /** Second loop over a list of siblings. */
  function RewriteAll(ns: seq<Node>, resolve: string -> string): seq<Node>
    decreases ns
  {
    if ns == [] then [] else [RewriteNode(ns[0], resolve)] + RewriteAll(ns[1..], resolve)
  }

  function RewriteNode(n: Node, resolve: string -> string): Node
    decreases n
  {
    match n
    case Text(_) => n
    case Element(tag, attrs, children) =>
      var attrs' := if IsImgWithSrc(n) then SetAttr(attrs, "src", resolve(GetAttr(attrs, "src").value)) else attrs;
      Element(tag, attrs', RewriteAll(children, resolve))
  }

  /** `_process_chapter_content(content)`: both loops look at the descendants of `content` only. */
  function ProcessContent(content: Node, resolve: string -> string): (r: Node)
    ensures r.Element? <==> content.Element?
    ensures content.Element? ==> r.tag == content.tag && r.attrs == content.attrs
    ensures content.Text? ==> r == content
  {
    match content
    case Text(_) => content
    case Element(tag, attrs, children) => Element(tag, attrs, RewriteAll(PruneAll(children), resolve))
  }

  // ---------------------------------------------------------------------
  // Shapes of trees.

  /** No listed element anywhere in the siblings or below them. */
  predicate Clean(ns: seq<Node>)
    decreases ns
  {
    ns == [] || (!IsRemoved(ns[0]) && CleanNode(ns[0]) && Clean(ns[1..]))
  }

  predicate CleanNode(n: Node)
    decreases n
  {
    n.Text? || Clean(n.children)
  }

  /** Neither a listed element nor an `img` with a `src` anywhere: nothing for either loop to touch. */
  predicate Plain(ns: seq<Node>)
    decreases ns
  {
    ns == [] || (!IsRemoved(ns[0]) && !IsImgWithSrc(ns[0]) && PlainNode(ns[0]) && Plain(ns[1..]))
  }

  predicate PlainNode(n: Node)
    decreases n
  {
    n.Text? || Plain(n.children)
  }

  /** Every `img` with a `src` has one the resolver leaves alone, i.e. an absolute URL. */
  predicate SrcsResolved(ns: seq<Node>, resolve: string -> string)
    decreases ns
  {
    ns == [] || (SrcResolvedNode(ns[0], resolve) && SrcsResolved(ns[1..], resolve))
  }

  predicate SrcResolvedNode(n: Node, resolve: string -> string)
    decreases n
  {
    match n
    case Text(_) => true
    case Element(_, attrs, children) =>
      (IsImgWithSrc(n) ==> resolve(GetAttr(attrs, "src").value) == GetAttr(attrs, "src").value)
      && SrcsResolved(children, resolve)
  }

  // ---------------------------------------------------------------------
  // Attribute facts used by the rewrite.

  lemma {:induction false} GetAfterSet(attrs: seq<Attr>, name: string, value: string)
    requires GetAttr(attrs, name).Some?
    ensures GetAttr(SetAttr(attrs, name, value), name) == Some(value)
  {
    if attrs[0].name != name {
      GetAfterSet(attrs[1..], name, value);
    }
  }

  lemma {:induction false} SetTwice(attrs: seq<Attr>, name: string, v: string, w: string)
    ensures SetAttr(SetAttr(attrs, name, v), name, w) == SetAttr(attrs, name, w)
  {
    if attrs != [] {
      SetTwice(attrs[1..], name, v, w);
    }
  }

  // ---------------------------------------------------------------------
  // Properties of the first loop.

  /** After the first loop nothing listed is left, at any depth. */
  lemma {:induction false} PruneAllIsClean(ns: seq<Node>)
    ensures Clean(PruneAll(ns))
    decreases ns
  {
    if ns != [] {
      PruneAllIsClean(ns[1..]);
      if !IsRemoved(ns[0]) {
        PruneNodeIsClean(ns[0]);
      }
    }
  }

  lemma {:induction false} PruneNodeIsClean(n: Node)
    ensures CleanNode(PruneNode(n))
    decreases n
  {
    if n.Element? {
      PruneAllIsClean(n.children);
    }
  }

  /** On a clean tree the first loop finds nothing to remove. */
  lemma {:induction false} PruneAllOfClean(ns: seq<Node>)
    requires Clean(ns)
    ensures PruneAll(ns) == ns
    decreases ns
  {
    if ns != [] {
      PruneAllOfClean(ns[1..]);
      if ns[0].Element? {
        PruneAllOfClean(ns[0].children);
      }
    }
  }

  // ---------------------------------------------------------------------
  // Properties of the second loop.

  /** Rewriting a `src` never creates a listed element. */
  lemma {:induction false} RewriteKeepsClean(ns: seq<Node>, resolve: string -> string)
    requires Clean(ns)
    ensures Clean(RewriteAll(ns, resolve))
    decreases ns
  {
    if ns != [] {
      RewriteKeepsClean(ns[1..], resolve);
      if ns[0].Element? {
        RewriteKeepsClean(ns[0].children, resolve);
      }
    }
  }

  /** Rewriting a `src` never changes the text. */
  lemma {:induction false} RewriteKeepsText(ns: seq<Node>, resolve: string -> string, around: Option<string>,
                                            kind: Option<string>)
    ensures TextIn(RewriteAll(ns, resolve), around, kind) == TextIn(ns, around, kind)
    decreases ns
  {
    if ns != [] {
      RewriteKeepsText(ns[1..], resolve, around, kind);
      if ns[0].Element? {
        RewriteKeepsText(ns[0].children, resolve, KindIn(ns[0].tag, around), kind);
      }
    }
  }

  /** A tree with no `img src` is left as it is by the second loop. */
  lemma {:induction false} RewriteAllOfPlain(ns: seq<Node>, resolve: string -> string)
    requires Plain(ns)
    ensures RewriteAll(ns, resolve) == ns
    decreases ns
  {
    if ns != [] {
      RewriteAllOfPlain(ns[1..], resolve);
      if ns[0].Element? {
        RewriteAllOfPlain(ns[0].children, resolve);
      }
    }
  }

  /** With an idempotent resolver, every `src` the second loop leaves behind is already resolved. */
  lemma {:induction false} RewriteResolvesSrcs(ns: seq<Node>, resolve: string -> string)
    requires Idempotent(resolve)
    ensures SrcsResolved(RewriteAll(ns, resolve), resolve)
    decreases ns
  {
    if ns != [] {
      RewriteResolvesSrcs(ns[1..], resolve);
      var n := ns[0];
      if n.Element? {
        RewriteResolvesSrcs(n.children, resolve);
        if IsImgWithSrc(n) {
          var v := resolve(GetAttr(n.attrs, "src").value);
          GetAfterSet(n.attrs, "src", v);
          assert resolve(v) == v;
        }
      }
    }
  }

  /** With an idempotent resolver, running the second loop twice is running it once. */
  lemma {:induction false} RewriteAllIdempotent(ns: seq<Node>, resolve: string -> string)
    requires Idempotent(resolve)
    ensures RewriteAll(RewriteAll(ns, resolve), resolve) == RewriteAll(ns, resolve)
    decreases ns
  {
    if ns != [] {
      RewriteAllIdempotent(ns[1..], resolve);
      var n := ns[0];
      if n.Element? {
        RewriteAllIdempotent(n.children, resolve);
        if IsImgWithSrc(n) {
          var v := resolve(GetAttr(n.attrs, "src").value);
          GetAfterSet(n.attrs, "src", v);
          assert resolve(v) == v;
          SetTwice(n.attrs, "src", v, v);
        }
      }
    }
  }

  // ---------------------------------------------------------------------
  // The two loops seen on the document-order walk.

  /**
   * The first loop as a streaming filter over the walk: from the opening tag
   * of a listed element up to its matching closing tag nothing is kept.
   * `depth` counts the elements open inside the cut, 0 outside one.
   */
  function Unlisted(ts: seq<Token>, depth: nat): seq<Token>
    decreases |ts|
  {
    if ts == [] then []
    else if depth > 0 then
      Unlisted(ts[1..], match ts[0] case Open(_, _) => depth + 1 case Close(_) => depth - 1 case Chars(_) => depth)
    else if ts[0].Open? && ts[0].tag in RemovedTags then Unlisted(ts[1..], 1)
    else [ts[0]] + Unlisted(ts[1..], 0)
  }

  lemma UnlistedKeeps(t: Token, ts: seq<Token>)
    requires !(t.Open? && t.tag in RemovedTags)
    ensures Unlisted([t] + ts, 0) == [t] + Unlisted(ts, 0)
  {
    assert ([t] + ts)[1..] == ts;
  }

  lemma UnlistedEnters(t: Token, ts: seq<Token>, depth: nat)
    requires t.Open? && (depth > 0 || t.tag in RemovedTags)
    ensures Unlisted([t] + ts, depth) == Unlisted(ts, depth + 1)
  {
    assert ([t] + ts)[1..] == ts;
  }

  lemma UnlistedLeaves(tag: string, ts: seq<Token>, depth: nat)
    requires depth > 0
    ensures Unlisted([Close(tag)] + ts, depth) == Unlisted(ts, depth - 1)
  {
    assert ([Close(tag)] + ts)[1..] == ts;
  }

  /** Inside a cut a whole subtree is skipped, and the depth comes back to where it was. */
  lemma {:induction false} SkipWalk(ns: seq<Node>, rest: seq<Token>, depth: nat)
    requires depth > 0
    ensures Unlisted(Tokens(ns) + rest, depth) == Unlisted(rest, depth)
    decreases ns
  {
    if ns == [] {
      assert Tokens(ns) + rest == rest;
    } else {
      assert Tokens(ns) + rest == TokensNode(ns[0]) + (Tokens(ns[1..]) + rest);
      SkipNode(ns[0], Tokens(ns[1..]) + rest, depth);
      SkipWalk(ns[1..], rest, depth);
    }
  }

  lemma {:induction false} SkipNode(n: Node, rest: seq<Token>, depth: nat)
    requires depth > 0
    ensures Unlisted(TokensNode(n) + rest, depth) == Unlisted(rest, depth)
    decreases n
  {
    match n
    case Text(s) =>
      assert ([Chars(s)] + rest)[1..] == rest;
    case Element(tag, attrs, children) =>
      assert TokensNode(n) + rest == [Open(tag, attrs)] + (Tokens(children) + ([Close(tag)] + rest));
      UnlistedEnters(Open(tag, attrs), Tokens(children) + ([Close(tag)] + rest), depth);
      SkipWalk(children, [Close(tag)] + rest, depth + 1);
      UnlistedLeaves(tag, rest, depth + 1);
  }

  lemma {:induction false} PruneWalk(ns: seq<Node>, rest: seq<Token>)
    ensures Unlisted(Tokens(ns) + rest, 0) == Tokens(PruneAll(ns)) + Unlisted(rest, 0)
    decreases ns
  {
    if ns == [] {
      assert Tokens(ns) + rest == rest;
    } else {
      var tail := Tokens(ns[1..]) + rest;
      assert Tokens(ns) + rest == TokensNode(ns[0]) + tail;
      PruneWalk(ns[1..], rest);
      PruneWalkNode(ns[0], tail);
      if IsRemoved(ns[0]) {
        assert PruneAll(ns) == PruneAll(ns[1..]);
      } else {
        assert PruneAll(ns) == [PruneNode(ns[0])] + PruneAll(ns[1..]);
        TokensCons(PruneNode(ns[0]), PruneAll(ns[1..]));
      }
    }
  }

  lemma {:induction false} PruneWalkNode(n: Node, tail: seq<Token>)
    ensures Unlisted(TokensNode(n) + tail, 0)
         == (if IsRemoved(n) then [] else TokensNode(PruneNode(n))) + Unlisted(tail, 0)
    decreases n
  {
    match n
    case Text(s) =>
      UnlistedKeeps(Chars(s), tail);
    case Element(tag, attrs, children) =>
      var inner := Tokens(children) + ([Close(tag)] + tail);
      assert TokensNode(n) + tail == [Open(tag, attrs)] + inner;
      if tag in RemovedTags {
        UnlistedEnters(Open(tag, attrs), inner, 0);
        SkipWalk(children, [Close(tag)] + tail, 1);
        UnlistedLeaves(tag, tail, 1);
      } else {
        UnlistedKeeps(Open(tag, attrs), inner);
        PruneWalk(children, [Close(tag)] + tail);
        UnlistedKeeps(Close(tag), tail);
        assert TokensNode(PruneNode(n)) == [Open(tag, attrs)] + Tokens(PruneAll(children)) + [Close(tag)];
      }
  }

  /**
   * What the first loop leaves, walked in document order, is the walk of its
   * input with every listed subtree cut out: the other siblings keep their
   * order, and the text outside listed subtrees is kept.
   */
  lemma PruneAllIsCut(ns: seq<Node>, around: Option<string>, kind: Option<string>)
    ensures Tokens(PruneAll(ns)) == Unlisted(Tokens(ns), 0)
    ensures TextIn(PruneAll(ns), around, kind) == WalkText(Unlisted(Tokens(ns), 0), [], around, kind)
  {
    PruneWalk(ns, []);
    assert Tokens(ns) + [] == Tokens(ns);
    assert Tokens(PruneAll(ns)) + [] == Tokens(PruneAll(ns));
    WalkOf(PruneAll(ns), [], around, kind);
  }

  /** What `find_all('img', src=True)` matches, on the walk. */
  predicate IsImgOpen(t: Token) {
    t.Open? && t.tag == "img" && GetAttr(t.attrs, "src").Some?
  }

  /** A token with the `src` of a matched `img` emptied: everything the second loop may not change. */
  function Blanked(t: Token): Token {
    if IsImgOpen(t) then Open(t.tag, SetAttr(t.attrs, "src", "")) else t
  }

  function BlankAll(ts: seq<Token>): seq<Token> {
    seq(|ts|, i requires 0 <= i < |ts| => Blanked(ts[i]))
  }

  /** The `src` values of matched `img` tags, in document order. */
  function Srcs(ts: seq<Token>): seq<string> {
    if ts == [] then [] else (if IsImgOpen(ts[0]) then [GetAttr(ts[0].attrs, "src").value] else []) + Srcs(ts[1..])
  }

  function MapResolve(resolve: string -> string, ss: seq<string>): seq<string> {
    seq(|ss|, i requires 0 <= i < |ss| => resolve(ss[i]))
  }

  lemma {:induction false} SrcsAppend(a: seq<Token>, b: seq<Token>)
    ensures Srcs(a + b) == Srcs(a) + Srcs(b)
  {
    if a == [] {
      assert a + b == b;
    } else {
      assert (a + b)[1..] == a[1..] + b;
      SrcsAppend(a[1..], b);
    }
  }

  lemma SrcsOne(t: Token)
    ensures Srcs([t]) == if IsImgOpen(t) then [GetAttr(t.attrs, "src").value] else []
  {
    assert [t][1..] == [];
  }

  /** The second loop on one element's opening tag. */
  lemma RewriteOpen(n: Node, resolve: string -> string)
    requires n.Element?
    ensures var t := TokensNode(RewriteNode(n, resolve))[0];
            var u := TokensNode(n)[0];
            && Blanked(t) == Blanked(u)
            && Srcs([t]) == MapResolve(resolve, Srcs([u]))
  {
    var u := Open(n.tag, n.attrs);
    assert TokensNode(n)[0] == u;
    if IsImgWithSrc(n) {
      var v := resolve(GetAttr(n.attrs, "src").value);
      var t := Open(n.tag, SetAttr(n.attrs, "src", v));
      assert TokensNode(RewriteNode(n, resolve))[0] == t;
      ResolvedOpen(n.tag, n.attrs, v);
      SrcsOne(u);
    } else {
      assert TokensNode(RewriteNode(n, resolve))[0] == u;
    }
  }

  lemma ResolvedOpen(tag: string, attrs: seq<Attr>, v: string)
    requires tag == "img" && GetAttr(attrs, "src").Some?
    ensures Blanked(Open(tag, SetAttr(attrs, "src", v))) == Blanked(Open(tag, attrs))
    ensures Srcs([Open(tag, SetAttr(attrs, "src", v))]) == [v]
  {
    GetAfterSet(attrs, "src", v);
    SetTwice(attrs, "src", v, "");
    SrcsOne(Open(tag, SetAttr(attrs, "src", v)));
  }

  /**
   * What the second loop does, walked in document order: nothing changes but
   * the `src` of matched `img` tags, and those become `resolve` of their own
   * values, in order.
   */
  lemma {:induction false} RewriteWalk(ns: seq<Node>, resolve: string -> string)
    ensures BlankAll(Tokens(RewriteAll(ns, resolve))) == BlankAll(Tokens(ns))
    ensures Srcs(Tokens(RewriteAll(ns, resolve))) == MapResolve(resolve, Srcs(Tokens(ns)))
    decreases ns
  {
    if ns != [] {
      RewriteWalkNode(ns[0], resolve);
      RewriteWalk(ns[1..], resolve);
      var a, b := TokensNode(RewriteNode(ns[0], resolve)), Tokens(RewriteAll(ns[1..], resolve));
      var c, d := TokensNode(ns[0]), Tokens(ns[1..]);
      TokensCons(RewriteNode(ns[0], resolve), RewriteAll(ns[1..], resolve));
      Spliced(a, b, c, d, resolve);
    }
  }

  lemma {:induction false} RewriteWalkNode(n: Node, resolve: string -> string)
    ensures BlankAll(TokensNode(RewriteNode(n, resolve))) == BlankAll(TokensNode(n))
    ensures Srcs(TokensNode(RewriteNode(n, resolve))) == MapResolve(resolve, Srcs(TokensNode(n)))
    decreases n
  {
    if n.Element? {
      var m := RewriteNode(n, resolve);
      RewriteWalk(n.children, resolve);
      RewriteOpen(n, resolve);
      var t, u := TokensNode(m)[0], TokensNode(n)[0];
      var cs, ds := Tokens(m.children), Tokens(n.children);
      assert TokensNode(m) == [t] + (cs + [Close(n.tag)]);
      assert TokensNode(n) == [u] + (ds + [Close(n.tag)]);
      Spliced(cs, [Close(n.tag)], ds, [Close(n.tag)], resolve);
      Spliced([t], cs + [Close(n.tag)], [u], ds + [Close(n.tag)], resolve);
    }
  }

  lemma BlankAllAppend(a: seq<Token>, b: seq<Token>)
    ensures BlankAll(a + b) == BlankAll(a) + BlankAll(b)
  {
    var l, r := BlankAll(a + b), BlankAll(a) + BlankAll(b);
    assert |l| == |r|;
    forall i | 0 <= i < |l|
      ensures l[i] == r[i]
    {
      if i < |a| {
        assert (a + b)[i] == a[i];
      } else {
        assert (a + b)[i] == b[i - |a|];
      }
    }
  }

  lemma MapResolveAppend(resolve: string -> string, a: seq<string>, b: seq<string>)
    ensures MapResolve(resolve, a + b) == MapResolve(resolve, a) + MapResolve(resolve, b)
  {
    var l, r := MapResolve(resolve, a + b), MapResolve(resolve, a) + MapResolve(resolve, b);
    assert |l| == |r|;
    forall i | 0 <= i < |l|
      ensures l[i] == r[i]
    {
      if i < |a| {
        assert (a + b)[i] == a[i];
      } else {
        assert (a + b)[i] == b[i - |a|];
      }
    }
  }

  /** Both walk properties carry over to a concatenation. */
  lemma Spliced(a: seq<Token>, b: seq<Token>, c: seq<Token>, d: seq<Token>, resolve: string -> string)
    requires BlankAll(a) == BlankAll(c) && BlankAll(b) == BlankAll(d)
    requires Srcs(a) == MapResolve(resolve, Srcs(c)) && Srcs(b) == MapResolve(resolve, Srcs(d))
    ensures BlankAll(a + b) == BlankAll(c + d)
    ensures Srcs(a + b) == MapResolve(resolve, Srcs(c + d))
  {
    BlankAllAppend(a, b);
    BlankAllAppend(c, d);
    SrcsAppend(a, b);
    SrcsAppend(c, d);
    MapResolveAppend(resolve, Srcs(c), Srcs(d));
  }

  // ---------------------------------------------------------------------
  // Properties of `_process_chapter_content`.

  /** No `script`, `ins` or `div.ad` element is left below the content element. */
  lemma ProcessedIsClean(content: Node, resolve: string -> string)
    ensures CleanNode(ProcessContent(content, resolve))
  {
    if content.Element? {
      PruneAllIsClean(content.children);
      RewriteKeepsClean(PruneAll(content.children), resolve);
    }
  }

  /** Every `img src` below the content element is resolved, when the resolver is idempotent. */
  lemma ProcessedSrcsResolved(content: Node, resolve: string -> string)
    requires Idempotent(resolve)
    requires content.Element?
    ensures SrcsResolved(ProcessContent(content, resolve).children, resolve)
  {
    RewriteResolvesSrcs(PruneAll(content.children), resolve);
  }

  /** Sanitising twice yields what sanitising once does, when the resolver is idempotent. */
  lemma ProcessContentIdempotent(content: Node, resolve: string -> string)
    requires Idempotent(resolve)
    ensures ProcessContent(ProcessContent(content, resolve), resolve) == ProcessContent(content, resolve)
  {
    if content.Element? {
      var once := RewriteAll(PruneAll(content.children), resolve);
      PruneAllIsClean(content.children);
      RewriteKeepsClean(PruneAll(content.children), resolve);
      PruneAllOfClean(once);
      RewriteAllIdempotent(PruneAll(content.children), resolve);
    }
  }

  /** Nothing else changes: a body with nothing listed and no `img src` comes out as it went in. */
  lemma ProcessContentOfPlain(content: Node, resolve: string -> string)
    requires PlainNode(content)
    ensures ProcessContent(content, resolve) == content
  {
    if content.Element? {
      PlainIsClean(content.children);
      PruneAllOfClean(content.children);
      RewriteAllOfPlain(content.children, resolve);
    }
  }

  lemma {:induction false} PlainIsClean(ns: seq<Node>)
    requires Plain(ns)
    ensures Clean(ns)
    decreases ns
  {
    if ns != [] {
      PlainIsClean(ns[1..]);
      if ns[0].Element? {
        PlainIsClean(ns[0].children);
      }
    }
  }

  /**
   * `_process_chapter_content` walked in document order below the content
   * element: the walk with listed subtrees cut out, in which only the `src`
   * of `img` tags differ, each now `resolve` of the value it had there.
   */
  lemma ProcessedWalk(content: Node, resolve: string -> string)
    requires content.Element?
    ensures var cut := Unlisted(Tokens(content.children), 0);
            var out := Tokens(ProcessContent(content, resolve).children);
            && BlankAll(out) == BlankAll(cut)
            && Srcs(out) == MapResolve(resolve, Srcs(cut))
  {
    PruneAllIsCut(content.children, None, None);
    RewriteWalk(PruneAll(content.children), resolve);
  }

  /**
   * Narrative text survives: the body's text is the text outside listed
   * subtrees, and all of it when there are none.
   */
  lemma ProcessContentKeepsText(content: Node, resolve: string -> string)
    ensures content.Element? ==>
              TextOf(ProcessContent(content, resolve)) == ElementText(content.tag, Unlisted(Tokens(content.children), 0))
    ensures CleanNode(content) ==> TextOf(ProcessContent(content, resolve)) == TextOf(content)
  {
    if content.Element? {
      var k := KindIn(content.tag, None);
      PruneAllIsCut(content.children, k, k);
      RewriteKeepsText(PruneAll(content.children), resolve, k, k);
      if CleanNode(content) {
        PruneAllOfClean(content.children);
      }
    }
  }

  /** Classes play no part: a `div` is kept with its attributes whatever its `class`, "ad" included. */
  lemma AdDivIsKept(attrs: seq<Attr>, children: seq<Node>)
    ensures PruneAll([Element("div", attrs, children)]) == [Element("div", attrs, PruneAll(children))]
  {
    assert [Element("div", attrs, children)][1..] == [];
  }
}

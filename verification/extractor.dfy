/**
 * What the scraper reads out of a page: `download_chapter` (URL, Referer,
 * end-of-content tests, sanitation, title resolution, file name),
 * `fetch_metadata` and the content-type gate of `_add_cover`.
 *
 * BeautifulSoup's selector engine is not modelled: a `Page` carries the
 * result of every lookup the scraper makes on it.
 */
module Extractor {
  import opened Wrappers
  import opened Strings
  import opened Html
  import opened Sanitizer
  import opened Fetcher
  import opened Book

  const BaseUrl: string := "https://freewebnovel.com"

  /** The text `div#article` holds when the site has no such chapter. */
  const MissingMarker: string := "Chapter content is missing or does not exist! Please try again later!"

  /** The session's default headers. */
  const SessionHeaders: map<string, string> := map[
    "user-agent" := "Mozilla/5.0 (Macintosh; Intel Mac OS X 10_15_7) AppleWebKit/537.36 (KHTML, like Gecko) Chrome/138.0.0.0 Safari/537.36",
    "accept-language" := "en-US,en;q=0.9,ru;q=0.8",
    "cache-control" := "max-age=0",
    "priority" := "u=0, i",
    "sec-cha-ua" := "\"Not)A;Brand\";v=\"8\", \"Chromium\";v=\"138\", \"Google Chrome\";v=\"138\"",
    "sec-cha-ua-platform" := "\"macOS\"",
    "sec-cha-ua-mobile" := "?0",
    "sec-fetch-user" := "?1",
    "upgrade-Insecure-Requests" := "1",
    "dnt" := "1"
  ]

  /** Lookups on a chapter page. */
  datatype ChapterLookups = ChapterLookups(
    txtDiv: Option<Node>,       // soup.find('div', class_='txt')
    article: Option<Node>,      // soup.find('div', id='article')
    titleBefore: Option<Node>,  // the first span.chapter ahead of div.txt in document order, not enclosing it
    titleAfter: Option<Node>)   // the first span.chapter after the div.txt subtree

  /** Lookups on the overview page, one per selector. */
  datatype OverviewLookups = OverviewLookups(
    title: Option<Node>,
    author: Option<Node>,
    genres: seq<Node>,
    status: Option<Node>,
    description: seq<Node>,
    cover: Option<Node>)

  /** A response body with its Content-Type header ('' when absent) and what the parser finds in it. */
  datatype Page = Page(contentType: string, content: seq<bv8>, chapter: ChapterLookups, overview: OverviewLookups)

  /** The dict `download_chapter` returns; `content` is `str(body)`. */
  datatype ChapterData = ChapterData(title: string, body: Node, fileName: string)

  /** How `download_chapter` ends: a chapter, None, or an AttributeError it does not catch. */
  datatype ChapterFetch = Fetched(data: ChapterData) | NoChapter | AttributeErrorRaised

  datatype Metadata = Metadata(
    title: Option<string>,
    author: string,
    genres: seq<string>,
    status: Option<string>,
    description: string,
    coverUrl: Option<string>)

  function ChapterUrl(novel: string, n: int): string {
    BaseUrl + "/novel/" + novel + "/chapter-" + IntToString(n)
  }

  function OverviewUrl(novel: string): string {
    BaseUrl + "/novel/" + novel
  }

  function FileName(n: int): string {
    "chapter_" + IntToString(n) + ".xhtml"
  }

  /** Two strings with the same prefix and suffix around the varying part are equal only if that part is. */
  lemma SameFrame(p: string, x: string, y: string, q: string)
    requires p + x + q == p + y + q
    ensures x == y
  {
    var s := p + x + q;
    assert |x| == |y|;
    assert x == s[|p|..|p| + |x|];
    assert y == (p + y + q)[|p|..|p| + |y|];
  }

  /** Different chapters get different file names, so no page overwrites another. */
  lemma FileNamesDistinct(a: int, b: int)
    requires a != b
    ensures FileName(a) != FileName(b)
  {
    if FileName(a) == FileName(b) {
      SameFrame("chapter_", IntToString(a), IntToString(b), ".xhtml");
      IntToStringInjective(a, b);
    }
  }

  /** Different chapters are fetched from different URLs. */
  lemma ChapterUrlsDistinct(novel: string, a: int, b: int)
    requires a != b
    ensures ChapterUrl(novel, a) != ChapterUrl(novel, b)
  {
    if ChapterUrl(novel, a) == ChapterUrl(novel, b) {
      SameFrame(BaseUrl + "/novel/" + novel + "/chapter-", IntToString(a), IntToString(b), "");
      IntToStringInjective(a, b);
    }
  }

  /** The Referer header: the previous chapter's URL, for every chapter after the first. */
  function ChapterHeaders(novel: string, n: int): (h: map<string, string>)
    ensures "Referer" in h <==> n > 1
    ensures n > 1 ==> h["Referer"] == ChapterUrl(novel, n - 1)
  {
    if n > 1 then map["Referer" := ChapterUrl(novel, n - 1)] else map[]
  }

  // ---------------------------------------------------------------------
  // The chapter title marker, searched in the sanitised body.

  predicate IsTitleSpan(n: Node) {
    n.Element? && n.tag == "span" && HasClass(n, "chapter")
  }

  /** How many title spans the siblings hold, at any depth. */
  function Titles(ns: seq<Node>): nat
    decreases ns
  {
    if ns == [] then 0 else TitlesNode(ns[0]) + Titles(ns[1..])
  }

  function TitlesNode(n: Node): nat
    decreases n
  {
    (if IsTitleSpan(n) then 1 else 0) + (if n.Element? then Titles(n.children) else 0)
  }

  /** `find('span', class_='chapter')` over the siblings: the first title span in document order. */
  function TitleIn(ns: seq<Node>): (r: Option<Node>)
    ensures r.Some? ==> IsTitleSpan(r.value)
    ensures r.None? <==> Titles(ns) == 0
    decreases ns
  {
    if ns == [] then None
    else if IsTitleSpan(ns[0]) then Some(ns[0])
    else match TitleBelow(ns[0])
         case Some(t) => Some(t)
         case None => TitleIn(ns[1..])
  }

  /** The first title span strictly inside `n`. */
  function TitleBelow(n: Node): (r: Option<Node>)
    ensures r.Some? ==> IsTitleSpan(r.value)
    ensures r.None? <==> (n.Text? || Titles(n.children) == 0)
    decreases n
  {
    if n.Text? then None else TitleIn(n.children)
  }

  /** `decompose()` of that first title span: it goes, with everything inside it, and nothing else does. */
  function WithoutTitle(ns: seq<Node>): (r: seq<Node>)
    ensures TitleIn(ns).None? ==> r == ns
    ensures TitleIn(ns).Some? ==> Titles(r) == Titles(ns) - TitlesNode(TitleIn(ns).value)
    decreases ns
  {
    if ns == [] then []
    else if IsTitleSpan(ns[0]) then ns[1..]
    else if TitleBelow(ns[0]).Some? then [WithoutTitleBelow(ns[0])] + ns[1..]
    else [ns[0]] + WithoutTitle(ns[1..])
  }

  function WithoutTitleBelow(n: Node): (r: Node)
    requires TitleBelow(n).Some?
    ensures TitlesNode(r) == TitlesNode(n) - TitlesNode(TitleBelow(n).value)
    decreases n
  {
    Element(n.tag, n.attrs, WithoutTitle(n.children))
  }

  /** Taking out the title span cannot bring back a listed element. */
  lemma {:induction false} WithoutTitleKeepsClean(ns: seq<Node>)
    ensures Clean(ns) ==> Clean(WithoutTitle(ns))
    decreases ns
  {
    if Clean(ns) && ns != [] && !IsTitleSpan(ns[0]) {
      if TitleBelow(ns[0]).Some? {
        assert CleanNode(ns[0]);
        assert ns[0].Element?;
        assert Clean(ns[0].children);
        WithoutTitleKeepsClean(ns[0].children);
        var m := WithoutTitleBelow(ns[0]);
        assert CleanNode(m) && !IsRemoved(m);
        assert WithoutTitle(ns) == [m] + ns[1..];
        assert ([m] + ns[1..])[1..] == ns[1..];
      } else {
        WithoutTitleKeepsClean(ns[1..]);
      }
    }
  }

  // ---------------------------------------------------------------------
  // The same search on the document-order walk.

  /** An opening tag that `find('span', class_='chapter')` matches. */
  predicate IsTitleOpen(t: Token) {
    t.Open? && IsTitleSpan(Element(t.tag, t.attrs, []))
  }

  /** Where the first matching opening tag sits on a walk; the walk's length when nothing matches. */
  function FirstTitle(ts: seq<Token>): (k: nat)
    ensures k <= |ts|
  {
    if ts == [] then 0 else if IsTitleOpen(ts[0]) then 0 else 1 + FirstTitle(ts[1..])
  }

  /** It is a match, and no token before it is one. */
  lemma {:induction false} FirstTitleIsFirst(ts: seq<Token>)
    ensures FirstTitle(ts) < |ts| ==> IsTitleOpen(ts[FirstTitle(ts)])
    ensures forall j :: 0 <= j < FirstTitle(ts) ==> !IsTitleOpen(ts[j])
  {
    if ts != [] && !IsTitleOpen(ts[0]) {
      FirstTitleIsFirst(ts[1..]);
      assert forall j :: 1 <= j < FirstTitle(ts) ==> ts[j] == ts[1..][j - 1];
    }
  }

  lemma {:induction false} FirstTitleAppend(a: seq<Token>, b: seq<Token>)
    ensures FirstTitle(a + b) == if FirstTitle(a) < |a| then FirstTitle(a) else |a| + FirstTitle(b)
  {
    if a == [] {
      assert a + b == b;
    } else {
      assert (a + b)[0] == a[0] && (a + b)[1..] == a[1..] + b;
      FirstTitleAppend(a[1..], b);
    }
  }

  /** Below a tag that is not a match, the first match is the first one among the children. */
  lemma FirstTitleInside(o: Token, c: seq<Token>, e: Token)
    requires !IsTitleOpen(o) && !e.Open?
    ensures FirstTitle([o] + (c + [e])) == if FirstTitle(c) < |c| then 1 + FirstTitle(c) else |c| + 2
  {
    FirstTitleAppend([o], c + [e]);
    FirstTitleAppend(c, [e]);
    assert FirstTitle([o]) == 1;
    assert FirstTitle([e]) == 1;
  }

  /** A title span's opening tag is a match, and no other opening tag is. */
  lemma TitleOpenOf(n: Node)
    requires n.Element?
    ensures IsTitleOpen(TokensNode(n)[0]) <==> IsTitleSpan(n)
  {
    assert TokensNode(n)[0] == Open(n.tag, n.attrs);
  }

  /** `t` is the stretch of the walk `ts` that starts at `k`, and `rest` is `ts` without it. */
  predicate CutAt(ts: seq<Token>, k: nat, t: seq<Token>, rest: seq<Token>) {
    k + |t| <= |ts| && ts[k..k + |t|] == t && rest == ts[..k] + ts[k + |t|..]
  }

  lemma CutAtFront(t: seq<Token>, b: seq<Token>)
    ensures CutAt(t + b, 0, t, b)
  {
    assert (t + b)[0..|t|] == t;
    assert (t + b)[..0] + (t + b)[|t|..] == b;
  }

  lemma CutAtLeft(a: seq<Token>, b: seq<Token>, k: nat, t: seq<Token>, rest: seq<Token>)
    requires CutAt(a, k, t, rest)
    ensures CutAt(a + b, k, t, rest + b)
  {
    assert (a + b)[k..k + |t|] == a[k..k + |t|];
    assert (a + b)[..k] == a[..k];
    assert (a + b)[k + |t|..] == a[k + |t|..] + b;
  }

  lemma CutAtRight(a: seq<Token>, b: seq<Token>, k: nat, t: seq<Token>, rest: seq<Token>, whole: seq<Token>)
    requires CutAt(b, k, t, rest) && whole == a + rest
    ensures CutAt(a + b, |a| + k, t, whole)
  {
    assert (a + b)[|a| + k..|a| + k + |t|] == b[k..k + |t|];
    assert (a + b)[..|a| + k] == a + b[..k];
    assert (a + b)[|a| + k + |t|..] == b[k + |t|..];
  }

  /**
   * `find` returns the first match in document order, and `decompose()`
   * takes out exactly that element's stretch of the walk, nothing else.
   */
  ghost predicate FindsFirst(ns: seq<Node>) {
    && (TitleIn(ns).None? <==> FirstTitle(Tokens(ns)) == |Tokens(ns)|)
    && (TitleIn(ns).Some? ==>
          CutAt(Tokens(ns), FirstTitle(Tokens(ns)), TokensNode(TitleIn(ns).value), Tokens(WithoutTitle(ns))))
  }

  /** The same below an element that is not itself a match. */
  ghost predicate FindsFirstBelow(n: Node)
    requires !IsTitleSpan(n)
  {
    && (TitleBelow(n).None? <==> FirstTitle(TokensNode(n)) == |TokensNode(n)|)
    && (TitleBelow(n).Some? ==>
          CutAt(TokensNode(n), FirstTitle(TokensNode(n)), TokensNode(TitleBelow(n).value), TokensNode(WithoutTitleBelow(n))))
  }

  lemma {:induction false} TitleWalk(ns: seq<Node>)
    ensures FindsFirst(ns)
    decreases ns
  {
    if ns != [] {
      if IsTitleSpan(ns[0]) {
        FindsHead(ns);
      } else {
        TitleWalkNode(ns[0]);
        if TitleBelow(ns[0]).Some? {
          FindsInHead(ns);
        } else {
          TitleWalk(ns[1..]);
          FindsAfterHead(ns);
        }
      }
    }
  }

  lemma {:induction false} TitleWalkNode(n: Node)
    requires !IsTitleSpan(n)
    ensures FindsFirstBelow(n)
    decreases n
  {
    if n.Text? {
      assert FirstTitle([Chars(n.text)]) == 1;
    } else {
      TitleWalk(n.children);
      FindsInside(n);
    }
  }

  lemma FindsHead(ns: seq<Node>)
    requires ns != [] && IsTitleSpan(ns[0])
    ensures FindsFirst(ns)
  {
    var a, b := TokensNode(ns[0]), Tokens(ns[1..]);
    assert Tokens(ns) == a + b;
    FirstTitleAppend(a, b);
    TitleOpenOf(ns[0]);
    CutAtFront(a, b);
  }

  lemma FindsInHead(ns: seq<Node>)
    requires ns != [] && !IsTitleSpan(ns[0]) && TitleBelow(ns[0]).Some? && FindsFirstBelow(ns[0])
    ensures FindsFirst(ns)
  {
    var n := ns[0];
    var a, b := TokensNode(n), Tokens(ns[1..]);
    assert Tokens(ns) == a + b;
    FirstTitleAppend(a, b);
    var m := WithoutTitleBelow(n);
    TokensCons(m, ns[1..]);
    CutAtLeft(a, b, FirstTitle(a), TokensNode(TitleBelow(n).value), TokensNode(m));
  }

  lemma FindsAfterHead(ns: seq<Node>)
    requires ns != [] && !IsTitleSpan(ns[0]) && TitleBelow(ns[0]).None? && FindsFirstBelow(ns[0])
    requires FindsFirst(ns[1..])
    ensures FindsFirst(ns)
  {
    var n := ns[0];
    var a, b := TokensNode(n), Tokens(ns[1..]);
    assert Tokens(ns) == a + b;
    assert TitleIn(ns) == TitleIn(ns[1..]);
    assert FirstTitle(a) == |a|;
    FirstTitleAppend(a, b);
    assert FirstTitle(a + b) == |a| + FirstTitle(b);
    if TitleIn(ns[1..]).Some? {
      assert WithoutTitle(ns) == [n] + WithoutTitle(ns[1..]);
      CutAfterHead(n, WithoutTitle(ns[1..]), b, FirstTitle(b), TokensNode(TitleIn(ns[1..]).value));
    }
  }

  lemma CutAfterHead(n: Node, w: seq<Node>, b: seq<Token>, k: nat, t: seq<Token>)
    requires CutAt(b, k, t, Tokens(w))
    ensures CutAt(TokensNode(n) + b, |TokensNode(n)| + k, t, Tokens([n] + w))
  {
    TokensCons(n, w);
    CutAtRight(TokensNode(n), b, k, t, Tokens(w), Tokens([n] + w));
  }

  lemma FindsInside(n: Node)
    requires n.Element? && !IsTitleSpan(n) && FindsFirst(n.children)
    ensures FindsFirstBelow(n)
  {
    TitleOpenOf(n);
    var o, c, e := [Open(n.tag, n.attrs)], Tokens(n.children), [Close(n.tag)];
    assert TokensNode(n) == o + (c + e);
    FirstTitleInside(Open(n.tag, n.attrs), c, Close(n.tag));
    if TitleIn(n.children).Some? {
      CutInElement(n, WithoutTitle(n.children), FirstTitle(c), TokensNode(TitleIn(n.children).value));
    }
  }

  lemma CutInElement(n: Node, w: seq<Node>, k: nat, t: seq<Token>)
    requires n.Element? && CutAt(Tokens(n.children), k, t, Tokens(w))
    ensures CutAt(TokensNode(n), 1 + k, t, TokensNode(Element(n.tag, n.attrs, w)))
  {
    var o, c, e := [Open(n.tag, n.attrs)], Tokens(n.children), [Close(n.tag)];
    assert TokensNode(n) == o + (c + e);
    CutAtLeft(c, e, k, t, Tokens(w));
    CutAtRight(o, c + e, k, t, Tokens(w) + e, TokensNode(Element(n.tag, n.attrs, w)));
  }

  // ---------------------------------------------------------------------
  // download_chapter, after the request.

  /**
   * The title and the body that is serialised. `soup.find` runs after the
   * sanitation, over the whole page: a title span ahead of the content wins,
   * then one inside the sanitised content (which `decompose()` then takes out
   * of the body), then one after it; without any the title is "Chapter n".
   */
  function ResolveTitle(lookups: ChapterLookups, body: Node, n: int): (r: (string, Node))
    ensures CleanNode(body) ==> CleanNode(r.1)
  {
    if lookups.titleBefore.Some? then
      (Strip(TextOf(lookups.titleBefore.value)), body)
    else if body.Element? && TitleIn(body.children).Some? then
      WithoutTitleKeepsClean(body.children);
      (Strip(TextOf(TitleIn(body.children).value)), Element(body.tag, body.attrs, WithoutTitle(body.children)))
    else if lookups.titleAfter.Some? then
      (Strip(TextOf(lookups.titleAfter.value)), body)
    else
      ("Chapter " + IntToString(n), body)
  }

  /**
   * Lines 310-332 of `download_chapter`: None when there is no `div.txt`, or
   * when `div#article` holds the missing-content marker (checked only once the
   * content div is known to exist); an AttributeError when the content div
   * exists but `div#article` does not; otherwise the sanitised chapter.
   */
  function ParseChapter(lookups: ChapterLookups, n: int, resolve: string -> string): (r: ChapterFetch)
    ensures r.NoChapter? <==>
              lookups.txtDiv.None? || (lookups.article.Some? && TextOf(lookups.article.value) == MissingMarker)
    ensures r.AttributeErrorRaised? <==> lookups.txtDiv.Some? && lookups.article.None?
    ensures r.Fetched? ==> r.data.fileName == "chapter_" + IntToString(n) + ".xhtml"
    ensures r.Fetched? ==> CleanNode(r.data.body)
  {
    match lookups.txtDiv
    case None => NoChapter
    case Some(div) =>
      match lookups.article
      case None => AttributeErrorRaised
      case Some(article) =>
        if TextOf(article) == MissingMarker then NoChapter
        else
          var sanitised := ProcessContent(div, resolve);
          ProcessedIsClean(div, resolve);
          var (title, body) := ResolveTitle(lookups, sanitised, n);
          Fetched(ChapterData(title, body, FileName(n)))
  }

  /**
   * A script, style or other string container inside `div#article` does not
   * hide the missing-content marker: its strings are not part of `.text`.
   */
  lemma MarkerBesideScript(lookups: ChapterLookups, n: int, resolve: string -> string,
                           tag: string, attrs: seq<Attr>, before: seq<Node>, c: Node, after: seq<Node>)
    requires lookups.txtDiv.Some? && lookups.article == Some(Element(tag, attrs, before + [c] + after))
    requires tag !in StringContainers && c.Element? && c.tag in StringContainers
    requires TextOf(Element(tag, attrs, before + after)) == MissingMarker
    ensures ParseChapter(lookups, n, resolve).NoChapter?
  {
    ContainerAddsNoText(tag, attrs, before, c, after);
  }

  /**
   * Title resolution: the trimmed text of the first `span.chapter` of the
   * page, taken out of the body when it lies inside the content; "Chapter n"
   * when the page has none.
   */
  lemma ChapterTitle(lookups: ChapterLookups, n: int, resolve: string -> string)
    requires ParseChapter(lookups, n, resolve).Fetched?
    ensures var d := ParseChapter(lookups, n, resolve).data;
            var sanitised := ProcessContent(lookups.txtDiv.value, resolve);
            && (lookups.titleBefore.Some? ==> d.title == Strip(TextOf(lookups.titleBefore.value)) && d.body == sanitised)
            && (lookups.titleBefore.None? && sanitised.Element? && Titles(sanitised.children) > 0 ==>
                  var t := TitleIn(sanitised.children).value;
                  var ts := Tokens(sanitised.children);
                  && IsTitleSpan(t)
                  && d.title == Strip(TextOf(t))
                  && d.body.Element? && d.body.tag == sanitised.tag && d.body.attrs == sanitised.attrs
                  && CutAt(ts, FirstTitle(ts), TokensNode(t), Tokens(d.body.children))
                  && Titles(d.body.children) == Titles(sanitised.children) - TitlesNode(t))
            && (lookups.titleBefore.None? && (sanitised.Text? || Titles(sanitised.children) == 0) ==>
                  d.body == sanitised
                  && d.title == (if lookups.titleAfter.Some? then Strip(TextOf(lookups.titleAfter.value))
                                 else "Chapter " + IntToString(n)))
  {
    var sanitised := ProcessContent(lookups.txtDiv.value, resolve);
    if sanitised.Element? {
      TitleWalk(sanitised.children);
    }
  }

  // ---------------------------------------------------------------------
  // Requests.

  /** What `download_chapter(n)` yields from the replies `script` holds. */
  function Download(script: Script<Page>, n: int, resolve: string -> string): (r: ChapterFetch)
    ensures r.Fetched? ==> r.data.fileName == FileName(n) && CleanNode(r.data.body)
    // A chapter needs a reply from the script itself, so it consumes part of it.
    ensures r.Fetched? ==> 1 <= Attempts(script, 10) <= |script|
  {
    match RequestResult(script, 10)
    case None => NoChapter
    case Some(response) =>
      FinalInScript(script, 10);
      ParseChapter(response.body.chapter, n, resolve)
  }

  /** A final reply is a reply of the script: past its end every request fails. */
  lemma FinalInScript<B>(script: Script<B>, maxRetries: int)
    requires RequestResult(script, maxRetries).Some?
    ensures 1 <= Attempts(script, maxRetries) <= |script|
  {
    var k := FirstFinal(script, 0, maxRetries).value;
    assert IsFinal(ReplyAt(script, k));
  }

  /**
   * `download_chapter(n)`: one `safe_request` (10 retries, 10 s initial
   * delay) for the chapter URL, with a Referer for every chapter after the
   * first, then the page is parsed; a 404 page is parsed like any other.
   * `used` is the number of requests the call consumed.
   */
  method DownloadChapter(novel: string, n: int, script: Script<Page>, resolve: string -> string)
    returns (r: ChapterFetch, req: Request, used: nat)
    ensures req.url == ChapterUrl(novel, n)
    ensures "Referer" in req.headers <==> n > 1
    ensures n > 1 ==> req.headers["Referer"] == ChapterUrl(novel, n - 1)
    ensures forall h :: h in SessionHeaders && h != "Referer" ==> h in req.headers && req.headers[h] == SessionHeaders[h]
    ensures used == Attempts(script, 10) && 1 <= used <= 11
    ensures r == Download(script, n, resolve)
  {
    req := Request("GET", ChapterUrl(novel, n), MergeHeaders(SessionHeaders, ChapterHeaders(novel, n)), 30.0);
    var response, sleeps;
    response, used, sleeps := SafeRequest(script, 10, 10.0, 2.0);
    match response {
      case None =>
        r := NoChapter;
      case Some(resp) =>
        r := ParseChapter(resp.body.chapter, n, resolve);
    }
  }

  /** `_get_text`: the stripped text of the element, if found. */
  function GetText(e: Option<Node>): (r: Option<string>)
    ensures r.None? <==> e.None?
  {
    match e
    case None => None
    case Some(n) => Some(Strip(TextOf(n)))
  }

  /** `_get_attr(..., 'src')`. */
  function GetSrc(e: Option<Node>): (r: Option<string>)
    ensures r.Some? ==> e.Some? && e.value.Element? && GetAttr(e.value.attrs, "src") == r
  {
    match e
    case Some(Element(_, attrs, _)) => GetAttr(attrs, "src")
    case _ => None
  }

  /**
   * The metadata dict of `fetch_metadata`: the author defaults to
   * "Unknown Author" when missing or blank, the title and the status stay
   * None when missing, and a non-empty cover `src` is made absolute.
   */
  function ParseMetadata(o: OverviewLookups, resolve: string -> string): (m: Metadata)
    ensures m.title == GetText(o.title) && m.status == GetText(o.status)
    ensures m.author != ""
    ensures m.author == "Unknown Author" <==> (GetText(o.author) in {None, Some(""), Some("Unknown Author")})
    ensures GetText(o.author).Some? && GetText(o.author).value != "" ==> m.author == GetText(o.author).value
    ensures m.description == RenderAll(o.description)
    ensures |m.genres| == |o.genres| && forall i :: 0 <= i < |o.genres| ==> m.genres[i] == Strip(TextOf(o.genres[i]))
    ensures m.coverUrl.None? <==> GetSrc(o.cover).None?
    ensures GetSrc(o.cover) == Some("") ==> m.coverUrl == Some("")
    ensures GetSrc(o.cover).Some? && GetSrc(o.cover).value != "" ==> m.coverUrl == Some(resolve(GetSrc(o.cover).value))
  {
    var author := match GetText(o.author)
                  case Some(a) => if a == "" then "Unknown Author" else a
                  case None => "Unknown Author";
    ConcatRendered(o.description);
    var cover := match GetSrc(o.cover)
                 case Some(s) => if s == "" then Some(s) else Some(resolve(s))
                 case None => None;
    Metadata(
      GetText(o.title),
      author,
      seq(|o.genres|, i requires 0 <= i < |o.genres| => Strip(TextOf(o.genres[i]))),
      GetText(o.status),
      Concat(Rendered(o.description)),
      cover)
  }

  /**
   * `fetch_metadata`: one `safe_request` (5 retries, 3 s initial delay) for
   * the overview page; None when it gives up, otherwise the metadata of
   * whatever page came back, a 404 page included.
   */
  method FetchMetadata(novel: string, script: Script<Page>, resolve: string -> string)
    returns (m: Option<Metadata>, req: Request, used: nat)
    ensures req.url == OverviewUrl(novel) && req.headers == SessionHeaders
    ensures used == Attempts(script, 5) && 1 <= used <= 6
    ensures m.None? <==> RequestResult(script, 5).None?
    ensures m.Some? ==> m.value == ParseMetadata(RequestResult(script, 5).value.body.overview, resolve)
  {
    req := Request("GET", OverviewUrl(novel), MergeHeaders(SessionHeaders, map[]), 15.0);
    var response, sleeps;
    response, used, sleeps := SafeRequest(script, 5, 3.0, 2.0);
    match response {
      case None =>
        m := None;
      case Some(resp) =>
        m := Some(ParseMetadata(resp.body.overview, resolve));
    }
  }

  /**
   * What `_add_cover` attaches: nothing when the request gave up or the
   * Content-Type does not start with "image/"; otherwise the body, named
   * after the extension the MIME table gives, ".jpg" when it has none.
   */
  function CoverOf(response: Option<Response<Page>>, mimeExtensions: map<string, string>): (c: Option<Cover>)
    ensures c.Some? <==> response.Some? && StartsWith(response.value.body.contentType, "image/")
    ensures c.Some? ==> c.value.data == response.value.body.content
    ensures c.Some? && response.value.body.contentType !in mimeExtensions ==> c.value.fileName == "cover.jpg"
  {
    match response
    case None => None
    case Some(resp) =>
      var contentType := resp.body.contentType;
      if !StartsWith(contentType, "image/") then None
      else
        var ext := if contentType in mimeExtensions && mimeExtensions[contentType] != "" then mimeExtensions[contentType] else ".jpg";
        Some(Cover("cover" + ext, resp.body.content))
  }
}

/**
 * The e-book under construction: an EpubBook whose item list, table of
 * contents and spine the run controller grows in place, and the two page
 * templates the scraper fills in. The templates interpolate scraped text as
 * it is, without escaping.
 */
module Book {
  import opened Wrappers
  import opened Strings
  import opened Html

  datatype Cover = Cover(fileName: string, data: seq<bv8>)

  /** What an XHTML page of the book is made from; `Xhtml` fills in the template. */
  datatype Template =
    | DescriptionTemplate(title: string, author: string, status: string, genres: string, description: string)
    | ChapterTemplate(title: string, body: Node)

  /** An item of the book: an XHTML page, or one of the navigation documents added when finalizing. */
  datatype Item = XhtmlPage(title: string, fileName: string, content: Template) | Ncx | Nav

  /** A table-of-contents entry: a link, or a page that stands for itself. */
  datatype TocEntry = TocLink(href: string, title: string, uid: string) | TocPage(page: Item)

  /** A spine entry: the navigation document (the string 'nav'), or a page. */
  datatype SpineEntry = NavRef | SpinePage(page: Item)

  /** Dublin Core metadata added with `add_metadata('DC', name, value)`. */
  datatype DcEntry = DcEntry(name: string, value: string)

  /** Everything `write_epub` serialises. */
  datatype BookState = BookState(
    identifier: string,
    title: Option<string>,
    language: string,
    authors: seq<string>,
    dc: seq<DcEntry>,
    cover: Option<Cover>,
    items: seq<Item>,
    toc: seq<TocEntry>,
    spine: seq<SpineEntry>)

  class EpubBook {
    var identifier: string
    var title: Option<string>
    var language: string
    var authors: seq<string>
    var dc: seq<DcEntry>
    var cover: Option<Cover>
    var items: seq<Item>
    var toc: seq<TocEntry>
    var spine: seq<SpineEntry>

    /** The value of the book as it would be written now. */
    function State(): BookState
      reads this
    {
      BookState(identifier, title, language, authors, dc, cover, items, toc, spine)
    }

    constructor ()
      ensures State() == BookState("", None, "", [], [], None, [], [], [])
    {
      identifier, title, language := "", None, "";
      authors, dc, cover := [], [], None;
      items, toc, spine := [], [], [];
    }
  }

  /** `f"{x}"` for a value that may be None. */
  function PyStr(x: Option<string>): (r: string)
    ensures x.Some? ==> r == x.value
    ensures r == "None" <==> x in {None, Some("None")}
  {
    match x
    case None => "None"
    case Some(s) => s
  }

  /** `t` occurs in `s` from position `i` on. */
  predicate OccursAt(s: string, t: string, i: int) {
    0 <= i <= |s| - |t| && s[i..i + |t|] == t
  }

  /** `t` occurs in `s` as a contiguous piece. */
  ghost predicate Contains(s: string, t: string) {
    exists i :: OccursAt(s, t, i)
  }

  lemma ContainsAfter(a: string, b: string, t: string)
    requires Contains(b, t)
    ensures Contains(a + b, t)
  {
    var i :| OccursAt(b, t, i);
    assert (a + b)[|a| + i..|a| + i + |t|] == b[i..i + |t|];
    assert OccursAt(a + b, t, |a| + i);
  }

  /** Every piece of a concatenation occurs in it. */
  lemma {:induction false} ConcatContains(parts: seq<string>, i: nat)
    requires i < |parts|
    ensures Contains(Concat(parts), parts[i])
  {
    if i == 0 {
      assert OccursAt(Concat(parts), parts[0], 0);
    } else {
      ConcatContains(parts[1..], i - 1);
      ContainsAfter(parts[0], Concat(parts[1..]), parts[i]);
    }
  }

  // The fixed text between the fields of the two page templates.
  const DescriptionHead: string := "<html xmlns=\"http://www.w3.org/1999/xhtml\">\n        <head><title>Description</title></head>\n        <body>\n            "
  const MetaOpen: string := "\n            <div class=\"meta\">\n                "
  const MetaIndent: string := "\n                "
  const SummaryHeading: string := "\n            </div>\n            <h2>Summary</h2>\n            "
  const DescriptionTail: string := "\n        </body>\n        </html>"
  const ChapterHead: string := "\n                <html>\n                    <head>"
  const ChapterBodyOpen: string := "</head>\n                    <body>\n                        "
  const ChapterGap: string := "\n                        "
  const ChapterTail: string := "\n                    </body>\n                </html>\n                "

  /** The description page, with every field spliced in as it is. */
  function DescriptionPage(title: string, author: string, status: string, genres: string, description: string): (page: string)
    ensures Contains(page, "<h1>" + title + "</h1>")
    ensures Contains(page, "<div><strong>Author:</strong> " + author + "</div>")
    ensures Contains(page, "<div><strong>Status:</strong> " + status + "</div>")
    ensures Contains(page, "<div><strong>Genres:</strong> " + genres + "</div>")
    ensures Contains(page, "<div class=\"description\">" + description + "</div>")
  {
    var parts := [
      DescriptionHead, "<h1>" + title + "</h1>",
      MetaOpen, "<div><strong>Author:</strong> " + author + "</div>",
      MetaIndent, "<div><strong>Status:</strong> " + status + "</div>",
      MetaIndent, "<div><strong>Genres:</strong> " + genres + "</div>",
      SummaryHeading, "<div class=\"description\">" + description + "</div>", DescriptionTail];
    ConcatContains(parts, 1);
    ConcatContains(parts, 3);
    ConcatContains(parts, 5);
    ConcatContains(parts, 7);
    ConcatContains(parts, 9);
    Concat(parts)
  }

  /** A chapter page: the title as page title and heading, the body as it is. */
  function ChapterPage(title: string, content: string): (page: string)
    ensures Contains(page, "<title>" + title + "</title>")
    ensures Contains(page, "<h1>" + title + "</h1>")
    ensures Contains(page, "<div class=\"content\">" + content + "</div>")
  {
    var parts := [ChapterHead, "<title>" + title + "</title>", ChapterBodyOpen, "<h1>" + title + "</h1>", ChapterGap,
                  "<div class=\"content\">" + content + "</div>", ChapterTail];
    ConcatContains(parts, 1);
    ConcatContains(parts, 3);
    ConcatContains(parts, 5);
    Concat(parts)
  }

  /** The page text of a template: the chapter body is serialised with `str()` first. */
  function Xhtml(t: Template): string {
    match t
    case DescriptionTemplate(title, author, status, genres, description) =>
      DescriptionPage(title, author, status, genres, description)
    case ChapterTemplate(title, body) => ChapterPage(title, Render(body))
  }
}

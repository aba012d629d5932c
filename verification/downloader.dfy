/**
 * `NovelDownloader`: the object that owns the session, the metadata and the
 * stop flag, builds the book in place and drives the chapter loop of `run`
 * with its periodic checkpoints, the `finally` save and the promotion of the
 * temporary file to the output file.
 */
module Downloader {
  import opened Wrappers
  import opened Strings
  import opened Html
  import opened Sanitizer
  import opened Fetcher
  import opened Book
  import opened Extractor
  import opened Storage

  /** A checkpoint is written after every `SaveInterval`-th chapter. */
  const SaveInterval: nat := 5

  const DefaultOutput: string := "novel.epub"

  /** Why the chapter loop ended. */
  datatype StopReason =
    | Interrupted          // a SIGINT or SIGTERM set the stop flag
    | CapReached           // max_chapters chapters were appended
    | NoMoreChapters       // download_chapter returned None
    | ChapterError         // download_chapter raised (AttributeError): it propagates after `finally`
    | SleepFailed          // time.sleep raised (ValueError, a negative delay) after a chapter was appended:
                           // the checkpoint test is skipped and the error propagates after `finally`

  datatype RunOutcome = Aborted | Ended(chapters: nat, stop: StopReason, finalized: bool)

  /** How far `finalize_epub` got. */
  datatype FinalizeStep = WriteFailed | RemoveFailed | RenameFailed | Promoted

  // ---------------------------------------------------------------------
  // The book a run builds, as a value.

  /** The Dublin Core entries of `_create_epub`: the description when non-empty, then one subject per genre. */
  function DcEntries(m: Metadata): (r: seq<DcEntry>)
    ensures |r| == |m.genres| + (if m.description != "" then 1 else 0)
    ensures m.description != "" ==> r[0] == DcEntry("description", m.description)
    ensures forall i :: 0 <= i < |m.genres| ==> r[|r| - |m.genres| + i] == DcEntry("subject", m.genres[i])
  {
    (if m.description != "" then [DcEntry("description", m.description)] else []) + Subjects(m.genres)
  }

  function Subjects(genres: seq<string>): (r: seq<DcEntry>)
    ensures |r| == |genres|
    ensures forall i :: 0 <= i < |genres| ==> r[i] == DcEntry("subject", genres[i])
  {
    if genres == [] then [] else Subjects(genres[..|genres| - 1]) + [DcEntry("subject", genres[|genres| - 1])]
  }

  /** The book `_create_epub` returns, before the description page and the chapters. */
  function BaseBook(novel: string, m: Metadata, cover: Option<Cover>): BookState {
    BookState(novel, m.title, "en", [m.author], DcEntries(m), cover, [], [], [])
  }

  /** `_create_description_page`: the missing title and status print as "None". */
  function DescriptionItem(m: Metadata): (r: Item)
    ensures r.XhtmlPage? && r.title == "Description" && r.fileName == "description.xhtml"
    ensures var page := Xhtml(r.content);
            && Contains(page, "<h1>" + PyStr(m.title) + "</h1>")
            && Contains(page, "<div><strong>Author:</strong> " + m.author + "</div>")
            && Contains(page, "<div><strong>Status:</strong> " + PyStr(m.status) + "</div>")
            && Contains(page, "<div><strong>Genres:</strong> " + Join(", ", m.genres) + "</div>")
            && Contains(page, "<div class=\"description\">" + m.description + "</div>")
  {
    XhtmlPage("Description", "description.xhtml",
              DescriptionTemplate(PyStr(m.title), m.author, PyStr(m.status), Join(", ", m.genres), m.description))
  }

  const DescriptionLink: TocEntry := TocLink("description.xhtml", "Description", "desc")

  /** `generate_epub_chapter`: the page is titled and named after the chapter and holds its serialised body. */
  function ChapterItem(d: ChapterData): (r: Item)
    ensures r.XhtmlPage? && r.title == d.title && r.fileName == d.fileName
    ensures var page := Xhtml(r.content);
            && Contains(page, "<title>" + d.title + "</title>")
            && Contains(page, "<h1>" + d.title + "</h1>")
            && Contains(page, "<div class=\"content\">" + Render(d.body) + "</div>")
  {
    XhtmlPage(d.title, d.fileName, ChapterTemplate(d.title, d.body))
  }

  function ChapterItems(chapters: seq<ChapterData>): (r: seq<Item>)
    ensures |r| == |chapters|
  {
    seq(|chapters|, i requires 0 <= i < |chapters| => ChapterItem(chapters[i]))
  }

  /** The book once the description page and `chapters` are added: toc and spine are rebuilt from scratch. */
  function WithChapters(base: BookState, desc: Item, chapters: seq<ChapterData>): BookState {
    var pages := ChapterItems(chapters);
    base.(items := base.items + [desc] + pages,
          toc := [DescriptionLink] + seq(|pages|, i requires 0 <= i < |pages| => TocPage(pages[i])),
          spine := [NavRef, SpinePage(desc)] + seq(|pages|, i requires 0 <= i < |pages| => SpinePage(pages[i])))
  }

  /** `finalize_epub` adds the NCX and the navigation document. */
  function Finalized(b: BookState): BookState {
    b.(items := b.items + [Ncx, Nav])
  }

  /**
   * The table of contents is the description link followed by the chapters
   * in download order, and the spine is 'nav', the description, then the
   * same chapters: every chapter page is in all three lists at one position.
   */
  lemma WithChaptersLayout(base: BookState, desc: Item, chapters: seq<ChapterData>)
    ensures var b := WithChapters(base, desc, chapters);
            && b.items[..|base.items| + 1] == base.items + [desc]
            && b.toc[..1] == [DescriptionLink] && b.spine[..2] == [NavRef, SpinePage(desc)]
            && |b.items| == |base.items| + 1 + |chapters| && |b.toc| == 1 + |chapters| && |b.spine| == 2 + |chapters|
            && b.items[|base.items| + 1..] == ChapterItems(chapters)
            && (forall i :: 0 <= i < |chapters| ==> b.toc[1..][i] == TocPage(ChapterItem(chapters[i])))
            && (forall i :: 0 <= i < |chapters| ==> b.spine[2..][i] == SpinePage(ChapterItem(chapters[i])))
  {
    var b := WithChapters(base, desc, chapters);
    var pages := ChapterItems(chapters);
    assert b.items == (base.items + [desc]) + pages;
    assert b.toc[1..] == seq(|pages|, i requires 0 <= i < |pages| => TocPage(pages[i]));
    assert b.spine[2..] == seq(|pages|, i requires 0 <= i < |pages| => SpinePage(pages[i]));
  }

  /** Appending one chapter to the book value appends it to items, toc and spine. */
  lemma {:induction false} WithChaptersAppend(base: BookState, desc: Item, chapters: seq<ChapterData>, d: ChapterData)
    ensures var b := WithChapters(base, desc, chapters);
            WithChapters(base, desc, chapters + [d])
              == b.(items := b.items + [ChapterItem(d)],
                    toc := b.toc + [TocPage(ChapterItem(d))],
                    spine := b.spine + [SpinePage(ChapterItem(d))])
  {
    assert ChapterItems(chapters + [d]) == ChapterItems(chapters) + [ChapterItem(d)];
  }

  /** The checkpoint writes of a loop that appended `chapters`: after every fifth, the book as it was then. */
  function CheckpointLog(temp: string, base: BookState, desc: Item, chapters: seq<ChapterData>): seq<Op>
    decreases |chapters|
  {
    if chapters == [] then []
    else
      CheckpointLog(temp, base, desc, chapters[..|chapters| - 1])
      + (if |chapters| % SaveInterval == 0 then [WriteOp(temp, Epub(WithChapters(base, desc, chapters)))] else [])
  }

  /**
   * One checkpoint after chapters 5, 10, 15, ...: `c / 5` of them, in order,
   * the i-th writing the book with the first `5 * (i + 1)` chapters.
   */
  lemma {:induction false} CheckpointsEveryInterval(temp: string, base: BookState, desc: Item, chapters: seq<ChapterData>)
    ensures |CheckpointLog(temp, base, desc, chapters)| == |chapters| / SaveInterval
    ensures forall i :: 0 <= i < |chapters| / SaveInterval ==>
              CheckpointLog(temp, base, desc, chapters)[i]
                == WriteOp(temp, Epub(WithChapters(base, desc, chapters[..SaveInterval * (i + 1)])))
    decreases |chapters|
  {
    if chapters != [] {
      var n := |chapters|;
      var p := chapters[..n - 1];
      CheckpointsEveryInterval(temp, base, desc, p);
      IntervalStep(n);
      var log, before := CheckpointLog(temp, base, desc, chapters), CheckpointLog(temp, base, desc, p);
      assert log == before + (if n % SaveInterval == 0 then [WriteOp(temp, Epub(WithChapters(base, desc, chapters)))] else []);
      forall i | 0 <= i < n / SaveInterval
        ensures log[i] == WriteOp(temp, Epub(WithChapters(base, desc, chapters[..SaveInterval * (i + 1)])))
      {
        if i < (n - 1) / SaveInterval {
          assert p[..SaveInterval * (i + 1)] == chapters[..SaveInterval * (i + 1)];
        } else {
          assert chapters[..SaveInterval * (i + 1)] == chapters;
        }
      }
    }
  }

  /** The count of multiples of 5 up to `n` grows by one exactly at a multiple. */
  lemma IntervalStep(n: nat)
    requires n > 0
    ensures n / SaveInterval == (n - 1) / SaveInterval + if n % SaveInterval == 0 then 1 else 0
    ensures n % SaveInterval == 0 ==> SaveInterval * (n / SaveInterval) == n
  {
  }

  lemma CheckpointLogAppend(temp: string, base: BookState, desc: Item, chapters: seq<ChapterData>, d: ChapterData)
    ensures CheckpointLog(temp, base, desc, chapters + [d])
         == CheckpointLog(temp, base, desc, chapters)
            + (if (|chapters| + 1) % SaveInterval == 0 then [WriteOp(temp, Epub(WithChapters(base, desc, chapters + [d])))] else [])
  {
    assert (chapters + [d])[..|chapters|] == chapters;
  }

  /**
   * How far `finalize_epub` gets, given which of its calls raise: the write
   * of the temporary file, the removal (made only when the output exists)
   * and the rename, from the `calls`-th failable call on.
   */
  function FinalizeOutcome(fails: nat -> bool, calls: nat, outputExists: bool): FinalizeStep {
    if fails(calls) then WriteFailed
    else if outputExists && fails(calls + 1) then RemoveFailed
    else if fails(calls + if outputExists then 2 else 1) then RenameFailed
    else Promoted
  }

  /** The calls `finalize_epub` attempts, by how far it got. */
  function FinalizeLog(temp: string, output: string, finished: BookState, step: FinalizeStep, outputExists: bool): seq<Op> {
    [WriteOp(temp, Epub(finished))]
    + if step.WriteFailed? then []
      else (if outputExists then [RemoveOp(output)] else []) + (if step.RemoveFailed? then [] else [RenameOp(temp, output)])
  }

  /** The result of a crawl, after `p` chapters already appended. */
  /** `time.sleep` raises `ValueError` on a negative delay. */
  predicate SleepRaises(delay: real) {
    delay < 0.0
  }

  function Prefixed(p: seq<ChapterData>, r: (seq<ChapterData>, StopReason)): (seq<ChapterData>, StopReason) {
    (p + r.0, r.1)
  }

  lemma PrefixedAssoc(p: seq<ChapterData>, q: seq<ChapterData>, r: (seq<ChapterData>, StopReason))
    ensures Prefixed(p, Prefixed(q, r)) == Prefixed(p + q, r)
  {
    assert p + (q + r.0) == (p + q) + r.0;
  }

  lemma PrefixedEnd(p: seq<ChapterData>, stop: StopReason)
    ensures Prefixed(p, ([], stop)) == (p, stop) && Prefixed([], (p, stop)) == (p, stop)
  {
    assert p + [] == p && [] + p == p;
  }

  /**
   * The chapter loop of `run` as a function of the replies it meets, from
   * the `count`-th chapter on with the stop flag `stopped`: the loop test
   * (flag, then cap) comes first; then chapter `start + count` is downloaded
   * and either ends the loop or is appended; then the sleep, which raises on
   * a negative delay and ends the loop there, and a signal numbered with the
   * new count raises the flag before the next test.
   */
  function Crawl(script: Script<Page>, start: int, count: nat, cap: int, delay: real, signals: set<nat>, stopped: bool,
                 resolve: string -> string): (r: (seq<ChapterData>, StopReason))
    ensures r.0 != [] ==> !stopped && (cap == 0 || count < cap)
    ensures r.0 == [] ==> (r.1 == Interrupted <==> stopped)
    decreases |script|
  {
    if stopped then ([], Interrupted)
    else if !(cap == 0 || count < cap) then ([], CapReached)
    else
      match Download(script, start + count, resolve)
      case NoChapter => ([], NoMoreChapters)
      case AttributeErrorRaised => ([], ChapterError)
      case Fetched(d) =>
        if SleepRaises(delay) then ([d], SleepFailed)
        else Prefixed([d], Crawl(Consume(script, Attempts(script, 10)), start, count + 1, cap, delay, signals, count + 1 in signals, resolve))
  }

  /** One step of a crawl, with the chapter download named. */
  lemma CrawlStep(script: Script<Page>, start: int, count: nat, cap: int, delay: real, signals: set<nat>, stopped: bool,
                  resolve: string -> string, d: ChapterFetch)
    requires !stopped && (cap == 0 || count < cap) && d == Download(script, start + count, resolve)
    ensures Crawl(script, start, count, cap, delay, signals, stopped, resolve)
            == match d
               case NoChapter => ([], NoMoreChapters)
               case AttributeErrorRaised => ([], ChapterError)
               case Fetched(c) =>
                 if SleepRaises(delay) then ([c], SleepFailed)
                 else Prefixed([c], Crawl(Consume(script, Attempts(script, 10)), start, count + 1, cap, delay, signals, count + 1 in signals, resolve))
  {
  }

  /**
   * The chapters of a crawl from the `count`-th chapter: chapter
   * `start + count` first and then the following ones with no gaps, each
   * sanitised, and no more than the cap allows.
   */
  ghost predicate ChaptersRight(r: (seq<ChapterData>, StopReason), start: int, count: nat, cap: int) {
    && (cap > 0 && count <= cap ==> count + |r.0| <= cap)
    && forall i :: 0 <= i < |r.0| ==> ChapterFile(r.0[i], start + count + i)
  }

  /** `c` is chapter `n`: it goes to chapter `n`'s page, and its body is sanitised. */
  predicate ChapterFile(c: ChapterData, n: int) {
    c.fileName == FileName(n) && CleanNode(c.body)
  }

  lemma ChaptersRightCons(c: ChapterData, tail: (seq<ChapterData>, StopReason), start: int, count: nat, cap: int)
    requires cap == 0 || count < cap
    requires ChapterFile(c, start + count)
    requires ChaptersRight(tail, start, count + 1, cap)
    ensures ChaptersRight(Prefixed([c], tail), start, count, cap)
  {
    var cs := [c] + tail.0;
    assert Prefixed([c], tail).0 == cs;
    forall i | 0 <= i < |cs|
      ensures ChapterFile(cs[i], start + count + i)
    {
      if i > 0 {
        assert cs[i] == tail.0[i - 1];
        assert start + (count + 1) + (i - 1) == start + count + i;
      }
    }
  }

  /** How a chapter reply ends the loop of `run`: a missing chapter, an exception, or the sleep after a chapter. */
  function EndOf(r: ChapterFetch): (stop: StopReason)
    ensures stop != Interrupted && stop != CapReached
    ensures stop == SleepFailed <==> r.Fetched?
  {
    match r
    case NoChapter => NoMoreChapters
    case AttributeErrorRaised => ChapterError
    case Fetched(_) => SleepFailed
  }

  /**
   * One pass of the chapter loop on the crawl as a whole (`whole`, the
   * crawl from the loop's start, is `chapters` followed by the crawl from
   * here): the pass either ends it (`ended`), with the chapter that came if
   * any and the reason, or appends the chapter that came, and the crawl as a
   * whole is then the chapters so far followed by the crawl of the network
   * left, from the next chapter with the flag after it.
   */
  lemma CrawlNext(whole: (seq<ChapterData>, StopReason), chapters: seq<ChapterData>, script: Script<Page>, rest: Script<Page>,
                  start: int, count: nat, cap: int, delay: real, signals: set<nat>,
                  stopped: bool, resolve: string -> string, r: ChapterFetch,
                  chapters': seq<ChapterData>, count': nat, ended: bool, stop: StopReason)
    requires (cap == 0 || count < cap) && r == Download(script, start + count, resolve)
    requires r.Fetched? ==> rest == Consume(script, Attempts(script, 10)) && (stopped <==> count + 1 in signals)
    requires whole == Prefixed(chapters, Crawl(script, start, count, cap, delay, signals, false, resolve))
    requires chapters' == chapters + (if r.Fetched? then [r.data] else [])
    requires count' == count + (if r.Fetched? then 1 else 0)
    requires ended == (!r.Fetched? || SleepRaises(delay)) && stop == if ended then EndOf(r) else Interrupted
    ensures ended ==> whole == (chapters', stop)
    ensures !ended ==> whole == Prefixed(chapters', Crawl(rest, start, count', cap, delay, signals, stopped, resolve))
  {
    CrawlStep(script, start, count, cap, delay, signals, false, resolve, r);
    if ended {
      PrefixedEnd(chapters', stop);
    } else {
      PrefixedAssoc(chapters, [r.data], Crawl(rest, start, count + 1, cap, delay, signals, stopped, resolve));
    }
  }

  /** A crawl that appends nothing: it stopped at once, at the cap, or on a missing chapter or an exception. */
  lemma CrawlEmpty(script: Script<Page>, start: int, count: nat, cap: int, delay: real, signals: set<nat>, stopped: bool,
                   resolve: string -> string)
    requires !(!stopped && (cap == 0 || count < cap) && Download(script, start + count, resolve).Fetched?)
    ensures Crawl(script, start, count, cap, delay, signals, stopped, resolve)
            == ([], if stopped then Interrupted
                    else if !(cap == 0 || count < cap) then CapReached
                    else if Download(script, start + count, resolve).NoChapter? then NoMoreChapters
                    else ChapterError)
  {
  }

  /** The rest of a crawl after a chapter came is a crawl of the network left, from the next chapter. */
  lemma CrawlFetched(script: Script<Page>, start: int, count: nat, cap: int, delay: real, signals: set<nat>, stopped: bool,
                     resolve: string -> string)
    requires !stopped && (cap == 0 || count < cap) && Download(script, start + count, resolve).Fetched? && !SleepRaises(delay)
    ensures var rest := Consume(script, Attempts(script, 10));
            && |rest| < |script|
            && Crawl(script, start, count, cap, delay, signals, stopped, resolve)
               == Prefixed([Download(script, start + count, resolve).data],
                           Crawl(rest, start, count + 1, cap, delay, signals, count + 1 in signals, resolve))
  {
    CrawlStep(script, start, count, cap, delay, signals, stopped, resolve, Download(script, start + count, resolve));
  }

  /** With a negative delay the first chapter that comes ends the crawl, when the sleep after it raises. */
  lemma CrawlSleepFails(script: Script<Page>, start: int, count: nat, cap: int, delay: real, signals: set<nat>,
                        stopped: bool, resolve: string -> string)
    requires !stopped && (cap == 0 || count < cap) && Download(script, start + count, resolve).Fetched? && SleepRaises(delay)
    ensures Crawl(script, start, count, cap, delay, signals, stopped, resolve)
            == ([Download(script, start + count, resolve).data], SleepFailed)
  {
    CrawlStep(script, start, count, cap, delay, signals, stopped, resolve, Download(script, start + count, resolve));
  }

  /** Every crawl appends the chapters `ChaptersRight` says. */
  lemma {:induction false} CrawlChapters(script: Script<Page>, start: int, count: nat, cap: int, delay: real, signals: set<nat>,
                                         stopped: bool, resolve: string -> string)
    ensures ChaptersRight(Crawl(script, start, count, cap, delay, signals, stopped, resolve), start, count, cap)
    decreases |script|
  {
    if !stopped && (cap == 0 || count < cap) && Download(script, start + count, resolve).Fetched? && SleepRaises(delay) {
      CrawlSleepFails(script, start, count, cap, delay, signals, stopped, resolve);
      ChaptersRightCons(Download(script, start + count, resolve).data, ([], SleepFailed), start, count, cap);
    } else if !stopped && (cap == 0 || count < cap) && Download(script, start + count, resolve).Fetched? {
      CrawlFetched(script, start, count, cap, delay, signals, stopped, resolve);
      var rest := Consume(script, Attempts(script, 10));
      CrawlChapters(rest, start, count + 1, cap, delay, signals, count + 1 in signals, resolve);
      ChaptersRightCons(Download(script, start + count, resolve).data,
                        Crawl(rest, start, count + 1, cap, delay, signals, count + 1 in signals, resolve), start, count, cap);
    } else {
      CrawlEmpty(script, start, count, cap, delay, signals, stopped, resolve);
    }
  }

  /**
   * How a crawl from the `count`-th chapter with flag `stopped` may end:
   * on the stop flag exactly when the flag was up before its first test or
   * a signal came after its last chapter, with no signal between its
   * chapters; on the sleep exactly when a chapter came under a negative
   * delay, after that one chapter; on the cap only at the cap; on a missing
   * chapter or an exception only below it.
   */
  ghost predicate EndsRight(r: (seq<ChapterData>, StopReason), count: nat, cap: int, delay: real, signals: set<nat>, stopped: bool) {
    && (r.1 == SleepFailed <==> r.0 != [] && SleepRaises(delay))
    && (SleepRaises(delay) ==> |r.0| <= 1)
    && (r.1 != SleepFailed ==> (r.1 == Interrupted <==> if r.0 == [] then stopped else count + |r.0| in signals))
    && (forall k :: count < k < count + |r.0| ==> k !in signals)
    && (r.1 == CapReached ==> cap != 0 && count + |r.0| >= cap)
    && (r.1 == NoMoreChapters || r.1 == ChapterError ==> cap == 0 || count + |r.0| < cap)
  }

  lemma EndsRightCons(c: ChapterData, tail: (seq<ChapterData>, StopReason), count: nat, cap: int, delay: real, signals: set<nat>)
    requires (cap == 0 || count < cap) && !SleepRaises(delay)
    requires EndsRight(tail, count + 1, cap, delay, signals, count + 1 in signals)
    requires tail.0 != [] ==> count + 1 !in signals
    ensures EndsRight(Prefixed([c], tail), count, cap, delay, signals, false)
  {
    var r := Prefixed([c], tail);
    assert |r.0| == 1 + |tail.0|;
  }

  lemma EndsRightSleep(c: ChapterData, count: nat, cap: int, delay: real, signals: set<nat>)
    requires (cap == 0 || count < cap) && SleepRaises(delay)
    ensures EndsRight(([c], SleepFailed), count, cap, delay, signals, false)
  {
  }

  lemma EndsRightEmpty(stop: StopReason, count: nat, cap: int, delay: real, signals: set<nat>, stopped: bool)
    requires stop != SleepFailed && (stop == Interrupted <==> stopped)
    requires stop == CapReached ==> cap != 0 && count >= cap
    requires stop == NoMoreChapters || stop == ChapterError ==> cap == 0 || count < cap
    ensures EndsRight(([], stop), count, cap, delay, signals, stopped)
  {
  }

  /** Every crawl ends as `EndsRight` says. */
  lemma {:induction false} CrawlStops(script: Script<Page>, start: int, count: nat, cap: int, delay: real, signals: set<nat>,
                                      stopped: bool, resolve: string -> string)
    ensures EndsRight(Crawl(script, start, count, cap, delay, signals, stopped, resolve), count, cap, delay, signals, stopped)
    decreases |script|
  {
    if !stopped && (cap == 0 || count < cap) && Download(script, start + count, resolve).Fetched? && SleepRaises(delay) {
      CrawlSleepFails(script, start, count, cap, delay, signals, stopped, resolve);
      EndsRightSleep(Download(script, start + count, resolve).data, count, cap, delay, signals);
    } else if !stopped && (cap == 0 || count < cap) && Download(script, start + count, resolve).Fetched? {
      CrawlFetched(script, start, count, cap, delay, signals, stopped, resolve);
      CrawlStops(Consume(script, Attempts(script, 10)), start, count + 1, cap, delay, signals, count + 1 in signals, resolve);
      CrawlStopsFetched(script, start, count, cap, delay, signals, resolve);
    } else {
      CrawlStopsEmpty(script, start, count, cap, delay, signals, stopped, resolve);
    }
  }

  lemma CrawlStopsFetched(script: Script<Page>, start: int, count: nat, cap: int, delay: real, signals: set<nat>, resolve: string -> string)
    requires (cap == 0 || count < cap) && Download(script, start + count, resolve).Fetched? && !SleepRaises(delay)
    requires var rest := Consume(script, Attempts(script, 10));
             EndsRight(Crawl(rest, start, count + 1, cap, delay, signals, count + 1 in signals, resolve), count + 1, cap, delay, signals, count + 1 in signals)
    ensures EndsRight(Crawl(script, start, count, cap, delay, signals, false, resolve), count, cap, delay, signals, false)
  {
    CrawlFetched(script, start, count, cap, delay, signals, false, resolve);
    var rest := Consume(script, Attempts(script, 10));
    EndsRightCons(Download(script, start + count, resolve).data,
                  Crawl(rest, start, count + 1, cap, delay, signals, count + 1 in signals, resolve), count, cap, delay, signals);
  }

  lemma CrawlStopsEmpty(script: Script<Page>, start: int, count: nat, cap: int, delay: real, signals: set<nat>, stopped: bool,
                        resolve: string -> string)
    requires !(!stopped && (cap == 0 || count < cap) && Download(script, start + count, resolve).Fetched?)
    ensures EndsRight(Crawl(script, start, count, cap, delay, signals, stopped, resolve), count, cap, delay, signals, stopped)
  {
    CrawlEmpty(script, start, count, cap, delay, signals, stopped, resolve);
    EndsRightEmpty(Crawl(script, start, count, cap, delay, signals, stopped, resolve).1, count, cap, delay, signals, stopped);
  }

  /**
   * What the chapter loop of `run` promises about its result, for a loop
   * started with flag `stop0` (signals numbered 0 came before the first
   * test): the chapters run from `start` with no gaps, are sanitised and
   * stay within a positive cap (none under a negative one); it ends on the
   * flag exactly when the flag was up or a signal came after the last
   * chapter, with no signal before; on the sleep exactly when a chapter came
   * under a negative delay, after that one chapter; it ends on the cap only
   * at the cap, on a missing chapter or an exception only below it.
   */
  ghost predicate LoopResult(r: (seq<ChapterData>, StopReason), start: int, cap: int, delay: real, signals: set<nat>, stop0: bool) {
    && (forall i :: 0 <= i < |r.0| ==> ChapterFile(r.0[i], start + i))
    && (cap > 0 ==> |r.0| <= cap)
    && (cap < 0 ==> |r.0| == 0)
    && (r.1 == SleepFailed <==> |r.0| > 0 && SleepRaises(delay))
    && (SleepRaises(delay) ==> |r.0| <= 1)
    && (r.1 != SleepFailed ==> (r.1 == Interrupted <==> stop0 || |r.0| in signals))
    && (|r.0| > 0 ==> !stop0)
    && (forall k :: 0 <= k < |r.0| ==> k !in signals)
    && (r.1 == CapReached ==> cap != 0 && |r.0| >= cap)
    && (r.1 == NoMoreChapters || r.1 == ChapterError ==> cap == 0 || |r.0| < cap)
  }

  /** Every crawl from the first chapter keeps the promises of `LoopResult`. */
  lemma CrawlFromStart(script: Script<Page>, start: int, cap: int, delay: real, signals: set<nat>, stop0: bool, resolve: string -> string)
    ensures LoopResult(Crawl(script, start, 0, cap, delay, signals, stop0 || 0 in signals, resolve), start, cap, delay, signals, stop0)
  {
    CrawlChapters(script, start, 0, cap, delay, signals, stop0 || 0 in signals, resolve);
    CrawlStops(script, start, 0, cap, delay, signals, stop0 || 0 in signals, resolve);
    LoopResultFrom(Crawl(script, start, 0, cap, delay, signals, stop0 || 0 in signals, resolve), start, cap, delay, signals, stop0);
  }

  lemma LoopResultFrom(r: (seq<ChapterData>, StopReason), start: int, cap: int, delay: real, signals: set<nat>, stop0: bool)
    requires ChaptersRight(r, start, 0, cap) && EndsRight(r, 0, cap, delay, signals, stop0 || 0 in signals)
    requires r.0 != [] ==> !(stop0 || 0 in signals) && (cap == 0 || 0 < cap)
    ensures LoopResult(r, start, cap, delay, signals, stop0)
  {
    forall i | 0 <= i < |r.0|
      ensures ChapterFile(r.0[i], start + i)
    {
      assert start + 0 + i == start + i;
    }
  }

  /** The files agree on every path outside `paths`. */
  ghost predicate AgreeOutside(a: Files, b: Files, paths: set<string>) {
    forall p :: p !in paths ==> (p in a <==> p in b) && (p in a ==> a[p] == b[p])
  }

  lemma AgreeOutsideTransitive(a: Files, b: Files, c: Files, paths: set<string>)
    requires AgreeOutside(a, b, paths) && AgreeOutside(b, c, paths)
    ensures AgreeOutside(a, c, paths)
  {
  }

  class NovelDownloader {
    const novelName: string
    const startChapter: int
    const maxChapters: int
    const outputFile: string
    const tempFile: string
    const requestDelay: real
    /** `urljoin(BASE_URL, .)` */
    const resolve: string -> string
    /** `mimetypes.guess_extension` */
    const mimeExtensions: map<string, string>
    const fs: FileSystem
    /** The replies the session's requests will meet, in order. */
    var network: Script<Page>
    /** `self.metadata`; None stands for the empty dict. */
    var metadata: Option<Metadata>
    var shouldStop: bool

    predicate Valid() {
      tempFile == outputFile + ".tmp"
    }

    /** `__init__`: the default output name is replaced by "<novel>.epub"; the temporary file sits beside it. */
    constructor (novelName: string, startChapter: int, maxChapters: int, output: string, requestDelay: real,
                 resolve: string -> string, mimeExtensions: map<string, string>, fs: FileSystem, network: Script<Page>)
      ensures Valid()
      ensures outputFile == if output == DefaultOutput then novelName + ".epub" else output
      ensures this.novelName == novelName && this.startChapter == startChapter && this.maxChapters == maxChapters
      ensures this.requestDelay == requestDelay && this.resolve == resolve && this.mimeExtensions == mimeExtensions
      ensures this.fs == fs && this.network == network
      ensures metadata.None? && !shouldStop
    {
      this.novelName := novelName;
      this.startChapter := startChapter;
      this.maxChapters := maxChapters;
      outputFile := if output == DefaultOutput then novelName + ".epub" else output;
      tempFile := (if output == DefaultOutput then novelName + ".epub" else output) + ".tmp";
      this.requestDelay := requestDelay;
      this.resolve := resolve;
      this.mimeExtensions := mimeExtensions;
      this.fs := fs;
      this.network := network;
      metadata := None;
      shouldStop := false;
    }

    /** `_handle_exit_signal`: only raises the stop flag; the loop sees it at its next test. */
    method HandleExitSignal()
      modifies this`shouldStop
      ensures shouldStop
    {
      shouldStop := true;
    }

    /** `fetch_metadata`: `self.metadata` is replaced only when the overview page came back. */
    method FetchMetadata() returns (m: Option<Metadata>)
      modifies this`network, this`metadata
      ensures m.None? <==> RequestResult(old(network), 5).None?
      ensures m.Some? ==> m.value == ParseMetadata(RequestResult(old(network), 5).value.body.overview, resolve)
      ensures metadata == if m.Some? then m else old(metadata)
      ensures network == Consume(old(network), Attempts(old(network), 5))
    {
      var req, used;
      m, req, used := Extractor.FetchMetadata(novelName, network, resolve);
      network := Consume(network, used);
      if m.Some? {
        metadata := m;
      }
    }

    /**
     * `download_chapter(n)` on the session: the request consumes replies
     * from the network; what the reply yields is `Extractor.Download`.
     */
    method DownloadChapter(n: int) returns (r: ChapterFetch)
      modifies this`network
      ensures r == Download(old(network), n, resolve)
      ensures network == Consume(old(network), Attempts(old(network), 10))
      ensures r.Fetched? ==> |network| < |old(network)|
    {
      var req, used;
      r, req, used := Extractor.DownloadChapter(novelName, n, network, resolve);
      network := Consume(network, used);
    }

    /** `_add_cover`: the cover is set only when the reply is an image; every failure is swallowed. */
    method AddCover(book: EpubBook, coverUrl: string) returns (req: Request)
      modifies book, this`network
      ensures req.url == coverUrl && req.headers == SessionHeaders && req.timeout == 10.0
      ensures network == Consume(old(network), Attempts(old(network), 5))
      ensures var c := CoverOf(RequestResult(old(network), 5), mimeExtensions);
              book.State() == if c.Some? then old(book.State()).(cover := c) else old(book.State())
    {
      req := Request("GET", coverUrl, MergeHeaders(SessionHeaders, map[]), 10.0);
      var response, used, sleeps := SafeRequest(network, 5, 3.0, 2.0);
      network := Consume(network, used);
      var c := CoverOf(response, mimeExtensions);
      if c.Some? {
        book.cover := c;
      }
    }

    /** The cover `_create_epub` ends up with, from the network it meets. */
    ghost function CoverFrom(m: Metadata, script: Script<Page>): Option<Cover> {
      if m.coverUrl.Some? && m.coverUrl.value != "" then CoverOf(RequestResult(script, 5), mimeExtensions) else None
    }

    /** The network the chapter loop meets after `_create_epub`. */
    ghost function AfterCover(m: Metadata, script: Script<Page>): Script<Page> {
      if m.coverUrl.Some? && m.coverUrl.value != "" then Consume(script, Attempts(script, 5)) else script
    }

    /**
     * `_create_epub` as `run` reaches it, with the metadata already fetched:
     * identifier, title, language, author, the Dublin Core entries, and the
     * cover when the metadata names a non-empty cover URL.
     */
    method CreateEpub() returns (book: EpubBook)
      requires metadata.Some?
      modifies this`network
      ensures fresh(book)
      ensures network == AfterCover(metadata.value, old(network))
      ensures book.State() == BaseBook(novelName, metadata.value, CoverFrom(metadata.value, old(network)))
    {
      var m := metadata.value;
      book := StartBook(m);
      if m.coverUrl.Some? && m.coverUrl.value != "" {
        var req := AddCover(book, m.coverUrl.value);
      }
    }

    /** The part of `_create_epub` before the cover: identifier, title, language, author and Dublin Core entries. */
    method StartBook(m: Metadata) returns (book: EpubBook)
      ensures fresh(book)
      ensures book.State() == BaseBook(novelName, m, None)
    {
      book := new EpubBook();
      book.identifier := novelName;
      book.title := m.title;
      book.language := "en";
      book.authors := book.authors + [m.author];
      assert book.authors == [m.author];
      if m.description != "" {
        book.dc := book.dc + [DcEntry("description", m.description)];
        assert book.dc == [DcEntry("description", m.description)];
      }
      ghost var dc0 := book.dc;
      AddSubjects(book, m.genres);
      assert book.dc == dc0 + Subjects(m.genres);
    }

    /** One Dublin Core subject per genre, in order, after the entries already there. */
    method AddSubjects(book: EpubBook, genres: seq<string>)
      modifies book
      ensures book.State() == old(book.State()).(dc := old(book.dc) + Subjects(genres))
    {
      for i := 0 to |genres|
        invariant book.State() == old(book.State()).(dc := old(book.dc) + Subjects(genres[..i]))
      {
        assert genres[..i + 1][..i] == genres[..i];
        book.dc := book.dc + [DcEntry("subject", genres[i])];
      }
      assert genres[..|genres|] == genres;
    }

    /** `save_progress`: writes the book as it is to the temporary file; a failure is only reported. */
    method SaveProgress(book: EpubBook) returns (ok: bool)
      modifies fs
      ensures fs.calls == old(fs.calls) + 1
      ensures fs.log == old(fs.log) + [WriteOp(tempFile, Epub(book.State()))]
      ensures ok <==> !fs.fails(old(fs.calls))
      ensures fs.files == WriteResult(old(fs.files), tempFile, Epub(book.State()), ok, fs.torn(old(fs.calls)))
    {
      ok := fs.Write(tempFile, Epub(book.State()));
    }

    /**
     * `finalize_epub`: adds the NCX and the navigation document, writes the
     * temporary file, removes an existing output file and renames the
     * temporary file over it, stopping at the first call that raises.
     */
    method FinalizeEpub(book: EpubBook) returns (ok: bool, ghost step: FinalizeStep)
      requires Valid()
      modifies book, fs
      ensures book.State() == Finalized(old(book.State()))
      ensures ok <==> step.Promoted?
      ensures step == FinalizeOutcome(fs.fails, old(fs.calls), outputFile in old(fs.files))
      ensures fs.log == old(fs.log) + FinalizeLog(tempFile, outputFile, book.State(), step, outputFile in old(fs.files))
      ensures fs.calls - |fs.log| == old(fs.calls) - |old(fs.log)|  // one failable call per log entry
      ensures var staged := Written(old(fs.files), tempFile, Epub(book.State()));
              match step
              case WriteFailed => fs.files == WriteResult(old(fs.files), tempFile, Epub(book.State()), false, fs.torn(old(fs.calls)))
              case RemoveFailed => outputFile in old(fs.files) && fs.files == staged
              case RenameFailed => fs.files == Removed(staged, outputFile)
              case Promoted => fs.files == Renamed(staged, tempFile, outputFile)
    {
      ghost var c0, log0, present0 := fs.calls, fs.log, outputFile in fs.files;
      book.items := book.items + [Ncx, Nav];
      ghost var finished := book.State();
      var written := fs.Write(tempFile, Epub(book.State()));
      if !written {
        assert fs.log == log0 + FinalizeLog(tempFile, outputFile, finished, WriteFailed, present0);
        return false, WriteFailed;
      }
      ghost var staged := fs.files;
      var present := fs.Exists(outputFile);
      if present {
        var removed := fs.Remove(outputFile);
        if !removed {
          assert WriteFailed != FinalizeOutcome(fs.fails, c0, present0) == RemoveFailed;
          assert fs.log == log0 + FinalizeLog(tempFile, outputFile, finished, RemoveFailed, present0);
          return false, RemoveFailed;
        }
        RenamedOverRemoved(staged, tempFile, outputFile);
      }
      var renamed := fs.Rename(tempFile, outputFile);
      step := if renamed then Promoted else RenameFailed;
      assert step == FinalizeOutcome(fs.fails, c0, present0);
      assert fs.log == log0 + FinalizeLog(tempFile, outputFile, finished, step, present0);
      return renamed, step;
    }

    /** The description page of `run`: the toc and the spine start afresh, with 'nav' first in the spine. */
    method AddDescription(book: EpubBook, desc: Item)
      modifies book
      ensures book.State() == WithChapters(old(book.State()), desc, [])
    {
      book.toc := [];
      book.spine := [NavRef];
      book.items := book.items + [desc];
      book.toc := book.toc + [DescriptionLink];
      book.spine := book.spine + [SpinePage(desc)];
      assert ChapterItems([]) == [];
    }

    /** One chapter appended in `run`: `add_item`, then the toc and the spine. */
    method AddChapter(book: EpubBook, ghost base: BookState, desc: Item, ghost chapters: seq<ChapterData>, d: ChapterData)
      requires book.State() == WithChapters(base, desc, chapters)
      modifies book
      ensures book.State() == WithChapters(base, desc, chapters + [d])
    {
      var item := ChapterItem(d);
      WithChaptersAppend(base, desc, chapters, d);
      book.items := book.items + [item];
      book.toc := book.toc + [TocPage(item)];
      book.spine := book.spine + [SpinePage(item)];
    }

    /** The periodic save of `run`, after the `count`-th chapter: every fifth chapter, the book as it is. */
    method Checkpoint(book: EpubBook, count: nat)
      modifies fs
      ensures fs.log == old(fs.log) + if count % SaveInterval == 0 then [WriteOp(tempFile, Epub(book.State()))] else []
      ensures fs.calls == old(fs.calls) + if count % SaveInterval == 0 then 1 else 0
      ensures fs.files == if count % SaveInterval == 0
                          then WriteResult(old(fs.files), tempFile, Epub(book.State()), !fs.fails(old(fs.calls)), fs.torn(old(fs.calls)))
                          else old(fs.files)
    {
      if count % SaveInterval == 0 {
        var saved := SaveProgress(book);
      }
    }

    /**
     * What the chapter loop of `run` has done so far, measured from the stop
     * flag, the log and the files it started with: the book holds the
     * description and `chapters`; the flag is up exactly when it was up at
     * the start or a signal came after the last chapter (`k in signals` says
     * a signal arrived before the loop test that follows the k-th chapter);
     * the checkpoints of `CheckpointLog` were attempted; and only the
     * temporary file was written, never removed.
     */
    ghost predicate Appended(book: EpubBook, base: BookState, desc: Item, chapters: seq<ChapterData>,
                             signals: set<nat>, stop0: bool, log0: seq<Op>, files0: Files)
      reads this`shouldStop, book, fs
    {
      && book.State() == WithChapters(base, desc, chapters)
      && (shouldStop <==> stop0 || |chapters| in signals)
      && fs.log == log0 + CheckpointLog(tempFile, base, desc, chapters)
      && AgreeOutside(fs.files, files0, {tempFile})
      && (tempFile in files0 ==> tempFile in fs.files)
    }

    /**
     * A chapter that came, in the loop body of `run`: it is appended; unless
     * the sleep raises on a negative delay (which ends the loop at its first
     * chapter), a checkpoint follows every fifth chapter; and a signal that
     * arrives before the next loop test raises the stop flag.
     */
    method Accept(book: EpubBook, ghost base: BookState, desc: Item, ghost chapters: seq<ChapterData>,
                  count: nat, d: ChapterData, signals: set<nat>, ghost stop0: bool, ghost log0: seq<Op>, ghost files0: Files)
      requires count == |chapters| && !shouldStop
      requires SleepRaises(requestDelay) ==> count == 0
      requires Appended(book, base, desc, chapters, signals, stop0, log0, files0)
      modifies book, fs, this`shouldStop
      ensures Appended(book, base, desc, chapters + [d], signals, stop0, log0, files0)
    {
      ghost var files1 := fs.files;
      AddChapter(book, base, desc, chapters, d);
      if !SleepRaises(requestDelay) {
        Checkpoint(book, count + 1);
      }
      CheckpointLogAppend(tempFile, base, desc, chapters, d);
      if count + 1 in signals {
        HandleExitSignal();
      }
      AgreeOutsideTransitive(fs.files, files1, files0, {tempFile});
    }

    /**
     * One pass of the loop body of `run`: download chapter `n`, the next one,
     * and accept it when it came. The pass ends the loop on a missing
     * chapter, an exception, or the sleep after the chapter (a negative
     * delay); otherwise the chapter is appended and the crawl from the
     * loop's start (`whole`) is the chapters so far followed by the crawl
     * from the network that is left.
     */
    method NextChapter(book: EpubBook, ghost base: BookState, desc: Item, ghost chapters: seq<ChapterData>,
                       count: nat, n: int, signals: set<nat>, ghost stop0: bool, ghost log0: seq<Op>, ghost files0: Files,
                       ghost whole: (seq<ChapterData>, StopReason))
      returns (ended: bool, stop: StopReason, count': nat, ghost chapters': seq<ChapterData>)
      requires count == |chapters| && n == startChapter + count && !shouldStop
      requires maxChapters == 0 || count < maxChapters
      requires SleepRaises(requestDelay) ==> count == 0
      requires Appended(book, base, desc, chapters, signals, stop0, log0, files0)
      requires whole == Prefixed(chapters, Crawl(network, startChapter, count, maxChapters, requestDelay, signals, shouldStop, resolve))
      modifies book, fs, this`network, this`shouldStop
      ensures count' == |chapters'| && Appended(book, base, desc, chapters', signals, stop0, log0, files0)
      ensures ended ==> whole == (chapters', stop) && stop != Interrupted
      ensures !ended ==> count' == count + 1 && !SleepRaises(requestDelay) && stop == Interrupted && |network| < |old(network)|
      ensures !ended ==> whole == Prefixed(chapters', Crawl(network, startChapter, count', maxChapters, requestDelay, signals, shouldStop, resolve))
    {
      ghost var net0 := network;
      var r := DownloadChapter(n);
      if r.Fetched? {
        Accept(book, base, desc, chapters, count, r.data, signals, stop0, log0, files0);
        chapters', count' := chapters + [r.data], count + 1;
      } else {
        chapters', count' := chapters, count;
      }
      ended := !r.Fetched? || SleepRaises(requestDelay);
      stop := if ended then EndOf(r) else Interrupted;
      CrawlNext(whole, chapters, net0, network, startChapter, count, maxChapters, requestDelay, signals, shouldStop, resolve, r,
                chapters', count', ended, stop);
    }

    /**
     * The `while` loop of `run`. Chapters start, start + 1, ... are
     * appended to the book until the stop flag, the cap, a missing chapter,
     * an exception or the sleep after a chapter ends it; a checkpoint
     * follows every fifth chapter.
     * What it appends and why it stops is `Crawl` of the network it meets.
     */
    method AppendChapters(book: EpubBook, ghost base: BookState, desc: Item, signals: set<nat>)
      returns (count: nat, stop: StopReason, ghost chapters: seq<ChapterData>)
      requires book.State() == WithChapters(base, desc, [])
      modifies book, fs, this`network, this`shouldStop
      ensures (chapters, stop) == Crawl(old(network), startChapter, 0, maxChapters, requestDelay, signals, old(shouldStop) || 0 in signals, resolve)
      ensures LoopResult((chapters, stop), startChapter, maxChapters, requestDelay, signals, old(shouldStop))
      ensures count == |chapters|
      ensures book.State() == WithChapters(base, desc, chapters)
      ensures fs.log == old(fs.log) + CheckpointLog(tempFile, base, desc, chapters)
      ensures AgreeOutside(fs.files, old(fs.files), {tempFile})
      ensures tempFile in old(fs.files) ==> tempFile in fs.files
    {
      ghost var stop0, log0, files0, net0 := shouldStop, fs.log, fs.files, network;
      count := 0;
      var current := startChapter;
      stop := Interrupted;
      chapters := [];
      if 0 in signals {
        HandleExitSignal();
      }
      ghost var whole := Crawl(net0, startChapter, 0, maxChapters, requestDelay, signals, shouldStop, resolve);
      PrefixedEnd(whole.0, whole.1);
      while !shouldStop && (maxChapters == 0 || count < maxChapters)
        invariant count == |chapters| && current == startChapter + count
        invariant maxChapters > 0 ==> count <= maxChapters
        invariant maxChapters < 0 ==> count == 0
        invariant SleepRaises(requestDelay) ==> count == 0
        invariant Appended(book, base, desc, chapters, signals, stop0, log0, files0)
        invariant whole == Prefixed(chapters, Crawl(network, startChapter, count, maxChapters, requestDelay, signals, shouldStop, resolve))
        invariant stop == Interrupted
        decreases |network|
      {
        var ended;
        ended, stop, count, chapters := NextChapter(book, base, desc, chapters, count, current, signals, stop0, log0, files0, whole);
        if ended {
          break;
        }
        current := current + 1;
      }
      if stop == Interrupted {
        CrawlEmpty(network, startChapter, count, maxChapters, requestDelay, signals, shouldStop, resolve);
        if !shouldStop {
          stop := CapReached;
        }
        PrefixedEnd(chapters, stop);
      }
      CrawlFromStart(net0, startChapter, maxChapters, requestDelay, signals, stop0, resolve);
    }

    /**
     * The `finally` block of `run`: one more save, then exactly one
     * finalization; on success the output file holds the finished book and
     * the temporary file is gone, on failure the temporary file is kept.
     */
    method Conclude(book: EpubBook) returns (ok: bool, ghost step: FinalizeStep)
      requires Valid()
      modifies book, fs
      ensures book.State() == Finalized(old(book.State()))
      ensures step == FinalizeOutcome(fs.fails, old(fs.calls) + 1, outputFile in old(fs.files))
      ensures fs.log == old(fs.log) + [WriteOp(tempFile, Epub(old(book.State())))]
                        + FinalizeLog(tempFile, outputFile, book.State(), step, outputFile in old(fs.files))
      ensures fs.calls - |fs.log| == old(fs.calls) - |old(fs.log)|
      ensures ok <==> step.Promoted?
      ensures AgreeOutside(fs.files, old(fs.files), {tempFile, outputFile})
      ensures ok ==> outputFile in fs.files && fs.files[outputFile] == Epub(book.State()) && tempFile !in fs.files
      ensures !ok ==>
                && (outputFile in fs.files ==> outputFile in old(fs.files) && fs.files[outputFile] == old(fs.files)[outputFile])
                && (tempFile in old(fs.files) ==> tempFile in fs.files)
                && (!step.WriteFailed? ==> tempFile in fs.files && fs.files[tempFile] == Epub(book.State()))
      // A rename that fails after the removal loses the previous output.
      ensures step.RenameFailed? ==> outputFile !in fs.files
    {
      var saved := SaveProgress(book);
      ok, step := FinalizeEpub(book);
      if ok {
        // The temporary file went with the rename, so the removal that follows a success never fires.
        var leftover := fs.Exists(tempFile);
        assert !leftover;
      }
    }

    /**
     * What a run that got past the metadata has done, given the network,
     * the stop flag, the files and the log it started from: the book with
     * the cover the network gave; the chapters and the stop reason `Crawl`
     * yields on the network left after the cover; the finished book; every
     * checkpoint, one more save and exactly one finalization attempted; only
     * the temporary and the output file touched, the output holding the
     * finished book (and the temporary file gone) exactly when the
     * finalization succeeded, and the temporary file holding it when only the
     * removal or the rename failed.
     */
    ghost predicate Finished(m: Metadata, outcome: RunOutcome, chapters: seq<ChapterData>, written: BookState,
                             step: FinalizeStep, script: Script<Page>, signals: set<nat>, stop0: bool,
                             files0: Files, log0: seq<Op>, files: Files, log: seq<Op>)
    {
      && outcome.Ended?
      && var base := BaseBook(novelName, m, CoverFrom(m, script));
         var desc := DescriptionItem(m);
         && (chapters, outcome.stop) == Crawl(AfterCover(m, script), startChapter, 0, maxChapters, requestDelay, signals, stop0 || 0 in signals, resolve)
         && LoopResult((chapters, outcome.stop), startChapter, maxChapters, requestDelay, signals, stop0)
         && outcome.chapters == |chapters|
         && written == Finalized(WithChapters(base, desc, chapters))
         && log == log0 + CheckpointLog(tempFile, base, desc, chapters) + [WriteOp(tempFile, Epub(WithChapters(base, desc, chapters)))]
                   + FinalizeLog(tempFile, outputFile, written, step, outputFile in files0)
         && AgreeOutside(files, files0, {tempFile, outputFile})
         && (outcome.finalized <==> step.Promoted?)
         && (outcome.finalized ==> outputFile in files && files[outputFile] == Epub(written) && tempFile !in files)
         && (!outcome.finalized && tempFile in files0 ==> tempFile in files)
         && (!outcome.finalized && !step.WriteFailed? ==> tempFile in files && files[tempFile] == Epub(written))
    }

    /** The pieces of `run` after the metadata, put together. */
    lemma FinishedIntro(m: Metadata, outcome: RunOutcome, chapters: seq<ChapterData>, written: BookState,
                        step: FinalizeStep, script: Script<Page>, signals: set<nat>, stop0: bool,
                        files0: Files, log0: seq<Op>, files: Files, log: seq<Op>,
                        base: BookState, desc: Item, book1: BookState, files1: Files, log1: seq<Op>)
      requires Valid() && outcome.Ended?
      requires base == BaseBook(novelName, m, CoverFrom(m, script)) && desc == DescriptionItem(m)
      // after the chapter loop
      requires (chapters, outcome.stop) == Crawl(AfterCover(m, script), startChapter, 0, maxChapters, requestDelay, signals, stop0 || 0 in signals, resolve)
      requires LoopResult((chapters, outcome.stop), startChapter, maxChapters, requestDelay, signals, stop0)
      requires outcome.chapters == |chapters|
      requires book1 == WithChapters(base, desc, chapters)
      requires log1 == log0 + CheckpointLog(tempFile, base, desc, chapters)
      requires AgreeOutside(files1, files0, {tempFile}) && (tempFile in files0 ==> tempFile in files1)
      // after the `finally` block
      requires written == Finalized(book1)
      requires log == log1 + [WriteOp(tempFile, Epub(book1))] + FinalizeLog(tempFile, outputFile, written, step, outputFile in files1)
      requires outcome.finalized <==> step.Promoted?
      requires AgreeOutside(files, files1, {tempFile, outputFile})
      requires outcome.finalized ==> outputFile in files && files[outputFile] == Epub(written) && tempFile !in files
      requires !outcome.finalized ==> (tempFile in files1 ==> tempFile in files)
                                      && (!step.WriteFailed? ==> tempFile in files && files[tempFile] == Epub(written))
      ensures Finished(m, outcome, chapters, written, step, script, signals, stop0, files0, log0, files, log)
    {
      assert outputFile in files1 <==> outputFile in files0;
      AgreeOutsideTransitive(files, files1, files0, {tempFile, outputFile});
    }

    /**
     * `run` once the metadata is in: the book is created, the description
     * page added, the chapters appended and the `finally` block run once,
     * whichever way the loop ended.
     */
    method BuildBook(signals: set<nat>) returns (outcome: RunOutcome, ghost chapters: seq<ChapterData>,
                                                     ghost written: BookState, ghost step: FinalizeStep)
      requires Valid() && metadata.Some?
      modifies this`network, this`shouldStop, fs
      ensures Finished(metadata.value, outcome, chapters, written, step, old(network), signals, old(shouldStop),
                       old(fs.files), old(fs.log), fs.files, fs.log)
    {
      ghost var net0, files0, log0 := network, fs.files, fs.log;
      var m := metadata.value;
      var book := CreateEpub();
      ghost var base := book.State();
      var desc := DescriptionItem(m);
      AddDescription(book, desc);
      var count, stop;
      count, stop, chapters := AppendChapters(book, base, desc, signals);
      ghost var files1, log1, book1 := fs.files, fs.log, book.State();
      var ok;
      ok, step := Conclude(book);
      written := book.State();
      outcome := Ended(count, stop, ok);
      FinishedIntro(metadata.value, outcome, chapters, written, step, old(network), signals, old(shouldStop),
                    old(fs.files), old(fs.log), fs.files, fs.log, base, desc, book1, files1, log1);
    }

    /** `run`: nothing is written when the metadata cannot be fetched. */
    method Run(signals: set<nat>) returns (outcome: RunOutcome, ghost chapters: seq<ChapterData>,
                                               ghost written: BookState, ghost step: FinalizeStep)
      requires Valid()
      modifies this, fs
      ensures outcome.Aborted? <==> RequestResult(old(network), 5).None?
      ensures outcome.Aborted? ==> fs.files == old(fs.files) && fs.log == old(fs.log) && fs.calls == old(fs.calls)
      // Left open: the replies still unread, the stop flag and `fs.calls` after a run that ended.
      // `run` is the last thing the program does, so nothing reads them afterwards.
      ensures outcome.Ended? ==>
                && metadata == Some(ParseMetadata(RequestResult(old(network), 5).value.body.overview, resolve))
                && Finished(metadata.value, outcome, chapters, written, step, Consume(old(network), Attempts(old(network), 5)),
                            signals, old(shouldStop), old(fs.files), old(fs.log), fs.files, fs.log)
    {
      var m := FetchMetadata();
      if m.None? {
        return Aborted, [], BookState("", None, "", [], [], None, [], [], []), WriteFailed;
      }
      outcome, chapters, written, step := BuildBook(signals);
    }
  }
}

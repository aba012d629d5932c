# FreeWebNovel downloader: a verified model

This project models the core of `main.py`, a scraper that downloads a web
novel chapter by chapter from freewebnovel.com and packs it into an EPUB.
`NovelDownloader` does four things. It sends HTTP requests through a
retry loop with exponential backoff (`safe_request`). It fetches each
chapter and cleans it up (`download_chapter`, `_process_chapter_content`).
It grows the book's item list, table of contents and spine as chapters
arrive, saving a checkpoint every fifth chapter (`run`). Finally it writes
the book to a temporary file and promotes that file over the output file
(`save_progress`, `finalize_epub`).

The collaborators are abstract:

- **Network.** The session meets a *script*: the k-th request gets the
  k-th scripted outcome, either a reply with a status and a page or a
  transport exception. A request past the end of the script fails as a
  connection error. The class field `network` holds the replies that have
  not been used yet.
- **HTML.** Pages are trees of a `Node` datatype. The parser's selector
  engine is replaced by the lookup results a page carries, one per lookup
  the scraper makes on it.
- **File system.** `Storage.FileSystem` is a map from path to file
  contents with a fault oracle. The oracle says whether the k-th write,
  remove or rename raises.
- **Signals.** A signal is given as the set of chapter counts after which
  a SIGINT or SIGTERM arrives before the loop tests the stop flag again.

The chapter loop of `run` is specified by `Crawl`, a function of the replies
the loop meets. It gives the chapters appended and the reason the loop
stopped. `AppendChapters` returns exactly what `Crawl` gives, and lemmas
about `Crawl` state what every run appends and why it stops. The tree
transformations (the sanitiser, the title search) are also stated on the
document-order walk of the tree (`Html.Tokens`): the sequence of opening
tags, closing tags and strings a reader meets.

Modules:

- `Strings`: `strip`, `str(int)`, `startswith`, `join`.
- `Html`: the element tree, attributes, `.text` and `str()`.
- `Sanitizer`: `_process_chapter_content`.
- `Fetcher`: `safe_request`.
- `Book`: the EPUB book object and the two page templates.
- `Extractor`: what `download_chapter`, `fetch_metadata` and `_add_cover`
  read from a reply.
- `Storage`: the file system.
- `Downloader`: the `NovelDownloader` object and `run`.

## Model

| member | source | states |
|---|---|---|
| Fetcher.SafeRequest | main.py:79-166 | Returns the first 200 or 404 reply among at most `max_retries + 1` requests and sends nothing after it. Every earlier reply, and every reply when it returns None, was retried. It returns None only after all `max_retries + 1` attempts. A sleep with delay `initial * factor^k` follows exactly the failed attempts numbered below `max_retries`. |
| Fetcher.FirstFinal | main.py:113-131 | The index of the first 200 or 404 reply among the attempts, with no such reply before it; None when no attempt got one. |
| Fetcher.RequestResult | main.py:113-166 | What `safe_request` returns: a reply exactly when one of the first `max_retries + 1` attempts got a 200 or 404, and that reply's status is 200 or 404. |
| Fetcher.Attempts | main.py:113-166 | How many requests `safe_request` sends: one to `max_retries + 1`. Every attempt before the last was retried, and stopping early means the last one was final. |
| Fetcher.Sleeps | main.py:156-162 | The k-th sleep follows attempt k + 1 and waits the k-th backoff delay. |
| Fetcher.MergeHeaders | main.py:108-111 | The request carries the session headers updated with the call's own headers, the call's headers winning. |
| Strings.Strip | main.py:205-208 | `str.strip()`: the infix left after leading and trailing whitespace goes; it neither starts nor ends with whitespace. |
| Strings.StripIdempotent | main.py:205-208 | Stripping a stripped text changes nothing. |
| Strings.NatToString | main.py:331 | The decimal digits of the chapter number, with no leading zero. |
| Strings.IntToString | main.py:300 | `str(n)` of an int: a minus sign exactly when n is negative. |
| Strings.DigitsValueOfNatToString | main.py:331 | Reading the digits back gives the number. |
| Strings.IntToStringInjective | main.py:331 | Different numbers render differently. |
| Strings.JoinAppend | main.py:268 | `', '.join` of one more genre is the join so far, the separator, then that genre; with the empty and one-genre cases of `Join`, this fixes `Join` on every list. |
| Strings.ConcatIsJoin | main.py:192 | `''.join` is `Join` with the empty separator. |
| Html.GetAttr | main.py:210-213 | `tag.get(name)`: None exactly when no attribute has that name; otherwise the value of an attribute with that name. |
| Html.SetAttr | main.py:294 | `tag[name] = value`: every entry keeps its place; the entries with that name get the new value and the others are untouched. |
| Html.HasOwnClass | main.py:311 | An element whose `class` is the single word `c` matches `class_=c`. |
| Html.TextInAppend | main.py:314 | `.text` of a run of siblings is the concatenation of their texts, inside a string container or not. |
| Html.NoPlainInside | main.py:314 | No string below a script, style, template, rt or rp element counts as a plain string. |
| Html.ContainerAddsNoText | main.py:313-315 | A script, style, template, rt or rp child adds nothing to the `.text` of an ordinary element, wherever it sits among the children. |
| Html.TextOfWalk | main.py:314 | `.text` is the strings met on the document-order walk, in order, of the element's own kind. For an ordinary element these are the strings outside every script, style, template, rt and rp element (Beautiful Soup's string containers). For a container they are its own strings. |
| Html.UnescapeEscape | main.py:330 | Outside a script or a style, `str()` escapes `&`, `<` and `>` in text without losing anything: unescaping gives the text back. |
| Html.StringRendering | main.py:330 | `str()` writes a string as it is when its parent is a script or a style, and escaped elsewhere; the attributes come sorted by name, list attributes such as `class` joined with single spaces. |
| Html.SortAttrsSorted | main.py:330 | The formatter writes the attributes sorted by name, each of them once: the written list is sorted and a permutation of the element's attributes. |
| Html.StrLeTotal | main.py:330 | Python's string order, used to sort the attribute names, is total. |
| Html.RenderInAppend | main.py:330 | The serialisation of a run of siblings is the concatenation of theirs, under a script or a style or not. |
| Html.ConcatRendered | main.py:192 | `''.join(str(p) for p in ps)` is the serialisation of the siblings `ps`. |
| Sanitizer.ProcessContent | main.py:286-296 | The content element itself keeps its tag and its attributes: both loops work only below it. |
| Sanitizer.PruneAllIsClean | main.py:288-290 | After the first loop, no `script`, `ins` or `div.ad` element remains at any depth. |
| Sanitizer.PruneNodeIsClean | main.py:288-290 | The same for one node and its descendants. |
| Sanitizer.PruneAllOfClean | main.py:288-290 | The first loop changes nothing in a tree without listed elements. |
| Sanitizer.PruneAllIsCut | main.py:288-290 | The first loop, on the document-order walk, cuts out each listed element's subtree and nothing else: every other node keeps its place and order. At every container depth, the text is the text of the walk with the listed subtrees cut out. |
| Sanitizer.RewriteKeepsClean | main.py:292-294 | Rewriting `src` attributes brings back no listed element. |
| Sanitizer.RewriteKeepsText | main.py:292-294 | Rewriting `src` attributes leaves the text unchanged, at every container depth. |
| Sanitizer.RewriteAllOfPlain | main.py:292-294 | The second loop changes nothing when no `img` has a `src`. |
| Sanitizer.RewriteWalk | main.py:292-294 | The second loop, on the document-order walk: everything but the `src` of an `img` that has one stays as it was, and the list of those `src` values becomes `resolve` of each old value, in order. |
| Sanitizer.RewriteResolvesSrcs | main.py:292-294 | With an idempotent resolver, every `img` `src` afterwards is a fixed point of the resolver. |
| Sanitizer.RewriteAllIdempotent | main.py:292-294 | With an idempotent resolver, a second rewrite changes nothing. |
| Sanitizer.GetAfterSet | main.py:294 | After `img['src'] = v`, reading `src` gives v. |
| Sanitizer.SetTwice | main.py:294 | Setting `src` twice equals setting it to the last value. |
| Sanitizer.ProcessedIsClean | main.py:286-296 | No `script`, `ins` or `div.ad` element remains in the processed content. |
| Sanitizer.ProcessedWalk | main.py:286-296 | Walked in document order, the processed content is its input walk with every listed subtree cut out, in which only `img` `src` values differ, each now `resolve` of its own old value, in order. |
| Sanitizer.ProcessedSrcsResolved | main.py:286-296 | Every `img` `src` in the processed content is a fixed point of an idempotent resolver. |
| Sanitizer.ProcessContentIdempotent | main.py:286-296 | Processing twice equals processing once, given an idempotent resolver. |
| Sanitizer.ProcessContentOfPlain | main.py:286-296 | Content with nothing to remove or rewrite is returned unchanged. |
| Sanitizer.PlainIsClean | main.py:288-290 | Content with nothing to touch has no listed element. |
| Sanitizer.ProcessContentKeepsText | main.py:286-296 | The processed content's `.text` is the `.text` of its walk with every listed subtree cut out, in order. On content without listed elements it is the content's own `.text`. |
| Sanitizer.AdDivIsKept | main.py:289 | A `div` is never removed, whatever its attributes (a `class="ad"` included): `'div.ad'` is matched as a tag name. |
| Extractor.ChapterHeaders | main.py:304 | A Referer header is present exactly when n > 1, and it is the URL of chapter n - 1. |
| Extractor.FileNamesDistinct | main.py:331 | Different chapters get different file names `chapter_{n}.xhtml`. |
| Extractor.ChapterUrlsDistinct | main.py:300 | Different chapters are fetched from different URLs. |
| Extractor.TitleIn | main.py:321 | `find('span', class_='chapter')` over siblings: a title span, None exactly when there is none. |
| Extractor.TitleBelow | main.py:321 | The same search strictly inside one node. |
| Extractor.WithoutTitle | main.py:324 | `decompose()` of the span found: the siblings are unchanged when there is none; otherwise the count of title spans drops by that span's own count. |
| Extractor.WithoutTitleBelow | main.py:324 | The same for the descendants of one node. |
| Extractor.FirstTitleIsFirst | main.py:321 | The position the search reports on a walk is a `span.chapter` opening tag, and no opening tag before it is one. |
| Extractor.TitleWalk | main.py:321-324 | On the document-order walk, `find` returns the element at the first title-span opening tag, None exactly when the walk has none; `decompose()` takes out exactly that element's stretch of the walk, and everything before and after it stays in order. |
| Extractor.WithoutTitleKeepsClean | main.py:318-324 | Removing the title span from sanitised content keeps it sanitised. |
| Extractor.ResolveTitle | main.py:318-326 | The body keeps no listed element once the title span is resolved. |
| Extractor.ParseChapter | main.py:310-332 | None exactly when there is no `div.txt`, or when `div#article` holds the missing-content marker. The marker is checked only once the content div exists. AttributeError exactly when the content div exists but `div#article` does not. A chapter has file name `chapter_{n}.xhtml` and a sanitised body. |
| Extractor.MarkerBesideScript | main.py:313-317 | A `div#article` whose text without a script, style, template, rt or rp child is the missing-content marker still yields no chapter with that child present, because `.text` skips it. |
| Extractor.ChapterTitle | main.py:318-332 | The title is the stripped text of the first `span.chapter` of the page, else `"Chapter n"`. A span ahead of the content leaves the sanitised body as it is. A span inside it is the first one on the body's walk and is cut out of the body, nothing else. With none in the body, the body is the sanitised content. |
| Extractor.Download | main.py:298-336 | What `download_chapter(n)` yields from the replies: a chapter is named after n and sanitised, and it needs a reply from the script itself. |
| Extractor.DownloadChapter | main.py:298-336 | Requests the chapter URL and keeps the session headers. Sends a Referer exactly when n > 1. Makes one to eleven requests (`max_retries=10`). Returns None when the retry loop gives up; otherwise it parses whatever page came back, a 404 page included. |
| Extractor.GetText | main.py:205-208 | None exactly when the element is missing. |
| Extractor.GetSrc | main.py:210-213 | A `src` comes from the element that was found. |
| Extractor.ParseMetadata | main.py:187-198 | Title and status are the stripped texts or None. The author is the stripped text when non-empty, else `"Unknown Author"`. Genres are the stripped texts in order. The description is the serialisations of the description elements joined with `''`. The cover URL is None exactly when there is no `src`; a non-empty one is resolved and an empty one stays empty. |
| Extractor.FetchMetadata | main.py:168-203 | Requests the overview page with the session headers and makes one to six requests. None exactly when the retry loop gives up; otherwise the metadata of the page that came back. |
| Extractor.CoverOf | main.py:240-255 | A cover is attached exactly when a reply came and its Content-Type starts with `image/`. The cover holds the reply's bytes and is named `cover.jpg` when the MIME table has no extension. |
| Book.PyStr | main.py:265-267 | `f"{x}"`: a present value prints as itself; the text is `None` exactly when the value is missing or is that text. |
| Book.DescriptionPage | main.py:271-284 | The page contains the title in an `h1`, the Author, Status and Genres lines, and the description in `div.description`, all spliced in unescaped. |
| Book.ChapterPage | main.py:345-354 | The page contains the title in `<title>` and in an `h1`, and the body in `div.content`, unescaped. |
| Storage.Written | main.py:359 | A write puts the book at the path and leaves every other path alone. |
| Storage.Removed | main.py:376 | A removal drops the path and leaves every other path alone. |
| Storage.Renamed | main.py:377 | A rename moves the source's contents to the target, replacing it; the source is gone and every other path is unchanged. |
| Storage.RenamedOverRemoved | main.py:375-377 | Removing the output before renaming over it leaves the same files as renaming over it directly. |
| Storage.FileSystem.Exists | main.py:375 | True exactly when the path holds a file. |
| Storage.WriteResult | main.py:359 | The files after `write_epub`: on success the path holds the book. On failure the files are unchanged, unless the oracle says the archive was already opened; the path then holds a truncated archive. Every other path is kept either way. |
| Storage.FileSystem.Write | main.py:359 | Succeeds exactly when the call does not fail, and the files become `WriteResult` of the outcome and the torn oracle. The attempt is logged. |
| Storage.FileSystem.Remove | main.py:376 | Succeeds exactly when the path exists and the call does not fail. The attempt is logged. |
| Storage.FileSystem.Rename | main.py:377 | Succeeds exactly when the source exists and the call does not fail. The attempt is logged. |
| Downloader.DcEntries | main.py:227-232 | The description entry first when the description is non-empty, then one subject per genre in order. |
| Downloader.DescriptionItem | main.py:257-269 | The page `description.xhtml`, titled "Description", holding the title (`None` when missing), author, status, the genres joined with `', '`, and the description. |
| Downloader.ChapterItem | main.py:338-344 | The page is named and titled after the chapter and holds its title and its serialised body. |
| Downloader.WithChaptersLayout | main.py:396-419 | Items are the base items, the description, then the chapter pages. The toc is the description link, then the chapters in fetch order. The spine is 'nav', the description, then the same chapters. |
| Downloader.WithChaptersAppend | main.py:416-419 | Appending a chapter appends its page to items, toc and spine. |
| Downloader.CheckpointsEveryInterval | main.py:426-427 | After c chapters there were c / 5 checkpoint writes of the temporary file, the i-th one holding the book with the first 5(i + 1) chapters. |
| Downloader.Crawl | main.py:410-428 | The loop appends a chapter only when the stop flag is down and the cap is not reached. When it appends none, it ended on the flag exactly when the flag was up. |
| Downloader.EndOf | main.py:410-423 | How a pass ends the loop: a missing chapter, an exception, or the sleep after a chapter; never the flag or the cap. The sleep ends it exactly when a chapter came. |
| Downloader.CrawlNext | main.py:410-428 | One pass on the crawl as a whole. Either it ends the crawl, with the chapter that came if any and the pass's reason, or the crawl is the chapters so far and this one, followed by the crawl of the network left with the flag after the chapter. |
| Downloader.CrawlSleepFails | main.py:421-423 | With a negative `request_delay`, the first chapter that comes is the last: `time.sleep` raises after it is appended, and the loop ends with `SleepFailed`. |
| Downloader.CrawlChapters | main.py:410-421 | Every run of the loop appends chapters `start + count`, `start + count + 1`, … with no gaps, each named after its number and sanitised, and no more than a positive cap allows. |
| Downloader.CrawlStops | main.py:410-428 | Every run of the loop ends on the stop flag exactly when the flag was up before the first test or a signal came after the last chapter, with no signal between chapters. It ends on the sleep exactly when a chapter came under a negative delay, after that one chapter. It ends on the cap only at the cap, and on a missing chapter or an exception only below it. |
| Downloader.CrawlFromStart | main.py:406-428 | The same facts for the loop as `run` starts it, from chapter count 0: none appended under a negative cap, and none when the flag was already up. |
| Downloader.NovelDownloader.constructor | main.py:45-67 | The default output name becomes `<novel>.epub`. The temporary file is the output name plus `.tmp`. No metadata is held and the stop flag is down. |
| Downloader.NovelDownloader.HandleExitSignal | main.py:74-77 | The handler only raises the stop flag. |
| Downloader.NovelDownloader.FetchMetadata | main.py:168-203 | `self.metadata` is replaced only when the overview page came back; exactly the requests made are consumed. |
| Downloader.NovelDownloader.DownloadChapter | main.py:298-336 | The result is what `Extractor.Download` yields on the network as it is, and the requests made are consumed; a chapter consumes at least one reply. |
| Downloader.NovelDownloader.AddCover | main.py:240-255 | Requests the cover with a 10-second timeout. The book's cover changes exactly when the reply is an image; nothing else changes. |
| Downloader.NovelDownloader.CreateEpub | main.py:215-238 | The new book holds the identifier, the title, language `en`, the author and the Dublin Core entries. It holds the cover only when the metadata names a non-empty cover URL and the reply is an image. Otherwise no request is made. |
| Downloader.NovelDownloader.StartBook | main.py:215-232 | A new book with the identifier, the title, language `en`, the author and the Dublin Core entries, and no cover yet. |
| Downloader.NovelDownloader.AddSubjects | main.py:231-232 | One subject entry per genre, in order, after the entries already there. |
| Downloader.NovelDownloader.SaveProgress | main.py:356-363 | Writes the book as it is to the temporary file and logs that one call; the files become `WriteResult` of the outcome, and a failure is only reported. |
| Downloader.NovelDownloader.FinalizeEpub | main.py:365-382 | Adds the NCX and the nav document, writes the temporary file, removes an existing output and renames. How far it gets is `FinalizeOutcome` of the fault oracle, and exactly the calls it attempted are logged. The call count grows by one per logged call. The result is true exactly when all of them succeed. The files after each failure point are stated: a failed write leaves them as `WriteResult` says, and a failed rename after the removal leaves no output file. |
| Downloader.NovelDownloader.AddDescription | main.py:396-403 | toc and spine start afresh: the toc holds the description link and the spine holds 'nav' and the description page. |
| Downloader.NovelDownloader.AddChapter | main.py:416-419 | The chapter page goes at the end of items, toc and spine. |
| Downloader.NovelDownloader.Checkpoint | main.py:426-428 | Exactly when the chapter count is a multiple of 5, one write of the book as it is to the temporary file is attempted and logged; the files become `WriteResult` of that write, so on success the temporary file holds that book. Otherwise nothing happens. |
| Downloader.NovelDownloader.Accept | main.py:416-428 | A fetched chapter extends the book, the checkpoint log and the stop flag consistently. Under a negative delay the sleep raises before the checkpoint test, which can only happen at the first chapter. |
| Downloader.NovelDownloader.NextChapter | main.py:410-428 | One loop pass. A fetched chapter is accepted. A missing chapter, an exception, or the sleep under a negative delay ends the loop, and the crawl as a whole is then the chapters so far with its reason. Otherwise the crawl as a whole is the chapters so far followed by `Crawl` of the network left. |
| Downloader.NovelDownloader.AppendChapters | main.py:406-428 | The chapters appended and the stop reason are exactly `Crawl` of the network the loop meets, so they keep everything CrawlFromStart states. `chapter_count` is their number, the book holds them in order, the checkpoint writes are `CheckpointLog`, and only the temporary file changes. |
| Downloader.NovelDownloader.Conclude | main.py:429-442 | One more save of the book, then exactly one finalization, both logged, with one failable call per log entry. On success the output holds the finished book and the temporary file is gone. On failure the old output is left unchanged if it is still there, and after the write succeeded the temporary file holds the finished book. |
| Downloader.NovelDownloader.BuildBook | main.py:394-442 | The base book has the cover the network gave. The chapters and the stop reason are `Crawl` of the network left after the cover, with everything CrawlFromStart states. The finished book is the base book, the description page, the chapters in order, then NCX and nav. The log is the checkpoints, one save and one finalization. Only the temporary and output files are touched; which holds the finished book depends on how far the finalization got. |
| Downloader.NovelDownloader.Run | main.py:384-442 | Aborts, making no file-system call, exactly when the metadata request gives up. Otherwise it holds the parsed metadata and ends as BuildBook states, on the network left after the metadata requests. |

## Left out

- Logging, `argparse`, `main()` and the signal registration are not modelled; they add no behaviour to the core.
- `time.sleep` and `time.time` are not modelled. Sleeps are recorded with their delay before jitter; the `random.random()` jitter is not. The per-chapter `request_delay` sleep is modelled only as the `ValueError` it raises on a negative delay.
- The HTTP transport is a scripted list of outcomes. `requests.Session` itself, the query parameters and the HTTP method are not modelled. Timeouts and headers are recorded on the request value only.
- The request headers name only the session's own headers and the Referer. `requests.Session()` also sends its default `Accept`, `Accept-Encoding` and `Connection` headers, and those are not modelled.
- BeautifulSoup parsing and CSS selector semantics are not modelled. A page carries the results of the lookups made on it. `urljoin(BASE_URL, ·)` is the parameter `resolve`, and `mimetypes.guess_extension` is a map.
- A `span.chapter` that encloses `div.txt` is not modelled. The page-wide `soup.find` would return that span, and `decompose()` would then take the content out with it. The lookup ahead of the content only covers spans that do not enclose it.
- `ebooklib` serialisation is not modelled: a written file holds the book value. The cover item that `set_cover` adds is recorded as the book's `cover` field rather than as a manifest item.
- Sanitizer.ProcessContent: modelled on tree values. BeautifulSoup's in-place `decompose()` and attribute update on a shared tree (aliasing between `content_div` and the soup) are not captured. The title span found by the whole-page search is modelled by its position: ahead of the content, inside it, or after it.
- RewriteResolvesSrcs: states only that each `src` is a fixed point of an idempotent resolver. That each `src` became `resolve` of its own old value is stated by RewriteWalk.
- ProcessedSrcsResolved: states only that each `src` is a fixed point of an idempotent resolver. That each `src` became `resolve` of its own old value is stated by ProcessedWalk.
- TitleIn: its own contract does not say which span is found. That it is the first in document order is stated by TitleWalk.
- TitleBelow: the same; TitleWalk states it for the descendants of one node as well.
- WithoutTitle: its own contract counts title spans only. That nothing but the found span's subtree is removed is stated by TitleWalk.
- WithoutTitleBelow: the same; TitleWalk states it for the descendants of one node as well.
- Crawl: its own contract states only when a chapter can be appended. What every run appends and why it stops are CrawlChapters, CrawlStops and CrawlFromStart.
- Downloader.NovelDownloader.CreateEpub: requires the metadata to be present. `run` reaches `_create_epub` only after `fetch_metadata` succeeded, so the refetch branch of `_create_epub` and its fallbacks for missing keys (`'Unknown'`, a title made from the novel name) are not modelled.
- The removal of the temporary file after a successful finalization is not modelled separately: the rename has already moved that file, so that removal never fires.
- The `ValueError` handler of `fetch_metadata` and the generic handler of `_add_cover` are not modelled: the lookups cannot raise.
- Concurrency of signal delivery is not modelled. A signal that arrives during a chapter is seen at the next loop test, as a flag set between passes.
- Storage.FileSystem.Write: a failed `write_epub` either leaves the files as they were or leaves a truncated archive at the path. The `torn` oracle picks which, since ebooklib opens the zip file before it serialises the book. How much of the archive was written, and whether an ebooklib release swallows the error, are not modelled.
- Permissions and directories are not modelled; the fault oracle decides which remove or rename raises.
- Html.TextOf: the element is taken to stand outside every string container, as `div#article` and `span.chapter` do. Comments, CDATA sections, doctypes and processing instructions are not modelled. The string containers are those of Beautiful Soup 4.10 and later.
- Html.Render: duplicate attribute names are not modelled (html.parser keeps one per name). The formatter's handling of entities other than `&`, `<` and `>` is not modelled either.
- Crawl: a `request_delay` that is NaN or infinite is not modelled; `real` has neither.

## Notes on the source

- A missing title or status in the metadata is None, so the description page prints the text `None` for it.
- Any reply from the retry loop is parsed, including a 404 page. For a missing chapter, the site's page lacks `div.txt` or carries the missing-content marker.
- When `div.txt` exists but `div#article` does not, `.text` of None raises AttributeError. The `RequestException` handler does not catch it, so `run`'s `finally` block saves and finalizes and the error then propagates. `RunOutcome.Ended` with `ChapterError` stands for that.
- A negative `max_chapters` stops the loop before the first chapter.
- `finalize_epub` removes the existing output before renaming. If the rename then fails, the previous output is gone and only the temporary file holds the book.

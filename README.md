# e621 scraper core, modelled in Dafny

This project models the core of `e621_scwaper.py`, an interactive scraper for the e621 image board. The model covers the path a scrape takes from the answers the user types to the end of the download loop:

- **Query building.** `build_tag_query` strips the user's tags and drops the empty ones. It then negates every blacklisted tag with a leading `-`, joins all tokens with single spaces and strips the result. A comma-separated line typed by the user becomes a tag list in the same way in four places (lines 67, 185, 211 and 301). A pool scrape asks for `pool:<id>` instead.
- **Availability scan.** `scan_query` asks for pages 1, 2, ... of 20 posts, up to 200 pages. It stops at the first page that is empty or short. It returns the page number it stopped at (201 when the cap is hit) and the number of posts it saw.
- **Page selection.** The answer `all`, in any case, takes every available page. An integer is capped at the available pages, but a negative one is not raised. Any other answer falls back to one page.
- **Bulk fetch.** Pages 1..N (N = the selected page count) are fetched again and concatenated. The fetch stops at the first empty page.
- **Filter and expected size.** Posts with a non-empty `file.url` are kept. Their `file.size` values are added up, a missing size counting as 0.
- **Download loop.** One `download_image` per kept post:
  - The file is saved under the last path segment of the URL, with the query string removed.
  - In pool mode a three-digit counter goes in front of the extension (`append_counter_to_filename`, `os.path.splitext` rules).
  - Only a saved file advances `current_file_count`, `downloaded_bytes` and `pool_counter`.

The modules follow the program's structure:

| module | file | what it models |
|---|---|---|
| `Wrappers` | `wrappers.dfy` | `Option` |
| `Text` | `text.dfy` | `str.strip`, `str.split`, `str.join`, `find`/`rfind`, `str(n)`, `int()`, ASCII `lower()` |
| `TagQuery` | `tag_query.dfy` | `build_tag_query` and the comma-list parsing |
| `Filenames` | `filenames.dfy` | `os.path.basename`, `os.path.splitext`, `{c:03d}`, `append_counter_to_filename`, the download name |
| `Posts` | `posts.dfy` | the post record, the URL filter, the size sum |
| `Scanner` | `scanner.dfy` | `scan_query` and the bulk fetch |
| `Counting` | `counting.dfy` | counting, summing and picking out along a run of attempts |
| `Scrape` | `scrape.dfy` | page selection, the expected-bytes loop, `download_image`, the download loop and `option_scrape` as a whole |

The network and the disk are parameters:

- A **page oracle** (`Scanner.PageOracle`, `Scrape.Site`) gives the posts of a page. A failed request gives no posts, which is what `fetch_posts` returns on an HTTP error or an exception.
- A **transfer oracle** (`Scrape.Transfer`) gives, for the i-th download attempt and its URL, the number of bytes written, or `None` when the status was not 200 or the transfer failed.

The loops of the program are methods here: `scan_query` is `Scanner.ScanQuery`, and the bulk fetch, the expected-size sum and the download loop of `option_scrape` (lines 257-279) are `Scanner.BulkFetch`, `Scrape.ExpectedBytes` and `Scrape.DownloadAll`. `download_image` is a function, `Scrape.DownloadImage`, because its chunk loop is folded into the transfer oracle. Each method is proved against a specification:

- `Scanner.IsScanOutcome` characterises the scan and admits exactly one outcome.
- The bulk fetch is the concatenation of the pages cut before the first empty page.
- `Posts.TotalSize` gives the sum of the sizes.
- `Scrape.Run` and `Scrape.Attempt` give the loop's variables after the first n posts. The lemmas `RunCounts`, `RunSaved` and `RunProgress` relate these to the attempts' outcomes.

Two points about the scan's result are easy to get wrong:

- **Page count on a short page.** A short page p gives p, not p + 1. An empty page p, or the cap (200 full pages give 201), gives one past the last page with posts.
- **A worked example.** Three full pages of 20 followed by a page of 7 stop the scan at page 4 with 67 posts (`Scanner.ScanExample`).

## Model

| member | source | states |
|---|---|---|
| Text.Strip | e621_scwaper.py:92 | `str.strip()` with Python's whitespace; definition, result never has surrounding whitespace; facts in StripExact, StripStripped, StripAvoids |
| Text.Split | e621_scwaper.py:211 | `str.split(c)` for a one-character separator; definition, at least one piece; facts in JoinSplit, SplitJoin |
| Text.Join | e621_scwaper.py:94 | `sep.join(xs)`; definition; facts in JoinSplit, SplitJoin |
| Text.ParseInt | e621_scwaper.py:225 | `int()` on an optional sign and decimal digits; definition; facts in ParseIntDigits, ParseIntNegativeDigits |
| Text.Lower | e621_scwaper.py:221 | `lower()` on ASCII letters; definition, length kept; facts in SelectPagesAllAny |
| Text.StripExact | e621_scwaper.py:92 | `strip()` removes exactly the surrounding whitespace: a stripped core surrounded by whitespace comes back unchanged |
| Text.StripStripped | e621_scwaper.py:92 | stripping text with no surrounding whitespace changes nothing, so strip is idempotent |
| Text.StripAvoids | e621_scwaper.py:92 | stripping never adds a character the text did not hold |
| Text.JoinSplit | e621_scwaper.py:211 | joining the pieces of `split(c)` with `c` gives the text back |
| Text.SplitJoin | e621_scwaper.py:211 | splitting the join of a non-empty list of pieces free of the separator gives the pieces back |
| Text.IndexOf | e621_scwaper.py:146 | the first index of the character, or -1 exactly when it does not occur |
| Text.LastIndexOf | e621_scwaper.py:146 | the last index of the character, or -1 when it does not occur |
| Text.DigitsValue | e621_scwaper.py:85 | `str(n)` is at least one decimal digit, has no leading zero and denotes n |
| Text.DigitsLength | e621_scwaper.py:85 | `str(n)` has one digit iff n < 10, at most two iff n < 100, at most three iff n < 1000 |
| Text.ParseIntDigits | e621_scwaper.py:225 | `int()` reads back a non-negative number written with any number of leading zeros |
| Text.ParseIntNegativeDigits | e621_scwaper.py:225 | `int()` reads back a negative number written with `-`, with or without leading zeros |
| TagQuery.CleanTags | e621_scwaper.py:92 | the cleaned list is no longer than the input and every tag in it is non-empty and stripped |
| TagQuery.CleanTagsAppend | e621_scwaper.py:92 | cleaning works tag by tag and keeps the order |
| TagQuery.CleanTagsOfClean | e621_scwaper.py:92 | a list of clean tags comes through unchanged |
| TagQuery.ParseTagList | e621_scwaper.py:211 | every parsed tag is non-empty, stripped and free of commas |
| TagQuery.ParseTagListJoin | e621_scwaper.py:211 | writing clean comma-free tags as a comma-separated line and parsing it gives the same tags in the same order |
| TagQuery.Negate | e621_scwaper.py:93 | one token per blacklisted tag, in order, each the tag with `-` in front |
| TagQuery.BuildTagQuery | e621_scwaper.py:90-95 | the query has no leading or trailing whitespace |
| TagQuery.BuildTagQueryStripsOnlyTheEnd | e621_scwaper.py:94-95 | the final strip never removes anything at the front of the joined tokens |
| TagQuery.BuildTagQueryExact | e621_scwaper.py:90-95 | when the last blacklisted tag does not end in whitespace, the query is exactly the user tags then the negated tags, joined by single spaces |
| TagQuery.BuildTagQueryTokens | e621_scwaper.py:90-95 | when no tag holds a space, the last blacklisted tag has no trailing whitespace and there is at least one token, splitting the query at spaces gives back the cleaned user tags followed by the negated blacklist |
| TagQuery.BuildTagQueryEmpty | e621_scwaper.py:90-95 | two empty lists give the empty query |
| TagQuery.BuildTagQueryFoxCub | e621_scwaper.py:90-95 | `["fox"]` with blacklist `["cub"]` gives `"fox -cub"` |
| Filenames.UrlPath | e621_scwaper.py:146 | `url.split('?')[0]`; definition; facts in UrlPathPrefix, UrlPathAt, UrlPathNoQuery |
| Filenames.Basename | e621_scwaper.py:146 | `os.path.basename`; definition; facts in BasenameSuffix, BasenameAt |
| Filenames.SplitExt | e621_scwaper.py:84 | `os.path.splitext`; definition; facts in SplitExtJoin, SplitExtShape, SplitExtAtDot, SplitExtLeadingDots |
| Filenames.Pad3 | e621_scwaper.py:85 | `f"{c:03d}"`; definition; facts in Pad3Length, Pad3Chars, Pad3Plain, Pad3RoundTrip |
| Filenames.AppendCounter | e621_scwaper.py:83-85 | `append_counter_to_filename`; definition; facts in AppendCounterLength, AppendCounterSplitExt, AppendCounterInjective |
| Filenames.DownloadFilename | e621_scwaper.py:146-148 | the name `download_image` saves under; definition; facts in DownloadFilenameSafe, DownloadFilenamePool, DownloadFilenamePoolInjective |
| Filenames.UrlPathPrefix | e621_scwaper.py:146 | `url.split('?')[0]` is the URL up to its first `?`, or all of it when there is none |
| Filenames.UrlPathAt | e621_scwaper.py:146 | the query string is cut off at the first `?` |
| Filenames.UrlPathNoQuery | e621_scwaper.py:146 | a URL without `?` is its own path |
| Filenames.BasenameSuffix | e621_scwaper.py:146 | `basename` is the longest end of the path that holds no `/` |
| Filenames.BasenameAt | e621_scwaper.py:146 | `basename(dir + "/" + name)` is `name` when `name` holds no `/` |
| Filenames.SplitExtJoin | e621_scwaper.py:84 | the two parts of `splitext` put together give the path |
| Filenames.SplitExtShape | e621_scwaper.py:84 | the extension is empty or a `.` followed by neither `.` nor `/` |
| Filenames.SplitExtAtDot | e621_scwaper.py:84 | a path splits at its last dot when a non-dot precedes that dot within the last segment |
| Filenames.SplitExtLeadingDots | e621_scwaper.py:84 | a name whose only dots lead it has no extension |
| Filenames.SplitExtExample | e621_scwaper.py:84 | a slash-free name not starting with a dot splits at its last dot |
| Filenames.SplitExtPng | e621_scwaper.py:84 | `splitext("foo.png")` is `("foo", ".png")` |
| Filenames.SplitExtTarGz | e621_scwaper.py:84 | only the last extension is split off: `("a.tar", ".gz")` |
| Filenames.SplitExtDotfile | e621_scwaper.py:84 | `.bashrc` has no extension |
| Filenames.SplitExtDoubleDot | e621_scwaper.py:84 | `..png` has no extension |
| Filenames.Pad3Length | e621_scwaper.py:85 | `{c:03d}` is never shorter than three characters and exactly three for -99..999 |
| Filenames.Pad3Chars | e621_scwaper.py:85 | `{c:03d}` is all digits but for a leading `-` on a negative counter |
| Filenames.Pad3Plain | e621_scwaper.py:85 | `{c:03d}` holds no `.`, `/`, `?` or `_` |
| Filenames.Pad3RoundTrip | e621_scwaper.py:85 | `int()` of `{c:03d}` gives c back, for every integer |
| Filenames.Pad3Seven | e621_scwaper.py:85 | `{7:03d}` is `"007"` |
| Filenames.AppendCounterLength | e621_scwaper.py:83-85 | the new name is the old one with `_` and the counter field inserted where its base ends, so it is one `_` and the field longer |
| Filenames.AppendCounterNoExt | e621_scwaper.py:83-85 | a name without an extension keeps none when slash- and dot-free text is appended |
| Filenames.AppendCounterWithExt | e621_scwaper.py:83-85 | with an extension, inserting a field before it leaves that extension the new name's extension |
| Filenames.AppendCounterSplitExt | e621_scwaper.py:83-85 | `splitext` of the new name is the old base with `_` and the counter appended, and the old extension |
| Filenames.AppendCounterInjective | e621_scwaper.py:83-85 | equal new names mean equal counters, whatever the original names |
| Filenames.AppendCounterExample | e621_scwaper.py:83-85 | `("foo.png", 7)` gives `"foo_007.png"` |
| Filenames.DownloadFilenameSafe | e621_scwaper.py:146-148 | the saved name never holds `/` or `?`, with or without a counter |
| Filenames.DownloadFilenamePool | e621_scwaper.py:146-148 | in pool mode the name is the URL's name with the counter before its extension, and never empty, `.` or `..` |
| Filenames.DownloadFilenamePoolInjective | e621_scwaper.py:146-148 | a pool-mode name determines its counter, whatever the URLs |
| Filenames.DownloadFilenamePoolDistinct | e621_scwaper.py:146-148 | pool-mode names made with different counters differ |
| Filenames.FileNameOfExampleUrl | e621_scwaper.py:146 | the name of `https://x.net/a/foo.png?v=2` is `foo.png` |
| Filenames.DownloadFilenameExample | e621_scwaper.py:146-148 | the same URL without a counter is saved as `foo.png` |
| Filenames.DownloadFilenamePoolExample | e621_scwaper.py:146-148 | the same URL with counter 7 is saved as `foo_007.png` |
| Posts.HasFileUrl | e621_scwaper.py:262 | the filter condition `p.get("file", {}).get("url")`; definition; facts in ValidPostsMember |
| Posts.FileSize | e621_scwaper.py:264 | `post.get("file", {}).get("size", 0)`; definition; facts in TotalSizeValid |
| Posts.TotalSize | e621_scwaper.py:263-264 | the expected byte total; definition; facts in TotalSizeAppend, TotalSizeValid, ExpectedBytes |
| Posts.ValidPosts | e621_scwaper.py:262 | the kept posts are no more than the input, and every one has a non-empty file URL |
| Posts.ValidPostsMember | e621_scwaper.py:262 | a post is kept iff it is an input post with a non-empty file URL |
| Posts.ValidPostsAppend | e621_scwaper.py:262 | the filter works post by post and keeps the order |
| Posts.ValidPostsSingle | e621_scwaper.py:262 | a single post is kept exactly when it has a URL |
| Posts.ValidPostsOfValid | e621_scwaper.py:262 | posts that all have a URL are all kept |
| Posts.ValidPostsSplit | e621_scwaper.py:262 | every post is either kept or dropped |
| Posts.TotalSizeAppend | e621_scwaper.py:263-264 | the size total of a concatenation is the sum of the totals |
| Posts.TotalSizeValid | e621_scwaper.py:262-264 | the expected total differs from the total of all fetched posts by exactly the sizes of those without a URL |
| Scanner.Concat | e621_scwaper.py:257-261 | pages 1..n one after the other; definition; facts in ConcatLength, BulkFetch, ScanThenFetch |
| Scanner.ScanQuery | e621_scwaper.py:119-135 | the result is the scan outcome: 1 <= T <= max + 1, every page before T full, page T not full when T <= max, and the total is the post count of pages 1..min(T, max) |
| Scanner.ScanOutcomeUnique | e621_scwaper.py:119-135 | the pages determine the outcome |
| Scanner.ScanCapIff | e621_scwaper.py:125-134 | with a positive cap, T = max + 1 iff every page up to the cap was full |
| Scanner.ScanShortFirstPage | e621_scwaper.py:131-132 | a short first page gives one page holding all its posts |
| Scanner.ScanEmptyFirstPage | e621_scwaper.py:127-128 | an empty first page gives page 1 and no posts |
| Scanner.ScanExample | e621_scwaper.py:119-135 | three full pages of 20 and a page of 7 give 4 pages and 67 posts |
| Scanner.ConcatLength | e621_scwaper.py:129 | the post total is the sum of the page lengths |
| Scanner.ScanTotal | e621_scwaper.py:129-134 | below the cap the total counts pages 1..T, at the cap pages 1..T - 1 |
| Scanner.BulkFetch | e621_scwaper.py:256-261 | the result is pages 1..k in order, where pages 1..k have posts and page k + 1, if asked for, is empty |
| Scanner.FetchStopUnique | e621_scwaper.py:257-260 | the stopping point is unique: the first empty page |
| Scanner.BulkFetchNonPositive | e621_scwaper.py:257 | nothing is fetched for a page count of 0 or less |
| Scanner.FetchReachesScanPage | e621_scwaper.py:216-261 | fetching the scan's page count collects pages 1..T, an empty page T adding nothing |
| Scanner.ScanThenFetch | e621_scwaper.py:216-261 | fetching T pages gives pages 1..T: as many posts as the scan counted below the cap, plus page max + 1 at the cap |
| Scrape.ScrapeQuery | e621_scwaper.py:206-212 | the query of a pool or tag scrape; definition; facts in ScrapeQueryPool, ScrapeQueryTags |
| Scrape.ScrapeQueryPool | e621_scwaper.py:206-208 | a pool query is `pool:` and the typed id less its surrounding whitespace |
| Scrape.ScrapeQueryTags | e621_scwaper.py:209-212 | for clean, comma- and space-free typed tags, a blacklist without spaces whose last tag has no trailing whitespace, and at least one tag in all, the tag query split at spaces is the typed tags in order followed by the negated blacklist |
| Scrape.SelectPages | e621_scwaper.py:220-230 | the page count never exceeds the available pages (when there is one) and is the available count, 1, or the typed integer |
| Scrape.SelectPagesAllAny | e621_scwaper.py:220-222 | `all` in any mix of cases, with any whitespace around it, selects every available page |
| Scrape.SelectPagesNumber | e621_scwaper.py:224-227 | a typed count n selects min(n, available) |
| Scrape.SelectPagesNegative | e621_scwaper.py:224-227 | a negative count is kept as it is and not raised to 1 |
| Scrape.SelectPagesOther | e621_scwaper.py:228-229 | stripped text that is neither `all` nor an integer selects 1 page |
| Scrape.SelectPagesFallback | e621_scwaper.py:228-229 | the empty answer, `many` and `1.5` select 1 page |
| Scrape.ExpectedBytes | e621_scwaper.py:263-264 | the loop's total is the size sum of the kept posts, a missing size counting 0 |
| Scrape.DownloadImage | e621_scwaper.py:140-161 | a name is returned iff the server sent the file and the name can be opened; then it is the URL's name and the byte count is what was written, else 0 bytes |
| Scrape.PoolDownloadOpens | e621_scwaper.py:147-150 | in pool mode a download succeeds exactly when the server sends the file |
| Scrape.TrailingSlashName | e621_scwaper.py:146 | a URL whose path before the first `?` ends in `/` gives the empty name |
| Scrape.TrailingSlashUrlFails | e621_scwaper.py:146-161 | outside pool mode a URL whose path before the first `?` ends in `/` fails even when the server answers |
| Scrape.AttemptOutcome | e621_scwaper.py:270-274 | an attempt at a post with a URL saves a file iff it succeeds, adds that attempt's bytes and uses the URL's name with the counter passed in |
| Scrape.AttemptSkipped | e621_scwaper.py:271 | a post without a URL saves nothing, adds no bytes, shows no progress and leaves every loop variable as it was |
| Scrape.StepOutcome | e621_scwaper.py:269-279 | one pass: a success adds one file, its bytes, one pool number and its name; every post with a URL adds one progress entry |
| Scrape.Step | e621_scwaper.py:269-279 | one pass of the download loop; definition; facts in StepOutcome, AttemptOutcome, AttemptSkipped |
| Scrape.Run | e621_scwaper.py:269-279 | the loop variables after the first n posts; definition; facts in RunCounts, RunSaved, RunProgress, DownloadAll |
| Scrape.Attempt | e621_scwaper.py:269-279 | the loop variables after the i-th post; definition; facts in AttemptCounts, AttemptSaved |
| Scrape.RunCounts | e621_scwaper.py:269-278 | after n posts the file count is the number of successes, the bytes are those of successes only, and the pool counter is 1 + successes in pool mode, 1 otherwise |
| Scrape.RunSaved | e621_scwaper.py:272-278 | the saved names are those of the successful URLs in order, numbered 1, 2, 3, ... in pool mode: a failure uses up no number |
| Scrape.RunProgress | e621_scwaper.py:279 | progress is shown once per post with a URL, with the counts just after that post |
| Scrape.RunAll | e621_scwaper.py:269-279 | the loop's variables after every post, in terms of the outcomes |
| Scrape.DownloadAll | e621_scwaper.py:250-279 | the loop leaves count = successes, bytes = sum over successes, pool counter = 1 + successes in pool mode, the numbered names of the successes and one progress entry per attempted post |
| Scrape.DownloadCountBound | e621_scwaper.py:275 | at most one file per attempt: never more files than posts, and at most i + 1 after post i |
| Scrape.ProgressPerPost | e621_scwaper.py:269-279 | over the filtered list, progress is shown after every post |
| Scrape.PoolAllSaved | e621_scwaper.py:272-278 | in pool mode, if the server always answers, every post is saved |
| Scrape.PoolNamesDistinct | e621_scwaper.py:272-278 | in pool mode no two saved files share a name |
| Scrape.SavedNamesDiffer | e621_scwaper.py:272-278 | pool names for different positions differ, whatever the URLs |
| Scrape.RunScrape | e621_scwaper.py:200-279 | the whole scrape: query, scan outcome, page choice capped at the scan, fetch cut at the first empty page, `total_files` = number of kept posts, expected bytes, and the loop's counts, names and progress |
| Counting.CountTrueAll | e621_scwaper.py:275 | the file count equals the attempts iff every attempt succeeded |
| Counting.NumberedAt | e621_scwaper.py:277-278 | the j-th saved file (from 0) carries the pool number j + 1 |

## Left out

- HTTP requests, the JSON decoding of responses and the streaming of the body to disk. They are the page and transfer oracles; `fetch_posts` itself is not modelled beyond "a failed request gives no posts".
- `update_progress` and its rates and ETA (floating point and the wall clock). The model records the (files, bytes) pair it is shown after every attempt, but not the rendering.
- `time.sleep`, `time.time`, the session folder name, `os.makedirs`, `confirm`, screen clearing, the metadata dump, the configuration file, the menus and `option_search`'s printing. These are I/O and interaction.
- The scan and the fetch ask the board separately, so `Scrape.RunScrape` takes two page oracles. The model does not assume the board answers the same way twice.
- A page oracle stands for one query with a fixed page size of 20. The page size is a parameter of `Scanner.ScanQuery` only.
- Scrape.DownloadImage: opening a file is modelled as failing only for the names `""`, `.` and `..`. Every other failure, such as a name longer than the file system allows, a permission error or a broken stream, is folded into the transfer oracle's `None`.
- A name collision between two tag-mode downloads with the same file name is not modelled (the second `open` overwrites the first). Pool-mode names are proved distinct.
- Filenames.Basename, Filenames.SplitExt: POSIX `os.path` only; Windows separators are not modelled.
- Text.ParseInt: decimal digits with an optional sign. Underscores between digits, non-ASCII digits and the limit on digit count of Python's `int()` are not modelled. The surrounding whitespace `int()` ignores has already been stripped at line 220.
- Text.Lower: lower-cases ASCII letters only. This is enough to recognise `all`. Python's full Unicode case mapping is not modelled.
- Posts.FileUrl, Posts.FileSize: a JSON `null`, a non-string URL or a non-integer size are not modelled. A size that is present is any integer.
- `Scrape.Tally.saved` and `Scrape.Tally.progress`: the program keeps neither. They record the files it saves completely and the progress it shows, so that the loop's effects can be stated.
- Scrape.DownloadAll: a transfer that breaks after the file was opened leaves a partial file on disk. The model folds that case into the transfer oracle's `None`, so `Tally.saved` does not list the partial file and the model says nothing about it.

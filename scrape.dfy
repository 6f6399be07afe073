/**
 * One scrape (option_scrape): build the query, scan it, choose how many
 * pages to take, fetch them, keep the posts that have a file URL, add up
 * their expected sizes and download them one by one, counting successes.
 * The board and the image server are oracles; a download that fails for
 * any reason gives no file and no bytes.
 */
module Scrape {

  import opened Wrappers
  import opened Text
  import opened TagQuery
  import opened Filenames
  import opened Posts
  import opened Scanner
  import opened Counting

  /** Posts per page asked of the board. */
  const DefaultLimit := 20
  /** The most pages the scan looks at. */
  const MaxScanPages := 200

  /** The board: the posts of page `p` of the result of a query. */
  type Site = (string, nat) -> seq<Post>

  /** The image server: for the i-th download attempt of a scrape and the
      URL asked for, the number of bytes written on HTTP 200, or None for
      another status or a failed transfer. */
  type Transfer = (nat, string) -> Option<nat>

  function PagesOf(site: Site, query: string): PageOracle {
    (p: nat) => site(query, p)
  }

  // ---------------------------------------------------------------------
  // The query
  // ---------------------------------------------------------------------

  /** `pool:<id>` in pool mode; otherwise the comma-separated tags the user
      typed, cleaned, with the blacklist negated after them. */
  function ScrapeQuery(poolMode: bool, poolIdInput: string, tagsInput: string, blacklist: seq<string>): string {
    if poolMode then "pool:" + Strip(poolIdInput)
    else BuildTagQuery(ParseTagList(tagsInput), blacklist)
  }

  /** A pool query is the prefix `pool:` followed by the id as typed, less
      the whitespace around it. */
  lemma ScrapeQueryPool(pre: string, id: string, post: string, tagsInput: string, blacklist: seq<string>)
    requires AllSpace(pre) && AllSpace(post) && IsStripped(id)
    ensures ScrapeQuery(true, pre + id + post, tagsInput, blacklist) == "pool:" + id
  {
    StripExact(pre, id, post);
  }

  /** A tag query holds the typed tags in order, then the negated blacklist:
      splitting it at spaces gives the tags back when none holds a space. */
  lemma ScrapeQueryTags(tags: seq<string>, blacklist: seq<string>)
    requires forall k :: 0 <= k < |tags| ==> IsCleanTag(tags[k]) && ',' !in tags[k] && ' ' !in tags[k]
    requires forall k :: 0 <= k < |blacklist| ==> ' ' !in blacklist[k]
    requires blacklist != [] ==> NoTrailingSpace(blacklist[|blacklist| - 1])
    requires tags + blacklist != []
    ensures Split(ScrapeQuery(false, "", Join(",", tags), blacklist), ' ') == tags + Negate(blacklist)
  {
    ParseTagListJoin(tags);
    CleanTagsOfClean(tags);
    if tags == [] {
      assert |Negate(blacklist)| > 0;
    }
    assert QueryTokens(tags, blacklist) != [];
    BuildTagQueryTokens(tags, blacklist);
  }

  // ---------------------------------------------------------------------
  // How many pages to scrape
  // ---------------------------------------------------------------------

  /** The answer to "number of pages (or 'all')": `all` in any case gives
      every available page, an integer is capped at the available pages (but
      not raised), and anything else gives 1. */
  function SelectPages(input: string, availablePages: int): (r: int)
    ensures availablePages >= 1 ==> r <= availablePages
    ensures r == availablePages || r == 1 || ParseInt(Strip(input)) == Some(r)
  {
    var t := Strip(input);
    if Lower(t) == "all" then availablePages
    else
      match ParseInt(t)
      case Some(n) => if n > availablePages then availablePages else n
      case None => 1
  }

  /** `all` written in any mix of cases, with any whitespace around it,
      selects every available page. */
  lemma SelectPagesAllAny(pre: string, t: string, post: string, availablePages: int)
    requires AllSpace(pre) && AllSpace(post)
    requires |t| == 3 && t[0] in "aA" && t[1] in "lL" && t[2] in "lL"
    ensures SelectPages(pre + t + post, availablePages) == availablePages
  {
    StripExact(pre, t, post);
    assert Lower(t) == "all";
  }

  /** A digit string is not `all` in any case. */
  lemma DigitsNotAll(s: string)
    requires |s| > 0 && AllDigits(s)
    ensures Lower(s) != "all"
  {
    assert Lower(s)[0] == s[0];
  }

  /** Stripped text that `int` reads as n, and that is not `all`, selects
      n pages capped at the available ones. */
  lemma SelectPagesParsed(t: string, availablePages: int, n: int)
    requires IsStripped(t) && Lower(t) != "all" && ParseInt(t) == Some(n)
    ensures SelectPages(t, availablePages) == Min(n, availablePages)
  {
    StripStripped(t);
  }

  /** A typed page count is taken as it is, capped at the available pages. */
  lemma SelectPagesNumber(n: nat, availablePages: int)
    ensures SelectPages(Digits(n), availablePages) == Min(n, availablePages)
  {
    DigitsAnswer(n);
    SelectPagesParsed(Digits(n), availablePages, n);
  }

  /** `str(n)` has no whitespace to strip, is not `all`, and `int` reads n. */
  lemma DigitsAnswer(n: nat)
    ensures var d := Digits(n); IsStripped(d) && Lower(d) != "all" && ParseInt(d) == Some(n as int)
  {
    DigitsStripped(n);
    ParseIntOfDigits(n);
    DigitsValue(n);
    DigitsNotAll(Digits(n));
  }

  /** A minus sign and digits: no whitespace to strip, and not `all`. */
  lemma NegativeDigitsPlain(n: nat)
    ensures IsStripped("-" + Digits(n)) && Lower("-" + Digits(n)) != "all"
  {
    var s := "-" + Digits(n);
    DigitsValue(n);
    assert s[|s| - 1] == Digits(n)[|Digits(n)| - 1];
    assert Lower(s)[0] == '-';
  }

  /** A negative count is not raised to 1: it selects no page at all. */
  lemma SelectPagesNegative(n: nat, availablePages: int)
    requires n >= 1 && availablePages >= 0
    ensures SelectPages("-" + Digits(n), availablePages) == -(n as int)
  {
    NegativeDigitsPlain(n);
    ParseIntOfNegativeDigits(n);
    SelectPagesParsed("-" + Digits(n), availablePages, -(n as int));
  }

  /** Stripped text that is neither `all` nor an integer gives one page. */
  lemma SelectPagesOther(t: string, availablePages: int)
    requires IsStripped(t) && Lower(t) != "all" && ParseInt(t) == None
    ensures SelectPages(t, availablePages) == 1
  {
    StripStripped(t);
  }

  /** Text that is neither `all` nor an integer falls back to one page. */
  lemma SelectPagesFallback(availablePages: int)
    ensures SelectPages("", availablePages) == 1
    ensures SelectPages("many", availablePages) == 1
    ensures SelectPages("1.5", availablePages) == 1
  {
    SelectPagesOther("", availablePages);
    assert !IsDigit("many"[0]);
    SelectPagesOther("many", availablePages);
    assert !IsDigit("1.5"[1]) && Lower("1.5")[0] == '1';
    SelectPagesOther("1.5", availablePages);
  }

  // ---------------------------------------------------------------------
  // The expected byte total
  // ---------------------------------------------------------------------

  /** `for post in valid_posts: total += post's size` */
  method ExpectedBytes(valid: seq<Post>) returns (total: int)
    ensures total == TotalSize(valid)
  {
    total := 0;
    var i := 0;
    while i < |valid|
      invariant 0 <= i <= |valid|
      invariant total == TotalSize(valid[..i])
    {
      assert valid[..i + 1][..i] == valid[..i];
      total := total + FileSize(valid[i]);
      i := i + 1;
    }
    assert valid[..|valid|] == valid;
  }

  // ---------------------------------------------------------------------
  // One download
  // ---------------------------------------------------------------------

  /** A name that can be opened for writing inside the session folder: the
      empty name, `.` and `..` name the folder itself or its parent, so open
      fails and download_image takes its exception path. */
  predicate IsOpenable(name: string) {
    name != "" && name != "." && name != ".."
  }

  /** download_image with the transfer's outcome given: the saved name and
      the bytes written, or no name and 0 bytes when the server refused or
      the file could not be opened. */
  function DownloadImage(url: string, counter: Option<int>, response: Option<nat>): (r: (Option<string>, nat))
    ensures r.0.Some? <==> response.Some? && IsOpenable(DownloadFilename(url, counter))
    ensures r.0.Some? ==> r.0.value == DownloadFilename(url, counter) && r.1 == response.value
    ensures r.0.None? ==> r.1 == 0
  {
    match response
    case None => (None, 0)
    case Some(bytes) =>
      var name := DownloadFilename(url, counter);
      if IsOpenable(name) then (Some(name), bytes) else (None, 0)
  }

  /** In pool mode the name always opens: a download then succeeds exactly
      when the server answers. */
  lemma PoolDownloadOpens(url: string, c: int, response: Option<nat>)
    ensures DownloadImage(url, Some(c), response).0.Some? <==> response.Some?
  {
    DownloadFilenamePool(url, c);
  }

  /** A URL whose path before the first `?` ends in `/` has an empty last
      segment: outside pool mode the file cannot be opened, and the download
      counts as failed even when the server sent it. */
  lemma TrailingSlashUrlFails(dir: string, query: string, bytes: nat)
    requires '?' !in dir
    requires query == [] || query[0] == '?'
    ensures DownloadImage(dir + ['/'] + query, None, Some(bytes)) == (None, 0)
  {
    TrailingSlashName(dir, query);
  }

  /** A URL whose path before the first `?` ends in `/` names no file. */
  lemma TrailingSlashName(dir: string, query: string)
    requires '?' !in dir
    requires query == [] || query[0] == '?'
    ensures DownloadFilename(dir + ['/'] + query, None) == ""
  {
    var path := dir + ['/'];
    if query == [] {
      assert path + query == path;
      UrlPathNoQuery(path);
    } else {
      assert path + query == path + ['?'] + query[1..];
      UrlPathAt(path, query[1..]);
    }
    BasenameAt(dir, "");
    assert dir + ['/'] + "" == path;
  }

  // ---------------------------------------------------------------------
  // The download loop, specified attempt by attempt
  // ---------------------------------------------------------------------

  /** The URL the loop reads from a post; "" when it has none. */
  function AttemptUrl(p: Post): string {
    match FileUrl(p)
    case Some(u) => u
    case None => ""
  }

  /** Attempt i, at post p, saves a file: the post has a URL, the server
      sends it, and (without a pool counter) its name can be opened. A pool
      name always can, whatever the counter. */
  predicate Succeeds(p: Post, poolMode: bool, transfer: Transfer, i: nat) {
    && HasFileUrl(p)
    && transfer(i, AttemptUrl(p)).Some?
    && (poolMode || IsOpenable(DownloadFilename(AttemptUrl(p), None)))
  }

  /** The bytes attempt i adds: those received when it succeeds, else 0. */
  function Gain(p: Post, poolMode: bool, transfer: Transfer, i: nat): nat {
    if Succeeds(p, poolMode, transfer, i) then transfer(i, AttemptUrl(p)).value else 0
  }

  /** Which attempts succeed. */
  function Outcomes(posts: seq<Post>, poolMode: bool, transfer: Transfer): seq<bool> {
    seq(|posts|, i requires 0 <= i < |posts| => Succeeds(posts[i], poolMode, transfer, i))
  }

  function Gains(posts: seq<Post>, poolMode: bool, transfer: Transfer): seq<nat> {
    seq(|posts|, i requires 0 <= i < |posts| => Gain(posts[i], poolMode, transfer, i))
  }

  function Urls(posts: seq<Post>): seq<string> {
    seq(|posts|, i requires 0 <= i < |posts| => AttemptUrl(posts[i]))
  }

  /** Which posts are attempted at all: those with a URL. */
  function UrlFlags(posts: seq<Post>): seq<bool> {
    seq(|posts|, i requires 0 <= i < |posts| => HasFileUrl(posts[i]))
  }

  /** The name of the j-th saved file (from 0), given the URLs of the saved
      files in order: in pool mode it carries the counter j + 1. */
  function NumberedNames(urls: seq<string>, poolMode: bool): seq<string> {
    Numbered(urls, SavedName(poolMode))
  }

  /** The name download_image gives the file of a URL with pool number n. */
  function SavedName(poolMode: bool): (string, int) -> string {
    (u: string, n: int) => DownloadFilename(u, if poolMode then Some(n) else None)
  }

  /** What update_progress is shown after a post: files saved so far and
      bytes downloaded so far. */
  datatype Progress = Progress(files: nat, bytes: nat)

  /** The counts after each attempt. */
  function ProgressAfter(ok: seq<bool>, gains: seq<nat>): seq<Progress>
    requires |ok| == |gains|
  {
    seq(|ok|, i requires 0 <= i < |ok| => Progress(CountTrue(ok[..i + 1]), Sum(gains[..i + 1])))
  }

  /** An attempt at a post with a URL: download_image saves a file exactly
      when the attempt succeeds, adds that attempt's bytes, and saves it under
      the URL's name with the counter passed in. */
  lemma AttemptOutcome(p: Post, poolMode: bool, transfer: Transfer, i: nat, c: int)
    requires HasFileUrl(p)
    ensures var counter := if poolMode then Some(c) else None;
            var u := FileUrl(p).value;
            var r := DownloadImage(u, counter, transfer(i, u));
            && (r.0.Some? <==> Succeeds(p, poolMode, transfer, i))
            && r.1 == Gain(p, poolMode, transfer, i)
            && (r.0.Some? ==> r.0.value == DownloadFilename(AttemptUrl(p), counter))
  {
    if poolMode {
      PoolDownloadOpens(FileUrl(p).value, c, transfer(i, FileUrl(p).value));
    }
  }



  /** The loop's variables: current_file_count, downloaded_bytes and
      pool_counter, with the names written so far and the (files, bytes)
      pairs shown by update_progress so far. */
  datatype Tally = Tally(fileCount: nat, downloadedBytes: nat, poolCounter: int, saved: seq<string>, progress: seq<Progress>)

  /** One pass of the download loop, for post p as the i-th attempt: the
      loop's variables after it, from those before it. */
  function Step(t: Tally, p: Post, poolMode: bool, transfer: Transfer, i: nat): Tally {
    var fileUrl := FileUrl(p);
    if fileUrl.Some? && fileUrl.value != "" then
      var counter := if poolMode then Some(t.poolCounter) else None;
      var (fname, bytes) := DownloadImage(fileUrl.value, counter, transfer(i, fileUrl.value));
      var t' :=
        if fname.Some? then
          Tally(t.fileCount + 1, t.downloadedBytes + bytes,
                if poolMode then t.poolCounter + 1 else t.poolCounter, t.saved + [fname.value], t.progress)
        else t;
      t'.(progress := t'.progress + [Progress(t'.fileCount, t'.downloadedBytes)])
    else t
  }

  /** The loop's variables after the first n posts. */
  function Run(posts: seq<Post>, poolMode: bool, transfer: Transfer, n: int): Tally
    requires 0 <= n <= |posts|
    decreases n, 1
  {
    if n == 0 then Tally(0, 0, 1, [], []) else Attempt(posts, poolMode, transfer, n - 1)
  }

  /** The loop's variables after the i-th post (from 0). */
  function Attempt(posts: seq<Post>, poolMode: bool, transfer: Transfer, i: nat): Tally
    requires i < |posts|
    decreases i, 2
  {
    Step(Run(posts, poolMode, transfer, i), posts[i], poolMode, transfer, i)
  }

  /** A post without a URL is not attempted: nothing is saved, no bytes are
      added, no progress is shown, and the loop's variables stay as they
      were. */
  lemma AttemptSkipped(t: Tally, p: Post, poolMode: bool, transfer: Transfer, i: nat)
    requires !HasFileUrl(p)
    ensures !Succeeds(p, poolMode, transfer, i) && Gain(p, poolMode, transfer, i) == 0
    ensures Step(t, p, poolMode, transfer, i) == t
  {
  }

  /** One pass in terms of the attempt's outcome: a success adds one file,
      its bytes, one pool number and its name; a post with a URL adds one
      progress entry whatever the outcome; a post without one changes
      nothing. */
  lemma StepOutcome(t: Tally, p: Post, poolMode: bool, transfer: Transfer, i: nat)
    ensures var t' := Step(t, p, poolMode, transfer, i);
            var ok := Succeeds(p, poolMode, transfer, i);
            && t'.fileCount == t.fileCount + (if ok then 1 else 0)
            && t'.downloadedBytes == t.downloadedBytes + Gain(p, poolMode, transfer, i)
            && t'.poolCounter == (if poolMode && ok then t.poolCounter + 1 else t.poolCounter)
            && t'.saved == t.saved + (if ok then [DownloadFilename(AttemptUrl(p), if poolMode then Some(t.poolCounter) else None)] else [])
            && t'.progress == t.progress + (if HasFileUrl(p) then [Progress(t'.fileCount, t'.downloadedBytes)] else [])
  {
    if HasFileUrl(p) {
      AttemptOutcome(p, poolMode, transfer, i, t.poolCounter);
    } else {
      AttemptSkipped(t, p, poolMode, transfer, i);
    }
  }

  /** The same for the i-th post of the loop, read off the outcome lists:
      a success adds one file, its bytes and one pool number ... */
  lemma AttemptCounts(posts: seq<Post>, poolMode: bool, transfer: Transfer, i: nat)
    requires i < |posts|
    ensures var t, t' := Run(posts, poolMode, transfer, i), Attempt(posts, poolMode, transfer, i);
            var ok := Outcomes(posts, poolMode, transfer)[i];
            && t'.fileCount == t.fileCount + (if ok then 1 else 0)
            && t'.downloadedBytes == t.downloadedBytes + Gains(posts, poolMode, transfer)[i]
            && t'.poolCounter == (if poolMode && ok then t.poolCounter + 1 else t.poolCounter)
  {
    StepOutcome(Run(posts, poolMode, transfer, i), posts[i], poolMode, transfer, i);
  }

  /** ... and its name, under the pool number it was given ... */
  lemma AttemptSaved(posts: seq<Post>, poolMode: bool, transfer: Transfer, i: nat)
    requires i < |posts|
    ensures var t, t' := Run(posts, poolMode, transfer, i), Attempt(posts, poolMode, transfer, i);
            var ok := Outcomes(posts, poolMode, transfer)[i];
            t'.saved == t.saved + (if ok then [DownloadFilename(Urls(posts)[i], if poolMode then Some(t.poolCounter) else None)] else [])
  {
    StepOutcome(Run(posts, poolMode, transfer, i), posts[i], poolMode, transfer, i);
  }

  /** ... and a post with a URL adds one progress entry whatever the outcome. */
  lemma AttemptProgress(posts: seq<Post>, poolMode: bool, transfer: Transfer, i: nat)
    requires i < |posts|
    ensures var t, t' := Run(posts, poolMode, transfer, i), Attempt(posts, poolMode, transfer, i);
            t'.progress == t.progress + (if UrlFlags(posts)[i] then [Progress(t'.fileCount, t'.downloadedBytes)] else [])
  {
    StepOutcome(Run(posts, poolMode, transfer, i), posts[i], poolMode, transfer, i);
  }

  /** After n posts the file count is the number of successful attempts, the
      byte count adds the bytes of those attempts only, and the pool counter
      is one past the files saved. */
  lemma {:induction false} RunCounts(posts: seq<Post>, poolMode: bool, transfer: Transfer, n: int)
    requires 0 <= n <= |posts|
    ensures var t := Run(posts, poolMode, transfer, n);
            && t.fileCount == CountTrue(Outcomes(posts, poolMode, transfer)[..n])
            && t.downloadedBytes == Sum(Gains(posts, poolMode, transfer)[..n])
            && t.poolCounter == if poolMode then 1 + t.fileCount else 1
  {
    if n > 0 {
      RunCounts(posts, poolMode, transfer, n - 1);
      CountTrueSnoc(Outcomes(posts, poolMode, transfer), n - 1);
      SumSnoc(Gains(posts, poolMode, transfer), n - 1);
      AttemptCounts(posts, poolMode, transfer, n - 1);
    }
  }

  /** After n posts the names written are those of the successful URLs, in
      order, numbered 1, 2, 3, ... in pool mode: a failure uses up no
      number. */
  lemma {:induction false} RunSaved(posts: seq<Post>, poolMode: bool, transfer: Transfer, n: int)
    requires 0 <= n <= |posts|
    ensures Run(posts, poolMode, transfer, n).saved
         == NumberedNames(Kept(Urls(posts)[..n], Outcomes(posts, poolMode, transfer)[..n]), poolMode)
  {
    if n > 0 {
      var urls, ok := Urls(posts), Outcomes(posts, poolMode, transfer);
      RunSaved(posts, poolMode, transfer, n - 1);
      RunCounts(posts, poolMode, transfer, n - 1);
      KeptSnoc(urls, ok, n - 1);
      var t := Run(posts, poolMode, transfer, n - 1);
      AttemptSaved(posts, poolMode, transfer, n - 1);
      SavedStep(t.saved, Kept(urls[..n - 1], ok[..n - 1]), urls[n - 1], ok[n - 1], t.poolCounter, poolMode);
    }
  }

  /** A saved file takes the name for the next number. */
  lemma SavedStep(saved: seq<string>, kept: seq<string>, u: string, success: bool, counter: int, poolMode: bool)
    requires saved == NumberedNames(kept, poolMode)
    requires poolMode ==> counter == |kept| + 1
    ensures saved + (if success then [DownloadFilename(u, if poolMode then Some(counter) else None)] else [])
         == NumberedNames(kept + (if success then [u] else []), poolMode)
  {
    NumberedSnoc(kept, u, success, SavedName(poolMode));
  }

  /** After n posts the progress shown is one entry per post with a URL,
      holding the counts just after that post. */
  lemma {:induction false} RunProgress(posts: seq<Post>, poolMode: bool, transfer: Transfer, n: int)
    requires 0 <= n <= |posts|
    ensures var prog := ProgressAfter(Outcomes(posts, poolMode, transfer), Gains(posts, poolMode, transfer));
            Run(posts, poolMode, transfer, n).progress == Kept(prog[..n], UrlFlags(posts)[..n])
  {
    if n > 0 {
      var ok, gains := Outcomes(posts, poolMode, transfer), Gains(posts, poolMode, transfer);
      RunProgress(posts, poolMode, transfer, n - 1);
      RunCounts(posts, poolMode, transfer, n - 1);
      RunCounts(posts, poolMode, transfer, n);
      KeptSnoc(ProgressAfter(ok, gains), UrlFlags(posts), n - 1);
      AttemptProgress(posts, poolMode, transfer, n - 1);
    }
  }

  /** The download loop: every post with a URL is attempted in order, and only
      a saved file moves the file count, the byte count and the pool counter
      forward. The saved names are those of the successful URLs, numbered
      1, 2, 3, ... in pool mode. */
  method DownloadAll(posts: seq<Post>, poolMode: bool, transfer: Transfer)
    returns (fileCount: nat, downloadedBytes: nat, poolCounter: int, saved: seq<string>, progress: seq<Progress>)
    ensures Tally(fileCount, downloadedBytes, poolCounter, saved, progress) == Run(posts, poolMode, transfer, |posts|)
    ensures fileCount == CountTrue(Outcomes(posts, poolMode, transfer))
    ensures downloadedBytes == Sum(Gains(posts, poolMode, transfer))
    ensures poolCounter == if poolMode then 1 + fileCount else 1
    ensures saved == NumberedNames(Kept(Urls(posts), Outcomes(posts, poolMode, transfer)), poolMode)
    ensures progress == Kept(ProgressAfter(Outcomes(posts, poolMode, transfer), Gains(posts, poolMode, transfer)), UrlFlags(posts))
  {
    fileCount, downloadedBytes, poolCounter := 0, 0, 1;
    saved, progress := [], [];
    var i := 0;
    while i < |posts|
      invariant 0 <= i <= |posts|
      invariant Tally(fileCount, downloadedBytes, poolCounter, saved, progress) == Run(posts, poolMode, transfer, i)
    {
      var fileUrl := FileUrl(posts[i]);
      if fileUrl.Some? && fileUrl.value != "" {
        var counter := if poolMode then Some(poolCounter) else None;
        var (fname, bytes) := DownloadImage(fileUrl.value, counter, transfer(i, fileUrl.value));
        if fname.Some? {
          fileCount := fileCount + 1;
          downloadedBytes := downloadedBytes + bytes;
          if poolMode {
            poolCounter := poolCounter + 1;
          }
          saved := saved + [fname.value];
        }
        progress := progress + [Progress(fileCount, downloadedBytes)];
      }
      i := i + 1;
    }
    RunAll(posts, poolMode, transfer);
  }

  /** The loop's variables after every post. */
  lemma RunAll(posts: seq<Post>, poolMode: bool, transfer: Transfer)
    ensures var t := Run(posts, poolMode, transfer, |posts|);
            && t.fileCount == CountTrue(Outcomes(posts, poolMode, transfer))
            && t.downloadedBytes == Sum(Gains(posts, poolMode, transfer))
            && t.poolCounter == (if poolMode then 1 + t.fileCount else 1)
            && t.saved == NumberedNames(Kept(Urls(posts), Outcomes(posts, poolMode, transfer)), poolMode)
            && t.progress == Kept(ProgressAfter(Outcomes(posts, poolMode, transfer), Gains(posts, poolMode, transfer)), UrlFlags(posts))
  {
    var n := |posts|;
    RunCounts(posts, poolMode, transfer, n);
    RunSaved(posts, poolMode, transfer, n);
    RunProgress(posts, poolMode, transfer, n);
    var ok, gains := Outcomes(posts, poolMode, transfer), Gains(posts, poolMode, transfer);
    assert ok[..n] == ok && gains[..n] == gains && Urls(posts)[..n] == Urls(posts);
    assert ProgressAfter(ok, gains)[..n] == ProgressAfter(ok, gains) && UrlFlags(posts)[..n] == UrlFlags(posts);
  }

  // ---------------------------------------------------------------------
  // What the accounting guarantees
  // ---------------------------------------------------------------------

  /** At most one file per attempt, and the progress shown never counts more
      files than there are posts. */
  lemma DownloadCountBound(posts: seq<Post>, poolMode: bool, transfer: Transfer, i: int)
    requires 0 <= i < |posts|
    ensures CountTrue(Outcomes(posts, poolMode, transfer)) <= |posts|
    ensures ProgressAfter(Outcomes(posts, poolMode, transfer), Gains(posts, poolMode, transfer))[i].files <= i + 1
  {
    var ok := Outcomes(posts, poolMode, transfer);
    CountTrueBound(ok);
    CountTrueBound(ok[..i + 1]);
  }

  /** With every post having a URL, as in the filtered list, progress is shown
      once per post, with the counts after that post. */
  lemma ProgressPerPost(posts: seq<Post>, poolMode: bool, transfer: Transfer)
    requires forall i :: 0 <= i < |posts| ==> HasFileUrl(posts[i])
    ensures Kept(ProgressAfter(Outcomes(posts, poolMode, transfer), Gains(posts, poolMode, transfer)), UrlFlags(posts)) == ProgressAfter(Outcomes(posts, poolMode, transfer), Gains(posts, poolMode, transfer))
  {
    KeptAll(ProgressAfter(Outcomes(posts, poolMode, transfer), Gains(posts, poolMode, transfer)), UrlFlags(posts));
  }

  /** In pool mode a download fails only when the server does not send the
      file: if it always does, every post with a URL is saved. */
  lemma PoolAllSaved(posts: seq<Post>, transfer: Transfer)
    requires forall i :: 0 <= i < |posts| ==> HasFileUrl(posts[i])
    requires forall i: nat, u :: transfer(i, u).Some?
    ensures CountTrue(Outcomes(posts, true, transfer)) == |posts|
  {
    CountTrueAll(Outcomes(posts, true, transfer));
  }

  /** In pool mode no two saved files share a name, so none overwrites
      another in the session folder. */
  lemma PoolNamesDistinct(urls: seq<string>, a: int, b: int)
    requires 0 <= a < b < |urls|
    ensures NumberedNames(urls, true)[a] != NumberedNames(urls, true)[b]
  {
    NumberedAt(urls, SavedName(true), a);
    NumberedAt(urls, SavedName(true), b);
    SavedNamesDiffer(urls[a], urls[b], a, b);
  }

  /** Pool names for different positions differ, whatever the URLs. */
  lemma SavedNamesDiffer(u1: string, u2: string, j1: int, j2: int)
    requires j1 != j2
    ensures SavedName(true)(u1, j1 + 1) != SavedName(true)(u2, j2 + 1)
  {
    DownloadFilenamePoolDistinct(u1, j1 + 1, u2, j2 + 1);
  }

  // ---------------------------------------------------------------------
  // The whole scrape
  // ---------------------------------------------------------------------

  datatype ScrapeReport = ScrapeReport(
    query: string,
    availablePages: int,
    availablePosts: int,
    pagesToScrape: int,
    scanned: seq<Post>,
    valid: seq<Post>,
    totalFiles: nat,
    expectedBytes: int,
    fileCount: nat,
    downloadedBytes: nat,
    poolCounter: int,
    saved: seq<string>,
    progress: seq<Progress>)

  /** option_scrape from the typed answers to the end of the download loop.
      The scan and the fetch ask the board separately, so each has its own
      oracle. */
  method RunScrape(poolMode: bool, poolIdInput: string, tagsInput: string, blacklist: seq<string>,
                   pagesInput: string, scanSite: Site, fetchSite: Site, transfer: Transfer)
    returns (r: ScrapeReport)
    ensures r.query == ScrapeQuery(poolMode, poolIdInput, tagsInput, blacklist)
    ensures IsScanOutcome(PagesOf(scanSite, r.query), DefaultLimit, MaxScanPages, r.availablePages, r.availablePosts)
    ensures r.pagesToScrape == SelectPages(pagesInput, r.availablePages)
    ensures 1 <= r.availablePages <= MaxScanPages + 1 && r.pagesToScrape <= r.availablePages
    ensures IsCutConcat(PagesOf(fetchSite, r.query), r.pagesToScrape, r.scanned)
    ensures r.valid == ValidPosts(r.scanned) && r.totalFiles == |r.valid|
    ensures r.expectedBytes == TotalSize(r.valid)
    ensures r.fileCount == CountTrue(Outcomes(r.valid, poolMode, transfer)) <= r.totalFiles
    ensures r.downloadedBytes == Sum(Gains(r.valid, poolMode, transfer))
    ensures r.poolCounter == if poolMode then 1 + r.fileCount else 1
    ensures r.saved == NumberedNames(Kept(Urls(r.valid), Outcomes(r.valid, poolMode, transfer)), poolMode)
    ensures r.progress == ProgressAfter(Outcomes(r.valid, poolMode, transfer), Gains(r.valid, poolMode, transfer)) && |r.progress| == r.totalFiles
  {
    var query := ScrapeQuery(poolMode, poolIdInput, tagsInput, blacklist);
    var availablePages, availablePosts := ScanQuery(PagesOf(scanSite, query), DefaultLimit, MaxScanPages);
    var pagesToScrape := SelectPages(pagesInput, availablePages);
    var scanned := BulkFetch(PagesOf(fetchSite, query), pagesToScrape);
    var valid := ValidPosts(scanned);
    var expected := ExpectedBytes(valid);
    var fileCount, downloadedBytes, poolCounter, saved, progress := DownloadAll(valid, poolMode, transfer);
    CountTrueBound(Outcomes(valid, poolMode, transfer));
    ProgressPerPost(valid, poolMode, transfer);
    r := ScrapeReport(query, availablePages, availablePosts, pagesToScrape, scanned, valid, |valid|,
                      expected, fileCount, downloadedBytes, poolCounter, saved, progress);
  }
}

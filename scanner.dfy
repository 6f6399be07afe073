/**
 * Walking the result pages of one query. A page oracle gives the posts of
 * 1-based page `p` for the fixed query and page size; a request that failed
 * gives no posts, as fetch_posts returns `[]` on an HTTP error or exception.
 */
module Scanner {

  import opened Posts

  type PageOracle = nat -> seq<Post>

  /** Pages 1..n one after the other; nothing when n <= 0. */
  function Concat(pages: PageOracle, n: int): seq<Post>
    decreases n
  {
    if n <= 0 then [] else Concat(pages, n - 1) + pages(n)
  }

  function Min(a: int, b: int): int {
    if a <= b then a else b
  }

  function Max(a: int, b: int): int {
    if a <= b then b else a
  }

  /** A page that lets the scan go on: not empty and not shorter than the
      page size. */
  predicate IsFull(pages: PageOracle, limit: int, p: nat) {
    pages(p) != [] && |pages(p)| >= limit
  }

  /** What scan_query returns, stated without its loop: the first page that
      is not full stops the scan (at most maxPages + 1, which is returned
      when the cap is reached), and the post total counts every post of the
      pages fetched, up to that page and no further than the cap. */
  predicate IsScanOutcome(pages: PageOracle, limit: int, maxPages: int, totalPages: int, totalPosts: int) {
    && 1 <= totalPages <= Max(maxPages, 0) + 1
    && (forall p: nat :: 1 <= p < totalPages ==> pages(p) != [] && |pages(p)| >= limit)
    && (totalPages <= maxPages ==> !IsFull(pages, limit, totalPages))
    && totalPosts == |Concat(pages, Min(totalPages, maxPages))|
  }

  /** scan_query: fetch pages 1, 2, ... up to maxPages, adding up their post
      counts, and stop at an empty page or one shorter than the limit. */
  method ScanQuery(pages: PageOracle, limit: int, maxPages: int) returns (totalPages: int, totalPosts: int)
    ensures IsScanOutcome(pages, limit, maxPages, totalPages, totalPosts)
  {
    var page := 1;
    totalPosts := 0;
    while page <= maxPages
      invariant 1 <= page <= Max(maxPages, 0) + 1
      invariant forall p: nat :: 1 <= p < page ==> pages(p) != [] && |pages(p)| >= limit
      invariant totalPosts == |Concat(pages, page - 1)|
      decreases maxPages - page
    {
      var posts := pages(page);
      if posts == [] {
        break;
      }
      totalPosts := totalPosts + |posts|;
      if |posts| < limit {
        break;
      }
      page := page + 1;
    }
    totalPages := page;
  }

  /** The outcome is determined by the pages: the characterization leaves no
      choice. */
  lemma ScanOutcomeUnique(pages: PageOracle, limit: int, maxPages: int, t1: int, n1: int, t2: int, n2: int)
    requires IsScanOutcome(pages, limit, maxPages, t1, n1)
    requires IsScanOutcome(pages, limit, maxPages, t2, n2)
    ensures t1 == t2 && n1 == n2
  {
  }

  /** With a positive cap, the page number is maxPages + 1 exactly when every
      page up to the cap was full. */
  lemma ScanCapIff(pages: PageOracle, limit: int, maxPages: int, totalPages: int, totalPosts: int)
    requires maxPages >= 1
    requires IsScanOutcome(pages, limit, maxPages, totalPages, totalPosts)
    ensures 1 <= totalPages <= maxPages + 1
    ensures totalPages == maxPages + 1 <==> forall p: nat :: 1 <= p <= maxPages ==> pages(p) != [] && |pages(p)| >= limit
  {
  }

  /** A first page shorter than the limit: one page, holding all the posts. */
  lemma ScanShortFirstPage(pages: PageOracle, limit: int, maxPages: int, totalPages: int, totalPosts: int)
    requires maxPages >= 1 && pages(1) != [] && |pages(1)| < limit
    requires IsScanOutcome(pages, limit, maxPages, totalPages, totalPosts)
    ensures totalPages == 1 && totalPosts == |pages(1)|
  {
    assert Concat(pages, 1) == Concat(pages, 0) + pages(1);
  }

  /** An empty first page: page 1 and no posts. */
  lemma ScanEmptyFirstPage(pages: PageOracle, limit: int, maxPages: int, totalPages: int, totalPosts: int)
    requires pages(1) == []
    requires IsScanOutcome(pages, limit, maxPages, totalPages, totalPosts)
    ensures totalPages == 1 && totalPosts == 0
  {
    assert Concat(pages, 1) == Concat(pages, 0) + pages(1);
  }

  /** The length of the concatenation is the sum of the page lengths. */
  function PageLengths(pages: PageOracle, n: int): nat
    decreases n
  {
    if n <= 0 then 0 else PageLengths(pages, n - 1) + |pages(n)|
  }

  lemma {:induction false} ConcatLength(pages: PageOracle, n: int)
    ensures |Concat(pages, n)| == PageLengths(pages, n)
    decreases n
  {
    if n > 0 {
      ConcatLength(pages, n - 1);
    }
  }

  /** Three full pages of 20 and a fourth of 7: the scan stops at page 4
      with 67 posts. */
  lemma ScanExample(post: Post, totalPages: int, totalPosts: int)
    requires IsScanOutcome(ExamplePages(post), 20, 200, totalPages, totalPosts)
    ensures totalPages == 4 && totalPosts == 67
  {
    var pages := ExamplePages(post);
    assert IsFull(pages, 20, 1) && IsFull(pages, 20, 2) && IsFull(pages, 20, 3);
    assert !IsFull(pages, 20, 4);
    ConcatLength(pages, 4);
    assert PageLengths(pages, 0) == 0;
  }

  function ExamplePages(post: Post): PageOracle {
    p => if 1 <= p <= 3 then seq(20, _ => post) else if p == 4 then seq(7, _ => post) else []
  }

  /** The bulk fetch over pages 1..n stopped after page k: pages 1..k came
      back with posts, and page k + 1, if it was asked for, came back empty. */
  predicate FetchStop(pages: PageOracle, n: int, k: int) {
    && 0 <= k <= Max(n, 0)
    && (forall p: nat :: 1 <= p <= k ==> pages(p) != [])
    && (k < n ==> pages(k + 1) == [])
  }

  /** The posts the bulk fetch collects: pages 1..k in order, where k is its
      stopping point. */
  ghost predicate IsCutConcat(pages: PageOracle, n: int, posts: seq<Post>) {
    exists k :: FetchStop(pages, n, k) && posts == Concat(pages, k)
  }

  /** The stopping point is the first empty page, if any, so it is unique. */
  lemma FetchStopUnique(pages: PageOracle, n: int, k1: int, k2: int)
    requires FetchStop(pages, n, k1) && FetchStop(pages, n, k2)
    ensures k1 == k2
  {
  }

  /** `for page in range(1, n + 1)`: fetch each page, stop at the first empty
      one, and extend the list with the posts of the others. */
  method BulkFetch(pages: PageOracle, n: int) returns (posts: seq<Post>)
    ensures IsCutConcat(pages, n, posts)
  {
    posts := [];
    var page := 1;
    while page <= n
      invariant 1 <= page <= Max(n, 0) + 1
      invariant forall p: nat :: 1 <= p < page ==> pages(p) != []
      invariant posts == Concat(pages, page - 1)
      decreases n - page
    {
      var got := pages(page);
      if got == [] {
        assert FetchStop(pages, n, page - 1);
        return;
      }
      posts := posts + got;
      page := page + 1;
    }
    assert FetchStop(pages, n, page - 1);
  }

  /** Nothing is fetched for a page count of 0 or less. */
  lemma BulkFetchNonPositive(pages: PageOracle, n: int, posts: seq<Post>)
    requires n <= 0 && IsCutConcat(pages, n, posts)
    ensures posts == []
  {
  }

  /** An empty last page adds nothing. */
  lemma ConcatEmptyLast(pages: PageOracle, n: int)
    requires n >= 1 && pages(n) == []
    ensures Concat(pages, n) == Concat(pages, n - 1)
  {
    assert Concat(pages, n) == Concat(pages, n - 1) + [];
  }

  /** Every page before the scan's stopping page has posts, so a fetch of
      that many pages collects pages 1..T, an empty page T adding nothing. */
  lemma FetchReachesScanPage(pages: PageOracle, limit: int, maxPages: int, totalPages: int, totalPosts: int, k: int)
    requires IsScanOutcome(pages, limit, maxPages, totalPages, totalPosts)
    requires FetchStop(pages, totalPages, k)
    ensures Concat(pages, k) == Concat(pages, totalPages)
  {
    if k != totalPages {
      ConcatEmptyLast(pages, totalPages);
    }
  }

  /** The scan's post total in terms of the page lengths: pages 1..T below
      the cap, pages 1..T - 1 at the cap. */
  lemma ScanTotal(pages: PageOracle, limit: int, maxPages: int, totalPages: int, totalPosts: int)
    requires IsScanOutcome(pages, limit, maxPages, totalPages, totalPosts)
    ensures totalPages <= maxPages ==> totalPosts == PageLengths(pages, totalPages)
    ensures totalPages > maxPages ==> totalPosts == PageLengths(pages, totalPages - 1)
  {
    var m := Min(totalPages, maxPages);
    ConcatLength(pages, m);
    if totalPages > maxPages && maxPages < 1 {
      assert PageLengths(pages, m) == 0;
    }
  }

  /** Fetching as many pages as the scan reported gives pages 1..T exactly.
      Below the cap that is the post total of the scan; at the cap the fetch
      also takes page maxPages + 1, which the scan never looked at. */
  lemma ScanThenFetch(pages: PageOracle, limit: int, maxPages: int, totalPages: int, totalPosts: int, posts: seq<Post>)
    requires IsScanOutcome(pages, limit, maxPages, totalPages, totalPosts)
    requires IsCutConcat(pages, totalPages, posts)
    ensures posts == Concat(pages, totalPages)
    ensures totalPages <= maxPages ==> |posts| == totalPosts
    ensures totalPages > maxPages ==> |posts| == totalPosts + |pages(totalPages)|
  {
    var k :| FetchStop(pages, totalPages, k) && posts == Concat(pages, k);
    FetchReachesScanPage(pages, limit, maxPages, totalPages, totalPosts, k);
    ConcatLength(pages, totalPages);
    ScanTotal(pages, limit, maxPages, totalPages, totalPosts);
  }
}

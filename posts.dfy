/**
 * The part of a board post the scraper looks at: its `file` record, whose
 * `url` decides whether the post can be downloaded and whose `size` feeds the
 * expected byte total. Absent JSON keys are `None`.
 */
module Posts {

  import opened Wrappers

  datatype FileInfo = FileInfo(url: Option<string>, size: Option<int>)

  datatype Post = Post(id: int, rating: string, file: Option<FileInfo>)

  /** `post.get("file", {}).get("url")` */
  function FileUrl(p: Post): Option<string> {
    match p.file
    case None => None
    case Some(f) => f.url
  }

  /** The URL is present and, as a Python condition, true: not empty. */
  predicate HasFileUrl(p: Post) {
    FileUrl(p).Some? && FileUrl(p).value != ""
  }

  /** `post.get("file", {}).get("size", 0)` */
  function FileSize(p: Post): int {
    match p.file
    case None => 0
    case Some(f) =>
      match f.size
      case None => 0
      case Some(n) => n
  }

  /** `[p for p in posts if p.get("file", {}).get("url")]` */
  function ValidPosts(posts: seq<Post>): (r: seq<Post>)
    ensures |r| <= |posts|
    ensures forall k :: 0 <= k < |r| ==> HasFileUrl(r[k])
  {
    if posts == [] then []
    else
      var rest := ValidPosts(posts[1..]);
      var r := (if HasFileUrl(posts[0]) then [posts[0]] else []) + rest;
      assert forall k :: 0 <= k < |r| ==> r[k] == posts[0] || r[k] in rest;
      r
  }

  /** The filter works post by post and keeps the order: filtering a
      concatenation is concatenating the filtered parts. */
  lemma {:induction false} ValidPostsAppend(a: seq<Post>, b: seq<Post>)
    ensures ValidPosts(a + b) == ValidPosts(a) + ValidPosts(b)
  {
    if a == [] {
      assert a + b == b;
    } else {
      assert (a + b)[1..] == a[1..] + b;
      ValidPostsAppend(a[1..], b);
    }
  }

  /** A single post is kept exactly when it has a URL. */
  lemma ValidPostsSingle(p: Post)
    ensures ValidPosts([p]) == if HasFileUrl(p) then [p] else []
  {
    assert [p][1..] == [];
  }

  /** A post is kept exactly when it is one of the input posts and has a URL. */
  lemma {:induction false} ValidPostsMember(posts: seq<Post>, p: Post)
    ensures p in ValidPosts(posts) <==> p in posts && HasFileUrl(p)
  {
    if posts != [] {
      ValidPostsMember(posts[1..], p);
      assert posts == [posts[0]] + posts[1..];
    }
  }

  /** Posts that all have a URL are all kept. */
  lemma {:induction false} ValidPostsOfValid(posts: seq<Post>)
    requires forall k :: 0 <= k < |posts| ==> HasFileUrl(posts[k])
    ensures ValidPosts(posts) == posts
  {
    if posts != [] {
      ValidPostsOfValid(posts[1..]);
      assert [posts[0]] + posts[1..] == posts;
    }
  }

  /** The sum of the posts' file sizes, a missing size counting as 0. */
  function TotalSize(posts: seq<Post>): int {
    if posts == [] then 0 else TotalSize(posts[..|posts| - 1]) + FileSize(posts[|posts| - 1])
  }

  lemma {:induction false} TotalSizeAppend(a: seq<Post>, b: seq<Post>)
    ensures TotalSize(a + b) == TotalSize(a) + TotalSize(b)
    decreases |b|
  {
    if b == [] {
      assert a + b == a;
    } else {
      assert (a + b)[..|a + b| - 1] == a + b[..|b| - 1];
      TotalSizeAppend(a, b[..|b| - 1]);
    }
  }

  /** Filtering before summing drops only posts without a URL: their sizes
      are exactly what separates the two sums. */
  lemma {:induction false} TotalSizeValid(posts: seq<Post>)
    ensures TotalSize(ValidPosts(posts)) + TotalSize(Dropped(posts)) == TotalSize(posts)
    decreases |posts|
  {
    if posts != [] {
      var front := posts[..|posts| - 1];
      assert posts == front + [posts[|posts| - 1]];
      TotalSizeValid(front);
      TotalSizeSplitSnoc(front, posts[|posts| - 1]);
    }
  }

  /** One more post goes to exactly one side, with its size. */
  lemma TotalSizeSplitSnoc(front: seq<Post>, last: Post)
    ensures TotalSize(ValidPosts(front + [last])) + TotalSize(Dropped(front + [last]))
         == TotalSize(ValidPosts(front)) + TotalSize(Dropped(front)) + FileSize(last)
  {
    TotalSizeValidSnoc(front, last);
    TotalSizeDroppedSnoc(front, last);
  }

  lemma TotalSizeValidSnoc(front: seq<Post>, last: Post)
    ensures TotalSize(ValidPosts(front + [last]))
         == TotalSize(ValidPosts(front)) + (if HasFileUrl(last) then FileSize(last) else 0)
  {
    ValidPostsAppend(front, [last]);
    ValidPostsSingle(last);
    TotalSizeAppend(ValidPosts(front), ValidPosts([last]));
    TotalSizeSingle(last);
  }

  lemma TotalSizeDroppedSnoc(front: seq<Post>, last: Post)
    ensures TotalSize(Dropped(front + [last]))
         == TotalSize(Dropped(front)) + (if HasFileUrl(last) then 0 else FileSize(last))
  {
    DroppedAppend(front, [last]);
    DroppedSingle(last);
    TotalSizeAppend(Dropped(front), Dropped([last]));
    TotalSizeSingle(last);
  }

  lemma TotalSizeSingle(p: Post)
    ensures TotalSize([p]) == FileSize(p) && TotalSize([]) == 0
  {
    assert [p][..0] == [];
  }

  lemma DroppedSingle(p: Post)
    ensures Dropped([p]) == if HasFileUrl(p) then [] else [p]
  {
    assert [p][1..] == [];
  }

  /** The posts the filter leaves out. */
  function Dropped(posts: seq<Post>): (r: seq<Post>)
    ensures forall k :: 0 <= k < |r| ==> !HasFileUrl(r[k])
  {
    if posts == [] then []
    else
      var rest := Dropped(posts[1..]);
      var r := (if HasFileUrl(posts[0]) then [] else [posts[0]]) + rest;
      assert forall k :: 0 <= k < |r| ==> r[k] == posts[0] || r[k] in rest;
      r
  }

  lemma {:induction false} DroppedAppend(a: seq<Post>, b: seq<Post>)
    ensures Dropped(a + b) == Dropped(a) + Dropped(b)
  {
    if a == [] {
      assert a + b == b;
    } else {
      assert (a + b)[1..] == a[1..] + b;
      DroppedAppend(a[1..], b);
    }
  }

  /** Every post is either kept or dropped. */
  lemma {:induction false} ValidPostsSplit(posts: seq<Post>)
    ensures |ValidPosts(posts)| + |Dropped(posts)| == |posts|
  {
    if posts != [] {
      ValidPostsSplit(posts[1..]);
    }
  }
}

/**
 * Building the search expression sent to the board: user tags first, then
 * every blacklisted tag negated with a leading `-`, separated by single spaces
 * (build_tag_query), and reading a comma-separated tag list typed by the user.
 */
module TagQuery {

  import opened Text

  /** A tag the query may carry: not empty, no surrounding whitespace. */
  predicate IsCleanTag(t: string) {
    t != "" && IsStripped(t)
  }

  /** `[t.strip() for t in tags if t.strip()]` */
  function CleanTags(tags: seq<string>): (r: seq<string>)
    ensures |r| <= |tags|
    ensures forall k :: 0 <= k < |r| ==> IsCleanTag(r[k])
  {
    if tags == [] then []
    else
      var rest := CleanTags(tags[1..]);
      var t := Strip(tags[0]);
      var r := (if t == "" then [] else [t]) + rest;
      assert forall k :: 0 <= k < |r| ==> r[k] == t || r[k] in rest;
      r
  }

  /** Cleaning works element by element and keeps the order. */
  lemma {:induction false} CleanTagsAppend(a: seq<string>, b: seq<string>)
    ensures CleanTags(a + b) == CleanTags(a) + CleanTags(b)
  {
    if a == [] {
      assert a + b == b;
    } else {
      assert (a + b)[1..] == a[1..] + b;
      CleanTagsAppend(a[1..], b);
    }
  }

  /** A tag list that is already clean comes through unchanged. */
  lemma {:induction false} CleanTagsOfClean(tags: seq<string>)
    requires forall k :: 0 <= k < |tags| ==> IsCleanTag(tags[k])
    ensures CleanTags(tags) == tags
  {
    if tags != [] {
      StripStripped(tags[0]);
      CleanTagsOfClean(tags[1..]);
      assert [tags[0]] + tags[1..] == tags;
    }
  }

  lemma {:induction false} CleanTagsAvoid(tags: seq<string>, c: char)
    requires forall k :: 0 <= k < |tags| ==> c !in tags[k]
    ensures forall k :: 0 <= k < |CleanTags(tags)| ==> c !in CleanTags(tags)[k]
  {
    if tags != [] {
      StripAvoids(tags[0], c);
      CleanTagsAvoid(tags[1..], c);
      var t := Strip(tags[0]);
      assert CleanTags(tags) == (if t == "" then [] else [t]) + CleanTags(tags[1..]);
    }
  }

  /** `[t.strip() for t in s.split(",") if t.strip()]`: the tags of a
      comma-separated line, each clean and free of commas. */
  function ParseTagList(s: string): (r: seq<string>)
    ensures forall k :: 0 <= k < |r| ==> IsCleanTag(r[k]) && ',' !in r[k]
  {
    SplitAvoids(s, ',');
    CleanTagsAvoid(Split(s, ','), ',');
    CleanTags(Split(s, ','))
  }

  /** Writing clean, comma-free tags as a comma-separated line and parsing the
      line gives the same tags back, in the same order. */
  lemma ParseTagListJoin(tags: seq<string>)
    requires forall k :: 0 <= k < |tags| ==> IsCleanTag(tags[k]) && ',' !in tags[k]
    ensures ParseTagList(Join(",", tags)) == tags
  {
    if tags == [] {
      assert Split("", ',') == [""];
      assert Strip("") == "";
    } else {
      SplitJoin(tags, ',');
      CleanTagsOfClean(tags);
    }
  }

  /** `[f"-{t}" for t in blacklist]`: every blacklisted tag as an exclusion. */
  function Negate(blacklist: seq<string>): (r: seq<string>)
    ensures |r| == |blacklist|
    ensures forall k :: 0 <= k < |r| ==> r[k] == "-" + blacklist[k]
  {
    seq(|blacklist|, k requires 0 <= k < |blacklist| => "-" + blacklist[k])
  }

  /** The tokens of a query, in the order they are joined. */
  function QueryTokens(userTags: seq<string>, blacklist: seq<string>): seq<string> {
    CleanTags(userTags) + Negate(blacklist)
  }

  /** build_tag_query: the space-joined tokens, stripped. */
  function BuildTagQuery(userTags: seq<string>, blacklist: seq<string>): (q: string)
    ensures IsStripped(q)
  {
    Strip(Join(" ", QueryTokens(userTags, blacklist)))
  }

  predicate NoTrailingSpace(s: string) {
    s == [] || !IsSpace(s[|s| - 1])
  }

  /** Every token starts with a non-space: a clean user tag, or a `-`. */
  lemma FirstTokenStart(userTags: seq<string>, blacklist: seq<string>)
    requires QueryTokens(userTags, blacklist) != []
    ensures QueryTokens(userTags, blacklist)[0] != []
    ensures !IsSpace(QueryTokens(userTags, blacklist)[0][0])
  {
    if |CleanTags(userTags)| == 0 {
      assert QueryTokens(userTags, blacklist)[0] == "-" + blacklist[0];
    }
  }

  /** The last token ends in a non-space unless it is a blacklisted tag that does. */
  lemma LastTokenEnd(userTags: seq<string>, blacklist: seq<string>)
    requires QueryTokens(userTags, blacklist) != []
    requires blacklist != [] ==> NoTrailingSpace(blacklist[|blacklist| - 1])
    ensures var tokens := QueryTokens(userTags, blacklist);
      tokens[|tokens| - 1] != [] && NoTrailingSpace(tokens[|tokens| - 1])
  {
    if |blacklist| > 0 {
      var tokens := QueryTokens(userTags, blacklist);
      assert tokens[|tokens| - 1] == "-" + blacklist[|blacklist| - 1];
    }
  }

  /** The final strip never touches the front of the query: at most the
      whitespace that ends the last blacklisted tag is taken off. */
  lemma BuildTagQueryStripsOnlyTheEnd(userTags: seq<string>, blacklist: seq<string>)
    ensures BuildTagQuery(userTags, blacklist) == StripRight(Join(" ", QueryTokens(userTags, blacklist)))
  {
    var tokens := QueryTokens(userTags, blacklist);
    if tokens != [] {
      FirstTokenStart(userTags, blacklist);
      JoinFirstChar(" ", tokens);
    }
  }

  /** When the last blacklisted tag does not end in whitespace, the query is
      exactly the tokens joined by single spaces: nothing is stripped at all. */
  lemma BuildTagQueryExact(userTags: seq<string>, blacklist: seq<string>)
    requires blacklist != [] ==> NoTrailingSpace(blacklist[|blacklist| - 1])
    ensures BuildTagQuery(userTags, blacklist) == Join(" ", QueryTokens(userTags, blacklist))
  {
    BuildTagQueryStripsOnlyTheEnd(userTags, blacklist);
    var tokens := QueryTokens(userTags, blacklist);
    if tokens != [] {
      LastTokenEnd(userTags, blacklist);
      JoinLastChar(" ", tokens);
    }
  }

  /** A character other than `-` that no blacklisted tag holds is in no
      exclusion. */
  lemma NegateAvoids(blacklist: seq<string>, c: char)
    requires c != '-'
    requires forall k :: 0 <= k < |blacklist| ==> c !in blacklist[k]
    ensures forall k :: 0 <= k < |Negate(blacklist)| ==> c !in Negate(blacklist)[k]
  {
    forall k | 0 <= k < |blacklist|
      ensures c !in Negate(blacklist)[k]
    {
      var b := blacklist[k];
      assert Negate(blacklist)[k] == "-" + b;
      assert c !in b;
    }
  }

  /** A character other than `-` that no tag holds is in no token. */
  lemma TokensAvoid(userTags: seq<string>, blacklist: seq<string>, c: char)
    requires c != '-'
    requires forall k :: 0 <= k < |userTags| ==> c !in userTags[k]
    requires forall k :: 0 <= k < |blacklist| ==> c !in blacklist[k]
    ensures forall k :: 0 <= k < |QueryTokens(userTags, blacklist)| ==> c !in QueryTokens(userTags, blacklist)[k]
  {
    CleanTagsAvoid(userTags, c);
    NegateAvoids(blacklist, c);
    var clean, negated := CleanTags(userTags), Negate(blacklist);
    var tokens := clean + negated;
    assert QueryTokens(userTags, blacklist) == tokens;
    forall k | 0 <= k < |tokens|
      ensures c !in tokens[k]
    {
      if k < |clean| {
        assert tokens[k] == clean[k];
      } else {
        assert tokens[k] == negated[k - |clean|];
      }
    }
  }

  /** With tags that hold no space, splitting the query at spaces recovers the
      cleaned user tags followed by the negated blacklist, each token intact. */
  lemma BuildTagQueryTokens(userTags: seq<string>, blacklist: seq<string>)
    requires forall k :: 0 <= k < |userTags| ==> ' ' !in userTags[k]
    requires forall k :: 0 <= k < |blacklist| ==> ' ' !in blacklist[k]
    requires blacklist != [] ==> NoTrailingSpace(blacklist[|blacklist| - 1])
    requires QueryTokens(userTags, blacklist) != []
    ensures Split(BuildTagQuery(userTags, blacklist), ' ') == CleanTags(userTags) + Negate(blacklist)
  {
    BuildTagQueryExact(userTags, blacklist);
    TokensAvoid(userTags, blacklist, ' ');
    SplitJoin(QueryTokens(userTags, blacklist), ' ');
  }

  /** Both lists empty: the empty query, which matches everything. */
  lemma BuildTagQueryEmpty()
    ensures BuildTagQuery([], []) == ""
  {
    assert QueryTokens([], []) == [];
  }

  /** The worked example: one user tag and one blacklisted tag. */
  lemma BuildTagQueryFoxCub()
    ensures BuildTagQuery(["fox"], ["cub"]) == "fox -cub"
  {
    FoxCubTokens();
    BuildTagQueryExact(["fox"], ["cub"]);
    FoxCubJoin();
  }

  lemma FoxCubTokens()
    ensures QueryTokens(["fox"], ["cub"]) == ["fox", "-cub"]
  {
    CleanTagsOfClean(["fox"]);
    assert "-" + "cub" == "-cub";
    assert Negate(["cub"]) == ["-cub"];
  }

  lemma FoxCubJoin()
    ensures Join(" ", ["fox", "-cub"]) == "fox -cub"
  {
    assert ["fox", "-cub"][1..] == ["-cub"];
  }
}

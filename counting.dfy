/**
 * Counting and picking out along a run of attempts: `ok[i]` says whether
 * attempt i succeeded. All three functions are defined from the last
 * attempt back, the order in which a loop extends them.
 */
module Counting {

  /** The number of successful attempts. */
  function CountTrue(ok: seq<bool>): nat {
    if ok == [] then 0 else CountTrue(ok[..|ok| - 1]) + (if ok[|ok| - 1] then 1 else 0)
  }

  function Sum(xs: seq<nat>): nat {
    if xs == [] then 0 else Sum(xs[..|xs| - 1]) + xs[|xs| - 1]
  }

  /** The items of the successful attempts, in order: one per success. */
  function Kept<T>(xs: seq<T>, ok: seq<bool>): (r: seq<T>)
    requires |xs| == |ok|
    ensures |r| == CountTrue(ok)
    ensures forall j :: 0 <= j < |r| ==> r[j] in xs
  {
    if xs == [] then []
    else
      var front := Kept(xs[..|xs| - 1], ok[..|ok| - 1]);
      var r := front + (if ok[|ok| - 1] then [xs[|xs| - 1]] else []);
      assert forall j :: 0 <= j < |front| ==> front[j] in xs[..|xs| - 1];
      r
  }

  /** One more attempt: the count grows by that attempt alone. */
  lemma CountTrueSnoc(ok: seq<bool>, i: int)
    requires 0 <= i < |ok|
    ensures CountTrue(ok[..i + 1]) == CountTrue(ok[..i]) + (if ok[i] then 1 else 0)
  {
    assert ok[..i + 1][..i] == ok[..i];
  }

  lemma SumSnoc(xs: seq<nat>, i: int)
    requires 0 <= i < |xs|
    ensures Sum(xs[..i + 1]) == Sum(xs[..i]) + xs[i]
  {
    assert xs[..i + 1][..i] == xs[..i];
  }

  /** One more attempt keeps its item exactly when it succeeded. */
  lemma KeptSnoc<T>(xs: seq<T>, ok: seq<bool>, i: int)
    requires |xs| == |ok| && 0 <= i < |xs|
    ensures Kept(xs[..i + 1], ok[..i + 1]) == Kept(xs[..i], ok[..i]) + (if ok[i] then [xs[i]] else [])
  {
    assert ok[..i + 1][..i] == ok[..i];
    assert xs[..i + 1][..i] == xs[..i];
  }

  /** There are never more successes than attempts. */
  lemma {:induction false} CountTrueBound(ok: seq<bool>)
    ensures CountTrue(ok) <= |ok|
  {
    if ok != [] {
      CountTrueBound(ok[..|ok| - 1]);
    }
  }

  /** Every attempt succeeded exactly when the count is the number of
      attempts. */
  lemma {:induction false} CountTrueAll(ok: seq<bool>)
    ensures CountTrue(ok) == |ok| <==> forall i :: 0 <= i < |ok| ==> ok[i]
  {
    if ok != [] {
      var front := ok[..|ok| - 1];
      CountTrueAll(front);
      CountTrueBound(front);
      assert forall i :: 0 <= i < |front| ==> front[i] == ok[i];
    }
  }

  /** When every attempt succeeds everything is kept. */
  lemma {:induction false} KeptAll<T>(xs: seq<T>, ok: seq<bool>)
    requires |xs| == |ok|
    requires forall i :: 0 <= i < |ok| ==> ok[i]
    ensures Kept(xs, ok) == xs
  {
    if xs != [] {
      KeptAll(xs[..|xs| - 1], ok[..|ok| - 1]);
    }
  }

  /** The items numbered 1, 2, 3, ... in order, each passed with its number
      through `name`. */
  function Numbered<T, U>(xs: seq<T>, name: (T, int) -> U): (r: seq<U>)
    ensures |r| == |xs|
  {
    if xs == [] then [] else Numbered(xs[..|xs| - 1], name) + [name(xs[|xs| - 1], |xs|)]
  }

  /** The j-th item (from 0) carries the number j + 1. */
  lemma {:induction false} NumberedAt<T, U>(xs: seq<T>, name: (T, int) -> U, j: int)
    requires 0 <= j < |xs|
    ensures Numbered(xs, name)[j] == name(xs[j], j + 1)
  {
    if j < |xs| - 1 {
      NumberedAt(xs[..|xs| - 1], name, j);
    }
  }

  /** One more item, if there is one, takes the next number. */
  lemma NumberedSnoc<T, U>(xs: seq<T>, x: T, kept: bool, name: (T, int) -> U)
    ensures Numbered(xs + (if kept then [x] else []), name)
         == Numbered(xs, name) + (if kept then [name(x, |xs| + 1)] else [])
  {
    if kept {
      assert (xs + [x])[..|xs|] == xs;
    } else {
      assert xs + [] == xs;
    }
  }
}

/**
 * The Python string built-ins the scraper relies on, on `string` (a sequence
 * of Unicode scalar values): `str.strip()`, `str.split(c)` with a one-character
 * separator, `str.join`, `str.find` / `str.rfind`, `str(n)` for a natural
 * number, ASCII lower-casing and `int()` on decimal text.
 */
module Text {

  import opened Wrappers

  /** `c.isspace()`: the characters Python strips with a bare `strip()`. */
  predicate IsSpace(c: char) {
    || ('\t' <= c <= '\r') || ('\U{1C}' <= c <= '\U{1F}') || c == ' '
    || c == '\U{85}' || c == '\U{A0}' || c == '\U{1680}'
    || ('\U{2000}' <= c <= '\U{200A}') || c == '\U{2028}' || c == '\U{2029}'
    || c == '\U{202F}' || c == '\U{205F}' || c == '\U{3000}'
  }

  /** Neither starts nor ends with whitespace (the empty string included). */
  predicate IsStripped(s: string) {
    s == [] || (!IsSpace(s[0]) && !IsSpace(s[|s| - 1]))
  }

  predicate AllSpace(s: string) {
    forall k :: 0 <= k < |s| ==> IsSpace(s[k])
  }

  /** `s.lstrip()`: the suffix left after dropping leading whitespace. */
  function StripLeft(s: string): (r: string)
    ensures |r| <= |s|
    ensures r == [] || !IsSpace(r[0])
  {
    if s != [] && IsSpace(s[0]) then StripLeft(s[1..]) else s
  }

  /** `s.rstrip()`: the prefix left after dropping trailing whitespace. */
  function StripRight(s: string): (r: string)
    ensures |r| <= |s|
    ensures r == [] || (r[0] == s[0] && !IsSpace(r[|r| - 1]))
  {
    if s != [] && IsSpace(s[|s| - 1]) then StripRight(s[..|s| - 1]) else s
  }

  /** `s.strip()` */
  function Strip(s: string): (r: string)
    ensures IsStripped(r)
  {
    StripRight(StripLeft(s))
  }

  /** What lstrip leaves is a suffix; what rstrip leaves is a prefix. */
  lemma {:induction false} StripLeftSuffix(s: string)
    ensures StripLeft(s) == s[|s| - |StripLeft(s)|..]
  {
    if s != [] && IsSpace(s[0]) {
      StripLeftSuffix(s[1..]);
    }
  }

  lemma {:induction false} StripRightPrefix(s: string)
    ensures StripRight(s) == s[..|StripRight(s)|]
  {
    if s != [] && IsSpace(s[|s| - 1]) {
      StripRightPrefix(s[..|s| - 1]);
    }
  }

  /** Stripping never brings in a character the text did not hold. */
  lemma StripAvoids(s: string, c: char)
    requires c !in s
    ensures c !in Strip(s)
  {
    StripLeftSuffix(s);
    var l := StripLeft(s);
    assert c !in l;
    StripRightPrefix(l);
  }

  lemma {:induction false} StripLeftOf(pre: string, rest: string)
    requires AllSpace(pre)
    requires rest == [] || !IsSpace(rest[0])
    ensures StripLeft(pre + rest) == rest
  {
    if pre != [] {
      assert (pre + rest)[1..] == pre[1..] + rest;
      StripLeftOf(pre[1..], rest);
    }
  }

  lemma {:induction false} StripRightOf(rest: string, post: string)
    requires AllSpace(post)
    requires rest == [] || !IsSpace(rest[|rest| - 1])
    ensures StripRight(rest + post) == rest
  {
    if post != [] {
      assert (rest + post)[..|rest + post| - 1] == rest + post[..|post| - 1];
      StripRightOf(rest, post[..|post| - 1]);
    }
  }

  /** Strip takes off exactly the surrounding whitespace: whatever stripped
      core is wrapped in whitespace, stripping gives that core back. */
  lemma StripExact(pre: string, core: string, post: string)
    requires AllSpace(pre) && AllSpace(post) && IsStripped(core)
    ensures Strip(pre + core + post) == core
  {
    if core == [] {
      assert pre + core + post == pre + post;
      StripLeftOf(pre + post, []);
      assert pre + post + [] == pre + post;
    } else {
      assert pre + core + post == pre + (core + post);
      StripLeftOf(pre, core + post);
      StripRightOf(core, post);
    }
  }

  /** Stripping a stripped string changes nothing; in particular Strip is idempotent. */
  lemma StripStripped(s: string)
    requires IsStripped(s)
    ensures Strip(s) == s
  {
    assert [] + s + [] == s;
    StripExact([], s, []);
  }

  /** Regrouping a concatenation, stated once so that callers need not
      compare the two sequences element by element. */
  lemma ConcatAssoc(a: string, b: string, c: string)
    ensures a + b + c == a + (b + c)
  {
  }

  /** `sep.join(xs)` */
  function Join(sep: string, xs: seq<string>): string {
    if |xs| == 0 then ""
    else if |xs| == 1 then xs[0]
    else xs[0] + sep + Join(sep, xs[1..])
  }

  /** A join starts with the first character of its first piece ... */
  lemma JoinFirstChar(sep: string, xs: seq<string>)
    requires |xs| > 0 && xs[0] != []
    ensures |Join(sep, xs)| > 0 && Join(sep, xs)[0] == xs[0][0]
  {
  }

  /** ... and ends with the last character of its last piece. */
  lemma {:induction false} JoinLastChar(sep: string, xs: seq<string>)
    requires |xs| > 0 && xs[|xs| - 1] != []
    ensures |Join(sep, xs)| > 0
    ensures Join(sep, xs)[|Join(sep, xs)| - 1] == xs[|xs| - 1][|xs[|xs| - 1]| - 1]
  {
    if |xs| > 1 {
      assert xs[1..][|xs| - 2] == xs[|xs| - 1];
      JoinLastChar(sep, xs[1..]);
    }
  }

  /** `s.find(c)`: the first index of `c` in `s`, or -1. */
  function IndexOf(s: string, c: char): (r: int)
    ensures -1 <= r < |s|
    ensures r >= 0 ==> s[r] == c && c !in s[..r]
    ensures r < 0 ==> c !in s
  {
    if s == [] then -1
    else
      var front := s[..|s| - 1];
      var i := IndexOf(front, c);
      if i >= 0 then
        assert s[..i] == front[..i];
        i
      else if s[|s| - 1] == c then
        assert s[..|s| - 1] == front;
        |s| - 1
      else
        assert s == front + [s[|s| - 1]];
        -1
  }

  /** `s.rfind(c)`: the last index of `c` in `s`, or -1. */
  function LastIndexOf(s: string, c: char): (r: int)
    ensures -1 <= r < |s|
    ensures r >= 0 ==> s[r] == c
    ensures forall k :: r < k < |s| ==> s[k] != c
  {
    if s == [] then -1
    else if s[|s| - 1] == c then |s| - 1
    else LastIndexOf(s[..|s| - 1], c)
  }

  /** The last occurrence is where the contract says it is. */
  lemma LastIndexOfAt(s: string, c: char, i: int)
    requires 0 <= i < |s| && s[i] == c
    requires forall k :: i < k < |s| ==> s[k] != c
    ensures LastIndexOf(s, c) == i
  {
  }

  lemma LastIndexOfAbsent(s: string, c: char)
    requires c !in s
    ensures LastIndexOf(s, c) == -1
  {
  }

  /** The last `c` of `t + [c] + u` when `u` holds none. */
  lemma {:induction false} LastIndexOfSplit(t: string, c: char, u: string)
    requires c !in u
    ensures LastIndexOf(t + [c] + u, c) == |t|
  {
    var s := t + [c] + u;
    if u != [] {
      assert s[|s| - 1] == u[|u| - 1];
      assert s[..|s| - 1] == t + [c] + u[..|u| - 1];
      LastIndexOfSplit(t, c, u[..|u| - 1]);
    }
  }

  /** The first `c` of `t + [c] + u` when `t` holds none. */
  lemma IndexOfSplit(t: string, c: char, u: string)
    requires c !in t
    ensures IndexOf(t + [c] + u, c) == |t|
  {
    var s := t + [c] + u;
    assert s[..|t|] == t;
    assert s[|t|] == c;
  }

  /** Appending text without `c` does not move the last `c`. */
  lemma LastIndexOfAppend(s: string, t: string, c: char)
    requires c !in t
    ensures LastIndexOf(s + t, c) == LastIndexOf(s, c)
  {
    var r := LastIndexOf(s, c);
    var st := s + t;
    assert forall k :: |s| <= k < |st| ==> st[k] == t[k - |s|];
    if r >= 0 {
      LastIndexOfAt(st, c, r);
    } else {
      assert forall k :: 0 <= k < |st| ==> st[k] != c;
    }
  }

  /** `s.split(c)`: the pieces between the occurrences of `c`; never an empty list. */
  function Split(s: string, c: char): (r: seq<string>)
    ensures |r| >= 1
    decreases |s|
  {
    var i := IndexOf(s, c);
    if i < 0 then [s] else [s[..i]] + Split(s[i + 1..], c)
  }

  /** No piece holds the separator. */
  lemma {:induction false} SplitAvoids(s: string, c: char)
    ensures forall k :: 0 <= k < |Split(s, c)| ==> c !in Split(s, c)[k]
    decreases |s|
  {
    var i := IndexOf(s, c);
    if i >= 0 {
      var rest := Split(s[i + 1..], c);
      SplitAvoids(s[i + 1..], c);
      var first := s[..i];
      assert c !in first;
      var r := [first] + rest;
      assert Split(s, c) == r;
      forall k | 0 <= k < |r|
        ensures c !in r[k]
      {
        if k > 0 {
          assert r[k] == rest[k - 1];
        }
      }
    }
  }

  lemma JoinCons(sep: string, x: string, xs: seq<string>)
    requires |xs| > 0
    ensures Join(sep, [x] + xs) == x + sep + Join(sep, xs)
  {
    assert ([x] + xs)[1..] == xs;
  }

  /** Splitting at a first separator that follows `x`. */
  lemma SplitAt(x: string, c: char, rest: string)
    requires c !in x
    ensures Split(x + [c] + rest, c) == [x] + Split(rest, c)
  {
    var s := x + [c] + rest;
    IndexOfSplit(x, c, rest);
    assert s[..|x|] == x;
    assert s[|x| + 1..] == rest;
  }

  /** Joining the pieces with the separator gives the text back. */
  lemma {:induction false} JoinSplit(s: string, c: char)
    ensures Join([c], Split(s, c)) == s
    decreases |s|
  {
    var i := IndexOf(s, c);
    if i >= 0 {
      var x, tail := s[..i], s[i + 1..];
      assert s == x + [c] + tail;
      JoinSplit(tail, c);
      JoinCons([c], x, Split(tail, c));
    }
  }

  /** Splitting a join gives the pieces back when none of them holds the separator. */
  lemma {:induction false} SplitJoin(xs: seq<string>, c: char)
    requires |xs| > 0
    requires forall k :: 0 <= k < |xs| ==> c !in xs[k]
    ensures Split(Join([c], xs), c) == xs
  {
    if |xs| > 1 {
      JoinCons([c], xs[0], xs[1..]);
      assert [xs[0]] + xs[1..] == xs;
      SplitAt(xs[0], c, Join([c], xs[1..]));
      SplitJoin(xs[1..], c);
    }
  }

  predicate IsDigit(c: char) {
    '0' <= c <= '9'
  }

  predicate AllDigits(s: string) {
    forall k :: 0 <= k < |s| ==> IsDigit(s[k])
  }

  function DigitChar(d: nat): (c: char)
    requires d < 10
    ensures IsDigit(c) && DigitValue(c) == d
  {
    ('0' as int + d) as char
  }

  function DigitValue(c: char): nat
    requires IsDigit(c)
  {
    (c as int - '0' as int) as nat
  }

  /** The number a string of decimal digits denotes. */
  function DecimalValue(s: string): nat
    requires AllDigits(s)
  {
    if s == [] then 0 else 10 * DecimalValue(s[..|s| - 1]) + DigitValue(s[|s| - 1])
  }

  /** `str(n)`: decimal digits without leading zeros, denoting `n`. */
  function Digits(n: nat): string {
    if n < 10 then [DigitChar(n)] else Digits(n / 10) + [DigitChar(n % 10)]
  }

  /** What `str(n)` is: at least one digit, no leading zero, denoting n. */
  lemma {:induction false} DigitsValue(n: nat)
    ensures var r := Digits(n);
            && |r| >= 1 && AllDigits(r)
            && (|r| > 1 ==> r[0] != '0')
            && DecimalValue(r) == n
  {
    if n >= 10 {
      DigitsValue(n / 10);
      var front := Digits(n / 10);
      var r := Digits(n);
      assert r[..|r| - 1] == front;
      assert forall k :: 0 <= k < |front| ==> r[k] == front[k];
    }
  }

  /** `str(n)` has at most three digits exactly when n is below 1000. */
  lemma {:induction false} DigitsLength(n: nat)
    ensures n < 10 <==> |Digits(n)| == 1
    ensures n < 100 <==> |Digits(n)| <= 2
    ensures n < 1000 <==> |Digits(n)| <= 3
  {
    if n >= 10 {
      DigitsLength(n / 10);
      assert |Digits(n)| == |Digits(n / 10)| + 1;
    }
  }

  function Repeat(c: char, n: nat): (r: string)
    ensures |r| == n && forall k :: 0 <= k < n ==> r[k] == c
  {
    seq(n, _ => c)
  }

  /** Leading zeros do not change the value of a digit string. */
  lemma {:induction false} DecimalValueLeadingZeros(n: nat, s: string)
    requires AllDigits(s)
    ensures AllDigits(Repeat('0', n) + s)
    ensures DecimalValue(Repeat('0', n) + s) == DecimalValue(s)
    decreases |s|
  {
    var z := Repeat('0', n);
    assert AllDigits(z + s) by {
      assert forall k :: 0 <= k < |z + s| ==> (z + s)[k] == if k < n then '0' else s[k - n];
    }
    if s == [] {
      assert z + s == z;
      ZerosValue(n);
    } else {
      assert (z + s)[..|z + s| - 1] == z + s[..|s| - 1];
      DecimalValueLeadingZeros(n, s[..|s| - 1]);
    }
  }

  lemma {:induction false} ZerosValue(n: nat)
    ensures AllDigits(Repeat('0', n)) && DecimalValue(Repeat('0', n)) == 0
  {
    if n > 0 {
      assert Repeat('0', n)[..n - 1] == Repeat('0', n - 1);
      ZerosValue(n - 1);
    }
  }

  /** `int(t)` on text that is already stripped: an optional sign, then at
      least one ASCII digit; anything else is a ValueError (None). */
  function ParseInt(t: string): Option<int> {
    if |t| > 0 && (t[0] == '+' || t[0] == '-') then
      if |t| > 1 && AllDigits(t[1..]) then
        var v: int := DecimalValue(t[1..]);
        Some(if t[0] == '-' then -v else v)
      else None
    else if |t| > 0 && AllDigits(t) then Some(DecimalValue(t))
    else None
  }

  /** `int` reads back what `str` writes, for either sign and with leading zeros. */
  lemma ParseIntUnsigned(d: string)
    requires |d| > 0 && AllDigits(d)
    ensures ParseInt(d) == Some(DecimalValue(d) as int)
  {
    assert IsDigit(d[0]);
  }

  lemma ParseIntNegative(d: string)
    requires |d| > 0 && AllDigits(d)
    ensures ParseInt("-" + d) == Some(-(DecimalValue(d) as int))
  {
    var s := "-" + d;
    assert s[1..] == d;
  }

  /** `str(n)` has no surrounding whitespace. */
  lemma DigitsStripped(n: nat)
    ensures IsStripped(Digits(n))
  {
    DigitsValue(n);
    var d := Digits(n);
    assert IsDigit(d[0]) && IsDigit(d[|d| - 1]);
  }

  /** `int(str(n))` is n. */
  lemma ParseIntOfDigits(n: nat)
    ensures ParseInt(Digits(n)) == Some(n as int)
  {
    DigitsValue(n);
    ParseIntUnsigned(Digits(n));
  }

  /** `int("-" + str(n))` is -n. */
  lemma ParseIntOfNegativeDigits(n: nat)
    ensures ParseInt("-" + Digits(n)) == Some(-(n as int))
  {
    DigitsValue(n);
    ParseIntNegative(Digits(n));
  }

  /** `int` reads back what `str` writes, with or without leading zeros. */
  lemma ParseIntDigits(zeros: nat, n: nat)
    ensures ParseInt(Repeat('0', zeros) + Digits(n)) == Some(n as int)
  {
    DigitsValue(n);
    DecimalValueLeadingZeros(zeros, Digits(n));
    ParseIntUnsigned(Repeat('0', zeros) + Digits(n));
  }

  /** The same for a negative number written with a minus sign. */
  lemma ParseIntNegativeDigits(zeros: nat, n: nat)
    ensures ParseInt("-" + Repeat('0', zeros) + Digits(n)) == Some(-(n as int))
  {
    DigitsValue(n);
    DecimalValueLeadingZeros(zeros, Digits(n));
    ParseIntNegative(Repeat('0', zeros) + Digits(n));
    assert "-" + Repeat('0', zeros) + Digits(n) == "-" + (Repeat('0', zeros) + Digits(n));
  }

  function LowerChar(c: char): char {
    if 'A' <= c <= 'Z' then (c as int - 'A' as int + 'a' as int) as char else c
  }

  /** `s.lower()` on ASCII letters; other characters are left as they are. */
  function Lower(s: string): (r: string)
    ensures |r| == |s|
  {
    seq(|s|, k requires 0 <= k < |s| => LowerChar(s[k]))
  }
}

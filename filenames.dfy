/**
 * The name under which a download is saved (download_image): the last path
 * segment of the URL with any query string removed, and in pool mode a
 * three-digit sequence counter put in front of the extension
 * (append_counter_to_filename). Paths follow POSIX `os.path` rules.
 */
module Filenames {

  import opened Wrappers
  import opened Text

  /** `url.split('?')[0]`: the URL up to its first `?`. */
  function UrlPath(url: string): string {
    Split(url, '?')[0]
  }

  /** The path is the URL up to its first `?`, or all of it. */
  lemma UrlPathPrefix(url: string)
    ensures var p := UrlPath(url);
            && '?' !in p
            && |p| <= |url| && p == url[..|p|]
            && (|p| < |url| ==> url[|p|] == '?')
  {
    var i := IndexOf(url, '?');
    assert Split(url, '?')[0] == if i < 0 then url else url[..i];
  }

  /** `os.path.basename(p)`: the characters after the last `/`, taken from
      the end of the path back to that `/`. */
  function Basename(p: string): string {
    if p == [] || p[|p| - 1] == '/' then [] else Basename(p[..|p| - 1]) + [p[|p| - 1]]
  }

  /** The base name is the longest end of the path without a `/`. */
  lemma {:induction false} BasenameSuffix(p: string)
    ensures var r := Basename(p);
            && '/' !in r
            && |r| <= |p| && r == p[|p| - |r|..]
            && (|r| < |p| ==> p[|p| - |r| - 1] == '/')
  {
    if p != [] && p[|p| - 1] != '/' {
      var front := p[..|p| - 1];
      BasenameSuffix(front);
      var r0, c := Basename(front), p[|p| - 1];
      var m := |front| - |r0|;
      assert Basename(p) == r0 + [c];
      assert p[m..] == front[m..] + [c];
      assert m > 0 ==> p[m - 1] == front[m - 1];
    }
  }

  /** It is the text after the last `/` found by `rfind`, which is how
      posixpath computes it. */
  lemma BasenameRfind(p: string)
    ensures Basename(p) == p[LastIndexOf(p, '/') + 1..]
  {
    BasenameSuffix(p);
    var r := Basename(p);
    var k := |p| - |r|;
    assert forall j :: k <= j < |p| ==> p[j] == r[j - k];
    if |r| < |p| {
      LastIndexOfAt(p, '/', k - 1);
    } else {
      assert r == p;
      LastIndexOfAbsent(p, '/');
    }
  }

  predicate HasNonDot(s: string) {
    exists k :: 0 <= k < |s| && s[k] != '.'
  }

  /** `os.path.splitext(p)`: the extension starts at the last `.` of the last
      path segment, unless only dots come before it in that segment (so
      `.bashrc` and `..png` have none); the extension may be a bare `.`. */
  function SplitExt(p: string): (string, string) {
    var sepIndex := LastIndexOf(p, '/');
    var dotIndex := LastIndexOf(p, '.');
    if dotIndex > sepIndex && HasNonDot(p[sepIndex + 1..dotIndex]) then
      (p[..dotIndex], p[dotIndex..])
    else
      (p, "")
  }

  /** The two parts put back together give the path. */
  lemma SplitExtJoin(p: string)
    ensures SplitExt(p).0 + SplitExt(p).1 == p
  {
    var dotIndex := LastIndexOf(p, '.');
    if SplitExt(p).1 != "" {
      assert p[..dotIndex] + p[dotIndex..] == p;
    } else {
      assert p + "" == p;
    }
  }

  /** An extension is empty or a `.` followed by neither `.` nor `/`. */
  lemma SplitExtShape(p: string)
    ensures var e := SplitExt(p).1; e == [] || (e[0] == '.' && '.' !in e[1..] && '/' !in e)
  {
    var sepIndex := LastIndexOf(p, '/');
    var dotIndex := LastIndexOf(p, '.');
    var e := SplitExt(p).1;
    if e != [] {
      assert e == p[dotIndex..];
      assert forall k :: 0 <= k < |e| ==> e[k] == p[dotIndex + k];
      assert forall k :: 1 <= k < |e| ==> e[k] != '.';
    }
  }

  /** A path whose last dot has a non-dot before it, within the last
      segment, splits at that dot. */
  lemma SplitExtAtDot(base: string, x: string)
    requires '/' !in x && '.' !in x
    requires HasNonDot(base[LastIndexOf(base, '/') + 1..])
    ensures SplitExt(base + ['.'] + x) == (base, ['.'] + x)
  {
    var p := base + ['.'] + x;
    var sep := LastIndexOf(base, '/');
    var j :| 0 <= j < |base[sep + 1..]| && base[sep + 1..][j] != '.';
    LastIndexOfSplit(base, '.', x);
    ConcatAssoc(base, ['.'], x);
    LastIndexOfAppend(base, ['.'] + x, '/');
    assert LastIndexOf(p, '/') == sep;
    assert p[sep + 1..|base|][j] != '.';
    assert HasNonDot(p[sep + 1..|base|]);
    assert p[..|base|] == base;
    assert p[|base|..] == ['.'] + x;
  }

  /** A name whose only dots lead it has no extension. */
  lemma SplitExtLeadingDots(dots: string, x: string)
    requires forall k :: 0 <= k < |dots| ==> dots[k] == '.'
    requires '/' !in x && '.' !in x
    ensures SplitExt(dots + ['.'] + x) == (dots + ['.'] + x, "")
  {
    var p := dots + ['.'] + x;
    LastIndexOfSplit(dots, '.', x);
    assert '/' !in p;
    LastIndexOfAbsent(p, '/');
    assert p[0..|dots|] == dots;
  }

  lemma SplitExtPng()
    ensures SplitExt("foo.png") == ("foo", ".png")
  {
    SplitExtExample("foo", "png");
    assert "foo" + ['.'] + "png" == "foo.png";
  }

  /** Only the last extension is split off. */
  lemma SplitExtTarGz()
    ensures SplitExt("a.tar.gz") == ("a.tar", ".gz")
  {
    SplitExtExample("a.tar", "gz");
    assert "a.tar" + ['.'] + "gz" == "a.tar.gz";
  }

  /** A name without `/` that does not start with a dot splits at its last dot. */
  lemma SplitExtExample(base: string, x: string)
    requires |base| > 0 && base[0] != '.' && '/' !in base
    requires '/' !in x && '.' !in x
    ensures SplitExt(base + ['.'] + x) == (base, ['.'] + x)
  {
    LastIndexOfAbsent(base, '/');
    assert base[0..][0] == base[0];
    SplitExtAtDot(base, x);
  }

  /** A dot that leads a name does not start an extension. */
  lemma SplitExtDotfile()
    ensures SplitExt(".bashrc") == (".bashrc", "")
  {
    SplitExtLeadingDots("", "bashrc");
    assert "" + ['.'] + "bashrc" == ".bashrc";
  }

  /** Nor do several of them. */
  lemma SplitExtDoubleDot()
    ensures SplitExt("..png") == ("..png", "")
  {
    SplitExtLeadingDots(".", "png");
    assert "." + ['.'] + "png" == "..png";
  }

  function ZeroPad(d: string, width: nat): (r: string)
    ensures |r| == if |d| < width then width else |d|
  {
    if |d| < width then Repeat('0', width - |d|) + d else d
  }

  /** `f"{c:03d}"`: the decimal counter padded with zeros to three characters,
      the sign counting as one of them. */
  function Pad3(c: int): string {
    var n: nat := if c < 0 then -c else c;
    var d := Digits(n);
    if c < 0 then "-" + ZeroPad(d, 2) else ZeroPad(d, 3)
  }

  /** The field is never shorter than three characters, and exactly three for
      every counter from -99 to 999. */
  lemma Pad3Length(c: int)
    ensures |Pad3(c)| >= 3
    ensures -99 <= c <= 999 ==> |Pad3(c)| == 3
  {
    DigitsLength(if c < 0 then -c else c);
  }

  /** Padding digits with zeros gives digits. */
  lemma ZeroPadDigits(d: string, width: nat)
    requires AllDigits(d)
    ensures AllDigits(ZeroPad(d, width))
  {
    var zeros := if |d| < width then width - |d| else 0;
    ZeroPadZeros(d, width);
    var r := Repeat('0', zeros) + d;
    assert forall k :: 0 <= k < |r| ==> r[k] == if k < zeros then '0' else d[k - zeros];
  }

  /** The field is all digits but for a leading `-` on a negative counter. */
  lemma Pad3Chars(c: int)
    ensures var r := Pad3(c); forall k :: 0 <= k < |r| ==> IsDigit(r[k]) || (k == 0 && c < 0 && r[k] == '-')
  {
    var n: nat := if c < 0 then -c else c;
    var d := Digits(n);
    DigitsValue(n);
    if c < 0 {
      ZeroPadDigits(d, 2);
      var field := ZeroPad(d, 2);
      var r := "-" + field;
      assert forall k :: 1 <= k < |r| ==> r[k] == field[k - 1];
    } else {
      ZeroPadDigits(d, 3);
    }
  }

  /** The field never holds a character that could end a path segment or start
      an extension or a query string. */
  lemma Pad3Plain(c: int)
    ensures '.' !in Pad3(c) && '/' !in Pad3(c) && '?' !in Pad3(c) && '_' !in Pad3(c)
  {
    Pad3Chars(c);
  }

  /** Padding puts zeros in front, as many as the width asks for. */
  lemma ZeroPadZeros(d: string, width: nat)
    ensures ZeroPad(d, width) == Repeat('0', if |d| < width then width - |d| else 0) + d
  {
    if |d| >= width {
      assert Repeat('0', 0) + d == d;
    }
  }

  /** Reading the field back with `int` gives the counter, for every integer. */
  lemma Pad3RoundTrip(c: int)
    ensures ParseInt(Pad3(c)) == Some(c)
  {
    var n: nat := if c < 0 then -c else c;
    var d := Digits(n);
    var width := if c < 0 then 2 else 3;
    var zeros := if |d| < width then width - |d| else 0;
    ZeroPadZeros(d, width);
    if c < 0 {
      assert Pad3(c) == "-" + Repeat('0', zeros) + Digits(n);
      ParseIntNegativeDigits(zeros, n);
    } else {
      ParseIntDigits(zeros, n);
    }
  }

  /** append_counter_to_filename: `base + "_" + Pad3(counter) + ext`. */
  function AppendCounter(filename: string, counter: int): string {
    var (base, ext) := SplitExt(filename);
    base + "_" + Pad3(counter) + ext
  }

  /** The new name is the old one with `_` and the counter field inserted
      where its base ends, so it is one `_` and the field longer. */
  lemma AppendCounterLength(filename: string, counter: int)
    ensures var k := |SplitExt(filename).0|;
            && k <= |filename|
            && AppendCounter(filename, counter) == filename[..k] + "_" + Pad3(counter) + filename[k..]
    ensures |AppendCounter(filename, counter)| == |filename| + 1 + |Pad3(counter)|
  {
    var (base, ext) := SplitExt(filename);
    SplitExtJoin(filename);
    assert filename[..|base|] == base && filename[|base|..] == ext;
  }

  /** Without an extension the counter goes at the end, and the new name has
      no extension either. */
  lemma AppendCounterNoExt(filename: string, tail: string)
    requires SplitExt(filename).1 == []
    requires '/' !in tail && '.' !in tail
    ensures SplitExt(filename + tail) == (filename + tail, "")
  {
    var r := filename + tail;
    var sep := LastIndexOf(filename, '/');
    var dot := LastIndexOf(filename, '.');
    LastIndexOfAppend(filename, tail, '/');
    LastIndexOfAppend(filename, tail, '.');
    if dot > sep {
      assert r[sep + 1..dot] == filename[sep + 1..dot];
    }
    assert r + "" == r;
  }

  /** The same split stated on a whole extension. */
  lemma SplitExtAtExt(base: string, e: string)
    requires e != [] && e[0] == '.' && '.' !in e[1..] && '/' !in e
    requires HasNonDot(base[LastIndexOf(base, '/') + 1..])
    ensures SplitExt(base + e) == (base, e)
  {
    assert '/' !in e[1..] by {
      assert forall k :: 0 <= k < |e[1..]| ==> e[1..][k] == e[k + 1];
    }
    SplitExtAtDot(base, e[1..]);
    ConcatAssoc(base, ['.'], e[1..]);
    assert ['.'] + e[1..] == e;
  }

  /** With an extension the counter goes in front of it, which stays the
      extension of the new name. */
  lemma AppendCounterWithExt(filename: string, d: string)
    requires SplitExt(filename).1 != []
    requires '/' !in d && '.' !in d
    ensures var (b, e) := SplitExt(filename);
      SplitExt(b + "_" + d + e) == (b + "_" + d, e)
  {
    var (b, e) := SplitExt(filename);
    SplitExtShape(filename);
    CounterSegmentNotDots(b, d);
    SplitExtAtExt(b + "_" + d, e);
  }

  /** After the counter is appended, the last path segment holds a `_`, so
      it is not all dots. */
  lemma CounterSegmentNotDots(b: string, d: string)
    requires '/' !in d
    ensures var nb := b + "_" + d; HasNonDot(nb[LastIndexOf(nb, '/') + 1..])
  {
    var nb := b + "_" + d;
    ConcatAssoc(b, "_", d);
    LastIndexOfAppend(b, "_" + d, '/');
    var sep := LastIndexOf(nb, '/');
    assert nb[sep + 1..][|b| - sep - 1] == '_';
  }

  /** The counter lands in front of the extension, and the extension survives:
      splitting the new name gives the old base with the counter appended and
      the old extension, whether or not there was one. */
  lemma AppendCounterSplitExt(filename: string, counter: int)
    ensures SplitExt(AppendCounter(filename, counter))
         == (SplitExt(filename).0 + "_" + Pad3(counter), SplitExt(filename).1)
  {
    var (b, e) := SplitExt(filename);
    var d := Pad3(counter);
    Pad3Plain(counter);
    assert AppendCounter(filename, counter) == b + "_" + d + e;
    if e == [] {
      assert b == filename;
      AppendCounterNoExt(filename, "_" + d);
      ConcatAssoc(filename, "_", d);
      assert b + "_" + d + e == filename + ("_" + d);
    } else {
      AppendCounterWithExt(filename, d);
    }
  }

  /** The counter field can be read back from the new name alone: two names
      produced with different counters always differ. */
  lemma AppendCounterInjective(f1: string, c1: int, f2: string, c2: int)
    requires AppendCounter(f1, c1) == AppendCounter(f2, c2)
    ensures c1 == c2
  {
    AppendCounterSplitExt(f1, c1);
    AppendCounterSplitExt(f2, c2);
    var b1, d1 := SplitExt(f1).0, Pad3(c1);
    var b2, d2 := SplitExt(f2).0, Pad3(c2);
    Pad3Plain(c1);
    Pad3Plain(c2);
    assert b1 + "_" + d1 == b2 + "_" + d2;
    CounterFieldAt(b1, d1);
    CounterFieldAt(b2, d2);
    Pad3RoundTrip(c1);
    Pad3RoundTrip(c2);
  }

  /** The text after the last `_` of `b + "_" + d`, when `d` holds none. */
  lemma CounterFieldAt(b: string, d: string)
    requires '_' !in d
    ensures var s := b + "_" + d; s[LastIndexOf(s, '_') + 1..] == d
  {
    LastIndexOfSplit(b, '_', d);
    assert (b + ['_'] + d)[|b| + 1..] == d;
    assert b + "_" + d == b + ['_'] + d;
  }

  lemma Pad3Seven()
    ensures Pad3(7) == "007"
  {
    assert Digits(7) == "7";
    assert Repeat('0', 2) == "00";
  }

  lemma AppendCounterExample()
    ensures AppendCounter("foo.png", 7) == "foo_007.png"
  {
    SplitExtPng();
    Pad3Seven();
    assert AppendCounter("foo.png", 7) == "foo" + "_" + "007" + ".png";
  }

  /** The name download_image saves under: the last segment of the URL's path,
      with the pool counter put in when there is one. */
  function DownloadFilename(url: string, counter: Option<int>): string {
    var base := Basename(UrlPath(url));
    match counter
    case None => base
    case Some(c) => AppendCounter(base, c)
  }

  /** The saved name never holds a `/` or a `?`: it stays inside the session
      folder and carries no query string. */
  lemma DownloadFilenameSafe(url: string, counter: Option<int>)
    ensures var name := DownloadFilename(url, counter); '/' !in name && '?' !in name
  {
    var base := Basename(UrlPath(url));
    UrlPathPrefix(url);
    BasenameSuffix(UrlPath(url));
    assert '?' !in base;
    if counter.Some? {
      var c := counter.value;
      Pad3Plain(c);
      SplitExtJoin(base);
      var (b, e) := SplitExt(base);
      assert b + e == base;
      assert '?' !in b && '/' !in b && '?' !in e && '/' !in e;
      assert AppendCounter(base, c) == b + "_" + Pad3(c) + e;
    }
  }

  /** In pool mode the saved name is the URL's name with the counter in front
      of its extension; it is never empty and never `.` or `..`. */
  lemma DownloadFilenamePool(url: string, c: int)
    ensures var base := Basename(UrlPath(url));
      SplitExt(DownloadFilename(url, Some(c))) == (SplitExt(base).0 + "_" + Pad3(c), SplitExt(base).1)
    ensures var name := DownloadFilename(url, Some(c)); name != "" && name != "." && name != ".."
  {
    var base := Basename(UrlPath(url));
    AppendCounterSplitExt(base, c);
    Pad3Plain(c);
    var name := DownloadFilename(url, Some(c));
    assert name[|SplitExt(base).0|] == '_';
  }

  /** The query string is cut off at the first `?`. */
  lemma UrlPathAt(path: string, query: string)
    requires '?' !in path
    ensures UrlPath(path + ['?'] + query) == path
  {
    IndexOfSplit(path, '?', query);
    assert (path + ['?'] + query)[..|path|] == path;
  }

  /** A URL without a query string is its own path. */
  lemma UrlPathNoQuery(url: string)
    requires '?' !in url
    ensures UrlPath(url) == url
  {
  }

  /** A pool-mode name determines its counter, whatever the URLs. */
  lemma DownloadFilenamePoolInjective(u1: string, c1: int, u2: string, c2: int)
    requires DownloadFilename(u1, Some(c1)) == DownloadFilename(u2, Some(c2))
    ensures c1 == c2
  {
    AppendCounterInjective(Basename(UrlPath(u1)), c1, Basename(UrlPath(u2)), c2);
  }

  /** Pool-mode names made with different counters differ. */
  lemma DownloadFilenamePoolDistinct(u1: string, c1: int, u2: string, c2: int)
    requires c1 != c2
    ensures DownloadFilename(u1, Some(c1)) != DownloadFilename(u2, Some(c2))
  {
    if DownloadFilename(u1, Some(c1)) == DownloadFilename(u2, Some(c2)) {
      DownloadFilenamePoolInjective(u1, c1, u2, c2);
    }
  }

  /** The base name is what follows the last `/`. */
  lemma BasenameAt(dir: string, name: string)
    requires '/' !in name
    ensures Basename(dir + ['/'] + name) == name
  {
    BasenameRfind(dir + ['/'] + name);
    LastIndexOfSplit(dir, '/', name);
    assert (dir + ['/'] + name)[|dir| + 1..] == name;
  }

  /** The last path segment of a typical post URL. */
  lemma FileNameOfExampleUrl()
    ensures Basename(UrlPath("https://x.net/a/foo.png?v=2")) == "foo.png"
  {
    var path := "https://x.net/a/foo.png";
    UrlPathAt(path, "v=2");
    assert path + ['?'] + "v=2" == "https://x.net/a/foo.png?v=2";
    BasenameAt("https://x.net/a", "foo.png");
    assert "https://x.net/a" + ['/'] + "foo.png" == path;
  }

  lemma DownloadFilenameExample()
    ensures DownloadFilename("https://x.net/a/foo.png?v=2", None) == "foo.png"
  {
    FileNameOfExampleUrl();
  }

  lemma DownloadFilenamePoolExample()
    ensures DownloadFilename("https://x.net/a/foo.png?v=2", Some(7)) == "foo_007.png"
  {
    FileNameOfExampleUrl();
    AppendCounterExample();
  }
}

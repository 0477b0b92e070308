/**
 * File names, download URLs and local paths of `construct_download_url` and
 * `download_data`: `{type}_{YYYY}-{MM}.parquet`, with Python's zero-padded
 * integer formatting, appended to a base URL and placed under a per-type
 * directory.
 */
module Naming {

  predicate IsDigit(c: char) {
    '0' <= c <= '9'
  }

  predicate AllDigits(s: string) {
    forall i :: 0 <= i < |s| ==> IsDigit(s[i])
  }

  function DigitValue(c: char): int {
    c as int - '0' as int
  }

  function DigitChar(d: int): (c: char)
    requires 0 <= d <= 9
    ensures IsDigit(c) && DigitValue(c) == d
  {
    ('0' as int + d) as char
  }

  function Pow10(k: nat): (p: nat)
    ensures p >= 1
  {
    if k == 0 then 1 else 10 * Pow10(k - 1)
  }

  /** Python's `str(n)` for `n >= 0`: decimal digits, most significant first. */
  function Digits(n: nat): (s: string)
    ensures 1 <= |s| && AllDigits(s)
    decreases n
  {
    if n < 10 then [DigitChar(n)] else Digits(n / 10) + [DigitChar(n % 10)]
  }

  function Zeros(k: nat): (s: string)
    ensures |s| == k && forall i :: 0 <= i < k ==> s[i] == '0'
  {
    seq(k, _ => '0')
  }

  /** Python's `f"{n:0{width}d}"` for `n >= 0`: the digits of `n`, left-padded with zeros. */
  function ZeroPad(n: nat, width: nat): (s: string)
    ensures AllDigits(s) && |s| >= width && |s| >= 1
  {
    var d := Digits(n);
    if |d| < width then Zeros(width - |d|) + d else d
  }

  /**
   * Python's `f"{n:0{width}d}"` for any integer: a negative number keeps its
   * sign in front and the zeros fill the rest of the width.
   */
  function FormatInt(n: int, width: nat): string {
    if n < 0 then "-" + ZeroPad(-n, if width > 0 then width - 1 else 0) else ZeroPad(n, width)
  }

  /** Reads a string of decimal digits back as a number; leading zeros are ignored. */
  function ParseDecimal(s: string): int {
    if s == [] then 0 else ParseDecimal(s[..|s| - 1]) * 10 + DigitValue(s[|s| - 1])
  }

  /** Reads back what `FormatInt` writes. */
  function ParseInt(s: string): int {
    if |s| > 0 && s[0] == '-' then -ParseDecimal(s[1..]) else ParseDecimal(s)
  }

  lemma {:induction false} ParseDigits(n: nat)
    ensures ParseDecimal(Digits(n)) == n
    decreases n
  {
    if n >= 10 {
      var d := Digits(n);
      assert d[..|d| - 1] == Digits(n / 10);
      ParseDigits(n / 10);
    }
  }

  lemma {:induction false} ParseLeadingZeros(k: nat, s: string)
    ensures ParseDecimal(Zeros(k) + s) == ParseDecimal(s)
    decreases |s|
  {
    if s == [] {
      ParseZeros(k);
      assert Zeros(k) + s == Zeros(k);
    } else {
      assert (Zeros(k) + s)[..|Zeros(k) + s| - 1] == Zeros(k) + s[..|s| - 1];
      ParseLeadingZeros(k, s[..|s| - 1]);
    }
  }

  lemma {:induction false} ParseZeros(k: nat)
    ensures ParseDecimal(Zeros(k)) == 0
  {
    if k > 0 {
      assert Zeros(k)[..k - 1] == Zeros(k - 1);
      ParseZeros(k - 1);
    }
  }

  /** Zero padding loses nothing: parsing the padded digits gives back `n`. */
  lemma {:induction false} ZeroPadRoundTrip(n: nat, width: nat)
    ensures ParseDecimal(ZeroPad(n, width)) == n
  {
    var d := Digits(n);
    if |d| < width {
      calc {
        ParseDecimal(ZeroPad(n, width));
        ParseDecimal(Zeros(width - |d|) + d);
        { ParseLeadingZeros(width - |d|, d); }
        ParseDecimal(d);
        { ParseDigits(n); }
        n;
      }
    } else {
      ParseDigits(n);
    }
  }

  /** `FormatInt` is inverted by `ParseInt`, for every integer and width. */
  lemma FormatRoundTrip(n: int, width: nat)
    ensures ParseInt(FormatInt(n, width)) == n
  {
    if n < 0 {
      var w := if width > 0 then width - 1 else 0;
      ZeroPadRoundTrip(-n, w);
      assert ("-" + ZeroPad(-n, w))[1..] == ZeroPad(-n, w);
    } else {
      ZeroPadRoundTrip(n, width);
      assert IsDigit(ZeroPad(n, width)[0]);
    }
  }

  lemma {:induction false} DigitsFit(n: nat, k: nat)
    requires 1 <= k && n < Pow10(k)
    ensures |Digits(n)| <= k
    decreases n
  {
    if n >= 10 {
      assert k >= 2;
      DigitsFit(n / 10, k - 1);
    }
  }

  /** A number below `10^width` is padded to exactly `width` characters. */
  lemma ZeroPadWidth(n: nat, width: nat)
    requires 1 <= width && n < Pow10(width)
    ensures |ZeroPad(n, width)| == width
  {
    DigitsFit(n, width);
  }

  const Extension: string := ".parquet"

  /** The file name built at line 46 and again at line 102 of the downloader. */
  function FileName(dataType: string, year: int, month: int): string {
    dataType + "_" + FormatInt(year, 4) + "-" + FormatInt(month, 2) + Extension
  }

  /** Characters a data type may hold so that it is one plain path and URL segment. */
  predicate IsNameChar(c: char) {
    ('a' <= c <= 'z') || ('A' <= c <= 'Z') || IsDigit(c) || c == '_' || c == '-'
  }

  predicate IsPlainName(s: string) {
    |s| > 0 && forall i :: 0 <= i < |s| ==> IsNameChar(s[i])
  }

  /**
   * For a four-digit year and a two-digit month the file name has a fixed
   * layout, and the year and month can be read back from it: this is what
   * makes the name determine the month it holds.
   */
  lemma FileNameLayout(dataType: string, year: int, month: int)
    requires 0 <= year <= 9999 && 1 <= month <= 12
    ensures var f, t := FileName(dataType, year, month), |dataType|;
      && |f| == t + 16
      && f[..t] == dataType
      && f[t] == '_' && f[t + 5] == '-'
      && AllDigits(f[t + 1..t + 5]) && AllDigits(f[t + 6..t + 8])
      && ParseDecimal(f[t + 1..t + 5]) == year
      && ParseDecimal(f[t + 6..t + 8]) == month
      && f[t + 8..] == Extension
  {
    var y, m := ZeroPad(year, 4), ZeroPad(month, 2);
    ZeroPadWidth(year, 4);
    ZeroPadWidth(month, 2);
    ZeroPadRoundTrip(year, 4);
    ZeroPadRoundTrip(month, 2);
    var f, t := FileName(dataType, year, month), |dataType|;
    assert f == dataType + "_" + y + "-" + m + Extension;
    assert f[t + 1..t + 5] == y;
    assert f[t + 6..t + 8] == m;
  }

  /** Distinct (type, year, month) triples give distinct file names. */
  lemma FileNameInjective(t1: string, y1: int, m1: int, t2: string, y2: int, m2: int)
    requires 0 <= y1 <= 9999 && 1 <= m1 <= 12
    requires 0 <= y2 <= 9999 && 1 <= m2 <= 12
    requires FileName(t1, y1, m1) == FileName(t2, y2, m2)
    ensures t1 == t2 && y1 == y2 && m1 == m2
  {
    FileNameLayout(t1, y1, m1);
    FileNameLayout(t2, y2, m2);
  }

  /** Characters that would make `urljoin` read a reference as more than a last path segment. */
  predicate IsUrlDelimiter(c: char) {
    c == '/' || c == ':' || c == '?' || c == '#'
  }

  predicate NoUrlDelimiter(s: string) {
    forall i :: 0 <= i < |s| ==> !IsUrlDelimiter(s[i])
  }

  lemma NoUrlDelimiterConcat(a: string, b: string)
    requires NoUrlDelimiter(a) && NoUrlDelimiter(b)
    ensures NoUrlDelimiter(a + b)
  {
  }

  lemma PlainNoDelimiter(s: string)
    requires IsPlainName(s)
    ensures NoUrlDelimiter(s)
  {
    forall i | 0 <= i < |s| ensures !IsUrlDelimiter(s[i]) {
      assert IsNameChar(s[i]);
    }
  }

  lemma DigitsNoDelimiter(s: string)
    requires AllDigits(s)
    ensures NoUrlDelimiter(s)
  {
    forall i | 0 <= i < |s| ensures !IsUrlDelimiter(s[i]) {
      assert IsDigit(s[i]);
    }
  }

  lemma PartsNoDelimiter(t: string, y: string, m: string)
    requires NoUrlDelimiter(t) && NoUrlDelimiter(y) && NoUrlDelimiter(m)
    ensures NoUrlDelimiter(t + "_" + y + "-" + m + Extension)
  {
    NoUrlDelimiterConcat(t, "_");
    NoUrlDelimiterConcat(t + "_", y);
    NoUrlDelimiterConcat(t + "_" + y, "-");
    NoUrlDelimiterConcat(t + "_" + y + "-", m);
    NoUrlDelimiterConcat(t + "_" + y + "-" + m, Extension);
  }

  /**
   * A file name built from a plain data type and a non-negative year and
   * month contains no URL delimiter and does not start with a dot, so
   * `urljoin` treats it as a last path segment.
   */
  lemma FileNameIsSegment(dataType: string, year: int, month: int)
    requires IsPlainName(dataType) && 0 <= year && 0 <= month
    ensures var f := FileName(dataType, year, month);
      |f| > 0 && f[0] != '.' && NoUrlDelimiter(f)
  {
    var y, m := ZeroPad(year, 4), ZeroPad(month, 2);
    PlainNoDelimiter(dataType);
    DigitsNoDelimiter(y);
    DigitsNoDelimiter(m);
    assert FileName(dataType, year, month) == dataType + "_" + y + "-" + m + Extension;
    PartsNoDelimiter(dataType, y, m);
    assert IsNameChar(dataType[0]);
  }

  predicate EndsWithSlash(s: string) {
    |s| > 0 && s[|s| - 1] == '/'
  }

  /**
   * `construct_download_url`: the reference is a single segment (see
   * `FileNameIsSegment`), and `urljoin` appends such a segment to the
   * downloader's fixed base (`Planner.DefaultBaseUrl`). That base ends in `/`,
   * its path has no empty or dot segments, and it has no params, query or
   * fragment; for other bases `urljoin` may also rewrite the base itself.
   */
  function DownloadUrl(baseUrl: string, dataType: string, year: int, month: int): string
    requires EndsWithSlash(baseUrl) && IsPlainName(dataType)
  {
    baseUrl + FileName(dataType, year, month)
  }

  /** Distinct (type, year, month) triples give distinct URLs under one base. */
  lemma DownloadUrlInjective(base: string, t1: string, y1: int, m1: int, t2: string, y2: int, m2: int)
    requires EndsWithSlash(base) && IsPlainName(t1) && IsPlainName(t2)
    requires 0 <= y1 <= 9999 && 1 <= m1 <= 12
    requires 0 <= y2 <= 9999 && 1 <= m2 <= 12
    requires DownloadUrl(base, t1, y1, m1) == DownloadUrl(base, t2, y2, m2)
    ensures t1 == t2 && y1 == y2 && m1 == m2
  {
    var u1, u2 := DownloadUrl(base, t1, y1, m1), DownloadUrl(base, t2, y2, m2);
    assert u1[|base|..] == FileName(t1, y1, m1);
    assert u2[|base|..] == FileName(t2, y2, m2);
    FileNameInjective(t1, y1, m1, t2, y2, m2);
  }

  /** POSIX `os.path.join(a, b)`. */
  function JoinPath(a: string, b: string): string {
    if |b| > 0 && b[0] == '/' then b
    else if a == [] || a[|a| - 1] == '/' then a + b
    else a + "/" + b
  }

  /** `download_dir` as `os.path.join` continues it: with a separator at its end unless empty. */
  function DirPrefix(dir: string): string {
    if dir == [] || dir[|dir| - 1] == '/' then dir else dir + "/"
  }

  /** The local path of lines 97-103: the type's directory under `dir`, then the file name. */
  function LocalPath(dir: string, dataType: string, year: int, month: int): string {
    JoinPath(JoinPath(dir, dataType), FileName(dataType, year, month))
  }

  /** Each data type has its own subdirectory of `dir`, holding the file name. */
  lemma LocalPathLayout(dir: string, dataType: string, year: int, month: int)
    requires IsPlainName(dataType)
    ensures LocalPath(dir, dataType, year, month)
         == DirPrefix(dir) + (dataType + "/" + FileName(dataType, year, month))
  {
    assert dataType[0] != '/' && dataType[|dataType| - 1] != '/' by {
      assert IsNameChar(dataType[0]) && IsNameChar(dataType[|dataType| - 1]);
    }
    var d := JoinPath(dir, dataType);
    assert d == DirPrefix(dir) + dataType;
    assert d[|d| - 1] == dataType[|dataType| - 1];
    var f := FileName(dataType, year, month);
    assert f[0] == dataType[0];
    assert d + "/" + f == DirPrefix(dir) + (dataType + "/" + f);
  }

  lemma FileNameLength(dataType: string, year: int, month: int)
    requires 0 <= year <= 9999 && 1 <= month <= 12
    ensures |FileName(dataType, year, month)| == |dataType| + 16
  {
    FileNameLayout(dataType, year, month);
  }

  lemma ConcatCancel(d: string, a: string, b: string)
    requires d + a == d + b
    ensures a == b
  {
    assert a == (d + a)[|d|..];
    assert b == (d + b)[|d|..];
  }

  /** `t + "/" + f` splits back into its parts when `f` is a fixed length longer than `t`. */
  lemma SplitAtSlash(t1: string, f1: string, t2: string, f2: string)
    requires |f1| == |t1| + 16 && |f2| == |t2| + 16
    requires t1 + "/" + f1 == t2 + "/" + f2
    ensures t1 == t2 && f1 == f2
  {
    var r := t1 + "/" + f1;
    assert |t1| == |t2|;
    assert r[..|t1|] == t1 && (t2 + "/" + f2)[..|t2|] == t2;
    assert r[|t1| + 1..] == f1 && (t2 + "/" + f2)[|t2| + 1..] == f2;
  }

  /**
   * Distinct (type, year, month) triples, for years 0..9999 and months 1..12,
   * give distinct local paths under one download directory.
   */
  lemma LocalPathInjective(dir: string, t1: string, y1: int, m1: int, t2: string, y2: int, m2: int)
    requires IsPlainName(t1) && IsPlainName(t2)
    requires 0 <= y1 <= 9999 && 1 <= m1 <= 12
    requires 0 <= y2 <= 9999 && 1 <= m2 <= 12
    ensures LocalPath(dir, t1, y1, m1) == LocalPath(dir, t2, y2, m2) ==> t1 == t2 && y1 == y2 && m1 == m2
  {
    if LocalPath(dir, t1, y1, m1) == LocalPath(dir, t2, y2, m2) {
      LocalPathsEqual(dir, t1, y1, m1, t2, y2, m2);
    }
  }

  lemma LocalPathsEqual(dir: string, t1: string, y1: int, m1: int, t2: string, y2: int, m2: int)
    requires IsPlainName(t1) && IsPlainName(t2)
    requires 0 <= y1 <= 9999 && 1 <= m1 <= 12
    requires 0 <= y2 <= 9999 && 1 <= m2 <= 12
    requires LocalPath(dir, t1, y1, m1) == LocalPath(dir, t2, y2, m2)
    ensures t1 == t2 && y1 == y2 && m1 == m2
  {
    var d, f1, f2 := DirPrefix(dir), FileName(t1, y1, m1), FileName(t2, y2, m2);
    var r1, r2 := t1 + "/" + f1, t2 + "/" + f2;
    LocalPathLayout(dir, t1, y1, m1);
    LocalPathLayout(dir, t2, y2, m2);
    ConcatCancel(d, r1, r2);
    FileNameLength(t1, y1, m1);
    FileNameLength(t2, y2, m2);
    SplitAtSlash(t1, f1, t2, f2);
    FileNameInjective(t1, y1, m1, t2, y2, m2);
  }
}

/**
 * convert_sqlite_version: `re.match(r'(\d+)\.(\d+)\.(\d+)', version)` followed
 * by `'{:d}{:02d}{:02d}00'.format(int(g1), int(g2), int(g3))`.
 *
 * `re.match` is anchored at the start and need not reach the end. Each `\d+`
 * is greedy, and backtracking it never helps (a shorter run is followed by a
 * digit, not by '.'), so the three groups are maximal digit runs. When the
 * pattern does not match, `matches` is None and the subscript raises; that is
 * the None result here.
 */
module SqliteVersion {
  import opened Wrappers
  import opened Decimal

  datatype Groups = Groups(major: string, minor: string, patch: string)

  /** Length of the longest prefix of s made of ASCII digits. */
  function DigitRun(s: string): (n: nat)
    ensures n <= |s| && AllDigits(s[..n])
    ensures n == |s| || !IsDigit(s[n])
    decreases |s|
  {
    if s == [] || !IsDigit(s[0]) then 0 else 1 + DigitRun(s[1..])
  }

  predicate ValidGroup(g: string) { |g| > 0 && AllDigits(g) }

  /** The text the three groups and the two dots cover. */
  function Span(g: Groups): string
  {
    g.major + "." + g.minor + "." + g.patch
  }

  function Match(s: string): (r: Option<Groups>)
    ensures r.Some? ==> ValidGroup(r.value.major) && ValidGroup(r.value.minor) && ValidGroup(r.value.patch)
    ensures r.Some? ==> Span(r.value) <= s
    ensures r.Some? ==> |Span(r.value)| == |s| || !IsDigit(s[|Span(r.value)|])
  {
    var a := DigitRun(s);
    if a == 0 || a == |s| || s[a] != '.' then None
    else
      var t := s[a + 1..];
      var b := DigitRun(t);
      if b == 0 || b == |t| || t[b] != '.' then None
      else
        var u := t[b + 1..];
        var c := DigitRun(u);
        if c == 0 then None
        else
          var g := Groups(s[..a], t[..b], u[..c]);
          SpanOfSlices(s, a, b, c);
          Some(g)
  }

  lemma SpanOfSlices(s: string, a: nat, b: nat, c: nat)
    requires a < |s| && s[a] == '.' && b < |s[a + 1..]| && s[a + 1..][b] == '.' && c <= |s[a + 1..][b + 1..]|
    ensures s[..a] + "." + s[a + 1..][..b] + "." + s[a + 1..][b + 1..][..c] == s[..a + 1 + b + 1 + c]
  {
  }

  /** `'{:d}{:02d}{:02d}00'.format(major, minor, patch)` */
  function Format(major: nat, minor: nat, patch: nat): string
  {
    ToDecimal(major) + ZeroPad(ToDecimal(minor), 2) + ZeroPad(ToDecimal(patch), 2) + "00"
  }

  /** None exactly when the pattern does not match. */
  function ConvertSqliteVersion(version: string): (r: Option<string>)
    ensures r.None? <==> Match(version).None?
  {
    match Match(version)
    case None => None
    case Some(g) => Some(Format(Value(g.major), Value(g.minor), Value(g.patch)))
  }

  lemma DigitRunIs(s: string, x: string)
    requires AllDigits(x) && x <= s
    requires |x| == |s| || !IsDigit(s[|x|])
    ensures DigitRun(s) == |x|
  {
  }

  lemma DigitRunCovers(s: string, x: string)
    requires AllDigits(x) && x <= s
    ensures DigitRun(s) >= |x|
  {
  }

  /** A non-empty digit group followed by '.' is exactly where the first digit run stops. */
  lemma GroupThenDot(s: string, x: string, rest: string)
    requires ValidGroup(x) && s == x + "." + rest
    ensures DigitRun(s) == |x| && s[|x|] == '.'
    ensures s[..|x|] == x && s[|x| + 1..] == rest
  {
    DigitRunIs(s, x);
  }

  /**
   * Completeness of the match: whenever the input begins with three non-empty
   * digit groups separated by dots, the match succeeds with those first two
   * groups, and the third group extends c (it takes every digit that follows).
   * With the ensures clauses of Match, the converter fails exactly on inputs
   * that do not begin with `digits.digits.digits`.
   */
  lemma MatchComplete(s: string, a: string, b: string, c: string)
    requires ValidGroup(a) && ValidGroup(b) && ValidGroup(c)
    requires a + "." + b + "." + c <= s
    ensures Match(s).Some?
    ensures Match(s).value.major == a && Match(s).value.minor == b
    ensures c <= Match(s).value.patch
  {
    var k := |a| + |b| + 2;
    var u := s[k..];
    var t := b + "." + u;
    assert s == a + "." + t by {
      assert s[..k] == (a + "." + b + "." + c)[..k] == a + "." + b + ".";
      assert s == s[..k] + u;
    }
    GroupThenDot(s, a, t);
    GroupThenDot(t, b, u);
    assert c <= u by {
      assert u[..|c|] == (a + "." + b + "." + c)[k..];
    }
    DigitRunCovers(u, c);
  }

  /**
   * The converter reads three maximal digit runs and ignores what follows:
   * the result is determined by int() of each group.
   */
  lemma ConvertSqliteReadsPrefix(a: string, b: string, c: string, rest: string)
    requires ValidGroup(a) && ValidGroup(b) && ValidGroup(c)
    requires rest == [] || !IsDigit(rest[0])
    ensures Match(a + "." + b + "." + c + rest) == Some(Groups(a, b, c))
    ensures ConvertSqliteVersion(a + "." + b + "." + c + rest) == Some(Format(Value(a), Value(b), Value(c)))
  {
    var s := a + "." + b + "." + c + rest;
    var u := c + rest;
    var t := b + "." + u;
    assert s == a + "." + t;
    GroupThenDot(s, a, t);
    GroupThenDot(t, b, u);
    DigitRunIs(u, c);
    assert u[..|c|] == c;
  }

  /** The output is a string of digits. */
  lemma FormatIsDigits(major: nat, minor: nat, patch: nat)
    ensures AllDigits(Format(major, minor, patch))
  {
    ZeroPadKeepsValue(ToDecimal(minor), 2);
    ZeroPadKeepsValue(ToDecimal(patch), 2);
  }

  /**
   * Minor and patch are padded to at least two digits and never cut, so a
   * component of three digits or more is kept whole.
   */
  lemma FormatNeverTruncates(major: nat, minor: nat, patch: nat)
    ensures ToDecimal(major) <= Format(major, minor, patch)
    ensures |Format(major, minor, patch)| ==
            |ToDecimal(major)| + (if minor < 10 then 2 else |ToDecimal(minor)|)
                               + (if patch < 10 then 2 else |ToDecimal(patch)|) + 2
  {
    var m := ToDecimal(major);
    var rest := ZeroPad(ToDecimal(minor), 2) + ZeroPad(ToDecimal(patch), 2) + "00";
    assert Format(major, minor, patch) == m + rest;
    PaddedLength(minor);
    PaddedLength(patch);
  }

  /** `{:02d}` gives two characters below 10 and the plain decimal form from 10 on. */
  lemma PaddedLength(n: nat)
    ensures |ZeroPad(ToDecimal(n), 2)| == if n < 10 then 2 else |ToDecimal(n)|
  {
    if n >= 10 {
      assert |ToDecimal(n)| == |ToDecimal(n / 10)| + 1;
    }
  }

  /** `{:02d}` of a number below 100 is exactly two digits that denote it. */
  lemma PaddedTwoDigits(n: nat)
    requires n < 100
    ensures AllDigits(ZeroPad(ToDecimal(n), 2))
    ensures |ZeroPad(ToDecimal(n), 2)| == 2
    ensures Value(ZeroPad(ToDecimal(n), 2)) == n
  {
    assert |ToDecimal(n)| <= 2;
    ZeroPadKeepsValue(ToDecimal(n), 2);
    ValueOfToDecimal(n);
  }

  lemma ValueOfFields(m: string, n: string, p: string)
    requires AllDigits(m) && AllDigits(n) && AllDigits(p) && |n| == 2 && |p| == 2
    ensures AllDigits(m + n + p + "00")
    ensures Value(m + n + p + "00") == Value(m) * 1000000 + Value(n) * 10000 + Value(p) * 100
  {
    ValueAppend(m, n);
    ValueAppend(m + n, p);
    ValueAppend(m + n + p, "00");
    assert Value("00") == 0;
    assert Pow10(2) == 100;
    ShiftDigits(Value(m), Value(n), Value(p));
  }

  /** Kept apart so that the nonlinear step is proved without the context of ValueOfFields. */
  lemma ShiftDigits(major: int, minor: int, patch: int)
    ensures ((major * 100 + minor) * 100 + patch) * 100 == major * 1000000 + minor * 10000 + patch * 100
  {
  }

  /**
   * For minor and patch below 100 the output has |str(major)| + 6 digits and
   * denotes major * 10^6 + minor * 10^4 + patch * 100.
   */
  lemma FormatValue(major: nat, minor: nat, patch: nat)
    requires minor < 100 && patch < 100
    ensures AllDigits(Format(major, minor, patch))
    ensures |Format(major, minor, patch)| == |ToDecimal(major)| + 6
    ensures Value(Format(major, minor, patch)) == major * 1000000 + minor * 10000 + patch * 100
  {
    PaddedTwoDigits(minor);
    PaddedTwoDigits(patch);
    ValueOfToDecimal(major);
    ValueOfFields(ToDecimal(major), ZeroPad(ToDecimal(minor), 2), ZeroPad(ToDecimal(patch), 2));
  }

  /*
   * Worked examples. Each conversion is proved through ConvertsTo, which
   * names the input's groups.
   */

  lemma FormatDocExample()
    ensures Format(3, 24, 0) == "3240000"
  {
    assert ToDecimal(3) == "3" && ToDecimal(24) == "24" && ToDecimal(0) == "0";
    assert ZeroPad("24", 2) == "24" && ZeroPad("0", 2) == "00";
  }

  lemma FormatPaddingExample()
    ensures Format(3, 8, 5) == "3080500"
  {
    assert ToDecimal(3) == "3" && ToDecimal(8) == "8" && ToDecimal(5) == "5";
    assert ZeroPad("8", 2) == "08" && ZeroPad("5", 2) == "05";
  }

  lemma ValueIgnoresLeadingZeros()
    ensures Value("03") == 3 && Value("024") == 24 && Value("00") == 0
  {
    assert "03"[..1] == "0";
    assert "024"[..2] == "02" && "02"[..1] == "0";
    assert "00"[..1] == "0";
  }

  /** A conversion with its input given by its groups and tail and its result by the groups' values. */
  lemma ConvertsTo(s: string, a: string, b: string, c: string, rest: string, out: string)
    requires ValidGroup(a) && ValidGroup(b) && ValidGroup(c)
    requires rest == [] || !IsDigit(rest[0])
    requires s == a + "." + b + "." + c + rest
    requires Format(Value(a), Value(b), Value(c)) == out
    ensures ConvertSqliteVersion(s) == Some(out)
  {
    ConvertSqliteReadsPrefix(a, b, c, rest);
  }

  /** The example in the converter's documentation. */
  lemma ConvertSqliteDocExample()
    ensures ConvertSqliteVersion("3.24.0") == Some("3240000")
  {
    assert Value("3") == 3 && Value("24") == 24 && Value("0") == 0;
    FormatDocExample();
    ConvertsTo("3.24.0", "3", "24", "0", "", "3240000");
  }

  /** Whatever follows the third group is ignored: "3.24.0.1" gives what "3.24.0" gives. */
  lemma ConvertSqliteIgnoresTail()
    ensures ConvertSqliteVersion("3.24.0.1") == Some("3240000")
  {
    assert Value("3") == 3 && Value("24") == 24 && Value("0") == 0;
    FormatDocExample();
    ConvertsTo("3.24.0.1", "3", "24", "0", ".1", "3240000");
  }

  /** int() drops leading zeros: "03.024.00" gives what "3.24.0" gives. */
  lemma ConvertSqliteDropsLeadingZeros()
    ensures ConvertSqliteVersion("03.024.00") == Some("3240000")
  {
    ValueIgnoresLeadingZeros();
    FormatDocExample();
    ConvertsTo("03.024.00", "03", "024", "00", "", "3240000");
  }

  /** A one-digit minor or patch is padded: "3.8.5" gives "3080500". */
  lemma ConvertSqliteSmallMinor()
    ensures ConvertSqliteVersion("3.8.5") == Some("3080500")
  {
    assert Value("3") == 3 && Value("8") == 8 && Value("5") == 5;
    FormatPaddingExample();
    ConvertsTo("3.8.5", "3", "8", "5", "", "3080500");
  }

  /** A minor version of three digits is kept whole. */
  lemma FormatWideMinorExample()
    ensures Format(3, 100, 2) == "31000200"
  {
    assert ToDecimal(100) == "100" by {
      assert ToDecimal(10) == "10";
    }
    assert ZeroPad("100", 2) == "100" && ZeroPad("2", 2) == "02";
  }

  lemma ConvertSqliteFailures()
    ensures ConvertSqliteVersion("abc").None?
    ensures ConvertSqliteVersion("3.24").None?
    ensures ConvertSqliteVersion(".3.24.0").None?
  {
  }
}

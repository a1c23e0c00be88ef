/**
 * Decimal digit strings: what Python's int() reads from an ASCII digit string,
 * what str() writes for a non-negative integer, and the zero padding of the
 * format specification `{:02d}`.
 */
module Decimal {
  predicate IsDigit(c: char) { '0' <= c <= '9' }

  predicate AllDigits(s: string) { forall i :: 0 <= i < |s| ==> IsDigit(s[i]) }

  function DigitValue(c: char): nat
    requires IsDigit(c)
  {
    c as int - '0' as int
  }

  function DigitChar(d: nat): (c: char)
    requires d < 10
    ensures IsDigit(c) && DigitValue(c) == d
  {
    ('0' as int + d) as char
  }

  function Pow10(n: nat): (r: nat)
    ensures r >= 1
  {
    if n == 0 then 1 else 10 * Pow10(n - 1)
  }

  /** int(s) for a string of ASCII digits (leading zeros allowed). */
  function Value(s: string): (r: nat)
    requires AllDigits(s)
    ensures r < Pow10(|s|)
  {
    if s == [] then 0 else 10 * Value(s[..|s| - 1]) + DigitValue(s[|s| - 1])
  }

  /** str(n): the decimal numeral of n, without leading zeros. */
  function ToDecimal(n: nat): (r: string)
    ensures |r| >= 1 && AllDigits(r)
  {
    if n < 10 then [DigitChar(n)] else ToDecimal(n / 10) + [DigitChar(n % 10)]
  }

  function Zeros(k: nat): (r: string)
    ensures |r| == k && AllDigits(r)
  {
    if k == 0 then [] else "0" + Zeros(k - 1)
  }

  /** Left-pad a numeral with '0' up to a minimum width, never cutting it. */
  function ZeroPad(s: string, width: nat): string
  {
    if |s| >= width then s else Zeros(width - |s|) + s
  }

  lemma {:induction false} ValueOfToDecimal(n: nat)
    ensures Value(ToDecimal(n)) == n
    decreases n
  {
    if n >= 10 {
      var p := ToDecimal(n / 10);
      var s := p + [DigitChar(n % 10)];
      assert s[..|s| - 1] == p;
      ValueOfToDecimal(n / 10);
    }
  }

  lemma {:induction false} ToDecimalHasNoLeadingZero(n: nat)
    ensures |ToDecimal(n)| == 1 || ToDecimal(n)[0] != '0'
    ensures ToDecimal(n)[0] == '0' ==> n == 0
    decreases n
  {
    if n >= 10 {
      ToDecimalHasNoLeadingZero(n / 10);
      assert ToDecimal(n)[0] == ToDecimal(n / 10)[0];
    }
  }

  lemma {:induction false} ToDecimalLength(n: nat)
    ensures n < Pow10(|ToDecimal(n)|)
    ensures n >= 10 ==> Pow10(|ToDecimal(n)| - 1) <= n
    decreases n
  {
    if n >= 10 {
      ToDecimalLength(n / 10);
    }
  }

  lemma ValueSnoc(s: string, c: char)
    requires AllDigits(s) && IsDigit(c)
    ensures AllDigits(s + [c])
    ensures Value(s + [c]) == 10 * Value(s) + DigitValue(c)
  {
    assert (s + [c])[..|s|] == s;
  }

  /** Kept apart so that the nonlinear step is proved without the context of ValueAppend. */
  lemma MulTen(x: int, y: int)
    ensures 10 * (x * y) == x * (10 * y)
  {
  }

  lemma {:induction false} ValueAppend(a: string, b: string)
    requires AllDigits(a) && AllDigits(b)
    ensures AllDigits(a + b)
    ensures Value(a + b) == Value(a) * Pow10(|b|) + Value(b)
    decreases |b|
  {
    if b == [] {
      assert a + b == a;
    } else {
      var b', c := b[..|b| - 1], b[|b| - 1];
      assert b == b' + [c];
      assert a + b == (a + b') + [c];
      ValueAppend(a, b');
      ValueSnoc(a + b', c);
      ValueSnoc(b', c);
      var va, vb, d, q := Value(a), Value(b'), DigitValue(c), Pow10(|b'|);
      assert Pow10(|b|) == 10 * q;
      MulTen(va, q);
    }
  }

  lemma {:induction false} ValueOfZeros(k: nat)
    ensures Value(Zeros(k)) == 0
    decreases k
  {
    if k > 0 {
      ValueAppend("0", Zeros(k - 1));
      ValueOfZeros(k - 1);
    }
  }

  /** Padding keeps the number, keeps the numeral as a suffix, and never truncates. */
  lemma ZeroPadKeepsValue(s: string, width: nat)
    requires AllDigits(s)
    ensures AllDigits(ZeroPad(s, width))
    ensures |ZeroPad(s, width)| == if |s| >= width then |s| else width
    ensures Value(ZeroPad(s, width)) == Value(s)
    ensures ZeroPad(s, width)[|ZeroPad(s, width)| - |s|..] == s
  {
    if |s| < width {
      ValueAppend(Zeros(width - |s|), s);
      ValueOfZeros(width - |s|);
    }
  }
}

/** Decimal digit strings: what Python's int() reads and what '{:0Nd}' writes. */
module Decimal {

  predicate IsDigit(c: char) {
    '0' <= c <= '9'
  }

  predicate AllDigits(s: string) {
    forall i :: 0 <= i < |s| ==> IsDigit(s[i])
  }

  function DigitValue(c: char): int {
    c as int - '0' as int
  }

  function DigitChar(d: int): (c: char)
    requires 0 <= d < 10
    ensures IsDigit(c) && DigitValue(c) == d
  {
    (d + '0' as int) as char
  }

  /** The number a string of decimal digits denotes, most significant digit first. */
  function Value(s: string): int {
    if s == [] then 0 else 10 * Value(s[..|s| - 1]) + DigitValue(s[|s| - 1])
  }

  /** The shortest decimal rendering of `n`. */
  function Digits(n: nat): (s: string)
    ensures 1 <= |s| && AllDigits(s) && Value(s) == n
    ensures n < 10 ==> |s| == 1
    ensures n < 100 ==> |s| <= 2
    ensures n < 1000 ==> |s| <= 3
  {
    if n < 10 then
      [DigitChar(n)]
    else
      var prefix := Digits(n / 10);
      var s := prefix + [DigitChar(n % 10)];
      assert s[..|s| - 1] == prefix;
      s
  }

  function Zeros(k: nat): (s: string)
    ensures |s| == k && forall i :: 0 <= i < k ==> s[i] == '0'
  {
    seq(k, _ => '0')
  }

  function LeftPad(s: string, width: nat): string {
    if |s| < width then Zeros(width - |s|) + s else s
  }

  /** Python's format(x, '0Nd') for N = width: a sign for negatives, then digits
      padded with zeros so that sign and digits together fill `width`. */
  function Padded(x: int, width: nat): string {
    if x < 0 then "-" + LeftPad(Digits(-x), if width == 0 then 0 else width - 1)
    else LeftPad(Digits(x), width)
  }

  /** Leading zeros do not change the value of a digit string. */
  lemma {:induction false} ZerosPrefixValue(k: nat, s: string)
    ensures Value(Zeros(k) + s) == Value(s)
    decreases |s|, k
  {
    if s == [] {
      assert Zeros(k) + s == Zeros(k);
      if k > 0 {
        assert Zeros(k)[..k - 1] == Zeros(k - 1);
        ZerosPrefixValue(k - 1, []);
        assert Zeros(k - 1) + [] == Zeros(k - 1);
      }
    } else {
      var t := Zeros(k) + s;
      assert t[..|t| - 1] == Zeros(k) + s[..|s| - 1];
      ZerosPrefixValue(k, s[..|s| - 1]);
    }
  }

  /** A non-negative number below 10^width (width 2 or 3) renders in exactly
      `width` digits that read back as the number. */
  lemma PaddedReadsBack(x: int, width: nat)
    requires width == 2 || width == 3
    requires 0 <= x && (if width == 2 then x < 100 else x < 1000)
    ensures |Padded(x, width)| == width && AllDigits(Padded(x, width))
    ensures Value(Padded(x, width)) == x
  {
    var d := Digits(x);
    if |d| < width {
      ZerosPrefixValue(width - |d|, d);
    }
  }

  /** Two digits read back as ten times the first plus the second. */
  lemma TwoDigitValue(s: string)
    requires |s| == 2
    ensures Value(s) == 10 * DigitValue(s[0]) + DigitValue(s[1])
  {
    assert s[..1] == [s[0]];
    assert Value(s[..1]) == 10 * Value([]) + DigitValue(s[0]);
  }
}

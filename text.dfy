/**
 * Decimal text of integers: the rendering used by PHP's int-to-string conversion,
 * by SQL Server's CAST(... AS VARCHAR) and by fixed-width date formats.
 */
module Text {

  predicate IsDigit(c: char)
  {
    '0' <= c <= '9'
  }

  predicate AllDigits(s: string)
  {
    forall i :: 0 <= i < |s| ==> IsDigit(s[i])
  }

  function DigitChar(d: int): (c: char)
    requires 0 <= d < 10
    ensures IsDigit(c) && c as int - '0' as int == d
  {
    ('0' as int + d) as char
  }

  function DigitValue(c: char): (d: int)
    requires IsDigit(c)
    ensures 0 <= d < 10 && DigitChar(d) == c
  {
    c as int - '0' as int
  }

  /** The number a string of decimal digits denotes (most significant digit first). */
  function DigitsValue(s: string): (n: nat)
    requires AllDigits(s)
    decreases |s|
  {
    if s == [] then 0 else DigitsValue(s[..|s| - 1]) * 10 + DigitValue(s[|s| - 1])
  }

  function Pow10(k: nat): (p: nat)
    ensures p >= 1
  {
    if k == 0 then 1 else 10 * Pow10(k - 1)
  }

  /** Shortest decimal text of a natural number: no leading zero unless the number is 0. */
  function NatText(n: nat): (s: string)
    ensures 1 <= |s| && AllDigits(s)
    ensures |s| > 1 ==> s[0] != '0'
    ensures n < 10 <==> |s| == 1
    ensures n < 100 ==> |s| <= 2
    decreases n
  {
    if n < 10 then [DigitChar(n)] else NatText(n / 10) + [DigitChar(n % 10)]
  }

  lemma {:induction false} NatTextValue(n: nat)
    ensures DigitsValue(NatText(n)) == n
    decreases n
  {
    if n >= 10 {
      NatTextValue(n / 10);
      var s := NatText(n);
      assert s[..|s| - 1] == NatText(n / 10);
    }
  }

  /** Decimal text of an integer, with a leading '-' for negative numbers. */
  function IntText(n: int): (s: string)
    ensures 1 <= |s|
    ensures n < 0 <==> s[0] == '-'
    ensures forall i :: 0 <= i < |s| ==> IsDigit(s[i]) || (i == 0 && s[i] == '-')
  {
    if n < 0 then "-" + NatText(-n) else NatText(n)
  }

  /** The `width` lowest decimal digits of `n`, padded on the left with zeros. */
  function ZeroPad(n: nat, width: nat): (s: string)
    ensures |s| == width && AllDigits(s)
    decreases width
  {
    if width == 0 then "" else ZeroPad(n / 10, width - 1) + [DigitChar(n % 10)]
  }

  /** A text of digits is the zero padding of its own value to its own length. */
  lemma {:induction false} DigitsZeroPad(s: string)
    requires AllDigits(s)
    ensures ZeroPad(DigitsValue(s), |s|) == s
    decreases |s|
  {
    if s != [] {
      var init := s[..|s| - 1];
      DigitsZeroPad(init);
      var n := DigitsValue(s);
      assert n / 10 == DigitsValue(init) && n % 10 == DigitValue(s[|s| - 1]);
      assert s == init + [s[|s| - 1]];
    }
  }

  lemma {:induction false} ZeroPadValue(n: nat, width: nat)
    requires n < Pow10(width)
    ensures DigitsValue(ZeroPad(n, width)) == n
    decreases width
  {
    if width > 0 {
      var s := ZeroPad(n, width);
      assert n / 10 < Pow10(width - 1);
      ZeroPadValue(n / 10, width - 1);
      assert s[..|s| - 1] == ZeroPad(n / 10, width - 1);
    }
  }

  /** SQL Server's RIGHT(s, k): the last k characters, or all of s when it is shorter. */
  function Right(s: string, k: nat): (r: string)
    ensures |r| == if |s| < k then |s| else k
    ensures s == s[..|s| - |r|] + r
  {
    if |s| < k then s else s[|s| - k..]
  }

  /** A two-digit number padded by RIGHT('00' + CAST(n AS VARCHAR(2)), 2) is its ZeroPad. */
  lemma {:induction false} RightPadTwo(n: nat)
    requires n < 100
    ensures Right("00" + NatText(n), 2) == ZeroPad(n, 2)
  {
    var t := NatText(n);
    if n < 10 {
      assert t == [DigitChar(n)];
      assert n / 10 == 0;
    } else {
      assert t == NatText(n / 10) + [DigitChar(n % 10)];
      assert NatText(n / 10) == [DigitChar(n / 10)];
      assert (n / 10) / 10 == 0 && (n / 10) % 10 == n / 10;
    }
  }
}

/** Decimal numerals as the scripts format them (`f"{n:04d}"`, `f"{n:03d}"`), and the
    fact that makes the numbered ids `P0001`, `C0001`, ... distinct: a zero-padded
    numeral can be read back to its number. */
module Decimal {

  function DigitChar(d: nat): (c: char)
    requires d < 10
    ensures '0' <= c <= '9'
  {
    (d + '0' as int) as char
  }

  function DigitValue(c: char): nat
  {
    if '0' <= c <= '9' then c as int - '0' as int else 0
  }

  /** `str(n)` */
  function Digits(n: nat): (s: string)
    ensures 1 <= |s|
    ensures forall i | 0 <= i < |s| :: '0' <= s[i] <= '9'
    decreases n
  {
    if n < 10 then [DigitChar(n)] else Digits(n / 10) + [DigitChar(n % 10)]
  }

  function Zeros(k: nat): (s: string)
    ensures |s| == k
    ensures forall i | 0 <= i < k :: s[i] == '0'
  {
    seq(k, i => '0')
  }

  /** `f"{n:0{width}d}"`: the numeral of `n`, left-padded with zeros to `width`. */
  function ZeroPad(n: nat, width: nat): (s: string)
    ensures |s| >= width
    ensures forall i | 0 <= i < |s| :: '0' <= s[i] <= '9'
  {
    if |Digits(n)| >= width then Digits(n) else Zeros(width - |Digits(n)|) + Digits(n)
  }

  /** The number a string of decimal digits denotes, leading zeros allowed. */
  function Value(s: string): nat
  {
    if s == [] then 0 else Value(s[..|s| - 1]) * 10 + DigitValue(s[|s| - 1])
  }

  lemma {:induction false} ValueOfDigits(n: nat)
    ensures Value(Digits(n)) == n
    decreases n
  {
    if n >= 10 {
      var d := Digits(n);
      assert d[..|d| - 1] == Digits(n / 10);
      ValueOfDigits(n / 10);
    }
  }

  lemma {:induction false} ValueOfZeros(k: nat)
    ensures Value(Zeros(k)) == 0
  {
    if k > 0 {
      assert Zeros(k)[..k - 1] == Zeros(k - 1);
      ValueOfZeros(k - 1);
    }
  }

  /** Leading zeros do not change the value. */
  lemma {:induction false} ValueIgnoresLeadingZeros(k: nat, s: string)
    ensures Value(Zeros(k) + s) == Value(s)
    decreases |s|
  {
    if s == [] {
      assert Zeros(k) + s == Zeros(k);
      ValueOfZeros(k);
    } else {
      var t := Zeros(k) + s;
      assert t[..|t| - 1] == Zeros(k) + s[..|s| - 1];
      ValueIgnoresLeadingZeros(k, s[..|s| - 1]);
    }
  }

  /** Reading a zero-padded numeral gives back its number. */
  lemma ValueOfZeroPad(n: nat, width: nat)
    ensures Value(ZeroPad(n, width)) == n
  {
    if |Digits(n)| < width {
      ValuePadded(width - |Digits(n)|, n);
    } else {
      ValueOfDigits(n);
    }
  }

  lemma ValuePadded(k: nat, n: nat)
    ensures Value(Zeros(k) + Digits(n)) == n
  {
    ValueOfDigits(n);
    ValueIgnoresLeadingZeros(k, Digits(n));
  }

  /** Distinct numbers give distinct zero-padded numerals. */
  lemma ZeroPadInjective(a: nat, b: nat, width: nat)
    ensures ZeroPad(a, width) == ZeroPad(b, width) <==> a == b
  {
    ValueOfZeroPad(a, width);
    ValueOfZeroPad(b, width);
  }

  /** A prefix followed by a numeral: distinct numbers give distinct ids. */
  lemma NumberedIdInjective(prefix: string, a: nat, b: nat, width: nat)
    ensures prefix + ZeroPad(a, width) == prefix + ZeroPad(b, width) <==> a == b
  {
    if prefix + ZeroPad(a, width) == prefix + ZeroPad(b, width) {
      assert ZeroPad(a, width) == (prefix + ZeroPad(a, width))[|prefix|..];
      assert ZeroPad(b, width) == (prefix + ZeroPad(b, width))[|prefix|..];
    }
    ZeroPadInjective(a, b, width);
  }

  /** Below `10^width` the padded numeral is exactly `width` characters long. */
  lemma {:induction false} ZeroPadWidth(n: nat, width: nat)
    requires 1 <= width && n < Pow10(width)
    ensures |ZeroPad(n, width)| == width
  {
    DigitsLength(n, width);
  }

  function Pow10(k: nat): (p: nat)
    ensures p >= 1
  {
    if k == 0 then 1 else 10 * Pow10(k - 1)
  }

  lemma {:induction false} DigitsLength(n: nat, width: nat)
    requires 1 <= width && n < Pow10(width)
    ensures |Digits(n)| <= width
    decreases n
  {
    if n >= 10 {
      assert Pow10(1) == 10;
      assert width != 1;
      assert n / 10 < Pow10(width - 1);
      DigitsLength(n / 10, width - 1);
    }
  }
}

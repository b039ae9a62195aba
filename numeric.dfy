/**
 * Java `long` values: the 64-bit range, two's-complement wrap-around of `+=`,
 * and the decimal text written by `Long.toString` and read by `Long.parseLong`.
 */
module Numeric {
  import opened Wrappers

  const LONG_MIN: int := -0x8000_0000_0000_0000
  const LONG_MAX: int := 0x7FFF_FFFF_FFFF_FFFF
  const TWO_64: int := 0x1_0000_0000_0000_0000

  /** A Java `long`. */
  newtype i64 = x: int | -0x8000_0000_0000_0000 <= x <= 0x7FFF_FFFF_FFFF_FFFF

  /** The `long` that Java's wrapping addition yields for the mathematical value `x`. */
  function Wrap64(x: int): (r: i64)
    ensures (r as int - x) % TWO_64 == 0
    ensures LONG_MIN <= x <= LONG_MAX ==> r as int == x
  {
    var m := (x - LONG_MIN) % TWO_64;
    assert x - LONG_MIN == ((x - LONG_MIN) / TWO_64) * TWO_64 + m;
    (m + LONG_MIN) as i64
  }

  /** Euclidean remainder is determined by the quotient and remainder it is given. */
  lemma ModOfSum(a: int, q: int, m: int)
    requires 0 <= m < TWO_64 && a == q * TWO_64 + m
    ensures a % TWO_64 == m
  {
  }

  /** Wrapping a sum is the same whether or not the partial sum was wrapped first. */
  lemma {:induction false} WrapAdd(a: int, b: int)
    ensures Wrap64(Wrap64(a) as int + b) == Wrap64(a + b)
  {
    var w := Wrap64(a) as int;
    var k := (w - a) / TWO_64;
    assert w - a == k * TWO_64;
    var x := a + b - LONG_MIN;
    var q := x / TWO_64;
    var m := x % TWO_64;
    assert x == q * TWO_64 + m;
    ModOfSum(w + b - LONG_MIN, q + k, m);
  }

  predicate IsDigit(c: char) { '0' <= c <= '9' }

  predicate AllDigits(s: string) { forall i :: 0 <= i < |s| ==> IsDigit(s[i]) }

  function DigitChar(d: nat): (c: char)
    requires d < 10
    ensures IsDigit(c)
  {
    ('0' as int + d) as char
  }

  /** The decimal digits of `n`, most significant first, without leading zeros. */
  function Decimal(n: nat): (s: string)
    ensures |s| >= 1 && AllDigits(s)
    decreases n
  {
    if n < 10 then [DigitChar(n)] else Decimal(n / 10) + [DigitChar(n % 10)]
  }

  /** The value of a run of decimal digits (leading zeros allowed). */
  function DigitsValue(s: string): nat
    requires AllDigits(s)
  {
    if s == [] then 0 else DigitsValue(s[..|s| - 1]) * 10 + (s[|s| - 1] as int - '0' as int)
  }

  lemma {:induction false} DecimalValue(n: nat)
    ensures DigitsValue(Decimal(n)) == n
    decreases n
  {
    if n >= 10 {
      var s := Decimal(n);
      assert s[..|s| - 1] == Decimal(n / 10);
      DecimalValue(n / 10);
    }
  }

  /** `Long.toString(x)`: a minus sign for negative values, then the decimal digits. */
  function LongToString(x: i64): (s: string)
    ensures |s| >= 1 && (s[0] == '-' <==> x < 0)
    ensures AllDigits(s[1..]) && (x >= 0 ==> AllDigits(s))
  {
    if x < 0 then "-" + Decimal(-(x as int)) else Decimal(x as int)
  }

  /**
   * `Long.parseLong(s)`: an optional leading `-` or `+`, then at least one digit,
   * the value within the `long` range; anything else throws NumberFormatException.
   */
  function ParseLong(s: string): (r: Option<i64>)
    ensures r.Some? ==> s != [] && AllDigits(s[1..]) && (IsDigit(s[0]) || s[0] == '-' || s[0] == '+')
    ensures r.Some? ==> (s[0] == '-' ==> r.value <= 0) && (s[0] != '-' ==> r.value >= 0)
    ensures s != [] && AllDigits(s) && DigitsValue(s) <= LONG_MAX ==> r == Some(DigitsValue(s) as i64)
    ensures s == "-" || s == "+" ==> r.None?
  {
    if s == [] then None
    else
      var signed := s[0] == '-' || s[0] == '+';
      var digits := if signed then s[1..] else s;
      if digits == [] || !AllDigits(digits) then None
      else
        var n: int := DigitsValue(digits);
        var v := if s[0] == '-' then -n else n;
        if LONG_MIN <= v <= LONG_MAX then Some(v as i64) else None
  }

  /** Every `long` is read back from its own decimal text. */
  lemma ParseLongOfToString(x: i64)
    ensures ParseLong(LongToString(x)) == Some(x)
  {
    var s := LongToString(x);
    if x < 0 {
      var d := Decimal(-(x as int));
      assert s[0] == '-' && s[1..] == d;
      DecimalValue(-(x as int));
      assert DigitsValue(d) == -(x as int);
    } else {
      var d := Decimal(x as int);
      assert s == d && IsDigit(s[0]);
      DecimalValue(x as int);
      assert DigitsValue(d) == x as int;
    }
  }

  /** Distinct `long`s have distinct decimal texts. */
  lemma LongToStringInjective(x: i64, y: i64)
    requires LongToString(x) == LongToString(y)
    ensures x == y
  {
    ParseLongOfToString(x);
    ParseLongOfToString(y);
  }

  /** The text of a `long` holds only digits and a leading minus sign. */
  lemma LongToStringChars(x: i64)
    ensures forall i :: 0 <= i < |LongToString(x)| ==> IsDigit(LongToString(x)[i]) || LongToString(x)[i] == '-'
  {
  }
}

/**
 * Decimal text and Java's integer types: Integer.parseInt / Long.parseLong
 * (optional sign, ASCII digits, range check), Integer.toString, the zero
 * padding of String.format("%06d", n), and the numeric test applied to k.
 */
module JavaNumbers {
  import opened Wrappers

  const IntMin: int := -0x8000_0000
  const IntMax: int := 0x7FFF_FFFF
  const LongMin: int := -0x8000_0000_0000_0000
  const LongMax: int := 0x7FFF_FFFF_FFFF_FFFF

  predicate IsInt(n: int) { IntMin <= n <= IntMax }

  predicate IsDigit(c: char) { '0' <= c <= '9' }

  predicate AllDigits(s: string) { forall j :: 0 <= j < |s| ==> IsDigit(s[j]) }

  function DigitValue(c: char): nat
    requires IsDigit(c)
  {
    (c as int - '0' as int) as nat
  }

  function DigitChar(d: nat): (c: char)
    requires d < 10
    ensures IsDigit(c) && DigitValue(c) == d
  {
    ('0' as int + d) as char
  }

  /** The value of a string of decimal digits, most significant first. */
  function DigitsValue(s: string): nat
    requires AllDigits(s)
  {
    if s == [] then 0 else DigitsValue(s[..|s| - 1]) * 10 + DigitValue(s[|s| - 1])
  }

  /** The magnitude part of a decimal integer: the text after an optional sign. */
  function Magnitude(s: string): string
  {
    if s != [] && (s[0] == '-' || s[0] == '+') then s[1..] else s
  }

  /** Optional sign followed by at least one ASCII digit, with no bound on size. */
  predicate IsDecimal(s: string)
  {
    Magnitude(s) != [] && AllDigits(Magnitude(s))
  }

  /** The unbounded integer a decimal string denotes. */
  function DecimalValue(s: string): int
    requires IsDecimal(s)
  {
    if s[0] == '-' then -(DigitsValue(Magnitude(s)) as int) else DigitsValue(Magnitude(s))
  }

  /** Integer.parseInt / Long.parseLong with the type's range [lo, hi]; None stands for NumberFormatException. */
  function ParseBounded(s: string, lo: int, hi: int): (r: Option<int>)
    ensures r.Some? ==> lo <= r.value <= hi
    ensures r.Some? <==> IsDecimal(s) && lo <= DecimalValue(s) <= hi
    ensures r.Some? ==> r.value == DecimalValue(s)
  {
    if !IsDecimal(s) then None
    else
      var v := DecimalValue(s);
      if lo <= v <= hi then Some(v) else None
  }

  /** Integer.parseInt: accepted exactly when the text is a decimal integer within the int range. */
  function ParseInt(s: string): (r: Option<int>)
    ensures r.Some? ==> IsInt(r.value)
    ensures r.Some? <==> IsDecimal(s) && IsInt(DecimalValue(s))
    ensures r.Some? ==> r.value == DecimalValue(s)
  {
    ParseBounded(s, IntMin, IntMax)
  }

  /** Long.parseLong: accepted exactly when the text is a decimal integer within the long range. */
  function ParseLong(s: string): (r: Option<int>)
    ensures r.Some? ==> LongMin <= r.value <= LongMax
    ensures r.Some? <==> IsDecimal(s) && LongMin <= DecimalValue(s) <= LongMax
    ensures ParseInt(s).Some? ==> r == ParseInt(s)
  {
    ParseBounded(s, LongMin, LongMax)
  }

  /**
   * The numeric test applied to k before it is parsed. The source asks
   * Double.parseDouble; this model accepts decimal integers of any size.
   */
  function IsNumeric(s: string): (b: bool)
    ensures ParseInt(s).Some? ==> b
    ensures ParseLong(s).Some? ==> b
    ensures b ==> s != [] && IsDigit(s[|s| - 1])
  {
    IsDecimal(s)
  }

  /** Decimal digits of a natural number, without leading zeros. */
  function NatString(n: nat): (r: string)
    ensures r != [] && AllDigits(r)
    ensures DigitsValue(r) == n
  {
    if n < 10 then [DigitChar(n)]
    else
      var r := NatString(n / 10) + [DigitChar(n % 10)];
      assert r[..|r| - 1] == NatString(n / 10);
      r
  }

  /** Integer.toString / String.valueOf(int). */
  function DecimalString(n: int): (r: string)
  {
    if n < 0 then "-" + NatString(-n) else NatString(n)
  }

  /** String.format("%06d", n): left-pad with zeros to six characters. */
  function RandomNumberString(n: int): (r: string)
    requires 0 <= n < 999999
    ensures |r| == 6 && AllDigits(r)
    ensures DigitsValue(r) == n
  {
    NatStringShort(n);
    var digits := NatString(n);
    var r := Zeros(6 - |digits|) + digits;
    LeadingZeros(6 - |digits|, digits);
    r
  }

  function Zeros(k: nat): (r: string)
    ensures |r| == k && AllDigits(r)
  {
    if k == 0 then [] else ['0'] + Zeros(k - 1)
  }

  // ---------------------------------------------------------------------------
  // Properties

  /** What Integer/Long.toString writes, parseInt/parseLong reads back when it is in range. */
  lemma {:induction false} ParseOfDecimalString(n: int, lo: int, hi: int)
    requires lo <= n <= hi
    ensures ParseBounded(DecimalString(n), lo, hi) == Some(n)
  {
    var s := DecimalString(n);
    if n < 0 {
      assert s[0] == '-' && s[1..] == NatString(-n);
      assert Magnitude(s) == NatString(-n);
    } else {
      assert IsDigit(s[0]);
      assert Magnitude(s) == s;
    }
  }

  /** Integer.toString never starts or ends with a character that trim removes. */
  lemma DecimalStringVisible(n: int)
    ensures DecimalString(n) != []
    ensures DecimalString(n)[0] > ' ' && DecimalString(n)[|DecimalString(n)| - 1] > ' '
    ensures ',' !in DecimalString(n)
  {
    var s := DecimalString(n);
    if n < 0 {
      assert s == "-" + NatString(-n);
      assert forall j :: 1 <= j < |s| ==> IsDigit(s[j]);
    }
  }

  lemma NatStringShort(n: nat)
    requires n < 1000000
    ensures |NatString(n)| <= 6
  {
    NatStringLength(n, 6);
  }

  function Pow10(k: nat): nat
  {
    if k == 0 then 1 else 10 * Pow10(k - 1)
  }

  lemma {:induction false} NatStringLength(n: nat, k: nat)
    requires k >= 1 && n < Pow10(k)
    ensures |NatString(n)| <= k
  {
    if n >= 10 {
      assert k > 1;
      assert n / 10 < Pow10(k - 1);
      NatStringLength(n / 10, k - 1);
    }
  }

  /** Zero padding does not change the value of a digit string. */
  lemma {:induction false} LeadingZeros(k: nat, s: string)
    requires AllDigits(s)
    ensures AllDigits(Zeros(k) + s) && DigitsValue(Zeros(k) + s) == DigitsValue(s)
  {
    if s == [] {
      assert Zeros(k) + s == Zeros(k);
      ZerosValue(k);
    } else {
      var t := Zeros(k) + s;
      assert t[..|t| - 1] == Zeros(k) + s[..|s| - 1];
      LeadingZeros(k, s[..|s| - 1]);
    }
  }

  lemma {:induction false} ZerosValue(k: nat)
    ensures DigitsValue(Zeros(k)) == 0
  {
    if k > 0 {
      var z := Zeros(k);
      assert z[..|z| - 1] == Zeros(k - 1) by {
        assert z == ['0'] + Zeros(k - 1);
        if k > 1 {
          ZerosShift(k - 1);
        }
      }
      ZerosValue(k - 1);
    }
  }

  lemma ZerosShift(k: nat)
    requires k > 0
    ensures ['0'] + Zeros(k - 1) == Zeros(k - 1) + ['0']
  {
    if k > 1 { ZerosShift(k - 1); }
  }
}

/** Decimal digit counting (source/aoc.cpp) and the table of powers of ten (aoc_lib/aoc.h). */
module Digits {
  import opened Common

  /** 10^n. */
  function Pow10(n: nat): (r: nat)
    ensures r >= 1
  {
    if n == 0 then 1 else 10 * Pow10(n - 1)
  }

  /** Number of decimal digits of a positive number, the reference definition
      against which the source's digit counters are checked (0 is given 1 digit,
      as the specialisations do). */
  function DecimalLength(x: nat): (r: nat)
    ensures r >= 1
  {
    if x < 10 then 1 else 1 + DecimalLength(x / 10)
  }

  lemma {:induction false} Pow10Add(a: nat, b: nat)
    ensures Pow10(a + b) == Pow10(a) * Pow10(b)
  {
    if a > 0 { Pow10Add(a - 1, b); }
  }

  lemma {:induction false} Pow10Monotone(a: nat, b: nat)
    requires a <= b
    ensures Pow10(a) <= Pow10(b)
  {
    if a < b { Pow10Monotone(a, b - 1); }
  }

  /** DecimalLength(x) is the unique d with 10^(d-1) <= x < 10^d, for x >= 1. */
  lemma {:induction false} DecimalLengthBounds(x: nat)
    ensures x < Pow10(DecimalLength(x))
    ensures x >= 1 ==> Pow10(DecimalLength(x) - 1) <= x
  {
    if x >= 10 {
      DecimalLengthBounds(x / 10);
    }
  }

  lemma {:induction false} DecimalLengthUnique(x: nat, d: nat)
    requires d >= 1 && x < Pow10(d) && (d > 1 ==> Pow10(d - 1) <= x)
    ensures DecimalLength(x) == d
  {
    if d == 1 {
    } else {
      assert x >= 10;
      DecimalLengthUnique(x / 10, d - 1);
    }
  }

  /** kTenPowers: the twenty powers of ten representable in 64 bits. */
  const TEN_POWERS: seq<nat> := [
    1, 10, 100, 1_000, 10_000, 100_000, 1_000_000, 10_000_000, 100_000_000,
    1_000_000_000, 10_000_000_000, 100_000_000_000, 1_000_000_000_000,
    10_000_000_000_000, 100_000_000_000_000, 1_000_000_000_000_000,
    10_000_000_000_000_000, 100_000_000_000_000_000, 1_000_000_000_000_000_000,
    10_000_000_000_000_000_000]

  /** The values of 10^0 .. 10^20, so that decision trees on literals can be checked. */
  lemma Pow10Table()
    ensures Pow10(0) == 1
    ensures Pow10(1) == 10
    ensures Pow10(2) == 100
    ensures Pow10(3) == 1_000
    ensures Pow10(4) == 10_000
    ensures Pow10(5) == 100_000
    ensures Pow10(6) == 1_000_000
    ensures Pow10(7) == 10_000_000
    ensures Pow10(8) == 100_000_000
    ensures Pow10(9) == 1_000_000_000
    ensures Pow10(10) == 10_000_000_000
    ensures Pow10(11) == 100_000_000_000
    ensures Pow10(12) == 1_000_000_000_000
    ensures Pow10(13) == 10_000_000_000_000
    ensures Pow10(14) == 100_000_000_000_000
    ensures Pow10(15) == 1_000_000_000_000_000
    ensures Pow10(16) == 10_000_000_000_000_000
    ensures Pow10(17) == 100_000_000_000_000_000
    ensures Pow10(18) == 1_000_000_000_000_000_000
    ensures Pow10(19) == 10_000_000_000_000_000_000
    ensures Pow10(20) == 100_000_000_000_000_000_000
  {
    assert Pow10(1) == 10 * Pow10(0);
    assert Pow10(2) == 10 * Pow10(1);
    assert Pow10(3) == 10 * Pow10(2);
    assert Pow10(4) == 10 * Pow10(3);
    assert Pow10(5) == 10 * Pow10(4);
    assert Pow10(6) == 10 * Pow10(5);
    assert Pow10(7) == 10 * Pow10(6);
    assert Pow10(8) == 10 * Pow10(7);
    assert Pow10(9) == 10 * Pow10(8);
    assert Pow10(10) == 10 * Pow10(9);
    assert Pow10(11) == 10 * Pow10(10);
    assert Pow10(12) == 10 * Pow10(11);
    assert Pow10(13) == 10 * Pow10(12);
    assert Pow10(14) == 10 * Pow10(13);
    assert Pow10(15) == 10 * Pow10(14);
    assert Pow10(16) == 10 * Pow10(15);
    assert Pow10(17) == 10 * Pow10(16);
    assert Pow10(18) == 10 * Pow10(17);
    assert Pow10(19) == 10 * Pow10(18);
    assert Pow10(20) == 10 * Pow10(19);
  }

  /** Every entry of kTenPowers is positive, so it can divide. */
  lemma TenPowersPositive(k: nat)
    requires k < 20
    ensures |TEN_POWERS| == 20 && TEN_POWERS[k] >= 1
  {
    TenPowersTable(k);
  }

  lemma TenPowersTable(k: nat)
    requires k < 20
    ensures |TEN_POWERS| == 20 && TEN_POWERS[k] == Pow10(k)
  {
    Pow10Table();
  }

  /** The generic NumDigits: counts divisions by 10 until the value reaches zero,
      so it gives 0 digits for 0, unlike the two specialisations. */
  method NumDigitsGeneric(x0: nat) returns (digits: nat)
    ensures x0 == 0 ==> digits == 0
    ensures x0 > 0 ==> digits == DecimalLength(x0)
    ensures x0 > 0 ==> Pow10(digits - 1) <= x0 < Pow10(digits)
  {
    var x: nat := x0;
    digits := 0;
    while x != 0
      invariant x0 == 0 ==> x == 0 && digits == 0
      invariant x0 > 0 && x > 0 ==> DecimalLength(x0) == digits + DecimalLength(x)
      invariant x0 > 0 && x == 0 ==> DecimalLength(x0) == digits
      decreases x
    {
      x := x / 10;
      digits := digits + 1;
    }
    if x0 > 0 { DecimalLengthBounds(x0); }
  }

  /** The 64-bit specialisation: a binary decision tree on the powers of ten. */
  function NumDigits64(x: nat): (r: nat)
    requires x < TWO_64
  {
    if x >= 10000000000 then
      if x >= 100000000000000 then
        if x >= 10000000000000000 then
          if x >= 100000000000000000 then
            if x >= 1000000000000000000 then
              if x >= 10000000000000000000 then 20 else 19
            else 18
          else 17
        else if x >= 1000000000000000 then 16 else 15
      else if x >= 1000000000000 then
        if x >= 10000000000000 then 14 else 13
      else if x >= 100000000000 then 12 else 11
    else if x >= 100000 then
      if x >= 10000000 then
        if x >= 100000000 then
          if x >= 1000000000 then 10 else 9
        else 8
      else if x >= 1000000 then 7 else 6
    else if x >= 100 then
      if x >= 1000 then
        if x >= 10000 then 5 else 4
      else 3
    else if x >= 10 then 2 else 1
  }

  /** The 32-bit specialisation. */
  function NumDigits32(x: nat): (r: nat)
    requires x < TWO_32
  {
    if x >= 10_000 then
      if x >= 10_000_000 then
        if x >= 100_000_000 then
          if x >= 1_000_000_000 then 10 else 9
        else 8
      else if x >= 100000 then
        if x >= 1000000 then 7 else 6
      else 5
    else if x >= 100 then
      if x >= 1000 then 4 else 3
    else if x >= 10 then 2 else 1
  }

  /** The 64-bit decision tree agrees with the reference digit count: it returns the d
      with 10^(d-1) <= x < 10^d, and 1 for 0. */
  lemma NumDigits64Correct(x: nat)
    requires x < TWO_64
    ensures 1 <= NumDigits64(x) <= 20
    ensures NumDigits64(x) == DecimalLength(x)
    ensures x >= 1 ==> Pow10(NumDigits64(x) - 1) <= x < Pow10(NumDigits64(x))
    ensures x == 0 ==> NumDigits64(x) == 1
  {
    Pow10Table();
    DecimalLengthUnique(x, NumDigits64(x));
  }

  /** The 32-bit decision tree agrees with the reference digit count and never exceeds 10. */
  lemma NumDigits32Correct(x: nat)
    requires x < TWO_32
    ensures 1 <= NumDigits32(x) <= 10
    ensures NumDigits32(x) == DecimalLength(x)
    ensures x >= 1 ==> Pow10(NumDigits32(x) - 1) <= x < Pow10(NumDigits32(x))
    ensures x == 0 ==> NumDigits32(x) == 1
  {
    Pow10Table();
    DecimalLengthUnique(x, NumDigits32(x));
  }

  /** The character of a decimal digit. */
  function DigitChar(d: nat): char
    requires d < 10
  {
    (48 + d) as char
  }

  /** The decimal representation of a number, without leading zeros. */
  function DecimalString(x: nat): (s: string)
    ensures |s| == DecimalLength(x)
    ensures forall k :: 0 <= k < |s| ==> '0' <= s[k] <= '9'
  {
    if x < 10 then [DigitChar(x)] else DecimalString(x / 10) + [DigitChar(x % 10)]
  }

  /** Appending a digit to a number appends its character. */
  lemma AppendDigit(x: nat, y: nat, d: nat)
    requires y >= 1 && d < 10 && x == 10 * y + d
    ensures DecimalString(x) == DecimalString(y) + [DigitChar(d)]
  {
    DivModUnique(x, 10, y, d);
  }

  /** a * 10^|digits of b| + b is written as a's digits followed by b's: the decimal
      concatenation of the two numbers. */
  lemma {:induction false} ConcatDigits(a: nat, b: nat)
    requires a >= 1
    ensures DecimalString(a * Pow10(DecimalLength(b)) + b) == DecimalString(a) + DecimalString(b)
    decreases b
  {
    if b < 10 {
      assert Pow10(DecimalLength(b)) == 10;
      AppendDigit(a * Pow10(DecimalLength(b)) + b, a, b);
    } else {
      ConcatDigits(a, b / 10);
      ConcatDigitsStep(a, b);
    }
  }

  /** The step of ConcatDigits: b's last digit comes last. */
  lemma ConcatDigitsStep(a: nat, b: nat)
    requires a >= 1 && b >= 10
    requires DecimalString(a * Pow10(DecimalLength(b / 10)) + b / 10) == DecimalString(a) + DecimalString(b / 10)
    ensures DecimalString(a * Pow10(DecimalLength(b)) + b) == DecimalString(a) + DecimalString(b)
  {
    var p := Pow10(DecimalLength(b / 10));
    var y := a * p + b / 10;
    var x := a * Pow10(DecimalLength(b)) + b;
    assert Pow10(DecimalLength(b)) == 10 * p;
    ShiftProduct(a, p);
    assert x == 10 * (a * p) + b;
    assert b == 10 * (b / 10) + b % 10;
    assert x == 10 * y + b % 10;
    MulAtLeast(a, p);
    AppendDigit(x, y, b % 10);
    assert DecimalString(b) == DecimalString(b / 10) + [DigitChar(b % 10)];
  }

  lemma ShiftProduct(a: nat, p: nat)
    ensures a * (10 * p) == 10 * (a * p)
  {
  }
}

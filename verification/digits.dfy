/** Conversions between decimal and binary precision, in digits.

    Both conversions use 301/1000 as an approximation of log10(2), in `unsigned long`
    arithmetic.  `unsigned long` is taken to be 64 bits wide, and the products
    `d * 1000` and `d * 301` wrap around modulo 2^64 as they do in C++; every property
    below that needs the exact product says so in its precondition.
 */
module Digits {

  const ULONG_MODULUS: int := 0x1_0000_0000_0000_0000

  /** A value of C++ type `unsigned long`. */
  type ULong = n: int | 0 <= n < ULONG_MODULUS

  /** `digits10_2_2(d10)`: the number of binary digits to use for `d10` decimal digits.
      Without wrap-around it is one more than `ceil(1000 * d10 / 301)`: the smallest
      count `n` of binary digits with `301 * n >= 1000 * d10`, plus one. */
  function Digits10To2(d10: ULong): (r: ULong)
    ensures r >= 1
    ensures d10 == 0 ==> r == 1
    ensures 1000 * d10 < ULONG_MODULUS ==> 301 * (r - 2) < 1000 * d10 <= 301 * (r - 1)
  {
    var p := (d10 * 1000) % ULONG_MODULUS;
    assert 1000 * d10 < ULONG_MODULUS ==> p == 1000 * d10;
    p / 301 + (if p % 301 != 0 then 2 else 1)
  }

  /** `digits2_2_10(d2)`: the number of decimal digits that `d2` binary digits carry in
      full.  Without wrap-around it is `floor(301 * d2 / 1000)`; with or without, it is
      at most `d2`. */
  function Digits2To10(d2: ULong): (r: ULong)
    ensures r <= d2
    ensures 301 * d2 < ULONG_MODULUS ==> 1000 * r <= 301 * d2 < 1000 * (r as int + 1)
  {
    var p := (d2 * 301) % ULONG_MODULUS;
    assert 301 * d2 < ULONG_MODULUS ==> p == 301 * d2;
    p / 1000
  }

  /** The binary count strictly over-covers the decimal request: `d10` decimal digits
      need `d10 * log2(10)` bits, a little under `1000 * d10 / 301`, and the count
      granted exceeds even that. */
  lemma Digits10To2OverCovers(d10: ULong)
    requires 1000 * d10 < ULONG_MODULUS
    ensures 301 * Digits10To2(d10) > 1000 * d10
  {
  }

  /** More decimal digits always ask for more binary digits. */
  lemma Digits10To2StrictlyIncreasing(a: ULong, b: ULong)
    requires a < b && 1000 * b < ULONG_MODULUS
    ensures Digits10To2(a) < Digits10To2(b)
  {
    var ra, rb := Digits10To2(a), Digits10To2(b);
    assert 301 * (ra - 1) < 1000 * a + 301;
    assert 1000 * a + 301 < 1000 * b;
  }

  /** More binary digits never carry fewer decimal digits. */
  lemma Digits2To10Monotone(a: ULong, b: ULong)
    requires a <= b && 301 * b < ULONG_MODULUS
    ensures Digits2To10(a) <= Digits2To10(b)
  {
    var ra, rb := Digits2To10(a), Digits2To10(b);
    assert 1000 * ra <= 301 * b < 1000 * (rb as int + 1);
  }

  /** Converting decimal digits to binary and back loses no decimal digit. */
  lemma DigitsRoundTrip(d10: ULong)
    requires 1000 * d10 < ULONG_MODULUS
    requires 301 * Digits10To2(d10) < ULONG_MODULUS
    ensures Digits2To10(Digits10To2(d10)) >= d10
  {
    var n := Digits10To2(d10);
    var back := Digits2To10(n);
    assert 1000 * d10 <= 301 * n < 1000 * (back as int + 1);
  }
}

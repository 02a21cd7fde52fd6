/** The numbers binary floating-point bits stand for (IEEE 754-2008, section 3.4). */
module Floats {
  import opened Words

  /** A number counts units, the smallest positive numbers of the format; the two zeros are one. */
  datatype FloatValue = NotANumber | Infinity(negative: bool) | Number(units: int)

  /** The value of sign, exponent and fraction fields, the exponent below `top` and the fraction below `size`. */
  function FieldsValue(negative: bool, exponent: nat, fraction: nat, top: nat, size: nat): FloatValue {
    if exponent == top - 1 then
      if fraction != 0 then NotANumber else Infinity(negative)
    else
      Number(if negative then 0 - Magnitude(exponent, fraction, size) else Magnitude(exponent, fraction, size))
  }

  /** How many units a significand makes: a hidden leading one, but for exponent zero. */
  function Magnitude(exponent: nat, fraction: nat, size: nat): nat {
    if exponent == 0 then fraction else (size + fraction) * Pow2(exponent - 1)
  }

  /** 8 bits of exponent over 23 of fraction. */
  function Value32(bits: nat): FloatValue {
    FieldsValue(bits / 0x8000_0000 % 2 == 1, bits / 0x80_0000 % 0x100, bits % 0x80_0000, 0x100, 0x80_0000)
  }

  /** 11 bits of exponent over 52 of fraction. */
  function Value64(bits: nat): FloatValue {
    FieldsValue(bits / 0x8000_0000_0000_0000 % 2 == 1, bits / 0x10_0000_0000_0000 % 0x800,
                bits % 0x10_0000_0000_0000, 0x800, 0x10_0000_0000_0000)
  }

  // ----- one magnitude has one significand -----

  lemma MagnitudeBelow(exponent: nat, fraction: nat, size: nat)
    requires fraction < size
    ensures Magnitude(exponent, fraction, size) < size * Pow2(exponent)
  {
    if exponent > 0 {
      Grows(size + fraction, size + size, Pow2(exponent - 1));
      Twice(size, Pow2(exponent - 1));
    }
  }

  lemma Twice(size: nat, p: nat)
    ensures (size + size) * p == size * (2 * p)
  {}

  lemma Grows(a: nat, b: nat, p: nat)
    requires a < b && p > 0
    ensures a * p < b * p
  {
    assert b * p == a * p + (b - a) * p && (b - a) * p > 0;
  }

  lemma MagnitudeFrom(exponent: nat, fraction: nat, size: nat)
    requires exponent > 0
    ensures Magnitude(exponent, fraction, size) >= size * Pow2(exponent - 1)
  {
    assert (size + fraction) * Pow2(exponent - 1) == size * Pow2(exponent - 1) + fraction * Pow2(exponent - 1);
  }

  /** A smaller exponent makes a smaller magnitude, whatever the fractions. */
  lemma ExponentOrders(e: nat, m: nat, f: nat, n: nat, size: nat)
    requires e < f && m < size
    ensures Magnitude(e, m, size) < Magnitude(f, n, size)
  {
    MagnitudeBelow(e, m, size);
    MagnitudeFrom(f, n, size);
    Pow2Grows(e, f - 1);
    Stretches(size, Pow2(e), Pow2(f - 1));
  }

  lemma Stretches(size: nat, p: nat, q: nat)
    requires p <= q
    ensures size * p <= size * q
  {
    assert size * q == size * p + size * (q - p);
  }

  lemma FractionOrders(e: nat, m: nat, n: nat, size: nat)
    requires m < n
    ensures Magnitude(e, m, size) < Magnitude(e, n, size)
  {
    if e > 0 { Grows(size + m, size + n, Pow2(e - 1)); }
  }

  lemma MagnitudeUnique(e: nat, m: nat, f: nat, n: nat, size: nat)
    requires m < size && n < size && Magnitude(e, m, size) == Magnitude(f, n, size)
    ensures e == f && m == n
  {
    if e < f { ExponentOrders(e, m, f, n, size); }
    if f < e { ExponentOrders(f, n, e, m, size); }
    if m < n { FractionOrders(e, m, n, size); }
    if n < m { FractionOrders(f, n, m, size); }
  }

  lemma MagnitudeZero(e: nat, m: nat, size: nat)
    requires size > 0
    ensures Magnitude(e, m, size) == 0 <==> e == 0 && m == 0
  {
    if e > 0 { Grows(0, size + m, Pow2(e - 1)); }
  }

  /** Fields have one value exactly when they agree, or both spell NaN, or both spell zero. */
  lemma SameValue(s: bool, e: nat, m: nat, t: bool, f: nat, n: nat, top: nat, size: nat)
    requires m < size && n < size && 1 < top
    ensures FieldsValue(s, e, m, top, size) == FieldsValue(t, f, n, top, size) <==>
            (s == t && e == f && m == n)
            || (e == top - 1 && f == top - 1 && m != 0 && n != 0)
            || (e == 0 && f == 0 && m == 0 && n == 0)
  {
    MagnitudeZero(e, m, size);
    MagnitudeZero(f, n, size);
    if Magnitude(e, m, size) == Magnitude(f, n, size) { MagnitudeUnique(e, m, f, n, size); }
  }

  // ----- the magnitudes step by step -----

  /** Each significand is one step above the one before, across exponents as well, and steps double from one
      exponent to the next, but for the first two. */
  lemma MagnitudeSteps(e: nat, m: nat, size: nat)
    requires m < size
    ensures Magnitude(0, 0, size) == 0
    ensures var next := if m + 1 < size then Magnitude(e, m + 1, size) else Magnitude(e + 1, 0, size);
            next == Magnitude(e, m, size) + Pow2(if e == 0 then 0 else e - 1)
  {
    if e > 0 {
      var p := Pow2(e - 1);
      OneMore(size + m, p);
      Twice(size, p);
    } else {
      assert Pow2(0) == 1 && size * Pow2(0) == size;
    }
  }

  lemma OneMore(n: nat, p: nat)
    ensures (n + 1) * p == n * p + p
  {}
}

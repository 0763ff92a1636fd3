/** The values of binary64 patterns, and what the conversions to them keep. */
module FloatValues {
  import opened Binary
  import opened Json
  import opened Order

  // ---- values ----

  /** The magnitude of a binary64 pattern in units of 2^-1074, the smallest subnormal: by section 3.4 of
      IEEE 754 the fraction below the first exponent, and the fraction with its leading one, doubled with
      every further exponent. Infinity has the magnitude that would follow the largest number. */
  function Magnitude(bits: nat): nat {
    var exponent, fraction := bits / 0x10_0000_0000_0000, bits % 0x10_0000_0000_0000;
    if exponent == 0 then fraction else (0x10_0000_0000_0000 + fraction) * Pow2(exponent - 1)
  }

  function FloatValue(bits: uint64): int {
    if bits < TWO_TO_THE_63 then Magnitude(bits) else -1 * Magnitude(bits - TWO_TO_THE_63)
  }

  /** By section 3.4 of IEEE 754 a pattern is a NaN if all bits of its exponent are set and some of its
      fraction; with an empty fraction it is an infinity. */
  lemma NaNPattern(bits: uint64)
    ensures IsNaN(bits) <==>
            bits / 0x10_0000_0000_0000 % 0x800 == 0x7FF && bits % 0x10_0000_0000_0000 != 0
  {
    var high, fraction := bits / 0x10_0000_0000_0000, bits % 0x10_0000_0000_0000;
    assert bits == high * 0x10_0000_0000_0000 + fraction;
    assert bits % TWO_TO_THE_63 == high % 0x800 * 0x10_0000_0000_0000 + fraction;
  }

  lemma MagnitudeStep(bits: nat)
    ensures Magnitude(bits) < Magnitude(bits + 1)
  {
    var exponent, fraction := bits / DOUBLE_EXPONENT, bits % DOUBLE_EXPONENT;
    if fraction + 1 < DOUBLE_EXPONENT {
      NextFraction(bits);
      if exponent > 0 {
        Scales(DOUBLE_EXPONENT + fraction, Pow2(exponent - 1));
      }
    } else {
      NextExponent(bits);
      assert Pow2(0) == 1;
      if exponent > 0 {
        assert Pow2(exponent) == 2 * Pow2(exponent - 1);
        Scales(DOUBLE_EXPONENT + fraction, Pow2(exponent - 1));
      }
    }
  }

  lemma NextFraction(bits: nat)
    requires bits % DOUBLE_EXPONENT + 1 < DOUBLE_EXPONENT
    ensures (bits + 1) / DOUBLE_EXPONENT == bits / DOUBLE_EXPONENT
    ensures (bits + 1) % DOUBLE_EXPONENT == bits % DOUBLE_EXPONENT + 1
  {
  }

  lemma NextExponent(bits: nat)
    requires bits % DOUBLE_EXPONENT + 1 == DOUBLE_EXPONENT
    ensures (bits + 1) / DOUBLE_EXPONENT == bits / DOUBLE_EXPONENT + 1 && (bits + 1) % DOUBLE_EXPONENT == 0
  {
  }

  lemma Scales(m: nat, unit: nat)
    requires unit > 0
    ensures m * unit < (m + 1) * unit && (m + 1) * unit == m * unit + unit
  {
  }

  lemma {:induction false} MagnitudeGrows(a: nat, b: nat)
    requires a < b
    ensures Magnitude(a) < Magnitude(b)
    decreases b
  {
    hide Magnitude;
    MagnitudeStep(b - 1);
    if a < b - 1 {
      MagnitudeGrows(a, b - 1);
    }
  }

  lemma ZeroMagnitude()
    ensures Magnitude(0) == 0
  {
  }

  // ---- integers to doubles ----

  /** The pattern with a given leading exponent and significand stands for their product. */
  lemma MagnitudeOf(e: nat, significand: nat)
    requires DOUBLE_EXPONENT <= significand <= 2 * DOUBLE_EXPONENT
    ensures Magnitude((e + 1022) * DOUBLE_EXPONENT + significand) == significand * Pow2(e + 1022)
  {
    if significand < 2 * DOUBLE_EXPONENT {
      SplitBits(e + 1023, significand - DOUBLE_EXPONENT);
      assert (e + 1022) * DOUBLE_EXPONENT + significand ==
             (e + 1023) * DOUBLE_EXPONENT + (significand - DOUBLE_EXPONENT);
    } else {
      SplitBits(e + 1024, 0);
      assert (e + 1022) * DOUBLE_EXPONENT + significand == (e + 1024) * DOUBLE_EXPONENT + 0;
      assert Pow2(e + 1023) == 2 * Pow2(e + 1022);
    }
  }

  /** `q` times a unit is nearest to `m`, and even if `m` is halfway. */
  predicate Nearest(m: nat, q: nat, unit: nat) {
    var difference := if m < q * unit then q * unit - m else m - q * unit;
    2 * difference <= unit && (2 * difference == unit ==> q % 2 == 0)
  }

  lemma NearestMultiple(m: nat, q: nat, r: nat, unit: nat)
    requires m == q * unit + r && r < unit
    ensures Nearest(m, if 2 * r > unit || (2 * r == unit && q % 2 == 1) then q + 1 else q, unit)
  {
    Scales(q, unit);
  }

  lemma Division(m: nat, unit: nat)
    requires unit > 0
    ensures m == m / unit * unit + m % unit && m % unit < unit
  {
  }

  lemma RoundedIsNearest(m: nat, e: nat)
    requires e > 52
    ensures Nearest(m, Rounded(m, e), Pow2(e - 52))
  {
    hide Pow2, Nearest;
    var unit := Pow2(e - 52);
    Division(m, unit);
    NearestMultiple(m, m / unit, m % unit, unit);
  }

  /** The magnitude is that of `q` units, the nearest multiple of the last of its 53 bits. */
  predicate RoundedTo(m: nat, bits: nat, e: nat, q: nat) {
    && e > 52 && 0x10_0000_0000_0000 <= q <= 0x20_0000_0000_0000 && Nearest(m, q, Pow2(e - 52))
    && Magnitude(bits) == q * Pow2(e - 52) * Pow2(1074)
  }

  ghost predicate Converted(m: nat, bits: nat) {
    exists e: nat :: ConvertedWith(m, bits, e)
  }

  /** A number between 2^e and 2^(e + 1). */
  ghost predicate ConvertedWith(m: nat, bits: nat, e: nat) {
    && Pow2(e) <= m < 2 * Pow2(e)
    && if e <= 52 then Magnitude(bits) == m * Pow2(1074) else exists q: nat :: RoundedTo(m, bits, e, q)
  }

  lemma RoundedLarge(m: nat, e: nat)
    requires Pow2(e) <= m
    ensures Rounded(m, e) >= DOUBLE_EXPONENT
  {
    hide Pow2;
    Powers();
    if e <= 52 {
      Pow2Sum(e, 52 - e);
      Product(Pow2(e), m, Pow2(52 - e));
    } else {
      Pow2Sum(52, e - 52);
      AtLeast(m, DOUBLE_EXPONENT, Pow2(e - 52));
    }
  }

  lemma Product(a: nat, b: nat, c: nat)
    requires a <= b
    ensures a * c <= b * c
  {
  }

  lemma AtLeast(m: nat, q: nat, unit: nat)
    requires unit > 0 && m >= q * unit
    ensures m / unit >= q
  {
    if m / unit < q {
      Product(m / unit + 1, q, unit);
      Scales(m / unit, unit);
    }
  }

  /** The conversion of an integer to a double keeps it exactly up to 53 bits; beyond that it gives the nearest
      multiple of the last of 53 bits, and the even one of two that are equally near. */
  lemma ConversionIsNearest(n: int)
    requires -TWO_TO_THE_63 <= n < TWO_TO_THE_64 && n != 0
    ensures var d := IntToDouble(n);
            0 <= d < TWO_TO_THE_64 && (d >= TWO_TO_THE_63 <==> n < 0)
            && Converted(if n < 0 then -1 * n else n, d % TWO_TO_THE_63)
  {
    hide Exponent, Pow2, IntToDouble, Rounded, Magnitude, Nearest;
    var m := if n < 0 then -1 * n else n;
    var e := Exponent(m);
    DoubleOf(n);
    LargestExponent(m);
    ExponentRange(m);
    RoundedBound(m, e);
    RoundedLarge(m, e);
    BelowSign(e, Rounded(m, e));
    ConvertedMagnitude(m, e, (e + 1022) * DOUBLE_EXPONENT + Rounded(m, e));
  }

  lemma ConvertedMagnitude(m: nat, e: nat, bits: nat)
    requires Pow2(e) <= m < 2 * Pow2(e) && bits == (e + 1022) * DOUBLE_EXPONENT + Rounded(m, e)
    requires DOUBLE_EXPONENT <= Rounded(m, e) <= 2 * DOUBLE_EXPONENT
    ensures Converted(m, bits)
  {
    hide Pow2, Rounded, Magnitude, Nearest;
    var q := Rounded(m, e);
    MagnitudeOf(e, q);
    if e <= 52 {
      ExactSignificand(m, e);
    } else {
      RoundedIsNearest(m, e);
      Pow2Sum(e - 52, 1074);
      Associate(q, Pow2(e - 52), Pow2(1074));
      assert RoundedTo(m, bits, e, q);
    }
    assert ConvertedWith(m, bits, e);
  }

  lemma BelowSign(e: nat, q: nat)
    requires e <= 64 && q <= 2 * DOUBLE_EXPONENT
    ensures (e + 1022) * DOUBLE_EXPONENT + q < TWO_TO_THE_63
  {
  }

  lemma ExactSignificand(m: nat, e: nat)
    requires e <= 52
    ensures Rounded(m, e) * Pow2(e + 1022) == m * Pow2(1074)
  {
    hide Pow2;
    Pow2Sum(52 - e, e + 1022);
    Associate(m, Pow2(52 - e), Pow2(e + 1022));
  }

  lemma Associate(a: int, b: int, c: int)
    ensures a * b * c == a * (b * c)
  {
  }

  // ---- half and single precision to doubles ----

  lemma ScaledMagnitude(m: nat, e: int)
    requires m < 0x100_0000 && -200 <= e <= 200
    ensures Magnitude(Scaled(m, e)) == m * Pow2(e + 1074)
  {
    hide Pow2, Exponent;
    if m > 0 {
      ScaledValue(m, e);
      ScaledBounds(m);
      var bits, k := Scaled(m, e), 52 - Exponent(m);
      Parts(bits);
      Pow2Sum(k, e - k + 1074);
      Associate(m, Pow2(k), Pow2(e - k + 1074));
    } else {
      ZeroMagnitude();
    }
  }

  lemma Parts(bits: nat)
    requires bits / DOUBLE_EXPONENT > 0
    ensures Magnitude(bits) == DoubleSignificand(bits) * Pow2(DoubleScale(bits) + 1074)
  {
    hide Pow2;
  }

  /** A binary16 pattern keeps its value: by Appendix D of RFC 7049, ten bits of fraction behind five of
      exponent, of which the largest stands for infinity and NaN. */
  lemma HalfKeepsValue(half: nat)
    requires half < 0x1_0000
    ensures var exponent, fraction, d := half / 0x400 % 0x20, half % 0x400, HalfToDouble(half);
            && (d >= TWO_TO_THE_63 <==> half >= 0x8000)
            && (exponent == 0 ==> Magnitude(d % TWO_TO_THE_63) == fraction * Pow2(1074 - 24))
            && (0 < exponent < 0x1F ==>
                  Magnitude(d % TWO_TO_THE_63) == (0x400 + fraction) * Pow2(exponent - 15 + 1074 - 10))
            && (exponent == 0x1F && fraction == 0 ==> d % TWO_TO_THE_63 == 0x7FF0_0000_0000_0000)
            && (exponent == 0x1F && fraction > 0 ==> IsNaN(d))
  {
    hide Pow2, Magnitude, Scaled;
    var exponent, fraction := half / 0x400 % 0x20, half % 0x400;
    ScaledMagnitude(fraction, -24);
    if 0 < exponent < 0x1F {
      ScaledMagnitude(fraction + 0x400, exponent - 25);
    }
  }

  /** A binary32 pattern keeps its value: 23 bits of fraction behind eight of exponent. */
  lemma SingleKeepsValue(single: nat)
    requires single < 0x1_0000_0000
    ensures var exponent, fraction, d := single / 0x80_0000 % 0x100, single % 0x80_0000, SingleToDouble(single);
            && (d >= TWO_TO_THE_63 <==> single >= 0x8000_0000)
            && (exponent == 0 ==> Magnitude(d % TWO_TO_THE_63) == fraction * Pow2(1074 - 149))
            && (0 < exponent < 0xFF ==>
                  Magnitude(d % TWO_TO_THE_63) == (0x80_0000 + fraction) * Pow2(exponent - 127 + 1074 - 23))
            && (exponent == 0xFF && fraction == 0 ==> d % TWO_TO_THE_63 == 0x7FF0_0000_0000_0000)
            && (exponent == 0xFF && fraction > 0 ==> IsNaN(d))
  {
    hide Pow2, Magnitude, Scaled;
    var exponent, fraction := single / 0x80_0000 % 0x100, single % 0x80_0000;
    ScaledMagnitude(fraction, -149);
    if 0 < exponent < 0xFF {
      ScaledMagnitude(fraction + 0x80_0000, exponent - 150);
    }
  }
}

/** Bit patterns of floats widened to doubles, and how the table reader decodes a double. */
module FloatBits {
  import opened Bytes
  import opened Bits

  const FRACTION: nat := 0x80_0000    // 2^23: a float has 23 fraction bits
  const SPREAD: nat := 0x2000_0000    // 2^29: a double has 29 more

  /** Shifts a subnormal fraction m up to its leading bit, at most k times; each shift costs one exponent step. */
  function Normalize(m: nat, e: nat, k: nat): (r: (nat, nat))
    requires 0 < m < FRACTION && FRACTION <= m * Pow2(k) && k <= e
    ensures r.0 < FRACTION && e - k <= r.1 < e
    decreases k
  {
    assert k > 0;
    if 2 * m >= FRACTION then (2 * m - FRACTION, e - 1)
    else
      assert m * Pow2(k) == 2 * m * Pow2(k - 1);
      Normalize(2 * m, e - 1, k - 1)
  }

  /** Exponent and fraction of the double equal to the float of exponent e and fraction m. */
  function WidenMagnitude(e: nat, m: nat): (r: (nat, nat))
    requires e < 256 && m < FRACTION
    ensures r.0 < 2048 && r.1 < FRACTION
  {
    if e == 255 then (2047, if 0 < m < FRACTION / 2 then m + FRACTION / 2 else m)  // a NaN becomes quiet
    else if e > 0 then (e + 896, m)
    else if m == 0 then (0, 0)
    else
      assert m * Pow2(23) >= FRACTION by {
        Pow2At23();
      }
      var n := Normalize(m, 897, 23);
      (n.1, n.0)
  }

  lemma Pow2At23()
    ensures Pow2(23) == FRACTION
  {
    Pow2Bytes(2);
    Pow256Values();
    assert Pow2(18) == 4 * Pow2(16) && Pow2(20) == 4 * Pow2(18) && Pow2(22) == 4 * Pow2(20);
  }

  function Widen(f: uint32): (d: uint64) {
    var w := WidenMagnitude(f / FRACTION % 256, f % FRACTION);
    Units(f / (256 * FRACTION), w.0, w.1) * SPREAD
  }

  /** Sign, exponent and fraction put together, in units of the last bit a float can supply. */
  function Units(sign: nat, e: nat, m: nat): (u: nat)
    requires e < 2048 && m < FRACTION
    ensures sign < 2 ==> u < 4096 * FRACTION
    ensures u % 8 == m % 8
  {
    (2048 * sign + e) * FRACTION + m
  }

  /** The eight bytes are viewed through a float pointer: only the low half is used, and it is widened. */
  function ReadDouble(d: uint64): uint64 {
    Widen(d % TWO32)
  }

  lemma LowHalf(u: nat)
    ensures u * SPREAD % TWO32 == u % 8 * SPREAD
  {
    ModUnique(u * SPREAD, TWO32, u / 8, u % 8 * SPREAD);
  }

  /** A float whose low 29 bits are clear keeps no fraction when widened. */
  lemma NoFraction(j: nat)
    requires j < 8
    ensures j * SPREAD % FRACTION == 0
    ensures WidenMagnitude(j * SPREAD / FRACTION % 256, 0).1 == 0
  {
    assert j * SPREAD == 64 * j * FRACTION;
  }

  /** A double comes back as it was written exactly when it is positive zero. */
  lemma DoubleSurvivesIffZero(d: uint64)
    ensures ReadDouble(d) == d <==> d == 0
  {
    if ReadDouble(d) == d {
      var f := d % TWO32;
      var w := WidenMagnitude(f / FRACTION % 256, f % FRACTION);
      var u := Units(f / (256 * FRACTION), w.0, w.1);
      LowHalf(u);
      NoFraction(u % 8);
      assert f == 0;
    }
  }

  /** Different fractions normalise differently. */
  lemma {:induction false} NormalizeDiffers(m: nat, n: nat, e: nat, k: nat)
    requires 0 < m < n < FRACTION && FRACTION <= m * Pow2(k) && FRACTION <= n * Pow2(k) && k <= e
    ensures Normalize(m, e, k) != Normalize(n, e, k)
    decreases k
  {
    assert k > 0;
    if 2 * n < FRACTION {
      assert m * Pow2(k) == 2 * m * Pow2(k - 1) && n * Pow2(k) == 2 * n * Pow2(k - 1);
      NormalizeDiffers(2 * m, 2 * n, e - 1, k - 1);
    } else if 2 * m < FRACTION {
      assert m * Pow2(k) == 2 * m * Pow2(k - 1);
    }
  }

  lemma SubnormalDiffers(m: nat)
    requires m + 1 < FRACTION
    ensures WidenMagnitude(0, m) != WidenMagnitude(0, m + 1)
  {
    if m > 0 {
      Pow2At23();
      NormalizeDiffers(m, m + 1, 897, 23);
    }
  }

  lemma MagnitudeDiffers(e: nat, b: nat)
    requires e < 256 && 256 * b + 1 < FRACTION
    ensures WidenMagnitude(e, 256 * b) != WidenMagnitude(e, 256 * b + 1)
  {
    hide Normalize, Pow2;
    if e == 0 {
      SubnormalDiffers(256 * b);
    }
  }

  lemma UnitsDiffer(s: nat, e: nat, m: nat, f: nat, n: nat)
    requires e < 2048 && f < 2048 && m < FRACTION && n < FRACTION && (e, m) != (f, n)
    ensures Units(s, e, m) != Units(s, f, n)
  {
  }

  lemma WidenDiffers(b: nat)
    requires 256 * b + 1 < TWO32
    ensures Widen(256 * b) != Widen(256 * b + 1)
  {
    hide WidenMagnitude, Units;
    var f := 256 * b;
    var q, c := b / 0x8000, b % 0x8000;
    var s := q / 256;
    var m := 256 * c;
    ModUnique(f, FRACTION, q, m);
    ModUnique(f + 1, FRACTION, q, m + 1);
    ModUnique(f, 256 * FRACTION, s, q % 256 * FRACTION + m);
    ModUnique(f + 1, 256 * FRACTION, s, q % 256 * FRACTION + m + 1);
    MagnitudeDiffers(q % 256, c);
    var v, w := WidenMagnitude(q % 256, m), WidenMagnitude(q % 256, m + 1);
    UnitsDiffer(s, v.0, v.1, w.0, w.1);
  }

  /** The last byte of a double is not lost altogether: 0 and 1 there give different values. */
  lemma LastByteMatters(b: nat)
    requires 256 * b + 1 < TWO64
    ensures ReadDouble(256 * b) != ReadDouble(256 * b + 1)
  {
    hide Widen;
    var low, high := b % 0x100_0000, b / 0x100_0000;
    ModUnique(256 * b, TWO32, high, 256 * low);
    ModUnique(256 * b + 1, TWO32, high, 256 * low + 1);
    WidenDiffers(low);
  }

  /** Normalising multiplies by two as often as it lowers the exponent. */
  lemma {:induction false} NormalizeScales(m: nat, e: nat, k: nat)
    requires 0 < m < FRACTION && FRACTION <= m * Pow2(k) && k <= e
    ensures FRACTION + Normalize(m, e, k).0 == m * Pow2(e - Normalize(m, e, k).1)
    decreases k
  {
    assert k > 0;
    if 2 * m >= FRACTION {
      assert Pow2(1) == 2 * Pow2(0) == 2;
    } else {
      assert m * Pow2(k) == 2 * m * Pow2(k - 1);
      NormalizeScales(2 * m, e - 1, k - 1);
      var j := e - 1 - Normalize(2 * m, e - 1, k - 1).1;
      assert Pow2(j + 1) == 2 * Pow2(j) && 2 * m * Pow2(j) == m * (2 * Pow2(j));
    }
  }

  /** Sign, exponent and fraction of a double. */
  function Parts(d: uint64): (r: (nat, nat, nat)) {
    (d / 0x8000_0000_0000_0000, d / 0x10_0000_0000_0000 % 0x800, d % 0x10_0000_0000_0000)
  }

  lemma WidenParts(f: uint32)
    ensures var w := WidenMagnitude(f / 0x80_0000 % 256, f % 0x80_0000);
            Parts(Widen(f)) == (f / 0x8000_0000, w.0, w.1 * 0x2000_0000)
  {
    hide WidenMagnitude;
    var s := f / 0x8000_0000;
    var w := WidenMagnitude(f / 0x80_0000 % 256, f % 0x80_0000);
    var d := Widen(f);
    var high := 2048 * s + w.0;
    assert d == (high * FRACTION + w.1) * SPREAD;
    ModUnique(d, 0x10_0000_0000_0000, high, w.1 * 0x2000_0000);
    ModUnique(high, 0x800, s, w.0);
    ModUnique(d, 0x8000_0000_0000_0000, s, w.0 * 0x10_0000_0000_0000 + w.1 * 0x2000_0000);
  }

  lemma SubnormalScales(m: nat)
    requires 0 < m < FRACTION
    ensures var w := WidenMagnitude(0, m);
            0 < w.0 < 897 && FRACTION + w.1 == m * Pow2(897 - w.0)
  {
    Pow2At23();
    NormalizeScales(m, 897, 23);
  }

  lemma MagnitudeKeepsNumber(e: nat, m: nat)
    requires e < 256 && m < 0x80_0000
    ensures var w := WidenMagnitude(e, m);
            && (0 < e < 255 ==> w.0 - 1023 == e - 127 && w.1 == m)
            && (e == 0 && m == 0 ==> w.0 == 0 && w.1 == 0)
            && (e == 0 && m > 0 ==> 0 < w.0 < 897 && 0x80_0000 + w.1 == m * Pow2(897 - w.0))
            && (e == 255 ==> w.0 == 2047 && w.1 == if 0 < m < 0x40_0000 then m + 0x40_0000 else m)
  {
    if e == 0 && m > 0 {
      SubnormalScales(m);
    } else {
      hide Normalize, Pow2;
    }
  }

  /**
   * Widening keeps the sign and the number: a normal float has the same exponent less bias and the same fraction, a
   * subnormal one is scaled up to a leading bit, zero and infinity stay, and a NaN stays one, made quiet.
   */
  lemma WidenKeepsNumber(f: uint32)
    ensures var d := Parts(Widen(f));
            var e, m := f / 0x80_0000 % 256, f % 0x80_0000;
            && d.0 == f / 0x8000_0000
            && (0 < e < 255 ==> d.1 - 1023 == e - 127 && d.2 == m * 0x2000_0000)
            && (e == 0 && m == 0 ==> d.1 == 0 && d.2 == 0)
            && (e == 0 && m > 0 ==>
                  0 < d.1 < 897 && 0x10_0000_0000_0000 + d.2 == m * Pow2(897 - d.1) * 0x2000_0000)
            && (e == 255 ==>
                  d.1 == 2047 && d.2 == (if 0 < m < 0x40_0000 then m + 0x40_0000 else m) * 0x2000_0000)
  {
    hide Widen, WidenMagnitude, Pow2, Parts;
    var e, m := f / 0x80_0000 % 256, f % 0x80_0000;
    WidenParts(f);
    MagnitudeKeepsNumber(e, m);
  }
}

/** next.c: the neighbours of a nonzero finite number, away from zero and toward
    zero.  The exponent range is the extended one in which the library works
    internally, so its ends are not met. */
module Next {
  import opened Powers
  import opened RealPowers
  import opened Limbs
  import opened Rounding
  import opened Range
  import opened Numbers
  import opened Exceptions
  import opened Significands

  /** mpfr_nexttoinf. */
  method NextToInf(x: Mpfr)
    requires x.IsPureFp()
    modifies x`exp, x.mant
    ensures x.IsPureFp()
    ensures Sig(x.mant[..], x.prec) == NormSig(x.prec, Sig(old(x.mant[..]), x.prec) + 1)
    ensures x.exp == NormExp(x.prec, Sig(old(x.mant[..]), x.prec) + 1, old(x.exp))
  {
    hide Val, Normalized, Sig, NormSig, NormExp;
    var xp, p := x.mant, x.prec;
    ghost var m := Sig(xp[..], p);
    PureIsHolding(xp[..], p);
    var e := AddOneUlp(xp, p, x.exp, m);
    HoldingIsNormalized(xp[..], p, NormSig(p, m + 1));
    x.exp := e;
  }

  /** The significand and the exponent of the next float toward zero. */
  function BelowSig(p: nat, m: int): int
    requires p >= 1
  {
    if m == Pow2(p - 1) then Pow2(p) - 1 else m - 1
  }

  function BelowExp(p: nat, m: int, e: int): int
    requires p >= 1
  {
    if m == Pow2(p - 1) then e - 1 else e
  }

  /** mpfr_nexttozero. */
  method NextToZero(x: Mpfr)
    requires x.IsPureFp()
    modifies x`exp, x.mant
    ensures x.IsPureFp()
    ensures Sig(x.mant[..], x.prec) == BelowSig(x.prec, Sig(old(x.mant[..]), x.prec))
    ensures x.exp == BelowExp(x.prec, Sig(old(x.mant[..]), x.prec), old(x.exp))
  {
    hide Val, Normalized, Sig, Pow2, BP;
    var xp, p := x.mant, x.prec;
    var n, sh := xp.Length, Unused(p);
    ghost var m := Sig(xp[..], p);
    PureIsHolding(xp[..], p);
    LimbsOfPrecision(p);
    assert xp[0..n] == xp[..];
    ghost var v := Val(xp[..]);
    var cy := MpnSub1(xp, 0, n, Pow2(sh));
    assert xp[0..n] == xp[..];
    ValBound(xp[..]);
    UlpBorrow(v, Val(xp[..]), cy, m, Pow2(p), Pow2(p - 1), Pow2(sh));
    HighLimb(xp[..]);
    ghost var s := xp[..];
    if xp[n - 1] < HALF {
      x.exp := x.exp - 1;
      SetLimb(s, n - 1, s[n - 1] + HALF);
      xp[n - 1] := xp[n - 1] + HALF;
      assert xp[..] == s[n - 1 := s[n - 1] + HALF];
      Pow2Step(p - 1);
      Distrib(m - 1, Pow2(p - 1), Pow2(sh));
      Pow2Step(p - 1);
      assert Holding(xp[..], p, Pow2(p) - 1);
      HoldingIsNormalized(xp[..], p, Pow2(p) - 1);
    } else {
      HoldingIsNormalized(xp[..], p, m - 1);
    }
  }

  lemma PureIsHolding(s: seq<limb>, p: nat)
    requires Normalized(s, p)
    ensures Holding(s, p, Sig(s, p))
  {
    hide Val, Pow2;
    NormalizedValue(s, p);
  }

  lemma UlpBorrow(v: int, v': int, cy: int, m: int, hi: int, lo: int, d: int)
    requires d >= 1 && 0 <= cy <= 1 && 1 <= lo <= m < hi && 0 <= v' < hi * d
    requires v == m * d && v' == v - d + cy * (hi * d)
    ensures v' == (m - 1) * d
    ensures v' >= lo * d <==> m > lo
  {
    Distrib(m, -1, d);
    MulMono(0, m - 1, d);
    if m > lo { MulMono(lo, m - 1, d); } else { MulStrict(m - 1, lo, d); }
  }

  /** No float of the precision lies between a float and the one that
      mpfr_nexttozero yields, and mpfr_nexttoinf leads back. */
  lemma NothingBetween(p: nat, m: int, e: int, m': int, e': int)
    requires IsSignificand(p, m) && IsSignificand(p, m')
    ensures var b, be := BelowSig(p, m), BelowExp(p, m, e);
            && IsSignificand(p, b) && FloatValue(p, b, be) < FloatValue(p, m, e)
            && NormSig(p, b + 1) == m && NormExp(p, b + 1, be) == e
            && (FloatValue(p, m', e') <= FloatValue(p, b, be) || FloatValue(p, m', e') >= FloatValue(p, m, e))
  {
    hide R2, Pow2, FloatValue, BelowSig, BelowExp, NormSig, NormExp;
    var b, be := BelowSig(p, m), BelowExp(p, m, e);
    BelowFacts(p, m, e);
    NormValue(p, b + 1, be);
    Unfold(p, b, be);
    var z := OtherFloat(p, be, m', e');
    Sides(z, m', b, Pow2(p - 1), Pow2(p));
    OrderInUnits(z, b, R2(be - p), FloatValue(p, b, be), FloatValue(p, m, e), FloatValue(p, m', e'));
  }

  lemma BelowFacts(p: nat, m: int, e: int)
    requires IsSignificand(p, m)
    ensures var b, be := BelowSig(p, m), BelowExp(p, m, e);
            IsSignificand(p, b) && NormSig(p, b + 1) == m && NormExp(p, b + 1, be) == e
  {
    hide Pow2;
    Pow2Step(p - 1);
  }

  lemma OrderInUnits(z: real, b: int, u: real, fb: real, fm: real, fz: real)
    requires u > 0.0 && (z <= b as real || z >= (b + 1) as real)
    requires fb == b as real * u && fm == (b + 1) as real * u && fz == z * u
    ensures fb < fm && (fz <= fb || fz >= fm)
  {
    RealMono(z, b as real, u);
    RealMono((b + 1) as real, z, u);
    RealMono((b + 1) as real, b as real, u);
  }

  lemma Sides(z: real, m: int, b: int, lo: int, hi: int)
    requires z == m as real || z >= hi as real || z < lo as real
    requires lo <= b < hi
    ensures z <= b as real || z >= (b + 1) as real
  {
    if m <= b {
      assert m as real <= b as real;
    } else {
      assert (b + 1) as real <= m as real;
    }
    assert lo as real <= b as real && (b + 1) as real <= hi as real;
  }

  lemma Unfold(p: nat, m: int, e: int)
    ensures FloatValue(p, m, e) == m as real * R2(e - p)
  {}
}

/** MPFR numbers as objects whose significand is an array of limbs, the global
    exponent range and flags, and the functions that deliver a result outside
    the range. */
module Numbers {
  import opened Powers
  import opened RealPowers
  import opened Limbs
  import opened Rounding
  import opened Range

  /** MPFR_PREC2LIMBS. */
  function LimbCount(p: nat): nat { (p + 63) / 64 }

  /** The number of low bits of the least significant limb that are not part of
      a significand of precision p. */
  function Unused(p: nat): (sh: nat)
    ensures sh < 64
  {
    64 * LimbCount(p) - p
  }

  /** A normalized significand: its high bit is set, its unused bits are zero. */
  predicate Normalized(s: seq<limb>, p: nat) {
    p >= 1 && |s| == LimbCount(p) && s[|s| - 1] >= HALF && s[0] % Pow2(Unused(p)) == 0
  }

  /** The p-bit significand as an integer. */
  function Sig(s: seq<limb>, p: nat): int { Val(s) / Pow2(Unused(p)) }

  /** The limbs as a binary fraction. */
  function Frac(s: seq<limb>): real { Val(s) as real / BP(|s|) as real }

  lemma LimbsOfPrecision(p: nat)
    requires p >= 1
    ensures LimbCount(p) >= 1
    ensures BP(LimbCount(p)) == Pow2(p) * Pow2(Unused(p))
    ensures HALF * BP(LimbCount(p) - 1) == Pow2(p - 1) * Pow2(Unused(p))
    ensures Pow2(Unused(p)) <= HALF
  {
    var n, sh := LimbCount(p), Unused(p);
    BPPow2(n);
    BPPow2(n - 1);
    Pow2Add(p, sh);
    Pow2Add(p - 1, sh);
    Pow2Add(63, 64 * (n - 1));
    Pow2Limb();
    Pow2Mono(sh, 63);
  }

  /** The lowest limb decides divisibility by 2^sh. */
  lemma LowLimb(s: seq<limb>, sh: nat)
    requires |s| >= 1 && sh <= 64
    ensures Val(s) % Pow2(sh) == s[0] % Pow2(sh)
  {
    hide Pow2;
    Pow2Limb();
    Pow2Add(sh, 64 - sh);
    MulComm(Pow2(sh), Pow2(64 - sh));
    var v, k := Val(s[1..]), Pow2(64 - sh);
    assert B * v == (v * k) * Pow2(sh) by {
      MulComm(B, v);
      MulAssoc(v, k, Pow2(sh));
    }
    ModAddMultiple(s[0], Pow2(sh), v * k);
  }

  lemma HighLimb(s: seq<limb>)
    requires |s| >= 1
    ensures s[|s| - 1] >= HALF <==> Val(s) >= HALF * BP(|s| - 1)
  {
    var n := |s|;
    ValTake(s, n - 1);
    assert s[..n] == s;
    ValBound(s[..n - 1]);
    if s[n - 1] >= HALF {
      MulMono(HALF, s[n - 1], BP(n - 1));
    } else {
      MulMono(s[n - 1], HALF - 1, BP(n - 1));
      Distrib(HALF, -1, BP(n - 1));
    }
  }

  /** Normalization, seen on the integer. */
  lemma NormalizedValue(s: seq<limb>, p: nat)
    requires p >= 1 && |s| == LimbCount(p)
    ensures Normalized(s, p) <==> Val(s) % Pow2(Unused(p)) == 0 && IsSignificand(p, Sig(s, p))
    ensures Normalized(s, p) ==> Val(s) == Sig(s, p) * Pow2(Unused(p))
  {
    hide Pow2, BP;
    LimbsOfPrecision(p);
    LowLimb(s, Unused(p));
    HighLimb(s);
    ValBound(s);
    ScaledBounds(Val(s), Pow2(p - 1), Pow2(p), Pow2(Unused(p)));
  }

  lemma ScaledBounds(v: int, lo: int, hi: int, d: int)
    requires d >= 1 && 0 <= v < hi * d
    ensures v % d == 0 ==> v == v / d * d
    ensures v / d < hi
    ensures v / d >= lo <==> v >= lo * d
  {
    MulComm(hi, d);
    DivMulLt(v, d, hi);
    MulComm(v / d, d);
    if v / d >= lo { MulMono(lo, v / d, d); }
    if v / d < lo { MulMono(v / d + 1, lo, d); Distrib(v / d, 1, d); }
  }

  /** The two readings of a normalized significand agree. */
  lemma FracIsFloat(s: seq<limb>, p: nat, e: int)
    requires Normalized(s, p)
    ensures FloatValue(p, Sig(s, p), e) == Frac(s) * R2(e)
    ensures 0.5 <= Frac(s) < 1.0
  {
    hide Pow2, BP, R2, Val;
    NormalizedValue(s, p);
    LimbsOfPrecision(p);
    PowerProduct(p, e);
    ScaleFraction(Val(s), Sig(s, p), Pow2(p), Pow2(Unused(p)), R2(e - p), R2(e));
    Pow2Step(p - 1);
    HalfOne(Sig(s, p), Pow2(p - 1), Pow2(p));
  }

  lemma ScaleFraction(v: int, m: int, a: int, d: int, u: real, w: real)
    requires a >= 1 && d >= 1 && v == m * d && a as real * u == w
    ensures a * d >= 1
    ensures v as real / (a * d) as real == m as real / a as real
    ensures m as real * u == (v as real / (a * d) as real) * w
  {
    MulMono(1, a, d);
    var f := m as real / a as real;
    assert (a * d) as real == a as real * d as real;
    assert v as real == m as real * d as real;
    assert m as real == f * a as real;
    FractionTimes(v as real, f, a as real, d as real);
    RealSwap(f, a as real, u);
    RealComm(a as real, u);
  }

  lemma FractionTimes(v: real, f: real, a: real, d: real)
    requires a > 0.0 && d > 0.0 && v == (f * a) * d
    ensures a * d > 0.0
    ensures v / (a * d) == f
  {}

  lemma HalfOne(m: int, lo: int, hi: int)
    requires 1 <= lo <= m < hi == 2 * lo
    ensures 0.5 <= m as real / hi as real < 1.0
  {
    RealQuotient(m as real, hi as real);
  }

  lemma RealQuotient(x: real, y: real)
    requires y > 0.0
    ensures x < y ==> x / y < 1.0
    ensures x >= 0.5 * y ==> x / y >= 0.5
  {}

  lemma NormalizedTop(s: seq<limb>, p: nat)
    requires Normalized(s, p)
    ensures |s| > 0 && s[|s| - 1] >= HALF && Val(s) > 0
  {
    hide Val, BP;
    HighLimb(s);
    MulMono(1, BP(|s| - 1), HALF);
    MulComm(HALF, BP(|s| - 1));
  }

  lemma BitsOf(s: seq<limb>, p: nat, e: int)
    requires Normalized(s, p)
    ensures Frac(s) * R2(e) == Sig(s, p) as real * R2(e - p)
  {
    hide R2, Frac, Pow2, Normalized, Sig;
    FracIsFloat(s, p, e);
  }

  /** The number of bits is the only precision for which m is a significand. */
  lemma SizeOfSignificand(p: nat, m: int)
    requires IsSignificand(p, m)
    ensures SizeInBase2(m) == p
  {
    hide Pow2;
    SizeBounds(m);
    if p < SizeInBase2(m) { Pow2Mono(p, SizeInBase2(m) - 1); }
    if SizeInBase2(m) < p { Pow2Mono(SizeInBase2(m), p - 1); }
  }

  /** count_leading_zeros. */
  method CountLeadingZeros(x: limb) returns (z: nat)
    requires x != 0
    ensures z <= 63 && Pow2(63 - z) <= x < Pow2(64 - z)
  {
    hide Pow2;
    Pow2Limb();
    z := 0;
    while x < Pow2(63 - z)
      invariant z <= 63 && x < Pow2(64 - z)
      decreases 63 - z
    {
      if z == 63 { Pow2Zero(); }
      z := z + 1;
      Pow2Step(63 - z);
    }
  }

  lemma {:induction false} SizeBounds(m: nat)
    requires m > 0
    ensures SizeInBase2(m) >= 1 && IsSignificand(SizeInBase2(m), m)
  {
    hide Pow2;
    if m == 1 {
      Pow2Zero();
      Pow2Two();
      assert SizeInBase2(1) == 1;
    } else {
      SizeBounds(m / 2);
      Pow2Step(SizeInBase2(m / 2) - 1);
      Pow2Step(SizeInBase2(m / 2));
    }
  }
}

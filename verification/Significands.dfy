/** The significand of a destination while it is being rounded: an integer A in
    units in the last place, held in the upper bits of an array of limbs. */
module Significands {
  import opened Powers
  import opened Limbs
  import opened Rounding
  import opened Numbers

  /** The significand held in ap. */
  ghost predicate Holding(s: seq<limb>, p: nat, au: int) {
    p >= 1 && |s| == LimbCount(p) && Val(s) == au * Pow2(Unused(p)) && IsSignificand(p, au)
  }

  lemma HoldingRange(s: seq<limb>, p: nat, au: int)
    ensures Holding(s, p, au) ==> au < Pow2(p)
  {}

  lemma HoldingIsNormalized(s: seq<limb>, p: nat, au: int)
    requires Holding(s, p, au)
    ensures Normalized(s, p) && Sig(s, p) == au
  {
    hide Val, BP, Pow2;
    ModSmall(au * Pow2(Unused(p)), Pow2(Unused(p)), au);
    NormalizedValue(s, p);
  }

  /** The least significant bit of A. */
  lemma ParityOfA(s: seq<limb>, p: nat, au: int)
    requires Holding(s, p, au)
    ensures s[0] / Pow2(Unused(p)) % 2 == au % 2
  {
    hide Val, BP, Pow2;
    var sh := Unused(p);
    LowLimb(s, sh + 1);
    Pow2Step(sh);
    LowBit(s[0], Pow2(sh));
    LowBit(Val(s), Pow2(sh));
    ModSmall(au * Pow2(sh), Pow2(sh), au);
  }

  /** ap[an - 1] <- MPFR_LIMB_HIGHBIT when all limbs are zero. */
  method SetHighBit(ap: array<limb>, p: nat)
    requires p >= 1 && ap.Length == LimbCount(p) && Val(ap[..]) == 0
    modifies ap
    ensures Holding(ap[..], p, Pow2(p - 1))
  {
    hide Val, BP, Pow2;
    LimbsOfPrecision(p);
    ValZeros(ap[..]);
    ap[ap.Length - 1] := HALF;
    TopOnly(ap[..]);
    Pow2Step(p - 1);
  }

  lemma UlpCarry(v: int, v': int, cy: int, au: int, hi: int, d: int)
    requires d >= 1 && 0 <= cy <= 1 && 0 <= v' < hi * d && au < hi
    requires v == au * d && v' + cy * (hi * d) == v + d
    ensures cy == 0 ==> v' == (au + 1) * d && au + 1 < hi
    ensures cy == 1 ==> v' == 0 && au + 1 == hi
  {
    Distrib(au, 1, d);
    if cy == 0 {
      if au + 1 >= hi { MulMono(hi, au + 1, d); }
    } else {
      if au + 1 < hi { MulStrict(au + 1, hi, d); }
    }
  }

  lemma LimbCountPositive(p: nat)
    requires p >= 1
    ensures LimbCount(p) >= 1
  {}

  /** add_one_ulp. */
  method AddOneUlp(q0p: array<limb>, p: nat, qexp0: int, ghost au: int) returns (qexp: int)
    requires Holding(q0p[..], p, au)
    modifies q0p
    ensures Holding(q0p[..], p, NormSig(p, au + 1)) && qexp == NormExp(p, au + 1, qexp0)
  {
    hide Val, BP, Pow2;
    qexp := qexp0;
    ghost var v := Val(q0p[..]);
    LimbsOfPrecision(p);
    assert q0p[0..q0p.Length] == q0p[..];
    var cy := MpnAdd1(q0p, 0, q0p.Length, Pow2(Unused(p)));
    assert q0p[0..q0p.Length] == q0p[..];
    ValBound(q0p[..]);
    UlpCarry(v, Val(q0p[..]), cy, au, Pow2(p), Pow2(Unused(p)));
    if cy != 0 {
      qexp := qexp + 1;
      SetHighBit(q0p, p);
    }
  }

  /** The bits below A are cleared. */
  method ClearLow(ap: array<limb>, p: nat, bb: nat, ghost au: int)
    requires ap.Length == LimbCount(p) >= 1 && p >= 1 && IsSignificand(p, au)
    requires bb <= ap[0] && Val(ap[..]) == au * Pow2(Unused(p)) + bb
    modifies ap
    ensures Holding(ap[..], p, au)
  {
    hide Val, BP, Pow2, IsSignificand;
    ghost var s := ap[..];
    SetLimb(s, 0, ap[0] - bb);
    BPZero();
    ap[0] := ap[0] - bb;
    assert ap[..] == s[0 := s[0] - bb];
  }
}

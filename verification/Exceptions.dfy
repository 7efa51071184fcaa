/** MPFR objects, the global exponent range and flags, and exceptions.c: the
    delivery of results that leave the range. */
module Exceptions {
  import opened Powers
  import opened RealPowers
  import opened Limbs
  import opened Rounding
  import opened Range
  import opened Numbers
  import opened SignedRounding

  datatype Kind = NaN | Inf | ZeroKind | Regular

  /** __gmpfr_emin, __gmpfr_emax and the bits of __gmpfr_flags used here. */
  class Env {
    var emin: int
    var emax: int
    var inexact: bool
    var underflow: bool
    var overflow: bool

    constructor (emin: int, emax: int)
      ensures this.emin == emin && this.emax == emax
      ensures !inexact && !underflow && !overflow
    {
      this.emin, this.emax := emin, emax;
      inexact, underflow, overflow := false, false, false;
    }
  }

  /** A number: the precision and the limbs allocated for it are fixed. */
  class Mpfr {
    const prec: nat
    const mant: array<limb>
    var neg: bool
    var kind: Kind
    var exp: int

    constructor (p: nat)
      requires p >= 1
      ensures prec == p && kind == NaN && Shape() && fresh(mant)
    {
      prec := p;
      mant := new limb[LimbCount(p)](_ => 0);
      kind := NaN;
      neg, exp := false, 0;
    }

    ghost predicate Shape() {
      prec >= 1 && mant.Length == LimbCount(prec)
    }

    /** A nonzero finite number. */
    ghost predicate IsPureFp()
      reads this, mant
    {
      Shape() && kind == Regular && Normalized(mant[..], prec)
    }

    /** The absolute value of a nonzero finite number. */
    ghost function Magnitude(): real
      reads this, mant
    {
      Frac(mant[..]) * R2(exp)
    }

    ghost predicate Holds(o: Outcome)
      reads this, mant
    {
      match o
      case Zero => Shape() && kind == ZeroKind
      case Infinite => Shape() && kind == Inf
      case Finite(m, e) => IsPureFp() && exp == e && Sig(mant[..], prec) == m
    }
  }

  /** The ternary value of a signed result, from that of its magnitude. */
  function Signed(t: int, neg: bool): int { if neg then -t else t }

  /** mpfr_setmax and mpfr_setmin write these significands. */
  method SetSignificand(x: Mpfr, m: int)
    requires x.Shape() && IsSignificand(x.prec, m)
    modifies x.mant
    ensures Normalized(x.mant[..], x.prec) && Sig(x.mant[..], x.prec) == m
  {
    var n, sh := LimbCount(x.prec), Unused(x.prec);
    LimbsOfPrecision(x.prec);
    MulStrict(m, Pow2(x.prec), Pow2(sh));
    MulMono(0, m, Pow2(sh));
    Store(x.mant, 0, n, m * Pow2(sh));
    assert x.mant[0..n] == x.mant[..];
    ModSmall(m * Pow2(sh), Pow2(sh), m);
    NormalizedValue(x.mant[..], x.prec);
  }

  /** mpfr_overflow: what every number of this sign that is too large is rounded to. */
  method Overflow(env: Env, x: Mpfr, rnd: Mode, neg: bool) returns (inex: int)
    requires x.Shape()
    modifies x, x.mant, env`inexact, env`overflow
    ensures x.neg == neg
    ensures var (o, r) := OverflowOutcome(x.prec, DirectionOf(rnd, neg), env.emax);
            && x.Holds(o) && inex == Signed(r, neg)
            && forall s :: neg == (s < 0.0) && s != 0.0 && env.emin <= env.emax && TooLarge(s, x.prec, rnd, env.emax) ==>
                 CorrectSigned(s, x.prec, rnd, env.emin, env.emax, neg, o, inex)
    ensures env.inexact && env.overflow
  {
    if DirectionOf(rnd, neg) == TowardZero {
      MaxIsFloat(x.prec);
      SetSignificand(x, Pow2(x.prec) - 1);
      x.kind, x.exp := Regular, env.emax;
      inex := -1;
    } else {
      x.kind := Inf;
      inex := 1;
    }
    x.neg := neg;
    env.inexact, env.overflow := true, true;
    inex := Signed(inex, neg);
    forall s | neg == (s < 0.0) && s != 0.0 && env.emin <= env.emax && TooLarge(s, x.prec, rnd, env.emax)
      ensures CorrectSigned(s, x.prec, rnd, env.emin, env.emax, neg, OverflowOutcome(x.prec, DirectionOf(rnd, neg), env.emax).0, inex)
    {
      OverflowDelivers(s, x.prec, rnd, neg, env.emin, env.emax, inex);
    }
  }

  lemma OverflowDelivers(s: real, p: nat, rnd: Mode, neg: bool, emin: int, emax: int, inex: int)
    requires p >= 1 && neg == (s < 0.0) && s != 0.0 && emin <= emax && TooLarge(s, p, rnd, emax)
    requires inex == Signed(OverflowOutcome(p, DirectionOf(rnd, neg), emax).1, neg)
    ensures CorrectSigned(s, p, rnd, emin, emax, neg, OverflowOutcome(p, DirectionOf(rnd, neg), emax).0, inex)
  {
    hide R2, Pow2, CorrectSigned, CorrectlyRounded, CorrectInRange, RoundedSigned, OverflowOutcome;
    var neg', m, e, t :| RoundedSigned(s, p, rnd, neg', m, e, t) && e > emax;
    SignOf(s, p, rnd, neg', m, e, t);
    var x := Abs(s);
    RoundedMeans(x, p, rnd, neg, m, e, t);
    OverflowCorrect(x, p, DirectionOf(rnd, neg), m, e, Signed(t, neg), emin, emax);
    SignedTwice(OverflowOutcome(p, DirectionOf(rnd, neg), emax).1, neg);
    SignedMeans(x, p, rnd, neg, emin, emax, OverflowOutcome(p, DirectionOf(rnd, neg), emax).0, inex);
  }

  /** The numbers too small for the range that mpfr_underflow rounds correctly: in
      rounding to nearest, those above 2^(emin-2). */
  ghost predicate ForUnderflow(s: real, p: nat, rnd: Mode, emin: int) {
    s != 0.0 && TooSmall(s, p, rnd, emin) && (rnd == RNDN ==> Abs(s) > R2(emin - 2))
  }

  /** mpfr_underflow. */
  method Underflow(env: Env, x: Mpfr, rnd: Mode, neg: bool) returns (inex: int)
    requires x.Shape()
    modifies x, x.mant, env`inexact, env`underflow
    ensures x.neg == neg
    ensures var (o, r) := UnderflowOutcome(x.prec, DirectionOf(rnd, neg), env.emin);
            && x.Holds(o) && inex == Signed(r, neg)
            && forall s :: neg == (s < 0.0) && env.emin <= env.emax && ForUnderflow(s, x.prec, rnd, env.emin) ==>
                 CorrectSigned(s, x.prec, rnd, env.emin, env.emax, neg, o, inex)
    ensures env.inexact && env.underflow
  {
    if DirectionOf(rnd, neg) == TowardZero {
      x.kind := ZeroKind;
      inex := -1;
    } else {
      MaxIsFloat(x.prec);
      SetSignificand(x, Pow2(x.prec - 1));
      x.kind, x.exp := Regular, env.emin;
      inex := 1;
    }
    x.neg := neg;
    env.inexact, env.underflow := true, true;
    inex := Signed(inex, neg);
    forall s | neg == (s < 0.0) && env.emin <= env.emax && ForUnderflow(s, x.prec, rnd, env.emin)
      ensures CorrectSigned(s, x.prec, rnd, env.emin, env.emax, neg, UnderflowOutcome(x.prec, DirectionOf(rnd, neg), env.emin).0, inex)
    {
      UnderflowDelivers(s, x.prec, rnd, neg, env.emin, env.emax, inex);
    }
  }

  lemma UnderflowDelivers(s: real, p: nat, rnd: Mode, neg: bool, emin: int, emax: int, inex: int)
    requires p >= 1 && neg == (s < 0.0) && emin <= emax && ForUnderflow(s, p, rnd, emin)
    requires inex == Signed(UnderflowOutcome(p, DirectionOf(rnd, neg), emin).1, neg)
    ensures CorrectSigned(s, p, rnd, emin, emax, neg, UnderflowOutcome(p, DirectionOf(rnd, neg), emin).0, inex)
  {
    hide R2, Pow2, CorrectSigned, CorrectlyRounded, CorrectInRange, RoundedSigned, UnderflowOutcome;
    var neg', m, e, t :| RoundedSigned(s, p, rnd, neg', m, e, t) && e < emin;
    SignOf(s, p, rnd, neg', m, e, t);
    var x, d := Abs(s), DirectionOf(rnd, neg);
    RoundedMeans(x, p, rnd, neg, m, e, t);
    if rnd == RNDN { HalfwayDecision(x, p, m, e, Signed(t, neg), emin); }
    UnderflowCorrect(x, p, d, m, e, Signed(t, neg), emin, emax);
    SignedTwice(UnderflowOutcome(p, d, emin).1, neg);
    SignedMeans(x, p, rnd, neg, emin, emax, UnderflowOutcome(p, d, emin).0, inex);
  }

  /** mpfr_powerof2_raw. */
  method PowerOf2Raw(x: Mpfr) returns (r: bool)
    requires x.IsPureFp()
    ensures r <==> Sig(x.mant[..], x.prec) == Pow2(x.prec - 1)
  {
    var n := x.mant.Length;
    ghost var s := x.mant[..];
    PowerOf2Limbs(s, x.prec);
    if x.mant[n - 1] != HALF { return false; }
    var i := n - 1;
    while i > 0
      invariant 0 <= i < n
      invariant forall j :: i <= j < n - 1 ==> s[j] == 0
    {
      i := i - 1;
      if x.mant[i] != 0 { return false; }
    }
    return true;
  }

  lemma PowerOf2Limbs(s: seq<limb>, p: nat)
    requires Normalized(s, p)
    ensures Sig(s, p) == Pow2(p - 1) <==> s[|s| - 1] == HALF && forall j :: 0 <= j < |s| - 1 ==> s[j] == 0
  {
    hide Pow2, BP;
    var n, d := |s|, Pow2(Unused(p));
    NormalizedValue(s, p);
    LimbsOfPrecision(p);
    ValTake(s, n - 1);
    assert s[..n] == s;
    ValZeros(s[..n - 1]);
    ValBound(s[..n - 1]);
    if Val(s) == HALF * BP(n - 1) {
      if s[n - 1] > HALF { MulMono(HALF + 1, s[n - 1], BP(n - 1)); }
      assert forall j :: 0 <= j < n - 1 ==> s[j] == s[..n - 1][j];
    }
    if s[n - 1] == HALF && forall j :: 0 <= j < n - 1 ==> s[j] == 0 {
      assert Val(s) == HALF * BP(n - 1);
    }
    MulEq(Sig(s, p), Pow2(p - 1), d);
  }

  lemma MulEq(x: int, y: int, d: int)
    requires d >= 1
    ensures x == y <==> x * d == y * d
  {
    if x < y { MulStrict(x, y, d); }
    if y < x { MulStrict(y, x, d); }
  }

  /** mpfr_check_range: x holds a result correct with unbounded exponents and t
      is its ternary value.  (An infinity that is already inexact only gets its
      flag.) */
  method CheckRange(env: Env, x: Mpfr, t: int, rnd: Mode) returns (inex: int)
    requires x.kind == Regular ==> x.IsPureFp()
    requires x.Shape() && env.emin <= env.emax
    modifies x, x.mant, env`inexact, env`overflow, env`underflow
    ensures x.neg == old(x.neg)
    ensures old(x.kind) == Regular ==>
              var (o, r) := RangeOutcome(x.prec, DirectionOf(rnd, x.neg), Sig(old(x.mant[..]), x.prec), old(x.exp),
                                         Signed(t, x.neg), env.emin, env.emax);
              && x.Holds(o) && inex == Signed(r, x.neg)
              && forall s :: s != 0.0 && RoundedSigned(s, x.prec, rnd, x.neg, Sig(old(x.mant[..]), x.prec), old(x.exp), t) ==>
                   CorrectSigned(s, x.prec, rnd, env.emin, env.emax, x.neg, o, inex)
    ensures old(x.kind) != Regular ==> inex == t && x.kind == old(x.kind)
    ensures env.underflow == (old(env.underflow) || (old(x.kind) == Regular && old(x.exp) < env.emin))
    ensures env.overflow == (old(env.overflow) || (old(x.kind) == Regular && old(x.exp) > env.emax)
                             || (old(x.kind) == Inf && t != 0))
    ensures env.inexact == (old(env.inexact) || inex != 0)
  {
    if x.kind == Regular {
      var exp := x.exp;
      RangeDelivers(x.prec, rnd, x.neg, Sig(x.mant[..], x.prec), exp, t, env.emin, env.emax);
      if exp < env.emin {
        var mode := rnd;
        var pow := PowerOf2Raw(x);
        if rnd == RNDN && (exp + 1 < env.emin || (pow && (if x.neg then t <= 0 else t >= 0))) {
          mode := RNDZ;
        }
        inex := Underflow(env, x, mode, x.neg);
        return;
      }
      if exp > env.emax {
        inex := Overflow(env, x, rnd, x.neg);
        return;
      }
    } else if t != 0 && x.kind == Inf {
      env.overflow := true;
    }
    if t != 0 { env.inexact := true; }
    inex := t;
  }

  /** From the rounding of any number with unbounded exponents the check of the range
      makes the one correct rounding into the range. */
  lemma RangeDelivers(p: nat, rnd: Mode, neg: bool, m: int, e: int, t: int, emin: int, emax: int)
    requires p >= 1 && emin <= emax
    ensures var (o, r) := RangeOutcome(p, DirectionOf(rnd, neg), m, e, Signed(t, neg), emin, emax);
            forall s :: s != 0.0 && RoundedSigned(s, p, rnd, neg, m, e, t) ==>
              CorrectSigned(s, p, rnd, emin, emax, neg, o, Signed(r, neg))
  {
    hide R2, Pow2, CorrectSigned, CorrectlyRounded, CorrectInRange, RoundedSigned, RangeOutcome;
    var a := RangeOutcome(p, DirectionOf(rnd, neg), m, e, Signed(t, neg), emin, emax);
    forall s | s != 0.0 && RoundedSigned(s, p, rnd, neg, m, e, t)
      ensures CorrectSigned(s, p, rnd, emin, emax, neg, a.0, Signed(a.1, neg))
    {
      SignOf(s, p, rnd, neg, m, e, t);
      RoundedMeans(Abs(s), p, rnd, neg, m, e, t);
      CheckRangeCorrect(Abs(s), p, DirectionOf(rnd, neg), m, e, Signed(t, neg), emin, emax);
      SignedTwice(a.1, neg);
      SignedMeans(Abs(s), p, rnd, neg, emin, emax, a.0, Signed(a.1, neg));
    }
  }

  lemma SignedTwice(t: int, neg: bool)
    ensures Signed(Signed(t, neg), neg) == t
  {}
}

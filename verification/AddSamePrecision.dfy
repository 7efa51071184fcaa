/** mpfr_add1sp, which chooses among its fast paths and the generic addition, the
    one-limb path extracted from the F* development, and the version that checks
    mpfr_add1sp against mpfr_add1. */
module AddSamePrecision {
  import opened Powers
  import opened RealPowers
  import opened Limbs
  import opened Rounding
  import opened Range
  import opened Numbers
  import opened Exceptions
  import opened SignedRounding
  import opened SameSum
  import F = Add1spFast
  import G = Add1sp
  import Add1

  // ---- the extracted path ---------------------------------------------------------

  /** MPFR_Add1sp1_state; the sticky word matters only for being zero or not. */
  datatype State = State(sh: nat, bx: int, rb: limb, sb: bool)

  /** add1sp1_extracted.c:101-177, and once more 178-255 with b and c exchanged. */
  method LargerFirst(ap: array<limb>, bp: limb, cp: limb, bx: int, d: nat, p: nat, ghost b: seq<limb>, ghost c: seq<limb>)
    returns (st: State, ghost k: nat)
    requires Normalized(b, p) && Normalized(c, p) && p < 64 && ap.Length == 1 && d > 0 && bp == b[0] && cp == c[0]
    modifies ap
    ensures st.sh == 64 - p && st.bx == bx + k
    ensures Prepared(ap[..], p, Val(b) * Pow2(d) + Val(c), d, k, st.rb != 0, st.sb)
  {
    hide Val, BP, Pow2, Prepared, Normalized;
    F.OneLimbOf(b, p);
    F.OneLimbOf(c, p);
    var sh := 64 - p;
    if d < 64 {
      var sb := d >= sh && F.Lsh(cp, 64 - d) != 0;
      var a01 := (bp + F.Rsh(cp, d)) % B;
      var scrut := if a01 < bp then (sb || (d >= sh && a01 % 2 != 0), HALF + a01 / 2, bx + 1) else (sb, a01, bx);
      k := if a01 < bp then 1 else 0;
      var a02 := scrut.1;
      RoundBit(a02, sh);
      var rb := a02 / Pow2(sh - 1) % 2 * Pow2(sh - 1);
      var sb2 := scrut.0 || a02 % Pow2(sh - 1) != 0;
      ModAtMost(a02, Pow2(sh));
      ap[0] := a02 - a02 % Pow2(sh);
      LostBits(bp, cp, sh, d);
      F.From1(ap[..], a02, F.Rsh(cp, d), a01, b, c, p, d, k, rb != 0, sb2);
      st := State(sh, scrut.2, rb, sb2);
    } else {
      G.FarBits(b, c, p, d);
      ap[0] := bp;
      assert ap[..] == b;
      k := 0;
      st := State(sh, bx, 0, true);
    }
  }

  lemma RoundBit(x: limb, sh: nat)
    requires 1 <= sh <= 64
    ensures var rb := x / Pow2(sh - 1) % 2 * Pow2(sh - 1); 0 <= rb < B && (rb != 0 <==> x / Pow2(sh - 1) % 2 == 1)
  {
    hide Pow2;
    Pow2Limb();
    Pow2Mono(sh - 1, 63);
    ProductZero(x / Pow2(sh - 1) % 2, Pow2(sh - 1));
    MulMono(x / Pow2(sh - 1) % 2, 1, Pow2(sh - 1));
    MulMono(0, x / Pow2(sh - 1) % 2, Pow2(sh - 1));
  }

  lemma LostBits(b: limb, c: limb, sh: nat, d: nat)
    requires 0 < d < 64 && 0 < sh < 64 && b % Pow2(sh) == 0 && c % Pow2(sh) == 0
    ensures d < sh ==> c % Pow2(d) == 0 && (b + F.Rsh(c, d)) % B % 2 == 0
    ensures F.Lsh(c, 64 - d) != 0 <==> c % Pow2(d) != 0
  {
    hide Pow2;
    ProductZero(c % Pow2(d), Pow2(64 - d));
    if d < sh { F.NothingLost(b, c, sh, d); }
  }

  /** mpfr_add1sp1 as extracted. */
  method ExtractedAdd(env: Env, a: Mpfr, b0: Mpfr, c0: Mpfr, rnd: Mode) returns (inex: int, ghost o: Outcome)
    requires Operands(env, a, b0, c0) && a.prec < 64
    modifies a, a.mant, env`inexact, env`overflow
    ensures a.neg == old(a.neg) && a.Holds(o)
    ensures CorrectSigned(WithSign(a.neg, old(b0.Magnitude()) + old(c0.Magnitude())), a.prec, rnd, env.emin, env.emax, a.neg, o, inex)
    ensures env.inexact == (old(env.inexact) || inex != 0)
    ensures env.overflow == (old(env.overflow) || TooLarge(WithSign(a.neg, old(b0.Magnitude()) + old(c0.Magnitude())), a.prec, rnd, env.emax))
    ensures !TooSmall(WithSign(a.neg, old(b0.Magnitude()) + old(c0.Magnitude())), a.prec, rnd, env.emin)
  {
    hide Val, BP, Pow2, R2, Frac, Normalized, Sig, Prepared, CorrectSigned, TooLarge, TooSmall;
    var p, bx, cx, ap := a.prec, b0.exp, c0.exp, a.mant;
    var b, c := b0.mant[..], c0.mant[..];
    ghost var x := b0.Magnitude() + c0.Magnitude();
    F.OneLimbOf(b, p);
    F.OneLimbOf(c, p);
    if bx == cx {
      var rb, sb, k := F.Prepare1(ap, b, c, p, 0);
      inex, o := F.Finish(env, a, rnd, b, c, bx, 0, k, rb, sb, x);
    } else if bx > cx {
      var st, k := LargerFirst(ap, b[0], c[0], bx, bx - cx, p, b, c);
      inex, o := F.Finish(env, a, rnd, b, c, bx, bx - cx, st.bx - bx, st.rb != 0, st.sb, x);
    } else {
      var st, k := LargerFirst(ap, c[0], b[0], cx, cx - bx, p, c, b);
      inex, o := F.Finish(env, a, rnd, c, b, cx, cx - bx, st.bx - cx, st.rb != 0, st.sb, x);
    }
  }

  // ---- mpfr_add1sp ------------------------------------------------------------------------

  /** Numbers of one precision, with exponents that are not below the range. */
  ghost predicate Operands(env: Env, a: Mpfr, b: Mpfr, c: Mpfr)
    reads env, a, b, c, b.mant, c.mant
  {
    && a.Shape() && b.IsPureFp() && c.IsPureFp() && a.prec == b.prec == c.prec
    && env.emin <= env.emax && env.emin <= b.exp && env.emin <= c.exp
  }

  /** The fast paths: which one is taken depends on the precision. */
  method Fast(env: Env, a: Mpfr, b0: Mpfr, c0: Mpfr, rnd: Mode) returns (inex: int, ghost o: Outcome)
    requires Operands(env, a, b0, c0) && a.prec < 192
    modifies a, a.mant, env`inexact, env`overflow
    ensures a.neg == old(a.neg) && a.Holds(o)
    ensures CorrectSigned(WithSign(a.neg, old(b0.Magnitude()) + old(c0.Magnitude())), a.prec, rnd, env.emin, env.emax, a.neg, o, inex)
    ensures env.inexact == (old(env.inexact) || inex != 0)
    ensures env.overflow == (old(env.overflow) || TooLarge(WithSign(a.neg, old(b0.Magnitude()) + old(c0.Magnitude())), a.prec, rnd, env.emax))
    ensures !TooSmall(WithSign(a.neg, old(b0.Magnitude()) + old(c0.Magnitude())), a.prec, rnd, env.emin)
  {
    hide Val, BP, Pow2, R2, Frac, Normalized, Sig, Prepared, CorrectSigned, TooLarge, TooSmall;
    var b, c := b0, c0;
    ghost var x := b.Magnitude() + c.Magnitude();
    if b.exp < c.exp { b, c := c0, b0; }
    var p, bx, ap := a.prec, b.exp, a.mant;
    var d := bx - c.exp;
    var bp, cp := b.mant[..], c.mant[..];
    G.SignificandBounds(bp, p);
    G.SignificandBounds(cp, p);
    assert c.exp == bx - d;
    var rb, sb, k;
    if p < 64 {
      rb, sb, k := F.Prepare1(ap, bp, cp, p, d);
    } else if p == 64 {
      rb, sb, k := F.Prepare1n(ap, bp, cp, d);
    } else if p < 128 {
      rb, sb, k := F.Prepare2(ap, bp, cp, p, d);
    } else if p == 128 {
      rb, sb, k := F.Prepare2n(ap, bp, cp, d);
    } else {
      rb, sb, k := F.Prepare3(ap, bp, cp, p, d);
    }
    inex, o := F.Finish(env, a, rnd, bp, cp, bx, d, k, rb, sb, x);
  }

  /** mpfr_add1sp: |b| + |c| with the sign of b, rounded once. */
  method Add1sp(env: Env, a: Mpfr, b: Mpfr, c: Mpfr, rnd: Mode) returns (inex: int, ghost o: Outcome)
    requires Operands(env, a, b, c)
    modifies a, a.mant, env`inexact, env`overflow
    ensures a.neg == old(b.neg) && a.Holds(o)
    ensures CorrectSigned(WithSign(a.neg, old(b.Magnitude()) + old(c.Magnitude())), a.prec, rnd, env.emin, env.emax, a.neg, o, inex)
    ensures env.inexact == (old(env.inexact) || inex != 0)
    ensures env.overflow == (old(env.overflow) || TooLarge(WithSign(a.neg, old(b.Magnitude()) + old(c.Magnitude())), a.prec, rnd, env.emax))
    ensures !TooSmall(WithSign(a.neg, old(b.Magnitude()) + old(c.Magnitude())), a.prec, rnd, env.emin)
  {
    hide Val, BP, Pow2, R2, Frac, Normalized, Sig, CorrectSigned, TooLarge, TooSmall;
    if a.prec < 192 {
      a.neg := b.neg;
      inex, o := Fast(env, a, b, c, rnd);
    } else {
      inex, o := G.Generic(env, a, b, c, rnd);
    }
  }

  method Copy(x: Mpfr) returns (y: Mpfr)
    requires x.IsPureFp()
    ensures fresh(y) && fresh(y.mant) && y.IsPureFp() && y.prec == x.prec && y.neg == x.neg && y.exp == x.exp && y.mant[..] == x.mant[..]
    ensures y.Magnitude() == x.Magnitude()
  {
    y := new Mpfr(x.prec);
    MpnCopy(y.mant, 0, x.mant[..]);
    assert y.mant[..] == x.mant[..];
    y.kind, y.neg, y.exp := Regular, x.neg, x.exp;
  }

  lemma LargeSum(b: seq<limb>, c: seq<limb>, p: nat, bx: int, cx: int, emin: int)
    requires Normalized(b, p) && Normalized(c, p) && emin <= bx && emin <= cx
    ensures Frac(b) * R2(bx) + Frac(c) * R2(cx) >= R2(emin - 1)
  {
    hide R2, Frac, Normalized, FloatValue;
    FracIsFloat(b, p, bx);
    FracIsFloat(c, p, cx);
    R2Mono(emin - 1, bx - 1);
    R2Step(bx - 1);
    R2Pos(bx);
    R2Pos(cx);
    SumAtLeast(Frac(b), R2(bx), Frac(c), R2(cx), R2(bx - 1));
  }

  lemma SumAtLeast(f: real, u: real, g: real, v: real, h: real)
    requires f >= 0.5 && u == 2.0 * h && u > 0.0 && g >= 0.0 && v > 0.0
    ensures f * u + g * v >= h
  {
    RealGrow(u, f, 0.5, u * f);
    RealComm(u, f);
    RealGrow(v, g, 0.0, v * g);
    RealComm(v, g);
  }

  /** mpfr_equal_p on results of the same precision and sign. */
  predicate SameNumber(x: Mpfr, y: Mpfr)
    reads x, y, x.mant, y.mant
  {
    x.kind == y.kind && (x.kind == Regular ==> x.exp == y.exp && x.mant[..] == y.mant[..])
  }

  lemma SameHolds(x: Mpfr, y: Mpfr, o: Outcome)
    requires x.Holds(o) && y.Holds(o) && x.prec == y.prec
    ensures SameNumber(x, y)
  {
    hide Val, Pow2;
    if o.Finite? {
      NormalizedValue(x.mant[..], x.prec);
      NormalizedValue(y.mant[..], y.prec);
      ValInjective(x.mant[..], y.mant[..]);
    }
  }

  /** The reference: mpfr_add1, the operand with the larger exponent first. */
  method Reference(env: Env, a: Mpfr, b: Mpfr, c: Mpfr, rnd: Mode) returns (inex: int, ghost o: Outcome)
    requires Operands(env, a, b, c) && b.exp >= c.exp
    modifies a, a.mant, env`inexact, env`overflow, env`underflow
    ensures a.neg == old(b.neg) && a.Holds(o)
    ensures CorrectSigned(WithSign(a.neg, old(b.Magnitude()) + old(c.Magnitude())), a.prec, rnd, env.emin, env.emax, a.neg, o, inex)
    ensures env.inexact == (old(env.inexact) || inex != 0)
    ensures var s := WithSign(a.neg, old(b.Magnitude()) + old(c.Magnitude()));
            && env.overflow == (old(env.overflow) || TooLarge(s, a.prec, rnd, env.emax))
            && env.underflow == (old(env.underflow) || TooSmall(s, a.prec, rnd, env.emin))
  {
    hide Val, BP, Pow2, R2, Frac, Normalized, Sig, CorrectSigned, TooLarge, TooSmall;
    ghost var x := b.Magnitude() + c.Magnitude();
    LargeSum(b.mant[..], c.mant[..], a.prec, b.exp, c.exp, env.emin);
    Add1.OrdinaryOperands(x, a.prec, b.neg, rnd, env.emin, env.emin, env.emin);
    inex, o := Add1.Add1(env, a, b, c, rnd);
  }

  /** add1sp.c:54-77: the reference, computed on copies. */
  method OnCopies(env: Env, b: Mpfr, c: Mpfr, rnd: Mode) returns (tmpa: Mpfr, inex: int, ghost o: Outcome)
    requires Operands(env, b, b, c)
    modifies env`inexact, env`overflow, env`underflow
    ensures fresh(tmpa) && fresh(tmpa.mant) && tmpa.prec == b.prec && tmpa.Holds(o)
    ensures CorrectSigned(WithSign(b.neg, b.Magnitude() + c.Magnitude()), b.prec, rnd, env.emin, env.emax, b.neg, o, inex)
    ensures env.inexact == (old(env.inexact) || inex != 0)
    ensures var s := WithSign(b.neg, b.Magnitude() + c.Magnitude());
            && env.overflow == (old(env.overflow) || TooLarge(s, b.prec, rnd, env.emax))
            && env.underflow == (old(env.underflow) || TooSmall(s, b.prec, rnd, env.emin))
  {
    hide Val, BP, Pow2, R2, Frac, Normalized, Sig, CorrectSigned, TooLarge, TooSmall;
    ghost var xb, xc := b.Magnitude(), c.Magnitude();
    tmpa := new Mpfr(b.prec);
    var tmpb := Copy(b);
    var tmpc := Copy(c);
    assert tmpb.Magnitude() == xb && tmpc.Magnitude() == xc;
    if tmpb.exp < tmpc.exp {
      tmpc.neg := tmpb.neg;
      assert tmpb.Magnitude() == xb && tmpc.Magnitude() == xc;
      inex, o := Reference(env, tmpa, tmpc, tmpb, rnd);
    } else {
      inex, o := Reference(env, tmpa, tmpb, tmpc, rnd);
    }
    assert b.Magnitude() == xb && c.Magnitude() == xc;
  }

  /** add1sp.c:43-110, the checking mpfr_add1sp: both additions are carried out from the
      same flags, and whether number, ternary value and flags agree is computed.  They
      always do. */
  method Checked(env: Env, a: Mpfr, b: Mpfr, c: Mpfr, rnd: Mode) returns (inexact: int, agree: bool)
    requires Operands(env, a, b, c)
    modifies a, a.mant, env`inexact, env`overflow, env`underflow
    ensures agree && a.neg == old(b.neg)
  {
    hide Val, BP, Pow2, R2, Frac, Normalized, Sig, CorrectSigned, TooLarge, TooSmall;
    ghost var x := b.Magnitude() + c.Magnitude();
    LargeSum(b.mant[..], c.mant[..], a.prec, b.exp, c.exp, env.emin);
    R2Pos(env.emin - 1);
    var oldInexact, oldOverflow, oldUnderflow := env.inexact, env.overflow, env.underflow;
    var tmpa, inexact2;
    ghost var o, o2;
    tmpa, inexact2, o2 := OnCopies(env, b, c, rnd);
    var inexactFlag2, overflow2, underflow2 := env.inexact, env.overflow, env.underflow;
    env.inexact, env.overflow, env.underflow := oldInexact, oldOverflow, oldUnderflow;
    inexact, o := Add1sp(env, a, b, c, rnd);
    OnlyAnswer(x, a.prec, rnd, a.neg, env.emin, env.emax, o, inexact, o2, inexact2);
    SameHolds(tmpa, a, o);
    agree := SameNumber(tmpa, a) && inexact == inexact2
             && env.inexact == inexactFlag2 && env.overflow == overflow2 && env.underflow == underflow2;
  }
}

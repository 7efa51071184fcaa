/** What the divisions of one and two limbs in div.c have in common: their quotients
    of significands of the same precision are never halfway between two numbers of
    that precision, and rounding up never carries, so their rounding is simple. */
module DivSmall {
  import opened Powers
  import opened RealPowers
  import opened Limbs
  import opened Rounding
  import opened Range
  import opened Numbers
  import opened Exceptions
  import opened SignedRounding
  import opened Significands
  import opened SameSum
  import opened Streams
  import F = Add1spFast
  import G = Add1sp

  // ---- quotients of p-bit significands ------------------------------------------------

  lemma {:induction false} OddFactor(a: nat, m: nat, j: nat)
    requires (2 * a + 1) * m % Pow2(j) == 0
    ensures m % Pow2(j) == 0
  {
    hide Pow2;
    if j == 0 {
      Pow2Zero();
    } else {
      Pow2Step(j - 1);
      var x, h := (2 * a + 1) * m, Pow2(j - 1);
      ProductNonNegative(2 * a + 1, m);
      ModProduct(x, 2, h);
      MulComm(h, 2);
      G.BitPart(0, x % 2, 1);
      assert (x % 2) + 2 * (x / 2 % h) == 0 ==> (x % 2) == 0 && (x / 2 % h) == 0;
      OddEven(a, m);
      HalfProduct(a, m / 2, m);
      OddFactor(a, m / 2, j - 1);
      ModProduct(m, 2, h);
    }
  }

  lemma OddEven(a: nat, m: nat)
    ensures (2 * a + 1) * m % 2 == m % 2
  {
    Distrib(2 * a, 1, m);
    MulAssoc(2, a, m);
  }

  lemma HalfProduct(a: nat, h: nat, m: nat)
    requires m % 2 == 0 ==> m == 2 * h
    ensures m % 2 == 0 ==> (2 * a + 1) * m / 2 == (2 * a + 1) * h
  {
    if m % 2 == 0 { MulComm(2, h); MulAssoc(2 * a + 1, h, 2); }
  }

  /** mu * 2^(p-k) / mv is the quotient in units in the last place; k is 1 when it is
      at least 1. */
  predicate InUlps(mu: int, mv: int, p: nat, k: nat, nn: int, e: int) {
    && IsSignificand(p, mu) && IsSignificand(p, mv)
    && k == (if mu < mv then 0 else 1)
    && e >= 1
    && nn * mv == mu * Pow2(p - k) * e
  }

  /** The quotient is not halfway between two p-bit numbers (div.c:215-218). */
  lemma NeverMidpoint(mu: int, mv: int, p: nat, k: nat, nn: int, e: int)
    requires InUlps(mu, mv, p, k, nn, e) && nn >= 0
    ensures 2 * (nn % e) != e
  {
    hide Pow2;
    if 2 * (nn % e) == e {
      var a := nn / e;
      DivLeInt(nn, e);
      MulComm(e, a);
      assert 2 * nn == (2 * a + 1) * e by { Distrib(2 * a, 1, e); MulAssoc(2, a, e); }
      MidpointPlain(mu, mv, a, nn, e, Pow2(p - k));
      Pow2Step(p - k);
      assert (2 * a + 1) * mv == mu * Pow2(p - k + 1);
      MulMono(0, mu, Pow2(p - k + 1));
      DivUnique((2 * a + 1) * mv, Pow2(p - k + 1), mu, 0);
      OddFactor(a, mv, p - k + 1);
      Pow2Mono(p, p - k + 1);
      ModSmall(mv, Pow2(p - k + 1), 0);
    }
  }

  lemma DivLeInt(n: nat, e: int)
    requires e >= 1
    ensures n / e >= 0
  {
    DivLe(n, e);
  }

  lemma MidpointPlain(mu: int, mv: int, a: int, nn: int, e: int, w: int)
    requires e >= 1 && 2 * nn == (2 * a + 1) * e && nn * mv == mu * w * e
    ensures (2 * a + 1) * mv == mu * (2 * w)
  {
    var x := (2 * a + 1) * mv;
    assert x * e == 2 * (mu * w * e) by {
      MulAssoc(2 * a + 1, mv, e);
      MulComm(mv, e);
      MulAssoc(2 * a + 1, e, mv);
      MulAssoc(2, nn, mv);
    }
    assert 2 * (mu * w * e) == mu * (2 * w) * e by { MulAssoc(mu, 2, w); MulComm(mu, 2); MulAssoc(2, mu, w); MulAssoc(2, mu * w, e); }
    MulEq(x, mu * (2 * w), e);
  }

  /** Only an exact quotient can be the largest p-bit significand (div.c:236-248). */
  lemma NeverCarries(mu: int, mv: int, p: nat, k: nat, nn: int, e: int)
    requires InUlps(mu, mv, p, k, nn, e) && nn >= 0 && nn / e == Pow2(p) - 1
    ensures nn % e == 0
  {
    hide Pow2;
    var a, f := nn / e, nn % e;
    MulComm(e, a);
    Pow2Step(p - 1);
    var w := Pow2(p - k);
    assert (a * e + f) * mv == mu * w * e;
    CarryPlain(mu, mv, a, f, e, w, Pow2(p), Pow2(p - 1), k);
  }

  lemma CarryPlain(mu: int, mv: int, a: int, f: int, e: int, w: int, hi: int, lo: int, k: nat)
    requires 1 <= lo && hi == 2 * lo && lo <= mu < hi && lo <= mv < hi && a == hi - 1 && 0 <= f < e
    requires k == (if mu < mv then 0 else 1) && w == (if k == 0 then hi else lo) && (a * e + f) * mv == mu * w * e
    ensures f == 0
  {
    Distrib(a * e, f, mv);
    assert a * e * mv == a * mv * e by { MulAssoc(a, e, mv); MulAssoc(a, mv, e); MulComm(e, mv); }
    ProductNonNegative(f, mv);
    Distrib(mu * w, -(a * mv), e);
    assert (mu * w - a * mv) * e == f * mv;
    Distrib(hi, -1, mv);
    if k == 0 {
      MulMono(mu, mv - 1, hi);
      Distrib(mv, -1, hi);
      MulComm(mv, hi);
      Negative(mu * w - a * mv, e);
    } else {
      MulMono(mu, hi - 1, lo);
      MulMono(lo, mv, hi - 1);
      MulComm(hi - 1, lo);
      MulComm(hi - 1, mv);
      NotPositive(mu * w - a * mv, e);
    }
    if f > 0 { MulMono(1, f, mv); }
  }

  lemma Negative(x: int, e: int)
    requires x < 0 && e >= 1
    ensures x * e < 0
  {}

  lemma NotPositive(x: int, e: int)
    requires x <= 0 && e >= 1
    ensures x * e <= 0
  {}

  // ---- what the divisions prepare ------------------------------------------------------------

  /** The upper bits of the quotient nn/e in the limbs, and its round and sticky bits. */
  ghost predicate Ready(s: seq<limb>, p: nat, nn: int, e: int, rb: bool, sb: bool) {
    e >= 1 && Holding(s, p, nn / e) && Bits(nn, e, rb, sb)
  }

  /** The limbs hold T = nn / v, or its half, with a0 as their low limb before the
      unused bits are cut off. */
  lemma ReadyFromLimbs(s: seq<limb>, a0: limb, p: nat, nn: int, v: int, k: nat, rb: bool, sb: bool, t: nat, rem: int)
    requires p >= 1 && |s| == LimbCount(p) && Unused(p) >= 1 && k <= 1 && s[0] == a0 - a0 % Pow2(Unused(p))
    requires v >= 1 && 0 <= rem < v && nn == t * v + rem
    requires if k == 1 then Val(s[0 := a0]) == t / 2 && BP(|s|) <= t < 2 * BP(|s|)
             else Val(s[0 := a0]) == t && BP(|s|) <= 2 * t < 2 * BP(|s|)
    requires rb == (a0 / Pow2(Unused(p) - 1) % 2 == 1)
    requires sb == (a0 % Pow2(Unused(p) - 1) != 0 || (k == 1 && t % 2 != 0) || rem != 0)
    ensures Ready(s, p, nn, Pow2(Unused(p) + k) * v, rb, sb)
  {
    hide Val, BP, Pow2, Bits, Ready;
    var sh := Unused(p);
    var h := Pow2(sh - 1);
    F.LowLimbParts(s, a0, sh);
    Pow2Step(sh - 1);
    Pow2Step(sh);
    if k == 1 {
      F.HalfParts(t, h);
      ReadyHalved(s, p, nn, v, rb, sb, t, rem, 2 * h);
    } else {
      ReadyWhole(s, p, nn, v, rb, sb, t, rem, h);
    }
  }

  lemma ReadyHalved(s: seq<limb>, p: nat, nn: int, v: int, rb: bool, sb: bool, t: nat, rem: int, h: int)
    requires p >= 1 && |s| == LimbCount(p) && h == Pow2(Unused(p)) && v >= 1 && 0 <= rem < v && nn == t * v + rem
    requires BP(|s|) <= t < 2 * BP(|s|) && Val(s) == t / 2 / h * h
    requires rb == (t / h % 2 == 1) && sb == (t % h != 0 || rem != 0)
    ensures Ready(s, p, nn, 2 * h * v, rb, sb)
  {
    hide Val, BP, Pow2, Bits;
    LimbsOfPrecision(p);
    Pow2Step(p - 1);
    BitsOfQuotient(nn, t, v, rem, h);
    G.HalfThen(t, h);
    G.TwiceTwice(Pow2(p - 1), Pow2(p), h);
    G.UpperBits(t, 2 * h, Pow2(p - 1), Pow2(p));
    ReadyFolds(s, p, nn, 2 * h * v, rb, sb, t / (2 * h));
  }

  lemma ReadyWhole(s: seq<limb>, p: nat, nn: int, v: int, rb: bool, sb: bool, t: nat, rem: int, h: int)
    requires p >= 1 && |s| == LimbCount(p) && h >= 1 && 2 * h == Pow2(Unused(p)) && v >= 1 && 0 <= rem < v && nn == t * v + rem
    requires BP(|s|) <= 2 * t < 2 * BP(|s|) && Val(s) == t / (2 * h) * (2 * h)
    requires rb == (t / h % 2 == 1) && sb == (t % h != 0 || rem != 0)
    ensures Ready(s, p, nn, 2 * h * v, rb, sb)
  {
    hide Val, BP, Pow2, Bits;
    LimbsOfPrecision(p);
    Pow2Step(p - 1);
    MulAssoc(2, Pow2(p - 1), 2 * h);
    BitsOfQuotient(nn, t, v, rem, h);
    G.UpperBits(t, 2 * h, Pow2(p - 1), Pow2(p));
    ReadyFolds(s, p, nn, 2 * h * v, rb, sb, t / (2 * h));
  }

  lemma ReadyFolds(s: seq<limb>, p: nat, nn: int, e: int, rb: bool, sb: bool, au: int)
    requires p >= 1 && |s| == LimbCount(p) && e >= 1 && Bits(nn, e, rb, sb) && au == nn / e
    requires Val(s) == au * Pow2(Unused(p)) && IsSignificand(p, au)
    ensures Ready(s, p, nn, e, rb, sb)
  {
    hide Val, Pow2;
  }

  // ---- the quotient among the reals ----------------------------------------------------------

  /** The operands and the scaled quotient: nn = U * B^n over e = V * 2^(sh + k). */
  ghost predicate Scaled(up: seq<limb>, vp: seq<limb>, p: nat, k: nat, nn: int, e: int) {
    && Normalized(up, p) && Normalized(vp, p)
    && k == (if Val(up) < Val(vp) then 0 else 1)
    && nn == Val(up) * BP(LimbCount(p)) && e == Pow2(Unused(p) + k) * Val(vp)
  }

  lemma ScaledInUlps(up: seq<limb>, vp: seq<limb>, p: nat, k: nat, nn: int, e: int)
    requires Scaled(up, vp, p, k, nn, e)
    ensures InUlps(Sig(up, p), Sig(vp, p), p, k, nn, e) && nn >= 0 && p >= 1
  {
    hide Val, BP, Pow2, Sig;
    NormalizedValue(up, p);
    NormalizedValue(vp, p);
    LimbsOfPrecision(p);
    MulOrder(Sig(up, p), Sig(vp, p), Pow2(Unused(p)));
    Pow2Step(p - 1);
    PrecisionSplit(p, k, Unused(p));
    UlpsPlain(Sig(up, p), Sig(vp, p), Pow2(Unused(p)), Pow2(p), Pow2(Unused(p) + k), Pow2(p - k), nn, e);
    ProductNonNegative(Val(up), BP(LimbCount(p)));
    EPositive(Pow2(Unused(p) + k), Sig(vp, p), Pow2(Unused(p)));
  }

  lemma PrecisionSplit(p: nat, k: nat, sh: nat)
    requires k <= p
    ensures Pow2(p - k) * Pow2(sh + k) == Pow2(p) * Pow2(sh)
  {
    hide Pow2;
    Pow2Add(p - k, sh + k);
    Pow2Add(p, sh);
  }

  lemma EPositive(a: int, b: int, c: int)
    requires a >= 1 && b >= 1 && c >= 1
    ensures a * (b * c) >= 1
  {
    MulMono(1, b, c);
    MulMono(1, a, b * c);
  }

  lemma UlpsPlain(mu: int, mv: int, d: int, hi: int, g: int, w: int, nn: int, e: int)
    requires nn == mu * d * (hi * d) && e == g * (mv * d) && w * g == hi * d
    ensures nn * mv == mu * w * e
  {
    assert mu * w * e == mu * (w * g) * (mv * d) by { MulAssoc(mu, w, e); MulAssoc(w, g, mv * d); MulAssoc(mu, w * g, mv * d); }
    MulComm(mv, d);
    assert mu * (hi * d) * (d * mv) == mu * d * (hi * d) * mv by { FourSwap(mu, hi * d, d, mv); MulAssoc(mu * d, hi * d, mv); }
  }

  lemma QuotientInUlps(up: seq<limb>, vp: seq<limb>, p: nat, k: nat, nn: int, e: int, eu: int, ev: int, x: real, y: real)
    requires Scaled(up, vp, p, k, nn, e) && y * e as real == nn as real
    requires x * (Frac(vp) * R2(ev)) == Frac(up) * R2(eu)
    ensures x == y * R2(eu - ev + k - p)
  {
    hide Val, BP, Pow2, R2, Frac, Normalized, Sig, InUlps;
    var n, sh := LimbCount(p), Unused(p);
    LimbsOf(up, vp, p);
    NormalizedTop(vp, p);
    InLimbs(up, eu);
    InLimbs(vp, ev);
    BPZero();
    QuotientUnits(x, y, Val(up), Val(vp), eu - 64 * n, ev - 64 * n, sh + k, n, 0);
  }

  /** y = u B^a / (v B^b 2^s) is x = u 2^eu / (v 2^ev) in units of some power of two. */
  lemma QuotientUnits(x: real, y: real, u: int, v: int, eu: int, ev: int, s: nat, a: nat, b: nat)
    requires v >= 1 && x * (v as real * R2(ev)) == u as real * R2(eu)
    requires y * (Pow2(s) * (v * BP(b))) as real == (u * BP(a)) as real
    ensures x == y * R2(eu - ev + s + 64 * b - 64 * a)
  {
    hide BP, Pow2, R2;
    var e, t := eu - ev + s + 64 * b - 64 * a, s + 64 * b;
    BPPow2(a);
    BPPow2(b);
    Pow2Add(s, 64 * b);
    MulComm(v, BP(b));
    MulAssoc(Pow2(s), BP(b), v);
    R2Nat(t);
    R2Nat(64 * a);
    CastProduct(Pow2(t), v);
    CastProduct(u, BP(a));
    R2Add(e, ev);
    R2Add(t, eu - 64 * a);
    R2Add(64 * a, eu - 64 * a);
    R2Pos(ev);
    SameMultiple(x, y * R2(e), y, u as real, v as real, R2(ev), R2(e), R2(t), R2(64 * a), R2(eu - 64 * a));
  }

  lemma LimbsOf(up: seq<limb>, vp: seq<limb>, p: nat)
    requires Normalized(up, p) && Normalized(vp, p)
    ensures |up| == |vp| == LimbCount(p)
  {}

  /** With z = y r: both x and z times v c are u times the same power of two. */
  lemma SameMultiple(x: real, z: real, y: real, u: real, v: real, c: real, r: real, g: real, b: real, w: real)
    requires v > 0.0 && c > 0.0 && z == y * r && x * (v * c) == u * (b * w)
    requires y * (g * v) == u * b && r * c == g * w
    ensures x == z
  {
    RealProductPos(v, c);
    assert z * (v * c) == (y * v) * (r * c) by { RealFour(y, r, v, c); }
    assert (y * v) * (g * w) == (y * (g * v)) * w by { Rearrange(y, v, g, w); }
    assert (u * b) * w == u * (b * w) by { RealSwap(u, b, w); }
    RealMono(x, z, v * c);
  }

  lemma Rearrange(y: real, v: real, g: real, w: real)
    ensures (y * v) * (g * w) == (y * (g * v)) * w
  {
    RealComm(g, v);
    RealSwap(y, v, g);
    RealSwap(y * v, g, w);
  }

  // ---- rounding --------------------------------------------------------------------------------

  /** The rounded quotient: its significand needs no normalization. */
  lemma RoundedQuotient(s: seq<limb>, up: seq<limb>, vp: seq<limb>, p: nat, k: nat, nn: int, e: int, rb: bool, sb: bool,
                        dir: Direction, eu: int, ev: int, x: real)
    requires Scaled(up, vp, p, k, nn, e) && Ready(s, p, nn, e, rb, sb) && x * (Frac(vp) * R2(ev)) == Frac(up) * R2(eu)
    ensures var au := nn / e; var r := Rounded(dir, au, rb, sb);
            && IsSignificand(p, r) && CorrectlyRounded(x, p, dir, r, eu - ev + k, Ternary(dir, au, rb, sb)) && x > 0.0
    ensures !(rb && !sb)
  {
    hide Val, BP, Pow2, R2, Frac, CorrectlyRounded, RoundsTo, Scaled, InUlps, Ready, Rounded, Ternary, NormSig, NormExp;
    SimpleRounding(s, up, vp, p, k, nn, e, rb, sb, dir);
    var au := nn / e;
    var y := nn as real / e as real;
    BitsRound(nn, e, rb, sb, dir, y);
    QuotientInUlps(up, vp, p, k, nn, e, eu, ev, x, y);
    assert (au + 1) as real <= Pow2(p) as real && Pow2(p - 1) as real <= y;
    ScaledRounding(x, y, p, dir, eu - ev + k, Rounded(dir, au, rb, sb), Ternary(dir, au, rb, sb));
    NormSmall(p, Rounded(dir, au, rb, sb), eu - ev + k);
    R2Pos(eu - ev + k - p);
    RealProductPos(y, R2(eu - ev + k - p));
  }

  lemma NormSmall(p: nat, m: int, e: int)
    requires m < Pow2(p)
    ensures NormSig(p, m) == m && NormExp(p, m, e) == e
  {}

  lemma SimpleRounding(s: seq<limb>, up: seq<limb>, vp: seq<limb>, p: nat, k: nat, nn: int, e: int, rb: bool, sb: bool, dir: Direction)
    requires Scaled(up, vp, p, k, nn, e) && Ready(s, p, nn, e, rb, sb)
    ensures p >= 1 && e >= 1 && Bits(nn, e, rb, sb) && IsSignificand(p, nn / e) && IsSignificand(p, Rounded(dir, nn / e, rb, sb))
    ensures !(rb && !sb)
  {
    hide Val, BP, Pow2, Scaled, InUlps, Sig;
    ScaledInUlps(up, vp, p, k, nn, e);
    NeverMidpoint(Sig(up, p), Sig(vp, p), p, k, nn, e);
    if nn / e == Pow2(p) - 1 { NeverCarries(Sig(up, p), Sig(vp, p), p, k, nn, e); }
  }

  /** add_one_ulp of the divisions: there is no carry out of the significand. */
  method AddUlpWithin(qp: array<limb>, p: nat, ghost au: int)
    requires Holding(qp[..], p, au) && qp.Length <= 2 && au + 1 < Pow2(p)
    modifies qp
    ensures Holding(qp[..], p, au + 1)
  {
    hide Val, BP, Pow2, Holding;
    var sh := Unused(p);
    ghost var s := qp[..];
    F.UlpMultiple(s, p, au);
    qp[0] := (qp[0] + Pow2(sh)) % B;
    if qp.Length > 1 { qp[1] := (qp[1] + if qp[0] == 0 then 1 else 0) % B; }
    F.ChainValue(s, qp[..], Pow2(sh));
    F.AfterUlp(s, qp[..], p, au);
  }

  /** div.c:186-204 and its copies: an underflow, decided from the rounded limbs. */
  method UnderflowQuotient(env: Env, q: Mpfr, rnd: Mode, qx: int, high: bool, sb: bool, ghost au: int, ghost t: int, ghost x: real)
    returns (inex: int, ghost o: Outcome)
    requires q.Shape() && qx < env.emin <= env.emax && x > 0.0 && (high <==> au == Pow2(q.prec - 1))
    requires sb == (t != 0) || rnd != RNDN
    requires exists m :: UnderflowCase(x, q.prec, DirectionOf(rnd, q.neg), m, qx, t, au)
    modifies q, q.mant, env`inexact, env`underflow
    ensures q.neg == old(q.neg) && q.Holds(o)
    ensures CorrectInRange(x, q.prec, DirectionOf(rnd, q.neg), env.emin, env.emax, o, Signed(inex, q.neg)) && inex != 0 && env.inexact && env.underflow
  {
    hide R2, Pow2, CorrectInRange, CorrectlyRounded;
    ghost var dir := DirectionOf(rnd, q.neg);
    ghost var m :| UnderflowCase(x, q.prec, dir, m, qx, t, au);
    var mode := rnd;
    if rnd == RNDN && (qx < env.emin - 1 || (high && !sb)) { mode := RNDZ; }
    UnderflowCorrect(x, q.prec, dir, m, qx, t, env.emin, env.emax);
    ghost var r := UnderflowOutcome(q.prec, DirectionOf(mode, q.neg), env.emin);
    o := r.0;
    SignedTwice(r.1, q.neg);
    inex := Underflow(env, q, mode, q.neg);
  }

  /** m is the rounding of A = au and a fraction. */
  ghost predicate UnderflowCase(x: real, p: nat, d: Direction, m: int, e: int, t: int, au: int) {
    && p >= 1 && CorrectlyRounded(x, p, d, m, e, t) && IsSignificand(p, au)
    && -1 <= t <= 1 && (if t > 0 then m == au + 1 else m == au)
  }

  /** The end of mpfr_div_1, mpfr_div_1n and mpfr_div_2. */
  method Finish(env: Env, q: Mpfr, rnd: Mode, qx: int, rb: bool, sb: bool, ghost up: seq<limb>, ghost vp: seq<limb>, ghost k: nat,
                ghost nn: int, ghost e: int, ghost eu: int, ghost ev: int, ghost x: real)
    returns (inex: int, ghost o: Outcome)
    requires q.Shape() && LimbCount(q.prec) <= 2 && env.emin <= env.emax && qx == eu - ev + k
    requires Scaled(up, vp, q.prec, k, nn, e) && Ready(q.mant[..], q.prec, nn, e, rb, sb)
    requires x * (Frac(vp) * R2(ev)) == Frac(up) * R2(eu)
    modifies q, q.mant, env`inexact, env`overflow, env`underflow
    ensures q.neg == old(q.neg) && q.Holds(o)
    ensures CorrectSigned(WithSign(q.neg, x), q.prec, rnd, env.emin, env.emax, q.neg, o, inex)
    ensures env.inexact == (old(env.inexact) || inex != 0)
    ensures env.overflow == (old(env.overflow) || TooLarge(WithSign(q.neg, x), q.prec, rnd, env.emax))
    ensures env.underflow == (old(env.underflow) || TooSmall(WithSign(q.neg, x), q.prec, rnd, env.emin))
  {
    hide Val, BP, Pow2, R2, Frac, Normalized, Sig, CorrectlyRounded, CorrectInRange, CorrectSigned, TooLarge, TooSmall, Scaled, Bits;
    var p, qp, dir := q.prec, q.mant, DirectionOf(rnd, q.neg);
    RoundedQuotient(qp[..], up, vp, p, k, nn, e, rb, sb, dir, eu, ev, x);
    ghost var au := nn / e;
    ghost var m, t := Rounded(dir, au, rb, sb), Ternary(dir, au, rb, sb);
    ExponentDecides(x, p, rnd, q.neg, m, qx, t, env.emin, env.emax);
    Delivers(x, p, dir, m, qx, t, env.emin, env.emax);
    if qx > env.emax {
      o := OverflowOutcome(p, dir, env.emax).0;
      inex := Overflow(env, q, rnd, q.neg);
      return;
    }
    ParityOfA(qp[..], p, au);
    HoldingIsNormalized(qp[..], p, au);
    if qx < env.emin {
      var high := HighOnly(qp, p, au);
      assert UnderflowCase(x, p, dir, m, qx, t, au);
      inex, o := UnderflowQuotient(env, q, rnd, qx, high, sb, au, t, x);
      SignedMeans(x, p, rnd, q.neg, env.emin, env.emax, o, inex);
      return;
    }
    q.exp, q.kind := qx, Regular;
    var up1 := if !rb && !sb then false else if rnd == RNDN then rb else dir != TowardZero;
    inex := if !rb && !sb then 0 else if up1 then 1 else -1;
    if up1 {
      AddUlpWithin(qp, p, au);
    }
    HoldingIsNormalized(qp[..], p, m);
    o := Finite(m, qx);
    SignedTwice(inex, q.neg);
    inex := Signed(inex, q.neg);
    SignedMeans(x, p, rnd, q.neg, env.emin, env.emax, o, inex);
    if inex != 0 { env.inexact := true; }
  }

  lemma Delivers(x: real, p: nat, d: Direction, m: int, e: int, t: int, emin: int, emax: int)
    requires x > 0.0 && CorrectlyRounded(x, p, d, m, e, t) && emin <= emax
    ensures emin <= e <= emax ==> CorrectInRange(x, p, d, emin, emax, Finite(m, e), t)
    ensures e > emax ==> var (o, t') := OverflowOutcome(p, d, emax); CorrectInRange(x, p, d, emin, emax, o, t')
  {
    if e > emax {
      OverflowCorrect(x, p, d, m, e, t, emin, emax);
    } else if e >= emin {
      InsideCorrect(x, p, d, m, e, t, emin, emax);
    }
  }

  /** Is the significand a power of two? */
  method HighOnly(qp: array<limb>, p: nat, ghost au: int) returns (high: bool)
    requires Holding(qp[..], p, au) && qp.Length <= 2
    ensures high <==> au == Pow2(p - 1)
  {
    hide Val, BP, Pow2;
    LimbCountPositive(p);
    HoldingIsNormalized(qp[..], p, au);
    PowerOf2Limbs(qp[..], p);
    high := qp[qp.Length - 1] == HALF && (qp.Length == 1 || qp[0] == 0);
  }
}

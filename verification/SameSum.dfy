/** The sum of two numbers of the same precision: what the additions of add1sp.c
    have in common.

    With the significands of b and c held in n limbs as integers Vb and Vc, and c
    shifted by d bits, the exact sum is N = Vb * 2^d + Vc in units of the last bit
    of the shifted c.  Each of the additions brings it to A + fraction, where A is
    the quotient of N by some power of two E. */
module SameSum {
  import opened Powers
  import opened RealPowers
  import opened Limbs
  import opened Rounding
  import opened Range
  import opened Numbers
  import opened Exceptions
  import opened SignedRounding
  import opened Significands
  import opened Streams

  /** The round bit and the sticky bit of nn / e. */
  predicate Bits(nn: int, e: int, rb: bool, sb: bool) {
    && e >= 1
    && (rb <==> 2 * (nn % e) >= e)
    && (sb <==> 2 * (nn % e) != if rb then e else 0)
  }

  /** Whether the bits demand one more, and the ternary value. */
  predicate Up(d: Direction, au: int, rb: bool, sb: bool) {
    match d
    case TowardZero => false
    case AwayFromZero => rb || sb
    case Nearest => rb && (sb || au % 2 == 1)
  }

  function Ternary(d: Direction, au: int, rb: bool, sb: bool): int {
    if !rb && !sb then 0 else if Up(d, au, rb, sb) then 1 else -1
  }

  function Rounded(d: Direction, au: int, rb: bool, sb: bool): int {
    if Up(d, au, rb, sb) then au + 1 else au
  }

  /** Deciding by the two bits is rounding the quotient. */
  lemma BitsRound(nn: int, e: int, rb: bool, sb: bool, d: Direction, y: real)
    requires Bits(nn, e, rb, sb) && y * e as real == nn as real
    ensures var au := nn / e; au as real <= y < au as real + 1.0
    ensures var au := nn / e; RoundsTo(y, d, Rounded(d, au, rb, sb), Ternary(d, au, rb, sb))
  {
    var au, f := nn / e, nn % e;
    MulComm(e, au);
    CastProduct(au, e);
    var t := y - au as real;
    assert t * e as real == f as real by { RealSub(y, au as real, e as real); }
    CompareWith(t, 0.0, e as real, f as real, 0.0);
    CompareWith(t, 0.5, e as real, f as real, e as real / 2.0);
    CompareWith(t, 1.0, e as real, f as real, e as real);
  }

  /** The number held in n limbs is Vb * 2^(bx - 64 n). */
  lemma ExactSum(bp: seq<limb>, cp: seq<limb>, p: nat, bx: int, d: nat, k: nat, y: real)
    requires |bp| == |cp| == LimbCount(p)
    requires var e := Pow2(Unused(p) + d + k); y * e as real == (Val(bp) * Pow2(d) + Val(cp)) as real
    ensures Frac(bp) * R2(bx) + Frac(cp) * R2(bx - d) == y * R2(bx + k - p)
  {
    hide R2, Pow2, BP, Val, Frac;
    var n, sh := LimbCount(p), Unused(p);
    var u := R2(bx - d - 64 * n);
    InLimbs(bp, bx);
    InLimbs(cp, bx - d);
    R2Nat(d);
    R2Add(d, bx - d - 64 * n);
    R2Nat(sh + d + k);
    R2Add(sh + d + k, bx - d - 64 * n);
    assert sh + d + k + (bx - d - 64 * n) == bx + k - p;
    RealSwap(Val(bp) as real, Pow2(d) as real, u);
    CastProduct(Val(bp), Pow2(d));
    RealExpand((Val(bp) * Pow2(d)) as real, Val(cp) as real, u);
    RealSwap(y, Pow2(sh + d + k) as real, u);
  }

  lemma InLimbs(s: seq<limb>, e: int)
    ensures Frac(s) * R2(e) == Val(s) as real * R2(e - 64 * |s|)
  {
    hide R2, Pow2, BP, Val;
    BPPow2(|s|);
    R2Nat(64 * |s|);
    R2Add(64 * |s|, e - 64 * |s|);
    RealSwap(Frac(s), BP(|s|) as real, R2(e - 64 * |s|));
  }

  /** Within the range or above it: the sum of two numbers of the range. */
  lemma Delivered(x: real, p: nat, d: Direction, m: int, e: int, t: int, emin: int, emax: int)
    requires x > 0.0 && CorrectlyRounded(x, p, d, m, e, t) && emin <= e && emin <= emax
    ensures e <= emax ==> CorrectInRange(x, p, d, emin, emax, Finite(m, e), t)
    ensures e > emax ==> var (o, t') := OverflowOutcome(p, d, emax); CorrectInRange(x, p, d, emin, emax, o, t')
  {
    if e <= emax {
      InsideCorrect(x, p, d, m, e, t, emin, emax);
    } else {
      OverflowCorrect(x, p, d, m, e, t, emin, emax);
    }
  }

  /** What an addition has prepared for rounding: A in the limbs, the two bits, and
      the exponent raised by k after a carry. */
  ghost predicate Prepared(s: seq<limb>, p: nat, nn: int, d: nat, k: nat, rb: bool, sb: bool) {
    var e := Pow2(Unused(p) + d + k);
    k <= 1 && Holding(s, p, nn / e) && Bits(nn, e, rb, sb)
  }

  /** What has been prepared, rounded by the two bits, is the sum rounded correctly. */
  lemma PreparedSum(s: seq<limb>, bp: seq<limb>, cp: seq<limb>, p: nat, bx: int, d: nat, k: nat, rb: bool, sb: bool, dir: Direction, x: real)
    requires |bp| == |cp| == LimbCount(p) && x == Frac(bp) * R2(bx) + Frac(cp) * R2(bx - d)
    requires var nn := Val(bp) * Pow2(d) + Val(cp); Prepared(s, p, nn, d, k, rb, sb)
    ensures var au := (Val(bp) * Pow2(d) + Val(cp)) / Pow2(Unused(p) + d + k);
            var r := Rounded(dir, au, rb, sb);
            && CorrectlyRounded(x, p, dir, NormSig(p, r), NormExp(p, r, bx + k), Ternary(dir, au, rb, sb))
            && x >= R2(bx + k - 1)
  {
    hide R2, Pow2, BP, Val, Frac, CorrectlyRounded, RoundsTo, NormSig, NormExp, Rounded, Ternary;
    var nn, e := Val(bp) * Pow2(d) + Val(cp), Pow2(Unused(p) + d + k);
    var y := nn as real / e as real;
    var au := nn / e;
    QuotientTimes(nn as real, e as real);
    BitsRound(nn, e, rb, sb, dir, y);
    ExactSum(bp, cp, p, bx, d, k, y);
    HeldRange(s, p, au, y);
    hide Prepared, Bits;
    ScaledRounding(x, y, p, dir, bx + k, Rounded(dir, au, rb, sb), Ternary(dir, au, rb, sb));
    BinadeStart(x, y, p, bx + k);
  }

  lemma QuotientTimes(x: real, d: real)
    requires d > 0.0
    ensures x / d * d == x
  {}

  lemma HeldRange(s: seq<limb>, p: nat, au: int, y: real)
    requires Holding(s, p, au) && au as real <= y < au as real + 1.0
    ensures p >= 1 && Pow2(p - 1) as real <= y < Pow2(p) as real
  {
    hide Val, Pow2;
    assert (au + 1) as real <= Pow2(p) as real;
  }

  lemma BinadeStart(x: real, y: real, p: nat, e: int)
    requires p >= 1 && x == y * R2(e - p) && Pow2(p - 1) as real <= y
    ensures x >= R2(e - 1)
  {
    hide R2, Pow2;
    R2Nat(p - 1);
    R2Add(p - 1, e - p);
    CompareWith(y, Pow2(p - 1) as real, R2(e - p), x, R2(e - 1));
  }

  // ---- the two bits ---------------------------------------------------------------

  /** N = t * dd + rem, read with h units of t below the round bit. */
  lemma BitsOfQuotient(nn: int, t: nat, dd: int, rem: int, h: int)
    requires h >= 1 && dd >= 1 && 0 <= rem < dd && nn == t * dd + rem
    ensures nn / (2 * h * dd) == t / (2 * h)
    ensures 2 * h * dd >= 1 && Bits(nn, 2 * h * dd, t / h % 2 == 1, t % h != 0 || rem != 0)
  {
    TopHalf(t, h);
    var g, q, low := 2 * h, t / (2 * h), t % (2 * h);
    MulComm(g, q);
    MulMono(1, g, dd);
    ProductBelow(low, rem, g, dd);
    Distrib(q * g, low, dd);
    MulAssoc(q, g, dd);
    DivUnique(nn, g * dd, q, low * dd + rem);
    HalfBit(nn % (g * dd), t / h % 2, t % h, h, dd, rem, nn % (g * dd), g * dd, 1);
  }

  lemma ProductBelow(x: int, r: int, g: int, d: int)
    requires 0 <= x < g && 0 <= r < d
    ensures 0 <= x * d + r < g * d
  {
    MulMono(x, g - 1, d);
    MulMono(0, x, d);
    Distrib(g, -1, d);
  }

  /** The limbs keep the quotient by 2^sh. */
  method KeepUpper(ap: array<limb>, sh: nat)
    requires ap.Length > 0 && sh <= 64
    modifies ap
    ensures Val(ap[..]) == Val(old(ap[..])) / Pow2(sh) * Pow2(sh)
    ensures ap[0] == old(ap[0]) - old(ap[0]) % Pow2(sh) && ap[1..] == old(ap[1..])
  {
    hide Val, BP, Pow2;
    ghost var s := ap[..];
    LowLimb(s, sh);
    ModAtMost(ap[0], Pow2(sh));
    MulComm(Pow2(sh), Val(s) / Pow2(sh));
    SetLimb(s, 0, ap[0] - ap[0] % Pow2(sh));
    BPZero();
    ap[0] := ap[0] - ap[0] % Pow2(sh);
    assert ap[..] == s[0 := s[0] - s[0] % Pow2(sh)];
  }

  /** mpn_rshift (ap, ap, n, 1), and the carry becomes the high bit. */
  method HalveWithCarry(ap: array<limb>)
    requires ap.Length > 0
    modifies ap
    ensures Val(ap[..]) == (Val(old(ap[..])) + BP(ap.Length)) / 2
  {
    hide Val, BP, Pow2;
    var n := ap.Length;
    ghost var v := Val(ap[..]);
    ValBound(ap[..]);
    Pow2Two();
    var out := MpnRshift(ap, 0, ap[..], 1);
    ghost var s := ap[..];
    assert ap[0..n] == s;
    HighLimb(s);
    BPLast(n);
    SetLimb(s, n - 1, s[n - 1] + HALF);
    ap[n - 1] := ap[n - 1] + HALF;
    assert ap[..] == s[n - 1 := s[n - 1] + HALF];
  }

  lemma BPLast(n: nat)
    requires n > 0
    ensures BP(n) == 2 * (HALF * BP(n - 1))
  {}

  /** {ap, n} <- {bp, n} + {cp, n}. */
  method AddN(ap: array<limb>, b: seq<limb>, c: seq<limb>) returns (cy: limb)
    requires |b| == |c| == ap.Length
    modifies ap
    ensures cy <= 1 && Val(ap[..]) + cy * BP(ap.Length) == Val(b) + Val(c)
  {
    hide Val, BP;
    MpnCopy(ap, 0, b);
    assert ap[0..ap.Length] == ap[..];
    cy := MpnAddN(ap, 0, c);
    assert ap[0..ap.Length] == ap[..];
  }

  // ---- delivery ----------------------------------------------------------------------

  method OverflowSum(env: Env, a: Mpfr, rnd: Mode, ghost x: real) returns (inex: int, ghost o: Outcome)
    requires a.Shape() && env.emin <= env.emax && x >= R2(env.emax)
    modifies a, a.mant, env`inexact, env`overflow
    ensures a.neg == old(a.neg) && a.Holds(o)
    ensures CorrectSigned(WithSign(a.neg, x), a.prec, rnd, env.emin, env.emax, a.neg, o, inex)
    ensures env.inexact && inex != 0 && env.overflow
    ensures TooLarge(WithSign(a.neg, x), a.prec, rnd, env.emax) && !TooSmall(WithSign(a.neg, x), a.prec, rnd, env.emin)
  {
    hide R2, Pow2, CorrectSigned, TooLarge, TooSmall;
    R2Pos(env.emax);
    LargeIsTooLarge(x, a.prec, rnd, a.neg, env.emin, env.emax);
    o := OverflowOutcome(a.prec, DirectionOf(rnd, a.neg), env.emax).0;
    inex := Overflow(env, a, rnd, a.neg);
  }

  /** add1sp.c:1086-1094, set_exponent. */
  method SetExponent(env: Env, a: Mpfr, rnd: Mode, bx: int, inexact: int, ghost m: int, ghost x: real)
    returns (inex: int, ghost o: Outcome)
    requires a.Shape() && env.emin <= env.emax && env.emin <= bx && x > 0.0
    requires Holding(a.mant[..], a.prec, m) && CorrectlyRounded(x, a.prec, DirectionOf(rnd, a.neg), m, bx, inexact)
    modifies a, a.mant, env`inexact, env`overflow
    ensures a.neg == old(a.neg) && a.Holds(o)
    ensures CorrectSigned(WithSign(a.neg, x), a.prec, rnd, env.emin, env.emax, a.neg, o, inex)
    ensures env.inexact == (old(env.inexact) || inex != 0)
    ensures env.overflow == (old(env.overflow) || TooLarge(WithSign(a.neg, x), a.prec, rnd, env.emax))
    ensures !TooSmall(WithSign(a.neg, x), a.prec, rnd, env.emin)
  {
    hide R2, Pow2, CorrectInRange, CorrectSigned, CorrectlyRounded, Val, Normalized, Sig, TooLarge, TooSmall;
    ghost var d := DirectionOf(rnd, a.neg);
    ExponentDecides(x, a.prec, rnd, a.neg, m, bx, inexact, env.emin, env.emax);
    Delivered(x, a.prec, d, m, bx, inexact, env.emin, env.emax);
    if bx > env.emax {
      o := OverflowOutcome(a.prec, d, env.emax).0;
      inex := Overflow(env, a, rnd, a.neg);
      return;
    }
    HoldingIsNormalized(a.mant[..], a.prec, m);
    a.kind, a.exp := Regular, bx;
    o := Finite(m, bx);
    SignedTwice(inexact, a.neg);
    inex := Signed(inexact, a.neg);
    SignedMeans(x, a.prec, rnd, a.neg, env.emin, env.emax, o, inex);
    if inex != 0 { env.inexact := true; }
  }
}

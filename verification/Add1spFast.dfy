/** The additions of add1sp.c for one, two and three limbs, unrolled by hand, and
    their common rounding.

    Each prepares the same thing as the generic addition: the significand A, a
    round bit, a sticky bit, and whether the exponent grows. */
module Add1spFast {
  import opened Powers
  import opened RealPowers
  import opened Limbs
  import opened Rounding
  import opened Range
  import opened Numbers
  import opened Exceptions
  import opened SignedRounding
  import opened Significands
  import opened SameSum
  import opened AddShifted
  import G = Add1sp

  function Lsh(x: limb, k: nat): (r: limb)
    requires k <= 64
  {
    ShiftedUp(x, k);
    (x % Pow2(64 - k)) * Pow2(k)
  }

  lemma ShiftedUp(x: limb, k: nat)
    requires k <= 64
    ensures 0 <= (x % Pow2(64 - k)) * Pow2(k) < B
  {
    hide Pow2;
    Pow2Limb();
    Pow2Add(64 - k, k);
    MulMono(0, x % Pow2(64 - k), Pow2(k));
    MulStrict(x % Pow2(64 - k), Pow2(64 - k), Pow2(k));
  }

  function Rsh(x: limb, k: nat): (r: limb)
    ensures r == x / Pow2(k)
  {
    DivLe(x, Pow2(k));
    x / Pow2(k)
  }

  // ---- small significands as integers -----------------------------------------------

  lemma Val1(s: seq<limb>)
    requires |s| == 1
    ensures Val(s) == s[0] && BP(1) == B
  {
    BPZero();
    assert s[1..] == [];
  }

  lemma Val2(s: seq<limb>)
    requires |s| == 2
    ensures Val(s) == s[0] + B * s[1] && BP(2) == B * B
  {
    Val1(s[1..]);
  }

  lemma Val3(s: seq<limb>)
    requires |s| == 3
    ensures Val(s) == s[0] + B * s[1] + B * B * s[2] && BP(3) == B * B * B
  {
    Val2(s[1..]);
  }

  // ---- rounding --------------------------------------------------------------------------

  /** add_one_ulp, limb by limb. */
  method AddUlpUnrolled(ap: array<limb>, p: nat, e0: int, ghost au: int) returns (e: int)
    requires Holding(ap[..], p, au) && ap.Length <= 3
    modifies ap
    ensures Holding(ap[..], p, NormSig(p, au + 1)) && e == NormExp(p, au + 1, e0)
  {
    hide Val, BP, Pow2, Holding;
    var n, sh := ap.Length, Unused(p);
    ghost var s := ap[..];
    UlpMultiple(s, p, au);
    ap[0] := (ap[0] + Pow2(sh)) % B;
    if n > 1 { ap[1] := (ap[1] + if ap[0] == 0 then 1 else 0) % B; }
    if n > 2 { ap[2] := (ap[2] + if ap[1] == 0 && ap[0] == 0 then 1 else 0) % B; }
    ChainValue(s, ap[..], Pow2(sh));
    AfterUlp(s, ap[..], p, au);
    e := e0;
    if ap[n - 1] == 0 {
      SetHighBit(ap, p);
      e := e + 1;
    }
  }

  lemma UlpMultiple(s: seq<limb>, p: nat, au: int)
    requires Holding(s, p, au)
    ensures |s| == LimbCount(p) >= 1 && p >= 1 && s[|s| - 1] >= HALF && s[0] % Pow2(Unused(p)) == 0 && Pow2(Unused(p)) <= HALF
    ensures s[0] + Pow2(Unused(p)) <= B
  {
    hide Val, BP, Pow2;
    HoldingIsNormalized(s, p, au);
    LimbsOfPrecision(p);
    Pow2Limb();
    var sh := Unused(p);
    Pow2Add(64 - sh, sh);
    var h := Pow2(sh);
    MulComm(h, s[0] / h);
    if s[0] / h >= Pow2(64 - sh) { MulMono(Pow2(64 - sh), s[0] / h, h); } else { MulMono(s[0] / h + 1, Pow2(64 - sh), h); Distrib(s[0] / h, 1, h); }
  }

  lemma ChainValue(s: seq<limb>, t: seq<limb>, u: int)
    requires 1 <= |s| == |t| <= 3 && 1 <= u && s[0] + u <= B && s[|s| - 1] >= HALF
    requires t[0] == (s[0] + u) % B
    requires |s| > 1 ==> t[1] == (s[1] + if t[0] == 0 then 1 else 0) % B
    requires |s| > 2 ==> t[2] == (s[2] + if t[1] == 0 && t[0] == 0 then 1 else 0) % B
    ensures Val(t) + (if t[|s| - 1] == 0 then 1 else 0) * BP(|s|) == Val(s) + u
  {
    hide Val, BP;
    Wrap(s[0], u, t[0]);
    if |s| == 1 {
      Val1(s);
      Val1(t);
    } else {
      Wrap(s[1], if t[0] == 0 then 1 else 0, t[1]);
      if |s| == 2 {
        Val2(s);
        Val2(t);
      } else {
        Wrap(s[2], if t[1] == 0 && t[0] == 0 then 1 else 0, t[2]);
        Val3(s);
        Val3(t);
      }
    }
  }

  lemma Wrap(x: limb, u: int, t: limb)
    requires 0 <= u && x + u <= B && t == (x + u) % B
    ensures t == if x + u == B then 0 else x + u
  {}

  lemma AfterUlp(s: seq<limb>, t: seq<limb>, p: nat, au: int)
    requires Holding(s, p, au) && |t| == |s|
    requires Val(t) + (if t[|s| - 1] == 0 then 1 else 0) * BP(|s|) == Val(s) + Pow2(Unused(p))
    ensures if t[|s| - 1] == 0 then Val(t) == 0 && au + 1 == Pow2(p)
            else Holding(t, p, au + 1) && au + 1 < Pow2(p)
  {
    hide Val, BP, Pow2;
    LimbsOfPrecision(p);
    ValBound(t);
    UlpCarry(Val(s), Val(t), if t[|s| - 1] == 0 then 1 else 0, au, Pow2(p), Pow2(Unused(p)));
  }

  /** The rounding at the end of each fast path. */
  method Finish(env: Env, a: Mpfr, rnd: Mode, ghost b: seq<limb>, ghost c: seq<limb>, bx0: int, ghost d: nat, k: nat, rb: bool, sb: bool, ghost x: real)
    returns (inex: int, ghost o: Outcome)
    requires a.Shape() && |b| == |c| == LimbCount(a.prec) <= 3 && x == Frac(b) * R2(bx0) + Frac(c) * R2(bx0 - d)
    requires env.emin <= env.emax && env.emin <= bx0
    requires Prepared(a.mant[..], a.prec, Val(b) * Pow2(d) + Val(c), d, k, rb, sb)
    modifies a, a.mant, env`inexact, env`overflow
    ensures a.neg == old(a.neg) && a.Holds(o)
    ensures CorrectSigned(WithSign(a.neg, x), a.prec, rnd, env.emin, env.emax, a.neg, o, inex)
    ensures env.inexact == (old(env.inexact) || inex != 0)
    ensures env.overflow == (old(env.overflow) || TooLarge(WithSign(a.neg, x), a.prec, rnd, env.emax))
    ensures !TooSmall(WithSign(a.neg, x), a.prec, rnd, env.emin)
  {
    hide Val, BP, Pow2, R2, Frac, Normalized, Sig, CorrectlyRounded, CorrectSigned, TooLarge, TooSmall, Holding, Prepared;
    var p, sh, ap, dir := a.prec, Unused(a.prec), a.mant, DirectionOf(rnd, a.neg);
    ghost var nn := Val(b) * Pow2(d) + Val(c);
    ghost var au := nn / Pow2(sh + d + k);
    PreparedSum(ap[..], b, c, p, bx0, d, k, rb, sb, dir, x);
    R2Pos(bx0 + k - 1);
    var bx := bx0 + k;
    if bx > env.emax {
      R2Mono(env.emax, bx - 1);
      inex, o := OverflowSum(env, a, rnd, x);
      return;
    }
    G.Parity(ap[..], p, nn, d, k, rb, sb);
    G.PreparedHolds(ap[..], p, nn, d, k, rb, sb);
    var up, inexact := false, 0;
    if rb || sb {
      inexact := -1;
      if rnd == RNDN {
        up := !(!rb || (!sb && ap[0] / Pow2(sh) % 2 == 0));
      } else {
        up := dir != TowardZero;
      }
    }
    if up {
      bx := AddUlpUnrolled(ap, p, bx, au);
      inexact := 1;
    }
    inex, o := SetExponent(env, a, rnd, bx, inexact, NormSig(p, if up then au + 1 else au), x);
  }

  // ---- from limbs to the prepared sum ---------------------------------------------------

  /** Precisions with unused bits: s holds t, or its half after a carry, with a0 as
      its low limb before the unused bits are cut off. */
  lemma FromLowLimb(s: seq<limb>, a0: limb, p: nat, nn: nat, d: nat, k: nat, rb: bool, sb: bool, t: nat, rem: int)
    requires p >= 1 && |s| == LimbCount(p) && Unused(p) >= 1 && k <= 1 && s[0] == a0 - a0 % Pow2(Unused(p))
    requires 0 <= rem < Pow2(d) && nn == t * Pow2(d) + rem && BP(|s|) <= 2 * t && t < 2 * BP(|s|)
    requires if k == 1 then Val(s[0 := a0]) == t / 2 && t >= BP(|s|) else Val(s[0 := a0]) == t < BP(|s|)
    requires rb == (a0 / Pow2(Unused(p) - 1) % 2 == 1)
    requires sb == (a0 % Pow2(Unused(p) - 1) != 0 || (k == 1 && t % 2 != 0) || rem != 0)
    ensures Prepared(s, p, nn, d, k, rb, sb)
  {
    hide Val, BP, Pow2, Prepared;
    var sh := Unused(p);
    var h := Pow2(sh - 1);
    LowLimbParts(s, a0, sh);
    Pow2Step(sh - 1);
    if k == 1 {
      HalfParts(t, h);
      G.PreparedByHalves(s, p, nn, d, rb, sb, t, Pow2(d), rem);
    } else {
      G.PreparedPlain(s, p, nn, d, rb, sb, t, Pow2(d), rem);
    }
  }

  lemma LowLimbParts(s: seq<limb>, a0: limb, sh: nat)
    requires |s| >= 1 && 1 <= sh < 64 && s[0] == a0 - a0 % Pow2(sh)
    ensures var w, h := Val(s[0 := a0]), Pow2(sh - 1);
            Val(s) == w / Pow2(sh) * Pow2(sh) && a0 / h % 2 == w / h % 2 && a0 % h == w % h
  {
    hide Val, BP, Pow2;
    var h, w := Pow2(sh - 1), s[0 := a0];
    Pow2Step(sh - 1);
    LowLimb(w, sh);
    LowBit(a0, h);
    LowBit(Val(w), h);
    BPZero();
    SetLimb(w, 0, s[0]);
    assert w[0 := s[0]] == s;
    MulComm(2 * h, Val(w) / (2 * h));
  }

  lemma HalfParts(t: nat, h: int)
    requires h >= 1
    ensures t / 2 / h == t / (2 * h) && t / 2 / (2 * h) == t / 2 / h / 2
    ensures t / 2 / h % 2 == t / (2 * h) % 2
    ensures t % (2 * h) != 0 <==> t % 2 != 0 || t / 2 % h != 0
  {
    ModProduct(t, 2, h);
    ModProduct(t / 2, h, 2);
    MulComm(h, 2);
  }

  /** Precisions without unused bits: the round bit is in `low`, unless there is a
      carry, when it is the last bit of t. */
  lemma FromFullLimbs(s: seq<limb>, p: nat, nn: nat, d: nat, k: nat, rb: bool, sb: bool, t: nat, rem: int, low: limb)
    requires p >= 1 && |s| == LimbCount(p) && Unused(p) == 0 && k <= 1
    requires 0 <= rem < Pow2(d) && nn == t * Pow2(d) + rem && BP(|s|) <= 2 * t && t < 2 * BP(|s|) && LowOk(low, rem, Pow2(d))
    requires if k == 1 then Val(s) == t / 2 && t >= BP(|s|) && rb == (t % 2 == 1) && sb == (low != 0)
             else Val(s) == t < BP(|s|) && rb == (low >= HALF) && sb == (low % HALF != 0)
    ensures Prepared(s, p, nn, d, k, rb, sb)
  {
    hide Val, BP, Pow2, Prepared;
    Pow2Zero();
    if k == 1 {
      G.PreparedByHalves(s, p, nn, d, rb, sb, t, Pow2(d), rem);
    } else {
      G.PreparedPlain(s, p, nn, d, rb, sb, t, Pow2(d), rem);
    }
  }

  /** Equal exponents: the sum has one bit more, and no other bit is lost. */
  lemma FromSame(s: seq<limb>, a0: limb, b: seq<limb>, c: seq<limb>, p: nat, rb: bool)
    requires Normalized(b, p) && Normalized(c, p) && |s| == LimbCount(p) && Unused(p) >= 1
    requires s[0] == a0 - (if rb then Pow2(Unused(p) - 1) else 0) && rb == (a0 / Pow2(Unused(p) - 1) % 2 == 1)
    requires Val(s[0 := a0]) == (Val(b) + Val(c)) / 2
    ensures Prepared(s, p, Val(b) * Pow2(0) + Val(c), 0, 1, rb, false)
  {
    hide Val, BP, Pow2, Prepared, Normalized, Sig;
    var sh := Unused(p);
    var h, t := Pow2(sh - 1), Val(b) + Val(c);
    G.SignificandBounds(b, p);
    G.SignificandBounds(c, p);
    Pow2Step(sh - 1);
    Pow2Zero();
    Distrib(Sig(b, p), Sig(c, p), 2 * h);
    TwiceMultiple(t, Sig(b, p) + Sig(c, p), h);
    LowLimb(s[0 := a0], sh - 1);
    TopHalf(a0, h);
    FromLowLimb(s, a0, p, Val(b) * Pow2(0) + Val(c), 0, 1, rb, false, t, 0);
  }

  lemma TwiceMultiple(t: int, m: int, h: int)
    requires h >= 1 && t == m * (2 * h)
    ensures t % 2 == 0 && t / 2 % h == 0
  {
    assert t == 2 * (m * h) by { MulAssoc(m, 2, h); MulAssoc(2, m, h); MulComm(m, 2); }
    DivUnique(m * h, h, m, 0);
  }

  // ---- one limb, p < 64 ---------------------------------------------------------------------

  /** add1sp.c:147-210. */
  method Prepare1(ap: array<limb>, b: seq<limb>, c: seq<limb>, p: nat, d: nat) returns (rb: bool, sb: bool, k: nat)
    requires Normalized(b, p) && Normalized(c, p) && p < 64 && ap.Length == 1
    modifies ap
    ensures Prepared(ap[..], p, Val(b) * Pow2(d) + Val(c), d, k, rb, sb)
  {
    hide Val, BP, Pow2, Prepared, Normalized;
    OneLimbOf(b, p);
    OneLimbOf(c, p);
    var sh := 64 - p;
    if d == 0 {
      Pow2Two();
      var a0 := Rsh(b[0], 1) + Rsh(c[0], 1);
      k := 1;
      rb := a0 / Pow2(sh - 1) % 2 == 1;
      TopBelow(a0, Pow2(sh - 1));
      ap[0] := a0 - if rb then Pow2(sh - 1) else 0;
      sb := false;
      EvenLimbs(b, c, p);
      Val1(ap[..][0 := a0]);
      FromSame(ap[..], a0, b, c, p, rb);
    } else if d < sh {
      rb, sb, k := Near1(ap, b, c, p, d);
    } else if d < 64 {
      rb, sb, k := Far1(ap, b, c, p, d);
    } else {
      G.FarBits(b, c, p, d);
      ap[0] := b[0];
      assert ap[..] == b;
      rb, sb, k := false, true, 0;
    }
  }

  lemma OneLimbOf(b: seq<limb>, p: nat)
    requires Normalized(b, p) && p < 64
    ensures |b| == 1 && Unused(p) == 64 - p && Val(b) == b[0] >= HALF && b[0] % Pow2(64 - p) == 0 && BP(1) == B
  {
    hide Pow2;
    Val1(b);
  }

  lemma TopBelow(x: nat, h: int)
    requires h >= 1
    ensures x / h % 2 == 1 ==> x >= h
  {
    if x < h { ModSmall(x, h, 0); }
  }

  lemma EvenLimbs(b: seq<limb>, c: seq<limb>, p: nat)
    requires Normalized(b, p) && Normalized(c, p) && p < 64
    ensures b[0] / 2 + c[0] / 2 == (b[0] as int + c[0]) / 2
  {
    hide Pow2, BP;
    Pow2Step(63 - p);
    EvenOf(b[0], Pow2(63 - p));
  }

  lemma EvenOf(x: int, h: int)
    requires h >= 1 && x % (2 * h) == 0
    ensures x % 2 == 0
  {
    assert x == 2 * (h * (x / (2 * h))) by { MulAssoc(2, h, x / (2 * h)); }
  }

  /** What both branches for 0 < d < 64 establish. */
  lemma From1(s: seq<limb>, a0: limb, x: limb, a: limb, b: seq<limb>, c: seq<limb>, p: nat, d: nat, k: nat, rb: bool, sb: bool)
    requires Normalized(b, p) && Normalized(c, p) && p < 64 && |s| == 1 && x == c[0] / Pow2(d)
    requires a == (b[0] + x) % B && k == (if a < b[0] then 1 else 0) && a0 == if k == 1 then HALF + a / 2 else a
    requires s[0] == a0 - a0 % Pow2(64 - p) && rb == (a0 / Pow2(63 - p) % 2 == 1)
    requires sb == (a0 % Pow2(63 - p) != 0 || (k == 1 && a % 2 != 0) || c[0] % Pow2(d) != 0)
    ensures Prepared(s, p, Val(b) * Pow2(d) + Val(c), d, k, rb, sb)
  {
    hide Val, BP, Pow2, Prepared, Normalized;
    OneLimbOf(b, p);
    OneLimbOf(c, p);
    Val1(s[0 := a0]);
    G.SumSize(Val(b), Val(c), Pow2(d), B);
    Wrapped(b[0], x, a, k);
    FromLowLimb(s, a0, p, Val(b) * Pow2(d) + Val(c), d, k, rb, sb, b[0] as int + x, c[0] % Pow2(d));
  }

  /** The carry, found by comparing the wrapped sum with an operand. */
  lemma Wrapped(b: limb, x: limb, a: limb, k: nat)
    requires a == (b + x) % B && k == if a < b then 1 else 0
    ensures b + x == a + k * B
    ensures k == 1 ==> HALF + a / 2 == (b as int + x) / 2 && (b as int + x) % 2 == a % 2
  {
    if b + x >= B { ModSmall(b as int + x, B, 1); } else { ModSmall(b as int + x, B, 0); }
  }

  /** add1sp.c:175-189: no bit of c is lost. */
  method Near1(ap: array<limb>, b: seq<limb>, c: seq<limb>, p: nat, d: nat) returns (rb: bool, sb: bool, k: nat)
    requires Normalized(b, p) && Normalized(c, p) && p < 64 && ap.Length == 1 && 0 < d < 64 - p
    modifies ap
    ensures Prepared(ap[..], p, Val(b) * Pow2(d) + Val(c), d, k, rb, sb)
  {
    hide Val, BP, Pow2, Prepared, Normalized;
    OneLimbOf(b, p);
    OneLimbOf(c, p);
    var sh := 64 - p;
    var x := Rsh(c[0], d);
    var a := (b[0] + x) % B;
    var a0 := a;
    k := 0;
    if a0 < b[0] {
      a0 := HALF + a0 / 2;
      k := 1;
    }
    rb := a0 / Pow2(sh - 1) % 2 == 1;
    sb := a0 % Pow2(sh - 1) != 0;
    ModAtMost(a0, Pow2(sh));
    ap[0] := a0 - a0 % Pow2(sh);
    NothingLost(b[0], c[0], sh, d);
    From1(ap[..], a0, x, a, b, c, p, d, k, rb, sb);
  }

  lemma NothingLost(b: limb, c: limb, sh: nat, d: nat)
    requires 0 < d < sh <= 64 && b % Pow2(sh) == 0 && c % Pow2(sh) == 0
    ensures c % Pow2(d) == 0 && (b + c / Pow2(d)) % B % 2 == 0
  {
    hide Pow2;
    PowerSplit(sh, d);
    LostBits(b, c, Pow2(sh), Pow2(sh - 1), Pow2(d), Pow2(sh - d - 1));
  }

  lemma PowerSplit(sh: nat, d: nat)
    requires 0 < d < sh
    ensures Pow2(sh) == 2 * Pow2(sh - 1) && Pow2(sh) == Pow2(d) * (2 * Pow2(sh - d - 1))
  {
    hide Pow2;
    Pow2Step(sh - d - 1);
    Pow2Step(sh - 1);
    Pow2Add(d, sh - d);
  }

  lemma LostBits(b: limb, c: limb, g: int, g1: int, d: int, h: int)
    requires d >= 1 && h >= 1 && g1 >= 1 && g == 2 * g1 && g == d * (2 * h) && b % g == 0 && c % g == 0
    ensures c % d == 0 && (b + c / d) % B % 2 == 0
  {
    EvenOf(b, g1);
    LostPlain(c, d, h);
    DivLe(c, d);
    EvenWrapped(b as int + c / d);
  }

  lemma LostPlain(c: nat, d: int, h: int)
    requires d >= 1 && h >= 1 && c % (d * (2 * h)) == 0
    ensures c % d == 0 && c / d % 2 == 0
  {
    ModProduct(c, d, 2 * h);
    BothZero(c % d, c / d % (2 * h), d);
    DivLe(c, d);
    EvenOf(c / d, h);
  }

  lemma BothZero(x: int, y: int, d: int)
    requires 0 <= x && 0 <= y && d >= 1 && x + d * y == 0
    ensures x == 0 && y == 0
  {
    if y > 0 { MulMono(1, y, d); MulComm(y, d); }
    if y == 0 { assert d * y == 0; }
  }

  lemma EvenWrapped(y: int)
    requires y % 2 == 0 && 0 <= y < 2 * B
    ensures y % B % 2 == 0
  {
    if y >= B { ModSmall(y, B, 1); } else { ModSmall(y, B, 0); }
  }

  /** add1sp.c:190-203. */
  method Far1(ap: array<limb>, b: seq<limb>, c: seq<limb>, p: nat, d: nat) returns (rb: bool, sb: bool, k: nat)
    requires Normalized(b, p) && Normalized(c, p) && p < 64 && ap.Length == 1 && 64 - p <= d < 64
    modifies ap
    ensures Prepared(ap[..], p, Val(b) * Pow2(d) + Val(c), d, k, rb, sb)
  {
    hide Val, BP, Pow2, Prepared, Normalized;
    OneLimbOf(b, p);
    OneLimbOf(c, p);
    var sh := 64 - p;
    sb := Lsh(c[0], 64 - d) != 0;
    ProductZero(c[0] % Pow2(d), Pow2(64 - d));
    var x := Rsh(c[0], d);
    var a := (b[0] + x) % B;
    var a0 := a;
    k := 0;
    if a0 < b[0] {
      sb := sb || a0 % 2 != 0;
      a0 := HALF + a0 / 2;
      k := 1;
    }
    rb := a0 / Pow2(sh - 1) % 2 == 1;
    sb := sb || a0 % Pow2(sh - 1) != 0;
    ModAtMost(a0, Pow2(sh));
    ap[0] := a0 - a0 % Pow2(sh);
    From1(ap[..], a0, x, a, b, c, p, d, k, rb, sb);
  }

  // ---- one limb, p = 64 ---------------------------------------------------------------------

  /** add1sp.c:274-316. */
  method Prepare1n(ap: array<limb>, b: seq<limb>, c: seq<limb>, d: nat) returns (rb: bool, sb: bool, k: nat)
    requires Normalized(b, 64) && Normalized(c, 64) && ap.Length == 1
    modifies ap
    ensures Prepared(ap[..], 64, Val(b) * Pow2(d) + Val(c), d, k, rb, sb)
  {
    hide Val, BP, Pow2, Prepared, Normalized;
    if d == 0 {
      rb := Same1n(ap, b, c);
      sb, k := false, 1;
    } else if d < 64 {
      rb, sb, k := Near1n(ap, b, c, d);
    } else {
      FullLimb(b);
      FullLimb(c);
      G.FarBits(b, c, 64, d);
      sb := d != 64 || c[0] != HALF;
      ap[0] := b[0];
      assert ap[..] == b;
      rb, k := d == 64, 0;
    }
  }

  /** add1sp.c:274-281. */
  method Same1n(ap: array<limb>, b: seq<limb>, c: seq<limb>) returns (rb: bool)
    requires Normalized(b, 64) && Normalized(c, 64) && ap.Length == 1
    modifies ap
    ensures Prepared(ap[..], 64, Val(b) * Pow2(0) + Val(c), 0, 1, rb, false)
  {
    hide Val, BP, Pow2, Prepared, Normalized;
    FullLimb(b);
    FullLimb(c);
    Pow2Zero();
    var a0 := (b[0] + c[0]) % B;
    ModSmall(b[0] as int + c[0], B, 1);
    rb := a0 % 2 != 0;
    ap[0] := HALF + a0 / 2;
    Val1(ap[..]);
    G.PreparedByHalves(ap[..], 64, Val(b) * Pow2(0) + Val(c), 0, rb, false, b[0] as int + c[0], 1, 0);
  }

  /** add1sp.c:293-309. */
  method Near1n(ap: array<limb>, b: seq<limb>, c: seq<limb>, d: nat) returns (rb: bool, sb: bool, k: nat)
    requires Normalized(b, 64) && Normalized(c, 64) && ap.Length == 1 && 0 < d < 64
    modifies ap
    ensures Prepared(ap[..], 64, Val(b) * Pow2(d) + Val(c), d, k, rb, sb)
  {
    hide Val, BP, Pow2, Prepared, Normalized;
    FullLimb(b);
    FullLimb(c);
    var x := Rsh(c[0], d);
    var a0 := (b[0] + x) % B;
    var low := Lsh(c[0], 64 - d);
    Wrapped(b[0], x, a0, if a0 < b[0] then 1 else 0);
    assert Val(c[..0]) == 0 by { NoLimbs(c, c, c); }
    LowLimbOk(c, 0, d, low);
    if a0 < b[0] {
      ap[0] := HALF + a0 / 2;
      rb, sb, k := a0 % 2 != 0, low != 0, 1;
    } else {
      ap[0] := a0;
      rb, sb, k := low >= HALF, low % HALF != 0, 0;
    }
    ghost var rem := c[0] % Pow2(d);
    FullSum(b[0], c[0], Pow2(d), x, Val(b) * Pow2(d) + Val(c));
    Full1n(ap[..], b[0], Val(b) * Pow2(d) + Val(c), d, x, a0, rem, low, k, rb, sb);
  }

  lemma Full1n(s: seq<limb>, b0: limb, nn: nat, d: nat, x: limb, a0: limb, rem: nat, low: limb, k: nat, rb: bool, sb: bool)
    requires |s| == 1 && k <= 1 && b0 + x == a0 + k * B && b0 >= HALF
    requires LowOk(low, rem, Pow2(d)) && rem < Pow2(d) && nn == (b0 + x) * Pow2(d) + rem && b0 + x < 2 * B
    requires if k == 1 then s[0] == (b0 as int + x) / 2 && rb == (a0 % 2 != 0) && sb == (low != 0)
             else s[0] == a0 && rb == (low >= HALF) && sb == (low % HALF != 0)
    ensures Prepared(s, 64, nn, d, k, rb, sb)
  {
    hide Val, BP, Pow2, Prepared, LowOk;
    Val1(s);
    FromFullLimbs(s, 64, nn, d, k, rb, sb, b0 as int + x, rem, low);
  }

  lemma FullSum(vb: int, vc: int, dd: int, x: int, nn: int)
    requires HALF <= vb < B && 0 <= vc < B && dd >= 1 && x == vc / dd && nn == vb * dd + vc
    ensures nn == (vb + x) * dd + vc % dd && 0 <= vc % dd < dd && B <= 2 * (vb + x) && vb + x < 2 * B
  {
    G.SumSize(vb, vc, dd, B);
  }

  lemma FullLimb(b: seq<limb>)
    requires Normalized(b, 64)
    ensures |b| == 1 && Unused(64) == 0 && LimbCount(64) == 1 && Val(b) == b[0] >= HALF && BP(1) == B
    ensures Sig(b, 64) == b[0] && Pow2(63) == HALF
  {
    hide Pow2;
    Pow2Zero();
    Pow2Limb();
    Val1(b);
  }

  // ---- two limbs ------------------------------------------------------------------------

  /** One limb of a sum, and the carry that the comparison detects. */
  lemma LimbSum(b: limb, c: limb, cy: int, a: limb)
    requires 0 <= cy <= 1 && a == (b + c + cy) % B
    ensures b + c + cy == a + (if b + c + cy >= B then B else 0)
    ensures c + cy < B ==> (a < b <==> b + c + cy >= B)
  {
    if b + c + cy >= B { ModSmall(b as int + c + cy, B, 1); } else { ModSmall(b as int + c + cy, B, 0); }
  }

  lemma TwoLimbsOf(b: seq<limb>, p: nat)
    requires Normalized(b, p) && 64 < p <= 128
    ensures |b| == 2 && Unused(p) == 128 - p && Val(b) == b[0] + B * b[1] && b[1] >= HALF && BP(2) == B * B
  {
    hide Pow2;
    Val2(b);
  }

  /** The limbs of the shifted sum, two bits of a limb changing places. */
  lemma Halved2(a0: limb, a1: limb, t: int)
    requires t == a0 + B * a1 + B * B
    ensures (a1 % 2) * HALF + a0 / 2 < B && HALF + a1 / 2 < B
    ensures (a1 % 2) * HALF + a0 / 2 + B * (HALF + a1 / 2) == t / 2 && t % 2 == a0 % 2
  {}

  /** add1sp.c:379-390. */
  method Same2(ap: array<limb>, b: seq<limb>, c: seq<limb>, p: nat) returns (rb: bool)
    requires Normalized(b, p) && Normalized(c, p) && 64 < p < 128 && ap.Length == 2
    modifies ap
    ensures Prepared(ap[..], p, Val(b) * Pow2(0) + Val(c), 0, 1, rb, false)
  {
    hide Val, BP, Pow2, Prepared, Normalized;
    TwoLimbsOf(b, p);
    TwoLimbsOf(c, p);
    var sh := 128 - p;
    var a0 := (b[0] + c[0]) % B;
    var a1 := (b[1] + c[1] + if a0 < b[0] then 1 else 0) % B;
    LimbSum(b[0], c[0], 0, a0);
    LimbSum(b[1], c[1], if a0 < b[0] then 1 else 0, a1);
    Halved2(a0, a1, Val(b) + Val(c));
    a0 := (a1 % 2) * HALF + a0 / 2;
    rb := a0 / Pow2(sh - 1) % 2 == 1;
    TopBelow(a0, Pow2(sh - 1));
    ap[1] := HALF + a1 / 2;
    ap[0] := a0 - if rb then Pow2(sh - 1) else 0;
    Val2(ap[..][0 := a0]);
    FromSame(ap[..], a0, b, c, p, rb);
  }

  /** exponent_shift, and the extraction of the bits after it. */
  method Tail2(ap: array<limb>, a: limb, a1: limb, carry: bool, sb0: bool, p: nat, ghost b: seq<limb>, ghost c: seq<limb>, ghost d: nat)
    returns (rb: bool, sb: bool, k: nat)
    requires Normalized(b, p) && Normalized(c, p) && 64 < p < 128 && ap.Length == 2
    requires Val(b) + Val(c) / Pow2(d) == a + B * a1 + (if carry then B * B else 0) && sb0 == (Val(c) % Pow2(d) != 0)
    modifies ap
    ensures Prepared(ap[..], p, Val(b) * Pow2(d) + Val(c), d, k, rb, sb)
  {
    hide Val, BP, Pow2, Prepared, Normalized;
    TwoLimbsOf(b, p);
    TwoLimbsOf(c, p);
    G.SignificandBounds(b, p);
    G.SignificandBounds(c, p);
    ghost var t := Val(b) + Val(c) / Pow2(d);
    G.SumSize(Val(b), Val(c), Pow2(d), B * B);
    var sh := 128 - p;
    var a0 := a;
    sb, k := sb0, 0;
    if carry {
      sb := sb || a0 % 2 != 0;
      Halved2(a0, a1, t);
      a0 := (a1 % 2) * HALF + a0 / 2;
      ap[1] := HALF + a1 / 2;
      k := 1;
    } else {
      ap[1] := a1;
    }
    rb := a0 / Pow2(sh - 1) % 2 == 1;
    sb := sb || a0 % Pow2(sh - 1) != 0;
    ModAtMost(a0, Pow2(sh));
    ap[0] := a0 - a0 % Pow2(sh);
    Val2(ap[..][0 := a0]);
    FromLowLimb(ap[..], a0, p, Val(b) * Pow2(d) + Val(c), d, k, rb, sb, t, Val(c) % Pow2(d));
  }

  /** c shifted by less than a limb. */
  lemma Shift2(c: seq<limb>, d: nat)
    requires |c| == 2 && 0 < d < 64
    ensures Lsh(c[1], 64 - d) + Rsh(c[0], d) < B
    ensures Val(c) / Pow2(d) == Lsh(c[1], 64 - d) + Rsh(c[0], d) + B * Rsh(c[1], d)
    ensures Lsh(c[0], 64 - d) != 0 <==> Val(c) % Pow2(d) != 0
    ensures Rsh(c[1], d) < HALF
  {
    hide Val, BP, Pow2;
    ShiftedVal(c, d);
    Val2(Shifted(c, d));
    LowLimb(c, d);
    ProductZero(c[0] % Pow2(d), Pow2(64 - d));
    ShiftedFits(c[0], c[1], d);
    SmallRsh(c[1], d);
  }

  lemma SmallRsh(x: limb, d: nat)
    requires 0 < d < 64
    ensures Rsh(x, d) < HALF
  {
    hide Pow2;
    Pow2Limb();
    Pow2Add(d, 64 - d);
    Pow2Mono(64 - d, 63);
    DivMulLt(x, Pow2(d), Pow2(64 - d));
  }

  /** c shifted by one limb and r more bits. */
  lemma ShiftLimb2(c: seq<limb>, d: nat)
    requires |c| == 2 && 64 <= d < 128
    ensures Val(c) / Pow2(d) == Rsh(c[1], d - 64)
    ensures (c[0] != 0 || Lsh(c[1], 128 - d) != 0) <==> Val(c) % Pow2(d) != 0
  {
    hide Val, BP, Pow2;
    SplitShift(c, 1, d - 64);
    Val1(c[1..]);
    Val1(c[..1]);
    ProductZero(c[1] % Pow2(d - 64), Pow2(128 - d));
    BothZeroB(c[1] % Pow2(d - 64), c[0]);
  }

  lemma BothZeroB(x: int, y: int)
    requires 0 <= x && 0 <= y
    ensures x * B + y != 0 <==> x != 0 || y != 0
  {}

  /** add1sp.c:391-443. */
  method Prepare2(ap: array<limb>, b: seq<limb>, c: seq<limb>, p: nat, d: nat) returns (rb: bool, sb: bool, k: nat)
    requires Normalized(b, p) && Normalized(c, p) && 64 < p < 128 && ap.Length == 2
    modifies ap
    ensures Prepared(ap[..], p, Val(b) * Pow2(d) + Val(c), d, k, rb, sb)
  {
    hide Val, BP, Pow2, Prepared, Normalized;
    TwoLimbsOf(b, p);
    TwoLimbsOf(c, p);
    if d == 0 {
      rb := Same2(ap, b, c, p);
      sb, k := false, 1;
    } else if d < 64 {
      Shift2(c, d);
      sb := Lsh(c[0], 64 - d) != 0;
      var a0 := (b[0] + (Lsh(c[1], 64 - d) + Rsh(c[0], d))) % B;
      var a1 := (b[1] + Rsh(c[1], d) + if a0 < b[0] then 1 else 0) % B;
      LimbSum(b[0], Lsh(c[1], 64 - d) + Rsh(c[0], d), 0, a0);
      LimbSum(b[1], Rsh(c[1], d), if a0 < b[0] then 1 else 0, a1);
      rb, sb, k := Tail2(ap, a0, a1, a1 < b[1], sb, p, b, c, d);
    } else if d < 128 {
      ShiftLimb2(c, d);
      Aligned(c[1]);
      sb := if d == 64 then c[0] != 0 else c[0] != 0 || Lsh(c[1], 128 - d) != 0;
      var a0 := (b[0] + Rsh(c[1], d - 64)) % B;
      var a1 := (b[1] + if a0 < b[0] then 1 else 0) % B;
      LimbSum(b[0], Rsh(c[1], d - 64), 0, a0);
      LimbSum(b[1], 0, if a0 < b[0] then 1 else 0, a1);
      rb, sb, k := Tail2(ap, a0, a1, a1 == 0, sb, p, b, c, d);
    } else {
      G.FarBits(b, c, p, d);
      ap[0] := b[0];
      ap[1] := b[1];
      assert ap[..] == b;
      rb, sb, k := false, true, 0;
    }
  }

  /** Shifting by a whole limb leaves nothing below it. */
  lemma Aligned(x: limb)
    ensures Lsh(x, 64) == 0
  {}

  // ---- two limbs, p = 128 ------------------------------------------------------------------

  lemma FullLimbs(b: seq<limb>)
    requires Normalized(b, 128)
    ensures |b| == 2 && Unused(128) == 0 && LimbCount(128) == 2 && Sig(b, 128) == Val(b) && Pow2(127) == HALF * B
  {
    hide Pow2, Val;
    Pow2Zero();
    Pow2Limb();
    Pow2Add(63, 64);
  }

  /** What the branches for d < 128 establish. */
  lemma TwoLimbBounds(b: seq<limb>)
    requires |b| == 2 && b[1] >= HALF
    ensures B * B <= 2 * Val(b) < 2 * (B * B)
  {
    Val2(b);
  }

  lemma From2n(s: seq<limb>, a0: limb, a1: limb, carry: bool, b: seq<limb>, c: seq<limb>, d: nat, low: limb, k: nat, rb: bool, sb: bool)
    requires |b| == |c| == |s| == 2 && b[1] >= HALF && c[1] >= HALF && k == (if carry then 1 else 0)
    requires Val(b) + Val(c) / Pow2(d) == a0 + B * a1 + (if carry then B * B else 0) && LowOk(low, Val(c) % Pow2(d), Pow2(d))
    requires if carry then s[0] == (a1 % 2) * HALF + a0 / 2 && s[1] == HALF + a1 / 2 && rb == (a0 % 2 != 0) && sb == (low != 0)
             else s[0] == a0 && s[1] == a1 && rb == (low >= HALF) && sb == (low % HALF != 0)
    ensures Prepared(s, 128, Val(b) * Pow2(d) + Val(c), d, k, rb, sb)
  {
    hide Val, BP, Pow2, Prepared, LowOk;
    TwoLimbBounds(b);
    TwoLimbBounds(c);
    var vb, vc, dd := Val(b), Val(c), Pow2(d);
    G.SumSize(vb, vc, dd, B * B);
    var nn, t, rem := vb * dd + vc, vb + vc / dd, vc % dd;
    Full2n(s, a0, a1, carry, nn, d, low, k, rb, sb, t, rem);
  }

  lemma Full2n(s: seq<limb>, a0: limb, a1: limb, carry: bool, nn: nat, d: nat, low: limb, k: nat, rb: bool, sb: bool, t: nat, rem: int)
    requires |s| == 2 && k == (if carry then 1 else 0) && t == a0 + B * a1 + (if carry then B * B else 0)
    requires 0 <= rem < Pow2(d) && nn == t * Pow2(d) + rem && B * B <= 2 * t && t < 2 * (B * B) && LowOk(low, rem, Pow2(d))
    requires if carry then s[0] == (a1 % 2) * HALF + a0 / 2 && s[1] == HALF + a1 / 2 && rb == (a0 % 2 != 0) && sb == (low != 0)
             else s[0] == a0 && s[1] == a1 && rb == (low >= HALF) && sb == (low % HALF != 0)
    ensures Prepared(s, 128, nn, d, k, rb, sb)
  {
    hide Val, BP, Pow2, Prepared, LowOk;
    if carry { Halved2(a0, a1, t); }
    Val2(s);
    FromFullLimbs(s, 128, nn, d, k, rb, sb, t, rem, low);
  }

  /** add1sp.c:538-556: the limb of lost bits, its high bit being the round bit unless
      there is a carry. */
  method Near2n(ap: array<limb>, b: seq<limb>, c: seq<limb>, d: nat) returns (rb: bool, sb: bool, k: nat)
    requires Normalized(b, 128) && Normalized(c, 128) && ap.Length == 2 && 0 < d < 128
    modifies ap
    ensures Prepared(ap[..], 128, Val(b) * Pow2(d) + Val(c), d, k, rb, sb)
  {
    hide Val, BP, Pow2, Prepared, Normalized, LowOk;
    TwoLimbsOf(b, 128);
    TwoLimbsOf(c, 128);
    var low, a0, a1;
    if d < 64 {
      Shift2(c, d);
      low := Lsh(c[0], 64 - d);
      a0 := (b[0] + (Lsh(c[1], 64 - d) + Rsh(c[0], d))) % B;
      a1 := (b[1] + Rsh(c[1], d) + if a0 < b[0] then 1 else 0) % B;
      LimbSum(b[0], Lsh(c[1], 64 - d) + Rsh(c[0], d), 0, a0);
      LimbSum(b[1], Rsh(c[1], d), if a0 < b[0] then 1 else 0, a1);
    } else {
      ShiftLimb2(c, d);
      low := if d == 64 then c[0] else OrFlag(Lsh(c[1], 128 - d), c[0]);
      a0 := (b[0] + Rsh(c[1], d - 64)) % B;
      a1 := (b[1] + if a0 < b[0] then 1 else 0) % B;
      LimbSum(b[0], Rsh(c[1], d - 64), 0, a0);
      LimbSum(b[1], 0, if a0 < b[0] then 1 else 0, a1);
    }
    Low2n(c, d, low);
    if a1 < b[1] {
      rb, sb, k := a0 % 2 != 0, low != 0, 1;
      Halved2(a0, a1, a0 + B * a1 + B * B);
      ap[0] := (a1 % 2) * HALF + a0 / 2;
      ap[1] := HALF + a1 / 2;
    } else {
      rb, sb, k := low >= HALF, low % HALF != 0, 0;
      ap[0] := a0;
      ap[1] := a1;
    }
    From2n(ap[..], a0, a1, a1 < b[1], b, c, d, low, k, rb, sb);
  }

  lemma Low2n(c: seq<limb>, d: nat, low: limb)
    requires |c| == 2 && 0 < d < 128
    requires low == if d < 64 then Lsh(c[0], 64 - d) else if d == 64 then c[0] else OrFlag(Lsh(c[1], 128 - d), c[0])
    ensures LowOk(low, Val(c) % Pow2(d), Pow2(d))
  {
    hide Val, BP, Pow2, LowOk;
    NoLimbs(c, c, c);
    if d < 64 {
      LowLimbOk(c, 0, d, low);
    } else if d == 64 {
      LowLimbWhole(c, 1, low);
    } else {
      Val1(c[..1]);
      LowLimbOk(c, 1, d - 64, low);
    }
  }

  /** add1sp.c:496-506. */
  method Prepare2n(ap: array<limb>, b: seq<limb>, c: seq<limb>, d: nat) returns (rb: bool, sb: bool, k: nat)
    requires Normalized(b, 128) && Normalized(c, 128) && ap.Length == 2
    modifies ap
    ensures Prepared(ap[..], 128, Val(b) * Pow2(d) + Val(c), d, k, rb, sb)
  {
    hide Val, BP, Pow2, Prepared, Normalized, LowOk;
    TwoLimbsOf(b, 128);
    TwoLimbsOf(c, 128);
    if d == 0 {
      var a0 := (b[0] + c[0]) % B;
      var a1 := (b[1] + c[1] + if a0 < b[0] then 1 else 0) % B;
      LimbSum(b[0], c[0], 0, a0);
      LimbSum(b[1], c[1], if a0 < b[0] then 1 else 0, a1);
      rb, sb, k := a0 % 2 != 0, false, 1;
      Halved2(a0, a1, a0 + B * a1 + B * B);
      ap[0] := (a1 % 2) * HALF + a0 / 2;
      ap[1] := HALF + a1 / 2;
      Exact2n(Val(c));
      From2n(ap[..], a0, a1, true, b, c, d, 0, k, rb, sb);
    } else if d < 128 {
      rb, sb, k := Near2n(ap, b, c, d);
    } else {
      FullLimbs(c);
      G.FarBits(b, c, 128, d);
      if d == 128 {
        rb, sb := true, c[0] != 0 || c[1] > HALF;
      } else {
        rb, sb := false, true;
      }
      ap[0] := b[0];
      ap[1] := b[1];
      assert ap[..] == b;
      k := 0;
    }
  }

  lemma Exact2n(v: int)
    ensures v / Pow2(0) == v && LowOk(0, v % Pow2(0), Pow2(0))
  {}

  // ---- three limbs ------------------------------------------------------------------------

  lemma ThreeLimbsOf(b: seq<limb>, p: nat)
    requires Normalized(b, p) && 128 < p < 192
    ensures |b| == 3 && Unused(p) == 192 - p && Val(b) == b[0] + B * b[1] + B * B * b[2] && b[2] >= HALF && BP(3) == B * B * B
  {
    hide Pow2;
    Val3(b);
  }

  lemma Halved3(a0: limb, a1: limb, a2: limb, t: int)
    requires t == a0 + B * a1 + B * B * a2 + B * B * B
    ensures (a1 % 2) * HALF + a0 / 2 < B && (a2 % 2) * HALF + a1 / 2 < B && HALF + a2 / 2 < B
    ensures (a1 % 2) * HALF + a0 / 2 + B * ((a2 % 2) * HALF + a1 / 2) + B * B * (HALF + a2 / 2) == t / 2 && t % 2 == a0 % 2
  {}

  /** The carry out of the middle limb, from the comparisons of the code. */
  lemma MiddleCarry(b: limb, c: limb, cy: int, a: limb)
    requires 0 <= cy <= 1 && a == (b + c + cy) % B
    ensures (a < b || (a == b && cy == 1)) <==> b + c + cy >= B
  {
    LimbSum(b, c, cy, a);
  }

  /** add1sp.c:632-646. */
  method Same3(ap: array<limb>, b: seq<limb>, c: seq<limb>, p: nat) returns (rb: bool)
    requires Normalized(b, p) && Normalized(c, p) && 128 < p < 192 && ap.Length == 3
    modifies ap
    ensures Prepared(ap[..], p, Val(b) * Pow2(0) + Val(c), 0, 1, rb, false)
  {
    hide Val, BP, Pow2, Prepared, Normalized;
    ThreeLimbsOf(b, p);
    ThreeLimbsOf(c, p);
    var sh := 192 - p;
    var a0 := (b[0] + c[0]) % B;
    var cy := if a0 < b[0] then 1 else 0;
    var a1 := (b[1] + c[1] + cy) % B;
    var cy1 := if a1 < b[1] || (a1 == b[1] && a0 < b[0]) then 1 else 0;
    var a2 := (b[2] + c[2] + cy1) % B;
    LimbSum(b[0], c[0], 0, a0);
    LimbSum(b[1], c[1], cy, a1);
    MiddleCarry(b[1], c[1], cy, a1);
    LimbSum(b[2], c[2], cy1, a2);
    Halved3(a0, a1, a2, Val(b) + Val(c));
    a0 := (a1 % 2) * HALF + a0 / 2;
    rb := a0 / Pow2(sh - 1) % 2 == 1;
    TopBelow(a0, Pow2(sh - 1));
    ap[2] := HALF + a2 / 2;
    ap[1] := (a2 % 2) * HALF + a1 / 2;
    ap[0] := a0 - if rb then Pow2(sh - 1) else 0;
    Val3(ap[..][0 := a0]);
    FromSame(ap[..], a0, b, c, p, rb);
  }

  /** exponent_shift, and the extraction of the bits after it. */
  method Tail3(ap: array<limb>, a: limb, a1: limb, a2: limb, carry: bool, sb0: bool, p: nat, ghost b: seq<limb>, ghost c: seq<limb>, ghost d: nat)
    returns (rb: bool, sb: bool, k: nat)
    requires Normalized(b, p) && Normalized(c, p) && 128 < p < 192 && ap.Length == 3
    requires Val(b) + Val(c) / Pow2(d) == a + B * a1 + B * B * a2 + (if carry then B * B * B else 0)
    requires sb0 == (Val(c) % Pow2(d) != 0)
    modifies ap
    ensures Prepared(ap[..], p, Val(b) * Pow2(d) + Val(c), d, k, rb, sb)
  {
    hide Val, BP, Pow2, Prepared, Normalized;
    ThreeLimbsOf(b, p);
    ThreeLimbsOf(c, p);
    G.SignificandBounds(b, p);
    G.SignificandBounds(c, p);
    ghost var t := Val(b) + Val(c) / Pow2(d);
    G.SumSize(Val(b), Val(c), Pow2(d), B * B * B);
    var sh := 192 - p;
    var a0 := a;
    sb, k := sb0, 0;
    if carry {
      sb := sb || a0 % 2 != 0;
      Halved3(a0, a1, a2, t);
      a0 := (a1 % 2) * HALF + a0 / 2;
      ap[1] := (a2 % 2) * HALF + a1 / 2;
      ap[2] := HALF + a2 / 2;
      k := 1;
    } else {
      ap[1] := a1;
      ap[2] := a2;
    }
    rb := a0 / Pow2(sh - 1) % 2 == 1;
    sb := sb || a0 % Pow2(sh - 1) != 0;
    ModAtMost(a0, Pow2(sh));
    ap[0] := a0 - a0 % Pow2(sh);
    Val3(ap[..][0 := a0]);
    FromLowLimb(ap[..], a0, p, Val(b) * Pow2(d) + Val(c), d, k, rb, sb, t, Val(c) % Pow2(d));
  }

  lemma Shift3(c: seq<limb>, d: nat)
    requires |c| == 3 && 0 < d < 64
    ensures Lsh(c[1], 64 - d) + Rsh(c[0], d) < B && Lsh(c[2], 64 - d) + Rsh(c[1], d) < B && Rsh(c[2], d) < HALF
    ensures Val(c) / Pow2(d) ==
            Lsh(c[1], 64 - d) + Rsh(c[0], d) + B * (Lsh(c[2], 64 - d) + Rsh(c[1], d)) + B * B * Rsh(c[2], d)
    ensures Lsh(c[0], 64 - d) != 0 <==> Val(c) % Pow2(d) != 0
  {
    hide Val, BP, Pow2;
    ShiftedVal(c, d);
    Val3(Shifted(c, d));
    LowLimb(c, d);
    ProductZero(c[0] % Pow2(d), Pow2(64 - d));
    ShiftedFits(c[0], c[1], d);
    ShiftedFits(c[1], c[2], d);
    SmallRsh(c[2], d);
  }

  /** c shifted by one limb and r more bits: the limb that meets the lowest one of b. */
  function ShiftedMiddle(c: seq<limb>, d: nat): (x: limb)
    requires |c| == 3 && 64 <= d < 128
  {
    ShiftedFits(c[1], c[2], d - 64);
    if d == 64 then c[1] else Lsh(c[2], 128 - d) + Rsh(c[1], d - 64)
  }

  lemma ShiftLimb3(c: seq<limb>, d: nat)
    requires |c| == 3 && 64 <= d < 128
    ensures Val(c) / Pow2(d) == ShiftedMiddle(c, d) + B * Rsh(c[2], d - 64)
    ensures (c[0] != 0 || Lsh(c[1], 128 - d) != 0) <==> Val(c) % Pow2(d) != 0
  {
    hide Val, BP, Pow2;
    var r := d - 64;
    SplitShift(c, 1, r);
    ShiftedVal(c[1..], r);
    Val2(Shifted(c[1..], r));
    LimbOfShifted(c, 1, 0, r);
    LimbOfShifted(c, 1, 1, r);
    Val1(c[..1]);
    ProductZero(c[1] % Pow2(r), Pow2(128 - d));
    BothZeroB(c[1] % Pow2(r), c[0]);
    if d == 64 { Aligned(c[2]); Unshifted(c[1]); }
  }

  lemma Unshifted(x: limb)
    ensures Rsh(x, 0) == x && x % Pow2(0) == 0
  {}

  lemma ShiftLimbs3(c: seq<limb>, d: nat)
    requires |c| == 3 && 128 <= d < 192
    ensures Val(c) / Pow2(d) == Rsh(c[2], d - 128)
    ensures (c[0] != 0 || c[1] != 0 || Lsh(c[2], 192 - d) != 0) <==> Val(c) % Pow2(d) != 0
  {
    hide Val, BP, Pow2;
    SplitShift(c, 2, d - 128);
    Val1(c[2..]);
    Val2(c[..2]);
    ProductZero(c[2] % Pow2(d - 128), Pow2(192 - d));
    BothZeroBB(c[2] % Pow2(d - 128), c[0], c[1]);
  }

  lemma BothZeroBB(x: int, y: int, z: int)
    requires 0 <= x && 0 <= y && 0 <= z
    ensures x * (B * B) + (y + B * z) != 0 <==> x != 0 || y != 0 || z != 0
  {}

  /** add1sp.c:659-686: 0 < d < 64. */
  method Near3(ap: array<limb>, b: seq<limb>, c: seq<limb>, p: nat, d: nat) returns (rb: bool, sb: bool, k: nat)
    requires Normalized(b, p) && Normalized(c, p) && 128 < p < 192 && ap.Length == 3 && 0 < d < 64
    modifies ap
    ensures Prepared(ap[..], p, Val(b) * Pow2(d) + Val(c), d, k, rb, sb)
  {
    hide Val, BP, Pow2, Prepared, Normalized;
    ThreeLimbsOf(b, p);
    ThreeLimbsOf(c, p);
    Shift3(c, d);
    sb := Lsh(c[0], 64 - d) != 0;
    var a0 := (b[0] + (Lsh(c[1], 64 - d) + Rsh(c[0], d))) % B;
    var cy0 := if a0 < b[0] then 1 else 0;
    var a1 := (b[1] + (Lsh(c[2], 64 - d) + Rsh(c[1], d)) + cy0) % B;
    var cy := if a1 < b[1] || (a1 == b[1] && a0 < b[0]) then 1 else 0;
    var a2 := (b[2] + Rsh(c[2], d) + cy) % B;
    LimbSum(b[0], Lsh(c[1], 64 - d) + Rsh(c[0], d), 0, a0);
    LimbSum(b[1], Lsh(c[2], 64 - d) + Rsh(c[1], d), cy0, a1);
    MiddleCarry(b[1], Lsh(c[2], 64 - d) + Rsh(c[1], d), cy0, a1);
    LimbSum(b[2], Rsh(c[2], d), cy, a2);
    MiddleCarry(b[2], Rsh(c[2], d), cy, a2);
    rb, sb, k := Tail3(ap, a0, a1, a2, a2 < b[2] || (a2 == b[2] && cy == 1), sb, p, b, c, d);
  }

  /** add1sp.c:687-708: 64 <= d < 128. */
  method Middle3(ap: array<limb>, b: seq<limb>, c: seq<limb>, p: nat, d: nat) returns (rb: bool, sb: bool, k: nat)
    requires Normalized(b, p) && Normalized(c, p) && 128 < p < 192 && ap.Length == 3 && 64 <= d < 128
    modifies ap
    ensures Prepared(ap[..], p, Val(b) * Pow2(d) + Val(c), d, k, rb, sb)
  {
    hide Val, BP, Pow2, Prepared, Normalized, ShiftedMiddle;
    ThreeLimbsOf(b, p);
    ThreeLimbsOf(c, p);
    ShiftLimb3(c, d);
    Aligned(c[1]);
    sb := if d == 64 then c[0] != 0 else Lsh(c[1], 128 - d) != 0 || c[0] != 0;
    var c0shifted := ShiftedMiddle(c, d);
    var a0 := (b[0] + c0shifted) % B;
    var cy0 := if a0 < b[0] then 1 else 0;
    var a1 := (b[1] + Rsh(c[2], d - 64) + cy0) % B;
    var cy := if a1 < b[1] || (a1 == b[1] && a0 < b[0]) then 1 else 0;
    var a2 := (b[2] + cy) % B;
    LimbSum(b[0], c0shifted, 0, a0);
    LimbSum(b[1], Rsh(c[2], d - 64), cy0, a1);
    MiddleCarry(b[1], Rsh(c[2], d - 64), cy0, a1);
    LimbSum(b[2], 0, cy, a2);
    rb, sb, k := Tail3(ap, a0, a1, a2, a2 == 0, sb, p, b, c, d);
  }

  /** add1sp.c:709-725: 128 <= d < 192. */
  method Low3(ap: array<limb>, b: seq<limb>, c: seq<limb>, p: nat, d: nat) returns (rb: bool, sb: bool, k: nat)
    requires Normalized(b, p) && Normalized(c, p) && 128 < p < 192 && ap.Length == 3 && 128 <= d < 192
    modifies ap
    ensures Prepared(ap[..], p, Val(b) * Pow2(d) + Val(c), d, k, rb, sb)
  {
    hide Val, BP, Pow2, Prepared, Normalized;
    ThreeLimbsOf(b, p);
    ThreeLimbsOf(c, p);
    ShiftLimbs3(c, d);
    Aligned(c[2]);
    sb := (d != 128 && Lsh(c[2], 192 - d) != 0) || c[1] != 0 || c[0] != 0;
    var a0 := (b[0] + Rsh(c[2], d - 128)) % B;
    var cy0 := if a0 < b[0] then 1 else 0;
    var a1 := (b[1] + cy0) % B;
    var cy1 := if a1 < b[1] then 1 else 0;
    var a2 := (b[2] + cy1) % B;
    LimbSum(b[0], Rsh(c[2], d - 128), 0, a0);
    LimbSum(b[1], 0, cy0, a1);
    LimbSum(b[2], 0, cy1, a2);
    rb, sb, k := Tail3(ap, a0, a1, a2, a2 == 0, sb, p, b, c, d);
  }

  method Prepare3(ap: array<limb>, b: seq<limb>, c: seq<limb>, p: nat, d: nat) returns (rb: bool, sb: bool, k: nat)
    requires Normalized(b, p) && Normalized(c, p) && 128 < p < 192 && ap.Length == 3
    modifies ap
    ensures Prepared(ap[..], p, Val(b) * Pow2(d) + Val(c), d, k, rb, sb)
  {
    hide Val, BP, Pow2, Prepared, Normalized;
    ThreeLimbsOf(b, p);
    ThreeLimbsOf(c, p);
    if d == 0 {
      rb := Same3(ap, b, c, p);
      sb, k := false, 1;
    } else if d < 64 {
      rb, sb, k := Near3(ap, b, c, p, d);
    } else if d < 128 {
      rb, sb, k := Middle3(ap, b, c, p, d);
    } else if d < 192 {
      rb, sb, k := Low3(ap, b, c, p, d);
    } else {
      G.FarBits(b, c, p, d);
      ap[0] := b[0];
      ap[1] := b[1];
      ap[2] := b[2];
      assert ap[..] == b;
      rb, sb, k := false, true, 0;
    }
  }
}

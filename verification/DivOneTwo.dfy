/** mpfr_div_1, mpfr_div_1n and mpfr_div_2 (div.c:107-643): quotients of one and two
    limbs, first approximated and then corrected where that is needed. */
module DivOneTwo {
  import opened Powers
  import opened RealPowers
  import opened Limbs
  import opened Rounding
  import opened Range
  import opened Numbers
  import opened Exceptions
  import opened SignedRounding
  import opened Significands
  import opened SameSum
  import opened DivSmall
  import A = DivApprox
  import F = Add1spFast
  import G = Add1sp

  // ---- one quotient limb from an approximate inverse ------------------------------------

  /** umul_ppmm (q, _, u0, inv); q += u0. */
  method ApproxQuotient(u0: limb, v0: limb, short: nat) returns (q: limb)
    requires v0 >= HALF && u0 < v0 && short <= 1
    ensures q * v0 <= u0 * B < (q + 3) * v0
  {
    hide A.InvertLimb;
    var inv := A.InvertLimb(v0, short);
    A.InverseSum(u0, inv, v0, 0, 1);
    QuotientFits(u0, v0, inv, short, u0 * (B + inv) / B);
    var rb := u0 * inv / B;
    q := rb + u0;
  }

  lemma QuotientFits(u: limb, v: limb, inv: limb, short: nat, q: int)
    requires v >= HALF && u < v && short <= 1 && q == u * (B + inv) / B
    requires (B + inv + short) * v < B * B <= (B + inv + short + 1) * v
    ensures 0 <= q < B && q * v <= u * B < (q + 3) * v
  {
    var m := B + inv;
    var g := B * B - m * v;
    Distrib(m, short, v);
    Distrib(m + short, 1, v);
    MulMono(short, 1, v);
    MulMono(0, short, v);
    Distrib(1, short, v);
    assert A.Inverse(m, v, g, 1 + short);
    A.BelowQuotient(u, m, v, g, 1 + short, q, v * B);
    MulAssoc(q, v, B);
    if q >= B { MulMono(B, q, v); }
    UpperQuotient(u, v, m, q);
  }

  lemma UpperQuotient(u: int, v: int, m: int, q: int)
    requires 0 <= u < B && v >= 1 && q == u * m / B && B * B <= (m + 2) * v
    ensures u * B < (q + 3) * v
  {
    var a := u * m;
    assert a < (q + 1) * B;
    MulMono(B * B, (m + 2) * v, u);
    MulComm(u, (m + 2) * v);
    assert u * ((m + 2) * v) == a * v + 2 * u * v by { Distrib(m, 2, v); Distrib(m * v, 2 * v, u); MulAssoc(u, m, v); MulAssoc(2, u, v); MulAssoc(2, v, u); MulComm(u, v); MulComm(u, 2 * v); MulComm(u, m * v + 2 * v); MulComm(m * v, u); }
    MulStrict(a, (q + 1) * B, v);
    MulMono(2 * u, 2 * B, v);
    assert u * (B * B) < (q + 1) * B * v + 2 * B * v;
    assert (q + 1) * B * v + 2 * B * v == (q + 3) * v * B by { Distrib((q + 1) * B, 2 * B, v); MulAssoc(q + 3, B, v); MulAssoc(q + 3, v, B); MulComm(B, v); }
  }

  /** div.c:153-161: the remainder is brought below v0, in at most two steps. */
  method Correct(u0: limb, v0: limb, q: limb) returns (q0: limb, l: limb, ghost steps: nat)
    requires v0 >= HALF && u0 < v0 && q * v0 <= u0 * B < (q + 3) * v0
    ensures q0 * v0 + l == u0 * B && l < v0 && q0 == q + steps && steps <= 2
  {
    A.LimbProduct(q, v0);
    var h;
    h, l := SubtractFrom(u0, q * v0 / B, q * v0 % B);
    Distrib(q, 3, v0);
    ghost var r := h * B + l;
    q0, steps := q, 0;
    while h > 0 || l >= v0
      invariant 0 <= h < B && h * B + l == r == u0 * B - q0 * v0 && q0 == q + steps && steps <= 2
      invariant r < (3 - steps) * v0
      decreases r
    {
      FitsLimb(q0, u0, v0, r);
      NextStep(r, v0, steps);
      q0, steps := q0 + 1, steps + 1;
      h, l := SubtractDivisor(h, l, v0);
      r := r - v0;
    }
  }

  lemma NextStep(r: int, v: int, steps: nat)
    requires v <= r < (3 - steps) * v && v >= 1 && steps <= 2
    ensures steps < 2 && r - v < (3 - (steps + 1)) * v
  {
    Distrib(3 - steps, -1, v);
    Distrib(2, 1 - steps, v);
    MulMono(3 - steps, if steps == 2 then 1 else 3 - steps, v);
  }

  /** sub_ddmmss (h, l, u0, 0, p1, p0). */
  method SubtractFrom(u0: limb, p1: limb, p0: limb) returns (h: int, l: limb)
    requires p1 * B + p0 <= u0 * B
    ensures 0 <= h < B && h * B + l == u0 * B - (p1 * B + p0)
  {
    l := (0 - p0) % B;
    h := u0 - p1 - (if 0 < p0 then 1 else 0);
    if p0 > 0 { ModSmall(-(p0 as int), B, -1); } else { ModSmall(0, B, 0); }
  }

  /** h -= (l < v0); l -= v0. */
  method SubtractDivisor(h0: int, l0: limb, v0: limb) returns (h: int, l: limb)
    requires 0 <= h0 < B && h0 * B + l0 >= v0
    ensures 0 <= h < B && h * B + l == h0 * B + l0 - v0
  {
    h := h0 - if l0 < v0 then 1 else 0;
    l := (l0 - v0) % B;
    if l0 < v0 { ModSmall(l0 as int - v0, B, -1); } else { ModSmall(l0 as int - v0, B, 0); }
  }

  lemma FitsLimb(q: limb, u: limb, v: limb, r: int)
    requires r == u * B - q * v && r >= v && u < v
    ensures q + 1 < B && (q + 1) * v == q * v + v
  {
    Distrib(q, 1, v);
    if q + 1 >= B { MulMono(B, q + 1, v); }
  }

  // ---- when the approximation already rounds ------------------------------------------------

  /** The approximation x is at most delta too small; when its lower bits are neither
      close to 0 nor to overflowing, the exact X agrees in the upper bits. */
  lemma GoodEnough(x: int, exact: int, delta: int, h: int, g: int)
    requires h >= 1 && g * h == B && 0 <= x < B && x <= exact <= x + delta && delta >= 0 && (x + delta) % B % h > delta
    ensures exact / h == x / h && x % h >= 1 && exact % h >= 1
  {
    ModTwice(x + delta, h, g);
    MulComm(h, x / h);
    GoodPlain(x, exact, delta, h, x / h, x % h, x / h * h);
  }

  lemma GoodPlain(x: int, exact: int, delta: int, h: int, a: int, y: int, ah: int)
    requires h >= 1 && ah == a * h && x == ah + y && 0 <= y < h && x <= exact <= x + delta && delta >= 0 && (x + delta) % h > delta
    ensures exact / h == a && y >= 1 && exact % h >= 1
  {
    ModAddMultiple(y + delta, h, a);
    if y + delta >= h {
      ModLess(y, delta, h);
    } else {
      ModSmall(y + delta, h, 0);
      DivUnique(exact, h, a, exact - ah);
    }
  }

  lemma ModTwice(z: nat, h: int, g: int)
    requires h >= 1 && g * h == B
    ensures z % B % h == z % h
  {
    MulAssoc(z / B, g, h);
    ModAddMultiple(z % B, h, z / B * g);
  }

  lemma ModLess(y: int, d: int, h: int)
    requires 0 <= y < h && d >= 0 && y + d >= h
    ensures (y + d) % h <= d
  {
    ModAddMultiple(y + d - h, h, 1);
    DivLe(y + d - h, h);
    ModAtMost(y + d - h, h);
  }

  lemma ModAtMost(x: nat, h: int)
    requires h >= 1
    ensures x % h <= x
  {
    MulMono(0, x / h, h);
    DivLe(x, h);
    MulComm(h, x / h);
  }

  // ---- one limb, p < 64 -----------------------------------------------------------------------

  /** The high bit, which is set before or comes from the quotient 1. */
  function WithHighBit(q: limb): (w: limb)
    ensures w == if q >= HALF then q else q + HALF
  {
    if q >= HALF then q else q + HALF
  }

  lemma HalfMultiple(sh: nat)
    requires 1 <= sh < 64
    ensures var h, g := Pow2(sh - 1), Pow2(63 - sh); HALF == 2 * g * h && B == 4 * g * h && 2 * h == Pow2(sh)
  {
    hide Pow2;
    Pow2Limb();
    Pow2Add(sh, 63 - sh);
    Pow2Step(sh - 1);
    MulComm(Pow2(sh - 1), Pow2(63 - sh));
    MulAssoc(2, Pow2(sh - 1), Pow2(63 - sh));
    MulAssoc(2, Pow2(63 - sh), Pow2(sh - 1));
    MulAssoc(4, Pow2(63 - sh), Pow2(sh - 1));
  }

  /** Numbers with the same bits from h upwards, also when a high bit is added. */
  lemma SameUpper(x: nat, y: nat, h: int, g: int, extra: nat)
    requires h >= 1 && x / h == y / h && extra <= 1 && HALF == 2 * g * h
    ensures var w, z := x + extra * HALF, y + extra * HALF;
            && w - w % (2 * h) == z - z % (2 * h) && z / h % 2 == x / h % 2 && z % h == y % h
  {
    var k := extra * (2 * g);
    MulAssoc(extra, 2 * g, h);
    ModAddMultiple(x, h, k);
    ModAddMultiple(y, h, k);
    EvenPlus(x / h, extra * g, k) by { MulAssoc(extra, 2, g); MulComm(extra, 2); MulAssoc(2, extra, g); }
    UpperOf(x + extra * HALF, h);
    UpperOf(y + extra * HALF, h);
  }

  lemma UpperOf(w: nat, h: int)
    requires h >= 1
    ensures w - w % (2 * h) == w / h / 2 * (2 * h)
  {
    ModProduct(w, h, 2);
    MulComm(h, 2);
    MulComm(2 * h, w / (2 * h));
  }

  lemma EvenPlus(x: int, a: int, k: int)
    requires k == 2 * a
    ensures (x + k) % 2 == x % 2
  {}

  /** u and v of one limb, u - extra v divided by v: the whole quotient. */
  lemma WholeQuotient(u: limb, v: limb, extra: nat, q: int, l: int)
    requires u >= HALF && v >= HALF && extra == (if u < v then 0 else 1) && q * v + l == (u - extra * v) * B && 0 <= l < v
    ensures var t := extra * B + q;
            && u * B == t * v + l && 0 <= q < B && (extra == 0 ==> q >= HALF)
            && (if extra == 1 then B <= t < 2 * B else B <= 2 * t < 2 * B)
  {
    Distrib(extra * B, q, v);
    assert (u - extra * v) * B == u * B - extra * B * v by { if extra == 0 { assert extra * v == 0 && extra * B * v == 0; } else { assert extra * v == v; assert extra * B * v == B * v; } }
    if q >= B { MulMono(B, q, v); }
    if q < 0 { MulMono(q, -1, v); }
    if extra == 0 && q < HALF { MulMono(q + 1, HALF, v); Distrib(q, 1, v); }
  }

  /** What is stored is ready, when the low bits above the unused ones are right. */
  lemma ReadyOne(s: seq<limb>, p: nat, u: limb, v: limb, extra: nat, q: int, l: int, x: int, rb: bool, sb: bool)
    requires 1 <= p < 64 && |s| == 1 && u >= HALF && v >= HALF && extra == (if u < v then 0 else 1)
    requires q * v + l == (u - extra * v) * B && 0 <= l < v
    requires var exact, h := (if extra == 1 then q / 2 else q), Pow2(63 - p);
             && 0 <= x < B && x / h == exact / h && s[0] == WithHighBit(x) - WithHighBit(x) % Pow2(64 - p)
             && rb == (x / h % 2 == 1) && sb == (exact % h != 0 || (extra == 1 && q % 2 != 0) || l != 0)
    ensures Ready(s, p, u * B, Pow2(64 - p + extra) * v, rb, sb)
  {
    hide Val, BP, Pow2, Ready, WithHighBit;
    var exact, h, g := (if extra == 1 then q / 2 else q), Pow2(63 - p), Pow2(p - 1);
    WholeQuotient(u, v, extra, q, l);
    HalfMultiple(64 - p);
    HighBitFits(x, exact, h, g, extra, q);
    SameUpper(x, exact, h, g, extra);
    var t := extra * B + q;
    var a0: limb := exact + extra * HALF;
    F.Val1(s[0 := a0]);
    assert Unused(p) == 64 - p;
    ReadyFromLimbs(s, a0, p, u * B, v, extra, rb, sb, t, l);
  }

  lemma HighBitFits(x: int, exact: int, h: int, g: int, extra: nat, q: int)
    requires h >= 1 && HALF == 2 * g * h && x >= 0 && x < B && x / h == exact / h && 0 <= q < B && extra <= 1
    requires exact == (if extra == 1 then q / 2 else q) && (extra == 0 ==> q >= HALF)
    ensures 0 <= exact && exact + extra * HALF < B && (if x >= HALF then x else x + HALF) == x + extra * HALF
  {
    MulComm(h, x / h);
    MulComm(h, exact / h);
    HighOrLow(x, x / h, x % h, h, 2 * g);
    HighOrLow(exact, x / h, exact % h, h, 2 * g);
  }

  /** Whether x reaches HALF = k h is decided by its quotient by h. */
  lemma HighOrLow(x: int, a: int, r: int, h: int, k: int)
    requires h >= 1 && HALF == k * h && x == a * h + r && 0 <= r < h
    ensures x >= HALF <==> a >= k
  {
    if a >= k { MulMono(k, a, h); } else { MulMono(a + 1, k, h); Distrib(a, 1, h); }
  }

  /** mpfr_div_1 up to the rounding. */
  method Prepare1(qp: array<limb>, u: limb, v: limb, p: nat, short: nat) returns (rb: bool, sb: bool, extra: nat)
    requires 1 <= p < 64 && qp.Length == 1 && u >= HALF && v >= HALF && short <= 1
    modifies qp
    ensures extra == (if u < v then 0 else 1) && Ready(qp[..], p, u * B, Pow2(64 - p + extra) * v, rb, sb)
  {
    hide Val, BP, Pow2, Ready;
    var sh := 64 - p;
    var u0 := u;
    extra := if u0 >= v then 1 else 0;
    if extra == 1 { u0 := u0 - v; }
    var q := ApproxQuotient(u0, v, short);
    var q0: limb := if extra == 1 then q / 2 else q;
    ghost var exact, l;
    if (q0 + 2) % B % Pow2(sh - 1) > 2 {
      rb, sb := q0 / Pow2(sh - 1) % 2 == 1, true;
      exact, l := u0 * B / v, u0 * B % v;
      CloseQuotient(u0 * B, v, q, extra, exact, l);
      HalfMultiple(sh);
      GoodEnough(q0, if extra == 1 then exact / 2 else exact, 2, Pow2(sh - 1), 4 * Pow2(63 - sh));
    } else {
      var low;
      ghost var steps;
      q0, low, steps := Correct(u0, v, q);
      exact, l := q0, low;
      sb := low != 0 || (extra == 1 && q0 % 2 != 0);
      if extra == 1 { q0 := q0 / 2; }
      rb := q0 / Pow2(sh - 1) % 2 == 1;
      sb := sb || q0 % Pow2(sh - 1) != 0;
    }
    var w := WithHighBit(q0);
    ModAtMost(w, Pow2(sh));
    qp[0] := w - w % Pow2(sh);
    ReadyOne(qp[..], p, u, v, extra, exact, l, q0, rb, sb);
  }

  lemma CloseQuotient(n: nat, v: int, q: int, extra: nat, exact: int, l: int)
    requires v >= 1 && q * v <= n < (q + 3) * v && exact == n / v && l == n % v && extra <= 1
    ensures exact * v + l == n && 0 <= l < v && q <= exact <= q + 2
    ensures extra == 1 ==> q / 2 <= exact / 2 <= q / 2 + 2
  {
    MulComm(v, n / v);
    A.Quotients(n, v, q, 2);
  }

  // ---- one limb, p = 64 -----------------------------------------------------------------------

  /** mpfr_div_1n up to the rounding. */
  method Prepare1n(qp: array<limb>, u: limb, v: limb, short: nat) returns (rb: bool, sb: bool, extra: nat)
    requires qp.Length == 1 && u >= HALF && v >= HALF && short <= 1
    modifies qp
    ensures extra == (if u < v then 0 else 1) && Ready(qp[..], 64, u * B, Pow2(extra) * v, rb, sb)
  {
    hide Val, BP, Pow2, Ready;
    var u0 := u;
    extra := if u0 >= v then 1 else 0;
    if extra == 1 { u0 := u0 - v; }
    var q0 := ApproxQuotient(u0, v, short);
    var l;
    ghost var steps;
    q0, l, steps := Correct(u0, v, q0);
    WholeQuotient(u, v, extra, q0, l);
    if extra == 0 {
      qp[0] := q0;
      var twice := (l + l) % B;
      Doubled(l, twice);
      rb := twice < l || twice >= v;
      sb := (if rb then (twice - v) % B else l) != 0;
      RemainderBit(l, v, twice);
    } else {
      qp[0] := HALF + q0 / 2;
      rb := q0 % 2 != 0;
      sb := l != 0;
    }
    ReadyFull(qp[..], u, v, extra, q0, l, rb, sb);
  }

  lemma Doubled(l: limb, twice: limb)
    requires twice == (l + l) % B
    ensures 2 * l == twice + (if twice < l then B else 0)
  {
    if 2 * l >= B { ModSmall(2 * (l as int), B, 1); } else { ModSmall(2 * (l as int), B, 0); }
  }

  lemma RemainderBit(l: limb, v: limb, twice: limb)
    requires l < v && 2 * l == twice + (if twice < l then B else 0)
    ensures (twice < l || twice >= v) <==> 2 * l >= v
    ensures 2 * l >= v ==> ((twice - v) % B == 0 <==> 2 * l == v)
  {
    if 2 * l >= v {
      if twice < l { ModSmall(twice as int - v, B, -1); } else { ModSmall(twice as int - v, B, 0); }
    }
  }

  lemma ReadyFull(s: seq<limb>, u: limb, v: limb, extra: nat, q: int, l: int, rb: bool, sb: bool)
    requires |s| == 1 && u >= HALF && v >= HALF && extra == (if u < v then 0 else 1)
    requires q * v + l == (u - extra * v) * B && 0 <= l < v && 0 <= q < B
    requires if extra == 0 then s[0] == q && rb == (2 * l >= v) && sb == (2 * l != if rb then v else 0)
             else s[0] == HALF + q / 2 && rb == (q % 2 == 1) && sb == (l != 0)
    ensures Ready(s, 64, u * B, Pow2(extra) * v, rb, sb)
  {
    hide Val, BP, Pow2;
    WholeQuotient(u, v, extra, q, l);
    var t := extra * B + q;
    F.Val1(s);
    Pow2Zero();
    Pow2Two();
    Pow2Limb();
    if extra == 0 {
      DivUnique(u * B, v, t, l);
      ReadyFolds(s, 64, u * B, v, rb, sb, t);
    } else {
      BitsOfQuotient(u * B, t, v, l, 1);
      ReadyFolds(s, 64, u * B, 2 * v, rb, sb, t / 2);
    }
  }

  // ---- two limbs: correcting the approximation -----------------------------------------------

  /** x += y; the carry. */
  method AddLimb(x: limb, y: limb) returns (z: limb, cy: limb)
    ensures z + cy * B == x + y && cy <= 1
  {
    z := (x + y) % B;
    cy := if z < y then 1 else 0;
    A.Wrapped(x, y, z);
  }

  /** x += y without a look at the carry. */
  method AddMod(x: limb, y: nat) returns (z: limb, ghost c: int)
    ensures z + c * B == x + y
  {
    z := (x + y) % B;
    c := (x + y) / B;
  }

  /** umul_ppmm. */
  method Umul(x: limb, y: limb) returns (h: limb, l: limb)
    ensures h * B + l == x * y
  {
    A.LimbProduct(x, y);
    h, l := x * y / B, x * y % B;
  }

  lemma Collect(p00: int, p01: int, p10: int, p11: int, a: int, b: int, d: int, e: int, s0: int, t2: int, t1: int, cy: int, t3: int, cy': int,
                h: int, s1: int)
    requires p00 == t1 * B + s0 && a == t1 + t2 * B && b == t3 + cy * B && d == s1 + cy' * B
    requires b == t1 + (p01 - t2 * B) && d == t3 + (p10 - h * B) && e == t2 + cy + h + cy' + p11
    ensures p11 * B * B + p01 * B + p10 * B + p00 == e * (B * B) + s1 * B + s0
  {}

  /** div.c:426-433: the lower three limbs of q v. */
  method LowProduct(q1: limb, q0: limb, v1: limb, v0: limb) returns (s2: limb, s1: limb, s0: limb, ghost c: int)
    ensures (q1 * B + q0) * (v1 * B + v0) == c * (B * B * B) + s2 * (B * B) + s1 * B + s0
  {
    var l, h, cy, cy', t1, t2, t3;
    ghost var c1, c2, c3;
    t1, s0 := Umul(q0, v0);
    t2, l := Umul(q0, v1);
    t3, cy := AddLimb(t1, l);
    s2, c1 := AddMod(t2, cy);
    h, l := Umul(q1, v0);
    s1, cy' := AddLimb(t3, l);
    s2, c2 := AddMod(s2, h + cy');
    A.LimbProduct(q1, v1);
    s2, c3 := AddMod(s2, q1 * v1);
    Products(q1, q0, v1, v0);
    c := c1 + c2 + c3;
    Collect(q0 * v0, q0 * v1, q1 * v0, q1 * v1, t1 + t2 * B, t3 + cy * B, s1 + cy' * B, s2 + c * B, s0, t2, t1, cy, t3, cy', h, s1);
  }

  lemma Products(q1: int, q0: int, v1: int, v0: int)
    ensures (q1 * B + q0) * (v1 * B + v0) == q1 * v1 * B * B + q0 * v1 * B + q1 * v0 * B + q0 * v0
  {
    Distrib(q1 * B, q0, v1 * B + v0);
    Distrib(v1 * B, v0, q1 * B);
    Distrib(v1 * B, v0, q0);
    MulAssoc(q0, v1, B);
    assert q1 * B * (v1 * B) == q1 * v1 * B * B by { MulAssoc(q1, B, v1 * B); MulComm(B, v1 * B); MulAssoc(q1, v1 * B, B); MulAssoc(q1, v1, B); }
    assert q1 * B * v0 == q1 * v0 * B by { MulAssoc(q1, B, v0); MulComm(B, v0); MulAssoc(q1, v0, B); }
  }

  /** div.c:434-440: u2:0:0 minus the product. */
  method NegateLow(u2: limb, s2: limb, s1: limb, s0: limb) returns (t2: limb, t1: limb, t0: limb, ghost c: int)
    ensures t2 * (B * B) + t1 * B + t0 == u2 * (B * B) - (s2 * (B * B) + s1 * B + s0) + c * (B * B * B)
  {
    t2 := (u2 - s2) % B;
    ghost var c1 := (u2 - s2) / B;
    t0 := (0 - s0) % B;
    t1 := (0 - s1 - if t0 != 0 then 1 else 0) % B;
    if s0 > 0 { ModSmall(-(s0 as int), B, -1); } else { ModSmall(0, B, 0); }
    ghost var x := s1 + if t0 != 0 then 1 else 0;
    if x > 0 { ModSmall(-x, B, -1); } else { ModSmall(0, B, 0); }
    ghost var t := t2 - if t1 != 0 || t0 != 0 then 1 else 0;
    ghost var c2 := t / B;
    t2 := (t2 - if t1 != 0 || t0 != 0 then 1 else 0) % B;
    c := -c1 - c2;
  }

  /** div.c:421-451: the quotient and the remainder become exact. */
  method Correct2(u1: limb, u0: limb, v1: limb, v0: limb, qh: limb, ql: limb) returns (q1: limb, q0: limb, s1: limb, s0: limb)
    requires v1 >= HALF && u1 * B + u0 < v1 * B + v0
    requires var q, v, n := qh * B + ql, v1 * B + v0, (u1 * B + u0) * B * B; q * v <= n < (q + 22) * v
    ensures (q1 * B + q0) * (v1 * B + v0) + (s1 * B + s0) == (u1 * B + u0) * B * B && s1 * B + s0 < v1 * B + v0
  {
    var s2;
    s2, s1, s0 := LowRemainder(u1, u0, v1, v0, qh, ql);
    assert (u1 * B + u0) * B * B < B * B * (v1 * B + v0);
    q1, q0, s1, s0 := CorrectLoop(v1, v0, qh, ql, s2, s1, s0, (u1 * B + u0) * B * B);
  }

  method LowRemainder(u1: limb, u0: limb, v1: limb, v0: limb, qh: limb, ql: limb) returns (s2: limb, s1: limb, s0: limb)
    requires var q, v, n := qh * B + ql, v1 * B + v0, (u1 * B + u0) * B * B; q * v <= n < (q + 22) * v
    ensures s2 * (B * B) + s1 * B + s0 == (u1 * B + u0) * B * B - (qh * B + ql) * (v1 * B + v0)
  {
    ghost var c, c';
    s2, s1, s0, c := LowProduct(qh, ql, v1, v0);
    ghost var p := c * (B * B * B) + s2 * (B * B) + s1 * B + s0;
    s2, s1, s0, c' := NegateLow(u0, s2, s1, s0);
    Distrib(qh * B + ql, 22, v1 * B + v0);
    LowThree((u1 * B + u0) * B * B - p, s2 * (B * B) + s1 * B + s0, u1 - c - c');
  }

  predicate IsDivision(n: int, v: int, q: int, r: int) { n == q * v + r }

  lemma DivisionStep(n: int, v: int, q: int, r: int)
    requires IsDivision(n, v, q, r) && v <= r && 0 < v && n < B * B * v
    ensures IsDivision(n, v, q + 1, r - v) && q + 1 < B * B
  {
    Distrib(q, 1, v);
    if q + 1 >= B * B { MulMono(B * B, q + 1, v); }
  }

  method CorrectLoop(v1: limb, v0: limb, qh: limb, ql: limb, r2: limb, r1: limb, r0: limb, ghost n: int)
    returns (q1: limb, q0: limb, s1: limb, s0: limb)
    requires v1 >= HALF && n < B * B * (v1 * B + v0)
    requires IsDivision(n, v1 * B + v0, qh * B + ql, r2 * (B * B) + r1 * B + r0)
    ensures IsDivision(n, v1 * B + v0, q1 * B + q0, s1 * B + s0) && s1 * B + s0 < v1 * B + v0
  {
    hide IsDivision;
    var s2: limb;
    ghost var v := v1 * B + v0;
    q1, q0, s2, s1, s0 := qh, ql, r2, r1, r0;
    while s2 > 0 || s1 > v1 || (s1 == v1 && s0 >= v0)
      invariant IsDivision(n, v, q1 * B + q0, s2 * (B * B) + s1 * B + s0)
      decreases s2 * (B * B) + s1 * B + s0
    {
      CompareThree(s2, s1, s0, v1, v0);
      DivisionStep(n, v, q1 * B + q0, s2 * (B * B) + s1 * B + s0);
      q1, q0 := Increment(q1, q0);
      s2, s1, s0 := SubtractTwo(s2, s1, s0, v1, v0);
    }
    CompareThree(s2, s1, s0, v1, v0);
    assert s2 * (B * B) + s1 * B + s0 == s1 * B + s0;
  }

  lemma CompareThree(s2: limb, s1: limb, s0: limb, v1: limb, v0: limb)
    ensures (s2 > 0 || s1 > v1 || (s1 == v1 && s0 >= v0)) <==> s2 * (B * B) + s1 * B + s0 >= v1 * B + v0
  {}

  /** q0 ++; q1 += (q0 == 0). */
  method Increment(q1: limb, q0: limb) returns (t1: limb, t0: limb)
    requires q1 * B + q0 + 1 < B * B
    ensures t1 * B + t0 == q1 * B + q0 + 1
  {
    t0 := (q0 + 1) % B;
    A.Wrapped(q0, 1, t0);
    t1 := q1 + if t0 == 0 then 1 else 0;
  }

  /** Numbers below B^3 that differ by a multiple of B^3 are equal. */
  lemma LowThree(r: int, s: int, k: int)
    requires 0 <= r < B * B * B && 0 <= s < B * B * B && r == s + k * (B * B * B)
    ensures r == s
  {}

  /** div.c:447-448. */
  method SubtractTwo(s2: limb, s1: limb, s0: limb, v1: limb, v0: limb) returns (t2: limb, t1: limb, t0: limb)
    requires s2 * (B * B) + s1 * B + s0 >= v1 * B + v0
    ensures t2 * (B * B) + t1 * B + t0 == s2 * (B * B) + s1 * B + s0 - (v1 * B + v0)
  {
    var borrow := s1 < v1 || (s1 == v1 && s0 < v0);
    t2 := s2 - if borrow then 1 else 0;
    t0 := (s0 - v0) % B;
    t1 := (s1 - v1 - if s0 < v0 then 1 else 0) % B;
    if s0 < v0 { ModSmall(s0 as int - v0, B, -1); } else { ModSmall(s0 as int - v0, B, 0); }
    var x := s1 - v1 - if s0 < v0 then 1 else 0;
    if x < 0 { ModSmall(x, B, -1); } else { ModSmall(x, B, 0); }
  }

  // ---- two limbs: schoolbook division -----------------------------------------------------------

  /** div.c:456-507 and again 513-555: one quotient limb of r3:r2:0 by v1:v0, by dividing
      by v1 alone and correcting at most twice. */
  method QuotientLimb(r3: limb, r2: limb, v1: limb, v0: limb) returns (q: limb, t2: limb, t1: limb, ghost steps: nat)
    requires v1 >= HALF && r3 * B + r2 < v1 * B + v0
    ensures IsDivision((r3 * B + r2) * B, v1 * B + v0, q, t2 * B + t1) && t2 * B + t1 < v1 * B + v0 && steps <= 2
  {
    if r3 == v1 {
      q, t2, t1 := LargestLimb(r2, v1, v0);
      steps := 0;
    } else {
      q, t2, t1, steps := EstimatedLimb(r3, r2, v1, v0);
    }
  }

  /** div.c:464-477. */
  method LargestLimb(r2: limb, v1: limb, v0: limb) returns (q: limb, t2: limb, t1: limb)
    requires v1 >= HALF && r2 < v0
    ensures IsDivision((v1 * B + r2) * B, v1 * B + v0, q, t2 * B + t1) && t2 * B + t1 < v1 * B + v0
  {
    q, t1 := B - 1, v0;
    var t: limb := v0 - r2;
    t2 := (v1 - t) % B;
    if t > v1 {
      ModSmall(v1 as int - t, B, -1);
      q := q - 1;
      var cy;
      t1, cy := AddLimb(t1, v0);
      var z := (t2 + v1 + cy) % B;
      ModSmall(t2 as int + v1 + cy, B, 1);
      t2 := z;
    } else {
      ModSmall(v1 as int - t, B, 0);
    }
  }

  /** r = t B - q v0 is what remains; when it is negative it is stored modulo B^2. */
  predicate Stored(r: int, t2: limb, t1: limb) {
    -B * B < r < B * B && t2 * B + t1 == if r < 0 then r + B * B else r
  }

  /** div.c:481-506. */
  method EstimatedLimb(r3: limb, r2: limb, v1: limb, v0: limb) returns (q: limb, t2: limb, t1: limb, ghost steps: nat)
    requires v1 >= HALF && r3 < v1
    ensures IsDivision((r3 * B + r2) * B, v1 * B + v0, q, t2 * B + t1) && t2 * B + t1 < v1 * B + v0 && steps <= 2
  {
    hide IsDivision;
    var n := r3 * B + r2;
    EstimateFits(n, v1);
    q := n / v1;
    var t: limb := n % v1;
    var h, l := Umul(q, v0);
    A.LimbProduct(q, v0);
    ghost var r := t * B - q * v0;
    Estimated(n, v1, v0, q, t, r);
    t1 := (0 - l) % B;
    t2 := (t - h - if l != 0 then 1 else 0) % B;
    FirstStored(t, h, l, t2, t1, r);
    steps := 0;
    ghost var v := v1 * B + v0;
    while t2 > t
      invariant IsDivision(n * B, v, q, r) && -(2 - steps) * v <= r < v && steps <= 2
      invariant Stored(r, t2, t1) && (t2 > t <==> r < 0)
      decreases 2 - steps
    {
      EstimateStep(n * B, v, q, r, steps);
      q, steps := q - 1, steps + 1;
      t := t2;
      var cy, z;
      z, cy := AddLimb(t1, v0);
      t1 := z;
      z := (t2 + v1 + cy) % B;
      NextStored(r, t2, t1, v1, v0, cy, z);
      t2 := z;
      r := r + v;
    }
  }

  lemma EstimateFits(n: nat, v1: limb)
    requires v1 >= HALF && n < v1 * B
    ensures 0 <= n / v1 < B && 0 <= n % v1 < v1
  {
    DivMulLt(n, v1, B);
  }

  lemma Estimated(n: nat, v1: limb, v0: limb, q: int, t: int, r: int)
    requires v1 >= HALF && q == n / v1 && t == n % v1 && 0 <= q < B && r == t * B - q * v0
    ensures IsDivision(n * B, v1 * B + v0, q, r) && -2 * (v1 * B + v0) <= r < v1 * B + v0 && -B * B < r
  {
    MulComm(v1, q);
    assert n == q * v1 + t;
    Distrib(v1 * B, v0, q);
    MulAssoc(q, v1, B);
    ProductNonNegative(q, v0);
    MulMono(q, B - 1, v0);
  }

  lemma FirstStored(t: limb, h: limb, l: limb, t2: limb, t1: limb, r: int)
    requires r == t * B - (h * B + l) && h <= B - 2 && -B * B < r < B * B && t1 == (0 - l) % B && t2 == (t - h - if l != 0 then 1 else 0) % B
    ensures Stored(r, t2, t1) && (t2 > t <==> r < 0)
  {
    if l > 0 { ModSmall(-(l as int), B, -1); } else { ModSmall(0, B, 0); }
    var x := t - h - if l != 0 then 1 else 0;
    if x < 0 { ModSmall(x, B, -1); } else { ModSmall(x, B, 0); }
  }

  lemma EstimateStep(n: int, v: int, q: int, r: int, steps: nat)
    requires IsDivision(n, v, q, r) && r < 0 && v >= 1 && -(2 - steps) * v <= r && steps <= 2 && n >= 0
    ensures IsDivision(n, v, q - 1, r + v) && q >= 1 && steps < 2 && -(2 - (steps + 1)) * v <= r + v < v
  {
    Distrib(q, -1, v);
    Distrib(-(2 - steps), 1, v);
    if steps == 2 { MulMono(0, 0, v); }
    if q <= 0 { MulMono(q, 0, v); }
  }

  lemma NextStored(r: int, t2: limb, t1: limb, v1: limb, v0: limb, cy: limb, z: limb)
    requires r < 0 && -B * B < r && v1 >= HALF && cy <= 1 && z == (t2 + v1 + cy) % B
    requires t2 * B + t1 + cy * B - v0 == r + B * B
    ensures Stored(r + v1 * B + v0, z, t1) && (z > t2 <==> r + v1 * B + v0 < 0)
  {
    if t2 + v1 + cy >= B { ModSmall(t2 as int + v1 + cy, B, 1); } else { ModSmall(t2 as int + v1 + cy, B, 0); }
  }

  // ---- two limbs: the whole preparation --------------------------------------------------------

  /** u - extra v divided by v, two limbs each. */
  lemma WholeQuotient2(u: int, v: int, extra: nat, q: int, l: int)
    requires B * B <= 2 * u && u < B * B && B * B <= 2 * v && v < B * B && extra == (if u < v then 0 else 1)
    requires IsDivision((u - extra * v) * (B * B), v, q, l) && 0 <= l < v
    ensures var t := extra * (B * B) + q;
            && u * (B * B) == t * v + l && 0 <= q < B * B
            && (if extra == 1 then B * B <= t < 2 * (B * B) else B * B <= 2 * t < 2 * (B * B))
  {
    Distrib(extra * (B * B), q, v);
    if q >= B * B { MulMono(B * B, q, v); }
    if q < 0 { MulMono(q, -1, v); }
    if extra == 0 && 2 * q < B * B { MulMono(q + 1, HALF * B, v); Distrib(q, 1, v); }
  }

  lemma SameAbove(a: nat, b: nat, h: int, k: int)
    requires h >= 1 && k >= 1 && a / h == b / h
    ensures a / (h * k) == b / (h * k)
  {
    ModProduct(a, h, k);
    ModProduct(b, h, k);
  }

  /** x and the exact quotient agree from h upwards; so do t and the number x stands for. */
  lemma SameWithExtra(x: nat, exact: nat, h: int, c: int)
    requires h >= 1 && c * h == B * B && c >= 0 && x / h == exact / h
    ensures (B * B + x) / 2 / (2 * h) == (B * B + exact) / 2 / (2 * h)
    ensures (B * B + x) / 2 / h == (B * B + exact) / (2 * h)
  {
    ModAddMultiple(x, h, c);
    ModAddMultiple(exact, h, c);
    var a, b := B * B + x, B * B + exact;
    SameAbove(a, b, h, 4);
    SameAbove(a, b, h, 2);
    ModProduct(a, 2, h);
    ModProduct(a, 2, 2 * h);
    ModProduct(b, 2, 2 * h);
  }

  /** The quotient limbs as they are stored: w is x, or half of B^2 + x. */
  lemma ReadyTwo(s: seq<limb>, p: nat, u: int, v: int, extra: nat, exact: nat, l: int, x: nat, w: int, rb: bool, sb: bool)
    requires 64 < p < 128 && |s| == 2 && B * B <= 2 * u && u < B * B && B * B <= 2 * v && v < B * B && extra == (if u < v then 0 else 1)
    requires IsDivision((u - extra * v) * (B * B), v, exact, l) && 0 <= l < v && w == (if extra == 1 then (B * B + x) / 2 else x)
    requires var h := Pow2(127 - p);
             && x / h == exact / h && Val(s) == w / (2 * h) * (2 * h) && rb == (w / h % 2 == 1)
             && sb == ((if extra == 1 then (B * B + exact) % (2 * h) != 0 else exact % h != 0) || l != 0)
    ensures Ready(s, p, u * (B * B), Pow2(128 - p + extra) * v, rb, sb)
  {
    hide Val, BP, Pow2, Ready, IsDivision;
    var h := Pow2(127 - p);
    WholeQuotient2(u, v, extra, exact, l);
    Pow2Step(127 - p);
    F.Val2(s);
    if extra == 1 {
      Pow2Step(128 - p);
      MultipleOfB2(p);
      SameWithExtra(x, exact, h, Pow2(p + 1));
      ReadyHalved(s, p, u * (B * B), v, rb, sb, B * B + exact, l, 2 * h);
    } else {
      SameAbove(x, exact, h, 2);
      ReadyWhole(s, p, u * (B * B), v, rb, sb, exact, l, h);
    }
  }

  lemma MultipleOfB2(p: nat)
    requires p <= 127
    ensures Pow2(p + 1) * Pow2(127 - p) == B * B
  {
    hide Pow2;
    Pow2Add(p + 1, 127 - p);
    Pow2Add(64, 64);
    Pow2Limb();
  }

  /** round_div2 (div.c:569-575): after a quotient of at least 1, one bit to the right. */
  method ToExponent(qh: limb, ql: limb, extra: nat) returns (q1: limb, q0: limb, lost: bool)
    requires extra <= 1
    ensures var x := qh * B + ql;
            q0 + B * q1 == (if extra == 1 then (B * B + x) / 2 else x) && lost == (extra == 1 && x % 2 != 0)
  {
    q1, q0, lost := qh, ql, false;
    if extra == 1 {
      lost := ql % 2 != 0;
      F.Halved2(ql, qh, B * B + (qh * B + ql));
      assert (B * B + (qh * B + ql)) % 2 == (qh * B + ql) % 2;
      q1, q0 := HALF + qh / 2, (qh % 2) * HALF + ql / 2;
    }
  }

  /** div.c:576-579. */
  method CutOff(qp: array<limb>, q1: limb, q0: limb, sh: nat) returns (rb: bool, sb: bool)
    requires 1 <= sh < 64 && qp.Length == 2
    modifies qp
    ensures var h, w := Pow2(sh - 1), q0 + B * q1;
            Val(qp[..]) == w / (2 * h) * (2 * h) && rb == (w / h % 2 == 1) && sb == (w % h != 0)
  {
    hide Val, BP, Pow2;
    rb := q0 / Pow2(sh - 1) % 2 == 1;
    sb := q0 % Pow2(sh - 1) != 0;
    ModAtMost(q0, Pow2(sh));
    qp[1] := q1;
    qp[0] := q0 - q0 % Pow2(sh);
    StoredLimbs(qp[..], q1, q0, sh, q0 + B * q1);
  }

  method Tail2(qp: array<limb>, p: nat, qh: limb, ql: limb, sb0: bool, extra: nat,
               ghost u: int, ghost v: int, ghost exact: nat, ghost l: int, ghost fast: bool)
    returns (rb: bool, sb: bool)
    requires 64 < p < 128 && qp.Length == 2 && B * B <= 2 * u && u < B * B && B * B <= 2 * v && v < B * B && extra == (if u < v then 0 else 1)
    requires IsDivision((u - extra * v) * (B * B), v, exact, l) && 0 <= l < v
    requires var h, x := Pow2(127 - p), qh * B + ql;
             if fast then sb0 && x / h == exact / h && exact % h >= 1 else x == exact && sb0 == (l != 0)
    modifies qp
    ensures Ready(qp[..], p, u * (B * B), Pow2(128 - p + extra) * v, rb, sb)
  {
    hide Val, BP, Pow2, Ready, IsDivision;
    var q1, q0, lost := ToExponent(qh, ql, extra);
    ghost var w := q0 + B * q1;
    rb, sb := CutOff(qp, q1, q0, 128 - p);
    sb := sb0 || lost || sb;
    MultipleOfB2(p);
    StickyBits(qh * B + ql, exact, w, extra, Pow2(127 - p), Pow2(p + 1), fast);
    ReadyTwo(qp[..], p, u, v, extra, exact, l, qh * B + ql, w, rb, sb);
  }

  lemma StoredLimbs(s: seq<limb>, q1: limb, q0: limb, sh: nat, w: int)
    requires |s| == 2 && 1 <= sh < 64 && s[1] == q1 && s[0] == q0 - q0 % Pow2(sh) && w == q0 + B * q1
    ensures var h := Pow2(sh - 1); Val(s) == w / (2 * h) * (2 * h) && q0 / h % 2 == w / h % 2 && q0 % h == w % h
  {
    hide Val, Pow2;
    F.LowLimbParts(s, q0, sh);
    F.Val2(s[0 := q0]);
    Pow2Step(sh - 1);
  }

  lemma StickyBits(x: nat, exact: nat, w: int, extra: nat, h: int, c: int, fast: bool)
    requires h >= 1 && c >= 0 && c * h == B * B && w == (if extra == 1 then (B * B + x) / 2 else x)
    requires if fast then x / h == exact / h && exact % h >= 1 else x == exact
    ensures fast && extra == 1 ==> (B * B + exact) % (2 * h) != 0
    ensures !fast && extra == 1 ==> ((B * B + exact) % (2 * h) != 0 <==> x % 2 != 0 || w % h != 0)
    ensures !fast && extra != 1 ==> exact % h == w % h
  {
    if extra == 1 {
      ModAddMultiple(exact, h, c);
      F.HalfParts(B * B + exact, h);
      ModProduct(B * B + exact, h, 2);
      MulComm(h, 2);
    }
  }

  /** mpfr_div_2 up to the rounding, with the approximate quotient. */
  method Prepare2(qp: array<limb>, u1: limb, u0: limb, v1: limb, v0: limb, p: nat, short: nat) returns (rb: bool, sb: bool, extra: nat)
    requires 64 < p < 128 && qp.Length == 2 && u1 >= HALF && v1 >= HALF && short <= 1
    modifies qp
    ensures var u, v := u1 * B + u0, v1 * B + v0;
            extra == (if u < v then 0 else 1) && Ready(qp[..], p, u * (B * B), Pow2(128 - p + extra) * v, rb, sb)
  {
    hide Val, BP, Pow2, Ready, IsDivision;
    ghost var u, v := u1 * B + u0, v1 * B + v0;
    var r3, r2;
    r3, r2, extra := TakeOff(u1, u0, v1, v0);
    var q1, q0 := A.Div2Approx(r3, r2, v1, v0, short);
    var sh := 128 - p;
    ghost var n := (u - extra * v) * (B * B);
    ghost var exact, l := n / v, n % v;
    ExactParts(n, v, exact, l);
    Dividend(r3, r2, u - extra * v);
    if (q0 + 21) % B % Pow2(sh - 1) > 21 {
      GoodTwo(q1, q0, exact, p);
      rb, sb := Tail2(qp, p, q1, q0, true, extra, u, v, exact, l, true);
    } else {
      var s1, s0;
      CloseTwo(n, v, q1 * B + q0, exact);
      q1, q0, s1, s0 := Correct2(r3, r2, v1, v0, q1, q0);
      SameDivision(n, v, q1 * B + q0, s1 * B + s0, exact, l);
      rb, sb := Tail2(qp, p, q1, q0, s1 != 0 || s0 != 0, extra, u, v, exact, l, false);
    }
  }

  /** The same on the path without an approximate inverse. */
  method Prepare2Schoolbook(qp: array<limb>, u1: limb, u0: limb, v1: limb, v0: limb, p: nat) returns (rb: bool, sb: bool, extra: nat)
    requires 64 < p < 128 && qp.Length == 2 && u1 >= HALF && v1 >= HALF
    modifies qp
    ensures var u, v := u1 * B + u0, v1 * B + v0;
            extra == (if u < v then 0 else 1) && Ready(qp[..], p, u * (B * B), Pow2(128 - p + extra) * v, rb, sb)
  {
    hide Val, BP, Pow2, Ready, IsDivision;
    ghost var u, v := u1 * B + u0, v1 * B + v0;
    var r3, r2;
    r3, r2, extra := TakeOff(u1, u0, v1, v0);
    var q1, t2, t1, q0, s1, s0;
    ghost var steps;
    q1, t2, t1, steps := QuotientLimb(r3, r2, v1, v0);
    q0, s1, s0, steps := QuotientLimb(t2, t1, v1, v0);
    ghost var n := (u - extra * v) * (B * B);
    TwoSteps(r3 * B + r2, v, q1, t2 * B + t1, q0, s1 * B + s0, n);
    rb, sb := Tail2(qp, p, q1, q0, s1 != 0 || s0 != 0, extra, u, v, q1 * B + q0, s1 * B + s0, false);
  }

  lemma TwoSteps(u: int, v: int, q1: int, t: int, q0: int, s: int, n: int)
    requires IsDivision(u * B, v, q1, t) && IsDivision(t * B, v, q0, s) && n == u * (B * B)
    ensures IsDivision(n, v, q1 * B + q0, s)
  {
    Distrib(q1 * B, q0, v);
    MulAssoc(q1, B, v);
    MulAssoc(q1, v, B);
    MulComm(B, v);
  }

  /** div.c:404-408. */
  method TakeOff(u1: limb, u0: limb, v1: limb, v0: limb) returns (r3: limb, r2: limb, extra: nat)
    requires u1 >= HALF && v1 >= HALF
    ensures var u, v := u1 * B + u0, v1 * B + v0;
            extra == (if u < v then 0 else 1) && r3 * B + r2 == u - extra * v && r3 * B + r2 < v
  {
    r3, r2, extra := u1, u0, 0;
    if r3 > v1 || (r3 == v1 && r2 >= v0) {
      extra := 1;
      r2 := (u0 - v0) % B;
      r3 := u1 - v1 - if u0 < v0 then 1 else 0;
      if u0 < v0 { ModSmall(u0 as int - v0, B, -1); } else { ModSmall(u0 as int - v0, B, 0); }
    }
  }

  lemma ExactParts(n: int, v: int, exact: int, l: int)
    requires v >= 1 && n >= 0 && exact == n / v && l == n % v
    ensures IsDivision(n, v, exact, l) && 0 <= l < v && exact >= 0
  {
    MulComm(v, exact);
    DivLe(n, v);
  }

  lemma Dividend(r3: limb, r2: limb, u: int)
    requires r3 * B + r2 == u
    ensures (r3 * B + r2) * B * B == u * (B * B)
  {}

  lemma SameDivision(n: int, v: int, q: int, r: int, exact: int, l: int)
    requires v >= 1 && IsDivision(n, v, q, r) && 0 <= r < v && exact == n / v && l == n % v
    ensures q == exact && r == l
  {
    DivUnique(n, v, q, r);
  }

  lemma CloseTwo(n: int, v: int, q: int, exact: int)
    requires v >= 1 && exact == n / v && q <= exact <= q + 21
    ensures q * v <= n < (q + 22) * v
  {
    MulComm(v, exact);
    MulMono(q, exact, v);
    MulMono(exact + 1, q + 22, v);
    Distrib(exact, 1, v);
  }

  lemma GoodTwo(q1: limb, q0: limb, exact: int, p: nat)
    requires 64 < p < 128 && q1 * B + q0 <= exact <= q1 * B + q0 + 21 && (q0 + 21) % B % Pow2(127 - p) > 21
    ensures (q1 * B + q0) / Pow2(127 - p) == exact / Pow2(127 - p) && exact % Pow2(127 - p) >= 1
  {
    hide Pow2;
    HalfMultiple(128 - p);
    var h, g := Pow2(127 - p), 4 * Pow2(p - 65);
    var x := q1 * B + q0;
    ModTwice(q0 + 21, h, g);
    MulAssoc(q1, g, h);
    ModAddMultiple(q0 + 21, h, q1 * g);
    MulComm(h, x / h);
    GoodPlain(x, exact, 21, h, x / h, x % h, x / h * h);
  }

  // ---- the divisions ------------------------------------------------------------------------------

  /** A significand of one limb at any precision is one of 64 bits. */
  lemma AsFullLimb(s: seq<limb>, p: nat)
    requires Normalized(s, p) && p <= 64
    ensures |s| == 1 && s[0] >= HALF && Normalized(s, 64) && (p < 64 ==> Unused(p) == 64 - p) && Unused(64) == 0 && Val(s) == s[0]
    ensures BP(1) == B
  {
    hide Val;
    Pow2Zero();
    F.Val1(s);
  }

  /** Which of the three divisions are called, and for which precisions. */
  predicate Applies(pq: nat, pu: nat, pv: nat) {
    if pq == 64 then 1 <= pu <= 64 && 1 <= pv <= 64 else 1 <= pq < 128 && pu == pv == pq
  }

  method Prepare(qp: array<limb>, up: seq<limb>, vp: seq<limb>, p: nat, ghost pu: nat, ghost pv: nat, short: nat, schoolbook: bool)
    returns (rb: bool, sb: bool, extra: nat, ghost nn: int, ghost e: int)
    requires Applies(p, pu, pv) && Normalized(up, pu) && Normalized(vp, pv) && qp.Length == LimbCount(p) && short <= 1
    modifies qp
    ensures LimbCount(p) <= 2 && Scaled(up, vp, p, extra, nn, e) && Ready(qp[..], p, nn, e, rb, sb)
  {
    hide Val, BP, Pow2, Ready, Normalized;
    nn := Val(up) * BP(LimbCount(p));
    if p <= 64 {
      AsFullLimb(up, pu);
      AsFullLimb(vp, pv);
      if p < 64 {
        rb, sb, extra := Prepare1(qp, up[0], vp[0], p, short);
      } else {
        rb, sb, extra := Prepare1n(qp, up[0], vp[0], short);
      }
    } else {
      F.TwoLimbsOf(up, p);
      F.TwoLimbsOf(vp, p);
      if schoolbook {
        rb, sb, extra := Prepare2Schoolbook(qp, up[1], up[0], vp[1], vp[0], p);
      } else {
        rb, sb, extra := Prepare2(qp, up[1], up[0], vp[1], vp[0], p, short);
      }
    }
    e := Pow2(Unused(p) + extra) * Val(vp);
  }

  /** mpfr_div_1, mpfr_div_1n and mpfr_div_2: u/v rounded once into the range; q may be
      u or v.  `short` says by how much the approximate inverses fall short, and
      `schoolbook` selects the path of mpfr_div_2 for other word sizes. */
  method DivFast(env: Env, q: Mpfr, u: Mpfr, v: Mpfr, rnd: Mode, short: nat, schoolbook: bool)
    returns (inex: int, ghost o: Outcome, ghost x: real)
    requires q.Shape() && u.IsPureFp() && v.IsPureFp() && env.emin <= env.emax && Applies(q.prec, u.prec, v.prec) && short <= 1
    modifies q, q.mant, env`inexact, env`overflow, env`underflow
    ensures q.neg == (old(u.neg) != old(v.neg)) && q.Holds(o)
    ensures old(v.Magnitude()) > 0.0 && x == old(u.Magnitude()) / old(v.Magnitude())
    ensures CorrectSigned(WithSign(q.neg, x), q.prec, rnd, env.emin, env.emax, q.neg, o, inex)
    ensures env.inexact == (old(env.inexact) || inex != 0)
    ensures env.overflow == (old(env.overflow) || TooLarge(WithSign(q.neg, x), q.prec, rnd, env.emax))
    ensures env.underflow == (old(env.underflow) || TooSmall(WithSign(q.neg, x), q.prec, rnd, env.emin))
  {
    hide Val, BP, Pow2, R2, Frac, Normalized, Sig, CorrectSigned, TooLarge, TooSmall, Scaled, Ready;
    var qx := u.exp - v.exp;
    var up, vp := u.mant[..], v.mant[..];
    ghost var eu, ev := u.exp, v.exp;
    x := QuotientOf(up, u.prec, eu, vp, v.prec, ev);
    q.neg := u.neg != v.neg;
    var rb, sb, extra;
    ghost var nn, e;
    rb, sb, extra, nn, e := Prepare(q.mant, up, vp, q.prec, u.prec, v.prec, short, schoolbook);
    inex, o := Finish(env, q, rnd, qx + extra, rb, sb, up, vp, extra, nn, e, eu, ev, x);
  }

  lemma QuotientOf(up: seq<limb>, pu: nat, eu: int, vp: seq<limb>, pv: nat, ev: int) returns (x: real)
    requires Normalized(up, pu) && Normalized(vp, pv)
    ensures Frac(vp) * R2(ev) > 0.0 && x == (Frac(up) * R2(eu)) / (Frac(vp) * R2(ev)) && x * (Frac(vp) * R2(ev)) == Frac(up) * R2(eu)
  {
    hide R2, Frac, Normalized, FloatValue;
    FracIsFloat(vp, pv, ev);
    R2Pos(ev);
    RealProductPos(Frac(vp), R2(ev));
    x := (Frac(up) * R2(eu)) / (Frac(vp) * R2(ev));
  }
}

/** What the binary splitting loops of exp3.c and atan.c have in common besides the
    shape of their stacks. */
module Splitting {
  import opened Powers
  import opened RealPowers
  import opened Streams
  import opened BinaryCounter
  import N = Numbers

  /** exp3.c:98-100: ptoj[k] = p^(2^k). */
  method PowerTable(p: int, m: nat) returns (ptoj: seq<int>)
    ensures |ptoj| == (if m == 0 then 1 else m) && forall e :: 0 <= e < |ptoj| ==> ptoj[e] == Power(p, Pow2(e))
  {
    hide Pow2, Power;
    Pow2Zero();
    PowerOne(p);
    ptoj := [p];
    var k := 1;
    while k < m
      invariant |ptoj| == k >= 1 && (k <= m || k == 1) && forall e :: 0 <= e < k ==> ptoj[e] == Power(p, Pow2(e))
    {
      PowerDouble(p, Pow2(k - 1));
      Pow2Step(k - 1);
      ptoj := ptoj + [ptoj[k - 1] * ptoj[k - 1]];
      k := k + 1;
    }
  }

  function Abs(x: int): nat { if x < 0 then -x else x }

  /** exp3.c:90-95: odd p. */
  method Normalize(p0: int, r0: nat) returns (p: int, r: nat)
    requires p0 != 0 && Abs(p0) < Pow2(r0)
    ensures r <= r0 && p0 == p * Pow2(r0 - r) && p != 0 && Abs(p) < Pow2(r)
    ensures p as real / Pow2(r) as real == p0 as real / Pow2(r0) as real
  {
    hide Pow2;
    p, r := p0, r0;
    Pow2Zero();
    while p % 2 == 0
      invariant r <= r0 && p0 == p * Pow2(r0 - r) && p != 0 && Abs(p) < Pow2(r)
      decreases r
    {
      HalveBoth(p, r, r0);
      p, r := p / 2, r - 1;
    }
    SameFraction(p, r, r0 - r);
  }

  lemma HalveBoth(p: int, r: nat, r0: nat)
    requires p % 2 == 0 && p != 0 && r <= r0 && Abs(p) < Pow2(r)
    ensures r > 0 && p * Pow2(r0 - r) == p / 2 * Pow2(r0 - (r - 1)) && Abs(p / 2) < Pow2(r - 1)
  {
    hide Pow2;
    if r == 0 { Pow2Zero(); }
    Pow2Step(r - 1);
    Pow2Step(r0 - r);
    MulAssoc(p / 2, 2, Pow2(r0 - r));
  }

  lemma SameFraction(p: int, r: nat, k: nat)
    ensures p as real / Pow2(r) as real == (p * Pow2(k)) as real / Pow2(r + k) as real
  {
    hide Pow2;
    Pow2Add(r, k);
    CastProduct(Pow2(r), Pow2(k));
    CastProduct(p, Pow2(k));
    SameQuotient(p as real, Pow2(r) as real, Pow2(k) as real);
  }

  lemma SameQuotient(p: real, d: real, k: real)
    requires d > 0.0 && k > 0.0
    ensures d * k > 0.0 && (p * k) / (d * k) == p / d
  {
    var q := p / d;
    assert q * d == p;
    RealRegroup2(q, d, k);
    RealDivide(q, d * k);
  }

  lemma PlusOneLeft(w: real, z: real)
    ensures w * (1.0 + z) == w + w * z
  {}

  lemma LevelBelow(j: nat, l: nat, m: nat)
    requires j >= 2 && j * Pow2(l) <= Pow2(m)
    ensures l < m
  {
    hide Pow2;
    MulMono(2, j, Pow2(l));
    Pow2Step(l);
    Exponents(l + 1, m);
  }

  lemma HalfOf(j: nat, d: int, l: nat)
    requires j % 2 == 0 && d == Pow2(l)
    ensures j / 2 * Pow2(l + 1) == j * d
  {
    hide Pow2;
    Pow2Step(l);
    MulAssoc(j / 2, 2, d);
  }

  lemma SizesLength(lg: seq<nat>, st: seq<nat>, k: nat)
    requires Sizes(lg, st, k)
    ensures |st| == k + 2 && k < |lg|
  {}

  // ---- when enough terms have been summed ----------------------------------------------

  /** x^n <= q * 2^(-mu). */
  predicate Reaches(x: real, n: nat, mu: int, q: int) { RealPower(x, n) * R2(mu) <= q as real }

  lemma {:induction false} RealPowerAdd(x: real, a: nat, b: nat)
    ensures RealPower(x, a + b) == RealPower(x, a) * RealPower(x, b)
  {
    if a > 0 {
      RealPowerAdd(x, a - 1, b);
      RealSwap(x, RealPower(x, a - 1), RealPower(x, b));
    }
  }

  lemma {:induction false} RealPowerSign(x: real, n: nat)
    requires x >= 0.0
    ensures RealPower(x, n) >= 0.0
  {
    if n > 0 {
      RealPowerSign(x, n - 1);
      RealNonNegative(x, RealPower(x, n - 1));
    }
  }

  lemma ReachesBoth(x: real, a: nat, c: nat, mu: int, nu: int, q: int, q': int)
    requires x >= 0.0 && q >= 0 && q' >= 0 && Reaches(x, a, mu, q) && Reaches(x, c, nu, q')
    ensures Reaches(x, a + c, mu + nu, q * q')
  {
    hide R2, RealPower;
    RealPowerAdd(x, a, c);
    R2Add(mu, nu);
    RealPowerSign(x, a);
    RealPowerSign(x, c);
    var f, g := RealPower(x, a) * R2(mu), RealPower(x, c) * R2(nu);
    RealFour(RealPower(x, a), RealPower(x, c), R2(mu), R2(nu));
    RealNonNegative(RealPower(x, a), R2(mu));
    RealNonNegative(RealPower(x, c), R2(nu));
    CastProduct(q, q');
    ProductMono(f, g, q as real, q' as real);
  }

  lemma ProductMono(f: real, g: real, a: real, b: real)
    requires 0.0 <= f <= a && 0.0 <= g <= b
    ensures f * g <= a * b
  {
    RealSub(a, f, g);
    RealNonNegative(a - f, g);
    RealTwoParts(a, b, g);
    RealNonNegative(a, b - g);
  }

  lemma ReachesLess(x: real, n: nat, mu: int, nu: int, q: int)
    requires x >= 0.0 && nu <= mu && Reaches(x, n, mu, q)
    ensures Reaches(x, n, nu, q)
  {
    hide R2, RealPower;
    RealPowerSign(x, n);
    R2Mono(nu, mu);
    RealNonNegative(RealPower(x, n), R2(mu) - R2(nu));
    RealTwoParts(RealPower(x, n), R2(mu), R2(nu));
  }

  lemma RealTwoParts(w: real, y: real, z: real)
    ensures w * (y - z) == w * y - w * z
  {}

  lemma ReachesMeans(x: real, n: nat, mu: int, q: int)
    requires q >= 1 && Reaches(x, n, mu, q)
    ensures RealPower(x, n) / q as real <= R2(-mu)
  {
    hide R2, RealPower;
    R2Add(mu, -mu);
    R2Small();
    var w, u, v := RealPower(x, n), R2(mu), R2(-mu);
    assert w <= q as real * v by {
      RealMono(w * u, q as real, v);
      RealSwap(w, u, v);
    }
    var g := w / q as real;
    assert g * q as real == w;
    RealComm(v, q as real);
    RealMono(g, v, q as real);
  }

  /** With x = p/2^r: x^c * 2^(r c) = p^c. */
  lemma {:induction false} PowerScaled(x: real, p: int, r: nat, c: nat, e: nat)
    requires x * Pow2(r) as real == p as real && e == r * c
    ensures RealPower(x, c) * Pow2(e) as real == Power(p, c) as real
    decreases c
  {
    hide Pow2, RealPower, Power;
    if c == 0 {
      NothingScaled(x, p);
      assert e == 0 by { assert r * 0 == 0; }
    } else {
      NextMultiple(r, c, e);
      PowerScaled(x, p, r, c - 1, e - r);
      Pow2Add(r, e - r);
      PowerFirst(p, c);
      RealPowerFirst(x, c - 1);
      ScaledStep(x, RealPower(x, c - 1), Pow2(r), Pow2(e - r), p, Power(p, c - 1));
    }
  }

  lemma NothingScaled(x: real, p: int)
    ensures RealPower(x, 0) == 1.0 && Power(p, 0) == 1 && Pow2(0) == 1
  {}

  lemma NextMultiple(r: nat, c: nat, e: int)
    requires c >= 1 && e == r * c
    ensures e >= r && e - r == r * (c - 1)
  {
    Distrib(c - 1, 1, r);
    MulMono(0, c - 1, r);
    MulComm(r, c - 1);
    MulComm(r, c);
  }

  lemma ScaledStep(x: real, w: real, d: int, u: int, p: int, v: int)
    requires x * d as real == p as real && w * u as real == v as real
    ensures (x * w) * (d * u) as real == (p * v) as real
  {
    CastProduct(d, u);
    CastProduct(p, v);
    RealFour(x, w, d as real, u as real);
  }

  lemma {:induction false} PowerPositive(p: int, n: nat)
    requires p >= 1
    ensures Power(p, n) >= 1
  {
    if n > 0 {
      PowerPositive(p, n - 1);
      MulMono(1, p, Power(p, n - 1));
    }
  }

  lemma {:induction false} AbsPower(p: int, n: nat)
    ensures Abs(Power(p, n)) == Power(Abs(p), n)
  {
    if n > 0 {
      AbsPower(p, n - 1);
      AbsProduct(p, Power(p, n - 1));
    }
  }

  lemma AbsProduct(x: int, y: int)
    ensures Abs(x * y) == Abs(x) * Abs(y)
  {}

  /** What the size of the power in the table tells: x^c <= 2^(size - r c). */
  lemma PowerReaches(x: real, p: int, r: nat, c: nat)
    requires p != 0 && x * Pow2(r) as real == Abs(p) as real
    ensures Reaches(x, c, r * c - SizeInBase2(Abs(Power(p, c))), 1)
  {
    hide R2, Pow2, RealPower, SizeInBase2, Power;
    var w, e := Power(Abs(p), c), r * c;
    AbsPower(p, c);
    PowerPositive(Abs(p), c);
    MulNat(r, c);
    PowerScaled(x, Abs(p), r, c, e);
    N.SizeBounds(w);
    BelowSize(RealPower(x, c), w, e, SizeInBase2(w));
  }

  lemma BelowSize(y: real, w: int, e: nat, size: nat)
    requires y * Pow2(e) as real == w as real && w < Pow2(size)
    ensures y * R2(e - size) <= 1.0
  {
    hide R2, Pow2;
    R2Nat(e);
    R2Nat(size);
    R2Add(e - size, size);
    RealSwap(y, R2(e - size), R2(size));
    RealMono(y * R2(e - size), 1.0, R2(size));
  }

  lemma MulNat(x: nat, y: nat)
    ensures x * y >= 0
  {
    MulMono(0, x, y);
  }

  /** The size of a denominator q tells more: x^c <= q * 2^(-nu - size + 1). */
  lemma SizeReaches(x: real, c: nat, nu: int, q: int)
    requires x >= 0.0 && q >= 1 && Reaches(x, c, nu, 1)
    ensures Reaches(x, c, nu + SizeInBase2(q) - 1, q)
  {
    hide R2, Pow2, RealPower, SizeInBase2;
    N.SizeBounds(q);
    var k := SizeInBase2(q) - 1;
    R2Nat(k);
    R2Add(nu, k);
    RealSwap(RealPower(x, c), R2(nu), R2(k));
    RealMono(RealPower(x, c) * R2(nu), 1.0, R2(k));
  }

  lemma FractionRange(p: nat, d: int, x: real)
    requires p < d && x == p as real / d as real
    ensures 0.0 <= x <= 1.0 && x * d as real == p as real
  {
    RealMono(0.0, x, d as real);
    RealMono(x, 1.0, d as real);
  }

  function RealAbs(x: real): real { if x < 0.0 then -x else x }

  lemma AbsProductAtMost(x: real, y: real, a: real, b: real)
    requires -a <= x <= a && -b <= y <= b
    ensures -(a * b) <= x * y <= a * b
  {
    RealNonNegative(a - x, b + y);
    RealNonNegative(a + x, b - y);
    RealNonNegative(a - x, b - y);
    RealNonNegative(a + x, b + y);
    FourCorners(x, y, a, b);
  }

  lemma FourCorners(x: real, y: real, a: real, b: real)
    ensures (a - x) * (b + y) + (a + x) * (b - y) == 2.0 * (a * b) - 2.0 * (x * y)
    ensures (a - x) * (b - y) + (a + x) * (b + y) == 2.0 * (a * b) + 2.0 * (x * y)
  {}

  lemma {:induction false} AbsRealPower(x: real, n: nat)
    ensures RealAbs(RealPower(x, n)) == RealPower(RealAbs(x), n)
  {
    if n > 0 {
      AbsRealPower(x, n - 1);
      AbsOfProduct(x, RealPower(x, n - 1));
    }
  }

  lemma AbsOfProduct(x: real, y: real)
    ensures RealAbs(x * y) == RealAbs(x) * RealAbs(y)
  {}
}

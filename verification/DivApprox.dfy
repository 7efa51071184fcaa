/** mpfr_div2_approx (div.c:39-103): two quotient limbs from an approximate inverse of
    the upper divisor limb, never too large and too small by a bounded amount. */
module DivApprox {
  import opened Powers
  import opened Limbs
  import opened RealPowers
  import opened Streams

  /** __gmpfr_invert_limb (d), or with short = 1 an approximation that falls short by
      one; its sources, which work with a table, are not part of this model. */
  function InvertLimb(d: limb, short: nat): (inv: limb)
    requires d >= HALF && short <= 1
    ensures (B + inv + short) * d < B * B <= (B + inv + short + 1) * d
  {
    InverseFits(d, (B * B - 1) / d);
    (B * B - 1) / d - B - short
  }

  lemma InverseFits(d: limb, q: int)
    requires d >= HALF && q == (B * B - 1) / d
    ensures B < q < 2 * B && q * d < B * B <= (q + 1) * d
  {
    MulComm(d, q);
    Distrib(q, 1, d);
    if q <= B { MulMono(q + 1, B + 1, d); }
    if q >= 2 * B { MulMono(2 * B, q, d); }
  }

  /** M = B + inv approximates B^2/d from below; g is what M d lacks. */
  predicate Inverse(m: int, d: int, g: int, e: int) {
    m >= B && m * d == B * B - g && 0 <= g <= e * d && 1 <= e <= 2
  }

  lemma InverseUsed(v1: limb, short: nat, inv: limb)
    requires v1 >= HALF && short <= 1 && inv == if v1 == B - 1 then 0 else InvertLimb(v1 + 1, short)
    ensures var d := v1 + 1; Inverse(B + inv, d, B * B - (B + inv) * d, 1 + short)
  {
    var d := v1 + 1;
    if v1 != B - 1 {
      Distrib(B + inv, short, d);
      Distrib(B + inv + short, 1, d);
      Distrib(1, short, d);
    }
  }

  // ---- never too large -------------------------------------------------------------------

  /** A product with M, divided by B, against the same with v. */
  lemma BelowQuotient(x: int, m: int, d: int, g: int, e: int, t: int, v: int)
    requires Inverse(m, d, g, e) && x >= 0 && d >= 1 && t == x * m / B && 0 <= v <= d * B
    ensures t >= 0 && t * v <= x * B * B
  {
    MulMono(0, x, m);
    MulComm(x, m);
    BelowPlain(x, m, d, t, x * m, v);
  }

  lemma BelowPlain(x: int, m: int, d: int, t: int, xm: int, v: int)
    requires xm == m * x && xm >= 0 && x >= 0 && d >= 1 && t == xm / B && m * d <= B * B && 0 <= v <= d * B
    ensures t >= 0 && t * v <= x * B * B
  {
    assert t * B <= xm;
    MulMono(t * B, xm, d);
    MulAssoc(x, m, d);
    MulComm(x, m);
    MulMono(m * d, B * B, x);
    MulComm(x, m * d);
    assert t * B * d <= x * (B * B) by { MulComm(x, B * B); }
    MulMono(v, d * B, t);
    MulComm(t, v);
    assert d * B * t == t * B * d by { MulComm(d * B, t); MulAssoc(t, d, B); MulAssoc(t, B, d); MulComm(d, B); }
  }

  // ---- not too small ------------------------------------------------------------------------

  /** The remainder R = u B - q1 v of the first limb. */
  lemma FirstRemainder(u1: int, u0: int, v: int, d: int, q1: int, r: int, a: int, av: int, guv: int, ev: int)
    requires 0 <= u1 < d && 0 <= u0 < B && v > 0 && (q1 + 1) * B > a && av == a * v && r == (u1 * B + u0) * B - q1 * v
    requires d * av == B * B * (u1 * v) - guv && guv <= d * ev && (d - 1) * B <= v
    ensures r * B < 2 * B * B * B + ev + B * v
  {
    assert r * B == u1 * (B * B * B) + u0 * (B * B) - q1 * v * B;
    assert q1 * v * B > (a - B) * v by { FirstStep(q1, a, v); }
    Distrib(a, -B, v);
    LowerProduct(u1, d, v);
    FirstEnd(u1, d, av, ev);
  }

  /** u1 v is at least u1 (d - 1) B. */
  lemma LowerProduct(u1: int, d: int, v: int)
    requires 0 <= u1 && (d - 1) * B <= v
    ensures u1 * v >= B * (u1 * d) - B * u1
  {
    MulMono((d - 1) * B, v, u1);
    MulComm(u1, v);
    MulComm(u1, d);
    Distribute2(d, u1);
  }

  lemma FirstStep(q1: int, a: int, v: int)
    requires (q1 + 1) * B > a && v > 0
    ensures q1 * v * B > (a - B) * v
  {
    MulStrict(a - B, q1 * B, v);
    MulAssoc(q1, B, v);
    MulAssoc(q1, v, B);
    MulComm(B, v);
  }

  lemma ProductWithInverse(u1: int, m: int, d: int, g: int, e: int, v: int)
    requires Inverse(m, d, g, e)
    ensures d * (u1 * m * v) == B * B * (u1 * v) - g * (u1 * v)
  {
    Reorder(d, u1, m, v);
    Distrib(B * B, -g, u1 * v);
  }

  lemma InverseProduct(u1: int, m: int, d: int, g: int, e: int, v: int)
    requires Inverse(m, d, g, e) && 0 <= u1 < d && v > 0
    ensures d * (u1 * m * v) == B * B * (u1 * v) - g * (u1 * v) && g * (u1 * v) <= d * (e * ((d - 1) * v))
  {
    ProductWithInverse(u1, m, d, g, e, v);
    MulMono(0, u1, v);
    MulMono(u1, d - 1, v);
    ScaledGap(g, e, d, u1 * v, (d - 1) * v);
  }

  /** What the inverse lacks, times something of at most dv. */
  lemma ScaledGap(g: int, e: int, d: int, uv: int, dv: int)
    requires 0 <= g <= e * d && 0 <= uv <= dv
    ensures g * uv <= d * (e * dv)
  {
    MulMono(g, e * d, uv);
    MulMono(uv, dv, e * d);
    MulComm(uv, e * d);
    MulComm(dv, e * d);
    MulAssoc(d, e, dv);
    MulComm(d, e);
  }

  lemma Reorder(d: int, u: int, m: int, v: int)
    ensures d * (u * m * v) == (m * d) * (u * v)
  {
    MulComm(u, m);
    MulAssoc(m, u, v);
    MulAssoc(m, d, u * v);
    MulAssoc(d, m, u * v);
    MulComm(d, m);
  }

  lemma FirstEnd(u1: int, d: int, av: int, ev: int)
    requires 0 <= u1 < d && d * av >= B * B * B * (u1 * d) - B * B * B * u1 - d * ev
    ensures u1 * (B * B * B) - av <= B * B * B + ev
  {
    var z := u1 * (B * B * B) - av - ev;
    assert d * z == (u1 * d) * (B * B * B) - d * av - d * ev;
    assert d * z <= u1 * (B * B * B);
    if z > B * B * B { MulStrict(B * B * B, z, d); MulComm(d, z); MulComm(d, B * B * B); }
  }

  lemma InverseTimes(m: int, d: int, g: int, e: int, v: int)
    requires Inverse(m, d, g, e) && v > 0
    ensures d * (m * v) == B * B * v - g * v && 0 <= g * v <= e * (d * v)
  {
    MulAssoc(d, m, v);
    MulComm(d, m);
    Distrib(B * B, -g, v);
    MulMono(0, g, v);
    MulMono(g, e * d, v);
    MulAssoc(e, d, v);
  }

  lemma TwoFloors(r: int, r1: int, m: int, t: int, v: int, p: int)
    requires p == r1 * m && (t + 1) * B > p && (r1 + 1) * B > r && m >= 1 && v > 0
    ensures B * B * (r * B - t * v) <= r * (B * B * B) - (r - B) * (m * v) + B * B * v
  {
    var mv := m * v;
    MulMono(1, m, v);
    MulStrict(p - B, t * B, v);
    assert t * B * v >= p * v - B * v by { Distrib(p, -B, v); }
    assert p * v == r1 * mv by { MulAssoc(r1, m, v); }
    assert t * B * v == B * (t * v) by { MulAssoc(t, B, v); MulComm(B, v); MulAssoc(t, v, B); MulComm(t * v, B); }
    MulMono(r - B, r1 * B, mv);
    assert r1 * B * mv == B * (r1 * mv) by { MulComm(r1, B); MulAssoc(B, r1, mv); }
  }

  lemma SecondExpand(d: int, r: int, mv: int, v: int)
    ensures (r * (B * B * B) - (r - B) * mv + B * B * v) * d == B * B * B * (r * d) - (r - B) * (d * mv) + B * B * (v * d)
  {
    Distrib(r * (B * B * B) - (r - B) * mv, B * B * v, d);
    Distrib(r * (B * B * B), -((r - B) * mv), d);
    MulAssoc(r - B, mv, d);
    MulComm(mv, d);
    assert (r * (B * B * B)) * d == B * B * B * (r * d);
    assert -((r - B) * mv) * d == -((r - B) * mv * d);
  }

  lemma SecondEnd(d: int, r: int, v: int, dm: int, gv: int, ev: int)
    requires dm == B * B * v - gv && 0 <= gv <= ev && r >= 0 && (d - 1) * B <= v
    ensures B * B * B * (r * d) - (r - B) * dm <= r * (B * B * B + ev) + B * B * B * v
  {
    Distrib(r, -B, dm);
    Distrib(B * B * v, -gv, r);
    assert r * dm == B * B * (r * v) - r * gv by { MulComm(r, dm); MulComm(r, gv); MulComm(r, v); MulAssoc(B * B, v, r); }
    MulMono((d - 1) * B, v, r);
    assert B * (r * d) - B * r <= r * v by { MulComm(v, r); Distribute2(d, r); }
    MulMono(gv, ev, r);
    MulComm(r, gv);
    MulComm(r, ev);
    Distrib(B * B * B, ev, r);
    MulComm(r, B * B * B + ev);
    assert B * dm <= B * B * B * v;
  }

  lemma Distribute2(d: int, r: int)
    ensures (d - 1) * B * r == B * (r * d) - B * r
  {
    MulComm(r, d);
    assert (d - 1) * B * r == B * ((d - 1) * r) by { MulComm(d - 1, B); MulAssoc(B, d - 1, r); }
    Distrib(d, -1, r);
  }

  /** The error in units of 2^-64: at most 16, or 21 with a short inverse. */
  function Slack(e: int): int { if e == 1 then 16 else 21 }

  /** The bound as an inequality between polynomials in n = v/B^2, least favourable at n = 1/2. */
  lemma Polynomial(n: real, e: real, k: real)
    requires 0.5 <= n <= 1.0 && ((e == 1.0 && k == 17.0) || (e == 2.0 && k == 22.0))
    ensures 2.0 + 2.0 * n + (3.0 * e + 1.0 - k) * (n * n) + e * (n * n * n) + e * e * (n * n * n * n) < 0.0
  {
    var n2 := n * n;
    var n3 := n2 * n;
    var n4 := n3 * n;
    assert n * n * n == n3 && n * n * n * n == n4;
    Powers4(n, n2, n3);
    if e == 1.0 {
      PolynomialOne(n, n2, n3, n4);
    } else {
      PolynomialTwo(n, n2, n3, n4);
    }
  }

  lemma Powers4(n: real, n2: real, n3: real)
    requires 0.5 <= n <= 1.0 && n2 == n * n && n3 == n2 * n
    ensures 0.0 <= n2 <= n && 0.0 <= n3 <= n2
  {
    RealNonNegative(n, 1.0 - n);
    RealNonNegative(n, n);
    RealNonNegative(n2, 1.0 - n);
    RealNonNegative(n2, n);
  }

  lemma Negated(a: real, b: real)
    ensures a * (-b) == -(a * b)
  {}

  lemma PolynomialOne(n: real, n2: real, n3: real, n4: real)
    requires 0.5 <= n <= 1.0 && n2 == n * n && n3 == n2 * n && n4 == n3 * n && 0.0 <= n2 <= n && 0.0 <= n3 <= n2
    ensures 2.0 + 2.0 * n - 13.0 * n2 + n3 + n4 < 0.0
  {
    var q := n3 + 1.5 * n2 - 12.25 * n - 4.125;
    assert q <= 0.0;
    RealNonNegative(n - 0.5, -q);
    Negated(n - 0.5, q);
    assert (n - 0.5) * q == n4 + n3 - 13.0 * n2 + 2.0 * n + 2.0625 by { assert (n - 0.5) * (n3 + 1.5 * n2 - 12.25 * n - 4.125) == n4 + n3 - 13.0 * n2 + 2.0 * n + 2.0625; }
  }

  lemma PolynomialTwo(n: real, n2: real, n3: real, n4: real)
    requires 0.5 <= n <= 1.0 && n2 == n * n && n3 == n2 * n && n4 == n3 * n && 0.0 <= n2 <= n && 0.0 <= n3 <= n2
    ensures 2.0 + 2.0 * n - 15.0 * n2 + 2.0 * n3 + 4.0 * n4 < 0.0
  {
    var q := 4.0 * n3 + 4.0 * n2 - 13.0 * n - 4.5;
    assert q <= 0.0;
    RealNonNegative(n - 0.5, -q);
    Negated(n - 0.5, q);
    assert (n - 0.5) * q == 4.0 * n4 + 2.0 * n3 - 15.0 * n2 + 2.0 * n + 2.25 by { assert (n - 0.5) * (4.0 * n3 + 4.0 * n2 - 13.0 * n - 4.5) == 4.0 * n4 + 2.0 * n3 - 15.0 * n2 + 2.0 * n + 2.25; }
  }

  lemma ScaledInequality(n: real, w: real, dd: real, e: real, k: real)
    requires 0.5 <= n <= 1.0 && 0.0 <= w <= n <= dd && ((e == 1.0 && k == 17.0) || (e == 2.0 && k == 22.0))
    ensures (2.0 + n + e * (w * n)) * (1.0 + e * (dd * n)) + n + n * dd < k * (dd * n)
  {
    Polynomial(n, e, k);
    ScaleLe(w, n, n);
    ScaleLe(n, dd, n);
    Small(n, n * n);
    LargerFactor(n, w * n, n * n, e, dd * n);
    RealComm(n, dd);
    FinalStep(n, n * n, dd * n, e, k, 2.0 + n + e * (n * n), 1.0 + e * (dd * n));
  }

  lemma ScaleLe(a: real, b: real, c: real)
    requires a <= b && c >= 0.0
    ensures a * c <= b * c
  {}

  lemma LargerFactor(n: real, wn: real, nn: real, e: real, dn: real)
    requires wn <= nn <= dn && 0.0 <= nn && 1.0 <= e
    ensures (2.0 + n + e * wn) * (1.0 + e * dn) <= (2.0 + n + e * nn) * (1.0 + e * dn)
  {
    ScaleLe(wn, nn, e);
    RealComm(e, wn);
    RealComm(e, nn);
    RealNonNegative(e, dn);
    ScaleLe(2.0 + n + e * wn, 2.0 + n + e * nn, 1.0 + e * dn);
  }

  lemma Small(n: real, nn: real)
    requires 0.5 <= n <= 1.0 && nn == n * n
    ensures 0.0 <= nn <= 1.0
  {
    RealNonNegative(n, n);
    RealNonNegative(n, 1.0 - n);
    Minus(1.0, n, n);
  }

  lemma Minus(a: real, b: real, c: real)
    ensures (a - b) * c == a * c - b * c
  {}

  lemma FinalStep(n: real, nn: real, dn: real, e: real, k: real, big: real, y: real)
    requires nn == n * n && nn <= dn && big == 2.0 + n + e * nn && y == 1.0 + e * dn && 0.5 <= n <= 1.0 && 0.0 <= nn <= 1.0
    requires (e == 1.0 && k == 17.0) || (e == 2.0 && k == 22.0)
    requires 2.0 + 2.0 * n + (3.0 * e + 1.0 - k) * (n * n) + e * (n * n * n) + e * e * (n * n * n * n) < 0.0
    ensures big * y + n + dn < k * dn
  {
    var c := e * big + 1.0 - k;
    assert c < 0.0;
    RealNonNegative(dn - nn, -c);
    Minus(dn, nn, -c);
    assert dn * c <= nn * c by { Negated(dn, c); Negated(nn, c); }
    assert big * y == big + dn * (e * big) by { assert big * (1.0 + e * dn) == big + dn * (e * big); }
    assert dn * c == dn * (e * big) + dn - dn * k by { assert dn * ((e * big) + 1.0 - k) == dn * (e * big) + dn - dn * k; }
    assert nn * c == 2.0 * (e * nn) + e * (n * n * n) + e * e * (n * n * n * n) + nn - k * nn by { ExpandN(n, nn, e, k); }
  }

  lemma ExpandN(n: real, nn: real, e: real, k: real)
    requires nn == n * n
    ensures nn * (e * (2.0 + n + e * nn) + 1.0 - k) == 2.0 * (e * nn) + e * (n * n * n) + e * e * (n * n * n * n) + nn - k * nn
  {
    assert nn * n == n * n * n;
    assert nn * nn == n * n * n * n;
    ExpandM(nn, n, nn * n, nn * nn, e, k);
  }

  lemma ExpandM(nn: real, n: real, n3: real, n4: real, e: real, k: real)
    requires n3 == nn * n && n4 == nn * nn
    ensures nn * (e * (2.0 + n + e * nn) + 1.0 - k) == 2.0 * (e * nn) + e * n3 + e * e * n4 + nn - k * nn
  {}

  const B3: int := B * B * B
  const BR: real := 18446744073709551616.0
  const BR2: real := 340282366920938463463374607431768211456.0
  const BR3: real := 6277101735386680763835789423207666416102355444464034512896.0

  /** The inequality over the integers. */
  lemma IntegerInequality(v: int, d: int, e: int)
    requires (d - 1) * B <= v <= d * B && B * B <= 2 * v <= 2 * (B * B) && d >= 1 && 1 <= e <= 2
    ensures (2 * B3 + e * ((d - 1) * v) + B * v) * (B3 + e * (d * v)) + B * (B3 * v) + B3 * (v * d) < (Slack(e) + 1) * (B3 * (d * v))
  {
    MulComm(v, d);
    var n, wn, dn := UnitProducts(v, d, e, (d - 1) * v, d * v);
    FromUnits(v, e, (d - 1) * v, d * v, n, wn, dn);
  }

  lemma InUnits(v: int, d: int) returns (n: real, w: real, dd: real)
    requires (d - 1) * B <= v <= d * B && B * B <= 2 * v <= 2 * (B * B) && d >= 1
    ensures n * BR2 == v as real && w * BR == (d - 1) as real && dd * BR == d as real
    ensures 0.5 <= n <= 1.0 && 0.0 <= w <= n <= dd
  {
    n, w, dd := v as real / BR2, (d - 1) as real / BR, d as real / BR;
  }

  lemma UnitProducts(v: int, d: int, e: int, p: int, q: int) returns (n: real, wn: real, dn: real)
    requires (d - 1) * B <= v <= d * B && B * B <= 2 * v <= 2 * (B * B) && d >= 1 && 1 <= e <= 2
    requires p == (d - 1) * v && q == d * v
    ensures p as real == wn * BR3 && q as real == dn * BR3 && v as real == n * BR2
    ensures (2.0 + n + e as real * wn) * (1.0 + e as real * dn) + n + dn < (Slack(e) + 1) as real * dn
  {
    var w, dd;
    n, w, dd := InUnits(v, d);
    wn, dn := w * n, dd * n;
    NamedInequality(n, w, dd, e, wn, dn);
    Triple(d - 1, v, w, n);
    Triple(d, v, dd, n);
  }

  lemma NamedInequality(n: real, w: real, dd: real, e: int, wn: real, dn: real)
    requires 0.5 <= n <= 1.0 && 0.0 <= w <= n <= dd && 1 <= e <= 2 && wn == w * n && dn == dd * n
    ensures (2.0 + n + e as real * wn) * (1.0 + e as real * dn) + n + dn < (Slack(e) + 1) as real * dn
  {
    RealComm(n, dd);
    if e == 1 {
      ScaledInequality(n, w, dd, 1.0, 17.0);
    } else {
      ScaledInequality(n, w, dd, 2.0, 22.0);
    }
  }

  lemma FromUnits(v: int, e: int, p: int, q: int, n: real, wn: real, dn: real)
    requires p as real == wn * BR3 && q as real == dn * BR3 && v as real == n * BR2 && 1 <= e <= 2
    requires (2.0 + n + e as real * wn) * (1.0 + e as real * dn) + n + dn < (Slack(e) + 1) as real * dn
    ensures (2 * B3 + e * p + B * v) * (B3 + e * q) + B * (B3 * v) + B3 * q < (Slack(e) + 1) * (B3 * q)
  {
    var x, y := 2 * B3 + e * p + B * v, B3 + e * q;
    FirstFactor(x, e, p, v, wn, n);
    SecondFactor(y, e, q, dn);
    Conclude(x, y, v, q, Slack(e) + 1, n, dn, 2.0 + n + e as real * wn, 1.0 + e as real * dn);
  }

  lemma Triple(x: int, v: int, w: real, n: real)
    requires n * BR2 == v as real && w * BR == x as real
    ensures (x * v) as real == (w * n) * BR3
  {
    CastProduct(x, v);
    RealFour(w, BR, n, BR2);
  }

  lemma FirstFactor(x: int, e: int, p: int, v: int, wn: real, n: real)
    requires x == 2 * B3 + e * p + B * v && p as real == wn * BR3 && v as real == n * BR2 && 1 <= e <= 2
    ensures x as real == (2.0 + n + e as real * wn) * BR3
  {
    if e == 1 { assert e * p == p; } else { assert e * p == 2 * p; }
  }

  lemma SecondFactor(y: int, e: int, q: int, dn: real)
    requires y == B3 + e * q && q as real == dn * BR3 && 1 <= e <= 2
    ensures y as real == (1.0 + e as real * dn) * BR3
  {
    if e == 1 { assert e * q == q; } else { assert e * q == 2 * q; }
  }

  lemma Conclude(x: int, y: int, v: int, q: int, k: int, n: real, dn: real, f: real, h: real)
    requires x as real == f * BR3 && y as real == h * BR3 && q as real == dn * BR3
    requires v as real == n * BR2 && f * h + n + dn < k as real * dn
    ensures x * y + B * (B3 * v) + B3 * q < k * (B3 * q)
  {
    var c := BR3;
    CastProduct(x, y);
    RealFour(f, c, h, c);
    CastProduct(k, q);
    RealSwap(k as real, dn, c);
    assert (x * y) as real == (f * h) * (c * c);
    assert (B * (B3 * v)) as real == n * (c * c);
    assert (B3 * q) as real == dn * (c * c);
    assert (k * q) as real == (k as real * dn) * c;
    assert k * (B3 * q) == B3 * (k * q) by { MulComm(k, B3 * q); MulAssoc(B3, q, k); MulComm(q, k); }
    assert (B3 * (k * q)) as real == (k as real * dn) * (c * c);
    assert (f * h + n + dn) * (c * c) < (k as real * dn) * (c * c);
    assert ((f * h) + n + dn) * (c * c) == (f * h) * (c * c) + n * (c * c) + dn * (c * c);
  }

  /** Both limbs together are too small by at most the slack. */
  lemma WithinSlack(u1: int, u0: int, v: int, m: int, d: int, g: int, e: int, q1: int, r: int, r1: int, t: int)
    requires Inverse(m, d, g, e) && 0 <= u1 < d && 0 <= u0 < B && (d - 1) * B <= v <= d * B && B * B <= 2 * v <= 2 * (B * B)
    requires q1 == u1 * m / B && r == (u1 * B + u0) * B - q1 * v && r >= 0 && r1 == r / B && t == r1 * m / B
    ensures r * B - t * v < (Slack(e) + 1) * v
  {
    var x, y, z := 2 * B3 + e * ((d - 1) * v) + B * v, B3 + e * (d * v), r * B - t * v;
    assert r * B < x by {
      InverseProduct(u1, m, d, g, e, v);
      assert (q1 + 1) * B > u1 * m;
      FirstRemainder(u1, u0, v, d, q1, r, u1 * m, u1 * m * v, g * (u1 * v), e * ((d - 1) * v));
    }
    // The second limb t leaves r B - t v.
    assert d * (B * B * z) <= r * y + B * B * B * v + B * B * (v * d) by {
      TwoFloors(r, r1, m, t, v, r1 * m);
      var mv, w := m * v, r * (B * B * B) - (r - B) * (m * v) + B * B * v;
      InverseTimes(m, d, g, e, v);
      MulMono(B * B * z, w, d);
      MulComm(d, B * B * z);
      SecondExpand(d, r, mv, v);
      SecondEnd(d, r, v, d * mv, g * v, e * (d * v));
    }
    IntegerInequality(v, d, e);
    MulMono(0, d, v);
    MulMono(r * B, x, y) by { ProductNonNegative(e, d * v); }
    MulAssoc(r, B, y);
    MulComm(B, y);
    MulAssoc(r, y, B);
    assert B3 * (d * z) <= x * y + B * (B3 * v) + B3 * (v * d) by {
      assert B * (d * (B * B * z)) == B3 * (d * z) by { Pull(d, z); }
    }
    assert B3 * (d * z) < B3 * ((Slack(e) + 1) * (d * v)) by { Pull2(Slack(e) + 1, d * v); }
    CancelD(d, z, Slack(e) + 1, v);
  }

  lemma Pull(d: int, z: int)
    ensures B * (d * (B * B * z)) == B3 * (d * z)
  {
    MulComm(d, B * B * z);
    MulComm(d, z);
    MulAssoc(B * B, z, d);
  }

  lemma Pull2(k: int, x: int)
    ensures k * (B3 * x) == B3 * (k * x)
  {
    MulComm(k, B3 * x);
    MulAssoc(B3, x, k);
    MulComm(x, k);
  }

  lemma CancelD(d: int, z: int, k: int, v: int)
    requires d >= 1 && d * z < k * (d * v)
    ensures z < k * v
  {
    assert k * (d * v) == d * (k * v) by { MulComm(k, d * v); MulAssoc(d, v, k); MulComm(v, k); }
    if z >= k * v { MulMono(k * v, z, d); MulComm(d, z); MulComm(d, k * v); }
  }

  // ---- the code ---------------------------------------------------------------------------

  /** div.c:64-74: the upper limbs of q1 v, and its lowest one. */
  method TopOfProduct(q1: limb, v1: limb, v0: limb) returns (r1: limb, r0: limb, yy: limb)
    requires q1 * (v1 * B + v0) < B * B * B - B
    ensures (r1 * B + r0) * B + yy == q1 * (v1 * B + v0)
  {
    LimbProduct(q1, v1);
    LimbProduct(q1, v0);
    ExpandProduct(q1, v1, v0);
    var a, b := q1 * v1, q1 * v0;
    r1, r0 := a / B, a % B;
    var xx := b / B;
    yy := b % B;
    var t := (r0 + xx) % B;
    Wrapped(r0, xx, t);
    r1, r0 := r1 + (if t < xx then 1 else 0), t;
  }

  /** div.c:75-79: what remains of u, when the product below it is rounded up. */
  method Subtract(u1: limb, u0: limb, p1: limb, p0: limb, yy: limb) returns (r1: limb, r0: limb)
    requires p1 * B + p0 + (if yy != 0 then 1 else 0) <= u1 * B + u0
    ensures r1 * B + r0 == u1 * B + u0 - (p1 * B + p0 + if yy != 0 then 1 else 0)
  {
    r1, r0 := p1, p0;
    if yy != 0 {
      var z := (r0 + 1) % B;
      Wrapped(r0, 1, z);
      r1, r0 := r1 + (if z == 0 then 1 else 0), z;
    }
    ghost var c1, c0 := r1, r0;
    r0 := (u0 - r0) % B;
    r1 := (u1 - r1 - if r0 > u0 then 1 else 0) % B;
    TwoLimbDifference(u1, u0, c1, c0, r1, r0);
  }

  /** div.c:53-79: the first quotient limb, and the upper limbs of u B - q1 v. */
  method FirstLimb(u1: limb, u0: limb, v1: limb, v0: limb, inv: limb, ghost g: int, ghost e: int) returns (q1: limb, r1: limb, r0: limb)
    requires v1 >= HALF && u1 * B + u0 < v1 * B + v0 && Inverse(B + inv, v1 + 1, g, e)
    ensures q1 == u1 * (B + inv) / B
    ensures var r := (u1 * B + u0) * B - q1 * (v1 * B + v0); r >= 0 && r1 * B + r0 == r / B
  {
    hide Inverse;
    InverseSum(u1, inv, v1, g, e);
    FirstFits(u1, u0, v1, v0, B + inv, g, e, u1 * (B + inv) / B);
    var h := u1 * inv / B;
    q1 := h + u1;
    ghost var u, p := u1 * B + u0, q1 * (v1 * B + v0);
    var p1, p0, yy := TopOfProduct(q1, v1, v0);
    assert (u * B - p) / B == u - (p1 * B + p0) - if yy != 0 then 1 else 0;
    r1, r0 := Subtract(u1, u0, p1, p0, yy);
  }

  lemma LimbProduct(x: limb, y: limb)
    ensures 0 <= x * y <= (B - 1) * (B - 1) && 0 <= x * y / B < B - 1 + 1
  {
    MulMono(0, x, y);
    MulMono(x, B - 1, y);
    MulMono(y, B - 1, B - 1);
    MulComm(B - 1, y);
  }

  lemma ExpandProduct(q: int, v1: int, v0: int)
    ensures q * (v1 * B + v0) == q * v1 * B + q * v0
  {
    Distrib(v1 * B, v0, q);
    MulAssoc(q, v1, B);
  }

  lemma Wrapped(x: limb, y: limb, t: limb)
    requires t == (x + y) % B
    ensures x + y == t + (if t < y then B else 0)
  {
    if x + y >= B { ModSmall(x as int + y, B, 1); } else { ModSmall(x as int + y, B, 0); }
  }

  lemma TwoLimbDifference(u1: limb, u0: limb, c1: limb, c0: limb, r1: limb, r0: limb)
    requires c1 * B + c0 <= u1 * B + u0 && r0 == (u0 - c0) % B && r1 == (u1 - c1 - if r0 > u0 then 1 else 0) % B
    ensures r1 * B + r0 == u1 * B + u0 - (c1 * B + c0)
  {
    if c0 <= u0 {
      ModSmall(u0 as int - c0, B, 0);
      ModSmall(u1 as int - c1, B, 0);
    } else {
      ModSmall(u0 as int - c0, B, -1);
      ModSmall(u1 as int - c1 - 1, B, 0);
    }
  }

  lemma InverseSum(u1: limb, inv: limb, v1: limb, g: int, e: int)
    ensures u1 * inv / B + u1 == u1 * (B + inv) / B && u1 * inv >= 0
  {
    Distrib(B, inv, u1);
    MulMono(0, u1, inv);
  }

  lemma FirstFits(u1: limb, u0: limb, v1: limb, v0: limb, m: int, g: int, e: int, q1: int)
    requires v1 >= HALF && u1 * B + u0 < v1 * B + v0 && Inverse(m, v1 + 1, g, e) && q1 == u1 * m / B
    ensures 0 <= q1 < B && q1 * (v1 * B + v0) <= (u1 * B + u0) * B
  {
    var d := v1 + 1;
    BelowQuotient(u1, m, d, g, e, q1, d * B);
    BelowQuotient(u1, m, d, g, e, q1, v1 * B + v0);
    MulAssoc(q1, d, B);
    if q1 >= B { MulMono(B, q1, d); }
  }

  /** div.c:85-102: the second limb, with r1 additions of inv. */
  method SecondLimb(q: limb, r1: limb, r0: limb, inv: limb) returns (q1: limb, q0: limb)
    requires r1 <= 4 && q * B + (r1 * B + r0) * (B + inv) / B < B * B
    ensures q1 * B + q0 == q * B + (r1 * B + r0) * (B + inv) / B
  {
    var r, cy := r1, 0;
    ghost var all := q * B + (r1 * B + r0) * (B + inv) / B;
    SplitInverse(r1, r0, inv);
    LimbProduct(r0, inv);
    LimbProduct(r1, inv);
    q1, q0 := q + r1, r0;
    var xx := r0 * inv / B;
    var t := (q0 + xx) % B;
    Wrapped(q0, xx, t);
    cy := if t < xx then 1 else 0;
    q1, q0 := q1 + cy, t;
    while r > 0
      invariant 0 <= r <= r1 && q1 * B + q0 + r * inv == all
      decreases r
    {
      Distrib(r - 1, 1, inv);
      MulMono(0, r - 1, inv);
      t := (q0 + inv) % B;
      Wrapped(q0, inv, t);
      cy := if t < inv then 1 else 0;
      q1, q0 := q1 + cy, t;
      r := r - 1;
    }
    assert r * inv == 0;
  }

  lemma SplitInverse(r1: limb, r0: limb, inv: limb)
    ensures (r1 * B + r0) * (B + inv) / B == r1 * B + r0 + r1 * inv + r0 * inv / B
  {
    Distrib(B, inv, r1 * B + r0);
    Distrib(r1 * B, r0, inv);
    MulAssoc(r1, B, inv);
    MulComm(B, inv);
    MulAssoc(r1, inv, B);
  }

  /** mpfr_div2_approx. */
  method Div2Approx(u1: limb, u0: limb, v1: limb, v0: limb, short: nat) returns (q1: limb, q0: limb)
    requires v1 >= HALF && u1 * B + u0 < v1 * B + v0 && short <= 1
    ensures var q, exact := q1 * B + q0, (u1 * B + u0) * B * B / (v1 * B + v0); q <= exact <= q + if short == 0 then 16 else 21
  {
    hide Inverse, InvertLimb;
    var inv := if v1 == B - 1 then 0 else InvertLimb(v1 + 1, short);
    InverseUsed(v1, short, inv);
    ghost var d := v1 + 1;
    ghost var g := B * B - (B + inv) * d;
    var q, r1, r0 := FirstLimb(u1, u0, v1, v0, inv, g, 1 + short);
    Bounds(u1, u0, v1, v0, B + inv, g, 1 + short, q, r1 * B + r0);
    q1, q0 := SecondLimb(q, r1, r0, inv);
  }

  lemma Bounds(u1: limb, u0: limb, v1: limb, v0: limb, m: int, g: int, e: int, q: int, r1: int)
    requires v1 >= HALF && u1 * B + u0 < v1 * B + v0 && Inverse(m, v1 + 1, g, e) && q == u1 * m / B
    requires var r := (u1 * B + u0) * B - q * (v1 * B + v0); r >= 0 && r1 == r / B
    ensures r1 / B <= 4
    ensures var all, exact := q * B + r1 * m / B, (u1 * B + u0) * B * B / (v1 * B + v0);
            all <= exact <= all + Slack(e) && all < B * B
  {
    hide Inverse;
    var d, v, u := v1 + 1, v1 * B + v0, u1 * B + u0;
    var r, t := u * B - q * v, r1 * m / B;
    InverseRange(m, d, g, e);
    WithinSlack(u1, u0, v, m, d, g, e, q, r, r1, t);
    InverseProduct(u1, m, d, g, e, v);
    FirstRemainder(u1, u0, v, d, q, r, u1 * m, u1 * m * v, g * (u1 * v), e * ((d - 1) * v));
    BelowQuotient(r1, m, d, g, e, t, v);
    SmallRemainder(r, r1, d, v, e);
    BoundsPlain(u, v, q, t, r, Slack(e));
  }

  lemma BoundsPlain(u: int, v: int, q: int, t: int, r: int, k: int)
    requires 0 <= u < v && r == u * B - q * v && t * v <= r * B < t * v + (k + 1) * v
    ensures var all, exact := q * B + t, u * B * B / v; all <= exact <= all + k && all < B * B
  {
    var all := q * B + t;
    assert all * v == q * v * B + t * v by { Distrib(q * B, t, v); MulAssoc(q, v, B); MulAssoc(q, B, v); MulComm(v, B); }
    Distrib(all, k + 1, v);
    Quotients(u * B * B, v, all, k);
    if all >= B * B { MulMono(B * B, all, v); }
  }

  lemma InverseRange(m: int, d: int, g: int, e: int)
    requires Inverse(m, d, g, e)
    ensures 1 <= e <= 2
  {}

  lemma SmallRemainder(r: int, r1: int, d: int, v: int, e: int)
    requires r >= 0 && r1 == r / B && r * B < 2 * B * B * B + e * ((d - 1) * v) + B * v && 1 <= d <= B && 0 <= v < B * B && 1 <= e <= 2
    ensures 0 <= r1 && r1 / B <= 4
  {
    MulMono(d - 1, B, v);
    MulMono(0, d - 1, v);
    if e == 1 { assert e * ((d - 1) * v) == (d - 1) * v; } else { assert e * ((d - 1) * v) == 2 * ((d - 1) * v); }
    assert r < 5 * B * B;
  }

  lemma Quotients(n: int, v: int, q: int, k: int)
    requires v >= 1 && q * v <= n < (q + k + 1) * v
    ensures q <= n / v <= q + k
  {
    MulComm(v, n / v);
    if n / v < q { MulMono(n / v + 1, q, v); Distrib(n / v, 1, v); }
    if n / v > q + k { MulMono(q + k + 1, n / v, v); }
  }
}

/** Real powers of two, and the order facts about reals used by name. */
module RealPowers {
  import opened Powers

  /** 2^e. */
  function R2(e: int): (r: real)
    ensures r > 0.0
    decreases if e < 0 then -e else e
  {
    if e == 0 then 1.0 else if e > 0 then 2.0 * R2(e - 1) else R2(e + 1) / 2.0
  }

  lemma R2Step(e: int)
    ensures R2(e + 1) == 2.0 * R2(e)
  {}

  lemma R2Small()
    ensures R2(0) == 1.0 && R2(1) == 2.0 && R2(-1) == 0.5
  {}

  lemma {:induction false} R2Nat(n: nat)
    ensures R2(n) == Pow2(n) as real
  {
    if n > 0 { R2Nat(n - 1); }
  }

  lemma {:induction false} R2Add(a: int, b: int)
    ensures R2(a + b) == R2(a) * R2(b)
    decreases if b < 0 then -b else b
  {
    hide R2;
    if b > 0 {
      R2Add(a, b - 1);
      R2Step(a + b - 1);
      R2Step(b - 1);
      RealUp(R2(a), R2(b - 1), R2(b), R2(a + b - 1), R2(a + b));
    } else if b < 0 {
      R2Add(a, b + 1);
      R2Step(a + b);
      R2Step(b);
      RealDown(R2(a), R2(b), R2(b + 1), R2(a + b), R2(a + b + 1));
    } else {
      R2Small();
    }
  }

  lemma {:induction false} R2Mono(a: int, b: int)
    requires a <= b
    ensures R2(a) <= R2(b)
    ensures a < b ==> 2.0 * R2(a) <= R2(b)
    decreases b - a
  {
    if a < b {
      R2Mono(a, b - 1);
      R2Step(b - 1);
    }
  }

  lemma RealUp(x: real, y: real, y2: real, z: real, z2: real)
    requires z == x * y && y2 == 2.0 * y && z2 == 2.0 * z
    ensures z2 == x * y2
  {}

  lemma RealDown(x: real, y: real, y2: real, z: real, z2: real)
    requires z2 == x * y2 && y2 == 2.0 * y && z2 == 2.0 * z
    ensures z == x * y
  {}

  lemma RealTwice(x: real, y: real)
    ensures x * (2.0 * y) == (2.0 * x) * y
  {}

  lemma RealSwap(x: real, y: real, u: real)
    ensures (x * y) * u == x * (u * y)
  {}

  lemma RealMono(x: real, y: real, u: real)
    requires u > 0.0
    ensures x <= y <==> x * u <= y * u
    ensures x == y <==> x * u == y * u
  {}

  lemma RealSub(x: real, y: real, u: real)
    ensures x * u - y * u == (x - y) * u
  {}

  /** Multiplying a positive x by v instead of c. */
  lemma RealScale(x: real, v: real, c: real)
    requires x > 0.0
    ensures v >= c ==> x * v >= c * x
    ensures v <= c ==> x * v <= c * x
  {}

  /** Reals decide the order of the integers they come from. */
  lemma IntLt(a: int, b: int)
    requires a as real < b as real
    ensures a < b
  {}

  lemma CompareWith(g: real, k: real, u: real, f: real, ku: real)
    requires u > 0.0 && f == g * u && ku == k * u
    ensures f < ku <==> g < k
    ensures f == ku <==> g == k
  {
    RealMono(g, k, u);
    RealMono(k, g, u);
  }

  lemma CompareScaled(g: real, u: real, f: real)
    requires u > 0.0 && f == g * u
    ensures f > 0.0 <==> g > 0.0
    ensures f == 0.0 <==> g == 0.0
    ensures f < u / 2.0 <==> g < 0.5
    ensures f == u / 2.0 <==> g == 0.5
    ensures f < u <==> g < 1.0
  {
    CompareWith(g, 0.0, u, f, 0.0);
    CompareWith(g, 0.5, u, f, u / 2.0);
    CompareWith(g, 1.0, u, f, u);
  }

  lemma RealRegroup2(t: real, d: real, g: real)
    ensures t * (d * g) == (t * d) * g
  {}

  lemma RealComm(x: real, y: real)
    ensures x * y == y * x
  {}

  lemma RealProductPos(x: real, y: real)
    requires x > 0.0 && y > 0.0
    ensures x * y > 0.0
  {}

  function RealPower(x: real, n: nat): real { if n == 0 then 1.0 else x * RealPower(x, n - 1) }

  /** A factor of at least c multiplies at least by c. */
  lemma RealGrow(w: real, d: real, c: real, p: real)
    requires w >= 0.0 && d >= c && p == w * d
    ensures w * c <= p
  {
    assert w * (d - c) >= 0.0;
    assert w * (d - c) == w * d - w * c;
  }

  lemma RealFour(a: real, b: real, c: real, d: real)
    ensures (a * b) * (c * d) == (a * c) * (b * d)
  {}

  lemma RealPowerFirst(x: real, a: nat)
    ensures RealPower(x, a + 1) == x * RealPower(x, a)
  {}

  lemma RealNonNegative(x: real, y: real)
    requires x >= 0.0 && y >= 0.0
    ensures x * y >= 0.0
  {}

  lemma CastProduct(x: int, y: int)
    ensures (x * y) as real == x as real * y as real
  {}

  lemma RealAssoc2(x: real, y: real)
    ensures (2.0 * x) * y == 2.0 * (x * y)
  {}

  lemma R2Pos(e: int)
    ensures R2(e) > 0.0
  {}

  lemma RealExpand(x: real, y: real, z: real)
    ensures (x + y) * z == x * z + y * z
  {}
}

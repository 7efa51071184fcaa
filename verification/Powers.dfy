/** Powers of two and the few facts about products, quotients and remainders
    that the proofs use by name instead of leaving them to the solver. */
module Powers {

  function Pow2(n: nat): (r: int)
    ensures r >= 1
  {
    if n == 0 then 1 else 2 * Pow2(n - 1)
  }

  lemma Pow2Step(n: nat)
    ensures Pow2(n + 1) == 2 * Pow2(n)
  {}

  lemma {:induction false} Pow2Add(m: nat, n: nat)
    ensures Pow2(m + n) == Pow2(m) * Pow2(n)
  {
    if m != 0 {
      Pow2Add(m - 1, n);
      MulAssoc(2, Pow2(m - 1), Pow2(n));
    }
  }

  lemma Pow2Mono(m: nat, n: nat)
    requires m <= n
    ensures Pow2(m) <= Pow2(n)
    ensures m < n ==> 2 * Pow2(m) <= Pow2(n)
  {
    if m < n {
      Pow2Add(n - m - 1, m);
      MulMono(1, Pow2(n - m - 1), Pow2(m));
    }
  }

  lemma MulAssoc(x: int, y: int, z: int)
    ensures (x * y) * z == x * (y * z)
  {}

  lemma MulComm(x: int, y: int)
    ensures x * y == y * x
  {}

  lemma MulMono(x: int, y: int, z: int)
    requires x <= y && 0 <= z
    ensures x * z <= y * z
  {}

  lemma MulStrict(x: int, y: int, z: int)
    requires x < y && 0 < z
    ensures x * z < y * z
  {}

  lemma Distrib(x: int, y: int, z: int)
    ensures (x + y) * z == x * z + y * z
    ensures z * (x + y) == z * x + z * y
  {}

  lemma DivLe(x: nat, d: int)
    requires d >= 1
    ensures 0 <= x / d <= x
  {
    if x / d > x { MulStrict(x, x / d, d); MulMono(1, d, x); }
  }

  /** Quotient and remainder are the only pair with 0 <= r < d. */
  lemma DivUnique(x: int, d: int, q: int, r: int)
    requires d >= 1 && x == q * d + r && 0 <= r < d
    ensures q == x / d && r == x % d
  {
    var q', r' := x / d, x % d;
    assert x == q' * d + r';
    if q < q' { MulMono(q + 1, q', d); }
    if q' < q { MulMono(q' + 1, q, d); }
  }

  lemma ModSmall(x: int, d: int, q: int)
    requires d >= 1 && q * d <= x < (q + 1) * d
    ensures x / d == q && x % d == x - q * d
  {
    DivUnique(x, d, q, x - q * d);
  }

  /** x < d * k bounds the quotient of x by d. */
  lemma DivMulLt(x: nat, d: int, k: int)
    requires d >= 1 && x < d * k
    ensures 0 <= x / d < k
  {
    if x / d >= k { MulMono(k, x / d, d); }
  }

  lemma ModProduct(x: nat, d: int, e: int)
    requires d >= 1 && e >= 1
    ensures d * e >= 1
    ensures x % (d * e) == x % d + d * ((x / d) % e)
    ensures x / (d * e) == (x / d) / e
  {
    var q, r := x / d, x % d;
    var q2, r2 := q / e, q % e;
    MulMono(1, e, d);
    MulMono(r2, e - 1, d);
    assert x == (q2 * e + r2) * d + r;
    Distrib(q2 * e, r2, d);
    MulAssoc(q2, e, d);
    MulComm(e, d);
    MulComm(d, r2);
    assert (e - 1) * d == e * d - d by { Distrib(e, -1, d); }
    DivUnique(x, d * e, q2, r + d * r2);
  }

  lemma MulDivSplit(v: nat, p: int, b: int)
    requires v < b && 1 <= p
    ensures 0 <= v * p / b < p
    ensures 0 <= v * p % b < b
    ensures v * p % b + v * p / b * b == v * p
  {
    var x := v * p;
    MulMono(0, v, p);
    MulStrict(v, b, p);
    DivMulLt(x, b, p);
    MulComm(x / b, b);
  }

  lemma ModAddMultiple(x: int, d: int, k: int)
    requires d >= 1
    ensures (x + k * d) % d == x % d
    ensures (x + k * d) / d == x / d + k
  {
    Distrib(x / d, k, d);
    MulComm(d, x / d);
    DivUnique(x + k * d, d, x / d + k, x % d);
  }

  lemma Pow2Zero()
    ensures Pow2(0) == 1
  {}

  lemma Pow2Two()
    ensures Pow2(1) == 2
  {}

  lemma LowBit(w: nat, d: int)
    requires d >= 1
    ensures w % (2 * d) % d == w % d && w % (2 * d) / d == w / d % 2 && w % (2 * d) <= w
  {
    ModProduct(w, d, 2);
    MulComm(d, 2);
    var b := w / d % 2;
    MulComm(d, b);
    DivUnique(w % d + b * d, d, b, w % d);
    MulComm(d, w / d);
    MulMono(b, w / d, d);
  }

  lemma ProductZero(x: int, y: int)
    requires y >= 1
    ensures x * y == 0 <==> x == 0
  {}

  function Power(p: int, n: nat): int { if n == 0 then 1 else p * Power(p, n - 1) }

  lemma {:induction false} PowerAdd(p: int, m: nat, n: nat)
    ensures Power(p, m + n) == Power(p, m) * Power(p, n)
  {
    if m > 0 {
      PowerAdd(p, m - 1, n);
      MulAssoc(p, Power(p, m - 1), Power(p, n));
    }
  }

  lemma PowerDouble(p: int, n: nat)
    ensures Power(p, n) * Power(p, n) == Power(p, 2 * n)
  {
    PowerAdd(p, n, n);
  }

  lemma PowerOne(p: int)
    ensures Power(p, 1) == p
  {
    assert Power(p, 0) == 1;
  }

  /** L is written with its leading bit, half of the weight D = 2 h b, in front. */
  lemma HalfBit(l: int, top: int, x: int, h: int, b: int, r: int, low: int, k: int, u: int)
    requires 0 <= top <= 1 && 0 <= x < h && b >= 1 && 0 <= r < b && u >= 1 && k >= 1 && 0 <= low
    requires l == low * u && l == (top * h + x) * b + r && (2 * h) * b == k * u
    ensures top == 1 <==> 2 * low >= k
    ensures top == 0 ==> (x == 0 && r == 0 <==> low == 0)
    ensures top == 1 ==> (x == 0 && r == 0 <==> 2 * low == k)
  {
    Distrib(top * h, x, b);
    MulMono(x, h - 1, b);
    MulMono(0, x, b);
    Distrib(h, -1, b);
    MulAssoc(2, h, b);
    MulAssoc(2, low, u);
    ProductZero(x, b);
    MulOrder(2 * low, k, u);
    MulOrder(low, 0, u);
  }

  lemma MulOrder(x: int, y: int, u: int)
    requires u >= 1
    ensures x >= y <==> x * u >= y * u
    ensures x == y <==> x * u == y * u
  {
    if x < y { MulStrict(x, y, u); }
    if y < x { MulStrict(y, x, u); }
  }

  lemma TopHalf(x: nat, mask: int)
    requires mask >= 1
    ensures x % (2 * mask) == x / mask % 2 * mask + x % mask
  {
    ModProduct(x, mask, 2);
    MulComm(mask, 2);
    MulComm(mask, x / mask % 2);
  }

  lemma ProductNonNegative(x: int, y: int)
    requires x >= 0 && y >= 0
    ensures x * y >= 0
  {}

  lemma PowerFirst(p: int, n: nat)
    requires n >= 1
    ensures Power(p, n) == p * Power(p, n - 1)
  {
    assert Power(p, n) == p * Power(p, n - 1);
  }

  lemma FourFactors(q1: int, q2: int, v: int, u: int)
    ensures (q1 * q2) * (v * u) == q1 * u * q2 * v
  {
    MulAssoc(q1, q2, v * u);
    MulAssoc(q2, v, u);
    MulComm(q2 * v, u);
    MulAssoc(q1, u, q2 * v);
    MulAssoc(q1 * u, q2, v);
  }

  lemma FourSwap(p: int, n: int, w: int, q: int)
    ensures (p * n) * (w * q) == (p * w) * (n * q)
  {
    MulAssoc(p, n, w * q);
    MulAssoc(n, w, q);
    MulComm(n, w);
    MulAssoc(w, n, q);
    MulAssoc(p, w, n * q);
  }

  lemma ModAtMost(x: nat, d: int)
    requires d >= 1
    ensures 0 <= x % d <= x
  {
    DivLe(x, d);
    MulMono(0, x / d, d);
    MulComm(d, x / d);
  }

  /** MPFR_MPZ_SIZEINBASE2: the number of bits of m. */
  function SizeInBase2(m: nat): nat { if m == 0 then 0 else 1 + SizeInBase2(m / 2) }

  lemma {:induction false} SizeMono(m: nat, n: nat)
    requires m <= n
    ensures SizeInBase2(m) <= SizeInBase2(n)
    decreases n
  {
    if m > 0 { SizeMono(m / 2, n / 2); }
  }

  /** MPFR_INT_CEIL_LOG2. */
  function CeilLog2(n: nat): nat { if n <= 1 then 0 else 1 + CeilLog2((n + 1) / 2) }

  lemma {:induction false} CeilLog2Mono(m: nat, n: nat)
    requires m <= n
    ensures CeilLog2(m) <= CeilLog2(n)
    decreases n
  {
    if m > 1 { CeilLog2Mono((m + 1) / 2, (n + 1) / 2); }
  }

  /** CeilLog2 is what its name says. */
  lemma {:induction false} CeilLog2Meaning(n: nat)
    requires n >= 1
    ensures n <= Pow2(CeilLog2(n)) && (n > 1 ==> Pow2(CeilLog2(n)) < 2 * n)
  {
    if n > 1 {
      CeilLog2Meaning((n + 1) / 2);
      Pow2Step(CeilLog2((n + 1) / 2));
    }
  }
}

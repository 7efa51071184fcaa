/** Sums of products of fractions, over a common denominator: what the recursive
    binary splittings of const_log2.c, const_catalan.c and const_euler.c compute.
    p and q give numerator and denominator of the factor with a given index. */
module RationalSums {
  import opened Powers
  import opened RealPowers
  import opened Streams

  /** f(a) f(a + 1) ... f(b - 1). */
  ghost function Prod(f: nat -> int, a: nat, b: nat): int
    decreases b - a
  {
    if a >= b then 1 else f(a) * Prod(f, a + 1, b)
  }

  /** The numerator of the sum, for a <= k < b, of the products of p/q from a to k,
      when the denominator is Prod(q, a, b). */
  ghost function Num(p: nat -> int, q: nat -> int, a: nat, b: nat): int
    decreases b - a
  {
    if a >= b then 0 else p(a) * (Prod(q, a + 1, b) + Num(p, q, a + 1, b))
  }

  lemma {:induction false} ProdSplit(f: nat -> int, a: nat, c: nat, b: nat)
    requires a <= c <= b
    ensures Prod(f, a, b) == Prod(f, a, c) * Prod(f, c, b)
    decreases c - a
  {
    if a < c {
      ProdSplit(f, a + 1, c, b);
      MulAssoc(f(a), Prod(f, a + 1, c), Prod(f, c, b));
    }
  }

  lemma ProdOne(f: nat -> int, a: nat)
    ensures Prod(f, a, a + 1) == f(a)
  {
    assert Prod(f, a + 1, a + 1) == 1;
  }

  lemma NumOne(p: nat -> int, q: nat -> int, a: nat)
    ensures Num(p, q, a, a + 1) == p(a)
  {
    assert Prod(q, a + 1, a + 1) == 1 && Num(p, q, a + 1, a + 1) == 0;
  }

  /** Joining two runs: T = T_left * Q_right + P_left * T_right. */
  lemma {:induction false} NumJoin(p: nat -> int, q: nat -> int, a: nat, c: nat, b: nat)
    requires a <= c <= b
    ensures Num(p, q, a, b) == Num(p, q, a, c) * Prod(q, c, b) + Prod(p, a, c) * Num(p, q, c, b)
    decreases c - a
  {
    if a < c {
      NumJoin(p, q, a + 1, c, b);
      ProdSplit(q, a + 1, c, b);
      JoinFactors(p(a), Prod(q, a + 1, c), Num(p, q, a + 1, c), Prod(q, c, b), Prod(p, a + 1, c), Num(p, q, c, b));
    }
  }

  lemma JoinFactors(x: int, y: int, t: int, z: int, w: int, n: int)
    ensures x * (y * z + (t * z + w * n)) == (x * (y + t)) * z + (x * w) * n
  {
    Distrib(y, t, z);
    Distrib((y + t) * z, w * n, x);
    MulAssoc(x, y + t, z);
    MulAssoc(x, w, n);
  }

  lemma {:induction false} ProdNonzero(f: nat -> int, a: nat, b: nat)
    requires forall k: nat :: a <= k < b ==> f(k) != 0
    ensures Prod(f, a, b) != 0
    decreases b - a
  {
    if a < b {
      ProdNonzero(f, a + 1, b);
      NonzeroProduct(f(a), Prod(f, a + 1, b));
    }
  }

  lemma NonzeroProduct(x: int, y: int)
    requires x != 0 && y != 0
    ensures x * y != 0
  {}

  // ---- as real numbers ------------------------------------------------------------------

  /** The product of p/q from 0 to k. */
  ghost function Ratio(p: nat -> int, q: nat -> int, k: nat): real {
    if Prod(q, 0, k + 1) == 0 then 0.0 else Prod(p, 0, k + 1) as real / Prod(q, 0, k + 1) as real
  }

  /** The partial sum of a series with such terms. */
  ghost function PartialSum(p: nat -> int, q: nat -> int, n: nat): real {
    if n == 0 then 0.0 else PartialSum(p, q, n - 1) + Ratio(p, q, n - 1)
  }

  /** The splitting computes partial sums, exactly. */
  lemma {:induction false} NumIsSum(p: nat -> int, q: nat -> int, n: nat)
    requires forall k: nat :: q(k) != 0
    ensures Prod(q, 0, n) != 0
    ensures Num(p, q, 0, n) as real == PartialSum(p, q, n) * Prod(q, 0, n) as real
  {
    hide Prod, Num, PartialSum, Ratio;
    ProdNonzero(q, 0, n);
    if n > 0 {
      NumIsSum(p, q, n - 1);
      LastTerm(p, q, n);
      SumStep(Num(p, q, 0, n - 1), q(n - 1), Prod(p, 0, n), Prod(q, 0, n - 1), Prod(q, 0, n), PartialSum(p, q, n - 1),
              Ratio(p, q, n - 1), Num(p, q, 0, n));
    } else {
      NoTerms(p, q);
    }
  }

  lemma NoTerms(p: nat -> int, q: nat -> int)
    ensures Num(p, q, 0, 0) == 0 && PartialSum(p, q, 0) == 0.0
  {}

  lemma LastTerm(p: nat -> int, q: nat -> int, n: nat)
    requires n >= 1 && Prod(q, 0, n) != 0
    ensures Prod(q, 0, n) == Prod(q, 0, n - 1) * q(n - 1)
    ensures Num(p, q, 0, n) == Num(p, q, 0, n - 1) * q(n - 1) + Prod(p, 0, n)
    ensures PartialSum(p, q, n) == PartialSum(p, q, n - 1) + Ratio(p, q, n - 1)
    ensures Ratio(p, q, n - 1) == Prod(p, 0, n) as real / Prod(q, 0, n) as real
  {
    hide Prod, Num;
    NumJoin(p, q, 0, n - 1, n);
    NumOne(p, q, n - 1);
    ProdOne(p, n - 1);
    ProdOne(q, n - 1);
    ProdSplit(p, 0, n - 1, n);
    ProdSplit(q, 0, n - 1, n);
  }

  lemma SumStep(t: int, q: int, pn: int, qs: int, qn: int, s: real, ratio: real, t': int)
    requires qn == qs * q && qn != 0 && t as real == s * qs as real && ratio == pn as real / qn as real && t' == t * q + pn
    ensures t' as real == (s + ratio) * qn as real
  {
    CastProduct(t, q);
    CastProduct(qs, q);
    assert ratio * qn as real == pn as real;
    RealExpand(s, ratio, qn as real);
    RealRegroup2(s, qs as real, q as real);
  }

  /** A closed form for the terms, proved on numerators and denominators. */
  lemma RatioIs(p: nat -> int, q: nat -> int, k: nat, num: int, den: int)
    requires Prod(q, 0, k + 1) != 0 && den != 0 && Prod(p, 0, k + 1) * den == num * Prod(q, 0, k + 1)
    ensures Ratio(p, q, k) == num as real / den as real
  {
    CrossQuotient(Prod(p, 0, k + 1), Prod(q, 0, k + 1), num, den);
  }

  lemma CrossQuotient(x: int, y: int, num: int, den: int)
    requires y != 0 && den != 0 && x * den == num * y
    ensures x as real / y as real == num as real / den as real
  {
    CastProduct(x, den);
    CastProduct(num, y);
    var a, b := x as real / y as real, num as real / den as real;
    assert a * y as real == x as real && b * den as real == num as real;
    EqualQuotients(a, b, x as real, y as real, num as real, den as real);
  }

  lemma EqualQuotients(a: real, b: real, x: real, y: real, n: real, d: real)
    requires y != 0.0 && d != 0.0 && a * y == x && b * d == n && x * d == n * y
    ensures a == b
  {
    RealSwapLast(a, y, d);
    RealSwapLast(b, d, y);
    RealComm(d, y);
    assert a * (y * d) == b * (y * d);
    CancelReal(a, b, y * d, y, d);
  }

  lemma RealSwapLast(a: real, y: real, d: real)
    ensures (a * y) * d == a * (y * d)
  {}

  lemma CancelReal(a: real, b: real, u: real, y: real, d: real)
    requires u == y * d && y != 0.0 && d != 0.0 && a * u == b * u
    ensures a == b
  {
    assert u != 0.0;
    assert (a - b) * u == 0.0;
  }

  /** n!. */
  function Factorial(n: nat): (r: int)
    ensures r >= 1
  {
    if n == 0 then 1 else n * Factorial(n - 1)
  }

  lemma FactorialSteps(k: nat)
    requires k > 0
    ensures Factorial(2 * k) == 2 * k * ((2 * k - 1) * Factorial(2 * k - 2)) && Factorial(k) == k * Factorial(k - 1)
  {}
}

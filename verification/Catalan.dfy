/** const_catalan.c: the series for Catalan's constant. */
module Catalan {
  import opened Powers
  import opened RealPowers
  import opened RationalSums

  /** Numerator and denominator of the quotient of the terms n and n - 1. */
  function P(n: nat): int { if n == 0 then 1 else Product(2 * n - 1, n) }

  function Q(n: nat): int { if n == 0 then 1 else 2 * Product(2 * n + 1, 2 * n + 1) }

  function Product(x: int, y: int): int { x * y }

  /** S: the terms n1, ..., n2 - 1. */
  method S(n1: nat, n2: nat) returns (tt: int, pp: int, qq: int)
    requires n1 < n2
    ensures tt == Num(P, Q, n1, n2)
    ensures pp == Prod(P, n1, n2) && qq == Prod(Q, n1, n2)
    decreases n2 - n1
  {
    if n2 == n1 + 1 {
      if n1 == 0 {
        pp, qq := 1, 1;
      } else {
        pp := 2 * n1 - 1;
        pp := pp * n1;
        qq := (2 * n1 + 1) * (2 * n1 + 1);
        qq := 2 * qq;
      }
      tt := pp;
      ProdOne(P, n1);
      ProdOne(Q, n1);
      NumOne(P, Q, n1);
    } else {
      var m := (n1 + n2) / 2;
      tt, pp, qq := S(n1, m);
      var t2, p2, q2 := S(m, n2);
      NumJoin(P, Q, n1, m, n2);
      ProdSplit(P, n1, m, n2);
      ProdSplit(Q, n1, m, n2);
      MulComm(t2, pp);
      tt := tt * q2;
      t2 := t2 * pp;
      tt := tt + t2;
      pp := pp * p2;
      qq := qq * q2;
    }
  }

  lemma QNonzero(k: nat)
    ensures Q(k) != 0
  {}

  /** The products telescope to k!^2 / ((2k)! (2k+1)^2). */
  lemma {:induction false} Telescope(k: nat)
    ensures Prod(P, 0, k + 1) * (Factorial(2 * k) * ((2 * k + 1) * (2 * k + 1))) == (Factorial(k) * Factorial(k)) * Prod(Q, 0, k + 1)
  {
    ProdSplit(P, 0, k, k + 1);
    ProdSplit(Q, 0, k, k + 1);
    ProdOne(P, k);
    ProdOne(Q, k);
    if k > 0 {
      Telescope(k - 1);
      FactorialSteps(k);
      TelescopeStep(Prod(P, 0, k), Factorial(2 * k - 2), 2 * k - 1, Factorial(k - 1), Prod(Q, 0, k), k, 2 * k + 1);
    } else {
      assert Factorial(0) == 1;
    }
  }

  lemma TelescopeStep(p: int, f: int, m: int, g: int, q: int, k: int, n: int)
    requires p * (f * (m * m)) == (g * g) * q
    ensures (p * (m * k)) * ((2 * k * (m * f)) * (n * n)) == ((k * g) * (k * g)) * (q * (2 * (n * n)))
  {
    assert (p * (m * k)) * ((2 * k * (m * f)) * (n * n)) == (p * (f * (m * m))) * (2 * k * k * (n * n)) by { Left(p, f, m, k, n); }
    assert ((k * g) * (k * g)) * (q * (2 * (n * n))) == ((g * g) * q) * (2 * k * k * (n * n)) by { Right(g, q, k, n); }
  }

  lemma Left(p: int, f: int, m: int, k: int, n: int)
    ensures (p * (m * k)) * ((2 * k * (m * f)) * (n * n)) == (p * (f * (m * m))) * (2 * k * k * (n * n))
  {}

  lemma Right(g: int, q: int, k: int, n: int)
    ensures ((k * g) * (k * g)) * (q * (2 * (n * n))) == ((g * g) * q) * (2 * k * k * (n * n))
  {}

  /** The terms of the series, as the source states them. */
  lemma TermIs(k: nat)
    ensures Ratio(P, Q, k) == (Factorial(k) * Factorial(k)) as real / (Factorial(2 * k) * ((2 * k + 1) * (2 * k + 1))) as real
  {
    forall j: nat ensures Q(j) != 0 { QNonzero(j); }
    ProdNonzero(Q, 0, k + 1);
    Telescope(k);
    MulMono(1, 2 * k + 1, 2 * k + 1);
    MulMono(1, Factorial(2 * k), (2 * k + 1) * (2 * k + 1));
    RatioIs(P, Q, k, Factorial(k) * Factorial(k), Factorial(2 * k) * ((2 * k + 1) * (2 * k + 1)));
  }

  /** T/Q is the partial sum, exactly. */
  method PartialCatalan(n: nat) returns (tt: int, qq: int)
    requires n > 0
    ensures qq != 0 && tt as real == PartialSum(P, Q, n) * qq as real
  {
    forall j: nat ensures Q(j) != 0 { QNonzero(j); }
    NumIsSum(P, Q, n);
    var pp;
    tt, pp, qq := S(0, n);
  }
}

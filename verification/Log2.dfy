/** const_log2.c: the series for log 2 by recursion into shared cells, common
    powers of two being removed at every level. */
module Log2 {
  import opened Powers
  import opened RealPowers
  import opened RationalSums

  /** Numerator and denominator of the quotient of the terms n and n - 1. */
  function Num1(n: nat): int { if n == 0 then 3 else -(n as int) }

  function Den1(n: nat): int { 4 * (2 * n + 1) }

  // ---- the cells ------------------------------------------------------------------------

  const ULONG_MAX: nat := 0xFFFF_FFFF_FFFF_FFFF

  /** mpz_scan1 (x, 0): the number of trailing zero bits; all ones for 0. */
  method Scan1(x: int) returns (v: nat)
    ensures x != 0 ==> x % Pow2(v) == 0 && x / Pow2(v) % 2 == 1
    ensures x == 0 ==> v == ULONG_MAX
  {
    if x == 0 { return ULONG_MAX; }
    v := 0;
    var y := x;
    hide Pow2;
    Pow2Zero();
    while y % 2 == 0
      invariant y != 0 && x == y * Pow2(v)
      decreases if y < 0 then -y else y
    {
      Pow2Step(v);
      MulAssoc(y / 2, 2, Pow2(v));
      y, v := y / 2, v + 1;
    }
    DivUnique(x, Pow2(v), y, 0);
  }

  /** Fewer trailing zeros divide, too. */
  lemma SmallerPower(x: int, v: nat, w: nat)
    requires w <= v && x % Pow2(v) == 0
    ensures x % Pow2(w) == 0
  {
    hide Pow2;
    Pow2Add(v - w, w);
    MulComm(Pow2(v), x / Pow2(v));
    MulAssoc(x / Pow2(v), Pow2(v - w), Pow2(w));
    DivUnique(x, Pow2(w), x / Pow2(v) * Pow2(v - w), 0);
  }

  /** t, p and q are the exact values of the run n1, ..., n2 - 1 but for a common factor g. */
  ghost predicate Reduced(t: int, p: int, q: int, n1: nat, n2: nat, needP: bool, g: int) {
    && g >= 1
    && t * g == Num(Num1, Den1, n1, n2) && q * g == Prod(Den1, n1, n2)
    && (needP ==> p * g == Prod(Num1, n1, n2))
  }

  lemma Joined(t1: int, p1: int, q1: int, g1: int, t2: int, p2: int, q2: int, g2: int, n1: nat, m: nat, n2: nat, needP: bool, p: int)
    requires n1 <= m <= n2 && Reduced(t1, p1, q1, n1, m, true, g1) && Reduced(t2, p2, q2, m, n2, needP, g2)
    requires needP ==> p == p1 * p2
    ensures Reduced(t1 * q2 + t2 * p1, p, q1 * q2, n1, n2, needP, g1 * g2)
  {
    MulMono(1, g1, g2);
    NumJoin(Num1, Den1, n1, m, n2);
    ProdSplit(Num1, n1, m, n2);
    ProdSplit(Den1, n1, m, n2);
    FourSwap(t1, q2, g1, g2);
    FourSwap(p1, t2, g1, g2);
    MulComm(t2, p1);
    Distrib(t1 * q2, t2 * p1, g1 * g2);
    FourSwap(q1, q2, g1, g2);
    FourSwap(p1, p2, g1, g2);
  }

  lemma Divided(t: int, p: int, q: int, n1: nat, n2: nat, needP: bool, g: int, v: nat)
    requires Reduced(t, p, q, n1, n2, needP, g)
    requires t % Pow2(v) == 0 && q % Pow2(v) == 0 && (needP ==> p % Pow2(v) == 0)
    ensures Reduced(t / Pow2(v), if needP then p / Pow2(v) else p, q / Pow2(v), n1, n2, needP, g * Pow2(v))
  {
    hide Pow2;
    var d := Pow2(v);
    MulMono(1, g, d);
    DividedFactor(t, d, g);
    DividedFactor(q, d, g);
    if needP { DividedFactor(p, d, g); }
  }

  lemma DividedFactor(t: int, d: int, g: int)
    requires d >= 1 && t % d == 0
    ensures t / d * (g * d) == t * g
  {
    MulComm(d, t / d);
    MulComm(g, d);
    MulAssoc(t / d, d, g);
  }

  /** S: the terms n1, ..., n2 - 1, in the cells from `at` on.  The recursion uses
      1 + ceil(log2(n2 - n1)) of them, and leaves all others as they are. */
  method S(tt: array<int>, pp: array<int>, qq: array<int>, at: nat, n1: nat, n2: nat, needP: bool) returns (ghost g: int)
    requires n1 < n2 && tt != pp && tt != qq && pp != qq
    requires at + 1 + CeilLog2(n2 - n1) <= tt.Length == pp.Length == qq.Length
    modifies tt, pp, qq
    ensures Reduced(tt[at], pp[at], qq[at], n1, n2, needP, g)
    ensures forall e :: 0 <= e < tt.Length && !(at <= e <= at + CeilLog2(n2 - n1)) ==>
              tt[e] == old(tt[e]) && pp[e] == old(pp[e]) && qq[e] == old(qq[e])
    decreases n2 - n1
  {
    hide Pow2, Reduced, CeilLog2;
    if n2 == n1 + 1 {
      if n1 == 0 {
        pp[at] := 3;
      } else {
        pp[at] := n1;
        pp[at] := -pp[at];
      }
      qq[at] := 2 * n1 + 1;
      qq[at] := qq[at] * 4;
      tt[at] := pp[at];
      g := 1;
      Leaf(n1, needP);
    } else {
      var m := n1 / 2 + n2 / 2 + (if n1 % 2 == 1 && n2 % 2 == 1 then 1 else 0);
      CellsNeeded(n1, n2, m);
      var g1 := S(tt, pp, qq, at, n1, m, true);
      ghost var t1, p1, q1 := tt[at], pp[at], qq[at];
      var g2 := S(tt, pp, qq, at + 1, m, n2, needP);
      ghost var t2, p2, q2 := tt[at + 1], pp[at + 1], qq[at + 1];
      tt[at] := tt[at] * qq[at + 1];
      tt[at + 1] := tt[at + 1] * pp[at];
      tt[at] := tt[at] + tt[at + 1];
      if needP { pp[at] := pp[at] * pp[at + 1]; }
      qq[at] := qq[at] * qq[at + 1];
      Joined(t1, p1, q1, g1, t2, p2, q2, g2, n1, m, n2, needP, pp[at]);
      g := RemoveTwos(tt, pp, qq, at, n1, n2, needP, g1 * g2);
    }
  }

  lemma Leaf(n1: nat, needP: bool)
    ensures Reduced(Num1(n1), Num1(n1), Den1(n1), n1, n1 + 1, needP, 1)
  {
    ProdOne(Num1, n1);
    ProdOne(Den1, n1);
    NumOne(Num1, Den1, n1);
  }

  lemma CellsNeeded(n1: nat, n2: nat, m: nat)
    requires n1 + 1 < n2 && m == n1 / 2 + n2 / 2 + (if n1 % 2 == 1 && n2 % 2 == 1 then 1 else 0)
    ensures n1 < m < n2 && m == (n1 + n2) / 2
    ensures CeilLog2(m - n1) <= CeilLog2(n2 - n1) && 1 + CeilLog2(n2 - m) <= CeilLog2(n2 - n1)
  {
    CeilLog2Mono(m - n1, n2 - n1);
    assert n2 - m == (n2 - n1 + 1) / 2;
  }

  /** const_log2.c:81-102. */
  method RemoveTwos(tt: array<int>, pp: array<int>, qq: array<int>, at: nat, ghost n1: nat, ghost n2: nat, needP: bool, ghost g0: int)
    returns (ghost g: int)
    requires tt != pp && tt != qq && pp != qq && at < tt.Length == pp.Length == qq.Length
    requires Reduced(tt[at], pp[at], qq[at], n1, n2, needP, g0)
    modifies tt, pp, qq
    ensures Reduced(tt[at], pp[at], qq[at], n1, n2, needP, g)
    ensures forall e :: 0 <= e < tt.Length && e != at ==> tt[e] == old(tt[e]) && pp[e] == old(pp[e]) && qq[e] == old(qq[e])
  {
    hide Pow2, Reduced;
    g := g0;
    ghost var t, p, q := tt[at], pp[at], qq[at];
    var v := Scan1(tt[at]);
    if v > 0 {
      var w := Scan1(qq[at]);
      v := Smaller(v, w, t, q);
      if needP {
        w := Scan1(pp[at]);
        ghost var v1 := v;
        v := Smaller(v, w, t, p);
        if v < v1 { SmallerPower(q, v1, v); }
      }
      if v > 0 {
        Divided(t, p, q, n1, n2, needP, g0, v);
        tt[at] := tt[at] / Pow2(v);
        qq[at] := qq[at] / Pow2(v);
        if needP { pp[at] := pp[at] / Pow2(v); }
        g := g0 * Pow2(v);
      }
    }
  }

  /** min(v, w), which divides both. */
  method Smaller(v: nat, w: nat, ghost t: int, ghost q: int) returns (r: nat)
    requires (t != 0 ==> t % Pow2(v) == 0) && (q != 0 ==> q % Pow2(w) == 0)
    ensures r == if w < v then w else v
    ensures t % Pow2(r) == 0 && q % Pow2(r) == 0
  {
    hide Pow2;
    r := if w < v then w else v;
    assert 0 % Pow2(r) == 0;
    if t != 0 { SmallerPower(t, v, r); }
    if q != 0 { SmallerPower(q, w, r); }
  }

  // ---- the series ---------------------------------------------------------------------

  function Sign(k: nat): int { if k % 2 == 0 then 1 else -1 }

  /** The terms are 3/4 * (-1)^k * k!^2 / (2^k * (2k+1)!). */
  lemma {:induction false} Telescope(k: nat)
    ensures Prod(Num1, 0, k + 1) * (4 * (Pow2(k) * Factorial(2 * k + 1)))
              == 3 * Sign(k) * (Factorial(k) * Factorial(k)) * Prod(Den1, 0, k + 1)
  {
    ProdSplit(Num1, 0, k, k + 1);
    ProdSplit(Den1, 0, k, k + 1);
    ProdOne(Num1, k);
    ProdOne(Den1, k);
    if k > 0 {
      Telescope(k - 1);
      OddFactorial(k);
      TelescopeStep(Prod(Num1, 0, k), Pow2(k - 1), Factorial(2 * k - 1), Sign(k - 1), Factorial(k - 1), Prod(Den1, 0, k), k, 2 * k + 1);
    } else {
      assert Factorial(0) == 1 && Factorial(1) == 1;
    }
  }

  lemma OddFactorial(k: nat)
    requires k > 0
    ensures Factorial(2 * k + 1) == (2 * k + 1) * (2 * k * Factorial(2 * k - 1)) && Factorial(k) == k * Factorial(k - 1)
    ensures Pow2(k) == 2 * Pow2(k - 1) && Sign(k) == -Sign(k - 1)
  {}

  lemma TelescopeStep(p: int, u: int, f: int, s: int, g: int, q: int, k: int, n: int)
    requires p * (4 * (u * f)) == 3 * s * (g * g) * q
    ensures (p * -k) * (4 * (2 * u * (n * (2 * k * f)))) == 3 * -s * ((k * g) * (k * g)) * (q * (4 * n))
  {
    assert (p * -k) * (4 * (2 * u * (n * (2 * k * f)))) == (p * (4 * (u * f))) * -(4 * k * k * n) by { Left(p, u, f, k, n); }
    assert 3 * -s * ((k * g) * (k * g)) * (q * (4 * n)) == (3 * s * (g * g) * q) * -(4 * k * k * n) by { Right(s, g, q, k, n); }
  }

  lemma Left(p: int, u: int, f: int, k: int, n: int)
    ensures (p * -k) * (4 * (2 * u * (n * (2 * k * f)))) == (p * (4 * (u * f))) * -(4 * k * k * n)
  {}

  lemma Right(s: int, g: int, q: int, k: int, n: int)
    ensures 3 * -s * ((k * g) * (k * g)) * (q * (4 * n)) == (3 * s * (g * g) * q) * -(4 * k * k * n)
  {}

  lemma TermIs(k: nat)
    ensures Ratio(Num1, Den1, k)
              == (3 * Sign(k) * (Factorial(k) * Factorial(k))) as real / (4 * (Pow2(k) * Factorial(2 * k + 1))) as real
  {
    hide Pow2;
    forall j: nat ensures Den1(j) != 0 {}
    ProdNonzero(Den1, 0, k + 1);
    Telescope(k);
    MulMono(1, Pow2(k), Factorial(2 * k + 1));
    RatioIs(Num1, Den1, k, 3 * Sign(k) * (Factorial(k) * Factorial(k)), 4 * (Pow2(k) * Factorial(2 * k + 1)));
  }

  /** The root call: T[0]/Q[0] is the partial sum, exactly. */
  method PartialLog2(tt: array<int>, pp: array<int>, qq: array<int>, n: nat)
    requires n > 0 && tt != pp && tt != qq && pp != qq
    requires 1 + CeilLog2(n) <= tt.Length == pp.Length == qq.Length
    modifies tt, pp, qq
    ensures qq[0] != 0 && tt[0] as real == PartialSum(Num1, Den1, n) * qq[0] as real
  {
    hide PartialSum, CeilLog2, Prod, Num;
    forall j: nat ensures Den1(j) != 0 {}
    NumIsSum(Num1, Den1, n);
    ghost var g := S(tt, pp, qq, 0, 0, n, false);
    Unreduced(tt[0], qq[0], g, PartialSum(Num1, Den1, n), Num(Num1, Den1, 0, n), Prod(Den1, 0, n));
  }

  lemma Unreduced(t: int, q: int, g: int, s: real, tt: int, qq: int)
    requires g >= 1 && t * g == tt && q * g == qq && qq != 0 && tt as real == s * qq as real
    ensures q != 0 && t as real == s * q as real
  {
    CastProduct(t, g);
    CastProduct(q, g);
    RealRegroup2(s, q as real, g as real);
    RealMono(t as real, s * q as real, g as real);
  }
}

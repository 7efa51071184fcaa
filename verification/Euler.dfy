/** const_euler.c: the two series for Euler's constant.  The first splitting keeps
    six numbers per run of terms, so that it also sums the terms multiplied by
    harmonic numbers. */
module Euler {
  import opened Powers
  import opened RealPowers
  import opened Streams
  import opened RationalSums

  /** k + 1, its square, and N^2: the factors with index k. */
  function Succ(k: nat): int { k + 1 }

  function Square(k: nat): int { (k + 1) * (k + 1) }

  function Constant(x: int): nat -> int { k => x }

  /** The numerator of 1/(a+1) + ... + 1/b over (a+1) ... b. */
  ghost function Harm(a: nat, b: nat): int
    decreases b - a
  {
    if a >= b then 0 else Prod(Succ, a + 1, b) + (a + 1) * Harm(a + 1, b)
  }

  /** The numerator of the sum of the products of x/(j+1)^2, each multiplied by the
      harmonic sum over the same indices. */
  ghost function Weighted(x: int, a: nat, b: nat): int
    decreases b - a
  {
    if a >= b then 0
    else Prod(Succ, a + 1, b) * x * (Prod(Square, a + 1, b) + Num(Constant(x), Square, a + 1, b)) + (a + 1) * x * Weighted(x, a + 1, b)
  }

  lemma {:induction false} HarmJoin(a: nat, c: nat, b: nat)
    requires a <= c <= b
    ensures Harm(a, b) == Harm(a, c) * Prod(Succ, c, b) + Harm(c, b) * Prod(Succ, a, c)
    decreases c - a
  {
    if a < c {
      HarmJoin(a + 1, c, b);
      ProdSplit(Succ, a + 1, c, b);
      HarmFactors(a + 1, Prod(Succ, a + 1, c), Prod(Succ, c, b), Harm(a + 1, c), Harm(c, b));
    }
  }

  lemma HarmFactors(s: int, d1: int, d2: int, h1: int, h2: int)
    ensures d1 * d2 + s * (h1 * d2 + h2 * d1) == (d1 + s * h1) * d2 + h2 * (s * d1)
  {}

  /** const_euler.c:122: V = RD (RQ LV + LC LP RT) + LD LP RV. */
  predicate JoinsWeighted(v: int, d2: int, q2: int, v1: int, c1: int, p1: int, t2: int, d1: int, v2: int) {
    v == d2 * (q2 * v1 + c1 * p1 * t2) + d1 * p1 * v2
  }

  lemma {:induction false} WeightedJoin(x: int, a: nat, c: nat, b: nat)
    requires a <= c <= b
    ensures JoinsWeighted(Weighted(x, a, b), Prod(Succ, c, b), Prod(Square, c, b), Weighted(x, a, c), Harm(a, c), Prod(Constant(x), a, c),
                          Num(Constant(x), Square, c, b), Prod(Succ, a, c), Weighted(x, c, b))
    decreases c - a
  {
    hide JoinsWeighted, Prod, Num, Harm, Weighted;
    if a < c {
      WeightedJoin(x, a + 1, c, b);
      FirstJoined(x, a, c, b);
    } else {
      EmptyRun(x, a);
      EmptyWeighted(Weighted(x, c, b), Prod(Succ, c, b), Prod(Square, c, b), Num(Constant(x), Square, c, b));
    }
  }

  lemma FirstJoined(x: int, a: nat, c: nat, b: nat)
    requires a < c <= b
    requires JoinsWeighted(Weighted(x, a + 1, b), Prod(Succ, c, b), Prod(Square, c, b), Weighted(x, a + 1, c), Harm(a + 1, c),
                           Prod(Constant(x), a + 1, c), Num(Constant(x), Square, c, b), Prod(Succ, a + 1, c), Weighted(x, c, b))
    ensures JoinsWeighted(Weighted(x, a, b), Prod(Succ, c, b), Prod(Square, c, b), Weighted(x, a, c), Harm(a, c), Prod(Constant(x), a, c),
                          Num(Constant(x), Square, c, b), Prod(Succ, a, c), Weighted(x, c, b))
  {
    hide JoinsWeighted, Prod, Num, Harm, Weighted, FirstWeighted, RestSplits, FirstOthers;
    Unfold(x, a, b);
    Unfold(x, a, c);
    SplitRest(x, a + 1, c, b);
    WeightedFactors(a + 1, x, Prod(Succ, a + 1, c), Prod(Succ, c, b), Prod(Square, a + 1, c), Prod(Square, c, b),
                    Num(Constant(x), Square, a + 1, c), Num(Constant(x), Square, c, b), Prod(Constant(x), a + 1, c),
                    Weighted(x, a + 1, c), Weighted(x, c, b), Harm(a + 1, c), Weighted(x, a + 1, b), Num(Constant(x), Square, a + 1, b),
                    Prod(Succ, a + 1, b), Prod(Square, a + 1, b), Weighted(x, a, b), Weighted(x, a, c), Harm(a, c),
                    Prod(Constant(x), a, c), Prod(Succ, a, c));
  }

  predicate RestSplits(dr: int, d1: int, d2: int, qr: int, q1: int, q2: int, tr: int, t1: int, p1: int, t2: int) {
    dr == d1 * d2 && qr == q1 * q2 && tr == t1 * q2 + p1 * t2
  }

  lemma SplitRest(x: int, a: nat, c: nat, b: nat)
    requires a <= c <= b
    ensures RestSplits(Prod(Succ, a, b), Prod(Succ, a, c), Prod(Succ, c, b), Prod(Square, a, b), Prod(Square, a, c), Prod(Square, c, b),
                       Num(Constant(x), Square, a, b), Num(Constant(x), Square, a, c), Prod(Constant(x), a, c), Num(Constant(x), Square, c, b))
  {
    hide Prod, Num;
    ProdSplit(Succ, a, c, b);
    ProdSplit(Square, a, c, b);
    NumJoin(Constant(x), Square, a, c, b);
  }

  lemma EmptyRun(x: int, a: nat)
    ensures Weighted(x, a, a) == 0 && Harm(a, a) == 0 && Prod(Constant(x), a, a) == 1 && Prod(Succ, a, a) == 1
  {}

  lemma EmptyWeighted(v: int, d: int, q: int, t: int)
    ensures JoinsWeighted(v, d, q, 0, 0, 1, t, 1, v)
  {}

  /** A run and its first term. */
  predicate FirstWeighted(v: int, d: int, x: int, q: int, t: int, s: int, v1: int) { v == d * x * (q + t) + s * x * v1 }

  lemma Unfold(x: int, a: nat, b: nat)
    requires a < b
    ensures FirstWeighted(Weighted(x, a, b), Prod(Succ, a + 1, b), x, Prod(Square, a + 1, b), Num(Constant(x), Square, a + 1, b), a + 1,
                          Weighted(x, a + 1, b))
    ensures FirstOthers(Harm(a, b), Prod(Succ, a + 1, b), a + 1, Harm(a + 1, b), Prod(Constant(x), a, b), x, Prod(Constant(x), a + 1, b),
                        Prod(Succ, a, b))
  {}

  predicate FirstOthers(c: int, d1: int, s: int, c1: int, p: int, x: int, p1: int, d: int) {
    c == d1 + s * c1 && p == x * p1 && d == s * d1
  }

  lemma WeightedFactors(s: int, x: int, d1: int, d2: int, q1: int, q2: int, t1: int, t2: int, p1: int, v1: int, v2: int, c1: int,
                        vr: int, tr: int, dr: int, qr: int, v: int, vl: int, cl: int, pl: int, dl: int)
    requires RestSplits(dr, d1, d2, qr, q1, q2, tr, t1, p1, t2)
    requires JoinsWeighted(vr, d2, q2, v1, c1, p1, t2, d1, v2)
    requires FirstWeighted(v, dr, x, qr, tr, s, vr) && FirstWeighted(vl, d1, x, q1, t1, s, v1)
    requires FirstOthers(cl, d1, s, c1, pl, x, p1, dl)
    ensures JoinsWeighted(v, d2, q2, vl, cl, pl, t2, dl, v2)
  {
    Polynomial(s, x, d1, d2, q1, q2, t1, t2, p1, v1, v2, c1);
  }

  lemma Polynomial(s: int, x: int, d1: int, d2: int, q1: int, q2: int, t1: int, t2: int, p1: int, v1: int, v2: int, c1: int)
    ensures d1 * d2 * x * (q1 * q2 + (t1 * q2 + p1 * t2)) + s * x * (d2 * (q2 * v1 + c1 * p1 * t2) + d1 * p1 * v2)
         == d2 * (q2 * (d1 * x * (q1 + t1) + s * x * v1) + (d1 + s * c1) * (x * p1) * t2) + s * d1 * (x * p1) * v2
  {
    PolynomialA(x, d1, d2, q1, q2, t1, p1 * t2);
    PolynomialB(s * x, d2, q2 * v1, c1 * p1 * t2, d1 * p1 * v2);
    PolynomialC(d2, q2, d1 * x * (q1 + t1), s * x * v1, d1, s * c1, x * p1 * t2);
    Monomials(s, x, d1, d2, q2, t2, p1, v1, v2, c1);
  }

  lemma PolynomialA(x: int, d1: int, d2: int, q1: int, q2: int, t1: int, w: int)
    ensures d1 * d2 * x * (q1 * q2 + (t1 * q2 + w)) == d2 * (q2 * (d1 * x * (q1 + t1))) + d1 * d2 * x * w
  {}

  lemma PolynomialB(sx: int, d2: int, a: int, b: int, c: int)
    ensures sx * (d2 * (a + b) + c) == sx * (d2 * a) + sx * (d2 * b) + sx * c
  {}

  lemma PolynomialC(d2: int, q2: int, a: int, b: int, d1: int, e: int, w: int)
    ensures d2 * (q2 * (a + b) + (d1 + e) * w) == d2 * (q2 * a) + d2 * (q2 * b) + d2 * (d1 * w) + d2 * (e * w)
  {}

  lemma Monomials(s: int, x: int, d1: int, d2: int, q2: int, t2: int, p1: int, v1: int, v2: int, c1: int)
    ensures d1 * d2 * x * (p1 * t2) == d2 * (d1 * (x * p1 * t2))
    ensures s * x * (d2 * (q2 * v1)) == d2 * (q2 * (s * x * v1))
    ensures s * x * (d2 * (c1 * p1 * t2)) == d2 * (s * c1 * (x * p1 * t2))
    ensures s * x * (d1 * p1 * v2) == s * d1 * (x * p1) * v2
    ensures (d1 + s * c1) * (x * p1) * t2 == (d1 + s * c1) * (x * p1 * t2)
  {
    MulAssoc(d1 + s * c1, x * p1, t2);
    MulAssoc(x, p1, t2);
    MulAssoc(c1, p1, t2);
    Monomial1(d1, d2, x, p1 * t2);
    Monomial2(s * x, d2, q2, v1);
    Monomial3(s, x, d2, c1, p1 * t2);
    Monomial4(s, x, d1, p1, v2);
  }

  lemma Monomial1(d1: int, d2: int, x: int, w: int)
    ensures d1 * d2 * x * w == d2 * (d1 * (x * w))
  {}

  lemma Monomial2(sx: int, d2: int, q2: int, v1: int)
    ensures sx * (d2 * (q2 * v1)) == d2 * (q2 * (sx * v1))
  {}

  lemma Monomial3(s: int, x: int, d2: int, c1: int, w: int)
    ensures s * x * (d2 * (c1 * w)) == d2 * (s * c1 * (x * w))
  {}

  lemma Monomial4(s: int, x: int, d1: int, p1: int, v2: int)
    ensures s * x * (d1 * p1 * v2) == s * d1 * (x * p1) * v2
  {}

  // ---- mpfr_const_euler_bs_1 ---------------------------------------------------------------

  /** mpfr_const_euler_bs_t. */
  class Sums {
    var p: int
    var q: int
    var t: int
    var c: int
    var d: int
    var v: int

    constructor ()
    {
      p, q, t, c, d, v := 0, 0, 0, 0, 0, 0;
    }

    /** The values for the factors with indices n1, ..., n2 - 1; p and c only if cont. */
    ghost predicate Holds(n1: nat, n2: nat, n: int, cont: bool)
      reads this
    {
      && q == Prod(Square, n1, n2) && d == Prod(Succ, n1, n2)
      && t == Num(Constant(n * n), Square, n1, n2) && v == Weighted(n * n, n1, n2)
      && (cont ==> p == Prod(Constant(n * n), n1, n2) && c == Harm(n1, n2))
    }
  }

  method Bs1(s: Sums, n1: nat, n2: nat, n: int, cont: bool)
    requires n1 < n2
    modifies s
    ensures s.Holds(n1, n2, n, cont)
    decreases n2 - n1
  {
    if n2 - n1 == 1 {
      s.p := n;
      s.p := s.p * s.p;
      s.q := n1 + 1;
      s.q := s.q * s.q;
      s.c := 1;
      s.d := n1 + 1;
      s.t := s.p;
      s.v := s.p;
      Leaf(n * n, n1);
    } else {
      hide Prod, Num, Harm, Weighted;
      var m := (n1 + n2) / 2;
      var l := new Sums();
      var r := new Sums();
      Bs1(l, n1, m, n, true);
      Bs1(r, m, n2, n, true);
      Join(s, l, r, n1, m, n2, n, cont);
    }
  }

  /** const_euler.c:104-128. */
  method Join(s: Sums, l: Sums, r: Sums, ghost n1: nat, ghost m: nat, ghost n2: nat, ghost n: int, cont: bool)
    requires n1 <= m <= n2 && s != l && s != r && l.Holds(n1, m, n, true) && r.Holds(m, n2, n, true)
    modifies s
    ensures s.Holds(n1, n2, n, cont)
  {
    hide Prod, Num, Harm, Weighted, JoinsWeighted;
    if cont { s.p := l.p * r.p; }
    s.q := l.q * r.q;
    s.d := l.d * r.d;
    var t := l.p * r.t;
    var v := r.q * l.t;
    s.t := t + v;
    if cont {
      s.c := l.c * r.d;
      s.c := s.c + r.c * l.d;
    }
    var u := l.p * r.v;
    u := u * l.d;
    v := r.q * l.v;
    v := v + t * l.c;
    v := v * r.d;
    s.v := u + v;
    ghost var x := n * n;
    JoinedValues(x, n1, m, n2, s.v, s.t);
  }

  lemma JoinedValues(x: int, a: nat, c: nat, b: nat, v: int, t: int)
    requires a <= c <= b
    requires v == Prod(Constant(x), a, c) * Weighted(x, c, b) * Prod(Succ, a, c)
                  + (Prod(Square, c, b) * Weighted(x, a, c) + Prod(Constant(x), a, c) * Num(Constant(x), Square, c, b) * Harm(a, c)) * Prod(Succ, c, b)
    requires t == Prod(Constant(x), a, c) * Num(Constant(x), Square, c, b) + Prod(Square, c, b) * Num(Constant(x), Square, a, c)
    ensures v == Weighted(x, a, b) && t == Num(Constant(x), Square, a, b)
    ensures Prod(Constant(x), a, b) == Prod(Constant(x), a, c) * Prod(Constant(x), c, b)
    ensures Prod(Square, a, b) == Prod(Square, a, c) * Prod(Square, c, b)
    ensures Prod(Succ, a, b) == Prod(Succ, a, c) * Prod(Succ, c, b)
    ensures Harm(a, b) == Harm(a, c) * Prod(Succ, c, b) + Harm(c, b) * Prod(Succ, a, c)
  {
    hide Prod, Num, Harm, Weighted, JoinsWeighted;
    ProdSplit(Constant(x), a, c, b);
    ProdSplit(Square, a, c, b);
    ProdSplit(Succ, a, c, b);
    NumJoin(Constant(x), Square, a, c, b);
    MulComm(Prod(Square, c, b), Num(Constant(x), Square, a, c));
    HarmJoin(a, c, b);
    WeightedJoin(x, a, c, b);
    InCodeOrder(Prod(Constant(x), a, c), Harm(a, c), Prod(Succ, a, c), Weighted(x, a, c), Prod(Square, c, b),
                Num(Constant(x), Square, c, b), Prod(Succ, c, b), Weighted(x, c, b), v, Weighted(x, a, b));
  }

  lemma Leaf(x: int, n1: nat)
    ensures Prod(Square, n1, n1 + 1) == (n1 + 1) * (n1 + 1) && Prod(Succ, n1, n1 + 1) == n1 + 1
    ensures Num(Constant(x), Square, n1, n1 + 1) == x && Weighted(x, n1, n1 + 1) == x
    ensures Prod(Constant(x), n1, n1 + 1) == x && Harm(n1, n1 + 1) == 1
  {
    ProdOne(Square, n1);
    ProdOne(Succ, n1);
    ProdOne(Constant(x), n1);
    NumOne(Constant(x), Square, n1);
    Unfold(x, n1, n1 + 1);
    EmptyRun(x, n1 + 1);
    assert Prod(Square, n1 + 1, n1 + 1) == 1 && Num(Constant(x), Square, n1 + 1, n1 + 1) == 0;
  }

  lemma InCodeOrder(lp: int, lc: int, ld: int, lv: int, rq: int, rt: int, rd: int, rv: int, v: int, w: int)
    requires v == lp * rv * ld + (rq * lv + lp * rt * lc) * rd && JoinsWeighted(w, rd, rq, lv, lc, lp, rt, ld, rv)
    ensures v == w
  {
    MulComm(rq * lv + lp * rt * lc, rd);
    MulAssoc(lc, lp, rt);
    MulComm(lc, lp * rt);
    MulAssoc(ld, lp, rv);
    MulComm(ld, lp * rv);
  }

  // ---- what the first splitting sums --------------------------------------------------------

  /** H_n. */
  function Harmonic(n: nat): real { if n == 0 then 0.0 else Harmonic(n - 1) + 1.0 / n as real }

  /** sum of H_(k+1) * term k. */
  ghost function HarmonicSum(x: int, n: nat): real {
    if n == 0 then 0.0 else HarmonicSum(x, n - 1) + Ratio(Constant(x), Square, n - 1) * Harmonic(n)
  }

  lemma Factors()
    ensures forall k: nat :: Square(k) != 0
    ensures forall k: nat :: Succ(k) != 0
  {
    forall k: nat ensures Square(k) != 0 { MulMono(1, k + 1, k + 1); }
  }

  lemma {:induction false} HarmIs(n: nat)
    ensures Prod(Succ, 0, n) != 0
    ensures Harm(0, n) as real == Harmonic(n) * Prod(Succ, 0, n) as real
  {
    hide Prod, Harm, Harmonic;
    Factors();
    ProdNonzero(Succ, 0, n);
    if n > 0 {
      HarmIs(n - 1);
      HarmLast(n);
      HarmStep(Harm(0, n - 1), n, Prod(Succ, 0, n - 1), Prod(Succ, 0, n), Harmonic(n - 1), Harm(0, n));
    } else {
      NoHarmonic();
    }
  }

  lemma NoHarmonic()
    ensures Harm(0, 0) == 0 && Harmonic(0) == 0.0
  {}

  lemma HarmLast(n: nat)
    requires n >= 1
    ensures Harm(0, n) == Harm(0, n - 1) * n + Prod(Succ, 0, n - 1) && Prod(Succ, 0, n) == Prod(Succ, 0, n - 1) * n
    ensures Harmonic(n) == Harmonic(n - 1) + 1.0 / n as real
  {
    hide Prod, Harm;
    HarmJoin(0, n - 1, n);
    ProdSplit(Succ, 0, n - 1, n);
    ProdOne(Succ, n - 1);
    Leaf(0, n - 1);
  }

  lemma HarmStep(h: int, n: int, d: int, dn: int, s: real, h': int)
    requires n >= 1 && dn == d * n && h as real == s * d as real && h' == h * n + d
    ensures h' as real == (s + 1.0 / n as real) * dn as real
  {
    var y := 1.0 / n as real;
    assert y * n as real == 1.0;
    CastProduct(h, n);
    CastProduct(d, n);
    RealExpand(s, y, dn as real);
    RealRegroup2(s, d as real, n as real);
    assert y * ((d as real) * (n as real)) == (d as real);
  }

  /** v is s over the common denominator q d. */
  predicate IsOver(v: int, s: real, q: int, d: int) { v as real == s * (q * d) as real }

  /** V / (Q D) is the sum of the terms times harmonic numbers, exactly. */
  lemma {:induction false} WeightedIs(x: int, n: nat)
    ensures IsOver(Weighted(x, 0, n), HarmonicSum(x, n), Prod(Square, 0, n), Prod(Succ, 0, n))
  {
    if n > 0 {
      WeightedIs(x, n - 1);
      OneTermMore(x, n);
    }
  }

  lemma OneTermMore(x: int, n: nat)
    requires n > 0 && IsOver(Weighted(x, 0, n - 1), HarmonicSum(x, n - 1), Prod(Square, 0, n - 1), Prod(Succ, 0, n - 1))
    ensures IsOver(Weighted(x, 0, n), HarmonicSum(x, n), Prod(Square, 0, n), Prod(Succ, 0, n))
  {
    hide Prod, Harm, Weighted, Harmonic, IsOver, HarmonicSum, Ratio;
    LastProducts(x, n);
    WeightedLast(x, n);
    HarmIs(n);
    LastSum(x, n);
    WeightedStep(Weighted(x, 0, n - 1), n, Prod(Constant(x), 0, n), Harm(0, n), Weighted(x, 0, n), HarmonicSum(x, n - 1),
                 Prod(Square, 0, n - 1), Prod(Succ, 0, n - 1), Prod(Square, 0, n), Prod(Succ, 0, n),
                 Ratio(Constant(x), Square, n - 1), Harmonic(n), HarmonicSum(x, n));
  }

  lemma LastSum(x: int, n: nat)
    requires n > 0
    ensures HarmonicSum(x, n) == HarmonicSum(x, n - 1) + Ratio(Constant(x), Square, n - 1) * Harmonic(n)
  {}

  lemma LastProducts(x: int, n: nat)
    requires n > 0
    ensures Prod(Square, 0, n) == Prod(Square, 0, n - 1) * (n * n) && Prod(Succ, 0, n) == Prod(Succ, 0, n - 1) * n
    ensures Prod(Square, 0, n) != 0
    ensures Ratio(Constant(x), Square, n - 1) == Prod(Constant(x), 0, n) as real / Prod(Square, 0, n) as real
  {
    Factors();
    ProdNonzero(Square, 0, n);
    ProdSplit(Square, 0, n - 1, n);
    ProdSplit(Succ, 0, n - 1, n);
    ProdOne(Square, n - 1);
    ProdOne(Succ, n - 1);
  }

  /** Adding the last term: V' = n^3 V + P' C'. */
  lemma WeightedLast(x: int, n: nat)
    requires n > 0
    ensures Weighted(x, 0, n) == n * (n * n) * Weighted(x, 0, n - 1) + Prod(Constant(x), 0, n) * Harm(0, n)
  {
    WeightedJoin(x, 0, n - 1, n);
    HarmJoin(0, n - 1, n);
    ProdSplit(Constant(x), 0, n - 1, n);
    Leaf(x, n - 1);
    hide Prod, Harm, Weighted, Num;
    LastFactors(n, Weighted(x, 0, n - 1), Harm(0, n - 1), Prod(Constant(x), 0, n - 1), x, Prod(Succ, 0, n - 1));
  }

  lemma LastFactors(n: int, v1: int, c1: int, p1: int, x: int, d1: int)
    ensures n * (n * n * v1 + c1 * p1 * x) + d1 * p1 * x == n * (n * n) * v1 + (p1 * x) * (c1 * n + 1 * d1)
  {}

  lemma WeightedStep(v: int, n: int, p: int, h: int, v': int, s: real, q: int, d: int, q': int, d': int, ratio: real, hn: real, s': real)
    requires v' == n * (n * n) * v + p * h && IsOver(v, s, q, d)
    requires q' == q * (n * n) && d' == d * n && q' != 0 && ratio == p as real / q' as real && h as real == hn * d' as real
    requires s' == s + ratio * hn
    ensures IsOver(v', s', q', d')
  {
    assert ratio * q' as real == p as real;
    CastProduct(p, h);
    CastProduct(q', d');
    CastProduct(n * (n * n), v);
    CastProduct(q * d, n * (n * n));
    assert (q * (n * n)) * (d * n) == (q * d) * (n * (n * n));
    RealExpand(s, ratio * hn, (q' * d') as real);
    RealRegroup2(s, (q * d) as real, (n * (n * n)) as real);
    RealComm((n * (n * n)) as real, v as real);
    RealFour(ratio, hn, q' as real, d' as real);
  }

  /** The terms are x^(k+1) / (k+1)!^2. */
  lemma {:induction false} TermIs(x: int, k: nat)
    ensures Ratio(Constant(x), Square, k) == Power(x, k + 1) as real / (Factorial(k + 1) * Factorial(k + 1)) as real
  {
    Factors();
    ProdNonzero(Square, 0, k + 1);
    ConstantProd(x, k + 1);
    SquareProd(k + 1);
    RatioIs(Constant(x), Square, k, Power(x, k + 1), Factorial(k + 1) * Factorial(k + 1));
  }

  lemma {:induction false} ConstantProd(x: int, n: nat)
    ensures Prod(Constant(x), 0, n) == Power(x, n)
  {
    if n > 0 {
      ConstantProd(x, n - 1);
      ProdSplit(Constant(x), 0, n - 1, n);
      ProdOne(Constant(x), n - 1);
      MulComm(x, Power(x, n - 1));
    }
  }

  lemma {:induction false} SquareProd(n: nat)
    ensures Prod(Square, 0, n) == Factorial(n) * Factorial(n)
  {
    if n > 0 {
      SquareProd(n - 1);
      ProdSplit(Square, 0, n - 1, n);
      ProdOne(Square, n - 1);
      assert (Factorial(n - 1) * Factorial(n - 1)) * (n * n) == (n * Factorial(n - 1)) * (n * Factorial(n - 1));
    }
  }

  /** The root call (const_euler.c:225-227), which computes neither P nor C, and what
      the two numbers divided stand for: V = S * (Q D) and (T + Q) D = I * (Q D) with
      S = sum of H_k n^(2k) / k!^2 and I = sum of n^(2k) / k!^2, k = 0, ..., N.
      (The source's comment lets k end at N - 1.) */
  method BesselQuotient(n: int, terms: nat) returns (num: int, den: int, ghost scale: int)
    requires terms > 0
    ensures scale != 0
    ensures num as real == HarmonicSum(n * n, terms) * scale as real
    ensures den as real == (1.0 + PartialSum(Constant(n * n), Square, terms)) * scale as real
  {
    hide Prod, Num, Harm, Weighted, PartialSum, HarmonicSum;
    var s := new Sums();
    Bs1(s, 0, terms, n, false);
    ghost var t := s.t;
    s.t := s.t + s.q;
    den := s.t * s.d;
    num := s.v;
    scale := s.q * s.d;
    Factors();
    ProdNonzero(Succ, 0, terms);
    NumIsSum(Constant(n * n), Square, terms);
    WeightedIs(n * n, terms);
    NonzeroProduct(s.q, s.d);
    Denominator(t, s.q, s.d, PartialSum(Constant(n * n), Square, terms));
  }

  lemma Denominator(t: int, q: int, d: int, s: real)
    requires t as real == s * q as real
    ensures ((t + q) * d) as real == (1.0 + s) * (q * d) as real
  {
    CastProduct(t + q, d);
    CastProduct(q, d);
    DenominatorReal(t as real, q as real, d as real, s);
  }

  lemma DenominatorReal(t: real, q: real, d: real, s: real)
    requires t == s * q
    ensures (t + q) * d == (1.0 + s) * (q * d)
  {
    RealExpand(t, q, d);
    RealExpand(1.0, s, q * d);
    RealRegroup2(s, q, d);
  }

  // ---- mpfr_const_euler_bs_2 ---------------------------------------------------------------

  function Num2(k: nat): int { if k == 0 then 1 else Power(2 * k - 1, 3) }

  function Den2(n: int): nat -> int { k => if k == 0 then 4 * n else 32 * k * n * n }

  method Bs2(n1: nat, n2: nat, n: int, cont: bool) returns (p: int, q: int, t: int)
    requires n1 < n2
    ensures q == Prod(Den2(n), n1, n2) && t == Num(Num2, Den2(n), n1, n2) && (cont ==> p == Prod(Num2, n1, n2))
    decreases n2 - n1
  {
    if n2 - n1 == 1 {
      if n1 == 0 {
        p, q := 1, 4 * n;
      } else {
        p := 2 * n1 - 1;
        p := Power(p, 3);
        q := 32 * n1;
        q := q * n;
        q := q * n;
      }
      t := p;
      ProdOne(Num2, n1);
      ProdOne(Den2(n), n1);
      NumOne(Num2, Den2(n), n1);
    } else {
      hide Prod, Num;
      var m := (n1 + n2) / 2;
      p, q, t := Bs2(n1, m, n, true);
      var p2, q2, t2 := Bs2(m, n2, n, true);
      NumJoin(Num2, Den2(n), n1, m, n2);
      ProdSplit(Num2, n1, m, n2);
      ProdSplit(Den2(n), n1, m, n2);
      MulComm(t2, p);
      t := t * q2;
      t2 := t2 * p;
      t := t + t2;
      if cont { p := p * p2; }
      q := q * q2;
    }
  }

  /** The terms are (1/(4n)) (2k)!^3 / (k!^4 8^(2k) (2n)^(2k)). */
  lemma {:induction false} Telescope2(n: int, k: nat)
    ensures Prod(Num2, 0, k + 1) * (4 * n * (FourthPower(k) * (Power(64, k) * Power(4 * n * n, k))))
              == Cube(Factorial(2 * k)) * Prod(Den2(n), 0, k + 1)
  {
    ProdSplit(Num2, 0, k, k + 1);
    ProdSplit(Den2(n), 0, k, k + 1);
    ProdOne(Num2, k);
    ProdOne(Den2(n), k);
    hide Prod;
    if k > 0 {
      Telescope2(n, k - 1);
      FactorialSteps(k);
      CubeOf(2 * k - 1);
      Telescope2Step(Prod(Num2, 0, k), n, Factorial(k - 1), Power(64, k - 1), Power(4 * n * n, k - 1), Factorial(2 * k - 2),
                     Prod(Den2(n), 0, k), k, 2 * k - 1, Prod(Num2, 0, k + 1), Prod(Den2(n), 0, k + 1),
                     FourthPower(k), Power(64, k), Power(4 * n * n, k), Cube(Factorial(2 * k)));
    } else {
      assert Factorial(0) == 1;
      assert Prod(Num2, 0, 0) == 1 && Prod(Den2(n), 0, 0) == 1;
    }
  }

  function FourthPower(k: nat): int { (Factorial(k) * Factorial(k)) * (Factorial(k) * Factorial(k)) }

  function Cube(x: int): int { x * x * x }

  lemma CubeOf(m: int)
    ensures Power(m, 3) == Cube(m)
  {
    assert Power(m, 3) == m * Power(m, 2);
    assert Power(m, 2) == m * Power(m, 1);
    assert Power(m, 1) == m * Power(m, 0);
  }

  lemma Telescope2Step(p: int, n: int, f: int, u: int, w: int, g: int, q: int, k: int, m: int, p': int, q': int,
                       f4: int, u': int, w': int, c: int)
    requires p * (4 * n * (((f * f) * (f * f)) * (u * w))) == Cube(g) * q
    requires p' == p * Cube(m) && q' == q * (32 * k * n * n)
    requires f4 == ((k * f) * (k * f)) * ((k * f) * (k * f)) && u' == 64 * u && w' == 4 * n * n * w && c == Cube(2 * k * (m * g))
    ensures p' * (4 * n * (f4 * (u' * w'))) == c * q'
  {
    var k4, n2, m3 := (k * k) * (k * k), n * n, m * m * m;
    FourthOf(k, f);
    Powers64(n, u, w);
    CubeProduct(k, m, g);
    MulAssoc(32 * k, n, n);
    LeftMonomial(p, m3, n, k4, (f * f) * (f * f), n2, u * w);
    RightMonomial(g * g * g, q, k, k4, n2, m3);
  }

  lemma FourthOf(k: int, f: int)
    ensures ((k * f) * (k * f)) * ((k * f) * (k * f)) == ((k * k) * (k * k)) * ((f * f) * (f * f))
  {}

  lemma Powers64(n: int, u: int, w: int)
    ensures (64 * u) * (4 * n * n * w) == 256 * (n * n) * (u * w)
  {}

  lemma CubeProduct(k: int, m: int, g: int)
    ensures Cube(2 * k * (m * g)) == 8 * (k * k * k) * (m * m * m) * (g * g * g)
  {}

  lemma LeftMonomial(p: int, m3: int, n: int, k4: int, f4: int, n2: int, z: int)
    ensures (p * m3) * (4 * n * ((k4 * f4) * (256 * n2 * z))) == (p * (4 * n * (f4 * z))) * (256 * k4 * n2 * m3)
  {}

  lemma RightMonomial(g3: int, q: int, k: int, k4: int, n2: int, m3: int)
    requires k4 == (k * k) * (k * k)
    ensures (8 * (k * k * k) * m3 * g3) * (q * (32 * k * n2)) == (g3 * q) * (256 * k4 * n2 * m3)
  {}

  /** U is the partial sum of the second series. */
  lemma Term2Is(n: int, k: nat)
    requires n != 0
    ensures var den := 4 * n * (FourthPower(k) * (Power(64, k) * Power(4 * n * n, k)));
            den != 0 && Ratio(Num2, Den2(n), k) == Cube(Factorial(2 * k)) as real / den as real
  {
    Factors2(n);
    ProdNonzero(Den2(n), 0, k + 1);
    Telescope2(n, k);
    Denominator2(n, k);
    RatioIs(Num2, Den2(n), k, Cube(Factorial(2 * k)), 4 * n * (FourthPower(k) * (Power(64, k) * Power(4 * n * n, k))));
  }

  lemma Factors2(n: int)
    requires n != 0
    ensures forall k: nat :: Den2(n)(k) != 0
  {
    forall k: nat ensures Den2(n)(k) != 0 {
      if k > 0 {
        NonzeroProduct(32 * k, n);
        NonzeroProduct(32 * k * n, n);
      }
    }
  }

  lemma {:induction false} PowerNonzero(x: int, k: nat)
    requires x != 0
    ensures Power(x, k) != 0
  {
    if k > 0 {
      PowerNonzero(x, k - 1);
      NonzeroProduct(x, Power(x, k - 1));
    }
  }

  lemma Denominator2(n: int, k: nat)
    requires n != 0
    ensures 4 * n * (FourthPower(k) * (Power(64, k) * Power(4 * n * n, k))) != 0
  {
    NonzeroProduct(4 * n, n);
    PowerNonzero(64, k);
    PowerNonzero(4 * n * n, k);
    NonzeroProduct(Power(64, k), Power(4 * n * n, k));
    NonzeroProduct(Factorial(k), Factorial(k));
    NonzeroProduct(Factorial(k) * Factorial(k), Factorial(k) * Factorial(k));
    NonzeroProduct(FourthPower(k), Power(64, k) * Power(4 * n * n, k));
    NonzeroProduct(4 * n, FourthPower(k) * (Power(64, k) * Power(4 * n * n, k)));
  }

  /** The second root call: T/Q is the partial sum, exactly. */
  method PartialSum2(n: int, terms: nat) returns (q: int, t: int)
    requires terms > 0 && n != 0
    ensures q != 0 && t as real == PartialSum(Num2, Den2(n), terms) * q as real
  {
    Factors2(n);
    NumIsSum(Num2, Den2(n), terms);
    var p;
    p, q, t := Bs2(0, terms, n, false);
  }
}

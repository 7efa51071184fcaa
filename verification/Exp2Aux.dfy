/** exp_2.c: the exponential series summed in fixed point, each term truncated to
    one unit in the last place of the sum and the argument truncated along. */
module Exp2Aux {
  import opened Powers
  import opened RealPowers
  import opened Rounding
  import opened Numbers

  /** x^k / k!. */
  function Term(x: real, k: nat): real {
    if k == 0 then 1.0 else Term(x, k - 1) * x / k as real
  }

  /** 1 + x + x^2/2! + ... + x^n/n!. */
  function Sum(x: real, n: nat): real {
    if n == 0 then Term(x, 0) else Sum(x, n - 1) + Term(x, n)
  }

  // ---- the series for 0 < x < 1/2 --------------------------------------------------

  lemma {:induction false} TermPositive(x: real, k: nat)
    requires x > 0.0
    ensures Term(x, k) > 0.0
  {
    if k > 0 {
      TermPositive(x, k - 1);
      PositiveQuotient(Term(x, k - 1), x, k as real);
    }
  }

  lemma PositiveQuotient(t: real, x: real, k: real)
    requires t > 0.0 && x > 0.0 && k > 0.0
    ensures t * x / k > 0.0
  {
    RealProductPos(t, x);
  }

  /** Each term is less than half of the one before. */
  lemma HalfTerm(x: real, k: nat)
    requires 0.0 < x < 0.5
    ensures 0.0 < 2.0 * Term(x, k + 1) < Term(x, k)
  {
    TermPositive(x, k);
    TermPositive(x, k + 1);
    assert Term(x, k + 1) * (k + 1) as real == Term(x, k) * x;
    HalfPlain(Term(x, k), x, (k + 1) as real, Term(x, k + 1));
  }

  lemma HalfPlain(t: real, x: real, k: real, t': real)
    requires t > 0.0 && 0.0 < x < 0.5 && k >= 1.0 && t' * k == t * x && t' > 0.0
    ensures 2.0 * t' < t
  {
    AtLeast(t', k, t' * k);
    BelowHalf(t, x, t * x);
  }

  lemma AtLeast(t: real, k: real, p: real)
    requires t >= 0.0 && k >= 1.0 && p == t * k
    ensures t <= p
  {
    assert t * (k - 1.0) >= 0.0;
    assert t * (k - 1.0) == t * k - t;
  }

  lemma BelowHalf(t: real, x: real, p: real)
    requires t >= 0.0 && 0.0 < x < 0.5 && p == t * x
    ensures 0.0 <= p && 2.0 * p <= t && (t > 0.0 ==> 2.0 * p < t)
  {
    assert t * (0.5 - x) >= 0.0;
    assert t * (0.5 - x) == t * 0.5 - t * x;
    if t > 0.0 { assert t * (0.5 - x) > 0.0; }
  }

  /** What is left of the series beyond a term is less than that term. */
  lemma {:induction false} TailBound(x: real, l: nat, n: nat)
    requires 0.0 < x < 0.5 && l <= n
    ensures Sum(x, l) <= Sum(x, n) <= Sum(x, l) + Term(x, l) - Term(x, n)
    decreases n
  {
    hide Term;
    if n > l {
      TailBound(x, l, n - 1);
      HalfTerm(x, n - 1);
    }
  }

  lemma SumBelowTwo(x: real, n: nat)
    requires 0.0 < x < 0.5
    ensures 1.0 <= Sum(x, n) < 2.0
  {
    hide Term;
    TailBound(x, 0, n);
    TermPositive(x, n);
    assert Term(x, 0) == 1.0 by { First(x); }
  }

  lemma First(x: real)
    ensures Term(x, 0) == 1.0
  {}

  // ---- truncation --------------------------------------------------------------------

  /** mpz_normalize: z without the bits beyond the leading q, and their number. */
  method Normalize(z: nat, q: int) returns (rop: nat, d: nat)
    ensures d == (if SizeInBase2(z) > q then SizeInBase2(z) - q else 0) && rop == z / Pow2(d)
  {
    hide Pow2;
    Pow2Zero();
    var k := SizeInBase2(z);
    if q < 0 || k > q {
      d := k - q;
      DivLe(z, Pow2(d));
      rop := z / Pow2(d);
    } else {
      rop, d := z, 0;
    }
  }

  /** The integer part of z * 2^-d, among the reals. */
  lemma Floored(z: nat, d: nat, e: int)
    ensures var f := z / Pow2(d);
            0 <= f && f as real * R2(e + d) <= z as real * R2(e) < (f + 1) as real * R2(e + d)
  {
    hide R2, Pow2;
    var b, f := Pow2(d), z / Pow2(d);
    DivLe(z, b);
    R2Nat(d);
    R2Add(d, e);
    MulComm(b, f);
    Distrib(f, 1, b);
    Between(f, z, b, R2(e), R2(e + d));
  }

  lemma Between(f: int, z: int, b: int, u: real, v: real)
    requires u > 0.0 && v == b as real * u && f * b <= z < (f + 1) * b
    ensures f as real * v <= z as real * u < (f + 1) as real * v
  {
    RealSwap(f as real, b as real, u);
    RealSwap((f + 1) as real, b as real, u);
    RealMono((f * b) as real, z as real, u);
    RealMono(((f + 1) * b) as real, z as real, u);
    CastProduct(f, b);
    CastProduct(f + 1, b);
  }

  /** IS_POW2. */
  predicate IsPow2(l: nat) { l == 1 || (l > 1 && l % 2 == 0 && IsPow2(l / 2)) }

  lemma {:induction false} PowerOfTwoBits(l: nat)
    requires IsPow2(l)
    ensures Pow2(CeilLog2(l)) == l
  {
    if l > 1 {
      PowerOfTwoBits(l / 2);
      assert (l + 1) / 2 == l / 2;
    }
  }

  /** exp_2.c:304-318: the quotient by l. */
  method Divide(t: nat, l: nat) returns (r: nat)
    requires l >= 1
    ensures r == t / l
  {
    r := t;
    if l > 1 {
      DivLe(t, l);
      if IsPow2(l) {
        PowerOfTwoBits(l);
        r := r / Pow2(CeilLog2(l));
      } else {
        r := r / l;
      }
    }
  }

  // ---- one step of the loop ------------------------------------------------------------

  /** The term t * 2^expt at the head of the loop: T and what it approximates. */
  predicate TermOk(x: real, l: nat, t: nat, expt: int, q: nat, u: real) {
    && u == R2(1 - q as int)
    && t >= 1
    && (if l == 0 then t == 1 && expt == 0 else expt == 1 - q)
    && Close(Term(x, l), t as real * R2(expt), l, u)
  }

  predicate Close(exact: real, v: real, l: nat, u: real) {
    && v <= exact
    && exact - v <= (if l == 0 then 0.0 else if l == 1 then u else 2.0 * u)
  }

  /** The argument, truncated along with the terms. */
  predicate ArgOk(x: real, l: nat, t: nat, rr: nat, expr: int) {
    && rr >= 1
    && rr as real * R2(expr) <= x < (rr + 1) as real * R2(expr)
    && (x == rr as real * R2(expr) || (l >= 1 && t < 2 * rr))
  }

  /** The error of the truncated argument costs at most half a unit per term. */
  lemma ArgError(x: real, l: nat, t: nat, rr: nat, expr: int, expt: int, q: nat, u: real)
    requires 0.0 < x < 0.5 && TermOk(x, l, t, expt, q, u) && ArgOk(x, l, t, rr, expr)
    ensures 0.0 <= (t as real * R2(expt)) * (x - rr as real * R2(expr)) <= u
    ensures l == 0 ==> x == rr as real * R2(expr)
  {
    hide R2, Term, Close;
    if x == rr as real * R2(expr) {
    } else {
      var g := R2(expr);
      R2Pos(expr);
      R2Pos(1 - q);
      ArgPlain(t as real, u, x, rr as real, g, rr as real * g, t as real * u);
    }
  }

  lemma ArgPlain(t: real, u: real, x: real, rr: real, g: real, r: real, tu: real)
    requires 0.0 <= t < 2.0 * rr && u > 0.0 && g > 0.0 && x < 0.5 && r == rr * g && r <= x < (rr + 1.0) * g && tu == t * u
    ensures 0.0 <= tu * (x - r) <= u
  {
    var d := x - r;
    assert d <= g by { assert (rr + 1.0) * g == r + g; }
    ScaleLe(t, 0.0, d);
    ScaleLe(t, d, g);
    ScaleLe(g, t, 2.0 * rr);
    RealComm(t, g);
    RealComm(2.0 * rr, g);
    RealAssoc2(rr, g);
    UnitPlain(t * d, u, tu * d, t * g, r) by { RealSwap3(t, u, d); }
  }

  lemma UnitPlain(p: real, u: real, pu: real, tg: real, r: real)
    requires 0.0 <= p <= tg <= 2.0 * r && r <= 0.5 && u > 0.0 && pu == p * u
    ensures 0.0 <= pu <= u
  {
    ScaleLe(u, p, 1.0);
    ScaleLe(u, 0.0, p);
    RealComm(u, p);
  }

  lemma ScaleLe(c: real, a: real, b: real)
    requires c >= 0.0 && a <= b
    ensures c * a <= c * b && (a >= 0.0 ==> c * a >= 0.0)
  {}

  lemma RealSwap3(t: real, u: real, d: real)
    ensures (t * u) * d == (t * d) * u
  {}

  /** The next term, truncated, is within two units of the exact one. */
  lemma NextTerm(x: real, l: nat, tau: real, v: real, r: real, u: real, t': nat, tau': real)
    requires 0.0 < x < 0.5 && u > 0.0 && l >= 1 && v >= 0.0 && 0.0 <= r <= x && tau' * l as real == tau * x
    requires Close(tau, v, l - 1, u) && v * (x - r) <= u && (l == 1 ==> r == x)
    requires t' as real * u * l as real <= v * r < (t' as real + 1.0) * u * l as real
    ensures Close(tau', t' as real * u, l, u)
  {
    var k := l as real;
    Expand(tau, v, x, r);
    NonNegative(v, x - r, v * (x - r));
    BelowHalf(tau - v, x, (tau - v) * x);
    NextPlain(x, l, tau * x, v * r, (tau - v) * x, v * (x - r), u, t' as real, tau', k);
  }

  lemma NonNegative(a: real, b: real, p: real)
    requires a >= 0.0 && b >= 0.0 && p == a * b
    ensures p >= 0.0 && (b == 0.0 ==> p == 0.0)
  {}

  lemma NextPlain(x: real, l: nat, tx: real, vr: real, e1: real, e2: real, u: real, t': real, tau': real, k: real)
    requires u > 0.0 && l >= 1 && k == l as real && tau' * k == tx && tx - vr == e1 + e2
    requires 0.0 <= e2 <= u && (if l == 1 then e1 == 0.0 && e2 == 0.0 else 0.0 <= e1 <= u)
    requires t' * u * k <= vr < (t' + 1.0) * u * k
    ensures Close(tau', t' * u, l, u)
  {
    Cancel(t' * u, tau', k, tx);
    if l > 1 { ErrorPlain(tau', t', u, k, tx); }
  }

  lemma Expand(tau: real, v: real, x: real, r: real)
    ensures tau * x - v * r == (tau - v) * x + v * (x - r)
  {}

  lemma OneMore(t: real, u: real, k: real)
    ensures (t + 1.0) * u * k == t * u * k + u * k
  {}

  lemma Cancel(a: real, b: real, k: real, c: real)
    requires k > 0.0 && b * k == c
    ensures a * k <= c ==> a <= b
  {
    RealMono(a, b, k);
  }

  lemma ErrorPlain(tau': real, t': real, u: real, k: real, c: real)
    requires k >= 2.0 && u > 0.0 && tau' * k == c && c < (t' + 1.0) * u * k + 2.0 * u
    ensures tau' - t' * u <= 2.0 * u
  {
    var d := tau' - t' * u;
    RealSub(tau', t' * u, k);
    var w := u * k;
    assert (t' + 1.0) * u * k == t' * u * k + w by { OneMore(t', u, k); }
    assert 2.0 * u <= w by { ScaleLe(u, 2.0, k); }
    assert (2.0 * u) * k == 2.0 * w by { RealAssoc2(u, k); }
    RealMono(d, 2.0 * u, k);
  }

  // ---- the loop --------------------------------------------------------------------

  /** s * 2^(1-q) against the partial sum up to l. */
  predicate SumOk(x: real, l: nat, s: nat, q: nat, u: real) {
    && u == R2(1 - q as int) && q >= 1 && s >= Pow2(q - 1)
    && s as real * u <= Sum(x, l)
    && Sum(x, l) - s as real * u <= (if l == 0 then 0.0 else 2.0 * l as real - 1.0) * u
  }

  /** The sum keeps its q bits. */
  lemma SumSize(x: real, l: nat, s: nat, q: nat, u: real)
    requires 0.0 < x < 0.5 && SumOk(x, l, s, q, u)
    ensures SizeInBase2(s) == q
  {
    hide R2, Pow2, Sum, SizeInBase2;
    SumBelowTwo(x, l);
    R2Nat(q);
    R2Add(q, 1 - q);
    R2Small();
    CompareWith(s as real, Pow2(q) as real, u, s as real * u, 2.0);
    SizeOfSignificand(q, s);
  }

  /** exp_2.c:294-318: the term is multiplied by the argument, truncated to units of
      the sum, and divided by l. */
  method NextTruncated(s: nat, t0: nat, expt0: int, rr: nat, expr: int, q: nat, l: nat, ghost x: real, ghost u: real)
    returns (t: nat, expt: int)
    requires 0.0 < x < 0.5 && l >= 1 && q >= 1 && expt0 + expr <= 1 - q
    requires SumOk(x, l - 1, s, q, u) && TermOk(x, l - 1, t0, expt0, q, u) && ArgOk(x, l - 1, t0, rr, expr)
    ensures expt == 1 - q && Close(Term(x, l), t as real * u, l, u)
    ensures t as real * u < (t0 as real * R2(expt0)) * 0.5
  {
    hide R2, Pow2, Term, Sum, SizeInBase2, Close;
    SumSize(x, l - 1, s, q, u);
    ProductPositive(t0, rr);
    t := t0 * rr;
    expt := expt0 + expr;
    SizeBounds(t);
    var sbit, tbit := SizeInBase2(s), SizeInBase2(t);
    var dif := 1 - q + sbit - expt - tbit;
    var d;
    Floored(t, 1 - q - expt, expt);
    t, d := Normalize(t, q - dif);
    assert d == 1 - q - expt;
    expt := expt + d;
    ghost var f := t;
    t := Divide(t, l);
    TruncatedTerm(x, l, t0, expt0, rr, expr, q, u, f, t);
  }

  lemma ProductPositive(a: nat, b: nat)
    requires a >= 1 && b >= 1
    ensures a * b >= 1
  {}

  lemma TruncatedTerm(x: real, l: nat, t0: nat, expt0: int, rr: nat, expr: int, q: nat, u: real, f: nat, t: nat)
    requires 0.0 < x < 0.5 && l >= 1 && t == f / l && TermOk(x, l - 1, t0, expt0, q, u) && ArgOk(x, l - 1, t0, rr, expr)
    requires f as real * u <= (t0 * rr) as real * R2(expt0 + expr) < (f + 1) as real * u
    ensures Close(Term(x, l), t as real * u, l, u)
    ensures t as real * u < (t0 as real * R2(expt0)) * 0.5
  {
    hide R2, Term, Close, TermOk, ArgOk;
    ProductInReals(t0, expt0, rr, expr);
    var v, r, w := Factors(x, l - 1, t0, expt0, rr, expr, q, u);
    TermStep(x, l);
    TruncatedPlain(x, l, Term(x, l - 1), Term(x, l), v, r, w, u, f, t);
  }

  lemma Factors(x: real, l: nat, t: nat, expt: int, rr: nat, expr: int, q: nat, u: real) returns (v: real, r: real, w: real)
    requires 0.0 < x < 0.5 && TermOk(x, l, t, expt, q, u) && ArgOk(x, l, t, rr, expr)
    ensures v == t as real * R2(expt) && w == (t as real * R2(expt)) * (rr as real * R2(expr)) && w == v * r
    ensures u > 0.0 && v > 0.0 && 0.0 <= r <= x && Close(Term(x, l), v, l, u) && v * (x - r) <= u && (l == 0 ==> r == x)
  {
    hide R2, Term, Close, TermOk, ArgOk;
    v, r := t as real * R2(expt), rr as real * R2(expr);
    w := v * r;
    TermMeans(x, l, t, expt, q, u);
    ArgMeans(x, l, t, rr, expr);
    ArgError(x, l, t, rr, expr, expt, q, u);
  }

  lemma ProductInReals(a: nat, e: int, b: nat, e': int)
    ensures (a * b) as real * R2(e + e') == (a as real * R2(e)) * (b as real * R2(e'))
  {
    hide R2;
    CastProduct(a, b);
    R2Add(e, e');
    RealFour(a as real, R2(e), b as real, R2(e'));
  }

  lemma TruncatedPlain(x: real, l: nat, tau: real, tau': real, v: real, r: real, w: real, u: real, f: nat, t: nat)
    requires 0.0 < x < 0.5 && u > 0.0 && l >= 1 && v > 0.0 && 0.0 <= r <= x && tau' * l as real == tau * x && w == v * r
    requires Close(tau, v, l - 1, u) && v * (x - r) <= u && (l == 1 ==> r == x)
    requires t == f / l && f as real * u <= w < (f + 1) as real * u
    ensures Close(tau', t as real * u, l, u) && t as real * u < v * 0.5
  {
    hide Close;
    QuotientUnits(f, l, t, u, w);
    NextTerm(x, l, tau, v, r, u, t, tau');
    HalfOf(v, r, t as real * u, l as real);
  }

  lemma TermMeans(x: real, l: nat, t: nat, expt: int, q: nat, u: real)
    requires TermOk(x, l, t, expt, q, u)
    ensures Close(Term(x, l), t as real * R2(expt), l, u) && t as real * R2(expt) > 0.0 && u > 0.0
  {
    hide Close, Term;
    R2Pos(expt);
    R2Pos(1 - q as int);
    RealProductPos(t as real, R2(expt));
  }

  lemma TermHolds(x: real, l: nat, t: nat, q: nat, u: real)
    requires l >= 1 && t >= 1 && u == R2(1 - q as int) && Close(Term(x, l), t as real * u, l, u)
    ensures TermOk(x, l, t, 1 - q, q, u)
  {}

  lemma ArgMeans(x: real, l: nat, t: nat, rr: nat, expr: int)
    requires ArgOk(x, l, t, rr, expr)
    ensures 0.0 <= rr as real * R2(expr) <= x
  {
    hide R2;
    R2Pos(expr);
    NonNegative(rr as real, R2(expr), rr as real * R2(expr));
  }

  lemma TermStep(x: real, l: nat)
    requires l >= 1
    ensures Term(x, l) * l as real == Term(x, l - 1) * x
  {}

  lemma HalfOf(v: real, r: real, tu: real, k: real)
    requires v > 0.0 && 0.0 <= r < 0.5 && k >= 1.0 && tu >= 0.0 && tu * k <= v * r
    ensures tu < v * 0.5
  {
    AtLeast(tu, k, tu * k);
    if r > 0.0 { BelowHalf(v, r, v * r); } else { assert v * r == 0.0; }
  }

  lemma QuotientUnits(f: nat, l: nat, t: nat, u: real, w: real)
    requires l >= 1 && t == f / l && u > 0.0 && f as real * u <= w < (f + 1) as real * u
    ensures t as real * u * l as real <= w < (t as real + 1.0) * u * l as real
    ensures t as real * u >= 0.0
  {
    MulComm(l, t);
    Distrib(t, 1, l);
    CastProduct(t, l);
    CastProduct(t + 1, l);
    RealMono((t * l) as real, f as real, u);
    RealMono((f + 1) as real, ((t + 1) * l) as real, u);
    RealSwap3(t as real, u, l as real);
    RealSwap3((t + 1) as real, u, l as real);
    NonNegative(t as real, u, t as real * u);
  }

  /** mpz_normalize (rr, rr, tbit) keeps the truncated argument good enough. */
  method NextArgument(t: nat, rr0: nat, expr0: int, l: nat, ghost x: real, ghost told: nat) returns (rr: nat, expr: int)
    requires l >= 1 && t >= 1 && ArgOk(x, l - 1, told, rr0, expr0) && (l > 1 ==> t <= told)
    ensures ArgOk(x, l, t, rr, expr)
  {
    hide R2, Pow2, SizeInBase2;
    SizeBounds(t);
    SizeBounds(rr0);
    var tbit := SizeInBase2(t);
    var d;
    rr, d := Normalize(rr0, tbit);
    expr := expr0 + d;
    if d == 0 { Pow2Zero(); }
    ArgTruncated(t, rr0, expr0, l, x, d);
  }

  lemma ArgTruncated(t: nat, rr0: nat, expr0: int, l: nat, x: real, d: nat)
    requires t >= 1 && rr0 >= 1 && rr0 as real * R2(expr0) <= x < (rr0 + 1) as real * R2(expr0)
    requires d == if SizeInBase2(rr0) > SizeInBase2(t) then SizeInBase2(rr0) - SizeInBase2(t) else 0
    ensures var rr := rr0 / Pow2(d);
            && rr >= 1 && rr as real * R2(expr0 + d) <= x < (rr + 1) as real * R2(expr0 + d)
            && (d > 0 ==> t < 2 * rr) && (d == 0 ==> rr == rr0)
  {
    hide R2, Pow2, SizeInBase2;
    var k, b := SizeInBase2(t), Pow2(d);
    SizeBounds(t);
    SizeBounds(rr0);
    if d == 0 {
      Pow2Zero();
    } else {
      Floored(rr0, d, expr0);
      KeepsBits(t, rr0, k, d);
      R2Nat(d);
      R2Add(d, expr0);
      NextGrid(x, rr0, rr0 / b, b, R2(expr0), R2(expr0 + d));
    }
  }

  /** The leading k bits of a number of k + d bits, next to a number of k bits. */
  lemma KeepsBits(t: int, z: int, k: nat, d: nat)
    requires IsSignificand(k, t) && IsSignificand(k + d, z)
    ensures var f := z / Pow2(d); f >= 1 && t < 2 * f && z < (f + 1) * Pow2(d)
  {
    hide Pow2;
    Pow2Add(k - 1, d);
    Pow2Step(k - 1);
    KeepsPlain(t, z, Pow2(k - 1), Pow2(k), Pow2(d), z / Pow2(d));
  }

  lemma KeepsPlain(t: int, z: int, lo: int, hi: int, b: int, f: int)
    requires 1 <= lo <= t < hi == 2 * lo && b >= 1 && lo * b <= z && f == z / b
    ensures f >= 1 && t < 2 * f && z < (f + 1) * b
  {
    MulComm(b, f);
    Distrib(f, 1, b);
    if f < lo { MulMono(f + 1, lo, b); }
  }

  lemma NextGrid(x: real, rr0: int, rr: int, b: int, g: real, v: real)
    requires g > 0.0 && v == b as real * g && x < (rr0 + 1) as real * g && rr0 < (rr + 1) * b
    ensures x < (rr + 1) as real * v
  {
    var y := (rr + 1) * b;
    CastProduct(rr + 1, b);
    RealSwap((rr + 1) as real, b as real, g);
    GridOrder(x, rr0, y, g);
  }

  lemma GridOrder(x: real, n: int, y: int, g: real)
    requires g > 0.0 && x < (n + 1) as real * g && n < y
    ensures x < y as real * g
  {
    RealMono((n + 1) as real, y as real, g);
  }

  /** The truncated argument has a fractional part only. */
  lemma ArgExponent(x: real, l: nat, t: nat, rr: nat, expr: int)
    requires 0.0 < x < 0.5 && ArgOk(x, l, t, rr, expr)
    ensures expr < 0
  {
    hide R2;
    R2Pos(expr);
    R2Small();
    ScaleLe(R2(expr), 1.0, rr as real);
    RealComm(R2(expr), rr as real);
    if expr >= 0 { R2Mono(0, expr); }
  }

  lemma Start(m: int, e: int, p: nat, q: nat, x: real, u: real)
    requires IsSignificand(p, m) && e < 0 && 1 <= q <= p && x == FloatValue(p, m, e) && u == R2(1 - q as int)
    ensures 0.0 < x < 0.5 && m >= 1
    ensures SumOk(x, 0, Pow2(q - 1), q, u) && TermOk(x, 0, 1, 0, q, u) && ArgOk(x, 0, 1, m, e - p)
  {
    hide R2, Pow2;
    R2Nat(p);
    R2Add(p, e - p);
    R2Nat(q - 1);
    R2Add(q - 1, 1 - q);
    R2Small();
    R2Mono(e, -1);
    R2Pos(e - p);
    CompareWith(m as real, Pow2(p) as real, R2(e - p), x, R2(e));
    CompareWith(m as real, 0.0, R2(e - p), x, 0.0);
    RealMono(m as real, (m + 1) as real, R2(e - p));
    RealMono((m + 1) as real, m as real, R2(e - p));
  }

  /** The sum with the next truncated term. */
  lemma NextSum(x: real, l: nat, s: nat, t: nat, q: nat, u: real)
    requires l >= 1 && SumOk(x, l - 1, s, q, u) && Close(Term(x, l), t as real * u, l, u)
    ensures SumOk(x, l, s + t, q, u)
  {
    hide R2, Pow2, Term, Sum;
    SumStep(x, l);
    SumPlain(l, s as real, t as real, u, Sum(x, l - 1), Term(x, l));
    assert (s + t) as real == s as real + t as real;
  }

  lemma SumStep(x: real, l: nat)
    requires l >= 1
    ensures Sum(x, l) == Sum(x, l - 1) + Term(x, l)
  {}

  lemma SumPlain(l: nat, s: real, t: real, u: real, sum: real, term: real)
    requires l >= 1 && s * u <= sum && t * u <= term
    requires sum - s * u <= (if l == 1 then 0.0 else 2.0 * (l - 1) as real - 1.0) * u
    requires term - t * u <= (if l == 1 then u else 2.0 * u)
    ensures (s + t) * u <= sum + term
    ensures sum + term - (s + t) * u <= (2.0 * l as real - 1.0) * u
  {
    RealExpand(s, t, u);
    if l == 1 {
      assert (2.0 * l as real - 1.0) * u == u;
    } else {
      RealExpand(2.0 * (l - 1) as real - 1.0, 2.0, u);
    }
  }

  lemma Shrinks(t: nat, told: nat, u: real)
    requires u > 0.0 && told >= 1 && t as real * u < (told as real * u) * 0.5
    ensures t < told
  {
    if t >= told { RealMono(told as real, t as real, u); RealProductPos(told as real, u); }
  }

  /** When a term has vanished: how far any longer partial sum is away. */
  lemma Bound(x: real, l: nat, s: nat, q: nat, u: real, n: nat)
    requires 0.0 < x < 0.5 && 1 <= l <= n && SumOk(x, l, s, q, u) && Close(Term(x, l), 0.0, l, u)
    ensures 0.0 <= Sum(x, n) - s as real * u < (3 * l * (l + 1)) as real * R2(-(q as int))
  {
    hide R2, Pow2, Term, Sum;
    TailBound(x, l, n);
    TermPositive(x, n);
    R2Step(-(q as int));
    var h := R2(-(q as int));
    EnoughUlps(l);
    BoundPlain(Sum(x, n) - s as real * u, 2.0 * l as real - 1.0, if l == 1 then 1.0 else 2.0, u, h, (3 * l * (l + 1)) as real);
  }

  lemma BoundPlain(e: real, c: real, d: real, u: real, h: real, big: real)
    requires u == 2.0 * h && h > 0.0 && e < c * u + d * u && big > 2.0 * c + 2.0 * d
    ensures e < big * h
  {
    RealExpand(c, d, u);
    RealTwice(c + d, h);
    RealMono(big, 2.0 * (c + d), h);
  }

  lemma EnoughUlps(l: nat)
    requires l >= 1
    ensures (3 * l * (l + 1)) as real > 2.0 * (2.0 * l as real - 1.0) + 2.0 * (if l == 1 then 1.0 else 2.0)
  {
    if l == 1 {
      assert 3 * l * (l + 1) == 6;
    } else {
      MulMono(2, l, 3 * (l + 1));
      assert 3 * l * (l + 1) == l * (3 * (l + 1));
      assert 3 * l * (l + 1) > 4 * l + 2;
    }
  }

  /** mpfr_exp2_aux, for an argument x = rr * 2^expr of at least q bits. */
  method ExpSeries(m: nat, e: int, p: nat, q: nat, ghost x: real) returns (s: nat, exps: int, err: nat, l: nat)
    requires IsSignificand(p, m) && e < 0 && 1 <= q <= p && x == FloatValue(p, m, e)
    ensures exps == 1 - q && err == 3 * l * (l + 1) && l >= 1
    ensures s as real * R2(exps) <= Sum(x, l)
    ensures forall n: nat :: n >= l ==> 0.0 <= Sum(x, n) - s as real * R2(exps) < err as real * R2(-(q as int))
  {
    hide R2, Pow2, Term, Sum, SizeInBase2, Close, SumOk, ArgOk, FloatValue, IsSignificand;
    ghost var u := R2(1 - q as int);
    var t, expt, rr, expr := 1, 0, m, e - p;
    s, exps := Pow2(q - 1), 1 - q;
    l := 0;
    Start(m, e, p, q, x, u);
    while true
      invariant 0.0 < x < 0.5 && u == R2(1 - q as int)
      invariant SumOk(x, l, s, q, u) && TermOk(x, l, t, expt, q, u) && ArgOk(x, l, t, rr, expr)
      invariant if l == 0 then expt == 0 && expr <= 1 - q else expt == 1 - q
      decreases l == 0, t
    {
      l := l + 1;
      ArgExponent(x, l - 1, t, rr, expr);
      ghost var told := t;
      t, expt := NextTruncated(s, t, expt, rr, expr, q, l, x, u);
      NextSum(x, l, s, t, q, u);
      if t == 0 { break; }
      TermHolds(x, l, t, q, u);
      if l > 1 { Shrinks(t, told, u); }
      s := s + t;
      rr, expr := NextArgument(t, rr, expr, l, x, told);
    }
    ErrorUnits(l);
    err := 3 * l * (l + 1);
    forall n: nat | n >= l ensures 0.0 <= Sum(x, n) - s as real * R2(exps) < err as real * R2(-(q as int)) {
      Bound(x, l, s, q, u, n);
    }
    assert s as real * R2(exps) <= Sum(x, l);
  }

  lemma ErrorUnits(l: nat)
    ensures 3 * l * (l + 1) >= 0
  {}
}

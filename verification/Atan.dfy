/** atan.c: the arctangent series at p/2^r by binary splitting on a stack, in
    integers; pairs of terms are pushed, and p = 1 is treated apart. */
module Atan {
  import opened Powers
  import opened RealPowers
  import opened Streams
  import opened BinaryCounter
  import opened Splitting

  /** (2a + 1) (2a + 3) ... (2b - 1). */
  function Odds(a: nat, b: nat): int
    decreases b - a
  {
    if a >= b then 1 else (2 * a + 1) * Odds(a + 1, b)
  }

  lemma {:induction false} OddsPositive(a: nat, b: nat)
    ensures Odds(a, b) >= 1
    decreases b - a
  {
    if a < b {
      OddsPositive(a + 1, b);
      MulMono(1, 2 * a + 1, Odds(a + 1, b));
    }
  }

  lemma {:induction false} OddsSplit(a: nat, c: nat, b: nat)
    requires a <= c <= b
    ensures Odds(a, b) == Odds(a, c) * Odds(c, b)
    decreases c - a
  {
    if a < c {
      OddsSplit(a + 1, c, b);
      MulAssoc(2 * a + 1, Odds(a + 1, c), Odds(c, b));
    }
  }

  /** The terms a, ..., b - 1 of the series over their common denominator:
      sum of (-p)^(t-a) * 2^(r(b-1-t)) * Odds(a, b) / (2t + 1). */
  function Terms(p: int, r: nat, a: nat, b: nat): int
    decreases b - a
  {
    if a >= b then 0 else Odds(a + 1, b) * Pow2(r * (b - 1 - a)) - p * (2 * a + 1) * Terms(p, r, a + 1, b)
  }

  /** How the code joins two runs: t = left * q2 * v + w * q1 * right. */
  predicate Joins(t: int, left: int, q2: int, v: int, w: int, q1: int, right: int) { t == left * q2 * v + w * q1 * right }

  /** How a run is joined with its first term. */
  predicate Steps(t: int, q: int, u: int, p: int, n: int, rest: int) { t == q * u + p * n * rest }

  lemma {:induction false} TermsJoin(p: int, r: nat, a: nat, c: nat, b: nat)
    requires a <= c <= b
    ensures Joins(Terms(p, r, a, b), Terms(p, r, a, c), Odds(c, b), Pow2(r * (b - c)), Power(-p, c - a), Odds(a, c), Terms(p, r, c, b))
    decreases c - a
  {
    hide Odds, Pow2, Terms, Joins, Steps, Power;
    if a < c {
      TermsStep(p, r, a, b);
      TermsStep(p, r, a, c);
      TermsJoin(p, r, a + 1, c, b);
      OddsSplit(a + 1, c, b);
      ShiftSplit(r, b - c, c - 1 - a);
      PowerFirst(-p, c - a);
      JoinStep(-p, 2 * a + 1, Odds(a + 1, c), Odds(c, b), Pow2(r * (c - 1 - a)), Pow2(r * (b - c)), Terms(p, r, a + 1, c),
               Power(-p, c - a - 1), Terms(p, r, c, b), Odds(a + 1, b), Pow2(r * (b - 1 - a)), Terms(p, r, a + 1, b),
               Odds(a, c), Terms(p, r, a, c), Power(-p, c - a), Terms(p, r, a, b));
    } else {
      EmptyRun(p, r, a);
      EmptyJoin(Terms(p, r, c, b), Odds(c, b), Pow2(r * (b - c)));
    }
  }

  lemma EmptyRun(p: int, r: nat, a: nat)
    ensures Terms(p, r, a, a) == 0 && Odds(a, a) == 1 && Power(-p, 0) == 1
  {}

  lemma EmptyJoin(t: int, q: int, v: int)
    ensures Joins(t, 0, q, v, 1, 1, t)
  {}

  lemma ShiftSplit(r: nat, m: nat, n: nat)
    ensures Pow2(r * (m + n)) == Pow2(r * m) * Pow2(r * n)
  {
    hide Pow2;
    Distrib(m, n, r);
    MulMono(0, m, r);
    MulMono(0, n, r);
    Pow2Add(r * m, r * n);
  }

  lemma TermsStep(p: int, r: nat, a: nat, b: nat)
    requires a < b
    ensures Steps(Terms(p, r, a, b), Odds(a + 1, b), Pow2(r * (b - 1 - a)), -p, 2 * a + 1, Terms(p, r, a + 1, b))
    ensures Odds(a, b) == (2 * a + 1) * Odds(a + 1, b)
  {
    hide Terms, Odds, Pow2;
    Unfold(p, r, a, b, 0.0);
    assert -p * (2 * a + 1) * Terms(p, r, a + 1, b) == -(p * (2 * a + 1) * Terms(p, r, a + 1, b));
  }

  lemma JoinStep(p: int, n: int, q1: int, q2: int, u: int, v: int, t: int, w: int, s: int,
                 q: int, vu: int, tb: int, nq: int, ta: int, pw: int, t': int)
    requires q == q1 * q2 && vu == v * u && Joins(tb, t, q2, v, w, q1, s) && nq == n * q1 && Steps(ta, q1, u, p, n, t) && pw == p * w
    requires Steps(t', q, vu, p, n, tb)
    ensures Joins(t', ta, q2, v, pw, nq, s)
  {
    Distrib(q1 * u, p * n * t, q2);
    Distrib(q1 * u * q2, p * n * t * q2, v);
    Distrib(t * q2 * v, w * q1 * s, p * n);
    FourFactors(q1, q2, v, u);
    MulAssoc(p * n, t * q2, v);
    MulAssoc(p * n, t, q2);
    FiveFactors(p, n, w, q1, s);
  }

  lemma FiveFactors(p: int, n: int, w: int, q: int, s: int)
    ensures p * n * (w * q * s) == (p * w) * (n * q) * s
  {
    MulAssoc(p * n, w * q, s);
    FourSwap(p, n, w, q);
  }

  /** An even power does not see the sign. */
  lemma {:induction false} EvenPower(p: int, n: nat)
    requires n % 2 == 0
    ensures Power(-p, n) == Power(p, n)
  {
    if n > 0 {
      EvenPower(p, n - 2);
      assert -p * (-p * Power(p, n - 2)) == p * (p * Power(p, n - 2));
      assert Power(p, n) == p * (p * Power(p, n - 2)) && Power(-p, n) == -p * (-p * Power(-p, n - 2));
    }
  }

  // ---- what the series means ----------------------------------------------------------

  /** sum of (-X)^t / (2t + 1) for t < n. */
  function PartialAtan(x: real, n: nat): real {
    if n == 0 then 0.0 else PartialAtan(x, n - 1) + RealPower(-x, n - 1) / (2 * n - 1) as real
  }

  /** sum of (-X)^(t-a) / (2t + 1) for a <= t < b. */
  function Tail(x: real, a: nat, b: nat): real
    decreases b - a
  {
    if a >= b then 0.0 else 1.0 / (2 * a + 1) as real - x * Tail(x, a + 1, b)
  }

  /** t is tail over the common denominator q * d. */
  predicate Means(t: int, q: int, d: int, tail: real) { t as real == q as real * d as real * tail }

  predicate IsRatio(x: real, p: int, d: int) { x * d as real == p as real }

  lemma {:induction false} TermsMeaning(p: int, r: nat, a: nat, b: nat, e: nat, x: real)
    requires a < b && e == r * (b - 1 - a) && IsRatio(x, p, Pow2(r))
    ensures Means(Terms(p, r, a, b), Odds(a, b), Pow2(e), Tail(x, a, b))
    decreases b - a
  {
    hide Pow2, Terms, Odds, Tail, Means, IsRatio;
    if b == a + 1 {
      Pow2Zero();
      SingleTerm(p, r, a, x);
    } else {
      ShiftStep(r, b - 1 - a, e);
      TermsMeaning(p, r, a + 1, b, e - r, x);
      OneMore(p, r, a, b, e, x);
    }
  }

  lemma OneMore(p: int, r: nat, a: nat, b: nat, e: nat, x: real)
    requires a + 1 < b && e == r * (b - 1 - a) && e >= r && IsRatio(x, p, Pow2(r))
    requires Means(Terms(p, r, a + 1, b), Odds(a + 1, b), Pow2(e - r), Tail(x, a + 1, b))
    ensures Means(Terms(p, r, a, b), Odds(a, b), Pow2(e), Tail(x, a, b))
  {
    hide Pow2, Terms, Odds, Tail, Means, IsRatio;
    var t, q, tail := Terms(p, r, a + 1, b), Odds(a + 1, b), Tail(x, a + 1, b);
    Pow2Add(r, e - r);
    Unfold(p, r, a, b, x);
    MeaningStep(p, x, Pow2(r), Pow2(e - r), Pow2(e), 2 * a + 1, q, t, tail, Terms(p, r, a, b), Odds(a, b), Tail(x, a, b));
  }

  lemma ShiftStep(r: nat, n: nat, e: int)
    requires e == r * n && n >= 1
    ensures e >= r && e - r == r * (n - 1)
  {
    Distrib(1, n - 1, r);
    MulMono(0, n - 1, r);
    MulComm(r, n - 1);
  }

  lemma Unfold(p: int, r: nat, a: nat, b: nat, x: real)
    requires a < b
    ensures Terms(p, r, a, b) == Odds(a + 1, b) * Pow2(r * (b - 1 - a)) - p * (2 * a + 1) * Terms(p, r, a + 1, b)
    ensures Odds(a, b) == (2 * a + 1) * Odds(a + 1, b)
    ensures Tail(x, a, b) == 1.0 / (2 * a + 1) as real - x * Tail(x, a + 1, b)
    ensures Terms(p, r, b, b) == 0 && Odds(b, b) == 1 && Tail(x, b, b) == 0.0
  {
    hide Pow2;
  }

  lemma SingleTerm(p: int, r: nat, a: nat, x: real)
    ensures Means(Terms(p, r, a, a + 1), Odds(a, a + 1), 1, Tail(x, a, a + 1))
  {
    hide Pow2, Terms, Odds, Tail, Means;
    Pow2Zero();
    Unfold(p, r, a, a + 1, x);
    assert r * (a + 1 - 1 - a) == 0;
    assert p * (2 * a + 1) * 0 == 0 && x * 0.0 == 0.0;
    Reciprocal(2 * a + 1);
  }

  lemma Reciprocal(n: int)
    requires n >= 1
    ensures Means(1, n, 1, 1.0 / n as real)
  {
    var y := 1.0 / n as real;
    assert y * n as real == 1.0;
  }

  lemma MeaningStep(p: int, x: real, d: int, u: int, du: int, n: int, q: int, t: int, tail: real, t': int, q': int, tail': real)
    requires d >= 1 && n >= 1 && du == d * u && IsRatio(x, p, d) && Means(t, q, u, tail)
    requires t' == q * du - p * n * t && q' == n * q && tail' == 1.0 / n as real - x * tail
    ensures Means(t', q', du, tail')
  {
    var y := 1.0 / n as real;
    CastProduct(n, q);
    CastProduct(d, u);
    CastProduct(q, d * u);
    CastProduct(p, n);
    CastProduct(p * n, t);
    MeaningProduct(n as real, q as real, d as real, u as real, y, tail, x, p as real, t as real);
  }

  lemma MeaningProduct(n: real, q: real, d: real, u: real, y: real, tail: real, x: real, p: real, t: real)
    requires y * n == 1.0 && x * d == p && t == q * u * tail
    ensures (n * q) * (d * u) * (y - x * tail) == q * (d * u) - p * n * t
  {
    var w := (n * q) * (d * u);
    RealTwoParts(w, y, x * tail);
    assert w * y == q * (d * u) by {
      assert w == n * (q * (d * u)) by { RealRegroup2(n, q, d * u); }
      RealComm(w, y);
      RealRegroup2(y, n, q * (d * u));
    }
    assert w * (x * tail) == p * n * t by {
      RealFour(n, q, d, u);
      RealFour(n * d, q * u, x, tail);
      assert (n * d) * x == p * n by {
        RealComm(n, d);
        RealComm(d * n, x);
        RealRegroup2(x, d, n);
      }
    }
  }

  /** (-X)^a times the tail. */
  function TermsFrom(x: real, a: nat, b: nat): real { RealPower(-x, a) * Tail(x, a, b) }

  lemma OneTerm(x: real, a: nat, b: nat)
    ensures a >= b ==> TermsFrom(x, a, b) == 0.0
    ensures a < b ==> TermsFrom(x, a, b) == RealPower(-x, a) / (2 * a + 1) as real + TermsFrom(x, a + 1, b)
  {
    hide RealPower;
    if a < b {
      RealPowerFirst(-x, a);
      var w, t := RealPower(-x, a), Tail(x, a + 1, b);
      RealTwoParts(w, 1.0 / (2 * a + 1) as real, x * t);
      assert (-x * w) * t == -(w * (x * t));
      QuotientIs(w, (2 * a + 1) as real);
    }
  }

  lemma QuotientIs(w: real, n: real)
    requires n > 0.0
    ensures w * (1.0 / n) == w / n
  {}

  lemma {:induction false} TailIsSum(x: real, a: nat, b: nat)
    requires a <= b
    ensures PartialAtan(x, b) == PartialAtan(x, a) + TermsFrom(x, a, b)
    decreases b - a
  {
    hide TermsFrom, RealPower;
    OneTerm(x, a, b);
    if a < b { TailIsSum(x, a + 1, b); }
  }

  /** The integers computed by the stack are the partial sum, exactly. */
  lemma SplittingIsSeries(p: int, r: nat, n: nat)
    requires n >= 1
    ensures Means(Terms(p, r, 0, n), Odds(0, n), Pow2(r * (n - 1)), PartialAtan(p as real / Pow2(r) as real, n))
  {
    hide Pow2, Tail, Terms, Odds, Means;
    var x := p as real / Pow2(r) as real;
    assert IsRatio(p as real / Pow2(r) as real, p, Pow2(r));
    MulMono(0, n - 1, r);
    MulComm(r, n - 1);
    TermsMeaning(p, r, 0, n, r * (n - 1), x);
    TailIsSum(x, 0, n);
  }

  // ---- what is left out ----------------------------------------------------------------

  lemma {:induction false} TailBound(x: real, a: nat, b: nat)
    requires 0.0 <= x <= 1.0
    ensures 0.0 <= Tail(x, a, b) <= 1.0 / (2 * a + 1) as real
    decreases b - a
  {
    if a < b {
      TailBound(x, a + 1, b);
      Smaller(2 * a + 1);
      var t := Tail(x, a + 1, b);
      RealNonNegative(x, t);
      RealNonNegative(1.0 - x, t);
      assert (1.0 - x) * t == t - x * t;
    }
  }

  lemma Smaller(n: int)
    requires n >= 1
    ensures 0.0 < 1.0 / (n + 2) as real <= 1.0 / n as real <= 1.0
  {
    var g, h := 1.0 / n as real, 1.0 / (n + 2) as real;
    assert g * n as real == 1.0 && h * (n + 2) as real == 1.0;
    RealMono(g, 1.0, n as real);
    RealExpand3(h, n);
    if h <= 0.0 { RealNonNegative(-h, (n + 2) as real); }
    RealMono(h, g, n as real);
  }

  lemma RealExpand3(h: real, n: int)
    ensures h * (n + 2) as real == h * n as real + 2.0 * h
  {}

  /** Once enough terms have been summed, every longer partial sum is within 2^(-mu). */
  lemma LongerSums(x: real, i: nat, mu: int, n: nat)
    requires 0.0 <= x <= 1.0 && i <= n && RealPower(x, i) <= R2(-mu)
    ensures RealAbs(PartialAtan(x, n) - PartialAtan(x, i)) <= R2(-mu)
  {
    hide R2, RealPower, Tail, PartialAtan;
    TailIsSum(x, i, n);
    TailBound(x, i, n);
    Smaller(2 * i + 1);
    AbsRealPower(-x, i);
    RealPowerSign(x, i);
    assert RealAbs(-x) == x;
    AbsProductAtMost(RealPower(-x, i), Tail(x, i, n), R2(-mu), 1.0);
  }

  // ---- the stack --------------------------------------------------------------------------

  /** Entry e holds the terms st[e], ..., st[e + 1] - 1, an even number of them. */
  ghost predicate Holds(sS: seq<int>, sQ: seq<int>, lg: seq<nat>, st: seq<nat>, k: nat, p: int, r: nat) {
    && Filled(sS, st, k + 1, TermsOf(p, r)) && Filled(sQ, st, k + 1, OddsOf())
    && k < |lg| && forall e :: 0 <= e <= k ==> lg[e] >= 1
  }

  /** x = p/2^r. */
  predicate Argument(x: real, p: int, r: nat) { p >= 1 && 0.0 <= x <= 1.0 && x * Pow2(r) as real == p as real }

  /** atan.c:175-176: accu[e] is such that X^n <= 2^(-accu[e]) for the n terms in the
      entries 0, ..., e.  An entry that is still a single pair has none. */
  ghost predicate Bounded(accu: seq<int>, lg: seq<nat>, st: seq<nat>, n: nat, x: real) {
    n <= |accu| && n <= |lg| && n < |st| && forall e :: 0 <= e < n && lg[e] >= 2 ==> Reaches(x, st[e + 1], accu[e], 1)
  }

  /** atan.c:210-211: what a merged entry of c terms contributes. */
  lemma Contribution(x: real, p: int, r: nat, a: nat, c: nat, nu: int)
    requires Argument(x, p, r) && (a > 0 ==> Reaches(x, a, nu, 1))
    ensures Reaches(x, a + c, (if a == 0 then 0 else nu) + (r * c - SizeInBase2(Abs(Power(p, c))) - 1), 1)
  {
    hide R2, Pow2, Power, RealPower, SizeInBase2, Reaches;
    PowerReaches(x, p, r, c);
    var mu := r * c - SizeInBase2(Abs(Power(p, c)));
    ReachesLess(x, c, mu, mu - 1, 1);
    if a > 0 { ReachesBoth(x, a, c, nu, mu - 1, 1, 1); }
  }

  /** The entry below two equal ones is larger, hence a merged one. */
  lemma LowerIsMerged(lg: seq<nat>, st: seq<nat>, k: nat)
    requires Sizes(lg, st, k) && Aligned(lg, st, k) && k >= 2 && lg[k - 1] >= 1
    ensures lg[k - 2] >= 2
  {
    hide Pow2;
    var m, l := lg[k - 2], lg[k - 1];
    assert st[k - 1] == st[k - 2] + Pow2(m);
    assert st[k - 1] % Pow2(l + 1) == 0 && st[k - 2] % Pow2(m + 1) == 0;
    EvenPart(st[k - 2], m);
    EvenPart(st[k - 1], l);
    OddMultiple(st[k - 1], st[k - 2] / Pow2(m + 1), m, st[k - 1] / Pow2(l + 1), l);
  }

  lemma EntryBound(accu: seq<int>, lg: seq<nat>, st: seq<nat>, n: nat, x: real, e: nat)
    requires Bounded(accu, lg, st, n, x) && e < n && lg[e] >= 2
    ensures |accu| > e && |st| > e + 1 && Reaches(x, st[e + 1], accu[e], 1)
  {}

  lemma MergedBounded(accu: seq<int>, accu': seq<int>, lg: seq<nat>, lg': seq<nat>, st: seq<nat>, k: nat, x: real)
    requires k >= 1 && |st| == k + 2 && k < |accu| == |accu'| && k < |lg| == |lg'| && Bounded(accu, lg, st, k, x)
    requires forall e :: 0 <= e < k - 1 ==> accu'[e] == accu[e] && lg'[e] == lg[e]
    ensures Bounded(accu', lg', st[..k] + [st[k + 1]], k - 1, x)
  {
    hide Reaches;
    var st' := st[..k] + [st[k + 1]];
    assert forall e :: 0 <= e < k ==> st'[e] == st[e];
  }

  /** The last entry joins. */
  lemma TopBounded(accu: seq<int>, lg: seq<nat>, st: seq<nat>, k: nat, x: real)
    requires Bounded(accu, lg, st, k, x) && |st| == k + 2 && k < |accu| && k < |lg|
    requires lg[k] >= 2 ==> Reaches(x, st[k + 1], accu[k], 1)
    ensures Bounded(accu, lg, st, k + 1, x)
  {
    hide Reaches;
  }

  /** A new pair on top. */
  lemma PushedBounded(accu: seq<int>, lg: seq<nat>, lg': seq<nat>, st: seq<nat>, k: nat, i: nat, x: real)
    requires Bounded(accu, lg, st, k, x) && |st| == k + 1 && |lg'| == |lg| && forall e :: 0 <= e < k ==> lg'[e] == lg[e]
    ensures Bounded(accu, lg', st + [i], k, x)
  {
    hide Reaches;
    var st' := st + [i];
    assert forall e :: 0 <= e <= k ==> st'[e] == st[e];
  }

  function TermsOf(p: int, r: nat): (nat, nat) -> int { (a: nat, b: nat) => Terms(p, r, a, b) }

  function OddsOf(): (nat, nat) -> int { (a: nat, b: nat) => Odds(a, b) }

  /** atan.c:202-207, 251-258: entry k is merged into entry k - 1, which has an even
      number of terms; power = p^(that number), and is left out when p = 1. */
  method Combine(sS: array<int>, sQ: array<int>, k: nat, power: int, shift: nat, ghost p: int, ghost r: nat, ghost st: seq<nat>)
    requires sS != sQ && 1 <= k < sS.Length && k < sQ.Length && |st| >= k + 2
    requires st[k - 1] <= st[k] <= st[k + 1] && (st[k] - st[k - 1]) % 2 == 0
    requires shift == r * (st[k + 1] - st[k]) && power == Power(p, st[k] - st[k - 1])
    requires sS[k - 1] == Terms(p, r, st[k - 1], st[k]) && sQ[k - 1] == Odds(st[k - 1], st[k])
    requires sS[k] == Terms(p, r, st[k], st[k + 1]) && sQ[k] == Odds(st[k], st[k + 1])
    modifies sS, sQ
    ensures sS[k - 1] == Terms(p, r, st[k - 1], st[k + 1]) && sQ[k - 1] == Odds(st[k - 1], st[k + 1])
    ensures forall e :: 0 <= e < k - 1 ==> sS[e] == old(sS[e]) && sQ[e] == old(sQ[e])
  {
    hide Pow2, Terms, Odds, Power;
    ghost var left, right, q1, q2 := sS[k - 1], sS[k], sQ[k - 1], sQ[k];
    TermsJoin(p, r, st[k - 1], st[k], st[k + 1]);
    EvenPower(p, st[k] - st[k - 1]);
    OddsSplit(st[k - 1], st[k], st[k + 1]);
    sS[k] := sS[k] * sQ[k - 1];
    if power != 1 { sS[k] := sS[k] * power; }
    sS[k - 1] := sS[k - 1] * sQ[k];
    sS[k - 1] := sS[k - 1] * Pow2(shift);
    sS[k - 1] := sS[k - 1] + sS[k];
    sQ[k - 1] := sQ[k - 1] * sQ[k];
    ThreeFactors(right, q1, power);
  }

  lemma ThreeFactors(s: int, q: int, w: int)
    ensures s * q * w == w * q * s
  {
    MulComm(s, q);
    MulAssoc(q, s, w);
    MulComm(s, w);
    MulAssoc(q, w, s);
    MulComm(q, w);
  }

  lemma EvenSize(l: nat)
    requires l >= 1
    ensures Pow2(l) % 2 == 0
  {
    hide Pow2;
    Pow2Step(l - 1);
  }

  lemma {:induction false} PowerOfOne(n: nat)
    ensures Power(1, n) == 1
  {
    if n > 0 { PowerOfOne(n - 1); }
  }

  /** The power with which the code multiplies, if it does. */
  function TablePower(ptoj: seq<int>, general: bool, l: nat): int
    requires general ==> l < |ptoj|
  {
    if general then ptoj[l] else 1
  }

  ghost predicate PowersOf(ptoj: seq<int>, general: bool, p: int) {
    if general then forall e :: 0 <= e < |ptoj| ==> ptoj[e] == Power(p, Pow2(e)) else p == 1
  }

  lemma TablePowerIs(ptoj: seq<int>, general: bool, l: nat, p: int)
    requires PowersOf(ptoj, general, p) && (general ==> l < |ptoj|)
    ensures TablePower(ptoj, general, l) == Power(p, Pow2(l))
  {
    PowerOfOne(Pow2(l));
  }

  /** atan.c:202-208, 235-240: the last two entries, of 2^l terms each, become one. */
  method MergeTop(sS: array<int>, sQ: array<int>, lg: array<nat>, k: nat, power: int, shift: nat, l: nat, ghost p: int, ghost r: nat,
                  ghost st: seq<nat>)
    requires sS != sQ && 1 <= k < sS.Length == sQ.Length == lg.Length && lg[k] == lg[k - 1] == l && l >= 1
    requires Holds(sS[..], sQ[..], lg[..], st, k, p, r) && Sizes(lg[..], st, k) && Aligned(lg[..], st, k)
    requires power == Power(p, Pow2(l)) && shift == r * Pow2(l)
    modifies sS, sQ, lg
    ensures |st| == k + 2 && st[k] == st[k - 1] + Pow2(l) && st[k + 1] == st[k] + Pow2(l)
    ensures var st' := st[..k] + [st[k + 1]];
            Holds(sS[..], sQ[..], lg[..], st', k - 1, p, r) && Sizes(lg[..], st', k - 1) && Aligned(lg[..], st', k - 1)
    ensures lg[..] == old(lg[..])[k - 1 := l + 1]
  {
    hide Pow2, Terms, Odds, Power, Filled, Sizes, Aligned;
    ghost var tS, tQ, tl := sS[..], sQ[..], lg[..];
    FilledParts(tS, st, k + 1, TermsOf(p, r));
    FilledParts(tQ, st, k + 1, OddsOf());
    EntrySizes(tl, st, k);
    EvenSize(l);
    Combine(sS, sQ, k, power, shift, p, r, st);
    lg[k - 1] := l + 1;
    FilledMerged(tS, sS[..], st, k + 1, TermsOf(p, r));
    FilledMerged(tQ, sQ[..], st, k + 1, OddsOf());
    Merge(tl, st, lg[..], k, l);
  }

  /** atan.c:210-214: the multiplier after entries k - 1 and k, of 2^l terms each, have
      become one of c terms. */
  method Raise(accu: array<int>, k: nat, power: int, shift: nat, done0: bool, precy: int, ghost p: int, ghost r: nat, ghost c: nat,
               ghost x: real, ghost lg: seq<nat>, ghost st: seq<nat>) returns (done: bool)
    requires 1 <= k < accu.Length && |st| == k + 2 && |lg| == accu.Length && Bounded(accu[..], lg, st, k, x) && Argument(x, p, r)
    requires st[0] == 0 && st[k + 1] == st[k - 1] + c && (k >= 2 ==> lg[k - 2] >= 2 && st[k - 1] > 0)
    requires power == Power(p, c) && shift == r * c && (done0 ==> Reaches(x, st[k + 1], precy, 1))
    modifies accu
    ensures forall e :: 0 <= e < k - 1 ==> accu[e] == old(accu[e])
    ensures Reaches(x, st[k + 1], accu[k - 1], 1) && (done ==> Reaches(x, st[k + 1], precy, 1))
  {
    hide Pow2, Power, Reaches, SizeInBase2;
    if k >= 2 { EntryBound(accu[..], lg, st, k, x, k - 2); }
    Contribution(x, p, r, st[k - 1], c, if k >= 2 then accu[k - 2] else 0);
    var mult := shift - SizeInBase2(Abs(power)) - 1;
    accu[k - 1] := if k == 1 then mult else accu[k - 2] + mult;
    done := done0;
    if accu[k - 1] > precy {
      ReachesLess(x, st[k + 1], accu[k - 1], precy, 1);
      done := true;
    }
  }

  /** atan.c:197-215, 232-241: the last entry is a new pair; merge equal neighbours. */
  method Carry(sS: array<int>, sQ: array<int>, lg: array<nat>, accu: array<int>, ptoj: seq<int>, general: bool, k0: nat, j0: nat,
               done0: bool, precy: int, m: nat, r: nat, ghost p: int, ghost x: real, ghost st0: seq<nat>)
    returns (k: nat, done: bool, ghost st: seq<nat>)
    requires sS != sQ && sS != accu && sQ != accu && k0 < sS.Length == sQ.Length == lg.Length == accu.Length
    requires PowersOf(ptoj, general, p) && (general ==> |ptoj| == m + 1 && j0 <= Pow2(m))
    requires Holds(sS[..], sQ[..], lg[..], st0, k0, p, r) && Sizes(lg[..], st0, k0) && Aligned(lg[..], st0, k0)
    requires lg[k0] == 1 && |st0| == k0 + 2 && st0[k0 + 1] == j0 >= 2 && j0 % 2 == 0
    requires Argument(x, p, r) && (general ==> Bounded(accu[..], lg[..], st0, k0, x) && (done0 ==> Reaches(x, j0, precy, 1)))
    modifies sS, sQ, lg, accu
    ensures k < sS.Length && Holds(sS[..], sQ[..], lg[..], st, k, p, r) && Sizes(lg[..], st, k) && Aligned(lg[..], st, k + 1)
    ensures |st| == k + 2 && st[k + 1] == j0
    ensures if general then Bounded(accu[..], lg[..], st, k + 1, x) && (done ==> Reaches(x, j0, precy, 1)) else done == done0
  {
    hide Pow2, Terms, Odds, Power, Holds, Sizes, Aligned, PowersOf, TablePower, Bounded, Reaches, Argument, SizeInBase2;
    k, done, st := k0, done0, st0;
    var j: nat, l := j0 / 2, 1;
    Pow2Two();
    while j % 2 == 0
      invariant k < sS.Length && Holds(sS[..], sQ[..], lg[..], st, k, p, r) && Sizes(lg[..], st, k) && Aligned(lg[..], st, k)
      invariant lg[k] == l >= 1 && |st| == k + 2 && st[k + 1] == j0 == j * Pow2(l) && j >= 1
      invariant if general then Bounded(accu[..], lg[..], st, k, x) && (done ==> Reaches(x, j0, precy, 1)) else done == done0
      invariant general && l >= 2 ==> Reaches(x, j0, accu[k], 1)
      decreases j
    {
      EqualNeighbours(lg[..], st, k, j, l);
      if general { LevelBelow(j, l, m); }
      HalfOf(j, Pow2(l), l);
      ghost var tl, ta := lg[..], accu[..];
      TablePowerIs(ptoj, general, l, p);
      if k >= 2 { LowerIsMerged(tl, st, k); }
      StackStart(tl, st, k);
      MergeTop(sS, sQ, lg, k, TablePower(ptoj, general, l), r * Pow2(l), l, p, r, st);
      if general {
        TableEntry(ptoj, l + 1, p);
        Pow2Step(l);
        done := Raise(accu, k, ptoj[l + 1], r * Pow2(l + 1), done, precy, p, r, Pow2(l + 1), x, tl, st);
        MergedBounded(ta, accu[..], tl, lg[..], st, k, x);
      }
      st := st[..k] + [st[k + 1]];
      l, j, k := l + 1, j / 2, k - 1;
    }
    AlignedTop(lg[..], st, k, j, l);
    if general { TopBounded(accu[..], lg[..], st, k, x); }
  }

  lemma StackStart(lg: seq<nat>, st: seq<nat>, k: nat)
    requires Sizes(lg, st, k) && k >= 1
    ensures |st| == k + 2 && st[0] == 0 && (k >= 2 ==> st[k - 1] > 0)
  {
    hide Pow2;
    if k >= 2 { assert st[k - 1] == st[k - 2] + Pow2(lg[k - 2]); }
  }

  lemma TableEntry(ptoj: seq<int>, l: nat, p: int)
    requires PowersOf(ptoj, true, p) && l < |ptoj|
    ensures ptoj[l] == Power(p, Pow2(l))
  {}

  // ---- pushing pairs ------------------------------------------------------------------

  /** The stack with n entries, which may be none. */
  ghost predicate Stack(sS: seq<int>, sQ: seq<int>, lg: seq<nat>, st: seq<nat>, n: nat, i: nat, p: int, r: nat) {
    && |st| == n + 1 && st[n] == i && (n == 0 ==> st[0] == 0)
    && (n > 0 ==> Holds(sS, sQ, lg, st, n - 1, p, r) && Sizes(lg, st, n - 1) && Aligned(lg, st, n))
  }

  /** atan.c:190-196, 227-231: the terms i and i + 1. */
  method PushPair(sS: array<int>, sQ: array<int>, lg: array<nat>, k: nat, i: nat, p: int, r: nat, ghost st: seq<nat>)
    requires sS != sQ && k + 1 < sS.Length == sQ.Length == lg.Length && Stack(sS[..], sQ[..], lg[..], st, k, i, p, r)
    modifies sS, sQ, lg
    ensures Holds(sS[..], sQ[..], lg[..], st + [i + 2], k, p, r) && Sizes(lg[..], st + [i + 2], k) && Aligned(lg[..], st + [i + 2], k)
    ensures lg[k] == 1 && forall e :: 0 <= e < k ==> lg[e] == old(lg[e])
  {
    hide Pow2, Terms, Odds;
    ghost var tS, tQ, tl := sS[..], sQ[..], lg[..];
    sQ[k + 1] := 2 * i + 3;
    sS[k + 1] := p * (2 * i + 1);
    sS[k] := sQ[k + 1] * Pow2(r);
    sS[k] := sS[k] - sS[k + 1];
    sQ[k] := sQ[k + 1] * (2 * i + 1);
    lg[k] := 1;
    PairIs(p, r, i);
    Pushed(tS, tQ, tl, sS[..], sQ[..], lg[..], st, k, i, p, r);
  }

  lemma PairIs(p: int, r: nat, i: nat)
    ensures Terms(p, r, i, i + 2) == (2 * i + 3) * Pow2(r) - p * (2 * i + 1)
    ensures Odds(i, i + 2) == (2 * i + 3) * (2 * i + 1)
  {
    hide Pow2;
    Unfold(p, r, i, i + 2, 0.0);
    Unfold(p, r, i + 1, i + 2, 0.0);
    Pow2Zero();
    MulComm(2 * i + 1, 2 * i + 3);
  }

  lemma Pushed(sS: seq<int>, sQ: seq<int>, lg: seq<nat>, tS: seq<int>, tQ: seq<int>, tl: seq<nat>, st: seq<nat>, k: nat, i: nat, p: int, r: nat)
    requires Stack(sS, sQ, lg, st, k, i, p, r)
    requires |tS| == |tQ| == |tl| == |sS| == |sQ| == |lg| && k < |sS|
    requires tS[k] == Terms(p, r, i, i + 2) && tQ[k] == Odds(i, i + 2) && tl[k] == 1
    requires forall e :: 0 <= e < k ==> tS[e] == sS[e] && tQ[e] == sQ[e] && tl[e] == lg[e]
    ensures Holds(tS, tQ, tl, st + [i + 2], k, p, r) && Sizes(tl, st + [i + 2], k) && Aligned(tl, st + [i + 2], k)
  {
    hide Pow2, Terms, Odds, Filled;
    Pow2Two();
    if k == 0 {
      NothingFilled(sS, TermsOf(p, r));
      NothingFilled(sQ, OddsOf());
      assert st == [0];
    }
    FilledPushed(sS, tS, st, k, i + 2, TermsOf(p, r));
    FilledPushed(sQ, tQ, st, k, i + 2, OddsOf());
    var st' := st + [i + 2];
    assert forall e :: 0 <= e < |st| ==> st'[e] == st[e];
    assert st'[k + 1] == i + 2 && st'[k] == i;
  }

  /** The cells of each table that are used.  The source reserves m + 1 of them, which
      is one too few for p = 1 and m = 1. */
  function Cells(general: bool, m: nat): nat { if !general && m == 1 then m + 2 else m + 1 }

  /** Every pair pushed fits: k entries hold at least 2^k terms, and 2^m terms are held
      by one entry. */
  lemma StackHeight(sS: seq<int>, sQ: seq<int>, lg: seq<nat>, st: seq<nat>, k: nat, i: nat, p: int, r: nat, general: bool, m: nat)
    requires Stack(sS, sQ, lg, st, k, i, p, r) && m > 0 && (if general then i < Pow2(m) else i <= Pow2(m))
    ensures k + 1 < Cells(general, m)
  {
    hide Pow2, Terms, Odds;
    if k > 0 {
      Height(lg, st, k - 1);
      Pow2Mono(k, lg[k - 1] + (k - 1));
      Exponents(k, m);
      if i == Pow2(m) { SingleEntry(lg, st, k - 1, m); }
    }
  }

  lemma StackAgain(sS: seq<int>, sQ: seq<int>, lg: seq<nat>, st: seq<nat>, k: nat, i: nat, p: int, r: nat)
    requires Holds(sS, sQ, lg, st, k, p, r) && Sizes(lg, st, k) && Aligned(lg, st, k + 1) && |st| == k + 2 && st[k + 1] == i
    ensures Stack(sS, sQ, lg, st, k + 1, i, p, r)
  {}

  /** atan.c:184-243.  The loop for p = 1 is the general one without the powers of p
      and without the early exit. */
  method MainLoop(sS: array<int>, sQ: array<int>, lg: array<nat>, accu: array<int>, ptoj: seq<int>, general: bool, n: nat, precy: int,
                  m: nat, r: nat, p: int, ghost x: real)
    returns (k: nat, i: nat, ghost st: seq<nat>)
    requires sS != sQ && sS != accu && sQ != accu && m > 0
    requires sS.Length == sQ.Length == lg.Length == accu.Length == Cells(general, m)
    requires PowersOf(ptoj, general, p) && (general ==> |ptoj| == m + 1 && n == Pow2(m)) && 1 <= n <= Pow2(m) + 1
    requires Argument(x, p, r) && (!general ==> n >= Pow2(m) || r * n > precy)
    modifies sS, sQ, lg, accu
    ensures 1 <= k <= sS.Length && 2 <= i <= Pow2(m) + 2 && (general ==> i <= Pow2(m))
    ensures Stack(sS[..], sQ[..], lg[..], st, k, i, p, r)
    ensures i >= Pow2(m) || Reaches(x, i, precy, 1)
  {
    hide Pow2, Terms, Odds, Power, Holds, Sizes, Aligned, PowersOf, Stack, Bounded, Reaches, Argument;
    accu[0] := 0;
    k, i, st := 0, 0, [0];
    var done := false;
    EvenSize(m);
    EmptyStack(sS[..], sQ[..], lg[..], p, r);
    assert Bounded(accu[..], lg[..], st, 0, x) by { NothingBounded(accu[..], lg[..], x); }
    while i < n && !done
      invariant i % 2 == 0 && i <= n + 1 && (general ==> i <= n) && (i > 0 ==> 1 <= k <= sS.Length) && (i == 0 ==> !done)
      invariant Stack(sS[..], sQ[..], lg[..], st, k, i, p, r)
      invariant if general then Bounded(accu[..], lg[..], st, k, x) && (done ==> Reaches(x, i, precy, 1)) else !done
      decreases n - i
    {
      StackHeight(sS[..], sQ[..], lg[..], st, k, i, p, r, general, m);
      ghost var sS0, sQ0, lg0 := sS[..], sQ[..], lg[..];
      PushPair(sS, sQ, lg, k, i, p, r, st);
      assert |st| == k + 1 by { StackEnd(sS0, sQ0, lg0, st, k, i, p, r); }
      assert (st + [i + 2])[k + 1] == i + 2;
      if general { PushedBounded(accu[..], lg0, lg[..], st, k, i + 2, x); }
      k, done, st := Carry(sS, sQ, lg, accu, ptoj, general, k, i + 2, done, precy, m, r, p, x, st + [i + 2]);
      StackAgain(sS[..], sQ[..], lg[..], st, k, i + 2, p, r);
      i, k := i + 2, k + 1;
    }
    if !general && i < Pow2(m) { UnitReaches(x, r, n, i, precy, ptoj, p); }
  }

  lemma NothingBounded(accu: seq<int>, lg: seq<nat>, x: real)
    ensures Bounded(accu, lg, [0], 0, x)
  {}

  /** p = 1: X^i = 2^(-r i). */
  lemma UnitReaches(x: real, r: nat, n: nat, i: nat, precy: int, ptoj: seq<int>, p: int)
    requires Argument(x, p, r) && PowersOf(ptoj, false, p) && i >= n && r * n > precy
    ensures Reaches(x, i, precy, 1)
  {
    hide R2, Pow2, RealPower, SizeInBase2;
    PowerScaled(x, 1, r, i, r * i);
    PowerOfOne(i);
    MulNat(r, i);
    R2Nat(r * i);
    MulMono(n, i, r);
    MulComm(r, n);
    MulComm(r, i);
    ReachesLess(x, i, r * i, precy, 1);
  }

  lemma StackEnd(sS: seq<int>, sQ: seq<int>, lg: seq<nat>, st: seq<nat>, k: nat, i: nat, p: int, r: nat)
    requires Stack(sS, sQ, lg, st, k, i, p, r)
    ensures |st| == k + 1
  {}

  lemma EmptyStack(sS: seq<int>, sQ: seq<int>, lg: seq<nat>, p: int, r: nat)
    ensures Stack(sS, sQ, lg, [0], 0, 0, p, r)
  {}

  /** atan.c:245-259. */
  method Accumulate(sS: array<int>, sQ: array<int>, lg: array<nat>, ptoj: seq<int>, general: bool, k0: nat, i: nat, m: nat, r: nat,
                    ghost p: int, ghost st0: seq<nat>)
    requires sS != sQ && 1 <= k0 <= sS.Length == sQ.Length == lg.Length
    requires PowersOf(ptoj, general, p) && (general ==> |ptoj| == m + 1 && i <= Pow2(m))
    requires Stack(sS[..], sQ[..], lg[..], st0, k0, i, p, r)
    modifies sS, sQ
    ensures sS[0] == Terms(p, r, 0, i) && sQ[0] == Odds(0, i)
  {
    hide Pow2, Terms, Odds, Power, Filled, PowersOf, TablePower;
    var k: nat, h: nat := k0, 0;
    ghost var st := st0;
    while k > 1
      invariant 1 <= k <= k0 && Holds(sS[..], sQ[..], lg[..], st, k - 1, p, r) && |st| == k + 1 && st[0] == 0 && st[k] == i
      invariant forall e :: 0 <= e < k - 1 ==> st[e + 1] == st[e] + Pow2(lg[e])
      invariant st[k] == st[k - 1] + Pow2(lg[k - 1]) + h
    {
      k := k - 1;
      var j := lg[k - 1];
      ghost var tS, tQ, tl := sS[..], sQ[..], lg[..];
      FilledParts(tS, st, k + 1, TermsOf(p, r));
      FilledParts(tQ, st, k + 1, OddsOf());
      assert st[k - 1 + 1] == st[k - 1] + Pow2(j);
      assert Pow2(j) < i;
      Exponents(j, m);
      EvenSize(j);
      TablePowerIs(ptoj, general, j, p);
      h := h + Pow2(lg[k]);
      Combine(sS, sQ, k, TablePower(ptoj, general, j), r * h, p, r, st);
      FilledMerged(tS, sS[..], st, k + 1, TermsOf(p, r));
      FilledMerged(tQ, sQ[..], st, k + 1, OddsOf());
      st := st[..k] + [st[k + 1]];
    }
    FilledOne(sS[..], st, TermsOf(p, r));
    FilledOne(sQ[..], st, OddsOf());
  }

  lemma SquareBelow(p: int, r: nat)
    requires 0 < p < Pow2(r)
    ensures 0 < p * p < Pow2(2 * r) == Pow2(r) * Pow2(r)
  {
    hide Pow2;
    Pow2Add(r, r);
    MulStrict(p, Pow2(r), p);
    MulStrict(p, Pow2(r), Pow2(r));
    MulComm(p, Pow2(r));
    MulStrict(0, p, p);
  }

  /** atan.c:145-182, 221-224: X = p/2^r is the square of the argument. */
  method Prepare(p0: int, r0: nat, m: nat, precy: nat) returns (p: int, r: nat, n: nat, general: bool, ptoj: seq<int>)
    requires 0 < p0 < Pow2(r0) && m > 0
    ensures PowersOf(ptoj, general, p) && (general ==> |ptoj| == m + 1 && n == Pow2(m)) && 1 <= n <= Pow2(m) + 1
    ensures !general ==> n >= Pow2(m) || r * n > precy
    ensures Argument(p as real / Pow2(r) as real, p, r)
    ensures p as real / Pow2(r) as real == (p0 * p0) as real / Pow2(2 * r0) as real
  {
    hide Pow2, Power;
    SquareBelow(p0, r0);
    p, r := Normalize(p0 * p0, 2 * r0);
    PositiveRatio(p0 * p0, 2 * r0, p, r);
    n := Pow2(m);
    general := p != 1;
    ptoj := [];
    if general {
      ptoj := PowerTable(p, m + 1);
    } else {
      var q := precy / r;
      DivLe(precy, r);
      NextQuotient(precy, r);
      if q <= n { n := q + 1; }
    }
  }

  lemma PositiveRatio(p0: int, r0: nat, p: int, r: nat)
    requires r <= r0 && p0 > 0 && p0 == p * Pow2(r0 - r) && Abs(p) < Pow2(r)
    ensures r >= 1 && Argument(p as real / Pow2(r) as real, p, r)
  {
    if r == 0 { Pow2Zero(); }
    hide Pow2;
    if p <= 0 { MulMono(p, 0, Pow2(r0 - r)); }
    FractionRange(p, Pow2(r), p as real / Pow2(r) as real);
  }

  lemma NextQuotient(x: nat, r: nat)
    requires r >= 1
    ensures r * (x / r + 1) > x
  {
    Distrib(x / r, 1, r);
    MulComm(r, x / r);
    MulComm(r, x / r + 1);
  }

  /** mpfr_atan_aux beyond the table, up to the final division: with i terms,
      sum / (den * 2^(r(i-1))) is the partial sum of atan(x)/x, exactly, where
      X = x^2 and x = p0/2^r0; unless 2^m terms are summed, X^i is at most 2^(-precy).
      When p = 1 the bound n can exceed 2^m by one, and then two more terms are summed.
      The tables have the m + 1 cells that the source reserves, and for p = 1 and m = 1
      one more. */
  method AtanAux(p0: int, r0: nat, m: nat, precy: nat) returns (sum: int, den: int, i: nat, r: nat, ghost xx: real)
    requires 0 < p0 < Pow2(r0) && m > 0
    ensures 2 <= i <= Pow2(m) + 2 && den == Odds(0, i)
    ensures xx == (p0 * p0) as real / Pow2(2 * r0) as real
    ensures Means(sum, den, Pow2(r * (i - 1)), PartialAtan(xx, i))
    ensures i >= Pow2(m) || RealPower(xx, i) <= R2(-(precy as int))
  {
    hide Pow2, R2, Terms, Odds, Power, RealPower, Stack, PowersOf, PartialAtan, Means, Argument, Reaches;
    var p, n, general, ptoj;
    p, r, n, general, ptoj := Prepare(p0, r0, m, precy);
    xx := p as real / Pow2(r) as real;
    var cells := Cells(general, m);
    var sS, sQ, lg, accu := new int[cells](_ => 0), new int[cells](_ => 0), new nat[cells](_ => 0), new int[cells](_ => 0);
    var k;
    ghost var st;
    k, i, st := MainLoop(sS, sQ, lg, accu, ptoj, general, n, precy, m, r, p, xx);
    Accumulate(sS, sQ, lg, ptoj, general, k, i, m, r, p, st);
    sum, den := sS[0], sQ[0];
    SplittingIsSeries(p, r, i);
    if i < Pow2(m) { ReachesMeans(xx, i, precy, 1); }
  }

  /** The argument of the series is the square of x = p0/2^r0. */
  lemma ArgumentSquared(p0: int, r0: nat)
    ensures (p0 * p0) as real / Pow2(2 * r0) as real == (p0 as real / Pow2(r0) as real) * (p0 as real / Pow2(r0) as real)
  {
    hide Pow2;
    Pow2Add(r0, r0);
    CastProduct(p0, p0);
    CastProduct(Pow2(r0), Pow2(r0));
    SquareQuotient(p0 as real, Pow2(r0) as real, Pow2(r0) as real * Pow2(r0) as real);
  }

  lemma SquareQuotient(p: real, d: real, dd: real)
    requires d > 0.0 && dd == d * d && dd > 0.0
    ensures (p * p) / dd == (p / d) * (p / d)
  {
    var q := p / d;
    assert q * d == p;
    RealFour(q, d, q, d);
    RealDivide(q * q, dd);
  }
}

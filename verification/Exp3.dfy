/** exp3.c: the exponential series of a rational p/2^r by binary splitting on a
    stack, in integers. */
module Exp3 {
  import opened Powers
  import opened RealPowers
  import opened Streams
  import opened BinaryCounter
  import opened Splitting

  /** (a + 1) (a + 2) ... b. */
  function Rise(a: nat, b: nat): (r: int)
    ensures r >= 1
    decreases b - a
  {
    if a >= b then 1 else RisePositive(a, b, Rise(a + 1, b))
  }

  function RisePositive(a: nat, b: nat, x: int): (r: int)
    requires x >= 1
    ensures r == (a + 1) * x && r >= 1
  {
    MulMono(1, a + 1, x);
    (a + 1) * x
  }

  lemma {:induction false} RiseSplit(a: nat, c: nat, b: nat)
    requires a <= c <= b
    ensures Rise(a, b) == Rise(a, c) * Rise(c, b)
    decreases c - a
  {
    if a < c {
      RiseSplit(a + 1, c, b);
      MulAssoc(a + 1, Rise(a + 1, c), Rise(c, b));
    }
  }

  /** The terms a, ..., b - 1 of the series over their common denominator:
      sum of p^(t-a) * 2^(r(b-1-t)) * b!/t!. */
  function Terms(p: int, r: nat, a: nat, b: nat): int
    decreases b - a
  {
    if a >= b then 0 else Rise(a, b) * Pow2(r * (b - 1 - a)) + p * Terms(p, r, a + 1, b)
  }

  /** Joining two runs of terms, as the code does. */
  lemma TermsFirst(p: int, r: nat, a: nat, b: nat)
    requires a < b
    ensures Terms(p, r, a, b) == Rise(a, b) * Pow2(r * (b - 1 - a)) + p * Terms(p, r, a + 1, b)
  {
    hide Rise, Pow2;
  }

  lemma NoTerms(p: int, r: nat, a: nat)
    ensures Terms(p, r, a, a) == 0 && Power(p, 0) == 1
  {}

  lemma {:induction false} TermsJoin(p: int, r: nat, a: nat, c: nat, b: nat)
    requires a <= c <= b
    ensures Terms(p, r, a, b) == Terms(p, r, a, c) * Rise(c, b) * Pow2(r * (b - c)) + Power(p, c - a) * Terms(p, r, c, b)
    decreases c - a
  {
    hide Rise, Pow2, Terms, Power;
    if a == c {
      NoTerms(p, r, a);
    } else {
      TermsJoin(p, r, a + 1, c, b);
      TermsFirst(p, r, a, b);
      TermsFirst(p, r, a, c);
      RiseSplit(a, c, b);
      ShiftSplit(r, a, c, b);
      PowerFirst(p, c - a);
      JoinStep(p, Rise(a, c), Rise(c, b), Pow2(r * (c - 1 - a)), Pow2(r * (b - c)), Terms(p, r, a + 1, c), Power(p, c - a - 1), Terms(p, r, c, b));
    }
  }

  lemma ShiftSplit(r: nat, a: nat, c: nat, b: nat)
    requires a < c <= b
    ensures Pow2(r * (b - 1 - a)) == Pow2(r * (b - c)) * Pow2(r * (c - 1 - a))
  {
    Distrib(b - c, c - 1 - a, r);
    Pow2Add(r * (b - c), r * (c - 1 - a));
    assert r * (b - 1 - a) == r * (b - c) + r * (c - 1 - a);
  }

  lemma JoinStep(p: int, q1: int, q2: int, u: int, v: int, t: int, w: int, s: int)
    ensures (q1 * q2) * (v * u) + p * (t * q2 * v + w * s) == (q1 * u + p * t) * q2 * v + (p * w) * s
  {
    Distrib(q1 * u, p * t, q2);
    Distrib(q1 * u * q2, p * t * q2, v);
    Distrib(t * q2 * v, w * s, p);
    MulAssoc(p, w, s);
    FourFactors(q1, q2, v, u);
    FourFactors2(p, t, q2, v);
  }

  lemma FourFactors2(p: int, t: int, q2: int, v: int)
    ensures p * (t * q2 * v) == p * t * q2 * v
  {
    MulAssoc(p, t * q2, v);
    MulAssoc(p, t, q2);
  }

  // ---- what the series means ----------------------------------------------------------

  /** sum of x^t / t! for t < n. */
  function PartialExp(x: real, n: nat): real {
    if n == 0 then 0.0 else PartialExp(x, n - 1) + RealPower(x, n - 1) / Rise(0, n - 1) as real
  }

  /** The same from the other end: sum of x^(t-a) a!/t!. */
  function Tail(x: real, a: nat, b: nat): real
    decreases b - a
  {
    if a >= b then 0.0 else 1.0 + x / (a + 1) as real * Tail(x, a + 1, b)
  }

  lemma {:induction false} TermsMeaning(p: int, r: nat, a: nat, b: nat)
    requires a < b
    ensures Terms(p, r, a, b) as real == Rise(a, b) as real * Pow2(r * (b - 1 - a)) as real * Tail(p as real / Pow2(r) as real, a, b)
    decreases b - a
  {
    hide Pow2, Terms, Rise, Tail;
    var x := p as real / Pow2(r) as real;
    assert x * Pow2(r) as real == p as real;
    Unfold(p, r, a, b, x);
    if b == a + 1 {
      Pow2Zero();
    } else {
      TermsMeaning(p, r, a + 1, b);
      Distrib(1, b - 2 - a, r);
      assert r * (b - 1 - a) == r + r * (b - 2 - a);
      Pow2Add(r, r * (b - 2 - a));
      MeaningStep(p, x, Pow2(r), Pow2(r * (b - 2 - a)), a + 1, Rise(a + 1, b), Terms(p, r, a + 1, b), Tail(x, a + 1, b));
    }
  }

  lemma Unfold(p: int, r: nat, a: nat, b: nat, x: real)
    requires a < b
    ensures Terms(p, r, a, b) == Rise(a, b) * Pow2(r * (b - 1 - a)) + p * Terms(p, r, a + 1, b)
    ensures Rise(a, b) == (a + 1) * Rise(a + 1, b)
    ensures Tail(x, a, b) == 1.0 + x / (a + 1) as real * Tail(x, a + 1, b)
    ensures Terms(p, r, b, b) == 0 && Rise(b, b) == 1 && Tail(x, b, b) == 0.0
  {
    hide Pow2;
  }

  lemma MeaningStep(p: int, x: real, d: int, u: int, n: int, q: int, t: int, tail: real)
    requires d >= 1 && n >= 1 && x * d as real == p as real && t as real == q as real * u as real * tail
    ensures (n * q * (d * u) + p * t) as real == (n * q) as real * (d * u) as real * (1.0 + x / n as real * tail)
  {
    var y := x / n as real;
    assert y * n as real == x;
    CastProduct(n, q);
    CastProduct(d, u);
    CastProduct(n * q, d * u);
    CastProduct(p, t);
    var w := (n * q) as real * (d * u) as real;
    PlusOneLeft(w, y * tail);
    assert w * (y * tail) == p as real * t as real by {
      MeaningProduct(n as real, q as real, d as real, u as real, y, tail, x, p as real);
    }
  }

  lemma MeaningProduct(n: real, q: real, d: real, u: real, y: real, tail: real, x: real, p: real)
    requires y * n == x && x * d == p
    ensures ((n * q) * (d * u)) * (y * tail) == p * (q * u * tail)
  {
    RealFour(n, q, d, u);
    assert ((n * q) * (d * u)) * (y * tail) == ((n * d) * (q * u)) * (y * tail);
    RealFour(n * d, q * u, y, tail);
    assert (n * d) * y == p by {
      RealComm(n * d, y);
      RealRegroup2(y, n, d);
    }
  }

  /** The terms a, ..., b - 1 of the series. */
  function TermsFrom(x: real, a: nat, b: nat): real { RealPower(x, a) / Rise(0, a) as real * Tail(x, a, b) }

  lemma {:induction false} TailIsSum(x: real, a: nat, b: nat)
    requires a <= b
    ensures PartialExp(x, b) == PartialExp(x, a) + TermsFrom(x, a, b)
    decreases b - a
  {
    hide TermsFrom, RealPower, Rise;
    OneTerm(x, a, b);
    if a < b { TailIsSum(x, a + 1, b); }
  }

  lemma OneTerm(x: real, a: nat, b: nat)
    requires a <= b
    ensures a == b ==> TermsFrom(x, a, b) == 0.0
    ensures a < b ==> TermsFrom(x, a, b) == RealPower(x, a) / Rise(0, a) as real + TermsFrom(x, a + 1, b)
  {
    hide Tail, Rise, RealPower;
    Unfold(0, 0, a, if a == b then b + 1 else b, x);
    Unfold(0, 0, a, a + 1, x);
    RiseSplit(0, a, a + 1);
    RealPowerFirst(x, a);
    if a == b {
      Unfold(0, 0, 0, b + 1, x);
      EmptyTail(x, b);
    } else {
      TailStep(RealPower(x, a), Rise(0, a), x, a + 1, Tail(x, a + 1, b));
    }
  }

  lemma EmptyTail(x: real, b: nat)
    ensures Tail(x, b, b) == 0.0
  {}

  lemma TailStep(w: real, f: int, x: real, n: int, tail: real)
    requires f >= 1 && n >= 1
    ensures f * n >= 1
    ensures w / f as real * (1.0 + x / n as real * tail) == w / f as real + (x * w) / (f * n) as real * tail
  {
    MulMono(1, f, n);
    CastProduct(f, n);
    var g, y := w / f as real, x / n as real;
    assert g * f as real == w && y * n as real == x;
    PlusOneLeft(g, y * tail);
    assert (x * w) / (f * n) as real == g * y by {
      RealFour(g, y, f as real, n as real);
      assert (g * y) * (f as real * n as real) == w * x;
      RealComm(x, w);
      RealDivide(g * y, (f * n) as real);
    }
    RealRegroup2(g, y, tail);
  }

  /** The integer quotient computed by the stack is the partial sum, exactly. */
  lemma SplittingIsSeries(p: int, r: nat, n: nat)
    requires n >= 1
    ensures Terms(p, r, 0, n) as real / (Rise(0, n) as real * Pow2(r * (n - 1)) as real) == PartialExp(p as real / Pow2(r) as real, n)
  {
    hide Pow2, Tail, Terms;
    var x := p as real / Pow2(r) as real;
    TermsMeaning(p, r, 0, n);
    TailIsSum(x, 0, n);
    RealProductPos(Rise(0, n) as real, Pow2(r * (n - 1)) as real);
    RealComm(Rise(0, n) as real * Pow2(r * (n - 1)) as real, Tail(x, 0, n));
    RealDivide(Tail(x, 0, n), Rise(0, n) as real * Pow2(r * (n - 1)) as real);
  }

  // ---- what is left out ----------------------------------------------------------------

  lemma {:induction false} TailBound(x: real, a: nat, b: nat)
    requires -1.0 <= x <= 1.0 && a >= 1
    ensures -2.0 <= Tail(x, a, b) <= 2.0
    decreases b - a
  {
    if a < b {
      TailBound(x, a + 1, b);
      var y := x / (a + 1) as real;
      HalfAtMost(x, a + 1, y);
      AbsProductAtMost(y, Tail(x, a + 1, b), 0.5, 2.0);
    }
  }

  lemma HalfAtMost(x: real, n: int, y: real)
    requires -1.0 <= x <= 1.0 && n >= 2 && y == x / n as real
    ensures -0.5 <= y <= 0.5
  {
    assert y * n as real == x;
    RealMono(y, 0.5, n as real);
    RealMono(-0.5, y, n as real);
  }

  /** Once enough terms have been summed, every longer partial sum is within 2^(1-mu). */
  lemma LongerSums(x: real, i: nat, mu: int, n: nat)
    requires -1.0 <= x <= 1.0 && 1 <= i <= n && RealPower(RealAbs(x), i - 1) / Rise(0, i) as real <= R2(-mu)
    ensures RealAbs(PartialExp(x, n) - PartialExp(x, i)) <= R2(1 - mu)
  {
    hide R2, RealPower, Rise, Tail, PartialExp;
    TailIsSum(x, i, n);
    TailBound(x, i, n);
    var w, u, f, t := RealPower(x, i), RealPower(RealAbs(x), i - 1), Rise(0, i) as real, Tail(x, i, n);
    AbsRealPower(x, i);
    RealPowerFirst(RealAbs(x), i - 1);
    RealPowerSign(RealAbs(x), i - 1);
    FirstLeftOut(w, RealAbs(x), u, f, R2(-mu));
    AbsProductAtMost(w / f, t, R2(-mu), 2.0);
    R2Step(-mu);
  }

  lemma FirstLeftOut(w: real, a: real, u: real, f: real, d: real)
    requires 0.0 <= a <= 1.0 && u >= 0.0 && f > 0.0 && RealAbs(w) == a * u && u / f <= d
    ensures -d <= w / f <= d
  {
    var g, h := w / f, u / f;
    assert g * f == w && h * f == u;
    RealNonNegative(1.0 - a, u);
    assert a * u <= u;
    RealMono(g, h, f);
    RealMono(-h, g, f);
  }

  // ---- the stack --------------------------------------------------------------------------

  /** Entry e holds the terms st[e], ..., st[e + 1] - 1. */
  ghost predicate Holds(sS: seq<int>, sQ: seq<int>, st: seq<nat>, k: nat, p: int, r: nat) {
    Filled(sS, st, k + 1, TermsOf(p, r)) && Filled(sQ, st, k + 1, RiseOf())
  }

  /** x = |p|/2^r. */
  predicate Argument(x: real, p: int, r: nat) { p != 0 && 0.0 <= x <= 1.0 && x * Pow2(r) as real == Abs(p) as real }

  /** With n terms summed, |x|^(n-1)/n! is at most 2^(-mu). */
  predicate Small(x: real, n: nat, mu: int) { n >= 1 && Reaches(x, n - 1, mu, Rise(0, n)) }

  /** exp3.c:104-105, 139-140: mult[e] is such a mu for the terms of the entries 0, ..., e. */
  ghost predicate Bounded(mult: seq<int>, st: seq<nat>, n: nat, x: real) {
    n <= |mult| && n < |st| && forall e :: 0 <= e < n ==> Small(x, st[e + 1], mult[e])
  }

  lemma FirstSmall(x: real)
    ensures Small(x, 1, 0)
  {
    R2Small();
    Unfold(0, 0, 0, 1, x);
    assert RealPower(x, 0) == 1.0;
  }

  /** One more term does not harm. */
  lemma OneMoreSmall(x: real, n: nat, mu: int)
    requires 0.0 <= x <= 1.0 && Small(x, n, mu)
    ensures Small(x, n + 1, mu)
  {
    hide R2, Rise;
    R2Small();
    RealPowerFirst(x, 0);
    assert Reaches(x, 1, 0, n + 1) by { assert RealPower(x, 0) == 1.0; }
    Unfold(0, 0, n, n + 1, x);
    RiseSplit(0, n, n + 1);
    ReachesBoth(x, n - 1, 1, mu, 0, Rise(0, n), n + 1);
  }

  /** exp3.c:135-137: what the terms a, ..., a + c - 1 contribute. */
  lemma MoreSmall(x: real, p: int, r: nat, a: nat, c: nat, mu: int)
    requires Argument(x, p, r) && Small(x, a, mu)
    ensures Small(x, a + c, mu + (SizeInBase2(Abs(Rise(a, a + c))) + r * c - SizeInBase2(Abs(Power(p, c))) - 1))
  {
    hide R2, Pow2, Rise, Power, RealPower, SizeInBase2, Reaches;
    PowerReaches(x, p, r, c);
    SizeReaches(x, c, r * c - SizeInBase2(Abs(Power(p, c))), Rise(a, a + c));
    RiseSplit(0, a, a + c);
    ReachesBoth(x, a - 1, c, mu, r * c - SizeInBase2(Abs(Power(p, c))) + SizeInBase2(Rise(a, a + c)) - 1, Rise(0, a), Rise(a, a + c));
  }

  /** The multiplier of a new entry is that of the entry before it. */
  lemma PushedBounded(mult: seq<int>, st: seq<nat>, n: nat, i: nat, x: real)
    requires 0.0 <= x <= 1.0 && Bounded(mult, st, n, x) && |st| == n + 1 && n >= 1 && st[n] == i
    ensures Bounded(mult, st + [i + 1], n, x)
    ensures n < |mult| && mult[n] == mult[n - 1] ==> Small(x, i + 1, mult[n])
  {
    hide Small;
    var st' := st + [i + 1];
    assert forall e :: 0 <= e <= n ==> st'[e] == st[e];
    assert Small(x, st[n - 1 + 1], mult[n - 1]);
    OneMoreSmall(x, i, mult[n - 1]);
  }

  /** A merger leaves the multipliers of the entries below as they are. */
  lemma MergedBounded(mult: seq<int>, mult': seq<int>, st: seq<nat>, k: nat, x: real)
    requires k >= 1 && |st| == k + 2 && k < |mult| == |mult'| && Bounded(mult, st, k, x)
    requires forall e :: 0 <= e < k - 1 ==> mult'[e] == mult[e]
    ensures Bounded(mult', st[..k] + [st[k + 1]], k - 1, x)
  {
    hide Small;
    var st' := st[..k] + [st[k + 1]];
    assert forall e :: 0 <= e < k ==> st'[e] == st[e];
  }

  function TermsOf(p: int, r: nat): (nat, nat) -> int { (a: nat, b: nat) => Terms(p, r, a, b) }

  function RiseOf(): (nat, nat) -> int { (a: nat, b: nat) => Rise(a, b) }

  /** exp3.c:124-132, one combination: entry k is merged into entry k - 1, which has
      c - a terms; right is the number of terms of entry k, power = p^(c - a). */
  method Combine(sS: array<int>, sQ: array<int>, k: nat, power: int, shift: nat, ghost p: int, ghost r: nat, ghost st: seq<nat>)
    requires sS != sQ && 1 <= k < sS.Length && k < sQ.Length && |st| >= k + 2
    requires st[k - 1] <= st[k] <= st[k + 1] && shift == r * (st[k + 1] - st[k]) && power == Power(p, st[k] - st[k - 1])
    requires sS[k - 1] == Terms(p, r, st[k - 1], st[k]) && sQ[k - 1] == Rise(st[k - 1], st[k])
    requires sS[k] == Terms(p, r, st[k], st[k + 1]) && sQ[k] == Rise(st[k], st[k + 1])
    modifies sS, sQ
    ensures sS[k - 1] == Terms(p, r, st[k - 1], st[k + 1]) && sQ[k - 1] == Rise(st[k - 1], st[k + 1])
    ensures forall e :: 0 <= e < k - 1 ==> sS[e] == old(sS[e]) && sQ[e] == old(sQ[e])
    ensures sQ[k] == old(sQ[k])
  {
    hide Pow2, Terms, Rise, Power;
    ghost var left, right, q := sS[k - 1], sS[k], sQ[k];
    TermsJoin(p, r, st[k - 1], st[k], st[k + 1]);
    RiseSplit(st[k - 1], st[k], st[k + 1]);
    MulComm(right, power);
    sS[k] := sS[k] * power;
    sS[k - 1] := sS[k - 1] * sQ[k];
    sS[k - 1] := sS[k - 1] * Pow2(shift);
    sS[k - 1] := sS[k - 1] + sS[k];
    sQ[k - 1] := sQ[k - 1] * sQ[k];
  }

  /** exp3.c:124-134: the last two entries, of 2^l terms each, become one. */
  method MergeTop(sS: array<int>, sQ: array<int>, lg: array<nat>, k: nat, power: int, shift: nat, ghost p: int, ghost r: nat,
                  ghost st: seq<nat>, ghost l: nat)
    requires sS != sQ && 1 <= k < sS.Length == sQ.Length == lg.Length && lg[k] == lg[k - 1] == l
    requires Holds(sS[..], sQ[..], st, k, p, r) && Sizes(lg[..], st, k) && Aligned(lg[..], st, k)
    requires power == Power(p, Pow2(l)) && shift == r * Pow2(l)
    modifies sS, sQ, lg
    ensures var st' := st[..k] + [st[k + 1]];
            Holds(sS[..], sQ[..], st', k - 1, p, r) && Sizes(lg[..], st', k - 1) && Aligned(lg[..], st', k - 1)
    ensures lg[k - 1] == l + 1 && |st| == k + 2 && st[k + 1] == st[k] + Pow2(l) && sQ[k] == Rise(st[k], st[k + 1])
  {
    hide Pow2, Terms, Rise, Power, Filled, Sizes, Aligned;
    ghost var tS, tQ, tl := sS[..], sQ[..], lg[..];
    EntrySizes(tl, st, k);
    FilledParts(tS, st, k + 1, TermsOf(p, r));
    FilledParts(tQ, st, k + 1, RiseOf());
    Combine(sS, sQ, k, power, shift, p, r, st);
    lg[k - 1] := lg[k - 1] + 1;
    FilledMerged(tS, sS[..], st, k + 1, TermsOf(p, r));
    FilledMerged(tQ, sQ[..], st, k + 1, RiseOf());
    Merge(tl, st, lg[..], k, l);
  }

  /** exp3.c:135-138: the multiplier after a combination. */
  method Raise(mult: array<int>, k: nat, quot: int, power: int, shift: nat, ghost p: int, ghost r: nat, ghost c: nat, ghost x: real,
               ghost st: seq<nat>) returns (prec: int)
    requires 1 <= k < mult.Length && |st| == k + 2 && Bounded(mult[..], st, k, x) && Argument(x, p, r) && st[k + 1] == st[k] + c
    requires quot == Rise(st[k], st[k + 1]) && power == Power(p, c) && shift == r * c
    modifies mult
    ensures prec == mult[k - 1] == mult[k] && Small(x, st[k + 1], prec)
    ensures Bounded(mult[..], st[..k] + [st[k + 1]], k - 1, x)
  {
    hide Pow2, Rise, Power, Small, Bounded, SizeInBase2, Argument;
    ghost var tm := mult[..];
    EntryBound(tm, st, k, x);
    MoreSmall(x, p, r, st[k], c, mult[k - 1]);
    prec := SizeInBase2(Abs(quot)) + shift - SizeInBase2(Abs(power)) - 1;
    mult[k - 1] := mult[k - 1] + prec;
    prec := mult[k - 1];
    mult[k] := prec;
    MergedBounded(tm, mult[..], st, k, x);
  }

  lemma EntryBound(mult: seq<int>, st: seq<nat>, k: nat, x: real)
    requires Bounded(mult, st, k, x) && k >= 1
    ensures |st| > k && |mult| >= k && Small(x, st[k], mult[k - 1])
  {
    hide Small;
    assert Small(x, st[k - 1 + 1], mult[k - 1]);
  }

  /** exp3.c:119-144: the last entry is new; merge equal neighbours. */
  method Carry(sS: array<int>, sQ: array<int>, lg: array<nat>, mult: array<int>, ptoj: seq<int>, k0: nat, j0: nat, prec0: int, m: nat, r: nat,
               ghost p: int, ghost x: real, ghost st0: seq<nat>)
    returns (k: nat, prec: int, ghost st: seq<nat>)
    requires sS != sQ && sS != mult && sQ != mult && k0 < sS.Length == sQ.Length == lg.Length == mult.Length && |ptoj| >= m
    requires forall e :: 0 <= e < |ptoj| ==> ptoj[e] == Power(p, Pow2(e))
    requires Holds(sS[..], sQ[..], st0, k0, p, r) && Sizes(lg[..], st0, k0) && Aligned(lg[..], st0, k0)
    requires lg[k0] == 0 && st0[k0 + 1] == j0 >= 1 && j0 <= Pow2(m)
    requires Argument(x, p, r)
    requires k0 >= 1 && Bounded(mult[..], st0, k0, x) && (j0 % 2 == 1 ==> Small(x, j0, mult[k0])) && Small(x, j0, prec0)
    modifies sS, sQ, lg, mult
    ensures k < sS.Length && Holds(sS[..], sQ[..], st, k, p, r) && Sizes(lg[..], st, k) && Aligned(lg[..], st, k + 1)
    ensures st[k + 1] == j0
    ensures Bounded(mult[..], st, k + 1, x) && Small(x, j0, prec)
    ensures j0 % 2 == 0 ==> k + 1 < mult.Length && mult[k + 1] == mult[k]
  {
    hide Pow2, Terms, Rise, Power, Filled, Sizes, Aligned, Small, Bounded, SizeInBase2, Argument;
    k, prec, st := k0, prec0, st0;
    var j, l := j0, 0;
    Pow2Zero();
    SizesLength(lg[..], st, k);
    while j % 2 == 0
      invariant k < sS.Length && Holds(sS[..], sQ[..], st, k, p, r) && Sizes(lg[..], st, k) && Aligned(lg[..], st, k)
      invariant lg[k] == l && |st| == k + 2 && st[k + 1] == j0 == j * Pow2(l) && j >= 1
      invariant Bounded(mult[..], st, k, x) && Small(x, j0, prec)
      invariant if l > 0 then j0 % 2 == 0 && Small(x, j0, mult[k]) && k + 1 < mult.Length && mult[k + 1] == mult[k]
                else k == k0 && j == j0 && (j0 % 2 == 1 ==> Small(x, j0, mult[k]))
      decreases j
    {
      EqualNeighbours(lg[..], st, k, j, l);
      LevelBelow(j, l, m);
      HalfOf(j, Pow2(l), l);
      MergeTop(sS, sQ, lg, k, ptoj[l], r * Pow2(l), p, r, st, l);
      prec := Raise(mult, k, sQ[k], ptoj[l], r * Pow2(l), p, r, Pow2(l), x, st);
      st := st[..k] + [st[k + 1]];
      l, j, k := l + 1, j / 2, k - 1;
    }
    AlignedTop(lg[..], st, k, j, l);
    TopBound(mult[..], st, k, x);
  }

  lemma TopBound(mult: seq<int>, st: seq<nat>, k: nat, x: real)
    requires Bounded(mult, st, k, x) && |st| == k + 2 && k < |mult| && Small(x, st[k + 1], mult[k])
    ensures Bounded(mult, st, k + 1, x)
  {
    hide Small;
  }

  /** Pushing one more term. */
  lemma Pushed(sS: seq<int>, sQ: seq<int>, lg: seq<nat>, tS: seq<int>, tQ: seq<int>, tl: seq<nat>, st: seq<nat>, k: nat, i: nat, p: int, r: nat)
    requires Holds(sS, sQ, st, k, p, r) && Sizes(lg, st, k) && Aligned(lg, st, k + 1) && st[k + 1] == i
    requires |tS| == |tQ| == |tl| == |sS| == |sQ| == |lg| && k + 1 < |sS|
    requires tS == sS[k + 1 := i + 1] && tQ == sQ[k + 1 := i + 1] && tl == lg[k + 1 := 0]
    ensures Holds(tS, tQ, st + [i + 1], k + 1, p, r) && Sizes(tl, st + [i + 1], k + 1) && Aligned(tl, st + [i + 1], k + 1)
  {
    PushedHolds(sS, sQ, tS, tQ, st, k, i, p, r);
    hide Pow2, Terms, Rise, Holds;
    var st' := st + [i + 1];
    assert forall e :: 0 <= e < |st| ==> st'[e] == st[e];
  }

  lemma PushedHolds(sS: seq<int>, sQ: seq<int>, tS: seq<int>, tQ: seq<int>, st: seq<nat>, k: nat, i: nat, p: int, r: nat)
    requires Holds(sS, sQ, st, k, p, r) && st[k + 1] == i && |tS| == |tQ| == |sS| == |sQ| && k + 1 < |sS|
    requires tS == sS[k + 1 := i + 1] && tQ == sQ[k + 1 := i + 1]
    ensures Holds(tS, tQ, st + [i + 1], k + 1, p, r)
  {
    hide Pow2, Terms, Rise, Filled;
    Pow2Zero();
    Unfold(p, r, i, i + 1, 0.0);
    MulOneTerm(i, Pow2(r * 0));
    FilledPushed(sS, tS, st, k + 1, i + 1, TermsOf(p, r));
    FilledPushed(sQ, tQ, st, k + 1, i + 1, RiseOf());
  }

  lemma MulOneTerm(i: nat, u: int)
    requires u == 1
    ensures (i + 1) * 1 * u == i + 1
  {}

  /** exp3.c:97-145: the terms of the series, until the precision or the table is exhausted. */
  method MainLoop(sS: array<int>, sQ: array<int>, lg: array<nat>, mult: array<int>, ptoj: seq<int>, m: nat, precy: int, r: nat, ghost p: int, ghost x: real)
    returns (k: nat, i: nat, ghost st: seq<nat>)
    requires sS != sQ && sS != mult && sQ != mult && sS.Length == sQ.Length == lg.Length == mult.Length == m + 1 && |ptoj| >= m
    requires forall e :: 0 <= e < |ptoj| ==> ptoj[e] == Power(p, Pow2(e))
    requires Argument(x, p, r)
    modifies sS, sQ, lg, mult
    ensures k <= m && 1 <= i <= Pow2(m) && Holds(sS[..], sQ[..], st, k, p, r) && Sizes(lg[..], st, k) && st[k + 1] == i
    ensures i == Pow2(m) || Small(x, i, precy)
  {
    hide Pow2, Terms, Rise, Power, Holds, Sizes, Aligned, Small, Bounded, Argument;
    assert 0.0 <= x <= 1.0 by { ArgumentRange(x, p, r); }
    sQ[0], sS[0], lg[0], mult[0] := 1, 1, 0, 0;
    k, i, st := 0, 1, [0, 1];
    var prec := 0;
    FirstEntry(sS[..], sQ[..], lg[..], p, r);
    FirstSmall(x);
    FirstBounded(mult[..], x);
    var n := Pow2(m);
    while prec < precy && i < n
      invariant k <= m && 1 <= i <= n && Holds(sS[..], sQ[..], st, k, p, r) && Sizes(lg[..], st, k) && Aligned(lg[..], st, k + 1)
      invariant |st| == k + 2 && st[k + 1] == i
      invariant Bounded(mult[..], st, k + 1, x) && Small(x, i, prec)
      invariant i % 2 == 0 ==> k + 1 < mult.Length && mult[k + 1] == mult[k]
      decreases n - i
    {
      Height(lg[..], st, k);
      Exponents(lg[k] + k, m);
      ghost var tS, tQ, tl := sS[..], sQ[..], lg[..];
      k := k + 1;
      lg[k], sQ[k], sS[k] := 0, i + 1, i + 1;
      Pushed(tS, tQ, tl, sS[..], sQ[..], lg[..], st, k - 1, i, p, r);
      PushedBounded(mult[..], st, k, i, x);
      OneMoreSmall(x, i, prec);
      k, prec, st := Carry(sS, sQ, lg, mult, ptoj, k, i + 1, prec, m, r, p, x, st + [i + 1]);
      SizesLength(lg[..], st, k);
      i := i + 1;
    }
    if i < n { LessSmall(x, i, prec, precy); }
  }

  lemma LessSmall(x: real, n: nat, mu: int, nu: int)
    requires x >= 0.0 && Small(x, n, mu) && nu <= mu
    ensures Small(x, n, nu)
  {
    ReachesLess(x, n - 1, mu, nu, Rise(0, n));
  }

  lemma FirstBounded(mult: seq<int>, x: real)
    requires |mult| >= 1 && mult[0] == 0 && Small(x, 1, 0)
    ensures Bounded(mult, [0, 1], 1, x)
  {
    hide Small;
  }

  lemma FirstEntry(sS: seq<int>, sQ: seq<int>, lg: seq<nat>, p: int, r: nat)
    requires |sS| > 0 && |sQ| > 0 && |lg| > 0 && sS[0] == 1 && sQ[0] == 1 && lg[0] == 0
    ensures Holds(sS, sQ, [0, 1], 0, p, r) && Sizes(lg, [0, 1], 0) && Aligned(lg, [0, 1], 1)
  {
    hide Pow2, Terms, Rise;
    Pow2Zero();
    Unfold(p, r, 0, 1, 0.0);
    MulOneTerm(0, Pow2(r * 0));
    assert 0 % Pow2(1) == 0 by { Pow2Two(); }
  }

  /** exp3.c:147-160: everything is accumulated in the first entry. */
  method Accumulate(sS: array<int>, sQ: array<int>, lg: array<nat>, ptoj: seq<int>, k0: nat, i: nat, m: nat, r: nat, ghost p: int, ghost st0: seq<nat>)
    requires sS != sQ && k0 < sS.Length == sQ.Length == lg.Length && |ptoj| >= m && 1 <= i <= Pow2(m)
    requires forall e :: 0 <= e < |ptoj| ==> ptoj[e] == Power(p, Pow2(e))
    requires Holds(sS[..], sQ[..], st0, k0, p, r) && Sizes(lg[..], st0, k0) && st0[k0 + 1] == i
    modifies sS, sQ
    ensures sS[0] == Terms(p, r, 0, i) && sQ[0] == Rise(0, i)
  {
    hide Pow2, Terms, Rise, Power, Filled;
    var k: nat, h: nat := k0, 0;
    SizesLength(lg[..], st0, k0);
    ghost var st := st0;
    while k > 0
      invariant 0 <= k <= k0 && Holds(sS[..], sQ[..], st, k, p, r) && |st| == k + 2 && st[0] == 0 && st[k + 1] == i
      invariant forall e :: 0 <= e < k ==> st[e + 1] == st[e] + Pow2(lg[e])
      invariant st[k + 1] == st[k] + Pow2(lg[k]) + h
    {
      var j := lg[k - 1];
      ghost var tS, tQ := sS[..], sQ[..];
      FilledParts(tS, st, k + 1, TermsOf(p, r));
      FilledParts(tQ, st, k + 1, RiseOf());
      assert st[k - 1 + 1] == st[k - 1] + Pow2(j);
      assert Pow2(j) < i;
      Exponents(j, m);
      h := h + Pow2(lg[k]);
      Combine(sS, sQ, k, ptoj[j], r * h, p, r, st);
      FilledMerged(tS, sS[..], st, k + 1, TermsOf(p, r));
      FilledMerged(tQ, sQ[..], st, k + 1, RiseOf());
      st := st[..k] + [st[k + 1]];
      k := k - 1;
    }
    FilledOne(sS[..], st, TermsOf(p, r));
    FilledOne(sQ[..], st, RiseOf());
  }

  /** x and y are the absolute value of p0/2^r0 and p0/2^r0 itself. */
  predicate Fractions(p0: int, r0: nat, x: real, y: real) { x == Abs(p0) as real / Pow2(r0) as real && y == p0 as real / Pow2(r0) as real }

  predicate IsFraction(y: real, p: int, r: nat) { y == p as real / Pow2(r) as real }

  /** exp3.c:90-160. */
  method SumTerms(p0: int, r0: nat, m: nat, precy: int, ghost x: real, ghost y: real)
    returns (sum: int, den: int, i: nat, r: nat, ghost p: int)
    requires p0 != 0 && Abs(p0) < Pow2(r0) && Fractions(p0, r0, x, y)
    ensures 1 <= i <= Pow2(m) && sum == Terms(p, r, 0, i) && den == Rise(0, i) && IsFraction(y, p, r)
    ensures i == Pow2(m) || Small(x, i, precy)
  {
    hide Pow2, R2, Terms, Rise, Power, Holds, Sizes, Small, Argument;
    var q;
    q, r := Normalize(p0, r0);
    p := q;
    SameMagnitude(p0, r0, p, r, x);
    hide Fractions;
    var ptoj := PowerTable(q, m);
    var sS, sQ, lg, mult := new int[m + 1](_ => 0), new int[m + 1](_ => 0), new nat[m + 1](_ => 0), new int[m + 1](_ => 0);
    var k;
    ghost var st;
    k, i, st := MainLoop(sS, sQ, lg, mult, ptoj, m, precy, r, p, x);
    Accumulate(sS, sQ, lg, ptoj, k, i, m, r, p, st);
    sum, den := sS[0], sQ[0];
  }

  /** mpfr_exp_rational up to the final division: with i terms, sum / (den * 2^(r(i-1)))
      is the partial sum of the exponential series at x = p0/2^r0, exactly, and den = i!.
      Unless all 2^m terms are summed, |x|^(i-1)/i! is at most 2^(-precy). */
  method ExpRational(p0: int, r0: nat, m: nat, precy: int) returns (sum: int, den: int, i: nat, r: nat)
    requires p0 != 0 && Abs(p0) < Pow2(r0)
    ensures 1 <= i <= Pow2(m) && den == Rise(0, i)
    ensures sum as real / (den as real * Pow2(r * (i - 1)) as real) == PartialExp(p0 as real / Pow2(r0) as real, i)
    ensures i == Pow2(m) || RealPower(Abs(p0) as real / Pow2(r0) as real, i - 1) / den as real <= R2(-precy)
  {
    hide Pow2, R2, RealPower, Terms, Rise, PartialExp, Small, IsFraction;
    ghost var p;
    ghost var x, y := Abs(p0) as real / Pow2(r0) as real, p0 as real / Pow2(r0) as real;
    sum, den, i, r, p := SumTerms(p0, r0, m, precy, x, y);
    QuotientIsSum(sum, den, p, r, i, y);
    if i != Pow2(m) { SmallMeans(x, i, precy, den); }
  }

  lemma QuotientIsSum(sum: int, den: int, p: int, r: nat, n: nat, x: real)
    requires n >= 1 && sum == Terms(p, r, 0, n) && den == Rise(0, n) && IsFraction(x, p, r)
    ensures sum as real / (den as real * Pow2(r * (n - 1)) as real) == PartialExp(x, n)
  {
    hide Pow2, Terms, Rise, PartialExp;
    SplittingIsSeries(p, r, n);
  }

  lemma SameMagnitude(p0: int, r0: nat, p: int, r: nat, x: real)
    requires r <= r0 && p != 0 && p0 == p * Pow2(r0 - r) && Abs(p) < Pow2(r) && x == Abs(p0) as real / Pow2(r0) as real
    ensures Argument(x, p, r)
  {
    hide Pow2;
    AbsProduct(p, Pow2(r0 - r));
    SameFraction(Abs(p), r, r0 - r);
    FractionRange(Abs(p), Pow2(r), x);
  }

  lemma SmallMeans(x: real, n: nat, mu: int, den: int)
    requires Small(x, n, mu) && den == Rise(0, n)
    ensures n >= 1 && den >= 1 && RealPower(x, n - 1) / den as real <= R2(-mu)
  {
    ReachesMeans(x, n - 1, mu, den);
  }

  lemma ArgumentRange(x: real, p: int, r: nat)
    requires Argument(x, p, r)
    ensures 0.0 <= x <= 1.0
  {}
}

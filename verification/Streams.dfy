/** A significand read from its most significant limb downwards: what has been
    read is an integer, what remains is a tail in [0, 1).  Reading one limb more
    multiplies everything by B. */
module Streams {
  import opened Powers
  import opened RealPowers
  import opened Limbs
  import opened Rounding
  import opened Numbers

  lemma FracRange(s: seq<limb>)
    ensures 0.0 <= Frac(s) < 1.0
    ensures Frac(s) == 0.0 <==> Val(s) == 0
  {
    ValBound(s);
    QuotientRange(Val(s) as real, BP(|s|) as real);
  }

  lemma QuotientRange(x: real, y: real)
    requires 0.0 <= x < y
    ensures 0.0 <= x / y < 1.0
    ensures x / y == 0.0 <==> x == 0.0
  {
    QuotientBelow(x / y, x, y);
  }

  lemma QuotientBelow(q: real, x: real, y: real)
    requires 0.0 <= x < y && q * y == x
    ensures 0.0 <= q < 1.0
    ensures q == 0.0 <==> x == 0.0
  {}

  /** Reading the next limb of an unshifted significand. */
  lemma FracStep(s: seq<limb>)
    requires |s| > 0
    ensures Frac(s) * B as real == s[|s| - 1] as real + Frac(s[..|s| - 1])
  {
    hide Val, BP;
    var n := |s| - 1;
    ValTake(s, n);
    assert s[..n + 1] == s;
    BPStep(n);
    QuotientStep(Val(s[..n]), s[n], BP(n));
  }

  lemma QuotientStep(v: int, x: int, p: int)
    requires p >= 1
    ensures ((v + x * p) as real / (B * p) as real) * B as real == x as real + v as real / p as real
  {
    var q := v as real / p as real;
    assert v as real == q * p as real;
    QuotientStepReal(v as real, x as real, p as real, q, B as real);
    assert (v + x * p) as real == v as real + x as real * p as real;
    assert (B * p) as real == B as real * p as real;
  }

  lemma QuotientStepReal(v: real, x: real, p: real, q: real, b: real)
    requires p > 0.0 && b > 0.0 && v == q * p
    ensures b * p > 0.0
    ensures ((v + x * p) / (b * p)) * b == x + q
  {
    assert v + x * p == (q + x) * p;
    var t := (q + x) / b;
    assert t * b == q + x;
    assert (q + x) * p == t * (b * p) by { RealSwap(t, b, p); }
    RealDivide(t, b * p);
  }

  lemma RealDivide(t: real, d: real)
    requires d > 0.0
    ensures (t * d) / d == t
  {}

  /** The upper limbs and the tail below them. */
  lemma FracSplit(s: seq<limb>, k: nat)
    requires k <= |s|
    ensures Frac(s) * BP(|s| - k) as real == Val(s[k..]) as real + Frac(s[..k])
  {
    hide Val, BP;
    ValSplit(s, k);
    BPAdd(k, |s| - k);
    var v, h, p, q := Val(s[..k]), Val(s[k..]), BP(k), BP(|s| - k);
    assert (v + p * h) as real == v as real + h as real * p as real;
    assert (p * q) as real == q as real * p as real;
    QuotientStepReal(v as real, h as real, p as real, v as real / p as real, q as real);
  }

  /** What remains of c, shifted right by difs bits, when its limbs below ck are
      unread and `prev` is the last limb read, of which the low difs bits are
      still to come. */
  function ShiftedTail(prev: limb, s: seq<limb>, difs: nat): real {
    ((prev % Pow2(difs)) as real + Frac(s)) / Pow2(difs) as real
  }

  lemma ShiftedTailRange(prev: limb, s: seq<limb>, difs: nat)
    ensures 0.0 <= ShiftedTail(prev, s, difs) < 1.0
    ensures ShiftedTail(prev, s, difs) == 0.0 <==> prev % Pow2(difs) == 0 && Val(s) == 0
  {
    hide Val, BP, Pow2, Frac;
    FracRange(s);
    var x := (prev % Pow2(difs)) as real;
    assert x <= (Pow2(difs) - 1) as real;
    QuotientRange(x + Frac(s), Pow2(difs) as real);
  }

  lemma ShiftedTailUnshifted(prev: limb, s: seq<limb>)
    ensures ShiftedTail(prev, s, 0) == Frac(s)
  {}

  /** The next limb of shifted c. */
  function NextShifted(prev: limb, s: seq<limb>, difs: nat): int
    requires difs < 64
  {
    (prev % Pow2(difs)) * Pow2(64 - difs) + (if |s| > 0 then s[|s| - 1] / Pow2(difs) else 0)
  }

  lemma NextShiftedIsLimb(prev: limb, s: seq<limb>, difs: nat)
    requires difs < 64
    ensures 0 <= NextShifted(prev, s, difs) < B
  {
    hide Pow2;
    Pow2Limb();
    Pow2Add(difs, 64 - difs);
    var d, k := Pow2(difs), Pow2(64 - difs);
    if |s| > 0 {
      DivMulLt(s[|s| - 1], d, k);
      DivLe(s[|s| - 1], d);
    }
    MulMono(prev % d, d - 1, k);
    MulMono(0, prev % d, k);
    Distrib(d, -1, k);
  }

  lemma ShiftedTailStep(prev: limb, s: seq<limb>, difs: nat)
    requires difs < 64
    ensures ShiftedTail(prev, s, difs) * B as real == NextShifted(prev, s, difs) as real
              + (if |s| > 0 then ShiftedTail(s[|s| - 1], s[..|s| - 1], difs) else 0.0)
  {
    hide Val, BP, Pow2, Frac;
    Pow2Limb();
    Pow2Add(difs, 64 - difs);
    if |s| > 0 {
      FracStep(s);
      TailStepPlain(prev % Pow2(difs), Frac(s), Frac(s[..|s| - 1]), s[|s| - 1], Pow2(difs), Pow2(64 - difs));
    } else {
      FracRange(s);
      ValEmpty(s);
      TailStepPlain(prev % Pow2(difs), 0.0, 0.0, 0, Pow2(difs), Pow2(64 - difs));
    }
  }

  lemma TailStepPlain(r: int, f: real, f': real, l: int, d: int, k: int)
    requires d >= 1 && d * k == B && f * B as real == l as real + f'
    ensures ((r as real + f) / d as real) * B as real == (r * k + l / d) as real + ((l % d) as real + f') / d as real
  {
    CastProduct(d, k);
    CastProduct(r, k);
    MulComm(d, l / d);
    CastProduct(l / d, d);
    SplitQuotient(r as real, f, f', (l / d) as real, (l % d) as real, d as real, k as real);
  }

  lemma ValEmpty(s: seq<limb>)
    requires s == []
    ensures Val(s) == 0
  {}

  lemma SplitQuotient(r: real, f: real, f': real, q: real, m: real, d: real, k: real)
    requires d > 0.0 && f * (d * k) == q * d + m + f'
    ensures ((r + f) / d) * (d * k) == r * k + q + (m + f') / d
  {
    var t, t' := (r + f) / d, (m + f') / d;
    assert t * d == r + f && t' * d == m + f';
    assert (t * (d * k)) * d == (r * k + q + t') * d by {
      assert (t * (d * k)) * d == (t * d) * (d * k) by { assert (t * (d * k)) * d == (t * d) * (d * k); }
      RealExpand(r, f, d * k);
      assert r * (d * k) == (r * k) * d by { RealSwap2(r, d, k); }
      RealExpand(r * k, q, d);
      RealExpand(r * k + q, t', d);
    }
    RealMono(t * (d * k), r * k + q + t', d);
  }

  lemma RealSwap2(r: real, d: real, k: real)
    ensures r * (d * k) == (r * k) * d
  {}

  /** The next limb of each of two numbers, and what remains of them. */
  lemma CompareStep(a: real, t: real, x: limb, y: int, a': real, t': real)
    requires a * B as real == x as real + a' && t * B as real == y as real + t'
    requires 0.0 <= a' < 1.0 && 0.0 <= t' < 1.0
    ensures x > y ==> Sgn(a - t) == 1
    ensures x < y ==> Sgn(a - t) == -1
    ensures x == y ==> Sgn(a - t) == Sgn(a' - t')
  {}

  lemma TakeStep(ap: seq<limb>, an: nat)
    requires an < |ap|
    ensures Frac(ap[..an + 1]) * B as real == ap[an] as real + Frac(ap[..an])
  {
    hide Frac;
    FracStep(ap[..an + 1]);
    assert ap[..an + 1][..an] == ap[..an];
  }

  lemma EmptyFrac(s: seq<limb>)
    requires s == []
    ensures Frac(s) == 0.0
  {
    FracRange(s);
  }
}

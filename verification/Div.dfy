/** div.c: the quotient of two numbers by one integer division of truncated
    operands.

    With n limbs wanted for the quotient, beta = B^n, u1 and v1 are the upper 2n
    limbs of the dividend (shifted right by one bit if its significand is at
    least that of the divisor) and the upper n limbs of the divisor; tu and tv
    are what is cut off, in [0, 1).  `exact` is the true quotient
    (u1 + tu) / (v1 + tv), in [beta/2, beta), and q1 the integer quotient of u1
    by v1, which is less than 2 too large and less than 1 too small.  One unit in
    the last place of the destination is d units of q1. */
module Div {
  import opened Powers
  import opened RealPowers
  import opened Limbs
  import opened Rounding
  import opened Range
  import opened Numbers
  import opened Exceptions
  import opened SignedRounding
  import opened Streams
  import opened Shifts
  import opened Significands
  import opened DivLimbs

  // ---- the estimate ----------------------------------------------------------------

  ghost predicate Dividing(u1: int, tu: real, v1: int, tv: real, q1: int, r: int, beta: int, exact: real) {
    && u1 == q1 * v1 + r && 0 <= r < v1 && 0.0 <= tu < 1.0 && 0.0 <= tv < 1.0
    && 1 <= beta <= 2 * v1
    && exact * (v1 as real + tv) == u1 as real + tu
    && 0.0 <= exact < beta as real
  }

  lemma EstimateBounds(u1: int, tu: real, v1: int, tv: real, q1: int, r: int, beta: int, exact: real)
    requires Dividing(u1, tu, v1, tv, q1, r, beta, exact)
    ensures (q1 - 2) as real < exact < (q1 + 1) as real
    ensures q1 <= beta + 1
    ensures tv == 0.0 ==> q1 as real <= exact
    ensures tv == 0.0 ==> (exact == q1 as real <==> r == 0 && tu == 0.0)
  {
    Excess(u1, tu, v1, tv, q1, r, exact);
    var w := v1 as real + tv;
    var e := q1 as real * tv - r as real - tu;
    QuotientSize(u1, tu, v1, tv, q1, r, beta, exact);
    TailProduct(q1, beta, tv);
    CompareWith(q1 as real - exact, 2.0, w, e, 2.0 * w);
    CompareWith(exact - q1 as real, 1.0, w, -e, w);
    if tv == 0.0 { CompareWith(q1 as real - exact, 0.0, w, e, 0.0); }
  }

  lemma TailProduct(q1: int, beta: int, tv: real)
    requires q1 <= beta + 1 && 1 <= beta && 0.0 <= tv < 1.0
    ensures q1 as real * tv < beta as real + 2.0 * tv
    ensures 0 <= q1 ==> q1 as real * tv >= 0.0
    ensures tv == 0.0 ==> q1 as real * tv == 0.0
  {
    if tv > 0.0 {
      TailTimes(beta, tv);
      TailProductReal(q1 as real, beta as real, tv);
    }
  }

  lemma TailProductReal(q: real, b: real, tv: real)
    requires q <= b + 1.0 && tv > 0.0 && tv * b < b
    ensures q * tv < b + 2.0 * tv
    ensures 0.0 <= q ==> q * tv >= 0.0
  {
    RealMono(q, b + 1.0, tv);
    PlusOne(b, tv);
    RealComm(b, tv);
    BelowSum(q * tv, tv * b, tv, b);
    if 0.0 <= q { RealNonNegative(q, tv); }
  }

  lemma BelowSum(x: real, y: real, tv: real, b: real)
    requires x <= y + tv && y < b && tv > 0.0
    ensures x < b + 2.0 * tv
    ensures x < b + tv
  {}

  /** How far q1 is from the exact quotient, in terms of the remainder. */
  lemma Excess(u1: int, tu: real, v1: int, tv: real, q1: int, r: int, exact: real)
    requires u1 == q1 * v1 + r && exact * (v1 as real + tv) == u1 as real + tu
    ensures (q1 as real - exact) * (v1 as real + tv) == q1 as real * tv - r as real - tu
    ensures (exact - q1 as real) * (v1 as real + tv) == -(q1 as real * tv - r as real - tu)
  {
    var w := v1 as real + tv;
    RealSub(q1 as real, exact, w);
    RealSub(exact, q1 as real, w);
    CastProduct(q1, v1);
    RealExpand(v1 as real, tv, q1 as real);
    RealComm(q1 as real, w);
    RealComm(q1 as real, v1 as real);
    RealComm(q1 as real, tv);
  }

  lemma QuotientSize(u1: int, tu: real, v1: int, tv: real, q1: int, r: int, beta: int, exact: real)
    requires Dividing(u1, tu, v1, tv, q1, r, beta, exact)
    ensures 0 <= q1 <= beta + 1
  {
    TailTimes(beta, tv);
    DividendBound(u1 as real + tu, v1 as real, tv, v1 as real + tv, beta as real, exact);
    CastProduct(beta, v1);
    SizeOfInteger(u1, v1, q1, r, beta * v1 + beta, tu, beta);
  }

  lemma SizeOfInteger(u1: int, v1: int, q1: int, r: int, bound: int, tu: real, beta: int)
    requires u1 == q1 * v1 + r && 0 <= r < v1 && bound == beta * v1 + beta && beta <= 2 * v1
    requires 0.0 <= u1 as real + tu < bound as real && 0.0 <= tu < 1.0
    ensures 0 <= q1 <= beta + 1
  {
    IntLt(u1, bound);
    IntLt(-1, u1);
    if q1 < 0 { MulMono(q1, -1, v1); }
    if q1 > beta + 1 { MulMono(beta + 2, q1, v1); Distrib(beta, 2, v1); }
  }

  lemma PlusOne(x: real, y: real)
    ensures (x + 1.0) * y == x * y + y
  {}

  lemma DividendBound(u: real, v: real, tv: real, w: real, b: real, exact: real)
    requires w == v + tv && w > 0.0 && exact * w == u && 0.0 <= exact < b && tv * b < b
    ensures 0.0 <= u < b * v + b
  {
    RealMono(b, exact, w);
    assert w * b == v * b + tv * b by { RealExpand(v, tv, b); }
    RealComm(b, w);
    RealComm(b, v);
    RealNonNegative(exact, w);
    BelowParts(u, b * w, b * v, tv * b, b);
  }

  lemma BelowParts(u: real, bw: real, bv: real, tb: real, b: real)
    requires u < bw && bw == bv + tb && tb < b
    ensures u < bv + b
  {}

  lemma TailTimes(beta: int, tv: real)
    requires beta >= 1 && 0.0 <= tv < 1.0
    ensures 0.0 <= tv * beta as real < beta as real
  {}

  /** The two comparisons of the hard case decide where the exact quotient lies. */
  lemma Comparisons(u1: int, tu: real, v1: int, tv: real, q1: int, r: int, beta: int, exact: real)
    requires Dividing(u1, tu, v1, tv, q1, r, beta, exact)
    ensures Sgn(q1 as real - exact) == Sgn(q1 as real * tv - r as real - tu)
    ensures Sgn((q1 - 1) as real - exact) == Sgn(q1 as real * tv - r as real - tu - (v1 as real + tv))
  {
    Excess(u1, tu, v1, tv, q1, r, exact);
    var w := v1 as real + tv;
    var e := q1 as real * tv - r as real - tu;
    CompareWith(q1 as real - exact, 0.0, w, e, 0.0);
    CompareWith(q1 as real - exact, 1.0, w, e, w);
  }

  /** The top limb qh of a quotient, qh <= 1. */
  function Carried(qh: limb, x: int): int { if qh == 1 then x else 0 }

  // ---- the product q1 * v0 -------------------------------------------------------------

  /** div.c:1195-1207: sp <- q1 * {vp, k}. */
  method Product(qp: seq<limb>, qh: limb, v0: seq<limb>) returns (sp: array<limb>, qh2: limb)
    requires qh <= 1 && |qp| > 0 && |v0| > 0
    ensures fresh(sp) && sp.Length == |qp| + |v0| && qh2 <= 1
    ensures Val(sp[..]) + qh2 * BP(sp.Length) == (Val(qp) + Carried(qh, BP(|qp|))) * Val(v0)
  {
    hide Val, BP;
    var n, k := |qp|, |v0|;
    sp := new limb[n + k](_ => 0);
    if n >= k {
      MpnMul(sp, qp, v0);
    } else {
      MpnMul(sp, v0, qp);
      MulComm(Val(v0), Val(qp));
    }
    ghost var s := sp[..];
    ProductZero(0, BP(n));
    ProductZero(0, BP(n + k));
    qh2 := 0;
    if qh != 0 {
      qh2 := MpnAddN(sp, n, v0);
      ghost var t := sp[..];
      ValSplit(s, n);
      ValSplit(t, n);
      assert t[..n] == s[..n] && t[n..] == sp[n..n + k] && s[n..] == s[n..n + k];
      BPAdd(n, k);
      UpperSum(BP(n), Val(s[n..]), Val(t[n..]), Val(v0), qh2, BP(k), Val(qp));
    }
  }

  lemma UpperSum(p: int, x: int, y: int, v: int, c: int, b: int, q: int)
    requires y + c * b == x + v
    ensures p * y + c * (p * b) == p * x + p * v
    ensures (q + 1 * p) * v == q * v + p * v
  {
    assert p * (y + c * b) == p * (x + v);
    Distrib(y, c * b, p);
    Distrib(x, v, p);
    MulAssoc(p, c, b);
    MulComm(p, c);
    MulAssoc(c, p, b);
    Distrib(q, p, v);
  }

  /** q1 * tv, seen in sp. */
  lemma ProductScaled(sp: seq<limb>, k: nat, qh2: int, q1: int, v0: seq<limb>)
    requires k == |v0| <= |sp| && Val(sp) + qh2 * BP(|sp|) == q1 * Val(v0)
    ensures q1 as real * Frac(v0) == (Val(sp[k..]) + qh2 * BP(|sp| - k)) as real + Frac(sp[..k])
    ensures (q1 as real * Frac(v0)) * BP(k) as real == (q1 * Val(v0)) as real
  {
    hide Val, BP;
    ValSplit(sp, k);
    BPAdd(k, |sp| - k);
    var p, hi := BP(k), Val(sp[k..]) + qh2 * BP(|sp| - k);
    assert q1 * Val(v0) == Val(sp[..k]) + p * hi by {
      Distrib(Val(sp[k..]), qh2 * BP(|sp| - k), p);
      MulAssoc(p, qh2, BP(|sp| - k));
      MulComm(p, qh2);
      MulAssoc(qh2, p, BP(|sp| - k));
    }
    CastProduct(p, hi);
    CastProduct(q1, Val(v0));
    ScaledQuotients(q1 as real, Val(v0) as real, Val(sp[..k]) as real, hi as real, p as real);
  }

  lemma ScaledQuotients(q: real, v: real, lo: real, hi: real, p: real)
    requires p > 0.0 && q * v == lo + p * hi
    ensures q * (v / p) == hi + lo / p
    ensures (q * (v / p)) * p == q * v
  {
    var t, l := v / p, lo / p;
    assert t * p == v && l * p == lo;
    RealRegroup2(q, t, p);
    RealExpand(hi, l, p);
    RealComm(hi, p);
    RealMono(q * t, hi + l, p);
    RealMono(hi + l, q * t, p);
  }

  /** div.c:1209-1219: q1 * v0 against r + u0. */
  method CompareProduct(sp: seq<limb>, qh2: limb, r: seq<limb>, up: seq<limb>, extra: nat, ghost st: real)
    returns (cmp: int)
    requires |r| < |sp| && extra <= 1 && qh2 <= 1 && |up| > 0 && |r| > 0
    requires st == (Val(sp[|sp| - |r|..]) + qh2 * BP(|r|)) as real + Frac(sp[..|sp| - |r|])
    ensures cmp == Sgn(st - Val(r) as real - TailU(up, 2 * |r|, extra))
    ensures qh2 != 0 ==> cmp == 1
  {
    hide Val, BP, Frac, ShiftedTail;
    var n := |r|;
    var k := |sp| - n;
    ValBound(r);
    FracRange(sp[..k]);
    TailURange(up, 2 * n, extra);
    ProductZero(qh2, BP(n));
    if qh2 != 0 {
      MulMono(1, qh2, BP(n));
      assert Sgn((st - Val(r) as real - TailU(up, 2 * n, extra))) == 1;
      return 1;
    }
    cmp := MpnCmp(sp[k..], r);
    SgnSplit(Val(sp[k..]) - Val(r), Frac(sp[..k]), TailU(up, 2 * n, extra));
    if cmp == 0 {
      if |up| >= 2 * n {
        cmp := CmpAux(sp[..k], up, |up| - 2 * n, extra);
      } else {
        var nonzero := CmpZero(sp[..k]);
        cmp := if nonzero then 1 else 0;
      }
    }
  }

  lemma SgnSplit(h: int, f: real, t: real)
    requires 0.0 <= f < 1.0 && 0.0 <= t < 1.0
    ensures h != 0 ==> Sgn(h as real + f - t) == Sgn(h as real)
    ensures h == 0 ==> Sgn(h as real + f - t) == Sgn(f - t)
    ensures Sgn(h as real) == 0 <==> h == 0
  {}

  lemma TailURange(up: seq<limb>, qq: nat, extra: nat)
    ensures 0.0 <= TailU(up, qq, extra) < 1.0
  {
    if 0 < qq <= |up| { ShiftedTailRange(up[|up| - qq], up[..|up| - qq], extra); }
  }

  // ---- q1 * v0 - r - u0 -----------------------------------------------------------------

  /** div.c:1237-1262: the low part of the dividend is subtracted from {sp, k},
      rounded up to an integer; lowU tells whether that changed it. */
  method SubtractLow(sp: array<limb>, k: nat, up: seq<limb>, qq: nat, extra: nat, lowU0: bool) returns (cy: limb, lowU: bool, ghost g: real)
    requires 0 < k <= sp.Length && extra <= 1 && 0 < qq && (lowU0 <==> TailU(up, qq, extra) > 0.0)
    modifies sp
    ensures cy <= 1 && sp[k..] == old(sp[k..])
    ensures (Val(sp[..k]) - cy * BP(k)) as real == Val(old(sp[..k])) as real - TailU(up, qq, extra) * BP(k) as real - g
    ensures 0.0 <= g < 1.0 && (lowU <==> g > 0.0)
  {
    hide Val, BP, Frac, ShiftedTail;
    cy, lowU, g := 0, lowU0, 0.0;
    TailURange(up, qq, extra);
    ProductZero(0, BP(k));
    if !lowU0 { return; }
    var l := |up| - qq;
    if l >= k {
      cy, lowU, g := SubtractLong(sp, k, up, l, extra);
    } else {
      lowU := false;
      cy := SubtractShort(sp, k, up, l, extra);
    }
  }

  /** div.c:1244-1252: the low part of the dividend has at least k limbs. */
  method SubtractLong(sp: array<limb>, k: nat, up: seq<limb>, l: nat, extra: nat) returns (cy: limb, lowU: bool, ghost g: real)
    requires 0 < k <= sp.Length && k <= l < |up| && extra <= 1
    modifies sp
    ensures cy <= 1 && sp[k..] == old(sp[k..])
    ensures (Val(sp[..k]) - cy * BP(k)) as real
              == Val(old(sp[..k])) as real - ShiftedTail(up[l], up[..l], extra) * BP(k) as real - g
    ensures 0.0 <= g < 1.0 && (lowU <==> g > 0.0)
  {
    hide Val, BP, Frac, ShiftedTail, ShiftedVal;
    var m := l - k;
    var nonzero := CmpZero(up[..m]);
    cy := if extra == 1 && up[m] % 2 == 1 then 1 else if nonzero then 1 else 0;
    lowU := cy != 0;
    TailNonzero(up, m, extra);
    g := cy as real - ShiftedTail(up[m], up[..m], extra);
    ghost var cy0 := cy;
    ShiftedValTail(up, m, k, extra);
    assert sp[..k] == sp[0..0 + k] && sp[k..] == sp[0 + k..];
    cy := SubAux(sp, 0, up, m, k, cy, extra);
    assert sp[..k] == sp[0..0 + k] && sp[k..] == sp[0 + k..];
    LongSum(Val(sp[..k]), Val(old(sp[..k])), ShiftedVal(up, m, k, extra), cy0, cy * BP(k));
  }

  lemma LongSum(t: int, s: int, sv: int, cy0: int, p: int)
    requires t == s - sv - cy0 + p
    ensures (t - p) as real == s as real - sv as real - cy0 as real
  {}

  lemma TailNonzero(up: seq<limb>, m: nat, extra: nat)
    requires m < |up| && extra <= 1
    ensures ShiftedTail(up[m], up[..m], extra) > 0.0 <==> (extra == 1 && up[m] % 2 == 1) || Val(up[..m]) != 0
    ensures 0.0 <= ShiftedTail(up[m], up[..m], extra) < 1.0
  {
    hide Val, Frac, ShiftedTail;
    Pow2Zero();
    Pow2Two();
    ShiftedTailRange(up[m], up[..m], extra);
  }

  /** div.c:1253-1261: the low part of the dividend has fewer limbs. */
  method SubtractShort(sp: array<limb>, k: nat, up: seq<limb>, l: nat, extra: nat) returns (cy: limb)
    requires l < k <= sp.Length && l < |up| && extra <= 1
    modifies sp
    ensures cy <= 1 && sp[k..] == old(sp[k..])
    ensures (Val(sp[..k]) - cy * BP(k)) as real
              == Val(old(sp[..k])) as real - ShiftedTail(up[l], up[..l], extra) * BP(k) as real
  {
    hide Val, BP, Frac, ShiftedTail;
    var j := k - l;
    ghost var s := sp[..];
    cy := if extra == 1 && up[0] % 2 == 1 then 1 else 0;
    ghost var bit := cy;
    if cy != 0 { cy := SubtractHalf(sp, j); } else { NothingSubtracted(sp[..], j); }
    ghost var s', b1 := sp[..], cy;
    assert s'[j..j + l] == s[j..k] by { assert s'[j..j + l] == s'[j..][..l]; assert s[j..k] == s[j..][..l]; }
    cy := SubAux(sp, j, up, 0, l, cy, extra);
    ghost var t := sp[..];
    assert t[..j] == s'[..j] && sp[j..j + l] == t[j..k] && s'[j..j + l] == s[j..k];
    assert t[k..] == s'[k..] && s'[k..] == s'[j..][l..] && s[k..] == s[j..][l..];
    assert sp[..k] == t[..k] && sp[k..] == t[k..];
    ShortResult(s, t, up, l, j, extra, bit, b1, cy);
  }

  lemma NothingSubtracted(s: seq<limb>, j: nat)
    requires 0 < j <= |s|
    ensures Val(s[..j]) == Val(s[..j]) - 0 * (HALF * BP(j - 1)) + 0 * BP(j)
  {}

  /** The bit that falls below the lowest limb of the shifted number. */
  method SubtractHalf(sp: array<limb>, j: nat) returns (cy: limb)
    requires 0 < j <= sp.Length
    modifies sp
    ensures cy <= 1 && sp[j..] == old(sp[j..])
    ensures Val(sp[..j]) == Val(old(sp[..j])) - 1 * (HALF * BP(j - 1)) + cy * BP(j)
  {
    hide Val, BP;
    ghost var s := sp[..];
    cy := MpnSub1(sp, j - 1, 1, HALF);
    ghost var s' := sp[..];
    assert s'[..j - 1] == s[..j - 1] && s'[j..] == s[j..] && sp[j..] == s'[j..] && s'[..j] == sp[..j];
    assert s'[j - 1..j] == sp[j - 1..j - 1 + 1] && s[j - 1..j] == old(sp[j - 1..j - 1 + 1]);
    OneLimbSub(s, s', j, 1, cy);
  }

  lemma ShortResult(s: seq<limb>, t: seq<limb>, up: seq<limb>, l: nat, j: nat, extra: nat, bit: int, b1: int, cy: int)
    requires l < |up| && 0 < j && j + l <= |s| == |t| && extra <= 1 && bit == if extra == 1 && up[0] % 2 == 1 then 1 else 0
    requires Val(t[..j]) == Val(s[..j]) - bit * (HALF * BP(j - 1)) + b1 * BP(j)
    requires Val(t[j..j + l]) == Val(s[j..j + l]) - ShiftedVal(up, 0, l, extra) - b1 + cy * BP(l)
    ensures (Val(t[..j + l]) - cy * BP(j + l)) as real
              == Val(s[..j + l]) as real - ShiftedTail(up[l], up[..l], extra) * BP(j + l) as real
  {
    hide Val, BP, Frac, ShiftedTail, ShiftedVal;
    var k := j + l;
    ShortTail(up, l, j, extra);
    ValSplit(s[..k], j);
    ValSplit(t[..k], j);
    assert s[..k][..j] == s[..j] && t[..k][..j] == t[..j];
    assert s[..k][j..] == s[j..k] && t[..k][j..] == t[j..k];
    BPAdd(j, l);
    ShortSum(Val(s[..j]), Val(t[..j]), Val(s[j..k]), Val(t[j..k]), ShiftedVal(up, 0, l, extra),
             HALF * BP(j - 1), bit, b1, cy, BP(j), BP(l));
  }

  lemma OneLimbSub(s: seq<limb>, s': seq<limb>, j: nat, bit: int, b1: int)
    requires |s| == |s'| && 0 < j <= |s| && s'[..j - 1] == s[..j - 1] && 0 <= bit <= 1
    requires bit == 0 ==> s'[j - 1] == s[j - 1] && b1 == 0
    requires bit == 1 ==> Val(s'[j - 1..j]) == Val(s[j - 1..j]) - HALF + b1 * BP(1)
    ensures Val(s'[..j]) == Val(s[..j]) - bit * (HALF * BP(j - 1)) + b1 * BP(j)
  {
    hide Val, BP;
    ValTake(s, j - 1);
    ValTake(s', j - 1);
    BPStep(j - 1);
    if bit == 1 {
      BPZero();
      BPStep(0);
      assert s[j - 1..j] == [s[j - 1]] && s'[j - 1..j] == [s'[j - 1]];
      ValOne(s[j - 1]);
      ValOne(s'[j - 1]);
      var x: int, y: int := s[j - 1], s'[j - 1];
      OneLimbProduct(x, y, b1, BP(j - 1));
    } else {
      ProductZero(0, BP(j));
      ProductZero(0, HALF * BP(j - 1));
    }
  }

  lemma OneLimbProduct(x: int, y: int, b1: int, p: int)
    requires y == x - HALF + b1 * B
    ensures y * p == x * p - HALF * p + b1 * (B * p)
  {
    assert y * p == (x - HALF + b1 * B) * p;
    Distrib(x, -HALF, p);
    Distrib(x - HALF, b1 * B, p);
    MulAssoc(b1, B, p);
  }

  lemma ShortTail(up: seq<limb>, l: nat, j: nat, extra: nat)
    requires l < |up| && 0 < j && extra <= 1
    ensures var bit := if extra == 1 && up[0] % 2 == 1 then 1 else 0;
            ShiftedTail(up[l], up[..l], extra) * BP(j + l) as real
              == (BP(j) * ShiftedVal(up, 0, l, extra) + bit * (HALF * BP(j - 1))) as real
  {
    hide BP, ShiftedTail, ShiftedVal;
    ShiftedValTail(up, 0, l, extra);
    assert up[..0] == [];
    LastBit(up[0], extra);
    BPAdd(l, j);
    BPStep(j - 1);
    CastProduct(BP(l), BP(j));
    CastProduct(ShiftedVal(up, 0, l, extra), BP(j));
    MulComm(BP(j), ShiftedVal(up, 0, l, extra));
    TailUp(ShiftedTail(up[l], up[..l], extra), BP(l) as real, ShiftedVal(up, 0, l, extra) as real,
           if extra == 1 && up[0] % 2 == 1 then 0.5 else 0.0, BP(j) as real);
  }

  lemma ShortSum(slo: int, tlo: int, shi: int, thi: int, sv: int, h: int, bit: int, b1: int, cy: int, pj: int, pl: int)
    requires tlo == slo - bit * h + b1 * pj
    requires thi == shi - sv - b1 + cy * pl
    ensures tlo + pj * thi - cy * (pj * pl) == slo + pj * shi - (pj * sv + bit * h)
  {
    assert pj * thi == pj * (shi - sv - b1 + cy * pl);
    Distrib(shi, -sv, pj);
    Distrib(shi - sv, -b1, pj);
    Distrib(shi - sv - b1, cy * pl, pj);
    MulComm(b1, pj);
    MulAssoc(pj, cy, pl);
    MulComm(pj, cy);
    MulAssoc(cy, pj, pl);
  }

  /** div.c:1229-1273: q1 * v0 - r - u0 against v; there is no borrow out. */
  method CompareDifference(sp: array<limb>, qh2: limb, r: seq<limb>, vp: seq<limb>, up: seq<limb>, extra: nat, lowU0: bool,
                           ghost st: real)
    returns (cmp: int)
    requires 0 < |r| < sp.Length == |vp| && extra <= 1 && (lowU0 <==> TailU(up, 2 * |r|, extra) > 0.0)
    requires var k, tu := sp.Length - |r|, TailU(up, 2 * |r|, extra);
             if qh2 == 0 then
               st * BP(k) as real == Val(sp[..]) as real && st > Val(r) as real + tu
             else
               st - Val(r) as real - tu > Val(vp[k..]) as real + Frac(vp[..k])
    modifies sp
    ensures var k, tu := sp.Length - |r|, TailU(up, 2 * |r|, extra);
            cmp == Sgn(st - Val(r) as real - tu - (Val(vp[k..]) as real + Frac(vp[..k])))
  {
    hide Val, BP, Frac, TailU;
    if qh2 != 0 { return 1; }
    var lowU;
    ghost var g;
    lowU, g := SubtractAll(sp, r, up, extra, lowU0, st);
    cmp := MpnCmp(sp[..], vp);
    VersusDivisor(Val(sp[..]), g, vp, sp.Length - |r|, st - Val(r) as real - TailU(up, 2 * |r|, extra));
    if cmp == 0 && lowU { cmp := 1; }
  }

  /** sp <- sp - u0 - r, u0 rounded up. */
  method SubtractAll(sp: array<limb>, r: seq<limb>, up: seq<limb>, extra: nat, lowU0: bool, ghost st: real)
    returns (lowU: bool, ghost g: real)
    requires 0 < |r| < sp.Length && extra <= 1 && (lowU0 <==> TailU(up, 2 * |r|, extra) > 0.0)
    requires st * BP(sp.Length - |r|) as real == Val(sp[..]) as real
    requires st > Val(r) as real + TailU(up, 2 * |r|, extra)
    modifies sp
    ensures 0.0 <= g < 1.0 && (lowU <==> g > 0.0)
    ensures Val(sp[..]) as real + g == (st - Val(r) as real - TailU(up, 2 * |r|, extra)) * BP(sp.Length - |r|) as real
  {
    hide Val, BP, Frac, TailU;
    var n, k := |r|, sp.Length - |r|;
    ghost var s := sp[..];
    var cy;
    cy, lowU, g := SubtractLow(sp, k, up, 2 * n, extra, lowU0);
    ghost var s1 := sp[..];
    assert s[..k] == old(sp[..k]) && s1[..k] == sp[..k] && s1[k..] == s[k..];
    ghost var b := SubtractHigh(sp, k, cy, r);
    ghost var t := sp[..];
    DifferenceValue(s, s1, t, k, n, cy, b, st, TailU(up, 2 * n, extra), g, Val(r));
  }

  /** div.c:1263-1267. */
  method SubtractHigh(sp: array<limb>, k: nat, cy: limb, r: seq<limb>) returns (ghost b: int)
    requires sp.Length == k + |r| && |r| > 0
    modifies sp
    ensures 0 <= b && sp[..k] == old(sp[..k])
    ensures Val(sp[k..]) == Val(old(sp[k..])) - cy - Val(r) + b * BP(|r|)
  {
    hide Val, BP;
    var n := |r|;
    assert sp[k..k + n] == sp[k..];
    var b1 := MpnSub1(sp, k, n, cy);
    assert sp[k..k + n] == sp[k..];
    var b2 := MpnSubN(sp, k, r);
    assert sp[k..k + n] == sp[k..];
    b := b1 + b2;
    Distrib(b1, b2, BP(n));
  }

  predicate IsScaled(x: real, p: int, v: int) { x * p as real == v as real }

  predicate IsScaledDown(x: real, p: int, v: int, g: real) { v as real + g == x * p as real }

  predicate LowDifference(lo: int, cy: int, slo: int, tu: real, p: int, g: real) {
    (lo - cy * p) as real == slo as real - tu * p as real - g
  }

  predicate HighDifference(hi: int, shi: int, cy: int, r: int, b: int, bn: int) { hi == shi - cy - r + b * bn }

  predicate HasParts(v: int, lo: int, hi: int, p: int) { v == lo + p * hi }

  predicate IsBelow(v: int, p: int, b: int) { 0 <= v < p * b }

  lemma PartsOf(s: seq<limb>, k: nat, n: nat)
    requires |s| == k + n
    ensures HasParts(Val(s), Val(s[..k]), Val(s[k..]), BP(k)) && IsBelow(Val(s), BP(k), BP(n))
  {
    hide Val, BP;
    ValSplit(s, k);
    ValBound(s);
    BPAdd(k, n);
  }

  lemma DifferenceValue(s: seq<limb>, s1: seq<limb>, t: seq<limb>, k: nat, n: nat, cy: int, b: int, st: real, tu: real,
                        g: real, r: int)
    requires |s| == |s1| == |t| == k + n && t[..k] == s1[..k] && 0 <= b
    requires LowDifference(Val(s1[..k]), cy, Val(s[..k]), tu, BP(k), g)
    requires HighDifference(Val(t[k..]), Val(s[k..]), cy, r, b, BP(n))
    requires IsScaled(st, BP(k), Val(s)) && st > r as real + tu && 0.0 <= g < 1.0
    ensures IsScaledDown(st - r as real - tu, BP(k), Val(t), g)
  {
    hide Val, BP, LowDifference, HighDifference, IsScaled, IsScaledDown, HasParts, IsBelow;
    PartsOf(s, k, n);
    PartsOf(t, k, n);
    DifferenceFits(st, r, tu, BP(k), Val(s), Val(t), Val(s[..k]), Val(s[k..]), Val(t[..k]), Val(t[k..]), cy, g, b, BP(n));
  }

  lemma DifferenceInt(v: int, lo: int, hi: int, his: int, p: int, bn: int, cy: int, r: int, b: int)
    requires v == lo + p * hi && HighDifference(hi, his, cy, r, b, bn)
    ensures v - b * (p * bn) == lo - cy * p + p * his - r * p
  {
    Distrib(his, -cy, p);
    Distrib(his - cy, -r, p);
    Distrib(his - cy - r, b * bn, p);
    MulComm(p, b);
    MulAssoc(p, b, bn);
    MulAssoc(b, p, bn);
  }

  /** There is no borrow out, because the result is not negative. */
  lemma DifferenceFits(st: real, r: int, tu: real, p: int, s: int, t: int, slo: int, shi: int, lo: int, hi: int, cy: int,
                       g: real, b: int, bn: int)
    requires p >= 1 && bn >= 1 && IsScaled(st, p, s) && st > r as real + tu && 0.0 <= g < 1.0
    requires HasParts(s, slo, shi, p) && HasParts(t, lo, hi, p) && IsBelow(t, p, bn) && 0 <= b
    requires LowDifference(lo, cy, slo, tu, p, g) && HighDifference(hi, shi, cy, r, b, bn)
    ensures IsScaledDown(st - r as real - tu, p, t, g)
  {
    DifferenceInt(t, lo, hi, shi, p, bn, cy, r, b);
    NoBorrow(st, r, tu, p, s, t, slo, lo - cy * p, p * shi, g, b, p * bn, r * p);
  }

  lemma NoBorrow(st: real, r: int, tu: real, p: int, s: int, t: int, slo: int, lo: int, hi: int, g: real, b: int, m: int, rp: int)
    requires p >= 1 && m >= 1 && IsScaled(st, p, s) && st > r as real + tu && 0.0 <= g < 1.0
    requires s == slo + hi && 0 <= t < m && 0 <= b && rp == r * p
    requires lo as real == slo as real - tu * p as real - g
    requires t - b * m == lo + hi - rp
    ensures IsScaledDown(st - r as real - tu, p, t, g)
  {
    CastProduct(r, p);
    DifferenceScaled(st, r as real, tu, p as real, s as real);
    var x := lo + hi - rp;
    assert x as real + g == (st - r as real - tu) * p as real;
    RealNonNegative(st - r as real - tu, p as real);
    IntLt(-1, x);
    if b >= 1 { MulMono(1, b, m); } else { ProductZero(0, m); }
  }

  lemma DifferenceScaled(st: real, r: real, tu: real, p: real, s: real)
    requires st * p == s
    ensures (st - r - tu) * p == s - r * p - tu * p
  {
    RealSub(st - r, tu, p);
    RealSub(st, r, p);
  }

  lemma VersusDivisor(t: int, g: real, vp: seq<limb>, k: nat, e: real)
    requires k <= |vp| && t as real + g == e * BP(k) as real && 0.0 <= g < 1.0
    ensures var s := Sgn((t - Val(vp)) as real);
            Sgn(e - (Val(vp[k..]) as real + Frac(vp[..k]))) == if s == 0 && g > 0.0 then 1 else s
  {
    hide Val, BP;
    SplitScaled(vp, k);
    AgainstTail(e, Val(vp[k..]) as real + Frac(vp[..k]), BP(k), t, Val(vp), g);
  }

  lemma SplitScaled(vp: seq<limb>, k: nat)
    requires k <= |vp|
    ensures (Val(vp[k..]) as real + Frac(vp[..k])) * BP(k) as real == Val(vp) as real
  {
    hide Val, BP;
    ValSplit(vp, k);
    ScaledParts(Val(vp[k..]), Frac(vp[..k]), BP(k), Val(vp[..k]), Val(vp));
  }

  lemma ScaledParts(hi: int, f: real, p: int, lo: int, v: int)
    requires v == lo + p * hi && p >= 1 && f == lo as real / p as real
    ensures (hi as real + f) * p as real == v as real
  {
    assert f * p as real == lo as real;
    CastProduct(p, hi);
    RealExpand(hi as real, f, p as real);
    RealComm(hi as real, p as real);
  }

  lemma AgainstTail(e: real, w: real, p: int, t: int, v: int, g: real)
    requires p >= 1 && w * p as real == v as real && t as real + g == e * p as real && 0.0 <= g < 1.0
    ensures var s := Sgn((t - v) as real); Sgn(e - w) == if s == 0 && g > 0.0 then 1 else s
  {
    RealSub(e, w, p as real);
    CompareWith(e - w, 0.0, p as real, (t - v) as real + g, 0.0);
  }

  // ---- the operands as the division sees them ---------------------------------------------

  /** The bit by which the quotient of the significands is shifted. */
  ghost function Extra(up: seq<limb>, vp: seq<limb>): (r: nat)
    ensures r <= 1
  {
    if Frac(up) >= Frac(vp) then 1 else 0
  }

  /** u1 + tu. */
  ghost function Dividend(up: seq<limb>, extra: nat, n: nat): real { Frac(up) / Pow2(extra) as real * BP(2 * n) as real }

  /** v1 + tv. */
  ghost function Divisor(vp: seq<limb>, n: nat): real { Frac(vp) * BP(n) as real }

  /** q1, the quotient of the truncated operands. */
  ghost function FirstQuotient(up: seq<limb>, vp: seq<limb>, extra: nat, n: nat): int {
    if Divisor(vp, n).Floor <= 0 then 0 else Dividend(up, extra, n).Floor / Divisor(vp, n).Floor
  }

  /** The quotient of the significands, in units of the last limb computed. */
  ghost function ExactScaled(up: seq<limb>, vp: seq<limb>, n: nat): real {
    if Frac(vp) == 0.0 then 0.0 else Frac(up) / Pow2(Extra(up, vp)) as real / Frac(vp) * BP(n) as real
  }

  // ---- the estimate, computed ---------------------------------------------------------

  /** div.c:1041-1109: q1 = qh + {qp, n}, with the remainder in {ap, n}. */
  method Estimate(qp: array<limb>, up: seq<limb>, vp: seq<limb>, extra: nat)
    returns (ap: array<limb>, qh: limb, lowU: bool, ghost u1: int)
    requires |up| > 0 && |vp| > 0 && vp[|vp| - 1] >= HALF && qp.Length > 0 && extra <= 1
    modifies qp
    ensures fresh(ap) && ap.Length == 2 * qp.Length && qh <= 1
    ensures lowU <==> TailU(up, 2 * qp.Length, extra) > 0.0
    ensures u1 as real + TailU(up, 2 * qp.Length, extra) == Dividend(up, extra, qp.Length)
    ensures u1 == (Val(qp[..]) + Carried(qh, BP(qp.Length))) * TopB(vp, qp.Length) + Val(ap[..qp.Length])
    ensures Val(ap[..qp.Length]) < TopB(vp, qp.Length)
  {
    hide Val, BP, Frac, TailU, TopB, Pow2;
    var n := qp.Length;
    ap := new limb[2 * n](_ => 0);
    lowU := PrepareDividend(ap, up, extra);
    ghost var s := ap[..];
    u1 := Val(s);
    var d, k := vp, 0;
    if |vp| >= n {
      d := vp[|vp| - n..];
    } else {
      k := n - |vp|;
    }
    assert s[k..] == ap[k..];
    qh := MpnDivrem(qp, ap, k, d);
    ghost var t := ap[..];
    assert t[..k] == s[..k] && t[k..k + |d|] == ap[k..k + |d|] && t[..n] == ap[..n];
    Remainder(s, t, n, k, d, vp, Val(qp[..]) + Carried(qh, BP(n)));
  }

  lemma Remainder(s: seq<limb>, t: seq<limb>, n: nat, k: nat, d: seq<limb>, vp: seq<limb>, q: int)
    requires |s| == |t| == 2 * n && k + |d| == n && t[..k] == s[..k] && |vp| > 0
    requires if |vp| >= n then k == 0 && d == vp[|vp| - n..] else d == vp
    requires Val(s[k..]) == q * Val(d) + Val(t[k..n]) && Val(t[k..n]) < Val(d)
    ensures Val(s) == q * TopB(vp, n) + Val(t[..n])
    ensures Val(t[..n]) < TopB(vp, n)
  {
    hide Val, BP;
    ValSplit(s, k);
    ValSplit(t[..n], k);
    assert t[..n][..k] == t[..k] && t[..n][k..] == t[k..n];
    ValBound(t[..k]);
    BPZero();
    if |vp| == n { assert d == vp; }
    assert TopB(vp, n) == Val(d) * BP(k);
    ScaledDivision(BP(k), q, Val(d), Val(t[k..n]), Val(s[..k]));
  }

  lemma ScaledDivision(p: int, q: int, v: int, r: int, low: int)
    requires p >= 1 && 0 <= r < v && 0 <= low < p
    ensures low + p * (q * v + r) == q * (v * p) + (low + p * r)
    ensures low + p * r < v * p
  {
    Distrib(q * v, r, p);
    MulComm(p, q * v);
    MulAssoc(q, v, p);
    MulMono(r + 1, v, p);
    Distrib(r, 1, p);
    MulComm(p, r);
  }

  /** The exact quotient, in units of the last limb of the estimate, has n limbs
      and its high bit set. */
  lemma ExactQuotient(up: seq<limb>, vp: seq<limb>, extra: nat, n: nat) returns (exact: real)
    requires n > 0 && |vp| > 0 && vp[|vp| - 1] >= HALF
    requires 0.5 <= Frac(up) < 1.0 && 0.5 <= Frac(vp) < 1.0
    requires extra == Extra(up, vp)
    ensures exact * (TopB(vp, n) as real + TailB(vp, n)) == Dividend(up, extra, n)
    ensures BP(n) as real / 2.0 <= exact < BP(n) as real
    ensures exact == ExactScaled(up, vp, n)
  {
    hide Frac, BP, TopB, TailB, Pow2;
    TopBValue(vp, n);
    BPAdd(n, n);
    CastProduct(BP(n), BP(n));
    Pow2Zero();
    Pow2Two();
    var f := Frac(up) / Pow2(extra) as real;
    var g := f / Frac(vp);
    assert g * Frac(vp) == f;
    exact := g * BP(n) as real;
    SquareScale(g, Frac(vp), BP(n) as real, f);
    GBound(g, Frac(vp), f);
    CompareWith(g, 0.5, BP(n) as real, exact, BP(n) as real / 2.0);
    CompareWith(g, 1.0, BP(n) as real, exact, BP(n) as real);
  }

  lemma SquareScale(g: real, v: real, b: real, f: real)
    requires g * v == f
    ensures (g * b) * (v * b) == f * (b * b)
  {
    RealFour(g, b, v, b);
  }

  lemma GBound(g: real, v: real, f: real)
    requires 0.5 <= v < 1.0 && g * v == f && f < v && v <= 2.0 * f
    ensures 0.5 <= g < 1.0
  {
    CompareWith(g, 1.0, v, f, v);
    CompareWith(g, 0.5, v, f, v / 2.0);
  }

  // ---- the decision -----------------------------------------------------------------

  /** Where the code jumps to; two subtractions fall through into one. */
  datatype Label = Case1 | Truncate | TruncateCheckQh | SubOneUlp | SubTwoUlp

  /** rd = r * d is what direction dir demands for `exact`, with ternary value t;
      odd is the parity of r. */
  ghost predicate Fits(exact: real, rd: int, d: int, dir: Direction, odd: bool, t: int) {
    && t == Sgn(rd as real - exact)
    && match dir
       case TowardZero => rd as real <= exact < (rd + d) as real
       case AwayFromZero => (rd - d) as real < exact <= rd as real
       case Nearest => 2.0 * Dist(rd as real, exact) <= d as real
                       && (2.0 * Dist(rd as real, exact) == d as real ==> !odd)
  }

  lemma FitsRounds(exact: real, y: real, r: int, d: int, dir: Direction, t: int)
    requires d >= 1 && y * d as real == exact && Fits(exact, r * d, d, dir, r % 2 == 1, t)
    ensures RoundsTo(y, dir, r, t)
  {
    var g, u, f := r as real - y, d as real, (r * d) as real - exact;
    CastProduct(r, d);
    RealSub(r as real, y, u);
    CompareWith(g, 0.0, u, f, 0.0);
    CompareWith(g, 1.0, u, f, u);
    CompareWith(g, -1.0, u, f, -u);
    CompareWith(g, 0.5, u, f, u / 2.0);
    CompareWith(g, -0.5, u, f, -u / 2.0);
    FitsUnits(exact, y, r, r * d, d, dir, t, g, f);
  }

  lemma FitsUnits(exact: real, y: real, r: int, rd: int, d: int, dir: Direction, t: int, g: real, f: real)
    requires Fits(exact, rd, d, dir, r % 2 == 1, t) && g == r as real - y && f == rd as real - exact
    requires f < 0.0 <==> g < 0.0
    requires f == 0.0 <==> g == 0.0
    requires f < d as real <==> g < 1.0
    requires f < -(d as real) <==> g < -1.0
    requires f == -(d as real) <==> g == -1.0
    requires f < d as real / 2.0 <==> g < 0.5
    requires f == d as real / 2.0 <==> g == 0.5
    requires f < -(d as real) / 2.0 <==> g < -0.5
    requires f == -(d as real) / 2.0 <==> g == -0.5
    ensures RoundsTo(y, dir, r, t)
  {}

  /** q1 = ad + rb * d/2 + s3 (rb = 0 in the directed modes), ad a multiple of d. */
  ghost predicate Truncated(dir: Direction, q1: int, ad: int, d: int, rb: int, s3: int) {
    && 0 <= rb <= 1 && 0 <= s3 && d >= 1
    && if dir == Nearest then
         d % 2 == 0 && s3 < d / 2 && q1 == ad + (if rb == 1 then d / 2 else 0) + s3
       else
         rb == 0 && s3 < d && q1 == ad + s3
  }

  /** At the label case_1: rounding bit and sticky bit describe `exact`. */
  ghost predicate Described(dir: Direction, exact: real, ad: int, d: int, rb: int, sticky: bool) {
    var base := if rb == 1 then ad + d / 2 else ad;
    && 0 <= rb <= 1
    && (dir != Nearest ==> rb == 0)
    && (!sticky ==> exact == base as real)
    && (sticky ==> base as real < exact < (base + if dir == Nearest then d / 2 else d) as real)
  }

  /** What the label, and the variables that are alive there, say about `exact`. */
  ghost predicate Settled(next: Label, inex: int, rb: int, sticky: bool, ssh: nat,
                          dir: Direction, sh: nat, exact: real, ad: int, d: int, odd: bool, beta: int) {
    match next
    case Case1 => ad < beta && Described(dir, exact, ad, d, rb, sticky)
    case Truncate => ad < beta && Fits(exact, ad, d, dir, odd, inex)
    case TruncateCheckQh => Fits(exact, ad, d, dir, odd, inex)
    case SubOneUlp => ssh == sh && Fits(exact, ad - d, d, dir, !odd, inex)
    case SubTwoUlp =>
      || (sh == ssh == 0 && d == 1 && Fits(exact, ad - 2, 1, dir, odd, inex))
      || (sh == 1 && ssh == 0 && d == 2 && Fits(exact, ad - 2, 2, dir, !odd, inex))
  }

  /** div.c:1296-1300 takes cmp_s_r for the ternary value although the bits
      10...0 of the estimate are being truncated: when the exact quotient is
      q1 - 1, that is 01...1, the result is said to be exact. */
  ghost predicate SaysExact(dir: Direction, q1: int, exact: real, d: int) {
    dir == Nearest && d >= 4 && exact == (q1 - 1) as real && q1 % d == d / 2
  }

  /** div.c:1283-1292 with one bit below the last place: when the exact quotient
      is q1 - 1, it is a midpoint, and the code always takes the upper neighbour. */
  ghost predicate TieUp(dir: Direction, q1: int, exact: real, d: int) {
    dir == Nearest && d == 2 && exact == (q1 - 1) as real && q1 % 4 == 2
  }

  /** div.c:1148-1160: the full divisor was used. */
  method DecideFull(dir: Direction, low: nat, h: nat, stickyU: bool, ghost q1: int, ghost exact: real, ghost ad: int, ghost d: int)
    returns (rb: int, sticky: bool)
    requires if dir == Nearest then h >= 1 && d == h * 2 else d >= 1
    requires q1 == ad + low && low < d && q1 as real <= exact < (q1 + 1) as real && (!stickyU <==> exact == q1 as real)
    ensures Described(dir, exact, ad, d, rb, sticky)
  {
    var inexact := stickyU || low != 0;
    rb := 0;
    if dir == Nearest {
      rb := low / h;
      sticky := low % h != 0 || stickyU;
      SplitBelow(low, h);
      assert (q1 + 1) as real <= (ad + (if rb == 1 then h else 0) + h) as real;
    } else if dir == TowardZero || !inexact {
      sticky := inexact;
      assert (q1 + 1) as real <= (ad + d) as real;
    } else {
      sticky := true;
      assert (q1 + 1) as real <= (ad + d) as real;
    }
  }

  lemma SplitBelow(low: nat, h: nat)
    requires h >= 1 && low < h * 2
    ensures 0 <= low / h <= 1 && 0 <= low % h < h && low == (if low / h == 1 then h else 0) + low % h
  {
    MulComm(h, low / h);
    DivMulLt(low, h, 2);
  }

  /** div.c:1220-1362: q1 - 2 < exact < q1 + 1, compared with q1 and, if that is
      greater, with q1 - 1. */
  method DecideHard(dir: Direction, sh: nat, rb: int, s3: int, c1: int, c2: int,
                    ghost q1: int, ghost exact: real, ghost ad: int, ghost d: int, ghost odd: bool, ghost beta: int)
    returns (next: Label, inex: int, sticky: bool, ssh: nat)
    requires Truncated(dir, q1, ad, d, rb, s3) && 0 <= s3 <= 1
    requires if dir == Nearest then sh == 1 <==> d == 2 else sh == 0 <==> d == 1
    requires (q1 - 2) as real < exact < (q1 + 1) as real && exact < beta as real
    requires c1 == Sgn(q1 as real - exact) && (c1 > 0 ==> c2 == Sgn((q1 - 1) as real - exact))
    ensures dir == Nearest && exact == (q1 - 1) as real && d >= 4 && rb == 1 && s3 == 0 ==> next == Truncate && inex == 0 && ad < beta
    ensures dir == Nearest && exact == (q1 - 1) as real && d == 2 && rb == 0 && odd ==> next == TruncateCheckQh && inex == 1
    ensures !(dir == Nearest && exact == (q1 - 1) as real && (if d == 2 then rb == 0 && odd else rb == 1 && s3 == 0)) ==>
              Settled(next, inex, rb, sticky, ssh, dir, sh, exact, ad, d, odd, beta)
  {
    ssh, sticky, inex := sh, false, 0;
    if c1 <= 0 {
      sticky := if c1 == 0 then s3 != 0 else true;
      next := Case1;
    } else if c2 <= 0 {
      if s3 == 1 {
        sticky := c2 != 0;
        next := Case1;
      } else if rb == 0 {
        inex := if c2 != 0 || sh != 0 then -1 else 0;
        if dir == Nearest || (dir == AwayFromZero && inex != 0) {
          inex := 1;
          next := TruncateCheckQh;
        } else {
          next := SubOneUlp;
        }
      } else {
        inex := c2;
        next := Truncate;
      }
    } else if dir == Nearest {
      if sh == 1 {
        if rb == 0 {
          inex := -1;
          ssh := 0;
          next := SubTwoUlp;
        } else {
          inex := 1;
          next := TruncateCheckQh;
        }
      } else {
        inex := if rb == 0 then 1 else -1;
        next := TruncateCheckQh;
      }
    } else if dir == TowardZero {
      inex := -1;
      next := if sh > 0 then SubOneUlp else SubTwoUlp;
    } else {
      inex := 1;
      next := if sh > 0 then TruncateCheckQh else SubOneUlp;
    }
  }

  /** div.c:1195-1273: where the exact quotient lies relative to q1 and q1 - 1.
      The quotient of the truncated operands is in qp. */
  method CompareQuotient(qp: seq<limb>, qh: limb, r: seq<limb>, up: seq<limb>, vp: seq<limb>, extra: nat, lowU: bool,
                         ghost u1: int, ghost q1: int, ghost exact: real)
    returns (c1: int, c2: int)
    requires 0 < |qp| == |r| < |vp| && |up| > 0 && qh <= 1 && extra <= 1
    requires lowU <==> TailU(up, 2 * |qp|, extra) > 0.0
    requires q1 == Val(qp) + Carried(qh, BP(|qp|))
    requires Dividing(u1, TailU(up, 2 * |qp|, extra), TopB(vp, |qp|), TailB(vp, |qp|), q1, Val(r), BP(|qp|), exact)
    ensures c1 == Sgn(q1 as real - exact) && (c1 > 0 ==> c2 == Sgn((q1 - 1) as real - exact))
  {
    hide Val, BP, Frac, TailU, TopB, TailB, Dividing, Sgn;
    var n, k := |qp|, |vp| - |qp|;
    ghost var tu, st := TailU(up, 2 * n, extra), q1 as real * Frac(vp[..k]);
    DivisorParts(vp, n);
    var sp, qh2 := Product(qp, qh, vp[..k]);
    ProductScaled(sp[..], k, qh2, q1, vp[..k]);
    ComparisonsAt(u1, tu, TopB(vp, n), TailB(vp, n), q1, Val(r), BP(n), exact, st);
    CarryMeansLarge(u1, tu, TopB(vp, n), TailB(vp, n), q1, Val(r), n, exact, sp[..], qh2, vp[..k]);
    c2 := 0;
    c1 := CompareProduct(sp[..], qh2, r, up, extra, st);
    if c1 > 0 {
      ProductZero(qh2, BP(n + k));
      c2 := CompareDifference(sp, qh2, r, vp, up, extra, lowU, st);
    }
  }

  lemma DivisorParts(vp: seq<limb>, n: nat)
    requires 0 < n < |vp|
    ensures TopB(vp, n) == Val(vp[|vp| - n..]) && TailB(vp, n) == Frac(vp[..|vp| - n])
  {}

  lemma ComparisonsAt(u1: int, tu: real, v1: int, tv: real, q1: int, r: int, beta: int, exact: real, st: real)
    requires Dividing(u1, tu, v1, tv, q1, r, beta, exact) && st == q1 as real * tv
    ensures Sgn(q1 as real - exact) == Sgn(st - r as real - tu)
    ensures Sgn((q1 - 1) as real - exact) == Sgn(st - r as real - tu - (v1 as real + tv))
    ensures Sgn(st - r as real - tu) > 0 <==> st > r as real + tu
    ensures (q1 - 1) as real > exact <==> st - r as real - tu > v1 as real + tv
  {
    hide Dividing;
    Comparisons(u1, tu, v1, tv, q1, r, beta, exact);
    SgnOfDifference((q1 - 1) as real - exact);
    SgnOfDifference(st - r as real - tu - (v1 as real + tv));
  }

  lemma SgnOfDifference(x: real)
    ensures Sgn(x) > 0 <==> x > 0.0
    ensures Sgn(x) == 1 <==> x > 0.0
  {}

  /** A product that does not fit can only come from q1 = beta + 1. */
  lemma CarryMeansLarge(u1: int, tu: real, v1: int, tv: real, q1: int, r: int, n: nat, exact: real,
                        sp: seq<limb>, qh2: int, v0: seq<limb>)
    requires Dividing(u1, tu, v1, tv, q1, r, BP(n), exact)
    requires |sp| == n + |v0| && 0 <= qh2 && Val(sp) + qh2 * BP(|sp|) == q1 * Val(v0)
    ensures qh2 != 0 ==> (q1 - 1) as real > exact
  {
    hide Val, BP;
    EstimateBounds(u1, tu, v1, tv, q1, r, BP(n), exact);
    ValBound(v0);
    BPAdd(n, |v0|);
    if qh2 != 0 {
      MulMono(1, qh2, BP(|sp|));
      if q1 <= BP(n) {
        MulMono(q1, BP(n), Val(v0));
        MulStrict(Val(v0), BP(|v0|), BP(n));
        MulComm(Val(v0), BP(n));
        MulComm(BP(|v0|), BP(n));
      }
    }
  }

  /** div.c:1161-1365: the divisor was truncated. */
  method DecideTruncated(qp: array<limb>, qh: limb, low: limb, h: nat, r: seq<limb>, up: seq<limb>, vp: seq<limb>, extra: nat,
                         lowU: bool, inexact: bool, dir: Direction, sh: nat,
                         ghost u1: int, ghost q1: int, ghost exact: real, ghost d: int, ghost odd: bool)
    returns (next: Label, inex: int, rb: int, sticky: bool, ssh: nat)
    requires 0 < qp.Length == |r| < |vp| && |up| > 0 && qh <= 1 && extra <= 1
    requires lowU <==> TailU(up, 2 * |r|, extra) > 0.0
    requires qp[0] + low < B && q1 == Val(qp[..]) + low + Carried(qh, BP(|r|))
    requires Dividing(u1, TailU(up, 2 * |r|, extra), TopB(vp, |r|), TailB(vp, |r|), q1, Val(r), BP(|r|), exact)
    requires inexact <==> low != 0 || Val(r) != 0 || TailU(up, 2 * |r|, extra) > 0.0 || TailB(vp, |r|) > 0.0
    requires low < d && if dir == Nearest then h >= 1 && d == h * 2 else d >= 1
    requires if dir == Nearest then sh == 1 <==> d == 2 else sh == 0 <==> d == 1
    modifies qp
    ensures qp[..] == old(qp[..])
    ensures dir == Nearest && exact == (q1 - 1) as real && d >= 4 && low == h ==> next == Truncate && inex == 0 && q1 - low < BP(|r|)
    ensures dir == Nearest && exact == (q1 - 1) as real && d == 2 && low == 0 && odd ==> next == TruncateCheckQh && inex == 1
    ensures !(dir == Nearest && exact == (q1 - 1) as real && (if d == 2 then low == 0 && odd else low == h)) ==>
              Settled(next, inex, rb, sticky, ssh, dir, sh, exact, q1 - low, d, odd, BP(|r|))
  {
    hide Val, BP, Frac, TailU, TopB, TailB, Dividing, Settled;
    ghost var n, s := |r|, qp[..];
    EstimateBounds(u1, TailU(up, 2 * n, extra), TopB(vp, n), TailB(vp, n), q1, Val(r), BP(n), exact);
    DividingRange(u1, TailU(up, 2 * n, extra), TopB(vp, n), TailB(vp, n), q1, Val(r), BP(n), exact);
    rb, ssh, sticky := 0, sh, false;
    if !inexact {
      inex, next := 0, Truncate;
      SettledExact(rb, sticky, ssh, dir, sh, exact, q1, d, odd, BP(n));
      return;
    }
    var s3: int := low;
    if dir == Nearest {
      SplitBelow(low, h);
      rb, s3 := low / h, low % h;
    }
    if s3 != 0 && s3 != 1 {
      inex, next, sticky := 0, Case1, true;
      SettledSticky(rb, s3, ssh, dir, sh, q1, exact, q1 - low, d, odd, BP(n));
      return;
    }
    next, inex, sticky, ssh := HardCase(qp, qh, low, r, up, vp, extra, lowU, dir, sh, rb, s3, u1, q1, exact, d, odd);
  }

  /** div.c:1186-1363. */
  method HardCase(qp: array<limb>, qh: limb, low: limb, r: seq<limb>, up: seq<limb>, vp: seq<limb>, extra: nat,
                  lowU: bool, dir: Direction, sh: nat, rb: int, s3: int,
                  ghost u1: int, ghost q1: int, ghost exact: real, ghost d: int, ghost odd: bool)
    returns (next: Label, inex: int, sticky: bool, ssh: nat)
    requires 0 < qp.Length == |r| < |vp| && |up| > 0 && qh <= 1 && extra <= 1
    requires lowU <==> TailU(up, 2 * |r|, extra) > 0.0
    requires qp[0] + low < B && q1 == Val(qp[..]) + low + Carried(qh, BP(|r|))
    requires Dividing(u1, TailU(up, 2 * |r|, extra), TopB(vp, |r|), TailB(vp, |r|), q1, Val(r), BP(|r|), exact)
    requires Truncated(dir, q1, q1 - low, d, rb, s3) && 0 <= s3 <= 1
    requires if dir == Nearest then sh == 1 <==> d == 2 else sh == 0 <==> d == 1
    modifies qp
    ensures qp[..] == old(qp[..])
    ensures dir == Nearest && exact == (q1 - 1) as real && d >= 4 && rb == 1 && s3 == 0 ==> next == Truncate && inex == 0 && q1 - low < BP(|r|)
    ensures dir == Nearest && exact == (q1 - 1) as real && d == 2 && rb == 0 && odd ==> next == TruncateCheckQh && inex == 1
    ensures !(dir == Nearest && exact == (q1 - 1) as real && (if d == 2 then rb == 0 && odd else rb == 1 && s3 == 0)) ==>
              Settled(next, inex, rb, sticky, ssh, dir, sh, exact, q1 - low, d, odd, BP(|r|))
  {
    hide Val, BP, Frac, TailU, TopB, TailB, Dividing, Settled;
    ghost var n, s := |r|, qp[..];
    EstimateBounds(u1, TailU(up, 2 * n, extra), TopB(vp, n), TailB(vp, n), q1, Val(r), BP(n), exact);
    DividingRange(u1, TailU(up, 2 * n, extra), TopB(vp, n), TailB(vp, n), q1, Val(r), BP(n), exact);
    qp[0] := qp[0] + low;
    SetLimb(s, 0, s[0] + low);
    BPZero();
    assert qp[..] == s[0 := s[0] + low];
    var c1, c2 := CompareQuotient(qp[..], qh, r, up, vp, extra, lowU, u1, q1, exact);
    qp[0] := qp[0] - low;
    assert qp[..] == s;
    next, inex, sticky, ssh := DecideHard(dir, sh, rb, s3, c1, c2, q1, exact, q1 - low, d, odd, BP(n));
  }

  lemma DividingRange(u1: int, tu: real, v1: int, tv: real, q1: int, r: int, beta: int, exact: real)
    requires Dividing(u1, tu, v1, tv, q1, r, beta, exact)
    ensures 0.0 <= exact < beta as real && 0.0 <= tu && 0.0 <= tv
  {}

  lemma SettledExact(rb: int, sticky: bool, ssh: nat, dir: Direction, sh: nat, exact: real, ad: int, d: int, odd: bool, beta: int)
    requires exact == ad as real && exact < beta as real && d >= 1
    ensures Settled(Truncate, 0, rb, sticky, ssh, dir, sh, exact, ad, d, odd, beta)
  {}

  lemma SettledSticky(rb: int, s3: int, ssh: nat, dir: Direction, sh: nat, q1: int, exact: real, ad: int, d: int, odd: bool, beta: int)
    requires Truncated(dir, q1, ad, d, rb, s3) && s3 >= 2
    requires (q1 - 2) as real < exact < (q1 + 1) as real && exact < beta as real
    ensures Settled(Case1, 0, rb, true, ssh, dir, sh, exact, ad, d, odd, beta)
  {
    IntLt(q1 - 2, beta);
  }

  // ---- the labels ---------------------------------------------------------------------

  /** qh and {q0p, q0size} together hold r units in the last place. */
  ghost predicate QuotientHeld(s: seq<limb>, p: nat, qh: int, v: int) {
    p >= 1 && |s| == LimbCount(p) && 0 <= qh <= 1 && Val(s) + (if qh == 1 then BP(|s|) else 0) == v
  }

  /** qh -= mpn_sub_1 (q0p, q0p, q0size, MPFR_LIMB_ONE << ssh). */
  method SubtractUlp(q0p: array<limb>, p: nat, qh0: int, ssh: nat, ghost v: int) returns (qh: int)
    requires QuotientHeld(q0p[..], p, qh0, v) && ssh < 64 && v >= Pow2(ssh)
    modifies q0p
    ensures QuotientHeld(q0p[..], p, qh, v - Pow2(ssh))
  {
    hide Val, BP, Pow2;
    LimbCountPositive(p);
    Pow2Mono(ssh, 63);
    Pow2Limb();
    assert q0p[0..q0p.Length] == q0p[..];
    var borrow := MpnSub1(q0p, 0, q0p.Length, Pow2(ssh));
    assert q0p[0..q0p.Length] == q0p[..];
    ValBound(q0p[..]);
    ProductZero(borrow, BP(q0p.Length));
    MulOne(BP(q0p.Length));
    qh := qh0 - borrow;
  }

  /** truncate_check_qh. */
  method CheckQh(q0p: array<limb>, p: nat, qh: int, qexp0: int, ghost r: int) returns (qexp: int)
    requires QuotientHeld(q0p[..], p, qh, r * Pow2(Unused(p))) && Pow2(p - 1) <= r <= Pow2(p)
    modifies q0p
    ensures Holding(q0p[..], p, NormSig(p, r)) && qexp == NormExp(p, r, qexp0)
  {
    hide Val, BP, Pow2;
    LimbsOfPrecision(p);
    ValBound(q0p[..]);
    qexp := qexp0;
    if r < Pow2(p) { MulStrict(r, Pow2(p), Pow2(Unused(p))); }
    MaxIsFloat(p);
    if qh == 1 {
      qexp := qexp + 1;
      SetHighBit(q0p, p);
    }
  }

  /** case_1, even_rule. */
  method RoundCase1(q0p: array<limb>, p: nat, dir: Direction, rb: int, sticky: bool, qexp0: int,
                    ghost au: int, ghost d: int, ghost exact: real)
    returns (inex: int, qexp: int, ghost r: int)
    requires Holding(q0p[..], p, au) && d >= 1 && (dir == Nearest ==> d % 2 == 0)
    requires Described(dir, exact, au * d, d, rb, sticky)
    modifies q0p
    ensures Holding(q0p[..], p, NormSig(p, r)) && qexp == NormExp(p, r, qexp0)
    ensures Fits(exact, r * d, d, dir, r % 2 == 1, inex)
  {
    hide Val, BP, Pow2;
    var sh := Unused(p);
    ParityOfA(q0p[..], p, au);
    PlusOneInt(au, d);
    HoldingRange(q0p[..], p, au);
    qexp, r := qexp0, au;
    if dir == TowardZero || (rb == 0 && !sticky) {
      inex := if rb == 0 && !sticky then 0 else -1;
      return;
    }
    if dir == Nearest {
      if rb == 0 { return -1, qexp, r; }
      if !sticky {
        inex := if q0p[0] / Pow2(sh) % 2 == 1 then 1 else -1;
        if inex < 0 { return; }
      }
    }
    inex := 1;
    r := au + 1;
    qexp := AddOneUlp(q0p, p, qexp, au);
  }

  lemma PlusOneInt(x: int, y: int)
    ensures (x + 1) * y == x * y + y && (x - 1) * y == x * y - y && (x - 2) * y == x * y - 2 * y
  {}

  /** The significand that the code leaves behind, for each label but case_1. */
  ghost function ResultAt(next: Label, au: int, sh: nat): int {
    match next
    case Truncate | TruncateCheckQh | Case1 => au
    case SubOneUlp => au - 1
    case SubTwoUlp => if sh == 0 then au - 2 else au - 1
  }

  method FinishQuotient(q0p: array<limb>, p: nat, next: Label, ssh: nat, qh0: int, qexp0: int, ghost au: int)
    returns (qexp: int)
    requires p >= 1 && QuotientHeld(q0p[..], p, qh0, au * Pow2(Unused(p)))
    requires next == Truncate ==> qh0 == 0
    requires next == SubOneUlp ==> ssh == Unused(p)
    requires next == SubTwoUlp ==> ssh == 0 && Unused(p) <= 1
    requires Pow2(p - 1) <= ResultAt(next, au, Unused(p)) <= Pow2(p)
    modifies q0p
    ensures Holding(q0p[..], p, NormSig(p, ResultAt(next, au, Unused(p))))
    ensures qexp == NormExp(p, ResultAt(next, au, Unused(p)), qexp0)
  {
    hide Val, BP, Pow2, QuotientHeld;
    var sh, qh := Unused(p), qh0;
    ghost var r, v := ResultAt(next, au, sh), au * Pow2(sh);
    Pow2Two();
    Pow2Zero();
    PlusOneInt(au, Pow2(sh));
    MulMono(1, r, Pow2(sh));
    if next == SubTwoUlp {
      qh := SubtractUlp(q0p, p, qh, ssh, v);
      v := v - Pow2(ssh);
    }
    if next == SubTwoUlp || next == SubOneUlp {
      qh := SubtractUlp(q0p, p, qh, ssh, v);
    }
    if next == Truncate {
      TruncatedIsHeld(q0p[..], p, au);
      qexp := qexp0;
    } else {
      qexp := CheckQh(q0p, p, qh, qexp0, r);
    }
  }

  lemma TruncatedIsHeld(s: seq<limb>, p: nat, au: int)
    requires QuotientHeld(s, p, 0, au * Pow2(Unused(p))) && Pow2(p - 1) <= au <= Pow2(p)
    ensures Holding(s, p, au) && NormSig(p, au) == au && NormExp(p, au, 0) == 0
  {
    hide Val, BP, Pow2;
    LimbsOfPrecision(p);
    ValBound(s);
    if au == Pow2(p) { assert false; }
  }

  // ---- the rounded quotient -----------------------------------------------------------

  /** qsize: one limb more when the rounding bit would not fit otherwise. */
  function QuotientLimbs(p: nat, dir: Direction): nat {
    LimbCount(p) + if dir == Nearest && Unused(p) == 0 then 1 else 0
  }

  /** One unit in the last place of the destination, counted in the estimate. */
  function QuotientUnit(p: nat, dir: Direction): int {
    Pow2(64 * QuotientLimbs(p, dir) - p)
  }

  lemma UnitFacts(p: nat, dir: Direction)
    requires p >= 1
    ensures var n, d, sh := QuotientLimbs(p, dir), QuotientUnit(p, dir), Unused(p);
            && n > 0 && d >= 1 && BP(n) == Pow2(p) * d
            && (dir == Nearest ==> d % 2 == 0 && d >= 2)
            && (if n == LimbCount(p) then d == Pow2(sh) else n == LimbCount(p) + 1 && sh == 0 && d == B)
            && (if dir == Nearest then sh == 1 <==> d == 2 else sh == 0 <==> d == 1)
            && (n == LimbCount(p) && dir == Nearest ==> sh >= 1 && d == Pow2(sh - 1) * 2)
            && (dir == Nearest && d != 2 ==> d >= 4)
  {
    hide BP, Pow2;
    var n, sh := QuotientLimbs(p, dir), Unused(p);
    LimbCountPositive(p);
    BPPow2(n);
    Pow2Add(p, 64 * n - p);
    SmallPowers(sh);
  }

  lemma SmallPowers(sh: nat)
    ensures Pow2(0) == 1 && Pow2(1) == 2 && Pow2(64) == B
    ensures sh >= 1 ==> Pow2(sh) == Pow2(sh - 1) * 2 && Pow2(sh) >= 2
    ensures sh >= 2 ==> Pow2(sh) >= 4 && Pow2(sh) % 2 == 0
  {
    hide Pow2;
    Pow2Limb();
    Pow2Two();
    Pow2Zero();
    if sh >= 1 {
      Pow2Step(sh - 1);
      Pow2Mono(1, sh);
    }
    if sh >= 2 { Pow2Mono(2, sh); Pow2Step(1); }
  }

  /** The lowest limb of the estimate, with its low bits cleared. */
  method ClearLowBits(qp: array<limb>, low: limb)
    requires qp.Length > 0 && low <= qp[0]
    modifies qp
    ensures Val(qp[..]) == Val(old(qp[..])) - low && qp[0] + low < B
  {
    hide Val, BP;
    ghost var s := qp[..];
    SetLimb(s, 0, s[0] - low);
    BPZero();
    qp[0] := qp[0] - low;
    assert qp[..] == s[0 := s[0] - low];
  }

  /** div.c:1126-1130 and 1137: qsize == q0size. */
  method TakeLowBits(qp: array<limb>, p: nat, qh: limb, ghost d: int, ghost q1: int) returns (low: limb)
    requires p >= 1 && qp.Length == LimbCount(p) && qh <= 1 && d == Pow2(Unused(p))
    requires q1 == Val(qp[..]) + Carried(qh, BP(qp.Length))
    modifies qp
    ensures low < d && qp[0] + low < B && q1 == Val(qp[..]) + low + Carried(qh, BP(qp.Length))
    ensures q1 == q1 / d * d + low && QuotientHeld(qp[..], p, qh, q1 / d * Pow2(Unused(p)))
  {
    hide Val, BP, Pow2;
    var sh := Unused(p);
    LimbsOfPrecision(p);
    LowLimb(qp[..], sh);
    DivLe(qp[0], Pow2(sh));
    low := qp[0] % Pow2(sh);
    ProductZero(0, d);
    LowOfEstimate(Val(qp[..]), low, d, Carried(qh, Pow2(p)), Carried(qh, BP(qp.Length)), q1);
    ClearLowBits(qp, low);
  }

  /** div.c:1131-1137: qsize == q0size + 1. */
  method TakeLowLimb(qp: array<limb>, q0p: array<limb>, p: nat, qh: limb, ghost q1: int) returns (low: limb)
    requires p >= 1 && Unused(p) == 0 && q0p.Length == LimbCount(p) && qp.Length == q0p.Length + 1 && qh <= 1
    requires q1 == Val(qp[..]) + Carried(qh, BP(qp.Length))
    modifies qp, q0p
    ensures qp[0] + low < B && q1 == Val(qp[..]) + low + Carried(qh, BP(qp.Length))
    ensures q1 == q1 / B * B + low && QuotientHeld(q0p[..], p, qh, q1 / B * Pow2(Unused(p)))
  {
    hide Val, BP, Pow2;
    MpnCopy(q0p, 0, qp[1..]);
    assert q0p[0..q0p.Length] == q0p[..];
    Pow2Zero();
    low := qp[0];
    LowLimbSplit(qp[..]);
    BPStep(q0p.Length);
    UpperEstimate(q1, Val(qp[1..]), low, Carried(qh, BP(q0p.Length)));
    assert qp[..][1..] == qp[1..];
    ClearLowBits(qp, low);
  }

  /** div.c:1126-1141: the bits below the last place are taken out of the estimate. */
  method TakeLow(qp: array<limb>, q0p: array<limb>, p: nat, dir: Direction, qh: limb, ghost q1: int) returns (low: limb)
    requires p >= 1 && q0p.Length == LimbCount(p) && qp.Length == QuotientLimbs(p, dir) && qh <= 1
    requires qp.Length == q0p.Length <==> qp == q0p
    requires q1 == Val(qp[..]) + Carried(qh, BP(qp.Length))
    modifies qp, q0p
    ensures low < QuotientUnit(p, dir) && qp[0] + low < B
    ensures q1 == Val(qp[..]) + low + Carried(qh, BP(qp.Length))
    ensures q1 == q1 / QuotientUnit(p, dir) * QuotientUnit(p, dir) + low
    ensures QuotientHeld(q0p[..], p, qh, q1 / QuotientUnit(p, dir) * Pow2(Unused(p)))
  {
    hide Val, BP, Pow2, QuotientHeld;
    UnitFacts(p, dir);
    if qp.Length == LimbCount(p) {
      low := TakeLowBits(qp, p, qh, QuotientUnit(p, dir), q1);
    } else {
      low := TakeLowLimb(qp, q0p, p, qh, q1);
    }
  }

  lemma LowLimbSplit(s: seq<limb>)
    requires |s| > 0
    ensures Val(s) == s[0] + B * Val(s[1..])
  {}

  lemma LowOfEstimate(v: int, low: int, d: int, k: int, kd: int, q1: int)
    requires d >= 1 && v >= 0 && low == v % d && kd == k * d && q1 == v + kd
    ensures q1 == q1 / d * d + low && 0 <= low < d
  {
    ModAddMultiple(v, d, k);
    MulComm(d, q1 / d);
  }

  lemma UpperEstimate(q1: int, hi: int, low: int, c: int)
    requires 0 <= low < B && q1 == low + B * hi + B * c
    ensures q1 / B == hi + c && q1 == q1 / B * B + low
  {}

  lemma DividingHolds(uu: real, tu: real, vp: seq<limb>, n: nat, u1: int, q1: int, r: int, exact: real)
    requires n > 0 && |vp| > 0 && vp[|vp| - 1] >= HALF && 0.0 <= exact < BP(n) as real
    requires u1 as real + tu == uu && 0.0 <= tu < 1.0
    requires u1 == q1 * TopB(vp, n) + r && 0 <= r < TopB(vp, n)
    requires exact * (TopB(vp, n) as real + TailB(vp, n)) == uu
    ensures Dividing(u1, tu, TopB(vp, n), TailB(vp, n), q1, r, BP(n), exact)
  {
    hide Val, BP, Frac, TopB, TailB;
    TopBValue(vp, n);
    TailBRange(vp, n);
    BPStep(n - 1);
  }

  /** The quotient of the integer parts. */
  lemma QuotientOfFloors(uu: real, vv: real, u1: int, tu: real, v1: int, tv: real, q1: int, r: int)
    requires u1 as real + tu == uu && v1 as real + tv == vv && 0.0 <= tu < 1.0 && 0.0 <= tv < 1.0
    requires u1 == q1 * v1 + r && 0 <= r < v1
    ensures vv >= 1.0 && vv.Floor > 0 && q1 == uu.Floor / vv.Floor
  {
    FloorIs(uu, u1);
    FloorIs(vv, v1);
    DivUnique(u1, v1, q1, r);
  }

  lemma FloorIs(x: real, k: int)
    requires k as real <= x < k as real + 1.0
    ensures x.Floor == k
  {}

  /** The estimate, its truncation, and the conditions under which the code errs. */
  lemma LowConditions(dir: Direction, q1: int, exact: real, d: int, low: int, h: int)
    requires d >= 1 && q1 == q1 / d * d + low && 0 <= low < d
    requires dir == Nearest ==> d == h * 2 && h >= 1
    ensures SaysExact(dir, q1, exact, d) <==> dir == Nearest && exact == (q1 - 1) as real && d >= 4 && low == h
    ensures TieUp(dir, q1, exact, d) <==> dir == Nearest && exact == (q1 - 1) as real && d == 2 && low == 0 && q1 / d % 2 == 1
  {
    DivUnique(q1, d, q1 / d, low);
  }

  lemma SettledResult(next: Label, inex: int, rb: int, sticky: bool, ssh: nat, dir: Direction, sh: nat, exact: real, y: real,
                      au: int, d: int, beta: int, p: nat)
    requires Settled(next, inex, rb, sticky, ssh, dir, sh, exact, au * d, d, au % 2 == 1, beta) && next != Case1
    requires p >= 1 && d >= 1 && y * d as real == exact && Pow2(p - 1) as real <= y < Pow2(p) as real
    requires dir != Nearest ==> (sh == 0 <==> d == 1)
    ensures var r := ResultAt(next, au, sh); Fits(exact, r * d, d, dir, r % 2 == 1, inex) && Pow2(p - 1) <= r <= Pow2(p)
    ensures next == SubOneUlp ==> ssh == sh
    ensures next == SubTwoUlp ==> ssh == 0 && sh <= 1
    ensures next == Truncate ==> au * d < beta
  {
    hide Pow2;
    PlusOneInt(au, d);
    var r := ResultAt(next, au, sh);
    assert Fits(exact, r * d, d, dir, r % 2 == 1, inex);
    FitsRounds(exact, y, r, d, dir, inex);
    SignificandRange(y, p, dir, r, inex);
  }

  lemma MissedResult(q1: int, exact: real, y: real, au: int, d: int, low: int, h: int, p: nat)
    requires p >= 1 && d == h * 2 && h >= 1 && q1 == au * d + low && exact == (q1 - 1) as real && y * d as real == exact
    requires Pow2(p - 1) as real <= y < Pow2(p) as real && (low == h || low == 0)
    ensures Pow2(p - 1) <= au <= Pow2(p)
  {
    hide Pow2;
    CastProduct(au, d);
    var f := exact - (au * d) as real;
    RealSub(y, au as real, d as real);
    CompareWith(y - au as real, 1.0, d as real, f, d as real);
    CompareWith(y - au as real, -1.0, d as real, f, -(d as real));
    IntLt(Pow2(p - 1), au + 1);
    IntLt(au - 1, Pow2(p));
  }

  /** Below beta there is nothing in qh. */
  lemma HeldIsHolding(s: seq<limb>, p: nat, qh: int, au: int, d: int, exact: real, y: real)
    requires QuotientHeld(s, p, qh, au * Pow2(Unused(p))) && au * d < Pow2(p) * d && d >= 1
    requires y * d as real == exact && Pow2(p - 1) as real <= y && exact < (au * d + d) as real
    ensures qh == 0 && Holding(s, p, au)
  {
    hide Val, BP, Pow2;
    LimbsOfPrecision(p);
    if au >= Pow2(p) { MulMono(Pow2(p), au, d); }
    MulStrict(au, Pow2(p), Pow2(Unused(p)));
    CastProduct(au, d);
    RealSub(y, au as real, d as real);
    CompareWith(y - au as real, 1.0, d as real, exact - (au * d) as real, d as real);
    IntLt(Pow2(p - 1), au + 1);
  }

  lemma DescribedBelow(dir: Direction, exact: real, ad: int, d: int, rb: int, sticky: bool)
    requires Described(dir, exact, ad, d, rb, sticky) && d >= 1 && (dir == Nearest ==> d % 2 == 0)
    ensures ad as real <= exact < (ad + d) as real
  {}

  /** What is known after the division. */
  ghost predicate Estimated(qp: seq<limb>, qh: limb, r: seq<limb>, up: seq<limb>, vp: seq<limb>, extra: nat, lowU: bool, stickyV: bool,
                            u1: int, q1: int, exact: real)
  {
    && |qp| == |r| && q1 == Val(qp) + Carried(qh, BP(|r|))
    && Dividing(u1, TailU(up, 2 * |r|, extra), TopB(vp, |r|), TailB(vp, |r|), q1, Val(r), BP(|r|), exact)
    && (lowU <==> TailU(up, 2 * |r|, extra) > 0.0) && (stickyV <==> TailB(vp, |r|) > 0.0)
  }

  /** div.c:1116-1425, after the division. */
  method RoundQuotient(qp: array<limb>, q0p: array<limb>, p: nat, qh: limb, r: seq<limb>, up: seq<limb>, vp: seq<limb>,
                       extra: nat, lowU: bool, stickyV: bool, dir: Direction, qexp0: int,
                       ghost vp0: seq<limb>, ghost u1: int, ghost q1: int, ghost exact: real, ghost y: real)
    returns (inex: int, qexp: int, ghost s: int)
    requires p >= 1 && q0p.Length == LimbCount(p) && qp.Length == QuotientLimbs(p, dir) == |r| && qh <= 1 && extra <= 1
    requires (qp.Length == q0p.Length <==> qp == q0p) && |up| > 0 && |vp| == |vp0| > 0 && (|vp| > |r| ==> vp == vp0)
    requires Estimated(qp[..], qh, r, up, vp0, extra, lowU, stickyV, u1, q1, exact)
    requires y * QuotientUnit(p, dir) as real == exact && Pow2(p - 1) as real <= y < Pow2(p) as real
    modifies qp, q0p
    ensures Holding(q0p[..], p, NormSig(p, s)) && qexp == NormExp(p, s, qexp0)
    ensures var d := QuotientUnit(p, dir);
            && (SaysExact(dir, q1, exact, d) ==> s == q1 / d && inex == 0)
            && (TieUp(dir, q1, exact, d) ==> s == q1 / d && inex == 1)
            && (!SaysExact(dir, q1, exact, d) && !TieUp(dir, q1, exact, d) ==> Fits(exact, s * d, d, dir, s % 2 == 1, inex))
  {
    hide Val, BP, Frac, TailU, TopB, TailB, Pow2, Dividing, Settled, QuotientHeld, Fits, Described, SaysExact, TieUp, Holding,
         QuotientUnit, NormSig, NormExp;
    var n, sh := |r|, Unused(p);
    ghost var d, tu, v1, tv := QuotientUnit(p, dir), TailU(up, 2 * n, extra), TopB(vp0, n), TailB(vp0, n);
    UnitFacts(p, dir);
    var h := if dir != Nearest then 1 else if n == q0p.Length then Pow2(sh - 1) else HALF;
    var remainder := CmpZero(r);
    ValNonNegative(r);
    var low := TakeLow(qp, q0p, p, dir, qh, q1);
    ghost var au := q1 / d;
    LowConditions(dir, q1, exact, d, low, h);
    var next, rb, sticky, ssh;
    next, inex, rb, sticky, ssh :=
      Decide(qp, qh, low, h, r, up, vp, extra, lowU, remainder, stickyV, dir, sh, vp0, u1, q1, exact, d, au % 2 == 1);
    inex, qexp, s := GoTo(q0p, p, next, inex, rb, sticky, ssh, qh, dir, qexp0, q1, au, d, low, h, exact, y, n);
  }

  /** div.c:1143-1365. */
  method Decide(qp: array<limb>, qh: limb, low: limb, h: nat, r: seq<limb>, up: seq<limb>, vp: seq<limb>, extra: nat,
                lowU: bool, remainder: bool, stickyV: bool, dir: Direction, sh: nat,
                ghost vp0: seq<limb>, ghost u1: int, ghost q1: int, ghost exact: real, ghost d: int, ghost odd: bool)
    returns (next: Label, inex: int, rb: int, sticky: bool, ssh: nat)
    requires 0 < qp.Length == |r| && |up| > 0 && |vp| == |vp0| > 0 && (|vp| > |r| ==> vp == vp0) && qh <= 1 && extra <= 1
    requires (lowU <==> TailU(up, 2 * |r|, extra) > 0.0) && (stickyV <==> TailB(vp0, |r|) > 0.0) && (remainder <==> Val(r) != 0)
    requires qp[0] + low < B && q1 == Val(qp[..]) + low + Carried(qh, BP(|r|))
    requires Dividing(u1, TailU(up, 2 * |r|, extra), TopB(vp0, |r|), TailB(vp0, |r|), q1, Val(r), BP(|r|), exact)
    requires low < d && if dir == Nearest then h >= 1 && d == h * 2 else d >= 1
    requires if dir == Nearest then sh == 1 <==> d == 2 else sh == 0 <==> d == 1
    modifies qp
    ensures qp[..] == old(qp[..])
    ensures dir == Nearest && exact == (q1 - 1) as real && d >= 4 && low == h ==> next == Truncate && inex == 0 && q1 - low < BP(|r|)
    ensures dir == Nearest && exact == (q1 - 1) as real && d == 2 && low == 0 && odd ==> next == TruncateCheckQh && inex == 1
    ensures !(dir == Nearest && exact == (q1 - 1) as real && (if d == 2 then low == 0 && odd else low == h)) ==>
              Settled(next, inex, rb, sticky, ssh, dir, sh, exact, q1 - low, d, odd, BP(|r|))
  {
    hide Val, BP, Frac, TailU, TopB, TailB, Dividing, Settled, Described;
    ghost var n := |r|;
    ghost var tu, v1, tv := TailU(up, 2 * n, extra), TopB(vp0, n), TailB(vp0, n);
    EstimateBounds(u1, tu, v1, tv, q1, Val(r), BP(n), exact);
    DividingRange(u1, tu, v1, tv, q1, Val(r), BP(n), exact);
    ValNonNegative(r);
    if |vp| <= |r| {
      NoTailB(vp0, n);
      rb, sticky := DecideFull(dir, low, h, lowU || remainder, q1, exact, q1 - low, d);
      next, inex, ssh := Case1, 0, sh;
      SettledCase1(rb, sticky, ssh, dir, sh, exact, q1 - low, d, odd, BP(n));
    } else {
      next, inex, rb, sticky, ssh :=
        DecideTruncated(qp, qh, low, h, r, up, vp, extra, lowU, low != 0 || remainder || lowU || stickyV, dir, sh, u1, q1, exact, d, odd);
    }
  }

  lemma NoTailB(vp: seq<limb>, n: nat)
    requires |vp| <= n
    ensures TailB(vp, n) == 0.0
  {}

  lemma ValNonNegative(s: seq<limb>)
    ensures Val(s) >= 0
  {}

  lemma SettledCase1(rb: int, sticky: bool, ssh: nat, dir: Direction, sh: nat, exact: real, ad: int, d: int, odd: bool, beta: int)
    requires Described(dir, exact, ad, d, rb, sticky) && exact < beta as real && d >= 1 && (dir == Nearest ==> d % 2 == 0)
    ensures Settled(Case1, 0, rb, sticky, ssh, dir, sh, exact, ad, d, odd, beta)
  {
    DescribedBelow(dir, exact, ad, d, rb, sticky);
    IntLt(ad, beta);
  }

  /** What is left behind at a label but case_1. */
  lemma LabelResult(next: Label, inex: int, rb: int, sticky: bool, ssh: nat, dir: Direction, sh: nat, q1: int, exact: real, y: real,
                    au: int, d: int, low: int, h: int, beta: int, p: nat)
    requires p >= 1 && next != Case1 && q1 == au * d + low && 0 <= low < d && (dir == Nearest ==> d == h * 2 && h >= 1)
    requires dir != Nearest ==> (sh == 0 <==> d == 1)
    requires y * d as real == exact && Pow2(p - 1) as real <= y < Pow2(p) as real
    requires var says := dir == Nearest && exact == (q1 - 1) as real && d >= 4 && low == h;
             var tie := dir == Nearest && exact == (q1 - 1) as real && d == 2 && low == 0 && au % 2 == 1;
             && (says ==> next == Truncate && inex == 0 && au * d < beta)
             && (tie ==> next == TruncateCheckQh && inex == 1)
             && (!says && !tie ==> Settled(next, inex, rb, sticky, ssh, dir, sh, exact, au * d, d, au % 2 == 1, beta))
    ensures var s := ResultAt(next, au, sh);
            var says := dir == Nearest && exact == (q1 - 1) as real && d >= 4 && low == h;
            var tie := dir == Nearest && exact == (q1 - 1) as real && d == 2 && low == 0 && au % 2 == 1;
            && Pow2(p - 1) <= s <= Pow2(p)
            && (says || tie ==> s == au)
            && (!says && !tie ==> Fits(exact, s * d, d, dir, s % 2 == 1, inex))
    ensures next == SubOneUlp ==> ssh == sh
    ensures next == SubTwoUlp ==> ssh == 0 && sh <= 1
    ensures next == Truncate ==> au * d < beta
  {
    hide Pow2, Fits, Settled;
    if dir == Nearest && exact == (q1 - 1) as real && (if d == 2 then low == 0 && au % 2 == 1 else low == h) {
      MissedResult(q1, exact, y, au, d, low, h, p);
    } else {
      SettledResult(next, inex, rb, sticky, ssh, dir, sh, exact, y, au, d, beta, p);
    }
  }

  /** div.c:1367-1425. */
  method GoTo(q0p: array<limb>, p: nat, next: Label, inex0: int, rb: int, sticky: bool, ssh: nat, qh: limb, dir: Direction, qexp0: int,
              ghost q1: int, ghost au: int, ghost d: int, ghost low: int, ghost h: int, ghost exact: real, ghost y: real, ghost n: nat)
    returns (inex: int, qexp: int, ghost s: int)
    requires p >= 1 && qh <= 1 && QuotientHeld(q0p[..], p, qh, au * Pow2(Unused(p))) && d >= 1 && BP(n) == Pow2(p) * d
    requires q1 == au * d + low && 0 <= low < d && (dir == Nearest ==> d == h * 2 && h >= 1)
    requires dir != Nearest ==> (Unused(p) == 0 <==> d == 1)
    requires y * d as real == exact && Pow2(p - 1) as real <= y < Pow2(p) as real
    requires var says := dir == Nearest && exact == (q1 - 1) as real && d >= 4 && low == h;
             var tie := dir == Nearest && exact == (q1 - 1) as real && d == 2 && low == 0 && au % 2 == 1;
             && (says ==> next == Truncate && inex0 == 0 && au * d < BP(n))
             && (tie ==> next == TruncateCheckQh && inex0 == 1)
             && (!says && !tie ==> Settled(next, inex0, rb, sticky, ssh, dir, Unused(p), exact, au * d, d, au % 2 == 1, BP(n)))
    modifies q0p
    ensures Holding(q0p[..], p, NormSig(p, s)) && qexp == NormExp(p, s, qexp0)
    ensures var says := dir == Nearest && exact == (q1 - 1) as real && d >= 4 && low == h;
            var tie := dir == Nearest && exact == (q1 - 1) as real && d == 2 && low == 0 && au % 2 == 1;
            && (says ==> s == au && inex == 0)
            && (tie ==> s == au && inex == 1)
            && (!says && !tie ==> Fits(exact, s * d, d, dir, s % 2 == 1, inex))
  {
    hide Val, BP, Pow2, Fits, Holding, NormSig, NormExp, Settled, QuotientHeld, Described, ResultAt;
    inex := inex0;
    if next == Case1 {
      CaseOneFacts(inex, rb, sticky, ssh, dir, Unused(p), exact, au * d, d, au % 2 == 1, BP(n));
      HeldIsHolding(q0p[..], p, qh, au, d, exact, y);
      inex, qexp, s := RoundCase1(q0p, p, dir, rb, sticky, qexp0, au, d, exact);
      return;
    }
    LabelResult(next, inex, rb, sticky, ssh, dir, Unused(p), q1, exact, y, au, d, low, h, BP(n), p);
    s := ResultAt(next, au, Unused(p));
    if next == Truncate { NoCarryHeld(q0p[..], p, qh, au, d); }
    qexp := FinishQuotient(q0p, p, next, ssh, qh, qexp0, au);
  }

  lemma CaseOneFacts(inex: int, rb: int, sticky: bool, ssh: nat, dir: Direction, sh: nat, exact: real, ad: int, d: int, odd: bool, beta: int)
    requires Settled(Case1, inex, rb, sticky, ssh, dir, sh, exact, ad, d, odd, beta) && d >= 1 && (dir == Nearest ==> d % 2 == 0)
    ensures Described(dir, exact, ad, d, rb, sticky) && ad < beta && exact < (ad + d) as real
  {}

  lemma NoCarryHeld(s: seq<limb>, p: nat, qh: int, au: int, d: int)
    requires QuotientHeld(s, p, qh, au * Pow2(Unused(p))) && au * d < Pow2(p) * d && d >= 1
    ensures qh == 0
  {
    hide Val, BP, Pow2;
    LimbsOfPrecision(p);
    if au >= Pow2(p) { MulMono(Pow2(p), au, d); }
    MulStrict(au, Pow2(p), Pow2(Unused(p)));
  }

  // ---- what a caller can know beforehand --------------------------------------------------

  /** The operands on which the code gets the ternary value or the rounding wrong:
      the estimate exceeds an exact quotient by one, and its low bits are 10...0
      (two or more of them), or are the single bit 0 below an odd significand. */
  ghost predicate WrongTernary(up: seq<limb>, vp: seq<limb>, p: nat, dir: Direction)
  {
    var n := QuotientLimbs(p, dir);
    SaysExact(dir, FirstQuotient(up, vp, Extra(up, vp), n), ExactScaled(up, vp, n), QuotientUnit(p, dir))
  }

  ghost predicate WrongTie(up: seq<limb>, vp: seq<limb>, p: nat, dir: Direction)
  {
    var n := QuotientLimbs(p, dir);
    TieUp(dir, FirstQuotient(up, vp, Extra(up, vp), n), ExactScaled(up, vp, n), QuotientUnit(p, dir))
  }

  /** |u/v| in units in the last place of the destination. */
  lemma QuotientExponent(fu: real, fv: real, eu: int, ev: int, extra: nat, p: nat, d: int, n: nat, exact: real, y: real)
    requires fv > 0.0 && d >= 1 && BP(n) == Pow2(p) * d && exact == fu / Pow2(extra) as real / fv * BP(n) as real
    requires y * d as real == exact
    ensures fv * R2(ev) > 0.0
    ensures fu * R2(eu) / (fv * R2(ev)) == y * R2(eu - ev + extra - p)
  {
    hide R2, Pow2, BP;
    var e := eu - ev + extra;
    var g := fu / Pow2(extra) as real / fv;
    CastProduct(Pow2(p), d);
    assert y == g * Pow2(p) as real by {
      RealRegroup2(g, Pow2(p) as real, d as real);
      RealMono(y, g * Pow2(p) as real, d as real);
    }
    PowerProduct(p, e);
    RealRegroup2(g, Pow2(p) as real, R2(e - p));
    R2Nat(extra);
    R2Add(eu - ev, extra);
    R2Add(ev, eu - ev);
    R2Pos(ev);
    RealProductPos(fv, R2(ev));
    QuotientOfScaled(fu, fv, R2(eu), R2(ev), R2(eu - ev), Pow2(extra) as real);
  }

  lemma QuotientOfScaled(fu: real, fv: real, a: real, b: real, c: real, k: real)
    requires fv > 0.0 && b > 0.0 && k > 0.0 && a == b * c && fv * b > 0.0
    ensures fu * a / (fv * b) == fu / k / fv * (c * k)
  {
    var t := fu / k;
    var g := t / fv;
    assert t * k == fu && g * fv == t;
    assert (g * (c * k)) * (fv * b) == fu * a by {
      RealFour(g, c * k, fv, b);
      RealComm(c * k, b);
      RealRegroup2(b, c, k);
      RealComm(b * c, k);
      RealRegroup2(t, k, b * c);
    }
    RealDivide(g * (c * k), fv * b);
  }

  /** What the rounded quotient s and its ternary value t are worth. */
  ghost predicate Verdict(ternary: bool, tie: bool, p: nat, dir: Direction, y: real, s: int, t: int) {
    && (ternary ==> dir == Nearest && t == 0 && s as real < y < s as real + 0.5)
    && (tie ==> dir == Nearest && p >= 2 && t == 1 && s % 2 == 1 && y == s as real - 0.5)
    && (!ternary && !tie ==> RoundsTo(y, dir, s, t))
  }

  /** div.c:1041-1117. */
  method DivideUpper(qp: array<limb>, u: array<limb>, v: array<limb>, extra: nat, ghost exact: real)
    returns (ap: array<limb>, qh: limb, lowU: bool, stickyV: bool, ghost u1: int, ghost q1: int)
    requires qp.Length > 0 && u.Length > 0 && v.Length > 0 && v[v.Length - 1] >= HALF && extra <= 1
    requires 0.0 <= exact < BP(qp.Length) as real
    requires exact * (TopB(v[..], qp.Length) as real + TailB(v[..], qp.Length))
               == Dividend(u[..], extra, qp.Length)
    modifies qp
    ensures fresh(ap) && ap.Length == 2 * qp.Length && qh <= 1
    ensures Estimated(qp[..], qh, ap[..qp.Length], old(u[..]), old(v[..]), extra, lowU, stickyV, u1, q1, exact)
    ensures q1 == FirstQuotient(old(u[..]), old(v[..]), extra, qp.Length)
  {
    hide Val, BP, Frac, Pow2, TailU, TailB, TopB, Dividing, Dividend;
    var n := qp.Length;
    ghost var up0, vp0 := u[..], v[..];
    stickyV := false;
    if v.Length <= n {
      NoTailB(vp0, n);
    } else {
      stickyV := CmpZero(v[..v.Length - n]);
      DivisorParts(vp0, n);
      assert vp0[..v.Length - n] == v[..v.Length - n];
    }
    ap, qh, lowU, u1 := Estimate(qp, u[..], v[..], extra);
    q1 := Val(qp[..]) + Carried(qh, BP(n));
    TailURange(up0, 2 * n, extra);
    DividingHolds(Dividend(up0, extra, n), TailU(up0, 2 * n, extra), vp0, n, u1, q1, Val(ap[..n]), exact);
    TopBValue(vp0, n);
    TailBRange(vp0, n);
    QuotientOfFloors(Dividend(up0, extra, n), Divisor(vp0, n), u1, TailU(up0, 2 * n, extra), TopB(vp0, n), TailB(vp0, n), q1, Val(ap[..n]));
  }

  lemma EstimatedSame(qp: seq<limb>, qh: limb, r: seq<limb>, up: seq<limb>, vp: seq<limb>, up': seq<limb>, extra: nat,
                      lowU: bool, stickyV: bool, u1: int, q1: int, exact: real)
    requires Estimated(qp, qh, r, up, vp, extra, lowU, stickyV, u1, q1, exact)
    requires TailU(up', 2 * |r|, extra) == TailU(up, 2 * |r|, extra)
    ensures Estimated(qp, qh, r, up', vp, extra, lowU, stickyV, u1, q1, exact)
  {}

  /** div.c:904-1425: everything but the exponent range. */
  method Quotient(q0p: array<limb>, p: nat, u: array<limb>, v: array<limb>, extra: nat, dir: Direction, qexp0: int)
    returns (inex: int, qexp: int, ghost s: int, ghost y: real)
    requires p >= 1 && q0p.Length == LimbCount(p) && u.Length > 0 && v.Length > 0 && v[v.Length - 1] >= HALF
    requires 0.5 <= Frac(u[..]) < 1.0 && 0.5 <= Frac(v[..]) < 1.0 && extra == Extra(u[..], v[..])
    modifies q0p
    ensures Holding(q0p[..], p, NormSig(p, s)) && qexp == NormExp(p, s, qexp0)
    ensures y * QuotientUnit(p, dir) as real == ExactScaled(old(u[..]), old(v[..]), QuotientLimbs(p, dir))
    ensures Pow2(p - 1) as real <= y < Pow2(p) as real
    ensures Verdict(WrongTernary(old(u[..]), old(v[..]), p, dir), WrongTie(old(u[..]), old(v[..]), p, dir), p, dir, y, s, inex)
    ensures WrongTernary(old(u[..]), old(v[..]), p, dir) ==>
              s == FirstQuotient(old(u[..]), old(v[..]), extra, QuotientLimbs(p, dir)) / QuotientUnit(p, dir)
  {
    hide Val, BP, Frac, Pow2, TailU, TailB, TopB, Dividing, Estimated, Fits, Holding, NormSig, NormExp, SaysExact, TieUp,
         QuotientUnit, Verdict, FirstQuotient, Dividend, Divisor, ExactScaled, Extra;
    ghost var up0, vp0 := u[..], v[..];
    var n := QuotientLimbs(p, dir);
    ghost var d := QuotientUnit(p, dir);
    UnitFacts(p, dir);
    var qp := q0p;
    if n != q0p.Length { qp := new limb[n](_ => 0); }
    ghost var exact := ExactQuotient(up0, vp0, extra, n);
    y := UnitsOfQuotient(exact, n, p, d);
    var ap, qh, lowU, stickyV;
    ghost var u1, q1;
    ap, qh, lowU, stickyV, u1, q1 := DivideUpper(qp, u, v, extra, exact);
    ghost var r := ap[..n];
    SameOperands(up0, u[..], vp0, v[..], n, extra, q0p.Length);
    EstimatedSame(qp[..], qh, r, up0, vp0, u[..], extra, lowU, stickyV, u1, q1, exact);
    inex, qexp, s := RoundQuotient(qp, q0p, p, qh, ap[..n], u[..], v[..], extra, lowU, stickyV, dir, qexp0, vp0, u1, q1, exact, y);
    QuotientVerdict(dir, q1, exact, d, s, inex, y, p);
  }

  /** The operands are read again after the quotient has been stored.  If one of
      them is stored in the destination, then it is too short for that. */
  lemma SameOperands(up0: seq<limb>, up: seq<limb>, vp0: seq<limb>, vp: seq<limb>, n: nat, extra: nat, q0size: nat)
    requires |up| == |up0| && |vp| == |vp0| && 0 < q0size <= n
    requires (up == up0 || |up| == q0size) && (vp == vp0 || |vp| == q0size)
    ensures TailU(up, 2 * n, extra) == TailU(up0, 2 * n, extra)
    ensures |vp| > n ==> vp == vp0
  {}

  lemma UnitsOfQuotient(exact: real, n: nat, p: nat, d: int) returns (y: real)
    requires p >= 1 && d >= 1 && BP(n) == Pow2(p) * d && BP(n) as real / 2.0 <= exact < BP(n) as real
    ensures y * d as real == exact && Pow2(p - 1) as real <= y < Pow2(p) as real
  {
    hide BP, Pow2;
    y := exact / d as real;
    CastProduct(Pow2(p), d);
    Pow2Step(p - 1);
    CompareWith(y, Pow2(p) as real, d as real, exact, BP(n) as real);
    RealAssoc2(Pow2(p - 1) as real, d as real);
    CompareWith(y, Pow2(p - 1) as real, d as real, exact, BP(n) as real / 2.0);
  }

  lemma QuotientVerdict(dir: Direction, q1: int, exact: real, d: int, s: int, inex: int, y: real, p: nat)
    requires p >= 1 && d == QuotientUnit(p, dir) && y * d as real == exact
    requires SaysExact(dir, q1, exact, d) ==> s == q1 / d && inex == 0
    requires TieUp(dir, q1, exact, d) ==> s == q1 / d && inex == 1
    requires !SaysExact(dir, q1, exact, d) && !TieUp(dir, q1, exact, d) ==> Fits(exact, s * d, d, dir, s % 2 == 1, inex)
    ensures Verdict(SaysExact(dir, q1, exact, d), TieUp(dir, q1, exact, d), p, dir, y, s, inex)
  {
    hide Fits, RoundsTo, Pow2, QuotientUnit, SaysExact, TieUp;
    UnitFacts(p, dir);
    OneFault(dir, q1, exact, d);
    if SaysExact(dir, q1, exact, d) {
      FaultExact(dir, q1, exact, d, s, y);
    } else if TieUp(dir, q1, exact, d) {
      FaultTie(dir, q1, exact, d, s, y);
      TieUnits(p, dir);
    } else {
      FitsRounds(exact, y, s, d, dir, inex);
    }
  }

  lemma OneFault(dir: Direction, q1: int, exact: real, d: int)
    ensures !(SaysExact(dir, q1, exact, d) && TieUp(dir, q1, exact, d))
  {}

  lemma FaultExact(dir: Direction, q1: int, exact: real, d: int, s: int, y: real)
    requires SaysExact(dir, q1, exact, d) && s == q1 / d && y * d as real == exact && (dir == Nearest ==> d % 2 == 0)
    ensures dir == Nearest && s as real < y < s as real + 0.5
  {
    MulComm(d, q1 / d);
    CastProduct(s, d);
    ExactBelowHalf(y, s as real, d as real, exact);
  }

  lemma FaultTie(dir: Direction, q1: int, exact: real, d: int, s: int, y: real)
    requires TieUp(dir, q1, exact, d) && s == q1 / d && y * d as real == exact
    ensures dir == Nearest && d == 2 && s % 2 == 1 && y == s as real - 0.5
  {
    assert q1 == 2 * s;
    assert exact == 2.0 * s as real - 1.0;
  }

  lemma ExactBelowHalf(y: real, s: real, d: real, exact: real)
    requires d >= 4.0 && y * d == exact && exact == s * d + d / 2.0 - 1.0
    ensures s < y < s + 0.5
  {
    RealSub(y, s, d);
    CompareWith(y - s, 0.0, d, d / 2.0 - 1.0, 0.0);
    CompareWith(y - s, 0.5, d, d / 2.0 - 1.0, d / 2.0);
  }

  lemma TieUnits(p: nat, dir: Direction)
    requires p >= 1 && dir == Nearest && QuotientUnit(p, dir) == 2
    ensures p >= 2
  {
    hide Pow2;
    Pow2Limb();
  }

  // ---- the whole of mpfr_div ---------------------------------------------------------------

  /** div.c:1427-1444. */
  method DeliverQuotient(env: Env, q: Mpfr, rnd: Mode, qexp: int, inex0: int, ghost m: int) returns (inex: int)
    requires q.Shape() && env.emin <= env.emax && Holding(q.mant[..], q.prec, m)
    modifies q, q.mant, env`inexact, env`overflow, env`underflow
    ensures q.neg == old(q.neg)
    ensures var (o, t) := RangeOutcome(q.prec, DirectionOf(rnd, q.neg), m, qexp, inex0, env.emin, env.emax);
            q.Holds(o) && inex == Signed(t, q.neg)
    ensures env.inexact == (old(env.inexact) || inex != 0)
    ensures env.overflow == (old(env.overflow) || qexp > env.emax)
    ensures env.underflow == (old(env.underflow) || qexp < env.emin)
  {
    hide Val, Pow2, Holding, Normalized, Sig;
    HoldingIsNormalized(q.mant[..], q.prec, m);
    q.kind := Regular;
    if qexp > env.emax {
      inex := Overflow(env, q, rnd, q.neg);
    } else if qexp < env.emin {
      var mode := rnd;
      var pow := PowerOf2Raw(q);
      if rnd == RNDN && (qexp < env.emin - 1 || (inex0 >= 0 && pow)) { mode := RNDZ; }
      inex := Underflow(env, q, mode, q.neg);
    } else {
      q.exp := qexp;
      inex := Signed(inex0, q.neg);
      if inex != 0 { env.inexact := true; }
    }
  }

  /** When the delivered result of a division is wrong: the estimate was one too
      large in one of the two situations described above, and the range does not
      hide it. */
  ghost predicate DivisionErrs(up: seq<limb>, vp: seq<limb>, p: nat, dir: Direction, qexp: int, emin: int, emax: int) {
    p >= 1 &&
    var q1 := FirstQuotient(up, vp, Extra(up, vp), QuotientLimbs(p, dir));
    || (WrongTie(up, vp, p, dir) && emin <= qexp <= emax)
    || (WrongTernary(up, vp, p, dir)
        && (emin <= qexp <= emax || (qexp == emin - 1 && q1 / QuotientUnit(p, dir) == Pow2(p - 1))))
  }

  /** With the ternary value 0 instead of -1. */
  lemma TernaryFault(x: real, y: real, p: nat, s: int, qexp: int, emin: int, emax: int)
    requires p >= 1 && emin <= emax && x > 0.0 && x == y * R2(qexp - p) && Pow2(p - 1) as real <= y < Pow2(p) as real
    requires s as real < y < s as real + 0.5
    ensures var (o, t) := RangeOutcome(p, Nearest, NormSig(p, s), NormExp(p, s, qexp), 0, emin, emax);
            CorrectInRange(x, p, Nearest, emin, emax, o, t) <==>
            !(emin <= qexp <= emax || (qexp == emin - 1 && s == Pow2(p - 1)))
  {
    hide R2, Pow2, CorrectInRange, CorrectlyRounded, FloatValue;
    IntLt(s, Pow2(p));
    ScaledRounding(x, y, p, Nearest, qexp, s, -1);
    if emin <= qexp <= emax {
      NotExact(x, y, p, s, qexp, emin, emax);
    } else if qexp == emin - 1 && s == Pow2(p - 1) {
      WrongHalfway(x, p, -1, emin, emax, TowardZero);
    } else {
      CheckRangeCorrect(x, p, Nearest, s, qexp, -1, emin, emax);
    }
  }

  lemma NotExact(x: real, y: real, p: nat, s: int, e: int, emin: int, emax: int)
    requires p >= 1 && x == y * R2(e - p) && s as real < y && s != Pow2(p)
    ensures !CorrectInRange(x, p, Nearest, emin, emax, Finite(s, e), 0)
  {
    hide R2, Pow2;
    RealMono(s as real, y, R2(e - p));
  }

  /** With the upper of two equally near neighbours, although it is the odd one. */
  lemma TieFault(x: real, y: real, p: nat, s: int, qexp: int, emin: int, emax: int)
    requires p >= 2 && emin <= emax && x > 0.0 && x == y * R2(qexp - p) && Pow2(p - 1) as real <= y < Pow2(p) as real
    requires y == s as real - 0.5 && s % 2 == 1
    ensures var (o, t) := RangeOutcome(p, Nearest, NormSig(p, s), NormExp(p, s, qexp), 1, emin, emax);
            CorrectInRange(x, p, Nearest, emin, emax, o, t) <==> !(emin <= qexp <= emax)
  {
    hide R2, Pow2, CorrectInRange, CorrectlyRounded, FloatValue;
    Pow2Step(p - 1);
    Pow2Step(p - 2);
    IntLt(Pow2(p - 1), s);
    IntLt(s - 1, Pow2(p));
    ScaledRounding(x, y, p, Nearest, qexp, s - 1, -1);
    CheckRangeCorrect(x, p, Nearest, s - 1, qexp, -1, emin, emax);
    if emin <= qexp <= emax { OddNeighbour(x, y, p, s, qexp, emin, emax); }
  }

  lemma OddNeighbour(x: real, y: real, p: nat, s: int, e: int, emin: int, emax: int)
    requires p >= 2 && emin <= e <= emax && x == y * R2(e - p) && y == s as real - 0.5 && s % 2 == 1
    requires Pow2(p - 1) < s < Pow2(p)
    ensures !CorrectInRange(x, p, Nearest, emin, emax, Finite(s, e), 1)
  {
    hide R2, Pow2;
    var u := R2(e - p);
    assert InRange(p, emin, emax, Finite(s - 1, e));
    UnitOrder(s as real, y, u);
    UnitOrder((s - 1) as real, y, u);
    RealMono(s as real, (s - 1) as real, u);
    assert !BeatsInRange(x, p, Nearest, Finite(s, e), Finite(s - 1, e));
  }

  /** u / v: the mathematical quotient, rounded once into the exponent range,
      exactly when the operands do not meet the two faults of the code.  q may be
      u or v, or share its limbs with them. */
  method Div(env: Env, q: Mpfr, u: Mpfr, v: Mpfr, rnd: Mode) returns (inex: int, ghost o: Outcome, ghost x: real)
    requires q.Shape() && u.IsPureFp() && v.IsPureFp() && env.emin <= env.emax
    modifies q, q.mant, env`inexact, env`overflow, env`underflow
    ensures q.neg == (old(u.neg) != old(v.neg)) && q.Holds(o)
    ensures old(v.Magnitude()) > 0.0 && x == old(u.Magnitude()) / old(v.Magnitude())
    ensures var qexp := old(u.exp) - old(v.exp) + Extra(old(u.mant[..]), old(v.mant[..]));
            CorrectSigned(WithSign(q.neg, x), q.prec, rnd, env.emin, env.emax, q.neg, o, inex) <==>
            !DivisionErrs(old(u.mant[..]), old(v.mant[..]), q.prec, DirectionOf(rnd, q.neg), qexp, env.emin, env.emax)
    ensures env.inexact == (old(env.inexact) || inex != 0)
    ensures env.overflow == (old(env.overflow) || TooLarge(WithSign(q.neg, x), q.prec, rnd, env.emax))
    ensures env.underflow == (old(env.underflow) || TooSmall(WithSign(q.neg, x), q.prec, rnd, env.emin))
  {
    hide Val, BP, Frac, Pow2, R2, CorrectSigned, TooLarge, TooSmall, CorrectlyRounded, Normalized, Sig, DivisionErrs, Extra;
    ghost var up, vp, eu, ev := u.mant[..], v.mant[..], u.exp, v.exp;
    NormalizedTop(up, u.prec);
    NormalizedTop(vp, v.prec);
    FracIsFloat(up, u.prec, eu);
    FracIsFloat(vp, v.prec, ev);
    var extra := ExtraBit(u.mant[..], v.mant[..]);
    ExtraIs(up, vp);
    var qexp0 := u.exp - v.exp + extra;
    q.neg := u.neg != v.neg;
    inex, o, x := DivNonzero(env, q, u.mant, v.mant, extra, qexp0, rnd, eu, ev);
  }

  method DivNonzero(env: Env, q: Mpfr, u: array<limb>, v: array<limb>, extra: nat, qexp0: int, rnd: Mode, ghost eu: int, ghost ev: int)
    returns (inex: int, ghost o: Outcome, ghost x: real)
    requires q.Shape() && env.emin <= env.emax && u.Length > 0 && v.Length > 0 && v[v.Length - 1] >= HALF
    requires 0.5 <= Frac(u[..]) < 1.0 && 0.5 <= Frac(v[..]) < 1.0
    requires extra == Extra(u[..], v[..]) && qexp0 == eu - ev + extra
    modifies q, q.mant, env`inexact, env`overflow, env`underflow
    ensures q.neg == old(q.neg) && q.Holds(o)
    ensures Frac(old(v[..])) * R2(ev) > 0.0 && x == Frac(old(u[..])) * R2(eu) / (Frac(old(v[..])) * R2(ev))
    ensures CorrectSigned(WithSign(q.neg, x), q.prec, rnd, env.emin, env.emax, q.neg, o, inex) <==>
            !DivisionErrs(old(u[..]), old(v[..]), q.prec, DirectionOf(rnd, q.neg), qexp0, env.emin, env.emax)
    ensures env.inexact == (old(env.inexact) || inex != 0)
    ensures env.overflow == (old(env.overflow) || TooLarge(WithSign(q.neg, x), q.prec, rnd, env.emax))
    ensures env.underflow == (old(env.underflow) || TooSmall(WithSign(q.neg, x), q.prec, rnd, env.emin))
  {
    hide Val, BP, Frac, Pow2, R2, CorrectInRange, CorrectlyRounded, RoundsTo, Holding, Normalized, Sig, DivisionErrs, Extra, NormSig, NormExp,
         WrongTie, WrongTernary, QuotientUnit, ExactScaled, RangeOutcome, FirstQuotient, Verdict, Divisor, Dividend,
         CorrectSigned, TooLarge, TooSmall;
    ghost var up, vp := u[..], v[..];
    var d := DirectionOf(rnd, q.neg);
    var inex0, qexp;
    ghost var s, y;
    inex0, qexp, s, y := Quotient(q.mant, q.prec, u, v, extra, d, qexp0);
    MagnitudeOfQuotient(up, vp, eu, ev, q.prec, d, y);
    x := Frac(up) * R2(eu) / (Frac(vp) * R2(ev));
    Delivered(up, vp, x, qexp0, q.prec, d, s, y, inex0, env.emin, env.emax);
    DeliveredExponent(up, vp, x, qexp0, q.prec, rnd, q.neg, s, y, inex0, env.emin, env.emax);
    ghost var t;
    o, t := RangeOutcome(q.prec, d, NormSig(q.prec, s), qexp, inex0, env.emin, env.emax).0,
            RangeOutcome(q.prec, d, NormSig(q.prec, s), qexp, inex0, env.emin, env.emax).1;
    inex := DeliverQuotient(env, q, rnd, qexp, inex0, NormSig(q.prec, s));
    SignedTwice(t, q.neg);
    SignedMeans(x, q.prec, rnd, q.neg, env.emin, env.emax, o, inex);
  }

  lemma ExtraIs(up: seq<limb>, vp: seq<limb>)
    ensures Extra(up, vp) == if Frac(up) >= Frac(vp) then 1 else 0
  {}

  lemma MagnitudeOfQuotient(up: seq<limb>, vp: seq<limb>, eu: int, ev: int, p: nat, dir: Direction, y: real)
    requires p >= 1 && Frac(up) >= 0.5 && Frac(vp) >= 0.5
    requires y * QuotientUnit(p, dir) as real == ExactScaled(up, vp, QuotientLimbs(p, dir))
    ensures Frac(vp) * R2(ev) > 0.0
    ensures Frac(up) * R2(eu) / (Frac(vp) * R2(ev)) == y * R2(eu - ev + Extra(up, vp) - p)
    ensures Frac(up) * R2(eu) / (Frac(vp) * R2(ev)) > 0.0
  {
    hide Frac, BP, Pow2, R2, QuotientUnit;
    UnitFacts(p, dir);
    var e, n, d := Extra(up, vp), QuotientLimbs(p, dir), QuotientUnit(p, dir);
    QuotientExponent(Frac(up), Frac(vp), eu, ev, e, p, d, n, ExactScaled(up, vp, n), y);
    R2Pos(eu);
    RealProductPos(Frac(up), R2(eu));
    QuotientPos(Frac(up) * R2(eu), Frac(vp) * R2(ev));
  }

  lemma QuotientPos(x: real, y: real)
    requires x > 0.0 && y > 0.0
    ensures x / y > 0.0
  {}

  lemma Delivered(up: seq<limb>, vp: seq<limb>, x: real, qexp: int, p: nat, dir: Direction, s: int, y: real, t: int, emin: int, emax: int)
    requires p >= 1 && emin <= emax && x > 0.0 && x == y * R2(qexp - p)
    requires Pow2(p - 1) as real <= y < Pow2(p) as real
    requires Verdict(WrongTernary(up, vp, p, dir), WrongTie(up, vp, p, dir), p, dir, y, s, t)
    requires WrongTernary(up, vp, p, dir) ==> s == FirstQuotient(up, vp, Extra(up, vp), QuotientLimbs(p, dir)) / QuotientUnit(p, dir)
    ensures var (o, t') := RangeOutcome(p, dir, NormSig(p, s), NormExp(p, s, qexp), t, emin, emax);
            CorrectInRange(x, p, dir, emin, emax, o, t') <==>
            !DivisionErrs(up, vp, p, dir, qexp, emin, emax)
  {
    hide Frac, BP, Pow2, R2, QuotientUnit, CorrectInRange, CorrectlyRounded, RoundsTo, RangeOutcome, NormSig, NormExp, WrongTernary, WrongTie,
         FirstQuotient, Extra, FloatValue;
    if WrongTernary(up, vp, p, dir) {
      OnlyOneFault(up, vp, p, dir);
      TernaryFault(x, y, p, s, qexp, emin, emax);
    } else if WrongTie(up, vp, p, dir) {
      TieFault(x, y, p, s, qexp, emin, emax);
    } else {
      ScaledRounding(x, y, p, dir, qexp, s, t);
      assert CorrectlyRounded(x, p, dir, NormSig(p, s), NormExp(p, s, qexp), t);
      CheckRangeCorrect(x, p, dir, NormSig(p, s), NormExp(p, s, qexp), t, emin, emax);
    }
  }

  /** On faulty operands, too, the code finds the exponent of the quotient rounded with
      unbounded exponents. */
  lemma DeliveredExponent(up: seq<limb>, vp: seq<limb>, x: real, qexp: int, p: nat, rnd: Mode, neg: bool, s: int, y: real, t: int,
                          emin: int, emax: int)
    requires p >= 1 && x > 0.0 && x == y * R2(qexp - p) && Pow2(p - 1) as real <= y < Pow2(p) as real
    requires var dir := DirectionOf(rnd, neg); Verdict(WrongTernary(up, vp, p, dir), WrongTie(up, vp, p, dir), p, dir, y, s, t)
    ensures TooLarge(WithSign(neg, x), p, rnd, emax) <==> NormExp(p, s, qexp) > emax
    ensures TooSmall(WithSign(neg, x), p, rnd, emin) <==> NormExp(p, s, qexp) < emin
  {
    hide Frac, BP, Pow2, R2, QuotientUnit, CorrectlyRounded, RoundsTo, NormSig, WrongTernary, WrongTie, FirstQuotient, Extra, FloatValue,
         TooLarge, TooSmall;
    var dir := DirectionOf(rnd, neg);
    var s', t' := s, t;
    if WrongTernary(up, vp, p, dir) {
      OnlyOneFault(up, vp, p, dir);
      NearestBelow(y, s);
      t' := -1;
    } else if WrongTie(up, vp, p, dir) {
      TieBelow(y, s, p);
      s', t' := s - 1, -1;
    }
    ScaledRounding(x, y, p, dir, qexp, s', t');
    ExponentDecides(x, p, rnd, neg, NormSig(p, s'), NormExp(p, s', qexp), t', emin, emax);
  }

  lemma NearestBelow(y: real, s: int)
    requires s as real < y < s as real + 0.5
    ensures RoundsTo(y, Nearest, s, -1)
  {}

  lemma TieBelow(y: real, s: int, p: nat)
    requires p >= 1 && y == s as real - 0.5 && s % 2 == 1 && y < Pow2(p) as real
    ensures RoundsTo(y, Nearest, s - 1, -1) && s != Pow2(p) && s - 1 != Pow2(p)
  {
    hide Pow2;
    Pow2Step(p - 1);
    IntLt(s - 1, Pow2(p));
    var k := s / 2;
    assert s == 2 * k + 1;
  }

  lemma OnlyOneFault(up: seq<limb>, vp: seq<limb>, p: nat, dir: Direction)
    requires WrongTernary(up, vp, p, dir)
    ensures !WrongTie(up, vp, p, dir)
  {
    var n := QuotientLimbs(p, dir);
    OneFault(dir, FirstQuotient(up, vp, Extra(up, vp), n), ExactScaled(up, vp, n), QuotientUnit(p, dir));
  }

  // ---- operands that meet the faults ---------------------------------------------------------

  /** 2^127 + 2^64 - 1, a number of 128 bits. */
  const FAULTY: int := 0x8000_0000_0000_0000_FFFF_FFFF_FFFF_FFFF

  /** The dividend is k * FAULTY, exactly, with 192 bits. */
  function FaultyDividend(k: nat): seq<limb> { ToLimbs(2 * k * FAULTY, 3) }

  function FaultyDivisor(): seq<limb> { ToLimbs(FAULTY, 2) }

  lemma FaultyValues(k: nat)
    requires k == B - 9 || k == B - 7
    ensures Val(FaultyDivisor()) == FAULTY && Val(FaultyDividend(k)) == 2 * k * FAULTY
    ensures Frac(FaultyDividend(k)) == (2 * k * FAULTY) as real / (B * B * B) as real
    ensures Frac(FaultyDivisor()) == FAULTY as real / (B * B) as real
    ensures Extra(FaultyDividend(k), FaultyDivisor()) == 1
    ensures BP(1) == B && BP(2) == B * B
  {
    BPZero();
    BPStep(0);
    BPStep(1);
    BPStep(2);
    LimbsVal(FAULTY, 2);
    LimbsVal(2 * k * FAULTY, 3);
    assert BP(3) == B * B * B;
  }

  /** With one limb wanted, the estimate is k + 1, while k is exact. */
  lemma FaultyEstimate(k: nat)
    requires k == B - 9 || k == B - 7
    ensures var up, vp := FaultyDividend(k), FaultyDivisor();
            ExactScaled(up, vp, 1) == k as real && FirstQuotient(up, vp, 1, 1) == k + 1
  {
    FaultyValues(k);
    Pow2Two();
    var up, vp := FaultyDividend(k), FaultyDivisor();
    assert Dividend(up, 1, 1) == (k * FAULTY) as real / B as real;
    assert Divisor(vp, 1) == FAULTY as real / B as real;
    assert Divisor(vp, 1).Floor == FAULTY / B;
    FloorOfQuotient(k * FAULTY, B);
    assert ExactScaled(up, vp, 1) == Frac(up) / 2.0 / Frac(vp) * B as real;
  }

  lemma FloorOfQuotient(x: int, d: int)
    requires d >= 1
    ensures (x as real / d as real).Floor == x / d
  {
    var q := x as real / d as real;
    assert q * d as real == x as real;
    MulComm(d, x / d);
    CastProduct(x / d, d);
    CompareWith(q - (x / d) as real, 0.0, d as real, (x % d) as real, 0.0);
    CompareWith(q - (x / d) as real, 1.0, d as real, (x % d) as real, d as real);
    FloorIs(q, x / d);
  }

  /** Two divisions, to 60 and to 63 bits, rounding to nearest, on which the code
      returns a wrong ternary value and a wrong neighbour. */
  lemma TernaryExample()
    ensures WrongTernary(FaultyDividend(B - 9), FaultyDivisor(), 60, Nearest)
  {
    hide ExactScaled, FirstQuotient, FaultyDividend, FaultyDivisor;
    FaultyEstimate(B - 9);
    FaultyValues(B - 9);
    assert Pow2(4) == 16;
  }

  lemma TieExample()
    ensures WrongTie(FaultyDividend(B - 7), FaultyDivisor(), 63, Nearest)
  {
    hide ExactScaled, FirstQuotient, FaultyDividend, FaultyDivisor;
    FaultyEstimate(B - 7);
    FaultyValues(B - 7);
    Pow2Two();
  }

  /** The limbs are significands of 192 and of 128 bits, and the quotient gets the
      exponent EXP(u) - EXP(v) + 1. */
  lemma FaultyOperands(k: nat)
    requires k == B - 9 || k == B - 7
    ensures Normalized(FaultyDividend(k), 192) && Normalized(FaultyDivisor(), 128)
    ensures Extra(FaultyDividend(k), FaultyDivisor()) == 1
  {
    FaultyValues(k);
    HighestLimb(2 * k * FAULTY, 2);
    HighestLimb(FAULTY, 1);
    Pow2Zero();
    BPZero();
    BPStep(0);
    BPStep(1);
    hide ToLimbs, Frac, Extra;
    assert 2 * k * FAULTY / (B * B) >= HALF && FAULTY / B >= HALF;
  }

  lemma {:induction false} HighestLimb(v: nat, n: nat)
    ensures ToLimbs(v, n + 1)[n] == v / BP(n) % B
  {
    if n == 0 {
      BPZero();
    } else {
      HighestLimb(v / B, n - 1);
      ModProduct(v, B, BP(n - 1));
    }
  }

  /** Operands of 192 and 128 bits with EXP(u) = EXP(v) - 1. */
  lemma DivisionFaults()
    ensures Normalized(FaultyDivisor(), 128)
    ensures Normalized(FaultyDividend(B - 9), 192) && Extra(FaultyDividend(B - 9), FaultyDivisor()) == 1
    ensures Normalized(FaultyDividend(B - 7), 192) && Extra(FaultyDividend(B - 7), FaultyDivisor()) == 1
    ensures DivisionErrs(FaultyDividend(B - 9), FaultyDivisor(), 60, Nearest, 0, -1, 1)
    ensures DivisionErrs(FaultyDividend(B - 7), FaultyDivisor(), 63, Nearest, 0, -1, 1)
  {
    hide WrongTernary, WrongTie, FaultyDividend, FaultyDivisor;
    FaultyOperands(B - 9);
    FaultyOperands(B - 7);
    TernaryExample();
    TieExample();
  }
}

/** The limb-level helpers of div.c: comparing and subtracting a number that is
    shifted right by one bit on the fly, preparing the operands, and the division
    of integers. */
module DivLimbs {
  import opened Powers
  import opened RealPowers
  import opened Limbs
  import opened Rounding
  import opened Numbers
  import opened Streams
  import opened Shifts

  /** mpfr_mpn_cmpzero. */
  method CmpZero(ap: seq<limb>) returns (nonzero: bool)
    ensures nonzero <==> Val(ap) != 0
    ensures nonzero <==> Frac(ap) > 0.0
  {
    hide Val, Frac;
    ValZeros(ap);
    FracRange(ap);
    var an := |ap|;
    while an > 0
      invariant 0 <= an <= |ap|
      invariant forall i :: an <= i < |ap| ==> ap[i] == 0
    {
      an := an - 1;
      if ap[an] != 0 { return true; }
    }
    return false;
  }

  /** mpn_cmp. */
  method MpnCmp(ap: seq<limb>, bp: seq<limb>) returns (cmp: int)
    requires |ap| == |bp|
    ensures cmp == Sgn((Val(ap) - Val(bp)) as real)
  {
    cmp := if Val(ap) < Val(bp) then -1 else if Val(ap) > Val(bp) then 1 else 0;
  }

  /** The limb at i of {bp, ...} >> extra. */
  function ShiftedLimb(bp: seq<limb>, i: nat, extra: nat): (r: int)
    requires i + 1 < |bp|
    ensures 0 <= r < B
  {
    if extra == 0 then bp[i] else bp[i + 1] % 2 * HALF + bp[i] / 2
  }

  lemma ShiftedLimbIsNext(bp: seq<limb>, i: nat, extra: nat)
    requires i + 1 < |bp| && extra <= 1
    ensures ShiftedLimb(bp, i, extra) == NextShifted(bp[i + 1], bp[..i + 1], extra)
    ensures ShiftedTail(bp[i + 1], bp[..i + 1], extra) * B as real ==
            ShiftedLimb(bp, i, extra) as real + ShiftedTail(bp[i], bp[..i], extra)
  {
    hide Frac, ShiftedTail;
    Pow2Limb();
    Pow2Zero();
    Pow2Two();
    ShiftedTailStep(bp[i + 1], bp[..i + 1], extra);
    assert bp[..i + 1][..i] == bp[..i];
  }

  /** A left shift of a limb by 63. */
  lemma TopBit(x: limb)
    ensures x * HALF % B == x % 2 * HALF
  {}

  /** The last bit of a shifted number, with nothing behind it. */
  lemma LastBit(x: limb, extra: nat)
    requires extra <= 1
    ensures ShiftedTail(x, [], extra) == if extra == 1 && x % 2 == 1 then 0.5 else 0.0
  {
    Pow2Zero();
    Pow2Two();
    FracRange([]);
  }

  /** mpfr_mpn_cmp_aux: ap against bp >> extra, aligned at the top; bp[bn0] is the
      limb whose lowest bit is shifted in. */
  method CmpAux(ap: seq<limb>, bp: seq<limb>, bn0: nat, extra: nat) returns (cmp: int)
    requires bn0 < |bp| && extra <= 1
    ensures cmp == Sgn(Frac(ap) - ShiftedTail(bp[bn0], bp[..bn0], extra))
  {
    hide Frac, ShiftedTail, Sgn;
    ghost var goal := Sgn(Frac(ap) - ShiftedTail(bp[bn0], bp[..bn0], extra));
    assert ap[..|ap|] == ap;
    cmp := 0;
    if |ap| >= bn0 {
      cmp := CmpLonger(ap, bp, bn0, extra);
      return;
    }
    var an := |ap|;
    var k := bn0 - an;
    while cmp == 0 && an > 0
      invariant 0 <= an <= |ap|
      invariant cmp == 0 ==> goal == Sgn(Frac(ap[..an]) - ShiftedTail(bp[k + an], bp[..k + an], extra))
      invariant cmp != 0 ==> cmp == goal
      decreases an
    {
      an := an - 1;
      var bb := if extra == 1 then bp[k + an + 1] * HALF % B + bp[k + an] / 2 else bp[k + an];
      TopBit(bp[k + an + 1]);
      TakeStep(ap, an);
      ShiftedLimbIsNext(bp, k + an, extra);
      FracRange(ap[..an]);
      ShiftedTailRange(bp[k + an], bp[..k + an], extra);
      CompareStep(Frac(ap[..an + 1]), ShiftedTail(bp[k + an + 1], bp[..k + an + 1], extra), ap[an], bb,
                  Frac(ap[..an]), ShiftedTail(bp[k + an], bp[..k + an], extra));
      if ap[an] > bb { cmp := 1; } else if ap[an] < bb { cmp := -1; }
    }
    if cmp != 0 { return; }
    EmptyFrac(ap[..0]);
    cmp := CmpRest(bp, k, extra);
  }

  /** div.c:707-715: nothing is left of ap. */
  method CmpRest(bp: seq<limb>, k0: nat, extra: nat) returns (cmp: int)
    requires k0 < |bp| && extra <= 1
    ensures cmp == Sgn(0.0 - ShiftedTail(bp[k0], bp[..k0], extra))
  {
    hide Frac, ShiftedTail, Sgn;
    var k := k0;
    cmp := 0;
    ghost var goal := Sgn(0.0 - ShiftedTail(bp[k0], bp[..k0], extra));
    while cmp == 0 && k > 0
      invariant 0 <= k <= k0
      invariant cmp == 0 ==> goal == Sgn(0.0 - ShiftedTail(bp[k], bp[..k], extra))
      invariant cmp != 0 ==> cmp == goal
      decreases k
    {
      k := k - 1;
      var bb := if extra == 1 then bp[k + 1] * HALF % B + bp[k] / 2 else bp[k];
      TopBit(bp[k + 1]);
      ShiftedLimbIsNext(bp, k, extra);
      ShiftedTailRange(bp[k], bp[..k], extra);
      CompareStep(0.0, ShiftedTail(bp[k + 1], bp[..k + 1], extra), 0, bb, 0.0, ShiftedTail(bp[k], bp[..k], extra));
      cmp := if bb != 0 then -1 else 0;
    }
    if cmp == 0 {
      assert bp[..0] == [];
      LastBit(bp[0], extra);
      if extra == 1 && bp[0] % 2 == 1 { cmp := -1; }
      SgnNeg();
    }
  }

  lemma SgnNeg()
    ensures Sgn(0.0 - 0.5) == -1 && Sgn(0.0 - 0.0) == 0
  {}

  /** div.c:674-693: ap has at least as many limbs as bp. */
  method CmpLonger(ap: seq<limb>, bp: seq<limb>, bn0: nat, extra: nat) returns (cmp: int)
    requires bn0 < |bp| && extra <= 1 && |ap| >= bn0
    ensures cmp == Sgn(Frac(ap) - ShiftedTail(bp[bn0], bp[..bn0], extra))
  {
    hide Frac, ShiftedTail, Sgn;
    ghost var goal := Sgn(Frac(ap) - ShiftedTail(bp[bn0], bp[..bn0], extra));
    assert ap[..|ap|] == ap;
    cmp := 0;
    var bn := bn0;
    var k := |ap| - bn;
    var bb: limb;
    while cmp == 0 && bn > 0
      invariant 0 <= bn <= bn0
      invariant cmp == 0 ==> goal == Sgn(Frac(ap[..k + bn]) - ShiftedTail(bp[bn], bp[..bn], extra))
      invariant cmp != 0 ==> cmp == goal
      decreases bn
    {
      bn := bn - 1;
      bb := if extra == 1 then bp[bn + 1] * HALF % B + bp[bn] / 2 else bp[bn];
      TopBit(bp[bn + 1]);
      TakeStep(ap, k + bn);
      ShiftedLimbIsNext(bp, bn, extra);
      FracRange(ap[..k + bn]);
      ShiftedTailRange(bp[bn], bp[..bn], extra);
      CompareStep(Frac(ap[..k + bn + 1]), ShiftedTail(bp[bn + 1], bp[..bn + 1], extra), ap[k + bn], bb,
                  Frac(ap[..k + bn]), ShiftedTail(bp[bn], bp[..bn], extra));
      cmp := if ap[k + bn] > bb then 1 else if ap[k + bn] < bb then -1 else 0;
    }
    if cmp != 0 { return; }
    assert bp[..0] == [];
    LastBit(bp[0], extra);
    TopBit(bp[0]);
    bb := if extra == 1 then bp[0] * HALF % B else 0;
    cmp := CmpBelow(ap, k, bb, if bb == 0 then 0.0 else 0.5);
  }

  /** div.c:684-692: of bp only the bit that was shifted out is left. */
  method CmpBelow(ap: seq<limb>, k0: nat, bb0: limb, ghost t0: real) returns (cmp: int)
    requires k0 <= |ap| && t0 * B as real == bb0 as real
    ensures cmp == Sgn(Frac(ap[..k0]) - t0)
  {
    hide Frac, Sgn;
    var k, bb := k0, bb0;
    ghost var t := t0;
    cmp := 0;
    ghost var goal := Sgn(Frac(ap[..k0]) - t0);
    while cmp == 0 && k > 0
      invariant 0 <= k <= k0
      invariant t * B as real == bb as real
      invariant cmp == 0 ==> goal == Sgn(Frac(ap[..k]) - t)
      invariant cmp != 0 ==> cmp == goal
      decreases k
    {
      k := k - 1;
      TakeStep(ap, k);
      FracRange(ap[..k]);
      CompareStep(Frac(ap[..k + 1]), t, ap[k], bb, Frac(ap[..k]), 0.0);
      cmp := if ap[k] > bb then 1 else if ap[k] < bb then -1 else 0;
      bb, t := 0, 0.0;
    }
    if cmp == 0 {
      EmptyFrac(ap[..0]);
      if bb != 0 { cmp := -1; }
      SgnSmall(t);
    }
  }

  lemma SgnSmall(t: real)
    requires 0.0 <= t
    ensures Sgn(0.0 - t) == if t == 0.0 then 0 else -1
  {}

  // ---- subtraction ---------------------------------------------------------------

  /** {bp + m, n} >> extra, the lowest bit of bp[m + n] shifted in. */
  function ShiftedVal(bp: seq<limb>, m: nat, n: nat, extra: nat): (r: int)
    requires m + n < |bp|
    ensures r >= 0
  {
    if n == 0 then 0 else ShiftedVal(bp, m, n - 1, extra) + ShiftedLimb(bp, m + n - 1, extra) * BP(n - 1)
  }

  /** What ShiftedVal leaves out is the tail below. */
  lemma {:induction false} ShiftedValTail(bp: seq<limb>, m: nat, n: nat, extra: nat)
    requires m + n < |bp| && extra <= 1
    ensures ShiftedTail(bp[m + n], bp[..m + n], extra) * BP(n) as real ==
            ShiftedVal(bp, m, n, extra) as real + ShiftedTail(bp[m], bp[..m], extra)
  {
    hide Frac, ShiftedTail, ShiftedLimb, ShiftedVal, BP;
    ShiftedValUnfold(bp, m, n, extra);
    if n > 0 {
      ShiftedValTail(bp, m, n - 1, extra);
      ShiftedLimbIsNext(bp, m + n - 1, extra);
      BPStep(n - 1);
      CastProduct(B, BP(n - 1));
      CastProduct(ShiftedLimb(bp, m + n - 1, extra), BP(n - 1));
      TailUp(ShiftedTail(bp[m + n], bp[..m + n], extra), B as real, ShiftedLimb(bp, m + n - 1, extra) as real,
             ShiftedTail(bp[m + n - 1], bp[..m + n - 1], extra), BP(n - 1) as real);
    }
  }

  lemma ShiftedValUnfold(bp: seq<limb>, m: nat, n: nat, extra: nat)
    requires m + n < |bp|
    ensures n == 0 ==> ShiftedVal(bp, m, n, extra) == 0 && BP(n) == 1
    ensures n > 0 ==> ShiftedVal(bp, m, n, extra) == ShiftedVal(bp, m, n - 1, extra) + ShiftedLimb(bp, m + n - 1, extra) * BP(n - 1)
  {
    hide ShiftedLimb;
  }

  lemma TailUp(t: real, b: real, x: real, t': real, p: real)
    requires t * b == x + t'
    ensures t * (b * p) == x * p + t' * p
  {
    RealRegroup2(t, b, p);
    RealExpand(x, t', p);
  }

  /** mpfr_mpn_sub_aux: {ap + lo, n} <- {ap + lo, n} - {bp + m, n} >> extra - cy. */
  method SubAux(ap: array<limb>, lo: nat, bp: seq<limb>, m: nat, n: nat, cy0: limb, extra: nat) returns (cy: limb)
    requires lo + n <= ap.Length && m + n < |bp| && cy0 <= 1 && extra <= 1
    modifies ap
    ensures cy <= 1
    ensures Val(ap[lo..lo + n]) == Val(old(ap[lo..lo + n])) - ShiftedVal(bp, m, n, extra) - cy0 + cy * BP(n)
    ensures ap[..lo] == old(ap[..lo]) && ap[lo + n..] == old(ap[lo + n..])
  {
    hide Val, BP, ShiftedVal, ShiftedLimb;
    cy := cy0;
    ghost var s := ap[..];
    var i := 0;
    ValEmpty(ap[lo..lo]);
    BPZero();
    ShiftedValStep(bp, m, 0, extra);
    assert s[lo..lo] == ap[lo..lo];
    while i < n
      invariant 0 <= i <= n && cy <= 1
      invariant forall j :: 0 <= j < ap.Length && !(lo <= j < lo + i) ==> ap[j] == s[j]
      invariant Val(ap[lo..lo + i]) == Val(s[lo..lo + i]) - ShiftedVal(bp, m, i, extra) - cy0 + cy * BP(i)
    {
      ghost var a, before, cy1 := ap[lo + i], ap[lo..lo + i], cy;
      var bb, rp;
      bb, rp, cy := SubLimbs(ap[lo + i], bp, m + i, cy, extra);
      ap[lo + i] := rp;
      assert ap[lo..lo + i] == before;
      SliceTake(ap[..], lo, i);
      SliceTake(s, lo, i);
      BPStep(i);
      ShiftedValStep(bp, m, i, extra);
      SubLimb(a, bb, cy1, cy, rp, BP(i), Val(before), Val(s[lo..lo + i]), ShiftedVal(bp, m, i, extra), cy0);
      i := i + 1;
    }
    assert ap[..lo] == s[..lo] && ap[lo + n..] == s[lo + n..];
  }

  lemma ShiftedValStep(bp: seq<limb>, m: nat, i: nat, extra: nat)
    requires m + i < |bp|
    ensures i == 0 ==> ShiftedVal(bp, m, i, extra) == 0
    ensures m + i + 1 < |bp| ==> ShiftedVal(bp, m, i + 1, extra) == ShiftedVal(bp, m, i, extra) + ShiftedLimb(bp, m + i, extra) * BP(i)
  {}

  /** One limb of the subtraction. */
  method SubLimbs(a: limb, bp: seq<limb>, i: nat, cy0: limb, extra: nat) returns (bb: limb, rp: limb, cy: limb)
    requires i + 1 < |bp| && cy0 <= 1 && extra <= 1
    ensures bb == ShiftedLimb(bp, i, extra) && cy <= 1 && rp == a - bb - cy0 + cy * B
  {
    bb := if extra == 1 then bp[i + 1] * HALF % B + bp[i] / 2 else bp[i];
    TopBit(bp[i + 1]);
    rp := (a - bb - cy0) % B;
    cy := if a < bb || (cy0 != 0 && rp == B - 1) then 1 else 0;
  }

  lemma SliceTake(s: seq<limb>, lo: nat, i: nat)
    requires lo + i < |s|
    ensures Val(s[lo..lo + i + 1]) == Val(s[lo..lo + i]) + s[lo + i] * BP(i)
  {
    hide Val, BP;
    ValTake(s[lo..], i);
    assert s[lo..][..i] == s[lo..lo + i] && s[lo..][..i + 1] == s[lo..lo + i + 1];
  }

  lemma SubLimb(a: int, bb: int, cy: int, cy': int, rp: int, p: int, v: int, w: int, sv: int, cy0: int)
    requires rp == a - bb - cy + cy' * B && v == w - sv - cy0 + cy * p
    ensures v + rp * p == w + a * p - (sv + bb * p) - cy0 + cy' * (B * p)
  {
    SubLimbProduct(a, bb, cy, cy', rp, p);
  }

  lemma SubLimbProduct(a: int, bb: int, cy: int, cy': int, rp: int, p: int)
    requires rp == a - bb - cy + cy' * B
    ensures rp * p == a * p - bb * p - cy * p + cy' * (B * p)
  {
    assert rp * p == (a - bb - cy + cy' * B) * p;
    Distrib(a, -bb, p);
    Distrib(a - bb, -cy, p);
    Distrib(a - bb - cy, cy' * B, p);
    MulAssoc(cy', B, p);
  }

  // ---- operands -------------------------------------------------------------------

  /** div.c:904-924: is the significand of u at least that of v? */
  method ExtraBit(up: seq<limb>, vp: seq<limb>) returns (extra: nat)
    requires |up| > 0 && |vp| > 0
    ensures extra == if Frac(up) >= Frac(vp) then 1 else 0
  {
    hide Frac, Sgn;
    var k, l := |up| - 1, |vp| - 1;
    assert up[..k + 1] == up && vp[..l + 1] == vp;
    while k != 0 && l != 0 && up[k] == vp[l]
      invariant 0 <= k < |up| && 0 <= l < |vp|
      invariant Sgn(Frac(up) - Frac(vp)) == Sgn(Frac(up[..k + 1]) - Frac(vp[..l + 1]))
    {
      CompareTop(up, k, vp, l);
      k, l := k - 1, l - 1;
    }
    CompareTop(up, k, vp, l);
    SgnOrder(Frac(up), Frac(vp));
    if up[k] != vp[l] {
      extra := if up[k] > vp[l] then 1 else 0;
    } else if l == 0 {
      extra := 1;
      EmptyFrac(vp[..0]);
      FracRange(up[..k]);
      SgnOrder(Frac(up[..k]), 0.0);
    } else {
      var nonzero := CmpZero(vp[..l]);
      extra := if nonzero then 0 else 1;
      EmptyFrac(up[..0]);
      FracRange(vp[..l]);
      SgnOrder(0.0, Frac(vp[..l]));
    }
  }

  lemma CompareTop(up: seq<limb>, k: nat, vp: seq<limb>, l: nat)
    requires k < |up| && l < |vp|
    ensures var s := Sgn(Frac(up[..k + 1]) - Frac(vp[..l + 1]));
            && (up[k] > vp[l] ==> s == 1)
            && (up[k] < vp[l] ==> s == -1)
            && (up[k] == vp[l] ==> s == Sgn(Frac(up[..k]) - Frac(vp[..l])))
  {
    hide Frac, Sgn;
    TakeStep(up, k);
    TakeStep(vp, l);
    FracRange(up[..k]);
    FracRange(vp[..l]);
    CompareStep(Frac(up[..k + 1]), Frac(vp[..l + 1]), up[k], vp[l], Frac(up[..k]), Frac(vp[..l]));
  }

  /** What of u >> extra does not fit into qq limbs, as a fraction of the last one. */
  function TailU(up: seq<limb>, qq: nat, extra: nat): real {
    if 0 < qq <= |up| then ShiftedTail(up[|up| - qq], up[..|up| - qq], extra) else 0.0
  }

  /** div.c:1041-1060: the dividend, shifted so that the quotient has its high bit set. */
  method PrepareDividend(ap: array<limb>, up: seq<limb>, extra: nat) returns (sticky: bool)
    requires |up| > 0 && ap.Length > 0 && extra <= 1
    modifies ap
    ensures Val(ap[..]) as real + TailU(up, ap.Length, extra) == Frac(up) / Pow2(extra) as real * BP(ap.Length) as real
    ensures sticky <==> TailU(up, ap.Length, extra) > 0.0
  {
    hide Val, Frac, BP, ShiftedTail;
    Pow2Zero();
    Pow2Two();
    var qq, usize := ap.Length, |up|;
    if qq > usize {
      MpnZero(ap, 0, qq - usize);
      var out := ShiftIn(ap, up, extra, usize, qq - usize);
      TailCEnd(up, extra, qq);
      sticky := false;
    } else {
      var k := usize - qq;
      var out := ShiftIn(ap, up, extra, qq, 0);
      var low := CmpZero(up[..k]);
      ShiftedTailRange(up[k], up[..k], extra);
      sticky := out != 0 || low;
    }
  }

  /** mpn_divrem (qp, 0, ap + lo, nn, dp, dn). */
  method MpnDivrem(qp: array<limb>, ap: array<limb>, lo: nat, d: seq<limb>) returns (qh: limb)
    requires ap != qp && lo + |d| <= ap.Length && |d| > 0 && d[|d| - 1] >= HALF
    requires qp.Length == ap.Length - lo - |d|
    modifies qp, ap
    ensures qh <= 1 && ap[..lo] == old(ap[..lo])
    ensures Val(old(ap[lo..])) == (Val(qp[..]) + qh * BP(qp.Length)) * Val(d) + Val(ap[lo..lo + |d|])
    ensures Val(ap[lo..lo + |d|]) < Val(d)
  {
    hide Val, BP;
    ghost var before := ap[lo..];
    var u, v := Val(ap[lo..]), Val(d);
    HighLimb(d);
    ValBound(d);
    ValBound(before);
    BPAdd(qp.Length, |d|);
    BPStep(|d| - 1);
    MulMono(1, BP(|d| - 1), HALF);
    MulComm(HALF, BP(|d| - 1));
    QuotientLimb(u, v, BP(qp.Length), BP(|d|));
    var q, r := u / v, u % v;
    MulComm(v, q);
    qh := if q < BP(qp.Length) then 0 else 1;
    Store(qp, 0, qp.Length, if qh == 0 then q else q - BP(qp.Length));
    assert qp[0..qp.Length] == qp[..];
    Store(ap, lo, |d|, r);
  }

  lemma QuotientLimb(u: int, v: int, p: int, b: int)
    requires 0 <= u < p * b && 1 <= b <= 2 * v && p >= 1
    ensures 0 <= u / v < 2 * p
  {
    MulMono(b, 2 * v, p);
    MulComm(p, b);
    MulAssoc(2, v, p);
    MulComm(v, p);
    MulAssoc(2, p, v);
    MulComm(v, 2 * p);
    DivMulLt(u, v, 2 * p);
  }

  /** mpn_mul. */
  method MpnMul(sp: array<limb>, s: seq<limb>, t: seq<limb>)
    requires sp.Length == |s| + |t|
    modifies sp
    ensures Val(sp[..]) == Val(s) * Val(t)
  {
    hide Val, BP;
    ValBound(s);
    ValBound(t);
    BPAdd(|s|, |t|);
    ProductBound(Val(s), Val(t), BP(|s|), BP(|t|));
    Store(sp, 0, sp.Length, Val(s) * Val(t));
    assert sp[0..sp.Length] == sp[..];
  }

  lemma ProductBound(x: int, y: int, b: int, c: int)
    requires 0 <= x < b && 0 <= y < c
    ensures 0 <= x * y < b * c
  {
    MulMono(x, b - 1, y);
    MulStrict(y, c, b);
    MulComm(y, b);
    MulComm(c, b);
    Distrib(b, -1, y);
    MulMono(0, x, y);
  }

  lemma MulOne(x: int)
    ensures 1 * x == x
  {}
}

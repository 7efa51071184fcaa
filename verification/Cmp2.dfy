/** cmp2.c: the sign of |b| - |c| and the number of bits that cancel in the
    subtraction, found by reading both significands once from the top.

    delta is the difference in units of the larger number's binade.  After some
    limbs, delta * 2^(64 + res) = D + tb - tc, where D = [high_dif][dif] >= 1 is
    the difference of what has been read and tb, tc in [0, 1) are what has not. */
module Cmp2 {
  import opened Powers
  import opened RealPowers
  import opened Limbs
  import opened Rounding
  import opened Range
  import opened Numbers
  import opened Exceptions
  import opened Streams
  import opened Shifts

  /** res is the number of leading zeros of the binary fraction delta. */
  ghost predicate LeadingZeros(delta: real, res: int) {
    R2(-res - 1) <= delta < R2(-res)
  }

  /** Reading delta's leading bit off a scaled value. */
  lemma LeadingBit(delta: real, res: int, v: real, j: nat)
    requires delta * R2(64 + res) == v && Pow2(j) as real <= v < Pow2(j + 1) as real
    ensures LeadingZeros(delta, res + 63 - j)
  {
    hide R2, Pow2;
    var u := R2(64 + res);
    R2Nat(j);
    R2Nat(j + 1);
    var r := res + 63 - j;
    R2Add(-r - 1, 64 + res);
    R2Add(-r, 64 + res);
    CompareWith(delta, R2(-r - 1), u, v, R2(j));
    CompareWith(delta, R2(-r), u, v, R2(j + 1));
  }

  // ---- reading c ------------------------------------------------------------------

  /** The variables diff_exp, lastc and cn when k limbs of shifted c have been used. */
  ghost predicate Reading(cp: seq<limb>, s: nat, k: int, lastc: limb, cn: int, diffExp: nat) {
    && s < 64
    && diffExp == (if k < 0 then s - 64 * k else s)
    && cn == |cp| - 1 - (if k < 0 then 0 else if k > |cp| then |cp| else k)
    && lastc == if s == 0 || k <= 0 || k > |cp| then 0 else (cp[|cp| - k] % Pow2(s)) * Pow2(64 - s)
  }

  /** cmp2.c:240-255 and 302-316. */
  method NextC(cp: seq<limb>, lastc0: limb, cn0: int, diffExp: nat, ghost s: nat, ghost k: int)
    returns (cc: limb, lastc: limb, cn: int)
    requires Reading(cp, s, k, lastc0, cn0, diffExp) && diffExp < 64
    ensures Reading(cp, s, k + 1, lastc, cn, diffExp) && k >= 0
    ensures TailC(cp, s, k) * B as real == cc as real + TailC(cp, s, k + 1)
    ensures cn0 >= 0 ==> cn == cn0 - 1
    ensures cn0 < 0 ==> cn == cn0 && lastc == 0
    ensures cn0 >= 0 && lastc0 == 0 ==> cc == cp[cn0] / Pow2(diffExp)
  {
    hide Pow2, TailC;
    NextParts(cp, s, k, lastc0);
    lastc, cn := 0, cn0;
    if cn0 < 0 {
      cc := lastc0;
    } else if diffExp == 0 {
      cc := cp[cn];
      cn := cn - 1;
    } else {
      cc := lastc0 + cp[cn] / Pow2(diffExp);
      lastc := cp[cn] * Pow2(64 - diffExp) % B;
      cn := cn - 1;
    }
  }

  /** The next limb of shifted c, put together from two limbs of c. */
  lemma NextParts(cp: seq<limb>, s: nat, k: int, lastc: limb)
    requires s < 64 && k >= 0 && lastc == if s == 0 || k == 0 || k > |cp| then 0 else (cp[|cp| - k] % Pow2(s)) * Pow2(64 - s)
    ensures k >= |cp| ==> TailC(cp, s, k) * B as real == lastc as real + TailC(cp, s, k + 1)
    ensures k < |cp| ==> var x := cp[|cp| - 1 - k];
              && lastc + x / Pow2(s) < B && x / Pow2(s) >= 0
              && TailC(cp, s, k) * B as real == (lastc + x / Pow2(s)) as real + TailC(cp, s, k + 1)
              && (s > 0 ==> x * Pow2(64 - s) % B == (x % Pow2(s)) * Pow2(64 - s))
    ensures Pow2(0) == 1
  {
    hide Pow2, TailC;
    TailCStep(cp, s, k);
    TailCPast(cp, s, k);
    Pow2Zero();
    if k <= |cp| {
      var prev: limb := if k == 0 then 0 else cp[|cp| - k];
      NextShiftedIsLimb(prev, cp[..|cp| - k], s);
      ProductZero(0, Pow2(64 - s));
    }
    if k < |cp| {
      DivLe(cp[|cp| - 1 - k], Pow2(s));
      Pow2Limb();
      Pow2Add(s, 64 - s);
      ShiftLeftLimb(cp[|cp| - 1 - k], Pow2(s), Pow2(64 - s));
    }
  }

  /** Nothing is left of c. */
  lemma ReadEntirely(cp: seq<limb>, s: nat, k: int, lastc: limb, cn: int, diffExp: nat)
    requires Reading(cp, s, k, lastc, cn, diffExp) && |cp| > 0
    ensures cn < 0 && lastc == 0 ==> TailC(cp, s, k) == 0.0
    ensures cn < 0 && lastc != 0 ==> TailC(cp, s, k) > 0.0
  {
    hide Pow2, Val, ShiftedTail;
    TailCEnd(cp, s, k);
    TailCRange(cp, s, k);
    if cn < 0 && k == |cp| && s > 0 {
      ShiftedTailRange(cp[0], cp[..0], s);
      ProductZero(cp[0] % Pow2(s), Pow2(64 - s));
      ValEmpty(cp[..0]);
    }
  }

  // ---- the leading bits of the difference ---------------------------------------------

  /** [high_dif][dif]. */
  function Dif(highDif: bool, dif: limb): int { (if highDif then B else 0) + dif }

  ghost function RestB(bp: seq<limb>, bn: int): real
    requires bn < |bp|
  {
    if bn < 0 then 0.0 else Frac(bp[..bn + 1])
  }

  lemma RestBStep(bp: seq<limb>, bn: int)
    requires bn < |bp|
    ensures 0.0 <= RestB(bp, bn) < 1.0
    ensures bn < 0 ==> RestB(bp, bn) * B as real == 0.0
    ensures bn >= 0 ==> RestB(bp, bn) * B as real == bp[bn] as real + RestB(bp, bn - 1)
  {
    hide Frac;
    if bn >= 0 {
      FracRange(bp[..bn + 1]);
      TakeStep(bp, bn);
      EmptyFrac(bp[..0]);
    }
  }

  /** One limb more of both: the leading 1 moves up by 64 bits. */
  lemma DifStep(delta: real, res: int, tb: real, tc: real, bb: limb, cc: limb, tb': real, tc': real)
    requires delta * R2(64 + res) == 1.0 + tb - tc
    requires tb * B as real == bb as real + tb' && tc * B as real == cc as real + tc'
    ensures var d := Dif(bb >= cc, (bb - cc) % B);
            d >= 1 && delta * R2(64 + (res + 64)) == d as real + tb' - tc'
  {
    hide R2, Pow2;
    R2Add(64 + res, 64);
    R2Nat(64);
    Pow2Limb();
    RealRegroup2(delta, R2(64 + res), B as real);
    assert (bb - cc) % B == if bb >= cc then bb - cc else bb - cc + B;
  }

  lemma WholeC(cp: seq<limb>, diffExp: nat)
    ensures Frac(cp) / Pow2(diffExp) as real == TailC(cp, diffExp % 64, -(diffExp / 64))
  {
    hide Pow2, Frac, TailC;
    NoOverlap(cp, diffExp, 0);
    BPZero();
  }

  lemma ShiftSizes(x: limb, d: nat)
    ensures d == 0 ==> x / Pow2(d) == x
    ensures d >= 1 ==> x / Pow2(d) < HALF
    ensures d >= 2 ==> x / Pow2(d) < HALF / 2
  {
    hide Pow2;
    Pow2Zero();
    Pow2Two();
    if d >= 1 {
      Pow2Mono(1, d);
      DivMulLt(x, Pow2(d), HALF);
    }
    if d >= 2 {
      Pow2Step(1);
      Pow2Mono(2, d);
      DivMulLt(x, Pow2(d), HALF / 2);
    }
  }

  /** cmp2.c:184-200: the first limb, from which c has been aligned. */
  method FirstDif(bp: seq<limb>, cp: seq<limb>, diffExp0: nat, ghost delta: real)
    returns (dif: limb, bn: int, cn: int, diffExp: nat, lastc: limb, ghost s: nat, ghost k: int)
    requires |bp| > 0 && |cp| > 0
    requires if diffExp0 == 0 then bp[|bp| - 1] > cp[|cp| - 1] else bp[|bp| - 1] >= HALF
    requires delta == Frac(bp) - Frac(cp) / Pow2(diffExp0) as real
    ensures dif >= 1 && bn == |bp| - 2 && Reading(cp, s, k, lastc, cn, diffExp)
    ensures delta * R2(64) == dif as real + RestB(bp, bn) - TailC(cp, s, k)
    ensures dif == 1 ==> diffExp <= 1
  {
    hide Pow2, R2, Frac, TailC;
    s := diffExp0 % 64;
    k := -(diffExp0 / 64);
    bn, cn, diffExp, lastc := |bp| - 1, |cp| - 1, diffExp0, 0;
    assert bp[..bn + 1] == bp;
    RestBStep(bp, bn);
    R2Nat(64);
    Pow2Limb();
    WholeC(cp, diffExp0);
    TailCStep(cp, s, k);
    RealSub(Frac(bp), TailC(cp, s, k), B as real);
    var cc: limb;
    if diffExp < 64 {
      ShiftSizes(cp[cn], diffExp);
      cc, lastc, cn := NextC(cp, lastc, cn, diffExp, s, k);
    } else {
      cc := 0;
      diffExp := diffExp - 64;
    }
    k := k + 1;
    dif := bp[bn] - cc;
    bn := bn - 1;
  }

  /** cmp2.c:229-258: as long as the difference read so far is 1. */
  method LongBorrow(bp: seq<limb>, bn0: int, cp: seq<limb>, cn0: int, diffExp: nat, lastc0: limb, dif0: limb,
                    ghost s: nat, ghost k0: int, ghost delta: real)
    returns (res: int, highDif: bool, dif: limb, bn: int, cn: int, lastc: limb, ghost k: int)
    requires -1 <= bn0 < |bp| && |cp| > 0 && Reading(cp, s, k0, lastc0, cn0, diffExp) && dif0 >= 1 && (dif0 == 1 ==> diffExp <= 1)
    requires delta * R2(64) == dif0 as real + RestB(bp, bn0) - TailC(cp, s, k0)
    ensures -1 <= bn < |bp| && Reading(cp, s, k, lastc, cn, diffExp) && Dif(highDif, dif) >= 1
    ensures delta * R2(64 + res) == Dif(highDif, dif) as real + RestB(bp, bn) - TailC(cp, s, k)
    ensures Dif(highDif, dif) == 1 ==> cn < 0 && lastc == 0
    ensures highDif ==> res >= 64
    ensures res >= 0
  {
    hide R2, Frac, TailC, Pow2, RestB;
    res, highDif, dif, bn, cn, lastc, k := 0, false, dif0, bn0, cn0, lastc0, k0;
    while (cn >= 0 || lastc != 0) && !highDif && dif == 1
      invariant -1 <= bn < |bp| && cn >= -1 && Reading(cp, s, k, lastc, cn, diffExp) && Dif(highDif, dif) >= 1
      invariant delta * R2(64 + res) == Dif(highDif, dif) as real + RestB(bp, bn) - TailC(cp, s, k)
      invariant Dif(highDif, dif) == 1 ==> diffExp <= 1
      invariant res >= 0 && (highDif ==> res >= 64)
      decreases 2 * cn + 2 + (if lastc != 0 then 1 else 0)
    {
      RestBStep(bp, bn);
      ghost var tb, tc := RestB(bp, bn), TailC(cp, s, k);
      var bb: limb := 0;
      if bn >= 0 {
        bb := bp[bn];
        bn := bn - 1;
      } else {
        RestBNothing(bp, bn);
      }
      var cc;
      cc, lastc, cn := NextC(cp, lastc, cn, diffExp, s, k);
      DifStep(delta, res, tb, tc, bb, cc, RestB(bp, bn), TailC(cp, s, k + 1));
      dif := (bb - cc) % B;
      highDif := bb >= cc;
      res := res + 64;
      k := k + 1;
    }
  }

  lemma RestBNothing(bp: seq<limb>, bn: int)
    requires bn < 0
    ensures RestB(bp, bn) == 0.0
  {}

  // ---- the trailing limbs -----------------------------------------------------------

  lemma TailCZero(cp: seq<limb>, s: nat, k: int, lastc: limb, cn: int, diffExp: nat)
    requires Reading(cp, s, k, lastc, cn, diffExp)
    ensures -1 <= cn < |cp|
    ensures TailC(cp, s, k) == 0.0 <==> lastc == 0 && forall i :: 0 <= i <= cn ==> cp[i] == 0
    ensures TailC(cp, s, k) >= 0.0
  {
    hide Pow2, Val, ShiftedTail;
    TailCEnd(cp, s, k);
    TailCRange(cp, s, k);
    ValZeros(cp[..cn + 1]);
    assert cp[..|cp|] == cp;
    if 0 <= k <= |cp| {
      var prev: limb := if k == 0 then 0 else cp[|cp| - k];
      ShiftedTailRange(prev, cp[..|cp| - k], s);
      ProductZero(prev % Pow2(s), Pow2(64 - s));
      Pow2Zero();
    } else if k < 0 {
      ShiftedTailRange(0, cp, s);
      QuotientRange(ShiftedTail(0, cp, s), BP(-k) as real);
    }
  }

  /** cmp2.c:295-336: is what is left of b less than what is left of c? */
  method LowParts(bp: seq<limb>, bn0: int, cp: seq<limb>, cn0: int, diffExp0: nat, lastc0: limb, ghost s: nat, ghost k0: int)
    returns (less: bool)
    requires -1 <= bn0 < |bp| && Reading(cp, s, k0, lastc0, cn0, diffExp0)
    ensures less <==> RestB(bp, bn0) < TailC(cp, s, k0)
  {
    hide Pow2, Frac, TailC, RestB, Sgn;
    var bn, cn, diffExp, lastc := bn0, cn0, diffExp0, lastc0;
    ghost var k, goal := k0, Sgn(RestB(bp, bn0) - TailC(cp, s, k0));
    SgnOrder(RestB(bp, bn0), TailC(cp, s, k0));
    while bn >= 0
      invariant -1 <= bn < |bp| && Reading(cp, s, k, lastc, cn, diffExp)
      invariant goal == Sgn(RestB(bp, bn) - TailC(cp, s, k))
    {
      RestBStep(bp, bn);
      RestBStep(bp, bn - 1);
      TailCRange(cp, s, k + 1);
      ghost var tc := TailC(cp, s, k);
      var cc: limb := 0;
      if diffExp >= 64 {
        TailCStep(cp, s, k);
        diffExp := diffExp - 64;
      } else {
        cc, lastc, cn := NextC(cp, lastc, cn, diffExp, s, k);
      }
      CompareStep(RestB(bp, bn), tc, bp[bn], cc, RestB(bp, bn - 1), TailC(cp, s, k + 1));
      if bp[bn] != cc { return bp[bn] < cc; }
      bn, k := bn - 1, k + 1;
    }
    RestBNothing(bp, bn);
    TailCZero(cp, s, k, lastc, cn, diffExp);
    SgnOrder(RestB(bp, bn), TailC(cp, s, k));
    if lastc != 0 { return true; }
    while cn >= 0 && cp[cn] == 0
      invariant -1 <= cn < |cp|
      invariant (exists i :: 0 <= i <= cn && cp[i] != 0) <==> TailC(cp, s, k) != 0.0
    {
      cn := cn - 1;
    }
    less := cn >= 0;
  }

  /** Whether the trailing parts can change the exponent of the difference. */
  lemma LeadingOfDif(delta: real, res: int, d: int, t: real, j: nat)
    requires delta * R2(64 + res) == d as real + t && -1.0 < t < 1.0 && Pow2(j) <= d < Pow2(j + 1)
    ensures d != Pow2(j) || t >= 0.0 ==> LeadingZeros(delta, res + 63 - j)
    ensures d == Pow2(j) && t < 0.0 && d >= 2 ==> LeadingZeros(delta, res + 64 - j)
  {
    hide R2, Pow2, LeadingZeros;
    Pow2Step(j);
    if d != Pow2(j) || t >= 0.0 {
      assert Pow2(j) as real <= d as real + t < Pow2(j + 1) as real;
      LeadingBit(delta, res, d as real + t, j);
    } else if d >= 2 {
      if j == 0 { Pow2Zero(); }
      Pow2Step(j - 1);
      assert Pow2(j - 1) as real <= d as real + t < Pow2(j) as real;
      LeadingBit(delta, res, d as real + t, j - 1);
    }
  }

  /** cmp2.c:182-341, from where |b| > |c| is known. */
  method CanceledBits(bp: seq<limb>, cp: seq<limb>, diffExp0: nat, ghost delta: real) returns (res: int)
    requires |bp| > 0 && |cp| > 0
    requires if diffExp0 == 0 then bp[|bp| - 1] > cp[|cp| - 1] else bp[|bp| - 1] >= HALF
    requires delta == Frac(bp) - Frac(cp) / Pow2(diffExp0) as real
    ensures LeadingZeros(delta, res)
  {
    hide R2, Frac, TailC, Pow2, RestB, LeadingZeros;
    var dif, bn, cn, diffExp, lastc;
    ghost var s, k;
    dif, bn, cn, diffExp, lastc, s, k := FirstDif(bp, cp, diffExp0, delta);
    var highDif;
    res, highDif, dif, bn, cn, lastc, k := LongBorrow(bp, bn, cp, cn, diffExp, lastc, dif, s, k, delta);
    ghost var d, t := Dif(highDif, dif), RestB(bp, bn) - TailC(cp, s, k);
    RestBStep(bp, bn);
    TailCRange(cp, s, k);
    ReadEntirely(cp, s, k, lastc, cn, diffExp);
    Pow2Limb();
    Pow2Step(64);
    if highDif {
      LeadingOfDif(delta, res, d, t, 64);
      res := res - 1;
      if dif != 0 { return; }
    } else {
      var z := CountLeadingZeros(dif);
      LeadingOfDif(delta, res, d, t, 63 - z);
      res := res + z;
      if dif != Pow2(63 - z) { return; }
    }
    if cn < 0 && lastc == 0 { return; }
    var less := LowParts(bp, bn, cp, cn, diffExp, lastc, s, k);
    if less { res := res + 1; }
  }

  // ---- the common prefix --------------------------------------------------------------

  /** x is delta in units of 2^-res. */
  predicate Scaled(delta: real, res: int, x: real) { delta * R2(res) == x }

  lemma Unscaled(delta: real)
    ensures Scaled(delta, 0, delta)
  {}

  lemma MoreZeros(delta: real, res: int, delta': real, r: int)
    requires Scaled(delta, res, delta') && LeadingZeros(delta', r)
    ensures LeadingZeros(delta, res + r)
  {
    hide R2;
    R2Add(-(res + r) - 1, res);
    R2Add(-(res + r), res);
    CompareWith(delta, R2(-(res + r) - 1), R2(res), delta', R2(-r - 1));
    CompareWith(delta, R2(-(res + r)), R2(res), delta', R2(-r));
  }

  /** 64 more bits cancel. */
  lemma SkipLimb(delta: real, res: int, x: real, x': real)
    requires Scaled(delta, res, x) && x * B as real == x'
    ensures Scaled(delta, res + 64, x')
  {
    hide R2, Pow2;
    R2Add(res, 64);
    R2Nat(64);
    Pow2Limb();
    RealRegroup2(delta, R2(res), B as real);
  }

  lemma SignOfScaled(delta: real, res: int, x: real)
    requires Scaled(delta, res, x)
    ensures Sgn(delta) == Sgn(x) && Sgn(-delta) == -Sgn(delta)
    ensures Scaled(-delta, res, -x)
    ensures Sgn(delta) == 1 <==> delta > 0.0
    ensures Sgn(delta) == 0 <==> delta == 0.0
    ensures x == 0.0 ==> delta == 0.0
  {
    hide R2;
    CompareWith(delta, 0.0, R2(res), x, 0.0);
  }

  /** cmp2.c:115-133: only zeros of one number are left to compare with. */
  method LeadingZerosOf(bp: seq<limb>, bn0: nat, res0: int, ghost delta: real) returns (found: bool, cancel: int)
    requires bn0 < |bp| && Scaled(delta, res0, RestB(bp, bn0))
    ensures found ==> delta > 0.0 && LeadingZeros(delta, cancel)
    ensures !found ==> delta == 0.0
  {
    hide R2, Frac, Pow2, RestB, LeadingZeros, Sgn, Scaled;
    var bn, res := bn0, res0;
    while bp[bn] == 0
      invariant 0 <= bn < |bp| && Scaled(delta, res, RestB(bp, bn))
      decreases bn
    {
      RestBStep(bp, bn);
      SkipLimb(delta, res, RestB(bp, bn), RestB(bp, bn - 1));
      bn := bn - 1;
      res := res + 64;
      SignOfScaled(delta, res, RestB(bp, bn));
      if bn < 0 {
        RestBNothing(bp, bn);
        return false, 0;
      }
    }
    RestBStep(bp, bn);
    RestBStep(bp, bn - 1);
    var z := CountLeadingZeros(bp[bn]);
    LeadingLimb(delta, res, bp[bn], RestB(bp, bn), RestB(bp, bn - 1), z);
    return true, res + z;
  }

  lemma LeadingLimb(delta: real, res: int, x: limb, t: real, t': real, z: nat)
    requires Scaled(delta, res, t) && t * B as real == x as real + t' && 0.0 <= t' < 1.0
    requires z <= 63 && Pow2(63 - z) <= x < Pow2(64 - z)
    ensures delta > 0.0 && LeadingZeros(delta, res + z)
  {
    hide R2, Pow2;
    SkipLimb(delta, res, t, x as real + t');
    SignOfScaled(delta, res + 64, x as real + t');
    LeadingOfDif(delta, res, x, t', 63 - z);
  }

  /** cmp2.c:85-150: equal exponents. */
  method EqualExponents(bp0: seq<limb>, cp0: seq<limb>, ghost delta: real) returns (sign: int, cancel: int)
    requires |bp0| > 0 && |cp0| > 0 && delta == Frac(bp0) - Frac(cp0)
    ensures sign == Sgn(delta) && (sign != 0 ==> LeadingZeros(if delta < 0.0 then -delta else delta, cancel))
  {
    hide R2, Frac, Pow2, RestB, LeadingZeros, Sgn, Scaled;
    var bp, cp, bn, cn, res := bp0, cp0, |bp0| - 1, |cp0| - 1, 0;
    cancel := 0;
    Unscaled(delta);
    WholeRest(bp);
    WholeRest(cp);
    while bn >= 0 && cn >= 0 && bp[bn] == cp[cn]
      invariant -1 <= bn < |bp| && -1 <= cn < |cp|
      invariant Scaled(delta, res, RestB(bp, bn) - RestB(cp, cn))
      decreases bn
    {
      RestBStep(bp, bn);
      RestBStep(cp, cn);
      SkipLimb(delta, res, RestB(bp, bn) - RestB(cp, cn), RestB(bp, bn - 1) - RestB(cp, cn - 1));
      bn, cn, res := bn - 1, cn - 1, res + 64;
    }
    sign, cancel := AfterPrefix(bp, bn, cp, cn, res, delta);
  }

  /** cmp2.c:96-150: the common limbs have been removed. */
  method AfterPrefix(bp: seq<limb>, bn: int, cp: seq<limb>, cn: int, res: int, ghost delta: real) returns (sign: int, cancel: int)
    requires -1 <= bn < |bp| && -1 <= cn < |cp| && (bn >= 0 && cn >= 0 ==> bp[bn] != cp[cn])
    requires Scaled(delta, res, RestB(bp, bn) - RestB(cp, cn))
    ensures sign == Sgn(delta) && (sign != 0 ==> LeadingZeros(if delta < 0.0 then -delta else delta, cancel))
  {
    hide R2, Frac, Pow2, RestB, LeadingZeros, Sgn, Scaled;
    SignOfScaled(delta, res, RestB(bp, bn) - RestB(cp, cn));
    SignOfScaled(-delta, res, -(RestB(bp, bn) - RestB(cp, cn)));
    if bn < 0 {
      RestBNothing(bp, bn);
      if cn < 0 {
        RestBNothing(cp, cn);
        return 0, 0;
      }
      var found;
      found, cancel := LeadingZerosOf(cp, cn, res, -delta);
      sign := if found then -1 else 0;
    } else if cn < 0 {
      RestBNothing(cp, cn);
      var found;
      found, cancel := LeadingZerosOf(bp, bn, res, delta);
      sign := if found then 1 else 0;
    } else if bp[bn] < cp[cn] {
      sign := -1;
      cancel := FirstDifferent(cp, cn, bp, bn, res, -delta);
    } else {
      sign := 1;
      cancel := FirstDifferent(bp, bn, cp, cn, res, delta);
    }
  }

  method FirstDifferent(bp: seq<limb>, bn: nat, cp: seq<limb>, cn: nat, res: int, ghost delta: real) returns (cancel: int)
    requires bn < |bp| && cn < |cp| && bp[bn] > cp[cn] && Scaled(delta, res, RestB(bp, bn) - RestB(cp, cn))
    ensures delta > 0.0 && LeadingZeros(delta, cancel)
  {
    hide R2, Frac, Pow2, RestB, LeadingZeros, Sgn, Scaled;
    RestBIs(bp, bn);
    RestBIs(cp, cn);
    RestBStep(bp, bn);
    RestBStep(cp, cn);
    RestBStep(bp, bn - 1);
    RestBStep(cp, cn - 1);
    assert RestB(bp, bn) > RestB(cp, cn);
    SignOfScaled(delta, res, RestB(bp, bn) - RestB(cp, cn));
    SgnOrder(RestB(bp, bn), RestB(cp, cn));
    Pow2Zero();
    var r := CanceledBits(bp[..bn + 1], cp[..cn + 1], 0, RestB(bp, bn) - RestB(cp, cn));
    MoreZeros(delta, res, RestB(bp, bn) - RestB(cp, cn), r);
    cancel := res + r;
  }

  lemma WholeRest(s: seq<limb>)
    requires |s| > 0
    ensures RestB(s, |s| - 1) == Frac(s)
  {
    assert s[..|s|] == s;
  }

  lemma RestBIs(bp: seq<limb>, bn: nat)
    requires bn < |bp|
    ensures RestB(bp, bn) == Frac(bp[..bn + 1])
  {}

  /** mpfr_cmp2: the sign of |b| - |c|; if it is not zero, EXP(max(|b|, |c|)) - cancel
      is the exponent of |b| - |c|, and cancel is representable as a precision. */
  method Cmp2(b: Mpfr, c: Mpfr) returns (sign: int, cancel: int)
    requires b.IsPureFp() && c.IsPureFp()
    ensures sign == Sgn(b.Magnitude() - c.Magnitude())
    ensures sign != 0 ==>
              var e := (if b.exp >= c.exp then b.exp else c.exp) - cancel;
              R2(e - 1) <= Dist(b.Magnitude(), c.Magnitude()) < R2(e)
    ensures sign != 0 ==> 0 <= cancel && (cancel <= b.prec || cancel <= c.prec)
  {
    hide R2, Frac, Pow2, LeadingZeros, Normalized, Val, Sgn, Dist, Scaled;
    var sdiff := b.exp - c.exp;
    var bp, cp := b.mant[..], c.mant[..];
    NormalizedTop(bp, b.prec);
    NormalizedTop(cp, c.prec);
    FracIsFloat(bp, b.prec, b.exp);
    FracIsFloat(cp, c.prec, c.exp);
    ghost var x, y := b.Magnitude(), c.Magnitude();
    if sdiff >= 0 {
      sign, cancel := Ordered(bp, b.prec, b.exp, cp, c.prec, c.exp, x, y);
    } else {
      sign, cancel := Ordered(cp, c.prec, c.exp, bp, b.prec, b.exp, y, x);
      sign := -1;
      SgnOrder(y, x);
      SgnOrder(x, y);
      DistComm(x, y);
    }
  }

  /** cmp2.c:72-165, the operand with the larger exponent first. */
  method Ordered(bp: seq<limb>, ghost pb: nat, eb: int, cp: seq<limb>, ghost pc: nat, ec: int, ghost x: real, ghost y: real)
    returns (sign: int, cancel: int)
    requires eb >= ec && Normalized(bp, pb) && Normalized(cp, pc) && 0.5 <= Frac(bp) < 1.0 && 0.5 <= Frac(cp) < 1.0
    requires |bp| > 0 && bp[|bp| - 1] >= HALF && |cp| > 0
    requires x == Frac(bp) * R2(eb) && y == Frac(cp) * R2(ec)
    ensures sign == Sgn(x - y) && (eb > ec ==> sign == 1)
    ensures sign != 0 ==> R2(eb - cancel - 1) <= Dist(x, y) < R2(eb - cancel)
    ensures sign != 0 ==> 0 <= cancel && (cancel <= pb || cancel <= pc)
  {
    hide R2, Frac, Pow2, LeadingZeros, Normalized, Val, Sgn, Dist, Scaled;
    ghost var delta := DifferenceOf(bp, cp, eb, ec);
    DifferenceScaled(bp, cp, eb, ec, x, y);
    if eb == ec {
      sign, cancel := EqualExponents(bp, cp, delta);
    } else {
      sign := 1;
      cancel := CanceledBits(bp, cp, eb - ec, delta);
    }
    SignOfScaled(delta, eb, x - y);
    Conclude(delta, x, y, eb, sign, cancel);
    SgnOrder(x, y);
    if sign != 0 { CancelBound(bp, pb, cp, pc, eb, ec, x, y, cancel); }
  }

  lemma DistComm(x: real, y: real)
    ensures Dist(x, y) == Dist(y, x)
  {}

  /** (|b| - |c|) / 2^eb. */
  ghost function DifferenceOf(bp: seq<limb>, cp: seq<limb>, eb: int, ec: int): real {
    if eb < ec then 0.0 else Frac(bp) - Frac(cp) / Pow2(eb - ec) as real
  }

  lemma DifferenceScaled(bp: seq<limb>, cp: seq<limb>, eb: int, ec: int, x: real, y: real)
    requires eb >= ec && 0.5 <= Frac(bp) < 1.0 && 0.5 <= Frac(cp) < 1.0
    requires x == Frac(bp) * R2(eb) && y == Frac(cp) * R2(ec)
    ensures Scaled(DifferenceOf(bp, cp, eb, ec), eb, x - y)
    ensures eb > ec ==> Sgn(DifferenceOf(bp, cp, eb, ec)) == 1
    ensures eb == ec ==> DifferenceOf(bp, cp, eb, ec) == Frac(bp) - Frac(cp)
  {
    hide Frac, R2, Pow2;
    var k := eb - ec;
    R2Nat(k);
    R2Add(ec, k);
    Pow2Zero();
    var g := Frac(cp) / Pow2(k) as real;
    assert g * Pow2(k) as real == Frac(cp);
    RealRegroup2(g, Pow2(k) as real, R2(ec));
    RealComm(Pow2(k) as real, R2(ec));
    RealSub(Frac(bp), g, R2(eb));
    if k > 0 {
      Pow2Two();
      Pow2Mono(1, k);
      HalfOf(g, Frac(cp), Pow2(k) as real);
    }
  }

  lemma HalfOf(g: real, f: real, k: real)
    requires g * k == f && k >= 2.0 && f < 1.0
    ensures g < 0.5
  {
    if g >= 0.5 { RealMono(0.5, g, k); }
  }

  lemma Conclude(delta: real, x: real, y: real, e: int, sign: int, cancel: int)
    requires Scaled(delta, e, x - y) && sign == Sgn(delta)
    requires sign != 0 ==> LeadingZeros(if delta < 0.0 then -delta else delta, cancel)
    ensures sign == Sgn(x - y)
    ensures sign != 0 ==> R2(e - cancel - 1) <= Dist(x, y) < R2(e - cancel)
  {
    hide R2;
    SignOfScaled(delta, e, x - y);
    if sign != 0 {
      var m := if delta < 0.0 then -delta else delta;
      assert Scaled(m, e, Dist(x, y));
      R2Add(-cancel - 1, e);
      R2Add(-cancel, e);
      CompareWith(m, R2(-cancel - 1), R2(e), Dist(x, y), R2(e - cancel - 1));
      CompareWith(m, R2(-cancel), R2(e), Dist(x, y), R2(e - cancel));
    }
  }

  /** The difference is a multiple of the smaller last bit. */
  lemma CancelBound(bp: seq<limb>, pb: nat, cp: seq<limb>, pc: nat, eb: int, ec: int, x: real, y: real, cancel: int)
    requires Normalized(bp, pb) && Normalized(cp, pc) && eb >= ec
    requires x == Frac(bp) * R2(eb) && y == Frac(cp) * R2(ec) && 0.5 <= Frac(bp) < 1.0 && 0.5 <= Frac(cp) < 1.0
    requires x != y && R2(eb - cancel - 1) <= Dist(x, y) < R2(eb - cancel)
    ensures 0 <= cancel && (cancel <= pb || cancel <= pc)
  {
    hide R2, Frac, Pow2, Normalized, Sig, Dist;
    PrecisionPositive(bp, pb);
    DistUpper(x, y, Frac(bp), Frac(cp), R2(eb), R2(ec)) by { R2Pos(eb); R2Pos(ec); R2Mono(ec, eb); }
    if cancel < 0 { R2Mono(eb, eb - cancel - 1); }
    if eb - ec >= 2 {
      FarExponents(bp, cp, eb, ec, x, y, cancel);
    } else {
      NearExponents(bp, pb, cp, pc, eb, ec, x, y, cancel);
    }
  }

  lemma FarExponents(bp: seq<limb>, cp: seq<limb>, eb: int, ec: int, x: real, y: real, cancel: int)
    requires eb - ec >= 2 && 0.5 <= Frac(bp) < 1.0 && 0.5 <= Frac(cp) < 1.0
    requires x == Frac(bp) * R2(eb) && y == Frac(cp) * R2(ec) && Dist(x, y) < R2(eb - cancel)
    ensures cancel < 2
  {
    hide R2, Frac, Dist;
    R2Step(eb - 1);
    R2Step(eb - 2);
    R2Mono(ec, eb - 2);
    R2Pos(eb);
    R2Pos(ec);
    FarDistance(x, y, Frac(bp), Frac(cp), R2(eb), R2(ec), R2(eb - 2));
    if cancel >= 2 { R2Mono(eb - cancel, eb - 2); }
  }

  lemma NearExponents(bp: seq<limb>, pb: nat, cp: seq<limb>, pc: nat, eb: int, ec: int, x: real, y: real, cancel: int)
    requires Normalized(bp, pb) && Normalized(cp, pc) && 0 <= eb - ec < 2
    requires x == Frac(bp) * R2(eb) && y == Frac(cp) * R2(ec) && x != y && Dist(x, y) < R2(eb - cancel)
    ensures cancel <= pb || cancel <= pc
  {
    hide R2, Frac, Pow2, Normalized, Sig, Dist;
    var m, em := ValueOfBits(bp, pb, eb, x);
    var n, en := ValueOfBits(cp, pc, ec, y);
    SmallestBit(m, em, n, en, x, y, eb - cancel);
  }

  lemma ValueOfBits(s: seq<limb>, p: nat, e: int, x: real) returns (m: int, em: int)
    requires Normalized(s, p) && x == Frac(s) * R2(e)
    ensures x == m as real * R2(em) && em == e - p
  {
    hide R2, Frac, Pow2, Normalized, Sig;
    m, em := Sig(s, p), e - p;
    BitsOf(s, p, e);
  }

  lemma SmallestBit(m: int, em: int, n: int, en: int, x: real, y: real, k: int)
    requires x == m as real * R2(em) && y == n as real * R2(en) && x != y && Dist(x, y) < R2(k)
    ensures k > em || k > en
  {
    hide R2, Dist;
    var e := if em <= en then em else en;
    Multiple(m, em, n, en, e, x, y);
    if k <= e { R2Mono(k, e); }
  }

  lemma DistUpper(x: real, y: real, f: real, g: real, u: real, v: real)
    requires x == f * u && y == g * v && 0.5 <= f < 1.0 && 0.5 <= g < 1.0 && 0.0 < v <= u
    ensures Dist(x, y) < u
  {
    BelowPower(x, f, u);
    BelowPower(y, g, v);
  }

  lemma PrecisionPositive(s: seq<limb>, p: nat)
    requires Normalized(s, p)
    ensures p >= 1
  {}

  lemma FarDistance(x: real, y: real, f: real, g: real, u: real, v: real, w: real)
    requires x == f * u && y == g * v && 0.5 <= f < 1.0 && 0.5 <= g < 1.0 && u > 0.0 && 0.0 < v <= w && u == 4.0 * w
    ensures Dist(x, y) > w
  {
    BelowPower(x, f, u);
    BelowPower(y, g, v);
  }

  lemma BelowPower(x: real, f: real, u: real)
    requires x == f * u && 0.5 <= f < 1.0 && u > 0.0
    ensures u / 2.0 <= x < u
  {
    CompareWith(f, 1.0, u, x, u);
    CompareWith(f, 0.5, u, x, u / 2.0);
  }

  /** Two different multiples of 2^e are at least 2^e apart. */
  lemma Multiple(m: int, em: int, n: int, en: int, e: int, x: real, y: real)
    requires x == m as real * R2(em) && y == n as real * R2(en) && e <= em && e <= en && x != y
    ensures Dist(x, y) >= R2(e)
  {
    hide R2, Pow2, Dist;
    var a := InLastBits(m, em, e, x);
    var b := InLastBits(n, en, e, y);
    R2Pos(e);
    Apart(a, b, R2(e), x, y);
  }

  lemma InLastBits(m: int, em: int, e: int, x: real) returns (a: int)
    requires x == m as real * R2(em) && e <= em
    ensures x == a as real * R2(e)
  {
    hide R2, Pow2;
    a := m * Pow2(em - e);
    R2Nat(em - e);
    R2Add(em - e, e);
    IntegerMultiple(m, Pow2(em - e), R2(e), x);
  }

  lemma IntegerMultiple(m: int, k: int, u: real, x: real)
    requires x == m as real * (k as real * u)
    ensures x == (m * k) as real * u
  {
    CastProduct(m, k);
    RealRegroup2(m as real, k as real, u);
  }

  lemma Apart(a: int, b: int, u: real, x: real, y: real)
    requires u > 0.0 && x == a as real * u && y == b as real * u && x != y
    ensures Dist(x, y) >= u
  {
    var g := a as real - b as real;
    RealSub(a as real, b as real, u);
    assert g == (a - b) as real;
    CompareWith(g, 1.0, u, x - y, u);
    CompareWith(g, -1.0, u, x - y, -u);
    CompareWith(g, 0.0, u, x - y, 0.0);
  }
}

/** add1.c: |b| + |c| for any three precisions, EXP(b) >= EXP(c).

    The algorithm reads b and the shifted c from the top.  After n limbs it
    holds the significand A, a rounding bit and "following bits" that are all
    equal: the exact sum is A, rb, fb fb ... fb plus a remainder in [0, 2) units
    of the last limb read.  Here `y` is the exact sum in units in the last
    place of A, `u` one such unit counted in units of the last limb read, and
    the invariant of every loop is
        (y - A) * u == rb * u/2 + fb * (u/2 - 1) + tail of b + tail of c. */
module Add1 {
  import opened Powers
  import opened RealPowers
  import opened Limbs
  import opened Rounding
  import opened Range
  import opened Numbers
  import opened Exceptions
  import opened SignedRounding
  import opened Streams
  import opened Shifts
  import opened Significands

  const MAX: int := 0xFFFF_FFFF_FFFF_FFFF

  // ---- the decision at the end --------------------------------------------------

  /** rb and fb tell how y, in [au, au + 1), compares with au and au + 1/2. */
  predicate Decided(y: real, au: int, rb: int, fb: int) {
    && (rb == 0 || rb == 1)
    && (rb == 0 && fb == 0 ==> y == au as real)
    && (rb == 0 && fb != 0 ==> au as real < y < au as real + 0.5)
    && (rb == 1 && fb == 0 ==> y == au as real + 0.5)
    && (rb == 1 && fb != 0 ==> au as real + 0.5 < y < au as real + 1.0)
  }

  /** The same, told about f = (y - au) * u. */
  predicate DecidedIn(u: real, f: real, rb: int, fb: int) {
    && (rb == 0 || rb == 1)
    && (rb == 0 && fb == 0 ==> f == 0.0)
    && (rb == 0 && fb != 0 ==> 0.0 < f < u / 2.0)
    && (rb == 1 && fb == 0 ==> f == u / 2.0)
    && (rb == 1 && fb != 0 ==> u / 2.0 < f < u)
  }

  lemma Decide(y: real, au: int, u: real, f: real, rb: int, fb: int)
    requires u > 0.0 && f == (y - au as real) * u && DecidedIn(u, f, rb, fb)
    ensures Decided(y, au, rb, fb)
  {
    CompareScaled(y - au as real, u, f);
  }

  // ---- the state of the scan -------------------------------------------------------

  /** rb and fb describe the part f of the sum below A; -1 means not yet known,
      because A has no spare bit (u = 1) or only one (u = 2). */
  predicate State(rb: int, fb: int, u: real, f: real, tails: real) {
    && -1 <= rb <= 1 && -1 <= fb <= 1
    && (rb == -1 ==> fb == -1)
    && (fb == -1 ==> u == (if rb == -1 then 1.0 else 2.0))
    && (fb >= 0 ==> u >= 4.0)
    && f == (if rb == 1 then u / 2.0 else 0.0) + (if fb == 1 then u / 2.0 - 1.0 else 0.0) + tails
  }

  /** A <- A + 1 ulp, renormalizing and incrementing the exponent on a carry. */
  method AddUlp(ap: array<limb>, p: nat, exp: int, emax: int, ghost au: int) returns (ovf: bool, exp': int)
    requires Holding(ap[..], p, au)
    requires exp <= emax
    modifies ap
    ensures !ovf ==> exp' <= emax
    ensures ovf ==> exp == emax && au + 1 == Pow2(p)
    ensures !ovf && exp' == exp ==> Holding(ap[..], p, au + 1)
    ensures !ovf && exp' != exp ==> exp' == exp + 1 && au + 1 == Pow2(p) && Holding(ap[..], p, Pow2(p - 1))
  {
    hide Val, BP, Pow2;
    exp', ovf := exp, false;
    ghost var v := Val(ap[..]);
    LimbsOfPrecision(p);
    assert ap[0..ap.Length] == ap[..];
    var cy := MpnAdd1(ap, 0, ap.Length, Pow2(Unused(p)));
    assert ap[0..ap.Length] == ap[..];
    ValBound(ap[..]);
    UlpCarry(v, Val(ap[..]), cy, au, Pow2(p), Pow2(Unused(p)));
    if cy != 0 {
      if exp == emax { ovf := true; return; }
      exp' := exp + 1;
      SetHighBit(ap, p);
    }
  }

  /** Reading one limb more: units shrink by B. */
  lemma LinkScale(y: real, au: int, u: real, f: real)
    requires f == (y - au as real) * u
    ensures f * B as real == (y - au as real) * (u * B as real)
  {
    RealSwap(y - au as real, u, B as real);
    RealComm(u, B as real);
  }

  ghost function Tails(bp: seq<limb>, bk: nat, cp: seq<limb>, difs: nat, k: int): real
    requires bk <= |bp|
  {
    Frac(bp[..bk]) + TailC(cp, difs, k)
  }

  lemma TailsRange(bp: seq<limb>, bk: nat, cp: seq<limb>, difs: nat, k: int)
    requires bk <= |bp|
    ensures 0.0 <= Tails(bp, bk, cp, difs, k) < 2.0
    ensures bk == 0 ==> Tails(bp, bk, cp, difs, k) == TailC(cp, difs, k)
    ensures k <= 0 && Val(cp) > 0 ==> Tails(bp, bk, cp, difs, k) > 0.0
    ensures 0.0 <= TailC(cp, difs, k) < 1.0 && 0.0 <= Frac(bp[..bk]) < 1.0
  {
    FracRange(bp[..bk]);
    TailCRange(cp, difs, k);
    if bk == 0 { ValEmpty(bp[..bk]); }
  }

  /** The limb of b that is read, while c is still further below. */
  lemma ReadB(bp: seq<limb>, bk: nat, cp: seq<limb>, difs: nat, k: int)
    requires 0 < bk <= |bp| && difs < 64 && (k < 0 || k > |cp|)
    ensures Tails(bp, bk, cp, difs, k) * B as real == bp[bk - 1] as real + Tails(bp, bk - 1, cp, difs, k + 1)
  {
    hide Frac, TailC;
    var s := bp[..bk];
    FracStep(s);
    assert s[..bk - 1] == bp[..bk - 1];
    TailCStep(cp, difs, k);
    TailCPast(cp, difs, k);
    RealExpand(Frac(s), TailC(cp, difs, k), B as real);
  }

  /** Reading a limb of b above c: there is no carry, and c keeps the sum from
      being exact. */
  lemma AboveStep(bb: limb, rb: int, fb: int, u: real, f: real, t: real, t': real)
    requires State(rb, fb, u, f, t) && fb != 0 && t * B as real == bb as real + t' && 0.0 < t' < 2.0
    ensures var rb' := if rb < 0 then bb / HALF else rb;
            var bb' := if rb < 0 && bb < HALF then bb + HALF else bb;
            && (bb' != MAX ==> DecidedIn(u * B as real, f * B as real, rb', 1))
            && (bb' == MAX ==> State(rb', 1, u * B as real, f * B as real, t'))
  {}

  lemma AllOnes(rb: int, u: real, f: real, t: real)
    requires State(rb, 1, u, f, t) && 0.0 <= t < 1.0
    ensures DecidedIn(u, f, rb, 1)
  {}

  /** add1.c:258-295: limbs of b that lie above c. */
  method ReadAbove(bp: seq<limb>, bk0: nat, difw0: int, rb0: int, fb0: int,
                   ghost cp: seq<limb>, ghost difs: nat, ghost y: real, ghost au: int, ghost u0: real, ghost f0: real)
    returns (rb: int, fb: int, bk: nat, difw: int, done: bool, ghost u: real, ghost f: real)
    requires 0 < bk0 <= |bp| && difs < 64 && Val(cp) > 0
    requires difw0 < 0 ==> fb0 != 0
    requires State(rb0, fb0, u0, f0, Tails(bp, bk0, cp, difs, difw0)) && f0 == (y - au as real) * u0
    ensures done ==> Decided(y, au, rb, fb)
    ensures !done ==> difw >= 0 && 0 < bk <= |bp| && bk - bk0 == difw0 - difw
    ensures !done ==> State(rb, fb, u, f, Tails(bp, bk, cp, difs, difw)) && f == (y - au as real) * u
  {
    hide Val, Frac, TailC, Decided, DecidedIn, Tails, State;
    rb, fb, bk, difw, done := rb0, fb0, bk0, difw0, false;
    u, f := u0, f0;
    while difw < 0
      invariant 0 < bk <= |bp| && bk - bk0 == difw0 - difw
      invariant difw < 0 ==> fb != 0
      invariant State(rb, fb, u, f, Tails(bp, bk, cp, difs, difw)) && f == (y - au as real) * u
      decreases -difw
    {
      StateRange(rb, fb, u, f, Tails(bp, bk, cp, difs, difw));
      ReadB(bp, bk, cp, difs, difw);
      LinkScale(y, au, u, f);
      TailsRange(bp, bk - 1, cp, difs, difw + 1);
      bk := bk - 1;
      var bb: int := bp[bk];
      AboveStep(bb, rb, fb, u, f, Tails(bp, bk + 1, cp, difs, difw), Tails(bp, bk, cp, difs, difw + 1));
      u, f := u * B as real, f * B as real;
      if fb > 0 {
        if bb != MAX { Decide(y, au, u, f, rb, fb); done := true; return; }
      } else {
        if rb < 0 {
          rb := bb / HALF;
          bb := if bb >= HALF then bb else bb + HALF;
        }
        fb := 1;
        if bb != MAX { Decide(y, au, u, f, rb, fb); done := true; return; }
      }
      if bk == 0 {
        fb := 1;
        AllOnes(rb, u, f, Tails(bp, bk, cp, difs, difw + 1));
        Decide(y, au, u, f, rb, fb);
        done := true;
        return;
      }
      difw := difw + 1;
    }
  }

  lemma StateRange(rb: int, fb: int, u: real, f: real, t: real)
    requires State(rb, fb, u, f, t)
    ensures -1 <= rb <= 1 && -1 <= fb <= 1 && u > 0.0
    ensures rb == -1 ==> fb == -1
  {}

  // ---- b and c overlap -----------------------------------------------------------------

  /** The variables (cprev, ck) of the code, when k limbs of shifted c have been used;
      ck == -1: c is exhausted and even its last bits have been shifted in. */
  ghost predicate ReadingC(cp: seq<limb>, difs: nat, k: int, cprev: limb, ck: int) {
    && difs < 64 && 0 <= k && ck == |cp| - k >= -1
    && (difs == 0 ==> ck >= 0)
    && (difs > 0 && ck >= 0 ==> cprev == if k == 0 then 0 else cp[ck])
  }

  /** add1.c:316-326 and 366-382: the next limb of shifted c. */
  method NextC(cp: seq<limb>, difs: nat, cprev: limb, ck: int, ghost k: int)
    returns (cc: limb, cprev': limb, ck': int)
    requires ReadingC(cp, difs, k, cprev, ck) && ck >= 0 && (difs == 0 ==> ck > 0)
    ensures ReadingC(cp, difs, k + 1, cprev', ck')
    ensures TailC(cp, difs, k) * B as real == cc as real + TailC(cp, difs, k + 1)
  {
    hide Val, Frac, Pow2, ShiftedTail;
    ghost var prev: limb := if k == 0 then 0 else cp[|cp| - k];
    NextShiftedIsLimb(prev, cp[..ck], difs);
    TailCStep(cp, difs, k);
    cprev', ck' := cprev, ck - 1;
    if difs > 0 {
      Pow2Limb();
      Pow2Add(difs, 64 - difs);
      ShiftLeftLimb(cprev, Pow2(difs), Pow2(64 - difs));
      var c1 := cprev * Pow2(64 - difs) % B;
      cc := c1;
      if ck' >= 0 {
        cprev' := cp[ck'];
        cc := c1 + cprev' / Pow2(difs);
      }
    } else {
      Pow2Zero();
      cc := cp[ck'];
    }
  }

  /** A carry into A: the code adds one ulp, and on a carry out of A halves. */
  method CarryInto(ap: array<limb>, p: nat, exp: int, emax: int,
                   ghost x: real, ghost au: int, ghost y: real, ghost u: real, ghost f: real)
    returns (ovf: bool, exp': int, ghost au': int, ghost y': real, ghost u': real)
    requires p >= 1 && Holding(ap[..], p, au) && u > 0.0 && f == (y - au as real) * u && f >= u
    requires x == y * R2(exp - p)
    requires exp <= emax
    modifies ap
    ensures !ovf ==> exp' <= emax
    ensures ovf ==> x >= R2(emax)
    ensures !ovf ==> Holding(ap[..], p, au') && f - u == (y' - au' as real) * u' && x == y' * R2(exp' - p)
    ensures !ovf ==> u' == u || u' == 2.0 * u
    ensures !ovf ==> (exp' == exp <==> u' == u)
  {
    hide Holding, Pow2, R2;
    CompareScaled(y - au as real, u, f);
    LinkIncrement(y, au, u, f);
    ovf, exp' := AddUlp(ap, p, exp, emax, au);
    au', y', u' := au + 1, y, u;
    if ovf {
      AtLeastPower(x, y, p, exp);
    } else if exp' != exp {
      Pow2Step(p - 1);
      au', y', u' := Pow2(p - 1), y / 2.0, 2.0 * u;
      LinkHalve(y, au + 1, au', u, f - u);
      HalfScale(x, y, exp, p);
    }
  }

  lemma AtLeastPower(x: real, y: real, p: nat, e: int)
    requires x == y * R2(e - p) && y >= Pow2(p) as real
    ensures x >= R2(e)
  {
    hide R2, Pow2;
    R2Nat(p);
    R2Add(p, e - p);
    RealMono(Pow2(p) as real, y, R2(e - p));
  }

  lemma HalfScale(x: real, y: real, e: int, p: nat)
    requires x == y * R2(e - p)
    ensures x == (y / 2.0) * R2(e + 1 - p)
  {
    hide R2;
    R2Step(e - p);
    assert e + 1 - p == e - p + 1;
    RealTwice(y / 2.0, R2(e - p));
  }

  lemma LinkIncrement(y: real, au: int, u: real, f: real)
    requires f == (y - au as real) * u
    ensures f - u == (y - (au + 1) as real) * u
  {
    RealSub(y - au as real, 1.0, u);
  }

  lemma LinkHalve(y: real, au: int, h: int, u: real, f: real)
    requires f == (y - au as real) * u && au == 2 * h
    ensures f == (y / 2.0 - h as real) * (2.0 * u)
  {
    var g := y / 2.0 - h as real;
    assert y - au as real == 2.0 * g;
    RealTwice(g, u);
  }

  /** After the carry has been dealt with: rb is known or is the top bit of bb. */
  predicate Pending(rb: int, u: real, f: real, bb: limb, t: real) {
    && 0.0 <= t < 2.0
    && f == (if rb == 1 then u / 2.0 else 0.0) + bb as real + t
    && (rb == -1 ==> u == B as real)
    && (rb == 0 ==> u == 2.0 * B as real || (u == 4.0 * B as real && bb < MAX))
    && (rb == 1 ==> u == 2.0 * B as real)
  }

  /** add1.c:351-353 (the bits after the rounding bit, all zero, all one or mixed). */
  lemma PendingKnown(rb: int, u: real, f: real, bb: limb, t: real)
    requires Pending(rb, u, f, bb, t) && 0 <= rb <= 1
    ensures bb == 0 ==> State(rb, 0, u, f, t)
    ensures bb == MAX ==> State(rb, 1, u, f, t)
    ensures 0 < bb < MAX ==> DecidedIn(u, f, rb, 1)
  {}

  /** add1.c:344-353 (the rounding bit is taken from the limb itself; the
      remaining 63 bits are shifted left with their top bit repeated). */
  lemma PendingUnknown(u: real, f: real, bb: limb, t: real)
    requires Pending(-1, u, f, bb, t)
    ensures var b2 := 2 * bb % B; var bb' := b2 + b2 / HALF;
            && 0 <= bb' <= MAX
            && (bb' == 0 ==> State(bb / HALF, 0, u, f, t))
            && (bb' == MAX ==> State(bb / HALF, 1, u, f, t))
            && (0 < bb' < MAX ==> DecidedIn(u, f, bb / HALF, 1))
  {
    var h := bb % HALF;
    assert 2 * bb % B == 2 * h;
    assert bb == bb / HALF * HALF + h && 0 <= bb / HALF <= 1;
    assert 2 * h + 2 * h / HALF == 0 ==> h == 0;
    assert 2 * h + 2 * h / HALF == MAX ==> h == HALF - 1;
    assert h == HALF - 1 ==> 2 * h + 2 * h / HALF == MAX;
  }

  /** The sum of two limbs read when fb is not yet known. */
  lemma FirstSum(sum: int, rb: int, u: real, f: real, t: real, t': real)
    requires State(rb, -1, u, f, t) && t * B as real == sum as real + t' && 0.0 <= t' < 2.0
    requires 0 <= sum <= 2 * MAX
    ensures var u', f' := u * B as real, f * B as real;
            && u' > 0.0
            && (sum < B ==> Pending(rb, u', f', sum, t'))
            && (sum >= B && rb == 0 ==> Pending(1, u', f', sum - B, t'))
            && (sum >= B && rb != 0 ==> f' >= u' && Pending(0, 2.0 * u', f' - u', sum - B, t'))
            && (sum >= B && rb == 1 ==> Pending(0, u', f' - u', sum - B, t'))
            && (sum >= B && rb == -1 ==> Pending(-1, u', f' - u', sum - B, t'))
  {}

  /** The limb bb continues the following bits fb, or decides. */
  predicate Ready(rb: int, fb: int, u: real, f: real, bb: limb, t: real) {
    && u > 0.0 && 0 <= fb <= 1
    && (bb == (if fb == 0 then 0 else MAX) ==> State(rb, fb, u, f, t))
    && (bb != (if fb == 0 then 0 else MAX) ==> DecidedIn(u, f, rb, 1))
  }

  /** The sum of two limbs read when fb is known: without a carry, ... */
  lemma NextPlain(sum: limb, rb: int, fb: int, u: real, f: real, t: real, t': real)
    requires State(rb, fb, u, f, t) && fb >= 0 && t * B as real == sum as real + t' && 0.0 <= t' < 2.0
    ensures Ready(rb, fb, u * B as real, f * B as real, sum, t')
  {}

  /** ... with a carry into following bits that are zero, ... */
  lemma NextIntoZeros(sum: int, rb: int, u: real, f: real, t: real, t': real)
    requires State(rb, 0, u, f, t) && t * B as real == sum as real + t' && 0.0 <= t' < 2.0
    requires B <= sum <= 2 * MAX
    ensures u > 0.0 && DecidedIn(u * B as real, f * B as real, rb, 1)
  {}

  /** ... with a carry through ones into a zero rounding bit, ... */
  lemma NextIntoRb(sum: int, u: real, f: real, t: real, t': real)
    requires State(0, 1, u, f, t) && t * B as real == sum as real + t' && 0.0 <= t' < 2.0
    requires B <= sum <= 2 * MAX
    ensures Ready(1, 0, u * B as real, f * B as real, sum - B, t')
  {}

  /** ... and with a carry through ones into A. */
  lemma NextIntoA(sum: int, u: real, f: real, t: real, t': real)
    requires State(1, 1, u, f, t) && t * B as real == sum as real + t' && 0.0 <= t' < 2.0
    requires B <= sum <= 2 * MAX
    ensures u > 0.0 && f * B as real >= u * B as real
    ensures Ready(0, 0, u * B as real, f * B as real - u * B as real, sum - B, t')
    ensures Ready(0, 0, 2.0 * (u * B as real), f * B as real - u * B as real, sum - B, t')
  {}

  /** add1.c:432-456: c has been read entirely. */
  method ReadBOnly(bp: seq<limb>, bk0: nat, rb0: int, fb0: int, ghost y: real, ghost au: int, ghost u0: real, ghost f0: real)
    returns (rb: int, fb: int)
    requires bk0 <= |bp| && (fb0 < 0 ==> bk0 > 0)
    requires State(rb0, fb0, u0, f0, Frac(bp[..bk0])) && f0 == (y - au as real) * u0
    ensures Decided(y, au, rb, fb)
  {
    hide Val, Frac, Decided;
    var bk := bk0;
    rb, fb := rb0, fb0;
    ghost var u, f := u0, f0;
    FracRange(bp[..bk]);
    if fb < 0 {
      FracStep(bp[..bk]);
      assert bp[..bk][..bk - 1] == bp[..bk - 1];
      FracRange(bp[..bk - 1]);
      LinkScale(y, au, u, f);
      u, f := u * B as real, f * B as real;
      bk := bk - 1;
      var bb: int := bp[bk];
      if rb < 0 {
        rb := bb / HALF;
        bb := bb % HALF;
      }
      fb := if bb != 0 then 1 else 0;
      if fb == 1 { Decide(y, au, u, f, rb, fb); }
    }
    if fb == 1 {
      if bk == bk0 { AllOnes(rb, u, f, Frac(bp[..bk])); Decide(y, au, u, f, rb, fb); }
      return;
    }
    ghost var bk1 := bk;
    while bk > 0
      invariant 0 <= bk <= bk1
      invariant forall i :: bk <= i < bk1 ==> bp[i] == 0
    {
      bk := bk - 1;
      if bp[bk] != 0 {
        fb := 1;
        NonZeroTail(bp[..bk1], bk);
        Decide(y, au, u, f, rb, fb);
        return;
      }
    }
    ZeroTail(bp[..bk1]);
    Decide(y, au, u, f, rb, fb);
  }

  lemma NonZeroTail(s: seq<limb>, i: nat)
    requires i < |s| && s[i] != 0
    ensures Frac(s) > 0.0
  {
    FracRange(s);
    ValZeros(s);
  }

  lemma ZeroTail(s: seq<limb>)
    requires forall i :: 0 <= i < |s| ==> s[i] == 0
    ensures Frac(s) == 0.0
  {
    FracRange(s);
    ValZeros(s);
  }

  /** The limb of b and the limb of c that are read together. */
  lemma ReadBC(bp: seq<limb>, bk: nat, cp: seq<limb>, difs: nat, k: int, cc: limb)
    requires 0 < bk <= |bp|
    requires TailC(cp, difs, k) * B as real == cc as real + TailC(cp, difs, k + 1)
    ensures Tails(bp, bk, cp, difs, k) * B as real == (bp[bk - 1] + cc) as real + Tails(bp, bk - 1, cp, difs, k + 1)
  {
    hide Frac, TailC;
    var s := bp[..bk];
    FracStep(s);
    assert s[..bk - 1] == bp[..bk - 1];
    RealExpand(Frac(s), TailC(cp, difs, k), B as real);
  }

  /** add1.c:344-353: rounding bit and following bits from the limb bb. */
  method SplitLimb(bb0: limb, rb0: int, ghost y: real, ghost au: int, ghost u: real, ghost f: real, ghost t: real)
    returns (rb: int, fb: int, done: bool)
    requires Pending(rb0, u, f, bb0, t) && -1 <= rb0 <= 1 && f == (y - au as real) * u
    ensures done ==> Decided(y, au, rb, fb)
    ensures !done ==> 0 <= fb && State(rb, fb, u, f, t)
  {
    hide Decided, DecidedIn, State, Pending;
    var bb := bb0;
    rb, done := rb0, false;
    PendingRange(rb, u, f, bb, t);
    if rb < 0 {
      PendingUnknown(u, f, bb, t);
      rb := bb / HALF;
      bb := 2 * bb % B;
      bb := bb + bb / HALF;
    } else {
      PendingKnown(rb, u, f, bb, t);
    }
    fb := if bb != 0 then 1 else 0;
    if fb != 0 && bb != MAX {
      Decide(y, au, u, f, rb, fb);
      done := true;
    }
  }

  /** The sum of two limbs, wrapped around. */
  method AddLimb(x: limb, y: limb) returns (s: limb)
    ensures s < y <==> x + y >= B
    ensures s == if x + y >= B then x + y - B else x + y
  {
    s := (x + y) % B;
  }

  /** add1.c:328-342: the sum of the limbs of b and c, its carry into rb or A. */
  method CarryFirst(ap: array<limb>, p: nat, bl: limb, cc: limb, rb0: int, exp0: int, emax: int, ghost x: real,
                    ghost au0: int, ghost y0: real, ghost u0: real, ghost f0: real, ghost t0: real, ghost t: real)
    returns (bb: limb, rb: int, exp: int, ovf: bool, ghost au: int, ghost y: real, ghost u: real, ghost f: real)
    requires p >= 1 && Holding(ap[..], p, au0)
    requires State(rb0, -1, u0, f0, t0) && f0 == (y0 - au0 as real) * u0 && x == y0 * R2(exp0 - p)
    requires t0 * B as real == (bl + cc) as real + t && 0.0 <= t < 2.0
    requires exp0 <= emax
    modifies ap
    ensures !ovf ==> exp <= emax
    ensures ovf ==> x >= R2(emax)
    ensures !ovf ==> Holding(ap[..], p, au) && x == y * R2(exp - p) && -1 <= rb <= 1
    ensures !ovf ==> Pending(rb, u, f, bb, t) && f == (y - au as real) * u
  {
    hide State, Pending, Holding, R2;
    rb, exp, ovf := rb0, exp0, false;
    au, y := au0, y0;
    StateRange(rb, -1, u0, f0, t0);
    LinkScale(y, au, u0, f0);
    FirstSum(bl + cc, rb, u0, f0, t0, t);
    u, f := u0 * B as real, f0 * B as real;
    bb := AddLimb(bl, cc);
    if bb < cc {
      if rb >= 0 { rb := 1 - rb; }
      if rb <= 0 {
        var e1;
        ghost var u1;
        ovf, e1, au, y, u1 := CarryInto(ap, p, exp, emax, x, au, y, u, f);
        if ovf { return; }
        if e1 != exp { rb := 0; }
        f, u, exp := f - u, u1, e1;
      }
    }
  }

  /** add1.c:312-354. */
  method ReadFirst(ap: array<limb>, p: nat, bp: seq<limb>, bk0: nat, cp: seq<limb>, difs: nat, cprev0: limb, ck0: int,
                   rb0: int, exp0: int, emax: int,
                   ghost k: int, ghost x: real, ghost au0: int, ghost y0: real, ghost u0: real, ghost f0: real)
    returns (rb: int, fb: int, exp: int, cprev: limb, ck: int, ovf: bool, done: bool,
             ghost au: int, ghost y: real, ghost u: real, ghost f: real)
    requires p >= 1 && Holding(ap[..], p, au0) && 0 < bk0 <= |bp|
    requires ReadingC(cp, difs, k, cprev0, ck0) && ck0 >= 0 && (difs == 0 ==> ck0 > 0)
    requires State(rb0, -1, u0, f0, Tails(bp, bk0, cp, difs, k)) && f0 == (y0 - au0 as real) * u0
    requires x == y0 * R2(exp0 - p)
    requires exp0 <= emax
    modifies ap
    ensures !ovf ==> exp <= emax
    ensures ovf ==> x >= R2(emax)
    ensures !ovf ==> Holding(ap[..], p, au) && x == y * R2(exp - p) && ReadingC(cp, difs, k + 1, cprev, ck)
    ensures !ovf && done ==> Decided(y, au, rb, fb)
    ensures !ovf && !done ==> 0 <= fb && State(rb, fb, u, f, Tails(bp, bk0 - 1, cp, difs, k + 1)) && f == (y - au as real) * u
  {
    hide Val, Frac, TailC, Decided, DecidedIn, Tails, State, Pending, Holding, R2, Pow2, ReadingC;
    var cc, bb;
    cc, cprev, ck := NextC(cp, difs, cprev0, ck0, k);
    ReadBC(bp, bk0, cp, difs, k, cc);
    TailsRange(bp, bk0 - 1, cp, difs, k + 1);
    ghost var t := Tails(bp, bk0 - 1, cp, difs, k + 1);
    bb, rb, exp, ovf, au, y, u, f :=
      CarryFirst(ap, p, bp[bk0 - 1], cc, rb0, exp0, emax, x, au0, y0, u0, f0, Tails(bp, bk0, cp, difs, k), t);
    fb, done := -1, false;
    if !ovf {
      rb, fb, done := SplitLimb(bb, rb, y, au, u, f, t);
    }
  }

  lemma PendingRange(rb: int, u: real, f: real, bb: limb, t: real)
    requires Pending(rb, u, f, bb, t)
    ensures -1 <= rb <= 1 ==> u > 0.0
  {}

  /** add1.c:384-401: the carry of a sum of two limbs. */
  method CarryNext(ap: array<limb>, p: nat, bl: limb, cc: limb, rb0: int, fb0: int, exp0: int, emax: int, ghost x: real,
                   ghost au0: int, ghost y0: real, ghost u0: real, ghost f0: real, ghost t0: real, ghost t: real)
    returns (bb: limb, rb: int, fb: int, exp: int, ovf: bool, done: bool, ghost au: int, ghost y: real, ghost u: real, ghost f: real)
    requires p >= 1 && Holding(ap[..], p, au0)
    requires 0 <= fb0 && State(rb0, fb0, u0, f0, t0) && f0 == (y0 - au0 as real) * u0 && x == y0 * R2(exp0 - p)
    requires t0 * B as real == (bl + cc) as real + t && 0.0 <= t < 2.0
    requires exp0 <= emax
    modifies ap
    ensures !ovf ==> exp <= emax
    ensures ovf ==> x >= R2(emax)
    ensures !ovf ==> Holding(ap[..], p, au) && x == y * R2(exp - p)
    ensures !ovf && done ==> Decided(y, au, rb, fb)
    ensures !ovf && !done ==> Ready(rb, fb, u, f, bb, t) && f == (y - au as real) * u
  {
    hide State, DecidedIn, Decided, Holding, R2, Ready;
    rb, fb, exp, ovf, done := rb0, fb0, exp0, false, false;
    au, y := au0, y0;
    StateRange(rb, fb, u0, f0, t0);
    LinkScale(y, au, u0, f0);
    u, f := u0 * B as real, f0 * B as real;
    bb := AddLimb(bl, cc);
    if bb < cc {
      fb := 1 - fb;
      if fb == 1 {
        NextIntoZeros(bl + cc, rb, u0, f0, t0, t);
        Decide(y, au, u, f, rb, fb);
        done := true;
        return;
      }
      rb := 1 - rb;
      if rb == 0 {
        NextIntoA(bl + cc, u0, f0, t0, t);
        var e1;
        ghost var u1;
        ovf, e1, au, y, u1 := CarryInto(ap, p, exp, emax, x, au, y, u, f);
        f, u, exp := f - u, u1, e1;
      } else {
        NextIntoRb(bl + cc, u0, f0, t0, t);
      }
    } else {
      NextPlain(bb, rb, fb, u0, f0, t0, t);
    }
  }

  /** add1.c:403-409. */
  method ContinueOrRound(bb: limb, rb: int, fb0: int, ghost y: real, ghost au: int, ghost u: real, ghost f: real, ghost t: real)
    returns (fb: int, done: bool)
    requires Ready(rb, fb0, u, f, bb, t) && f == (y - au as real) * u
    ensures done ==> Decided(y, au, rb, fb)
    ensures !done ==> 0 <= fb && State(rb, fb, u, f, t)
  {
    hide State, DecidedIn, Decided;
    fb, done := fb0, false;
    if fb == 0 && bb != 0 {
      fb := 1;
      Decide(y, au, u, f, rb, fb);
      done := true;
      return;
    }
    if fb == 1 && bb != MAX {
      Decide(y, au, u, f, rb, fb);
      done := true;
    }
  }

  /** add1.c:412-428: b has been read entirely, c perhaps not. */
  method FinishC(cp: seq<limb>, difs: nat, cprev: limb, ck0: int, rb0: int, fb0: int,
                 ghost k: int, ghost y: real, ghost au: int, ghost u: real, ghost f: real)
    returns (rb: int, fb: int)
    requires ReadingC(cp, difs, k, cprev, ck0) && 0 <= fb0
    requires State(rb0, fb0, u, f, TailC(cp, difs, k)) && f == (y - au as real) * u
    ensures Decided(y, au, rb, fb)
  {
    hide Val, Frac, Decided, Pow2, ShiftedTail;
    rb, fb := rb0, fb0;
    TailCRange(cp, difs, k);
    if fb == 1 {
      AllOnes(rb, u, f, TailC(cp, difs, k));
      Decide(y, au, u, f, rb, fb);
      return;
    }
    if ck0 < 0 {
      Decide(y, au, u, f, rb, fb);
      return;
    }
    ghost var prev: limb := if k == 0 then 0 else cp[|cp| - k];
    ShiftedTailRange(prev, cp[..ck0], difs);
    if difs > 0 {
      Pow2Limb();
      Pow2Add(difs, 64 - difs);
      ShiftLeftLimb(cprev, Pow2(difs), Pow2(64 - difs));
      ProductZero(cprev % Pow2(difs), Pow2(64 - difs));
      if cprev * Pow2(64 - difs) % B != 0 {
        fb := 1;
        Decide(y, au, u, f, rb, fb);
        return;
      }
    } else {
      Pow2Zero();
    }
    var ck := ck0;
    while ck > 0
      invariant 0 <= ck <= ck0
      invariant forall i :: ck <= i < ck0 ==> cp[i] == 0
    {
      ck := ck - 1;
      if cp[ck] != 0 {
        fb := 1;
        ValZeros(cp[..ck0]);
        assert cp[..ck0][ck] != 0;
        Decide(y, au, u, f, rb, fb);
        return;
      }
    }
    ValZeros(cp[..ck0]);
    Decide(y, au, u, f, rb, fb);
  }

  /** add1.c:362-428: both b and c are read until the decision falls. */
  method ScanOverlap(ap: array<limb>, p: nat, bp: seq<limb>, bk0: nat, cp: seq<limb>, difs: nat, cprev0: limb, ck0: int,
                     rb0: int, fb0: int, exp0: int, emax: int,
                     ghost k0: int, ghost x: real, ghost au0: int, ghost y0: real, ghost u0: real, ghost f0: real)
    returns (rb: int, fb: int, exp: int, ovf: bool, ghost au: int, ghost y: real)
    requires p >= 1 && Holding(ap[..], p, au0) && bk0 <= |bp|
    requires ReadingC(cp, difs, k0, cprev0, ck0) && 0 <= fb0
    requires State(rb0, fb0, u0, f0, Tails(bp, bk0, cp, difs, k0)) && f0 == (y0 - au0 as real) * u0
    requires x == y0 * R2(exp0 - p)
    requires exp0 <= emax
    modifies ap
    ensures !ovf ==> exp <= emax
    ensures ovf ==> x >= R2(emax)
    ensures !ovf ==> Holding(ap[..], p, au) && x == y * R2(exp - p) && Decided(y, au, rb, fb)
  {
    hide Val, Frac, TailC, Decided, DecidedIn, Tails, State, Holding, R2, Pow2, Ready;
    rb, fb, exp, ovf := rb0, fb0, exp0, false;
    au, y := au0, y0;
    ghost var u, f, k := u0, f0, k0;
    var bk, cprev, ck := bk0, cprev0, ck0;
    while bk > 0
      invariant !ovf && exp <= emax && 0 <= bk <= |bp| && 0 <= fb && ReadingC(cp, difs, k, cprev, ck)
      invariant Holding(ap[..], p, au) && x == y * R2(exp - p)
      invariant State(rb, fb, u, f, Tails(bp, bk, cp, difs, k)) && f == (y - au as real) * u
    {
      if ck < 0 || (difs == 0 && ck == 0) {
        NoTailC(bp, bk, cp, difs, k);
        rb, fb := ReadBOnly(bp, bk, rb, fb, y, au, u, f);
        return;
      }
      var cc, bb, done;
      cc, cprev, ck := NextC(cp, difs, cprev, ck, k);
      ReadBC(bp, bk, cp, difs, k, cc);
      TailsRange(bp, bk - 1, cp, difs, k + 1);
      bb, rb, fb, exp, ovf, done, au, y, u, f :=
        CarryNext(ap, p, bp[bk - 1], cc, rb, fb, exp, emax, x, au, y, u, f, Tails(bp, bk, cp, difs, k), Tails(bp, bk - 1, cp, difs, k + 1));
      if ovf || done { return; }
      fb, done := ContinueOrRound(bb, rb, fb, y, au, u, f, Tails(bp, bk - 1, cp, difs, k + 1));
      if done { return; }
      bk, k := bk - 1, k + 1;
    }
    TailsRange(bp, 0, cp, difs, k);
    rb, fb := FinishC(cp, difs, cprev, ck, rb, fb, k, y, au, u, f);
  }

  /** add1.c:247-457: b has more limbs than a. */
  method ScanBoth(ap: array<limb>, p: nat, bp: seq<limb>, cp: seq<limb>, difs: nat, difw0: int,
                  rb0: int, fb0: int, exp0: int, emax: int,
                  ghost x: real, ghost au0: int, ghost y0: real, ghost u0: real, ghost f0: real)
    returns (rb: int, fb: int, exp: int, ovf: bool, ghost au: int, ghost y: real)
    requires p >= 1 && Holding(ap[..], p, au0) && ap.Length < |bp| && difs < 64 && Val(cp) > 0
    requires State(rb0, fb0, u0, f0, Tails(bp, |bp| - ap.Length, cp, difs, difw0)) && f0 == (y0 - au0 as real) * u0
    requires x == y0 * R2(exp0 - p)
    requires exp0 <= emax
    modifies ap
    ensures !ovf ==> exp <= emax
    ensures ovf ==> x >= R2(emax)
    ensures !ovf ==> Holding(ap[..], p, au) && x == y * R2(exp - p) && Decided(y, au, rb, fb)
  {
    hide Val, Frac, TailC, Decided, DecidedIn, Tails, State, Holding, R2, Pow2;
    rb, fb, exp, ovf := rb0, fb0, exp0, false;
    au, y := au0, y0;
    ghost var u, f := u0, f0;
    var bk: nat, difw := |bp| - ap.Length, difw0;
    if fb == 0 && difw <= 0 {
      fb := 1;
      StickyC(rb, u, f, bp, bk, cp, difs, difw);
      Decide(y, au, u, f, rb, fb);
      return;
    }
    var done;
    rb, fb, bk, difw, done, u, f := ReadAbove(bp, bk, difw, rb, fb, cp, difs, y, au, u, f);
    if done { return; }
    StateRange(rb, fb, u, f, Tails(bp, bk, cp, difs, difw));
    if difw > |cp| || (difs == 0 && difw == |cp|) {
      NoTailC(bp, bk, cp, difs, difw);
      rb, fb := ReadBOnly(bp, bk, rb, fb, y, au, u, f);
      return;
    }
    var ck := |cp| - difw;
    var cprev: limb := if ck == |cp| then 0 else cp[ck];
    ghost var k := difw;
    if fb < 0 {
      rb, fb, exp, cprev, ck, ovf, done, au, y, u, f :=
        ReadFirst(ap, p, bp, bk, cp, difs, cprev, ck, rb, exp, emax, k, x, au, y, u, f);
      if ovf || done { return; }
      bk, k := bk - 1, k + 1;
    }
    rb, fb, exp, ovf, au, y := ScanOverlap(ap, p, bp, bk, cp, difs, cprev, ck, rb, fb, exp, emax, k, x, au, y, u, f);
  }

  lemma StickyC(rb: int, u: real, f: real, bp: seq<limb>, bk: nat, cp: seq<limb>, difs: nat, k: int)
    requires bk <= |bp| && k <= 0 && Val(cp) > 0
    requires State(rb, 0, u, f, Tails(bp, bk, cp, difs, k))
    ensures u > 0.0 && DecidedIn(u, f, rb, 1)
  {
    TailsRange(bp, bk, cp, difs, k);
  }

  lemma NoTailC(bp: seq<limb>, bk: nat, cp: seq<limb>, difs: nat, k: int)
    requires bk <= |bp| && (k > |cp| || (difs == 0 && k == |cp|))
    ensures Tails(bp, bk, cp, difs, k) == Frac(bp[..bk])
  {
    hide Frac, TailC;
    TailCEnd(cp, difs, k);
  }

  // ---- b has no more limbs than a ------------------------------------------------------

  /** A limb of c, of which only a multiple of g has been looked at, and the rest
      r < g, settle rounding bit and sticky bit. */
  lemma LastLimb(cc: limb, r: real, g: int, rb: int, fb: int, u: real, f: real, t: real)
    requires State(rb, fb, u, f, t) && fb != 1 && t * B as real == cc as real + r
    requires 1 <= g && 0.0 <= r < g as real && cc % HALF <= HALF - g && cc <= B - g
    ensures u > 0.0
    ensures rb < 0 ==> DecidedIn(u, f, cc / HALF, if cc % HALF == 0 && r == 0.0 then 0 else 1)
    ensures rb >= 0 ==> DecidedIn(u, f, rb, if cc == 0 && r == 0.0 then 0 else 1)
  {
    assert cc == cc / HALF * HALF + cc % HALF && 0 <= cc / HALF <= 1;
    if rb < 0 {
      var h := cc % HALF;
      assert h as real + r < HALF as real;
    } else {
      assert cc as real + r < B as real;
    }
  }

  /** The part of a limb of c that falls below A. */
  lemma LowPart(cp: seq<limb>, difs: nat, k: int) returns (r: real)
    requires 0 < difs < 64 && 0 < k <= |cp|
    ensures var cc := (cp[|cp| - k] % Pow2(difs)) * Pow2(64 - difs);
            && 0 <= cc < B && cc % HALF <= HALF - Pow2(64 - difs) && cc <= B - Pow2(64 - difs)
            && TailC(cp, difs, k) * B as real == cc as real + r
    ensures 0.0 <= r < Pow2(64 - difs) as real
    ensures r == 0.0 <==> Val(cp[..|cp| - k]) == 0
  {
    hide Val, BP, Frac, Pow2;
    var ck := |cp| - k;
    var d, g, m := Pow2(difs), Pow2(64 - difs), cp[ck] % Pow2(difs);
    r := Frac(cp[..ck]) * g as real;
    FracRange(cp[..ck]);
    Pow2Limb();
    Pow2Add(difs, 64 - difs);
    Pow2Step(difs - 1);
    MultipleBelow(m, d, g, Pow2(difs - 1));
    CastProduct(d, g);
    CastProduct(m, g);
    TailScaled(m as real, Frac(cp[..ck]), d as real, g as real);
    CompareWith(Frac(cp[..ck]), 0.0, g as real, r, 0.0);
    CompareWith(Frac(cp[..ck]), 1.0, g as real, r, g as real);
  }

  lemma TailScaled(m: real, f: real, d: real, g: real)
    requires d > 0.0
    ensures ((m + f) / d) * (d * g) == m * g + f * g
  {
    var t := (m + f) / d;
    assert t * d == m + f;
    RealSwap2(t, d, g);
    RealComm(t * g, d);
    RealRegroup2(t, d, g);
    RealExpand(m, f, g);
  }

  lemma MultipleBelow(m: int, d: int, g: int, h: int)
    requires 0 <= m < d && g >= 1 && d == 2 * h && d * g == B
    ensures 0 <= m * g <= B - g
    ensures m * g % HALF <= HALF - g
  {
    MulMono(0, m, g);
    MulMono(m, d - 1, g);
    Distrib(d, -1, g);
    MulAssoc(2, h, g);
    Distrib(h, -1, g);
    if m < h {
      MulMono(m, h - 1, g);
    } else {
      MulMono(m - h, h - 1, g);
      MulMono(0, m - h, g);
      Distrib(m - h, h, g);
      Distrib(m, -h, g);
    }
  }

  /** add1.c:458-515. */
  method ScanC(an: nat, cp: seq<limb>, diffExp: nat, rb0: int, fb0: int,
               ghost y: real, ghost au: int, ghost u: real, ghost f: real)
    returns (rb: int, fb: int)
    requires Val(cp) > 0
    requires State(rb0, fb0, u, f, TailC(cp, diffExp % 64, an - diffExp / 64)) && f == (y - au as real) * u
    ensures Decided(y, au, rb, fb)
  {
    hide Val, Frac, TailC, Decided, DecidedIn, Pow2;
    rb, fb := rb0, fb0;
    var difs, difw := diffExp % 64, an - diffExp / 64;
    ghost var t := TailC(cp, difs, difw);
    TailCRange(cp, difs, difw);
    TailCEnd(cp, difs, difw);
    if fb == 1 {
      AllOnes(rb, u, f, t);
      Decide(y, au, u, f, rb, fb);
      return;
    }
    if difw > |cp| {
      if rb < 0 { rb := 0; }
      fb := 0;
      ExactState(rb0, fb0, u, f);
      Decide(y, au, u, f, rb, fb);
    } else if diffExp > 64 * an {
      if rb < 0 { rb := 0; }
      fb := 1;
      GapC(cp, difs, difw);
      TinyState(rb0, fb0, u, f, t);
      Decide(y, au, u, f, rb, fb);
    } else {
      var ck := |cp| - difw;
      if difs == 0 && ck == 0 {
        if rb < 0 { rb := 0; }
        fb := 0;
        ExactState(rb0, fb0, u, f);
        Decide(y, au, u, f, rb, fb);
        return;
      }
      rb, fb := ScanCLimbs(cp, difs, difw, rb, fb, y, au, u, f);
    }
  }

  /** add1.c:489-513. */
  method ScanCLimbs(cp: seq<limb>, difs: nat, difw: nat, rb0: int, fb0: int,
                    ghost y: real, ghost au: int, ghost u: real, ghost f: real)
    returns (rb: int, fb: int)
    requires difs < 64 && difw <= |cp| && fb0 != 1 && (difs > 0 ==> difw > 0) && (difs == 0 ==> difw < |cp|)
    requires State(rb0, fb0, u, f, TailC(cp, difs, difw)) && f == (y - au as real) * u
    ensures Decided(y, au, rb, fb)
  {
    hide Val, Frac, TailC, Decided, DecidedIn, Pow2, State;
    rb, fb := rb0, fb0;
    ghost var t := TailC(cp, difs, difw);
    var ck := |cp| - difw;
    ghost var r, g;
    var cc: limb;
    if difs > 0 {
      r := LowPart(cp, difs, difw);
      Pow2Limb();
      Pow2Add(difs, 64 - difs);
      ShiftLeftLimb(cp[ck], Pow2(difs), Pow2(64 - difs));
      g := Pow2(64 - difs);
      cc := cp[ck] * Pow2(64 - difs) % B;
    } else {
      r := WholePart(cp, difw);
      g := 1;
      ck := ck - 1;
      cc := cp[ck];
    }
    LastLimb(cc, r, g, rb, fb, u, f, t);
    if rb < 0 {
      rb := cc / HALF;
      cc := cc % HALF;
    }
    ghost var ck1 := ck;
    ValZeros(cp[..ck1]);
    while cc == 0
      invariant 0 <= ck <= ck1
      invariant ck < ck1 && cc != 0 ==> cp[..ck1][ck] != 0
      invariant cc == 0 ==> forall i :: ck <= i < ck1 ==> cp[..ck1][i] == 0
      invariant ck == ck1 ==> DecidedIn(u, f, rb, if cc == 0 && r == 0.0 then 0 else 1)
      invariant ck < ck1 ==> DecidedIn(u, f, rb, if r == 0.0 then 0 else 1)
      decreases ck + (if cc == 0 then 1 else 0)
    {
      if ck == 0 {
        fb := 0;
        Decide(y, au, u, f, rb, fb);
        return;
      }
      ck := ck - 1;
      cc := cp[ck];
    }
    fb := 1;
    Decide(y, au, u, f, rb, fb);
  }

  lemma WholePart(cp: seq<limb>, k: nat) returns (r: real)
    requires k < |cp|
    ensures TailC(cp, 0, k) * B as real == cp[|cp| - k - 1] as real + r
    ensures 0.0 <= r < 1.0
    ensures r == 0.0 <==> Val(cp[..|cp| - k - 1]) == 0
  {
    hide Val, BP, Frac, Pow2;
    var s := cp[..|cp| - k];
    Pow2Zero();
    ShiftedTailUnshifted(if k == 0 then 0 else cp[|cp| - k], s);
    FracStep(s);
    assert s[..|s| - 1] == cp[..|cp| - k - 1];
    r := Frac(s[..|s| - 1]);
    FracRange(s[..|s| - 1]);
  }

  lemma ExactState(rb: int, fb: int, u: real, f: real)
    requires State(rb, fb, u, f, 0.0) && fb != 1
    ensures u > 0.0 && DecidedIn(u, f, if rb < 0 then 0 else rb, 0)
  {}

  lemma TinyState(rb: int, fb: int, u: real, f: real, t: real)
    requires State(rb, fb, u, f, t) && fb != 1 && 0.0 < t < 0.5
    ensures u > 0.0 && DecidedIn(u, f, if rb < 0 then 0 else rb, 1)
  {}

  /** At least one zero bit separates A from c. */
  lemma GapC(cp: seq<limb>, difs: nat, k: int)
    requires (difs < 64 && k < 0) || (k == 0 && 0 < difs < 64)
    ensures TailC(cp, difs, k) < 0.5
  {
    hide Val, Frac, Pow2;
    FracRange(cp);
    if k == 0 {
      assert cp[..|cp|] == cp;
      Pow2Step(difs - 1);
      HalfBound(Frac(cp), Pow2(difs));
      assert 0 as limb % Pow2(difs) == 0;
    } else {
      TailCStep(cp, difs, k);
      TailCRange(cp, difs, k + 1);
    }
  }

  lemma HalfBound(x: real, d: int)
    requires 0.0 <= x < 1.0 && d >= 2
    ensures x / d as real < 0.5
  {
    var q := x / d as real;
    assert q * d as real == x;
    HalfBound2(q, d as real, x);
  }

  lemma HalfBound2(q: real, d: real, x: real)
    requires q * d == x < 1.0 && d >= 2.0
    ensures q < 0.5
  {
    if q >= 0.5 { RealMono(0.5, q, d); }
  }

  // ---- A': the part of the sum that overlaps a ------------------------------------------

  /** add1.c:148-179: ap <- c >> diffExp, truncated. */
  method PlaceC(ap: array<limb>, cp: seq<limb>, diffExp: nat)
    requires |cp| > 0 && diffExp < 64 * ap.Length
    modifies ap
    ensures Val(ap[..]) as real + TailC(cp, diffExp % 64, ap.Length - diffExp / 64) == ScaledC(cp, diffExp, ap.Length)
  {
    hide Val, Frac, Pow2, BP, TailC;
    var an, cn := ap.Length, |cp|;
    var dif := 64 * an - diffExp;
    var difn := LimbCount(dif);
    var k := diffExp / 64;
    ScaledCSplit(cp, diffExp, an);
    var low := 0;
    if difn > cn {
      low := difn - cn;
      MpnZero(ap, 0, low);
      difn := cn;
    }
    assert difn + low == an - k;
    MpnZero(ap, an - k, k);
    var out := ShiftIn(ap, cp, diffExp % 64, difn, low);
  }

  // ---- adding b, and the bits below A --------------------------------------------------

  /** add1.c:127-138: the upper limbs of b, when c does not reach them. */
  method CopyB(ap: array<limb>, bp: seq<limb>)
    requires |bp| > 0 && ap.Length > 0
    modifies ap
    ensures Val(ap[..]) == TopB(bp, ap.Length)
  {
    hide Val, BP;
    var an, bn := ap.Length, |bp|;
    if an > bn {
      MpnCopy(ap, an - bn, bp);
      ghost var copied := ap[an - bn..an - bn + bn];
      MpnZero(ap, 0, an - bn);
      assert ap[0..an - bn] == ap[..][..an - bn];
      assert ap[..][an - bn..] == copied;
      ValSplit(ap[..], an - bn);
      MulComm(Val(bp), BP(an - bn));
    } else {
      MpnCopy(ap, 0, bp[bn - an..]);
      assert ap[0..an] == ap[..];
      if an == bn { BPZero(); assert bp[0..] == bp; }
    }
  }

  /** add1.c:182-184. */
  method AddB(ap: array<limb>, bp: seq<limb>) returns (cc: limb)
    requires |bp| > 0 && ap.Length > 0
    modifies ap
    ensures cc <= 1
    ensures Val(ap[..]) + cc * BP(ap.Length) == Val(old(ap[..])) + TopB(bp, ap.Length)
  {
    hide Val, BP;
    var an, bn := ap.Length, |bp|;
    ghost var s := ap[..];
    if an > bn {
      cc := MpnAddN(ap, an - bn, bp);
      ghost var r := ap[..];
      ValSplit(s, an - bn);
      ValSplit(r, an - bn);
      assert r[..an - bn] == s[..an - bn];
      assert r[an - bn..] == ap[an - bn..an - bn + bn] && s[an - bn..] == s[an - bn..an - bn + bn];
      BPAdd(an - bn, bn);
      ScaledSum(BP(an - bn), Val(s[an - bn..]), Val(r[an - bn..]), Val(bp), cc, BP(bn));
    } else {
      cc := MpnAddN(ap, 0, bp[bn - an..]);
      assert ap[0..an] == ap[..] && s[0..an] == s;
      if an == bn { BPZero(); assert bp[0..] == bp; }
    }
  }

  lemma ScaledSum(d: int, x: int, r: int, b: int, cc: int, p: int)
    requires r + cc * p == x + b
    ensures d * r + cc * (d * p) == d * x + b * d
  {
    assert d * (r + cc * p) == d * (x + b);
    Distrib(r, cc * p, d);
    Distrib(x, b, d);
    MulComm(b, d);
    MulAssoc(cc, d, p);
    MulComm(cc, d);
    MulAssoc(d, cc, p);
  }

  // ---- add1.c:186-234: rounding bit and following bits from the low bits of A' --------------

  /** low, the bits below A that are in the lowest limb, written as a rounding bit
      above `half - 1` ones, zeros or mixed bits. */
  lemma SplitLow(low: int, half: int, u: real, f: real, t: real)
    requires 0 <= low < half * 2 && u == (2 * half) as real && f == low as real + t && 0.0 <= t < 2.0
    requires half >= 2
    ensures low % half == 0 ==> State(low / half, 0, u, f, t)
    ensures low % half == half - 1 ==> State(low / half, 1, u, f, t)
    ensures 0 < low % half < half - 1 ==> DecidedIn(u, f, low / half, -1)
  {
    DivMulLt(low, half, 2);
    SplitParts(low / half, low % half, low, half, u, f, t);
  }

  lemma SplitParts(q: int, r: int, low: int, half: int, u: real, f: real, t: real)
    requires 0 <= q <= 1 && 0 <= r < half && low == half * q + r && half >= 2
    requires u == (2 * half) as real && f == low as real + t && 0.0 <= t < 2.0
    ensures r == 0 ==> State(q, 0, u, f, t)
    ensures r == half - 1 ==> State(q, 1, u, f, t)
    ensures 0 < r < half - 1 ==> DecidedIn(u, f, q, -1)
  {
    assert half * q == if q == 1 then half else 0;
    if r != 0 && r != half - 1 {
      assert r as real + t < half as real;
    }
  }

  lemma SplitBit(low: int, u: real, f: real, t: real)
    requires 0 <= low < 2 && u == 2.0 && f == low as real + t
    ensures State(low, -1, u, f, t)
  {}

  /** y is the sum in units in the last place of A, when u such units make one ulp
      and the sum is v plus t units. */
  lemma UlpsOf(xf: real, an: nat, v: int, t: real, d: int) returns (y: real)
    requires d >= 1 && xf * BP(an) as real == v as real + t
    ensures y * d as real == xf * BP(an) as real
    ensures (v % d) as real + t == (y - (v / d) as real) * d as real
  {
    y := xf * BP(an) as real / d as real;
    MulComm(d, v / d);
    CastProduct(v / d, d);
    RealSub(y, (v / d) as real, d as real);
  }

  /** x = xf * 2^exp = y * 2^(exp - p) when A has p bits of which d make one ulp. */
  lemma ExponentOf(xf: real, y: real, p: nat, sh: nat, exp: int, an: nat)
    requires BP(an) == Pow2(p) * Pow2(sh) && y * Pow2(sh) as real == xf * BP(an) as real
    ensures xf * R2(exp) == y * R2(exp - p)
  {
    hide R2, Pow2, BP;
    PowerProduct(p, exp);
    CastProduct(Pow2(p), Pow2(sh));
    var a, d, w := Pow2(p) as real, Pow2(sh) as real, R2(exp - p);
    assert y * d == (xf * a) * d by { RealRegroup2(xf, a, d); }
    RealMono(y, xf * a, d);
    RealMono(xf * a, y, d);
    RealRegroup2(xf, a, w);
  }

  /** v, as an integer, is divided into A and the bits below. */
  lemma SplitV(p: nat, v: int, cc: int)
    requires p >= 1 && 0 <= cc <= 1
    requires HALF * BP(LimbCount(p) - 1) <= v < 2 * BP(LimbCount(p))
    requires cc == 1 <==> v >= BP(LimbCount(p))
    ensures IsSignificand(p, v / Pow2(Unused(p) + cc))
    ensures v == v / Pow2(Unused(p) + cc) * Pow2(Unused(p) + cc) + v % Pow2(Unused(p) + cc)
  {
    hide Pow2, BP;
    LimbsOfPrecision(p);
    Pow2Step(Unused(p));
    Pow2Step(p - 1);
    SplitPlain(v, Pow2(p - 1), Pow2(p), Pow2(Unused(p)), HALF * BP(LimbCount(p) - 1), BP(LimbCount(p)), cc, Pow2(Unused(p) + cc));
  }

  lemma SplitPlain(v: int, lo: int, hi: int, d: int, half: int, b: int, cc: int, dd: int)
    requires 1 <= lo && hi == 2 * lo && 1 <= d && b == hi * d && half == lo * d && half <= v < 2 * b
    requires cc == 1 <==> v >= b
    requires dd == if cc == 1 then 2 * d else d
    ensures lo <= v / dd < hi && v == v / dd * dd + v % dd
  {
    MulComm(dd, v / dd);
    if cc == 1 {
      MulAssoc(lo, 2, d);
      MulComm(lo, 2);
      MulAssoc(hi, 2, d);
      MulComm(hi, 2);
      MulAssoc(2, hi, d);
    }
    ScaledBounds(v, lo, hi, dd);
  }

  /** add1.c:214-234: no carry. */
  method ExtractPlain(ap: array<limb>, p: nat, ghost t: real)
    returns (rb: int, fb: int, done: bool, ghost au: int, ghost u: real, ghost f: real)
    requires p >= 1 && ap.Length == LimbCount(p) && Val(ap[..]) >= HALF * BP(ap.Length - 1) && 0.0 <= t < 2.0
    modifies ap
    ensures au == Val(old(ap[..])) / Pow2(Unused(p)) && u == Pow2(Unused(p)) as real
    ensures Holding(ap[..], p, au) && f == (Val(old(ap[..])) % Pow2(Unused(p))) as real + t
    ensures done ==> DecidedIn(u, f, rb, fb)
    ensures !done ==> State(rb, fb, u, f, t)
  {
    hide Val, BP, Pow2, DecidedIn, State;
    var sh := Unused(p);
    ghost var s := ap[..];
    ghost var v := Val(s);
    ValBound(s);
    SplitV(p, v, 0);
    LowLimb(s, sh);
    DivLe(ap[0], Pow2(sh));
    LimbCountPositive(p);
    rb, fb, done := -1, -1, false;
    au, u, f := v / Pow2(sh), Pow2(sh) as real, (v % Pow2(sh)) as real + t;
    if sh == 0 {
      Pow2Zero();
      SplitNone(t);
      return;
    }
    Pow2Step(sh - 1);
    var bb := ap[0] % Pow2(sh);
    ClearLow(ap, p, bb, au);
    rb := bb / Pow2(sh - 1);
    if sh > 1 {
      Pow2Step(sh - 2);
      SplitLow(bb, Pow2(sh - 1), u, f, t);
      bb := bb % Pow2(sh - 1);
      if bb == 0 {
        fb := 0;
      } else if bb == Pow2(sh - 1) - 1 {
        fb := 1;
      } else {
        done := true;
      }
    } else {
      Pow2Zero();
      SplitBit(bb, u, f, t);
    }
  }

  lemma SplitNone(t: real)
    ensures State(-1, -1, 1.0, t, t)
  {}

  /** add1.c:193-211: a carry; A' is shifted right by one bit. */
  method ExtractCarry(ap: array<limb>, p: nat, ghost t: real)
    returns (rb: int, fb: int, done: bool, ghost au: int, ghost u: real, ghost f: real)
    requires p >= 1 && ap.Length == LimbCount(p) && 0.0 <= t < 2.0
    modifies ap
    ensures au == (Val(old(ap[..])) + BP(ap.Length)) / Pow2(Unused(p) + 1) && u == Pow2(Unused(p) + 1) as real
    ensures Holding(ap[..], p, au)
    ensures f == ((Val(old(ap[..])) + BP(ap.Length)) % Pow2(Unused(p) + 1)) as real + t
    ensures done ==> DecidedIn(u, f, rb, fb)
    ensures !done ==> State(rb, fb, u, f, t)
  {
    hide Val, BP, Pow2, DecidedIn, State, IsSignificand, Holding;
    var sh := Unused(p);
    ghost var s := ap[..];
    ghost var v := Val(s) + BP(ap.Length);
    LowOfCarry(s, p);
    au, u, f := v / Pow2(sh + 1), Pow2(sh + 1) as real, (v % Pow2(sh + 1)) as real + t;
    rb, fb, done := CarryRounding(ap[0], sh, u, f, t);
    ClearAndShift(ap, p, au);
  }

  lemma LowOfCarry(s: seq<limb>, p: nat)
    requires p >= 1 && |s| == LimbCount(p)
    ensures |s| > 0 && (Val(s) + BP(|s|)) % Pow2(Unused(p) + 1) == s[0] % Pow2(Unused(p) + 1)
  {
    hide Val, BP, Pow2;
    CarryBits(s, p);
  }

  /** add1.c:193-194 and 209-210. */
  method ClearAndShift(ap: array<limb>, p: nat, ghost au: int)
    requires p >= 1 && ap.Length == LimbCount(p) > 0 && au == (Val(ap[..]) + BP(ap.Length)) / Pow2(Unused(p) + 1)
    modifies ap
    ensures Holding(ap[..], p, au)
  {
    hide Val, BP, Pow2, IsSignificand, Holding;
    var sh := Unused(p);
    ghost var s := ap[..];
    CarryBits(s, p);
    var w := ap[0];
    if sh > 0 { ap[0] := w - w % Pow2(sh + 1); }
    SetLimb(s, 0, ap[0]);
    BPZero();
    assert ap[..] == s[0 := ap[0]];
    ShiftDown(ap, p, au);
  }

  /** add1.c:195-208: rounding bit and following bits from the lowest limb. */
  method CarryRounding(w: limb, sh: nat, ghost u: real, ghost f: real, ghost t: real) returns (rb: int, fb: int, done: bool)
    requires 0.0 <= t < 2.0 && sh < 64 && u == Pow2(sh + 1) as real && f == (w % Pow2(sh + 1)) as real + t
    ensures done ==> DecidedIn(u, f, rb, fb)
    ensures !done ==> State(rb, fb, u, f, t)
  {
    hide Pow2, DecidedIn, State;
    Pow2Step(sh);
    LowBit(w, Pow2(sh));
    rb, fb, done := w / Pow2(sh) % 2, -1, false;
    if sh > 0 {
      var bb := w % Pow2(sh);
      Pow2Step(sh - 1);
      SplitLow(w % Pow2(sh + 1), Pow2(sh), u, f, t);
      if bb == 0 { fb := 0; } else if bb == Pow2(sh) - 1 { fb := 1; }
      done := fb < 0;
    } else {
      Pow2Zero();
      SplitBit(w % 2, u, f, t);
    }
  }

  /** The low sh + 1 bits of A' with its carry are those of its lowest limb. */
  lemma CarryBits(s: seq<limb>, p: nat)
    requires p >= 1 && |s| == LimbCount(p)
    ensures var sh, v, w := Unused(p), Val(s) + BP(|s|), s[0];
            var q, m := v / Pow2(sh + 1), w % Pow2(sh + 1);
            && v % Pow2(sh + 1) == m <= w
            && m % Pow2(sh) == w % Pow2(sh) && m / Pow2(sh) == w / Pow2(sh) % 2
            && Pow2(sh + 1) == 2 * Pow2(sh) && (sh == 0 ==> Pow2(sh) == 1)
            && IsSignificand(p, q)
            && (Val(s) - m) / 2 == q * Pow2(sh) - HALF * BP(|s| - 1)
            && (sh == 0 ==> Val(s) / 2 == q - HALF * BP(|s| - 1))
  {
    hide Val, BP, Pow2;
    var sh, v, w, b := Unused(p), Val(s) + BP(|s|), s[0], BP(|s|);
    Pow2Step(sh);
    Pow2Zero();
    ValBound(s);
    BPStep(|s| - 1);
    SplitV(p, v, 1);
    BPPow2(|s|);
    Pow2Add(64 * |s| - (sh + 1), sh + 1);
    LowLimb(s, sh + 1);
    ModAddMultiple(Val(s), Pow2(sh + 1), Pow2(64 * |s| - (sh + 1)));
    LowBit(w, Pow2(sh));
    DivLe(w, Pow2(sh + 1));
    HalvedValue(v, Val(s), v / Pow2(sh + 1), w % Pow2(sh + 1), Pow2(sh), HALF * BP(|s| - 1));
  }

  lemma HalvedValue(v: int, v0: int, q: int, m: int, d: int, h: int)
    requires d >= 1 && v == v0 + 2 * h && v == q * (2 * d) + m
    ensures (v0 - m) / 2 == q * d - h
    ensures d == 1 && 0 <= m < 2 ==> v0 / 2 == q - h
  {
    assert q * (2 * d) == 2 * (q * d) by { MulAssoc(q, 2, d); MulComm(q, 2); MulAssoc(2, q, d); }
  }

  /** mpn_rshift by one and setting the high bit. */
  method ShiftDown(ap: array<limb>, p: nat, ghost au: int)
    requires p >= 1 && ap.Length == LimbCount(p) && IsSignificand(p, au)
    requires Val(ap[..]) / 2 == au * Pow2(Unused(p)) - HALF * BP(ap.Length - 1)
    modifies ap
    ensures Holding(ap[..], p, au)
  {
    hide Val, BP, Pow2;
    var an := ap.Length;
    LimbsOfPrecision(p);
    Pow2Two();
    var out := MpnRshift(ap, 0, ap[..], 1);
    assert ap[0..an] == ap[..];
    ghost var s := ap[..];
    MulStrict(au, Pow2(p), Pow2(Unused(p)));
    BPStep(an - 1);
    HighLimb(s);
    ap[an - 1] := ap[an - 1] + HALF;
    assert ap[..] == s[an - 1 := s[an - 1] + HALF];
    SetLimb(s, an - 1, s[an - 1] + HALF);
  }

  // ---- the whole of add1.c ---------------------------------------------------------------

  /** The exact sum, as a fraction of the binade of b. */
  function SumFraction(bp: seq<limb>, cp: seq<limb>, diffExp: nat): real {
    Frac(bp) + Frac(cp) / Pow2(diffExp) as real
  }

  lemma SumScaled(bp: seq<limb>, cp: seq<limb>, diffExp: nat, an: nat)
    ensures SumFraction(bp, cp, diffExp) * BP(an) as real == Frac(bp) * BP(an) as real + ScaledC(cp, diffExp, an)
  {
    hide Frac, Pow2, BP;
    RealExpand(Frac(bp), Frac(cp) / Pow2(diffExp) as real, BP(an) as real);
  }

  /** The integer held by s, with a carry out of it. */
  function WithCarry(s: seq<limb>, cc: limb): int { Val(s) + if cc == 0 then 0 else BP(|s|) }

  /** In units of 1/b, the fraction xf is v + t. */
  predicate InUnits(xf: real, b: int, v: int, t: real) { xf * b as real == v as real + t }

  /** add1.c:125-187: A' and the tails that are left over. */
  method Combine(ap: array<limb>, bp: seq<limb>, cp: seq<limb>, diffExp: nat) returns (cc: limb)
    requires |bp| > 0 && |cp| > 0 && ap.Length > 0 && bp[|bp| - 1] >= HALF
    modifies ap
    ensures cc <= 1
    ensures InUnits(SumFraction(bp, cp, diffExp), BP(ap.Length), WithCarry(ap[..], cc),
                    TailB(bp, ap.Length) + TailC(cp, diffExp % 64, ap.Length - diffExp / 64))
    ensures WithCarry(ap[..], cc) >= HALF * BP(ap.Length - 1)
  {
    hide Val, BP, Frac, Pow2, TailC, TailB, TopB, ScaledC, SumFraction;
    var an := ap.Length;
    SumScaled(bp, cp, diffExp, an);
    TopBValue(bp, an);
    if 64 * an <= diffExp {
      NoOverlap(cp, diffExp, an);
      CopyB(ap, bp);
      cc := 0;
      UnitsOfSum(SumFraction(bp, cp, diffExp), BP(an), 0, TopB(bp, an), Frac(bp) * BP(an) as real, ScaledC(cp, diffExp, an), TailB(bp, an),
                 TailC(cp, diffExp % 64, an - diffExp / 64), WithCarry(ap[..], cc));
    } else {
      PlaceC(ap, cp, diffExp);
      ghost var v := Val(ap[..]);
      cc := AddB(ap, bp);
      UnitsOfSum(SumFraction(bp, cp, diffExp), BP(an), v, TopB(bp, an), Frac(bp) * BP(an) as real, ScaledC(cp, diffExp, an), TailB(bp, an),
                 TailC(cp, diffExp % 64, an - diffExp / 64), WithCarry(ap[..], cc));
    }
  }

  lemma UnitsOfSum(xf: real, b: int, v: int, w: int, fb: real, sc: real, tb: real, tc: real, sum: int)
    requires xf * b as real == fb + sc && fb == w as real + tb && sc == v as real + tc && sum == v + w
    ensures InUnits(xf, b, sum, tb + tc)
  {}

  /** The sum in units in the last place of A, in the binade of b or the one above. */
  lemma Link(xf: real, x: real, v: int, t: real, p: nat, exp: int, k: nat) returns (y: real)
    requires p >= 1 && k <= 1 && InUnits(xf, BP(LimbCount(p)), v, t) && x == xf * R2(exp)
    ensures x == y * R2(exp + k - p)
    ensures var d := Pow2(Unused(p) + k); (v % d) as real + t == (y - (v / d) as real) * d as real
  {
    hide BP, Pow2, R2;
    LimbsOfPrecision(p);
    var sh := Unused(p);
    y := UlpsOf(xf, LimbCount(p), v, t, Pow2(sh + k));
    if k == 0 { ExponentOf(xf, y, p, sh, exp, LimbCount(p)); } else { ExponentCarry(xf, y, p, sh, exp, LimbCount(p)); }
  }

  /** add1.c:212-234, and what it means for the sum. */
  method ExtractSame(ap: array<limb>, p: nat, exp: int, ghost x: real, ghost xf: real, ghost t: real)
    returns (rb: int, fb: int, done: bool, ghost au: int, ghost y: real, ghost u: real, ghost f: real)
    requires p >= 1 && ap.Length == LimbCount(p) && 0.0 <= t < 2.0 && Val(ap[..]) >= HALF * BP(ap.Length - 1)
    requires InUnits(xf, BP(ap.Length), Val(ap[..]), t) && x == xf * R2(exp)
    modifies ap
    ensures Holding(ap[..], p, au) && x == y * R2(exp - p) && f == (y - au as real) * u
    ensures done ==> Decided(y, au, rb, fb)
    ensures !done ==> State(rb, fb, u, f, t)
  {
    hide Val, BP, Pow2, R2, DecidedIn, State, Holding, Decided, InUnits;
    y := Link(xf, x, Val(ap[..]), t, p, exp, 0);
    rb, fb, done, au, u, f := ExtractPlain(ap, p, t);
    if done { Decide(y, au, u, f, rb, fb); }
  }

  /** add1.c:193-211, and what it means for the sum. */
  method ExtractAbove(ap: array<limb>, p: nat, exp: int, ghost x: real, ghost xf: real, ghost t: real)
    returns (rb: int, fb: int, done: bool, ghost au: int, ghost y: real, ghost u: real, ghost f: real)
    requires p >= 1 && ap.Length == LimbCount(p) && 0.0 <= t < 2.0
    requires InUnits(xf, BP(ap.Length), Val(ap[..]) + BP(ap.Length), t) && x == xf * R2(exp)
    modifies ap
    ensures Holding(ap[..], p, au) && x == y * R2(exp + 1 - p) && f == (y - au as real) * u
    ensures done ==> Decided(y, au, rb, fb)
    ensures !done ==> State(rb, fb, u, f, t)
  {
    hide Val, BP, Pow2, R2, DecidedIn, State, Holding, Decided, InUnits;
    y := Link(xf, x, Val(ap[..]) + BP(ap.Length), t, p, exp, 1);
    rb, fb, done, au, u, f := ExtractCarry(ap, p, t);
    if done { Decide(y, au, u, f, rb, fb); }
  }

  /** add1.c:186-234. */
  method Extract(ap: array<limb>, p: nat, cc: limb, exp0: int, emax: int, ghost x: real, ghost xf: real, ghost t: real)
    returns (rb: int, fb: int, exp: int, ovf: bool, done: bool, ghost au: int, ghost y: real, ghost u: real, ghost f: real)
    requires p >= 1 && ap.Length == LimbCount(p) && 0.0 <= t < 2.0
    requires WithCarry(ap[..], cc) >= HALF * BP(ap.Length - 1)
    requires InUnits(xf, BP(ap.Length), WithCarry(ap[..], cc), t)
    requires x == xf * R2(exp0)
    requires exp0 <= emax
    modifies ap
    ensures !ovf ==> exp <= emax
    ensures ovf ==> x >= R2(emax)
    ensures !ovf ==> Holding(ap[..], p, au) && x == y * R2(exp - p) && f == (y - au as real) * u
    ensures !ovf && done ==> Decided(y, au, rb, fb)
    ensures !ovf && !done ==> State(rb, fb, u, f, t)
  {
    hide Val, BP, Pow2, R2, DecidedIn, State, Holding, Decided, InUnits;
    exp, ovf, done, rb, fb := exp0, false, false, -1, -1;
    au, y, u, f := 0, 0.0, 0.0, 0.0;
    if cc != 0 {
      if exp == emax {
        ovf := true;
        OneBinadeUp(xf, WithCarry(ap[..], cc), t, BP(ap.Length), R2(exp), x);
        return;
      }
      exp := exp + 1;
      rb, fb, done, au, y, u, f := ExtractAbove(ap, p, exp0, x, xf, t);
    } else {
      rb, fb, done, au, y, u, f := ExtractSame(ap, p, exp, x, xf, t);
    }
  }

  lemma OneBinadeUp(xf: real, v: int, t: real, b: int, r: real, x: real)
    requires b >= 1 && InUnits(xf, b, v, t) && t >= 0.0 && v >= b && r > 0.0 && x == xf * r
    ensures x >= r
  {
    CompareWith(xf, 1.0, b as real, v as real + t, b as real);
    CompareWith(xf, 1.0, r, x, r);
  }

  lemma ExponentCarry(xf: real, y: real, p: nat, sh: nat, exp: int, an: nat)
    requires BP(an) == Pow2(p) * Pow2(sh) && y * Pow2(sh + 1) as real == xf * BP(an) as real
    ensures xf * R2(exp) == y * R2(exp + 1 - p)
  {
    hide R2, Pow2, BP;
    Pow2Step(sh);
    CastProduct(2, Pow2(sh));
    RealTwice(y, Pow2(sh) as real);
    ExponentOf(xf, 2.0 * y, p, sh, exp, an);
    HalfScale(xf * R2(exp), 2.0 * y, exp, p);
  }

  /** add1.c:125-515: everything up to the label `rounding`. */
  method SumAndScan(ap: array<limb>, p: nat, bp: seq<limb>, cp: seq<limb>, diffExp: nat, exp0: int, emax: int, ghost x: real)
    returns (rb: int, fb: int, exp: int, ovf: bool, ghost au: int, ghost y: real)
    requires p >= 1 && ap.Length == LimbCount(p)
    requires |bp| > 0 && bp[|bp| - 1] >= HALF && |cp| > 0 && Val(cp) > 0
    requires x == SumFraction(bp, cp, diffExp) * R2(exp0)
    requires exp0 <= emax
    modifies ap
    ensures !ovf ==> exp <= emax
    ensures ovf ==> x >= R2(emax)
    ensures !ovf ==> Holding(ap[..], p, au) && x == y * R2(exp - p) && Decided(y, au, rb, fb)
  {
    hide Val, BP, Frac, Pow2, R2, TailC, SumFraction, Decided, State, Holding;
    var an := ap.Length;
    var cc := Combine(ap, bp, cp, diffExp);
    TailBRange(bp, an);
    TailCRange(cp, diffExp % 64, an - diffExp / 64);
    ghost var u, f;
    var done;
    rb, fb, exp, ovf, done, au, y, u, f :=
      Extract(ap, p, cc, exp0, emax, x, SumFraction(bp, cp, diffExp), TailB(bp, an) + TailC(cp, diffExp % 64, an - diffExp / 64));
    if ovf || done { return; }
    if |bp| > an {
      rb, fb, exp, ovf, au, y := ScanBoth(ap, p, bp, cp, diffExp % 64, an - diffExp / 64, rb, fb, exp, emax, x, au, y, u, f);
    } else {
      rb, fb := ScanC(an, cp, diffExp, rb, fb, y, au, u, f);
    }
  }

  /** The rounded value and its ternary value, from rounding bit and sticky bit. */
  lemma RoundDecision(y: real, au: int, rb: int, fb: int, d: Direction)
    requires Decided(y, au, rb, fb)
    ensures var up := match d
                      case Nearest => rb == 1 && (fb != 0 || au % 2 == 1)
                      case TowardZero => false
                      case AwayFromZero => rb == 1 || fb != 0;
            var t := if rb == 0 && fb == 0 then 0 else if up then 1 else -1;
            RoundsTo(y, d, if up then au + 1 else au, t)
  {}

  /** add1.c:517-572.  rnd_mode has become a direction; inex carries the sign. */
  method RoundA(ap: array<limb>, p: nat, neg: bool, d: Direction, rb: int, fb: int, exp0: int, emax: int,
                ghost au: int, ghost y: real)
    returns (inex: int, exp: int, ovf: bool, ghost s: int, ghost t: int)
    requires Holding(ap[..], p, au) && Decided(y, au, rb, fb)
    requires exp0 <= emax
    modifies ap
    ensures !ovf ==> exp <= emax
    ensures RoundsTo(y, d, s, t) && IsSignificand(p, NormSig(p, s))
    ensures ovf ==> exp0 == emax && s == Pow2(p)
    ensures !ovf ==> Holding(ap[..], p, NormSig(p, s)) && exp == NormExp(p, s, exp0) && inex == Signed(t, neg)
  {
    hide Val, BP, Pow2, RoundsTo, Decided;
    var sh := Unused(p);
    exp, ovf := exp0, false;
    DecidedRb(y, au, rb, fb);
    RoundDecision(y, au, rb, fb, d);
    ParityOfA(ap[..], p, au);
    MaxIsFloat(p);
    s, t := au, if rb == 0 && fb == 0 then 0 else -1;
    var up := false;
    if d == Nearest {
      if fb == 0 {
        if rb == 0 {
          inex := 0;
          return;
        }
        if ap[0] / Pow2(sh) % 2 == 1 { up := true; }
      } else if rb != 0 {
        up := true;
      }
      inex := if up then Signed(1, neg) else Signed(-1, neg);
    } else if d == TowardZero {
      inex := if rb != 0 || fb != 0 then Signed(-1, neg) else 0;
    } else {
      inex := if rb != 0 || fb != 0 then Signed(1, neg) else 0;
      up := inex != 0;
    }
    if up {
      s, t := au + 1, 1;
      ovf, exp := AddUlp(ap, p, exp, emax, au);
      HoldingRange(ap[..], p, au + 1);
    }
  }

  lemma DecidedRb(y: real, au: int, rb: int, fb: int)
    requires Decided(y, au, rb, fb)
    ensures rb == 0 || rb == 1
    ensures au as real <= y < au as real + 1.0
  {}

  /** When the test that precedes mpfr_underflow (add1.c:577-579) goes wrong: it
      looks at the ternary value of the signed result, while the question is
      about magnitudes.  The exact sum is negative and rounds to the float of
      magnitude 2^(emin-2), inexactly.  (Only operands outside the exponent
      range, i.e. UBFs, lead here.) */
  ghost predicate UnderflowMisjudged(x: real, p: nat, neg: bool, rnd: Mode, emin: int) {
    && p >= 1 && rnd == RNDN && neg && x != R2(emin - 2)
    && CorrectlyRounded(x, p, Nearest, Pow2(p - 1), emin - 1, Sgn(R2(emin - 2) - x))
  }

  /** The sum of -2^(emin-2) and -2^(emin-6), to two bits: it lies beyond the
      midpoint between 0 and the smallest number, but is taken for 0.  Both operands
      have exponents below emin, as unbounded floats may. */
  lemma UnderflowMisjudgedExample(emin: int)
    ensures Normalized([HALF], 1) && Frac([HALF]) * R2(emin - 1) == R2(emin - 2) && Frac([HALF]) * R2(emin - 5) == R2(emin - 6)
    ensures UnderflowMisjudged(R2(emin - 2) + R2(emin - 6), 2, true, RNDN, emin)
  {
    OneBit(emin - 1);
    OneBit(emin - 5);
    hide R2, CorrectlyRounded;
    var x := R2(emin - 2) + R2(emin - 6);
    R2Step(emin - 3);
    R2Step(emin - 4);
    R2Step(emin - 5);
    R2Step(emin - 6);
    R2Pos(emin - 6);
    assert Pow2(1) == 2 && Pow2(2) == 4;
    ScaledRounding(x, 2.125, 2, Nearest, emin - 1, 2, -1);
  }

  lemma OneBit(e: int)
    ensures Normalized([HALF], 1) && Frac([HALF]) * R2(e) == R2(e - 1)
  {
    assert Val([HALF]) == HALF by { ValOne(HALF); }
    assert BP(1) == B by { BPZero(); }
    Pow2Limb();
    DivUnique(HALF, Pow2(63), 1, 0);
    R2Step(e - 1);
  }

  /** A number with its exponent in the range is not below it. */
  lemma OrdinaryOperands(x: real, p: nat, neg: bool, rnd: Mode, exp: int, emin: int, emax: int)
    requires x >= R2(exp - 1) && emin <= exp && emin <= emax
    ensures !UnderflowMisjudged(x, p, neg, rnd, emin)
  {
    hide R2, Pow2, CorrectlyRounded;
    R2Mono(emin - 1, exp - 1);
    if UnderflowMisjudged(x, p, neg, rnd, emin) {
      BelowRange(x, p, Nearest, Pow2(p - 1), emin - 1, Sgn(R2(emin - 2) - x), emin, emax);
    }
  }

  /** No misjudgement when the rounded exponent is not emin - 1. */
  lemma JudgedElsewhere(x: real, p: nat, neg: bool, rnd: Mode, m: int, e: int, t: int, emin: int)
    requires CorrectlyRounded(x, p, DirectionOf(rnd, neg), m, e, t)
    requires p >= 1 && (e != emin - 1 || m != Pow2(p - 1) || t == 0)
    ensures !UnderflowMisjudged(x, p, neg, rnd, emin)
  {
    hide R2, Pow2, CorrectlyRounded;
    if UnderflowMisjudged(x, p, neg, rnd, emin) {
      CorrectUnique(x, p, Nearest, m, e, t, Pow2(p - 1), emin - 1, Sgn(R2(emin - 2) - x));
    }
  }

  /** The decision of add1.c:576-581, judged. */
  lemma UnderflowJudged(x: real, p: nat, neg: bool, rnd: Mode, m: int, e: int, t: int, emin: int, emax: int, d: Direction)
    requires p >= 1 && x > 0.0 && e < emin <= emax && CorrectlyRounded(x, p, DirectionOf(rnd, neg), m, e, t)
    requires d == if rnd == RNDN && (e < emin - 1 || (Signed(t, neg) >= 0 && m == Pow2(p - 1))) then TowardZero
                  else DirectionOf(rnd, neg)
    ensures var (o, t') := UnderflowOutcome(p, d, emin);
            CorrectInRange(x, p, DirectionOf(rnd, neg), emin, emax, o, t') <==> !UnderflowMisjudged(x, p, neg, rnd, emin)
  {
    hide R2, Pow2, CorrectInRange;
    if rnd == RNDN && neg && e == emin - 1 && m == Pow2(p - 1) && t != 0 {
      FloatBounds(p, Pow2(p - 1), emin - 1);
      WrongHalfway(x, p, t, emin, emax, d);
    } else {
      UnderflowCorrect(x, p, DirectionOf(rnd, neg), m, e, t, emin, emax);
      NotMisjudged(x, p, neg, rnd, m, e, t, emin);
    }
  }

  lemma NotMisjudged(x: real, p: nat, neg: bool, rnd: Mode, m: int, e: int, t: int, emin: int)
    requires p >= 1 && CorrectlyRounded(x, p, DirectionOf(rnd, neg), m, e, t)
    requires !(rnd == RNDN && neg && e == emin - 1 && m == Pow2(p - 1) && t != 0)
    ensures !UnderflowMisjudged(x, p, neg, rnd, emin)
  {
    hide CorrectlyRounded;
    if rnd == RNDN && neg { JudgedElsewhere(x, p, neg, rnd, m, e, t, emin); }
  }

  /** add1.c:574-583. */
  method SetExponent(env: Env, a: Mpfr, rnd: Mode, exp: int, inex0: int, ghost x: real, ghost m: int, ghost t: int)
    returns (inex: int, ghost o: Outcome)
    requires a.Shape() && x > 0.0 && exp <= env.emax && env.emin <= env.emax
    requires Holding(a.mant[..], a.prec, m) && CorrectlyRounded(x, a.prec, DirectionOf(rnd, a.neg), m, exp, t)
    requires inex0 == Signed(t, a.neg)
    modifies a, a.mant, env`inexact, env`underflow
    ensures a.neg == old(a.neg) && a.Holds(o)
    ensures CorrectInRange(x, a.prec, DirectionOf(rnd, a.neg), env.emin, env.emax, o, Signed(inex, a.neg)) <==>
            !UnderflowMisjudged(x, a.prec, a.neg, rnd, env.emin)
    ensures env.inexact == (old(env.inexact) || inex != 0)
    ensures env.overflow == (old(env.overflow) || TooLarge(WithSign(a.neg, x), a.prec, rnd, env.emax))
    ensures env.underflow == (old(env.underflow) || TooSmall(WithSign(a.neg, x), a.prec, rnd, env.emin))
  {
    hide R2, Pow2, Val, CorrectInRange, CorrectSigned, CorrectlyRounded, Holding, Normalized, Sig, UnderflowMisjudged, TooLarge, TooSmall;
    HoldingIsNormalized(a.mant[..], a.prec, m);
    ExponentDecides(x, a.prec, rnd, a.neg, m, exp, t, env.emin, env.emax);
    a.kind := Regular;
    if exp < env.emin {
      var pow := PowerOf2Raw(a);
      var mode := rnd;
      if rnd == RNDN && (exp < env.emin - 1 || (inex0 >= 0 && pow)) { mode := RNDZ; }
      o := UnderflowOutcome(a.prec, DirectionOf(mode, a.neg), env.emin).0;
      UnderflowJudged(x, a.prec, a.neg, rnd, m, exp, t, env.emin, env.emax, DirectionOf(mode, a.neg));
      inex := Underflow(env, a, mode, a.neg);
      return;
    }
    a.exp := exp;
    o := Finite(m, exp);
    InsideCorrect(x, a.prec, DirectionOf(rnd, a.neg), m, exp, t, env.emin, env.emax);
    JudgedElsewhere(x, a.prec, a.neg, rnd, m, exp, t, env.emin);
    inex := inex0;
    if inex != 0 { env.inexact := true; }
  }

  /** |b| + |c| with the sign of b: the mathematical sum, rounded once into the
      exponent range, except in the one situation above.  a may share its limbs
      with b or c, or be one of them: like the code, which copies a shared
      significand first, the method reads b and c before it writes. */
  method Add1(env: Env, a: Mpfr, b: Mpfr, c: Mpfr, rnd: Mode) returns (inex: int, ghost o: Outcome)
    requires a.Shape() && b.IsPureFp() && c.IsPureFp() && b.exp >= c.exp && env.emin <= env.emax
    modifies a, a.mant, env`inexact, env`overflow, env`underflow
    ensures a.neg == old(b.neg) && a.Holds(o)
    ensures var x := old(b.Magnitude()) + old(c.Magnitude());
            CorrectSigned(WithSign(a.neg, x), a.prec, rnd, env.emin, env.emax, a.neg, o, inex) <==>
            !UnderflowMisjudged(x, a.prec, a.neg, rnd, env.emin)
    ensures var x := old(b.Magnitude()) + old(c.Magnitude());
            env.emin <= old(b.exp) ==> !UnderflowMisjudged(x, a.prec, a.neg, rnd, env.emin)
    ensures env.inexact == (old(env.inexact) || inex != 0)
    ensures var s := WithSign(a.neg, old(b.Magnitude()) + old(c.Magnitude()));
            && env.overflow == (old(env.overflow) || TooLarge(s, a.prec, rnd, env.emax))
            && env.underflow == (old(env.underflow) || TooSmall(s, a.prec, rnd, env.emin))
  {
    hide Val, BP, Frac, Pow2, R2, CorrectInRange, CorrectlyRounded, RoundsTo, Decided, Holding, Normalized, Sig, UnderflowMisjudged,
         CorrectSigned, TooLarge, TooSmall;
    var exp, diffExp, neg := b.exp, b.exp - c.exp, b.neg;
    var bp, cp := b.mant[..], c.mant[..];
    ghost var x := b.Magnitude() + c.Magnitude();
    NormalizedTop(bp, b.prec);
    NormalizedTop(cp, c.prec);
    SumFacts(bp, b.prec, cp, exp, c.exp, x);
    if env.emin <= exp { OrdinaryOperands(x, a.prec, neg, rnd, exp, env.emin, env.emax); }
    if exp > env.emax {
      R2Mono(env.emax, exp - 1);
      inex, o := OverflowAt(env, a, rnd, neg, x);
      SignedMeans(x, a.prec, rnd, neg, env.emin, env.emax, o, inex);
      return;
    }
    a.neg := neg;
    inex, o := AddSignificands(env, a, bp, cp, diffExp, exp, rnd, x);
    SignedMeans(x, a.prec, rnd, neg, env.emin, env.emax, o, inex);
  }

  lemma SumFacts(bp: seq<limb>, p: nat, cp: seq<limb>, eb: int, ec: int, x: real)
    requires Normalized(bp, p) && eb >= ec && x == Frac(bp) * R2(eb) + Frac(cp) * R2(ec)
    ensures x == SumFraction(bp, cp, eb - ec) * R2(eb)
    ensures x >= R2(eb - 1) > 0.0
  {
    hide Frac, R2, Normalized, SumFraction;
    SumIsExact(bp, cp, eb, ec);
    SumBounds(bp, p, cp, eb, ec);
  }

  /** add1.c:84-588. */
  method AddSignificands(env: Env, a: Mpfr, bp: seq<limb>, cp: seq<limb>, diffExp: nat, exp0: int, rnd: Mode, ghost x: real)
    returns (inex: int, ghost o: Outcome)
    requires a.Shape() && env.emin <= env.emax && exp0 <= env.emax
    requires |bp| > 0 && bp[|bp| - 1] >= HALF && |cp| > 0 && Val(cp) > 0
    requires x == SumFraction(bp, cp, diffExp) * R2(exp0) && x > 0.0
    modifies a, a.mant, env`inexact, env`overflow, env`underflow
    ensures a.neg == old(a.neg) && a.Holds(o)
    ensures CorrectInRange(x, a.prec, DirectionOf(rnd, a.neg), env.emin, env.emax, o, Signed(inex, a.neg)) <==>
            !UnderflowMisjudged(x, a.prec, a.neg, rnd, env.emin)
    ensures env.inexact == (old(env.inexact) || inex != 0)
    ensures env.overflow == (old(env.overflow) || TooLarge(WithSign(a.neg, x), a.prec, rnd, env.emax))
    ensures env.underflow == (old(env.underflow) || TooSmall(WithSign(a.neg, x), a.prec, rnd, env.emin))
  {
    hide Val, BP, Frac, Pow2, R2, CorrectInRange, CorrectlyRounded, RoundsTo, Decided, Holding, UnderflowMisjudged, SumFraction,
         CorrectSigned, TooLarge, TooSmall;
    var p, d := a.prec, DirectionOf(rnd, a.neg);
    var rb, fb, exp, ovf;
    ghost var au, y, s, t;
    rb, fb, exp, ovf, au, y := SumAndScan(a.mant, p, bp, cp, diffExp, exp0, env.emax, x);
    if ovf {
      inex, o := OverflowAt(env, a, rnd, a.neg, x);
      return;
    }
    DecidedAbove(a.mant[..], p, au, y, rb, fb);
    ghost var exp1 := exp;
    inex, exp, ovf, s, t := RoundA(a.mant, p, a.neg, d, rb, fb, exp, env.emax, au, y);
    ScaledRounding(x, y, p, d, exp1, s, t);
    if ovf {
      OverflowCorrect(x, p, d, NormSig(p, s), NormExp(p, s, exp1), t, env.emin, env.emax);
      JudgedElsewhere(x, p, a.neg, rnd, NormSig(p, s), NormExp(p, s, exp1), t, env.emin);
      ExponentDecides(x, p, rnd, a.neg, NormSig(p, s), NormExp(p, s, exp1), t, env.emin, env.emax);
      o := OverflowOutcome(p, d, env.emax).0;
      inex := Overflow(env, a, rnd, a.neg);
      return;
    }
    inex, o := SetExponent(env, a, rnd, exp, inex, x, NormSig(p, s), t);
  }

  /** The exact sum is too large whatever the rounding. */
  method OverflowAt(env: Env, a: Mpfr, rnd: Mode, neg: bool, ghost x: real) returns (inex: int, ghost o: Outcome)
    requires a.Shape() && env.emin <= env.emax && x >= R2(env.emax)
    modifies a, a.mant, env`inexact, env`overflow
    ensures a.neg == neg && a.Holds(o)
    ensures CorrectInRange(x, a.prec, DirectionOf(rnd, a.neg), env.emin, env.emax, o, Signed(inex, a.neg)) <==>
            !UnderflowMisjudged(x, a.prec, a.neg, rnd, env.emin)
    ensures env.inexact && inex != 0
    ensures TooLarge(WithSign(neg, x), a.prec, rnd, env.emax) && !TooSmall(WithSign(neg, x), a.prec, rnd, env.emin)
    ensures env.overflow
  {
    hide R2, Pow2, CorrectInRange, UnderflowMisjudged, CorrectSigned, TooLarge, TooSmall;
    LargeIsTooLarge(x, a.prec, rnd, neg, env.emin, env.emax);
    LargeOverflows(x, a.prec, DirectionOf(rnd, neg), env.emin, env.emax);
    OrdinaryOperands(x, a.prec, neg, rnd, env.emax + 1, env.emin, env.emax);
    o := OverflowOutcome(a.prec, DirectionOf(rnd, neg), env.emax).0;
    inex := Overflow(env, a, rnd, neg);
  }

  lemma DecidedAbove(s: seq<limb>, p: nat, au: int, y: real, rb: int, fb: int)
    requires Holding(s, p, au) && Decided(y, au, rb, fb)
    ensures p >= 1 && Pow2(p - 1) as real <= y < Pow2(p) as real
  {
    hide Val, Pow2;
    assert au as real >= Pow2(p - 1) as real;
    assert (au + 1) as real <= Pow2(p) as real;
  }

  /** The sum is at least half of the binade of b. */
  lemma SumBounds(bp: seq<limb>, p: nat, cp: seq<limb>, eb: int, ec: int)
    requires Normalized(bp, p)
    ensures Frac(bp) * R2(eb) + Frac(cp) * R2(ec) >= R2(eb - 1) > 0.0
  {
    hide Val, BP, Pow2, R2, Frac, Normalized;
    FracIsFloat(bp, p, eb);
    FracRange(cp);
    R2Step(eb - 1);
    R2Pos(ec);
    R2Pos(eb - 1);
    RealMono(0.5, Frac(bp), R2(eb));
    RealMono(0.0, Frac(cp), R2(ec));
  }

  lemma SumIsExact(bp: seq<limb>, cp: seq<limb>, eb: int, ec: int)
    requires eb >= ec
    ensures Frac(bp) * R2(eb) + Frac(cp) * R2(ec) == SumFraction(bp, cp, eb - ec) * R2(eb)
  {
    hide Frac, Pow2, R2;
    var k := eb - ec;
    R2Nat(k);
    R2Add(ec, k);
    ScaleDown(Frac(cp), R2(ec), Pow2(k) as real);
    RealExpand(Frac(bp), Frac(cp) / Pow2(k) as real, R2(eb));
  }

  lemma ScaleDown(x: real, r: real, d: real)
    requires d > 0.0
    ensures x / d * (r * d) == x * r
  {
    var q := x / d;
    assert q * d == x;
    RealRegroup2(q, d, r);
    RealComm(d, r);
  }
}

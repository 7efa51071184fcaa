/** Correct rounding within an exponent range, and the passage to it from a
    result rounded with unbounded exponents: MPFR's check of the range after
    rounding, which must not amount to rounding twice. */
module Range {
  import opened Powers
  import opened RealPowers
  import opened Rounding

  /** What a destination may hold after an operation on a nonzero exact value. */
  datatype Outcome = Zero | Infinite | Finite(m: int, e: int)

  predicate InRange(p: nat, emin: int, emax: int, o: Outcome) {
    o == Zero || (o.Finite? && IsSignificand(p, o.m) && emin <= o.e <= emax)
  }

  function ValueOf(p: nat, o: Outcome): real
    requires !o.Infinite?
  {
    if o == Zero then 0.0 else FloatValue(p, o.m, o.e)
  }

  /** The largest float with exponent emax. */
  function MaxFinite(p: nat, emax: int): real {
    FloatValue(p, Pow2(p) - 1, emax)
  }

  /** Which x are too large for the range. */
  predicate Overflows(x: real, p: nat, d: Direction, emax: int) {
    match d
    case TowardZero => false
    case AwayFromZero => x > MaxFinite(p, emax)
    case Nearest => x >= MaxFinite(p, emax) + R2(emax - p) / 2.0
  }

  /** Choosing o for x is at least as good as choosing another value o' of the
      range; halfway between zero and the smallest float, zero is chosen. */
  predicate BeatsInRange(x: real, p: nat, d: Direction, o: Outcome, o': Outcome)
    requires !o.Infinite? && !o'.Infinite?
  {
    var v, z := ValueOf(p, o), ValueOf(p, o');
    match d
    case TowardZero => z <= x ==> z <= v
    case AwayFromZero => z >= x ==> z >= v
    case Nearest =>
      && Dist(v, x) <= Dist(z, x)
      && (z != v && Dist(v, x) == Dist(z, x) ==>
            o == Zero || (o' != Zero && (o.m % 2 == 0 || (p == 1 && v > x))))
  }

  /** o is what direction d demands for x when only zero and the floats with
      exponents in [emin, emax] are available, and t is its ternary value. */
  ghost predicate CorrectInRange(x: real, p: nat, d: Direction, emin: int, emax: int, o: Outcome, t: int) {
    if Overflows(x, p, d, emax) then
      o == Infinite && t == 1
    else
      && InRange(p, emin, emax, o)
      && t == Sgn(ValueOf(p, o) - x)
      && OnSide(x, d, ValueOf(p, o))
      && forall o' :: InRange(p, emin, emax, o') ==> BeatsInRange(x, p, d, o, o')
  }

  // ---- what the code does ------------------------------------------------------

  /** mpfr_overflow. */
  function OverflowOutcome(p: nat, d: Direction, emax: int): (Outcome, int) {
    if d == TowardZero then (Finite(Pow2(p) - 1, emax), -1) else (Infinite, 1)
  }

  /** mpfr_underflow: in rounding to nearest it rounds away from zero. */
  function UnderflowOutcome(p: nat, d: Direction, emin: int): (Outcome, int)
    requires p >= 1
  {
    if d == TowardZero then (Zero, -1) else (Finite(Pow2(p - 1), emin), 1)
  }

  /** The direction handed to mpfr_underflow: toward zero when rounding to
      nearest a value that is at most 2^(emin-2). */
  function UnderflowDirection(p: nat, d: Direction, m: int, e: int, t: int, emin: int): Direction
    requires p >= 1
  {
    if d == Nearest && (e + 1 < emin || (m == Pow2(p - 1) && t >= 0)) then TowardZero else d
  }

  /** mpfr_check_range on a nonzero float, as a function on magnitudes. */
  function RangeOutcome(p: nat, d: Direction, m: int, e: int, t: int, emin: int, emax: int): (Outcome, int)
    requires p >= 1
  {
    if e < emin then UnderflowOutcome(p, UnderflowDirection(p, d, m, e, t, emin), emin)
    else if e > emax then OverflowOutcome(p, d, emax)
    else (Finite(m, e), t)
  }

  // ---- bounds of floats ----------------------------------------------------------

  /** 2^(e-1) <= float < 2^e, and how far below 2^e the largest one is. */
  lemma FloatBounds(p: nat, m: int, e: int)
    requires IsSignificand(p, m)
    ensures R2(e - 1) <= FloatValue(p, m, e) <= MaxFinite(p, e) == R2(e) - R2(e - p)
    ensures FloatValue(p, Pow2(p - 1), e) == R2(e - 1)
    ensures m > Pow2(p - 1) ==> FloatValue(p, m, e) > R2(e - 1)
    ensures m == Pow2(p) - 1 ==> FloatValue(p, m, e) == MaxFinite(p, e)
  {
    hide R2, Pow2;
    PowerProduct(p, e);
    PowerProduct(p - 1, e - 1);
    assert e - 1 - (p - 1) == e - p;
    var u := R2(e - p);
    RealMono(Pow2(p - 1) as real, m as real, u);
    RealMono(m as real, Pow2(p - 1) as real, u);
    assert m as real <= (Pow2(p) - 1) as real;
    RealMono(m as real, (Pow2(p) - 1) as real, u);
    RealSub(Pow2(p) as real, 1.0, u);
    assert (Pow2(p) - 1) as real == Pow2(p) as real - 1.0;
    Pow2Step(p - 1);
  }

  lemma PowerProduct(k: nat, e: int)
    ensures Pow2(k) as real * R2(e - k) == R2(e)
  {
    hide R2, Pow2;
    R2Nat(k);
    R2Add(k, e - k);
  }

  /** Every value of the range is zero or between the smallest and the largest float. */
  lemma RangeBounds(p: nat, emin: int, emax: int, o: Outcome)
    requires p >= 1 && InRange(p, emin, emax, o)
    ensures o == Zero ==> ValueOf(p, o) == 0.0
    ensures o != Zero ==> R2(emin - 1) <= ValueOf(p, o) <= MaxFinite(p, emax)
  {
    hide R2, Pow2, FloatValue;
    if o != Zero {
      FloatBounds(p, o.m, o.e);
      R2Mono(emin - 1, o.e - 1);
      if o.e < emax {
        MaxIsFloat(p);
        FloatBounds(p, Pow2(p) - 1, emax);
        R2Mono(o.e, emax - 1);
        R2Pos(o.e - p);
      }
    }
  }

  lemma MaxIsFloat(p: nat)
    requires p >= 1
    ensures IsSignificand(p, Pow2(p) - 1) && IsSignificand(p, Pow2(p - 1)) && (Pow2(p) - 1) % 2 == 1
  {
    Pow2Step(p - 1);
  }

  lemma HalfFloat(p: nat, m: int, e: int)
    ensures FloatValue(p, m, e) == 2.0 * FloatValue(p, m, e - 1)
  {
    hide R2;
    R2Step(e - 1 - p);
    assert e - 1 - p + 1 == e - p;
    RealTwice(m as real, R2(e - 1 - p));
    RealAssoc2(m as real, R2(e - 1 - p));
  }

  // ---- the three regions ------------------------------------------------------------

  /** Zero is no competitor of the nearest float. */
  lemma NotHalf(x: real, p: nat, m: int, e: int, t: int)
    requires x > 0.0 && CorrectlyRounded(x, p, Nearest, m, e, t)
    ensures Dist(FloatValue(p, m, e), x) < x
  {
    hide R2, Pow2, FloatValue;
    HalfFloat(p, m, e);
    FloatPos(p, m, e);
    assert Beats(x, p, Nearest, m, FloatValue(p, m, e), FloatValue(p, m, e - 1));
  }

  lemma FloatPos(p: nat, m: int, e: int)
    requires IsSignificand(p, m)
    ensures FloatValue(p, m, e) > 0.0
  {
    hide R2, Pow2;
    RealScale(m as real, R2(e - p), 0.0);
    RealProductPos(m as real, R2(e - p));
  }

  /** A float of the range, correct among all floats, is correct in the range. */
  lemma InsideCorrect(x: real, p: nat, d: Direction, m: int, e: int, t: int, emin: int, emax: int)
    requires x > 0.0 && CorrectlyRounded(x, p, d, m, e, t) && emin <= e <= emax
    ensures CorrectInRange(x, p, d, emin, emax, Finite(m, e), t)
  {
    hide R2, Pow2, FloatValue;
    var v := FloatValue(p, m, e);
    FloatPos(p, m, e);
    RangeBounds(p, emin, emax, Finite(m, e));
    MaxIsFloat(p);
    FloatBounds(p, Pow2(p) - 1, emax);
    FloatBounds(p, Pow2(p - 1), emax + 1);
    R2Pos(emax - p);
    assert Beats(x, p, d, m, v, FloatValue(p, Pow2(p) - 1, emax));
    assert Beats(x, p, d, m, v, FloatValue(p, Pow2(p - 1), emax + 1));
    if d == Nearest {
      NotHalf(x, p, m, e, t);
      if Overflows(x, p, d, emax) { OddTie(p, m, e, emax, x, t); }
    }
    forall o' | InRange(p, emin, emax, o')
      ensures BeatsInRange(x, p, d, Finite(m, e), o')
    {
      if o' != Zero { assert Beats(x, p, d, m, v, FloatValue(p, o'.m, o'.e)); }
    }
  }

  /** From halfway to 2^emax on, the nearest float is at least 2^emax. */
  lemma OddTie(p: nat, m: int, e: int, emax: int, x: real, t: int)
    requires x > 0.0 && CorrectlyRounded(x, p, Nearest, m, e, t) && e <= emax
    ensures !Overflows(x, p, Nearest, emax)
  {
    hide R2, Pow2, FloatValue;
    var v := FloatValue(p, m, e);
    MaxIsFloat(p);
    RangeBounds(p, e, emax, Finite(m, e));
    FloatBounds(p, Pow2(p) - 1, emax);
    FloatBounds(p, Pow2(p - 1), emax + 1);
    assert Beats(x, p, Nearest, m, v, FloatValue(p, Pow2(p - 1), emax + 1));
    if Overflows(x, p, Nearest, emax) && v == MaxFinite(p, emax) { SameFloat(p, m, e, emax); }
  }

  lemma SameFloat(p: nat, m: int, e: int, emax: int)
    requires IsSignificand(p, m) && e <= emax && FloatValue(p, m, e) == MaxFinite(p, emax)
    ensures m == Pow2(p) - 1
  {
    hide R2, Pow2;
    if e < emax {
      FloatBounds(p, m, e);
      MaxIsFloat(p);
      FloatBounds(p, Pow2(p) - 1, emax);
      R2Mono(e, emax - 1);
      R2Pos(e - p);
    } else {
      RealMono(m as real, (Pow2(p) - 1) as real, R2(emax - p));
    }
  }

  lemma OverflowCorrect(x: real, p: nat, d: Direction, m: int, e: int, t: int, emin: int, emax: int)
    requires x > 0.0 && CorrectlyRounded(x, p, d, m, e, t) && emin <= emax < e
    ensures var (o, t') := OverflowOutcome(p, d, emax); CorrectInRange(x, p, d, emin, emax, o, t')
  {
    hide R2, Pow2, FloatValue;
    var v := FloatValue(p, m, e);
    MaxIsFloat(p);
    FloatBounds(p, m, e);
    FloatBounds(p, Pow2(p) - 1, emax);
    R2Mono(emax, e - 1);
    R2Pos(emax - p);
    assert Beats(x, p, d, m, v, FloatValue(p, Pow2(p) - 1, emax));
    if d == TowardZero {
      forall o' | InRange(p, emin, emax, o')
        ensures BeatsInRange(x, p, d, Finite(Pow2(p) - 1, emax), o')
      {
        RangeBounds(p, emin, emax, o');
        R2Pos(emin - 1);
        R2Pos(emax - 1);
      }
    }
  }

  lemma UnderflowCorrect(x: real, p: nat, d: Direction, m: int, e: int, t: int, emin: int, emax: int)
    requires x > 0.0 && CorrectlyRounded(x, p, d, m, e, t) && e < emin <= emax
    ensures var (o, t') := UnderflowOutcome(p, UnderflowDirection(p, d, m, e, t, emin), emin);
            CorrectInRange(x, p, d, emin, emax, o, t')
  {
    hide R2, Pow2, FloatValue;
    BelowRange(x, p, d, m, e, t, emin, emax);
    if d == Nearest { HalfwayDecision(x, p, m, e, t, emin); }
    MaxIsFloat(p);
    FloatBounds(p, Pow2(p - 1), emin);
    R2Step(emin - 2);
    var o := UnderflowOutcome(p, UnderflowDirection(p, d, m, e, t, emin), emin).0;
    forall o' | InRange(p, emin, emax, o')
      ensures BeatsInRange(x, p, d, o, o')
    {
      RangeBounds(p, emin, emax, o');
    }
  }

  /** x is below the smallest float of the range. */
  lemma BelowRange(x: real, p: nat, d: Direction, m: int, e: int, t: int, emin: int, emax: int)
    requires x > 0.0 && CorrectlyRounded(x, p, d, m, e, t) && e < emin <= emax
    ensures x < R2(emin - 1)
    ensures !Overflows(x, p, d, emax)
  {
    hide R2, Pow2, FloatValue;
    var v := FloatValue(p, m, e);
    MaxIsFloat(p);
    FloatBounds(p, m, e);
    FloatBounds(p, Pow2(p - 1), emin);
    FloatBounds(p, Pow2(p) - 1, emax);
    R2Mono(e, emin - 1);
    R2Mono(emin - 1, emax - 1);
    R2Pos(emax - p);
    R2Pos(e - p);
    assert Beats(x, p, d, m, v, FloatValue(p, Pow2(p - 1), emin));
  }

  /** The test in the code finds out whether x <= 2^(emin-2). */
  lemma HalfwayDecision(x: real, p: nat, m: int, e: int, t: int, emin: int)
    requires x > 0.0 && CorrectlyRounded(x, p, Nearest, m, e, t) && e < emin
    ensures UnderflowDirection(p, Nearest, m, e, t, emin) == TowardZero <==> x <= R2(emin - 2)
  {
    hide R2, Pow2, FloatValue;
    var v := FloatValue(p, m, e);
    MaxIsFloat(p);
    FloatBounds(p, m, e);
    FloatBounds(p, Pow2(p - 1), emin - 1);
    R2Pos(e - p);
    assert Beats(x, p, Nearest, m, v, FloatValue(p, Pow2(p - 1), emin - 1));
    if e + 1 < emin { R2Mono(e, emin - 2); }
  }

  /** mpfr_check_range never rounds twice: from a result correct with unbounded
      exponents, and its ternary value, it obtains the result correct in the range. */
  lemma CheckRangeCorrect(x: real, p: nat, d: Direction, m: int, e: int, t: int, emin: int, emax: int)
    requires x > 0.0 && emin <= emax
    requires CorrectlyRounded(x, p, d, m, e, t)
    ensures var (o, t') := RangeOutcome(p, d, m, e, t, emin, emax); CorrectInRange(x, p, d, emin, emax, o, t')
  {
    if e < emin {
      UnderflowCorrect(x, p, d, m, e, t, emin, emax);
    } else if e > emax {
      OverflowCorrect(x, p, d, m, e, t, emin, emax);
    } else {
      InsideCorrect(x, p, d, m, e, t, emin, emax);
    }
  }

  /** An exact value of at least 2^emax overflows, whatever its rounding. */
  lemma LargeOverflows(x: real, p: nat, d: Direction, emin: int, emax: int)
    requires p >= 1 && emin <= emax && x >= R2(emax)
    ensures var (o, t) := OverflowOutcome(p, d, emax); CorrectInRange(x, p, d, emin, emax, o, t)
  {
    hide R2, Pow2, FloatValue;
    MaxIsFloat(p);
    FloatBounds(p, Pow2(p) - 1, emax);
    R2Pos(emax - p);
    R2Pos(emax - 1);
    forall o' | InRange(p, emin, emax, o')
      ensures d == TowardZero ==> BeatsInRange(x, p, d, Finite(Pow2(p) - 1, emax), o')
    {
      RangeBounds(p, emin, emax, o');
    }
  }

  /** Rounding to nearest just below the range, deciding the wrong way about an
      inexact 2^(emin-2) delivers the wrong neighbour. */
  lemma WrongHalfway(x: real, p: nat, t: int, emin: int, emax: int, d: Direction)
    requires p >= 1 && emin <= emax && x > 0.0 && t != 0
    requires CorrectlyRounded(x, p, Nearest, Pow2(p - 1), emin - 1, t)
    requires d == if t < 0 then TowardZero else Nearest
    ensures var (o, t') := UnderflowOutcome(p, d, emin); forall t'' :: !CorrectInRange(x, p, Nearest, emin, emax, o, t'')
  {
    hide R2, Pow2, FloatValue;
    MaxIsFloat(p);
    FloatBounds(p, Pow2(p - 1), emin - 1);
    FloatBounds(p, Pow2(p - 1), emin);
    R2Step(emin - 2);
    BelowRange(x, p, Nearest, Pow2(p - 1), emin - 1, t, emin, emax);
    var o := UnderflowOutcome(p, d, emin).0;
    forall t'' ensures !CorrectInRange(x, p, Nearest, emin, emax, o, t'') {
      assert InRange(p, emin, emax, Zero);
      assert InRange(p, emin, emax, Finite(Pow2(p - 1), emin));
      if t < 0 {
        assert !BeatsInRange(x, p, Nearest, o, Finite(Pow2(p - 1), emin));
      } else {
        assert !BeatsInRange(x, p, Nearest, o, Zero);
      }
    }
  }

  // ---- uniqueness -----------------------------------------------------------------------

  /** A value has one representation as a float of precision p. */
  lemma SameRepresentation(p: nat, m1: int, e1: int, m2: int, e2: int)
    requires IsSignificand(p, m1) && IsSignificand(p, m2)
    requires FloatValue(p, m1, e1) == FloatValue(p, m2, e2)
    ensures m1 == m2 && e1 == e2
  {
    hide R2, Pow2;
    FloatBounds(p, m1, e1);
    FloatBounds(p, m2, e2);
    R2Pos(e1 - p);
    R2Pos(e2 - p);
    if e1 < e2 { R2Mono(e1, e2 - 1); }
    if e2 < e1 { R2Mono(e2, e1 - 1); }
    RealMono(m1 as real, m2 as real, R2(e1 - p));
  }

  /** There is only one correct rounding. */
  lemma CorrectUnique(x: real, p: nat, d: Direction, m1: int, e1: int, t1: int, m2: int, e2: int, t2: int)
    requires CorrectlyRounded(x, p, d, m1, e1, t1) && CorrectlyRounded(x, p, d, m2, e2, t2)
    ensures m1 == m2 && e1 == e2 && t1 == t2
  {
    hide R2, Pow2, FloatValue;
    var v1, v2 := FloatValue(p, m1, e1), FloatValue(p, m2, e2);
    assert Beats(x, p, d, m1, v1, v2) && Beats(x, p, d, m2, v2, v1);
    if d == Nearest {
      NoTwoNearest(x, p, m1, e1, t1, m2, e2, t2);
      NoTwoNearest(x, p, m2, e2, t2, m1, e1, t1);
    }
    SameRepresentation(p, m1, e1, m2, e2);
  }

  /** Of two neighbours equally near to x, one has an odd significand. */
  lemma NoTwoNearest(x: real, p: nat, m1: int, e1: int, t1: int, m2: int, e2: int, t2: int)
    requires CorrectlyRounded(x, p, Nearest, m1, e1, t1) && CorrectlyRounded(x, p, Nearest, m2, e2, t2)
    ensures FloatValue(p, m1, e1) >= FloatValue(p, m2, e2)
  {
    hide R2, Pow2, FloatValue;
    var v1, v2 := FloatValue(p, m1, e1), FloatValue(p, m2, e2);
    if v1 < v2 {
      assert Beats(x, p, Nearest, m1, v1, v2) && Beats(x, p, Nearest, m2, v2, v1);
      assert v1 < x < v2 && m1 % 2 == 0;
      MaxIsFloat(p);
      var w := FloatValue(p, m1 + 1, e1);
      Successor(p, m1, e1);
      R2Pos(e1 - p);
      assert Beats(x, p, Nearest, m1, v1, w) && Beats(x, p, Nearest, m2, v2, w);
      FloatBounds(p, m1 + 1, e1);
      FloatBounds(p, m2, e2);
      FloatBounds(p, m1, e1);
      R2Pos(e2 - p);
      if e2 > e1 {
        R2Mono(e1, e2 - 1);
      } else if e2 < e1 {
        R2Mono(e2, e1 - 1);
      } else {
        SameBinade(p, m1, m2, e1);
        SameBinade(p, m2, m1 + 1, e1);
        OnePrecisionOdd(p, m2);
      }
    }
  }

  lemma Successor(p: nat, m: int, e: int)
    ensures FloatValue(p, m + 1, e) == FloatValue(p, m, e) + R2(e - p)
  {
    hide R2;
    RealSub((m + 1) as real, m as real, R2(e - p));
  }

  lemma SameBinade(p: nat, m1: int, m2: int, e: int)
    ensures FloatValue(p, m1, e) < FloatValue(p, m2, e) ==> m1 < m2
    ensures FloatValue(p, m1, e) <= FloatValue(p, m2, e) ==> m1 <= m2
  {
    hide R2;
    RealMono(m2 as real, m1 as real, R2(e - p));
    RealMono(m1 as real, m2 as real, R2(e - p));
  }

  lemma OnePrecisionOdd(p: nat, m: int)
    requires IsSignificand(p, m)
    ensures p == 1 ==> m == 1
  {}

  /** In the range, too, there is only one correct answer. */
  lemma OneAnswerInRange(x: real, p: nat, d: Direction, emin: int, emax: int, o: Outcome, t: int, o': Outcome, t': int)
    requires p >= 1 && CorrectInRange(x, p, d, emin, emax, o, t) && CorrectInRange(x, p, d, emin, emax, o', t')
    ensures o == o' && t == t'
  {
    hide R2, Pow2, FloatValue;
    if !Overflows(x, p, d, emax) {
      if ValueOf(p, o) < ValueOf(p, o') {
        NotLower(x, p, d, emin, emax, o, t, o', t');
      } else if ValueOf(p, o') < ValueOf(p, o) {
        NotLower(x, p, d, emin, emax, o', t', o, t);
      }
      SameValue(p, emin, emax, o, o');
    }
  }

  lemma SameValue(p: nat, emin: int, emax: int, o: Outcome, o': Outcome)
    requires InRange(p, emin, emax, o) && InRange(p, emin, emax, o') && ValueOf(p, o) == ValueOf(p, o')
    ensures o == o'
  {
    hide R2, Pow2, FloatValue;
    if o.Finite? { FloatPos(p, o.m, o.e); }
    if o'.Finite? { FloatPos(p, o'.m, o'.e); }
    if o.Finite? && o'.Finite? { SameRepresentation(p, o.m, o.e, o'.m, o'.e); }
  }

  lemma NotLower(x: real, p: nat, d: Direction, emin: int, emax: int, o: Outcome, t: int, o': Outcome, t': int)
    requires p >= 1 && !Overflows(x, p, d, emax)
    requires CorrectInRange(x, p, d, emin, emax, o, t) && CorrectInRange(x, p, d, emin, emax, o', t')
    requires InRange(p, emin, emax, o) && InRange(p, emin, emax, o')
    ensures ValueOf(p, o) >= ValueOf(p, o')
  {
    hide R2, Pow2, FloatValue, CorrectInRange;
    BeatsOther(x, p, d, emin, emax, o, t, o');
    BeatsOther(x, p, d, emin, emax, o', t', o);
    if ValueOf(p, o) < ValueOf(p, o') {
      if d == Nearest && o.Finite? && o'.Finite? {
        assert o.m % 2 == 0;
        MaxIsFloat(p);
        BetweenEven(p, o.m, o.e, o'.m, o'.e);
        BeatsOther(x, p, d, emin, emax, o, t, Finite(o.m + 1, o.e));
      }
    }
  }

  lemma BeatsOther(x: real, p: nat, d: Direction, emin: int, emax: int, o: Outcome, t: int, o': Outcome)
    requires !Overflows(x, p, d, emax) && CorrectInRange(x, p, d, emin, emax, o, t) && InRange(p, emin, emax, o')
    ensures BeatsInRange(x, p, d, o, o') && OnSide(x, d, ValueOf(p, o))
  {}

  /** Above an even significand there is an odd one, and it is not another even one. */
  lemma BetweenEven(p: nat, m1: int, e1: int, m2: int, e2: int)
    requires IsSignificand(p, m1) && IsSignificand(p, m2) && m1 % 2 == 0 && FloatValue(p, m1, e1) < FloatValue(p, m2, e2)
    requires m2 % 2 == 0 || p == 1
    ensures IsSignificand(p, m1 + 1) && FloatValue(p, m1, e1) < FloatValue(p, m1 + 1, e1) < FloatValue(p, m2, e2)
  {
    hide R2, Pow2, FloatValue;
    MaxIsFloat(p);
    Successor(p, m1, e1);
    R2Pos(e1 - p);
    FloatBounds(p, m1 + 1, e1);
    FloatBounds(p, m2, e2);
    FloatBounds(p, m1, e1);
    R2Pos(e2 - p);
    OnePrecisionOdd(p, m1);
    if e2 > e1 {
      R2Mono(e1, e2 - 1);
    } else if e2 < e1 {
      R2Mono(e2, e1 - 1);
    } else {
      SameBinade(p, m1, m2, e1);
      SameBinade(p, m2, m1 + 1, e1);
    }
  }
}

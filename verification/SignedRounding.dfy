/** Correct rounding told of signed numbers, each mode in its own words: which side
    of the exact number the result must lie on, and that no other number the
    destination can hold would be a better choice.  The other modules compute with
    magnitudes and directions; both descriptions are shown to agree. */
module SignedRounding {
  import opened Powers
  import opened RealPowers
  import opened Rounding
  import opened Range

  function WithSign(neg: bool, v: real): real { if neg then -v else v }

  function Abs(x: real): real { if x < 0.0 then -x else x }

  /** The float of precision p with significand m, exponent e and this sign. */
  function Float(p: nat, neg: bool, m: int, e: int): real { WithSign(neg, FloatValue(p, m, e)) }

  function Number(p: nat, neg: bool, o: Outcome): real
    requires !o.Infinite?
  {
    WithSign(neg, ValueOf(p, o))
  }

  /** Where the result v may lie for the exact number s. */
  predicate Allowed(mode: Mode, s: real, v: real) {
    match mode
    case RNDU => v >= s
    case RNDD => v <= s
    case RNDZ => Abs(v) <= Abs(s)
    case RNDA => Abs(v) >= Abs(s)
    case RNDN => true
  }

  /** w would have been a better choice for s than v. */
  predicate Better(mode: Mode, s: real, v: real, w: real) {
    match mode
    case RNDU => s <= w < v
    case RNDD => v < w <= s
    case RNDZ => Abs(v) < Abs(w) <= Abs(s)
    case RNDA => Abs(s) <= Abs(w) < Abs(v)
    case RNDN => Dist(w, s) < Dist(v, s)
  }

  /** w and v are two different nearest numbers. */
  predicate Tied(mode: Mode, s: real, v: real, w: real) {
    mode == RNDN && w != v && Dist(w, s) == Dist(v, s)
  }

  /** Exponents unbounded: the float (neg, m, e) is what the mode demands for s, and t
      is the sign of the float minus s.  Of two nearest floats the even one is taken;
      with one bit, where all significands are odd, the larger magnitude. */
  ghost predicate RoundedSigned(s: real, p: nat, mode: Mode, neg: bool, m: int, e: int, t: int) {
    && IsSignificand(p, m) && neg == (s < 0.0)
    && var v := Float(p, neg, m, e);
    && t == Sgn(v - s) && Allowed(mode, s, v)
    && forall neg', m', e' :: IsSignificand(p, m') ==>
         && !Better(mode, s, v, Float(p, neg', m', e'))
         && (Tied(mode, s, v, Float(p, neg', m', e')) ==> m % 2 == 0 || (p == 1 && Abs(v) > Abs(s)))
  }

  /** The exponent of s, rounded with unbounded exponents, is above emax. */
  ghost predicate TooLarge(s: real, p: nat, mode: Mode, emax: int) {
    exists neg, m, e, t :: RoundedSigned(s, p, mode, neg, m, e, t) && e > emax
  }

  /** The same exponent is below emin. */
  ghost predicate TooSmall(s: real, p: nat, mode: Mode, emin: int) {
    exists neg, m, e, t :: RoundedSigned(s, p, mode, neg, m, e, t) && e < emin
  }

  /** An infinity is what the mode demands for s: no number of the range is left on the
      side where the result must lie, or s is at least half an ulp above the largest. */
  ghost predicate InfinityDemanded(s: real, p: nat, mode: Mode, emin: int, emax: int, neg: bool) {
    match mode
    case RNDU => !neg && forall neg', o' :: InRange(p, emin, emax, o') ==> Number(p, neg', o') < s
    case RNDD => neg && forall neg', o' :: InRange(p, emin, emax, o') ==> Number(p, neg', o') > s
    case RNDZ => false
    case RNDA => forall neg', o' :: InRange(p, emin, emax, o') ==> Abs(Number(p, neg', o')) < Abs(s)
    case RNDN => Abs(s) >= MaxFinite(p, emax) + R2(emax - p) / 2.0
  }

  /** The tie rule within the range: zero wins against the smallest numbers. */
  predicate TieRule(p: nat, s: real, neg: bool, o: Outcome, o': Outcome)
    requires !o.Infinite?
  {
    o == Zero || (o' != Zero && (o.m % 2 == 0 || (p == 1 && Abs(Number(p, neg, o)) > Abs(s))))
  }

  /** The number (neg, o), which may be an infinity, is what the mode demands for s when
      only the floats of precision p with exponents in [emin, emax], of both signs,
      zeros and infinities are available; inex is the sign of that number minus s. */
  ghost predicate CorrectSigned(s: real, p: nat, mode: Mode, emin: int, emax: int, neg: bool, o: Outcome, inex: int) {
    && neg == (s < 0.0)
    && if o.Infinite? then
         inex == (if neg then -1 else 1) && InfinityDemanded(s, p, mode, emin, emax, neg)
       else
         && InRange(p, emin, emax, o)
         && var v := Number(p, neg, o);
         && inex == Sgn(v - s) && Allowed(mode, s, v)
         && (mode == RNDN ==> !InfinityDemanded(s, p, mode, emin, emax, neg))
         && forall neg', o' :: InRange(p, emin, emax, o') ==>
              && !Better(mode, s, v, Number(p, neg', o'))
              && (Tied(mode, s, v, Number(p, neg', o')) ==> TieRule(p, s, neg, o, o'))
  }

  // ---- the same by magnitudes and directions ------------------------------------------

  /** A number z of the sign of x, and one of the other sign, against the choice v. */
  lemma Compared(mode: Mode, neg: bool, x: real, v: real, z: real)
    requires x > 0.0 && v >= 0.0 && z >= 0.0
    ensures var s, v', w := WithSign(neg, x), WithSign(neg, v), WithSign(neg, z);
            match DirectionOf(mode, neg)
            case TowardZero => Better(mode, s, v', w) <==> !(z <= x ==> z <= v)
            case AwayFromZero => Better(mode, s, v', w) <==> !(z >= x ==> z >= v)
            case Nearest => (Better(mode, s, v', w) <==> Dist(z, x) < Dist(v, x)) && (Tied(mode, s, v', w) <==> z != v && Dist(v, x) == Dist(z, x))
    ensures DirectionOf(mode, neg) != Nearest ==> !Tied(mode, WithSign(neg, x), WithSign(neg, v), WithSign(neg, z))
    ensures OnSide(x, DirectionOf(mode, neg), v) <==> Allowed(mode, WithSign(neg, x), WithSign(neg, v))
  {}

  lemma ComparedOpposite(mode: Mode, neg: bool, x: real, v: real, z: real)
    requires x > 0.0 && v >= 0.0 && z > 0.0
    ensures var s, v', w, w' := WithSign(neg, x), WithSign(neg, v), WithSign(neg, z), WithSign(!neg, z);
            Allowed(mode, s, v') && !Better(mode, s, v', w) ==> !Better(mode, s, v', w') && !Tied(mode, s, v', w')
  {}

  lemma TernaryMeans(neg: bool, x: real, v: real, t: int)
    ensures t == Sgn(WithSign(neg, v) - WithSign(neg, x)) <==> (if neg then -t else t) == Sgn(v - x)
  {}

  /** Exponents unbounded, both descriptions agree. */
  lemma RoundedMeans(x: real, p: nat, mode: Mode, neg: bool, m: int, e: int, t: int)
    requires x > 0.0
    ensures RoundedSigned(WithSign(neg, x), p, mode, neg, m, e, t) <==>
            CorrectlyRounded(x, p, DirectionOf(mode, neg), m, e, if neg then -t else t)
  {
    hide R2, Pow2, FloatValue, IsSignificand, Better, Tied, Allowed, OnSide, Sgn, Dist;
    var s, d, v := WithSign(neg, x), DirectionOf(mode, neg), FloatValue(p, m, e);
    if IsSignificand(p, m) {
      FloatPos(p, m, e);
      TernaryMeans(neg, x, v, t);
      Compared(mode, neg, x, v, v);
      if RoundedSigned(s, p, mode, neg, m, e, t) {
        forall m', e' | IsSignificand(p, m') ensures Beats(x, p, d, m, v, FloatValue(p, m', e')) {
          FloatPos(p, m', e');
          assert !Better(mode, s, Float(p, neg, m, e), Float(p, neg, m', e'));
          Compared(mode, neg, x, v, FloatValue(p, m', e'));
        }
      }
      if CorrectlyRounded(x, p, d, m, e, if neg then -t else t) {
        forall neg', m', e' | IsSignificand(p, m')
          ensures !Better(mode, s, Float(p, neg, m, e), Float(p, neg', m', e'))
          ensures Tied(mode, s, Float(p, neg, m, e), Float(p, neg', m', e')) ==>
                    m % 2 == 0 || (p == 1 && Abs(Float(p, neg, m, e)) > Abs(s))
        {
          FloatPos(p, m', e');
          assert Beats(x, p, d, m, v, FloatValue(p, m', e'));
          Compared(mode, neg, x, v, FloatValue(p, m', e'));
          ComparedOpposite(mode, neg, x, v, FloatValue(p, m', e'));
        }
      }
    }
  }

  /** The largest number of the range is one of its numbers. */
  lemma LargestOfRange(p: nat, emin: int, emax: int)
    requires p >= 1 && emin <= emax
    ensures InRange(p, emin, emax, Finite(Pow2(p) - 1, emax)) && ValueOf(p, Finite(Pow2(p) - 1, emax)) == MaxFinite(p, emax)
    ensures MaxFinite(p, emax) > 0.0
    ensures forall o' :: InRange(p, emin, emax, o') ==> 0.0 <= ValueOf(p, o') <= MaxFinite(p, emax)
  {
    hide R2, Pow2, FloatValue;
    MaxIsFloat(p);
    FloatPos(p, Pow2(p) - 1, emax);
    R2Pos(emin - 1);
    forall o' | InRange(p, emin, emax, o') ensures 0.0 <= ValueOf(p, o') <= MaxFinite(p, emax) {
      RangeBounds(p, emin, emax, o');
    }
  }

  /** An infinity is demanded for exactly the numbers too large for the direction. */
  lemma InfinityMeans(x: real, p: nat, mode: Mode, neg: bool, emin: int, emax: int)
    requires x > 0.0 && p >= 1 && emin <= emax
    ensures InfinityDemanded(WithSign(neg, x), p, mode, emin, emax, neg) <==> Overflows(x, p, DirectionOf(mode, neg), emax)
  {
    hide R2, Pow2, FloatValue, MaxFinite;
    LargestOfRange(p, emin, emax);
    var largest := Finite(Pow2(p) - 1, emax);
    assert Number(p, neg, largest) == WithSign(neg, MaxFinite(p, emax));
  }

  /** Within the range, too. */
  lemma SignedMeans(x: real, p: nat, mode: Mode, neg: bool, emin: int, emax: int, o: Outcome, inex: int)
    requires x > 0.0 && p >= 1 && emin <= emax
    ensures CorrectSigned(WithSign(neg, x), p, mode, emin, emax, neg, o, inex) <==>
            CorrectInRange(x, p, DirectionOf(mode, neg), emin, emax, o, if neg then -inex else inex)
  {
    hide R2, Pow2, FloatValue, IsSignificand, Better, Tied, Allowed, OnSide, Sgn, Dist, InfinityDemanded, MaxFinite, ValueOf, Overflows,
         TieRule, BeatsInRange;
    var s, d := WithSign(neg, x), DirectionOf(mode, neg);
    InfinityMeans(x, p, mode, neg, emin, emax);
    LargestOfRange(p, emin, emax);
    if !o.Infinite? && InRange(p, emin, emax, o) {
      var v := ValueOf(p, o);
      TernaryMeans(neg, x, v, inex);
      Compared(mode, neg, x, v, v);
      AllowedBelow(mode, neg, x, v, p, emin, emax, o);
      if CorrectSigned(s, p, mode, emin, emax, neg, o, inex) {
        forall o' | InRange(p, emin, emax, o') ensures BeatsInRange(x, p, d, o, o') {
          assert !Better(mode, s, Number(p, neg, o), Number(p, neg, o'));
          NoBetter(x, p, mode, neg, emin, emax, o, o');
        }
      }
      if CorrectInRange(x, p, d, emin, emax, o, if neg then -inex else inex) {
        forall neg', o' | InRange(p, emin, emax, o')
          ensures !Better(mode, s, Number(p, neg, o), Number(p, neg', o'))
          ensures Tied(mode, s, Number(p, neg, o), Number(p, neg', o')) ==> TieRule(p, s, neg, o, o')
        {
          assert BeatsInRange(x, p, d, o, o');
          NoBetter(x, p, mode, neg, emin, emax, o, o');
          NoBetterOpposite(x, p, mode, neg, emin, emax, o, o');
        }
      }
    }
  }

  /** On the side where it must lie there is a number of the range only if no infinity
      is demanded. */
  lemma AllowedBelow(mode: Mode, neg: bool, x: real, v: real, p: nat, emin: int, emax: int, o: Outcome)
    requires x > 0.0 && p >= 1 && emin <= emax && InRange(p, emin, emax, o) && v == ValueOf(p, o)
    ensures OnSide(x, DirectionOf(mode, neg), v) && mode != RNDN ==> !Overflows(x, p, DirectionOf(mode, neg), emax)
  {
    hide R2, Pow2, FloatValue, IsSignificand, MaxFinite, InRange, ValueOf;
    LargestOfRange(p, emin, emax);
  }

  lemma NoBetter(x: real, p: nat, mode: Mode, neg: bool, emin: int, emax: int, o: Outcome, o': Outcome)
    requires x > 0.0 && p >= 1 && emin <= emax && InRange(p, emin, emax, o) && InRange(p, emin, emax, o')
    ensures var s, v, w := WithSign(neg, x), Number(p, neg, o), Number(p, neg, o');
            BeatsInRange(x, p, DirectionOf(mode, neg), o, o') <==> !Better(mode, s, v, w) && (Tied(mode, s, v, w) ==> TieRule(p, s, neg, o, o'))
  {
    hide R2, Pow2, FloatValue, Better, Tied, Allowed, OnSide, Sgn, Dist;
    LargestOfRange(p, emin, emax);
    Compared(mode, neg, x, ValueOf(p, o), ValueOf(p, o'));
  }

  lemma NoBetterOpposite(x: real, p: nat, mode: Mode, neg: bool, emin: int, emax: int, o: Outcome, o': Outcome)
    requires x > 0.0 && p >= 1 && emin <= emax && InRange(p, emin, emax, o) && InRange(p, emin, emax, o')
    ensures var s, v, w, w' := WithSign(neg, x), Number(p, neg, o), Number(p, neg, o'), Number(p, !neg, o');
            Allowed(mode, s, v) && !Better(mode, s, v, w) ==> !Better(mode, s, v, w') && (Tied(mode, s, v, w') ==> Tied(mode, s, v, w))
  {
    hide R2, Pow2, FloatValue, Better, Tied, Allowed, Sgn, Dist;
    LargestOfRange(p, emin, emax);
    if ValueOf(p, o') > 0.0 { ComparedOpposite(mode, neg, x, ValueOf(p, o), ValueOf(p, o')); }
  }

  /** There is only one correct answer. */
  lemma OnlyAnswer(x: real, p: nat, mode: Mode, neg: bool, emin: int, emax: int, o: Outcome, inex: int, o': Outcome, inex': int)
    requires x > 0.0 && p >= 1 && emin <= emax
    requires CorrectSigned(WithSign(neg, x), p, mode, emin, emax, neg, o, inex)
    requires CorrectSigned(WithSign(neg, x), p, mode, emin, emax, neg, o', inex')
    ensures o == o' && inex == inex'
  {
    hide CorrectSigned, CorrectInRange;
    SignedMeans(x, p, mode, neg, emin, emax, o, inex);
    SignedMeans(x, p, mode, neg, emin, emax, o', inex');
    OneAnswerInRange(x, p, DirectionOf(mode, neg), emin, emax, o, if neg then -inex else inex, o', if neg then -inex' else inex');
  }

  // ---- the exponent of the rounding with unbounded exponents --------------------------

  /** Every positive number lies in a binade. */
  lemma Binade(x: real) returns (e: int)
    requires x > 0.0
    ensures R2(e - 1) <= x < R2(e)
  {
    hide R2, Pow2;
    var hi := Above(x);
    var lo: int := Above(1.0 / x);
    R2Add(lo, -lo);
    R2Small();
    Reciprocal(x, R2(lo), R2(-lo));
    e := BinadeBelow(x, -lo, hi);
  }

  lemma Reciprocal(x: real, u: real, v: real)
    requires x > 0.0 && u > 0.0 && v > 0.0 && 1.0 / x < u && u * v == 1.0
    ensures v <= x
  {
    var q := 1.0 / x;
    assert q * x == 1.0;
    RealMono(u, q, x);
    if v > x { RealMono(v, x, u); RealComm(x, u); RealComm(u, v); }
  }

  lemma Above(x: real) returns (n: nat)
    ensures x < R2(n)
  {
    hide R2;
    n := if x < 0.0 then 0 else x.Floor + 1;
    R2Nat(n);
    BelowPower(n);
  }

  lemma {:induction false} BelowPower(n: nat)
    ensures n < Pow2(n)
  {
    if n > 0 { BelowPower(n - 1); }
  }

  lemma {:induction false} BinadeBelow(x: real, lo: int, hi: int) returns (e: int)
    requires R2(lo) <= x < R2(hi)
    ensures R2(e - 1) <= x < R2(e)
    decreases if hi > lo then hi - lo else 0
  {
    hide R2;
    if hi <= lo { R2Mono(hi, lo); }
    if R2(hi - 1) <= x { e := hi; } else { e := BinadeBelow(x, lo, hi - 1); }
  }

  /** Every positive number has a correct rounding. */
  lemma RoundingExists(x: real, p: nat, d: Direction) returns (m: int, e: int, t: int)
    requires x > 0.0 && p >= 1
    ensures CorrectlyRounded(x, p, d, m, e, t)
  {
    hide R2, Pow2, RoundsTo, CorrectlyRounded, NormSig, NormExp;
    var e0 := Binade(x);
    var u := R2(e0 - p);
    var y := x / u;
    PowerProduct(p, e0);
    PowerProduct(p - 1, e0 - 1);
    assert e0 - 1 - (p - 1) == e0 - p;
    assert y * u == x;
    RealMono(Pow2(p - 1) as real, y, u);
    RealMono(Pow2(p) as real, y, u);
    assert Pow2(p - 1) as real <= y < Pow2(p) as real;
    var s;
    s, t := IntegerRounding(y, d);
    ScaledRounding(x, y, p, d, e0, s, t);
    m, e := NormSig(p, s), NormExp(p, s, e0);
  }

  lemma IntegerRounding(y: real, d: Direction) returns (s: int, t: int)
    ensures RoundsTo(y, d, s, t)
  {
    var f := y.Floor;
    match d {
      case TowardZero => s := f;
      case AwayFromZero => s := if f as real == y then f else f + 1;
      case Nearest => s := if y - f as real < 0.5 || (y - f as real == 0.5 && f % 2 == 0) then f else f + 1;
    }
    t := Sgn(s as real - y);
  }

  /** The flags of an operation follow from the exponent of its unbounded rounding. */
  lemma ExponentDecides(x: real, p: nat, mode: Mode, neg: bool, m: int, e: int, t: int, emin: int, emax: int)
    requires x > 0.0 && CorrectlyRounded(x, p, DirectionOf(mode, neg), m, e, t)
    ensures TooLarge(WithSign(neg, x), p, mode, emax) <==> e > emax
    ensures TooSmall(WithSign(neg, x), p, mode, emin) <==> e < emin
  {
    hide R2, Pow2, CorrectlyRounded, RoundedSigned;
    var s, d := WithSign(neg, x), DirectionOf(mode, neg);
    RoundedMeans(x, p, mode, neg, m, e, if neg then -t else t);
    forall neg', m', e', t' | RoundedSigned(s, p, mode, neg', m', e', t') ensures e' == e {
      SignOf(s, p, mode, neg', m', e', t');
      RoundedMeans(x, p, mode, neg, m', e', t');
      CorrectUnique(x, p, d, m, e, t, m', e', if neg then -t' else t');
    }
  }

  lemma SignOf(s: real, p: nat, mode: Mode, neg: bool, m: int, e: int, t: int)
    requires RoundedSigned(s, p, mode, neg, m, e, t)
    ensures neg == (s < 0.0)
  {}

  /** A number of at least 2^emax is too large whatever the mode. */
  lemma LargeIsTooLarge(x: real, p: nat, mode: Mode, neg: bool, emin: int, emax: int)
    requires p >= 1 && emin <= emax && x >= R2(emax)
    ensures TooLarge(WithSign(neg, x), p, mode, emax) && !TooSmall(WithSign(neg, x), p, mode, emin)
  {
    hide R2, Pow2, FloatValue, TooLarge, TooSmall;
    R2Pos(emax);
    var d := DirectionOf(mode, neg);
    var m, e, t := RoundingExists(x, p, d);
    ExponentDecides(x, p, mode, neg, m, e, t, emin, emax);
    MaxIsFloat(p);
    FloatBounds(p, m, e);
    FloatBounds(p, Pow2(p - 1), emax + 1);
    R2Pos(e - p);
    assert Beats(x, p, d, m, FloatValue(p, m, e), FloatValue(p, Pow2(p - 1), emax + 1));
    if e <= emax { R2Mono(e, emax); }
  }
}

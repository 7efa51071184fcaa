/** What it means to round a positive real number correctly to p bits, first
    with unbounded exponents, then within an exponent range.

    A float of precision p is m * 2^(e - p) with 2^(p-1) <= m < 2^p, so that e
    is the exponent in MPFR's sense: 2^(e-1) <= value < 2^e. */
module Rounding {
  import opened Powers
  import opened RealPowers

  /** The rounding modes of the library, RNDF excepted. */
  datatype Mode = RNDN | RNDZ | RNDU | RNDD | RNDA

  /** The rounding of a magnitude, once the sign has been taken into account. */
  datatype Direction = Nearest | TowardZero | AwayFromZero

  /** MPFR_UPDATE2_RND_MODE: the direction for the magnitude. */
  function DirectionOf(mode: Mode, neg: bool): Direction {
    match mode
    case RNDN => Nearest
    case RNDZ => TowardZero
    case RNDA => AwayFromZero
    case RNDU => if neg then TowardZero else AwayFromZero
    case RNDD => if neg then AwayFromZero else TowardZero
  }

  /** MPFR_INVERT_RND. */
  function Invert(mode: Mode): Mode {
    match mode
    case RNDU => RNDD
    case RNDD => RNDU
    case _ => mode
  }

  function Sgn(x: real): int {
    if x < 0.0 then -1 else if x > 0.0 then 1 else 0
  }

  function Dist(x: real, y: real): real {
    if x < y then y - x else x - y
  }

  // ---- floats and correct rounding, exponents unbounded ------------------------

  predicate IsSignificand(p: nat, m: int) {
    p >= 1 && Pow2(p - 1) <= m < Pow2(p)
  }

  function FloatValue(p: nat, m: int, e: int): real {
    m as real * R2(e - p)
  }

  /** The value v of significand m is at least as good a choice for x, in
      direction d, as the value z of another float. */
  predicate Beats(x: real, p: nat, d: Direction, m: int, v: real, z: real) {
    match d
    case TowardZero => z <= x ==> z <= v
    case AwayFromZero => z >= x ==> z >= v
    case Nearest =>
      && Dist(v, x) <= Dist(z, x)
      && (z != v && Dist(v, x) == Dist(z, x) ==> m % 2 == 0 || (p == 1 && v > x))
  }

  /** On which side of x a directed rounding must lie. */
  predicate OnSide(x: real, d: Direction, v: real) {
    && (d == TowardZero ==> v <= x)
    && (d == AwayFromZero ==> v >= x)
  }

  /** (m, e) is the float of precision p that direction d demands for x, and t
      is the ternary value: the sign of (float - x).  Nothing is assumed about
      how it was computed: it is compared with every float of precision p. */
  ghost predicate CorrectlyRounded(x: real, p: nat, d: Direction, m: int, e: int, t: int) {
    && IsSignificand(p, m)
    && t == Sgn(FloatValue(p, m, e) - x)
    && OnSide(x, d, FloatValue(p, m, e))
    && forall m', e' :: IsSignificand(p, m') ==> Beats(x, p, d, m, FloatValue(p, m, e), FloatValue(p, m', e'))
  }

  /** Rounding of y >= 0 to an integer. */
  predicate RoundsTo(y: real, d: Direction, s: int, t: int) {
    && t == Sgn(s as real - y)
    && match d
       case TowardZero => s as real <= y < s as real + 1.0
       case AwayFromZero => s as real - 1.0 < y <= s as real
       case Nearest => Dist(s as real, y) <= 0.5 && (Dist(s as real, y) == 0.5 ==> s % 2 == 0)
  }

  /** Where another float lies, in units in the last place of the binade E. */
  lemma OtherFloat(p: nat, bigE: int, m: int, e: int) returns (z: real)
    requires IsSignificand(p, m)
    ensures FloatValue(p, m, e) == z * R2(bigE - p)
    ensures z == m as real || z >= Pow2(p) as real || z < Pow2(p - 1) as real
  {
    hide R2, Pow2;
    R2Add(bigE - p, e - bigE);
    var f := R2(e - bigE);
    z := m as real * f;
    RealSwap(m as real, f, R2(bigE - p));
    R2Small();
    Pow2Step(p - 1);
    if e > bigE { R2Mono(1, e - bigE); }
    if e < bigE { R2Mono(e - bigE, -1); }
    Position(m, f, Pow2(p - 1), Pow2(p));
  }

  lemma Position(m: int, f: real, lo: int, hi: int)
    requires 1 <= lo <= m < hi == 2 * lo
    ensures f >= 2.0 ==> m as real * f >= hi as real
    ensures f <= 0.5 ==> m as real * f < lo as real
    ensures f == 1.0 ==> m as real * f == m as real
  {
    RealScale(m as real, f, 2.0);
    RealScale(m as real, f, 0.5);
    assert hi as real == 2.0 * (lo as real);
  }

  lemma UnitOrder(x: real, y: real, u: real)
    requires u > 0.0
    ensures Dist(x * u, y * u) == Dist(x, y) * u
    ensures Sgn(x * u - y * u) == Sgn(x - y)
    ensures x <= y <==> x * u <= y * u
    ensures y <= x <==> y * u <= x * u
  {
    RealMono(x, y, u);
    RealMono(y, x, u);
    RealSub(x, y, u);
    RealSub(y, x, u);
  }

  function NormSig(p: nat, s: int): int { if p >= 1 && s == Pow2(p) then Pow2(p - 1) else s }
  function NormExp(p: nat, s: int, e: int): int { if s == Pow2(p) then e + 1 else e }

  lemma NormValue(p: nat, s: int, e: int)
    requires p >= 1
    ensures FloatValue(p, NormSig(p, s), NormExp(p, s, e)) == s as real * R2(e - p)
  {
    hide R2, Pow2;
    if s == Pow2(p) {
      R2Step(e - p);
      Pow2Step(p - 1);
      assert e + 1 - p == e - p + 1;
      RealTwice(Pow2(p - 1) as real, R2(e - p));
    }
  }

  /** Rounding in units in the last place of the binade of x is rounding among
      all floats, also when the rounded significand reaches 2^p. */
  lemma ScaledRounding(x: real, y: real, p: nat, d: Direction, e: int, s: int, t: int)
    requires p >= 1 && x == y * R2(e - p)
    requires Pow2(p - 1) as real <= y < Pow2(p) as real
    requires RoundsTo(y, d, s, t)
    ensures CorrectlyRounded(x, p, d, NormSig(p, s), NormExp(p, s, e), t)
  {
    hide R2, Pow2, Beats, FloatValue;
    var u := R2(e - p);
    var m, e1 := NormSig(p, s), NormExp(p, s, e);
    SignificandRange(y, p, d, s, t);
    NormValue(p, s, e);
    UnitOrder(s as real, y, u);
    forall m', e' | IsSignificand(p, m')
      ensures Beats(x, p, d, m, FloatValue(p, m, e1), FloatValue(p, m', e'))
    {
      var z := OtherFloat(p, e, m', e');
      BeatsInUnits(y, p, d, s, t, z, u, m');
      assert x == y * u && FloatValue(p, m, e1) == s as real * u;
      assert FloatValue(p, m', e') == z * u;
    }
  }

  lemma SignificandRange(y: real, p: nat, d: Direction, s: int, t: int)
    requires p >= 1 && Pow2(p - 1) as real <= y < Pow2(p) as real
    requires RoundsTo(y, d, s, t)
    ensures Pow2(p - 1) <= s <= Pow2(p)
    ensures IsSignificand(p, NormSig(p, s))
  {
    hide Pow2;
    Pow2Step(p - 1);
    IntLt(Pow2(p - 1), s + 1);
    IntLt(s, Pow2(p) + 1);
  }

  lemma EvenSignificand(p: nat, s: int)
    ensures p >= 2 && s % 2 == 0 ==> NormSig(p, s) % 2 == 0
  {
    if p >= 2 { assert Pow2(p - 1) == 2 * Pow2(p - 2); }
  }

  lemma DirectedBeats(y: real, p: nat, d: Direction, s: int, z: real, u: real, m': int)
    requires p >= 1 && u > 0.0 && Pow2(p - 1) as real <= y < Pow2(p) as real && d != Nearest
    requires if d == TowardZero then s as real <= y < s as real + 1.0 else s as real - 1.0 < y <= s as real
    requires z == m' as real || z >= Pow2(p) as real || z < Pow2(p - 1) as real
    ensures Beats(y * u, p, d, NormSig(p, s), s as real * u, z * u)
  {
    hide Pow2, NormSig, Dist, Sgn;
    BestDirected(y, s, z, m', Pow2(p - 1), Pow2(p));
    UnitOrder(z, y, u);
    UnitOrder(z, s as real, u);
  }

  lemma NearestBeats(y: real, p: nat, s: int, z: real, u: real, m': int)
    requires p >= 1 && u > 0.0 && Pow2(p - 1) as real <= y < Pow2(p) as real
    requires Dist(s as real, y) <= 0.5 && (Dist(s as real, y) == 0.5 ==> s % 2 == 0)
    requires z == m' as real || z >= Pow2(p) as real || z < Pow2(p - 1) as real
    ensures Beats(y * u, p, Nearest, NormSig(p, s), s as real * u, z * u)
  {
    hide Pow2, NormSig, Dist, Sgn;
    BestNearest(y, s, z, m', Pow2(p - 1), Pow2(p));
    NearestInUnits(y, s, z, u);
    EvenSignificand(p, s);
    OnePrecision(p, y, s);
    UnitOrder(s as real, y, u);
  }

  lemma BeatsInUnits(y: real, p: nat, d: Direction, s: int, t: int, z: real, u: real, m': int)
    requires p >= 1 && u > 0.0 && Pow2(p - 1) as real <= y < Pow2(p) as real
    requires RoundsTo(y, d, s, t)
    requires z == m' as real || z >= Pow2(p) as real || z < Pow2(p - 1) as real
    ensures Beats(y * u, p, d, NormSig(p, s), s as real * u, z * u)
  {
    hide Pow2, NormSig, Dist, Sgn;
    match d {
      case Nearest =>
        NearestBeats(y, p, s, z, u, m');
      case _ =>
        DirectedBeats(y, p, d, s, z, u, m');
    }
  }

  /** At precision 1 a tie rounds up: 1 is odd, 2 is even. */
  lemma OnePrecision(p: nat, y: real, s: int)
    requires 1 <= p && Pow2(p - 1) as real <= y < Pow2(p) as real
    ensures p == 1 && Dist(s as real, y) == 0.5 && s % 2 == 0 ==> s as real > y
  {
    if p == 1 && Dist(s as real, y) == 0.5 && s % 2 == 0 && s as real <= y {
      assert Pow2(0) == 1 && Pow2(1) == 2;
      IntLt(0, s);
      IntLt(s, 2);
    }
  }

  lemma BestDirected(y: real, s: int, z: real, m': int, lo: int, hi: int)
    requires lo as real <= y < hi as real
    requires z == m' as real || z >= hi as real || z < lo as real
    ensures s as real <= y < s as real + 1.0 && z <= y ==> z <= s as real
    ensures s as real - 1.0 < y <= s as real && z >= y ==> z >= s as real
  {
    if s as real <= y < s as real + 1.0 && z <= y {
      IntLt(lo, s + 1);
      if z == m' as real { IntLt(m', s + 1); }
    }
    if s as real - 1.0 < y <= s as real && z >= y {
      IntLt(s - 1, hi);
      if z == m' as real { IntLt(s - 1, m'); }
    }
  }

  lemma BestNearest(y: real, s: int, z: real, m': int, lo: int, hi: int)
    requires lo as real <= y < hi as real
    requires z == m' as real || z >= hi as real || z < lo as real
    requires Dist(s as real, y) <= 0.5
    ensures z == s as real || z >= s as real + 1.0 || z <= s as real - 1.0 || Dist(z, y) > Dist(s as real, y)
    ensures Dist(s as real, y) <= Dist(z, y)
    ensures z != s as real && Dist(s as real, y) == Dist(z, y) ==> Dist(s as real, y) == 0.5
  {
    IntLt(lo, s + 1);
    IntLt(s, hi + 1);
    if s as real < y && z > s as real {
      if z == m' as real { IntLt(s, m'); } else if z >= hi as real { IntLt(s, hi); }
    } else if s as real > y && z < s as real {
      if z == m' as real { IntLt(m', s); } else if z < lo as real { IntLt(lo, s); }
    }
  }

  lemma NearestInUnits(y: real, s: int, z: real, u: real)
    requires u > 0.0
    requires Dist(s as real, y) <= Dist(z, y)
    ensures Dist(s as real * u, y * u) <= Dist(z * u, y * u)
    ensures Dist(s as real * u, y * u) == Dist(z * u, y * u) ==> Dist(s as real, y) == Dist(z, y)
    ensures z * u == s as real * u <==> z == s as real
  {
    hide Dist, Sgn;
    UnitOrder(s as real, y, u);
    UnitOrder(z, y, u);
    UnitOrder(z, s as real, u);
    RealMono(Dist(s as real, y), Dist(z, y), u);
    RealMono(Dist(z, y), Dist(s as real, y), u);
  }

  lemma SgnOrder(x: real, y: real)
    ensures Sgn(x - y) == 1 <==> x > y
    ensures Sgn(x - y) == 0 <==> x == y
    ensures Sgn(x - y) == -1 <==> x < y
  {}
}

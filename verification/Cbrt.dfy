/** cbrt.c: the cube root by an integer cube root of n bits, where n is the
    precision, plus one for rounding to nearest. */
module Cbrt {
  import opened Powers
  import opened RealPowers
  import opened Limbs
  import opened Rounding
  import opened Range
  import opened Numbers
  import opened Exceptions
  import opened SignedRounding
  import opened Streams

  function Cube(s: int): int { s * s * s }

  function RealCube(z: real): real { z * z * z }

  lemma CubeMono(a: int, b: int)
    requires 0 <= a < b
    ensures Cube(a) < Cube(b)
  {
    MulStrict(a, b, b);
    MulMono(0, a, a);
    MulMono(a, b, a);
    MulComm(a, b);
    MulMono(a * a, b * b, a);
    MulMono(1, b * b, b * b);
    MulStrict(a, b, b * b);
    MulComm(a, b * b);
    MulComm(b, b * b);
  }

  lemma RealCubeMono(a: real, b: real)
    requires 0.0 <= a && 0.0 <= b
    ensures a < b <==> RealCube(a) < RealCube(b)
    ensures a == b <==> RealCube(a) == RealCube(b)
  {
    if a < b { RealCubeStrict(a, b); }
    if b < a { RealCubeStrict(b, a); }
  }

  lemma RealCubeStrict(a: real, b: real)
    requires 0.0 <= a < b
    ensures RealCube(a) < RealCube(b)
  {
    StrictProduct(a, b, a * a, b * b);
  }

  lemma StrictProduct(a: real, b: real, a2: real, b2: real)
    requires 0.0 <= a < b && a2 == a * a && b2 == b * b
    ensures a2 * a < b2 * b
  {
    assert 0.0 <= a2 <= b2 && b2 > 0.0;
    StrictFactor(a, b, a2, b2);
  }

  lemma StrictFactor(a: real, b: real, a2: real, b2: real)
    requires 0.0 <= a < b && 0.0 <= a2 <= b2 && b2 > 0.0
    ensures a2 * a < b2 * b
  {
    assert a2 * a <= b2 * a;
    assert b2 * a < b2 * b;
  }

  /** mpz_root (s, m, 3): the integer cube root; is it exact? */
  method Root(m: nat) returns (s: nat, exact: bool)
    ensures Cube(s) <= m < Cube(s + 1) && (exact <==> Cube(s) == m)
  {
    hide Cube;
    s := 0;
    Cubes();
    while Cube(s + 1) <= m
      invariant Cube(s) <= m
      decreases m - Cube(s)
    {
      CubeMono(s, s + 1);
      s := s + 1;
    }
    exact := Cube(s) == m;
  }

  lemma Cubes()
    ensures Cube(0) == 0 && Cube(1) == 1
  {}

  // ---- the integer problem ------------------------------------------------------------

  /** cbrt.c:88-133: |x| = mm * 2^(3e) with 2^(3n-3) <= mm < 2^(3n), and s is the
      integer cube root of the integer part of mm. */
  method RootOf(m0: nat, e0: int, p: nat, n: nat, ghost x: real) returns (s: nat, e: int, inexact: bool, ghost mm: real)
    requires IsSignificand(p, m0) && n >= 1 && x == m0 as real * R2(e0)
    ensures x == mm * R2(3 * e)
    ensures Cube(s) as real <= mm < Cube(s + 1) as real && (inexact <==> mm != Cube(s) as real)
    ensures IsSignificand(n, s)
  {
    hide R2, Pow2, Cube;
    var m := m0;
    var r := e0 % 3;
    var size := SizeInBase2(m);
    SizeOfSignificand(p, m);
    r, e := Align(3 * n - size - r, e0, r);
    Rescale(m0, e0, r, e, x);
    mm := m0 as real * R2(r);
    ScaledBounds(m0, p, r, n, mm);
    m, inexact := ScaleBy(m0, r, mm);
    var exact;
    s, exact := Root(m);
    CubeBound(s, m, mm, n);
    inexact := !exact || inexact;
  }

  /** cbrt.c:118-129: the integer part of m * 2^r. */
  method ScaleBy(m0: nat, r: int, ghost mm: real) returns (m: nat, inexact: bool)
    requires m0 > 0 && mm == m0 as real * R2(r)
    ensures m as real <= mm < m as real + 1.0 && (inexact <==> mm != m as real)
  {
    hide R2, Pow2;
    m, inexact := m0, false;
    if r > 0 {
      R2Nat(r);
      CastProduct(m, Pow2(r));
      MulMono(0, m, Pow2(r));
      m := m * Pow2(r);
    } else if r < 0 {
      var k: nat := -r;
      var v := TrailingZeros(m);
      inexact := v < k;
      TruncatedBy(m0, k, v, r, mm);
      m := m / Pow2(k);
    } else {
      R2Small();
    }
  }

  /** cbrt.c:110-116: the shift that leaves 3n-2 to 3n bits and an exponent divisible by 3. */
  method Align(d: int, e0: int, r0: int) returns (r: int, e: int)
    requires r0 == e0 % 3
    ensures 0 <= d - (r - r0) <= 2 && e0 == r + 3 * e
  {
    var sh := if d >= 0 then d / 3 else -((2 - d) / 3);
    r := r0 + 3 * sh;
    e := e0 - r;
    e := e / 3;
  }

  lemma Rescale(m: int, e0: int, r: int, e: int, x: real)
    requires x == m as real * R2(e0) && e0 == r + 3 * e
    ensures x == (m as real * R2(r)) * R2(3 * e)
  {
    hide R2;
    R2Add(r, 3 * e);
    RealRegroup2(m as real, R2(r), R2(3 * e));
  }

  /** mm has between 3n-2 and 3n bits. */
  lemma ScaledBounds(m: int, p: nat, r: int, n: nat, mm: real)
    requires IsSignificand(p, m) && mm == m as real * R2(r) && 3 * n - 2 <= p + r <= 3 * n && n >= 1
    ensures R2(3 * n - 3) <= mm < R2(3 * n)
  {
    hide R2, Pow2;
    R2Nat(p - 1);
    R2Nat(p);
    R2Add(p - 1, r);
    R2Add(p, r);
    R2Mono(3 * n - 3, p - 1 + r);
    R2Mono(p + r, 3 * n);
    CompareWith(m as real, Pow2(p) as real, R2(r), mm, R2(p + r));
    CompareWith(m as real, Pow2(p - 1) as real, R2(r), mm, R2(p - 1 + r));
  }

  /** mpz_scan1 (m, 0) of a positive m. */
  method TrailingZeros(m: nat) returns (v: nat)
    requires m > 0
    ensures m % Pow2(v) == 0 && m / Pow2(v) % 2 == 1
  {
    hide Pow2;
    v := 0;
    var y := m;
    Pow2Zero();
    while y % 2 == 0
      invariant y > 0 && m == y * Pow2(v)
      decreases y
    {
      Pow2Step(v);
      MulAssoc(y / 2, 2, Pow2(v));
      y, v := y / 2, v + 1;
    }
    DivUnique(m, Pow2(v), y, 0);
  }

  /** cbrt.c:124-129: the truncation, and whether it lost anything. */
  lemma TruncatedBy(m: nat, k: nat, v: nat, r: int, mm: real)
    requires m % Pow2(v) == 0 && m / Pow2(v) % 2 == 1 && mm == m as real * R2(r) && r + k == 0 && k >= 1
    ensures var t := m / Pow2(k);
            t >= 0 && t as real <= mm < t as real + 1.0 && (mm == t as real <==> !(v < k))
  {
    hide R2, Pow2;
    R2Nat(k);
    R2Add(r, k);
    R2Small();
    var d, t := Pow2(k), m / Pow2(k);
    Exactness(m, k, v);
    DivLe(m, d);
    MulComm(d, t);
    CastProduct(t, d);
    RealRegroup2(m as real, R2(r), d as real);
    CompareWith(mm - t as real, 0.0, d as real, (m % d) as real, 0.0) by { RealSub(mm, t as real, d as real); }
    CompareWith(mm - t as real, 1.0, d as real, (m % d) as real, d as real) by { RealSub(mm, t as real, d as real); }
  }

  lemma Exactness(m: nat, k: nat, v: nat)
    requires m % Pow2(v) == 0 && m / Pow2(v) % 2 == 1
    ensures m % Pow2(k) == 0 <==> k <= v
  {
    hide Pow2;
    var y := m / Pow2(v);
    MulComm(Pow2(v), y);
    if k <= v {
      Pow2Add(v - k, k);
      MulAssoc(y, Pow2(v - k), Pow2(k));
      DivUnique(m, Pow2(k), y * Pow2(v - k), 0);
    } else if m % Pow2(k) == 0 {
      var z := m / Pow2(k);
      Pow2Add(k - v - 1, v + 1);
      Pow2Step(v);
      MulComm(Pow2(k), z);
      MulAssoc(z, Pow2(k - v - 1), Pow2(v + 1));
      MulAssoc(z * Pow2(k - v - 1), 2, Pow2(v));
      DivUnique(m, Pow2(v), z * Pow2(k - v - 1) * 2, 0);
    }
  }

  /** The integer cube root of the truncation is that of mm, and has n bits. */
  lemma CubeBound(s: nat, m: int, mm: real, n: nat)
    requires Cube(s) <= m < Cube(s + 1) && m as real <= mm < m as real + 1.0 && R2(3 * n - 3) <= mm < R2(3 * n) && n >= 1
    ensures Cube(s) as real <= mm < Cube(s + 1) as real && IsSignificand(n, s)
    ensures mm == Cube(s) as real <==> mm == m as real && Cube(s) == m
  {
    hide R2, Pow2, Cube;
    R2Nat(3 * n - 3);
    R2Nat(3 * n);
    IntLt(Pow2(3 * n - 3), m + 1);
    IntLt(m, Pow2(3 * n));
    CubeOfPower(n - 1);
    CubeOfPower(n);
    if s < Pow2(n - 1) {
      if s + 1 < Pow2(n - 1) { CubeMono(s + 1, Pow2(n - 1)); }
    }
    if s >= Pow2(n) {
      if s > Pow2(n) { CubeMono(Pow2(n), s); }
    }
  }

  lemma CubeOfPower(n: nat)
    ensures Cube(Pow2(n)) == Pow2(3 * n)
  {
    hide Pow2;
    Pow2Add(n, n);
    Pow2Add(2 * n, n);
  }

  // ---- rounding the root ----------------------------------------------------------------

  /** w is the cube root of mm: where it lies between s and s + 1. */
  lemma RootBetween(w: real, mm: real, s: nat)
    requires w >= 0.0 && RealCube(w) == mm && Cube(s) as real <= mm < Cube(s + 1) as real
    ensures s as real <= w < s as real + 1.0
    ensures w == s as real <==> mm == Cube(s) as real
  {
    hide RealCube, Cube;
    CubeCast(s);
    CubeCast(s + 1);
    RealCubeMono(w, s as real);
    RealCubeMono(w, (s + 1) as real);
  }

  lemma CubeCast(s: int)
    ensures RealCube(s as real) == Cube(s) as real
  {
    CastProduct(s, s);
    CastProduct(s * s, s);
  }

  /** cbrt.c:144-163: the decision; n = p + 1 for rounding to nearest, and then the
      conversion to p bits rounds ties, which are exact roots, to even. */
  method RoundRoot(s: nat, inexact0: bool, mode: Mode, negative: bool, p: nat, n: nat, ghost w: real)
    returns (m: nat, inexact: int, mode': Mode)
    requires p >= 1 && n == p + (if mode == RNDN then 1 else 0) && IsSignificand(n, s)
    requires s as real <= w < s as real + 1.0 && (inexact0 <==> w != s as real)
    ensures mode' == if inexact != 0 && negative then Invert(mode) else mode
    ensures RoundsTo(w / Pow2(n - p) as real, DirectionOf(mode, negative), m, inexact)
  {
    hide Pow2;
    Pow2Zero();
    Pow2Two();
    var root := s;
    mode' := mode;
    inexact := 0;
    if inexact0 {
      if negative { mode' := Invert(mode); }
      if mode' == RNDU || mode' == RNDA || (mode' == RNDN && root % 2 == 1) {
        inexact := 1;
        root := root + 1;
      } else {
        inexact := -1;
      }
    }
    var inexact2;
    m, inexact2 := SetZ(root, n - p);
    inexact := inexact + inexact2;
  }

  /** mpfr_set_z (y, root, MPFR_RNDN), where y has at most one bit less than root. */
  method SetZ(root: nat, k: nat) returns (m: nat, t: int)
    requires k <= 1
    ensures RoundsTo(root as real / Pow2(k) as real, Nearest, m, t)
    ensures m == if k == 0 then root else if root % 4 == 3 then root / 2 + 1 else root / 2
    ensures t == if k == 0 || root % 2 == 0 then 0 else if root % 4 == 3 then 1 else -1
  {
    hide Pow2;
    Pow2Zero();
    Pow2Two();
    if k == 0 {
      m, t := root, 0;
    } else if root % 2 == 0 {
      m, t := root / 2, 0;
    } else if root / 2 % 2 == 1 {
      m, t := root / 2 + 1, 1;
    } else {
      m, t := root / 2, -1;
    }
  }

  // ---- mpfr_cbrt ------------------------------------------------------------------------

  /** a is the cube of a number of p bits. */
  ghost predicate ExactCube(a: real, p: nat) {
    exists s, k :: IsSignificand(p, s) && RealCube(FloatValue(p, s, k)) == a
  }

  /** The cube root of a, rounded in direction d, leaves the range [emin, emax]. */
  predicate BeyondRange(a: real, p: nat, d: Direction, emin: int, emax: int) {
    if d == TowardZero then a < RealCube(R2(emin - 1)) || a >= RealCube(R2(emax))
    else a <= RealCube(MaxFinite(p, emin - 1)) || a > RealCube(MaxFinite(p, emax))
  }

  /** The operands for which the range check picks the wrong neighbour, because it gets
      the rounding mode inverted for an inexact negative result (cbrt.c:147, 174): those
      in a directed mode that are negative, of absolute value a, and whose root is
      neither exact nor within the range. */
  ghost predicate WrongRange(a: real, p: nat, mode: Mode, negative: bool, emin: int, emax: int) {
    negative && (mode == RNDU || mode == RNDD) && !ExactCube(a, p) && BeyondRange(a, p, DirectionOf(mode, negative), emin, emax)
  }

  /** The same in terms of the exponent e and the ternary value t of the rounded root. */
  predicate Misjudged(mode: Mode, negative: bool, e: int, t: int, emin: int, emax: int) {
    negative && (mode == RNDU || mode == RNDD) && t != 0 && !(emin <= e <= emax)
  }

  lemma RangeJudged(w: real, p: nat, mode: Mode, negative: bool, m: int, e: int, t: int, emin: int, emax: int, mode': Mode)
    requires w > 0.0 && p >= 1 && emin <= emax && CorrectlyRounded(w, p, DirectionOf(mode, negative), m, e, t)
    requires mode' == if t != 0 && negative then Invert(mode) else mode
    ensures var (o, r) := RangeOutcome(p, DirectionOf(mode', negative), m, e, t, emin, emax);
            CorrectInRange(w, p, DirectionOf(mode, negative), emin, emax, o, r) <==> !Misjudged(mode, negative, e, t, emin, emax)
  {
    hide R2, Pow2, CorrectlyRounded, CorrectInRange;
    var d := DirectionOf(mode, negative);
    if Misjudged(mode, negative, e, t, emin, emax) {
      if e < emin {
        WrongUnderflow(w, p, d, m, e, t, emin, emax);
      } else {
        WrongOverflow(w, p, d, m, e, t, emin, emax);
      }
    } else {
      CheckRangeCorrect(w, p, d, m, e, t, emin, emax);
    }
  }

  /** Both descriptions agree. */
  lemma WrongRangeMeans(z: real, a: real, p: nat, mode: Mode, negative: bool, m: int, e: int, t: int, emin: int, emax: int)
    requires z > 0.0 && RealCube(z) == a && emin <= emax && CorrectlyRounded(z, p, DirectionOf(mode, negative), m, e, t)
    ensures WrongRange(a, p, mode, negative, emin, emax) <==> Misjudged(mode, negative, e, t, emin, emax)
  {
    hide R2, Pow2, RealCube, CorrectlyRounded, FloatValue, MaxFinite, ExactCube;
    if negative && (mode == RNDU || mode == RNDD) {
      var d := DirectionOf(mode, negative);
      ExactMeans(z, a, p, d, m, e, t);
      BeyondMeans(z, a, p, d, m, e, t, emin, emax);
    }
  }

  lemma ExactMeans(z: real, a: real, p: nat, d: Direction, m: int, e: int, t: int)
    requires z > 0.0 && RealCube(z) == a && d != Nearest && CorrectlyRounded(z, p, d, m, e, t)
    ensures ExactCube(a, p) <==> t == 0
  {
    hide R2, Pow2, RealCube, FloatValue;
    if ExactCube(a, p) {
      var s, k :| IsSignificand(p, s) && RealCube(FloatValue(p, s, k)) == a;
      FloatPos(p, s, k);
      RealCubeMono(z, FloatValue(p, s, k));
      assert Beats(z, p, d, m, FloatValue(p, m, e), FloatValue(p, s, k));
    }
    if t == 0 { assert RealCube(FloatValue(p, m, e)) == a; }
  }

  lemma BeyondMeans(z: real, a: real, p: nat, d: Direction, m: int, e: int, t: int, emin: int, emax: int)
    requires z > 0.0 && RealCube(z) == a && emin <= emax && d != Nearest && CorrectlyRounded(z, p, d, m, e, t)
    ensures BeyondRange(a, p, d, emin, emax) <==> !(emin <= e <= emax)
  {
    hide R2, Pow2, RealCube, FloatValue, MaxFinite;
    FloatBounds(p, m, e);
    MaxIsFloat(p);
    if d == TowardZero {
      ToZeroLimit(z, p, m, e, t, emin - 1);
      ToZeroLimit(z, p, m, e, t, emax);
      R2Pos(emin - 1);
      R2Pos(emax);
      RealCubeMono(z, R2(emin - 1));
      RealCubeMono(z, R2(emax));
    } else {
      AwayLimit(z, p, m, e, t, emin - 1);
      AwayLimit(z, p, m, e, t, emax);
      RealCubeMono(z, MaxFinite(p, emin - 1));
      RealCubeMono(z, MaxFinite(p, emax));
    }
  }

  lemma ToZeroLimit(z: real, p: nat, m: int, e: int, t: int, l: int)
    requires z > 0.0 && CorrectlyRounded(z, p, TowardZero, m, e, t)
    ensures z >= R2(l) <==> e > l
  {
    hide R2, Pow2, FloatValue, MaxFinite;
    FloatBounds(p, m, e);
    MaxIsFloat(p);
    FloatBounds(p, Pow2(p - 1), l + 1);
    R2Pos(e - p);
    assert Beats(z, p, TowardZero, m, FloatValue(p, m, e), FloatValue(p, Pow2(p - 1), l + 1));
    if e > l { R2Mono(l, e - 1); } else { R2Mono(e, l); }
  }

  lemma AwayLimit(z: real, p: nat, m: int, e: int, t: int, l: int)
    requires z > 0.0 && CorrectlyRounded(z, p, AwayFromZero, m, e, t)
    ensures z > MaxFinite(p, l) <==> e > l
    ensures MaxFinite(p, l) > 0.0
  {
    hide R2, Pow2, FloatValue;
    FloatBounds(p, m, e);
    MaxIsFloat(p);
    FloatBounds(p, Pow2(p) - 1, l);
    FloatPos(p, Pow2(p) - 1, l);
    R2Pos(l - p);
    assert Beats(z, p, AwayFromZero, m, FloatValue(p, m, e), FloatValue(p, Pow2(p) - 1, l));
    if e > l { R2Mono(l, e - 1); } else { LargestMono(p, e, l); }
  }

  lemma LargestMono(p: nat, e: int, l: int)
    requires e <= l && p >= 1
    ensures MaxFinite(p, e) <= MaxFinite(p, l)
  {
    hide R2, Pow2;
    R2Mono(e - p, l - p);
    RealComm((Pow2(p) - 1) as real, R2(e - p));
    RealComm((Pow2(p) - 1) as real, R2(l - p));
    MaxIsFloat(p);
    RealMono(R2(e - p), R2(l - p), (Pow2(p) - 1) as real);
  }

  function Opposite(d: Direction): Direction {
    match d
    case Nearest => Nearest
    case TowardZero => AwayFromZero
    case AwayFromZero => TowardZero
  }

  lemma WrongUnderflow(w: real, p: nat, d: Direction, m: int, e: int, t: int, emin: int, emax: int)
    requires w > 0.0 && p >= 1 && e < emin <= emax && CorrectlyRounded(w, p, d, m, e, t) && d != Nearest
    ensures var (o, r) := UnderflowOutcome(p, Opposite(d), emin); !CorrectInRange(w, p, d, emin, emax, o, r)
  {
    hide R2, Pow2, FloatValue, CorrectlyRounded;
    BelowRange(w, p, d, m, e, t, emin, emax);
    MaxIsFloat(p);
    FloatBounds(p, Pow2(p - 1), emin);
  }

  lemma WrongOverflow(w: real, p: nat, d: Direction, m: int, e: int, t: int, emin: int, emax: int)
    requires w > 0.0 && p >= 1 && emin <= emax < e && CorrectlyRounded(w, p, d, m, e, t) && d != Nearest
    ensures var (o, r) := OverflowOutcome(p, Opposite(d), emax); !CorrectInRange(w, p, d, emin, emax, o, r)
  {
    hide R2, Pow2, FloatValue;
    if d == AwayFromZero {
      MaxIsFloat(p);
      FloatBounds(p, m, e);
      FloatBounds(p, Pow2(p) - 1, emax);
      R2Mono(emax, e - 1);
      R2Pos(emax - p);
      assert Beats(w, p, d, m, FloatValue(p, m, e), FloatValue(p, Pow2(p) - 1, emax));
    }
  }

  /** The cube root of x: for the positive real z whose cube is |x|, the result is z
      rounded once into the exponent range, but for the situation above; y may be x. */
  method CubeRoot(env: Env, y: Mpfr, x: Mpfr, rnd: Mode, ghost z: real)
    returns (inex: int, ghost o: Outcome)
    requires y.Shape() && x.IsPureFp() && env.emin <= env.emax && z > 0.0 && RealCube(z) == x.Magnitude()
    modifies y, y.mant, env`inexact, env`overflow, env`underflow
    ensures y.neg == old(x.neg) && y.Holds(o)
    ensures CorrectSigned(WithSign(y.neg, z), y.prec, rnd, env.emin, env.emax, y.neg, o, inex) <==>
            !WrongRange(old(x.Magnitude()), y.prec, rnd, y.neg, env.emin, env.emax)
    ensures env.inexact == (old(env.inexact) || inex != 0)
    ensures env.overflow == (old(env.overflow) || TooLarge(WithSign(y.neg, z), y.prec, rnd, env.emax))
    ensures env.underflow == (old(env.underflow) || TooSmall(WithSign(y.neg, z), y.prec, rnd, env.emin))
  {
    hide R2, Pow2, Frac, Val, Cube, RealCube, CorrectlyRounded, CorrectSigned, TooLarge, TooSmall, Normalized, RoundsTo, RangeOutcome, NormSig,
         NormExp, IsSignificand, Misjudged, WrongRange;
    var p, n := y.prec, y.prec + (if rnd == RNDN then 1 else 0);
    var negative := x.neg;
    var m := Val(x.mant[..]) / Pow2(Unused(x.prec));
    SignificandOf(x.mant[..], x.prec, x.exp);
    var s, e0, inexact;
    ghost var mm;
    s, e0, inexact, mm := RootOf(m, x.exp - x.prec, x.prec, n, x.Magnitude());
    ghost var w := ScaledRoot(z, x.Magnitude(), mm, e0);
    RootBetween(w, mm, s);
    var mode', inex0;
    m, inex0, mode' := RoundRoot(s, inexact, rnd, negative, p, n, w);
    RootRounded(z, w, e0, p, n, s, DirectionOf(rnd, negative), m, inex0);
    WrongRangeMeans(z, x.Magnitude(), p, rnd, negative, NormSig(p, m), NormExp(p, m, e0 + n), inex0, env.emin, env.emax);
    inex, o := Deliver(env, y, m, e0 + n, inex0, rnd, mode', negative, z);
  }

  /** cbrt.c:161-174. */
  method Deliver(env: Env, y: Mpfr, m: nat, e0: int, inex0: int, rnd: Mode, mode': Mode, negative: bool, ghost z: real)
    returns (inex: int, ghost o: Outcome)
    requires y.Shape() && env.emin <= env.emax && z > 0.0 && IsSignificand(y.prec, NormSig(y.prec, m))
    requires CorrectlyRounded(z, y.prec, DirectionOf(rnd, negative), NormSig(y.prec, m), NormExp(y.prec, m, e0), inex0)
    requires mode' == if inex0 != 0 && negative then Invert(rnd) else rnd
    modifies y, y.mant, env`inexact, env`overflow, env`underflow
    ensures y.neg == negative && y.Holds(o)
    ensures CorrectSigned(WithSign(negative, z), y.prec, rnd, env.emin, env.emax, negative, o, inex) <==>
            !Misjudged(rnd, negative, NormExp(y.prec, m, e0), inex0, env.emin, env.emax)
    ensures env.inexact == (old(env.inexact) || inex != 0)
    ensures env.overflow == (old(env.overflow) || TooLarge(WithSign(y.neg, z), y.prec, rnd, env.emax))
    ensures env.underflow == (old(env.underflow) || TooSmall(WithSign(y.neg, z), y.prec, rnd, env.emin))
  {
    hide R2, Pow2, Val, CorrectlyRounded, CorrectInRange, CorrectSigned, TooLarge, TooSmall, Normalized, Sig, RangeOutcome, Misjudged;
    var p := y.prec;
    ghost var sig, e := NormSig(p, m), NormExp(p, m, e0);
    SetSignificand(y, if m == Pow2(p) then Pow2(p - 1) else m);
    y.kind, y.neg, y.exp := Regular, negative, if m == Pow2(p) then e0 + 1 else e0;
    SignedTwice(inex0, negative);
    inex := if negative then -inex0 else inex0;
    ghost var r := RangeOutcome(p, DirectionOf(mode', negative), sig, e, inex0, env.emin, env.emax);
    o := r.0;
    RangeJudged(z, p, rnd, negative, sig, e, inex0, env.emin, env.emax, mode');
    SignedTwice(r.1, negative);
    ExponentDecides(z, p, rnd, negative, sig, e, inex0, env.emin, env.emax);
    inex := CheckRange(env, y, inex, mode');
    SignedMeans(z, p, rnd, negative, env.emin, env.emax, o, inex);
  }

  lemma SignificandOf(s: seq<limb>, p: nat, e: int)
    requires Normalized(s, p)
    ensures IsSignificand(p, Sig(s, p)) && Frac(s) * R2(e) == Sig(s, p) as real * R2(e - p)
  {
    hide R2, Frac, Val, Pow2;
    BitsOf(s, p, e);
    NormalizedValue(s, p);
  }

  lemma ScaledRoot(z: real, x: real, mm: real, e: int) returns (w: real)
    requires z > 0.0 && RealCube(z) == x == mm * R2(3 * e)
    ensures w > 0.0 && RealCube(w) == mm && z == w * R2(e)
  {
    hide R2;
    var u, v := R2(-e), R2(e);
    w := z * u;
    R2Add(-e, e);
    R2Small();
    R2Add(e, e);
    R2Add(2 * e, e);
    RealProductPos(z, u);
    RealRegroup2(z, u, v);
    CubeOfScaled(w, v);
    assert RealCube(v) == R2(3 * e);
    RealMono(RealCube(w), mm, R2(3 * e));
  }

  lemma CubeOfScaled(w: real, v: real)
    ensures RealCube(w * v) == RealCube(w) * RealCube(v)
  {
    RealFour(w, v, w, v);
    RealFour(w * w, v * v, w, v);
  }

  /** w / 2^k has p bits before the point. */
  lemma FewerBits(w: real, y: real, p: nat, k: nat, s: nat)
    requires p >= 1 && IsSignificand(p + k, s) && s as real <= w < s as real + 1.0 && y * Pow2(k) as real == w
    ensures Pow2(p - 1) as real <= y < Pow2(p) as real
  {
    hide Pow2;
    Pow2Add(p, k);
    Pow2Add(p - 1, k);
    CastProduct(Pow2(p), Pow2(k));
    CastProduct(Pow2(p - 1), Pow2(k));
    assert Pow2(p + k - 1) as real <= w < Pow2(p + k) as real;
    CompareWith(y, Pow2(p) as real, Pow2(k) as real, w, Pow2(p + k) as real);
    CompareWith(y, Pow2(p - 1) as real, Pow2(k) as real, w, Pow2(p + k - 1) as real);
  }

  lemma RootRounded(z: real, w: real, e0: int, p: nat, n: nat, s: nat, d: Direction, m: int, t: int)
    requires p >= 1 && p <= n && z == w * R2(e0) && IsSignificand(n, s) && s as real <= w < s as real + 1.0
    requires RoundsTo(w / Pow2(n - p) as real, d, m, t)
    ensures CorrectlyRounded(z, p, d, NormSig(p, m), NormExp(p, m, e0 + n), t) && IsSignificand(p, NormSig(p, m))
  {
    hide R2, Pow2, RoundsTo, CorrectlyRounded, NormSig, NormExp;
    var k := n - p;
    var y := w / Pow2(k) as real;
    assert y * Pow2(k) as real == w;
    FewerBits(w, y, p, k, s);
    R2Nat(k);
    R2Add(k, e0);
    RealRegroup2(y, Pow2(k) as real, R2(e0));
    ScaledRounding(z, y, p, d, e0 + n, m, t);
    SignificandRange(y, p, d, m, t);
  }

  /** cbrt(-3) to two bits, rounding toward plus infinity, when the smallest number
      is 2: the root is about -1.44 and should become -0, but -2 is delivered. */
  lemma WrongRangeExample(z: real)
    requires z > 0.0 && RealCube(z) == 3.0
    ensures var x := [0xC000_0000_0000_0000]; Normalized(x, 2) && Frac(x) * R2(2) == 3.0
    ensures CorrectlyRounded(z, 2, DirectionOf(RNDU, true), 2, 1, -1) && WrongRange(3.0, 2, RNDU, true, 2, 10)
  {
    hide CorrectlyRounded, RealCube, WrongRange;
    assert RealCube(1.0) == 1.0 && RealCube(1.5) == 3.375 by { Cubes2(); }
    RealCubeMono(1.0, z);
    RealCubeMono(z, 1.5);
    assert Pow2(1) == 2 && Pow2(2) == 4;
    R2Small();
    ScaledRounding(z, 2.0 * z, 2, TowardZero, 1, 2, -1);
    WrongRangeMeans(z, 3.0, 2, RNDU, true, 2, 1, -1, 2, 10);
    Three([0xC000_0000_0000_0000]);
  }

  /** The number 3 to two bits. */
  lemma Three(x: seq<limb>)
    requires x == [0xC000_0000_0000_0000]
    ensures Normalized(x, 2) && Frac(x) * R2(2) == 3.0
  {
    ValOne(x[0]);
    assert BP(1) == B by { assert BP(0) == 1; }
    R2Small();
    assert Unused(2) == 62;
    assert Pow2(2) == 4;
    Pow2Limb();
    Pow2Add(62, 2);
    MultipleOfQuarter(x[0], Pow2(62));
  }

  lemma MultipleOfQuarter(x: int, q: int)
    requires 4 * q == B && x == 3 * q
    ensures x % q == 0
  {
    DivUnique(x, q, 3, 0);
  }

  lemma Cubes2()
    ensures RealCube(1.0) == 1.0 && RealCube(1.5) == 3.375
  {}
}

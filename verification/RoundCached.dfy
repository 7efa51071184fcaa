/** Rounding a number that is itself a rounding to nearest of some exact value to
    fewer bits, as if the exact value had been rounded once: the mathematics
    behind cache.c. */
module RoundCached {
  import opened Powers
  import opened RealPowers
  import opened Rounding
  import opened Range
  import opened Next

  // ---- what the rounding of the cached significand decides -----------------------

  /** Whether the significand is rounded up, from the k bits `low` that are dropped
      and the ternary value ti of the cached number. */
  predicate RawUp(d: Direction, au: int, low: int, k: nat, ti: int) {
    && low != 0
    && d != TowardZero
    && (d == AwayFromZero || 2 * low > Pow2(k) || (2 * low == Pow2(k) && (if ti == 0 then au % 2 == 1 else ti < 0)))
  }

  function RawInexact(d: Direction, au: int, low: int, k: nat, ti: int): int {
    if low == 0 then 0 else if RawUp(d, au, low, k, ti) then 1 else -1
  }

  function RawSig(d: Direction, au: int, low: int, k: nat, ti: int): int {
    if RawUp(d, au, low, k, ti) then au + 1 else au
  }

  /** cache.c:152-187: the result when no bit was lost although the cached number
      was inexact. */
  function Adjusted(p: nat, d: Direction, m: int, e: int, inexact: int, ti: int): (int, int, int)
    requires p >= 1
  {
    if inexact != 0 || ti == 0 then (m, e, inexact)
    else if d == TowardZero && ti > 0 then (BelowSig(p, m), BelowExp(p, m, e), -ti)
    else if d == AwayFromZero && ti < 0 then (NormSig(p, m + 1), NormExp(p, m + 1, e), -ti)
    else (m, e, ti)
  }

  // ---- where the exact value lies ----------------------------------------------------

  /** y is the exact value, in units in the last place of precision p in the binade
      of the cached number. */
  predicate Located(y: real, p: nat, k: nat, au: int, low: int, ti: int) {
    && (low != 0 ==>
          && au as real < y < au as real + 1.0
          && (2 * low < Pow2(k) ==> y < au as real + 0.5)
          && (2 * low > Pow2(k) ==> y > au as real + 0.5)
          && (2 * low == Pow2(k) ==> ti == Sgn(au as real + 0.5 - y)))
    && (low == 0 ==>
          && ti == Sgn(au as real - y)
          && y < au as real + 1.0 && (k >= 1 ==> y < au as real + 0.5)
          && (p >= 1 && au > Pow2(p - 1) ==> y > au as real - 1.0 && (k >= 1 ==> y > au as real - 0.5))
          && (p >= 1 && au == Pow2(p - 1) ==> 2.0 * y > 2.0 * (au as real) - 1.0 && (k >= 1 ==> 2.0 * y > 2.0 * (au as real) - 0.5)))
  }

  /** A float beyond the cached number is beyond the exact value too. */
  lemma Order(x: real, q: nat, mc: int, ec: int, ti: int, y: real, n: int)
    requires CorrectlyRounded(x, q, Nearest, mc, ec, ti) && x == y * R2(ec - q)
    requires Pow2(q - 1) <= n <= Pow2(q)
    ensures n > mc ==> y < n as real
    ensures n < mc ==> y > n as real
    ensures n == mc ==> ti == Sgn(n as real - y)
  {
    hide R2, Pow2, FloatValue;
    var u, c := R2(ec - q), FloatValue(q, mc, ec);
    Unfold(q, mc, ec);
    NormValue(q, n, ec);
    assert IsSignificand(q, NormSig(q, n));
    var f := FloatValue(q, NormSig(q, n), NormExp(q, n, ec));
    assert Beats(x, q, Nearest, mc, c, f);
    UnitOrder(mc as real, y, u);
    UnitOrder(n as real, y, u);
    UnitOrder(mc as real, n as real, u);
  }

  /** The exact value is also above the float just below the binade. */
  lemma OrderBelow(x: real, q: nat, mc: int, ec: int, ti: int, y: real)
    requires CorrectlyRounded(x, q, Nearest, mc, ec, ti) && x == y * R2(ec - q)
    ensures mc == Pow2(q - 1) ==> 2.0 * y > 2.0 * (mc as real) - 1.0
  {
    hide R2, Pow2, FloatValue;
    var u, c := R2(ec - q), FloatValue(q, mc, ec);
    Unfold(q, mc, ec);
    Pow2Step(q - 1);
    NothingBetween(q, mc, ec, mc, ec);
    var f := FloatValue(q, BelowSig(q, mc), BelowExp(q, mc, ec));
    assert Beats(x, q, Nearest, mc, c, f);
    assert f < c;
    BelowInUnits(q, mc, ec, u);
    UnitOrder(mc as real, y, u);
    var g: real := if mc == Pow2(q - 1) then mc as real - 0.5 else mc as real - 1.0;
    assert f == g * u;
    UnitOrder(g, y, u);
  }

  lemma BelowInUnits(q: nat, mc: int, ec: int, u: real)
    requires q >= 1 && u == R2(ec - q)
    ensures FloatValue(q, BelowSig(q, mc), BelowExp(q, mc, ec)) ==
            (if mc == Pow2(q - 1) then mc as real - 0.5 else mc as real - 1.0) * u
  {
    hide R2, Pow2;
    Pow2Step(q - 1);
    R2Step(ec - 1 - q);
    if mc == Pow2(q - 1) {
      assert (2 * mc - 1) as real * R2(ec - 1 - q) == (mc as real - 0.5) * u;
    }
  }

  /** Comparing y with n / g is comparing z = y * d with n * d / g. */
  lemma Scaled(y: real, a: real, d: int, z: real, n: int)
    requires d >= 1 && z == y * d as real && n as real == a * d as real
    ensures y < a <==> z < n as real
    ensures y > a <==> z > n as real
    ensures Sgn(a - y) == Sgn(n as real - z)
  {
    UnitOrder(a, y, d as real);
  }

  /** The exact value among the integers of the target binade. */
  lemma LocateWhole(x: real, q: nat, mc: int, ec: int, ti: int, y: real, z: real, a: int, d: int, lo: int, hi: int)
    requires CorrectlyRounded(x, q, Nearest, mc, ec, ti) && x == z * R2(ec - q) && z == y * d as real && d >= 1
    requires lo * d == Pow2(q - 1) && hi * d == Pow2(q) && lo <= a <= hi
    ensures a * d > mc ==> y < a as real
    ensures a * d < mc ==> y > a as real
    ensures a * d == mc ==> ti == Sgn(a as real - y)
  {
    hide R2, Pow2, CorrectlyRounded, Sgn;
    MulMono(lo, a, d);
    MulMono(a, hi, d);
    Order(x, q, mc, ec, ti, z, a * d);
    CastProduct(a, d);
    Scaled(y, a as real, d, z, a * d);
  }

  /** The same for the midpoints, when d = 2h. */
  lemma LocateMiddle(x: real, q: nat, mc: int, ec: int, ti: int, y: real, z: real, a: int, d: int, h: int, lo: int, hi: int)
    requires CorrectlyRounded(x, q, Nearest, mc, ec, ti) && x == z * R2(ec - q) && z == y * d as real && h >= 1 && d == 2 * h
    requires lo * d == Pow2(q - 1) && hi * d == Pow2(q) && lo <= a < hi
    ensures a * d + h > mc ==> y < a as real + 0.5
    ensures a * d + h < mc ==> y > a as real + 0.5
    ensures a * d + h == mc ==> ti == Sgn(a as real + 0.5 - y)
  {
    hide R2, Pow2, CorrectlyRounded, Sgn;
    MulMono(lo, a, d);
    MulMono(a + 1, hi, d);
    Distrib(a, 1, d);
    Order(x, q, mc, ec, ti, z, a * d + h);
    CastProduct(a, d);
    assert ((a as real) + 0.5) * (d as real) == (a as real) * (d as real) + (d as real) / 2.0;
    Scaled(y, a as real + 0.5, d, z, a * d + h);
  }

  /** Below the binade. */
  lemma JustBelow(y: real, a: int, d: int, z: real)
    requires d >= 1 && z == y * d as real && 2.0 * z > 2.0 * (a * d) as real - 1.0
    ensures 2.0 * y > 2.0 * (a as real) - 1.0
    ensures d >= 2 ==> 2.0 * y > 2.0 * (a as real) - 0.5
  {
    CastProduct(a, d);
    BelowPlain(y, a as real, d as real, z, a as real * d as real);
  }

  lemma BelowPlain(y: real, a: real, d: real, z: real, n: real)
    requires d >= 1.0 && z == y * d && n == a * d && 2.0 * z > 2.0 * n - 1.0
    ensures 2.0 * y > 2.0 * a - 1.0
    ensures d >= 2.0 ==> 2.0 * y > 2.0 * a - 0.5
  {
    RealSub(a, y, d);
    Near(a - y, d, n - z);
  }

  lemma Near(w: real, d: real, p: real)
    requires p == w * d && p < 0.5 && d >= 1.0
    ensures w < 0.5 && (d >= 2.0 ==> w < 0.25)
  {
    if w >= 0.0 {
      RealGrow(w, d, 1.0, p);
      if d >= 2.0 { RealGrow(w, d, 2.0, p); }
    }
  }

  /** Where the exact value lies, from the cached number alone. */
  lemma Locate(x: real, q: nat, p: nat, mc: int, ec: int, ti: int, y: real)
    requires CorrectlyRounded(x, q, Nearest, mc, ec, ti) && 1 <= p <= q && x == y * R2(ec - p)
    ensures var k := q - p; Located(y, p, k, mc / Pow2(k), mc % Pow2(k), ti)
    ensures var k := q - p; IsSignificand(p, mc / Pow2(k))
  {
    hide R2, Pow2, CorrectlyRounded, Sgn;
    var k := q - p;
    var d, lo, hi := Pow2(k), Pow2(p - 1), Pow2(p);
    var au, low := mc / d, mc % d;
    Pow2Add(p, k);
    Pow2Add(p - 1, k);
    CachedSignificand(x, q, mc, ec, ti);
    EvenPower(k);
    Parts(mc, d, lo, hi);
    var z := Finer(x, y, k, ec - p);
    assert ec - p - k == ec - q;
    LocateAbove(x, q, mc, ec, ti, y, z, au, low, d, lo, hi);
    if au > lo { LocateLower(x, q, mc, ec, ti, y, z, au, low, d, lo, hi); }
    OrderBelow(x, q, mc, ec, ti, z);
    if low == 0 && au == lo { JustBelow(y, au, d, z); }
  }

  lemma EvenPower(k: nat)
    ensures if k == 0 then Pow2(k) == 1 else Pow2(k) % 2 == 0 && Pow2(k) > 1
  {}

  lemma LocateAbove(x: real, q: nat, mc: int, ec: int, ti: int, y: real, z: real, au: int, low: int, d: int, lo: int, hi: int)
    requires CorrectlyRounded(x, q, Nearest, mc, ec, ti) && x == z * R2(ec - q) && z == y * d as real
    requires lo * d == Pow2(q - 1) && hi * d == Pow2(q) && lo <= au < hi
    requires mc == au * d + low && 0 <= low < d && (au + 1) * d == au * d + d && (d == 1 || d % 2 == 0)
    ensures y < au as real + 1.0
    ensures low > 0 ==> y > au as real
    ensures low == 0 ==> ti == Sgn(au as real - y)
    ensures d > 1 ==>
              && (2 * low < d ==> y < au as real + 0.5)
              && (2 * low > d ==> y > au as real + 0.5)
              && (2 * low == d ==> ti == Sgn(au as real + 0.5 - y))
  {
    hide R2, Pow2, CorrectlyRounded, Sgn;
    LocateWhole(x, q, mc, ec, ti, y, z, au, d, lo, hi);
    LocateWhole(x, q, mc, ec, ti, y, z, au + 1, d, lo, hi);
    if d > 1 { LocateMiddle(x, q, mc, ec, ti, y, z, au, d, d / 2, lo, hi); }
  }

  lemma LocateLower(x: real, q: nat, mc: int, ec: int, ti: int, y: real, z: real, au: int, low: int, d: int, lo: int, hi: int)
    requires CorrectlyRounded(x, q, Nearest, mc, ec, ti) && x == z * R2(ec - q) && z == y * d as real
    requires lo * d == Pow2(q - 1) && hi * d == Pow2(q) && lo < au < hi
    requires mc == au * d + low && 0 <= low < d && (au - 1) * d == au * d - d && (d == 1 || d % 2 == 0)
    ensures y > au as real - 1.0
    ensures d > 1 ==> y > au as real - 0.5
  {
    hide R2, Pow2, CorrectlyRounded, Sgn;
    LocateWhole(x, q, mc, ec, ti, y, z, au - 1, d, lo, hi);
    if d > 1 { LocateMiddle(x, q, mc, ec, ti, y, z, au - 1, d, d / 2, lo, hi); }
  }

  lemma CachedSignificand(x: real, q: nat, mc: int, ec: int, ti: int)
    requires CorrectlyRounded(x, q, Nearest, mc, ec, ti)
    ensures IsSignificand(q, mc)
  {}

  lemma Parts(mc: int, d: int, lo: int, hi: int)
    requires d >= 1 && lo >= 1 && lo * d <= mc < hi * d
    ensures var au, low := mc / d, mc % d;
            && mc == au * d + low && 0 <= low < d && lo <= au < hi
            && (au + 1) * d == au * d + d && (au - 1) * d == au * d - d
  {
    MulComm(d, mc / d);
    MulComm(hi, d);
    MulMono(0, lo, d);
    DivMulLt(mc, d, hi);
    if mc / d < lo { MulMono(mc / d + 1, lo, d); }
    Distrib(mc / d, 1, d);
    Distrib(mc / d, -1, d);
  }

  lemma Finer(x: real, y: real, k: nat, e: int) returns (z: real)
    requires x == y * R2(e)
    ensures z == y * Pow2(k) as real && x == z * R2(e - k)
  {
    hide R2, Pow2;
    z := y * Pow2(k) as real;
    R2Nat(k);
    R2Add(k, e - k);
    RealSwap(y, Pow2(k) as real, R2(e - k));
  }

  // ---- rounded once ------------------------------------------------------------------

  /** The cached number is not exact but some bits of it are dropped, or it is
      exact: rounding its significand rounds the exact value. */
  lemma DroppedBits(y: real, p: nat, d: Direction, k: nat, au: int, low: int, ti: int)
    requires Located(y, p, k, au, low, ti) && (low != 0 || ti == 0) && 0 <= low < Pow2(k)
    ensures au as real <= y < au as real + 1.0
    ensures RoundsTo(y, d, RawSig(d, au, low, k, ti), RawInexact(d, au, low, k, ti))
  {
    hide Pow2;
  }

  /** No bit is dropped, and the exact value is on one side of the cached number;
      it is in its binade. */
  lemma Aligned(y: real, p: nat, d: Direction, k: nat, au: int, ti: int)
    requires p >= 1 && Located(y, p, k, au, 0, ti) && ti != 0 && (d != Nearest || k >= 1)
    requires ti < 0 || au > Pow2(p - 1)
    ensures ti < 0 ==> au as real <= y < au as real + 1.0
    ensures ti > 0 ==> au as real - 1.0 <= y < au as real
    ensures ti < 0 ==> RoundsTo(y, d, if d == AwayFromZero then au + 1 else au, if d == AwayFromZero then 1 else -1)
    ensures ti > 0 ==> RoundsTo(y, d, if d == TowardZero then au - 1 else au, if d == TowardZero then -1 else 1)
  {
    hide Pow2;
  }

  /** The same when the cached number is a power of two above the exact value,
      which then is in the binade below. */
  lemma AlignedBelow(y: real, p: nat, d: Direction, k: nat, ti: int)
    requires p >= 1 && Located(y, p, k, Pow2(p - 1), 0, ti) && ti > 0 && (d != Nearest || k >= 1)
    ensures Pow2(p - 1) as real <= 2.0 * y < Pow2(p) as real
    ensures RoundsTo(2.0 * y, d, if d == TowardZero then Pow2(p) - 1 else Pow2(p), if d == TowardZero then -1 else 1)
  {
    hide Pow2;
    Pow2Step(p - 1);
    if p >= 2 { Pow2Step(p - 2); } else { Pow2Zero(); }
  }

  /** Rounding a cached number of q bits to p <= q bits, with its ternary value at
      hand, is rounding the exact value once. */
  lemma RoundedOnce(x: real, q: nat, p: nat, d: Direction, mc: int, ec: int, ti: int)
    requires CorrectlyRounded(x, q, Nearest, mc, ec, ti) && 1 <= p <= q
    ensures var k := q - p; var au, low := mc / Pow2(k), mc % Pow2(k);
            var s := RawSig(d, au, low, k, ti);
            var r := Adjusted(p, d, NormSig(p, s), NormExp(p, s, ec), RawInexact(d, au, low, k, ti), ti);
            CorrectlyRounded(x, p, d, r.0, r.1, r.2)
  {
    hide R2, Pow2, CorrectlyRounded, RoundsTo, Located;
    var k := q - p;
    var au, low := mc / Pow2(k), mc % Pow2(k);
    var y := InUlps(x, ec - p);
    Locate(x, q, p, mc, ec, ti, y);
    TernarySign(x, q, mc, ec, ti);
    if low != 0 || ti == 0 {
      DroppedBits(y, p, d, k, au, low, ti);
      WithinBinade(x, y, p, d, ec, au, RawSig(d, au, low, k, ti), RawInexact(d, au, low, k, ti));
    } else if d == Nearest && k == 0 {
      Pow2Zero();
      CachedSignificand(x, q, mc, ec, ti);
    } else if ti > 0 && au == Pow2(p - 1) {
      PowerOfTwo(x, y, p, d, ec, k, ti);
    } else {
      AlignedOnce(x, y, p, d, ec, k, au, ti);
    }
  }

  lemma TernarySign(x: real, q: nat, mc: int, ec: int, ti: int)
    requires CorrectlyRounded(x, q, Nearest, mc, ec, ti)
    ensures -1 <= ti <= 1
  {}

  lemma InUlps(x: real, e: int) returns (y: real)
    ensures x == y * R2(e)
  {
    hide R2;
    R2Pos(e);
    y := x / R2(e);
  }

  lemma WithinBinade(x: real, y: real, p: nat, d: Direction, e: int, au: int, s: int, t: int)
    requires IsSignificand(p, au) && x == y * R2(e - p) && au as real <= y < au as real + 1.0 && RoundsTo(y, d, s, t)
    ensures CorrectlyRounded(x, p, d, NormSig(p, s), NormExp(p, s, e), t)
  {
    hide R2, Pow2, CorrectlyRounded, RoundsTo, NormSig, NormExp;
    assert (au + 1) as real <= Pow2(p) as real;
    ScaledRounding(x, y, p, d, e, s, t);
  }

  lemma PowerOfTwo(x: real, y: real, p: nat, d: Direction, e: int, k: nat, ti: int)
    requires p >= 1 && Located(y, p, k, Pow2(p - 1), 0, ti) && ti == 1 && (d != Nearest || k >= 1) && x == y * R2(e - p)
    ensures var r := Adjusted(p, d, NormSig(p, Pow2(p - 1)), NormExp(p, Pow2(p - 1), e), 0, ti); CorrectlyRounded(x, p, d, r.0, r.1, r.2)
  {
    hide R2, Pow2, CorrectlyRounded, RoundsTo, Located;
    AlignedBelow(y, p, d, k, ti);
    R2Step(e - 1 - p);
    RealTwice(y, R2(e - 1 - p));
    Pow2Step(p - 1);
    ScaledRounding(x, 2.0 * y, p, d, e - 1, if d == TowardZero then Pow2(p) - 1 else Pow2(p), if d == TowardZero then -1 else 1);
  }

  lemma AlignedOnce(x: real, y: real, p: nat, d: Direction, e: int, k: nat, au: int, ti: int)
    requires Located(y, p, k, au, 0, ti) && IsSignificand(p, au) && ti != 0 && -1 <= ti <= 1 && (d != Nearest || k >= 1)
    requires x == y * R2(e - p) && (ti < 0 || au > Pow2(p - 1))
    ensures var r := Adjusted(p, d, NormSig(p, au), NormExp(p, au, e), 0, ti); CorrectlyRounded(x, p, d, r.0, r.1, r.2)
  {
    hide R2, Pow2, CorrectlyRounded, RoundsTo, Located;
    Aligned(y, p, d, k, au, ti);
    if ti < 0 {
      WithinBinade(x, y, p, d, e, au, if d == AwayFromZero then au + 1 else au, if d == AwayFromZero then 1 else -1);
    } else {
      WithinBinade(x, y, p, d, e, au - 1, if d == TowardZero then au - 1 else au, if d == TowardZero then -1 else 1);
    }
  }
}

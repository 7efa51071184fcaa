/** The upper part of a significand shifted right, as an integer in an array, and
    the tail that is left over; how addition and division prepare operands. */
module Shifts {
  import opened Powers
  import opened RealPowers
  import opened Limbs
  import opened Numbers
  import opened Streams

  /** The tail of c shifted right, once k of its limbs have been combined with
      those of b (k < 0: |k| limbs of b are still above it). */
  function TailC(cp: seq<limb>, difs: nat, k: int): real {
    if k < 0 then ShiftedTail(0, cp, difs) / BP(-k) as real
    else if k <= |cp| then ShiftedTail(if k == 0 then 0 else cp[|cp| - k], cp[..|cp| - k], difs)
    else 0.0
  }

  lemma TailCRange(cp: seq<limb>, difs: nat, k: int)
    ensures 0.0 <= TailC(cp, difs, k) < 1.0
    ensures k <= 0 && Val(cp) > 0 ==> TailC(cp, difs, k) > 0.0
  {
    hide Val, BP, Pow2, ShiftedTail;
    if k <= |cp| {
      ShiftedTailRange(if k <= 0 then 0 else cp[|cp| - k], cp[..|cp| - (if k < 0 then 0 else k)], difs);
      assert cp[..|cp|] == cp;
      if k < 0 { QuotientRange(ShiftedTail(0, cp, difs), BP(-k) as real); }
    }
  }

  lemma TailCStep(cp: seq<limb>, difs: nat, k: int)
    requires difs < 64
    ensures k < 0 ==> TailC(cp, difs, k) * B as real == TailC(cp, difs, k + 1)
    ensures 0 <= k <= |cp| ==>
              TailC(cp, difs, k) * B as real ==
              NextShifted(if k == 0 then 0 else cp[|cp| - k], cp[..|cp| - k], difs) as real + TailC(cp, difs, k + 1)
  {
    hide Val, BP, Pow2, ShiftedTail, NextShifted;
    if k < 0 {
      BPStep(-k - 1);
      if k == -1 {
        BPZero();
        assert cp[..|cp|] == cp;
      }
      QuotientScale(ShiftedTail(0, cp, difs), BP(-k - 1), B);
    } else if k <= |cp| {
      var s := cp[..|cp| - k];
      ShiftedTailStep(if k == 0 then 0 else cp[|cp| - k], s, difs);
      if |s| > 0 { assert s[..|s| - 1] == cp[..|cp| - (k + 1)]; }
    }
  }

  lemma QuotientScale(x: real, p: int, b: int)
    requires p >= 1 && b >= 1
    ensures b * p >= 1
    ensures (x / (b * p) as real) * b as real == x / p as real
  {
    MulMono(1, b, p);
    CastProduct(b, p);
    var q := x / (b * p) as real;
    assert q * (b * p) as real == x;
    assert q * (b as real * p as real) == (q * b as real) * p as real by { RealSwap2(q, p as real, b as real); RealComm(b as real, p as real); }
    RealDivide(q * b as real, p as real);
  }

  lemma TailCPast(cp: seq<limb>, difs: nat, k: int)
    ensures k > |cp| ==> TailC(cp, difs, k) == 0.0 && TailC(cp, difs, k + 1) == 0.0
  {}

  /** Nothing of c remains. */
  lemma TailCEnd(cp: seq<limb>, difs: nat, k: int)
    ensures k > |cp| || (difs == 0 && k == |cp|) ==> TailC(cp, difs, k) == 0.0
  {
    if difs == 0 && k == |cp| {
      ShiftedTailUnshifted(if k == 0 then 0 else cp[|cp| - k], cp[..|cp| - k]);
      FracRange(cp[..|cp| - k]);
      ValEmpty(cp[..|cp| - k]);
    }
  }

  /** The top `top` limbs of c, shifted, and the tail below them. */
  lemma TopOfC(cp: seq<limb>, difs: nat, top: nat)
    requires difs < 64 && 0 < top <= |cp|
    ensures Frac(cp) / Pow2(difs) as real * BP(top) as real
              == (Val(cp[|cp| - top..]) / Pow2(difs)) as real + TailC(cp, difs, top)
  {
    hide Val, Frac, Pow2, BP;
    var ck := |cp| - top;
    var h := cp[ck..];
    FracSplit(cp, ck);
    LowLimb(h, difs);
    MulComm(Pow2(difs), Val(h) / Pow2(difs));
    CastProduct(Val(h) / Pow2(difs), Pow2(difs));
    DivideSplit(Frac(cp), Frac(cp[..ck]), BP(top) as real, Pow2(difs) as real, (Val(h) / Pow2(difs)) as real,
                (Val(h) % Pow2(difs)) as real);
  }

  lemma DivideSplit(x: real, f: real, b: real, d: real, q: real, m: real)
    requires d > 0.0 && x * b == q * d + m + f
    ensures x / d * b == q + (m + f) / d
  {
    var t := x / d;
    assert t * d == x;
    var r := (m + f) / d;
    assert r * d == m + f;
    assert (t * b) * d == (q + r) * d by { RealRegroup2(t, b, d); RealComm(b, d); RealRegroup2(t, d, b); RealExpand(q, r, d); }
    RealMono(t * b, q + r, d);
  }

  /** c has fewer limbs than the part of a below it: nothing is lost. */
  lemma AllOfC(cp: seq<limb>, difs: nat, z: nat, out: int, v: int)
    requires 0 < difs < 64 && z > 0
    requires out == (Val(cp) % Pow2(difs)) * Pow2(64 - difs)
    requires v == out * BP(z - 1) + Val(cp) / Pow2(difs) * BP(z)
    ensures Frac(cp) / Pow2(difs) as real * BP(|cp| + z) as real == v as real
  {
    hide Val, Pow2, BP;
    var d, g, b1 := Pow2(difs), Pow2(64 - difs), BP(z - 1);
    Pow2Limb();
    Pow2Add(difs, 64 - difs);
    BPStep(z - 1);
    BPAdd(|cp|, z);
    CastProduct(BP(|cp|), BP(z));
    MulComm(d, Val(cp) / d);
    assert v * d == Val(cp) * BP(z) by {
      MulAssoc(Val(cp) % d, g, b1);
      Distrib((Val(cp) % d) * g * b1, Val(cp) / d * BP(z), d);
      FourProduct(Val(cp) % d, g, b1, d);
      FourProduct2(Val(cp) / d, BP(z), d);
      Distrib(Val(cp) / d * d, Val(cp) % d, BP(z));
    }
    CastProduct(v, d);
    CastProduct(Val(cp), BP(z));
    FractionShift(Val(cp) as real, BP(|cp|) as real, BP(z) as real, d as real, v as real);
  }

  lemma FourProduct(m: int, g: int, b: int, d: int)
    ensures (m * g * b) * d == m * (d * g * b)
  {}

  lemma FourProduct2(q: int, b: int, d: int)
    ensures (q * b) * d == (q * d) * b
  {}

  lemma FractionShift(x: real, p: real, z: real, d: real, v: real)
    requires p > 0.0 && d > 0.0 && v * d == x * z
    ensures x / p / d * (p * z) == v
  {
    var f := x / p;
    assert f * p == x;
    var t := f / d;
    assert t * d == f;
    assert (t * (p * z)) * d == v * d by {
      RealRegroup2(t, p * z, d);
      RealComm(p * z, d);
      RealRegroup2(t, d, p * z);
      RealRegroup2(f, p, z);
    }
    RealMono(t * (p * z), v, d);
  }

  lemma UnshiftedC(cp: seq<limb>, z: nat)
    ensures Frac(cp) * BP(|cp| + z) as real == (Val(cp) * BP(z)) as real
  {
    hide Val, BP;
    BPAdd(|cp|, z);
    CastProduct(BP(|cp|), BP(z));
    CastProduct(Val(cp), BP(z));
    Pow2Zero();
    FractionShift(Val(cp) as real, BP(|cp|) as real, BP(z) as real, 1.0, Val(cp) as real * BP(z) as real);
  }

  /** The integer held by an array whose middle is known and whose rest is zero. */
  lemma PlacedValue(s: seq<limb>, lo: nat, hi: nat)
    requires lo <= hi <= |s|
    requires Val(s[..lo]) == 0 && Val(s[hi..]) == 0
    ensures Val(s) == Val(s[lo..hi]) * BP(lo)
  {
    hide Val, BP;
    ValSplit(s, hi);
    ValSplit(s[..hi], lo);
    assert s[..hi][..lo] == s[..lo] && s[..hi][lo..] == s[lo..hi];
    MulComm(Val(s[lo..hi]), BP(lo));
    ProductZero(0, BP(hi));
  }

  /** The upper difn limbs of c, shifted, between stretches of zeros; the bits
      shifted out are put into the limb below, if there is one (add1.c:171-179,
      div.c:1043-1058). */
  method ShiftIn(ap: array<limb>, cp: seq<limb>, shift: nat, difn: nat, low: nat) returns (out: limb)
    requires shift < 64 && 0 < difn <= |cp| && low + difn <= ap.Length && (low > 0 ==> difn == |cp|)
    requires forall i :: 0 <= i < low || low + difn <= i < ap.Length ==> ap[i] == 0
    modifies ap
    ensures Val(ap[..]) as real + TailC(cp, shift, low + difn) == Frac(cp) / Pow2(shift) as real * BP(low + difn) as real
    ensures out == 0 <==> cp[|cp| - difn] % Pow2(shift) == 0
  {
    hide Val, Frac, Pow2, BP, TailC;
    ghost var before := ap[..];
    ValZeros(before[..low]);
    ValZeros(before[low + difn..]);
    if shift != 0 {
      out := MpnRshift(ap, low, cp[|cp| - difn..], shift);
      LowLimb(cp[|cp| - difn..], shift);
      ProductZero(cp[|cp| - difn] % Pow2(shift), Pow2(64 - shift));
      ghost var after := ap[..];
      assert after[..low] == before[..low] && after[low + difn..] == before[low + difn..];
      if low > 0 {
        ap[low - 1] := out;
        assert ap[..low - 1] == after[..low][..low - 1];
        assert ap[low..low + difn] == after[low..low + difn];
      }
      assert ap[..][low + difn..] == before[low + difn..];
      PlacedShifted(ap[..], cp, shift, difn, low, out);
    } else {
      out := 0;
      Pow2Zero();
      MpnCopy(ap, low, cp[|cp| - difn..]);
      assert ap[..][..low] == before[..low] && ap[..][low + difn..] == before[low + difn..];
      PlacedUnshifted(ap[..], cp, difn, low);
    }
  }

  lemma PlacedShifted(s: seq<limb>, cp: seq<limb>, shift: nat, difn: nat, low: nat, out: int)
    requires 0 < shift < 64 && 0 < difn <= |cp| && low + difn <= |s| && (low > 0 ==> difn == |cp|)
    requires Val(s[low..low + difn]) == Val(cp[|cp| - difn..]) / Pow2(shift)
    requires out == (Val(cp[|cp| - difn..]) % Pow2(shift)) * Pow2(64 - shift)
    requires low > 0 ==> s[low - 1] == out && forall i :: 0 <= i < low - 1 ==> s[i] == 0
    requires Val(s[low + difn..]) == 0
    ensures Val(s) as real + TailC(cp, shift, low + difn) == Frac(cp) / Pow2(shift) as real * BP(low + difn) as real
  {
    hide Val, Frac, Pow2, BP;
    var n := low + difn;
    ValSplit(s, n);
    ProductZero(0, BP(n));
    var m := s[..n];
    ValSplit(m, low);
    assert m[low..] == s[low..n] && m[..low] == s[..low];
    MulComm(Val(s[low..n]), BP(low));
    if low == 0 {
      ValEmpty(m[..0]);
      BPZero();
      TopOfC(cp, shift, difn);
    } else {
      assert cp[|cp| - difn..] == cp;
      OneLimb(s[..low]);
      AllOfC(cp, shift, low, out, Val(s));
      TailCEnd(cp, shift, n);
    }
  }

  lemma PlacedUnshifted(s: seq<limb>, cp: seq<limb>, difn: nat, low: nat)
    requires 0 < difn <= |cp| && low + difn <= |s| && (low > 0 ==> difn == |cp|)
    requires s[low..low + difn] == cp[|cp| - difn..]
    requires Val(s[..low]) == 0 && Val(s[low + difn..]) == 0
    ensures Val(s) as real + TailC(cp, 0, low + difn) == Frac(cp) / Pow2(0) as real * BP(low + difn) as real
  {
    hide Val, Frac, Pow2, BP;
    PlacedValue(s, low, low + difn);
    Pow2Zero();
    if low == 0 {
      BPZero();
      TopOfC(cp, 0, difn);
    } else {
      assert cp[|cp| - difn..] == cp;
      UnshiftedC(cp, low);
      TailCEnd(cp, 0, low + difn);
    }
  }

  ghost function TailB(bp: seq<limb>, an: nat): real {
    if |bp| > an then Frac(bp[..|bp| - an]) else 0.0
  }

  lemma TailBRange(bp: seq<limb>, an: nat)
    ensures 0.0 <= TailB(bp, an) < 1.0
  {
    if |bp| > an { FracRange(bp[..|bp| - an]); }
  }

  /** The top an limbs of b, padded with zeros. */
  function TopB(bp: seq<limb>, an: nat): int {
    if |bp| > an then Val(bp[|bp| - an..]) else Val(bp) * BP(an - |bp|)
  }

  lemma TopBValue(bp: seq<limb>, an: nat)
    requires |bp| > 0 && an > 0 && bp[|bp| - 1] >= HALF
    ensures Frac(bp) * BP(an) as real == TopB(bp, an) as real + TailB(bp, an)
    ensures HALF * BP(an - 1) <= TopB(bp, an) < BP(an)
  {
    hide Val, BP, Frac;
    if |bp| > an {
      FracSplit(bp, |bp| - an);
      HighLimb(bp[|bp| - an..]);
      ValBound(bp[|bp| - an..]);
    } else {
      var z := an - |bp|;
      UnshiftedC(bp, z);
      HighLimb(bp);
      ValBound(bp);
      BPAdd(|bp| - 1, z);
      BPAdd(|bp|, z);
      MulMono(HALF * BP(|bp| - 1), Val(bp), BP(z));
      MulAssoc(HALF, BP(|bp| - 1), BP(z));
      MulStrict(Val(bp), BP(|bp|), BP(z));
    }
  }

  /** c, shifted right by diffExp bits, in units of the last limb of a. */
  function ScaledC(cp: seq<limb>, diffExp: nat, an: nat): real {
    Frac(cp) / Pow2(diffExp) as real * BP(an) as real
  }

  /** Splitting off whole limbs of the shift. */
  lemma ScaledCSplit(cp: seq<limb>, diffExp: nat, an: nat)
    ensures var k, difs := diffExp / 64, diffExp % 64;
            && (k <= an ==> ScaledC(cp, diffExp, an) == Frac(cp) / Pow2(difs) as real * BP(an - k) as real)
            && (k > an ==> ScaledC(cp, diffExp, an) == Frac(cp) / Pow2(difs) as real / BP(k - an) as real)
  {
    hide Val, Frac, Pow2, BP;
    var k, difs := diffExp / 64, diffExp % 64;
    Pow2Add(difs, 64 * k);
    BPPow2(k);
    if k <= an {
      BPAdd(k, an - k);
      CancelLimbs(Frac(cp), Pow2(difs), BP(k), BP(an - k), Pow2(diffExp), BP(an));
    } else {
      BPAdd(an, k - an);
      CancelLimbs2(Frac(cp), Pow2(difs), BP(k), BP(an), BP(k - an), Pow2(diffExp));
    }
  }

  lemma CancelLimbs(x: real, d: int, b: int, c: int, db: int, bc: int)
    requires d >= 1 && b >= 1 && db == d * b && bc == b * c && db >= 1
    ensures x / db as real * bc as real == x / d as real * c as real
  {
    CastProduct(d, b);
    CastProduct(b, c);
    CancelFactor(x, d as real, b as real, c as real);
  }

  lemma CancelLimbs2(x: real, d: int, b: int, a: int, c: int, db: int)
    requires d >= 1 && a >= 1 && c >= 1 && b == a * c && db == d * b && db >= 1
    ensures x / db as real * a as real == x / d as real / c as real
  {
    CastProduct(a, c);
    CastProduct(d, b);
    CancelFactor2(x, d as real, a as real, c as real);
  }

  lemma CancelFactor(x: real, d: real, b: real, c: real)
    requires d > 0.0 && b > 0.0
    ensures d * b > 0.0
    ensures x / (d * b) * (b * c) == x / d * c
  {
    var q := x / d;
    assert q * d == x;
    var t := x / (d * b);
    assert t * (d * b) == x;
    assert (t * b) * d == x by { RealRegroup2(t, b, d); RealComm(b, d); }
    RealMono(t * b, q, d);
    RealRegroup2(t, b, c);
  }

  lemma CancelFactor2(x: real, d: real, b: real, c: real)
    requires d > 0.0 && b > 0.0 && c > 0.0
    ensures b * c > 0.0 && d * (b * c) > 0.0
    ensures x / (d * (b * c)) * b == x / d / c
  {
    var t := x / (d * (b * c));
    assert t * (d * (b * c)) == x;
    var q := x / d;
    assert q * d == x;
    assert ((t * b) * c) * d == x by { RealRegroup2(t, b, c); RealRegroup2(t, b * c, d); RealComm(b * c, d); }
    RealMono((t * b) * c, q, d);
    RealDivide(t * b, c);
  }

  /** The tail of c when nothing of it overlaps a. */
  lemma NoOverlap(cp: seq<limb>, diffExp: nat, an: nat)
    requires 64 * an <= diffExp
    ensures ScaledC(cp, diffExp, an) == TailC(cp, diffExp % 64, an - diffExp / 64)
  {
    hide Val, Frac, Pow2, BP;
    ScaledCSplit(cp, diffExp, an);
    BPZero();
    assert cp[..|cp|] == cp;
    assert 0 as limb % Pow2(diffExp % 64) == 0;
  }
}

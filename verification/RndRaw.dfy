/** MPFR_RNDRAW_GEN (mpfr-impl.h:1836-1958), as cache.c instantiates it: the limbs
    of a positive cached number of q bits are rounded to p <= q bits, and the
    middle of two floats is decided by the ternary value of the cached number. */
module RndRaw {
  import opened Powers
  import opened Limbs
  import opened Rounding
  import opened Numbers
  import opened Significands
  import opened RoundCached

  /** The bits of the p-bit significand and what is below it, in the limbs. */
  lemma SplitBits(s: seq<limb>, q: nat, p: nat)
    requires Normalized(s, q) && 1 <= p < q
    ensures var n, sh, k := LimbCount(q) - LimbCount(p), Unused(p), q - p;
            var au, low := Sig(s, q) / Pow2(k), Sig(s, q) % Pow2(k);
            && 0 <= n < |s| == LimbCount(q) && IsSignificand(p, au)
            && Val(s[n..]) == au * Pow2(sh) + s[n] % Pow2(sh)
            && low * Pow2(Unused(q)) == (s[n] % Pow2(sh)) * BP(n) + Val(s[..n])
            && Pow2(sh) * BP(n) == Pow2(k) * Pow2(Unused(q))
  {
    hide Pow2, BP, Val;
    var n, sh, k, u := LimbCount(q) - LimbCount(p), Unused(p), q - p, Unused(q);
    NormalizedValue(s, q);
    BPPow2(n);
    Pow2Add(sh, 64 * n);
    Pow2Add(k, u);
    Pow2Add(p, k);
    Pow2Add(p - 1, k);
    ValSplit(s, n);
    ValBound(s[..n]);
    LowLimb(s[n..], sh);
    MulComm(BP(n), Val(s[n..]));
    Regroup(Val(s), Sig(s, q), Val(s[n..]), Val(s[..n]), Pow2(sh), BP(n), Pow2(k), Pow2(u), Pow2(p - 1), Pow2(p));
  }

  lemma Regroup(v: int, m: int, h: int, r: int, d: int, b: int, k: int, u: int, lo: int, hi: int)
    requires d >= 1 && b >= 1 && k >= 1 && u >= 1 && lo >= 1 && d * b == k * u && h >= 0
    requires v == m * u && v == r + h * b && 0 <= r < b && lo * k <= m < hi * k
    ensures h == m / k * d + h % d && m % k * u == h % d * b + r && lo <= m / k < hi
  {
    Parts(m, k, lo, hi);
    MulComm(d, h / d);
    ProductBounds(h % d, r, d, b);
    ProductBounds(m % k, 0, k, u);
    SameSplit(v, m / k, m % k * u, h / d, h % d * b + r, k * u) by {
      Distrib(m / k * k, m % k, u);
      MulAssoc(m / k, k, u);
      Distrib(h / d * d, h % d, b);
      MulAssoc(h / d, d, b);
    }
  }

  lemma ProductBounds(x: int, r: int, d: int, b: int)
    requires 0 <= x < d && 0 <= r && (r < b || (r == 0 && b >= 1))
    ensures 0 <= x * b + r < d * b
  {
    MulMono(x, d - 1, b);
    MulMono(0, x, b);
    Distrib(d, -1, b);
  }

  lemma SameSplit(v: int, a: int, l: int, c: int, r: int, d: int)
    requires v == a * d + l && v == c * d + r && 0 <= l < d && 0 <= r < d
    ensures a == c && l == r
  {
    DivUnique(v, d, a, l);
    DivUnique(v, d, c, r);
  }

  /** Sticky loops: do sb0 and the limbs below n0 vanish? */
  method Sticky(s: seq<limb>, n0: nat, sb0: limb) returns (sb: limb)
    requires n0 <= |s|
    ensures sb == 0 <==> sb0 == 0 && Val(s[..n0]) == 0
  {
    sb := sb0;
    var n := n0;
    while n != 0 && sb == 0
      invariant 0 <= n <= n0
      invariant sb == 0 <==> sb0 == 0 && forall i :: n <= i < n0 ==> s[i] == 0
    {
      n := n - 1;
      sb := s[n];
    }
    ValZeros(s[..n0]);
    assert forall i :: 0 <= i < n0 ==> s[..n0][i] == s[i];
  }

  /** The rounding bit and the sticky bit; the latter is only completed when it can
      matter. */
  method RoundBits(s: seq<limb>, q: nat, p: nat, nearest: bool) returns (rb: bool, sb: limb)
    requires Normalized(s, q) && 1 <= p < q
    ensures var k := q - p; var low := Sig(s, q) % Pow2(k);
            && (rb <==> 2 * low >= Pow2(k))
            && (!rb ==> (sb == 0 <==> low == 0))
            && (rb && nearest ==> (sb == 0 <==> 2 * low == Pow2(k)))
  {
    hide Pow2, BP, Val, Normalized, Sig;
    var n, sh := LimbCount(q) - LimbCount(p), Unused(p);
    LimbsAbove(s, q, p);
    var x, mask, j := if sh != 0 then s[n] else s[n - 1], if sh != 0 then Pow2(sh - 1) else HALF, if sh != 0 then n else n - 1;
    rb := x / mask % 2 == 1;
    sb := x % mask;
    LeadingBit(s, q, p, x, mask, j);
    if nearest || !rb {
      sb := Sticky(s, j, sb);
    }
  }

  lemma LimbsAbove(s: seq<limb>, q: nat, p: nat)
    requires Normalized(s, q) && 1 <= p < q
    ensures 0 <= LimbCount(q) - LimbCount(p) < LimbCount(q) == |s|
    ensures Unused(p) == 0 ==> LimbCount(q) > LimbCount(p)
  {}

  /** Where the rounding bit is, and what is below it. */
  lemma LeadingBit(s: seq<limb>, q: nat, p: nat, x: limb, mask: int, j: nat)
    requires Normalized(s, q) && 1 <= p < q && mask >= 1
    requires var n, sh := LimbCount(q) - LimbCount(p), Unused(p);
             if sh != 0 then x == s[n] && mask == Pow2(sh - 1) && j == n else n >= 1 && x == s[n - 1] && mask == HALF && j == n - 1
    ensures var low, k := Sig(s, q) % Pow2(q - p), Pow2(q - p);
            && (x / mask % 2 == 1 <==> 2 * low >= k)
            && (x / mask % 2 == 0 ==> (x % mask == 0 && Val(s[..j]) == 0 <==> low == 0))
            && (x / mask % 2 == 1 ==> (x % mask == 0 && Val(s[..j]) == 0 <==> 2 * low == k))
  {
    hide Pow2, BP, Val, Normalized, Sig;
    SplitBits(s, q, p);
    var n, sh := LimbCount(q) - LimbCount(p), Unused(p);
    var low, k, u := Sig(s, q) % Pow2(q - p), Pow2(q - p), Pow2(Unused(q));
    var top := x / mask % 2;
    MulComm(mask, top);
    LowBit(x, mask);
    TopHalf(x, mask);
    ValBound(s[..j]);
    if sh != 0 {
      Pow2Step(sh - 1);
    } else {
      Pow2Zero();
      ValTake(s, n - 1);
      BPStep(n - 1);
    }
    HalfBit(low * u, top, x % mask, mask, BP(j), Val(s[..j]), low, k, u);
  }

  /** The comparison of the rounding bits, mode by mode; `odd` is the last bit kept. */
  method Decide(rb: bool, sb: limb, odd: bool, d: Direction, ti: int, ghost au: int, ghost low: int, ghost k: nat)
    returns (up: bool, inexact: int)
    requires odd == (au % 2 == 1) && 0 <= low < Pow2(k) && (rb <==> 2 * low >= Pow2(k))
    requires !rb ==> (sb == 0 <==> low == 0)
    requires rb && d == Nearest ==> (sb == 0 <==> 2 * low == Pow2(k))
    ensures up == RawUp(d, au, low, k, ti) && inexact == RawInexact(d, au, low, k, ti)
  {
    hide Pow2;
    match d {
      case Nearest =>
        if !rb {
          up, inexact := false, if sb != 0 then -1 else 0;
        } else if sb == 0 {
          if ti == 0 {
            up, inexact := odd, if odd then 1 else -1;
          } else if ti < 0 {
            up, inexact := true, 1;
          } else {
            up, inexact := false, -1;
          }
        } else {
          up, inexact := true, 1;
        }
      case TowardZero =>
        up, inexact := false, if sb != 0 || rb then -1 else 0;
      case AwayFromZero =>
        up := sb != 0 || rb;
        inexact := if up then 1 else 0;
    }
  }

  /** trunc_doit: the upper limbs without the bits that are not part of A. */
  method Truncate(dp: array<limb>, sp: seq<limb>, p: nat, ghost au: int)
    requires p >= 1 && dp.Length == |sp| == LimbCount(p) && IsSignificand(p, au)
    requires Val(sp) == au * Pow2(Unused(p)) + sp[0] % Pow2(Unused(p))
    modifies dp
    ensures Holding(dp[..], p, au)
  {
    hide Val, Pow2, IsSignificand;
    MpnCopy(dp, 0, sp);
    assert dp[..] == sp;
    var low := dp[0] % Pow2(Unused(p));
    ModAtMost(dp[0], Pow2(Unused(p)));
    ClearLow(dp, p, low, au);
  }

  /** addoneulp_doit. */
  method AddUlp(dp: array<limb>, sp: seq<limb>, p: nat, e0: int, ghost au: int) returns (e: int)
    requires p >= 1 && dp.Length == |sp| == LimbCount(p) && IsSignificand(p, au)
    requires Val(sp) == au * Pow2(Unused(p)) + sp[0] % Pow2(Unused(p))
    modifies dp
    ensures Holding(dp[..], p, NormSig(p, au + 1)) && e == NormExp(p, au + 1, e0)
  {
    hide Val, Pow2, BP, Holding, IsSignificand;
    var n, sh := dp.Length, Unused(p);
    LimbsOfPrecision(p);
    MpnCopy(dp, 0, sp);
    assert dp[..] == sp && dp[0..n] == sp;
    var cy := MpnAdd1(dp, 0, n, Pow2(sh));
    assert dp[0..n] == dp[..];
    AfterAdd(sp, dp[..], cy, p, au);
    e := e0;
    if cy != 0 {
      e := e + 1;
      dp[n - 1] := HALF;
    }
    ModAtMost(dp[0], Pow2(sh));
    ClearLow(dp, p, dp[0] % Pow2(sh), NormSig(p, au + 1));
  }

  lemma AfterAdd(sp: seq<limb>, t: seq<limb>, cy: int, p: nat, au: int)
    requires p >= 1 && |sp| == |t| == LimbCount(p) && IsSignificand(p, au) && 0 <= cy <= 1
    requires Val(sp) == au * Pow2(Unused(p)) + sp[0] % Pow2(Unused(p))
    requires Val(t) + cy * BP(|t|) == Val(sp) + Pow2(Unused(p))
    ensures var t' := if cy == 0 then t else t[|t| - 1 := HALF];
            Val(t') == NormSig(p, au + 1) * Pow2(Unused(p)) + t'[0] % Pow2(Unused(p))
    ensures IsSignificand(p, NormSig(p, au + 1)) && (cy == 0 <==> NormExp(p, au + 1, 0) == 0)
  {
    hide Val, Pow2, BP;
    var sh := Unused(p);
    var d, bb := Pow2(sh), sp[0] % Pow2(sh);
    LimbsOfPrecision(p);
    Pow2Step(p - 1);
    ValBound(t);
    UlpCarryLow(Val(sp), Val(t), cy, au, bb, Pow2(p), d);
    if cy == 0 {
      LowLimb(t, sh);
      ModSmall(Val(t), d, au + 1);
    } else {
      HalfMultiple(sh);
      SetTop(t, bb, d);
    }
  }

  lemma HalfMultiple(sh: nat)
    requires sh < 64
    ensures HALF % Pow2(sh) == 0
  {
    hide Pow2;
    Pow2Limb();
    Pow2Add(63 - sh, sh);
    DivUnique(HALF, Pow2(sh), Pow2(63 - sh), 0);
  }

  lemma UlpCarryLow(v: int, v': int, cy: int, au: int, bb: int, hi: int, d: int)
    requires d >= 1 && 0 <= cy <= 1 && 0 <= v' < hi * d && au < hi && 0 <= bb < d
    requires v == au * d + bb && v' + cy * (hi * d) == v + d
    ensures cy == 0 ==> v' == (au + 1) * d + bb && au + 1 < hi && v' < (au + 2) * d
    ensures cy == 1 ==> v' == bb && au + 1 == hi && v' < d
  {
    Distrib(au, 1, d);
    Distrib(au, 2, d);
    if cy == 0 {
      if au + 1 >= hi { MulMono(hi, au + 1, d); }
    } else {
      if au + 1 < hi { MulMono(au + 2, hi, d); }
    }
  }

  /** After a carry only junk below the significand is left: the top bit is set. */
  lemma SetTop(s: seq<limb>, bb: nat, d: int)
    requires |s| >= 1 && Val(s) == bb < d <= HALF && HALF % d == 0
    ensures Val(s[|s| - 1 := HALF]) == HALF * BP(|s| - 1) + s[|s| - 1 := HALF][0] % d
  {
    hide Val, BP;
    var n := |s|;
    SetLimb(s, n - 1, HALF);
    ValTake(s, n - 1);
    assert s[..n] == s;
    BPZero();
    ValSplit(s, 1);
    ValOne(s[0]);
    assert s[..1] == [s[0]];
    if n >= 2 {
      BPStep(n - 2);
      MulMono(1, BP(n - 2), B);
      if s[n - 1] > 0 { MulMono(1, s[n - 1], BP(n - 1)); }
      assert s[n - 1] == 0;
      BPStep(0);
      ModSmall(bb, d, 0);
    }
  }

  /** The whole macro. */
  method Round(dp: array<limb>, s: seq<limb>, q: nat, p: nat, d: Direction, ti: int, e0: int) returns (inexact: int, e: int)
    requires Normalized(s, q) && 1 <= p <= q && dp.Length == LimbCount(p)
    modifies dp
    ensures var k := q - p; var au, low := Sig(s, q) / Pow2(k), Sig(s, q) % Pow2(k);
            var r := RawSig(d, au, low, k, ti);
            && Holding(dp[..], p, NormSig(p, r)) && e == NormExp(p, r, e0)
            && inexact == RawInexact(d, au, low, k, ti)
  {
    hide Pow2, BP, Val, Normalized, Sig;
    if p >= q {
      WholeSignificand(s, q);
      MpnCopy(dp, 0, s);
      assert dp[..] == s;
      inexact, e := 0, e0;
    } else {
      SplitBits(s, q, p);
      var n, sh := LimbCount(q) - LimbCount(p), Unused(p);
      ghost var au, low := Sig(s, q) / Pow2(q - p), Sig(s, q) % Pow2(q - p);
      var rb, sb := RoundBits(s, q, p, d == Nearest);
      LastBit(s[n..], sh, au);
      var up;
      up, inexact := Decide(rb, sb, s[n] / Pow2(sh) % 2 == 1, d, ti, au, low, q - p);
      e := e0;
      if up {
        e := AddUlp(dp, s[n..], p, e0, au);
      } else {
        Truncate(dp, s[n..], p, au);
      }
    }
  }

  lemma WholeSignificand(s: seq<limb>, q: nat)
    requires Normalized(s, q)
    ensures Holding(s, q, Sig(s, q)) && Sig(s, q) / Pow2(0) == Sig(s, q) && Sig(s, q) % Pow2(0) == 0
  {
    hide Val, BP;
    NormalizedValue(s, q);
  }

  lemma LastBit(s: seq<limb>, sh: nat, au: int)
    requires |s| >= 1 && sh < 64 && Val(s) == au * Pow2(sh) + s[0] % Pow2(sh)
    ensures s[0] / Pow2(sh) % 2 == au % 2
  {
    hide Val, Pow2;
    LowLimb(s, sh + 1);
    Pow2Step(sh);
    LowBit(s[0], Pow2(sh));
    LowBit(Val(s), Pow2(sh));
    DivUnique(Val(s), Pow2(sh), au, s[0] % Pow2(sh));
  }
}

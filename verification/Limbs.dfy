/** Machine words, multi-word integers and the GMP primitives that the
    algorithms are built from.

    A limb is a natural number below `B` = 2^64.  A sequence of limbs, least
    significant limb first, stands for the integer `Val`; read as a binary
    fraction with the point left of its most significant limb it stands for the
    real `Frac`.

    The `Mpn...` methods are GMP's, whose sources are not part of this model:
    each is specified by what it does to the integer held in a stretch of an
    array, and has a reference body. */
module Limbs {
  import opened Powers

  const B: int := 0x1_0000_0000_0000_0000
  const HALF: int := 0x8000_0000_0000_0000

  type limb = x: int | 0 <= x < 0x1_0000_0000_0000_0000

  /** B^n. */
  function BP(n: nat): (r: int)
    ensures r >= 1
  {
    if n == 0 then 1 else B * BP(n - 1)
  }

  /** The integer held in a sequence of limbs, least significant first. */
  function Val(s: seq<limb>): (r: int)
    ensures r >= 0
  {
    if s == [] then 0 else s[0] + B * Val(s[1..])
  }

  /** The limbs of v, low n of them. */
  function ToLimbs(v: nat, n: nat): (s: seq<limb>)
    ensures |s| == n
  {
    if n == 0 then [] else [v % B] + ToLimbs(v / B, n - 1)
  }

  lemma {:induction false} LimbsVal(v: nat, n: nat)
    ensures Val(ToLimbs(v, n)) == v % BP(n)
  {
    if n == 0 {
    } else {
      var s := ToLimbs(v, n);
      assert s[1..] == ToLimbs(v / B, n - 1);
      LimbsVal(v / B, n - 1);
      ModProduct(v, B, BP(n - 1));
    }
  }

  lemma {:induction false} ValConcat(s: seq<limb>, t: seq<limb>)
    ensures Val(s + t) == Val(s) + BP(|s|) * Val(t)
  {
    if s == [] {
      assert s + t == t;
    } else {
      assert (s + t)[1..] == s[1..] + t;
      ValConcat(s[1..], t);
      MulAssoc(B, BP(|s| - 1), Val(t));
    }
  }

  lemma ValSplit(s: seq<limb>, k: nat)
    requires k <= |s|
    ensures Val(s) == Val(s[..k]) + BP(k) * Val(s[k..])
  {
    assert s == s[..k] + s[k..];
    ValConcat(s[..k], s[k..]);
  }

  lemma ValOne(x: limb)
    ensures Val([x]) == x
  {
    assert [x][1..] == [];
  }

  /** Taking one limb more: the recurrence every loop upwards uses. */
  lemma ValTake(s: seq<limb>, k: nat)
    requires k < |s|
    ensures Val(s[..k + 1]) == Val(s[..k]) + s[k] * BP(k)
  {
    assert s[..k + 1] == s[..k] + [s[k]];
    ValConcat(s[..k], [s[k]]);
    ValOne(s[k]);
  }

  lemma {:induction false} ValBound(s: seq<limb>)
    ensures Val(s) < BP(|s|)
  {
    if s != [] { ValBound(s[1..]); }
  }

  /** Equal length and equal value mean equal limbs. */
  lemma {:induction false} ValInjective(s: seq<limb>, t: seq<limb>)
    requires |s| == |t| && Val(s) == Val(t)
    ensures s == t
  {
    if s != [] {
      ValInjective(s[1..], t[1..]);
      assert s == [s[0]] + s[1..] && t == [t[0]] + t[1..];
    }
  }

  lemma {:induction false} ValZeros(s: seq<limb>)
    ensures Val(s) == 0 <==> forall i :: 0 <= i < |s| ==> s[i] == 0
  {
    if s != [] {
      ValZeros(s[1..]);
      if Val(s) == 0 {
        forall i | 0 <= i < |s| ensures s[i] == 0 {
          if i > 0 { assert s[i] == s[1..][i - 1]; }
        }
      } else if Val(s[1..]) != 0 {
        var i :| 0 <= i < |s[1..]| && s[1..][i] != 0;
        assert s[i + 1] != 0;
      }
    }
  }

  lemma {:induction false} BPAdd(m: nat, n: nat)
    ensures BP(m + n) == BP(m) * BP(n)
  {
    if m != 0 {
      BPAdd(m - 1, n);
      MulAssoc(B, BP(m - 1), BP(n));
    }
  }

  lemma {:induction false} BPPow2(n: nat)
    ensures BP(n) == Pow2(64 * n)
  {
    if n != 0 {
      BPPow2(n - 1);
      Pow2Add(64, 64 * (n - 1));
      Pow2Limb();
    }
  }

  lemma Pow2Sixteen()
    ensures Pow2(16) == 0x1_0000
  {
    assert Pow2(4) == 16;
    Pow2Add(4, 4);
    Pow2Add(8, 8);
  }

  lemma Pow2Limb()
    ensures Pow2(64) == B && Pow2(63) == HALF
  {
    Pow2Sixteen();
    Pow2Add(16, 16);
    Pow2Add(32, 32);
    Pow2Add(1, 63);
  }

  lemma ShiftRightBounds(v: nat, k: nat, n: nat)
    requires v < BP(n) && 0 < k < 64
    ensures 0 <= v / Pow2(k) < BP(n)
    ensures 0 <= (v % Pow2(k)) * Pow2(64 - k) < B
  {
    DivLe(v, Pow2(k));
    Pow2Limb();
    Pow2Add(k, 64 - k);
    MulStrict(v % Pow2(k), Pow2(k), Pow2(64 - k));
    MulMono(0, v % Pow2(k), Pow2(64 - k));
  }

  lemma ShiftLeftBounds(v: nat, k: nat, n: nat)
    requires v < BP(n) && 0 < k < 64
    ensures 0 <= v * Pow2(k) / BP(n) < B
    ensures 0 <= v * Pow2(k) % BP(n) < BP(n)
    ensures v * Pow2(k) % BP(n) + v * Pow2(k) / BP(n) * BP(n) == v * Pow2(k)
  {
    MulDivSplit(v, Pow2(k), BP(n));
    Pow2Limb();
    Pow2Mono(k, 64);
  }

  // ---- storing integers into arrays ----------------------------------------

  /** Writes v into n limbs. */
  method Store(rp: array<limb>, lo: nat, n: nat, v: nat)
    requires lo + n <= rp.Length && v < BP(n)
    modifies rp
    ensures Val(rp[lo..lo + n]) == v
    ensures rp[..lo] == old(rp[..lo]) && rp[lo + n..] == old(rp[lo + n..])
  {
    var s := ToLimbs(v, n);
    forall i | 0 <= i < n { rp[lo + i] := s[i]; }
    assert rp[lo..lo + n] == s;
    LimbsVal(v, n);
    ModSmall(v, BP(n), 0);
  }

  /** {rp + lo, |s|} <- {rp + lo, |s|} + s, returning the carry. */
  method MpnAddN(rp: array<limb>, lo: nat, s: seq<limb>) returns (cy: limb)
    requires lo + |s| <= rp.Length
    modifies rp
    ensures cy <= 1
    ensures Val(rp[lo..lo + |s|]) + cy * BP(|s|) == Val(old(rp[lo..lo + |s|])) + Val(s)
    ensures rp[..lo] == old(rp[..lo]) && rp[lo + |s|..] == old(rp[lo + |s|..])
  {
    ValBound(rp[lo..lo + |s|]);
    ValBound(s);
    var v := Val(rp[lo..lo + |s|]) + Val(s);
    cy := if v < BP(|s|) then 0 else 1;
    Store(rp, lo, |s|, if v < BP(|s|) then v else v - BP(|s|));
  }

  /** {rp + lo, |s|} <- {rp + lo, |s|} - s, returning the borrow. */
  method MpnSubN(rp: array<limb>, lo: nat, s: seq<limb>) returns (cy: limb)
    requires lo + |s| <= rp.Length
    modifies rp
    ensures cy <= 1
    ensures Val(rp[lo..lo + |s|]) == Val(old(rp[lo..lo + |s|])) - Val(s) + cy * BP(|s|)
    ensures rp[..lo] == old(rp[..lo]) && rp[lo + |s|..] == old(rp[lo + |s|..])
  {
    ValBound(rp[lo..lo + |s|]);
    ValBound(s);
    var v := Val(rp[lo..lo + |s|]) - Val(s);
    cy := if v >= 0 then 0 else 1;
    Store(rp, lo, |s|, if v >= 0 then v else v + BP(|s|));
  }

  /** {rp + lo, n} <- {rp + lo, n} + x, returning the carry. */
  method MpnAdd1(rp: array<limb>, lo: nat, n: nat, x: limb) returns (cy: limb)
    requires 0 < n && lo + n <= rp.Length
    modifies rp
    ensures cy <= 1
    ensures Val(rp[lo..lo + n]) + cy * BP(n) == Val(old(rp[lo..lo + n])) + x
    ensures rp[..lo] == old(rp[..lo]) && rp[lo + n..] == old(rp[lo + n..])
  {
    LimbsVal(x, n);
    MulMono(1, BP(n - 1), B);
    ModSmall(x, BP(n), 0);
    cy := MpnAddN(rp, lo, ToLimbs(x, n));
  }

  /** {rp + lo, n} <- {rp + lo, n} - x, returning the borrow. */
  method MpnSub1(rp: array<limb>, lo: nat, n: nat, x: limb) returns (cy: limb)
    requires 0 < n && lo + n <= rp.Length
    modifies rp
    ensures cy <= 1
    ensures Val(rp[lo..lo + n]) == Val(old(rp[lo..lo + n])) - x + cy * BP(n)
    ensures rp[..lo] == old(rp[..lo]) && rp[lo + n..] == old(rp[lo + n..])
  {
    LimbsVal(x, n);
    MulMono(1, BP(n - 1), B);
    ModSmall(x, BP(n), 0);
    cy := MpnSubN(rp, lo, ToLimbs(x, n));
  }

  /** {rp + lo, |s|} <- s >> k for 0 < k < 64, returning the bits shifted out,
      left aligned. */
  method MpnRshift(rp: array<limb>, lo: nat, s: seq<limb>, k: nat) returns (out: limb)
    requires lo + |s| <= rp.Length && 0 < k < 64
    modifies rp
    ensures Val(rp[lo..lo + |s|]) == Val(s) / Pow2(k)
    ensures out == (Val(s) % Pow2(k)) * Pow2(64 - k)
    ensures rp[..lo] == old(rp[..lo]) && rp[lo + |s|..] == old(rp[lo + |s|..])
  {
    ValBound(s);
    ShiftRightBounds(Val(s), k, |s|);
    out := (Val(s) % Pow2(k)) * Pow2(64 - k);
    Store(rp, lo, |s|, Val(s) / Pow2(k));
  }

  /** {rp + lo, |s|} <- s << k for 0 < k < 64, returning the bits shifted out. */
  method MpnLshift(rp: array<limb>, lo: nat, s: seq<limb>, k: nat) returns (out: limb)
    requires lo + |s| <= rp.Length && 0 < k < 64
    modifies rp
    ensures Val(rp[lo..lo + |s|]) + out * BP(|s|) == Val(s) * Pow2(k)
    ensures rp[..lo] == old(rp[..lo]) && rp[lo + |s|..] == old(rp[lo + |s|..])
  {
    ValBound(s);
    ShiftLeftBounds(Val(s), k, |s|);
    out := Val(s) * Pow2(k) / BP(|s|);
    Store(rp, lo, |s|, Val(s) * Pow2(k) % BP(|s|));
  }

  /** {rp + lo, |s|} <- s. */
  method MpnCopy(rp: array<limb>, lo: nat, s: seq<limb>)
    requires lo + |s| <= rp.Length
    modifies rp
    ensures rp[lo..lo + |s|] == s
    ensures rp[..lo] == old(rp[..lo]) && rp[lo + |s|..] == old(rp[lo + |s|..])
  {
    forall i | 0 <= i < |s| { rp[lo + i] := s[i]; }
    assert rp[lo..lo + |s|] == s;
  }

  /** {rp + lo, n} <- 0. */
  method MpnZero(rp: array<limb>, lo: nat, n: nat)
    requires lo + n <= rp.Length
    modifies rp
    ensures forall i :: 0 <= i < rp.Length ==> rp[i] == if lo <= i < lo + n then 0 else old(rp[i])
    ensures Val(rp[lo..lo + n]) == 0
  {
    forall i | lo <= i < lo + n { rp[i] := 0; }
    ValZeros(rp[lo..lo + n]);
  }

  lemma BPZero()
    ensures BP(0) == 1
  {}

  lemma SetLimb(s: seq<limb>, i: nat, x: limb)
    requires i < |s|
    ensures Val(s[i := x]) == Val(s) + (x - s[i]) * BP(i)
  {
    hide Val, BP;
    var r := s[i := x];
    ValSplit(s, i + 1);
    ValSplit(r, i + 1);
    ValTake(s, i);
    ValTake(r, i);
    assert r[..i] == s[..i] && r[i + 1..] == s[i + 1..];
    var old_x: int := s[i];
    Distrib(x, -old_x, BP(i));
  }

  lemma OneLimb(s: seq<limb>)
    requires |s| > 0 && forall i :: 0 <= i < |s| - 1 ==> s[i] == 0
    ensures Val(s) == s[|s| - 1] * BP(|s| - 1)
  {
    hide Val, BP;
    ValTake(s, |s| - 1);
    assert s[..|s|] == s;
    ValZeros(s[..|s| - 1]);
  }

  lemma TopOnly(s: seq<limb>)
    requires |s| >= 1 && s[|s| - 1] == HALF && forall i :: 0 <= i < |s| - 1 ==> s[i] == 0
    ensures Val(s) == HALF * BP(|s| - 1)
  {
    hide Val, BP;
    ValTake(s, |s| - 1);
    assert s[..|s|] == s;
    ValZeros(s[..|s| - 1]);
  }

  /** A left shift within a limb drops the upper bits. */
  lemma ShiftLeftLimb(x: limb, d: int, k: int)
    requires d >= 1 && k >= 1 && d * k == B
    ensures x * k % B == (x % d) * k
  {
    MulComm(d, x / d);
    Distrib(x / d * d, x % d, k);
    MulAssoc(x / d, d, k);
    MulMono(x % d, d - 1, k);
    MulMono(0, x % d, k);
    Distrib(d, -1, k);
    DivUnique(x * k, B, x / d, (x % d) * k);
  }

  lemma BPStep(n: nat)
    ensures BP(n + 1) == B * BP(n)
  {}
}

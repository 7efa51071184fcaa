/** mpfr_addrsh (add1sp.c:775-849): b plus c shifted right, in one pass over the
    limbs, and the round and sticky bits of what is shifted out. */
module AddShifted {
  import opened Powers
  import opened Limbs
  import opened Numbers

  /** Limb i of c shifted right by r bits. */
  function ShiftedLimb(c: seq<limb>, i: nat, r: nat): (x: limb)
    requires i < |c| && r < 64
  {
    ShiftedFits(c[i], if i + 1 < |c| then c[i + 1] else 0, r);
    if i + 1 < |c| then (c[i + 1] % Pow2(r)) * Pow2(64 - r) + c[i] / Pow2(r) else c[i] / Pow2(r)
  }

  lemma ShiftedFits(x: limb, y: limb, r: nat)
    requires r < 64
    ensures 0 <= x / Pow2(r) <= (y % Pow2(r)) * Pow2(64 - r) + x / Pow2(r) < B
  {
    hide Pow2;
    Pow2Limb();
    Pow2Add(r, 64 - r);
    var d, k := Pow2(r), Pow2(64 - r);
    DivMulLt(x, d, k);
    MulMono(y % d, d - 1, k);
    MulMono(0, y % d, k);
    Distrib(d, -1, k);
  }

  /** c shifted right by r bits. */
  function Shifted(c: seq<limb>, r: nat): (s: seq<limb>)
    requires r < 64
    ensures |s| == |c| && forall i :: 0 <= i < |c| ==> s[i] == ShiftedLimb(c, i, r)
  {
    seq(|c|, i requires 0 <= i < |c| => ShiftedLimb(c, i, r))
  }

  lemma {:induction false} ShiftedVal(c: seq<limb>, r: nat)
    requires r < 64
    ensures Val(Shifted(c, r)) == Val(c) / Pow2(r)
  {
    hide Pow2;
    if c == [] {
      ModSmall(0, Pow2(r), 0);
    } else {
      var t := c[1..];
      ShiftedVal(t, r);
      assert Shifted(c, r)[1..] == Shifted(t, r);
      Pow2Limb();
      Pow2Add(r, 64 - r);
      if t == [] {
        assert Val(c) == c[0];
      } else {
        LowLimb(t, r);
        ShiftStep(c[0], Val(t), Pow2(r), Pow2(64 - r));
      }
    }
  }

  lemma ShiftStep(x: nat, v: nat, d: int, k: int)
    requires d >= 1 && k >= 1 && d * k == B
    ensures (v % d) * k + x / d + B * (v / d) == (x + B * v) / d
  {
    MulComm(d, v / d);
    MulComm(d, x / d);
    var q, m := v / d, v % d;
    assert B * v == (B * q + m * k) * d by {
      Distrib(q * d, m, B);
      assert v * B == q * d * B + m * B;
      MulComm(q, d);
      FourProducts(q, m, d, k);
    }
    Distrib(B * q + m * k, x / d, d);
    DivUnique(x + B * v, d, B * q + m * k + x / d, x % d);
  }

  lemma FourProducts(q: int, m: int, d: int, k: int)
    requires d * k == B
    ensures q * d * B + m * B == (B * q + m * k) * d
  {
    MulAssoc(m, k, d);
    MulComm(k, d);
    MulComm(B, q);
    MulAssoc(q, B, d);
    MulAssoc(q, d, B);
    MulComm(B, d);
    Distrib(B * q, m * k, d);
  }

  /** One limb of an addition with carry, as the loops do it. */
  method AddLimbs(b: limb, c: limb, cy0: limb) returns (a: limb, cy: limb)
    requires cy0 <= 1
    ensures cy <= 1 && a + cy * B == b + c + cy0
  {
    a := (b + c) % B;
    var cy2 := if a < c then 1 else 0;
    a := (a + cy0) % B;
    cy := cy2 + (if a < cy0 then 1 else 0);
  }

  /** *low |= !!x: the last bit is set unless x is zero. */
  function OrFlag(low: limb, x: limb): limb {
    if x != 0 && low % 2 == 0 then low + 1 else low
  }

  /** What the limb `low` says about the bits that are lost: rem of weight 1/dd. */
  predicate LowOk(low: limb, rem: int, dd: int) {
    && (low >= HALF <==> 2 * rem >= dd)
    && (low % HALF == 0 <==> 2 * rem == if low >= HALF then dd else 0)
  }

  lemma NoLimbs(a: seq<limb>, b: seq<limb>, s: seq<limb>)
    ensures Val(a[..0]) == 0 && Val(b[..0]) == 0 && Val(s[..0]) == 0
  {}

  lemma LimbOfShifted(c: seq<limb>, q: nat, i: nat, r: nat)
    requires q + i < |c| && r < 64
    ensures ShiftedLimb(c[q..], i, r) ==
            if q + i + 1 < |c| then (c[q + i + 1] % Pow2(r)) * Pow2(64 - r) + c[q + i] / Pow2(r) else c[q + i] / Pow2(r)
  {
    hide Pow2;
    assert c[q..][i] == c[q + i];
    if q + i + 1 < |c| { assert c[q..][i + 1] == c[q + i + 1]; }
  }

  lemma AddStep(before: seq<limb>, a: seq<limb>, b: seq<limb>, s: seq<limb>, i: nat, cy0: int, cy: int)
    requires i < |s| && |s| <= |b| == |a| == |before| && a[..i] == before[..i]
    requires a[i] + cy * B == b[i] + s[i] + cy0
    requires Val(before[..i]) + cy0 * BP(i) == Val(b[..i]) + Val(s[..i])
    ensures Val(a[..i + 1]) + cy * BP(i + 1) == Val(b[..i + 1]) + Val(s[..i + 1])
  {
    hide Val, BP;
    ValTake(a, i);
    ValTake(b, i);
    ValTake(s, i);
    BPStep(i);
    Weighted(a[i], b[i], s[i], cy0, cy, BP(i), BP(i + 1));
  }

  lemma Weighted(a: int, b: int, s: int, cy0: int, cy: int, p: int, p1: int)
    requires a + cy * B == b + s + cy0 && p1 == B * p
    ensures a * p + cy * p1 == b * p + s * p + cy0 * p
  {
    MulAssoc(cy, B, p);
    Distrib(a, cy * B, p);
    Distrib(b + s, cy0, p);
    Distrib(b, s, p);
  }

  /** {ap, i} <- {bp, i} + {cp + q, i} >> r for increasing i; ap may be bp or cp. */
  method AddLoop(ap: array<limb>, bp: array<limb>, cp: array<limb>, q: nat, r: nat) returns (cy: limb)
    requires ap.Length == bp.Length == cp.Length && q < ap.Length && r < 64
    modifies ap
    ensures cy <= 1
    ensures var m := ap.Length - q;
            Val(ap[..m]) + cy * BP(m) == Val(old(bp[..m])) + Val(Shifted(old(cp[q..]), r)) && ap[m..] == old(ap[m..])
  {
    hide Val, BP, Pow2, Shifted, ShiftedLimb;
    var n, m := ap.Length, ap.Length - q;
    ghost var b, c := bp[..], cp[..];
    ghost var s := Shifted(c[q..], r);
    cy := 0;
    var i := 0;
    NoLimbs(ap[..], b, s);
    while i < m
      invariant 0 <= i <= m && cy <= 1
      invariant forall j :: i <= j < n ==> bp[j] == b[j] && cp[j] == c[j] && ap[j] == old(ap[j])
      invariant Val(ap[..i]) + cy * BP(i) == Val(b[..i]) + Val(s[..i])
    {
      LimbOfShifted(c, q, i, r);
      var cShifted: limb := if i + 1 < m then (cp[q + i + 1] % Pow2(r)) * Pow2(64 - r) + cp[q + i] / Pow2(r) else cp[q + i] / Pow2(r);
      ghost var before := ap[..];
      ghost var cy0 := cy;
      ap[i], cy := AddLimbs(bp[i], cShifted, cy);
      AddStep(before, ap[..], b, s, i, cy0, cy);
      i := i + 1;
    }
    assert s[..m] == s;
  }

  /** The flags of the limbs below m. */
  method FlagLimbs(low0: limb, cp: array<limb>, m: nat) returns (low: limb)
    requires m <= cp.Length
    ensures low == if Val(cp[..m]) == 0 then low0 else OrFlag(low0, 1)
  {
    low := low0;
    var i := 0;
    while i < m
      invariant 0 <= i <= m
      invariant low == if forall j :: 0 <= j < i ==> cp[j] == 0 then low0 else OrFlag(low0, 1)
    {
      low := OrFlag(low, cp[i]);
      i := i + 1;
    }
    ValZeros(cp[..m]);
    assert forall j :: 0 <= j < m ==> cp[..m][j] == cp[j];
  }

  /** c shifted right by d = 64 q + r bits, and what is lost. */
  lemma SplitShift(c: seq<limb>, q: nat, r: nat)
    requires q < |c| && r < 64
    ensures Pow2(64 * q + r) == BP(q) * Pow2(r)
    ensures Val(c) / Pow2(64 * q + r) == Val(c[q..]) / Pow2(r)
    ensures Val(c) % Pow2(64 * q + r) == (c[q] % Pow2(r)) * BP(q) + Val(c[..q])
  {
    hide Val, BP, Pow2;
    BPPow2(q);
    Pow2Add(64 * q, r);
    ValSplit(c, q);
    ValBound(c[..q]);
    MulComm(BP(q), Val(c[q..]));
    DivUnique(Val(c), BP(q), Val(c[q..]), Val(c[..q]));
    ModProduct(Val(c), BP(q), Pow2(r));
    LowLimb(c[q..], r);
    MulComm(BP(q), c[q] % Pow2(r));
  }

  /** The first limb of what is lost, left aligned, with a flag for the others. */
  lemma LowLimbOk(c: seq<limb>, q: nat, r: nat, low: limb)
    requires q < |c| && 0 < r < 64
    requires var first := (c[q] % Pow2(r)) * Pow2(64 - r);
             0 <= first < B && low == if Val(c[..q]) == 0 then first else OrFlag(first, 1)
    ensures LowOk(low, Val(c) % Pow2(64 * q + r), Pow2(64 * q + r))
  {
    hide Val, BP, Pow2, LowOk, OrFlag;
    SplitShift(c, q, r);
    ValBound(c[..q]);
    LostPart(c[q], r, BP(q), Val(c[..q]), Val(c) % Pow2(64 * q + r), Pow2(64 * q + r), low);
  }

  lemma LostPart(x: limb, r: nat, b: int, rest: int, rem: int, dd: int, low: limb)
    requires 0 < r < 64 && b >= 1 && 0 <= rest < b
    requires rem == (x % Pow2(r)) * b + rest && dd == b * Pow2(r)
    requires var first := (x % Pow2(r)) * Pow2(64 - r); 0 <= first < B && low == if rest == 0 then first else OrFlag(first, 1)
    ensures LowOk(low, rem, dd)
  {
    hide Pow2, LowOk, OrFlag;
    Pow2Step(r - 1);
    Pow2Limb();
    Pow2Add(r - 1, 64 - r);
    Pow2Step(63 - r);
    TopHalf(x, Pow2(r - 1));
    MulComm(b, 2 * Pow2(r - 1));
    LowPlain(x / Pow2(r - 1) % 2, x % Pow2(r - 1), Pow2(r - 1), Pow2(64 - r), b, rest, rem, dd, low);
  }

  lemma LowPlain(top: int, x: int, h: int, k: int, b: int, rest: int, rem: int, dd: int, low: limb)
    requires 0 <= top <= 1 && 0 <= x < h && h * k == HALF && k % 2 == 0 && k >= 1 && b >= 1 && 0 <= rest < b
    requires rem == (top * h + x) * b + rest && dd == 2 * h * b
    requires 0 <= (top * h + x) * k < B && low == if rest == 0 then (top * h + x) * k else OrFlag((top * h + x) * k, 1)
    ensures LowOk(low, rem, dd)
  {
    HalfBit(rem, top, x, h, b, rest, rem, dd, 1);
    var first := (top * h + x) * k;
    assert first == top * HALF + x * k by { Distrib(top * h, x, k); MulAssoc(top, h, k); }
    MulMono(x, h - 1, k);
    MulMono(0, x, k);
    Distrib(h, -1, k);
    EvenProduct(top * h + x, k);
    ProductZero(x, k);
  }

  lemma EvenProduct(x: int, k: int)
    requires k % 2 == 0
    ensures (x * k) % 2 == 0
  {
    MulAssoc(x, k / 2, 2);
    assert x * k == (x * (k / 2)) * 2;
  }

  /** The same when whole limbs are lost. */
  lemma LowLimbWhole(c: seq<limb>, q: nat, low: limb)
    requires 1 <= q < |c| && low == if Val(c[..q - 1]) == 0 then c[q - 1] else OrFlag(c[q - 1], 1)
    ensures LowOk(low, Val(c) % Pow2(64 * q), Pow2(64 * q))
  {
    hide Val, BP, Pow2, LowOk;
    SplitShift(c, q, 0);
    Pow2Zero();
    BPStep(q - 1);
    ValTake(c, q - 1);
    ValBound(c[..q - 1]);
    var x := c[q - 1];
    WholePlain(x / HALF, x % HALF, BP(q - 1), Val(c[..q - 1]), Val(c) % Pow2(64 * q), Pow2(64 * q), low);
  }

  lemma WholePlain(top: int, x: int, b: int, rest: int, rem: int, dd: int, low: limb)
    requires 0 <= top <= 1 && 0 <= x < HALF && b >= 1 && 0 <= rest < b
    requires rem == (top * HALF + x) * b + rest && dd == B * b
    requires low == if rest == 0 then top * HALF + x else OrFlag(top * HALF + x, 1)
    ensures LowOk(low, rem, dd)
  {
    HalfBit(rem, top, x, HALF, b, rest, rem, dd, 1);
  }

  /** mpn_add_1 (ap + m, bp + m, n - m, cy0), after the lower m limbs. */
  method UpperLimbs(ap: array<limb>, upper: seq<limb>, m: nat, cy0: limb, ghost b: seq<limb>, ghost t: int) returns (cy: limb)
    requires m < ap.Length == |b| && upper == b[m..] && cy0 <= 1 && Val(ap[..m]) + cy0 * BP(m) == Val(b[..m]) + t
    modifies ap
    ensures cy <= 1 && Val(ap[..]) + cy * BP(ap.Length) == Val(b) + t
  {
    hide Val, BP;
    var n := ap.Length;
    ghost var low := ap[..m];
    MpnCopy(ap, m, upper);
    assert ap[m..n] == upper;
    assert ap[..m] == low;
    cy := MpnAdd1(ap, m, n - m, cy0);
    assert ap[m..n] == ap[m..] && ap[..m] == low;
    ValSplit(ap[..], m);
    ValSplit(b, m);
    assert ap[..][..m] == low && ap[..][m..] == ap[m..];
    BPAdd(m, n - m);
    UpperPlain(Val(low), Val(ap[m..]), cy, cy0, Val(b[..m]), Val(b[m..]), t, BP(m), BP(n - m));
  }

  lemma UpperPlain(l: int, u: int, cy: int, cy0: int, bl: int, bu: int, t: int, p: int, r: int)
    requires l + cy0 * p == bl + t && u + cy * r == bu + cy0
    ensures l + p * u + cy * (p * r) == bl + p * bu + t
  {
    assert p * (u + cy * r) == p * (bu + cy0);
    Distrib(u, cy * r, p);
    Distrib(bu, cy0, p);
    MulComm(cy0, p);
    MulAssoc(cy, p, r);
    assert p * (cy * r) == cy * (p * r) by { MulAssoc(p, cy, r); MulComm(p, cy); }
  }

  /** add1sp.c:815-822: c is shifted by whole limbs, of which t remain. */
  method AddWhole(ap: array<limb>, b: seq<limb>, t: seq<limb>) returns (cy: limb)
    requires 0 < |t| < |b| == ap.Length
    modifies ap
    ensures cy <= 1 && Val(ap[..]) + cy * BP(ap.Length) == Val(b) + Val(t)
  {
    hide Val, BP;
    var m := |t|;
    MpnCopy(ap, 0, b[..m]);
    assert ap[0..m] == b[..m];
    cy := MpnAddN(ap, 0, t);
    assert ap[0..m] == ap[..m];
    cy := UpperLimbs(ap, b[m..], m, cy, b, Val(t));
  }

  /** add1sp.c:795-809. */
  method WithinLimb(ap: array<limb>, bp: array<limb>, cp: array<limb>, d: nat) returns (cy: limb, low: limb)
    requires ap.Length == bp.Length == cp.Length && 0 < d < 64 && ap.Length > 0
    modifies ap
    ensures cy <= 1
    ensures Val(ap[..]) + cy * BP(ap.Length) == Val(old(bp[..])) + Val(old(cp[..])) / Pow2(d)
    ensures LowOk(low, Val(old(cp[..])) % Pow2(d), Pow2(d))
  {
    hide Val, BP, Pow2, Shifted, ShiftedLimb, LowOk, OrFlag;
    ghost var b, c := bp[..], cp[..];
    ShiftedFits(cp[0], cp[0], d);
    low := (cp[0] % Pow2(d)) * Pow2(64 - d);
    NoLimbs(c, c, c);
    LowLimbOk(c, 0, d, low);
    ShiftedVal(c, d);
    assert cp[0..] == c;
    cy := AddLoop(ap, bp, cp, 0, d);
    assert ap[..ap.Length] == ap[..] && b[..ap.Length] == b;
  }

  /** add1sp.c:815-823. */
  method ByLimbs(ap: array<limb>, bp: array<limb>, cp: array<limb>, q: nat) returns (cy: limb, low: limb)
    requires ap.Length == bp.Length == cp.Length && 0 < q < ap.Length
    modifies ap
    ensures cy <= 1
    ensures Val(ap[..]) + cy * BP(ap.Length) == Val(old(bp[..])) + Val(old(cp[..])) / Pow2(64 * q)
    ensures LowOk(low, Val(old(cp[..])) % Pow2(64 * q), Pow2(64 * q))
  {
    hide Val, BP, Pow2, Shifted, ShiftedLimb, LowOk, OrFlag;
    ghost var b, c := bp[..], cp[..];
    SplitShift(c, q, 0);
    Pow2Zero();
    low := FlagLimbs(cp[q - 1], cp, q - 1);
    LowLimbWhole(c, q, low);
    cy := AddWhole(ap, bp[..], cp[q..]);
  }

  /** add1sp.c:824-845. */
  method BeyondLimb(ap: array<limb>, bp: array<limb>, cp: array<limb>, q: nat, r: nat) returns (cy: limb, low: limb)
    requires ap.Length == bp.Length == cp.Length && 0 < q < ap.Length && 0 < r < 64
    modifies ap
    ensures cy <= 1
    ensures Val(ap[..]) + cy * BP(ap.Length) == Val(old(bp[..])) + Val(old(cp[..])) / Pow2(64 * q + r)
    ensures LowOk(low, Val(old(cp[..])) % Pow2(64 * q + r), Pow2(64 * q + r))
  {
    hide Val, BP, Pow2, Shifted, ShiftedLimb, LowOk, OrFlag;
    ghost var b, c := bp[..], cp[..];
    SplitShift(c, q, r);
    ShiftedVal(c[q..], r);
    ShiftedFits(0, cp[q], r);
    low := FlagLimbs((cp[q] % Pow2(r)) * Pow2(64 - r), cp, q);
    LowLimbOk(c, q, r, low);
    cy := AddLoop(ap, bp, cp, q, r);
    cy := UpperLimbs(ap, bp[ap.Length - q..], ap.Length - q, cy, b, Val(c[q..]) / Pow2(r));
  }

  /** mpfr_addrsh.  {ap, n} may be {bp, n} or {cp, n}. */
  method Addrsh(ap: array<limb>, bp: array<limb>, cp: array<limb>, d: nat) returns (cy: limb, low: limb)
    requires ap.Length == bp.Length == cp.Length && 0 < d < 64 * ap.Length
    modifies ap
    ensures cy <= 1
    ensures Val(ap[..]) + cy * BP(ap.Length) == Val(old(bp[..])) + Val(old(cp[..])) / Pow2(d)
    ensures LowOk(low, Val(old(cp[..])) % Pow2(d), Pow2(d))
  {
    if d < 64 {
      cy, low := WithinLimb(ap, bp, cp, d);
    } else {
      var q, r := d / 64, d % 64;
      if r == 0 {
        cy, low := ByLimbs(ap, bp, cp, q);
      } else {
        cy, low := BeyondLimb(ap, bp, cp, q, r);
      }
    }
  }
}

/** mpfr_div_ui (div_ui.c:28-313) for a nonzero number and a divisor of at least 2: the
    discarded low limbs of the dividend, the remainder and the normalizing shift are
    combined into the round bit and the sticky bit. */
module DivUi {
  import opened Powers
  import opened RealPowers
  import opened Limbs
  import opened Rounding
  import opened Range
  import opened Numbers
  import opened Exceptions
  import opened SignedRounding
  import opened Significands
  import opened SameSum
  import opened Streams
  import G = Add1sp
  import S = DivSmall

  /** mpn_divrem_1 (tmp, f, xp, xn, u). */
  method MpnDivrem1(tmp: array<limb>, f: nat, xs: seq<limb>, u: limb) returns (c: limb)
    requires tmp.Length == |xs| + f && u >= 1
    modifies tmp
    ensures Val(tmp[..]) * u + c == Val(xs) * BP(f) && c < u
  {
    hide Val, BP;
    var v := Val(xs) * BP(f);
    ValBound(xs);
    MulMono(0, Val(xs), BP(f));
    MulStrict(Val(xs), BP(|xs|), BP(f));
    BPAdd(|xs|, f);
    DivLe(v, u);
    Store(tmp, 0, tmp.Length, v / u);
    assert tmp[0..tmp.Length] == tmp[..];
    c := v % u;
    MulComm(u, v / u);
  }

  /** The quotient t, the remainder c and the value low of the discarded limbs, against
      nn / dd, the exact quotient in units of the last limb of t. */
  predicate Divided(nn: int, dd: int, u: int, kk: int, t: int, c: int, low: int) {
    && kk >= 1 && u >= 2 && dd == u * kk && 0 <= c < u && 0 <= low < kk && t >= 0
    && nn == t * dd + (c * kk + low)
  }

  lemma DividedRemainder(nn: int, dd: int, u: int, kk: int, t: int, c: int, low: int)
    requires Divided(nn, dd, u, kk, t, c, low)
    ensures dd >= 1 && 0 <= c * kk + low < dd && (c * kk + low != 0 <==> c != 0 || low != 0)
  {
    MulMono(1, u, kk);
    MulMono(c, u - 1, kk);
    MulMono(0, c, kk);
    Distrib(u, -1, kk);
    ProductZero(c, kk);
  }

  /** div_ui.c:117-130. */
  method Divide(tmp: array<limb>, xs: seq<limb>, u: limb) returns (c: limb, ghost nn: int, ghost dd: int, ghost kk: int)
    requires tmp.Length >= 2 && |xs| >= 1 && u >= 2
    modifies tmp
    ensures var k := |xs| - tmp.Length;
            && kk == BP(if k > 0 then k else 0) && nn == Val(xs) * BP(if k > 0 then 0 else -k) && dd == u * kk
            && Divided(nn, dd, u, kk, Val(tmp[..]), c, Val(xs[..if k > 0 then k else 0]))
  {
    hide Val, BP;
    var dif := tmp.Length - |xs|;
    BPZero();
    if dif >= 0 {
      c := MpnDivrem1(tmp, dif, xs, u);
      kk := 1;
      assert Val(xs[..0]) == 0 by { EmptyVal(xs); }
    } else {
      c := MpnDivrem1(tmp, 0, xs[-dif..], u);
      kk := BP(-dif);
      ValSplit(xs, -dif);
      ValBound(xs[..-dif]);
      Rescale(Val(tmp[..]), u, c, kk, Val(xs[-dif..]));
    }
    nn, dd := Val(xs) * BP(if dif < 0 then 0 else dif), u * kk;
  }

  lemma EmptyVal(s: seq<limb>)
    ensures Val(s[..0]) == 0
  {}

  lemma Rescale(t: int, u: int, c: int, k: int, h: int)
    requires t * u + c == h
    ensures k * h == t * (u * k) + c * k
  {
    Distrib(t * u, c, k);
    MulAssoc(t, u, k);
    MulComm(k, h);
  }

  /** div_ui.c:138-141: are the discarded limbs nonzero? */
  method AnySet(xs: seq<limb>, n: nat) returns (sb: bool)
    requires n <= |xs|
    ensures sb <==> Val(xs[..n]) != 0
  {
    sb := false;
    var i := 0;
    while !sb && i < n
      invariant 0 <= i <= n && (sb <==> exists j :: 0 <= j < i && xs[j] != 0)
    {
      if xs[i] != 0 { sb := true; }
      i := i + 1;
    }
    ValZeros(xs[..n]);
    assert forall j :: 0 <= j < n ==> xs[..n][j] == xs[j];
  }

  // ---- the bits -----------------------------------------------------------------------------

  /** div_ui.c:158-192: the round bit is not among the bits of the quotient. */
  method BitsBelow(xs: seq<limb>, k: nat, u: limb, c: limb, sb0: bool, ghost nn: int, ghost dd: int, ghost t: int)
    returns (rb: bool, sb: bool)
    requires k <= |xs| && Divided(nn, dd, u, BP(k), t, c, Val(xs[..k])) && (sb0 <==> Val(xs[..k]) != 0)
    ensures dd >= 1 && nn / dd == t && Bits(nn, dd, rb, sb)
  {
    hide Val, BP;
    DividedRemainder(nn, dd, u, BP(k), t, c, Val(xs[..k]));
    DivUnique(nn, dd, t, c * BP(k) + Val(xs[..k]));
    if c >= u - c {
      rb, sb := true, sb0 || 2 * c - u != 0;
    } else {
      rb := c == u / 2 && k > 0 && xs[k - 1] >= HALF;
      if rb {
        var lower := AnySet(xs, k - 1);
        sb := xs[k - 1] % HALF != 0 || lower;
      } else {
        sb := sb0 || c != 0;
      }
    }
    if k > 0 { TopOfDiscarded(xs, k); } else { BPZero(); }
    Halfway(u, c, BP(k), Val(xs[..k]), c * BP(k), dd, k > 0 && xs[k - 1] >= HALF);
  }

  /** The discarded limbs, against half of a unit. */
  lemma TopOfDiscarded(xs: seq<limb>, k: nat)
    requires 0 < k <= |xs|
    ensures xs[k - 1] >= HALF <==> 2 * Val(xs[..k]) >= BP(k)
    ensures xs[k - 1] >= HALF ==> (2 * Val(xs[..k]) == BP(k) <==> xs[k - 1] % HALF == 0 && Val(xs[..k - 1]) == 0)
  {
    hide Val, BP;
    ValTake(xs, k - 1);
    ValBound(xs[..k - 1]);
    BPLast(k);
    var x: int := xs[k - 1];
    HalfBit(Val(xs[..k]), x / HALF, x % HALF, HALF, BP(k - 1), Val(xs[..k - 1]), Val(xs[..k]), BP(k), 1);
  }

  lemma Halfway(u: int, c: int, kk: int, low: int, ck: int, dd: int, top: bool)
    requires kk >= 1 && u >= 2 && 0 <= c < u && 0 <= low < kk && ck == c * kk && dd == u * kk
    requires top ==> 2 * low >= kk
    requires !top ==> 2 * low < kk || kk == 1
    ensures 2 * c >= u ==> 2 * (ck + low) >= dd && (2 * (ck + low) == dd <==> 2 * c == u && low == 0)
    ensures 2 * c < u ==> (2 * (ck + low) >= dd <==> c == u / 2 && top)
    ensures 2 * c < u && c == u / 2 && top ==> (2 * (ck + low) == dd <==> 2 * low == kk)
  {
    var g := 2 * c - u;
    assert 2 * ck - dd == g * kk by { Distrib(2 * c, -u, kk); MulAssoc(2, c, kk); }
    if g >= 1 { MulMono(1, g, kk); }
    if g == 0 { assert g * kk == 0; }
    if g == -1 { assert g * kk == -kk; }
    if g <= -2 { MulMono(g, -2, kk); }
  }

  // ---- placing the quotient ------------------------------------------------------------------

  /** yp holds the upper bits of nn/dd divided by 2^(sh + g), and the bits of the rest. */
  ghost predicate Placed(s: seq<limb>, p: nat, nn: int, dd: int, g: nat, rb: bool, sb: bool) {
    var e := Pow2(Unused(p) + g) * dd;
    e >= 1 && Holding(s, p, nn / e) && Bits(nn, e, rb, sb)
  }

  /** The limbs hold t shifted right by g bits; h units of t are below the round bit. */
  lemma PlacedBits(s: seq<limb>, p: nat, nn: int, dd: int, g: nat, t: nat, rem: int, h: int, rb: bool, sb: bool)
    requires p >= 1 && |s| == LimbCount(p) && h >= 1 && 2 * h == Pow2(Unused(p) + g)
    requires dd >= 1 && 0 <= rem < dd && nn == t * dd + rem
    requires Val(s) == t / (2 * h) * Pow2(Unused(p)) && IsSignificand(p, t / (2 * h))
    requires rb == (t / h % 2 == 1) && sb == (t % h != 0 || rem != 0)
    ensures Placed(s, p, nn, dd, g, rb, sb)
  {
    hide Val, Pow2, Bits;
    BitsOfQuotient(nn, t, dd, rem, h);
  }

  /** yp[0] ^= d: the unused bits are cleared. */
  method ClearUnused(yp: array<limb>, p: nat)
    requires p >= 1 && yp.Length == LimbCount(p)
    modifies yp
    ensures Val(yp[..]) == Val(old(yp[..])) / Pow2(Unused(p)) * Pow2(Unused(p))
  {
    LimbCountPositive(p);
    KeepUpper(yp, Unused(p));
  }

  /** div_ui.c:154-200: the highest limb of the quotient is zero. */
  method PlaceLow(yp: array<limb>, tmp: array<limb>, xs: seq<limb>, k: nat, u: limb, c: limb, sb0: bool, p: nat,
                  ghost nn: int, ghost dd: int) returns (rb: bool, sb: bool)
    requires p >= 1 && yp.Length == LimbCount(p) && tmp.Length == yp.Length + 1 && yp != tmp && tmp[yp.Length] == 0
    requires k <= |xs| && Divided(nn, dd, u, BP(k), Val(tmp[..]), c, Val(xs[..k])) && (sb0 <==> Val(xs[..k]) != 0)
    requires BP(yp.Length) <= 2 * Val(tmp[..])
    modifies yp
    ensures Placed(yp[..], p, nn, dd, 0, rb, sb)
  {
    hide Val, BP, Pow2, Divided, Placed;
    var n, sh := yp.Length, Unused(p);
    ghost var t := Val(tmp[..]);
    LimbCountPositive(p);
    ZeroTop(tmp[..], n);
    MpnCopy(yp, 0, tmp[..n]);
    assert yp[..] == tmp[..n];
    ghost var s := yp[..];
    if sh == 0 {
      rb, sb := BitsBelow(xs, k, u, c, sb0, nn, dd, t);
    } else {
      rb := tmp[0] / Pow2(sh - 1) % 2 == 1;
      sb := sb0 || tmp[0] % Pow2(sh - 1) != 0 || c != 0;
    }
    ClearUnused(yp, p);
    PlaceLowBits(s, yp[..], p, nn, dd, u, BP(k), t, c, Val(xs[..k]), rb, sb);
  }

  lemma ZeroTop(s: seq<limb>, n: nat)
    requires |s| == n + 1 && s[n] == 0
    ensures Val(s) == Val(s[..n]) && Val(s) < BP(n)
  {
    hide Val, BP;
    ValTake(s, n);
    assert s[..n + 1] == s;
    ValBound(s[..n]);
  }

  lemma PlaceLowBits(s: seq<limb>, s': seq<limb>, p: nat, nn: int, dd: int, u: int, kk: int, t: nat, c: int, low: int, rb: bool, sb: bool)
    requires p >= 1 && |s| == |s'| == LimbCount(p) && Val(s) == t && BP(|s|) <= 2 * t && Divided(nn, dd, u, kk, t, c, low)
    requires Val(s') == t / Pow2(Unused(p)) * Pow2(Unused(p))
    requires if Unused(p) == 0 then dd >= 1 && nn / dd == t && Bits(nn, dd, rb, sb)
             else rb == (s[0] / Pow2(Unused(p) - 1) % 2 == 1) && sb == (low != 0 || s[0] % Pow2(Unused(p) - 1) != 0 || c != 0)
    ensures Placed(s', p, nn, dd, 0, rb, sb)
  {
    hide Val, BP, Pow2, Bits;
    var sh := Unused(p);
    LimbsOfPrecision(p);
    ValBound(s);
    Pow2Step(p - 1);
    MulAssoc(2, Pow2(p - 1), Pow2(sh));
    G.UpperBits(t, Pow2(sh), Pow2(p - 1), Pow2(p));
    DividedRemainder(nn, dd, u, kk, t, c, low);
    if sh == 0 {
      Pow2Zero();
    } else {
      var h := Pow2(sh - 1);
      Pow2Step(sh - 1);
      LowLimb(s, sh);
      LowBit(s[0], h);
      LowBit(t, h);
      PlacedBits(s', p, nn, dd, 0, t, c * kk + low, h, rb, sb);
    }
  }

  /** div_ui.c:203-215: the quotient is shifted left by z bits to be normalized. */
  method ShiftQuotient(yp: array<limb>, tmp: array<limb>) returns (z: nat, w: limb)
    requires yp.Length >= 1 && tmp.Length == yp.Length + 1 && yp != tmp && tmp[yp.Length] != 0 && 2 * Val(tmp[..]) < BP(tmp.Length)
    modifies yp
    ensures 1 <= z < 64 && BP(yp.Length) <= 2 * Val(yp[..])
    ensures Val(yp[..]) == Val(tmp[..]) / Pow2(64 - z) && w == (Val(tmp[..]) % Pow2(64 - z)) * Pow2(z)
  {
    hide Val, BP, Pow2;
    var n := yp.Length;
    ghost var t := tmp[..];
    z := CountLeadingZeros(tmp[n]);
    NormalizingShift(tmp[n], z);
    ShiftPositive(t, n, z);
    ShiftedUpFits(tmp[0], z);
    w := (tmp[0] % Pow2(64 - z)) * Pow2(z);
    var out := MpnLshift(yp, 0, tmp[1..], z);
    assert yp[0..n] == yp[..] && tmp[1..] == t[1..];
    ghost var s := yp[..];
    NormalizedShift(t, n, z, s, out);
    var m := tmp[0] / Pow2(64 - z);
    OrBelow(s, tmp[0], z, t, m);
    yp[0] := yp[0] + m;
    assert yp[..] == s[0 := s[0] + m];
    Grows(s, m);
  }

  lemma Grows(s: seq<limb>, x: nat)
    requires |s| >= 1 && s[0] + x < B
    ensures Val(s[0 := s[0] + x]) >= Val(s)
  {
    hide Val, BP;
    SetLimb(s, 0, s[0] + x);
    BPZero();
  }

  /** div_ui.c:201-232: the highest limb of the quotient is not zero. */
  method PlaceHigh(yp: array<limb>, tmp: array<limb>, c: limb, sb0: bool, p: nat, ghost nn: int, ghost dd: int, ghost u: int, ghost kk: int, ghost low: int)
    returns (rb: bool, sb: bool, z: nat)
    requires p >= 1 && yp.Length == LimbCount(p) && tmp.Length == yp.Length + 1 && yp != tmp
    requires tmp[yp.Length] != 0 && 2 * Val(tmp[..]) < BP(tmp.Length)
    requires Divided(nn, dd, u, kk, Val(tmp[..]), c, low) && (sb0 <==> low != 0)
    modifies yp
    ensures 1 <= z < 64 && Placed(yp[..], p, nn, dd, 64 - z, rb, sb)
  {
    hide Val, BP, Pow2, Divided, Placed;
    var sh := Unused(p);
    ghost var t := tmp[..];
    LimbCountPositive(p);
    var w;
    z, w := ShiftQuotient(yp, tmp);
    ghost var s := yp[..];
    if sh == 0 {
      rb := w >= HALF;
      sb := sb0 || w % HALF != 0 || c != 0;
    } else {
      rb := yp[0] / Pow2(sh - 1) % 2 == 1;
      sb := sb0 || yp[0] % Pow2(sh - 1) != 0 || w != 0 || c != 0;
    }
    ClearUnused(yp, p);
    PlaceHighBits(s, yp[..], p, nn, dd, u, kk, t, c, low, z, w, rb, sb);
  }

  lemma NormalizingShift(x: limb, z: nat)
    requires z <= 63 && Pow2(63 - z) <= x < Pow2(64 - z)
    ensures HALF <= x * Pow2(z) < B
  {
    hide Pow2;
    Pow2Limb();
    Pow2Add(63 - z, z);
    Pow2Add(64 - z, z);
    MulMono(Pow2(63 - z), x, Pow2(z));
    MulStrict(x, Pow2(64 - z), Pow2(z));
  }

  lemma ShiftPositive(t: seq<limb>, n: nat, z: nat)
    requires |t| == n + 1 && 2 * Val(t) < BP(n + 1) && t[n] * Pow2(z) >= HALF
    ensures z > 0 && t[n] < HALF
  {
    hide Val, BP, Pow2;
    HighLimb(t);
    BPLast(n + 1);
    Pow2Zero();
  }

  lemma ShiftedUpFits(x: limb, z: nat)
    requires 0 < z < 64
    ensures 0 <= x / Pow2(64 - z) < Pow2(z) && 0 <= (x % Pow2(64 - z)) * Pow2(z) < B && Pow2(64 - z) * Pow2(z) == B && Pow2(z) <= HALF
  {
    hide Pow2;
    Pow2Limb();
    Pow2Add(64 - z, z);
    Pow2Mono(z, 63);
    DivMulLt(x, Pow2(64 - z), Pow2(z));
    DivLe(x, Pow2(64 - z));
    MulMono(0, x % Pow2(64 - z), Pow2(z));
    MulStrict(x % Pow2(64 - z), Pow2(64 - z), Pow2(z));
  }

  /** The upper limbs shifted: nothing is lost at the top. */
  lemma NormalizedShift(t: seq<limb>, n: nat, z: nat, s: seq<limb>, out: limb)
    requires |t| == n + 1 && n >= 1 && |s| == n && 0 < z < 64 && HALF <= t[n] * Pow2(z) < B
    requires Val(s) + out * BP(n) == Val(t[1..]) * Pow2(z)
    ensures out == 0 && BP(n) <= 2 * Val(s)
  {
    hide Val, BP, Pow2;
    var h := t[1..];
    ValTake(h, n - 1);
    assert h[..n] == h && h[n - 1] == t[n];
    ValBound(h[..n - 1]);
    ValBound(s);
    BPLast(n);
    ShiftedUpFits(0, z);
    TopShift(Val(h), Val(h[..n - 1]), t[n], BP(n - 1), Pow2(z), BP(n), Pow2(64 - z));
    if out > 0 { MulMono(1, out, BP(n)); }
  }

  lemma TopShift(v: int, l: int, x: int, b: int, d: int, bn: int, k: int)
    requires d >= 1 && k * d == B && b >= 1 && v == l + x * b && 0 <= l < b && HALF <= x * d < B && bn == 2 * (HALF * b)
    ensures v * d < bn && bn <= 2 * (v * d)
  {
    Distrib(l, x * b, d);
    assert x * b * d == x * d * b by { MulAssoc(x, b, d); MulComm(b, d); MulAssoc(x, d, b); }
    MulMono(HALF, x * d, b);
    MulMono(0, l, d);
    if x >= k { MulMono(k, x, d); }
    MulMono(x, k - 1, d);
    Distrib(k, -1, d);
    MulMono(x * d, B - d, b);
    MulStrict(l, b, d);
    MulComm(b, d);
    Distrib(B, -d, b);
  }

  /** The bits of the lowest limb that move up. */
  lemma OrBelow(s: seq<limb>, x: limb, z: nat, t: seq<limb>, m: nat)
    requires 0 < z < 64 && |s| >= 1 && |t| == |s| + 1 && t[0] == x && Val(s) == Val(t[1..]) * Pow2(z) && m == x / Pow2(64 - z)
    ensures s[0] + m < B && Val(s[0 := s[0] + m]) == Val(t) / Pow2(64 - z) && Val(t) % Pow2(64 - z) == x % Pow2(64 - z)
  {
    hide BP, Pow2;
    ShiftedUpFits(x, z);
    var d, e, h := Pow2(z), Pow2(64 - z), Val(t[1..]);
    LowLimb(s, z);
    DivUnique(h * d, d, h, 0);
    LowRoom(s[0], d, e);
    BPZero();
    SetLimb(s, 0, s[0] + m);
    assert Val(t) == x + B * h;
    OrPlain(x, h, d, e, Val(t));
  }

  lemma OrPlain(x: int, h: int, d: int, e: int, v: int)
    requires e >= 1 && e * d == B && v == x + B * h
    ensures v / e == h * d + x / e && v % e == x % e
  {
    MulComm(e, x / e);
    assert B * h == h * d * e by { MulAssoc(h, d, e); MulComm(d, e); MulComm(B, h); }
    Distrib(h * d, x / e, e);
    DivUnique(v, e, h * d + x / e, x % e);
  }

  /** A multiple of d leaves room for less than d. */
  lemma LowRoom(x: limb, d: int, e: int)
    requires d >= 1 && e * d == B && x % d == 0
    ensures x + d <= B
  {
    MulComm(d, x / d);
    if x / d >= e { MulMono(e, x / d, d); }
    MulMono(x / d + 1, e, d);
    Distrib(x / d, 1, d);
  }

  lemma PlaceHighBits(s: seq<limb>, s': seq<limb>, p: nat, nn: int, dd: int, u: int, kk: int, t: seq<limb>, c: int, low: int, z: nat,
                      w: limb, rb: bool, sb: bool)
    requires p >= 1 && |s| == |s'| == LimbCount(p) && |t| == |s| + 1 && 0 < z < 64 && BP(|s|) <= 2 * Val(s)
    requires Val(s) == Val(t) / Pow2(64 - z) && w == (Val(t) % Pow2(64 - z)) * Pow2(z) && Divided(nn, dd, u, kk, Val(t), c, low)
    requires Val(s') == Val(s) / Pow2(Unused(p)) * Pow2(Unused(p))
    requires if Unused(p) == 0 then rb == (w >= HALF) && sb == (low != 0 || w % HALF != 0 || c != 0)
             else rb == (s[0] / Pow2(Unused(p) - 1) % 2 == 1) && sb == (low != 0 || s[0] % Pow2(Unused(p) - 1) != 0 || w != 0 || c != 0)
    ensures Placed(s', p, nn, dd, 64 - z, rb, sb)
  {
    hide Val, BP, Pow2, Placed;
    var sh, g := Unused(p), 64 - z;
    LimbsOfPrecision(p);
    ValBound(s);
    Pow2Step(p - 1);
    MulAssoc(2, Pow2(p - 1), Pow2(sh));
    G.UpperBits(Val(s), Pow2(sh), Pow2(p - 1), Pow2(p));
    DividedRemainder(nn, dd, u, kk, Val(t), c, low);
    ModProduct(Val(t), Pow2(g), Pow2(sh));
    Pow2Add(g, sh);
    if sh == 0 {
      Pow2Step(g - 1);
      Pow2Zero();
      Pow2Limb();
      Pow2Add(g - 1, z);
      WordBits(Val(t), Pow2(g - 1), Pow2(z), w);
      PlacedBits(s', p, nn, dd, g, Val(t), c * kk + low, Pow2(g - 1), rb, sb);
    } else {
      Pow2Step(sh - 1);
      LowLimb(s, sh);
      LowBit(s[0], Pow2(sh - 1));
      LowBit(Val(s), Pow2(sh - 1));
      ShiftedUpFits(0, z);
      Pow2Add(g, sh - 1);
      LimbAndWord(Val(t), Val(s), Pow2(g), Pow2(sh - 1), Pow2(z), w);
      Pow2Step(g + sh - 1);
      PlacedBits(s', p, nn, dd, g, Val(t), c * kk + low, Pow2(g) * Pow2(sh - 1), rb, sb);
    }
  }

  lemma WordBits(t: nat, h: int, d: int, w: limb)
    requires h >= 1 && d >= 1 && h * d == HALF && w == (t % (2 * h)) * d
    ensures w >= HALF <==> t / h % 2 == 1
    ensures w % HALF != 0 <==> t % h != 0
  {
    TopHalf(t, h);
    var b, r := t / h % 2, t % h;
    Distrib(b * h, r, d);
    MulAssoc(b, h, d);
    MulMono(r, h - 1, d);
    MulMono(0, r, d);
    Distrib(h, -1, d);
    ProductZero(r, d);
    ModSmall(w, HALF, b);
  }

  lemma LimbAndWord(t: nat, s: nat, e: int, h: int, d: int, w: limb)
    requires e >= 1 && h >= 1 && d >= 1 && s == t / e && w == (t % e) * d
    ensures t / (e * h) % 2 == s / h % 2
    ensures t % (e * h) != 0 <==> s % h != 0 || w != 0
  {
    ModProduct(t, e, h);
    ProductZero(t % e, d);
    MulComm(e, s % h);
    ProductZero(s % h, e);
    MulMono(0, s % h, e);
  }

  // ---- sizes and exponents -------------------------------------------------------------------

  /** The quotient fills yn limbs, and leaves the highest bit of yn + 1 limbs free. */
  lemma QuotientSize(nn: int, dd: int, u: int, kk: int, t: int, c: int, low: int, bn: int)
    requires Divided(nn, dd, u, kk, t, c, low) && u < B && bn >= 2 && bn % 2 == 0
    requires B * bn * kk <= 2 * nn && nn < B * bn * kk
    ensures bn <= 2 * t && 2 * t < B * bn
  {
    DividedRemainder(nn, dd, u, kk, t, c, low);
    MulAssoc(t, u, kk);
    if 2 * t >= B * bn {
      MulMono(2, u, t);
      MulComm(u, t);
      MulMono(B * bn, t * u, kk);
    }
    if 2 * t < bn {
      MulMono(t + 1, bn / 2, dd);
      Distrib(t, 1, dd);
      MulAssoc(bn / 2, u, kk);
      MulMono(u, B - 1, bn / 2);
      MulComm(bn / 2, u);
      MulMono(bn / 2 * u, (B - 1) * (bn / 2), kk);
      MulStrict((B - 1) * (bn / 2), B * (bn / 2), kk);
      Doubled(B * (bn / 2), B * bn, kk);
    }
  }

  lemma Doubled(x: int, y: int, k: int)
    requires y == 2 * x
    ensures y * k == 2 * (x * k)
  {
    MulAssoc(2, x, k);
  }

  /** The dividend: a significand of xn limbs, brought to yn + 1 limbs if it has fewer. */
  lemma DividendSize(xs: seq<limb>, p: nat, yn: nat, nn: int, kk: int)
    requires Normalized(xs, p) && yn >= 1
    requires var k := |xs| - (yn + 1); kk == BP(if k > 0 then k else 0) && nn == Val(xs) * BP(if k > 0 then 0 else -k)
    ensures B * BP(yn) * kk <= 2 * nn && nn < B * BP(yn) * kk && BP(yn) >= 2 && BP(yn) % 2 == 0
  {
    hide Val, BP, Normalized, Sig;
    G.SignificandBounds(xs, p);
    BPLast(yn);
    BPStep(yn);
    BPZero();
    var k := |xs| - (yn + 1);
    if k > 0 {
      BPAdd(yn + 1, k);
      MulOne(Val(xs));
      assert B * BP(yn) * kk == BP(|xs|);
    } else {
      BPAdd(|xs|, -k);
      Widened(Val(xs), BP(|xs|), BP(-k));
      MulOne(B * BP(yn));
    }
  }

  lemma MulOne(x: int)
    ensures x * 1 == x
  {}

  lemma Widened(v: int, b: int, f: int)
    requires b <= 2 * v && v < b && f >= 1
    ensures b * f <= 2 * (v * f) && v * f < b * f
  {
    MulMono(b, 2 * v, f);
    MulStrict(v, b, f);
    MulAssoc(2, v, f);
  }

  lemma QuotientInUlps(xs: seq<limb>, ex: int, u: limb, p: nat, g: nat, nn: int, dd: int, kk: int, r: real, y: real)
    requires p >= 1 && u >= 2 && r * u as real == Frac(xs) * R2(ex)
    requires var k := |xs| - (LimbCount(p) + 1);
             kk == BP(if k > 0 then k else 0) && nn == Val(xs) * BP(if k > 0 then 0 else -k) && dd == u * kk
    requires y * (Pow2(Unused(p) + g) * dd) as real == nn as real
    ensures r == y * R2(ex - 64 + g - p)
  {
    hide Val, BP, Pow2, R2, Frac, LimbCount;
    var k := |xs| - (LimbCount(p) + 1);
    InLimbs(xs, ex);
    R2Small();
    S.QuotientUnits(r, y, Val(xs), u, ex - 64 * |xs|, 0, Unused(p) + g, if k > 0 then 0 else -k, if k > 0 then k else 0);
  }

  // ---- the division ------------------------------------------------------------------------------

  /** From the placed bits to the correctly rounded quotient. */
  lemma PlacedRounds(s: seq<limb>, xs: seq<limb>, ex: int, u: limb, p: nat, g: nat, nn: int, dd: int, kk: int, rb: bool, sb: bool,
                     dir: Direction, r: real)
    requires p >= 1 && u >= 2 && r * u as real == Frac(xs) * R2(ex) && Placed(s, p, nn, dd, g, rb, sb)
    requires var k := |xs| - (LimbCount(p) + 1);
             kk == BP(if k > 0 then k else 0) && nn == Val(xs) * BP(if k > 0 then 0 else -k) && dd == u * kk
    ensures var au := nn / (Pow2(Unused(p) + g) * dd); var m := Rounded(dir, au, rb, sb);
            && Holding(s, p, au)
            && CorrectlyRounded(r, p, dir, NormSig(p, m), NormExp(p, m, ex - 64 + g), Ternary(dir, au, rb, sb))
            && r > 0.0
  {
    hide Val, BP, Pow2, R2, Frac, CorrectlyRounded, RoundsTo, NormSig, NormExp, Rounded, Ternary, Placed, Holding, Bits;
    var e := Pow2(Unused(p) + g) * dd;
    PlacedMeans(s, p, nn, dd, g, rb, sb, e);
    var y := nn as real / e as real;
    QuotientInUlps(xs, ex, u, p, g, nn, dd, kk, r, y);
    QuotientRounds(p, dir, nn, e, rb, sb, ex - 64 + g, r, y);
  }

  lemma PlacedMeans(s: seq<limb>, p: nat, nn: int, dd: int, g: nat, rb: bool, sb: bool, e: int)
    requires Placed(s, p, nn, dd, g, rb, sb) && e == Pow2(Unused(p) + g) * dd
    ensures e >= 1 && p >= 1 && Holding(s, p, nn / e) && Bits(nn, e, rb, sb) && IsSignificand(p, nn / e)
  {
    hide Val, Pow2, Bits;
  }

  lemma QuotientRounds(p: nat, dir: Direction, nn: int, e: int, rb: bool, sb: bool, exp: int, r: real, y: real)
    requires p >= 1 && Bits(nn, e, rb, sb) && e >= 1 && IsSignificand(p, nn / e) && y * e as real == nn as real && r == y * R2(exp - p)
    ensures var m := Rounded(dir, nn / e, rb, sb);
            CorrectlyRounded(r, p, dir, NormSig(p, m), NormExp(p, m, exp), Ternary(dir, nn / e, rb, sb)) && r > 0.0
  {
    hide Pow2, R2, CorrectlyRounded, RoundsTo, NormSig, NormExp, Rounded, Ternary, Bits;
    BitsRound(nn, e, rb, sb, dir, y);
    assert (nn / e + 1) as real <= Pow2(p) as real && Pow2(p - 1) as real <= y;
    ScaledRounding(r, y, p, dir, exp, Rounded(dir, nn / e, rb, sb), Ternary(dir, nn / e, rb, sb));
    R2Pos(exp - p);
    RealProductPos(y, R2(exp - p));
  }

  /** div_ui.c:108-235: the significand of the quotient, before rounding. */
  method Quotient(yp: array<limb>, xs: seq<limb>, u: limb, p: nat, ghost px: nat) returns (rb: bool, sb: bool, g: nat, ghost nn: int, ghost dd: int, ghost kk: int)
    requires p >= 1 && yp.Length == LimbCount(p) && Normalized(xs, px) && u >= 2
    modifies yp
    ensures var k := |xs| - (LimbCount(p) + 1);
            kk == BP(if k > 0 then k else 0) && nn == Val(xs) * BP(if k > 0 then 0 else -k) && dd == u * kk
    ensures Placed(yp[..], p, nn, dd, g, rb, sb)
  {
    hide Val, BP, Pow2, Placed, Normalized, Divided;
    var yn := yp.Length;
    LimbCountPositive(p);
    NormalizedTop(xs, px);
    var tmp := new limb[yn + 1](_ => 0);
    var c;
    c, nn, dd, kk := Divide(tmp, xs, u);
    var k: nat := if |xs| > yn + 1 then |xs| - (yn + 1) else 0;
    var sb0 := AnySet(xs, k);
    DividendSize(xs, px, yn, nn, kk);
    QuotientSize(nn, dd, u, kk, Val(tmp[..]), c, Val(xs[..k]), BP(yn));
    BPStep(yn);
    if tmp[yn] == 0 {
      rb, sb := PlaceLow(yp, tmp, xs, k, u, c, sb0, p, nn, dd);
      g := 0;
    } else {
      var z;
      rb, sb, z := PlaceHigh(yp, tmp, c, sb0, p, nn, dd, u, kk, Val(xs[..k]));
      g := 64 - z;
    }
  }

  /** div_ui.c:239-241: far below the range. */
  method UnderflowEarly(env: Env, y: Mpfr, rnd: Mode, exp: int, ghost m: int, ghost e: int, ghost t: int, ghost r: real) returns (inex: int, ghost o: Outcome)
    requires y.Shape() && env.emin <= env.emax && exp < env.emin - 1 && r > 0.0 && CorrectlyRounded(r, y.prec, DirectionOf(rnd, y.neg), m, e, t)
    requires e <= exp || (e == exp + 1 && m == Pow2(y.prec - 1) && t > 0)
    modifies y, y.mant, env`inexact, env`underflow
    ensures y.neg == old(y.neg) && y.Holds(o)
    ensures CorrectInRange(r, y.prec, DirectionOf(rnd, y.neg), env.emin, env.emax, o, Signed(inex, y.neg)) && env.inexact && env.underflow && inex != 0
  {
    hide Pow2, R2, CorrectInRange, CorrectlyRounded;
    var mode := if rnd == RNDN then RNDZ else rnd;
    UnderflowCorrect(r, y.prec, DirectionOf(rnd, y.neg), m, e, t, env.emin, env.emax);
    ghost var a := UnderflowOutcome(y.prec, DirectionOf(mode, y.neg), env.emin);
    o := a.0;
    SignedTwice(a.1, y.neg);
    inex := Underflow(env, y, mode, y.neg);
  }

  /** div_ui.c:237-313: rounding and the range. */
  method RoundQuotient(env: Env, y: Mpfr, rnd: Mode, exp0: int, rb: bool, sb: bool, ghost au: int, ghost r: real) returns (inex: int, ghost o: Outcome)
    requires y.Shape() && env.emin <= env.emax && Holding(y.mant[..], y.prec, au) && r > 0.0
    requires var dir := DirectionOf(rnd, y.neg); var m := Rounded(dir, au, rb, sb);
             CorrectlyRounded(r, y.prec, dir, NormSig(y.prec, m), NormExp(y.prec, m, exp0), Ternary(dir, au, rb, sb))
    modifies y, y.mant, env`inexact, env`overflow, env`underflow
    ensures y.neg == old(y.neg) && y.Holds(o)
    ensures CorrectSigned(WithSign(y.neg, r), y.prec, rnd, env.emin, env.emax, y.neg, o, inex)
    ensures env.inexact == (old(env.inexact) || inex != 0)
    ensures env.overflow == (old(env.overflow) || TooLarge(WithSign(y.neg, r), y.prec, rnd, env.emax))
    ensures env.underflow == (old(env.underflow) || TooSmall(WithSign(y.neg, r), y.prec, rnd, env.emin))
  {
    hide Val, BP, Pow2, R2, Normalized, Sig, CorrectInRange, CorrectSigned, TooLarge, TooSmall, CorrectlyRounded;
    var p, yp, dir, exp := y.prec, y.mant, DirectionOf(rnd, y.neg), exp0;
    ghost var m, t := Rounded(dir, au, rb, sb), Ternary(dir, au, rb, sb);
    ExponentDecides(r, p, rnd, y.neg, NormSig(p, m), NormExp(p, m, exp0), t, env.emin, env.emax);
    CarryOnly(p, au, m, exp0, t);
    ParityOfA(yp[..], p, au);
    if exp < env.emin - 1 {
      inex, o := UnderflowEarly(env, y, rnd, exp, NormSig(p, m), NormExp(p, m, exp0), t, r);
      SignedMeans(r, p, rnd, y.neg, env.emin, env.emax, o, inex);
      return;
    }
    var nexttoinf := false;
    if !rb && !sb {
      inex := 0;
    } else {
      match dir {
        case TowardZero => inex := -1;
        case AwayFromZero => inex, nexttoinf := 1, true;
        case Nearest =>
          if !rb {
            inex := -1;
          } else if sb {
            inex, nexttoinf := 1, true;
          } else if yp[0] / Pow2(Unused(p)) % 2 != 0 {
            inex, nexttoinf := 1, true;
          } else {
            inex := -1;
          }
      }
    }
    if nexttoinf {
      exp := AddOneUlp(yp, p, exp, au);
    }
    HoldingIsNormalized(yp[..], p, NormSig(p, m));
    y.exp, y.kind := exp, Regular;
    CheckRangeCorrect(r, p, dir, NormSig(p, m), NormExp(p, m, exp0), t, env.emin, env.emax);
    SignedTwice(inex, y.neg);
    ghost var a := RangeOutcome(p, dir, NormSig(p, m), NormExp(p, m, exp0), t, env.emin, env.emax);
    o := a.0;
    SignedTwice(a.1, y.neg);
    inex := CheckRange(env, y, Signed(inex, y.neg), rnd);
    SignedMeans(r, p, rnd, y.neg, env.emin, env.emax, o, inex);
  }

  /** Only rounding up can raise the exponent. */
  lemma CarryOnly(p: nat, au: int, m: int, e: int, t: int)
    requires p >= 1 && IsSignificand(p, au) && (m == au || (m == au + 1 && t == 1))
    ensures NormExp(p, m, e) <= e || (NormExp(p, m, e) == e + 1 && NormSig(p, m) == Pow2(p - 1) && t > 0)
    ensures m == au ==> NormSig(p, m) == au && NormExp(p, m, e) == e
  {}

  /** mpfr_div_ui: |x|/u with the sign of x, rounded once into the range; y may be x. */
  method DivUi(env: Env, y: Mpfr, x: Mpfr, u: limb, rnd: Mode) returns (inex: int, ghost o: Outcome, ghost r: real)
    requires y.Shape() && x.IsPureFp() && u >= 2 && env.emin <= env.emax
    modifies y, y.mant, env`inexact, env`overflow, env`underflow
    ensures y.neg == old(x.neg) && y.Holds(o) && r == old(x.Magnitude()) / u as real
    ensures CorrectSigned(WithSign(y.neg, r), y.prec, rnd, env.emin, env.emax, y.neg, o, inex)
    ensures env.inexact == (old(env.inexact) || inex != 0)
    ensures env.overflow == (old(env.overflow) || TooLarge(WithSign(y.neg, r), y.prec, rnd, env.emax))
    ensures env.underflow == (old(env.underflow) || TooSmall(WithSign(y.neg, r), y.prec, rnd, env.emin))
  {
    hide Val, BP, Pow2, R2, Frac, Normalized, Sig, CorrectSigned, TooLarge, TooSmall, CorrectlyRounded, Placed, Holding, Rounded, Ternary, Up;
    r := x.Magnitude() / u as real;
    y.neg := x.neg;
    var xs, ex, p, dir := x.mant[..], x.exp, y.prec, DirectionOf(rnd, y.neg);
    var rb, sb, g;
    ghost var nn, dd, kk;
    rb, sb, g, nn, dd, kk := Quotient(y.mant, xs, u, p, x.prec);
    PlacedRounds(y.mant[..], xs, ex, u, p, g, nn, dd, kk, rb, sb, dir, r);
    var exp := ex - 64 + g;
    inex, o := RoundQuotient(env, y, rnd, exp, rb, sb, nn / (Pow2(Unused(p) + g) * dd), r);
  }
}

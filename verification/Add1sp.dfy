/** The generic addition of add1sp.c, for operands and destination of the same
    precision; the destination may be one of the operands. */
module Add1sp {
  import opened Powers
  import opened RealPowers
  import opened Limbs
  import opened Rounding
  import opened Range
  import opened Numbers
  import opened Exceptions
  import opened SignedRounding
  import opened Significands
  import opened SameSum
  import opened AddShifted

  lemma SignificandBounds(s: seq<limb>, p: nat)
    requires Normalized(s, p)
    ensures |s| == LimbCount(p) && p >= 1
    ensures Val(s) == Sig(s, p) * Pow2(Unused(p)) && IsSignificand(p, Sig(s, p))
    ensures BP(|s|) == Pow2(p) * Pow2(Unused(p)) && BP(|s|) <= 2 * Val(s) < 2 * BP(|s|)
  {
    hide Pow2, BP, Val;
    NormalizedValue(s, p);
    LimbsOfPrecision(p);
    Pow2Step(p - 1);
    MulMono(Pow2(p - 1), Sig(s, p), Pow2(Unused(p)));
    MulAssoc(2, Pow2(p - 1), Pow2(Unused(p)));
    ValBound(s);
  }

  /** add1sp.c:915-927, equal exponents. */
  method SameExponent(ap: array<limb>, b: seq<limb>, c: seq<limb>, p: nat) returns (rb: bool)
    requires Normalized(b, p) && Normalized(c, p) && ap.Length == LimbCount(p)
    modifies ap
    ensures Prepared(ap[..], p, Val(b) * Pow2(0) + Val(c), 0, 1, rb, false)
  {
    hide Val, BP, Pow2, Normalized, Sig, Holding, Bits;
    SignificandBounds(b, p);
    SignificandBounds(c, p);
    var sh := Unused(p);
    var limb := AddN(ap, b, c);
    ValBound(ap[..]);
    LowLimb(ap[..], sh + 1);
    rb := ap[0] / Pow2(sh) % 2 == 1;
    LowBit(ap[0], Pow2(sh));
    LowBit(Val(ap[..]), Pow2(sh));
    Pow2Step(sh);
    ghost var v := Val(ap[..]);
    HalveWithCarry(ap);
    KeepUpper(ap, sh);
    TwoSignificands(Sig(b, p), Sig(c, p), p, sh, v, Val(b) + Val(c));
    Pow2Zero();
    PreparedByHalves(ap[..], p, Val(b) + Val(c), 0, rb, false, Val(b) + Val(c), 1, 0);
  }

  lemma TwoSignificands(mb: int, mc: int, p: nat, sh: nat, v: int, t: int)
    requires t == mb * Pow2(sh) + mc * Pow2(sh) && t == v + Pow2(p) * Pow2(sh) && v >= 0
    ensures t >= 0 && t % Pow2(sh) == 0 && t / Pow2(sh) % 2 == (if p >= 1 then v / Pow2(sh) % 2 else t / Pow2(sh) % 2)
  {
    hide Pow2;
    Distrib(mb, mc, Pow2(sh));
    DivUnique(t, Pow2(sh), mb + mc, 0);
    ModAddMultiple(v, Pow2(sh), Pow2(p));
    if p >= 1 { Pow2Step(p - 1); }
    MulMono(0, Pow2(p), Pow2(sh));
  }

  /** The limbs hold the upper bits of T = N / dd, shifted once after a carry. */
  lemma PreparedByHalves(s: seq<limb>, p: nat, nn: nat, d: nat, rb: bool, sb: bool, t: nat, dd: int, rem: int)
    requires p >= 1 && |s| == LimbCount(p) && dd == Pow2(d) && 0 <= rem < dd && nn == t * dd + rem
    requires BP(|s|) <= t < 2 * BP(|s|) && Val(s) == t / 2 / Pow2(Unused(p)) * Pow2(Unused(p))
    requires rb == (t / Pow2(Unused(p)) % 2 == 1) && sb == (t % Pow2(Unused(p)) != 0 || rem != 0)
    ensures Prepared(s, p, nn, d, 1, rb, sb)
  {
    hide Val, BP, Pow2, Bits;
    var h := Pow2(Unused(p));
    BitsOfQuotient(nn, t, dd, rem, h);
    LimbsOfPrecision(p);
    Pow2Step(Unused(p));
    Pow2Add(Unused(p) + 1, d);
    HalfThen(t, h);
    Pow2Step(p - 1);
    MulAssoc(2, Pow2(p), h);
    MulAssoc(Pow2(p), 2, h);
    UpperBits(t, 2 * h, Pow2(p - 1), Pow2(p)) by { TwiceTwice(Pow2(p - 1), Pow2(p), h); }
    FromBits(s, p, nn, d, 1, rb, sb, 2 * h * dd, t / (2 * h));
  }

  lemma TwiceTwice(lo: int, hi: int, h: int)
    requires hi == 2 * lo
    ensures lo * (2 * h) == hi * h && hi * (2 * h) == 2 * (hi * h)
  {}

  lemma FromBits(s: seq<limb>, p: nat, nn: nat, d: nat, k: nat, rb: bool, sb: bool, e: int, au: int)
    requires k <= 1 && p >= 1 && |s| == LimbCount(p) && e == Pow2(Unused(p) + d + k) && Bits(nn, e, rb, sb) && au == nn / e
    requires Val(s) == au * Pow2(Unused(p)) && IsSignificand(p, au)
    ensures Prepared(s, p, nn, d, k, rb, sb)
  {
    hide Val, Pow2;
  }

  lemma HalfThen(t: nat, h: int)
    requires h >= 1
    ensures t / 2 / h == t / (2 * h)
  {
    ModProduct(t, 2, h);
  }

  lemma UpperBits(t: nat, g: int, lo: int, hi: int)
    requires g >= 1 && lo * g <= t < hi * g
    ensures lo <= t / g < hi
  {
    MulComm(hi, g);
    DivMulLt(t, g, hi);
    MulComm(g, t / g);
    if t / g < lo { MulMono(t / g + 1, lo, g); Distrib(t / g, 1, g); }
  }

  /** The same without a carry. */
  lemma PreparedPlain(s: seq<limb>, p: nat, nn: nat, d: nat, rb: bool, sb: bool, t: nat, dd: int, rem: int)
    requires p >= 1 && |s| == LimbCount(p) && dd == Pow2(d) && 0 <= rem < dd && nn == t * dd + rem
    requires BP(|s|) <= 2 * t < 2 * BP(|s|) && Val(s) == t / Pow2(Unused(p)) * Pow2(Unused(p))
    requires if Unused(p) > 0
             then rb == (t / Pow2(Unused(p) - 1) % 2 == 1) && sb == (t % Pow2(Unused(p) - 1) != 0 || rem != 0)
             else rb == (2 * rem >= dd) && sb == (2 * rem != if rb then dd else 0)
    ensures Prepared(s, p, nn, d, 0, rb, sb)
  {
    hide Val, BP, Pow2;
    var sh := Unused(p);
    var h := Pow2(sh);
    LimbsOfPrecision(p);
    Pow2Step(p - 1);
    MulAssoc(2, Pow2(p - 1), h);
    UpperBits(t, h, Pow2(p - 1), Pow2(p));
    Pow2Add(sh, d);
    if sh > 0 {
      Pow2Step(sh - 1);
      BitsOfQuotient(nn, t, dd, rem, Pow2(sh - 1));
    } else {
      Pow2Zero();
      DivUnique(nn, dd, t, rem);
    }
  }

  /** The bits below the significand, before a carry is taken into account. */
  method FirstBits(ap: array<limb>, sh: nat, low: limb, ghost rem: int, ghost dd: int) returns (rb: bool, sb: bool)
    requires ap.Length > 0 && sh < 64 && LowOk(low, rem, dd) && 0 <= rem < dd
    ensures sh > 0 ==> rb == (Val(ap[..]) / Pow2(sh - 1) % 2 == 1) && sb == (Val(ap[..]) % Pow2(sh - 1) != 0 || rem != 0)
    ensures sh == 0 ==> rb == (2 * rem >= dd) && sb == (2 * rem != if rb then dd else 0)
  {
    hide Val, BP, Pow2;
    if sh > 0 {
      rb := ap[0] / Pow2(sh - 1) % 2 == 1;
      sb := low != 0 || ap[0] % Pow2(sh - 1) != 0;
      LowLimb(ap[..], sh);
      Pow2Step(sh - 1);
      LowBit(ap[0], Pow2(sh - 1));
      LowBit(Val(ap[..]), Pow2(sh - 1));
    } else {
      rb := low >= HALF;
      sb := low % HALF != 0;
    }
  }

  lemma SumSize(vb: int, vc: int, dd: int, bn: int)
    requires bn <= 2 * vb < 2 * bn && 0 <= vc < bn && dd >= 1
    ensures var t := vb + vc / dd; bn <= 2 * t && t < 2 * bn && t >= 0
    ensures vb * dd + vc == (vb + vc / dd) * dd + vc % dd && 0 <= vc % dd < dd
  {
    DivLe(vc, dd);
    Distrib(vb, vc / dd, dd);
    MulComm(dd, vc / dd);
  }

  /** After a carry: the limbs v become the halves of t = v + 2^p h, and the new round
      bit is the last bit of the significand. */
  lemma HalvedTwice(v: nat, t: nat, p: nat, sh: nat)
    requires p >= 1 && t == v + Pow2(p) * Pow2(sh)
    ensures var h := Pow2(sh); (v / h * h + Pow2(p) * h) / 2 / h == t / 2 / h
    ensures v / Pow2(sh) * Pow2(sh) / Pow2(sh) % 2 == t / Pow2(sh) % 2
    ensures v % Pow2(sh) == t % Pow2(sh)
    ensures sh > 0 ==> (t % Pow2(sh) != 0 <==> v / Pow2(sh - 1) % 2 == 1 || v % Pow2(sh - 1) != 0)
  {
    hide Pow2;
    var h := Pow2(sh);
    Pow2Step(p - 1);
    HalvedPlain(v, t, h, Pow2(p - 1), Pow2(p));
    if sh > 0 {
      Pow2Step(sh - 1);
      TopHalf(v, Pow2(sh - 1));
      BitPart(v / Pow2(sh - 1) % 2, v % Pow2(sh - 1), Pow2(sh - 1));
    }
  }

  lemma BitPart(bit: int, x: int, h: int)
    requires 0 <= bit <= 1 && 0 <= x < h
    ensures bit * h + x != 0 <==> bit == 1 || x != 0
  {
    ProductZero(bit, h);
    MulMono(0, bit, h);
  }

  lemma HalvedPlain(v: nat, t: nat, h: int, q: int, p: int)
    requires h >= 1 && p == 2 * q && q >= 0 && t == v + p * h
    ensures (v / h * h + p * h) / 2 / h == t / 2 / h
    ensures v / h * h / h % 2 == t / h % 2 && v % h == t % h
  {
    DivLe(v, h);
    MulComm(h, v / h);
    ProductNonNegative(p, h);
    ProductNonNegative(v / h, h);
    SumQuotients(v, t, h, v / h, v % h, p, v / h * h, v / h * h + p * h);
    SameHalves(v / h * h + p * h, t, h);
    EvenShift(v / h, q);
  }

  lemma EvenShift(a: int, q: int)
    ensures (a + 2 * q) % 2 == a % 2
  {}

  lemma SameHalves(x: nat, t: nat, h: int)
    requires h >= 1 && x / h == t / h
    ensures x / 2 / h == t / 2 / h
  {
    HalvesOf(t, h);
    HalvesOf(x, h);
  }

  lemma SumQuotients(v: int, t: int, h: int, a: int, r: int, p: int, ah: int, x: int)
    requires h >= 1 && ah == a * h && x == ah + p * h && v == ah + r && 0 <= r < h && t == v + p * h
    ensures ah / h == a && x / h == a + p && t / h == a + p && t % h == r
  {
    Distrib(a, p, h);
    DivUnique(ah, h, a, 0);
    DivUnique(x, h, a + p, 0);
    DivUnique(t, h, a + p, r);
  }

  lemma HalvesOf(t: nat, h: int)
    requires h >= 1
    ensures t / 2 / h == t / h / 2
  {
    ModProduct(t, 2, h);
    ModProduct(t, h, 2);
    MulComm(2, h);
  }

  /** add1sp.c:1031-1044, a carry out. */
  method AfterCarry(ap: array<limb>, p: nat, rb0: bool, sb0: bool, ghost nn: nat, ghost d: nat, ghost t: nat, ghost rem: int, ghost v: nat)
    returns (rb: bool, sb: bool)
    requires p >= 1 && ap.Length == LimbCount(p) && Val(ap[..]) == v / Pow2(Unused(p)) * Pow2(Unused(p))
    requires t == v + BP(ap.Length) && t < 2 * BP(ap.Length) && 0 <= rem < Pow2(d) && nn == t * Pow2(d) + rem
    requires if Unused(p) > 0
             then rb0 == (v / Pow2(Unused(p) - 1) % 2 == 1) && sb0 == (v % Pow2(Unused(p) - 1) != 0 || rem != 0)
             else rb0 == (2 * rem >= Pow2(d)) && sb0 == (2 * rem != if rb0 then Pow2(d) else 0)
    modifies ap
    ensures Prepared(ap[..], p, nn, d, 1, rb, sb)
  {
    hide Val, BP, Pow2, Prepared;
    var sh := Unused(p);
    LimbsOfPrecision(p);
    HalvedTwice(v, t, p, sh);
    LowLimb(ap[..], sh + 1);
    Pow2Step(sh);
    LowBit(ap[0], Pow2(sh));
    LowBit(Val(ap[..]), Pow2(sh));
    rb := ap[0] / Pow2(sh) % 2 == 1;
    HalveWithCarry(ap);
    KeepUpper(ap, sh);
    sb := sb0 || rb0;
    if sh == 0 { Pow2Zero(); }
    PreparedByHalves(ap[..], p, nn, d, rb, sb, t, Pow2(d), rem);
  }

  /** add1sp.c:1004-1044: 0 < d < p. */
  method Overlapping(ap: array<limb>, bp: array<limb>, cp: array<limb>, p: nat, d: nat) returns (rb: bool, sb: bool, k: nat)
    requires Normalized(bp[..], p) && Normalized(cp[..], p) && ap.Length == LimbCount(p) && 0 < d < p
    modifies ap
    ensures Prepared(ap[..], p, Val(old(bp[..])) * Pow2(d) + Val(old(cp[..])), d, k, rb, sb)
  {
    hide Val, BP, Pow2, Normalized, Sig, Prepared, LowOk;
    ghost var b, c := bp[..], cp[..];
    SignificandBounds(b, p);
    SignificandBounds(c, p);
    var limb, low := Addrsh(ap, bp, cp, d);
    SumSize(Val(b), Val(c), Pow2(d), BP(ap.Length));
    rb, sb, k := Conclude(ap, p, limb, low, Val(b) * Pow2(d) + Val(c), d, Val(b) + Val(c) / Pow2(d), Val(c) % Pow2(d));
  }

  method Conclude(ap: array<limb>, p: nat, cy: limb, low: limb, ghost nn: nat, ghost d: nat, ghost t: nat, ghost rem: int)
    returns (rb: bool, sb: bool, k: nat)
    requires p >= 1 && ap.Length == LimbCount(p) && cy <= 1 && Val(ap[..]) + cy * BP(ap.Length) == t && BP(ap.Length) <= 2 * t
    requires t < 2 * BP(ap.Length) && 0 <= rem < Pow2(d) && LowOk(low, rem, Pow2(d)) && nn == t * Pow2(d) + rem
    modifies ap
    ensures Prepared(ap[..], p, nn, d, k, rb, sb)
  {
    hide Val, BP, Pow2, Prepared, LowOk;
    var sh := Unused(p);
    ghost var v := Val(ap[..]);
    ValBound(ap[..]);
    rb, sb := FirstBits(ap, sh, low, rem, Pow2(d));
    KeepUpper(ap, sh);
    if cy != 0 {
      k := 1;
      rb, sb := AfterCarry(ap, p, rb, sb, nn, d, t, rem, v);
    } else {
      k := 0;
      PreparedPlain(ap[..], p, nn, d, rb, sb, t, Pow2(d), rem);
    }
  }

  // ---- the three branches and their decisions ---------------------------------------

  /** What a branch leaves: A in the limbs, whether one is added to it, and the
      ternary value, justified by a round bit and a sticky bit. */
  ghost predicate Settled(s: seq<limb>, p: nat, nn: nat, d: nat, k: nat, dir: Direction, up: bool, inexact: int) {
    exists rb, sb :: Decided(s, p, nn, d, k, rb, sb, dir, up, inexact)
  }

  ghost predicate Decided(s: seq<limb>, p: nat, nn: nat, d: nat, k: nat, rb: bool, sb: bool, dir: Direction, up: bool, inexact: int) {
    && Prepared(s, p, nn, d, k, rb, sb)
    && up == Up(dir, nn / Pow2(Unused(p) + d + k), rb, sb)
    && inexact == Ternary(dir, nn / Pow2(Unused(p) + d + k), rb, sb)
  }

  lemma Parity(s: seq<limb>, p: nat, nn: nat, d: nat, k: nat, rb: bool, sb: bool)
    requires Prepared(s, p, nn, d, k, rb, sb)
    ensures |s| >= 1 && s[0] / Pow2(Unused(p)) % 2 == nn / Pow2(Unused(p) + d + k) % 2
  {
    hide Pow2, Val, Bits;
    ParityOfA(s, p, nn / Pow2(Unused(p) + d + k));
  }

  method DecideSame(ap: array<limb>, b: seq<limb>, c: seq<limb>, p: nat, dir: Direction) returns (up: bool, inexact: int)
    requires Normalized(b, p) && Normalized(c, p) && ap.Length == LimbCount(p)
    modifies ap
    ensures Settled(ap[..], p, Val(b) * Pow2(0) + Val(c), 0, 1, dir, up, inexact)
  {
    hide Val, BP, Pow2, Normalized, Prepared;
    var rb := SameExponent(ap, b, c, p);
    ghost var nn := Val(b) * Pow2(0) + Val(c);
    Parity(ap[..], p, nn, 0, 1, rb, false);
    if !rb {
      up, inexact := false, 0;
    } else if dir == Nearest {
      if ap[0] / Pow2(Unused(p)) % 2 == 0 {
        up, inexact := false, -1;
      } else {
        up, inexact := true, 1;
      }
    } else if dir == TowardZero {
      up, inexact := false, -1;
    } else {
      up, inexact := true, 1;
    }
    assert Decided(ap[..], p, nn, 0, 1, rb, false, dir, up, inexact);
  }

  /** b is unchanged, and c is entirely below its last bit. */
  lemma FarBits(b: seq<limb>, c: seq<limb>, p: nat, d: nat)
    requires Normalized(b, p) && Normalized(c, p) && d >= p
    ensures Prepared(b, p, Val(b) * Pow2(d) + Val(c), d, 0, d == p, d > p || Sig(c, p) != Pow2(p - 1))
  {
    hide Val, BP, Pow2, Normalized, Sig;
    SignificandBounds(b, p);
    SignificandBounds(c, p);
    var h, dd := Pow2(Unused(p)), Pow2(d);
    Pow2Add(Unused(p), d);
    Pow2Mono(p, d);
    MulMono(Pow2(p), dd, h);
    if d > p { MulMono(2 * Pow2(p), dd, h); MulAssoc(2, Pow2(p), h); }
    MulComm(dd, h);
    MulAssoc(Sig(b, p), h, dd);
    DivUnique(Val(b) * dd + Val(c), h * dd, Sig(b, p), Val(c));
    Pow2Step(p - 1);
    MulAssoc(2, Pow2(p - 1), h);
    MulEq(Sig(c, p), Pow2(p - 1), h);
    FromBits(b, p, Val(b) * dd + Val(c), d, 0, d == p, d > p || Sig(c, p) != Pow2(p - 1), h * dd, Sig(b, p));
  }

  method DecideFar(a: Mpfr, b: Mpfr, c: Mpfr, d: nat, dir: Direction) returns (up: bool, inexact: int)
    requires b.IsPureFp() && c.IsPureFp() && a.Shape() && a.prec == b.prec == c.prec && d >= a.prec
    modifies a.mant
    ensures Settled(a.mant[..], a.prec, Val(old(b.mant[..])) * Pow2(d) + Val(old(c.mant[..])), d, 0, dir, up, inexact)
  {
    hide Val, BP, Pow2, Normalized, Sig, Prepared;
    var p, sh := a.prec, Unused(a.prec);
    ghost var nn := Val(b.mant[..]) * Pow2(d) + Val(c.mant[..]);
    ghost var sb := d > p || Sig(c.mant[..], p) != Pow2(p - 1);
    FarBits(b.mant[..], c.mant[..], p, d);
    Parity(b.mant[..], p, nn, d, 0, d == p, sb);
    if d > p {
      up := dir == AwayFromZero;
    } else if dir == Nearest {
      var pow := PowerOf2Raw(c);
      up := !(pow && b.mant[0] / Pow2(sh) % 2 == 0);
    } else {
      up := dir == AwayFromZero;
    }
    inexact := if up then 1 else -1;
    ghost var s := b.mant[..];
    if a.mant != b.mant { MpnCopy(a.mant, 0, b.mant[..]); }
    assert a.mant[..] == s;
    assert Decided(a.mant[..], p, nn, d, 0, d == p, sb, dir, up, inexact);
  }

  method DecideOverlapping(ap: array<limb>, bp: array<limb>, cp: array<limb>, p: nat, d: nat, dir: Direction)
    returns (up: bool, inexact: int, k: nat)
    requires Normalized(bp[..], p) && Normalized(cp[..], p) && ap.Length == LimbCount(p) && 0 < d < p
    modifies ap
    ensures Settled(ap[..], p, Val(old(bp[..])) * Pow2(d) + Val(old(cp[..])), d, k, dir, up, inexact) && k <= 1
  {
    hide Val, BP, Pow2, Normalized, Prepared;
    ghost var nn := Val(bp[..]) * Pow2(d) + Val(cp[..]);
    var rb, sb;
    rb, sb, k := Overlapping(ap, bp, cp, p, d);
    Parity(ap[..], p, nn, d, k, rb, sb);
    CarryAtMostOne(ap[..], p, nn, d, k, rb, sb);
    if dir == Nearest {
      inexact := if sb then -1 else 0;
      if !rb {
        up := false;
      } else if !sb && ap[0] / Pow2(Unused(p)) % 2 == 0 {
        up, inexact := false, -1;
      } else {
        up, inexact := true, 1;
      }
    } else {
      inexact := if rb || sb then -1 else 0;
      up := false;
      if !(dir == TowardZero || inexact == 0) {
        up, inexact := true, 1;
      }
    }
    assert Decided(ap[..], p, nn, d, k, rb, sb, dir, up, inexact);
  }

  lemma CarryAtMostOne(s: seq<limb>, p: nat, nn: nat, d: nat, k: nat, rb: bool, sb: bool)
    requires Prepared(s, p, nn, d, k, rb, sb)
    ensures k <= 1
  {}

  // ---- the whole addition ----------------------------------------------------------------

  /** add_one_ulp. */
  method RoundSum(ap: array<limb>, ghost b: seq<limb>, ghost c: seq<limb>, p: nat, bx: int, ghost d: nat, k: nat,
                  dir: Direction, up: bool, inexact: int, ghost x: real)
    returns (exp: int, ghost m: int)
    requires |b| == |c| == ap.Length == LimbCount(p) && x == Frac(b) * R2(bx) + Frac(c) * R2(bx - d)
    requires Settled(ap[..], p, Val(b) * Pow2(d) + Val(c), d, k, dir, up, inexact)
    modifies ap
    ensures Holding(ap[..], p, m) && CorrectlyRounded(x, p, dir, m, exp, inexact)
    ensures x > 0.0 && exp >= bx
  {
    hide Val, BP, Pow2, R2, Frac, CorrectlyRounded, Prepared, Bits;
    ghost var nn := Val(b) * Pow2(d) + Val(c);
    ghost var rb, sb :| Decided(ap[..], p, nn, d, k, rb, sb, dir, up, inexact);
    ghost var au := nn / Pow2(Unused(p) + d + k);
    PreparedSum(ap[..], b, c, p, bx, d, k, rb, sb, dir, x);
    R2Pos(bx + k - 1);
    PreparedHolds(ap[..], p, nn, d, k, rb, sb);
    exp := bx + k;
    if up {
      exp := AddOneUlp(ap, p, exp, au);
    }
    m := NormSig(p, if up then au + 1 else au);
  }

  lemma PreparedHolds(s: seq<limb>, p: nat, nn: nat, d: nat, k: nat, rb: bool, sb: bool)
    requires Prepared(s, p, nn, d, k, rb, sb)
    ensures var au := nn / Pow2(Unused(p) + d + k); Holding(s, p, au) && NormSig(p, au) == au && NormExp(p, au, 0) == 0
  {}

  /** The upper bits of the sum, and what becomes of the others, by the exponent gap d. */
  method Decide(a: Mpfr, b: Mpfr, c: Mpfr, d: nat, dir: Direction) returns (up: bool, inexact: int, k: nat)
    requires b.IsPureFp() && c.IsPureFp() && a.Shape() && a.prec == b.prec == c.prec
    modifies a.mant
    ensures Settled(a.mant[..], a.prec, Val(old(b.mant[..])) * Pow2(d) + Val(old(c.mant[..])), d, k, dir, up, inexact)
  {
    hide Val, BP, Pow2, Sig, Settled;
    if d == 0 {
      k := 1;
      up, inexact := DecideSame(a.mant, b.mant[..], c.mant[..], a.prec, dir);
    } else if d >= a.prec {
      k := 0;
      up, inexact := DecideFar(a, b, c, d, dir);
    } else {
      up, inexact, k := DecideOverlapping(a.mant, b.mant, c.mant, a.prec, d, dir);
    }
  }

  /** mpfr_add1sp without its fast paths: the sum of |b| and |c| with the sign of b,
      rounded once; a may be b or c. */
  method Generic(env: Env, a: Mpfr, b0: Mpfr, c0: Mpfr, rnd: Mode) returns (inex: int, ghost o: Outcome)
    requires a.Shape() && b0.IsPureFp() && c0.IsPureFp() && a.prec == b0.prec == c0.prec
    requires env.emin <= env.emax && env.emin <= b0.exp && env.emin <= c0.exp
    modifies a, a.mant, env`inexact, env`overflow
    ensures a.neg == old(b0.neg) && a.Holds(o)
    ensures CorrectSigned(WithSign(a.neg, old(b0.Magnitude()) + old(c0.Magnitude())), a.prec, rnd, env.emin, env.emax, a.neg, o, inex)
    ensures env.inexact == (old(env.inexact) || inex != 0)
    ensures env.overflow == (old(env.overflow) || TooLarge(WithSign(a.neg, old(b0.Magnitude()) + old(c0.Magnitude())), a.prec, rnd, env.emax))
    ensures !TooSmall(WithSign(a.neg, old(b0.Magnitude()) + old(c0.Magnitude())), a.prec, rnd, env.emin)
  {
    hide Val, BP, Pow2, R2, Frac, Normalized, Sig, CorrectlyRounded, Settled, CorrectSigned, TooLarge, TooSmall, Holding;
    ghost var x := b0.Magnitude() + c0.Magnitude();
    a.neg := b0.neg;
    var b, c := b0, c0;
    var bx := b.exp;
    if bx < c.exp {
      bx := c.exp;
      b, c := c0, b0;
    }
    var p, dir := a.prec, DirectionOf(rnd, a.neg);
    var d := bx - c.exp;
    var bp, cp := b.mant[..], c.mant[..];
    assert c.exp == bx - d;
    var up, inexact, k := Decide(a, b, c, d, dir);
    var exp;
    ghost var m;
    exp, m := RoundSum(a.mant, bp, cp, p, bx, d, k, dir, up, inexact, x);
    inex, o := SetExponent(env, a, rnd, exp, inexact, m, x);
  }
}

/** fpif.c: the portable interchange format, written to and read from a buffer in
    memory, on a little-endian machine with limbs of 64 bits.

    The encoders and decoders are loops over bytes; each is proved equal to a function
    on sequences, and these functions are proved to undo each other. */
module Fpif {
  import opened Powers
  import opened Limbs
  import opened Rounding
  import opened Numbers
  import opened Exceptions

  type byte = x: int | 0 <= x < 256

  const MAX_PRECSIZE: int := 7
  const MAX_EMBEDDED_PRECISION: int := 248
  const KIND_ZERO: int := 119
  const KIND_INF: int := 120
  const KIND_NAN: int := 121
  const MAX_EMBEDDED_EXPONENT: int := 47
  const EXTERNAL_EXPONENT: int := 94

  /** MPFR_PREC_MAX, MPFR_EMAX_MAX and -MPFR_EMIN_MIN for 64-bit types, and the largest
      value of mpfr_prec_t. */
  const PREC_MAX: int := 0x7FFF_FFFF_FFFF_FEFF
  const LONG_MAX: int := 0x7FFF_FFFF_FFFF_FFFF
  const EXP_LIMIT: int := 0x3FFF_FFFF_FFFF_FFFF

  // ---- bytes --------------------------------------------------------------------------

  /** The low n bytes of v, least significant first. */
  function LittleEndian(v: nat, n: nat): (s: seq<byte>)
    ensures |s| == n
  {
    if n == 0 then [] else [v % 256] + LittleEndian(v / 256, n - 1)
  }

  function ByteValue(s: seq<byte>): nat {
    if s == [] then 0 else s[0] + 256 * ByteValue(s[1..])
  }

  /** 256^n. */
  function P256(n: nat): (r: nat)
    ensures r >= 1
  {
    if n == 0 then 1 else 256 * P256(n - 1)
  }

  lemma {:induction false} BytesUndo(v: nat, n: nat)
    requires v < P256(n)
    ensures ByteValue(LittleEndian(v, n)) == v
  {
    if n > 0 {
      var s := LittleEndian(v, n);
      assert s[1..] == LittleEndian(v / 256, n - 1);
      BytesUndo(v / 256, n - 1);
    }
  }

  lemma {:induction false} BytesBound(s: seq<byte>)
    ensures ByteValue(s) < P256(|s|)
  {
    if s != [] { BytesBound(s[1..]); }
  }

  /** COUNT_NB_BYTE: at least one byte. */
  function ByteCount(v: nat): (n: nat)
    ensures n >= 1
  {
    if v < 256 then 1 else 1 + ByteCount(v / 256)
  }

  lemma {:induction false} CountFits(v: nat)
    ensures v < P256(ByteCount(v))
    ensures ByteCount(v) > 1 ==> v >= P256(ByteCount(v) - 1)
  {
    assert P256(0) == 1 && P256(1) == 256;
    if v >= 256 {
      CountFits(v / 256);
    }
  }

  lemma {:induction false} P256Mono(m: nat, n: nat)
    requires m <= n
    ensures P256(m) <= P256(n)
  {
    if m < n { P256Mono(m, n - 1); }
  }

  lemma P256Eight()
    ensures P256(8) == B && P256(7) == 0x100_0000_0000_0000
  {
    assert P256(2) == 0x1_0000;
    assert P256(4) == 0x1_0000_0000;
    assert P256(6) == 0x1_0000_0000_0000;
  }

  lemma {:induction false} P256Pow2(n: nat)
    ensures P256(n) == Pow2(8 * n)
  {
    if n > 0 {
      P256Pow2(n - 1);
      Pow2Add(8, 8 * (n - 1));
      Pow2Eight();
    }
  }

  lemma Pow2Eight()
    ensures Pow2(8) == 256
  {
    assert Pow2(4) == 16;
    Pow2Add(4, 4);
  }

  /** At most n bytes are needed below 256^n. */
  lemma CountAtMost(v: nat, n: nat)
    requires v < P256(n) && n >= 1
    ensures ByteCount(v) <= n
  {
    CountFits(v);
    if ByteCount(v) > n { P256Mono(n, ByteCount(v) - 1); }
  }

  // ---- the format ------------------------------------------------------------------------

  /** What a number is, apart from where it is stored. */
  datatype Number = Number(prec: nat, neg: bool, kind: Kind, exp: int, limbs: seq<limb>)

  /** The numbers that can be exported: for a regular one, a normalized significand and
      an exponent of the current range. */
  predicate ValidNumber(v: Number, emin: int, emax: int) {
    && 1 <= v.prec <= PREC_MAX && -EXP_LIMIT <= emin && emax <= EXP_LIMIT
    && (if v.kind == Regular then Normalized(v.limbs, v.prec) && emin <= v.exp <= emax else v.exp == 0 && v.limbs == [])
  }

  function EncodePrecision(p: nat): seq<byte>
    requires 1 <= p <= PREC_MAX
  {
    if p <= MAX_EMBEDDED_PRECISION then [p + MAX_PRECSIZE]
    else
      PrecisionSize(p);
      [ByteCount(p - 249) - 1] + LittleEndian(p - 249, ByteCount(p - 249))
  }

  lemma PrecisionSize(p: nat)
    requires MAX_EMBEDDED_PRECISION < p <= PREC_MAX
    ensures ByteCount(p - 249) <= 8
  {
    P256Eight();
    CountAtMost(p - 249, 8);
  }

  /** The exponent of a regular number that is not embedded in the first byte. */
  function Magnitude47(e: int): nat
    requires e > MAX_EMBEDDED_EXPONENT || e < -MAX_EMBEDDED_EXPONENT
  {
    (if e < 0 then -e else e) - MAX_EMBEDDED_EXPONENT
  }

  /** Sign and absolute value of the exponent in n bytes. */
  function SignedExponent(e: int): nat
    requires e > MAX_EMBEDDED_EXPONENT || e < -MAX_EMBEDDED_EXPONENT
  {
    Magnitude47(e) + if e < 0 then P256(ByteCount(2 * Magnitude47(e)) - 1) * 128 else 0
  }

  lemma ExponentSize(e: int)
    requires -EXP_LIMIT <= e <= EXP_LIMIT && (e > MAX_EMBEDDED_EXPONENT || e < -MAX_EMBEDDED_EXPONENT)
    ensures ByteCount(2 * Magnitude47(e)) <= 8
    ensures var n := ByteCount(2 * Magnitude47(e)); Magnitude47(e) < P256(n - 1) * 128 && SignedExponent(e) < P256(n)
  {
    P256Eight();
    CountAtMost(2 * Magnitude47(e), 8);
    CountFits(2 * Magnitude47(e));
  }

  function EncodeExponent(kind: Kind, e: int, neg: bool): (s: seq<byte>)
    requires kind == Regular ==> -EXP_LIMIT <= e <= EXP_LIMIT
  {
    var sign := if neg then 128 else 0;
    match kind
    case ZeroKind => [KIND_ZERO + sign]
    case Inf => [KIND_INF + sign]
    case NaN => [KIND_NAN + sign]
    case Regular =>
      if e > MAX_EMBEDDED_EXPONENT || e < -MAX_EMBEDDED_EXPONENT then
        ExponentSize(e);
        var n := ByteCount(2 * Magnitude47(e));
        [EXTERNAL_EXPONENT + n + sign] + LittleEndian(SignedExponent(e), n)
      else [e + MAX_EMBEDDED_EXPONENT + sign]
  }

  function Reverse(s: seq<byte>): (r: seq<byte>)
    ensures |r| == |s| && forall i :: 0 <= i < |s| ==> r[i] == s[|s| - 1 - i]
  {
    seq(|s|, i requires 0 <= i < |s| => s[|s| - 1 - i])
  }

  /** The bytes of a significand: the upper bytes of the lowest limb, most significant
      first, when not all of its bytes are used; then the other limbs, least
      significant byte first. */
  function EncodeLimbs(s: seq<limb>, bytes: nat): seq<byte>
    requires |s| == (bytes + 7) / 8
  {
    if bytes == 0 then []
    else if bytes % 8 == 0 then WholeLimbs(s)
    else Reverse(LittleEndian(s[0], 8)[8 - bytes % 8..]) + WholeLimbs(s[1..])
  }

  function WholeLimbs(s: seq<limb>): (r: seq<byte>)
    ensures |r| == 8 * |s|
  {
    if s == [] then [] else LittleEndian(s[0], 8) + WholeLimbs(s[1..])
  }

  function ByteLength(p: nat): nat { (p + 7) / 8 }

  function Encode(v: Number, emin: int, emax: int): seq<byte>
    requires ValidNumber(v, emin, emax)
  {
    EncodePrecision(v.prec) + EncodeExponent(v.kind, v.exp, v.neg)
    + if v.kind == Regular then EncodeLimbs(v.limbs, ByteLength(v.prec)) else []
  }

  // ---- decoding ----------------------------------------------------------------------------

  datatype Decoded<T> = Failed | Done(value: T, rest: seq<byte>)

  /** Reading n bytes of what is left: one more byte than asked for must be there. */
  predicate CanRead(s: seq<byte>, n: nat) { n < |s| }

  function DecodePrecision(s: seq<byte>): Decoded<nat> {
    if !CanRead(s, 1) then Failed
    else if s[0] > MAX_PRECSIZE then Done(s[0] - MAX_PRECSIZE, s[1..])
    else
      var n := s[0] + 1;
      if !CanRead(s[1..], n) || (n == 8 && s[n] >= 0x80) then Failed
      else Done(ByteValue(s[1..1 + n]) + MAX_EMBEDDED_PRECISION + 1, s[1 + n..])
  }

  /** An exponent in n bytes. */
  function DecodeLarge(s: seq<byte>, n: nat, emin: int, emax: int): Decoded<int>
    requires n >= 1
  {
    if n > 8 || !CanRead(s, n) then Failed
    else
      var h := P256(n - 1) * 128;
      var u := ByteValue(s[..n]);
      var sign := u / h % 2;
      var m := u - sign * h + MAX_EMBEDDED_EXPONENT;
      var e := if sign == 1 then -m else m;
      if m > EXP_LIMIT || !(emin <= e <= emax) then Failed else Done(e, s[n..])
  }

  /** Sign, kind and exponent. */
  function DecodeExponent(s: seq<byte>, emin: int, emax: int): Decoded<(bool, Kind, int)> {
    if !CanRead(s, 1) then Failed
    else
      var neg, code := s[0] >= 0x80, s[0] % 0x80;
      if EXTERNAL_EXPONENT < code < KIND_ZERO then
        match DecodeLarge(s[1..], code - EXTERNAL_EXPONENT, emin, emax)
        case Failed => Failed
        case Done(e, rest) => Done((neg, Regular, e), rest)
      else if code == KIND_ZERO then Done((neg, ZeroKind, 0), s[1..])
      else if code == KIND_INF then Done((neg, Inf, 0), s[1..])
      else if code == KIND_NAN then Done((neg, NaN, 0), s[1..])
      else if code <= EXTERNAL_EXPONENT then
        var e := code - MAX_EMBEDDED_EXPONENT;
        if emin <= e <= emax then Done((neg, Regular, e), s[1..]) else Failed
      else Failed
  }

  /** The limb with these bytes, least significant first. */
  function LimbOf(s: seq<byte>): (x: limb)
    requires |s| <= 8
  {
    BytesBound(s);
    P256Eight();
    P256Mono(|s|, 8);
    ByteValue(s)
  }

  function LimbsOfBytes(s: seq<byte>): (r: seq<limb>)
    requires |s| % 8 == 0
    ensures |r| == |s| / 8
  {
    if s == [] then [] else [LimbOf(s[..8])] + LimbsOfBytes(s[8..])
  }

  function Zeros(n: nat): (s: seq<byte>)
    ensures |s| == n
  {
    seq(n, i => 0)
  }

  function DecodeLimbs(s: seq<byte>): (r: seq<limb>)
    ensures |r| == (|s| + 7) / 8
  {
    var k := |s| % 8;
    if k == 0 then LimbsOfBytes(s) else [LimbOf(Zeros(8 - k) + Reverse(s[..k]))] + LimbsOfBytes(s[k..])
  }

  function Decode(s: seq<byte>, emin: int, emax: int): Decoded<Number> {
    match DecodePrecision(s)
    case Failed => Failed
    case Done(p, s1) =>
      if p > PREC_MAX then Failed
      else
        match DecodeExponent(s1, emin, emax)
        case Failed => Failed
        case Done((neg, kind, e), s2) =>
          if kind != Regular then Done(Number(p, neg, kind, e, []), s2)
          else if !CanRead(s2, ByteLength(p)) then Failed
          else Done(Number(p, neg, kind, e, DecodeLimbs(s2[..ByteLength(p)])), s2[ByteLength(p)..])
  }

  /** A 64-bit signed number from the sum of two: fpif.c:301. */
  function Signed(x: int): int { if x > LONG_MAX then x - B else x }

  /** The encoded precision does not fit in an mpfr_prec_t, although the test of
      fpif.c:289-291 has let it through. */
  predicate PrecisionOverflows(s: seq<byte>) {
    match DecodePrecision(s)
    case Failed => false
    case Done(p, _) => p > LONG_MAX
  }

  lemma DecodedRange(s: seq<byte>)
    ensures DecodePrecision(s).Done? ==> 1 <= DecodePrecision(s).value <= LONG_MAX + 249
  {
    if CanRead(s, 1) && s[0] <= MAX_PRECSIZE && CanRead(s[1..], s[0] + 1) {
      var n := s[0] + 1;
      BytesBound(s[1..1 + n]);
      P256Eight();
      if n == 8 {
        if s[1..9][7] < 0x80 { TopClear(s[1..9]); }
      } else {
        P256Mono(n, 7);
      }
    }
  }

  lemma TopClear(t: seq<byte>)
    requires |t| == 8 && t[7] < 0x80
    ensures ByteValue(t) <= LONG_MAX
  {
    var t2, t4, t6 := t[2..], t[4..], t[6..];
    assert t2[2..] == t4 && t4[2..] == t6 && t6[2..] == [] && t6 == [t[6], t[7]];
    FirstTwo(t);
    FirstTwo(t2);
    FirstTwo(t4);
    FirstTwo(t6);
    assert ByteValue(t6) == TwoBytes(t[6], t[7]) < 0x8000;
    assert ByteValue(t4) < 0x8000_0000;
    assert ByteValue(t2) < 0x8000_0000_0000;
  }

  function TwoBytes(low: int, high: int): int { low + 256 * high }

  lemma FirstTwo(t: seq<byte>)
    requires |t| >= 2
    ensures ByteValue(t) == TwoBytes(t[0], t[1]) + 0x1_0000 * ByteValue(t[2..])
  {
    assert ByteValue(t[1..]) == t[1] as int + 256 * ByteValue(t[1..][1..]);
    assert t[1..][1..] == t[2..];
  }

  lemma LargeBytes(t: seq<byte>)
    requires |t| == 8
    ensures ByteValue(t) + 249 > LONG_MAX && t[7] < 0x80 <==>
            t[7] == 0x7F && t[6] == t[5] == t[4] == t[3] == t[2] == t[1] == 0xFF && t[0] >= 0x07
  {
    var t2, t4, t6 := t[2..], t[4..], t[6..];
    assert t2[2..] == t4 && t4[2..] == t6 && t6[2..] == [];
    FirstTwo(t);
    FirstTwo(t2);
    FirstTwo(t4);
    FirstTwo(t6);
  }

  /** The bytes on which it happens: a stored number (the precision less 249) from
      2^63 - 249 to 2^63 - 1, in eight bytes, with one more byte left to read. */
  lemma OverflowBytes(s: seq<byte>)
    ensures PrecisionOverflows(s) <==>
            |s| > 9 && s[0] == 7 && s[1] >= 0x07 && s[8] == 0x7F && forall i :: 2 <= i < 8 ==> s[i] == 0xFF
  {
    if CanRead(s, 1) && s[0] <= MAX_PRECSIZE && CanRead(s[1..], s[0] + 1) {
      var n := s[0] + 1;
      if n == 8 {
        var t := s[1..9];
        hide ByteValue;
        LargeBytes(t);
        assert forall i :: 0 <= i < 8 ==> t[i] == s[i + 1];
      } else {
        BytesBound(s[1..1 + n]);
        P256Eight();
        P256Mono(n, 7);
      }
    }
  }

  /** An abort is never the right answer: nothing can be decoded there, so that the
      import ought to return -1.  It happens, and never after a successful export. */
  lemma OverflowRejected(s: seq<byte>, emin: int, emax: int)
    ensures PrecisionOverflows(s) ==> Decode(s, emin, emax) == Failed
    ensures PrecisionOverflows([7, 0xFF, 0xFF, 0xFF, 0xFF, 0xFF, 0xFF, 0xFF, 0x7F, 0])
  {
    OverflowBytes([7, 0xFF, 0xFF, 0xFF, 0xFF, 0xFF, 0xFF, 0xFF, 0x7F, 0]);
  }

  // ---- decoding undoes encoding ---------------------------------------------------------------

  lemma PrecisionUndone(p: nat, rest: seq<byte>)
    requires 1 <= p <= PREC_MAX && |rest| >= 1
    ensures DecodePrecision(EncodePrecision(p) + rest) == Done(p, rest)
  {
    if p > MAX_EMBEDDED_PRECISION {
      var n := ByteCount(p - 249);
      PrecisionSize(p);
      CountFits(p - 249);
      BytesUndo(p - 249, n);
      var e := LittleEndian(p - 249, n);
      var s := EncodePrecision(p) + rest;
      assert s == [n - 1] + e + rest && s[1..1 + n] == e && s[1 + n..] == rest;
      if n == 8 { TopByte(p - 249); assert s[8] == e[7]; }
    } else {
      var s := EncodePrecision(p) + rest;
      assert s[1..] == rest;
    }
  }

  lemma TopByte(v: nat)
    requires v < 0x8000_0000_0000_0000
    ensures LittleEndian(v, 8)[7] < 0x80
  {
    ByteAt(v, 8, 7);
    P256Eight();
  }

  /** Byte i of v is v / 256^i mod 256. */
  lemma {:induction false} ByteAt(v: nat, n: nat, i: nat)
    requires i < n
    ensures LittleEndian(v, n)[i] == v / P256(i) % 256
  {
    assert LittleEndian(v, n) == [v % 256] + LittleEndian(v / 256, n - 1);
    if i > 0 {
      ByteAt(v / 256, n - 1, i - 1);
      Quotients(v, P256(i - 1), P256(i));
    } else {
      assert P256(0) == 1;
    }
  }

  lemma Quotients(v: nat, d: int, e: int)
    requires d >= 1 && e == 256 * d
    ensures v / 256 / d == v / e
  {
    ModProduct(v, 256, d);
  }

  /** An exponent outside the first byte. */
  lemma LargeExponent(e: int, neg: bool, emin: int, emax: int, rest: seq<byte>)
    requires -EXP_LIMIT <= emin <= e <= emax <= EXP_LIMIT && |rest| >= 1 && (e > MAX_EMBEDDED_EXPONENT || e < -MAX_EMBEDDED_EXPONENT)
    ensures DecodeExponent(EncodeExponent(Regular, e, neg) + rest, emin, emax) == Done((neg, Regular, e), rest)
  {
    hide LittleEndian, ByteValue, P256;
    ExponentSize(e);
    var m := Magnitude47(e);
    var n, u, sign := ByteCount(2 * m), SignedExponent(e), if e < 0 then 1 else 0;
    BytesUndo(u, n);
    var c, b := EXTERNAL_EXPONENT + n + (if neg then 128 else 0), LittleEndian(u, n);
    var s := EncodeExponent(Regular, e, neg) + rest;
    assert s == [c] + b + rest;
    Pieces(c, b, rest, s);
    assert s[1..] == b + rest && (b + rest)[..n] == b && (b + rest)[n..] == rest;
    SignSplit(m, P256(n - 1) * 128, sign);
    assert u == m + sign * (P256(n - 1) * 128);
    LargeCode(c, n, neg);
  }

  lemma Pieces(c: byte, b: seq<byte>, rest: seq<byte>, s: seq<byte>)
    requires s == [c] + b + rest
    ensures s[0] == c && |s| == 1 + |b| + |rest| && s[1..1 + |b|] == b && s[1 + |b|..] == rest && |s[1..]| == |b| + |rest|
  {}

  lemma LargeCode(c: byte, n: nat, neg: bool)
    requires 1 <= n <= 8 && c == EXTERNAL_EXPONENT + n + (if neg then 128 else 0)
    ensures (c >= 0x80) == neg && c % 0x80 == EXTERNAL_EXPONENT + n
  {}

  lemma ExponentUndone(kind: Kind, e: int, neg: bool, emin: int, emax: int, rest: seq<byte>)
    requires -EXP_LIMIT <= emin && emax <= EXP_LIMIT && |rest| >= 1
    requires if kind == Regular then emin <= e <= emax else e == 0
    ensures DecodeExponent(EncodeExponent(kind, e, neg) + rest, emin, emax) == Done((neg, kind, e), rest)
  {
    var s := EncodeExponent(kind, e, neg) + rest;
    if kind == Regular && (e > MAX_EMBEDDED_EXPONENT || e < -MAX_EMBEDDED_EXPONENT) {
      LargeExponent(e, neg, emin, emax, rest);
    } else {
      assert s[1..] == rest;
    }
  }

  lemma SignSplit(m: nat, h: int, sign: int)
    requires m < h && 0 <= sign <= 1
    ensures (m + sign * h) / h % 2 == sign
  {
    DivUnique(m + sign * h, h, sign, m);
  }

  lemma {:induction false} WholeUndone(s: seq<limb>)
    ensures LimbsOfBytes(WholeLimbs(s)) == s
  {
    if s != [] {
      var b := WholeLimbs(s);
      assert b[..8] == LittleEndian(s[0], 8) && b[8..] == WholeLimbs(s[1..]);
      P256Eight();
      BytesUndo(s[0], 8);
      WholeUndone(s[1..]);
    }
  }

  /** The bytes that are not stored are zero. */
  lemma LimbsUndone(s: seq<limb>, p: nat)
    requires Normalized(s, p)
    ensures |EncodeLimbs(s, ByteLength(p))| == ByteLength(p) && DecodeLimbs(EncodeLimbs(s, ByteLength(p))) == s
  {
    if ByteLength(p) % 8 == 0 {
      WholeUndone(s);
    } else {
      PartialUndone(s, p, ByteLength(p) % 8);
    }
  }

  lemma PartialUndone(s: seq<limb>, p: nat, k: nat)
    requires Normalized(s, p) && k == ByteLength(p) % 8 && k > 0
    ensures var e := EncodeLimbs(s, ByteLength(p)); |e| == ByteLength(p) && DecodeLimbs(e) == s
  {
    hide LittleEndian, ByteValue, P256, Pow2, LimbOf, DecodeLimbs, WholeLimbs, LimbsOfBytes, Reverse, Zeros;
    var low, upper := LittleEndian(s[0], 8), WholeLimbs(s[1..]);
    var top := Reverse(low[8 - k..]);
    Sizes(p, k, |s|);
    DecodePartial(top, upper, k);
    ReverseTwice(low[8 - k..]);
    LowBytes(s[0], p, k);
    WithZeros(low, 8 - k);
    LimbBack(s[0]);
    WholeUndone(s[1..]);
    assert s == [s[0]] + s[1..];
  }

  lemma ReverseTwice(s: seq<byte>)
    ensures Reverse(Reverse(s)) == s
  {}

  lemma WithZeros(s: seq<byte>, n: nat)
    requires n <= |s| && forall i :: 0 <= i < n ==> s[i] == 0
    ensures Zeros(n) + s[n..] == s
  {}

  lemma Sizes(p: nat, k: nat, n: nat)
    requires p >= 1 && k == ByteLength(p) % 8 && k > 0 && n == LimbCount(p)
    ensures ByteLength(p) == k + 8 * (n - 1) && n >= 1 && n == (ByteLength(p) + 7) / 8
  {}

  lemma LimbBack(x: limb)
    ensures LimbOf(LittleEndian(x, 8)) == x
  {
    P256Eight();
    BytesUndo(x, 8);
  }

  lemma DecodePartial(top: seq<byte>, upper: seq<byte>, k: nat)
    requires |top| == k && 0 < k < 8 && |upper| % 8 == 0
    ensures DecodeLimbs(top + upper) == [LimbOf(Zeros(8 - k) + Reverse(top))] + LimbsOfBytes(upper)
  {
    hide LimbOf, LimbsOfBytes, Reverse, Zeros, DecodeLimbs, LittleEndian, ByteValue;
    PrefixOf(top, upper, k);
    PartialLength(|top + upper|, k, |upper|);
    DecodeParts(top + upper, k, top, upper);
  }

  lemma PartialLength(n: nat, k: nat, m: nat)
    requires n == k + m && k < 8 && m % 8 == 0
    ensures n % 8 == k
  {}

  lemma DecodeParts(e: seq<byte>, k: nat, top: seq<byte>, upper: seq<byte>)
    requires 0 < k < 8 && |e| % 8 == k && k <= |e| && e[..k] == top && e[k..] == upper && |upper| % 8 == 0
    ensures DecodeLimbs(e) == [LimbOf(Zeros(8 - k) + Reverse(top))] + LimbsOfBytes(upper)
  {
    hide LimbOf, LimbsOfBytes, Reverse, Zeros;
  }

  lemma PrefixOf(top: seq<byte>, upper: seq<byte>, k: nat)
    requires |top| == k
    ensures (top + upper)[..k] == top && (top + upper)[k..] == upper
  {}

  lemma LowBytes(x: limb, p: nat, k: nat)
    requires p >= 1 && k == ByteLength(p) % 8 && k > 0 && x % Pow2(Unused(p)) == 0
    ensures forall i :: 0 <= i < 8 - k ==> LittleEndian(x, 8)[i] == 0
  {
    hide Pow2, LittleEndian, P256, Unused, ByteLength;
    UnusedBytes(p, k);
    forall i | 0 <= i < 8 - k ensures LittleEndian(x, 8)[i] == 0 {
      ByteAt(x, 8, i);
      LowByte(x, i, Unused(p));
    }
  }

  lemma UnusedBytes(p: nat, k: nat)
    requires p >= 1 && k == ByteLength(p) % 8 && k > 0
    ensures 8 * (8 - k) <= Unused(p)
  {
    var q := (p + 63) / 64;
    assert ByteLength(p) == 8 * (q - 1) + k;
  }

  lemma LowByte(x: limb, i: nat, sh: nat)
    requires 8 * (i + 1) <= sh && x % Pow2(sh) == 0
    ensures x / P256(i) % 256 == 0
  {
    hide Pow2, P256;
    P256Pow2(i + 1);
    Pow2Add(8 * (i + 1), sh - 8 * (i + 1));
    MultipleOfFactor(x, P256(i + 1), Pow2(sh - 8 * (i + 1)));
    P256Step(i);
    ModProduct(x, P256(i), 256);
    MultipleOfPower(x % P256(i), x / P256(i) % 256, P256(i));
  }

  lemma P256Step(n: nat)
    ensures P256(n + 1) == P256(n) * 256
  {}

  lemma MultipleOfFactor(x: nat, d: int, e: int)
    requires d >= 1 && e >= 1 && x % (d * e) == 0
    ensures x % d == 0
  {
    ModProduct(x, d, e);
    MulMono(0, x / d % e, d);
    MulComm(d, x / d % e);
  }

  lemma MultipleOfPower(r: int, q: int, d: int)
    requires 0 <= r && 0 <= q && d >= 1 && r + d * q == 0
    ensures q == 0
  {
    if q > 0 { MulMono(1, q, d); MulComm(d, q); }
  }

  /** Reading back what was written yields the number and leaves what follows it. */
  lemma RoundTrip(v: Number, emin: int, emax: int, rest: seq<byte>)
    requires ValidNumber(v, emin, emax) && |rest| >= 1
    ensures Decode(Encode(v, emin, emax) + rest, emin, emax) == Done(v, rest)
  {
    hide EncodePrecision, EncodeExponent, EncodeLimbs, DecodePrecision, DecodeExponent, DecodeLimbs;
    var a, b := EncodePrecision(v.prec), EncodeExponent(v.kind, v.exp, v.neg);
    var c := if v.kind == Regular then EncodeLimbs(v.limbs, ByteLength(v.prec)) else [];
    var s := Encode(v, emin, emax) + rest;
    assert s == a + (b + (c + rest));
    PrecisionUndone(v.prec, b + (c + rest));
    ExponentUndone(v.kind, v.exp, v.neg, emin, emax, c + rest);
    if v.kind == Regular {
      LimbsUndone(v.limbs, v.prec);
      assert (c + rest)[..|c|] == c && (c + rest)[|c|..] == rest;
    } else {
      assert c + rest == rest;
    }
  }

  /** Different numbers have different encodings, and none is the beginning of another. */
  lemma PrefixFree(v: Number, w: Number, emin: int, emax: int)
    requires ValidNumber(v, emin, emax) && ValidNumber(w, emin, emax) && Encode(v, emin, emax) <= Encode(w, emin, emax)
    ensures v == w
  {
    var a, b := Encode(v, emin, emax), Encode(w, emin, emax);
    var rest := b[|a|..] + [0];
    assert b + [0] == a + rest;
    RoundTrip(v, emin, emax, rest);
    RoundTrip(w, emin, emax, [0]);
  }

  // ---- the format in numbers ---------------------------------------------------------------

  /** n is the least number of bytes, at least one, that hold v. */
  predicate FewestBytes(v: nat, n: nat) {
    n >= 1 && v < Pow2(8 * n) && (n > 1 ==> v >= Pow2(8 * (n - 1)))
  }

  /** Byte i of v, counted from the least significant one. */
  function ByteOf(v: nat, i: nat): (b: byte) { v / Pow2(8 * i) % 256 }

  /** The precision p: p + 7 in one byte up to 248; above, n - 1, then p - 249 in the
      fewest bytes n, least significant first. */
  predicate PrecisionBytes(a: seq<byte>, p: nat) {
    if p <= 248 then a == [p + 7]
    else
      && 2 <= |a| <= 9 && a[0] == |a| - 2 && FewestBytes(p - 249, |a| - 1)
      && forall i :: 1 <= i < |a| ==> a[i] == ByteOf(p - 249, i - 1)
  }

  /** Kind, sign and exponent: 119, 120 or 121 for zero, infinity and NaN; e + 47 for an
      exponent from -47 to 47; otherwise 94 + n, then |e| - 47 in n bytes, least
      significant first, with the sign of e in the top bit of the last one, where n is
      the least size that leaves room for that bit.  128 more in the first byte is the
      sign of the number. */
  predicate ExponentBytes(a: seq<byte>, kind: Kind, e: int, neg: bool) {
    var sign := if neg then 128 else 0;
    match kind
    case ZeroKind => a == [119 + sign]
    case Inf => a == [120 + sign]
    case NaN => a == [121 + sign]
    case Regular =>
      if -47 <= e <= 47 then a == [e + 47 + sign]
      else
        var m, n := (if e < 0 then -e else e) - 47, |a| - 1;
        && 1 <= n <= 8 && a[0] == 94 + n + sign && FewestBytes(2 * m, n)
        && (forall i :: 1 <= i < n ==> a[i] == ByteOf(m, i - 1))
        && a[n] == ByteOf(m, n - 1) + (if e < 0 then 128 else 0)
  }

  /** The significand, for limbs of value v: (p + 7) / 8 bytes.  If their number is not a
      multiple of 8, the bytes used of the lowest limb come first, the most significant
      one in front; then every whole limb, least significant byte first. */
  predicate SignificandBytes(a: seq<byte>, v: nat, p: nat) {
    var k := (p + 7) / 8 % 8;
    && |a| == (p + 7) / 8
    && (forall i :: 0 <= i < k ==> i < |a| && a[i] == ByteOf(v, 7 - i))
    && (forall i :: k <= i < |a| ==> a[i] == ByteOf(v, i - k + if k == 0 then 0 else 8))
  }

  /** s is what the format prescribes for the number v. */
  ghost predicate InFormat(s: seq<byte>, v: Number) {
    exists a, b, c :: s == a + b + c && PrecisionBytes(a, v.prec) && ExponentBytes(b, v.kind, v.exp, v.neg)
                      && if v.kind == Regular then SignificandBytes(c, Val(v.limbs), v.prec) else c == []
  }

  lemma FewestIsCount(v: nat, n: nat)
    ensures FewestBytes(v, n) <==> n == ByteCount(v)
  {
    hide Pow2;
    CountFits(v);
    P256Pow2(ByteCount(v));
    P256Pow2(ByteCount(v) - 1);
    if FewestBytes(v, n) {
      P256Pow2(n);
      P256Pow2(n - 1);
      if n < ByteCount(v) { P256Mono(n, ByteCount(v) - 1); }
      if n > ByteCount(v) { P256Mono(ByteCount(v), n - 1); }
    }
  }

  lemma BytesOfLittleEndian(v: nat, n: nat)
    ensures forall i :: 0 <= i < n ==> LittleEndian(v, n)[i] == ByteOf(v, i)
  {
    hide Pow2, LittleEndian;
    forall i | 0 <= i < n ensures LittleEndian(v, n)[i] == ByteOf(v, i) {
      ByteAt(v, n, i);
      P256Pow2(i);
    }
  }

  /** The encoder of the precision writes the format. */
  lemma PrecisionFormat(a: seq<byte>, p: nat)
    requires 1 <= p <= PREC_MAX
    ensures PrecisionBytes(a, p) <==> a == EncodePrecision(p)
  {
    hide Pow2, LittleEndian, FewestBytes, ByteOf, ByteCount;
    if p > 248 {
      PrecisionSize(p);
      if |a| >= 1 { FewestIsCount(p - 249, |a| - 1); }
      FewestIsCount(p - 249, ByteCount(p - 249));
      BytesOfLittleEndian(p - 249, ByteCount(p - 249));
    }
  }

  /** The encoder of the exponent writes the format. */
  lemma ExponentFormat(a: seq<byte>, kind: Kind, e: int, neg: bool)
    requires kind == Regular ==> -EXP_LIMIT <= e <= EXP_LIMIT
    ensures ExponentBytes(a, kind, e, neg) <==> a == EncodeExponent(kind, e, neg)
  {
    if kind == Regular && (e > 47 || e < -47) { LargeFormat(a, e, neg); }
  }

  lemma LargeFormat(a: seq<byte>, e: int, neg: bool)
    requires -EXP_LIMIT <= e <= EXP_LIMIT && (e > 47 || e < -47)
    ensures ExponentBytes(a, Regular, e, neg) <==> a == EncodeExponent(Regular, e, neg)
  {
    hide Pow2, LittleEndian, FewestBytes, ByteOf, ByteCount, SignedExponent;
    var m := Magnitude47(e);
    var n := ByteCount(2 * m);
    ExponentSize(e);
    if |a| >= 1 { FewestIsCount(2 * m, |a| - 1); }
    FewestIsCount(2 * m, n);
    SignedBytes(e, n);
    var x := EncodeExponent(Regular, e, neg);
    assert x == [94 + n + (if neg then 128 else 0)] + LittleEndian(SignedExponent(e), n);
    if ExponentBytes(a, Regular, e, neg) {
      assert |a| == n + 1;
      forall i | 0 <= i < |a| ensures a[i] == x[i] {
        if i > 0 { assert x[i] == LittleEndian(SignedExponent(e), n)[i - 1]; }
      }
    }
  }

  /** The bytes of the exponent with its sign. */
  lemma SignedBytes(e: int, n: nat)
    requires -EXP_LIMIT <= e <= EXP_LIMIT && (e > 47 || e < -47) && n == ByteCount(2 * Magnitude47(e))
    ensures var m, s := Magnitude47(e), LittleEndian(SignedExponent(e), n);
            && (forall i :: 0 <= i < n - 1 ==> s[i] == ByteOf(m, i))
            && ByteOf(m, n - 1) < 128 && s[n - 1] == ByteOf(m, n - 1) + (if e < 0 then 128 else 0)
  {
    hide Pow2, LittleEndian, P256, ByteCount;
    ExponentSize(e);
    var m, u, sign := Magnitude47(e), SignedExponent(e), if e < 0 then 128 else 0;
    BytesOfLittleEndian(u, n);
    P256Pow2(n - 1);
    MulComm(P256(n - 1), sign);
    assert u == m + sign * P256(n - 1);
    TopSign(m, sign, P256(n - 1));
    forall i | 0 <= i < n - 1 ensures LittleEndian(u, n)[i] == ByteOf(m, i) {
      P256Pow2(i);
      LowerByte(m, sign, i, n - 1);
    }
  }

  lemma TopSign(m: nat, sign: int, d: int)
    requires d >= 1 && m < d * 128 && (sign == 0 || sign == 128)
    ensures m / d % 256 < 128 && (m + sign * d) / d % 256 == m / d % 256 + sign
  {
    DivMulLt(m, d, 128);
    ModAddMultiple(m, d, sign);
  }

  /** A multiple of 256^n does not change the bytes below. */
  lemma LowerByte(m: nat, w: nat, i: nat, n: nat)
    requires i < n
    ensures (m + w * P256(n)) / P256(i) % 256 == m / P256(i) % 256
  {
    hide P256;
    P256Add(i, n - i);
    P256Step(n - i - 1);
    BelowMultiple(m, w, P256(i), P256(n - i - 1) * 256, P256(n - i - 1));
  }

  lemma BelowMultiple(m: nat, w: nat, d: int, f: int, g: int)
    requires d >= 1 && f == g * 256
    ensures (m + w * (d * f)) / d % 256 == m / d % 256
  {
    MulComm(d, f);
    MulAssoc(w, f, d);
    MulAssoc(w, g, 256);
    ModAddMultiple(m, d, w * f);
    ModAddMultiple(m / d, 256, w * g);
  }

  lemma {:induction false} P256Add(m: nat, n: nat)
    ensures P256(m + n) == P256(m) * P256(n)
  {
    P256Pow2(m);
    P256Pow2(n);
    P256Pow2(m + n);
    Pow2Add(8 * m, 8 * n);
  }

  /** Byte j of limbs whose lowest limb is x: from x below 8, from the others above. */
  lemma ByteOfLimbs(x: limb, w: nat, j: nat)
    ensures j < 8 ==> ByteOf(x + B * w, j) == ByteOf(x, j)
    ensures ByteOf(x + B * w, j + 8) == ByteOf(w, j)
  {
    hide Pow2, P256;
    P256Eight();
    P256Pow2(j);
    if j < 8 {
      MulComm(B, w);
      LowerByte(x, w, j, 8);
    }
    P256Pow2(j + 8);
    P256Add(8, j);
    ModProduct(x + B * w, B, P256(j));
    MulComm(B, w);
    ModAddMultiple(x, B, w);
  }

  lemma {:induction false} WholeBytes(s: seq<limb>)
    ensures forall i :: 0 <= i < 8 * |s| ==> WholeLimbs(s)[i] == ByteOf(Val(s), i)
  {
    if s != [] {
      WholeBytes(s[1..]);
      hide LittleEndian, ByteOf;
      BytesOfLittleEndian(s[0], 8);
      forall i | 0 <= i < 8 * |s| ensures WholeLimbs(s)[i] == ByteOf(Val(s), i) {
        if i < 8 { ByteOfLimbs(s[0], Val(s[1..]), i); } else { ByteOfLimbs(s[0], Val(s[1..]), i - 8); }
      }
    }
  }

  /** The encoder of the significand writes the format. */
  lemma SignificandFormat(a: seq<byte>, s: seq<limb>, p: nat)
    requires p >= 1 && |s| == LimbCount(p)
    ensures SignificandBytes(a, Val(s), p) <==> a == EncodeLimbs(s, ByteLength(p))
  {
    hide LittleEndian, ByteOf, WholeLimbs;
    var k, e := ByteLength(p) % 8, EncodeLimbs(s, ByteLength(p));
    if k == 0 {
      WholeBytes(s);
    } else {
      Sizes(p, k, |s|);
      LowestLimb(s);
      AllBytes(s[0], s[1..], Val(s), k, LittleEndian(s[0], 8), WholeLimbs(s[1..]), e);
    }
  }

  lemma AllBytes(x: limb, t: seq<limb>, v: nat, k: nat, low: seq<byte>, high: seq<byte>, e: seq<byte>)
    requires 0 < k < 8 && low == LittleEndian(x, 8) && high == WholeLimbs(t) && e == Reverse(low[8 - k..]) + high && v == x + B * Val(t)
    ensures |e| == k + 8 * |t|
    ensures forall i :: 0 <= i < k ==> e[i] == ByteOf(v, 7 - i)
    ensures forall i :: k <= i < |e| ==> e[i] == ByteOf(v, i - k + 8)
  {
    hide LittleEndian, ByteOf, WholeLimbs, Reverse, Val;
    ReversedPart(low, high, k, e);
    BytesOfLittleEndian(x, 8);
    WholeBytes(t);
    forall i | 0 <= i < k ensures e[i] == ByteOf(v, 7 - i) {
      ByteOfLimbs(x, Val(t), 7 - i);
    }
    forall i | k <= i < |e| ensures e[i] == ByteOf(v, i - k + 8) {
      ByteOfLimbs(x, Val(t), i - k);
    }
  }

  lemma LowestLimb(s: seq<limb>)
    requires |s| >= 1
    ensures Val(s) == s[0] + B * Val(s[1..])
  {}

  lemma ReversedPart(low: seq<byte>, t: seq<byte>, k: nat, e: seq<byte>)
    requires |low| == 8 && 0 < k < 8 && e == Reverse(low[8 - k..]) + t
    ensures |e| == k + |t|
    ensures forall i :: 0 <= i < k ==> e[i] == low[7 - i]
    ensures forall i :: k <= i < |e| ==> e[i] == t[i - k]
  {
    var r := Reverse(low[8 - k..]);
    assert forall i :: 0 <= i < k ==> r[i] == low[7 - i];
  }

  /** The encoding is the one sequence of bytes that the format prescribes. */
  lemma FormatIs(s: seq<byte>, v: Number, emin: int, emax: int)
    requires ValidNumber(v, emin, emax)
    ensures InFormat(s, v) <==> s == Encode(v, emin, emax)
  {
    hide PrecisionBytes, ExponentBytes, SignificandBytes, EncodePrecision, EncodeExponent, EncodeLimbs, Pow2, Val;
    if InFormat(s, v) {
      var a, b, c :| s == a + b + c && PrecisionBytes(a, v.prec) && ExponentBytes(b, v.kind, v.exp, v.neg)
                     && if v.kind == Regular then SignificandBytes(c, Val(v.limbs), v.prec) else c == [];
      PrecisionFormat(a, v.prec);
      ExponentFormat(b, v.kind, v.exp, v.neg);
      if v.kind == Regular { SignificandFormat(c, v.limbs, v.prec); }
    }
    var a, b := EncodePrecision(v.prec), EncodeExponent(v.kind, v.exp, v.neg);
    var c := if v.kind == Regular then EncodeLimbs(v.limbs, ByteLength(v.prec)) else [];
    PrecisionFormat(a, v.prec);
    ExponentFormat(b, v.kind, v.exp, v.neg);
    if v.kind == Regular { SignificandFormat(c, v.limbs, v.prec); }
  }

  /** The bytes of a precision, with more to follow, are read back. */
  lemma PrecisionReadBack(s: seq<byte>)
    ensures forall a, p :: 1 <= p <= PREC_MAX && PrecisionBytes(a, p) && a < s ==> DecodePrecision(s) == Done(p, s[|a|..])
  {
    hide PrecisionBytes, EncodePrecision, DecodePrecision;
    forall a, p | 1 <= p <= PREC_MAX && PrecisionBytes(a, p) && a < s ensures DecodePrecision(s) == Done(p, s[|a|..]) {
      PrecisionFormat(a, p);
      PrecisionUndone(p, s[|a|..]);
      assert s == a + s[|a|..];
    }
  }

  /** Those of kind, sign and exponent, too. */
  lemma ExponentReadBack(s: seq<byte>, emin: int, emax: int)
    requires -EXP_LIMIT <= emin && emax <= EXP_LIMIT
    ensures forall a, kind, e, neg :: (if kind == Regular then emin <= e <= emax else e == 0) && ExponentBytes(a, kind, e, neg) && a < s ==>
              DecodeExponent(s, emin, emax) == Done((neg, kind, e), s[|a|..])
  {
    hide ExponentBytes, EncodeExponent, DecodeExponent;
    forall a, kind, e, neg | (if kind == Regular then emin <= e <= emax else e == 0) && ExponentBytes(a, kind, e, neg) && a < s
      ensures DecodeExponent(s, emin, emax) == Done((neg, kind, e), s[|a|..])
    {
      ExponentFormat(a, kind, e, neg);
      ExponentUndone(kind, e, neg, emin, emax, s[|a|..]);
      assert s == a + s[|a|..];
    }
  }

  /** Those of a significand. */
  lemma SignificandReadBack(a: seq<byte>)
    ensures forall s, p :: Normalized(s, p) && SignificandBytes(a, Val(s), p) ==> DecodeLimbs(a) == s
  {
    hide SignificandBytes, EncodeLimbs, DecodeLimbs;
    forall s, p | Normalized(s, p) && SignificandBytes(a, Val(s), p) ensures DecodeLimbs(a) == s {
      SignificandFormat(a, s, p);
      LimbsUndone(s, p);
    }
  }

  /** And those of a whole number. */
  lemma NumberReadBack(s: seq<byte>, emin: int, emax: int)
    ensures forall a, v :: InFormat(a, v) && ValidNumber(v, emin, emax) && a < s ==>
              Decode(s, emin, emax) == Done(v, s[|a|..]) && !PrecisionOverflows(s)
  {
    hide InFormat, ValidNumber, Encode, Decode, PrecisionOverflows;
    forall a, v | InFormat(a, v) && ValidNumber(v, emin, emax) && a < s
      ensures Decode(s, emin, emax) == Done(v, s[|a|..]) && !PrecisionOverflows(s)
    {
      FormatIs(a, v, emin, emax);
      RoundTrip(v, emin, emax, s[|a|..]);
      assert s == a + s[|a|..];
      OverflowRejected(s, emin, emax);
    }
  }

  // ---- the code: bytes -----------------------------------------------------------------------

  /** COUNT_NB_BYTE. */
  method CountBytes(v: nat) returns (size: nat)
    ensures size == ByteCount(v)
  {
    var storage: nat := v / 256;
    size := 1;
    while storage != 0
      invariant size >= 1
      invariant ByteCount(v) == if storage == 0 then size else size + ByteCount(storage)
      decreases storage
    {
      storage, size := storage / 256, size + 1;
    }
  }

  /** putLittleEndianData (result + off, &v, 8, n). */
  method PutLittleEndian(result: array<byte>, off: nat, v: nat, n: nat)
    requires off + n <= result.Length
    modifies result
    ensures result[..] == old(result[..off]) + LittleEndian(v, n) + old(result[off + n..])
  {
    var i, x := 0, v;
    while i < n
      invariant 0 <= i <= n
      invariant LittleEndian(v, n) == result[off..off + i] + LittleEndian(x, n - i)
      invariant result[..off] == old(result[..off]) && result[off + i..] == old(result[off + i..])
    {
      ghost var before := result[off..off + i];
      result[off + i] := x % 256;
      assert result[off..off + i + 1] == before + [x % 256];
      assert LittleEndian(x, n - i) == [x % 256] + LittleEndian(x / 256, n - i - 1);
      i, x := i + 1, x / 256;
    }
    assert result[..] == result[..off] + result[off..off + n] + result[off + n..];
  }

  /** The integer in n bytes: getLittleEndianData. */
  method GetLittleEndian(data: seq<byte>) returns (v: nat)
    ensures v == ByteValue(data)
  {
    v := 0;
    var i := |data|;
    while i > 0
      invariant 0 <= i <= |data| && v == ByteValue(data[i..])
    {
      i := i - 1;
      assert data[i..] == [data[i]] + data[i + 1..];
      v := data[i] + 256 * v;
    }
    assert data[0..] == data;
  }

  // ---- the code: a buffer in memory ----------------------------------------------------------

  /** struct ext_data_memory. */
  class Memory {
    const arena: array<byte>
    var consumed: nat

    constructor (arena: array<byte>)
      ensures this.arena == arena && consumed == 0
    {
      this.arena, consumed := arena, 0;
    }

    ghost predicate Valid()
      reads this
    {
      consumed <= arena.Length
    }

    ghost function Rest(): seq<byte>
      requires Valid()
      reads this, arena
    {
      arena[consumed..]
    }

    /** write_to_memory. */
    method Write(buffer: seq<byte>) returns (ok: bool)
      requires Valid()
      modifies `consumed, arena
      ensures Valid() && ok == (old(consumed) + |buffer| < arena.Length)
      ensures !ok ==> consumed == old(consumed) && arena[..] == old(arena[..])
      ensures ok ==> consumed == old(consumed) + |buffer|
      ensures ok ==> arena[..] == old(arena[..consumed]) + buffer + old(arena[..])[consumed..]
    {
      if consumed + |buffer| >= arena.Length { return false; }
      forall i | 0 <= i < |buffer| { arena[consumed + i] := buffer[i]; }
      consumed := consumed + |buffer|;
      ok := true;
    }

    /** read_from_memory. */
    method Read(size: nat) returns (ok: bool, buffer: seq<byte>)
      requires Valid()
      modifies `consumed
      ensures Valid() && ok == CanRead(old(Rest()), size)
      ensures ok ==> buffer == old(Rest())[..size] && Rest() == old(Rest())[size..] && consumed == old(consumed) + size
      ensures !ok ==> consumed == old(consumed)
    {
      buffer := [];
      if consumed + size >= arena.Length { return false, buffer; }
      buffer := arena[consumed..consumed + size];
      consumed := consumed + size;
      ok := true;
    }
  }

  // ---- the code: encoders --------------------------------------------------------------------

  /** A first byte, then n bytes of v. */
  method Prefixed(code: byte, v: nat, n: nat) returns (result: array<byte>)
    ensures fresh(result) && result[..] == [code] + LittleEndian(v, n)
  {
    hide LittleEndian;
    result := new byte[n + 1](_ => 0);
    result[0] := code;
    PutLittleEndian(result, 1, v, n);
  }

  /** mpfr_fpif_store_precision. */
  method StorePrecision(precision: nat) returns (result: array<byte>)
    requires 1 <= precision <= PREC_MAX
    ensures fresh(result) && PrecisionBytes(result[..], precision)
    ensures result[..] == EncodePrecision(precision)
  {
    hide LittleEndian, ByteCount, PrecisionBytes;
    PrecisionFormat(EncodePrecision(precision), precision);
    if precision > MAX_EMBEDDED_PRECISION {
      var size := CountBytes(precision - (MAX_EMBEDDED_PRECISION + 1));
      PrecisionSize(precision);
      result := Prefixed(size - 1, precision - (MAX_EMBEDDED_PRECISION + 1), size);
    } else {
      result := new byte[1](_ => 0);
      result[0] := precision + MAX_PRECSIZE;
    }
    assert result[..] == EncodePrecision(precision);
  }

  /** fpif.c:318-379, up to the sign of the number. */
  method StoreUnsigned(x: Mpfr) returns (result: array<byte>)
    requires x.kind == Regular ==> -EXP_LIMIT <= x.exp <= EXP_LIMIT
    ensures fresh(result) && result[..] == EncodeExponent(x.kind, x.exp, false)
  {
    hide LittleEndian, ByteCount, P256;
    if x.kind == Regular && (x.exp > MAX_EMBEDDED_EXPONENT || x.exp < -MAX_EMBEDDED_EXPONENT) {
      ExponentSize(x.exp);
      var uexp := (if x.exp < 0 then -x.exp else x.exp) - MAX_EMBEDDED_EXPONENT;
      var size := CountBytes(2 * uexp);
      var signBit := P256(size - 1) * 128;
      if x.exp < 0 { uexp := uexp + signBit; }
      result := Prefixed(EXTERNAL_EXPONENT + size, uexp, size);
    } else {
      result := new byte[1](_ => 0);
      result[0] := if x.kind == Regular then x.exp + MAX_EMBEDDED_EXPONENT
                   else if x.kind == ZeroKind then KIND_ZERO else if x.kind == Inf then KIND_INF else KIND_NAN;
    }
  }

  lemma WithSignBit(kind: Kind, e: int)
    requires kind == Regular ==> -EXP_LIMIT <= e <= EXP_LIMIT
    ensures var a := EncodeExponent(kind, e, false); |a| > 0 && a[0] < 128 && EncodeExponent(kind, e, true) == [a[0] + 128] + a[1..]
  {
    hide LittleEndian, ByteCount, P256, SignedExponent;
    if kind == Regular && (e > MAX_EMBEDDED_EXPONENT || e < -MAX_EMBEDDED_EXPONENT) { ExponentSize(e); }
  }

  /** mpfr_fpif_store_exponent. */
  method StoreExponent(x: Mpfr) returns (result: array<byte>)
    requires x.kind == Regular ==> -EXP_LIMIT <= x.exp <= EXP_LIMIT
    ensures fresh(result) && ExponentBytes(result[..], x.kind, x.exp, x.neg)
    ensures result[..] == EncodeExponent(x.kind, x.exp, x.neg)
  {
    hide EncodeExponent, ExponentBytes;
    WithSignBit(x.kind, x.exp);
    ExponentFormat(EncodeExponent(x.kind, x.exp, x.neg), x.kind, x.exp, x.neg);
    result := StoreUnsigned(x);
    ghost var tail := result[1..];
    assert result[..] == [result[0]] + tail;
    if x.neg { result[0] := result[0] + 128; }
    assert result[..] == [result[0]] + tail;
  }

  /** putBigEndianData (result, &x, 8, n). */
  method PutBigEndian(result: array<byte>, x: limb, n: nat)
    requires n <= 8 && n <= result.Length
    modifies result
    ensures result[..] == Reverse(LittleEndian(x, 8)[8 - n..]) + old(result[n..])
  {
    hide LittleEndian, Reverse;
    var data := LittleEndian(x, 8);
    var j := 0;
    while j < n
      invariant 0 <= j <= n && (forall i :: 0 <= i < j ==> result[i] == data[7 - i]) && result[n..] == old(result[n..])
    {
      result[j] := data[7 - j];
      j := j + 1;
    }
    assert result[..] == result[..n] + result[n..];
  }

  /** The loop over whole limbs, from limb `first` at byte `off`. */
  method PutLimbs(result: array<byte>, off: nat, s: seq<limb>)
    requires result.Length == off + 8 * |s|
    modifies result
    ensures result[..] == old(result[..off]) + WholeLimbs(s)
  {
    hide LittleEndian, WholeLimbs;
    var j := 0;
    NoLimbsYet(s, 0);
    while j < |s|
      invariant 0 <= j <= |s| && result[..off + 8 * j] == old(result[..off]) + WholeLimbs(s[0..j])
    {
      ghost var done := result[..off + 8 * j];
      PutLittleEndian(result, off + 8 * j, s[j], 8);
      assert result[..off + 8 * (j + 1)] == done + LittleEndian(s[j], 8);
      OneMoreLimb(s, 0, j);
      j := j + 1;
    }
    assert s[0..|s|] == s && result[..off + 8 * j] == result[..];
  }

  /** mpfr_fpif_store_limbs. */
  method StoreLimbs(x: Mpfr) returns (result: array<byte>)
    requires x.Shape()
    ensures fresh(result) && SignificandBytes(result[..], Val(x.mant[..]), x.prec)
    ensures result[..] == EncodeLimbs(x.mant[..], ByteLength(x.prec))
  {
    hide LittleEndian, WholeLimbs, Reverse, SignificandBytes;
    SignificandFormat(EncodeLimbs(x.mant[..], ByteLength(x.prec)), x.mant[..], x.prec);
    var nbByte := ByteLength(x.prec);
    var partial := nbByte % 8;
    result := new byte[nbByte](_ => 0);
    if partial > 0 {
      Sizes(x.prec, partial, x.mant.Length);
      PutBigEndian(result, x.mant[0], partial);
      ghost var top := Reverse(LittleEndian(x.mant[0], 8)[8 - partial..]);
      assert result[..partial] == top;
      PutLimbs(result, partial, x.mant[1..]);
      PartialCode(x.mant[..], nbByte, partial, top);
    } else {
      PutLimbs(result, 0, x.mant[..]);
      assert [] + WholeLimbs(x.mant[..]) == WholeLimbs(x.mant[..]);
    }
  }

  lemma PartialCode(s: seq<limb>, bytes: nat, k: nat, top: seq<byte>)
    requires |s| == (bytes + 7) / 8 && bytes % 8 == k && k > 0 && top == Reverse(LittleEndian(s[0], 8)[8 - k..])
    ensures EncodeLimbs(s, bytes) == top + WholeLimbs(s[1..])
  {
    hide LittleEndian, WholeLimbs, Reverse;
  }

  lemma NoLimbsYet(s: seq<limb>, first: nat)
    requires first <= |s|
    ensures WholeLimbs(s[first..first]) == []
  {}

  lemma {:induction false} WholeConcat(s: seq<limb>, t: seq<limb>)
    ensures WholeLimbs(s + t) == WholeLimbs(s) + WholeLimbs(t)
  {
    hide LittleEndian;
    if s == [] {
      assert s + t == t;
    } else {
      assert (s + t)[1..] == s[1..] + t;
      WholeConcat(s[1..], t);
    }
  }

  lemma OneMoreLimb(s: seq<limb>, first: nat, j: nat)
    requires first <= j < |s|
    ensures WholeLimbs(s[first..j + 1]) == WholeLimbs(s[first..j]) + LittleEndian(s[j], 8)
  {
    hide LittleEndian;
    assert s[first..j + 1] == s[first..j] + [s[j]];
    WholeConcat(s[first..j], [s[j]]);
    assert WholeLimbs([s[j]]) == LittleEndian(s[j], 8) + WholeLimbs([]) by { assert [s[j]][1..] == []; }
  }

  // ---- the code: decoders --------------------------------------------------------------------

  /** mpfr_fpif_read_precision_from_file; 0 is an error.  The sum at the end is one of
      64-bit signed numbers, and wraps around. */
  method ReadPrecision(h: Memory) returns (precision: int)
    requires h.Valid()
    modifies h`consumed
    ensures h.Valid()
    ensures match DecodePrecision(old(h.Rest()))
            case Failed => precision == 0
            case Done(p, rest) => precision == Signed(p) && p >= 1 && h.Rest() == rest && old(h.consumed) <= h.consumed
    ensures forall a, p :: 1 <= p <= PREC_MAX && PrecisionBytes(a, p) && a < old(h.Rest()) ==>
              precision == p && h.Rest() == old(h.Rest())[|a|..]
  {
    hide ByteValue, PrecisionBytes;
    ghost var s := h.Rest();
    PrecisionReadBack(s);
    var ok, buffer := h.Read(1);
    if !ok { return 0; }
    var size: nat := buffer[0];
    if size > MAX_PRECSIZE { return size - MAX_PRECSIZE; }
    size := size + 1;
    ok, buffer := h.Read(size);
    if !ok { return 0; }
    assert buffer == s[1..1 + size] && h.Rest() == s[1 + size..] && buffer[size - 1] == s[size];
    if size == 8 && buffer[size - 1] >= 0x80 { return 0; }
    var v := GetLittleEndian(buffer);
    assert v < B by {
      BytesBound(buffer);
      P256Eight();
      P256Mono(size, 8);
    }
    precision := Signed(v + (MAX_EMBEDDED_PRECISION + 1));
  }

  /** The exponent that follows the first byte. */
  method ReadLarge(h: Memory, size: nat, emin: int, emax: int) returns (status: int, exponent: int)
    requires h.Valid() && size >= 1
    modifies h`consumed
    ensures h.Valid()
    ensures match DecodeLarge(old(h.Rest()), size, emin, emax)
            case Failed => status == 1
            case Done(e, rest) => status == 0 && exponent == e && h.Rest() == rest && old(h.consumed) <= h.consumed
  {
    hide ByteValue, P256;
    exponent := 0;
    if size > 8 { return 1, exponent; }
    var ok, buffer := h.Read(size);
    if !ok { return 1, exponent; }
    var uexp: int := GetLittleEndian(buffer);
    var signBit := P256(size - 1) * 128;
    var sign := uexp / signBit % 2;
    uexp := uexp - sign * signBit + MAX_EMBEDDED_EXPONENT;
    if uexp > EXP_LIMIT { return 1, exponent; }
    exponent := if sign == 1 then -uexp else uexp;
    status := if emin <= exponent <= emax then 0 else 1;
  }

  /** mpfr_fpif_read_exponent_from_file, which sets x as it goes. */
  method ReadExponent(x: Mpfr, h: Memory, emin: int, emax: int) returns (status: int)
    requires h.Valid()
    modifies h`consumed, x`neg, x`kind, x`exp
    ensures h.Valid()
    ensures match DecodeExponent(old(h.Rest()), emin, emax)
            case Failed => status == 1
            case Done(v, rest) =>
              && status == 0 && x.neg == v.0 && x.kind == v.1 && (if v.1 == Regular then x.exp == v.2 else v.2 == 0)
              && h.Rest() == rest && old(h.consumed) <= h.consumed
    ensures forall a, kind, e, neg :: -EXP_LIMIT <= emin && emax <= EXP_LIMIT && (if kind == Regular then emin <= e <= emax else e == 0)
                                      && ExponentBytes(a, kind, e, neg) && a < old(h.Rest()) ==>
              status == 0 && x.neg == neg && x.kind == kind && (kind == Regular ==> x.exp == e) && h.Rest() == old(h.Rest())[|a|..]
  {
    hide ByteValue, P256, DecodeLarge, ExponentBytes;
    if -EXP_LIMIT <= emin && emax <= EXP_LIMIT { ExponentReadBack(h.Rest(), emin, emax); }
    var ok, buffer := h.Read(1);
    if !ok { return 1; }
    x.neg := buffer[0] >= 0x80;
    var exponent: int := buffer[0] % 0x80;
    if EXTERNAL_EXPONENT < exponent < KIND_ZERO {
      status, exponent := ReadLarge(h, exponent - EXTERNAL_EXPONENT, emin, emax);
      if status != 0 { return; }
      x.kind, x.exp := Regular, exponent;
    } else if exponent == KIND_ZERO {
      x.kind := ZeroKind;
    } else if exponent == KIND_INF {
      x.kind := Inf;
    } else if exponent == KIND_NAN {
      x.kind := NaN;
    } else if exponent <= EXTERNAL_EXPONENT {
      exponent := exponent - MAX_EMBEDDED_EXPONENT;
      if !(emin <= exponent <= emax) { return 1; }
      x.kind, x.exp := Regular, exponent;
    } else {
      return 1;
    }
    status := 0;
  }

  /** getLittleEndianData into one limb. */
  method GetLimb(data: seq<byte>) returns (x: limb)
    requires |data| <= 8
    ensures x == LimbOf(data)
  {
    var v := GetLittleEndian(data);
    BytesBound(data);
    P256Eight();
    P256Mono(|data|, 8);
    x := v;
  }

  /** mpfr_fpif_read_limbs. */
  method ReadLimbs(mant: array<limb>, buffer: seq<byte>)
    requires mant.Length == (|buffer| + 7) / 8
    modifies mant
    ensures mant[..] == DecodeLimbs(buffer)
    ensures forall s, p :: Normalized(s, p) && SignificandBytes(buffer, Val(s), p) ==> mant[..] == s
  {
    hide LimbOf, LimbsOfBytes, Reverse, Zeros, SignificandBytes;
    SignificandReadBack(buffer);
    var k := |buffer| % 8;
    if k > 0 {
      mant[0] := GetLimb(Zeros(8 - k) + Reverse(buffer[..k]));
      assert mant[..1] == [LimbOf(Zeros(8 - k) + Reverse(buffer[..k]))];
      ReadWhole(mant, 1, buffer[k..]);
    } else {
      assert buffer[0..] == buffer;
      ReadWhole(mant, 0, buffer);
    }
  }

  /** The loop over whole limbs, into the limbs from `first` on. */
  method ReadWhole(mant: array<limb>, first: nat, buffer: seq<byte>)
    requires |buffer| % 8 == 0 && mant.Length == first + |buffer| / 8
    modifies mant
    ensures mant[..] == old(mant[..first]) + LimbsOfBytes(buffer)
  {
    hide LimbOf, LimbsOfBytes;
    var i, j := 0, first;
    assert LimbsOfBytes(buffer[..0]) == [];
    while i < |buffer|
      invariant first <= j <= mant.Length && i == 8 * (j - first) <= |buffer|
      invariant mant[..j] == old(mant[..first]) + LimbsOfBytes(buffer[..i])
      decreases |buffer| - i
    {
      ghost var done := mant[..j];
      mant[j] := GetLimb(buffer[i..i + 8]);
      assert mant[..j + 1] == done + [mant[j]];
      OneMoreRead(buffer, i);
      i, j := i + 8, j + 1;
    }
    assert buffer[..i] == buffer && mant[..j] == mant[..];
  }

  lemma {:induction false} ReadConcat(s: seq<byte>, t: seq<byte>)
    requires |s| % 8 == 0 && |t| % 8 == 0
    ensures LimbsOfBytes(s + t) == LimbsOfBytes(s) + LimbsOfBytes(t)
    decreases |s|
  {
    hide LimbOf;
    if s == [] {
      assert s + t == t;
    } else {
      assert (s + t)[..8] == s[..8] && (s + t)[8..] == s[8..] + t;
      ReadConcat(s[8..], t);
    }
  }

  lemma OneMoreRead(s: seq<byte>, i: nat)
    requires |s| % 8 == 0 && i % 8 == 0 && i + 8 <= |s|
    ensures LimbsOfBytes(s[..i + 8]) == LimbsOfBytes(s[..i]) + [LimbOf(s[i..i + 8])]
  {
    hide LimbOf;
    var t := s[i..i + 8];
    assert s[..i + 8] == s[..i] + t;
    ReadConcat(s[..i], t);
    assert LimbsOfBytes(t) == [LimbOf(t[..8])] + LimbsOfBytes(t[8..]) && t[..8] == t && t[8..] == [];
  }

  // ---- export and import ------------------------------------------------------------------------

  function NumberOf(x: Mpfr): Number
    reads x, x.mant
  {
    if x.kind == Regular then Number(x.prec, x.neg, x.kind, x.exp, x.mant[..]) else Number(x.prec, x.neg, x.kind, 0, [])
  }

  /** The buffer after `code` has been written over the beginning of `post`. */
  ghost predicate Written(h: Memory, pre: seq<byte>, code: seq<byte>, post: seq<byte>)
    reads h, h.arena
  {
    && |code| <= |post| && h.consumed == |pre| + |code| && h.arena.Length == |pre| + |post|
    && h.arena[..] == pre + code + post[|code|..]
  }

  method WriteNext(h: Memory, c: seq<byte>, ghost pre: seq<byte>, ghost code: seq<byte>, ghost post: seq<byte>) returns (ok: bool)
    requires h.Valid() && Written(h, pre, code, post)
    modifies h`consumed, h.arena
    ensures h.Valid() && ok == (|pre| + |code + c| < h.arena.Length) && (ok ==> Written(h, pre, code + c, post))
  {
    ghost var s := h.arena[..];
    ok := h.Write(c);
    if ok {
      assert s[..|pre| + |code|] == pre + code && s[|pre| + |code + c|..] == post[|code + c|..];
      assert pre + code + c == pre + (code + c);
    }
  }

  /** fpif.c:599-620: precision, then kind, sign and exponent. */
  method ExportHead(h: Memory, x: Mpfr, ghost pre: seq<byte>, ghost post: seq<byte>) returns (ok: bool)
    requires h.Valid() && Written(h, pre, [], post) && 1 <= x.prec <= PREC_MAX && (x.kind == Regular ==> -EXP_LIMIT <= x.exp <= EXP_LIMIT)
    modifies h`consumed, h.arena
    ensures h.Valid()
    ensures var code := EncodePrecision(x.prec) + EncodeExponent(x.kind, x.exp, x.neg);
            ok == (|pre| + |code| < h.arena.Length) && (ok ==> Written(h, pre, code, post))
  {
    hide EncodePrecision, EncodeExponent, Written;
    ghost var a := EncodePrecision(x.prec);
    assert [] + a == a;
    var buf := StorePrecision(x.prec);
    ok := WriteNext(h, buf[..], pre, [], post);
    if !ok { return; }
    buf := StoreExponent(x);
    ok := WriteNext(h, buf[..], pre, a, post);
  }

  /** fpif.c:622-634: the significand. */
  method ExportTail(h: Memory, x: Mpfr, ghost pre: seq<byte>, ghost code: seq<byte>, ghost post: seq<byte>) returns (ok: bool)
    requires h.Valid() && Written(h, pre, code, post) && x.Shape()
    modifies h`consumed, h.arena
    ensures h.Valid()
    ensures var all := code + EncodeLimbs(x.mant[..], ByteLength(x.prec));
            ok == (|pre| + |all| < h.arena.Length) && (ok ==> Written(h, pre, all, post))
  {
    hide EncodeLimbs, Written;
    var buf := StoreLimbs(x);
    ok := WriteNext(h, buf[..], pre, code, post);
  }

  /** mpfr_fpif_export_aux: the status is 0, and everything is written, exactly when there
      is room for one more byte than needed. */
  method ExportAux(h: Memory, x: Mpfr, ghost emin: int, ghost emax: int) returns (status: int)
    requires h.Valid() && x.Shape() && ValidNumber(NumberOf(x), emin, emax)
    modifies h`consumed, h.arena
    ensures h.Valid() && NumberOf(x) == old(NumberOf(x))
    ensures var code := Encode(NumberOf(x), emin, emax);
            && status == (if old(h.consumed) + |code| < h.arena.Length then 0 else -1)
            && (status == 0 ==>
                  InFormat(code, NumberOf(x))
                  && h.consumed == old(h.consumed) + |code|
                  && h.arena[..] == old(h.arena[..h.consumed]) + code + old(h.arena[..])[h.consumed..])
  {
    hide EncodePrecision, EncodeExponent, EncodeLimbs, Normalized, Encode, ValidNumber, InFormat;
    ghost var v := NumberOf(x);
    FormatIs(Encode(v, emin, emax), v, emin, emax);
    ghost var pre, post := h.arena[..h.consumed], h.arena[h.consumed..];
    ghost var code := EncodedParts(x, emin, emax);
    var ok := ExportHead(h, x, pre, post);
    assert NumberOf(x) == v;
    if !ok { return -1; }
    if x.kind == Regular {
      ok := ExportTail(h, x, pre, code, post);
      if !ok { return -1; }
    }
    assert NumberOf(x) == v;
    status := 0;
  }

  /** The encoding of x, and its head. */
  lemma EncodedParts(x: Mpfr, emin: int, emax: int) returns (head: seq<byte>)
    requires x.Shape() && ValidNumber(NumberOf(x), emin, emax)
    ensures 1 <= x.prec <= PREC_MAX && (x.kind == Regular ==> -EXP_LIMIT <= x.exp <= EXP_LIMIT)
    ensures head == EncodePrecision(x.prec) + EncodeExponent(x.kind, x.exp, x.neg)
    ensures Encode(NumberOf(x), emin, emax) ==
            if x.kind == Regular then head + EncodeLimbs(x.mant[..], ByteLength(x.prec)) else head
  {
    hide EncodePrecision, EncodeExponent, EncodeLimbs;
    head := EncodePrecision(x.prec) + EncodeExponent(x.kind, x.exp, x.neg);
    if x.kind != Regular {
      EncodeSingular(x.kind, x.exp, x.neg);
      assert head + [] == head;
    }
  }

  /** The exponent of a singular number is not stored. */
  lemma EncodeSingular(kind: Kind, e: int, neg: bool)
    requires kind != Regular
    ensures EncodeExponent(kind, e, neg) == EncodeExponent(kind, 0, neg)
  {}

  /** mpfr_fpif_import_aux: what is decoded, and -1 when nothing can be, from any bytes
      but those on which the precision wraps around to a negative number.  That number
      passes both tests of fpif.c:651-655 and makes mpfr_set_prec abort. */
  method ImportAux(h: Memory, emin: int, emax: int) returns (status: int, x: Mpfr?, aborted: bool)
    requires h.Valid()
    modifies h`consumed
    ensures h.Valid() && aborted == PrecisionOverflows(old(h.Rest()))
    ensures !aborted ==>
              match Decode(old(h.Rest()), emin, emax)
              case Failed => status == -1
              case Done(v, rest) => status == 0 && x != null && fresh(x) && NumberOf(x) == v && h.Rest() == rest
    ensures forall a, v :: InFormat(a, v) && ValidNumber(v, emin, emax) && a < old(h.Rest()) ==>
              !aborted && status == 0 && x != null && NumberOf(x) == v && h.Rest() == old(h.Rest())[|a|..]
  {
    hide DecodeExponent, DecodeLimbs, InFormat, ValidNumber;
    NumberReadBack(h.Rest(), emin, emax);
    status, x, aborted := -1, null, false;
    DecodedRange(h.Rest());
    hide DecodePrecision;
    var precision := ReadPrecision(h);
    if precision == 0 || precision > PREC_MAX { return; }
    if precision < 0 {
      aborted := true;
      return;
    }
    x := new Mpfr(precision);
    status := ReadExponent(x, h, emin, emax);
    if status != 0 {
      x.kind := NaN;
      status := -1;
      return;
    }
    if x.kind == Regular {
      var ok, buffer := h.Read(ByteLength(precision));
      if !ok {
        x.kind := NaN;
        status := -1;
        return;
      }
      ReadLimbs(x.mant, buffer);
    }
  }

  /** Export followed by import from the start of the buffer. */
  method SaveAndLoad(arena: array<byte>, x: Mpfr, emin: int, emax: int) returns (saved: bool, y: Mpfr?)
    requires x.Shape() && ValidNumber(NumberOf(x), emin, emax)
    modifies arena
    ensures saved == (|Encode(NumberOf(x), emin, emax)| < arena.Length)
    ensures saved ==> y != null && NumberOf(y) == NumberOf(x)
  {
    hide Encode, Decode, ValidNumber, PrecisionOverflows;
    y := null;
    var h := new Memory(arena);
    ghost var before := arena[..];
    var status := ExportAux(h, x, emin, emax);
    saved := status == 0;
    if saved {
      ghost var v := NumberOf(x);
      RoundTrip(v, emin, emax, before[h.consumed..]);
      OverflowRejected(Encode(v, emin, emax) + before[h.consumed..], emin, emax);
      h.consumed := 0;
      assert h.Rest() == Encode(v, emin, emax) + before[|Encode(v, emin, emax)|..];
      var aborted;
      status, y, aborted := ImportAux(h, emin, emax);
    }
  }
}

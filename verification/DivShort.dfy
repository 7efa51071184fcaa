/** other/div-short.c: division of 2n limbs by n limbs by divide and conquer, in
    place, and the variant that computes only an approximate quotient.

    Every number is a stretch of an array: {np + no, 2n} is overwritten by the
    remainder {np + no, n}, the quotient goes to {qp + qo, n}, with a carry limb. */
module DivShort {
  import opened Powers
  import opened Limbs
  import opened Numbers
  import opened DivLimbs

  /** The integer {s + lo, n}. */
  function At(s: seq<limb>, lo: nat, n: nat): (r: int)
    requires lo + n <= |s|
    ensures r >= 0
  {
    Val(s[lo..lo + n])
  }

  /** The quotient in qh and {q + qo, n}. */
  function Quotient(qh: limb, q: seq<limb>, qo: nat, n: nat): int
    requires qo + n <= |q|
  {
    qh * BP(n) + At(q, qo, n)
  }

  predicate IsDivision(total: int, q: int, d: int, r: int) { total == q * d + r && 0 <= r < d }

  /** Division by the upper part d1 of a divisor, which has weight p. */
  predicate IsPartial(total: int, q: int, d1: int, p: int, y: int) { total == q * d1 * p + y }

  /** t is s but for {lo, n}. */
  predicate Same(t: seq<limb>, s: seq<limb>, lo: nat, n: nat) {
    |t| == |s| && lo + n <= |s| && t[..lo] == s[..lo] && t[lo + n..] == s[lo + n..]
  }

  lemma AtSplit(s: seq<limb>, lo: nat, j: nat, k: nat)
    requires lo + j + k <= |s|
    ensures At(s, lo, j + k) == At(s, lo, j) + BP(j) * At(s, lo + j, k)
    ensures At(s, lo, j) < BP(j)
  {
    hide Val, BP;
    var m := s[lo..lo + (j + k)];
    ValSplit(m, j);
    assert m[..j] == s[lo..lo + j] && m[j..] == s[lo + j..lo + j + k];
    ValBound(m[..j]);
  }

  lemma AtBound(s: seq<limb>, lo: nat, n: nat)
    requires lo + n <= |s|
    ensures 0 <= At(s, lo, n) < BP(n)
  {
    ValBound(s[lo..lo + n]);
  }

  /** What lies outside the changed stretch is unchanged. */
  lemma AtSame(t: seq<limb>, s: seq<limb>, lo: nat, n: nat, at: nat, len: nat)
    requires Same(t, s, lo, n) && (at + len <= lo || (lo + n <= at && at + len <= |s|))
    ensures at + len <= |t| && At(t, at, len) == At(s, at, len)
  {
    hide Val;
    assert t[at..at + len] == s[at..at + len] by {
      forall i | at <= i < at + len ensures t[i] == s[i] {
        if i < lo { assert t[i] == t[..lo][i]; } else { assert t[i] == t[lo + n..][i - lo - n]; }
      }
    }
  }

  /** Two changes, one after the other, the second within the reach of the first or just before it. */
  lemma SameWider(u: seq<limb>, t: seq<limb>, s: seq<limb>, lo: nat, n: nat, lo2: nat, n2: nat)
    requires Same(u, t, lo, n) && Same(t, s, lo2, n2) && lo <= lo2 && lo + n <= lo2 + n2
    ensures Same(u, s, lo, lo2 + n2 - lo)
  {
    var e := lo2 + n2;
    assert u[..lo] == t[..lo] == t[..lo2][..lo] == s[..lo2][..lo] == s[..lo];
    assert u[e..] == u[lo + n..][e - lo - n..] == t[lo + n..][e - lo - n..] == t[e..] == s[e..];
  }

  /** Three changes: upper part, lower part, upper part again. */
  lemma SameTwoParts(w: seq<limb>, v: seq<limb>, u: seq<limb>, s: seq<limb>, lo: nat, l: nat, m: nat)
    requires Same(w, v, lo + l, m) && Same(v, u, lo, l) && Same(u, s, lo + l, m)
    ensures Same(w, s, lo, l + m)
  {
    var e := lo + l + m;
    assert w[..lo] == w[..lo + l][..lo] == v[..lo + l][..lo] == v[..lo] == u[..lo] == u[..lo + l][..lo] == s[..lo + l][..lo] == s[..lo];
    assert v[e..] == v[lo + l..][m..] == u[lo + l..][m..] == u[e..] == s[e..];
  }

  // ---- GMP's primitives on stretches ---------------------------------------------------------

  method AddAt(a: array<limb>, lo: nat, s: seq<limb>) returns (cy: limb)
    requires lo + |s| <= a.Length
    modifies a
    ensures cy <= 1 && At(a[..], lo, |s|) == At(old(a[..]), lo, |s|) + Val(s) - cy * BP(|s|)
    ensures Same(a[..], old(a[..]), lo, |s|)
  {
    hide Val, BP;
    assert a[lo..lo + |s|] == a[..][lo..lo + |s|];
    cy := MpnAddN(a, lo, s);
    assert a[lo..lo + |s|] == a[..][lo..lo + |s|];
  }

  method SubAt(a: array<limb>, lo: nat, s: seq<limb>) returns (cy: limb)
    requires lo + |s| <= a.Length
    modifies a
    ensures cy <= 1 && At(a[..], lo, |s|) == At(old(a[..]), lo, |s|) - Val(s) + cy * BP(|s|)
    ensures Same(a[..], old(a[..]), lo, |s|)
  {
    hide Val, BP;
    assert a[lo..lo + |s|] == a[..][lo..lo + |s|];
    cy := MpnSubN(a, lo, s);
    assert a[lo..lo + |s|] == a[..][lo..lo + |s|];
  }

  /** mpn_sb_divrem_mn (qp, np, 2n, dp, n), not part of the source: schoolbook division. */
  method SbDivrem(qp: array<limb>, qo: nat, np: array<limb>, no: nat, d: seq<limb>) returns (qh: limb)
    requires qp != np && |d| > 0 && d[|d| - 1] >= HALF
    requires qo + |d| <= qp.Length && no + 2 * |d| <= np.Length
    modifies qp, np
    ensures qh <= 1
    ensures IsDivision(At(old(np[..]), no, 2 * |d|), Quotient(qh, qp[..], qo, |d|), Val(d), At(np[..], no, |d|))
    ensures Same(qp[..], old(qp[..]), qo, |d|) && Same(np[..], old(np[..]), no, 2 * |d|)
  {
    hide Val, BP;
    var n := |d|;
    var u, v := Val(np[no..no + 2 * n]), Val(d);
    assert np[no..no + 2 * n] == np[..][no..no + 2 * n];
    var q, r;
    AtBound(np[..], no, 2 * n);
    qh, q, r := DivideIntegers(u, d);
    StoreAt(qp, qo, n, q);
    StoreAt(np, no, n, r);
    SameLonger(np[..], old(np[..]), no, n, 2 * n);
  }

  method DivideIntegers(u: nat, d: seq<limb>) returns (qh: limb, q: nat, r: nat)
    requires |d| > 0 && d[|d| - 1] >= HALF && u < BP(2 * |d|)
    ensures qh <= 1 && q < BP(|d|) && r < BP(|d|) && IsDivision(u, qh * BP(|d|) + q, Val(d), r)
  {
    hide Val, BP;
    var n, v := |d|, Val(d);
    DivisorHigh(d);
    ValBound(d);
    BPAdd(n, n);
    QuotientLimb(u, v, BP(n), BP(n));
    q, r := u / v, u % v;
    MulComm(v, q);
    ProductZero(0, BP(n));
    MulOne(BP(n));
    qh := if q < BP(n) then 0 else 1;
    if qh == 1 { q := q - BP(n); }
  }

  method StoreAt(a: array<limb>, lo: nat, n: nat, v: nat)
    requires lo + n <= a.Length && v < BP(n)
    modifies a
    ensures At(a[..], lo, n) == v && Same(a[..], old(a[..]), lo, n)
  {
    hide Val, BP;
    Store(a, lo, n, v);
    assert a[lo..lo + n] == a[..][lo..lo + n];
  }

  lemma SameLonger(t: seq<limb>, s: seq<limb>, lo: nat, n: nat, n': nat)
    requires Same(t, s, lo, n) && n <= n' && lo + n' <= |s|
    ensures Same(t, s, lo, n')
  {
    assert t[lo + n'..] == t[lo + n..][n' - n..] && s[lo + n'..] == s[lo + n..][n' - n..];
  }

  lemma DivisorHigh(d: seq<limb>)
    requires |d| > 0 && d[|d| - 1] >= HALF
    ensures BP(|d|) <= 2 * Val(d) && Val(d) >= 1
  {
    hide Val, BP;
    HighLimb(d);
    BPStep(|d| - 1);
    MulMono(1, BP(|d| - 1), HALF);
    MulComm(HALF, BP(|d| - 1));
  }

  // ---- subtracting what the short quotient left out -----------------------------------------

  /** total = Qhat * (D1 * B^j) + Y, rewritten with D = D1 * B^j + D0. */
  lemma WholeDivisor(total: int, qhat: int, d1: int, d0: int, p: int, y: int, d: int)
    requires IsPartial(total, qhat, d1, p, y) && d == d0 + p * d1
    ensures total == qhat * d + (y - qhat * d0)
  {
    Distrib(d0, p * d1, qhat);
    MulComm(p, d1);
    MulAssoc(qhat, d1, p);
  }

  lemma BelowDivisor(lo: int, hi: int, p: int, d1: int, d0: int, y: int, d: int)
    requires 0 <= lo < p && hi < d1 && y == lo + p * hi && d == d0 + p * d1 && d0 >= 0
    ensures y < d
  {
    MulMono(hi + 1, d1, p);
    Distrib(hi, 1, p);
    MulComm(p, hi);
    MulComm(p, d1);
  }

  /** The estimate of the quotient was made with the upper limbs d[j..] of the
      divisor alone: subtract the product with the lower limbs, and decrease the
      quotient until nothing is borrowed. */
  method SubtractAndCorrect(qp: array<limb>, qo: nat, np: array<limb>, yo: nat, d: seq<limb>, j: nat, qh0: limb, ghost total: int)
    returns (qh: limb)
    requires qp != np && 0 < j < |d| && qh0 <= 1
    requires qo + (|d| - j) <= qp.Length && yo + |d| <= np.Length
    requires IsPartial(total, Quotient(qh0, qp[..], qo, |d| - j), Val(d[j..]), BP(j), At(np[..], yo, |d|))
    requires total >= 0 && At(np[..], yo + j, |d| - j) < Val(d[j..])
    modifies qp, np
    ensures qh <= 1 && IsDivision(total, Quotient(qh, qp[..], qo, |d| - j), Val(d), At(np[..], yo, |d|))
    ensures Same(qp[..], old(qp[..]), qo, |d| - j) && Same(np[..], old(np[..]), yo, |d|)
  {
    hide Val, BP, At, Same;
    var n, k := |d|, |d| - j;
    ghost var qhat, s := Quotient(qh0, qp[..], qo, k), np[..];
    ghost var y := At(s, yo, n);
    ValSplit(d, j);
    AtSplit(s, yo, j, k);
    BelowDivisor(At(s, yo, j), At(s, yo + j, k), BP(j), Val(d[j..]), Val(d[..j]), y, Val(d));
    WholeDivisor(total, qhat, Val(d[j..]), Val(d[..j]), BP(j), y, Val(d));
    ProductNonNegative(qh0, BP(k));
    assert Val(d) >= 1;
    ProductNonNegative(qhat, Val(d[..j]));
    var cc := SubtractProduct(qp[..], qo, np, yo, d, j, qh0);
    ghost var x, s1 := At(np[..], yo, n) - cc * BP(n), np[..];
    qh := CorrectionLoop(qp, qo, np, yo, d, k, qh0, cc, x, total);
    SameWider(np[..], s1, s, yo, n, yo, n);
  }

  /** div-short.c:31-33 and 44-47: {np + yo, n} -= (qh, Q) * D0, returning the borrow. */
  method SubtractProduct(qp: seq<limb>, qo: nat, np: array<limb>, yo: nat, d: seq<limb>, j: nat, qh: limb) returns (cc: int)
    requires 0 < j < |d| && qh <= 1
    requires qo + (|d| - j) <= |qp| && yo + |d| <= np.Length
    modifies np
    ensures 0 <= cc <= 2
    ensures At(np[..], yo, |d|) - cc * BP(|d|) == At(old(np[..]), yo, |d|) - Quotient(qh, qp, qo, |d| - j) * Val(d[..j])
    ensures Same(np[..], old(np[..]), yo, |d|)
  {
    hide Val, BP, Same;
    var n, k := |d|, |d| - j;
    ghost var s := np[..];
    var tmp := new limb[n](_ => 0);
    if k >= j {
      MpnMul(tmp, qp[qo..qo + k], d[..j]);
    } else {
      MpnMul(tmp, d[..j], qp[qo..qo + k]);
      MulComm(Val(d[..j]), Val(qp[qo..qo + k]));
    }
    cc := SubAt(np, yo, tmp[..]);
    if qh != 0 {
      ghost var s1, c1 := np[..], cc;
      var c2 := SubtractUpper(np, yo, k, d[..j]);
      SameWider(np[..], s1, s, yo, n, yo, n);
      cc := cc + c2;
      Distrib(c1, c2, BP(n));
    }
    QuotientCarry(qh, BP(k), At(qp, qo, k), Val(d[..j]));
  }

  method SubtractUpper(np: array<limb>, yo: nat, k: nat, d0: seq<limb>) returns (c: limb)
    requires yo + k + |d0| <= np.Length
    modifies np
    ensures c <= 1
    ensures At(np[..], yo, k + |d0|) == At(old(np[..]), yo, k + |d0|) - BP(k) * Val(d0) + c * BP(k + |d0|)
    ensures Same(np[..], old(np[..]), yo, k + |d0|)
  {
    hide Val, BP, At;
    ghost var s, j := np[..], |d0|;
    AtSplit(s, yo, k, j);
    c := SubAt(np, yo + k, d0);
    ghost var t := np[..];
    AtSame(t, s, yo + k, j, yo, k);
    AtSplit(t, yo, k, j);
    BPAdd(k, j);
    UpperBorrow(BP(k), At(s, yo + k, j), At(t, yo + k, j), Val(d0), c, BP(j));
    assert t[..yo] == t[..yo + k][..yo] && s[..yo] == s[..yo + k][..yo];
  }

  lemma UpperBorrow(p: int, hi: int, hi': int, d0: int, c: int, b: int)
    requires hi' == hi - d0 + c * b
    ensures p * hi' == p * hi - p * d0 + c * (p * b)
  {
    Distrib(hi, -d0, p);
    Distrib(hi - d0, c * b, p);
    ThreeProduct(p, c, b);
  }

  lemma ThreeProduct(p: int, c: int, b: int)
    ensures p * (c * b) == c * (p * b)
  {
    MulAssoc(p, c, b);
    MulComm(p, c);
    MulAssoc(c, p, b);
  }

  lemma QuotientCarry(qh: int, p: int, q: int, d0: int)
    requires 0 <= qh <= 1
    ensures (qh * p + q) * d0 == q * d0 + (if qh == 1 then p * d0 else 0)
  {
    Distrib(qh * p, q, d0);
    MulOne(p);
  }

  lemma PositiveQuotient(q: int, d: int, x: int, total: int)
    requires total >= 0 && Remains(total, q, d, x) && x < 0 && d >= 1
    ensures q >= 1
    ensures Remains(total, q - 1, d, x + d)
  {
    if q <= 0 { MulMono(q, 0, d); }
    Distrib(q, -1, d);
  }

  /** div-short.c:35-39 and 48-52.  x is what {np + yo, n} minus the borrow cc
      stands for; it gets larger by D in every iteration, and is below D. */
  method CorrectionLoop(qp: array<limb>, qo: nat, np: array<limb>, yo: nat, d: seq<limb>, k: nat, qh0: limb, cc0: int,
                        ghost x0: int, ghost total: int)
    returns (qh: limb)
    requires qp != np && 0 < k < |d| && qh0 <= 1 && 0 <= cc0 <= 2
    requires qo + k <= qp.Length && yo + |d| <= np.Length
    requires Owes(x0, At(np[..], yo, |d|), cc0, BP(|d|))
    requires total >= 0 && Remains(total, Quotient(qh0, qp[..], qo, k), Val(d), x0) && x0 < Val(d) && Val(d) >= 1
    modifies qp, np
    ensures qh <= 1 && IsDivision(total, Quotient(qh, qp[..], qo, k), Val(d), At(np[..], yo, |d|))
    ensures Same(qp[..], old(qp[..]), qo, k) && Same(np[..], old(np[..]), yo, |d|)
  {
    hide Val, BP, At, Same, Quotient, Owes, Remains;
    var n := |d|;
    qh := qh0;
    var cc := cc0;
    ghost var x, s, t := x0, qp[..], np[..];
    AtBound(np[..], yo, n);
    SameItself(s, qo, k);
    SameItself(t, yo, n);
    BorrowSign(x, At(np[..], yo, n), cc, BP(n));
    while cc != 0
      invariant 0 <= cc <= 2 && qh <= 1
      invariant Owes(x, At(np[..], yo, n), cc, BP(n)) && (cc == 0 ==> x == At(np[..], yo, n)) && (cc != 0 ==> x < 0)
      invariant Remains(total, Quotient(qh, qp[..], qo, k), Val(d), x) && x < Val(d)
      invariant Same(qp[..], s, qo, k) && Same(np[..], t, yo, n)
      decreases -x
    {
      PositiveQuotient(Quotient(qh, qp[..], qo, k), Val(d), x, total);
      ghost var s1, t1 := qp[..], np[..];
      qh, cc := CorrectOnce(qp, qo, np, yo, d, k, qh, cc, x);
      SameWider(qp[..], s1, s, qo, k, qo, k);
      SameWider(np[..], t1, t, yo, n, yo, n);
      x := x + Val(d);
      AtBound(np[..], yo, n);
      BorrowSign(x, At(np[..], yo, n), cc, BP(n));
    }
    DivisionDone(total, Quotient(qh, qp[..], qo, k), Val(d), x);
  }

  /** x is y with cc still to be borrowed. */
  predicate Owes(x: int, y: int, cc: int, b: int) { x == y - cc * b }

  predicate Remains(total: int, q: int, d: int, x: int) { total == q * d + x }

  lemma DivisionDone(total: int, q: int, d: int, x: int)
    requires Remains(total, q, d, x) && 0 <= x < d
    ensures IsDivision(total, q, d, x)
  {}

  method CorrectOnce(qp: array<limb>, qo: nat, np: array<limb>, yo: nat, d: seq<limb>, k: nat, qh0: limb, cc0: int, ghost x: int)
    returns (qh: limb, cc: int)
    requires qp != np && 0 < k < |d| && qh0 <= 1 && 1 <= cc0 <= 2
    requires qo + k <= qp.Length && yo + |d| <= np.Length
    requires Quotient(qh0, qp[..], qo, k) >= 1 && Owes(x, At(np[..], yo, |d|), cc0, BP(|d|))
    modifies qp, np
    ensures qh <= 1 && 0 <= cc <= 2 && Quotient(qh, qp[..], qo, k) == Quotient(qh0, old(qp[..]), qo, k) - 1
    ensures Owes(x + Val(d), At(np[..], yo, |d|), cc, BP(|d|))
    ensures Same(qp[..], old(qp[..]), qo, k) && Same(np[..], old(np[..]), yo, |d|)
  {
    hide Val, BP, At, Same, Quotient, Owes;
    ghost var y := At(np[..], yo, |d|);
    qh := DecrementQuotient(qp, qo, k, qh0);
    var c := AddAt(np, yo, d);
    BorrowStep(x, y, cc0, c, BP(|d|), Val(d), At(np[..], yo, |d|));
    cc := cc0 - c;
  }

  lemma SameItself(s: seq<limb>, lo: nat, n: nat)
    requires lo + n <= |s|
    ensures Same(s, s, lo, n)
  {}

  lemma BorrowSign(x: int, y: int, cc: int, b: int)
    requires Owes(x, y, cc, b) && 0 <= y < b && 0 <= cc
    ensures cc != 0 ==> x < 0
    ensures cc == 0 ==> x == y
  {
    if cc != 0 { MulMono(1, cc, b); } else { ProductZero(0, b); }
  }

  lemma BorrowStep(x: int, y: int, cc: int, c: int, b: int, d: int, y': int)
    requires Owes(x, y, cc, b) && y' == y + d - c * b
    ensures Owes(x + d, y', cc - c, b)
  {
    Distrib(cc, -c, b);
  }

  /** qh -= mpn_sub_1 (qp + qo, qp + qo, k, 1), on a positive quotient. */
  method DecrementQuotient(qp: array<limb>, qo: nat, k: nat, qh0: limb) returns (qh: limb)
    requires 0 < k && qo + k <= qp.Length && qh0 <= 1 && Quotient(qh0, qp[..], qo, k) >= 1
    modifies qp
    ensures qh <= 1 && Quotient(qh, qp[..], qo, k) == Quotient(qh0, old(qp[..]), qo, k) - 1
    ensures Same(qp[..], old(qp[..]), qo, k)
  {
    hide Val, BP;
    assert qp[qo..qo + k] == qp[..][qo..qo + k];
    var borrow := MpnSub1(qp, qo, k, 1);
    assert qp[qo..qo + k] == qp[..][qo..qo + k];
    AtBound(qp[..], qo, k);
    ProductZero(0, BP(k));
    MulOne(BP(k));
    qh := qh0 - borrow;
  }

  // ---- exact division -------------------------------------------------------------------

  /** DIVREM: schoolbook below the threshold. */
  method Divrem(qp: array<limb>, qo: nat, np: array<limb>, no: nat, d: seq<limb>, t: nat) returns (qh: limb)
    requires qp != np && |d| > 0 && d[|d| - 1] >= HALF && t >= 2
    requires qo + |d| <= qp.Length && no + 2 * |d| <= np.Length
    modifies qp, np
    ensures qh <= 1
    ensures IsDivision(At(old(np[..]), no, 2 * |d|), Quotient(qh, qp[..], qo, |d|), Val(d), At(np[..], no, |d|))
    ensures Same(qp[..], old(qp[..]), qo, |d|) && Same(np[..], old(np[..]), no, 2 * |d|)
    decreases |d|, 2
  {
    if |d| < t {
      qh := SbDivrem(qp, qo, np, no, d);
    } else {
      qh := DcDivremNew(qp, qo, np, no, d, t);
    }
  }

  /** div-short.c:27-39 and 41-52: {np + yo, j + 2k} by d, which has j + k limbs:
      divide the upper 2k limbs by the upper k limbs of d, then correct. */
  method DivideStretch(qp: array<limb>, qo: nat, np: array<limb>, yo: nat, d: seq<limb>, j: nat, t: nat) returns (qh: limb)
    requires qp != np && 0 < j < |d| && d[|d| - 1] >= HALF && t >= 2
    requires qo + (|d| - j) <= qp.Length && yo + 2 * |d| - j <= np.Length
    modifies qp, np
    ensures qh <= 1
    ensures IsDivision(At(old(np[..]), yo, 2 * |d| - j), Quotient(qh, qp[..], qo, |d| - j), Val(d), At(np[..], yo, |d|))
    ensures Same(qp[..], old(qp[..]), qo, |d| - j) && Same(np[..], old(np[..]), yo, 2 * |d| - j)
    decreases |d|, 0
  {
    hide Val, BP, At, Quotient, Same, IsDivision, IsPartial;
    var n, k := |d|, |d| - j;
    ghost var s, qs := np[..], qp[..];
    AtSplit(s, yo, j, 2 * k);
    qh := Divrem(qp, qo, np, yo + j, d[j..], t);
    ghost var s1, qs1 := np[..], qp[..];
    SameReach(s1, s, yo, j, 2 * k);
    AtSame(s1, s, yo + j, 2 * k, yo, j);
    AtSplit(s1, yo, j, k);
    LowJoined(At(s, yo, j), BP(j), Quotient(qh, qs1, qo, k), Val(d[j..]), At(s1, yo + j, k), At(s, yo, j + 2 * k), At(s, yo + j, 2 * k),
              At(s1, yo, n));
    qh := SubtractAndCorrect(qp, qo, np, yo, d, j, qh, At(s, yo, j + 2 * k));
    SameWider(np[..], s1, s, yo, n, yo, j + 2 * k);
    SameWider(qp[..], qs1, qs, qo, k, qo, k);
  }

  lemma SameLength(t: seq<limb>, s: seq<limb>, lo: nat, n: nat)
    requires Same(t, s, lo, n)
    ensures |t| == |s|
  {}

  lemma SameReach(t: seq<limb>, s: seq<limb>, lo: nat, j: nat, n: nat)
    requires Same(t, s, lo + j, n)
    ensures Same(t, s, lo, j + n)
  {
    assert t[..lo] == t[..lo + j][..lo] && s[..lo] == s[..lo + j][..lo];
  }

  lemma LowJoined(low: int, p: int, qhat: int, d1: int, r: int, total: int, high: int, y: int)
    requires IsDivision(high, qhat, d1, r) && total == low + p * high && y == low + p * r
    ensures IsPartial(total, qhat, d1, p, y) && r < d1
  {
    Distrib(qhat * d1, r, p);
    MulComm(p, qhat * d1);
  }

  /** mpn_dc_divrem_n_new: N = (qh * B^n + Q) * D + R with 0 <= R < D. */
  method DcDivremNew(qp: array<limb>, qo: nat, np: array<limb>, no: nat, d: seq<limb>, t: nat) returns (qh: limb)
    requires qp != np && 2 <= t <= |d| && d[|d| - 1] >= HALF
    requires qo + |d| <= qp.Length && no + 2 * |d| <= np.Length
    modifies qp, np
    ensures qh <= 1
    ensures IsDivision(At(old(np[..]), no, 2 * |d|), Quotient(qh, qp[..], qo, |d|), Val(d), At(np[..], no, |d|))
    ensures Same(qp[..], old(qp[..]), qo, |d|) && Same(np[..], old(np[..]), no, 2 * |d|)
    decreases |d|, 1
  {
    hide Val, BP, At, Quotient, Same, IsDivision;
    var n := |d|;
    var l := n / 2;
    var m := n - l;
    ghost var s, qs := np[..], qp[..];
    AtSplit(s, no, l, 2 * n - l);
    qh := DivideStretch(qp, qo + l, np, no + l, d, l, t);
    ghost var s1, qs1 := np[..], qp[..];
    AtSame(s1, s, no + l, 2 * n - l, no, l);
    AtSplit(s1, no, l, n);
    var ql := DivideStretch(qp, qo, np, no, d, m, t);
    SameReach(s1, s, no, l, 2 * n - l);
    SameWider(np[..], s1, s, no, n + l, no, 2 * n);
    Joined(At(s, no, 2 * n), At(s, no, l), BP(l), Quotient(qh, qs1, qo + l, m), At(s1, no + l, n), Quotient(ql, qp[..], qo, l),
           At(np[..], no, n), Val(d), At(s, no + l, 2 * n - l), At(s1, no, n + l));
    qh := JoinQuotient(qp, qo, l, m, qh, ql, qs, qs1);
    AtBound(s, no, 2 * n);
    BPAdd(n, n);
    DivisorHigh(d);
    AtBound(qp[..], qo, n);
    QuotientIs(qh, qp[..], qo, n);
    SmallCarry(qh, BP(n), At(qp[..], qo, n), Val(d), At(np[..], no, n), At(s, no, 2 * n), Quotient(qh, qp[..], qo, n));
  }

  lemma QuotientIs(qh: limb, q: seq<limb>, qo: nat, n: nat)
    requires qo + n <= |q|
    ensures Quotient(qh, q, qo, n) == qh * BP(n) + At(q, qo, n)
  {}

  lemma Joined(total: int, low: int, p: int, q1: int, y: int, q2: int, r: int, d: int, high: int, x: int)
    requires total == low + p * high && IsDivision(high, q1, d, y) && x == low + p * y && IsDivision(x, q2, d, r)
    ensures IsDivision(total, p * q1 + q2, d, r)
  {
    Distrib(q1 * d, y, p);
    Distrib(p * q1, q2, d);
    MulAssoc(p, q1, d);
  }

  /** div-short.c:55 and 97: qh += mpn_add_1 (qp + l, qp + l, m, ql). */
  method JoinQuotient(qp: array<limb>, qo: nat, l: nat, m: nat, qh0: limb, ql: limb, ghost qs: seq<limb>, ghost qs1: seq<limb>)
    returns (qh: limb)
    requires 0 < m && qo + l + m <= qp.Length && qh0 <= 1
    requires Same(qp[..], qs1, qo, l) && Same(qs1, qs, qo + l, m)
    modifies qp
    ensures Quotient(qh, qp[..], qo, l + m) == BP(l) * Quotient(qh0, qs1, qo + l, m) + Quotient(ql, old(qp[..]), qo, l)
    ensures qh <= qh0 + 1 && Same(qp[..], qs, qo, l + m)
  {
    hide Val, BP, Same, At;
    ghost var qs2 := qp[..];
    SameLength(qs2, qs1, qo, l);
    AtSame(qs2, qs1, qo, l, qo + l, m);
    var c := AddSmall(qp, qo + l, m, ql);
    ghost var qs3 := qp[..];
    AtSame(qs3, qs2, qo + l, m, qo, l);
    AtSplit(qs3, qo, l, m);
    BPAdd(l, m);
    CarryJoined(qh0, c, BP(m), At(qs2, qo + l, m), At(qs3, qo + l, m), ql, BP(l), At(qs2, qo, l));
    SameTwoParts(qs3, qs2, qs1, qs, qo, l, m);
    qh := qh0 + c;
  }

  method AddSmall(a: array<limb>, lo: nat, n: nat, x: limb) returns (c: limb)
    requires 0 < n && lo + n <= a.Length
    modifies a
    ensures c <= 1 && At(a[..], lo, n) + c * BP(n) == At(old(a[..]), lo, n) + x
    ensures Same(a[..], old(a[..]), lo, n)
  {
    hide Val, BP;
    assert a[lo..lo + n] == a[..][lo..lo + n];
    c := MpnAdd1(a, lo, n, x);
    assert a[lo..lo + n] == a[..][lo..lo + n];
  }

  lemma CarryJoined(qh: int, c: int, bm: int, hi: int, hi': int, ql: int, p: int, lo: int)
    requires hi' + c * bm == hi + ql
    ensures (qh + c) * (p * bm) + (lo + p * hi') == p * (qh * bm + hi) + (ql * p + lo)
  {
    assert p * (hi' + c * bm) == p * (hi + ql);
    Distrib(hi', c * bm, p);
    Distrib(hi, ql, p);
    Distrib(qh * bm, hi, p);
    Distrib(qh, c, p * bm);
    MulComm(ql, p);
    ThreeProduct(p, c, bm);
    ThreeProduct(p, qh, bm);
  }

  lemma SmallCarry(h: int, b: int, q: int, d: int, r: int, total: int, hq: int)
    requires b >= 1 && 0 <= q && d >= 1 && b <= 2 * d && hq == h * b + q && IsDivision(total, hq, d, r) && total < b * b
    ensures h <= 1
  {
    if h >= 2 {
      MulMono(2, h, b);
      MulMono(2 * b, hq, d);
      MulAssoc(2, b, d);
      MulComm(b, d);
      MulAssoc(2, d, b);
      MulMono(b, 2 * d, b);
    }
  }

  // ---- approximate division ------------------------------------------------------------------

  /** How many times mpn_dc_divrem_n_high calls itself. */
  function Levels(n: nat, t: nat): (r: nat)
    requires t >= 3
    decreases n
  {
    if n < t then 0 else 1 + Levels((n - 1) / 2, t)
  }

  /** The error bound announced by the source, 2 * bitlength(n), is never reached. */
  lemma {:induction false} LevelsBelowBits(n: nat, t: nat)
    requires t >= 3 && n >= 1
    ensures 2 * Levels(n, t) < 2 * SizeInBase2(n)
    decreases n
  {
    if n >= t {
      LevelsBelowBits((n - 1) / 2, t);
      SizeMono((n - 1) / 2, n / 2);
    }
  }

  /** N / D <= q <= N / D + e, integer quotients. */
  predicate IsHigh(total: int, d: int, q: int, e: int) { d >= 1 && total / d <= q <= total / d + e }

  /** Dividing only the upper parts x1 of x and d1 of d gives at most 2 too much. */
  lemma UpperEstimate(x: int, xl: int, x1: int, d: int, d0: int, d1: int, p: int, b: int)
    requires p >= 1 && 0 <= xl < p && 0 <= d0 < p && x == xl + p * x1 && d == d0 + p * d1
    requires d1 >= 1 && 1 <= b <= 2 * d1 && 0 <= x < d * b && x1 >= 0 && d >= 1
    ensures x / d <= x1 / d1 <= x / d + 2
  {
    var a, c, w := x / d, x1 / d1, p * d1;
    DivMulLt(x, d, b);
    MulMono(1, d1, p);
    MulComm(p, d1);
    MulMono(b, 2 * d1, p);
    MulAssoc(2, d1, p);
    MultiplesBelow(x, d, d0, w, a);
    MultipleOfPart(x1, d1, p, c, w);
    CompareMultiples(a + 1, c, w, d0, p, b);
    LargestMultiple(x1, d1, p, a, w, xl);
  }

  lemma MultiplesBelow(x: int, d: int, d0: int, w: int, a: int)
    requires d == d0 + w && d >= 1 && x >= 0 && a == x / d && d0 >= 0
    ensures a * w <= x < (a + 1) * d0 + (a + 1) * w && a >= 0
  {
    MulComm(d, a);
    DivLe(x, d);
    MulMono(w, d, a);
    MulComm(w, a);
    Distrib(a, 1, d);
    Distrib(d0, w, a + 1);
  }

  lemma MultipleOfPart(x1: int, d1: int, p: int, c: int, w: int)
    requires d1 >= 1 && p >= 1 && w == p * d1 && c == x1 / d1
    ensures c * w <= p * x1
  {
    MulComm(d1, c);
    MulMono(c * d1, x1, p);
    MulComm(p, x1);
    MulAssoc(c, d1, p);
    MulComm(p, d1);
  }

  lemma CompareMultiples(k: int, c: int, w: int, d0: int, p: int, b: int)
    requires c * w < k * d0 + k * w && 0 <= d0 < p && 1 <= k <= b && b * p <= 2 * w && w >= 1
    ensures c <= k + 1
  {
    Distrib(k, 2, w);
    MulMono(d0, p, k);
    MulComm(d0, k);
    MulComm(p, k);
    MulMono(k, b, p);
    if c >= k + 2 { MulMono(k + 2, c, w); }
  }

  lemma LargestMultiple(x1: int, d1: int, p: int, a: int, w: int, xl: int)
    requires d1 >= 1 && p >= 1 && w == p * d1 && a * w <= xl + p * x1 && xl < p && x1 >= 0
    ensures a <= x1 / d1
  {
    MulComm(p, d1);
    MulAssoc(a, d1, p);
    Distrib(x1, 1, p);
    MulComm(p, x1);
    MulComm(d1, x1 / d1);
    Distrib(x1 / d1, 1, d1);
    if a * d1 > x1 { MulMono(x1 + 1, a * d1, p); }
    if a > x1 / d1 { MulMono(x1 / d1 + 1, a, d1); }
  }

  /** DIVREM_HIGH. */
  method DivremHigh(qp: array<limb>, qo: nat, np: array<limb>, no: nat, d: seq<limb>, t: nat) returns (qh: limb)
    requires qp != np && |d| > 0 && d[|d| - 1] >= HALF && t >= 3
    requires qo + |d| <= qp.Length && no + 2 * |d| <= np.Length
    modifies qp, np
    ensures qh <= 2
    ensures IsHigh(At(old(np[..]), no, 2 * |d|), Val(d), Quotient(qh, qp[..], qo, |d|), 2 * Levels(|d|, t))
    ensures Same(qp[..], old(qp[..]), qo, |d|) && Same(np[..], old(np[..]), no, 2 * |d|)
    decreases |d|, 2
  {
    if |d| < t {
      hide Val, At, Quotient;
      qh := SbDivrem(qp, qo, np, no, d);
      DivUnique(At(old(np[..]), no, 2 * |d|), Val(d), Quotient(qh, qp[..], qo, |d|), At(np[..], no, |d|));
    } else {
      qh := DcDivremHigh(qp, qo, np, no, d, t);
    }
  }

  /** mpn_dc_divrem_n_high: the quotient is never too small and exceeds the exact
      one by at most 2 for each level of recursion.  (No remainder is computed.) */
  method DcDivremHigh(qp: array<limb>, qo: nat, np: array<limb>, no: nat, d: seq<limb>, t: nat) returns (qh: limb)
    requires qp != np && 3 <= t <= |d| && d[|d| - 1] >= HALF
    requires qo + |d| <= qp.Length && no + 2 * |d| <= np.Length
    modifies qp, np
    ensures qh <= 2
    ensures IsHigh(At(old(np[..]), no, 2 * |d|), Val(d), Quotient(qh, qp[..], qo, |d|), 2 * Levels(|d|, t))
    ensures Same(qp[..], old(qp[..]), qo, |d|) && Same(np[..], old(np[..]), no, 2 * |d|)
    decreases |d|, 1
  {
    hide Val, BP, At, Quotient, Same, IsDivision, IsHigh;
    var n := |d|;
    var l := (n - 1) / 2;
    var m := n - l;
    ghost var s, qs := np[..], qp[..];
    AtSplit(s, no, l, 2 * n - l);
    qh := DivideStretch(qp, qo + l, np, no + l, d, l, t);
    ghost var s1, qs1 := np[..], qp[..];
    AtSame(s1, s, no + l, 2 * n - l, no, l);
    AtSplit(s1, no, l, n);
    AtSplit(s1, no, m, 2 * l);
    var ql := DivremHigh(qp, qo, np, no + m, d[m..], t);
    SameReach(s1, s, no, l, 2 * n - l);
    SameReach(np[..], s1, no, m, 2 * l);
    SameWider(np[..], s1, s, no, n + l, no, 2 * n);
    ValSplit(d, m);
    ValBound(d[..m]);
    DivisorHigh(d[m..]);
    DivisorHigh(d);
    AtBound(s, no, l);
    AtBound(s1, no + m, 2 * l);
    ghost var x, y, q1, q2 := At(s1, no, n + l), At(s1, no + l, n), Quotient(qh, qs1, qo + l, m), Quotient(ql, qp[..], qo, l);
    DivisionParts(At(s, no + l, 2 * n - l), q1, Val(d), y);
    XBelow(At(s, no, l), BP(l), y, Val(d), x);
    UpperEstimate(x, At(s1, no, m), At(s1, no + m, 2 * l), Val(d), Val(d[..m]), Val(d[m..]), BP(m), BP(l));
    HighUpper(x, Val(d), At(s1, no + m, 2 * l), Val(d[m..]), q2, 2 * Levels(l, t));
    HighJoined(At(s, no, 2 * n), At(s, no, l), At(s, no + l, 2 * n - l), BP(l), q1, y, x, Val(d), q2, 2 * Levels(l, t) + 2);
    qh := JoinQuotient(qp, qo, l, m, qh, ql, qs, qs1);
  }

  /** What was divided last, by the upper part of d only, divided by d. */
  lemma HighUpper(x: int, d: int, x1: int, d1: int, q2: int, e: int)
    requires d >= 1 && IsHigh(x1, d1, q2, e) && x / d <= x1 / d1 <= x / d + 2
    ensures IsHigh(x, d, q2, e + 2)
  {}

  lemma HighJoined(total: int, low: int, high: int, p: int, q1: int, y: int, x: int, d: int, q2: int, e: int)
    requires total == low + p * high && high == q1 * d + y && x == low + p * y && x >= 0 && IsHigh(x, d, q2, e)
    ensures IsHigh(total, d, p * q1 + q2, e)
  {
    Distrib(q1 * d, y, p);
    MulAssoc(p, q1, d);
    ModAddMultiple(x, d, p * q1);
  }

  lemma DivisionParts(n: int, q: int, d: int, r: int)
    requires IsDivision(n, q, d, r)
    ensures n == q * d + r && 0 <= r < d
  {}

  lemma XBelow(low: int, p: int, y: int, d: int, x: int)
    requires 0 <= low < p && 0 <= y < d && x == low + p * y
    ensures 0 <= x < d * p
  {
    MulMono(y + 1, d, p);
    Distrib(y, 1, p);
    MulComm(p, y);
    MulMono(0, y, p);
  }
}

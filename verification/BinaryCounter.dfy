/** The shape of a stack used for binary splitting.  Entry e covers the terms
    st[e], ..., st[e + 1] - 1 of a series, 2^lg[e] of them.  The sizes are the
    binary digits of the number of terms, as in a counter: adding an entry of size
    1 makes equal neighbours merge, which is the carry. */
module BinaryCounter {
  import opened Powers

  predicate Sizes(lg: seq<nat>, st: seq<nat>, k: nat) {
    && k < |lg| && |st| == k + 2 && st[0] == 0
    && forall e :: 0 <= e <= k ==> st[e + 1] == st[e] + Pow2(lg[e])
  }

  /** Each of the first n entries starts at a multiple of twice its size. */
  predicate Aligned(lg: seq<nat>, st: seq<nat>, n: nat) {
    && n <= |lg| && n <= |st|
    && forall e :: 0 <= e < n ==> st[e] % Pow2(lg[e] + 1) == 0
  }

  /** A number has one largest power of two as a divisor. */
  lemma Valuation(x: int, a: int, m: nat, b: int, l: nat)
    requires x == a * Pow2(m + 1) + Pow2(m) && x == b * Pow2(l + 1) + Pow2(l)
    ensures m == l
  {
    LowestBit(x, a, m, b, l);
    LowestBit(x, b, l, a, m);
  }

  lemma LowestBit(x: int, a: int, m: nat, b: int, l: nat)
    requires x == a * Pow2(m + 1) + Pow2(m) && x == b * Pow2(l + 1) + Pow2(l)
    ensures m >= l
  {
    hide Pow2;
    if m < l {
      var d, k := Pow2(m + 1), Pow2(l - m - 1);
      Pow2Add(m + 1, l - m - 1);
      Pow2Step(m);
      Pow2Step(l);
      MulComm(d, k);
      MulAssoc(b, 2 * k, d);
      MulAssoc(2, k, d);
      Distrib(b * (2 * k), k, d);
      DivUnique(x, d, b * (2 * k) + k, 0);
      DivUnique(x, d, a, Pow2(m));
    }
  }

  lemma EvenPart(x: int, m: nat)
    requires x % Pow2(m + 1) == 0
    ensures x == x / Pow2(m + 1) * Pow2(m + 1)
  {
    MulComm(x / Pow2(m + 1), Pow2(m + 1));
  }

  /** The carry: when the number of terms is j * 2^l with j even and the last entry
      has 2^l terms, then so has the entry before it. */
  lemma EqualNeighbours(lg: seq<nat>, st: seq<nat>, k: nat, j: nat, l: nat)
    requires Sizes(lg, st, k) && Aligned(lg, st, k) && lg[k] == l && st[k + 1] == j * Pow2(l) && j >= 2 && j % 2 == 0
    ensures k >= 1 && lg[k - 1] == l
  {
    hide Pow2;
    var x := st[k];
    assert st[k + 1] == st[k] + Pow2(l);
    Distrib(j, -1, Pow2(l));
    MulMono(1, j - 1, Pow2(l));
    assert x == (j - 1) * Pow2(l) >= Pow2(l) >= 1;
    var m := lg[k - 1];
    assert st[k] == st[k - 1] + Pow2(m);
    EvenPart(st[k - 1], m);
    Pow2Step(l);
    assert j - 1 == 2 * ((j - 2) / 2) + 1;
    MulAssoc((j - 2) / 2, 2, Pow2(l));
    MulComm((j - 2) / 2, 2);
    Distrib(2 * ((j - 2) / 2), 1, Pow2(l));
    Valuation(x, st[k - 1] / Pow2(m + 1), m, (j - 2) / 2, l);
  }

  /** No carry. */
  lemma AlignedTop(lg: seq<nat>, st: seq<nat>, k: nat, j: nat, l: nat)
    requires Sizes(lg, st, k) && Aligned(lg, st, k) && lg[k] == l && st[k + 1] == j * Pow2(l) && j % 2 == 1
    ensures Aligned(lg, st, k + 1)
  {
    hide Pow2;
    assert st[k + 1] == st[k] + Pow2(l);
    Distrib(j, -1, Pow2(l));
    Pow2Step(l);
    var h := (j - 1) / 2;
    assert j - 1 == 2 * h;
    MulAssoc(h, 2, Pow2(l));
    MulComm(h, 2);
    DivUnique(st[k], Pow2(l + 1), h, 0);
  }

  /** Merging the last two entries. */
  lemma Merge(lg: seq<nat>, st: seq<nat>, lg': seq<nat>, k: nat, l: nat)
    requires Sizes(lg, st, k) && Aligned(lg, st, k) && k >= 1 && lg[k] == lg[k - 1] == l
    requires |lg'| == |lg| && lg'[k - 1] == l + 1 && forall e :: 0 <= e < k - 1 ==> lg'[e] == lg[e]
    ensures Sizes(lg', st[..k] + [st[k + 1]], k - 1) && Aligned(lg', st[..k] + [st[k + 1]], k - 1)
  {
    hide Pow2;
    Pow2Step(l);
    assert st[k] == st[k - 1] + Pow2(l) && st[k + 1] == st[k] + Pow2(l);
  }

  /** The sizes decrease. */
  lemma {:induction false} Descending(lg: seq<nat>, st: seq<nat>, k: nat, e: nat)
    requires Sizes(lg, st, k) && Aligned(lg, st, k + 1) && e <= k
    ensures lg[e] >= lg[k] + (k - e)
    decreases k - e
  {
    hide Pow2;
    if e < k {
      Descending(lg, st, k, e + 1);
      var m, l := lg[e], lg[e + 1];
      assert st[e + 1] == st[e] + Pow2(m);
      assert st[e + 1] % Pow2(l + 1) == 0 && st[e] % Pow2(m + 1) == 0;
      EvenPart(st[e], m);
      EvenPart(st[e + 1], l);
      OddMultiple(st[e + 1], st[e] / Pow2(m + 1), m, st[e + 1] / Pow2(l + 1), l);
    }
  }

  lemma OddMultiple(x: int, a: int, m: nat, b: int, l: nat)
    requires x == a * Pow2(m + 1) + Pow2(m) && x == b * Pow2(l + 1)
    ensures m > l
  {
    hide Pow2;
    if m <= l {
      var d, k := Pow2(m + 1), Pow2(l - m);
      Pow2Add(m + 1, l - m);
      Pow2Step(m);
      MulComm(d, k);
      MulAssoc(b, k, d);
      DivUnique(x, d, b * k, 0);
      DivUnique(x, d, a, Pow2(m));
    }
  }

  /** Hence a stack of k + 1 entries holds at least 2^k terms. */
  lemma Height(lg: seq<nat>, st: seq<nat>, k: nat)
    requires Sizes(lg, st, k) && Aligned(lg, st, k + 1)
    ensures Pow2(lg[k] + k) <= st[k + 1]
  {
    hide Pow2;
    Descending(lg, st, k, 0);
    Pow2Mono(lg[k] + k, lg[0]);
    IncreasingTo(lg, st, k, 1, k + 1);
  }

  /** A power of two is held by a single entry. */
  lemma SingleEntry(lg: seq<nat>, st: seq<nat>, k: nat, m: nat)
    requires Sizes(lg, st, k) && Aligned(lg, st, k + 1) && st[k + 1] == Pow2(m)
    ensures k == 0
  {
    hide Pow2;
    if k > 0 {
      var l := lg[k];
      assert st[k + 1] == st[k] + Pow2(l);
      EvenPart(st[k], l);
      Valuation(Pow2(m), 0, m, st[k] / Pow2(l + 1), l);
      assert st[1] == st[0] + Pow2(lg[0]);
      IncreasingTo(lg, st, k, 1, k);
    }
  }

  lemma {:induction false} IncreasingTo(lg: seq<nat>, st: seq<nat>, k: nat, e: nat, f: nat)
    requires Sizes(lg, st, k) && e <= f <= k + 1
    ensures st[e] <= st[f]
    decreases f - e
  {
    hide Pow2;
    if e < f {
      IncreasingTo(lg, st, k, e + 1, f);
      assert st[e + 1] == st[e] + Pow2(lg[e]);
    }
  }

  /** 2^a <= 2^b only if a <= b. */
  lemma Exponents(a: nat, b: nat)
    ensures Pow2(a) <= Pow2(b) ==> a <= b
    ensures Pow2(a) < Pow2(b) ==> a < b
  {
    if b < a { Pow2Mono(b, a); }
    if b == a {}
  }

  lemma EntrySizes(lg: seq<nat>, st: seq<nat>, k: nat)
    requires Sizes(lg, st, k) && k >= 1
    ensures |st| == k + 2 && st[k] == st[k - 1] + Pow2(lg[k - 1]) && st[k + 1] == st[k] + Pow2(lg[k])
  {
    hide Pow2;
    assert st[k - 1 + 1] == st[k];
  }

  // ---- what the entries hold -------------------------------------------------------------

  /** Each of the n entries of s holds what f computes for its terms. */
  ghost predicate Filled(s: seq<int>, st: seq<nat>, n: nat, f: (nat, nat) -> int) {
    n <= |s| && |st| == n + 1 && forall e :: 0 <= e < n ==> st[e] <= st[e + 1] && s[e] == f(st[e], st[e + 1])
  }

  lemma FilledParts(s: seq<int>, st: seq<nat>, n: nat, f: (nat, nat) -> int)
    requires Filled(s, st, n, f) && n >= 2
    ensures |st| == n + 1 && st[n - 2] <= st[n - 1] <= st[n] && n <= |s|
    ensures s[n - 2] == f(st[n - 2], st[n - 1]) && s[n - 1] == f(st[n - 1], st[n])
  {
    assert st[n - 2 + 1] == st[n - 1];
  }

  lemma FilledOne(s: seq<int>, st: seq<nat>, f: (nat, nat) -> int)
    requires Filled(s, st, 1, f)
    ensures |st| == 2 && |s| > 0 && s[0] == f(st[0], st[1])
  {
    assert st[0 + 1] == st[1];
  }

  lemma NothingFilled(s: seq<int>, f: (nat, nat) -> int)
    ensures Filled(s, [0], 0, f)
  {}

  /** The last two entries become one. */
  lemma FilledMerged(s: seq<int>, t: seq<int>, st: seq<nat>, n: nat, f: (nat, nat) -> int)
    requires Filled(s, st, n, f) && n >= 2 && |t| == |s| && t[n - 2] == f(st[n - 2], st[n])
    requires forall e :: 0 <= e < n - 2 ==> t[e] == s[e]
    ensures Filled(t, st[..n - 1] + [st[n]], n - 1, f)
  {
    FilledParts(s, st, n, f);
    var st' := st[..n - 1] + [st[n]];
    assert forall e :: 0 <= e < n - 1 ==> st'[e] == st[e];
  }

  /** One more entry, for the terms up to x. */
  lemma FilledPushed(s: seq<int>, t: seq<int>, st: seq<nat>, n: nat, x: nat, f: (nat, nat) -> int)
    requires Filled(s, st, n, f) && n < |t| && st[n] <= x && t[n] == f(st[n], x)
    requires forall e :: 0 <= e < n ==> t[e] == s[e]
    ensures Filled(t, st + [x], n + 1, f)
  {
    var st' := st + [x];
    assert forall e :: 0 <= e <= n ==> st'[e] == st[e];
  }
}

/** cache.c: constants kept at the largest precision asked for so far, and handed
    out rounded to any smaller one.

    A cache is shared between threads.  A thread that finds the precision too
    small gives up its read lock and waits for the write lock; what other threads
    do to the cache in between is a parameter.  The passage back to a read lock is
    taken to be atomic, so nothing changes while the result is read out. */
module Caches {
  import opened Powers
  import opened RealPowers
  import opened Limbs
  import opened Rounding
  import opened Range
  import opened Numbers
  import opened Exceptions
  import opened SignedRounding
  import opened Significands
  import opened Next
  import opened RoundCached
  import R = RndRaw

  /** func computes the constant rounded to nearest, and the ternary value. */
  ghost predicate Computes(func: nat -> (int, int, int), exact: real) {
    exact > 0.0 && forall p :: p >= 1 ==> CorrectlyRounded(exact, p, Nearest, func(p).0, func(p).1, func(p).2)
  }

  /** cache.c:84-103: the precision after a request for d bits. */
  function Grown(c: nat, d: nat): (r: nat)
    ensures r >= c && r >= d
  {
    if d <= c then c else if c == 0 || c + c / 10 < d then d else c + c / 10
  }

  /** What another thread may do to the cache. */
  datatype Event = Cleared | Requested(prec: nat)

  function After(c: nat, events: seq<Event>): nat
    decreases |events|
  {
    if events == [] then c
    else After(if events[0].Cleared? then 0 else Grown(c, events[0].prec), events[1..])
  }

  lemma RoundedSignificand(exact: real, p: nat, d: Direction, m: int, e: int, t: int)
    requires CorrectlyRounded(exact, p, d, m, e, t)
    ensures IsSignificand(p, m)
  {}

  class Cache {
    var x: Mpfr?
    var inexact: int
    const func: nat -> (int, int, int)
    ghost const exact: real

    /** mpfr_init_cache; no number means precision 0. */
    constructor (func: nat -> (int, int, int), ghost exact: real)
      requires Computes(func, exact)
      ensures Valid() && Precision() == 0 && this.exact == exact && x == null
    {
      this.func, this.exact := func, exact;
      x, inexact := null, 0;
    }

    function Precision(): nat
      reads this
    {
      if x == null then 0 else x.prec
    }

    ghost predicate Valid()
      reads this, x, if x == null then {} else {x.mant}
    {
      && Computes(func, exact)
      && (x != null ==>
            && x.IsPureFp() && !x.neg
            && CorrectlyRounded(exact, x.prec, Nearest, Sig(x.mant[..], x.prec), x.exp, inexact))
    }

    /** mpfr_clear_cache. */
    method Clear()
      requires Valid()
      modifies this
      ensures Valid() && Precision() == 0 && x == null
    {
      x := null;
    }

    /** cache.c:78-103, under the write lock. */
    method Refill(dprec: nat)
      requires Valid() && dprec >= 1
      modifies this
      ensures Valid() && x != null && Precision() == Grown(old(Precision()), dprec)
      ensures x == old(x) || (fresh(x) && fresh(x.mant))
    {
      hide R2, Pow2, CorrectlyRounded, Normalized, Sig;
      var cprec := Precision();
      if dprec > cprec {
        if cprec == 0 {
          cprec := dprec;
        } else {
          cprec := cprec + cprec / 10;
          if cprec < dprec { cprec := dprec; }
        }
        var y := new Mpfr(cprec);
        var r := func(cprec);
        RoundedSignificand(exact, cprec, Nearest, r.0, r.1, r.2);
        SetSignificand(y, r.0);
        y.kind, y.neg, y.exp := Regular, false, r.1;
        x, inexact := y, r.2;
      }
    }

    /** What the other threads do between the two locks. */
    method Meanwhile(events: seq<Event>)
      requires Valid() && forall i :: 0 <= i < |events| ==> events[i].Requested? ==> events[i].prec >= 1
      modifies this
      ensures Valid() && Precision() == After(old(Precision()), events)
      ensures x == null || x == old(x) || (fresh(x) && fresh(x.mant))
    {
      var i := 0;
      while i < |events|
        invariant 0 <= i <= |events| && Valid()
        invariant After(Precision(), events[i..]) == After(old(Precision()), events)
        invariant x == null || x == old(x) || (fresh(x) && fresh(x.mant))
      {
        assert events[i..][1..] == events[i + 1..];
        if events[i].Cleared? {
          Clear();
        } else {
          Refill(events[i].prec);
        }
        i := i + 1;
      }
    }

    /** cache.c:113-184: the cached number, rounded to the precision of dest. */
    method ReadOut(dest: Mpfr, rnd: Mode) returns (inex: int)
      requires Valid() && x != null && dest != x && dest.Shape() && dest.prec <= x.prec && dest.mant != x.mant
      modifies dest, dest.mant
      ensures dest.IsPureFp() && !dest.neg
      ensures CorrectlyRounded(exact, dest.prec, DirectionOf(rnd, false), Sig(dest.mant[..], dest.prec), dest.exp, inex)
    {
      hide R2, Pow2, BP, Val, CorrectlyRounded, Normalized, Sig, RawUp, RawInexact, RawSig, NormSig, NormExp;
      var q, p, d := x.prec, dest.prec, DirectionOf(rnd, false);
      ghost var mc, ec := Sig(x.mant[..], q), x.exp;
      ghost var r := RawSig(d, mc / Pow2(q - p), mc % Pow2(q - p), q - p, inexact);
      dest.kind, dest.neg := Regular, false;
      var e;
      inex, e := R.Round(dest.mant, x.mant[..], q, p, d, inexact, x.exp);
      dest.exp := e;
      HoldingIsNormalized(dest.mant[..], p, NormSig(p, r));
      RoundedOnce(exact, q, p, d, mc, ec, inexact);
      if inexact != 0 && inex == 0 {
        match rnd {
          case RNDZ | RNDD =>
            inex := inexact;
            if inex > 0 {
              NextToZero(dest);
              inex := -inex;
            }
          case RNDU | RNDA =>
            inex := inexact;
            if inex < 0 {
              NextToInf(dest);
              inex := -inex;
            }
          case RNDN =>
            inex := inexact;
        }
      }
    }

    /** mpfr_cache.  `others` is what other threads do while this one has no lock. */
    method Request(env: Env, dest: Mpfr, rnd: Mode, others: seq<Event>) returns (inex: int, ghost o: Outcome)
      requires Valid() && dest.Shape() && env.emin <= env.emax
      requires x != null ==> dest != x && dest.mant != x.mant
      requires forall i :: 0 <= i < |others| ==> others[i].Requested? ==> others[i].prec >= 1
      modifies this, dest, dest.mant, env`inexact, env`overflow, env`underflow
      ensures Valid() && (x == null || x == old(x) || (fresh(x) && fresh(x.mant)))
      ensures Precision() == if dest.prec <= old(Precision()) then old(Precision())
                             else Grown(After(old(Precision()), others), dest.prec)
      ensures dest.Holds(o) && !dest.neg
      ensures CorrectSigned(exact, dest.prec, rnd, env.emin, env.emax, false, o, inex)
      ensures env.inexact == (old(env.inexact) || inex != 0)
      ensures env.overflow == (old(env.overflow) || TooLarge(exact, dest.prec, rnd, env.emax))
      ensures env.underflow == (old(env.underflow) || TooSmall(exact, dest.prec, rnd, env.emin))
    {
      hide R2, Pow2, CorrectlyRounded, CorrectInRange, CorrectSigned, TooLarge, TooSmall, Normalized, Sig, RangeOutcome, Grown;
      var dprec := dest.prec;
      if dprec > Precision() {
        Meanwhile(others);
        Refill(dprec);
      }
      var t := ReadOut(dest, rnd);
      ghost var m, e := Sig(dest.mant[..], dprec), dest.exp;
      ghost var r := RangeOutcome(dprec, DirectionOf(rnd, false), m, e, t, env.emin, env.emax);
      o := r.0;
      inex := CheckRange(env, dest, t, rnd);
      CheckRangeCorrect(exact, dprec, DirectionOf(rnd, false), m, e, t, env.emin, env.emax);
      SignedMeans(exact, dprec, rnd, false, env.emin, env.emax, o, inex);
      ExponentDecides(exact, dprec, rnd, false, m, e, t, env.emin, env.emax);
    }
  }

  // ---- histories -------------------------------------------------------------------

  /** One use of the cache by the observed thread. */
  datatype Use = Drop | Get(prec: nat, rnd: Mode, others: seq<Event>)

  function Reading(x: Mpfr): (o: Outcome)
    reads x, x.mant
    ensures x.Shape() && x.kind != NaN && (x.kind == Regular ==> x.IsPureFp()) ==> x.Holds(o)
  {
    match x.kind
    case Inf => Infinite
    case Regular => Finite(Sig(x.mant[..], x.prec), x.exp)
    case _ => Zero
  }

  /** Whatever the cache went through before, and whatever other threads did to it,
      each request gets the one answer there would be without a cache. */
  method Run(cache: Cache, env: Env, uses: seq<Use>) returns (answers: seq<(Outcome, int)>)
    requires cache.Valid() && env.emin <= env.emax
    requires forall i :: 0 <= i < |uses| ==> uses[i].Get? ==> uses[i].prec >= 1
    requires forall i, j :: 0 <= i < |uses| && uses[i].Get? && 0 <= j < |uses[i].others| && uses[i].others[j].Requested? ==>
                              uses[i].others[j].prec >= 1
    modifies cache, env`inexact, env`overflow, env`underflow
    ensures cache.Valid() && |answers| == |uses|
    ensures forall i :: 0 <= i < |uses| && uses[i].Get? ==>
                          CorrectSigned(cache.exact, uses[i].prec, uses[i].rnd, env.emin, env.emax, false, answers[i].0, answers[i].1)
    ensures env.inexact == (old(env.inexact) || exists i :: 0 <= i < |uses| && uses[i].Get? && answers[i].1 != 0)
    ensures env.overflow == (old(env.overflow) ||
              exists i :: 0 <= i < |uses| && uses[i].Get? && TooLarge(cache.exact, uses[i].prec, uses[i].rnd, env.emax))
    ensures env.underflow == (old(env.underflow) ||
              exists i :: 0 <= i < |uses| && uses[i].Get? && TooSmall(cache.exact, uses[i].prec, uses[i].rnd, env.emin))
  {
    hide R2, Pow2, CorrectlyRounded, Normalized, Sig, RangeOutcome, Grown, CorrectSigned, TooLarge, TooSmall;
    answers := [];
    var i := 0;
    while i < |uses|
      invariant 0 <= i == |answers| <= |uses| && cache.Valid()
      invariant cache.x == null || cache.x == old(cache.x) || (fresh(cache.x) && fresh(cache.x.mant))
      invariant forall k :: 0 <= k < i && uses[k].Get? ==>
                              CorrectSigned(cache.exact, uses[k].prec, uses[k].rnd, env.emin, env.emax, false, answers[k].0, answers[k].1)
      invariant env.inexact == (old(env.inexact) || exists k :: 0 <= k < i && uses[k].Get? && answers[k].1 != 0)
      invariant env.overflow == (old(env.overflow) ||
                  exists k :: 0 <= k < i && uses[k].Get? && TooLarge(cache.exact, uses[k].prec, uses[k].rnd, env.emax))
      invariant env.underflow == (old(env.underflow) ||
                  exists k :: 0 <= k < i && uses[k].Get? && TooSmall(cache.exact, uses[k].prec, uses[k].rnd, env.emin))
    {
      match uses[i] {
        case Drop =>
          cache.Clear();
          answers := answers + [(Zero, 0)];
        case Get(prec, rnd, others) =>
          var dest := new Mpfr(prec);
          ghost var o;
          var inex;
          inex, o := cache.Request(env, dest, rnd, others);
          assert Reading(dest) == o;
          answers := answers + [(Reading(dest), inex)];
      }
      i := i + 1;
    }
  }
}

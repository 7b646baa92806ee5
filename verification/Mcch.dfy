/**
  From a session's start time and duration to the MCCH modification periods in
  which it starts and stops.
*/
module Mcch {
  import opened Arithmetic

  /** Division as C carries it out: towards zero. */
  function TruncDiv(a: int, b: int): int
    requires b > 0
  {
    if a >= 0 then a / b else -((-a) / b)
  }

  lemma TruncDivMonotone(a: int, b: int, d: int)
    requires a <= b && d > 0
    ensures TruncDiv(a, d) <= TruncDiv(b, d)
  {
    if a >= 0 {
      DivMonotone(a, b, d);
    } else if b < 0 {
      DivMonotone(-b, -a, d);
    } else {
      DivMonotone(0, -a, d);
      DivMonotone(0, b, d);
    }
  }

  /** The MCCH clock of the MCE: repetition periods so far, and the second the last one began. */
  datatype Clock = Clock(period: nat, second: int, repRf: int)

  datatype Periods = Periods(start: int, stop: int)

  const REJECTED := Periods(0, 0)

  function Reps(clock: Clock, clamp: int -> int, second: int): int
    requires clock.repRf > 0
  {
    clamp(TruncDiv((second - clock.second) * 1000, clock.repRf * 10))
  }

  /** Repetition periods per modification period. */
  function Factor(clock: Clock, modifRf: int): int
    requires 0 < clock.repRf <= modifRf
    ensures Factor(clock, modifRf) > 0
  {
    DivMonotone(clock.repRf, modifRf, clock.repRf);
    TruncDiv(modifRf, clock.repRf)
  }

  function Current(clock: Clock, modifRf: int): int
    requires 0 < clock.repRf <= modifRf
  {
    TruncDiv(clock.period, Factor(clock, modifRf))
  }

  /** The modification period a time falls into. */
  function PeriodOf(clock: Clock, clamp: int -> int, modifRf: int, second: int): int
    requires 0 < clock.repRf <= modifRf
  {
    TruncDiv(Reps(clock, clamp, second) + clock.period, Factor(clock, modifRf))
  }

  function Calculate(clock: Clock, clamp: int -> int, modifRf: int, start: int, duration: nat): Periods
    requires 0 < clock.repRf <= modifRf
  {
    var current := Current(clock, modifRf);
    var first := PeriodOf(clock, clamp, modifRf, start);
    var begin := if first == current then current + 1 else first;
    var stop := PeriodOf(clock, clamp, modifRf, start + duration);
    if begin == stop then REJECTED
    else if stop <= current then REJECTED
    else Periods(begin, stop)
  }

  /** `q` is how many times `d` goes into `n`. */
  predicate IsQuotient(q: int, n: int, d: int) {
    q * d <= n < (q + 1) * d
  }

  /** The same for a number of either sign, counting towards zero. */
  predicate IsTruncated(q: int, n: int, d: int) {
    if n >= 0 then IsQuotient(q, n, d) else IsQuotient(-q, -n, d)
  }

  lemma TruncDivIs(n: int, d: int)
    requires d > 0
    ensures IsTruncated(TruncDiv(n, d), n, d)
  {
    Bracketed(if n >= 0 then n else -n, d);
  }

  lemma QuotientUnique(p: int, q: int, n: int, d: nat)
    requires d > 0 && IsQuotient(p, n, d) && IsQuotient(q, n, d)
    ensures p == q
  {
    MulGap(p, q, d);
    MulGap(q, p, d);
  }

  /** The factor is how many repetition periods go into a modification period, in radio frames. */
  lemma FactorIs(clock: Clock, modifRf: int, f: int)
    requires 0 < clock.repRf <= modifRf
    ensures f == Factor(clock, modifRf) <==> IsQuotient(f, modifRf, clock.repRf)
  {
    TruncDivIs(modifRf, clock.repRf);
    if IsQuotient(f, modifRf, clock.repRf) {
      QuotientUnique(f, Factor(clock, modifRf), modifRf, clock.repRf);
    }
  }

  /**
    What the periods mean, for any time. `reps` repetition periods lie between
    the last one and that time, `f` of them make a modification period, and the
    modification period is the one the repetitions, clamped and counted on,
    fall into.
  */
  lemma PeriodMeans(clock: Clock, clamp: int -> int, modifRf: int, second: int)
    requires 0 < clock.repRf <= modifRf
    ensures exists reps: int, f: int ::
              && IsTruncated(reps, (second - clock.second) * 1000, clock.repRf * 10)
              && IsQuotient(f, modifRf, clock.repRf) && f > 0
              && IsTruncated(PeriodOf(clock, clamp, modifRf, second), clock.period + clamp(reps), f)
              && IsQuotient(Current(clock, modifRf), clock.period, f)
  {
    var reps := TruncDiv((second - clock.second) * 1000, clock.repRf * 10);
    var f := Factor(clock, modifRf);
    TruncDivIs((second - clock.second) * 1000, clock.repRf * 10);
    FactorIs(clock, modifRf, f);
    TruncDivIs(clamp(reps) + clock.period, f);
    TruncDivIs(clock.period, f);
  }

  ghost predicate Monotone(clamp: int -> int) {
    forall x, y :: x <= y ==> clamp(x) <= clamp(y)
  }

  lemma PeriodOfMonotone(clock: Clock, clamp: int -> int, modifRf: int, a: int, b: int)
    requires 0 < clock.repRf <= modifRf && a <= b && Monotone(clamp)
    ensures PeriodOf(clock, clamp, modifRf, a) <= PeriodOf(clock, clamp, modifRf, b)
  {
    TruncDivMonotone((a - clock.second) * 1000, (b - clock.second) * 1000, clock.repRf * 10);
    var m, n := Reps(clock, clamp, a) + clock.period, Reps(clock, clamp, b) + clock.period;
    TruncDivMonotone(m, n, Factor(clock, modifRf));
  }

  /**
    Whatever the clamp, as long as it is monotone, and also for times before
    the last repetition: a session is rejected, or it starts before it stops,
    stops after the current period and does not start in it.
  */
  lemma PeriodsOrdered(clock: Clock, clamp: int -> int, modifRf: int, start: int, duration: nat)
    requires 0 < clock.repRf <= modifRf && Monotone(clamp)
    ensures var r := Calculate(clock, clamp, modifRf, start, duration);
            r == REJECTED ||
            (&& r.start < r.stop && Current(clock, modifRf) < r.stop && r.start != Current(clock, modifRf)
             && r.stop == PeriodOf(clock, clamp, modifRf, start + duration)
             && (r.start == PeriodOf(clock, clamp, modifRf, start) ||
                 r.start - 1 == PeriodOf(clock, clamp, modifRf, start) == Current(clock, modifRf)))
  {
    PeriodOfMonotone(clock, clamp, modifRf, start, start + duration);
  }

  /** It is rejected exactly if the period it would stop in is not after both the current period and its start. */
  lemma RejectedIff(clock: Clock, clamp: int -> int, modifRf: int, start: int, duration: nat)
    requires 0 < clock.repRf <= modifRf && Monotone(clamp)
    ensures var current := Current(clock, modifRf);
            var first := PeriodOf(clock, clamp, modifRf, start);
            var stop := PeriodOf(clock, clamp, modifRf, start + duration);
            Calculate(clock, clamp, modifRf, start, duration) == REJECTED <==>
              stop <= current || stop == first || (first == current && stop == current + 1)
  {
    PeriodOfMonotone(clock, clamp, modifRf, start, start + duration);
  }

  // ---- The two readings of the clamp ----

  function AtLeastOne(x: int): int {
    if x < 1 then 1 else x
  }

  function Max(x: int, y: int): int {
    if x < y then y else x
  }

  function AtMostOne(x: int): int {
    if x < 1 then x else 1
  }

  /** With the clamp the comments describe, an accepted session starts after the current period. */
  lemma AtLeastOneStartsLater(clock: Clock, modifRf: int, start: int, duration: nat)
    requires 0 < clock.repRf <= modifRf
    ensures var r := Calculate(clock, AtLeastOne, modifRf, start, duration);
            r == REJECTED ||
            (&& Current(clock, modifRf) < r.start < r.stop
             && r.start == Max(Current(clock, modifRf) + 1, PeriodOf(clock, AtLeastOne, modifRf, start)))
  {
    PeriodsOrdered(clock, AtLeastOne, modifRf, start, duration);
    TruncDivMonotone(clock.period, Reps(clock, AtLeastOne, start) + clock.period, Factor(clock, modifRf));
  }

  /** The next repetition begins a new modification period exactly if it completes the current one. */
  lemma NextPeriod(n: nat, d: nat)
    requires d > 0
    ensures (n + 1) / d == n / d + if (n + 1) % d == 0 then 1 else 0
  {
    var q, r := n / d, n % d;
    assert n == q * d + r;
    if r + 1 == d {
      DivUnique(n + 1, d, q + 1, 0);
    } else {
      DivUnique(n + 1, d, q, r + 1);
    }
  }

  /** With the minimum as written, in terms of periods. */
  lemma AtMostOneAcceptsPeriods(clock: Clock, modifRf: int, start: int, duration: nat)
    requires 0 < clock.repRf <= modifRf
    ensures Calculate(clock, AtMostOne, modifRf, start, duration) != REJECTED <==>
              && (clock.period + 1) % Factor(clock, modifRf) == 0
              && TruncDiv((start + duration - clock.second) * 1000, clock.repRf * 10) >= 1
              && PeriodOf(clock, AtMostOne, modifRf, start) < Current(clock, modifRf)
  {
    RejectedIff(clock, AtMostOne, modifRf, start, duration);
    var f := Factor(clock, modifRf);
    NextPeriod(clock.period, f);
    var reps := Reps(clock, AtMostOne, start + duration);
    TruncDivMonotone(reps + clock.period, clock.period + 1, f);
    if reps < 1 {
      TruncDivMonotone(reps + clock.period, clock.period, f);
    }
    TruncDivMonotone(Reps(clock, AtMostOne, start) + clock.period, clock.period + 1, f);
  }

  /** When a quotient towards zero is below `q`: around zero a whole divisor is missing. */
  lemma TruncBelow(n: int, d: int, q: nat)
    requires d > 0
    ensures TruncDiv(n, d) < q <==> if q > 0 then n < q * d else n <= -d
  {
    if n >= 0 {
      Bracketed(n, d);
      DivMonotone(0, n, d);
      MulGap(n / d, q, d);
      MulGap(q, n / d + 1, d);
    } else {
      Bracketed(-n, d);
      DivMonotone(0, -n, d);
      MulNonNegative(q, d);
      if -n < d {
        DivUnique(-n, d, 0, -n);
      } else {
        DivMonotone(d, -n, d);
        DivUnique(d, d, 1, 0);
      }
    }
  }

  lemma TruncAtLeastOne(n: int, d: int)
    requires d > 0
    ensures TruncDiv(n, d) >= 1 <==> n >= d
  {
    TruncBelow(n, d, 1);
  }

  lemma TruncAtMost(n: int, d: int, k: int)
    requires d > 0 && k > 0
    ensures TruncDiv(n, d) <= -k <==> -n >= k * d
  {
    if n >= 0 {
      DivMonotone(0, n, d);
      MulGap(0, k, d);
    } else {
      TruncBelow(-n, d, k);
    }
  }

  /**
    With the minimum as written, a session is accepted exactly if the next
    repetition completes a modification period, the session lasts for at least
    one repetition from now, and it started a whole modification period or
    more before the last repetition (nearly two, during the very first one).
    `f` repetition periods go into a modification period.
  */
  lemma AtMostOneAcceptsIff(clock: Clock, modifRf: int, start: int, duration: nat, f: int)
    requires 0 < clock.repRf <= modifRf && IsQuotient(f, modifRf, clock.repRf)
    ensures f > 0
    ensures var rep := clock.repRf * 10;
            Calculate(clock, AtMostOne, modifRf, start, duration) != REJECTED <==>
              && (clock.period + 1) % f == 0
              && (start + duration - clock.second) * 1000 >= rep
              && (clock.second - start) * 1000 >= (if clock.period >= f then f else 2 * f - 1) * rep
  {
    FactorIs(clock, modifRf, f);
    AtMostOneAcceptsPeriods(clock, modifRf, start, duration);
    var rep := clock.repRf * 10;
    TruncAtLeastOne((start + duration - clock.second) * 1000, rep);
    if (clock.period + 1) % f == 0 {
      StartsEarlyIff(clock, modifRf, start);
    }
  }

  lemma StartsEarlyIff(clock: Clock, modifRf: int, start: int)
    requires 0 < clock.repRf <= modifRf && (clock.period + 1) % Factor(clock, modifRf) == 0
    ensures var f := Factor(clock, modifRf);
            PeriodOf(clock, AtMostOne, modifRf, start) < Current(clock, modifRf) <==>
              (clock.second - start) * 1000 >= (if clock.period >= f then f else 2 * f - 1) * (clock.repRf * 10)
  {
    var f, q := Factor(clock, modifRf), Current(clock, modifRf);
    var delta, rep := (start - clock.second) * 1000, clock.repRf * 10;
    LastOfPeriod(clock.period, f);
    DivMonotone(0, clock.period, f);
    TruncBelow(Reps(clock, AtMostOne, start) + clock.period, f, q);
    TruncAtMost(delta, rep, if clock.period >= f then f else 2 * f - 1);
  }

  /** The last number before a multiple. */
  lemma LastOfPeriod(n: nat, d: nat)
    requires d > 0 && (n + 1) % d == 0
    ensures n == (n / d) * d + (d - 1)
    ensures n / d > 0 <==> n >= d
  {
    NextPeriod(n, d);
    assert n + 1 == ((n + 1) / d) * d;
    assert (n / d + 1) * d == (n / d) * d + d;
    MulGap(0, n / d, d);
    DivMonotone(0, n, d);
  }

  /** So no session whose start is still to come is ever accepted. */
  lemma AtMostOneRejectsTheFuture(clock: Clock, modifRf: int, start: int, duration: nat)
    requires 0 < clock.repRf <= modifRf && clock.second <= start
    ensures Calculate(clock, AtMostOne, modifRf, start, duration) == REJECTED
  {
    var f := Factor(clock, modifRf);
    FactorIs(clock, modifRf, f);
    AtMostOneAcceptsIff(clock, modifRf, start, duration, f);
    MulNonNegative(if clock.period >= f then f else 2 * f - 1, clock.repRf * 10);
  }
}

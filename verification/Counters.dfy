/** Logical counters and periodic wake-ups (syfala_utils/src/queue.rs:14-176). */
module Counters {
  import opened Common
  import DivMod

  /** The period boundaries after `lo`, up to and including `hi`. */
  ghost function Multiples(lo: nat, hi: nat, period: nat): (s: set<nat>)
    requires period > 0
  {
    set p: nat | p <= hi && lo < p && p % period == 0
  }

  /** A step of one passes a boundary exactly when it ends on one. */
  lemma MultiplesStep(lo: nat, hi: nat, period: nat)
    requires period > 0 && lo <= hi
    ensures Multiples(lo, lo, period) == {}
    ensures Multiples(lo, hi + 1, period)
         == Multiples(lo, hi, period) + (if (hi + 1) % period == 0 then {hi + 1} else {})
  {
  }

  /** Dividing by the period counts them. */
  lemma {:induction false} MultiplesCount(lo: nat, hi: nat, period: nat)
    requires period > 0 && lo <= hi
    ensures |Multiples(lo, hi, period)| == hi / period - lo / period
  {
    if lo == hi {
      MultiplesStep(lo, hi, period);
    } else {
      MultiplesCount(lo, hi - 1, period);
      MultiplesStep(lo, hi - 1, period);
      DivMod.Step(hi - 1, period);
      assert hi !in Multiples(lo, hi - 1, period);
      hide Multiples;
    }
  }

  /** `PeriodicCounter` over a `GenericCounter`; the waker is represented by the total number
      of wake events it was told about. */
  class PeriodicCounter {
    const period: nat
    const initial: nat
    var count: nat
    var woken: nat

    ghost predicate Valid()
      reads this
    {
      period > 0 && initial <= count && woken == |Multiples(initial, count, period)|
    }

    constructor (period: nat, initial: nat)
      requires period > 0
      ensures Valid() && count == initial && woken == 0
      ensures this.period == period && this.initial == initial
    {
      this.period, this.initial, count, woken := period, initial, initial, 0;
      MultiplesStep(initial, initial, period);
    }

    /** `boundaries_crossed`: the period boundaries in all of the count, wherever it started. */
    method BoundariesCrossed() returns (n: nat)
      requires Valid()
      ensures n == |Multiples(0, count, period)|
    {
      MultiplesCount(0, count, period);
      DivMod.Unique(0, period, 0, 0);
      n := count / period;
    }

    /** One wake event per period boundary passed, and none exactly when there is none. */
    method Advance(n: nat)
      requires Valid() && count + n < U64
      modifies this
      ensures Valid() && count == old(count) + n
      ensures woken == old(woken) + |Multiples(old(count), count, period)|
      ensures woken > old(woken) <==> exists p: nat :: p in Multiples(old(count), count, period)
    {
      MultiplesCount(initial, count, period);
      MultiplesCount(count, count + n, period);
      MultiplesCount(initial, count + n, period);
      hide Multiples;
      var before := count / period;
      count := count + n;
      var crossed := count / period - before;
      if crossed != 0 {
        woken := woken + crossed;
      }
    }
  }

  /** The wake events that a sequence of advances reports, one after the other. */
  ghost function Reported(count: nat, deltas: seq<nat>, period: nat): (wakes: nat)
    requires period > 0
    decreases deltas
  {
    if deltas == [] then 0
    else |Multiples(count, count + deltas[0], period)| + Reported(count + deltas[0], deltas[1..], period)
  }

  ghost function Sum(deltas: seq<nat>): (n: nat) {
    if deltas == [] then 0 else deltas[0] + Sum(deltas[1..])
  }

  /** However a total is split into advances, one wake event is reported per boundary passed. */
  lemma {:induction false} WakesConserved(count: nat, deltas: seq<nat>, period: nat)
    requires period > 0
    ensures Reported(count, deltas, period) == |Multiples(count, count + Sum(deltas), period)|
    decreases deltas
  {
    MultiplesCount(count, count + Sum(deltas), period);
    if deltas != [] {
      WakesConserved(count + deltas[0], deltas[1..], period);
      MultiplesCount(count, count + deltas[0], period);
      MultiplesCount(count + deltas[0], count + Sum(deltas), period);
    }
  }
}

/** Whether loss is local: when packets arrive in order, a sample should come out as it went in
    exactly if every one of its bytes was in some packet. It does not always, because the padder
    may have skipped past the start of a packet and then drops it whole. This module proves the
    exact condition. */
module LossLocality {
  import opened SampleCodec
  import opened ByteConsumer
  import opened LossyPath
  import opened PacketLoss
  import DivMod

  /** Exactly the delivered samples came out; the others are padding. */
  ghost predicate Local(s: Path, delivered: set<nat>, samples: seq<nat>, pad: nat, size: nat)
    requires |s.out| <= |samples|
  {
    forall k: nat :: k < |s.out| ==> s.out[k] == if Covered(delivered, k, size) then samples[k] else pad
  }

  /** A sample that came out was stored completely exactly when it was delivered completely. */
  ghost predicate SameCoverage(s: Path, delivered: set<nat>, size: nat) {
    forall k: nat :: k < |s.out| ==> (Covered(s.got, k, size) <==> Covered(delivered, k, size))
  }

  /** The packet is not late; or it carries nothing from the expected index on; or the sample at the
      expected index is not delivered completely, or not among the first `emitted` ones. */
  ghost predicate Sparing(cur: nat, d: Delivery, delivered: set<nat>, emitted: nat, size: nat)
    requires size > 0
  {
    d.idx < cur ==>
      d.idx + |d.bytes| <= cur || !Covered(delivered, cur / size, size) || emitted <= cur / size
  }

  ghost predicate AllSparing(schedule: seq<Delivery>, delivered: set<nat>, emitted: nat, pad: nat, size: nat)
    requires size > 0
  {
    schedule == [] ||
    var n := |schedule| - 1;
    && AllSparing(schedule[..n], delivered, emitted, pad, size)
    && Sparing(Run(schedule[..n], pad, size).padder.cur, schedule[n], delivered, emitted, size)
  }

  // ----- What an ordered run says about all the packets still to come

  /** Between the last packet and this one nothing is ever delivered; this one is. */
  ghost predicate Foreseen(delivered: set<nat>, end: nat, d: Delivery) {
    && (forall q: nat :: end <= q < d.idx ==> q !in delivered)
    && forall q: nat :: d.idx <= q < d.idx + |d.bytes| ==> q in delivered
  }

  ghost predicate AllForeseen(delivered: set<nat>, schedule: seq<Delivery>) {
    schedule == [] ||
    var n := |schedule| - 1;
    AllForeseen(delivered, schedule[..n]) && Foreseen(delivered, End(schedule[..n]), schedule[n])
  }

  lemma {:induction false} MoreForeseen(delivered: set<nat>, schedule: seq<Delivery>, lo: nat, hi: nat)
    requires Ordered(schedule) && AllForeseen(delivered, schedule) && End(schedule) <= lo
    ensures AllForeseen(delivered + Span(lo, hi), schedule)
  {
    if schedule != [] {
      MoreForeseen(delivered, schedule[..|schedule| - 1], lo, hi);
    }
  }

  lemma {:induction false} OrderedForeseen(schedule: seq<Delivery>)
    requires Ordered(schedule)
    ensures AllForeseen(Delivered(schedule), schedule)
    ensures forall q :: q in Delivered(schedule) ==> q < End(schedule)
  {
    if schedule != [] {
      var before, d := schedule[..|schedule| - 1], schedule[|schedule| - 1];
      OrderedForeseen(before);
      MoreForeseen(Delivered(before), before, d.idx, End(schedule));
    }
  }

  // ----- Sparing packets keep coverage

  /** Everything delivered of the samples so far was stored. When the padder is ahead of the last
      packet or was passed by it, it is between samples; in the latter case the sample it is at
      is one that `Sparing` allows to lose. */
  ghost predicate Tracks(s: Path, end: nat, delivered: set<nat>, emitted: nat, size: nat) {
    && (forall k: nat :: k < |s.out| && Covered(delivered, k, size) ==> Covered(s.got, k, size))
    && (end != s.padder.cur ==> s.padder.partial == [])
    && (s.padder.cur < end ==>
          && (forall q: nat :: s.padder.cur <= q < end ==> q in delivered)
          && (emitted <= |s.out| || !Covered(delivered, |s.out|, size)))
  }

  lemma LateTracks(s: Path, d: Delivery, end: nat, delivered: set<nat>, emitted: nat, size: nat)
    requires Aligned(s, size) && Tracks(s, end, delivered, emitted, size)
    requires end <= d.idx < s.padder.cur && Foreseen(delivered, end, d)
    requires Sparing(s.padder.cur, d, delivered, emitted, size)
    ensures Tracks(s, d.idx + |d.bytes|, delivered, emitted, size)
  {
    CountedAligned(s, 0, size);
  }

  /** What a packet rebuilds was stored. */
  lemma RebuiltCovered(s: Path, s': Path, samples: seq<nat>, pad: nat, size: nat, gap: nat, from: nat, whole: seq<nat>, k: nat)
    requires size > 0 && |s.out| <= |samples| && Aligned(s, size) && Aligned(s', size)
    requires Exact(s, samples, pad, size) && Effect(s, s', samples, pad, size, gap, from, from, whole)
    requires |s.out| + gap <= k < |s'.out|
    ensures Covered(s'.got, k, size)
  {
    DivMod.BoundaryLe(|s.out| + gap, k, size);
    DivMod.BoundaryLe(k, |s'.out|, size);
  }

  /** What a gap pads was not delivered. */
  lemma PaddedUndelivered(s: Path, d: Delivery, end: nat, delivered: set<nat>, emitted: nat, gap: nat, from: nat, size: nat, k: nat)
    requires Aligned(s, size) && Tracks(s, end, delivered, emitted, size) && Foreseen(delivered, end, d)
    requires s.padder.cur < d.idx && end <= d.idx && from < d.idx + size
    requires from == DivMod.Boundary(|s.out| + gap, size)
    requires |s.out| <= k < |s.out| + gap <= emitted
    ensures !Covered(delivered, k, size)
  {
    DivMod.BoundaryLe(k, |s.out| + gap, size);
    DivMod.BoundaryLe(|s.out|, k, size);
    var cur, at := s.padder.cur, DivMod.Boundary(k, size);
    if end <= cur || end <= at {
      var q := if cur < at then at else cur;
      assert q !in delivered;
    } else {
      var lost: nat :| DivMod.Boundary(|s.out|, size) <= lost < DivMod.Boundary(|s.out|, size) + size && lost !in delivered;
      if |s.out| < k {
        assert false;
      }
    }
  }

  /** A packet that is not late. */
  lemma TimelyTracks(s: Path, d: Delivery, s': Path, end: nat, delivered: set<nat>, emitted: nat,
                     samples: seq<nat>, pad: nat, size: nat, gap: nat, from: nat, whole: seq<nat>)
    requires size > 0 && |s.out| <= |samples| && Aligned(s, size) && Aligned(s', size)
    requires Exact(s, samples, pad, size) && Effect(s, s', samples, pad, size, gap, from, from, whole)
    requires Tracks(s, end, delivered, emitted, size) && Foreseen(delivered, end, d)
    requires s.padder.cur <= d.idx && end <= d.idx && |s'.out| <= emitted
    requires gap == Gap(s.padder.cur, d.idx, size) && from < d.idx + size
    requires d.idx + |d.bytes| <= s'.padder.cur
    requires d.idx + |d.bytes| < s'.padder.cur ==> s'.padder.partial == []
    ensures Tracks(s', d.idx + |d.bytes|, delivered, emitted, size)
  {
    forall k: nat | k < |s'.out| && Covered(delivered, k, size) ensures Covered(s'.got, k, size) {
      if |s.out| + gap <= k {
        RebuiltCovered(s, s', samples, pad, size, gap, from, whole, k);
      } else if |s.out| <= k {
        PaddedUndelivered(s, d, end, delivered, emitted, gap, from, size, k);
      } else {
        assert Covered(s.got, k, size);
      }
    }
  }

  /** Where a drained packet that is not late leaves the padder: at its end, or between samples. */
  lemma DrainedEnd(s: Path, d: Delivery, pad: nat, size: nat)
    requires |s.padder.partial| < size && Drains(s, d, size) && s.padder.cur <= d.idx
    ensures var s' := Deliver(s, d, pad, size);
            && d.idx + |d.bytes| <= s'.padder.cur
            && (d.idx + |d.bytes| < s'.padder.cur ==> s'.padder.partial == [])
            && Resume(s.padder.cur, d.idx, size) < d.idx + size
  {
    DrainedReaches(s, d, pad, size);
    DivMod.CeilBoundary(d.idx, size);
  }

  lemma StepTracks(s: Path, d: Delivery, end: nat, delivered: set<nat>, emitted: nat, samples: seq<nat>, pad: nat, size: nat)
    requires size > 0 && Fit(samples, size) && Held(s, samples, size) && Exact(s, samples, pad, size)
    requires SliceOf(d, Encode(samples, size)) && Drains(s, d, size) && end <= d.idx
    requires Tracks(s, end, delivered, emitted, size) && Foreseen(delivered, end, d)
    requires Sparing(s.padder.cur, d, delivered, emitted, size)
    requires |Deliver(s, d, pad, size).out| <= emitted
    ensures Tracks(Deliver(s, d, pad, size), d.idx + |d.bytes|, delivered, emitted, size)
  {
    var s' := Deliver(s, d, pad, size);
    if d.idx < s.padder.cur {
      LateIgnored(s, d, pad, size);
      hide DeliverBy, Tracks, Encode, Exact, Foreseen, Sparing;
      LateTracks(s, d, end, delivered, emitted, size);
    } else {
      hide DeliverBy, Tracks, Encode, Exact, Foreseen, Sparing, Effect;
      var gap, from, whole := DeliverEffect(s, d, samples, pad, size);
      DrainedEnd(s, d, pad, size);
      hide Drains, Resume, Gap, SliceOf;
      TimelyTracks(s, d, s', end, delivered, emitted, samples, pad, size, gap, from, whole);
    }
  }

  lemma {:induction false} RunTracks(schedule: seq<Delivery>, delivered: set<nat>, emitted: nat,
                                     samples: seq<nat>, pad: nat, size: nat)
    requires size > 0 && Fit(samples, size) && Drained(schedule, samples, pad, size) && Ordered(schedule)
    requires AllForeseen(delivered, schedule) && AllSparing(schedule, delivered, emitted, pad, size)
    requires |Run(schedule, pad, size).out| <= emitted
    ensures Tracks(Run(schedule, pad, size), End(schedule), delivered, emitted, size)
  {
    if schedule != [] {
      var before, d := schedule[..|schedule| - 1], schedule[|schedule| - 1];
      hide DeliverBy, Tracks, Encode, Exact, Foreseen, Sparing, Held, SliceOf, Drains, Admissible;
      DrainedAdmissible(before, samples, pad, size);
      RunExact(before, samples, pad, size);
      OutputGrows(Run(before, pad, size), d, pad, size);
      RunTracks(before, delivered, emitted, samples, pad, size);
      StepTracks(Run(before, pad, size), d, End(before), delivered, emitted, samples, pad, size);
    }
  }

  // ----- A packet that is not sparing costs a delivered sample

  /** The padder has gone past position `q`, or is at it and the next packet starts later. */
  ghost predicate PassedOver(s: Path, end: nat, q: nat) {
    q !in s.got && q <= s.padder.cur && (s.padder.cur == q ==> q < end)
  }

  lemma PassedOverStays(s: Path, d: Delivery, end: nat, q: nat, pad: nat, size: nat)
    requires size > 0 && PassedOver(s, end, q) && end <= d.idx
    ensures PassedOver(Deliver(s, d, pad, size), d.idx + |d.bytes|, q)
  {
    if s.padder.cur < d.idx {
      GapPositive(s.padder.cur, d.idx, size);
    }
  }

  /** A byte at the expected index in a late packet is never stored. */
  lemma {:induction false} EvictedForGood(schedule: seq<Delivery>, i: nat, samples: seq<nat>, pad: nat, size: nat, q: nat)
    requires size > 0 && Fit(samples, size) && Drained(schedule, samples, pad, size) && Ordered(schedule)
    requires i < |schedule| && q == Run(schedule[..i], pad, size).padder.cur
    requires schedule[i].idx < q < schedule[i].idx + |schedule[i].bytes|
    ensures PassedOver(Run(schedule, pad, size), End(schedule), q)
  {
    var before, d := schedule[..|schedule| - 1], schedule[|schedule| - 1];
    if i == |schedule| - 1 {
      hide DeliverBy, Encode, Admissible, Drains, SliceOf;
      DrainedAdmissible(before, samples, pad, size);
      RunExact(before, samples, pad, size);
      LateIgnored(Run(before, pad, size), d, pad, size);
    } else {
      hide DeliverBy, Encode, Drains, SliceOf, PassedOver;
      assert before[..i] == schedule[..i];
      EvictedForGood(before, i, samples, pad, size, q);
      PassedOverStays(Run(before, pad, size), d, End(before), q, pad, size);
    }
  }

  lemma {:induction false} NotSparing(schedule: seq<Delivery>, delivered: set<nat>, emitted: nat, pad: nat, size: nat)
    returns (i: nat)
    requires size > 0 && !AllSparing(schedule, delivered, emitted, pad, size)
    ensures i < |schedule|
    ensures !Sparing(Run(schedule[..i], pad, size).padder.cur, schedule[i], delivered, emitted, size)
  {
    hide RunBy, Sparing;
    var n := |schedule| - 1;
    if AllSparing(schedule[..n], delivered, emitted, pad, size) {
      i := n;
    } else {
      i := NotSparing(schedule[..n], delivered, emitted, pad, size);
      assert schedule[..n][..i] == schedule[..i];
    }
  }

  lemma InOwnBlock(q: nat, got: set<nat>, size: nat)
    requires size > 0 && q !in got
    ensures 0 <= q / size && !Covered(got, q / size, size)
  {
    DivMod.DivLe(0, q, size);
    DivMod.BoundaryIsMul(q / size, size);
  }

  // ----- Whole runs

  /** Loss is local exactly when no late packet carries, at the index the padder expects, a byte of
      a sample that is otherwise delivered: every sample out is then the one that went in if all
      of its bytes were delivered, and padding if not. Both directions, for every in-order
      schedule into a sink with room; that the output shows it takes a stream without silence. */
  lemma LocalIff(schedule: seq<Delivery>, samples: seq<nat>, pad: nat, size: nat)
    requires size > 0 && Fit(samples, size) && Drained(schedule, samples, pad, size) && Ordered(schedule)
    ensures var s, delivered := Run(schedule, pad, size), Delivered(schedule);
            var sparing := AllSparing(schedule, delivered, |s.out|, pad, size);
            && |s.out| <= |samples|
            && (SameCoverage(s, delivered, size) <==> sparing)
            && (sparing ==> Local(s, delivered, samples, pad, size))
            && (Local(s, delivered, samples, pad, size) && pad !in samples ==> sparing)
  {
    hide Run, Drained, Encode, Admissible, AllSparing, AllForeseen, Covered, Ordered, Delivered;
    var s, delivered := Run(schedule, pad, size), Delivered(schedule);
    DrainedAdmissible(schedule, samples, pad, size);
    RunExact(schedule, samples, pad, size);
    if AllSparing(schedule, delivered, |s.out|, pad, size) {
      SparingCovers(schedule, samples, pad, size);
    } else {
      var k := CoverageLost(schedule, samples, pad, size);
    }
  }

  lemma SparingCovers(schedule: seq<Delivery>, samples: seq<nat>, pad: nat, size: nat)
    requires size > 0 && Fit(samples, size) && Drained(schedule, samples, pad, size) && Ordered(schedule)
    requires AllSparing(schedule, Delivered(schedule), |Run(schedule, pad, size).out|, pad, size)
    ensures SameCoverage(Run(schedule, pad, size), Delivered(schedule), size)
  {
    hide Run, Drained, Encode, AllSparing, AllForeseen, Ordered, Delivered;
    OrderedForeseen(schedule);
    GotWasDelivered(schedule, pad, size);
    RunTracks(schedule, Delivered(schedule), |Run(schedule, pad, size).out|, samples, pad, size);
  }

  lemma CoverageLost(schedule: seq<Delivery>, samples: seq<nat>, pad: nat, size: nat) returns (k: nat)
    requires size > 0 && Fit(samples, size) && Drained(schedule, samples, pad, size) && Ordered(schedule)
    requires !AllSparing(schedule, Delivered(schedule), |Run(schedule, pad, size).out|, pad, size)
    ensures var s := Run(schedule, pad, size);
            k < |s.out| && Covered(Delivered(schedule), k, size) && !Covered(s.got, k, size)
  {
    hide RunBy, Drained, Encode, AllSparing, Ordered, Delivered, Covered;
    var s := Run(schedule, pad, size);
    var i := NotSparing(schedule, Delivered(schedule), |s.out|, pad, size);
    var q := Run(schedule[..i], pad, size).padder.cur;
    OutCount(REPAIRED, schedule[..i], pad, size);
    EvictedForGood(schedule, i, samples, pad, size, q);
    InOwnBlock(q, s.got, size);
    k := q / size;
  }

  /** Drained packets of which none is late. */
  ghost predicate InOrder(schedule: seq<Delivery>, samples: seq<nat>, pad: nat, size: nat)
    requires size > 0 && Fit(samples, size)
  {
    schedule == [] ||
    var n := |schedule| - 1;
    var s, d := Run(schedule[..n], pad, size), schedule[n];
    && InOrder(schedule[..n], samples, pad, size)
    && SliceOf(d, Encode(samples, size)) && Drains(s, d, size) && s.padder.cur <= d.idx
  }

  lemma {:induction false} InOrderSpares(schedule: seq<Delivery>, delivered: set<nat>, emitted: nat,
                                         samples: seq<nat>, pad: nat, size: nat)
    requires size > 0 && Fit(samples, size) && InOrder(schedule, samples, pad, size)
    ensures Drained(schedule, samples, pad, size) && Ordered(schedule)
    ensures AllSparing(schedule, delivered, emitted, pad, size)
    ensures End(schedule) <= Run(schedule, pad, size).padder.cur
  {
    if schedule != [] {
      var before, d := schedule[..|schedule| - 1], schedule[|schedule| - 1];
      hide DeliverBy, Encode, Drains, SliceOf;
      InOrderSpares(before, delivered, emitted, samples, pad, size);
      RunCounted(REPAIRED, before, pad, size);
      DrainedEnd(Run(before, pad, size), d, pad, size);
    }
  }

  /** A lost packet costs exactly the samples it touches: when no packet is late, a sample comes out
      as it went in when every packet holding one of its bytes arrived, and as padding
      otherwise. */
  lemma LossIsLocal(schedule: seq<Delivery>, samples: seq<nat>, pad: nat, size: nat)
    requires size > 0 && Fit(samples, size) && InOrder(schedule, samples, pad, size)
    ensures var s := Run(schedule, pad, size);
            && End(schedule) <= s.padder.cur && |s.out| <= |samples|
            && Local(s, Delivered(schedule), samples, pad, size)
  {
    hide Run, InOrder, Drained, Ordered, AllSparing, Encode, Delivered, End, Local, SameCoverage;
    var s := Run(schedule, pad, size);
    InOrderSpares(schedule, Delivered(schedule), |s.out|, samples, pad, size);
    LocalIff(schedule, samples, pad, size);
  }

  /** The padder also ends each such packet at the packet's own end, if each one that follows a
      loss reaches a sample boundary. */
  ghost predicate AllReach(schedule: seq<Delivery>, size: nat)
    requires size > 0
  {
    schedule == [] ||
    var n := |schedule| - 1;
    AllReach(schedule[..n], size) && (schedule[n].idx == End(schedule[..n]) || ReachesBoundary(schedule[n], size))
  }

  lemma {:induction false} InStep(schedule: seq<Delivery>, samples: seq<nat>, pad: nat, size: nat)
    requires size > 0 && Fit(samples, size) && InOrder(schedule, samples, pad, size) && AllReach(schedule, size)
    ensures Run(schedule, pad, size).padder.cur == End(schedule)
  {
    if schedule != [] {
      var before, d := schedule[..|schedule| - 1], schedule[|schedule| - 1];
      hide DeliverBy, Encode, Drains, SliceOf, ReachesBoundary;
      InStep(before, samples, pad, size);
      RunCounted(REPAIRED, before, pad, size);
      InStepIff(Run(before, pad, size), d, pad, size);
    }
  }
}

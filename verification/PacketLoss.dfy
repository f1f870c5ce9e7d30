/** The lossless round trip, sinks that stop early, and packets the padder has no use for. */
module PacketLoss {
  import opened Common
  import opened SampleCodec
  import opened ByteConsumer
  import opened LossyPath
  import DivMod

  // ----- Sinks

  /** The sink has room for the padding and for every sample the packet completes or begins. */
  ghost predicate DrainsBy(build: Build, s: Path, d: Delivery, size: nat)
    requires size > 0
  {
    var plan := PlanFor(build, s.padder, d.idx, d.bytes, size);
    && plan.gap <= d.limit
    && |plan.carried| + |plan.kept| <= DivMod.Boundary(d.limit - plan.gap, size)
  }

  ghost predicate Drains(s: Path, d: Delivery, size: nat)
    requires size > 0
  {
    DrainsBy(REPAIRED, s, d, size)
  }

  lemma DrainedReaches(s: Path, d: Delivery, pad: nat, size: nat)
    requires size > 0 && |s.padder.partial| < size && Drains(s, d, size)
    ensures var plan := PlanFor(REPAIRED, s.padder, d.idx, d.bytes, size);
            Deliver(s, d, pad, size).padder.cur == plan.from + |plan.kept|
  {
    var plan := PlanFor(REPAIRED, s.padder, d.idx, d.bytes, size);
    assert Quota(REPAIRED, d.limit, plan.gap) == d.limit - plan.gap;
  }

  /** One packet more: the timeline is still kept exactly when it was kept and the sink takes all
      the padding of the packet, wherever it stops after that. */
  lemma AlignedIffPaddingTaken(build: Build, s: Path, d: Delivery, refused: nat, pad: nat, size: nat)
    requires build.wholeBuffer && Counted(s, refused, size)
    ensures Aligned(DeliverBy(build, s, d, pad, size), size) <==> Aligned(s, size) && TakesPadding(s, d, size)
  {
    DeliverCounted(build, s, d, refused, pad, size);
    CountedAligned(s, refused, size);
    CountedAligned(DeliverBy(build, s, d, pad, size), refused + Refusal(s.padder.cur, d, size), size);
  }

  // ----- Packets in order

  /** The byte index right after the last packet, the message header's `next_byte_idx`. */
  ghost function End(schedule: seq<Delivery>): (n: nat) {
    if schedule == [] then 0
    else schedule[|schedule| - 1].idx + |schedule[|schedule| - 1].bytes|
  }

  ghost function Delivered(schedule: seq<Delivery>): (got: set<nat>) {
    if schedule == [] then {}
    else
      var n := |schedule| - 1;
      Delivered(schedule[..n]) + Span(schedule[n].idx, End(schedule))
  }

  /** Whatever arrives, only delivered bytes are stored: every position counted as received was in
      some packet. */
  lemma {:induction false} GotWasDelivered(schedule: seq<Delivery>, pad: nat, size: nat)
    requires size > 0
    ensures Run(schedule, pad, size).got <= Delivered(schedule)
  {
    if schedule != [] {
      hide DeliverBy;
      var n := |schedule| - 1;
      GotWasDelivered(schedule[..n], pad, size);
      AcceptedWasDelivered(Run(schedule[..n], pad, size), schedule[n], pad, size);
    }
  }

  lemma AcceptedWasDelivered(s: Path, d: Delivery, pad: nat, size: nat)
    requires size > 0
    ensures Deliver(s, d, pad, size).got <= s.got + Span(d.idx, d.idx + |d.bytes|)
  {
    DivMod.CeilBoundary(d.idx, size);
  }

  /** The packet contains the first sample boundary at or after its start. */
  ghost predicate ReachesBoundary(d: Delivery, size: nat)
    requires size > 0
  {
    DivMod.Boundary(DivMod.CeilDiv(d.idx, size), size) <= d.idx + |d.bytes|
  }

  /** Each packet is cut out of the stream, and the sink has room for all of it. */
  ghost predicate Drained(schedule: seq<Delivery>, samples: seq<nat>, pad: nat, size: nat)
    requires size > 0 && Fit(samples, size)
  {
    schedule == [] ||
    var n := |schedule| - 1;
    && Drained(schedule[..n], samples, pad, size)
    && SliceOf(schedule[n], Encode(samples, size))
    && Drains(Run(schedule[..n], pad, size), schedule[n], size)
  }

  lemma {:induction false} DrainedAdmissible(schedule: seq<Delivery>, samples: seq<nat>, pad: nat, size: nat)
    requires size > 0 && Fit(samples, size) && Drained(schedule, samples, pad, size)
    ensures Admissible(schedule, samples, pad, size)
  {
    if schedule != [] {
      hide RunBy, Encode, SliceOf;
      DrainedAdmissible(schedule[..|schedule| - 1], samples, pad, size);
    }
  }

  /** No packet starts before the last one ends. */
  ghost predicate Ordered(schedule: seq<Delivery>) {
    schedule == [] ||
    var n := |schedule| - 1;
    Ordered(schedule[..n]) && End(schedule[..n]) <= schedule[n].idx
  }

  /** After a drained packet that is not late, the padder expects the byte right after it
      exactly when nothing was missing before it or the packet reaches a sample boundary.
      Otherwise the padder has skipped past the packet's end, and the next packet of the
      stream is dropped whole as if it were late. */
  lemma InStepIff(s: Path, d: Delivery, pad: nat, size: nat)
    requires size > 0 && |s.padder.partial| < size && Drains(s, d, size) && s.padder.cur <= d.idx
    ensures Deliver(s, d, pad, size).padder.cur == d.idx + |d.bytes|
            <==> d.idx == s.padder.cur || ReachesBoundary(d, size)
  {
    DrainedReaches(s, d, pad, size);
    DivMod.CeilBoundary(d.idx, size);
  }

  ghost predicate Contiguous(schedule: seq<Delivery>) {
    schedule == [] ||
    var n := |schedule| - 1;
    Contiguous(schedule[..n]) && schedule[n].idx == End(schedule[..n])
  }

  /** Drained packets that follow each other without a gap are stored completely. */
  lemma {:induction false} ContiguousStores(schedule: seq<Delivery>, samples: seq<nat>, pad: nat, size: nat)
    requires size > 0 && Fit(samples, size) && Drained(schedule, samples, pad, size) && Contiguous(schedule)
    ensures var s := Run(schedule, pad, size);
            s.padder.cur == End(schedule) && s.got == Span(0, End(schedule))
  {
    if schedule != [] {
      var n := |schedule| - 1;
      hide DeliverBy, Drains, Encode, SliceOf;
      ContiguousStores(schedule[..n], samples, pad, size);
      OutCount(REPAIRED, schedule[..n], pad, size);
      RunCounted(REPAIRED, schedule[..n], pad, size);
      NextStores(Run(schedule[..n], pad, size), schedule[n], pad, size);
    }
  }

  lemma NextStores(s: Path, d: Delivery, pad: nat, size: nat)
    requires |s.padder.partial| < size && Drains(s, d, size) && d.idx == s.padder.cur
    ensures var s' := Deliver(s, d, pad, size);
            s'.padder.cur == d.idx + |d.bytes| && s'.got == s.got + Span(d.idx, d.idx + |d.bytes|)
  {
    DrainedReaches(s, d, pad, size);
  }

  /** Lossless round trip: however the stream is cut, what comes out is what went in. */
  lemma Lossless(schedule: seq<Delivery>, samples: seq<nat>, pad: nat, size: nat)
    requires size > 0 && Fit(samples, size)
    requires Drained(schedule, samples, pad, size) && Contiguous(schedule)
    ensures Run(schedule, pad, size).out <= samples
    ensures DivMod.Boundary(|Run(schedule, pad, size).out|, size) <= End(schedule)
          < DivMod.Boundary(|Run(schedule, pad, size).out| + 1, size)
  {
    hide Run, Drained, Contiguous, Exact, Encode, End, Admissible;
    DrainedAdmissible(schedule, samples, pad, size);
    RunExact(schedule, samples, pad, size);
    ContiguousStores(schedule, samples, pad, size);
    AllCovered(Run(schedule, pad, size), samples, pad, size);
  }

  lemma AllCovered(s: Path, samples: seq<nat>, pad: nat, size: nat)
    requires |s.out| <= |samples| && Aligned(s, size) && Exact(s, samples, pad, size)
    requires s.got == Span(0, s.padder.cur)
    ensures s.out == samples[..|s.out|]
  {
    forall k: nat | k < |s.out| ensures s.out[k] == samples[k] {
      DivMod.BoundaryLe(k, |s.out|, size);
      assert Covered(s.got, k, size);
    }
  }

  // ----- Where the code falls short

  /** A packet that starts before the expected index changes nothing, whatever it carries. */
  lemma LateIgnored(s: Path, d: Delivery, pad: nat, size: nat)
    requires |s.padder.partial| < size && d.idx < s.padder.cur
    ensures Deliver(s, d, pad, size) == s
  {
    var partial := s.padder.partial;
    assert partial + [] == partial;
    assert Span(s.padder.cur, s.padder.cur) == {};
    assert s.out + Repeat(pad, 0) + [] == s.out;
  }

  /** A packet that ends before the sample boundary after its start yields only padding. */
  lemma ShortPacketPads(s: Path, d: Delivery, pad: nat, size: nat)
    requires size > 0 && s.padder.cur < d.idx && !ReachesBoundary(d, size) && TakesPadding(s, d, size)
    ensures var s' := Deliver(s, d, pad, size);
            && s'.padder == Padder(Resume(s.padder.cur, d.idx, size), [])
            && s'.out == s.out + Repeat(pad, Gap(s.padder.cur, d.idx, size))
  {
    DivMod.CeilBoundary(d.idx, size);
  }

  /** A late packet that reaches past the expected index can cost a sample all of whose bytes were
      delivered (`LossLocality.LocalIff` says when). Byte 0 of a stream of 3-byte samples is lost;
      the one-byte packet [1, 2) makes the padder skip to byte 3, so the packet [2, 6), which
      holds all of sample 1, is dropped whole, and the next packet pads in its place. */
  lemma TinyPacketEvictsNext(stream: seq<Byte>)
    requires |stream| == 8
    ensures var d0, d1, d2 := Delivery(1, stream[1..2], 9), Delivery(2, stream[2..6], 9), Delivery(7, stream[7..8], 9);
            && Run([d0, d1], 7, 3).padder == Padder(3, []) && Run([d0, d1], 7, 3).out == [7]
            && Run([d0, d1, d2], 7, 3).out == [7, 7, 7]
            && Covered(Delivered([d0, d1, d2]), 1, 3)
  {
    hide DeliverBy;
    var d0, d1, d2 := Delivery(1, stream[1..2], 9), Delivery(2, stream[2..6], 9), Delivery(7, stream[7..8], 9);
    RunSnoc(REPAIRED, [], d0, 7, 3);
    RunSnoc(REPAIRED, [d0], d1, 7, 3);
    RunSnoc(REPAIRED, [d0, d1], d2, 7, 3);
    assert [] + [d0] == [d0] && [d0] + [d1] == [d0, d1] && [d0, d1] + [d2] == [d0, d1, d2];
    var start := Path(FRESH, [], {});
    assert Run([], 7, 3) == start;
    hide RunBy;
    ShortPads(start, d0, 0, 1, 1, 7, 3);
    LateIgnored(Run([d0], 7, 3), d1, 7, 3);
    ShortPads(Run([d0, d1], 7, 3), d2, 1, 2, 3, 7, 3);
    DeliveredSecond(d0, d1, d2);
  }

  /** A short packet in block `k - 1` after a gap that starts at the boundary of block `n`. */
  lemma ShortPads(s: Path, d: Delivery, n: nat, gap: nat, k: nat, pad: nat, size: nat)
    requires size > 0 && s.padder == Padder(DivMod.Boundary(n, size), []) && n + gap == k && gap <= d.limit && k > 0
    requires DivMod.Boundary(k - 1, size) < d.idx && d.idx + |d.bytes| < DivMod.Boundary(k, size) && n < k
    ensures var s' := Deliver(s, d, pad, size);
            s'.padder == Padder(DivMod.Boundary(k, size), []) && s'.out == s.out + Repeat(pad, gap)
  {
    hide DeliverBy;
    DivMod.BoundaryLe(n, k - 1, size);
    CeilIs(d.idx, k, size);
    DivMod.InBlock(s.padder.cur, size, n);
    ShortPacketPads(s, d, pad, size);
  }

  lemma CeilIs(x: nat, k: nat, size: nat)
    requires size > 0 && k > 0 && DivMod.Boundary(k - 1, size) < x <= DivMod.Boundary(k, size)
    ensures DivMod.CeilDiv(x, size) == k
  {
    var c := DivMod.CeilDiv(x, size);
    DivMod.CeilBoundary(x, size);
    if c < k {
      DivMod.BoundaryLe(c, k - 1, size);
    } else if k < c {
      DivMod.BoundaryLe(k, c, size);
    }
  }

  lemma DeliveredSecond(d0: Delivery, d1: Delivery, d2: Delivery)
    requires d1.idx == 2 && |d1.bytes| == 4
    ensures Covered(Delivered([d0, d1, d2]), 1, 3)
  {
    assert [d0, d1, d2][..2] == [d0, d1];
    assert DivMod.Boundary(1, 3) == 3;
  }

  /** The code as written panics on a packet exactly when the sink has room beyond the padding
      and the packet completes a sample; all it ever emits is padding. A packet on which it does
      not panic goes as it would with the buffer read whole. */
  lemma AsWrittenOutcome(p: Padder, idx: nat, bytes: seq<Byte>, limit: nat, pad: nat, size: nat)
    requires WellFormed(p, size)
    ensures var plan := PlanFor(AS_WRITTEN, p, idx, bytes, size);
            var f := Feed(AS_WRITTEN, p, idx, bytes, limit, pad, size);
            && (f.panicked <==> plan.gap < limit && size <= |plan.carried| + |plan.kept|)
            && f.out == Repeat(pad, Min(limit, plan.gap))
            && (!f.panicked ==> f == Feed(Build(false, true), p, idx, bytes, limit, pad, size))
  {
    var plan := PlanFor(AS_WRITTEN, p, idx, bytes, size);
    ResumeAligned(p, idx, size);
    assert DivMod.Boundary(1, size) == size;
    assert Pulled(|plan.carried|, |plan.kept|, Quota(AS_WRITTEN, limit, plan.gap), size)
        == if plan.gap < limit then Min(|plan.kept|, size - |plan.carried|) else 0;
  }

  /** The first sample of a lossless stream already panics. */
  lemma FirstSamplePanics(b: Byte, pad: nat)
    ensures Feed(AS_WRITTEN, FRESH, 0, [b], 1, pad, 1).panicked
  {
    AsWrittenOutcome(FRESH, 0, [b], 1, pad, 1);
  }
}

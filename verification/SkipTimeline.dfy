/** Exactly when the padder with line 122 as written keeps the timeline. Packets may be lost,
    duplicated and reordered, none of their padding is refused, and the stream may be any: the
    question is which schedules are harmless for all streams. */
module SkipTimeline {
  import opened Common
  import opened SampleCodec
  import opened ByteConsumer
  import opened LossyPath
  import opened PacketLoss
  import opened SkipAsWritten
  import opened Recutting
  import DivMod

  /** By how much the first byte of the incomplete sample is displaced after a packet that moved the
      padder from `cur` to `cur'`: by the length of the gap if the packet followed one, and as
      before while the same sample is incomplete. */
  ghost function NextOff(cur: nat, off: nat, d: Delivery, cur': nat, size: nat): (off': nat)
    requires size > 0
  {
    if cur < d.idx then (if cur' % size == 0 then 0 else d.idx - cur)
    else if cur / size == cur' / size then off else 0
  }

  ghost function Off(schedule: seq<Delivery>, pad: nat, size: nat): (off: nat)
    requires size > 0
  {
    if schedule == [] then 0
    else
      var n := |schedule| - 1;
      NextOff(RunBy(SKIP_FROM_OLD, schedule[..n], pad, size).padder.cur, Off(schedule[..n], pad, size), schedule[n],
              RunBy(SKIP_FROM_OLD, schedule, pad, size).padder.cur, size)
  }

  /** A packet after a gap ends, counted from the old expected index, before the sample after the
      padding does; or the sink is full by then. */
  ghost predicate ShortAfterGap(cur: nat, d: Delivery, size: nat)
    requires size > 0
  {
    cur < d.idx ==>
      d.limit <= Gap(cur, d.idx, size) || cur + |d.bytes| < Resume(cur, d.idx, size) + size
  }

  /** A packet at the expected index does not complete an incomplete sample that is displaced. */
  ghost predicate LeavesIncomplete(cur: nat, off: nat, d: Delivery, size: nat)
    requires size > 0
  {
    d.idx == cur && off > 0 ==> d.limit == 0 || cur % size + |d.bytes| < size
  }

  ghost predicate Harmless(cur: nat, off: nat, d: Delivery, size: nat)
    requires size > 0
  {
    ShortAfterGap(cur, d, size) && LeavesIncomplete(cur, off, d, size)
  }

  ghost predicate AllHarmless(schedule: seq<Delivery>, pad: nat, size: nat)
    requires size > 0
  {
    schedule == [] ||
    var n := |schedule| - 1;
    && AllHarmless(schedule[..n], pad, size)
    && Harmless(RunBy(SKIP_FROM_OLD, schedule[..n], pad, size).padder.cur, Off(schedule[..n], pad, size), schedule[n], size)
  }

  // ----- Harmless packets keep the timeline

  /** Every sample out is the stream's own at its position, or padding. */
  ghost predicate Timely(out: seq<nat>, samples: seq<nat>, pad: nat) {
    && |out| <= |samples|
    && forall k :: 0 <= k < |out| ==> out[k] == pad || out[k] == samples[k]
  }

  /** The incomplete sample is the stream's own, or its first byte is displaced by `off`. */
  ghost predicate Settled(s: Path, off: nat, samples: seq<nat>, size: nat)
    requires Fit(samples, size)
  {
    var p, stream, at := s.padder, Encode(samples, size), DivMod.Boundary(|s.out|, size) + off;
    && Aligned(s, size) && p.cur <= |stream|
    && (off == 0 ==> p.partial == stream[p.cur - |p.partial|..p.cur])
    && (off > 0 ==> p.partial != [] && at < |stream| && p.partial[0] == stream[at])
  }

  lemma LateStep(s: Path, d: Delivery, pad: nat, size: nat)
    requires |s.padder.partial| < size && d.idx < s.padder.cur
    ensures DeliverBy(SKIP_FROM_OLD, s, d, pad, size) == s
  {
    LateIgnored(s, d, pad, size);
  }

  lemma NextStep(s: Path, d: Delivery, samples: seq<nat>, pad: nat, size: nat)
    requires size > 0 && Fit(samples, size) && Held(s, samples, size) && Timely(s.out, samples, pad)
    requires SliceOf(d, Encode(samples, size)) && d.idx == s.padder.cur
    ensures var s' := DeliverBy(SKIP_FROM_OLD, s, d, pad, size);
            Held(s', samples, size) && Timely(s'.out, samples, pad)
  {
    hide DeliverBy, Encode, Effect;
    NextIsSame(s, d, pad, size);
    var gap, from, whole := DeliverEffect(s, d, samples, pad, size);
    WholeIsTimely(s, Deliver(s, d, pad, size), samples, pad, size, from, whole);
  }

  /** A packet at the expected index is treated alike in both builds. */
  lemma NextIsSame(s: Path, d: Delivery, pad: nat, size: nat)
    requires size > 0 && d.idx == s.padder.cur
    ensures DeliverBy(SKIP_FROM_OLD, s, d, pad, size) == Deliver(s, d, pad, size)
  {
  }

  lemma WholeIsTimely(s: Path, s': Path, samples: seq<nat>, pad: nat, size: nat, from: nat, whole: seq<nat>)
    requires Effect(s, s', samples, pad, size, 0, from, from, whole) && Timely(s.out, samples, pad)
    ensures Timely(s'.out, samples, pad)
  {
    assert whole == samples[|s.out|..][..|whole|];
  }

  /** A packet that leaves the displaced sample incomplete. */
  lemma HoldStep(s: Path, d: Delivery, pad: nat, size: nat)
    requires Aligned(s, size) && s.padder.partial != [] && d.idx == s.padder.cur
    requires d.limit == 0 || |s.padder.partial| + |d.bytes| < size
    ensures var s' := DeliverBy(SKIP_FROM_OLD, s, d, pad, size);
            && s'.out == s.out && |s'.padder.partial| < size
            && s'.padder.cur <= d.idx + |d.bytes| && s'.padder.cur / size == s.padder.cur / size
            && s'.padder.partial != [] && s'.padder.partial[0] == s.padder.partial[0]
  {
    var s' := DeliverBy(SKIP_FROM_OLD, s, d, pad, size);
    DivMod.InBlock(s.padder.cur, size, |s.out|);
    var plan := PlanFor(SKIP_FROM_OLD, s.padder, d.idx, d.bytes, size);
    var n := Pulled(|plan.carried|, |plan.kept|, Quota(SKIP_FROM_OLD, d.limit, 0), size);
    assert |plan.carried + plan.kept[..n]| < size;
    assert s'.padder == Padder(s.padder.cur + n, s.padder.partial + plan.kept[..n]);
    DivMod.InBlock(s'.padder.cur, size, |s.out|);
  }

  lemma GapStep(s: Path, d: Delivery, samples: seq<nat>, pad: nat, size: nat)
    requires size > 0 && Fit(samples, size) && Aligned(s, size) && s.padder.cur <= |Encode(samples, size)|
    requires SliceOf(d, Encode(samples, size)) && s.padder.cur < d.idx
    requires TakesPadding(s, d, size) && ShortAfterGap(s.padder.cur, d, size)
    ensures var s' := DeliverBy(SKIP_FROM_OLD, s, d, pad, size);
            && s'.out == s.out + Repeat(pad, Gap(s.padder.cur, d.idx, size)) && |s'.out| <= |samples|
            && Settled(s', NextOff(s.padder.cur, 0, d, s'.padder.cur, size), samples, size)
  {
    hide DeliverBy, Encode;
    ResumeInStream(s, d, samples, size);
    var n, piece := GapEffect(s, d, Encode(samples, size), pad, size);
    assert n < size;
    var s' := DeliverBy(SKIP_FROM_OLD, s, d, pad, size);
    assert Rest(piece, size) == piece && Whole(piece, size) == [];
    hide Resume, Gap, KeptLength, ByteConsumer.Pulled, Whole, Rest;
    DivMod.InBlock(s'.padder.cur, size, |s'.out|);
  }

  lemma SettledStep(s: Path, d: Delivery, off: nat, samples: seq<nat>, pad: nat, size: nat)
    requires size > 0 && Fit(samples, size) && Settled(s, off, samples, size) && Timely(s.out, samples, pad)
    requires SliceOf(d, Encode(samples, size))
    requires TakesPadding(s, d, size) && Harmless(s.padder.cur, off, d, size)
    ensures var s' := DeliverBy(SKIP_FROM_OLD, s, d, pad, size);
            && Settled(s', NextOff(s.padder.cur, off, d, s'.padder.cur, size), samples, size)
            && Timely(s'.out, samples, pad)
  {
    hide DeliverBy, Encode, ShortAfterGap, TakesPadding;
    if d.idx < s.padder.cur {
      LateStep(s, d, pad, size);
    } else if s.padder.cur < d.idx {
      GapStep(s, d, samples, pad, size);
    } else if off == 0 {
      NextStep(s, d, samples, pad, size);
    } else {
      DivMod.InBlock(s.padder.cur, size, |s.out|);
      HoldStep(s, d, pad, size);
      AlignedIffPaddingTaken(SKIP_FROM_OLD, s, d, 0, pad, size);
    }
  }

  lemma {:induction false} HarmlessKeeps(schedule: seq<Delivery>, samples: seq<nat>, pad: nat, size: nat)
    requires size > 0 && Fit(samples, size) && Within(schedule, Encode(samples, size))
    requires AllHarmless(schedule, pad, size) && Refused(SKIP_FROM_OLD, schedule, pad, size) == 0
    ensures var s := RunBy(SKIP_FROM_OLD, Recut(schedule, Encode(samples, size)), pad, size);
            Settled(s, Off(schedule, pad, size), samples, size) && Timely(s.out, samples, pad)
    decreases |schedule|
  {
    hide Encode, Settled, Timely, Harmless, Refusal, RunBy, Recut, Refused, AllHarmless, Within, Off, NextOff;
    if schedule == [] {
      NoPackets(samples, pad, size);
    } else {
      var before, d := LastPacket(schedule, Encode(samples, size), pad, size);
      HarmlessKeeps(before, samples, pad, size);
      HarmlessLast(before, d, samples, pad, size);
      RecutRun(schedule, Encode(samples, size), pad, size);
    }
  }

  lemma NoPackets(samples: seq<nat>, pad: nat, size: nat)
    requires size > 0 && Fit(samples, size)
    ensures var s := RunBy(SKIP_FROM_OLD, Recut([], Encode(samples, size)), pad, size);
            Settled(s, Off([], pad, size), samples, size) && Timely(s.out, samples, pad)
  {
    hide Encode;
  }

  lemma LastPacket(schedule: seq<Delivery>, stream: seq<Byte>, pad: nat, size: nat) returns (before: seq<Delivery>, d: Delivery)
    requires size > 0 && schedule != [] && Within(schedule, stream)
    requires AllHarmless(schedule, pad, size) && Refused(SKIP_FROM_OLD, schedule, pad, size) == 0
    ensures |before| < |schedule| && Within(before, stream) && AllHarmless(before, pad, size)
    ensures Refused(SKIP_FROM_OLD, before, pad, size) == 0
    ensures d.idx + |d.bytes| <= |stream|
    ensures var cur := RunBy(SKIP_FROM_OLD, before, pad, size).padder.cur;
            && Harmless(cur, Off(before, pad, size), d, size) && Refusal(cur, d, size) == 0
            && Off(schedule, pad, size)
               == NextOff(cur, Off(before, pad, size), d, RunBy(SKIP_FROM_OLD, schedule, pad, size).padder.cur, size)
    ensures Recut(schedule, stream) == Recut(before, stream) + [CutFrom(d, stream)]
  {
    hide Harmless, Refusal, RunBy, CutFrom, NextOff;
    before, d := schedule[..|schedule| - 1], schedule[|schedule| - 1];
  }

  lemma HarmlessLast(before: seq<Delivery>, d: Delivery, samples: seq<nat>, pad: nat, size: nat)
    requires size > 0 && Fit(samples, size)
    requires Within(before, Encode(samples, size)) && d.idx + |d.bytes| <= |Encode(samples, size)|
    requires var cur := RunBy(SKIP_FROM_OLD, before, pad, size).padder.cur;
             Harmless(cur, Off(before, pad, size), d, size) && Refusal(cur, d, size) == 0
    requires var s := RunBy(SKIP_FROM_OLD, Recut(before, Encode(samples, size)), pad, size);
             Settled(s, Off(before, pad, size), samples, size) && Timely(s.out, samples, pad)
    ensures var more := Recut(before, Encode(samples, size)) + [CutFrom(d, Encode(samples, size))];
            var s := RunBy(SKIP_FROM_OLD, more, pad, size);
            var off := NextOff(RunBy(SKIP_FROM_OLD, before, pad, size).padder.cur, Off(before, pad, size), d, s.padder.cur, size);
            Settled(s, off, samples, size) && Timely(s.out, samples, pad)
  {
    hide DeliverBy, RunBy, Encode, Harmless, TakesPadding, Settled, Timely, Refusal, Recut, Off;
    var recut, d' := Recut(before, Encode(samples, size)), CutFrom(d, Encode(samples, size));
    var s := RunBy(SKIP_FROM_OLD, recut, pad, size);
    RecutRun(before, Encode(samples, size), pad, size);
    SameFate(s, Off(before, pad, size), d, d', size);
    SettledStep(s, d', Off(before, pad, size), samples, pad, size);
    RunSnoc(SKIP_FROM_OLD, recut, d', pad, size);
  }

  lemma SameFate(s: Path, off: nat, d: Delivery, d': Delivery, size: nat)
    requires size > 0 && d'.idx == d.idx && d'.limit == d.limit && |d'.bytes| == |d.bytes|
    ensures Harmless(s.padder.cur, off, d, size) <==> Harmless(s.padder.cur, off, d', size)
    ensures Refusal(s.padder.cur, d, size) == 0 ==> TakesPadding(s, d', size)
  {
  }

  // ----- A harmful packet breaks it for some stream

  /** The first harmful packet. */
  lemma {:induction false} FirstHarmful(schedule: seq<Delivery>, pad: nat, size: nat) returns (i: nat)
    requires size > 0 && !AllHarmless(schedule, pad, size)
    ensures i < |schedule| && AllHarmless(schedule[..i], pad, size)
    ensures !Harmless(RunBy(SKIP_FROM_OLD, schedule[..i], pad, size).padder.cur, Off(schedule[..i], pad, size), schedule[i], size)
  {
    hide RunBy, Harmless, Off;
    var n := |schedule| - 1;
    if AllHarmless(schedule[..n], pad, size) {
      i := n;
    } else {
      i := FirstHarmful(schedule[..n], pad, size);
      assert schedule[..n][..i] == schedule[..i];
    }
  }

  /** Sample `k` out, with bytes `w`, is not the stream's own at its position:
      its first byte comes from position `q`, further on in the stream. */
  ghost predicate Misplaced(out: seq<nat>, stream: seq<Byte>, q: nat, size: nat, k: nat, w: seq<Byte>) {
    && k < |out| && DivMod.Boundary(k, size) < q < |stream|
    && 0 < size == |w| && w[0] == stream[q] && out[k] == FromBytes(w)
  }

  /** Where the first byte of the sample comes from that a harmful packet emits in a wrong place. */
  ghost function Source(cur: nat, off: nat, d: Delivery, size: nat): (q: nat)
    requires size > 0
  {
    if cur < d.idx then Resume(cur, d.idx, size) + (d.idx - cur)
    else DivMod.DivLe(0, cur, size); DivMod.Boundary(cur / size, size) + off
  }

  /** A long packet after a gap. */
  lemma LongEmits(s: Path, d: Delivery, stream: seq<Byte>, pad: nat, size: nat) returns (k: nat, w: seq<Byte>)
    requires size > 0 && Aligned(s, size) && SliceOf(d, stream)
    requires TakesPadding(s, d, size) && !ShortAfterGap(s.padder.cur, d, size)
    ensures s.padder.cur < d.idx
    ensures Misplaced(DeliverBy(SKIP_FROM_OLD, s, d, pad, size).out, stream, Source(s.padder.cur, 0, d, size), size, k, w)
  {
    hide DeliverBy, FromBytes;
    k := |s.out| + Gap(s.padder.cur, d.idx, size);
    ResumeBlocks(s.padder.cur, d.idx, |s.out|, |s.padder.partial|, size);
    LongPulls(s.padder.cur, d, size);
    hide Resume, ShortAfterGap, KeptLength, ByteConsumer.Pulled;
    var n, piece := GapEffect(s, d, stream, pad, size);
    w := piece[..size];
    assert Whole(piece, size)[0] == FromBytes(w);
  }

  /** It completes at least one sample. */
  lemma LongPulls(cur: nat, d: Delivery, size: nat)
    requires size > 0 && !ShortAfterGap(cur, d, size)
    ensures cur < d.idx && Gap(cur, d.idx, size) < d.limit
    ensures size <= Pulled(0, KeptLength(cur, d, size), d.limit - Gap(cur, d.idx, size), size)
  {
    GapPositive(cur, d.idx, size);
    DivMod.BoundaryLe(1, d.limit - Gap(cur, d.idx, size), size);
    assert DivMod.Boundary(1, size) == size;
  }

  /** A packet that completes a displaced sample. */
  lemma CompletionEmits(s: Path, d: Delivery, off: nat, samples: seq<nat>, pad: nat, size: nat)
    returns (k: nat, w: seq<Byte>)
    requires size > 0 && Fit(samples, size) && Settled(s, off, samples, size)
    requires !LeavesIncomplete(s.padder.cur, off, d, size)
    ensures Misplaced(DeliverBy(SKIP_FROM_OLD, s, d, pad, size).out, Encode(samples, size),
                      Source(s.padder.cur, off, d, size), size, k, w)
  {
    hide Encode, FromBytes;
    DivMod.InBlock(s.padder.cur, size, |s.out|);
    DivMod.BoundaryLe(1, d.limit, size);
    var plan := PlanFor(SKIP_FROM_OLD, s.padder, d.idx, d.bytes, size);
    var n := Pulled(|plan.carried|, |plan.kept|, Quota(SKIP_FROM_OLD, d.limit, 0), size);
    var taken := plan.carried + plan.kept[..n];
    assert DivMod.Boundary(1, size) == size <= |taken|;
    k, w := |s.out|, taken[..size];
    assert Whole(taken, size)[0] == FromBytes(w);
  }

  /** The harmful packet comes last. */
  lemma HarmfulLast(before: seq<Delivery>, d: Delivery, samples: seq<nat>, pad: nat, size: nat) returns (k: nat, w: seq<Byte>)
    requires size > 0 && Fit(samples, size)
    requires Within(before, Encode(samples, size)) && d.idx + |d.bytes| <= |Encode(samples, size)|
    requires var cur := RunBy(SKIP_FROM_OLD, before, pad, size).padder.cur;
             !Harmless(cur, Off(before, pad, size), d, size) && Refusal(cur, d, size) == 0
    requires Settled(RunBy(SKIP_FROM_OLD, Recut(before, Encode(samples, size)), pad, size), Off(before, pad, size), samples, size)
    ensures var s' := RunBy(SKIP_FROM_OLD, Recut(before, Encode(samples, size)) + [CutFrom(d, Encode(samples, size))], pad, size);
            var q := Source(RunBy(SKIP_FROM_OLD, before, pad, size).padder.cur, Off(before, pad, size), d, size);
            Misplaced(s'.out, Encode(samples, size), q, size, k, w)
  {
    var stream, off := Encode(samples, size), Off(before, pad, size);
    hide DeliverBy, RunBy, Encode, ShortAfterGap, LeavesIncomplete, TakesPadding, Refusal, Recut, Off, Misplaced;
    var recut, d' := Recut(before, stream), CutFrom(d, stream);
    var s := RunBy(SKIP_FROM_OLD, recut, pad, size);
    RecutRun(before, stream, pad, size);
    SameFate(s, off, d, d', size);
    RunSnoc(SKIP_FROM_OLD, recut, d', pad, size);
    if ShortAfterGap(s.padder.cur, d', size) {
      k, w := CompletionEmits(s, d', off, samples, pad, size);
    } else {
      k, w := LongEmits(s, d', stream, pad, size);
    }
    SameSource(s.padder.cur, off, d, d', size);
  }

  lemma SameSource(cur: nat, off: nat, d: Delivery, d': Delivery, size: nat)
    requires size > 0 && d'.idx == d.idx
    ensures Source(cur, off, d, size) == Source(cur, off, d', size)
    ensures cur < d.idx ==> Source(cur, 0, d', size) == Source(cur, off, d, size)
  {
  }

  /** Where packet `i` takes the first byte of a misplaced sample from. */
  ghost function SourceAt(schedule: seq<Delivery>, i: nat, pad: nat, size: nat): (q: nat)
    requires size > 0 && i < |schedule|
  {
    Source(RunBy(SKIP_FROM_OLD, schedule[..i], pad, size).padder.cur, Off(schedule[..i], pad, size), schedule[i], size)
  }

  lemma HarmfulRun(schedule: seq<Delivery>, i: nat, samples: seq<nat>, pad: nat, size: nat) returns (k: nat, w: seq<Byte>)
    requires size > 0 && i < |schedule| && Carries(samples, schedule, size)
    requires Refused(SKIP_FROM_OLD, schedule, pad, size) == 0 && AllHarmless(schedule[..i], pad, size)
    requires !Harmless(RunBy(SKIP_FROM_OLD, schedule[..i], pad, size).padder.cur, Off(schedule[..i], pad, size), schedule[i], size)
    ensures Misplaced(RunBy(SKIP_FROM_OLD, Recut(schedule, Encode(samples, size)), pad, size).out, Encode(samples, size),
                      SourceAt(schedule, i, pad, size), size, k, w)
  {
    hide RunBy, Harmless, Refusal, FromBytes, Encode, Off, AllHarmless, Settled, Source;
    var before, d, upto := schedule[..i], schedule[i], schedule[..i + 1];
    assert upto[..|upto| - 1] == before && upto[|upto| - 1] == d;
    RefusedPrefix(SKIP_FROM_OLD, schedule, i + 1, pad, size);
    HarmlessKeeps(before, samples, pad, size);
    k, w := HarmfulLast(before, d, samples, pad, size);
    OutGrows(schedule, i + 1, Encode(samples, size), pad, size);
  }

  /** All bytes are zero but one. */
  ghost function Mark(length: nat, q: nat, x: Byte): (stream: seq<Byte>) {
    seq(length, i => if i == q then x else 0)
  }

  /** In a stream whose only byte that is not zero is the first one of the misplaced sample, that
      sample is wrong, unless it happens to be the padding value. */
  lemma MarkedBreaks(out: seq<nat>, stream: seq<Byte>, q: nat, x: Byte, k: nat, w: seq<Byte>, pad: nat, size: nat)
    requires x > 0 && stream == Mark(|stream|, q, x) && Misplaced(out, stream, q, size, k, w)
    ensures FromBytes(w) != pad ==> !Timely(out, Whole(stream, size), pad)
  {
    hide FromBytes, Whole;
    if k < |Whole(stream, size)| {
      WholeAt(stream, size, k);
      var own := stream[DivMod.Boundary(k, size)..DivMod.Boundary(k, size) + size];
      assert own[0] == 0 && w[0] == x;
      if FromBytes(own) == FromBytes(w) {
        FromBytesInjective(own, w);
      }
    }
  }

  /** The packets can be cut out of the stream of these samples. */
  ghost predicate Carries(samples: seq<nat>, schedule: seq<Delivery>, size: nat) {
    Fit(samples, size) && Within(schedule, Encode(samples, size))
  }

  ghost predicate KeepsTimeline(samples: seq<nat>, schedule: seq<Delivery>, pad: nat, size: nat)
    requires size > 0 && Carries(samples, schedule, size)
  {
    Timely(RunBy(SKIP_FROM_OLD, Recut(schedule, Encode(samples, size)), pad, size).out, samples, pad)
  }

  /** How far the packets reach. */
  ghost function Reach(schedule: seq<Delivery>): (end: nat)
    ensures forall i :: 0 <= i < |schedule| ==> schedule[i].idx + |schedule[i].bytes| <= end
  {
    if schedule == [] then 0
    else
      var n := |schedule| - 1;
      var end := schedule[n].idx + |schedule[n].bytes|;
      if end < Reach(schedule[..n]) then Reach(schedule[..n]) else end
  }

  /** The marked stream, long enough for all packets, as samples. */
  lemma MarkedSamples(schedule: seq<Delivery>, q: nat, x: Byte, size: nat) returns (samples: seq<nat>, stream: seq<Byte>)
    requires size > 0
    ensures stream == Mark(|stream|, q, x) && samples == Whole(stream, size)
    ensures Carries(samples, schedule, size) && Encode(samples, size) == stream
  {
    var c := DivMod.CeilDiv(Reach(schedule), size);
    DivMod.CeilBoundary(Reach(schedule), size);
    stream := Mark(DivMod.Boundary(c, size), q, x);
    samples := Whole(stream, size);
    BlocksEncode(stream, c, size);
  }

  /** Bytes in whole blocks are the encoding of the samples they cut into. */
  lemma BlocksEncode(bytes: seq<Byte>, c: nat, size: nat)
    requires size > 0 && |bytes| == DivMod.Boundary(c, size)
    ensures Fit(Whole(bytes, size), size) && Encode(Whole(bytes, size), size) == bytes
  {
    EncodeWhole(bytes, size);
    WholeLength(bytes, size);
    DivMod.InBlock(|bytes|, size, c);
    DivMod.InBlock(|bytes|, size, |Whole(bytes, size)|);
    assert Rest(bytes, size) == [];
  }

  lemma HarmfulBreaks(schedule: seq<Delivery>, pad: nat, size: nat) returns (samples: seq<nat>)
    requires size > 0 && Refused(SKIP_FROM_OLD, schedule, pad, size) == 0
    requires !AllHarmless(schedule, pad, size)
    ensures Carries(samples, schedule, size) && !KeepsTimeline(samples, schedule, pad, size)
  {
    hide RunBy, Harmless, Refused, Recut, FromBytes, Whole, Encode, Timely, AllHarmless, Off, SourceAt, Carries, Mark;
    var i := FirstHarmful(schedule, pad, size);
    var q := SourceAt(schedule, i, pad, size);
    var one, stream1 := MarkedSamples(schedule, q, 1, size);
    var k, w := HarmfulRun(schedule, i, one, pad, size);
    MarkedBreaks(RunBy(SKIP_FROM_OLD, Recut(schedule, stream1), pad, size).out, stream1, q, 1, k, w, pad, size);
    samples := one;
    if FromBytes(w) == pad {
      var two, stream2 := MarkedSamples(schedule, q, 2, size);
      var k', w' := HarmfulRun(schedule, i, two, pad, size);
      MarkedBreaks(RunBy(SKIP_FROM_OLD, Recut(schedule, stream2), pad, size).out, stream2, q, 2, k', w', pad, size);
      DifferentMarks(stream1, stream2, q, w, w', size);
      samples := two;
    }
  }

  lemma DifferentMarks(one: seq<Byte>, two: seq<Byte>, q: nat, w: seq<Byte>, w': seq<Byte>, size: nat)
    requires one == Mark(|one|, q, 1) && two == Mark(|two|, q, 2) && q < |one| && q < |two|
    requires 0 < size == |w| == |w'| && w[0] == one[q] && w'[0] == two[q]
    ensures FromBytes(w) != FromBytes(w')
  {
    if FromBytes(w) == FromBytes(w') {
      FromBytesInjective(w, w');
    }
  }

  /** The timeline under line 122 as written, for packets lost, duplicated and reordered at will
      into a sink that takes their padding: the samples out are those of the stream at their
      position, or padding, for every stream the packets may be cut from, exactly when no packet
      that follows a gap reaches past the first sample after its padding, counted from the old
      index, and none completes a sample begun by such a packet. */
  lemma TimelineIff(schedule: seq<Delivery>, pad: nat, size: nat)
    requires size > 0 && Refused(SKIP_FROM_OLD, schedule, pad, size) == 0
    ensures (forall samples :: Carries(samples, schedule, size) ==> KeepsTimeline(samples, schedule, pad, size))
            <==> AllHarmless(schedule, pad, size)
  {
    hide RunBy, Refused, Recut, AllHarmless, Timely, Encode;
    if AllHarmless(schedule, pad, size) {
      forall samples | Carries(samples, schedule, size) ensures KeepsTimeline(samples, schedule, pad, size) {
        HarmlessKeeps(schedule, samples, pad, size);
      }
    } else {
      var samples := HarmfulBreaks(schedule, pad, size);
    }
  }

  // ----- Packets of one producer

  ghost predicate AllShort(schedule: seq<Delivery>, pad: nat, size: nat)
    requires size > 0
  {
    schedule == [] ||
    var n := |schedule| - 1;
    && AllShort(schedule[..n], pad, size)
    && ShortAfterGap(RunBy(SKIP_FROM_OLD, schedule[..n], pad, size).padder.cur, schedule[n], size)
  }

  /** Position `q` is inside some packet, not at its start. */
  ghost predicate Inside(schedule: seq<Delivery>, q: nat) {
    exists i :: 0 <= i < |schedule| && schedule[i].idx < q < schedule[i].idx + |schedule[i].bytes|
  }

  /** No packet starts inside another, as with packets cut one after the other from one stream and
      then lost, duplicated and reordered. */
  ghost predicate Disjoint(schedule: seq<Delivery>) {
    forall i :: 0 <= i < |schedule| ==> !Inside(schedule, schedule[i].idx)
  }

  /** Where a packet after a gap leaves the padder: at a boundary, or inside the packet. */
  lemma GapCur(s: Path, d: Delivery, pad: nat, size: nat)
    requires size > 0 && s.padder.cur < d.idx
    ensures var cur' := DeliverBy(SKIP_FROM_OLD, s, d, pad, size).padder.cur;
            cur' % size == 0 || d.idx < cur' < d.idx + |d.bytes|
  {
    GapPositive(s.padder.cur, d.idx, size);
    DivMod.CeilBoundary(d.idx, size);
    DivMod.InBlock(Resume(s.padder.cur, d.idx, size), size, DivMod.CeilDiv(d.idx, size));
  }

  /** A displaced sample is incomplete at a position inside a packet that has arrived. */
  lemma OffInside(schedule: seq<Delivery>, before: seq<Delivery>, d: Delivery, pad: nat, size: nat)
    requires size > 0 && schedule == before + [d]
    requires Off(before, pad, size) > 0 ==> Inside(before, RunBy(SKIP_FROM_OLD, before, pad, size).padder.cur)
    requires Off(before, pad, size) > 0 ==> RunBy(SKIP_FROM_OLD, before, pad, size).padder.cur != d.idx
    ensures Off(schedule, pad, size) > 0 ==> Inside(schedule, RunBy(SKIP_FROM_OLD, schedule, pad, size).padder.cur)
  {
    var s := RunBy(SKIP_FROM_OLD, before, pad, size);
    assert schedule[..|schedule| - 1] == before && schedule[|schedule| - 1] == d;
    RunSnoc(SKIP_FROM_OLD, before, d, pad, size);
    hide DeliverBy, RunBy;
    if s.padder.cur < d.idx {
      GapCur(s, d, pad, size);
    } else if Off(before, pad, size) > 0 {
      RunCounted(SKIP_FROM_OLD, before, pad, size);
      LateStep(s, d, pad, size);
      var i :| 0 <= i < |before| && before[i].idx < s.padder.cur < before[i].idx + |before[i].bytes|;
      assert schedule[i] == before[i];
    }
  }

  /** Of such packets none completes a displaced sample, in whatever order they arrive. So the
      condition is about packets after a gap alone. */
  lemma {:induction false} DisjointHarmless(schedule: seq<Delivery>, pad: nat, size: nat)
    requires size > 0 && Disjoint(schedule)
    ensures Off(schedule, pad, size) > 0 ==> Inside(schedule, RunBy(SKIP_FROM_OLD, schedule, pad, size).padder.cur)
    ensures AllHarmless(schedule, pad, size) <==> AllShort(schedule, pad, size)
  {
    if schedule != [] {
      var before, d := schedule[..|schedule| - 1], schedule[|schedule| - 1];
      hide RunBy, ShortAfterGap, Off;
      assert schedule == before + [d];
      DisjointInit(schedule, before, d, RunBy(SKIP_FROM_OLD, before, pad, size).padder.cur);
      hide Inside, Disjoint;
      DisjointHarmless(before, pad, size);
      OffInside(schedule, before, d, pad, size);
    }
  }

  lemma DisjointInit(schedule: seq<Delivery>, before: seq<Delivery>, d: Delivery, q: nat)
    requires Disjoint(schedule) && schedule == before + [d]
    ensures Disjoint(before) && (Inside(before, q) ==> q != d.idx)
  {
    assert schedule[|before|] == d;
    forall p: nat | Inside(before, p) ensures Inside(schedule, p) {
      var i :| 0 <= i < |before| && before[i].idx < p < before[i].idx + |before[i].bytes|;
      assert schedule[i] == before[i];
    }
    forall i | 0 <= i < |before| ensures !Inside(before, before[i].idx) {
      assert schedule[i] == before[i];
    }
  }

  /** Packets in order are such packets. */
  lemma {:induction false} OrderedDisjoint(schedule: seq<Delivery>)
    requires Ordered(schedule)
    ensures Disjoint(schedule)
    ensures forall i :: 0 <= i < |schedule| ==> schedule[i].idx + |schedule[i].bytes| <= End(schedule)
  {
    if schedule != [] {
      var before, d := schedule[..|schedule| - 1], schedule[|schedule| - 1];
      OrderedDisjoint(before);
      forall i | 0 <= i < |before| ensures schedule[i].idx + |schedule[i].bytes| <= d.idx {
        assert before[i] == schedule[i];
      }
      forall j | 0 <= j < |schedule| ensures !Inside(schedule, schedule[j].idx) {
        if j < |before| {
          assert before[j] == schedule[j] && !Inside(before, before[j].idx);
        }
        forall i | 0 <= i < |before|
          ensures !(schedule[i].idx < schedule[j].idx < schedule[i].idx + |schedule[i].bytes|)
        {
          assert before[i] == schedule[i];
        }
      }
    }
  }

  /** The packet of `SkipAsWritten.FirstByteLost` meets the premises of the theorem and fails its
      condition; a packet of one byte in its place meets both. */
  lemma LostByteIsHarmful(b: Byte, c: Byte, pad: nat)
    ensures var long, short := [Delivery(1, [b, c], 2)], [Delivery(1, [b], 2)];
            && Ordered(long) && Refused(SKIP_FROM_OLD, long, pad, 1) == 0 && !AllHarmless(long, pad, 1)
            && Ordered(short) && Refused(SKIP_FROM_OLD, short, pad, 1) == 0 && AllHarmless(short, pad, 1)
  {
    OnlyPacket(Delivery(1, [b, c], 2), pad, 1);
    OnlyPacket(Delivery(1, [b], 2), pad, 1);
    OneLost(0, Delivery(1, [b, c], 2), 1);
  }

  lemma OnlyPacket(d: Delivery, pad: nat, size: nat)
    requires size > 0
    ensures Ordered([d])
    ensures Refused(SKIP_FROM_OLD, [d], pad, size) == Refusal(0, d, size)
    ensures AllHarmless([d], pad, size) <==> ShortAfterGap(0, d, size)
  {
    hide Refusal, ShortAfterGap, DeliverBy;
    assert [d][..0] == [];
  }
}

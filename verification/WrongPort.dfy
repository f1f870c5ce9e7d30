/** A full playback ring makes a port play another port's sample. Two ports, one byte per sample, a
    ring of two slots: the packet with frame 0 fills the ring; byte 2 is lost, and the packet with
    byte 3 finds no room for the one padding sample; when it comes again after the cycle, its
    sample takes the place of the one that was lost. */
module WrongPort {
  import DivMod
  import opened SampleCodec
  import opened ByteConsumer
  import opened LossyPath
  import RefusedPadding
  import PlaybackSide
  import SkipAsWritten
  import Recutting
  import IQ = IndexedQueue
  import Jack = JackTimeline
  import Interleaver
  import C2P = CaptureToPlayback

  /** A packet of one-byte samples at the expected index, into a sink with room. */
  lemma BytesFed(p: Padder, d: Delivery, samples: seq<nat>, pad: nat, size: nat)
    requires size == 1 && p == Padder(d.idx, []) && |d.bytes| <= d.limit && samples == Whole(d.bytes, size)
    ensures Feed(REPAIRED, p, d.idx, d.bytes, d.limit, pad, size)
         == Fed(Padder(d.idx + |d.bytes|, []), samples, false)
  {
    DivMod.BoundaryIsMul(d.limit, size);
    SkipAsWritten.OneByteSamples(d.bytes);
    WholeLength(d.bytes, size);
    DivMod.BoundaryIsMul(|samples|, size);
    var plan := PlanFor(REPAIRED, p, d.idx, d.bytes, size);
    assert Pulled(0, |d.bytes|, d.limit, size) == |d.bytes|;
    assert plan.carried + plan.kept[..|d.bytes|] == d.bytes;
  }

  /** One byte is missing before the packet, and the sink is full. */
  lemma PaddingRefused(p: Padder, d: Delivery, pad: nat, size: nat)
    requires size == 1 && p == Padder(2, []) && d.idx == 3 && d.limit == 0
    ensures Feed(REPAIRED, p, d.idx, d.bytes, d.limit, pad, size) == Fed(Padder(3, []), [], false)
    ensures Refusal(p.cur, d, size) == 1
  {
    DivMod.CeilDivBounds(d.idx, size);
    DivMod.BoundaryIsMul(3, size);
    var plan := PlanFor(REPAIRED, p, d.idx, d.bytes, size);
    assert plan.gap == 1 && plan.from == 3;
    assert plan.carried + plan.kept[..0] == [];
  }

  /** What the padder pushes for the three packets. */
  lemma Pushes(s0: Byte, s1: Byte, s3: Byte, pad: nat, d0: Delivery, d1: Delivery, d2: Delivery)
    requires d0 == Delivery(0, [s0, s1], 2) && d1 == Delivery(3, [s3], 0) && d2 == Delivery(3, [s3], 2)
    ensures PlaybackSide.Push([], d0, pad, 1) == IQ.Send(0, [s0, s1], 2)
    ensures PlaybackSide.Push([d0], d1, pad, 1) == IQ.Send(2, [], 0)
    ensures PlaybackSide.Push([d0, d1], d2, pad, 1) == IQ.Send(2, [s3], 2)
    ensures Refused(REPAIRED, [d0, d1], pad, 1) == 1
  {
    hide Feed, RunBy, Refused;
    AfterFirst(s0, s1, pad, d0);
    AfterSecond(s0, s1, pad, d0, d1);
    Rebuilds([s3], [s3]);
    BytesFed(Padder(3, []), d2, [s3], pad, 1);
  }

  lemma Rebuilds(bytes: seq<Byte>, samples: seq<nat>)
    requires |samples| == |bytes| && forall i :: 0 <= i < |bytes| ==> samples[i] == bytes[i]
    ensures samples == Whole(bytes, 1)
  {
    SkipAsWritten.OneByteSamples(bytes);
  }

  lemma AfterFirst(s0: Byte, s1: Byte, pad: nat, d: Delivery)
    requires d == Delivery(0, [s0, s1], 2)
    ensures PlaybackSide.Push([], d, pad, 1) == IQ.Send(0, [s0, s1], 2)
    ensures Run([d], pad, 1).padder == Padder(2, []) && Run([d], pad, 1).out == [s0, s1]
    ensures Refused(REPAIRED, [d], pad, 1) == 0
  {
    StartsFresh(pad);
    Appends([], d, pad);
    hide Feed, RunBy, Refused, Refusal;
    NoneRefusedFirst(d);
    Rebuilds([s0, s1], [s0, s1]);
    BytesFed(FRESH, d, [s0, s1], pad, 1);
    assert [] + [d] == [d];
  }

  lemma AfterSecond(s0: Byte, s1: Byte, pad: nat, d0: Delivery, d: Delivery)
    requires d.idx == 3 && d.limit == 0
    requires Run([d0], pad, 1).padder == Padder(2, []) && Run([d0], pad, 1).out == [s0, s1]
    requires Refused(REPAIRED, [d0], pad, 1) == 0
    ensures PlaybackSide.Push([d0], d, pad, 1) == IQ.Send(2, [], 0)
    ensures Run([d0, d], pad, 1).padder == Padder(3, []) && Run([d0, d], pad, 1).out == [s0, s1]
    ensures Refused(REPAIRED, [d0, d], pad, 1) == 1
  {
    hide Feed, RunBy, Refused, Refusal;
    Appends([d0], d, pad);
    PaddingRefused(Padder(2, []), d, pad, 1);
    assert [d0] + [d] == [d0, d];
  }

  lemma StartsFresh(pad: nat)
    ensures Run([], pad, 1) == Path(FRESH, [], {}) && Refused(REPAIRED, [], pad, 1) == 0
  {
  }

  lemma Appends(schedule: seq<Delivery>, d: Delivery, pad: nat)
    ensures var s, more := Run(schedule, pad, 1), schedule + [d];
            var fed := Feed(REPAIRED, s.padder, d.idx, d.bytes, d.limit, pad, 1);
            && Run(more, pad, 1).padder == fed.padder && Run(more, pad, 1).out == s.out + fed.out
            && Refused(REPAIRED, more, pad, 1) == Refused(REPAIRED, schedule, pad, 1) + Refusal(s.padder.cur, d, 1)
  {
    RunSnoc(REPAIRED, schedule, d, pad, 1);
    Recutting.RefusedSnoc(REPAIRED, schedule, d, pad, 1);
    hide Feed, RunBy, Refused;
  }

  lemma NoneRefusedFirst(d: Delivery)
    requires d.idx == 0
    ensures Refusal(0, d, 1) == 0
  {
  }

  /** The first cycle plays frame 0 and empties the ring. */
  lemma FirstCycle(s0: nat, s1: nat, pad: nat, c: Jack.PlayCycle<nat>)
    requires c == Jack.PlayCycle(0, 1, [IQ.Send(0, [s0, s1], 2)], [IQ.Pop, IQ.Pop, IQ.Send(2, [], 0)])
    ensures Jack.CycleLegal(IQ.Start(0), c, 2, 2, pad)
    ensures IQ.Apply(Jack.Pulled(IQ.Start(0), c, 2, pad), IQ.Commit, pad) == IQ.State([], 2, 2, [s0, s1], IQ.Idle)
  {
    SendsInto(IQ.Start(0), [s0, s1], 2, 2, pad);
    assert [] + [s0, s1] == [s0, s1];
    var begun := IQ.State([s0, s1], 2, 0, [s0, s1], IQ.Receiving(0, 0, 0, 2, 0, []));
    assert Jack.Began(IQ.Start(0), c, 2, pad) == begun;
    PullsBoth(s0, s1, pad, begun, c.during);
    assert DivMod.Boundary(1, 2) == 2;
    hide IQ.RunFrom, IQ.LegalFrom;
    assert begun.slots[2..] == [];
  }

  /** One send at the counter, with room for all of it. */
  lemma SendsInto(s: IQ.State<nat>, values: seq<nat>, room: nat, capacity: nat, pad: nat)
    requires |values| <= room && |s.slots| + room <= capacity
    ensures var steps := [IQ.Send(s.tx, values, room)];
            && Jack.Only(steps, false) && IQ.LegalFrom(s, steps, capacity, pad)
            && IQ.RunFrom(s, steps, pad)
               == IQ.State(s.slots + values, s.tx + |values|, s.rx, s.history + values, s.recv)
  {
    IQ.OneStep(s, IQ.Send(s.tx, values, room), capacity, pad);
    hide IQ.RunFrom, IQ.LegalFrom;
    assert IQ.Shift(values, 0, pad) == values && values[..|values|] == values;
  }

  /** Both elements are pulled, and a packet arrives while the ring is still full. */
  lemma PullsBoth(s0: nat, s1: nat, pad: nat, begun: IQ.State<nat>, during: seq<IQ.Step<nat>>)
    requires begun == IQ.State([s0, s1], 2, 0, [s0, s1], IQ.Receiving(0, 0, 0, 2, 0, []))
    requires during == [IQ.Pop, IQ.Pop, IQ.Send(2, [], 0)]
    ensures IQ.LegalFrom(begun, during, 2, pad) && Jack.PopCount(during) == 2
    ensures IQ.RunFrom(begun, during, pad) == begun.(recv := IQ.Receiving(0, 0, 0, 2, 2, [s0, s1]))
  {
    var one: seq<IQ.Step<nat>>, two: seq<IQ.Step<nat>> := [IQ.Pop], [IQ.Pop, IQ.Pop];
    assert two == one + [IQ.Pop] && during == two + [during[2]];
    IQ.OneStep(begun, IQ.Pop, 2, pad);
    IQ.RunFromSnoc(begun, one, IQ.Pop, pad);
    IQ.RunFromSnoc(begun, two, during[2], pad);
    IQ.LegalSnoc(begun, one, IQ.Pop, 2, pad);
    IQ.LegalSnoc(begun, two, during[2], 2, pad);
    hide IQ.RunFrom, IQ.LegalFrom, Jack.PopCount;
    TwoPops(during);
    assert [] + [s0] == [s0] && [s0] + [s1] == [s0, s1];
    assert IQ.RunFrom(begun, one, pad) == begun.(recv := IQ.Receiving(0, 0, 0, 2, 1, [s0]));
    assert IQ.RunFrom(begun, two, pad) == begun.(recv := IQ.Receiving(0, 0, 0, 2, 2, [s0, s1]));
  }

  lemma TwoPops(during: seq<IQ.Step<nat>>)
    requires during == [IQ.Pop, IQ.Pop, IQ.Send(2, [], 0)]
    ensures Jack.PopCount(during) == 2
  {
    assert during[..2][..1] == during[..1] && during[..1][..0] == [];
    assert Jack.PopCount(during[..1]) == 1;
    assert Jack.PopCount(during[..2]) == 2;
  }

  /** The second cycle, of frame 1, gets one element for port 0. */
  lemma SecondCycle(s0: nat, s1: nat, s3: nat, pad: nat, c: Jack.PlayCycle<nat>, ring: IQ.State<nat>)
    requires ring == IQ.State([], 2, 2, [s0, s1], IQ.Idle)
    requires c == Jack.PlayCycle(1, 1, [IQ.Send(2, [s3], 2)], [IQ.Pop])
    ensures Jack.CycleLegal(ring, c, 2, 2, pad)
    ensures Jack.Pulled(ring, c, 2, pad).recv == IQ.Receiving(2, 0, 0, 1, 1, [s3])
  {
    SendsInto(ring, [s3], 2, 2, pad);
    var begun := IQ.State([s3], 3, 2, [s0, s1] + [s3], IQ.Receiving(2, 0, 0, 1, 0, []));
    assert [] + [s3] == [s3] && DivMod.Boundary(1, 2) == 2;
    assert Jack.Began(ring, c, 2, pad) == begun;
    IQ.OneStep(begun, IQ.Pop, 2, pad);
    hide IQ.RunFrom, IQ.LegalFrom;
    assert c.during[..0] == [];
  }

  /** The cycles as the ring sees them. */
  lemma FirstView(s0: Byte, s1: Byte, s3: Byte, pad: nat, d0: Delivery, d1: Delivery, first: PlaybackSide.JointCycle)
    requires d0 == Delivery(0, [s0, s1], 2) && d1 == Delivery(3, [s3], 0)
    requires first == PlaybackSide.JointCycle(0, 1, [PlaybackSide.Arrive(d0)],
                                              [PlaybackSide.Pull, PlaybackSide.Pull, PlaybackSide.Arrive(d1)])
    ensures PlaybackSide.Arrivals(first.before) == [d0] && PlaybackSide.Arrivals(first.during) == [d1]
    ensures PlaybackSide.AsPlayed([], first, pad, 1)
         == Jack.PlayCycle(0, 1, [IQ.Send(0, [s0, s1], 2)], [IQ.Pop, IQ.Pop, IQ.Send(2, [], 0)])
  {
    hide PlaybackSide.Push, PlaybackSide.Steps, PlaybackSide.Arrivals, Refused;
    Pushes(s0, s1, s3, pad, d0, d1, Delivery(3, [s3], 2));
    var pull, late := PlaybackSide.Pull, PlaybackSide.Arrive(d1);
    PlaybackSide.OneTurn([], PlaybackSide.Arrive(d0), pad, 1);
    PlaybackSide.OneTurn([d0], pull, pad, 1);
    PlaybackSide.TurnsSnoc([d0], [pull], pull, pad, 1);
    PlaybackSide.TurnsSnoc([d0], [pull, pull], late, pad, 1);
    assert [pull] + [pull] == [pull, pull] && [pull, pull] + [late] == first.during;
    assert [] + [d0] == [d0] && [d0] + [] == [d0];
  }

  lemma LastView(s0: Byte, s1: Byte, s3: Byte, pad: nat, d0: Delivery, d1: Delivery, d2: Delivery, last: PlaybackSide.JointCycle)
    requires d0 == Delivery(0, [s0, s1], 2) && d1 == Delivery(3, [s3], 0) && d2 == Delivery(3, [s3], 2)
    requires last == PlaybackSide.JointCycle(1, 1, [PlaybackSide.Arrive(d2)], [PlaybackSide.Pull])
    ensures PlaybackSide.Arrivals(last.before) == [d2] && PlaybackSide.Arrivals(last.during) == []
    ensures PlaybackSide.AsPlayed([d0, d1], last, pad, 1) == Jack.PlayCycle(1, 1, [IQ.Send(2, [s3], 2)], [IQ.Pop])
  {
    hide PlaybackSide.Push, PlaybackSide.Steps, PlaybackSide.Arrivals, Refused;
    Pushes(s0, s1, s3, pad, d0, d1, d2);
    PlaybackSide.OneTurn([d0, d1], PlaybackSide.Arrive(d2), pad, 1);
    PlaybackSide.OneTurn([d0, d1] + [d2], PlaybackSide.Pull, pad, 1);
  }

  lemma RingView(first: PlaybackSide.JointCycle, last: PlaybackSide.JointCycle, c: Jack.PlayCycle<nat>, pad: nat,
                 d0: Delivery, d1: Delivery, d2: Delivery)
    requires PlaybackSide.Arrivals(first.before) == [d0] && PlaybackSide.Arrivals(first.during) == [d1]
    requires PlaybackSide.Arrivals(last.before) == [d2] && PlaybackSide.Arrivals(last.during) == []
    requires PlaybackSide.AsPlayed([], first, pad, 1) == c && Jack.CycleLegal(IQ.Start(0), c, 2, 2, pad)
    ensures PlaybackSide.Received([first]) == [d0, d1] && C2P.Packets([first], last) == [d0, d1, d2]
    ensures PlaybackSide.Cycles([first], pad, 1) == [c] && Jack.AllLegal([c], 2, 2, pad)
    ensures Jack.Played([c], 2, pad) == IQ.Apply(Jack.Pulled(IQ.Start(0), c, 2, pad), IQ.Commit, pad)
  {
    hide PlaybackSide.Arrivals, PlaybackSide.AsPlayed, PlaybackSide.Received, PlaybackSide.Cycles,
         Jack.CycleLegal, Jack.Pulled, Jack.Played, Jack.AllLegal, IQ.Apply;
    PlaybackSide.OneCycle(first, pad, 1);
    Jack.OneCycle(c, 2, 2, pad);
    assert [d0] + [d1] == [d0, d1] && [d0, d1] + [d2] + [] == [d0, d1, d2];
  }

  /** Port 0 at frame 1 is played `s3`, which was recorded on port 1: its own sample is `s2`. */
  lemma WrongPort(s0: Byte, s1: Byte, s2: Byte, s3: Byte, pad: nat)
    ensures var d0, d1, d2 := Delivery(0, [s0, s1], 2), Delivery(3, [s3], 0), Delivery(3, [s3], 2);
            var first := PlaybackSide.JointCycle(0, 1, [PlaybackSide.Arrive(d0)],
                                                 [PlaybackSide.Pull, PlaybackSide.Pull, PlaybackSide.Arrive(d1)]);
            var last := PlaybackSide.JointCycle(1, 1, [PlaybackSide.Arrive(d2)], [PlaybackSide.Pull]);
            var run := [Jack.Capture(Jack.Cycle(0, [[s0 as nat, s2 as nat], [s1 as nat, s3 as nat]], 2, 4))];
            && Jack.CapturesOk(run, 0, 2) && IQ.Legal(Jack.RingSteps(run, 0, 2), 0, 4, pad)
            && C2P.Stream(run, 0, 2, pad) == [s0, s1, s2, s3]
            && Fit([s0, s1, s2, s3], 1) && C2P.Packets([first], last) == [d0, d1, d2]
            && RefusedPadding.AllSlices([d0, d1, d2], Encode([s0, s1, s2, s3], 1))
            && C2P.JointLegal([first], last, 2, 2, pad, 1)
            && Refused(REPAIRED, [d0, d1], pad, 1) == 1
            && C2P.LastPulled([first], last, 2, pad, 1).recv.Receiving?
            && C2P.LastPulled([first], last, 2, pad, 1).recv.yielded == [s3]
  {
    var d0, d1, d2 := Delivery(0, [s0, s1], 2), Delivery(3, [s3], 0), Delivery(3, [s3], 2);
    var first := PlaybackSide.JointCycle(0, 1, [PlaybackSide.Arrive(d0)],
                                         [PlaybackSide.Pull, PlaybackSide.Pull, PlaybackSide.Arrive(d1)]);
    var last := PlaybackSide.JointCycle(1, 1, [PlaybackSide.Arrive(d2)], [PlaybackSide.Pull]);
    hide PlaybackSide.AsPlayed, PlaybackSide.Received, PlaybackSide.Cycles, PlaybackSide.Arrivals, PlaybackSide.Push,
         IQ.Apply, Jack.CycleLegal, Jack.Pulled, Jack.Played, Jack.AllLegal, Refused, Encode, Jack.RingSteps, IQ.Legal, C2P.Stream, C2P.Packets, Jack.CapturesOk, RefusedPadding.AllSlices, Fit;
    var c := Jack.PlayCycle(0, 1, [IQ.Send(0, [s0 as nat, s1 as nat], 2)], [IQ.Pop, IQ.Pop, IQ.Send(2, [], 0)]);
    Captures(s0, s1, s2, s3, pad);
    Slices([s0, s1, s2, s3], [s0, s1, s2, s3], d0, d1, d2);
    Pushes(s0, s1, s3, pad, d0, d1, d2);
    FirstView(s0, s1, s3, pad, d0, d1, first);
    LastView(s0, s1, s3, pad, d0, d1, d2, last);
    FirstCycle(s0, s1, pad, c);
    RingView(first, last, c, pad, d0, d1, d2);
    SecondCycle(s0, s1, s3, pad, PlaybackSide.AsPlayed([d0, d1], last, pad, 1), Jack.Played([c], 2, pad));
  }

  lemma Slices(stream: seq<Byte>, samples: seq<nat>, d0: Delivery, d1: Delivery, d2: Delivery)
    requires |stream| == |samples| == 4 && forall i :: 0 <= i < 4 ==> samples[i] == stream[i]
    requires d0.idx == 0 && d1.idx == d2.idx == 3
    requires d0.bytes == [stream[0], stream[1]] && d1.bytes == d2.bytes == [stream[3]]
    ensures Fit(samples, 1) && RefusedPadding.AllSlices([d0, d1, d2], Encode(samples, 1))
  {
    SkipAsWritten.OneByteSamples(stream);
    assert samples == Whole(stream, 1);
    assert d0.bytes == stream[0..2] && d1.bytes == stream[3..4];
  }

  /** Two frames of two ports, captured in one cycle. */
  lemma Captures(s0: nat, s1: nat, s2: nat, s3: nat, pad: nat)
    ensures var run := [Jack.Capture(Jack.Cycle(0, [[s0, s2], [s1, s3]], 2, 4))];
            && Jack.CapturesOk(run, 0, 2) && IQ.Legal(Jack.RingSteps(run, 0, 2), 0, 4, pad)
            && C2P.Stream(run, 0, 2, pad) == [s0, s1, s2, s3]
  {
    var ports := [[s0, s2], [s1, s3]];
    var run := [Jack.Capture(Jack.Cycle(0, ports, 2, 4))];
    assert Interleaver.Frame(ports, 0) == [s0, s1] && Interleaver.Frame(ports, 1) == [s2, s3];
    assert Interleaver.Interleave(ports, 2, 0) == [];
    assert Interleaver.Interleave(ports, 2, 1) == [s0, s1];
    assert Interleaver.Interleave(ports, 2, 2) == [s0, s1, s2, s3];
    var step := IQ.Send(0, [s0, s1, s2, s3], 4);
    assert Jack.RingSteps(run, 0, 2) == [step];
    hide Jack.RingSteps, Interleaver.Interleave;
    SendsInto(IQ.Start(0), [s0, s1, s2, s3], 4, 4, pad);
    assert [] + [s0, s1, s2, s3] == [s0, s1, s2, s3];
  }
}

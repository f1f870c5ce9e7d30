/** The whole audio path, composed: capture ports, ring, byte stream, lossy network, padder,
    ring, playback ports. */
module CaptureToPlayback {
  import DivMod
  import SampleCodec
  import ByteConsumer
  import LossyPath
  import PacketLoss
  import RefusedPadding
  import PlaybackSide
  import Interleaver
  import opened IndexedQueue
  import opened JackTimeline

  /** The samples the capture side has put on its ring. */
  ghost function Stream(run: seq<CaptureStep<nat>>, first: nat, P: nat, pad: nat): (samples: seq<nat>)
    requires CapturesOk(run, first, P)
  {
    Run(RingSteps(run, first, P), 0, pad).history
  }

  /** What the last cycle of a joint run has pulled. */
  ghost function LastPulled(cycles: seq<PlaybackSide.JointCycle>, last: PlaybackSide.JointCycle, P: nat, pad: nat, size: nat): (s: State<nat>)
    requires size > 0
  {
    Pulled(Played(PlaybackSide.Cycles(cycles, pad, size), P, pad),
           PlaybackSide.AsPlayed(PlaybackSide.Received(cycles), last, pad, size), P, pad)
  }

  /** Playback cycles in any order, each with the packets that arrive before and during it, on a
      ring of the given capacity. */
  ghost predicate JointLegal(cycles: seq<PlaybackSide.JointCycle>, last: PlaybackSide.JointCycle,
                             P: nat, capacity: nat, pad: nat, size: nat)
    requires size > 0
  {
    var played := PlaybackSide.Cycles(cycles, pad, size);
    && AllLegal(played, P, capacity, pad)
    && CycleLegal(Played(played, P, pad), PlaybackSide.AsPlayed(PlaybackSide.Received(cycles), last, pad, size),
                  P, capacity, pad)
  }

  /** Each cycle starts no earlier than the end of the one before it. */
  ghost predicate JointAdvancing(cycles: seq<PlaybackSide.JointCycle>, last: PlaybackSide.JointCycle,
                                 P: nat, capacity: nat, pad: nat, size: nat)
    requires size > 0
  {
    var played := PlaybackSide.Cycles(cycles, pad, size);
    Advancing(played, P, capacity, pad) && EndFrame(played) <= last.frame
  }

  /** How much of the timeline the cycles before the last one have consumed. */
  ghost function Consumed(cycles: seq<PlaybackSide.JointCycle>, P: nat, pad: nat, size: nat): (rx: nat)
    requires size > 0
  {
    Played(PlaybackSide.Cycles(cycles, pad, size), P, pad).rx
  }

  lemma NothingConsumed(cycles: seq<PlaybackSide.JointCycle>, last: PlaybackSide.JointCycle,
                        P: nat, capacity: nat, pad: nat, size: nat, port: nat, f: nat)
    requires size > 0 && JointLegal(cycles, last, P, capacity, pad, size)
    requires JointAdvancing(cycles, last, P, capacity, pad, size)
    ensures Consumed(cycles, P, pad, size) <= Position(last.frame + f, port, P)
  {
    hide Played, Advancing, CycleLegal, PlaybackSide.Cycles, PlaybackSide.Received, Position, EndFrame, Pulled, AllLegal;
    PlaybackTimeline(PlaybackSide.Cycles(cycles, pad, size),
                     PlaybackSide.AsPlayed(PlaybackSide.Received(cycles), last, pad, size), P, capacity, pad, port, f);
  }

  /** The packets that arrived by the end of the last cycle. */
  ghost function Packets(cycles: seq<PlaybackSide.JointCycle>, last: PlaybackSide.JointCycle): (schedule: seq<LossyPath.Delivery>) {
    PlaybackSide.Received(cycles) + PlaybackSide.Arrivals(last.before) + PlaybackSide.Arrivals(last.during)
  }

  /** What a cycle writes to a port at a frame is what the padder emitted for that position, or
      padding if the position was consumed before. */
  lemma PlayedIsEmitted(cycles: seq<PlaybackSide.JointCycle>, last: PlaybackSide.JointCycle,
                        P: nat, capacity: nat, pad: nat, size: nat, port: nat, f: nat)
    requires size > 0 && JointLegal(cycles, last, P, capacity, pad, size)
    ensures var r, out := LastPulled(cycles, last, P, pad, size).recv, LossyPath.Run(Packets(cycles, last), pad, size).out;
            && r.Receiving?
            && (Position(f, port, P) < |r.yielded| ==>
                  SeenAt(Position(last.frame + f, port, P), Consumed(cycles, P, pad, size), out, pad,
                         r.yielded[Position(f, port, P)]))
  {
    hide Pulled, Played, AllLegal, CycleLegal, LossyPath.Run, PlaybackSide.Cycles, PlaybackSide.Received, Position, SeenAt;
    var played, schedule := PlaybackSide.Cycles(cycles, pad, size), PlaybackSide.Received(cycles);
    PlaybackLaw(played, PlaybackSide.AsPlayed(schedule, last, pad, size), P, capacity, pad, port, f);
    PlaybackSide.RingFollows(cycles, P, pad, size);
    PlaybackSide.CycleFollows(Played(played, P, pad), schedule, last, P, pad, size);
  }

  /** The stream's element at position `q` was captured by cycle `j` on port `q mod P` at frame
      `q div P`, as `CapturedAs` says. */
  lemma StreamIsCaptured(run: seq<CaptureStep<nat>>, first: nat, P: nat, capacity: nat, pad: nat, q: nat)
    returns (j: nat)
    requires P > 0 && CapturesOk(run, first, P) && Legal(RingSteps(run, first, P), 0, capacity, pad)
    requires q < |Stream(run, first, P, pad)|
    ensures 0 <= q / P && 0 <= q % P < P && j < |run| && run[j].Capture?
    ensures CapturedAs(run[j].cycle, q % P, first + q / P, pad, Stream(run, first, P, pad)[q])
  {
    hide Legal, RingSteps, CapturedAs, CapturesOk, Position, IndexedQueue.Run;
    PositionOf(q, P);
    j := CapturedBy(run, first, P, capacity, pad, q / P, q % P);
  }

  lemma PositionOf(q: nat, P: nat)
    requires P > 0
    ensures 0 <= q / P && 0 <= q % P < P && Position(q / P, q % P, P) == q
  {
    DivMod.DivLe(0, q, P);
    DivMod.BoundaryIsMul(q / P, P);
  }

  /** Capture to playback, exactly, over any playback ring: for every run of capture cycles, every
      way of cutting, dropping, duplicating and reordering the packets in between, and every run
      of playback cycles in any order, with packets arriving at any moment. The value played at a
      position is silence if the position was consumed before. Otherwise packet `i` brought it,
      and it belongs later by the padding that the ring had no room for before that packet; it is
      the stream's element there if all of its bytes were stored by then, and silence if not.
      That element is what capture cycle `j` left for its port and frame. */
  lemma EveryRing(run: seq<CaptureStep<nat>>, first: nat, P: nat, capacity: nat, pad: nat, size: nat,
                  cycles: seq<PlaybackSide.JointCycle>, last: PlaybackSide.JointCycle, capacity': nat,
                  port: nat, f: nat) returns (i: nat, j: nat)
    requires size > 0 && port < P && CapturesOk(run, first, P)
    requires Legal(RingSteps(run, first, P), 0, capacity, pad)
    requires SampleCodec.Fit(Stream(run, first, P, pad), size)
    requires RefusedPadding.AllSlices(Packets(cycles, last), SampleCodec.Encode(Stream(run, first, P, pad), size))
    requires JointLegal(cycles, last, P, capacity', pad, size)
    ensures LastPulled(cycles, last, P, pad, size).recv.Receiving?
    ensures i <= |Packets(cycles, last)|
    ensures var y, p := LastPulled(cycles, last, P, pad, size).recv.yielded, Position(last.frame + f, port, P);
            Position(f, port, P) < |y| ==>
              if p < Consumed(cycles, P, pad, size) then y[Position(f, port, P)] == pad
              else
                && RefusedPadding.EmittedIn(Packets(cycles, last), i, p, pad, size)
                && Brings(run, first, P, Packets(cycles, last), i, j,
                          Shifted(p, Packets(cycles, last)[..i], pad, size), pad, size, y[Position(f, port, P)])
  {
    hide LastPulled, JointLegal, Packets, LossyPath.RunBy, Legal, RingSteps, LossyPath.Refused,
         RefusedPadding.AllSlices, SampleCodec.Encode, SampleCodec.Fit, Stream, CapturesOk, Position, LossyPath.Covered,
         LossyPath.Run, CapturedAs, Consumed;
    PlayedIsEmitted(cycles, last, P, capacity', pad, size, port, f);
    var schedule, p := Packets(cycles, last), Position(last.frame + f, port, P);
    i, j := 0, 0;
    if Position(f, port, P) < |LastPulled(cycles, last, P, pad, size).recv.yielded| && Consumed(cycles, P, pad, size) <= p {
      i := RefusedPadding.EverySink(schedule, Stream(run, first, P, pad), pad, size, p);
      j := StreamIsCaptured(run, first, P, capacity, pad, Shifted(p, schedule[..i], pad, size));
    }
  }

  /** Packet `i` brings `v` for stream position `q`, which capture cycle `j` filled. */
  ghost predicate Brings(run: seq<CaptureStep<nat>>, first: nat, P: nat, packets: seq<LossyPath.Delivery>, i: nat, j: nat,
                         q: nat, pad: nat, size: nat, v: nat)
    requires size > 0 && P > 0 && CapturesOk(run, first, P)
  {
    && i < |packets| && q < |Stream(run, first, P, pad)| && j < |run| && run[j].Capture?
    && 0 <= q / P && 0 <= q % P
    && CapturedAs(run[j].cycle, q % P, first + q / P, pad, Stream(run, first, P, pad)[q])
    && v == if LossyPath.Covered(LossyPath.Run(packets[..i + 1], pad, size).got, q, size)
            then Stream(run, first, P, pad)[q] else pad
  }

  /** Where an element emitted at `p` belongs when the packets before it had padding refused. */
  ghost function Shifted(p: nat, before: seq<LossyPath.Delivery>, pad: nat, size: nat): (q: nat)
    requires size > 0
  {
    p + LossyPath.Refused(ByteConsumer.REPAIRED, before, pad, size)
  }

  /** Shifted by `r` elements, a port plays its own samples exactly when `r` is a whole number of
      frames, and is then early by that many. */
  lemma OwnPortIff(frame: nat, port: nat, P: nat, r: nat)
    requires port < P
    ensures var q := Position(frame, port, P) + r;
            && (q % P == port <==> r % P == 0)
            && (r % P == 0 ==> q / P == frame + r / P)
  {
    hide Position;
    PositionIs(frame, port, P);
    var a, b := r / P, r % P;
    assert (frame + a) * P == frame * P + a * P && (frame + a + 1) * P == (frame + a) * P + P;
    if port + b < P {
      DivMod.Unique(Position(frame, port, P) + r, P, frame + a, port + b);
    } else {
      DivMod.Unique(Position(frame, port, P) + r, P, frame + a + 1, port + b - P);
    }
  }

  /** Capture to playback: when the playback ring has room for the padding of each packet, the value
      a playback cycle writes to a port at a frame is silence, or the very sample that some
      capture cycle recorded on the same port at the same frame (counted from the first captured
      one). */
  lemma CaptureToPlayback(run: seq<CaptureStep<nat>>, first: nat, P: nat, capacity: nat, pad: nat, size: nat,
                          cycles: seq<PlaybackSide.JointCycle>, last: PlaybackSide.JointCycle, capacity': nat,
                          port: nat, f: nat)
    requires size > 0 && port < P && CapturesOk(run, first, P)
    requires Legal(RingSteps(run, first, P), 0, capacity, pad)
    requires SampleCodec.Fit(Stream(run, first, P, pad), size)
    requires RefusedPadding.AllSlices(Packets(cycles, last), SampleCodec.Encode(Stream(run, first, P, pad), size))
    requires RefusedPadding.AllPaddingTaken(Packets(cycles, last), pad, size)
    requires JointLegal(cycles, last, P, capacity', pad, size)
    ensures var r := LastPulled(cycles, last, P, pad, size).recv;
            && r.Receiving?
            && (Position(f, port, P) < |r.yielded| ==>
                  var v := r.yielded[Position(f, port, P)];
                  v == pad || SomeCycleRecorded(run, port, first + last.frame + f, v))
  {
    hide LastPulled, JointLegal, Packets, LossyPath.RunBy, Legal, RingSteps, LossyPath.Refused, LossyPath.Run,
         RefusedPadding.AllSlices, RefusedPadding.AllPaddingTaken, SampleCodec.Encode, SampleCodec.Fit, Stream,
         CapturesOk, Position, LossyPath.Covered, Consumed, Recorded, RefusedPadding.EmittedIn;
    var schedule := Packets(cycles, last);
    var i, j := EveryRing(run, first, P, capacity, pad, size, cycles, last, capacity', port, f);
    RefusedPadding.NoRefusalIff(schedule, pad, size);
    LossyPath.RefusedPrefix(ByteConsumer.REPAIRED, schedule, i, pad, size);
    PositionIs(last.frame + f, port, P);
  }

  /** The transparent path: when capture is steady and every packet arrives in order and finds room,
      nothing is replaced by silence. Each value played is one recorded on that port at that
      frame, unless an earlier cycle consumed it, which no cycle does while they advance. */
  lemma TransparentPath(run: seq<CaptureStep<nat>>, first: nat, P: nat, capacity: nat, pad: nat, size: nat,
                        cycles: seq<PlaybackSide.JointCycle>, last: PlaybackSide.JointCycle, capacity': nat,
                        port: nat, f: nat)
    requires size > 0 && port < P && CapturesOk(run, first, P) && Steady(run, first, P)
    requires Legal(RingSteps(run, first, P), 0, capacity, pad)
    requires SampleCodec.Fit(Stream(run, first, P, pad), size)
    requires PacketLoss.Drained(Packets(cycles, last), Stream(run, first, P, pad), pad, size)
    requires PacketLoss.Contiguous(Packets(cycles, last))
    requires JointLegal(cycles, last, P, capacity', pad, size)
    ensures JointAdvancing(cycles, last, P, capacity', pad, size) ==>
              Consumed(cycles, P, pad, size) <= Position(last.frame + f, port, P)
    ensures var r, p := LastPulled(cycles, last, P, pad, size).recv, Position(last.frame + f, port, P);
            && r.Receiving?
            && (Position(f, port, P) < |r.yielded| ==>
                  var v := r.yielded[Position(f, port, P)];
                  if p < Consumed(cycles, P, pad, size) then v == pad
                  else SomeCycleRecorded(run, port, first + last.frame + f, v))
  {
    hide LastPulled, JointLegal, Packets, LossyPath.Run, PacketLoss.Drained, PacketLoss.Contiguous,
         Legal, SomeCycleRecorded, RingSteps, Steady, Position, Consumed, JointAdvancing;
    if JointAdvancing(cycles, last, P, capacity', pad, size) {
      NothingConsumed(cycles, last, P, capacity', pad, size, port, f);
    }
    PlayedIsEmitted(cycles, last, P, capacity', pad, size, port, f);
    PacketLoss.Lossless(Packets(cycles, last), Stream(run, first, P, pad), pad, size);
    var p := Position(last.frame + f, port, P);
    if Position(f, port, P) < |LastPulled(cycles, last, P, pad, size).recv.yielded| && Consumed(cycles, P, pad, size) <= p {
      SteadyCapture(run, first, P, capacity, pad, last.frame + f, port);
    }
  }

  /** The premises of the theorems above are met, and the sample gets through: one port, one
      frame, one byte per sample, one packet. */
  lemma OneSample(v: SampleCodec.Byte)
    ensures var run, d := [Capture(Cycle(0, [[v]], 1, 1))], LossyPath.Delivery(0, [v], 1);
            var last := PlaybackSide.JointCycle(0, 1, [PlaybackSide.Arrive(d)], [PlaybackSide.Pull]);
            && CapturesOk(run, 0, 1) && Steady(run, 0, 1) && Legal(RingSteps(run, 0, 1), 0, 1, 0)
            && Stream(run, 0, 1, 0) == [v] && SampleCodec.Fit([v], 1)
            && Packets([], last) == [d]
            && PacketLoss.Drained([d], [v], 0, 1) && PacketLoss.Contiguous([d])
            && RefusedPadding.AllSlices([d], SampleCodec.Encode([v], 1))
            && RefusedPadding.AllPaddingTaken([d], 0, 1)
            && JointLegal([], last, 1, 1, 0, 1) && JointAdvancing([], last, 1, 1, 0, 1)
            && LastPulled([], last, 1, 0, 1).recv == Receiving(0, 0, 0, 1, 1, [v])
  {
    OneCaptured(v);
    OneDelivered(v);
    OneJoint(v);
    OnePlayed(v);
  }

  lemma OneCaptured(v: nat)
    ensures var run := [Capture(Cycle(0, [[v]], 1, 1))];
            && CapturesOk(run, 0, 1) && Steady(run, 0, 1) && Legal(RingSteps(run, 0, 1), 0, 1, 0)
            && Stream(run, 0, 1, 0) == [v]
  {
    var run := [Capture(Cycle(0, [[v]], 1, 1))];
    assert run[..0] == [];
    assert Interleaver.Interleave([[v]], 1, 1) == [v] by {
      Interleaver.InterleaveAt([[v]], 1, 1, 0, 0);
    }
    var step := Send(0, [v], 1);
    assert RingSteps(run, 0, 1) == [step];
    assert [step][..0] == [];
    assert Shift([v], 0, 0) == [v];
  }

  lemma OneDelivered(v: SampleCodec.Byte)
    ensures var schedule := [LossyPath.Delivery(0, [v], 1)];
            && SampleCodec.Fit([v], 1)
            && PacketLoss.Drained(schedule, [v], 0, 1) && PacketLoss.Contiguous(schedule)
            && RefusedPadding.AllSlices(schedule, SampleCodec.Encode([v], 1))
            && RefusedPadding.AllPaddingTaken(schedule, 0, 1)
  {
    var d := LossyPath.Delivery(0, [v], 1);
    assert [d][..0] == [];
    assert SampleCodec.Pow256(1) == 256;
    assert SampleCodec.Encode([v], 1) == [v];
    assert DivMod.Boundary(1, 1) == 1;
    var start := LossyPath.Run([], 0, 1);
    assert start == LossyPath.Path(ByteConsumer.FRESH, [], {});
    assert LossyPath.SliceOf(d, [v]) && PacketLoss.Drains(start, d, 1) && LossyPath.TakesPadding(start, d, 1);
    assert PacketLoss.Drained([], [v], 0, 1) && PacketLoss.End([]) == 0;
  }

  /** The packet's turn, as the ring sees it. */
  lemma OneJoint(v: SampleCodec.Byte)
    ensures var d := LossyPath.Delivery(0, [v], 1);
            var last := PlaybackSide.JointCycle(0, 1, [PlaybackSide.Arrive(d)], [PlaybackSide.Pull]);
            && PlaybackSide.AsPlayed([], last, 0, 1) == PlayCycle(0, 1, [Send(0, [v], 1)], [Pop])
            && Packets([], last) == [d]
  {
    var d := LossyPath.Delivery(0, [v], 1);
    var arrive, pull := PlaybackSide.Arrive(d), PlaybackSide.Pull;
    PlaybackSide.OneTurn([], arrive, 0, 1);
    PlaybackSide.OneTurn([d], pull, 0, 1);
    OneFed(v);
    assert LossyPath.Run([], 0, 1) == LossyPath.Path(ByteConsumer.FRESH, [], {});
    hide PlaybackSide.Steps, PlaybackSide.Arrivals, ByteConsumer.Feed;
    assert [] + [d] == [d] && [d] + [] == [d];
  }

  lemma OneFed(v: SampleCodec.Byte)
    ensures ByteConsumer.Feed(ByteConsumer.REPAIRED, ByteConsumer.FRESH, 0, [v], 1, 0, 1).out == [v]
  {
    assert DivMod.Boundary(1, 1) == 1;
    assert [] + [v] == [v] && [v][..1] == [v];
    assert SampleCodec.Whole([v], 1) == [v];
  }

  lemma OnePlayed(v: nat)
    ensures var c := PlayCycle(0, 1, [Send(0, [v], 1)], [Pop]);
            && AllLegal([], 1, 1, 0) && Advancing([], 1, 1, 0) && CycleLegal(Played([], 1, 0), c, 1, 1, 0)
            && Pulled(Played([], 1, 0), c, 1, 0).history == [v]
            && Pulled(Played([], 1, 0), c, 1, 0).recv == Receiving(0, 0, 0, 1, 1, [v])
  {
    var send, pop: Step<nat> := Send(0, [v], 1), Pop;
    assert [send][..0] == [] && [pop][..0] == [];
    assert Shift([v], 0, 0) == [v];
    assert RunFrom(Start(0), [send], 0) == State([v], 1, 0, [v], Idle);
  }
}

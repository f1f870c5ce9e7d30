/** The padder with line 122 as it is written (and lines 152-153 repaired, so that samples come
    out at all): after a gap the bytes to skip are measured from the old expected index, so that
    what is kept of the packet is displaced by the length of the gap. */
module SkipAsWritten {
  import opened Common
  import opened SampleCodec
  import opened ByteConsumer
  import opened LossyPath
  import opened PacketLoss
  import DivMod

  const SKIP_FROM_OLD := Build(false, true)

  /** After a gap, the bytes kept of a packet are its last ones, and the padder stores them from
      its resume position on. They are stored at their own stream position exactly when the skip
      is measured from the packet, or nothing is kept because the packet is no longer than the
      distance from the old expected index to the resume position. */
  lemma KeptInPlaceIff(build: Build, cur: nat, idx: nat, bytes: seq<Byte>, size: nat)
    requires size > 0 && cur < idx
    ensures var kept, resume := Kept(build, cur, idx, bytes, size), Resume(cur, idx, size);
            && |kept| <= |bytes| && kept == bytes[|bytes| - |kept|..]
            && ((kept == [] || idx + (|bytes| - |kept|) == resume)
                <==> build.skipFromPacket || |bytes| <= resume - cur)
  {
    DivMod.CeilBoundary(idx, size);
  }

  // ----- One packet after a gap

  /** How many bytes of a packet after a gap are kept. */
  ghost function KeptLength(cur: nat, d: Delivery, size: nat): (n: nat)
    requires size > 0 && cur < d.idx
  {
    GapPositive(cur, d.idx, size);
    var skip := Resume(cur, d.idx, size) - cur;
    if skip <= |d.bytes| then |d.bytes| - skip else 0
  }

  /** After a gap of `d.idx - cur` bytes the padder emits the padding, and then samples read that
      many bytes too late in the stream. */
  lemma GapEffect(s: Path, d: Delivery, stream: seq<Byte>, pad: nat, size: nat) returns (n: nat, piece: seq<Byte>)
    requires size > 0 && s.padder.cur < d.idx && SliceOf(d, stream) && TakesPadding(s, d, size)
    ensures var resume, gap := Resume(s.padder.cur, d.idx, size), Gap(s.padder.cur, d.idx, size);
            var at := resume + (d.idx - s.padder.cur);
            && n == Pulled(0, KeptLength(s.padder.cur, d, size), d.limit - gap, size) == |piece|
            && (n > 0 ==> at + n <= d.idx + |d.bytes| && piece == stream[at..at + n])
            && var s' := DeliverBy(SKIP_FROM_OLD, s, d, pad, size);
               && s'.padder == Padder(resume + n, Rest(piece, size))
               && s'.out == s.out + Repeat(pad, gap) + Whole(piece, size)
  {
    hide Whole, Rest, Kept, Resume, Gap, KeptLength;
    var plan := PlanFor(SKIP_FROM_OLD, s.padder, d.idx, d.bytes, size);
    n := Pulled(0, |plan.kept|, d.limit - plan.gap, size);
    piece := plan.kept[..n];
    assert plan.carried + piece == piece;
    KeptIs(s.padder.cur, d, stream, plan.kept, n, size);
  }

  lemma KeptIs(cur: nat, d: Delivery, stream: seq<Byte>, kept: seq<Byte>, n: nat, size: nat)
    requires size > 0 && cur < d.idx && SliceOf(d, stream)
    requires kept == Kept(SKIP_FROM_OLD, cur, d.idx, d.bytes, size) && n <= |kept|
    ensures |kept| == KeptLength(cur, d, size)
    ensures var at := Resume(cur, d.idx, size) + (d.idx - cur);
            n > 0 ==> at + n <= d.idx + |d.bytes| && kept[..n] == stream[at..at + n]
  {
    GapPositive(cur, d.idx, size);
  }

  /** Where a drained packet after a gap leaves the padder: as far from the old index as the packet
      is long, but no earlier than the boundary it resumes at. */
  lemma GapReaches(s: Path, d: Delivery, pad: nat, size: nat)
    requires size > 0 && s.padder.cur < d.idx && DrainsBy(SKIP_FROM_OLD, s, d, size)
    ensures var resume, reach := Resume(s.padder.cur, d.idx, size), s.padder.cur + |d.bytes|;
            DeliverBy(SKIP_FROM_OLD, s, d, pad, size).padder.cur == if resume < reach then reach else resume
  {
    GapPositive(s.padder.cur, d.idx, size);
  }

  // ----- How far behind the padder stays

  /** By how many bytes the padder is behind the end of the last packet; negative when ahead. */
  ghost function Lag(schedule: seq<Delivery>, pad: nat, size: nat): (lag: int)
    requires size > 0
  {
    End(schedule) - RunBy(SKIP_FROM_OLD, schedule, pad, size).padder.cur
  }

  /** The lag after a packet that starts `d.idx - cur` bytes after the expected index. */
  ghost function NextLag(cur: nat, d: Delivery, size: nat): (lag: int)
    requires size > 0
  {
    if d.idx < cur then d.idx - cur + |d.bytes|
    else if d.idx == cur then 0
    else
      var rest := d.idx + |d.bytes| - Resume(cur, d.idx, size);
      if rest < d.idx - cur then rest else d.idx - cur
  }

  /** The packet reaches, counted from the old index, the boundary the padder resumes at. */
  ghost predicate LongEnough(cur: nat, d: Delivery, size: nat)
    requires size > 0
  {
    Resume(cur, d.idx, size) - cur <= |d.bytes|
  }

  /** What a packet does to the lag: it shrinks or stays unless the packet is dropped as late, and
      it stays at `d.idx - cur` after a gap exactly when the packet is long enough. */
  lemma NextLagBounds(cur: nat, d: Delivery, size: nat)
    requires size > 0
    ensures NextLag(cur, d, size) <= d.idx - cur <==> cur <= d.idx || d.bytes == []
    ensures cur < d.idx ==> (NextLag(cur, d, size) == d.idx - cur <==> LongEnough(cur, d, size))
    ensures cur < d.idx ==> 0 < NextLag(cur, d, size) + size
  {
    DivMod.CeilBoundary(d.idx, size);
  }

  lemma LagStep(s: Path, d: Delivery, pad: nat, size: nat)
    requires |s.padder.partial| < size && DrainsBy(SKIP_FROM_OLD, s, d, size)
    ensures d.idx + |d.bytes| - DeliverBy(SKIP_FROM_OLD, s, d, pad, size).padder.cur == NextLag(s.padder.cur, d, size)
  {
    if s.padder.cur < d.idx {
      hide DeliverBy, DrainsBy;
      GapReaches(s, d, pad, size);
    }
  }

  /** The stream goes on without further loss: each packet starts where the last one ended and is
      drained. */
  ghost predicate GoesOn(before: seq<Delivery>, more: seq<Delivery>, pad: nat, size: nat)
    requires size > 0
  {
    more == [] ||
    var n := |more| - 1;
    var sofar, d := before + more[..n], more[n];
    && GoesOn(before, more[..n], pad, size)
    && d.idx == End(sofar) && DrainsBy(SKIP_FROM_OLD, RunBy(SKIP_FROM_OLD, sofar, pad, size), d, size)
  }

  /** The exact law: the lag along any continuation without loss, packet by packet. */
  lemma LagGoesOn(before: seq<Delivery>, more: seq<Delivery>, pad: nat, size: nat)
    returns (init: seq<Delivery>, sofar: seq<Delivery>, d: Delivery)
    requires size > 0 && more != [] && GoesOn(before, more, pad, size)
    ensures init == more[..|more| - 1] && d == more[|more| - 1] && GoesOn(before, init, pad, size)
    ensures sofar == before + init && d.idx == End(sofar)
    ensures Lag(before + more, pad, size) == NextLag(RunBy(SKIP_FROM_OLD, sofar, pad, size).padder.cur, d, size)
  {
    hide DrainsBy, RunBy, NextLag, Lag, End;
    init, d := more[..|more| - 1], more[|more| - 1];
    sofar := before + init;
    assert before + more == sofar + [d];
    LagSnoc(sofar, d, pad, size);
  }

  lemma LagSnoc(schedule: seq<Delivery>, d: Delivery, pad: nat, size: nat)
    requires size > 0 && DrainsBy(SKIP_FROM_OLD, RunBy(SKIP_FROM_OLD, schedule, pad, size), d, size)
    ensures Lag(schedule + [d], pad, size) == NextLag(RunBy(SKIP_FROM_OLD, schedule, pad, size).padder.cur, d, size)
  {
    hide DrainsBy, RunBy, DeliverBy, NextLag;
    RunSnoc(SKIP_FROM_OLD, schedule, d, pad, size);
    RunCounted(SKIP_FROM_OLD, schedule, pad, size);
    LagStep(RunBy(SKIP_FROM_OLD, schedule, pad, size), d, pad, size);
  }

  /** The lag is `g` after each packet of the continuation. */
  ghost predicate StaysBehind(before: seq<Delivery>, more: seq<Delivery>, g: nat, pad: nat, size: nat)
    requires size > 0
  {
    Lag(before + more, pad, size) == g && (more == [] || StaysBehind(before, more[..|more| - 1], g, pad, size))
  }

  ghost predicate AllLong(before: seq<Delivery>, more: seq<Delivery>, pad: nat, size: nat)
    requires size > 0
  {
    more == [] ||
    var n := |more| - 1;
    && AllLong(before, more[..n], pad, size)
    && LongEnough(RunBy(SKIP_FROM_OLD, before + more[..n], pad, size).padder.cur, more[n], size)
  }

  /** One loss displaces the stream for as long as it goes on without another one, exactly if each
      packet is long enough to reach past the boundary after the gap; a shorter one ends it. */
  lemma {:induction false} DisplacedForGood(before: seq<Delivery>, more: seq<Delivery>, g: nat, pad: nat, size: nat)
    requires size > 0 && g > 0 && GoesOn(before, more, pad, size) && Lag(before, pad, size) == g
    ensures StaysBehind(before, more, g, pad, size) <==> AllLong(before, more, pad, size)
  {
    if more == [] {
      assert before + more == before;
    } else {
      var init, sofar, d := LagGoesOn(before, more, pad, size);
      hide DrainsBy, RunBy, NextLag, LongEnough, GoesOn;
      DisplacedForGood(before, init, g, pad, size);
      NextLagBounds(RunBy(SKIP_FROM_OLD, sofar, pad, size).padder.cur, d, size);
      if init == [] {
        assert sofar == before;
      }
    }
  }

  /** No packet of the continuation is dropped as late. */
  ghost predicate NoneLate(before: seq<Delivery>, more: seq<Delivery>, pad: nat, size: nat)
    requires size > 0
  {
    more == [] ||
    var n := |more| - 1;
    && NoneLate(before, more[..n], pad, size)
    && RunBy(SKIP_FROM_OLD, before + more[..n], pad, size).padder.cur <= more[n].idx
  }

  /** The displacement never grows while no packet is late. */
  lemma {:induction false} LagNeverGrows(before: seq<Delivery>, more: seq<Delivery>, pad: nat, size: nat)
    requires size > 0 && GoesOn(before, more, pad, size) && NoneLate(before, more, pad, size)
    ensures Lag(before + more, pad, size) <= Lag(before, pad, size)
  {
    if more == [] {
      assert before + more == before;
    } else {
      var init, sofar, d := LagGoesOn(before, more, pad, size);
      hide DrainsBy, RunBy, NextLag, GoesOn;
      LagNeverGrows(before, init, pad, size);
      NextLagBounds(RunBy(SKIP_FROM_OLD, sofar, pad, size).padder.cur, d, size);
    }
  }

  /** One byte per sample, byte 0 lost: sample 2 is played in the place of sample 1. */
  lemma FirstByteLost(a: Byte, b: Byte, c: Byte, pad: nat)
    ensures var samples, d := [a as nat, b as nat, c as nat], Delivery(1, [b, c], 2);
            && Fit(samples, 1) && SliceOf(d, Encode(samples, 1))
            && RunBy(SKIP_FROM_OLD, [d], pad, 1).out == [pad, c]
            && RunBy(SKIP_FROM_OLD, [d], pad, 1).padder.cur == 2
  {
    var stream: seq<Byte> := [a, b, c];
    OneByteSamples(stream);
    assert [a as nat, b as nat, c as nat] == Whole(stream, 1);
    var d := Delivery(1, [b, c], 2);
    assert d.bytes == stream[1..3] && [] + [d] == [d];
    hide DeliverBy, Whole, Encode;
    RunSnoc(SKIP_FROM_OLD, [], d, pad, 1);
    LostByte(Path(FRESH, [], {}), stream, d, pad, 1);
  }

  /** One byte per sample and one byte lost: one padding sample, and one byte skipped. */
  lemma OneLost(cur: nat, d: Delivery, size: nat)
    requires cur == 0 && size == 1 && d.idx == 1 && |d.bytes| == 2
    ensures Resume(cur, d.idx, size) == 1 && Gap(cur, d.idx, size) == 1 && KeptLength(cur, d, size) == 1
    ensures Pulled(0, 1, 1, size) == 1
  {
    DivMod.CeilDivBounds(d.idx, size);
    DivMod.BoundaryIsMul(1, size);
  }

  lemma LostByte(s: Path, stream: seq<Byte>, d: Delivery, pad: nat, size: nat)
    requires s == Path(FRESH, [], {}) && size == 1
    requires |stream| == 3 && d == Delivery(1, stream[1..3], 2)
    ensures var s' := DeliverBy(SKIP_FROM_OLD, s, d, pad, size);
            s'.out == [pad, stream[2]] && s'.padder.cur == 2
  {
    hide DeliverBy, Whole, Rest, Resume, Gap, KeptLength, Pulled;
    OneLost(s.padder.cur, d, size);
    var n, piece := GapEffect(s, d, stream, pad, size);
    assert piece == [stream[2]];
    OneByteSamples(piece);
    assert Whole(piece, 1) == [stream[2]];
  }

  lemma {:induction false} OneByteSamples(bytes: seq<Byte>)
    ensures |Whole(bytes, 1)| == |bytes| && forall i :: 0 <= i < |bytes| ==> Whole(bytes, 1)[i] == bytes[i]
    ensures Fit(Whole(bytes, 1), 1) && Encode(Whole(bytes, 1), 1) == bytes
  {
    EncodeWhole(bytes, 1);
    if bytes != [] {
      OneByteSamples(bytes[1..]);
    }
  }

  /** A short packet ends the displacement: after the packet of `FirstByteLost` the padder is one
      byte behind, and an empty packet puts it back in step. */
  lemma EmptyPacketRestores(b: Byte, c: Byte, pad: nat)
    ensures var d, e := Delivery(1, [b, c], 2), Delivery(3, [], 1);
            && Lag([d], pad, 1) == 1 && GoesOn([d], [e], pad, 1)
            && RunBy(SKIP_FROM_OLD, [d, e], pad, 1).padder.cur == 3 == End([d, e])
  {
    var d, e := Delivery(1, [b, c], 2), Delivery(3, [], 1);
    FirstByteLost(0, b, c, pad);
    hide RunBy, DrainsBy, NextLag, GoesOn;
    assert [d] + [e] == [d, e];
    EmptyDrains(RunBy(SKIP_FROM_OLD, [d], pad, 1), e, 1);
    LagSnoc([d], e, pad, 1);
    GoesOnOnce([d], e, pad, 1);
  }

  lemma GoesOnOnce(before: seq<Delivery>, d: Delivery, pad: nat, size: nat)
    requires size > 0 && d.idx == End(before)
    requires DrainsBy(SKIP_FROM_OLD, RunBy(SKIP_FROM_OLD, before, pad, size), d, size)
    ensures GoesOn(before, [d], pad, size)
  {
    hide RunBy, DrainsBy;
    assert [d][..0] == [] && before + [] == before;
  }

  /** An empty packet right after one missing sample of one byte. */
  lemma EmptyDrains(s: Path, d: Delivery, size: nat)
    requires size == 1 && s.padder.cur + 1 == d.idx && d.bytes == [] && d.limit >= 1
    ensures DrainsBy(SKIP_FROM_OLD, s, d, size) && NextLag(s.padder.cur, d, size) == 0
  {
    DivMod.CeilDivBounds(d.idx, size);
    DivMod.BoundaryIsMul(d.idx, size);
  }

  /** A late packet makes the displacement grow: with two bytes per sample and byte 0 lost, an
      empty packet puts the padder one byte ahead, and the next packet is dropped whole. */
  lemma LatePacketGrows(bytes: seq<Byte>, pad: nat)
    requires |bytes| == 5
    ensures var d, e := Delivery(1, [], 9), Delivery(1, bytes, 9);
            Lag([d], pad, 2) == -1 && GoesOn([d], [e], pad, 2) && Lag([d, e], pad, 2) == 4
  {
    var d, e := Delivery(1, [], 9), Delivery(1, bytes, 9);
    var s := Path(FRESH, [], {});
    assert RunBy(SKIP_FROM_OLD, [], pad, 2) == s;
    hide RunBy, DrainsBy, NextLag, GoesOn;
    assert [] + [d] == [d] && [d] + [e] == [d, e];
    AheadByOne(s, d, 2);
    LagSnoc([], d, pad, 2);
    RunCounted(SKIP_FROM_OLD, [d], pad, 2);
    LateDrains(RunBy(SKIP_FROM_OLD, [d], pad, 2), e, 2);
    LagSnoc([d], e, pad, 2);
    GoesOnOnce([d], e, pad, 2);
  }

  lemma AheadByOne(s: Path, d: Delivery, size: nat)
    requires size == 2 && s.padder.cur == 0 && d == Delivery(1, [], 9)
    ensures DrainsBy(SKIP_FROM_OLD, s, d, size) && NextLag(s.padder.cur, d, size) == -1
  {
    DivMod.CeilDivBounds(d.idx, size);
    DivMod.BoundaryIsMul(1, size);
  }

  lemma LateDrains(s: Path, d: Delivery, size: nat)
    requires d.idx < s.padder.cur && |s.padder.partial| < size && d.limit >= 1
    ensures DrainsBy(SKIP_FROM_OLD, s, d, size) && NextLag(s.padder.cur, d, size) == d.idx + |d.bytes| - s.padder.cur
  {
    DivMod.BoundaryLe(1, d.limit, size);
    assert DivMod.Boundary(1, size) == size;
  }
}

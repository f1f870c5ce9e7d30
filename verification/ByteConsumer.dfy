/** Rebuilding samples from indexed byte packets (syfala_utils/src/byte_consumer.rs).

    `Feed` is the closed form of one packet going through `AudioPacketSamplePadder::feed_bytes`
    into a sink that accepts at most `limit` samples; the class below does the same work
    byte by byte, in place, and is proved against it.

    Two expressions of the source do not do what the surrounding text says. `Build` keeps
    both readings of each, so that every result says which code it is about:
      - line 122 measures the bytes to skip from the old expected index, but skips them in a
        packet that starts at `byte_idx` (`skipFromPacket` is the repaired reading);
      - lines 152-153 slice the sample buffer by `curr - SIZE .. curr` with `curr = SIZE - 1`,
        a strict subtraction that panics (`wholeBuffer` is the repaired reading). */
module ByteConsumer {
  import opened Common
  import opened SampleCodec
  import DivMod

  datatype Build = Build(skipFromPacket: bool, wholeBuffer: bool)

  const AS_WRITTEN := Build(false, false)
  const REPAIRED := Build(true, true)

  /** The padder between two packets: the next expected byte index, and the bytes already
      received of the sample that index falls in. */
  datatype Padder = Padder(cur: nat, partial: seq<Byte>)

  const FRESH := Padder(0, [])

  ghost predicate WellFormed(p: Padder, size: nat) {
    size > 0 && |p.partial| == p.cur % size
  }

  datatype Fed = Fed(padder: Padder, out: seq<nat>, panicked: bool)

  /** How many padding samples a packet at `idx` calls for: one for each sample from the one
      `cur` falls in up to the first boundary at or after `idx`. */
  function Gap(cur: nat, idx: nat, size: nat): (n: nat)
    requires size > 0
    ensures n > 0 <==> cur < idx
    ensures cur < idx ==> idx <= DivMod.Boundary(cur / size + n, size) < idx + size
  {
    if cur < idx then
      GapPositive(cur, idx, size);
      DivMod.CeilBoundary(idx, size);
      DivMod.CeilDiv(idx, size) - cur / size
    else 0
  }

  lemma GapPositive(cur: nat, idx: nat, size: nat)
    requires size > 0 && cur < idx
    ensures cur / size < DivMod.CeilDiv(idx, size)
    ensures cur < DivMod.Boundary(DivMod.CeilDiv(idx, size), size)
  {
    DivMod.CeilBoundary(idx, size);
    DivMod.BelowBoundary(cur, DivMod.CeilDiv(idx, size), size);
  }

  /** Where the byte stream continues: the expected index, or the next sample boundary. */
  ghost function Resume(cur: nat, idx: nat, size: nat): (pos: nat)
    requires size > 0
  {
    if cur < idx then DivMod.Boundary(DivMod.CeilDiv(idx, size), size) else cur
  }

  /** The bytes of a packet that reach the sample buffer's side of the `skip` adapter. */
  ghost function Kept(build: Build, cur: nat, idx: nat, bytes: seq<Byte>, size: nat): (kept: seq<Byte>)
    requires size > 0
  {
    if idx < cur then []
    else if idx == cur then bytes
    else
      DivMod.CeilBoundary(idx, size);
      var skip := Resume(cur, idx, size) - (if build.skipFromPacket then idx else cur);
      if skip <= |bytes| then bytes[skip..] else []
  }

  function Carried(p: Padder, idx: nat): (partial: seq<Byte>) {
    if p.cur < idx then [] else p.partial
  }

  /** How many bytes are pulled when the sink still takes `quota` samples. */
  ghost function Pulled(carried: nat, kept: nat, quota: nat, size: nat): (n: nat)
    ensures n <= kept
  {
    var room := DivMod.Boundary(quota, size);
    if room < carried then 0 else Min(room - carried, kept)
  }

  /** The samples the sink still takes after the padding; a panic ends the packet at its first
      completed sample. */
  function Quota(build: Build, limit: nat, gap: nat): (q: nat) {
    var left := if limit < gap then 0 else limit - gap;
    if build.wholeBuffer then left else Min(left, 1)
  }

  /** What `feed_bytes` has decided before anything is pulled (lines 105-140). */
  datatype Plan = Plan(gap: nat, from: nat, carried: seq<Byte>, kept: seq<Byte>)

  ghost function PlanFor(build: Build, p: Padder, idx: nat, bytes: seq<Byte>, size: nat): (plan: Plan)
    requires size > 0
  {
    Plan(Gap(p.cur, idx, size), Resume(p.cur, idx, size), Carried(p, idx),
         Kept(build, p.cur, idx, bytes, size))
  }

  /** What a sink taking `limit` samples then pulls out of the iterator. */
  ghost function Emit(build: Build, plan: Plan, limit: nat, pad: nat, size: nat): (f: Fed)
    requires size > 0
  {
    var pulled := Pulled(|plan.carried|, |plan.kept|, Quota(build, limit, plan.gap), size);
    var taken := plan.carried + plan.kept[..pulled];
    var rebuilt := Whole(taken, size);
    Fed(Padder(plan.from + pulled, Rest(taken, size)),
        Repeat(pad, Min(limit, plan.gap)) + (if build.wholeBuffer then rebuilt else []),
        !build.wholeBuffer && rebuilt != [])
  }

  ghost function Feed(build: Build, p: Padder, idx: nat, bytes: seq<Byte>, limit: nat, pad: nat, size: nat): (f: Fed)
    requires size > 0
  {
    Emit(build, PlanFor(build, p, idx, bytes, size), limit, pad, size)
  }

  lemma ResumeAligned(p: Padder, idx: nat, size: nat)
    requires WellFormed(p, size)
    ensures |Carried(p, idx)| == Resume(p.cur, idx, size) % size
    ensures p.cur <= Resume(p.cur, idx, size)
  {
    if p.cur < idx {
      GapPositive(p.cur, idx, size);
      DivMod.InBlock(Resume(p.cur, idx, size), size, DivMod.CeilDiv(idx, size));
    }
  }

  /** Pulling stopped where the source stops: at the end of the packet or at the sample that
      filled the sink. */
  ghost predicate StopsAt(carried: seq<Byte>, kept: seq<Byte>, quota: nat, size: nat, n: nat)
    requires size > 0
  {
    && n <= |kept|
    && (quota == 0 ==> n == 0)
    && var samples := |Whole(carried + kept[..n], size)|;
       && (quota > 0 && samples >= quota ==> samples == quota && Rest(carried + kept[..n], size) == [])
       && (n < |kept| ==> samples >= quota)
  }

  lemma StopsAtPulled(carried: seq<Byte>, kept: seq<Byte>, quota: nat, size: nat, n: nat)
    requires size > 0 && |carried| < size && StopsAt(carried, kept, quota, size, n)
    ensures n == Pulled(|carried|, |kept|, quota, size)
  {
    var samples := |Whole(carried + kept[..n], size)|;
    WholeLength(carried + kept[..n], size);
    if quota > 0 {
      DivMod.BoundaryLe(1, quota, size);
      if samples < quota {
        DivMod.BoundaryLe(samples, quota, size);
      }
    }
  }

  /** Everything a packet has to offer: its padding, then the samples that its bytes complete. */
  ghost function Offer(build: Build, p: Padder, idx: nat, bytes: seq<Byte>, pad: nat, size: nat): (samples: seq<nat>)
    requires size > 0
  {
    Repeat(pad, Gap(p.cur, idx, size)) + Whole(Carried(p, idx) + Kept(build, p.cur, idx, bytes, size), size)
  }

  /** One packet, exactly: the sink is given as much of the offer as it takes, in order. A sink that
      takes more than is offered leaves the padder at the end of the packet with the bytes over;
      one that is full before leaves it right after the last sample taken, and where the packet
      resumes if that was padding. */
  lemma FeedExact(build: Build, p: Padder, idx: nat, bytes: seq<Byte>, limit: nat, pad: nat, size: nat)
    requires build.wholeBuffer && |p.partial| < size
    ensures var f, offer := Feed(build, p, idx, bytes, limit, pad, size), Offer(build, p, idx, bytes, pad, size);
            var kept, carried := Kept(build, p.cur, idx, bytes, size), Carried(p, idx);
            var gap, from := Gap(p.cur, idx, size), Resume(p.cur, idx, size);
            && !f.panicked && f.out == offer[..Min(limit, |offer|)]
            && (limit > |offer| ==> f.padder == Padder(from + |kept|, Rest(carried + kept, size)))
            && (gap < limit <= |offer| ==>
                  f.padder.partial == [] && f.padder.cur + |carried| == from + DivMod.Boundary(limit - gap, size))
            && (limit <= gap ==> f.padder == Padder(from, carried))
  {
    hide Kept, Resume, Gap, Emit, Whole, Rest;
    var plan := PlanFor(build, p, idx, bytes, size);
    var n := Pulled(|plan.carried|, |plan.kept|, Quota(build, limit, plan.gap), size);
    PulledExact(plan.carried, plan.kept, Quota(build, limit, plan.gap), n, size);
    EmitIs(build, plan, limit, pad, size, n);
  }

  lemma EmitIs(build: Build, plan: Plan, limit: nat, pad: nat, size: nat, n: nat)
    requires size > 0 && build.wholeBuffer
    requires n == Pulled(|plan.carried|, |plan.kept|, Quota(build, limit, plan.gap), size)
    ensures var taken, f := plan.carried + plan.kept[..n], Emit(build, plan, limit, pad, size);
            && f.padder == Padder(plan.from + n, Rest(taken, size)) && !f.panicked
            && f.out == Repeat(pad, Min(limit, plan.gap)) + Whole(taken, size)
  {
    hide Whole, Rest;
  }

  /** Where a sink that takes `quota` samples stops, and what it has then. */
  lemma PulledExact(carried: seq<Byte>, kept: seq<Byte>, quota: nat, n: nat, size: nat)
    requires |carried| < size && n == Pulled(|carried|, |kept|, quota, size)
    ensures var all, taken := carried + kept, carried + kept[..n];
            && Whole(taken, size) == Whole(all, size)[..Min(quota, |Whole(all, size)|)]
            && (quota > |Whole(all, size)| ==> n == |kept| && taken == all)
            && (0 < quota <= |Whole(all, size)| ==>
                  Rest(taken, size) == [] && n + |carried| == DivMod.Boundary(quota, size))
            && (quota == 0 ==> n == 0 && Rest(taken, size) == carried)
  {
    var all := carried + kept;
    WholeLength(all, size);
    if quota == 0 {
      assert carried + kept[..0] == carried;
    } else if quota <= |Whole(all, size)| {
      WholeFront(all, size, quota);
      DivMod.BoundaryLe(1, quota, size);
      hide Whole, Rest;
      assert carried + kept[..n] == all[..DivMod.Boundary(quota, size)];
    } else {
      DivMod.BoundaryLe(|Whole(all, size)| + 1, quota, size);
      hide Whole, Rest;
      assert kept[..n] == kept;
    }
  }

  /** `AudioPacketSamplePadder`, together with the silence value used as padding. */
  class SamplePadder {
    const build: Build
    const size: nat
    const silence: nat
    var currentByteIdx: nat
    const currentSampleBytes: array<Byte>

    ghost predicate Valid()
      reads this, currentSampleBytes
    {
      size > 0 && currentSampleBytes.Length == size
    }

    ghost function View(): (p: Padder)
      requires Valid()
      reads this, currentSampleBytes
      ensures WellFormed(p, size)
    {
      Padder(currentByteIdx, currentSampleBytes[..currentByteIdx % size])
    }

    constructor (build: Build, size: nat, silence: nat)
      requires 0 < size < 256
      ensures Valid() && fresh(currentSampleBytes)
      ensures currentByteIdx == 0 && View() == FRESH
      ensures this.build == build && this.size == size && this.silence == silence
    {
      this.build, this.size, this.silence := build, size, silence;
      currentByteIdx := 0;
      currentSampleBytes := new Byte[size](_ => 0);
      assert 0 % size == 0;
    }

    /** One packet, pulled through the lazy iterator by a sink that takes `limit` samples. */
    method FeedBytes(byteIdx: nat, bytes: seq<Byte>, limit: nat) returns (out: seq<nat>, panicked: bool)
      requires Valid()
      requires byteIdx + size + |bytes| < U64 && currentByteIdx + |bytes| < U64
      modifies this, currentSampleBytes
      ensures Valid()
      ensures Fed(View(), out, panicked)
           == Feed(build, old(View()), byteIdx, bytes, limit, silence, size)
    {
      ghost var plan := PlanFor(build, View(), byteIdx, bytes, size);
      var paddingSpls, kept := Align(byteIdx, bytes);
      assert plan == Plan(paddingSpls, currentByteIdx, View().partial, kept);
      out := Repeat(silence, Min(limit, paddingSpls));
      ghost var quota := Quota(build, limit, paddingSpls);
      ghost var carried := View().partial;
      var rebuilt;
      ghost var pulled;
      if limit < paddingSpls {
        rebuilt, panicked, pulled := [], false, 0;
        assert carried + kept[..0] == carried;
      } else {
        rebuilt, panicked, pulled := PullSamples(kept, limit - paddingSpls);
        StopsAtPulled(carried, kept, quota, size, pulled);
      }
      out := out + rebuilt;
    }

    /** Lines 105-133: where the packet starts relative to what is expected. */
    method Align(byteIdx: nat, bytes: seq<Byte>) returns (paddingSpls: nat, kept: seq<Byte>)
      requires Valid()
      modifies this`currentByteIdx
      ensures paddingSpls == Gap(old(currentByteIdx), byteIdx, size)
      ensures kept == Kept(build, old(currentByteIdx), byteIdx, bytes, size)
      ensures View() == Padder(Resume(old(currentByteIdx), byteIdx, size), Carried(old(View()), byteIdx))
    {
      ghost var p0 := View();
      var skippedBytes := 0;
      paddingSpls := 0;
      if byteIdx < currentByteIdx {
        skippedBytes := |bytes|;
      } else if byteIdx > currentByteIdx {
        GapPositive(currentByteIdx, byteIdx, size);
        DivMod.CeilBoundary(byteIdx, size);
        var prevSplIdx := currentByteIdx / size;
        var nextSplIdx := (byteIdx + (size - 1)) / size;
        paddingSpls := nextSplIdx - prevSplIdx;
        var nextSplByteIdx := nextSplIdx * size;
        skippedBytes := nextSplByteIdx - (if build.skipFromPacket then byteIdx else currentByteIdx);
        currentByteIdx := nextSplByteIdx;
      }
      kept := if skippedBytes <= |bytes| then bytes[skippedBytes..] else [];
      ResumeAligned(p0, byteIdx, size);
    }

    /** The `filter_map` of `feed_bytes`: store each byte in place, emit each completed sample. */
    method PullSamples(kept: seq<Byte>, left: nat)
      returns (rebuilt: seq<nat>, panicked: bool, ghost pulled: nat)
      requires Valid()
      modifies this, currentSampleBytes
      ensures Valid()
      ensures StopsAt(old(View()).partial, kept, if build.wholeBuffer then left else Min(left, 1), size, pulled)
      ensures var taken := old(View()).partial + kept[..pulled];
              && View() == Padder(old(currentByteIdx) + pulled, Rest(taken, size))
              && rebuilt == (if build.wholeBuffer then Whole(taken, size) else [])
              && panicked == (!build.wholeBuffer && Whole(taken, size) != [])
    {
      ghost var partial := View().partial;
      ghost var quota := if build.wholeBuffer then left else Min(left, 1);
      rebuilt, panicked := [], false;
      var i := 0;
      ghost var taken := partial;
      assert taken == partial + kept[..0];
      assert Whole(taken, size) == [] && Rest(taken, size) == taken;
      hide Whole, Rest, FromBytes;
      while i < |kept| && |rebuilt| < left && !panicked
        invariant 0 <= i <= |kept|
        invariant taken == partial + kept[..i]
        invariant View() == Padder(old(currentByteIdx) + i, Rest(taken, size))
        invariant rebuilt == (if build.wholeBuffer then Whole(taken, size) else [])
        invariant panicked == (!build.wholeBuffer && Whole(taken, size) != [])
        invariant quota == 0 ==> i == 0
        invariant quota > 0 && |Whole(taken, size)| >= quota ==>
                    |Whole(taken, size)| == quota && Rest(taken, size) == []
      {
        WholeSnoc(taken, kept[i], size);
        taken := taken + [kept[i]];
        var completed := PutByte(kept[i]);
        if completed {
          if build.wholeBuffer {
            rebuilt := rebuilt + [FromBytes(currentSampleBytes[..])];
          } else {
            panicked := true;
          }
        }
        i := i + 1;
      }
      pulled := i;
    }

    method PutByte(byte: Byte) returns (completed: bool)
      requires Valid()
      modifies this, currentSampleBytes
      ensures Valid() && currentByteIdx == old(currentByteIdx) + 1
      ensures completed == (|old(View()).partial| + 1 == size)
      ensures completed ==> View().partial == [] && currentSampleBytes[..] == old(View()).partial + [byte]
      ensures !completed ==> View().partial == old(View()).partial + [byte]
    {
      DivMod.Step(currentByteIdx, size);
      var curr := currentByteIdx % size;
      currentSampleBytes[curr] := byte;
      currentByteIdx := currentByteIdx + 1;
      completed := currentByteIdx % size == 0;
      assert currentSampleBytes[..curr + 1] == old(View()).partial + [byte];
    }
  }
}

/** The byte path over a lossy network: packets cut anywhere out of the encoded sample
    stream, then dropped, duplicated and reordered at will, fed to the padder one by one. */
module LossyPath {
  import opened Common
  import opened SampleCodec
  import opened ByteConsumer
  import DivMod

  /** One packet handed to the padder, and how many samples the sink accepts from it. */
  datatype Delivery = Delivery(idx: nat, bytes: seq<Byte>, limit: nat)

  /** The padder, everything the sink was given, and the stream positions whose bytes the
      padder stored. */
  datatype Path = Path(padder: Padder, out: seq<nat>, got: set<nat>)

  ghost function Span(lo: nat, hi: nat): (s: set<nat>)
    ensures forall q: nat :: q in s <==> lo <= q < hi
    decreases hi - lo
  {
    if lo < hi then {lo} + Span(lo + 1, hi) else {}
  }

  ghost function Accepted(p: Padder, idx: nat, p': Padder, size: nat): (s: set<nat>)
    requires size > 0
  {
    Span(Resume(p.cur, idx, size), p'.cur)
  }

  /** One packet through a build that does not panic. */
  ghost function DeliverBy(build: Build, s: Path, d: Delivery, pad: nat, size: nat): (s': Path)
    requires size > 0 && build.wholeBuffer
  {
    var f := Feed(build, s.padder, d.idx, d.bytes, d.limit, pad, size);
    Path(f.padder, s.out + f.out, s.got + Accepted(s.padder, d.idx, f.padder, size))
  }

  ghost function RunBy(build: Build, schedule: seq<Delivery>, pad: nat, size: nat): (s: Path)
    requires size > 0 && build.wholeBuffer
  {
    if schedule == [] then Path(FRESH, [], {})
    else
      var n := |schedule| - 1;
      DeliverBy(build, RunBy(build, schedule[..n], pad, size), schedule[n], pad, size)
  }

  ghost function Deliver(s: Path, d: Delivery, pad: nat, size: nat): (s': Path)
    requires size > 0
  {
    DeliverBy(REPAIRED, s, d, pad, size)
  }

  ghost function Run(schedule: seq<Delivery>, pad: nat, size: nat): (s: Path)
    requires size > 0
  {
    RunBy(REPAIRED, schedule, pad, size)
  }

  lemma RunSnoc(build: Build, schedule: seq<Delivery>, d: Delivery, pad: nat, size: nat)
    requires size > 0 && build.wholeBuffer
    ensures RunBy(build, schedule + [d], pad, size) == DeliverBy(build, RunBy(build, schedule, pad, size), d, pad, size)
  {
    hide DeliverBy;
    assert (schedule + [d])[..|schedule|] == schedule;
  }

  lemma OutputGrows(s: Path, d: Delivery, pad: nat, size: nat)
    requires size > 0
    ensures s.out <= Deliver(s, d, pad, size).out
  {
    hide Feed;
  }

  /** The packet carries the bytes of `stream` at its index. */
  ghost predicate SliceOf(d: Delivery, stream: seq<Byte>) {
    d.idx + |d.bytes| <= |stream| && d.bytes == stream[d.idx..d.idx + |d.bytes|]
  }

  /** The sink took at least the padding of the packet. */
  ghost predicate TakesPadding(s: Path, d: Delivery, size: nat)
    requires size > 0
  {
    Gap(s.padder.cur, d.idx, size) <= d.limit
  }

  ghost predicate Admissible(schedule: seq<Delivery>, samples: seq<nat>, pad: nat, size: nat)
    requires size > 0 && Fit(samples, size)
  {
    schedule == [] ||
    var n := |schedule| - 1;
    && Admissible(schedule[..n], samples, pad, size)
    && SliceOf(schedule[n], Encode(samples, size))
    && TakesPadding(Run(schedule[..n], pad, size), schedule[n], size)
  }

  /** Every byte of sample `k` is among the positions `got`. */
  ghost predicate Covered(got: set<nat>, k: nat, size: nat) {
    forall q: nat :: DivMod.Boundary(k, size) <= q < DivMod.Boundary(k, size) + size ==> q in got
  }

  /** The expected index is `|partial|` bytes into the sample that comes next. */
  ghost predicate Aligned(s: Path, size: nat) {
    |s.padder.partial| < size && s.padder.cur == DivMod.Boundary(|s.out|, size) + |s.padder.partial|
  }

  /** The padder holds the bytes of the stream just before its expected index. */
  ghost predicate Held(s: Path, samples: seq<nat>, size: nat)
    requires Fit(samples, size)
  {
    var p, stream := s.padder, Encode(samples, size);
    && Aligned(s, size)
    && |p.partial| <= p.cur <= |stream| && |s.out| <= |samples|
    && p.partial == stream[p.cur - |p.partial|..p.cur]
  }

  /** Exactly the samples all of whose bytes were stored came out; the others are padding. */
  ghost predicate Exact(s: Path, samples: seq<nat>, pad: nat, size: nat)
    requires |s.out| <= |samples|
  {
    && (forall q :: q in s.got ==> q < s.padder.cur)
    && (forall q: nat :: DivMod.Boundary(|s.out|, size) <= q < s.padder.cur ==> q in s.got)
    && forall k: nat :: k < |s.out| ==> s.out[k] == if Covered(s.got, k, size) then samples[k] else pad
  }

  // ----- One packet

  /** After `n` whole samples and `r` bytes, the padder resumes at a boundary that is as many
      samples further as there is padding. */
  lemma ResumeBlocks(cur: nat, idx: nat, n: nat, r: nat, size: nat)
    requires r < size && cur == DivMod.Boundary(n, size) + r
    ensures Resume(cur, idx, size)
         == DivMod.Boundary(n + Gap(cur, idx, size), size) + (if cur < idx then 0 else r)
  {
    DivMod.InBlock(cur, size, n);
  }

  lemma ResumeArithmetic(cur: nat, idx: nat, n: nat, r: nat, count: nat, size: nat)
    requires r < size && cur == DivMod.Boundary(n, size) + r
    requires cur <= DivMod.Boundary(count, size) && idx <= DivMod.Boundary(count, size)
    ensures n + Gap(cur, idx, size) <= count
    ensures cur < idx ==> cur < Resume(cur, idx, size) == DivMod.Boundary(n + Gap(cur, idx, size), size) < idx + size
    ensures Resume(cur, idx, size) <= DivMod.Boundary(count, size)
  {
    DivMod.InBlock(cur, size, n);
    if cur < idx {
      var c := DivMod.CeilDiv(idx, size);
      DivMod.CeilBoundary(idx, size);
      if c <= count { DivMod.BoundaryLe(c, count, size); } else { DivMod.BoundaryLe(count, c, size); }
    } else if count < n {
      DivMod.BoundaryLe(count, n, size);
    }
  }

  /** The padder resumes inside the stream, right after the padding. */
  lemma ResumeInStream(s: Path, d: Delivery, samples: seq<nat>, size: nat)
    requires Aligned(s, size) && Fit(samples, size)
    requires s.padder.cur <= |Encode(samples, size)| && SliceOf(d, Encode(samples, size))
    ensures var p, gap := s.padder, Gap(s.padder.cur, d.idx, size);
            && Resume(p.cur, d.idx, size) == DivMod.Boundary(|s.out| + gap, size) + |Carried(p, d.idx)|
            && p.cur <= Resume(p.cur, d.idx, size) <= |Encode(samples, size)|
            && |s.out| + gap <= |samples|
            && (gap > 0 ==> p.cur < Resume(p.cur, d.idx, size) < d.idx + size)
  {
    EncodeLength(samples, size);
    ResumeArithmetic(s.padder.cur, d.idx, |s.out|, |s.padder.partial|, |samples|, size);
  }

  lemma Join(stream: seq<Byte>, carried: seq<Byte>, kept: seq<Byte>, from: nat, n: nat)
    requires |carried| <= from && from + |kept| <= |stream| && n <= |kept|
    requires carried == stream[from - |carried|..from] && kept == stream[from..from + |kept|]
    ensures carried + kept[..n] == stream[from - |carried|..from + n]
  {
    assert kept[..n] == stream[from..from + n];
  }

  lemma KeptIsStream(cur: nat, d: Delivery, stream: seq<Byte>, size: nat)
    requires size > 0 && SliceOf(d, stream) && Resume(cur, d.idx, size) <= |stream|
    ensures var from, kept := Resume(cur, d.idx, size), Kept(REPAIRED, cur, d.idx, d.bytes, size);
            from + |kept| <= |stream| && kept == stream[from..from + |kept|]
  {
    if cur < d.idx {
      DivMod.CeilBoundary(d.idx, size);
      var from := Resume(cur, d.idx, size);
      var skip := from - d.idx;
      if skip <= |d.bytes| {
        assert d.bytes[skip..] == stream[from..d.idx + |d.bytes|];
      }
    }
  }

  /** Cutting a piece that starts at the boundary of sample `first` gives the samples from
      there on, and leaves the bytes of the sample it ends in. */
  ghost predicate Cut(samples: seq<nat>, size: nat, first: nat, to: nat, whole: seq<nat>, rest: seq<Byte>)
    requires Fit(samples, size)
  {
    && first <= |samples| && whole <= samples[first..]
    && to == DivMod.Boundary(first + |whole|, size) + |rest| && |rest| < size
    && to <= |Encode(samples, size)| && rest == Encode(samples, size)[to - |rest|..to]
  }

  lemma CutPiece(samples: seq<nat>, size: nat, first: nat, base: nat, to: nat, piece: seq<Byte>)
    requires size > 0 && Fit(samples, size) && first <= |samples|
    requires base == DivMod.Boundary(first, size) && base <= to <= |Encode(samples, size)|
    requires piece == Encode(samples, size)[base..to]
    ensures Cut(samples, size, first, to, Whole(piece, size), Rest(piece, size))
  {
    CutTail(samples, size, first, base, to, piece);
    WholeLength(piece, size);
    DivMod.BoundaryAdd(first, |Whole(piece, size)|, size);
  }

  lemma CutTail(samples: seq<nat>, size: nat, first: nat, base: nat, to: nat, piece: seq<Byte>)
    requires size > 0 && Fit(samples, size) && first <= |samples|
    requires base == DivMod.Boundary(first, size) && base <= to <= |Encode(samples, size)|
    requires piece == Encode(samples, size)[base..to]
    ensures Whole(piece, size) <= samples[first..]
    ensures |Rest(piece, size)| <= to
    ensures Rest(piece, size) == Encode(samples, size)[to - |Rest(piece, size)|..to]
  {
    EncodeDrop(samples, size, first);
    Shifted(Encode(samples, size), Encode(samples[first..], size), base, to, 0);
    WholeOfPrefix(samples[first..], size, to - base, piece);
    Shifted(Encode(samples, size), Encode(samples[first..], size), base, to, |Rest(piece, size)|);
  }

  lemma Shifted(stream: seq<Byte>, tail: seq<Byte>, base: nat, to: nat, r: nat)
    requires base + r <= to <= |stream| && stream[base..] == tail
    ensures stream[base..to] == tail[..to - base]
    ensures tail[to - base - r..to - base] == stream[to - r..to]
  {
  }

  /** The plan for a packet, once its arithmetic is settled: what is carried over and what is
      kept of the packet join into an unbroken piece of the stream. */
  ghost predicate Sound(plan: Plan, s: Path, samples: seq<nat>, size: nat)
    requires Fit(samples, size)
  {
    var stream, first := Encode(samples, size), |s.out| + plan.gap;
    && |plan.carried| < size && first <= |samples|
    && s.padder.cur <= plan.from && (plan.gap == 0 ==> s.padder.cur == plan.from)
    && plan.from == DivMod.Boundary(first, size) + |plan.carried|
    && (plan.gap > 0 ==> s.padder.cur < plan.from && plan.carried == [])
    && plan.from + |plan.kept| <= |stream|
    && plan.carried == stream[plan.from - |plan.carried|..plan.from]
    && plan.kept == stream[plan.from..plan.from + |plan.kept|]
  }

  lemma PlanIsSound(s: Path, d: Delivery, samples: seq<nat>, size: nat)
    requires size > 0 && Fit(samples, size) && Held(s, samples, size)
    requires SliceOf(d, Encode(samples, size))
    ensures Sound(PlanFor(REPAIRED, s.padder, d.idx, d.bytes, size), s, samples, size)
  {
    hide Encode, Kept;
    ResumeInStream(s, d, samples, size);
    KeptIsStream(s.padder.cur, d, Encode(samples, size), size);
  }

  /** One packet's effect, free of the padder's arithmetic: `gap` padding samples, then the
      stream's own samples. The positions counted as received grow by those from `low` on;
      each padding sample has a byte below `low`. */
  ghost predicate Effect(s: Path, s': Path, samples: seq<nat>, pad: nat, size: nat,
                         gap: nat, low: nat, from: nat, whole: seq<nat>)
  {
    && s.padder.cur <= low <= from <= s'.padder.cur
    && |s.out| + gap <= |samples|
    && (gap > 0 ==> s.padder.cur < low && from < low + size)
    && (gap > 0 ==> from == DivMod.Boundary(|s.out| + gap, size))
    && (gap == 0 ==> from == s.padder.cur)
    && whole <= samples[|s.out| + gap..]
    && s'.out == s.out + Repeat(pad, gap) + whole
    && s'.got == s.got + Span(low, s'.padder.cur)
  }

  /** The samples rebuilt from one packet, and where the stream then stands. */
  lemma PullRebuilds(plan: Plan, s: Path, samples: seq<nat>, size: nat, n: nat, taken: seq<Byte>)
    requires size > 0 && Fit(samples, size) && Sound(plan, s, samples, size) && n <= |plan.kept|
    requires taken == plan.carried + plan.kept[..n]
    ensures Cut(samples, size, |s.out| + plan.gap, plan.from + n, Whole(taken, size), Rest(taken, size))
  {
    hide Whole, Rest, Encode, Cut;
    Join(Encode(samples, size), plan.carried, plan.kept, plan.from, n);
    CutPiece(samples, size, |s.out| + plan.gap, plan.from - |plan.carried|, plan.from + n, taken);
  }

  lemma EmitParts(plan: Plan, s: Path, limit: nat, samples: seq<nat>, pad: nat, size: nat)
    returns (n: nat, whole: seq<nat>, rest: seq<Byte>)
    requires size > 0 && Fit(samples, size) && Sound(plan, s, samples, size) && plan.gap <= limit
    ensures Cut(samples, size, |s.out| + plan.gap, plan.from + n, whole, rest)
    ensures Emit(REPAIRED, plan, limit, pad, size)
         == Fed(Padder(plan.from + n, rest), Repeat(pad, plan.gap) + whole, false)
  {
    n := Pulled(|plan.carried|, |plan.kept|, Quota(REPAIRED, limit, plan.gap), size);
    var taken := plan.carried + plan.kept[..n];
    PullRebuilds(plan, s, samples, size, n, taken);
    whole, rest := Whole(taken, size), Rest(taken, size);
  }

  lemma DeliverEffect(s: Path, d: Delivery, samples: seq<nat>, pad: nat, size: nat)
    returns (gap: nat, from: nat, whole: seq<nat>)
    requires size > 0 && Fit(samples, size) && Held(s, samples, size)
    requires SliceOf(d, Encode(samples, size)) && TakesPadding(s, d, size)
    ensures gap == Gap(s.padder.cur, d.idx, size) && from == Resume(s.padder.cur, d.idx, size)
    ensures Held(Deliver(s, d, pad, size), samples, size)
    ensures Effect(s, Deliver(s, d, pad, size), samples, pad, size, gap, from, from, whole)
  {
    var plan := PlanFor(REPAIRED, s.padder, d.idx, d.bytes, size);
    PlanIsSound(s, d, samples, size);
    whole := PlanEffect(plan, s, Deliver(s, d, pad, size), d.limit, samples, pad, size);
    gap, from := plan.gap, plan.from;
  }

  lemma PlanEffect(plan: Plan, s: Path, s': Path, limit: nat, samples: seq<nat>, pad: nat, size: nat)
    returns (whole: seq<nat>)
    requires size > 0 && Fit(samples, size) && Sound(plan, s, samples, size) && plan.gap <= limit
    requires var f := Emit(REPAIRED, plan, limit, pad, size);
             s' == Path(f.padder, s.out + f.out, s.got + Span(plan.from, f.padder.cur))
    ensures Held(s', samples, size)
    ensures Effect(s, s', samples, pad, size, plan.gap, plan.from, plan.from, whole)
  {
    hide Emit, Encode;
    var n, rest;
    n, whole, rest := EmitParts(plan, s, limit, samples, pad, size);
  }

  // ----- Which samples are covered

  lemma CoveredBefore(got: set<nat>, from: nat, to: nat, k: nat, size: nat)
    requires DivMod.Boundary(k, size) + size <= from
    ensures Covered(got + Span(from, to), k, size) == Covered(got, k, size)
  {
    var more := got + Span(from, to);
    assert forall q: nat :: q < from ==> (q in more <==> q in got);
  }

  lemma EffectExact(s: Path, s': Path, samples: seq<nat>, pad: nat, size: nat,
                    gap: nat, low: nat, from: nat, whole: seq<nat>)
    requires size > 0 && |s.out| <= |samples| && |s'.out| <= |samples|
    requires Aligned(s, size) && Aligned(s', size) && Exact(s, samples, pad, size)
    requires Effect(s, s', samples, pad, size, gap, low, from, whole)
    ensures Exact(s', samples, pad, size)
  {
    forall k: nat | k < |s'.out|
      ensures s'.out[k] == if Covered(s'.got, k, size) then samples[k] else pad
    {
      EffectAt(s, s', samples, pad, size, gap, low, from, whole, k);
    }
    DivMod.BoundaryLe(|s.out| + gap, |s'.out|, size);
  }

  lemma EffectAt(s: Path, s': Path, samples: seq<nat>, pad: nat, size: nat,
                 gap: nat, low: nat, from: nat, whole: seq<nat>, k: nat)
    requires size > 0 && |s.out| <= |samples| && k < |s'.out| <= |samples|
    requires Aligned(s, size) && Aligned(s', size) && Exact(s, samples, pad, size)
    requires Effect(s, s', samples, pad, size, gap, low, from, whole)
    ensures s'.out[k] == if Covered(s'.got, k, size) then samples[k] else pad
  {
    var cur, first := s.padder.cur, |s.out| + gap;
    DivMod.BoundaryLe(k, |s'.out|, size);
    if k < |s.out| {
      DivMod.BoundaryLe(k, |s.out|, size);
      CoveredBefore(s.got, low, s'.padder.cur, k, size);
    } else if k < first {
      DivMod.BoundaryLe(k, first, size);
      DivMod.BoundaryLe(|s.out|, k, size);
      var q := if cur < DivMod.Boundary(k, size) then DivMod.Boundary(k, size) else cur;
      assert q !in s'.got;
    } else {
      DivMod.BoundaryLe(first, k, size);
      assert Covered(s'.got, k, size);
    }
  }

  // ----- Whole runs

  lemma {:induction false} RunExact(schedule: seq<Delivery>, samples: seq<nat>, pad: nat, size: nat)
    requires size > 0 && Fit(samples, size) && Admissible(schedule, samples, pad, size)
    ensures Held(Run(schedule, pad, size), samples, size)
    ensures Exact(Run(schedule, pad, size), samples, pad, size)
  {
    if schedule != [] {
      var n := |schedule| - 1;
      var before, d := schedule[..n], schedule[n];
      RunExact(before, samples, pad, size);
      var s := Run(before, pad, size);
      var gap, from, whole := DeliverEffect(s, d, samples, pad, size);
      EffectExact(s, Deliver(s, d, pad, size), samples, pad, size, gap, from, from, whole);
    }
  }

  /** End to end: whatever the network drops, duplicates or reorders, the k-th sample out is
      the k-th sample in when every one of its bytes was stored, and padding otherwise. */
  lemma EndToEnd(schedule: seq<Delivery>, samples: seq<nat>, pad: nat, size: nat, k: nat)
    requires size > 0 && Fit(samples, size) && Admissible(schedule, samples, pad, size)
    ensures var s := Run(schedule, pad, size);
            && |s.out| <= |samples|
            && (k < |s.out| ==> s.out[k] == if Covered(s.got, k, size) then samples[k] else pad)
  {
    hide Run, Admissible;
    RunExact(schedule, samples, pad, size);
  }

  // ----- How many samples come out, whatever the sink takes

  /** How much of a packet's padding the sink does not take. */
  ghost function Refusal(cur: nat, d: Delivery, size: nat): (n: nat)
    requires size > 0
  {
    var gap := Gap(cur, d.idx, size);
    if gap <= d.limit then 0 else gap - d.limit
  }

  /** All the padding that was refused along a run. */
  ghost function Refused(build: Build, schedule: seq<Delivery>, pad: nat, size: nat): (n: nat)
    requires size > 0 && build.wholeBuffer
  {
    if schedule == [] then 0
    else
      var n := |schedule| - 1;
      Refused(build, schedule[..n], pad, size)
      + Refusal(RunBy(build, schedule[..n], pad, size).padder.cur, schedule[n], size)
  }

  lemma {:induction false} RefusedPrefix(build: Build, schedule: seq<Delivery>, i: nat, pad: nat, size: nat)
    requires size > 0 && build.wholeBuffer && i <= |schedule|
    ensures Refused(build, schedule[..i], pad, size) <= Refused(build, schedule, pad, size)
  {
    hide RunBy, Refusal;
    if i == |schedule| {
      assert schedule[..i] == schedule;
    } else {
      RefusedPrefix(build, schedule[..|schedule| - 1], i, pad, size);
      assert schedule[..|schedule| - 1][..i] == schedule[..i];
    }
  }

  /** The expected index counts the samples out and the padding refused. */
  ghost predicate Counted(s: Path, refused: nat, size: nat) {
    && |s.padder.partial| < size
    && s.padder.cur == DivMod.Boundary(|s.out| + refused, size) + |s.padder.partial|
  }

  lemma DeliverCounted(build: Build, s: Path, d: Delivery, refused: nat, pad: nat, size: nat)
    requires build.wholeBuffer && Counted(s, refused, size)
    ensures Counted(DeliverBy(build, s, d, pad, size), refused + Refusal(s.padder.cur, d, size), size)
  {
    var plan := PlanFor(build, s.padder, d.idx, d.bytes, size);
    ResumeBlocks(s.padder.cur, d.idx, |s.out| + refused, |s.padder.partial|, size);
    EmitCounted(build, plan, d.limit, |s.out| + refused + plan.gap, pad, size);
  }

  lemma EmitCounted(build: Build, plan: Plan, limit: nat, first: nat, pad: nat, size: nat)
    requires build.wholeBuffer && |plan.carried| < size && plan.gap <= first
    requires plan.from == DivMod.Boundary(first, size) + |plan.carried|
    requires plan.gap > 0 ==> plan.carried == []
    ensures var f := Emit(build, plan, limit, pad, size);
            var refused := if plan.gap <= limit then 0 else plan.gap - limit;
            && |f.padder.partial| < size
            && f.padder.cur == DivMod.Boundary(first - plan.gap + |f.out| + refused, size) + |f.padder.partial|
  {
    var n := Pulled(|plan.carried|, |plan.kept|, Quota(build, limit, plan.gap), size);
    var taken := plan.carried + plan.kept[..n];
    WholeLength(taken, size);
    DivMod.BoundaryAdd(first, |Whole(taken, size)|, size);
  }

  lemma {:induction false} RunCounted(build: Build, schedule: seq<Delivery>, pad: nat, size: nat)
    requires size > 0 && build.wholeBuffer
    ensures Counted(RunBy(build, schedule, pad, size), Refused(build, schedule, pad, size), size)
  {
    if schedule != [] {
      hide DeliverBy, Counted, Refusal;
      var n := |schedule| - 1;
      RunCounted(build, schedule[..n], pad, size);
      DeliverCounted(build, RunBy(build, schedule[..n], pad, size), schedule[n],
                     Refused(build, schedule[..n], pad, size), pad, size);
    }
  }

  /** Samples are conserved: in every run, whatever arrives and wherever the sink stops, the
      samples out and the padding refused add up to the expected byte index in whole samples.
      So the timeline is kept exactly as long as no padding is refused, and one refusal shifts
      everything after it for good. */
  lemma OutCount(build: Build, schedule: seq<Delivery>, pad: nat, size: nat)
    requires size > 0 && build.wholeBuffer
    ensures var s, refused := RunBy(build, schedule, pad, size), Refused(build, schedule, pad, size);
            && |s.out| + refused == s.padder.cur / size && |s.padder.partial| == s.padder.cur % size
            && (Aligned(s, size) <==> refused == 0)
  {
    hide RunBy, Refused, Counted, Aligned;
    RunCounted(build, schedule, pad, size);
    CountedAligned(RunBy(build, schedule, pad, size), Refused(build, schedule, pad, size), size);
  }

  lemma CountedAligned(s: Path, refused: nat, size: nat)
    requires Counted(s, refused, size)
    ensures |s.out| + refused == s.padder.cur / size && |s.padder.partial| == s.padder.cur % size
    ensures Aligned(s, size) <==> refused == 0
  {
    DivMod.InBlock(s.padder.cur, size, |s.out| + refused);
    DivMod.BoundaryLe(|s.out|, |s.out| + refused, size);
  }

  /** No packet yields more samples than the sink has room for. */
  lemma FeedFits(p: Padder, idx: nat, bytes: seq<Byte>, limit: nat, pad: nat, size: nat)
    requires |p.partial| < size
    ensures |Feed(REPAIRED, p, idx, bytes, limit, pad, size).out| <= limit
  {
    var plan := PlanFor(REPAIRED, p, idx, bytes, size);
    var quota := Quota(REPAIRED, limit, plan.gap);
    var taken := plan.carried + plan.kept[..Pulled(|plan.carried|, |plan.kept|, quota, size)];
    WholeLength(taken, size);
    var whole := |Whole(taken, size)|;
    if quota < whole {
      DivMod.BoundaryLe(quota, whole, size);
    }
  }
}

/** The indexed single-producer single-consumer ring (syfala_utils/src/queue.rs).

    `State` is what the two ends share: the slots of the library ring, the two counters, the
    receive in progress, and the history of everything ever pushed. A receive is not atomic:
    it takes a snapshot (`Begin`), pulls items one by one through the lazy iterator (`Pop`) and
    frees the slots when the iterator is dropped (`Commit`); sends may happen in between.
    Of the library ring only this is assumed: a chunk covers a snapshot of the available
    slots, `fill_from_iter` writes at most that many items, and only iterated items leave. */
module IndexedQueue {
  import opened Common
  import Counters

  datatype Recv<T> =
    | Idle
    | Receiving(idx: nat, pads: nat, skip: nat, chunk: nat, taken: nat, yielded: seq<T>)

  datatype State<T> = State(slots: seq<T>, tx: nat, rx: nat, history: seq<T>, recv: Recv<T>)

  /** `room` is the number of free slots the sender saw, which may be out of date. */
  datatype Step<T> =
    | Send(idx: nat, values: seq<T>, room: nat)
    | Begin(idx: nat)
    | Pop
    | Commit

  /** `shift_iter`: skip `deviation` elements, or put that many padding elements in front. */
  function Shift<T>(values: seq<T>, deviation: int, pad: T): (out: seq<T>) {
    if deviation < 0 then Repeat(pad, -deviation) + values
    else if deviation <= |values| then values[deviation..]
    else []
  }

  predicate Enabled<T>(s: State<T>, step: Step<T>, capacity: nat) {
    match step
    case Send(_, _, room) => |s.slots| + room <= capacity
    case Begin(_) => s.recv.Idle?
    case Pop => s.recv.Receiving?
    case Commit => s.recv.Receiving?
  }

  /** One `next()` on the iterator that `recv` returned. */
  function PopRecv<T>(r: Recv<T>, slots: seq<T>, pad: T): (r': Recv<T>)
    requires r.Receiving?
  {
    if r.pads > 0 then r.(pads := r.pads - 1, yielded := r.yielded + [pad])
    else
      var at := Min(r.taken + r.skip, r.chunk);
      if at < r.chunk && at < |slots| then
        r.(skip := 0, taken := at + 1, yielded := r.yielded + [slots[at]])
      else
        r.(skip := 0, taken := at)
  }

  /** How many elements a receive has still to yield. */
  function Offered<T>(r: Recv<T>): (n: nat)
    requires r.Receiving?
  {
    r.pads + (if r.taken + r.skip < r.chunk then r.chunk - r.taken - r.skip else 0)
  }

  function Apply<T>(s: State<T>, step: Step<T>, pad: T): (s': State<T>)
  {
    match step
    case Send(idx, values, room) =>
      var out := Shift(values, s.tx - idx, pad);
      var pushed := out[..Min(room, |out|)];
      s.(slots := s.slots + pushed, tx := s.tx + |pushed|, history := s.history + pushed)
    case Begin(idx) =>
      var deviation := idx - s.rx;
      s.(recv := Receiving(idx, if deviation < 0 then -deviation else 0,
                           if deviation < 0 then 0 else deviation, |s.slots|, 0, []))
    case Pop =>
      if s.recv.Receiving? then s.(recv := PopRecv(s.recv, s.slots, pad)) else s
    case Commit =>
      if s.recv.Receiving? && s.recv.taken <= |s.slots| then
        s.(slots := s.slots[s.recv.taken..], rx := s.rx + s.recv.taken, recv := Idle)
      else s
  }

  /** A receive at `idx` offers the padding up to the receive counter and every element of the
      ring from there, or from `idx` if that is later. */
  lemma BeginOffers<T>(s: State<T>, idx: nat, pad: T)
    ensures var r := Apply(s, Begin(idx), pad).recv;
            && r.Receiving?
            && idx + Offered(r) == if s.rx + |s.slots| < idx then idx else s.rx + |s.slots|
  {
  }

  // ----- What every step keeps

  /** What a receive at `idx` yielded: padding before the receive counter `rx`, and from there
      on the timeline itself, below position `end`. */
  ghost predicate Yields<T>(yielded: seq<T>, idx: nat, rx: nat, end: nat, base: nat, history: seq<T>, pad: T) {
    && base <= rx && end <= base + |history|
    && (yielded == [] || idx + |yielded| <= rx || idx + |yielded| <= end)
    && forall j :: 0 <= j < |yielded| ==>
         yielded[j] == if idx + j < rx then pad else history[idx + j - base]
  }

  /** The iterator's own bookkeeping, and what it has yielded so far. */
  ghost predicate RecvInv<T>(s: State<T>, base: nat, pad: T) {
    s.recv.Receiving? ==>
      var r := s.recv;
      && r.taken <= r.chunk <= |s.slots|
      && (r.pads > 0 ==> r.skip == 0 && r.taken == 0 && r.idx + |r.yielded| + r.pads == s.rx)
      && (r.skip > 0 ==> r.pads == 0 && r.taken == 0 && r.yielded == [] && r.idx == s.rx + r.skip)
      && (r.pads == 0 && r.skip == 0 ==> s.rx + r.taken <= r.idx + |r.yielded|)
      && (r.pads == 0 && r.skip == 0 && r.taken < r.chunk ==> s.rx + r.taken == r.idx + |r.yielded|)
      && Yields(r.yielded, r.idx, s.rx, s.rx + r.chunk, base, s.history, pad)
  }

  ghost predicate Inv<T>(s: State<T>, base: nat, capacity: nat, pad: T) {
    && base <= s.rx <= s.tx == base + |s.history|
    && s.slots == s.history[s.rx - base..]
    && |s.slots| <= capacity
    && RecvInv(s, base, pad)
  }

  /** What one send adds: the positions from the counter up to the end of the values, as far
      as there is room; padding before `idx`, the submitted value from there on. */
  lemma SendFills<T>(s: State<T>, idx: nat, values: seq<T>, room: nat, pad: T)
    returns (pushed: seq<T>)
    ensures var s' := Apply(s, Send(idx, values, room), pad);
            && s'.history == s.history + pushed && s'.slots == s.slots + pushed
            && s'.tx == s.tx + |pushed| && s'.rx == s.rx && s'.recv == s.recv
    ensures |pushed| == Min(room, if s.tx < idx + |values| then idx + |values| - s.tx else 0)
    ensures forall i :: 0 <= i < |pushed| ==>
              pushed[i] == if s.tx + i < idx then pad else values[s.tx + i - idx]
  {
    var out := Shift(values, s.tx - idx, pad);
    pushed := out[..Min(room, |out|)];
  }

  lemma SendKeeps<T>(s: State<T>, idx: nat, values: seq<T>, room: nat, base: nat, capacity: nat, pad: T)
    requires Inv(s, base, capacity, pad) && |s.slots| + room <= capacity
    ensures Inv(Apply(s, Send(idx, values, room), pad), base, capacity, pad)
  {
    hide Apply, Yields;
    var pushed := SendFills(s, idx, values, room, pad);
    if s.recv.Receiving? {
      var r := s.recv;
      YieldsMore(r.yielded, r.idx, s.rx, s.rx + r.chunk, base, s.history, pushed, pad);
    }
  }

  lemma YieldsMore<T>(yielded: seq<T>, idx: nat, rx: nat, end: nat, base: nat, history: seq<T>, more: seq<T>, pad: T)
    requires Yields(yielded, idx, rx, end, base, history, pad)
    ensures Yields(yielded, idx, rx, end, base, history + more, pad)
  {
    assert forall i :: 0 <= i < |history| ==> (history + more)[i] == history[i];
  }

  lemma PopKeeps<T>(s: State<T>, base: nat, capacity: nat, pad: T)
    requires Inv(s, base, capacity, pad) && s.recv.Receiving?
    ensures Inv(Apply(s, Pop, pad), base, capacity, pad)
  {
    hide Yields;
    var r := s.recv;
    var at := Min(r.taken + r.skip, r.chunk);
    if r.pads > 0 {
      YieldsSnoc(r.yielded, pad, r.idx, s.rx, s.rx + r.chunk, base, s.history, pad);
    } else if at < r.chunk {
      YieldsSnoc(r.yielded, s.slots[at], r.idx, s.rx, s.rx + r.chunk, base, s.history, pad);
    }
  }

  lemma YieldsSnoc<T>(yielded: seq<T>, v: T, idx: nat, rx: nat, end: nat, base: nat, history: seq<T>, pad: T)
    requires Yields(yielded, idx, rx, end, base, history, pad)
    requires base <= rx && end <= base + |history|
    requires if idx + |yielded| < rx then v == pad
             else idx + |yielded| < end && v == history[idx + |yielded| - base]
    ensures Yields(yielded + [v], idx, rx, end, base, history, pad)
  {
  }

  lemma StepKeeps<T>(s: State<T>, step: Step<T>, base: nat, capacity: nat, pad: T)
    requires Inv(s, base, capacity, pad) && Enabled(s, step, capacity)
    ensures Inv(Apply(s, step, pad), base, capacity, pad)
  {
    match step
    case Send(idx, values, room) => SendKeeps(s, idx, values, room, base, capacity, pad);
    case Begin(_) =>
    case Pop => PopKeeps(s, base, capacity, pad);
    case Commit =>
  }

  // ----- Whole runs

  ghost function Start<T>(base: nat): (s: State<T>) {
    State([], base, base, [], Idle)
  }

  function RunFrom<T>(s: State<T>, steps: seq<Step<T>>, pad: T): (s': State<T>) {
    if steps == [] then s
    else Apply(RunFrom(s, steps[..|steps| - 1], pad), steps[|steps| - 1], pad)
  }

  lemma RunFromSnoc<T>(s: State<T>, steps: seq<Step<T>>, step: Step<T>, pad: T)
    ensures RunFrom(s, steps + [step], pad) == Apply(RunFrom(s, steps, pad), step, pad)
  {
    hide Apply;
    assert (steps + [step])[..|steps|] == steps;
  }

  lemma OneStep<T>(s: State<T>, step: Step<T>, capacity: nat, pad: T)
    ensures RunFrom(s, [], pad) == s && LegalFrom(s, [], capacity, pad)
    ensures RunFrom(s, [step], pad) == Apply(s, step, pad)
    ensures LegalFrom(s, [step], capacity, pad) <==> Enabled(s, step, capacity)
  {
    hide Apply, Enabled;
    assert [step][..0] == [];
  }

  lemma LegalSnoc<T>(s: State<T>, steps: seq<Step<T>>, step: Step<T>, capacity: nat, pad: T)
    ensures LegalFrom(s, steps + [step], capacity, pad)
            <==> LegalFrom(s, steps, capacity, pad) && Enabled(RunFrom(s, steps, pad), step, capacity)
  {
    hide Apply, Enabled, RunFrom;
    assert (steps + [step])[..|steps|] == steps;
  }

  ghost predicate LegalFrom<T>(s: State<T>, steps: seq<Step<T>>, capacity: nat, pad: T) {
    steps == [] ||
    var n := |steps| - 1;
    && LegalFrom(s, steps[..n], capacity, pad)
    && Enabled(RunFrom(s, steps[..n], pad), steps[n], capacity)
  }

  ghost function Run<T>(steps: seq<Step<T>>, base: nat, pad: T): (s: State<T>) {
    RunFrom(Start(base), steps, pad)
  }

  ghost predicate Legal<T>(steps: seq<Step<T>>, base: nat, capacity: nat, pad: T) {
    LegalFrom(Start(base), steps, capacity, pad)
  }

  /** Some send offered `v` for timeline position `p`. */
  ghost predicate Submitted<T>(steps: seq<Step<T>>, p: nat, v: T) {
    exists i :: 0 <= i < |steps| && Offers(steps[i], p, v)
  }

  ghost predicate Offers<T>(step: Step<T>, p: nat, v: T) {
    step.Send? && step.idx <= p < step.idx + |step.values| && step.values[p - step.idx] == v
  }

  lemma {:induction false} RunKeeps<T>(s: State<T>, steps: seq<Step<T>>, base: nat, capacity: nat, pad: T)
    requires Inv(s, base, capacity, pad) && LegalFrom(s, steps, capacity, pad)
    ensures Inv(RunFrom(s, steps, pad), base, capacity, pad)
  {
    if steps != [] {
      var n := |steps| - 1;
      RunKeeps(s, steps[..n], base, capacity, pad);
      StepKeeps(RunFrom(s, steps[..n], pad), steps[n], base, capacity, pad);
    }
  }

  /** Every element of the history is padding or was submitted for exactly its position. */
  ghost predicate Sourced<T>(history: seq<T>, steps: seq<Step<T>>, base: nat, pad: T) {
    forall i :: 0 <= i < |history| ==> history[i] == pad || Submitted(steps, base + i, history[i])
  }

  /** Step `i` is the send that filled position `p`: the counter passed it there. */
  ghost predicate Fills<T>(steps: seq<Step<T>>, i: nat, p: nat, base: nat, pad: T) {
    && i < |steps| && steps[i].Send?
    && Run(steps[..i], base, pad).tx <= p < Run(steps[..i + 1], base, pad).tx
  }

  /** What a send puts at a position that it fills: padding before its index, its own value after. */
  ghost predicate Puts<T>(step: Step<T>, p: nat, pad: T, v: T) {
    step.Send? && p < step.idx + |step.values| && v == if p < step.idx then pad else step.values[p - step.idx]
  }

  /** The ring's contents, exactly: every position was filled by a send, and holds what that send
      puts there. By `FilledOnce` it is the only one. */
  lemma {:induction false} FilledBy<T>(steps: seq<Step<T>>, base: nat, capacity: nat, pad: T, p: nat) returns (i: nat)
    requires Legal(steps, base, capacity, pad) && base <= p < Run(steps, base, pad).tx
    ensures Run(steps, base, pad).tx == base + |Run(steps, base, pad).history|
    ensures Fills(steps, i, p, base, pad) && Puts(steps[i], p, pad, Run(steps, base, pad).history[p - base])
  {
    var n := |steps| - 1;
    var before, s := steps[..n], Run(steps[..n], base, pad);
    CountsHistory(steps, base, capacity, pad);
    CountsHistory(before, base, capacity, pad);
    assert Run(steps, base, pad) == Apply(s, steps[n], pad);
    assert steps[..n + 1] == steps;
    hide Run, Apply, Legal, Puts;
    if p < s.tx {
      StepAppends(s, steps[n], pad);
      hide Fills;
      i := FilledBy(before, base, capacity, pad, p);
      FillsLonger(steps, n, i, p, base, pad);
    } else {
      i := n;
      StepPuts(s, steps[n], base, pad, p);
    }
  }

  lemma FillsLonger<T>(steps: seq<Step<T>>, n: nat, i: nat, p: nat, base: nat, pad: T)
    requires n <= |steps| && Fills(steps[..n], i, p, base, pad)
    ensures Fills(steps, i, p, base, pad) && steps[..n][i] == steps[i]
  {
    hide Run;
    assert steps[..n][..i] == steps[..i] && steps[..n][..i + 1] == steps[..i + 1];
  }

  lemma CountsHistory<T>(steps: seq<Step<T>>, base: nat, capacity: nat, pad: T)
    requires Legal(steps, base, capacity, pad)
    ensures Run(steps, base, pad).tx == base + |Run(steps, base, pad).history|
  {
    RunKeeps(Start(base), steps, base, capacity, pad);
  }

  lemma StepPuts<T>(s: State<T>, step: Step<T>, base: nat, pad: T, p: nat)
    requires s.tx == base + |s.history| && s.tx <= p < Apply(s, step, pad).tx
    requires Apply(s, step, pad).tx == base + |Apply(s, step, pad).history|
    ensures Puts(step, p, pad, Apply(s, step, pad).history[p - base])
  {
    if step.Send? {
      var pushed := SendFills(s, step.idx, step.values, step.room, pad);
    }
  }

  /** Nothing in the history ever changes. */
  lemma StepAppends<T>(s: State<T>, step: Step<T>, pad: T)
    ensures s.history <= Apply(s, step, pad).history && s.tx <= Apply(s, step, pad).tx
  {
  }

  lemma {:induction false} TxGrows<T>(steps: seq<Step<T>>, i: nat, j: nat, base: nat, pad: T)
    requires i <= j <= |steps|
    ensures Run(steps[..i], base, pad).tx <= Run(steps[..j], base, pad).tx
  {
    if i < j {
      TxGrows(steps, i, j - 1, base, pad);
      assert steps[..j][..j - 1] == steps[..j - 1];
      StepAppends(Run(steps[..j - 1], base, pad), steps[j - 1], pad);
    }
  }

  lemma FilledOnce<T>(steps: seq<Step<T>>, i: nat, j: nat, p: nat, base: nat, pad: T)
    requires Fills(steps, i, p, base, pad) && Fills(steps, j, p, base, pad)
    ensures i == j
  {
    hide Run;
    if i < j {
      TxGrows(steps, i + 1, j, base, pad);
    } else if j < i {
      TxGrows(steps, j + 1, i, base, pad);
    }
  }

  lemma RunSourced<T>(steps: seq<Step<T>>, base: nat, capacity: nat, pad: T)
    requires Legal(steps, base, capacity, pad)
    ensures Sourced(Run(steps, base, pad).history, steps, base, pad)
  {
    hide Run, Legal;
    CountsHistory(steps, base, capacity, pad);
    var history := Run(steps, base, pad).history;
    forall k | 0 <= k < |history| && history[k] != pad ensures Submitted(steps, base + k, history[k]) {
      FilledIsSubmitted(steps, base, capacity, pad, k);
    }
  }

  lemma FilledIsSubmitted<T>(steps: seq<Step<T>>, base: nat, capacity: nat, pad: T, k: nat)
    requires Legal(steps, base, capacity, pad) && k < |Run(steps, base, pad).history|
    ensures var v := Run(steps, base, pad).history[k]; v == pad || Submitted(steps, base + k, v)
  {
    hide Run, Legal;
    CountsHistory(steps, base, capacity, pad);
    var i := FilledBy(steps, base, capacity, pad, base + k);
    if steps[i].idx <= base + k {
      assert Offers(steps[i], base + k, Run(steps, base, pad).history[k]);
    }
  }

  /** The ring timeline under concurrency: in every interleaving of sends at arbitrary indices
      with the steps of receives, no more than the capacity is in flight, everything in the
      ring's history is padding or was submitted for its own position, and what a receive
      requested at `idx` has yielded is the history from `idx` on, preceded by padding
      exactly up to the receive counter. */
  lemma Timeline<T>(steps: seq<Step<T>>, base: nat, capacity: nat, pad: T)
    requires Legal(steps, base, capacity, pad)
    ensures var s := Run(steps, base, pad);
            && base <= s.rx <= s.tx == base + |s.history| && s.tx - s.rx <= capacity
            && Sourced(s.history, steps, base, pad)
            && (s.recv.Receiving? ==> Yields(s.recv.yielded, s.recv.idx, s.rx, s.tx, base, s.history, pad))
  {
    RunKeeps(Start(base), steps, base, capacity, pad);
    RunSourced(steps, base, capacity, pad);
    YieldsBelowTx(Run(steps, base, pad), base, capacity, pad);
  }

  lemma YieldsBelowTx<T>(s: State<T>, base: nat, capacity: nat, pad: T)
    requires Inv(s, base, capacity, pad)
    ensures s.recv.Receiving? ==> Yields(s.recv.yielded, s.recv.idx, s.rx, s.tx, base, s.history, pad)
  {
    if s.recv.Receiving? {
      assert Yields(s.recv.yielded, s.recv.idx, s.rx, s.rx + s.recv.chunk, base, s.history, pad);
    }
  }

  // ----- The adapters

  /** `IndexedTx` and `IndexedRx` at the two ends of one library ring. Either counter notifies
      its waker as the elements really pushed, or really popped, cross period boundaries. */
  class IndexedRing<T> {
    const capacity: nat
    const pad: T
    const base: nat
    const txCounter: Counters.PeriodicCounter
    const rxCounter: Counters.PeriodicCounter
    var slots: seq<T>
    var recv: Recv<T>
    ghost var history: seq<T>

    ghost function View(): (s: State<T>)
      reads this, txCounter, rxCounter
    {
      State(slots, txCounter.count, rxCounter.count, history, recv)
    }

    ghost predicate Valid()
      reads this, txCounter, rxCounter
    {
      && txCounter != rxCounter && txCounter.Valid() && rxCounter.Valid()
      && txCounter.initial == rxCounter.initial == base
      && Inv(View(), base, capacity, pad)
    }

    constructor (capacity: nat, pad: T, base: nat, txPeriod: nat, rxPeriod: nat)
      requires txPeriod > 0 && rxPeriod > 0
      ensures Valid() && View() == Start(base) && fresh(txCounter) && fresh(rxCounter)
      ensures this.capacity == capacity && this.pad == pad && this.base == base
      ensures txCounter.period == txPeriod && rxCounter.period == rxPeriod
    {
      this.capacity, this.pad, this.base := capacity, pad, base;
      txCounter := new Counters.PeriodicCounter(txPeriod, base);
      rxCounter := new Counters.PeriodicCounter(rxPeriod, base);
      slots, recv, history := [], Idle, [];
    }

    /** `IndexedTx::send`. In all there was one wake event for each period boundary that the
        elements pushed since the start have passed. */
    method SendAt(idx: nat, values: seq<T>, room: nat)
      requires Valid() && |slots| + room <= capacity
      requires -I64 <= txCounter.count - idx < I64 && txCounter.count + room < U64
      modifies this`slots, this`history, txCounter
      ensures Valid()
      ensures View() == Apply(old(View()), Send(idx, values, room), pad)
      ensures txCounter.woken == |Counters.Multiples(base, base + |history|, txCounter.period)|
      ensures txCounter.woken == old(txCounter.woken)
                               + |Counters.Multiples(base + |old(history)|, base + |history|, txCounter.period)|
    {
      ghost var s := View();
      SendKeeps(s, idx, values, room, base, capacity, pad);
      var deviation := txCounter.count - idx;
      var out := Shift(values, deviation, pad);
      var pushed := FillFromIter(out, room);
      txCounter.Advance(pushed);
      assert View() == Apply(s, Send(idx, values, room), pad);
    }

    method FillFromIter(out: seq<T>, room: nat) returns (pushed: nat)
      modifies this`slots, this`history
      ensures pushed == Min(room, |out|)
      ensures slots == old(slots) + out[..pushed] && history == old(history) + out[..pushed]
    {
      pushed := 0;
      while pushed < room && pushed < |out|
        invariant 0 <= pushed <= Min(room, |out|)
        invariant slots == old(slots) + out[..pushed] && history == old(history) + out[..pushed]
      {
        slots, history := slots + [out[pushed]], history + [out[pushed]];
        pushed := pushed + 1;
      }
    }

    /** `IndexedRx::recv`: the chunk and the shifted iterator over it. */
    method RecvAt(idx: nat)
      requires Valid() && recv.Idle?
      requires -I64 <= idx - rxCounter.count < I64
      modifies this`recv
      ensures Valid() && View() == Apply(old(View()), Begin(idx), pad)
    {
      var deviation := idx - rxCounter.count;
      var padding, skipping := 0, 0;
      if deviation < 0 {
        padding := -deviation;
      } else {
        skipping := deviation;
      }
      recv := Receiving(idx, padding, skipping, |slots|, 0, []);
    }

    /** `next()` on the iterator: padding first, then `skip`'s one `nth`, then the chunk. */
    method Next() returns (item: Option<T>)
      requires Valid() && recv.Receiving?
      modifies this`recv
      ensures Valid() && View() == Apply(old(View()), Pop, pad)
      ensures recv.yielded == old(recv.yielded) + (if item.Some? then [item.value] else [])
    {
      ghost var s := View();
      PopKeeps(s, base, capacity, pad);
      item := Pull();
      assert View() == Apply(s, Pop, pad);
    }

    method Pull() returns (item: Option<T>)
      requires recv.Receiving? && recv.taken <= recv.chunk <= |slots|
      modifies this`recv
      ensures recv == PopRecv(old(recv), slots, pad)
      ensures recv.yielded == old(recv.yielded) + (if item.Some? then [item.value] else [])
    {
      if recv.pads > 0 {
        recv := recv.(pads := recv.pads - 1, yielded := recv.yielded + [pad]);
        return Some(pad);
      }
      var taken := SkipOver(recv.taken, recv.skip, recv.chunk);
      if taken < recv.chunk {
        item := Some(slots[taken]);
        recv := recv.(skip := 0, taken := taken + 1, yielded := recv.yielded + [slots[taken]]);
      } else {
        item := None;
        recv := recv.(skip := 0, taken := taken);
      }
    }

    static method SkipOver(taken: nat, skip: nat, chunk: nat) returns (at: nat)
      requires taken <= chunk
      ensures at == Min(taken + skip, chunk)
    {
      var left := skip;
      at := taken;
      while left > 0 && at < chunk
        invariant 0 <= left && at <= chunk && at + left == taken + skip
      {
        left, at := left - 1, at + 1;
      }
    }

    /** Dropping the iterator: the counter advances by what was iterated, and those slots
        become free. */
    method Drop()
      requires Valid() && recv.Receiving?
      requires rxCounter.count + recv.taken < U64
      modifies this`slots, this`recv, rxCounter
      ensures Valid() && View() == Apply(old(View()), Commit, pad)
      ensures rxCounter.woken == old(rxCounter.woken)
                               + |Counters.Multiples(old(rxCounter.count), rxCounter.count, rxCounter.period)|
    {
      var remaining := recv.chunk - recv.taken;
      var iterated := recv.chunk - remaining;
      rxCounter.Advance(iterated);
      slots, recv := slots[iterated..], Idle;
    }
  }
}

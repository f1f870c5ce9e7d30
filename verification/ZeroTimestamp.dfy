/** The CoreAudio device clock (syfala_coreaudio/src/lib.rs:249-259, 1885-2026): an incremental
    pair of timestamps that must agree with a closed form. Ticks and frames per timestamp are
    arbitrary positive constants. */
module ZeroTimestamp {
  import opened Common
  import DivMod

  const U32: nat := 0x1_0000_0000

  datatype Status = NoError | BadObject | IllegalOperation

  /** A call by the host, at the clock's reading where it takes one. */
  datatype Call = Start(now: nat) | Stop | Get(now: nat)

  /** `IOInfo`; no active clients is `None` in the source. */
  datatype Clock = Clock(clients: nat, frame: nat, host: nat)

  const INITIAL := Clock(0, 0, 0)

  /** How many timestamps have gone by since the one the clock last reported. */
  function Advanced(c: Clock, now: nat, ticks: nat): (n: nat)
    requires ticks > 0
  {
    if now < c.host then 0
    else
      DivMod.DivLe(0, now - c.host, ticks);
      DivMod.Unique(0, ticks, 0, 0);
      (now - c.host) / ticks
  }

  function Apply(c: Clock, call: Call, ticks: nat, frames: nat): (c': Clock)
    requires ticks > 0
  {
    match call
    case Start(now) =>
      if c.clients == 0 then Clock(1, 0, now)
      else if c.clients + 1 < U32 then c.(clients := c.clients + 1)
      else c
    case Stop => if c.clients == 0 then c else c.(clients := c.clients - 1)
    case Get(now) =>
      var n := Advanced(c, now, ticks);
      c.(host := c.host + ticks * n, frame := c.frame + frames * n)
  }

  function Result(c: Clock, call: Call): (s: Status) {
    match call
    case Start(_) => if 0 < c.clients && U32 <= c.clients + 1 then IllegalOperation else NoError
    case Stop => if c.clients == 0 then IllegalOperation else NoError
    case Get(_) => NoError
  }

  ghost function Run(log: seq<Call>, ticks: nat, frames: nat): (c: Clock)
    requires ticks > 0
  {
    if log == [] then INITIAL
    else Apply(Run(log[..|log| - 1], ticks, frames), log[|log| - 1], ticks, frames)
  }

  // ----- An independent reading of a run

  /** Successful starts minus successful stops. */
  ghost function Balance(log: seq<Call>, ticks: nat, frames: nat): (n: int)
    requires ticks > 0
  {
    if log == [] then 0
    else
      var n := |log| - 1;
      Balance(log[..n], ticks, frames)
      + (if Result(Run(log[..n], ticks, frames), log[n]) != NoError then 0
         else match log[n] case Start(_) => 1 case Stop => -1 case Get(_) => 0)
  }

  /** The time of the last start that found no client; zero before the first. */
  ghost function Anchor(log: seq<Call>, ticks: nat, frames: nat): (t: nat)
    requires ticks > 0
  {
    if log == [] then 0
    else
      var n := |log| - 1;
      if log[n].Start? && Balance(log[..n], ticks, frames) == 0 then log[n].now
      else Anchor(log[..n], ticks, frames)
  }

  ghost function LastTime(log: seq<Call>): (t: nat) {
    if log == [] then 0
    else if log[|log| - 1].Stop? then LastTime(log[..|log| - 1])
    else log[|log| - 1].now
  }

  ghost predicate Monotone(log: seq<Call>) {
    log == [] ||
    var n := |log| - 1;
    Monotone(log[..n]) && (!log[n].Stop? ==> LastTime(log[..n]) <= log[n].now)
  }

  /** Timestamp number `k` of a clock anchored at `anchor`: `k` periods on either scale. */
  ghost predicate Stamp(c: Clock, anchor: nat, k: nat, ticks: nat, frames: nat) {
    c.host == anchor + DivMod.Boundary(k, ticks) && c.frame == DivMod.Boundary(k, frames)
  }

  lemma GetAdvances(c: Clock, now: nat, ticks: nat, frames: nat, anchor: nat, k: nat) returns (k': nat)
    requires ticks > 0 && c.host <= now && Stamp(c, anchor, k, ticks, frames)
    ensures Stamp(Apply(c, Get(now), ticks, frames), anchor, k', ticks, frames)
    ensures var host := Apply(c, Get(now), ticks, frames).host; host <= now < host + ticks
  {
    var n := Advanced(c, now, ticks);
    k' := k + n;
    assert now - c.host == n * ticks + (now - c.host) % ticks;
    DivMod.BoundaryIsMul(n, ticks);
    DivMod.BoundaryIsMul(n, frames);
    DivMod.BoundaryAdd(k, n, ticks);
    DivMod.BoundaryAdd(k, n, frames);
  }

  lemma {:induction false} RunClosed(log: seq<Call>, ticks: nat, frames: nat) returns (k: nat)
    requires ticks > 0 && Monotone(log)
    ensures var c := Run(log, ticks, frames);
            && Stamp(c, Anchor(log, ticks, frames), k, ticks, frames)
            && c.host <= LastTime(log) && c.clients == Balance(log, ticks, frames) < U32
  {
    k := 0;
    if log != [] {
      var n := |log| - 1;
      k := RunClosed(log[..n], ticks, frames);
      match log[n]
      case Start(_) =>
        if Balance(log[..n], ticks, frames) == 0 {
          k := 0;
        }
      case Stop =>
      case Get(now) =>
        k := GetAdvances(Run(log[..n], ticks, frames), now, ticks, frames, Anchor(log[..n], ticks, frames), k);
    }
  }

  /** The clock refines its closed form: in every run under a monotone clock, the timestamp
      reported at `now` is the last whole period after the anchor, whatever was asked before;
      the anchor moves only when a first client starts, and the number of active clients is
      the successful starts minus the successful stops. */
  lemma TimestampExact(log: seq<Call>, now: nat, ticks: nat, frames: nat) returns (k: nat)
    requires ticks > 0 && Monotone(log) && LastTime(log) <= now
    ensures var c := Run(log + [Get(now)], ticks, frames);
            && Stamp(c, Anchor(log, ticks, frames), k, ticks, frames)
            && c.host <= now < c.host + ticks
            && c.clients == Balance(log, ticks, frames)
  {
    hide Apply, Stamp;
    k := RunClosed(log, ticks, frames);
    var c := Run(log, ticks, frames);
    assert (log + [Get(now)])[..|log|] == log;
    GetKeepsClients(c, now, ticks, frames);
    k := GetAdvances(c, now, ticks, frames, Anchor(log, ticks, frames), k);
  }

  lemma GetKeepsClients(c: Clock, now: nat, ticks: nat, frames: nat)
    requires ticks > 0
    ensures Apply(c, Get(now), ticks, frames).clients == c.clients
  {
  }

  /** The number of that timestamp depends on the anchor and the time alone. */
  lemma StampNumber(c: Clock, now: nat, ticks: nat, frames: nat, anchor: nat, k: nat)
    requires ticks > 0 && Stamp(c, anchor, k, ticks, frames) && c.host <= now < c.host + ticks
    ensures anchor <= now && k == (now - anchor) / ticks
    ensures c.host == anchor + k * ticks && c.frame == k * frames
  {
    DivMod.InBlock(now - anchor, ticks, k);
    DivMod.BoundaryIsMul(k, ticks);
    DivMod.BoundaryIsMul(k, frames);
  }

  /** The clients that the calls alone account for: a start adds one up to the largest count, a stop
      takes one away down to none. */
  ghost function Clients(log: seq<Call>): (n: nat) {
    if log == [] then 0
    else
      var before := Clients(log[..|log| - 1]);
      match log[|log| - 1]
      case Start(_) => if before + 1 == U32 then before else before + 1
      case Stop => if before == 0 then 0 else before - 1
      case Get(_) => before
  }

  /** In every run that many clients are active, and a call is refused exactly when it is a stop
      without a client or a start beyond the largest count. */
  lemma {:induction false} ClientsCounted(log: seq<Call>, ticks: nat, frames: nat, call: Call)
    requires ticks > 0
    ensures Run(log, ticks, frames).clients == Clients(log) < U32
    ensures Result(Run(log, ticks, frames), call) == IllegalOperation
            <==> (call.Stop? && Clients(log) == 0) || (call.Start? && Clients(log) + 1 == U32)
    ensures Result(Run(log, ticks, frames), call) in {NoError, IllegalOperation}
  {
    if log != [] {
      var n := |log| - 1;
      ClientsCounted(log[..n], ticks, frames, log[n]);
    }
  }

  // ----- The device

  class DeviceIO {
    const ticks: nat
    const frames: nat
    var nActiveClients: Option<nat>
    var currentFrameTimestamp: nat
    var currentHostTimestamp: nat

    ghost predicate Valid()
      reads this
    {
      ticks > 0 && (nActiveClients.Some? ==> 0 < nActiveClients.value < U32)
    }

    ghost function View(): (c: Clock)
      reads this
    {
      Clock(if nActiveClients.Some? then nActiveClients.value else 0, currentFrameTimestamp, currentHostTimestamp)
    }

    constructor (ticks: nat, frames: nat)
      requires ticks > 0
      ensures Valid() && View() == INITIAL && this.ticks == ticks && this.frames == frames
    {
      this.ticks, this.frames := ticks, frames;
      nActiveClients, currentFrameTimestamp, currentHostTimestamp := None, 0, 0;
    }

    /** `start_io`; `known` says that the driver and device arguments are the plug-in's own. */
    method StartIO(known: bool, now: nat) returns (status: Status)
      requires Valid()
      modifies this
      ensures Valid()
      ensures status == if known then Result(old(View()), Start(now)) else BadObject
      ensures View() == if known then Apply(old(View()), Start(now), ticks, frames) else old(View())
    {
      if !known {
        return BadObject;
      }
      var clients := 1;
      if nActiveClients.Some? {
        if nActiveClients.value + 1 >= U32 {
          return IllegalOperation;
        }
        clients := nActiveClients.value + 1;
      } else {
        currentHostTimestamp, currentFrameTimestamp := now, 0;
      }
      nActiveClients := Some(clients);
      status := NoError;
    }

    method StopIO(known: bool) returns (status: Status)
      requires Valid()
      modifies this
      ensures Valid()
      ensures status == if known then Result(old(View()), Stop) else BadObject
      ensures View() == if known then Apply(old(View()), Stop, ticks, frames) else old(View())
    {
      if !known {
        return BadObject;
      }
      if nActiveClients.None? {
        return IllegalOperation;
      }
      nActiveClients := if nActiveClients.value - 1 > 0 then Some(nActiveClients.value - 1) else None;
      status := NoError;
    }

    /** `get_zero_timestamp`; the source panics on a clock that runs backwards. */
    method GetZeroTimestamp(known: bool, now: nat) returns (status: Status, sampleTime: nat, hostTime: nat)
      requires Valid() && currentHostTimestamp <= now
      modifies this
      ensures Valid()
      ensures status == if known then NoError else BadObject
      ensures View() == if known then Apply(old(View()), Get(now), ticks, frames) else old(View())
      ensures known ==> sampleTime == View().frame && hostTime == View().host
    {
      sampleTime, hostTime := 0, 0;
      if !known {
        return BadObject, 0, 0;
      }
      var elapsed := now - currentHostTimestamp;
      ghost var advanced := Advanced(View(), now, ticks);
      var n := elapsed / ticks;
      currentHostTimestamp := currentHostTimestamp + ticks * n;
      currentFrameTimestamp := currentFrameTimestamp + frames * n;
      sampleTime, hostTime := currentFrameTimestamp, currentHostTimestamp;
      status := NoError;
    }
  }
}

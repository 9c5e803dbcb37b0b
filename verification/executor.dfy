/**
 * `calib_execute_command`: plan the wait, send with retry (waking the device
 * when it is not active), wait once, receive with polling, validate the
 * response, and put the device back to idle. The HAL, wake, idle, CRC check
 * and status classifier are the oracle; the result is the status, the
 * updated handle and packet, the outcome of every send and receive attempt,
 * and the trace of calls made.
 */
module Executor {
  import opened AtcaTypes
  import ExecutionTimes
  import Transport

  /** ATCAPacket: the reserved framing byte, the i/o frame that follows it in
      memory (`txsize` bytes, starting with `txsize` itself), the opcode and
      the data buffer the response is received into. */
  datatype Packet = Packet(reserved: uint8, frame: seq<uint8>, opcode: Opcode, data: seq<uint8>)
  {
    /** The `txsize + 1` bytes a send hands to the transport. */
    function Image(): seq<uint8> {
      [reserved] + frame
    }
  }

  /** Whether the wait is planned from the execution-time table: always in a
      fixed-delay build, and for a CA2 device on SWI-GPIO in a polling build. */
  predicate NeedsLookup(cfg: Config, dev: Device) {
    cfg.noPoll || (cfg.ca2Support && dev.iface.ifaceType == SwiGpioIface && cfg.IsCa2(dev.devType))
  }

  /** Whether the table that would be consulted for `dev` lists `op`. */
  predicate Tabulated(cfg: Config, dev: Device, op: Opcode) {
    ExecutionTimes.Lists(ExecutionTimes.TableFor(dev.devType, dev.divider, cfg.noPoll), op)
  }

  /** The timing decision: either the initial wait and the number of extra
      receive attempts, or an early return with the lookup's status. */
  datatype Plan = Proceed(wait: nat, budget: nat, device: Device) | Abort(status: Status, device: Device)

  /** What the timing decision promises: only the cached time may change;
      an abort exactly when the table is consulted and does not list the
      opcode; otherwise the table's first match, the wait and the budget. */
  ghost predicate Planned(cfg: Config, op: Opcode, dev: Device, r: Plan)
    requires cfg.WellFormed()
  {
    && r.device == dev.(execTime := r.device.execTime)
    && (!NeedsLookup(cfg, dev) ==> r.device == dev)
    && (r.Abort? <==> NeedsLookup(cfg, dev) && !Tabulated(cfg, dev, op))
    && (r.Abort? ==> r.status == BadOpcode && r.device.execTime == Unsupported)
    && (r.Proceed? && NeedsLookup(cfg, dev) ==>
          var table := ExecutionTimes.TableFor(dev.devType, dev.divider, cfg.noPoll);
          && r.budget == 0
          && exists i :: ExecutionTimes.IsFirstMatch(table, op, i) && r.device.execTime == Msec(table[i].ms))
    && (r.Proceed? && cfg.noPoll ==> r.device.execTime == Msec(r.wait))
    && (r.Proceed? && !cfg.noPoll ==> r.wait == cfg.pollInitialWaitMs)
    && (r.Proceed? && !cfg.noPoll ==>
          r.budget == (if NeedsLookup(cfg, dev) then 0 else cfg.pollingMaxMs / cfg.pollingFreqMs))
  }

  method PlanTiming(cfg: Config, op: Opcode, dev: Device) returns (r: Plan)
    requires cfg.WellFormed()
    ensures Planned(cfg, op, dev, r) == true
  {
    if !NeedsLookup(cfg, dev) {
      return Proceed(cfg.pollInitialWaitMs, cfg.pollingMaxMs / cfg.pollingFreqMs, dev);
    }
    var lookup := ExecutionTimes.GetExecutionTime(op, dev, cfg.noPoll);
    if lookup.status != Success {
      return Abort(lookup.status, lookup.device);
    }
    if cfg.noPoll {
      r := Proceed(lookup.device.execTime.ms, 0, lookup.device);
    } else {
      // the looked-up time is not used here: the wait stays the literal one
      r := Proceed(cfg.pollInitialWaitMs, 0, lookup.device);
    }
  }

  /** The reserved byte a send attempt leaves in the packet. */
  function ReservedFor(cfg: Config, dev: Device, current: uint8): uint8 {
    match dev.iface.ifaceType
    case I2cIface => 0x03
    case CustomIface => 0x03
    case SwiIface => cfg.swiFlagCmd
    case SwiGpioIface => if cfg.ca2Support && cfg.IsCa2(dev.devType) then 0x03 else current
    case _ => current
  }

  /** Whether a send attempt overwrites the reserved byte on `dev`. */
  predicate SetsReserved(cfg: Config, dev: Device) {
    || dev.iface.ifaceType in {I2cIface, CustomIface, SwiIface}
    || (dev.iface.ifaceType == SwiGpioIface && cfg.ca2Support && cfg.IsCa2(dev.devType))
  }

  /** Setting the reserved byte again on a retry changes nothing. Where the
      interface demands a byte, the old one is irrelevant; elsewhere it is
      left as it was. */
  lemma ReservedStable(cfg: Config, dev: Device, current: uint8, other: uint8)
    ensures ReservedFor(cfg, dev, ReservedFor(cfg, dev, current)) == ReservedFor(cfg, dev, current)
    ensures SetsReserved(cfg, dev) ==> ReservedFor(cfg, dev, current) == ReservedFor(cfg, dev, other)
    ensures !SetsReserved(cfg, dev) <==> forall b: uint8 :: ReservedFor(cfg, dev, b) == b
  {
    if !SetsReserved(cfg, dev) {
    } else if dev.iface.ifaceType == SwiIface {
      var b: uint8 := if cfg.swiFlagCmd == 0 then 1 else 0;
      assert ReservedFor(cfg, dev, b) != b;
    } else {
      assert ReservedFor(cfg, dev, 0) != 0;
    }
  }

  /** Number of retries a retry count allows: none for a count of zero or less. */
  function RetryBudget(retries: int): nat {
    if retries > 0 then retries else 0
  }

  /** The single send call a send attempt puts on the transport. */
  function CommandTx(cfg: Config, dev: Device, p: Packet): Event {
    var img := p.Image();
    Tx(Transport.WireAddress(cfg, dev, dev.address), Transport.WireBytes(cfg, dev, img, |img|))
  }

  /** What reaches the wire of a command: the reserved byte and the whole
      frame on a bus interface, the frame alone through a kit interface, and
      through the legacy HAL the image without its last byte. */
  lemma CommandCarriesFrame(cfg: Config, dev: Device, p: Packet)
    ensures !cfg.PassThrough(dev) ==> CommandTx(cfg, dev, p) == Tx(dev.address, [p.reserved] + p.frame)
    ensures !cfg.legacyHal && dev.iface.isKit ==> CommandTx(cfg, dev, p) == Tx(Transport.KitAddress, p.frame)
    ensures cfg.legacyHal ==>
      CommandTx(cfg, dev, p) == Tx(Transport.KitAddress, ([p.reserved] + p.frame)[..|p.frame|])
  {
    var img := p.Image();
    assert img[..|img|] == img;
    assert img[1..|img|] == p.frame;
  }

  /** An event the send phase may produce. */
  predicate SendPhaseEvent(e: Event, tx: Event) {
    e.Wake? || e.Select? || e.Deselect? || (e.Tx? && e == tx)
  }

  /** The calls a send attempt starts from: a wake first unless the device is active. */
  function Woken(state: DeviceState, trace: seq<Event>): seq<Event> {
    if state != StateActive then trace + [Wake] else trace
  }

  /** Whether a send attempt after `trace` puts the command on the wire: a
      kit interface always does, a bus one once the select is accepted. */
  predicate Transmits(cfg: Config, hal: Hal, dev: Device, state: DeviceState, trace: seq<Event>) {
    cfg.PassThrough(dev) || SelectAccepted(hal(Woken(state, trace), Select).status)
  }

  /** The calls a send attempt after `trace` makes: a wake unless the device
      is active, then the command alone on a pass-through interface, else a
      select, the command and a deselect, or only the select and the
      deselect when the select is refused. */
  function AttemptCalls(cfg: Config, hal: Hal, dev: Device, state: DeviceState, p: Packet, trace: seq<Event>): seq<Event> {
    var wake := if state != StateActive then [Wake] else [];
    var tx := CommandTx(cfg, dev, p);
    if cfg.PassThrough(dev) then wake + [tx]
    else if SelectAccepted(hal(Woken(state, trace), Select).status) then wake + [Select, tx, Deselect]
    else wake + [Select, Deselect]
  }

  /** The HAL's verdict on a send attempt after `trace`: its reply to the
      command, or the refusal of the select before it. */
  function AttemptReply(cfg: Config, hal: Hal, dev: Device, state: DeviceState, p: Packet, trace: seq<Event>): Status {
    var t0 := Woken(state, trace);
    var tx := CommandTx(cfg, dev, p);
    var sel := hal(t0, Select).status;
    if cfg.PassThrough(dev) then hal(t0, tx).status
    else if SelectAccepted(sel) then hal(t0 + [Select], tx).status
    else sel
  }

  /** What one send attempt with the device in `state` after `trace` did:
      it added exactly `AttemptCalls` (a wake unless the device was active,
      then the packet image), its status is `AttemptReply`, and the command
      reached the wire once if the attempt transmits and never otherwise. */
  predicate Attempted(cfg: Config, hal: Hal, dev: Device, state: DeviceState, p: Packet, trace: seq<Event>,
                      r: Transport.SendRun) {
    && |r.trace| > |trace| && r.trace[..|trace|] == trace
    && r.trace == trace + AttemptCalls(cfg, hal, dev, state, p, trace)
    && ((r.trace[|trace|] == Wake) <==> state != StateActive)
    && (forall i :: |trace| <= i < |r.trace| ==> SendPhaseEvent(r.trace[i], CommandTx(cfg, dev, p)))
    && r.status == AttemptReply(cfg, hal, dev, state, p, trace)
    && Count(r.trace[|trace|..], CommandTx(cfg, dev, p)) == if Transmits(cfg, hal, dev, state, trace) then 1 else 0
  }

  /** One send attempt with the device in `state`: wake it unless it is
      active, then send the packet image (calib_execution.c:498-523). */
  method SendAttempt(cfg: Config, hal: Hal, dev: Device, state: DeviceState, p: Packet, trace: seq<Event>)
    returns (r: Transport.SendRun)
    ensures Attempted(cfg, hal, dev, state, p, trace, r) == true
  {
    var img := p.Image();
    r := Transport.ExecuteSend(cfg, hal, dev, dev.address, Some(img), |img|, Woken(state, trace));
    SendCalls(cfg, hal, dev, state, p, trace);
    SendReply(cfg, hal, dev, state, p, trace);
    SendCount(cfg, hal, dev, state, p, trace);
    SendAttempted(cfg, hal, dev, state, p, trace, r);
  }

  /** The calls `AttemptCalls` names, the reply `AttemptReply` names and the
      command's count on the wire make one attempt. */
  lemma SendAttempted(cfg: Config, hal: Hal, dev: Device, state: DeviceState, p: Packet, trace: seq<Event>,
                      r: Transport.SendRun)
    requires r.trace == trace + AttemptCalls(cfg, hal, dev, state, p, trace)
    requires r.status == AttemptReply(cfg, hal, dev, state, p, trace)
    requires Count(r.trace[|trace|..], CommandTx(cfg, dev, p)) == if Transmits(cfg, hal, dev, state, trace) then 1 else 0
    ensures Attempted(cfg, hal, dev, state, p, trace, r)
  {
    assert r.trace[..|trace|] == trace;
    assert r.trace[|trace|..] == AttemptCalls(cfg, hal, dev, state, p, trace);
  }

  /** The transport's send after the wake replies as `AttemptReply` says. */
  lemma SendReply(cfg: Config, hal: Hal, dev: Device, state: DeviceState, p: Packet, trace: seq<Event>)
    ensures
      var img := p.Image();
      Transport.ExecuteSend(cfg, hal, dev, dev.address, Some(img), |img|, Woken(state, trace)).status
      == AttemptReply(cfg, hal, dev, state, p, trace)
  {
    var img := p.Image();
    assert img[..|img|] == img;
  }

  /** The transport's send, after the wake, makes exactly the calls `AttemptCalls` names. */
  lemma SendCalls(cfg: Config, hal: Hal, dev: Device, state: DeviceState, p: Packet, trace: seq<Event>)
    ensures
      var img := p.Image();
      Transport.ExecuteSend(cfg, hal, dev, dev.address, Some(img), |img|, Woken(state, trace)).trace
      == trace + AttemptCalls(cfg, hal, dev, state, p, trace)
  {
    var img := p.Image();
    assert img[..|img|] == img;
  }

  /** A send attempt puts the command on the wire once if it transmits, and never otherwise. */
  lemma SendCount(cfg: Config, hal: Hal, dev: Device, state: DeviceState, p: Packet, trace: seq<Event>)
    ensures
      var img := p.Image();
      var r := Transport.ExecuteSend(cfg, hal, dev, dev.address, Some(img), |img|, Woken(state, trace));
      && |r.trace| >= |trace|
      && Count(r.trace[|trace|..], CommandTx(cfg, dev, p)) == if Transmits(cfg, hal, dev, state, trace) then 1 else 0
  {
    var t0 := Woken(state, trace);
    var img := p.Image();
    var tx := CommandTx(cfg, dev, p);
    var r := Transport.ExecuteSend(cfg, hal, dev, dev.address, Some(img), |img|, t0);
    assert img[..|img|] == img;
    var w: seq<Event> := if state != StateActive then [Wake] else [];
    assert r.trace[|trace|..] == w + r.trace[|t0|..];
    AttemptCount(w, r.trace[|t0|..], tx);
  }

  /** The calls of one attempt hold the command at most once. */
  lemma AttemptCount(w: seq<Event>, x: seq<Event>, tx: Event)
    requires tx.Tx? && (w == [] || w == [Wake])
    requires x == [tx] || x == [Select, tx, Deselect] || x == [Select, Deselect]
    ensures Count(w + x, tx) == if x == [Select, Deselect] then 0 else 1
  {
    CountAppend(w, x, tx);
    CountSingle(Wake, tx);
    CountSingle(Select, tx);
    CountSingle(tx, tx);
    CountSingle(Deselect, tx);
    if x == [Select, tx, Deselect] {
      assert x == [Select] + [tx] + [Deselect];
      CountAppend([Select] + [tx], [Deselect], tx);
      CountAppend([Select], [tx], tx);
    } else if x == [Select, Deselect] {
      assert x == [Select] + [Deselect];
      CountAppend([Select], [Deselect], tx);
    }
  }

  /** The state a send attempt starts in: the handle's for the first, unknown after a missing response. */
  function StateBefore(dev: Device, i: nat): DeviceState {
    if i == 0 then dev.state else StateUnknown
  }

  /** Where the calls of attempt `i` end: at the next attempt's start, or at `end` for the last. */
  function AttemptEnd(starts: seq<nat>, i: nat, end: nat): nat {
    if i + 1 < |starts| then starts[i + 1] else end
  }

  /** `trace` is the calls of the attempts in turn, the i-th starting at
      `starts[i]`; each attempt made exactly the calls `AttemptCalls` gives
      after what came before it, `attempts[i]` is the HAL's reply to it, and
      the command is on the wire at most once per attempt (exactly once
      through a kit). */
  predicate Replies(cfg: Config, hal: Hal, dev: Device, p: Packet, attempts: seq<Status>, starts: seq<nat>, trace: seq<Event>) {
    && |starts| == |attempts| && (|starts| > 0 ==> starts[0] == 0)
    && (forall i :: 0 <= i < |starts| - 1 ==> starts[i] < starts[i + 1])
    && (forall i :: 0 <= i < |starts| ==> AttemptRecorded(cfg, hal, dev, p, attempts, starts, trace, i))
    && Count(trace, CommandTx(cfg, dev, p)) <= |attempts|
    && (cfg.PassThrough(dev) ==> Count(trace, CommandTx(cfg, dev, p)) == |attempts|)
  }

  /** Attempt `i` made the calls of `trace` from `starts[i]` to where the
      next attempt starts (or to the end), exactly those `AttemptCalls`
      gives after what came before, and `attempts[i]` is the HAL's reply. */
  predicate AttemptRecorded(cfg: Config, hal: Hal, dev: Device, p: Packet, attempts: seq<Status>, starts: seq<nat>,
                            trace: seq<Event>, i: nat)
    requires i < |starts| == |attempts|
  {
    && starts[i] < AttemptEnd(starts, i, |trace|) <= |trace|
    && trace[starts[i]..AttemptEnd(starts, i, |trace|)]
       == AttemptCalls(cfg, hal, dev, StateBefore(dev, i), p, trace[..starts[i]])
    && attempts[i] == AttemptReply(cfg, hal, dev, StateBefore(dev, i), p, trace[..starts[i]])
  }

  /** One more attempt, appended after `trace`, keeps the record. */
  lemma RepliesExtend(cfg: Config, hal: Hal, dev: Device, p: Packet, attempts: seq<Status>, starts: seq<nat>,
                      trace: seq<Event>, u: seq<Event>, status: Status)
    requires Replies(cfg, hal, dev, p, attempts, starts, trace)
    requires |attempts| == 0 ==> trace == []
    requires u == trace + AttemptCalls(cfg, hal, dev, StateBefore(dev, |attempts|), p, trace)
    requires status == AttemptReply(cfg, hal, dev, StateBefore(dev, |attempts|), p, trace)
    requires Count(u[|trace|..], CommandTx(cfg, dev, p)) ==
      if Transmits(cfg, hal, dev, StateBefore(dev, |attempts|), trace) then 1 else 0
    ensures Replies(cfg, hal, dev, p, attempts + [status], starts + [|trace|], u)
  {
    var starts' := starts + [|trace|];
    var attempts' := attempts + [status];
    var n := |attempts|;
    assert n > 0 ==> starts[n - 1] < |trace| by {
      assert n > 0 ==> AttemptRecorded(cfg, hal, dev, p, attempts, starts, trace, n - 1);
    }
    StartsExtend(starts, |trace|);
    RecordedNext(cfg, hal, dev, p, attempts, starts, trace, u, status);
    RecordedAllKept(cfg, hal, dev, p, attempts, starts, trace, u, status);
    RecordedAll(cfg, hal, dev, p, attempts', starts', u);
    assert u == trace + u[|trace|..];
    CountAppend(trace, u[|trace|..], CommandTx(cfg, dev, p));
  }

  /** Attempt starts that rise, followed by a later one, still rise. */
  lemma StartsExtend(starts: seq<nat>, s: nat)
    requires forall i :: 0 <= i < |starts| - 1 ==> starts[i] < starts[i + 1]
    requires |starts| > 0 ==> starts[|starts| - 1] < s
    ensures forall i :: 0 <= i < |starts| ==> (starts + [s])[i] < (starts + [s])[i + 1]
  {
  }

  /** The records of all earlier attempts and of the last make the record of every attempt. */
  lemma RecordedAll(cfg: Config, hal: Hal, dev: Device, p: Packet, attempts: seq<Status>, starts: seq<nat>,
                    trace: seq<Event>)
    requires |starts| == |attempts| >= 1
    requires forall i :: 0 <= i < |starts| - 1 ==> AttemptRecorded(cfg, hal, dev, p, attempts, starts, trace, i)
    requires AttemptRecorded(cfg, hal, dev, p, attempts, starts, trace, |starts| - 1)
    ensures forall i :: 0 <= i < |starts| ==> AttemptRecorded(cfg, hal, dev, p, attempts, starts, trace, i)
  {
    forall i | 0 <= i < |starts|
      ensures AttemptRecorded(cfg, hal, dev, p, attempts, starts, trace, i)
    {
      if i == |starts| - 1 {
        assert AttemptRecorded(cfg, hal, dev, p, attempts, starts, trace, |starts| - 1);
      }
    }
  }

  /** The appended attempt's own record: its calls are what `AttemptCalls`
      gives after `trace`, up to the end, and its status the reply to them. */
  lemma RecordedNext(cfg: Config, hal: Hal, dev: Device, p: Packet, attempts: seq<Status>, starts: seq<nat>,
                     trace: seq<Event>, u: seq<Event>, status: Status)
    requires |starts| == |attempts|
    requires u == trace + AttemptCalls(cfg, hal, dev, StateBefore(dev, |attempts|), p, trace)
    requires status == AttemptReply(cfg, hal, dev, StateBefore(dev, |attempts|), p, trace)
    ensures |u| > |trace| && u[..|trace|] == trace
    ensures AttemptRecorded(cfg, hal, dev, p, attempts + [status], starts + [|trace|], u, |attempts|)
  {
    var starts' := starts + [|trace|];
    assert u[..|trace|] == trace;
    assert u[starts'[|attempts|]..AttemptEnd(starts', |attempts|, |u|)] == u[|trace|..];
  }

  /** The earlier attempts' records survive the appended attempt's calls. */
  lemma RecordedAllKept(cfg: Config, hal: Hal, dev: Device, p: Packet, attempts: seq<Status>, starts: seq<nat>,
                        trace: seq<Event>, u: seq<Event>, status: Status)
    requires |starts| == |attempts|
    requires forall i :: 0 <= i < |starts| ==> AttemptRecorded(cfg, hal, dev, p, attempts, starts, trace, i)
    requires |u| > |trace| && u[..|trace|] == trace
    ensures forall i :: 0 <= i < |starts| ==> AttemptRecorded(cfg, hal, dev, p, attempts + [status], starts + [|trace|], u, i)
  {
    forall i | 0 <= i < |starts|
      ensures AttemptRecorded(cfg, hal, dev, p, attempts + [status], starts + [|trace|], u, i)
    {
      RecordedKept(cfg, hal, dev, p, attempts, starts, trace, u, status, i);
    }
  }

  /** An earlier attempt's record survives the next attempt's calls: its
      calls end where the new attempt's begin if it was the last. */
  lemma RecordedKept(cfg: Config, hal: Hal, dev: Device, p: Packet, attempts: seq<Status>, starts: seq<nat>,
                     trace: seq<Event>, u: seq<Event>, status: Status, i: nat)
    requires i < |starts| == |attempts|
    requires AttemptRecorded(cfg, hal, dev, p, attempts, starts, trace, i)
    requires |u| > |trace| && u[..|trace|] == trace
    ensures AttemptRecorded(cfg, hal, dev, p, attempts + [status], starts + [|trace|], u, i)
  {
    var starts' := starts + [|trace|];
    assert AttemptEnd(starts', i, |u|) == AttemptEnd(starts, i, |trace|);
    assert u[..starts'[i]] == trace[..starts[i]];
    assert u[starts'[i]..AttemptEnd(starts', i, |u|)] == trace[starts[i]..AttemptEnd(starts, i, |trace|)];
  }

  /** The calls of one attempt carry the command exactly when it transmits. */
  lemma CallsCount(cfg: Config, hal: Hal, dev: Device, state: DeviceState, p: Packet, trace: seq<Event>)
    ensures Count(AttemptCalls(cfg, hal, dev, state, p, trace), CommandTx(cfg, dev, p))
            == if Transmits(cfg, hal, dev, state, trace) then 1 else 0
  {
    var w: seq<Event> := if state != StateActive then [Wake] else [];
    var calls := AttemptCalls(cfg, hal, dev, state, p, trace);
    assert calls == w + calls[|w|..];
    AttemptCount(w, calls[|w|..], CommandTx(cfg, dev, p));
  }

  /** How many of the first `i` attempts put the command on the wire. */
  function Transmitted(cfg: Config, hal: Hal, dev: Device, starts: seq<nat>, trace: seq<Event>, i: nat): nat
    requires i <= |starts|
    requires forall j :: 0 <= j < i ==> starts[j] <= |trace|
  {
    if i == 0 then 0
    else Transmitted(cfg, hal, dev, starts, trace, i - 1)
         + if Transmits(cfg, hal, dev, StateBefore(dev, i - 1), trace[..starts[i - 1]]) then 1 else 0
  }

  /** Before attempt `i` starts, the command has been on the wire once for
      each earlier attempt that transmitted: the count the HAL sees. */
  lemma {:induction false} CommandsBefore(cfg: Config, hal: Hal, dev: Device, p: Packet, attempts: seq<Status>,
                                          starts: seq<nat>, trace: seq<Event>, i: nat)
    requires Replies(cfg, hal, dev, p, attempts, starts, trace)
    requires i < |starts|
    ensures && (forall j :: 0 <= j <= i ==> starts[j] <= |trace|)
            && Count(trace[..starts[i]], CommandTx(cfg, dev, p)) == Transmitted(cfg, hal, dev, starts, trace, i)
  {
    assert AttemptRecorded(cfg, hal, dev, p, attempts, starts, trace, i);
    if i == 0 {
      assert trace[..starts[0]] == [];
    } else {
      CommandsBefore(cfg, hal, dev, p, attempts, starts, trace, i - 1);
      var k := i - 1;
      assert AttemptRecorded(cfg, hal, dev, p, attempts, starts, trace, k);
      assert AttemptEnd(starts, k, |trace|) == starts[i];
      assert trace[..starts[i]] == trace[..starts[k]] + trace[starts[k]..starts[i]];
      CountAppend(trace[..starts[k]], trace[starts[k]..starts[i]], CommandTx(cfg, dev, p));
      CallsCount(cfg, hal, dev, StateBefore(dev, k), p, trace[..starts[k]]);
    }
  }

  datatype SendPhase = SendPhase(status: Status, state: DeviceState, packet: Packet, attempts: seq<Status>,
                                 starts: seq<nat>, trace: seq<Event>)

  /** What the retry loop has done so far: every earlier attempt missed its
      response, the trace opens with a wake exactly when the handle was not
      active, holds only send-phase calls, and `attempts` are the HAL's
      replies to the attempts starting at `starts`. */
  predicate SendLog(cfg: Config, hal: Hal, dev: Device, p: Packet, attempts: seq<Status>, starts: seq<nat>, trace: seq<Event>) {
    && (|attempts| == 0 ==> trace == [])
    && (|attempts| > 0 ==> |trace| >= 1 && (trace[0] == Wake <==> dev.state != StateActive))
    && (forall i :: 0 <= i < |trace| ==> SendPhaseEvent(trace[i], CommandTx(cfg, dev, p)))
    && Replies(cfg, hal, dev, p, attempts, starts, trace)
  }

  /** One pass of the retry loop: an attempt in the state the earlier
      attempts left, recorded at the end of the log. */
  method RetryStep(cfg: Config, hal: Hal, dev: Device, p: Packet, attempts: seq<Status>, starts: seq<nat>, trace: seq<Event>)
    returns (status: Status, starts': seq<nat>, trace': seq<Event>)
    requires SendLog(cfg, hal, dev, p, attempts, starts, trace)
    ensures status == AttemptReply(cfg, hal, dev, StateBefore(dev, |attempts|), p, trace)
    ensures SendLog(cfg, hal, dev, p, attempts + [status], starts', trace')
  {
    var sent := SendAttempt(cfg, hal, dev, StateBefore(dev, |attempts|), p, trace);
    RepliesExtend(cfg, hal, dev, p, attempts, starts, trace, sent.trace, sent.status);
    if |attempts| > 0 {
      assert sent.trace[0] == sent.trace[..|trace|][0];
    } else {
      assert sent.trace[0] == sent.trace[|trace|];
    }
    forall i | 0 <= i < |sent.trace| ensures SendPhaseEvent(sent.trace[i], CommandTx(cfg, dev, p)) {
      if i < |trace| {
        assert sent.trace[i] == sent.trace[..|trace|][i];
      }
    }
    status, starts', trace' := sent.status, starts + [|trace|], sent.trace;
  }

  /** The send-with-retry loop of a command. `attempts` holds the status of
      each attempt in order, which is the HAL's reply to the calls the trace
      holds from the matching entry of `starts` on. A wake's own
      outcome never survives an attempt: the send's result alone decides
      the state. Only a missing response is retried, at most `retries` times. */
  method SendWithRetry(cfg: Config, hal: Hal, dev: Device, packet: Packet) returns (r: SendPhase)
    ensures 1 <= |r.attempts| <= RetryBudget(dev.iface.retries) + 1
    ensures r.status == r.attempts[|r.attempts| - 1]
    ensures forall i :: 0 <= i < |r.attempts| - 1 ==> r.attempts[i] == RxNoResponse
    ensures r.status == RxNoResponse ==> |r.attempts| == RetryBudget(dev.iface.retries) + 1
    ensures r.state == (if r.status == RxNoResponse then StateUnknown else StateActive)
    ensures r.packet == packet.(reserved := ReservedFor(cfg, dev, packet.reserved))
    ensures |r.trace| >= 1 && (r.trace[0] == Wake <==> dev.state != StateActive)
    ensures forall i :: 0 <= i < |r.trace| ==> SendPhaseEvent(r.trace[i], CommandTx(cfg, dev, r.packet))
    // every attempt's status is the HAL's reply to that attempt, starting at its entry of `starts`
    ensures |r.attempts| == |r.starts| && Replies(cfg, hal, dev, r.packet, r.attempts, r.starts, r.trace)
  {
    var p := packet.(reserved := ReservedFor(cfg, dev, packet.reserved));
    var state := dev.state;
    var left := dev.iface.retries;
    var attempts: seq<Status> := [];
    var starts: seq<nat> := [];
    var trace: seq<Event> := [];
    while true
      invariant left == dev.iface.retries - |attempts|
      invariant |attempts| > 0 ==> left >= 0
      invariant forall i :: 0 <= i < |attempts| ==> attempts[i] == RxNoResponse
      invariant state == StateBefore(dev, |attempts|)
      invariant SendLog(cfg, hal, dev, p, attempts, starts, trace)
      decreases RetryBudget(left)
    {
      var status;
      status, starts, trace := RetryStep(cfg, hal, dev, p, attempts, starts, trace);
      attempts := attempts + [status];
      if status != RxNoResponse {
        return SendPhase(status, StateActive, p, attempts, starts, trace);
      }
      state := StateUnknown;
      if left <= 0 {
        return SendPhase(RxNoResponse, StateUnknown, p, attempts, starts, trace);
      }
      left := left - 1;
    }
  }

  /** A call of the transfer itself: no wake, idle or delay. */
  predicate TransferEvent(e: Event) {
    e.Select? || e.Deselect? || e.Tx? || e.Rx?
  }

  /** One receive attempt: clear the whole buffer and receive into it with
      the whole buffer as capacity. */
  method RecvAttempt(cfg: Config, hal: Hal, dev: Device, capacity: nat, trace: seq<Event>) returns (r: Transport.RecvRun)
    requires capacity >= 1
    ensures |r.trace| > |trace| && r.trace[..|trace|] == trace
    ensures |r.buf| == capacity
    ensures r.status == Success ==>
      r.length <= capacity && forall i :: r.length <= i < capacity ==> r.buf[i] == 0
    ensures forall i :: |trace| <= i < |r.trace| ==> TransferEvent(r.trace[i])
    ensures forall i :: |trace| <= i < |r.trace| ==> Transport.ReceiveCall(cfg, dev, dev.address, r.trace[i])
    ensures Transport.ReceiveStatus(cfg, hal, dev, dev.address, capacity, 0, r.trace, |trace|, |r.trace|, r.status)
    ensures r.status == Success ==>
      Transport.ReceiveContent(cfg, hal, dev, dev.address, capacity, r.trace, |trace|, |r.trace|, r.buf, r.length)
  {
    r := Transport.ExecuteReceive(cfg, hal, dev, dev.address, Some(Zeros(capacity)), Some(capacity), trace);
    assert forall i :: |trace| <= i < |r.trace| ==> r.trace[i] == r.trace[|trace|..][i - |trace|];
    assert Zeros(capacity)[0] == 0;
  }

  /** An event the receive phase may produce: a call of a receive, or a polling delay. */
  predicate RecvPhaseEvent(cfg: Config, dev: Device, e: Event) {
    Transport.ReceiveCall(cfg, dev, dev.address, e) || (!cfg.noPoll && e == Delay(cfg.pollingFreqMs))
  }

  /** The calls a polling build adds after a failed receive attempt: one delay. */
  function Gap(cfg: Config): nat {
    if cfg.noPoll then 0 else 1
  }

  /** `attempts[i]` is what the HAL's replies to the calls `t[starts[i]..ends[i]]`
      make of the i-th receive attempt. The first attempt starts at `base`;
      in a polling build each later one follows one polling delay. */
  predicate Polled(cfg: Config, hal: Hal, dev: Device, cap: nat, attempts: seq<Status>,
                   starts: seq<nat>, ends: seq<nat>, t: seq<Event>, base: nat)
    decreases |attempts|
  {
    && |starts| == |attempts| && |ends| == |attempts|
    && (attempts != [] ==>
          && starts[0] == base && base <= ends[0] <= |t|
          && Transport.ReceiveStatus(cfg, hal, dev, dev.address, cap, 0, t, base, ends[0], attempts[0])
          && (|attempts| > 1 ==>
                && ends[0] + Gap(cfg) <= |t|
                && (!cfg.noPoll ==> t[ends[0]] == Delay(cfg.pollingFreqMs))
                && Polled(cfg, hal, dev, cap, attempts[1..], starts[1..], ends[1..], t, ends[0] + Gap(cfg))))
  }

  datatype RecvPhase = RecvPhase(status: Status, data: seq<uint8>, rxsize: nat, attempts: seq<Status>,
                                 starts: seq<nat>, ends: seq<nat>, trace: seq<Event>)

  /** The shape of a receive loop run after `trace` with `budget` extra
      attempts: it stops at the first success or after the last allowed
      attempt, only transfers and polling delays are called, and a success
      leaves the buffer of `capacity` bytes cleared beyond the response. */
  predicate PhaseShape(cfg: Config, dev: Device, capacity: nat, budget: nat, trace: seq<Event>, r: RecvPhase) {
    && |r.trace| > |trace| && r.trace[..|trace|] == trace
    && 1 <= |r.attempts| <= budget + 1
    && r.status == r.attempts[|r.attempts| - 1]
    && (forall i :: 0 <= i < |r.attempts| - 1 ==> r.attempts[i] != Success)
    && (r.status != Success ==> |r.attempts| == budget + 1)
    && |r.data| == capacity
    && (r.status == Success ==> r.rxsize <= capacity && forall i :: r.rxsize <= i < capacity ==> r.data[i] == 0)
    && TransferEvent(r.trace[|trace|])
    && (forall i :: |trace| <= i < |r.trace| ==> RecvPhaseEvent(cfg, dev, r.trace[i]))
  }

  /** The record of a receive loop run from position `base`: each attempt's
      status is what the HAL's replies to its own calls decide, a failed
      last attempt is followed by its polling delay and nothing else, and a
      success delivers the response the HAL gave the last attempt. */
  predicate PhaseRecord(cfg: Config, hal: Hal, dev: Device, capacity: nat, base: nat, r: RecvPhase) {
    var n := |r.attempts|;
    && n >= 1 && |r.starts| == n && |r.ends| == n
    && Polled(cfg, hal, dev, capacity, r.attempts, r.starts, r.ends, r.trace, base)
    && LastAttempt(cfg, hal, dev, capacity, r.status, r.starts[n - 1], r.ends[n - 1], r.trace, r.data, r.rxsize)
  }

  /** The last attempt of a receive loop, made of the calls from `start` to
      `end`, ends the loop: a failure is followed by its polling delay and
      nothing else, and a success delivered `rxsize` and `data`. */
  predicate LastAttempt(cfg: Config, hal: Hal, dev: Device, capacity: nat, status: Status, start: nat, end: nat,
                        trace: seq<Event>, data: seq<uint8>, rxsize: nat)
  {
    && start <= end
    && |trace| == end + (if status == Success then 0 else Gap(cfg))
    && (status != Success && !cfg.noPoll ==> trace[|trace| - 1] == Delay(cfg.pollingFreqMs))
    && (status == Success ==> Transport.ReceiveContent(cfg, hal, dev, dev.address, capacity, trace, start, end, data, rxsize))
  }

  /** What the receive loop promises when run after `trace` with `budget` extra attempts. */
  predicate PolledPhase(cfg: Config, hal: Hal, dev: Device, capacity: nat, budget: nat, trace: seq<Event>, r: RecvPhase) {
    PhaseShape(cfg, dev, capacity, budget, trace, r) && PhaseRecord(cfg, hal, dev, capacity, |trace|, r)
  }

  /** The record of the loop after a failed attempt, with that attempt put in front.
      This is one failed pass of the do-while loop of calib_execute_command
      (calib_execution.c:546-562) seen from the pass after it. */
  function Behind(status: Status, start: nat, end: nat, rest: RecvPhase): RecvPhase {
    rest.(attempts := [status] + rest.attempts, starts := [start] + rest.starts, ends := [end] + rest.ends)
  }

  /** The receive loop of a command, run after `trace`: one attempt, then,
      if it failed and `budget` allows another, one polling interval in a
      polling build and the rest of the loop. `attempts` holds the status of
      each attempt, decided by the HAL's replies to the calls between the
      matching entries of `starts` and `ends`. */
  method ReceiveWithPolling(cfg: Config, hal: Hal, dev: Device, capacity: nat, budget: nat, trace: seq<Event>)
    returns (r: RecvPhase)
    requires capacity >= 1
    ensures PolledPhase(cfg, hal, dev, capacity, budget, trace, r)
    decreases budget, 1
  {
    var rx := RecvAttempt(cfg, hal, dev, capacity, trace);
    var t := if rx.status == Success || cfg.noPoll then rx.trace else rx.trace + [Delay(cfg.pollingFreqMs)];
    assert t[..|rx.trace|] == rx.trace;
    assert t[..|trace|] == trace by {
      assert t[..|trace|] == t[..|rx.trace|][..|trace|];
    }
    assert t[|trace|] == rx.trace[|trace|] by {
      assert t[|trace|] == t[..|rx.trace|][|trace|];
    }
    Transport.ReceiveStatusExtends(cfg, hal, dev, dev.address, capacity, 0, rx.trace, t, |trace|, |rx.trace|, rx.status);
    if rx.status == Success || budget == 0 {
      r := RecvPhase(rx.status, rx.buf, rx.length, [rx.status], [|trace|], [|rx.trace|], t);
      OneAttempt(cfg, hal, dev, capacity, budget, trace, rx, r);
      return;
    }
    r := PollAgain(cfg, hal, dev, capacity, budget, trace, rx.trace, rx.status, t);
  }

  /** A loop that stops after its first attempt, because it succeeded or no
      budget is left, is recorded by that attempt alone: the `break` on a
      successful receive, or the loop's test `max_delay_count-- > 0` failing
      (calib_execution.c:552-562). */
  lemma OneAttempt(cfg: Config, hal: Hal, dev: Device, capacity: nat, budget: nat, trace: seq<Event>,
                   rx: Transport.RecvRun, r: RecvPhase)
    requires rx.status == Success || budget == 0
    requires |rx.trace| > |trace| && rx.trace[..|trace|] == trace && |rx.buf| == capacity
    requires rx.status == Success ==>
      rx.length <= capacity && forall i :: rx.length <= i < capacity ==> rx.buf[i] == 0
    requires forall i :: |trace| <= i < |rx.trace| ==> Transport.ReceiveCall(cfg, dev, dev.address, rx.trace[i])
    requires rx.status == Success ==>
      Transport.ReceiveContent(cfg, hal, dev, dev.address, capacity, rx.trace, |trace|, |rx.trace|, rx.buf, rx.length)
    requires r.trace == if rx.status == Success || cfg.noPoll then rx.trace else rx.trace + [Delay(cfg.pollingFreqMs)]
    requires Transport.ReceiveStatus(cfg, hal, dev, dev.address, capacity, 0, r.trace, |trace|, |rx.trace|, rx.status)
    requires r == RecvPhase(rx.status, rx.buf, rx.length, [rx.status], [|trace|], [|rx.trace|], r.trace)
    ensures PolledPhase(cfg, hal, dev, capacity, budget, trace, r)
  {
    var t := r.trace;
    assert t[..|rx.trace|] == rx.trace;
    assert t[..|trace|] == trace by {
      assert t[..|trace|] == t[..|rx.trace|][..|trace|];
    }
    forall i | |trace| <= i < |t|
      ensures RecvPhaseEvent(cfg, dev, t[i])
    {
      if i < |rx.trace| {
        assert t[i] == rx.trace[i];
      }
    }
  }

  /** The loop after a failed attempt that left the calls `rx` and, in a
      polling build, one delay: the rest of the loop with one attempt fewer,
      with the failed attempt put in front of its record. */
  method PollAgain(cfg: Config, hal: Hal, dev: Device, capacity: nat, budget: nat, trace: seq<Event>,
                   rx: seq<Event>, status: Status, t: seq<Event>) returns (r: RecvPhase)
    requires capacity >= 1 && budget >= 1 && status != Success
    requires |rx| > |trace| && rx[..|trace|] == trace
    requires forall i :: |trace| <= i < |rx| ==> Transport.ReceiveCall(cfg, dev, dev.address, rx[i])
    requires t == if cfg.noPoll then rx else rx + [Delay(cfg.pollingFreqMs)]
    requires Transport.ReceiveStatus(cfg, hal, dev, dev.address, capacity, 0, t, |trace|, |rx|, status)
    ensures PolledPhase(cfg, hal, dev, capacity, budget, trace, r)
    decreases budget, 0
  {
    var rest := ReceiveWithPolling(cfg, hal, dev, capacity, budget - 1, t);
    JoinShape(cfg, dev, capacity, budget, trace, rx, status, t, rest);
    JoinRecord(cfg, hal, dev, capacity, trace, rx, status, t, rest);
    r := Behind(status, |trace|, |rx|, rest);
  }

  /** A failed attempt's status in front of the rest of the loop's attempts:
      one more pass of the do-while loop (calib_execution.c:546-562) after
      the receive failed and, in a polling build, the polling delay. */
  lemma JoinPolled(cfg: Config, hal: Hal, dev: Device, capacity: nat, trace: seq<Event>,
                   rx: seq<Event>, status: Status, t: seq<Event>, rest: RecvPhase)
    requires |rx| > |trace|
    requires t == if cfg.noPoll then rx else rx + [Delay(cfg.pollingFreqMs)]
    requires Transport.ReceiveStatus(cfg, hal, dev, dev.address, capacity, 0, t, |trace|, |rx|, status)
    requires |rest.trace| > |t| && rest.trace[..|t|] == t
    requires 1 <= |rest.attempts|
    requires Polled(cfg, hal, dev, capacity, rest.attempts, rest.starts, rest.ends, rest.trace, |t|)
    ensures Polled(cfg, hal, dev, capacity, [status] + rest.attempts, [|trace|] + rest.starts,
                   [|rx|] + rest.ends, rest.trace, |trace|)
  {
    Transport.ReceiveStatusExtends(cfg, hal, dev, dev.address, capacity, 0, t, rest.trace, |trace|, |rx|, status);
    assert !cfg.noPoll ==> rest.trace[|rx|] == Delay(cfg.pollingFreqMs) by {
      assert !cfg.noPoll ==> rest.trace[|rx|] == rest.trace[..|t|][|rx|];
    }
    PolledCons(cfg, hal, dev, capacity, status, |trace|, |rx|, rest.attempts, rest.starts, rest.ends, rest.trace);
  }

  /** An attempt decided by the calls from `s` to `e`, followed by its polling
      delay and attempts recorded from there, is recorded from `s`: the
      receive at calib_execution.c:552 and the delay at :557-559 of one pass
      come before the passes after it. */
  lemma PolledCons(cfg: Config, hal: Hal, dev: Device, cap: nat, status: Status, s: nat, e: nat,
                   attempts: seq<Status>, starts: seq<nat>, ends: seq<nat>, t: seq<Event>)
    requires s <= e && e + Gap(cfg) <= |t| && attempts != []
    requires Transport.ReceiveStatus(cfg, hal, dev, dev.address, cap, 0, t, s, e, status)
    requires !cfg.noPoll ==> t[e] == Delay(cfg.pollingFreqMs)
    requires Polled(cfg, hal, dev, cap, attempts, starts, ends, t, e + Gap(cfg))
    ensures Polled(cfg, hal, dev, cap, [status] + attempts, [s] + starts, [e] + ends, t, s)
  {
    assert ([status] + attempts)[1..] == attempts;
    assert ([s] + starts)[1..] == starts;
    assert ([e] + ends)[1..] == ends;
  }

  /** A failed attempt followed by the rest of the loop's record is the record of the whole loop. */
  lemma JoinRecord(cfg: Config, hal: Hal, dev: Device, capacity: nat, trace: seq<Event>,
                   rx: seq<Event>, status: Status, t: seq<Event>, rest: RecvPhase)
    requires |rx| > |trace| && status != Success
    requires t == if cfg.noPoll then rx else rx + [Delay(cfg.pollingFreqMs)]
    requires Transport.ReceiveStatus(cfg, hal, dev, dev.address, capacity, 0, t, |trace|, |rx|, status)
    requires |rest.trace| > |t| && rest.trace[..|t|] == t
    requires PhaseRecord(cfg, hal, dev, capacity, |t|, rest)
    ensures PhaseRecord(cfg, hal, dev, capacity, |trace|, Behind(status, |trace|, |rx|, rest))
  {
    JoinPolled(cfg, hal, dev, capacity, trace, rx, status, t, rest);
    var r := Behind(status, |trace|, |rx|, rest);
    var n := |rest.attempts|;
    assert r.attempts == [status] + rest.attempts && r.starts == [|trace|] + rest.starts && r.ends == [|rx|] + rest.ends;
    assert r.status == rest.status && r.trace == rest.trace && r.data == rest.data && r.rxsize == rest.rxsize;
    assert r.starts[n] == rest.starts[n - 1] && r.ends[n] == rest.ends[n - 1];
  }

  /** The calls of a failed attempt, its delay and the rest of the loop form
      one receive loop: the pass of calib_execution.c:546-562 whose receive
      failed, and the passes that the test `max_delay_count-- > 0` let follow. */
  lemma JoinShape(cfg: Config, dev: Device, capacity: nat, budget: nat, trace: seq<Event>,
                  rx: seq<Event>, status: Status, t: seq<Event>, rest: RecvPhase)
    requires budget >= 1 && status != Success
    requires |rx| > |trace| && rx[..|trace|] == trace
    requires forall i :: |trace| <= i < |rx| ==> Transport.ReceiveCall(cfg, dev, dev.address, rx[i])
    requires t == if cfg.noPoll then rx else rx + [Delay(cfg.pollingFreqMs)]
    requires PhaseShape(cfg, dev, capacity, budget - 1, t, rest)
    ensures forall e: nat :: PhaseShape(cfg, dev, capacity, budget, trace, Behind(status, |trace|, e, rest))
  {
  }

  /** Response validation: the size, then the CRC, then the device's status byte. */
  function Validate(oracle: Oracle, rxsize: nat, data: seq<uint8>): (r: Status)
    ensures r == Success <==>
      rxsize >= 4 && oracle.checkCrc(data) == Success && oracle.isError(data) == Success
    ensures rxsize < 4 ==> r == (if rxsize > 0 then RxFail else RxNoResponse)
    ensures rxsize >= 4 && oracle.checkCrc(data) != Success ==> r == oracle.checkCrc(data)
    ensures rxsize >= 4 && oracle.checkCrc(data) == Success ==> r == oracle.isError(data)
  {
    if rxsize < 4 then
      if rxsize > 0 then RxFail else RxNoResponse
    else if oracle.checkCrc(data) != Success then
      oracle.checkCrc(data)
    else
      oracle.isError(data)
  }

  /** The result of a command: its status, the handle and packet after it,
      the status of each send attempt and where its calls start, where the
      send phase ends, the status of each receive attempt and where its
      calls start and end, the size of the response, and the calls made. */
  datatype Outcome = Outcome(
    status: Status,
    device: Device,
    packet: Packet,
    sends: seq<Status>,
    sendStarts: seq<nat>,
    sendEnd: nat,
    receives: seq<Status>,
    recvStarts: seq<nat>,
    recvEnds: seq<nat>,
    rxsize: nat,
    trace: seq<Event>)

  /** The packet as the send phase leaves it: with the reserved byte the interface demands. */
  function Sent(cfg: Config, dev: Device, packet: Packet): Packet {
    packet.(reserved := ReservedFor(cfg, dev, packet.reserved))
  }

  /** A call of the receive phase: a wait or a call of a receive. */
  predicate AfterSend(cfg: Config, dev: Device, e: Event) {
    e.Delay? || Transport.ReceiveCall(cfg, dev, dev.address, e)
  }

  /** A receive phase in `trace` after a send phase ending at `from`: a wait
      at `from`, then the receive attempts into a buffer of `capacity` bytes,
      each decided by the HAL's replies to its own calls; a successful last
      attempt delivered `rxsize` and `data`. */
  predicate ReceivesRecorded(cfg: Config, hal: Hal, dev: Device, capacity: nat, attempts: seq<Status>,
                             starts: seq<nat>, ends: seq<nat>, from: nat, trace: seq<Event>,
                             data: seq<uint8>, rxsize: nat)
  {
    var n := |attempts|;
    && from < |trace| && trace[from].Delay?
    && n >= 1 && |starts| == n && |ends| == n
    && Polled(cfg, hal, dev, capacity, attempts, starts, ends, trace, from + 1)
    && starts[n - 1] <= ends[n - 1] <= |trace|
    && (attempts[n - 1] == Success ==>
          Transport.ReceiveContent(cfg, hal, dev, dev.address, capacity, trace, starts[n - 1], ends[n - 1], data, rxsize))
  }

  /** Where the calls of a command's send and receive phases end: at
      `sendEnd` after a failed send phase, or after the last receive attempt
      and, when it failed, its polling delay. */
  function PhasesEnd(cfg: Config, sends: seq<Status>, sendEnd: nat, receives: seq<Status>, recvEnds: seq<nat>): nat {
    var n := |receives|;
    if |sends| >= 1 && sends[|sends| - 1] == Success && n >= 1 && |recvEnds| == n
    then recvEnds[n - 1] + (if receives[n - 1] == Success then 0 else Gap(cfg))
    else sendEnd
  }

  /** How the calls `t` of the send and receive phases of `packet` on
      `dev` came from the HAL. The calls before `sendEnd` are the send
      phase, and each send attempt's status is the HAL's reply to it.
      Nothing after the send phase is a send. A successful send phase is
      followed by the recorded receive phase, which ends the calls. */
  predicate PhasesRecorded(cfg: Config, hal: Hal, dev: Device, packet: Packet, sends: seq<Status>, sendStarts: seq<nat>,
                           sendEnd: nat, receives: seq<Status>, recvStarts: seq<nat>, recvEnds: seq<nat>,
                           t: seq<Event>, data: seq<uint8>, rxsize: nat)
  {
    var p := Sent(cfg, dev, packet);
    && sendEnd <= |t| && |sends| >= 1
    && Replies(cfg, hal, dev, p, sends, sendStarts, t[..sendEnd])
    && (forall i :: 0 <= i < sendEnd ==> SendPhaseEvent(t[i], CommandTx(cfg, dev, p)))
    && (forall i :: sendEnd <= i < |t| ==> AfterSend(cfg, dev, t[i]))
    && (sends[|sends| - 1] == Success ==>
          ReceivesRecorded(cfg, hal, dev, |packet.data|, receives, recvStarts, recvEnds, sendEnd, t, data, rxsize))
  }

  /** How the outcome `r` of `packet` on `dev` came from the HAL: its calls
      up to where the phases end are their record. */
  predicate HalRecord(cfg: Config, hal: Hal, dev: Device, packet: Packet, r: Outcome) {
    var end := PhasesEnd(cfg, r.sends, r.sendEnd, r.receives, r.recvEnds);
    && end <= |r.trace|
    && PhasesRecorded(cfg, hal, dev, packet, r.sends, r.sendStarts, r.sendEnd, r.receives, r.recvStarts, r.recvEnds,
                      r.trace[..end], r.packet.data, r.rxsize)
  }

  /** Over a whole command, the command itself is on the wire at most once
      per send attempt: a receive's only send is the one-byte word address,
      which no command image of a non-empty frame can equal, and the idle
      after the phases is no send. */
  lemma CommandCount(cfg: Config, hal: Hal, dev: Device, packet: Packet, r: Outcome)
    requires HalRecord(cfg, hal, dev, packet, r)
    requires forall i :: PhasesEnd(cfg, r.sends, r.sendEnd, r.receives, r.recvEnds) <= i < |r.trace| ==> r.trace[i] == Idle
    ensures |packet.frame| >= 1 ==> Count(r.trace, CommandTx(cfg, dev, Sent(cfg, dev, packet))) <= |r.sends|
  {
    if |packet.frame| == 0 {
      return;
    }
    var p := Sent(cfg, dev, packet);
    var tx := CommandTx(cfg, dev, p);
    var end := PhasesEnd(cfg, r.sends, r.sendEnd, r.receives, r.recvEnds);
    var t := r.trace[..end];
    assert !cfg.PassThrough(dev) ==> |tx.bytes| == |packet.frame| + 1 by {
      assert p.Image()[..|p.Image()|] == p.Image();
    }
    forall i | r.sendEnd <= i < |t|
      ensures t[i] != tx
    {
      assert AfterSend(cfg, dev, t[i]);
    }
    NoCommandAfter(t, r.sendEnd, tx);
    NoCommandAfter(r.trace, end, tx);
  }

  /** Calls after position `k` that are not `e` leave its count as it was at `k`. */
  lemma {:induction false} NoCommandAfter(t: seq<Event>, k: nat, e: Event)
    requires k <= |t| && forall i :: k <= i < |t| ==> t[i] != e
    ensures Count(t, e) == Count(t[..k], e)
    decreases |t|
  {
    if |t| == k {
      assert t[..k] == t;
    } else {
      var t' := t[..|t| - 1];
      assert t'[..k] == t[..k];
      NoCommandAfter(t', k, e);
    }
  }

  /** The first delay or receive of `t` is a delay of `w`, and a receive comes
      straight after it before any other delay. */
  predicate WaitsFirst(t: seq<Event>, w: nat) {
    exists k :: 0 <= k < |t| - 1 && t[k] == Delay(w) && Quiet(t[..k]) && !t[k + 1].Delay?
  }

  /** A quiet segment, one delay, and then a transfer is a wait-first trace. */
  lemma WaitThenTransfer(t: seq<Event>, s: seq<Event>, w: nat)
    requires |t| > |s| + 1 && t[..|s| + 1] == s + [Delay(w)]
    requires Quiet(s) && TransferEvent(t[|s| + 1])
    ensures WaitsFirst(t, w)
  {
    assert t[..|s|] == t[..|s| + 1][..|s|];
    assert t[|s|] == t[..|s| + 1][|s|];
  }

  /** Appending calls keeps a wait-first trace wait-first. */
  lemma WaitsFirstExtends(t: seq<Event>, e: Event, w: nat)
    requires WaitsFirst(t, w)
    ensures WaitsFirst(t + [e], w)
  {
    var k :| 0 <= k < |t| - 1 && t[k] == Delay(w) && Quiet(t[..k]) && !t[k + 1].Delay?;
    var u := t + [e];
    assert u[..k] == t[..k];
    assert u[k] == t[k] && u[k + 1] == t[k + 1];
    assert 0 <= k < |u| - 1 && u[k] == Delay(w) && Quiet(u[..k]) && !u[k + 1].Delay?;
  }

  /** Whether a command gets past the timing decision. */
  predicate Proceeds(cfg: Config, dev: Device, op: Opcode) {
    !NeedsLookup(cfg, dev) || Tabulated(cfg, dev, op)
  }

  /** What follows a successful send: the verdict, and the receive loop's record. */
  datatype Response = Response(status: Status, phase: RecvPhase)

  /** What the response to one wait of `wait` and the polled receive into a
      buffer of `capacity` bytes after the calls `sent` promises, the HAL's
      record aside: the status is the last receive's failure, or the
      validation's verdict on what it delivered, and the calls close with
      the last attempt or, when it failed, its polling delay. */
  ghost predicate Responded(cfg: Config, oracle: Oracle, dev: Device, capacity: nat, wait: nat, budget: nat,
                            sent: seq<Event>, r: Response) {
    && PhaseShape(cfg, dev, capacity, budget, sent + [Delay(wait)], r.phase)
    && Closes(cfg, r.phase)
    && r.phase.trace[..|sent|] == sent && WaitsFirst(r.phase.trace, wait)
    && (forall i :: 0 <= i < |r.phase.trace| ==> r.phase.trace[i] != Idle)
    && r.status == (if r.phase.status != Success then r.phase.status
                    else Validate(oracle, r.phase.rxsize, r.phase.data))
    && (r.status == Success ==>
          && r.phase.rxsize >= 4 && r.phase.status == Success
          && oracle.checkCrc(r.phase.data) == Success && oracle.isError(r.phase.data) == Success)
  }

  /** What follows a successful send after the calls `sent`: one wait, the
      polled receive into a buffer of `capacity` bytes, and the validation
      of the response. */
  method Respond(cfg: Config, oracle: Oracle, dev: Device, capacity: nat, wait: nat, budget: nat, sent: seq<Event>)
    returns (r: Response)
    requires capacity >= 1
    requires Quiet(sent) && forall i :: 0 <= i < |sent| ==> sent[i] != Idle
    ensures PolledPhase(cfg, oracle.hal, dev, capacity, budget, sent + [Delay(wait)], r.phase)
    ensures Responded(cfg, oracle, dev, capacity, wait, budget, sent, r)
  {
    var rp := ReceiveWithPolling(cfg, oracle.hal, dev, capacity, budget, sent + [Delay(wait)]);
    PhaseCloses(cfg, oracle.hal, dev, capacity, budget, sent + [Delay(wait)], rp);
    r := Response(if rp.status != Success then rp.status else Validate(oracle, rp.rxsize, rp.data), rp);
    Answered(cfg, oracle, dev, capacity, wait, budget, sent, r);
  }

  /** A receive loop of the given shape, run after the calls `sent` and one
      wait, answers with its own failure or the validation's verdict: the
      wait comes first, no idle is among the calls, and a success
      delivered a long enough response that passed both checks. */
  lemma Answered(cfg: Config, oracle: Oracle, dev: Device, capacity: nat, wait: nat, budget: nat,
                 sent: seq<Event>, r: Response)
    requires Quiet(sent) && forall i :: 0 <= i < |sent| ==> sent[i] != Idle
    requires PhaseShape(cfg, dev, capacity, budget, sent + [Delay(wait)], r.phase) && Closes(cfg, r.phase)
    requires r.status == (if r.phase.status != Success then r.phase.status
                          else Validate(oracle, r.phase.rxsize, r.phase.data))
    ensures Responded(cfg, oracle, dev, capacity, wait, budget, sent, r)
  {
    var t := sent + [Delay(wait)];
    var rp := r.phase;
    WaitThenTransfer(rp.trace, sent, wait);
    forall i | 0 <= i < |t|
      ensures rp.trace[i] == t[i]
    {
      assert rp.trace[i] == rp.trace[..|t|][i];
    }
    assert rp.trace[..|sent|] == sent by {
      assert rp.trace[..|sent|] == rp.trace[..|t|][..|sent|];
    }
  }

  /** How a receive loop's record closes its calls: with the last attempt,
      or with the polling delay after it when it failed. */
  predicate Closes(cfg: Config, ph: RecvPhase) {
    && |ph.attempts| >= 1 && |ph.ends| == |ph.attempts|
    && |ph.trace| == ph.ends[|ph.ends| - 1] + (if ph.attempts[|ph.attempts| - 1] == Success then 0 else Gap(cfg))
    && (ph.attempts[|ph.attempts| - 1] != Success && !cfg.noPoll ==> ph.trace[|ph.trace| - 1] == Delay(cfg.pollingFreqMs))
  }

  /** A recorded receive loop closes its calls as `Closes` says, and a
      success leaves the buffer cleared beyond the response. */
  lemma PhaseCloses(cfg: Config, hal: Hal, dev: Device, capacity: nat, budget: nat, t: seq<Event>, ph: RecvPhase)
    requires PolledPhase(cfg, hal, dev, capacity, budget, t, ph)
    ensures Closes(cfg, ph)
    ensures ph.attempts[|ph.attempts| - 1] == Success ==>
      ph.rxsize <= |ph.data| && forall i :: ph.rxsize <= i < |ph.data| ==> ph.data[i] == 0
  {
  }

  /** A recorded send phase followed by a recorded receive loop after one
      wait make up the record of the whole command. */
  lemma JoinPhases(cfg: Config, hal: Hal, dev: Device, packet: Packet, wait: nat, budget: nat,
                   sp: SendPhase, ph: RecvPhase, r: Outcome)
    requires |packet.data| >= 1 && sp.packet == Sent(cfg, dev, packet)
    requires |sp.attempts| >= 1 && sp.attempts[|sp.attempts| - 1] == Success
    requires |sp.attempts| == |sp.starts| && Replies(cfg, hal, dev, sp.packet, sp.attempts, sp.starts, sp.trace)
    requires forall i :: 0 <= i < |sp.trace| ==> SendPhaseEvent(sp.trace[i], CommandTx(cfg, dev, sp.packet))
    requires PolledPhase(cfg, hal, dev, |packet.data|, budget, sp.trace + [Delay(wait)], ph)
    requires r == Outcome(r.status, r.device, sp.packet.(data := ph.data), sp.attempts, sp.starts, |sp.trace|,
                          ph.attempts, ph.starts, ph.ends, ph.rxsize, ph.trace)
    ensures HalRecord(cfg, hal, dev, packet, r)
  {
    var t := sp.trace + [Delay(wait)];
    var n := |ph.attempts|;
    PhaseCloses(cfg, hal, dev, |packet.data|, budget, t, ph);
    assert PhasesEnd(cfg, r.sends, r.sendEnd, r.receives, r.recvEnds) == |ph.trace|;
    assert r.trace[..|ph.trace|] == ph.trace;
    assert ph.trace[..|sp.trace|] == sp.trace by {
      assert ph.trace[..|sp.trace|] == ph.trace[..|t|][..|sp.trace|];
    }
    assert ph.trace[|sp.trace|] == Delay(wait) by {
      assert ph.trace[|sp.trace|] == ph.trace[..|t|][|sp.trace|];
    }
    forall i | 0 <= i < |sp.trace|
      ensures SendPhaseEvent(ph.trace[i], CommandTx(cfg, dev, sp.packet))
    {
      assert ph.trace[i] == ph.trace[..|sp.trace|][i];
    }
    forall i | |sp.trace| <= i < |ph.trace|
      ensures AfterSend(cfg, dev, ph.trace[i])
    {
      if i > |sp.trace| {
        assert RecvPhaseEvent(cfg, dev, ph.trace[i]);
      }
    }
    assert |t| == |sp.trace| + 1;
    assert ReceivesRecorded(cfg, hal, dev, |packet.data|, ph.attempts, ph.starts, ph.ends, |sp.trace|, ph.trace,
                            ph.data, ph.rxsize);
    assert PhasesRecorded(cfg, hal, dev, packet, r.sends, r.sendStarts, r.sendEnd, r.receives, r.recvStarts, r.recvEnds,
                          ph.trace, ph.data, ph.rxsize);
  }

  /** What the exchange between the timing decision and the idle step
      promises about its outcome `r`, the HAL's record of it aside. */
  ghost predicate Exchanged(cfg: Config, oracle: Oracle, packet: Packet, dev: Device, wait: nat, budget: nat, r: Outcome) {
    && r.device == dev.(state := r.device.state)
    && r.packet.frame == packet.frame && r.packet.opcode == packet.opcode
    && r.packet == Sent(cfg, dev, packet).(data := r.packet.data)
    && |r.packet.data| == |packet.data|
    && 1 <= |r.sends| <= RetryBudget(dev.iface.retries) + 1
    && (forall i :: 0 <= i < |r.sends| - 1 ==> r.sends[i] == RxNoResponse)
    && (r.sends[|r.sends| - 1] == RxNoResponse ==> |r.sends| == RetryBudget(dev.iface.retries) + 1)
    && |r.trace| >= 1 && (r.trace[0] == Wake <==> dev.state != StateActive)
    && r.device.state == (if r.sends[|r.sends| - 1] == RxNoResponse then StateUnknown else StateActive)
    && (r.sends[|r.sends| - 1] != Success ==>
          r.status == r.sends[|r.sends| - 1] && r.receives == [] && Quiet(r.trace) && r.packet.data == packet.data)
    && (r.sends[|r.sends| - 1] == Success ==>
          && 1 <= |r.receives| <= budget + 1
          && (forall i :: 0 <= i < |r.receives| - 1 ==> r.receives[i] != Success)
          && WaitsFirst(r.trace, wait)
          && r.status == (if r.receives[|r.receives| - 1] != Success then r.receives[|r.receives| - 1]
                          else Validate(oracle, r.rxsize, r.packet.data)))
    // the calls end with the send phase when it failed, else with the last
    // receive attempt or, when that failed, its polling delay
    && |r.trace| == PhasesEnd(cfg, r.sends, r.sendEnd, r.receives, r.recvEnds)
    && (r.sends[|r.sends| - 1] == Success && r.receives[|r.receives| - 1] != Success && !cfg.noPoll ==>
          r.trace[|r.trace| - 1] == Delay(cfg.pollingFreqMs))
    // a received response leaves the rest of the buffer cleared
    && (r.sends[|r.sends| - 1] == Success && r.receives[|r.receives| - 1] == Success ==>
          r.rxsize <= |r.packet.data| && forall i :: r.rxsize <= i < |r.packet.data| ==> r.packet.data[i] == 0)
    && (forall i :: 0 <= i < |r.trace| ==> r.trace[i] != Idle)
    && (r.status == Success ==>
          && r.rxsize >= 4 && |r.receives| >= 1 && r.receives[|r.receives| - 1] == Success
          && oracle.checkCrc(r.packet.data) == Success && oracle.isError(r.packet.data) == Success)
  }

  /** The exchange's promise together with the HAL's record of its calls. */
  ghost predicate Transacted(cfg: Config, oracle: Oracle, packet: Packet, dev: Device, wait: nat, budget: nat, r: Outcome) {
    Exchanged(cfg, oracle, packet, dev, wait, budget, r) && HalRecord(cfg, oracle.hal, dev, packet, r)
  }

  /** Everything between the timing decision and the idle step: the retried
      send and, when it succeeded, the single wait, the polled receive and
      the validation, recorded after the send phase. The handle's cached
      time is not read by any of them. */
  method Transact(cfg: Config, oracle: Oracle, packet: Packet, dev: Device, wait: nat, budget: nat) returns (r: Outcome)
    requires |packet.data| >= 1
    ensures Transacted(cfg, oracle, packet, dev, wait, budget, r) == true
  {
    var sp := SendWithRetry(cfg, oracle.hal, dev, packet);
    SendQuiet(sp.trace, CommandTx(cfg, dev, sp.packet));
    if sp.status != Success {
      r := Outcome(sp.status, dev.(state := sp.state), sp.packet, sp.attempts, sp.starts, |sp.trace|, [], [], [], 0, sp.trace);
      SendFailed(cfg, oracle, packet, dev, wait, budget, sp, r);
      return;
    }
    r := Exchange(cfg, oracle, packet, dev, wait, budget, sp);
  }

  /** A send phase that gave up: the outcome is its status, with no receive
      and the packet's data as it was, and its calls are the whole record. */
  lemma SendFailed(cfg: Config, oracle: Oracle, packet: Packet, dev: Device, wait: nat, budget: nat,
                   sp: SendPhase, r: Outcome)
    requires 1 <= |sp.attempts| <= RetryBudget(dev.iface.retries) + 1
    requires sp.status == sp.attempts[|sp.attempts| - 1] && sp.status != Success
    requires forall i :: 0 <= i < |sp.attempts| - 1 ==> sp.attempts[i] == RxNoResponse
    requires sp.status == RxNoResponse ==> |sp.attempts| == RetryBudget(dev.iface.retries) + 1
    requires sp.state == (if sp.status == RxNoResponse then StateUnknown else StateActive)
    requires sp.packet == Sent(cfg, dev, packet)
    requires |sp.trace| >= 1 && (sp.trace[0] == Wake <==> dev.state != StateActive)
    requires Quiet(sp.trace) && forall i :: 0 <= i < |sp.trace| ==> sp.trace[i] != Idle
    requires forall i :: 0 <= i < |sp.trace| ==> SendPhaseEvent(sp.trace[i], CommandTx(cfg, dev, sp.packet))
    requires |sp.attempts| == |sp.starts| && Replies(cfg, oracle.hal, dev, sp.packet, sp.attempts, sp.starts, sp.trace)
    requires r == Outcome(sp.status, dev.(state := sp.state), sp.packet, sp.attempts, sp.starts, |sp.trace|, [], [], [], 0, sp.trace)
    ensures Transacted(cfg, oracle, packet, dev, wait, budget, r)
  {
    assert r.trace[..r.sendEnd] == sp.trace;
  }

  /** What follows the successful send phase `sp`: the wait, the polled
      receive and the validation, recorded after the send phase. */
  method Exchange(cfg: Config, oracle: Oracle, packet: Packet, dev: Device, wait: nat, budget: nat, sp: SendPhase)
    returns (r: Outcome)
    requires |packet.data| >= 1
    requires 1 <= |sp.attempts| <= RetryBudget(dev.iface.retries) + 1
    requires sp.status == sp.attempts[|sp.attempts| - 1] && sp.status == Success
    requires forall i :: 0 <= i < |sp.attempts| - 1 ==> sp.attempts[i] == RxNoResponse
    requires sp.state == StateActive && sp.packet == Sent(cfg, dev, packet)
    requires |sp.trace| >= 1 && (sp.trace[0] == Wake <==> dev.state != StateActive)
    requires Quiet(sp.trace) && forall i :: 0 <= i < |sp.trace| ==> sp.trace[i] != Idle
    requires forall i :: 0 <= i < |sp.trace| ==> SendPhaseEvent(sp.trace[i], CommandTx(cfg, dev, sp.packet))
    requires |sp.attempts| == |sp.starts| && Replies(cfg, oracle.hal, dev, sp.packet, sp.attempts, sp.starts, sp.trace)
    ensures Transacted(cfg, oracle, packet, dev, wait, budget, r) == true
  {
    var rs := Respond(cfg, oracle, dev, |packet.data|, wait, budget, sp.trace);
    r := Outcome(rs.status, dev.(state := StateActive), sp.packet.(data := rs.phase.data), sp.attempts, sp.starts, |sp.trace|,
                 rs.phase.attempts, rs.phase.starts, rs.phase.ends, rs.phase.rxsize, rs.phase.trace);
    JoinPhases(cfg, oracle.hal, dev, packet, wait, budget, sp, rs.phase, r);
    ReceivedOutcome(cfg, oracle, packet, dev, wait, budget, sp.attempts, sp.trace, rs, r);
  }

  /** The outcome of a send phase that ended in success after the calls
      `sent`, followed by the response `rs` to one wait and the receive
      loop: the verdict is the receive loop's or the validation's, and the
      calls close with the receive loop's. */
  lemma ReceivedOutcome(cfg: Config, oracle: Oracle, packet: Packet, dev: Device, wait: nat, budget: nat,
                        sends: seq<Status>, sent: seq<Event>, rs: Response, r: Outcome)
    requires |packet.data| >= 1
    requires 1 <= |sends| <= RetryBudget(dev.iface.retries) + 1 && sends[|sends| - 1] == Success
    requires forall i :: 0 <= i < |sends| - 1 ==> sends[i] == RxNoResponse
    requires |sent| >= 1 && (sent[0] == Wake <==> dev.state != StateActive)
    requires Responded(cfg, oracle, dev, |packet.data|, wait, budget, sent, rs)
    requires r == Outcome(rs.status, dev.(state := StateActive), Sent(cfg, dev, packet).(data := rs.phase.data),
                          sends, r.sendStarts, |sent|, rs.phase.attempts, rs.phase.starts, rs.phase.ends,
                          rs.phase.rxsize, rs.phase.trace)
    ensures Exchanged(cfg, oracle, packet, dev, wait, budget, r)
  {
    assert r.trace[0] == sent[0] by {
      assert r.trace[0] == r.trace[..|sent|][0];
    }
  }

  /** A send phase's calls are wakes, selects, deselects and the command's
      transmit: no delay, no receive and no idle among them. */
  lemma SendQuiet(t: seq<Event>, tx: Event)
    requires tx.Tx? && forall i :: 0 <= i < |t| ==> SendPhaseEvent(t[i], tx)
    ensures Quiet(t) && forall i :: 0 <= i < |t| ==> t[i] != Idle
  {
  }

  /** The end of calib_execute_command: the handle takes its new execution
      time, and a non-CA2 device gets one idle call, last, whose own status
      is discarded. The record of the command is kept. */
  method Finish(cfg: Config, hal: Hal, dev: Device, packet: Packet, time: ExecTime, r: Outcome)
    returns (r': Outcome)
    requires HalRecord(cfg, hal, dev, packet, r)
    // the outcome is otherwise unchanged
    ensures r' == r.(device := r.device.(execTime := time, state := if cfg.IsCa2(dev.devType) then r.device.state else StateIdle),
                     trace := r.trace + if cfg.IsCa2(dev.devType) then [] else [Idle])
    ensures HalRecord(cfg, hal, dev, packet, r')
  {
    var end := PhasesEnd(cfg, r.sends, r.sendEnd, r.receives, r.recvEnds);
    r' := r.(device := r.device.(execTime := time));
    if !cfg.IsCa2(dev.devType) {
      r' := r'.(device := r'.device.(state := StateIdle), trace := r.trace + [Idle]);
      assert r'.trace[..end] == r.trace[..end];
    } else {
      assert r.trace + [] == r.trace;
    }
  }

  /** What calib_execute_command promises about its outcome `r` once the
      lookup let it go on, the HAL's record of it aside. */
  ghost predicate Ran(cfg: Config, oracle: Oracle, packet: Packet, dev: Device, wait: nat, budget: nat, time: ExecTime,
                      r: Outcome) {
    && r.device == dev.(state := r.device.state, execTime := time)
    && r.packet.frame == packet.frame && r.packet.opcode == packet.opcode
    && r.packet == Sent(cfg, dev, packet).(data := r.packet.data)
    && |r.packet.data| == |packet.data|
    && 1 <= |r.sends| <= RetryBudget(dev.iface.retries) + 1
    && (forall i :: 0 <= i < |r.sends| - 1 ==> r.sends[i] == RxNoResponse)
    && (r.sends[|r.sends| - 1] == RxNoResponse ==> |r.sends| == RetryBudget(dev.iface.retries) + 1)
    && |r.trace| >= 1 && (r.trace[0] == Wake <==> dev.state != StateActive)
    && (r.sends[|r.sends| - 1] != Success ==>
          r.status == r.sends[|r.sends| - 1] && r.receives == [] && Quiet(r.trace) && r.packet.data == packet.data)
    && (r.sends[|r.sends| - 1] == Success ==>
          && 1 <= |r.receives| <= budget + 1
          && (forall i :: 0 <= i < |r.receives| - 1 ==> r.receives[i] != Success)
          && WaitsFirst(r.trace, wait)
          && r.status == (if r.receives[|r.receives| - 1] != Success then r.receives[|r.receives| - 1]
                          else Validate(oracle, r.rxsize, r.packet.data)))
    && (r.sends[|r.sends| - 1] == Success && r.receives[|r.receives| - 1] == Success ==>
          r.rxsize <= |r.packet.data| && forall i :: r.rxsize <= i < |r.packet.data| ==> r.packet.data[i] == 0)
    // the phases' calls, then the idle for a non-CA2 device, and nothing else
    && |r.trace| == PhasesEnd(cfg, r.sends, r.sendEnd, r.receives, r.recvEnds) + (if cfg.IsCa2(dev.devType) then 0 else 1)
    && (!cfg.IsCa2(dev.devType) ==>
          && r.device.state == StateIdle && r.trace[|r.trace| - 1] == Idle
          && forall i :: 0 <= i < |r.trace| - 1 ==> r.trace[i] != Idle)
    && (cfg.IsCa2(dev.devType) ==>
          && r.device.state == (if r.sends[|r.sends| - 1] == RxNoResponse then StateUnknown else StateActive)
          && forall i :: 0 <= i < |r.trace| ==> r.trace[i] != Idle)
    && (r.status == Success ==>
          && r.rxsize >= 4 && |r.receives| >= 1 && r.receives[|r.receives| - 1] == Success
          && oracle.checkCrc(r.packet.data) == Success && oracle.isError(r.packet.data) == Success)
  }

  /** The idle step keeps what the exchange `x` promised, gives the handle
      its new execution time and, for a non-CA2 device, puts it to idle with
      one idle call after the phases' calls, which are the only calls after
      them. */
  lemma IdleStep(cfg: Config, oracle: Oracle, packet: Packet, dev: Device, wait: nat, budget: nat, time: ExecTime,
                 x: Outcome, r: Outcome)
    requires Exchanged(cfg, oracle, packet, dev, wait, budget, x)
    requires r == x.(device := x.device.(execTime := time, state := if cfg.IsCa2(dev.devType) then x.device.state else StateIdle),
                     trace := x.trace + if cfg.IsCa2(dev.devType) then [] else [Idle])
    ensures Ran(cfg, oracle, packet, dev, wait, budget, time, r)
    ensures forall i :: PhasesEnd(cfg, r.sends, r.sendEnd, r.receives, r.recvEnds) <= i < |r.trace| ==> r.trace[i] == Idle
  {
    if !cfg.IsCa2(dev.devType) {
      assert r.trace == x.trace + [Idle];
      if x.sends[|x.sends| - 1] == Success {
        WaitsFirstExtends(x.trace, Idle, wait);
      }
      assert forall i :: 0 <= i < |x.trace| ==> r.trace[i] == x.trace[i];
    } else {
      assert r.trace == x.trace;
    }
  }

  /** What a command run once the lookup let it go on promises: `Ran`, the
      HAL's record of its sends, receives and response, and the command on
      the wire at most once per send attempt. */
  ghost predicate Commanded(cfg: Config, oracle: Oracle, packet: Packet, dev: Device, wait: nat, budget: nat,
                            time: ExecTime, r: Outcome) {
    && Ran(cfg, oracle, packet, dev, wait, budget, time, r)
    && HalRecord(cfg, oracle.hal, dev, packet, r)
    && (|packet.frame| >= 1 ==> Count(r.trace, CommandTx(cfg, dev, Sent(cfg, dev, packet))) <= |r.sends|)
  }

  /** calib_execute_command once the lookup let it go on: the exchange with
      the given wait and receive budget, the handle's new execution time,
      and the idle step for a non-CA2 device. */
  method RunCommand(cfg: Config, oracle: Oracle, packet: Packet, dev: Device, wait: nat, budget: nat, time: ExecTime)
    returns (r: Outcome)
    requires |packet.data| >= 1
    ensures Commanded(cfg, oracle, packet, dev, wait, budget, time, r) == true
  {
    var x := Transact(cfg, oracle, packet, dev, wait, budget);
    r := Finish(cfg, oracle.hal, dev, packet, time, x);
    IdleStep(cfg, oracle, packet, dev, wait, budget, time, x, r);
    CommandCount(cfg, oracle.hal, dev, packet, r);
  }

  /** The timing decision's wait, receive budget and cached time in the
      build's terms, applied to what the run after it promises. */
  lemma PlannedRun(cfg: Config, dev: Device, plan: Plan, r: Outcome)
    requires cfg.WellFormed() && plan.Proceed?
    requires !NeedsLookup(cfg, dev) ==> plan.device == dev
    requires NeedsLookup(cfg, dev) ==> plan.budget == 0
    requires cfg.noPoll ==> plan.device.execTime == Msec(plan.wait)
    requires !cfg.noPoll ==> plan.wait == cfg.pollInitialWaitMs
    requires !cfg.noPoll ==> plan.budget == (if NeedsLookup(cfg, dev) then 0 else cfg.pollingMaxMs / cfg.pollingFreqMs)
    requires r.device == dev.(state := r.device.state, execTime := plan.device.execTime)
    requires |r.sends| >= 1
    requires r.sends[|r.sends| - 1] == Success ==> |r.receives| <= plan.budget + 1 && WaitsFirst(r.trace, plan.wait)
    ensures r.device == dev.(state := r.device.state, execTime := r.device.execTime)
    ensures !NeedsLookup(cfg, dev) ==> r.device.execTime == dev.execTime
    ensures r.device.execTime == plan.device.execTime
    ensures r.sends[|r.sends| - 1] == Success ==>
      && (NeedsLookup(cfg, dev) ==> |r.receives| <= 1)
      && (!NeedsLookup(cfg, dev) ==> |r.receives| <= cfg.pollingMaxMs / cfg.pollingFreqMs + 1)
      && (cfg.noPoll ==> r.device.execTime.Msec? && WaitsFirst(r.trace, r.device.execTime.ms))
      && (!cfg.noPoll ==> WaitsFirst(r.trace, cfg.pollInitialWaitMs))
  {
  }

  /** What calib_execute_command promises about its outcome `r`. */
  ghost predicate Executed(cfg: Config, oracle: Oracle, packet: Packet, dev: Device, r: Outcome)
    requires cfg.WellFormed()
  {
    && r.device == dev.(state := r.device.state, execTime := r.device.execTime)
    && r.packet.frame == packet.frame && r.packet.opcode == packet.opcode
    && |r.packet.data| == |packet.data|
    // a failed lookup returns at once: nothing is called, the state is untouched
    && (!Proceeds(cfg, dev, packet.opcode) ==>
          && r.status == BadOpcode && r.device.state == dev.state && r.device.execTime == Unsupported
          && r.trace == [] && r.sends == [] && r.receives == [] && r.packet == packet)
    // the retried send
    && (Proceeds(cfg, dev, packet.opcode) ==>
          && 1 <= |r.sends| <= RetryBudget(dev.iface.retries) + 1
          && (forall i :: 0 <= i < |r.sends| - 1 ==> r.sends[i] == RxNoResponse)
          && (r.sends[|r.sends| - 1] == RxNoResponse ==> |r.sends| == RetryBudget(dev.iface.retries) + 1)
          && |r.trace| >= 1 && (r.trace[0] == Wake <==> dev.state != StateActive))
    // a failed send phase neither waits nor receives
    && (Proceeds(cfg, dev, packet.opcode) && r.sends[|r.sends| - 1] != Success ==>
          r.status == r.sends[|r.sends| - 1] && r.receives == [] && Quiet(r.trace) && r.packet.data == packet.data)
    // a successful one waits once, then receives with polling
    && (Proceeds(cfg, dev, packet.opcode) && r.sends[|r.sends| - 1] == Success ==>
          && 1 <= |r.receives|
          && (forall i :: 0 <= i < |r.receives| - 1 ==> r.receives[i] != Success)
          && (NeedsLookup(cfg, dev) ==> |r.receives| == 1)
          && (!NeedsLookup(cfg, dev) ==> |r.receives| <= cfg.pollingMaxMs / cfg.pollingFreqMs + 1)
          && (cfg.noPoll ==> r.device.execTime.Msec? && WaitsFirst(r.trace, r.device.execTime.ms))
          && (!cfg.noPoll ==> WaitsFirst(r.trace, cfg.pollInitialWaitMs)))
    // a received response leaves the rest of the buffer cleared
    && (Proceeds(cfg, dev, packet.opcode) && r.sends[|r.sends| - 1] == Success && r.receives[|r.receives| - 1] == Success ==>
          r.rxsize <= |r.packet.data| && forall i :: r.rxsize <= i < |r.packet.data| ==> r.packet.data[i] == 0)
    // the trace is the phases' calls, then the idle for a non-CA2 device
    && (Proceeds(cfg, dev, packet.opcode) ==>
          |r.trace| == PhasesEnd(cfg, r.sends, r.sendEnd, r.receives, r.recvEnds) + (if cfg.IsCa2(dev.devType) then 0 else 1))
    // the idle step: one idle, last, for every non-CA2 device that got past the lookup
    && (Proceeds(cfg, dev, packet.opcode) && !cfg.IsCa2(dev.devType) ==>
          && r.device.state == StateIdle && r.trace[|r.trace| - 1] == Idle
          && forall i :: 0 <= i < |r.trace| - 1 ==> r.trace[i] != Idle)
    && (Proceeds(cfg, dev, packet.opcode) && cfg.IsCa2(dev.devType) ==>
          && r.device.state == (if r.sends[|r.sends| - 1] == RxNoResponse then StateUnknown else StateActive)
          && forall i :: 0 <= i < |r.trace| ==> r.trace[i] != Idle)
    // the handle's execution time: looked up in the table for the device, or left alone
    && (!NeedsLookup(cfg, dev) ==> r.device.execTime == dev.execTime)
    && (Proceeds(cfg, dev, packet.opcode) && NeedsLookup(cfg, dev) ==>
          var table := ExecutionTimes.TableFor(dev.devType, dev.divider, cfg.noPoll);
          exists i :: ExecutionTimes.IsFirstMatch(table, packet.opcode, i) && r.device.execTime == Msec(table[i].ms))
    // after a successful send, the status is the last receive's failure or the validation's verdict
    && (Proceeds(cfg, dev, packet.opcode) && r.sends[|r.sends| - 1] == Success ==>
          r.status == (if r.receives[|r.receives| - 1] != Success then r.receives[|r.receives| - 1]
                       else Validate(oracle, r.rxsize, r.packet.data)))
    // success means a received, CRC-checked, non-error response of at least four bytes
    && (r.status == Success ==>
          && r.rxsize >= 4 && |r.receives| >= 1 && r.receives[|r.receives| - 1] == Success
          && oracle.checkCrc(r.packet.data) == Success && oracle.isError(r.packet.data) == Success)
    // the sends, the receives and the response are the HAL's, and the command
    // is on the wire at most once per send attempt
    && (Proceeds(cfg, dev, packet.opcode) ==>
          && r.packet == Sent(cfg, dev, packet).(data := r.packet.data)
          && HalRecord(cfg, oracle.hal, dev, packet, r))
    && (Proceeds(cfg, dev, packet.opcode) && |packet.frame| >= 1 ==>
          Count(r.trace, CommandTx(cfg, dev, Sent(cfg, dev, packet))) <= |r.sends|)
  }

  /** calib_execute_command: the timing decision, then the early return of a
      failed lookup or the command itself. Each way out keeps the whole
      promise `Executed` before the two meet. */
  method Execute(cfg: Config, oracle: Oracle, packet: Packet, dev: Device) returns (r: Outcome)
    requires cfg.WellFormed()
    requires |packet.data| >= 1
    ensures Executed(cfg, oracle, packet, dev, r) == true
  {
    var plan := PlanTiming(cfg, packet.opcode, dev);
    if plan.Abort? {
      r := Outcome(plan.status, plan.device, packet, [], [], 0, [], [], [], 0, []);
      Aborted(cfg, oracle, packet, dev, plan, r);
      return;
    }
    r := RunCommand(cfg, oracle, packet, dev, plan.wait, plan.budget, plan.device.execTime);
    Proceeded(cfg, oracle, packet, dev, plan, r);
  }

  /** The early return of a failed lookup (calib_execution.c:473-476, :485-488) keeps
      the whole promise: no call, the packet as it was, `BadOpcode`. */
  lemma Aborted(cfg: Config, oracle: Oracle, packet: Packet, dev: Device, plan: Plan, r: Outcome)
    requires cfg.WellFormed() && plan.Abort?
    requires Planned(cfg, packet.opcode, dev, plan) == true
    requires r == Outcome(plan.status, plan.device, packet, [], [], 0, [], [], [], 0, [])
    ensures Executed(cfg, oracle, packet, dev, r) == true
  {
  }

  /** A command run with the decided wait, budget and cached time keeps the
      whole promise of calib_execute_command. */
  lemma Proceeded(cfg: Config, oracle: Oracle, packet: Packet, dev: Device, plan: Plan, r: Outcome)
    requires cfg.WellFormed() && plan.Proceed?
    requires Planned(cfg, packet.opcode, dev, plan) == true
    requires Commanded(cfg, oracle, packet, dev, plan.wait, plan.budget, plan.device.execTime, r) == true
    ensures Executed(cfg, oracle, packet, dev, r) == true
  {
    PlannedRun(cfg, dev, plan, r);
  }
}

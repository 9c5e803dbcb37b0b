/**
 * The transport adapter: `calib_execute_send` and `calib_execute_receive`.
 * Each call on the HAL is appended to a trace and answered by the HAL
 * oracle, which sees every earlier call. A receive writes the bytes the HAL
 * delivers into the caller's buffer, never more than were asked for.
 */
module Transport {
  import opened AtcaTypes

  /** The address pass-through transports are sent to. */
  const KitAddress: uint8 := 0xFF

  /** How many of `bytes` a HAL receive asked for `want` bytes delivers. */
  function Delivered(bytes: seq<uint8>, want: nat): (n: nat)
    ensures n <= want && n <= |bytes|
    ensures n == want || n == |bytes|
  {
    if |bytes| < want then |bytes| else want
  }

  /** `buf` after a HAL receive of `want` bytes at `offset` delivered `bytes`. */
  function Store(buf: seq<uint8>, offset: nat, bytes: seq<uint8>, want: nat): (r: seq<uint8>)
    requires offset + want <= |buf|
    ensures |r| == |buf|
    ensures forall i :: 0 <= i < Delivered(bytes, want) ==> r[offset + i] == bytes[i]
    ensures forall i :: 0 <= i < |buf| && !(offset <= i < offset + Delivered(bytes, want)) ==> r[i] == buf[i]
  {
    var n := Delivered(bytes, want);
    buf[..offset] + bytes[..n] + buf[offset + n..]
  }

  datatype SendRun = SendRun(status: Status, trace: seq<Event>)

  /** What a send of `txlength` bytes of `txdata` puts on the wire. The
      pass-through paths drop one byte: the legacy HAL the last one, a kit
      interface the leading framing byte. */
  function WireBytes(cfg: Config, dev: Device, txdata: seq<uint8>, txlength: nat): seq<uint8>
    requires 1 <= txlength <= |txdata|
  {
    if cfg.legacyHal then txdata[..txlength - 1]
    else if dev.iface.isKit then txdata[1..txlength]
    else txdata[..txlength]
  }

  /** Only the pass-through paths change the bytes: the legacy HAL loses the
      last byte, a kit interface the first, and every other interface sends
      the buffer as given. */
  lemma WireBytesDropOne(cfg: Config, dev: Device, txdata: seq<uint8>, txlength: nat)
    requires 1 <= txlength <= |txdata|
    ensures cfg.PassThrough(dev) <==> |WireBytes(cfg, dev, txdata, txlength)| == txlength - 1
    ensures cfg.legacyHal ==> WireBytes(cfg, dev, txdata, txlength) + [txdata[txlength - 1]] == txdata[..txlength]
    ensures !cfg.legacyHal && dev.iface.isKit ==> [txdata[0]] + WireBytes(cfg, dev, txdata, txlength) == txdata[..txlength]
    ensures !cfg.PassThrough(dev) ==> WireBytes(cfg, dev, txdata, txlength) == txdata[..txlength]
  {
    if cfg.legacyHal {
      assert txdata[..txlength] == txdata[..txlength - 1] + [txdata[txlength - 1]];
    } else if dev.iface.isKit {
      assert txdata[..txlength] == [txdata[0]] + txdata[1..txlength];
    }
  }

  /** The address a send or receive is directed to. */
  function WireAddress(cfg: Config, dev: Device, address: uint8): uint8 {
    if cfg.PassThrough(dev) then KitAddress else address
  }

  /** calib_execute_send. `None` stands for a null buffer. */
  function ExecuteSend(cfg: Config, hal: Hal, dev: Device, address: uint8,
                       txdata: Option<seq<uint8>>, txlength: nat, trace: seq<Event>): (r: SendRun)
    requires txdata.Some? ==> txlength <= |txdata.value|
    ensures |r.trace| >= |trace| && r.trace[..|trace|] == trace
    ensures txdata.None? || txlength == 0 <==> r.trace == trace
    ensures txdata.None? || txlength == 0 ==> r.status == BadParam
    ensures txdata.Some? && txlength > 0 && cfg.PassThrough(dev) ==>
      var tx := Tx(KitAddress, WireBytes(cfg, dev, txdata.value, txlength));
      r.trace == trace + [tx] && r.status == hal(trace, tx).status
    ensures txdata.Some? && txlength > 0 && !cfg.PassThrough(dev) ==>
      var sel := hal(trace, Select).status;
      var tx := Tx(address, txdata.value[..txlength]);
      && Bracketed(r.trace[|trace|..])
      && (tx in r.trace[|trace|..] <==> SelectAccepted(sel))
      && r.trace == trace + (if SelectAccepted(sel) then [Select, tx, Deselect] else [Select, Deselect])
      && |r.trace| <= |trace| + 3
      && r.status == (if SelectAccepted(sel) then hal(trace + [Select], tx).status else sel)
  {
    if txdata.None? || txlength == 0 then
      SendRun(BadParam, trace)
    else if cfg.PassThrough(dev) then
      var tx := Tx(KitAddress, WireBytes(cfg, dev, txdata.value, txlength));
      SendRun(hal(trace, tx).status, trace + [tx])
    else
      var sel := hal(trace, Select).status;
      var t1 := trace + [Select];
      if SelectAccepted(sel) then
        var tx := Tx(address, txdata.value[..txlength]);
        var sent := hal(t1, tx).status;
        var r := SendRun(sent, t1 + [tx, Deselect]);
        assert r.trace[|trace|..] == [Select, tx, Deselect];
        r
      else
        var r := SendRun(sel, t1 + [Deselect]);
        assert r.trace[|trace|..] == [Select, Deselect];
        r
  }

  /** A send puts nothing on the transport but its select, its deselect and
      the one transfer of the wire bytes to the wire address. */
  lemma SendEventsOnly(cfg: Config, hal: Hal, dev: Device, address: uint8,
                       txdata: seq<uint8>, txlength: nat, trace: seq<Event>)
    requires 1 <= txlength <= |txdata|
    ensures
      var r := ExecuteSend(cfg, hal, dev, address, Some(txdata), txlength, trace);
      var tx := Tx(WireAddress(cfg, dev, address), WireBytes(cfg, dev, txdata, txlength));
      forall i :: |trace| <= i < |r.trace| ==> r.trace[i] == Select || r.trace[i] == Deselect || r.trace[i] == tx
  {
    var r := ExecuteSend(cfg, hal, dev, address, Some(txdata), txlength, trace);
    var tx := Tx(WireAddress(cfg, dev, address), WireBytes(cfg, dev, txdata, txlength));
    if !cfg.PassThrough(dev) {
      var added := if SelectAccepted(hal(trace, Select).status) then [Select, tx, Deselect] else [Select, Deselect];
      assert r.trace == trace + added;
    }
  }

  /** The state of a receive: its status, the caller's buffer and `*rxlength`. */
  datatype RecvRun = RecvRun(status: Status, buf: seq<uint8>, length: nat, trace: seq<Event>)

  /** The length byte the first read leaves in a buffer whose first byte was `b0`. */
  function DeclaredLength(first: Reply, b0: uint8): nat {
    if |first.bytes| >= 1 then first.bytes[0] as nat else b0 as nat
  }

  /** No receive in `t` reaches past the first `bound` bytes of the buffer. */
  predicate ReadsWithin(t: seq<Event>, bound: nat) {
    forall i :: 0 <= i < |t| && t[i].Rx? ==> t[i].offset + t[i].want <= bound
  }

  function Max1(n: nat): nat {
    if n == 0 then 1 else n
  }

  /** The calls `t[s..e]` are the framed read of a buffer of capacity `cap`
      whose first byte was `b0`, and `status` is what the HAL's replies make
      of it: the first read's failure; else `SmallBuffer` for a declared
      length above the capacity; else `RxFail` for one below 4; else a
      second read of the remaining bytes, whose status is the result. */
  predicate FrameDecides(hal: Hal, address: uint8, cap: nat, b0: uint8, t: seq<Event>, s: nat, e: nat, status: Status) {
    && s < e <= |t| && t[s] == Rx(address, 0, 1)
    && var first := ReplyAt(hal, t, s);
       var declared := DeclaredLength(first, b0);
       && (first.status != Success ==> e == s + 1 && status == first.status)
       && (first.status == Success && declared > cap ==> e == s + 1 && status == SmallBuffer)
       && (first.status == Success && declared <= cap && declared < 4 ==> e == s + 1 && status == RxFail)
       && (first.status == Success && 4 <= declared <= cap ==>
             && e == s + 2 && t[s + 1] == Rx(address, 1, declared - 1)
             && status == ReplyAt(hal, t, s + 1).status)
  }

  /** The calls `t[s..e]` are what a receive does once selected: for a
      non-CA2 device the word address, whose failure is the result, and
      then the framed read; for a CA2 device the framed read alone. */
  predicate SelectedDecides(cfg: Config, hal: Hal, dev: Device, address: uint8, cap: nat, b0: uint8,
                            t: seq<Event>, s: nat, e: nat, status: Status) {
    if cfg.IsCa2(dev.devType) then
      FrameDecides(hal, address, cap, b0, t, s, e, status)
    else
      && s < e <= |t| && t[s] == Tx(address, [WordAddress(cfg, dev)])
      && (ReplyAt(hal, t, s).status != Success ==> e == s + 1 && status == ReplyAt(hal, t, s).status)
      && (ReplyAt(hal, t, s).status == Success ==> FrameDecides(hal, address, cap, b0, t, s + 1, e, status))
  }

  /** The last two calls before `e` are the two reads of a frame, and `buf`
      and `length` hold what they delivered: the length byte first, then
      the bytes of the second read, and `length` counts both. */
  predicate FrameContent(hal: Hal, address: uint8, t: seq<Event>, e: nat, buf: seq<uint8>, length: nat)
    requires 2 <= e <= |t|
  {
    && |buf| >= 1 && 4 <= buf[0] as nat
    && t[e - 2] == Rx(address, 0, 1)
    && t[e - 1] == Rx(address, 1, buf[0] as nat - 1)
    && (|ReplyAt(hal, t, e - 2).bytes| >= 1 ==> buf[0] == ReplyAt(hal, t, e - 2).bytes[0])
    && length == Delivered(ReplyAt(hal, t, e - 1).bytes, buf[0] as nat - 1) + 1
    && length <= |buf|
    && forall i :: 1 <= i < length ==> buf[i] == ReplyAt(hal, t, e - 1).bytes[i - 1]
  }

  /** The calls `t[s..e]` are one bus receive: a select and a deselect
      around them, nothing inside when the select was refused (whose status
      is then the result), and otherwise the selected part. */
  predicate BusStatus(cfg: Config, hal: Hal, dev: Device, address: uint8, cap: nat, b0: uint8,
                      t: seq<Event>, s: nat, e: nat, status: Status)
    requires s + 2 <= e <= |t|
  {
    && Bracketed(t[s..e])
    && (!SelectAccepted(ReplyAt(hal, t, s).status) ==> e == s + 2 && status == ReplyAt(hal, t, s).status)
    && (SelectAccepted(ReplyAt(hal, t, s).status) ==>
          SelectedDecides(cfg, hal, dev, address, cap, b0, t, s + 1, e - 1, status))
  }

  /** The calls `t[s..e]` are one receive from `address` into a buffer of
      capacity `cap` whose first byte was `b0`, and `status` is what the
      HAL's replies make of it. */
  predicate ReceiveStatus(cfg: Config, hal: Hal, dev: Device, address: uint8, cap: nat, b0: uint8,
                          t: seq<Event>, s: nat, e: nat, status: Status)
    requires s <= e <= |t|
  {
    if cfg.PassThrough(dev) then
      e == s + 1 && t[s] == Rx(0, 0, cap) && status == ReplyAt(hal, t, s).status
    else
      s + 2 <= e && BusStatus(cfg, hal, dev, address, cap, b0, t, s, e, status)
  }

  /** `t` and `u` hold the same calls, answered alike, before position `e`. */
  predicate SamePrefix(hal: Hal, t: seq<Event>, u: seq<Event>, e: nat) {
    && e <= |t| && e <= |u|
    && forall k :: 0 <= k < e ==> u[k] == t[k] && ReplyAt(hal, u, k) == ReplyAt(hal, t, k)
  }

  /** A trace and any extension of it agree on every call of the trace. */
  lemma PrefixAgrees(hal: Hal, t: seq<Event>, u: seq<Event>, e: nat)
    requires e <= |t| <= |u| && u[..|t|] == t
    ensures SamePrefix(hal, t, u, e)
  {
    forall k | 0 <= k < e
      ensures u[k] == t[k] && ReplyAt(hal, u, k) == ReplyAt(hal, t, k)
    {
      ReplyAtExtends(hal, t, u, k);
      assert u[k] == u[..|t|][k];
    }
  }

  lemma FrameDecidesSame(hal: Hal, address: uint8, cap: nat, b0: uint8, t: seq<Event>, u: seq<Event>,
                         s: nat, e: nat, status: Status)
    requires SamePrefix(hal, t, u, e)
    requires FrameDecides(hal, address, cap, b0, t, s, e, status)
    ensures FrameDecides(hal, address, cap, b0, u, s, e, status)
  {
    assert u[s] == t[s] && ReplyAt(hal, u, s) == ReplyAt(hal, t, s);
    if e == s + 2 {
      assert u[s + 1] == t[s + 1] && ReplyAt(hal, u, s + 1) == ReplyAt(hal, t, s + 1);
    }
  }

  lemma SelectedDecidesSame(cfg: Config, hal: Hal, dev: Device, address: uint8, cap: nat, b0: uint8,
                            t: seq<Event>, u: seq<Event>, s: nat, e: nat, status: Status)
    requires SamePrefix(hal, t, u, e)
    requires SelectedDecides(cfg, hal, dev, address, cap, b0, t, s, e, status)
    ensures SelectedDecides(cfg, hal, dev, address, cap, b0, u, s, e, status)
  {
    if cfg.IsCa2(dev.devType) {
      FrameDecidesSame(hal, address, cap, b0, t, u, s, e, status);
    } else {
      assert u[s] == t[s] && ReplyAt(hal, u, s) == ReplyAt(hal, t, s);
      if ReplyAt(hal, t, s).status == Success {
        FrameDecidesSame(hal, address, cap, b0, t, u, s + 1, e, status);
      }
    }
  }

  lemma BusStatusSame(cfg: Config, hal: Hal, dev: Device, address: uint8, cap: nat, b0: uint8,
                      t: seq<Event>, u: seq<Event>, s: nat, e: nat, status: Status)
    requires s + 2 <= e && SamePrefix(hal, t, u, e)
    requires BusStatus(cfg, hal, dev, address, cap, b0, t, s, e, status)
    ensures BusStatus(cfg, hal, dev, address, cap, b0, u, s, e, status)
  {
    assert u[s..e] == t[s..e];
    assert ReplyAt(hal, u, s) == ReplyAt(hal, t, s);
    if SelectAccepted(ReplyAt(hal, t, s).status) {
      SelectedDecidesSame(cfg, hal, dev, address, cap, b0, t, u, s + 1, e - 1, status);
    }
  }

  /** Calls appended later do not change what a receive's calls decided. */
  lemma ReceiveStatusExtends(cfg: Config, hal: Hal, dev: Device, address: uint8, cap: nat, b0: uint8,
                             t: seq<Event>, u: seq<Event>, s: nat, e: nat, status: Status)
    requires s <= e <= |t| <= |u| && u[..|t|] == t
    requires ReceiveStatus(cfg, hal, dev, address, cap, b0, t, s, e, status)
    ensures ReceiveStatus(cfg, hal, dev, address, cap, b0, u, s, e, status)
  {
    PrefixAgrees(hal, t, u, e);
    if cfg.PassThrough(dev) {
      assert u[s] == t[s] && ReplyAt(hal, u, s) == ReplyAt(hal, t, s);
    } else {
      BusStatusSame(cfg, hal, dev, address, cap, b0, t, u, s, e, status);
    }
  }

  /** A successful receive made of the calls `t[s..e]` left in `buf` and
      `length` exactly what the HAL delivered. */
  predicate ReceiveContent(cfg: Config, hal: Hal, dev: Device, address: uint8, cap: nat,
                           t: seq<Event>, s: nat, e: nat, buf: seq<uint8>, length: nat)
    requires s <= e <= |t|
  {
    if cfg.PassThrough(dev) then
      && e == s + 1
      && length == Delivered(ReplyAt(hal, t, s).bytes, cap)
      && length <= |buf|
      && forall i :: 0 <= i < length ==> buf[i] == ReplyAt(hal, t, s).bytes[i]
    else
      s + 3 <= e && FrameContent(hal, address, t, e - 1, buf, length)
  }

  /** What the framed read of the bus path (calib_execution.c:405-441)
      promises: one length byte, the capacity check, the minimum-size check,
      then the remaining `length - 1` bytes right after the length byte.
      `length` stays `cap` unless the read succeeds. */
  predicate Framed(hal: Hal, address: uint8, buf: seq<uint8>, cap: nat, trace: seq<Event>, r: RecvRun)
    requires 1 <= |buf|
  {
    && |r.buf| == |buf|
    && |r.trace| >= |trace| && r.trace[..|trace|] == trace
    && (forall i :: Max1(cap) <= i < |buf| ==> r.buf[i] == buf[i])
    && ReadsWithin(r.trace[|trace|..], Max1(cap))
    && |r.trace| > |trace| && r.trace[|trace|] == Rx(address, 0, 1)
    && (forall i :: |trace| <= i < |r.trace| ==> r.trace[i].Rx?)
    && (var first := hal(trace, Rx(address, 0, 1));
        var declared := DeclaredLength(first, buf[0]);
        && (first.status != Success ==> r.status == first.status && |r.trace| == |trace| + 1)
        && (first.status == Success && declared > cap ==> r.status == SmallBuffer && |r.trace| == |trace| + 1)
        && (first.status == Success && declared <= cap && declared < 4 ==> r.status == RxFail && |r.trace| == |trace| + 1)
        && (first.status == Success && 4 <= declared <= cap ==>
              && r.trace == trace + [Rx(address, 0, 1), Rx(address, 1, declared - 1)]
              && r.status == hal(trace + [Rx(address, 0, 1)], Rx(address, 1, declared - 1)).status))
    && (r.status != Success ==> r.length == cap)
    && (r.status == Success ==> 4 <= r.buf[0] as nat <= cap)
    && FrameDecides(hal, address, cap, buf[0], r.trace, |trace|, |r.trace|, r.status)
    && (r.status == Success ==>
          && |r.trace| == |trace| + 2
          && FrameContent(hal, address, r.trace, |r.trace|, r.buf, r.length)
          && r.buf[0] as nat == DeclaredLength(hal(trace, Rx(address, 0, 1)), buf[0])
          && forall i :: r.length <= i < |buf| ==> r.buf[i] == buf[i])
  }

  /** The framed read of the bus path. */
  method ReadFrame(hal: Hal, address: uint8, buf: seq<uint8>, cap: nat, trace: seq<Event>) returns (r: RecvRun)
    requires 1 <= |buf| && cap <= |buf|
    ensures Framed(hal, address, buf, cap, trace, r) == true
  {
    var e1 := Rx(address, 0, 1);
    var first := hal(trace, e1);
    var t1 := trace + [e1];
    var b1 := Store(buf, 0, first.bytes, 1);
    if first.status != Success || DeclaredLength(first, buf[0]) > cap || DeclaredLength(first, buf[0]) < 4 {
      var status := if first.status != Success then first.status
                    else if DeclaredLength(first, buf[0]) > cap then SmallBuffer else RxFail;
      r := RecvRun(status, b1, cap, t1);
      FrameStopped(hal, address, buf, cap, trace, r);
      return;
    }
    var declared := b1[0] as nat;
    var e2 := Rx(address, 1, declared - 1);
    var second := hal(t1, e2);
    var b2 := Store(b1, 1, second.bytes, declared - 1);
    r := RecvRun(second.status, b2, cap, t1 + [e2]);
    if second.status == Success {
      r := r.(length := Delivered(second.bytes, declared - 1) + 1);
    }
    FrameRead(hal, address, buf, cap, trace, b1, r);
  }

  /** A framed read that stops after the length byte (calib_execution.c:405-427):
      the length read failed, or the declared length is above the capacity
      or below the four-byte minimum. */
  lemma FrameStopped(hal: Hal, address: uint8, buf: seq<uint8>, cap: nat, trace: seq<Event>, r: RecvRun)
    requires 1 <= |buf| && cap <= |buf|
    requires
      var first := hal(trace, Rx(address, 0, 1));
      var declared := DeclaredLength(first, buf[0]);
      && (first.status != Success || declared > cap || declared < 4)
      && r.status == (if first.status != Success then first.status
                      else if declared > cap then SmallBuffer else RxFail)
    requires r == RecvRun(r.status, Store(buf, 0, hal(trace, Rx(address, 0, 1)).bytes, 1), cap, trace + [Rx(address, 0, 1)])
    ensures Framed(hal, address, buf, cap, trace, r)
  {
    assert r.trace[..|trace|] == trace;
  }

  /** A framed read that reaches the second read (calib_execution.c:429-441). */
  lemma FrameRead(hal: Hal, address: uint8, buf: seq<uint8>, cap: nat, trace: seq<Event>, b1: seq<uint8>, r: RecvRun)
    requires 1 <= |buf| && cap <= |buf|
    requires b1 == Store(buf, 0, hal(trace, Rx(address, 0, 1)).bytes, 1)
    requires hal(trace, Rx(address, 0, 1)).status == Success
    requires 4 <= DeclaredLength(hal(trace, Rx(address, 0, 1)), buf[0]) <= cap
    requires
      var second := hal(trace + [Rx(address, 0, 1)], Rx(address, 1, b1[0] as nat - 1));
      && r.trace == trace + [Rx(address, 0, 1)] + [Rx(address, 1, b1[0] as nat - 1)]
      && r.buf == Store(b1, 1, second.bytes, b1[0] as nat - 1)
      && r.status == second.status
      && r.length == (if second.status == Success then Delivered(second.bytes, b1[0] as nat - 1) + 1 else cap)
    ensures Framed(hal, address, buf, cap, trace, r)
  {
    assert b1[0] as nat == DeclaredLength(hal(trace, Rx(address, 0, 1)), buf[0]);
    assert r.buf[0] == b1[0];
    assert r.trace[..|trace|] == trace;
    assert r.trace[..|trace| + 1] == trace + [Rx(address, 0, 1)];
    FrameFilled(hal, address, trace, b1, r);
  }

  /** The second read of the framed read (calib_execution.c:429-441):
      it asks for the declared length less one byte right after the length
      byte, and the frame holds the length byte and what that read delivered. */
  lemma FrameFilled(hal: Hal, address: uint8, trace: seq<Event>, b1: seq<uint8>, r: RecvRun)
    requires |b1| >= 1 && 4 <= b1[0] as nat <= |b1|
    requires |hal(trace, Rx(address, 0, 1)).bytes| >= 1 ==> b1[0] == hal(trace, Rx(address, 0, 1)).bytes[0]
    requires r.trace == trace + [Rx(address, 0, 1)] + [Rx(address, 1, b1[0] as nat - 1)]
    requires r.buf == Store(b1, 1, hal(trace + [Rx(address, 0, 1)], Rx(address, 1, b1[0] as nat - 1)).bytes, b1[0] as nat - 1)
    requires r.status == Success ==>
      r.length == Delivered(hal(trace + [Rx(address, 0, 1)], Rx(address, 1, b1[0] as nat - 1)).bytes, b1[0] as nat - 1) + 1
    ensures r.status == Success ==> FrameContent(hal, address, r.trace, |r.trace|, r.buf, r.length)
  {
    var t := r.trace;
    assert t[..|trace|] == trace;
    assert t[..|trace| + 1] == trace + [Rx(address, 0, 1)];
  }

  /** A device holding `frame` that answers every read at offset `o` with
      the frame's bytes from `o` on, and every other call with success. */
  function FrameSource(frame: seq<uint8>): Hal {
    (t: seq<Event>, e: Event) =>
      if e.Rx? && e.offset <= |frame| then Reply(Success, frame[e.offset..]) else Reply(Success, [])
  }

  /** The framed read recovers a well-formed frame that fits the capacity:
      the buffer starts with the frame, the length is the frame's, and the
      rest of the buffer is untouched. */
  method ReadFrameRoundTrip(frame: seq<uint8>, address: uint8, buf: seq<uint8>, cap: nat, trace: seq<Event>)
    returns (r: RecvRun)
    requires |frame| >= 4 && frame[0] as nat == |frame|
    requires |frame| <= cap <= |buf|
    ensures r.status == Success
    ensures r.length == |frame| && |r.buf| == |buf|
    ensures r.buf[..|frame|] == frame
    ensures r.buf[|frame|..] == buf[|frame|..]
    ensures r.trace == trace + [Rx(address, 0, 1), Rx(address, 1, |frame| - 1)]
  {
    r := ReadFrame(FrameSource(frame), address, buf, cap, trace);
    var second := FrameSource(frame)(trace + [Rx(address, 0, 1)], Rx(address, 1, |frame| - 1));
    assert second.bytes == frame[1..];
    assert forall i :: 1 <= i < |frame| ==> r.buf[i] == frame[i];
  }

  /** The word-address byte sent before a bus read. */
  function WordAddress(cfg: Config, dev: Device): uint8 {
    if dev.iface.ifaceType == SwiIface then cfg.swiFlagTx else 0
  }

  /** The bus path of a receive, between select and deselect: the word
      address (not for CA2 devices), then the framed read. */
  method SelectedReceive(cfg: Config, hal: Hal, dev: Device, address: uint8,
                         buf: seq<uint8>, cap: nat, trace: seq<Event>) returns (r: RecvRun)
    requires 1 <= |buf| && cap <= |buf|
    ensures |r.buf| == |buf|
    ensures |r.trace| > |trace| && r.trace[..|trace|] == trace
    ensures forall i :: Max1(cap) <= i < |buf| ==> r.buf[i] == buf[i]
    ensures ReadsWithin(r.trace[|trace|..], Max1(cap))
    ensures
      var tx := Tx(address, [WordAddress(cfg, dev)]);
      && (!cfg.IsCa2(dev.devType) ==> r.trace[|trace|] == tx)
      && (!cfg.IsCa2(dev.devType) && hal(trace, tx).status != Success ==>
            r.status == hal(trace, tx).status && r.trace == trace + [tx])
      && (cfg.IsCa2(dev.devType) ==> r.trace[|trace|] == Rx(address, 0, 1))
      && forall i :: |trace| < i < |r.trace| ==> r.trace[i].Rx?
    ensures r.status != Success ==> r.length == cap
    ensures r.status == Success ==>
      && 4 <= r.buf[0] as nat <= cap
      && 1 <= r.length <= r.buf[0] as nat
      && forall i :: r.length <= i < |buf| ==> r.buf[i] == buf[i]
    ensures SelectedDecides(cfg, hal, dev, address, cap, buf[0], r.trace, |trace|, |r.trace|, r.status)
    ensures r.status == Success ==>
      |r.trace| >= |trace| + 2 && FrameContent(hal, address, r.trace, |r.trace|, r.buf, r.length)
  {
    if cfg.IsCa2(dev.devType) {
      r := ReadFrame(hal, address, buf, cap, trace);
    } else {
      var tx := Tx(address, [WordAddress(cfg, dev)]);
      var t1 := trace + [tx];
      assert t1[..|trace|] == trace;
      var s := hal(trace, tx).status;
      if s != Success {
        r := RecvRun(s, buf, cap, t1);
      } else {
        r := ReadFrame(hal, address, buf, cap, t1);
        assert r.trace[..|trace|] == r.trace[..|t1|][..|trace|];
        assert r.trace[|trace|] == r.trace[..|t1|][|trace|];
      }
    }
  }

  /** A select, then transfers only, then a deselect, is one bracket. */
  lemma TransfersBracketed(inner: seq<Event>, bound: nat)
    requires forall i :: 0 <= i < |inner| ==> inner[i].Tx? || inner[i].Rx?
    requires ReadsWithin(inner, bound)
    ensures Bracketed([Select] + inner + [Deselect])
    ensures ReadsWithin([Select] + inner + [Deselect], bound)
  {
    var t := [Select] + inner + [Deselect];
    assert forall i :: 0 < i < |t| - 1 ==> t[i] == inner[i - 1];
  }

  /** A call a receive from `address` may make: a select, a deselect, a
      read, or, off the pass-through paths, the word-address send. */
  predicate ReceiveCall(cfg: Config, dev: Device, address: uint8, e: Event) {
    || e.Select? || e.Deselect? || e.Rx?
    || (!cfg.PassThrough(dev) && e == Tx(address, [WordAddress(cfg, dev)]))
  }

  /** A call on the bus that is neither a select nor a deselect. */
  predicate Transfer(e: Event) {
    e.Tx? || e.Rx?
  }

  /** The bus path of a receive: select, the selected part if the select was
      accepted, and a deselect whatever happened. The whole of it is one
      select/deselect bracket; the only send inside it is the word address,
      right after an accepted select and only to a non-CA2 device; and no
      read inside it reaches past the capacity. */
  method BusReceive(cfg: Config, hal: Hal, dev: Device, address: uint8,
                    buf: seq<uint8>, cap: nat, trace: seq<Event>) returns (r: RecvRun)
    requires 1 <= |buf| && cap <= |buf|
    ensures |r.trace| >= |trace| + 2 && r.trace[..|trace|] == trace
    ensures
      var added := r.trace[|trace|..];
      && Bracketed(added)
      && ReadsWithin(added, Max1(cap))
      && forall i :: 0 < i < |added| - 1 ==> Transfer(added[i])
    ensures
      var added := r.trace[|trace|..];
      var sel := hal(trace, Select).status;
      && (!SelectAccepted(sel) ==> added == [Select, Deselect] && r.status == sel)
      && (SelectAccepted(sel) && !cfg.IsCa2(dev.devType) ==> added[1] == Tx(address, [WordAddress(cfg, dev)]))
      && (SelectAccepted(sel) && cfg.IsCa2(dev.devType) ==> added[1] == Rx(address, 0, 1))
      && (SelectAccepted(sel) ==> forall i :: 1 < i < |added| ==> !added[i].Tx?)
    ensures |r.buf| == |buf|
    ensures forall i :: Max1(cap) <= i < |buf| ==> r.buf[i] == buf[i]
    ensures r.status != Success ==> r.length == cap
    ensures r.status == Success ==>
      && 4 <= r.buf[0] as nat <= cap
      && 1 <= r.length <= r.buf[0] as nat
      && forall i :: r.length <= i < |buf| ==> r.buf[i] == buf[i]
    ensures BusStatus(cfg, hal, dev, address, cap, buf[0], r.trace, |trace|, |r.trace|, r.status)
    ensures r.status == Success ==>
      |r.trace| >= |trace| + 4 && FrameContent(hal, address, r.trace, |r.trace| - 1, r.buf, r.length)
  {
    var sel := hal(trace, Select).status;
    if !SelectAccepted(sel) {
      r := RecvRun(sel, buf, cap, trace + [Select, Deselect]);
      TransfersBracketed([], Max1(cap));
      assert r.trace[|trace|..] == [Select] + [] + [Deselect];
      assert r.trace[..|trace|] == trace;
    } else {
      r := AcceptedReceive(cfg, hal, dev, address, buf, cap, trace);
    }
  }

  /** BusReceive once the select was accepted. */
  method AcceptedReceive(cfg: Config, hal: Hal, dev: Device, address: uint8,
                         buf: seq<uint8>, cap: nat, trace: seq<Event>) returns (r: RecvRun)
    requires 1 <= |buf| && cap <= |buf|
    requires SelectAccepted(hal(trace, Select).status)
    ensures |r.trace| >= |trace| + 2 && r.trace[..|trace|] == trace
    ensures
      var added := r.trace[|trace|..];
      && Bracketed(added)
      && ReadsWithin(added, Max1(cap))
      && forall i :: 0 < i < |added| - 1 ==> Transfer(added[i])
    ensures
      var added := r.trace[|trace|..];
      && (!cfg.IsCa2(dev.devType) ==> added[1] == Tx(address, [WordAddress(cfg, dev)]))
      && (cfg.IsCa2(dev.devType) ==> added[1] == Rx(address, 0, 1))
      && (forall i :: 1 < i < |added| ==> !added[i].Tx?)
    ensures |r.buf| == |buf|
    ensures forall i :: Max1(cap) <= i < |buf| ==> r.buf[i] == buf[i]
    ensures r.status != Success ==> r.length == cap
    ensures r.status == Success ==>
      && 4 <= r.buf[0] as nat <= cap
      && 1 <= r.length <= r.buf[0] as nat
      && forall i :: r.length <= i < |buf| ==> r.buf[i] == buf[i]
    ensures BusStatus(cfg, hal, dev, address, cap, buf[0], r.trace, |trace|, |r.trace|, r.status)
    ensures r.status == Success ==>
      |r.trace| >= |trace| + 4 && FrameContent(hal, address, r.trace, |r.trace| - 1, r.buf, r.length)
  {
    var t1 := trace + [Select];
    var inner := SelectedReceive(cfg, hal, dev, address, buf, cap, t1);
    r := RecvRun(inner.status, inner.buf, inner.length, inner.trace + [Deselect]);
    AcceptedShape(cfg, dev, address, cap, trace, t1, inner.trace, r.trace);
    CloseBracket(cfg, hal, dev, address, cap, buf[0], trace, inner, r);
  }

  /** The calls of an accepted selection: the select, the selected part's
      transfers, and the deselect that closes them. */
  lemma AcceptedShape(cfg: Config, dev: Device, address: uint8, cap: nat,
                      trace: seq<Event>, t1: seq<Event>, inner: seq<Event>, u: seq<Event>)
    requires t1 == trace + [Select]
    requires |inner| > |t1| && inner[..|t1|] == t1
    requires ReadsWithin(inner[|t1|..], Max1(cap))
    requires !cfg.IsCa2(dev.devType) ==> inner[|t1|] == Tx(address, [WordAddress(cfg, dev)])
    requires cfg.IsCa2(dev.devType) ==> inner[|t1|] == Rx(address, 0, 1)
    requires forall i :: |t1| < i < |inner| ==> inner[i].Rx?
    requires u == inner + [Deselect]
    ensures |u| >= |trace| + 2 && u[..|trace|] == trace
    ensures
      var added := u[|trace|..];
      && Bracketed(added)
      && ReadsWithin(added, Max1(cap))
      && forall i :: 0 < i < |added| - 1 ==> Transfer(added[i])
    ensures
      var added := u[|trace|..];
      && (!cfg.IsCa2(dev.devType) ==> added[1] == Tx(address, [WordAddress(cfg, dev)]))
      && (cfg.IsCa2(dev.devType) ==> added[1] == Rx(address, 0, 1))
      && (forall i :: 1 < i < |added| ==> !added[i].Tx?)
  {
    assert t1[..|trace|] == trace;
    var innerAdded := inner[|t1|..];
    assert forall i :: 0 <= i < |innerAdded| ==> innerAdded[i] == inner[|t1| + i];
    TransfersBracketed(innerAdded, Max1(cap));
    assert u[|trace|..] == [Select] + innerAdded + [Deselect];
  }

  /** Closing an accepted selection with a deselect keeps what the HAL's
      replies inside it decided. */
  lemma CloseBracket(cfg: Config, hal: Hal, dev: Device, address: uint8, cap: nat, b0: uint8,
                      trace: seq<Event>, inner: RecvRun, r: RecvRun)
    requires |inner.trace| > |trace| + 1 && inner.trace[..|trace| + 1] == trace + [Select]
    requires SelectAccepted(hal(trace, Select).status)
    requires Bracketed((inner.trace + [Deselect])[|trace|..])
    requires SelectedDecides(cfg, hal, dev, address, cap, b0, inner.trace, |trace| + 1, |inner.trace|, inner.status)
    requires inner.status == Success ==>
      |inner.trace| >= |trace| + 3 && FrameContent(hal, address, inner.trace, |inner.trace|, inner.buf, inner.length)
    requires r == RecvRun(inner.status, inner.buf, inner.length, inner.trace + [Deselect])
    ensures BusStatus(cfg, hal, dev, address, cap, b0, r.trace, |trace|, |r.trace|, r.status)
    ensures r.status == Success ==>
      |r.trace| >= |trace| + 4 && FrameContent(hal, address, r.trace, |r.trace| - 1, r.buf, r.length)
  {
    var u := r.trace;
    assert u[..|inner.trace|] == inner.trace;
    assert u[|trace|..|u|] == u[|trace|..];
    forall k | 0 <= k < |inner.trace|
      ensures ReplyAt(hal, u, k) == ReplyAt(hal, inner.trace, k)
      ensures u[k] == inner.trace[k]
    {
      ReplyAtExtends(hal, inner.trace, u, k);
    }
    assert ReplyAt(hal, inner.trace, |trace|) == hal(trace, Select) by {
      assert inner.trace[..|trace|] == inner.trace[..|trace| + 1][..|trace|];
      assert inner.trace[|trace|] == inner.trace[..|trace| + 1][|trace|];
    }
  }

  /** calib_execute_receive. `None` stands for a null buffer or a null length
      pointer; `rxlength` is the buffer's capacity on entry. */
  method ExecuteReceive(cfg: Config, hal: Hal, dev: Device, address: uint8,
                        rxdata: Option<seq<uint8>>, rxlength: Option<nat>, trace: seq<Event>) returns (r: RecvRun)
    requires rxdata.Some? && rxlength.Some? ==> 1 <= |rxdata.value| && rxlength.value <= |rxdata.value|
    ensures |r.trace| >= |trace| && r.trace[..|trace|] == trace
    ensures rxdata.None? || rxlength.None? ==> r.status == BadParam && r.trace == trace
    ensures rxdata.Some? && rxlength.Some? ==>
      var buf := rxdata.value;
      var cap := rxlength.value;
      var added := r.trace[|trace|..];
      && |r.buf| == |buf|
      && (forall i :: Max1(cap) <= i < |buf| ==> r.buf[i] == buf[i])
      && ReadsWithin(added, Max1(cap))
      && (r.status == Success ==> r.length <= cap && forall i :: r.length <= i < |buf| ==> r.buf[i] == buf[i])
      && (cfg.PassThrough(dev) ==>
            var reply := hal(trace, Rx(0, 0, cap));
            && added == [Rx(0, 0, cap)]
            && r.status == reply.status
            && r.length == Delivered(reply.bytes, cap)
            && forall i :: 0 <= i < r.length ==> r.buf[i] == reply.bytes[i])
      && (!cfg.PassThrough(dev) ==> Bracketed(added) && forall i :: 0 < i < |added| - 1 ==> Transfer(added[i]))
    ensures rxdata.Some? && rxlength.Some? ==>
      ReceiveStatus(cfg, hal, dev, address, rxlength.value, rxdata.value[0], r.trace, |trace|, |r.trace|, r.status)
    ensures rxdata.Some? && rxlength.Some? ==>
      forall i :: |trace| <= i < |r.trace| ==> ReceiveCall(cfg, dev, address, r.trace[i])
    ensures rxdata.Some? && rxlength.Some? && !cfg.PassThrough(dev) && r.status != Success ==>
      r.length == rxlength.value
    ensures rxdata.Some? && rxlength.Some? && r.status == Success ==>
      ReceiveContent(cfg, hal, dev, address, rxlength.value, r.trace, |trace|, |r.trace|, r.buf, r.length)
  {
    if rxdata.None? || rxlength.None? {
      return RecvRun(BadParam, [], 0, trace);
    }
    var buf := rxdata.value;
    var cap := rxlength.value;
    if cfg.PassThrough(dev) {
      var rx := Rx(0, 0, cap);
      var reply := hal(trace, rx);
      r := RecvRun(reply.status, Store(buf, 0, reply.bytes, cap), Delivered(reply.bytes, cap), trace + [rx]);
      assert r.trace[|trace|..] == [rx];
      assert r.trace[..|trace|] == trace;
    } else {
      r := BusReceive(cfg, hal, dev, address, buf, cap, trace);
      BusCalls(cfg, hal, dev, address, trace, r.trace);
    }
  }

  /** Every call of a bus receive is one a receive may make. */
  lemma BusCalls(cfg: Config, hal: Hal, dev: Device, address: uint8, trace: seq<Event>, t: seq<Event>)
    requires !cfg.PassThrough(dev)
    requires |t| >= |trace| + 2
    requires
      var added := t[|trace|..];
      && Bracketed(added)
      && forall i :: 0 < i < |added| - 1 ==> Transfer(added[i])
    requires
      var added := t[|trace|..];
      var sel := hal(trace, Select).status;
      && (!SelectAccepted(sel) ==> added == [Select, Deselect])
      && (SelectAccepted(sel) && !cfg.IsCa2(dev.devType) ==> added[1] == Tx(address, [WordAddress(cfg, dev)]))
      && (SelectAccepted(sel) && cfg.IsCa2(dev.devType) ==> added[1] == Rx(address, 0, 1))
      && (SelectAccepted(sel) ==> forall i :: 1 < i < |added| ==> !added[i].Tx?)
    ensures forall i :: |trace| <= i < |t| ==> ReceiveCall(cfg, dev, address, t[i])
  {
    var added := t[|trace|..];
    forall i | |trace| <= i < |t|
      ensures ReceiveCall(cfg, dev, address, t[i])
    {
      var j := i - |trace|;
      assert t[i] == added[j];
    }
  }

  /** A bus device holding a well-formed frame that fits the capacity: the
      receive succeeds, the buffer starts with exactly that frame, the
      length is the frame's, and the rest of the buffer is untouched. */
  method ReceiveRoundTrip(cfg: Config, dev: Device, address: uint8, frame: seq<uint8>,
                          buf: seq<uint8>, cap: nat, trace: seq<Event>) returns (r: RecvRun)
    requires !cfg.PassThrough(dev)
    requires |frame| >= 4 && frame[0] as nat == |frame|
    requires |frame| <= cap <= |buf|
    ensures r.status == Success
    ensures r.length == |frame| && |r.buf| == |buf|
    ensures r.buf[..|frame|] == frame
    ensures r.buf[|frame|..] == buf[|frame|..]
  {
    var hal := FrameSource(frame);
    r := ExecuteReceive(cfg, hal, dev, address, Some(buf), Some(cap), trace);
    var s := |trace|;
    var e := |r.trace|;
    assert r.trace[s] == Select by {
      assert r.trace[s..e][0] == r.trace[s];
    }
    var f := if cfg.IsCa2(dev.devType) then s + 1 else s + 2;
    assert FrameDecides(hal, address, cap, buf[0], r.trace, f, e - 1, r.status);
    assert ReplyAt(hal, r.trace, f) == Reply(Success, frame);
    assert ReplyAt(hal, r.trace, f + 1) == Reply(Success, frame[1..]);
    assert forall i :: 1 <= i < |frame| ==> r.buf[i] == frame[1..][i - 1];
  }
}

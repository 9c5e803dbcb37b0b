/**
 * Shared vocabulary of the command-execution engine: status codes, device
 * and interface kinds, the device handle, the build configuration, and the
 * events a command leaves on the transport. Every numeric value that comes
 * from a library header outside this model is an abstract constant here.
 */
module AtcaTypes {

  newtype uint8 = x: int | 0 <= x < 0x100

  datatype Option<+T> = None | Some(value: T)

  /** ATCA_STATUS. `Other` stands for every code this model does not name
      (device-reported errors mapped by the status classifier, HAL codes). */
  datatype Status =
    | Success
    | CommFail
    | BadParam
    | BadOpcode
    | SmallBuffer
    | RxFail
    | RxNoResponse
    | RxCrcError
    | Unimplemented
    | ExecutionError
    | Other(code: nat)

  /** Status values a select control call may return and still let the transfer go ahead. */
  predicate SelectAccepted(s: Status) {
    s == Success || s == Unimplemented
  }

  datatype DeviceType =
    | ATSHA204A | ATSHA206A | ATECC108A | ATECC508A | ATECC608
    | TA100 | ECC204 | TA010 | SHA104 | SHA105 | DevUnknown

  datatype IfaceType =
    | I2cIface | SwiIface | UartIface | SpiIface | HidIface
    | KitIface | CustomIface | SwiGpioIface | UnknownIface

  /** Clock divider of an ATECC608: the three chip-mode values and anything else. */
  datatype ClockDivider = DivM0 | DivM1 | DivM2 | DivOther(raw: uint8)

  datatype DeviceState = StateUnknown | StateIdle | StateActive

  /** Command opcodes that appear in the execution-time tables; `Unlisted` is any other opcode byte. */
  datatype Opcode =
    | Aes | CheckMac | Counter | Delete | DeriveKey | Ecdh | GenDig | GenKey
    | Hmac | Info | Kdf | Lock | Mac | Nonce | Pause | PrivWrite | Random
    | Read | SecureBoot | SelfTest | Sha | Sign | UpdateExtra | Verify | Write
    | Unlisted(code: uint8)

  /** The cached `execution_time_msec` of a handle; `Unsupported` is the ATCA_UNSUPPORTED_CMD marker. */
  datatype ExecTime = Msec(ms: nat) | Unsupported

  /** Interface configuration as the executor sees it: its type, whether the
      HAL classifies it as a kit (pass-through) interface, and its retry count. */
  datatype Iface = Iface(ifaceType: IfaceType, isKit: bool, retries: int)

  /** The device handle. `address` is what the address getter returns for it. */
  datatype Device = Device(
    devType: DeviceType,
    iface: Iface,
    address: uint8,
    divider: ClockDivider,
    state: DeviceState,
    execTime: ExecTime)

  /** Build-time switches and constants of the driver, taken as parameters. */
  datatype Config = Config(
    noPoll: bool,              // ATCA_NO_POLL
    ca2Support: bool,          // ATCA_CA2_SUPPORT
    legacyHal: bool,           // ATCA_HAL_LEGACY_API
    pollingMaxMs: nat,         // ATCA_POLLING_MAX_TIME_MSEC
    pollingFreqMs: nat,        // ATCA_POLLING_FREQUENCY_TIME_MSEC
    pollInitialWaitMs: nat,    // the literal initial wait of polling mode (400)
    swiFlagCmd: uint8,         // CALIB_SWI_FLAG_CMD
    swiFlagTx: uint8,          // CALIB_SWI_FLAG_TX
    ca2Types: set<DeviceType>) // the device types the CA2 classifier accepts
  {
    /** A polling build divides by the polling interval, so it must not be zero. */
    predicate WellFormed() {
      noPoll || pollingFreqMs > 0
    }

    predicate IsCa2(t: DeviceType) {
      t in ca2Types
    }

    /** Whether a command on `dev` goes through the pass-through send and receive paths. */
    predicate PassThrough(dev: Device) {
      legacyHal || dev.iface.isKit
    }
  }

  /** One call the engine makes on its collaborators, in the order made. */
  datatype Event =
    | Wake
    | Idle
    | Delay(ms: nat)
    | Select
    | Deselect
    | Tx(address: uint8, bytes: seq<uint8>)
    | Rx(address: uint8, offset: nat, want: nat)

  /** What a collaborator answers: a status and, for a receive, the bytes it delivers. */
  datatype Reply = Reply(status: Status, bytes: seq<uint8>)

  /** The transport and power collaborators: the answer to a call may depend
      on every call made before it. */
  type Hal = (seq<Event>, Event) -> Reply

  /** All collaborators of the executor: the HAL, the CRC check and the
      classifier of the response's status byte. */
  datatype Oracle = Oracle(
    hal: Hal,
    checkCrc: seq<uint8> -> Status,
    isError: seq<uint8> -> Status)

  /** The reply the HAL gave to the call at position `i` of `t`: it saw
      every call before that one. */
  function ReplyAt(hal: Hal, t: seq<Event>, i: nat): Reply
    requires i < |t|
  {
    hal(t[..i], t[i])
  }

  /** Calls appended later do not change the replies to earlier ones. */
  lemma ReplyAtExtends(hal: Hal, t: seq<Event>, u: seq<Event>, i: nat)
    requires i < |t| <= |u| && u[..|t|] == t
    ensures ReplyAt(hal, u, i) == ReplyAt(hal, t, i)
  {
    assert u[..i] == u[..|t|][..i];
    assert u[i] == u[..|t|][i];
  }

  /** How many times the call `e` occurs in `t`. */
  function Count(t: seq<Event>, e: Event): nat
    decreases |t|
  {
    if t == [] then 0 else Count(t[..|t| - 1], e) + (if t[|t| - 1] == e then 1 else 0)
  }

  lemma CountSingle(x: Event, e: Event)
    ensures Count([x], e) == if x == e then 1 else 0
  {
    assert [x][..0] == [];
  }

  lemma {:induction false} CountAppend(a: seq<Event>, b: seq<Event>, e: Event)
    ensures Count(a + b, e) == Count(a, e) + Count(b, e)
    decreases |b|
  {
    if b == [] {
      assert a + b == a;
    } else {
      var b' := b[..|b| - 1];
      assert (a + b)[..|a + b| - 1] == a + b';
      CountAppend(a, b', e);
    }
  }

  /** A trace segment with no delay and no receive in it. */
  predicate Quiet(t: seq<Event>) {
    forall i :: 0 <= i < |t| ==> !t[i].Delay? && !t[i].Rx?
  }

  /** A select first, a deselect last, and neither in between. */
  predicate Bracketed(t: seq<Event>) {
    && |t| >= 2
    && t[0] == Select
    && t[|t| - 1] == Deselect
    && forall i :: 0 < i < |t| - 1 ==> t[i] != Select && t[i] != Deselect
  }

  function Zeros(n: nat): (r: seq<uint8>)
    ensures |r| == n
    ensures forall i :: 0 <= i < n ==> r[i] == 0
  {
    seq(n, _ => 0)
  }
}

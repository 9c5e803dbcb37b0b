/**
 * Per-device execution-time tables and the lookup that picks a table by
 * device type (and, for the ATECC608, by clock divider) and returns the time
 * of the first entry whose opcode matches.
 */
module ExecutionTimes {
  import opened AtcaTypes

  /** One (opcode, worst-case milliseconds) pair. */
  datatype Entry = Entry(opcode: Opcode, ms: nat)

  type Table = seq<Entry>

  // The tables below exist only in a fixed-delay build.

  const Sha204Times: Table := [
    Entry(CheckMac, 1138), Entry(DeriveKey, 1162), Entry(GenDig, 1143),
    Entry(Hmac, 1169), Entry(Info, 112), Entry(Lock, 11124), Entry(Mac, 1135),
    Entry(Nonce, 1160), Entry(Pause, 112), Entry(Random, 1150), Entry(Read, 115),
    Entry(Sha, 1122), Entry(UpdateExtra, 1112), Entry(Write, 1142)]

  const Sha206Times: Table := [
    Entry(DeriveKey, 1162), Entry(Info, 112), Entry(Mac, 1135),
    Entry(Read, 115), Entry(Write, 1142)]

  const Ecc108Times: Table := [
    Entry(CheckMac, 1113), Entry(Counter, 1120), Entry(DeriveKey, 1150),
    Entry(GenDig, 1111), Entry(GenKey, 1115), Entry(Hmac, 1123), Entry(Info, 112),
    Entry(Lock, 11132), Entry(Mac, 1114), Entry(Nonce, 1129), Entry(Pause, 113),
    Entry(PrivWrite, 1148), Entry(Random, 1123), Entry(Read, 115), Entry(Sha, 119),
    Entry(Sign, 1160), Entry(UpdateExtra, 1110), Entry(Verify, 1172), Entry(Write, 1126)]

  const Ecc508Times: Table := [
    Entry(CheckMac, 1113), Entry(Counter, 1120), Entry(DeriveKey, 1150),
    Entry(Ecdh, 1158), Entry(GenDig, 1111), Entry(GenKey, 11115), Entry(Hmac, 1123),
    Entry(Info, 112), Entry(Lock, 11132), Entry(Mac, 1114), Entry(Nonce, 1129),
    Entry(Pause, 113), Entry(PrivWrite, 1148), Entry(Random, 1123), Entry(Read, 115),
    Entry(Sha, 119), Entry(Sign, 1160), Entry(UpdateExtra, 1110), Entry(Verify, 1172),
    Entry(Write, 1126)]

  const Ecc608M0Times: Table := [
    Entry(Aes, 181), Entry(CheckMac, 1120), Entry(Counter, 175), Entry(DeriveKey, 1150),
    Entry(Ecdh, 1225), Entry(GenDig, 175), Entry(GenKey, 1345), Entry(Info, 115),
    Entry(Kdf, 1495), Entry(Lock, 11105), Entry(Mac, 1165), Entry(Nonce, 160),
    Entry(PrivWrite, 1150), Entry(Random, 169), Entry(Read, 115), Entry(SecureBoot, 1240),
    Entry(SelfTest, 1750), Entry(Sha, 1108), Entry(Sign, 1345), Entry(UpdateExtra, 130),
    Entry(Verify, 1310), Entry(Write, 1135)]

  const Ecc608M1Times: Table := [
    Entry(Aes, 181), Entry(CheckMac, 1120), Entry(Counter, 175), Entry(DeriveKey, 1150),
    Entry(Ecdh, 1516), Entry(GenDig, 1105), Entry(GenKey, 1645), Entry(Info, 115),
    Entry(Kdf, 1495), Entry(Lock, 11105), Entry(Mac, 1165), Entry(Nonce, 160),
    Entry(PrivWrite, 1150), Entry(Random, 169), Entry(Read, 115), Entry(SecureBoot, 1480),
    Entry(SelfTest, 11875), Entry(Sha, 1126), Entry(Sign, 1660), Entry(UpdateExtra, 130),
    Entry(Verify, 1885), Entry(Write, 1135)]

  const Ecc608M2Times: Table := [
    Entry(Aes, 181), Entry(CheckMac, 1120), Entry(Counter, 175), Entry(DeriveKey, 1150),
    Entry(Ecdh, 11593), Entry(GenDig, 1105), Entry(GenKey, 11959), Entry(Info, 115),
    Entry(Kdf, 1495), Entry(Lock, 11105), Entry(Mac, 1165), Entry(Nonce, 160),
    Entry(PrivWrite, 1150), Entry(Random, 169), Entry(Read, 115), Entry(SecureBoot, 11440),
    Entry(SelfTest, 12324), Entry(Sha, 1225), Entry(Sign, 11995), Entry(UpdateExtra, 130),
    Entry(Verify, 13255), Entry(Write, 1135)]

  // The two tables below exist in every build.

  const Ecc204Times: Table := [
    Entry(Counter, 1120), Entry(Delete, 11200), Entry(GenKey, 11500), Entry(Info, 1120),
    Entry(Lock, 11180), Entry(Nonce, 1120), Entry(Read, 1140), Entry(SelfTest, 11600),
    Entry(Sha, 1180), Entry(Sign, 11500), Entry(Write, 1180)]

  const Sha10xTimes: Table := [
    Entry(CheckMac, 11100), Entry(Counter, 1120), Entry(Delete, 11200), Entry(GenDig, 1170),
    Entry(Info, 1120), Entry(Lock, 11180), Entry(Mac, 11120), Entry(Nonce, 1120),
    Entry(Read, 1140), Entry(SelfTest, 11600), Entry(Sha, 1180), Entry(Write, 1180)]

  /** The table the lookup scans; an unknown device type gets the empty table. */
  function TableFor(t: DeviceType, div: ClockDivider, noPoll: bool): Table {
    match t
    case ATSHA204A => if noPoll then Sha204Times else []
    case ATSHA206A => if noPoll then Sha206Times else []
    case ATECC108A => if noPoll then Ecc108Times else []
    case ATECC508A => if noPoll then Ecc508Times else []
    case ATECC608 =>
      if !noPoll then []
      else if div == DivM1 then Ecc608M1Times
      else if div == DivM2 then Ecc608M2Times
      else Ecc608M0Times
    case TA010 => Ecc204Times
    case ECC204 => Ecc204Times
    case SHA104 => Sha10xTimes
    case SHA105 => Sha10xTimes
    case _ => []
  }

  predicate Lists(table: Table, op: Opcode) {
    exists i :: 0 <= i < |table| && table[i].opcode == op
  }

  /** `i` is the first position of `table` holding `op`. */
  predicate IsFirstMatch(table: Table, op: Opcode, i: int) {
    && 0 <= i < |table|
    && table[i].opcode == op
    && forall j :: 0 <= j < i ==> table[j].opcode != op
  }

  /** The linear scan from position `from` on, stopping at the first match. */
  function FindFrom(table: Table, op: Opcode, from: nat): (r: Option<nat>)
    requires from <= |table|
    requires forall j :: 0 <= j < from ==> table[j].opcode != op
    ensures r.Some? ==> IsFirstMatch(table, op, r.value)
    ensures r.None? ==> !Lists(table, op)
    decreases |table| - from
  {
    if from == |table| then None
    else if table[from].opcode == op then Some(from)
    else FindFrom(table, op, from + 1)
  }

  /** The result of a lookup: the status and the handle with its cached time updated. */
  datatype Lookup = Lookup(status: Status, device: Device)

  /** Looks `op` up in the table for `dev`. The handle's cached time is first
      reset to the unsupported marker and overwritten on a match. */
  function GetExecutionTime(op: Opcode, dev: Device, noPoll: bool): (r: Lookup)
    ensures r.device == dev.(execTime := r.device.execTime)
    ensures r.status == Success <==> Lists(TableFor(dev.devType, dev.divider, noPoll), op)
    ensures r.status != Success ==> r.status == BadOpcode && r.device.execTime == Unsupported
    ensures r.status == Success ==>
      var table := TableFor(dev.devType, dev.divider, noPoll);
      exists i :: IsFirstMatch(table, op, i) && r.device.execTime == Msec(table[i].ms)
  {
    var table := TableFor(dev.devType, dev.divider, noPoll);
    match FindFrom(table, op, 0)
    case Some(i) => Lookup(Success, dev.(execTime := Msec(table[i].ms)))
    case None => Lookup(BadOpcode, dev.(execTime := Unsupported))
  }

  /** Same status and same cached time from both lookups. */
  predicate SameLookup(a: Lookup, b: Lookup) {
    a.status == b.status && a.device.execTime == b.device.execTime
  }

  /** A table has at most one first position for an opcode. */
  lemma FirstMatchUnique(table: Table, op: Opcode, i: int, j: int)
    requires IsFirstMatch(table, op, i) && IsFirstMatch(table, op, j)
    ensures i == j
  {
  }

  /** In a fixed-delay build, an Info command on an ATSHA204A waits the 112 ms of the fifth row of its table. */
  lemma Sha204InfoTime(dev: Device)
    ensures GetExecutionTime(Info, dev.(devType := ATSHA204A), true).status == Success
    ensures GetExecutionTime(Info, dev.(devType := ATSHA204A), true).device.execTime == Msec(112)
    ensures IsFirstMatch(Sha204Times, Info, 4)
  {
  }

  /** TA010 and ECC204 share one table, whatever the build. */
  lemma Ecc204TableShared(op: Opcode, dev: Device, noPoll: bool, otherBuild: bool)
    ensures SameLookup(GetExecutionTime(op, dev.(devType := TA010), noPoll),
                       GetExecutionTime(op, dev.(devType := ECC204), otherBuild))
  {
  }

  /** SHA104 and SHA105 share one table, whatever the build. */
  lemma Sha10xTableShared(op: Opcode, dev: Device, noPoll: bool, otherBuild: bool)
    ensures SameLookup(GetExecutionTime(op, dev.(devType := SHA104), noPoll),
                       GetExecutionTime(op, dev.(devType := SHA105), otherBuild))
  {
  }

  /** An ATECC608 whose divider is neither M1 nor M2 is looked up as M0. */
  lemma Ecc608DefaultsToM0(op: Opcode, dev: Device, noPoll: bool)
    requires dev.divider != DivM1 && dev.divider != DivM2
    ensures SameLookup(GetExecutionTime(op, dev.(devType := ATECC608), noPoll),
                       GetExecutionTime(op, dev.(devType := ATECC608, divider := DivM0), noPoll))
  {
  }

  /** Only the CA2 tables exist in a polling build: any other device type
      fails every lookup there. */
  lemma PollingBuildLooksUpOnlyCa2Tables(op: Opcode, dev: Device)
    requires dev.devType != TA010 && dev.devType != ECC204
    requires dev.devType != SHA104 && dev.devType != SHA105
    ensures GetExecutionTime(op, dev, false) == Lookup(BadOpcode, dev.(execTime := Unsupported))
  {
  }

  /** The time an ATECC608 table gives `op`, or 0 when it lists none. */
  function TimeIn(table: Table, op: Opcode): nat {
    match FindFrom(table, op, 0)
    case Some(i) => table[i].ms
    case None => 0
  }

  /** From position `k` on, `slow` lists the opcodes of `fast` in the same
      order, each with a time at least as long. */
  predicate SlowerFrom(fast: Table, slow: Table, k: nat)
    decreases |fast| - k
  {
    && |fast| == |slow|
    && (k >= |fast| ||
        (fast[k].opcode == slow[k].opcode && fast[k].ms <= slow[k].ms && SlowerFrom(fast, slow, k + 1)))
  }

  lemma {:induction false} SlowerEverywhere(fast: Table, slow: Table, k: nat)
    requires SlowerFrom(fast, slow, k)
    ensures forall i :: k <= i < |fast| ==> fast[i].opcode == slow[i].opcode && fast[i].ms <= slow[i].ms
    decreases |fast| - k
  {
    if k < |fast| {
      SlowerEverywhere(fast, slow, k + 1);
    }
  }

  /** The M1 table is the M0 table with times at least as long, row by row,
      checked from the last row back to the first. */
  lemma Ecc608M1SlowerThanM0()
    ensures SlowerFrom(Ecc608M0Times, Ecc608M1Times, 0)
  {
    var k := |Ecc608M0Times|;
    while k > 0
      invariant 0 <= k <= |Ecc608M0Times| && SlowerFrom(Ecc608M0Times, Ecc608M1Times, k)
    {
      k := k - 1;
    }
  }

  /** The M2 table is the M1 table with times at least as long, row by row. */
  lemma Ecc608M2SlowerThanM1()
    ensures SlowerFrom(Ecc608M1Times, Ecc608M2Times, 0)
  {
    var k := |Ecc608M1Times|;
    while k > 0
      invariant 0 <= k <= |Ecc608M1Times| && SlowerFrom(Ecc608M1Times, Ecc608M2Times, k)
    {
      k := k - 1;
    }
  }

  /** If `slow` is `fast` with longer times, both scans stop at the same
      position and the slow table's time is at least the fast one's. */
  lemma SlowerLookup(fast: Table, slow: Table, op: Opcode)
    requires SlowerFrom(fast, slow, 0)
    ensures FindFrom(fast, op, 0) == FindFrom(slow, op, 0)
    ensures TimeIn(fast, op) <= TimeIn(slow, op)
  {
    SlowerEverywhere(fast, slow, 0);
    match FindFrom(fast, op, 0)
    case Some(i) =>
      assert IsFirstMatch(slow, op, i);
    case None =>
      assert !Lists(slow, op);
  }

  /** The three ATECC608 tables list the same opcodes, and the time never
      shrinks from M0 to M1 to M2: the M0 default is the fastest table. */
  lemma Ecc608DividerOrdering(op: Opcode)
    ensures FindFrom(Ecc608M0Times, op, 0).Some? <==> FindFrom(Ecc608M1Times, op, 0).Some?
    ensures FindFrom(Ecc608M1Times, op, 0).Some? <==> FindFrom(Ecc608M2Times, op, 0).Some?
    ensures TimeIn(Ecc608M0Times, op) <= TimeIn(Ecc608M1Times, op) <= TimeIn(Ecc608M2Times, op)
  {
    Ecc608M1SlowerThanM0();
    Ecc608M2SlowerThanM1();
    SlowerLookup(Ecc608M0Times, Ecc608M1Times, op);
    SlowerLookup(Ecc608M1Times, Ecc608M2Times, op);
  }
}

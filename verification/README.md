# CryptoAuthLib command execution, modelled in Dafny

This project models the command-execution engine of the CryptoAuthLib
secure-element driver: `calib_execution.c`. The engine has three parts.

- **Execution-time lookup** (`calib_get_execution_time`). It picks a constant
  table of opcode → worst-case milliseconds by device type. For the ATECC608
  it picks by clock divider. It then scans the table linearly for the first
  entry with the command's opcode. A miss leaves the handle's cached time at
  the unsupported marker and returns `ATCA_BAD_OPCODE`.
- **Transport adapter** (`calib_execute_send`, `calib_execute_receive`).
  - It checks the arguments first.
  - Kit and legacy-HAL interfaces use a pass-through path. A pass-through
    send goes to address `0xFF`. A pass-through receive is one read at word
    address 0 for the whole capacity.
  - Every other interface uses a select/deselect bracket, in which an
    `ATCA_UNIMPLEMENTED` select counts as accepted.
  - A bus receive uses length-prefixed framing. It reads one length byte,
    rejects a length above the capacity, then rejects a length below 4, and
    then reads the remaining bytes after the length byte.
- **Executor** (`calib_execute_command`). It plans the wait and the poll
  budget, then sends with retry, waking the device when it is not active and
  setting the reserved framing byte. It waits once, then receives with
  polling. It validates the response by size, CRC and device status. Last,
  it idles every non-CA2 device.

The HAL, wake, idle, delay, CRC check and status classifier are
collaborators whose code is not part of this model. They appear as one
oracle, `Oracle(hal, checkCrc, isError)`. The HAL is a function from the
history of calls and the current call to a reply, so it can script any
sequence of outcomes. Every call the engine makes is appended to a trace of
`Event`s. The properties below are statements about that trace, about the
returned status and handle, and about the caller's buffer.

Files and modules:

- `atca_types.dfy` (`AtcaTypes`): statuses, device and interface kinds, the
  device handle, the build configuration, events and the oracle.
- `execution_times.dfy` (`ExecutionTimes`): the nine tables, their
  selection, and the first-match scan.
- `transport.dfy` (`Transport`): send and receive.
- `executor.dfy` (`Executor`): timing plan, send with retry, receive with
  polling, validation, idle.

The transport's receive path and the executor are methods. The trace
facts about them are their postconditions, and callers rely only on those.

Compile-time switches become fields of `Config`:
- `ATCA_NO_POLL` → `noPoll`;
- `ATCA_CA2_SUPPORT` → `ca2Support`;
- `ATCA_HAL_LEGACY_API` → `legacyHal`;
- the two polling constants → `pollingMaxMs` and `pollingFreqMs`;
- the literal initial wait of a polling build (400 ms) → `pollInitialWaitMs`;
- the SWI flag bytes → `swiFlagCmd` and `swiFlagTx`;
- the device types that `atcab_is_ca2_device` accepts → `ca2Types`.

## Model

| member | source | states |
|---|---|---|
| ExecutionTimes.FindFrom | components/esp-cryptoauthlib/cryptoauthlib/lib/calib/calib_execution.c:306-313 | The scan returns a position only if it holds the opcode and no earlier entry does. It returns none only if the table does not list the opcode at all. |
| ExecutionTimes.GetExecutionTime | components/esp-cryptoauthlib/cryptoauthlib/lib/calib/calib_execution.c:234-321 | Only the cached time of the handle changes. Success holds exactly when the selected table lists the opcode. Success caches the time of the first matching entry. Failure is always `BadOpcode` with the unsupported marker cached. |
| ExecutionTimes.Ecc204TableShared | components/esp-cryptoauthlib/cryptoauthlib/lib/calib/calib_execution.c:284-289 | TA010 and ECC204 get the same status and the same time for every opcode, in a fixed-delay build and in a polling build alike. |
| ExecutionTimes.Sha10xTableShared | components/esp-cryptoauthlib/cryptoauthlib/lib/calib/calib_execution.c:291-296 | SHA104 and SHA105 get the same status and the same time for every opcode, in either build. |
| ExecutionTimes.Ecc608DefaultsToM0 | components/esp-cryptoauthlib/cryptoauthlib/lib/calib/calib_execution.c:264-281 | An ATECC608 whose divider is neither M1 nor M2 is looked up exactly as one with divider M0. |
| ExecutionTimes.PollingBuildLooksUpOnlyCa2Tables | components/esp-cryptoauthlib/cryptoauthlib/lib/calib/calib_execution.c:243-301 | In a polling build, every device type other than TA010, ECC204, SHA104 and SHA105 gets an empty table. Every lookup then fails with `BadOpcode` and the unsupported marker, and nothing else in the handle changes. |
| ExecutionTimes.SlowerEverywhere | components/esp-cryptoauthlib/cryptoauthlib/lib/calib/calib_execution.c:119-194 | If one table is entry by entry a slower copy of another (checked recursively from a position), then at every later position both hold the same opcode and the slower one the longer time. |
| ExecutionTimes.Ecc608M1SlowerThanM0 | components/esp-cryptoauthlib/cryptoauthlib/lib/calib/calib_execution.c:119-168 | The M1 table lists the M0 table's opcodes in the same order, each with a time at least as long. |
| ExecutionTimes.Ecc608M2SlowerThanM1 | components/esp-cryptoauthlib/cryptoauthlib/lib/calib/calib_execution.c:145-194 | The M2 table lists the M1 table's opcodes in the same order, each with a time at least as long. |
| ExecutionTimes.SlowerLookup | components/esp-cryptoauthlib/cryptoauthlib/lib/calib/calib_execution.c:306-313 | Scanning a table and a slower copy of it stops at the same position, and the copy's time is never shorter. |
| ExecutionTimes.Sha204InfoTime | components/esp-cryptoauthlib/cryptoauthlib/lib/calib/calib_execution.c:45-50 | On an ATSHA204A, `Info` is the fifth entry of its table and the first to list that opcode, and the lookup caches 112 ms for it. |
| ExecutionTimes.Ecc608DividerOrdering | components/esp-cryptoauthlib/cryptoauthlib/lib/calib/calib_execution.c:264-281 | The three ATECC608 tables list the same opcodes. Time never decreases from M0 to M1 to M2, so the default M0 table is the fastest. |
| Transport.ExecuteSend | components/esp-cryptoauthlib/cryptoauthlib/lib/calib/calib_execution.c:323-353 | **Bad arguments:** a null buffer or a zero length gives `BadParam` and makes no HAL call, and these are the only cases with no call. **Pass-through:** exactly one send to `0xFF`, and its status is the result. **Bus:** the calls form one select/deselect bracket. The data goes out only when the select returns success or unimplemented. The result is the send's status, or the select's status when the select was refused. At most three calls are made. |
| Transport.WireBytesDropOne | components/esp-cryptoauthlib/cryptoauthlib/lib/calib/calib_execution.c:332-346 | A pass-through send carries exactly `txlength - 1` bytes, and no other send does. The legacy HAL drops the last byte, a kit interface drops byte 0, and a bus send carries the buffer's first `txlength` bytes. |
| Transport.SendEventsOnly | components/esp-cryptoauthlib/cryptoauthlib/lib/calib/calib_execution.c:336-349 | A send makes no call other than select, deselect and the single transfer of the wire bytes to the wire address. |
| Transport.ReadFrame | components/esp-cryptoauthlib/cryptoauthlib/lib/calib/calib_execution.c:405-441 | **Check order:** the first read asks for one byte at offset 0. A failed read returns its status. Then a length above the capacity gives `SmallBuffer`, and only after that a length below 4 gives `RxFail`. Each of these stops after one read. Otherwise the second read asks for `length - 1` bytes at offset 1, and its status is the result. **Bounds:** no read reaches past the capacity and no byte from the capacity on changes, except that a zero capacity still gets the one-byte length read, which may write byte 0. **Length and content:** on success the buffer starts with the length byte, the bytes the second read delivered follow it, and the length is one more than that count. On failure the length is left at the capacity. |
| Transport.ReadFrameRoundTrip | components/esp-cryptoauthlib/cryptoauthlib/lib/calib/calib_execution.c:405-441 | For a device that holds a well-formed frame (length byte equal to its size, at least 4, within the capacity), the framed read succeeds. The buffer then starts with exactly that frame, the length equals the frame's size, and the rest of the buffer is untouched. |
| Transport.SelectedReceive | components/esp-cryptoauthlib/cryptoauthlib/lib/calib/calib_execution.c:386-412 | A non-CA2 device is first sent the word address (the SWI flag on SWI, 0 otherwise). If that send fails, its status ends the receive. A CA2 device is sent nothing and starts with the one-byte read. Every later call is a read. |
| Transport.BusReceive | components/esp-cryptoauthlib/cryptoauthlib/lib/calib/calib_execution.c:377-445 | **Bracket:** every path, each `break` included, is one select/deselect bracket with only transfers inside. A refused select gives exactly select and deselect, with the select's status. **Word address:** it is the only send and comes right after an accepted select, and only for a non-CA2 device. **Bounds and length:** no read passes the capacity (at least the one length byte). On failure the length is the capacity. **Status:** the HAL's replies decide it, in the source's order. A refused select gives the select's status. For a non-CA2 device, a failed word-address send gives that send's status. A failed length read gives its status. Otherwise the declared length (the byte the first read returned, or the buffer's old first byte if it returned none) gives `SmallBuffer` above the capacity, else `RxFail` below 4, else the status of the second read, which asks for exactly the remaining bytes. **Content:** on success the buffer starts with the length byte the first read returned, followed by the bytes the second read delivered, and the length counts both. |
| Transport.ExecuteReceive | components/esp-cryptoauthlib/cryptoauthlib/lib/calib/calib_execution.c:356-450 | A null buffer or length gives `BadParam` and makes no call. Pass-through makes a single read at word address 0 for the whole capacity. Its bytes land at the start of the buffer and its status is the result. The bus path is one bracket whose status the HAL's replies decide as in BusReceive, with the caller's first byte as the fallback length byte. A bus failure leaves the length at the capacity. Every call it adds is a select, a deselect, a read, or the word-address send. On every path nothing past the capacity (at least one byte) is read or written, and a success's length is within the capacity. On success the buffer holds exactly what the HAL delivered. |
| Transport.ReceiveRoundTrip | components/esp-cryptoauthlib/cryptoauthlib/lib/calib/calib_execution.c:356-450 | A bus device that holds a well-formed frame (length byte equal to its size, at least 4, within the capacity) and accepts every call: the whole receive succeeds, the buffer starts with exactly that frame, the length is the frame's size, and the rest of the buffer is untouched. |
| Executor.PlanTiming | components/esp-cryptoauthlib/cryptoauthlib/lib/calib/calib_execution.c:473-495 | **When it aborts:** exactly when the table is consulted (a fixed-delay build, or a CA2 device on SWI-GPIO when CA2 support is built in) and does not list the opcode. The result is then `BadOpcode` with the unsupported marker. **Table path:** the cached time is the first matching entry's, and the budget is 0. **Fixed-delay build:** the wait is that time. **Polling build:** the wait is the literal initial wait, and the budget is `max / frequency`, or 0 on the CA2 path. Only the cached time changes, and only when the table was consulted. |
| Executor.CommandCarriesFrame | components/esp-cryptoauthlib/cryptoauthlib/lib/calib/calib_execution.c:523 | A command's `txsize + 1` bytes reach the wire as follows. On a bus interface: the reserved byte and the whole frame, to the device address. On a kit interface: the frame alone, to `0xFF`. Through the legacy HAL: the image without its last byte. |
| Executor.ReservedStable | components/esp-cryptoauthlib/cryptoauthlib/lib/calib/calib_execution.c:508-521 | Setting the reserved byte again on a retry leaves it unchanged. On I2C, custom, SWI, and (with CA2 support) SWI-GPIO for a CA2 device, the byte written does not depend on the old one. On every other interface the byte is left as it was, and only there. |
| Executor.SendAttempt | components/esp-cryptoauthlib/cryptoauthlib/lib/calib/calib_execution.c:498-523 | **Calls:** an attempt adds exactly these calls. First comes a wake, when the device is not active. On a pass-through interface the command follows alone. On a bus interface a select, the command and a deselect follow, or only the select and the deselect when the select is refused. **Status:** it is the HAL's reply to the command, or the refused select's status. The wake's status never survives. **Wire:** the command is on the wire exactly once when the select is accepted or the path is pass-through, and never otherwise. |
| Executor.SendWithRetry | components/esp-cryptoauthlib/cryptoauthlib/lib/calib/calib_execution.c:496-536 | **Attempts:** between 1 and `retries + 1` attempts. Every attempt but the last got `RxNoResponse`, and a final `RxNoResponse` means every allowed attempt was used. **Replies:** each attempt's calls start at its recorded position in the trace. They are exactly the calls an attempt makes after the calls before it, and its status is the HAL's reply to them. The first attempt starts in the handle's state, and every later one in the unknown state, so it wakes the device again. **Wire:** the command is sent at most once per attempt, and exactly once per attempt through a kit or the legacy HAL. **State:** it ends `Unknown` after no response and `Active` otherwise. **Packet:** it carries the reserved byte the interface demands. |
| Executor.RepliesExtend | components/esp-cryptoauthlib/cryptoauthlib/lib/calib/calib_execution.c:496-536 | Appending one more attempt's calls and reply to a recorded send log records the longer log. Each earlier attempt keeps its calls and reply. The command count grows by one exactly when the new attempt transmits. |
| Executor.CommandsBefore | components/esp-cryptoauthlib/cryptoauthlib/lib/calib/calib_execution.c:496-536 | In a recorded send log, the number of commands on the wire before attempt `i` is exactly the number of earlier attempts that transmitted. |
| Executor.CallsCount | components/esp-cryptoauthlib/cryptoauthlib/lib/calib/calib_execution.c:498-523 | The calls of one attempt carry the command once when it transmits (always through a kit or the legacy HAL, on a bus once the select is accepted), and never otherwise. |
| Executor.RecvAttempt | components/esp-cryptoauthlib/cryptoauthlib/lib/calib/calib_execution.c:548-552 | Each receive attempt starts from a zeroed buffer of the packet's size. After a success, everything past the received length is still zero. An attempt makes transfer calls only. Its status is what the HAL's replies to its calls decide, and on success the buffer holds what the HAL delivered. |
| Executor.ReceiveWithPolling | components/esp-cryptoauthlib/cryptoauthlib/lib/calib/calib_execution.c:546-562 | Between 1 and `budget + 1` attempts, stopping at the first success. Failure means every allowed attempt was used. The first call is a transfer. Only a polling build inserts delays, one polling interval after each failed attempt. **Replies:** each attempt's status is what the HAL's replies to that attempt's calls decide. The calls of one attempt start right after the previous attempt and its delay. On success the data and size are the last attempt's delivery. |
| Executor.PollAgain | components/esp-cryptoauthlib/cryptoauthlib/lib/calib/calib_execution.c:557-562 | After a failed attempt with budget left, the receive goes on with one attempt fewer, and the whole run keeps every property ReceiveWithPolling states. |
| Executor.JoinRecord | components/esp-cryptoauthlib/cryptoauthlib/lib/calib/calib_execution.c:546-562 | Putting a failed attempt, and the delay after it, in front of the record of the remaining attempts gives a record of the whole run. |
| Executor.Respond | components/esp-cryptoauthlib/cryptoauthlib/lib/calib/calib_execution.c:543-591 | After a send phase without an idle, one wait for the planned time comes before any read. The receive loop after the wait keeps every property ReceiveWithPolling states: each attempt's status is what the HAL's replies to its own calls decide, and the size and data are the last attempt's delivery. The calls close with the last attempt, or with its polling delay when it failed. The status is the last receive's failure, or else the validation's verdict on the received size and data. Success means at least four bytes that passed the CRC and status checks. |
| Executor.Exchange | components/esp-cryptoauthlib/cryptoauthlib/lib/calib/calib_execution.c:543-591 | After a successful send phase, the send statuses are kept. One wait for the planned time comes before any read. The status is the last receive's failure or the validation's verdict. The calls close with the last receive attempt, or with its polling delay when it failed. A received response leaves the rest of the buffer zero. The record ties the receive attempts, the size and the data to the HAL's replies after the send phase. |
| Executor.ReceivedOutcome | components/esp-cryptoauthlib/cryptoauthlib/lib/calib/calib_execution.c:543-591 | A successful send phase, then one wait and the receive loop, gives this outcome. The status is the last receive's failure or the validation's verdict. The calls close with the last attempt or its polling delay. The buffer beyond a received response is zero. Success means at least four bytes that passed both checks. |
| Executor.SendFailed | components/esp-cryptoauthlib/cryptoauthlib/lib/calib/calib_execution.c:536-541 | A send phase that ended without success returns its own status, with no wait and no receive. The packet's data is as it was, and the calls end with the send phase. Every earlier attempt got no response, and when the last one did too, every allowed attempt was used. |
| Executor.JoinPhases | components/esp-cryptoauthlib/cryptoauthlib/lib/calib/calib_execution.c:496-591 | A recorded send phase, followed by one wait and a recorded receive loop, is the record of the whole command. That record closes where the receive loop's calls close. |
| Executor.Validate | components/esp-cryptoauthlib/cryptoauthlib/lib/calib/calib_execution.c:569-591 | Success holds exactly when the size is at least 4 and the CRC and the status byte both pass. A short response gives `RxFail` if nonempty and `RxNoResponse` if empty. A CRC failure returns the CRC's status without consulting the status byte. |
| Executor.Transact | components/esp-cryptoauthlib/cryptoauthlib/lib/calib/calib_execution.c:496-591 | **Failed send phase:** returns its status with no delay and no read. The data is unchanged, and the calls end with the send phase. **Successful send phase:** one wait, for the planned time, before any read, then the polled receive. The status is then the last receive's failure, or else the verdict of validating the received size and data. The calls end with the last receive attempt, or with its polling delay when it failed. A received response leaves the rest of the buffer zero. **Retries:** the send stops early only on a reply other than no-response. **Success:** implies a response of at least four bytes that passed the CRC and status checks. No idle is issued. **Record:** each attempt's calls and reply are as SendWithRetry states. After a successful send phase come one wait and the receive attempts, each decided by the HAL's replies to its own calls. A success's size and data are the last attempt's delivery. |
| Executor.Execute | components/esp-cryptoauthlib/cryptoauthlib/lib/calib/calib_execution.c:462-603 | **Failed lookup:** returns `BadOpcode` with no call at all (no wake, send or idle), the packet unchanged and the state untouched. **Otherwise:** the retry bounds, stopping early only on a reply other than no-response. Then the wait-first trace and the receive bounds, with exactly one attempt on the table-timed paths. **Timing:** when the table is consulted, the cached time is the first matching entry's time; otherwise it is unchanged. **Status:** after a failed send phase, its status, with the data unchanged. After a successful one, the last receive's failure or the validation's verdict on the received size and data. **Calls:** they end with the send phase when it failed, else with the last receive attempt or its polling delay, and then the idle. A non-CA2 device gets exactly one idle, as the last call, and ends `Idle` whatever the status. A CA2 device is never idled and keeps the state the send left. **Success:** implies a response of at least four bytes, from a successful last receive, that passed the CRC and status checks, with the rest of the buffer zero. **Record:** each send attempt's calls and reply are as SendWithRetry states, and the packet sent carries the interface's reserved byte. Each receive status is what the HAL's replies to that attempt's calls decide, and the size and data are the last attempt's delivery. Every call after the send phase is a wait, a receive call or the idle. So the command reaches the wire at most once per send attempt. |
| Executor.Aborted | components/esp-cryptoauthlib/cryptoauthlib/lib/calib/calib_execution.c:473-488 | A failed lookup returns at once and keeps the whole promise of the command: `BadOpcode`, no call at all, the packet as it was, the cached time set to the unsupported marker, and the state untouched. |
| Executor.Proceeded | components/esp-cryptoauthlib/cryptoauthlib/lib/calib/calib_execution.c:473-602 | A command run with the decided wait, receive budget and cached time keeps the whole promise of the command. The decision reaches the record: one receive attempt and the first matching table time on the table path, the wait the build chooses, and the state and calls of the run. |
| Executor.RunCommand | components/esp-cryptoauthlib/cryptoauthlib/lib/calib/calib_execution.c:496-602 | Once the lookup has let the command go on: the retried send, the exchange and the idle step, with the handle's new cached time. Every property Execute states for this case holds: the calls close with the phases and the idle, and the record of the calls is kept. |
| Executor.PlannedRun | components/esp-cryptoauthlib/cryptoauthlib/lib/calib/calib_execution.c:473-495 | The timing decision's wait, budget and cached time carry over to the run. On the table path there is exactly one receive attempt. Otherwise there are at most `max / frequency + 1` attempts, and the cached time is unchanged. The wait is the table time in a fixed-delay build and the literal initial wait in a polling build. |
| Executor.Finish | components/esp-cryptoauthlib/cryptoauthlib/lib/calib/calib_execution.c:595-600 | The outcome changes only in the handle's cached time, in the state (`Idle` for a non-CA2 device), and by one idle call appended for a non-CA2 device. The record of the phases' calls is kept. |
| Executor.IdleStep | components/esp-cryptoauthlib/cryptoauthlib/lib/calib/calib_execution.c:595-602 | After the idle step, everything the exchange promised still holds. The calls are the phases' calls, then exactly one idle for a non-CA2 device, as the last call, and that device ends `Idle`. A CA2 device's calls and state are left alone. A failed send's calls stay free of waits and reads, and a successful one's wait still comes first. |
| Executor.CommandCount | components/esp-cryptoauthlib/cryptoauthlib/lib/calib/calib_execution.c:496-602 | Over a whole recorded command with a non-empty frame, the command's wire bytes are sent at most once per send attempt. The receive's only send is the one-byte word address, which no such command can equal. |

The model follows these facts about the source:
- **ATECC608 default table.** A divider other than M1 or M2 selects the M0
  table (calib_execution.c:275-280). The source comments this branch as the
  assumed default M0 clock divider (:277). `Ecc608DividerOrdering` shows that,
  for every opcode, the M0 table's time is at most the M1 table's, which is
  at most the M2 table's.
- **Failed lookup.** It returns before the idle step (:474-477 and
  :487-490), so the state is left as it was.
- **CA2 path of a polling build.** It uses the literal initial wait
  (:491), not the looked-up time.
- **Table values.** The times are this repository's own. For example,
  `Info` on an ATSHA204A is 112 ms (:50).

## Left out

- `main/main.c` is not part of this model. It is application glue that
  calls library code this model does not contain.
- The HAL (`atsend`, `atreceive`, `atcontrol`, `atca_iface_is_kit`,
  `atca_iface_get_retries`), `calib_wakeup`, `calib_idle`, `atca_delay_ms`,
  `atCheckCrc` and `isATCAError` are oracle parameters. Only the calls to
  them and the replies they give are modelled, not their timing or
  electrical behaviour.
- `atcab_is_ca2_device` is a set of device types in the configuration,
  because its code is not part of this model.
- The numeric values of opcodes, status codes, the unsupported marker and
  the SWI flags come from headers outside this model. They are distinct
  abstract constructors or configuration fields. So `DivOther(raw)` and
  `Unlisted(code)` also admit raw bytes that in C would equal the M1 or M2
  divider (:264, :269) or a tabulated opcode (:308). Such a byte would
  select another table or match an entry in the source, but not in the
  model. `Packet.opcode` is a field of its own and is not tied to the
  opcode byte inside the frame that is sent (:522).
- The status test of the lookup compares the cached time with the
  unsupported marker. The model reports a miss directly, which is the same
  thing because no tabulated time equals the marker.
- Fixed-width integers are unbounded: `uint16_t` lengths, the `uint32_t`
  wait and the `int` retry count never wrap in the model.
- Transport.ExecuteReceive: requires a buffer of at least one byte when
  both pointers are present. The source writes `rxdata[0]` even for a zero
  capacity, which the model does not represent.
- Transport.ExecuteReceive: a HAL receive delivers at most the bytes it was
  asked for, and the returned length is that count. A HAL that reports a
  length longer than it wrote is not modelled.
- Executor.Execute: `packet` and `device` are values returned updated, not
  shared pointers. Aliasing between the packet and other state is not
  modelled.
- Executor.Execute: the packet's data buffer is modelled apart from its
  frame. In the source, the data buffer lies inside the packet that is
  sent. The memset (:548) and the receive (:552) overwrite it with the
  response. The model sends the frame as it was and returns the response
  in `data`, so it does not show the response overwriting the command bytes.
- Executor.Execute: the wake's status is recorded only as a trace event,
  because the send that always follows overwrites both the status and the
  device state.
- The polling initial wait is the parameter `pollInitialWaitMs` rather than
  the literal 400. The source carries a comment suggesting a different
  value, and the model does not choose between them.

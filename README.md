# Meters: RS-485 meter polling, modelled in Dafny

This project models the C core of the `meters` Zephyr module. The module keeps a
table of electricity meters (CE318, SPM90, Mercury 234) and polls them over a
shared half-duplex RS-485 bus. The model covers:

- **Checksums**:
  - the table-free Modbus CRC-16 `u16_calculateCRC` (initial value 0xFFFF, reflected polynomial 0xA001);
  - the CE318 CRC (initial value 0, polynomial 0x8005, no reflection).
- **CE318 framing**: byte stuffing of END (0xC0) and ESC (0xDB) by `ce318_set_escape`, and unstuffing by `ce318_remove_escape`.
- **SPM90 (Modbus RTU)**:
  - the read-holding-registers request;
  - the response checks of `meters_spm90_get_responce`, in the order the code makes them;
  - the register decoding;
  - the per-meter bookkeeping: `bad_responce_count`, the error threshold of 3, and the validity flag.
  - The older copy in `src/meters_spm90.c` is modelled beside the newer driver.
- **Mercury 234**:
  - send, receive, request, ping, connect and disconnect;
  - the energy, power, voltage and current decoders.
- **Registry** (`src/meters.c`):
  - `meters_init`;
  - `initializeMetersContext`, which resets to defaults, calls the parameter callback and scans the types;
  - `meters_set_values`;
  - one iteration of `meters_baseThread`.
- **The polling pass** of `meters_poll485.c` and `meters_call.c`: readers in index order, meters without a read function skipped, the first non-zero result stopping the thread.

## Modelling choices

- **Integer types.**
  - `byte`, `u16`, `u32` and `u64` are subsets of `int` (module `Wire`).
  - CRC registers are `bv16`.
  - A C `x << 8 | y` on disjoint bit fields is written `x * 256 + y`.
- **Bus transport.**
  - The RS-485 transport is the class `Bus485.Bus`. Its ghost fields record whether a driver holds the lock and every call made on it (`trace`).
  - What the transport returns is an input: the results of `set_baudrate`, `send` and `recv`, and the bytes left in the receive buffer.
  - Every driver operation states the exact sequence of bus calls it makes, and that the lock is released on every path that releases it in C.
- **Missing `return`.** Paths that reach the end of a non-void C function without a `return` give `Status.NoReturnValue`. These are:
  - `meters_ce318_init`;
  - `meters_mercury_init`;
  - the success path of `initializeMetersContext`;
  - `meters_set_values`.

  A caller that uses such a value, as `meters_baseThread` does, takes the indeterminate value as a parameter.
- **Floating point.** C `float` results (voltage, current, power) are exact `real`s.
- **Behaviour modelled as the code is written:**
  - **Mercury address check.** `meters_mercury_receive` tests `resp[0] != 0 || resp[0] != address`. This rejects every frame when `address != 0`, and accepts only a frame whose first byte is 0 when `address == 0` (`Mercury234.AddressCheckAsWritten`).
  - **Mercury frame without its CRC.** `meters_mercury_send` computes the CRC into `query[count..count+1]` but passes `count` (the payload length plus one) to `bus485_send`, so only the address and the payload are sent and the CRC never leaves (`Mercury234.TransmittedLacksCrc`). `rcv_length` is never used.
  - **Mercury energy wrap.** The energy is multiplied by 3600 in `uint32_t` arithmetic and wraps modulo 2^32 (`Mercury234.EnergyExactIff`).
  - **SPM90 ignored results.**
    - The result of `bus485_set_baudrate` is overwritten by the result of `bus485_send`.
    - The id and baudrate pass through `uint16_t` parameters, and the id then through `uint8_t`.
  - **SPM90 CRC positions.** The response CRC is computed over `expected - 2` bytes of the receive buffer but compared against the bytes at `ret - 2` and `ret - 1`. The response is accepted exactly when these agree (`Spm90.AcceptsExactlyWellFormed` covers the well-formed case `ret == expected`).
  - **`meters_set_values`.**
    - Line 54 reads `idx => context->itemCount`, which is modelled as the evident `>=`.
    - The time stamp is `k_uptime_get()` stored in a 32-bit field (`Registry.Stamp`).
  - **`meters_baseThread` re-initialises every iteration.** It sets `isInitialize = false` after a successful initialisation, so the registry is initialised again on every iteration (`Registry.BaseThreadStep`).
- **Legacy SPM90 copy.** In `src/meters_spm90.c`, `i32_Meters_Spm90GetResponce` and `i32_Meters_Spm90GetValues` do the same as the newer driver; they are modelled by `Spm90.GetResponse` and `Spm90.GetValues`. Only the read (which keeps no failure count) and the init differ, in module `Spm90Legacy`.
- **The Zephyr CRC.** `crc16_reflect(0xA001, 0xFFFF, …)` from the Zephyr library is taken to compute the same function as `u16_calculateCRC`, the Modbus CRC-16 (`ProtocolUtils.Crc16Reflect`).

## Model

| member | source | states |
|---|---|---|
| Wire.Inc32 | src/meter485/meters_spm90.c:97 | incrementing a `uint32_t` counter adds one, and wraps to 0 from 0xFFFFFFFF |
| ProtocolUtils.FoldAppend | src/protocol_utils.c:8-22 | processing a buffer byte by byte: folding over `a + b` is folding over `b` from the state after `a` |
| ProtocolUtils.Crc16IsLeftFold | src/protocol_utils.c:3-24 | the CRC of the empty buffer is the initial value 0xFFFF, and appending one byte applies one byte step (XOR, then eight shifts with polynomial 0xA001) |
| ProtocolUtils.Crc16Append | src/protocol_utils.c:8-22 | the CRC can be computed incrementally: CRC(a + b) continues from CRC(a) |
| ProtocolUtils.ModbusReferenceVector | src/protocol_utils.c:3-24 | the CRC of the Modbus request 01 03 00 00 00 06 is 0xC8C5 (sent as C5 C8) |
| ProtocolUtils.CalculateCrc | src/protocol_utils.c:3-24 | the loop over `length` bytes of the buffer returns the Modbus CRC-16 of exactly those bytes |
| ProtocolUtils.AppendCrc | src/meter485/meters_spm90.c:51-53 | appending the CRC adds two bytes and keeps the body as the prefix |
| ProtocolUtils.AppendCrcIsValid | src/meter485/meters_spm90.c:51-53 | a body followed by its CRC, low byte first, passes the CRC check |
| MeterTypes.Context.constructor | src/meters.c:11-14 | the static context starts with no meters, no callback, and zeroed items and parameters |
| Ce318.EscapeAppend | src/meter485/meters_ce318.c:7-28 | stuffing works byte by byte: stuffing `a + b` is stuffing `a` followed by stuffing `b` |
| Ce318.EscapeLength | src/meter485/meters_ce318.c:7-28 | the stuffed size is the input size plus one per END or ESC byte, at most twice the input |
| Ce318.EscapeIsStuffed | src/meter485/meters_ce318.c:7-28 | stuffed output contains no END byte, and every ESC in it is followed by ESC_END or ESC_ESC |
| Ce318.UnescapeEscape | src/meter485/meters_ce318.c:31-50 | unstuffing inverts stuffing: unstuffing the stuffing of any buffer gives that buffer back |
| Ce318.PutEscaped | src/meter485/meters_ce318.c:11-25 | writing one byte puts its stuffed form at the write position and advances by its length, leaving the rest |
| Ce318.SetEscape | src/meter485/meters_ce318.c:7-29 | returns the stuffed size (input size plus reserved bytes) and leaves the stuffing of the first `count` source bytes in `dest` (none for count ≤ 0), the rest untouched |
| Ce318.TakeToken | src/meter485/meters_ce318.c:35-47 | one step of unstuffing: ESC ESC_END gives END, ESC followed by anything else gives ESC and consumes two bytes, any other byte is copied |
| Ce318.RemoveEscape | src/meter485/meters_ce318.c:31-50 | returns the unstuffed size, never more than the input, and leaves the unstuffed bytes in `dest`, the rest untouched |
| Ce318.CrcFoldAppend | src/meter485/meters_ce318.c:55-64 | the CE318 CRC processes bytes one after another: folding over `a + b` continues from the state after `a` |
| Ce318.CrcCheckValue | src/meter485/meters_ce318.c:52-67 | the CRC of the ASCII digits "123456789" is 0xFEE8, the published check value of CRC-16/BUYPASS (polynomial 0x8005, no reflection, initial value 0) |
| Ce318.CrcIncremental | src/meter485/meters_ce318.c:52-67 | the CE318 CRC of the empty buffer is 0 and CRC(a + b) continues from CRC(a) |
| Ce318.GetCrc16 | src/meter485/meters_ce318.c:52-67 | the nested loop returns the CE318 CRC (polynomial 0x8005, MSB first, initial 0) of the first `length` bytes |
| Ce318.Init | src/meter485/meters_ce318.c:70-78 | an index at or past the meter count gives -ERANGE and changes nothing; otherwise the failure count is set to the threshold 3 and the function returns no value |
| Spm90.ToU16 | src/meter485/meters_spm90.c:45-46 | a `uint32_t` address or baudrate passed as `uint16_t` is kept when it fits |
| Spm90.Request | src/meter485/meters_spm90.c:49-53 | the request is 8 bytes: id, function 0x03, start register 0, count 6, then the CRC |
| Spm90.RequestHasValidCrc | src/meter485/meters_spm90.c:49-53 | the request carries a valid Modbus CRC |
| Spm90.ResponseStatus | src/meter485/meters_spm90.c:15-36 | the status is 0 or a negative error, and -E2BIG when `2·count + 5` exceeds the 17-byte buffer |
| Spm90.AcceptsExactlyWellFormed | src/meter485/meters_spm90.c:17-36 | a response of the expected length is accepted iff its CRC is valid, its id matches, its function is 0x03 and its byte count is `2·count` |
| Spm90.Registers | src/meter485/meters_spm90.c:38-40 | decoding yields one register per requested count |
| Spm90.BigEndianAt | src/meter485/meters_spm90.c:39 | register `i` is carried high byte first at offset `2·i` |
| Spm90.ResponseBody | src/meter485/meters_spm90.c:29-36 | a reply body is id, 0x03, the byte count and the registers big-endian |
| Spm90.EncodeResponse | src/meter485/meters_spm90.c:15 | a reply has the expected length `2·count + 5` |
| Spm90.EncodedIsAccepted | src/meter485/meters_spm90.c:17-42 | every well-formed reply, followed by any stale buffer bytes, is accepted |
| Spm90.RegistersOfBigEndian | src/meter485/meters_spm90.c:38-40 | the register loop inverts the big-endian encoding |
| Spm90.EncodedRegisters | src/meter485/meters_spm90.c:38-40 | decoding the registers of an encoded reply gives back the registers |
| Spm90.DecodeEncode | src/meter485/meters_spm90.c:17-42 | round trip: an encoded reply is accepted and decodes to the registers it carries |
| Spm90.CopyRegisters | src/meter485/meters_spm90.c:38-40 | the loop fills the first `count` entries with the decoded registers and leaves the rest |
| Spm90.GetResponse | src/meter485/meters_spm90.c:9-43 | returns the status of the checks; on success the buffer holds the decoded registers, and on failure it is unchanged; the bus sees one receive of 17 bytes with a 3000 ms timeout |
| Spm90.Exchange | src/meter485/meters_spm90.c:58-63 | when the send succeeds, the result of the exchange is 0 or a negative error |
| Spm90.GetValues | src/meter485/meters_spm90.c:45-75 | the bus is locked, the baudrate set, flushed, the request sent and received, then released on both paths; on success the shadow holds the decoded values, and on failure it is unchanged |
| Spm90.AfterSuccess | src/meter485/meters_spm90.c:86-94 | after a good response the values are valid, the failure count is 0, the time mark is now and the values are the shadow |
| Spm90.AfterFailure | src/meter485/meters_spm90.c:96-104 | an invalid item is untouched; a valid item counts the failure and stays valid iff the count is at most 3 |
| Spm90.ReadItem | src/meter485/meters_spm90.c:85-104 | a successful exchange makes the item valid with failure count 0 and time mark now, its shadow the decoded registers and its values the DC view of that shadow; a failed one keeps values and time mark, and the item stays valid iff it was valid and the incremented count is at most 3 |
| Spm90.Read | src/meter485/meters_spm90.c:79-106 | always returns 0 and changes exactly the item read, as the success or failure rule says |
| Spm90.Init | src/meter485/meters_spm90.c:108-116 | an index at or past the meter count gives -ERANGE and changes nothing; otherwise the failure count is set to 3 and the result is 0 |
| Spm90.InvalidIsStable | src/meter485/meters_spm90.c:97 | an item that is not valid is unchanged by any number of failures |
| Spm90.FailuresInvalidate | src/meter485/meters_spm90.c:96-104 | a valid item stays valid over `k` failures iff its failure count plus `k` is at most 3 |
| Spm90.SurvivesThreeFailures | src/meter485/meters_spm90.c:86-104 | after a success, three failures keep the values valid and the fourth invalidates them |
| Spm90.ExchangeDecodes | src/meter485/meters_spm90.c:45-75 | a well-formed reply of 6 registers is accepted and decodes to the values those registers carry |
| Spm90.Decode | src/meter485/meters_spm90.c:65-71 | the energy is a whole multiple of 36000 watt-seconds (10 Wh) and below 36000·2^32, so the 64-bit product never wraps; voltage and current are non-negative and at most 6553.5 V and 655.35 A |
| Spm90.DecodeSample | src/meter485/meters_spm90.c:65-72 | the scaling: voltage /10, current /100, the power pair /10, and the energy pair ·10·3600 |
| Spm90Legacy.ReadItem | src/meters_spm90.c:81-91 | a successful exchange makes the item valid, stamped with now, its shadow the decoded registers and its values the DC view of that shadow |
| Spm90Legacy.Read | src/meters_spm90.c:76-92 | always returns 0; on success the item becomes valid with the new values, and on failure nothing changes |
| Spm90Legacy.Init | src/meters_spm90.c:94-101 | an index at or past the meter count gives -ERANGE; otherwise the failure count is set to 3 |
| Spm90Legacy.FailureChangesNothing | src/meters_spm90.c:82-91 | a failed exchange leaves the item as it was; the failure count and error time are never touched |
| Spm90Legacy.ValidityIsMonotone | src/meters_spm90.c:82-91 | after a read, the item is valid iff it was valid or the exchange succeeded |
| Spm90Legacy.AgreesWithNewer | src/meters_spm90.c:76-92 | on success the legacy read stores the same values as the newer driver, and for an invalid item both drivers agree |
| Mercury234.Frame | src/meter485/meters_mercury234.c:14-22 | the query is the address, the payload and a two-byte CRC |
| Mercury234.FrameHasValidCrc | src/meter485/meters_mercury234.c:19-22 | the query carries a valid Modbus CRC |
| Mercury234.TransmittedLacksCrc | src/meter485/meters_mercury234.c:32-38 | the bytes sent are the query without its CRC, two bytes short |
| Mercury234.BuildQuery | src/meter485/meters_mercury234.c:14-22 | the 24-byte query buffer holds the frame, zero-filled after it |
| Mercury234.Send | src/meter485/meters_mercury234.c:10-41 | returns the error of `set_baudrate` or `send`, or 0; the bus stays locked exactly when 0 is returned |
| Mercury234.ReceiveStatus | src/meter485/meters_mercury234.c:43-66 | the result is a negative error or the payload length `count - 3` |
| Mercury234.AddressCheckAsWritten | src/meter485/meters_mercury234.c:60-61 | a frame with a good CRC is rejected with -EXDEV whenever the address is not 0, and for address 0 exactly when its first byte is not 0 |
| Mercury234.AcceptedExactly | src/meter485/meters_mercury234.c:47-61 | a reply is accepted iff the receive succeeded, the CRC over the received bytes is valid and the address check passes; accepted replies have at least 3 bytes |
| Mercury234.ReceiveFrame | src/meter485/meters_mercury234.c:43-66 | a valid frame for address 0 is accepted with its payload length, and the payload follows the address byte |
| Mercury234.Receive | src/meter485/meters_mercury234.c:43-66 | returns the receive status, releases the bus, and copies the payload into the caller's buffer only on success |
| Mercury234.Delivered | src/meter485/meters_mercury234.c:63-65 | the caller's buffer keeps its size |
| Mercury234.RequestIsBalanced | src/meter485/meters_mercury234.c:68-88 | every request takes the bus first and releases it last, once |
| Mercury234.Request | src/meter485/meters_mercury234.c:68-88 | a send failure is returned with the bus released; otherwise the receive result is returned and the payload delivered |
| Mercury234.CommandOutcome | src/meter485/meters_mercury234.c:90-108 | a request error is passed on, a 1-byte answer of 0 gives 0, any other answer gives -EPROTO |
| Mercury234.Command | src/meter485/meters_mercury234.c:90-108 | one command exchange returns the command status and leaves the bus released |
| Mercury234.Ping | src/meter485/meters_mercury234.c:90-108 | the ping command (address, 0x00) with the command status |
| Mercury234.Connect | src/meter485/meters_mercury234.c:110-133 | the connect command with access level 1 and password 111111, with the command status |
| Mercury234.Disconnect | src/meter485/meters_mercury234.c:237-255 | the disconnect command (address, 0x02), with the command status |
| Mercury234.EnergyWh | src/meter485/meters_mercury234.c:152-155 | the watt-hour count has `rcv[1]` as its most significant byte and `rcv[2]` as its least significant byte |
| Mercury234.EnergyRoundTrip | src/meter485/meters_mercury234.c:152-155 | the byte order (middle-high, high, low, middle-low) decodes back the watt-hours encoded in it |
| Mercury234.EnergyActive | src/meter485/meters_mercury234.c:156-157 | the stored energy is below 2^32 because the multiplication by 3600 is done in 32 bits |
| Mercury234.EnergyExactIff | src/meter485/meters_mercury234.c:152-157 | the stored energy equals watt-hours · 3600 iff the watt-hours are at most 1193046 |
| Mercury234.PowerRaw | src/meter485/meters_mercury234.c:178-180 | the power field drops the two direction bits and stays below 2^22 |
| Mercury234.PowerRoundTrip | src/meter485/meters_mercury234.c:178-182 | any 22-bit power with any direction bits decodes back to that power |
| Mercury234.PhaseRaw | src/meter485/meters_mercury234.c:203-208 | each phase value is a 24-bit number |
| Mercury234.PhaseRoundTrip | src/meter485/meters_mercury234.c:203-208 | the byte order (high, low, middle) of each phase decodes back the value encoded in it |
| Mercury234.Phases | src/meter485/meters_mercury234.c:203-208 | three values, phase `i` being its 24-bit number divided by the scale |
| Mercury234.ReadStatus | src/meter485/meters_mercury234.c:145-150 | a reading returns 0 iff the request succeeded, otherwise its negative error |
| Mercury234.GetEnergy | src/meter485/meters_mercury234.c:135-160 | on success the energy is the decoded 32-bit value, and on failure it is unchanged; the bus is released |
| Mercury234.GetPower | src/meter485/meters_mercury234.c:162-185 | on success the power is the 22-bit field / 100, and on failure it is unchanged; the bus is released |
| Mercury234.StorePhases | src/meter485/meters_mercury234.c:203-208 | the loop stores the three scaled phase values |
| Mercury234.GetPhases | src/meter485/meters_mercury234.c:187-235 | on success the three phases are stored scaled, and on failure they are unchanged; the bus is released |
| Mercury234.GetVoltage | src/meter485/meters_mercury234.c:187-210 | on success the voltages are the phase values / 100 |
| Mercury234.GetCurrent | src/meter485/meters_mercury234.c:212-235 | on success the currents are the phase values / 1000 |
| Mercury234.Init | src/meter485/meters_mercury234.c:258-265 | an index at or past the meter count gives -ERANGE and changes nothing; otherwise the failure count is set to the threshold 3 and the function returns no value |
| Registry.Default | src/meters.c:105-109 | a default entry has current factor 1, address 0 and the unknown type, and keeps its baudrate |
| Registry.Defaults | src/meters.c:105-109 | every entry of the table is reset to its default |
| Registry.CountAfter | src/meters.c:114-128 | a callback error keeps the old count; otherwise the count is the callback result when all its types are known, and 0 when one is not |
| Registry.ResetParameters | src/meters.c:105-109 | the loop resets the whole parameter table to defaults |
| Registry.CheckTypes | src/meters.c:121-128 | when all types below the count are known, nothing changes and no value is returned; otherwise the count is 0 and -1 is returned |
| Registry.Initialize | src/meters.c:102-130 | the table becomes what the callback fills in over the defaults, the status is a callback error, -1 for an unknown type, or no value, and the count follows CountAfter |
| Registry.Init | src/meters.c:16-41 | a missing callback gives -EINVAL and changes nothing; otherwise the callback is stored and 0 returned |
| Registry.Stamp | src/meters.c:60 | the 64-bit uptime kept as 32 bits, exact below 2^32 |
| Registry.SetValues | src/meters.c:48-65 | the checks fail without change; otherwise the entry gets the values, the stamp and the valid flag, and no value is returned |
| Registry.SetValuesChecksInOrder | src/meters.c:51-55 | a missing buffer gives -EINVAL first; otherwise an index at or past the count gives -ERANGE, and only a valid index writes |
| Registry.BaseThreadStep | src/meters.c:76-85 | without a reinit request an initialised thread changes nothing; otherwise it initialises: the parameter table becomes the callback's fill over the defaults and the count follows CountAfter, the thread stops on a negative result and otherwise continues uninitialised |
| Scheduler.ReadersAreReaders | src/meter485/meters_poll485.c:19-22 | the meters visited are exactly indices whose type has a read function, ascending |
| Scheduler.ReadersComplete | src/meter485/meters_poll485.c:19-22 | every registered meter whose type has a read function is visited |
| Scheduler.PollPass | src/meter485/meters_poll485.c:19-31 | the loop calls the readers in order until the first non-zero result, which stops the thread, or all of them and then sleeps 1000 ms |
| Scheduler.PassIsUnique | src/meter485/meters_poll485.c:19-31 | the readers and their results determine the calls and how the pass ends |
| Scheduler.VisitsInOrder | src/meter485/meters_poll485.c:19-22 | calls are in strictly ascending index order and only meters with a read function are called |
| Scheduler.StoppedPrefix | src/meter485/meters_poll485.c:23-28 | in a stopped pass, every reader before the stopping one was called and returned 0 |
| Scheduler.FirstFailureStops | src/meter485/meters_call.c:32-37 | the pass stops at the first meter returning non-zero, with that code; every earlier reader returned 0 and was called, and no later meter is called |
| Scheduler.AllZeroPass | src/meter485/meters_call.c:28-40 | a pass sleeps 1000 ms iff every reader returned 0, and then each meter with a read function is called exactly once and no other |
| Scheduler.EmptyRegistry | src/meter485/meters_call.c:28 | with no meters a pass calls nothing and sleeps 1000 ms |

## Left out

- Floating point: voltages, currents and powers are exact reals; the rounding of C `float` arithmetic is not modelled.
- `crc16_reflect` (Zephyr library) is not part of this model; it is taken to be the Modbus CRC-16 computed by `u16_calculateCRC`.
- Threads, mutexes, semaphores and sleeps are left out; `meters_reinit` only gives the semaphore, and its effect is the `reinitRequested` input of `Registry.BaseThreadStep`.
- The `k_thread_create` and `k_thread_name_set` calls in `meters_init` are left out.
- Logging is left out.
- The RS-485 transport (`bus485_*`) is not part of this model; its replies are inputs.
- `meters_get_read_func`, the CE318 read function and the Mercury read function are not part of this model. The pass takes "has a read function" and each read's result as inputs, and does not model a read's effect on the context.
- The shell commands, the sample application and the MPU regions are outside the core.
- The infinite loops: `Registry.BaseThreadStep` is one iteration of `meters_baseThread`, and `Scheduler.PollPass` one pass of the polling thread.
- Inputs that make the C code read or write out of bounds are excluded by preconditions:
  - a `recv` count of 0 or 1 (`resp[ret-1]`, `resp[ret-2]`);
  - a trailing lone ESC in `ce318_remove_escape`;
  - a Mercury payload longer than the caller's buffer;
  - a parameter callback returning more than the table size.
- Spm90.GetResponse: requires `2·count + 5 < 0x10000`. The `uint16_t` wrap of `expected` for count ≥ 32766 is not modelled. That wrap lets the -E2BIG check pass; for count 32766 `expected - 2` underflows and the CRC reads far past the buffer. The only caller passes 6.
- Signed `int` shifts of promoted bytes (`rcv[1] << 24`) are modelled as the unsigned arithmetic the code evidently intends; the C undefined behaviour for values of 0x80 and above is not modelled.
- Spm90.Exchange: states only that a successful send leads to 0 or a negative error; the full status is GetResponse's contract, because the function is the glue of two modelled calls.
- Mercury234.Delivered: states only that the buffer keeps its size; what it delivers is stated by Mercury234.Receive and Mercury234.ReceiveFrame.

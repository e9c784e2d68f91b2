/** The SPM90 DC meter over Modbus RTU: one "Read Holding Registers"
    (function 0x03, section 6.3 of the Modbus Application Protocol V1.1b3)
    request for six registers from address 0, the ordered checks on the
    response, the big-endian register decode, the conversion to a DC reading,
    and the per-meter validity and consecutive-failure bookkeeping. */
module Spm90 {
  import opened Wire
  import opened ProtocolUtils
  import opened Bus485
  import opened MeterTypes

  /** SPM90_ERROR_THRESHOLD: consecutive failures a valid meter survives. */
  const ErrorThreshold: u32 := 3

  /** Slave address, function code, CRC: the bytes a response adds to its
      register data (MODBUS_WRAP_SIZE). */
  const WrapSize: nat := 5

  /** The size of the local receive buffer `resp`. */
  const RespSize: nat := 17

  /** Registers requested by `meters_spm90_get_values`. */
  const RegisterCount: nat := 6

  /** Function code "Read Holding Registers". */
  const ReadHoldingRegisters: byte := 0x03

  /** Milliseconds the driver waits for a response. */
  const ResponseTimeoutMs: nat := 3000

  /** A C `uint16_t` parameter receiving a wider unsigned value. */
  function ToU16(x: u32): (r: u16)
    ensures x < 0x1_0000 ==> r == x
  {
    x % 0x1_0000
  }

  /** A receive result the driver can index: a negative error, or at least the
      two CRC bytes (with fewer, `resp[ret - 2]` lies before the buffer), and
      the whole 17-byte buffer. */
  predicate RecvShape(rx: RecvReply) {
    |rx.buffer| == RespSize && rx.count <= RespSize && (rx.count >= 0 ==> rx.count >= 2)
  }

  // ---------------------------------------------------------------------
  // Request

  /** The request frame: address `id`, function 0x03, start register 0,
      six registers, then the Modbus CRC of those six bytes, low byte first. */
  function Request(id: byte): (req: seq<byte>)
    ensures |req| == 8
    ensures req[..6] == [id, ReadHoldingRegisters, 0x00, 0x00, 0x00, 0x06]
  {
    AppendCrc([id, ReadHoldingRegisters, 0x00, 0x00, 0x00, 0x06])
  }

  /** The request carries a valid CRC trailer. */
  lemma RequestHasValidCrc(id: byte)
    ensures HasValidCrc(Request(id))
  {
    AppendCrcIsValid([id, ReadHoldingRegisters, 0x00, 0x00, 0x00, 0x06]);
  }

  // ---------------------------------------------------------------------
  // Response

  /** The response length for `count` registers (`expected`). */
  function Expected(count: nat): nat {
    2 * count + WrapSize
  }

  /** The result of `meters_spm90_get_responce` for `count` registers: the
      first check that fails decides it. The CRC is computed over the first
      `expected - 2` bytes of the buffer, but compared with the two bytes just
      before the end of what was received. */
  function ResponseStatus(id: byte, count: nat, rx: RecvReply): (r: int)
    requires RecvShape(rx)
    ensures r <= 0
    ensures Expected(count) > RespSize ==> r == -E2BIG
  {
    var expected := Expected(count);
    if expected > RespSize then -E2BIG
    else if rx.count < 0 then rx.count
    else if Crc16Reflect(rx.buffer[..expected - 2]) != Le16(rx.buffer[rx.count - 2], rx.buffer[rx.count - 1]) then -EBADMSG
    else if rx.buffer[0] != id then -EADDRNOTAVAIL
    else if rx.buffer[1] != ReadHoldingRegisters then -ENODATA
    else if rx.buffer[2] != 2 * count then -EMSGSIZE
    else 0
  }

  /** Register `i` of a response: big-endian, after the three header bytes. */
  function Register(buffer: seq<byte>, i: nat): u16
    requires 4 + 2 * i < |buffer|
  {
    buffer[3 + 2 * i] as int * 0x100 + buffer[4 + 2 * i] as int
  }

  /** The first `count` registers of a response. */
  function Registers(buffer: seq<byte>, count: nat): (regs: seq<u16>)
    requires 2 * count + 3 <= |buffer|
    ensures |regs| == count
  {
    seq(count, i requires 0 <= i < count => Register(buffer, i))
  }

  /** Registers on the wire: two bytes each, high byte first. */
  function BigEndian(regs: seq<u16>): (bytes: seq<byte>)
    ensures |bytes| == 2 * |regs|
    decreases |regs|
  {
    if regs == [] then [] else [Hi(regs[0]), Lo(regs[0])] + BigEndian(regs[1..])
  }

  /** Register `i` occupies bytes `2i` (high) and `2i + 1` (low). */
  lemma {:induction false} BigEndianAt(regs: seq<u16>, i: nat)
    requires i < |regs|
    ensures BigEndian(regs)[2 * i] == Hi(regs[i]) && BigEndian(regs)[2 * i + 1] == Lo(regs[i])
    decreases i
  {
    if i > 0 {
      BigEndianAt(regs[1..], i - 1);
    }
  }

  /** A response without its CRC: address, function, byte count, data. */
  function ResponseBody(id: byte, regs: seq<u16>): (body: seq<byte>)
    requires |regs| <= 126
    ensures |body| == 3 + 2 * |regs|
    ensures body[0] == id && body[1] == ReadHoldingRegisters && body[2] == 2 * |regs|
    ensures body[3..] == BigEndian(regs)
  {
    var byteCount: byte := 2 * |regs|;
    [id, ReadHoldingRegisters, byteCount] + BigEndian(regs)
  }

  /** The response a meter with address `id` sends for `regs`. */
  function EncodeResponse(id: byte, regs: seq<u16>): (frame: seq<byte>)
    requires |regs| <= 126
    ensures |frame| == Expected(|regs|)
  {
    AppendCrc(ResponseBody(id, regs))
  }

  /** For a frame of exactly the expected length, the checks accept it iff its
      trailer is the little-endian Modbus CRC of the rest and its header names
      the meter, function 0x03 and the byte count. */
  lemma AcceptsExactlyWellFormed(id: byte, count: nat, rx: RecvReply)
    requires RecvShape(rx) && Expected(count) <= RespSize && rx.count == Expected(count)
    ensures ResponseStatus(id, count, rx) == 0 <==>
      HasValidCrc(rx.buffer[..rx.count]) && rx.buffer[0] == id &&
      rx.buffer[1] == ReadHoldingRegisters && rx.buffer[2] == 2 * count
  {
    var frame := rx.buffer[..rx.count];
    assert frame[..|frame| - 2] == rx.buffer[..Expected(count) - 2];
  }

  /** Bytes after a frame do not change its prefix or its bytes. */
  lemma FramePrefix(frame: seq<byte>, stale: seq<byte>, k: nat)
    requires k <= |frame|
    ensures (frame + stale)[..k] == frame[..k]
    ensures forall i :: 0 <= i < |frame| ==> (frame + stale)[i] == frame[i]
  {
  }

  /** The registers of a buffer are `regs` when each one is. */
  lemma RegistersAre(buffer: seq<byte>, regs: seq<u16>)
    requires 2 * |regs| + 3 <= |buffer|
    requires forall i :: 0 <= i < |regs| ==> Register(buffer, i) == regs[i]
    ensures Registers(buffer, |regs|) == regs
  {
  }

  /** A well-formed response is accepted whatever the buffer holds after it. */
  lemma EncodedIsAccepted(id: byte, regs: seq<u16>, stale: seq<byte>)
    requires Expected(|regs|) <= RespSize
    requires |EncodeResponse(id, regs)| + |stale| == RespSize
    ensures ResponseStatus(id, |regs|, RecvReply(Expected(|regs|), EncodeResponse(id, regs) + stale)) == 0
  {
    var body := ResponseBody(id, regs);
    var frame := EncodeResponse(id, regs);
    var buffer := frame + stale;
    var n := |frame|;
    assert buffer[..n] == frame && HasValidCrc(frame) by {
      FramePrefix(frame, stale, n);
      AppendCrcIsValid(body);
    }
    assert buffer[0] == id && buffer[1] == ReadHoldingRegisters && buffer[2] == 2 * |regs| by {
      FramePrefix(frame, stale, n);
      assert frame[..|body|] == body;
      assert frame[0] == body[0] && frame[1] == body[1] && frame[2] == body[2];
    }
    AcceptsExactlyWellFormed(id, |regs|, RecvReply(n, buffer));
  }

  /** Register `i` of a buffer is `x` when its two bytes are those of `x`,
      high byte first. */
  lemma RegisterOfBytes(buffer: seq<byte>, i: nat, x: u16)
    requires 4 + 2 * i < |buffer| && buffer[3 + 2 * i] == Hi(x) && buffer[4 + 2 * i] == Lo(x)
    ensures Register(buffer, i) == x
  {
    JoinSplit(x);
  }

  /** A buffer whose data bytes are the big-endian form of `regs` holds
      those registers. */
  lemma RegistersOfBigEndian(buffer: seq<byte>, regs: seq<u16>)
    requires 3 + 2 * |regs| <= |buffer| && buffer[3..3 + 2 * |regs|] == BigEndian(regs)
    ensures Registers(buffer, |regs|) == regs
  {
    var data := buffer[3..3 + 2 * |regs|];
    forall i | 0 <= i < |regs|
      ensures Register(buffer, i) == regs[i]
    {
      BigEndianAt(regs, i);
      assert buffer[3 + 2 * i] == data[2 * i];
      assert buffer[4 + 2 * i] == data[2 * i + 1];
      RegisterOfBytes(buffer, i, regs[i]);
    }
    RegistersAre(buffer, regs);
  }

  /** A well-formed response decodes to the registers it encodes, whatever
      the buffer holds after it. */
  lemma EncodedRegisters(id: byte, regs: seq<u16>, stale: seq<byte>)
    requires Expected(|regs|) <= RespSize
    requires |EncodeResponse(id, regs)| + |stale| == RespSize
    ensures Registers(EncodeResponse(id, regs) + stale, |regs|) == regs
  {
    var body := ResponseBody(id, regs);
    var frame := EncodeResponse(id, regs);
    var buffer := frame + stale;
    assert buffer[3..|body|] == body[3..] by {
      FramePrefix(frame, stale, |body|);
      assert frame[..|body|] == body;
      assert buffer[3..|body|] == buffer[..|body|][3..];
    }
    RegistersOfBigEndian(buffer, regs);
  }

  /** A well-formed response, followed by whatever the buffer held before, is
      accepted and decodes to the registers it encodes. */
  lemma DecodeEncode(id: byte, regs: seq<u16>, stale: seq<byte>)
    requires Expected(|regs|) <= RespSize
    requires |EncodeResponse(id, regs)| + |stale| == RespSize
    ensures var buffer := EncodeResponse(id, regs) + stale;
      ResponseStatus(id, |regs|, RecvReply(Expected(|regs|), buffer)) == 0 &&
      Registers(buffer, |regs|) == regs
  {
    EncodedIsAccepted(id, regs, stale);
    EncodedRegisters(id, regs, stale);
  }

  /** The decode loop of `meters_spm90_get_responce`: register `i` of the
      response into `buf[i]` for every `i < count`, nothing else changed. */
  method CopyRegisters(resp: array<byte>, buf: array<u16>, count: nat)
    requires 2 * count + 3 <= resp.Length && count <= buf.Length
    modifies buf
    ensures buf[..count] == Registers(resp[..], count)
    ensures buf[count..] == old(buf[count..])
  {
    for i := 0 to count
      invariant forall j :: 0 <= j < i ==> buf[j] == Register(resp[..], j)
      invariant forall j :: i <= j < buf.Length ==> buf[j] == old(buf[j])
    {
      buf[i] := resp[4 + i * 2] as int + resp[3 + i * 2] as int * 0x100;
    }
    assert buf[..count] == Registers(resp[..], count);
    assert buf[count..] == old(buf[count..]);
  }

  /** `meters_spm90_get_responce`: receives into a local 17-byte buffer
      (unless the response could not fit in it), applies the ordered checks,
      and only when all pass writes the `count` decoded registers to `buf`. */
  method GetResponse(ctx: Context, id: byte, buf: array<u16>, count: u16, rx: RecvReply) returns (ret: int)
    requires ctx.bus.locked && count <= buf.Length && Expected(count) < 0x1_0000
    requires RecvShape(rx)
    modifies ctx.bus, buf
    ensures ret == ResponseStatus(id, count, rx)
    ensures ret == 0 ==> buf[..count] == Registers(rx.buffer, count) && buf[count..] == old(buf[count..])
    ensures ret != 0 ==> buf[..] == old(buf[..])
    ensures ctx.bus.locked
    ensures ctx.bus.trace == old(ctx.bus.trace) +
      (if Expected(count) > RespSize then [] else [Received(RespSize, Millis(ResponseTimeoutMs))])
  {
    var expected := 2 * count + WrapSize;
    if expected > RespSize {
      return -E2BIG;
    }
    var resp := new byte[RespSize];
    ret := ctx.bus.Recv(resp, RespSize, Millis(ResponseTimeoutMs), rx);
    if ret < 0 {
      return ret;
    }
    var crc := Crc16Reflect(resp[..expected - 2]);
    var crc1 := resp[ret - 1] as int * 0x100 + resp[ret - 2] as int;
    if crc != crc1 {
      return -EBADMSG;
    }
    if resp[0] != id {
      return -EADDRNOTAVAIL;
    }
    if resp[1] != 0x03 {
      return -ENODATA;
    }
    if count * 2 != resp[2] {
      return -EMSGSIZE;
    }
    CopyRegisters(resp, buf, count);
    return 0;
  }

  // ---------------------------------------------------------------------
  // Reading

  /** The DC reading from the six registers: voltage in 0.1 V, current in
      0.01 A, power in 0.1 W and energy in 10 Wh, the last two as 32-bit
      values split across two registers, high register first; energy is
      converted to watt-seconds in 64 bits. */
  function Decode(regs: seq<u16>): (r: ValuesDC)
    requires |regs| == RegisterCount
    ensures r.energy % 36000 == 0 && r.energy < 36000 * 0x1_0000_0000 < 0x1_0000_0000_0000_0000
    ensures 0.0 <= r.voltage <= 6553.5 && 0.0 <= r.current <= 655.35
  {
    var power100mW := regs[2] as int * 0x1_0000 + regs[3] as int;
    var energy10Wh := regs[4] as int * 0x1_0000 + regs[5] as int;
    ValuesDC(energy10Wh * 10 * 3600, regs[1] as real / 100.0, regs[0] as real / 10.0, power100mW as real / 10.0)
  }

  /** The result of one exchange: the send error, or the response checks. */
  function Exchange(id: byte, replies: BusReplies): (r: int)
    requires RecvShape(replies.recv)
    ensures replies.send >= 0 ==> r <= 0
  {
    if replies.send < 0 then replies.send else ResponseStatus(id, RegisterCount, replies.recv)
  }

  /** The calls `meters_spm90_get_values` makes on the transport. */
  function Session(id: byte, baudrate: u16, replies: BusReplies): seq<Event> {
    var opening := [Locked, BaudrateSet(baudrate), Flushed, Sent(Request(id))];
    if replies.send < 0 then opening + [Released]
    else opening + [Received(RespSize, Millis(ResponseTimeoutMs))] + [Released]
  }

  /** `meters_spm90_get_values`: one locked exchange with the meter. The
      result of setting the baud rate is overwritten and so ignored. The
      shadow reading changes only when the exchange succeeds. */
  method GetValues(ctx: Context, id: u16, baudrate: u16, shadow: ValuesDC, replies: BusReplies)
    returns (ret: int, newShadow: ValuesDC)
    requires !ctx.bus.locked && RecvShape(replies.recv)
    modifies ctx.bus
    ensures ret == Exchange(Lo(id), replies)
    ensures ret == 0 ==> newShadow == Decode(Registers(replies.recv.buffer, RegisterCount))
    ensures ret != 0 ==> newShadow == shadow
    ensures !ctx.bus.locked && ctx.bus.trace == old(ctx.bus.trace) + Session(Lo(id), baudrate, replies)
  {
    newShadow := shadow;
    var req := Request(Lo(id));
    var registers := new u16[RegisterCount](_ => 0);
    ghost var before := ctx.bus.trace;
    ctx.bus.Lock();
    ret := ctx.bus.SetBaudrate(baudrate, replies.baudrate);
    ctx.bus.Flush();
    ret := ctx.bus.Send(req, replies.send);
    ghost var opening := [Locked, BaudrateSet(baudrate), Flushed, Sent(req)];
    Record4(before, Locked, BaudrateSet(baudrate), Flushed, Sent(req));
    if ret < 0 {
      ctx.bus.Release();
      Regroup(before, opening, [Released]);
      return;
    }
    ret := GetResponse(ctx, Lo(id), registers, RegisterCount, replies.recv);
    if ret == 0 {
      assert registers[..] == registers[..RegisterCount];
      newShadow := Decode(registers[..]);
    }
    Regroup(before, opening, [Received(RespSize, Millis(ResponseTimeoutMs))]);
    ctx.bus.Release();
    Regroup(before, opening + [Received(RespSize, Millis(ResponseTimeoutMs))], [Released]);
  }

  /** A successful read: the counter restarts, the values become valid, are
      stamped with the time and take the DC view of the shadow. */
  function AfterSuccess(item: Item, now: u32): (r: Item)
    ensures r.isValidValues && r.badResponseCount == 0 && r.timemark == now
    ensures r.values == item.values.(payload := DcPayload(item.shadow))
    ensures r.shadow == item.shadow && r.errorTimemark == item.errorTimemark
  {
    item.(badResponseCount := 0, isValidValues := true, timemark := now,
          values := item.values.(payload := DcPayload(item.shadow)))
  }

  /** A failed read: only a valid meter counts the failure, and it becomes
      invalid once the counter passes the threshold. */
  function AfterFailure(item: Item): (r: Item)
    ensures !item.isValidValues ==> r == item
    ensures item.isValidValues ==> r.badResponseCount == Inc32(item.badResponseCount)
    ensures r.isValidValues <==> item.isValidValues && Inc32(item.badResponseCount) <= ErrorThreshold
    ensures r.values == item.values && r.shadow == item.shadow && r.timemark == item.timemark
  {
    if item.isValidValues then
      var counted := item.(badResponseCount := Inc32(item.badResponseCount));
      if counted.badResponseCount > ErrorThreshold then counted.(isValidValues := false) else counted
    else item
  }

  /** The item after `meters_spm90_read` with configuration `param`, at time
      `now`, given what the transport answers. */
  function ReadItem(item: Item, param: Parameters, replies: BusReplies, now: u32): (r: Item)
    requires RecvShape(replies.recv)
    ensures Exchange(Lo(ToU16(param.address)), replies) == 0 ==>
      r.isValidValues && r.badResponseCount == 0 && r.timemark == now &&
      r.shadow == Decode(Registers(replies.recv.buffer, RegisterCount)) &&
      r.values == item.values.(payload := DcPayload(r.shadow))
    ensures Exchange(Lo(ToU16(param.address)), replies) != 0 ==>
      r.values == item.values && r.timemark == item.timemark &&
      (r.isValidValues <==> item.isValidValues && Inc32(item.badResponseCount) <= ErrorThreshold)
  {
    var id := Lo(ToU16(param.address));
    if Exchange(id, replies) == 0 then
      AfterSuccess(item.(shadow := Decode(Registers(replies.recv.buffer, RegisterCount))), now)
    else AfterFailure(item)
  }

  /** `meters_spm90_read`: polls meter `itemIdx` with its configured address
      and baud rate (both passed through `uint16_t`), updates that item and
      no other, and always returns 0. `now` is `k_uptime_get_32()`. */
  method Read(ctx: Context, itemIdx: u32, now: u32, replies: BusReplies) returns (ret: int)
    requires ctx.Valid() && itemIdx < ctx.items.Length
    requires !ctx.bus.locked && RecvShape(replies.recv)
    modifies ctx.bus, ctx.items
    ensures ret == 0
    ensures ctx.items[..] == old(ctx.items[..])[itemIdx := ReadItem(old(ctx.items[itemIdx]), ctx.parameters[itemIdx], replies, now)]
    ensures !ctx.bus.locked
    ensures ctx.bus.trace == old(ctx.bus.trace) +
      Session(Lo(ToU16(ctx.parameters[itemIdx].address)), ToU16(ctx.parameters[itemIdx].baudrate), replies)
  {
    var item := ctx.items[itemIdx];
    var param := ctx.parameters[itemIdx];
    ghost var expected := ReadItem(item, param, replies, now);
    var shadow;
    ret, shadow := GetValues(ctx, ToU16(param.address), ToU16(param.baudrate), item.shadow, replies);
    item := item.(shadow := shadow);
    if ret == 0 {
      item := item.(badResponseCount := 0);
      item := item.(isValidValues := true, timemark := now, values := item.values.(payload := DcPayload(item.shadow)));
    } else {
      if item.isValidValues {
        item := item.(badResponseCount := Inc32(item.badResponseCount));
        if item.badResponseCount > ErrorThreshold {
          item := item.(isValidValues := false);
        }
      }
    }
    assert item == expected;
    ctx.items[itemIdx] := item;
    ret := 0;
  }

  /** `meters_spm90_init`: an index outside the registered meters gives
      -ERANGE and changes nothing; otherwise that meter's counter is set to the
      threshold and the result is 0. */
  method Init(ctx: Context, itemIdx: u32) returns (ret: int)
    requires ctx.Valid()
    modifies ctx.items
    ensures itemIdx >= ctx.itemCount ==> ret == -ERANGE && ctx.items[..] == old(ctx.items[..])
    ensures itemIdx < ctx.itemCount ==>
      ret == 0 &&
      ctx.items[..] == old(ctx.items[..])[itemIdx := old(ctx.items[itemIdx]).(badResponseCount := ErrorThreshold)]
  {
    if itemIdx >= ctx.itemCount {
      return -ERANGE;
    }
    ctx.items[itemIdx] := ctx.items[itemIdx].(badResponseCount := ErrorThreshold);
    return 0;
  }

  // ---------------------------------------------------------------------
  // Properties of the bookkeeping

  /** `k` failed reads in a row. */
  function Failures(item: Item, k: nat): Item
    decreases k
  {
    if k == 0 then item else Failures(AfterFailure(item), k - 1)
  }

  /** An invalid meter is left exactly as it is by failed reads. */
  lemma {:induction false} InvalidIsStable(item: Item, k: nat)
    requires !item.isValidValues
    ensures Failures(item, k) == item
    decreases k
  {
    if k > 0 {
      InvalidIsStable(AfterFailure(item), k - 1);
    }
  }

  /** A valid meter whose counter is `c` (at most the threshold) stays valid
      through `k` consecutive failures exactly when `c + k` does not pass the
      threshold. */
  lemma {:induction false} FailuresInvalidate(item: Item, k: nat)
    requires item.isValidValues && item.badResponseCount <= ErrorThreshold
    ensures Failures(item, k).isValidValues <==> item.badResponseCount + k <= ErrorThreshold
    decreases k
  {
    if k > 0 {
      var next := AfterFailure(item);
      if next.isValidValues {
        FailuresInvalidate(next, k - 1);
      } else {
        InvalidIsStable(next, k - 1);
      }
    }
  }

  /** After a successful read a meter survives three failed reads and is
      marked invalid by the fourth. */
  lemma SurvivesThreeFailures(item: Item, now: u32)
    ensures Failures(AfterSuccess(item, now), 3).isValidValues
    ensures !Failures(AfterSuccess(item, now), 4).isValidValues
  {
    FailuresInvalidate(AfterSuccess(item, now), 3);
    FailuresInvalidate(AfterSuccess(item, now), 4);
  }

  /** End to end: when a meter answers the request with the response for
      `regs` (whatever the buffer held after it), the exchange succeeds and
      the shadow reading is the decoding of exactly those registers. */
  lemma ExchangeDecodes(id: byte, regs: seq<u16>, stale: seq<byte>, replies: BusReplies)
    requires |regs| == RegisterCount && |stale| == RespSize - Expected(RegisterCount)
    requires replies.send >= 0 && replies.recv == RecvReply(RespSize, EncodeResponse(id, regs) + stale)
    ensures RecvShape(replies.recv) && Exchange(id, replies) == 0
    ensures Decode(Registers(replies.recv.buffer, RegisterCount)) == Decode(regs)
  {
    DecodeEncode(id, regs, stale);
  }

  /** The scaling of the six registers: 0.1 V, 0.01 A, 0.1 W and 10 Wh. */
  lemma DecodeSample()
    ensures Decode([1203, 200, 0, 776, 0, 35]) == ValuesDC(1260000, 2.0, 120.3, 77.6)
  {
  }
}

/** The Mercury-234 three-phase meter: a request is the meter address, the
    command bytes and the Modbus CRC; a response is the address, the payload
    and the CRC. On top of that framing: the session commands (ping, open,
    close) and the decoders of the energy, power, voltage and current
    answers. */
module Mercury234 {
  import opened Wire
  import opened ProtocolUtils
  import opened Bus485
  import opened MeterTypes

  /** MERCURY_ERROR_THRESHOLD. */
  const ErrorThreshold: u32 := 3

  /** The size of the local `query` buffer of `meters_mercury_send`. */
  const QuerySize: nat := 24

  /** The size of the local `resp` buffer of `meters_mercury_receive`. */
  const RespSize: nat := 32

  // Command payloads.
  const PingCommand: seq<byte> := [0x00]
  /** Open a session at access level 1 with the default password "111111". */
  const ConnectCommand: seq<byte> := [0x01, 0x01, 0x31, 0x31, 0x31, 0x31, 0x31, 0x31]
  const DisconnectCommand: seq<byte> := [0x02]
  /** Active and reactive energy since reset, sum of tariffs. */
  const EnergyCommand: seq<byte> := [0x05, 0x00, 0x00]
  /** Instantaneous active power, sum of phases. */
  const PowerCommand: seq<byte> := [0x08, 0x11, 0x00]
  /** Instantaneous voltage of every phase. */
  const VoltageCommand: seq<byte> := [0x08, 0x16, 0x11]
  /** Instantaneous current of every phase. */
  const CurrentCommand: seq<byte> := [0x08, 0x16, 0x21]

  // ---------------------------------------------------------------------
  // Framing

  /** The frame for `data` sent to `address`: the address, the data, then the
      Modbus CRC of both, low byte first. */
  function Frame(address: byte, data: seq<byte>): (frame: seq<byte>)
    ensures |frame| == |data| + 3 && frame[0] == address && frame[1..|data| + 1] == data
  {
    var frame := AppendCrc([address] + data);
    assert frame[1..|data| + 1] == frame[..|data| + 1][1..];
    frame
  }

  /** The frame carries a valid CRC trailer. */
  lemma FrameHasValidCrc(address: byte, data: seq<byte>)
    ensures HasValidCrc(Frame(address, data))
  {
    AppendCrcIsValid([address] + data);
  }

  /** What `meters_mercury_send` hands to the transport: the address and the
      data, `count = length + 1` bytes. */
  function Transmitted(address: byte, data: seq<byte>): seq<byte> {
    [address] + data
  }

  /** The bytes transmitted are the frame without its CRC: the trailer is
      computed and stored but never sent. */
  lemma TransmittedLacksCrc(address: byte, data: seq<byte>)
    ensures Transmitted(address, data) == Frame(address, data)[..|data| + 1]
    ensures |Frame(address, data)| == |Transmitted(address, data)| + 2
  {
  }

  /** Lines 14-22 of `meters_mercury_send`: the zeroed 24-byte `query` with
      the address, the data and the CRC of both. */
  method BuildQuery(address: byte, data: seq<byte>) returns (query: array<byte>)
    requires |data| + 3 <= QuerySize
    ensures fresh(query) && query.Length == QuerySize
    ensures query[..|data| + 3] == Frame(address, data)
    ensures forall i :: |data| + 3 <= i < QuerySize ==> query[i] == 0
  {
    query := new byte[QuerySize](_ => 0);
    query[0] := address;
    forall i | 0 <= i < |data| {
      query[1 + i] := data[i];
    }
    var count := |data| + 1;
    ghost var head := query[..count];
    assert head == [address] + data;
    assert forall i :: count <= i < QuerySize ==> query[i] == 0;
    var crc := Crc16Reflect(query[..count]);
    query[count] := Lo(crc);
    query[count + 1] := Hi(crc);
    assert query[..count + 2] == head + [Lo(crc), Hi(crc)] by {
      assert query[..count] == head;
    }
  }

  /** The result of `meters_mercury_send`. */
  function SendStatus(replies: BusReplies): int {
    if replies.baudrate < 0 then replies.baudrate
    else if replies.send < 0 then replies.send
    else 0
  }

  /** The calls `meters_mercury_send` makes on the transport: on success the
      bus is left held for the receive. */
  function SendTrace(address: byte, baudrate: u32, data: seq<byte>, replies: BusReplies): seq<Event> {
    if replies.baudrate < 0 then [Locked, BaudrateSet(baudrate), Released]
    else if replies.send < 0 then [Locked, BaudrateSet(baudrate), Flushed, Sent(Transmitted(address, data)), Released]
    else [Locked, BaudrateSet(baudrate), Flushed, Sent(Transmitted(address, data))]
  }

  /** `meters_mercury_send`: takes the bus, sets the baud rate, flushes and
      sends; any failure releases the bus and is returned, success keeps the
      bus held. */
  method Send(ctx: Context, address: byte, baudrate: u32, data: seq<byte>, replies: BusReplies) returns (ret: int)
    requires !ctx.bus.locked && |data| + 3 <= QuerySize
    modifies ctx.bus
    ensures ret == SendStatus(replies)
    ensures ctx.bus.locked <==> ret == 0
    ensures ctx.bus.trace == old(ctx.bus.trace) + SendTrace(address, baudrate, data, replies)
  {
    var query := BuildQuery(address, data);
    var count := |data| + 1;
    assert query[..count] == Transmitted(address, data) by {
      assert query[..count] == query[..|data| + 3][..count];
    }
    ghost var before := ctx.bus.trace;
    ctx.bus.Lock();
    ret := ctx.bus.SetBaudrate(baudrate, replies.baudrate);
    if ret < 0 {
      ctx.bus.Release();
      Record3(before, Locked, BaudrateSet(baudrate), Released);
      return;
    }
    ctx.bus.Flush();
    ret := ctx.bus.Send(query[..count], replies.send);
    Record4(before, Locked, BaudrateSet(baudrate), Flushed, Sent(query[..count]));
    if ret < 0 {
      ctx.bus.Release();
      Regroup(before, [Locked, BaudrateSet(baudrate), Flushed, Sent(query[..count])], [Released]);
      return;
    }
    ret := 0;
  }

  /** A receive result the driver can index: a negative error or at least the
      two CRC bytes, and the whole 32-byte buffer. */
  predicate RecvShape(rx: RecvReply) {
    |rx.buffer| == RespSize && rx.count <= RespSize && (rx.count >= 0 ==> rx.count >= 2)
  }

  /** The result of `meters_mercury_receive`: the transport error, -EBADMSG
      on a CRC mismatch, -EXDEV from the address test, or the payload
      length. The address test is `resp[0] != 0 || resp[0] != address`, as
      written. */
  function ReceiveStatus(address: byte, rx: RecvReply): (r: int)
    requires RecvShape(rx)
    ensures r < 0 || r == rx.count - 3
  {
    if rx.count < 0 then rx.count
    else if Crc16Reflect(rx.buffer[..rx.count - 2]) != Le16(rx.buffer[rx.count - 2], rx.buffer[rx.count - 1]) then -EBADMSG
    else if rx.buffer[0] != 0 || rx.buffer[0] != address then -EXDEV
    else rx.count - 3
  }

  /** The payload of an accepted response fits the caller's buffer; the
      driver never compares the two (`rcv_length` is unused). */
  predicate Fits(address: byte, rx: RecvReply, capacity: nat)
    requires RecvShape(rx)
  {
    ReceiveStatus(address, rx) <= capacity
  }

  /** The address test as written: a response with a valid CRC is rejected
      with -EXDEV whenever the configured address is not 0, and for address 0
      exactly when its first byte is not 0. */
  lemma AddressCheckAsWritten(address: byte, rx: RecvReply)
    requires RecvShape(rx) && rx.count >= 0 && HasValidCrc(rx.buffer[..rx.count])
    ensures address != 0 ==> ReceiveStatus(address, rx) == -EXDEV
    ensures address == 0 ==> (ReceiveStatus(address, rx) == -EXDEV <==> rx.buffer[0] != 0)
  {
    var frame := rx.buffer[..rx.count];
    assert frame[..|frame| - 2] == rx.buffer[..rx.count - 2];
  }

  /** A response is accepted iff it is a frame with a valid CRC, the
      configured address is 0 and the response names address 0; an accepted
      response carries at least the address and the CRC. */
  lemma AcceptedExactly(address: byte, rx: RecvReply)
    requires RecvShape(rx)
    ensures ReceiveStatus(address, rx) >= 0 <==>
      rx.count >= 0 && HasValidCrc(rx.buffer[..rx.count]) && address == 0 && rx.buffer[0] == 0
    ensures ReceiveStatus(address, rx) >= 0 ==> rx.count >= 3
  {
    if rx.count >= 0 {
      var frame := rx.buffer[..rx.count];
      assert frame[..|frame| - 2] == rx.buffer[..rx.count - 2];
      if rx.count == 2 {
        assert rx.buffer[..0] == [];
        Crc16IsLeftFold([], 0);
        SplitJoin(rx.buffer[0], rx.buffer[1]);
      }
    }
  }

  /** A meter at address 0 answering `payload` in a proper frame is accepted
      and delivers exactly `payload`, whatever the buffer holds after it. */
  lemma ReceiveFrame(payload: seq<byte>, stale: seq<byte>, rx: RecvReply)
    requires |payload| + 3 + |stale| == RespSize
    requires rx == RecvReply(|payload| + 3, Frame(0, payload) + stale)
    ensures RecvShape(rx) && ReceiveStatus(0, rx) == |payload|
    ensures rx.buffer[1..|payload| + 1] == payload
  {
    var frame := Frame(0, payload);
    assert RecvShape(rx);
    assert HasValidCrc(rx.buffer[..rx.count]) by {
      assert rx.buffer[..rx.count] == frame;
      FrameHasValidCrc(0, payload);
    }
    assert rx.buffer[0] == 0 by {
      assert rx.buffer[0] == frame[0];
    }
    assert ReceiveStatus(0, rx) >= 0 by {
      AcceptedExactly(0, rx);
    }
    assert rx.buffer[1..|payload| + 1] == payload by {
      SliceOfPrefix(frame, stale, 1, |payload| + 1);
    }
  }

  /** Bytes after a frame do not change a slice of it. */
  lemma SliceOfPrefix(frame: seq<byte>, stale: seq<byte>, i: nat, j: nat)
    requires i <= j <= |frame|
    ensures (frame + stale)[i..j] == frame[i..j]
  {
  }

  /** `meters_mercury_receive` with the bus held: receives, releases the bus
      on every path, checks the response and copies its payload to the front
      of `data`. */
  method Receive(ctx: Context, address: byte, data: array<byte>, length: u32, rx: RecvReply) returns (ret: int)
    requires ctx.bus.locked && RecvShape(rx) && Fits(address, rx, data.Length)
    modifies ctx.bus, data
    ensures ret == ReceiveStatus(address, rx)
    ensures !ctx.bus.locked
    ensures ctx.bus.trace == old(ctx.bus.trace) + [Received(RespSize, ConfiguredResponseTimeout), Released]
    ensures data[..] == Delivered(address, rx, old(data[..]))
  {
    var resp := new byte[RespSize];
    ret := ctx.bus.Recv(resp, RespSize, ConfiguredResponseTimeout, rx);
    if ret < 0 {
      ctx.bus.Release();
      return;
    }
    ctx.bus.Release();
    var crc := Crc16Reflect(resp[..ret - 2]);
    var crc1 := Le16(resp[ret - 2], resp[ret - 1]);
    if crc != crc1 {
      return -EBADMSG;
    }
    if resp[0] != 0 || resp[0] != address {
      return -EXDEV;
    }
    AcceptedExactly(address, rx);
    forall i | 0 <= i < ret - 3 {
      data[i] := resp[1 + i];
    }
    ret := ret - 3;
  }

  /** The receive buffer after a response: the payload over its first bytes
      when accepted, the old contents otherwise. */
  function Delivered(address: byte, rx: RecvReply, old_: seq<byte>): (r: seq<byte>)
    requires RecvShape(rx) && Fits(address, rx, |old_|)
    ensures |r| == |old_|
  {
    var n := ReceiveStatus(address, rx);
    if n >= 0 then
      AcceptedExactly(address, rx);
      rx.buffer[1..n + 1] + old_[n..]
    else old_
  }

  /** The result of `meters_mercury_request`. */
  function RequestStatus(address: byte, replies: BusReplies): int
    requires RecvShape(replies.recv)
  {
    if SendStatus(replies) < 0 then SendStatus(replies) else ReceiveStatus(address, replies.recv)
  }

  /** The calls one request makes on the transport. */
  function RequestTrace(address: byte, baudrate: u32, data: seq<byte>, replies: BusReplies): seq<Event> {
    if SendStatus(replies) < 0 then SendTrace(address, baudrate, data, replies)
    else SendTrace(address, baudrate, data, replies) + [Received(RespSize, ConfiguredResponseTimeout), Released]
  }

  /** Every request is one session: the bus is taken once, first, and
      released once, last. */
  lemma RequestIsBalanced(address: byte, baudrate: u32, data: seq<byte>, replies: BusReplies)
    ensures Balanced(RequestTrace(address, baudrate, data, replies))
  {
    var t := RequestTrace(address, baudrate, data, replies);
    if SendStatus(replies) >= 0 {
      assert t == [Locked, BaudrateSet(baudrate), Flushed, Sent(Transmitted(address, data)),
                   Received(RespSize, ConfiguredResponseTimeout), Released];
    }
  }

  /** Whether the request's receive buffer `rcv` gets the payload. */
  predicate RequestFits(address: byte, replies: BusReplies, capacity: nat)
    requires RecvShape(replies.recv)
  {
    SendStatus(replies) < 0 || Fits(address, replies.recv, capacity)
  }

  /** The receive buffer after a request. */
  function RequestDelivered(address: byte, replies: BusReplies, old_: seq<byte>): (r: seq<byte>)
    requires RecvShape(replies.recv) && RequestFits(address, replies, |old_|)
    ensures |r| == |old_|
  {
    if SendStatus(replies) < 0 then old_ else Delivered(address, replies.recv, old_)
  }

  /** `meters_mercury_request`: send, then receive; the first error is
      returned, otherwise the payload length. The bus is released on every
      path. */
  method Request(ctx: Context, address: byte, baudrate: u32, reqData: seq<byte>,
                 rcv: array<byte>, rcvLength: u32, replies: BusReplies) returns (ret: int)
    requires !ctx.bus.locked && |reqData| + 3 <= QuerySize
    requires RecvShape(replies.recv) && RequestFits(address, replies, rcv.Length)
    modifies ctx.bus, rcv
    ensures ret == RequestStatus(address, replies)
    ensures !ctx.bus.locked
    ensures ctx.bus.trace == old(ctx.bus.trace) + RequestTrace(address, baudrate, reqData, replies)
    ensures rcv[..] == RequestDelivered(address, replies, old(rcv[..]))
  {
    ghost var before := ctx.bus.trace;
    ret := Send(ctx, address, baudrate, reqData, replies);
    if ret < 0 {
      return;
    }
    ret := Receive(ctx, address, rcv, rcvLength, replies.recv);
    Regroup(before, SendTrace(address, baudrate, reqData, replies), [Received(RespSize, ConfiguredResponseTimeout), Released]);
  }

  // ---------------------------------------------------------------------
  // Session commands

  /** The result of ping, connect and disconnect: the request error, or
      -EPROTO unless the first byte of the receive buffer is 0. */
  function CommandStatus(address: byte, replies: BusReplies, stale: byte): (r: int)
    requires RecvShape(replies.recv) && RequestFits(address, replies, 1)
  {
    var ret := RequestStatus(address, replies);
    if ret < 0 then ret
    else if RequestDelivered(address, replies, [stale])[0] != 0 then -EPROTO
    else 0
  }

  /** A command succeeds iff the request succeeds and the meter's first
      payload byte is 0 (the buffer's old byte when the payload is empty);
      request errors are passed through unchanged. */
  lemma CommandOutcome(address: byte, replies: BusReplies, stale: byte)
    requires RecvShape(replies.recv) && RequestFits(address, replies, 1)
    ensures RequestStatus(address, replies) < 0 ==> CommandStatus(address, replies, stale) == RequestStatus(address, replies)
    ensures RequestStatus(address, replies) == 1 ==>
      (CommandStatus(address, replies, stale) == 0 <==> replies.recv.buffer[1] == 0)
    ensures RequestStatus(address, replies) == 0 ==>
      (CommandStatus(address, replies, stale) == 0 <==> stale == 0)
    ensures CommandStatus(address, replies, stale) == 0 || CommandStatus(address, replies, stale) == -EPROTO ||
      CommandStatus(address, replies, stale) == RequestStatus(address, replies) < 0
  {
    if RequestStatus(address, replies) >= 0 {
      var n := RequestStatus(address, replies);
      assert RequestDelivered(address, replies, [stale]) == replies.recv.buffer[1..n + 1] + [stale][n..];
    }
  }

  /** A command on the bus: sends `command`, expects one acknowledgement
      byte. `stale` is what the one-byte `rcv` held before. */
  method Command(ctx: Context, address: byte, baudrate: u32, command: seq<byte>, replies: BusReplies, stale: byte)
    returns (ret: int)
    requires !ctx.bus.locked && |command| + 3 <= QuerySize
    requires RecvShape(replies.recv) && RequestFits(address, replies, 1)
    modifies ctx.bus
    ensures ret == CommandStatus(address, replies, stale)
    ensures !ctx.bus.locked
    ensures ctx.bus.trace == old(ctx.bus.trace) + RequestTrace(address, baudrate, command, replies)
  {
    var rcv := new byte[1](_ => stale);
    ret := Request(ctx, address, baudrate, command, rcv, 1, replies);
    if ret < 0 {
      return;
    }
    if rcv[0] != 0x00 {
      return -EPROTO;
    }
    ret := 0;
  }

  /** `meters_mercury_ping`: the link test. */
  method Ping(ctx: Context, address: byte, baudrate: u32, replies: BusReplies, stale: byte) returns (ret: int)
    requires !ctx.bus.locked && RecvShape(replies.recv) && RequestFits(address, replies, 1)
    modifies ctx.bus
    ensures ret == CommandStatus(address, replies, stale)
    ensures !ctx.bus.locked
    ensures ctx.bus.trace == old(ctx.bus.trace) + RequestTrace(address, baudrate, PingCommand, replies)
  {
    ret := Command(ctx, address, baudrate, PingCommand, replies, stale);
  }

  /** `meters_mercury_connect`: opens a read-level session with the default
      password. */
  method Connect(ctx: Context, address: byte, baudrate: u32, replies: BusReplies, stale: byte) returns (ret: int)
    requires !ctx.bus.locked && RecvShape(replies.recv) && RequestFits(address, replies, 1)
    modifies ctx.bus
    ensures ret == CommandStatus(address, replies, stale)
    ensures !ctx.bus.locked
    ensures ctx.bus.trace == old(ctx.bus.trace) + RequestTrace(address, baudrate, ConnectCommand, replies)
  {
    ret := Command(ctx, address, baudrate, ConnectCommand, replies, stale);
  }

  /** `meters_mercury_disconnect`: closes the session. */
  method Disconnect(ctx: Context, address: byte, baudrate: u32, replies: BusReplies, stale: byte) returns (ret: int)
    requires !ctx.bus.locked && RecvShape(replies.recv) && RequestFits(address, replies, 1)
    modifies ctx.bus
    ensures ret == CommandStatus(address, replies, stale)
    ensures !ctx.bus.locked
    ensures ctx.bus.trace == old(ctx.bus.trace) + RequestTrace(address, baudrate, DisconnectCommand, replies)
  {
    ret := Command(ctx, address, baudrate, DisconnectCommand, replies, stale);
  }

  // ---------------------------------------------------------------------
  // Decoders

  /** The energy answer in watt-hours: bytes 1, 0, 3, 2, most significant
      first. */
  function EnergyWh(rcv: seq<byte>): (r: u32)
    requires |rcv| >= 4
    ensures r / 0x100_0000 == rcv[1] && r % 0x100 == rcv[2]
  {
    rcv[1] as int * 0x100_0000 + rcv[0] as int * 0x1_0000 + rcv[3] as int * 0x100 + rcv[2] as int
  }

  /** The bytes a meter sends for `wh` watt-hours. */
  function EnergyBytes(wh: u32): (b: seq<byte>)
    ensures |b| == 4
  {
    var hi, lo := wh / 0x1_0000, wh % 0x1_0000;
    [hi % 0x100, hi / 0x100, lo % 0x100, lo / 0x100]
  }

  /** Decoding the bytes of a count gives the count back. */
  lemma EnergyRoundTrip(wh: u32)
    ensures EnergyWh(EnergyBytes(wh)) == wh
  {
    var hi, lo := wh / 0x1_0000, wh % 0x1_0000;
    assert hi == (hi / 0x100) * 0x100 + hi % 0x100;
    assert lo == (lo / 0x100) * 0x100 + lo % 0x100;
  }

  /** `energy_wh * 3600` in `uint32_t`, then widened: watt-seconds modulo
      2^32. */
  function EnergyActive(rcv: seq<byte>): (r: u64)
    requires |rcv| >= 4
    ensures r < 0x1_0000_0000
  {
    (EnergyWh(rcv) as int * 3600) % 0x1_0000_0000
  }

  /** The conversion is exact iff the product fits in 32 bits, i.e. up to
      1 193 046 Wh; above that it wraps. */
  lemma EnergyExactIff(rcv: seq<byte>)
    requires |rcv| >= 4
    ensures EnergyActive(rcv) == EnergyWh(rcv) * 3600 <==> EnergyWh(rcv) <= 1_193_046
  {
    var wh: int := EnergyWh(rcv);
    if wh <= 1_193_046 {
      assert wh * 3600 <= 1_193_046 * 3600;
    } else {
      assert wh * 3600 >= 1_193_047 * 3600;
    }
  }

  /** The power answer in units of 10 mW: the low six bits of byte 0, then
      bytes 2 and 1. */
  function PowerRaw(rcv: seq<byte>): (r: nat)
    requires |rcv| >= 3
    ensures r < 0x40_0000
  {
    (rcv[0] as int % 0x40) * 0x1_0000 + rcv[2] as int * 0x100 + rcv[1] as int
  }

  /** The bytes of a power value; the two top bits of byte 0 carry the
      direction flags and are set to `flags`. */
  function PowerBytes(p: nat, flags: nat): (b: seq<byte>)
    requires p < 0x40_0000 && flags < 4
    ensures |b| == 3
  {
    var lo := p % 0x1_0000;
    [flags * 0x40 + p / 0x1_0000, lo % 0x100, lo / 0x100]
  }

  /** The decoder ignores the flag bits and gives the power back. */
  lemma PowerRoundTrip(p: nat, flags: nat)
    requires p < 0x40_0000 && flags < 4
    ensures PowerRaw(PowerBytes(p, flags)) == p
  {
    var b := PowerBytes(p, flags);
    var hi, lo := p / 0x1_0000, p % 0x1_0000;
    assert p == hi * 0x1_0000 + lo && hi < 0x40;
    assert b[0] % 0x40 == hi by {
      if flags == 0 {
      } else if flags == 1 {
      } else if flags == 2 {
      } else {
      }
    }
    assert lo == (lo / 0x100) * 0x100 + lo % 0x100;
  }

  /** Phase `i` of a voltage or current answer: bytes 3i, 3i+2, 3i+1, most
      significant first. */
  function PhaseRaw(rcv: seq<byte>, i: nat): (r: nat)
    requires i < 3 && |rcv| >= 9
    ensures r < 0x100_0000
  {
    rcv[3 * i] as int * 0x1_0000 + rcv[3 * i + 2] as int * 0x100 + rcv[3 * i + 1] as int
  }

  /** The bytes of three phase values. */
  function PhaseBytes(v: seq<nat>): (b: seq<byte>)
    requires |v| == 3 && forall i :: 0 <= i < 3 ==> v[i] < 0x100_0000
    ensures |b| == 9
  {
    Phase3(v[0]) + Phase3(v[1]) + Phase3(v[2])
  }

  /** The three bytes of one phase value: high, low, middle. */
  function Phase3(x: nat): (b: seq<byte>)
    requires x < 0x100_0000
    ensures |b| == 3
  {
    var lo := x % 0x1_0000;
    [x / 0x1_0000, lo % 0x100, lo / 0x100]
  }

  /** Each phase decodes from its own three bytes. */
  lemma PhaseRoundTrip(v: seq<nat>, i: nat)
    requires |v| == 3 && forall k :: 0 <= k < 3 ==> v[k] < 0x100_0000
    requires i < 3
    ensures PhaseRaw(PhaseBytes(v), i) == v[i]
  {
    var b := PhaseBytes(v);
    var x := v[i];
    assert b[3 * i..3 * i + 3] == Phase3(x);
    var lo := x % 0x1_0000;
    assert lo == (lo / 0x100) * 0x100 + lo % 0x100;
  }

  /** The scaled value of each phase. */
  function Phases(rcv: seq<byte>, scale: real): (r: seq<real>)
    requires |rcv| >= 9 && scale > 0.0
    ensures |r| == 3 && forall i :: 0 <= i < 3 ==> r[i] == PhaseRaw(rcv, i) as real / scale
  {
    [PhaseRaw(rcv, 0) as real / scale, PhaseRaw(rcv, 1) as real / scale, PhaseRaw(rcv, 2) as real / scale]
  }

  /** The result of a reading: the request error, otherwise 0. */
  function ReadStatus(address: byte, replies: BusReplies): (r: int)
    requires RecvShape(replies.recv)
    ensures r <= 0 && (r == 0 <==> RequestStatus(address, replies) >= 0)
    ensures r < 0 ==> r == RequestStatus(address, replies)
  {
    var ret := RequestStatus(address, replies);
    if ret < 0 then ret else 0
  }

  /** `meters_mercury_get_energy`: on success the active energy in
      watt-seconds, wrapped to 32 bits; otherwise `energy` is kept. `stale`
      is what the 16-byte `rcv` held before. */
  method GetEnergy(ctx: Context, address: byte, baudrate: u32, energy: u64, replies: BusReplies, stale: seq<byte>)
    returns (ret: int, newEnergy: u64)
    requires !ctx.bus.locked && |stale| == 16
    requires RecvShape(replies.recv) && RequestFits(address, replies, 16)
    modifies ctx.bus
    ensures ret == ReadStatus(address, replies)
    ensures ret == 0 ==> newEnergy == EnergyActive(RequestDelivered(address, replies, stale))
    ensures ret != 0 ==> newEnergy == energy
    ensures !ctx.bus.locked
    ensures ctx.bus.trace == old(ctx.bus.trace) + RequestTrace(address, baudrate, EnergyCommand, replies)
  {
    newEnergy := energy;
    var rcv := new byte[16](i requires 0 <= i < 16 => stale[i]);
    assert rcv[..] == stale;
    ret := Request(ctx, address, baudrate, EnergyCommand, rcv, 16, replies);
    if ret < 0 {
      return;
    }
    newEnergy := EnergyActive(rcv[..]);
    ret := 0;
  }

  /** `meters_mercury_get_power`: on success the active power in watts;
      otherwise `power` is kept. */
  method GetPower(ctx: Context, address: byte, baudrate: u32, power: real, replies: BusReplies, stale: seq<byte>)
    returns (ret: int, newPower: real)
    requires !ctx.bus.locked && |stale| == 3
    requires RecvShape(replies.recv) && RequestFits(address, replies, 3)
    modifies ctx.bus
    ensures ret == ReadStatus(address, replies)
    ensures ret == 0 ==> newPower == PowerRaw(RequestDelivered(address, replies, stale)) as real / 100.0
    ensures ret != 0 ==> newPower == power
    ensures !ctx.bus.locked
    ensures ctx.bus.trace == old(ctx.bus.trace) + RequestTrace(address, baudrate, PowerCommand, replies)
  {
    newPower := power;
    var rcv := new byte[3](i requires 0 <= i < 3 => stale[i]);
    assert rcv[..] == stale;
    ret := Request(ctx, address, baudrate, PowerCommand, rcv, 3, replies);
    if ret < 0 {
      return;
    }
    newPower := PowerRaw(rcv[..]) as real / 100.0;
    ret := 0;
  }

  /** The per-phase loop of the voltage and current readings: phase `i` of
      `rcv`, scaled, into `value[i]`. */
  method StorePhases(rcv: array<byte>, value: array<real>, scale: real)
    requires rcv.Length == 9 && value.Length == 3 && scale > 0.0
    modifies value
    ensures value[..] == Phases(rcv[..], scale)
  {
    for i := 0 to 3
      invariant forall k :: 0 <= k < i ==> value[k] == PhaseRaw(rcv[..], k) as real / scale
    {
      value[i] := PhaseRaw(rcv[..], i) as real / scale;
    }
  }

  /** A three-phase reading (voltage or current): on success every phase of
      `value` is replaced, otherwise `value` is untouched. */
  method GetPhases(ctx: Context, address: byte, baudrate: u32, command: seq<byte>, scale: real,
                   value: array<real>, replies: BusReplies, stale: seq<byte>) returns (ret: int)
    requires !ctx.bus.locked && |command| + 3 <= QuerySize && scale > 0.0
    requires value.Length == 3 && |stale| == 9
    requires RecvShape(replies.recv) && RequestFits(address, replies, 9)
    modifies ctx.bus, value
    ensures ret == ReadStatus(address, replies)
    ensures ret == 0 ==> value[..] == Phases(RequestDelivered(address, replies, stale), scale)
    ensures ret != 0 ==> value[..] == old(value[..])
    ensures !ctx.bus.locked
    ensures ctx.bus.trace == old(ctx.bus.trace) + RequestTrace(address, baudrate, command, replies)
  {
    var rcv := new byte[9](i requires 0 <= i < 9 => stale[i]);
    assert rcv[..] == stale;
    ret := Request(ctx, address, baudrate, command, rcv, 9, replies);
    if ret < 0 {
      return;
    }
    StorePhases(rcv, value, scale);
    ret := 0;
  }

  /** `meters_mercury_get_voltage`: volts, from units of 10 mV. */
  method GetVoltage(ctx: Context, address: byte, baudrate: u32, voltage: array<real>, replies: BusReplies, stale: seq<byte>)
    returns (ret: int)
    requires !ctx.bus.locked && voltage.Length == 3 && |stale| == 9
    requires RecvShape(replies.recv) && RequestFits(address, replies, 9)
    modifies ctx.bus, voltage
    ensures ret == ReadStatus(address, replies)
    ensures ret == 0 ==> voltage[..] == Phases(RequestDelivered(address, replies, stale), 100.0)
    ensures ret != 0 ==> voltage[..] == old(voltage[..])
    ensures !ctx.bus.locked
    ensures ctx.bus.trace == old(ctx.bus.trace) + RequestTrace(address, baudrate, VoltageCommand, replies)
  {
    ret := GetPhases(ctx, address, baudrate, VoltageCommand, 100.0, voltage, replies, stale);
  }

  /** `meters_mercury_get_current`: amperes, from milliamperes. */
  method GetCurrent(ctx: Context, address: byte, baudrate: u32, current: array<real>, replies: BusReplies, stale: seq<byte>)
    returns (ret: int)
    requires !ctx.bus.locked && current.Length == 3 && |stale| == 9
    requires RecvShape(replies.recv) && RequestFits(address, replies, 9)
    modifies ctx.bus, current
    ensures ret == ReadStatus(address, replies)
    ensures ret == 0 ==> current[..] == Phases(RequestDelivered(address, replies, stale), 1000.0)
    ensures ret != 0 ==> current[..] == old(current[..])
    ensures !ctx.bus.locked
    ensures ctx.bus.trace == old(ctx.bus.trace) + RequestTrace(address, baudrate, CurrentCommand, replies)
  {
    ret := GetPhases(ctx, address, baudrate, CurrentCommand, 1000.0, current, replies, stale);
  }

  // ---------------------------------------------------------------------

  /** `meters_mercury_init`: an index outside the registered meters gives
      -ERANGE and changes nothing; otherwise only that meter's failure counter
      is set to the threshold, and the function ends without a return
      statement. */
  method Init(ctx: Context, itemIdx: u32) returns (st: Status)
    requires ctx.Valid()
    modifies ctx.items
    ensures itemIdx >= ctx.itemCount ==> st == Returned(-ERANGE) && ctx.items[..] == old(ctx.items[..])
    ensures itemIdx < ctx.itemCount ==>
      st == NoReturnValue &&
      ctx.items[..] == old(ctx.items[..])[itemIdx := old(ctx.items[itemIdx]).(badResponseCount := ErrorThreshold)]
  {
    if itemIdx >= ctx.itemCount {
      return Returned(-ERANGE);
    }
    ctx.items[itemIdx] := ctx.items[itemIdx].(badResponseCount := ErrorThreshold);
    st := NoReturnValue;
  }
}

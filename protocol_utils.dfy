/** The reflected CRC-16 with polynomial 0xA001 and initial value 0xFFFF: the
    Modbus CRC of MODBUS over Serial Line V1.02, section 6.2.2. The SPM90 and
    Mercury-234 drivers append it to their frames low byte first. */
module ProtocolUtils {
  import opened Wire

  /** One step of the register: shift right by one, and XOR the polynomial
      0xA001 exactly when the bit shifted out was 1. */
  function Shift(crc: bv16): bv16 {
    if crc & 1 == 1 then (crc >> 1) ^ 0xA001 else crc >> 1
  }

  /** `n` shift steps. */
  function ShiftN(crc: bv16, n: nat): bv16
    decreases n
  {
    if n == 0 then crc else ShiftN(Shift(crc), n - 1)
  }

  /** Absorbs one byte: XOR it into the low 8 bits, then eight shift steps. */
  function ByteStep(crc: bv16, b: byte): bv16 {
    ShiftN(crc ^ (b as bv16), 8)
  }

  /** Continues the register `crc` over `data`, first byte first. */
  function Fold(crc: bv16, data: seq<byte>): bv16
    decreases |data|
  {
    if |data| == 0 then crc else Fold(ByteStep(crc, data[0]), data[1..])
  }

  /** The Modbus CRC-16 of `data`. */
  function Crc16(data: seq<byte>): bv16 {
    Fold(0xFFFF, data)
  }

  /** Zephyr's `crc16_reflect(0xA001, 0xFFFF, data, len)`. Its body is not part
      of this model; it is identified with Crc16, the function
      `u16_calculateCRC` computes (an assumption of the model). */
  function Crc16Reflect(data: seq<byte>): u16 {
    Crc16(data) as int
  }

  /** Folding over a concatenation is folding over the first part and then
      continuing over the second. */
  lemma {:induction false} FoldAppend(crc: bv16, a: seq<byte>, b: seq<byte>)
    ensures Fold(crc, a + b) == Fold(Fold(crc, a), b)
    decreases |a|
  {
    if |a| == 0 {
      assert a + b == b;
    } else {
      assert (a + b)[1..] == a[1..] + b;
      FoldAppend(ByteStep(crc, a[0]), a[1..], b);
    }
  }

  /** The CRC is a left fold: the empty buffer gives 0xFFFF, and one more
      byte continues from the CRC of the bytes before it. */
  lemma Crc16IsLeftFold(a: seq<byte>, b: byte)
    ensures Crc16([]) == 0xFFFF
    ensures Crc16(a + [b]) == ByteStep(Crc16(a), b)
  {
    FoldAppend(0xFFFF, a, [b]);
  }

  /** CRC(a ++ b) continues from CRC(a) over b. */
  lemma Crc16Append(a: seq<byte>, b: seq<byte>)
    ensures Crc16(a + b) == Fold(Crc16(a), b)
  {
    FoldAppend(0xFFFF, a, b);
  }

  /** Reference vector: the SPM90 request body for meter 1 has CRC 0xC8C5,
      sent on the wire as C5 C8. */
  lemma ModbusReferenceVector()
    ensures Crc16([0x01, 0x03, 0x00, 0x00, 0x00, 0x06]) == 0xC8C5
  {
    var body: seq<byte> := [0x01, 0x03, 0x00, 0x00, 0x00, 0x06];
    assert ByteStep(0xFFFF, 0x01) == 0x807E;
    assert ByteStep(0x807E, 0x03) == 0x2140;
    assert ByteStep(0x2140, 0x00) == 0xF020;
    assert ByteStep(0xF020, 0x00) == 0xD8F1;
    assert ByteStep(0xD8F1, 0x00) == 0x8419;
    assert ByteStep(0x8419, 0x06) == 0xC8C5;
    assert Fold(0x8419, body[5..]) == 0xC8C5;
    assert Fold(0xD8F1, body[4..]) == 0xC8C5;
    assert Fold(0xF020, body[3..]) == 0xC8C5;
    assert Fold(0x2140, body[2..]) == 0xC8C5;
    assert Fold(0x807E, body[1..]) == 0xC8C5;
  }

  /** `u16_calculateCRC`: the CRC of exactly the first `length` bytes of
      `buffer` (`length` is a `uint8_t`, so at most 255); the buffer is only
      read. */
  method CalculateCrc(buffer: array<byte>, length: int) returns (crc: bv16)
    requires 0 <= length < 0x100 && length <= buffer.Length
    ensures crc == Crc16(buffer[..length])
  {
    crc := 0xFFFF;
    var remaining := length;
    var p := 0;
    assert buffer[p..length] == buffer[..length];
    while remaining > 0
      invariant 0 <= remaining && p + remaining == length
      invariant Fold(crc, buffer[p..length]) == Crc16(buffer[..length])
      decreases remaining
    {
      remaining := remaining - 1;
      ghost var absorbed := ByteStep(crc, buffer[p]);
      assert buffer[p..length][1..] == buffer[p + 1..length];
      crc := crc ^ (buffer[p] as bv16);
      p := p + 1;
      // The C code runs a do-while; with shiftctr starting at 8 it is the same
      // as this while loop.
      var shiftctr := 8;
      while shiftctr > 0
        invariant 0 <= shiftctr <= 8
        invariant ShiftN(crc, shiftctr) == absorbed
        decreases shiftctr
      {
        if crc & 0x0001 == 1 {
          crc := crc >> 1;
          crc := crc ^ 0xA001;
        } else {
          crc := crc >> 1;
        }
        shiftctr := shiftctr - 1;
      }
    }
  }

  /** A frame whose last two bytes are the CRC of the bytes before them, low
      byte first. */
  predicate HasValidCrc(frame: seq<byte>) {
    |frame| >= 2 && Crc16Reflect(frame[..|frame| - 2]) == Le16(frame[|frame| - 2], frame[|frame| - 1])
  }

  /** `body` followed by its CRC, low byte first; the frame keeps `body` as
      its prefix. */
  function AppendCrc(body: seq<byte>): (frame: seq<byte>)
    ensures |frame| == |body| + 2 && frame[..|body|] == body
  {
    var crc := Crc16Reflect(body);
    var frame := body + [Lo(crc), Hi(crc)];
    assert frame[..|body|] == body;
    frame
  }

  /** A frame built by AppendCrc passes the CRC check. */
  lemma AppendCrcIsValid(body: seq<byte>)
    ensures HasValidCrc(AppendCrc(body))
  {
    var crc := Crc16Reflect(body);
    var frame := AppendCrc(body);
    assert frame[..|frame| - 2] == body;
    assert frame[|frame| - 2] == Lo(crc) && frame[|frame| - 1] == Hi(crc);
    JoinSplit(crc);
  }
}

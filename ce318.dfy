/** The helpers of the CE318 driver (an Energomera-style meter framed with
    0xC0 delimiters): the byte-stuffing codec of RFC 1055 (SLIP), a
    non-reflected CRC-16 with polynomial 0x8005, and the per-meter init. */
module Ce318 {
  import opened Wire
  import opened MeterTypes

  const End: byte := 0xC0
  const Esc: byte := 0xDB
  const EscEnd: byte := 0xDC
  const EscEsc: byte := 0xDD

  /** CE318_ERROR_THRESHOLD. */
  const ErrorThreshold: u32 := 3

  // ---------------------------------------------------------------------
  // Byte stuffing

  /** The stuffed form of one byte. */
  function EscapeByte(b: byte): seq<byte> {
    if b == End then [Esc, EscEnd] else if b == Esc then [Esc, EscEsc] else [b]
  }

  /** The stuffed form of a byte string, byte by byte in order. */
  function Escape(s: seq<byte>): seq<byte>
    decreases |s|
  {
    if s == [] then [] else EscapeByte(s[0]) + Escape(s[1..])
  }

  /** How many bytes of `s` need an escape sequence. */
  function CountReserved(s: seq<byte>): nat
    decreases |s|
  {
    if s == [] then 0 else (if s[0] == End || s[0] == Esc then 1 else 0) + CountReserved(s[1..])
  }

  /** No END byte, and every ESC is followed by ESC_END or ESC_ESC. */
  ghost predicate Stuffed(e: seq<byte>) {
    (forall k :: 0 <= k < |e| ==> e[k] != End && (e[k] == Esc ==> k + 1 < |e|)) &&
    (forall k :: 0 <= k < |e| - 1 && e[k] == Esc ==> e[k + 1] == EscEnd || e[k + 1] == EscEsc)
  }

  /** Input that the unstuffing loop reads only within: no ESC as the very
      last byte (the loop would read the byte after the input to decide what
      to emit). */
  predicate Decodable(s: seq<byte>)
    decreases |s|
  {
    if s == [] then true
    else if s[0] == Esc then |s| >= 2 && Decodable(s[2..])
    else Decodable(s[1..])
  }

  /** Unstuffing: ESC consumes two bytes and yields END when the second is
      ESC_END and ESC otherwise; any other byte is copied. */
  function Unescape(s: seq<byte>): (r: seq<byte>)
    requires Decodable(s)
    ensures |r| <= |s|
    ensures s != [] ==> |r| > 0
    decreases |s|
  {
    if s == [] then []
    else if s[0] == Esc then [if s[1] == EscEnd then End else Esc] + Unescape(s[2..])
    else [s[0]] + Unescape(s[1..])
  }

  /** The first `count` bytes of `src`; nothing when `count` is not positive
      (the C loops run `while (count > 0)`). */
  function Declared(src: seq<byte>, count: int): seq<byte>
    requires count <= |src|
  {
    if count > 0 then src[..count] else []
  }

  lemma {:induction false} EscapeAppend(a: seq<byte>, b: seq<byte>)
    ensures Escape(a + b) == Escape(a) + Escape(b)
    decreases |a|
  {
    if a == [] {
      assert a + b == b;
    } else {
      assert (a + b)[1..] == a[1..] + b;
      EscapeAppend(a[1..], b);
    }
  }

  /** The stuffed length is the input length plus one per reserved byte, so at
      most twice the input length. */
  lemma {:induction false} EscapeLength(s: seq<byte>)
    ensures |Escape(s)| == |s| + CountReserved(s) <= 2 * |s|
    decreases |s|
  {
    if s != [] {
      EscapeLength(s[1..]);
    }
  }

  /** Stuffed output never contains END, and every ESC in it starts a
      two-byte escape sequence. */
  lemma {:induction false} EscapeIsStuffed(s: seq<byte>)
    ensures Stuffed(Escape(s))
    decreases |s|
  {
    if s != [] {
      EscapeIsStuffed(s[1..]);
      var h, t := EscapeByte(s[0]), Escape(s[1..]);
      assert Escape(s) == h + t;
      forall k | 0 <= k < |h + t|
        ensures (h + t)[k] != End && ((h + t)[k] == Esc ==> k + 1 < |h + t|)
        ensures k < |h + t| - 1 && (h + t)[k] == Esc ==> (h + t)[k + 1] == EscEnd || (h + t)[k + 1] == EscEsc
      {
        if k < |h| {
          assert (h + t)[k] == h[k];
          if k + 1 < |h| {
            assert (h + t)[k + 1] == h[k + 1];
          }
        } else {
          var j := k - |h|;
          assert (h + t)[k] == t[j];
          if t[j] == Esc {
            assert (h + t)[k + 1] == t[j + 1];
          }
        }
      }
    }
  }

  /** Unstuffing undoes stuffing, and stuffed input never ends in a lone ESC. */
  lemma {:induction false} UnescapeEscape(x: seq<byte>)
    ensures Decodable(Escape(x)) && Unescape(Escape(x)) == x
    decreases |x|
  {
    if x != [] {
      UnescapeEscape(x[1..]);
      var e := Escape(x);
      assert e == EscapeByte(x[0]) + Escape(x[1..]);
      if x[0] == End || x[0] == Esc {
        assert e[2..] == Escape(x[1..]);
      } else {
        assert e[1..] == Escape(x[1..]);
      }
      assert x == [x[0]] + x[1..];
    }
  }

  /** One iteration of the stuffing loop: writes the stuffed form of `b` at
      `dest[d]` and returns the index after it. */
  method PutEscaped(dest: array<byte>, d: int, b: byte) returns (next: int)
    requires 0 <= d && d + |EscapeByte(b)| <= dest.Length
    modifies dest
    ensures next == d + |EscapeByte(b)|
    ensures dest[..next] == old(dest[..d]) + EscapeByte(b)
    ensures forall k :: next <= k < dest.Length ==> dest[k] == old(dest[k])
  {
    if b == 0xC0 {
      dest[d] := 0xDB;
      dest[d + 1] := 0xDC;
      next := d + 2;
    } else if b == 0xDB {
      dest[d] := 0xDB;
      dest[d + 1] := 0xDD;
      next := d + 2;
    } else {
      dest[d] := b;
      next := d + 1;
    }
  }

  /** The stuffed rest of `x` from `s` is one byte's stuffed form longer
      than the stuffed rest from `s + 1`. */
  lemma EscapeRestLength(x: seq<byte>, s: int)
    requires 0 <= s < |x|
    ensures |Escape(x[s..])| == |EscapeByte(x[s])| + |Escape(x[s + 1..])|
  {
    assert x[s..][1..] == x[s + 1..];
  }

  /** Stuffing a prefix one byte longer appends that byte's stuffed form. */
  lemma EscapeSnoc(x: seq<byte>, s: int)
    requires 0 <= s < |x|
    ensures Escape(x[..s + 1]) == Escape(x[..s]) + EscapeByte(x[s])
  {
    assert x[..s + 1] == x[..s] + [x[s]];
    EscapeAppend(x[..s], [x[s]]);
    assert Escape([x[s]]) == EscapeByte(x[s]) + Escape([]);
  }

  /** `ce318_set_escape`: writes the stuffed form of the first `count` bytes
      of `src` to the start of `dest`, touches nothing after it, and returns
      its length: `count` plus the number of END and ESC bytes. */
  method SetEscape(src: array<byte>, dest: array<byte>, count: int) returns (size: int)
    requires src != dest && count <= src.Length
    requires |Escape(Declared(src[..], count))| <= dest.Length
    modifies dest
    ensures size == |Escape(Declared(src[..], count))|
    ensures size == |Declared(src[..], count)| + CountReserved(Declared(src[..], count))
    ensures dest[..size] == Escape(Declared(src[..], count))
    ensures dest[size..] == old(dest[size..])
  {
    ghost var input := Declared(src[..], count);
    ghost var n := |input|;
    EscapeLength(input);
    var remaining := count;
    var s := 0;
    size := 0;
    while remaining > 0
      invariant 0 <= s <= n && input == src[..n]
      invariant remaining > 0 ==> s + remaining == n
      invariant remaining <= 0 ==> s == n
      invariant 0 <= size && size + |Escape(input[s..])| <= dest.Length
      invariant dest[..size] == Escape(input[..s])
      invariant forall k :: size <= k < dest.Length ==> dest[k] == old(dest[k])
      decreases remaining
    {
      EscapeRestLength(input, s);
      EscapeSnoc(input, s);
      size := PutEscaped(dest, size, src[s]);
      s := s + 1;
      remaining := remaining - 1;
    }
    assert input[..s] == input;
    assert dest[size..] == old(dest[size..]);
  }

  /** One token of stuffed input: an ESC and the byte after it, or one other
      byte; unstuffing the rest after the token continues the output. */
  lemma UnescapeToken(x: seq<byte>, s: int)
    requires 0 <= s < |x| && Decodable(x[s..])
    ensures x[s] == Esc ==>
      s + 1 < |x| && Decodable(x[s + 2..]) &&
      Unescape(x[s..]) == [if x[s + 1] == EscEnd then End else Esc] + Unescape(x[s + 2..])
    ensures x[s] != Esc ==>
      Decodable(x[s + 1..]) && Unescape(x[s..]) == [x[s]] + Unescape(x[s + 1..])
  {
    if x[s] == Esc {
      assert x[s..][2..] == x[s + 2..];
    } else {
      assert x[s..][1..] == x[s + 1..];
    }
  }

  /** Moving one emitted byte from the pending rest to the output so far. */
  lemma Regroup(done: seq<byte>, b: byte, rest: seq<byte>, whole: seq<byte>)
    requires done + ([b] + rest) == whole
    ensures (done + [b]) + rest == whole
  {
    assert (done + [b]) + rest == done + ([b] + rest);
  }

  /** One iteration of the unstuffing loop: reads the token at `src[s]` and
      writes the byte it stands for at `dest[d]`; returns where the next token
      starts. */
  method TakeToken(src: array<byte>, dest: array<byte>, s: int, d: int) returns (next: int)
    requires src != dest && 0 <= s < src.Length && 0 <= d < dest.Length
    requires src[s] == Esc ==> s + 1 < src.Length
    modifies dest
    ensures src[s] == Esc ==> next == s + 2 && dest[d] == (if src[s + 1] == EscEnd then End else Esc)
    ensures src[s] != Esc ==> next == s + 1 && dest[d] == src[s]
    ensures dest[..d + 1] == old(dest[..d]) + [dest[d]]
    ensures forall k :: d < k < dest.Length ==> dest[k] == old(dest[k])
  {
    if src[s] == 0xDB {
      dest[d] := if src[s + 1] == 0xDC then 0xC0 else 0xDB;
      next := s + 2;
    } else {
      dest[d] := src[s];
      next := s + 1;
    }
  }

  /** `ce318_remove_escape`: writes the unstuffed form of the first `count`
      bytes of `src` to the start of `dest`, touches nothing after it, and
      returns its length, at most `count`. */
  method RemoveEscape(src: array<byte>, dest: array<byte>, count: int) returns (size: int)
    requires src != dest && count <= src.Length
    requires Decodable(Declared(src[..], count))
    requires |Unescape(Declared(src[..], count))| <= dest.Length
    modifies dest
    ensures size == |Unescape(Declared(src[..], count))| <= |Declared(src[..], count)|
    ensures dest[..size] == Unescape(Declared(src[..], count))
    ensures dest[size..] == old(dest[size..])
  {
    ghost var input := Declared(src[..], count);
    ghost var n := |input|;
    var remaining := count;
    var s := 0;
    size := 0;
    assert input[0..] == input;
    while remaining > 0
      invariant 0 <= s <= n && input == src[..n]
      invariant remaining > 0 ==> s + remaining == n
      invariant remaining <= 0 ==> s == n
      invariant Decodable(input[s..])
      invariant 0 <= size && size + |Unescape(input[s..])| <= dest.Length
      invariant dest[..size] + Unescape(input[s..]) == Unescape(input)
      invariant forall k :: size <= k < dest.Length ==> dest[k] == old(dest[k])
      decreases remaining
    {
      UnescapeToken(input, s);
      ghost var done := dest[..size];
      var next := TakeToken(src, dest, s, size);
      Regroup(done, dest[size], Unescape(input[next..]), Unescape(input));
      remaining := remaining - (next - s);
      s := next;
      size := size + 1;
    }
    assert input[s..] == [];
    assert dest[size..] == old(dest[size..]);
  }

  // ---------------------------------------------------------------------
  // CRC-16, polynomial 0x8005, most significant bit first, initial value 0

  /** One step: shift left by one (truncated to 16 bits), and XOR 0x8005
      exactly when the bit shifted out was 1. */
  function Step(crc: bv16): bv16 {
    if crc & 0x8000 != 0 then (crc << 1) ^ 0x8005 else crc << 1
  }

  function StepN(crc: bv16, n: nat): bv16
    decreases n
  {
    if n == 0 then crc else StepN(Step(crc), n - 1)
  }

  /** Absorbs one byte: XOR it into the high byte, then eight steps. */
  function CrcByte(crc: bv16, b: byte): bv16 {
    StepN(crc ^ ((b as bv16) << 8), 8)
  }

  function CrcFold(crc: bv16, data: seq<byte>): bv16
    decreases |data|
  {
    if |data| == 0 then crc else CrcFold(CrcByte(crc, data[0]), data[1..])
  }

  /** The CE318 CRC of `data`. */
  function Crc(data: seq<byte>): bv16 {
    CrcFold(0, data)
  }

  /** The check value of this CRC (CRC-16/BUYPASS: polynomial 0x8005, no
      reflection, initial value 0, no final XOR) over the ASCII digits
      "123456789" is 0xFEE8. */
  lemma CrcCheckValue()
    ensures Crc([0x31, 0x32, 0x33, 0x34, 0x35, 0x36, 0x37, 0x38, 0x39]) == 0xFEE8
  {
    var d: seq<byte> := [0x31, 0x32, 0x33, 0x34, 0x35, 0x36, 0x37, 0x38, 0x39];
    var c1 := CrcByte(0, 0x31);
    var c2 := CrcByte(c1, 0x32);
    var c3 := CrcByte(c2, 0x33);
    var c4 := CrcByte(c3, 0x34);
    var c5 := CrcByte(c4, 0x35);
    var c6 := CrcByte(c5, 0x36);
    var c7 := CrcByte(c6, 0x37);
    var c8 := CrcByte(c7, 0x38);
    var c9 := CrcByte(c8, 0x39);
    assert c9 == 0xFEE8;
    assert CrcFold(c8, d[8..]) == c9;
    assert CrcFold(c7, d[7..]) == c9;
    assert CrcFold(c6, d[6..]) == c9;
    assert CrcFold(c5, d[5..]) == c9;
    assert CrcFold(c4, d[4..]) == c9;
    assert CrcFold(c3, d[3..]) == c9;
    assert CrcFold(c2, d[2..]) == c9;
    assert CrcFold(c1, d[1..]) == c9;
  }

  lemma {:induction false} CrcFoldAppend(crc: bv16, a: seq<byte>, b: seq<byte>)
    ensures CrcFold(crc, a + b) == CrcFold(CrcFold(crc, a), b)
    decreases |a|
  {
    if |a| == 0 {
      assert a + b == b;
    } else {
      assert (a + b)[1..] == a[1..] + b;
      CrcFoldAppend(CrcByte(crc, a[0]), a[1..], b);
    }
  }

  /** The empty input gives 0, and a running CRC can be continued over more
      bytes (the driver accumulates header and payload into one value). */
  lemma CrcIncremental(a: seq<byte>, b: seq<byte>)
    ensures Crc([]) == 0
    ensures Crc(a + b) == CrcFold(Crc(a), b)
  {
    CrcFoldAppend(0, a, b);
  }

  /** `ce318_get_crc16`: the CRC of exactly the first `length` bytes of
      `buffer` (`length` is a `uint32_t`); the buffer is only read. */
  method GetCrc16(buffer: array<byte>, length: u32) returns (crc: bv16)
    requires length <= buffer.Length
    ensures crc == Crc(buffer[..length])
  {
    crc := 0;
    var remaining: int := length;
    var p: int := 0;
    assert buffer[p..length] == buffer[..length];
    while remaining > 0
      invariant 0 <= remaining && p + remaining == length
      invariant CrcFold(crc, buffer[p..length]) == Crc(buffer[..length])
      decreases remaining
    {
      remaining := remaining - 1;
      ghost var before := crc;
      assert buffer[p..length][1..] == buffer[p + 1..length];
      crc := crc ^ ((buffer[p] as bv16) << 8);
      ghost var absorbed := StepN(crc, 8);
      assert absorbed == CrcByte(before, buffer[p]);
      p := p + 1;
      var i := 0;
      while i < 8
        invariant 0 <= i <= 8
        invariant StepN(crc, 8 - i) == absorbed
        decreases 8 - i
      {
        ghost var prev := crc;
        if crc & 0x8000 != 0 {
          crc := (crc << 1) ^ 0x8005;
        } else {
          crc := crc << 1;
        }
        assert crc == Step(prev);
        i := i + 1;
      }
    }
  }

  // ---------------------------------------------------------------------

  /** `meters_ce318_init`: an index outside the registered meters gives
      -ERANGE and changes nothing; otherwise only that meter's failure counter
      is set to the threshold, and the function ends without a return
      statement. */
  method Init(ctx: Context, itemIdx: u32) returns (st: Status)
    requires ctx.Valid()
    modifies ctx.items
    ensures itemIdx >= ctx.itemCount ==> st == Returned(-ERANGE) && ctx.items[..] == old(ctx.items[..])
    ensures itemIdx < ctx.itemCount ==>
      st == NoReturnValue &&
      ctx.items[..] == old(ctx.items[..])[itemIdx := old(ctx.items[itemIdx]).(badResponseCount := ErrorThreshold)]
  {
    if itemIdx >= ctx.itemCount {
      return Returned(-ERANGE);
    }
    ctx.items[itemIdx] := ctx.items[itemIdx].(badResponseCount := ErrorThreshold);
    st := NoReturnValue;
  }
}

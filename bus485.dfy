/** The shared half-duplex RS-485 transport as the drivers see it. Its
    implementation is not part of this model: the object only records, in ghost
    state, whether a driver holds it and what was done to it, and the values the
    transport would return (and the bytes it would deliver) are passed in by the
    caller. */
module Bus485 {
  import opened Wire

  /** How long a receive waits: a literal number of milliseconds, or the
      build-time setting CONFIG_STRIM_METERS_BUS485_RESPONSE_TIMEOUT. */
  datatype Timeout = Millis(ms: nat) | ConfiguredResponseTimeout

  /** One call on the transport, in the order the driver makes them. */
  datatype Event =
    | Locked
    | BaudrateSet(rate: int)
    | Flushed
    | Sent(frame: seq<byte>)
    | Received(maxLength: nat, timeout: Timeout)
    | Released

  /** What `bus485_recv` yields: its return value (a byte count, or a negative
      error) and the whole receive buffer afterwards, received bytes first and
      whatever the buffer held before after them. */
  datatype RecvReply = RecvReply(count: int, buffer: seq<byte>)

  /** What the transport returns to one exchange: the results of
      `bus485_set_baudrate` and `bus485_send`, and the receive. */
  datatype BusReplies = BusReplies(baudrate: int, send: int, recv: RecvReply)

  /** Recording calls one after another is recording their sequence. */
  lemma Regroup(t: seq<Event>, a: seq<Event>, b: seq<Event>)
    ensures (t + a) + b == t + (a + b)
  {
  }

  /** Three calls recorded one at a time. */
  lemma Record3(t: seq<Event>, a: Event, b: Event, c: Event)
    ensures t + [a] + [b] + [c] == t + [a, b, c]
  {
  }

  /** Four calls recorded one at a time. */
  lemma Record4(t: seq<Event>, a: Event, b: Event, c: Event, d: Event)
    ensures t + [a] + [b] + [c] + [d] == t + [a, b, c, d]
  {
  }

  /** One session on the bus: taken first, given back last, and neither in
      between. */
  predicate Balanced(t: seq<Event>) {
    |t| >= 2 && t[0] == Locked && t[|t| - 1] == Released &&
    forall i :: 0 < i < |t| - 1 ==> t[i] != Locked && t[i] != Released
  }

  class Bus {
    /** Held by a driver between `bus485_lock` and `bus485_release`. */
    ghost var locked: bool
    /** Every call made on the transport so far. */
    ghost var trace: seq<Event>

    constructor ()
      ensures !locked && trace == []
    {
      locked := false;
      trace := [];
    }

    /** `bus485_lock`: exclusive acquire. The polling thread is the only user,
        so acquiring while already holding the bus is a protocol error. */
    method Lock()
      requires !locked
      modifies this
      ensures locked && trace == old(trace) + [Locked]
    {
      locked := true;
      trace := trace + [Locked];
    }

    /** `bus485_release`. */
    method Release()
      requires locked
      modifies this
      ensures !locked && trace == old(trace) + [Released]
    {
      locked := false;
      trace := trace + [Released];
    }

    /** `bus485_set_baudrate`, answering `reply`. */
    method SetBaudrate(rate: int, reply: int) returns (ret: int)
      requires locked
      modifies this
      ensures locked && ret == reply && trace == old(trace) + [BaudrateSet(rate)]
    {
      trace := trace + [BaudrateSet(rate)];
      ret := reply;
    }

    /** `bus485_flush`: drops stale input. */
    method Flush()
      requires locked
      modifies this
      ensures locked && trace == old(trace) + [Flushed]
    {
      trace := trace + [Flushed];
    }

    /** `bus485_send` of exactly the bytes `frame`, answering `reply`. */
    method Send(frame: seq<byte>, reply: int) returns (ret: int)
      requires locked
      modifies this
      ensures locked && ret == reply && trace == old(trace) + [Sent(frame)]
    {
      trace := trace + [Sent(frame)];
      ret := reply;
    }

    /** `bus485_recv` into `dest` with room for `maxLength` bytes: returns
        `reply.count` and leaves `reply.buffer` in `dest`. */
    method Recv(dest: array<byte>, maxLength: nat, timeout: Timeout, reply: RecvReply) returns (ret: int)
      requires locked
      requires maxLength <= dest.Length && reply.count <= maxLength && |reply.buffer| == dest.Length
      modifies this, dest
      ensures locked && ret == reply.count && dest[..] == reply.buffer
      ensures trace == old(trace) + [Received(maxLength, timeout)]
    {
      forall i | 0 <= i < dest.Length {
        dest[i] := reply.buffer[i];
      }
      trace := trace + [Received(maxLength, timeout)];
      ret := reply.count;
    }
  }
}

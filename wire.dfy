/** Fixed-width integers, little-endian byte pairs, the POSIX error numbers the
    drivers return, and the status of a C function that may end without a
    return statement. */
module Wire {

  type byte = x: int | 0 <= x < 0x100
  type u16 = x: int | 0 <= x < 0x1_0000
  type u32 = x: int | 0 <= x < 0x1_0000_0000
  type u64 = x: int | 0 <= x < 0x1_0000_0000_0000_0000

  /** Low byte of a 16-bit value (`x & 0xff`). */
  function Lo(x: u16): byte { x % 0x100 }

  /** High byte of a 16-bit value (`(x >> 8) & 0xff`). */
  function Hi(x: u16): byte { x / 0x100 }

  /** The 16-bit value `(hi << 8) | lo`. */
  function Le16(lo: byte, hi: byte): u16 {
    hi * 0x100 + lo
  }

  /** Joining the two bytes of a value gives the value back. */
  lemma JoinSplit(x: u16)
    ensures Le16(Lo(x), Hi(x)) == x
  {
  }

  /** Splitting a joined value gives the two bytes back. */
  lemma SplitJoin(lo: byte, hi: byte)
    ensures Lo(Le16(lo, hi)) == lo && Hi(Le16(lo, hi)) == hi
  {
  }

  /** C's `++x` on a `uint32_t`: wraps to 0 after 0xFFFFFFFF. */
  function Inc32(x: u32): (r: u32)
    ensures x < 0xFFFF_FFFF ==> r == x + 1
    ensures x == 0xFFFF_FFFF ==> r == 0
  {
    (x + 1) % 0x1_0000_0000
  }

  // Error numbers as defined by the Zephyr C library (returned negated).
  const E2BIG: int := 7
  const EXDEV: int := 18
  const EINVAL: int := 22
  const ERANGE: int := 34
  const ENODATA: int := 61
  const EPROTO: int := 71
  const EBADMSG: int := 77
  const EMSGSIZE: int := 122
  const EADDRNOTAVAIL: int := 125

  datatype Option<T> = None | Some(value: T)

  /** What a C function with an `int32_t` result hands back: a value from a
      return statement, or nothing, when control falls off the end of the body
      (the caller then sees an indeterminate value). */
  datatype Status = Returned(code: int) | NoReturnValue
}

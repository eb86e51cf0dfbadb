/**
 * Wire-level vocabulary of the SOCKS version 5 front end (RFC 1928):
 * octets, 16-bit quantities, the protocol constants the server checks,
 * and the error kinds a session can end with.
 */
module Wire {

  /** One octet of a TCP stream (Rust `u8`). */
  type byte = x: int | 0 <= x < 0x100

  /** A Rust `u16`: an IPv6 group or a port number. */
  type u16 = x: int | 0 <= x < 0x1_0000

  /** VER, in the greeting, the request and the reply. */
  const SocksVersion: byte := 0x05
  /** CMD = CONNECT, the only command served. */
  const CmdConnect: byte := 0x01
  /** RSV of the request, which must be zero. */
  const Reserved: byte := 0x00
  /** ATYP codes (section 5 of RFC 1928). */
  const AtypIpv4: byte := 0x01
  const AtypDomain: byte := 0x03
  const AtypIpv6: byte := 0x04
  /** METHOD = NO AUTHENTICATION REQUIRED. */
  const MethodNoAuth: byte := 0x00
  /** REP = succeeded. */
  const ReplySucceeded: byte := 0x00

  /** Which header byte of a message failed its check. */
  datatype Field = Version | Command | ReservedByte | AddressType

  /**
   * Why a session ended early.
   * - Truncated: the stream ended before a byte the parser needed
   *   (`read_exact` returning `UnexpectedEof`).
   * - ProtocolViolation: a byte that must have a fixed value did not
   *   (the source's `panic!("unreachable!")`).
   * - ConnectError: the outbound dial failed.
   */
  datatype Error = Truncated | ProtocolViolation(field: Field) | ConnectError

  /**
   * The result of consuming a prefix of a stream: a value or an error,
   * together with the number of bytes taken from the stream either way.
   */
  datatype Outcome<+T> = Ok(value: T, used: nat) | Err(error: Error, used: nat)

  /**
   * Two bytes read in network order: the value of `ShiftOr`, the source's
   * own expression, as `ShiftOrIsBe16` proves.
   */
  function Be16(hi: byte, lo: byte): (r: u16)
    ensures r / 0x100 == hi && r % 0x100 == lo
  {
    hi * 0x100 + lo
  }

  /** Every 16-bit quantity is its high byte followed by its low byte. */
  lemma Be16Split(x: u16)
    ensures Be16(x / 0x100, x % 0x100) == x
  {
  }

  /** `((hi as u16) << 8) | (lo as u16)`, on 8- and 16-bit vectors. */
  function ShiftOr(hi: bv8, lo: bv8): bv16
  {
    ((hi as bv16) << 8) | (lo as bv16)
  }

  /**
   * The source's shift-or of two bytes is their big-endian value: the
   * shift cannot overflow and leaves the low eight bits clear for `lo`.
   */
  lemma ShiftOrIsBe16(hi: bv8, lo: bv8)
    ensures ShiftOr(hi, lo) as int == Be16(hi as int, lo as int)
  {
    ShiftOrValue(hi, lo);
  }

  /** The shift-or as an integer. */
  lemma ShiftOrValue(hi: bv8, lo: bv8)
    ensures ShiftOr(hi, lo) as int == hi as int * 0x100 + lo as int
  {
    Widen(hi);
    Widen(lo);
    OrValue(hi as bv16, lo as bv16);
  }

  /** Widening a byte to 16 bits keeps its value. */
  lemma Widen(x: bv8)
    ensures (x as bv16) as int == x as int && x as bv16 < 0x100
  {
  }

  /** Shifting a byte-sized value left by 8 multiplies it by 256. */
  lemma ShiftLeft(h: bv16)
    requires h < 0x100
    ensures (h << 8) as int == h as int * 0x100
  {
  }

  /** Or-ing a byte into a value whose low eight bits are clear adds it. */
  lemma OrLow(h: bv16, l: bv16)
    requires h < 0x100 && l < 0x100
    ensures ((h << 8) | l) as int == (h << 8) as int + l as int
  {
  }

  /** The two steps of the shift-or, as integers. */
  lemma OrValue(h: bv16, l: bv16)
    requires h < 0x100 && l < 0x100
    ensures ((h << 8) | l) as int == h as int * 0x100 + l as int
  {
    ShiftLeft(h);
    OrLow(h, l);
  }
}

/**
 * Byte-level vocabulary shared by the SOCKS4 and SOCKS5 handlers: octets,
 * the error values their reads produce, and the 16-bit big-endian port field.
 */
module Wire {

  /** One octet on the wire (Go's `byte`). */
  type byte = x: int | 0 <= x < 256

  /** Why a read or a parse step failed. */
  datatype Failure =
    | ShortRead                        // io.ReadFull / ReadByte / ReadSlice hit the end of the stream
    | InvalidVersion(version: byte)    // first byte is not the protocol's version number
    | InvalidMethodCount(count: byte)  // SOCKS5 negotiation announced zero methods
    | MalformedHostPort                // net.SplitHostPort refused the address text
    | InvalidPort                      // strconv.ParseUint(_, 10, 16) refused the port text

  datatype Result<+T> = Ok(value: T) | Err(error: Failure)

  datatype Option<+T> = None | Some(value: T)

  /** A 16-bit port read as `uint16(hi)<<8 | uint16(lo)`. */
  function BE16(hi: byte, lo: byte): (port: nat)
    ensures port < 0x1_0000
    ensures port / 256 == hi && port % 256 == lo
  {
    hi * 256 + lo
  }

  /** The two bytes `byte(port>>8), byte(port&0xFF)` that encode a port. */
  function PortBytes(port: nat): (b: seq<byte>)
    requires port < 0x1_0000
    ensures |b| == 2 && BE16(b[0], b[1]) == port
  {
    [port / 256, port % 256]
  }

  /** Go's `string(b)`: one character per byte, no decoding. */
  function Chars(b: seq<byte>): (s: string)
    ensures |s| == |b|
    ensures forall i :: 0 <= i < |b| ==> s[i] as int == b[i]
  {
    seq(|b|, i requires 0 <= i < |b| => b[i] as char)
  }
}

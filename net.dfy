/**
 * The parts of Go's `net`, `os` and `syscall` packages the SOCKS handlers
 * depend on, reduced to values: the error tree a failed dial returns, the
 * destination handed to the dialer, the already-parsed text of a local
 * address, and the dotted-decimal text of an IPv4 address.
 */
module Net {
  import opened Wire

  /** Linux values of the three errno codes the SOCKS5 reply mapping singles out. */
  const ENETUNREACH: nat := 101
  const ETIMEDOUT: nat := 110
  const ECONNREFUSED: nat := 111

  /** The shapes of error a dial can return: two wrapper kinds around a cause, and leaves. */
  datatype NetError =
    | OpError(err: NetError)        // *net.OpError
    | SyscallError(err: NetError)   // *os.SyscallError
    | DNSError                      // *net.DNSError
    | Errno(code: nat)              // syscall.Errno
    | Other                         // any other error type

  /** The cause at the bottom of a chain of wrappers. */
  function Cause(e: NetError): (c: NetError)
    ensures !c.OpError? && !c.SyscallError?
  {
    match e
    case OpError(inner) => Cause(inner)
    case SyscallError(inner) => Cause(inner)
    case _ => e
  }

  /**
   * A host name as the handlers hold it (Go `string`).  `IPv6Text(addr)` stands
   * for `net.IP(addr).String()` of a 16-byte address, whose canonical text
   * this model does not spell out; that text is never empty.
   */
  datatype Host = Text(name: string) | IPv6Text(addr: seq<byte>)
  {
    predicate IsEmpty() { Text? && name == "" }
  }

  /** What `net.JoinHostPort(host, fmt.Sprint(port))` names for the dialer. */
  datatype Target = Target(host: Host, port: nat)

  /**
   * The text of an address as `net.SplitHostPort`, `strconv.ParseUint` and
   * `net.ParseIP` see it: either not splittable into host and port, or a host
   * with the 16-byte form ParseIP gives it (None when it is not an IP
   * literal) and a port with its decimal value (None when it is not a
   * decimal number).
   */
  datatype AddrText =
    | Unsplittable
    | HostPort(ip: Option<IP16>, port: Option<nat>)

  type IP16 = s: seq<byte> | |s| == 16 witness seq(16, i => 0)

  /** The 12-byte prefix `net.IP.To4` looks for: ten zeros then 0xff 0xff. */
  const V4InV6Prefix: seq<byte> := [0, 0, 0, 0, 0, 0, 0, 0, 0, 0, 0xff, 0xff]

  /** `ip.To4() != nil` for the 16-byte form of an address. */
  predicate IsIPv4(ip: IP16)
  {
    ip[..12] == V4InV6Prefix
  }

  /** The local endpoint a successful dial reports, or the error it failed with. */
  datatype DialResult = Connected(local: AddrText) | Failed(err: NetError)

  /** The decimal digits of a byte value, most significant first, without leading zeros. */
  function Decimal(n: byte): (s: string)
    ensures 1 <= |s| <= 3
    ensures forall i :: 0 <= i < |s| ==> '0' <= s[i] <= '9'
    ensures s[0] == '0' ==> n == 0
  {
    if n < 10 then [Digit(n)]
    else if n < 100 then [Digit(n / 10), Digit(n % 10)]
    else [Digit(n / 100), Digit(n / 10 % 10), Digit(n % 10)]
  }

  function Digit(d: nat): (c: char)
    requires d < 10
    ensures '0' <= c <= '9' && c as int - '0' as int == d
  {
    ('0' as int + d) as char
  }

  /** The value of a string of decimal digits. */
  function DigitsValue(s: string): nat
    requires forall i :: 0 <= i < |s| ==> '0' <= s[i] <= '9'
  {
    if s == [] then 0 else DigitsValue(s[..|s| - 1]) * 10 + (s[|s| - 1] as int - '0' as int)
  }

  /** Reading the decimal text of a byte back gives the byte. */
  lemma DecimalRoundTrip(n: byte)
    ensures DigitsValue(Decimal(n)) == n
  {
    var s := Decimal(n);
    if n < 10 {
    } else if n < 100 {
      assert s[..1] == [Digit(n / 10)];
      assert DigitsValue(s[..1]) == n / 10 by {
        assert s[..1][..0] == [];
      }
    } else {
      var hi := s[..2];
      assert hi == [Digit(n / 100), Digit(n / 10 % 10)];
      assert hi[..1] == [Digit(n / 100)] && hi[..1][..0] == [];
      assert DigitsValue(hi[..1]) == n / 100;
      assert n / 10 == n / 100 * 10 + n / 10 % 10;
      assert DigitsValue(hi) == n / 10;
    }
  }

  /** `net.IP(b).String()` for a 4-byte address: dotted decimal. */
  function DottedQuad(b: seq<byte>): (s: string)
    requires |b| == 4
    ensures 7 <= |s| <= 15
    ensures s != ""
  {
    Decimal(b[0]) + "." + Decimal(b[1]) + "." + Decimal(b[2]) + "." + Decimal(b[3])
  }
}

/**
 * The SOCKS5 handler (RFC 1928): method negotiation (section 3), the request
 * with its three address types (sections 4 and 5), the reply layout
 * (section 6) and the mapping from dial errors to reply codes.
 */
module Socks5 {
  import opened Wire
  import opened Streams
  import opened Net

  const Version: byte := 5

  const AuthNone: byte := 0x00
  const AuthGSSAPI: byte := 0x01
  const AuthPassword: byte := 0x02
  const AuthUnsupported: byte := 0xFF

  const Connect: byte := 1
  const Bind: byte := 2
  const Associate: byte := 3

  const AtypIPv4: byte := 1
  const AtypDomain: byte := 3
  const AtypIPv6: byte := 4

  const Succeeded: byte := 0
  const GeneralError: byte := 1
  const ConnProhibited: byte := 2
  const NetUnreachable: byte := 3
  const HostUnreachable: byte := 4
  const ConnRefused: byte := 5
  const TTLExpired: byte := 6
  const InvalidCommand: byte := 7
  const IllegalAddress: byte := 8

  // ---------------------------------------------------------------------------
  // The reply buffer

  /** The bytes of a fresh reply: version 5, status 0, reserved 0, IPv4 tag, 0.0.0.0, port 0. */
  const NewReplyBytes: seq<byte> := [Version, 0, 0, AtypIPv4, 0, 0, 0, 0, 0, 0]

  /** The address-type tag and the length of the reply agree (RFC 1928 section 6). */
  predicate WellFormed(reply: seq<byte>)
  {
    |reply| >= 4 &&
    ((reply[3] == AtypIPv4 && |reply| == 4 + 4 + 2) || (reply[3] == AtypIPv6 && |reply| == 4 + 16 + 2))
  }

  /**
   * The reply after `setAddress(local)`: the host and port of the address
   * text replace the address-type tag, the address and the port; bytes 0-2
   * are kept.  A text that does not split, or whose port is not a 16-bit
   * decimal number, is an error.
   */
  function Addressed(reply: seq<byte>, local: AddrText): (r: Result<seq<byte>>)
    requires |reply| >= 4
    ensures r.Ok? <==> local.HostPort? && local.port.Some? && local.port.value < 0x1_0000
    ensures r.Err? ==> r.error == (if local.Unsplittable? then MalformedHostPort else InvalidPort)
    ensures r.Ok? ==> 6 <= |r.value| && r.value[..3] == reply[..3]
                      && BE16(r.value[|r.value| - 2], r.value[|r.value| - 1]) == local.port.value
  {
    match local
    case Unsplittable => Err(MalformedHostPort)
    case HostPort(ip, port) =>
      if port.None? || port.value >= 0x1_0000 then Err(InvalidPort)
      else if ip.Some? && IsIPv4(ip.value) then Ok(reply[..3] + [AtypIPv4] + ip.value[12..] + PortBytes(port.value))
      else Ok(reply[..3] + [AtypIPv6] + (if ip.Some? then ip.value else []) + PortBytes(port.value))
  }

  /** The mutable reply buffer of handleSocks5 (a byte slice grown in place). */
  class Reply {
    var bytes: seq<byte>

    /** socks5NewReply. */
    constructor ()
      ensures bytes == NewReplyBytes
    {
      var reply: seq<byte> := [0, 0, 0, 0, 0, 0, 0, 0, 0, 0];
      reply := reply[0 := Version];
      reply := reply[3 := AtypIPv4];
      bytes := reply;
    }

    /** socks5Reply.setAddress: on error the reply is left as it was. */
    method SetAddress(local: AddrText) returns (err: Option<Failure>)
      requires |bytes| >= 4
      modifies this
      ensures Addressed(old(bytes), local).Ok? ==> err.None? && bytes == Addressed(old(bytes), local).value
      ensures Addressed(old(bytes), local).Err? ==> err == Some(Addressed(old(bytes), local).error) && bytes == old(bytes)
    {
      match local
      case Unsplittable =>
        return Some(MalformedHostPort);
      case HostPort(ip, port) =>
        if port.None? || port.value >= 0x1_0000 {
          return Some(InvalidPort);
        }
        if ip.Some? && IsIPv4(ip.value) {
          bytes := bytes[3 := AtypIPv4];
          bytes := bytes[..4] + ip.value[12..];
        } else {
          bytes := bytes[3 := AtypIPv6];
          bytes := bytes[..4] + (if ip.Some? then ip.value else []);
        }
        bytes := bytes + [port.value / 256, port.value % 256];
        err := None;
    }
  }

  /** An IPv4 local address gives a 10-byte reply tagged 1 that carries the address's four octets. */
  lemma AddressedIPv4(reply: seq<byte>, ip: IP16, port: nat)
    requires |reply| >= 4 && IsIPv4(ip) && port < 0x1_0000
    ensures var r := Addressed(reply, HostPort(Some(ip), Some(port)));
            r.Ok? && |r.value| == 10 && r.value[3] == AtypIPv4 && r.value[4..8] == ip[12..]
            && WellFormed(r.value) && r.value[8..] == PortBytes(port)
  {
  }

  /** Any other IP local address gives a 22-byte reply tagged 4 that carries all sixteen octets. */
  lemma AddressedIPv6(reply: seq<byte>, ip: IP16, port: nat)
    requires |reply| >= 4 && !IsIPv4(ip) && port < 0x1_0000
    ensures var r := Addressed(reply, HostPort(Some(ip), Some(port)));
            r.Ok? && |r.value| == 22 && r.value[3] == AtypIPv6 && r.value[4..20] == ip
            && WellFormed(r.value) && r.value[20..] == PortBytes(port)
  {
  }

  /**
   * A host that is not an IP literal (net.ParseIP gives nil) still succeeds:
   * the reply is tagged 4 but carries no address, six bytes in all.
   */
  lemma AddressedNotIP(reply: seq<byte>, port: nat)
    requires |reply| >= 4 && port < 0x1_0000
    ensures var r := Addressed(reply, HostPort(None, Some(port)));
            r.Ok? && |r.value| == 6 && r.value[3] == AtypIPv6 && !WellFormed(r.value)
  {
  }

  // ---------------------------------------------------------------------------
  // Method negotiation

  /**
   * socks5ReadMethods on the input from `pos`: a 2-byte header whose first
   * byte is 5 and whose second (the count) is at least 1, then that many
   * method bytes.
   */
  function ParseMethods(input: seq<byte>, pos: nat): (r: Step<seq<byte>>)
    requires pos <= |input|
    ensures pos <= r.next <= |input|
    ensures r.out.Ok? <==> pos + 2 <= |input| && input[pos] == Version && input[pos + 1] >= 1
                           && pos + 2 + input[pos + 1] <= |input|
    ensures r.out.Ok? ==> r.next == pos + 2 + input[pos + 1] && r.out.value == input[pos + 2..r.next]
    ensures pos + 2 > |input| ==> r == Step(Err(ShortRead), |input|)
    ensures pos + 2 <= |input| && input[pos] != Version ==> r == Step(Err(InvalidVersion(input[pos])), pos + 2)
    ensures pos + 2 <= |input| && input[pos] == Version && input[pos + 1] == 0
            ==> r == Step(Err(InvalidMethodCount(0)), pos + 2)
    ensures pos + 2 <= |input| && input[pos] == Version && input[pos + 1] >= 1 && pos + 2 + input[pos + 1] > |input|
            ==> r == Step(Err(ShortRead), |input|)
  {
    var header := ReadFullAt(input, pos, 2);
    if header.out.Err? then Step(Err(header.out.error), header.next)
    else if header.out.value[0] != Version then Step(Err(InvalidVersion(header.out.value[0])), header.next)
    else if header.out.value[1] < 1 then Step(Err(InvalidMethodCount(header.out.value[1])), header.next)
    else ReadFullAt(input, header.next, header.out.value[1])
  }

  method ReadMethods(s: Stream) returns (methods: Result<seq<byte>>)
    requires s.Valid()
    modifies s`pos
    ensures s.Valid()
    ensures Step(methods, s.pos) == ParseMethods(s.input, old(s.pos))
  {
    var header := s.ReadFull(2);
    if header.Err? {
      return Err(header.error);
    }
    if header.value[0] != Version {
      return Err(InvalidVersion(header.value[0]));
    }
    if header.value[1] < 1 {
      return Err(InvalidMethodCount(header.value[1]));
    }
    methods := s.ReadFull(header.value[1]);
  }

  /** The negotiation message a client sends for `methods`. */
  function EncodeMethods(methods: seq<byte>): (b: seq<byte>)
    requires 1 <= |methods| < 256
  {
    [Version, |methods|] + methods
  }

  /** Reading back an encoded negotiation message yields its methods and consumes exactly it. */
  lemma MethodsRoundTrip(input: seq<byte>, pos: nat, methods: seq<byte>)
    requires 1 <= |methods| < 256
    requires pos + |EncodeMethods(methods)| <= |input|
    requires input[pos..pos + |EncodeMethods(methods)|] == EncodeMethods(methods)
    ensures ParseMethods(input, pos) == Step(Ok(methods), pos + |EncodeMethods(methods)|)
  {
    var enc := EncodeMethods(methods);
    assert input[pos] == enc[0] && input[pos + 1] == enc[1];
    assert input[pos + 2..pos + |enc|] == enc[2..];
  }

  /**
   * socks5FindMethod: scans `available` in order and answers the first value
   * that `wanted` contains, or 0xFF when there is none.
   */
  function FindMethod(wanted: seq<byte>, available: seq<byte>): (m: byte)
    ensures m == AuthUnsupported || (m in available && m in wanted)
  {
    if available == [] then AuthUnsupported
    else if available[0] in wanted then available[0]
    else FindMethod(wanted, available[1..])
  }

  /** FindMethod answers the first acceptable entry of `available`, and 0xFF when none is acceptable. */
  lemma {:induction false} FindMethodFirstMatch(wanted: seq<byte>, available: seq<byte>)
    ensures (forall j :: 0 <= j < |available| ==> available[j] !in wanted) ==>
              FindMethod(wanted, available) == AuthUnsupported
    ensures forall k :: 0 <= k < |available| && available[k] in wanted
                        && (forall j :: 0 <= j < k ==> available[j] !in wanted) ==>
              FindMethod(wanted, available) == available[k]
  {
    if available != [] && available[0] !in wanted {
      var tail := available[1..];
      FindMethodFirstMatch(wanted, tail);
      if forall j :: 0 <= j < |available| ==> available[j] !in wanted {
        assert forall j :: 0 <= j < |tail| ==> tail[j] !in wanted by {
          forall j | 0 <= j < |tail| ensures tail[j] !in wanted {
            assert tail[j] == available[j + 1];
          }
        }
      }
      forall k | 0 <= k < |available| && available[k] in wanted && (forall j :: 0 <= j < k ==> available[j] !in wanted)
        ensures FindMethod(wanted, available) == available[k]
      {
        assert k > 0 && tail[k - 1] == available[k];
        forall j | 0 <= j < k - 1 ensures tail[j] !in wanted {
          assert tail[j] == available[j + 1];
        }
      }
    }
  }

  /** The negotiation reply is `05 00` exactly when the client offers "no authentication", `05 FF` otherwise. */
  lemma NegotiatedMethod(methods: seq<byte>)
    ensures AuthNone in methods ==> FindMethod(methods, [AuthNone]) == AuthNone
    ensures AuthNone !in methods ==> FindMethod(methods, [AuthNone]) == AuthUnsupported
  {
    FindMethodFirstMatch(methods, [AuthNone]);
  }

  // ---------------------------------------------------------------------------
  // The request

  type IP4 = s: seq<byte> | |s| == 4 witness [0, 0, 0, 0]

  /** The destination address of a request, by address type; NoAddr for an unknown type. */
  datatype Address = IPv4Addr(ip4: IP4) | DomainAddr(name: seq<byte>) | IPv6Addr(ip6: IP16) | NoAddr

  /** socks5Request: the host is derived from the address exactly as the source renders it. */
  datatype Request = Request(version: byte, command: byte, addr: Address, port: nat)
  {
    function Host(): (h: Host)
      ensures h.IsEmpty() <==> addr.NoAddr? || (addr.DomainAddr? && addr.name == [])
    {
      match addr
      case IPv4Addr(ip) => Text(DottedQuad(ip))
      case DomainAddr(name) => Text(Chars(name))
      case IPv6Addr(ip) => IPv6Text(ip)
      case NoAddr => Text("")
    }
  }

  /** The address part of a request for address type `atyp`, read from `pos`. */
  function ReadAddressAt(input: seq<byte>, pos: nat, atyp: byte): (r: Step<Address>)
    requires pos <= |input|
    ensures pos <= r.next <= |input|
    ensures atyp !in {AtypIPv4, AtypDomain, AtypIPv6} ==> r == Step(Ok(NoAddr), pos)
    ensures atyp == AtypIPv4 && r.out.Ok? ==> r.next == pos + 4 && r.out.value == IPv4Addr(input[pos..pos + 4])
    ensures atyp == AtypIPv6 && r.out.Ok? ==> r.next == pos + 16 && r.out.value == IPv6Addr(input[pos..pos + 16])
    ensures atyp == AtypDomain && r.out.Ok? ==> pos < |input| && r.next == pos + 1 + input[pos]
                                                 && r.out.value == DomainAddr(input[pos + 1..r.next])
  {
    if atyp == AtypIPv4 then
      var ip := ReadFullAt(input, pos, 4);
      if ip.out.Err? then Step(Err(ip.out.error), ip.next) else Step(Ok(IPv4Addr(ip.out.value)), ip.next)
    else if atyp == AtypDomain then
      var n := ReadByteAt(input, pos);
      if n.out.Err? then Step(Err(n.out.error), n.next)
      else
        var name := ReadFullAt(input, n.next, n.out.value);
        if name.out.Err? then Step(Err(name.out.error), name.next) else Step(Ok(DomainAddr(name.out.value)), name.next)
    else if atyp == AtypIPv6 then
      var ip := ReadFullAt(input, pos, 16);
      if ip.out.Err? then Step(Err(ip.out.error), ip.next) else Step(Ok(IPv6Addr(ip.out.value)), ip.next)
    else Step(Ok(NoAddr), pos)
  }

  /**
   * socks5ReadRequest on the input from `pos`: a 4-byte header (version,
   * command, reserved, address type), the address, then a big-endian port.
   * Only the version is checked.
   */
  function ParseRequest(input: seq<byte>, pos: nat): (r: Step<Request>)
    requires pos <= |input|
    ensures pos <= r.next <= |input|
    ensures pos + 4 <= |input| && input[pos] != Version ==> r == Step(Err(InvalidVersion(input[pos])), pos + 4)
    ensures pos + 4 > |input| ==> r == Step(Err(ShortRead), |input|)
    ensures r.out.Ok? ==> pos + 6 <= r.next && input[pos] == Version
                          && r.out.value.version == Version && r.out.value.command == input[pos + 1]
                          && r.out.value.port == BE16(input[r.next - 2], input[r.next - 1])
  {
    var header := ReadFullAt(input, pos, 4);
    if header.out.Err? then Step(Err(header.out.error), header.next)
    else if header.out.value[0] != Version then Step(Err(InvalidVersion(header.out.value[0])), header.next)
    else
      var addr := ReadAddressAt(input, header.next, header.out.value[3]);
      if addr.out.Err? then Step(Err(addr.out.error), addr.next)
      else
        var port := ReadFullAt(input, addr.next, 2);
        if port.out.Err? then Step(Err(port.out.error), port.next)
        else Step(Ok(Request(header.out.value[0], header.out.value[1], addr.out.value,
                             BE16(port.out.value[0], port.out.value[1]))), port.next)
  }

  method ReadRequest(s: Stream) returns (request: Result<Request>)
    requires s.Valid()
    modifies s`pos
    ensures s.Valid()
    ensures Step(request, s.pos) == ParseRequest(s.input, old(s.pos))
  {
    var header := s.ReadFull(4);
    if header.Err? {
      return Err(header.error);
    }
    if header.value[0] != Version {
      return Err(InvalidVersion(header.value[0]));
    }
    ghost var addrAt := s.pos;
    var addr: Address := NoAddr;
    if header.value[3] == AtypIPv4 {
      var ip := s.ReadFull(4);
      if ip.Err? {
        return Err(ip.error);
      }
      addr := IPv4Addr(ip.value);
    } else if header.value[3] == AtypDomain {
      var n := s.ReadByte();
      if n.Err? {
        return Err(n.error);
      }
      var name := s.ReadFull(n.value);
      if name.Err? {
        return Err(name.error);
      }
      addr := DomainAddr(name.value);
    } else if header.value[3] == AtypIPv6 {
      var ip := s.ReadFull(16);
      if ip.Err? {
        return Err(ip.error);
      }
      addr := IPv6Addr(ip.value);
    }
    assert ReadAddressAt(s.input, addrAt, header.value[3]) == Step(Ok(addr), s.pos);
    var port := s.ReadFull(2);
    if port.Err? {
      return Err(port.error);
    }
    request := Ok(Request(header.value[0], header.value[1], addr, BE16(port.value[0], port.value[1])));
  }

  /** The address-type tag and address bytes a client sends for `addr`. */
  function EncodeAddress(addr: Address): (b: seq<byte>)
    requires !addr.NoAddr? && (addr.DomainAddr? ==> |addr.name| < 256)
    ensures |b| >= 1
  {
    match addr
    case IPv4Addr(ip) => [AtypIPv4] + ip
    case DomainAddr(name) => [AtypDomain, |name|] + name
    case IPv6Addr(ip) => [AtypIPv6] + ip
  }

  /** The request a client sends: version 5, command, reserved byte, address, big-endian port. */
  function EncodeRequest(command: byte, reserved: byte, addr: Address, port: nat): (b: seq<byte>)
    requires !addr.NoAddr? && (addr.DomainAddr? ==> |addr.name| < 256) && port < 0x1_0000
  {
    [Version, command, reserved] + EncodeAddress(addr) + PortBytes(port)
  }

  /** An encoded address is read back after its tag as the same address, consuming exactly the encoding. */
  lemma AddressRoundTrip(input: seq<byte>, p: nat, addr: Address)
    requires !addr.NoAddr? && (addr.DomainAddr? ==> |addr.name| < 256)
    requires p + |EncodeAddress(addr)| <= |input| && input[p..p + |EncodeAddress(addr)|] == EncodeAddress(addr)
    ensures ReadAddressAt(input, p + 1, EncodeAddress(addr)[0]) == Step(Ok(addr), p + |EncodeAddress(addr)|)
  {
    var a := EncodeAddress(addr);
    match addr
    case IPv4Addr(ip) =>
      SliceWithin(input, p, a, 1, |a|);
      assert a[1..] == ip;
    case IPv6Addr(ip) =>
      SliceWithin(input, p, a, 1, |a|);
      assert a[1..] == ip;
    case DomainAddr(name) =>
      SliceWithin(input, p, a, 2, |a|);
      assert a[2..] == name;
      assert input[p + 1] == input[p..p + |a|][1] == |name|;
  }

  /**
   * For every address type, reading back an encoded request yields the same
   * command, address (hence the same host) and port, whatever the reserved
   * byte, and consumes exactly the encoding.
   */
  lemma RequestRoundTrip(input: seq<byte>, pos: nat, command: byte, reserved: byte, addr: Address, port: nat)
    requires !addr.NoAddr? && (addr.DomainAddr? ==> |addr.name| < 256) && port < 0x1_0000
    requires pos + |EncodeRequest(command, reserved, addr, port)| <= |input|
    requires input[pos..pos + |EncodeRequest(command, reserved, addr, port)|] == EncodeRequest(command, reserved, addr, port)
    ensures ParseRequest(input, pos)
            == Step(Ok(Request(Version, command, addr, port)), pos + |EncodeRequest(command, reserved, addr, port)|)
  {
    EncodedRequestParses(input, pos, command, reserved, addr, EncodeAddress(addr), port);
  }

  /** RequestRoundTrip with the address encoding `a` named, so the request's layout is explicit. */
  lemma EncodedRequestParses(input: seq<byte>, pos: nat, command: byte, reserved: byte, addr: Address,
                             a: seq<byte>, port: nat)
    requires !addr.NoAddr? && (addr.DomainAddr? ==> |addr.name| < 256) && port < 0x1_0000
    requires a == EncodeAddress(addr)
    requires pos + 3 + |a| + 2 <= |input|
    requires input[pos..pos + 3 + |a| + 2] == [Version, command, reserved] + a + PortBytes(port)
    ensures ParseRequest(input, pos) == Step(Ok(Request(Version, command, addr, port)), pos + 3 + |a| + 2)
  {
    RequestWindows(input, pos, command, reserved, a, port);
    AddressRoundTrip(input, pos + 3, addr);
    ParseRequestOf(input, pos, command, reserved, a[0], addr, pos + 3 + |a|, port);
  }

  /** Where the header, the address part `a` and the port of an encoded request sit in the input. */
  lemma RequestWindows(input: seq<byte>, pos: nat, command: byte, reserved: byte, a: seq<byte>, port: nat)
    requires |a| >= 1 && port < 0x1_0000
    requires pos + 3 + |a| + 2 <= |input|
    requires input[pos..pos + 3 + |a| + 2] == [Version, command, reserved] + a + PortBytes(port)
    ensures input[pos..pos + 4] == [Version, command, reserved, a[0]]
    ensures input[pos + 3..pos + 3 + |a|] == a
    ensures input[pos + 3 + |a|..pos + 3 + |a| + 2] == PortBytes(port)
  {
    var prefix: seq<byte> := [Version, command, reserved];
    WindowSplit3(input, pos, prefix, a, PortBytes(port));
    assert prefix + [a[0]] == [Version, command, reserved, a[0]];
  }

  /** ParseRequest composed from its three reads: header, address, port. */
  lemma ParseRequestOf(input: seq<byte>, pos: nat, command: byte, reserved: byte, atyp: byte,
                       addr: Address, end: nat, port: nat)
    requires pos + 4 <= |input| && port < 0x1_0000
    requires input[pos..pos + 4] == [Version, command, reserved, atyp]
    requires ReadAddressAt(input, pos + 4, atyp) == Step(Ok(addr), end)
    requires end + 2 <= |input| && input[end..end + 2] == PortBytes(port)
    ensures ParseRequest(input, pos) == Step(Ok(Request(Version, command, addr, port)), end + 2)
  {
  }

  /**
   * An unknown address type consumes no address bytes: the host is empty
   * and the port is read from the two bytes after the header.
   */
  lemma UnknownAddressType(input: seq<byte>, pos: nat)
    requires pos + 6 <= |input| && input[pos] == Version
    requires input[pos + 3] !in {AtypIPv4, AtypDomain, AtypIPv6}
    ensures var r := ParseRequest(input, pos);
            r == Step(Ok(Request(Version, input[pos + 1], NoAddr, BE16(input[pos + 4], input[pos + 5]))), pos + 6)
            && r.out.value.Host().IsEmpty()
  {
    assert input[pos..pos + 4][3] == input[pos + 3];
  }

  /**
   * After a version-5 header the request is the address read for the header's
   * address type, then the two port bytes right after it; a short address or
   * a short port fails the whole request with that read's error.
   */
  lemma ParseRequestByParts(input: seq<byte>, pos: nat)
    requires pos + 4 <= |input| && input[pos] == Version
    ensures var r := ParseRequest(input, pos);
            var a := ReadAddressAt(input, pos + 4, input[pos + 3]);
            (r.out.Ok? <==> a.out.Ok? && a.next + 2 <= |input|)
            && (r.out.Ok? ==> r.out.value.addr == a.out.value && r.next == a.next + 2
                              && r.out.value.port == BE16(input[a.next], input[a.next + 1]))
            && (a.out.Err? ==> r == Step(Err(a.out.error), a.next))
            && (a.out.Ok? && a.next + 2 > |input| ==> r == Step(Err(ShortRead), |input|))
  {
    assert input[pos..pos + 4][3] == input[pos + 3];
  }

  /** A request cut off inside its IPv4 address (`05 01 00 01 7F 00`) is a short read, not a request. */
  lemma TruncatedRequestFails(input: seq<byte>)
    requires input == [5, 1, 0, 1, 127, 0]
    ensures ParseRequest(input, 0) == Step(Err(ShortRead), 6)
  {
    ParseRequestByParts(input, 0);
  }

  // ---------------------------------------------------------------------------
  // Reply codes

  /** socks5MapErrToCode: wrappers are looked through; only the cause decides the code. */
  function MapErrToCode(e: NetError): (code: byte)
    ensures code in {Succeeded, GeneralError, NetUnreachable, HostUnreachable, ConnRefused, TTLExpired}
  {
    match e
    case OpError(inner) => MapErrToCode(inner)
    case SyscallError(inner) => MapErrToCode(inner)
    case DNSError => HostUnreachable
    case Errno(n) =>
      if n == ECONNREFUSED then ConnRefused
      else if n == ENETUNREACH then NetUnreachable
      else if n == ETIMEDOUT then TTLExpired
      else Succeeded
    case Other => GeneralError
  }

  /**
   * At any depth of OpError/SyscallError nesting: a DNS error gives 4,
   * ECONNREFUSED 5, ENETUNREACH 3, ETIMEDOUT 6, any other non-errno cause 1,
   * and any other errno 0, so such a failed dial is reported as success.
   */
  lemma {:induction false} MapErrToCodeByCause(e: NetError)
    ensures MapErrToCode(e) == HostUnreachable <==> Cause(e) == DNSError
    ensures MapErrToCode(e) == ConnRefused <==> Cause(e) == Errno(ECONNREFUSED)
    ensures MapErrToCode(e) == NetUnreachable <==> Cause(e) == Errno(ENETUNREACH)
    ensures MapErrToCode(e) == TTLExpired <==> Cause(e) == Errno(ETIMEDOUT)
    ensures MapErrToCode(e) == GeneralError <==> Cause(e) == Other
    ensures MapErrToCode(e) == Succeeded <==>
              Cause(e).Errno? && Cause(e).code !in {ECONNREFUSED, ENETUNREACH, ETIMEDOUT}
  {
    match e
    case OpError(inner) => MapErrToCodeByCause(inner);
    case SyscallError(inner) => MapErrToCodeByCause(inner);
    case _ =>
  }

  // ---------------------------------------------------------------------------
  // The handshake

  /** The reply handleSocks5 sends for a parsed request, the target it dials, and whether it relays. */
  datatype Verdict = Verdict(reply: seq<byte>, dialed: Option<Target>, success: bool)

  function Respond(request: Request, dial: Target -> DialResult): (v: Verdict)
    ensures 6 <= |v.reply| && v.reply[0] == Version
    ensures v.dialed.Some? <==> request.command == Connect && !request.Host().IsEmpty()
    ensures v.dialed.Some? ==> v.dialed.value == Target(request.Host(), request.port)
    ensures v.success <==> v.dialed.Some? && dial(v.dialed.value).Connected?
    ensures v.success ==> v.reply[1] == Succeeded
    ensures !v.success ==> v.reply == NewReplyBytes[1 := v.reply[1]]
  {
    if request.command != Connect then Verdict(NewReplyBytes[1 := InvalidCommand], None, false)
    else if request.Host().IsEmpty() then Verdict(NewReplyBytes[1 := IllegalAddress], None, false)
    else
      var target := Target(request.Host(), request.port);
      match dial(target)
      case Failed(e) => Verdict(NewReplyBytes[1 := MapErrToCode(e)], Some(target), false)
      case Connected(local) =>
        var granted := NewReplyBytes[1 := Succeeded];
        var addressed := Addressed(granted, local);
        Verdict(if addressed.Ok? then addressed.value else granted, Some(target), true)
  }

  /**
   * handleSocks5 up to the reply write, on the input from `pos`, when the
   * peer accepts `room` more writes.
   */
  function Session5(input: seq<byte>, pos: nat, room: nat, dial: Target -> DialResult): (s: Session<Target>)
    requires pos <= |input|
    ensures pos <= s.next <= |input| && |s.sent| <= room && |s.sent| <= 2
  {
    var m := ParseMethods(input, pos);
    if m.out.Err? || room == 0 then Session(m.next, [], None, false)
    else
      var chosen := FindMethod(m.out.value, [AuthNone]);
      var methodReply := Sent(m.next, [Version, chosen]);
      if chosen == AuthUnsupported then Session(m.next, [methodReply], None, false)
      else
        var q := ParseRequest(input, m.next);
        if q.out.Err? then Session(q.next, [methodReply], None, false)
        else
          var v := Respond(q.out.value, dial);
          if room == 1 then Session(q.next, [methodReply], v.dialed, false)
          else Session(q.next, [methodReply, Sent(q.next, v.reply)], v.dialed, v.success)
  }

  /** handleSocks5 up to the start of the relay; returns the target it dialed and whether it relays. */
  method Handle(s: Stream, dial: Target -> DialResult) returns (dialed: Option<Target>, relaying: bool)
    requires s.Valid()
    modifies s
    ensures s.Valid() && s.closed == old(s.closed)
    ensures var session := Session5(s.input, old(s.pos), old(s.Room()), dial);
            s.pos == session.next && s.log == old(s.log) + session.sent
            && dialed == session.dialed && relaying == session.relay
  {
    dialed, relaying := None, false;
    var methods := ReadMethods(s);
    if methods.Err? {
      return;
    }
    var methodReply := [Version, FindMethod(methods.value, [AuthNone])];
    var ok := s.Write(methodReply);
    if !ok {
      return;
    }
    if methodReply[1] == AuthUnsupported {
      return;
    }

    var request := ReadRequest(s);
    if request.Err? {
      return;
    }

    dialed, relaying := Answer(s, request.value, dial);
  }

  /**
   * The part of handleSocks5 after the request is read: the reply is built,
   * written once, and the relay starts only after a successful dial whose
   * reply reached the peer.
   */
  method Answer(s: Stream, request: Request, dial: Target -> DialResult) returns (dialed: Option<Target>, relaying: bool)
    requires s.Valid()
    modifies s`log
    ensures s.Valid()
    ensures var v := Respond(request, dial);
            s.log == old(s.log) + (if old(s.Room()) > 0 then [Sent(s.pos, v.reply)] else [])
            && dialed == v.dialed && relaying == (v.success && old(s.Room()) > 0)
  {
    dialed, relaying := None, false;
    var reply := new Reply();

    if request.command != Connect {
      reply.bytes := reply.bytes[1 := InvalidCommand];
      var _ := s.Write(reply.bytes);
      return;
    }

    var host := request.Host();
    if host.IsEmpty() {
      reply.bytes := reply.bytes[1 := IllegalAddress];
      var _ := s.Write(reply.bytes);
      return;
    }

    var target := Target(host, request.port);
    dialed := Some(target);
    var outcome := dial(target);
    match outcome {
      case Failed(e) =>
        reply.bytes := reply.bytes[1 := MapErrToCode(e)];
        var _ := s.Write(reply.bytes);
      case Connected(local) =>
        reply.bytes := reply.bytes[1 := Succeeded];
        var _ := reply.SetAddress(local);
        var ok := s.Write(reply.bytes);
        relaying := ok;
    }
  }

  // ---------------------------------------------------------------------------
  // Properties of the handshake

  /**
   * Nothing is written before the negotiation message is fully read, and the
   * method reply is the first write, issued before any byte of the request
   * is read.
   */
  lemma MethodReplyFirst(input: seq<byte>, pos: nat, room: nat, dial: Target -> DialResult)
    requires pos <= |input|
    ensures var s := Session5(input, pos, room, dial);
            var m := ParseMethods(input, pos);
            (s.sent != [] <==> m.out.Ok? && room > 0)
            && (s.sent != [] ==> s.sent[0] == Sent(m.next, [Version, FindMethod(m.out.value, [AuthNone])]))
            && m.next <= s.next
  {
  }

  /** After a `05 FF` method reply nothing more is read, written or dialed. */
  lemma NoAcceptableMethodStops(input: seq<byte>, pos: nat, room: nat, dial: Target -> DialResult)
    requires pos <= |input|
    requires ParseMethods(input, pos).out.Ok? && AuthNone !in ParseMethods(input, pos).out.value
    ensures var s := Session5(input, pos, room, dial);
            var m := ParseMethods(input, pos);
            s.next == m.next && s.sent == (if room == 0 then [] else [Sent(m.next, [Version, AuthUnsupported])])
            && s.dialed.None? && !s.relay
  {
    NegotiatedMethod(ParseMethods(input, pos).out.value);
  }

  /**
   * Once "no authentication" is agreed and the request is read, the second
   * write is the reply, issued after the whole request was read; it is the
   * only place a dial happens and the only way to reach the relay.
   */
  lemma ReplyAfterRequest(input: seq<byte>, pos: nat, room: nat, dial: Target -> DialResult)
    requires pos <= |input|
    ensures var s := Session5(input, pos, room, dial);
            var m := ParseMethods(input, pos);
            (s.dialed.Some? || |s.sent| == 2 || s.relay) ==>
              m.out.Ok? && AuthNone in m.out.value && room > 0
              && ParseRequest(input, m.next).out.Ok?
              && s.next == ParseRequest(input, m.next).next
              && s.dialed == Respond(ParseRequest(input, m.next).out.value, dial).dialed
              && (|s.sent| == 2 ==> s.sent[1] == Sent(s.next, Respond(ParseRequest(input, m.next).out.value, dial).reply))
              && (s.relay <==> room >= 2 && Respond(ParseRequest(input, m.next).out.value, dial).success)
  {
    var m := ParseMethods(input, pos);
    if m.out.Ok? {
      NegotiatedMethod(m.out.value);
    }
  }

  /** A command other than CONNECT gets status 7 without a dial, whatever the host. */
  lemma CommandCheckedFirst(request: Request, dial: Target -> DialResult)
    requires request.command != Connect
    ensures Respond(request, dial) == Verdict(NewReplyBytes[1 := InvalidCommand], None, false)
  {
  }

  /** A CONNECT with an empty host (domain of length 0 or unknown address type) gets status 8 without a dial. */
  lemma EmptyHostRejected(request: Request, dial: Target -> DialResult)
    requires request.command == Connect && request.Host().IsEmpty()
    ensures Respond(request, dial) == Verdict(NewReplyBytes[1 := IllegalAddress], None, false)
  {
  }

  /**
   * A CONNECT to a non-empty host dials exactly that host and port; a failed
   * dial answers with the mapped code in the 10-byte template, a successful
   * one with status 0 and the dialed connection's local address.
   */
  lemma DialOutcomeReply(request: Request, dial: Target -> DialResult)
    requires request.command == Connect && !request.Host().IsEmpty()
    ensures var v := Respond(request, dial);
            var target := Target(request.Host(), request.port);
            v.dialed == Some(target)
            && (dial(target).Failed? ==>
                  |v.reply| == 10 && v.reply == NewReplyBytes[1 := MapErrToCode(dial(target).err)] && !v.success)
            && (dial(target).Connected? ==>
                  v.success && v.reply[..3] == [Version, Succeeded, 0]
                  && (Addressed(NewReplyBytes[1 := Succeeded], dial(target).local).Ok? ==>
                        v.reply == Addressed(NewReplyBytes[1 := Succeeded], dial(target).local).value))
  {
  }

  /**
   * The exchange of RFC 1928 for a CONNECT to 127.0.0.1:80 from a client that
   * offers only "no authentication", when the dial succeeds from 127.0.0.1:1080.
   */
  lemma ConnectLoopbackExample(dial: Target -> DialResult)
    requires dial(Target(Text("127.0.0.1"), 80)) == Connected(HostPort(Some(V4InV6Prefix + [127, 0, 0, 1]), Some(1080)))
    ensures var input: seq<byte> := [5, 1, 0, 5, 1, 0, 1, 127, 0, 0, 1, 0, 80];
            Session5(input, 0, 2, dial)
            == Session(13, [Sent(3, [5, 0]), Sent(13, [5, 0, 0, 1, 127, 0, 0, 1, 4, 56])],
                       Some(Target(Text("127.0.0.1"), 80)), true)
  {
    var input: seq<byte> := [5, 1, 0, 5, 1, 0, 1, 127, 0, 0, 1, 0, 80];
    var request := Request(Version, Connect, IPv4Addr([127, 0, 0, 1]), 80);
    LoopbackMessages(input);
    LoopbackReply(request, dial);
    FullHandshake(input, 0, 2, dial, [AuthNone], 3, request, 13);
  }

  /** The two client messages of the loopback example parse as "no authentication" and CONNECT 127.0.0.1:80. */
  lemma LoopbackMessages(input: seq<byte>)
    requires input == [5, 1, 0, 5, 1, 0, 1, 127, 0, 0, 1, 0, 80]
    ensures ParseMethods(input, 0) == Step(Ok([AuthNone]), 3)
    ensures ParseRequest(input, 3) == Step(Ok(Request(Version, Connect, IPv4Addr([127, 0, 0, 1]), 80)), 13)
  {
    var addr := IPv4Addr([127, 0, 0, 1]);
    assert input[0..3] == EncodeMethods([AuthNone]);
    MethodsRoundTrip(input, 0, [AuthNone]);
    assert PortBytes(80) == [0, 80];
    assert EncodeRequest(Connect, 0, addr, 80) == [5, 1, 0, 1, 127, 0, 0, 1, 0, 80];
    assert input[3..13] == EncodeRequest(Connect, 0, addr, 80);
    RequestRoundTrip(input, 3, Connect, 0, addr, 80);
  }

  /** The reply of the loopback example: status 0 with the local address 127.0.0.1:1080. */
  lemma LoopbackReply(request: Request, dial: Target -> DialResult)
    requires request == Request(Version, Connect, IPv4Addr([127, 0, 0, 1]), 80)
    requires dial(Target(Text("127.0.0.1"), 80)) == Connected(HostPort(Some(V4InV6Prefix + [127, 0, 0, 1]), Some(1080)))
    ensures Respond(request, dial)
            == Verdict([5, 0, 0, 1, 127, 0, 0, 1, 4, 56], Some(Target(Text("127.0.0.1"), 80)), true)
  {
    assert DottedQuad([127, 0, 0, 1]) == "127.0.0.1";
    LoopbackAddress();
  }

  /** setAddress("127.0.0.1:1080") on a success reply gives 05 00 00 01 7F 00 00 01 04 38. */
  lemma LoopbackAddress()
    ensures Addressed(NewReplyBytes[1 := Succeeded], HostPort(Some(V4InV6Prefix + [127, 0, 0, 1]), Some(1080)))
            == Ok([5, 0, 0, 1, 127, 0, 0, 1, 4, 56])
  {
    var ip: IP16 := V4InV6Prefix + [127, 0, 0, 1];
    assert ip[..12] == V4InV6Prefix && ip[12..] == [127, 0, 0, 1];
    assert NewReplyBytes[1 := Succeeded][..3] == [5, 0, 0] && PortBytes(1080) == [4, 56];
    assert IsIPv4(ip);
    assert [5, 0, 0] + [AtypIPv4] + ip[12..] + PortBytes(1080) == [5, 0, 0, 1, 127, 0, 0, 1, 4, 56];
  }

  /**
   * When the client offers "no authentication" and the peer accepts both
   * writes, the session is: `05 00` after the negotiation message, then
   * the request's reply after the request, with the request's dial and relay.
   */
  lemma FullHandshake(input: seq<byte>, pos: nat, room: nat, dial: Target -> DialResult,
                      methods: seq<byte>, afterMethods: nat, request: Request, afterRequest: nat)
    requires pos <= |input| && room >= 2
    requires ParseMethods(input, pos) == Step(Ok(methods), afterMethods) && AuthNone in methods
    requires afterMethods <= |input| && ParseRequest(input, afterMethods) == Step(Ok(request), afterRequest)
    ensures var v := Respond(request, dial);
            Session5(input, pos, room, dial)
            == Session(afterRequest, [Sent(afterMethods, [Version, AuthNone]), Sent(afterRequest, v.reply)],
                       v.dialed, v.success)
  {
    NegotiatedMethod(methods);
  }
}

/**
 * The SOCKS4 handler ("SOCKS: A protocol for TCP proxy across firewalls")
 * with the SOCKS4A extension: a fixed 8-byte header, a NUL-terminated
 * user-id, an optional NUL-terminated domain name when the address is
 * 0.0.0.x with x != 0, and an 8-byte reply.
 */
module Socks4 {
  import opened Wire
  import opened Streams
  import opened Net

  const Version: byte := 4
  const Connect: byte := 1
  const Bind: byte := 2

  const Granted: byte := 90
  const Rejected: byte := 91
  const RequestFailed: byte := 92
  const Unauthorized: byte := 93

  /** socks4Request. */
  datatype Request = Request(version: byte, code: byte, user: string, host: Host, port: nat)

  /**
   * socks4ReadString on the input from `pos`.  The `err` declared inside its
   * `if` shadows the result, so it never reports an error: without a NUL it
   * answers "" after consuming everything.
   */
  function ReadStringAt(input: seq<byte>, pos: nat): (r: Step<string>)
    requires pos <= |input|
    ensures r.out.Ok?
    ensures pos <= r.next <= |input|
    ensures 0 in input[pos..] ==> pos < r.next && input[r.next - 1] == 0 && 0 !in input[pos..r.next - 1]
                                  && r.out.value == Chars(input[pos..r.next - 1])
    ensures 0 !in input[pos..] ==> r.out.value == "" && r.next == |input|
  {
    var slice := ReadSliceAt(input, pos, 0);
    if slice.out.Ok? then Step(Ok(Chars(slice.out.value[..|slice.out.value| - 1])), slice.next)
    else Step(Ok(""), slice.next)
  }

  method ReadString(s: Stream) returns (str: string, err: Option<Failure>)
    requires s.Valid()
    modifies s`pos
    ensures s.Valid()
    ensures err.None? && Step(Ok(str), s.pos) == ReadStringAt(s.input, old(s.pos))
  {
    str, err := "", None;
    var slice := s.ReadSlice(0);
    if slice.Ok? {
      str := Chars(slice.value[..|slice.value| - 1]);
    }
  }

  /** The SOCKS4A sentinel: the address bytes 4-7 of the header read 0.0.0.x with x != 0. */
  predicate IsSocks4A(header: seq<byte>)
    requires |header| == 8
    ensures IsSocks4A(header) <==>
              0 < header[4] as int * 0x100_0000 + header[5] as int * 0x1_0000 + header[6] as int * 0x100 + header[7] as int < 0x100
  {
    header[4] == 0 && header[5] == 0 && header[6] == 0 && header[7] != 0
  }

  /**
   * socks4ReadRequest on the input from `pos`: the whole 8-byte header is
   * read first, then the version is checked, then the user-id string, then
   * (for SOCKS4A) the domain string.
   */
  function ParseRequest(input: seq<byte>, pos: nat): (r: Step<Request>)
    requires pos <= |input|
    ensures pos <= r.next <= |input|
    ensures r.out.Ok? <==> pos + 8 <= |input| && input[pos] == Version
    ensures pos + 8 > |input| ==> r == Step(Err(ShortRead), |input|)
    ensures pos + 8 <= |input| && input[pos] != Version ==> r == Step(Err(InvalidVersion(input[pos])), pos + 8)
    ensures r.out.Ok? ==> r.out.value.version == Version && r.out.value.code == input[pos + 1]
                          && r.out.value.port == BE16(input[pos + 2], input[pos + 3])
  {
    var header := ReadFullAt(input, pos, 8);
    if header.out.Err? then Step(Err(header.out.error), header.next)
    else
      var b := header.out.value;
      if b[0] != Version then Step(Err(InvalidVersion(b[0])), header.next)
      else
        var user := ReadStringAt(input, header.next);
        var port := BE16(b[2], b[3]);
        if IsSocks4A(b) then
          var domain := ReadStringAt(input, user.next);
          Step(Ok(Request(b[0], b[1], user.out.value, Text(domain.out.value), port)), domain.next)
        else
          Step(Ok(Request(b[0], b[1], user.out.value, Text(DottedQuad(b[4..8])), port)), user.next)
  }

  method ReadRequest(s: Stream) returns (request: Result<Request>)
    requires s.Valid()
    modifies s`pos
    ensures s.Valid()
    ensures Step(request, s.pos) == ParseRequest(s.input, old(s.pos))
  {
    var buffer := s.ReadFull(8);
    if buffer.Err? {
      return Err(buffer.error);
    }
    if buffer.value[0] != Version {
      return Err(InvalidVersion(buffer.value[0]));
    }
    // socks4ReadString never reports an error, so there is no error to check after the user-id read.
    var user, _ := ReadString(s);
    var b := buffer.value;
    var port := BE16(b[2], b[3]);
    if IsSocks4A(b) {
      var host, _ := ReadString(s);
      request := Ok(Request(b[0], b[1], user, Text(host), port));
    } else {
      request := Ok(Request(b[0], b[1], user, Text(DottedQuad(b[4..8])), port));
    }
  }

  /**
   * The user-id string is always read, right after the header; a SOCKS4A
   * header makes the host the next string, any other the dotted-decimal
   * text of bytes 4-7.
   */
  lemma AddressForm(input: seq<byte>, pos: nat)
    requires pos + 8 <= |input| && input[pos] == Version
    ensures var r := ParseRequest(input, pos);
            var user := ReadStringAt(input, pos + 8);
            var domain := ReadStringAt(input, user.next);
            r.out.Ok? && r.out.value.user == user.out.value
            && (IsSocks4A(input[pos..pos + 8]) ==> r.out.value.host == Text(domain.out.value) && r.next == domain.next)
            && (!IsSocks4A(input[pos..pos + 8]) ==>
                  r.out.value.host == Text(DottedQuad(input[pos + 4..pos + 8])) && r.next == user.next)
  {
    assert input[pos..pos + 8][4..8] == input[pos + 4..pos + 8];
  }

  /** A run of bytes without NUL, then a NUL: ReadStringAt gives exactly that run and consumes the NUL. */
  lemma ReadStringOf(input: seq<byte>, pos: nat, str: seq<byte>)
    requires pos + |str| < |input| && input[pos..pos + |str| + 1] == str + [0] && 0 !in str
    ensures ReadStringAt(input, pos) == Step(Ok(Chars(str)), pos + |str| + 1)
  {
    assert input[pos..pos + |str| + 1][|str|] == input[pos..][|str|] == 0;
    assert input[pos..pos + |str|] == input[pos..pos + |str| + 1][..|str|] == str;
    var r := ReadStringAt(input, pos);
    assert input[pos..r.next - 1] == str;
  }

  /** The bytes a SOCKS4A client sends: header with 0.0.0.x, user-id, NUL, domain, NUL. */
  function EncodeSocks4A(code: byte, port: nat, x: byte, user: seq<byte>, domain: seq<byte>): (b: seq<byte>)
    requires port < 0x1_0000
  {
    [Version, code] + PortBytes(port) + [0, 0, 0, x] + user + [0] + domain + [0]
  }

  /**
   * A SOCKS4A request is read back with the domain, not 0.0.0.x, as the host,
   * and the whole message is consumed.
   */
  lemma Socks4ARoundTrip(input: seq<byte>, pos: nat, code: byte, port: nat, x: byte, user: seq<byte>, domain: seq<byte>)
    requires port < 0x1_0000 && x != 0 && 0 !in user && 0 !in domain
    requires pos + |EncodeSocks4A(code, port, x, user, domain)| <= |input|
    requires input[pos..pos + |EncodeSocks4A(code, port, x, user, domain)|] == EncodeSocks4A(code, port, x, user, domain)
    ensures ParseRequest(input, pos)
            == Step(Ok(Request(Version, code, Chars(user), Text(Chars(domain)), port)),
                    pos + |EncodeSocks4A(code, port, x, user, domain)|)
  {
    var header := [Version, code] + PortBytes(port) + [0, 0, 0, x];
    var u := pos + 8;
    var d := u + |user| + 1;
    var end := d + |domain| + 1;
    Socks4ALayout(code, port, x, user, domain);
    WindowSplit(input, pos, header + (user + [0]), domain + [0]);
    WindowSplit(input, pos, header, user + [0]);
    ReadStringOf(input, u, user);
    ReadStringOf(input, d, domain);
    ParseSocks4AOf(input, pos, code, port, x, Chars(user), d, Chars(domain), end);
  }

  /** The SOCKS4A message is the 8-byte header, the NUL-terminated user-id and the NUL-terminated domain. */
  lemma Socks4ALayout(code: byte, port: nat, x: byte, user: seq<byte>, domain: seq<byte>)
    requires port < 0x1_0000
    ensures var header := [Version, code] + PortBytes(port) + [0, 0, 0, x];
            |header| == 8 && EncodeSocks4A(code, port, x, user, domain) == header + (user + [0]) + (domain + [0])
  {
  }

  /** ParseRequest composed from its three reads for a SOCKS4A header: header, user-id, domain. */
  lemma ParseSocks4AOf(input: seq<byte>, pos: nat, code: byte, port: nat, x: byte,
                       user: string, d: nat, domain: string, end: nat)
    requires pos <= |input| && port < 0x1_0000 && x != 0
    requires ReadFullAt(input, pos, 8) == Step(Ok([Version, code] + PortBytes(port) + [0, 0, 0, x]), pos + 8)
    requires ReadStringAt(input, pos + 8) == Step(Ok(user), d)
    requires d <= |input| && ReadStringAt(input, d) == Step(Ok(domain), end)
    ensures ParseRequest(input, pos) == Step(Ok(Request(Version, code, user, Text(domain), port)), end)
  {
    var header := [Version, code] + PortBytes(port) + [0, 0, 0, x];
    assert header[0] == Version && header[1] == code && BE16(header[2], header[3]) == port;
    assert IsSocks4A(header);
  }

  // ---------------------------------------------------------------------------
  // The handshake

  /** The 8-byte reply: byte 0 is 0, byte 1 the status, bytes 2-7 zero. */
  function ReplyBytes(status: byte): (r: seq<byte>)
    ensures |r| == 8 && r[0] == 0 && r[1] == status && forall i :: 2 <= i < 8 ==> r[i] == 0
  {
    [0, status, 0, 0, 0, 0, 0, 0]
  }

  /** The one reply write, if the peer still accepts a write. */
  function ReplyWrite(room: nat, at: nat, status: byte): (w: seq<Sent>)
  {
    if room > 0 then [Sent(at, ReplyBytes(status))] else []
  }

  /**
   * handleSocks4 up to the reply write, on the input from `pos`, when the
   * peer accepts `room` more writes.
   */
  function Session4(input: seq<byte>, pos: nat, room: nat, dial: Target -> DialResult): (s: Session<Target>)
    requires pos <= |input|
    ensures pos <= s.next <= |input| && |s.sent| <= 1 && |s.sent| <= room
  {
    var q := ParseRequest(input, pos);
    if q.out.Err? then Session(q.next, [], None, false)
    else if q.out.value.code != Connect then Session(q.next, ReplyWrite(room, q.next, Rejected), None, false)
    else
      var target := Target(q.out.value.host, q.out.value.port);
      if dial(target).Failed? then Session(q.next, ReplyWrite(room, q.next, Rejected), Some(target), false)
      else Session(q.next, ReplyWrite(room, q.next, Granted), Some(target), room > 0)
  }

  /** handleSocks4 up to the start of the relay; returns the target it dialed and whether it relays. */
  method Handle(s: Stream, dial: Target -> DialResult) returns (dialed: Option<Target>, relaying: bool)
    requires s.Valid()
    modifies s
    ensures s.Valid() && s.closed == old(s.closed)
    ensures var session := Session4(s.input, old(s.pos), old(s.Room()), dial);
            s.pos == session.next && s.log == old(s.log) + session.sent
            && dialed == session.dialed && relaying == session.relay
  {
    dialed, relaying := None, false;
    var request := ReadRequest(s);
    if request.Err? {
      return;
    }

    if request.value.code != Connect {
      var _ := WriteReply(s, Rejected);
      return;
    }

    var target := Target(request.value.host, request.value.port);
    dialed := Some(target);
    var outcome := dial(target);
    if outcome.Failed? {
      var _ := WriteReply(s, Rejected);
      return;
    }

    var ok := WriteReply(s, Granted);
    relaying := ok;
  }

  /** The 8-byte reply buffer of handleSocks4, zeroed, with the status in byte 1, written once. */
  method WriteReply(s: Stream, status: byte) returns (ok: bool)
    requires s.Valid()
    modifies s`log
    ensures s.Valid()
    ensures ok == (old(s.Room()) > 0) && s.log == old(s.log) + ReplyWrite(old(s.Room()), s.pos, status)
  {
    var reply := new byte[8](_ => 0);
    reply[1] := status;
    assert reply[..] == ReplyBytes(status);
    ok := s.Write(reply[..]);
  }

  // ---------------------------------------------------------------------------
  // Properties of the handshake

  /**
   * At most one write, issued after the whole request was read; it is an
   * 8-byte reply with status 90 or 91 (92 and 93 are never sent): 91 without
   * a dial for a command other than CONNECT, 91 after a failed dial, 90 after
   * a successful one, and only then does the relay start.
   */
  lemma ReplyOutcome(input: seq<byte>, pos: nat, room: nat, dial: Target -> DialResult)
    requires pos <= |input|
    ensures var s := Session4(input, pos, room, dial);
            var q := ParseRequest(input, pos);
            (s.sent != [] <==> q.out.Ok? && room > 0)
            && (q.out.Ok? && q.out.value.code != Connect ==> s.dialed.None?)
            && (q.out.Ok? && q.out.value.code == Connect ==>
                  s.dialed == Some(Target(q.out.value.host, q.out.value.port)))
            && (s.sent != [] ==>
                  s.sent[0].at == s.next == q.next
                  && var status := if s.dialed.Some? && dial(s.dialed.value).Connected? then Granted else Rejected;
                     s.sent[0].data == ReplyBytes(status) && status != RequestFailed && status != Unauthorized)
            && (s.relay <==> s.sent != [] && s.sent[0].data[1] == Granted)
  {
  }

  /**
   * A SOCKS4A CONNECT to example.com:80 with an empty user-id: the handler
   * dials example.com, not 0.0.0.1, and on success replies 00 5A 00 00 00 00 00 00.
   */
  lemma ConnectDomainExample(dial: Target -> DialResult)
    requires dial(Target(Text("example.com"), 80)).Connected?
    ensures var input: seq<byte> := [4, 1, 0, 80, 0, 0, 0, 1, 0, 101, 120, 97, 109, 112, 108, 101, 46, 99, 111, 109, 0];
            Session4(input, 0, 1, dial)
            == Session(21, [Sent(21, [0, 90, 0, 0, 0, 0, 0, 0])], Some(Target(Text("example.com"), 80)), true)
  {
    var input: seq<byte> := [4, 1, 0, 80, 0, 0, 0, 1, 0, 101, 120, 97, 109, 112, 108, 101, 46, 99, 111, 109, 0];
    DomainRequest(input);
    var target := Target(Text("example.com"), 80);
    assert Session4(input, 0, 1, dial) == Session(21, ReplyWrite(1, 21, Granted), Some(target), true);
  }

  /** The request of the domain example parses as CONNECT example.com:80 with an empty user-id. */
  lemma DomainRequest(input: seq<byte>)
    requires input == [4, 1, 0, 80, 0, 0, 0, 1, 0, 101, 120, 97, 109, 112, 108, 101, 46, 99, 111, 109, 0]
    ensures ParseRequest(input, 0) == Step(Ok(Request(Version, Connect, "", Text("example.com"), 80)), 21)
  {
    var domain: seq<byte> := [101, 120, 97, 109, 112, 108, 101, 46, 99, 111, 109];
    DomainText(domain);
    DomainEncoding(input, domain);
    assert input[0..|input|] == input;
    assert 0 !in domain;
    Socks4ARoundTrip(input, 0, 1, 80, 1, [], domain);
  }

  /** The request of the domain example is the SOCKS4A encoding of CONNECT to 0.0.0.1:80, no user-id, domain example.com. */
  lemma DomainEncoding(input: seq<byte>, domain: seq<byte>)
    requires input == [4, 1, 0, 80, 0, 0, 0, 1, 0, 101, 120, 97, 109, 112, 108, 101, 46, 99, 111, 109, 0]
    requires domain == [101, 120, 97, 109, 112, 108, 101, 46, 99, 111, 109]
    ensures EncodeSocks4A(1, 80, 1, [], domain) == input
  {
    assert PortBytes(80) == [0, 80];
  }

  /** The bytes of the domain example spell "example.com", and no bytes spell "". */
  lemma DomainText(domain: seq<byte>)
    requires domain == [101, 120, 97, 109, 112, 108, 101, 46, 99, 111, 109]
    ensures Chars(domain) == "example.com" && Chars([]) == ""
  {
    var name := Chars(domain);
    assert name[0] == 'e' && name[1] == 'x' && name[2] == 'a' && name[3] == 'm';
    assert name[4] == 'p' && name[5] == 'l' && name[6] == 'e' && name[7] == '.';
    assert name[8] == 'c' && name[9] == 'o' && name[10] == 'm';
  }
}

# juno-go SOCKS proxy core in Dafny

This project models the SOCKS part of juno-go, a proxy server written in Go.
It covers three things:

- The SOCKS5 handshake (RFC 1928), from method negotiation through the request to the reply, up to where the relay starts.
- The SOCKS4/SOCKS4A handshake and its 8-byte reply.
- The service around both handlers:
  - `NewServer` and its `bind` option;
  - listener registration and the accept loop;
  - closing every listener;
  - the one-byte version dispatch of each new connection.

The model's layout:

- `wire.dfy` (module `Wire`): octets, read failures, the big-endian port field and Go's `string(bytes)`.
- `stream.dfy` (module `Streams`): the per-connection stream.
  - The peer's input is a byte sequence with a read cursor. Every read operation has a pure specification over absolute positions (`ReadFullAt`, `ReadByteAt`, `ReadSliceAt`, `PeekAt`).
  - Output is a log of successful writes. Each write is stamped with the read position at which it was issued, so the order of reads and writes is part of every contract.
  - The peer accepts a fixed number of writes; later writes fail.
- `net.dfy` (module `Net`):
  - the error values a dial can return (`*net.OpError`, `*os.SyscallError`, `*net.DNSError`, `syscall.Errno`, anything else);
  - the dial target and the dial outcome;
  - the already-parsed text of a local address;
  - the dotted-decimal text of an IPv4 address.
- `socks5.dfy` (module `Socks5`) and `socks4.dfy` (module `Socks4`): the two handlers.
  - Each handler is an imperative method over a `Stream`.
  - Each is proved equal to a pure session function (`Session5`, `Session4`). The session function says how far the input is read, which writes reach the peer, what is dialed and whether the relay starts.
  - The protocol properties are lemmas about those functions.
- `server.dfy` (module `Server`):
  - `SocksService` is a class with the listener list, the dialer's local address and a log of listener `Close` calls;
  - `NewServer`;
  - the accept loop;
  - `HandleConnection` with its pure counterpart `ConnectionSession`.

The dialer, the resolver and the listeners' `Close`/`Accept` results are inputs:

- A dial is a total function from the target (host text and port) to either a connected local address or an error.
- `HandleConnection` hands the handler the dial function for this service's local address.
- Errno values are the Linux ones: ENETUNREACH 101, ETIMEDOUT 110, ECONNREFUSED 111.

Faithful quirks of the code:

- `socks4ReadString` never reports an error. The `err` declared in its `if` shadows the result, so a missing NUL yields `""` after consuming the rest of the input. As a result, `socks4ReadRequest` never fails after the header.
- An errno other than the three above maps to code 0 ("succeeded"). A failed dial with such an errno is therefore reported to the client as success, with the unchanged reply template.
- An unknown SOCKS5 address type consumes no address bytes and leaves the host empty. The port is still read from the next two bytes. If those two bytes are missing, the request fails with a short read and no reply is sent. Otherwise the handler answers without dialing: 7 ("command not supported") when the command is not CONNECT, since the command is checked first, and 8 ("address type not supported") for a CONNECT.
- When the local address of the dialed connection is not an IP literal, `setAddress` produces a 6-byte reply tagged 4 (IPv6) that carries no address (`AddressedNotIP`).

## Model

| member | source | states |
|---|---|---|
| Wire.BE16 | socks/socks5.go:165-170 | the port read from two bytes is below 65536; its high byte is the first byte and its low byte the second |
| Wire.PortBytes | socks/socks5.go:70 | the two port bytes written in a reply read back as the port |
| Wire.Chars | socks/socks5.go:154 | `string(b)` has one character per byte, each with that byte's value |
| Streams.ReadFullAt | socks/socks5.go:76-79 | io.ReadFull succeeds exactly when n bytes remain, yields exactly those bytes and advances by n; otherwise it fails with a short read after consuming the rest |
| Streams.ReadByteAt | socks/socks5.go:144-147 | ReadByte succeeds exactly when a byte remains, yields it and advances by one; at the end it fails without moving |
| Streams.FindFrom | socks/socks4.go:30 | the index found is the first delimiter at or after the position, or the end when there is none |
| Streams.ReadSliceAt | socks/socks4.go:30 | ReadSlice succeeds exactly when the delimiter occurs in the rest of the input; the slice runs up to and including its first occurrence; otherwise everything is consumed and it fails |
| Streams.PeekAt | socks/server.go:78-81 | Peek succeeds exactly when n bytes remain and yields them without consuming anything |
| Streams.Stream.constructor | util/stream.go:34-39 | a new stream starts at position 0 with nothing written and is open |
| Streams.Stream.ReadFull | util/stream.go:9-12 | the read through the stream's buffered reader yields and consumes what ReadFullAt specifies |
| Streams.Stream.ReadByte | util/stream.go:9-12 | the read yields and consumes what ReadByteAt specifies |
| Streams.Stream.ReadSlice | util/stream.go:9-12 | the read yields and consumes what ReadSliceAt specifies |
| Streams.Stream.Peek | util/stream.go:9-12 | the peek yields PeekAt and consumes nothing |
| Streams.Stream.Write | util/stream.go:14-16 | a write succeeds exactly when the peer still accepts one; only then is it logged, stamped with the current read position |
| Streams.Stream.Close | util/stream.go:18-20 | the stream is closed afterwards |
| Net.Cause | socks/socks5.go:176-182 | the cause under any nesting of OpError/SyscallError wrappers is not itself a wrapper |
| Net.Decimal | socks/socks5.go:141 | the decimal text of an octet has one to three digits and no leading zero |
| Net.DecimalRoundTrip | socks/socks5.go:141 | the digits of the decimal text of an octet read back as that octet |
| Net.DottedQuad | socks/socks4.go:66 | the text of a 4-byte IP has 7 to 15 characters and is never empty |
| Socks5.Reply.constructor | socks/socks5.go:43-48 | a new reply is the 10 bytes 05 00 00 01 00 00 00 00 00 00 |
| Socks5.Addressed | socks/socks5.go:50-73 | setAddress succeeds exactly when the address text splits and its port is a 16-bit number; on error the error says which; on success bytes 0-2 are kept and the last two bytes encode the port |
| Socks5.Reply.SetAddress | socks/socks5.go:50-73 | on success the reply becomes Addressed's value; on a malformed address or port it reports the error and is left unchanged |
| Socks5.AddressedIPv4 | socks/socks5.go:61-64 | an IPv4 local address gives a well-formed 10-byte reply tagged 1 that carries its four octets and port |
| Socks5.AddressedIPv6 | socks/socks5.go:65-70 | any other IP gives a well-formed 22-byte reply tagged 4 that carries all sixteen octets and the port |
| Socks5.AddressedNotIP | socks/socks5.go:61-70 | a host that is not an IP literal gives a 6-byte reply tagged 4; the tag and the length disagree |
| Socks5.ParseMethods | socks/socks5.go:75-97 | negotiation succeeds exactly when the version is 5, the count is at least 1 and that many methods follow; it yields exactly those bytes and consumes exactly the message; a short header or short method list is a short read that consumes the rest of the input, a version other than 5 fails with that version and a count of 0 fails as an invalid count, both after the 2-byte header |
| Socks5.ReadMethods | socks/socks5.go:75-97 | the stream reads what ParseMethods specifies |
| Socks5.MethodsRoundTrip | socks/socks5.go:75-97 | an encoded negotiation message is read back as its methods and consumed exactly |
| Socks5.FindMethod | socks/socks5.go:99-109 | the answer is 0xFF or a method both offered by the server and wanted by the client |
| Socks5.FindMethodFirstMatch | socks/socks5.go:99-109 | FindMethod answers the first available method that is wanted, and 0xFF when none is |
| Socks5.NegotiatedMethod | socks/socks5.go:211-213 | the chosen method is 00 exactly when the client offers 00, and FF otherwise |
| Socks5.Request.Host | socks/socks5.go:134-163 | the host is empty exactly for an unknown address type or a zero-length domain |
| Socks5.ReadAddressAt | socks/socks5.go:134-163 | type 1 consumes 4 bytes, type 4 consumes 16, type 3 consumes a length byte and that many name bytes; any other type consumes nothing and gives no address |
| Socks5.ParseRequest | socks/socks5.go:118-173 | a short header is a short read that consumes the rest of the input; a bad version fails after the 4-byte header; a parsed request has version 5, the sent command, and the port from the last two bytes read |
| Socks5.ParseRequestByParts | socks/socks5.go:134-170 | after a version-5 header the request parses exactly when the address for its type and then two port bytes are present; it carries that address and the port from the two bytes right after it; a short address fails with the address read's error, a short port with a short read |
| Socks5.TruncatedRequestFails | socks/socks5.go:135-139 | `05 01 00 01 7F 00`, cut off inside its IPv4 address, is a short read and yields no request |
| Socks5.ReadRequest | socks/socks5.go:118-173 | the stream reads what ParseRequest specifies |
| Socks5.AddressRoundTrip | socks/socks5.go:134-163 | an encoded address of each type is read back after its tag as the same address, consuming exactly its encoding |
| Socks5.RequestRoundTrip | socks/socks5.go:118-173 | for every address type and any reserved byte, an encoded request is read back with the same command, address and port, and consumed exactly |
| Socks5.UnknownAddressType | socks/socks5.go:134-170 | an unknown address type gives an empty host; the port is read from bytes 4-5 |
| Socks5.MapErrToCode | socks/socks5.go:175-203 | the code is one of 0, 1, 3, 4, 5, 6 |
| Socks5.MapErrToCodeByCause | socks/socks5.go:175-203 | under any nesting of wrappers each code comes from its cause: DNS error 4, ECONNREFUSED 5, ENETUNREACH 3, ETIMEDOUT 6, other error type 1, any other errno 0 |
| Socks5.Session5 | socks/socks5.go:205-254 | the handshake stays within the input and makes at most two writes, never more than the peer accepts |
| Socks5.Handle | socks/socks5.go:205-254 | handleSocks5 reads, writes, dials and starts the relay exactly as Session5 specifies, and does not close the stream |
| Socks5.MethodReplyFirst | socks/socks5.go:206-216 | nothing is written unless the negotiation message parsed; the first write is the 05/method reply, issued before any request byte is read |
| Socks5.NoAcceptableMethodStops | socks/socks5.go:217-219 | after a 05 FF reply nothing more is read, written or dialed |
| Socks5.ReplyAfterRequest | socks/socks5.go:221-254 | a dial, a second write or a relay happens only after "no authentication" was agreed and the whole request was read; the second write is the request's reply; the relay starts exactly when the dial succeeded and the reply was written |
| Socks5.CommandCheckedFirst | socks/socks5.go:228-232 | a command other than CONNECT gets status 7 and no dial, whatever the host |
| Socks5.EmptyHostRejected | socks/socks5.go:234-238 | a CONNECT with an empty host gets status 8 and no dial |
| Socks5.Respond | socks/socks5.go:226-254 | the reply starts with 5 and is at least 6 bytes; a dial happens exactly for a CONNECT with a non-empty host, and it targets that host and the request's port; the relay follows exactly a successful dial, with status 0; every other verdict is the 10-byte template with only its status byte changed |
| Socks5.DialOutcomeReply | socks/socks5.go:240-254 | a CONNECT dials exactly its host and port; a failed dial is answered with the mapped code in the 10-byte template; a successful one with status 0 and the local address |
| Socks5.FullHandshake | socks/socks5.go:205-254 | when the client offers "no authentication", the request parses and the peer accepts two writes: 05 00 after the negotiation message, then the request's reply after the request, with the request's dial and relay |
| Socks5.Answer | socks/socks5.go:226-254 | after the request, the reply Respond gives is written once, stamped after the whole request; the dial is Respond's; the relay starts only after a successful dial whose reply reached the peer |
| Socks5.ConnectLoopbackExample | socks/socks5.go:205-254 | the RFC 1928 exchange for CONNECT 127.0.0.1:80, when the dial connects from 127.0.0.1:1080, writes 05 00 after 3 bytes, then 05 00 00 01 7F 00 00 01 04 38 after 13 |
| Socks4.ReadStringAt | socks/socks4.go:29-35 | reading a string never fails; with a NUL ahead it yields the bytes before the first NUL and consumes the NUL; without one it yields "" and consumes everything |
| Socks4.ReadString | socks/socks4.go:29-35 | the stream reads what ReadStringAt specifies, and the error result is always nil |
| Socks4.ReadStringOf | socks/socks4.go:29-35 | a NUL-free run followed by NUL is read back as exactly that run |
| Socks4.IsSocks4A | socks/socks4.go:60 | the SOCKS4A sentinel holds exactly when the 4 address bytes, read as a big-endian number, lie between 1 and 255 (the address 0.0.0.x with x not 0) |
| Socks4.ParseRequest | socks/socks4.go:37-70 | a request parses exactly when 8 header bytes remain and the version is 4; a short header or bad version gives the matching error; a request carries the header's code and big-endian port |
| Socks4.ReadRequest | socks/socks4.go:37-70 | the stream reads what ParseRequest specifies |
| Socks4.AddressForm | socks/socks4.go:48-67 | the user-id is always read after the header; a 0.0.0.x header (x nonzero) takes the next string as host, any other takes the dotted-decimal address |
| Socks4.Socks4ARoundTrip | socks/socks4.go:37-70 | an encoded SOCKS4A request is read back with its user-id, the domain (not 0.0.0.x) as host and its port, and consumed exactly |
| Socks4.ReplyBytes | socks/socks4.go:78-81 | the reply is 8 bytes: 0, the status, then six zeros |
| Socks4.WriteReply | socks/socks4.go:78-97 | the zeroed 8-byte reply with the status in byte 1 is written once, if the peer still accepts a write |
| Socks4.Session4 | socks/socks4.go:72-99 | the handshake stays within the input and makes at most one write, never more than the peer accepts |
| Socks4.Handle | socks/socks4.go:72-99 | handleSocks4 reads, writes, dials and starts the relay exactly as Session4 specifies, and does not close the stream |
| Socks4.ReplyOutcome | socks/socks4.go:72-99 | one write exactly when the request parsed; it comes after the whole request; a non-CONNECT gets 91 without a dial; CONNECT dials host and port and gets 90 or 91 by the dial outcome; 92 and 93 are never sent; the relay starts exactly after a written 90 |
| Socks4.ConnectDomainExample | socks/socks4.go:72-99 | a SOCKS4A CONNECT to example.com:80 dials example.com and answers 00 5A 00 00 00 00 00 00 after all 21 bytes |
| Server.Configure | socks/server.go:16-32 | setup fails exactly when "bind" is a string whose resolution with ":0" fails; the error is returned; otherwise a local address is set exactly when "bind" is a string, and it is that resolution |
| Server.NewServer | socks/server.go:16-32 | a failed setup gives no server and the error; otherwise a new server with no listeners and Configure's local address |
| Server.SocksService.constructor | socks/server.go:17-20 | a new service has no listeners and has issued no Close calls |
| Server.SocksService.Serve | socks/server.go:48-52 | the listener is appended and earlier entries are kept; nil is returned |
| Server.LastError | socks/server.go:38-45 | no error is reported exactly when every listener closes cleanly |
| Server.LastErrorIsLast | socks/server.go:38-45 | a reported error is the close error of a listener after which every listener closed cleanly |
| Server.LastErrorAppend | socks/server.go:38-45 | a listener added later overrides the reported error when its Close fails |
| Server.SocksService.Close | socks/server.go:34-46 | Close is called on every listener in registration order; the last failure is returned; the list is unchanged |
| Server.FirstFatal | socks/server.go:57-65 | the index found is the first accept error that is not temporary; everything before it is a connection or a temporary error |
| Server.Connections | socks/server.go:57-67 | the outcomes kept are exactly the connections: each one kept is a connection from the outcomes, and every connection among the outcomes is kept |
| Server.ConnectionsAppend | socks/server.go:57-67 | connections are kept in the order they were accepted: one more outcome appends itself when it is a connection and adds nothing otherwise |
| Server.AcceptLoop | socks/server.go:54-69 | the loop closes the listener exactly when some accept error is not temporary; every connection before the first such error is handed to handleConnection; temporary errors are skipped |
| Server.ConnectionSession | socks/server.go:74-90 | the dispatch stays within the input and writes no more than the peer accepts |
| Server.SocksService.HandleConnection | socks/server.go:74-90 | the connection is handled as ConnectionSession specifies with this service's dialer, and the stream is closed afterwards |
| Server.UnknownVersionIgnored | socks/server.go:78-89 | a first byte other than 4 or 5, or no byte at all, runs no handler: nothing read, written or dialed |
| Server.DispatchByVersion | socks/server.go:83-89 | with 4 the session is the SOCKS4 handler's and its first write is an 8-byte SOCKS4 reply; with 5 it is the SOCKS5 handler's and its first write is 05 00 or 05 FF |

## Left out

- The relay (`io.Copy` in both directions and its goroutine) is left out. The model stops where the relay would start and reports whether it does.
- Concurrency is left out: the accept goroutine, `go handleConnection`, and the service's mutex. `AcceptLoop` is a sequential loop over given Accept outcomes, and each connection's handling is `HandleConnection`, taken separately.
- The internals of `Dialer.Dial`, `Listener.Accept`, `Listener.Close` and `net.ResolveTCPAddr` are left out. Their results are inputs. A listener's Close error is fixed per listener.
- The deferred `dest.Close()` of the dialed connection is not modelled.
- `net.SplitHostPort`, `strconv.ParseUint` and `net.ParseIP` on the local address text are not modelled. The local address arrives already split and parsed (`AddrText`).
- `net.JoinHostPort` and `fmt.Sprint` are left out. The dial target is the host text with the numeric port.
- Socks5.Request.Host: the canonical text of a 16-byte IPv6 address (`net.IP.String`) is abstract (`IPv6Text`). It is known only to be non-empty. Such a host is also always distinct from every text host (`Text`), whereas Go may render two requests as the same dial string: an IPv4-mapped address such as `::ffff:127.0.0.1` prints as `127.0.0.1`, and a domain request naming "::1" gives the same string as the IPv6 address ::1. No property here depends on this, since each one holds for any dial function.
- Streams.Stream.ReadSlice: bufio's buffer-full case (no delimiter within 4096 bytes) is not modelled; the delimiter is searched for in the whole remaining input.
- The Go integer widths are implicit. The 16-bit port is a `nat` below 65536, and every byte value is below 256.
- `SetDeadline`, `SetReadDeadline` and `SetWriteDeadline` of util/stream.go are not used by the handlers and are not modelled.
- Partial writes are not modelled: a write either reaches the peer whole or fails.
- The service entry points, the main programs, the shared listener setup and the HTTP proxy are not part of this model.

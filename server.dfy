/**
 * The SOCKS service (socks/server.go): the listeners it serves, the optional
 * local address its dialer binds to, the accept loop run for each listener,
 * and the per-connection dispatch on the first byte to the SOCKS4 or the
 * SOCKS5 handler.
 */
module Server {
  import opened Wire
  import opened Streams
  import opened Net
  import Socks4
  import Socks5

  /** A listener, with the error its Close returns (None for nil). */
  datatype Listener = Listener(id: nat, closeErr: Option<NetError>)

  /** A value of the configuration map: a Go string, or a value of any other type. */
  datatype ConfigValue = Str(text: string) | NotString

  /** A resolved TCP address (net.TCPAddr). */
  datatype TcpAddr = TcpAddr(ip: Option<IP16>, port: nat)

  /** What net.ResolveTCPAddr("tcp", text) gives. */
  datatype Resolution = Resolved(addr: TcpAddr) | Unresolved(err: NetError)

  /** What NewServer produces: the dialer's local address, or the error that aborted it. */
  datatype Setup = Configured(localAddr: Option<TcpAddr>) | SetupFailed(err: NetError)

  /**
   * The dialer's local address as NewServer derives it from the "bind" entry:
   * none when the entry is missing or not a string, otherwise the resolution
   * of the entry with ":0" appended, whose failure aborts the setup.
   */
  function Configure(config: map<string, ConfigValue>, resolve: string -> Resolution): (s: Setup)
    ensures s.SetupFailed? <==> "bind" in config && config["bind"].Str?
                                && resolve(config["bind"].text + ":0").Unresolved?
    ensures s.SetupFailed? ==> s.err == resolve(config["bind"].text + ":0").err
    ensures s.Configured? ==> (s.localAddr.Some? <==> "bind" in config && config["bind"].Str?)
    ensures s.Configured? && s.localAddr.Some? ==> Resolved(s.localAddr.value) == resolve(config["bind"].text + ":0")
  {
    if "bind" in config && config["bind"].Str? then
      match resolve(config["bind"].text + ":0")
      case Unresolved(e) => SetupFailed(e)
      case Resolved(a) => Configured(Some(a))
    else Configured(None)
  }

  /**
   * The error Close reports for closing `ls` in order: that of the last
   * listener whose Close failed, or None when none failed.
   */
  function LastError(ls: seq<Listener>): (e: Option<NetError>)
    ensures e.None? <==> forall i :: 0 <= i < |ls| ==> ls[i].closeErr.None?
  {
    if ls == [] then None
    else if ls[|ls| - 1].closeErr.Some? then ls[|ls| - 1].closeErr
    else
      assert forall i :: 0 <= i < |ls| - 1 ==> ls[..|ls| - 1][i] == ls[i];
      LastError(ls[..|ls| - 1])
  }

  /** A reported error is the close error of a listener after which every Close succeeded. */
  lemma {:induction false} LastErrorIsLast(ls: seq<Listener>)
    requires LastError(ls).Some?
    ensures exists k :: 0 <= k < |ls| && ls[k].closeErr == LastError(ls)
                        && forall j :: k < j < |ls| ==> ls[j].closeErr.None?
  {
    var n := |ls| - 1;
    if ls[n].closeErr.None? {
      var init := ls[..n];
      LastErrorIsLast(init);
      var k :| 0 <= k < |init| && init[k].closeErr == LastError(init)
               && forall j :: k < j < |init| ==> init[j].closeErr.None?;
      assert ls[k].closeErr == LastError(ls) && forall j :: k < j < |ls| ==> ls[j].closeErr.None?;
    } else {
      assert ls[n].closeErr == LastError(ls);
    }
  }

  /**
   * handleConnection on the input from `pos`, when the peer accepts `room`
   * more writes: the first byte is peeked, not consumed; 4 runs the SOCKS4
   * handler, 5 the SOCKS5 handler, anything else (or no byte at all) none.
   */
  function ConnectionSession(input: seq<byte>, pos: nat, room: nat, dial: Target -> DialResult): (c: Session<Target>)
    requires pos <= |input|
    ensures pos <= c.next <= |input| && |c.sent| <= room
  {
    match PeekAt(input, pos, 1)
    case Err(_) => Session(pos, [], None, false)
    case Ok(b) =>
      if b[0] == Socks4.Version then Socks4.Session4(input, pos, room, dial)
      else if b[0] == Socks5.Version then Socks5.Session5(input, pos, room, dial)
      else Session(pos, [], None, false)
  }

  /** One outcome of Listener.Accept: a connection, or an error that is or is not temporary. */
  datatype Accepted = Conn(input: seq<byte>, writable: nat) | AcceptError(temporary: bool)

  /** The index of the first accept error that is not temporary, or |outcomes| when there is none. */
  function FirstFatal(outcomes: seq<Accepted>): (k: nat)
    ensures k <= |outcomes|
    ensures k < |outcomes| ==> outcomes[k].AcceptError? && !outcomes[k].temporary
    ensures forall j :: 0 <= j < k ==> outcomes[j].Conn? || outcomes[j].temporary
  {
    if outcomes == [] || (outcomes[0].AcceptError? && !outcomes[0].temporary) then 0
    else 1 + FirstFatal(outcomes[1..])
  }

  /** The connections among `outcomes`, in order. */
  function Connections(outcomes: seq<Accepted>): (cs: seq<Accepted>)
    ensures |cs| <= |outcomes|
    ensures forall c :: c in cs ==> c.Conn? && c in outcomes
    ensures forall i :: 0 <= i < |outcomes| && outcomes[i].Conn? ==> outcomes[i] in cs
  {
    if outcomes == [] then []
    else if outcomes[0].Conn? then [outcomes[0]] + Connections(outcomes[1..])
    else Connections(outcomes[1..])
  }

  lemma {:induction false} ConnectionsAppend(outcomes: seq<Accepted>, a: Accepted)
    ensures Connections(outcomes + [a]) == Connections(outcomes) + (if a.Conn? then [a] else [])
  {
    if outcomes != [] {
      assert (outcomes + [a])[1..] == outcomes[1..] + [a];
      ConnectionsAppend(outcomes[1..], a);
    } else {
      assert Connections([a][1..]) == [];
    }
  }

  lemma ConnectionsStep(outcomes: seq<Accepted>, i: nat)
    requires i < |outcomes|
    ensures Connections(outcomes[..i + 1])
            == Connections(outcomes[..i]) + (if outcomes[i].Conn? then [outcomes[i]] else [])
  {
    assert outcomes[..i + 1] == outcomes[..i] + [outcomes[i]];
    ConnectionsAppend(outcomes[..i], outcomes[i]);
  }

  lemma {:induction false} FirstFatalAt(outcomes: seq<Accepted>, k: nat)
    requires k <= |outcomes|
    requires k < |outcomes| ==> outcomes[k].AcceptError? && !outcomes[k].temporary
    requires forall j :: 0 <= j < k ==> outcomes[j].Conn? || outcomes[j].temporary
    ensures FirstFatal(outcomes) == k
  {
    if k > 0 {
      FirstFatalAt(outcomes[1..], k - 1);
    }
  }

  /** Some accept error is not temporary exactly when FirstFatal stops before the end. */
  lemma FatalExists(outcomes: seq<Accepted>)
    ensures (exists k :: 0 <= k < |outcomes| && outcomes[k].AcceptError? && !outcomes[k].temporary)
            <==> FirstFatal(outcomes) < |outcomes|
  {
    var k := FirstFatal(outcomes);
    if k < |outcomes| {
      assert outcomes[k].AcceptError? && !outcomes[k].temporary;
    }
  }

  /**
   * The accept goroutine of Serve, over the outcomes its Accept calls
   * return: every connection is handed to handleConnection, a temporary
   * error is skipped, and the first other error ends the loop, which then
   * closes the listener.  When the outcomes run out first the loop is still
   * waiting in Accept and the listener stays open.
   */
  method AcceptLoop(outcomes: seq<Accepted>) returns (served: seq<Accepted>, closesListener: bool)
    ensures closesListener <==> exists k :: 0 <= k < |outcomes| && outcomes[k].AcceptError? && !outcomes[k].temporary
    ensures served == Connections(outcomes[..FirstFatal(outcomes)])
  {
    FatalExists(outcomes);
    served, closesListener := [], false;
    var i := 0;
    while i < |outcomes|
      invariant 0 <= i <= |outcomes|
      invariant forall j :: 0 <= j < i ==> outcomes[j].Conn? || outcomes[j].temporary
      invariant served == Connections(outcomes[..i])
    {
      var outcome := outcomes[i];
      if outcome.AcceptError? {
        if outcome.temporary {
          ConnectionsStep(outcomes, i);
          i := i + 1;
          continue;
        } else {
          FirstFatalAt(outcomes, i);
          closesListener := true;
          return;
        }
      }
      ConnectionsStep(outcomes, i);
      served := served + [outcome];
      i := i + 1;
    }
    FirstFatalAt(outcomes, i);
    assert outcomes[..i] == outcomes;
  }

  /** The SOCKS service: its listeners, its dialer's local address, and the Close calls it issued. */
  class SocksService {
    var listeners: seq<Listener>
    var localAddr: Option<TcpAddr>
    /** The listener Close calls issued so far, in order (the listeners' own state is not modelled). */
    var closeCalls: seq<Listener>

    constructor (localAddr: Option<TcpAddr>)
      ensures listeners == [] && this.localAddr == localAddr && closeCalls == []
    {
      listeners := [];
      this.localAddr := localAddr;
      closeCalls := [];
    }

    /** Close: every listener is closed in registration order, even after a failure; the last failure is reported. */
    method Close() returns (finalErr: Option<NetError>)
      modifies this`closeCalls
      ensures closeCalls == old(closeCalls) + listeners
      ensures finalErr == LastError(listeners)
    {
      finalErr := None;
      var i := 0;
      while i < |listeners|
        invariant 0 <= i <= |listeners|
        invariant closeCalls == old(closeCalls) + listeners[..i]
        invariant finalErr == LastError(listeners[..i])
      {
        var l := listeners[i];
        closeCalls := closeCalls + [l];
        if l.closeErr.Some? {
          finalErr := l.closeErr;
        }
        assert listeners[..i + 1][..i] == listeners[..i];
        i := i + 1;
      }
      assert listeners[..i] == listeners;
    }

    /** Serve: the listener joins the end of the list and nil is returned (its accept loop is AcceptLoop). */
    method Serve(l: Listener) returns (err: Option<NetError>)
      modifies this`listeners
      ensures listeners == old(listeners) + [l] && err.None?
    {
      listeners := listeners + [l];
      err := None;
    }

    /**
     * handleConnection: peek one byte, run the handler it selects with a
     * dialer bound to this service's local address, then close the stream.
     */
    method HandleConnection(s: Stream, dial: Option<TcpAddr> -> Target -> DialResult)
        returns (dialed: Option<Target>, relaying: bool)
      requires s.Valid()
      modifies s
      ensures s.Valid() && s.closed
      ensures var c := ConnectionSession(s.input, old(s.pos), old(s.Room()), dial(localAddr));
              s.pos == c.next && s.log == old(s.log) + c.sent && dialed == c.dialed && relaying == c.relay
    {
      dialed, relaying := None, false;
      var buffer := s.Peek(1);
      if buffer.Ok? {
        if buffer.value[0] == Socks4.Version {
          dialed, relaying := Socks4.Handle(s, dial(localAddr));
        } else if buffer.value[0] == Socks5.Version {
          dialed, relaying := Socks5.Handle(s, dial(localAddr));
        }
      }
      s.Close();
    }
  }

  /**
   * NewServer: an empty service whose dialer binds to the resolved "bind"
   * address when there is one; a resolve failure yields no service and the error.
   */
  method NewServer(config: map<string, ConfigValue>, resolve: string -> Resolution)
      returns (server: SocksService?, err: Option<NetError>)
    ensures match Configure(config, resolve)
            case SetupFailed(e) => server == null && err == Some(e)
            case Configured(addr) =>
              server != null && fresh(server) && err.None?
              && server.listeners == [] && server.localAddr == addr && server.closeCalls == []
  {
    var localAddr: Option<TcpAddr> := None;
    if "bind" in config && config["bind"].Str? {
      var resolved := resolve(config["bind"].text + ":0");
      if resolved.Unresolved? {
        return null, Some(resolved.err);
      }
      localAddr := Some(resolved.addr);
    }
    server := new SocksService(localAddr);
    err := None;
  }

  // ---------------------------------------------------------------------------
  // Properties of the dispatch

  /**
   * A connection whose first byte is neither 4 nor 5, or that ends before
   * its first byte, is read no further, gets no write and dials nothing.
   */
  lemma UnknownVersionIgnored(input: seq<byte>, pos: nat, room: nat, dial: Target -> DialResult)
    requires pos <= |input|
    requires pos == |input| || (input[pos] != Socks4.Version && input[pos] != Socks5.Version)
    ensures ConnectionSession(input, pos, room, dial) == Session(pos, [], None, false)
  {
  }

  /**
   * The first byte selects exactly one protocol: with 4 the session is the
   * SOCKS4 handler's and its first write is an 8-byte SOCKS4 reply; with 5
   * it is the SOCKS5 handler's and its first write is the 2-byte method
   * reply `05 00` or `05 FF`.
   */
  lemma DispatchByVersion(input: seq<byte>, pos: nat, room: nat, dial: Target -> DialResult)
    requires pos < |input|
    ensures var c := ConnectionSession(input, pos, room, dial);
            (input[pos] == Socks4.Version ==>
               c == Socks4.Session4(input, pos, room, dial)
               && (c.sent != [] ==> |c.sent[0].data| == 8 && c.sent[0].data[0] == 0))
            && (input[pos] == Socks5.Version ==>
               c == Socks5.Session5(input, pos, room, dial)
               && (c.sent != [] ==> c.sent[0].data == [Socks5.Version, Socks5.AuthNone]
                                    || c.sent[0].data == [Socks5.Version, Socks5.AuthUnsupported]))
  {
    if input[pos] == Socks4.Version {
      Socks4.ReplyOutcome(input, pos, room, dial);
    } else if input[pos] == Socks5.Version {
      Socks5.MethodReplyFirst(input, pos, room, dial);
      var m := Socks5.ParseMethods(input, pos);
      if m.out.Ok? {
        Socks5.NegotiatedMethod(m.out.value);
      }
    }
  }

  /** A service that served `ls` and then `l` reports l's close error when it has one, else that of `ls`. */
  lemma {:induction false} LastErrorAppend(ls: seq<Listener>, l: Listener)
    ensures LastError(ls + [l]) == if l.closeErr.Some? then l.closeErr else LastError(ls)
  {
    assert (ls + [l])[..|ls|] == ls;
  }
}

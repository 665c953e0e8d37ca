/**
 * The per-connection stream (util/stream.go): reads go through a buffered
 * reader, writes go straight to the connection.  The connection's input is
 * modelled as the whole byte sequence the peer sends and a read cursor; its
 * output as a log of the writes that succeeded, each stamped with the read
 * position at which it was issued, so that the order of reads and writes is
 * observable.
 */
module Streams {
  import opened Wire

  /** One successful write: `at` bytes of input had been consumed when it was issued. */
  datatype Sent = Sent(at: nat, data: seq<byte>)

  /** The outcome of one read step and the read position after it. */
  datatype Step<T> = Step(out: Result<T>, next: nat)

  /** io.ReadFull: `n` bytes, or, when fewer remain, everything left and an error. */
  function ReadFullAt(input: seq<byte>, pos: nat, n: nat): (r: Step<seq<byte>>)
    requires pos <= |input|
    ensures pos <= r.next <= |input|
    ensures r.out.Ok? <==> pos + n <= |input|
    ensures r.out.Ok? ==> r.next == pos + n && r.out.value == input[pos..r.next]
    ensures r.out.Err? ==> r.next == |input| && r.out.error == ShortRead
  {
    if pos + n <= |input| then Step(Ok(input[pos..pos + n]), pos + n)
    else Step(Err(ShortRead), |input|)
  }

  /** bufio.Reader.ReadByte. */
  function ReadByteAt(input: seq<byte>, pos: nat): (r: Step<byte>)
    requires pos <= |input|
    ensures pos <= r.next <= |input|
    ensures r.out.Ok? <==> pos < |input|
    ensures r.out.Ok? ==> r.next == pos + 1 && r.out.value == input[pos]
    ensures r.out.Err? ==> r.next == pos
  {
    if pos < |input| then Step(Ok(input[pos]), pos + 1) else Step(Err(ShortRead), pos)
  }

  /** The index of the first `delim` at or after `pos`, or |input| when there is none. */
  function FindFrom(input: seq<byte>, pos: nat, delim: byte): (k: nat)
    requires pos <= |input|
    decreases |input| - pos
    ensures pos <= k <= |input|
    ensures k < |input| ==> input[k] == delim
    ensures forall j :: pos <= j < k ==> input[j] != delim
  {
    if pos == |input| || input[pos] == delim then pos else FindFrom(input, pos + 1, delim)
  }

  /**
   * bufio.Reader.ReadSlice: the bytes up to and including the first `delim`.
   * Without a delimiter it consumes what is left and fails (the buffer-full
   * case of bufio is not modelled).
   */
  function ReadSliceAt(input: seq<byte>, pos: nat, delim: byte): (r: Step<seq<byte>>)
    requires pos <= |input|
    ensures pos <= r.next <= |input|
    ensures r.out.Ok? <==> delim in input[pos..]
    ensures r.out.Ok? ==> r.next > pos && r.out.value == input[pos..r.next]
                          && input[r.next - 1] == delim && delim !in input[pos..r.next - 1]
    ensures r.out.Err? ==> r.next == |input|
  {
    var k := FindFrom(input, pos, delim);
    if k < |input| then Step(Ok(input[pos..k + 1]), k + 1)
    else
      assert forall j :: pos <= j < |input| ==> input[j] != delim;
      Step(Err(ShortRead), |input|)
  }

  /** bufio.Reader.Peek: the next `n` bytes without consuming them. */
  function PeekAt(input: seq<byte>, pos: nat, n: nat): (r: Result<seq<byte>>)
    requires pos <= |input|
    ensures r.Ok? <==> pos + n <= |input|
    ensures r.Ok? ==> r.value == input[pos..pos + n]
  {
    if pos + n <= |input| then Ok(input[pos..pos + n]) else Err(ShortRead)
  }

  /**
   * What one handler does to a connection: the read position it stops at,
   * the writes that reached the peer, the destination it dialed (if any) and
   * whether it went on to relay.
   */
  datatype Session<D> = Session(next: nat, sent: seq<Sent>, dialed: Option<D>, relay: bool)

  class Stream {
    /** Every byte the peer sends on this connection. */
    const input: seq<byte>
    /** How many bytes the buffered reader has handed out so far. */
    var pos: nat
    /** How many writes the peer accepts before the connection breaks. */
    const writable: nat
    /** The writes that reached the connection, in order. */
    var log: seq<Sent>
    var closed: bool

    ghost predicate Valid()
      reads this
    {
      pos <= |input| && |log| <= writable
    }

    /** Writes this stream still accepts. */
    function Room(): (n: nat)
      reads this
      requires Valid()
      ensures n + |log| == writable
    {
      writable - |log|
    }

    /** util.NewStream: a fresh reader over the connection. */
    constructor (input: seq<byte>, writable: nat)
      ensures Valid() && this.input == input && this.writable == writable
      ensures pos == 0 && log == [] && !closed
    {
      this.input := input;
      this.writable := writable;
      pos := 0;
      log := [];
      closed := false;
    }

    method ReadFull(n: nat) returns (r: Result<seq<byte>>)
      requires Valid()
      modifies this`pos
      ensures Valid()
      ensures Step(r, pos) == ReadFullAt(input, old(pos), n)
    {
      if pos + n <= |input| {
        r := Ok(input[pos..pos + n]);
        pos := pos + n;
      } else {
        r := Err(ShortRead);
        pos := |input|;
      }
    }

    method ReadByte() returns (r: Result<byte>)
      requires Valid()
      modifies this`pos
      ensures Valid()
      ensures Step(r, pos) == ReadByteAt(input, old(pos))
    {
      if pos < |input| {
        r := Ok(input[pos]);
        pos := pos + 1;
      } else {
        r := Err(ShortRead);
      }
    }

    method ReadSlice(delim: byte) returns (r: Result<seq<byte>>)
      requires Valid()
      modifies this`pos
      ensures Valid()
      ensures Step(r, pos) == ReadSliceAt(input, old(pos), delim)
    {
      var k := pos;
      while k < |input| && input[k] != delim
        invariant pos <= k <= |input|
        invariant forall j :: pos <= j < k ==> input[j] != delim
        decreases |input| - k
      {
        k := k + 1;
      }
      assert k == FindFrom(input, pos, delim) by {
        FindFromFirst(input, pos, delim, k);
      }
      if k < |input| {
        r := Ok(input[pos..k + 1]);
        pos := k + 1;
      } else {
        r := Err(ShortRead);
        pos := |input|;
      }
    }

    method Peek(n: nat) returns (r: Result<seq<byte>>)
      requires Valid()
      ensures r == PeekAt(input, pos, n)
    {
      if pos + n <= |input| {
        r := Ok(input[pos..pos + n]);
      } else {
        r := Err(ShortRead);
      }
    }

    /** Stream.Write: straight to the connection; fails once the peer stops accepting. */
    method Write(data: seq<byte>) returns (ok: bool)
      requires Valid()
      modifies this`log
      ensures Valid()
      ensures ok == (old(|log|) < writable)
      ensures log == if ok then old(log) + [Sent(pos, data)] else old(log)
    {
      ok := |log| < writable;
      if ok {
        log := log + [Sent(pos, data)];
      }
    }

    method Close()
      modifies this`closed
      ensures closed
    {
      closed := true;
    }
  }

  /** Any index that has only non-delimiters before it and is a delimiter or the end is FindFrom's answer. */
  lemma {:induction false} FindFromFirst(input: seq<byte>, pos: nat, delim: byte, k: nat)
    requires pos <= k <= |input|
    requires forall j :: pos <= j < k ==> input[j] != delim
    requires k < |input| ==> input[k] == delim
    ensures FindFrom(input, pos, delim) == k
    decreases k - pos
  {
    if pos < k {
      FindFromFirst(input, pos + 1, delim, k);
    }
  }

  /** A window of the input that holds `enc` holds each of its slices. */
  lemma SliceWithin(input: seq<byte>, pos: nat, enc: seq<byte>, i: nat, j: nat)
    requires pos + |enc| <= |input| && input[pos..pos + |enc|] == enc && i <= j <= |enc|
    ensures input[pos + i..pos + j] == enc[i..j]
  {
    forall k | 0 <= k < j - i ensures input[pos + i..pos + j][k] == enc[i..j][k] {
      assert input[pos + i + k] == input[pos..pos + |enc|][i + k];
    }
  }

  /** A window of the input that holds `a + b` holds `a` and then `b`. */
  lemma WindowSplit(input: seq<byte>, pos: nat, a: seq<byte>, b: seq<byte>)
    requires pos + |a| + |b| <= |input| && input[pos..pos + |a| + |b|] == a + b
    ensures input[pos..pos + |a|] == a && input[pos + |a|..pos + |a| + |b|] == b
  {
    SliceWithin(input, pos, a + b, 0, |a|);
    assert (a + b)[..|a|] == a;
    SliceWithin(input, pos, a + b, |a|, |a| + |b|);
    assert (a + b)[|a|..] == b;
  }

  /** A window that holds `a + b + c` holds `a`, then `b`, then `c`; and the byte after `a` is b's first. */
  lemma WindowSplit3(input: seq<byte>, pos: nat, a: seq<byte>, b: seq<byte>, c: seq<byte>)
    requires pos + |a| + |b| + |c| <= |input| && input[pos..pos + |a| + |b| + |c|] == a + b + c
    ensures input[pos..pos + |a|] == a
    ensures input[pos + |a|..pos + |a| + |b|] == b
    ensures input[pos + |a| + |b|..pos + |a| + |b| + |c|] == c
    ensures b != [] ==> input[pos..pos + |a| + 1] == a + [b[0]]
  {
    WindowSplit(input, pos, a + b, c);
    WindowSplit(input, pos, a, b);
    if b != [] {
      SliceWithin(input, pos, a + b, 0, |a| + 1);
      assert (a + b)[..|a| + 1] == a + [b[0]];
    }
  }
}

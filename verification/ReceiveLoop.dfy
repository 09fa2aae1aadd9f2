/**
 The receive loop that both radar sessions run after writing a request: append each chunk to a buffer
 and try to decode a frame from its start. The transport is a script: for every request, whether the
 write succeeds, which chunks arrive, and what ends the reading.
 */
module ReceiveLoop {
  import opened Bytes

  /** How reading stops: a read that timed out, a read that failed, or the deadline of the request. */
  datatype ReadEnd = ReadTimeout | ReadFailed | DeadlinePassed

  datatype Exchange = Exchange(written: bool, chunks: seq<seq<byte>>, end: ReadEnd)

  datatype ErrorKind = Transport | Protocol

  datatype Verdict<+F> = Accept(frame: F) | Reject | More

  datatype Received<+F> = Received(frame: F) | Failed(kind: ErrorKind)

  /** decode(buffer, finalChunk): the outcome of a decode attempt at the start of the buffer. */
  type Decoder<!F> = (seq<byte>, bool) -> Verdict<F>

  class Transport {
    var script: seq<Exchange>
    var sent: seq<seq<byte>>

    constructor (script: seq<Exchange>)
      ensures this.script == script && sent == []
    {
      this.script := script;
      sent := [];
    }

    /** Writes one frame and returns what the link does with it. */
    method WriteFrame(frame: seq<byte>) returns (x: Exchange)
      modifies this
      ensures x == Current(old(script)) && script == Later(old(script))
      ensures sent == old(sent) + [frame]
    {
      x := Current(script);
      script := Later(script);
      sent := sent + [frame];
    }
  }

  /** A script that has run out stands for a link that accepts no more writes. */
  function Current(script: seq<Exchange>): Exchange {
    if script == [] then Exchange(false, [], ReadFailed) else script[0]
  }

  function Later(script: seq<Exchange>): seq<Exchange> {
    if script == [] then [] else script[1..]
  }

  /** The exchange of request j, and the script from request j on. */
  function At(script: seq<Exchange>, j: nat): Exchange {
    if j < |script| then script[j] else Current([])
  }

  function From(script: seq<Exchange>, j: nat): seq<Exchange> {
    if j <= |script| then script[j..] else []
  }

  lemma FromNext(script: seq<Exchange>, j: nat)
    ensures From(script, 0) == script && Current(From(script, j)) == At(script, j)
    ensures Later(From(script, j)) == From(script, j + 1)
  {
  }

  function NoFrame<F>(buffer: seq<byte>): Received<F> {
    Failed(if buffer == [] then Transport else Protocol)
  }

  function ReceiveFrom<F>(decode: Decoder<F>, buffer: seq<byte>, chunks: seq<seq<byte>>, end: ReadEnd): Received<F>
    decreases |chunks|
  {
    if chunks == [] then
      if buffer != [] && end != DeadlinePassed && decode(buffer, true).Accept?
      then Received(decode(buffer, true).frame)
      else NoFrame(buffer)
    else
      match decode(buffer + chunks[0], false)
      case Accept(frame) => Received(frame)
      case Reject => Failed(Protocol)
      case More => ReceiveFrom(decode, buffer + chunks[0], chunks[1..], end)
  }

  function Reply<F>(decode: Decoder<F>, x: Exchange): Received<F> {
    if !x.written then Failed(Transport) else ReceiveFrom(decode, [], x.chunks, x.end)
  }

  /** The loop itself. */
  method Receive<F>(decode: Decoder<F>, x: Exchange) returns (r: Received<F>)
    ensures r == Reply(decode, x)
  {
    if !x.written {
      return Failed(Transport);
    }
    var buffer: seq<byte> := [];
    var next := 0;
    while next < |x.chunks|
      invariant 0 <= next <= |x.chunks|
      invariant ReceiveFrom(decode, buffer, x.chunks[next..], x.end) == ReceiveFrom(decode, [], x.chunks, x.end)
    {
      buffer := buffer + x.chunks[next];
      match decode(buffer, false) {
        case Accept(frame) => return Received(frame);
        case Reject => return Failed(Protocol);
        case More =>
      }
      next := next + 1;
    }
    if buffer != [] && x.end != DeadlinePassed {
      match decode(buffer, true) {
        case Accept(frame) => return Received(frame);
        case _ =>
      }
    }
    r := NoFrame(buffer);
  }

  // ----- the split of the stream into chunks does not matter

  function Flatten(chunks: seq<seq<byte>>): seq<byte> {
    if chunks == [] then [] else chunks[0] + Flatten(chunks[1..])
  }

  /**
   What the argument needs of a decoder: an outcome other than More survives any later bytes, the
   final attempt accepts nothing new, and an empty buffer is More.
   */
  ghost predicate Settled<F(!new)>(decode: Decoder<F>) {
    && decode([], false).More?
    && (forall a, b :: a <= b && !decode(a, false).More? ==> decode(b, false) == decode(a, false))
    && (forall a :: decode(a, false).More? ==> !decode(a, true).Accept?)
  }

  /** The outcome as a function of all bytes received. */
  function Decide<F>(decode: Decoder<F>, stream: seq<byte>): Received<F> {
    match decode(stream, false)
    case Accept(frame) => Received(frame)
    case _ => NoFrame(stream)
  }

  lemma {:induction false} BufferedIsDecided<F(!new)>(decode: Decoder<F>, buffer: seq<byte>, chunks: seq<seq<byte>>, end: ReadEnd)
    requires Settled(decode) && decode(buffer, false).More?
    ensures ReceiveFrom(decode, buffer, chunks, end) == Decide(decode, buffer + Flatten(chunks))
    decreases |chunks|
  {
    if chunks == [] {
      assert buffer + Flatten(chunks) == buffer;
    } else {
      var longer := buffer + chunks[0];
      var stream := buffer + Flatten(chunks);
      assert stream == longer + Flatten(chunks[1..]);
      assert longer <= stream;
      if decode(longer, false).More? {
        BufferedIsDecided(decode, longer, chunks[1..], end);
      } else {
        assert decode(stream, false) == decode(longer, false);
        assert stream != [];
      }
    }
  }

  /** Any two ways to cut the same bytes into chunks, and any two endings, give the same outcome. */
  lemma ChunkingIndependent<F(!new)>(decode: Decoder<F>, x: Exchange)
    requires Settled(decode)
    ensures x.written ==> Reply(decode, x) == Decide(decode, Flatten(x.chunks))
  {
    BufferedIsDecided(decode, [], x.chunks, x.end);
    assert [] + Flatten(x.chunks) == Flatten(x.chunks);
  }

  /** A reply without a single byte is a transport error, whatever the decoder makes of other bytes. */
  lemma {:induction false} EmptyReplyIsTransport<F>(decode: Decoder<F>, chunks: seq<seq<byte>>, end: ReadEnd)
    requires decode([], false).More? && Flatten(chunks) == []
    ensures ReceiveFrom(decode, [], chunks, end) == Failed(Transport)
    decreases |chunks|
  {
    if chunks != [] {
      assert chunks[0] == [] && [] + chunks[0] == [];
      EmptyReplyIsTransport(decode, chunks[1..], end);
    }
  }

  /**
   Every outcome of an exchange: nothing written or nothing received is a transport error, bytes that do
   not decode are a protocol error, and otherwise the frame at the start of the stream is received.
   */
  lemma ReplyIs<F(!new)>(decode: Decoder<F>, x: Exchange)
    requires Settled(decode)
    ensures var stream := Flatten(x.chunks);
            Reply(decode, x) ==
              if !x.written || stream == [] then Failed(Transport)
              else if decode(stream, false).Accept? then Received(decode(stream, false).frame)
              else Failed(Protocol)
  {
    if x.written {
      if Flatten(x.chunks) == [] {
        EmptyReplyIsTransport(decode, x.chunks, x.end);
      } else {
        ChunkingIndependent(decode, x);
      }
    }
  }
}

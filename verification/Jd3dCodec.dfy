/**
 JD3D/JD3I frames of the 3D scan robot. They carry no length: the decoder takes the shortest prefix
 whose last four bytes are the CRC-32 of the bytes after the magic.
 */
module Jd3dCodec {
  import opened Wrappers
  import opened Bytes
  import Crc32
  import opened ReceiveLoop

  const MAGIC_MAIN: seq<byte> := [0x4A, 0x44, 0x33, 0x44]
  const MAGIC_INTERRUPT: seq<byte> := [0x4A, 0x44, 0x33, 0x49]
  const MIN_FRAME_LEN := 16

  datatype Channel = AnyChannel | Main | Interrupt

  datatype RadarFrame = RadarFrame(counter: byte, option: byte, addr: byte, command: byte, payload: seq<byte>, crc32: bv32)

  datatype DecodeResult =
    | Ok(frame: RadarFrame, consumed: nat)
    | Incomplete
    | BadMagic
    | ChannelMismatch
    | CrcError
    | AddrMismatch
    | CmdMismatch

  function Body(counter: byte, addr: byte, command: byte, payload: seq<byte>): seq<byte> {
    [counter, 0, addr, command] + payload
  }

  function EncodeFrame(counter: byte, addr: byte, command: byte, payload: seq<byte>, interrupt: bool): (frame: seq<byte>)
    ensures |frame| == 12 + |payload|
  {
    var body := Body(counter, addr, command, payload);
    (if interrupt then MAGIC_INTERRUPT else MAGIC_MAIN) + body + WordBytes(Crc32.Crc(body))
  }

  /** What the header alone decides; None means the search for the end may start. */
  function HeaderFault(buffer: seq<byte>, expectAddr: byte, expectCmd: byte, channel: Channel): Option<DecodeResult> {
    if |buffer| < MIN_FRAME_LEN then Some(Incomplete)
    else
      var main, interrupt := buffer[..4] == MAGIC_MAIN, buffer[..4] == MAGIC_INTERRUPT;
      if !main && !interrupt then Some(BadMagic)
      else if (channel.Main? && !main) || (channel.Interrupt? && !interrupt) then Some(ChannelMismatch)
      else if expectAddr != 0 && buffer[6] != expectAddr then Some(AddrMismatch)
      else if expectCmd != 0 && buffer[7] != expectCmd then Some(CmdMismatch)
      else None
  }

  /** The first n bytes end in their own CRC. */
  predicate SelfValidates(buffer: seq<byte>, n: nat) {
    MIN_FRAME_LEN <= n <= |buffer| && Crc32.Crc(buffer[4..n - 4]) == WordAt(buffer, n - 4)
  }

  /** n is the least length at which the buffer validates itself. */
  ghost predicate LeastValid(buffer: seq<byte>, n: nat) {
    SelfValidates(buffer, n) && forall m :: MIN_FRAME_LEN <= m < n ==> !SelfValidates(buffer, m)
  }

  function FrameOf(buffer: seq<byte>, n: nat): RadarFrame
    requires MIN_FRAME_LEN <= n <= |buffer|
  {
    RadarFrame(buffer[4], buffer[5], buffer[6], buffer[7], buffer[8..n - 4], WordAt(buffer, n - 4))
  }

  function Search(buffer: seq<byte>, n: nat): (r: Option<nat>)
    ensures r.Some? ==> n <= r.value <= |buffer|
    decreases |buffer| + 1 - n
  {
    if n > |buffer| then None
    else if SelfValidates(buffer, n) then Some(n)
    else Search(buffer, n + 1)
  }

  function TryDecodeFrame(buffer: seq<byte>, expectAddr: byte, expectCmd: byte, channel: Channel, finalChunk: bool): DecodeResult {
    var fault := HeaderFault(buffer, expectAddr, expectCmd, channel);
    if fault.Some? then fault.value
    else
      match Search(buffer, MIN_FRAME_LEN)
      case Some(n) => Ok(FrameOf(buffer, n), n)
      case None => if finalChunk then CrcError else Incomplete
  }

  /** The search loop of tryDecodeFrame. */
  method TryDecode(buffer: seq<byte>, expectAddr: byte, expectCmd: byte, channel: Channel, finalChunk: bool)
    returns (r: DecodeResult)
    ensures r == TryDecodeFrame(buffer, expectAddr, expectCmd, channel, finalChunk)
  {
    hide Crc32.Crc, Bytes.WordAt;
    var fault := HeaderFault(buffer, expectAddr, expectCmd, channel);
    if fault.Some? {
      return fault.value;
    }
    var frameLen := MIN_FRAME_LEN;
    while frameLen <= |buffer|
      invariant MIN_FRAME_LEN <= frameLen <= |buffer| + 1
      invariant Search(buffer, frameLen) == Search(buffer, MIN_FRAME_LEN)
    {
      var computedCrc := Crc32.Crc(buffer[4..frameLen - 4]);
      var frameCrc := WordAt(buffer, frameLen - 4);
      if computedCrc == frameCrc {
        return Ok(RadarFrame(buffer[4], buffer[5], buffer[6], buffer[7], buffer[8..frameLen - 4], frameCrc), frameLen);
      }
      frameLen := frameLen + 1;
    }
    r := if finalChunk then CrcError else Incomplete;
  }

  // ----- the decoder is a least-length search

  lemma {:induction false} SearchIsLeast(buffer: seq<byte>, n: nat)
    requires MIN_FRAME_LEN <= n
    ensures match Search(buffer, n)
            case Some(k) => SelfValidates(buffer, k) && forall m :: n <= m < k ==> !SelfValidates(buffer, m)
            case None => forall m :: n <= m ==> !SelfValidates(buffer, m)
    decreases |buffer| + 1 - n
  {
    hide SelfValidates;
    if n <= |buffer| {
      if !SelfValidates(buffer, n) {
        SearchIsLeast(buffer, n + 1);
      }
    } else {
      TooShort(buffer, n);
    }
  }

  lemma TooShort(buffer: seq<byte>, n: nat)
    requires n > |buffer|
    ensures forall m :: n <= m ==> !SelfValidates(buffer, m)
  {
  }

  /** Once the header passes, decoding yields exactly the least self-validating prefix, or nothing. */
  lemma DecodesLeast(buffer: seq<byte>, expectAddr: byte, expectCmd: byte, channel: Channel, finalChunk: bool, n: nat)
    requires HeaderFault(buffer, expectAddr, expectCmd, channel).None?
    ensures var r := TryDecodeFrame(buffer, expectAddr, expectCmd, channel, finalChunk);
            && (LeastValid(buffer, n) <==> r.Ok? && r.consumed == n)
            && (r.Ok? ==> r.frame == FrameOf(buffer, r.consumed))
            && (!r.Ok? ==> r == if finalChunk then CrcError else Incomplete)
  {
    hide SelfValidates;
    SearchIsLeast(buffer, MIN_FRAME_LEN);
    if LeastValid(buffer, n) && Search(buffer, MIN_FRAME_LEN).Some? {
      var k := Search(buffer, MIN_FRAME_LEN).value;
      ValidLength(buffer, n);
      assert !(n < k) && !(k < n);
    }
    ValidLength(buffer, n);
  }

  lemma ValidLength(buffer: seq<byte>, n: nat)
    ensures SelfValidates(buffer, n) ==> MIN_FRAME_LEN <= n <= |buffer|
  {
  }

  /** The header decides on its own bytes, and validity of a prefix on that prefix. */
  lemma PrefixDecides(a: seq<byte>, b: seq<byte>, n: nat)
    requires a <= b && n <= |a|
    ensures SelfValidates(a, n) == SelfValidates(b, n)
    ensures MIN_FRAME_LEN <= n ==> FrameOf(a, n) == FrameOf(b, n)
  {
    if MIN_FRAME_LEN <= n {
      assert a[4..n - 4] == b[4..n - 4] && a[8..n - 4] == b[8..n - 4];
      assert forall i :: 0 <= i < |a| ==> a[i] == b[i];
    }
  }

  // ----- round trip

  lemma EncodedHeader(counter: byte, addr: byte, command: byte, payload: seq<byte>, interrupt: bool, rest: seq<byte>)
    ensures var b := EncodeFrame(counter, addr, command, payload, interrupt) + rest;
            && b[..4] == (if interrupt then MAGIC_INTERRUPT else MAGIC_MAIN)
            && b[4] == counter && b[5] == 0 && b[6] == addr && b[7] == command
            && b[8..8 + |payload|] == payload
            && b[4..8 + |payload|] == Body(counter, addr, command, payload)
            && b[8 + |payload|..12 + |payload|] == WordBytes(Crc32.Crc(Body(counter, addr, command, payload)))
  {
    hide Crc32.Crc, Bytes.WordBytes;
  }

  /** A frame up to its CRC, byte by byte. */
  lemma EncodedBytes(counter: byte, addr: byte, command: byte, payload: seq<byte>, interrupt: bool)
    ensures EncodeFrame(counter, addr, command, payload, interrupt)[..8 + |payload|]
         == [0x4A, 0x44, 0x33, if interrupt then 0x49 else 0x44, counter, 0, addr, command] + payload
  {
    hide Crc32.Crc, Bytes.WordBytes;
  }

  lemma EncodedValidates(counter: byte, addr: byte, command: byte, payload: seq<byte>, interrupt: bool, rest: seq<byte>)
    ensures SelfValidates(EncodeFrame(counter, addr, command, payload, interrupt) + rest, 12 + |payload|) <==> |payload| >= 4
  {
    hide Crc32.Crc, Bytes.WordBytes, Bytes.WordAt;
    var b := EncodeFrame(counter, addr, command, payload, interrupt) + rest;
    EncodedHeader(counter, addr, command, payload, interrupt, rest);
    WordWritten(b, 8 + |payload|, Crc32.Crc(Body(counter, addr, command, payload)));
  }

  /** No proper prefix of the encoded frame validates itself: what a sender can check before sending. */
  ghost predicate Unambiguous(counter: byte, addr: byte, command: byte, payload: seq<byte>, interrupt: bool) {
    var frame := EncodeFrame(counter, addr, command, payload, interrupt);
    forall m :: MIN_FRAME_LEN <= m < |frame| ==> !SelfValidates(frame, m)
  }

  /**
   Decoding an encoded frame returns the payload exactly when it has at least 4 bytes and no shorter
   prefix of the frame validates itself.
   */
  lemma RoundTripIff(counter: byte, addr: byte, command: byte, payload: seq<byte>, interrupt: bool, rest: seq<byte>, finalChunk: bool)
    ensures var frame := EncodeFrame(counter, addr, command, payload, interrupt);
            var r := TryDecodeFrame(frame + rest, addr, command, if interrupt then Interrupt else Main, finalChunk);
            (|payload| >= 4 && Unambiguous(counter, addr, command, payload, interrupt)) <==>
            (r.Ok? && r.consumed == |frame|
             && r.frame == RadarFrame(counter, 0, addr, command, payload, Crc32.Crc(Body(counter, addr, command, payload))))
  {
    hide Crc32.Crc, Bytes.WordBytes, Bytes.WordAt, TryDecodeFrame, SelfValidates;
    var frame := EncodeFrame(counter, addr, command, payload, interrupt);
    var b, channel := frame + rest, if interrupt then Interrupt else Main;
    EncodedHeader(counter, addr, command, payload, interrupt, rest);
    EncodedValidates(counter, addr, command, payload, interrupt, rest);
    forall m | MIN_FRAME_LEN <= m < |frame|
      ensures SelfValidates(frame, m) == SelfValidates(b, m)
    {
      PrefixDecides(frame, b, m);
    }
    if HeaderFault(b, addr, command, channel).None? {
      DecodesLeast(b, addr, command, channel, finalChunk, |frame|);
      WordWritten(b, 8 + |payload|, Crc32.Crc(Body(counter, addr, command, payload)));
    } else {
      ShortBuffer(b, addr, command, channel, finalChunk);
    }
  }

  lemma ShortBuffer(b: seq<byte>, addr: byte, command: byte, channel: Channel, finalChunk: bool)
    requires HeaderFault(b, addr, command, channel).Some?
    ensures !TryDecodeFrame(b, addr, command, channel, finalChunk).Ok?
  {
  }

  /**
   The exact outcome of decoding an unambiguous encoded frame, whatever is expected and whatever follows:
   another channel, address or command is refused, in this order; 0 expects anything.
   */
  lemma DecodeEncoded(counter: byte, addr: byte, command: byte, payload: seq<byte>, interrupt: bool, rest: seq<byte>,
                      expectAddr: byte, expectCmd: byte, channel: Channel, finalChunk: bool)
    requires |payload| >= 4 && Unambiguous(counter, addr, command, payload, interrupt)
    ensures TryDecodeFrame(EncodeFrame(counter, addr, command, payload, interrupt) + rest, expectAddr, expectCmd, channel, finalChunk)
         == if channel == (if interrupt then Main else Interrupt) then ChannelMismatch
            else if expectAddr != 0 && expectAddr != addr then AddrMismatch
            else if expectCmd != 0 && expectCmd != command then CmdMismatch
            else Ok(RadarFrame(counter, 0, addr, command, payload, Crc32.Crc(Body(counter, addr, command, payload))), 12 + |payload|)
  {
    hide Crc32.Crc, Bytes.WordBytes, Bytes.WordAt, SelfValidates, Unambiguous, Search;
    EncodedHeader(counter, addr, command, payload, interrupt, rest);
    RoundTripIff(counter, addr, command, payload, interrupt, rest, finalChunk);
  }

  /** Bytes that start with neither magic are refused, whatever is expected. */
  lemma OtherMagicRefused(buffer: seq<byte>, expectAddr: byte, expectCmd: byte, channel: Channel, finalChunk: bool)
    requires |buffer| >= 16 && buffer[..3] != [0x4A, 0x44, 0x33]
    ensures TryDecodeFrame(buffer, expectAddr, expectCmd, channel, finalChunk) == BadMagic
  {
    assert buffer[..3] == buffer[..4][..3];
    assert MAGIC_MAIN[..3] == [0x4A, 0x44, 0x33] && MAGIC_INTERRUPT[..3] == [0x4A, 0x44, 0x33];
  }

  lemma SealedPrefix(buffer: seq<byte>, n: nat)
    requires SelfValidates(buffer, n)
    ensures 16 <= n <= |buffer|
    ensures var body := [buffer[4], buffer[5], buffer[6], buffer[7]] + buffer[8..n - 4];
            buffer[..n] == buffer[..4] + (body + WordBytes(Crc32.Crc(body)))
  {
    hide Crc32.Crc, Bytes.WordBytes, Bytes.WordAt;
    var body := [buffer[4], buffer[5], buffer[6], buffer[7]] + buffer[8..n - 4];
    WordOfParts(buffer, n - 4);
    assert buffer[4..n - 4] == body;
    assert buffer[..n] == buffer[..4] + (buffer[4..n - 4] + buffer[n - 4..n]);
  }

  lemma ExpectedHeader(buffer: seq<byte>, expectAddr: byte, expectCmd: byte, channel: Channel)
    requires HeaderFault(buffer, expectAddr, expectCmd, channel).None?
    ensures |buffer| >= 16
    ensures (buffer[..4] == MAGIC_MAIN && !channel.Interrupt?) || (buffer[..4] == MAGIC_INTERRUPT && !channel.Main?)
    ensures (expectAddr == 0 || buffer[6] == expectAddr) && (expectCmd == 0 || buffer[7] == expectCmd)
  {
  }

  /** Whatever is accepted is a frame of the channel, address and command asked for, and sealed by its CRC. */
  lemma DecodedIsExpected(buffer: seq<byte>, expectAddr: byte, expectCmd: byte, channel: Channel, finalChunk: bool)
    requires TryDecodeFrame(buffer, expectAddr, expectCmd, channel, finalChunk).Ok?
    ensures var Ok(f, n) := TryDecodeFrame(buffer, expectAddr, expectCmd, channel, finalChunk);
            var body := [f.counter, f.option, f.addr, f.command] + f.payload;
            && n <= |buffer| && |f.payload| >= 4 && LeastValid(buffer, n)
            && (|| (buffer[..n] == MAGIC_MAIN + (body + WordBytes(Crc32.Crc(body))) && !channel.Interrupt?)
                || (buffer[..n] == MAGIC_INTERRUPT + (body + WordBytes(Crc32.Crc(body))) && !channel.Main?))
            && (expectAddr == 0 || f.addr == expectAddr) && (expectCmd == 0 || f.command == expectCmd)
  {
    var Ok(f, n) := TryDecodeFrame(buffer, expectAddr, expectCmd, channel, finalChunk);
    DecodesLeast(buffer, expectAddr, expectCmd, channel, finalChunk, n);
    SealedPrefix(buffer, n);
    ExpectedHeader(buffer, expectAddr, expectCmd, channel);
    hide HeaderFault, SelfValidates, Search, Crc32.Crc, Bytes.WordBytes, Bytes.WordAt;
  }

  /** A 4-byte payload has no shorter candidate, so it always comes back. */
  lemma ShortestAlwaysRoundTrips(counter: byte, addr: byte, command: byte, payload: seq<byte>, interrupt: bool)
    requires |payload| == 4
    ensures Unambiguous(counter, addr, command, payload, interrupt)
  {
  }

  /** A payload that embeds the CRC of its own beginning is cut there: it does not come back. */
  lemma EmbeddedCrcIsCut(counter: byte, addr: byte, command: byte, head: seq<byte>, tail: seq<byte>, interrupt: bool)
    requires |head| >= 4
    ensures var payload := head + WordBytes(Crc32.Crc(Body(counter, addr, command, head))) + tail;
            !Unambiguous(counter, addr, command, payload, interrupt)
  {
    hide Crc32.Crc, Bytes.WordBytes;
    var inner := EncodeFrame(counter, addr, command, head, interrupt);
    var payload := head + WordBytes(Crc32.Crc(Body(counter, addr, command, head))) + tail;
    var frame := EncodeFrame(counter, addr, command, payload, interrupt);
    var rest := tail + frame[8 + |payload|..];
    assert frame == inner + rest;
    EncodedValidates(counter, addr, command, head, interrupt, rest);
    assert SelfValidates(frame, |inner|);
  }

  // ----- the decoder in the receive loop

  function DecodeVerdict(buffer: seq<byte>, addr: byte, command: byte, channel: Channel, finalChunk: bool): Verdict<RadarFrame> {
    match TryDecodeFrame(buffer, addr, command, channel, finalChunk)
    case Ok(frame, _) => Accept(frame)
    case Incomplete => More
    case _ => Reject
  }

  function FrameDecoder(addr: byte, command: byte, channel: Channel): Decoder<RadarFrame> {
    (buffer: seq<byte>, finalChunk: bool) => DecodeVerdict(buffer, addr, command, channel, finalChunk)
  }

  lemma LaterBytesIgnored(a: seq<byte>, b: seq<byte>, addr: byte, command: byte, channel: Channel)
    requires a <= b && !DecodeVerdict(a, addr, command, channel, false).More?
    ensures DecodeVerdict(b, addr, command, channel, false) == DecodeVerdict(a, addr, command, channel, false)
  {
    hide SelfValidates, FrameOf;
    if |a| >= MIN_FRAME_LEN {
      assert a[..4] == b[..4];
    }
    if HeaderFault(a, addr, command, channel).None? {
      var n := TryDecodeFrame(a, addr, command, channel, false).consumed;
      DecodesLeast(a, addr, command, channel, false, n);
      forall m | MIN_FRAME_LEN <= m <= n
        ensures SelfValidates(a, m) == SelfValidates(b, m)
      {
        PrefixDecides(a, b, m);
      }
      PrefixDecides(a, b, n);
      DecodesLeast(b, addr, command, channel, false, n);
    }
  }

  lemma DecoderSettled(addr: byte, command: byte, channel: Channel)
    ensures Settled(FrameDecoder(addr, command, channel))
  {
    var decode := FrameDecoder(addr, command, channel);
    forall a: seq<byte>, b: seq<byte> | a <= b && !decode(a, false).More?
      ensures decode(b, false) == decode(a, false)
    {
      LaterBytesIgnored(a, b, addr, command, channel);
    }
  }
}

/** LIDA frames of the 3D laser radar: length-prefixed, CRC-32 over everything before the CRC. */
module LidaCodec {
  import opened Wrappers
  import opened Bytes
  import opened Crc32
  import opened Crc32Laws

  const MAGIC: seq<byte> := [0x4C, 0x49, 0x44, 0x41]
  const MIN_FRAME_LEN := 18
  const MIN_PAYLOAD_LEN := 4
  const MAX_FRAME_LEN := 6 + 0xFFFF
  const MAX_PAYLOAD_LEN := 0xFFFF - 8

  datatype LaserFrame = LaserFrame(
    counter: u16, addr: byte, command: byte, length: u16, payload: seq<byte>, crc32: bv32)

  datatype DecodeResult =
    | Ok(frame: LaserFrame, consumed: nat)
    | Incomplete
    | BadMagic
    | InvalidLength
    | CrcError
    | AddrMismatch
    | CmdMismatch

  /** The frame up to its CRC. The length field is cut to 16 bits, as the cast in the code does. */
  function FrameBody(counter: u16, addr: byte, command: byte, payload: seq<byte>): (body: seq<byte>)
    ensures |body| == 10 + |payload|
    ensures body[..4] == MAGIC && body[4..6] == U16Bytes((8 + |payload|) % 0x1_0000)
    ensures body[6..8] == U16Bytes(counter) && body[8] == addr && body[9] == command && body[10..] == payload
  {
    hide Bytes.U16Bytes;
    MAGIC + U16Bytes((8 + |payload|) % 0x1_0000) + U16Bytes(counter) + [addr, command] + payload
  }

  function EncodeFrame(counter: u16, addr: byte, command: byte, payload: seq<byte>): (frame: seq<byte>)
    ensures |frame| == 14 + |payload|
  {
    var body := FrameBody(counter, addr, command, payload);
    body + WordBytes(Crc(body))
  }

  predicate Unexpected(expected: Option<byte>, actual: byte) {
    expected.Some? && expected.value != actual
  }

  /**
   tryDecodeFrame: one attempt to decode the frame at the start of the buffer. A CRC mismatch counts
   as Incomplete until the final attempt.
   */
  function TryDecodeFrame(buffer: seq<byte>, expectAddr: Option<byte>, expectCmd: Option<byte>, finalChunk: bool): DecodeResult {
    if |buffer| < MIN_FRAME_LEN then Incomplete
    else if buffer[..4] != MAGIC then BadMagic
    else
      var length := U16At(buffer, 4);
      if length < 8 + MIN_PAYLOAD_LEN || 6 + length < MIN_FRAME_LEN || 6 + length > MAX_FRAME_LEN then InvalidLength
      else if |buffer| < 6 + length then Incomplete
      else
        var totalLength := 6 + length;
        var expectedCrc := WordAt(buffer, totalLength - 4);
        if Crc(buffer[..totalLength - 4]) != expectedCrc then (if finalChunk then CrcError else Incomplete)
        else if Unexpected(expectAddr, buffer[8]) then AddrMismatch
        else if Unexpected(expectCmd, buffer[9]) then CmdMismatch
        else
          Ok(LaserFrame(U16At(buffer, 6), buffer[8], buffer[9], length, buffer[10..totalLength - 4], expectedCrc),
             totalLength)
  }

  // ----- decoding what was encoded

  predicate Encodable(payload: seq<byte>) {
    MIN_PAYLOAD_LEN <= |payload| <= MAX_PAYLOAD_LEN
  }

  function Fields(counter: u16, addr: byte, command: byte, payload: seq<byte>): LaserFrame
    requires Encodable(payload)
  {
    LaserFrame(counter, addr, command, 8 + |payload|, payload, Crc(FrameBody(counter, addr, command, payload)))
  }

  lemma HeaderFields(counter: u16, addr: byte, command: byte, payload: seq<byte>, buffer: seq<byte>)
    requires FrameBody(counter, addr, command, payload) <= buffer
    ensures buffer[..4] == MAGIC && buffer[8] == addr && buffer[9] == command
    ensures U16At(buffer, 4) == (8 + |payload|) % 0x1_0000
    ensures U16At(buffer, 6) == counter
    ensures buffer[10..10 + |payload|] == payload
  {
    hide Bytes.U16At, Bytes.U16Bytes;
    var body := FrameBody(counter, addr, command, payload);
    hide FrameBody;
    assert body == buffer[..|body|];
    assert buffer[4..6] == body[4..6] && buffer[6..8] == body[6..8];
    U16Written(buffer, 4, (8 + |payload|) % 0x1_0000);
    U16Written(buffer, 6, counter);
    assert buffer[10..10 + |payload|] == body[10..];
  }

  /** The exact outcome of decoding an encoded frame, whatever bytes follow it. */
  lemma DecodeEncoded(counter: u16, addr: byte, command: byte, payload: seq<byte>, trailing: seq<byte>,
                      expectAddr: Option<byte>, expectCmd: Option<byte>, finalChunk: bool)
    requires Encodable(payload)
    ensures TryDecodeFrame(EncodeFrame(counter, addr, command, payload) + trailing, expectAddr, expectCmd, finalChunk)
         == if Unexpected(expectAddr, addr) then AddrMismatch
            else if Unexpected(expectCmd, command) then CmdMismatch
            else Ok(Fields(counter, addr, command, payload), 14 + |payload|)
  {
    hide Bytes.U16At, Bytes.WordAt, Bytes.WordBytes, FrameBody, Crc32.Crc;
    var body := FrameBody(counter, addr, command, payload);
    var buffer := EncodeFrame(counter, addr, command, payload) + trailing;
    assert body == buffer[..10 + |payload|];
    HeaderFields(counter, addr, command, payload, buffer);
    assert buffer[10 + |payload|..14 + |payload|] == WordBytes(Crc(body));
    WordWritten(buffer, 10 + |payload|, Crc(body));
  }

  /** A frame that has not arrived whole is Incomplete, also on the final attempt. */
  lemma DecodeProperPrefix(counter: u16, addr: byte, command: byte, payload: seq<byte>, n: nat,
                           expectAddr: Option<byte>, expectCmd: Option<byte>, finalChunk: bool)
    requires Encodable(payload) && n < 14 + |payload|
    ensures TryDecodeFrame(EncodeFrame(counter, addr, command, payload)[..n], expectAddr, expectCmd, finalChunk) == Incomplete
  {
    hide Bytes.U16At, FrameBody, Crc32.Crc;
    var frame := EncodeFrame(counter, addr, command, payload);
    var buffer := frame[..n];
    if n >= MIN_FRAME_LEN {
      HeaderFields(counter, addr, command, payload, frame);
      assert buffer[..4] == frame[..4];
      SameU16(buffer, frame, 4);
    }
  }

  /** A payload of less than 4 bytes is refused as soon as 18 bytes are there. */
  lemma ShortPayloadRefused(counter: u16, addr: byte, command: byte, payload: seq<byte>, trailing: seq<byte>,
                            expectAddr: Option<byte>, expectCmd: Option<byte>, finalChunk: bool)
    requires |payload| < MIN_PAYLOAD_LEN
    ensures TryDecodeFrame(EncodeFrame(counter, addr, command, payload) + trailing, expectAddr, expectCmd, finalChunk)
         == if 14 + |payload| + |trailing| < 18 then Incomplete else InvalidLength
  {
    hide Bytes.U16At, FrameBody, Crc32.Crc, Bytes.WordBytes;
    HeaderFields(counter, addr, command, payload, EncodeFrame(counter, addr, command, payload) + trailing);
  }

  lemma SameU16(a: seq<byte>, b: seq<byte>, at: nat)
    requires at + 2 <= |a| && at + 2 <= |b| && a[at..at + 2] == b[at..at + 2]
    ensures U16At(a, at) == U16At(b, at)
  {
    assert a[at] == a[at..at + 2][0] && a[at + 1] == a[at..at + 2][1];
    assert b[at] == b[at..at + 2][0] && b[at + 1] == b[at..at + 2][1];
  }

  lemma SameWord(a: seq<byte>, b: seq<byte>, at: nat)
    requires at + 4 <= |a| && at + 4 <= |b| && a[at..at + 4] == b[at..at + 4]
    ensures WordAt(a, at) == WordAt(b, at)
  {
    var u, v := a[at..at + 4], b[at..at + 4];
    assert a[at] == u[0] && a[at + 1] == u[1] && a[at + 2] == u[2] && a[at + 3] == u[3];
    assert b[at] == v[0] && b[at + 1] == v[1] && b[at + 2] == v[2] && b[at + 3] == v[3];
  }

  /** Whatever is accepted is the encoding of its own fields: nothing else gets through. */
  lemma DecodedIsEncoded(buffer: seq<byte>, expectAddr: Option<byte>, expectCmd: Option<byte>, finalChunk: bool)
    requires TryDecodeFrame(buffer, expectAddr, expectCmd, finalChunk).Ok?
    ensures var Ok(f, consumed) := TryDecodeFrame(buffer, expectAddr, expectCmd, finalChunk);
            && Encodable(f.payload) && consumed <= |buffer|
            && buffer[..consumed] == EncodeFrame(f.counter, f.addr, f.command, f.payload)
            && f == Fields(f.counter, f.addr, f.command, f.payload)
            && !Unexpected(expectAddr, f.addr) && !Unexpected(expectCmd, f.command)
  {
    hide Bytes.U16At, Bytes.WordAt, Bytes.U16Bytes, Bytes.WordBytes, Crc32.Crc;
    var Ok(f, consumed) := TryDecodeFrame(buffer, expectAddr, expectCmd, finalChunk);
    U16OfParts(buffer, 4);
    U16OfParts(buffer, 6);
    WordOfParts(buffer, consumed - 4);
    assert buffer[..consumed - 4]
        == buffer[..4] + buffer[4..6] + buffer[6..8] + [buffer[8], buffer[9]] + buffer[10..consumed - 4];
    assert buffer[..consumed - 4] == FrameBody(f.counter, f.addr, f.command, f.payload);
    assert buffer[..consumed] == buffer[..consumed - 4] + buffer[consumed - 4..consumed];
  }

  /**
   Decoding gives the payload back exactly when it has 4 to 65527 bytes: a shorter one is refused and
   a longer one does not fit the 16-bit length field.
   */
  lemma RoundTripIff(counter: u16, addr: byte, command: byte, payload: seq<byte>, trailing: seq<byte>, finalChunk: bool)
    ensures var r := TryDecodeFrame(EncodeFrame(counter, addr, command, payload) + trailing, Some(addr), Some(command), finalChunk);
            Encodable(payload) <==> r.Ok? && r.frame.payload == payload
  {
    var buffer := EncodeFrame(counter, addr, command, payload) + trailing;
    if Encodable(payload) {
      DecodeEncoded(counter, addr, command, payload, trailing, Some(addr), Some(command), finalChunk);
    } else if TryDecodeFrame(buffer, Some(addr), Some(command), finalChunk).Ok? {
      DecodedIsEncoded(buffer, Some(addr), Some(command), finalChunk);
    }
  }

  /** Whatever the payloads, also those no decoder accepts: a frame has only one set of fields. */
  lemma EncodeInjective(c: u16, a: byte, m: byte, p: seq<byte>, c': u16, a': byte, m': byte, p': seq<byte>)
    requires EncodeFrame(c, a, m, p) == EncodeFrame(c', a', m', p')
    ensures c == c' && a == a' && m == m' && p == p'
  {
    hide Crc32.Crc, Bytes.WordBytes, Bytes.U16Bytes, Bytes.U16At, FrameBody;
    var frame := EncodeFrame(c, a, m, p);
    HeaderFields(c, a, m, p, frame);
    HeaderFields(c', a', m', p', frame);
  }

  // ----- corruption

  /** g is f with bytes of one aligned body word changed, the length field apart, or only CRC bytes. */
  ghost predicate Corrupted(f: seq<byte>, g: seq<byte>, at: nat)
    requires |f| >= 4
  {
    && |g| == |f| && g != f
    && (|| g[..|f| - 4] == f[..|f| - 4]
        || (&& g[|f| - 4..] == f[|f| - 4..]
            && DifferOnlyInWord(f[..|f| - 4], g[..|f| - 4], at)
            && (|f| >= 6 ==> g[4..6] == f[4..6])))
  }

  /**
   Such a corruption of an encoded frame is never accepted, whatever follows it: a damaged magic is
   refused at once, any other damage counts as incomplete until the final attempt.
   */
  lemma CorruptionRefused(counter: u16, addr: byte, command: byte, payload: seq<byte>, g: seq<byte>, at: nat,
                          trailing: seq<byte>, expectAddr: Option<byte>, expectCmd: Option<byte>, finalChunk: bool)
    requires Encodable(payload)
    requires Corrupted(EncodeFrame(counter, addr, command, payload), g, at)
    ensures TryDecodeFrame(g + trailing, expectAddr, expectCmd, finalChunk)
         == if g[..4] != MAGIC then BadMagic else if finalChunk then CrcError else Incomplete
  {
    hide Bytes.U16At, Bytes.WordAt, Bytes.U16Bytes, Bytes.WordBytes, Crc32.Crc, FrameBody, TryDecodeFrame;
    var f := EncodeFrame(counter, addr, command, payload);
    var buffer := g + trailing;
    HeaderFields(counter, addr, command, payload, f);
    LengthUntouched(f, g, at);
    assert buffer[4..6] == g[4..6];
    SameU16(buffer, f, 4);
    assert buffer[..|f| - 4] == g[..|f| - 4] && buffer[|f| - 4..|f|] == g[|f| - 4..] && buffer[..4] == g[..4];
    WordOfParts(buffer, |f| - 4);
    SealBroken(f, g, at);
    BrokenSeal(buffer, |f|, expectAddr, expectCmd, finalChunk);
  }

  lemma BrokenSeal(buffer: seq<byte>, total: nat, expectAddr: Option<byte>, expectCmd: Option<byte>, finalChunk: bool)
    requires MIN_FRAME_LEN <= total <= |buffer| && U16At(buffer, 4) == total - 6
    requires Crc(buffer[..total - 4]) != WordAt(buffer, total - 4)
    ensures TryDecodeFrame(buffer, expectAddr, expectCmd, finalChunk)
         == if buffer[..4] != MAGIC then BadMagic else if finalChunk then CrcError else Incomplete
  {
    hide Bytes.U16At, Bytes.WordAt, Crc32.Crc;
  }

  /** The last four bytes are the CRC of the rest. */
  predicate Sealed(f: seq<byte>) {
    |f| >= 4 && f[|f| - 4..] == WordBytes(Crc(f[..|f| - 4]))
  }

  lemma LengthUntouched(f: seq<byte>, g: seq<byte>, at: nat)
    requires |f| >= 10 && Corrupted(f, g, at)
    ensures g[4..6] == f[4..6]
  {
    assert g[4..6] == g[..|f| - 4][4..6] && f[4..6] == f[..|f| - 4][4..6];
  }

  lemma SealBroken(f: seq<byte>, g: seq<byte>, at: nat)
    requires Sealed(f) && Corrupted(f, g, at)
    ensures !Sealed(g)
  {
    hide Crc32.Crc, Bytes.WordBytes;
    var n := |f| - 4;
    assert f == f[..n] + f[n..] && g == g[..n] + g[n..];
    if Sealed(g) && g[..n] != f[..n] {
      CrcDetectsWord(f[..n], g[..n], at);
      WordBytesInjective(Crc(f[..n]), Crc(g[..n]));
    }
  }

  lemma WordBytesInjective(v: bv32, w: bv32)
    requires WordBytes(v) == WordBytes(w)
    ensures v == w
  {
    WordWritten(WordBytes(v), 0, v);
    WordWritten(WordBytes(w), 0, w);
  }
}

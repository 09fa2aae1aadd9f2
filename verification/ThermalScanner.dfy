/** The Modbus session of the 3D temperature scanner: chunked receive and register parsing. */
module ThermalScanner {
  import opened Wrappers
  import opened Bytes
  import opened Crc16
  import opened ReceiveLoop

  const READ_HOLDING: byte := 0x03
  const WRITE_SINGLE: byte := 0x06
  const EXCEPTION_BIT: byte := 0x80

  function ExpectedReadSize(count: u16): nat {
    3 + count * 2 + 2
  }

  // ----- receiving one response

  /** One round of the loop in transact: what to do with the bytes received so far. */
  function TransactVerdict(buffer: seq<byte>, addr: byte, fc: byte, normalSize: nat): Verdict<seq<byte>> {
    if |buffer| < 5 then More
    else if buffer[0] != addr then Reject
    else if buffer[1] != fc | EXCEPTION_BIT && buffer[1] != fc then Reject
    else
      var expectedSize := if buffer[1] == fc | EXCEPTION_BIT then 5 else normalSize;
      if |buffer| < expectedSize then More else Accept(buffer[..expectedSize])
  }

  function FrameDecoder(addr: byte, fc: byte, normalSize: nat): Decoder<seq<byte>> {
    (buffer: seq<byte>, finalChunk: bool) => TransactVerdict(buffer, addr, fc, normalSize)
  }

  lemma DecoderSettled(addr: byte, fc: byte, normalSize: nat)
    ensures Settled(FrameDecoder(addr, fc, normalSize))
  {
    var decode := FrameDecoder(addr, fc, normalSize);
    forall a: seq<byte>, b: seq<byte> | a <= b && !decode(a, false).More?
      ensures decode(b, false) == decode(a, false)
    {
      assert a[0] == b[0] && a[1] == b[1];
      if decode(a, false).Accept? {
        assert a[..5] == b[..5] && (normalSize <= |a| ==> a[..normalSize] == b[..normalSize]);
      }
    }
  }

  function Transact(addr: byte, fc: byte, normalSize: nat, x: Exchange): Received<seq<byte>> {
    Reply(FrameDecoder(addr, fc, normalSize), x)
  }

  /**
   For every way to cut the stream into chunks, the frame returned is the same prefix of the stream: five
   bytes for an exception, the expected size otherwise.
   */
  lemma TransactIsPrefix(addr: byte, fc: byte, normalSize: nat, x: Exchange)
    ensures var stream, r := Flatten(x.chunks), Transact(addr, fc, normalSize, x);
            r.Received? <==>
            && x.written && |stream| >= 5 && stream[0] == addr
            && ((stream[1] == fc | EXCEPTION_BIT && r == Received(stream[..5]))
                || (stream[1] == fc && stream[1] != fc | EXCEPTION_BIT && |stream| >= normalSize
                    && r == Received(stream[..normalSize])))
  {
    DecoderSettled(addr, fc, normalSize);
    ChunkingIndependent(FrameDecoder(addr, fc, normalSize), x);
  }

  // ----- parsing a register response

  datatype Parsed =
    | Registers(values: seq<bv16>)
    | NeedMore
    | CrcError
    | AddressMismatch
    | FunctionMismatch
    | ExceptionResponse(code: byte)
    | InvalidLength
    | InvalidByteCount

  /** parseCommonHeader; None means Ok. */
  function HeaderFault(frame: seq<byte>, addr: byte, fc: byte): Option<Parsed> {
    if |frame| < 5 then Some(NeedMore)
    else if !VerifyCrc(frame) then Some(CrcError)
    else if frame[0] != addr then Some(AddressMismatch)
    else if frame[1] == fc | EXCEPTION_BIT then Some(ExceptionResponse(frame[2]))
    else if frame[1] != fc then Some(FunctionMismatch)
    else None
  }

  function Join(hi: byte, lo: byte): bv16 {
    ((hi as bv16) << 8) | (lo as bv16)
  }

  lemma JoinParts(v: bv16)
    ensures Join(HighByte(v), LowByte(v)) == v
  {
  }

  function RegisterAt(frame: seq<byte>, offset: nat): bv16
    requires offset + 2 <= |frame|
  {
    Join(frame[offset], frame[offset + 1])
  }

  /** The n registers that start at byte 3. */
  function RegistersIn(frame: seq<byte>, n: nat): (values: seq<bv16>)
    requires 3 + 2 * n <= |frame|
  {
    seq(n, i requires 0 <= i < n => RegisterAt(frame, 3 + 2 * i))
  }

  /** Up to 255 registers the byte count must be right; above that it must be 0. */
  predicate ByteCountOk(byteCount: byte, count: u16) {
    if count > 255 then byteCount == 0 else IntOf(byteCount) == count * 2
  }

  function ParseRead(frame: seq<byte>, addr: byte, count: u16): Parsed {
    var fault := HeaderFault(frame, addr, READ_HOLDING);
    if fault.Some? then fault.value
    else if |frame| < ExpectedReadSize(count) then NeedMore
    else if |frame| != ExpectedReadSize(count) then InvalidLength
    else if !ByteCountOk(frame[2], count) then InvalidByteCount
    else Registers(RegistersIn(frame, count))
  }

  /** parseReadHoldingRegistersResponse, with its loop. */
  method ParseReadHolding(frame: seq<byte>, addr: byte, count: u16) returns (r: Parsed)
    ensures r == ParseRead(frame, addr, count)
  {
    hide VerifyCrc, Bytes.IntOf, RegisterAt;
    var fault := HeaderFault(frame, addr, READ_HOLDING);
    if fault.Some? {
      return fault.value;
    }
    if |frame| < ExpectedReadSize(count) {
      return NeedMore;
    }
    if |frame| != ExpectedReadSize(count) {
      return InvalidLength;
    }
    if !ByteCountOk(frame[2], count) {
      return InvalidByteCount;
    }
    var registers: seq<bv16> := [];
    var i := 0;
    while i < count
      invariant 0 <= i <= count && |registers| == i
      invariant forall j :: 0 <= j < i ==> registers[j] == RegisterAt(frame, 3 + 2 * j)
    {
      var offset := 3 + i * 2;
      registers := registers + [RegisterAt(frame, offset)];
      i := i + 1;
    }
    assert registers == RegistersIn(frame, count);
    r := Registers(registers);
  }

  // ----- what a scanner sends

  function RegisterBytes(values: seq<bv16>): (s: seq<byte>)
    ensures |s| == 2 * |values|
  {
    if values == [] then []
    else [HighByte(values[0]), LowByte(values[0])] + RegisterBytes(values[1..])
  }

  /** The byte count of a reply with n registers: twice n, or 0 when there are more than 255. */
  function ReplyByteCount(n: nat): byte
    requires n <= 127 || n > 255
  {
    if n > 255 then 0 else ByteOf(2 * n)
  }

  function ReadReply(addr: byte, values: seq<bv16>): seq<byte>
    requires |values| <= 127 || |values| > 255
  {
    BuildRequest(addr, READ_HOLDING, [ReplyByteCount(|values|)] + RegisterBytes(values))
  }

  lemma {:induction false} RegisterBytesAt(values: seq<bv16>, i: nat)
    requires i < |values|
    ensures var s := RegisterBytes(values);
            s[2 * i] == HighByte(values[i]) && s[2 * i + 1] == LowByte(values[i])
  {
    if i > 0 {
      RegisterBytesAt(values[1..], i - 1);
      assert values[1..][i - 1] == values[i];
    }
  }

  lemma RegistersReadBack(frame: seq<byte>, values: seq<bv16>)
    requires 3 + 2 * |values| <= |frame| && frame[3..3 + 2 * |values|] == RegisterBytes(values)
    ensures RegistersIn(frame, |values|) == values
  {
    hide Join, HighByte, LowByte, RegisterBytes;
    forall i | 0 <= i < |values|
      ensures RegisterAt(frame, 3 + 2 * i) == values[i]
    {
      RegisterBytesAt(values, i);
      var data := frame[3..3 + 2 * |values|];
      assert frame[3 + 2 * i] == data[2 * i] && frame[3 + 2 * i + 1] == data[2 * i + 1];
      JoinParts(values[i]);
    }
  }

  lemma NotException(fc: byte)
    requires fc == READ_HOLDING
    ensures fc != fc | EXCEPTION_BIT
  {
  }

  /** A well-formed reply parses to exactly the registers that were sent. */
  lemma ReplyParses(addr: byte, values: seq<bv16>)
    requires |values| <= 127 || 255 < |values| < 0x1_0000
    ensures ParseRead(ReadReply(addr, values), addr, |values|) == Registers(values)
  {
    hide VerifyCrc, Crc16.Crc, Bytes.IntOf, Bytes.ByteOf, RegistersIn, RegisterBytes;
    var frame := ReadReply(addr, values);
    RequestVerifies(addr, READ_HOLDING, [ReplyByteCount(|values|)] + RegisterBytes(values));
    NotException(READ_HOLDING);
    assert frame[3..3 + 2 * |values|] == RegisterBytes(values);
    RegistersReadBack(frame, values);
    assert frame[2] == ReplyByteCount(|values|);
    if |values| <= 127 {
      IntOfByteOf(2 * |values|);
    }
  }

  lemma {:induction false} RegisterBytesOfParts(frame: seq<byte>, at: nat, n: nat)
    requires at + 2 * n <= |frame|
    ensures RegisterBytes(seq(n, i requires 0 <= i < n => RegisterAt(frame, at + 2 * i))) == frame[at..at + 2 * n]
    decreases n
  {
    hide RegisterAt;
    if n > 0 {
      var values := seq(n, i requires 0 <= i < n => RegisterAt(frame, at + 2 * i));
      RegisterBytesOfParts(frame, at + 2, n - 1);
      assert values[1..] == seq(n - 1, i requires 0 <= i < n - 1 => RegisterAt(frame, at + 2 + 2 * i));
      PartsOfRegister(frame, at);
      assert frame[at..at + 2 * n] == [frame[at], frame[at + 1]] + frame[at + 2..at + 2 * n];
    }
  }

  lemma PartsOfRegister(frame: seq<byte>, at: nat)
    requires at + 2 <= |frame|
    ensures HighByte(RegisterAt(frame, at)) == frame[at] && LowByte(RegisterAt(frame, at)) == frame[at + 1]
  {
    PairParts(frame[at + 1], frame[at]);
  }

  predicate Readable(count: nat) {
    count <= 127 || 255 < count < 0x1_0000
  }

  /** Registers are read exactly from the reply that carries them: right address, count, length and CRC. */
  lemma ParseReadIff(frame: seq<byte>, addr: byte, count: u16, values: seq<bv16>)
    ensures ParseRead(frame, addr, count) == Registers(values) <==>
      |values| == count && Readable(count) && frame == ReadReply(addr, values)
  {
    hide Crc16.Crc, Pair, LowByte, HighByte, RegisterAt, RegisterBytes, Bytes.IntOf, Bytes.ByteOf, RegistersIn, BuildRequest, VerifyCrc;
    if ParseRead(frame, addr, count) == Registers(values) {
      hide VerifyCrc;
      CountInFrame(frame, count);
      AcceptedReply(frame, addr, count);
    } else if |values| == count && Readable(count) && frame == ReadReply(addr, values) {
      ReplyParses(addr, values);
    }
  }

  lemma CountInFrame(frame: seq<byte>, count: u16)
    requires |frame| > 2 && ByteCountOk(frame[2], count)
    ensures Readable(count) && frame[2] == ReplyByteCount(count)
  {
    hide Bytes.IntOf, Bytes.ByteOf;
    if count <= 255 {
      ByteOfIntOf(frame[2]);
    }
  }

  lemma AcceptedReply(frame: seq<byte>, addr: byte, count: u16)
    requires ParseRead(frame, addr, count).Registers? && Readable(count) && frame[2] == ReplyByteCount(count)
    ensures |ParseRead(frame, addr, count).values| == count && frame == ReadReply(addr, ParseRead(frame, addr, count).values)
  {
    hide Crc16.Crc, Pair, LowByte, HighByte, RegisterAt, RegisterBytes, Bytes.IntOf, Bytes.ByteOf, BuildRequest, VerifyCrc;
    SealedByRequest(frame);
    var values := ParseRead(frame, addr, count).values;
    RegisterBytesOfParts(frame, 3, count);
    assert values == seq(count, i requires 0 <= i < count => RegisterAt(frame, 3 + 2 * i));
    assert frame[2..|frame| - 2] == [frame[2]] + frame[3..3 + 2 * count];
  }

  /** How a frame of any device is answered that is no reply: by its CRC, its address and its function. */
  lemma FaultsNamed(frame: seq<byte>, addr: byte, count: u16)
    requires |frame| >= 5
    ensures var r := ParseRead(frame, addr, count);
            && (r == CrcError <==> !VerifyCrc(frame))
            && (r == AddressMismatch <==> VerifyCrc(frame) && frame[0] != addr)
            && (VerifyCrc(frame) && frame[0] == addr ==>
                  && (forall code :: r == ExceptionResponse(code) <==> frame[1] == 0x83 && code == frame[2])
                  && (r == FunctionMismatch <==> frame[1] != 0x83 && frame[1] != 0x03))
  {
    hide VerifyCrc, RegistersIn;
    assert READ_HOLDING | EXCEPTION_BIT == 0x83;
  }

  /** 128 to 255 registers can never be read: the byte count of no frame is right for them. */
  lemma MiddleCountsRefused(frame: seq<byte>, addr: byte, count: u16)
    requires 128 <= count <= 255
    ensures !ParseRead(frame, addr, count).Registers?
  {
    hide VerifyCrc, RegistersIn;
  }

  /** A count can be read at all exactly if it is at most 127 or more than 255. */
  lemma ReadableIff(addr: byte, count: u16)
    ensures (exists frame :: ParseRead(frame, addr, count).Registers?) <==> count <= 127 || count > 255
  {
    hide ParseRead;
    if count <= 127 || count > 255 {
      ReplyParses(addr, seq(count, _ => 0));
    } else {
      forall frame
        ensures !ParseRead(frame, addr, count).Registers?
      {
        MiddleCountsRefused(frame, addr, count);
      }
    }
  }

  // ----- the session's register read

  /** readRegisters: transact, then parse; anything but registers is a failure. */
  method ReadRegisters(transport: Transport, addr: byte, start: u16, count: u16) returns (values: Option<seq<bv16>>)
    modifies transport
    ensures transport.script == Later(old(transport.script))
    ensures transport.sent == old(transport.sent)
              + [BuildRequest(addr, READ_HOLDING, U16Bytes(start) + U16Bytes(count))]
    ensures values == ReadOutcome(addr, count, Current(old(transport.script)))
  {
    hide BuildRequest, Bytes.U16Bytes, ParseRead, TransactVerdict;
    var x := transport.WriteFrame(BuildRequest(addr, READ_HOLDING, U16Bytes(start) + U16Bytes(count)));
    var reply := Receive(FrameDecoder(addr, READ_HOLDING, ExpectedReadSize(count)), x);
    match reply {
      case Failed(_) => values := None;
      case Received(frame) =>
        var r := ParseReadHolding(frame, addr, count);
        values := if r.Registers? then Some(r.values) else None;
    }
  }

  function ReadOutcome(addr: byte, count: u16, x: Exchange): Option<seq<bv16>> {
    match Transact(addr, READ_HOLDING, ExpectedReadSize(count), x)
    case Failed(_) => None
    case Received(frame) =>
      var r := ParseRead(frame, addr, count);
      if r.Registers? then Some(r.values) else None
  }

  /** A read succeeds exactly if what was received starts with the reply that carries these registers. */
  lemma ReadOnWireIff(addr: byte, count: u16, values: seq<bv16>, x: Exchange)
    ensures ReadOutcome(addr, count, x) == Some(values) <==>
      x.written && |values| == count && Readable(count) && ReadReply(addr, values) <= Flatten(x.chunks)
  {
    hide ParseRead, Transact, BuildRequest, RegisterBytes, Bytes.ByteOf;
    var stream := Flatten(x.chunks);
    var t := Transact(addr, READ_HOLDING, ExpectedReadSize(count), x);
    TransactIsPrefix(addr, READ_HOLDING, ExpectedReadSize(count), x);
    if t.Received? {
      ParseReadIff(t.frame, addr, count, values);
    }
    if x.written && |values| == count && Readable(count) && ReadReply(addr, values) <= stream {
      var reply := ReadReply(addr, values);
      assert stream == reply + stream[|reply|..];
      ReadOverWire(addr, values, x, stream[|reply|..]);
    }
  }

  /** Registers sent in any chunks, with anything after them, are the registers read. */
  lemma ReadOverWire(addr: byte, values: seq<bv16>, x: Exchange, trailing: seq<byte>)
    requires |values| <= 127 || 255 < |values| < 0x1_0000
    requires x.written && Flatten(x.chunks) == ReadReply(addr, values) + trailing
    ensures ReadOutcome(addr, |values|, x) == Some(values)
  {
    hide Crc16.Crc, RegisterBytes, ParseRead, Transact, Bytes.ByteOf;
    var frame := ReadReply(addr, values);
    TransactIsPrefix(addr, READ_HOLDING, ExpectedReadSize(|values|), x);
    TransactAccepts(addr, READ_HOLDING, ExpectedReadSize(|values|), x);
    NotException(READ_HOLDING);
    assert (frame + trailing)[..|frame|] == frame;
    ReplyParses(addr, values);
  }

  /** A stream that starts with the address and function code and is long enough is accepted. */
  lemma TransactAccepts(addr: byte, fc: byte, normalSize: nat, x: Exchange)
    requires x.written
    ensures var stream := Flatten(x.chunks);
            |stream| >= 5 && stream[0] == addr && stream[1] == fc && fc != fc | EXCEPTION_BIT && |stream| >= normalSize ==>
            Transact(addr, fc, normalSize, x) == Received(stream[..normalSize])
  {
    DecoderSettled(addr, fc, normalSize);
    ChunkingIndependent(FrameDecoder(addr, fc, normalSize), x);
  }

  // ----- writing a register and capturing an image

  function WriteRequest(addr: byte, register: u16, value: u16): seq<byte> {
    BuildRequest(addr, WRITE_SINGLE, U16Bytes(register) + U16Bytes(value))
  }

  /** The bytes of the request that starts a capture, up to its CRC. */
  lemma CaptureRequestBytes(addr: byte)
    ensures WriteRequest(addr, CONTROL_REGISTER, CAPTURE_START)[..6] == [addr, 6, 0xEA, 0x60, 0, 100]
  {
    hide Crc16.Crc, LowByte, HighByte, Bytes.U16Bytes;
    RequestFields();
  }

  lemma RequestFields()
    ensures U16Bytes(60000) == [0xEA, 0x60] && U16Bytes(100) == [0, 100]
  {
    hide Bytes.ByteOf;
    assert ByteOf(0xEA) == 0xEA && ByteOf(0x60) == 0x60 && ByteOf(0) == 0 && ByteOf(100) == 100 by {
      ByteLiterals();
    }
  }

  lemma ByteLiterals()
    ensures ByteOf(0xEA) == 0xEA && ByteOf(0x60) == 0x60 && ByteOf(0) == 0 && ByteOf(100) == 100
  {
  }

  /** parseWriteSingleRegisterResponse: whether the response is the expected echo. */
  predicate WriteAccepted(frame: seq<byte>, addr: byte, register: u16, value: u16) {
    && HeaderFault(frame, addr, WRITE_SINGLE).None?
    && |frame| == 8 && U16At(frame, 2) == register && U16At(frame, 4) == value
  }

  lemma SealedByRequest(frame: seq<byte>)
    requires VerifyCrc(frame)
    ensures frame == BuildRequest(frame[0], frame[1], frame[2..|frame| - 2])
  {
    hide Crc16.Crc, Pair, LowByte, HighByte;
    var n := |frame| - 2;
    assert frame[..n] == [frame[0], frame[1]] + frame[2..n];
    PairParts(frame[n], frame[n + 1]);
    assert frame == frame[..n] + [frame[n], frame[n + 1]];
  }

  /** A write is accepted exactly if the response repeats the request byte for byte. */
  lemma WriteAcceptedIffEcho(frame: seq<byte>, addr: byte, register: u16, value: u16)
    ensures WriteAccepted(frame, addr, register, value) <==> frame == WriteRequest(addr, register, value)
  {
    hide Crc16.Crc, Bytes.U16Bytes, Bytes.U16At, VerifyCrc, BuildRequest;
    var request := WriteRequest(addr, register, value);
    var pdu := U16Bytes(register) + U16Bytes(value);
    RequestShape(addr, WRITE_SINGLE, pdu);
    RequestVerifies(addr, WRITE_SINGLE, pdu);
    assert WRITE_SINGLE != WRITE_SINGLE | EXCEPTION_BIT;
    assert request[2..4] == pdu[..2] && request[4..6] == pdu[2..4];
    U16Written(request, 2, register);
    U16Written(request, 4, value);
    if WriteAccepted(frame, addr, register, value) {
      SealedByRequest(frame);
      U16OfParts(frame, 2);
      U16OfParts(frame, 4);
      assert frame[2..6] == frame[2..4] + frame[4..6];
    }
  }

  lemma RequestShape(addr: byte, fc: byte, pdu: seq<byte>)
    ensures var r := BuildRequest(addr, fc, pdu);
            |r| == |pdu| + 4 && r[0] == addr && r[1] == fc && r[2..2 + |pdu|] == pdu
  {
  }

  function WriteOutcome(addr: byte, register: u16, value: u16, x: Exchange): bool {
    var reply := Transact(addr, WRITE_SINGLE, 8, x);
    reply.Received? && WriteAccepted(reply.frame, addr, register, value)
  }

  /** A write succeeds exactly if what was received starts with the request itself. */
  lemma WriteOnWireIff(addr: byte, register: u16, value: u16, x: Exchange)
    ensures WriteOutcome(addr, register, value, x) <==>
      x.written && WriteRequest(addr, register, value) <= Flatten(x.chunks)
  {
    hide Transact, BuildRequest, WriteAccepted, Bytes.U16Bytes;
    var stream, request := Flatten(x.chunks), WriteRequest(addr, register, value);
    RequestShape(addr, WRITE_SINGLE, U16Bytes(register) + U16Bytes(value));
    assert WRITE_SINGLE != WRITE_SINGLE | EXCEPTION_BIT;
    TransactIsPrefix(addr, WRITE_SINGLE, 8, x);
    if x.written {
      TransactAccepts(addr, WRITE_SINGLE, 8, x);
    }
    var t := Transact(addr, WRITE_SINGLE, 8, x);
    if t.Received? {
      WriteAcceptedIffEcho(t.frame, addr, register, value);
    }
  }

  method WriteSingleRegister(transport: Transport, addr: byte, register: u16, value: u16) returns (ok: bool)
    modifies transport
    ensures transport.script == Later(old(transport.script))
    ensures transport.sent == old(transport.sent) + [WriteRequest(addr, register, value)]
    ensures ok == WriteOutcome(addr, register, value, Current(old(transport.script)))
  {
    hide BuildRequest, Bytes.U16Bytes, WriteAccepted, TransactVerdict;
    var x := transport.WriteFrame(WriteRequest(addr, register, value));
    var reply := Receive(FrameDecoder(addr, WRITE_SINGLE, 8), x);
    match reply {
      case Failed(_) => ok := false;
      case Received(frame) => ok := WriteAccepted(frame, addr, register, value);
    }
  }

  const CONTROL_REGISTER: u16 := 60000
  const CAPTURE_START: u16 := 100
  const CAPTURE_SUCCESS: bv16 := 10
  const CAPTURE_FAILURE: bv16 := 20
  const PIXELS: u16 := 768

  /** What poll k of a capture reads; the start command is exchange 0. */
  function StateAt(addr: byte, script: seq<Exchange>, k: nat): Option<seq<bv16>> {
    ReadOutcome(addr, 1, At(script, k + 1))
  }

  predicate StillCapturing(state: Option<seq<bv16>>) {
    state.Some? && |state.value| == 1 && state.value[0] != CAPTURE_SUCCESS && state.value[0] != CAPTURE_FAILURE
  }

  /** The capture was started, poll k is the first that says anything but "still capturing", and it says success. */
  ghost predicate CapturedAt(addr: byte, script: seq<Exchange>, k: nat) {
    && WriteOutcome(addr, CONTROL_REGISTER, CAPTURE_START, At(script, 0))
    && (forall j: nat :: j < k ==> StillCapturing(StateAt(addr, script, j)))
    && StateAt(addr, script, k) == Some([CAPTURE_SUCCESS])
  }

  /** What was received starts with the reply that carries these registers. */
  ghost predicate Shows(addr: byte, x: Exchange, values: seq<bv16>)
    requires Readable(|values|)
  {
    x.written && ReadReply(addr, values) <= Flatten(x.chunks)
  }

  /** A poll that shows a state other than success (10) and failure (20). */
  ghost predicate ShowsOther(addr: byte, x: Exchange) {
    exists v: bv16 :: v != 10 && v != 20 && Shows(addr, x, [v])
  }

  lemma StateOnWireIff(addr: byte, x: Exchange)
    ensures StillCapturing(ReadOutcome(addr, 1, x)) <==> ShowsOther(addr, x)
    ensures ReadOutcome(addr, 1, x) == Some([CAPTURE_SUCCESS]) <==> Shows(addr, x, [10])
  {
    hide ReadOutcome, ReadReply;
    forall v: bv16
      ensures ReadOutcome(addr, 1, x) == Some([v]) <==> Shows(addr, x, [v])
    {
      ReadOnWireIff(addr, 1, [v], x);
    }
    var state := ReadOutcome(addr, 1, x);
    if StillCapturing(state) {
      assert state.value == [state.value[0]];
    }
  }

  /**
   When a capture counts as done, in terms of the wire: the start is echoed, every poll before poll k
   shows a state other than 10 and 20, and poll k shows 10.
   */
  lemma CapturedOnWireIff(addr: byte, script: seq<Exchange>, k: nat)
    ensures CapturedAt(addr, script, k) <==>
      && At(script, 0).written && WriteRequest(addr, 60000, 100) <= Flatten(At(script, 0).chunks)
      && (forall m :: 0 < m <= k ==> ShowsOther(addr, At(script, m)))
      && Shows(addr, At(script, k + 1), [10])
  {
    hide WriteOutcome, ReadOutcome, WriteRequest, Shows, ShowsOther, StillCapturing;
    WriteOnWireIff(addr, CONTROL_REGISTER, CAPTURE_START, At(script, 0));
    StateOnWireIff(addr, At(script, k + 1));
    if forall j: nat :: j < k ==> StillCapturing(StateAt(addr, script, j)) {
      forall m | 0 < m <= k
        ensures ShowsOther(addr, At(script, m))
      {
        assert StillCapturing(StateAt(addr, script, m - 1));
        StateOnWireIff(addr, At(script, m));
      }
    }
    if forall m :: 0 < m <= k ==> ShowsOther(addr, At(script, m)) {
      forall j: nat | j < k
        ensures StillCapturing(StateAt(addr, script, j))
      {
        StateOnWireIff(addr, At(script, j + 1));
      }
    }
  }

  /** The bytes of a reply with one register, up to its CRC; and what raw values stand for. */
  lemma ReplyBytes(addr: byte)
    ensures ReadReply(addr, [0x0102])[..5] == [addr, 3, 2, 1, 2]
    ensures Temperature(27315) == 0.0 && Temperature(0) == -273.15
  {
    hide Crc16.Crc;
    assert RegisterBytes([0x0102]) == [1, 2] + RegisterBytes([]);
  }

  /** The raw pixels, their temperatures in degrees Celsius, and the lowest and highest of these. */
  datatype Image = Image(raw: seq<bv16>, temperatures: seq<real>, min: real, max: real)

  /** rawPixelToTemperatureDegC, over the reals. */
  function Temperature(raw: bv16): real {
    (raw as int) as real * 0.01 - 273.15
  }

  predicate Summarizes(image: Image) {
    && |image.temperatures| == |image.raw|
    && (forall i :: 0 <= i < |image.raw| ==> image.temperatures[i] == Temperature(image.raw[i]))
    && image.min in image.temperatures && image.max in image.temperatures
    && (forall t :: t in image.temperatures ==> image.min <= t <= image.max)
  }

  /** The loop over the pixels of a captured image. */
  method Summarize(raw: seq<bv16>) returns (image: Image)
    requires raw != []
    ensures image.raw == raw && Summarizes(image)
  {
    hide Temperature;
    var min, max := Temperature(raw[0]), Temperature(raw[0]);
    var temperatures: seq<real> := [];
    var i := 0;
    while i < |raw|
      invariant 0 <= i <= |raw| && |temperatures| == i
      invariant forall j :: 0 <= j < i ==> temperatures[j] == Temperature(raw[j])
      invariant if i == 0 then min == max == Temperature(raw[0]) else min in temperatures && max in temperatures
      invariant min <= max && forall t :: t in temperatures ==> min <= t <= max
    {
      var temp := Temperature(raw[i]);
      temperatures := temperatures + [temp];
      if temp < min {
        min := temp;
      }
      if temp > max {
        max := temp;
      }
      i := i + 1;
    }
    image := Image(raw, temperatures, min, max);
  }

  /**
   Starts a capture, polls its state and reads the image. `maxPolls` is how many polls the scan timeout
   leaves room for. An image is returned exactly if one of them is the first to report success and the
   image read after it succeeds; it is that image, with its temperatures and their exact range.
   */
  method Capture(transport: Transport, addr: byte, maxPolls: nat) returns (image: Option<Image>)
    modifies transport
    ensures image.Some? <==>
      exists k: nat :: k < maxPolls && CapturedAt(addr, old(transport.script), k)
                       && ReadOutcome(addr, PIXELS, At(old(transport.script), k + 2)).Some?
    ensures image.Some? ==>
      exists k: nat :: k < maxPolls && CapturedAt(addr, old(transport.script), k)
                       && Some(image.value.raw) == ReadOutcome(addr, PIXELS, At(old(transport.script), k + 2))
    ensures image.Some? ==> |image.value.raw| == PIXELS && Summarizes(image.value)
  {
    hide BuildRequest, Bytes.U16Bytes, ReadOutcome, WriteOutcome, Summarizes;
    ghost var start := transport.script;
    var started := WriteSingleRegister(transport, addr, CONTROL_REGISTER, CAPTURE_START);
    if !started {
      return None;
    }
    var captureDone := false;
    var polls := 0;
    while polls < maxPolls
      invariant 0 <= polls <= maxPolls && transport.script == From(start, polls + 1)
      invariant forall j: nat :: j < polls ==> StillCapturing(StateAt(addr, start, j))
    {
      var state := ReadRegisters(transport, addr, CONTROL_REGISTER, 1);
      assert state == StateAt(addr, start, polls);
      ReadLength(addr, 1, At(start, polls + 1));
      if !StillCapturing(state) {
        if state == Some([CAPTURE_SUCCESS]) {
          captureDone := true;
          break;
        }
        return None;
      }
      polls := polls + 1;
    }
    if !captureDone {
      return None;
    }
    assert CapturedAt(addr, start, polls);
    assert transport.script == From(start, polls + 2);
    var pixels := ReadRegisters(transport, addr, 0, PIXELS);
    ReadLength(addr, PIXELS, At(start, polls + 2));
    if pixels.None? {
      return None;
    }
    var summary := Summarize(pixels.value);
    image := Some(summary);
  }

  lemma ReadLength(addr: byte, count: u16, x: Exchange)
    ensures var r := ReadOutcome(addr, count, x); r.Some? ==> |r.value| == count
  {
    hide VerifyCrc, RegisterAt, Transact;
  }
}

/** The client session of the 3D laser radar: one request at a time over a scripted transport. */
module LidaSession {
  import opened Wrappers
  import opened Bytes
  import opened ReceiveLoop
  import opened LidaCodec
  import Crc32

  const DEVICE_ADDR: byte := 0
  const QUERY: byte := 6
  const GET_DATA: byte := 12
  const LONG_COMMANDS: set<byte> := {4, 7, 8, 11}

  const OP_READ: u32 := 100
  const OP_RESET: u32 := 200
  const RUNNING: u32 := 1000

  const WRAP := 0x1_0000_0000

  /** What the device says about its last long task. */
  datatype Report = Report(lastCounter: u16, lastCommand: byte, resultA: u32, resultB: u32)

  datatype Segment = Segment(index: u32, count: u32, data: seq<byte>)

  datatype Outcome<+T> = Success(value: T) | Error(kind: ErrorKind)

  /** The counts are 32-bit ints. */
  datatype Aggregate = Aggregate(segmentCount: int, byteCount: int, data: seq<byte>)

  // ----- payloads

  function QueryPayload(r: Report): (p: seq<byte>)
    ensures |p| == 11
  {
    U16Bytes(r.lastCounter) + [r.lastCommand] + U32Bytes(r.resultA) + U32Bytes(r.resultB)
  }

  function ParseQuery(p: seq<byte>): Option<Report> {
    if |p| != 11 then None else Some(Report(U16At(p, 0), p[2], U32At(p, 3), U32At(p, 7)))
  }

  lemma QueryRoundTrip(r: Report)
    ensures ParseQuery(QueryPayload(r)) == Some(r)
  {
    hide Bytes.U16At, Bytes.U16Bytes, Bytes.U32At, Bytes.U32Bytes;
    var p := QueryPayload(r);
    assert p[0..2] == U16Bytes(r.lastCounter) && p[3..7] == U32Bytes(r.resultA) && p[7..11] == U32Bytes(r.resultB);
    U16Written(p, 0, r.lastCounter);
    U32Written(p, 3, r.resultA);
    U32Written(p, 7, r.resultB);
  }

  /** Which payloads are reports, and of what: 11 bytes, the fields in this order. */
  lemma ParseQueryIff(p: seq<byte>, r: Report)
    ensures ParseQuery(p) == Some(r) <==>
      && |p| == 11 && p[..2] == U16Bytes(r.lastCounter) && p[2] == r.lastCommand
      && p[3..7] == U32Bytes(r.resultA) && p[7..] == U32Bytes(r.resultB)
  {
    hide Bytes.U16At, Bytes.U16Bytes, Bytes.U32At, Bytes.U32Bytes;
    if |p| == 11 {
      assert p[..2] == p[0..2] && p[7..] == p[7..11];
      FieldIff(p, 0, r.lastCounter);
      FieldIff(p, 3, r.resultA);
      FieldIff(p, 7, r.resultB);
    }
  }

  function SegmentPayload(s: Segment): seq<byte>
    requires |s.data| < 0x1_0000
  {
    U32Bytes(s.index) + U32Bytes(s.count) + U16Bytes(|s.data|) + s.data
  }

  function ParseSegment(p: seq<byte>): Option<Segment> {
    if |p| < 10 || |p| != 10 + U16At(p, 8) then None else Some(Segment(U32At(p, 0), U32At(p, 4), p[10..]))
  }

  lemma SegmentRoundTrip(s: Segment)
    requires |s.data| < 0x1_0000
    ensures ParseSegment(SegmentPayload(s)) == Some(s)
  {
    hide Bytes.U16At, Bytes.U16Bytes, Bytes.U32At, Bytes.U32Bytes;
    var p := SegmentPayload(s);
    assert p[0..4] == U32Bytes(s.index) && p[4..8] == U32Bytes(s.count) && p[8..10] == U16Bytes(|s.data|);
    assert p[10..] == s.data;
    U32Written(p, 0, s.index);
    U32Written(p, 4, s.count);
    U16Written(p, 8, |s.data|);
  }

  /** Which payloads are segments, and of what: index, count, length, and data of exactly that length. */
  lemma ParseSegmentIff(p: seq<byte>, s: Segment)
    ensures ParseSegment(p) == Some(s) <==>
      && |s.data| < 0x1_0000 && |p| == 10 + |s.data|
      && p[..4] == U32Bytes(s.index) && p[4..8] == U32Bytes(s.count)
      && p[8..10] == U16Bytes(|s.data|) && p[10..] == s.data
  {
    hide Bytes.U16At, Bytes.U16Bytes, Bytes.U32At, Bytes.U32Bytes;
    if |p| >= 10 {
      assert p[..4] == p[0..4];
      FieldIff(p, 0, s.index);
      FieldIff(p, 4, s.count);
      FieldIff(p, 8, |s.data|);
    }
  }

  // ----- one exchange

  function DecodeVerdict(buffer: seq<byte>, command: byte, finalChunk: bool): Verdict<LaserFrame> {
    match TryDecodeFrame(buffer, Some(DEVICE_ADDR), Some(command), finalChunk)
    case Ok(frame, _) => Accept(frame)
    case Incomplete => More
    case _ => Reject
  }

  function FrameDecoder(command: byte): Decoder<LaserFrame> {
    (buffer: seq<byte>, finalChunk: bool) => DecodeVerdict(buffer, command, finalChunk)
  }

  /** Appending bytes never changes an outcome other than Incomplete. */
  lemma LaterBytesIgnored(a: seq<byte>, b: seq<byte>, command: byte)
    requires a <= b && !DecodeVerdict(a, command, false).More?
    ensures DecodeVerdict(b, command, false) == DecodeVerdict(a, command, false)
  {
    hide Bytes.U16At, Bytes.WordAt, Crc32.Crc;
    assert a[..4] == b[..4];
    if |a| >= MIN_FRAME_LEN && a[..4] == MAGIC {
      assert a[4..6] == b[4..6] && a[6..8] == b[6..8];
      SameU16(a, b, 4);
      SameU16(a, b, 6);
      var total := 6 + U16At(a, 4);
      if total <= |a| && total >= MIN_FRAME_LEN {
        assert a[total - 4..total] == b[total - 4..total];
        SameWord(a, b, total - 4);
        assert a[..total - 4] == b[..total - 4] && a[10..total - 4] == b[10..total - 4];
      }
    }
  }

  lemma DecoderSettled(command: byte)
    ensures Settled(FrameDecoder(command))
  {
    var decode := FrameDecoder(command);
    forall a: seq<byte>, b: seq<byte> | a <= b && !decode(a, false).More?
      ensures decode(b, false) == decode(a, false)
    {
      LaterBytesIgnored(a, b, command);
    }
  }

  function FrameReply(command: byte, x: Exchange): Received<LaserFrame> {
    Reply(FrameDecoder(command), x)
  }

  /** The reply of sendAndReceive depends on the bytes received, not on how they were cut or ended. */
  lemma ReplyIgnoresChunking(command: byte, x: Exchange, y: Exchange)
    requires x.written == y.written && Flatten(x.chunks) == Flatten(y.chunks)
    ensures FrameReply(command, x) == FrameReply(command, y)
  {
    DecoderSettled(command);
    ChunkingIndependent(FrameDecoder(command), x);
    ChunkingIndependent(FrameDecoder(command), y);
  }

  /** The exchange brings a frame of the device with this command and payload, and anything after it. */
  ghost predicate Carries(x: Exchange, command: byte, payload: seq<byte>) {
    x.written && Encodable(payload) && exists c: u16 :: EncodeFrame(c, DEVICE_ADDR, command, payload) <= Flatten(x.chunks)
  }

  /** Nothing was written, or nothing was received. */
  predicate Lost(x: Exchange) {
    !x.written || Flatten(x.chunks) == []
  }

  lemma AcceptedIsEncoded(stream: seq<byte>, command: byte)
    requires DecodeVerdict(stream, command, false).Accept?
    ensures var f := DecodeVerdict(stream, command, false).frame;
            Encodable(f.payload) && EncodeFrame(f.counter, DEVICE_ADDR, command, f.payload) <= stream
  {
    hide EncodeFrame, TryDecodeFrame;
    DecodedIsEncoded(stream, Some(DEVICE_ADDR), Some(command), false);
  }

  /** What is received, in terms of the bytes on the wire: an encoded frame, or an error of its kind. */
  lemma FrameOnWireIff(command: byte, x: Exchange, payload: seq<byte>)
    ensures var r := FrameReply(command, x);
            && (r == Failed(Transport) <==> Lost(x))
            && (r.Received? && r.frame.payload == payload <==> Carries(x, command, payload))
  {
    hide EncodeFrame, DecodeVerdict, Reply;
    var stream := Flatten(x.chunks);
    DecoderSettled(command);
    ReplyIs(FrameDecoder(command), x);
    NothingIsMore(command);
    if DecodeVerdict(stream, command, false).Accept? {
      AcceptedIsEncoded(stream, command);
    }
    if Carries(x, command, payload) {
      var c: u16 :| EncodeFrame(c, DEVICE_ADDR, command, payload) <= stream;
      var frame := EncodeFrame(c, DEVICE_ADDR, command, payload);
      assert stream == frame + stream[|frame|..];
      ReplyReceived(command, x, c, payload, stream[|frame|..]);
    }
  }

  lemma NothingIsMore(command: byte)
    ensures DecodeVerdict([], command, false).More?
  {
  }

  /** A reply frame that arrives whole is received as sent, in whatever chunks and with whatever after it. */
  lemma ReplyReceived(command: byte, x: Exchange, counter: u16, payload: seq<byte>, trailing: seq<byte>)
    requires x.written && Encodable(payload)
    requires Flatten(x.chunks) == EncodeFrame(counter, DEVICE_ADDR, command, payload) + trailing
    ensures FrameReply(command, x) == Received(Fields(counter, DEVICE_ADDR, command, payload))
  {
    DecoderSettled(command);
    ChunkingIndependent(FrameDecoder(command), x);
    DecodeEncoded(counter, DEVICE_ADDR, command, payload, trailing, Some(DEVICE_ADDR), Some(command), false);
  }

  function QueryOutcome(x: Exchange): Outcome<Report> {
    match FrameReply(QUERY, x)
    case Failed(kind) => Error(kind)
    case Received(frame) =>
      match ParseQuery(frame.payload)
      case None => Error(Protocol)
      case Some(report) => Success(report)
  }

  function SegmentOutcome(x: Exchange, index: u32): Outcome<Segment> {
    match FrameReply(GET_DATA, x)
    case Failed(kind) => Error(kind)
    case Received(frame) =>
      match ParseSegment(frame.payload)
      case None => Error(Protocol)
      case Some(segment) => if segment.index != index then Error(Protocol) else Success(segment)
  }

  /** A long command must not be answered at once: silence until the read times out is success. */
  function LaunchOutcome(x: Exchange, counter: u16): Outcome<u16> {
    if !x.written then Error(Transport)
    else if x.chunks != [] then Error(Protocol)
    else if x.end == ReadFailed then Error(Transport)
    else Success(counter)
  }

  /** The report travels over the wire unchanged. */
  lemma QueryOverWire(x: Exchange, counter: u16, report: Report, trailing: seq<byte>)
    requires x.written
    requires Flatten(x.chunks) == EncodeFrame(counter, DEVICE_ADDR, QUERY, QueryPayload(report)) + trailing
    ensures QueryOutcome(x) == Success(report)
  {
    hide Reply, QueryPayload, ParseQuery;
    ReplyReceived(QUERY, x, counter, QueryPayload(report), trailing);
    QueryRoundTrip(report);
  }

  lemma SegmentOverWire(x: Exchange, counter: u16, segment: Segment, trailing: seq<byte>)
    requires x.written && |segment.data| + 10 <= MAX_PAYLOAD_LEN
    requires Flatten(x.chunks) == EncodeFrame(counter, DEVICE_ADDR, GET_DATA, SegmentPayload(segment)) + trailing
    ensures SegmentOutcome(x, segment.index) == Success(segment)
  {
    hide Reply, ParseSegment;
    ReplyReceived(GET_DATA, x, counter, SegmentPayload(segment), trailing);
    SegmentRoundTrip(segment);
  }

  lemma QueryPayloadParts(r: Report)
    ensures var p := QueryPayload(r);
            && p[..2] == U16Bytes(r.lastCounter) && p[2] == r.lastCommand
            && p[3..7] == U32Bytes(r.resultA) && p[7..] == U32Bytes(r.resultB)
  {
    hide Bytes.U16Bytes, Bytes.U32Bytes;
  }

  /** The query's outcome in terms of the wire: the report carried, nothing at all, or something else. */
  lemma QueryOnWireIff(x: Exchange, r: Report)
    ensures QueryOutcome(x) == Success(r) <==> Carries(x, QUERY, QueryPayload(r))
    ensures QueryOutcome(x) == Error(Transport) <==> Lost(x)
  {
    hide ParseQuery, QueryPayload, FrameReply, Carries, Bytes.U16Bytes, Bytes.U32Bytes;
    FrameOnWireIff(QUERY, x, QueryPayload(r));
    QueryRoundTrip(r);
    if FrameReply(QUERY, x).Received? {
      var p := FrameReply(QUERY, x).frame.payload;
      ParseQueryIff(p, r);
      QueryPayloadParts(r);
      if |p| == 11 {
        assert p == p[..2] + [p[2]] + p[3..7] + p[7..];
        var q := QueryPayload(r);
        assert q == q[..2] + [q[2]] + q[3..7] + q[7..];
      }
    }
  }

  lemma SegmentPayloadParts(s: Segment)
    requires |s.data| < 0x1_0000
    ensures var p := SegmentPayload(s);
            && |p| == 10 + |s.data| && p[..4] == U32Bytes(s.index) && p[4..8] == U32Bytes(s.count)
            && p[8..10] == U16Bytes(|s.data|) && p[10..] == s.data
  {
    hide Bytes.U16Bytes, Bytes.U32Bytes;
  }

  /** A segment is read exactly if it is the one asked for and its encoding was received. */
  lemma SegmentOnWireIff(x: Exchange, index: u32, s: Segment)
    ensures SegmentOutcome(x, index) == Success(s) <==>
      s.index == index && |s.data| < 0x1_0000 && Carries(x, GET_DATA, SegmentPayload(s))
    ensures SegmentOutcome(x, index) == Error(Transport) <==> Lost(x)
  {
    hide ParseSegment, SegmentPayload, FrameReply, Carries, Bytes.U16Bytes, Bytes.U32Bytes;
    FrameOnWireIff(GET_DATA, x, []);
    if |s.data| < 0x1_0000 {
      FrameOnWireIff(GET_DATA, x, SegmentPayload(s));
      SegmentRoundTrip(s);
      SegmentPayloadParts(s);
    }
    if FrameReply(GET_DATA, x).Received? {
      var p := FrameReply(GET_DATA, x).frame.payload;
      ParseSegmentIff(p, s);
      if |s.data| < 0x1_0000 && |p| == 10 + |s.data| {
        var q := SegmentPayload(s);
        assert p == p[..4] + p[4..8] + p[8..10] + p[10..];
        assert q == q[..4] + q[4..8] + q[8..10] + q[10..];
      }
    }
  }

  /** A start is taken exactly if it is met with silence; an answer of any kind is a protocol error. */
  lemma LaunchIs(x: Exchange, counter: u16)
    ensures LaunchOutcome(x, counter).Success? <==> Silent(x)
    ensures LaunchOutcome(x, counter) == Error(Protocol) <==> x.written && exists chunk :: chunk in x.chunks
  {
    if x.chunks != [] {
      assert x.chunks[0] in x.chunks;
    }
  }

  /** Written, no chunk arrives, and the read ends in a timeout. */
  predicate Silent(x: Exchange) {
    x.written && |x.chunks| == 0 && (x.end.ReadTimeout? || x.end.DeadlinePassed?)
  }

  // ----- what a poll means

  datatype Poll = Again | Abort(kind: ErrorKind) | Complete(report: Report)

  /** A report counts only if it names the task and the task is no longer running. */
  function Judge(report: Report, counter: u16, command: byte): Poll {
    if report.lastCounter != counter || report.lastCommand != command || report.resultA == RUNNING then Again
    else Complete(report)
  }

  /** A lost poll is retried; an undecodable one ends the wait. */
  function PollOf(x: Exchange, counter: u16, command: byte): Poll {
    match QueryOutcome(x)
    case Error(Transport) => Again
    case Error(kind) => Abort(kind)
    case Success(report) => Judge(report, counter, command)
  }

  /** Every poll before k was inconclusive. */
  ghost predicate AgainUntil(script: seq<Exchange>, k: nat, counter: u16, command: byte)
    requires k <= |script|
  {
    forall j :: 0 <= j < k ==> PollOf(script[j], counter, command) == Again
  }

  /**
   The wait ends with `r` after `polls` polls: at the first conclusive one, or at the task deadline if
   there is none.
   */
  ghost predicate WaitEnds(script: seq<Exchange>, polls: nat, counter: u16, command: byte, r: Outcome<Report>)
    requires polls <= |script|
  {
    var last := if polls == 0 then Again else PollOf(script[polls - 1], counter, command);
    match r
    case Success(report) => last == Complete(report) && AgainUntil(script, polls - 1, counter, command)
    case Error(kind) =>
      || (kind == Protocol && polls == |script| && AgainUntil(script, polls, counter, command))
      || (last == Abort(kind) && AgainUntil(script, polls - 1, counter, command))
  }

  /** A poll that leaves the question open: lost, about another task, or about this one still running. */
  ghost predicate Inconclusive(x: Exchange, counter: u16, command: byte) {
    || Lost(x)
    || exists r :: Carries(x, QUERY, QueryPayload(r))
         && (r.lastCounter != counter || r.lastCommand != command || r.resultA == RUNNING)
  }

  /** A poll that brings the end of the task. */
  ghost predicate Concludes(x: Exchange, counter: u16, command: byte, r: Report) {
    && Carries(x, QUERY, QueryPayload(r))
    && r.lastCounter == counter && r.lastCommand == command && r.resultA != RUNNING
  }

  /** A poll that brings bytes which are no report. */
  ghost predicate Garbled(x: Exchange) {
    !Lost(x) && forall r :: !Carries(x, QUERY, QueryPayload(r))
  }

  /** What a poll means, in terms of the wire. */
  lemma PollOnWireIff(x: Exchange, counter: u16, command: byte)
    ensures PollOf(x, counter, command) == Again <==> Inconclusive(x, counter, command)
    ensures forall r :: PollOf(x, counter, command) == Complete(r) <==> Concludes(x, counter, command, r)
    ensures PollOf(x, counter, command).Abort? <==> Garbled(x)
    ensures PollOf(x, counter, command).Abort? ==> PollOf(x, counter, command) == Abort(Protocol)
  {
    hide QueryOutcome, Carries, Lost, QueryPayload;
    forall r
      ensures QueryOutcome(x) == Success(r) <==> Carries(x, QUERY, QueryPayload(r))
    {
      QueryOnWireIff(x, r);
    }
    QueryOnWireIff(x, Report(0, 0, 0, 0));
  }

  /** The first k polls leave the question open, and poll k brings this end of the task. */
  ghost predicate TaskEndsAt(script: seq<Exchange>, k: nat, counter: u16, command: byte, r: Report) {
    && k < |script| && Concludes(script[k], counter, command, r)
    && forall j :: 0 <= j < k ==> Inconclusive(script[j], counter, command)
  }

  /**
   How a wait ends, in terms of the wire: with the report of the first conclusive poll; or, always as a
   protocol error, at the first garbled poll or when all polls left the question open.
   */
  lemma WaitOnWire(script: seq<Exchange>, polls: nat, counter: u16, command: byte, r: Outcome<Report>)
    requires polls <= |script| && WaitEnds(script, polls, counter, command, r)
    ensures forall k: nat, report :: r == Success(report) && polls == k + 1 <==> TaskEndsAt(script, k, counter, command, report)
    ensures r.Error? ==>
      && r.kind == Protocol
      && (|| (polls == |script| && forall x :: x in script ==> Inconclusive(x, counter, command))
          || (polls > 0 && Garbled(script[polls - 1])
              && forall j :: 0 <= j < polls - 1 ==> Inconclusive(script[j], counter, command)))
  {
    hide PollOf, Inconclusive, Concludes, Garbled;
    forall x
      ensures PollOf(x, counter, command) == Again <==> Inconclusive(x, counter, command)
      ensures forall r :: PollOf(x, counter, command) == Complete(r) <==> Concludes(x, counter, command, r)
      ensures PollOf(x, counter, command).Abort? <==> Garbled(x)
      ensures PollOf(x, counter, command).Abort? ==> PollOf(x, counter, command) == Abort(Protocol)
    {
      PollOnWireIff(x, counter, command);
    }
  }

  /** The frames of n polls: plain reads of the query state, with consecutive counters. */
  function PollFrames(counter: u16, n: nat): seq<seq<byte>> {
    if n == 0 then []
    else PollFrames(counter, n - 1) + [EncodeFrame((counter + n - 1) % 0x1_0000, DEVICE_ADDR, QUERY, U32Bytes(OP_READ))]
  }

  /** The frames that ask for segments 0 to n - 1, with consecutive counters. */
  function SegmentFrames(counter: u16, n: u32): seq<seq<byte>> {
    if n == 0 then []
    else SegmentFrames(counter, n - 1) + [EncodeFrame((counter + n - 1) % 0x1_0000, DEVICE_ADDR, GET_DATA, U32Bytes(n - 1))]
  }

  // ----- collecting segments

  /** The 32-bit int that a count is cut to: the one that differs by a multiple of the word size. */
  function ToInt32(n: int): (r: int)
    ensures -0x8000_0000 <= r < 0x8000_0000 && (n - r) % 0x1_0000_0000 == 0
  {
    if n % WRAP < WRAP / 2 then n % WRAP else n % WRAP - WRAP
  }

  lemma Int32Grows(n: int)
    ensures ToInt32(ToInt32(n) + 1) == ToInt32(n + 1)
  {
    var m := n % WRAP;
    assert n == n / WRAP * WRAP + m;
    if m + 1 < WRAP {
      assert (n + 1) % WRAP == m + 1;
    } else {
      assert (n + 1) % WRAP == 0;
    }
  }

  predicate Delivers(script: seq<Exchange>, j: u32, count: u32) {
    var r := SegmentOutcome(At(script, j), j);
    r.Success? && r.value.count == count
  }

  /** Exchanges 0 to n - 1 deliver segments 0 to n - 1 of n. */
  ghost predicate Transfers(script: seq<Exchange>, n: u32) {
    n > 0 && forall j: u32 :: j < n ==> Delivers(script, j, n)
  }

  /** The data of segments 0 to n - 1, in order. */
  function Joined(script: seq<Exchange>, n: u32): seq<byte> {
    if n == 0 then []
    else
      var last := SegmentOutcome(At(script, n - 1), n - 1);
      Joined(script, n - 1) + (if last.Success? then last.value.data else [])
  }

  /** The exchanges bring these segments, in order and each telling their number. */
  ghost predicate SegmentsOnWire(script: seq<Exchange>, datas: seq<seq<byte>>) {
    && 0 < |datas| < WRAP
    && forall j :: 0 <= j < |datas| ==>
         |datas[j]| < 0x1_0000 && Carries(At(script, j), GET_DATA, SegmentPayload(Segment(j, |datas|, datas[j])))
  }

  lemma {:induction false} FlattenLast(datas: seq<seq<byte>>, n: nat)
    requires n < |datas|
    ensures Flatten(datas[..n + 1]) == Flatten(datas[..n]) + datas[n]
    decreases n
  {
    if n == 0 {
      assert datas[..1] == [datas[0]];
      assert Flatten(datas[..1]) == datas[0] + Flatten([]);
    } else {
      var rest := datas[1..];
      FlattenLast(rest, n - 1);
      assert datas[..n + 1][1..] == rest[..n] && datas[..n][1..] == rest[..n - 1];
    }
  }

  lemma {:induction false} JoinedIsFlatten(script: seq<Exchange>, datas: seq<seq<byte>>, n: u32)
    requires n <= |datas| < WRAP
    requires forall j: u32 :: j < n ==> SegmentOutcome(At(script, j), j) == Success(Segment(j, |datas|, datas[j]))
    ensures Joined(script, n) == Flatten(datas[..n])
    decreases n
  {
    hide SegmentOutcome;
    if n > 0 {
      JoinedIsFlatten(script, datas, n - 1);
      FlattenLast(datas, n - 1);
    }
  }

  /** A transfer, in terms of the wire: it is the segments received, and their number is unique. */
  lemma TransferOnWire(script: seq<Exchange>, datas: seq<seq<byte>>)
    requires SegmentsOnWire(script, datas)
    ensures Transfers(script, |datas|) && Joined(script, |datas|) == Flatten(datas)
    ensures forall n: u32 :: Transfers(script, n) ==> n == |datas|
  {
    hide SegmentOutcome, Carries, SegmentPayload;
    forall j: u32 | j < |datas|
      ensures SegmentOutcome(At(script, j), j) == Success(Segment(j, |datas|, datas[j]))
    {
      SegmentOnWireIff(At(script, j), j, Segment(j, |datas|, datas[j]));
    }
    JoinedIsFlatten(script, datas, |datas|);
    assert datas[..|datas|] == datas;
    forall n: u32 | Transfers(script, n)
      ensures n == |datas|
    {
      assert Delivers(script, 0, n) && Delivers(script, 0, |datas|);
    }
  }

  /** Every transfer comes from segments received. */
  lemma TransferWasOnWire(script: seq<Exchange>, n: u32) returns (datas: seq<seq<byte>>)
    requires Transfers(script, n)
    ensures |datas| == n && SegmentsOnWire(script, datas)
  {
    hide SegmentOutcome, Carries, SegmentPayload;
    datas := seq(n, j requires 0 <= j < n => SegmentData(script, j));
    forall j | 0 <= j < n
      ensures |datas[j]| < 0x1_0000 && Carries(At(script, j), GET_DATA, SegmentPayload(Segment(j, n, datas[j])))
    {
      assert Delivers(script, j, n);
      SegmentOnWireIff(At(script, j), j, SegmentOutcome(At(script, j), j).value);
    }
  }

  function SegmentData(script: seq<Exchange>, j: u32): seq<byte> {
    var r := SegmentOutcome(At(script, j), j);
    if r.Success? then r.value.data else []
  }

  lemma FramesGrow(sent: seq<seq<byte>>, counter: u16, n: nat)
    ensures sent + PollFrames(counter, n)
            + [EncodeFrame((counter + n) % 0x1_0000, DEVICE_ADDR, QUERY, U32Bytes(OP_READ))]
         == sent + PollFrames(counter, n + 1)
    ensures n + 1 < WRAP ==>
      sent + SegmentFrames(counter, n) + [EncodeFrame((counter + n) % 0x1_0000, DEVICE_ADDR, GET_DATA, U32Bytes(n))]
      == sent + SegmentFrames(counter, n + 1)
  {
    hide LidaCodec.EncodeFrame, Bytes.U32Bytes;
  }

  lemma FramesEmpty(counter: u16)
    ensures PollFrames(counter, 0) == [] && SegmentFrames(counter, 0) == []
  {
  }

  lemma CounterGrows(counter: u16, n: nat)
    ensures ((counter + n) % 0x1_0000 + 1) % 0x1_0000 == (counter + n + 1) % 0x1_0000
  {
  }

  // ----- the session

  class LaserSession {
    const transport: Transport
    var counter: u16

    constructor (transport: Transport)
      ensures this.transport == transport && counter == 0
    {
      this.transport := transport;
      counter := 0;
    }

    method ReserveCounter() returns (c: u16)
      modifies this`counter
      ensures c == old(counter) && counter == (c + 1) % 0x1_0000
    {
      c := counter;
      counter := (counter + 1) % 0x1_0000;
    }

    /** Exactly one frame was written, with the session's next counter. */
    twostate predicate Requested(command: byte, payload: seq<byte>)
      reads this, transport
    {
      && counter == (old(counter) + 1) % 0x1_0000
      && transport.script == Later(old(transport.script))
      && transport.sent == old(transport.sent) + [EncodeFrame(old(counter), DEVICE_ADDR, command, payload)]
    }

    method SendAndReceive(command: byte, payload: seq<byte>) returns (r: Received<LaserFrame>)
      modifies this`counter, transport
      ensures Requested(command, payload)
      ensures r == FrameReply(command, Current(old(transport.script)))
    {
      hide LidaCodec.EncodeFrame, Reply, DecodeVerdict;
      var c := ReserveCounter();
      var x := transport.WriteFrame(EncodeFrame(c, DEVICE_ADDR, command, payload));
      r := Receive(FrameDecoder(command), x);
    }

    method SendExpectNoImmediateResponse(command: byte, payload: seq<byte>) returns (r: Outcome<u16>)
      modifies this`counter, transport
      ensures Requested(command, payload)
      ensures r == LaunchOutcome(Current(old(transport.script)), old(counter))
    {
      hide LidaCodec.EncodeFrame;
      var c := ReserveCounter();
      var x := transport.WriteFrame(EncodeFrame(c, DEVICE_ADDR, command, payload));
      if !x.written {
        return Error(Transport);
      }
      if x.chunks != [] {
        return Error(Protocol);
      }
      if x.end == ReadFailed {
        return Error(Transport);
      }
      r := Success(c);
    }

    method Query(op: u32) returns (r: Outcome<Report>)
      modifies this`counter, transport
      ensures Requested(QUERY, U32Bytes(op))
      ensures r == QueryOutcome(Current(old(transport.script)))
    {
      var reply := SendAndReceive(QUERY, U32Bytes(op));
      match reply {
        case Failed(kind) => r := Error(kind);
        case Received(frame) =>
          var report := ParseQuery(frame.payload);
          r := if report.None? then Error(Protocol) else Success(report.value);
      }
    }

    method ReadSegment(index: u32) returns (r: Outcome<Segment>)
      modifies this`counter, transport
      ensures Requested(GET_DATA, U32Bytes(index))
      ensures r == SegmentOutcome(Current(old(transport.script)), index)
    {
      var reply := SendAndReceive(GET_DATA, U32Bytes(index));
      match reply {
        case Failed(kind) => r := Error(kind);
        case Received(frame) =>
          var segment := ParseSegment(frame.payload);
          if segment.None? || segment.value.index != index {
            return Error(Protocol);
          }
          r := Success(segment.value);
      }
    }

    /** Polls until the report names the task and is final, a poll is undecodable, or the time is up. */
    method WaitTaskCompleted(taskCounter: u16, command: byte) returns (r: Outcome<Report>, ghost polls: nat)
      modifies this`counter, transport
      ensures polls <= |old(transport.script)| && WaitEnds(old(transport.script), polls, taskCounter, command, r)
      ensures transport.script == old(transport.script)[polls..]
      ensures transport.sent == old(transport.sent) + PollFrames(old(counter), polls)
    {
      hide QueryOutcome, LidaCodec.EncodeFrame, Bytes.U32Bytes, PollFrames;
      FramesEmpty(counter);
      ghost var start := transport.script;
      polls := 0;
      while transport.script != []
        invariant 0 <= polls <= |start| && transport.script == start[polls..]
        invariant counter == (old(counter) + polls) % 0x1_0000
        invariant transport.sent == old(transport.sent) + PollFrames(old(counter), polls)
        invariant AgainUntil(start, polls, taskCounter, command)
        decreases |transport.script|
      {
        assert Current(transport.script) == start[polls];
        var q := Query(OP_READ);
        assert PollOf(start[polls], taskCounter, command) == match q
          case Error(Transport) => Again
          case Error(kind) => Abort(kind)
          case Success(report) => Judge(report, taskCounter, command);
        FramesGrow(old(transport.sent), old(counter), polls);
        CounterGrows(old(counter), polls);
        polls := polls + 1;
        match q {
          case Error(kind) =>
            if kind != Transport {
              r := Error(kind);
              return;
            }
          case Success(report) =>
            if Judge(report, taskCounter, command).Complete? {
              r := Success(report);
              return;
            }
        }
      }
      r := Error(Protocol);
    }

    /**
     Reads segments until the reported count is reached. The index is a 32-bit counter; it never wraps.
     */
    method CollectAllSegments() returns (r: Outcome<Aggregate>, ghost segments: u32)
      modifies this`counter, transport
      ensures r.Success? <==> exists n: u32 :: Transfers(old(transport.script), n)
      ensures forall datas :: SegmentsOnWire(old(transport.script), datas) ==>
                r.Success? && segments == |datas| && r.value.data == Flatten(datas)
      ensures r.Success? ==> && Transfers(old(transport.script), segments)
                             && r.value.data == Joined(old(transport.script), segments)
                             && r.value.segmentCount == ToInt32(segments) && r.value.byteCount == ToInt32(|r.value.data|)
                             && (exists datas :: |datas| == segments && SegmentsOnWire(old(transport.script), datas))
                             && transport.script == From(old(transport.script), segments)
                             && transport.sent == old(transport.sent) + SegmentFrames(old(counter), segments)
    {
      hide SegmentOutcome, LidaCodec.EncodeFrame, Bytes.U32Bytes, SegmentFrames, PollFrames, Joined, ToInt32;
      hide Transfers, Delivers, SegmentsOnWire, Flatten, SoFar, Asked, At, From, Later, Current;
      FromNext(transport.script, 0);
      segments := 0;
      CountsZero();
      NothingAsked(counter, transport.sent);
      NothingSoFar(transport.script);
      ghost var start := transport.script;
      var aggregated: seq<byte> := [];
      var expectedSegments: u32 := 0;
      var receivedSegments := 0;
      var segmentIndex: u32 := 0;
      while true
        invariant receivedSegments == ToInt32(segmentIndex) && (segmentIndex == 0 || segmentIndex < expectedSegments)
        invariant transport.script == From(start, segmentIndex)
        invariant Asked(old(counter), old(transport.sent), segmentIndex, counter, transport.sent)
        invariant SoFar(start, segmentIndex, expectedSegments, aggregated)
        decreases WRAP - segmentIndex
      {
        FromNext(start, segmentIndex);
        AskedGrows(old(counter), old(transport.sent), segmentIndex, counter, transport.sent);
        var s := ReadSegment(segmentIndex);
        NoTransfer(start, segmentIndex, expectedSegments, aggregated);
        if s.Error? {
          r := Error(s.kind);
          return;
        }
        if s.value.count == 0 {
          r := Error(Protocol);
          return;
        }
        if segmentIndex == 0 {
          expectedSegments := s.value.count;
        } else if s.value.count != expectedSegments {
          r := Error(Protocol);
          return;
        }
        SoFarGrows(start, segmentIndex, expectedSegments, aggregated);
        aggregated := aggregated + s.value.data;
        Int32Grows(segmentIndex);
        receivedSegments := ToInt32(receivedSegments + 1);
        if (segmentIndex + 1) % WRAP >= expectedSegments {
          break;
        }
        segmentIndex := (segmentIndex + 1) % WRAP;
      }
      segments := segmentIndex + 1;
      AskedIs(old(counter), old(transport.sent), segments, counter, transport.sent);
      AllTransferred(start, segments, aggregated);
      r := Success(Aggregate(receivedSegments, ToInt32(|aggregated|), aggregated));
    }
  }

  /** The first i exchanges delivered segments of this count, and data joins them. */
  ghost predicate SoFar(script: seq<Exchange>, i: u32, count: u32, data: seq<byte>) {
    data == Joined(script, i) && forall j: u32 :: j < i ==> Delivers(script, j, count)
  }

  /** Segments 0 to i - 1 have been asked for, with consecutive counters from c on. */
  ghost predicate Asked(c: u16, before: seq<seq<byte>>, i: u32, counter: u16, sent: seq<seq<byte>>) {
    counter == (c + i) % 0x1_0000 && sent == before + SegmentFrames(c, i)
  }

  lemma NothingAsked(c: u16, sent: seq<seq<byte>>)
    ensures Asked(c, sent, 0, c, sent)
  {
    FramesEmpty(c);
  }

  lemma AskedGrows(c: u16, before: seq<seq<byte>>, i: u32, counter: u16, sent: seq<seq<byte>>)
    requires Asked(c, before, i, counter, sent) && i + 1 < WRAP
    ensures Asked(c, before, i + 1, (counter + 1) % 0x1_0000, sent + [EncodeFrame(counter, DEVICE_ADDR, GET_DATA, U32Bytes(i))])
  {
    hide LidaCodec.EncodeFrame, Bytes.U32Bytes, SegmentFrames, PollFrames;
    FramesGrow(before, c, i);
    CounterGrows(c, i);
  }

  lemma AskedIs(c: u16, before: seq<seq<byte>>, i: u32, counter: u16, sent: seq<seq<byte>>)
    requires Asked(c, before, i, counter, sent)
    ensures sent == before + SegmentFrames(c, i)
  {
  }

  lemma NothingSoFar(script: seq<Exchange>)
    ensures SoFar(script, 0, 0, [])
  {
  }

  /** Delivered segment i, or the first one, which sets the count. */
  lemma SoFarGrows(script: seq<Exchange>, i: u32, count: u32, data: seq<byte>)
    requires (i == 0 && data == []) || SoFar(script, i, count, data)
    requires i < count && SegmentOutcome(At(script, i), i).Success? && SegmentOutcome(At(script, i), i).value.count == count
    ensures SoFar(script, i + 1, count, data + SegmentOutcome(At(script, i), i).value.data)
  {
    hide SegmentOutcome;
  }

  /** A segment that is missing, empty of count or contradicts the count leaves no transfer at all. */
  lemma NoTransfer(script: seq<Exchange>, i: u32, count: u32, data: seq<byte>)
    requires SoFar(script, i, count, data) && (i == 0 || i < count)
    ensures i == 0 ==> data == []
    ensures var s := SegmentOutcome(At(script, i), i);
            s.Error? || s.value.count == 0 || (i > 0 && s.value.count != count) ==>
              && (!exists n: u32 :: Transfers(script, n))
              && (forall datas :: !SegmentsOnWire(script, datas))
  {
    hide SegmentOutcome, SegmentsOnWire, Transfers;
    var s := SegmentOutcome(At(script, i), i);
    if s.Error? || s.value.count == 0 || (i > 0 && s.value.count != count) {
      NotTransferred(script, i, if i == 0 then 0 else count);
    }
  }

  lemma AllTransferred(script: seq<Exchange>, n: u32, data: seq<byte>)
    requires n > 0 && SoFar(script, n, n, data)
    ensures Transfers(script, n) && data == Joined(script, n)
    ensures exists datas :: |datas| == n && SegmentsOnWire(script, datas)
    ensures forall datas :: SegmentsOnWire(script, datas) ==> |datas| == n && Flatten(datas) == data
  {
    WireMeans(script, n);
  }

  /** The segments on the wire are those of the transfer there is. */
  lemma WireMeans(script: seq<Exchange>, n: u32)
    requires Transfers(script, n)
    ensures exists datas :: |datas| == n && SegmentsOnWire(script, datas)
    ensures forall datas :: SegmentsOnWire(script, datas) ==> |datas| == n && Flatten(datas) == Joined(script, n)
  {
    hide Transfers, SegmentsOnWire;
    var datas := TransferWasOnWire(script, n);
    forall datas | SegmentsOnWire(script, datas)
      ensures |datas| == n && Flatten(datas) == Joined(script, n)
    {
      SegmentsAreFew(script, datas);
      TransferOnWire(script, datas);
    }
  }

  lemma SegmentsAreFew(script: seq<Exchange>, datas: seq<seq<byte>>)
    requires SegmentsOnWire(script, datas)
    ensures |datas| < WRAP
  {
  }

  lemma CountsZero()
    ensures ToInt32(0) == 0
  {
  }

  /** If segment i is missing, or contradicts the count of segment 0, there is no transfer at all. */
  lemma NotTransferred(script: seq<Exchange>, i: u32, count: u32)
    requires i > 0 ==> Delivers(script, 0, count) && i < count
    requires !Delivers(script, i, count) || (i == 0 && count == 0)
    requires i == 0 ==> forall n: u32 :: n > 0 ==> !Delivers(script, 0, n)
    ensures !exists n: u32 :: Transfers(script, n)
    ensures forall datas :: !SegmentsOnWire(script, datas)
  {
    hide SegmentOutcome, SegmentsOnWire;
    forall n: u32
      ensures !Transfers(script, n)
    {
      var first, ith := Delivers(script, 0, n), Delivers(script, i, n);
    }
    forall datas
      ensures !SegmentsOnWire(script, datas)
    {
      if SegmentsOnWire(script, datas) {
        SegmentsAreFew(script, datas);
        TransferOnWire(script, datas);
      }
    }
  }
}

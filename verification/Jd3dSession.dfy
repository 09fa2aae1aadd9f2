/** The client session of the 3D scan robot, and the reassembly of a scan from its segments. */
module Jd3dSession {
  import opened Wrappers
  import opened Bytes
  import opened ReceiveLoop
  import opened Jd3dCodec

  const REG_READ: byte := 1
  const GET_DATA: byte := 12
  const QUERY: byte := 6
  const STILL_RUNNING: u32 := 0
  const SEGMENT_SIZE_REG: u16 := 15
  const ATTEMPTS := 5

  // ----- payloads

  function RegPayload(reg: u16, value: u32): seq<byte> {
    U16Bytes(reg) + U32Bytes(value)
  }

  /** The register value cut to 16 bits, if the reply is about the segment size. */
  function ParseSegmentSize(p: seq<byte>): Option<u16> {
    if |p| < 6 || U16At(p, 0) != SEGMENT_SIZE_REG then None else Some(U32At(p, 2) % 0x1_0000)
  }

  datatype Segment = Segment(index: u32, data: seq<byte>)

  function ParseSegment(p: seq<byte>): Option<Segment> {
    if |p| < 6 || U16At(p, 4) + 6 > |p| then None else Some(Segment(U32At(p, 0), p[6..6 + U16At(p, 4)]))
  }

  /** Which payloads are about the segment size: its register first, then any 32-bit value. */
  lemma ParseSegmentSizeIff(p: seq<byte>, size: u16)
    ensures ParseSegmentSize(p) == Some(size) <==>
      |p| >= 6 && p[..2] == [0, 15] && exists v: u32 :: p[2..6] == U32Bytes(v) && size == v % 0x1_0000
  {
    hide Bytes.U16At, Bytes.U32At, Bytes.U32Bytes;
    if |p| >= 6 {
      assert p[..2] == p[0..2];
      FieldIff(p, 0, SEGMENT_SIZE_REG);
      RegisterBytes();
      FieldIff(p, 2, U32At(p, 2));
      forall v: u32 | p[2..6] == U32Bytes(v)
        ensures v == U32At(p, 2)
      {
        FieldIff(p, 2, v);
      }
    }
  }

  lemma RegisterBytes()
    ensures U16Bytes(SEGMENT_SIZE_REG) == [0, 15] && RegPayload(SEGMENT_SIZE_REG, 100) == [0, 15, 0, 0, 0, 100]
    ensures U32Bytes(100) == [0, 0, 0, 100]
  {
  }

  /** Which payloads carry a segment, and which: index, length, and that many bytes after them. */
  lemma ParseSegmentIff(p: seq<byte>, s: Segment)
    ensures ParseSegment(p) == Some(s) <==>
      && |s.data| < 0x1_0000 && |p| >= 6 + |s.data|
      && p[..4] == U32Bytes(s.index) && p[4..6] == U16Bytes(|s.data|) && p[6..6 + |s.data|] == s.data
  {
    hide Bytes.U16At, Bytes.U16Bytes, Bytes.U32At, Bytes.U32Bytes;
    if |p| >= 6 {
      assert p[..4] == p[0..4];
      FieldIff(p, 0, s.index);
      FieldIff(p, 4, |s.data|);
    }
  }

  // ----- one exchange

  function FrameReply(addr: byte, command: byte, channel: Channel, x: Exchange): Received<RadarFrame> {
    Reply(FrameDecoder(addr, command, channel), x)
  }

  /** The reply depends on the bytes received, not on how they were cut or ended. */
  lemma ReplyIgnoresChunking(addr: byte, command: byte, channel: Channel, x: Exchange, y: Exchange)
    requires x.written == y.written && Flatten(x.chunks) == Flatten(y.chunks)
    ensures FrameReply(addr, command, channel, x) == FrameReply(addr, command, channel, y)
  {
    DecoderSettled(addr, command, channel);
    ChunkingIndependent(FrameDecoder(addr, command, channel), x);
    ChunkingIndependent(FrameDecoder(addr, command, channel), y);
  }

  /**
   The exchange brings a reply of the main channel with this payload: the shortest start of the stream
   that validates itself has the magic, the address asked for (0 takes any) and the command.
   */
  ghost predicate Brings(addr: byte, command: byte, x: Exchange, payload: seq<byte>) {
    x.written && exists n: nat :: FrameEndsAt(Flatten(x.chunks), n, addr, command, payload)
  }

  ghost predicate FrameEndsAt(stream: seq<byte>, n: nat, addr: byte, command: byte, payload: seq<byte>) {
    && LeastValid(stream, n)
    && stream[..4] == [0x4A, 0x44, 0x33, 0x44] && (addr == 0 || stream[6] == addr) && stream[7] == command
    && stream[8..n - 4] == payload
  }

  /** What is received, in terms of the bytes on the wire. */
  lemma FrameOnWireIff(addr: byte, command: byte, x: Exchange, payload: seq<byte>)
    requires command != 0
    ensures var r := FrameReply(addr, command, Main, x);
            r.Received? && r.frame.payload == payload <==> Brings(addr, command, x, payload)
  {
    hide Reply, SelfValidates;
    var stream := Flatten(x.chunks);
    DecoderSettled(addr, command, Main);
    ReplyIs(FrameDecoder(addr, command, Main), x);
    NothingIsMore(addr, command);
    forall n: nat
      ensures FrameEndsAt(stream, n, addr, command, payload) <==>
        var d := TryDecodeFrame(stream, addr, command, Main, false);
        d.Ok? && d.consumed == n && d.frame.payload == payload
    {
      EndIff(stream, n, addr, command, payload);
    }
    hide FrameEndsAt, TryDecodeFrame;
    var d := TryDecodeFrame(stream, addr, command, Main, false);
    if d.Ok? {
      var n := d.consumed;
      assert FrameEndsAt(stream, n, addr, command, payload) <==> d.frame.payload == payload;
    }
  }

  lemma NothingIsMore(addr: byte, command: byte)
    ensures DecodeVerdict([], addr, command, Main, false).More?
  {
  }

  /** The decoder accepts this payload with this length exactly if the frame ends there. */
  lemma EndIff(stream: seq<byte>, n: nat, addr: byte, command: byte, payload: seq<byte>)
    requires command != 0
    ensures FrameEndsAt(stream, n, addr, command, payload) <==>
      var d := TryDecodeFrame(stream, addr, command, Main, false);
      d.Ok? && d.consumed == n && d.frame.payload == payload
  {
    hide SelfValidates;
    HeaderIff(stream, addr, command);
    ValidLength(stream, n);
    if HeaderFault(stream, addr, command, Main).None? {
      DecodesLeast(stream, addr, command, Main, false, n);
    } else {
      ShortBuffer(stream, addr, command, Main, false);
    }
  }

  lemma HeaderIff(b: seq<byte>, addr: byte, command: byte)
    requires command != 0
    ensures HeaderFault(b, addr, command, Main).None? <==>
      |b| >= 16 && b[..4] == [0x4A, 0x44, 0x33, 0x44] && (addr == 0 || b[6] == addr) && b[7] == command
  {
  }

  /** An unambiguous frame of the device, in any chunks and with anything after it, brings its payload. */
  lemma EncodedBrings(addr: byte, command: byte, x: Exchange, counter: byte, from: byte, payload: seq<byte>, rest: seq<byte>)
    requires command != 0 && (addr == 0 || from == addr) && |payload| >= 4
    requires Unambiguous(counter, from, command, payload, false)
    requires x.written && Flatten(x.chunks) == EncodeFrame(counter, from, command, payload, false) + rest
    ensures Brings(addr, command, x, payload)
  {
    hide Reply, TryDecodeFrame, Unambiguous, Brings, EncodeFrame;
    DecoderSettled(addr, command, Main);
    ReplyIs(FrameDecoder(addr, command, Main), x);
    Jd3dCodec.DecodeEncoded(counter, from, command, payload, false, rest, addr, command, Main, false);
    FrameOnWireIff(addr, command, x, payload);
  }

  function SegmentSizeReply(addr: byte, x: Exchange): Option<u16> {
    match FrameReply(addr, REG_READ, Main, x)
    case Failed(_) => None
    case Received(frame) => ParseSegmentSize(frame.payload)
  }

  /** The data of segment i, if this exchange delivers that segment and no other. */
  function SegmentReply(addr: byte, x: Exchange, i: u32): Option<seq<byte>> {
    match FrameReply(addr, GET_DATA, Main, x)
    case Failed(_) => None
    case Received(frame) =>
      var s := ParseSegment(frame.payload);
      if s.None? || s.value.index != i then None else Some(s.value.data)
  }

  /** The exchange tells the data of segment i: index, length and data, then anything. */
  ghost predicate Tells(addr: byte, x: Exchange, i: u32, data: seq<byte>) {
    |data| < 0x1_0000 && exists extra :: Brings(addr, 12, x, U32Bytes(i) + U16Bytes(|data|) + data + extra)
  }

  /** A segment is taken exactly if the exchange tells it. */
  lemma SegmentOnWireIff(addr: byte, x: Exchange, i: u32, data: seq<byte>)
    ensures SegmentReply(addr, x, i) == Some(data) <==> Tells(addr, x, i, data)
  {
    hide FrameReply, Brings, ParseSegment, Bytes.U16Bytes, Bytes.U32Bytes;
    if SegmentReply(addr, x, i) == Some(data) {
      var p := FrameReply(addr, GET_DATA, Main, x).frame.payload;
      ParseSegmentIff(p, Segment(i, data));
      FrameOnWireIff(addr, GET_DATA, x, p);
      assert p == U32Bytes(i) + U16Bytes(|data|) + data + p[6 + |data|..];
    }
    if Tells(addr, x, i, data) {
      var extra :| Brings(addr, 12, x, U32Bytes(i) + U16Bytes(|data|) + data + extra);
      var p := U32Bytes(i) + U16Bytes(|data|) + data + extra;
      FrameOnWireIff(addr, GET_DATA, x, p);
      ParseSegmentIff(p, Segment(i, data));
    }
  }

  /** The size is read exactly if the exchange brings the register of the size, with that value cut to 16 bits. */
  lemma SizeOnWireIff(addr: byte, x: Exchange, size: u16)
    ensures SegmentSizeReply(addr, x) == Some(size) <==>
      exists v: u32, extra :: Brings(addr, 1, x, [0, 15] + U32Bytes(v) + extra) && size == v % 0x1_0000
  {
    hide FrameReply, Brings, ParseSegmentSize, Bytes.U32Bytes;
    if SegmentSizeReply(addr, x) == Some(size) {
      var p := FrameReply(addr, REG_READ, Main, x).frame.payload;
      ParseSegmentSizeIff(p, size);
      FrameOnWireIff(addr, REG_READ, x, p);
      var v: u32 :| p[2..6] == U32Bytes(v) && size == v % 0x1_0000;
      assert p == [0, 15] + U32Bytes(v) + p[6..];
    }
    forall v: u32, extra | Brings(addr, 1, x, [0, 15] + U32Bytes(v) + extra) && size == v % 0x1_0000
      ensures SegmentSizeReply(addr, x) == Some(size)
    {
      var p := [0, 15] + U32Bytes(v) + extra;
      FrameOnWireIff(addr, REG_READ, x, p);
      assert p[2..6] == U32Bytes(v);
      ParseSegmentSizeIff(p, size);
    }
  }

  // ----- waiting for a long task

  datatype TaskReport = TaskReport(lastCounter: byte, lastCommand: byte, resultCode: u32)

  function ParseQuery(p: seq<byte>): Option<TaskReport> {
    if |p| < 6 then None else Some(TaskReport(p[0], p[1], U32At(p, 2)))
  }

  /** The report a poll ends the wait with: it names the task and the task has ended. */
  function Conclusive(addr: byte, x: Exchange, counter: byte, command: byte): Option<TaskReport> {
    match FrameReply(addr, QUERY, Main, x)
    case Failed(_) => None
    case Received(frame) =>
      var r := ParseQuery(frame.payload);
      if r.None? || r.value.lastCounter != counter || r.value.lastCommand != command || r.value.resultCode == STILL_RUNNING
      then None else r
  }

  /** A poll ends the wait exactly if it brings a report on the task, with a result that is an end. */
  lemma ConclusiveOnWireIff(addr: byte, x: Exchange, counter: byte, command: byte, r: TaskReport)
    ensures Conclusive(addr, x, counter, command) == Some(r) <==>
      && r.lastCounter == counter && r.lastCommand == command && r.resultCode != 0
      && exists extra :: Brings(addr, 6, x, [counter, command] + U32Bytes(r.resultCode) + extra)
  {
    hide FrameReply, Brings, ParseQuery, Bytes.U32Bytes;
    if FrameReply(addr, QUERY, Main, x).Received? {
      var p := FrameReply(addr, QUERY, Main, x).frame.payload;
      ParseQueryIff(p, r);
      FrameOnWireIff(addr, QUERY, x, p);
      if Conclusive(addr, x, counter, command) == Some(r) {
        assert p == [counter, command] + U32Bytes(r.resultCode) + p[6..];
      }
    }
    forall extra | Brings(addr, 6, x, [counter, command] + U32Bytes(r.resultCode) + extra)
      ensures var f := FrameReply(addr, QUERY, Main, x);
              f.Received? && ParseQuery(f.frame.payload) == Some(TaskReport(counter, command, r.resultCode))
    {
      var p := [counter, command] + U32Bytes(r.resultCode) + extra;
      FrameOnWireIff(addr, QUERY, x, p);
      assert p[2..6] == U32Bytes(r.resultCode);
      ParseQueryIff(p, TaskReport(counter, command, r.resultCode));
    }
  }

  lemma ParseQueryIff(p: seq<byte>, r: TaskReport)
    ensures ParseQuery(p) == Some(r) <==>
      |p| >= 6 && p[0] == r.lastCounter && p[1] == r.lastCommand && p[2..6] == U32Bytes(r.resultCode)
  {
    hide Bytes.U32At, Bytes.U32Bytes;
    if |p| >= 6 {
      FieldIff(p, 2, r.resultCode);
    }
  }

  /** The link after n polls. */
  function Polled(addr: byte, link: Link, n: nat): Link {
    if n == 0 then link else After(addr, Polled(addr, link, n - 1), QUERY, U32Bytes(100))
  }

  // ----- what a collection does, exchange by exchange

  type Index = n: int | 0 <= n < 0x8000_0000

  /** The session as the protocol sees it: what the link will do, the next counter, the frames written. */
  datatype Link = Link(script: seq<Exchange>, counter: byte, sent: seq<seq<byte>>)

  /** The link after one request on the main channel. */
  function After(addr: byte, link: Link, command: byte, payload: seq<byte>): Link {
    Link(Later(link.script), link.counter + 1,
         link.sent + [EncodeFrame(link.counter, addr, command, payload, false)])
  }

  datatype Fetched = Fetched(data: Option<seq<byte>>, link: Link)

  /** Up to `left` requests for segment i, until one is answered with it. */
  function Fetch(addr: byte, link: Link, i: Index, left: nat): Fetched
    decreases left
  {
    if left == 0 then Fetched(None, link)
    else
      var data := SegmentReply(addr, Current(link.script), i);
      var next := After(addr, link, GET_DATA, U32Bytes(i));
      if data.Some? then Fetched(data, next) else Fetch(addr, next, i, left - 1)
  }

  /** A fetch succeeds exactly if one of its first `left` exchanges delivers the segment; the first one counts. */
  lemma {:induction false} FetchIff(addr: byte, link: Link, i: Index, left: nat) returns (k: nat)
    ensures var f := Fetch(addr, link, i, left);
            && (f.data.Some? ==> k < left && f.data == SegmentReply(addr, At(link.script, k), i))
            && (forall j :: 0 <= j < (if f.data.Some? then k else left) ==> SegmentReply(addr, At(link.script, j), i).None?)
    decreases left
  {
    hide SegmentReply, Jd3dCodec.EncodeFrame, Bytes.U32Bytes;
    k := 0;
    if left > 0 && SegmentReply(addr, At(link.script, 0), i).None? {
      k := FetchIff(addr, After(addr, link, GET_DATA, U32Bytes(i)), i, left - 1);
      assert forall j :: j > 0 ==> At(link.script, j) == At(Later(link.script), j - 1);
      k := k + 1;
    }
  }

  /** `data` laid over the image at `offset`, cut at its end. */
  function Overlay(image: seq<byte>, offset: nat, data: seq<byte>): (r: seq<byte>)
    requires offset <= |image|
    ensures |r| == |image|
  {
    var n := if |data| <= |image| - offset then |data| else |image| - offset;
    image[..offset] + data[..n] + image[offset + n..]
  }

  function SegmentCount(total: nat, segSize: nat): (n: nat)
    requires segSize > 0
    ensures (n - 1) * segSize < total <= n * segSize || (n == 0 && total == 0)
  {
    total / segSize + (if total % segSize != 0 then 1 else 0)
  }

  predicate ValidSegmentSize(segSize: nat) {
    0 < segSize <= 1376 && segSize % 16 == 0
  }

  datatype Collected = Collected(image: Option<seq<byte>>, link: Link)

  /** Segments i, at offset `at`, to the last, laid over the image. */
  function Collect(addr: byte, link: Link, segSize: nat, i: nat, at: nat, image: seq<byte>): Collected
    requires segSize > 0 && i <= at && |image| < 0x8000_0000
    decreases |image| - at
  {
    hide Fetch;
    if at >= |image| then Collected(Some(image), link)
    else
      var f := Fetch(addr, link, i, ATTEMPTS);
      if f.data.None? then Collected(None, f.link)
      else Collect(addr, f.link, segSize, i + 1, at + segSize, Overlay(image, at, f.data.value))
  }

  lemma StepFits(i: nat, segSize: nat)
    ensures SlotOffset(i + 1, segSize) == SlotOffset(i, segSize) + segSize
    ensures segSize > 0 ==> i <= SlotOffset(i, segSize)
  {
  }

  /** The loop bound of the code and the offset bound of `Collect` agree. */
  lemma CountBounds(i: nat, segSize: nat, total: nat)
    requires segSize > 0
    ensures i < SegmentCount(total, segSize) <==> SlotOffset(i, segSize) < total
  {
    hide SegmentCount;
    var n := SegmentCount(total, segSize);
    if i < n {
      Scale(i, n - 1, segSize);
    } else {
      Scale(n, i, segSize);
    }
  }

  lemma Scale(a: int, b: int, k: nat)
    requires a <= b
    ensures a * k <= b * k
  {
  }

  // ----- reassembly of a truthful scan

  /** The data carries at least the bytes of the scan's slot at offset `at`. */
  ghost predicate Truthful(scan: seq<byte>, segSize: nat, at: nat, data: seq<byte>) {
    at < |scan| ==>
      var n := if segSize <= |scan| - at then segSize else |scan| - at;
      |data| >= n && data[..n] == scan[at..at + n]
  }

  /**
   The device tells the truth about the segments it names, in the bytes it sends. Nothing is said about
   which replies arrive, or when: any may be lost, late, repeated or about another segment than the one
   asked for.
   */
  ghost predicate TruthfulDevice(addr: byte, script: seq<Exchange>, scan: seq<byte>, segSize: nat) {
    forall x, i: Index, data :: x in script && Tells(addr, x, i, data) ==> Truthful(scan, segSize, SlotOffset(i, segSize), data)
  }

  function SlotOffset(i: nat, segSize: nat): (at: nat)
  {
    i * segSize
  }

  lemma NothingDelivered(addr: byte, i: Index)
    ensures SegmentReply(addr, Current([]), i).None?
  {
  }

  lemma {:induction false} FetchIsTruthful(addr: byte, link: Link, i: Index, left: nat, scan: seq<byte>, segSize: nat)
    requires TruthfulDevice(addr, link.script, scan, segSize)
    ensures var f := Fetch(addr, link, i, left);
            && (f.data.Some? ==> Truthful(scan, segSize, SlotOffset(i, segSize), f.data.value))
            && TruthfulDevice(addr, f.link.script, scan, segSize)
    decreases left
  {
    hide SegmentReply, Tells, Truthful, Jd3dCodec.EncodeFrame;
    NothingDelivered(addr, i);
    if left > 0 {
      var first := SegmentReply(addr, Current(link.script), i);
      if first.Some? {
        SegmentOnWireIff(addr, Current(link.script), i, first.value);
      }
      assert TruthfulDevice(addr, Later(link.script), scan, segSize);
      FetchIsTruthful(addr, After(addr, link, GET_DATA, U32Bytes(i)), i, left - 1, scan, segSize);
    }
  }

  lemma OverlayExtends(scan: seq<byte>, image: seq<byte>, segSize: nat, at: nat, data: seq<byte>)
    requires |image| == |scan| && at < |scan| && image[..at] == scan[..at]
    requires Truthful(scan, segSize, at, data)
    ensures var next, r := at + segSize, Overlay(image, at, data);
            if next < |scan| then r[..next] == scan[..next] else r == scan
  {
    var n := if segSize <= |scan| - at then segSize else |scan| - at;
    var r := Overlay(image, at, data);
    assert r[..at] == scan[..at];
    assert r[at..at + n] == data[..n] == scan[at..at + n];
    assert r[..at + n] == r[..at] + r[at..at + n];
    assert scan[..at + n] == scan[..at] + scan[at..at + n];
  }

  /** However many replies are lost or misplaced: a collection that succeeds yields the scan itself. */
  lemma {:induction false} CollectedIsScan(addr: byte, link: Link, segSize: nat, i: nat, at: nat, image: seq<byte>, scan: seq<byte>)
    requires segSize > 0 && at == SlotOffset(i, segSize) && i <= at
    requires |image| == |scan| < 0x8000_0000
    requires if at < |scan| then image[..at] == scan[..at] else image == scan
    requires TruthfulDevice(addr, link.script, scan, segSize)
    ensures var c := Collect(addr, link, segSize, i, at, image); c.image.Some? ==> c.image.value == scan
    decreases |image| - at
  {
    hide TruthfulDevice, Fetch, Overlay, Truthful, SlotOffset;
    if at < |image| {
      var f := Fetch(addr, link, i, ATTEMPTS);
      FetchIsTruthful(addr, link, i, ATTEMPTS, scan, segSize);
      if f.data.Some? {
        OverlayExtends(scan, image, segSize, at, f.data.value);
        StepFits(i, segSize);
        CollectedIsScan(addr, f.link, segSize, i + 1, at + segSize, Overlay(image, at, f.data.value), scan);
      }
    }
  }

  /** Whatever the link does: a truthful device and a successful collection give back the scan. */
  lemma ScanReassembled(addr: byte, link: Link, segSize: nat, scan: seq<byte>)
    requires segSize > 0 && |scan| < 0x8000_0000 && TruthfulDevice(addr, link.script, scan, segSize)
    ensures var c := Collect(addr, link, segSize, 0, 0, Zeros(|scan|)); c.image.Some? ==> c.image.value == scan
  {
    CollectedIsScan(addr, link, segSize, 0, 0, Zeros(|scan|), scan);
  }

  /** The exchanges tell segments i, i + 1, ... one after the other, as far as the image goes. */
  ghost predicate TellsAll(addr: byte, script: seq<Exchange>, segSize: nat, i: nat, total: nat) {
    forall k: nat :: SlotOffset(i + k, segSize) < total ==> TellsSome(addr, At(script, k), i + k)
  }

  ghost predicate TellsSome(addr: byte, x: Exchange, i: nat) {
    i < 0x8000_0000 && exists data :: Tells(addr, x, i, data)
  }

  lemma {:induction false} AllTold(addr: byte, link: Link, segSize: nat, i: nat, at: nat, image: seq<byte>)
    requires segSize > 0 && at == SlotOffset(i, segSize) && i <= at && |image| < 0x8000_0000
    requires TellsAll(addr, link.script, segSize, i, |image|)
    ensures Collect(addr, link, segSize, i, at, image).image.Some?
    decreases |image| - at
  {
    hide Collect, Overlay, Fetch, TellsAll, SlotOffset;
    if at < |image| {
      FirstTold(addr, link, segSize, i, |image|);
    }
    CollectStep(addr, link, segSize, i, image);
    if at < |image| {
      var f := Fetch(addr, link, i, ATTEMPTS);
      StepFits(i, segSize);
      AllTold(addr, f.link, segSize, i + 1, at + segSize, Overlay(image, at, f.data.value));
    }
  }

  lemma FirstTold(addr: byte, link: Link, segSize: nat, i: nat, total: nat)
    requires TellsAll(addr, link.script, segSize, i, total) && SlotOffset(i, segSize) < total
    ensures i < 0x8000_0000 && Fetch(addr, link, i, ATTEMPTS).data.Some?
    ensures TellsAll(addr, Fetch(addr, link, i, ATTEMPTS).link.script, segSize, i + 1, total)
  {
    hide Tells, SegmentReply, SlotOffset, Jd3dCodec.EncodeFrame, Bytes.U32Bytes;
    assert SlotOffset(i + 0, segSize) < total;
    assert TellsSome(addr, At(link.script, 0), i + 0);
    var data :| Tells(addr, At(link.script, 0), i, data);
    SegmentOnWireIff(addr, Current(link.script), i, data);
    forall k: nat | SlotOffset(i + 1 + k, segSize) < total
      ensures TellsSome(addr, At(Later(link.script), k), i + 1 + k)
    {
      assert i + (k + 1) == i + 1 + k && At(Later(link.script), k) == At(link.script, k + 1);
      assert TellsSome(addr, At(link.script, k + 1), i + (k + 1));
    }
  }

  /** A truthful device whose replies arrive in turn gives its scan: the collection succeeds, with the scan. */
  lemma ScanArrives(addr: byte, link: Link, segSize: nat, scan: seq<byte>)
    requires segSize > 0 && |scan| < 0x8000_0000 && TruthfulDevice(addr, link.script, scan, segSize)
    requires TellsAll(addr, link.script, segSize, 0, |scan|)
    ensures Collect(addr, link, segSize, 0, 0, Zeros(|scan|)).image == Some(scan)
  {
    hide Collect, TruthfulDevice, TellsAll;
    FirstSlot(segSize);
    AllTold(addr, link, segSize, 0, 0, Zeros(|scan|));
    ScanReassembled(addr, link, segSize, scan);
  }

  /** memcpy of a segment into its slot, cut at the end of the buffer. */
  method CopySegment(aggregated: array<byte>, offset: nat, data: seq<byte>)
    requires offset <= aggregated.Length
    modifies aggregated
    ensures aggregated[..] == Overlay(old(aggregated[..]), offset, data)
  {
    var copyLen := if |data| <= aggregated.Length - offset then |data| else aggregated.Length - offset;
    forall k | 0 <= k < copyLen {
      aggregated[offset + k] := data[k];
    }
  }

  // ----- the session

  class RadarSession {
    const transport: Transport
    const addr: byte
    var counter: byte
    var insertCounter: byte

    constructor (transport: Transport, addr: byte)
      ensures this.transport == transport && this.addr == addr && counter == 0 && insertCounter == 0
    {
      this.transport := transport;
      this.addr := addr;
      counter, insertCounter := 0, 0;
    }

    /** Writes one frame, with the counter of its channel; the other channel's counter stays. */
    method SendAndReceive(command: byte, payload: seq<byte>, interrupt: bool) returns (r: Received<RadarFrame>)
      modifies this`counter, this`insertCounter, transport
      ensures counter == (if interrupt then old(counter) else old(counter) + 1)
      ensures insertCounter == (if interrupt then old(insertCounter) + 1 else old(insertCounter))
      ensures transport.script == Later(old(transport.script))
      ensures transport.sent == old(transport.sent)
                + [EncodeFrame(if interrupt then old(insertCounter) else old(counter), addr, command, payload, interrupt)]
      ensures r == FrameReply(addr, command, if interrupt then Interrupt else Main, Current(old(transport.script)))
    {
      var c: byte;
      if interrupt {
        c := insertCounter;
        insertCounter := insertCounter + 1;
      } else {
        c := counter;
        counter := counter + 1;
      }
      var x := transport.WriteFrame(EncodeFrame(c, addr, command, payload, interrupt));
      r := Receive(FrameDecoder(addr, command, if interrupt then Interrupt else Main), x);
    }

    ghost function State(): Link
      reads this, transport
    {
      Link(transport.script, counter, transport.sent)
    }

    method ReadSegmentSize() returns (size: Option<u16>)
      modifies this`counter, this`insertCounter, transport
      ensures State() == After(addr, old(State()), REG_READ, RegPayload(SEGMENT_SIZE_REG, 100))
      ensures size == SegmentSizeReply(addr, Current(old(transport.script)))
    {
      var reply := SendAndReceive(REG_READ, RegPayload(SEGMENT_SIZE_REG, 100), false);
      match reply {
        case Failed(_) => size := None;
        case Received(frame) => size := ParseSegmentSize(frame.payload);
      }
    }

    /** Polls until one is conclusive or the time is up; polls that fail in any way are repeated. */
    method WaitTaskCompleted(taskCounter: byte, command: byte) returns (r: Option<TaskReport>, ghost polls: nat)
      modifies this`counter, this`insertCounter, transport
      ensures polls <= |old(transport.script)| && State() == Polled(addr, old(State()), polls)
      ensures forall j :: 0 <= j < polls - 1 ==> Conclusive(addr, old(transport.script)[j], taskCounter, command).None?
      ensures if r.Some? then polls > 0 && r == Conclusive(addr, old(transport.script)[polls - 1], taskCounter, command)
              else polls == |old(transport.script)|
                   && forall x :: x in old(transport.script) ==> Conclusive(addr, x, taskCounter, command).None?
    {
      hide Jd3dCodec.EncodeFrame, Bytes.U32Bytes, Bytes.U32At, Conclusive, After, Reply;
      ghost var start := transport.script;
      r, polls := None, 0;
      while transport.script != []
        invariant 0 <= polls <= |start| && transport.script == start[polls..]
        invariant State() == Polled(addr, old(State()), polls)
        invariant forall j :: 0 <= j < polls ==> Conclusive(addr, start[j], taskCounter, command).None?
        decreases |transport.script|
      {
        ghost var link := State();
        ConclusiveIs(addr, start[polls], taskCounter, command);
        AfterIs(addr, link, QUERY, U32Bytes(100));
        var reply := SendAndReceive(QUERY, U32Bytes(100), false);
        polls := polls + 1;
        if reply.Received? {
          var report := ParseQuery(reply.frame.payload);
          if report.Some? && report.value.lastCounter == taskCounter && report.value.lastCommand == command
             && report.value.resultCode != STILL_RUNNING {
            r := report;
            return;
          }
        }
      }
    }

    /** The retry loop for one segment. */
    method FetchSegment(i: Index) returns (data: Option<seq<byte>>)
      modifies this`counter, this`insertCounter, transport
      ensures Fetched(data, State()) == Fetch(addr, old(State()), i, 5)
    {
      hide Jd3dCodec.EncodeFrame, Bytes.U32Bytes, SegmentReply;
      var attempt := 0;
      while attempt < ATTEMPTS
        invariant 0 <= attempt <= ATTEMPTS
        invariant Fetch(addr, State(), i, ATTEMPTS - attempt) == Fetch(addr, old(State()), i, ATTEMPTS)
      {
        SegmentReplyIs(addr, Current(transport.script), i);
        var reply := SendAndReceive(GET_DATA, U32Bytes(i), false);
        attempt := attempt + 1;
        if reply.Received? {
          var s := ParseSegment(reply.frame.payload);
          if s.Some? && s.value.index == i {
            return Some(s.value.data);
          }
        }
      }
      data := None;
    }

    /** The device has this scan and tells the truth about it once the segment size is read. */
    ghost predicate IsScan(scan: seq<byte>, totalBytes: nat, script: seq<Exchange>) {
      var size := SegmentSizeReply(addr, Current(script));
      |scan| == totalBytes && (size.Some? ==> TruthfulDevice(addr, Later(script), scan, size.value))
    }

    lemma ScanCollected(link: Link, segSize: nat, totalBytes: nat, scan: seq<byte>, script: seq<Exchange>)
      requires segSize > 0 && totalBytes < 0x8000_0000 && IsScan(scan, totalBytes, script)
      requires SegmentSizeReply(addr, Current(script)) == Some(segSize) && link.script == Later(script)
      ensures var c := Collect(addr, link, segSize, 0, 0, Zeros(totalBytes)); c.image.Some? ==> c.image.value == scan
    {
      hide Collect, TruthfulDevice, SegmentSizeReply;
      ScanReassembled(addr, link, segSize, scan);
    }

    /** Reads the segment size, then every segment into its place of a zeroed buffer. */
    method CollectScanData(totalBytes: nat) returns (r: Option<Aggregate>)
      requires totalBytes < 0x8000_0000
      modifies this`counter, this`insertCounter, transport
      ensures var size := SegmentSizeReply(addr, Current(old(transport.script)));
              var link := After(addr, old(State()), REG_READ, RegPayload(SEGMENT_SIZE_REG, 100));
              if size.None? || size.value == 0 || size.value > 1376 || size.value % 16 != 0 then r.None? && State() == link
              else
                var c := Collect(addr, link, size.value, 0, 0, Zeros(totalBytes));
                && State() == c.link
                && r == if c.image.None? then None
                        else Some(Aggregate(SegmentCount(totalBytes, size.value), totalBytes, c.image.value))
      ensures forall scan: seq<byte> :: r.Some? && IsScan(scan, totalBytes, old(transport.script)) ==> r.value.data == scan
    {
      hide IsScan, After, SegmentSizeReply, Collect, Fetch, SlotOffset, SegmentCount, Overlay, RegPayload;
      hide Jd3dCodec.EncodeFrame, Bytes.U16Bytes, Bytes.U32Bytes;
      ghost var script := transport.script;
      AfterIs(addr, State(), REG_READ, RegPayload(SEGMENT_SIZE_REG, 100));
      var size := ReadSegmentSize();
      ghost var link := State();
      if size.None? || !ValidSegmentSize(size.value) {
        return None;
      }
      var segSize := size.value;
      var segCount := SegmentCount(totalBytes, segSize);
      var aggregated := new byte[totalBytes](_ => 0);
      assert aggregated[..] == Zeros(totalBytes);
      ghost var whole := Collect(addr, State(), segSize, 0, 0, aggregated[..]);
      FirstSlot(segSize);
      var i := 0;
      while i < segCount
        invariant 0 <= i <= segCount && i <= SlotOffset(i, segSize)
        invariant Collect(addr, State(), segSize, i, SlotOffset(i, segSize), aggregated[..]) == whole
      {
        CountBounds(i, segSize, totalBytes);
        CollectStep(addr, State(), segSize, i, aggregated[..]);
        var data := FetchSegment(i);
        if data.None? {
          return None;
        }
        var offset := SlotOffset(i, segSize);
        CopySegment(aggregated, offset, data.value);
        i := i + 1;
      }
      CountBounds(i, segSize, totalBytes);
      CollectStep(addr, State(), segSize, i, aggregated[..]);
      r := Some(Aggregate(segCount, totalBytes, aggregated[..]));
      forall scan: seq<byte> | IsScan(scan, totalBytes, script)
        ensures r.value.data == scan
      {
        ScanCollected(link, segSize, totalBytes, scan, script);
      }
    }
  }

  datatype Aggregate = Aggregate(segmentCount: nat, byteCount: nat, data: seq<byte>)

  /** One round of the collection: nothing past the end, or segment i and the rest. */
  lemma CollectStep(addr: byte, link: Link, segSize: nat, i: nat, image: seq<byte>)
    requires segSize > 0 && i <= SlotOffset(i, segSize) && |image| < 0x8000_0000
    ensures var c, at := Collect(addr, link, segSize, i, SlotOffset(i, segSize), image), SlotOffset(i, segSize);
            if at >= |image| then c == Collected(Some(image), link)
            else
              var f := Fetch(addr, link, i, ATTEMPTS);
              && i + 1 <= SlotOffset(i + 1, segSize)
              && c == if f.data.None? then Collected(None, f.link)
                      else Collect(addr, f.link, segSize, i + 1, SlotOffset(i + 1, segSize), Overlay(image, at, f.data.value))
  {
    hide Fetch, Overlay, SlotOffset;
    StepFits(i, segSize);
    StepFits(i + 1, segSize);
  }

  lemma FirstSlot(segSize: nat)
    ensures SlotOffset(0, segSize) == 0
  {
  }

  lemma AfterIs(addr: byte, link: Link, command: byte, payload: seq<byte>)
    ensures After(addr, link, command, payload)
         == Link(Later(link.script), link.counter + 1,
                 link.sent + [EncodeFrame(link.counter, addr, command, payload, false)])
  {
  }

  lemma ConclusiveIs(addr: byte, x: Exchange, counter: byte, command: byte)
    ensures Conclusive(addr, x, counter, command) ==
      match FrameReply(addr, QUERY, Main, x)
      case Failed(_) => None
      case Received(frame) =>
        var r := ParseQuery(frame.payload);
        if r.None? || r.value.lastCounter != counter || r.value.lastCommand != command || r.value.resultCode == STILL_RUNNING
        then None else r
  {
  }

  lemma SegmentReplyIs(addr: byte, x: Exchange, i: u32)
    ensures SegmentReply(addr, x, i) ==
      match FrameReply(addr, GET_DATA, Main, x)
      case Failed(_) => None
      case Received(frame) =>
        var s := ParseSegment(frame.payload);
        if s.None? || s.value.index != i then None else Some(s.value.data)
  {
  }
}

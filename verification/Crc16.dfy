/**
 The CRC-16 of the three Modbus RTU drivers: section 6.2.2 of MODBUS over Serial Line V1.02. A byte is
 added to the low half of the register, which then shifts right eight times.
 */
module Crc16 {
  import opened Bytes

  const INIT: bv16 := 0xFFFF

  function Xor16(x: bv16, y: bv16): bv16 {
    x ^ y
  }

  function Shift(c: bv16): bv16 {
    c >> 1
  }

  predicate Low(c: bv16) {
    c & 1 != 0
  }

  function Feedback(low: bool): bv16 {
    if low then 0xA001 else 0
  }

  function BitStep(c: bv16): bv16 {
    Xor16(Shift(c), Feedback(Low(c)))
  }

  function BitSteps(c: bv16, n: nat): bv16
    decreases n
  {
    if n == 0 then c else BitSteps(BitStep(c), n - 1)
  }

  function Widen(b: byte): bv16 {
    b as bv16
  }

  function ByteStep(b: byte, crc: bv16): bv16 {
    BitSteps(Xor16(crc, Widen(b)), 8)
  }

  function Fold(crc: bv16, data: seq<byte>): bv16
    decreases data
  {
    if data == [] then crc else Fold(ByteStep(data[0], crc), data[1..])
  }

  function Crc(data: seq<byte>): bv16 {
    Fold(INIT, data)
  }

  // ----- the register is linear and loses nothing

  lemma XorCommutes(a: bv16, b: bv16)
    ensures Xor16(a, b) == Xor16(b, a)
  {
  }

  lemma XorAssociates(a: bv16, b: bv16, c: bv16)
    ensures Xor16(Xor16(a, b), c) == Xor16(a, Xor16(b, c))
  {
  }

  lemma XorSwap(a: bv16, b: bv16, p: bv16, q: bv16)
    ensures Xor16(Xor16(a, b), Xor16(p, q)) == Xor16(Xor16(a, p), Xor16(b, q))
  {
    hide *;
    XorAssociates(a, b, Xor16(p, q));
    XorAssociates(b, p, q);
    XorCommutes(b, p);
    XorAssociates(p, b, q);
    XorAssociates(a, p, Xor16(b, q));
  }

  lemma XorSelf(x: bv16)
    ensures Xor16(x, x) == 0 && Xor16(x, 0) == x
  {
  }

  lemma XorZero(x: bv16, y: bv16)
    ensures Xor16(x, y) == 0 <==> x == y
  {
    hide *;
    XorSelf(x);
    XorSelf(y);
    XorAssociates(x, y, y);
    XorCommutes(0, y);
  }

  lemma XorCancels(x: bv16, y: bv16, p: bv16)
    requires Xor16(x, p) == Xor16(y, p) || Xor16(p, x) == Xor16(p, y)
    ensures x == y
  {
    hide *;
    XorCommutes(p, x);
    XorCommutes(p, y);
    XorSwap(x, p, y, p);
    XorZero(Xor16(x, p), Xor16(y, p));
    XorSelf(p);
    XorSelf(Xor16(x, y));
    XorZero(x, y);
  }

  lemma StepParts(x: bv16, y: bv16)
    ensures Shift(Xor16(x, y)) == Xor16(Shift(x), Shift(y))
    ensures Low(Xor16(x, y)) == (Low(x) != Low(y))
  {
  }

  lemma FeedbackXor(p: bool, q: bool)
    ensures Feedback(p != q) == Xor16(Feedback(p), Feedback(q))
  {
  }

  lemma BitStepXor(x: bv16, y: bv16)
    ensures BitStep(Xor16(x, y)) == Xor16(BitStep(x), BitStep(y))
  {
    hide Xor16, Shift, Feedback, Low;
    StepParts(x, y);
    FeedbackXor(Low(x), Low(y));
    XorSwap(Shift(x), Shift(y), Feedback(Low(x)), Feedback(Low(y)));
  }

  lemma {:induction false} BitStepsXor(x: bv16, y: bv16, n: nat)
    ensures BitSteps(Xor16(x, y), n) == Xor16(BitSteps(x, n), BitSteps(y, n))
    decreases n
  {
    hide BitStep, Xor16;
    if n > 0 {
      BitStepXor(x, y);
      BitStepsXor(BitStep(x), BitStep(y), n - 1);
    }
  }

  lemma BitStepZero(x: bv16)
    ensures BitStep(x) == 0 <==> x == 0
  {
  }

  lemma {:induction false} BitStepsInjective(x: bv16, y: bv16, n: nat)
    requires BitSteps(x, n) == BitSteps(y, n)
    ensures x == y
    decreases n
  {
    hide BitStep, Xor16;
    if n > 0 {
      BitStepsInjective(BitStep(x), BitStep(y), n - 1);
      BitStepXor(x, y);
      XorZero(BitStep(x), BitStep(y));
      BitStepZero(Xor16(x, y));
      XorZero(x, y);
    }
  }

  // ----- the table holds eight shifts per entry

  /** Eight consecutive entries of the lookup table. */
  datatype Row = Row(e0: bv16, e1: bv16, e2: bv16, e3: bv16, e4: bv16, e5: bv16, e6: bv16, e7: bv16)
  {
    function At(c: bv8): bv16
      requires c < 8
    {
      match c
      case 0 => e0
      case 1 => e1
      case 2 => e2
      case 3 => e3
      case 4 => e4
      case 5 => e5
      case 6 => e6
      case _ => e7
    }
  }

  /** Row r of the 256-entry table: entries 8r to 8r + 7. */
  function TableRow(r: bv8): Row {
    match r
    case 0 => Row(0x0000, 0xC0C1, 0xC181, 0x0140, 0xC301, 0x03C0, 0x0280, 0xC241)
    case 1 => Row(0xC601, 0x06C0, 0x0780, 0xC741, 0x0500, 0xC5C1, 0xC481, 0x0440)
    case 2 => Row(0xCC01, 0x0CC0, 0x0D80, 0xCD41, 0x0F00, 0xCFC1, 0xCE81, 0x0E40)
    case 3 => Row(0x0A00, 0xCAC1, 0xCB81, 0x0B40, 0xC901, 0x09C0, 0x0880, 0xC841)
    case 4 => Row(0xD801, 0x18C0, 0x1980, 0xD941, 0x1B00, 0xDBC1, 0xDA81, 0x1A40)
    case 5 => Row(0x1E00, 0xDEC1, 0xDF81, 0x1F40, 0xDD01, 0x1DC0, 0x1C80, 0xDC41)
    case 6 => Row(0x1400, 0xD4C1, 0xD581, 0x1540, 0xD701, 0x17C0, 0x1680, 0xD641)
    case 7 => Row(0xD201, 0x12C0, 0x1380, 0xD341, 0x1100, 0xD1C1, 0xD081, 0x1040)
    case 8 => Row(0xF001, 0x30C0, 0x3180, 0xF141, 0x3300, 0xF3C1, 0xF281, 0x3240)
    case 9 => Row(0x3600, 0xF6C1, 0xF781, 0x3740, 0xF501, 0x35C0, 0x3480, 0xF441)
    case 10 => Row(0x3C00, 0xFCC1, 0xFD81, 0x3D40, 0xFF01, 0x3FC0, 0x3E80, 0xFE41)
    case 11 => Row(0xFA01, 0x3AC0, 0x3B80, 0xFB41, 0x3900, 0xF9C1, 0xF881, 0x3840)
    case 12 => Row(0x2800, 0xE8C1, 0xE981, 0x2940, 0xEB01, 0x2BC0, 0x2A80, 0xEA41)
    case 13 => Row(0xEE01, 0x2EC0, 0x2F80, 0xEF41, 0x2D00, 0xEDC1, 0xEC81, 0x2C40)
    case 14 => Row(0xE401, 0x24C0, 0x2580, 0xE541, 0x2700, 0xE7C1, 0xE681, 0x2640)
    case 15 => Row(0x2200, 0xE2C1, 0xE381, 0x2340, 0xE101, 0x21C0, 0x2080, 0xE041)
    case 16 => Row(0xA001, 0x60C0, 0x6180, 0xA141, 0x6300, 0xA3C1, 0xA281, 0x6240)
    case 17 => Row(0x6600, 0xA6C1, 0xA781, 0x6740, 0xA501, 0x65C0, 0x6480, 0xA441)
    case 18 => Row(0x6C00, 0xACC1, 0xAD81, 0x6D40, 0xAF01, 0x6FC0, 0x6E80, 0xAE41)
    case 19 => Row(0xAA01, 0x6AC0, 0x6B80, 0xAB41, 0x6900, 0xA9C1, 0xA881, 0x6840)
    case 20 => Row(0x7800, 0xB8C1, 0xB981, 0x7940, 0xBB01, 0x7BC0, 0x7A80, 0xBA41)
    case 21 => Row(0xBE01, 0x7EC0, 0x7F80, 0xBF41, 0x7D00, 0xBDC1, 0xBC81, 0x7C40)
    case 22 => Row(0xB401, 0x74C0, 0x7580, 0xB541, 0x7700, 0xB7C1, 0xB681, 0x7640)
    case 23 => Row(0x7200, 0xB2C1, 0xB381, 0x7340, 0xB101, 0x71C0, 0x7080, 0xB041)
    case 24 => Row(0x5000, 0x90C1, 0x9181, 0x5140, 0x9301, 0x53C0, 0x5280, 0x9241)
    case 25 => Row(0x9601, 0x56C0, 0x5780, 0x9741, 0x5500, 0x95C1, 0x9481, 0x5440)
    case 26 => Row(0x9C01, 0x5CC0, 0x5D80, 0x9D41, 0x5F00, 0x9FC1, 0x9E81, 0x5E40)
    case 27 => Row(0x5A00, 0x9AC1, 0x9B81, 0x5B40, 0x9901, 0x59C0, 0x5880, 0x9841)
    case 28 => Row(0x8801, 0x48C0, 0x4980, 0x8941, 0x4B00, 0x8BC1, 0x8A81, 0x4A40)
    case 29 => Row(0x4E00, 0x8EC1, 0x8F81, 0x4F40, 0x8D01, 0x4DC0, 0x4C80, 0x8C41)
    case 30 => Row(0x4400, 0x84C1, 0x8581, 0x4540, 0x8701, 0x47C0, 0x4680, 0x8641)
    case _ => Row(0x8201, 0x42C0, 0x4380, 0x8341, 0x4100, 0x81C1, 0x8081, 0x4040)
  }

  function Table(i: bv8): bv16 {
    TableRow(i >> 3).At(i & 7)
  }

  function TableIndex(b: byte, crc: bv16): bv8 {
    ((crc ^ (b as bv16)) & 0xFF) as bv8
  }

  function TableStep(b: byte, crc: bv16): bv16 {
    Xor16(crc >> 8, Table(TableIndex(b, crc)))
  }

  predicate RowLinear(r: bv8) {
    var head, first, row := TableRow(r).e0, TableRow(0), TableRow(r);
    row == Row(Xor16(head, first.e0), Xor16(head, first.e1), Xor16(head, first.e2), Xor16(head, first.e3),
               Xor16(head, first.e4), Xor16(head, first.e5), Xor16(head, first.e6), Xor16(head, first.e7))
  }

  lemma RowsLinear(r: bv8)
    requires r < 32
    ensures RowLinear(r)
  {
    match r
    case 0 => case 1 => case 2 => case 3 => case 4 => case 5 => case 6 => case 7 =>
    case 8 => case 9 => case 10 => case 11 => case 12 => case 13 => case 14 => case 15 =>
    case 16 => case 17 => case 18 => case 19 => case 20 => case 21 => case 22 => case 23 =>
    case 24 => case 25 => case 26 => case 27 => case 28 => case 29 => case 30 => case _ =>
  }

  lemma HeadsLinear(r: bv8)
    requires r < 32
    ensures TableRow(r).e0 == Xor16(TableRow(r & 0x18).e0, TableRow(r & 7).e0)
  {
    match r
    case 0 => case 1 => case 2 => case 3 => case 4 => case 5 => case 6 => case 7 =>
    case 8 => case 9 => case 10 => case 11 => case 12 => case 13 => case 14 => case 15 =>
    case 16 => case 17 => case 18 => case 19 => case 20 => case 21 => case 22 => case 23 =>
    case 24 => case 25 => case 26 => case 27 => case 28 => case 29 => case 30 => case _ =>
  }

  lemma FirstRow(c: bv8)
    requires c < 8
    ensures TableRow(0).At(c) == BitSteps(Widen(c), 8)
  {
  }

  lemma LowHeads(r: bv8)
    requires r < 8
    ensures TableRow(r).e0 == BitSteps(Widen(r << 3), 8)
  {
  }

  lemma HighHeads(r: bv8)
    requires r == 8 || r == 16 || r == 24
    ensures TableRow(r).e0 == BitSteps(Widen(r << 3), 8)
  {
  }

  lemma IndexParts(i: bv8)
    ensures Widen(i) == Xor16(Widen((i >> 3) << 3), Widen(i & 7))
    ensures Widen(i << 3) == Xor16(Widen((i & 0x18) << 3), Widen((i & 7) << 3))
    ensures i >> 3 < 32 && i & 7 < 8
    ensures i < 32 ==> (i & 0x18 == 0 || i & 0x18 == 8 || i & 0x18 == 16 || i & 0x18 == 24)
  {
  }

  lemma Heads(r: bv8)
    requires r < 32
    ensures TableRow(r).e0 == BitSteps(Widen(r << 3), 8)
  {
    hide TableRow, BitSteps, Widen, Xor16;
    IndexParts(r);
    HeadsLinear(r);
    LowHeads(r & 7);
    if r & 0x18 == 0 {
      LowHeads(0);
    } else {
      HighHeads(r & 0x18);
    }
    BitStepsXor(Widen((r & 0x18) << 3), Widen((r & 7) << 3), 8);
  }

  lemma EntryXor(r: bv8, c: bv8)
    requires r < 32 && c < 8
    ensures TableRow(r).At(c) == Xor16(TableRow(r).e0, TableRow(0).At(c))
  {
    hide TableRow, Xor16;
    RowsLinear(r);
  }

  /** Every table entry is its index after eight shifts. */
  lemma TableEntry(i: bv8)
    ensures Table(i) == BitSteps(Widen(i), 8)
  {
    hide TableRow, BitSteps, Widen, Xor16, Row.At;
    IndexParts(i);
    EntryXor(i >> 3, i & 7);
    Heads(i >> 3);
    FirstRow(i & 7);
    BitStepsXor(Widen((i >> 3) << 3), Widen(i & 7), 8);
  }

  function HighPart(crc: bv16): bv16 {
    crc & 0xFF00
  }

  lemma IndexAndHighPart(b: byte, crc: bv16)
    ensures Xor16(crc, Widen(b)) == Xor16(HighPart(crc), Widen(TableIndex(b, crc)))
  {
    Halves(Xor16(crc, Widen(b)));
    HighPartUntouched(b, crc);
    hide Xor16, HighPart, Widen;
  }

  lemma Halves(x: bv16)
    ensures x == Xor16(HighPart(x), Widen((x & 0xFF) as bv8))
  {
  }

  lemma HighPartUntouched(b: byte, crc: bv16)
    ensures HighPart(Xor16(crc, Widen(b))) == HighPart(crc)
    ensures TableIndex(b, crc) == (Xor16(crc, Widen(b)) & 0xFF) as bv8
  {
  }

  lemma HighPartShifts(crc: bv16)
    ensures BitSteps(HighPart(crc), 8) == crc >> 8
  {
  }

  lemma TableStepIsByteStep(b: byte, crc: bv16)
    ensures TableStep(b, crc) == ByteStep(b, crc)
  {
    hide Xor16, Widen, TableIndex, Table, BitSteps, HighPart;
    IndexAndHighPart(b, crc);
    HighPartShifts(crc);
    TableEntry(TableIndex(b, crc));
    BitStepsXor(HighPart(crc), Widen(TableIndex(b, crc)), 8);
  }

  /** calculateCRC16: one table lookup per byte. */
  method CalculateCrc16(data: seq<byte>) returns (crc: bv16)
    ensures crc == Crc(data)
  {
    hide ByteStep, TableStep;
    crc := INIT;
    var i := 0;
    assert data[0..] == data;
    while i < |data|
      invariant 0 <= i <= |data|
      invariant Fold(crc, data[i..]) == Crc(data)
    {
      assert data[i..][1..] == data[i + 1..];
      TableStepIsByteStep(data[i], crc);
      crc := TableStep(data[i], crc);
      i := i + 1;
    }
  }

  // ----- two bytes at a time

  lemma {:induction false} FoldAppend(crc: bv16, a: seq<byte>, b: seq<byte>)
    ensures Fold(crc, a + b) == Fold(Fold(crc, a), b)
    decreases a
  {
    hide ByteStep;
    if a == [] {
      assert a + b == b;
    } else {
      assert (a + b)[1..] == a[1..] + b;
      FoldAppend(ByteStep(a[0], crc), a[1..], b);
    }
  }

  lemma {:induction false} FoldInjective(x: bv16, y: bv16, data: seq<byte>)
    requires Fold(x, data) == Fold(y, data)
    ensures x == y
    decreases data
  {
    hide Xor16, BitSteps;
    if data != [] {
      FoldInjective(ByteStep(data[0], x), ByteStep(data[0], y), data[1..]);
      BitStepsInjective(Xor16(x, Widen(data[0])), Xor16(y, Widen(data[0])), 8);
      XorCancels(x, y, Widen(data[0]));
    }
  }

  function Pair(lo: byte, hi: byte): bv16 {
    (lo as bv16) | ((hi as bv16) << 8)
  }

  function LowByte(v: bv16): byte {
    (v & 0xFF) as byte
  }

  function HighByte(v: bv16): byte {
    ((v >> 8) & 0xFF) as byte
  }

  lemma PairParts(lo: byte, hi: byte)
    ensures Pair(lo, hi) == Xor16(Widen(lo), HighPart(Pair(lo, hi)))
    ensures Pair(lo, hi) >> 8 == Widen(hi)
    ensures LowByte(Pair(lo, hi)) == lo && HighByte(Pair(lo, hi)) == hi
  {
  }

  lemma PairOf(c: bv16)
    ensures Pair(LowByte(c), HighByte(c)) == c
  {
  }

  lemma {:induction false} BitStepsCompose(c: bv16, m: nat, n: nat)
    ensures BitSteps(c, m + n) == BitSteps(BitSteps(c, m), n)
    decreases m
  {
    hide BitStep;
    if m > 0 {
      BitStepsCompose(BitStep(c), m - 1, n);
    }
  }

  /** Two bytes are one little-endian 16-bit step. */
  lemma PairStep(crc: bv16, lo: byte, hi: byte)
    ensures Fold(crc, [lo, hi]) == BitSteps(Xor16(crc, Pair(lo, hi)), 16)
  {
    hide Xor16, Widen, HighPart, BitSteps, Pair;
    var high := HighPart(Pair(lo, hi));
    PairParts(lo, hi);
    XorAssociates(crc, Widen(lo), high);
    BitStepsCompose(Xor16(crc, Pair(lo, hi)), 8, 8);
    BitStepsXor(Xor16(crc, Widen(lo)), high, 8);
    HighPartShifts(Pair(lo, hi));
    FoldTwo(crc, lo, hi);
  }

  lemma FoldTwo(crc: bv16, lo: byte, hi: byte)
    ensures Fold(crc, [lo, hi]) == ByteStep(hi, ByteStep(lo, crc))
  {
    hide ByteStep;
    assert [lo, hi][1..] == [hi];
    assert [hi][1..] == [];
    assert Fold(ByteStep(lo, crc), [hi]) == Fold(ByteStep(hi, ByteStep(lo, crc)), []);
  }

  lemma {:induction false} ZeroStays(n: nat)
    ensures BitSteps(0, n) == 0
    decreases n
  {
    hide BitStep;
    BitStepZero(0);
    if n > 0 {
      ZeroStays(n - 1);
    }
  }

  /** The register becomes 0 exactly if the two bytes are its own value, low byte first. */
  lemma ResiduePair(crc: bv16, lo: byte, hi: byte)
    ensures Fold(crc, [lo, hi]) == 0 <==> crc == Pair(lo, hi)
  {
    hide Xor16, BitSteps, Fold, Pair;
    var x := Xor16(crc, Pair(lo, hi));
    PairStep(crc, lo, hi);
    ZeroStays(16);
    XorZero(crc, Pair(lo, hi));
    if BitSteps(x, 16) == 0 {
      BitStepsInjective(x, 0, 16);
    }
  }

  lemma PairDetected(crc: bv16, a: seq<byte>, b: seq<byte>)
    requires |a| == |b| == 2 && Fold(crc, a) == Fold(crc, b)
    ensures a == b
  {
    hide Xor16, BitSteps, Fold, Pair;
    assert a == [a[0], a[1]] && b == [b[0], b[1]];
    PairStep(crc, a[0], a[1]);
    PairStep(crc, b[0], b[1]);
    BitStepsInjective(Xor16(crc, Pair(a[0], a[1])), Xor16(crc, Pair(b[0], b[1])), 16);
    XorCancels(Pair(a[0], a[1]), Pair(b[0], b[1]), crc);
    PairParts(a[0], a[1]);
    PairParts(b[0], b[1]);
  }

  // ----- frames

  /** verifyCRC: the last two bytes are the CRC of the rest, low byte first. */
  predicate VerifyCrc(frame: seq<byte>) {
    |frame| >= 4 && Crc(frame[..|frame| - 2]) == Pair(frame[|frame| - 2], frame[|frame| - 1])
  }

  /** buildRequest: unit, function code, PDU, CRC low byte first. */
  function BuildRequest(unit: byte, fc: byte, pdu: seq<byte>): seq<byte> {
    var request := [unit, fc] + pdu;
    var crc := Crc(request);
    request + [LowByte(crc), HighByte(crc)]
  }

  /** A frame of at least four bytes verifies exactly if the CRC of the whole frame is 0. */
  lemma VerifyIffResidueZero(frame: seq<byte>)
    ensures VerifyCrc(frame) <==> |frame| >= 4 && Crc(frame) == 0
  {
    hide Fold, Pair;
    if |frame| >= 4 {
      var n := |frame| - 2;
      assert frame == frame[..n] + [frame[n], frame[n + 1]];
      FoldAppend(INIT, frame[..n], [frame[n], frame[n + 1]]);
      ResiduePair(Crc(frame[..n]), frame[n], frame[n + 1]);
    }
  }

  lemma RequestVerifies(unit: byte, fc: byte, pdu: seq<byte>)
    ensures VerifyCrc(BuildRequest(unit, fc, pdu))
  {
    hide Fold, Pair;
    var frame := BuildRequest(unit, fc, pdu);
    assert frame[..|frame| - 2] == [unit, fc] + pdu;
    PairOf(Crc([unit, fc] + pdu));
  }

  /** Two frames of one length that differ only in two adjacent bytes cannot both verify. */
  lemma AdjacentPairDetected(f: seq<byte>, g: seq<byte>, at: nat)
    requires |f| == |g| && at + 2 <= |f| && f != g
    requires f[..at] == g[..at] && f[at + 2..] == g[at + 2..]
    ensures !(VerifyCrc(f) && VerifyCrc(g))
  {
    hide Fold, VerifyCrc;
    VerifyIffResidueZero(f);
    VerifyIffResidueZero(g);
    Split(f, at);
    Split(g, at);
    var crc := Fold(INIT, f[..at]);
    var u, v := f[at..at + 2], g[at..at + 2];
    assert f == f[..at] + u + f[at + 2..] && g == g[..at] + v + g[at + 2..];
    if Crc(f) == Crc(g) {
      FoldInjective(Fold(crc, u), Fold(crc, v), f[at + 2..]);
      PairDetected(crc, u, v);
    }
  }

  lemma Split(f: seq<byte>, at: nat)
    requires at + 2 <= |f|
    ensures Crc(f) == Fold(Fold(Fold(INIT, f[..at]), f[at..at + 2]), f[at + 2..])
  {
    hide Fold;
    assert f == f[..at] + (f[at..at + 2] + f[at + 2..]);
    FoldAppend(INIT, f[..at], f[at..at + 2] + f[at + 2..]);
    FoldAppend(Fold(INIT, f[..at]), f[at..at + 2], f[at + 2..]);
  }

  /** No bytes at all leave the initial register; two bytes are the example of the standard. */
  lemma KnownValues()
    ensures Crc([]) == 0xFFFF && Crc([0x02, 0x07]) == 0x1241
  {
    hide ByteStep;
    TableStepIsByteStep(0x02, 0xFFFF);
    assert TableStep(0x02, 0xFFFF) == 0x813E;
    TableStepIsByteStep(0x07, 0x813E);
    assert TableStep(0x07, 0x813E) == 0x1241;
    assert [0x02 as byte, 0x07][1..] == [0x07] && [0x07 as byte][1..] == [];
  }
}

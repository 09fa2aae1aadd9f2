/**
 Data of Modbus requests and responses: coils packed eight to a byte (sections 6.1 and 6.11 of MODBUS
 Application Protocol V1.1b3), registers, and the four byte orders of 32- and 64-bit values.
 */
module ModbusData {
  import opened Wrappers
  import opened Bytes
  import opened Crc16

  // ----- coils

  /** 1 << k */
  function Mask(k: nat): byte
    requires k < 8
  {
    match k
    case 0 => 0x01
    case 1 => 0x02
    case 2 => 0x04
    case 3 => 0x08
    case 4 => 0x10
    case 5 => 0x20
    case 6 => 0x40
    case _ => 0x80
  }

  predicate Bit(b: byte, k: nat)
    requires k < 8
  {
    b & Mask(k) != 0
  }

  /** Testing with the mask is shifting and testing the last bit. */
  lemma BitIsShifted(b: byte, k: nat)
    requires k < 8
    ensures Bit(b, k) <==> (b >> k) & 1 == 1
  {
    match k case 0 => case 1 => case 2 => case 3 => case 4 => case 5 => case 6 => case _ =>
  }

  lemma SetBit(b: byte, k: nat, j: nat)
    requires k < 8 && j < 8
    ensures Bit(b | Mask(k), j) <==> Bit(b, j) || j == k
  {
    match k case 0 => case 1 => case 2 => case 3 => case 4 => case 5 => case 6 => case _ =>
  }

  lemma BitsDetermine(a: byte, b: byte)
    requires forall k: nat :: k < 8 ==> Bit(a, k) == Bit(b, k)
    ensures a == b
  {
    assert Bit(a, 0) == Bit(b, 0) && Bit(a, 1) == Bit(b, 1) && Bit(a, 2) == Bit(b, 2) && Bit(a, 3) == Bit(b, 3);
    assert Bit(a, 4) == Bit(b, 4) && Bit(a, 5) == Bit(b, 5) && Bit(a, 6) == Bit(b, 6) && Bit(a, 7) == Bit(b, 7);
  }

  /** Bit i of the data, counted from the low bit of the first byte. */
  predicate BitAt(data: seq<byte>, i: nat)
    requires i < 8 * |data|
  {
    Bit(data[i / 8], i % 8)
  }

  /** The least number of bytes that holds the coils. */
  function PackedSize(count: nat): (n: nat)
    ensures 8 * n >= count && (n > 0 ==> 8 * (n - 1) < count)
  {
    (count + 7) / 8
  }

  /** The data holds exactly these coils; the padding bits are 0. */
  ghost predicate Packs(data: seq<byte>, values: seq<bool>) {
    && |data| == PackedSize(|values|)
    && forall i: nat :: i < 8 * |data| ==> (BitAt(data, i) <==> i < |values| && values[i])
  }

  /** The coil loop of writeMultipleCoils. */
  method PackCoils(values: seq<bool>) returns (coilData: array<byte>)
    ensures fresh(coilData) && Packs(coilData[..], values)
  {
    hide Bit, Mask, BitAt;
    coilData := new byte[PackedSize(|values|)](_ => 0);
    ZeroBits(coilData[..]);
    var i := 0;
    while i < |values|
      invariant 0 <= i <= |values|
      invariant forall j: nat :: j < 8 * coilData.Length ==> (BitAt(coilData[..], j) <==> j < i && values[j])
    {
      if values[i] {
        ghost var before := coilData[..];
        coilData[i / 8] := coilData[i / 8] | Mask(i % 8);
        OneBitSet(before, coilData[..], i);
      }
      i := i + 1;
    }
  }

  lemma ZeroBits(data: seq<byte>)
    requires forall i :: 0 <= i < |data| ==> data[i] == 0
    ensures forall j: nat :: j < 8 * |data| ==> !BitAt(data, j)
  {
  }

  lemma OneBitSet(before: seq<byte>, after: seq<byte>, i: nat)
    requires i < 8 * |before| && after == before[i / 8 := before[i / 8] | Mask(i % 8)]
    ensures forall j: nat :: j < 8 * |after| ==> (BitAt(after, j) <==> BitAt(before, j) || j == i)
  {
    hide Bit, Mask;
    forall j: nat | j < 8 * |after|
      ensures BitAt(after, j) <==> BitAt(before, j) || j == i
    {
      if j / 8 == i / 8 {
        SetBit(before[i / 8], i % 8, j % 8);
      }
    }
  }

  /** Packed data is canonical: the coils determine every byte. */
  lemma PackingUnique(a: seq<byte>, b: seq<byte>, values: seq<bool>)
    requires Packs(a, values) && Packs(b, values)
    ensures a == b
  {
    hide Bit, Mask;
    forall m | 0 <= m < |a|
      ensures a[m] == b[m]
    {
      forall k: nat | k < 8
        ensures Bit(a[m], k) == Bit(b[m], k)
      {
        assert (8 * m + k) / 8 == m && (8 * m + k) % 8 == k;
        assert BitAt(a, 8 * m + k) == BitAt(b, 8 * m + k);
      }
      BitsDetermine(a[m], b[m]);
    }
  }

  /** `PastEnd`: the code indexes the response beyond its last byte. */
  datatype ReadBits = Refused | PastEnd | Coils(values: seq<bool>)

  /** The checks before the bit loop: the size, and the byte count against the size. */
  predicate Accepted(response: seq<byte>) {
    |response| >= 6 && |response| >= 5 + IntOf(response[2])
  }

  /**
   parseReadBitsResponse. The caller's count is trusted: it is compared neither with the byte count of
   the response nor with its size.
   */
  method ParseReadBits(response: seq<byte>, count: u16) returns (r: ReadBits)
    ensures r.Refused? <==> !Accepted(response)
    ensures r.PastEnd? <==> Accepted(response) && 3 + PackedSize(count) > |response|
    ensures r.Coils? ==> |r.values| == count && forall i :: 0 <= i < count ==> r.values[i] == BitAt(response[3..], i)
  {
    hide Bit, Mask, Bytes.IntOf;
    if |response| < 6 || |response| < 3 + IntOf(response[2]) + 2 {
      return Refused;
    }
    var read: seq<bool> := [];
    var i := 0;
    while i < count
      invariant 0 <= i <= count && |read| == i && (i > 0 ==> 3 + (i - 1) / 8 < |response|)
      invariant forall j :: 0 <= j < i ==> read[j] == BitAt(response[3..], j)
    {
      var byteIndex, bitIndex := i / 8, i % 8;
      if 3 + byteIndex >= |response| {
        return PastEnd;
      }
      BitIsShifted(response[3 + byteIndex], bitIndex);
      read := read + [(response[3 + byteIndex] >> bitIndex) & 1 == 1];
      i := i + 1;
    }
    r := Coils(read);
  }

  /** The coils of a response, as far as the loop finds bytes for them. */
  function CoilsOf(response: seq<byte>, count: nat): seq<bool>
    requires 3 + PackedSize(count) <= |response|
  {
    seq(count, i requires 0 <= i < count => BitAt(response[3..], i))
  }

  /** Two responses of one size with the same header and data, as the byte count delimits them. */
  ghost predicate SameData(a: seq<byte>, b: seq<byte>) {
    Accepted(a) && |b| == |a| && b[..3 + IntOf(a[2])] == a[..3 + IntOf(a[2])]
  }

  /**
   The coils of an accepted response are those of its data, whatever bytes follow the data, exactly if
   no more are asked for than the byte count promises.
   */
  lemma CoilsFromDataIff(response: seq<byte>, count: u16)
    requires Accepted(response) && 3 + PackedSize(count) <= |response|
    ensures count <= 8 * IntOf(response[2]) <==>
      forall other :: SameData(response, other) ==> CoilsOf(other, count) == CoilsOf(response, count)
  {
    hide Bit, Mask, Bytes.IntOf;
    var n := IntOf(response[2]);
    if count <= 8 * n {
      forall other, i | SameData(response, other) && 0 <= i < count
        ensures BitAt(other[3..], i) == BitAt(response[3..], i)
      {
        assert response[..3 + n][3 + i / 8] == other[..3 + n][3 + i / 8];
      }
    } else {
      var b := response[3 + n];
      var c := Flipped(b);
      var other := response[3 + n := c];
      assert other[..3 + n] == response[..3 + n];
      assert 8 * n / 8 == n && 8 * n % 8 == 0;
      assert BitAt(other[3..], 8 * n) != BitAt(response[3..], 8 * n);
      assert CoilsOf(other, count)[8 * n] != CoilsOf(response, count)[8 * n];
    }
  }

  /** A byte that differs in bit 0. */
  lemma Flipped(b: byte) returns (c: byte)
    ensures Bit(c, 0) != Bit(b, 0)
  {
    c := b ^ 0x01;
  }

  /**
   Asking for 25 coils when the device sends one data byte: the response verifies and is accepted, and
   the loop reads past its end.
   */
  method ShortReplyIsOverrun(unit: byte, data: byte) returns (response: seq<byte>, r: ReadBits)
    ensures |response| == 6 && VerifyCrc(response) && response[0] == unit && response[2] == 1 && response[3] == data
    ensures r == PastEnd
  {
    hide Crc16.Fold, VerifyCrc;
    response := BuildRequest(unit, 0x01, [1, data]);
    RequestVerifies(unit, 0x01, [1, data]);
    r := ParseReadBits(response, 25);
  }

  /** Of a reply with at least one byte of data only the whole frame is accepted, and no shorter start of it. */
  lemma OnlyWholeRepliesAccepted(unit: byte, fc: byte, data: seq<byte>, n: nat)
    requires 0 < |data| < 0x100
    ensures var frame := BuildRequest(unit, fc, [ByteOf(|data|)] + data);
            n <= |frame| ==> (Accepted(frame[..n]) <==> n == 5 + |data|)
  {
    hide Crc16.Crc, LowByte, HighByte, Bytes.ByteOf, Bytes.IntOf;
    var frame := BuildRequest(unit, fc, [ByteOf(|data|)] + data);
    IntOfByteOf(|data|);
    assert |frame| == 5 + |data| && frame[2] == ByteOf(|data|);
  }

  /** A response that carries packed coils, with or without anything after them, reads back as those coils. */
  lemma CoilsReadBack(values: seq<bool>, response: seq<byte>, data: seq<byte>, coils: seq<bool>)
    requires Packs(data, values) && 3 + |data| <= |response| && response[3..3 + |data|] == data
    requires |coils| == |values| && forall i :: 0 <= i < |coils| ==> coils[i] == BitAt(response[3..], i)
    ensures coils == values
  {
    hide Bit, Mask;
    forall i | 0 <= i < |coils|
      ensures coils[i] == values[i]
    {
      assert response[3..][i / 8] == response[3..3 + |data|][i / 8];
      assert BitAt(data, i) == values[i];
    }
  }

  /** Packing coils into a reply and parsing the reply returns the coils. */
  method CoilRoundTrip(unit: byte, fc: byte, values: seq<bool>) returns (r: ReadBits)
    requires 0 < |values| <= 2040
    ensures r == Coils(values)
  {
    hide Bit, Mask, Crc16.Fold, Packs;
    var packed := PackCoils(values);
    var data := packed[..];
    PackedLength(data, values);
    var response := BuildRequest(unit, fc, [ByteOf(|data|)] + data);
    IntOfByteOf(|data|);
    assert response[2] == ByteOf(|data|) && response[3..3 + |data|] == data;
    r := ParseReadBits(response, |values|);
    CoilsReadBack(values, response, data, r.values);
  }

  /**
   Coils asked for beyond the data of a reply are not refused. The next eight are the low byte of the
   reply's CRC, the eight after them its high byte, and there is nothing to read after that.
   */
  lemma ExcessCoilsAreCrcBits(unit: byte, fc: byte, data: seq<byte>, i: nat)
    requires |data| < 0x100 && 8 * |data| <= i
    ensures var crc, response := Crc([unit, fc, ByteOf(|data|)] + data), BuildRequest(unit, fc, [ByteOf(|data|)] + data);
            && (i < 8 * |data| + 16 <==> 3 + i / 8 < |response|)
            && (i < 8 * |data| + 16 ==>
                  (BitAt(response[3..], i) <==>
                     Bit(if i < 8 * |data| + 8 then LowByte(crc) else HighByte(crc), i % 8)))
  {
    hide Bit, Mask, Crc16.Crc, LowByte, HighByte, Bytes.ByteOf;
    var head := [unit, fc] + ([ByteOf(|data|)] + data);
    assert head == [unit, fc, ByteOf(|data|)] + data;
    var response := BuildRequest(unit, fc, [ByteOf(|data|)] + data);
    var tail := response[3..];
    assert tail[|data|] == LowByte(Crc(head)) && tail[|data| + 1] == HighByte(Crc(head));
    assert |response| == 5 + |data|;
  }

  lemma PackedLength(data: seq<byte>, values: seq<bool>)
    requires Packs(data, values)
    ensures |data| == PackedSize(|values|)
  {
  }

  // ----- byte orders

  datatype ByteOrder = BigEndian | LittleEndian | BigEndianByteSwap | LittleEndianByteSwap

  function Swap(r: bv16): bv16 {
    ((r & 0xFF) << 8) | ((r >> 8) & 0xFF)
  }

  function Join32(high: bv16, low: bv16): bv32 {
    ((high as bv32) << 16) | (low as bv32)
  }

  function High16(v: bv32): bv16 {
    ((v >> 16) & 0xFFFF) as bv16
  }

  function Low16(v: bv32): bv16 {
    (v & 0xFFFF) as bv16
  }

  function CombineRegisters32(order: ByteOrder, high: bv16, low: bv16): bv32 {
    match order
    case BigEndian => Join32(high, low)
    case LittleEndian => Join32(low, high)
    case BigEndianByteSwap => Join32(Swap(high), Swap(low))
    case LittleEndianByteSwap => Join32(Swap(low), Swap(high))
  }

  function SplitRegisters32(order: ByteOrder, v: bv32): (bv16, bv16) {
    match order
    case BigEndian => (High16(v), Low16(v))
    case LittleEndian => (Low16(v), High16(v))
    case BigEndianByteSwap => (Swap(High16(v)), Swap(Low16(v)))
    case LittleEndianByteSwap => (Swap(Low16(v)), Swap(High16(v)))
  }

  function Join64(high: bv32, low: bv32): bv64 {
    ((high as bv64) << 32) | (low as bv64)
  }

  function High32(v: bv64): bv32 {
    ((v >> 32) & 0xFFFF_FFFF) as bv32
  }

  function Low32(v: bv64): bv32 {
    (v & 0xFFFF_FFFF) as bv32
  }

  predicate HighFirst(order: ByteOrder) {
    order.BigEndian? || order.BigEndianByteSwap?
  }

  function CombineRegisters64(order: ByteOrder, r0: bv16, r1: bv16, r2: bv16, r3: bv16): bv64 {
    var high, low := CombineRegisters32(order, r0, r1), CombineRegisters32(order, r2, r3);
    if HighFirst(order) then Join64(high, low) else Join64(low, high)
  }

  function SplitRegisters64(order: ByteOrder, v: bv64): (bv16, bv16, bv16, bv16) {
    var (high, low) := if HighFirst(order) then (High32(v), Low32(v)) else (Low32(v), High32(v));
    var (r0, r1) := SplitRegisters32(order, high);
    var (r2, r3) := SplitRegisters32(order, low);
    (r0, r1, r2, r3)
  }

  lemma SwapPair(lo: byte, hi: byte)
    ensures Swap(Pair(lo, hi)) == Pair(hi, lo)
  {
  }

  lemma JoinPairs(b3: byte, b2: byte, b1: byte, b0: byte)
    ensures Join32(Pair(b2, b3), Pair(b0, b1)) == Word(b3, b2, b1, b0)
  {
  }

  /**
   The four orders in terms of bytes. A value with the bytes A B C D, A the most significant, is in the
   registers AB CD, CD AB, BA DC or DC BA.
   */
  lemma Orders32(a: byte, b: byte, c: byte, d: byte)
    ensures CombineRegisters32(BigEndian, Pair(b, a), Pair(d, c)) == Word(a, b, c, d)
    ensures CombineRegisters32(LittleEndian, Pair(d, c), Pair(b, a)) == Word(a, b, c, d)
    ensures CombineRegisters32(BigEndianByteSwap, Pair(a, b), Pair(c, d)) == Word(a, b, c, d)
    ensures CombineRegisters32(LittleEndianByteSwap, Pair(c, d), Pair(a, b)) == Word(a, b, c, d)
  {
    hide Swap, Join32, Pair, Word;
    SwapPair(a, b);
    SwapPair(c, d);
    JoinPairs(a, b, c, d);
  }

  /** At 64 bits the orders with the high register first also put the high half first, the others last. */
  lemma Orders64(order: ByteOrder, r0: bv16, r1: bv16, r2: bv16, r3: bv16)
    ensures var v := CombineRegisters64(order, r0, r1, r2, r3);
            var first, second := CombineRegisters32(order, r0, r1), CombineRegisters32(order, r2, r3);
            match order
            case BigEndian => High32(v) == first && Low32(v) == second
            case BigEndianByteSwap => High32(v) == first && Low32(v) == second
            case LittleEndian => High32(v) == second && Low32(v) == first
            case LittleEndianByteSwap => High32(v) == second && Low32(v) == first
  {
    hide CombineRegisters32, Join64, High32, Low32;
    var first, second := CombineRegisters32(order, r0, r1), CombineRegisters32(order, r2, r3);
    Join64Parts(first, second, 0);
    Join64Parts(second, first, 0);
  }

  lemma Join32Parts(high: bv16, low: bv16, v: bv32)
    ensures High16(Join32(high, low)) == high && Low16(Join32(high, low)) == low
    ensures Join32(High16(v), Low16(v)) == v
  {
  }

  lemma Join64Parts(high: bv32, low: bv32, v: bv64)
    ensures High32(Join64(high, low)) == high && Low32(Join64(high, low)) == low
    ensures Join64(High32(v), Low32(v)) == v
  {
  }

  lemma SwapTwice(r: bv16)
    ensures Swap(Swap(r)) == r
  {
  }

  /** In every byte order, splitting undoes combining and combining undoes splitting. */
  lemma Registers32Inverse(order: ByteOrder, high: bv16, low: bv16, v: bv32)
    ensures SplitRegisters32(order, CombineRegisters32(order, high, low)) == (high, low)
    ensures var (h, l) := SplitRegisters32(order, v); CombineRegisters32(order, h, l) == v
  {
    hide Swap, Join32, High16, Low16;
    SwapTwice(high);
    SwapTwice(low);
    SwapTwice(High16(v));
    SwapTwice(Low16(v));
    Join32Parts(high, low, v);
    Join32Parts(low, high, v);
    Join32Parts(Swap(high), Swap(low), v);
    Join32Parts(Swap(low), Swap(high), v);
  }

  lemma Registers64Inverse(order: ByteOrder, r0: bv16, r1: bv16, r2: bv16, r3: bv16, v: bv64)
    ensures SplitRegisters64(order, CombineRegisters64(order, r0, r1, r2, r3)) == (r0, r1, r2, r3)
    ensures var (s0, s1, s2, s3) := SplitRegisters64(order, v); CombineRegisters64(order, s0, s1, s2, s3) == v
  {
    hide Join64, High32, Low32, CombineRegisters32, SplitRegisters32;
    var high, low := CombineRegisters32(order, r0, r1), CombineRegisters32(order, r2, r3);
    Join64Parts(high, low, v);
    Join64Parts(low, high, v);
    Registers32Inverse(order, r0, r1, High32(v));
    Registers32Inverse(order, r2, r3, Low32(v));
  }

  // ----- register arrays

  datatype DataType = Int16 | UInt16 | Int32 | UInt32 | Float32 | Int64 | UInt64 | Float64

  /** The width of a type in bits, as its name says. */
  function Width(t: DataType): nat {
    if t.Int64? || t.UInt64? || t.Float64? then 64 else if t.Int16? || t.UInt16? then 16 else 32
  }

  function RegistersPerType(t: DataType): (n: nat)
    ensures n == 1 || n == 2 || n == 4
    ensures 16 * n == Width(t)
  {
    match t
    case Int16 => 1
    case UInt16 => 1
    case Int32 => 2
    case UInt32 => 2
    case Float32 => 2
    case _ => 4
  }

  function Widen16(r: bv16): bv64 {
    r as bv64
  }

  function Narrow16(v: bv64): bv16 {
    (v & 0xFFFF) as bv16
  }

  function Widen32(w: bv32): bv64 {
    w as bv64
  }

  /** The bit pattern of the value at the start of the registers; sign and float casts keep the bits. */
  function ValueOf(order: ByteOrder, t: DataType, regs: seq<bv16>): bv64
    requires |regs| >= RegistersPerType(t)
  {
    var n := RegistersPerType(t);
    if n == 1 then Widen16(regs[0])
    else if n == 2 then Widen32(CombineRegisters32(order, regs[0], regs[1]))
    else CombineRegisters64(order, regs[0], regs[1], regs[2], regs[3])
  }

  /** Values that the type can hold: no bits beyond its width. */
  predicate Representable(t: DataType, v: bv64) {
    var n := RegistersPerType(t);
    (n == 1 ==> v <= 0xFFFF) && (n == 2 ==> v <= 0xFFFF_FFFF)
  }

  function RegistersOf(order: ByteOrder, t: DataType, v: bv64): (regs: seq<bv16>)
    ensures |regs| == RegistersPerType(t)
  {
    var n := RegistersPerType(t);
    if n == 1 then [Narrow16(v)]
    else if n == 2 then
      var (high, low) := SplitRegisters32(order, Low32(v));
      [high, low]
    else
      var (r0, r1, r2, r3) := SplitRegisters64(order, v);
      [r0, r1, r2, r3]
  }

  function DecodeAll(order: ByteOrder, t: DataType, regs: seq<bv16>): seq<bv64>
    decreases |regs|
  {
    var n := RegistersPerType(t);
    if |regs| < n then [] else [ValueOf(order, t, regs)] + DecodeAll(order, t, regs[n..])
  }

  function EncodeAll(order: ByteOrder, t: DataType, values: seq<bv64>): seq<bv16> {
    if values == [] then [] else RegistersOf(order, t, values[0]) + EncodeAll(order, t, values[1..])
  }

  /** The loop of registersToJson. */
  method RegistersToJson(order: ByteOrder, t: DataType, regs: seq<bv16>) returns (arr: seq<bv64>)
    ensures arr == DecodeAll(order, t, regs)
  {
    hide ValueOf, RegistersPerType, DecodeAll;
    var step := RegistersPerType(t);
    arr := [];
    var i := 0;
    assert regs[0..] == regs;
    while i + step <= |regs|
      invariant 0 <= i <= |regs|
      invariant arr + DecodeAll(order, t, regs[i..]) == DecodeAll(order, t, regs)
    {
      DecodeStep(order, t, regs, i, arr);
      arr := arr + [ValueOf(order, t, regs[i..])];
      i := i + step;
    }
    DecodeStep(order, t, regs, i, arr);
  }

  lemma DecodeStep(order: ByteOrder, t: DataType, regs: seq<bv16>, i: nat, arr: seq<bv64>)
    requires i <= |regs|
    ensures var n := RegistersPerType(t);
            arr + DecodeAll(order, t, regs[i..]) ==
            if i + n > |regs| then arr else arr + [ValueOf(order, t, regs[i..])] + DecodeAll(order, t, regs[i + n..])
  {
    hide ValueOf;
    var n := RegistersPerType(t);
    if i + n <= |regs| {
      assert regs[i..][n..] == regs[i + n..];
    }
  }

  lemma Widened(r: bv16, w: bv32)
    ensures Narrow16(Widen16(r)) == r && Low32(Widen32(w)) == w
  {
  }

  lemma Narrowed16(v: bv64)
    requires v <= 0xFFFF
    ensures Widen16(Narrow16(v)) == v
  {
  }

  lemma Narrowed32(v: bv64)
    requires v <= 0xFFFF_FFFF
    ensures Widen32(Low32(v)) == v
  {
  }

  lemma ValueRoundTrip(order: ByteOrder, t: DataType, regs: seq<bv16>, v: bv64)
    requires |regs| >= RegistersPerType(t)
    ensures RegistersOf(order, t, ValueOf(order, t, regs)) == regs[..RegistersPerType(t)]
    ensures Representable(t, v) ==> ValueOf(order, t, RegistersOf(order, t, v)) == v
  {
    hide CombineRegisters32, SplitRegisters32, CombineRegisters64, SplitRegisters64, Low32, Widen16, Widen32, Narrow16;
    var n := RegistersPerType(t);
    if n == 1 {
      Widened(regs[0], 0);
      if Representable(t, v) {
        Narrowed16(v);
      }
    } else if n == 2 {
      Widened(0, CombineRegisters32(order, regs[0], regs[1]));
      if Representable(t, v) {
        Narrowed32(v);
      }
      Registers32Inverse(order, regs[0], regs[1], Low32(v));
    } else {
      Registers64Inverse(order, regs[0], regs[1], regs[2], regs[3], v);
    }
  }

  /** The part of len that n divides. */
  function Whole(len: nat, n: nat): int
    requires n > 0
  {
    len - len % n
  }

  lemma Remainder(len: nat, n: nat)
    requires len >= n && (n == 1 || n == 2 || n == 4)
    ensures Whole(len, n) == n + Whole(len - n, n) && Whole(len, n) <= len
  {
    if n == 1 {
    } else if n == 2 {
    } else {
    }
  }

  lemma CodeStep(order: ByteOrder, t: DataType, regs: seq<bv16>)
    requires |regs| >= RegistersPerType(t)
    ensures EncodeAll(order, t, DecodeAll(order, t, regs)) ==
      RegistersOf(order, t, ValueOf(order, t, regs)) + EncodeAll(order, t, DecodeAll(order, t, regs[RegistersPerType(t)..]))
  {
    hide ValueOf, RegistersOf, RegistersPerType;
    assert DecodeAll(order, t, regs)[1..] == DecodeAll(order, t, regs[RegistersPerType(t)..]);
  }

  /** Decoding and encoding drops only the registers at the end that do not fill a value. */
  lemma {:induction false} ArrayRoundTrip(order: ByteOrder, t: DataType, regs: seq<bv16>)
    ensures EncodeAll(order, t, DecodeAll(order, t, regs)) == regs[..Whole(|regs|, RegistersPerType(t))]
    decreases |regs|
  {
    hide ValueOf, RegistersOf, RegistersPerType;
    var n := RegistersPerType(t);
    if |regs| >= n {
      hide EncodeAll, DecodeAll, Whole;
      ValueRoundTrip(order, t, regs, 0);
      ArrayRoundTrip(order, t, regs[n..]);
      CodeStep(order, t, regs);
      Remainder(|regs|, n);
      var k := Whole(|regs|, n);
      assert regs[..k] == regs[..n] + regs[n..][..k - n];
    } else {
      assert |regs| % n == |regs|;
    }
  }

  /**
   So a register array comes back exactly if its length is a multiple of the type's registers: what the
   handler checks before a register read.
   */
  lemma ArrayRoundTripIff(order: ByteOrder, t: DataType, regs: seq<bv16>)
    ensures |regs| % RegistersPerType(t) == 0 <==> EncodeAll(order, t, DecodeAll(order, t, regs)) == regs
  {
    hide RegistersPerType, EncodeAll, DecodeAll;
    ArrayRoundTrip(order, t, regs);
  }

  /** Representable values survive being written to registers and decoded again. */
  lemma {:induction false} ValuesRoundTrip(order: ByteOrder, t: DataType, values: seq<bv64>)
    requires forall v :: v in values ==> Representable(t, v)
    ensures DecodeAll(order, t, EncodeAll(order, t, values)) == values
    decreases values
  {
    hide ValueOf, RegistersOf, Representable;
    if values != [] {
      var first, rest := RegistersOf(order, t, values[0]), EncodeAll(order, t, values[1..]);
      ValuesRoundTrip(order, t, values[1..]);
      ValueRoundTrip(order, t, first, values[0]);
      ValueOfPrefix(order, t, first, rest);
      assert (first + rest)[RegistersPerType(t)..] == rest;
      assert values[0] in values;
    }
  }

  lemma ValueOfPrefix(order: ByteOrder, t: DataType, a: seq<bv16>, b: seq<bv16>)
    requires |a| == RegistersPerType(t)
    ensures ValueOf(order, t, a + b) == ValueOf(order, t, a)
  {
    hide CombineRegisters32, CombineRegisters64;
  }
}

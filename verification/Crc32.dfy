/**
 The CRC-32 shared by both radar protocols: the CRC-32/MPEG-2 register (Annex A of ISO/IEC 13818-1),
 fed with the bytes of each 4-byte word in reversed order, the last word padded with zeros.

 The table-driven code is compared with two references: eight shifts of the register per byte, and a
 register that takes the message one bit at a time. Bit-vector operators are wrapped in functions so
 that proofs can `hide` them and reason by equations.
 */
module Crc32 {
  import opened Bytes

  const INIT: bv32 := 0xFFFF_FFFF

  function Xor32(x: bv32, y: bv32): bv32 {
    x ^ y
  }

  function Shift(c: bv32): bv32 {
    c << 1
  }

  predicate Top(c: bv32) {
    c & 0x8000_0000 != 0
  }

  function Feedback(top: bool): bv32 {
    if top then 0x04C1_1DB7 else 0
  }

  /** One shift of the register: division by the generator 0x04C11DB7. */
  function BitStep(c: bv32): bv32 {
    Xor32(Shift(c), Feedback(Top(c)))
  }

  function BitSteps(c: bv32, n: nat): bv32
    decreases n
  {
    if n == 0 then c else BitSteps(BitStep(c), n - 1)
  }

  /** A byte at the top of the register. */
  function Lift(b: byte): bv32 {
    (b as bv32) << 24
  }

  function ByteStep(b: byte, crc: bv32): bv32 {
    BitSteps(Xor32(crc, Lift(b)), 8)
  }

  function Fold(crc: bv32, data: seq<byte>): bv32
    decreases data
  {
    if data == [] then crc else Fold(ByteStep(data[0], crc), data[1..])
  }

  /** The order in which the bytes enter the register. */
  function WordReversed(data: seq<byte>): seq<byte> {
    if |data| == 0 then []
    else if |data| == 1 then [0, 0, 0, data[0]]
    else if |data| == 2 then [0, 0, data[1], data[0]]
    else if |data| == 3 then [0, data[2], data[1], data[0]]
    else [data[3], data[2], data[1], data[0]] + WordReversed(data[4..])
  }

  function Crc(data: seq<byte>): bv32 {
    Fold(INIT, WordReversed(data))
  }

  // ----- the register is linear and loses nothing

  lemma XorCommutes(a: bv32, b: bv32)
    ensures Xor32(a, b) == Xor32(b, a)
  {
  }

  lemma XorAssociates(a: bv32, b: bv32, c: bv32)
    ensures Xor32(Xor32(a, b), c) == Xor32(a, Xor32(b, c))
  {
  }

  lemma XorSwap(a: bv32, b: bv32, p: bv32, q: bv32)
    ensures Xor32(Xor32(a, b), Xor32(p, q)) == Xor32(Xor32(a, p), Xor32(b, q))
  {
    hide *;
    XorAssociates(a, b, Xor32(p, q));
    XorAssociates(b, p, q);
    XorCommutes(b, p);
    XorAssociates(p, b, q);
    XorAssociates(a, p, Xor32(b, q));
  }

  lemma XorSelf(x: bv32)
    ensures Xor32(x, x) == 0 && Xor32(x, 0) == x
  {
  }

  lemma XorZero(x: bv32, y: bv32)
    ensures Xor32(x, y) == 0 <==> x == y
  {
    hide *;
    XorSelf(x);
    XorSelf(y);
    XorAssociates(x, y, y);
    XorCommutes(0, y);
  }

  lemma ShiftXor(x: bv32, y: bv32)
    ensures Shift(Xor32(x, y)) == Xor32(Shift(x), Shift(y))
  {
  }

  lemma TopXor(x: bv32, y: bv32)
    ensures Top(Xor32(x, y)) == (Top(x) != Top(y))
  {
  }

  lemma FeedbackXor(p: bool, q: bool)
    ensures Feedback(p != q) == Xor32(Feedback(p), Feedback(q))
  {
  }

  lemma BitStepXor(x: bv32, y: bv32)
    ensures BitStep(Xor32(x, y)) == Xor32(BitStep(x), BitStep(y))
  {
    hide Xor32, Shift, Feedback, Top;
    ShiftXor(x, y);
    TopXor(x, y);
    FeedbackXor(Top(x), Top(y));
    XorSwap(Shift(x), Shift(y), Feedback(Top(x)), Feedback(Top(y)));
  }

  lemma {:induction false} BitStepsXor(x: bv32, y: bv32, n: nat)
    ensures BitSteps(Xor32(x, y), n) == Xor32(BitSteps(x, n), BitSteps(y, n))
    decreases n
  {
    hide BitStep, Xor32;
    if n > 0 {
      BitStepXor(x, y);
      BitStepsXor(BitStep(x), BitStep(y), n - 1);
    }
  }

  lemma {:induction false} BitStepsCompose(c: bv32, m: nat, n: nat)
    ensures BitSteps(c, m + n) == BitSteps(BitSteps(c, m), n)
    decreases m
  {
    hide BitStep;
    if m > 0 {
      BitStepsCompose(BitStep(c), m - 1, n);
    }
  }

  lemma BitStepZero(x: bv32)
    requires BitStep(x) == 0
    ensures x == 0
  {
  }

  lemma {:induction false} BitStepsInjective(x: bv32, y: bv32, n: nat)
    requires BitSteps(x, n) == BitSteps(y, n)
    ensures x == y
    decreases n
  {
    hide BitStep, Xor32;
    if n > 0 {
      BitStepsInjective(BitStep(x), BitStep(y), n - 1);
      BitStepXor(x, y);
      XorZero(BitStep(x), BitStep(y));
      BitStepZero(Xor32(x, y));
      XorZero(x, y);
    }
  }

  // ----- the table holds eight shifts per entry

  /** Eight consecutive entries of the lookup table. */
  datatype Row = Row(e0: bv32, e1: bv32, e2: bv32, e3: bv32, e4: bv32, e5: bv32, e6: bv32, e7: bv32)
  {
    function At(c: bv8): bv32
      requires c < 8
    {
      match c
      case 0 => e0
      case 1 => e1
      case 2 => e2
      case 3 => e3
      case 4 => e4
      case 5 => e5
      case 6 => e6
      case _ => e7
    }
  }

  /** Row r of the 256-entry table: entries 8r to 8r + 7. */
  function TableRow(r: bv8): Row {
    match r
    case 0 => Row(0x00000000, 0x04c11db7, 0x09823b6e, 0x0d4326d9, 0x130476dc, 0x17c56b6b, 0x1a864db2, 0x1e475005)
    case 1 => Row(0x2608edb8, 0x22c9f00f, 0x2f8ad6d6, 0x2b4bcb61, 0x350c9b64, 0x31cd86d3, 0x3c8ea00a, 0x384fbdbd)
    case 2 => Row(0x4c11db70, 0x48d0c6c7, 0x4593e01e, 0x4152fda9, 0x5f15adac, 0x5bd4b01b, 0x569796c2, 0x52568b75)
    case 3 => Row(0x6a1936c8, 0x6ed82b7f, 0x639b0da6, 0x675a1011, 0x791d4014, 0x7ddc5da3, 0x709f7b7a, 0x745e66cd)
    case 4 => Row(0x9823b6e0, 0x9ce2ab57, 0x91a18d8e, 0x95609039, 0x8b27c03c, 0x8fe6dd8b, 0x82a5fb52, 0x8664e6e5)
    case 5 => Row(0xbe2b5b58, 0xbaea46ef, 0xb7a96036, 0xb3687d81, 0xad2f2d84, 0xa9ee3033, 0xa4ad16ea, 0xa06c0b5d)
    case 6 => Row(0xd4326d90, 0xd0f37027, 0xddb056fe, 0xd9714b49, 0xc7361b4c, 0xc3f706fb, 0xceb42022, 0xca753d95)
    case 7 => Row(0xf23a8028, 0xf6fb9d9f, 0xfbb8bb46, 0xff79a6f1, 0xe13ef6f4, 0xe5ffeb43, 0xe8bccd9a, 0xec7dd02d)
    case 8 => Row(0x34867077, 0x30476dc0, 0x3d044b19, 0x39c556ae, 0x278206ab, 0x23431b1c, 0x2e003dc5, 0x2ac12072)
    case 9 => Row(0x128e9dcf, 0x164f8078, 0x1b0ca6a1, 0x1fcdbb16, 0x018aeb13, 0x054bf6a4, 0x0808d07d, 0x0cc9cdca)
    case 10 => Row(0x7897ab07, 0x7c56b6b0, 0x71159069, 0x75d48dde, 0x6b93dddb, 0x6f52c06c, 0x6211e6b5, 0x66d0fb02)
    case 11 => Row(0x5e9f46bf, 0x5a5e5b08, 0x571d7dd1, 0x53dc6066, 0x4d9b3063, 0x495a2dd4, 0x44190b0d, 0x40d816ba)
    case 12 => Row(0xaca5c697, 0xa864db20, 0xa527fdf9, 0xa1e6e04e, 0xbfa1b04b, 0xbb60adfc, 0xb6238b25, 0xb2e29692)
    case 13 => Row(0x8aad2b2f, 0x8e6c3698, 0x832f1041, 0x87ee0df6, 0x99a95df3, 0x9d684044, 0x902b669d, 0x94ea7b2a)
    case 14 => Row(0xe0b41de7, 0xe4750050, 0xe9362689, 0xedf73b3e, 0xf3b06b3b, 0xf771768c, 0xfa325055, 0xfef34de2)
    case 15 => Row(0xc6bcf05f, 0xc27dede8, 0xcf3ecb31, 0xcbffd686, 0xd5b88683, 0xd1799b34, 0xdc3abded, 0xd8fba05a)
    case 16 => Row(0x690ce0ee, 0x6dcdfd59, 0x608edb80, 0x644fc637, 0x7a089632, 0x7ec98b85, 0x738aad5c, 0x774bb0eb)
    case 17 => Row(0x4f040d56, 0x4bc510e1, 0x46863638, 0x42472b8f, 0x5c007b8a, 0x58c1663d, 0x558240e4, 0x51435d53)
    case 18 => Row(0x251d3b9e, 0x21dc2629, 0x2c9f00f0, 0x285e1d47, 0x36194d42, 0x32d850f5, 0x3f9b762c, 0x3b5a6b9b)
    case 19 => Row(0x0315d626, 0x07d4cb91, 0x0a97ed48, 0x0e56f0ff, 0x1011a0fa, 0x14d0bd4d, 0x19939b94, 0x1d528623)
    case 20 => Row(0xf12f560e, 0xf5ee4bb9, 0xf8ad6d60, 0xfc6c70d7, 0xe22b20d2, 0xe6ea3d65, 0xeba91bbc, 0xef68060b)
    case 21 => Row(0xd727bbb6, 0xd3e6a601, 0xdea580d8, 0xda649d6f, 0xc423cd6a, 0xc0e2d0dd, 0xcda1f604, 0xc960ebb3)
    case 22 => Row(0xbd3e8d7e, 0xb9ff90c9, 0xb4bcb610, 0xb07daba7, 0xae3afba2, 0xaafbe615, 0xa7b8c0cc, 0xa379dd7b)
    case 23 => Row(0x9b3660c6, 0x9ff77d71, 0x92b45ba8, 0x9675461f, 0x8832161a, 0x8cf30bad, 0x81b02d74, 0x857130c3)
    case 24 => Row(0x5d8a9099, 0x594b8d2e, 0x5408abf7, 0x50c9b640, 0x4e8ee645, 0x4a4ffbf2, 0x470cdd2b, 0x43cdc09c)
    case 25 => Row(0x7b827d21, 0x7f436096, 0x7200464f, 0x76c15bf8, 0x68860bfd, 0x6c47164a, 0x61043093, 0x65c52d24)
    case 26 => Row(0x119b4be9, 0x155a565e, 0x18197087, 0x1cd86d30, 0x029f3d35, 0x065e2082, 0x0b1d065b, 0x0fdc1bec)
    case 27 => Row(0x3793a651, 0x3352bbe6, 0x3e119d3f, 0x3ad08088, 0x2497d08d, 0x2056cd3a, 0x2d15ebe3, 0x29d4f654)
    case 28 => Row(0xc5a92679, 0xc1683bce, 0xcc2b1d17, 0xc8ea00a0, 0xd6ad50a5, 0xd26c4d12, 0xdf2f6bcb, 0xdbee767c)
    case 29 => Row(0xe3a1cbc1, 0xe760d676, 0xea23f0af, 0xeee2ed18, 0xf0a5bd1d, 0xf464a0aa, 0xf9278673, 0xfde69bc4)
    case 30 => Row(0x89b8fd09, 0x8d79e0be, 0x803ac667, 0x84fbdbd0, 0x9abc8bd5, 0x9e7d9662, 0x933eb0bb, 0x97ffad0c)
    case _ => Row(0xafb010b1, 0xab710d06, 0xa6322bdf, 0xa2f33668, 0xbcb4666d, 0xb8757bda, 0xb5365d03, 0xb1f740b4)
  }

  function Table(i: bv8): bv32 {
    TableRow(i >> 3).At(i & 7)
  }

  function TableIndex(b: byte, crc: bv32): bv8 {
    (((crc >> 24) ^ (b as bv32)) & 0xFF) as bv8
  }

  function TableStep(b: byte, crc: bv32): bv32 {
    Xor32(crc << 8, Table(TableIndex(b, crc)))
  }

  predicate RowLinear(r: bv8) {
    var head, first, row := TableRow(r).e0, TableRow(0), TableRow(r);
    row == Row(Xor32(head, first.e0), Xor32(head, first.e1), Xor32(head, first.e2), Xor32(head, first.e3),
               Xor32(head, first.e4), Xor32(head, first.e5), Xor32(head, first.e6), Xor32(head, first.e7))
  }

  lemma RowsLinear(r: bv8)
    requires r < 32
    ensures RowLinear(r)
  {
    match r
    case 0 => case 1 => case 2 => case 3 => case 4 => case 5 => case 6 => case 7 =>
    case 8 => case 9 => case 10 => case 11 => case 12 => case 13 => case 14 => case 15 =>
    case 16 => case 17 => case 18 => case 19 => case 20 => case 21 => case 22 => case 23 =>
    case 24 => case 25 => case 26 => case 27 => case 28 => case 29 => case 30 => case _ =>
  }

  lemma HeadsLinear(r: bv8)
    requires r < 32
    ensures TableRow(r).e0 == Xor32(TableRow(r & 0x18).e0, TableRow(r & 7).e0)
  {
    match r
    case 0 => case 1 => case 2 => case 3 => case 4 => case 5 => case 6 => case 7 =>
    case 8 => case 9 => case 10 => case 11 => case 12 => case 13 => case 14 => case 15 =>
    case 16 => case 17 => case 18 => case 19 => case 20 => case 21 => case 22 => case 23 =>
    case 24 => case 25 => case 26 => case 27 => case 28 => case 29 => case 30 => case _ =>
  }

  lemma FirstRow(c: bv8)
    requires c < 8
    ensures TableRow(0).At(c) == BitSteps(Lift(c), 8)
  {
  }

  lemma LowHeads(r: bv8)
    requires r < 8
    ensures TableRow(r).e0 == BitSteps(Lift(r << 3), 8)
  {
  }

  lemma HighHeads(r: bv8)
    requires r == 8 || r == 16 || r == 24
    ensures TableRow(r).e0 == BitSteps(Lift(r << 3), 8)
  {
  }

  lemma LiftParts(i: bv8)
    ensures Lift(i) == Xor32(Lift((i >> 3) << 3), Lift(i & 7))
    ensures Lift(i << 3) == Xor32(Lift((i & 0x18) << 3), Lift((i & 7) << 3))
    ensures i >> 3 < 32 && i & 7 < 8
    ensures i < 32 ==> (i & 0x18 == 0 || i & 0x18 == 8 || i & 0x18 == 16 || i & 0x18 == 24)
  {
  }

  lemma Heads(r: bv8)
    requires r < 32
    ensures TableRow(r).e0 == BitSteps(Lift(r << 3), 8)
  {
    hide TableRow, BitSteps, Lift, Xor32;
    LiftParts(r);
    HeadsLinear(r);
    LowHeads(r & 7);
    if r & 0x18 == 0 {
      LowHeads(0);
    } else {
      HighHeads(r & 0x18);
    }
    BitStepsXor(Lift((r & 0x18) << 3), Lift((r & 7) << 3), 8);
  }

  lemma EntryXor(r: bv8, c: bv8)
    requires r < 32 && c < 8
    ensures TableRow(r).At(c) == Xor32(TableRow(r).e0, TableRow(0).At(c))
  {
    hide TableRow, Xor32;
    RowsLinear(r);
  }

  /** Every table entry is its index, at the top of the register, after eight shifts. */
  lemma TableEntry(i: bv8)
    ensures Table(i) == BitSteps(Lift(i), 8)
  {
    hide TableRow, BitSteps, Lift, Xor32, Row.At;
    LiftParts(i);
    EntryXor(i >> 3, i & 7);
    Heads(i >> 3);
    FirstRow(i & 7);
    BitStepsXor(Lift((i >> 3) << 3), Lift(i & 7), 8);
  }

}

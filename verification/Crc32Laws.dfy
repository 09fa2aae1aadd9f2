/**
 What the CRC-32 of the radar protocols guarantees: the table-driven loops compute the reference,
 the reference is a bit-serial division, it is affine, and it notices every change inside one
 aligned word.
 */
module Crc32Laws {
  import opened Bytes
  import opened Crc32

  // ----- the table step is the byte step

  function LowPart(crc: bv32): bv32 {
    crc & 0x00FF_FFFF
  }

  lemma IndexAndLowPart(b: byte, crc: bv32)
    ensures Xor32(crc, Lift(b)) == Xor32(LowPart(crc), Lift(TableIndex(b, crc)))
  {
  }

  lemma LowPartShifts(crc: bv32)
    ensures BitSteps(LowPart(crc), 8) == crc << 8
  {
  }

  lemma TableStepIsByteStep(b: byte, crc: bv32)
    ensures TableStep(b, crc) == ByteStep(b, crc)
  {
    hide Xor32, Lift, TableIndex, Table, BitSteps, LowPart;
    IndexAndLowPart(b, crc);
    LowPartShifts(crc);
    TableEntry(TableIndex(b, crc));
    BitStepsXor(LowPart(crc), Lift(TableIndex(b, crc)), 8);
  }

  // ----- bit-serial reference

  /** The register of the standard's decoder model: one message bit per clock. */
  function SerialStep(crc: bv32, bit: bool): bv32 {
    Xor32(Shift(crc), Feedback(Top(crc) != bit))
  }

  function Serial(crc: bv32, bits: seq<bool>): bv32
    decreases bits
  {
    if bits == [] then crc else Serial(SerialStep(crc, bits[0]), bits[1..])
  }

  predicate HighBit(b: byte) {
    b & 0x80 != 0
  }

  /** The top n bits of b, most significant first. */
  function HighBits(b: byte, n: nat): (bits: seq<bool>)
    ensures |bits| == n
    decreases n
  {
    if n == 0 then [] else [HighBit(b)] + HighBits(b << 1, n - 1)
  }

  function MessageBits(data: seq<byte>): seq<bool> {
    if data == [] then [] else HighBits(data[0], 8) + MessageBits(data[1..])
  }

  function ShiftedOut(b: byte, n: nat): byte
    decreases n
  {
    if n == 0 then b else ShiftedOut(b << 1, n - 1)
  }

  lemma StepTakesHighBit(b: byte, crc: bv32)
    ensures Shift(Lift(b)) == Lift(b << 1)
    ensures Top(Lift(b)) == HighBit(b)
  {
  }

  lemma {:induction false} StepsAreSerial(b: byte, crc: bv32, n: nat)
    ensures BitSteps(Xor32(crc, Lift(b)), n) == Xor32(Serial(crc, HighBits(b, n)), Lift(ShiftedOut(b, n)))
    decreases n
  {
    hide Xor32, Lift, Shift, Top, HighBit, Feedback;
    if n > 0 {
      var x := Xor32(crc, Lift(b));
      StepTakesHighBit(b, crc);
      TopXor(crc, Lift(b));
      ShiftXor(crc, Lift(b));
      var f := Feedback(Top(x));
      XorAssociates(Shift(crc), Lift(b << 1), f);
      XorCommutes(Lift(b << 1), f);
      XorAssociates(Shift(crc), f, Lift(b << 1));
      assert BitStep(x) == Xor32(SerialStep(crc, HighBit(b)), Lift(b << 1));
      StepsAreSerial(b << 1, SerialStep(crc, HighBit(b)), n - 1);
      assert HighBits(b, n)[1..] == HighBits(b << 1, n - 1);
    }
  }

  lemma NothingLeft(b: byte)
    ensures Lift(ShiftedOut(b, 8)) == 0
  {
  }

  lemma ByteStepIsSerial(b: byte, crc: bv32)
    ensures ByteStep(b, crc) == Serial(crc, HighBits(b, 8))
  {
    StepsAreSerial(b, crc, 8);
    NothingLeft(b);
    hide Xor32, Lift, BitSteps, Serial, HighBits, ShiftedOut;
    XorSelf(Serial(crc, HighBits(b, 8)));
  }

  lemma {:induction false} SerialAppend(crc: bv32, a: seq<bool>, b: seq<bool>)
    ensures Serial(crc, a + b) == Serial(Serial(crc, a), b)
    decreases a
  {
    hide SerialStep;
    if a == [] {
      assert a + b == b;
    } else {
      assert (a + b)[1..] == a[1..] + b;
      SerialAppend(SerialStep(crc, a[0]), a[1..], b);
    }
  }

  lemma {:induction false} FoldIsSerial(crc: bv32, data: seq<byte>)
    ensures Fold(crc, data) == Serial(crc, MessageBits(data))
    decreases data
  {
    hide ByteStep, SerialStep, HighBits;
    if data != [] {
      ByteStepIsSerial(data[0], crc);
      FoldIsSerial(ByteStep(data[0], crc), data[1..]);
      SerialAppend(crc, HighBits(data[0], 8), MessageBits(data[1..]));
    }
  }

  /** The CRC of every byte string is the serial division of its padded, word-reversed bits. */
  lemma CrcIsSerial(data: seq<byte>)
    ensures Crc(data) == Serial(INIT, MessageBits(WordReversed(data)))
  {
    FoldIsSerial(INIT, WordReversed(data));
  }

  // ----- the loops

  /** data[lo + n - 1], ..., data[lo]. */
  function Backwards(data: seq<byte>, lo: nat, n: nat): seq<byte>
    requires lo + n <= |data|
  {
    if n == 0 then [] else [data[lo + n - 1]] + Backwards(data, lo, n - 1)
  }

  lemma BackwardsWord(data: seq<byte>, at: nat)
    requires at + 4 <= |data|
    ensures Backwards(data, at, 4) == [data[at + 3], data[at + 2], data[at + 1], data[at]]
    ensures WordReversed(data[at..]) == Backwards(data, at, 4) + WordReversed(data[at + 4..])
  {
    assert Backwards(data, at, 1) == [data[at]];
    assert Backwards(data, at, 2) == [data[at + 1], data[at]];
    assert data[at..][4..] == data[at + 4..];
  }

  lemma BackwardsTail(data: seq<byte>, tail: seq<byte>)
    requires 0 < |data| < 4 && tail == data + Zeros(4 - |data|)
    ensures WordReversed(data) == Backwards(tail, 0, 4)
  {
    BackwardsWord(tail, 0);
  }

  lemma {:induction false} FoldAppend(crc: bv32, a: seq<byte>, b: seq<byte>)
    ensures Fold(crc, a + b) == Fold(Fold(crc, a), b)
    decreases a
  {
    hide ByteStep;
    if a == [] {
      assert a + b == b;
    } else {
      assert (a + b)[1..] == a[1..] + b;
      FoldAppend(ByteStep(a[0], crc), a[1..], b);
    }
  }

  /** The inner loop of crc32Stm32, run on each aligned word and on the padded tail. */
  method StepWord(data: seq<byte>, lo: nat, start: bv32) returns (crc: bv32)
    requires lo + 4 <= |data|
    ensures crc == Fold(start, Backwards(data, lo, 4))
  {
    hide ByteStep, TableStep;
    crc := start;
    var index := lo + 3;
    while index >= lo
      invariant lo - 1 <= index <= lo + 3
      invariant Fold(crc, Backwards(data, lo, index - lo + 1)) == Fold(start, Backwards(data, lo, 4))
    {
      TableStepIsByteStep(data[index], crc);
      crc := TableStep(data[index], crc);
      index := index - 1;
    }
  }

  lemma NothingToFold()
    ensures forall crc :: Fold(crc, []) == crc
    ensures WordReversed([]) == []
  {
  }

  /** The last one to three bytes, padded with zeros to a word. */
  method PadTail(data: seq<byte>, from: nat) returns (tail: array<byte>)
    requires from < |data| < from + 4
    ensures fresh(tail) && tail[..] == data[from..] + Zeros(4 - (|data| - from))
  {
    tail := new byte[4](_ => 0);
    var i := 0;
    while i < |data| - from
      invariant 0 <= i <= |data| - from
      invariant tail[..] == data[from..from + i] + Zeros(4 - i)
    {
      tail[i] := data[from + i];
      i := i + 1;
    }
  }

  /** crc32Stm32: whole words first, then the zero-padded tail. */
  method Crc32Stm32(data: seq<byte>) returns (crc: bv32)
    ensures crc == Crc(data)
  {
    hide ByteStep, Backwards, Fold, WordReversed;
    crc := INIT;
    NothingToFold();
    var trailingBytes := |data| % 4;
    var alignedSize := |data| - trailingBytes;
    var word := 0;
    assert data[0..] == data;
    while word < alignedSize / 4
      invariant 0 <= 4 * word <= alignedSize
      invariant Fold(crc, WordReversed(data[4 * word..])) == Crc(data)
    {
      BackwardsWord(data, 4 * word);
      FoldAppend(crc, Backwards(data, 4 * word, 4), WordReversed(data[4 * word + 4..]));
      crc := StepWord(data, 4 * word, crc);
      word := word + 1;
    }
    if trailingBytes > 0 {
      var tail := PadTail(data, alignedSize);
      BackwardsTail(data[alignedSize..], tail[..]);
      crc := StepWord(tail[..], 0, crc);
    }
  }

  // ----- one word at a time

  lemma TakesTopByte(b3: byte, b2: byte, b1: byte, b0: byte)
    ensures Word(b3, b2, b1, b0) == Xor32(Lift(b3), LowPart(Word(b3, b2, b1, b0)))
    ensures Word(b3, b2, b1, b0) << 8 == Word(b2, b1, b0, 0)
  {
  }

  lemma AbsorbByte(crc: bv32, b3: byte, b2: byte, b1: byte, b0: byte)
    ensures BitSteps(Xor32(crc, Word(b3, b2, b1, b0)), 8) == Xor32(ByteStep(b3, crc), Word(b2, b1, b0, 0))
  {
    hide Xor32, Lift, LowPart, BitSteps, Word;
    var low := LowPart(Word(b3, b2, b1, b0));
    TakesTopByte(b3, b2, b1, b0);
    XorAssociates(crc, Lift(b3), low);
    BitStepsXor(Xor32(crc, Lift(b3)), low, 8);
    LowPartShifts(Word(b3, b2, b1, b0));
  }

  /**
   Four bytes in descending order are one 32-bit word: the register takes a little-endian word and
   shifts 32 times, as the STM32 CRC unit does.
   */
  lemma WordStep(crc: bv32, b0: byte, b1: byte, b2: byte, b3: byte)
    ensures Fold(crc, [b3, b2, b1, b0]) == BitSteps(Xor32(crc, Word(b3, b2, b1, b0)), 32)
  {
    hide Xor32, ByteStep, BitSteps, Word;
    var c1 := ByteStep(b3, crc);
    var c2 := ByteStep(b2, c1);
    var c3 := ByteStep(b1, c2);
    var x := Xor32(crc, Word(b3, b2, b1, b0));
    BitStepsCompose(x, 8, 24);
    AbsorbByte(crc, b3, b2, b1, b0);
    BitStepsCompose(Xor32(c1, Word(b2, b1, b0, 0)), 8, 16);
    AbsorbByte(c1, b2, b1, b0, 0);
    BitStepsCompose(Xor32(c2, Word(b1, b0, 0, 0)), 8, 8);
    AbsorbByte(c2, b1, b0, 0, 0);
    AbsorbByte(c3, b0, 0, 0, 0);
    WordOfZeros();
    XorSelf(ByteStep(b0, c3));
    FoldFour(crc, b0, b1, b2, b3);
  }

  lemma WordOfZeros()
    ensures Word(0, 0, 0, 0) == 0
  {
  }

  lemma FoldFour(crc: bv32, b0: byte, b1: byte, b2: byte, b3: byte)
    ensures Fold(crc, [b3, b2, b1, b0]) == ByteStep(b0, ByteStep(b1, ByteStep(b2, ByteStep(b3, crc))))
  {
    hide ByteStep;
    var c1 := ByteStep(b3, crc);
    var c2 := ByteStep(b2, c1);
    assert [b3, b2, b1, b0][1..] == [b2, b1, b0];
    assert [b2, b1, b0][1..] == [b1, b0];
    assert [b1, b0][1..] == [b0];
    assert Fold(crc, [b3, b2, b1, b0]) == Fold(c1, [b2, b1, b0]) == Fold(c2, [b1, b0]);
    var c3 := ByteStep(b1, c2);
    assert Fold(c2, [b1, b0]) == Fold(c3, [b0]);
    assert [b0][1..] == [];
    assert Fold(c3, [b0]) == Fold(ByteStep(b0, c3), []);
  }

  // ----- error detection

  lemma XorCancels(x: bv32, y: bv32, p: bv32)
    requires Xor32(x, p) == Xor32(y, p) || Xor32(p, x) == Xor32(p, y)
    ensures x == y
  {
    hide *;
    XorCommutes(p, x);
    XorCommutes(p, y);
    XorSwap(x, p, y, p);
    XorZero(Xor32(x, p), Xor32(y, p));
    XorSelf(p);
    XorSelf(Xor32(x, y));
    XorZero(x, y);
  }

  /** Two registers that differ still differ after the same bytes. */
  lemma {:induction false} FoldInjective(x: bv32, y: bv32, data: seq<byte>)
    requires Fold(x, data) == Fold(y, data)
    ensures x == y
    decreases data
  {
    hide Xor32, BitSteps;
    if data != [] {
      FoldInjective(ByteStep(data[0], x), ByteStep(data[0], y), data[1..]);
      BitStepsInjective(Xor32(x, Lift(data[0])), Xor32(y, Lift(data[0])), 8);
      XorCancels(x, y, Lift(data[0]));
    }
  }

  lemma WordDetected(crc: bv32, a: seq<byte>, b: seq<byte>)
    requires |a| == |b| == 4
    requires Fold(crc, [a[3], a[2], a[1], a[0]]) == Fold(crc, [b[3], b[2], b[1], b[0]])
    ensures a == b
  {
    hide Xor32, BitSteps, Word, Fold;
    var v, w := Word(a[3], a[2], a[1], a[0]), Word(b[3], b[2], b[1], b[0]);
    WordStep(crc, a[0], a[1], a[2], a[3]);
    WordStep(crc, b[0], b[1], b[2], b[3]);
    BitStepsInjective(Xor32(crc, v), Xor32(crc, w), 32);
    XorCancels(v, w, crc);
    WordInjective(a[3], a[2], a[1], a[0], b[3], b[2], b[1], b[0]);
  }

  /** a and b have the same length and differ at most in the aligned word at `at`. */
  ghost predicate DifferOnlyInWord(a: seq<byte>, b: seq<byte>, at: nat) {
    && |a| == |b|
    && at % 4 == 0
    && forall i :: 0 <= i < |a| && !(at <= i < at + 4) ==> a[i] == b[i]
  }

  lemma {:induction false} FoldDetectsWord(crc: bv32, a: seq<byte>, b: seq<byte>, at: nat)
    requires DifferOnlyInWord(a, b, at)
    requires Fold(crc, WordReversed(a)) == Fold(crc, WordReversed(b))
    ensures a == b
    decreases |a|
  {
    hide ByteStep;
    if |a| >= 4 {
      var u, v := [a[3], a[2], a[1], a[0]], [b[3], b[2], b[1], b[0]];
      FoldAppend(crc, u, WordReversed(a[4..]));
      FoldAppend(crc, v, WordReversed(b[4..]));
      if at == 0 {
        assert a[4..] == b[4..];
        FoldInjective(Fold(crc, u), Fold(crc, v), WordReversed(a[4..]));
        WordDetected(crc, a[..4], b[..4]);
        assert a == a[..4] + a[4..] && b == b[..4] + b[4..];
      } else {
        assert u == v;
        FoldDetectsWord(Fold(crc, u), a[4..], b[4..], at - 4);
        assert a == a[..4] + a[4..] && b == b[..4] + b[4..];
      }
    } else if at == 0 && |a| > 0 {
      PaddedReversed(a);
      PaddedReversed(b);
      WordDetected(crc, Padded(a), Padded(b));
      assert a == Padded(a)[..|a|] && b == Padded(b)[..|a|];
    }
  }

  function Padded(a: seq<byte>): seq<byte>
    requires |a| <= 4
  {
    a + Zeros(4 - |a|)
  }

  lemma PaddedReversed(a: seq<byte>)
    requires 0 < |a| < 4
    ensures WordReversed(a) == [Padded(a)[3], Padded(a)[2], Padded(a)[1], Padded(a)[0]]
  {
  }

  /** No change confined to one aligned word leaves the CRC as it was. */
  lemma CrcDetectsWord(a: seq<byte>, b: seq<byte>, at: nat)
    requires DifferOnlyInWord(a, b, at)
    ensures Crc(a) == Crc(b) <==> a == b
  {
    if Crc(a) == Crc(b) {
      FoldDetectsWord(INIT, a, b, at);
    }
  }

  // ----- the CRC is affine over XOR

  lemma LiftXor(a: byte, b: byte)
    ensures Lift(a ^ b) == Xor32(Lift(a), Lift(b))
  {
  }

  lemma ByteStepXor(a: byte, b: byte, c: bv32, d: bv32)
    ensures ByteStep(a ^ b, Xor32(c, d)) == Xor32(ByteStep(a, c), ByteStep(b, d))
  {
    LiftXor(a, b);
    hide Xor32, Lift, BitSteps;
    XorSwap(c, d, Lift(a), Lift(b));
    BitStepsXor(Xor32(c, Lift(a)), Xor32(d, Lift(b)), 8);
  }

  lemma {:induction false} FoldXor(c: bv32, d: bv32, a: seq<byte>, b: seq<byte>)
    requires |a| == |b|
    ensures Fold(Xor32(c, d), Xor(a, b)) == Xor32(Fold(c, a), Fold(d, b))
    decreases a
  {
    hide ByteStep, Xor32;
    if a != [] {
      ByteStepXor(a[0], b[0], c, d);
      FoldXor(ByteStep(a[0], c), ByteStep(b[0], d), a[1..], b[1..]);
      assert Xor(a, b)[1..] == Xor(a[1..], b[1..]);
    }
  }

  lemma XorAppend(a: seq<byte>, b: seq<byte>, c: seq<byte>, d: seq<byte>)
    requires |a| == |b| && |c| == |d|
    ensures Xor(a + c, b + d) == Xor(a, b) + Xor(c, d)
  {
    hide XorByte;
  }

  lemma TailReversedXor(a: seq<byte>, b: seq<byte>)
    requires |a| == |b| < 4
    ensures |WordReversed(a)| == |WordReversed(b)|
    ensures WordReversed(Xor(a, b)) == Xor(WordReversed(a), WordReversed(b))
  {
    if |a| == 3 {
    } else if |a| == 2 {
    } else if |a| == 1 {
    }
  }

  /** The first word of the reversed message. */
  lemma {:induction false} WordReversedHead(a: seq<byte>)
    requires |a| >= 4
    ensures WordReversed(a) == [a[3], a[2], a[1], a[0]] + WordReversed(a[4..])
  {
  }

  lemma {:induction false} WordReversedXor(a: seq<byte>, b: seq<byte>)
    requires |a| == |b|
    ensures |WordReversed(a)| == |WordReversed(b)|
    ensures WordReversed(Xor(a, b)) == Xor(WordReversed(a), WordReversed(b))
    decreases |a|
  {
    if |a| >= 4 {
      WordReversedXor(a[4..], b[4..]);
      assert Xor(a, b)[4..] == Xor(a[4..], b[4..]);
      WordReversedHead(a);
      WordReversedHead(b);
      WordReversedHead(Xor(a, b));
      hide WordReversed, XorByte;
      var x, y := [a[3], a[2], a[1], a[0]], [b[3], b[2], b[1], b[0]];
      XorAppend(x, y, WordReversed(a[4..]), WordReversed(b[4..]));
      assert Xor(x, y) == [Xor(a, b)[3], Xor(a, b)[2], Xor(a, b)[1], Xor(a, b)[0]];
    } else {
      TailReversedXor(a, b);
    }
  }

  /** crc(a ^ b) ^ crc(0) = crc(a) ^ crc(b) for messages of one length. */
  lemma CrcAffine(a: seq<byte>, b: seq<byte>)
    requires |a| == |b|
    ensures Xor32(Crc(Xor(a, b)), Crc(Zeros(|a|))) == Xor32(Crc(a), Crc(b))
  {
    hide Fold, WordReversed, Xor32;
    var x, z := Xor(a, b), Zeros(|a|);
    WordReversedXor(a, b);
    WordReversedXor(x, z);
    FoldXor(INIT, INIT, WordReversed(a), WordReversed(b));
    FoldXor(INIT, INIT, WordReversed(x), WordReversed(z));
    assert Xor(x, z) == x;
  }

  /** A message counts as filled up with zeros to whole words. */
  lemma {:induction false} PaddingIsZeros(data: seq<byte>)
    ensures var pad := if |data| % 4 == 0 then 0 else 4 - |data| % 4;
            WordReversed(data + Zeros(pad)) == WordReversed(data) && Crc(data + Zeros(pad)) == Crc(data)
    decreases |data|
  {
    hide WordReversed, Fold;
    var pad := if |data| % 4 == 0 then 0 else 4 - |data| % 4;
    if |data| >= 4 {
      PaddingIsZeros(data[4..]);
      var full := data + Zeros(pad);
      assert full[4..] == data[4..] + Zeros(pad);
      WordReversedHead(data);
      WordReversedHead(full);
      assert full[0] == data[0] && full[1] == data[1] && full[2] == data[2] && full[3] == data[3];
    } else {
      ShortPadding(data);
    }
  }

  lemma {:induction false} ShortPadding(data: seq<byte>)
    requires |data| < 4
    ensures WordReversed(data + Zeros(if |data| == 0 then 0 else 4 - |data|)) == WordReversed(data)
  {
    if |data| == 0 {
      assert data + Zeros(0) == [];
    } else {
      var full := data + Zeros(4 - |data|);
      WordReversedHead(full);
      assert full[4..] == [];
    }
  }

  /** Of all words only the one of ones has the CRC 0: it cancels the initial register. */
  lemma OnlyOnesCancel(word: seq<byte>)
    requires |word| == 4
    ensures Crc(word) == 0 <==> word == [0xFF, 0xFF, 0xFF, 0xFF]
  {
    hide Xor32, BitSteps, Word, Fold;
    WordReversedHead(word);
    assert WordReversed(word) == [word[3], word[2], word[1], word[0]];
    var x := Xor32(INIT, Word(word[3], word[2], word[1], word[0]));
    WordStep(INIT, word[0], word[1], word[2], word[3]);
    ZeroStays(32);
    if BitSteps(x, 32) == 0 {
      BitStepsInjective(x, 0, 32);
    }
    XorZero(INIT, Word(word[3], word[2], word[1], word[0]));
    OnesAreInit(word[3], word[2], word[1], word[0]);
    assert word == [word[0], word[1], word[2], word[3]];
  }

  lemma OnesAreInit(b3: byte, b2: byte, b1: byte, b0: byte)
    ensures INIT == Word(b3, b2, b1, b0) <==> b3 == 0xFF && b2 == 0xFF && b1 == 0xFF && b0 == 0xFF
  {
  }

  /** The CRC of a word of zeros, as the STM32 unit gives it. */
  lemma KnownValue()
    ensures Crc([0, 0, 0, 0]) == 0xC704_DD7B
  {
    hide BitSteps, ByteStep;
    assert WordReversed([0, 0, 0, 0]) == [0, 0, 0, 0];
    FourSteps(0, 0, 0, 0);
    KnownSteps();
  }

  lemma FourSteps(b0: byte, b1: byte, b2: byte, b3: byte)
    ensures Fold(INIT, [b0, b1, b2, b3]) == TableStep(b3, TableStep(b2, TableStep(b1, TableStep(b0, INIT))))
  {
    hide ByteStep, TableStep;
    var c1 := TableStep(b0, INIT);
    var c2 := TableStep(b1, c1);
    var c3 := TableStep(b2, c2);
    TableStepIsByteStep(b0, INIT);
    TableStepIsByteStep(b1, c1);
    TableStepIsByteStep(b2, c2);
    TableStepIsByteStep(b3, c3);
    FoldFirst(INIT, b0, [b1, b2, b3]);
    FoldFirst(c1, b1, [b2, b3]);
    FoldFirst(c2, b2, [b3]);
    FoldFirst(c3, b3, []);
  }

  lemma FoldFirst(c: bv32, b: byte, rest: seq<byte>)
    ensures Fold(c, [b] + rest) == Fold(ByteStep(b, c), rest) && Fold(c, []) == c
  {
    hide ByteStep;
    assert ([b] + rest)[1..] == rest;
  }

  lemma KnownSteps()
    ensures TableStep(0, TableStep(0, TableStep(0, TableStep(0, INIT)))) == 0xC704_DD7B
  {
    assert TableStep(0, 0xFFFF_FFFF) == 0x4E08_BFB4;
    assert TableStep(0, 0x4E08_BFB4) == 0x00B7_647D;
    assert TableStep(0, 0x00B7_647D) == 0xB764_7D00;
    assert TableStep(0, 0xB764_7D00) == 0xC704_DD7B;
  }

  lemma StepOfZero()
    ensures BitStep(0) == 0
  {
  }

  lemma {:induction false} ZeroStays(n: nat)
    ensures BitSteps(0, n) == 0
  {
    StepOfZero();
    hide BitStep;
    if n > 0 {
      ZeroStays(n - 1);
    }
  }
}

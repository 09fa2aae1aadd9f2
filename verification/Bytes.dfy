/** Bytes and the big-endian fields built from them. */
module Bytes {
  type byte = bv8

  type u16 = n: int | 0 <= n < 0x1_0000
  type u32 = n: int | 0 <= n < 0x1_0000_0000

  function IntOf(b: byte): (n: int)
    ensures 0 <= n < 0x100
  {
    b as int
  }

  function ByteOf(n: int): byte
    requires 0 <= n < 0x100
  {
    n as byte
  }

  lemma IntOfByteOf(n: int)
    requires 0 <= n < 0x100
    ensures IntOf(ByteOf(n)) == n
  {
    assert n % 0x100 == n;
  }

  lemma ByteOfIntOf(b: byte)
    ensures ByteOf(IntOf(b)) == b
  {
  }

  lemma Digits(hi: int, lo: int)
    ensures 0 <= lo < 0x100 ==> (hi * 0x100 + lo) / 0x100 == hi && (hi * 0x100 + lo) % 0x100 == lo
    ensures 0 <= lo < 0x1_0000 ==> (hi * 0x1_0000 + lo) / 0x1_0000 == hi && (hi * 0x1_0000 + lo) % 0x1_0000 == lo
  {
  }

  function U16Bytes(n: u16): (s: seq<byte>)
    ensures |s| == 2
  {
    [ByteOf(n / 0x100), ByteOf(n % 0x100)]
  }

  function U16At(s: seq<byte>, at: nat): (n: u16)
    requires at + 2 <= |s|
  {
    IntOf(s[at]) * 0x100 + IntOf(s[at + 1])
  }

  function U32Bytes(n: u32): (s: seq<byte>)
    ensures |s| == 4
  {
    U16Bytes(n / 0x1_0000) + U16Bytes(n % 0x1_0000)
  }

  function U32At(s: seq<byte>, at: nat): (n: u32)
    requires at + 4 <= |s|
  {
    U16At(s, at) * 0x1_0000 + U16At(s, at + 2)
  }

  lemma U16RoundTrip(n: u16)
    ensures U16At(U16Bytes(n), 0) == n
  {
    hide IntOf, ByteOf;
    IntOfByteOf(n / 0x100);
    IntOfByteOf(n % 0x100);
  }

  lemma U16OfParts(s: seq<byte>, at: nat)
    requires at + 2 <= |s|
    ensures U16Bytes(U16At(s, at)) == s[at..at + 2]
  {
    hide IntOf, ByteOf;
    var hi, lo := IntOf(s[at]), IntOf(s[at + 1]);
    Digits(hi, lo);
    ByteOfIntOf(s[at]);
    ByteOfIntOf(s[at + 1]);
  }

  /** Reading a field back from where it was written. */
  lemma U16Written(s: seq<byte>, at: nat, n: u16)
    requires at + 2 <= |s| && s[at..at + 2] == U16Bytes(n)
    ensures U16At(s, at) == n
  {
    U16RoundTrip(n);
    assert s[at] == s[at..at + 2][0] && s[at + 1] == s[at..at + 2][1];
  }

  lemma U32Written(s: seq<byte>, at: nat, n: u32)
    requires at + 4 <= |s| && s[at..at + 4] == U32Bytes(n)
    ensures U32At(s, at) == n
  {
    assert s[at..at + 2] == s[at..at + 4][..2];
    assert s[at + 2..at + 4] == s[at..at + 4][2..];
    U16Written(s, at, n / 0x1_0000);
    U16Written(s, at + 2, n % 0x1_0000);
  }

  lemma U32OfParts(s: seq<byte>, at: nat)
    requires at + 4 <= |s|
    ensures U32Bytes(U32At(s, at)) == s[at..at + 4]
  {
    U16OfParts(s, at);
    U16OfParts(s, at + 2);
    Digits(U16At(s, at), U16At(s, at + 2));
    var n := U32At(s, at);
    assert n / 0x1_0000 == U16At(s, at) && n % 0x1_0000 == U16At(s, at + 2);
    hide U16At;
    assert U32Bytes(n) == s[at..at + 2] + s[at + 2..at + 4];
  }

  /** A field holds n exactly if its bytes are those of n. */
  lemma FieldIff(s: seq<byte>, at: nat, n: int)
    ensures at + 2 <= |s| && 0 <= n < 0x1_0000 ==> (U16At(s, at) == n <==> s[at..at + 2] == U16Bytes(n))
    ensures at + 4 <= |s| && 0 <= n < 0x1_0000_0000 ==> (U32At(s, at) == n <==> s[at..at + 4] == U32Bytes(n))
  {
    hide U16At, U16Bytes, U32At, U32Bytes;
    if at + 2 <= |s| && 0 <= n < 0x1_0000 {
      U16OfParts(s, at);
      if s[at..at + 2] == U16Bytes(n) {
        U16Written(s, at, n);
      }
    }
    if at + 4 <= |s| && 0 <= n < 0x1_0000_0000 {
      U32OfParts(s, at);
      if s[at..at + 4] == U32Bytes(n) {
        U32Written(s, at, n);
      }
    }
  }

  /** The most significant byte comes first. */
  lemma MostSignificantFirst()
    ensures U16Bytes(0x0102) == [1, 2] && U32Bytes(0x0102_0304) == [1, 2, 3, 4] && WordBytes(0x0102_0304) == [1, 2, 3, 4]
  {
  }

  /** The four bytes of a machine word, most significant first. */
  function WordBytes(w: bv32): (s: seq<byte>)
    ensures |s| == 4
  {
    [((w >> 24) & 0xFF) as byte, ((w >> 16) & 0xFF) as byte, ((w >> 8) & 0xFF) as byte, (w & 0xFF) as byte]
  }

  function Word(b3: byte, b2: byte, b1: byte, b0: byte): bv32 {
    ((b3 as bv32) << 24) | ((b2 as bv32) << 16) | ((b1 as bv32) << 8) | (b0 as bv32)
  }

  function WordAt(s: seq<byte>, at: nat): bv32
    requires at + 4 <= |s|
  {
    Word(s[at], s[at + 1], s[at + 2], s[at + 3])
  }

  lemma WordInjective(a3: byte, a2: byte, a1: byte, a0: byte, b3: byte, b2: byte, b1: byte, b0: byte)
    requires Word(a3, a2, a1, a0) == Word(b3, b2, b1, b0)
    ensures a3 == b3 && a2 == b2 && a1 == b1 && a0 == b0
  {
    WordParts(a3, a2, a1, a0);
    WordParts(b3, b2, b1, b0);
  }

  lemma WordParts(b3: byte, b2: byte, b1: byte, b0: byte)
    ensures WordBytes(Word(b3, b2, b1, b0)) == [b3, b2, b1, b0]
  {
  }

  lemma WordWritten(s: seq<byte>, at: nat, w: bv32)
    requires at + 4 <= |s| && s[at..at + 4] == WordBytes(w)
    ensures WordAt(s, at) == w
  {
    var t := s[at..at + 4];
    assert s[at] == t[0] && s[at + 1] == t[1] && s[at + 2] == t[2] && s[at + 3] == t[3];
  }

  lemma WordOfParts(s: seq<byte>, at: nat)
    requires at + 4 <= |s|
    ensures WordBytes(WordAt(s, at)) == s[at..at + 4]
  {
    WordParts(s[at], s[at + 1], s[at + 2], s[at + 3]);
  }

  function XorByte(a: byte, b: byte): byte {
    a ^ b
  }

  function Xor(a: seq<byte>, b: seq<byte>): (c: seq<byte>)
    requires |a| == |b|
    ensures |c| == |a| && forall i :: 0 <= i < |c| ==> c[i] == XorByte(a[i], b[i])
  {
    seq(|a|, i requires 0 <= i < |a| => XorByte(a[i], b[i]))
  }

  function Zeros(n: nat): (s: seq<byte>)
    ensures |s| == n && forall i :: 0 <= i < n ==> s[i] == 0
  {
    seq(n, _ => 0)
  }
}

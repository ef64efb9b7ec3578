/** Integers as byte strings in either order, and exclusive-or on both. */
module Bytes {
  import opened Types
  import opened Format

  function Pow2(k: nat): (p: nat)
    ensures p > 0
  {
    if k == 0 then 1 else 2 * Pow2(k - 1)
  }

  // ---------------------------------------------------------------- byte strings

  /** The `width` low bytes of n, least significant first. */
  function LittleEndian(n: nat, width: nat): (s: seq<byte>)
    ensures |s| == width
  {
    if width == 0 then [] else [n % 256] + LittleEndian(n / 256, width - 1)
  }

  function FromLittleEndian(s: seq<byte>): nat {
    if s == [] then 0 else s[0] + 256 * FromLittleEndian(s[1..])
  }

  function Reverse<T>(s: seq<T>): (r: seq<T>)
    ensures |r| == |s|
  {
    seq(|s|, i requires 0 <= i < |s| => s[|s| - 1 - i])
  }

  /** The `width` low bytes of n, most significant first. */
  function BigEndian(n: nat, width: nat): (s: seq<byte>)
    ensures |s| == width
  {
    Reverse(LittleEndian(n, width))
  }

  function FromBigEndian(s: seq<byte>): nat {
    FromLittleEndian(Reverse(s))
  }

  lemma LittleEndianCons(low: byte, high: nat, width: nat)
    requires width > 0
    ensures LittleEndian(low + 256 * high, width) == [low] + LittleEndian(high, width - 1)
  {
    var n := low + 256 * high;
    assert n % 256 == low && n / 256 == high;
  }

  lemma {:induction false} LittleEndianRead(n: nat, width: nat)
    requires n < Pow2(8 * width)
    ensures FromLittleEndian(LittleEndian(n, width)) == n
  {
    if width > 0 {
      Pow2Byte(8 * width - 8);
      assert LittleEndian(n, width)[1..] == LittleEndian(n / 256, width - 1);
      LittleEndianRead(n / 256, width - 1);
    }
  }

  lemma {:induction false} LittleEndianWrite(s: seq<byte>)
    ensures FromLittleEndian(s) < Pow2(8 * |s|)
    ensures LittleEndian(FromLittleEndian(s), |s|) == s
  {
    if s != [] {
      LittleEndianWrite(s[1..]);
      Pow2Byte(8 * |s| - 8);
    }
  }

  lemma ReverseReverse<T>(s: seq<T>)
    ensures Reverse(Reverse(s)) == s
  {
  }

  lemma BigEndianRead(n: nat, width: nat)
    requires n < Pow2(8 * width)
    ensures FromBigEndian(BigEndian(n, width)) == n
  {
    ReverseReverse(LittleEndian(n, width));
    LittleEndianRead(n, width);
  }

  lemma BigEndianWrite(s: seq<byte>)
    ensures FromBigEndian(s) < Pow2(8 * |s|)
    ensures BigEndian(FromBigEndian(s), |s|) == s
  {
    ReverseReverse(s);
    LittleEndianWrite(Reverse(s));
  }

  /** The last octet is the least significant. */
  lemma BigEndianStep(s: seq<byte>)
    requires s != []
    ensures FromBigEndian(s) == 256 * FromBigEndian(s[..|s| - 1]) + s[|s| - 1]
  {
    assert Reverse(s)[1..] == Reverse(s[..|s| - 1]);
  }

  lemma BigEndianTwo(s: seq<byte>)
    requires |s| == 2
    ensures FromBigEndian(s) == Octets2(s[0], s[1])
  {
    BigEndianStep(s);
    BigEndianStep(s[..1]);
    assert s[..1][..0] == [];
  }

  lemma BigEndianEight(s: seq<byte>)
    requires |s| == 8
    ensures FromBigEndian(s) == Octets8(s[0], s[1], s[2], s[3], s[4], s[5], s[6], s[7])
  {
    hide FromBigEndian;
    BigEndianStep(s);
    BigEndianStep(s[..7]);
    assert s[..7][..6] == s[..6];
    BigEndianStep(s[..6]);
    assert s[..6][..5] == s[..5];
    BigEndianStep(s[..5]);
    assert s[..5][..4] == s[..4];
    BigEndianStep(s[..4]);
    assert s[..4][..3] == s[..3];
    BigEndianStep(s[..3]);
    assert s[..3][..2] == s[..2];
    BigEndianTwo(s[..2]);
  }

  lemma Pow2Byte(k: nat)
    ensures Pow2(k + 8) == 256 * Pow2(k)
  {
    assert Pow2(k + 8) == 4 * Pow2(k + 6);
    assert Pow2(k + 6) == 4 * Pow2(k + 4);
    assert Pow2(k + 4) == 4 * Pow2(k + 2);
  }

  lemma Pow2Values()
    ensures Pow2(8) == 256 && Pow2(16) == 65536 && Pow2(64) == 0x1_0000_0000_0000_0000
  {
    Pow2Byte(0); Pow2Byte(8); Pow2Byte(16); Pow2Byte(24);
    Pow2Byte(32); Pow2Byte(40); Pow2Byte(48); Pow2Byte(56);
  }

  // ---------------------------------------------------------------- exclusive or

  function Bit(a: nat, b: nat): nat {
    if a % 2 == b % 2 then 0 else 1
  }

  /** Exclusive or of the `bits` low bits, one bit at a time. */
  function Xor(a: nat, b: nat, bits: nat): (r: nat)
    ensures r < Pow2(bits)
  {
    if bits == 0 then 0
    else Bit(a, b) + 2 * Xor(a / 2, b / 2, bits - 1)
  }

  function BitOf(n: nat, i: nat): (b: nat)
    ensures b <= 1
  {
    if i == 0 then n % 2 else BitOf(n / 2, i - 1)
  }

  /** Bit i of the result is set exactly when the operands differ in bit i. */
  lemma {:induction false} XorBit(a: nat, b: nat, bits: nat, i: nat)
    requires i < bits
    ensures BitOf(Xor(a, b, bits), i) == 1 <==> BitOf(a, i) != BitOf(b, i)
  {
    if i > 0 { XorBit(a / 2, b / 2, bits - 1, i - 1); }
  }

  function XorByte(a: byte, b: byte): byte {
    Pow2Values();
    Xor(a, b, 8)
  }

  /** A set key bit flips the bit of the octet, a clear one keeps it. */
  lemma XorByteBit(a: byte, k: byte, i: nat)
    requires i < 8
    ensures BitOf(XorByte(a, k), i) != BitOf(a, i) <==> BitOf(k, i) == 1
  {
    XorBit(a, k, 8, i);
  }

  lemma {:induction false} XorInvolution(a: nat, b: nat, bits: nat)
    requires a < Pow2(bits)
    ensures Xor(Xor(a, b, bits), b, bits) == a
  {
    if bits > 0 { XorInvolution(a / 2, b / 2, bits - 1); }
  }

  /** x shifted left by k bits. */
  function Shift(x: nat, k: nat): nat {
    if k == 0 then x else 2 * Shift(x, k - 1)
  }

  /** Exclusive or works on the low k bits and the rest independently. */
  lemma {:induction false} XorSplit(a: nat, a': nat, b: nat, b': nat, k: nat, bits: nat)
    requires a < Pow2(k) && b < Pow2(k)
    ensures Xor(a + Shift(a', k), b + Shift(b', k), k + bits) == Xor(a, b, k) + Shift(Xor(a', b', bits), k)
    decreases k
  {
    if k > 0 {
      XorSplit(a / 2, a', b / 2, b', k - 1, bits);
      HalveSum(a, Shift(a', k - 1));
      HalveSum(b, Shift(b', k - 1));
      assert k + bits - 1 == k - 1 + bits;
    }
  }

  lemma HalveSum(a: nat, q: nat)
    ensures (a + 2 * q) % 2 == a % 2 && (a + 2 * q) / 2 == a / 2 + q
  {
  }

  lemma ShiftByte(x: nat)
    ensures Shift(x, 8) == 256 * x
  {
    assert Shift(x, 8) == 4 * Shift(x, 6);
    assert Shift(x, 6) == 4 * Shift(x, 4);
    assert Shift(x, 4) == 4 * Shift(x, 2);
    assert Shift(x, 1) == 2 * Shift(x, 0);
  }

  function XorSeq(s: seq<byte>, k: seq<byte>): (r: seq<byte>)
    requires |s| == |k|
    ensures |r| == |s|
  {
    seq(|s|, i requires 0 <= i < |s| => XorByte(s[i], k[i]))
  }

  /** Combining two little-endian words is combining their bytes. */
  lemma {:induction false} XorWordLittle(s: seq<byte>, k: seq<byte>)
    requires |s| == |k|
    ensures LittleEndian(Xor(FromLittleEndian(s), FromLittleEndian(k), 8 * |s|), |s|) == XorSeq(s, k)
  {
    if s != [] {
      var n, a, b := |s|, FromLittleEndian(s[1..]), FromLittleEndian(k[1..]);
      XorWordLittle(s[1..], k[1..]);
      XorLowByte(s[0], a, k[0], b, 8 * n - 8);
      LittleEndianCons(XorByte(s[0], k[0]), Xor(a, b, 8 * n - 8), n);
      hide Xor, XorByte;
      assert XorSeq(s, k) == [XorByte(s[0], k[0])] + XorSeq(s[1..], k[1..]);
    }
  }

  lemma XorLowByte(s: byte, a: nat, k: byte, b: nat, bits: nat)
    ensures Xor(s + 256 * a, k + 256 * b, 8 + bits) == XorByte(s, k) + 256 * Xor(a, b, bits)
  {
    Pow2Values();
    ShiftByte(a);
    ShiftByte(b);
    ShiftByte(Xor(a, b, bits));
    XorSplit(s, a, k, b, 8, bits);
  }

  /** Combining two big-endian words is combining their bytes. */
  lemma XorWordBig(s: seq<byte>, k: seq<byte>)
    requires |s| == |k|
    ensures BigEndian(Xor(FromBigEndian(s), FromBigEndian(k), 8 * |s|), |s|) == XorSeq(s, k)
  {
    hide Xor, XorByte, FromLittleEndian, LittleEndian;
    XorWordLittle(Reverse(s), Reverse(k));
    ReverseXor(s, k);
  }

  lemma ReverseXor(s: seq<byte>, k: seq<byte>)
    requires |s| == |k|
    ensures Reverse(XorSeq(Reverse(s), Reverse(k))) == XorSeq(s, k)
  {
    hide Xor, XorByte;
  }

  /** Overwrites buf[at..at + |bytes|]. */
  method CopyInto(buf: array<byte>, at: nat, bytes: seq<byte>)
    requires at + |bytes| <= buf.Length
    modifies buf
    ensures buf[..] == old(buf[..at]) + bytes + old(buf[at + |bytes|..])
  {
    for i := 0 to |bytes|
      invariant buf[..] == old(buf[..at]) + bytes[..i] + old(buf[at + i..])
    {
      buf[at + i] := bytes[i];
    }
  }
}

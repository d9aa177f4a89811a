/** Machine integers, big- and little-endian byte strings, and bitwise exclusive or. */
module Bytes {

  type byte = x: int | 0 <= x < 0x100
  type u8 = byte
  type u16 = x: int | 0 <= x < 0x1_0000
  type u32 = x: int | 0 <= x < 0x1_0000_0000
  type u64 = x: int | 0 <= x < 0x1_0000_0000_0000_0000

  const U16_MAX: nat := 0xffff
  const U32_MAX: nat := 0xffff_ffff

  /** Byte strings one after another. */
  function Flatten(pieces: seq<seq<byte>>): seq<byte> {
    if |pieces| == 0 then [] else pieces[0] + Flatten(pieces[1..])
  }

  /** 256 to the power of `width`: how many values `width` bytes can hold. */
  function Pow256(width: nat): (p: nat)
    ensures p > 0
  {
    if width == 0 then 1 else 256 * Pow256(width - 1)
  }

  lemma Pow256Values()
    ensures Pow256(2) == 0x1_0000
    ensures Pow256(4) == 0x1_0000_0000
    ensures Pow256(8) == 0x1_0000_0000_0000_0000
  {
    assert Pow256(2) == 256 * Pow256(1);
    assert Pow256(4) == 256 * (256 * Pow256(2));
    assert Pow256(6) == 256 * (256 * Pow256(4));
    assert Pow256(8) == 256 * (256 * Pow256(6));
  }

  /** The byte of `x` that stands `j` places above the lowest. */
  function Digit(x: nat, j: nat): byte
    decreases j
  {
    if j == 0 then x % 256 else Digit(x / 256, j - 1)
  }

  /** `x` as `width` big-endian bytes. */
  function BigEndian(x: nat, width: nat): (bytes: seq<byte>)
    ensures |bytes| == width
  {
    seq(width, i requires 0 <= i < width => Digit(x, width - 1 - i))
  }

  /** The number the first `k` bytes spell in big-endian order. */
  function FromBigEndian(bytes: seq<byte>, k: nat): nat
    requires k <= |bytes|
  {
    if k == 0 then 0 else FromBigEndian(bytes, k - 1) * 256 + bytes[k - 1]
  }

  lemma {:induction false} FromBigEndianBound(bytes: seq<byte>, k: nat)
    requires k <= |bytes|
    ensures FromBigEndian(bytes, k) < Pow256(k)
  {
    if k > 0 {
      FromBigEndianBound(bytes, k - 1);
    }
  }

  /** Dropping the last byte divides by 256. */
  lemma BigEndianFront(x: nat, width: nat)
    requires width > 0
    ensures BigEndian(x, width) == BigEndian(x / 256, width - 1) + [x % 256]
  {
    var whole, front := BigEndian(x, width), BigEndian(x / 256, width - 1);
    assert whole[width - 1] == Digit(x, 0);
    forall i | 0 <= i < width - 1
      ensures whole[i] == front[i]
    {
      assert whole[i] == Digit(x, width - 1 - i) && front[i] == Digit(x / 256, width - 2 - i);
    }
  }

  /** The value of the first bytes does not depend on what follows them. */
  lemma {:induction false} FromBigEndianPrefix(bytes: seq<byte>, more: seq<byte>, k: nat)
    requires k <= |bytes|
    ensures FromBigEndian(bytes + more, k) == FromBigEndian(bytes, k)
  {
    if k > 0 {
      FromBigEndianPrefix(bytes, more, k - 1);
    }
  }

  lemma {:induction false} BigEndianInverse(x: nat, width: nat)
    requires x < Pow256(width)
    ensures FromBigEndian(BigEndian(x, width), width) == x
    decreases width
  {
    if width > 0 {
      BigEndianFront(x, width);
      BigEndianInverse(x / 256, width - 1);
      FromBigEndianPrefix(BigEndian(x / 256, width - 1), [x % 256], width - 1);
    }
  }

  lemma {:induction false} FromBigEndianInverse(bytes: seq<byte>, k: nat)
    requires k <= |bytes|
    ensures BigEndian(FromBigEndian(bytes, k), k) == bytes[..k]
  {
    if k > 0 {
      FromBigEndianInverse(bytes, k - 1);
      var x := FromBigEndian(bytes, k);
      BigEndianFront(x, k);
      assert x / 256 == FromBigEndian(bytes, k - 1) && x % 256 == bytes[k - 1];
      assert bytes[..k] == bytes[..k - 1] + [bytes[k - 1]];
    }
  }

  function Be16(x: u16): (bytes: seq<byte>)
    ensures |bytes| == 2
  {
    BigEndian(x, 2)
  }

  function Be32(x: u32): (bytes: seq<byte>)
    ensures |bytes| == 4
  {
    BigEndian(x, 4)
  }

  function Be64(x: u64): (bytes: seq<byte>)
    ensures |bytes| == 8
  {
    BigEndian(x, 8)
  }

  function ReadU16(bytes: seq<byte>): u16
    requires |bytes| == 2
  {
    FromBigEndianBound(bytes, 2); Pow256Values();
    FromBigEndian(bytes, 2)
  }

  function ReadU32(bytes: seq<byte>): u32
    requires |bytes| == 4
  {
    FromBigEndianBound(bytes, 4); Pow256Values();
    FromBigEndian(bytes, 4)
  }

  function ReadU64(bytes: seq<byte>): u64
    requires |bytes| == 8
  {
    FromBigEndianBound(bytes, 8); Pow256Values();
    FromBigEndian(bytes, 8)
  }

  lemma RoundTrip16(x: u16)
    ensures ReadU16(Be16(x)) == x
  {
    Pow256Values();
    BigEndianInverse(x, 2);
  }

  lemma RoundTrip32(x: u32)
    ensures ReadU32(Be32(x)) == x
  {
    Pow256Values();
    BigEndianInverse(x, 4);
  }

  lemma RoundTrip64(x: u64)
    ensures ReadU64(Be64(x)) == x
  {
    Pow256Values();
    BigEndianInverse(x, 8);
  }

  lemma Canonical16(bytes: seq<byte>)
    requires |bytes| == 2
    ensures Be16(ReadU16(bytes)) == bytes
  {
    FromBigEndianInverse(bytes, 2);
    assert bytes[..2] == bytes;
  }

  lemma Canonical32(bytes: seq<byte>)
    requires |bytes| == 4
    ensures Be32(ReadU32(bytes)) == bytes
  {
    FromBigEndianInverse(bytes, 4);
    assert bytes[..4] == bytes;
  }

  lemma Canonical64(bytes: seq<byte>)
    requires |bytes| == 8
    ensures Be64(ReadU64(bytes)) == bytes
  {
    FromBigEndianInverse(bytes, 8);
    assert bytes[..8] == bytes;
  }

  /** The most significant byte comes first. */
  lemma Be16Bytes(bytes: seq<byte>, x: u16)
    requires |bytes| == 2 && x == (bytes[0] as int) * 0x100 + bytes[1]
    ensures Be16(x) == bytes
  {
    Canonical16(bytes);
  }

  lemma Be32Bytes(bytes: seq<byte>, x: u32)
    requires |bytes| == 4
    requires x == (bytes[0] as int) * 0x100_0000 + (bytes[1] as int) * 0x1_0000 + (bytes[2] as int) * 0x100 + bytes[3]
    ensures Be32(x) == bytes
  {
    assert FromBigEndian(bytes, 1) == FromBigEndian(bytes, 0) * 0x100 + bytes[0] == bytes[0];
    assert FromBigEndian(bytes, 2) == (bytes[0] as int) * 0x100 + bytes[1];
    assert FromBigEndian(bytes, 4) == (FromBigEndian(bytes, 2) * 0x100 + bytes[2]) * 0x100 + bytes[3];
    Canonical32(bytes);
  }

  lemma Be64Bytes(bytes: seq<byte>, x: u64)
    requires |bytes| == 8
    requires x == ((bytes[0] as int) * 0x100_0000 + (bytes[1] as int) * 0x1_0000 +
                   (bytes[2] as int) * 0x100 + bytes[3]) * 0x1_0000_0000 +
                  ((bytes[4] as int) * 0x100_0000 + (bytes[5] as int) * 0x1_0000 + (bytes[6] as int) * 0x100 + bytes[7])
    ensures Be64(x) == bytes
  {
    assert FromBigEndian(bytes, 1) == FromBigEndian(bytes, 0) * 0x100 + bytes[0] == bytes[0];
    assert FromBigEndian(bytes, 2) == (bytes[0] as int) * 0x100 + bytes[1];
    assert FromBigEndian(bytes, 4) == (FromBigEndian(bytes, 2) * 0x100 + bytes[2]) * 0x100 + bytes[3];
    assert FromBigEndian(bytes, 6) == (FromBigEndian(bytes, 4) * 0x100 + bytes[4]) * 0x100 + bytes[5];
    assert FromBigEndian(bytes, 8) == (FromBigEndian(bytes, 6) * 0x100 + bytes[6]) * 0x100 + bytes[7];
    Canonical64(bytes);
  }

  /** The bytes of a u64 in little-endian order. */
  function Le64(x: u64): (bytes: seq<byte>)
    ensures |bytes| == 8
  {
    seq(8, i requires 0 <= i < 8 => Digit(x, i))
  }

  lemma Le64Injective(x: u64, y: u64)
    requires Le64(x) == Le64(y)
    ensures x == y
  {
    forall i | 0 <= i < 8
      ensures Be64(x)[i] == Be64(y)[i]
    {
      assert Le64(x)[7 - i] == Le64(y)[7 - i];
    }
    assert Be64(x) == Be64(y);
    RoundTrip64(x);
    RoundTrip64(y);
  }

  /** Bitwise exclusive or of two natural numbers, bit by bit from the lowest. */
  function Xor(a: nat, b: nat): nat
    decreases a + b
  {
    if a == 0 && b == 0 then 0
    else 2 * Xor(a / 2, b / 2) + (if a % 2 != b % 2 then 1 else 0)
  }

  lemma {:induction false} XorInvolutive(a: nat, b: nat)
    ensures Xor(Xor(a, b), b) == a
    decreases a + b
  {
    if a != 0 || b != 0 {
      XorInvolutive(a / 2, b / 2);
      assert Xor(a, b) / 2 == Xor(a / 2, b / 2);
    }
  }

  lemma {:induction false} XorCommutes(a: nat, b: nat)
    ensures Xor(a, b) == Xor(b, a)
    decreases a + b
  {
    if a != 0 || b != 0 {
      XorCommutes(a / 2, b / 2);
    }
  }

  function Pow2(bits: nat): (p: nat)
    ensures p > 0
  {
    if bits == 0 then 1 else 2 * Pow2(bits - 1)
  }

  /** Exclusive or stays within the number of bits of its operands. */
  lemma {:induction false} XorBound(a: nat, b: nat, bits: nat)
    requires a < Pow2(bits) && b < Pow2(bits)
    ensures Xor(a, b) < Pow2(bits)
    decreases bits
  {
    if bits > 0 {
      XorBound(a / 2, b / 2, bits - 1);
    }
  }

  lemma Pow2Of16()
    ensures Pow2(16) == 0x1_0000
  {
    assert Pow2(4) == 16;
    Pow2Sum(4, 4);
    Pow2Sum(8, 8);
  }

  lemma Pow2Of32()
    ensures Pow2(32) == 0x1_0000_0000
  {
    Pow2Of16();
    Pow2Sum(16, 16);
  }

  lemma Pow2Of64()
    ensures Pow2(64) == 0x1_0000_0000_0000_0000
  {
    Pow2Of32();
    Pow2Sum(32, 32);
  }

  lemma {:induction false} Pow2Sum(a: nat, b: nat)
    ensures Pow2(a + b) == Pow2(a) * Pow2(b)
    decreases b
  {
    if b > 0 {
      Pow2Sum(a, b - 1);
    }
  }
}

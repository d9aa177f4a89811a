/** The checksum the chunks use, CRC-32 with the reflected polynomial 0xedb88320, computed bit by
    bit (crates/common/src/udp.rs, `checksum`). */
module Crc32 {
  import opened Bytes
  import opened Folds
  import opened UdpChunk
  import opened Reassembler
  import opened ChunkIntegrity

  const POLYNOMIAL: u32 := 0xedb8_8320
  const ALL_ONES: u32 := 0xffff_ffff

  function Xor32(a: u32, b: u32): u32 {
    Pow2Of32();
    XorBound(a, b, 32);
    Xor(a, b)
  }

  /** The lowest bit falls out; if it was set, the polynomial is added. */
  function BitStep(s: u32): u32 {
    if s % 2 == 1 then Xor32(s / 2, POLYNOMIAL) else s / 2
  }

  function BitSteps(s: u32, n: nat): u32 {
    if n == 0 then s else BitStep(BitSteps(s, n - 1))
  }

  function ByteStep(s: u32, b: byte): u32 {
    BitSteps(Xor32(s, b), 8)
  }

  const CRC32: Checksum := Checksum(ALL_ONES, ByteStep, s => Xor32(s, ALL_ONES))

  lemma XorCancels(a: nat, b: nat, c: nat)
    requires Xor(a, c) == Xor(b, c)
    ensures a == b
  {
    XorInvolutive(a, c);
    XorInvolutive(b, c);
  }

  /** A highest bit that only one operand has is in the result. */
  lemma {:induction false} XorKeepsTop(a: nat, b: nat, bits: nat)
    requires a < Pow2(bits) <= b < Pow2(bits + 1)
    ensures Xor(a, b) >= Pow2(bits)
  {
    if bits > 0 {
      XorKeepsTop(a / 2, b / 2, bits - 1);
    }
  }

  /** The polynomial's highest bit is set, so the result tells whether it was added. */
  lemma BitStepInjective(s: u32, t: u32)
    requires BitStep(s) == BitStep(t)
    ensures s == t
  {
    Pow2Of32();
    assert Pow2(32) == 2 * Pow2(31);
    if s % 2 == 1 {
      XorKeepsTop(s / 2, POLYNOMIAL, 31);
    }
    if t % 2 == 1 {
      XorKeepsTop(t / 2, POLYNOMIAL, 31);
    }
    if s % 2 == 1 && t % 2 == 1 {
      XorCancels(s / 2, t / 2, POLYNOMIAL);
    }
  }

  lemma {:induction false} BitStepsInjective(s: u32, t: u32, n: nat)
    requires BitSteps(s, n) == BitSteps(t, n)
    ensures s == t
  {
    hide BitStep;
    if n > 0 {
      BitStepInjective(BitSteps(s, n - 1), BitSteps(t, n - 1));
      BitStepsInjective(s, t, n - 1);
    }
  }

  /** CRC-32 loses nothing in any step. */
  lemma Crc32IsLossless()
    ensures Lossless(CRC32)
  {
    hide Xor, BitSteps;
    forall s: u32, t: u32, b: byte | ByteStep(s, b) == ByteStep(t, b)
      ensures s == t
    {
      BitStepsInjective(Xor32(s, b), Xor32(t, b), 8);
      XorCancels(s, t, b);
    }
    forall s: u32, b: byte, c: byte | ByteStep(s, b) == ByteStep(s, c)
      ensures b == c
    {
      BitStepsInjective(Xor32(s, b), Xor32(s, c), 8);
      XorCommutes(s, b);
      XorCommutes(s, c);
      XorCancels(b, c, s);
    }
    forall s: u32, t: u32 | CRC32.finish(s) == CRC32.finish(t)
      ensures s == t
    {
      XorCancels(s, t, ALL_ONES);
    }
  }

  /** So one wrong byte in one payload of an otherwise genuine group is always detected. */
  lemma Crc32DetectsChangedByte(pieces: seq<seq<byte>>, payloads: seq<seq<byte>>, i: nat, k: nat)
    requires |payloads| == |pieces| && i < |pieces|
    requires DifferAt(payloads[i], pieces[i], k)
    ensures !RingOk(CRC32, WithPayloads(CRC32, pieces, payloads))
  {
    Crc32IsLossless();
    ChangedByteDetected(CRC32, pieces, payloads, i, k);
  }
}

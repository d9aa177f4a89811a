/** What the neighbour checksums of a complete chunk group detect, and what they do not
    (crates/common/src/udp.rs, `verify_all`). */
module ChunkIntegrity {
  import opened Results
  import opened Bytes
  import opened Folds
  import opened UdpChunk
  import opened Reassembler

  /** A complete group whose slot `i` is the genuine chunk of one frame or of another, as `fromA`
      says. */
  function Mixed(crc: Checksum, a: seq<seq<byte>>, b: seq<seq<byte>>, fromA: seq<bool>): (slots: seq<Option<Slot>>)
    requires |a| == |b| == |fromA|
    ensures |slots| == |a| && Complete(slots)
  {
    seq(|a|, i requires 0 <= i < |a| =>
      Some(if fromA[i] then GenuineSlot(crc, a, i) else GenuineSlot(crc, b, i)))
  }

  /** The pieces at position `i` of both frames have the same checksum. */
  predicate SameSum(crc: Checksum, a: seq<seq<byte>>, b: seq<seq<byte>>, i: nat)
    requires i < |a| == |b|
  {
    crc.Of(a[i]) == crc.Of(b[i])
  }

  /** Where two neighbours on the ring come from different frames, the frames agree in checksum at
      both places. */
  predicate SeamsAgree(crc: Checksum, a: seq<seq<byte>>, b: seq<seq<byte>>, fromA: seq<bool>)
    requires |a| == |b| == |fromA|
  {
    forall i :: 0 <= i < |a| && fromA[i] != fromA[Next(i, |a|)] ==>
      SameSum(crc, a, b, i) && SameSum(crc, a, b, Next(i, |a|))
  }

  /** Mixing genuine chunks of two frames with equal metadata goes undetected if and only if the
      frames' checksums agree on both sides of every seam. Away from the seams nothing is checked:
      two frames that agree at the seams can be spliced at will. */
  lemma MixDetectedAtSeams(crc: Checksum, a: seq<seq<byte>>, b: seq<seq<byte>>, fromA: seq<bool>)
    requires |a| == |b| == |fromA|
    ensures RingOk(crc, Mixed(crc, a, b, fromA)) <==> SeamsAgree(crc, a, b, fromA)
  {
    var slots := Mixed(crc, a, b, fromA);
    var n := |a|;
    if RingOk(crc, slots) {
      forall i | 0 <= i < n && fromA[i] != fromA[Next(i, n)]
        ensures SameSum(crc, a, b, i) && SameSum(crc, a, b, Next(i, n))
      {
        assert RingOkAt(crc, slots, i);
        assert RingOkAt(crc, slots, Next(i, n)) && Prev(Next(i, n), n) == i;
      }
    }
    if SeamsAgree(crc, a, b, fromA) {
      forall i | 0 <= i < n
        ensures RingOkAt(crc, slots, i)
      {
        var p := Prev(i, n);
        assert Next(p, n) == i;
        assert fromA[p] != fromA[i] ==> SameSum(crc, a, b, p);
        assert fromA[i] != fromA[Next(i, n)] ==> SameSum(crc, a, b, Next(i, n));
      }
    }
  }

  /** A complete group under the genuine headers of a frame, with any payloads. */
  function WithPayloads(crc: Checksum, pieces: seq<seq<byte>>, payloads: seq<seq<byte>>): (slots: seq<Option<Slot>>)
    requires |payloads| == |pieces|
    ensures |slots| == |pieces| && Complete(slots)
  {
    seq(|pieces|, i requires 0 <= i < |pieces| =>
      Some(GenuineSlot(crc, pieces, i).(payload := payloads[i])))
  }

  /** With genuine headers the group verifies if and only if every payload has the checksum of the
      piece it stands for. */
  lemma PayloadsDetected(crc: Checksum, pieces: seq<seq<byte>>, payloads: seq<seq<byte>>)
    requires |payloads| == |pieces|
    ensures RingOk(crc, WithPayloads(crc, pieces, payloads)) <==>
            forall i :: 0 <= i < |pieces| ==> crc.Of(payloads[i]) == crc.Of(pieces[i])
  {
    var slots := WithPayloads(crc, pieces, payloads);
    var n := |pieces|;
    if RingOk(crc, slots) {
      forall i | 0 <= i < n
        ensures crc.Of(payloads[i]) == crc.Of(pieces[i])
      {
        assert RingOkAt(crc, slots, Next(i, n)) && Prev(Next(i, n), n) == i;
      }
    }
    if forall i :: 0 <= i < n ==> crc.Of(payloads[i]) == crc.Of(pieces[i]) {
      forall i | 0 <= i < n
        ensures RingOkAt(crc, slots, i)
      {
        assert crc.Of(payloads[Prev(i, n)]) == crc.Of(pieces[Prev(i, n)]);
        assert crc.Of(payloads[Next(i, n)]) == crc.Of(pieces[Next(i, n)]);
      }
    }
  }

  /** A checksum none of whose steps loses information. */
  ghost predicate Lossless(crc: Checksum) {
    Injective(crc.step) && forall s, t :: crc.finish(s) == crc.finish(t) ==> s == t
  }

  /** One changed byte in one payload of an otherwise genuine group is always detected. */
  lemma ChangedByteDetected(crc: Checksum, pieces: seq<seq<byte>>, payloads: seq<seq<byte>>, i: nat, k: nat)
    requires Lossless(crc)
    requires |payloads| == |pieces| && i < |pieces|
    requires DifferAt(payloads[i], pieces[i], k)
    ensures !RingOk(crc, WithPayloads(crc, pieces, payloads))
  {
    OneByteChangesFold(crc.step, crc.init, payloads[i], pieces[i], k);
    PayloadsDetected(crc, pieces, payloads);
  }
}

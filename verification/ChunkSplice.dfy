/** What the reassembler makes of a group whose slots hold genuine chunks of different frames
    (crates/common/src/udp.rs, `ChunkGroup::insert`). */
module ChunkSplice {
  import opened Results
  import opened Bytes
  import opened Frame
  import opened UdpChunk
  import opened Reassembler

  /** `frames[i]` is the frame whose chunk stands in slot `i`; all have the same common data. */
  predicate Family(frames: seq<seq<byte>>, max: nat, meta: Meta) {
    && |frames| == meta.totalChunks
    && |frames| > 0
    && forall i :: 0 <= i < |frames| ==> Member(frames[i], max, meta)
  }

  predicate Member(frame: seq<byte>, max: nat, meta: Meta) {
    EncodeFault(frame, max) == None && FrameMeta(frame, max) == meta
  }

  /** Piece `j` of the frame in slot `i`. */
  function PieceOf(frames: seq<seq<byte>>, max: nat, meta: Meta, i: nat, j: nat): seq<byte>
    requires Family(frames, max, meta) && i < |frames| && j < |frames|
  {
    assert Member(frames[i], max, meta);
    Pieces(frames[i], max)[j]
  }

  function SpliceSlots(crc: Checksum, frames: seq<seq<byte>>, max: nat, meta: Meta): (slots: seq<Option<Slot>>)
    requires Family(frames, max, meta)
    ensures |slots| == |frames| && Complete(slots)
  {
    seq(|frames|, i requires 0 <= i < |frames| =>
      assert Member(frames[i], max, meta);
      Some(GenuineSlot(crc, Pieces(frames[i], max), i)))
  }

  function SplicePieces(frames: seq<seq<byte>>, max: nat, meta: Meta): (pieces: seq<seq<byte>>)
    requires Family(frames, max, meta)
    ensures |pieces| == |frames|
  {
    seq(|frames|, i requires 0 <= i < |frames| => PieceOf(frames, max, meta, i, i))
  }

  /** From each frame the piece of its slot. */
  function Spliced(frames: seq<seq<byte>>, max: nat, meta: Meta): seq<byte>
    requires Family(frames, max, meta)
  {
    Flatten(SplicePieces(frames, max, meta))
  }

  /** The frames in slot `i` and in the next one have equal checksums at both places. */
  predicate AgreeAt(crc: Checksum, frames: seq<seq<byte>>, max: nat, meta: Meta, i: nat)
    requires Family(frames, max, meta) && i < |frames|
  {
    var j := Next(i, |frames|);
    && crc.Of(PieceOf(frames, max, meta, i, i)) == crc.Of(PieceOf(frames, max, meta, j, i))
    && crc.Of(PieceOf(frames, max, meta, i, j)) == crc.Of(PieceOf(frames, max, meta, j, j))
  }

  predicate NeighboursAgree(crc: Checksum, frames: seq<seq<byte>>, max: nat, meta: Meta)
    requires Family(frames, max, meta)
  {
    forall i :: 0 <= i < |frames| ==> AgreeAt(crc, frames, max, meta, i)
  }

  // ---------------------------------------------------------------------------------------------
  // Pieces of frames of one length.

  lemma {:induction false} SamePieceLengths(a: seq<byte>, b: seq<byte>, max: nat, i: nat)
    requires |a| == |b| > 0 && max > 0 && i < |Pieces(a, max)|
    ensures i < |Pieces(b, max)| && |Pieces(a, max)[i]| == |Pieces(b, max)[i]|
    decreases |a|
  {
    if |a| > max && i > 0 {
      SamePieceLengths(a[max..], b[max..], max, i - 1);
    }
  }

  /** Pieces of equal lengths: their concatenations are equal in length, and equal if and only if the
      pieces are. */
  lemma {:induction false} FlattenSameLengths(p: seq<seq<byte>>, q: seq<seq<byte>>)
    requires |p| == |q| && forall i :: 0 <= i < |p| ==> |p[i]| == |q[i]|
    ensures |Flatten(p)| == |Flatten(q)|
    ensures Flatten(p) == Flatten(q) <==> p == q
  {
    if |p| > 0 {
      FlattenSameLengths(p[1..], q[1..]);
      var k := |p[0]|;
      assert Flatten(p)[..k] == p[0] && Flatten(q)[..k] == q[0];
      assert Flatten(p)[k..] == Flatten(p[1..]) && Flatten(q)[k..] == Flatten(q[1..]);
      assert p == [p[0]] + p[1..] && q == [q[0]] + q[1..];
    }
  }

  /** The splice is a given frame of the family's kind if and only if every piece in it is that
      frame's. */
  lemma SplicedIs(frames: seq<seq<byte>>, max: nat, meta: Meta, frame: seq<byte>)
    requires Family(frames, max, meta) && Member(frame, max, meta)
    ensures |Spliced(frames, max, meta)| == meta.frameLen
    ensures Spliced(frames, max, meta) == frame <==> SplicePieces(frames, max, meta) == Pieces(frame, max)
  {
    hide DecodeFrame, Pieces, Flatten;
    var pieces := SplicePieces(frames, max, meta);
    PiecesCut(frame, max);
    forall i | 0 <= i < |frames|
      ensures |pieces[i]| == |Pieces(frame, max)[i]|
    {
      assert Member(frames[i], max, meta);
      SamePieceLengths(frames[i], frame, max, i);
    }
    FlattenSameLengths(pieces, Pieces(frame, max));
  }

  // ---------------------------------------------------------------------------------------------
  // What is delivered.

  /** The ring check passes if and only if neighbours agree. */
  lemma SpliceRing(crc: Checksum, frames: seq<seq<byte>>, max: nat, meta: Meta)
    requires Family(frames, max, meta)
    ensures RingOk(crc, SpliceSlots(crc, frames, max, meta)) <==> NeighboursAgree(crc, frames, max, meta)
  {
    hide Family, Pieces;
    var slots, n := SpliceSlots(crc, frames, max, meta), |frames|;
    forall i | 0 <= i < n
      ensures RingOkAt(crc, slots, i) <==>
              var p, q := Prev(i, n), Next(i, n);
              && crc.Of(PieceOf(frames, max, meta, p, p)) == crc.Of(PieceOf(frames, max, meta, i, p))
              && crc.Of(PieceOf(frames, max, meta, q, q)) == crc.Of(PieceOf(frames, max, meta, i, q))
    {
      SlotAt(crc, frames, max, meta, i);
      SlotAt(crc, frames, max, meta, Prev(i, n));
      SlotAt(crc, frames, max, meta, Next(i, n));
    }
    if RingOk(crc, slots) {
      forall i | 0 <= i < n
        ensures AgreeAt(crc, frames, max, meta, i)
      {
        assert RingOkAt(crc, slots, i) && RingOkAt(crc, slots, Next(i, n)) && Prev(Next(i, n), n) == i;
      }
    }
    if NeighboursAgree(crc, frames, max, meta) {
      forall i | 0 <= i < n
        ensures RingOkAt(crc, slots, i)
      {
        assert AgreeAt(crc, frames, max, meta, i) && AgreeAt(crc, frames, max, meta, Prev(i, n));
        assert Next(Prev(i, n), n) == i;
      }
    }
  }

  lemma SlotAt(crc: Checksum, frames: seq<seq<byte>>, max: nat, meta: Meta, i: nat)
    requires Family(frames, max, meta) && i < |frames|
    ensures var slot, n := SpliceSlots(crc, frames, max, meta)[i].value, |frames|;
            && slot.payload == PieceOf(frames, max, meta, i, i)
            && slot.prevChecksum == crc.Of(PieceOf(frames, max, meta, i, Prev(i, n)))
            && slot.nextChecksum == crc.Of(PieceOf(frames, max, meta, i, Next(i, n)))
  {
    hide DecodeFrame, Pieces;
    assert Member(frames[i], max, meta);
  }

  /** The splice decodes as a frame: its header is that of the frame in the first slot. */
  lemma SpliceDecodes(frames: seq<seq<byte>>, max: nat, meta: Meta)
    requires Family(frames, max, meta)
    ensures CheckFrame(meta, Spliced(frames, max, meta)) == Ok(Some(Spliced(frames, max, meta)))
  {
    hide DecodeHeader;
    var frame, whole := frames[0], Spliced(frames, max, meta);
    assert Member(frame, max, meta);
    SplicedIs(frames, max, meta, frame);
    var first := Pieces(frame, max)[0];
    assert first == if |frame| <= max then frame else frame[..max];
    assert |first| >= FRAME_HEADER_LEN;
    assert SplicePieces(frames, max, meta)[0] == first;
    assert whole[..|first|] == first && frame[..|first|] == first;
    HeaderPrefix(whole, |first|);
    HeaderPrefix(frame, |first|);
  }

  /** A complete group of genuine chunks of any number of frames with the same common data is
      delivered, as the splice of their pieces, if and only if the frames of any two neighbouring
      slots have equal checksums at both places; else it is refused. */
  lemma SpliceDelivered(crc: Checksum, frames: seq<seq<byte>>, max: nat, meta: Meta)
    requires Family(frames, max, meta)
    ensures Deliver(crc, Group(meta, SpliceSlots(crc, frames, max, meta))) ==
            if NeighboursAgree(crc, frames, max, meta) then Ok(Some(Spliced(frames, max, meta)))
            else Err(ChecksumMismatch)
  {
    hide RingOk, NeighboursAgree, CheckFrame, Member, Pieces;
    SpliceRing(crc, frames, max, meta);
    var slots, pieces := SpliceSlots(crc, frames, max, meta), SplicePieces(frames, max, meta);
    forall i | 0 <= i < |frames|
      ensures Payloads(slots)[i] == pieces[i]
    {
      SlotAt(crc, frames, max, meta, i);
    }
    assert Payloads(slots) == pieces;
    assert Member(frames[0], max, meta);
    SplicedIs(frames, max, meta, frames[0]);
    SpliceDecodes(frames, max, meta);
  }

  // ---------------------------------------------------------------------------------------------
  // Two frames whose splice is a third.

  const PIECE: nat := 256

  /** 1518 bytes, all zero but two, which stand in the third and the sixth piece of the frame. */
  function Archive(a: byte, b: byte): seq<byte> {
    seq(1518, i => if i == 600 then a else if i == 1400 then b else 0)
  }

  function ReplyFrame(a: byte, b: byte): seq<byte> {
    EncodeFrame(NewHeader(RuntimePayload, 1, 0), Archive(a, b))
  }

  const REPLY_META: Meta := Meta(RuntimePayload, 1, 1536, 6)

  lemma {:induction false} PieceBytes(frame: seq<byte>, max: nat, i: nat, k: nat)
    requires |frame| > 0 && max > 0 && i < |Pieces(frame, max)| && k < |Pieces(frame, max)[i]|
    ensures i * max + k < |frame| && Pieces(frame, max)[i][k] == frame[i * max + k]
    decreases |frame|
  {
    if |frame| > max && i > 0 {
      var rest, offset := frame[max..], (i - 1) * max;
      assert Pieces(frame, max)[i] == Pieces(rest, max)[i - 1];
      PieceBytes(rest, max, i - 1, k);
      hide Pieces;
      assert i * max == offset + max;
      assert rest[offset + k] == frame[max + (offset + k)];
    } else {
      assert i == 0;
    }
  }

  lemma ReplyFrameMember(a: byte, b: byte)
    ensures Member(ReplyFrame(a, b), PIECE, REPLY_META)
  {
    hide EncodeHeader, DecodeFrame;
    FrameRoundTrip(NewHeader(RuntimePayload, 1, 0), Archive(a, b));
    assert DivCeil(1536, 256) == 6 by {
      assert DivCeil(256, 256) == 1 && DivCeil(512, 256) == 2 && DivCeil(768, 256) == 3;
      assert DivCeil(1024, 256) == 4 && DivCeil(1280, 256) == 5;
    }
  }

  lemma ReplyFrameBytes(a: byte, b: byte, k: nat)
    requires k < 1536
    ensures |ReplyFrame(a, b)| == 1536
    ensures ReplyFrame(a, b)[k] ==
            if k == 618 then a else if k == 1418 then b else ReplyFrame(0, 0)[k]
  {
    hide EncodeHeader;
  }

  /** Two such frames agree in a piece exactly when they agree in the byte that stands in it. */
  lemma ReplyPieces(a: byte, b: byte, c: byte, d: byte, i: nat)
    requires i < 6
    ensures |Pieces(ReplyFrame(a, b), PIECE)| == |Pieces(ReplyFrame(c, d), PIECE)| == 6
    ensures Pieces(ReplyFrame(a, b), PIECE)[i] == Pieces(ReplyFrame(c, d), PIECE)[i] <==>
            (i == 2 ==> a == c) && (i == 5 ==> b == d)
  {
    hide ReplyFrame, DecodeFrame, Pieces;
    ReplyFrameMember(a, b);
    ReplyFrameMember(c, d);
    ReplyFrameBytes(a, b, 0);
    ReplyFrameBytes(c, d, 0);
    var x, y := Pieces(ReplyFrame(a, b), PIECE)[i], Pieces(ReplyFrame(c, d), PIECE)[i];
    FullPiece(ReplyFrame(a, b), 6, i);
    FullPiece(ReplyFrame(c, d), 6, i);
    forall k | 0 <= k < 256
      ensures x[k] == y[k] <==> (i == 2 && k == 106 ==> a == c) && (i == 5 && k == 138 ==> b == d)
    {
      PieceBytes(ReplyFrame(a, b), PIECE, i, k);
      PieceBytes(ReplyFrame(c, d), PIECE, i, k);
      ReplyFrameBytes(a, b, i * PIECE + k);
      ReplyFrameBytes(c, d, i * PIECE + k);
    }
    assert x == y ==> x[106] == y[106] && x[138] == y[138];
  }

  /** A frame of a whole number of pieces has only full ones. */
  lemma {:induction false} FullPiece(frame: seq<byte>, n: nat, i: nat)
    requires |frame| == PIECE * n && i < n
    ensures i < |Pieces(frame, PIECE)| && |Pieces(frame, PIECE)[i]| == PIECE
  {
    if n > 1 && i > 0 {
      FullPiece(frame[PIECE..], n - 1, i - 1);
    }
  }

  /** The frames of a splice: the third and the sixth slot from different ones. */
  function SplicedFamily(): seq<seq<byte>> {
    var a, b := ReplyFrame(0, 0), ReplyFrame(1, 1);
    [b, a, a, a, b, b]
  }

  lemma SplicedFamilyIs()
    ensures Family(SplicedFamily(), PIECE, REPLY_META)
    ensures SplicedFamily()[5] == SplicedFamily()[0] && SplicedFamily()[1] == SplicedFamily()[2] == SplicedFamily()[3]
  {
    hide ReplyFrame, Member;
    ReplyFrameMember(0, 0);
    ReplyFrameMember(1, 1);
  }

  lemma SplicedFamilyAgrees(crc: Checksum)
    requires Family(SplicedFamily(), PIECE, REPLY_META)
    ensures NeighboursAgree(crc, SplicedFamily(), PIECE, REPLY_META)
  {
    hide ReplyFrame, Family, Pieces;
    ReplyPieces(0, 0, 1, 1, 0);
    ReplyPieces(0, 0, 1, 1, 1);
    ReplyPieces(0, 0, 1, 1, 3);
    ReplyPieces(0, 0, 1, 1, 4);
  }

  /** Two reply frames of 1536 bytes under one id, cut at the smallest piece size, and a group of
      chunks of both that is delivered, under every checksum, as a third frame. */
  lemma SpliceGoesUnseen(crc: Checksum)
    ensures Family(SplicedFamily(), PIECE, REPLY_META)
    ensures Deliver(crc, Group(REPLY_META, SpliceSlots(crc, SplicedFamily(), PIECE, REPLY_META))) ==
            Ok(Some(ReplyFrame(0, 1)))
    ensures ReplyFrame(0, 1) != ReplyFrame(0, 0) && ReplyFrame(0, 1) != ReplyFrame(1, 1)
  {
    hide ReplyFrame, SpliceSlots, Deliver, NeighboursAgree, Member, Pieces;
    SplicedFamilyIs();
    SplicedFamilyAgrees(crc);
    SpliceDelivered(crc, SplicedFamily(), PIECE, REPLY_META);
    ReplyFrameMember(0, 1);
    SplicedIs(SplicedFamily(), PIECE, REPLY_META, ReplyFrame(0, 1));
    SplicePiecesAre();
    ReplyFrameBytes(0, 1, 618);
    ReplyFrameBytes(1, 1, 618);
    ReplyFrameBytes(0, 1, 1418);
    ReplyFrameBytes(0, 0, 1418);
  }

  lemma SplicePiecesAre()
    requires Family(SplicedFamily(), PIECE, REPLY_META)
    ensures SplicePieces(SplicedFamily(), PIECE, REPLY_META) == Pieces(ReplyFrame(0, 1), PIECE)
  {
    hide ReplyFrame, Family, Pieces;
    ReplyPieces(0, 1, 0, 1, 0);
    ReplyFrameBytes(0, 1, 0);
    forall i | 0 <= i < 6
      ensures PieceOf(SplicedFamily(), PIECE, REPLY_META, i, i) == Pieces(ReplyFrame(0, 1), PIECE)[i]
    {
      ReplyPieces(0, 0, 0, 1, i);
      ReplyPieces(1, 1, 0, 1, i);
    }
  }
}

/** Frames that fit one datagram: the shortcuts around chunking and reassembly
    (crates/common/src/udp.rs). */
module SingleChunk {
  import opened Results
  import opened Bytes
  import opened Folds
  import opened Frame
  import opened UdpChunk
  import opened Reassembler

  /** A one-chunk header: both neighbours are the chunk itself. */
  function SingleHeader(frameType: FrameType, requestId: u64, len: u16, sum: u32): ChunkHeader {
    ChunkHeader(PROTOCOL_VERSION, frameType, requestId, len, 0, 1, len, sum, sum)
  }

  function EncodeSingle(crc: Checksum, frame: seq<byte>): Result<seq<byte>, ChunkError> {
    if |frame| == 0 then Err(EmptyFrame)
    else if |frame| > U16_MAX then Err(PayloadTooLarge(|frame|, U16_MAX))
    else match DecodeFrame(frame)
      case Err(e) => Err(InFrame(e))
      case Ok(d) =>
        Ok(EncodeChunkHeader(SingleHeader(d.header.frameType, d.header.requestId, |frame|, crc.Of(frame))) + frame)
  }

  /** The datagram built without building the frame: the checksum runs over header and payload one
      after the other. */
  function EncodeSingleFromParts(crc: Checksum, frameType: FrameType, requestId: u64, payload: seq<byte>):
    Result<seq<byte>, ChunkError>
  {
    if |payload| > U32_MAX then Err(FrameTooLarge(|payload| + FRAME_HEADER_LEN))
    else if FRAME_HEADER_LEN + |payload| > U16_MAX then Err(PayloadTooLarge(FRAME_HEADER_LEN + |payload|, U16_MAX))
    else
      var header := EncodeHeader(NewHeader(frameType, requestId, |payload|));
      var sum := crc.finish(Fold(crc.step, Fold(crc.step, crc.init, header), payload));
      Ok(EncodeChunkHeader(SingleHeader(frameType, requestId, FRAME_HEADER_LEN + |payload|, sum)) + header + payload)
  }

  function DecodeSingle(crc: Checksum, datagram: seq<byte>): Result<Option<seq<byte>>, ChunkError> {
    match DecodeChunk(datagram)
    case Err(e) => Err(e)
    case Ok(h) =>
      if h.totalChunks != 1 then Ok(None)
      else
        var frame := PayloadOf(datagram);
        if h.prevChecksum != crc.Of(frame) || h.nextChecksum != crc.Of(frame) then Err(ChecksumMismatch)
        else CheckFrame(MetaOf(h), frame)
  }

  // ---------------------------------------------------------------------------------------------
  // The encoders agree.

  /** Building the datagram from its parts is building the frame and wrapping it, errors included,
      if and only if the payload's length fits 32 bits. */
  lemma FromPartsIsSingle(crc: Checksum, frameType: FrameType, requestId: u64, payload: seq<byte>)
    ensures (EncodeSingleFromParts(crc, frameType, requestId, payload) ==
             EncodeSingle(crc, EncodeFrame(NewHeader(frameType, requestId, 0), payload)))
            <==> |payload| <= U32_MAX
  {
    hide EncodeHeader, EncodeChunkHeader, DecodeFrame;
    var h := NewHeader(frameType, requestId, 0);
    var frame := EncodeFrame(h, payload);
    if FRAME_HEADER_LEN + |payload| <= U16_MAX {
      FrameRoundTrip(h, payload);
      var header := EncodeHeader(NewHeader(frameType, requestId, |payload|));
      assert frame == header + payload;
      FoldConcat(crc.step, crc.init, header, payload);
      var outer := EncodeChunkHeader(SingleHeader(frameType, requestId, |frame|, crc.Of(frame)));
      assert outer + header + payload == outer + frame;
    }
  }

  /** When the frame fits one piece, the chunk encoder emits exactly the single-chunk datagram. */
  lemma ChunksOfSmallFrame(crc: Checksum, frame: seq<byte>, max: nat)
    requires EncodeFault(frame, max) == None
    requires |frame| <= max && |frame| <= U16_MAX
    ensures EncodeSingle(crc, frame).Ok?
    ensures EncodeChunks(crc, frame, max) == Ok([EncodeSingle(crc, frame).value])
  {
    var pieces := Pieces(frame, max);
    assert pieces == [frame];
    var meta := FrameMeta(frame, max);
    assert PieceHeader(crc, meta, pieces, 0) == SingleHeader(meta.frameType, meta.requestId, |frame|, crc.Of(frame));
    var single := EncodeSingle(crc, frame).value;
    assert Datagram(crc, meta, pieces, 0) == single;
    assert Datagrams(crc, meta, pieces) == [single];
  }

  // ---------------------------------------------------------------------------------------------
  // The decoders agree.

  lemma FreshAnswerOne(crc: Checksum, datagram: seq<byte>)
    requires DecodeChunk(datagram).Ok? && DecodeChunk(datagram).value.totalChunks == 1
    ensures var h := DecodeChunk(datagram).value;
            var payload := PayloadOf(datagram);
            Answer(crc, map[], datagram) ==
            if h.prevChecksum != crc.Of(payload) || h.nextChecksum != crc.Of(payload) then Err(ChecksumMismatch)
            else CheckFrame(MetaOf(h), Truncate(payload, h.frameLen))
  {
    hide DecodeChunk;
    var h := DecodeChunk(datagram).value;
    var payload := PayloadOf(datagram);
    var g := WriteChunk(NewGroup(MetaOf(h)), h, payload);
    assert g.slots == [Some(SlotOf(h, payload))];
    assert Prev(0, 1) == 0 && Next(0, 1) == 0;
    assert RingOk(crc, g.slots) <==> RingOkAt(crc, g.slots, 0);
    assert Payloads(g.slots) == [payload];
    assert Flatten([payload]) == payload + Flatten([]) == payload;
  }

  lemma FreshAnswerMany(crc: Checksum, datagram: seq<byte>)
    requires DecodeChunk(datagram).Ok? && DecodeChunk(datagram).value.totalChunks > 1
    ensures Answer(crc, map[], datagram) == Ok(None)
  {
    hide DecodeChunk;
    var h := DecodeChunk(datagram).value;
    var g := WriteChunk(NewGroup(MetaOf(h)), h, PayloadOf(datagram));
    var other := if h.chunkId == 0 then 1 else 0;
    assert g.slots[other] == None;
  }

  /** Cutting a frame short changes what the frame check answers, unless the header is kept and is
      already wrong. */
  lemma CutFrameChecksDifferently(meta: Meta, frame: seq<byte>, n: nat)
    requires n < |frame|
    ensures CheckFrame(meta, frame[..n]) == CheckFrame(meta, frame) <==>
            n >= FRAME_HEADER_LEN && DecodeHeader(frame).Err?
  {
    if n >= FRAME_HEADER_LEN {
      HeaderPrefix(frame, n);
    } else if |frame| >= FRAME_HEADER_LEN {
      assert DecodeFrame(frame) != Err(ShortHeader(n, FRAME_HEADER_LEN));
    }
  }

  predicate SumsMatch(crc: Checksum, datagram: seq<byte>)
    requires DecodeChunk(datagram).Ok?
  {
    var h, sum := DecodeChunk(datagram).value, crc.Of(PayloadOf(datagram));
    h.prevChecksum == sum && h.nextChecksum == sum
  }

  /** The one family of datagrams on which the two decoders part: a single chunk with right
      checksums that claims a frame shorter than its payload and whose header is good, or cut. */
  predicate ClaimsTooLittle(crc: Checksum, datagram: seq<byte>) {
    && DecodeChunk(datagram).Ok?
    && var h := DecodeChunk(datagram).value;
    && h.totalChunks == 1
    && SumsMatch(crc, datagram)
    && h.frameLen < |PayloadOf(datagram)|
    && (h.frameLen < FRAME_HEADER_LEN || DecodeHeader(PayloadOf(datagram)).Ok?)
  }

  /** For every byte string, the shortcut decoder and a fresh reassembler give the same answer,
      errors included, exactly outside that family. */
  lemma SingleAgreesWithReassembler(crc: Checksum, datagram: seq<byte>)
    ensures DecodeSingle(crc, datagram) == Answer(crc, map[], datagram) <==> !ClaimsTooLittle(crc, datagram)
  {
    hide DecodeHeader, CheckFrame;
    if DecodeChunk(datagram).Ok? {
      var h := DecodeChunk(datagram).value;
      if h.totalChunks == 1 {
        FreshAnswerOne(crc, datagram);
        if h.frameLen < |PayloadOf(datagram)| {
          CutFrameChecksDifferently(MetaOf(h), PayloadOf(datagram), h.frameLen);
        }
      } else {
        FreshAnswerMany(crc, datagram);
      }
    }
  }

  /** What the sender of a one-chunk frame wrote is what the shortcut decoder reads. */
  lemma SingleRoundTrip(crc: Checksum, frame: seq<byte>)
    requires EncodeSingle(crc, frame).Ok?
    ensures DecodeFrame(frame).Ok?
    ensures DecodeSingle(crc, EncodeSingle(crc, frame).value) == Ok(Some(frame))
    ensures DecodeChunk(EncodeSingle(crc, frame).value).Ok?
    ensures DecodeChunk(EncodeSingle(crc, frame).value).value.requestId == DecodeFrame(frame).value.header.requestId
  {
    var d := DecodeFrame(frame).value;
    var h := SingleHeader(d.header.frameType, d.header.requestId, |frame|, crc.Of(frame));
    ChunkRoundTrip(h, frame);
    assert PayloadOf(EncodeChunkHeader(h) + frame) == frame;
  }

  /** A query wrapped in one chunk that claims a frame of no bytes: the shortcut reads the query, a
      fresh reassembler refuses the frame as too short, whatever the checksum. */
  lemma ShortClaimPartsTheDecoders(crc: Checksum)
    ensures var frame := EncodeFrame(NewHeader(QueryRequest, 1, 0), []);
            var h := SingleHeader(QueryRequest, 1, FRAME_HEADER_LEN, crc.Of(frame)).(frameLen := 0);
            var datagram := EncodeChunkHeader(h) + frame;
            && DecodeSingle(crc, datagram) == Ok(Some(frame))
            && Answer(crc, map[], datagram) == Err(InFrame(ShortHeader(0, FRAME_HEADER_LEN)))
  {
    hide EncodeHeader, EncodeChunkHeader;
    var frame := EncodeFrame(NewHeader(QueryRequest, 1, 0), []);
    var h := SingleHeader(QueryRequest, 1, FRAME_HEADER_LEN, crc.Of(frame)).(frameLen := 0);
    var datagram := EncodeChunkHeader(h) + frame;
    ChunkRoundTrip(h, frame);
    FrameRoundTrip(NewHeader(QueryRequest, 1, 0), []);
    assert PayloadOf(datagram) == frame;
    FreshAnswerOne(crc, datagram);
  }
}

/** UDP chunks: how a frame is cut into datagrams (crates/common/src/udp.rs). */
module UdpChunk {
  import opened Results
  import opened Bytes
  import opened Folds
  import opened Frame

  const UDP_CHUNK_MAGIC: seq<byte> := [0x47, 0x34, 0x55, 0x31]  // "G4U1"
  const UDP_CHUNK_HEADER_LEN: nat := 32
  const UDP_FALLBACK_MTU: nat := 1200
  const UDP_MIN_PAYLOAD: nat := 256

  /** The checksum, as far as the protocol depends on it: a state that every byte advances, and a
      last step to 32 bits. Every result holds for every such function. */
  datatype Checksum = Checksum(init: u32, step: (u32, byte) -> u32, finish: u32 -> u32) {
    function Of(bytes: seq<byte>): u32 {
      finish(Fold(step, init, bytes))
    }
  }

  datatype ChunkHeader = ChunkHeader(
    version: u8,
    frameType: FrameType,
    requestId: u64,
    frameLen: u32,
    chunkId: u16,
    totalChunks: u16,
    payloadLen: u16,
    prevChecksum: u32,
    nextChecksum: u32)

  datatype ChunkError =
    | EmptyFrame
    | PayloadTooSmall(gotPayload: nat, minPayload: nat)
    | PayloadTooLarge(tooLong: nat, maxLen: nat)
    | TooManyChunks(chunks: nat)
    | FrameTooLarge(frameBytes: nat)
    | ShortDatagram(got: nat, min: nat)
    | BadChunkMagic
    | ChunkVersionMismatch(expected: u8, found: u8)
    | UnknownChunkType(code: u8)
    | InvalidChunkLayout
    | ChunkLengthMismatch(expectedLen: nat, actualLen: nat)
    | MetadataMismatch
    | ChecksumMismatch
    | InFrame(cause: FrameError)

  // ---------------------------------------------------------------------------------------------
  // The chunk header.

  function EncodeChunkHeader(h: ChunkHeader): (bytes: seq<byte>)
    ensures |bytes| == UDP_CHUNK_HEADER_LEN
  {
    UDP_CHUNK_MAGIC + [h.version, h.frameType.Code()] + Be64(h.requestId) + Be32(h.frameLen) +
    Be16(h.chunkId) + Be16(h.totalChunks) + Be16(h.payloadLen) + Be32(h.prevChecksum) + Be32(h.nextChecksum)
  }

  /** The header fields as they stand, before the layout checks. */
  function ReadFields(input: seq<byte>, frameType: FrameType): ChunkHeader
    requires |input| >= UDP_CHUNK_HEADER_LEN
  {
    ChunkHeader(
      input[4], frameType, ReadU64(input[6..14]), ReadU32(input[14..18]), ReadU16(input[18..20]),
      ReadU16(input[20..22]), ReadU16(input[22..24]), ReadU32(input[24..28]), ReadU32(input[28..32]))
  }

  function DecodeChunk(input: seq<byte>): (r: Result<ChunkHeader, ChunkError>)
    ensures r.Ok? ==>
              && |input| == UDP_CHUNK_HEADER_LEN + r.value.payloadLen
              && r.value.chunkId < r.value.totalChunks
              && r.value.version == PROTOCOL_VERSION
  {
    if |input| < UDP_CHUNK_HEADER_LEN then Err(ShortDatagram(|input|, UDP_CHUNK_HEADER_LEN))
    else if input[0..4] != UDP_CHUNK_MAGIC then Err(BadChunkMagic)
    else if input[4] != PROTOCOL_VERSION then Err(ChunkVersionMismatch(PROTOCOL_VERSION, input[4]))
    else match FrameTypeOf(input[5])
      case None => Err(UnknownChunkType(input[5]))
      case Some(t) =>
        var h := ReadFields(input, t);
        if h.totalChunks == 0 then Err(InvalidChunkLayout)
        else if h.chunkId >= h.totalChunks then Err(InvalidChunkLayout)
        else if |input| != UDP_CHUNK_HEADER_LEN + h.payloadLen then
          Err(ChunkLengthMismatch(h.payloadLen, |input| - UDP_CHUNK_HEADER_LEN))
        else Ok(h)
  }

  lemma ReadFieldsInverse(h: ChunkHeader, payload: seq<byte>)
    ensures ReadFields(EncodeChunkHeader(h) + payload, h.frameType) == h
    ensures (EncodeChunkHeader(h) + payload)[0..4] == UDP_CHUNK_MAGIC
    ensures (EncodeChunkHeader(h) + payload)[5] == h.frameType.Code()
  {
    var bytes := EncodeChunkHeader(h) + payload;
    assert bytes[0..4] == UDP_CHUNK_MAGIC;
    assert bytes[4] == h.version && bytes[5] == h.frameType.Code();
    assert bytes[6..14] == Be64(h.requestId);
    assert bytes[14..18] == Be32(h.frameLen);
    assert bytes[18..20] == Be16(h.chunkId);
    assert bytes[20..22] == Be16(h.totalChunks);
    assert bytes[22..24] == Be16(h.payloadLen);
    assert bytes[24..28] == Be32(h.prevChecksum);
    assert bytes[28..32] == Be32(h.nextChecksum);
    RoundTrip64(h.requestId);
    RoundTrip32(h.frameLen);
    RoundTrip16(h.chunkId);
    RoundTrip16(h.totalChunks);
    RoundTrip16(h.payloadLen);
    RoundTrip32(h.prevChecksum);
    RoundTrip32(h.nextChecksum);
  }

  /** A datagram decodes to the header it was built from exactly when the header is of the current
      version, its chunk number is in range and its length field is the payload's length. */
  lemma ChunkRoundTrip(h: ChunkHeader, payload: seq<byte>)
    ensures DecodeChunk(EncodeChunkHeader(h) + payload) == Ok(h) <==>
            h.version == PROTOCOL_VERSION && h.chunkId < h.totalChunks && h.payloadLen == |payload|
  {
    ReadFieldsInverse(h, payload);
    assert FrameTypeOf(h.frameType.Code()) == Some(h.frameType);
    assert (EncodeChunkHeader(h) + payload)[4] == ReadFields(EncodeChunkHeader(h) + payload, h.frameType).version;
  }

  /** A datagram built from a header decodes to that header or not at all. */
  lemma DecodesToItsHeader(h: ChunkHeader, payload: seq<byte>)
    ensures DecodeChunk(EncodeChunkHeader(h) + payload).Ok? ==> DecodeChunk(EncodeChunkHeader(h) + payload) == Ok(h)
  {
    ReadFieldsInverse(h, payload);
  }

  /** Every datagram the decoder accepts re-encodes to itself. */
  lemma ChunkCanonical(input: seq<byte>)
    requires DecodeChunk(input).Ok?
    ensures EncodeChunkHeader(DecodeChunk(input).value) + input[UDP_CHUNK_HEADER_LEN..] == input
  {
    var h := DecodeChunk(input).value;
    Canonical64(input[6..14]);
    Canonical32(input[14..18]);
    Canonical16(input[18..20]);
    Canonical16(input[20..22]);
    Canonical16(input[22..24]);
    Canonical32(input[24..28]);
    Canonical32(input[28..32]);
    assert input[..32] == input[0..4] + [input[4], input[5]] + input[6..14] + input[14..18] + input[18..20] +
                          input[20..22] + input[22..24] + input[24..28] + input[28..32];
    assert EncodeChunkHeader(h) == input[..32];
    assert input == input[..32] + input[32..];
  }

  // ---------------------------------------------------------------------------------------------
  // Cutting a frame into pieces.

  /** Division rounded up, by counting how often the divisor fits. */
  function DivCeil(n: nat, d: nat): (q: nat)
    requires d > 0
    decreases n
  {
    if n == 0 then 0 else if n <= d then 1 else 1 + DivCeil(n - d, d)
  }

  lemma {:induction false} DivCeilMeaning(n: nat, d: nat)
    requires d > 0
    ensures n <= DivCeil(n, d) * d < n + d
    decreases n
  {
    if n > d {
      DivCeilMeaning(n - d, d);
      assert DivCeil(n, d) * d == DivCeil(n - d, d) * d + d;
    }
  }

  /** `frame.chunks(max)`: pieces of `max` bytes, the last one possibly shorter. */
  function Pieces(frame: seq<byte>, max: nat): (pieces: seq<seq<byte>>)
    requires |frame| > 0 && max > 0
    ensures |pieces| == DivCeil(|frame|, max)
    ensures |pieces| > 0
    decreases |frame|
  {
    if |frame| <= max then [frame] else [frame[..max]] + Pieces(frame[max..], max)
  }

  /** The pieces rebuild the frame, and none is empty or larger than the size. */
  lemma {:induction false} PiecesCut(frame: seq<byte>, max: nat)
    requires |frame| > 0 && max > 0
    ensures Flatten(Pieces(frame, max)) == frame
    ensures forall i :: 0 <= i < |Pieces(frame, max)| ==> 0 < |Pieces(frame, max)[i]| <= max
    decreases |frame|
  {
    if |frame| <= max {
      assert Pieces(frame, max) == [frame];
      assert Flatten([frame]) == frame + Flatten([]) == frame;
    } else {
      PiecesCut(frame[max..], max);
      var rest := Pieces(frame[max..], max);
      assert Pieces(frame, max)[1..] == rest;
      assert frame == frame[..max] + frame[max..];
    }
  }

  // ---------------------------------------------------------------------------------------------
  // Encoding.

  function Prev(i: nat, total: nat): nat
    requires i < total
  {
    if i == 0 then total - 1 else i - 1
  }

  function Next(i: nat, total: nat): nat
    requires i < total
  {
    if i + 1 == total then 0 else i + 1
  }

  /** What all chunks of one frame have in common. */
  datatype Meta = Meta(frameType: FrameType, requestId: u64, frameLen: u32, totalChunks: u16)

  function MetaOf(h: ChunkHeader): Meta {
    Meta(h.frameType, h.requestId, h.frameLen, h.totalChunks)
  }

  /** The header of piece `i`. It carries the checksums of its two neighbours on the ring, not its
      own; the payload length is cast to u16. */
  function PieceHeader(crc: Checksum, meta: Meta, pieces: seq<seq<byte>>, i: nat): ChunkHeader
    requires |pieces| == meta.totalChunks && i < |pieces|
  {
    ChunkHeader(
      PROTOCOL_VERSION, meta.frameType, meta.requestId, meta.frameLen, i, meta.totalChunks,
      |pieces[i]| % 0x1_0000,
      crc.Of(pieces[Prev(i, |pieces|)]), crc.Of(pieces[Next(i, |pieces|)]))
  }

  function Datagram(crc: Checksum, meta: Meta, pieces: seq<seq<byte>>, i: nat): seq<byte>
    requires |pieces| == meta.totalChunks && i < |pieces|
  {
    EncodeChunkHeader(PieceHeader(crc, meta, pieces, i)) + pieces[i]
  }

  function Datagrams(crc: Checksum, meta: Meta, pieces: seq<seq<byte>>): (ds: seq<seq<byte>>)
    requires |pieces| == meta.totalChunks
    ensures |ds| == |pieces|
  {
    seq(|pieces|, i requires 0 <= i < |pieces| => Datagram(crc, meta, pieces, i))
  }

  function MetaOfFrame(d: Decoded, len: u32, total: u16): Meta {
    Meta(d.header.frameType, d.header.requestId, len, total)
  }

  /** Why `encode_udp_chunks` refuses a frame, if it does. */
  function EncodeFault(frame: seq<byte>, max: nat): Option<ChunkError> {
    if |frame| == 0 then Some(EmptyFrame)
    else if max < UDP_MIN_PAYLOAD then Some(PayloadTooSmall(max, UDP_MIN_PAYLOAD))
    else match DecodeFrame(frame)
      case Err(e) => Some(InFrame(e))
      case Ok(_) =>
        if |frame| > U32_MAX then Some(FrameTooLarge(|frame|))
        else if DivCeil(|frame|, max) > U16_MAX then Some(TooManyChunks(DivCeil(|frame|, max)))
        else None
  }

  function FrameMeta(frame: seq<byte>, max: nat): Meta
    requires EncodeFault(frame, max) == None
  {
    MetaOfFrame(DecodeFrame(frame).value, |frame|, DivCeil(|frame|, max))
  }

  function EncodeChunks(crc: Checksum, frame: seq<byte>, max: nat): Result<seq<seq<byte>>, ChunkError> {
    if EncodeFault(frame, max).Some? then Err(EncodeFault(frame, max).value)
    else Ok(Datagrams(crc, FrameMeta(frame, max), Pieces(frame, max)))
  }

  /** The encoder's loop: one datagram per piece, in order. */
  method EncodeUdpChunks(crc: Checksum, frame: seq<byte>, max: nat) returns (r: Result<seq<seq<byte>>, ChunkError>)
    ensures r == EncodeChunks(crc, frame, max)
  {
    if |frame| == 0 {
      return Err(EmptyFrame);
    }
    if max < UDP_MIN_PAYLOAD {
      return Err(PayloadTooSmall(max, UDP_MIN_PAYLOAD));
    }
    var decoded := DecodeFrame(frame);
    if decoded.Err? {
      return Err(InFrame(decoded.error));
    }
    if |frame| > U32_MAX {
      return Err(FrameTooLarge(|frame|));
    }
    var total := DivCeil(|frame|, max);
    if total > U16_MAX {
      return Err(TooManyChunks(total));
    }
    var pieces := Pieces(frame, max);
    var checksums := seq(|pieces|, i requires 0 <= i < |pieces| => crc.Of(pieces[i]));
    var meta := MetaOfFrame(decoded.value, |frame|, total);
    var out: seq<seq<byte>> := [];
    for idx := 0 to |pieces|
      invariant out == Datagrams(crc, meta, pieces)[..idx]
    {
      var prev := if idx == 0 then |pieces| - 1 else idx - 1;
      var next := if idx + 1 == |pieces| then 0 else idx + 1;
      var header := ChunkHeader(
        PROTOCOL_VERSION, meta.frameType, meta.requestId, meta.frameLen, idx, total,
        |pieces[idx]| % 0x1_0000, checksums[prev], checksums[next]);
      assert header == PieceHeader(crc, meta, pieces, idx);
      out := out + [EncodeChunkHeader(header) + pieces[idx]];
    }
    assert meta == FrameMeta(frame, max) && out == Datagrams(crc, meta, pieces);
    return Ok(out);
  }

  // ---------------------------------------------------------------------------------------------
  // Which chunks arrive intact, and how many there are.

  /** A chunk decodes to its own header exactly when its payload fits the 16-bit length field. */
  lemma ChunkDecodes(crc: Checksum, meta: Meta, pieces: seq<seq<byte>>, i: nat)
    requires |pieces| == meta.totalChunks && i < |pieces|
    ensures (DecodeChunk(Datagram(crc, meta, pieces, i)) == Ok(PieceHeader(crc, meta, pieces, i)))
            <==> |pieces[i]| <= U16_MAX
  {
    ChunkRoundTrip(PieceHeader(crc, meta, pieces, i), pieces[i]);
  }

  /** The whole encoding is decodable if and only if the piece size, or the whole frame if it is
      shorter, fits 16 bits. */
  lemma EncodingDecodable(crc: Checksum, frame: seq<byte>, max: nat)
    requires EncodeFault(frame, max) == None
    ensures (forall i :: 0 <= i < |Pieces(frame, max)| ==>
               DecodeChunk(Datagram(crc, FrameMeta(frame, max), Pieces(frame, max), i)) ==
               Ok(PieceHeader(crc, FrameMeta(frame, max), Pieces(frame, max), i)))
            <==> max <= U16_MAX || |frame| <= U16_MAX
  {
    hide DecodeChunk, Datagram, PieceHeader;
    PiecesCut(frame, max);
    var meta, pieces := FrameMeta(frame, max), Pieces(frame, max);
    forall i | 0 <= i < |pieces|
      ensures (DecodeChunk(Datagram(crc, meta, pieces, i)) == Ok(PieceHeader(crc, meta, pieces, i)))
              <==> |pieces[i]| <= U16_MAX
    {
      ChunkDecodes(crc, meta, pieces, i);
    }
    assert |pieces[0]| == if |frame| <= max then |frame| else max;
    assert |frame| <= max ==> |pieces| == 1;
  }

  /** A frame of 65536 bytes and a piece size of as many: the encoder accepts both, and the one
      datagram it makes does not decode. */
  lemma LongPieceDoesNotDecode(crc: Checksum)
    ensures var payload := seq(0x1_0000 - FRAME_HEADER_LEN, _ => 0);
            var sent := EncodeChunks(crc, EncodeFrame(NewHeader(DataPayload, 1, 0), payload), 0x1_0000);
            && sent.Ok? && |sent.value| == 1
            && DecodeChunk(sent.value[0]).Err?
  {
    hide EncodeHeader, EncodeChunkHeader, DecodeFrame, DecodeChunk;
    var payload: seq<byte> := seq(0x1_0000 - FRAME_HEADER_LEN, _ => 0);
    var frame := EncodeFrame(NewHeader(DataPayload, 1, 0), payload);
    FrameRoundTrip(NewHeader(DataPayload, 1, 0), payload);
    var meta, pieces := FrameMeta(frame, 0x1_0000), Pieces(frame, 0x1_0000);
    assert pieces == [frame];
    ChunkDecodes(crc, meta, pieces, 0);
    DecodesToItsHeader(PieceHeader(crc, meta, pieces, 0), frame);
  }

  /** Where the fields of a chunk header stand, each with its most significant byte first. */
  lemma ChunkHeaderLayout(h: ChunkHeader)
    ensures var b := EncodeChunkHeader(h);
            && b[0..6] == [0x47, 0x34, 0x55, 0x31, h.version, h.frameType.Code()]
            && b[6..14] == Be64(h.requestId) && b[14..18] == Be32(h.frameLen)
            && h.chunkId == 0x100 * (b[18] as int) + b[19]
            && h.totalChunks == 0x100 * (b[20] as int) + b[21]
            && h.payloadLen == 0x100 * (b[22] as int) + b[23]
            && b[24..28] == Be32(h.prevChecksum) && b[28..32] == Be32(h.nextChecksum)
  {
    hide Be16, Be32, Be64;
    var b := EncodeChunkHeader(h);
    assert b[0..6] == UDP_CHUNK_MAGIC + [h.version, h.frameType.Code()];
    assert b[18..20] == Be16(h.chunkId) && b[20..22] == Be16(h.totalChunks) && b[22..24] == Be16(h.payloadLen);
    TwoBytes(b[18..20], h.chunkId);
    TwoBytes(b[20..22], h.totalChunks);
    TwoBytes(b[22..24], h.payloadLen);
  }

  lemma TwoBytes(bytes: seq<byte>, x: u16)
    requires bytes == Be16(x)
    ensures x == 0x100 * (bytes[0] as int) + bytes[1]
  {
    RoundTrip16(x);
    hide Be16;
    assert FromBigEndian(bytes, 1) == FromBigEndian(bytes, 0) * 0x100 + bytes[0] == bytes[0];
    assert FromBigEndian(bytes, 2) == FromBigEndian(bytes, 1) * 0x100 + bytes[1];
  }
}

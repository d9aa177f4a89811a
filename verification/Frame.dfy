/** The `G4C1` binary frame: an 18-byte header and a payload (crates/common/src/protocol.rs). */
module Frame {
  import opened Results
  import opened Bytes

  const PROTOCOL_VERSION: u8 := 1
  const FRAME_MAGIC: seq<byte> := [0x47, 0x34, 0x43, 0x31]  // "G4C1"
  const FRAME_HEADER_LEN: nat := 18
  const MAX_PAYLOAD_LEN: nat := 0xffff

  datatype FrameType =
    | DiscoveryQuery
    | DiscoveryAnnounce
    | HandshakeRequest
    | HandshakeInfo
    | QueryRequest
    | QueryResponse
    | DataPayload
    | Heartbeat
    | Disconnect
    | MetadataPayload
    | RuntimePayload
  {
    function Code(): u8 {
      match this
      case DiscoveryQuery => 1
      case DiscoveryAnnounce => 2
      case HandshakeRequest => 3
      case HandshakeInfo => 4
      case QueryRequest => 5
      case QueryResponse => 6
      case DataPayload => 7
      case Heartbeat => 8
      case Disconnect => 9
      case MetadataPayload => 10
      case RuntimePayload => 11
    }
  }

  function FrameTypeOf(code: u8): (t: Option<FrameType>)
    ensures t.Some? <==> 1 <= code <= 11
    ensures t.Some? ==> t.value.Code() == code
  {
    match code
    case 1 => Some(DiscoveryQuery)
    case 2 => Some(DiscoveryAnnounce)
    case 3 => Some(HandshakeRequest)
    case 4 => Some(HandshakeInfo)
    case 5 => Some(QueryRequest)
    case 6 => Some(QueryResponse)
    case 7 => Some(DataPayload)
    case 8 => Some(Heartbeat)
    case 9 => Some(Disconnect)
    case 10 => Some(MetadataPayload)
    case 11 => Some(RuntimePayload)
    case _ => None
  }

  datatype FrameHeader = FrameHeader(version: u8, frameType: FrameType, requestId: u64, payloadLen: u32)

  datatype FrameError =
    | ShortHeader(got: nat, min: nat)
    | BadMagic
    | VersionMismatch(expected: u8, found: u8)
    | UnknownFrameType(code: u8)
    | PayloadLengthMismatch(expectedLen: nat, actualLen: nat)

  function NewHeader(frameType: FrameType, requestId: u64, payloadLen: u32): FrameHeader {
    FrameHeader(PROTOCOL_VERSION, frameType, requestId, payloadLen)
  }

  function EncodeHeader(h: FrameHeader): (bytes: seq<byte>)
    ensures |bytes| == FRAME_HEADER_LEN
  {
    FRAME_MAGIC + [h.version, h.frameType.Code()] + Be64(h.requestId) + Be32(h.payloadLen)
  }

  function DecodeHeader(input: seq<byte>): (r: Result<FrameHeader, FrameError>)
    ensures r.Ok? ==> |input| >= FRAME_HEADER_LEN && r.value.version == PROTOCOL_VERSION
  {
    if |input| < FRAME_HEADER_LEN then Err(ShortHeader(|input|, FRAME_HEADER_LEN))
    else if input[0..4] != FRAME_MAGIC then Err(BadMagic)
    else if input[4] != PROTOCOL_VERSION then Err(VersionMismatch(PROTOCOL_VERSION, input[4]))
    else match FrameTypeOf(input[5])
      case None => Err(UnknownFrameType(input[5]))
      case Some(t) => Ok(FrameHeader(input[4], t, ReadU64(input[6..14]), ReadU32(input[14..18])))
  }

  datatype Decoded = Decoded(header: FrameHeader, payload: seq<byte>)

  /** `header.payload_len` is overwritten with the payload length cast to u32. */
  function EncodeFrame(h: FrameHeader, payload: seq<byte>): (bytes: seq<byte>)
    ensures |bytes| == FRAME_HEADER_LEN + |payload|
  {
    EncodeHeader(h.(payloadLen := |payload| % 0x1_0000_0000)) + payload
  }

  function DecodeFrame(bytes: seq<byte>): Result<Decoded, FrameError> {
    match DecodeHeader(bytes)
    case Err(e) => Err(e)
    case Ok(h) =>
      var payload := bytes[FRAME_HEADER_LEN..];
      if |payload| != h.payloadLen then Err(PayloadLengthMismatch(h.payloadLen, |payload|))
      else Ok(Decoded(h, payload))
  }

  // ---------------------------------------------------------------------------------------------
  // The header codec is canonical.

  /** Decoding an encoded header, whatever bytes follow it, gives the header back
      exactly when it carries the current protocol version. */
  lemma HeaderRoundTrip(h: FrameHeader, rest: seq<byte>)
    ensures h.version == PROTOCOL_VERSION ==> DecodeHeader(EncodeHeader(h) + rest) == Ok(h)
    ensures h.version != PROTOCOL_VERSION ==>
              DecodeHeader(EncodeHeader(h) + rest) == Err(VersionMismatch(PROTOCOL_VERSION, h.version))
  {
    var bytes := EncodeHeader(h) + rest;
    assert bytes[0..4] == FRAME_MAGIC;
    assert bytes[4] == h.version && bytes[5] == h.frameType.Code();
    assert bytes[6..14] == Be64(h.requestId);
    assert bytes[14..18] == Be32(h.payloadLen);
    assert FrameTypeOf(h.frameType.Code()) == Some(h.frameType);
    RoundTrip64(h.requestId);
    RoundTrip32(h.payloadLen);
  }

  /** Every header the decoder accepts re-encodes to the very bytes it was read from. */
  lemma HeaderCanonical(input: seq<byte>)
    requires DecodeHeader(input).Ok?
    ensures |input| >= FRAME_HEADER_LEN
    ensures DecodeHeader(input).value.version == PROTOCOL_VERSION
    ensures EncodeHeader(DecodeHeader(input).value) == input[..FRAME_HEADER_LEN]
  {
    Canonical64(input[6..14]);
    Canonical32(input[14..18]);
    assert input[..18] == input[0..4] + [input[4], input[5]] + input[6..14] + input[14..18];
  }

  /** Only the first 18 bytes decide what the header decoder answers. */
  lemma HeaderPrefix(input: seq<byte>, k: nat)
    requires FRAME_HEADER_LEN <= k <= |input|
    ensures DecodeHeader(input[..k]) == DecodeHeader(input)
  {
    var cut := input[..k];
    assert cut[0..4] == input[0..4] && cut[6..14] == input[6..14] && cut[14..18] == input[14..18];
  }

  // ---------------------------------------------------------------------------------------------
  // The frame codec.

  /** An encoded frame decodes to its header and payload if and only if the version is current
      and the payload length fits the 32-bit length field it was cast to. */
  lemma FrameRoundTrip(h: FrameHeader, payload: seq<byte>)
    ensures DecodeFrame(EncodeFrame(h, payload)).Ok? <==>
            h.version == PROTOCOL_VERSION && |payload| <= U32_MAX
    ensures DecodeFrame(EncodeFrame(h, payload)).Ok? ==>
              DecodeFrame(EncodeFrame(h, payload)) == Ok(Decoded(h.(payloadLen := |payload|), payload))
  {
    var h' := h.(payloadLen := |payload| % 0x1_0000_0000);
    HeaderRoundTrip(h', payload);
    assert EncodeFrame(h, payload)[FRAME_HEADER_LEN..] == payload;
  }

  /** Every byte string the frame decoder accepts is the encoding of what it decoded. */
  lemma FrameCanonical(bytes: seq<byte>)
    requires DecodeFrame(bytes).Ok?
    ensures EncodeFrame(DecodeFrame(bytes).value.header, DecodeFrame(bytes).value.payload) == bytes
  {
    HeaderCanonical(bytes);
    var d := DecodeFrame(bytes).value;
    assert d.header.(payloadLen := |d.payload| % 0x1_0000_0000) == d.header;
    assert bytes == bytes[..FRAME_HEADER_LEN] + bytes[FRAME_HEADER_LEN..];
  }

  /** No frame is a proper prefix of another: frames on a stream are self-delimiting. */
  lemma FramePrefixFree(a: seq<byte>, b: seq<byte>)
    requires DecodeFrame(a).Ok? && DecodeFrame(b).Ok?
    requires a <= b
    ensures a == b
  {
    HeaderPrefix(b, |a|);
    assert b[..|a|] == a;
  }

  /** Length check of an archived payload before it is framed. */
  predicate PayloadFits(archivedLen: nat) {
    archivedLen <= MAX_PAYLOAD_LEN
  }

  /** The bytes of one header, most significant first. */
  lemma HeaderBytes()
    ensures EncodeHeader(NewHeader(QueryRequest, 0x0102030405060708, 0x0a0b0c0d)) ==
            [0x47, 0x34, 0x43, 0x31, 1, 5, 1, 2, 3, 4, 5, 6, 7, 8, 0x0a, 0x0b, 0x0c, 0x0d]
  {
    hide Be32, Be64;
    Be64Bytes([1, 2, 3, 4, 5, 6, 7, 8], 0x0102030405060708);
    Be32Bytes([0x0a, 0x0b, 0x0c, 0x0d], 0x0a0b0c0d);
  }
}

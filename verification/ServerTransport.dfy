/** How a server answers a frame, and the shortcuts it takes on UDP
    (crates/server/src/transport.rs, crates/server/src/udp_transport.rs). */
module ServerTransport {
  import opened Results
  import opened Bytes
  import opened Frame
  import opened UdpChunk
  import opened SingleChunk
  import opened Snapshots
  import opened SnapshotSplit

  datatype QueryBody = QueryBody(version: u8, requestId: u64)

  /** The serializers, as arbitrary functions: archives of the two halves of a snapshot, and the
      JSON texts around them. `None` is a failure to serialize or to parse. */
  datatype Codec = Codec(
    archiveRuntime: RuntimeSnapshot -> Option<seq<byte>>,
    archiveMetadata: HostMetadata -> Option<seq<byte>>,
    errorReply: (u64, ErrorCode) -> seq<byte>,
    handshakeVersion: seq<byte> -> Option<u8>,
    queryBody: seq<byte> -> Option<QueryBody>)

  datatype TransportError =
    | FrameDecode(frameError: FrameError)
    | UnexpectedFrameType(frameType: FrameType)
    | Protocol(code: ErrorCode)
    | Json
    | Payload
    | Udp(udpError: ChunkError)

  /** What the snapshot cache answered. */
  type Cached = Result<Snapshot, ErrorCode>

  /** An archive is refused when its length does not fit 16 bits. */
  function EncodePayload(archive: Option<seq<byte>>): Result<seq<byte>, TransportError> {
    if archive.Some? && PayloadFits(|archive.value|) then Ok(archive.value) else Err(Payload)
  }

  function TransportFrame(frameType: FrameType, requestId: u64, payload: seq<byte>): seq<byte> {
    EncodeFrame(NewHeader(frameType, requestId, |payload| % 0x1_0000_0000), payload)
  }

  // ---------------------------------------------------------------------------------------------
  // The general path: a frame in, a frame out.

  function HandleHandshake(codec: Codec, cached: Cached, requestId: u64, payload: seq<byte>):
    Result<seq<byte>, TransportError>
  {
    match codec.handshakeVersion(payload)
    case None => Err(Json)
    case Some(version) =>
      if version != PROTOCOL_VERSION then Err(Protocol(ProtocolVersionMismatch))
      else match cached
        case Ok(snapshot) =>
          (match EncodePayload(codec.archiveMetadata(MetadataOf(snapshot)))
           case Err(e) => Err(e)
           case Ok(bytes) => Ok(TransportFrame(MetadataPayload, requestId, bytes)))
        case Err(code) => Ok(TransportFrame(QueryResponse, requestId, codec.errorReply(requestId, code)))
  }

  /** The id a query is answered under: that of the frame, or of the body if there is one. */
  function QueryId(codec: Codec, requestId: u64, payload: seq<byte>): Result<u64, TransportError> {
    if |payload| == 0 then Ok(requestId)
    else match codec.queryBody(payload)
      case None => Err(Json)
      case Some(body) =>
        if body.version != PROTOCOL_VERSION then Err(Protocol(ProtocolVersionMismatch)) else Ok(body.requestId)
  }

  function HandleQuery(codec: Codec, cached: Cached, requestId: u64, payload: seq<byte>):
    Result<seq<byte>, TransportError>
  {
    match QueryId(codec, requestId, payload)
    case Err(e) => Err(e)
    case Ok(id) =>
      match cached
      case Ok(snapshot) =>
        (match EncodePayload(codec.archiveRuntime(RuntimeOf(snapshot)))
         case Err(e) => Err(e)
         case Ok(bytes) => Ok(TransportFrame(RuntimePayload, id, bytes)))
      case Err(code) => Ok(TransportFrame(QueryResponse, id, codec.errorReply(id, code)))
  }

  function HandleDecoded(codec: Codec, cached: Cached, d: Decoded): Result<seq<byte>, TransportError> {
    match d.header.frameType
    case HandshakeRequest => HandleHandshake(codec, cached, d.header.requestId, d.payload)
    case QueryRequest => HandleQuery(codec, cached, d.header.requestId, d.payload)
    case t => Err(UnexpectedFrameType(t))
  }

  function HandleFrame(codec: Codec, cached: Cached, frame: seq<byte>): Result<seq<byte>, TransportError> {
    match DecodeFrame(frame)
    case Err(e) => Err(FrameDecode(e))
    case Ok(d) => HandleDecoded(codec, cached, d)
  }

  predicate IsDisconnect(frame: seq<byte>) {
    DecodeFrame(frame).Ok? && DecodeFrame(frame).value.header.frameType == Disconnect
  }

  /** The datagrams a frame is sent as; a frame that cannot be encoded is not sent. */
  function SendFramed(crc: Checksum, response: seq<byte>, max: nat): seq<seq<byte>> {
    if |response| <= max then
      match EncodeSingle(crc, response)
      case Ok(datagram) => [datagram]
      case Err(_) => []
    else
      match EncodeChunks(crc, response, max)
      case Ok(datagrams) => datagrams
      case Err(_) => []
  }

  /** The reply without any shortcut. */
  function GeneralReply(crc: Checksum, codec: Codec, cached: Cached, max: nat, frame: seq<byte>): seq<seq<byte>> {
    match HandleFrame(codec, cached, frame)
    case Err(_) => []
    case Ok(response) => SendFramed(crc, response, max)
  }

  // ---------------------------------------------------------------------------------------------
  // The shortcuts: one datagram, built without building the frame.

  /** `Ok(None)` sends the caller back to the general path. */
  function Direct(crc: Checksum, frameType: FrameType, requestId: u64, payload: seq<byte>, max: nat):
    Result<Option<seq<byte>>, TransportError>
  {
    if FRAME_HEADER_LEN + |payload| > max then Ok(None)
    else match EncodeSingleFromParts(crc, frameType, requestId, payload)
      case Ok(datagram) => Ok(Some(datagram))
      case Err(e) => Err(Udp(e))
  }

  function DirectQuery(crc: Checksum, codec: Codec, cached: Cached, requestId: u64, max: nat):
    Result<Option<seq<byte>>, TransportError>
  {
    match cached
    case Ok(snapshot) =>
      (match EncodePayload(codec.archiveRuntime(RuntimeOf(snapshot)))
       case Err(e) => Err(e)
       case Ok(bytes) => Direct(crc, RuntimePayload, requestId, bytes, max))
    case Err(code) => Direct(crc, QueryResponse, requestId, codec.errorReply(requestId, code), max)
  }

  function DirectMetadata(crc: Checksum, codec: Codec, cached: Cached, requestId: u64, payload: seq<byte>, max: nat):
    Result<Option<seq<byte>>, TransportError>
  {
    match codec.handshakeVersion(payload)
    case None => Err(Json)
    case Some(version) =>
      if version != PROTOCOL_VERSION then Err(Protocol(ProtocolVersionMismatch))
      else match cached
        case Ok(snapshot) =>
          (match EncodePayload(codec.archiveMetadata(MetadataOf(snapshot)))
           case Err(e) => Err(e)
           case Ok(bytes) => Direct(crc, MetadataPayload, requestId, bytes, max))
        case Err(code) => Direct(crc, QueryResponse, requestId, codec.errorReply(requestId, code), max)
  }

  predicate HasShortcut(d: Decoded) {
    || d.header.frameType == HandshakeRequest
    || (d.header.frameType == QueryRequest && |d.payload| == 0)
  }

  function DirectReply(crc: Checksum, codec: Codec, cached: Cached, max: nat, d: Decoded):
    Result<Option<seq<byte>>, TransportError>
    requires HasShortcut(d)
  {
    if d.header.frameType == HandshakeRequest
    then DirectMetadata(crc, codec, cached, d.header.requestId, d.payload, max)
    else DirectQuery(crc, codec, cached, d.header.requestId, max)
  }

  /** The reply as the receive loop makes it. The cache is asked a second time when the shortcut
      gives up, and may by then answer differently. */
  function Reply(crc: Checksum, codec: Codec, first: Cached, second: Cached, max: nat, frame: seq<byte>):
    seq<seq<byte>>
  {
    match DecodeFrame(frame)
    case Err(_) => GeneralReply(crc, codec, second, max, frame)
    case Ok(d) =>
      if d.header.frameType == Disconnect then []
      else if !HasShortcut(d) then GeneralReply(crc, codec, second, max, frame)
      else match DirectReply(crc, codec, first, max, d)
        case Ok(Some(datagram)) => [datagram]
        case Ok(None) => GeneralReply(crc, codec, second, max, frame)
        case Err(_) => []
  }

  // ---------------------------------------------------------------------------------------------
  // The shortcuts change nothing.

  /** Sending a frame directly, if it fits, is framing it and sending that. */
  lemma DirectIsFramed(crc: Checksum, frameType: FrameType, requestId: u64, payload: seq<byte>, max: nat)
    ensures var direct := Direct(crc, frameType, requestId, payload, max);
            var framed := SendFramed(crc, TransportFrame(frameType, requestId, payload), max);
            && (direct == Ok(None) <==> |TransportFrame(frameType, requestId, payload)| > max)
            && (direct.Err? ==> framed == [])
            && (direct.Ok? && direct.value.Some? ==> framed == [direct.value.value])
  {
    hide EncodeSingle, EncodeHeader;
    var response := TransportFrame(frameType, requestId, payload);
    assert response == EncodeFrame(NewHeader(frameType, requestId, 0), payload);
    if |response| <= max {
      FromPartsIsSingle(crc, frameType, requestId, payload);
      if |payload| > U32_MAX {
        TooLongForOne(crc, response);
      }
    }
  }

  lemma TooLongForOne(crc: Checksum, frame: seq<byte>)
    requires |frame| > U16_MAX
    ensures EncodeSingle(crc, frame).Err?
  {
  }

  /** The shortcut answers with this cache answer: it fits one datagram, or cannot be given. */
  predicate AnsweredDirectly(codec: Codec, cached: Cached, max: nat, frame: seq<byte>) {
    && DecodeFrame(frame).Ok?
    && HasShortcut(DecodeFrame(frame).value)
    && match HandleFrame(codec, cached, frame)
       case Ok(response) => |response| <= max
       case Err(_) => true
  }

  /** For every frame, capacity and pair of cache answers, the datagrams sent are byte for byte
      those of the general path on one of the two answers: the first if its reply fits the
      capacity, else the second. */
  lemma ReplyRefinesGeneral(crc: Checksum, codec: Codec, first: Cached, second: Cached, max: nat, frame: seq<byte>)
    ensures Reply(crc, codec, first, second, max, frame) ==
            GeneralReply(crc, codec, if AnsweredDirectly(codec, first, max, frame) then first else second, max, frame)
  {
    hide DecodeFrame, SendFramed, Direct, EncodePayload, TransportFrame;
    var decoded := DecodeFrame(frame);
    if decoded.Ok? && HasShortcut(decoded.value) {
      var d := decoded.value;
      var id := d.header.requestId;
      match first {
        case Err(code) => DirectIsFramed(crc, QueryResponse, id, codec.errorReply(id, code), max);
        case Ok(snapshot) =>
          var archive, t :=
            if d.header.frameType == HandshakeRequest then codec.archiveMetadata(MetadataOf(snapshot))
            else codec.archiveRuntime(RuntimeOf(snapshot)),
            if d.header.frameType == HandshakeRequest then MetadataPayload else RuntimePayload;
          if EncodePayload(archive).Ok? {
            DirectIsFramed(crc, t, id, EncodePayload(archive).value, max);
          }
      }
    }
  }

  // ---------------------------------------------------------------------------------------------
  // Every reply that can be given is sent, whole.

  /** The longest frame around a payload whose length passed the 16-bit check. */
  const MAX_REPLY_FRAME: nat := FRAME_HEADER_LEN + MAX_PAYLOAD_LEN

  lemma FewPieces(len: nat, max: nat)
    requires UDP_MIN_PAYLOAD <= max && len <= MAX_REPLY_FRAME
    ensures DivCeil(len, max) <= 257
  {
    DivCeilMeaning(len, max);
  }

  /** A reply frame of at most that length is sent as exactly the chunks of the chunk encoder,
      at least one and at most 257, each with at most `max` bytes behind its header. */
  lemma FramedReplyIsSent(crc: Checksum, response: seq<byte>, max: nat)
    requires UDP_MIN_PAYLOAD <= max <= U16_MAX
    requires DecodeFrame(response).Ok? && |response| <= MAX_REPLY_FRAME
    ensures EncodeFault(response, max) == None
    ensures EncodeChunks(crc, response, max) == Ok(SendFramed(crc, response, max))
    ensures 1 <= |SendFramed(crc, response, max)| <= 257
    ensures forall datagram <- SendFramed(crc, response, max) ::
              UDP_CHUNK_HEADER_LEN < |datagram| <= UDP_CHUNK_HEADER_LEN + max
  {
    hide DecodeFrame, EncodeSingle, EncodeChunkHeader, PieceHeader, Pieces;
    FewPieces(|response|, max);
    assert |response| > 0 by { NotEmpty(response); }
    if |response| <= max {
      ChunksOfSmallFrame(crc, response, max);
    }
    PiecesCut(response, max);
    var sent := EncodeChunks(crc, response, max).value;
    forall i | 0 <= i < |sent|
      ensures UDP_CHUNK_HEADER_LEN < |sent[i]| <= UDP_CHUNK_HEADER_LEN + max
    {
      assert sent[i] == Datagram(crc, FrameMeta(response, max), Pieces(response, max), i);
    }
  }

  lemma NotEmpty(frame: seq<byte>)
    requires DecodeFrame(frame).Ok?
    ensures |frame| >= FRAME_HEADER_LEN
  {
  }

  /** The id a request is answered under. */
  function AnswerId(codec: Codec, d: Decoded): u64 {
    if d.header.frameType == QueryRequest && QueryId(codec, d.header.requestId, d.payload).Ok?
    then QueryId(codec, d.header.requestId, d.payload).value
    else d.header.requestId
  }

  /** What a response says: the archived half of the cached snapshot, or the cache's error. */
  predicate Answers(codec: Codec, cached: Cached, d: Decoded, response: Decoded) {
    && response.header.requestId == AnswerId(codec, d)
    && response.header.version == PROTOCOL_VERSION
    && match cached
       case Err(code) =>
         && response.header.frameType == QueryResponse
         && response.payload == codec.errorReply(AnswerId(codec, d), code)
       case Ok(snapshot) =>
         && |response.payload| <= MAX_PAYLOAD_LEN
         && if d.header.frameType == HandshakeRequest
            then
              && response.header.frameType == MetadataPayload
              && codec.archiveMetadata(MetadataOf(snapshot)) == Some(response.payload)
            else
              && response.header.frameType == RuntimePayload
              && codec.archiveRuntime(RuntimeOf(snapshot)) == Some(response.payload)
  }

  /** A response decodes, and says what it should, unless the text of an error exceeds 4 GiB. */
  lemma ResponseAnswers(codec: Codec, cached: Cached, frame: seq<byte>)
    requires HandleFrame(codec, cached, frame).Ok?
    ensures DecodeFrame(frame).Ok?
    ensures DecodeFrame(frame).value.header.frameType in {HandshakeRequest, QueryRequest}
    ensures var response := DecodeFrame(HandleFrame(codec, cached, frame).value);
            && (response.Ok? <==> |HandleFrame(codec, cached, frame).value| <= FRAME_HEADER_LEN + U32_MAX)
            && (response.Ok? ==> Answers(codec, cached, DecodeFrame(frame).value, response.value))
  {
    hide DecodeFrame;
    var d := DecodeFrame(frame).value;
    var id := AnswerId(codec, d);
    match cached {
      case Err(code) => ResponseDecodes(QueryResponse, id, codec.errorReply(id, code));
      case Ok(snapshot) =>
        if d.header.frameType == HandshakeRequest {
          ResponseDecodes(MetadataPayload, id, codec.archiveMetadata(MetadataOf(snapshot)).value);
        } else {
          ResponseDecodes(RuntimePayload, id, codec.archiveRuntime(RuntimeOf(snapshot)).value);
        }
    }
  }

  /** The id under which a response goes: that of the frame, but that of the body for a query with one. */
  lemma ResponseIdIs(codec: Codec, cached: Cached, frame: seq<byte>)
    requires HandleFrame(codec, cached, frame).Ok?
    requires DecodeFrame(HandleFrame(codec, cached, frame).value).Ok?
    ensures DecodeFrame(frame).Ok?
    ensures var d := DecodeFrame(frame).value;
            var id := DecodeFrame(HandleFrame(codec, cached, frame).value).value.header.requestId;
            if d.header.frameType == QueryRequest && d.payload != [] then
              codec.queryBody(d.payload).Some? && id == codec.queryBody(d.payload).value.requestId
            else id == d.header.requestId
  {
    hide DecodeFrame;
    ResponseAnswers(codec, cached, frame);
  }

  /** The request is one the server answers: a handshake of the current version, or a query without a
      body or with one of the current version. */
  predicate IsRequest(codec: Codec, d: Decoded) {
    || (d.header.frameType == HandshakeRequest && codec.handshakeVersion(d.payload) == Some(PROTOCOL_VERSION))
    || (&& d.header.frameType == QueryRequest
        && (d.payload == [] ||
            (&& codec.queryBody(d.payload).Some?
             && codec.queryBody(d.payload).value.version == PROTOCOL_VERSION)))
  }

  /** The half of the snapshot that was asked for serializes to a payload of at most 65535 bytes. */
  predicate Fits(codec: Codec, d: Decoded, s: Snapshot) {
    var archive := if d.header.frameType == HandshakeRequest then codec.archiveMetadata(MetadataOf(s))
                   else codec.archiveRuntime(RuntimeOf(s));
    archive.Some? && |archive.value| <= 65535
  }

  /** There is a response exactly to every frame that is a request, if the cache failed or the half of
      its snapshot fits. */
  lemma AnswersExactly(codec: Codec, cached: Cached, frame: seq<byte>)
    ensures HandleFrame(codec, cached, frame).Ok? <==>
            && DecodeFrame(frame).Ok?
            && IsRequest(codec, DecodeFrame(frame).value)
            && (cached.Ok? ==> Fits(codec, DecodeFrame(frame).value, cached.value))
  {
    hide DecodeFrame, RuntimeOf, MetadataOf, TransportFrame;
  }

  lemma ResponseDecodes(frameType: FrameType, id: u64, payload: seq<byte>)
    ensures |TransportFrame(frameType, id, payload)| == FRAME_HEADER_LEN + |payload|
    ensures DecodeFrame(TransportFrame(frameType, id, payload)).Ok? <==> |payload| <= U32_MAX
    ensures DecodeFrame(TransportFrame(frameType, id, payload)).Ok? ==>
              DecodeFrame(TransportFrame(frameType, id, payload)) ==
              Ok(Decoded(NewHeader(frameType, id, |payload|), payload))
  {
    FrameRoundTrip(NewHeader(frameType, id, |payload| % 0x1_0000_0000), payload);
  }

  /** A request is answered, by one to 257 datagrams that reassemble to a frame saying what it
      should, exactly when the handler has a response, for every capacity a 16-bit length field
      can carry and every error text that fits a payload. */
  lemma EveryResponseIsSent(crc: Checksum, codec: Codec, cached: Cached, max: nat, frame: seq<byte>)
    requires UDP_MIN_PAYLOAD <= max <= U16_MAX
    requires forall id, code :: |codec.errorReply(id, code)| <= MAX_PAYLOAD_LEN
    ensures GeneralReply(crc, codec, cached, max, frame) == [] <==> HandleFrame(codec, cached, frame).Err?
    ensures |GeneralReply(crc, codec, cached, max, frame)| <= 257
    ensures HandleFrame(codec, cached, frame).Ok? ==>
              EncodeChunks(crc, HandleFrame(codec, cached, frame).value, max) ==
              Ok(GeneralReply(crc, codec, cached, max, frame))
  {
    hide DecodeFrame, EncodeChunks, HandleFrame;
    if HandleFrame(codec, cached, frame).Ok? {
      ResponseAnswers(codec, cached, frame);
      var response := HandleFrame(codec, cached, frame).value;
      assert |response| <= MAX_REPLY_FRAME by { ResponseLength(codec, cached, frame); }
      FramedReplyIsSent(crc, response, max);
    }
  }

  lemma ResponseLength(codec: Codec, cached: Cached, frame: seq<byte>)
    requires forall id, code :: |codec.errorReply(id, code)| <= MAX_PAYLOAD_LEN
    requires HandleFrame(codec, cached, frame).Ok?
    ensures |HandleFrame(codec, cached, frame).value| <= MAX_REPLY_FRAME
  {
  }

  // ---------------------------------------------------------------------------------------------
  // Datagram sizes and the MTU.

  const UDP_HEADER: nat := 8

  function IpHeader(v6: bool): nat {
    if v6 then 40 else 20
  }

  /** The MTU that applies: configured, else that of the route, else the fallback. */
  function Mtu(configured: u16, route: Option<nat>): nat {
    if configured > 0 then configured
    else if route.Some? then route.value
    else UDP_FALLBACK_MTU
  }

  function EffectiveCapacity(v6: bool, mtu: nat): (cap: nat)
    ensures cap >= UDP_MIN_PAYLOAD
  {
    var overhead := IpHeader(v6) + UDP_HEADER + UDP_CHUNK_HEADER_LEN;
    var left := if mtu < overhead then 0 else mtu - overhead;
    if left < UDP_MIN_PAYLOAD then UDP_MIN_PAYLOAD else left
  }

  predicate FitsMtu(v6: bool, mtu: nat, datagram: seq<byte>) {
    IpHeader(v6) + UDP_HEADER + |datagram| <= mtu
  }

  /** Every datagram of a frame fits the MTU if and only if the MTU is at least 316 (IPv4) or 336
      (IPv6), or the frame is short enough to fit all the same; and then no byte of it is wasted on a
      full datagram. */
  lemma DatagramsFitMtu(crc: Checksum, frame: seq<byte>, v6: bool, mtu: nat)
    requires EncodeFault(frame, EffectiveCapacity(v6, mtu)) == None
    ensures (forall datagram <- EncodeChunks(crc, frame, EffectiveCapacity(v6, mtu)).value ::
               FitsMtu(v6, mtu, datagram))
            <==> (mtu >= (if v6 then 336 else 316) ||
                  IpHeader(v6) + UDP_HEADER + UDP_CHUNK_HEADER_LEN + |frame| <= mtu)
    ensures mtu >= (if v6 then 336 else 316) && |frame| > EffectiveCapacity(v6, mtu) ==>
              IpHeader(v6) + UDP_HEADER + |EncodeChunks(crc, frame, EffectiveCapacity(v6, mtu)).value[0]| == mtu
  {
    hide DecodeFrame, EncodeChunkHeader, PieceHeader;
    var max := EffectiveCapacity(v6, mtu);
    var pieces := Pieces(frame, max);
    PiecesCut(frame, max);
    var sent := EncodeChunks(crc, frame, max).value;
    forall i | 0 <= i < |sent|
      ensures |sent[i]| == UDP_CHUNK_HEADER_LEN + |pieces[i]|
    {
      assert sent[i] == Datagram(crc, FrameMeta(frame, max), pieces, i);
    }
    assert |pieces[0]| == if |frame| <= max then |frame| else max;
    assert sent[0] in sent;
    assert |frame| <= max ==> |pieces| == 1;
  }

  // ---------------------------------------------------------------------------------------------
  // The second cache answer can be the one that counts.

  const LONG_ARCHIVE: seq<byte> := seq(300, _ => 0)

  /** A server whose runtime archives take 300 bytes. */
  const WORDY: Codec := Codec(_ => Some(LONG_ARCHIVE), _ => None, (_, _) => [0], _ => None, _ => None)

  /** A query whose reply does not fit the smallest capacity when the cache is first asked; the cache
      is asked again and fails. The reply is one datagram with the error, where the general path on
      the first answer sends the snapshot in two. */
  lemma SecondAnswerReplies(crc: Checksum, s: Snapshot)
    ensures var frame := TransportFrame(QueryRequest, 1, []);
            var sent := Reply(crc, WORDY, Ok(s), Err(Internal), UDP_MIN_PAYLOAD, frame);
            && sent == GeneralReply(crc, WORDY, Err(Internal), UDP_MIN_PAYLOAD, frame)
            && sent != GeneralReply(crc, WORDY, Ok(s), UDP_MIN_PAYLOAD, frame)
            && |sent| == 1 && |GeneralReply(crc, WORDY, Ok(s), UDP_MIN_PAYLOAD, frame)| == 2
  {
    hide DecodeFrame, EncodeFrame, RuntimeOf, EncodeSingle, Datagram;
    var frame := TransportFrame(QueryRequest, 1, []);
    ResponseDecodes(QueryRequest, 1, []);
    ReplyRefinesGeneral(crc, WORDY, Ok(s), Err(Internal), UDP_MIN_PAYLOAD, frame);
    var long, short := TransportFrame(RuntimePayload, 1, LONG_ARCHIVE), TransportFrame(QueryResponse, 1, [0]);
    ResponseDecodes(RuntimePayload, 1, LONG_ARCHIVE);
    ResponseDecodes(QueryResponse, 1, [0]);
    FramedReplyIsSent(crc, long, UDP_MIN_PAYLOAD);
    FramedReplyIsSent(crc, short, UDP_MIN_PAYLOAD);
    assert HandleFrame(WORDY, Ok(s), frame) == Ok(long);
    assert HandleFrame(WORDY, Err(Internal), frame) == Ok(short);
    assert DivCeil(|long|, UDP_MIN_PAYLOAD) == 1 + DivCeil(|long| - UDP_MIN_PAYLOAD, UDP_MIN_PAYLOAD) == 2;
    assert DivCeil(|short|, UDP_MIN_PAYLOAD) == 1;
  }
}

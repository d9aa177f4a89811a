/** A query from the server's cache to the client's snapshot, through the bytes of the frames
    (crates/client-backend/src/transport.rs, crates/client-backend/src/udp_client.rs). */
module WireQuery {
  import opened Results
  import opened Bytes
  import opened Frame
  import opened Snapshots
  import opened MetadataHash
  import opened SnapshotSplit
  import opened ServerTransport

  /** A query response as its JSON text says it; `code` is empty when the status is ok. */
  datatype ErrorText = ErrorText(version: u8, code: Option<ErrorCode>)

  /** The client's readers of what the server's serializers write. */
  datatype Reader = Reader(
    runtime: seq<byte> -> Option<RuntimeSnapshot>,
    metadata: seq<byte> -> Option<HostMetadata>,
    errorText: seq<byte> -> Option<ErrorText>)

  datatype ClientError =
    | BadFrame(frameError: FrameError)
    | WrongType(expected: FrameType, found: FrameType)
    | Unreadable
    | ServerSaid(code: Option<ErrorCode>)
    | VersionRefused
    | PeerLeft

  /** A frame of the expected type, and its payload. */
  function SplitFrame(frame: seq<byte>, expected: FrameType): Result<seq<byte>, ClientError> {
    match DecodeFrame(frame)
    case Err(e) => Err(BadFrame(e))
    case Ok(d) =>
      if d.header.frameType != expected then Err(WrongType(expected, d.header.frameType)) else Ok(d.payload)
  }

  /** The server's error, out of a query response that came instead of a payload. */
  function ServerError(reader: Reader, frame: seq<byte>): ClientError {
    match SplitFrame(frame, QueryResponse)
    case Err(e) => e
    case Ok(payload) =>
      match reader.errorText(payload)
      case None => Unreadable
      case Some(text) => if text.version != PROTOCOL_VERSION then VersionRefused else ServerSaid(text.code)
  }

  function ParseMetadata(reader: Reader, frame: seq<byte>): Result<HostMetadata, ClientError> {
    match SplitFrame(frame, MetadataPayload)
    case Ok(payload) => (match reader.metadata(payload) case Some(m) => Ok(m) case None => Err(Unreadable))
    case Err(e) => Err(if e == WrongType(MetadataPayload, QueryResponse) then ServerError(reader, frame) else e)
  }

  function ParseRuntime(reader: Reader, frame: seq<byte>): Result<RuntimeSnapshot, ClientError> {
    match SplitFrame(frame, RuntimePayload)
    case Ok(payload) => (match reader.runtime(payload) case Some(r) => Ok(r) case None => Err(Unreadable))
    case Err(e) =>
      Err(if e == WrongType(RuntimePayload, QueryResponse) then ServerError(reader, frame)
          else if e == WrongType(RuntimePayload, Disconnect) then PeerLeft
          else e)
  }

  datatype Answered = Answered(metadata: HostMetadata, snapshot: Result<Snapshot, ClientError>)

  /** `query_connected`: what the client then holds, and what it returns. `metadataFrame` is the
      reply to the metadata request, should one be needed. */
  function ClientQuery(reader: Reader, held: HostMetadata, runtimeFrame: seq<byte>, metadataFrame: seq<byte>): Answered
  {
    match ParseRuntime(reader, runtimeFrame)
    case Err(e) => Answered(held, Err(e))
    case Ok(runtime) =>
      if runtime.metadataHash != 0 && runtime.metadataHash != Hash(held) then
        match ParseMetadata(reader, metadataFrame)
        case Err(e) => Answered(held, Err(e))
        case Ok(m) => Answered(m, Ok(Join(runtime, m)))
      else Answered(held, Ok(Join(runtime, held)))
  }

  /** Reading undoes writing. */
  ghost predicate Reads(reader: Reader, codec: Codec) {
    && (forall r :: codec.archiveRuntime(r).Some? ==> reader.runtime(codec.archiveRuntime(r).value) == Some(r))
    && (forall m :: codec.archiveMetadata(m).Some? ==> reader.metadata(codec.archiveMetadata(m).value) == Some(m))
    && (forall id, code ::
          reader.errorText(codec.errorReply(id, code)) == Some(ErrorText(PROTOCOL_VERSION, Some(code))))
  }

  /** A response read back: the half of the snapshot that was asked for, or the cache's error. */
  lemma ReadBack(reader: Reader, codec: Codec, cached: Cached, request: seq<byte>, response: seq<byte>)
    requires Reads(reader, codec)
    requires HandleFrame(codec, cached, request) == Ok(response) && |response| <= FRAME_HEADER_LEN + U32_MAX
    ensures DecodeFrame(request).Ok?
    ensures DecodeFrame(request).value.header.frameType == QueryRequest ==>
              ParseRuntime(reader, response) ==
              match cached case Ok(s) => Ok(RuntimeOf(s)) case Err(code) => Err(ServerSaid(Some(code)))
    ensures DecodeFrame(request).value.header.frameType == HandshakeRequest ==>
              ParseMetadata(reader, response) ==
              match cached case Ok(s) => Ok(MetadataOf(s)) case Err(code) => Err(ServerSaid(Some(code)))
  {
    hide DecodeFrame, HandleFrame, RuntimeOf, MetadataOf;
    ResponseAnswers(codec, cached, request);
  }

  /** What the client joins a runtime reply with. */
  function JoinedWith(reader: Reader, held: HostMetadata, s: Snapshot, metadataFrame: seq<byte>):
    Result<HostMetadata, ClientError>
  {
    if Refetches(held, s) then ParseMetadata(reader, metadataFrame) else Ok(held)
  }

  /** For every response the server gives to a query, every metadata held and every frame that comes
      as a metadata reply: if the cache failed, the client gets the cache's error and keeps what it
      held; else it gets the server's cached snapshot, commands erased, if and only if what it joins
      with is there and agrees with it. */
  lemma QueryOverTheWire(reader: Reader, codec: Codec, cached: Cached, held: HostMetadata,
                         query: seq<byte>, first: seq<byte>, second: seq<byte>)
    requires Reads(reader, codec)
    requires HandleFrame(codec, cached, query) == Ok(first) && |first| <= FRAME_HEADER_LEN + U32_MAX
    requires DecodeFrame(query).Ok? && DecodeFrame(query).value.header.frameType == QueryRequest
    ensures cached.Err? ==>
              ClientQuery(reader, held, first, second) == Answered(held, Err(ServerSaid(Some(cached.error))))
    ensures cached.Ok? ==>
              var joined := JoinedWith(reader, held, cached.value, second);
              ClientQuery(reader, held, first, second).snapshot == Ok(OmitCommands(cached.value)) <==>
              joined.Ok? && Agrees(joined.value, cached.value)
  {
    hide DecodeFrame, HandleFrame, ParseRuntime, ParseMetadata, Join, OmitCommands, MetadataOf, Hash, Reads, Agrees;
    ReadBack(reader, codec, cached, query, first);
    if cached.Ok? {
      var joined := JoinedWith(reader, held, cached.value, second);
      if joined.Ok? {
        JoinsWithWhatAgrees(cached.value, joined.value);
      }
    }
  }

  /** What makes the server's static data safe to be fetched apart: unchanged, a function of the
      index, no empty text, and a nonzero hash without collision. */
  ghost predicate StaticSafe(held: HostMetadata, s: Snapshot) {
    && StaticByIndex(s) && NoEmptyText(MetadataOf(s)) && NoEmptyText(held)
    && Hash(MetadataOf(s)) != 0
    && (Hash(held) == Hash(MetadataOf(s)) ==> Stream(held) == Stream(MetadataOf(s)))
  }

  /** With such static data the server's cached snapshot arrives, commands erased, when the reply to
      the metadata request, if one is sent, was made from a snapshot with the same static data. */
  lemma ServerSnapshotArrives(reader: Reader, codec: Codec, s: Snapshot, later: Snapshot, held: HostMetadata,
                              query: seq<byte>, hello: seq<byte>, first: seq<byte>, second: seq<byte>)
    requires Reads(reader, codec)
    requires HandleFrame(codec, Ok(s), query) == Ok(first)
    requires DecodeFrame(query).Ok? && DecodeFrame(query).value.header.frameType == QueryRequest
    requires StaticSafe(held, s)
    requires Refetches(held, s) ==>
               && HandleFrame(codec, Ok(later), hello) == Ok(second)
               && DecodeFrame(hello).Ok? && DecodeFrame(hello).value.header.frameType == HandshakeRequest
               && MetadataOf(later) == MetadataOf(s)
    ensures ClientQuery(reader, held, first, second) == Answered(MetadataOf(s), Ok(OmitCommands(s)))
  {
    hide DecodeFrame, HandleFrame, ParseRuntime, ParseMetadata, Join, OmitCommands, MetadataOf, Hash, Reads, Agrees,
      Stream, NoEmptyText, StaticByIndex;
    OkResponseIsShort(codec, s, query);
    QueryOverTheWire(reader, codec, Ok(s), held, query, first, second);
    ReadBack(reader, codec, Ok(s), query, first);
    HashTellsAgreement(held, s);
    OwnMetadataAgrees(s);
    if Refetches(held, s) {
      OkResponseIsShort(codec, later, hello);
      ReadBack(reader, codec, Ok(later), hello, second);
    }
  }

  lemma OkResponseIsShort(codec: Codec, s: Snapshot, request: seq<byte>)
    requires HandleFrame(codec, Ok(s), request).Ok?
    ensures |HandleFrame(codec, Ok(s), request).value| <= FRAME_HEADER_LEN + U32_MAX
  {
    hide DecodeFrame, RuntimeOf, MetadataOf;
  }
}

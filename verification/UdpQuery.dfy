/** A query over UDP from end to end: what the frames accepted in a run of the connection give the
    client (crates/client-backend/src/udp_client.rs, `query_connected`). */
module UdpQuery {
  import opened Results
  import opened Bytes
  import opened Frame
  import opened Reassembler
  import opened UdpChunk
  import opened SingleChunk
  import opened Snapshots
  import opened SnapshotSplit
  import opened ServerTransport
  import opened UdpServer
  import opened UdpSession
  import opened UdpSessionSafety
  import opened WireQuery
  import UdpClient

  /** Reply `j` ends the client's wait with this frame. */
  predicate Accepts(link: Link, s: Session, j: nat, frame: seq<byte>) {
    Enabled(s, Receive(j)) && InRange(s) && Outcome(link, s, j) == UdpClient.Got(frame)
  }

  /** The reply came in one datagram, or however often the server handled the request it had the same
      response. */
  predicate OneAnswer(link: Link, s: Session, j: nat)
    requires Enabled(s, Receive(j))
  {
    || DecodeSingle(link.server.crc, s.replies[j].datagram) != Ok(None)
    || SameResponse(link, s, s.phase.request)
  }

  /** A wait ends on a datagram that carries the id, and with a frame. */
  lemma GotCarriesTheId(crc: Checksum, id: u64, groups: Groups, datagram: seq<byte>)
    requires UdpClient.RecvStep(crc, id, groups, datagram).Got?
    ensures DecodeSingle(crc, datagram).Ok?
    ensures DecodeChunk(datagram).Ok? && DecodeChunk(datagram).value.requestId == id
    ensures DecodeFrame(UdpClient.RecvStep(crc, id, groups, datagram).frame).Ok?
  {
    hide DecodeChunk, DecodeFrame, Accept;
  }

  /** An accepted frame is the response of the server in a handling of the awaited request, if the
      reply came in one datagram or the server had but one response. (`ChunkedReplyOutcome` says what
      is accepted otherwise.) */
  lemma AcceptedIsResponse(link: Link, states: seq<Session>, steps: seq<Step>, n: nat, j: nat, frame: seq<byte>)
    returns (h: nat)
    requires ValidLink(link) && IsRun(link, states, steps) && n < |states|
    requires Accepts(link, states[n], j, frame) && OneAnswer(link, states[n], j)
    ensures h < |states[n].handlings| && states[n].handlings[h].request == states[n].phase.request
    ensures ResponseOf(link, states[n], states[n].handlings[h]) == Ok(frame)
    ensures DecodeFrame(frame).Ok?
  {
    hide DecodeFrame, DecodeChunk, DecodeSingle, UdpClient.RecvStep, FeedAll, Fed, HandleFrame, Used, AllThere,
      EncodeFault, IsRun;
    var s := states[n];
    GotCarriesTheId(
      link.server.crc, s.requests[s.phase.request].id, FeedAll(Fed(s.replies, s.phase.fed)), s.replies[j].datagram);
    EveryChunkAnswersItself(link, states, steps, n, j);
    h := s.replies[j].handling;
    if DecodeSingle(link.server.crc, s.replies[j].datagram) == Ok(None) {
      ReassembledReplyAnswersItself(link, states, steps, n, j);
    } else {
      SingleReplyAnswersItself(link, states, steps, n, j);
    }
  }

  /** The type of the request the client waits for. */
  predicate Awaits(s: Session, frameType: FrameType) {
    && s.phase.Awaiting? && s.phase.request < |s.requests|
    && DecodeFrame(s.requests[s.phase.request].frame).Ok?
    && DecodeFrame(s.requests[s.phase.request].frame).value.header.frameType == frameType
  }

  /** The cache answer behind the response of a handling. */
  function CachedFor(link: Link, s: Session, h: nat): Cached
    requires h < |s.handlings| && s.handlings[h].request < |s.requests|
  {
    Used(link, s.handlings[h], s.requests[s.handlings[h].request].frame)
  }

  /** The client has the snapshot, commands erased. */
  predicate Right(answer: Answered, s: Snapshot) {
    answer.snapshot == Ok(OmitCommands(s))
  }

  /** In every run of a connection, for the frame accepted for a query and, if metadata was fetched,
      the frame accepted for that request: if the cache had failed for that very query, the client
      gets the cache's error; else it gets the cached snapshot that the query was answered from,
      commands erased, if and only if the metadata it joins with agrees with it, be it what it held
      or, when the hash calls for it, what the server had when it handled the metadata request. */
  lemma QueryReturnsWhatTheServerHad(link: Link, reader: Reader, states: seq<Session>, steps: seq<Step>,
                                     n: nat, j: nat, first: seq<byte>,
                                     fetched: bool, m: nat, i: nat, second: seq<byte>, held: HostMetadata)
    returns (h: nat, g: nat)
    requires ValidLink(link) && IsRun(link, states, steps) && n < |states| && m < |states|
    requires Reads(reader, link.server.codec)
    requires Awaits(states[n], QueryRequest) && Accepts(link, states[n], j, first) && OneAnswer(link, states[n], j)
    requires fetched ==>
               && Awaits(states[m], HandshakeRequest)
               && Accepts(link, states[m], i, second) && OneAnswer(link, states[m], i)
    ensures h < |states[n].handlings| && states[n].handlings[h].request == states[n].phase.request
    ensures fetched ==> g < |states[m].handlings| && states[m].handlings[g].request == states[m].phase.request
    ensures var cached := CachedFor(link, states[n], h);
            cached.Err? ==>
              ClientQuery(reader, held, first, second) == Answered(held, Err(ServerSaid(Some(cached.error))))
    ensures var cached := CachedFor(link, states[n], h);
            cached.Ok? && !Refetches(held, cached.value) ==>
              (Right(ClientQuery(reader, held, first, second), cached.value) <==> Agrees(held, cached.value))
    ensures var cached := CachedFor(link, states[n], h);
            cached.Ok? && Refetches(held, cached.value) && fetched ==>
              var later := CachedFor(link, states[m], g);
              (Right(ClientQuery(reader, held, first, second), cached.value) <==>
               later.Ok? && Agrees(MetadataOf(later.value), cached.value))
  {
    hide DecodeFrame, HandleFrame, Accepts, OneAnswer, Used, ClientQuery, Refetches, Reads, MetadataOf, OmitCommands,
      IsRun, Agrees;
    h := AcceptedIsResponse(link, states, steps, n, j, first);
    g := 0;
    var s := states[n];
    var codec, query := link.server.codec, s.requests[s.phase.request].frame;
    var cached := CachedFor(link, s, h);
    FrameIsShort(first);
    QueryOverTheWire(reader, codec, cached, held, query, first, second);
    if fetched {
      g := AcceptedIsResponse(link, states, steps, m, i, second);
      var hello := states[m].requests[states[m].phase.request].frame;
      FrameIsShort(second);
      ReadBack(reader, codec, CachedFor(link, states[m], g), hello, second);
    }
  }

  /** So with static data that is a function of the index and the same for both requests the client
      has the server's snapshot whenever it fetched the metadata. */
  lemma SameStaticDataAgrees(s: Snapshot, later: Snapshot)
    requires StaticByIndex(s) && MetadataOf(later) == MetadataOf(s)
    ensures Agrees(MetadataOf(later), s)
  {
    OwnMetadataAgrees(s);
  }

  lemma FrameIsShort(frame: seq<byte>)
    requires DecodeFrame(frame).Ok?
    ensures |frame| <= FRAME_HEADER_LEN + U32_MAX
  {
  }
}

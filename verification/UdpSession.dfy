/** One UDP connection from end to end: the client's requests, the server's replies, and a network
    between them that loses, delays, reorders and repeats datagrams in both directions
    (crates/client-backend/src/udp_client.rs, crates/server/src/udp_transport.rs). */
module UdpSession {
  import opened Results
  import opened Bytes
  import opened Net
  import opened Frame
  import opened UdpChunk
  import opened Reassembler
  import opened SingleChunk
  import opened ServerTransport
  import opened UdpServer
  import UdpClient

  /** Both ends, the client's address and capacity, and the body of its handshake. */
  datatype Link = Link(server: Config, client: SocketAddr, clientMax: nat, hello: seq<byte>)

  /** The handshake request fits one datagram. */
  predicate ValidLink(link: Link) {
    && link.clientMax >= UDP_MIN_PAYLOAD
    && FRAME_HEADER_LEN + |link.hello| <= UDP_MIN_PAYLOAD
  }

  /** A datagram the client has sent; `expects` tells a request from a farewell. */
  datatype Request = Request(id: u64, expects: bool, frame: seq<byte>, datagram: seq<byte>)

  /** The server's handling of one delivery of a request, and the cache answers it drew on. */
  datatype Handling = Handling(request: nat, first: Cached, second: Cached, max: nat)

  datatype Replied = Replied(datagram: seq<byte>, handling: nat)

  /** The client waits for the answer to one request at a time; `fed` lists the replies it has
      given to the reassembler of this wait. */
  datatype Phase = Idle | Awaiting(request: nat, fed: seq<nat>)

  /** `drawn` holds the request ids taken from the counter and not yet used: several callers may
      draw before one of them gets hold of the socket. Everything ever sent can still arrive. */
  datatype Session = Session(
    nextId: nat,
    drawn: set<u64>,
    phase: Phase,
    requests: seq<Request>,
    peer: PeerState,
    handlings: seq<Handling>,
    replies: seq<Replied>)

  datatype Step =
    | Draw
    | Ask(askId: u64)
    | Greet(greetId: u64)
    | Leave(leaveId: u64, reason: seq<byte>)
    | Handle(request: nat, now: nat, route: Option<nat>, first: Cached, second: Cached, takes: nat)
    | Receive(reply: nat)
    | GiveUp

  const FIRST_ID: nat := 1

  /** The connection's first request, the handshake of `connect_node`, has id 1. */
  predicate Init(s: Session) {
    && s.nextId == FIRST_ID + 1 && s.drawn == {FIRST_ID}
    && s.phase == Idle && s.requests == [] && s.peer == NEW_PEER && s.handlings == [] && s.replies == []
  }

  predicate Enabled(s: Session, step: Step) {
    match step
    case Draw => s.nextId < 0x1_0000_0000_0000_0000
    case Ask(id) => s.phase == Idle && id in s.drawn
    case Greet(id) => s.phase == Idle && id in s.drawn
    case Leave(id, _) => s.phase == Idle && id in s.drawn
    case Handle(k, _, _, _, _, _) => k < |s.requests|
    case Receive(j) => s.phase.Awaiting? && j < |s.replies| && s.phase.request < |s.requests|
    case GiveUp => s.phase.Awaiting?
  }

  function QueryFrame(id: u64): seq<byte> {
    TransportFrame(QueryRequest, id, [])
  }

  function HelloFrame(link: Link, id: u64): seq<byte> {
    TransportFrame(HandshakeRequest, id, link.hello)
  }

  /** `send_empty_query` */
  function QueryDatagrams(link: Link, id: u64): seq<seq<byte>> {
    match EncodeSingleFromParts(link.server.crc, QueryRequest, id, [])
    case Ok(datagram) => [datagram]
    case Err(_) => []
  }

  /** `disconnect` always goes through the chunk encoder. */
  function LeaveDatagrams(link: Link, id: u64, reason: seq<byte>): seq<seq<byte>> {
    match EncodeChunks(link.server.crc, TransportFrame(Disconnect, id, reason), link.clientMax)
    case Ok(datagrams) => datagrams
    case Err(_) => []
  }

  function AsRequests(id: u64, expects: bool, frame: seq<byte>, datagrams: seq<seq<byte>>): (rs: seq<Request>)
    ensures |rs| == |datagrams|
  {
    seq(|datagrams|, i requires 0 <= i < |datagrams| => Request(id, expects, frame, datagrams[i]))
  }

  /** A request leaves and the wait for its answer begins. */
  function Start(s: Session, id: u64, frame: seq<byte>, datagrams: seq<seq<byte>>): Session {
    s.(drawn := s.drawn - {id},
       phase := Awaiting(|s.requests|, []),
       requests := s.requests + AsRequests(id, true, frame, datagrams))
  }

  function ArrivalOf(link: Link, r: Request, now: nat, route: Option<nat>, first: Cached, second: Cached, takes: nat):
    Arrival
  {
    Arrival(link.client, r.datagram, now, route, first, second, takes)
  }

  function AsReplies(datagrams: seq<seq<byte>>, handling: nat): (rs: seq<Replied>)
    ensures |rs| == |datagrams|
  {
    seq(|datagrams|, i requires 0 <= i < |datagrams| => Replied(datagrams[i], handling))
  }

  /** The datagrams of some replies. */
  function Fed(replies: seq<Replied>, fed: seq<nat>): (run: seq<seq<byte>>)
    requires forall i :: 0 <= i < |fed| ==> fed[i] < |replies|
    ensures |run| == |fed|
  {
    seq(|fed|, i requires 0 <= i < |fed| => replies[fed[i]].datagram)
  }

  predicate InRange(s: Session) {
    s.phase.Awaiting? ==> forall i :: 0 <= i < |s.phase.fed| ==> s.phase.fed[i] < |s.replies|
  }

  /** What the receive step answers when reply `j` comes in. */
  function Outcome(link: Link, s: Session, j: nat): UdpClient.Outcome
    requires Enabled(s, Receive(j)) && InRange(s)
  {
    UdpClient.RecvStep(
      link.server.crc, s.requests[s.phase.request].id, FeedAll(Fed(s.replies, s.phase.fed)), s.replies[j].datagram)
  }

  function Apply(link: Link, s: Session, step: Step): Session
    requires Enabled(s, step) && InRange(s)
  {
    match step
    case Draw => s.(nextId := s.nextId + 1, drawn := s.drawn + {s.nextId})
    case Ask(id) => Start(s, id, QueryFrame(id), QueryDatagrams(link, id))
    case Greet(id) =>
      Start(s, id, HelloFrame(link, id), SendFramed(link.server.crc, HelloFrame(link, id), link.clientMax))
    case Leave(id, reason) =>
      s.(drawn := s.drawn - {id},
         requests := s.requests + AsRequests(id, false, TransportFrame(Disconnect, id, reason),
                                             LeaveDatagrams(link, id, reason)))
    case Handle(k, now, route, first, second, takes) =>
      var a := ArrivalOf(link, s.requests[k], now, route, first, second, takes);
      var step := PeerStep(link.server, s.peer, a);
      s.(peer := step.state,
         handlings := s.handlings + [Handling(k, first, second, CapFor(link.server, s.peer.cap, a))],
         replies := s.replies + AsReplies(step.sent, |s.handlings|))
    case Receive(j) =>
      (match Outcome(link, s, j)
       case Got(_) => s.(phase := Idle)
       case Fails(_) => s.(phase := Idle)
       case Waits(_) =>
         if UdpClient.FeedsReassembler(link.server.crc, s.replies[j].datagram)
         then s.(phase := s.phase.(fed := s.phase.fed + [j]))
         else s)
    case GiveUp => s.(phase := Idle)
  }

  ghost predicate IsRun(link: Link, states: seq<Session>, steps: seq<Step>) {
    && |states| == |steps| + 1
    && Init(states[0])
    && forall i {:trigger steps[i]} :: 0 <= i < |steps| ==> Follows(link, states[i], steps[i], states[i + 1])
  }

  /** The step can be taken and leads there. */
  predicate Follows(link: Link, s: Session, step: Step, next: Session) {
    Enabled(s, step) && InRange(s) && next == Apply(link, s, step)
  }

  // ---------------------------------------------------------------------------------------------
  // Requests on the wire.

  /** A request that expects an answer is one datagram around its frame, and the frame is one the
      server answers under the frame's own id; a farewell's chunks say that they are one. */
  predicate GoodRequest(link: Link, r: Request) {
    if r.expects then
      && DecodeSingle(link.server.crc, r.datagram) == Ok(Some(r.frame))
      && DecodeFrame(r.frame).Ok?
      && HasShortcut(DecodeFrame(r.frame).value)
      && DecodeFrame(r.frame).value.header.requestId == r.id
    else
      DecodeChunk(r.datagram).Ok? ==> DecodeChunk(r.datagram).value.frameType == Disconnect
  }

  lemma SmallFrameIsOneRequest(link: Link, frameType: FrameType, id: u64, payload: seq<byte>, max: nat)
    requires FRAME_HEADER_LEN + |payload| <= max && FRAME_HEADER_LEN + |payload| <= UDP_MIN_PAYLOAD
    ensures var frame := TransportFrame(frameType, id, payload);
            && |frame| <= max && |frame| <= U16_MAX
            && DecodeFrame(frame) == Ok(Decoded(NewHeader(frameType, id, |payload|), payload))
            && EncodeSingle(link.server.crc, frame).Ok?
            && DecodeSingle(link.server.crc, EncodeSingle(link.server.crc, frame).value) == Ok(Some(frame))
  {
    ResponseDecodes(frameType, id, payload);
    SingleRoundTrip(link.server.crc, TransportFrame(frameType, id, payload));
  }

  lemma QueryIsOneRequest(link: Link, id: u64)
    requires ValidLink(link)
    ensures |QueryDatagrams(link, id)| == 1
    ensures GoodRequest(link, Request(id, true, QueryFrame(id), QueryDatagrams(link, id)[0]))
  {
    hide DecodeFrame, DecodeSingle, EncodeSingle, EncodeSingleFromParts, EncodeFrame;
    SmallFrameIsOneRequest(link, QueryRequest, id, [], UDP_MIN_PAYLOAD);
    FromPartsIsSingle(link.server.crc, QueryRequest, id, []);
    assert QueryFrame(id) == EncodeFrame(NewHeader(QueryRequest, id, 0), []);
  }

  lemma HelloIsOneRequest(link: Link, id: u64)
    requires ValidLink(link)
    ensures var datagrams := SendFramed(link.server.crc, HelloFrame(link, id), link.clientMax);
            && |datagrams| == 1
            && GoodRequest(link, Request(id, true, HelloFrame(link, id), datagrams[0]))
  {
    hide DecodeFrame, DecodeSingle, EncodeSingle, EncodeFrame;
    SmallFrameIsOneRequest(link, HandshakeRequest, id, link.hello, link.clientMax);
  }

  /** So every datagram of a chunked frame says the frame's type and id. */
  lemma ChunkSaysItsFrame(crc: Checksum, frame: seq<byte>, max: nat, datagram: seq<byte>)
    requires EncodeChunks(crc, frame, max).Ok? && datagram in EncodeChunks(crc, frame, max).value
    requires DecodeChunk(datagram).Ok?
    ensures EncodeFault(frame, max) == None && DecodeFrame(frame).Ok?
    ensures MetaOf(DecodeChunk(datagram).value) == FrameMeta(frame, max)
    ensures DecodeChunk(datagram).value.requestId == DecodeFrame(frame).value.header.requestId
    ensures DecodeChunk(datagram).value.frameType == DecodeFrame(frame).value.header.frameType
  {
    hide DecodeFrame, DecodeChunk, EncodeChunkHeader;
    var meta, pieces := FrameMeta(frame, max), Pieces(frame, max);
    var i :| 0 <= i < |pieces| && datagram == Datagram(crc, meta, pieces, i);
    DecodesToItsHeader(PieceHeader(crc, meta, pieces, i), pieces[i]);
  }

  lemma LeaveSaysSo(link: Link, id: u64, reason: seq<byte>, i: nat)
    requires i < |LeaveDatagrams(link, id, reason)|
    ensures var frame := TransportFrame(Disconnect, id, reason);
            GoodRequest(link, Request(id, false, frame, LeaveDatagrams(link, id, reason)[i]))
  {
    hide DecodeFrame, DecodeChunk, EncodeChunks, EncodeFrame;
    var frame, d := TransportFrame(Disconnect, id, reason), LeaveDatagrams(link, id, reason)[i];
    if DecodeChunk(d).Ok? {
      ChunkSaysItsFrame(link.server.crc, frame, link.clientMax, d);
      ResponseDecodes(Disconnect, id, reason);
    }
  }

  // ---------------------------------------------------------------------------------------------
  // Replies on the wire.

  /** The cache answer that a handling replied with. */
  function Used(link: Link, h: Handling, frame: seq<byte>): Cached {
    if AnsweredDirectly(link.server.codec, h.first, h.max, frame) then h.first else h.second
  }

  /** The response of a handling. */
  function ResponseOf(link: Link, s: Session, h: Handling): Result<seq<byte>, TransportError>
    requires h.request < |s.requests|
  {
    var frame := s.requests[h.request].frame;
    HandleFrame(link.server.codec, Used(link, h, frame), frame)
  }

  /** A datagram sent as an answer to request `r`, in a handling with the given cache answers. */
  predicate SentFor(link: Link, r: Request, h: Handling, datagram: seq<byte>) {
    && r.expects
    && datagram in Reply(link.server.crc, link.server.codec, h.first, h.second, h.max, r.frame)
  }

  /** An expected request is handled by itself, and a farewell gets no reply. */
  lemma HandlingAnswersItsRequest(link: Link, p: PeerState, r: Request, a: Arrival, datagram: seq<byte>)
    requires GoodRequest(link, r) && a.datagram == r.datagram
    requires datagram in PeerStep(link.server, p, a).sent
    ensures r.expects
    ensures var max := CapFor(link.server, p.cap, a);
            datagram in Reply(link.server.crc, link.server.codec, a.first, a.second, max, r.frame)
  {
    hide Reply, DecodeChunk, Accept, DecodeFrame, HandleFrame;
    if !r.expects {
      CompletedSaysItsType(link.server, p.inbox, a.datagram, a.now);
      assert false;
    }
  }

  /** Every reply datagram that decodes carries the id of the request it answers. */
  lemma ReplyCarriesTheId(link: Link, r: Request, h: Handling, datagram: seq<byte>)
    requires GoodRequest(link, r) && SentFor(link, r, h, datagram)
    requires DecodeChunk(datagram).Ok?
    ensures DecodeChunk(datagram).value.requestId == r.id
  {
    hide DecodeFrame, DecodeChunk, EncodeChunks, EncodeSingle, DecodeSingle, HandleFrame, Reply, Answers;
    ReplyIsResponse(link, r, h, datagram);
    var cached := Used(link, h, r.frame);
    var response := HandleFrame(link.server.codec, cached, r.frame).value;
    ResponseId(link, r, cached);
    if |response| <= h.max {
      SingleRoundTrip(link.server.crc, response);
    } else {
      ChunkSaysItsFrame(link.server.crc, response, h.max, datagram);
    }
  }

  /** What a reply is: its handling's response, as one datagram or cut into several. */
  lemma ReplyIsResponse(link: Link, r: Request, h: Handling, datagram: seq<byte>)
    requires SentFor(link, r, h, datagram)
    ensures HandleFrame(link.server.codec, Used(link, h, r.frame), r.frame).Ok?
    ensures var response := HandleFrame(link.server.codec, Used(link, h, r.frame), r.frame).value;
            if |response| <= h.max
            then EncodeSingle(link.server.crc, response) == Ok(datagram)
            else EncodeChunks(link.server.crc, response, h.max).Ok? &&
                 datagram in EncodeChunks(link.server.crc, response, h.max).value
  {
    hide DecodeFrame, EncodeChunks, EncodeSingle, HandleFrame, AnsweredDirectly, Reply;
    ReplyRefinesGeneral(link.server.crc, link.server.codec, h.first, h.second, h.max, r.frame);
  }

  lemma ResponseId(link: Link, r: Request, cached: Cached)
    requires GoodRequest(link, r) && r.expects
    requires HandleFrame(link.server.codec, cached, r.frame).Ok?
    ensures var response := HandleFrame(link.server.codec, cached, r.frame).value;
            DecodeFrame(response).Ok? ==> DecodeFrame(response).value.header.requestId == r.id
  {
    hide DecodeFrame, DecodeSingle, HandleFrame;
    ResponseAnswers(link.server.codec, cached, r.frame);
  }
}

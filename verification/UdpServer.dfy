/** The server's UDP receive loop: one shared socket, many peers
    (crates/server/src/udp_transport.rs). */
module UdpServer {
  import opened Results
  import opened Bytes
  import opened Net
  import opened Frame
  import opened UdpChunk
  import opened Reassembler
  import opened SingleChunk
  import opened ServerTransport

  datatype Config = Config(crc: Checksum, codec: Codec, mtu: u16, idleTimeout: nat)

  /** One received datagram, with everything the loop asks for while it handles it: the clock, the
      MTU of the route back, the cache's answers to a first and a second lookup, and how many
      datagrams the socket takes before a send fails. */
  datatype Arrival = Arrival(
    peer: SocketAddr,
    datagram: seq<byte>,
    now: nat,
    route: Option<nat>,
    first: Cached,
    second: Cached,
    takes: nat)

  datatype PeerState = PeerState(inbox: Option<Inbox>, cap: Option<nat>)

  const NEW_PEER: PeerState := PeerState(None, None)

  /** The reassembler in use: a missing or expired one is replaced by a new one. */
  function LiveInbox(config: Config, inbox: Option<Inbox>, now: nat): Inbox {
    if inbox.Some? && now < inbox.value.deadline then inbox.value
    else Inbox(now + config.idleTimeout, map[])
  }

  /** The frame a datagram completes, if it does, and the reassembler afterwards. */
  function TakeIn(config: Config, inbox: Option<Inbox>, datagram: seq<byte>, now: nat):
    (Option<Inbox>, Option<seq<byte>>)
  {
    match DecodeSingle(config.crc, datagram)
    case Err(_) => (inbox, None)
    case Ok(Some(frame)) => (inbox, Some(frame))
    case Ok(None) =>
      var live := LiveInbox(config, inbox, now);
      var answer := Answer(config.crc, live.groups, datagram);
      (Some(live.(groups := Accept(live.groups, datagram))), if answer.Ok? then answer.value else None)
  }

  /** The capacity towards a peer is looked up once, when a reply is first prepared. */
  predicate PreparesReply(codec: Codec, second: Cached, frame: seq<byte>) {
    || (DecodeFrame(frame).Ok? && HasShortcut(DecodeFrame(frame).value))
    || HandleFrame(codec, second, frame).Ok?
  }

  function CapFor(config: Config, cap: Option<nat>, a: Arrival): nat {
    if cap.Some? then cap.value else EffectiveCapacity(a.peer.v6, Mtu(config.mtu, a.route))
  }

  /** Sending stops at the first failure. */
  function Sendable(datagrams: seq<seq<byte>>, takes: nat): seq<seq<byte>> {
    if |datagrams| <= takes then datagrams else datagrams[..takes]
  }

  datatype PeerStepped = PeerStepped(state: PeerState, sent: seq<seq<byte>>)

  /** One datagram, as its peer sees it. */
  function PeerStep(config: Config, p: PeerState, a: Arrival): PeerStepped {
    var (inbox, completed) := TakeIn(config, p.inbox, a.datagram, a.now);
    match completed
    case None => PeerStepped(p.(inbox := inbox), [])
    case Some(frame) =>
      if IsDisconnect(frame) then PeerStepped(p.(inbox := None), [])
      else
        var max := CapFor(config, p.cap, a);
        PeerStepped(
          PeerState(inbox, if PreparesReply(config.codec, a.second, frame) then Some(max) else p.cap),
          Sendable(Reply(config.crc, config.codec, a.first, a.second, max, frame), a.takes))
  }

  /** A peer alone with the server, from what the server remembers of it. */
  function PeerRun(config: Config, p: PeerState, arrivals: seq<Arrival>): PeerStepped {
    if |arrivals| == 0 then PeerStepped(p, [])
    else
      var before := PeerRun(config, p, arrivals[..|arrivals| - 1]);
      var step := PeerStep(config, before.state, arrivals[|arrivals| - 1]);
      PeerStepped(step.state, before.sent + step.sent)
  }

  // ---------------------------------------------------------------------------------------------
  // Requests in one datagram.

  /** What the server says to a frame at this capacity, given what the cache answers: the chunks of the
      handler's response, if there is one. */
  predicate IsReplyTo(config: Config, cached: Cached, frame: seq<byte>, max: nat, sent: seq<seq<byte>>) {
    match HandleFrame(config.codec, cached, frame)
    case Err(_) => sent == []
    case Ok(response) => sent != [] && EncodeChunks(config.crc, response, max) == Ok(sent)
  }

  /** Error texts fit a payload. */
  ghost predicate ShortErrors(codec: Codec) {
    forall id, code :: |codec.errorReply(id, code)| <= MAX_PAYLOAD_LEN
  }

  /** The datagram that a frame is sent as, if it is sent as one, is read as that frame. */
  lemma SentInOneDatagram(config: Config, frame: seq<byte>, a: Arrival)
    requires EncodeSingle(config.crc, frame) == Ok(a.datagram)
    ensures DecodeSingle(config.crc, a.datagram) == Ok(Some(frame))
  {
    SingleRoundTrip(config.crc, frame);
  }

  /** A datagram that cannot be read is passed over. */
  lemma BadDatagramIsIgnored(config: Config, p: PeerState, a: Arrival)
    requires DecodeSingle(config.crc, a.datagram).Err?
    ensures PeerStep(config, p, a) == PeerStepped(p, [])
  {
    hide DecodeSingle;
  }

  /** For every state of a peer, a request that comes in one datagram is answered at once, by the
      chunks of the handler's response on one of the two cache answers (the first if its response fits
      the capacity, else the second, when there is a shortcut; else the second), and by nothing exactly
      if the handler has none. The reassembler is left alone. */
  lemma OneDatagramIsAnswered(config: Config, p: PeerState, frame: seq<byte>, a: Arrival)
    requires DecodeSingle(config.crc, a.datagram) == Ok(Some(frame)) && !IsDisconnect(frame)
    requires UDP_MIN_PAYLOAD <= CapFor(config, p.cap, a) <= U16_MAX
    requires ShortErrors(config.codec) && a.takes >= 257
    ensures var max := CapFor(config, p.cap, a);
            var cached := if AnsweredDirectly(config.codec, a.first, max, frame) then a.first else a.second;
            IsReplyTo(config, cached, frame, max, PeerStep(config, p, a).sent)
    ensures PeerStep(config, p, a).state.inbox == p.inbox
  {
    hide DecodeFrame, DecodeSingle, Reply, HandleFrame, EncodeSingle, EncodeChunks, AnsweredDirectly, IsDisconnect;
    var max := CapFor(config, p.cap, a);
    ReplyRefinesGeneral(config.crc, config.codec, a.first, a.second, max, frame);
    var cached := if AnsweredDirectly(config.codec, a.first, max, frame) then a.first else a.second;
    EveryResponseIsSent(config.crc, config.codec, cached, max, frame);
  }

  /** The MTU towards a peer that has none yet: the configured one if there is one, else that of the
      route, else 1200. */
  function MtuFor(config: Config, a: Arrival): nat {
    if config.mtu > 0 then config.mtu else if a.route.Some? then a.route.value else 1200
  }

  /** Everything sent to a new peer fits that MTU, headers included, if it is at least 316 (IPv4) or
      336 (IPv6); and the first datagram of a reply that takes several fills it. */
  lemma RepliesFitTheMtu(config: Config, p: PeerState, frame: seq<byte>, a: Arrival)
    requires DecodeSingle(config.crc, a.datagram) == Ok(Some(frame)) && !IsDisconnect(frame)
    requires p.cap == None && MtuFor(config, a) <= U16_MAX
    requires MtuFor(config, a) >= if a.peer.v6 then 336 else 316
    requires ShortErrors(config.codec) && a.takes >= 257
    ensures forall d <- PeerStep(config, p, a).sent :: FitsMtu(a.peer.v6, MtuFor(config, a), d)
    ensures |PeerStep(config, p, a).sent| > 1 ==>
              IpHeader(a.peer.v6) + UDP_HEADER + |PeerStep(config, p, a).sent[0]| == MtuFor(config, a)
  {
    hide DecodeFrame, PeerStep, HandleFrame, EncodeSingle, EncodeChunks, AnsweredDirectly, IsDisconnect, FitsMtu;
    var max, mtu := CapFor(config, p.cap, a), MtuFor(config, a);
    assert max == EffectiveCapacity(a.peer.v6, mtu);
    OneDatagramIsAnswered(config, p, frame, a);
    var cached := if AnsweredDirectly(config.codec, a.first, max, frame) then a.first else a.second;
    if HandleFrame(config.codec, cached, frame).Ok? {
      var response := HandleFrame(config.codec, cached, frame).value;
      EncodedMeans(config.crc, response, max);
      DatagramsFitMtu(config.crc, response, a.peer.v6, mtu);
    }
  }

  lemma EncodedMeans(crc: Checksum, frame: seq<byte>, max: nat)
    requires EncodeChunks(crc, frame, max).Ok?
    ensures EncodeFault(frame, max) == None
    ensures |EncodeChunks(crc, frame, max).value| > 1 ==> |frame| > max
  {
    hide DecodeFrame;
  }

  // ---------------------------------------------------------------------------------------------
  // Requests in several datagrams.

  /** A chunk of a longer frame goes to the reassembler. */
  predicate Feeds(config: Config, a: Arrival) {
    DecodeSingle(config.crc, a.datagram) == Ok(None)
  }

  /** What the reassembler has been given. */
  function FedBy(config: Config, arrivals: seq<Arrival>): seq<seq<byte>> {
    if |arrivals| == 0 then []
    else
      var before, last := FedBy(config, arrivals[..|arrivals| - 1]), arrivals[|arrivals| - 1];
      if Feeds(config, last) then before + [last.datagram] else before
  }

  /** When the reassembler was made: at the first such chunk. */
  function MadeAt(config: Config, arrivals: seq<Arrival>): Option<nat> {
    if |arrivals| == 0 then None
    else
      var before, last := MadeAt(config, arrivals[..|arrivals| - 1]), arrivals[|arrivals| - 1];
      if before.None? && Feeds(config, last) then Some(last.now) else before
  }

  /** No such chunk comes when the idle timeout since the first has passed. */
  predicate Timely(config: Config, arrivals: seq<Arrival>) {
    |arrivals| == 0 ||
    (&& Timely(config, arrivals[..|arrivals| - 1])
     && (Feeds(config, arrivals[|arrivals| - 1]) ==>
           && MadeAt(config, arrivals).Some?
           && arrivals[|arrivals| - 1].now < MadeAt(config, arrivals).value + config.idleTimeout))
  }

  /** The peer does not take its leave. */
  predicate NoFarewell(arrivals: seq<Arrival>) {
    forall i :: 0 <= i < |arrivals| ==> !SaysFarewell(arrivals[i].datagram)
  }

  predicate SaysFarewell(datagram: seq<byte>) {
    DecodeChunk(datagram).Ok? && DecodeChunk(datagram).value.frameType == Disconnect
  }

  /** A frame that a datagram completes is of the type that the datagram says. */
  lemma CompletedSaysItsType(config: Config, inbox: Option<Inbox>, datagram: seq<byte>, now: nat)
    ensures var completed := TakeIn(config, inbox, datagram, now).1;
            completed.Some? ==>
              && DecodeChunk(datagram).Ok? && DecodeFrame(completed.value).Ok?
              && DecodeFrame(completed.value).value.header.frameType == DecodeChunk(datagram).value.frameType
  {
    hide DecodeChunk, DecodeHeader;
  }

  /** As long as its deadline has not passed, the reassembler of a peer that had none (a new peer, or
      one that took its leave) holds all it was given, whatever else the peer has sent. */
  lemma {:induction false} InboxCollects(config: Config, p: PeerState, arrivals: seq<Arrival>)
    requires p.inbox == None && Timely(config, arrivals) && NoFarewell(arrivals)
    ensures PeerRun(config, p, arrivals).state.inbox ==
            match MadeAt(config, arrivals)
            case None => None
            case Some(made) => Some(Inbox(made + config.idleTimeout, FeedAll(FedBy(config, arrivals))))
    ensures MadeAt(config, arrivals).None? ==> FedBy(config, arrivals) == []
  {
    hide PeerStep, Feeds, Accept, FeedAll, SaysFarewell;
    if |arrivals| > 0 {
      var front, last := arrivals[..|arrivals| - 1], arrivals[|arrivals| - 1];
      InboxCollects(config, p, front);
      InboxStep(config, PeerRun(config, p, front).state, last);
      FeedOneMore(FedBy(config, front), last.datagram);
    }
  }

  lemma InboxStep(config: Config, p: PeerState, a: Arrival)
    requires !SaysFarewell(a.datagram)
    ensures PeerStep(config, p, a).state.inbox ==
            if !Feeds(config, a) then p.inbox
            else
              var live := LiveInbox(config, p.inbox, a.now);
              Some(live.(groups := Accept(live.groups, a.datagram)))
  {
    hide DecodeSingle, DecodeChunk, DecodeFrame, Answer, Accept, Reply, PreparesReply, CapFor;
    CompletedSaysItsType(config, p.inbox, a.datagram, a.now);
  }

  lemma FeedOneMore(run: seq<seq<byte>>, datagram: seq<byte>)
    ensures FeedAll(run + [datagram]) == Accept(FeedAll(run), datagram)
    ensures FeedAll([]) == map[]
  {
    assert (run + [datagram])[..|run|] == run;
  }

  /** A farewell that completes clears what the server had of a peer's requests. */
  lemma FarewellClears(config: Config, p: PeerState, a: Arrival)
    requires TakeIn(config, p.inbox, a.datagram, a.now).1.Some? && SaysFarewell(a.datagram)
    ensures PeerStep(config, p, a) == PeerStepped(p.(inbox := None), [])
  {
    hide DecodeSingle, DecodeChunk, DecodeFrame, Answer, Accept, Reply;
    CompletedSaysItsType(config, p.inbox, a.datagram, a.now);
  }

  /** A request in several datagrams, in any order, with repeats and with other requests of the same
      peer in between, from a peer without a reassembler and within the idle timeout of the one it
      gets: nothing is sent on a chunk until it is the last missing one, and then the reply to the
      request, as far as the socket takes it. Pieces too long for the length field are never
      answered. */
  lemma ChunkedRequestIsAnswered(config: Config, p: PeerState, frame: seq<byte>, max: nat, arrivals: seq<Arrival>)
    requires p.inbox == None
    requires |arrivals| > 0 && Timely(config, arrivals) && NoFarewell(arrivals)
    requires EncodeFault(frame, max) == None && |frame| > max
    requires arrivals[|arrivals| - 1].datagram in EncodeChunks(config.crc, frame, max).value
    requires OnlyGenuine(config.crc, FrameMeta(frame, max), Pieces(frame, max), FedBy(config, arrivals))
    ensures var front, last := arrivals[..|arrivals| - 1], arrivals[|arrivals| - 1];
            var before := PeerRun(config, p, front).state;
            var max' := CapFor(config, before.cap, last);
            PeerStep(config, before, last).sent ==
            if max <= U16_MAX && AllThere(config.crc, frame, max, FedBy(config, arrivals))
            then Sendable(Reply(config.crc, config.codec, last.first, last.second, max', frame), last.takes)
            else []
  {
    hide DecodeSingle, DecodeChunk, DecodeFrame, Answer, Accept, Reply, PreparesReply, CapFor, OnlyGenuine, AllThere,
      EncodeFault, EncodeChunks, FeedAll;
    var front, last := arrivals[..|arrivals| - 1], arrivals[|arrivals| - 1];
    var before := PeerRun(config, p, front).state;
    CompletedSaysItsType(config, before.inbox, last.datagram, last.now);
    assert !SaysFarewell(last.datagram);
    InboxCollects(config, p, front);
    FeedOneMore(FedBy(config, front), last.datagram);
    LastChunk(config, frame, max, FedBy(config, front), last);
  }

  /** A chunk of a longer frame and the reassembler's answer to it. */
  lemma LastChunk(config: Config, frame: seq<byte>, max: nat, run: seq<seq<byte>>, last: Arrival)
    requires EncodeFault(frame, max) == None && |frame| > max
    requires last.datagram in EncodeChunks(config.crc, frame, max).value
    requires Feeds(config, last) ==>
               OnlyGenuine(config.crc, FrameMeta(frame, max), Pieces(frame, max), run + [last.datagram])
    ensures max <= U16_MAX ==> Feeds(config, last)
    ensures !Feeds(config, last) ==> DecodeSingle(config.crc, last.datagram).Err?
    ensures Feeds(config, last) ==>
              Answer(config.crc, FeedAll(run), last.datagram) ==
              Ok(if max <= U16_MAX && AllThere(config.crc, frame, max, run + [last.datagram]) then Some(frame)
                 else None)
  {
    hide DecodeFrame, DecodeChunk, Answer, FeedAll, EncodeFault, OnlyGenuine, AllThere, Pieces, Datagram;
    var meta, pieces := FrameMeta(frame, max), Pieces(frame, max);
    var j :| 0 <= j < |pieces| && Datagrams(config.crc, meta, pieces)[j] == last.datagram;
    SmallPiecesOf(frame, max);
    GenuineDecodes(config.crc, meta, pieces, j);
    SeveralPieces(frame, max);
    if Feeds(config, last) {
      var all := run + [last.datagram];
      assert all[..|all| - 1] == run;
      ReassemblesInAnyOrder(config.crc, frame, max, all, j);
    }
  }

  lemma SeveralPieces(frame: seq<byte>, max: nat)
    requires EncodeFault(frame, max) == None && |frame| > max
    ensures FrameMeta(frame, max).totalChunks > 1
  {
    assert DivCeil(|frame| - max, max) >= 1;
  }

  /** After the deadline what came before is forgotten: the next chunk of a longer frame, whatever it
      is, completes nothing, and the reassembler starts again with it alone. */
  lemma LateChunkStartsAnew(config: Config, p: PeerState, late: Arrival)
    requires Feeds(config, late)
    requires p.inbox.Some? ==> late.now >= p.inbox.value.deadline
    ensures var step := PeerStep(config, p, late);
            && step.sent == []
            && step.state == p.(inbox := Some(Inbox(late.now + config.idleTimeout, FeedAll([late.datagram]))))
  {
    hide DecodeChunk, Answer, Accept;
    FreshAnswerMany(config.crc, late.datagram);
    FeedOneMore([], late.datagram);
    assert [] + [late.datagram] == [late.datagram];
  }

  // ---------------------------------------------------------------------------------------------
  // Many peers.

  function From(arrivals: seq<Arrival>, peer: SocketAddr): seq<Arrival> {
    if |arrivals| == 0 then []
    else
      var before := From(arrivals[..|arrivals| - 1], peer);
      if arrivals[|arrivals| - 1].peer == peer then before + [arrivals[|arrivals| - 1]] else before
  }

  datatype Sent = Sent(peer: SocketAddr, datagrams: seq<seq<byte>>)

  function SentTo(log: seq<Sent>, peer: SocketAddr): seq<seq<byte>> {
    if |log| == 0 then []
    else
      var before := SentTo(log[..|log| - 1], peer);
      if log[|log| - 1].peer == peer then before + log[|log| - 1].datagrams else before
  }

  class Server {
    const config: Config
    var reassemblers: map<SocketAddr, Inbox>
    var payloadCaps: map<SocketAddr, nat>

    constructor (config: Config)
      ensures this.config == config
      ensures forall p :: StateOf(p) == NEW_PEER
    {
      this.config := config;
      reassemblers := map[];
      payloadCaps := map[];
    }

    function StateOf(peer: SocketAddr): PeerState
      reads this
    {
      PeerState(
        if peer in reassemblers then Some(reassemblers[peer]) else None,
        if peer in payloadCaps then Some(payloadCaps[peer]) else None)
    }

    /** `payload_caps.entry(peer).or_insert_with(..)` */
    method CapOf(a: Arrival) returns (max: nat)
      modifies this`payloadCaps
      ensures max == CapFor(config, old(StateOf(a.peer)).cap, a)
      ensures payloadCaps == old(payloadCaps)[a.peer := max]
    {
      if a.peer !in payloadCaps {
        payloadCaps := payloadCaps[a.peer := EffectiveCapacity(a.peer.v6, Mtu(config.mtu, a.route))];
      }
      max := payloadCaps[a.peer];
      assert payloadCaps == old(payloadCaps)[a.peer := max];
    }

    /** The frame a datagram completes, if any. */
    method Complete(a: Arrival) returns (completed: Option<seq<byte>>)
      modifies this`reassemblers
      ensures (StateOf(a.peer).inbox, completed) == TakeIn(config, old(StateOf(a.peer)).inbox, a.datagram, a.now)
      ensures forall p | p != a.peer :: StateOf(p) == old(StateOf(p))
    {
      hide DecodeSingle, Answer, Accept;
      var single := DecodeSingle(config.crc, a.datagram);
      if single.Err? {
        return None;
      }
      if single.value.Some? {
        return single.value;
      }
      if a.peer !in reassemblers {
        reassemblers := reassemblers[a.peer := Inbox(a.now + config.idleTimeout, map[])];
      }
      if a.now >= reassemblers[a.peer].deadline {
        reassemblers := reassemblers[a.peer := Inbox(a.now + config.idleTimeout, map[])];
      }
      var inbox := reassemblers[a.peer];
      var answer := Answer(config.crc, inbox.groups, a.datagram);
      reassemblers := reassemblers[a.peer := inbox.(groups := Accept(inbox.groups, a.datagram))];
      return if answer.Ok? then answer.value else None;
    }

    /** The send loop: it breaks at the first datagram that the socket does not take. */
    static method SendAll(datagrams: seq<seq<byte>>, takes: nat) returns (sent: seq<seq<byte>>)
      ensures sent == Sendable(datagrams, takes)
    {
      sent := [];
      for i := 0 to |datagrams|
        invariant sent == datagrams[..i] && i <= takes
      {
        if i >= takes {
          break;
        }
        sent := sent + [datagrams[i]];
      }
      assert datagrams[..|datagrams|] == datagrams;
    }

    /** One turn of the loop: the datagrams sent back, and what the server remembers. Only what
        it remembers of this peer changes. */
    method Receive(a: Arrival) returns (sent: seq<seq<byte>>)
      modifies this
      ensures PeerStepped(StateOf(a.peer), sent) == PeerStep(config, old(StateOf(a.peer)), a)
      ensures forall p | p != a.peer :: StateOf(p) == old(StateOf(p))
    {
      hide DecodeFrame, DecodeSingle, HandleFrame, DirectReply, SendFramed, TakeIn;
      var completed := Complete(a);
      if completed.None? {
        return [];
      }
      var frame := completed.value;
      var decoded := DecodeFrame(frame);
      if decoded.Ok? {
        var d := decoded.value;
        if d.header.frameType == Disconnect {
          reassemblers := reassemblers - {a.peer};
          return [];
        }
        if HasShortcut(d) {
          var max := CapOf(a);
          var direct := DirectReply(config.crc, config.codec, a.first, max, d);
          if direct.Err? {
            return [];
          }
          if direct.value.Some? {
            return Sendable([direct.value.value], a.takes);
          }
        }
      }
      var response := HandleFrame(config.codec, a.second, frame);
      if response.Err? {
        return [];
      }
      var max := CapOf(a);
      sent := SendAll(SendFramed(config.crc, response.value, max), a.takes);
    }

    /** The loop, over any finite stretch of traffic. Each peer is served, and remembered, exactly
        as if it were the only one: nothing another peer sends can change its replies. */
    method Serve(arrivals: seq<Arrival>) returns (log: seq<Sent>)
      requires forall p :: StateOf(p) == NEW_PEER
      modifies this
      ensures forall p :: PeerStepped(StateOf(p), SentTo(log, p)) == PeerRun(config, NEW_PEER, From(arrivals, p))
    {
      hide PeerStep;
      log := [];
      for i := 0 to |arrivals|
        invariant forall p ::
                    PeerStepped(StateOf(p), SentTo(log, p)) == PeerRun(config, NEW_PEER, From(arrivals[..i], p))
      {
        assert arrivals[..i + 1][..i] == arrivals[..i];
        var sent := Receive(arrivals[i]);
        ghost var before := log;
        log := log + [Sent(arrivals[i].peer, sent)];
        assert log[..|log| - 1] == before;
        forall p
          ensures PeerStepped(StateOf(p), SentTo(log, p)) == PeerRun(config, NEW_PEER, From(arrivals[..i + 1], p))
        {
          var mine := From(arrivals[..i], p);
          assert (mine + [arrivals[i]])[..|mine|] == mine;
        }
      }
      assert arrivals[..|arrivals|] == arrivals;
    }
  }
}

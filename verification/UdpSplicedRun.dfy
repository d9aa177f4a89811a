/** A run in which the client accepts a reply that the server never gave: the network repeats a
    query, the cache changes in between, and chunks of both replies meet
    (crates/client-backend/src/udp_client.rs, crates/common/src/udp.rs). */
module UdpSplicedRun {
  import opened Results
  import opened Bytes
  import opened Net
  import opened Frame
  import opened UdpChunk
  import opened Reassembler
  import opened ChunkSplice
  import opened SingleChunk
  import opened Snapshots
  import opened SnapshotSplit
  import opened ServerTransport
  import opened UdpServer
  import opened UdpSession
  import opened UdpSessionSplice
  import UdpClient

  const BARE: Snapshot := Snapshot([], None, [])
  const BUSY: Snapshot := Snapshot([], None, [Gres(0, [], None, None, Memory(0, 0), Utilization(0, 0), [])])

  /** A server whose archives of the two snapshots differ in two bytes. */
  const TWO_ARCHIVES: Codec := Codec(
    (r: RuntimeSnapshot) => Some(if |r.gres| == 0 then Archive(0, 0) else Archive(1, 1)),
    _ => None, (_, _) => [], _ => None, _ => None)

  /** An MTU of 300 leaves the smallest capacity, 256. */
  function LinkWith(crc: Checksum): Link {
    Link(Config(crc, TWO_ARCHIVES, 300, 1000), SocketAddr(false, 1, 1), PIECE, [])
  }

  // ---------------------------------------------------------------------------------------------
  // The query and its two handlings.

  function QueryDatagram(crc: Checksum): seq<byte> {
    var sent := QueryDatagrams(LinkWith(crc), 1);
    if |sent| > 0 then sent[0] else []
  }

  function TheRequest(crc: Checksum): Request {
    Request(1, true, QueryFrame(1), QueryDatagram(crc))
  }

  function ChunksOf(crc: Checksum, frame: seq<byte>): seq<seq<byte>> {
    match EncodeChunks(crc, frame, PIECE)
    case Ok(datagrams) => datagrams
    case Err(_) => []
  }

  function HandlingOf(s: Snapshot): Handling {
    Handling(0, Ok(s), Ok(s), PIECE)
  }

  /** Both handlings have happened, and the client has been given some of the replies. */
  function Waiting(crc: Checksum, fed: seq<nat>): Session {
    Session(
      2, {}, Awaiting(0, fed), [TheRequest(crc)], PeerState(None, Some(PIECE)),
      [HandlingOf(BARE), HandlingOf(BUSY)],
      AsReplies(ChunksOf(crc, ReplyFrame(0, 0)), 0) + AsReplies(ChunksOf(crc, ReplyFrame(1, 1)), 1))
  }

  function Asked(crc: Checksum): Session {
    Session(2, {}, Awaiting(0, []), [TheRequest(crc)], NEW_PEER, [], [])
  }

  function HandledOnce(crc: Checksum): Session {
    Session(
      2, {}, Awaiting(0, []), [TheRequest(crc)], PeerState(None, Some(PIECE)),
      [HandlingOf(BARE)], AsReplies(ChunksOf(crc, ReplyFrame(0, 0)), 0))
  }

  function HandleStep(s: Snapshot): Step {
    Handle(0, 0, None, Ok(s), Ok(s), 6)
  }

  /** The replies in the order they arrive: the first, fifth and sixth chunk of the second reply, the
      others of the first. */
  const ORDER: seq<nat> := [6, 1, 2, 3, 10, 11]

  // ---------------------------------------------------------------------------------------------
  // Each step.

  lemma AskLeadsThere(crc: Checksum)
    ensures ValidLink(LinkWith(crc))
    ensures GoodRequest(LinkWith(crc), TheRequest(crc))
    ensures var s := Session(2, {1}, Idle, [], NEW_PEER, [], []);
            && Init(s) && Enabled(s, Ask(1)) && InRange(s)
            && Apply(LinkWith(crc), s, Ask(1)) == Asked(crc)
  {
    hide GoodRequest, QueryDatagrams, QueryFrame;
    QueryIsOneRequest(LinkWith(crc), 1);
    var s := Session(2, {1}, Idle, [], NEW_PEER, [], []);
    var s' := Apply(LinkWith(crc), s, Ask(1));
    assert s'.requests == [TheRequest(crc)];
    assert s'.drawn == {};
  }

  /** What the server sends for the query when its cache holds a snapshot. */
  lemma HandlingSends(crc: Checksum, p: PeerState, s: Snapshot, a: byte)
    requires GoodRequest(LinkWith(crc), TheRequest(crc))
    requires (s == BARE && a == 0) || (s == BUSY && a == 1)
    requires p.cap == None || p.cap == Some(PIECE)
    ensures var arrival := ArrivalOf(LinkWith(crc), TheRequest(crc), 0, None, Ok(s), Ok(s), 6);
            && CapFor(LinkWith(crc).server, p.cap, arrival) == PIECE
            && PeerStep(LinkWith(crc).server, p, arrival) ==
               PeerStepped(p.(cap := Some(PIECE)), ChunksOf(crc, ReplyFrame(a, a)))
  {
    hide DecodeFrame, DecodeSingle, GoodRequest, Reply, EncodeChunks, HandleFrame, ReplyFrame, QueryFrame,
      QueryDatagrams;
    var link, r := LinkWith(crc), TheRequest(crc);
    var arrival := ArrivalOf(link, r, 0, None, Ok(s), Ok(s), 6);
    QueryTakenIn(link, r, p.inbox);
    QueryResponse(s, a);
    ReplyFrameMember(a, a);
    ReplyFrameBytes(a, a, 0);
    ReplyRefinesGeneral(crc, TWO_ARCHIVES, Ok(s), Ok(s), PIECE, r.frame);
    FramedReplyIsSent(crc, ReplyFrame(a, a), PIECE);
    SixChunks(crc, a);
  }

  lemma QueryTakenIn(link: Link, r: Request, inbox: Option<Inbox>)
    requires GoodRequest(link, r) && r.expects
    ensures TakeIn(link.server, inbox, r.datagram, 0) == (inbox, Some(r.frame))
    ensures DecodeFrame(r.frame).Ok? && HasShortcut(DecodeFrame(r.frame).value) && !IsDisconnect(r.frame)
  {
    hide DecodeFrame, DecodeSingle;
  }

  lemma QueryResponse(s: Snapshot, a: byte)
    requires (s == BARE && a == 0) || (s == BUSY && a == 1)
    ensures HandleFrame(TWO_ARCHIVES, Ok(s), QueryFrame(1)) == Ok(ReplyFrame(a, a))
    ensures DecodeFrame(ReplyFrame(a, a)).Ok?
  {
    hide DecodeFrame, EncodeFrame, Archive, RuntimeOf;
    ResponseDecodes(QueryRequest, 1, []);
    ArchiveFits(s, a);
    FrameRoundTrip(NewHeader(RuntimePayload, 1, 0), Archive(a, a));
    assert TransportFrame(RuntimePayload, 1, Archive(a, a)) == ReplyFrame(a, a) by { SameFrame(Archive(a, a)); }
  }

  lemma ArchiveFits(s: Snapshot, a: byte)
    requires (s == BARE && a == 0) || (s == BUSY && a == 1)
    ensures TWO_ARCHIVES.archiveRuntime(RuntimeOf(s)) == Some(Archive(a, a))
    ensures |Archive(a, a)| == 1518
  {
    hide Archive;
    assert |RuntimeOf(s).gres| == |s.gres|;
    assert |Archive(a, a)| == 1518 by { ArchiveLength(a, a); }
  }

  lemma ArchiveLength(a: byte, b: byte)
    ensures |Archive(a, b)| == 1518
  {
  }

  lemma SameFrame(payload: seq<byte>)
    ensures TransportFrame(RuntimePayload, 1, payload) == EncodeFrame(NewHeader(RuntimePayload, 1, 0), payload)
  {
    hide EncodeHeader;
  }

  lemma SixChunks(crc: Checksum, a: byte)
    ensures EncodeChunks(crc, ReplyFrame(a, a), PIECE) == Ok(ChunksOf(crc, ReplyFrame(a, a)))
    ensures |ChunksOf(crc, ReplyFrame(a, a))| == 6
  {
    hide DecodeFrame, Pieces, ReplyFrame, Datagram;
    ReplyFrameMember(a, a);
  }

  lemma HandleLeadsThere(crc: Checksum)
    requires GoodRequest(LinkWith(crc), TheRequest(crc))
    ensures Enabled(Asked(crc), HandleStep(BARE)) && InRange(Asked(crc))
    ensures Apply(LinkWith(crc), Asked(crc), HandleStep(BARE)) == HandledOnce(crc)
    ensures Enabled(HandledOnce(crc), HandleStep(BUSY)) && InRange(HandledOnce(crc))
    ensures Apply(LinkWith(crc), HandledOnce(crc), HandleStep(BUSY)) == Waiting(crc, [])
  {
    hide PeerStep, CapFor, TheRequest, ChunksOf, ReplyFrame, GoodRequest;
    HandlingSends(crc, NEW_PEER, BARE, 0);
    HandlingSends(crc, PeerState(None, Some(PIECE)), BUSY, 1);
    assert [] + AsReplies(ChunksOf(crc, ReplyFrame(0, 0)), 0) == AsReplies(ChunksOf(crc, ReplyFrame(0, 0)), 0);
    assert [] + [HandlingOf(BARE)] == [HandlingOf(BARE)];
    assert [HandlingOf(BARE)] + [HandlingOf(BUSY)] == [HandlingOf(BARE), HandlingOf(BUSY)];
  }

  // ---------------------------------------------------------------------------------------------
  // The replies on the wire.

  predicate AllReplies(some: seq<nat>) {
    forall k :: 0 <= k < |some| ==> some[k] < 12
  }

  lemma WaitingShape(crc: Checksum, fed: seq<nat>)
    ensures var s := Waiting(crc, fed);
            && s.phase == Awaiting(0, fed)
            && |s.requests| == 1 && s.requests[0] == TheRequest(crc)
            && |s.handlings| == 2 && s.handlings[0] == HandlingOf(BARE) && s.handlings[1] == HandlingOf(BUSY)
            && |s.replies| == 12
            && (AllReplies(fed) ==> InRange(s))
  {
    hide ChunksOf, ReplyFrame, TheRequest;
    SixChunks(crc, 0);
    SixChunks(crc, 1);
  }

  lemma WaitingMore(crc: Checksum, fed: seq<nat>, j: nat)
    ensures var s := Waiting(crc, fed);
            s.(phase := Awaiting(0, fed + [j])) == Waiting(crc, fed + [j])
    ensures Waiting(crc, fed).replies == Waiting(crc, []).replies
  {
    hide ChunksOf, ReplyFrame, TheRequest;
  }

  /** Reply number `r` is chunk `r % 6` of the first or of the second reply. */
  lemma ReplyIs(crc: Checksum, fed: seq<nat>, r: nat)
    requires r < 12
    ensures var s := Waiting(crc, fed);
            && |s.replies| == 12
            && s.replies[r].handling == r / 6
            && DecodeChunk(s.replies[r].datagram).Ok?
            && MetaOf(DecodeChunk(s.replies[r].datagram).value) == REPLY_META
            && DecodeChunk(s.replies[r].datagram).value.chunkId == r % 6
            && DecodeSingle(crc, s.replies[r].datagram) == Ok(None)
  {
    hide DecodeChunk, DecodeFrame, ReplyFrame, ChunksOf, EncodeChunks;
    SixChunks(crc, 0);
    SixChunks(crc, 1);
    var a: byte := if r < 6 then 0 else 1;
    ChunkIs(crc, a, r % 6);
  }

  lemma ChunkIs(crc: Checksum, a: byte, i: nat)
    requires i < 6
    ensures |ChunksOf(crc, ReplyFrame(a, a))| == 6
    ensures var d := ChunksOf(crc, ReplyFrame(a, a))[i];
            && DecodeChunk(d).Ok?
            && MetaOf(DecodeChunk(d).value) == REPLY_META
            && DecodeChunk(d).value.chunkId == i
            && DecodeSingle(crc, d) == Ok(None)
  {
    hide DecodeChunk, DecodeFrame, ReplyFrame, Pieces, Datagram, PieceHeader;
    SixChunks(crc, a);
    ReplyFrameMember(a, a);
    ReplyFrameBytes(a, a, 0);
    FullPiece(ReplyFrame(a, a), 6, i);
    var pieces := Pieces(ReplyFrame(a, a), PIECE);
    GenuineDecodes(crc, REPLY_META, pieces, i);
    PieceNumber(crc, REPLY_META, pieces, i);
  }

  /** The first chunk under the id says what all say. */
  lemma {:induction false} AllSayTheSame(crc: Checksum, fed: seq<nat>, some: seq<nat>)
    requires |some| > 0 && AllReplies(some)
    ensures |Waiting(crc, fed).replies| == 12
    ensures FirstMeta(Fed(Waiting(crc, fed).replies, some), 1) == Some(REPLY_META)
  {
    hide DecodeChunk, Waiting;
    WaitingShape(crc, fed);
    var replies := Waiting(crc, fed).replies;
    var run, front := Fed(replies, some), some[..|some| - 1];
    ReplyIs(crc, fed, some[|some| - 1]);
    assert run[..|run| - 1] == Fed(replies, front);
    if |front| > 0 {
      AllSayTheSame(crc, fed, front);
    }
  }

  /** The latest reply with chunk number `i`. */
  lemma {:induction false} LatestIs(crc: Checksum, fed: seq<nat>, some: seq<nat>, i: nat)
    requires AllReplies(some)
    ensures |Waiting(crc, fed).replies| == 12
    ensures LatestReply(Waiting(crc, fed).replies, some, REPLY_META, i) == LatestNumber(some, i)
  {
    hide DecodeChunk, Waiting;
    WaitingShape(crc, fed);
    if |some| > 0 {
      LatestIs(crc, fed, some[..|some| - 1], i);
      ReplyIs(crc, fed, some[|some| - 1]);
    }
  }

  function LatestNumber(some: seq<nat>, i: nat): Option<nat> {
    if |some| == 0 then None
    else if some[|some| - 1] % 6 == i then Some(some[|some| - 1])
    else LatestNumber(some[..|some| - 1], i)
  }

  lemma {:induction false} NoneWithNumber(some: seq<nat>, i: nat)
    requires forall k :: 0 <= k < |some| ==> some[k] % 6 != i
    ensures LatestNumber(some, i) == None
  {
    if |some| > 0 {
      NoneWithNumber(some[..|some| - 1], i);
    }
  }

  // ---------------------------------------------------------------------------------------------
  // The run.

  /** The state before step `i`. */
  function StateAt(crc: Checksum, i: nat): Session {
    if i == 0 then Session(2, {1}, Idle, [], NEW_PEER, [], [])
    else if i == 1 then Asked(crc)
    else if i == 2 then HandledOnce(crc)
    else Waiting(crc, ORDER[..if i - 3 <= 5 then i - 3 else 5])
  }

  function StepAt(i: nat): Step {
    if i == 0 then Ask(1)
    else if i == 1 then HandleStep(BARE)
    else if i == 2 then HandleStep(BUSY)
    else Receive(ORDER[if i - 3 <= 5 then i - 3 else 5])
  }

  function StatesTo(crc: Checksum, n: nat): (states: seq<Session>)
    ensures |states| == n + 1
  {
    seq(n + 1, i requires 0 <= i <= n => StateAt(crc, i))
  }

  function StepsTo(n: nat): (steps: seq<Step>)
    ensures |steps| == n
  {
    seq(n, i requires 0 <= i < n => StepAt(i))
  }

  /** The reply is a chunk that does not end the wait. */
  predicate GoesOn(crc: Checksum, s: Session, j: nat) {
    && Enabled(s, Receive(j)) && InRange(s)
    && Outcome(LinkWith(crc), s, j).Waits?
    && UdpClient.FeedsReassembler(crc, s.replies[j].datagram)
  }

  /** One more reply, while the sixth chunk has not come. */
  lemma StillWaits(crc: Checksum, t: nat)
    requires t < 5 && ValidLink(LinkWith(crc)) && IsRun(LinkWith(crc), StatesTo(crc, 3 + t), StepsTo(3 + t))
    ensures GoesOn(crc, Waiting(crc, ORDER[..t]), ORDER[t])
  {
    hide DecodeChunk, DecodeSingle, IsRun, TheRequest, Waiting, LatestReply, FirstMeta, Fed, FeedAll, Outcome, Sources,
      AllMadeFor, Family, NeighboursAgree, Spliced, CapOf, LinkWith;
    var s, j := Waiting(crc, ORDER[..t]), ORDER[t];
    WaitingShape(crc, ORDER[..t]);
    assert StatesTo(crc, 3 + t)[3 + t] == s;
    var fed := ORDER[..t] + [j];
    ReplyIs(crc, ORDER[..t], j);
    LinkCrc(crc);
    AllSayTheSame(crc, ORDER[..t], fed);
    ChunkedReplyOutcome(LinkWith(crc), StatesTo(crc, 3 + t), StepsTo(3 + t), 3 + t, j);
    LatestIs(crc, ORDER[..t], fed, 5);
    NotYet(t);
    assert !Filled(s, j, REPLY_META, 5);
  }

  lemma LinkCrc(crc: Checksum)
    ensures LinkWith(crc).server.crc == crc
  {
  }

  lemma NotYet(t: nat)
    requires t < 5
    ensures AllReplies(ORDER[..t] + [ORDER[t]])
    ensures LatestNumber(ORDER[..t] + [ORDER[t]], 5) == None
  {
    NoneWithNumber(ORDER[..t] + [ORDER[t]], 5);
  }

  lemma ReceiveLeadsOn(crc: Checksum, t: nat)
    requires t < 5 && ValidLink(LinkWith(crc)) && IsRun(LinkWith(crc), StatesTo(crc, 3 + t), StepsTo(3 + t))
    ensures var s := Waiting(crc, ORDER[..t]);
            && Enabled(s, Receive(ORDER[t])) && InRange(s)
            && Apply(LinkWith(crc), s, Receive(ORDER[t])) == Waiting(crc, ORDER[..t + 1])
  {
    hide IsRun, TheRequest, Waiting, Outcome, DecodeSingle;
    StillWaits(crc, t);
    WaitingShape(crc, ORDER[..t]);
    WaitingMore(crc, ORDER[..t], ORDER[t]);
    assert ORDER[..t] + [ORDER[t]] == ORDER[..t + 1];
  }

  /** The step before state `n`. */
  lemma StepLeadsOn(crc: Checksum, n: nat)
    requires 0 < n <= 8 && ValidLink(LinkWith(crc)) && IsRun(LinkWith(crc), StatesTo(crc, n - 1), StepsTo(n - 1))
    ensures Follows(LinkWith(crc), StateAt(crc, n - 1), StepAt(n - 1), StateAt(crc, n))
  {
    hide Apply, Waiting, Asked, HandledOnce, GoodRequest, IsRun, Enabled, InRange;
    AskLeadsThere(crc);
    HandleLeadsThere(crc);
    if n > 3 {
      ReceiveLeadsOn(crc, n - 4);
    }
    assert ORDER[..0] == [];
  }

  lemma RunBegins(crc: Checksum)
    ensures ValidLink(LinkWith(crc)) && IsRun(LinkWith(crc), StatesTo(crc, 0), StepsTo(0))
  {
    assert Init(StateAt(crc, 0));
  }

  lemma {:induction false} IsRunTo(crc: Checksum, n: nat)
    requires n <= 8
    ensures ValidLink(LinkWith(crc)) && IsRun(LinkWith(crc), StatesTo(crc, n), StepsTo(n))
  {
    hide IsRun, StateAt, StepAt, Follows, ValidLink, LinkWith;
    if n == 0 {
      RunBegins(crc);
    } else {
      IsRunTo(crc, n - 1);
      StepLeadsOn(crc, n);
      RunGrows(LinkWith(crc), StatesTo(crc, n - 1), StepsTo(n - 1), StatesTo(crc, n), StepsTo(n));
    }
  }

  lemma RunGrows(link: Link, states: seq<Session>, steps: seq<Step>, states': seq<Session>, steps': seq<Step>)
    requires IsRun(link, states, steps)
    requires |states'| == |states| + 1 && states <= states' && |steps'| == |steps| + 1 && steps <= steps'
    requires Follows(link, states[|steps|], steps'[|steps|], states'[|states|])
    ensures IsRun(link, states', steps')
  {
    hide Follows, Init;
    assert states'[0] == states[0];
    forall i | 0 <= i < |steps'|
      ensures Follows(link, states'[i], steps'[i], states'[i + 1])
    {
      assert states'[i] == states[i];
      if i < |steps| {
        assert steps'[i] == steps[i] && states'[i + 1] == states[i + 1];
      }
    }
  }

  /** For every checksum there is a run of the connection in which the client accepts, as the answer
      to its query, a frame that is the response of none of the server's handlings. */
  lemma SplicedReplyIsAccepted(crc: Checksum) returns (states: seq<Session>, steps: seq<Step>, j: nat)
    ensures ValidLink(LinkWith(crc)) && IsRun(LinkWith(crc), states, steps)
    ensures var s := states[|steps|];
            && Enabled(s, Receive(j)) && InRange(s)
            && Outcome(LinkWith(crc), s, j) == UdpClient.Got(ReplyFrame(0, 1))
            && (forall h :: 0 <= h < |s.handlings| ==> s.handlings[h].request < |s.requests|)
            && (forall h :: 0 <= h < |s.handlings| ==>
                  ResponseOf(LinkWith(crc), s, s.handlings[h]) != Ok(ReplyFrame(0, 1)))
  {
    hide DecodeChunk, DecodeSingle, IsRun, Waiting, LatestReply, FirstMeta, Fed, FeedAll, ReplyFrame, SplicedFamily,
      NeighboursAgree, Spliced, Family, ResponseOf, Outcome, AllMadeFor, TheRequest, Sources, ResponsesBehind, CapOf;
    IsRunTo(crc, 8);
    states, steps, j := StatesTo(crc, 8), StepsTo(8), 11;
    var s := Waiting(crc, ORDER[..5]);
    WaitingShape(crc, ORDER[..5]);
    assert states[8] == s;
    var fed := ORDER[..5] + [11];
    assert fed == ORDER;
    ReplyIs(crc, ORDER[..5], 11);
    AllSayTheSame(crc, ORDER[..5], fed);
    ChunkedReplyOutcome(LinkWith(crc), states, steps, 8, j);
    LastSources(crc, s);
    BothResponses(crc, s);
    var link, k := LinkWith(crc), s.phase.request;
    assert AllMadeFor(link, s, k, ORDER);
    LastFrames(crc, s);
    SplicedFamilyIs();
    SplicedFamilyAgrees(crc);
    SplicedThird();
  }

  /** The splice of the two replies is the third frame. */
  lemma SplicedThird()
    requires Family(SplicedFamily(), PIECE, REPLY_META)
    ensures Spliced(SplicedFamily(), PIECE, REPLY_META) == ReplyFrame(0, 1)
  {
    hide ReplyFrame, Member, Pieces;
    ReplyFrameMember(0, 1);
    SplicedIs(SplicedFamily(), PIECE, REPLY_META, ReplyFrame(0, 1));
    SplicePiecesAre();
  }

  /** What the server answered in its two handlings, and that it is not that frame. */
  lemma BothResponses(crc: Checksum, s: Session)
    requires s == Waiting(crc, ORDER[..5]) && |s.handlings| == 2 && |s.requests| == 1
    ensures s.handlings[0].request == s.handlings[1].request == 0
    ensures ResponseOf(LinkWith(crc), s, s.handlings[0]) == Ok(ReplyFrame(0, 0))
    ensures ResponseOf(LinkWith(crc), s, s.handlings[1]) == Ok(ReplyFrame(1, 1))
    ensures ReplyFrame(0, 0) != ReplyFrame(0, 1) && ReplyFrame(1, 1) != ReplyFrame(0, 1)
  {
    hide HandleFrame, ReplyFrame, QueryFrame, QueryDatagrams, ChunksOf, AnsweredDirectly, Waiting;
    WaitingShape(crc, ORDER[..5]);
    QueryResponse(BARE, 0);
    QueryResponse(BUSY, 1);
    ReplyFrameBytes(0, 1, 618);
    ReplyFrameBytes(1, 1, 618);
    ReplyFrameBytes(0, 1, 1418);
    ReplyFrameBytes(0, 0, 1418);
  }

  lemma LastFrames(crc: Checksum, s: Session)
    requires s == Waiting(crc, ORDER[..5]) && AllMadeFor(LinkWith(crc), s, 0, ORDER)
    ensures ResponsesBehind(LinkWith(crc), s, 0, ORDER) == SplicedFamily()
    ensures |s.replies| == 12 && CapOf(s, 11) == PIECE
  {
    hide ReplyFrame, ResponseOf, DecodeChunk, DecodeSingle, Waiting, TheRequest;
    WaitingShape(crc, ORDER[..5]);
    BothResponses(crc, s);
    var frames := ResponsesBehind(LinkWith(crc), s, 0, ORDER);
    forall i | 0 <= i < 6
      ensures frames[i] == SplicedFamily()[i]
    {
      assert MadeFor(LinkWith(crc), s, 0, ORDER[i]);
      ReplyIs(crc, ORDER[..5], ORDER[i]);
    }
    ReplyIs(crc, ORDER[..5], 11);
  }

  /** Which chunks the slots hold in the end. */
  lemma LastSources(crc: Checksum, s: Session)
    requires s == Waiting(crc, ORDER[..5]) && |s.replies| == 12 && s.phase.Awaiting? && InRange(s)
    ensures forall i :: 0 <= i < 6 ==> Filled(s, 11, REPLY_META, i)
    ensures Sources(s, 11, REPLY_META) == ORDER
  {
    hide LatestReply, Waiting, InRange;
    WaitingShape(crc, ORDER[..5]);
    var fed := ORDER[..5] + [11];
    assert fed == ORDER;
    forall i | 0 <= i < 6
      ensures Filled(s, 11, REPLY_META, i) && SourceAt(s, 11, REPLY_META, i) == ORDER[i]
    {
      LatestIs(crc, ORDER[..5], fed, i);
      OrderNumbers(i);
    }
  }

  lemma OrderNumbers(i: nat)
    requires i < 6
    ensures LatestNumber(ORDER, i) == Some(ORDER[i])
  {
    LatestAt(ORDER, i);
  }

  lemma {:induction false} LatestAt(some: seq<nat>, k: nat)
    requires k < |some| && forall l :: k < l < |some| ==> some[l] % 6 != some[k] % 6
    ensures LatestNumber(some, some[k] % 6) == Some(some[k])
  {
    if k < |some| - 1 {
      LatestAt(some[..|some| - 1], k);
    }
  }
}

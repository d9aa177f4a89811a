/** What every run of a UDP connection keeps, and what an accepted reply is
    (crates/client-backend/src/udp_client.rs, crates/server/src/udp_transport.rs). */
module UdpSessionSafety {
  import opened Results
  import opened Bytes
  import opened Frame
  import opened UdpChunk
  import opened Reassembler
  import opened SingleChunk
  import opened ServerTransport
  import opened UdpServer
  import opened UdpSession
  import UdpClient

  // ---------------------------------------------------------------------------------------------
  // The invariant.

  /** An id that may still be used has not been used. */
  predicate IdsFresh(s: Session) {
    && (forall id <- s.drawn :: id < s.nextId)
    && (forall k :: 0 <= k < |s.requests| ==> s.requests[k].id < s.nextId && s.requests[k].id !in s.drawn)
  }

  /** No two datagrams share the id of a request that expects an answer. */
  predicate IdsUnique(s: Session) {
    forall k, l | 0 <= k < |s.requests| && 0 <= l < |s.requests| && s.requests[k].expects ::
      s.requests[k].id == s.requests[l].id ==> k == l
  }

  predicate RequestsGood(link: Link, s: Session) {
    forall k :: 0 <= k < |s.requests| ==> GoodRequest(link, s.requests[k])
  }

  predicate HandlingsGood(s: Session) {
    forall h :: 0 <= h < |s.handlings| ==> s.handlings[h].request < |s.requests|
  }

  predicate ReplyGood(link: Link, s: Session, reply: Replied) {
    && reply.handling < |s.handlings|
    && s.handlings[reply.handling].request < |s.requests|
    && SentFor(link, s.requests[s.handlings[reply.handling].request], s.handlings[reply.handling], reply.datagram)
  }

  predicate RepliesGood(link: Link, s: Session) {
    forall j :: 0 <= j < |s.replies| ==> ReplyGood(link, s, s.replies[j])
  }

  predicate PhaseGood(s: Session) {
    s.phase.Awaiting? ==>
      && s.phase.request < |s.requests| && s.requests[s.phase.request].expects
      && forall i :: 0 <= i < |s.phase.fed| ==> s.phase.fed[i] < |s.replies|
  }

  /** All requests that expect an answer are answered with one capacity. */
  predicate CapsAgree(s: Session) {
    forall h | 0 <= h < |s.handlings| && s.handlings[h].request < |s.requests| ::
      s.requests[s.handlings[h].request].expects ==> s.peer.cap == Some(s.handlings[h].max)
  }

  ghost predicate Inv(link: Link, s: Session) {
    && IdsFresh(s) && IdsUnique(s) && RequestsGood(link, s) && HandlingsGood(s) && RepliesGood(link, s) && PhaseGood(s)
    && CapsAgree(s)
  }

  /** Handling a request that expects an answer fixes the capacity; a farewell leaves it. */
  lemma HandlingFixesCap(link: Link, p: PeerState, r: Request, a: Arrival)
    requires GoodRequest(link, r) && a.datagram == r.datagram
    ensures PeerStep(link.server, p, a).state.cap == if r.expects then Some(CapFor(link.server, p.cap, a)) else p.cap
  {
    hide Reply, DecodeChunk, Accept, DecodeFrame, HandleFrame;
    CompletedSaysItsType(link.server, p.inbox, a.datagram, a.now);
  }

  lemma InvStart(link: Link, s: Session, id: u64, frame: seq<byte>, datagrams: seq<seq<byte>>)
    requires Inv(link, s) && id in s.drawn
    requires |datagrams| == 1 && GoodRequest(link, Request(id, true, frame, datagrams[0]))
    ensures Inv(link, Start(s, id, frame, datagrams))
  {
    hide GoodRequest, SentFor;
    var s' := Start(s, id, frame, datagrams);
    assert forall j :: 0 <= j < |s.replies| ==> ReplyGood(link, s, s.replies[j]) && ReplyGood(link, s', s'.replies[j]);
  }

  lemma InvLeave(link: Link, s: Session, id: u64, reason: seq<byte>)
    requires Inv(link, s) && Enabled(s, Leave(id, reason))
    ensures Inv(link, Apply(link, s, Leave(id, reason)))
  {
    hide GoodRequest, SentFor, LeaveDatagrams, TransportFrame;
    var s' := Apply(link, s, Leave(id, reason));
    forall k | |s.requests| <= k < |s'.requests|
      ensures GoodRequest(link, s'.requests[k])
    {
      LeaveSaysSo(link, id, reason, k - |s.requests|);
    }
    assert forall j :: 0 <= j < |s.replies| ==> ReplyGood(link, s, s.replies[j]) && ReplyGood(link, s', s'.replies[j]);
  }

  lemma InvHandle(link: Link, s: Session, step: Step)
    requires Inv(link, s) && step.Handle? && Enabled(s, step)
    ensures Inv(link, Apply(link, s, step))
  {
    hide GoodRequest, SentFor, PeerStep, Reply;
    var s' := Apply(link, s, step);
    var r := s.requests[step.request];
    var a := ArrivalOf(link, r, step.now, step.route, step.first, step.second, step.takes);
    var sent := PeerStep(link.server, s.peer, a).sent;
    forall j | 0 <= j < |s'.replies|
      ensures ReplyGood(link, s', s'.replies[j])
    {
      if j < |s.replies| {
        assert ReplyGood(link, s, s.replies[j]);
      } else {
        var datagram := sent[j - |s.replies|];
        HandlingAnswersItsRequest(link, s.peer, r, a, datagram);
        SentForIntro(link, r, s'.handlings[|s.handlings|], datagram);
      }
    }
    HandlingFixesCap(link, s.peer, r, a);
  }

  lemma SentForIntro(link: Link, r: Request, h: Handling, datagram: seq<byte>)
    requires r.expects && datagram in Reply(link.server.crc, link.server.codec, h.first, h.second, h.max, r.frame)
    ensures SentFor(link, r, h, datagram)
  {
  }

  lemma InvOther(link: Link, s: Session, step: Step)
    requires Inv(link, s) && Enabled(s, step)
    requires step.Draw? || step.Receive? || step.GiveUp?
    ensures Inv(link, Apply(link, s, step))
  {
    hide GoodRequest, SentFor, Outcome;
    var s' := Apply(link, s, step);
    assert forall j :: 0 <= j < |s.replies| ==> ReplyGood(link, s, s.replies[j]) && ReplyGood(link, s', s'.replies[j]);
  }

  lemma InvStep(link: Link, s: Session, step: Step)
    requires ValidLink(link) && Inv(link, s) && Enabled(s, step)
    ensures Inv(link, Apply(link, s, step))
  {
    hide Inv, GoodRequest, QueryDatagrams, SendFramed, QueryFrame, HelloFrame;
    match step {
      case Ask(id) =>
        QueryIsOneRequest(link, id);
        InvStart(link, s, id, QueryFrame(id), QueryDatagrams(link, id));
      case Greet(id) =>
        HelloIsOneRequest(link, id);
        InvStart(link, s, id, HelloFrame(link, id), SendFramed(link.server.crc, HelloFrame(link, id), link.clientMax));
      case Leave(id, reason) => InvLeave(link, s, id, reason);
      case Handle(_, _, _, _, _, _) => InvHandle(link, s, step);
      case _ => InvOther(link, s, step);
    }
  }

  lemma {:induction false} InvRun(link: Link, states: seq<Session>, steps: seq<Step>, n: nat)
    requires ValidLink(link) && IsRun(link, states, steps) && n < |states|
    ensures Inv(link, states[n])
  {
    if n > 0 {
      InvRun(link, states, steps, n - 1);
      var last := steps[n - 1];
      InvStep(link, states[n - 1], last);
    }
  }

  // ---------------------------------------------------------------------------------------------
  // Where replies come from.

  function RequestOf(s: Session, reply: nat): nat
    requires reply < |s.replies| && s.replies[reply].handling < |s.handlings|
  {
    s.handlings[s.replies[reply].handling].request
  }

  lemma InvAt(link: Link, s: Session, j: nat)
    requires Inv(link, s) && j < |s.replies|
    ensures ReplyGood(link, s, s.replies[j])
    ensures s.requests[RequestOf(s, j)].expects
    ensures GoodRequest(link, s.requests[RequestOf(s, j)])
    ensures PhaseGood(s)
  {
    hide GoodRequest;
    assert ReplyGood(link, s, s.replies[j]);
  }

  /** A reply datagram with the id of an expecting request came from a handling of that request. */
  lemma IdTellsTheRequest(link: Link, s: Session, j: nat, k: nat)
    requires Inv(link, s) && j < |s.replies| && k < |s.requests| && s.requests[k].expects
    requires DecodeChunk(s.replies[j].datagram).Ok?
    ensures s.replies[j].handling < |s.handlings|
    ensures DecodeChunk(s.replies[j].datagram).value.requestId == s.requests[k].id <==> RequestOf(s, j) == k
  {
    hide GoodRequest, DecodeChunk, SentFor;
    InvAt(link, s, j);
    var l := RequestOf(s, j);
    ReplyCarriesTheId(link, s.requests[l], s.handlings[s.replies[j].handling], s.replies[j].datagram);
  }

  /** What the single-chunk decoder reads out of a reply is the response of its handling. */
  lemma SingleReplyIsTheResponse(link: Link, r: Request, h: Handling, datagram: seq<byte>, frame: seq<byte>)
    requires SentFor(link, r, h, datagram)
    requires DecodeSingle(link.server.crc, datagram) == Ok(Some(frame))
    ensures HandleFrame(link.server.codec, Used(link, h, r.frame), r.frame) == Ok(frame)
  {
    hide DecodeFrame, DecodeChunk, EncodeSingle, EncodeChunks, HandleFrame, Reply, CheckFrame, Used;
    ReplyIsResponse(link, r, h, datagram);
    var response := HandleFrame(link.server.codec, Used(link, h, r.frame), r.frame).value;
    if |response| <= h.max {
      SingleRoundTrip(link.server.crc, response);
    } else {
      ChunkSaysItsFrame(link.server.crc, response, h.max, datagram);
      SeveralPieces(response, h.max);
      assert false;
    }
  }

  // ---------------------------------------------------------------------------------------------
  // The theorems, for every run.

  /** A reply in one datagram is accepted if and only if the server produced it in handling the very
      request the client is waiting for, a handling that began after the request was sent; what is
      accepted is that handling's response. Any other such reply, a late answer to a request that
      timed out for one, is passed over. */
  lemma SingleReplyAnswersItself(link: Link, states: seq<Session>, steps: seq<Step>, n: nat, j: nat)
    requires ValidLink(link) && IsRun(link, states, steps) && n < |states|
    requires Enabled(states[n], Receive(j)) && InRange(states[n])
    requires DecodeSingle(link.server.crc, states[n].replies[j].datagram).Ok?
    requires DecodeSingle(link.server.crc, states[n].replies[j].datagram).value.Some?
    ensures states[n].replies[j].handling < |states[n].handlings|
    ensures states[n].handlings[states[n].replies[j].handling].request < |states[n].requests|
    ensures var s := states[n];
            var response := ResponseOf(link, s, s.handlings[s.replies[j].handling]);
            && response.Ok?
            && Outcome(link, s, j) ==
               if RequestOf(s, j) == s.phase.request then UdpClient.Got(response.value)
               else UdpClient.Waits(FeedAll(Fed(s.replies, s.phase.fed)))
  {
    hide DecodeFrame, DecodeChunk, DecodeSingle, HandleFrame, SentFor, Inv, Used, UdpClient.RecvStep, FeedAll, Fed;
    var s := states[n];
    InvRun(link, states, steps, n);
    InvAt(link, s, j);
    var h := s.handlings[s.replies[j].handling];
    var datagram := s.replies[j].datagram;
    var frame := DecodeSingle(link.server.crc, datagram).value.value;
    SingleReplyIsTheResponse(link, s.requests[h.request], h, datagram, frame);
    UdpClient.JudgeSingle(
      link.server.crc, s.requests[s.phase.request].id, FeedAll(Fed(s.replies, s.phase.fed)), datagram);
    IdTellsTheRequest(link, s, j, s.phase.request);
  }

  lemma StepKeeps(link: Link, s: Session, step: Step)
    requires Enabled(s, step) && InRange(s)
    ensures s.requests <= Apply(link, s, step).requests
    ensures Apply(link, s, step).handlings ==
            if step.Handle? then s.handlings + [Apply(link, s, step).handlings[|s.handlings|]] else s.handlings
    ensures step.Handle? ==> Apply(link, s, step).handlings[|s.handlings|].request == step.request
  {
    hide Outcome, PeerStep, SendFramed, QueryDatagrams, LeaveDatagrams;
  }

  /** Every handling on record happened at a definite step of the run, when the request it handled,
      the same as now, had already been sent. */
  lemma {:induction false} HandlingFollowsRequest(link: Link, states: seq<Session>, steps: seq<Step>, n: nat, h: nat)
    returns (m: nat)
    requires IsRun(link, states, steps) && n < |states| && h < |states[n].handlings|
    ensures m < n && steps[m].Handle? && steps[m].request == states[n].handlings[h].request
    ensures |states[m].handlings| == h
    ensures steps[m].request < |states[m].requests| && states[m].requests <= states[n].requests
  {
    hide Apply, InRange;
    if n == 0 {
      assert false;
    } else {
      var step := steps[n - 1];
      StepKeeps(link, states[n - 1], step);
      if h < |states[n - 1].handlings| {
        m := HandlingFollowsRequest(link, states, steps, n - 1, h);
      } else {
        m := n - 1;
      }
    }
  }

  /** However often the server handled request `k`, it had the same response. */
  predicate SameResponse(link: Link, s: Session, k: nat)
    requires k < |s.requests|
  {
    forall g, h | 0 <= g < |s.handlings| && 0 <= h < |s.handlings| ::
      s.handlings[g].request == k && s.handlings[h].request == k ==>
        ResponseOf(link, s, s.handlings[g]) == ResponseOf(link, s, s.handlings[h])
  }

  /** Every datagram that took part in a reassembled reply, under the awaited id, was produced by
      the server in handling the awaited request. */
  lemma EveryChunkAnswersItself(link: Link, states: seq<Session>, steps: seq<Step>, n: nat, j: nat)
    requires ValidLink(link) && IsRun(link, states, steps) && n < |states|
    requires states[n].phase.Awaiting? && states[n].phase.request < |states[n].requests| && j < |states[n].replies|
    requires DecodeChunk(states[n].replies[j].datagram).Ok?
    ensures states[n].replies[j].handling < |states[n].handlings|
    ensures var s := states[n];
            DecodeChunk(s.replies[j].datagram).value.requestId == s.requests[s.phase.request].id <==>
            RequestOf(s, j) == s.phase.request
  {
    hide DecodeChunk, GoodRequest, SentFor;
    InvRun(link, states, steps, n);
    IdTellsTheRequest(link, states[n], j, states[n].phase.request);
  }

  /** If the server had the same response each time the network brought it the request (at most once,
      for one), a reply in several datagrams, in whatever order and however often they come and
      whatever else comes in between, gives no error of its own: nothing until all its chunks are
      there, and then that response. */
  lemma ReassembledReplyAnswersItself(link: Link, states: seq<Session>, steps: seq<Step>, n: nat, j: nat)
    requires ValidLink(link) && IsRun(link, states, steps) && n < |states|
    requires Enabled(states[n], Receive(j)) && InRange(states[n])
    requires DecodeSingle(link.server.crc, states[n].replies[j].datagram) == Ok(None)
    requires states[n].replies[j].handling < |states[n].handlings|
    requires RequestOf(states[n], j) == states[n].phase.request
    requires SameResponse(link, states[n], states[n].phase.request)
    ensures var s := states[n];
            var h := s.handlings[s.replies[j].handling];
            var response := ResponseOf(link, s, h);
            var run := Fed(s.replies, s.phase.fed + [j]);
            && response.Ok?
            && EncodeFault(response.value, h.max) == None
            && Outcome(link, s, j) ==
               if h.max <= U16_MAX && AllThere(link.server.crc, response.value, h.max, run)
               then UdpClient.Got(response.value)
               else UdpClient.Waits(FeedAll(run))
  {
    hide DecodeFrame, DecodeChunk, DecodeSingle, HandleFrame, SentFor, GoodRequest, Used, EncodeChunks, Pieces,
      FrameMeta, EncodeFault, Datagrams, UdpClient.RecvStep, Accept, Inv, ChunkOfResponse, OnlyGenuine, AllThere;
    var s := states[n];
    InvRun(link, states, steps, n);
    InvAt(link, s, j);
    var crc, k, h := link.server.crc, s.phase.request, s.handlings[s.replies[j].handling];
    NotSingle(link, s.requests[k], h, s.replies[j].datagram);
    var response := ResponseOf(link, s, h).value;
    var fed := s.phase.fed + [j];
    var run := Fed(s.replies, fed);
    assert run[..|run| - 1] == Fed(s.replies, s.phase.fed);
    forall i | 0 <= i < |fed|
      ensures ChunkOfResponse(crc, response, h.max, s.requests[k].id, run[i])
    {
      OneResponse(link, s, fed[i], j);
    }
    ResponseId(link, s.requests[k], Used(link, h, s.requests[k].frame));
    RunIsGenuine(crc, response, h.max, run);
    UdpClient.GenuineChunkOutcome(crc, response, h.max, run);
  }

  /** Under this id the datagram is one of the response's chunks. */
  predicate ChunkOfResponse(crc: Checksum, response: seq<byte>, max: nat, id: u64, datagram: seq<byte>) {
    DecodeChunk(datagram).Ok? && DecodeChunk(datagram).value.requestId == id ==>
      EncodeChunks(crc, response, max).Ok? && datagram in EncodeChunks(crc, response, max).value
  }

  lemma OneResponse(link: Link, s: Session, i: nat, j: nat)
    requires Inv(link, s) && s.phase.Awaiting? && i < |s.replies| && j < |s.replies|
    requires s.replies[j].handling < |s.handlings| && RequestOf(s, j) == s.phase.request
    requires SameResponse(link, s, s.phase.request)
    requires var h := s.handlings[s.replies[j].handling];
             ResponseOf(link, s, h).Ok? && |ResponseOf(link, s, h).value| > h.max
    ensures var h := s.handlings[s.replies[j].handling];
            ChunkOfResponse(
              link.server.crc, ResponseOf(link, s, h).value, h.max, s.requests[s.phase.request].id,
              s.replies[i].datagram)
  {
    hide DecodeChunk, HandleFrame, SentFor, GoodRequest, Used, EncodeChunks;
    assert ReplyGood(link, s, s.replies[i]);
    if DecodeChunk(s.replies[i].datagram).Ok? {
      IdTellsTheRequest(link, s, i, s.phase.request);
      var h := s.handlings[s.replies[i].handling];
      ReplyIsResponse(link, s.requests[h.request], h, s.replies[i].datagram);
      InvAt(link, s, i);
      InvAt(link, s, j);
    }
  }

  lemma RunIsGenuine(crc: Checksum, response: seq<byte>, max: nat, run: seq<seq<byte>>)
    requires EncodeFault(response, max) == None
    requires forall d <- run :: ChunkOfResponse(crc, response, max, DecodeFrame(response).value.header.requestId, d)
    ensures OnlyGenuine(crc, FrameMeta(response, max), Pieces(response, max), run)
    ensures FrameMeta(response, max).requestId == DecodeFrame(response).value.header.requestId
  {
    hide DecodeFrame, DecodeChunk, Datagrams, Pieces;
    forall k | 0 <= k < |run|
      ensures ChunkOfResponse(crc, response, max, DecodeFrame(response).value.header.requestId, run[k])
    {
      assert run[k] in run;
    }
  }

  /** A reply that is not a single chunk was cut. */
  lemma NotSingle(link: Link, r: Request, h: Handling, datagram: seq<byte>)
    requires SentFor(link, r, h, datagram)
    requires DecodeSingle(link.server.crc, datagram) == Ok(None)
    ensures HandleFrame(link.server.codec, Used(link, h, r.frame), r.frame).Ok?
    ensures var response := HandleFrame(link.server.codec, Used(link, h, r.frame), r.frame).value;
            && |response| > h.max && EncodeFault(response, h.max) == None
            && DecodeFrame(response).Ok?
            && EncodeChunks(link.server.crc, response, h.max).Ok?
            && datagram in EncodeChunks(link.server.crc, response, h.max).value
    ensures DecodeChunk(datagram).Ok?
  {
    hide DecodeFrame, DecodeChunk, HandleFrame, SentFor, Used, EncodeSingle, Pieces;
    ReplyIsResponse(link, r, h, datagram);
    var response := HandleFrame(link.server.codec, Used(link, h, r.frame), r.frame).value;
    if |response| <= h.max {
      SingleRoundTrip(link.server.crc, response);
    }
  }
}

/** A query that is delivered once, and its reply that is delivered whole: the client accepts the
    response (crates/client-backend/src/udp_client.rs, crates/server/src/udp_transport.rs). */
module UdpRoundTrip {
  import opened Results
  import opened Bytes
  import opened Frame
  import opened UdpChunk
  import opened Reassembler
  import opened SingleChunk
  import opened ServerTransport
  import opened UdpServer
  import opened UdpSession
  import opened UdpSessionSafety
  import UdpClient

  /** What the server sends when it handles request `k` in this state. */
  function SentFor(link: Link, s: Session, step: Step): seq<seq<byte>>
    requires step.Handle? && Enabled(s, step)
  {
    PeerStep(link.server, s.peer, ArrivalIn(link, s, step)).sent
  }

  function ArrivalIn(link: Link, s: Session, step: Step): Arrival
    requires step.Handle? && Enabled(s, step)
  {
    ArrivalOf(link, s.requests[step.request], step.now, step.route, step.first, step.second, step.takes)
  }

  /** The handling that this step adds. */
  function HandlingIn(link: Link, s: Session, step: Step): Handling
    requires step.Handle? && Enabled(s, step)
  {
    Handling(step.request, step.first, step.second, CapFor(link.server, s.peer.cap, ArrivalIn(link, s, step)))
  }

  /** The server gets a request that expects an answer, has a capacity that a 16-bit length can carry,
      and its socket takes the whole reply. */
  ghost predicate GoodHandling(link: Link, s: Session, step: Step) {
    && step.Handle? && Enabled(s, step) && s.requests[step.request].expects && step.takes >= 257
    && UDP_MIN_PAYLOAD <= HandlingIn(link, s, step).max <= U16_MAX
    && ShortErrors(link.server.codec)
  }

  /** The response of that handling. */
  function ResponseIn(link: Link, s: Session, step: Step): Result<seq<byte>, TransportError>
    requires step.Handle? && Enabled(s, step)
  {
    var frame := s.requests[step.request].frame;
    HandleFrame(link.server.codec, Used(link, HandlingIn(link, s, step), frame), frame)
  }

  lemma HandlingSendsResponse(link: Link, s: Session, step: Step)
    requires Inv(link, s) && GoodHandling(link, s, step)
    ensures match ResponseIn(link, s, step)
            case Err(_) => SentFor(link, s, step) == []
            case Ok(response) =>
              && SentFor(link, s, step) != []
              && EncodeChunks(link.server.crc, response, HandlingIn(link, s, step).max) == Ok(SentFor(link, s, step))
  {
    hide Inv, GoodRequest, PeerStep, HandleFrame, EncodeChunks, CapFor, AnsweredDirectly, ShortErrors;
    var r, a := s.requests[step.request], ArrivalIn(link, s, step);
    assert GoodRequest(link, r) by { InvGood(link, s, step.request); }
    ReadsAsRequest(link, r);
    OneDatagramIsAnswered(link.server, s.peer, r.frame, a);
  }

  lemma InvGood(link: Link, s: Session, k: nat)
    requires Inv(link, s) && k < |s.requests|
    ensures GoodRequest(link, s.requests[k])
  {
    hide GoodRequest;
  }

  lemma ReadsAsRequest(link: Link, r: Request)
    requires GoodRequest(link, r) && r.expects
    ensures DecodeSingle(link.server.crc, r.datagram) == Ok(Some(r.frame)) && !IsDisconnect(r.frame)
  {
    hide DecodeSingle, DecodeFrame;
  }

  /** The numbers from `r` on. */
  function Numbers(r: nat, n: nat): (ns: seq<nat>)
    ensures |ns| == n
  {
    seq(n, i requires 0 <= i < n => Number(r, i))
  }

  function Number(r: nat, i: nat): nat {
    r + i
  }

  /** The client waits for request `k`, which has not been handled; the server handles it; and the
      datagrams of the reply come in, one after another. */
  ghost predicate Delivery(link: Link, states: seq<Session>, steps: seq<Step>, n: nat) {
    && IsRun(link, states, steps) && n < |steps|
    && GoodHandling(link, states[n], steps[n])
    && states[n].phase == Awaiting(steps[n].request, [])
    && (forall h :: 0 <= h < |states[n].handlings| ==> states[n].handlings[h].request != steps[n].request)
    && ResponseIn(link, states[n], steps[n]).Ok?
    && var c := |SentFor(link, states[n], steps[n])|;
    && n + c <= |steps|
    && forall i :: 0 <= i < c - 1 ==> ReceivesNext(steps, n, |states[n].replies|, i)
  }

  /** The step by which datagram `i` of the reply comes in. */
  predicate ReceivesNext(steps: seq<Step>, n: nat, r: nat, i: nat) {
    n + 1 + i < |steps| && steps[n + 1 + i] == Receive(r + i)
  }

  /** Reply `j` ends the wait with this frame. */
  predicate EndsWith(link: Link, s: Session, j: nat, frame: seq<byte>) {
    Enabled(s, Receive(j)) && InRange(s) && Outcome(link, s, j) == UdpClient.Got(frame)
  }

  /** Reply `j` goes to the reassembler, and the wait goes on. */
  predicate GoesOn(link: Link, s: Session, j: nat) {
    && Enabled(s, Receive(j)) && InRange(s)
    && Outcome(link, s, j).Waits? && UdpClient.FeedsReassembler(link.server.crc, s.replies[j].datagram)
  }

  /** The state after the handling and the first `i` of its datagrams. */
  function AfterSome(link: Link, s: Session, step: Step, i: nat): Session
    requires step.Handle? && Enabled(s, step) && InRange(s)
  {
    Apply(link, s, step).(phase := Awaiting(step.request, Numbers(|s.replies|, i)))
  }

  lemma Prepared(link: Link, s: Session, step: Step, i: nat)
    requires Inv(link, s) && GoodHandling(link, s, step)
    requires s.phase == Awaiting(step.request, []) && i <= |SentFor(link, s, step)|
    ensures InRange(s)
    ensures var s', r := AfterSome(link, s, step, i), |s.replies|;
            && s'.requests == s.requests
            && s'.handlings == s.handlings + [HandlingIn(link, s, step)]
            && |s'.replies| == r + |SentFor(link, s, step)|
            && (forall k :: 0 <= k < |SentFor(link, s, step)| ==>
                  s'.replies[r + k] == Replied(SentFor(link, s, step)[k], |s.handlings|))
            && InRange(s')
            && Fed(s'.replies, s'.phase.fed) == SentFor(link, s, step)[..i]
  {
    hide Inv, PeerStep, CapFor;
    var s', r := AfterSome(link, s, step, i), |s.replies|;
    assert Fed(s'.replies, s'.phase.fed) == SentFor(link, s, step)[..i];
  }

  // ---------------------------------------------------------------------------------------------
  // The datagrams of a response.

  /** A response in one datagram is read back from it. */
  lemma OneSent(crc: Checksum, response: seq<byte>, max: nat, sent: seq<seq<byte>>)
    requires EncodeChunks(crc, response, max) == Ok(sent) && |sent| == 1 && max <= U16_MAX
    ensures DecodeSingle(crc, sent[0]) == Ok(Some(response))
  {
    hide DecodeFrame, EncodeSingle, DecodeSingle, Datagram;
    assert |response| <= max by {
      if |response| > max {
        SeveralPieces(response, max);
      }
    }
    ChunksOfSmallFrame(crc, response, max);
    SingleRoundTrip(crc, response);
  }

  /** Of a response in several datagrams each is a chunk of its own number. */
  lemma ManySent(crc: Checksum, response: seq<byte>, max: nat, sent: seq<seq<byte>>, i: nat)
    requires EncodeChunks(crc, response, max) == Ok(sent) && i < |sent| && |sent| > 1 && max <= U16_MAX
    ensures DecodeSingle(crc, sent[i]) == Ok(None)
    ensures DecodeChunk(sent[i]).Ok? && DecodeChunk(sent[i]).value.chunkId == i
  {
    hide DecodeFrame, DecodeChunk, Pieces, Datagram;
    var meta, pieces := FrameMeta(response, max), Pieces(response, max);
    SmallPiecesOf(response, max);
    GenuineDecodes(crc, meta, pieces, i);
    PieceNumber(crc, meta, pieces, i);
  }

  /** All of them have come only with the last. */
  lemma AllThereAtLast(crc: Checksum, response: seq<byte>, max: nat, sent: seq<seq<byte>>, i: nat)
    requires EncodeChunks(crc, response, max) == Ok(sent) && 0 < i <= |sent| && |sent| > 1 && max <= U16_MAX
    ensures EncodeFault(response, max) == None
    ensures AllThere(crc, response, max, sent[..i]) <==> i == |sent|
  {
    hide DecodeFrame, DecodeChunk, DecodeSingle, Pieces, Datagrams;
    if i < |sent| {
      var last := |sent| - 1;
      ManySent(crc, response, max, sent, last);
      forall k | 0 <= k < i
        ensures sent[k] != sent[last]
      {
        ManySent(crc, response, max, sent, k);
      }
      assert sent[last] in sent && sent[last] !in sent[..i];
    } else {
      assert sent[..i] == sent;
    }
  }

  // ---------------------------------------------------------------------------------------------
  // Each of them at the client.

  /** What comes of the next datagram. */
  lemma NextOutcome(link: Link, states: seq<Session>, steps: seq<Step>, n: nat, i: nat)
    requires ValidLink(link) && Delivery(link, states, steps, n)
    requires i < |SentFor(link, states[n], steps[n])| && n + 1 + i < |states|
    requires InRange(states[n]) && states[n + 1 + i] == AfterSome(link, states[n], steps[n], i)
    ensures var s, j := states[n + 1 + i], |states[n].replies| + i;
            if i + 1 == |SentFor(link, states[n], steps[n])|
            then EndsWith(link, s, j, ResponseIn(link, states[n], steps[n]).value)
            else GoesOn(link, s, j)
  {
    hide Apply, PeerStep, CapFor, Inv, IsRun, DecodeSingle, DecodeChunk, DecodeFrame, EncodeChunks, HandleFrame, Used,
      Outcome, AfterSome, FeedAll, AllThere, EncodeFault;
    var s0, step, s := states[n], steps[n], states[n + 1 + i];
    var crc, sent, j, h := link.server.crc, SentFor(link, s0, step), |s0.replies| + i, HandlingIn(link, s0, step);
    InvRun(link, states, steps, n);
    Prepared(link, s0, step, i);
    HandlingSendsResponse(link, s0, step);
    AwaitsNow(link, s0, step, i);
    assert s.replies[|s0.replies| + i] == Replied(sent[i], |s0.handlings|);
    var response := ResponseIn(link, s0, step).value;
    if |sent| == 1 {
      OneSent(crc, response, h.max, sent);
      SingleReplyAnswersItself(link, states, steps, n + 1 + i, j);
    } else {
      ManySent(crc, response, h.max, sent, i);
      assert SameResponse(link, s, step.request);
      ReassembledReplyAnswersItself(link, states, steps, n + 1 + i, j);
      AllThereAtLast(crc, response, h.max, sent, i + 1);
      RunIsSent(s, sent, |s0.replies|, i);
    }
  }

  lemma AwaitsNow(link: Link, s: Session, step: Step, i: nat)
    requires step.Handle? && Enabled(s, step) && InRange(s)
    ensures AfterSome(link, s, step, i).phase == Awaiting(step.request, Numbers(|s.replies|, i))
  {
  }

  lemma RunIsSent(s: Session, sent: seq<seq<byte>>, r: nat, i: nat)
    requires i < |sent| && |s.replies| == r + |sent|
    requires forall k :: 0 <= k < |sent| ==> s.replies[r + k].datagram == sent[k]
    requires s.phase.Awaiting? && s.phase.fed == Numbers(r, i)
    ensures Fed(s.replies, s.phase.fed + [r + i]) == sent[..i + 1]
  {
  }

  /** Each datagram but the last leaves the client waiting for the rest. */
  lemma {:induction false} WaitsForTheRest(link: Link, states: seq<Session>, steps: seq<Step>, n: nat, i: nat)
    requires ValidLink(link) && Delivery(link, states, steps, n)
    requires i < |SentFor(link, states[n], steps[n])|
    ensures n + 1 + i < |states|
    ensures InRange(states[n])
    ensures states[n + 1 + i] == AfterSome(link, states[n], steps[n], i)
  {
    hide Apply, PeerStep, GoodHandling, ResponseIn, AfterSome;
    var s, step := states[n], steps[n];
    assert Follows(link, s, step, states[n + 1]);
    if i == 0 {
      HandlingLeads(link, s, step);
    } else {
      WaitsForTheRest(link, states, steps, n, i - 1);
      var next := steps[n + i];
      assert ReceivesNext(steps, n, |s.replies|, i - 1);
      assert Follows(link, states[n + i], next, states[n + i + 1]);
      OneMoreChunk(link, states, steps, n, i - 1);
    }
  }

  lemma HandlingLeads(link: Link, s: Session, step: Step)
    requires GoodHandling(link, s, step) && InRange(s) && s.phase == Awaiting(step.request, [])
    ensures Apply(link, s, step) == AfterSome(link, s, step, 0)
  {
    hide PeerStep, CapFor;
  }

  lemma OneMoreChunk(link: Link, states: seq<Session>, steps: seq<Step>, n: nat, i: nat)
    requires ValidLink(link) && Delivery(link, states, steps, n)
    requires i + 1 < |SentFor(link, states[n], steps[n])| && n + 2 + i < |states|
    requires InRange(states[n]) && states[n + 1 + i] == AfterSome(link, states[n], steps[n], i)
    requires Follows(link, states[n + 1 + i], Receive(|states[n].replies| + i), states[n + 2 + i])
    ensures states[n + 2 + i] == AfterSome(link, states[n], steps[n], i + 1)
  {
    hide PeerStep, CapFor, IsRun, DecodeSingle, Outcome, ResponseIn, AfterSome;
    NextOutcome(link, states, steps, n, i);
    OneMoreNumber(link, states[n], steps[n], i);
  }

  lemma OneMoreNumber(link: Link, s: Session, step: Step, i: nat)
    requires step.Handle? && Enabled(s, step) && InRange(s)
    ensures var some := AfterSome(link, s, step, i);
            && some.phase.Awaiting?
            && AfterSome(link, s, step, i + 1) == some.(phase := some.phase.(fed := some.phase.fed + [|s.replies| + i]))
  {
    hide Apply;
    assert Numbers(|s.replies|, i + 1) == Numbers(|s.replies|, i) + [|s.replies| + i];
  }

  /** In every run: if a request that the client waits for reaches the server once, the server has a
      response, and its datagrams reach the client one after another, then the last of them, and none
      before, ends the wait, with that response. */
  lemma WholeReplyIsAccepted(link: Link, states: seq<Session>, steps: seq<Step>, n: nat)
    requires ValidLink(link) && Delivery(link, states, steps, n)
    ensures var sent := SentFor(link, states[n], steps[n]);
            && sent != []
            && var s, j := states[n + |sent|], |states[n].replies| + |sent| - 1;
            EndsWith(link, s, j, ResponseIn(link, states[n], steps[n]).value)
  {
    hide Apply, PeerStep, CapFor, Inv, Outcome, AfterSome, ResponseIn;
    InvRun(link, states, steps, n);
    HandlingSendsResponse(link, states[n], steps[n]);
    var last := |SentFor(link, states[n], steps[n])| - 1;
    WaitsForTheRest(link, states, steps, n, last);
    NextOutcome(link, states, steps, n, last);
  }
}

/** What the client makes of chunked replies when the network repeats a request and the server's
    responses to it differ (crates/client-backend/src/udp_client.rs, crates/common/src/udp.rs). */
module UdpSessionSplice {
  import opened Results
  import opened Bytes
  import opened Frame
  import opened UdpChunk
  import opened Reassembler
  import opened ChunkSplice
  import opened SingleChunk
  import opened ServerTransport
  import opened UdpServer
  import opened UdpSession
  import opened UdpSessionSafety
  import UdpClient

  // ---------------------------------------------------------------------------------------------
  // Which reply a slot holds.

  /** The latest of the replies given to the reassembler that is chunk `i` with this common data. */
  function LatestReply(replies: seq<Replied>, fed: seq<nat>, meta: Meta, i: nat): (r: Option<nat>)
    requires forall k :: 0 <= k < |fed| ==> fed[k] < |replies|
    ensures r.Some? ==>
              && r.value < |replies|
              && DecodeChunk(replies[r.value].datagram).Ok?
              && MetaOf(DecodeChunk(replies[r.value].datagram).value) == meta
              && DecodeChunk(replies[r.value].datagram).value.chunkId == i
  {
    if |fed| == 0 then None
    else
      var last := fed[|fed| - 1];
      match DecodeChunk(replies[last].datagram)
      case Ok(h) =>
        if MetaOf(h) == meta && h.chunkId == i then Some(last)
        else LatestReply(replies, fed[..|fed| - 1], meta, i)
      case Err(_) => LatestReply(replies, fed[..|fed| - 1], meta, i)
  }

  lemma {:induction false} LatestReplyInSlot(replies: seq<Replied>, fed: seq<nat>, meta: Meta, i: nat)
    requires forall k :: 0 <= k < |fed| ==> fed[k] < |replies|
    ensures LatestSlot(Fed(replies, fed), meta, i) ==
            match LatestReply(replies, fed, meta, i)
            case None => None
            case Some(r) =>
              Some(SlotOf(DecodeChunk(replies[r].datagram).value, PayloadOf(replies[r].datagram)))
  {
    hide DecodeChunk;
    if |fed| > 0 {
      var run := Fed(replies, fed);
      assert run[..|run| - 1] == Fed(replies, fed[..|fed| - 1]);
      LatestReplyInSlot(replies, fed[..|fed| - 1], meta, i);
    }
  }

  // ---------------------------------------------------------------------------------------------
  // Replies to the awaited request.

  /** A reply made in handling request `k`, and the response it is part of. */
  predicate MadeFor(link: Link, s: Session, k: nat, r: nat) {
    && r < |s.replies| && s.replies[r].handling < |s.handlings|
    && s.handlings[s.replies[r].handling].request == k && k < |s.requests|
    && ResponseOf(link, s, s.handlings[s.replies[r].handling]).Ok?
  }

  function ResponseBehind(link: Link, s: Session, k: nat, r: nat): seq<byte>
    requires MadeFor(link, s, k, r)
  {
    ResponseOf(link, s, s.handlings[s.replies[r].handling]).value
  }

  /** All of them replies made in handling request `k`. */
  predicate AllMadeFor(link: Link, s: Session, k: nat, sources: seq<nat>) {
    forall i :: 0 <= i < |sources| ==> MadeFor(link, s, k, sources[i])
  }

  function ResponsesBehind(link: Link, s: Session, k: nat, sources: seq<nat>): (frames: seq<seq<byte>>)
    requires AllMadeFor(link, s, k, sources)
    ensures |frames| == |sources|
  {
    seq(|sources|, i requires 0 <= i < |sources| => ResponseBehind(link, s, k, sources[i]))
  }

  /** The capacity that requests are answered with. */
  function CapOf(s: Session, r: nat): nat
    requires r < |s.replies| && s.replies[r].handling < |s.handlings|
  {
    s.handlings[s.replies[r].handling].max
  }

  /** A chunk of a longer frame under the awaited id: it was made in handling the awaited request,
      and is the genuine chunk of the response of that handling. */
  lemma ChunkIsGenuine(link: Link, s: Session, r: nat)
    requires Inv(link, s) && s.phase.Awaiting? && r < |s.replies|
    requires DecodeChunk(s.replies[r].datagram).Ok?
    requires DecodeChunk(s.replies[r].datagram).value.requestId == s.requests[s.phase.request].id
    requires DecodeChunk(s.replies[r].datagram).value.totalChunks > 1
    ensures MadeFor(link, s, s.phase.request, r)
    ensures s.peer.cap == Some(CapOf(s, r))
    ensures var h, response := DecodeChunk(s.replies[r].datagram).value, ResponseBehind(link, s, s.phase.request, r);
            && Member(response, CapOf(s, r), MetaOf(h))
            && h.chunkId < |Pieces(response, CapOf(s, r))|
            && SlotOf(h, PayloadOf(s.replies[r].datagram)) ==
               GenuineSlot(link.server.crc, Pieces(response, CapOf(s, r)), h.chunkId)
  {
    hide DecodeChunk, DecodeFrame, GoodRequest, SentFor, Used, HandleFrame, EncodeChunks, EncodeSingle, Pieces;
    InvAt(link, s, r);
    IdTellsTheRequest(link, s, r, s.phase.request);
    var k, handling, d := s.phase.request, s.handlings[s.replies[r].handling], s.replies[r].datagram;
    ReplyIsResponse(link, s.requests[k], handling, d);
    var response := ResponseOf(link, s, handling).value;
    if |response| <= handling.max {
      OneChunk(link.server.crc, response, d);
      assert false;
    }
    ChunkOfFrame(link.server.crc, response, handling.max, d);
  }

  lemma OneChunk(crc: Checksum, frame: seq<byte>, datagram: seq<byte>)
    requires EncodeSingle(crc, frame) == Ok(datagram) && DecodeChunk(datagram).Ok?
    ensures DecodeChunk(datagram).value.totalChunks == 1
  {
    hide DecodeFrame;
    SingleRoundTrip(crc, frame);
    hide DecodeChunk;
  }

  lemma ChunkOfFrame(crc: Checksum, frame: seq<byte>, max: nat, datagram: seq<byte>)
    requires EncodeChunks(crc, frame, max).Ok? && datagram in EncodeChunks(crc, frame, max).value
    requires DecodeChunk(datagram).Ok?
    ensures var h := DecodeChunk(datagram).value;
            && Member(frame, max, MetaOf(h))
            && h.chunkId < |Pieces(frame, max)|
            && SlotOf(h, PayloadOf(datagram)) == GenuineSlot(crc, Pieces(frame, max), h.chunkId)
  {
    hide DecodeFrame, DecodeChunk, Pieces, Datagram, PieceHeader, EncodeFault;
    assert EncodeFault(frame, max) == None by { ChunkSaysItsFrame(crc, frame, max, datagram); }
    var meta, pieces := FrameMeta(frame, max), Pieces(frame, max);
    var i :| 0 <= i < |pieces| && datagram == Datagrams(crc, meta, pieces)[i];
    GenuineDecodes(crc, meta, pieces, i);
    PieceNumber(crc, meta, pieces, i);
  }

  // ---------------------------------------------------------------------------------------------
  // The theorem.

  /** Slot `i` has a chunk, of the replies given to the reassembler and reply `j`. */
  predicate Filled(s: Session, j: nat, meta: Meta, i: nat)
    requires s.phase.Awaiting? && InRange(s) && j < |s.replies|
  {
    LatestReply(s.replies, s.phase.fed + [j], meta, i).Some?
  }

  function SourceAt(s: Session, j: nat, meta: Meta, i: nat): nat
    requires s.phase.Awaiting? && InRange(s) && j < |s.replies|
    requires Filled(s, j, meta, i)
  {
    LatestReply(s.replies, s.phase.fed + [j], meta, i).value
  }

  /** The replies in the slots of a complete group. */
  function Sources(s: Session, j: nat, meta: Meta): (sources: seq<nat>)
    requires s.phase.Awaiting? && InRange(s) && j < |s.replies|
    requires forall i :: 0 <= i < meta.totalChunks ==> Filled(s, j, meta, i)
    ensures |sources| == meta.totalChunks
  {
    seq(meta.totalChunks, i requires 0 <= i < meta.totalChunks => SourceAt(s, j, meta, i))
  }

  lemma SourcesAreGenuine(link: Link, s: Session, j: nat, meta: Meta)
    requires Inv(link, s) && s.phase.Awaiting? && InRange(s) && j < |s.replies|
    requires meta.requestId == s.requests[s.phase.request].id && meta.totalChunks > 1
    requires s.peer.cap.Some?
    requires forall i :: 0 <= i < meta.totalChunks ==> Filled(s, j, meta, i)
    ensures AllMadeFor(link, s, s.phase.request, Sources(s, j, meta))
    ensures var frames := ResponsesBehind(link, s, s.phase.request, Sources(s, j, meta));
            && Family(frames, s.peer.cap.value, meta)
            && LatestSlots(Fed(s.replies, s.phase.fed + [j]), meta) ==
               SpliceSlots(link.server.crc, frames, s.peer.cap.value, meta)
  {
    hide Inv, DecodeChunk, DecodeFrame, Pieces, Fed, MadeFor, ResponseBehind, LatestReply;
    var fed, sources := s.phase.fed + [j], Sources(s, j, meta);
    forall i | 0 <= i < meta.totalChunks
      ensures MadeFor(link, s, s.phase.request, sources[i])
      ensures var response := ResponseBehind(link, s, s.phase.request, sources[i]);
              && Member(response, s.peer.cap.value, meta)
              && i < |Pieces(response, s.peer.cap.value)|
              && LatestSlot(Fed(s.replies, fed), meta, i) ==
                 Some(GenuineSlot(link.server.crc, Pieces(response, s.peer.cap.value), i))
    {
      assert Filled(s, j, meta, i);
      LatestReplyInSlot(s.replies, fed, meta, i);
      ChunkIsGenuine(link, s, sources[i]);
    }
  }

  /** In every run, for every chunk of a longer reply under the awaited id, however often the request
      was handled and whatever the responses were: if its common data differs from that of the first
      chunk under the id, the wait ends with a mismatch; else, while a slot is empty, it goes on; else
      every slot holds a chunk made in handling the awaited request, and the wait ends with the splice
      of those responses' pieces if and only if the responses in any two neighbouring slots have equal
      checksums at both places, and with a checksum error otherwise. */
  lemma ChunkedReplyOutcome(link: Link, states: seq<Session>, steps: seq<Step>, n: nat, j: nat)
    requires ValidLink(link) && IsRun(link, states, steps) && n < |states|
    requires Enabled(states[n], Receive(j)) && InRange(states[n])
    requires DecodeSingle(link.server.crc, states[n].replies[j].datagram) == Ok(None)
    requires states[n].replies[j].handling < |states[n].handlings|
    requires RequestOf(states[n], j) == states[n].phase.request
    ensures DecodeChunk(states[n].replies[j].datagram).Ok?
    ensures var s := states[n];
            var run := Fed(s.replies, s.phase.fed + [j]);
            var meta := MetaOf(DecodeChunk(s.replies[j].datagram).value);
            if FirstMeta(run, meta.requestId) != Some(meta) then
              Outcome(link, s, j) == UdpClient.Fails(UdpClient.BadDatagram(MetadataMismatch))
            else if exists i :: 0 <= i < meta.totalChunks && !Filled(s, j, meta, i) then
              Outcome(link, s, j) == UdpClient.Waits(FeedAll(run))
            else
              && AllMadeFor(link, s, s.phase.request, Sources(s, j, meta))
              && var frames := ResponsesBehind(link, s, s.phase.request, Sources(s, j, meta));
              && Family(frames, CapOf(s, j), meta)
              && Outcome(link, s, j) ==
                 if NeighboursAgree(link.server.crc, frames, CapOf(s, j), meta)
                 then UdpClient.Got(Spliced(frames, CapOf(s, j), meta))
                 else UdpClient.Fails(UdpClient.BadDatagram(ChecksumMismatch))
  {
    hide DecodeChunk, DecodeFrame, Answer, Accept, FeedAll, Inv, IsRun, NeighboursAgree, Spliced, Family, SpliceSlots,
      RingOk, LatestReply, MadeFor, UdpClient.RecvStep, FirstMeta, Fed, CheckFrame;
    var s, crc := states[n], link.server.crc;
    InvRun(link, states, steps, n);
    var d := s.replies[j].datagram;
    FeedingChunk(crc, d);
    var meta := MetaOf(DecodeChunk(d).value);
    EveryChunkAnswersItself(link, states, steps, n, j);
    var run := Fed(s.replies, s.phase.fed + [j]);
    FedOneMore(s.replies, s.phase.fed, j);
    AnswerIsLatest(crc, run);
    RunStep(crc, s.requests[s.phase.request].id, run);
    ChunkIsGenuine(link, s, j);
    if FirstMeta(run, meta.requestId) == Some(meta) {
      if i :| 0 <= i < meta.totalChunks && !Filled(s, j, meta, i) {
        LatestReplyInSlot(s.replies, s.phase.fed + [j], meta, i);
        assert LatestSlots(run, meta)[i] == None;
      } else {
        SourcesAreGenuine(link, s, j, meta);
        var frames := ResponsesBehind(link, s, s.phase.request, Sources(s, j, meta));
        SpliceDelivered(crc, frames, CapOf(s, j), meta);
      }
    }
  }

  lemma FeedingChunk(crc: Checksum, datagram: seq<byte>)
    requires DecodeSingle(crc, datagram) == Ok(None)
    ensures DecodeChunk(datagram).Ok? && DecodeChunk(datagram).value.totalChunks > 1
  {
    hide DecodeFrame;
  }

  lemma FedOneMore(replies: seq<Replied>, fed: seq<nat>, j: nat)
    requires j < |replies| && forall k :: 0 <= k < |fed| ==> fed[k] < |replies|
    ensures var run := Fed(replies, fed + [j]);
            |run| > 0 && run[..|run| - 1] == Fed(replies, fed) && run[|run| - 1] == replies[j].datagram
  {
  }

  /** What the client answers to the last chunk of a run, under its own id. */
  lemma RunStep(crc: Checksum, id: u64, run: seq<seq<byte>>)
    requires |run| > 0 && UdpClient.FeedsReassembler(crc, run[|run| - 1])
    requires DecodeChunk(run[|run| - 1]).Ok? && DecodeChunk(run[|run| - 1]).value.requestId == id
    ensures UdpClient.RecvStep(crc, id, FeedAll(run[..|run| - 1]), run[|run| - 1]) ==
            match Answer(crc, FeedAll(run[..|run| - 1]), run[|run| - 1])
            case Err(e) => UdpClient.Fails(UdpClient.BadDatagram(e))
            case Ok(None) => UdpClient.Waits(FeedAll(run))
            case Ok(Some(frame)) => UdpClient.Got(frame)
  {
    hide DecodeChunk, DecodeFrame, DecodeSingle, Answer, Accept;
    var groups := FeedAll(run[..|run| - 1]);
    if Answer(crc, groups, run[|run| - 1]).Ok? {
      UdpClient.JudgeChunk(crc, id, groups, run[|run| - 1]);
    }
  }
}

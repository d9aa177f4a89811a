/** The client's side of one UDP connection: waiting for the reply to a request
    (crates/client-backend/src/udp_client.rs). */
module UdpClient {
  import opened Results
  import opened Bytes
  import opened Frame
  import opened UdpChunk
  import opened Reassembler
  import opened SingleChunk

  datatype RecvError =
    | TimedOut
    | SocketFailed
    | BadDatagram(cause: ChunkError)

  datatype Outcome =
    | Waits(groups: Groups)
    | Got(frame: seq<byte>)
    | Fails(error: RecvError)

  /** A complete frame ends the wait if it carries the request's id, and is skipped otherwise. */
  function Judge(id: u64, groups: Groups, frame: seq<byte>): Outcome {
    match DecodeFrame(frame)
    case Err(e) => Fails(BadDatagram(InFrame(e)))
    case Ok(d) => if d.header.requestId == id then Got(frame) else Waits(groups)
  }

  /** One received datagram. */
  function RecvStep(crc: Checksum, id: u64, groups: Groups, datagram: seq<byte>): Outcome {
    match DecodeSingle(crc, datagram)
    case Err(e) => Fails(BadDatagram(e))
    case Ok(Some(frame)) => Judge(id, groups, frame)
    case Ok(None) =>
      match Answer(crc, groups, datagram)
      case Err(e) => Fails(BadDatagram(e))
      case Ok(None) => Waits(Accept(groups, datagram))
      case Ok(Some(frame)) => Judge(id, Accept(groups, datagram), frame)
  }

  /** Chunks of longer frames go through the reassembler. */
  predicate FeedsReassembler(crc: Checksum, datagram: seq<byte>) {
    DecodeSingle(crc, datagram) == Ok(None)
  }

  /** One turn of the receive loop: the clock when the loop tests it, what the socket brought
      (nothing if it failed) and the clock by then. */
  datatype Turn = Turn(tested: nat, datagram: Option<seq<byte>>, arrived: nat)

  function GroupsOf(inbox: Option<Inbox>): Groups {
    if inbox.Some? then inbox.value.groups else map[]
  }

  /** The reassembler is made when the first chunk of a longer frame comes. */
  function InboxAfter(crc: Checksum, inbox: Option<Inbox>, turn: Turn, timeout: nat, groups: Groups): Option<Inbox>
    requires turn.datagram.Some?
  {
    if !FeedsReassembler(crc, turn.datagram.value) then inbox
    else Some(Inbox(if inbox.Some? then inbox.value.deadline else turn.arrived + timeout, groups))
  }

  /** The whole wait, over whatever the socket brings. */
  function Recv(crc: Checksum, id: u64, timeout: nat, deadline: nat, inbox: Option<Inbox>, turns: seq<Turn>):
    Result<seq<byte>, RecvError>
    decreases |turns|
  {
    if |turns| == 0 || turns[0].tested >= deadline then Err(TimedOut)
    else if inbox.Some? && turns[0].tested >= inbox.value.deadline then Err(TimedOut)
    else if turns[0].datagram == None then Err(SocketFailed)
    else match RecvStep(crc, id, GroupsOf(inbox), turns[0].datagram.value)
      case Got(frame) => Ok(frame)
      case Fails(e) => Err(e)
      case Waits(groups) =>
        Recv(crc, id, timeout, deadline, InboxAfter(crc, inbox, turns[0], timeout, groups), turns[1..])
  }

  /** The receive loop with its own reassembler object. */
  method RecvFrame(crc: Checksum, id: u64, start: nat, timeout: nat, turns: seq<Turn>)
    returns (r: Result<seq<byte>, RecvError>)
    ensures r == Recv(crc, id, timeout, start + timeout, None, turns)
  {
    hide Answer, Accept, DecodeSingle, DecodeFrame;
    var deadline := start + timeout;
    var reassembler: UdpFrameReassembler? := null;
    var reassemblerDeadline: nat := 0;
    ghost var inbox: Option<Inbox> := None;
    var i := 0;
    assert turns[0..] == turns;
    while i < |turns| && turns[i].tested < deadline && (reassembler == null || turns[i].tested < reassemblerDeadline)
      invariant 0 <= i <= |turns|
      invariant reassembler == null <==> inbox == None
      invariant reassembler != null ==>
                  && fresh(reassembler) && reassembler.Valid()
                  && inbox == Some(Inbox(reassemblerDeadline, reassembler.groups))
      invariant Recv(crc, id, timeout, deadline, None, turns) ==
                Recv(crc, id, timeout, deadline, inbox, turns[i..])
    {
      var turn := turns[i];
      assert turns[i..][1..] == turns[i + 1..];
      if turn.datagram == None {
        return Err(SocketFailed);
      }
      var datagram := turn.datagram.value;
      var single := DecodeSingle(crc, datagram);
      if single.Err? {
        return Err(BadDatagram(single.error));
      }
      if single.value.Some? {
        var decoded := DecodeFrame(single.value.value);
        if decoded.Err? {
          return Err(BadDatagram(InFrame(decoded.error)));
        }
        if decoded.value.header.requestId == id {
          return Ok(single.value.value);
        }
      } else {
        if reassembler == null {
          reassembler := new UdpFrameReassembler();
          reassemblerDeadline := turn.arrived + timeout;
        }
        var answer := reassembler.Insert(crc, datagram);
        if answer.Err? {
          return Err(BadDatagram(answer.error));
        }
        if answer.value.Some? {
          var decoded := DecodeFrame(answer.value.value);
          if decoded.Err? {
            return Err(BadDatagram(InFrame(decoded.error)));
          }
          if decoded.value.header.requestId == id {
            return Ok(answer.value.value);
          }
        }
        inbox := Some(Inbox(reassemblerDeadline, reassembler.groups));
      }
      i := i + 1;
    }
    return Err(TimedOut);
  }

  // ---------------------------------------------------------------------------------------------
  // What a wait can end with.

  /** A frame that ends the wait decodes and carries the id. */
  lemma {:induction false} RecvReturnsTheId(crc: Checksum, id: u64, timeout: nat, deadline: nat, inbox: Option<Inbox>,
                                            turns: seq<Turn>)
    requires Recv(crc, id, timeout, deadline, inbox, turns).Ok?
    ensures var frame := Recv(crc, id, timeout, deadline, inbox, turns).value;
            DecodeFrame(frame).Ok? && DecodeFrame(frame).value.header.requestId == id
    decreases |turns|
  {
    hide DecodeFrame, DecodeSingle, Answer, Accept;
    var step := RecvStep(crc, id, GroupsOf(inbox), turns[0].datagram.value);
    if step.Waits? {
      RecvReturnsTheId(crc, id, timeout, deadline, InboxAfter(crc, inbox, turns[0], timeout, step.groups), turns[1..]);
    }
  }

  /** The reassembler's own deadline never ends a wait early: while the clock does not run
      backwards, it lies behind the deadline of the wait. */
  ghost predicate Monotone(start: nat, turns: seq<Turn>) {
    forall i :: 0 <= i < |turns| ==> start <= turns[i].arrived
  }

  function RecvPlain(crc: Checksum, id: u64, deadline: nat, groups: Groups, turns: seq<Turn>):
    Result<seq<byte>, RecvError>
    decreases |turns|
  {
    if |turns| == 0 || turns[0].tested >= deadline then Err(TimedOut)
    else if turns[0].datagram == None then Err(SocketFailed)
    else match RecvStep(crc, id, groups, turns[0].datagram.value)
      case Got(frame) => Ok(frame)
      case Fails(e) => Err(e)
      case Waits(groups') => RecvPlain(crc, id, deadline, groups', turns[1..])
  }

  lemma {:induction false} SecondDeadlineIdle(crc: Checksum, id: u64, start: nat, timeout: nat, inbox: Option<Inbox>,
                                              turns: seq<Turn>)
    requires Monotone(start, turns)
    requires inbox.Some? ==> inbox.value.deadline >= start + timeout
    ensures Recv(crc, id, timeout, start + timeout, inbox, turns) ==
            RecvPlain(crc, id, start + timeout, GroupsOf(inbox), turns)
    decreases |turns|
  {
    hide DecodeFrame, DecodeSingle, Answer, Accept;
    if |turns| > 0 && turns[0].tested < start + timeout && turns[0].datagram.Some? {
      var step := RecvStep(crc, id, GroupsOf(inbox), turns[0].datagram.value);
      if step.Waits? {
        SecondDeadlineIdle(crc, id, start, timeout, InboxAfter(crc, inbox, turns[0], timeout, step.groups), turns[1..]);
      }
    }
  }

  /** A single datagram is judged by the id its chunk header claims. */
  lemma JudgeSingle(crc: Checksum, id: u64, groups: Groups, datagram: seq<byte>)
    requires DecodeSingle(crc, datagram).Ok? && DecodeSingle(crc, datagram).value.Some?
    ensures DecodeChunk(datagram).Ok?
    ensures RecvStep(crc, id, groups, datagram) ==
            if DecodeChunk(datagram).value.requestId == id then Got(DecodeSingle(crc, datagram).value.value)
            else Waits(groups)
  {
    hide DecodeChunk, DecodeFrame;
  }

  /** A completed frame is judged by the id of the chunk that completed it. */
  lemma JudgeChunk(crc: Checksum, id: u64, groups: Groups, datagram: seq<byte>)
    requires FeedsReassembler(crc, datagram) && Answer(crc, groups, datagram).Ok?
    ensures DecodeChunk(datagram).Ok?
    ensures RecvStep(crc, id, groups, datagram) ==
            if Answer(crc, groups, datagram).value.Some? && DecodeChunk(datagram).value.requestId == id
            then Got(Answer(crc, groups, datagram).value.value)
            else Waits(Accept(groups, datagram))
  {
    hide DecodeChunk, DecodeFrame, Accept;
  }

  /** Receiving one more chunk of a frame with the awaited id, when all chunks under that id are the
      frame's: the frame once all of them have come, and nothing before. */
  lemma GenuineChunkOutcome(crc: Checksum, frame: seq<byte>, max: nat, run: seq<seq<byte>>)
    requires EncodeFault(frame, max) == None
    requires |run| > 0 && run[|run| - 1] in EncodeChunks(crc, frame, max).value
    requires FeedsReassembler(crc, run[|run| - 1])
    requires OnlyGenuine(crc, FrameMeta(frame, max), Pieces(frame, max), run)
    ensures RecvStep(crc, FrameMeta(frame, max).requestId, FeedAll(run[..|run| - 1]), run[|run| - 1]) ==
            if (max <= U16_MAX || |frame| <= U16_MAX) && AllThere(crc, frame, max, run) then Got(frame)
            else Waits(FeedAll(run))
  {
    hide DecodeFrame, DecodeChunk, RecvStep, Answer, Accept, EncodeFault, OnlyGenuine, Datagram, AllThere;
    var meta, pieces := FrameMeta(frame, max), Pieces(frame, max);
    var i :| 0 <= i < |pieces| && Datagrams(crc, meta, pieces)[i] == run[|run| - 1];
    GenuineDecodes(crc, meta, pieces, i);
    ReassemblesInAnyOrder(crc, frame, max, run, i);
    JudgeChunk(crc, meta.requestId, FeedAll(run[..|run| - 1]), run[|run| - 1]);
  }

  // ---------------------------------------------------------------------------------------------
  // When a wait ends, and how.

  /** What the reassembler has been given in the first `i` turns. */
  function FedIn(crc: Checksum, turns: seq<Turn>, i: nat): seq<seq<byte>>
    requires i <= |turns|
  {
    if i == 0 then []
    else
      var before, d := FedIn(crc, turns, i - 1), turns[i - 1].datagram;
      if d.Some? && FeedsReassembler(crc, d.value) then before + [d.value] else before
  }

  /** The clock has not run out in turn `i` and the socket has brought a datagram. */
  predicate InTime(turns: seq<Turn>, i: nat, deadline: nat)
    requires i < |turns|
  {
    turns[i].tested < deadline && turns[i].datagram.Some?
  }

  function OutcomeIn(crc: Checksum, id: u64, turns: seq<Turn>, i: nat): Outcome
    requires i < |turns| && turns[i].datagram.Some?
  {
    RecvStep(crc, id, FeedAll(FedIn(crc, turns, i)), turns[i].datagram.value)
  }

  lemma WaitFeeds(crc: Checksum, id: u64, turns: seq<Turn>, i: nat)
    requires i < |turns| && turns[i].datagram.Some? && OutcomeIn(crc, id, turns, i).Waits?
    ensures OutcomeIn(crc, id, turns, i).groups == FeedAll(FedIn(crc, turns, i + 1))
  {
    hide DecodeSingle, DecodeFrame, Answer, Accept;
    var run, d := FedIn(crc, turns, i), turns[i].datagram.value;
    if FeedsReassembler(crc, d) {
      assert (run + [d])[..|run|] == run;
    }
  }

  /** From turn `i` on, when all before it were in time and let the wait go on. */
  lemma {:induction false} RecvFromTurn(crc: Checksum, id: u64, deadline: nat, turns: seq<Turn>, i: nat)
    requires i <= |turns|
    requires forall k :: 0 <= k < i ==> InTime(turns, k, deadline) && OutcomeIn(crc, id, turns, k).Waits?
    ensures RecvPlain(crc, id, deadline, map[], turns) ==
            RecvPlain(crc, id, deadline, FeedAll(FedIn(crc, turns, i)), turns[i..])
  {
    hide RecvStep;
    if i == 0 {
      assert turns[0..] == turns;
    } else {
      RecvFromTurn(crc, id, deadline, turns, i - 1);
      assert InTime(turns, i - 1, deadline) && OutcomeIn(crc, id, turns, i - 1).Waits?;
      WaitFeeds(crc, id, turns, i - 1);
      assert turns[i - 1..][0] == turns[i - 1] && turns[i - 1..][1..] == turns[i..];
    }
  }

  /** The first turn that does not let the wait go on decides it: by the frame or the error that its
      datagram gives, by the failure of the socket, or by the clock. */
  lemma FirstDecisiveTurn(crc: Checksum, id: u64, start: nat, timeout: nat, deadline: nat, turns: seq<Turn>, i: nat)
    requires Monotone(start, turns) && i <= |turns| && deadline == start + timeout
    requires forall k :: 0 <= k < i ==> InTime(turns, k, deadline) && OutcomeIn(crc, id, turns, k).Waits?
    ensures var r := Recv(crc, id, timeout, deadline, None, turns);
            && (i == |turns| || turns[i].tested >= deadline ==> r == Err(TimedOut))
            && (i < |turns| && turns[i].tested < deadline ==>
                  match turns[i].datagram
                  case None => r == Err(SocketFailed)
                  case Some(_) =>
                    match OutcomeIn(crc, id, turns, i)
                    case Got(frame) => r == Ok(frame)
                    case Fails(e) => r == Err(e)
                    case Waits(_) => true)
  {
    hide RecvStep;
    SecondDeadlineIdle(crc, id, start, timeout, None, turns);
    RecvFromTurn(crc, id, deadline, turns, i);
    if i < |turns| {
      assert turns[i..][0] == turns[i];
    }
  }
}

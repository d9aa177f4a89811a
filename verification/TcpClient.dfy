/** Queries one after another on one TCP connection (crates/client-backend/src/tcp_client.rs): every
    query goes out under the same id, and what is read next is taken for its answer. */
module TcpClient {
  import opened Results
  import opened Bytes
  import opened Frame
  import opened TcpFrames
  import opened ServerTransport
  import opened TcpServer

  /** How a query that was sent goes on: it reads a frame, or runs into its timeout before any byte of
      one has come. */
  datatype Attempt = Reading | GivingUp

  /** The frames the queries read from what the server writes. */
  function Received(stream: seq<byte>, attempts: seq<Attempt>): (got: seq<Option<seq<byte>>>)
    ensures |got| == |attempts|
    decreases |attempts|
  {
    if |attempts| == 0 then []
    else if attempts[0].GivingUp? then [None] + Received(stream, attempts[1..])
    else
      var read := ReadFrame(stream);
      [if read.answer.Ok? then read.answer.value else None] + Received(read.rest, attempts[1..])
  }

  lemma ReceivedNext(stream: seq<byte>, attempts: seq<Attempt>, i: nat)
    requires i < |attempts|
    ensures var read := ReadFrame(stream);
            Received(stream, attempts[i..]) ==
            if attempts[i].GivingUp? then [None] + Received(stream, attempts[i + 1..])
            else [if read.answer.Ok? then read.answer.value else None] + Received(read.rest, attempts[i + 1..])
  {
    hide ReadFrame;
    assert attempts[i..][0] == attempts[i] && attempts[i..][1..] == attempts[i + 1..];
  }

  /** The queries of a connection, each taking the next frame of the stream. */
  method RunQueries(stream: Stream, attempts: seq<Attempt>) returns (got: seq<Option<seq<byte>>>)
    modifies stream
    ensures got == Received(old(stream.Unread()), attempts)
  {
    hide ReadFrame, Received;
    got := [];
    assert attempts[0..] == attempts;
    assert [] + Received(stream.Unread(), attempts) == Received(stream.Unread(), attempts);
    for i := 0 to |attempts|
      invariant Received(old(stream.Unread()), attempts) == got + Received(stream.Unread(), attempts[i..])
    {
      ReceivedNext(stream.Unread(), attempts, i);
      if attempts[i].GivingUp? {
        got := got + [None];
      } else {
        var read := stream.ReadTcpFrame();
        got := got + [if read.Ok? then read.value else None];
      }
    }
    assert attempts[|attempts|..] == [];
  }

  /** How many of the queries before number `q` have read a frame. */
  function ReadsBefore(attempts: seq<Attempt>, q: nat): (n: nat)
    requires q <= |attempts|
    ensures n <= q
  {
    if q == 0 then 0 else ReadsBefore(attempts, q - 1) + if attempts[q - 1].Reading? then 1 else 0
  }

  lemma {:induction false} ReadsBeforeShift(attempts: seq<Attempt>, q: nat)
    requires 0 < q <= |attempts|
    ensures ReadsBefore(attempts, q) ==
            ReadsBefore(attempts[1..], q - 1) + if attempts[0].Reading? then 1 else 0
  {
    if q > 1 {
      ReadsBeforeShift(attempts, q - 1);
    }
  }

  /** The k-th query that reads gets the k-th frame, whichever query it is. */
  lemma {:induction false} ReceivedInOrder(frames: seq<seq<byte>>, tail: seq<byte>, attempts: seq<Attempt>, q: nat)
    requires AllFrames(frames) && q < |attempts| && attempts[q].Reading?
    requires ReadsBefore(attempts, q) < |frames|
    ensures Received(Flatten(frames) + tail, attempts)[q] == Some(frames[ReadsBefore(attempts, q)])
    decreases |attempts|
  {
    hide ReadFrame, DecodeFrame;
    var stream := Flatten(frames) + tail;
    if attempts[0].Reading? {
      var more := Flatten(frames[1..]) + tail;
      if q > 0 {
        ReadsBeforeShift(attempts, q);
      }
      assert |frames| > 0;
      assert stream == frames[0] + more;
      ReadOneFrame(frames[0], more);
      if q > 0 {
        ReceivedInOrder(frames[1..], tail, attempts[1..], q - 1);
      }
    } else {
      ReadsBeforeShift(attempts, q);
      ReceivedInOrder(frames, tail, attempts[1..], q - 1);
    }
  }

  lemma {:induction false} AllReadBefore(attempts: seq<Attempt>, q: nat)
    requires q <= |attempts|
    ensures ReadsBefore(attempts, q) == q <==> forall i :: 0 <= i < q ==> attempts[i].Reading?
  {
    if q > 0 {
      AllReadBefore(attempts, q - 1);
    }
  }

  /** What the server has for request number `k`. */
  function ResponseTo(codec: Codec, w: World, request: seq<byte>, k: nat): Result<seq<byte>, TransportError> {
    HandleFrame(codec, w.cache(k), request)
  }

  function Repeated(request: seq<byte>, n: nat): (requests: seq<seq<byte>>)
    ensures |requests| == n
  {
    seq(n, _ => request)
  }

  /** For every server, cache and series of queries on a connection that the server keeps answering:
      query number `q` gets the response that the server made for the request whose number is the
      count of earlier queries that read; that is the response to its own request if and only if no
      earlier query on the connection gave up. Nothing in the frame tells, since all go under one id. */
  lemma QueryGetsItsOwnAnswer(codec: Codec, w: World, request: seq<byte>, attempts: seq<Attempt>, q: nat)
    requires DecodeFrame(request).Ok? && !IsDisconnect(request)
    requires forall id, code :: |codec.errorReply(id, code)| <= MAX_PAYLOAD_LEN
    requires forall k :: 0 <= k < |attempts| ==> ResponseTo(codec, w, request, k).Ok? && w.fails(k).None?
    requires q < |attempts| && attempts[q].Reading?
    ensures var served := Serve(codec, w, Repeated(request, |attempts|), Closed, 0);
            var k := ReadsBefore(attempts, q);
            && Received(Flatten(served.responses), attempts)[q] == Some(ResponseTo(codec, w, request, k).value)
            && (k == q <==> forall i :: 0 <= i < q ==> attempts[i].Reading?)
  {
    hide DecodeFrame, HandleFrame, Serve, IsDisconnect, Received;
    var requests := Repeated(request, |attempts|);
    var served := Serve(codec, w, requests, Closed, 0);
    AnsweredInOrder(codec, w, requests, Closed, 0);
    var n := |served.responses|;
    forall k | 0 <= k < |requests|
      ensures !IsDisconnect(requests[k]) && w.fails(0 + k).None?
      ensures HandleFrame(codec, w.cache(0 + k), requests[k]).Ok?
    {
      assert ResponseTo(codec, w, request, k).Ok?;
    }
    assert n == |requests|;
    forall i | 0 <= i < n
      ensures DecodeFrame(served.responses[i]).Ok?
    {
      assert requests[i] == request;
      ResponseLength(codec, w.cache(i), request);
      ResponseAnswers(codec, w.cache(i), request);
    }
    ReceivedInOrder(served.responses, [], attempts, q);
    assert Flatten(served.responses) + [] == Flatten(served.responses);
    AllReadBefore(attempts, q);
    assert requests[ReadsBefore(attempts, q)] == request;
  }

  /** A query that gave up and the next one: the late answer to the first is taken for the second's. */
  lemma LateAnswerIsTaken(codec: Codec, w: World, request: seq<byte>)
    requires DecodeFrame(request).Ok? && !IsDisconnect(request)
    requires forall id, code :: |codec.errorReply(id, code)| <= MAX_PAYLOAD_LEN
    requires forall k :: 0 <= k < 2 ==> ResponseTo(codec, w, request, k).Ok? && w.fails(k).None?
    ensures var served := Serve(codec, w, Repeated(request, 2), Closed, 0);
            Received(Flatten(served.responses), [GivingUp, Reading])[1] == Some(ResponseTo(codec, w, request, 0).value)
  {
    hide HandleFrame, DecodeFrame, Serve, Received;
    var attempts := [GivingUp, Reading];
    QueryGetsItsOwnAnswer(codec, w, request, attempts, 1);
    assert ReadsBefore(attempts, 1) == ReadsBefore(attempts, 0) == 0;
  }
}

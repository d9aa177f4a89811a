/** The server's loop over one TCP connection (crates/server/src/main.rs, `handle_query_stream`). */
module TcpServer {
  import opened Results
  import opened Bytes
  import opened Frame
  import opened TcpFrames
  import opened ServerTransport

  /** Why the server stopped: the peer took its leave, a frame had no answer, a write failed with part
      of a response on its way, or the stream ended. */
  datatype Stop = Left | Unanswered(why: TransportError) | Broken(part: seq<byte>) | Over(ending: Ending)

  /** What surrounds the server: what the cache answers while frame number `k` is handled, and after
      how many bytes the write of its response fails, if it does. */
  datatype World = World(cache: nat -> Cached, fails: nat -> Option<nat>)

  /** A write that fails does so before its last byte. */
  function Part(response: seq<byte>, taken: nat): seq<byte> {
    if taken < |response| then response[..taken]
    else if |response| > 0 then response[..|response| - 1]
    else []
  }

  datatype Service = Service(responses: seq<seq<byte>>, stop: Stop)

  /** The service of the frames of a stream, one after another. */
  function Serve(codec: Codec, w: World, frames: seq<seq<byte>>, ending: Ending, k: nat): Service
    decreases |frames|
  {
    if |frames| == 0 then Service([], Over(ending))
    else if IsDisconnect(frames[0]) then Service([], Left)
    else match HandleFrame(codec, w.cache(k), frames[0])
      case Err(e) => Service([], Unanswered(e))
      case Ok(response) =>
        if w.fails(k).Some? then Service([], Broken(Part(response, w.fails(k).value)))
        else
          var rest := Serve(codec, w, frames[1..], ending, k + 1);
          Service([response] + rest.responses, rest.stop)
  }

  function ServeStream(codec: Codec, w: World, stream: seq<byte>, k: nat): Service {
    Serve(codec, w, ReadAll(stream).frames, ReadAll(stream).ending, k)
  }

  /** What a broken write leaves behind. */
  function Cut(stop: Stop): seq<byte> {
    if stop.Broken? then stop.part else []
  }

  /** The service of a stream whose next frame is read. */
  lemma ServeNext(codec: Codec, w: World, stream: seq<byte>, k: nat)
    ensures var read := ReadFrame(stream);
            ServeStream(codec, w, stream, k) ==
            match read.answer
            case Err(e) => Service([], Over(Failed(e)))
            case Ok(None) => Service([], Over(Closed))
            case Ok(Some(frame)) =>
              if IsDisconnect(frame) then Service([], Left)
              else match HandleFrame(codec, w.cache(k), frame)
                case Err(e) => Service([], Unanswered(e))
                case Ok(response) =>
                  if w.fails(k).Some? then Service([], Broken(Part(response, w.fails(k).value)))
                  else
                    var rest := ServeStream(codec, w, read.rest, k + 1);
                    Service([response] + rest.responses, rest.stop)
  {
    hide HandleFrame, IsDisconnect, ReadFrame;
    var read := ReadFrame(stream);
    if read.answer.Ok? && read.answer.value.Some? {
      var frame, tail := read.answer.value.value, ReadAll(read.rest);
      assert ([frame] + tail.frames)[1..] == tail.frames;
    }
  }

  /** The loop: a frame is read, handled and answered before the next is read. */
  method HandleQueryStream(stream: Stream, codec: Codec, w: World)
    returns (written: seq<byte>, ghost responses: seq<seq<byte>>, stop: Stop)
    modifies stream
    ensures Service(responses, stop) == ServeStream(codec, w, old(stream.Unread()), 0)
    ensures written == Flatten(responses) + Cut(stop)
  {
    hide HandleFrame, IsDisconnect, ServeStream, ReadFrame;
    written, responses := [], [];
    var k: nat := 0;
    while true
      invariant written == Flatten(responses)
      invariant ServeStream(codec, w, old(stream.Unread()), 0) ==
                Service(responses + ServeStream(codec, w, stream.Unread(), k).responses,
                        ServeStream(codec, w, stream.Unread(), k).stop)
      decreases |stream.Unread()|
    {
      ServeNext(codec, w, stream.Unread(), k);
      ghost var before := stream.Unread();
      ghost var next := ReadFrame(before);
      assert next.answer.Ok? && next.answer.value.Some? ==> |next.rest| < |before|;
      var read := stream.ReadTcpFrame();
      match read {
        case Err(e) => return written, responses, Over(Failed(e));
        case Ok(None) => return written, responses, Over(Closed);
        case Ok(Some(frame)) =>
          if IsDisconnect(frame) {
            return written, responses, Left;
          }
          var handled := HandleFrame(codec, w.cache(k), frame);
          if handled.Err? {
            return written, responses, Unanswered(handled.error);
          }
          if w.fails(k).Some? {
            var part := Part(handled.value, w.fails(k).value);
            return written + part, responses, Broken(part);
          }
          FlattenOneMore(responses, handled.value);
          written := written + handled.value;
          responses := responses + [handled.value];
          k := k + 1;
      }
    }
  }

  lemma {:induction false} FlattenOneMore(pieces: seq<seq<byte>>, piece: seq<byte>)
    ensures Flatten(pieces + [piece]) == Flatten(pieces) + piece
  {
    if |pieces| == 0 {
      assert pieces + [piece] == [piece];
      assert Flatten([piece]) == piece + Flatten([]);
    } else {
      assert (pieces + [piece])[1..] == pieces[1..] + [piece];
      FlattenOneMore(pieces[1..], piece);
    }
  }

  /** Frame number `k` is answered, by its own response. */
  predicate AnsweredBy(codec: Codec, w: World, frame: seq<byte>, k: nat, response: seq<byte>) {
    !IsDisconnect(frame) && w.fails(k).None? && HandleFrame(codec, w.cache(k), frame) == Ok(response)
  }

  /** Frame number `k` is where the service stops, for this reason. */
  predicate StopsAt(codec: Codec, w: World, frame: seq<byte>, k: nat, stop: Stop) {
    match stop
    case Over(_) => false
    case Left => IsDisconnect(frame)
    case Unanswered(e) => !IsDisconnect(frame) && HandleFrame(codec, w.cache(k), frame) == Err(e)
    case Broken(part) =>
      && !IsDisconnect(frame) && w.fails(k).Some? && HandleFrame(codec, w.cache(k), frame).Ok?
      && part == Part(HandleFrame(codec, w.cache(k), frame).value, w.fails(k).value)
  }

  /** Every frame before the stop is answered, in order, by its own response; the service stops at the
      first farewell, the first frame without an answer or the first write that fails, and only there
      or at the end. */
  lemma {:induction false} AnsweredInOrder(codec: Codec, w: World, frames: seq<seq<byte>>, ending: Ending, k: nat)
    ensures var served := Serve(codec, w, frames, ending, k);
            var n := |served.responses|;
            && n <= |frames|
            && (forall i :: 0 <= i < n ==> AnsweredBy(codec, w, frames[i], k + i, served.responses[i]))
            && (if n == |frames| then served.stop == Over(ending) else StopsAt(codec, w, frames[n], k + n, served.stop))
    decreases |frames|
  {
    hide HandleFrame, IsDisconnect, Part;
    var served := Serve(codec, w, frames, ending, k);
    if |frames| > 0 && !IsDisconnect(frames[0]) && HandleFrame(codec, w.cache(k), frames[0]).Ok? && w.fails(k).None? {
      AnsweredInOrder(codec, w, frames[1..], ending, k + 1);
      var rest, n := Serve(codec, w, frames[1..], ending, k + 1), |served.responses|;
      forall i | 0 <= i < n
        ensures AnsweredBy(codec, w, frames[i], k + i, served.responses[i])
      {
        if i > 0 {
          assert AnsweredBy(codec, w, frames[1..][i - 1], (k + 1) + (i - 1), rest.responses[i - 1]);
        }
      }
    }
  }

  function EndingOf(tail: seq<byte>): Ending {
    if |tail| < FRAME_HEADER_LEN then Closed else Failed(UnexpectedEof)
  }

  /** What a client that writes requests, the last possibly cut short, reads back on the same
      connection: exactly the responses to the requests before the stop, in order, also when the last
      write broke off. */
  lemma ClientReadsResponses(codec: Codec, w: World, requests: seq<seq<byte>>, tail: seq<byte>)
    requires AllFrames(requests) && CutFrame(tail)
    requires forall id, code :: |codec.errorReply(id, code)| <= MAX_PAYLOAD_LEN
    ensures var served := ServeStream(codec, w, Flatten(requests) + tail, 0);
            && served == Serve(codec, w, requests, EndingOf(tail), 0)
            && ReadAll(Flatten(served.responses) + Cut(served.stop)) ==
               Conversation(served.responses, EndingOf(Cut(served.stop)))
  {
    hide HandleFrame, DecodeFrame, ReadAll, Serve, CutFrame;
    StreamRoundTrip(requests, tail);
    var served := Serve(codec, w, requests, EndingOf(tail), 0);
    AnsweredInOrder(codec, w, requests, EndingOf(tail), 0);
    forall i | 0 <= i < |served.responses|
      ensures DecodeFrame(served.responses[i]).Ok?
    {
      assert AnsweredBy(codec, w, requests[i], 0 + i, served.responses[i]);
      ResponseLength(codec, w.cache(i), requests[i]);
      ResponseAnswers(codec, w.cache(i), requests[i]);
    }
    NothingIsCut(tail);
    if served.stop.Broken? {
      var n := |served.responses|;
      ResponseLength(codec, w.cache(n), requests[n]);
      ResponseAnswers(codec, w.cache(n), requests[n]);
      PartIsCut(HandleFrame(codec, w.cache(n), requests[n]).value, w.fails(n).value);
    }
    StreamRoundTrip(served.responses, Cut(served.stop));
  }

  lemma PartIsCut(response: seq<byte>, taken: nat)
    requires DecodeFrame(response).Ok?
    ensures CutFrame(Part(response, taken))
  {
    NotEmpty(response);
    hide DecodeFrame;
    assert Part(response, taken) < response;
  }

  lemma NothingIsCut(tail: seq<byte>)
    requires CutFrame(tail)
    ensures CutFrame([])
  {
    var frame :| DecodeFrame(frame).Ok? && tail < frame;
    assert [] < frame;
  }
}

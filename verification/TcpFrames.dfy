/** Reading frames from a TCP byte stream (crates/server/src/main.rs, tcp_client.rs). */
module TcpFrames {
  import opened Results
  import opened Bytes
  import opened Frame

  datatype ReadError =
    | UnexpectedEof
    | InvalidHeader(cause: FrameError)

  /** What one read leaves: the answer and the bytes still unread. */
  datatype Read = Read(answer: Result<Option<seq<byte>>, ReadError>, rest: seq<byte>)

  /** Why the server stops reading from a connection. */
  datatype Ending = Closed | Failed(error: ReadError)

  datatype Conversation = Conversation(frames: seq<seq<byte>>, ending: Ending)

  /** One frame read: end of stream inside the header closes the connection quietly, end of
      stream inside the payload is an error. */
  function ReadFrame(stream: seq<byte>): (r: Read)
    ensures r.answer.Ok? && r.answer.value.Some? ==> |r.rest| < |stream|
  {
    if |stream| < FRAME_HEADER_LEN then Read(Ok(None), [])
    else
      var headerBytes, rest := stream[..FRAME_HEADER_LEN], stream[FRAME_HEADER_LEN..];
      match DecodeHeader(headerBytes)
      case Err(e) => Read(Err(InvalidHeader(e)), rest)
      case Ok(h) =>
        if |rest| < h.payloadLen then Read(Err(UnexpectedEof), [])
        else Read(Ok(Some(headerBytes + rest[..h.payloadLen])), rest[h.payloadLen..])
  }

  /** All frames read until the connection ends. */
  function ReadAll(stream: seq<byte>): Conversation
    decreases |stream|
  {
    var r := ReadFrame(stream);
    match r.answer
    case Err(e) => Conversation([], Failed(e))
    case Ok(None) => Conversation([], Closed)
    case Ok(Some(frame)) =>
      var tail := ReadAll(r.rest);
      Conversation([frame] + tail.frames, tail.ending)
  }

  predicate AllFrames(frames: seq<seq<byte>>) {
    forall i :: 0 <= i < |frames| ==> DecodeFrame(frames[i]).Ok?
  }

  /** A beginning of some frame, without its end. */
  ghost predicate CutFrame(tail: seq<byte>) {
    exists frame :: DecodeFrame(frame).Ok? && tail < frame
  }

  lemma ReadOneFrame(frame: seq<byte>, more: seq<byte>)
    requires DecodeFrame(frame).Ok?
    ensures ReadFrame(frame + more) == Read(Ok(Some(frame)), more)
  {
    var stream := frame + more;
    HeaderPrefix(frame, FRAME_HEADER_LEN);
    assert stream[..FRAME_HEADER_LEN] == frame[..FRAME_HEADER_LEN];
    var h := DecodeFrame(frame).value.header;
    var rest := stream[FRAME_HEADER_LEN..];
    assert rest == frame[FRAME_HEADER_LEN..] + more;
    assert rest[h.payloadLen..] == more;
    assert frame == frame[..FRAME_HEADER_LEN] + frame[FRAME_HEADER_LEN..];
  }

  lemma ReadAllStep(frame: seq<byte>, more: seq<byte>)
    requires DecodeFrame(frame).Ok?
    ensures ReadAll(frame + more) ==
            Conversation([frame] + ReadAll(more).frames, ReadAll(more).ending)
  {
    ReadOneFrame(frame, more);
  }

  lemma ReadCutFrame(tail: seq<byte>)
    requires CutFrame(tail)
    ensures ReadAll(tail) ==
            Conversation([], if |tail| < FRAME_HEADER_LEN then Closed else Failed(UnexpectedEof))
  {
    var frame :| DecodeFrame(frame).Ok? && tail < frame;
    if |tail| >= FRAME_HEADER_LEN {
      HeaderPrefix(frame, FRAME_HEADER_LEN);
      assert tail[..FRAME_HEADER_LEN] == frame[..FRAME_HEADER_LEN];
    }
  }

  /** Whatever frames were written, followed by a connection cut at any byte of the next one, the
      reader returns exactly the complete frames, in order, and then ends quietly if the cut lies
      within a header and with an error if it lies within a payload. */
  lemma {:induction false} StreamRoundTrip(frames: seq<seq<byte>>, tail: seq<byte>)
    requires AllFrames(frames)
    requires CutFrame(tail)
    ensures ReadAll(Flatten(frames) + tail) ==
            Conversation(frames, if |tail| < FRAME_HEADER_LEN then Closed else Failed(UnexpectedEof))
  {
    if |frames| == 0 {
      assert Flatten(frames) + tail == tail;
      ReadCutFrame(tail);
    } else {
      var more := Flatten(frames[1..]) + tail;
      assert Flatten(frames) + tail == frames[0] + more;
      ReadAllStep(frames[0], more);
      StreamRoundTrip(frames[1..], tail);
      assert [frames[0]] + frames[1..] == frames;
    }
  }

  /** A frame that is read is a frame, and stood at the front of the stream. */
  lemma ReadFrameIsFront(stream: seq<byte>)
    requires ReadFrame(stream).answer.Ok? && ReadFrame(stream).answer.value.Some?
    ensures var r := ReadFrame(stream);
            DecodeFrame(r.answer.value.value).Ok? && stream == r.answer.value.value + r.rest
  {
    hide DecodeHeader;
    var r := ReadFrame(stream);
    var frame := r.answer.value.value;
    assert stream == frame + r.rest;
    HeaderPrefix(frame, FRAME_HEADER_LEN);
    assert frame[..FRAME_HEADER_LEN] == stream[..FRAME_HEADER_LEN];
  }

  /** Conversely, whatever bytes arrive, the frames returned are genuine frames and their
      concatenation is a prefix of the stream: nothing is invented, reordered or skipped. */
  lemma {:induction false} ReadsOnlyWhatWasSent(stream: seq<byte>)
    ensures AllFrames(ReadAll(stream).frames)
    ensures Flatten(ReadAll(stream).frames) <= stream
    decreases |stream|
  {
    hide DecodeFrame, ReadFrame;
    var r := ReadFrame(stream);
    if r.answer.Ok? && r.answer.value.Some? {
      ReadFrameIsFront(stream);
      ReadsOnlyWhatWasSent(r.rest);
    }
  }

  /** The receiving end of a connection. TCP may hand over the stream in segments of any size,
      empty ones included. */
  class Stream {
    var segments: seq<seq<byte>>

    ghost function Unread(): seq<byte>
      reads this
    {
      Flatten(segments)
    }

    constructor (arriving: seq<seq<byte>>)
      ensures segments == arriving
    {
      segments := arriving;
    }

    /** `read_exact`: gathers `n` bytes from as many segments as it takes; when the stream ends
        first, what was gathered is lost. */
    method ReadExact(n: nat) returns (r: Option<seq<byte>>)
      modifies this
      ensures r == if n <= |old(Unread())| then Some(old(Unread())[..n]) else None
      ensures Unread() == if n <= |old(Unread())| then old(Unread())[n..] else []
    {
      var got: seq<byte> := [];
      while |got| < n && |segments| > 0
        invariant |got| <= n
        invariant got + Unread() == old(Unread())
        decreases |segments|
      {
        var first := segments[0];
        var take := if |first| <= n - |got| then |first| else n - |got|;
        ghost var before := got;
        got := got + first[..take];
        if take == |first| {
          segments := segments[1..];
          assert before + (first + Unread()) == got + Unread();
        } else {
          segments := [first[take..]] + segments[1..];
          assert before + (first + Flatten(segments[1..])) == got + (first[take..] + Flatten(segments[1..]));
          break;
        }
      }
      r := if |got| == n then Some(got) else None;
    }

    method ReadTcpFrame() returns (r: Result<Option<seq<byte>>, ReadError>)
      modifies this
      ensures Read(r, Unread()) == ReadFrame(old(Unread()))
    {
      var header := ReadExact(FRAME_HEADER_LEN);
      if header.None? {
        return Ok(None);
      }
      match DecodeHeader(header.value) {
        case Err(e) =>
          return Err(InvalidHeader(e));
        case Ok(h) =>
          if h.payloadLen > 0 {
            var payload := ReadExact(h.payloadLen);
            if payload.None? {
              return Err(UnexpectedEof);
            }
            return Ok(Some(header.value + payload.value));
          }
          ghost var rest := Unread();
          assert rest[0..] == rest && header.value + rest[..0] == header.value;
          return Ok(Some(header.value));
      }
    }
  }
}

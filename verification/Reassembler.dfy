/** Putting chunked frames back together (crates/common/src/udp.rs, `UdpFrameReassembler`). */
module Reassembler {
  import opened Results
  import opened Bytes
  import opened Frame
  import opened UdpChunk

  datatype Slot = Slot(payload: seq<byte>, prevChecksum: u32, nextChecksum: u32)

  /** The chunks received so far for one request id; what they have in common was fixed by the
      first of them. */
  datatype Group = Group(meta: Meta, slots: seq<Option<Slot>>)

  type Groups = map<u64, Group>

  /** A reassembler with its deadline, as its owners keep it. */
  datatype Inbox = Inbox(deadline: nat, groups: Groups)

  predicate ValidGroup(g: Group) {
    |g.slots| == g.meta.totalChunks && g.meta.totalChunks > 0
  }

  predicate ValidGroups(groups: Groups) {
    forall id <- groups :: ValidGroup(groups[id]) && groups[id].meta.requestId == id
  }

  function NewGroup(meta: Meta): Group {
    Group(meta, seq(meta.totalChunks, _ => None))
  }

  predicate Complete(slots: seq<Option<Slot>>) {
    forall i :: 0 <= i < |slots| ==> slots[i].Some?
  }

  /** Slot `i` carries the checksums of the payloads now standing next to it on the ring. */
  predicate RingOkAt(crc: Checksum, slots: seq<Option<Slot>>, i: nat)
    requires Complete(slots) && i < |slots|
  {
    && crc.Of(slots[Prev(i, |slots|)].value.payload) == slots[i].value.prevChecksum
    && crc.Of(slots[Next(i, |slots|)].value.payload) == slots[i].value.nextChecksum
  }

  predicate RingOk(crc: Checksum, slots: seq<Option<Slot>>)
    requires Complete(slots)
  {
    forall i :: 0 <= i < |slots| ==> RingOkAt(crc, slots, i)
  }

  function Payloads(slots: seq<Option<Slot>>): (payloads: seq<seq<byte>>)
    requires Complete(slots)
    ensures |payloads| == |slots|
  {
    seq(|slots|, i requires 0 <= i < |slots| => slots[i].value.payload)
  }

  function Truncate(bytes: seq<byte>, len: nat): seq<byte> {
    if |bytes| <= len then bytes else bytes[..len]
  }

  /** Decodes a reassembled frame and compares it with what the chunks said of it. */
  function CheckFrame(meta: Meta, frame: seq<byte>): Result<Option<seq<byte>>, ChunkError> {
    match DecodeFrame(frame)
    case Err(e) => Err(InFrame(e))
    case Ok(d) =>
      if d.header.frameType != meta.frameType || d.header.requestId != meta.requestId
      then Err(MetadataMismatch)
      else Ok(Some(frame))
  }

  /** What the group answers once a chunk has been written. */
  function Deliver(crc: Checksum, g: Group): Result<Option<seq<byte>>, ChunkError> {
    if !Complete(g.slots) then Ok(None)
    else if !RingOk(crc, g.slots) then Err(ChecksumMismatch)
    else CheckFrame(g.meta, Truncate(Flatten(Payloads(g.slots)), g.meta.frameLen))
  }

  function SlotOf(h: ChunkHeader, payload: seq<byte>): Slot {
    Slot(payload, h.prevChecksum, h.nextChecksum)
  }

  function PayloadOf(datagram: seq<byte>): seq<byte>
    requires |datagram| >= UDP_CHUNK_HEADER_LEN
  {
    datagram[UDP_CHUNK_HEADER_LEN..]
  }

  /** The group a chunk belongs to, created on its first chunk. */
  function GroupFor(groups: Groups, h: ChunkHeader): Group {
    if h.requestId in groups then groups[h.requestId] else NewGroup(MetaOf(h))
  }

  /** A chunk that agrees with its group overwrites its slot; any other leaves the group alone. */
  function WriteChunk(g: Group, h: ChunkHeader, payload: seq<byte>): Group {
    if MetaOf(h) == g.meta && h.chunkId < |g.slots|
    then g.(slots := g.slots[h.chunkId := Some(SlotOf(h, payload))])
    else g
  }

  function Accept(groups: Groups, datagram: seq<byte>): Groups {
    match DecodeChunk(datagram)
    case Err(_) => groups
    case Ok(h) => groups[h.requestId := WriteChunk(GroupFor(groups, h), h, PayloadOf(datagram))]
  }

  function Answer(crc: Checksum, groups: Groups, datagram: seq<byte>): Result<Option<seq<byte>>, ChunkError> {
    match DecodeChunk(datagram)
    case Err(e) => Err(e)
    case Ok(h) =>
      if MetaOf(h) != GroupFor(groups, h).meta then Err(MetadataMismatch)
      else Deliver(crc, WriteChunk(GroupFor(groups, h), h, PayloadOf(datagram)))
  }

  /** The groups after a series of datagrams, from an empty reassembler. */
  function FeedAll(run: seq<seq<byte>>): Groups {
    if |run| == 0 then map[] else Accept(FeedAll(run[..|run| - 1]), run[|run| - 1])
  }

  // ---------------------------------------------------------------------------------------------
  // Arbitrary datagrams.

  /** Whatever bytes arrive, every group keeps one slot per chunk and stands under its own id. */
  lemma AcceptKeepsValid(groups: Groups, datagram: seq<byte>)
    requires ValidGroups(groups)
    ensures ValidGroups(Accept(groups, datagram))
  {
  }

  lemma {:induction false} FeedAllValid(run: seq<seq<byte>>)
    ensures ValidGroups(FeedAll(run))
  {
    if |run| > 0 {
      FeedAllValid(run[..|run| - 1]);
      AcceptKeepsValid(FeedAll(run[..|run| - 1]), run[|run| - 1]);
    }
  }

  /** Any frame handed out, whatever was fed in, decodes, carries the type and id its chunks
      claimed, and is no longer than they claimed. */
  lemma AnswersDecode(crc: Checksum, run: seq<seq<byte>>, datagram: seq<byte>)
    requires Answer(crc, FeedAll(run), datagram).Ok? && Answer(crc, FeedAll(run), datagram).value.Some?
    ensures DecodeChunk(datagram).Ok?
    ensures var h := DecodeChunk(datagram).value;
            var frame := Answer(crc, FeedAll(run), datagram).value.value;
            && DecodeFrame(frame).Ok?
            && DecodeFrame(frame).value.header.frameType == h.frameType
            && DecodeFrame(frame).value.header.requestId == h.requestId
            && |frame| <= h.frameLen
  {
    var h := DecodeChunk(datagram).value;
    var g := WriteChunk(GroupFor(FeedAll(run), h), h, PayloadOf(datagram));
    assert g.meta == MetaOf(h);
    assert CheckFrame(g.meta, Truncate(Flatten(Payloads(g.slots)), g.meta.frameLen)).Ok?;
  }

  // ---------------------------------------------------------------------------------------------
  // What the slots hold: the latest accepted writer, for every run.

  /** The common data of the first decodable chunk with this id. */
  function FirstMeta(run: seq<seq<byte>>, id: u64): (m: Option<Meta>)
    ensures m.Some? ==> m.value.requestId == id
  {
    if |run| == 0 then None
    else
      var before := FirstMeta(run[..|run| - 1], id);
      if before.Some? then before
      else match DecodeChunk(run[|run| - 1])
        case Ok(h) => if h.requestId == id then Some(MetaOf(h)) else None
        case Err(_) => None
  }

  /** The last chunk number `i` in the run that carries this common data. */
  function LatestSlot(run: seq<seq<byte>>, meta: Meta, i: nat): Option<Slot> {
    if |run| == 0 then None
    else
      var datagram := run[|run| - 1];
      match DecodeChunk(datagram)
      case Ok(h) =>
        if MetaOf(h) == meta && h.chunkId == i then Some(SlotOf(h, PayloadOf(datagram)))
        else LatestSlot(run[..|run| - 1], meta, i)
      case Err(_) => LatestSlot(run[..|run| - 1], meta, i)
  }

  lemma {:induction false} NoChunkNoSlot(run: seq<seq<byte>>, meta: Meta, i: nat)
    requires FirstMeta(run, meta.requestId) == None
    ensures LatestSlot(run, meta, i) == None
  {
    if |run| > 0 {
      NoChunkNoSlot(run[..|run| - 1], meta, i);
    }
  }

  /** The group is exactly what the first and the latest chunks say. */
  ghost predicate HoldsLatest(groups: Groups, run: seq<seq<byte>>, id: u64) {
    match FirstMeta(run, id)
    case None => id !in groups
    case Some(meta) =>
      && id in groups && groups[id].meta == meta && ValidGroup(groups[id])
      && forall i :: 0 <= i < |groups[id].slots| ==> groups[id].slots[i] == LatestSlot(run, meta, i)
  }

  lemma HoldsLatestStep(groups: Groups, run: seq<seq<byte>>, id: u64)
    requires |run| > 0
    requires HoldsLatest(groups, run[..|run| - 1], id)
    ensures HoldsLatest(Accept(groups, run[|run| - 1]), run, id)
  {
    var front, datagram := run[..|run| - 1], run[|run| - 1];
    if DecodeChunk(datagram).Ok? && DecodeChunk(datagram).value.requestId == id {
      var h := DecodeChunk(datagram).value;
      if FirstMeta(front, id) == None {
        var g := WriteChunk(NewGroup(MetaOf(h)), h, PayloadOf(datagram));
        assert Accept(groups, datagram)[id] == g;
        forall i | 0 <= i < |g.slots|
          ensures g.slots[i] == LatestSlot(run, MetaOf(h), i)
        {
          NoChunkNoSlot(front, MetaOf(h), i);
        }
      }
    }
  }

  /** For every series of datagrams whatsoever and every request id: the group exists as soon as
      one chunk with that id decodes, belongs to the first such chunk, and holds in every slot the
      latest chunk that agreed with it. */
  lemma {:induction false} SlotsHoldLatest(run: seq<seq<byte>>, id: u64)
    ensures HoldsLatest(FeedAll(run), run, id)
  {
    if |run| > 0 {
      SlotsHoldLatest(run[..|run| - 1], id);
      HoldsLatestStep(FeedAll(run[..|run| - 1]), run, id);
    }
  }

  /** The slots of a group, each with its latest chunk. */
  function LatestSlots(run: seq<seq<byte>>, meta: Meta): (slots: seq<Option<Slot>>)
    ensures |slots| == meta.totalChunks
  {
    seq(meta.totalChunks, i requires 0 <= i < meta.totalChunks => LatestSlot(run, meta, i))
  }

  /** For every series of datagrams: the answer to the last one is a mismatch if its common data is
      not that of the first chunk with its id, and else what the latest chunks deliver. */
  lemma AnswerIsLatest(crc: Checksum, run: seq<seq<byte>>)
    requires |run| > 0 && DecodeChunk(run[|run| - 1]).Ok?
    ensures var meta := MetaOf(DecodeChunk(run[|run| - 1]).value);
            Answer(crc, FeedAll(run[..|run| - 1]), run[|run| - 1]) ==
            if FirstMeta(run, meta.requestId) != Some(meta) then Err(MetadataMismatch)
            else Deliver(crc, Group(meta, LatestSlots(run, meta)))
  {
    hide DecodeChunk, Deliver;
    var front, last := run[..|run| - 1], run[|run| - 1];
    var h := DecodeChunk(last).value;
    SlotsHoldLatest(front, h.requestId);
    SlotsHoldLatest(run, h.requestId);
    var g := WriteChunk(GroupFor(FeedAll(front), h), h, PayloadOf(last));
    assert FeedAll(run)[h.requestId] == g;
    if GroupFor(FeedAll(front), h).meta == MetaOf(h) {
      assert g.slots == LatestSlots(run, MetaOf(h));
    }
  }

  // ---------------------------------------------------------------------------------------------
  // The genuine chunks of one frame.

  function GenuineSlot(crc: Checksum, pieces: seq<seq<byte>>, i: nat): Slot
    requires i < |pieces|
  {
    Slot(pieces[i], crc.Of(pieces[Prev(i, |pieces|)]), crc.Of(pieces[Next(i, |pieces|)]))
  }

  function GenuineSlots(crc: Checksum, pieces: seq<seq<byte>>): (slots: seq<Option<Slot>>)
    ensures |slots| == |pieces|
    ensures Complete(slots)
  {
    seq(|pieces|, i requires 0 <= i < |pieces| => Some(GenuineSlot(crc, pieces, i)))
  }

  /** A full set of genuine chunks yields the frame. */
  lemma GenuineDelivers(crc: Checksum, frame: seq<byte>, max: nat)
    requires EncodeFault(frame, max) == None
    ensures Deliver(crc, Group(FrameMeta(frame, max), GenuineSlots(crc, Pieces(frame, max)))) == Ok(Some(frame))
  {
    var pieces := Pieces(frame, max);
    var slots := GenuineSlots(crc, pieces);
    forall i | 0 <= i < |slots|
      ensures RingOkAt(crc, slots, i)
    {
      assert slots[Prev(i, |slots|)].value.payload == pieces[Prev(i, |slots|)];
      assert slots[Next(i, |slots|)].value.payload == pieces[Next(i, |slots|)];
    }
    assert Payloads(slots) == pieces;
    PiecesCut(frame, max);
    assert Truncate(frame, |frame|) == frame;
  }

  /** Recovery: whatever came before (corrupted chunks included), as soon as the latest accepted
      chunk in every slot is the genuine one, the original frame is delivered. */
  lemma LatestGenuineDelivers(crc: Checksum, frame: seq<byte>, max: nat, run: seq<seq<byte>>)
    requires EncodeFault(frame, max) == None
    requires |run| > 0
    requires var meta := FrameMeta(frame, max);
             && FirstMeta(run, meta.requestId) == Some(meta)
             && DecodeChunk(run[|run| - 1]).Ok? && MetaOf(DecodeChunk(run[|run| - 1]).value) == meta
             && forall i :: 0 <= i < |Pieces(frame, max)| ==>
                  LatestSlot(run, meta, i) == Some(GenuineSlot(crc, Pieces(frame, max), i))
    ensures Answer(crc, FeedAll(run[..|run| - 1]), run[|run| - 1]) == Ok(Some(frame))
  {
    var meta := FrameMeta(frame, max);
    var groups := FeedAll(run[..|run| - 1]);
    SlotsHoldLatest(run, meta.requestId);
    SlotsHoldLatest(run[..|run| - 1], meta.requestId);
    var h := DecodeChunk(run[|run| - 1]).value;
    FeedAllValid(run[..|run| - 1]);
    var g := WriteChunk(GroupFor(groups, h), h, PayloadOf(run[|run| - 1]));
    assert FeedAll(run)[meta.requestId] == g;
    assert g.slots == GenuineSlots(crc, Pieces(frame, max));
    assert GroupFor(groups, h).meta == meta;
    GenuineDelivers(crc, frame, max);
  }

  // ---------------------------------------------------------------------------------------------
  // Any order, any number of duplicates, any interleaving.

  /** Everything in the run that decodes with the frame's id is one of the frame's chunks. */
  ghost predicate OnlyGenuine(crc: Checksum, meta: Meta, pieces: seq<seq<byte>>, run: seq<seq<byte>>)
    requires |pieces| == meta.totalChunks
  {
    forall k :: 0 <= k < |run| ==>
      (DecodeChunk(run[k]).Ok? && DecodeChunk(run[k]).value.requestId == meta.requestId ==>
         run[k] in Datagrams(crc, meta, pieces))
  }

  /** Every piece fits the 16-bit length field. */
  predicate SmallPieces(pieces: seq<seq<byte>>) {
    forall i :: 0 <= i < |pieces| ==> |pieces[i]| <= U16_MAX
  }

  lemma SmallPiecesOf(frame: seq<byte>, max: nat)
    requires |frame| > 0 && max > 0
    ensures SmallPieces(Pieces(frame, max)) <==> max <= U16_MAX || |frame| <= U16_MAX
  {
    PiecesCut(frame, max);
    assert |Pieces(frame, max)[0]| == if |frame| <= max then |frame| else max;
    assert |frame| <= max ==> |Pieces(frame, max)| == 1;
  }

  /** A genuine chunk decodes to its own header, or, if its piece is too long, not at all. */
  lemma GenuineDecodes(crc: Checksum, meta: Meta, pieces: seq<seq<byte>>, i: nat)
    requires |pieces| == meta.totalChunks && i < |pieces|
    ensures var d := Datagrams(crc, meta, pieces)[i];
            && (DecodeChunk(d).Ok? <==> |pieces[i]| <= U16_MAX)
            && (DecodeChunk(d).Ok? ==> DecodeChunk(d) == Ok(PieceHeader(crc, meta, pieces, i)))
            && |d| >= UDP_CHUNK_HEADER_LEN
            && SlotOf(PieceHeader(crc, meta, pieces, i), PayloadOf(d)) == GenuineSlot(crc, pieces, i)
  {
    ChunkDecodes(crc, meta, pieces, i);
    DecodesToItsHeader(PieceHeader(crc, meta, pieces, i), pieces[i]);
    assert PayloadOf(Datagram(crc, meta, pieces, i)) == pieces[i];
  }

  /** The genuine chunk has come, in a form that decodes. */
  predicate Came(crc: Checksum, meta: Meta, pieces: seq<seq<byte>>, run: seq<seq<byte>>, i: nat)
    requires |pieces| == meta.totalChunks && i < |pieces|
  {
    Datagrams(crc, meta, pieces)[i] in run && |pieces[i]| <= U16_MAX
  }

  lemma {:induction false} LatestIsGenuine(crc: Checksum, meta: Meta, pieces: seq<seq<byte>>,
                                           run: seq<seq<byte>>, i: nat)
    requires |pieces| == meta.totalChunks && i < |pieces|
    requires OnlyGenuine(crc, meta, pieces, run)
    ensures LatestSlot(run, meta, i) ==
            if Came(crc, meta, pieces, run, i) then Some(GenuineSlot(crc, pieces, i)) else None
  {
    hide DecodeChunk, PieceHeader, Datagram;
    if |run| > 0 {
      var front, d := run[..|run| - 1], run[|run| - 1];
      LatestIsGenuine(crc, meta, pieces, front, i);
      assert run == front + [d];
      var ds := Datagrams(crc, meta, pieces);
      GenuineDecodes(crc, meta, pieces, i);
      if d != ds[i] && DecodeChunk(d).Ok? && MetaOf(DecodeChunk(d).value) == meta {
        var j :| 0 <= j < |ds| && ds[j] == d;
        GenuineDecodes(crc, meta, pieces, j);
        PieceNumber(crc, meta, pieces, j);
      }
      PieceNumber(crc, meta, pieces, i);
    }
  }

  lemma PieceNumber(crc: Checksum, meta: Meta, pieces: seq<seq<byte>>, i: nat)
    requires |pieces| == meta.totalChunks && i < |pieces|
    ensures PieceHeader(crc, meta, pieces, i).chunkId == i && MetaOf(PieceHeader(crc, meta, pieces, i)) == meta
  {
  }

  lemma {:induction false} GenuineFirst(crc: Checksum, meta: Meta, pieces: seq<seq<byte>>, run: seq<seq<byte>>)
    requires |pieces| == meta.totalChunks
    requires OnlyGenuine(crc, meta, pieces, run)
    ensures FirstMeta(run, meta.requestId).Some? ==> FirstMeta(run, meta.requestId) == Some(meta)
  {
    if |run| > 0 {
      var d := run[|run| - 1];
      GenuineFirst(crc, meta, pieces, run[..|run| - 1]);
      if DecodeChunk(d).Ok? && DecodeChunk(d).value.requestId == meta.requestId {
        var j :| 0 <= j < |pieces| && Datagrams(crc, meta, pieces)[j] == d;
        GenuineDecodes(crc, meta, pieces, j);
      }
    }
  }

  /** The group after a genuine chunk: genuine in the slots whose chunks have come, empty in the
      others. */
  lemma GroupOfGenuine(crc: Checksum, meta: Meta, pieces: seq<seq<byte>>, run: seq<seq<byte>>, j: nat)
    requires |pieces| == meta.totalChunks && j < |pieces| && |pieces[j]| <= U16_MAX
    requires OnlyGenuine(crc, meta, pieces, run)
    requires |run| > 0 && run[|run| - 1] == Datagrams(crc, meta, pieces)[j]
    ensures var groups := FeedAll(run[..|run| - 1]);
            var h := PieceHeader(crc, meta, pieces, j);
            var g := WriteChunk(GroupFor(groups, h), h, PayloadOf(run[|run| - 1]));
            && GroupFor(groups, h).meta == meta
            && g.meta == meta && |g.slots| == |pieces|
            && forall i :: 0 <= i < |pieces| ==>
                 g.slots[i] == if Came(crc, meta, pieces, run, i) then Some(GenuineSlot(crc, pieces, i)) else None
  {
    hide Came;
    var id := meta.requestId;
    GenuineDecodes(crc, meta, pieces, j);
    GenuineFirst(crc, meta, pieces, run);
    GenuineFirst(crc, meta, pieces, run[..|run| - 1]);
    SlotsHoldLatest(run, id);
    SlotsHoldLatest(run[..|run| - 1], id);
    forall i | 0 <= i < |pieces|
      ensures LatestSlot(run, meta, i) ==
              if Came(crc, meta, pieces, run, i) then Some(GenuineSlot(crc, pieces, i)) else None
    {
      LatestIsGenuine(crc, meta, pieces, run, i);
    }
  }

  /** The genuine slots whose chunks have come. */
  function Arrived(crc: Checksum, meta: Meta, pieces: seq<seq<byte>>, run: seq<seq<byte>>): seq<Option<Slot>>
    requires |pieces| == meta.totalChunks
  {
    seq(|pieces|, i requires 0 <= i < |pieces| =>
      if Came(crc, meta, pieces, run, i) then Some(GenuineSlot(crc, pieces, i)) else None)
  }

  lemma GenuineAnswer(crc: Checksum, meta: Meta, pieces: seq<seq<byte>>, run: seq<seq<byte>>, j: nat)
    requires |pieces| == meta.totalChunks && j < |pieces| && |pieces[j]| <= U16_MAX
    requires OnlyGenuine(crc, meta, pieces, run)
    requires |run| > 0 && run[|run| - 1] == Datagrams(crc, meta, pieces)[j]
    ensures Answer(crc, FeedAll(run[..|run| - 1]), run[|run| - 1]) ==
            Deliver(crc, Group(meta, Arrived(crc, meta, pieces, run)))
  {
    hide DecodeChunk, FeedAll, Deliver, OnlyGenuine, Came;
    GenuineDecodes(crc, meta, pieces, j);
    GroupOfGenuine(crc, meta, pieces, run, j);
    var h := PieceHeader(crc, meta, pieces, j);
    var g := WriteChunk(GroupFor(FeedAll(run[..|run| - 1]), h), h, PayloadOf(run[|run| - 1]));
    assert g.slots == Arrived(crc, meta, pieces, run);
  }

  /** All chunks of the frame are in the run. */
  predicate AllThere(crc: Checksum, frame: seq<byte>, max: nat, run: seq<seq<byte>>)
    requires EncodeFault(frame, max) == None
  {
    forall d <- EncodeChunks(crc, frame, max).value :: d in run
  }

  lemma AllCame(crc: Checksum, meta: Meta, pieces: seq<seq<byte>>, run: seq<seq<byte>>)
    requires |pieces| == meta.totalChunks
    requires forall i :: 0 <= i < |pieces| ==> Came(crc, meta, pieces, run, i)
    ensures SmallPieces(pieces) && forall d <- Datagrams(crc, meta, pieces) :: d in run
  {
    forall i | 0 <= i < |pieces|
      ensures |pieces[i]| <= U16_MAX && Datagrams(crc, meta, pieces)[i] in run
    {
      assert Came(crc, meta, pieces, run, i);
    }
  }

  /** The chunks of a frame, cut at any legal size and delivered in any order, with duplicates and
      with anything else in between, give no error: nothing comes out until the last missing chunk
      arrives, and from then on exactly the original frame does. If the pieces are too long for the
      length field, those chunks that do decode give no error and nothing ever comes out. */
  lemma ReassemblesInAnyOrder(crc: Checksum, frame: seq<byte>, max: nat, run: seq<seq<byte>>, j: nat)
    requires EncodeFault(frame, max) == None
    requires j < |Pieces(frame, max)| && |Pieces(frame, max)[j]| <= U16_MAX
    requires OnlyGenuine(crc, FrameMeta(frame, max), Pieces(frame, max), run)
    requires |run| > 0 && run[|run| - 1] == Datagrams(crc, FrameMeta(frame, max), Pieces(frame, max))[j]
    ensures Answer(crc, FeedAll(run[..|run| - 1]), run[|run| - 1]) ==
            Ok(if (max <= U16_MAX || |frame| <= U16_MAX) && AllThere(crc, frame, max, run) then Some(frame) else None)
  {
    hide Answer, DecodeChunk, DecodeFrame, OnlyGenuine, FeedAll, CheckFrame, RingOk, Pieces, Datagram;
    var meta, pieces := FrameMeta(frame, max), Pieces(frame, max);
    SmallPiecesOf(frame, max);
    GenuineAnswer(crc, meta, pieces, run, j);
    var slots, ds := Arrived(crc, meta, pieces, run), Datagrams(crc, meta, pieces);
    if SmallPieces(pieces) && AllThere(crc, frame, max, run) {
      assert forall i :: 0 <= i < |pieces| ==> ds[i] in run && Came(crc, meta, pieces, run, i);
      assert slots == GenuineSlots(crc, pieces);
      GenuineDelivers(crc, frame, max);
    } else {
      if forall i :: 0 <= i < |pieces| ==> Came(crc, meta, pieces, run, i) {
        AllCame(crc, meta, pieces, run);
        assert false;
      }
      var i :| 0 <= i < |pieces| && !Came(crc, meta, pieces, run, i);
      assert slots[i] == None;
    }
  }

  // ---------------------------------------------------------------------------------------------
  // The reassembler object.

  class UdpFrameReassembler {
    var groups: Groups

    ghost predicate Valid()
      reads this
    {
      ValidGroups(groups)
    }

    constructor ()
      ensures Valid() && groups == map[]
    {
      groups := map[];
    }

    /** The loop over the ring of a complete group. */
    static method VerifyAll(crc: Checksum, slots: seq<Option<Slot>>) returns (ok: bool)
      requires Complete(slots)
      ensures ok == RingOk(crc, slots)
    {
      var total := |slots|;
      for idx := 0 to total
        invariant forall i :: 0 <= i < idx ==> RingOkAt(crc, slots, i)
      {
        var prev := if idx == 0 then total - 1 else idx - 1;
        var next := if idx + 1 == total then 0 else idx + 1;
        if crc.Of(slots[prev].value.payload) != slots[idx].value.prevChecksum ||
           crc.Of(slots[next].value.payload) != slots[idx].value.nextChecksum
        {
          assert !RingOkAt(crc, slots, idx);
          return false;
        }
      }
      return true;
    }

    /** The loop that strings the payloads together. */
    static method Concatenate(slots: seq<Option<Slot>>) returns (frame: seq<byte>)
      requires Complete(slots)
      ensures frame == Flatten(Payloads(slots))
    {
      frame := [];
      ghost var payloads := Payloads(slots);
      assert payloads[0..] == payloads;
      for idx := 0 to |slots|
        invariant frame + Flatten(payloads[idx..]) == Flatten(payloads)
      {
        assert payloads[idx..][0] == slots[idx].value.payload && payloads[idx..][1..] == payloads[idx + 1..];
        assert frame + Flatten(payloads[idx..]) == (frame + slots[idx].value.payload) + Flatten(payloads[idx + 1..]);
        frame := frame + slots[idx].value.payload;
      }
      assert frame + [] == frame;
    }

    /** Takes in one datagram of any content. A completed group stays where it is. */
    method Insert(crc: Checksum, datagram: seq<byte>) returns (r: Result<Option<seq<byte>>, ChunkError>)
      requires Valid()
      modifies this
      ensures Valid()
      ensures groups == Accept(old(groups), datagram)
      ensures r == Answer(crc, old(groups), datagram)
    {
      AcceptKeepsValid(groups, datagram);
      var decoded := DecodeChunk(datagram);
      if decoded.Err? {
        return Err(decoded.error);
      }
      var header := decoded.value;
      var payload := datagram[UDP_CHUNK_HEADER_LEN..];
      if header.requestId !in groups {
        groups := groups[header.requestId := NewGroup(MetaOf(header))];
      }
      var group := groups[header.requestId];
      if MetaOf(header) != group.meta {
        return Err(MetadataMismatch);
      }
      var slots := group.slots[header.chunkId := Some(Slot(payload, header.prevChecksum, header.nextChecksum))];
      groups := groups[header.requestId := group.(slots := slots)];
      if !Complete(slots) {
        return Ok(None);
      }
      var verified := VerifyAll(crc, slots);
      if !verified {
        return Err(ChecksumMismatch);
      }
      var whole := Concatenate(slots);
      var frame := Truncate(whole, group.meta.frameLen);
      return CheckFrame(group.meta, frame);
    }
  }
}

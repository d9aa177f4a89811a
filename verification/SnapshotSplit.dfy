/** A snapshot travels in two halves, static metadata and runtime values, and is joined again by
    resource index (crates/common/src/protocol.rs, crates/client-backend/src/udp_client.rs). */
module SnapshotSplit {
  import opened Results
  import opened Bytes
  import opened Snapshots
  import opened MetadataHash

  datatype ProcessRuntime = ProcessRuntime(pid: u32, uid: u32, usedMemoryMb: u64)

  datatype RuntimeInfo = RuntimeInfo(
    index: u8,
    temperatureC: Option<u32>,
    memoryUsedMb: u64,
    utilization: Utilization,
    processes: seq<ProcessRuntime>)

  datatype RuntimeSnapshot = RuntimeSnapshot(metadataHash: u64, gres: seq<RuntimeInfo>)

  function RuntimeOfProcess(p: Process): ProcessRuntime {
    ProcessRuntime(p.pid, p.uid, p.usedMemoryMb)
  }

  function RuntimeOfGres(g: Gres): RuntimeInfo {
    RuntimeInfo(
      g.index, g.temperatureC, g.memory.usedMb, g.utilization,
      seq(|g.processes|, i requires 0 <= i < |g.processes| => RuntimeOfProcess(g.processes[i])))
  }

  function RuntimeOf(s: Snapshot): RuntimeSnapshot {
    RuntimeSnapshot(
      Hash(MetadataOf(s)),
      seq(|s.gres|, i requires 0 <= i < |s.gres| => RuntimeOfGres(s.gres[i])))
  }

  const UNKNOWN: Text := [0x75, 0x6e, 0x6b, 0x6e, 0x6f, 0x77, 0x6e]  // "unknown"

  /** The first static record with this index. */
  function FindStatic(gres: seq<StaticInfo>, index: u8): Option<StaticInfo> {
    if |gres| == 0 then None
    else if gres[0].index == index then Some(gres[0])
    else FindStatic(gres[1..], index)
  }

  function JoinProcess(p: ProcessRuntime): Process {
    Process(p.pid, p.uid, None, p.usedMemoryMb)
  }

  /** A runtime record without a static one keeps a placeholder name and no total. */
  function JoinGres(r: RuntimeInfo, info: Option<StaticInfo>): Gres {
    Gres(
      r.index,
      if info.Some? then info.value.name else UNKNOWN,
      r.temperatureC,
      if info.Some? then info.value.uuid else None,
      Memory(r.memoryUsedMb, if info.Some? then info.value.memoryTotalMb else 0),
      r.utilization,
      seq(|r.processes|, i requires 0 <= i < |r.processes| => JoinProcess(r.processes[i])))
  }

  function Join(r: RuntimeSnapshot, m: HostMetadata): Snapshot {
    Snapshot(
      m.hostname, m.driverVersion,
      seq(|r.gres|, i requires 0 <= i < |r.gres| => JoinGres(r.gres[i], FindStatic(m.gres, r.gres[i].index))))
  }

  // ---------------------------------------------------------------------------------------------
  // When the two halves rebuild the whole.

  /** Resources that share an index share all their static data. */
  predicate StaticByIndex(s: Snapshot) {
    forall i, j :: 0 <= i < |s.gres| && 0 <= j < |s.gres| && s.gres[i].index == s.gres[j].index ==>
      StaticOf(s.gres[i]) == StaticOf(s.gres[j])
  }

  lemma {:induction false} FindStaticFirst(gres: seq<StaticInfo>, i: nat) returns (k: nat)
    requires i < |gres|
    ensures k <= i && gres[k].index == gres[i].index
    ensures FindStatic(gres, gres[i].index) == Some(gres[k])
    ensures forall j :: 0 <= j < k ==> gres[j].index != gres[i].index
  {
    if gres[0].index == gres[i].index {
      k := 0;
    } else {
      var k' := FindStaticFirst(gres[1..], i - 1);
      k := k' + 1;
    }
  }

  lemma JoinOneGres(g: Gres, info: StaticInfo)
    requires info.index == g.index
    ensures JoinGres(RuntimeOfGres(g), Some(info)) == OmitFrom(g) <==> info == StaticOf(g)
  {
    var joined := JoinGres(RuntimeOfGres(g), Some(info));
    assert joined.processes == OmitFrom(g).processes;
  }

  lemma JoinAt(s: Snapshot, i: nat) returns (k: nat)
    requires i < |s.gres|
    ensures k <= i && s.gres[k].index == s.gres[i].index
    ensures forall j :: 0 <= j < k ==> s.gres[j].index != s.gres[i].index
    ensures Join(RuntimeOf(s), MetadataOf(s)).gres[i] == OmitCommands(s).gres[i] <==>
            StaticOf(s.gres[k]) == StaticOf(s.gres[i])
  {
    k := FindStaticFirst(MetadataOf(s).gres, i);
    forall j | 0 <= j < k
      ensures s.gres[j].index != s.gres[i].index
    {
      assert MetadataOf(s).gres[j].index != MetadataOf(s).gres[i].index;
    }
    JoinOneGres(s.gres[i], StaticOf(s.gres[k]));
  }

  /** Splitting a snapshot and joining the halves again gives the snapshot with its commands erased
      if and only if the static data is a function of the resource index. */
  lemma JoinInvertsSplit(s: Snapshot)
    ensures Join(RuntimeOf(s), MetadataOf(s)) == OmitCommands(s) <==> StaticByIndex(s)
  {
    var joined := Join(RuntimeOf(s), MetadataOf(s));
    if StaticByIndex(s) {
      forall i | 0 <= i < |s.gres|
        ensures joined.gres[i] == OmitCommands(s).gres[i]
      {
        var k := JoinAt(s, i);
      }
      assert joined.gres == OmitCommands(s).gres;
    }
    if joined == OmitCommands(s) {
      forall i, j | 0 <= i < |s.gres| && 0 <= j < |s.gres| && s.gres[i].index == s.gres[j].index
        ensures StaticOf(s.gres[i]) == StaticOf(s.gres[j])
      {
        var k := JoinAt(s, i);
        var l := JoinAt(s, j);
        assert k == l;
      }
    }
  }

  // ---------------------------------------------------------------------------------------------
  // The client's query.

  datatype Queried = Queried(metadata: HostMetadata, snapshot: Option<Snapshot>)

  /** `query_connected` once the runtime reply is in: static data is fetched again only when the
      server's hash is nonzero and differs from the hash of what the client holds. */
  function Query(held: HostMetadata, runtime: RuntimeSnapshot, reply: Option<HostMetadata>): Queried {
    if runtime.metadataHash != 0 && runtime.metadataHash != Hash(held) then
      match reply
      case None => Queried(held, None)
      case Some(m) => Queried(m, Some(Join(runtime, m)))
    else Queried(held, Some(Join(runtime, held)))
  }

  class ConnectedNode {
    var metadata: HostMetadata

    constructor (handshake: HostMetadata)
      ensures metadata == handshake
    {
      metadata := handshake;
    }

    /** `reply` is what a metadata request would bring back, should one be sent. */
    method QueryConnected(runtime: RuntimeSnapshot, reply: Option<HostMetadata>) returns (r: Option<Snapshot>)
      modifies this
      ensures Queried(metadata, r) == Query(old(metadata), runtime, reply)
    {
      var current := metadata;
      var heldHash := ComputeHash(current);
      if runtime.metadataHash != 0 && runtime.metadataHash != heldHash {
        if reply.None? {
          return None;
        }
        metadata := reply.value;
        current := reply.value;
      }
      return Some(Join(runtime, current));
    }
  }

  /** The static data that a resource is joined with: that of the first record with its index, or
      the placeholder. */
  function StaticAt(m: HostMetadata, index: u8): StaticInfo {
    match FindStatic(m.gres, index)
    case Some(info) => info
    case None => StaticInfo(index, UNKNOWN, None, 0)
  }

  /** The metadata says of the host and of every resource of the snapshot what the snapshot says. */
  predicate Agrees(m: HostMetadata, s: Snapshot) {
    && m.hostname == s.hostname && m.driverVersion == s.driverVersion
    && forall i :: 0 <= i < |s.gres| ==> StaticAt(m, s.gres[i].index) == StaticOf(s.gres[i])
  }

  lemma {:induction false} FindStaticIndex(gres: seq<StaticInfo>, index: u8)
    ensures FindStatic(gres, index).Some? ==> FindStatic(gres, index).value.index == index
  {
    if |gres| > 0 {
      FindStaticIndex(gres[1..], index);
    }
  }

  lemma JoinOneAgrees(g: Gres, m: HostMetadata)
    ensures JoinGres(RuntimeOfGres(g), FindStatic(m.gres, g.index)) == OmitFrom(g) <==>
            StaticAt(m, g.index) == StaticOf(g)
  {
    FindStaticIndex(m.gres, g.index);
    var joined := JoinGres(RuntimeOfGres(g), FindStatic(m.gres, g.index));
    assert joined.processes == OmitFrom(g).processes;
  }

  /** Joining a snapshot's runtime half with any metadata whatsoever gives the snapshot, commands
      erased, if and only if the metadata agrees with it. */
  lemma JoinsWithWhatAgrees(s: Snapshot, m: HostMetadata)
    ensures Join(RuntimeOf(s), m) == OmitCommands(s) <==> Agrees(m, s)
  {
    hide JoinGres, RuntimeOfGres, OmitFrom, StaticAt, FindStatic;
    var joined, plain := Join(RuntimeOf(s), m), OmitCommands(s);
    forall i | 0 <= i < |s.gres|
      ensures joined.gres[i] == plain.gres[i] <==> StaticAt(m, s.gres[i].index) == StaticOf(s.gres[i])
    {
      RuntimeIndex(s.gres[i]);
      JoinOneAgrees(s.gres[i], m);
    }
    if Agrees(m, s) {
      assert joined.gres == plain.gres;
    }
  }

  lemma RuntimeIndex(g: Gres)
    ensures RuntimeOfGres(g).index == g.index
  {
  }

  /** The client asks for the metadata again. */
  predicate Refetches(held: HostMetadata, s: Snapshot) {
    Hash(MetadataOf(s)) != 0 && Hash(MetadataOf(s)) != Hash(held)
  }

  /** For every metadata held, every snapshot and every reply: the query returns the server's snapshot,
      commands erased, if and only if the metadata it is joined with agrees with it, the refetched if
      the hash is nonzero and differs, and else the held. A hash of zero or a collision thus does harm
      exactly when what is held does not agree. */
  lemma QueryAnswersExactly(held: HostMetadata, s: Snapshot, reply: Option<HostMetadata>)
    ensures Query(held, RuntimeOf(s), reply).snapshot == Some(OmitCommands(s)) <==>
            if Refetches(held, s) then reply.Some? && Agrees(reply.value, s) else Agrees(held, s)
    ensures Query(held, RuntimeOf(s), reply).metadata ==
            if Refetches(held, s) && reply.Some? then reply.value else held
  {
    hide Join, Agrees, Hash, MetadataOf, OmitCommands;
    JoinsWithWhatAgrees(s, held);
    if reply.Some? {
      JoinsWithWhatAgrees(s, reply.value);
    }
  }

  /** A server's own metadata agrees with its snapshot if and only if static data is a function of the
      index. */
  lemma OwnMetadataAgrees(s: Snapshot)
    ensures Agrees(MetadataOf(s), s) <==> StaticByIndex(s)
  {
    hide Agrees, StaticByIndex, Join;
    JoinsWithWhatAgrees(s, MetadataOf(s));
    JoinInvertsSplit(s);
  }

  /** No text that could be absent is present and empty. */
  predicate NoEmptyText(m: HostMetadata) {
    && m.driverVersion != Some([])
    && forall i :: 0 <= i < |m.gres| ==> m.gres[i].uuid != Some([])
  }

  lemma CanonExact(m: HostMetadata, n: HostMetadata)
    requires NoEmptyText(m) && NoEmptyText(n)
    requires Canon(m) == Canon(n)
    ensures m == n
  {
    assert |CanonGres(m.gres)| == |CanonGres(n.gres)|;
    forall i | 0 <= i < |m.gres|
      ensures m.gres[i] == n.gres[i]
    {
      assert CanonGres(m.gres)[i] == CanonGres(n.gres)[i];
    }
    assert m.gres == n.gres;
  }

  /** Under the collector's contract, with a nonzero hash that does not collide, the held metadata is
      either refetched or, up to absent versus empty text, the server's own: so a client that holds no
      empty text, as one that got it from such a server does, has the right metadata to join with. */
  lemma HashTellsAgreement(held: HostMetadata, s: Snapshot)
    requires StaticByIndex(s) && NoEmptyText(MetadataOf(s)) && NoEmptyText(held)
    requires Hash(MetadataOf(s)) != 0
    requires Hash(held) == Hash(MetadataOf(s)) ==> Stream(held) == Stream(MetadataOf(s))
    ensures Refetches(held, s) || held == MetadataOf(s)
    ensures Refetches(held, s) || Agrees(held, s)
  {
    hide Hash, Stream, Agrees, StaticByIndex, NoEmptyText;
    OwnMetadataAgrees(s);
    if !Refetches(held, s) {
      StreamInjective(held, MetadataOf(s));
      CanonExact(held, MetadataOf(s));
    }
  }

  /** So a query returns the server's snapshot, commands erased, and leaves the client with the
      server's metadata, provided that a metadata request, if one is sent, finds the static data the
      runtime reply was computed from. */
  lemma QueryReturnsServerSnapshot(held: HostMetadata, s: Snapshot, reply: Option<HostMetadata>)
    requires StaticByIndex(s) && NoEmptyText(MetadataOf(s)) && NoEmptyText(held)
    requires Hash(MetadataOf(s)) != 0
    requires Hash(held) == Hash(MetadataOf(s)) ==> Stream(held) == Stream(MetadataOf(s))
    requires Refetches(held, s) ==> reply == Some(MetadataOf(s))
    ensures Query(held, RuntimeOf(s), reply) == Queried(MetadataOf(s), Some(OmitCommands(s)))
  {
    hide Hash, Stream, Agrees, StaticByIndex, NoEmptyText, Join, OmitCommands, MetadataOf;
    HashTellsAgreement(held, s);
    OwnMetadataAgrees(s);
    QueryAnswersExactly(held, s, reply);
  }
}

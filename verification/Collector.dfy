/** The contract a collector's snapshot must meet, and what it buys
    (crates/server/src/collector.rs). */
module Collector {
  import opened Results
  import opened Bytes
  import opened Snapshots
  import opened SnapshotSplit

  datatype NodeProcess = NodeProcess(pid: u32, uid: u32, usedMemoryMb: u64)

  datatype Resource = Resource(
    index: u8,
    name: Text,
    uuid: Option<Text>,
    temperatureC: Option<u32>,
    memoryUsedMb: u64,
    memoryTotalMb: u64,
    utilization: Utilization,
    processes: seq<NodeProcess>)

  datatype NodeSnapshot = NodeSnapshot(hostname: Text, driverVersion: Option<Text>, resources: seq<Resource>)

  function IntoProcess(p: NodeProcess): Process {
    Process(p.pid, p.uid, None, p.usedMemoryMb)
  }

  function IntoGres(r: Resource): Gres {
    Gres(
      r.index, r.name, r.temperatureC, r.uuid, Memory(r.memoryUsedMb, r.memoryTotalMb), r.utilization,
      seq(|r.processes|, i requires 0 <= i < |r.processes| => IntoProcess(r.processes[i])))
  }

  function IntoSnapshot(n: NodeSnapshot): Snapshot {
    Snapshot(
      n.hostname, n.driverVersion,
      seq(|n.resources|, i requires 0 <= i < |n.resources| => IntoGres(n.resources[i])))
  }

  datatype ContractError =
    | EmptyHostname
    | EmptyDriverVersion
    | IndexNotDense(expected: u8, found: u8)
    | IndexOverflow
    | EmptyName(at: u8)
    | NoTotalMemory(at: u8)
    | UsedExceedsTotal(at: u8)
    | GresPercentTooLarge(at: u8)
    | MemoryPercentTooLarge(at: u8)
    | EmptyUuid(at: u8)
    | DuplicateUuid(uuid: Text)
    | ZeroPid(at: u8)
    | ProcessExceedsTotal(at: u8, pid: u32)

  predicate ProcessOk(p: NodeProcess, total: u64) {
    p.pid != 0 && p.usedMemoryMb <= total
  }

  /** `blank` stands for text that is empty once trimmed. */
  predicate FieldsOk(r: Resource, blank: Text -> bool) {
    && !blank(r.name)
    && r.memoryTotalMb != 0
    && r.memoryUsedMb <= r.memoryTotalMb
    && r.utilization.gresPercent <= 100
    && r.utilization.memoryPercent <= 100
  }

  predicate ResourceOk(r: Resource, blank: Text -> bool) {
    && FieldsOk(r, blank)
    && (r.uuid.Some? ==> !blank(r.uuid.value))
    && forall k :: 0 <= k < |r.processes| ==> ProcessOk(r.processes[k], r.memoryTotalMb)
  }

  /** Indices are dense and zero-based, at most 255 of them, and uuids are unique. */
  predicate Contract(n: NodeSnapshot, blank: Text -> bool) {
    && !blank(n.hostname)
    && (n.driverVersion.Some? ==> !blank(n.driverVersion.value))
    && |n.resources| <= 255
    && (forall i :: 0 <= i < |n.resources| ==> n.resources[i].index == i && ResourceOk(n.resources[i], blank))
    && (forall i, j :: 0 <= i < j < |n.resources| && n.resources[i].uuid.Some? && n.resources[j].uuid.Some? ==>
          n.resources[i].uuid != n.resources[j].uuid)
  }

  method ValidateFields(r: Resource, blank: Text -> bool) returns (fault: Option<ContractError>)
    ensures fault == None <==> FieldsOk(r, blank)
  {
    if blank(r.name) {
      return Some(EmptyName(r.index));
    }
    if r.memoryTotalMb == 0 {
      return Some(NoTotalMemory(r.index));
    }
    if r.memoryUsedMb > r.memoryTotalMb {
      return Some(UsedExceedsTotal(r.index));
    }
    if r.utilization.gresPercent > 100 {
      return Some(GresPercentTooLarge(r.index));
    }
    if r.utilization.memoryPercent > 100 {
      return Some(MemoryPercentTooLarge(r.index));
    }
    return None;
  }

  method ValidateProcesses(r: Resource) returns (fault: Option<ContractError>)
    ensures fault == None <==> forall k :: 0 <= k < |r.processes| ==> ProcessOk(r.processes[k], r.memoryTotalMb)
  {
    for k := 0 to |r.processes|
      invariant forall i :: 0 <= i < k ==> ProcessOk(r.processes[i], r.memoryTotalMb)
    {
      if r.processes[k].pid == 0 {
        assert !ProcessOk(r.processes[k], r.memoryTotalMb);
        return Some(ZeroPid(r.index));
      }
      if r.processes[k].usedMemoryMb > r.memoryTotalMb {
        assert !ProcessOk(r.processes[k], r.memoryTotalMb);
        return Some(ProcessExceedsTotal(r.index, r.processes[k].pid));
      }
    }
    return None;
  }

  /** The loop of `validate_gres_node_snapshot_contract`: it accepts exactly the contract. */
  method ValidateContract(n: NodeSnapshot, blank: Text -> bool) returns (fault: Option<ContractError>)
    ensures fault == None <==> Contract(n, blank)
  {
    hide FieldsOk, ProcessOk;
    if blank(n.hostname) {
      return Some(EmptyHostname);
    }
    if n.driverVersion.Some? && blank(n.driverVersion.value) {
      return Some(EmptyDriverVersion);
    }
    var expected: u8 := 0;
    var uuids: set<Text> := {};
    for i := 0 to |n.resources|
      invariant expected == i
      invariant forall k :: 0 <= k < i ==> n.resources[k].index == k && ResourceOk(n.resources[k], blank)
      invariant forall u: Text :: u in uuids <==> exists k :: 0 <= k < i && n.resources[k].uuid == Some(u)
      invariant forall j, k :: 0 <= j < k < i && n.resources[j].uuid.Some? && n.resources[k].uuid.Some? ==>
                  n.resources[j].uuid != n.resources[k].uuid
    {
      var r := n.resources[i];
      if r.index != expected {
        return Some(IndexNotDense(expected, r.index));
      }
      if expected == 255 {
        return Some(IndexOverflow);
      }
      expected := expected + 1;
      var fieldFault := ValidateFields(r, blank);
      if fieldFault.Some? {
        return fieldFault;
      }
      if r.uuid.Some? {
        if blank(r.uuid.value) {
          return Some(EmptyUuid(r.index));
        }
        if r.uuid.value in uuids {
          var k :| 0 <= k < i && n.resources[k].uuid == Some(r.uuid.value);
          return Some(DuplicateUuid(r.uuid.value));
        }
        uuids := uuids + {r.uuid.value};
      }
      var processFault := ValidateProcesses(r);
      if processFault.Some? {
        return processFault;
      }
    }
    return None;
  }

  /** What the contract promises the wire format: a collected snapshot survives the split into
      metadata and runtime unchanged, and its metadata has no empty text. */
  lemma ContractSurvivesSplit(n: NodeSnapshot, blank: Text -> bool)
    requires Contract(n, blank) && blank([])
    ensures StaticByIndex(IntoSnapshot(n))
    ensures NoEmptyText(MetadataOf(IntoSnapshot(n)))
    ensures Join(RuntimeOf(IntoSnapshot(n)), MetadataOf(IntoSnapshot(n))) == IntoSnapshot(n)
  {
    hide IntoGres, Contract, RuntimeOf, Join;
    var s := IntoSnapshot(n);
    CollectedStatics(n, blank);
    JoinInvertsSplit(s);
    CollectedHasNoCommands(n);
    OmitCommandsFixed(s);
  }

  lemma CollectedStatics(n: NodeSnapshot, blank: Text -> bool)
    requires Contract(n, blank) && blank([])
    ensures StaticByIndex(IntoSnapshot(n))
    ensures NoEmptyText(MetadataOf(IntoSnapshot(n)))
  {
    hide FieldsOk, ProcessOk;
    var s := IntoSnapshot(n);
    assert forall i :: 0 <= i < |s.gres| ==> s.gres[i].index == n.resources[i].index == i;
    assert forall i :: 0 <= i < |s.gres| ==> s.gres[i].uuid == n.resources[i].uuid;
  }

  lemma CollectedHasNoCommands(n: NodeSnapshot)
    ensures NoCommands(IntoSnapshot(n))
  {
  }

  // ---------------------------------------------------------------------------------------------
  // The two forms of a snapshot.

  function FromProcess(p: Process): NodeProcess {
    NodeProcess(p.pid, p.uid, p.usedMemoryMb)
  }

  function FromGres(g: Gres): Resource {
    Resource(
      g.index, g.name, g.uuid, g.temperatureC, g.memory.usedMb, g.memory.totalMb, g.utilization,
      seq(|g.processes|, i requires 0 <= i < |g.processes| => FromProcess(g.processes[i])))
  }

  function FromSnapshot(s: Snapshot): NodeSnapshot {
    NodeSnapshot(
      s.hostname, s.driverVersion,
      seq(|s.gres|, i requires 0 <= i < |s.gres| => FromGres(s.gres[i])))
  }

  /** Going over to the collector's form and back loses nothing but the commands. */
  lemma ThereAndBack(s: Snapshot)
    ensures IntoSnapshot(FromSnapshot(s)) == OmitCommands(s)
  {
    forall i | 0 <= i < |s.gres|
      ensures IntoGres(FromGres(s.gres[i])) == OmitFrom(s.gres[i])
    {
      assert IntoGres(FromGres(s.gres[i])).processes == OmitFrom(s.gres[i]).processes;
    }
    assert IntoSnapshot(FromSnapshot(s)).gres == OmitCommands(s).gres;
  }

  /** And nothing at all the other way round. */
  lemma BackAndThere(n: NodeSnapshot)
    ensures FromSnapshot(IntoSnapshot(n)) == n
  {
    forall i | 0 <= i < |n.resources|
      ensures FromGres(IntoGres(n.resources[i])) == n.resources[i]
    {
      assert FromGres(IntoGres(n.resources[i])).processes == n.resources[i].processes;
    }
    assert FromSnapshot(IntoSnapshot(n)).resources == n.resources;
  }

  /** What is within bounds in the snapshot that is served. */
  predicate Bounded(g: Gres) {
    && 0 < g.memory.totalMb && g.memory.usedMb <= g.memory.totalMb
    && g.utilization.gresPercent <= 100 && g.utilization.memoryPercent <= 100
    && forall k :: 0 <= k < |g.processes| ==> g.processes[k].pid > 0 && g.processes[k].usedMemoryMb <= g.memory.totalMb
  }

  /** Under the contract the served snapshot has dense indices, no resource without a name, and used
      memory within total memory, its own and that of every process. */
  lemma ContractBoundsSnapshot(n: NodeSnapshot, blank: Text -> bool)
    requires Contract(n, blank)
    ensures var s := IntoSnapshot(n);
            forall i :: 0 <= i < |s.gres| ==> s.gres[i].index == i && !blank(s.gres[i].name) && Bounded(s.gres[i])
  {
    var s := IntoSnapshot(n);
    forall i | 0 <= i < |s.gres|
      ensures s.gres[i].index == i && !blank(s.gres[i].name) && Bounded(s.gres[i])
    {
      assert ResourceOk(n.resources[i], blank);
      forall k | 0 <= k < |s.gres[i].processes|
        ensures s.gres[i].processes[k].pid > 0 && s.gres[i].processes[k].usedMemoryMb <= s.gres[i].memory.totalMb
      {
        assert ProcessOk(n.resources[i].processes[k], n.resources[i].memoryTotalMb);
      }
    }
  }
}

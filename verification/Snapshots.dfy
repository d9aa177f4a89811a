/** The snapshot a server collects, and its static half (crates/common/src/protocol.rs). */
module Snapshots {
  import opened Results
  import opened Bytes

  /** UTF-8 text as its bytes. The byte 0xff occurs in no UTF-8 string (section 1 of RFC 3629). */
  type Text = s: seq<byte> | 0xff !in s

  datatype ErrorCode =
    | NvmlUnavailable
    | ConfigInvalid
    | PortExhausted
    | MulticastFailed
    | TransportInitFailed
    | HeartbeatTimeout
    | ConnectionClosed
    | QueryTimeout
    | InvalidFilter
    | ProtocolVersionMismatch
    | Internal

  datatype Process = Process(pid: u32, uid: u32, command: Option<Text>, usedMemoryMb: u64)

  datatype Memory = Memory(usedMb: u64, totalMb: u64)

  datatype Utilization = Utilization(gresPercent: u8, memoryPercent: u8)

  datatype Gres = Gres(
    index: u8,
    name: Text,
    temperatureC: Option<u32>,
    uuid: Option<Text>,
    memory: Memory,
    utilization: Utilization,
    processes: seq<Process>)

  datatype Snapshot = Snapshot(hostname: Text, driverVersion: Option<Text>, gres: seq<Gres>)

  datatype StaticInfo = StaticInfo(index: u8, name: Text, uuid: Option<Text>, memoryTotalMb: u64)

  datatype HostMetadata = HostMetadata(hostname: Text, driverVersion: Option<Text>, gres: seq<StaticInfo>)

  function StaticOf(g: Gres): StaticInfo {
    StaticInfo(g.index, g.name, g.uuid, g.memory.totalMb)
  }

  function MetadataOf(s: Snapshot): HostMetadata {
    HostMetadata(
      s.hostname,
      s.driverVersion,
      seq(|s.gres|, i requires 0 <= i < |s.gres| => StaticOf(s.gres[i])))
  }

  function OmitCommand(p: Process): Process {
    p.(command := None)
  }

  function OmitFrom(g: Gres): Gres {
    g.(processes := seq(|g.processes|, i requires 0 <= i < |g.processes| => OmitCommand(g.processes[i])))
  }

  /** The snapshot with every process command erased. */
  function OmitCommands(s: Snapshot): Snapshot {
    s.(gres := seq(|s.gres|, i requires 0 <= i < |s.gres| => OmitFrom(s.gres[i])))
  }

  predicate NoCommands(s: Snapshot) {
    forall i, j :: 0 <= i < |s.gres| && 0 <= j < |s.gres[i].processes| ==>
      s.gres[i].processes[j].command == None
  }

  lemma OmitCommandsClears(s: Snapshot)
    ensures NoCommands(OmitCommands(s))
  {
  }

  /** A snapshot without commands is what erasing leaves unchanged. */
  lemma OmitCommandsFixed(s: Snapshot)
    ensures OmitCommands(s) == s <==> NoCommands(s)
  {
    OmitCommandsClears(s);
    if NoCommands(s) {
      forall i | 0 <= i < |s.gres|
        ensures OmitFrom(s.gres[i]) == s.gres[i]
      {
        assert OmitFrom(s.gres[i]).processes == s.gres[i].processes;
      }
      assert OmitCommands(s).gres == s.gres;
    }
  }
}

/** Concurrent `establish_one_connection` calls over one connection pool
    (crates/client-backend/src/local_api.rs). */
module ConnectionPool {
  import opened Results
  import opened Net

  /** An open connection. `id` tells apart two connections to one server; the hostname is taken to
      stay what it was when the connection was made. */
  datatype Conn = Conn(id: nat, addr: SocketAddr, hostname: string)

  type Connections = map<SocketAddr, Conn>

  // ---------------------------------------------------------------------------------------------
  // Admitting a new connection, under the pool lock.

  predicate SameHost(connections: Connections, conn: Conn, at: SocketAddr) {
    at in connections && connections[at].hostname == conn.hostname
  }

  /** The pool entry the search for the hostname stops at: any one that has it, none if none does. */
  predicate Found(connections: Connections, conn: Conn, existing: Option<SocketAddr>) {
    match existing
    case Some(at) => SameHost(connections, conn, at)
    case None => forall at <- connections :: !SameHost(connections, conn, at)
  }

  /** What admission leaves: the pool, the connections it disconnected, and the cache rows it
      removed. */
  datatype Admission = Admission(connections: Connections, dropped: set<nat>, removedRows: set<SocketAddr>)

  /** What becomes of a new connection: its address is pooled already, the pool is full even after
      a replacement, or it gets in. */
  datatype Verdict = Duplicate | Full | Enters

  function Kept(connections: Connections, existing: Option<SocketAddr>): Connections {
    if existing.Some? then connections - {existing.value} else connections
  }

  function Judge(connections: Connections, max: nat, conn: Conn, existing: Option<SocketAddr>): Verdict {
    if conn.addr in connections then Duplicate
    else if |Kept(connections, existing)| >= max then Full
    else Enters
  }

  function AdmitAs(verdict: Verdict, connections: Connections, conn: Conn, existing: Option<SocketAddr>): Admission
    requires existing.Some? ==> existing.value in connections
  {
    var replaced := if existing.Some? then {connections[existing.value].id} else {};
    var rows := if existing.Some? then {existing.value} else {};
    match verdict
    case Duplicate => Admission(connections, {conn.id}, {})
    case Full => Admission(Kept(connections, existing), replaced + {conn.id}, rows)
    case Enters => Admission(Kept(connections, existing)[conn.addr := conn], replaced, rows)
  }

  function Admit(connections: Connections, max: nat, conn: Conn, existing: Option<SocketAddr>): Admission
    requires Found(connections, conn, existing)
  {
    AdmitAs(Judge(connections, max, conn, existing), connections, conn, existing)
  }

  // ---------------------------------------------------------------------------------------------
  // The calls.

  datatype Pc =
    | Begin
    | Claim                             // not pooled, room left, before marking the address
    | Connecting                        // address marked, connecting
    | Connected(result: Option<Conn>)   // before unmarking the address
    | Unmarked(result: Option<Conn>)    // before admission
    | Admitted(conn: Conn)              // pooled, before the cache row
    | Finished

  datatype Call = Call(addr: SocketAddr, pc: Pc)

  /** Bookkeeping about the run, read by no step: who marked an address, and where each opened
      connection (numbered in order of opening) is. */
  datatype Place = Held(call: nat) | InPool(at: SocketAddr, owner: nat) | Closed

  datatype System = System(
    max: nat,
    connections: Connections,
    connecting: set<SocketAddr>,
    rows: set<SocketAddr>,
    disconnected: set<nat>,
    calls: seq<Call>,
    markedBy: map<SocketAddr, nat>,
    places: seq<Place>)

  datatype Step =
    | Act(call: nat)
    | ConnectDone(call: nat, hostname: Option<string>)
    | AdmitStep(call: nat, existing: Option<SocketAddr>)

  predicate Init(s: System) {
    && s.connections == map[] && s.connecting == {} && s.disconnected == {}
    && s.markedBy == map[] && s.places == []
    && forall i :: 0 <= i < |s.calls| ==> s.calls[i].pc == Begin
  }

  predicate Acts(pc: Pc) {
    pc.Begin? || pc.Claim? || pc.Connected? || (pc.Unmarked? && pc.result.None?) || pc.Admitted?
  }

  predicate Enabled(s: System, step: Step) {
    match step
    case Act(t) => t < |s.calls| && Acts(s.calls[t].pc)
    case ConnectDone(t, _) => t < |s.calls| && s.calls[t].pc.Connecting?
    case AdmitStep(t, existing) =>
      && t < |s.calls| && s.calls[t].pc.Unmarked? && s.calls[t].pc.result.Some?
      && Found(s.connections, s.calls[t].pc.result.value, existing)
  }

  function SetPc(s: System, t: nat, pc: Pc): System
    requires t < |s.calls|
  {
    s.(calls := s.calls[t := s.calls[t].(pc := pc)])
  }

  /** Where a call goes next, given the pool, its bound and the marked addresses. */
  function NextPc(connections: Connections, max: nat, connecting: set<SocketAddr>, c: Call): Pc
    requires Acts(c.pc)
  {
    match c.pc
    case Begin => if c.addr in connections || |connections| >= max then Finished else Claim
    case Claim => if c.addr in connecting then Finished else Connecting
    case Connected(result) => Unmarked(result)
    case Unmarked(_) => Finished
    case Admitted(_) => Finished
  }

  function ActOf(s: System, t: nat): System
    requires Enabled(s, Act(t))
  {
    var c := s.calls[t];
    var pc := NextPc(s.connections, s.max, s.connecting, c);
    s.(calls := s.calls[t := c.(pc := pc)],
       connecting := if pc.Connecting? then s.connecting + {c.addr}
                     else if c.pc.Connected? then s.connecting - {c.addr}
                     else s.connecting,
       markedBy := if pc.Connecting? then s.markedBy[c.addr := t]
                   else if c.pc.Connected? then s.markedBy - {c.addr}
                   else s.markedBy,
       rows := if c.pc.Admitted? then s.rows + {c.pc.conn.addr} else s.rows)
  }

  /** The connect attempt ends; a connection that comes about gets the next number. */
  function Open(s: System, t: nat, hostname: Option<string>): System
    requires t < |s.calls|
  {
    match hostname
    case None => SetPc(s, t, Connected(None))
    case Some(name) =>
      SetPc(s, t, Connected(Some(Conn(|s.places|, s.calls[t].addr, name)))).(places := s.places + [Held(t)])
  }

  function Mark(places: seq<Place>, dropped: set<nat>, admitted: Option<Conn>, t: nat): (r: seq<Place>)
    ensures |r| == |places|
  {
    seq(|places|, id requires 0 <= id < |places| =>
      if id in dropped then Closed
      else if admitted.Some? && admitted.value.id == id then InPool(admitted.value.addr, t)
      else places[id])
  }

  function AdmitWith(s: System, t: nat, conn: Conn, existing: Option<SocketAddr>, verdict: Verdict): System
    requires t < |s.calls|
    requires existing.Some? ==> existing.value in s.connections
  {
    var a := AdmitAs(verdict, s.connections, conn, existing);
    s.(calls := s.calls[t := s.calls[t].(pc := if verdict.Enters? then Admitted(conn) else Finished)],
       connections := a.connections,
       disconnected := s.disconnected + a.dropped,
       rows := s.rows - a.removedRows,
       places := Mark(s.places, a.dropped, if verdict.Enters? then Some(conn) else None, t))
  }

  function AdmitOf(s: System, t: nat, existing: Option<SocketAddr>): System
    requires Enabled(s, AdmitStep(t, existing))
  {
    var conn := s.calls[t].pc.result.value;
    AdmitWith(s, t, conn, existing, Judge(s.connections, s.max, conn, existing))
  }

  function Apply(s: System, step: Step): System
    requires Enabled(s, step)
  {
    match step
    case Act(t) => ActOf(s, t)
    case ConnectDone(t, hostname) => Open(s, t, hostname)
    case AdmitStep(t, existing) => AdmitOf(s, t, existing)
  }

  ghost predicate IsRun(states: seq<System>, steps: seq<Step>) {
    && |states| == |steps| + 1
    && Init(states[0])
    && forall i {:trigger steps[i]} :: 0 <= i < |steps| ==>
         Enabled(states[i], steps[i]) && states[i + 1] == Apply(states[i], steps[i])
  }

  // ---------------------------------------------------------------------------------------------
  // The invariant.

  /** The call has marked its address as being connected. */
  predicate Claims(pc: Pc) {
    pc.Connecting? || pc.Connected?
  }

  /** The call holds an open connection not yet admitted or turned away. */
  predicate HasConn(pc: Pc) {
    (pc.Connected? || pc.Unmarked?) && pc.result.Some?
  }

  predicate OnePerHost(connections: Connections) {
    forall a, b | a in connections && b in connections && connections[a].hostname == connections[b].hostname :: a == b
  }

  predicate PoolInv(connections: Connections, max: nat) {
    |connections| <= max && OnePerHost(connections)
  }

  predicate CallOk(s: System, t: nat)
    requires t < |s.calls|
  {
    var c := s.calls[t];
    && (Claims(c.pc) ==> c.addr in s.markedBy && s.markedBy[c.addr] == t)
    && (HasConn(c.pc) ==>
          && c.pc.result.value.addr == c.addr
          && c.pc.result.value.id < |s.places|
          && s.places[c.pc.result.value.id] == Held(t))
    && (c.pc.Admitted? ==> c.pc.conn.addr == c.addr)
  }

  predicate MarkOk(s: System, a: SocketAddr)
    requires a in s.markedBy
  {
    var t := s.markedBy[a];
    t < |s.calls| && Claims(s.calls[t].pc) && s.calls[t].addr == a
  }

  predicate EntryOk(s: System, a: SocketAddr)
    requires a in s.connections
  {
    var c := s.connections[a];
    && c.addr == a
    && c.id < |s.places| && s.places[c.id].InPool? && s.places[c.id].at == a
    && s.places[c.id].owner < |s.calls|
    && (a in s.rows || s.calls[s.places[c.id].owner].pc == Admitted(c))
  }

  predicate PlaceOk(s: System, id: nat)
    requires id < |s.places|
  {
    match s.places[id]
    case Held(t) => t < |s.calls| && HasConn(s.calls[t].pc) && s.calls[t].pc.result.value.id == id
    case InPool(a, _) => a in s.connections && s.connections[a].id == id
    case Closed => id in s.disconnected
  }

  predicate Inv(s: System) {
    && PoolInv(s.connections, s.max)
    && s.markedBy.Keys == s.connecting
    && (forall t :: 0 <= t < |s.calls| ==> CallOk(s, t))
    && (forall a <- s.markedBy :: MarkOk(s, a))
    && (forall a <- s.connections :: EntryOk(s, a))
    && (forall id :: 0 <= id < |s.places| ==> PlaceOk(s, id))
    && (forall id <- s.disconnected :: id < |s.places| && s.places[id] == Closed)
  }

  // ---------------------------------------------------------------------------------------------
  // Admission.

  lemma KeysRemoved(connections: Connections, at: SocketAddr)
    requires at in connections
    ensures |connections - {at}| == |connections| - 1
  {
    var kept := connections - {at};
    assert kept.Keys == connections.Keys - {at};
    assert |kept| == |kept.Keys| && |connections| == |connections.Keys|;
  }

  lemma KeysAdded(connections: Connections, conn: Conn)
    requires conn.addr !in connections
    ensures |connections[conn.addr := conn]| == |connections| + 1
  {
    var more := connections[conn.addr := conn];
    assert more.Keys == connections.Keys + {conn.addr};
    assert |more| == |more.Keys| && |connections| == |connections.Keys|;
  }

  lemma AdmitKeepsBound(connections: Connections, max: nat, conn: Conn, existing: Option<SocketAddr>)
    requires |connections| <= max && Found(connections, conn, existing)
    ensures |Admit(connections, max, conn, existing).connections| <= max
  {
    if conn.addr !in connections {
      if existing.Some? {
        KeysRemoved(connections, existing.value);
      }
      var kept := Kept(connections, existing);
      if |kept| < max {
        KeysAdded(kept, conn);
      }
    }
  }

  lemma KeptIsOther(connections: Connections, conn: Conn, existing: Option<SocketAddr>, at: SocketAddr)
    requires OnePerHost(connections) && Found(connections, conn, existing)
    requires at in Kept(connections, existing)
    ensures connections[at].hostname != conn.hostname
  {
    assert existing.None? ==> !SameHost(connections, conn, at);
  }

  lemma AdmitKeepsHostsApart(verdict: Verdict, connections: Connections, conn: Conn, existing: Option<SocketAddr>)
    requires OnePerHost(connections) && Found(connections, conn, existing)
    ensures OnePerHost(AdmitAs(verdict, connections, conn, existing).connections)
  {
    forall at | at in Kept(connections, existing)
      ensures connections[at].hostname != conn.hostname
    {
      KeptIsOther(connections, conn, existing, at);
    }
  }

  /** No host is lost: a replaced connection makes room for its successor. */
  lemma AdmitKeepsHosts(connections: Connections, max: nat, conn: Conn, existing: Option<SocketAddr>, at: SocketAddr)
    requires PoolInv(connections, max) && Found(connections, conn, existing)
    requires at in connections
    ensures var after := Admit(connections, max, conn, existing).connections;
            exists b :: b in after && after[b].hostname == connections[at].hostname
  {
    var after := Admit(connections, max, conn, existing).connections;
    if conn.addr !in connections && existing == Some(at) {
      KeysRemoved(connections, at);
      assert after[conn.addr] == conn;
    } else {
      assert at in after && after[at] == connections[at];
    }
  }

  // ---------------------------------------------------------------------------------------------
  // Preservation.

  lemma ActCalls(s: System, t: nat, u: nat)
    requires Enabled(s, Act(t)) && u < |s.calls|
    requires CallOk(s, t) && CallOk(s, u) && s.markedBy.Keys == s.connecting
    ensures CallOk(ActOf(s, t), u)
  {
  }

  lemma ActMarks(s: System, t: nat, a: SocketAddr)
    requires Enabled(s, Act(t)) && CallOk(s, t)
    requires a in ActOf(s, t).markedBy
    requires a in s.markedBy ==> MarkOk(s, a)
    ensures MarkOk(ActOf(s, t), a)
  {
  }

  lemma ActEntries(s: System, t: nat, a: SocketAddr)
    requires Enabled(s, Act(t)) && CallOk(s, t)
    requires a in s.connections && EntryOk(s, a)
    ensures EntryOk(ActOf(s, t), a)
  {
  }

  lemma ActPlaces(s: System, t: nat, id: nat)
    requires Enabled(s, Act(t)) && id < |s.places| && PlaceOk(s, id)
    ensures PlaceOk(ActOf(s, t), id)
  {
  }

  lemma ActFrame(s: System, t: nat)
    requires Enabled(s, Act(t)) && s.markedBy.Keys == s.connecting
    ensures var s' := ActOf(s, t);
            && s'.max == s.max && s'.connections == s.connections && s'.places == s.places
            && s'.disconnected == s.disconnected && |s'.calls| == |s.calls|
            && s'.markedBy.Keys == s'.connecting
  {
  }

  lemma ActKeepsInv(s: System, t: nat)
    requires Inv(s) && Enabled(s, Act(t))
    ensures Inv(ActOf(s, t))
  {
    var s' := ActOf(s, t);
    ActFrame(s, t);
    assert CallOk(s, t);
    forall u | 0 <= u < |s'.calls|
      ensures CallOk(s', u)
    {
      ActCalls(s, t, u);
    }
    forall a | a in s'.markedBy
      ensures MarkOk(s', a)
    {
      ActMarks(s, t, a);
    }
    forall a | a in s'.connections
      ensures EntryOk(s', a)
    {
      ActEntries(s, t, a);
    }
    forall id | 0 <= id < |s'.places|
      ensures PlaceOk(s', id)
    {
      ActPlaces(s, t, id);
    }
  }

  lemma OpenCalls(s: System, t: nat, hostname: Option<string>, u: nat)
    requires Enabled(s, ConnectDone(t, hostname)) && u < |s.calls|
    requires CallOk(s, t) && CallOk(s, u)
    ensures CallOk(Open(s, t, hostname), u)
  {
  }

  lemma OpenEntries(s: System, t: nat, hostname: Option<string>, a: SocketAddr)
    requires Enabled(s, ConnectDone(t, hostname))
    requires a in s.connections && EntryOk(s, a)
    ensures EntryOk(Open(s, t, hostname), a)
  {
  }

  lemma OpenPlaces(s: System, t: nat, hostname: Option<string>, id: nat)
    requires Enabled(s, ConnectDone(t, hostname))
    requires id < |Open(s, t, hostname).places|
    requires id < |s.places| ==> PlaceOk(s, id)
    ensures PlaceOk(Open(s, t, hostname), id)
  {
  }

  lemma OpenKeepsInv(s: System, t: nat, hostname: Option<string>)
    requires Inv(s) && Enabled(s, ConnectDone(t, hostname))
    ensures Inv(Open(s, t, hostname))
  {
    var s' := Open(s, t, hostname);
    assert CallOk(s, t);
    forall u | 0 <= u < |s'.calls|
      ensures CallOk(s', u)
    {
      OpenCalls(s, t, hostname, u);
    }
    forall a | a in s'.markedBy
      ensures MarkOk(s', a)
    {
      assert MarkOk(s, a);
    }
    forall a | a in s'.connections
      ensures EntryOk(s', a)
    {
      OpenEntries(s, t, hostname, a);
    }
    forall id | 0 <= id < |s'.places|
      ensures PlaceOk(s', id)
    {
      OpenPlaces(s, t, hostname, id);
    }
  }

  /** What an admission by call `t` starts from. */
  ghost predicate Admits(s: System, t: nat, conn: Conn, existing: Option<SocketAddr>, verdict: Verdict) {
    && t < |s.calls| && s.calls[t].pc == Unmarked(Some(conn)) && CallOk(s, t)
    && (existing.Some? ==> existing.value in s.connections && EntryOk(s, existing.value))
    && (verdict.Duplicate? <==> conn.addr in s.connections)
  }

  /** The connections an admission drops: the newcomer or the one it replaces. */
  lemma DroppedOnes(s: System, t: nat, conn: Conn, existing: Option<SocketAddr>, verdict: Verdict, id: nat)
    requires Admits(s, t, conn, existing, verdict)
    requires id in AdmitAs(verdict, s.connections, conn, existing).dropped
    ensures id < |s.places|
    ensures (id == conn.id && !verdict.Enters?) ||
            (existing.Some? && !verdict.Duplicate? && s.places[id].InPool? && s.places[id].at == existing.value)
  {
  }

  /** A connection that is neither the newcomer nor replaced stays where it is. */
  lemma OthersStay(s: System, t: nat, conn: Conn, existing: Option<SocketAddr>, verdict: Verdict, id: nat)
    requires Admits(s, t, conn, existing, verdict)
    requires id < |s.places| && id != conn.id
    requires s.places[id].InPool? && existing.Some? && !verdict.Duplicate? ==> s.places[id].at != existing.value
    ensures AdmitWith(s, t, conn, existing, verdict).places[id] == s.places[id]
  {
    if id in AdmitAs(verdict, s.connections, conn, existing).dropped {
      DroppedOnes(s, t, conn, existing, verdict, id);
    }
  }

  lemma AdmitCalls(s: System, t: nat, conn: Conn, existing: Option<SocketAddr>, verdict: Verdict, u: nat)
    requires Admits(s, t, conn, existing, verdict) && u < |s.calls| && CallOk(s, u)
    ensures CallOk(AdmitWith(s, t, conn, existing, verdict), u)
  {
    if u != t && HasConn(s.calls[u].pc) {
      OthersStay(s, t, conn, existing, verdict, s.calls[u].pc.result.value.id);
    }
  }

  lemma AdmitEntries(s: System, t: nat, conn: Conn, existing: Option<SocketAddr>, verdict: Verdict, a: SocketAddr)
    requires Admits(s, t, conn, existing, verdict)
    requires a in AdmitWith(s, t, conn, existing, verdict).connections
    requires a in s.connections ==> EntryOk(s, a)
    ensures EntryOk(AdmitWith(s, t, conn, existing, verdict), a)
  {
    if a in s.connections {
      OthersStay(s, t, conn, existing, verdict, s.connections[a].id);
    } else if conn.id in AdmitAs(verdict, s.connections, conn, existing).dropped {
      DroppedOnes(s, t, conn, existing, verdict, conn.id);
    }
  }

  lemma AdmitPlaces(s: System, t: nat, conn: Conn, existing: Option<SocketAddr>, verdict: Verdict, id: nat)
    requires Admits(s, t, conn, existing, verdict)
    requires id < |s.places| && PlaceOk(s, id)
    ensures PlaceOk(AdmitWith(s, t, conn, existing, verdict), id)
  {
    if s.places[id].Held? {
      assert s.places[id].call == t ==> id == conn.id;
    }
  }

  lemma AdmitClosed(s: System, t: nat, conn: Conn, existing: Option<SocketAddr>, verdict: Verdict, id: nat)
    requires Admits(s, t, conn, existing, verdict)
    requires id in AdmitWith(s, t, conn, existing, verdict).disconnected
    requires id in s.disconnected ==> id < |s.places| && s.places[id] == Closed
    ensures id < |s.places| && AdmitWith(s, t, conn, existing, verdict).places[id] == Closed
  {
    if id in AdmitAs(verdict, s.connections, conn, existing).dropped {
      DroppedOnes(s, t, conn, existing, verdict, id);
    } else {
      OthersStay(s, t, conn, existing, verdict, id);
    }
  }

  lemma AdmitKeepsInv(s: System, t: nat, existing: Option<SocketAddr>)
    requires Inv(s) && Enabled(s, AdmitStep(t, existing))
    ensures Inv(AdmitOf(s, t, existing))
  {
    var conn := s.calls[t].pc.result.value;
    var verdict := Judge(s.connections, s.max, conn, existing);
    assert PoolInv(AdmitWith(s, t, conn, existing, verdict).connections, s.max) by {
      AdmitKeepsBound(s.connections, s.max, conn, existing);
      AdmitKeepsHostsApart(verdict, s.connections, conn, existing);
    }
    AdmitKeepsParts(s, t, conn, existing, verdict);
  }

  lemma AdmitKeepsParts(s: System, t: nat, conn: Conn, existing: Option<SocketAddr>, verdict: Verdict)
    requires Inv(s) && Admits(s, t, conn, existing, verdict)
    ensures var s' := AdmitWith(s, t, conn, existing, verdict);
            && (forall u :: 0 <= u < |s'.calls| ==> CallOk(s', u))
            && (forall a <- s'.markedBy :: MarkOk(s', a))
            && (forall a <- s'.connections :: EntryOk(s', a))
            && (forall id :: 0 <= id < |s'.places| ==> PlaceOk(s', id))
            && (forall id <- s'.disconnected :: id < |s'.places| && s'.places[id] == Closed)
  {
    var s' := AdmitWith(s, t, conn, existing, verdict);
    forall u | 0 <= u < |s'.calls|
      ensures CallOk(s', u)
    {
      AdmitCalls(s, t, conn, existing, verdict, u);
    }
    forall a | a in s'.markedBy
      ensures MarkOk(s', a)
    {
      assert MarkOk(s, a);
    }
    forall a | a in s'.connections
      ensures EntryOk(s', a)
    {
      AdmitEntries(s, t, conn, existing, verdict, a);
    }
    forall id | 0 <= id < |s'.places|
      ensures PlaceOk(s', id)
    {
      AdmitPlaces(s, t, conn, existing, verdict, id);
    }
    forall id | id in s'.disconnected
      ensures id < |s'.places| && s'.places[id] == Closed
    {
      AdmitClosed(s, t, conn, existing, verdict, id);
    }
  }

  lemma InvStep(s: System, step: Step)
    requires Inv(s) && Enabled(s, step)
    ensures Inv(Apply(s, step))
  {
    match step
    case Act(t) => ActKeepsInv(s, t);
    case ConnectDone(t, hostname) => OpenKeepsInv(s, t, hostname);
    case AdmitStep(t, existing) => AdmitKeepsInv(s, t, existing);
  }

  lemma InvInit(s: System)
    requires Init(s)
    ensures Inv(s)
  {
  }

  lemma {:induction false} InvRun(states: seq<System>, steps: seq<Step>, i: nat)
    requires IsRun(states, steps) && i < |states|
    ensures Inv(states[i])
  {
    if i == 0 {
      InvInit(states[0]);
    } else {
      InvRun(states, steps, i - 1);
      InvStep(states[i - 1], steps[i - 1]);
    }
  }

  // ---------------------------------------------------------------------------------------------
  // What every run keeps.

  /** In every reachable state of any number of concurrent calls: the pool is within its bound,
      holds at most one connection per hostname, and no two calls are connecting to one address. */
  lemma PoolIsSafe(states: seq<System>, steps: seq<Step>, i: nat)
    requires IsRun(states, steps) && i < |states|
    ensures var s := states[i];
            && |s.connections| <= s.max
            && (forall a, b | a in s.connections && b in s.connections ::
                  s.connections[a].hostname == s.connections[b].hostname ==> a == b)
            && (forall t, u | 0 <= t < |s.calls| && 0 <= u < |s.calls| && s.calls[t].addr == s.calls[u].addr ::
                  s.calls[t].pc.Connecting? && s.calls[u].pc.Connecting? ==> t == u)
  {
    InvRun(states, steps, i);
    var s := states[i];
    forall t, u | 0 <= t < |s.calls| && 0 <= u < |s.calls| && s.calls[t].addr == s.calls[u].addr
      ensures s.calls[t].pc.Connecting? && s.calls[u].pc.Connecting? ==> t == u
    {
      assert CallOk(s, t) && CallOk(s, u);
    }
  }

  predicate Pooled(s: System, id: nat) {
    exists at <- s.connections :: s.connections[at].id == id
  }

  predicate InHand(s: System, id: nat) {
    exists t :: 0 <= t < |s.calls| && HasConn(s.calls[t].pc) && s.calls[t].pc.result.value.id == id
  }

  /** Every connection ever opened is in exactly one place: in the pool, disconnected, or still in
      the hands of a call. None leaks, none is both used and closed. */
  lemma ConnectionsAreConserved(states: seq<System>, steps: seq<Step>, i: nat, id: nat)
    requires IsRun(states, steps) && i < |states|
    requires id < |states[i].places|
    ensures var s := states[i];
            var closed := id in s.disconnected;
            || (Pooled(s, id) && !closed && !InHand(s, id))
            || (!Pooled(s, id) && closed && !InHand(s, id))
            || (!Pooled(s, id) && !closed && InHand(s, id))
  {
    InvRun(states, steps, i);
    var s := states[i];
    assert PlaceOk(s, id);
    if Pooled(s, id) {
      var at :| at in s.connections && s.connections[at].id == id;
      assert EntryOk(s, at);
    }
    if InHand(s, id) {
      var t :| 0 <= t < |s.calls| && HasConn(s.calls[t].pc) && s.calls[t].pc.result.value.id == id;
      assert CallOk(s, t);
    }
  }

  /** Once all calls have returned, no address is marked, every opened connection is pooled or
      disconnected, and every pooled address has a cache row. */
  lemma QuietPool(states: seq<System>, steps: seq<Step>, i: nat)
    requires IsRun(states, steps) && i < |states|
    requires forall t :: 0 <= t < |states[i].calls| ==> states[i].calls[t].pc.Finished?
    ensures states[i].connecting == {}
    ensures forall id :: 0 <= id < |states[i].places| ==>
              (Pooled(states[i], id) <==> id !in states[i].disconnected)
    ensures forall at :: at in states[i].connections ==> at in states[i].rows
  {
    InvRun(states, steps, i);
    var s := states[i];
    assert forall a <- s.markedBy :: MarkOk(s, a);
    forall id | 0 <= id < |s.places|
      ensures Pooled(s, id) <==> id !in s.disconnected
    {
      ConnectionsAreConserved(states, steps, i, id);
    }
    forall at | at in s.connections
      ensures at in s.rows
    {
      assert EntryOk(s, at);
    }
  }

  predicate HasHost(connections: Connections, hostname: string) {
    exists at <- connections :: connections[at].hostname == hostname
  }

  lemma StepKeepsHosts(s: System, step: Step, hostname: string)
    requires PoolInv(s.connections, s.max) && Enabled(s, step) && HasHost(s.connections, hostname)
    ensures HasHost(Apply(s, step).connections, hostname)
  {
    if step.AdmitStep? {
      var at :| at in s.connections && s.connections[at].hostname == hostname;
      AdmitKeepsHosts(s.connections, s.max, s.calls[step.call].pc.result.value, step.existing, at);
    }
  }

  lemma StepOfRunKeepsHosts(states: seq<System>, steps: seq<Step>, i: nat, hostname: string)
    requires IsRun(states, steps) && i < |steps|
    requires HasHost(states[i].connections, hostname)
    ensures HasHost(states[i + 1].connections, hostname)
  {
    InvRun(states, steps, i);
    StepKeepsHosts(states[i], steps[i], hostname);
  }

  /** A host that has a connection keeps having one: replacing it, even in a full pool, never loses
      the host. */
  lemma {:induction false} HostsStay(states: seq<System>, steps: seq<Step>, i: nat, j: nat, hostname: string)
    requires IsRun(states, steps) && i <= j < |states|
    requires HasHost(states[i].connections, hostname)
    ensures HasHost(states[j].connections, hostname)
    decreases j
  {
    if i < j {
      HostsStay(states, steps, i, j - 1, hostname);
      StepOfRunKeepsHosts(states, steps, j - 1, hostname);
    }
  }

  // ---------------------------------------------------------------------------------------------
  // A call that nothing stands in the way of.

  /** Room in the pool for a new connection, after any replacement. */
  predicate HasRoom(s: System, hostname: string) {
    |s.connections| < s.max || exists at <- s.connections :: s.connections[at].hostname == hostname
  }

  /** In this state this step does not turn call `t` away: at the check its address is unpooled and
      there is room, then its address is unmarked, its connect succeeds, and at admission the address
      is still unpooled and there is still room. */
  predicate Unhindered(s: System, step: Step, t: nat)
    requires Enabled(s, step)
  {
    match step
    case Act(u) =>
      u == t ==>
        && (s.calls[t].pc.Begin? ==> s.calls[t].addr !in s.connections && |s.connections| < s.max)
        && (s.calls[t].pc.Claim? ==> s.calls[t].addr !in s.connecting)
    case ConnectDone(u, hostname) => u == t ==> hostname.Some?
    case AdmitStep(u, _) =>
      u == t ==>
        && s.calls[t].pc.result.value.addr !in s.connections
        && HasRoom(s, s.calls[t].pc.result.value.hostname)
  }

  /** How far an unhindered call is: on its way, or with its connection admitted. */
  predicate OnItsWay(pc: Pc) {
    pc.Begin? || pc.Claim? || pc.Connecting? || ((pc.Connected? || pc.Unmarked?) && pc.result.Some?)
  }

  lemma RoomAdmits(s: System, conn: Conn, existing: Option<SocketAddr>)
    requires OnePerHost(s.connections) && |s.connections| <= s.max
    requires Found(s.connections, conn, existing)
    requires conn.addr !in s.connections && HasRoom(s, conn.hostname)
    ensures Judge(s.connections, s.max, conn, existing) == Enters
  {
    match existing
    case None =>
      if at :| at in s.connections && s.connections[at].hostname == conn.hostname {
        assert SameHost(s.connections, conn, at);
      }
    case Some(at) => KeysRemoved(s.connections, at);
  }

  /** One step, of this call or another. */
  lemma UnhinderedStep(s: System, step: Step, t: nat)
    requires Inv(s) && Enabled(s, step) && Unhindered(s, step, t)
    requires t < |s.calls| && OnItsWay(s.calls[t].pc)
    ensures var s' := Apply(s, step);
            && t < |s'.calls| && s'.calls[t].addr == s.calls[t].addr
            && if step.AdmitStep? && step.call == t then
                 var conn := s.calls[t].pc.result.value;
                 && s'.calls[t].pc == Admitted(conn)
                 && conn.addr in s'.connections && s'.connections[conn.addr] == conn
               else OnItsWay(s'.calls[t].pc)
    ensures var s' := Apply(s, step);
            step.ConnectDone? && step.call == t ==>
              && s'.calls[t].pc.Connected? && s'.calls[t].pc.result.Some?
              && s'.calls[t].pc.result.value.hostname == step.hostname.value
  {
    if step.AdmitStep? {
      AdmissionEnters(s, step, t);
    }
  }

  lemma AdmissionEnters(s: System, step: Step, t: nat)
    requires Inv(s) && Enabled(s, step) && Unhindered(s, step, t) && step.AdmitStep?
    ensures step.call == t ==>
              Judge(s.connections, s.max, s.calls[t].pc.result.value, step.existing) == Enters
  {
    if step.call == t {
      RoomAdmits(s, s.calls[t].pc.result.value, step.existing);
    }
  }

  ghost predicate UnhinderedTo(states: seq<System>, steps: seq<Step>, n: nat, t: nat)
    requires IsRun(states, steps) && n <= |steps|
  {
    forall i {:trigger steps[i]} :: 0 <= i < n ==> Unhindered(states[i], steps[i], t)
  }

  /** In every run, a call that no step turns away is on its way until it is admitted; its connection
      is pooled then, under its address; and its next step gives that address a row and ends it. */
  lemma {:induction false} UnhinderedCallIsPooled(states: seq<System>, steps: seq<Step>, n: nat, t: nat)
    returns (m: nat)
    requires IsRun(states, steps) && n <= |steps| && UnhinderedTo(states, steps, n, t)
    requires t < |states[n].calls|
    ensures OnItsWay(states[n].calls[t].pc) ||
            (&& m < n && steps[m].AdmitStep? && steps[m].call == t
             && t < |states[m].calls| && HasConn(states[m].calls[t].pc)
             && var conn := states[m].calls[t].pc.result.value;
             && conn.addr == states[n].calls[t].addr
             && conn.addr in states[m + 1].connections && states[m + 1].connections[conn.addr] == conn
             && (states[n].calls[t].pc == Admitted(conn) || states[n].calls[t].pc.Finished?))
  {
    hide Apply, Inv, Unhindered;
    m := 0;
    if n > 0 {
      var step := steps[n - 1];
      InvRun(states, steps, n - 1);
      SameCalls(states[n - 1], step, t);
      m := UnhinderedCallIsPooled(states, steps, n - 1, t);
      if OnItsWay(states[n - 1].calls[t].pc) {
        assert Unhindered(states[n - 1], step, t);
        UnhinderedStep(states[n - 1], step, t);
        if HasConn(states[n - 1].calls[t].pc) {
          ConnIsOwn(states[n - 1], t);
        }
        m := n - 1;
      }
    }
  }

  lemma ConnIsOwn(s: System, t: nat)
    requires Inv(s) && t < |s.calls| && HasConn(s.calls[t].pc)
    ensures s.calls[t].pc.result.value.addr == s.calls[t].addr
  {
    assert CallOk(s, t);
  }

  /** A step keeps the calls there are and their addresses, and an admitted call only ends. */
  lemma SameCalls(s: System, step: Step, t: nat)
    requires Enabled(s, step)
    ensures var s' := Apply(s, step);
            && |s'.calls| == |s.calls|
            && (t < |s.calls| ==> s'.calls[t].addr == s.calls[t].addr)
            && (t < |s.calls| && s.calls[t].pc.Finished? ==> s'.calls[t].pc.Finished?)
            && (t < |s.calls| && s.calls[t].pc.Admitted? ==>
                  s'.calls[t].pc == s.calls[t].pc || (step == Act(t) && s'.calls[t].pc.Finished?))
            && (t < |s.calls| && s.calls[t].pc.Admitted? && step == Act(t) ==> s.calls[t].pc.conn.addr in s'.rows)
  {
  }

  /** And a call that has not finished can always take its next step or is waiting for its connect. */
  lemma CallsCanGoOn(s: System, t: nat) returns (step: Step)
    requires t < |s.calls| && !s.calls[t].pc.Finished?
    ensures Enabled(s, step)
    ensures step == Act(t) || (step.ConnectDone? && step.call == t) || (step.AdmitStep? && step.call == t)
  {
    var pc := s.calls[t].pc;
    if Acts(pc) {
      step := Act(t);
    } else if pc.Connecting? {
      step := ConnectDone(t, None);
    } else if at :| SameHost(s.connections, pc.result.value, at) {
      step := AdmitStep(t, Some(at));
    } else {
      step := AdmitStep(t, None);
    }
  }
}

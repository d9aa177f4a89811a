/** The backend's cache and its refresh on a QUERY, one request at a time
    (crates/client-backend/src/local_api.rs, crates/client-backend/src/cache.rs). */
module QueryRefresh {
  import opened Results
  import opened Bytes
  import opened Net
  import opened ConnectionPool

  /** A snapshot, as far as the cache looks into it; `content` stands for all the rest. */
  datatype Taken = Taken(hostname: string, content: nat)

  /** A cache row; the number stands for the text of the connection id. Every row is kept under
      its own address. */
  datatype Row = Row(
    connectionNo: nat,
    hostname: string,
    recordTimestamp: int,
    addr: SocketAddr,
    lastSnapshot: Option<Taken>,
    lastError: Option<string>)

  type Rows = map<SocketAddr, Row>

  const I64_MAX: int := 0x7fff_ffff_ffff_ffff
  const I64_MIN: int := -0x8000_0000_0000_0000

  function SaturatingSub(a: int, b: int): int {
    if a - b > I64_MAX then I64_MAX else if a - b < I64_MIN then I64_MIN else a - b
  }

  /** `ttl as i64`. */
  function AsI64(x: u64): int {
    if x <= I64_MAX then x else x - 0x1_0000_0000_0000_0000
  }

  /** Everything outside, by the number of the interaction: how many milliseconds pass, what a
      connect attempt finds and what a query brings back. */
  datatype Env = Env(
    epoch: nat,
    elapsed: nat -> nat,
    connect: (nat, SocketAddr) -> Option<string>,
    query: (nat, SocketAddr) -> Option<Taken>)

  /** What the clock shows at interaction `k`; it does not run backwards. */
  function Clock(env: Env, k: nat): nat {
    if k == 0 then env.epoch else Clock(env, k - 1) + env.elapsed(k - 1)
  }

  lemma {:induction false} ClockForward(env: Env, i: nat, j: nat)
    requires i <= j
    ensures Clock(env, i) <= Clock(env, j)
    decreases j
  {
    if i < j {
      ClockForward(env, i, j - 1);
    }
  }

  /** `turn` counts the interactions with the outside so far. */
  datatype Backend = Backend(connections: Connections, rows: Rows, turn: nat)

  datatype Config = Config(max: nat, ttlMs: u64)

  const UNAVAILABLE: string := "no connection"

  // ---------------------------------------------------------------------------------------------
  // Rows.

  function Upsert(rows: Rows, connectionNo: nat, addr: SocketAddr, snapshot: Taken, now: int): Rows {
    rows[addr := Row(connectionNo, snapshot.hostname, now, addr, Some(snapshot), None)]
  }

  function MarkStale(rows: Rows, connectionNo: nat, addr: SocketAddr, hostname: string, error: string, now: int): Rows {
    rows[addr := Row(connectionNo, hostname, now, addr, None, Some(error))]
  }

  function Placeholder(rows: Rows, index: nat, conn: Conn, now: int): Rows {
    if conn.addr in rows
    then rows[conn.addr := rows[conn.addr].(connectionNo := index, hostname := conn.hostname)]
    else rows[conn.addr := Row(index, conn.hostname, now, conn.addr, None, None)]
  }

  // ---------------------------------------------------------------------------------------------
  // Discovery.

  datatype Node = Node(hostname: string, addr: SocketAddr, seenAt: int)

  function DiscoveredRow(index: nat, node: Node): Row {
    Row(index, node.hostname, node.seenAt, node.addr, None, None)
  }

  /** The rows of the nodes found at the start; a later node replaces an earlier one at the same
      address. */
  function BuildCache(nodes: seq<Node>): Rows {
    if |nodes| == 0 then map[]
    else
      var last := nodes[|nodes| - 1];
      BuildCache(nodes[..|nodes| - 1])[last.addr := DiscoveredRow(|nodes|, last)]
  }

  predicate HostShown(rows: Rows, hostname: string) {
    exists a <- rows :: rows[a].hostname == hostname
  }

  /** A node found later gets a row unless its host or its address has one. */
  function AddNode(rows: Rows, index: nat, node: Node): Rows {
    if HostShown(rows, node.hostname) || node.addr in rows then rows
    else rows[node.addr := DiscoveredRow(index, node)]
  }

  function AddNodes(rows: Rows, base: nat, nodes: seq<Node>): Rows {
    if |nodes| == 0 then rows
    else AddNode(AddNodes(rows, base, nodes[..|nodes| - 1]), base + |nodes|, nodes[|nodes| - 1])
  }

  // ---------------------------------------------------------------------------------------------
  // Connecting.

  /** The pool entry with the connection's hostname, if any. */
  ghost function FindHost(connections: Connections, conn: Conn): (existing: Option<SocketAddr>)
    ensures Found(connections, conn, existing)
  {
    if at :| SameHost(connections, conn, at) then Some(at) else None
  }

  function DropRow(rows: Rows, existing: Option<SocketAddr>): Rows {
    if existing.Some? then rows - {existing.value} else rows
  }

  /** The pool section for an address that is not pooled, and the row that follows it. */
  function EnterWith(b: Backend, index: nat, conn: Conn, existing: Option<SocketAddr>, room: bool, now: int): Backend {
    var kept, rows := Kept(b.connections, existing), DropRow(b.rows, existing);
    if room then Backend(kept[conn.addr := conn], Placeholder(rows, index, conn, now), b.turn + 2)
    else Backend(kept, rows, b.turn + 2)
  }

  /** `establish_one_connection` with nobody else connecting. */
  ghost function Establish(env: Env, max: nat, b: Backend, index: nat, addr: SocketAddr): Backend {
    if addr in b.connections || |b.connections| >= max then b
    else match env.connect(b.turn, addr)
      case None => b.(turn := b.turn + 1)
      case Some(hostname) =>
        var conn := Conn(b.turn, addr, hostname);
        var existing := FindHost(b.connections, conn);
        EnterWith(b, index, conn, existing, |Kept(b.connections, existing)| < max, Clock(env, b.turn + 1))
  }

  // ---------------------------------------------------------------------------------------------
  // Refreshing.

  datatype Target = Target(connectionNo: nat, hostname: string, addr: SocketAddr, hadSnapshot: bool)

  predicate Stale(row: Row, now: int, ttlMs: u64) {
    row.lastSnapshot.None? || SaturatingSub(now, row.recordTimestamp) > AsI64(ttlMs)
  }

  /** In numbers: a row is stale if it has no snapshot or one older than the time to live. */
  lemma StaleExactly(row: Row, now: int, ttlMs: u64)
    requires ttlMs <= I64_MAX && 0 <= now <= I64_MAX && 0 <= row.recordTimestamp
    ensures Stale(row, now, ttlMs) <==> row.lastSnapshot.None? || now - row.recordTimestamp > ttlMs
  {
  }

  function TargetOf(row: Row): Target {
    Target(row.connectionNo, row.hostname, row.addr, row.lastSnapshot.Some?)
  }

  /** The query itself, over a pooled connection: success replaces the row, failure drops the pool
      entry and the row. */
  function Ask(env: Env, b: Backend, t: Target): Backend {
    match env.query(b.turn, t.addr)
    case Some(snapshot) =>
      b.(rows := Upsert(b.rows, t.connectionNo, t.addr, snapshot, Clock(env, b.turn + 1)), turn := b.turn + 2)
    case None =>
      Backend(b.connections - {t.addr}, b.rows - {t.addr}, b.turn + 1)
  }

  /** No connection could be had: a node that had a snapshot is shown as stale, any other goes. */
  function GiveUp(env: Env, b: Backend, t: Target): Backend {
    if t.hadSnapshot
    then b.(rows := MarkStale(b.rows, t.connectionNo, t.addr, t.hostname, UNAVAILABLE, Clock(env, b.turn)),
            turn := b.turn + 1)
    else b.(rows := b.rows - {t.addr})
  }

  ghost function Settle(env: Env, max: nat, b: Backend, t: Target): Backend {
    var b' := if t.addr in b.connections then b else Establish(env, max, b, |b.rows| + 1, t.addr);
    if t.addr in b'.connections then Ask(env, b', t) else GiveUp(env, b', t)
  }

  ghost function SettleAll(env: Env, max: nat, b: Backend, targets: seq<Target>): Backend
    decreases |targets|
  {
    if |targets| == 0 then b else SettleAll(env, max, Settle(env, max, b, targets[0]), targets[1..])
  }

  /** The targets of a refresh that starts when the clock shows `now`: the stale rows, each once,
      in any order. */
  ghost predicate TargetsOf(targets: seq<Target>, rows: Rows, now: int, ttlMs: u64) {
    && (forall i :: 0 <= i < |targets| ==>
          && targets[i].addr in rows && Stale(rows[targets[i].addr], now, ttlMs)
          && targets[i] == TargetOf(rows[targets[i].addr]))
    && (forall i, j :: 0 <= i < j < |targets| ==> targets[i].addr != targets[j].addr)
    && (forall a <- rows :: Stale(rows[a], now, ttlMs) ==> exists i :: 0 <= i < |targets| && targets[i].addr == a)
  }

  /** One refresh; the first interaction is reading the clock. */
  ghost function Refresh(env: Env, cfg: Config, b: Backend, targets: seq<Target>): Backend {
    SettleAll(env, cfg.max, b.(turn := b.turn + 1), targets)
  }

  // ---------------------------------------------------------------------------------------------
  // What the backend keeps.

  predicate Keyed(rows: Rows) {
    forall a <- rows :: rows[a].addr == a && (rows[a].lastSnapshot.Some? ==> rows[a].recordTimestamp >= 0)
  }

  /** Every pooled address has a row. */
  predicate RowsCover(connections: Connections, rows: Rows) {
    forall a <- connections :: a in rows
  }

  predicate BackendInv(b: Backend, max: nat) {
    Keyed(b.rows) && RowsCover(b.connections, b.rows) && PoolInv(b.connections, max)
  }

  /** Every row with a snapshot is pooled. */
  predicate SnapshotsPooled(b: Backend) {
    forall a <- b.rows :: b.rows[a].lastSnapshot.Some? ==> a in b.connections
  }

  /** A row fit to be shown: a snapshot recorded no earlier than `cutoff`, or an error. */
  predicate Good(row: Row, cutoff: int) {
    if row.lastSnapshot.Some? then row.recordTimestamp >= cutoff else row.lastError.Some?
  }

  /** The pool after that section is what admission leaves in it, and the rows lose what admission
      removes. */
  lemma EnterIsAdmit(max: nat, b: Backend, index: nat, conn: Conn, existing: Option<SocketAddr>, now: int)
    requires Found(b.connections, conn, existing) && conn.addr !in b.connections
    ensures var room := |Kept(b.connections, existing)| < max;
            EnterWith(b, index, conn, existing, room, now).connections ==
            Admit(b.connections, max, conn, existing).connections
  {
  }

  lemma EnterEffect(b: Backend, index: nat, conn: Conn, existing: Option<SocketAddr>, room: bool, now: int,
                    a: SocketAddr)
    requires existing.Some? ==> existing.value in b.connections
    requires conn.addr !in b.connections
    ensures var b' := EnterWith(b, index, conn, existing, room, now);
            && (a != conn.addr ==>
                  && (a in b'.connections ==> a in b.connections)
                  && (a in b'.rows ==> a in b.rows && b'.rows[a] == b.rows[a])
                  && (a !in b.connections && a in b.rows ==> a in b'.rows && b'.rows[a] == b.rows[a]))
            && (a in b'.connections && (a in b.connections ==> a in b.rows) ==> a in b'.rows)
            && b'.turn == b.turn + 2
  {
  }

  lemma EstablishEffect(env: Env, max: nat, b: Backend, index: nat, addr: SocketAddr, a: SocketAddr)
    ensures var b' := Establish(env, max, b, index, addr);
            && b'.turn >= b.turn
            && (a != addr ==>
                  && (a in b'.connections ==> a in b.connections)
                  && (a in b'.rows ==> a in b.rows && b'.rows[a] == b.rows[a])
                  && (a !in b.connections && a in b.rows ==> a in b'.rows && b'.rows[a] == b.rows[a]))
            && (a in b'.connections && (a in b.connections ==> a in b.rows) ==> a in b'.rows)
  {
    hide EnterWith, Kept, Clock;
    if addr !in b.connections && |b.connections| < max && env.connect(b.turn, addr).Some? {
      var conn := Conn(b.turn, addr, env.connect(b.turn, addr).value);
      var existing := FindHost(b.connections, conn);
      EnterEffect(b, index, conn, existing, |Kept(b.connections, existing)| < max, Clock(env, b.turn + 1), a);
    }
  }

  lemma EstablishKeepsPool(env: Env, max: nat, b: Backend, index: nat, addr: SocketAddr)
    requires PoolInv(b.connections, max)
    ensures PoolInv(Establish(env, max, b, index, addr).connections, max)
  {
    if addr !in b.connections && |b.connections| < max && env.connect(b.turn, addr).Some? {
      var conn := Conn(b.turn, addr, env.connect(b.turn, addr).value);
      var existing := FindHost(b.connections, conn);
      EnterIsAdmit(max, b, index, conn, existing, Clock(env, b.turn + 1));
      AdmitKeepsBound(b.connections, max, conn, existing);
      AdmitKeepsHostsApart(Judge(b.connections, max, conn, existing), b.connections, conn, existing);
    }
  }

  /** What handling a target may do to the backend it starts from: its own row ends up good or
      gone, other rows stay or go, and what is pooled has a row. */
  ghost predicate Effect(env: Env, b: Backend, b': Backend, addr: SocketAddr, a: SocketAddr) {
    && b'.turn >= b.turn
    && (a != addr && a in b'.rows ==> a in b.rows && b'.rows[a] == b.rows[a])
    && (a != addr && a !in b.connections && a in b.rows ==>
          a in b'.rows && b'.rows[a] == b.rows[a] && a !in b'.connections)
    && (addr in b'.rows ==>
          && b'.rows[addr].addr == addr
          && (b'.rows[addr].lastSnapshot.Some? ==> b'.rows[addr].recordTimestamp >= 0)
          && Good(b'.rows[addr], Clock(env, b.turn)))
    && (a in b'.connections && (a in b.connections ==> a in b.rows) ==> a in b'.rows)
  }

  lemma AskEffect(env: Env, b: Backend, t: Target, a: SocketAddr)
    ensures Effect(env, b, Ask(env, b, t), t.addr, a)
  {
    ClockForward(env, b.turn, b.turn + 1);
  }

  lemma GiveUpEffect(env: Env, b: Backend, t: Target, a: SocketAddr)
    requires t.addr !in b.connections
    ensures Effect(env, b, GiveUp(env, b, t), t.addr, a)
  {
  }

  lemma SettleEffect(env: Env, max: nat, b: Backend, t: Target, a: SocketAddr)
    ensures Effect(env, b, Settle(env, max, b, t), t.addr, a)
  {
    hide Establish, Ask, GiveUp;
    EstablishEffect(env, max, b, |b.rows| + 1, t.addr, a);
    var b' := if t.addr in b.connections then b else Establish(env, max, b, |b.rows| + 1, t.addr);
    ClockForward(env, b.turn, b'.turn);
    if t.addr in b'.connections {
      AskEffect(env, b', t, a);
    } else {
      GiveUpEffect(env, b', t, a);
    }
  }

  lemma AskKeepsPool(env: Env, max: nat, b: Backend, t: Target)
    requires PoolInv(b.connections, max) && t.addr in b.connections
    ensures PoolInv(Ask(env, b, t).connections, max)
  {
    KeysRemoved(b.connections, t.addr);
  }

  lemma SettleKeepsPool(env: Env, max: nat, b: Backend, t: Target)
    requires PoolInv(b.connections, max)
    ensures PoolInv(Settle(env, max, b, t).connections, max)
  {
    hide Establish, Ask, PoolInv, GiveUp;
    EstablishKeepsPool(env, max, b, |b.rows| + 1, t.addr);
    var b' := if t.addr in b.connections then b else Establish(env, max, b, |b.rows| + 1, t.addr);
    if t.addr in b'.connections {
      AskKeepsPool(env, max, b', t);
    } else {
      assert GiveUp(env, b', t).connections == b'.connections by { GiveUpKeepsPool(env, b', t); }
    }
  }

  lemma GiveUpKeepsPool(env: Env, b: Backend, t: Target)
    ensures GiveUp(env, b, t).connections == b.connections
  {
  }

  lemma SettleKeepsInv(env: Env, max: nat, b: Backend, t: Target)
    requires BackendInv(b, max)
    ensures BackendInv(Settle(env, max, b, t), max)
  {
    var b' := Settle(env, max, b, t);
    SettleKeepsPool(env, max, b, t);
    forall a | a in b'.rows
      ensures b'.rows[a].addr == a && (b'.rows[a].lastSnapshot.Some? ==> b'.rows[a].recordTimestamp >= 0)
    {
      SettleEffect(env, max, b, t, a);
    }
    forall a | a in b'.connections
      ensures a in b'.rows
    {
      SettleEffect(env, max, b, t, a);
    }
  }

  predicate Pending(targets: seq<Target>, a: SocketAddr) {
    exists i :: 0 <= i < |targets| && targets[i].addr == a
  }

  /** Rows are good except those still to be handled. */
  predicate GoodBut(rows: Rows, targets: seq<Target>, cutoff: int) {
    forall a <- rows :: Pending(targets, a) || Good(rows[a], cutoff)
  }

  lemma SettleMakesGood(env: Env, max: nat, b: Backend, targets: seq<Target>, cutoff: int)
    requires |targets| > 0
    requires cutoff <= Clock(env, b.turn)
    requires GoodBut(b.rows, targets, cutoff)
    ensures GoodBut(Settle(env, max, b, targets[0]).rows, targets[1..], cutoff)
  {
    var b' := Settle(env, max, b, targets[0]);
    forall a | a in b'.rows
      ensures Pending(targets[1..], a) || Good(b'.rows[a], cutoff)
    {
      SettleEffect(env, max, b, targets[0], a);
      if a != targets[0].addr && Pending(targets, a) {
        var i :| 0 <= i < |targets| && targets[i].addr == a;
        assert targets[1..][i - 1].addr == a;
      }
    }
  }

  lemma {:induction false} SettleAllMakesGood(env: Env, max: nat, b: Backend, targets: seq<Target>, cutoff: int)
    requires BackendInv(b, max)
    requires cutoff <= Clock(env, b.turn)
    requires GoodBut(b.rows, targets, cutoff)
    ensures BackendInv(SettleAll(env, max, b, targets), max)
    ensures forall a <- SettleAll(env, max, b, targets).rows ::
              Good(SettleAll(env, max, b, targets).rows[a], cutoff)
    decreases |targets|
  {
    if |targets| > 0 {
      var b' := Settle(env, max, b, targets[0]);
      SettleMakesGood(env, max, b, targets, cutoff);
      SettleKeepsInv(env, max, b, targets[0]);
      SettleEffect(env, max, b, targets[0], targets[0].addr);
      ClockForward(env, b.turn, b'.turn);
      SettleAllMakesGood(env, max, b', targets[1..], cutoff);
    }
  }

  lemma FreshIsGood(row: Row, now: int, ttlMs: u64)
    requires 0 <= now <= I64_MAX && !Stale(row, now, ttlMs)
    requires row.recordTimestamp >= 0
    ensures Good(row, now - ttlMs)
  {
  }

  lemma StaleOnesPending(rows: Rows, targets: seq<Target>, now: int, ttlMs: u64)
    requires Keyed(rows) && 0 <= now <= I64_MAX
    requires TargetsOf(targets, rows, now, ttlMs)
    ensures GoodBut(rows, targets, now - ttlMs)
  {
    forall a | a in rows
      ensures Pending(targets, a) || Good(rows[a], now - ttlMs)
    {
      if !Stale(rows[a], now, ttlMs) {
        FreshIsGood(rows[a], now, ttlMs);
      }
    }
  }

  /** After a refresh, whatever connected and answered or did not: every row shows a snapshot
      recorded no earlier than the start of the refresh minus the time to live, or no snapshot and
      an error; every pooled address has a row; the pool is within its bound, one connection per
      host. */
  lemma RefreshLeavesGoodRows(env: Env, cfg: Config, b: Backend, targets: seq<Target>)
    requires BackendInv(b, cfg.max) && Clock(env, b.turn) <= I64_MAX
    requires TargetsOf(targets, b.rows, Clock(env, b.turn), cfg.ttlMs)
    ensures var b' := Refresh(env, cfg, b, targets);
            && BackendInv(b', cfg.max)
            && forall a <- b'.rows :: Good(b'.rows[a], Clock(env, b.turn) - cfg.ttlMs)
  {
    hide Settle, SettleAll;
    var b0 := b.(turn := b.turn + 1);
    ClockForward(env, b.turn, b0.turn);
    StaleOnesPending(b.rows, targets, Clock(env, b.turn), cfg.ttlMs);
    SettleAllMakesGood(env, cfg.max, b0, targets, Clock(env, b.turn) - cfg.ttlMs);
  }

  // ---------------------------------------------------------------------------------------------
  // What connecting and handling a target come to, address by address.

  /** Connecting once: nothing happens if the address is pooled or the pool is full; else, if the
      connect brings a hostname, the address is pooled with it in place of whatever had that host, and
      has a row. */
  ghost predicate Connects(env: Env, max: nat, b: Backend, index: nat, addr: SocketAddr, b': Backend) {
    if addr in b.connections || |b.connections| >= max then b' == b
    else match env.connect(b.turn, addr)
      case None => b' == b.(turn := b.turn + 1)
      case Some(hostname) =>
        && b'.turn == b.turn + 2
        && addr in b'.connections && b'.connections[addr] == Conn(b.turn, addr, hostname)
        && addr in b'.rows
        && b'.rows[addr] ==
           (if addr in b.rows then b.rows[addr].(connectionNo := index, hostname := hostname)
            else Row(index, hostname, Clock(env, b.turn + 1), addr, None, None))
        && forall a | a != addr :: KeptApart(b, hostname, b', a)
  }

  /** Another address keeps its pool entry and row unless it had the same host. */
  predicate KeptApart(b: Backend, hostname: string, b': Backend, a: SocketAddr) {
    var same := a in b.connections && b.connections[a].hostname == hostname;
    && (a in b'.connections <==> a in b.connections && !same)
    && (a in b'.connections ==> b'.connections[a] == b.connections[a])
    && (a in b'.rows <==> a in b.rows && !same)
    && (a in b'.rows ==> b'.rows[a] == b.rows[a])
  }

  lemma EnterApart(b: Backend, index: nat, conn: Conn, existing: Option<SocketAddr>, now: int, a: SocketAddr)
    requires OnePerHost(b.connections) && Found(b.connections, conn, existing) && a != conn.addr
    ensures KeptApart(b, conn.hostname, EnterWith(b, index, conn, existing, true, now), a)
  {
    if existing.None? && a in b.connections {
      assert !SameHost(b.connections, conn, a);
    }
  }

  lemma EnterConnects(env: Env, max: nat, b: Backend, index: nat, conn: Conn, existing: Option<SocketAddr>)
    requires OnePerHost(b.connections) && Found(b.connections, conn, existing)
    requires conn.addr !in b.connections && |b.connections| < max
    requires env.connect(b.turn, conn.addr) == Some(conn.hostname) && conn.id == b.turn
    ensures |Kept(b.connections, existing)| < max
    ensures Connects(
              env, max, b, index, conn.addr,
              EnterWith(b, index, conn, existing, true, Clock(env, b.turn + 1)))
  {
    hide Clock, KeptApart, EnterWith, Kept, OnePerHost;
    var b' := EnterWith(b, index, conn, existing, true, Clock(env, b.turn + 1));
    KeptIsSmaller(b.connections, existing);
    forall a | a != conn.addr
      ensures KeptApart(b, conn.hostname, b', a)
    {
      EnterApart(b, index, conn, existing, Clock(env, b.turn + 1), a);
    }
    EnterOwn(env, b, index, conn, existing);
  }

  lemma KeptIsSmaller(connections: Connections, existing: Option<SocketAddr>)
    requires existing.Some? ==> existing.value in connections
    ensures |Kept(connections, existing)| <= |connections|
  {
    if existing.Some? {
      KeysRemoved(connections, existing.value);
    }
  }

  lemma EnterOwn(env: Env, b: Backend, index: nat, conn: Conn, existing: Option<SocketAddr>)
    requires existing.Some? ==> existing.value in b.connections
    requires conn.addr !in b.connections
    ensures var b' := EnterWith(b, index, conn, existing, true, Clock(env, b.turn + 1));
            && b'.turn == b.turn + 2
            && conn.addr in b'.connections && b'.connections[conn.addr] == conn
            && conn.addr in b'.rows
            && b'.rows[conn.addr] ==
               (if conn.addr in b.rows then b.rows[conn.addr].(connectionNo := index, hostname := conn.hostname)
                else Row(index, conn.hostname, Clock(env, b.turn + 1), conn.addr, None, None))
  {
    hide Clock;
  }

  lemma EstablishConnects(env: Env, max: nat, b: Backend, index: nat, addr: SocketAddr)
    requires OnePerHost(b.connections)
    ensures Connects(env, max, b, index, addr, Establish(env, max, b, index, addr))
  {
    hide EnterWith, Kept, Clock;
    if addr !in b.connections && |b.connections| < max && env.connect(b.turn, addr).Some? {
      var conn := Conn(b.turn, addr, env.connect(b.turn, addr).value);
      EnterConnects(env, max, b, index, conn, FindHost(b.connections, conn));
    }
  }

  /** After connecting the address is pooled exactly if it was before, or the pool had room and the
      connect succeeded. */
  lemma PooledAfterConnecting(env: Env, max: nat, b: Backend, index: nat, addr: SocketAddr, b': Backend)
    requires Connects(env, max, b, index, addr, b')
    ensures addr in b'.connections <==>
            addr in b.connections || (|b.connections| < max && env.connect(b.turn, addr).Some?)
    ensures addr in b'.connections && addr !in b.connections ==>
              && addr in b'.rows
              && b'.rows[addr].hostname == b'.connections[addr].hostname == env.connect(b.turn, addr).value
              && b'.rows[addr].connectionNo == index
  {
  }

  /** The row of a node that has answered. */
  function AnsweredRow(env: Env, t: Target, x: Taken, k: nat): Row {
    Row(t.connectionNo, x.hostname, Clock(env, k), t.addr, Some(x), None)
  }

  /** Querying a pooled node. */
  ghost predicate Queried(env: Env, b: Backend, t: Target, b': Backend) {
    match env.query(b.turn, t.addr)
    case Some(x) =>
      && b'.connections == b.connections && b'.turn == b.turn + 2
      && b'.rows == b.rows[t.addr := AnsweredRow(env, t, x, b.turn + 1)]
    case None =>
      b'.connections == b.connections - {t.addr} && b'.rows == b.rows - {t.addr} && b'.turn == b.turn + 1
  }

  /** Giving up a node that could not be connected. */
  ghost predicate GivenUp(env: Env, b: Backend, t: Target, b': Backend) {
    && b'.connections == b.connections && b'.turn >= b.turn
    && b'.rows ==
       if t.hadSnapshot
       then b.rows[t.addr := Row(t.connectionNo, t.hostname, Clock(env, b.turn), t.addr, None, Some(UNAVAILABLE))]
       else b.rows - {t.addr}
  }

  /** Handling a target: connect it if it is not pooled, then query it or give it up. */
  ghost predicate Handled(env: Env, max: nat, b: Backend, t: Target, b': Backend) {
    exists mid :: Made(env, max, b, t, mid) && Settled(env, mid, t, b')
  }

  /** The connection is there, or has been tried. */
  ghost predicate Made(env: Env, max: nat, b: Backend, t: Target, mid: Backend) {
    if t.addr in b.connections then mid == b else Connects(env, max, b, |b.rows| + 1, t.addr, mid)
  }

  ghost predicate Settled(env: Env, mid: Backend, t: Target, b': Backend) {
    if t.addr in mid.connections then Queried(env, mid, t, b') else GivenUp(env, mid, t, b')
  }

  lemma SettleHandles(env: Env, max: nat, b: Backend, t: Target)
    requires OnePerHost(b.connections)
    ensures Handled(env, max, b, t, Settle(env, max, b, t))
  {
    hide Establish, Ask, GiveUp, Connects, Queried, GivenUp, OnePerHost;
    EstablishConnects(env, max, b, |b.rows| + 1, t.addr);
    var mid := if t.addr in b.connections then b else Establish(env, max, b, |b.rows| + 1, t.addr);
    AskQueries(env, mid, t);
    GiveUpGives(env, mid, t);
    assert Made(env, max, b, t, mid) && Settled(env, mid, t, Settle(env, max, b, t));
  }

  lemma AskQueries(env: Env, b: Backend, t: Target)
    ensures Queried(env, b, t, Ask(env, b, t))
  {
    hide Clock;
  }

  lemma GiveUpGives(env: Env, b: Backend, t: Target)
    ensures GivenUp(env, b, t, GiveUp(env, b, t))
  {
    hide Clock;
  }

  /** The backend before each target of a refresh and after the last, each handled in turn. */
  ghost predicate Trace(env: Env, max: nat, targets: seq<Target>, trace: seq<Backend>) {
    && |trace| == |targets| + 1
    && forall i :: 0 <= i < |targets| ==> Handled(env, max, trace[i], targets[i], trace[i + 1])
  }

  // ---------------------------------------------------------------------------------------------
  // The backend object.

  class LocalApi {
    const cfg: Config
    var connections: Connections
    var rows: Rows
    var turn: nat

    ghost function State(): Backend
      reads this
    {
      Backend(connections, rows, turn)
    }

    ghost predicate Valid()
      reads this
    {
      BackendInv(State(), cfg.max)
    }

    /** Nothing is connected yet; the rows are those given. If they come from discovery, none has a
        snapshot, and every row with a snapshot is (vacuously) pooled. */
    constructor (cfg: Config, discovered: Rows)
      requires Keyed(discovered)
      ensures Valid() && this.cfg == cfg && State() == Backend(map[], discovered, 0)
      ensures (forall a <- discovered :: discovered[a].lastSnapshot.None?) ==> SnapshotsPooled(State())
    {
      this.cfg := cfg;
      connections := map[];
      rows := discovered;
      turn := 0;
    }

    /** New nodes get a row each, numbered on from the rows there were. */
    method AddDiscoveredNodes(nodes: seq<Node>)
      modifies this`rows
      ensures rows == AddNodes(old(rows), |old(rows)|, nodes)
    {
      var base := |rows|;
      for i := 0 to |nodes|
        invariant rows == AddNodes(old(rows), base, nodes[..i])
      {
        assert nodes[..i + 1][..i] == nodes[..i];
        if HostShown(rows, nodes[i].hostname) {
          continue;
        }
        if nodes[i].addr !in rows {
          rows := rows[nodes[i].addr := DiscoveredRow(base + i + 1, nodes[i])];
        }
      }
      assert nodes[..|nodes|] == nodes;
    }

    /** Connects one node, replacing an older connection to the same host. */
    method EstablishOne(env: Env, index: nat, addr: SocketAddr)
      requires OnePerHost(connections)
      modifies this
      ensures State() == Establish(env, cfg.max, old(State()), index, addr)
      ensures Connects(env, cfg.max, old(State()), index, addr, State())
      ensures addr in connections <==>
                old(addr in connections) || (old(|connections|) < cfg.max && env.connect(old(turn), addr).Some?)
    {
      hide EnterWith, Kept, Clock, Connects, OnePerHost;
      EstablishConnects(env, cfg.max, State(), index, addr);
      PooledAfterConnecting(
        env, cfg.max, State(), index, addr, Establish(env, cfg.max, State(), index, addr));
      if addr in connections || |connections| >= cfg.max {
        return;
      }
      var hostname := env.connect(turn, addr);
      if hostname.None? {
        turn := turn + 1;
        return;
      }
      AdmitConnection(env, index, Conn(turn, addr, hostname.value));
    }

    /** The pool section for a new connection, and the row that follows it. */
    method AdmitConnection(env: Env, index: nat, conn: Conn)
      requires OnePerHost(connections)
      modifies this
      ensures var existing := FindHost(old(connections), conn);
              var room := |Kept(old(connections), existing)| < cfg.max;
              State() == EnterWith(old(State()), index, conn, existing, room, Clock(env, old(turn) + 1))
    {
      hide Placeholder, Clock;
      var existing := FindExisting(connections, conn);
      if existing.Some? {
        connections := connections - {existing.value};
        rows := rows - {existing.value};
      }
      if |connections| < cfg.max {
        connections := connections[conn.addr := conn];
        rows := Placeholder(rows, index, conn, Clock(env, turn + 1));
      }
      turn := turn + 2;
    }

    /** The search for a pooled connection to the same host. */
    static method FindExisting(connections: Connections, conn: Conn) returns (existing: Option<SocketAddr>)
      requires OnePerHost(connections)
      ensures existing == FindHost(connections, conn)
    {
      ghost var found := FindHost(connections, conn);
      if at :| at in connections && connections[at].hostname == conn.hostname {
        assert SameHost(connections, conn, at) && found == Some(at);
        return Some(at);
      }
      assert found == None;
      return None;
    }

    /** The rows to refresh, in whatever order the map hands them out. */
    method StaleTargets(now: int) returns (targets: seq<Target>)
      requires Keyed(rows)
      ensures TargetsOf(targets, rows, now, cfg.ttlMs)
      ensures forall i :: 0 <= i < |targets| ==>
                var row := rows[targets[i].addr];
                targets[i] == Target(row.connectionNo, row.hostname, row.addr, row.lastSnapshot.Some?)
      ensures cfg.ttlMs <= I64_MAX && 0 <= now <= I64_MAX ==>
                forall a <- rows | rows[a].recordTimestamp >= 0 ::
                  (exists i :: 0 <= i < |targets| && targets[i].addr == a) <==>
                  rows[a].lastSnapshot.None? || now - rows[a].recordTimestamp > cfg.ttlMs
    {
      hide Stale;
      targets := [];
      var todo := rows.Keys;
      while todo != {}
        invariant todo <= rows.Keys
        invariant forall i :: 0 <= i < |targets| ==>
                    && targets[i].addr in rows && targets[i].addr !in todo
                    && Stale(rows[targets[i].addr], now, cfg.ttlMs) && targets[i] == TargetOf(rows[targets[i].addr])
        invariant forall i, j :: 0 <= i < j < |targets| ==> targets[i].addr != targets[j].addr
        invariant forall a <- rows :: a !in todo && Stale(rows[a], now, cfg.ttlMs) ==>
                    exists i :: 0 <= i < |targets| && targets[i].addr == a
        decreases |todo|
      {
        var a :| a in todo;
        todo := todo - {a};
        if Stale(rows[a], now, cfg.ttlMs) {
          ghost var before := targets;
          targets := targets + [TargetOf(rows[a])];
          assert targets[|before|].addr == a;
          assert forall i :: 0 <= i < |before| ==> targets[i] == before[i];
        }
      }
      forall a | a in rows && rows[a].recordTimestamp >= 0 && cfg.ttlMs <= I64_MAX && 0 <= now <= I64_MAX
        ensures Stale(rows[a], now, cfg.ttlMs) <==>
                rows[a].lastSnapshot.None? || now - rows[a].recordTimestamp > cfg.ttlMs
      {
        StaleExactly(rows[a], now, cfg.ttlMs);
      }
    }

    /** `refresh_stale_cache_for_query`: the targets are fixed at the start, then handled one by one. */
    method RefreshStaleCacheForQuery(env: Env) returns (targets: seq<Target>, ghost trace: seq<Backend>)
      requires Valid()
      modifies this
      ensures Valid()
      ensures Trace(env, cfg.max, targets, trace)
      ensures trace[0] == old(State()).(turn := old(turn) + 1) && trace[|targets|] == State()
      ensures TargetsOf(targets, old(rows), Clock(env, old(turn)), cfg.ttlMs)
      ensures State() == Refresh(env, cfg, old(State()), targets)
    {
      hide Settle, SettleAll, TargetsOf;
      var now := Clock(env, turn);
      turn := turn + 1;
      targets := StaleTargets(now);
      trace := HandleAll(env, targets);
    }

    method HandleAll(env: Env, targets: seq<Target>) returns (ghost trace: seq<Backend>)
      requires Valid()
      modifies this
      ensures Valid()
      ensures State() == SettleAll(env, cfg.max, old(State()), targets)
      ensures Trace(env, cfg.max, targets, trace) && trace[0] == old(State()) && trace[|targets|] == State()
    {
      hide Handled, Settle;
      ghost var result := SettleAll(env, cfg.max, State(), targets);
      trace := [State()];
      assert targets[0..] == targets;
      for i := 0 to |targets|
        invariant Valid()
        invariant result == SettleAll(env, cfg.max, State(), targets[i..])
        invariant |trace| == i + 1 && trace[0] == old(State()) && trace[i] == State()
        invariant forall k :: 0 <= k < i ==> Handled(env, cfg.max, trace[k], targets[k], trace[k + 1])
      {
        SettleKeepsInv(env, cfg.max, State(), targets[i]);
        SettleHandles(env, cfg.max, State(), targets[i]);
        assert targets[i..][0] == targets[i] && targets[i..][1..] == targets[i + 1..];
        Handle(env, targets[i]);
        trace := trace + [State()];
      }
    }

    method Handle(env: Env, t: Target)
      requires OnePerHost(connections)
      modifies this
      ensures State() == Settle(env, cfg.max, old(State()), t)
    {
      hide Establish, Ask, GiveUp;
      if t.addr !in connections {
        EstablishOne(env, |rows| + 1, t.addr);
      }
      if t.addr in connections {
        AskNode(env, t);
      } else {
        GiveUpNode(env, t);
      }
    }

    /** Afterwards a pooled node is still pooled and has a snapshot taken during the call, or is
        neither pooled nor shown; all others stay as they were. */
    method AskNode(env: Env, t: Target)
      modifies this
      ensures State() == Ask(env, old(State()), t)
      ensures match env.query(old(turn), t.addr)
              case Some(x) =>
                && t.addr in rows && rows[t.addr].lastSnapshot == Some(x) && rows[t.addr].hostname == x.hostname
                && rows[t.addr].lastError == None && rows[t.addr].connectionNo == t.connectionNo
                && connections == old(connections)
              case None => t.addr !in rows && t.addr !in connections
      ensures old(t.addr in connections) ==> (t.addr in connections <==> t.addr in rows)
      ensures t.addr in rows ==>
                && rows[t.addr].lastSnapshot.Some?
                && Clock(env, old(turn)) <= rows[t.addr].recordTimestamp <= Clock(env, turn)
      ensures connections - {t.addr} == old(connections) - {t.addr} && rows - {t.addr} == old(rows) - {t.addr}
    {
      ClockForward(env, turn, turn + 1);
      ClockForward(env, turn, turn + 2);
      var answer := env.query(turn, t.addr);
      turn := turn + 1;
      if answer.Some? {
        rows := Upsert(rows, t.connectionNo, t.addr, answer.value, Clock(env, turn));
        turn := turn + 1;
      } else {
        connections := connections - {t.addr};
        rows := rows - {t.addr};
      }
    }

    /** Afterwards a node that had a snapshot shows an error in its place, and any other node has no
        row; the pool and all other rows stay as they were. */
    method GiveUpNode(env: Env, t: Target)
      modifies this
      ensures State() == GiveUp(env, old(State()), t)
      ensures t.addr in rows <==> t.hadSnapshot
      ensures t.addr in rows ==>
                && rows[t.addr].lastSnapshot.None? && rows[t.addr].lastError.Some?
                && rows[t.addr].hostname == t.hostname && rows[t.addr].connectionNo == t.connectionNo
                && rows[t.addr].recordTimestamp == Clock(env, old(turn))
      ensures connections == old(connections) && rows - {t.addr} == old(rows) - {t.addr}
    {
      if t.hadSnapshot {
        rows := MarkStale(rows, t.connectionNo, t.addr, t.hostname, UNAVAILABLE, Clock(env, turn));
        turn := turn + 1;
      } else {
        rows := rows - {t.addr};
      }
    }
  }
}

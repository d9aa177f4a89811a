/** The backend over whole histories of discovery, connecting and QUERY, and what becomes of a node
    that no longer answers (crates/client-backend/src/local_api.rs). */
module QueryHistory {
  import opened Results
  import opened Net
  import opened ConnectionPool
  import opened QueryRefresh

  // ---------------------------------------------------------------------------------------------
  // Histories.

  datatype Event =
    | Discover(nodes: seq<Node>)
    | Connect(index: nat, addr: SocketAddr)
    | Query(targets: seq<Target>)

  /** A QUERY handles the rows that are stale when it starts, in any order. */
  ghost predicate Possible(env: Env, cfg: Config, b: Backend, e: Event) {
    e.Query? ==> TargetsOf(e.targets, b.rows, Clock(env, b.turn), cfg.ttlMs)
  }

  ghost function After(env: Env, cfg: Config, b: Backend, e: Event): Backend {
    match e
    case Discover(nodes) => b.(rows := AddNodes(b.rows, |b.rows|, nodes))
    case Connect(index, addr) => Establish(env, cfg.max, b, index, addr)
    case Query(targets) => Refresh(env, cfg, b, targets)
  }

  ghost predicate IsHistory(env: Env, cfg: Config, found: seq<Node>, states: seq<Backend>, events: seq<Event>) {
    && |states| == |events| + 1
    && states[0] == Backend(map[], BuildCache(found), 0)
    && forall i {:trigger events[i]} :: 0 <= i < |events| ==>
         Possible(env, cfg, states[i], events[i]) && states[i + 1] == After(env, cfg, states[i], events[i])
  }

  // ---------------------------------------------------------------------------------------------
  // Every row with a snapshot is pooled.

  lemma {:induction false} BuildCacheRows(nodes: seq<Node>, a: SocketAddr)
    requires a in BuildCache(nodes)
    ensures BuildCache(nodes)[a].addr == a && BuildCache(nodes)[a].lastSnapshot.None?
  {
    if |nodes| > 0 && a != nodes[|nodes| - 1].addr {
      BuildCacheRows(nodes[..|nodes| - 1], a);
    }
  }

  /** Discovery only adds rows, without a snapshot. */
  lemma {:induction false} AddNodesRows(rows: Rows, base: nat, nodes: seq<Node>, a: SocketAddr)
    ensures var rows' := AddNodes(rows, base, nodes);
            && (a in rows ==> a in rows' && rows'[a] == rows[a])
            && (a !in rows && a in rows' ==> rows'[a].addr == a && rows'[a].lastSnapshot.None?)
  {
    if |nodes| > 0 {
      AddNodesRows(rows, base, nodes[..|nodes| - 1], a);
    }
  }

  /** The row shows node number `i`, under the number that follows the rows there were. */
  predicate ShowsNode(row: Row, base: nat, nodes: seq<Node>, i: nat)
    requires i < |nodes|
  {
    row == Row(base + i + 1, nodes[i].hostname, nodes[i].seenAt, nodes[i].addr, None, None)
  }

  /** A row that is new after a discovery shows one of the nodes found, at its address, of a host that
      had no row. */
  lemma {:induction false} NewRowsShowNodes(rows: Rows, base: nat, nodes: seq<Node>, a: SocketAddr)
    requires a !in rows && a in AddNodes(rows, base, nodes)
    ensures exists i :: 0 <= i < |nodes| && nodes[i].addr == a &&
              ShowsNode(AddNodes(rows, base, nodes)[a], base, nodes, i) &&
              !HostShown(rows, nodes[i].hostname)
  {
    var n := |nodes| - 1;
    var before := AddNodes(rows, base, nodes[..n]);
    if a in before {
      NewRowsShowNodes(rows, base, nodes[..n], a);
      var i :| 0 <= i < n && nodes[..n][i].addr == a && ShowsNode(before[a], base, nodes[..n], i) &&
        !HostShown(rows, nodes[..n][i].hostname);
      assert nodes[i] == nodes[..n][i];
      assert ShowsNode(AddNodes(rows, base, nodes)[a], base, nodes, i);
    } else {
      if o :| o in rows && rows[o].hostname == nodes[n].hostname {
        AddNodesRows(rows, base, nodes[..n], o);
        assert HostShown(before, nodes[n].hostname);
        assert false;
      }
      assert ShowsNode(AddNodes(rows, base, nodes)[a], base, nodes, n);
    }
  }

  /** Every node found has a row afterwards, at its address or of its host. */
  lemma {:induction false} EveryNodeIsShown(rows: Rows, base: nat, nodes: seq<Node>, i: nat)
    requires i < |nodes|
    ensures var rows' := AddNodes(rows, base, nodes);
            nodes[i].addr in rows' || HostShown(rows', nodes[i].hostname)
  {
    var n := |nodes| - 1;
    var before := AddNodes(rows, base, nodes[..n]);
    if i < n {
      EveryNodeIsShown(rows, base, nodes[..n], i);
      if nodes[i].addr !in before {
        var o :| o in before && before[o].hostname == nodes[i].hostname;
        assert AddNodes(rows, base, nodes)[o] == before[o];
      }
    }
  }

  /** No later node was found at the address of this one. */
  predicate LastThere(nodes: seq<Node>, i: nat)
    requires i < |nodes|
  {
    forall k :: i < k < |nodes| ==> nodes[k].addr != nodes[i].addr
  }

  /** There are rows at the start at exactly the addresses found. */
  lemma {:induction false} StartAddresses(nodes: seq<Node>, a: SocketAddr)
    ensures a in BuildCache(nodes) <==> exists i :: 0 <= i < |nodes| && nodes[i].addr == a
  {
    if |nodes| > 0 {
      var n := |nodes| - 1;
      StartAddresses(nodes[..n], a);
      if i :| 0 <= i < |nodes| && nodes[i].addr == a {
        assert i < n ==> nodes[..n][i].addr == a;
      }
    }
  }

  /** Each of them shows the last node found there. */
  lemma {:induction false} StartShowsNodes(nodes: seq<Node>, i: nat)
    requires i < |nodes| && LastThere(nodes, i)
    ensures nodes[i].addr in BuildCache(nodes) && ShowsNode(BuildCache(nodes)[nodes[i].addr], 0, nodes, i)
  {
    var n := |nodes| - 1;
    if i < n {
      assert nodes[..n][i] == nodes[i];
      StartShowsNodes(nodes[..n], i);
      assert nodes[n].addr != nodes[i].addr;
    }
  }

  /** What `SnapshotsPooled` says of one address. */
  predicate PooledAt(b: Backend, a: SocketAddr) {
    a in b.rows && b.rows[a].lastSnapshot.Some? ==> a in b.connections
  }

  lemma EnterKeepsPooled(b: Backend, index: nat, conn: Conn, existing: Option<SocketAddr>, room: bool, now: int,
                         a: SocketAddr)
    requires PooledAt(b, a) && PooledAt(b, conn.addr) && conn.addr !in b.connections
    ensures PooledAt(EnterWith(b, index, conn, existing, room, now), a)
  {
  }

  lemma EstablishKeepsPooled(env: Env, max: nat, b: Backend, index: nat, addr: SocketAddr, a: SocketAddr)
    requires PooledAt(b, a) && PooledAt(b, addr)
    ensures PooledAt(Establish(env, max, b, index, addr), a)
  {
    hide EnterWith, Kept, Clock, PooledAt;
    if addr !in b.connections && |b.connections| < max && env.connect(b.turn, addr).Some? {
      var conn := Conn(b.turn, addr, env.connect(b.turn, addr).value);
      var existing := FindHost(b.connections, conn);
      EnterKeepsPooled(b, index, conn, existing, |Kept(b.connections, existing)| < max, Clock(env, b.turn + 1), a);
    } else {
      NothingEntered(env, max, b, index, addr, a);
    }
  }

  lemma NothingEntered(env: Env, max: nat, b: Backend, index: nat, addr: SocketAddr, a: SocketAddr)
    requires PooledAt(b, a)
    requires addr in b.connections || |b.connections| >= max || env.connect(b.turn, addr).None?
    ensures PooledAt(Establish(env, max, b, index, addr), a)
  {
  }

  lemma SettleKeepsPooled(env: Env, max: nat, b: Backend, t: Target, a: SocketAddr)
    requires PooledAt(b, a) && PooledAt(b, t.addr)
    ensures PooledAt(Settle(env, max, b, t), a)
  {
    hide Establish, Clock;
    EstablishKeepsPooled(env, max, b, |b.rows| + 1, t.addr, a);
  }

  lemma {:induction false} SettleAllKeepsPooled(env: Env, max: nat, b: Backend, targets: seq<Target>)
    requires SnapshotsPooled(b)
    ensures SnapshotsPooled(SettleAll(env, max, b, targets))
    decreases |targets|
  {
    hide Settle;
    if |targets| > 0 {
      var b' := Settle(env, max, b, targets[0]);
      forall a | a in b'.rows
        ensures b'.rows[a].lastSnapshot.Some? ==> a in b'.connections
      {
        SettleKeepsPooled(env, max, b, targets[0], a);
      }
      SettleAllKeepsPooled(env, max, b', targets[1..]);
    }
  }

  lemma {:induction false} SettleAllKeepsInv(env: Env, max: nat, b: Backend, targets: seq<Target>)
    requires BackendInv(b, max)
    ensures BackendInv(SettleAll(env, max, b, targets), max)
    decreases |targets|
  {
    hide Settle, BackendInv;
    if |targets| > 0 {
      SettleKeepsInv(env, max, b, targets[0]);
      SettleAllKeepsInv(env, max, Settle(env, max, b, targets[0]), targets[1..]);
    }
  }

  lemma EstablishKeepsInv(env: Env, max: nat, b: Backend, index: nat, addr: SocketAddr)
    requires BackendInv(b, max)
    ensures BackendInv(Establish(env, max, b, index, addr), max)
  {
    hide Establish, PoolInv;
    var b' := Establish(env, max, b, index, addr);
    EstablishKeepsPool(env, max, b, index, addr);
    forall a | a in b'.rows
      ensures b'.rows[a].addr == a && (b'.rows[a].lastSnapshot.Some? ==> b'.rows[a].recordTimestamp >= 0)
    {
      EstablishEffect(env, max, b, index, addr, a);
      EstablishOwnRow(env, max, b, index, addr);
    }
    forall a | a in b'.connections
      ensures a in b'.rows
    {
      EstablishEffect(env, max, b, index, addr, a);
    }
  }

  lemma EstablishOwnRow(env: Env, max: nat, b: Backend, index: nat, addr: SocketAddr)
    requires Keyed(b.rows)
    ensures var rows := Establish(env, max, b, index, addr).rows;
            addr in rows ==>
              rows[addr].addr == addr && (rows[addr].lastSnapshot.Some? ==> rows[addr].recordTimestamp >= 0)
  {
    hide Clock, EnterWith, Kept;
    if addr !in b.connections && |b.connections| < max && env.connect(b.turn, addr).Some? {
      var conn := Conn(b.turn, addr, env.connect(b.turn, addr).value);
      var existing := FindHost(b.connections, conn);
      EnterOwnRow(b, index, conn, existing, |Kept(b.connections, existing)| < max, Clock(env, b.turn + 1));
    }
  }

  lemma EnterOwnRow(b: Backend, index: nat, conn: Conn, existing: Option<SocketAddr>, room: bool, now: int)
    requires Keyed(b.rows)
    ensures var rows, a := EnterWith(b, index, conn, existing, room, now).rows, conn.addr;
            a in rows ==> rows[a].addr == a && (rows[a].lastSnapshot.Some? ==> rows[a].recordTimestamp >= 0)
  {
  }

  /** Every event keeps the backend's invariant and that rows with a snapshot are pooled. */
  lemma EventKeeps(env: Env, cfg: Config, b: Backend, e: Event)
    requires BackendInv(b, cfg.max) && SnapshotsPooled(b)
    ensures BackendInv(After(env, cfg, b, e), cfg.max) && SnapshotsPooled(After(env, cfg, b, e))
  {
    hide Establish, SettleAll, AddNodes, PoolInv;
    var b' := After(env, cfg, b, e);
    match e
    case Discover(nodes) =>
      forall a
        ensures a in b.rows ==> a in b'.rows && b'.rows[a] == b.rows[a]
        ensures a !in b.rows && a in b'.rows ==> b'.rows[a].addr == a && b'.rows[a].lastSnapshot.None?
      {
        AddNodesRows(b.rows, |b.rows|, nodes, a);
      }
    case Connect(index, addr) =>
      EstablishKeepsInv(env, cfg.max, b, index, addr);
      forall a | a in b'.rows
        ensures b'.rows[a].lastSnapshot.Some? ==> a in b'.connections
      {
        EstablishKeepsPooled(env, cfg.max, b, index, addr, a);
      }
    case Query(targets) =>
      SettleAllKeepsInv(env, cfg.max, b.(turn := b.turn + 1), targets);
      SettleAllKeepsPooled(env, cfg.max, b.(turn := b.turn + 1), targets);
  }

  /** In every state of every history: the pool is within its bound with one connection per host,
      every pooled address has a row, and every row with a snapshot is pooled. */
  lemma {:induction false} SnapshotsStayPooled(env: Env, cfg: Config, found: seq<Node>, states: seq<Backend>,
                                               events: seq<Event>, n: nat)
    requires IsHistory(env, cfg, found, states, events) && n < |states|
    ensures BackendInv(states[n], cfg.max) && SnapshotsPooled(states[n])
  {
    if n == 0 {
      forall a | a in BuildCache(found)
        ensures BuildCache(found)[a].addr == a && BuildCache(found)[a].lastSnapshot.None?
      {
        BuildCacheRows(found, a);
      }
    } else {
      SnapshotsStayPooled(env, cfg, found, states, events, n - 1);
      var last := events[n - 1];
      EventKeeps(env, cfg, states[n - 1], last);
    }
  }

  // ---------------------------------------------------------------------------------------------
  // When a pool entry is replaced.

  /** Handling target `t` connects to a host whose connection so far is the one at `a`. */
  predicate Replaces(env: Env, max: nat, b: Backend, t: Target, a: SocketAddr) {
    && t.addr !in b.connections && |b.connections| < max
    && env.connect(b.turn, t.addr).Some?
    && a in b.connections && b.connections[a].hostname == env.connect(b.turn, t.addr).value
  }

  lemma EnterPooled(b: Backend, index: nat, conn: Conn, existing: Option<SocketAddr>, room: bool, now: int,
                    a: SocketAddr)
    requires a != conn.addr
    ensures a in EnterWith(b, index, conn, existing, room, now).connections <==>
            a in b.connections && existing != Some(a)
  {
  }

  lemma EstablishPooled(env: Env, max: nat, b: Backend, index: nat, t: Target, a: SocketAddr)
    requires OnePerHost(b.connections) && a != t.addr
    ensures a in Establish(env, max, b, index, t.addr).connections <==>
            a in b.connections && !Replaces(env, max, b, t, a)
  {
    hide Clock, EnterWith, Kept;
    if t.addr !in b.connections && |b.connections| < max && env.connect(b.turn, t.addr).Some? {
      var conn := Conn(b.turn, t.addr, env.connect(b.turn, t.addr).value);
      var existing := FindHost(b.connections, conn);
      EnterPooled(b, index, conn, existing, |Kept(b.connections, existing)| < max, Clock(env, b.turn + 1), a);
      if Replaces(env, max, b, t, a) {
        assert SameHost(b.connections, conn, a);
      }
    }
  }

  /** Another target takes an address out of the pool in this way and in no other, and puts none
      in. */
  lemma SettlePooled(env: Env, max: nat, b: Backend, t: Target, a: SocketAddr)
    requires OnePerHost(b.connections) && a != t.addr
    ensures a in Settle(env, max, b, t).connections <==> a in b.connections && !Replaces(env, max, b, t, a)
  {
    hide Establish, Ask, GiveUp, Replaces, OnePerHost;
    EstablishPooled(env, max, b, |b.rows| + 1, t, a);
    var b' := if t.addr in b.connections then b else Establish(env, max, b, |b.rows| + 1, t.addr);
    AskPooled(env, b', t, a);
    GiveUpKeepsPool(env, b', t);
    if t.addr in b.connections {
      NoneReplaced(env, max, b, t, a);
    }
  }

  lemma AskPooled(env: Env, b: Backend, t: Target, a: SocketAddr)
    requires a != t.addr
    ensures a in Ask(env, b, t).connections <==> a in b.connections
  {
  }

  lemma NoneReplaced(env: Env, max: nat, b: Backend, t: Target, a: SocketAddr)
    requires t.addr in b.connections
    ensures !Replaces(env, max, b, t, a)
  {
  }

  /** The backend when the turn of target `i` comes. */
  ghost function AtTurn(env: Env, max: nat, b: Backend, targets: seq<Target>, i: nat): Backend
    requires i <= |targets|
  {
    SettleAll(env, max, b, targets[..i])
  }

  lemma {:induction false} SettleAllSplit(env: Env, max: nat, b: Backend, targets: seq<Target>, i: nat)
    requires i <= |targets|
    ensures SettleAll(env, max, b, targets) == SettleAll(env, max, AtTurn(env, max, b, targets, i), targets[i..])
    decreases |targets|
  {
    hide Settle;
    if i > 0 {
      assert targets[..i][0] == targets[0] && targets[..i][1..] == targets[1..][..i - 1];
      assert targets[1..][i - 1..] == targets[i..];
      SettleAllSplit(env, max, Settle(env, max, b, targets[0]), targets[1..], i - 1);
    } else {
      assert targets[0..] == targets && targets[..0] == [];
    }
  }

  lemma NextTurn(env: Env, max: nat, b: Backend, targets: seq<Target>, i: nat)
    requires i < |targets|
    ensures AtTurn(env, max, b, targets, i + 1) == Settle(env, max, AtTurn(env, max, b, targets, i), targets[i])
  {
    hide Settle;
    var upto := targets[..i + 1];
    SettleAllSplit(env, max, b, upto, i);
    assert upto[..i] == targets[..i] && upto[i..] == [targets[i]];
    var b' := AtTurn(env, max, b, targets, i);
    assert [targets[i]][1..] == [];
    assert SettleAll(env, max, b', [targets[i]]) == SettleAll(env, max, Settle(env, max, b', targets[i]), []);
  }

  predicate Distinct(targets: seq<Target>) {
    forall i, j :: 0 <= i < j < |targets| ==> targets[i].addr != targets[j].addr
  }

  /** An address is pooled when its turn comes if and only if it was pooled when the refresh began
      and no earlier target has replaced it. */
  lemma {:induction false} PooledAtTurn(env: Env, max: nat, b: Backend, targets: seq<Target>, i: nat, a: SocketAddr)
    requires BackendInv(b, max) && i <= |targets|
    requires forall j :: 0 <= j < i ==> targets[j].addr != a
    ensures a in AtTurn(env, max, b, targets, i).connections <==>
            && a in b.connections
            && forall j :: 0 <= j < i ==> !Replaces(env, max, AtTurn(env, max, b, targets, j), targets[j], a)
    ensures BackendInv(AtTurn(env, max, b, targets, i), max)
    ensures AtTurn(env, max, b, targets, i).turn >= b.turn
  {
    hide Settle, Replaces;
    if i > 0 {
      PooledAtTurn(env, max, b, targets, i - 1, a);
      NextTurn(env, max, b, targets, i - 1);
      var before := AtTurn(env, max, b, targets, i - 1);
      SettlePooled(env, max, before, targets[i - 1], a);
      SettleKeepsInv(env, max, before, targets[i - 1]);
      SettleEffect(env, max, before, targets[i - 1], a);
    }
  }

  // ---------------------------------------------------------------------------------------------
  // A node that no longer answers.

  /** From interaction `since` on, connects to the node and queries over its connection fail. */
  ghost predicate Silent(env: Env, a: SocketAddr, since: nat) {
    forall k: nat :: k >= since ==> env.connect(k, a) == None && env.query(k, a) == None
  }

  /** Shown, without a snapshot and with an error. */
  predicate ShownStale(b: Backend, a: SocketAddr) {
    a in b.rows && b.rows[a].lastSnapshot.None? && b.rows[a].lastError.Some?
  }

  /** The turn of a silent node: pooled, it goes; not pooled, it is shown as stale if it had a
      snapshot. */
  lemma SilentTurn(env: Env, max: nat, b: Backend, t: Target)
    requires Silent(env, t.addr, b.turn)
    ensures var b' := Settle(env, max, b, t);
            && t.addr !in b'.connections
            && (t.addr in b'.rows <==> t.addr !in b.connections && t.hadSnapshot)
            && (t.addr in b'.rows ==> ShownStale(b', t.addr))
  {
    hide Clock;
    assert env.connect(b.turn, t.addr) == None && env.query(b.turn, t.addr) == None;
  }

  /** Handling other targets neither brings an unpooled node back nor changes its row. */
  lemma {:induction false} OthersLeaveAlone(env: Env, max: nat, b: Backend, targets: seq<Target>, a: SocketAddr)
    requires a !in b.connections && forall i :: 0 <= i < |targets| ==> targets[i].addr != a
    ensures var b' := SettleAll(env, max, b, targets);
            && a !in b'.connections && (a in b'.rows <==> a in b.rows)
            && (a in b.rows ==> b'.rows[a] == b.rows[a])
            && b'.turn >= b.turn
    decreases |targets|
  {
    hide Settle;
    if |targets| > 0 {
      OtherLeavesAlone(env, max, b, targets[0], a);
      OthersLeaveAlone(env, max, Settle(env, max, b, targets[0]), targets[1..], a);
    }
  }

  lemma OtherLeavesAlone(env: Env, max: nat, b: Backend, t: Target, a: SocketAddr)
    requires a !in b.connections && a != t.addr
    ensures var b' := Settle(env, max, b, t);
            && a !in b'.connections && (a in b'.rows <==> a in b.rows)
            && (a in b.rows ==> b'.rows[a] == b.rows[a])
            && b'.turn >= b.turn
  {
    hide Establish, Clock;
    SettleEffect(env, max, b, t, a);
    EstablishEffect(env, max, b, |b.rows| + 1, t.addr, a);
  }

  lemma TurnForward(env: Env, max: nat, b: Backend, t: Target)
    ensures Settle(env, max, b, t).turn >= b.turn
  {
    hide Settle;
    SettleEffect(env, max, b, t, t.addr);
  }

  /** One refresh and a silent node among its targets: the node leaves the pool, and is shown, as
      stale, if and only if it had a snapshot and was not pooled when its turn came. */
  lemma SilentTarget(env: Env, max: nat, b: Backend, targets: seq<Target>, i: nat)
    requires BackendInv(b, max) && Distinct(targets) && i < |targets|
    requires Silent(env, targets[i].addr, b.turn)
    ensures var a := targets[i].addr;
            var b' := SettleAll(env, max, b, targets);
            && a !in b'.connections
            && (a in b'.rows <==> targets[i].hadSnapshot && a !in AtTurn(env, max, b, targets, i).connections)
            && (a in b'.rows ==> ShownStale(b', a))
            && b'.turn >= b.turn
  {
    hide Settle, SettleAll;
    var a, turn := targets[i].addr, AtTurn(env, max, b, targets, i);
    PooledAtTurn(env, max, b, targets, i, a);
    SilentTurn(env, max, turn, targets[i]);
    TurnForward(env, max, turn, targets[i]);
    NextTurn(env, max, b, targets, i);
    SettleAllSplit(env, max, b, targets, i + 1);
    OthersLeaveAlone(env, max, Settle(env, max, turn, targets[i]), targets[i + 1..], a);
  }

  /** Not pooled, and no snapshot to show. */
  predicate Faded(b: Backend, a: SocketAddr) {
    a !in b.connections && (a in b.rows ==> b.rows[a].lastSnapshot.None?)
  }

  /** A silent node that has faded stays so whatever happens, and a QUERY removes its row. */
  lemma FadedStays(env: Env, cfg: Config, b: Backend, e: Event, a: SocketAddr)
    requires BackendInv(b, cfg.max) && Possible(env, cfg, b, e)
    requires Faded(b, a) && Silent(env, a, b.turn)
    ensures var b' := After(env, cfg, b, e);
            Faded(b', a) && b'.turn >= b.turn && (e.Query? ==> a !in b'.rows)
  {
    hide SettleAll, AddNodes, Clock, PoolInv;
    match e
    case Discover(nodes) => AddNodesRows(b.rows, |b.rows|, nodes, a);
    case Connect(index, addr) =>
      assert env.connect(b.turn, a) == None;
      EstablishEffect(env, cfg.max, b, index, addr, a);
    case Query(targets) =>
      var b0 := b.(turn := b.turn + 1);
      if a in b.rows {
        var i :| 0 <= i < |targets| && targets[i].addr == a;
        SilentTarget(env, cfg.max, b0, targets, i);
      } else {
        OthersLeaveAlone(env, cfg.max, b0, targets, a);
      }
  }

  lemma {:induction false} FadedForGood(env: Env, cfg: Config, found: seq<Node>, states: seq<Backend>,
                                        events: seq<Event>, n: nat, m: nat, a: SocketAddr)
    requires IsHistory(env, cfg, found, states, events) && n <= m < |states|
    requires Faded(states[n], a) && Silent(env, a, states[n].turn)
    ensures Faded(states[m], a) && states[m].turn >= states[n].turn
    ensures m > n && events[m - 1].Query? ==> a !in states[m].rows
    decreases m
  {
    hide Faded, After, BackendInv;
    if n < m {
      FadedForGood(env, cfg, found, states, events, n, m - 1, a);
      SnapshotsStayPooled(env, cfg, found, states, events, m - 1);
      var last := events[m - 1];
      FadedStays(env, cfg, states[m - 1], last, a);
    }
  }

  /** One QUERY and a silent node with an expired snapshot. */
  lemma SilentRefresh(env: Env, cfg: Config, b: Backend, targets: seq<Target>, a: SocketAddr)
    requires BackendInv(b, cfg.max) && a in b.connections
    requires TargetsOf(targets, b.rows, Clock(env, b.turn), cfg.ttlMs)
    requires a in b.rows && b.rows[a].lastSnapshot.Some? && Stale(b.rows[a], Clock(env, b.turn), cfg.ttlMs)
    requires Silent(env, a, b.turn)
    ensures var b' := Refresh(env, cfg, b, targets);
            && a !in b'.connections && b'.turn >= b.turn
            && (a in b'.rows <==> ReplacedBefore(env, cfg.max, b, targets, a))
            && (a in b'.rows ==> ShownStale(b', a))
  {
    hide SettleAll, Clock, BackendInv, AtTurn, Replaces, ReplacedBefore;
    var b0 := b.(turn := b.turn + 1);
    var i :| 0 <= i < |targets| && targets[i].addr == a;
    BeginsWithin(b, cfg.max);
    SilentTarget(env, cfg.max, b0, targets, i);
    PooledAtTurn(env, cfg.max, b0, targets, i, a);
    SameReplaced(env, cfg.max, b, targets, a, i);
  }

  /** For every history, every QUERY in it and every node with an expired snapshot that has fallen
      silent: the QUERY takes the node out of the pool; it shows the node as stale if and only if an
      earlier target of the same QUERY turned out to be the same host and replaced the node's
      connection, and otherwise removes it at once; and after every later QUERY the node is gone,
      whatever is discovered or connected in between. */
  lemma SilentNodeVanishes(env: Env, cfg: Config, found: seq<Node>, states: seq<Backend>, events: seq<Event>,
                           n: nat, m: nat, a: SocketAddr)
    requires IsHistory(env, cfg, found, states, events)
    requires n < m < |events| && events[n].Query? && events[m].Query?
    requires a in states[n].rows && states[n].rows[a].lastSnapshot.Some?
    requires Stale(states[n].rows[a], Clock(env, states[n].turn), cfg.ttlMs)
    requires Silent(env, a, states[n].turn)
    ensures a !in states[n + 1].connections
    ensures a in states[n + 1].rows <==> ReplacedBefore(env, cfg.max, states[n], events[n].targets, a)
    ensures a in states[n + 1].rows ==> ShownStale(states[n + 1], a)
    ensures a !in states[m + 1].rows && a !in states[m + 1].connections
  {
    hide Refresh, Clock, BackendInv, Stale, TargetsOf, ReplacedBefore;
    SnapshotsStayPooled(env, cfg, found, states, events, n);
    var first := events[n];
    SilentRefresh(env, cfg, states[n], first.targets, a);
    FadedForGood(env, cfg, found, states, events, n + 1, m + 1, a);
  }

  lemma BeginsWithin(b: Backend, max: nat)
    requires BackendInv(b, max)
    ensures BackendInv(b.(turn := b.turn + 1), max)
  {
  }

  /** In this refresh an earlier target than the node's own replaced the node's connection. */
  ghost predicate ReplacedBefore(env: Env, max: nat, b: Backend, targets: seq<Target>, a: SocketAddr) {
    var b0 := b.(turn := b.turn + 1);
    exists j :: 0 <= j < |targets| && Earlier(targets, j, a) &&
      Replaces(env, max, AtTurn(env, max, b0, targets, j), targets[j], a)
  }

  /** Target `j` comes before that of the node. */
  predicate Earlier(targets: seq<Target>, j: nat, a: SocketAddr)
    requires j < |targets|
  {
    exists i :: j < i < |targets| && targets[i].addr == a
  }

  lemma SameReplaced(env: Env, max: nat, b: Backend, targets: seq<Target>, a: SocketAddr, i: nat)
    requires Distinct(targets) && i < |targets| && targets[i].addr == a
    ensures var b0 := b.(turn := b.turn + 1);
            ReplacedBefore(env, max, b, targets, a) <==>
            exists j :: 0 <= j < i && Replaces(env, max, AtTurn(env, max, b0, targets, j), targets[j], a)
  {
    hide Replaces, AtTurn;
    forall j | 0 <= j < |targets|
      ensures Earlier(targets, j, a) <==> j < i
    {
      if j < i {
        assert targets[i].addr == a;
      }
    }
  }

  // ---------------------------------------------------------------------------------------------
  // Both cases happen.

  const NODE: SocketAddr := SocketAddr(false, 1, 7)
  const TWIN: SocketAddr := SocketAddr(false, 2, 7)
  const HOST: string := "n"

  function OldRow(at: SocketAddr, snapshot: Option<Taken>): Row {
    Row(1, HOST, 0, at, snapshot, None)
  }

  const OLD: Row := OldRow(NODE, Some(Taken(HOST, 0)))
  const POOL: Connections := map[NODE := Conn(0, NODE, HOST)]
  const BOUNDS: Config := Config(4, 10)

  /** Nothing answers, or only a connect to one address does. */
  function Quiet(answers: Option<SocketAddr>): Env {
    Env(1000, _ => 0, (_, at) => if answers == Some(at) then Some(HOST) else None, (_, _) => None)
  }

  /** A node still in the pool that does not answer: its row is gone after the first QUERY, without
      ever being shown as stale. */
  lemma PooledNodeIsNotShown()
    ensures var env, b, targets := Quiet(None), Backend(POOL, map[NODE := OLD], 0), [TargetOf(OLD)];
            && BackendInv(b, BOUNDS.max) && SnapshotsPooled(b)
            && TargetsOf(targets, b.rows, Clock(env, b.turn), BOUNDS.ttlMs)
            && NODE !in Refresh(env, BOUNDS, b, targets).rows
  {
    hide Settle, SettleAll;
    var env, b, targets := Quiet(None), Backend(POOL, map[NODE := OLD], 0), [TargetOf(OLD)];
    assert targets[0].addr == NODE;
    SilentTarget(env, 4, b.(turn := 1), targets, 0);
    NothingYet(env, 4, b.(turn := 1), targets);
  }

  /** A node whose host is met again at another address earlier in the same QUERY: its connection is
      replaced, and it is shown as stale. */
  lemma ReplacedNodeIsShown()
    ensures var env, twin := Quiet(Some(TWIN)), OldRow(TWIN, None);
            var b, targets := Backend(POOL, map[NODE := OLD, TWIN := twin], 0), [TargetOf(twin), TargetOf(OLD)];
            && BackendInv(b, BOUNDS.max) && SnapshotsPooled(b)
            && TargetsOf(targets, b.rows, Clock(env, b.turn), BOUNDS.ttlMs)
            && ShownStale(Refresh(env, BOUNDS, b, targets), NODE)
  {
    hide Settle, SettleAll, AtTurn;
    var env, twin := Quiet(Some(TWIN)), OldRow(TWIN, None);
    var b, targets := Backend(POOL, map[NODE := OLD, TWIN := twin], 0), [TargetOf(twin), TargetOf(OLD)];
    assert targets[0].addr == TWIN && targets[1].addr == NODE;
    NodeShown(env, b.(turn := 1), targets);
  }

  lemma NodeShown(env: Env, b: Backend, targets: seq<Target>)
    requires |targets| == 2 && targets[0].addr == TWIN && targets[1].addr == NODE && targets[1].hadSnapshot
    requires BackendInv(b, BOUNDS.max) && b.connections == POOL && env == Quiet(Some(TWIN))
    ensures ShownStale(SettleAll(env, BOUNDS.max, b, targets), NODE)
  {
    hide Settle, SettleAll, AtTurn, BackendInv, Clock;
    SilentTarget(env, BOUNDS.max, b, targets, 1);
    PooledAtTurn(env, BOUNDS.max, b, targets, 1, NODE);
    NothingYet(env, BOUNDS.max, b, targets);
    assert Replaces(env, BOUNDS.max, b, targets[0], NODE);
  }

  lemma NothingYet(env: Env, max: nat, b: Backend, targets: seq<Target>)
    ensures AtTurn(env, max, b, targets, 0) == b
  {
  }
}

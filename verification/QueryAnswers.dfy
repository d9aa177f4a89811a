/** What a QUERY shows: for every node it asks, exactly what the node answered
    (crates/client-backend/src/local_api.rs, crates/client-backend/src/cache.rs). */
module QueryAnswers {
  import opened Results
  import opened Net
  import opened ConnectionPool
  import opened QueryRefresh
  import opened QueryHistory

  /** An answer, and the number of the interaction at which its time is taken. */
  datatype Answer = Answer(snapshot: Taken, timed: nat)

  /** What a target answers when its turn comes: to a query over its pooled connection, or over the
      one that is made for it. */
  function AnswerOf(env: Env, max: nat, b: Backend, t: Target): Option<Answer> {
    var asked := if t.addr in b.connections then b.turn else b.turn + 2;
    if t.addr !in b.connections && !CanConnect(env, max, b, t) then None
    else match env.query(asked, t.addr)
      case Some(x) => Some(Answer(x, asked + 1))
      case None => None
  }

  predicate CanConnect(env: Env, max: nat, b: Backend, t: Target) {
    |b.connections| < max && env.connect(b.turn, t.addr).Some?
  }

  /** A node with a snapshot, not pooled, that cannot be connected. */
  predicate LostTouch(env: Env, max: nat, b: Backend, t: Target) {
    t.addr !in b.connections && !CanConnect(env, max, b, t) && t.hadSnapshot
  }

  lemma MadeOwn(env: Env, max: nat, b: Backend, t: Target, mid: Backend)
    requires Made(env, max, b, t, mid)
    ensures t.addr in mid.connections <==> t.addr in b.connections || CanConnect(env, max, b, t)
    ensures t.addr in mid.connections ==> mid.turn == if t.addr in b.connections then b.turn else b.turn + 2
  {
    hide Clock, KeptApart;
    if t.addr !in b.connections {
      PooledAfterConnecting(env, max, b, |b.rows| + 1, t.addr, mid);
    }
  }

  lemma SettledOwn(env: Env, mid: Backend, t: Target, b': Backend)
    requires Settled(env, mid, t, b')
    ensures var pooled, reply := t.addr in mid.connections, env.query(mid.turn, t.addr);
            && (t.addr in b'.connections <==> pooled && reply.Some?)
            && (t.addr in b'.rows <==> if pooled then reply.Some? else t.hadSnapshot)
            && (pooled && reply.Some? ==> b'.rows[t.addr] == AnsweredRow(env, t, reply.value, mid.turn + 1))
            && (!pooled && t.hadSnapshot ==>
                  && b'.rows[t.addr].lastSnapshot.None? && b'.rows[t.addr].lastError.Some?
                  && b'.rows[t.addr].hostname == t.hostname)
  {
    hide Clock, AnsweredRow;
  }

  lemma MadeOther(env: Env, max: nat, b: Backend, t: Target, mid: Backend, a: SocketAddr)
    requires Made(env, max, b, t, mid) && a != t.addr
    ensures var stays := !Replaces(env, max, b, t, a);
            && (a in mid.connections <==> a in b.connections && stays)
            && (a in mid.rows <==> a in b.rows && stays)
            && (a in mid.rows ==> mid.rows[a] == b.rows[a])
  {
    hide Clock;
    if t.addr !in b.connections && CanConnect(env, max, b, t) {
      assert KeptApart(b, env.connect(b.turn, t.addr).value, mid, a);
    }
  }

  lemma SettledOther(env: Env, mid: Backend, t: Target, b': Backend, a: SocketAddr)
    requires Settled(env, mid, t, b') && a != t.addr
    ensures a in b'.connections <==> a in mid.connections
    ensures a in b'.rows <==> a in mid.rows
    ensures a in b'.rows ==> b'.rows[a] == mid.rows[a]
  {
    hide Clock, AnsweredRow;
  }

  /** A target's own entry and row after its turn. */
  lemma HandledTarget(env: Env, max: nat, b: Backend, t: Target, b': Backend)
    requires Handled(env, max, b, t, b')
    ensures var answer := AnswerOf(env, max, b, t);
            && (t.addr in b'.connections <==> answer.Some?)
            && (t.addr in b'.rows <==> answer.Some? || LostTouch(env, max, b, t))
            && (answer.Some? ==> b'.rows[t.addr] == AnsweredRow(env, t, answer.value.snapshot, answer.value.timed))
            && (LostTouch(env, max, b, t) ==>
                  && b'.rows[t.addr].lastSnapshot.None? && b'.rows[t.addr].lastError.Some?
                  && b'.rows[t.addr].hostname == t.hostname)
  {
    hide Connects, Queried, GivenUp, AnsweredRow;
    var mid :| Made(env, max, b, t, mid) && Settled(env, mid, t, b');
    MadeOwn(env, max, b, t, mid);
    SettledOwn(env, mid, t, b');
  }

  /** Everybody else's entry and row after that turn. */
  lemma HandledOther(env: Env, max: nat, b: Backend, t: Target, b': Backend, a: SocketAddr)
    requires Handled(env, max, b, t, b') && a != t.addr
    ensures var stays := !Replaces(env, max, b, t, a);
            && (a in b'.connections <==> a in b.connections && stays)
            && (a in b'.rows <==> a in b.rows && stays)
            && (a in b'.rows ==> b'.rows[a] == b.rows[a])
  {
    hide Made, Settled, Replaces;
    var mid :| Made(env, max, b, t, mid) && Settled(env, mid, t, b');
    MadeOther(env, max, b, t, mid, a);
    SettledOther(env, mid, t, b', a);
  }

  /** Over a stretch of turns of others. */
  lemma {:induction false} OthersKeep(env: Env, max: nat, targets: seq<Target>, trace: seq<Backend>, i: nat, n: nat,
                                      a: SocketAddr)
    requires Trace(env, max, targets, trace) && i <= n <= |targets|
    requires forall k :: i <= k < n ==> targets[k].addr != a
    ensures var stays := forall k :: i <= k < n ==> !Replaces(env, max, trace[k], targets[k], a);
            && (a in trace[n].connections <==> a in trace[i].connections && stays)
            && (a in trace[n].rows <==> a in trace[i].rows && stays)
            && (a in trace[n].rows ==> trace[n].rows[a] == trace[i].rows[a])
    decreases n
  {
    hide Replaces, Handled;
    if i < n {
      OthersKeep(env, max, targets, trace, i, n - 1, a);
      HandledOther(env, max, trace[n - 1], targets[n - 1], trace[n], a);
    }
  }

  /** For every refresh and every target in it: if the node answers when its turn comes, it is shown
      in the end exactly if no later target turns out to be the same host, and then with exactly its
      answer, under its own number, without an error, and pooled. If it does not answer it is not
      pooled in the end, and shown, without a snapshot and with an error, exactly if it had one and
      could not even be asked. */
  lemma RefreshShowsAnswers(env: Env, max: nat, targets: seq<Target>, trace: seq<Backend>, i: nat)
    requires Trace(env, max, targets, trace) && Distinct(targets) && i < |targets|
    ensures var end, t, a := trace[|targets|], targets[i], targets[i].addr;
            match AnswerOf(env, max, trace[i], t)
            case Some(answer) =>
              && (a in end.rows <==>
                    forall k :: i < k < |targets| ==> !Replaces(env, max, trace[k], targets[k], a))
              && (a in end.connections <==> a in end.rows)
              && (a in end.rows ==>
                    && end.rows[a].lastSnapshot == Some(answer.snapshot)
                    && end.rows[a].hostname == answer.snapshot.hostname
                    && end.rows[a].lastError == None
                    && end.rows[a].connectionNo == t.connectionNo
                    && end.rows[a].recordTimestamp == Clock(env, answer.timed))
            case None =>
              && a !in end.connections
              && (a in end.rows <==> LostTouch(env, max, trace[i], t))
              && (a in end.rows ==> ShownStale(end, a) && end.rows[a].hostname == t.hostname)
  {
    hide Clock, Replaces, Handled, AnswerOf, LostTouch;
    HandledTarget(env, max, trace[i], targets[i], trace[i + 1]);
    OthersKeep(env, max, targets, trace, i + 1, |targets|, targets[i].addr);
    if AnswerOf(env, max, trace[i], targets[i]).None? {
      NotPooledNotReplaced(env, max, targets, trace, i);
    }
  }

  /** What is not pooled cannot be replaced. */
  lemma NotPooledNotReplaced(env: Env, max: nat, targets: seq<Target>, trace: seq<Backend>, i: nat)
    requires Trace(env, max, targets, trace) && Distinct(targets) && i < |targets|
    requires targets[i].addr !in trace[i + 1].connections
    ensures forall k :: i < k < |targets| ==> !Replaces(env, max, trace[k], targets[k], targets[i].addr)
  {
    hide Handled;
    forall k | i < k < |targets|
      ensures !Replaces(env, max, trace[k], targets[k], targets[i].addr)
    {
      OthersKeep(env, max, targets, trace, i + 1, k, targets[i].addr);
    }
  }

  /** A node that is no target keeps its row, unchanged, exactly unless a target turns out to be the
      same host as its pooled connection. */
  lemma UntouchedRowsStay(env: Env, max: nat, targets: seq<Target>, trace: seq<Backend>, a: SocketAddr)
    requires Trace(env, max, targets, trace)
    requires forall k :: 0 <= k < |targets| ==> targets[k].addr != a
    ensures var start, end := trace[0], trace[|targets|];
            && (a in end.rows <==>
                  && a in start.rows
                  && forall k :: 0 <= k < |targets| ==> !Replaces(env, max, trace[k], targets[k], a))
            && (a in end.rows ==> end.rows[a] == start.rows[a])
  {
    OthersKeep(env, max, targets, trace, 0, |targets|, a);
  }

  /** Every refresh of a history has such a trace. */
  lemma {:induction false} RefreshHasTrace(env: Env, max: nat, b: Backend, targets: seq<Target>)
    returns (trace: seq<Backend>)
    requires BackendInv(b, max)
    ensures Trace(env, max, targets, trace)
    ensures trace[0] == b && trace[|targets|] == SettleAll(env, max, b, targets)
    decreases |targets|
  {
    hide Settle, Handled, BackendInv;
    if |targets| == 0 {
      trace := [b];
    } else {
      assert OnePerHost(b.connections) by { HostsApart(b, max); }
      SettleHandles(env, max, b, targets[0]);
      SettleKeepsInv(env, max, b, targets[0]);
      var rest := RefreshHasTrace(env, max, Settle(env, max, b, targets[0]), targets[1..]);
      trace := [b] + rest;
      forall i | 0 <= i < |targets|
        ensures Handled(env, max, trace[i], targets[i], trace[i + 1])
      {
        if i > 0 {
          assert trace[i] == rest[i - 1] && targets[i] == targets[1..][i - 1];
        }
      }
    }
  }

  lemma HostsApart(b: Backend, max: nat)
    requires BackendInv(b, max)
    ensures OnePerHost(b.connections)
  {
  }
}

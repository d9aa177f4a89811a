/** The cache object itself, as one thread runs it (crates/server/src/cache.rs). Its methods are the
    sections that the concurrent model interleaves. */
module GresCache {
  import opened Results
  import opened Bytes
  import opened Snapshots
  import opened SingleFlight
  import opened CacheMetrics

  /** The last `LATENCY_SAMPLE_LIMIT` of a series. */
  function Window(all: seq<u64>): seq<u64> {
    if |all| <= LATENCY_SAMPLE_LIMIT then all else all[|all| - LATENCY_SAMPLE_LIMIT..]
  }

  function Capped(x: nat): u64 {
    if x > U64_MAX then U64_MAX else x
  }

  const NANOS_PER_MICRO: nat := 1_000

  /** Erasing the command lines of one resource's processes. */
  method OmitProcessesOf(gres: Gres) returns (g: Gres)
    ensures g == OmitFrom(gres)
  {
    g := gres;
    for j := 0 to |gres.processes|
      invariant g == gres.(processes := g.processes) && |g.processes| == |gres.processes|
      invariant forall k :: 0 <= k < j ==> g.processes[k] == OmitCommand(gres.processes[k])
      invariant forall k :: j <= k < |gres.processes| ==> g.processes[k] == gres.processes[k]
    {
      g := g.(processes := g.processes[j := g.processes[j].(command := None)]);
    }
    assert g.processes == OmitFrom(gres).processes;
  }

  /** Erasing the command lines, resource by resource. */
  method OmitProcessCommands(snapshot: Snapshot) returns (r: Snapshot)
    ensures r == OmitCommands(snapshot)
  {
    hide OmitFrom;
    r := snapshot;
    for i := 0 to |snapshot.gres|
      invariant r == snapshot.(gres := r.gres) && |r.gres| == |snapshot.gres|
      invariant forall k :: 0 <= k < i ==> r.gres[k] == OmitFrom(snapshot.gres[k])
      invariant forall k :: i <= k < |snapshot.gres| ==> r.gres[k] == snapshot.gres[k]
    {
      var g := OmitProcessesOf(r.gres[i]);
      r := r.(gres := r.gres[i := g]);
    }
    assert r.gres == OmitCommands(snapshot).gres;
  }

  // ---------------------------------------------------------------------------------------------
  // A call alone, as the concurrent model sees it.

  /** Where some steps lead, if each can be taken. */
  function RunOf(s: System, steps: seq<Step>): Option<System> {
    if |steps| == 0 then Some(s)
    else
      var before := RunOf(s, steps[..|steps| - 1]);
      if before.Some? && Enabled(before.value, steps[|steps| - 1])
      then Some(Apply(before.value, steps[|steps| - 1]))
      else None
  }

  /** One call that nobody disturbs, about to begin. */
  function Alone(cache: Cache, ttlMs: u64, now: nat, begin: Pc): System {
    System(now, cache, None, [Call(ttlMs, begin, 0, None, 0, 0, 0, 0, 0)], [], 0, 0)
  }

  /** How far a call gets by itself: to its answer, or into the condition variable with the
      generation it observed. */
  datatype Attempt = Returned(outcome: Result<Entry, ErrorCode>) | Sleeps(observed: nat)

  predicate Reached(pc: Pc, a: Attempt) {
    match a
    case Returned(r) => pc.Done? && pc.outcome == r
    case Sleeps(observed) => pc == Waiting(observed)
  }

  /** Some steps of the model take the call that far, and the cache to this state. */
  predicate RunsTo(s: System, steps: seq<Step>, cache: Cache, a: Attempt) {
    && RunOf(s, steps).Some?
    && var end := RunOf(s, steps).value;
    && end.cache == cache && end.owner == None
    && |end.calls| == 1 && Reached(end.calls[0].pc, a)
  }

  /** A system of one call, at a point of that call. */
  predicate IsAlone(s: System, now: nat, cache: Cache, ttlMs: u64, pc: Pc) {
    s.now == now && s.cache == cache && |s.calls| == 1 && s.calls[0].pc == pc && s.calls[0].ttlMs == ttlMs
  }

  lemma OneMore(s: System, steps: seq<Step>, step: Step)
    requires RunOf(s, steps).Some? && Enabled(RunOf(s, steps).value, step)
    ensures RunOf(s, steps + [step]) == Some(Apply(RunOf(s, steps).value, step))
  {
    assert (steps + [step])[..|steps|] == steps;
  }

  /** The call takes its next step, other than the last of a leader. */
  lemma Go(s0: System, steps: seq<Step>) returns (steps': seq<Step>)
    requires RunOf(s0, steps).Some?
    requires var s := RunOf(s0, steps).value;
             |s.calls| == 1 && Enabled(s, Act(0)) && !Finishing(s.calls[0].pc)
    ensures steps' == steps + [Act(0)]
    ensures RunOf(s0, steps').Some?
    ensures var s, s' := RunOf(s0, steps).value, RunOf(s0, steps').value;
            var l := LocalAct(s.cache, s.owner, s.now, 0, s.calls[0]);
            s'.now == s.now && s'.cache == l.cache && s'.owner == l.owner && s'.calls == [l.call]
  {
    hide RunOf, LocalAct;
    OneMore(s0, steps, Act(0));
    steps' := steps + [Act(0)];
  }

  /** The first look: clock, then entry. */
  lemma Look(s0: System, cache: Cache, ttlMs: u64, now: nat) returns (steps: seq<Step>)
    requires s0 == Alone(cache, ttlMs, now, FastCheck)
    ensures RunOf(s0, steps).Some?
    ensures var s, found := RunOf(s0, steps).value, GetFresh(cache.entry, ttlMs, now);
            && s.owner == None
            && IsAlone(s, now, cache, ttlMs, if found.Some? then HitFound(found.value, Hit(now)) else MissFound)
  {
    OneCall(s0);
    hide RunOf, Expired;
    steps := Go(s0, []);
    steps := Go(s0, steps);
  }

  /** Something fresh: it is counted and returned. */
  lemma LookHit(s0: System, cache: Cache, ttlMs: u64, now: nat) returns (steps: seq<Step>)
    requires s0 == Alone(cache, ttlMs, now, FastCheck) && GetFresh(cache.entry, ttlMs, now).Some?
    ensures RunsTo(s0, steps, cache.(hits := cache.hits + 1), Returned(Ok(cache.entry.value)))
  {
    hide RunOf, Expired;
    steps := Look(s0, cache, ttlMs, now);
    steps := Go(s0, steps);
  }

  /** Nothing fresh: the miss is counted, the lock taken and the generation observed. */
  lemma LookMiss(s0: System, cache: Cache, ttlMs: u64, now: nat) returns (steps: seq<Step>)
    requires s0 == Alone(cache, ttlMs, now, FastCheck) && GetFresh(cache.entry, ttlMs, now).None?
    ensures RunOf(s0, steps).Some?
    ensures IsAlone(RunOf(s0, steps).value, now, cache.(misses := cache.misses + 1), ttlMs, Locked(cache.generation))
  {
    hide RunOf, Expired;
    steps := Look(s0, cache, ttlMs, now);
    steps := Go(s0, steps);
    steps := Go(s0, steps);
  }

  /** No entry at all: the call goes on as an ordinary one. */
  lemma LatestMiss(cache: Cache, ttlMs: u64, now: nat)
    requires cache.entry.None?
    ensures RunOf(Alone(cache, ttlMs, now, LatestCheck), [Act(0)]) == Some(Alone(cache, ttlMs, now, FastCheck))
  {
    var s0 := Alone(cache, ttlMs, now, LatestCheck);
    OneCall(s0);
    OneMore(s0, [], Act(0));
    assert [] + [Act(0)] == [Act(0)];
    assert Apply(s0, Act(0)).calls == Alone(cache, ttlMs, now, FastCheck).calls;
  }

  /** The leader's last step. */
  lemma Last(s0: System, steps: seq<Step>) returns (steps': seq<Step>)
    requires RunOf(s0, steps).Some?
    requires var s := RunOf(s0, steps).value;
             |s.calls| == 1 && Enabled(s, Act(0)) && Finishing(s.calls[0].pc)
    ensures var s := RunOf(s0, steps).value;
            var outcome := OutcomeOf(s.calls[0].pc);
            RunsTo(s0, steps', FinishRefresh(s.cache, ErrorOf(outcome)), Returned(outcome))
  {
    hide RunOf;
    OneMore(s0, steps, Act(0));
    steps' := steps + [Act(0)];
  }

  /** The collector comes back at a later instant. */
  lemma Back(s0: System, steps: seq<Step>, now: nat, collected: Result<Snapshot, ErrorCode>) returns (steps': seq<Step>)
    requires RunOf(s0, steps).Some? && RunOf(s0, steps).value.now <= now
    requires var s := RunOf(s0, steps).value; |s.calls| == 1 && s.calls[0].pc.Collecting?
    ensures RunOf(s0, steps').Some?
    ensures var s, s' := RunOf(s0, steps).value, RunOf(s0, steps').value;
            && s'.now == now && s'.cache == s.cache && s'.owner == s.owner
            && s'.calls == [LocalCollected(s.cache, s.owner, now, s.calls[0], collected).call]
  {
    hide RunOf, OmitCommands;
    var later := Pass(s0, steps, now);
    OneMore(s0, later, CollectDone(0, collected));
    steps' := later + [CollectDone(0, collected)];
  }

  lemma Pass(s0: System, steps: seq<Step>, now: nat) returns (steps': seq<Step>)
    requires RunOf(s0, steps).Some? && RunOf(s0, steps).value.now <= now
    ensures steps' == steps + [Tick(now - RunOf(s0, steps).value.now)]
    ensures RunOf(s0, steps') == Some(RunOf(s0, steps).value.(now := now))
  {
    hide RunOf;
    var tick := Tick(now - RunOf(s0, steps).value.now);
    OneMore(s0, steps, tick);
    steps' := steps + [tick];
  }

  /** One turn of the loop under the lock, by a call that observed a generation: the entry if it is
      fresh, else what the decision says. */
  function TurnAnswer(cache: Cache, observed: nat, ttlMs: u64, locked: nat, ended: nat,
                      collected: Result<Snapshot, ErrorCode>): Attempt
  {
    if GetFresh(cache.entry, ttlMs, locked).Some? then Returned(Ok(cache.entry.value))
    else match Decide(cache, observed)
      case Fail(code) => Returned(Err(code))
      case Lead => Returned(LeaderAnswer(ended, collected))
      case Wait => Sleeps(observed)
  }

  /** A whole call until it returns or sleeps. */
  function CallAnswer(cache: Cache, ttlMs: u64, fast: nat, locked: nat, ended: nat,
                      collected: Result<Snapshot, ErrorCode>): Attempt
  {
    if GetFresh(cache.entry, ttlMs, fast).Some? then Returned(Ok(cache.entry.value))
    else TurnAnswer(cache, cache.generation, ttlMs, locked, ended, collected)
  }

  /** The entry after an attempt. */
  function EntryAfter(before: Option<Entry>, a: Attempt): Option<Entry> {
    if a.Returned? && a.outcome.Ok? then Some(a.outcome.value) else before
  }

  function LeaderAnswer(ended: nat, collected: Result<Snapshot, ErrorCode>): Result<Entry, ErrorCode> {
    match collected
    case Ok(snapshot) => Ok(Entry(OmitCommands(snapshot), ended))
    case Err(code) => Err(code)
  }

  /** The shared fields after a collection that gave this result. */
  function AfterCollection(c: Cache, r: Result<Entry, ErrorCode>): Cache {
    c.(entry := if r.Ok? then Some(r.value) else c.entry,
       inFlight := false,
       generation := c.generation + 1,
       lastError := if r.Err? then Some(r.error) else None,
       collects := c.collects + 1)
  }

  class Cached {
    var entry: Option<Entry>
    var inFlight: bool
    var generation: nat
    var lastError: Option<ErrorCode>
    var hits: nat
    var misses: nat
    var merges: nat
    var collects: nat
    var latencyTotalNs: nat
    var samples: seq<u64>
    ghost var recorded: seq<u64>

    constructor ()
      ensures State() == EMPTY_CACHE && Valid() && recorded == []
    {
      entry, inFlight, generation, lastError := None, false, 0, None;
      hits, misses, merges, collects := 0, 0, 0, 0;
      latencyTotalNs, samples, recorded := 0, [], [];
    }

    /** The shared fields that the concurrent model speaks of. */
    function State(): Cache
      reads this
    {
      Cache(entry, inFlight, generation, lastError, hits, misses, merges, collects)
    }

    /** The samples kept are the latest of all that were recorded. */
    ghost predicate Valid()
      reads this
    {
      samples == Window(recorded) && |recorded| == collects
    }

    method RecordCollectLatency(elapsed: nat)
      requires Valid()
      modifies this`collects, this`latencyTotalNs, this`samples, this`recorded
      ensures Valid()
      ensures recorded == old(recorded) + [Capped(elapsed / NANOS_PER_MICRO)]
      ensures State() == old(State()).(collects := old(collects) + 1)
      ensures latencyTotalNs == old(latencyTotalNs) + Capped(elapsed)
    {
      collects := collects + 1;
      latencyTotalNs := latencyTotalNs + Capped(elapsed);
      if |samples| == LATENCY_SAMPLE_LIMIT {
        samples := samples[1..];
      }
      samples := samples + [Capped(elapsed / NANOS_PER_MICRO)];
      recorded := recorded + [Capped(elapsed / NANOS_PER_MICRO)];
    }

    /** The section under the lock once nothing fresh was found: fail, lead, or go to wait. */
    method DecideLocked(observed: nat) returns (d: Decision)
      modifies this`inFlight, this`lastError, this`merges
      ensures d == Decide(old(State()), observed)
      ensures State() == AfterDecide(old(State()), observed)
    {
      if generation != observed {
        return Fail(if lastError.Some? then lastError.value else Internal);
      }
      if !inFlight {
        inFlight := true;
        lastError := None;
        return Lead;
      }
      merges := merges + 1;
      return Wait;
    }

    /** Nobody is told to wait any more: whoever observed an earlier generation gets the error of
        this collection (or `Internal` if it had none and yet left nothing fresh), and the next to
        come leads. */
    method FinishLocked(error: Option<ErrorCode>)
      modifies this`inFlight, this`generation, this`lastError
      ensures State() == FinishRefresh(old(State()), error)
      ensures forall observed: nat :: observed <= old(generation) ==>
                Decide(State(), observed) == Fail(if error.Some? then error.value else Internal)
      ensures Decide(State(), generation) == Lead
    {
      inFlight := false;
      generation := generation + 1;
      lastError := error;
    }

    /** `get_or_refresh` up to its answer or its first wait, in any state of the cache. The clock is
        read at four instants, and `collected` is what the collector will say if it is asked. The
        call is a stretch of a run of the concurrent model; `steps` are its steps. */
    method GetOrRefresh(ttlMs: u64, fast: nat, locked: nat, started: nat, ended: nat,
                        collected: Result<Snapshot, ErrorCode>)
      returns (a: Attempt, ghost steps: seq<Step>)
      requires Valid()
      requires fast <= locked <= started <= ended
      modifies this
      ensures Valid() && inFlight == old(inFlight)
      ensures a == CallAnswer(old(State()), ttlMs, fast, locked, ended, collected)
      ensures entry == EntryAfter(old(entry), a)
      ensures RunsTo(Alone(old(State()), ttlMs, fast, FastCheck), steps, State(), a)
      // In plain terms: from the entry while it is young, and only then; else by collecting, or by
      // waiting for whoever does.
      ensures Sane(old(entry), locked) && Within(old(entry), ttlMs, fast) ==>
                && a == Returned(Ok(old(entry).value))
                && State() == old(State()).(hits := old(hits) + 1)
      ensures Sane(old(entry), locked) && !Within(old(entry), ttlMs, fast) && old(inFlight) ==>
                && a == Sleeps(old(generation))
                && State() == old(State()).(misses := old(misses) + 1, merges := old(merges) + 1)
      ensures Sane(old(entry), locked) && !Within(old(entry), ttlMs, fast) && !old(inFlight) ==>
                && a.Returned?
                && (collected.Ok? ==> a.outcome == Ok(Entry(OmitCommands(collected.value), ended)))
                && (collected.Err? ==> a.outcome == Err(collected.error))
                && State() == AfterCollection(old(State()).(misses := old(misses) + 1), a.outcome)
    {
      hide RunOf, Expired;
      if Sane(entry, locked) {
        LookIsExact(entry, ttlMs, fast);
      }
      ghost var s0 := Alone(State(), ttlMs, fast, FastCheck);
      var hit := GetFresh(entry, ttlMs, fast);
      if hit.Some? {
        steps := LookHit(s0, State(), ttlMs, fast);
        hits := hits + 1;
        return Returned(Ok(hit.value)), steps;
      }
      steps := LookMiss(s0, State(), ttlMs, fast);
      misses := misses + 1;
      var observed := generation;
      a, steps := LockedTurn(s0, steps, observed, ttlMs, locked, started, ended, collected);
    }

    /** The same call after a wake-up, with the generation it observed before it slept. */
    method Resume(observed: nat, ttlMs: u64, locked: nat, started: nat, ended: nat,
                  collected: Result<Snapshot, ErrorCode>)
      returns (a: Attempt, ghost steps: seq<Step>)
      requires Valid()
      requires locked <= started <= ended
      modifies this
      ensures Valid() && inFlight == old(inFlight)
      ensures a == TurnAnswer(old(State()), observed, ttlMs, locked, ended, collected)
      ensures entry == EntryAfter(old(entry), a)
      ensures RunsTo(Alone(old(State()), ttlMs, locked, Woken(observed)), steps, State(), a)
      // In plain terms: the entry if it is young by now, else the error left by the refresh that
      // ended, else another sleep or a collection of its own.
      ensures Sane(old(entry), locked) && Within(old(entry), ttlMs, locked) ==>
                a == Returned(Ok(old(entry).value)) && State() == old(State())
      ensures Sane(old(entry), locked) && !Within(old(entry), ttlMs, locked) && old(generation) != observed ==>
                && a == Returned(Err(if old(lastError).Some? then old(lastError).value else Internal))
                && State() == old(State())
      ensures Sane(old(entry), locked) && !Within(old(entry), ttlMs, locked) && old(generation) == observed ==>
                if old(inFlight) then
                  a == Sleeps(observed) && State() == old(State()).(merges := old(merges) + 1)
                else
                  a == Returned(LeaderAnswer(ended, collected)) && State() == AfterCollection(old(State()), a.outcome)
    {
      ghost var s0 := Alone(State(), ttlMs, locked, Woken(observed));
      OneCall(s0);
      hide RunOf, Expired;
      steps := Go(s0, []);
      a, steps := LockedTurn(s0, steps, observed, ttlMs, locked, started, ended, collected);
    }

    /** One turn of the loop, from the moment the lock is held. */
    method LockedTurn(ghost s0: System, ghost before: seq<Step>, observed: nat, ttlMs: u64, locked: nat,
                      started: nat, ended: nat, collected: Result<Snapshot, ErrorCode>)
      returns (a: Attempt, ghost steps: seq<Step>)
      requires Valid()
      requires locked <= started <= ended
      requires RunOf(s0, before).Some?
      requires IsAlone(RunOf(s0, before).value, RunOf(s0, before).value.now, State(), ttlMs, Locked(observed))
      requires RunOf(s0, before).value.now <= locked
      modifies this
      ensures Valid() && inFlight == old(inFlight)
      ensures a == TurnAnswer(old(State()), observed, ttlMs, locked, ended, collected)
      ensures entry == EntryAfter(old(entry), a)
      ensures RunsTo(s0, steps, State(), a)
      ensures Sane(old(entry), locked) && Within(old(entry), ttlMs, locked) ==>
                a == Returned(Ok(old(entry).value)) && State() == old(State())
      ensures Sane(old(entry), locked) && !Within(old(entry), ttlMs, locked) && old(generation) != observed ==>
                && a == Returned(Err(if old(lastError).Some? then old(lastError).value else Internal))
                && State() == old(State())
      ensures Sane(old(entry), locked) && !Within(old(entry), ttlMs, locked) && old(generation) == observed ==>
                if old(inFlight) then
                  a == Sleeps(observed) && State() == old(State()).(merges := old(merges) + 1)
                else
                  a == Returned(LeaderAnswer(ended, collected)) && State() == AfterCollection(old(State()), a.outcome)
    {
      hide RunOf, Expired;
      if Sane(entry, locked) {
        LookIsExact(entry, ttlMs, locked);
      }
      steps := Pass(s0, before, locked);
      steps := Go(s0, steps);
      var hit := GetFresh(entry, ttlMs, locked);
      steps := Go(s0, steps);
      if hit.Some? {
        return Returned(Ok(hit.value)), steps;
      }
      a, steps := DecideTurn(s0, steps, observed, ttlMs, started, ended, collected);
    }

    /** The turn once nothing fresh was found. */
    method DecideTurn(ghost s0: System, ghost before: seq<Step>, observed: nat, ghost ttlMs: u64,
                      started: nat, ended: nat, collected: Result<Snapshot, ErrorCode>)
      returns (a: Attempt, ghost steps: seq<Step>)
      requires Valid()
      requires RunOf(s0, before).Some?
      requires IsAlone(RunOf(s0, before).value, RunOf(s0, before).value.now, State(), ttlMs, LockedStale(observed))
      requires RunOf(s0, before).value.now <= ended && started <= ended
      modifies this
      ensures Valid() && RunsTo(s0, steps, State(), a)
      ensures match Decide(old(State()), observed)
              case Fail(code) => a == Returned(Err(code)) && State() == old(State())
              case Wait => a == Sleeps(observed) && State() == old(State()).(merges := old(merges) + 1)
              case Lead =>
                a == Returned(LeaderAnswer(ended, collected)) && State() == AfterCollection(old(State()), a.outcome)
    {
      hide RunOf, OmitCommands;
      var decision := DecideLocked(observed);
      steps := Go(s0, before);
      match decision {
        case Fail(code) => a := Returned(Err(code));
        case Wait => a := Sleeps(observed);
        case Lead =>
          var r;
          r, steps := Collect(s0, steps, started, ended, ttlMs, collected);
          a := Returned(r);
      }
    }

    /** The leader's part: collect, record, store, finish. */
    method Collect(ghost s0: System, ghost before: seq<Step>, started: nat, ended: nat, ghost ttlMs: u64,
                   collected: Result<Snapshot, ErrorCode>)
      returns (r: Result<Entry, ErrorCode>, ghost steps: seq<Step>)
      requires Valid() && inFlight
      requires RunOf(s0, before).Some?
      requires IsAlone(RunOf(s0, before).value, RunOf(s0, before).value.now, State(), ttlMs, Leading)
      requires RunOf(s0, before).value.owner == None
      requires RunOf(s0, before).value.now <= ended && started <= ended
      modifies this
      ensures Valid() && !inFlight
      ensures r == LeaderAnswer(ended, collected)
      ensures State() == AfterCollection(old(State()), r)
      ensures RunsTo(s0, steps, State(), Returned(r))
    {
      hide RunOf, OmitCommands, Window;
      steps := Go(s0, before);
      match collected {
        case Ok(snapshot) =>
          var clean := OmitProcessCommands(snapshot);
          r := Ok(Entry(clean, ended));
        case Err(code) => r := Err(code);
      }
      steps := Back(s0, steps, ended, collected);
      RecordCollectLatency(ended - started);
      steps := Go(s0, steps);
      steps := StoreAndFinish(s0, steps, ended, ttlMs, r);
    }

    /** The end of a collection: an entry replaces the old one, an error leaves it. */
    method StoreAndFinish(ghost s0: System, ghost before: seq<Step>, ghost now: nat, ghost ttlMs: u64,
                          r: Result<Entry, ErrorCode>)
      returns (ghost steps: seq<Step>)
      requires Valid()
      requires RunOf(s0, before).Some? && RunOf(s0, before).value.owner == None
      requires IsAlone(RunOf(s0, before).value, now, State(), ttlMs, Recorded(r))
      modifies this`entry, this`inFlight, this`generation, this`lastError
      ensures Valid() && !inFlight
      ensures State() == AfterCollection(old(State()), r).(collects := old(collects))
      ensures RunsTo(s0, steps, State(), Returned(r))
    {
      hide RunOf;
      steps := before;
      if r.Ok? {
        entry := Some(r.value);
        steps := Go(s0, steps);
        FinishLocked(None);
      } else {
        FinishLocked(Some(r.error));
      }
      steps := Last(s0, steps);
    }

    /** `get_latest_or_refresh`: any entry at all is good enough. */
    method GetLatestOrRefresh(ttlMs: u64, fast: nat, locked: nat, started: nat, ended: nat,
                              collected: Result<Snapshot, ErrorCode>)
      returns (a: Attempt, ghost steps: seq<Step>)
      requires Valid()
      requires fast <= locked <= started <= ended
      modifies this
      ensures Valid() && inFlight == old(inFlight)
      ensures a == if old(entry).Some? then Returned(Ok(old(entry).value))
                   else TurnAnswer(old(State()), old(generation), ttlMs, locked, ended, collected)
      ensures entry == EntryAfter(old(entry), a)
      ensures RunsTo(Alone(old(State()), ttlMs, fast, LatestCheck), steps, State(), a)
    {
      ghost var s0 := Alone(State(), ttlMs, fast, LatestCheck);
      OneCall(s0);
      hide RunOf, Expired;
      if entry.Some? {
        steps := Go(s0, []);
        hits := hits + 1;
        steps := Go(s0, steps);
        return Returned(Ok(entry.value)), steps;
      }
      LatestMiss(State(), ttlMs, fast);
      a, steps := GetOrRefresh(ttlMs, fast, locked, started, ended, collected);
      SameStart(s0, Alone(old(State()), ttlMs, fast, FastCheck), [Act(0)], steps);
      steps := [Act(0)] + steps;
    }
  }

  /** Steps that lead to where others start can be put in front of them. */
  lemma {:induction false} SameStart(s: System, t: System, first: seq<Step>, steps: seq<Step>)
    requires RunOf(s, first) == Some(t) && RunOf(t, steps).Some?
    ensures RunOf(s, first + steps) == RunOf(t, steps)
  {
    if |steps| == 0 {
      assert first + steps == first;
    } else {
      var front, last := steps[..|steps| - 1], steps[|steps| - 1];
      SameStart(s, t, first, front);
      assert first + steps == (first + front) + [last];
      OneMore(s, first + front, last);
    }
  }

  lemma OneCall(s: System)
    ensures RunOf(s, []) == Some(s)
  {
  }
}

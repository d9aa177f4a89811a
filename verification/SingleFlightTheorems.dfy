/** What callers of the server cache may rely on, in every reachable state of every run. */
module SingleFlightTheorems {
  import opened Results
  import opened Bytes
  import opened Snapshots
  import opened SingleFlight
  import opened SingleFlightSafety

  /** `in_flight` holds exactly when one call is between becoming leader and finishing, so
      collections never overlap, and every collection but the one under way has advanced the
      generation by one. */
  lemma InFlightIsOneLeader(states: seq<System>, steps: seq<Step>, i: nat)
    requires IsRun(states, steps) && i < |states|
    ensures var s := states[i];
            && (s.cache.inFlight <==> exists t :: 0 <= t < |s.calls| && Leads(s.calls[t].pc))
            && (forall t, u | 0 <= t < |s.calls| && 0 <= u < |s.calls| ::
                  Leads(s.calls[t].pc) && Leads(s.calls[u].pc) ==> t == u)
            && s.started == s.cache.generation +
                 (if exists t :: 0 <= t < |s.calls| && Runs(s.calls[t].pc) then 1 else 0)
  {
    InvRun(states, steps, i);
    var s := states[i];
    forall t, u | 0 <= t < |s.calls| && 0 <= u < |s.calls| && Leads(s.calls[t].pc) && Leads(s.calls[u].pc)
      ensures t == u
    {
      if t != u {
        OneLeader(s, t, u);
      }
    }
    if s.cache.inFlight {
      var t := SumPositive(s.calls, LeadWeight);
    }
    if t :| 0 <= t < |s.calls| && Leads(s.calls[t].pc) {
      SumAtLeast(s.calls, t, LeadWeight);
    }
    RunsAtMostOne(s);
  }

  lemma {:induction false} RunBelowLead(calls: seq<Call>)
    ensures Sum(calls, RunWeight) <= Sum(calls, LeadWeight)
  {
    if |calls| > 0 {
      RunBelowLead(calls[1..]);
    }
  }

  lemma RunsAtMostOne(s: System)
    requires Inv(s)
    ensures Sum(s.calls, RunWeight) ==
            (if exists t :: 0 <= t < |s.calls| && Runs(s.calls[t].pc) then 1 else 0)
  {
    RunBelowLead(s.calls);
    if Sum(s.calls, RunWeight) > 0 {
      var t := SumPositive(s.calls, RunWeight);
      assert Runs(s.calls[t].pc);
    }
    if t :| 0 <= t < |s.calls| && Runs(s.calls[t].pc) {
      SumAtLeast(s.calls, t, RunWeight);
    }
  }

  /** No wake-up is lost: while a call waits, the refresh it waits for has neither finished nor
      been superseded, and some other call is carrying it out. */
  lemma NoLostWakeup(states: seq<System>, steps: seq<Step>, i: nat, t: nat)
    requires IsRun(states, steps) && i < |states|
    requires t < |states[i].calls| && states[i].calls[t].pc.Waiting?
    ensures states[i].cache.inFlight
    ensures states[i].cache.generation == states[i].calls[t].pc.observed
    ensures exists u :: 0 <= u < |states[i].calls| && u != t && Leads(states[i].calls[u].pc)
  {
    InvRun(states, steps, i);
    var s := states[i];
    assert CallInv(s.calls[t], s.now, s.cache, s.outcomes);
    var u := SumPositive(s.calls, LeadWeight);
    assert u != t;
  }

  /** Every entry handed out by `get_or_refresh` was unexpired at some instant between the start
      of the call and now; with a time to live of zero only the call's own collection can be
      handed out. No answer carries a process command. */
  lemma AnswersWereFresh(states: seq<System>, steps: seq<Step>, i: nat, t: nat)
    requires IsRun(states, steps) && i < |states|
    requires t < |states[i].calls|
    requires states[i].calls[t].pc.Done? && states[i].calls[t].pc.outcome.Ok?
    ensures var c := states[i].calls[t];
            var e := c.pc.outcome.value;
            && NoCommands(e.snapshot)
            && (!c.pc.via.Latest? && c.ttlMs > 0 ==>
                  exists at :: c.begun <= at <= states[i].now && e.collectedAt <= at && !Expired(e, c.ttlMs, at))
            && (!c.pc.via.Latest? && c.ttlMs == 0 ==>
                  c.pc.via.Led? && c.begun <= e.collectedAt <= states[i].now)
  {
    InvRun(states, steps, i);
    var s := states[i];
    var c := s.calls[t];
    var e := c.pc.outcome.value;
    assert CallInv(c, s.now, s.cache, s.outcomes);
    match c.pc.via
    case Latest =>
    case Followed(_) =>
    case Led =>
      assert c.ttlMs > 0 ==> !Expired(e, c.ttlMs, e.collectedAt);
    case Hit(at) => FreshLater(e, c.ttlMs, at);
    case Joined(at) => FreshLater(e, c.ttlMs, at);
  }

  lemma FreshLater(e: Entry, ttlMs: u64, at: nat)
    requires !Expired(e, ttlMs, at)
    ensures ttlMs > 0
    ensures !Expired(e, ttlMs, if at < e.collectedAt then e.collectedAt else at)
  {
  }

  /** A caller that waited for somebody else's refresh and got an error got the error of a
      collection that ended while it waited, or `Internal`. */
  lemma FollowersGetRealErrors(states: seq<System>, steps: seq<Step>, i: nat, t: nat)
    requires IsRun(states, steps) && i < |states|
    requires t < |states[i].calls|
    requires states[i].calls[t].pc.Done? && states[i].calls[t].pc.via.Followed?
    ensures var pc := states[i].calls[t].pc;
            && pc.outcome.Err?
            && (pc.outcome.error != Internal ==>
                  exists g :: pc.via.observed <= g < states[i].cache.generation &&
                    g < |states[i].outcomes| && states[i].outcomes[g] == Some(pc.outcome.error))
  {
    InvRun(states, steps, i);
    var s := states[i];
    assert CallInv(s.calls[t], s.now, s.cache, s.outcomes);
  }

  // ---------------------------------------------------------------------------------------------
  // The cache answers from its entry.

  /** What a look does, in any state: a call that has read the clock finds the entry if and only if it
      is less than its time to live old at that instant. At the first look it is then counted and
      returned; at a look under the lock it is returned at once. Neither touches the entry or the
      collector. */
  lemma LooksAreExact(s: System, t: nat)
    requires Enabled(s, Act(t))
    ensures var c, s' := s.calls[t], Apply(s, Act(t));
            match c.pc
            case FastTimed(at) =>
              Sane(s.cache.entry, at) ==>
                && s'.cache == s.cache && s'.started == s.started
                && s'.calls[t].pc ==
                   if Within(s.cache.entry, c.ttlMs, at) then HitFound(s.cache.entry.value, Hit(at)) else MissFound
            case HitFound(e, via) =>
              s'.calls[t].pc == Done(Ok(e), via) && s'.cache == s.cache.(hits := s.cache.hits + 1)
            case LockedTimed(observed, at) =>
              Sane(s.cache.entry, at) ==>
                && s'.cache == s.cache && s'.started == s.started
                && s'.calls[t].pc ==
                   if Within(s.cache.entry, c.ttlMs, at) then Done(Ok(s.cache.entry.value), Joined(at))
                   else LockedStale(observed)
            case _ => true
  {
    hide Expired, GetFresh;
    match s.calls[t].pc
    case FastTimed(at) =>
      if Sane(s.cache.entry, at) {
        LookIsExact(s.cache.entry, s.calls[t].ttlMs, at);
      }
    case LockedTimed(_, at) =>
      if Sane(s.cache.entry, at) {
        LookIsExact(s.cache.entry, s.calls[t].ttlMs, at);
      }
    case _ =>
  }

  /** Once a collection has stored an entry, every call that looks under the lock less than its time
      to live after that collection, a follower that was waiting for one, is given that entry or a
      later one. */
  lemma FollowerGetsTheEntry(states: seq<System>, steps: seq<Step>, i: nat, n: nat, t: nat, at: nat)
    requires IsRun(states, steps) && i <= n < |steps|
    requires states[i].cache.entry.Some? && steps[n] == Act(t)
    requires t < |states[n].calls| && states[n].calls[t].pc.LockedTimed? && states[n].calls[t].pc.at == at
    requires Within(states[i].cache.entry, states[n].calls[t].ttlMs, at)
    ensures states[n].cache.entry.Some?
    ensures states[n].cache.entry.value.collectedAt >= states[i].cache.entry.value.collectedAt
    ensures states[n + 1].calls[t].pc == Done(Ok(states[n].cache.entry.value), Joined(at))
    ensures states[n + 1].cache == states[n].cache && states[n + 1].started == states[n].started
  {
    hide Apply, Expired, GetFresh;
    EntriesMoveForward(states, steps, i, n);
    LooksAreExact(states[n], t);
  }

  /** The look that sent a call on: it found nothing young enough. */
  ghost predicate LookedInVain(states: seq<System>, steps: seq<Step>, m: nat, t: nat) {
    && m < |steps| && m < |states| && steps[m] == Act(t) && t < |states[m].calls|
    && states[m].calls[t].pc.LockedTimed?
    && var at := states[m].calls[t].pc.at;
    (Sane(states[m].cache.entry, at) ==> !Within(states[m].cache.entry, states[m].calls[t].ttlMs, at))
  }

  lemma StepToStale(s: System, step: Step, t: nat)
    requires Enabled(s, step) && t < |s.calls|
    ensures t < |Apply(s, step).calls|
    ensures Apply(s, step).calls[t].pc.LockedStale? ==>
              s.calls[t].pc.LockedStale? || (step == Act(t) && s.calls[t].pc.LockedTimed?)
    ensures Apply(s, step).calls[t].pc.Done? && Apply(s, step).calls[t].pc.via.Followed? ==>
              || (s.calls[t].pc.Done? && s.calls[t].pc.via.Followed?)
              || (s.calls[t].pc.HitFound? && s.calls[t].pc.via.Followed?)
              || (step == Act(t) && s.calls[t].pc.LockedStale?)
  {
    hide Expired, OmitCommands;
  }

  lemma {:induction false} StaleLooked(states: seq<System>, steps: seq<Step>, n: nat, t: nat) returns (m: nat)
    requires IsRun(states, steps) && n < |states|
    requires t < |states[n].calls| && states[n].calls[t].pc.LockedStale?
    ensures m < n && LookedInVain(states, steps, m, t)
  {
    hide Apply, Inv, Within, Sane;
    if n == 0 {
      assert false;
    } else {
      var step := steps[n - 1];
      CallsStay(states[n - 1], step);
      StepToStale(states[n - 1], step, t);
      if states[n - 1].calls[t].pc.LockedStale? {
        m := StaleLooked(states, steps, n - 1, t);
      } else {
        LooksAreExact(states[n - 1], t);
        m := n - 1;
      }
    }
  }

  lemma CallsStay(s: System, step: Step)
    requires Enabled(s, step)
    ensures |Apply(s, step).calls| == |s.calls|
  {
  }

  /** A follower's error means that its last look under the lock came no less than its time to live
      after the entry then stored: never `Internal` while a young entry was there to be had. */
  lemma {:induction false} FollowersLooked(states: seq<System>, steps: seq<Step>, n: nat, t: nat) returns (m: nat)
    requires IsRun(states, steps) && n < |states|
    requires t < |states[n].calls| && states[n].calls[t].pc.Done? && states[n].calls[t].pc.via.Followed?
    ensures m < n && LookedInVain(states, steps, m, t)
  {
    hide Apply, Within, Sane;
    if n == 0 {
      assert false;
    } else {
      var step := steps[n - 1];
      CallsStay(states[n - 1], step);
      StepToStale(states[n - 1], step, t);
      InvRun(states, steps, n - 1);
      assert CallInv(states[n - 1].calls[t], states[n - 1].now, states[n - 1].cache, states[n - 1].outcomes);
      if states[n - 1].calls[t].pc.Done? {
        m := FollowersLooked(states, steps, n - 1, t);
      } else {
        m := StaleLooked(states, steps, n - 1, t);
      }
    }
  }

  // ---------------------------------------------------------------------------------------------
  // Metrics.

  /** The call has finished its first look at the cache and recorded it. */
  function LookedWeight(c: Call): nat {
    match c.pc
    case LatestCheck => 0
    case FastCheck => 0
    case FastTimed(_) => 0
    case HitFound(_, _) => 0
    case MissFound => 0
    case _ => 1
  }

  lemma {:induction false} LookedSum(calls: seq<Call>)
    requires forall i :: 0 <= i < |calls| ==> calls[i].hits + calls[i].misses == LookedWeight(calls[i])
    ensures Sum(calls, HitsOf) + Sum(calls, MissesOf) == Sum(calls, LookedWeight)
  {
    if |calls| > 0 {
      LookedSum(calls[1..]);
    }
  }

  lemma {:induction false} ShareSum(calls: seq<Call>)
    requires forall i :: 0 <= i < |calls| ==>
               calls[i].merges + calls[i].collects <= calls[i].misses + calls[i].spurious
    ensures Sum(calls, MergesOf) + Sum(calls, CollectsOf) <= Sum(calls, MissesOf) + Sum(calls, SpuriousOf)
  {
    if |calls| > 0 {
      ShareSum(calls[1..]);
    }
  }

  /** Hits plus misses is the number of calls that have looked; no call collects twice; merges and
      collections never outnumber misses by more than the spurious wake-ups there were. */
  lemma MetricsAddUp(states: seq<System>, steps: seq<Step>, i: nat)
    requires IsRun(states, steps) && i < |states|
    ensures var s := states[i];
            && s.cache.hits + s.cache.misses == Sum(s.calls, LookedWeight)
            && s.cache.merges + s.cache.collects <= s.cache.misses + s.spurious
            && forall t :: 0 <= t < |s.calls| ==> s.calls[t].collects <= 1
  {
    InvRun(states, steps, i);
    var s := states[i];
    forall t | 0 <= t < |s.calls|
      ensures s.calls[t].hits + s.calls[t].misses == LookedWeight(s.calls[t])
      ensures s.calls[t].merges + s.calls[t].collects <= s.calls[t].misses + s.calls[t].spurious
      ensures s.calls[t].collects <= 1
    {
      assert CallInv(s.calls[t], s.now, s.cache, s.outcomes);
    }
    LookedSum(s.calls);
    ShareSum(s.calls);
  }

  // ---------------------------------------------------------------------------------------------
  // The stored entry over time.

  predicate NoOlder(before: Option<Entry>, after: Option<Entry>) {
    before.Some? ==> after.Some? && before.value.collectedAt <= after.value.collectedAt
  }

  lemma StepKeepsEntryAge(s: System, step: Step)
    requires Inv(s) && Enabled(s, step)
    ensures NoOlder(s.cache.entry, Apply(s, step).cache.entry)
  {
    if step.Act? {
      assert CallInv(s.calls[step.call], s.now, s.cache, s.outcomes);
    }
  }

  /** The stored entry never goes back in collection time and is never lost. */
  lemma {:induction false} EntriesMoveForward(states: seq<System>, steps: seq<Step>, i: nat, j: nat)
    requires IsRun(states, steps) && i <= j < |states|
    ensures NoOlder(states[i].cache.entry, states[j].cache.entry)
    decreases j
  {
    if i < j {
      EntriesMoveForward(states, steps, i, j - 1);
      InvRun(states, steps, j - 1);
      StepKeepsEntryAge(states[j - 1], steps[j - 1]);
    }
  }

  /** From leadership on, a call keeps the entry it remembers. */
  lemma StepKeepsLead(s: System, step: Step, t: nat)
    requires Enabled(s, step) && t < |s.calls|
    requires Leads(s.calls[t].pc) || s.calls[t].pc.Done?
    ensures var c := Apply(s, step).calls[t];
            (Leads(c.pc) || c.pc.Done?) && c.lead == s.calls[t].lead
  {
  }

  lemma {:induction false} LeadKept(states: seq<System>, steps: seq<Step>, i: nat, j: nat, t: nat)
    requires IsRun(states, steps) && i <= j < |states|
    requires t < |states[i].calls| && Leads(states[i].calls[t].pc)
    ensures |states[j].calls| == |states[i].calls|
    ensures var c := states[j].calls[t];
            (Leads(c.pc) || c.pc.Done?) && c.lead == states[i].calls[t].lead
    decreases j
  {
    if i < j {
      LeadKept(states, steps, i, j - 1, t);
      StepKeepsLead(states[j - 1], steps[j - 1], t);
    }
  }

  /** A refresh that failed has left the entry as it was when its leader took over, at every
      moment in between and when it reports the failure. */
  lemma FailedRefreshKeepsEntry(states: seq<System>, steps: seq<Step>, i: nat, j: nat, t: nat)
    requires IsRun(states, steps) && i <= j < |states|
    requires t < |states[i].calls| && states[i].calls[t].pc.Leading?
    requires t < |states[j].calls| && Leads(states[j].calls[t].pc) && !states[j].calls[t].pc.Stored?
    ensures states[j].cache.entry == states[i].cache.entry
    ensures j < |steps| && steps[j] == Act(t) && states[j + 1].calls[t].pc.Done? ==>
              states[j + 1].cache.entry == states[i].cache.entry
  {
    LeadKept(states, steps, i, j, t);
    InvRun(states, steps, i);
    InvRun(states, steps, j);
    assert CallInv(states[i].calls[t], states[i].now, states[i].cache, states[i].outcomes);
    assert CallInv(states[j].calls[t], states[j].now, states[j].cache, states[j].outcomes);
  }

  // ---------------------------------------------------------------------------------------------
  // Progress.

  /** As long as some call is unfinished, some call or the collector can take a step: the lock and
      the condition variable never leave everybody stuck. */
  lemma NeverStuck(states: seq<System>, steps: seq<Step>, i: nat, t: nat) returns (u: nat)
    requires IsRun(states, steps) && i < |states|
    requires t < |states[i].calls| && !states[i].calls[t].pc.Done?
    ensures u < |states[i].calls|
    ensures Enabled(states[i], Act(u)) || states[i].calls[u].pc.Collecting?
  {
    InvRun(states, steps, i);
    var s := states[i];
    if s.owner.Some? {
      u := s.owner.value;
      assert Holds(s.calls[u].pc);
    } else if s.calls[t].pc.Waiting? {
      assert CallInv(s.calls[t], s.now, s.cache, s.outcomes);
      u := SumPositive(s.calls, LeadWeight);
    } else {
      u := t;
    }
  }

  /** An upper bound on the steps a call can still take, seen from the current generation. */
  function Rank(c: Call, generation: nat): nat {
    match c.pc
    case LatestCheck => 18
    case FastCheck => 17
    case FastTimed(_) => 16
    case HitFound(_, _) => 1
    case MissFound => 15
    case WantLock => 14
    case Locked(observed) => if observed == generation then 13 else 4
    case LockedTimed(observed, _) => if observed == generation then 12 else 3
    case LockedStale(observed) => if observed == generation then 11 else 2
    case Waiting(_) => 10
    case Woken(observed) => if observed == generation then 14 else 5
    case Leading => 8
    case Collecting => 7
    case Collected(_) => 6
    case Recorded(_) => 5
    case Stored(_) => 4
    case Done(_, _) => 0
  }

  const MAX_RANK: nat := 18
  const SPURIOUS_COST: nat := 4

  function RankSum(calls: seq<Call>, generation: nat): nat {
    if |calls| == 0 then 0 else Rank(calls[0], generation) + RankSum(calls[1..], generation)
  }

  lemma {:induction false} RankSumUpdate(calls: seq<Call>, t: nat, c: Call, generation: nat)
    requires t < |calls|
    ensures RankSum(calls[t := c], generation) + Rank(calls[t], generation) ==
            RankSum(calls, generation) + Rank(c, generation)
  {
    if t == 0 {
      assert calls[t := c][1..] == calls[1..];
    } else {
      RankSumUpdate(calls[1..], t - 1, c, generation);
      assert calls[t := c][1..] == calls[1..][t - 1 := c];
    }
  }

  lemma {:induction false} RankSumWake(calls: seq<Call>, generation: nat)
    requires forall i :: 0 <= i < |calls| ==> Rank(Wake(calls[i]), generation + 1) <= Rank(calls[i], generation)
    ensures RankSum(WakeAll(calls), generation + 1) <= RankSum(calls, generation)
  {
    if |calls| > 0 {
      RankSumWake(calls[1..], generation);
      assert WakeAll(calls)[1..] == WakeAll(calls[1..]);
    }
  }

  lemma {:induction false} RankSumStart(calls: seq<Call>, generation: nat)
    ensures RankSum(calls, generation) <= MAX_RANK * |calls|
  {
    if |calls| > 0 {
      RankSumStart(calls[1..], generation);
    }
  }

  lemma RankWoken(c: Call, now: nat, cache: Cache, outcomes: seq<Option<ErrorCode>>)
    requires CallInv(c, now, cache, outcomes)
    ensures Rank(Wake(c), cache.generation + 1) <= Rank(c, cache.generation)
  {
  }

  lemma RankFinish(s: System, t: nat)
    requires Inv(s) && t < |s.calls| && Finishing(s.calls[t].pc)
    ensures RankSum(Finish(s, t).calls, s.cache.generation + 1) < RankSum(s.calls, s.cache.generation)
  {
    hide CallInv, Counted;
    var c := s.calls[t].(pc := Done(OutcomeOf(s.calls[t].pc), Led));
    var calls := s.calls[t := c];
    RankSumUpdate(s.calls, t, c, s.cache.generation);
    forall i | 0 <= i < |calls|
      ensures Rank(Wake(calls[i]), s.cache.generation + 1) <= Rank(calls[i], s.cache.generation)
    {
      if i != t {
        RankWoken(s.calls[i], s.now, s.cache, s.outcomes);
      }
    }
    RankSumWake(calls, s.cache.generation);
  }

  lemma RankLocal(cache: Cache, owner: Option<nat>, now: nat, t: nat, c: Call)
    requires !Passive(c.pc) && !Finishing(c.pc)
    ensures Rank(LocalAct(cache, owner, now, t, c).call, cache.generation) < Rank(c, cache.generation)
    ensures LocalAct(cache, owner, now, t, c).cache.generation == cache.generation
  {
  }

  lemma RankOthers(cache: Cache, owner: Option<nat>, now: nat, c: Call, collected: Result<Snapshot, ErrorCode>)
    ensures c.pc.Collecting? ==>
              Rank(LocalCollected(cache, owner, now, c, collected).call, cache.generation) < Rank(c, cache.generation)
    ensures c.pc.Waiting? ==>
              Rank(LocalSpurious(cache, owner, c).call, cache.generation) <= Rank(c, cache.generation) + SPURIOUS_COST
    ensures LocalCollected(cache, owner, now, c, collected).cache == cache
    ensures c.pc.Waiting? ==> LocalSpurious(cache, owner, c).cache == cache
  {
  }

  /** Time passing costs nothing, a spurious wake-up costs a bounded amount, and every other step
      brings the end nearer. */
  lemma RankStep(s: System, step: Step)
    requires Inv(s) && Enabled(s, step)
    ensures var before := RankSum(s.calls, s.cache.generation);
            var after := RankSum(Apply(s, step).calls, Apply(s, step).cache.generation);
            match step
            case Tick(_) => after == before
            case SpuriousWake(_) => after <= before + SPURIOUS_COST
            case _ => after < before
  {
    hide Inv, Rank, LocalAct, LocalCollected, LocalSpurious;
    match step
    case Tick(_) =>
    case SpuriousWake(t) =>
      RankOthers(s.cache, s.owner, s.now, s.calls[t], Err(Internal));
      RankSumUpdate(s.calls, t, LocalSpurious(s.cache, s.owner, s.calls[t]).call, s.cache.generation);
    case CollectDone(t, collected) =>
      RankOthers(s.cache, s.owner, s.now, s.calls[t], collected);
      RankSumUpdate(s.calls, t, LocalCollected(s.cache, s.owner, s.now, s.calls[t], collected).call,
                    s.cache.generation);
    case Act(t) =>
      if Finishing(s.calls[t].pc) {
        RankFinish(s, t);
      } else {
        RankLocal(s.cache, s.owner, s.now, t, s.calls[t]);
        RankSumUpdate(s.calls, t, LocalAct(s.cache, s.owner, s.now, t, s.calls[t]).call, s.cache.generation);
      }
  }

  /** How many steps of a run were work, as opposed to time passing or spurious wake-ups. */
  function WorkSteps(steps: seq<Step>): nat {
    if |steps| == 0 then 0
    else WorkSteps(steps[..|steps| - 1]) +
         (if steps[|steps| - 1].Act? || steps[|steps| - 1].CollectDone? then 1 else 0)
  }

  function SpuriousSteps(steps: seq<Step>): nat {
    if |steps| == 0 then 0
    else SpuriousSteps(steps[..|steps| - 1]) + (if steps[|steps| - 1].SpuriousWake? then 1 else 0)
  }

  /** No call can loop: a run of n calls performs at most 18 n steps of work, plus four for every
      spurious wake-up. With `NeverStuck`, every run whose collector calls return can be driven to
      a state in which all calls have returned, and cannot avoid it by working on. */
  lemma {:induction false} RunsAreBounded(states: seq<System>, steps: seq<Step>)
    requires IsRun(states, steps)
    ensures WorkSteps(steps) + RankSum(states[|steps|].calls, states[|steps|].cache.generation) <=
            MAX_RANK * |states[0].calls| + SPURIOUS_COST * SpuriousSteps(steps)
    decreases |steps|
  {
    var n := |steps|;
    if n == 0 {
      RankSumStart(states[0].calls, 0);
    } else {
      RunsAreBounded(states[..n], steps[..n - 1]);
      assert states[..n][n - 1] == states[n - 1] && states[..n][0] == states[0];
      InvRun(states, steps, n - 1);
      RankStep(states[n - 1], steps[n - 1]);
    }
  }
}

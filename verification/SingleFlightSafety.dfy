/** What every interleaving of the server cache keeps. */
module SingleFlightSafety {
  import opened Results
  import opened Bytes
  import opened Snapshots
  import opened SingleFlight

  // ---------------------------------------------------------------------------------------------
  // Sums over all calls.

  function Sum(calls: seq<Call>, f: Call -> nat): nat {
    if |calls| == 0 then 0 else f(calls[0]) + Sum(calls[1..], f)
  }

  lemma {:induction false} SumUpdate(calls: seq<Call>, t: nat, c: Call, f: Call -> nat)
    requires t < |calls|
    ensures Sum(calls[t := c], f) + f(calls[t]) == Sum(calls, f) + f(c)
  {
    if t == 0 {
      assert calls[t := c][1..] == calls[1..];
    } else {
      SumUpdate(calls[1..], t - 1, c, f);
      assert calls[t := c][1..] == calls[1..][t - 1 := c];
    }
  }

  lemma {:induction false} SumWake(calls: seq<Call>, f: Call -> nat)
    requires forall i :: 0 <= i < |calls| ==> f(Wake(calls[i])) == f(calls[i])
    ensures Sum(WakeAll(calls), f) == Sum(calls, f)
  {
    if |calls| > 0 {
      SumWake(calls[1..], f);
      assert WakeAll(calls)[1..] == WakeAll(calls[1..]);
    }
  }

  lemma {:induction false} SumAtLeast(calls: seq<Call>, t: nat, f: Call -> nat)
    requires t < |calls|
    ensures Sum(calls, f) >= f(calls[t])
  {
    if t > 0 {
      SumAtLeast(calls[1..], t - 1, f);
    }
  }

  lemma {:induction false} SumAtLeastTwo(calls: seq<Call>, t: nat, u: nat, f: Call -> nat)
    requires t < u < |calls|
    ensures Sum(calls, f) >= f(calls[t]) + f(calls[u])
  {
    if t == 0 {
      SumAtLeast(calls[1..], u - 1, f);
    } else {
      SumAtLeastTwo(calls[1..], t - 1, u - 1, f);
    }
  }

  lemma {:induction false} SumPositive(calls: seq<Call>, f: Call -> nat) returns (t: nat)
    requires Sum(calls, f) > 0
    ensures t < |calls| && f(calls[t]) > 0
  {
    if f(calls[0]) > 0 {
      t := 0;
    } else {
      var u := SumPositive(calls[1..], f);
      t := u + 1;
    }
  }

  lemma {:induction false} SumZero(calls: seq<Call>, f: Call -> nat)
    requires forall i :: 0 <= i < |calls| ==> f(calls[i]) == 0
    ensures Sum(calls, f) == 0
  {
    if |calls| > 0 {
      SumZero(calls[1..], f);
    }
  }

  // ---------------------------------------------------------------------------------------------
  // The invariant.

  /** Between becoming leader and finishing. */
  predicate Leads(pc: Pc) {
    pc.Leading? || pc.Collecting? || pc.Collected? || pc.Recorded? || pc.Stored?
  }

  /** The collector has been called and the refresh is not yet finished. */
  predicate Runs(pc: Pc) {
    Leads(pc) && !pc.Leading?
  }

  predicate Holds(pc: Pc) {
    pc.Locked? || pc.LockedTimed? || pc.LockedStale?
  }

  function LeadWeight(c: Call): nat { if Leads(c.pc) then 1 else 0 }
  function RunWeight(c: Call): nat { if Runs(c.pc) then 1 else 0 }
  function HitsOf(c: Call): nat { c.hits }
  function MissesOf(c: Call): nat { c.misses }
  function MergesOf(c: Call): nat { c.merges }
  function CollectsOf(c: Call): nat { c.collects }
  function SpuriousOf(c: Call): nat { c.spurious }

  /** The shared counters are the sums of what the calls did. */
  predicate Counted(s: System) {
    && Sum(s.calls, LeadWeight) == (if s.cache.inFlight then 1 else 0)
    && s.started == s.cache.generation + Sum(s.calls, RunWeight)
    && s.cache.hits == Sum(s.calls, HitsOf)
    && s.cache.misses == Sum(s.calls, MissesOf)
    && s.cache.merges == Sum(s.calls, MergesOf)
    && s.cache.collects == Sum(s.calls, CollectsOf)
    && s.spurious == Sum(s.calls, SpuriousOf)
  }

  predicate LockOwned(s: System) {
    && (s.owner.Some? ==> s.owner.value < |s.calls|)
    && forall i :: 0 <= i < |s.calls| ==> (Holds(s.calls[i].pc) <==> s.owner == Some(i))
  }

  predicate EntryInv(entry: Option<Entry>, now: nat) {
    entry.Some? ==> entry.value.collectedAt <= now && NoCommands(entry.value.snapshot)
  }

  predicate ErrorInv(c: Cache, outcomes: seq<Option<ErrorCode>>) {
    && |outcomes| == c.generation
    && (c.lastError.Some? ==> c.generation > 0 && c.lastError == outcomes[c.generation - 1])
  }

  /** The instant `at` lies within the call and the entry was not expired then. */
  predicate FreshAt(e: Entry, ttlMs: u64, begun: nat, at: nat, now: nat) {
    && begun <= at <= now
    && e.collectedAt <= now
    && !Expired(e, ttlMs, at)
    && NoCommands(e.snapshot)
  }

  predicate CollectedWithin(e: Entry, begun: nat, now: nat) {
    begun <= e.collectedAt <= now && NoCommands(e.snapshot)
  }

  /** The code is the outcome of a collection that ended after generation `observed`. */
  predicate Reported(code: ErrorCode, observed: nat, outcomes: seq<Option<ErrorCode>>) {
    exists g :: observed <= g < |outcomes| && outcomes[g] == Some(code)
  }

  predicate AnswerInv(c: Call, outcome: Result<Entry, ErrorCode>, via: Via, now: nat,
                      outcomes: seq<Option<ErrorCode>>)
  {
    match via
    case Latest => outcome.Ok? && NoCommands(outcome.value.snapshot)
    case Hit(at) => outcome.Ok? && FreshAt(outcome.value, c.ttlMs, c.begun, at, now)
    case Joined(at) => outcome.Ok? && FreshAt(outcome.value, c.ttlMs, c.begun, at, now)
    case Led => outcome.Ok? ==> CollectedWithin(outcome.value, c.begun, now)
    case Followed(observed) =>
      outcome.Err? && (outcome.error == Internal || Reported(outcome.error, observed, outcomes))
  }

  /** What this call has added to the counters so far, by program point. */
  predicate CountInv(c: Call, generation: nat) {
    match c.pc
    case LatestCheck => c.hits == c.misses == c.merges == c.collects == c.spurious == 0
    case FastCheck => c.hits == c.misses == c.merges == c.collects == c.spurious == 0
    case FastTimed(_) => c.hits == c.misses == c.merges == c.collects == c.spurious == 0
    case HitFound(_, _) => c.hits == c.misses == c.merges == c.collects == c.spurious == 0
    case MissFound => c.hits == c.misses == c.merges == c.collects == c.spurious == 0
    case WantLock => c.hits == c.merges == c.collects == c.spurious == 0 && c.misses == 1
    case Waiting(_) => c.hits == c.collects == 0 && c.misses == 1 && c.merges <= c.spurious + 1
    case Leading => c.hits == c.collects == 0 && c.misses == 1 && c.merges <= c.spurious
    case Collecting => c.hits == c.collects == 0 && c.misses == 1 && c.merges <= c.spurious
    case Collected(_) => c.hits == c.collects == 0 && c.misses == 1 && c.merges <= c.spurious
    case Recorded(_) => c.hits == 0 && c.collects == c.misses == 1 && c.merges <= c.spurious
    case Stored(_) => c.hits == 0 && c.collects == c.misses == 1 && c.merges <= c.spurious
    case Done(_, _) =>
      c.hits + c.misses == 1 && c.collects <= 1 && c.merges + c.collects <= c.misses + c.spurious
    case _ =>
      && c.hits == c.collects == 0 && c.misses == 1
      && c.pc.observed <= generation
      && c.merges <= c.spurious + (if c.pc.observed < generation then 1 else 0)
  }

  predicate ResultInv(c: Call, result: Result<Entry, ErrorCode>, entry: Option<Entry>, now: nat) {
    result.Ok? ==>
      && CollectedWithin(result.value, c.begun, now)
      && (entry.Some? ==> entry.value.collectedAt <= result.value.collectedAt)
  }

  predicate PcInv(c: Call, now: nat, cache: Cache, outcomes: seq<Option<ErrorCode>>) {
    match c.pc
    case FastTimed(at) => c.begun <= at <= now
    case HitFound(e, via) => (via.Latest? || via.Hit?) && AnswerInv(c, Ok(e), via, now, outcomes)
    case LockedTimed(_, at) => c.begun <= at <= now
    case Waiting(observed) => c.begun <= now && cache.inFlight && cache.generation == observed
    case Leading => c.begun <= now && c.lead == cache.entry
    case Collecting => c.begun <= now && c.lead == cache.entry
    case Collected(result) => c.lead == cache.entry && ResultInv(c, result, cache.entry, now)
    case Recorded(result) => c.lead == cache.entry && ResultInv(c, result, cache.entry, now)
    case Stored(e) => cache.entry == Some(e) && CollectedWithin(e, c.begun, now)
    case Done(outcome, via) => AnswerInv(c, outcome, via, now, outcomes)
    case LatestCheck => true
    case FastCheck => true
    case _ => c.begun <= now
  }

  predicate CallInv(c: Call, now: nat, cache: Cache, outcomes: seq<Option<ErrorCode>>) {
    CountInv(c, cache.generation) && PcInv(c, now, cache, outcomes)
  }

  predicate Inv(s: System) {
    && Counted(s)
    && LockOwned(s)
    && EntryInv(s.cache.entry, s.now)
    && ErrorInv(s.cache, s.outcomes)
    && forall i :: 0 <= i < |s.calls| ==> CallInv(s.calls[i], s.now, s.cache, s.outcomes)
  }

  lemma InvInit(s: System)
    requires Init(s)
    ensures Inv(s)
  {
    SumZero(s.calls, LeadWeight);
    SumZero(s.calls, RunWeight);
    SumZero(s.calls, HitsOf);
    SumZero(s.calls, MissesOf);
    SumZero(s.calls, MergesOf);
    SumZero(s.calls, CollectsOf);
    SumZero(s.calls, SpuriousOf);
  }

  // ---------------------------------------------------------------------------------------------
  // Preservation.

  /** Replacing one call moves every sum by what that call's share moved. */
  lemma CountedUpdate(s: System, t: nat, c: Call)
    requires t < |s.calls|
    ensures var calls := s.calls[t := c];
            && Sum(calls, LeadWeight) + LeadWeight(s.calls[t]) == Sum(s.calls, LeadWeight) + LeadWeight(c)
            && Sum(calls, RunWeight) + RunWeight(s.calls[t]) == Sum(s.calls, RunWeight) + RunWeight(c)
            && Sum(calls, HitsOf) + s.calls[t].hits == Sum(s.calls, HitsOf) + c.hits
            && Sum(calls, MissesOf) + s.calls[t].misses == Sum(s.calls, MissesOf) + c.misses
            && Sum(calls, MergesOf) + s.calls[t].merges == Sum(s.calls, MergesOf) + c.merges
            && Sum(calls, CollectsOf) + s.calls[t].collects == Sum(s.calls, CollectsOf) + c.collects
            && Sum(calls, SpuriousOf) + s.calls[t].spurious == Sum(s.calls, SpuriousOf) + c.spurious
  {
    SumUpdate(s.calls, t, c, LeadWeight);
    SumUpdate(s.calls, t, c, RunWeight);
    SumUpdate(s.calls, t, c, HitsOf);
    SumUpdate(s.calls, t, c, MissesOf);
    SumUpdate(s.calls, t, c, MergesOf);
    SumUpdate(s.calls, t, c, CollectsOf);
    SumUpdate(s.calls, t, c, SpuriousOf);
  }

  lemma WokenSums(calls: seq<Call>)
    ensures Sum(WakeAll(calls), LeadWeight) == Sum(calls, LeadWeight)
    ensures Sum(WakeAll(calls), RunWeight) == Sum(calls, RunWeight)
    ensures Sum(WakeAll(calls), HitsOf) == Sum(calls, HitsOf)
    ensures Sum(WakeAll(calls), MissesOf) == Sum(calls, MissesOf)
    ensures Sum(WakeAll(calls), MergesOf) == Sum(calls, MergesOf)
    ensures Sum(WakeAll(calls), CollectsOf) == Sum(calls, CollectsOf)
    ensures Sum(WakeAll(calls), SpuriousOf) == Sum(calls, SpuriousOf)
  {
    SumWake(calls, LeadWeight);
    SumWake(calls, RunWeight);
    SumWake(calls, HitsOf);
    SumWake(calls, MissesOf);
    SumWake(calls, MergesOf);
    SumWake(calls, CollectsOf);
    SumWake(calls, SpuriousOf);
  }

  /** At most one call leads. */
  lemma OneLeader(s: System, t: nat, u: nat)
    requires Inv(s)
    requires t < |s.calls| && u < |s.calls| && t != u
    requires Leads(s.calls[t].pc)
    ensures s.cache.inFlight && !Leads(s.calls[u].pc)
  {
    SumAtLeast(s.calls, t, LeadWeight);
    if t < u {
      SumAtLeastTwo(s.calls, t, u, LeadWeight);
    } else {
      SumAtLeastTwo(s.calls, u, t, LeadWeight);
    }
  }

  /** Later instants and longer histories keep what is said of a call. */
  lemma CallInvLater(c: Call, now: nat, now': nat, cache: Cache, cache': Cache,
                     outcomes: seq<Option<ErrorCode>>)
    requires CallInv(c, now, cache, outcomes)
    requires now <= now'
    requires cache'.entry == cache.entry && cache'.generation == cache.generation
    requires c.pc.Waiting? && cache.inFlight ==> cache'.inFlight
    ensures CallInv(c, now', cache', outcomes)
  {
  }

  lemma InvTick(s: System, nanos: nat)
    requires Inv(s)
    ensures Inv(Apply(s, Tick(nanos)))
  {
    var s' := Apply(s, Tick(nanos));
    forall i | 0 <= i < |s.calls|
      ensures CallInv(s'.calls[i], s'.now, s'.cache, s'.outcomes)
    {
      CallInvLater(s.calls[i], s.now, s'.now, s.cache, s'.cache, s.outcomes);
    }
  }

  /** A step of one call that accounts for everything it changed. */
  predicate LocalOk(cache: Cache, owner: Option<nat>, now: nat, outcomes: seq<Option<ErrorCode>>,
                    t: nat, c: Call, l: Local)
  {
    && CallInv(l.call, now, l.cache, outcomes)
    && EntryInv(l.cache.entry, now)
    && ErrorInv(l.cache, outcomes)
    && l.cache.generation == cache.generation
    && (l.cache.entry != cache.entry ==> Leads(c.pc))
    && (cache.inFlight ==> l.cache.inFlight)
    // the counters
    && (if l.cache.inFlight then 1 else 0) + LeadWeight(c) == (if cache.inFlight then 1 else 0) + LeadWeight(l.call)
    && l.started + RunWeight(c) == RunWeight(l.call)
    && l.cache.hits + c.hits == cache.hits + l.call.hits
    && l.cache.misses + c.misses == cache.misses + l.call.misses
    && l.cache.merges + c.merges == cache.merges + l.call.merges
    && l.cache.collects + c.collects == cache.collects + l.call.collects
    && l.spurious + c.spurious == l.call.spurious
    // the lock
    && (Holds(l.call.pc) <==> l.owner == Some(t))
    && (l.owner != owner ==> (owner == None || owner == Some(t)) && (l.owner == None || l.owner == Some(t)))
  }

  lemma LookOk(cache: Cache, owner: Option<nat>, now: nat, outcomes: seq<Option<ErrorCode>>, t: nat, c: Call)
    requires EntryInv(cache.entry, now) && ErrorInv(cache, outcomes) && CallInv(c, now, cache, outcomes)
    requires c.pc.LatestCheck? || c.pc.FastCheck? || c.pc.FastTimed? || c.pc.HitFound? || c.pc.MissFound?
    requires owner != Some(t)
    ensures LocalOk(cache, owner, now, outcomes, t, c, LocalAct(cache, owner, now, t, c))
  {
  }

  lemma TakeLockOk(cache: Cache, owner: Option<nat>, now: nat, outcomes: seq<Option<ErrorCode>>, t: nat, c: Call)
    requires EntryInv(cache.entry, now) && ErrorInv(cache, outcomes) && CallInv(c, now, cache, outcomes)
    requires c.pc.WantLock? || c.pc.Woken?
    requires owner == None
    ensures LocalOk(cache, owner, now, outcomes, t, c, LocalAct(cache, owner, now, t, c))
  {
  }

  lemma LookLockedOk(cache: Cache, owner: Option<nat>, now: nat, outcomes: seq<Option<ErrorCode>>, t: nat, c: Call)
    requires EntryInv(cache.entry, now) && ErrorInv(cache, outcomes) && CallInv(c, now, cache, outcomes)
    requires c.pc.Locked? || c.pc.LockedTimed?
    requires owner == Some(t)
    ensures LocalOk(cache, owner, now, outcomes, t, c, LocalAct(cache, owner, now, t, c))
  {
  }

  lemma DecideOk(cache: Cache, owner: Option<nat>, now: nat, outcomes: seq<Option<ErrorCode>>, t: nat, c: Call)
    requires EntryInv(cache.entry, now) && ErrorInv(cache, outcomes) && CallInv(c, now, cache, outcomes)
    requires c.pc.LockedStale?
    requires owner == Some(t)
    ensures LocalOk(cache, owner, now, outcomes, t, c, LocalAct(cache, owner, now, t, c))
  {
  }

  lemma LeadOk(cache: Cache, owner: Option<nat>, now: nat, outcomes: seq<Option<ErrorCode>>, t: nat, c: Call)
    requires EntryInv(cache.entry, now) && ErrorInv(cache, outcomes) && CallInv(c, now, cache, outcomes)
    requires c.pc.Leading? || c.pc.Collected? || (c.pc.Recorded? && c.pc.result.Ok?)
    requires owner != Some(t)
    ensures LocalOk(cache, owner, now, outcomes, t, c, LocalAct(cache, owner, now, t, c))
  {
  }

  lemma CollectedOk(cache: Cache, owner: Option<nat>, now: nat, outcomes: seq<Option<ErrorCode>>, t: nat,
                    c: Call, collected: Result<Snapshot, ErrorCode>)
    requires EntryInv(cache.entry, now) && ErrorInv(cache, outcomes) && CallInv(c, now, cache, outcomes)
    requires c.pc.Collecting?
    requires owner != Some(t)
    ensures LocalOk(cache, owner, now, outcomes, t, c, LocalCollected(cache, owner, now, c, collected))
  {
    if collected.Ok? {
      OmitCommandsClears(collected.value);
    }
  }

  lemma SpuriousOk(cache: Cache, owner: Option<nat>, now: nat, outcomes: seq<Option<ErrorCode>>, t: nat, c: Call)
    requires EntryInv(cache.entry, now) && ErrorInv(cache, outcomes) && CallInv(c, now, cache, outcomes)
    requires c.pc.Waiting?
    requires owner != Some(t)
    ensures LocalOk(cache, owner, now, outcomes, t, c, LocalSpurious(cache, owner, c))
  {
  }

  lemma SumsLocal(s: System, t: nat, l: Local)
    requires t < |s.calls| && Counted(s)
    requires LocalOk(s.cache, s.owner, s.now, s.outcomes, t, s.calls[t], l)
    ensures Counted(SetLocal(s, t, l))
  {
    CountedUpdate(s, t, l.call);
  }

  lemma LockLocal(s: System, t: nat, l: Local)
    requires t < |s.calls| && LockOwned(s)
    requires LocalOk(s.cache, s.owner, s.now, s.outcomes, t, s.calls[t], l)
    ensures LockOwned(SetLocal(s, t, l))
  {
  }

  lemma OthersLocal(s: System, t: nat, i: nat, l: Local)
    requires Inv(s) && t < |s.calls| && i < |s.calls| && i != t
    requires LocalOk(s.cache, s.owner, s.now, s.outcomes, t, s.calls[t], l)
    ensures CallInv(s.calls[i], s.now, l.cache, s.outcomes)
  {
    assert CallInv(s.calls[i], s.now, s.cache, s.outcomes);
    if Leads(s.calls[i].pc) {
      OneLeader(s, i, t);
    }
  }

  /** A step that accounts for what it changed keeps the invariant of all calls. */
  lemma InvLocal(s: System, t: nat, l: Local)
    requires Inv(s) && t < |s.calls|
    requires LocalOk(s.cache, s.owner, s.now, s.outcomes, t, s.calls[t], l)
    ensures Inv(SetLocal(s, t, l))
  {
    SumsLocal(s, t, l);
    LockLocal(s, t, l);
    var s' := SetLocal(s, t, l);
    forall i | 0 <= i < |s'.calls|
      ensures CallInv(s'.calls[i], s'.now, s'.cache, s'.outcomes)
    {
      if i != t {
        OthersLocal(s, t, i, l);
      }
    }
  }

  lemma WokenCallInv(c: Call, now: nat, cache: Cache, error: Option<ErrorCode>,
                     outcomes: seq<Option<ErrorCode>>)
    requires CallInv(c, now, cache, outcomes)
    requires !Leads(c.pc)
    requires |outcomes| == cache.generation
    ensures CallInv(Wake(c), now, FinishRefresh(cache, error), outcomes + [error])
  {
    if c.pc.Done? && c.pc.via.Followed? && c.pc.outcome.error != Internal {
      var g :| c.pc.via.observed <= g < |outcomes| && outcomes[g] == Some(c.pc.outcome.error);
      assert (outcomes + [error])[g] == Some(c.pc.outcome.error);
    }
  }

  lemma FinishCounted(s: System, t: nat)
    requires t < |s.calls| && Counted(s) && Finishing(s.calls[t].pc)
    ensures Counted(Finish(s, t))
  {
    var c := s.calls[t].(pc := Done(OutcomeOf(s.calls[t].pc), Led));
    SumAtLeast(s.calls, t, LeadWeight);
    CountedUpdate(s, t, c);
    WokenSums(s.calls[t := c]);
  }

  lemma FinishLock(s: System, t: nat)
    requires LockOwned(s) && s.owner == None && t < |s.calls| && Finishing(s.calls[t].pc)
    ensures LockOwned(Finish(s, t))
  {
  }

  lemma FinishOthers(s: System, t: nat, i: nat)
    requires Inv(s) && t < |s.calls| && i < |s.calls| && i != t && Finishing(s.calls[t].pc)
    ensures var s' := Finish(s, t);
            CallInv(s'.calls[i], s'.now, s'.cache, s'.outcomes)
  {
    OneLeader(s, t, i);
    WokenCallInv(s.calls[i], s.now, s.cache, ErrorOf(OutcomeOf(s.calls[t].pc)), s.outcomes);
    assert Finish(s, t).calls[i] == Wake(s.calls[i]);
  }

  lemma InvFinish(s: System, t: nat)
    requires Inv(s) && t < |s.calls| && Finishing(s.calls[t].pc) && s.owner == None
    ensures Inv(Finish(s, t))
  {
    var s' := Finish(s, t);
    FinishCounted(s, t);
    FinishLock(s, t);
    forall i | 0 <= i < |s'.calls|
      ensures CallInv(s'.calls[i], s'.now, s'.cache, s'.outcomes)
    {
      if i != t {
        FinishOthers(s, t, i);
      } else {
        assert CallInv(s.calls[t], s.now, s.cache, s.outcomes);
      }
    }
  }

  lemma InvAct(s: System, t: nat)
    requires Inv(s) && Enabled(s, Act(t))
    ensures Inv(Apply(s, Act(t)))
  {
    hide CallInv, LocalOk, Counted, LocalAct, SetLocal, Finish;
    var c := s.calls[t];
    assert CallInv(c, s.now, s.cache, s.outcomes);
    if Finishing(c.pc) {
      InvFinish(s, t);
    } else {
      if c.pc.LockedStale? {
        DecideOk(s.cache, s.owner, s.now, s.outcomes, t, c);
      } else if Leads(c.pc) {
        LeadOk(s.cache, s.owner, s.now, s.outcomes, t, c);
      } else if c.pc.WantLock? || c.pc.Woken? {
        TakeLockOk(s.cache, s.owner, s.now, s.outcomes, t, c);
      } else if c.pc.Locked? || c.pc.LockedTimed? {
        LookLockedOk(s.cache, s.owner, s.now, s.outcomes, t, c);
      } else {
        LookOk(s.cache, s.owner, s.now, s.outcomes, t, c);
      }
      InvLocal(s, t, LocalAct(s.cache, s.owner, s.now, t, c));
    }
  }

  /** Every step keeps the invariant. */
  lemma InvStep(s: System, step: Step)
    requires Inv(s) && Enabled(s, step)
    ensures Inv(Apply(s, step))
  {
    hide CallInv, LocalOk, Counted, LocalAct, LocalCollected, LocalSpurious, SetLocal;
    match step
    case Tick(nanos) => InvTick(s, nanos);
    case Act(t) => InvAct(s, t);
    case CollectDone(t, collected) =>
      assert CallInv(s.calls[t], s.now, s.cache, s.outcomes);
      CollectedOk(s.cache, s.owner, s.now, s.outcomes, t, s.calls[t], collected);
      InvLocal(s, t, LocalCollected(s.cache, s.owner, s.now, s.calls[t], collected));
    case SpuriousWake(t) =>
      assert CallInv(s.calls[t], s.now, s.cache, s.outcomes);
      SpuriousOk(s.cache, s.owner, s.now, s.outcomes, t, s.calls[t]);
      InvLocal(s, t, LocalSpurious(s.cache, s.owner, s.calls[t]));
  }

  lemma {:induction false} InvRun(states: seq<System>, steps: seq<Step>, i: nat)
    requires IsRun(states, steps)
    requires i < |states|
    ensures Inv(states[i])
  {
    if i == 0 {
      InvInit(states[0]);
    } else {
      InvRun(states, steps, i - 1);
      InvStep(states[i - 1], steps[i - 1]);
    }
  }
}

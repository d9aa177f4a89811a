/** The server's cache with single-flight refresh (crates/server/src/cache.rs): any number of
    concurrent calls, interleaved at every access to shared state. */
module SingleFlight {
  import opened Results
  import opened Bytes
  import opened Snapshots

  /** `collectedAt` and every other instant is in nanoseconds of one monotonic clock. */
  datatype Entry = Entry(snapshot: Snapshot, collectedAt: nat)

  const NANOS_PER_MILLI: nat := 1_000_000

  /** Age in whole milliseconds, cast to u64, reaches the time to live. An instant before the
      collection has age zero. */
  predicate Expired(e: Entry, ttlMs: u64, at: nat) {
    var age := if at < e.collectedAt then 0 else at - e.collectedAt;
    age / NANOS_PER_MILLI % 0x1_0000_0000_0000_0000 >= ttlMs
  }

  // ---------------------------------------------------------------------------------------------
  // The shared fields and the sections that touch them.

  datatype Cache = Cache(
    entry: Option<Entry>,
    inFlight: bool,
    generation: nat,
    lastError: Option<ErrorCode>,
    hits: nat,
    misses: nat,
    merges: nat,
    collects: nat)

  const EMPTY_CACHE := Cache(None, false, 0, None, 0, 0, 0, 0)

  function GetFresh(entry: Option<Entry>, ttlMs: u64, at: nat): Option<Entry> {
    if entry.Some? && !Expired(entry.value, ttlMs, at) then entry else None
  }

  /** The entry is less than the time to live old. */
  predicate Within(entry: Option<Entry>, ttlMs: u64, at: nat) {
    entry.Some? && ttlMs > 0 && at < entry.value.collectedAt + ttlMs * 1_000_000
  }

  /** The age in milliseconds fits 64 bits: less than 584 million years. */
  predicate Sane(entry: Option<Entry>, at: nat) {
    entry.Some? ==> at < entry.value.collectedAt + 0x1_0000_0000_0000_0000 * 1_000_000
  }

  /** A look finds the entry if and only if it is less than the time to live old. */
  lemma LookIsExact(entry: Option<Entry>, ttlMs: u64, at: nat)
    requires Sane(entry, at)
    ensures GetFresh(entry, ttlMs, at) == if Within(entry, ttlMs, at) then entry else None
  {
    if entry.Some? {
      var age := if at < entry.value.collectedAt then 0 else at - entry.value.collectedAt;
      assert age / 1_000_000 >= ttlMs <==> age >= ttlMs * 1_000_000;
    }
  }

  datatype Decision = Fail(code: ErrorCode) | Lead | Wait

  /** What a caller that holds the lock and found no fresh entry does. */
  function Decide(c: Cache, observed: nat): Decision {
    if c.generation != observed then
      Fail(if c.lastError.Some? then c.lastError.value else Internal)
    else if !c.inFlight then Lead
    else Wait
  }

  function AfterDecide(c: Cache, observed: nat): Cache {
    match Decide(c, observed)
    case Fail(_) => c
    case Lead => c.(inFlight := true, lastError := None)
    case Wait => c.(merges := c.merges + 1)
  }

  function FinishRefresh(c: Cache, error: Option<ErrorCode>): Cache {
    c.(inFlight := false, generation := c.generation + 1, lastError := error)
  }

  // ---------------------------------------------------------------------------------------------
  // One call, and the system of all calls.

  /** How a finished call came by its answer; `at` is the instant of the deciding observation. */
  datatype Via =
    | Latest
    | Hit(at: nat)
    | Joined(at: nat)
    | Led
    | Followed(observed: nat)

  datatype Pc =
    | LatestCheck                             // get_latest_or_refresh, before looking
    | FastCheck                               // get_or_refresh, before looking
    | FastTimed(at: nat)                      // clock read, before reading the entry
    | HitFound(entry: Entry, via: Via)        // before record_hit
    | MissFound                               // before record_miss
    | WantLock                                // before the first lock
    | Locked(observed: nat)                   // holds the lock, top of the loop
    | LockedTimed(observed: nat, at: nat)     // holds the lock, clock read
    | LockedStale(observed: nat)              // holds the lock, nothing fresh found
    | Waiting(observed: nat)                  // inside the condition variable
    | Woken(observed: nat)                    // notified, before taking the lock again
    | Leading                                 // in_flight set, lock dropped
    | Collecting                              // inside the collector
    | Collected(result: Result<Entry, ErrorCode>)
    | Recorded(result: Result<Entry, ErrorCode>)
    | Stored(entry: Entry)
    | Done(outcome: Result<Entry, ErrorCode>, via: Via)

  /** A call in progress. The counters say what this call added to the shared metrics, `lead`
      remembers the entry that stood when the call became leader. */
  datatype Call = Call(
    ttlMs: u64,
    pc: Pc,
    begun: nat,
    lead: Option<Entry>,
    hits: nat,
    misses: nat,
    merges: nat,
    collects: nat,
    spurious: nat)

  /** `outcomes[g]` is the error, if any, that ended collection `g`; `started` counts calls into
      the collector; `spurious` counts wake-ups nobody asked for. */
  datatype System = System(
    now: nat,
    cache: Cache,
    owner: Option<nat>,
    calls: seq<Call>,
    outcomes: seq<Option<ErrorCode>>,
    started: nat,
    spurious: nat)

  datatype Step =
    | Tick(nanos: nat)
    | Act(call: nat)
    | CollectDone(call: nat, collected: Result<Snapshot, ErrorCode>)
    | SpuriousWake(call: nat)

  predicate NewCall(c: Call) {
    && (c.pc == LatestCheck || c.pc == FastCheck)
    && c.lead == None
    && c.hits == c.misses == c.merges == c.collects == c.spurious == 0
  }

  predicate Init(s: System) {
    && s.cache == EMPTY_CACHE
    && s.owner == None
    && s.outcomes == [] && s.started == 0 && s.spurious == 0
    && forall i :: 0 <= i < |s.calls| ==> NewCall(s.calls[i])
  }

  /** The leader's last act is `finish_refresh`. */
  predicate Finishing(pc: Pc) {
    pc.Stored? || (pc.Recorded? && pc.result.Err?)
  }

  predicate NeedsLock(pc: Pc) {
    pc.WantLock? || pc.Woken? || Finishing(pc)
  }

  /** Waiting for a notification, for the collector, or for nothing any more. */
  predicate Passive(pc: Pc) {
    pc.Waiting? || pc.Collecting? || pc.Done?
  }

  predicate Enabled(s: System, step: Step) {
    match step
    case Tick(_) => true
    case Act(t) =>
      && t < |s.calls|
      && !Passive(s.calls[t].pc)
      && (NeedsLock(s.calls[t].pc) ==> s.owner == None)
    case CollectDone(t, _) => t < |s.calls| && s.calls[t].pc.Collecting?
    case SpuriousWake(t) => t < |s.calls| && s.calls[t].pc.Waiting?
  }

  /** What a step of one call leaves: the shared fields, the lock, the call, and how many
      collections it started and spurious wake-ups it was. */
  datatype Local = Local(cache: Cache, owner: Option<nat>, call: Call, started: nat, spurious: nat)

  /** One access to shared state by call number `t`, other than `finish_refresh`. */
  function LocalAct(cache: Cache, owner: Option<nat>, now: nat, t: nat, c: Call): Local
    requires !Passive(c.pc) && !Finishing(c.pc)
  {
    match c.pc
    case LatestCheck =>
      var pc := if cache.entry.Some? then HitFound(cache.entry.value, Latest) else FastCheck;
      Local(cache, owner, c.(pc := pc), 0, 0)
    case FastCheck =>
      Local(cache, owner, c.(begun := now, pc := FastTimed(now)), 0, 0)
    case FastTimed(at) =>
      var found := GetFresh(cache.entry, c.ttlMs, at);
      var pc := if found.Some? then HitFound(found.value, Hit(at)) else MissFound;
      Local(cache, owner, c.(pc := pc), 0, 0)
    case HitFound(e, via) =>
      Local(cache.(hits := cache.hits + 1), owner, c.(hits := c.hits + 1, pc := Done(Ok(e), via)), 0, 0)
    case MissFound =>
      Local(cache.(misses := cache.misses + 1), owner, c.(misses := c.misses + 1, pc := WantLock), 0, 0)
    case WantLock =>
      Local(cache, Some(t), c.(pc := Locked(cache.generation)), 0, 0)
    case Woken(observed) =>
      Local(cache, Some(t), c.(pc := Locked(observed)), 0, 0)
    case Locked(observed) =>
      Local(cache, owner, c.(pc := LockedTimed(observed, now)), 0, 0)
    case LockedTimed(observed, at) =>
      var found := GetFresh(cache.entry, c.ttlMs, at);
      if found.Some? then Local(cache, None, c.(pc := Done(Ok(found.value), Joined(at))), 0, 0)
      else Local(cache, owner, c.(pc := LockedStale(observed)), 0, 0)
    case LockedStale(observed) =>
      var c' := match Decide(cache, observed)
        case Fail(code) => c.(pc := Done(Err(code), Followed(observed)))
        case Lead => c.(pc := Leading, lead := cache.entry)
        case Wait => c.(pc := Waiting(observed), merges := c.merges + 1);
      Local(AfterDecide(cache, observed), None, c', 0, 0)
    case Leading =>
      Local(cache, owner, c.(pc := Collecting), 1, 0)
    case Collected(result) =>
      Local(cache.(collects := cache.collects + 1), owner,
            c.(pc := Recorded(result), collects := c.collects + 1), 0, 0)
    case Recorded(result) =>
      Local(cache.(entry := Some(result.value)), owner, c.(pc := Stored(result.value)), 0, 0)
  }

  /** The collector returns; the command lines are erased before the entry is built. */
  function LocalCollected(cache: Cache, owner: Option<nat>, now: nat, c: Call,
                          collected: Result<Snapshot, ErrorCode>): Local
  {
    var result := match collected
      case Ok(snapshot) => Ok(Entry(OmitCommands(snapshot), now))
      case Err(code) => Err(code);
    Local(cache, owner, c.(pc := Collected(result)), 0, 0)
  }

  function LocalSpurious(cache: Cache, owner: Option<nat>, c: Call): Local
    requires c.pc.Waiting?
  {
    Local(cache, owner, c.(pc := Woken(c.pc.observed), spurious := c.spurious + 1), 0, 1)
  }

  function SetLocal(s: System, t: nat, l: Local): System
    requires t < |s.calls|
  {
    s.(cache := l.cache, owner := l.owner, calls := s.calls[t := l.call],
       started := s.started + l.started, spurious := s.spurious + l.spurious)
  }

  function Wake(c: Call): Call {
    if c.pc.Waiting? then c.(pc := Woken(c.pc.observed)) else c
  }

  function WakeAll(calls: seq<Call>): (woken: seq<Call>)
    ensures |woken| == |calls|
  {
    seq(|calls|, i requires 0 <= i < |calls| => Wake(calls[i]))
  }

  /** What a leader about to finish reports. */
  function OutcomeOf(pc: Pc): Result<Entry, ErrorCode>
    requires Finishing(pc)
  {
    if pc.Stored? then Ok(pc.entry) else pc.result
  }

  function ErrorOf(outcome: Result<Entry, ErrorCode>): Option<ErrorCode> {
    if outcome.Err? then Some(outcome.error) else None
  }

  /** `finish_refresh` by the leader `t`, which then returns. */
  function Finish(s: System, t: nat): System
    requires t < |s.calls| && Finishing(s.calls[t].pc)
  {
    var outcome := OutcomeOf(s.calls[t].pc);
    s.(cache := FinishRefresh(s.cache, ErrorOf(outcome)),
       outcomes := s.outcomes + [ErrorOf(outcome)],
       calls := WakeAll(s.calls[t := s.calls[t].(pc := Done(outcome, Led))]))
  }

  function Apply(s: System, step: Step): System
    requires Enabled(s, step)
  {
    match step
    case Tick(nanos) => s.(now := s.now + nanos)
    case Act(t) =>
      if Finishing(s.calls[t].pc) then Finish(s, t)
      else SetLocal(s, t, LocalAct(s.cache, s.owner, s.now, t, s.calls[t]))
    case CollectDone(t, collected) =>
      SetLocal(s, t, LocalCollected(s.cache, s.owner, s.now, s.calls[t], collected))
    case SpuriousWake(t) =>
      SetLocal(s, t, LocalSpurious(s.cache, s.owner, s.calls[t]))
  }

  /** A run: a state before and after every step. */
  ghost predicate IsRun(states: seq<System>, steps: seq<Step>) {
    && |states| == |steps| + 1
    && Init(states[0])
    && forall i {:trigger steps[i]} :: 0 <= i < |steps| ==>
         Enabled(states[i], steps[i]) && states[i + 1] == Apply(states[i], steps[i])
  }
}

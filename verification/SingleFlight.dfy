/**
 The observation service (internal/observe/service.go): any number of Refresh
 calls, interleaved statement by statement, share one scan. A step below is one
 statement of Refresh or one step of the scan it runs; every state also carries
 what the proofs remember about the past (leader, log, since, recordedBefore).
 */
module SingleFlight {
  import opened Storage
  import opened Catalog
  import opened Observations

  datatype Outcome = Never | Succeeded | Unavailable | Misconfigured | Failed

  /** The class an outcome is of: success, or what the error that failed the scan says of storage. */
  ghost predicate ClassIs(outcome: Outcome, failure: Option<StorageError>) {
    && outcome != Never && (outcome == Succeeded <==> failure == None)
    && (outcome == Unavailable <==> failure == Some(StorageUnavailable))
    && (outcome == Misconfigured <==> failure == Some(StorageMisconfigured))
    && (outcome == Failed <==> failure == Some(ObjectNotFound) || failure == Some(OtherError))
  }

  /** OutcomeOf (service.go:42-54). */
  function OutcomeOf<T>(r: Response<T>): (outcome: Outcome)
    ensures ClassIs(outcome, if r.Ok? then None else Some(r.error))
  {
    match r
    case Ok(_) => Succeeded
    case Err(StorageUnavailable) => Unavailable
    case Err(StorageMisconfigured) => Misconfigured
    case Err(_) => Failed
  }

  /** make(chan struct{}) yields a channel never seen before: the next number. */
  type Channel = nat

  datatype Role = Led(channel: Channel) | Joined(channel: Channel)

  /** Where a Refresh call stands; want... waits for the mutex. */
  datatype Pc =
    | WantCheck
    | Checking                                                    // if s.running != nil
    | JoinUnlock(channel: Channel)
    | Waiting(channel: Channel)                                   // <-done
    | WantRead(channel: Channel)
    | Reading(channel: Channel)                                   // outcome := s.lastOutcome
    | ReadUnlock(channel: Channel, outcome: Outcome, index: int)
    | Making                                                      // done := make(chan struct{})
    | Setting(channel: Channel)                                   // s.running = done
    | ClaimUnlock(channel: Channel)
    | Scanning(channel: Channel)                                  // listing the bucket
    | Stamped(channel: Channel, at: Time)                         // the clock was read, the record not yet written
    | WantPublish(channel: Channel, outcome: Outcome, calls: nat, failure: Option<StorageError>)
    | SettingOutcome(channel: Channel, outcome: Outcome, calls: nat, failure: Option<StorageError>)
    | Clearing(channel: Channel, outcome: Outcome)                // s.running = nil
    | Closing(channel: Channel, outcome: Outcome)                 // close(done)
    | PublishUnlock(channel: Channel, outcome: Outcome)
    | Returned(role: Role, outcome: Outcome, index: int)          // index: the log entry the outcome comes from

  /**
   since: how many outcomes had been published when the call began; unpublished: the
   channel of a scan that had returned by then and was still to be published.
   */
  datatype Call = Call(since: nat, unpublished: Option<Channel>, pc: Pc)

  /**
   One assignment to lastOutcome; calls: how many calls had begun when that scan returned;
   failure: the error it returned.
   */
  datatype Entry = Entry(channel: Channel, outcome: Outcome, calls: nat, failure: Option<StorageError>)

  datatype State = State(
    holder: Option<nat>, running: Option<Channel>, lastOutcome: Outcome, channels: nat, closed: set<Channel>,
    calls: seq<Call>, db: ObservationTables, clock: Time,
    catalog: Tables, leader: nat, log: seq<Entry>, recordedBefore: nat)

  function Initial(catalog: Tables, db: ObservationTables, clock: Time): State {
    State(None, None, Never, 0, {}, [], db, clock, catalog, 0, [], |db.observations|)
  }

  datatype Event =
    | Begin
    | Tick(to: Time)
    | Advance(c: nat)                                             // the next statement of call c
    | Stamp(c: nat)                                               // LIST answered; the scan reads the clock
    | Record(c: nat, record: ObservationRecord, ids: ObservationIds)
    | ScanFails(c: nat, error: StorageError)
    | Restart(catalog: Tables)                                    // the process dies; adoptions may follow

  predicate IsCallStep(e: Event) { e.Advance? || e.Stamp? || e.Record? || e.ScanFails? }

  function To(s: State, c: nat, pc: Pc): State
    requires c < |s.calls|
  {
    s.(calls := s.calls[c := s.calls[c].(pc := pc)])
  }

  /** Unlocking a free mutex and closing a closed channel would panic: they are not steps. */
  predicate CanAdvance(s: State, c: nat)
    requires c < |s.calls|
  {
    match s.calls[c].pc
    case WantCheck | WantRead(_) | WantPublish(_, _, _, _) => s.holder == None
    case Waiting(ch) => ch in s.closed
    case JoinUnlock(_) | ReadUnlock(_, _, _) | ClaimUnlock(_) | PublishUnlock(_, _) => s.holder == Some(c)
    case Closing(ch, _) => ch !in s.closed
    case Checking | Reading(_) | Making | Setting(_) | SettingOutcome(_, _, _, _) | Clearing(_, _) => true
    case Scanning(_) | Stamped(_, _) | Returned(_, _, _) => false
  }

  function Advanced(s: State, c: nat): State
    requires c < |s.calls|
  {
    match s.calls[c].pc
    case WantCheck => To(s, c, Checking).(holder := Some(c))
    case Checking => To(s, c, if s.running.Some? then JoinUnlock(s.running.value) else Making)
    case JoinUnlock(ch) => To(s, c, Waiting(ch)).(holder := None)
    case Waiting(ch) => To(s, c, WantRead(ch))
    case WantRead(ch) => To(s, c, Reading(ch)).(holder := Some(c))
    case Reading(ch) => To(s, c, ReadUnlock(ch, s.lastOutcome, |s.log| - 1))
    case ReadUnlock(ch, outcome, index) => To(s, c, Returned(Joined(ch), outcome, index)).(holder := None)
    case Making => To(s, c, Setting(s.channels)).(channels := s.channels + 1, leader := c)
    case Setting(ch) => To(s, c, ClaimUnlock(ch)).(running := Some(ch))
    case ClaimUnlock(ch) => To(s, c, Scanning(ch)).(holder := None)
    case WantPublish(ch, outcome, calls, failure) =>
      To(s, c, SettingOutcome(ch, outcome, calls, failure)).(holder := Some(c))
    case SettingOutcome(ch, outcome, calls, failure) =>
      To(s, c, Clearing(ch, outcome)).(lastOutcome := outcome, log := s.log + [Entry(ch, outcome, calls, failure)])
    case Clearing(ch, outcome) => To(s, c, Closing(ch, outcome)).(running := None)
    case Closing(ch, outcome) => To(s, c, PublishUnlock(ch, outcome)).(closed := s.closed + {ch})
    case PublishUnlock(ch, outcome) => To(s, c, Returned(Led(ch), outcome, ch)).(holder := None)
    case Scanning(_) | Stamped(_, _) | Returned(_, _, _) => s
  }

  ghost predicate Enabled(s: State, e: Event) {
    match e
    case Begin => true
    case Restart(catalog) => s.catalog.publications.Keys <= catalog.publications.Keys
    case Tick(to) => to >= s.clock
    case Advance(c) => c < |s.calls| && CanAdvance(s, c)
    case Stamp(c) => c < |s.calls| && s.calls[c].pc.Scanning?
    case Record(c, record, ids) =>
      && c < |s.calls| && s.calls[c].pc.Stamped? && record.observedAt == s.calls[c].pc.at
      && RecordOk(s.catalog, record) && FreshObservationIds(s.db, ids, |record.publications|)
    case ScanFails(c, _) => c < |s.calls| && (s.calls[c].pc.Scanning? || s.calls[c].pc.Stamped?)
  }

  function ScanReturned(s: State, c: nat, r: Response<()>): State
    requires c < |s.calls| && (s.calls[c].pc.Scanning? || s.calls[c].pc.Stamped?)
  {
    To(s, c, WantPublish(s.calls[c].pc.channel, OutcomeOf(r), |s.calls|, if r.Ok? then None else Some(r.error)))
  }

  /** The scan that has returned and whose outcome is not published yet. */
  function ReturnedUnpublished(s: State): Option<Channel> {
    if s.leader < |s.calls| && ScanDone(s.calls[s.leader].pc) then Some(s.calls[s.leader].pc.channel) else None
  }

  function After(s: State, e: Event): State
    requires Enabled(s, e)
  {
    match e
    case Begin => s.(calls := s.calls + [Call(|s.log|, ReturnedUnpublished(s), WantCheck)])
    case Restart(catalog) => Initial(catalog, s.db, s.clock)
    case Tick(to) => s.(clock := to)
    case Advance(c) => Advanced(s, c)
    case Stamp(c) => To(s, c, Stamped(s.calls[c].pc.channel, s.clock))
    case Record(c, record, ids) =>
      ScanReturned(s, c, Ok(())).(db := WithRecord(s.db, record, ids, |record.publications|))
    case ScanFails(c, error) => ScanReturned(s, c, Err(error))
  }

  ghost predicate IsRun(s: State, events: seq<Event>)
    decreases |events|
  {
    events == [] || (Enabled(s, events[0]) && IsRun(After(s, events[0]), events[1..]))
  }

  function End(s: State, events: seq<Event>): State
    requires IsRun(s, events)
    decreases |events|
  {
    if events == [] then s else End(After(s, events[0]), events[1..])
  }

  // ---- Who holds what ----

  predicate Holds(pc: Pc) {
    || pc.Checking? || pc.JoinUnlock? || pc.Reading? || pc.ReadUnlock? || pc.Making? || pc.Setting? || pc.ClaimUnlock?
    || pc.SettingOutcome? || pc.Clearing? || pc.Closing? || pc.PublishUnlock?
  }

  /** The call has claimed its channel and not yet published. */
  predicate Unpublished(pc: Pc) {
    pc.Setting? || pc.ClaimUnlock? || pc.Scanning? || pc.Stamped? || pc.WantPublish? || pc.SettingOutcome?
  }

  predicate Finishing(pc: Pc) { pc.Clearing? || pc.Closing? }

  /** running names this call's channel. */
  predicate InFlight(pc: Pc) { (Unpublished(pc) && !pc.Setting?) || pc.Clearing? }

  predicate Joining(pc: Pc) { pc.JoinUnlock? || pc.Waiting? || Woken(pc) }

  predicate Woken(pc: Pc) { pc.WantRead? || pc.Reading? || pc.ReadUnlock? }

  predicate ScanDone(pc: Pc) { pc.WantPublish? || pc.SettingOutcome? }

  // ---- The invariant ----

  ghost predicate MutexInv(s: State) {
    && (s.holder.Some? ==> s.holder.value < |s.calls|)
    && (forall c | 0 <= c < |s.calls| :: Holds(s.calls[c].pc) <==> s.holder == Some(c))
  }

  ghost predicate Leading(s: State) {
    s.leader < |s.calls| && (Unpublished(s.calls[s.leader].pc) || Finishing(s.calls[s.leader].pc))
  }

  /** Scans are numbered by their channels and published in that order. */
  ghost predicate ScanInv(s: State) {
    && (forall c | 0 <= c < |s.calls| :: PlaceOk(s, c, s.calls[c].pc))
    && SharedOk(s, if Leading(s) then Some(s.calls[s.leader].pc) else None)
  }

  /** What the shared fields are, given where the leader stands. */
  ghost predicate SharedOk(s: State, leader: Option<Pc>) {
    && s.channels == |s.log| + (if leader.Some? && Unpublished(leader.value) then 1 else 0)
    && s.running == (if leader.Some? && InFlight(leader.value) then Some(leader.value.channel) else None)
    && (forall ch :: ch in s.closed <==>
      0 <= ch < |s.log| && !(leader.Some? && Finishing(leader.value) && ch == |s.log| - 1))
  }

  ghost predicate PlaceOk(s: State, c: nat, pc: Pc) {
    && (Unpublished(pc) ==> c == s.leader && pc.channel == |s.log|)
    && (Finishing(pc) ==> c == s.leader && pc.channel == |s.log| - 1)
    && (pc.Making? ==> s.running == None)
    && (Joining(pc) ==> JoinOk(s, pc))
  }

  ghost predicate JoinOk(s: State, pc: Pc)
    requires Joining(pc)
  {
    if Woken(pc) then pc.channel in s.closed
    else pc.channel in s.closed || pc.channel == |s.log| - 1 || (pc.channel == |s.log| && s.running == Some(|s.log|))
  }

  ghost predicate LogInv(s: State) {
    && s.lastOutcome == (if s.log == [] then Never else s.log[|s.log| - 1].outcome)
    && (forall i | 0 <= i < |s.log| :: s.log[i].channel == i && ClassIs(s.log[i].outcome, s.log[i].failure))
    && (forall c | 0 <= c < |s.calls| :: CallOk(s.log, c, s.calls[c]))
    && CutOk(|s.log|, s.calls, if Leading(s) then Some(s.leader) else None)
  }

  /** A call's place, its eventual outcome, and the age of every later entry. */
  ghost predicate CallOk(log: seq<Entry>, c: nat, call: Call) {
    && BeginningOk(log, c, call)
    && OutcomeOk(log, c, call.since, call.pc)
  }

  ghost predicate BeginningOk(log: seq<Entry>, c: nat, call: Call) {
    && call.since <= |log|
    && (forall i | call.since < i < |log| :: log[i].calls > c)
    && (call.unpublished.Some? ==> call.unpublished.value == call.since)
    && (call.since < |log| ==> (call.unpublished.Some? <==> log[call.since].calls <= c))
  }

  ghost predicate OutcomeOk(log: seq<Entry>, c: nat, since: nat, pc: Pc) {
    && ((Unpublished(pc) || Joining(pc)) ==> since <= pc.channel)
    && (pc.ReadUnlock? ==> Source(log, c, since, Joined(pc.channel), pc.outcome, pc.index))
    && ((Finishing(pc) || pc.PublishUnlock?) ==> Source(log, c, since, Led(pc.channel), pc.outcome, pc.channel))
    && (pc.Returned? ==> Source(log, c, since, pc.role, pc.outcome, pc.index))
  }

  /** The outcome of call c is entry i, from its own scan or from the joined scan or a later one. */
  ghost predicate Source(log: seq<Entry>, c: nat, since: nat, role: Role, outcome: Outcome, i: int) {
    && since <= role.channel <= i < |log|
    && log[i].outcome == outcome
    && (role.Led? ==> i == role.channel && log[i].calls > c)
  }

  /** Which calls began between the return of the leader's scan and its publication. */
  ghost predicate CutOk(published: nat, calls: seq<Call>, leader: Option<nat>)
    requires leader.Some? ==> leader.value < |calls|
  {
    if leader.Some? && ScanDone(calls[leader.value].pc) then
      var pc := calls[leader.value].pc;
      && ClassIs(pc.outcome, pc.failure) && leader.value < pc.calls <= |calls|
      && (forall d | pc.calls <= d < |calls| :: calls[d].since == published)
      && (forall d | 0 <= d < |calls| && calls[d].since == published :: calls[d].unpublished.Some? <==> pc.calls <= d)
    else
      forall d | 0 <= d < |calls| && calls[d].since == published :: calls[d].unpublished.None?
  }

  /** Every row was recorded in time order and none is in the future. */
  ghost predicate RowsBy(db: ObservationTables, at: Time) {
    forall k | 0 <= k < |db.observations| :: db.observations[k].observedAt <= Truncate(at)
  }

  ghost predicate RowsOrdered(db: ObservationTables) {
    forall j, k | 0 <= j <= k < |db.observations| :: db.observations[j].observedAt <= db.observations[k].observedAt
  }

  ghost predicate DatabaseInv(s: State) {
    && ObservationsOk(s.catalog, s.db) && RowsOrdered(s.db) && RowsBy(s.db, s.clock)
    && (forall c | 0 <= c < |s.calls| && s.calls[c].pc.Stamped? ::
      s.calls[c].pc.at <= s.clock && RowsBy(s.db, s.calls[c].pc.at))
  }

  function Successes(log: seq<Entry>): nat {
    if log == [] then 0 else Successes(log[..|log| - 1]) + (if log[|log| - 1].outcome == Succeeded then 1 else 0)
  }

  /** Every success is one recorded observation, and nothing else is recorded. */
  ghost predicate CountInv(s: State) {
    |s.db.observations| == s.recordedBefore + Successes(s.log)
      + (if Leading(s) && ScanDone(s.calls[s.leader].pc) && s.calls[s.leader].pc.outcome == Succeeded then 1 else 0)
  }

  ghost predicate Inv(s: State) {
    MutexInv(s) && ScanInv(s) && LogInv(s) && DatabaseInv(s) && CountInv(s)
  }

  lemma StepKeepsMutex(s: State, e: Event)
    requires MutexInv(s) && Enabled(s, e)
    ensures MutexInv(After(s, e))
  {
    hide RecordOk, FreshObservationIds, WithRecord;
  }

  lemma AdvanceKeepsShared(s: State, c: nat)
    requires MutexInv(s) && ScanInv(s) && c < |s.calls| && CanAdvance(s, c)
    ensures var u := Advanced(s, c); SharedOk(u, if Leading(u) then Some(u.calls[u.leader].pc) else None)
  {
    hide JoinOk;
    assert PlaceOk(s, c, s.calls[c].pc);
  }

  lemma AdvanceKeepsPlace(s: State, c: nat)
    requires MutexInv(s) && ScanInv(s) && c < |s.calls| && CanAdvance(s, c)
    ensures PlaceOk(Advanced(s, c), c, Advanced(s, c).calls[c].pc)
  {
    assert PlaceOk(s, c, s.calls[c].pc);
    assert Leading(s) ==> PlaceOk(s, s.leader, s.calls[s.leader].pc);
  }

  lemma AdvanceKeepsOther(s: State, c: nat, d: nat)
    requires MutexInv(s) && ScanInv(s) && c < |s.calls| && CanAdvance(s, c) && d < |s.calls| && d != c
    ensures PlaceOk(Advanced(s, c), d, s.calls[d].pc)
  {
    assert PlaceOk(s, c, s.calls[c].pc) && PlaceOk(s, d, s.calls[d].pc);
    assert Leading(s) ==> PlaceOk(s, s.leader, s.calls[s.leader].pc);
  }

  lemma StepKeepsScan(s: State, e: Event)
    requires MutexInv(s) && ScanInv(s) && Enabled(s, e)
    ensures ScanInv(After(s, e))
  {
    hide RecordOk, FreshObservationIds, WithRecord, Advanced, CanAdvance, MutexInv, SharedOk, JoinOk;
    if e.Advance? {
      var c, u := e.c, Advanced(s, e.c);
      AdvanceKeepsShared(s, c);
      AdvanceKeepsPlace(s, c);
      OthersStay(s, c);
      forall d | 0 <= d < |u.calls| && d != c ensures PlaceOk(u, d, u.calls[d].pc) { AdvanceKeepsOther(s, c, d); }
    } else {
      ScanStep(s, e);
    }
  }

  lemma OthersStay(s: State, c: nat)
    requires c < |s.calls|
    ensures var u := Advanced(s, c);
      |u.calls| == |s.calls| && forall d | 0 <= d < |s.calls| && d != c :: u.calls[d] == s.calls[d]
  {}

  lemma ScanStep(s: State, e: Event)
    requires MutexInv(s) && ScanInv(s) && Enabled(s, e) && !e.Advance?
    ensures ScanInv(After(s, e))
  {
    hide RecordOk, FreshObservationIds, WithRecord;
    var u := After(s, e);
    forall d | 0 <= d < |u.calls| ensures PlaceOk(u, d, u.calls[d].pc) {
      assert d < |s.calls| ==> PlaceOk(s, d, s.calls[d].pc);
    }
  }

  // ---- What was published, and who may return it ----

  lemma LogGrows(log: seq<Entry>, entry: Entry, c: nat, call: Call)
    requires CallOk(log, c, call) && (call.since < |log| ==> entry.calls > c)
    requires call.since == |log| ==> (call.unpublished.Some? <==> entry.calls <= c)
    ensures CallOk(log + [entry], c, call)
  {
    var longer := log + [entry];
    assert forall i | 0 <= i < |log| :: longer[i] == log[i];
    assert longer[|log|] == entry;
  }

  /** A call that joins finds a scan that nobody has published yet. */
  lemma JoinedIsUnpublished(s: State, c: nat)
    requires MutexInv(s) && ScanInv(s) && c < |s.calls| && s.calls[c].pc.Checking? && s.running.Some?
    ensures s.running.value == |s.log|
  {
    hide JoinOk;
    assert PlaceOk(s, s.leader, s.calls[s.leader].pc);
  }

  lemma AdvanceKeepsOwnCall(s: State, c: nat)
    requires MutexInv(s) && ScanInv(s) && LogInv(s) && c < |s.calls| && CanAdvance(s, c)
    ensures CallOk(Advanced(s, c).log, c, Advanced(s, c).calls[c])
  {
    hide MutexInv, CutOk, JoinOk, SharedOk;
    var pc := s.calls[c].pc;
    assert PlaceOk(s, c, pc);
    if pc.Checking? && s.running.Some? {
      JoinedIsUnpublished(s, c);
      assert CallOk(s.log, c, s.calls[c]);
    } else if pc.SettingOutcome? {
      PublishedByLeader(s, c);
    } else {
      PlainMove(s, c);
    }
  }

  lemma PlainMove(s: State, c: nat)
    requires ScanInv(s) && LogInv(s) && c < |s.calls| && CanAdvance(s, c)
    requires !(s.calls[c].pc.Checking? && s.running.Some?) && !s.calls[c].pc.SettingOutcome?
    ensures CallOk(Advanced(s, c).log, c, Advanced(s, c).calls[c])
  {
    hide CutOk, SharedOk, JoinOk;
    var pc, log := s.calls[c].pc, s.log;
    assert PlaceOk(s, c, pc) && CallOk(log, c, s.calls[c]);
    if pc.Reading? {
      assert pc.channel < |log| by { WokenIsPublished(s, c); }
      assert Source(log, c, s.calls[c].since, Joined(pc.channel), s.lastOutcome, |log| - 1);
      assert Advanced(s, c).log == log;
    } else {
      assert s.channels >= |log| by { ChannelsArePublished(s); }
      QuietMove(s, c);
    }
  }

  lemma QuietMove(s: State, c: nat)
    requires c < |s.calls| && CanAdvance(s, c) && CallOk(s.log, c, s.calls[c]) && s.calls[c].since <= s.channels
    requires PlaceOk(s, c, s.calls[c].pc)
    requires !(s.calls[c].pc.Checking? && s.running.Some?) && !s.calls[c].pc.SettingOutcome? && !s.calls[c].pc.Reading?
    ensures CallOk(Advanced(s, c).log, c, Advanced(s, c).calls[c])
  {
    hide Source, JoinOk, BeginningOk;
    assert Advanced(s, c).log == s.log;
    var call, moved := s.calls[c], Advanced(s, c).calls[c];
    assert moved == call.(pc := moved.pc) && OutcomeOk(s.log, c, call.since, moved.pc);
    BeginningKept(s.log, c, call, moved.pc);
  }

  lemma BeginningKept(log: seq<Entry>, c: nat, call: Call, pc: Pc)
    requires BeginningOk(log, c, call)
    ensures BeginningOk(log, c, call.(pc := pc))
  {}

  lemma ChannelsArePublished(s: State)
    requires ScanInv(s)
    ensures s.channels >= |s.log|
  {
    hide PlaceOk;
  }

  lemma WokenIsPublished(s: State, c: nat)
    requires ScanInv(s) && c < |s.calls| && Woken(s.calls[c].pc)
    ensures s.calls[c].pc.channel < |s.log|
  {
    assert PlaceOk(s, c, s.calls[c].pc);
  }

  lemma PublishedByLeader(s: State, c: nat)
    requires LogInv(s) && c < |s.calls| && s.calls[c].pc.SettingOutcome? && PlaceOk(s, c, s.calls[c].pc)
    ensures CallOk(Advanced(s, c).log, c, Advanced(s, c).calls[c])
  {
    var pc := s.calls[c].pc;
    assert CallOk(s.log, c, s.calls[c]);
    LogGrows(s.log, Entry(pc.channel, pc.outcome, pc.calls, pc.failure), c, s.calls[c]);
  }

  lemma AdvanceKeepsOtherCall(s: State, c: nat, d: nat)
    requires ScanInv(s) && LogInv(s) && c < |s.calls| && CanAdvance(s, c) && d < |s.calls| && d != c
    ensures CallOk(Advanced(s, c).log, d, s.calls[d])
  {
    var pc := s.calls[c].pc;
    assert PlaceOk(s, c, pc) && CallOk(s.log, d, s.calls[d]);
    if pc.SettingOutcome? {
      LogGrows(s.log, Entry(pc.channel, pc.outcome, pc.calls, pc.failure), d, s.calls[d]);
    }
  }

  lemma AdvanceKeepsEntries(s: State, c: nat)
    requires ScanInv(s) && LogInv(s) && c < |s.calls| && CanAdvance(s, c)
    ensures var u := Advanced(s, c);
      && u.lastOutcome == (if u.log == [] then Never else u.log[|u.log| - 1].outcome)
      && (forall i | 0 <= i < |u.log| :: u.log[i].channel == i && ClassIs(u.log[i].outcome, u.log[i].failure))
  {
    hide CallOk, JoinOk, SharedOk;
    assert PlaceOk(s, c, s.calls[c].pc);
  }

  lemma AdvanceKeepsCut(s: State, c: nat)
    requires MutexInv(s) && ScanInv(s) && LogInv(s) && c < |s.calls| && CanAdvance(s, c)
    ensures var u := Advanced(s, c); CutOk(|u.log|, u.calls, if Leading(u) then Some(u.leader) else None)
  {
    hide JoinOk, Source, MutexInv, SharedOk;
    assert PlaceOk(s, c, s.calls[c].pc);
    if s.calls[c].pc.SettingOutcome? {
      forall d | 0 <= d < |s.calls| ensures s.calls[d].since <= |s.log| { assert CallOk(s.log, d, s.calls[d]); }
    } else {
      if s.calls[c].pc.Making? { NothingReturned(s, c); }
      CutUntouched(s, c);
    }
  }

  lemma CutUntouched(s: State, c: nat)
    requires c < |s.calls| && CanAdvance(s, c) && PlaceOk(s, c, s.calls[c].pc)
    requires CutOk(|s.log|, s.calls, if Leading(s) then Some(s.leader) else None)
    requires !s.calls[c].pc.SettingOutcome?
    requires s.calls[c].pc.Making? ==> !(Leading(s) && ScanDone(s.calls[s.leader].pc))
    ensures var u := Advanced(s, c); CutOk(|u.log|, u.calls, if Leading(u) then Some(u.leader) else None)
  {
    hide JoinOk;
    var pc, u := s.calls[c].pc, Advanced(s, c);
    OthersStay(s, c);
    assert u.calls[c].since == s.calls[c].since && u.calls[c].unpublished == s.calls[c].unpublished;
    if pc.Making? {
      assert u.leader == c && !ScanDone(u.calls[c].pc);
    } else if c == s.leader {
      assert u.leader == c && u.log == s.log;
    } else {
      assert u.leader == s.leader && u.log == s.log;
    }
  }

  /** A call that is about to claim a channel finds no scan waiting to be published. */
  lemma NothingReturned(s: State, c: nat)
    requires MutexInv(s) && ScanInv(s) && c < |s.calls| && s.calls[c].pc.Making?
    ensures !(Leading(s) && ScanDone(s.calls[s.leader].pc))
  {
    hide JoinOk;
    assert PlaceOk(s, c, s.calls[c].pc);
  }

  lemma StepKeepsLog(s: State, e: Event)
    requires MutexInv(s) && ScanInv(s) && LogInv(s) && Enabled(s, e)
    ensures LogInv(After(s, e))
  {
    hide RecordOk, FreshObservationIds, WithRecord, Advanced, CanAdvance, MutexInv, ScanInv, CallOk;
    if e.Advance? {
      var c, u := e.c, Advanced(s, e.c);
      AdvanceKeepsOwnCall(s, c);
      AdvanceKeepsEntries(s, c);
      AdvanceKeepsCut(s, c);
      OthersStay(s, c);
      forall d | 0 <= d < |u.calls| && d != c ensures CallOk(u.log, d, u.calls[d]) { AdvanceKeepsOtherCall(s, c, d); }
    } else {
      LogStep(s, e);
    }
  }

  lemma LogStep(s: State, e: Event)
    requires ScanInv(s) && LogInv(s) && Enabled(s, e) && !e.Advance?
    ensures LogInv(After(s, e))
  {
    hide RecordOk, FreshObservationIds, WithRecord, JoinOk, SharedOk, Source;
    var u := After(s, e);
    if IsCallStep(e) {
      ScanMoves(s, e);
    } else {
      forall d | 0 <= d < |u.calls| ensures CallOk(u.log, d, u.calls[d]) {
        assert d < |s.calls| ==> CallOk(s.log, d, s.calls[d]);
      }
    }
  }

  lemma ScanMoves(s: State, e: Event)
    requires ScanInv(s) && LogInv(s) && Enabled(s, e) && IsCallStep(e) && !e.Advance?
    ensures LogInv(After(s, e))
  {
    hide RecordOk, FreshObservationIds, WithRecord, JoinOk, SharedOk, Source, BeginningOk, CutOk;
    var u, call := After(s, e), s.calls[e.c];
    assert PlaceOk(s, e.c, call.pc) && CallOk(s.log, e.c, call);
    BeginningKept(s.log, e.c, call, u.calls[e.c].pc);
    forall d | 0 <= d < |u.calls| && d != e.c ensures CallOk(u.log, d, u.calls[d]) {
      assert u.calls[d] == s.calls[d];
    }
    assert CallOk(u.log, e.c, u.calls[e.c]);
    ScanMovesCut(s, e);
  }

  lemma ScanMovesCut(s: State, e: Event)
    requires ScanInv(s) && LogInv(s) && Enabled(s, e) && IsCallStep(e) && !e.Advance?
    ensures var u := After(s, e); CutOk(|u.log|, u.calls, if Leading(u) then Some(u.leader) else None)
  {
    hide RecordOk, FreshObservationIds, WithRecord, JoinOk, SharedOk, CallOk;
    assert PlaceOk(s, e.c, s.calls[e.c].pc);
  }

  // ---- What is recorded ----

  lemma TruncateMonotone(a: Time, b: Time)
    requires a <= b
    ensures Truncate(a) <= Truncate(b)
  {
    assert a == SECOND * (a / SECOND) + a % SECOND && b == SECOND * (b / SECOND) + b % SECOND;
  }

  lemma StepKeepsDatabase(s: State, e: Event)
    requires DatabaseInv(s) && ScanInv(s) && Enabled(s, e)
    ensures DatabaseInv(After(s, e))
  {
    hide RecordOk, FreshObservationIds, WithRecord, ObservationsOk, ScanInv;
    if e.Record? {
      RecordKeepsDatabase(s, e);
    } else if e.Tick? {
      TruncateMonotone(s.clock, e.to);
    } else if e.Restart? {
      MorePublicationsKeepObservations(s.catalog, e.catalog, s.db);
    } else if e.Advance? {
      OthersStay(s, e.c);
    }
  }

  lemma RecordKeepsDatabase(s: State, e: Event)
    requires DatabaseInv(s) && ScanInv(s) && Enabled(s, e) && e.Record?
    ensures DatabaseInv(After(s, e))
  {
    hide RecordOk, FreshObservationIds, StateRows, ObservationsOk, SharedOk, JoinOk;
    var u := After(s, e);
    RecordKeepsConstraints(s.catalog, s.db, e.record, e.ids);
    TruncateMonotone(e.record.observedAt, s.clock);
    assert PlaceOk(s, e.c, s.calls[e.c].pc);
    forall d | 0 <= d < |u.calls| ensures !u.calls[d].pc.Stamped? {
      assert PlaceOk(s, d, s.calls[d].pc);
    }
  }

  lemma StepKeepsCount(s: State, e: Event)
    requires ScanInv(s) && CountInv(s) && Enabled(s, e)
    ensures CountInv(After(s, e))
  {
    hide RecordOk, FreshObservationIds, StateRows, JoinOk, Advanced, CanAdvance, SharedOk;
    if e.Advance? {
      AdvanceKeepsCount(s, e.c);
    } else if IsCallStep(e) {
      assert PlaceOk(s, e.c, s.calls[e.c].pc);
    }
  }

  lemma AdvanceKeepsCount(s: State, c: nat)
    requires ScanInv(s) && CountInv(s) && c < |s.calls| && CanAdvance(s, c)
    ensures CountInv(Advanced(s, c))
  {
    hide JoinOk;
    var pc := s.calls[c].pc;
    assert PlaceOk(s, c, pc);
    if pc.SettingOutcome? {
      assert Advanced(s, c).log[..|s.log|] == s.log;
    } else if !pc.Making? {
      CountUntouched(s, c);
    }
  }

  lemma CountUntouched(s: State, c: nat)
    requires CountInv(s) && c < |s.calls| && CanAdvance(s, c) && PlaceOk(s, c, s.calls[c].pc)
    requires !s.calls[c].pc.SettingOutcome? && !s.calls[c].pc.Making?
    ensures CountInv(Advanced(s, c))
  {
    hide JoinOk, Successes;
  }

  lemma InitialInv(catalog: Tables, db: ObservationTables, clock: Time)
    requires ObservationsOk(catalog, db) && RowsOrdered(db) && RowsBy(db, clock)
    ensures Inv(Initial(catalog, db, clock))
  {
    hide ObservationsOk;
  }

  lemma StepKeepsInv(s: State, e: Event)
    requires Inv(s) && Enabled(s, e)
    ensures Inv(After(s, e))
  {
    hide MutexInv, ScanInv, LogInv, DatabaseInv, CountInv, Enabled, After;
    StepKeepsMutex(s, e);
    StepKeepsScan(s, e);
    StepKeepsLog(s, e);
    StepKeepsDatabase(s, e);
    StepKeepsCount(s, e);
  }

  lemma {:induction false} RunKeepsInv(s: State, events: seq<Event>)
    requires Inv(s) && IsRun(s, events)
    ensures Inv(End(s, events))
    decreases |events|
  {
    hide Inv, Enabled, After;
    if events != [] {
      StepKeepsInv(s, events[0]);
      RunKeepsInv(After(s, events[0]), events[1..]);
    }
  }

  // ---- Single flight ----

  /** A reachable state of a service over this catalog. */
  ghost predicate Reachable(s: State) {
    exists catalog: Tables, db: ObservationTables, clock: Time, events: seq<Event> ::
      && ObservationsOk(catalog, db) && RowsOrdered(db) && RowsBy(db, clock)
      && IsRun(Initial(catalog, db, clock), events) && s == End(Initial(catalog, db, clock), events)
  }

  lemma ReachableInv(s: State)
    requires Reachable(s)
    ensures Inv(s)
  {
    hide Inv, ObservationsOk, RowsOrdered, RowsBy;
    var catalog: Tables, db: ObservationTables, clock: Time, events: seq<Event> :|
      && ObservationsOk(catalog, db) && RowsOrdered(db) && RowsBy(db, clock)
      && IsRun(Initial(catalog, db, clock), events) && s == End(Initial(catalog, db, clock), events);
    InitialInv(catalog, db, clock);
    RunKeepsInv(Initial(catalog, db, clock), events);
  }

  predicate IsScanning(pc: Pc) { pc.Scanning? || pc.Stamped? }

  /** At most one scan runs, and running names a channel exactly while one call owns it. */
  lemma OneScan(s: State)
    requires Reachable(s)
    ensures forall c, d | 0 <= c < |s.calls| && 0 <= d < |s.calls| && IsScanning(s.calls[c].pc)
            && IsScanning(s.calls[d].pc) :: c == d
    ensures forall c, d | 0 <= c < |s.calls| && 0 <= d < |s.calls| && InFlight(s.calls[c].pc)
            && InFlight(s.calls[d].pc) :: c == d
    ensures forall ch: Channel ::
      s.running == Some(ch) <==>
        (exists c :: 0 <= c < |s.calls| && InFlight(s.calls[c].pc) && s.calls[c].pc.channel == ch)
  {
    hide MutexInv, LogInv, DatabaseInv, CountInv, JoinOk, Reachable;
    ReachableInv(s);
    forall c | 0 <= c < |s.calls| && InFlight(s.calls[c].pc) ensures c == s.leader {
      assert PlaceOk(s, c, s.calls[c].pc);
    }
    forall c | 0 <= c < |s.calls| && IsScanning(s.calls[c].pc) ensures c == s.leader {
      assert PlaceOk(s, c, s.calls[c].pc);
    }
  }

  /** A call that will close this channel: it still has its steps before it. */
  predicate WillClose(pc: Pc, ch: Channel) { (InFlight(pc) || pc.Closing?) && pc.channel == ch }

  /** Whoever waits on an unclosed channel waits for a call that will close it. */
  lemma JoinersHaveALeader(s: State, c: nat)
    requires Reachable(s) && c < |s.calls| && s.calls[c].pc.Waiting? && s.calls[c].pc.channel !in s.closed
    ensures s.leader < |s.calls| && WillClose(s.calls[s.leader].pc, s.calls[c].pc.channel)
  {
    hide DatabaseInv, CountInv, LogInv, Reachable;
    ReachableInv(s);
    assert PlaceOk(s, c, s.calls[c].pc);
    assert Leading(s) ==> PlaceOk(s, s.leader, s.calls[s.leader].pc);
  }

  // ---- Every call returns ----

  function Rank(pc: Pc): nat {
    match pc
    case WantCheck => 12
    case Checking => 11
    case Making => 10
    case Setting(_) => 9
    case ClaimUnlock(_) => 8
    case Scanning(_) => 7
    case Stamped(_, _) => 6
    case WantPublish(_, _, _, _) | JoinUnlock(_) => 5
    case SettingOutcome(_, _, _, _) | Waiting(_) => 4
    case Clearing(_, _) | WantRead(_) => 3
    case Closing(_, _) | Reading(_) => 2
    case PublishUnlock(_, _) | ReadUnlock(_, _, _) => 1
    case Returned(_, _, _) => 0
  }

  /** How much the calls still have to do. */
  function Work(calls: seq<Call>): nat {
    if calls == [] then 0 else Work(calls[..|calls| - 1]) + Rank(calls[|calls| - 1].pc)
  }

  /** Steps of calls since the process started. */
  function CallSteps(events: seq<Event>): nat {
    if events == [] then 0
    else
      var e := events[|events| - 1];
      if e.Restart? then 0 else CallSteps(events[..|events| - 1]) + (if IsCallStep(e) then 1 else 0)
  }

  lemma {:induction false} WorkAfter(calls: seq<Call>, c: nat, call: Call)
    requires c < |calls|
    ensures Work(calls[c := call]) == Work(calls) - Rank(calls[c].pc) + Rank(call.pc)
    decreases |calls|
  {
    var n := |calls| - 1;
    if c == n {
      assert calls[c := call][..n] == calls[..n];
    } else {
      assert calls[c := call][..n] == calls[..n][c := call];
      WorkAfter(calls[..n], c, call);
    }
  }

  /** Every step of a call lowers its rank. */
  lemma StepLowersWork(s: State, e: Event)
    requires Enabled(s, e) && IsCallStep(e)
    ensures Work(After(s, e).calls) < Work(s.calls)
  {
    hide RecordOk, FreshObservationIds, StateRows;
    var u := After(s, e);
    assert u.calls == s.calls[e.c := u.calls[e.c]];
    assert Rank(u.calls[e.c].pc) < Rank(s.calls[e.c].pc);
    WorkAfter(s.calls, e.c, u.calls[e.c]);
  }

  /** Unless every call has returned, some call can take a step. */
  lemma NoDeadlock(s: State, c: nat)
    requires Reachable(s) && c < |s.calls| && !s.calls[c].pc.Returned?
    ensures exists e: Event :: IsCallStep(e) && Enabled(s, e)
  {
    hide DatabaseInv, CountInv, LogInv, Reachable, JoinOk;
    ReachableInv(s);
    if s.holder.Some? {
      var h := s.holder.value;
      assert Holds(s.calls[h].pc) && PlaceOk(s, h, s.calls[h].pc);
      assert CanAdvance(s, h);
      assert Enabled(s, Advance(h));
    } else if s.calls[c].pc.Waiting? && s.calls[c].pc.channel !in s.closed {
      JoinersHaveALeader(s, c);
      FreeLeaderMoves(s, s.leader);
    } else {
      FreeLeaderMoves(s, c);
    }
  }

  /** No call ever unlocks a mutex it does not hold or closes a channel again. */
  lemma NeverPanics(s: State, c: nat)
    requires Reachable(s) && c < |s.calls|
    ensures var pc := s.calls[c].pc;
      && (pc.Closing? ==> pc.channel !in s.closed)
      && (pc.JoinUnlock? || pc.ReadUnlock? || pc.ClaimUnlock? || pc.PublishUnlock? ==> s.holder == Some(c))
  {
    hide DatabaseInv, CountInv, LogInv, Reachable, JoinOk;
    ReachableInv(s);
    assert PlaceOk(s, c, s.calls[c].pc);
  }

  /**
   What State reports under the mutex: running means that one claimed scan is not
   published yet, and the outcome is the last one published, never only before any.
   */
  lemma StateReports(s: State)
    requires Reachable(s) && s.holder == None
    ensures s.running.Some? <==>
            exists c :: 0 <= c < |s.calls| && (IsScanning(s.calls[c].pc) || s.calls[c].pc.WantPublish?)
    ensures s.lastOutcome == Never <==> s.log == []
    ensures s.log != [] ==> s.lastOutcome == s.log[|s.log| - 1].outcome
  {
    hide DatabaseInv, CountInv, Reachable, JoinOk, CutOk, CallOk;
    ReachableInv(s);
    forall c | 0 <= c < |s.calls| && (IsScanning(s.calls[c].pc) || s.calls[c].pc.WantPublish?) ensures c == s.leader {
      assert PlaceOk(s, c, s.calls[c].pc);
    }
    if s.running.Some? { assert !Holds(s.calls[s.leader].pc); }
  }

  lemma FreeLeaderMoves(s: State, c: nat)
    requires MutexInv(s) && s.holder == None && c < |s.calls| && !s.calls[c].pc.Returned?
    requires s.calls[c].pc.Waiting? ==> s.calls[c].pc.channel in s.closed
    ensures exists e: Event :: IsCallStep(e) && Enabled(s, e)
  {
    assert !Holds(s.calls[c].pc);
    if IsScanning(s.calls[c].pc) {
      assert Enabled(s, ScanFails(c, OtherError));
    } else {
      assert Enabled(s, Advance(c));
    }
  }

  lemma EndExtends(s: State, events: seq<Event>, e: Event)
    requires IsRun(s, events + [e])
    ensures IsRun(s, events) && Enabled(End(s, events), e)
    ensures End(s, events + [e]) == After(End(s, events), e)
    decreases |events|
  {
    hide Enabled, After;
    if events == [] {
    } else {
      assert (events + [e])[1..] == events[1..] + [e];
      EndExtends(After(s, events[0]), events[1..], e);
    }
  }

  /**
   In any interleaving the calls begun take at most twelve steps each, waiting
   included. With NoDeadlock: if scans end, every call returns.
   */
  lemma {:induction false} StepsAreBounded(catalog: Tables, db: ObservationTables, clock: Time, events: seq<Event>)
    requires IsRun(Initial(catalog, db, clock), events)
    ensures var s := End(Initial(catalog, db, clock), events); CallSteps(events) + Work(s.calls) <= 12 * |s.calls|
    decreases |events|
  {
    hide RecordOk, FreshObservationIds, StateRows, Advanced, CanAdvance, Rank;
    if events != [] {
      var e, earlier := events[|events| - 1], events[..|events| - 1];
      assert events == earlier + [e];
      EndExtends(Initial(catalog, db, clock), earlier, e);
      StepsAreBounded(catalog, db, clock, earlier);
      BoundKept(End(Initial(catalog, db, clock), earlier), e, CallSteps(earlier));
    }
  }

  lemma BoundKept(s: State, e: Event, steps: nat)
    requires Enabled(s, e) && steps + Work(s.calls) <= 12 * |s.calls|
    ensures var u := After(s, e);
      (if e.Restart? then 0 else steps + (if IsCallStep(e) then 1 else 0)) + Work(u.calls) <= 12 * |u.calls|
  {
    hide RecordOk, FreshObservationIds, StateRows;
    var u := After(s, e);
    if IsCallStep(e) {
      StepLowersWork(s, e);
      assert |u.calls| == |s.calls|;
    } else if e.Begin? {
      assert u.calls[..|u.calls| - 1] == s.calls;
    }
  }

  /** When all calls have returned, every channel was closed and nothing is left running. */
  lemma QuietWhenAllReturned(s: State)
    requires Reachable(s) && forall c | 0 <= c < |s.calls| :: s.calls[c].pc.Returned?
    ensures s.running == None && s.holder == None && s.channels == |s.log|
    ensures forall ch :: ch in s.closed <==> 0 <= ch < s.channels
  {
    hide DatabaseInv, CountInv, LogInv, Reachable, JoinOk;
    ReachableInv(s);
  }

  // ---- Which outcome a call returns ----

  /**
   A call returns an outcome published after it began: its own scan's, or that of
   the scan it joined or of a later one; the joined scan's exactly when nothing
   else was published before it read.
   */
  lemma ReturnsFreshOutcome(s: State, c: nat)
    requires Reachable(s) && c < |s.calls| && s.calls[c].pc.Returned?
    ensures var r := s.calls[c].pc;
      && s.calls[c].since <= r.role.channel <= r.index < |s.log|
      && s.log[r.role.channel].channel == r.role.channel
      && r.outcome == s.log[r.index].outcome != Never && ClassIs(r.outcome, s.log[r.index].failure)
      && (r.role.Led? ==> r.index == r.role.channel)
      && (s.log[r.index].channel == r.role.channel <==> r.index == r.role.channel)
  {
    hide DatabaseInv, CountInv, ScanInv, MutexInv, Reachable;
    ReachableInv(s);
    assert CallOk(s.log, c, s.calls[c]);
  }

  /** A joiner reads entry |log| - 1: the joined scan's unless a later one was published first. */
  lemma JoinerReadsLatest(s: State, c: nat)
    requires Reachable(s) && c < |s.calls| && s.calls[c].pc.Reading?
    ensures var u, ch := Advanced(s, c), s.calls[c].pc.channel;
      && ch < |s.log| && u.calls[c].pc == ReadUnlock(ch, s.log[|s.log| - 1].outcome, |s.log| - 1)
      && (s.log[|s.log| - 1].channel == ch <==> |s.log| == ch + 1)
  {
    hide DatabaseInv, CountInv, MutexInv, Reachable;
    ReachableInv(s);
    assert PlaceOk(s, c, s.calls[c].pc);
  }

  /**
   The returned outcome comes from a scan that had itself already returned when the
   call began exactly when that scan was then still to be published and its entry is
   the one the call read; the call has then joined that very scan.
   */
  lemma StaleExactly(s: State, c: nat)
    requires Reachable(s) && c < |s.calls| && s.calls[c].pc.Returned?
    ensures var r, unpublished := s.calls[c].pc, s.calls[c].unpublished;
      && 0 <= r.index < |s.log|
      && (s.log[r.index].calls <= c <==> unpublished.Some? && r.index == unpublished.value)
      && (unpublished.Some? && r.index == unpublished.value ==> r.role == Joined(unpublished.value))
  {
    hide DatabaseInv, CountInv, ScanInv, MutexInv, Reachable;
    ReachableInv(s);
    assert CallOk(s.log, c, s.calls[c]);
  }

  lemma RunExtends(s: State, events: seq<Event>, e: Event)
    requires IsRun(s, events) && Enabled(End(s, events), e)
    ensures IsRun(s, events + [e])
    ensures End(s, events + [e]) == After(End(s, events), e)
    decreases |events|
  {
    hide Enabled, After;
    if events == [] {
      assert [e][1..] == [];
    } else {
      assert (events + [e])[1..] == events[1..] + [e];
      RunExtends(After(s, events[0]), events[1..], e);
    }
  }

  lemma ReachableStep(s: State, e: Event) returns (u: State)
    requires Reachable(s) && Enabled(s, e)
    ensures u == After(s, e) && Reachable(u)
  {
    hide ObservationsOk, RowsOrdered, RowsBy, Enabled, After;
    var catalog: Tables, db: ObservationTables, clock: Time, events: seq<Event> :|
      && ObservationsOk(catalog, db) && RowsOrdered(db) && RowsBy(db, clock)
      && IsRun(Initial(catalog, db, clock), events) && s == End(Initial(catalog, db, clock), events);
    RunExtends(Initial(catalog, db, clock), events, e);
    u := After(s, e);
  }

  /** Call 0 leads; its scan has returned and waits to publish. */
  lemma ScanReturnedUnpublished(catalog: Tables, error: StorageError) returns (s: State)
    ensures Reachable(s) && s.holder == None && s.running == Some(0) && s.log == [] && s.closed == {} && s.leader == 0
    ensures s.calls == [Call(0, None, WantPublish(0, OutcomeOf<()>(Err(error)), 1, Some(error)))]
  {
    hide Reachable;
    s := Initial(catalog, ObservationTables([], map[]), 0);
    EmptyIsReachable(catalog);
    s := ReachableStep(s, Begin);
    s := ReachableStep(s, Advance(0));
    s := ReachableStep(s, Advance(0));
    s := ReachableStep(s, Advance(0));
    s := ReachableStep(s, Advance(0));
    s := ReachableStep(s, Advance(0));
    s := ReachableStep(s, ScanFails(0, error));
  }

  lemma EmptyIsReachable(catalog: Tables)
    ensures Reachable(Initial(catalog, ObservationTables([], map[]), 0))
  {
    var db := ObservationTables([], map[]);
    assert IsRun(Initial(catalog, db, 0), []) && Initial(catalog, db, 0) == End(Initial(catalog, db, 0), []);
  }

  /** Call 1 has begun since, and joined. */
  lemma JoinedUnpublished(catalog: Tables, error: StorageError) returns (s: State)
    ensures Reachable(s) && s.holder == None && s.running == Some(0) && s.log == [] && s.closed == {}
    ensures |s.calls| == 2 && s.calls[0] == Call(0, None, WantPublish(0, OutcomeOf<()>(Err(error)), 1, Some(error)))
    ensures s.calls[1] == Call(0, Some(0), Waiting(0))
  {
    hide Reachable, OutcomeOf;
    s := ScanReturnedUnpublished(catalog, error);
    s := ReachableStep(s, Begin);
    s := ReachableStep(s, Advance(1));
    s := ReachableStep(s, Advance(1));
    s := ReachableStep(s, Advance(1));
  }

  lemma PublishedToJoiner(catalog: Tables, error: StorageError) returns (s: State)
    ensures Reachable(s) && s.holder == None && s.lastOutcome == OutcomeOf<()>(Err(error)) && s.closed == {0}
    ensures s.log == [Entry(0, OutcomeOf<()>(Err(error)), 1, Some(error))]
    ensures |s.calls| == 2 && s.calls[1] == Call(0, Some(0), Waiting(0))
  {
    hide Reachable, OutcomeOf;
    s := JoinedUnpublished(catalog, error);
    s := ReachableStep(s, Advance(0));
    s := ReachableStep(s, Advance(0));
    s := ReachableStep(s, Advance(0));
    s := ReachableStep(s, Advance(0));
    s := ReachableStep(s, Advance(0));
  }

  /** Call 1 begins after the only scan has returned, joins it unpublished, and returns its outcome. */
  lemma StaleJoinHappens(catalog: Tables, error: StorageError) returns (s: State)
    ensures Reachable(s)
    ensures |s.calls| == 2 && s.calls[1].pc == Returned(Joined(0), OutcomeOf<()>(Err(error)), 0)
    ensures |s.log| == 1 && s.log[0].calls <= 1
  {
    hide Reachable, OutcomeOf;
    s := PublishedToJoiner(catalog, error);
    s := ReachableStep(s, Advance(1));
    s := ReachableStep(s, Advance(1));
    s := ReachableStep(s, Advance(1));
    s := ReachableStep(s, Advance(1));
  }

  // ---- The latest observation ----

  /** Over any run, restarts included, the latest observation is the one recorded last. */
  lemma LatestIsLastRecorded(s: State)
    requires Reachable(s) && s.db.observations != []
    ensures LatestIndex(s.db.observations) == |s.db.observations| - 1
  {
    hide MutexInv, ScanInv, LogInv, CountInv, ObservationsOk, Reachable;
    ReachableInv(s);
    LatestIsLast(s.db.observations);
  }

  /** Only a successful scan records, and what it records becomes the latest observation. */
  lemma OnlySuccessRecords(s: State, e: Event)
    requires Reachable(s) && Enabled(s, e)
    ensures var u := After(s, e);
      if e.Record? then
        && u.calls[e.c].pc.WantPublish? && u.calls[e.c].pc.outcome == Succeeded && u.db.observations != []
        && u.db.observations[LatestIndex(u.db.observations)] == RowOfRecord(e.record, e.ids.observation)
      else u.db == s.db
  {
    hide Reachable, RecordOk, FreshObservationIds, StateRows;
    if e.Record? {
      var u := ReachableStep(s, e);
      LatestIsLastRecorded(u);
    }
  }

  /** Every published success is one recorded observation, and nothing else is recorded. */
  lemma SuccessesAreRecorded(s: State)
    requires Reachable(s) && s.running == None
    ensures |s.db.observations| == s.recordedBefore + Successes(s.log)
  {
    hide MutexInv, LogInv, DatabaseInv, Reachable, JoinOk;
    ReachableInv(s);
  }
}

/**
 Whole runs of commit calls whose steps interleave freely: looking up the
 operation, rechecking, and the serializable transaction are separate steps, and
 a call may be lost at any of them.
 */
module CommitRuns {
  import opened Text
  import opened Storage
  import opened Declarations
  import opened Planning
  import opened Catalog
  import opened Batches
  import opened Observations
  import opened Commits
  import opened Ownership
  import opened CatalogStore
  import opened Transactions
  import Reconciliation
  import Scanning

  datatype Stage =
    | Started
    | Missed                                              // no such operation was found
    | Checked                                             // the recheck reproduced the approved digest
    | Succeeded(result: AdoptionResult, replayed: bool)
    | Failed
    | Lost                                                // crashed; the caller learns nothing

  datatype Process = Process(call: Call, stage: Stage)

  datatype State = State(tables: Tables, calls: map<nat, Process>)

  function At(s: State, c: nat, stage: Stage): State
    requires c in s.calls
  {
    s.(calls := s.calls[c := s.calls[c].(stage := stage)])
  }

  ghost predicate Begin(s: State, u: State, c: nat, call: Call) {
    c !in s.calls && u == s.(calls := s.calls[c := Process(call, Started)])
  }

  function LookupStage(t: Tables, call: Call): Stage {
    if call.operationId !in t.operations then Missed
    else if t.operations[call.operationId].requestHash == HashOf(call) then
      Succeeded(t.operations[call.operationId].result, true)
    else Failed
  }

  ghost predicate Lookup(s: State, u: State, c: nat) {
    c in s.calls && s.calls[c].stage == Started
    && u == At(s, c, if CallOk(s.calls[c].call) then LookupStage(s.tables, s.calls[c].call) else Failed)
  }

  ghost predicate Recheck(s: State, u: State, c: nat, world: World) {
    c in s.calls && s.calls[c].stage == Missed
    && u == At(s, c, if Rechecked(s.calls[c].call, world) then Checked else Failed)
  }

  /** COMMIT took effect; the caller may still be lost before hearing of it. */
  ghost predicate TransactionTakesEffect(s: State, u: State, c: nat, ids: Ids, heard: bool) {
    c in s.calls && s.calls[c].stage == Checked
    && var batch := BatchOf(s.calls[c].call);
       Accepted(s.tables, batch, ids)
       && var stage := if heard then Succeeded(Recorded(batch, ids).result, false) else Lost;
          u == At(s, c, stage).(tables := Committed(s.tables, batch, ids))
  }

  /** The call ends without effect: an error, a rollback, or a crash. */
  ghost predicate Stop(s: State, u: State, c: nat, lost: bool) {
    c in s.calls && !s.calls[c].stage.Succeeded? && u == At(s, c, if lost then Lost else Failed)
  }

  datatype Event =
    | BeginEvent(c: nat, call: Call) | LookupEvent(c: nat) | RecheckEvent(c: nat, world: World)
    | TransactionEvent(c: nat, ids: Ids, heard: bool) | StopEvent(c: nat, lost: bool)

  ghost predicate Step(s: State, u: State, e: Event) {
    match e
    case BeginEvent(c, call) => Begin(s, u, c, call)
    case LookupEvent(c) => Lookup(s, u, c)
    case RecheckEvent(c, world) => Recheck(s, u, c, world)
    case TransactionEvent(c, ids, heard) => TransactionTakesEffect(s, u, c, ids, heard)
    case StopEvent(c, lost) => Stop(s, u, c, lost)
  }

  /** A run from an empty catalog. */
  ghost predicate Run(states: seq<State>, events: seq<Event>) {
    && |states| == |events| + 1
    && states[0] == State(EMPTY_TABLES, map[])
    && forall i | 0 <= i < |events| :: Step(states[i], states[i + 1], events[i])
  }

  // ---- The invariant ----

  /** A call past its recheck was rechecked against some storage; a success is on record. */
  ghost predicate ProcessOk(t: Tables, p: Process) {
    match p.stage
    case Missed => CallOk(p.call)
    case Checked => CallOk(p.call) && exists world :: Rechecked(p.call, world)
    case Succeeded(result, _) =>
      && p.call.operationId in t.operations
      && t.operations[p.call.operationId].requestHash == HashOf(p.call)
      && t.operations[p.call.operationId].result == result
    case _ => true
  }

  ghost predicate Inv(s: State) {
    && SchemaOk(s.tables) && Owned(s.tables)
    && forall c | c in s.calls :: ProcessOk(s.tables, s.calls[c])
  }

  /** Recorded operations are never changed or removed. */
  ghost predicate OperationsKept(t: Tables, u: Tables) {
    forall op | op in t.operations :: op in u.operations && u.operations[op] == t.operations[op]
  }

  lemma ProcessStaysOk(t: Tables, u: Tables, p: Process)
    requires ProcessOk(t, p) && OperationsKept(t, u)
    ensures ProcessOk(u, p)
  {}

  lemma CommitKeepsOperations(t: Tables, batch: Batch, ids: Ids)
    requires Accepted(t, batch, ids)
    ensures OperationsKept(t, Committed(t, batch, ids))
    ensures Committed(t, batch, ids).operations == t.operations[batch.operationId := Recorded(batch, ids)]
    ensures batch.operationId !in t.operations
  {
    hide ProjectRows, PublicationRows, ManifestRows, ObjectRows, Placements, ResultOf, NormalizeOk, Insertable;
  }

  lemma StepKeepsInv(s: State, u: State, e: Event)
    requires Inv(s) && Step(s, u, e)
    ensures Inv(u) && OperationsKept(s.tables, u.tables)
  {
    hide SchemaOk, Owned, Rechecked, CallOk, Accepted, Committed, BatchOf, HashOf;
    var c := e.c;
    match e
    case TransactionEvent(_, ids, heard) =>
      var call := s.calls[c].call;
      assert ProcessOk(s.tables, s.calls[c]);
      var world :| Rechecked(call, world);
      CommitKeepsOwnership(s.tables, call, world, ids);
      CommitKeepsOperations(s.tables, BatchOf(call), ids);
      TransactionProcessOk(s, u, c, ids, heard);
      forall d | d in u.calls ensures ProcessOk(u.tables, u.calls[d]) {
        if d != c { ProcessStaysOk(s.tables, u.tables, s.calls[d]); }
      }
    case RecheckEvent(_, world) =>
      assert ProcessOk(s.tables, s.calls[c]);
    case _ =>
  }

  lemma TransactionProcessOk(s: State, u: State, c: nat, ids: Ids, heard: bool)
    requires TransactionTakesEffect(s, u, c, ids, heard)
    ensures ProcessOk(u.tables, u.calls[c])
  {
    hide Accepted, Committed, Rechecked, CallOk;
    CommitKeepsOperations(s.tables, BatchOf(s.calls[c].call), ids);
  }

  lemma {:induction false} RunKeepsInv(states: seq<State>, events: seq<Event>, n: nat)
    requires Run(states, events) && n < |states|
    ensures Inv(states[n])
    decreases n
  {
    hide Step, Inv;
    if n == 0 {
      InitialInv();
    } else {
      RunKeepsInv(states, events, n - 1);
      StepKeepsInv(states[n - 1], states[n], events[n - 1]);
    }
  }

  lemma InitialInv()
    ensures Inv(State(EMPTY_TABLES, map[]))
  {
    EmptyIsOwned();
  }

  // ---- Global ownership over every run ----

  /** In every reachable catalog keys, paths and canonical URLs each have one publication. */
  lemma ReachableOwnership(states: seq<State>, events: seq<Event>, n: nat, id: Id, id': Id, baseURL: string)
    requires Run(states, events) && n < |states|
    requires id in states[n].tables.publications && id' in states[n].tables.publications && id != id'
    ensures var t := states[n].tables;
      var p, q := t.publications[id], t.publications[id'];
      && !Overlap(p.path, q.path)
      && (forall o, o' | HoldsObject(t, id, o) && HoldsObject(t, id', o') :: o.key != o'.key)
      && CanonicalURL(baseURL, p.path, p.entryPoint, p.routingMode)
         != CanonicalURL(baseURL, q.path, q.entryPoint, q.routingMode)
      && t.publications[id].currentManifest in t.manifests
      && t.manifests[t.publications[id].currentManifest].publicationId == id
  {
    hide Step, Overlap, CanonicalURL, WellPlaced, RowsOk, HoldsObject, ProcessOk;
    RunKeepsInv(states, events, n);
    var t := states[n].tables;
    PublicRoutesDistinct(t, baseURL, id, id');
    forall o, o' | HoldsObject(t, id, o) && HoldsObject(t, id', o') ensures o.key != o'.key {
      if o.key == o'.key { KeyHasOnePublication(t, id, id', o, o'); }
    }
  }

  /** Nor is any key in two rows of manifest_objects. */
  lemma ReachableKeysUnique(states: seq<State>, events: seq<Event>, n: nat, mk: (Id, string), mk': (Id, string))
    requires Run(states, events) && n < |states|
    requires mk in states[n].tables.objects && mk' in states[n].tables.objects && mk.1 == mk'.1
    ensures mk == mk'
  {
    hide Run, Owned, RowsOk, ProcessOk;
    RunKeepsInv(states, events, n);
    KeyHasOneRow(states[n].tables, mk, mk');
  }

  // ---- At most once ----

  lemma {:induction false} OperationsKeptBetween(states: seq<State>, events: seq<Event>, i: nat, j: nat)
    requires Run(states, events) && i <= j < |states|
    ensures OperationsKept(states[i].tables, states[j].tables)
    decreases j
  {
    hide Step, Inv;
    if i < j {
      OperationsKeptBetween(states, events, i, j - 1);
      RunKeepsInv(states, events, j - 1);
      StepKeepsInv(states[j - 1], states[j], events[j - 1]);
    }
  }

  /** Step n changes the catalog for an operation. */
  ghost predicate Changes(states: seq<State>, events: seq<Event>, n: nat, operationId: string) {
    n < |events| && n + 1 < |states| && events[n].TransactionEvent? && events[n].c in states[n].calls
    && states[n].calls[events[n].c].call.operationId == operationId
  }

  /** Only a transaction changes the catalog, and it records its operation, which was not on record. */
  lemma ChangeRecordsOperation(states: seq<State>, events: seq<Event>, n: nat)
    requires Run(states, events) && n < |events|
    ensures states[n].tables != states[n + 1].tables ==> exists op :: Changes(states, events, n, op)
    ensures forall op | Changes(states, events, n, op) ::
      op !in states[n].tables.operations && op in states[n + 1].tables.operations
  {
    hide Committed, Accepted, Rechecked, CallOk;
    var s, u, e := states[n], states[n + 1], events[n];
    assert Step(s, u, e);
    if e.TransactionEvent? {
      CommitKeepsOperations(s.tables, BatchOf(s.calls[e.c].call), e.ids);
      assert Changes(states, events, n, s.calls[e.c].call.operationId);
    }
  }

  /** Over any run each operation ID changes the catalog at most once. */
  lemma OperationChangesOnce(states: seq<State>, events: seq<Event>, i: nat, j: nat, operationId: string)
    requires Run(states, events)
    requires Changes(states, events, i, operationId) && Changes(states, events, j, operationId)
    ensures i == j
  {
    hide Step;
    ChangeRecordsOperation(states, events, i);
    ChangeRecordsOperation(states, events, j);
    if i < j { OperationsKeptBetween(states, events, i + 1, j); }
    if j < i { OperationsKeptBetween(states, events, j + 1, i); }
  }

  /** Two successes with one operation ID approve the same plan and return the same result, whenever they happen. */
  lemma SuccessesAgree(states: seq<State>, events: seq<Event>, i: nat, j: nat, c: nat, d: nat)
    requires Run(states, events) && i < |states| && j < |states|
    requires c in states[i].calls && states[i].calls[c].stage.Succeeded?
    requires d in states[j].calls && states[j].calls[d].stage.Succeeded?
    requires states[i].calls[c].call.operationId == states[j].calls[d].call.operationId
    ensures states[i].calls[c].stage.result == states[j].calls[d].stage.result
    ensures states[i].calls[c].call.approved.digest == states[j].calls[d].call.approved.digest
  {
    hide Step, SchemaOk, Owned;
    RunKeepsInv(states, events, i);
    RunKeepsInv(states, events, j);
    assert ProcessOk(states[i].tables, states[i].calls[c]) && ProcessOk(states[j].tables, states[j].calls[d]);
    if i <= j { OperationsKeptBetween(states, events, i, j); } else { OperationsKeptBetween(states, events, j, i); }
  }

  // ---- Scans of a reachable catalog ----

  /**
   On every reachable catalog a completed scan of a duplicate-free listing accounts for
   every byte, certifies the bucket whenever it sets no lock, and can be recorded.
   */
  lemma ReachableScanIsSound(states: seq<State>, events: seq<Event>, n: nat, listing: seq<ObjectListing>,
                             ms: seq<PublicationManifest>, v: Scanning.View, now: Time, r: Scanning.ScanResult)
    requires Run(states, events) && n < |states| && AcceptedManifestsOf(states[n].tables, ms)
    requires v.observed == ObservedOf(listing) && Scanning.ScanIs(listing, ms, v, now, r) && Distinct(Keys(listing))
    ensures r.usage.totalBytes
         == r.usage.unclaimedBytes + Reconciliation.ObservedTotal(r.publications)
            + Reconciliation.VanishedSize(v, Scanning.AllObjects(ms))
    ensures r.lock == LockNone ==>
      && v.observed.Keys == Scanning.Claimed(ms)
      && r.usage.unclaimedBytes == 0 && r.usage.totalBytes == r.usage.acceptedBytes
    ensures r.lock != LockNone ==> r.lock == LockGlobal
    ensures now != ZERO_TIME && (forall e | e in listing :: e.size >= 0) ==>
      forall record | Scanning.RecordOf(r, record) :: RecordOk(states[n].tables, record)
  {
    hide Step, ProcessOk, AcceptedManifestsOf, ObservedOf, Distinct, Owned, RowsOk, RecordOk, Run;
    RunKeepsInv(states, events, n);
    AcceptedManifestsShareNothing(states[n].tables, ms);
    Reconciliation.UsageConserved(listing, ms, v, now, r);
    if r.lock == LockNone { Reconciliation.LockNoneCertifiesBucket(listing, ms, v, now, r); }
    if now != ZERO_TIME && forall e | e in listing :: e.size >= 0 {
      forall record | Scanning.RecordOf(r, record) ensures RecordOk(states[n].tables, record) {
        Reconciliation.ScanIsRecordable(states[n].tables, listing, ms, v, now, r, record);
      }
    }
  }

  // ---- The methods take these steps ----

  /** Looking up the operation, after the checks that need no catalog, is a lookup step. */
  method LookupIsAStep(store: Store, ghost s: State, ghost c: nat, call: Call)
    returns (ghost u: State, found: Option<OperationRow>)
    requires store.tables == s.tables && c in s.calls && s.calls[c] == Process(call, Started) && CallOk(call)
    ensures Step(s, u, LookupEvent(c)) && u.tables == store.tables
    ensures found.None? <==> u.calls[c].stage == Missed
    ensures found.Some? && found.value.requestHash == HashOf(call) ==>
        u.calls[c].stage == Succeeded(found.value.result, true)
  {
    hide CallOk;
    found := store.FindOperation(call.operationId);
    u := At(s, c, LookupStage(s.tables, call));
  }

  /** Planning again and comparing digests is a recheck step. */
  method RecheckIsAStep(ghost s: State, ghost c: nat, call: Call, world: World) returns (ghost u: State, same: bool)
    requires c in s.calls && s.calls[c] == Process(call, Missed)
    ensures Step(s, u, RecheckEvent(c, world))
    ensures same <==> u.calls[c].stage == Checked
  {
    hide PlanSucceeds, PlannedContent, ValidDeclaration;
    var content := call.approved.content;
    var rechecked := BuildPlan(world, content.publicBaseURL, content.declaration);
    same := rechecked.Ok? && rechecked.value.digest == call.approved.digest;
    u := At(s, c, if Rechecked(call, world) then Checked else Failed);
  }

  /** The transaction, whatever befalls it, takes effect as a whole or stops the call. */
  method TransactionIsAStep(store: Store, ghost s: State, ghost c: nat, batch: Batch, ids: Ids, faults: Faults)
    returns (ghost u: State, ghost e: Event, outcome: Outcome)
    requires store.Valid() && store.tables == s.tables
    requires c in s.calls && s.calls[c].stage == Checked && batch == BatchOf(s.calls[c].call)
    modifies store`tables
    ensures store.Valid() && Step(s, u, e) && u.tables == store.tables
    ensures e.TransactionEvent? || e.StopEvent?
    ensures outcome.Accept? ==> u.calls[c].stage == Succeeded(outcome.result, false)
    ensures outcome.Reject? ==> u.calls[c].stage == Failed
    ensures outcome.Crash? ==> u.calls[c].stage == Lost
  {
    hide Accepted, Committed, BatchOf, Recorded, SchemaOk, ObservationsOk, NoFaults;
    outcome := store.CommitAdoptionBatch(batch, ids, faults);
    if outcome.Accept? {
      CommitKeepsOperations(s.tables, batch, ids);
      e := TransactionEvent(c, ids, true);
      u := At(s, c, Succeeded(outcome.result, false)).(tables := store.tables);
    } else if store.tables == s.tables {
      e := StopEvent(c, outcome.Crash?);
      u := At(s, c, if outcome.Crash? then Lost else Failed);
    } else {
      e := TransactionEvent(c, ids, false);
      u := At(s, c, Lost).(tables := store.tables);
    }
  }
}

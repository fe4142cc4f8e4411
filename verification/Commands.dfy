/**
 The two operations that glue storage and catalog together: committing an
 approved plan (internal/adoption/commit.go) and running one observation
 (internal/observe/run.go).
 */
module Commands {
  import opened Storage
  import opened Declarations
  import opened Planning
  import opened Catalog
  import opened Batches
  import opened Transactions
  import opened Observations
  import opened Scanning
  import opened Reconciliation
  import opened Verdicts
  import opened Commits
  import opened Ownership
  import opened Results
  import opened DeclaredRows
  import opened CatalogStore

  datatype CommitResult = Success(result: AdoptionResult, replayed: bool) | Failure | Lost

  /** The answer to an operation on record: its result if it was recorded for this request, a failure otherwise. */
  ghost predicate Replays(t: Tables, call: Call, r: CommitResult) {
    && call.operationId in t.operations
    && r == if t.operations[call.operationId].requestHash == RequestHash(call.operationId, call.approved.digest)
            then Success(t.operations[call.operationId].result, true) else Failure
  }

  /** The whole rechecked batch was committed: the declaration as declared and seen, and nothing else. */
  ghost predicate TakesEffect(t: Tables, u: Tables, call: Call, world: World, ids: Ids) {
    && CommitAccepted(t, call, world, ids) && u == Committed(t, BatchOf(call), ids)
    && DeclarationStored(t, u, world, call.approved.content, call.approved.digest)
  }

  /** And the result is recorded under the operation and names the new rows. */
  ghost predicate NamesRows(t: Tables, u: Tables, call: Call, r: CommitResult) {
    && r.Success? && !r.replayed
    && BatchStored(t, u, call.operationId, RequestHash(call.operationId, call.approved.digest), call.approved.digest,
                   r.result)
  }

  /** The call is refused before storage or catalog is consulted. */
  ghost predicate BadCall(call: Call) {
    || call.approved.digest != DigestOf(call.approved.content) || !ValidDeclaration(call.approved.content.declaration)
    || call.operationId == ""
    || (call.expectedBaseURL != "" && call.expectedBaseURL != call.approved.content.publicBaseURL)
  }

  /** storageRead reports whether planning consulted storage at all. */
  method Commit(store: Store, call: Call, world: World, ids: Ids, faults: Faults)
    returns (r: CommitResult, storageRead: bool)
    requires store.Valid()
    modifies store`tables
    ensures store.Valid()
    ensures BadCall(call) ==> r.Failure? && !storageRead
    // A recorded operation never changes the catalog or reads storage again.
    ensures call.operationId in old(store.tables.operations) ==> !storageRead && store.tables == old(store.tables)
    ensures !BadCall(call) && call.operationId in old(store.tables.operations) ==> Replays(old(store.tables), call, r)
    // Only a recorded operation is answered as a replay.
    ensures r.Success? && r.replayed ==> call.operationId in old(store.tables.operations)
    // Otherwise the catalog changes only by the whole rechecked batch.
    ensures store.tables == old(store.tables) || TakesEffect(old(store.tables), store.tables, call, world, ids)
    ensures r.Success? && !r.replayed ==>
      && TakesEffect(old(store.tables), store.tables, call, world, ids)
      && NamesRows(old(store.tables), store.tables, call, r)
    ensures (r.Failure? ==> store.tables == old(store.tables)) && (r.Lost? ==> Crashing(faults))
    ensures NoFaults(faults) && call.operationId !in old(store.tables.operations) ==>
      (r.Success? <==> CommitAccepted(old(store.tables), call, world, ids))
    ensures Owned(old(store.tables)) ==> Owned(store.tables)
  {
    hide Accepted, Committed, Rechecked, ValidDeclaration, Owned, ProjectsOf, PlanSucceeds, NoFaults, BatchStored,
         DeclarationStored;
    storageRead := false;
    var content := call.approved.content;
    if !call.approved.Verify() {
      return Failure, storageRead;
    }
    var valid := Validate(content.declaration);
    if !valid || call.operationId == "" {
      return Failure, storageRead;
    }
    if call.expectedBaseURL != "" && call.expectedBaseURL != content.publicBaseURL {
      return Failure, storageRead;
    }
    var found := store.FindOperation(call.operationId);
    if found.Some? {
      if found.value.requestHash != HashOf(call) {
        return Failure, storageRead;
      }
      return Success(found.value.result, true), storageRead;
    }
    storageRead := true;
    r := CommitNew(store, call, world, ids, faults);
  }

  /** The recheck and the transaction of an operation that is not recorded yet. */
  method CommitNew(store: Store, call: Call, world: World, ids: Ids, faults: Faults) returns (r: CommitResult)
    requires store.Valid() && CallOk(call)
    modifies store`tables
    ensures store.Valid()
    ensures store.tables == old(store.tables) || TakesEffect(old(store.tables), store.tables, call, world, ids)
    ensures r.Success? ==>
      && TakesEffect(old(store.tables), store.tables, call, world, ids)
      && NamesRows(old(store.tables), store.tables, call, r)
    ensures (r.Failure? ==> store.tables == old(store.tables)) && (r.Lost? ==> Crashing(faults))
    ensures NoFaults(faults) ==> (r.Success? <==> CommitAccepted(old(store.tables), call, world, ids))
    ensures Owned(old(store.tables)) ==> Owned(store.tables)
  {
    hide Accepted, Committed, Rechecked, CallOk, Owned, ProjectsOf, PlanSucceeds, NoFaults, BatchStored,
         DeclarationStored, SchemaOk;
    var content := call.approved.content;
    var rechecked := BuildPlan(world, content.publicBaseURL, content.declaration);
    RecheckedExactly(call, world);
    if rechecked.Err? {
      return Failure;
    }
    assert rechecked.value.digest == DigestOf(rechecked.value.content);
    if rechecked.value.digest != call.approved.digest {
      return Failure;
    }
    RecheckPinsContent(call, world);
    var projects := AdoptProjects(rechecked.value.content.publications);
    var outcome := store.CommitAdoptionBatch(
      Batch(call.operationId, HashOf(call), call.approved.digest, projects), ids, faults);
    if store.tables != old(store.tables) || outcome.Accept? {
      DeclaredRowsExact(old(store.tables), call, world, ids, store.tables);
      if Owned(old(store.tables)) { CommitKeepsOwnership(old(store.tables), call, world, ids); }
    }
    match outcome
    case Accept(result) => return Success(result, false);
    case Reject => return Failure;
    case Crash => return Lost;
  }

  lemma RecheckedExactly(call: Call, world: World)
    ensures var content := call.approved.content;
      Rechecked(call, world) <==>
      PlanSucceeds(world, content.publicBaseURL, content.declaration)
      && DigestOf(PlannedContent(world, content.publicBaseURL, content.declaration)) == call.approved.digest
  {}

  /**
   One observation: read the accepted manifests, scan, record. Accepted state is
   untouched, a failed scan records nothing, and a scan of this catalog's own
   manifests is never refused for its content.
   */
  method Run(store: Store, rows: seq<JoinRow>, list: Response<seq<ObjectListing>>, answers: Answers, complete: bool,
             now: Time, ids: ObservationIds, faults: Faults)
    returns (r: Response<ScanResult>, ms: seq<PublicationManifest>)
    requires store.Valid() && IsJoin(store.tables, rows)
    modifies store`observations
    ensures store.Valid()
    ensures AcceptedManifestsOf(store.tables, ms)
    ensures list.Err? ==> r == Err(list.error) && store.observations == old(store.observations)
    // A scan with an unanswered request records nothing and fails with its first failing request.
    ensures list.Ok? && !AllAnswered(View(ObservedOf(list.value), answers, complete), ms) ==>
      && store.observations == old(store.observations)
      && r.Err? && FirstFailure(View(ObservedOf(list.value), answers, complete), ms, r.error)
    // One that completes is stored exactly as it is, or not at all; then the error says nothing more.
    ensures list.Ok? && AllAnswered(View(ObservedOf(list.value), answers, complete), ms) ==>
      && (r.Err? ==> r.error == OtherError)
      && (|| store.observations == old(store.observations)
          || ObservationAdded(list.value, ms, View(ObservedOf(list.value), answers, complete), now,
                              old(store.observations), ids.observation, store.observations))
    ensures r.Err? && NoLateCrash(faults) ==> store.observations == old(store.observations)
    ensures r.Ok? ==>
      && list.Ok? && ScanIs(list.value, ms, View(ObservedOf(list.value), answers, complete), now, r.value)
      && Stored(old(store.observations), store.observations, ids.observation, ms, r.value)
    ensures (&& list.Ok? && now != ZERO_TIME && (forall e | e in list.value :: e.size >= 0)
             && AllAnswered(View(ObservedOf(list.value), answers, complete), ms)
             && NoFaults(faults) && FreshObservationIds(old(store.observations), ids, |ms|)) ==> r.Ok?
  {
    hide AcceptedManifestsOf, IsJoin, Comparable, FirstError, ObservedOf, RecordOk, WithRecord, FreshObservationIds,
         SchemaOk, ObservationsOk, NoFaults, ScanIs, Stored, ObservationAdded, RecordOf, ScanError, FirstFailure,
         AllAnswered;
    ms := store.AcceptedManifests(rows);
    ghost var before := store.observations;
    if list.Ok? { ScanCompletes(View(ObservedOf(list.value), answers, complete), ms); }
    var scanned := Scan(list, ms, answers, complete, now);
    if scanned.Err? {
      if list.Ok? { ScanErrorExact(View(ObservedOf(list.value), answers, complete), ms, scanned.error); }
      return Err(scanned.error), ms;
    }
    var record := Record(scanned.value);
    if now != ZERO_TIME && forall e | e in list.value :: e.size >= 0 {
      SchemaRows(store.tables);
      ScanIsRecordable(store.tables, list.value, ms, View(ObservedOf(list.value), answers, complete), now,
                       scanned.value, record);
    }
    var recorded := store.RecordObservation(record, ids, faults);
    RecordSize(scanned.value, record, ms, list.value, View(ObservedOf(list.value), answers, complete), now);
    if store.observations != before || recorded.Ok? {
      SameStored(store.tables, list.value, ms, View(ObservedOf(list.value), answers, complete), now, scanned.value,
                 record, before, ids);
    }
    if recorded.Err? {
      return Err(OtherError), ms;
    }
    return Ok(scanned.value), ms;
  }

  /** The tables hold one more observation: exactly what the completed scan found. */
  ghost predicate ObservationAdded(listing: seq<ObjectListing>, ms: seq<PublicationManifest>, v: View, now: Time,
                                   before: ObservationTables, id: Id, after: ObservationTables) {
    exists r: ScanResult :: ScanIs(listing, ms, v, now, r) && Stored(before, after, id, ms, r)
  }

  lemma RecordSize(r: ScanResult, record: ObservationRecord, ms: seq<PublicationManifest>, listing: seq<ObjectListing>,
                   v: View, now: Time)
    requires ScanIs(listing, ms, v, now, r) && RecordOf(r, record)
    ensures |record.publications| == |ms|
  {}

  lemma SameStored(t: Tables, listing: seq<ObjectListing>, ms: seq<PublicationManifest>, v: View, now: Time,
                   r: ScanResult, record: ObservationRecord, before: ObservationTables, ids: ObservationIds)
    requires ScanIs(listing, ms, v, now, r) && RecordOf(r, record)
    requires ObservationsOk(t, before) && RecordOk(t, record) && FreshObservationIds(before, ids, |record.publications|)
    ensures Stored(before, WithRecord(before, record, ids, |record.publications|), ids.observation, ms, r)
    ensures ObservationAdded(listing, ms, v, now, before, ids.observation,
                             WithRecord(before, record, ids, |record.publications|))
  {
    hide ObservationsOk, RecordOk, FreshObservationIds, WithRecord, RecordOf, Stored, StateOf, FoundSize, DetailOf;
    StoredExactly(t, before, record, ids, ms, r);
  }

  lemma SchemaRows(t: Tables)
    requires SchemaOk(t)
    ensures RowsOk(t)
  {}
}

/** The opened catalog (internal/catalog): its tables and the operations on them. */
module CatalogStore {
  import opened Storage
  import opened Catalog
  import opened Batches
  import opened Transactions
  import opened Observations
  import opened Results

  class Store {
    var tables: Tables
    var observations: ObservationTables

    ghost predicate Valid()
      reads this
    {
      SchemaOk(tables) && ObservationsOk(tables, observations)
    }

    constructor ()
      ensures Valid() && tables == EMPTY_TABLES && observations == ObservationTables([], map[])
    {
      tables := EMPTY_TABLES;
      observations := ObservationTables([], map[]);
    }

    method FindOperation(operationId: string) returns (r: Option<OperationRow>)
      ensures r.Some? <==> operationId in tables.operations
      ensures r.Some? ==> r.value == tables.operations[operationId]
    {
      if operationId in tables.operations {
        return Some(tables.operations[operationId]);
      }
      return None;
    }

    /**
     The whole batch in one transaction. Whatever statement fails and wherever the
     process crashes, the tables are the old ones or exactly the old ones plus the batch.
     */
    method CommitAdoptionBatch(batch: Batch, ids: Ids, faults: Faults) returns (r: Outcome)
      requires Valid()
      modifies this`tables
      ensures Valid()
      ensures tables == old(tables)
           || (Accepted(old(tables), batch, ids) && tables == Committed(old(tables), batch, ids)
               && batch.operationId in tables.operations
               && BatchStored(old(tables), tables, batch.operationId, batch.requestHash, batch.planDigest,
                              tables.operations[batch.operationId].result))
      ensures r.Accept? ==> Accepted(old(tables), batch, ids) && tables == Committed(old(tables), batch, ids)
                            && BatchStored(old(tables), tables, batch.operationId, batch.requestHash,
                                           batch.planDigest, r.result)
      ensures (r.Reject? ==> tables == old(tables)) && (r.Crash? ==> Crashing(faults))
      ensures NoFaults(faults) ==> (r.Accept? <==> Accepted(old(tables), batch, ids))
    {
      hide Accepted, Committed, SchemaOk, ObservationsOk, DeferredOk, BatchStored;
      var tx, result, next := Prepare(tables, batch, ids, faults);
      if tx.Err? {
        return tx.error;
      }
      CommittedSchemaOk(tables, batch, ids);
      CommittedReads(tables, batch, ids);
      MorePublicationsKeepObservations(tables, tx.value, observations);
      if !DeferredOk(tx.value) {
        return Reject;
      }
      var fault := faults(next);
      if fault.Proceeds? || fault.CrashesAfter? {
        tables := tx.value;
      }
      if !fault.Proceeds? {
        return StoppedBy(fault);
      }
      return Accept(result);
    }

    /** The join query's rows come from the database; grouping them is this method's work. */
    method AcceptedManifests(rows: seq<JoinRow>) returns (ms: seq<PublicationManifest>)
      requires Valid() && IsJoin(tables, rows)
      ensures AcceptedManifestsOf(tables, ms)
    {
      ms := GroupRows(rows);
      GroupedJoinIsAccepted(tables, rows, ms);
    }

    /** One observation and its publication states in one transaction. */
    method RecordObservation(record: ObservationRecord, ids: ObservationIds, faults: Faults)
      returns (r: Result<(), Outcome>)
      requires Valid()
      modifies this`observations
      ensures Valid()
      ensures observations == old(observations)
           || (RecordOk(tables, record) && FreshObservationIds(old(observations), ids, |record.publications|)
               && observations == WithRecord(old(observations), record, ids, |record.publications|))
      ensures r.Ok? ==> RecordOk(tables, record) && FreshObservationIds(old(observations), ids, |record.publications|)
                        && observations == WithRecord(old(observations), record, ids, |record.publications|)
      ensures r == Err(Reject) || (r.Err? && NoLateCrash(faults)) ==> observations == old(observations)
      ensures NoFaults(faults) ==>
        (r.Ok? <==> RecordOk(tables, record) && FreshObservationIds(old(observations), ids, |record.publications|))
    {
      hide ObservationsOk, SchemaOk, WithRecord, NoFaults;
      var tx, next := PrepareObservation(tables, observations, record, ids, faults);
      if tx.Err? {
        return Err(tx.error);
      }
      RecordKeepsConstraints(tables, observations, record, ids);
      var fault := faults(next);
      if fault.Proceeds? || fault.CrashesAfter? {
        observations := tx.value;
      }
      if !fault.Proceeds? {
        assert !NoFaults(faults) by { if NoFaults(faults) { Quiet(faults, next); } }
        return Err(StoppedBy(fault));
      }
      return Ok(());
    }

    method LatestObservation() returns (r: Option<ObservationResult>)
      requires Valid()
      ensures r.None? <==> observations.observations == []
      ensures r.Some? ==>
          ReadsBack(observations, observations.observations[LatestIndex(observations.observations)], r.value)
    {
      r := ReadLatest(tables, observations);
    }
  }

  lemma CommittedReads(t: Tables, batch: Batch, ids: Ids)
    requires Accepted(t, batch, ids)
    ensures var u := Committed(t, batch, ids);
      && t.publications.Keys <= u.publications.Keys
      && batch.operationId in u.operations && u.operations[batch.operationId] == Recorded(batch, ids)
  {
    hide Accepted, PublicationRows, ManifestRows, ObjectRows, ProjectRows, Placements, ResultOf;
  }

  /** Everything RecordObservation does before COMMIT. */
  method PrepareObservation(t: Tables, ot: ObservationTables, record: ObservationRecord, ids: ObservationIds,
                            faults: Faults)
    returns (r: Result<ObservationTables, Outcome>, next: nat)
    requires ObservationsOk(t, ot)
    ensures r.Ok? ==> RecordOk(t, record) && FreshObservationIds(ot, ids, |record.publications|)
                      && r.value == WithRecord(ot, record, ids, |record.publications|)
    ensures r.Err? ==> !r.error.Accept?
    ensures NoFaults(faults) ==> (r.Ok? <==> RecordOk(t, record) && FreshObservationIds(ot, ids, |record.publications|))
  {
    hide ObservationsOk, StateRows, NoFaults;
    next := 0;
    if record.lock.OtherLock? || record.observedAt == ZERO_TIME {
      return Err(Reject), next;
    }
    assert NoFaults(faults) ==> faults(0) == Proceeds by { if NoFaults(faults) { Quiet(faults, 0); } }
    if !faults(0).Proceeds? {
      return Err(StoppedBy(faults(0))), next;
    }
    next := 1;
    var inserted := InsertObservation(ot, RowOfRecord(record, ids.observation));
    if inserted.None? {
      return Err(Reject), next;
    }
    WithRecordNoStates(ot, record, ids);
    var tx := inserted.value;
    for i := 0 to |record.publications|
      invariant StatesOk(t, record, i) && FreshStateIds(ot, ids, i)
      invariant tx == WithRecord(ot, record, ids, i)
    {
      var entry := record.publications[i];
      StateStep(t, ot, record, ids, i);
      if entry.observation.state.OtherState? {
        return Err(Reject), next;
      }
      assert NoFaults(faults) ==> faults(next) == Proceeds by { if NoFaults(faults) { Quiet(faults, next); } }
      if !faults(next).Proceeds? {
        return Err(StoppedBy(faults(next))), next;
      }
      next := next + 1;
      var state := InsertState(t, tx, ids.state(i), StateRow(ids.observation, entry.publicationId, entry.observation));
      if state.None? {
        return Err(Reject), next;
      }
      tx := state.value;
    }
    r := Ok(tx);
  }
}

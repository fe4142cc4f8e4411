/**
 Reading accepted manifests out of the catalog and keeping observations beside
 them (internal/catalog/observation.go).
 */
module Observations {
  import opened Text
  import opened Storage
  import opened Catalog

  // ---- Accepted manifests ----

  datatype PublicationManifest = PublicationManifest(publicationId: Id, path: string, objects: seq<ManifestObject>)

  function ManifestPaths(ms: seq<PublicationManifest>): (paths: seq<string>)
    ensures |paths| == |ms|
    ensures forall i | 0 <= i < |paths| :: paths[i] == ms[i].path
  {
    seq(|ms|, i requires 0 <= i < |ms| => ms[i].path)
  }

  /** o is an object of publication id's current manifest. */
  ghost predicate HoldsObject(t: Tables, id: Id, o: ManifestObject) {
    id in t.publications && (t.publications[id].currentManifest, o.key) in t.objects
    && t.objects[(t.publications[id].currentManifest, o.key)] == o
  }

  ghost predicate ManifestOf(t: Tables, m: PublicationManifest) {
    && m.publicationId in t.publications && m.path == t.publications[m.publicationId].path
    && m.objects != [] && Ascending(ObjectKeys(m.objects))
    && forall o :: o in m.objects <==> HoldsObject(t, m.publicationId, o)
  }

  /** The current manifest of every publication that holds objects, each once, by path. */
  ghost predicate AcceptedManifestsOf(t: Tables, ms: seq<PublicationManifest>) {
    && Ascending(ManifestPaths(ms))
    && (forall m | m in ms :: ManifestOf(t, m))
    && (forall id, o | HoldsObject(t, id, o) :: exists m :: m in ms && m.publicationId == id)
  }

  datatype JoinRow = JoinRow(publicationId: Id, path: string, entry: ManifestObject)

  ghost predicate RowBefore(r: JoinRow, s: JoinRow) {
    Less(r.path, s.path) || (r.path == s.path && Less(r.entry.key, s.entry.key))
  }

  /** The join of publications and their current manifests' objects, ordered by path and key. */
  ghost predicate IsJoin(t: Tables, rows: seq<JoinRow>) {
    && (forall r | r in rows ::
      HoldsObject(t, r.publicationId, r.entry) && r.path == t.publications[r.publicationId].path)
    && (forall id, o | HoldsObject(t, id, o) :: JoinRow(id, t.publications[id].path, o) in rows)
    && (forall i, j | 0 <= i < j < |rows| :: RowBefore(rows[i], rows[j]))
  }

  function FirstIds(rows: seq<JoinRow>): seq<Id> {
    if rows == [] then []
    else
      var n := |rows| - 1;
      var earlier := FirstIds(rows[..n]);
      if rows[n].publicationId in earlier then earlier else earlier + [rows[n].publicationId]
  }

  function EntriesOf(rows: seq<JoinRow>, id: Id): seq<ManifestObject> {
    if rows == [] then []
    else
      var n := |rows| - 1;
      EntriesOf(rows[..n], id) + (if rows[n].publicationId == id then [rows[n].entry] else [])
  }

  function FirstPath(rows: seq<JoinRow>, id: Id): string {
    if rows == [] then ""
    else
      var n := |rows| - 1;
      if id !in FirstIds(rows[..n]) && rows[n].publicationId == id then rows[n].path else FirstPath(rows[..n], id)
  }

  function GroupOf(rows: seq<JoinRow>, id: Id): PublicationManifest {
    PublicationManifest(id, FirstPath(rows, id), EntriesOf(rows, id))
  }

  lemma {:induction false} NothingBeforeFirst(rows: seq<JoinRow>, id: Id)
    requires id !in FirstIds(rows)
    ensures EntriesOf(rows, id) == []
    decreases |rows|
  {
    if rows != [] { NothingBeforeFirst(rows[..|rows| - 1], id); }
  }

  /** The row loop of AcceptedManifests: a map of manifests and the order of first appearance. */
  method GroupRows(rows: seq<JoinRow>) returns (result: seq<PublicationManifest>)
    ensures |result| == |FirstIds(rows)|
    ensures forall i | 0 <= i < |result| :: result[i] == GroupOf(rows, FirstIds(rows)[i])
  {
    var manifests: map<Id, PublicationManifest> := map[];
    var order: seq<Id> := [];
    for i := 0 to |rows|
      invariant order == FirstIds(rows[..i])
      invariant forall id :: id in manifests <==> id in order
      invariant forall id | id in manifests :: manifests[id] == GroupOf(rows[..i], id)
    {
      var row := rows[i];
      var id := row.publicationId;
      assert rows[..i + 1][..i] == rows[..i];
      if id !in manifests {
        NothingBeforeFirst(rows[..i], id);
        manifests := manifests[id := PublicationManifest(id, row.path, [])];
        order := order + [id];
      }
      manifests := manifests[id := manifests[id].(objects := manifests[id].objects + [row.entry])];
    }
    assert rows[..|rows|] == rows;
    result := [];
    for i := 0 to |order|
      invariant |result| == i
      invariant forall k | 0 <= k < i :: result[k] == GroupOf(rows, order[k])
    {
      assert order[i] in order;
      result := result + [manifests[order[i]]];
    }
  }

  lemma {:induction false} EntriesExact(rows: seq<JoinRow>, id: Id)
    requires forall i, j | 0 <= i < j < |rows| :: RowBefore(rows[i], rows[j])
    requires forall i, j | 0 <= i < j < |rows| && rows[i].publicationId == rows[j].publicationId ::
        rows[i].path == rows[j].path
    ensures forall o :: o in EntriesOf(rows, id) <==> exists r :: r in rows && r.publicationId == id && r.entry == o
    ensures Ascending(ObjectKeys(EntriesOf(rows, id)))
    decreases |rows|
  {
    hide ObjectKeys, Less;
    if rows != [] {
      var n := |rows| - 1;
      var earlier := EntriesOf(rows[..n], id);
      assert rows == rows[..n] + [rows[n]];
      EntriesExact(rows[..n], id);
      if rows[n].publicationId == id {
        forall k | 0 <= k < |earlier| ensures Less(ObjectKeys(earlier)[k], rows[n].entry.key) {
          assert earlier[k] in earlier;
          var r :| r in rows[..n] && r.publicationId == id && r.entry == earlier[k];
          var i :| 0 <= i < n && rows[i] == r;
          assert RowBefore(rows[i], rows[n]);
          LessTotal(rows[i].path, rows[n].path);
        }
        assert ObjectKeys(earlier + [rows[n].entry]) == ObjectKeys(earlier) + [rows[n].entry.key];
      }
    }
  }

  lemma {:induction false} FirstIdsMembers(rows: seq<JoinRow>)
    ensures forall id :: id in FirstIds(rows) <==> exists r :: r in rows && r.publicationId == id
    decreases |rows|
  {
    if rows != [] {
      var n := |rows| - 1;
      FirstIdsMembers(rows[..n]);
      assert rows == rows[..n] + [rows[n]];
      assert rows[n] in rows;
    }
  }

  ghost predicate RowsOf(t: Tables, rows: seq<JoinRow>) {
    forall r | r in rows :: r.publicationId in t.publications && r.path == t.publications[r.publicationId].path
  }

  lemma {:induction false} FirstPathExact(t: Tables, rows: seq<JoinRow>, id: Id)
    requires RowsOf(t, rows) && id in FirstIds(rows)
    ensures id in t.publications && FirstPath(rows, id) == t.publications[id].path
    decreases |rows|
  {
    var n := |rows| - 1;
    var earlier, last := rows[..n], rows[n];
    assert last in rows && forall r | r in earlier :: r in rows;
    if id in FirstIds(earlier) {
      FirstPathExact(t, earlier, id);
    } else {
      assert FirstIds(rows) == FirstIds(earlier) + [last.publicationId];
      assert last.publicationId == id;
    }
  }

  /** In a join ordered by path the identities first appear in path order. */
  lemma {:induction false} FirstIdsOrdered(t: Tables, rows: seq<JoinRow>)
    requires RowsOk(t) && RowsOf(t, rows)
    requires forall i, j | 0 <= i < j < |rows| :: RowBefore(rows[i], rows[j])
    ensures forall id | id in FirstIds(rows) :: id in t.publications
    ensures forall x, y | 0 <= x < y < |FirstIds(rows)| ::
      Less(t.publications[FirstIds(rows)[x]].path, t.publications[FirstIds(rows)[y]].path)
    decreases |rows|
  {
    hide Less, RowsOk;
    FirstIdsMembers(rows);
    if rows != [] {
      var n := |rows| - 1;
      var earlier := FirstIds(rows[..n]);
      assert rows == rows[..n] + [rows[n]];
      FirstIdsOrdered(t, rows[..n]);
      if rows[n].publicationId !in earlier {
        forall x | 0 <= x < |earlier| ensures Less(t.publications[earlier[x]].path, rows[n].path) {
          FirstIdsMembers(rows[..n]);
          assert earlier[x] in earlier;
          var r :| r in rows[..n] && r.publicationId == earlier[x];
          var i :| 0 <= i < n && rows[i] == r;
          assert RowBefore(rows[i], rows[n]);
          PathsUnique(t);
        }
      }
    }
  }

  lemma PathsUnique(t: Tables)
    requires RowsOk(t)
    ensures forall id, id' | id in t.publications && id' in t.publications
            && t.publications[id].path == t.publications[id'].path :: id == id'
  {}

  lemma JoinRowsOf(t: Tables, rows: seq<JoinRow>)
    requires IsJoin(t, rows)
    ensures RowsOf(t, rows)
  {}

  /** Grouping the ordered join yields exactly the accepted manifests. */
  lemma GroupedJoinIsAccepted(t: Tables, rows: seq<JoinRow>, ms: seq<PublicationManifest>)
    requires RowsOk(t) && IsJoin(t, rows)
    requires |ms| == |FirstIds(rows)| && forall i | 0 <= i < |ms| :: ms[i] == GroupOf(rows, FirstIds(rows)[i])
    ensures AcceptedManifestsOf(t, ms)
  {
    hide Less, HoldsObject, RowsOk, FirstIds, EntriesOf, FirstPath, RowBefore;
    var ids := FirstIds(rows);
    JoinRowsOf(t, rows);
    FirstIdsMembers(rows);
    FirstIdsOrdered(t, rows);
    forall i | 0 <= i < |ms| ensures ManifestOf(t, ms[i]) {
      var id := ids[i];
      assert id in ids;
      EntriesExact(rows, id);
      FirstPathExact(t, rows, id);
      var r :| r in rows && r.publicationId == id;
      assert r.entry in ms[i].objects;
      forall o ensures o in ms[i].objects <==> HoldsObject(t, id, o) {
        if HoldsObject(t, id, o) { assert JoinRow(id, t.publications[id].path, o) in rows; }
      }
    }
    forall i, j | 0 <= i < j < |ms| ensures Less(ManifestPaths(ms)[i], ManifestPaths(ms)[j]) {
      assert Less(t.publications[ids[i]].path, t.publications[ids[j]].path);
      assert ids[i] in ids && ids[j] in ids;
    }
    forall id, o | HoldsObject(t, id, o) ensures exists m :: m in ms && m.publicationId == id {
      var row := JoinRow(id, t.publications[id].path, o);
      assert row in rows && row.publicationId == id;
      assert id in ids;
      var i :| 0 <= i < |ids| && ids[i] == id;
      assert ms[i] in ms;
    }
  }

  /** The accepted manifests of given tables are unique. */
  lemma AcceptedManifestsUnique(t: Tables, ms: seq<PublicationManifest>, ms': seq<PublicationManifest>)
    requires RowsOk(t) && AcceptedManifestsOf(t, ms) && AcceptedManifestsOf(t, ms')
    ensures ms == ms'
  {
    hide Less, RowsOk;
    forall p ensures p in ManifestPaths(ms) <==> p in ManifestPaths(ms') {
      SamePaths(t, ms, ms', p);
      SamePaths(t, ms', ms, p);
    }
    AscendingUnique(ManifestPaths(ms), ManifestPaths(ms'));
    assert |ms| == |ms'|;
    forall i | 0 <= i < |ms| ensures ms[i] == ms'[i] {
      assert ManifestPaths(ms)[i] == ManifestPaths(ms')[i];
      assert ms[i] in ms && ms'[i] in ms';
      PathsUnique(t);
      SameManifest(t, ms[i], ms'[i]);
    }
  }

  lemma SamePaths(t: Tables, ms: seq<PublicationManifest>, ms': seq<PublicationManifest>, p: string)
    requires AcceptedManifestsOf(t, ms) && AcceptedManifestsOf(t, ms')
    ensures p in ManifestPaths(ms) ==> p in ManifestPaths(ms')
  {
    if p in ManifestPaths(ms) {
      var i :| 0 <= i < |ms| && ManifestPaths(ms)[i] == p;
      assert ms[i] in ms && ms[i].objects[0] in ms[i].objects;
      var m :| m in ms' && m.publicationId == ms[i].publicationId;
      var j :| 0 <= j < |ms'| && ms'[j] == m;
      assert ManifestPaths(ms')[j] == p;
    }
  }

  lemma SameManifest(t: Tables, m: PublicationManifest, m': PublicationManifest)
    requires ManifestOf(t, m) && ManifestOf(t, m') && m.publicationId == m'.publicationId
    ensures m == m'
  {
    hide HoldsObject, Less, Ascending;
    SameOrderedObjects(m.objects, m'.objects);
  }

  lemma SameOrderedObjects(a: seq<ManifestObject>, b: seq<ManifestObject>)
    requires Ascending(ObjectKeys(a)) && Ascending(ObjectKeys(b)) && forall o :: o in a <==> o in b
    ensures a == b
  {
    hide Less;
    forall k ensures k in ObjectKeys(a) <==> k in ObjectKeys(b) {
      ObjectKeyAt(a, k);
      ObjectKeyAt(b, k);
    }
    AscendingUnique(ObjectKeys(a), ObjectKeys(b));
    assert |a| == |b|;
    forall i | 0 <= i < |a| ensures a[i] == b[i] {
      assert a[i] in b;
      var j :| 0 <= j < |b| && b[j] == a[i];
      assert ObjectKeys(a)[i] == ObjectKeys(b)[i] == ObjectKeys(b)[j];
      AscendingIsDistinct(ObjectKeys(b));
    }
  }

  // ---- Observations ----

  datatype ObservedState = InSync | Drifted | Missing | OtherState(text: string)

  datatype MutationLock = LockNone | LockGlobal | LockPublication | OtherLock(text: string)

  datatype Diff =
    | SizeChanged(fromSize: int, toSize: int) | ETagChanged | ModifiedChanged
    | ContentTypeChanged(from: string, to: string) | ContentEncodingChanged(from: string, to: string)
    | CacheControlChanged(from: string, to: string) | UserMetadataChanged

  /** Every difference found for one accepted object. */
  datatype Finding = Finding(key: string, missing: bool, diffs: seq<Diff>, bytesVerified: bool, bytesDiffer: bool)

  /** The status detail in the parts its text is joined from. */
  datatype StatusDetail =
    | NothingNoted | NoObjects | AllAbsent(objects: nat)
    | Differences(shown: seq<Finding>, more: nat)

  datatype PublicationObservation = PublicationObservation(state: ObservedState, observedSize: Option<int>,
                                                           detail: StatusDetail)

  datatype PublicationRecord = PublicationRecord(publicationId: Id, observation: PublicationObservation)

  datatype Usage = Usage(totalBytes: int, acceptedBytes: int, unclaimedBytes: int)

  datatype ObservationRecord = ObservationRecord(
    observedAt: Time, lock: MutationLock, usage: Usage, unclaimedKeys: seq<string>,
    publications: seq<PublicationRecord>)

  /** observations rows, in rowid order; observedAt keeps whole seconds. */
  datatype ObservationRow = ObservationRow(
    id: Id, observedAt: Time, lock: MutationLock, usage: Usage, unclaimedKeys: seq<string>)

  /** publication_observations rows by id. */
  datatype StateRow = StateRow(observationId: Id, publicationId: Id, observation: PublicationObservation)

  datatype ObservationTables = ObservationTables(observations: seq<ObservationRow>, states: map<Id, StateRow>)

  ghost predicate ObservationsOk(t: Tables, ot: ObservationTables) {
    && (forall i | 0 <= i < |ot.observations| :: |ot.observations[i].id| == ID_LENGTH)
    && (forall i, j | 0 <= i < j < |ot.observations| :: ot.observations[i].id != ot.observations[j].id)
    && (forall k | k in ot.states ::
          && |k| == ID_LENGTH && ot.states[k].publicationId in t.publications
          && !ot.states[k].observation.state.OtherState?
          && exists i :: 0 <= i < |ot.observations| && ot.observations[i].id == ot.states[k].observationId)
    && (forall k, l | k in ot.states && l in ot.states && ot.states[k].observationId == ot.states[l].observationId
                      && ot.states[k].publicationId == ot.states[l].publicationId :: k == l)
  }

  function InsertObservation(ot: ObservationTables, row: ObservationRow): Option<ObservationTables> {
    if || |row.id| != ID_LENGTH || (exists r | r in ot.observations :: r.id == row.id) || row.lock.OtherLock?
       || row.usage.totalBytes < 0 || row.usage.acceptedBytes < 0 || row.usage.unclaimedBytes < 0 then None
    else Some(ot.(observations := ot.observations + [row]))
  }

  function InsertState(t: Tables, ot: ObservationTables, id: Id, row: StateRow): Option<ObservationTables> {
    if || |id| != ID_LENGTH || id in ot.states || row.publicationId !in t.publications
       || row.observation.state.OtherState?
       || !(exists r | r in ot.observations :: r.id == row.observationId)
       || (exists k | k in ot.states ::
         ot.states[k].observationId == row.observationId && ot.states[k].publicationId == row.publicationId)
    then None
    else Some(ot.(states := ot.states[id := row]))
  }

  datatype ObservationIds = ObservationIds(observation: Id, state: nat -> Id)

  function RowOfRecord(record: ObservationRecord, id: Id): ObservationRow {
    ObservationRow(id, Truncate(record.observedAt), record.lock, record.usage, record.unclaimedKeys)
  }

  function StateRows(record: ObservationRecord, ids: ObservationIds, n: nat): map<Id, StateRow>
    requires n <= |record.publications|
  {
    if n == 0 then map[]
    else StateRows(record, ids, n - 1)[ids.state(n - 1) :=
           StateRow(ids.observation, record.publications[n - 1].publicationId, record.publications[n - 1].observation)]
  }

  /** Exactly the old observations plus one row and its publication states. */
  function WithRecord(ot: ObservationTables, record: ObservationRecord, ids: ObservationIds, n: nat): ObservationTables
    requires n <= |record.publications|
  {
    ObservationTables(ot.observations + [RowOfRecord(record, ids.observation)], ot.states + StateRows(record, ids, n))
  }

  /** Everything RecordObservation and the schema demand of a record's own values. */
  ghost predicate RecordOk(t: Tables, record: ObservationRecord) {
    && !record.lock.OtherLock? && record.observedAt != ZERO_TIME
    && record.usage.totalBytes >= 0 && record.usage.acceptedBytes >= 0 && record.usage.unclaimedBytes >= 0
    && StatesOk(t, record, |record.publications|)
  }

  ghost predicate StatesOk(t: Tables, record: ObservationRecord, n: nat)
    requires n <= |record.publications|
  {
    && (forall i | 0 <= i < n ::
          record.publications[i].publicationId in t.publications
            && !record.publications[i].observation.state.OtherState?)
    && (forall i, j | 0 <= i < j < n :: record.publications[i].publicationId != record.publications[j].publicationId)
  }

  /** The generated identities do not clash. */
  ghost predicate FreshObservationIds(ot: ObservationTables, ids: ObservationIds, n: nat) {
    && |ids.observation| == ID_LENGTH
    && (forall r | r in ot.observations :: r.id != ids.observation)
    && FreshStateIds(ot, ids, n)
  }

  ghost predicate FreshStateIds(ot: ObservationTables, ids: ObservationIds, n: nat) {
    && (forall i | 0 <= i < n :: |ids.state(i)| == ID_LENGTH && ids.state(i) !in ot.states)
    && (forall i, j | 0 <= i < j < n :: ids.state(i) != ids.state(j))
  }

  lemma {:induction false} StateRowsKeys(record: ObservationRecord, ids: ObservationIds, n: nat, k: Id)
    requires n <= |record.publications|
    ensures k in StateRows(record, ids, n) <==> exists i :: 0 <= i < n && ids.state(i) == k
    ensures k in StateRows(record, ids, n) ==>
      exists i :: 0 <= i < n && ids.state(i) == k
        && StateRows(record, ids, n)[k] ==
          StateRow(ids.observation, record.publications[i].publicationId, record.publications[i].observation)
    decreases n
  {
    if n > 0 {
      var m: nat := n - 1;
      StateRowsKeys(record, ids, m, k);
      if ids.state(m) == k { assert 0 <= m < n; }
    }
  }

  lemma WithRecordNoStates(ot: ObservationTables, record: ObservationRecord, ids: ObservationIds)
    ensures WithRecord(ot, record, ids, 0)
         == ObservationTables(ot.observations + [RowOfRecord(record, ids.observation)], ot.states)
  {
    assert ot.states + map[] == ot.states;
  }

  /** What the state rows of a partly recorded observation are. */
  lemma WithRecordStates(t: Tables, ot: ObservationTables, record: ObservationRecord, ids: ObservationIds, n: nat)
    requires n <= |record.publications| && FreshStateIds(ot, ids, n)
    ensures var states := WithRecord(ot, record, ids, n).states;
      && (forall k | k in ot.states :: k in states && states[k] == ot.states[k])
      && (forall i | 0 <= i < n :: ids.state(i) in states
            && states[ids.state(i)] ==
              StateRow(ids.observation, record.publications[i].publicationId, record.publications[i].observation))
      && (forall k | k in states :: k in ot.states || exists i :: 0 <= i < n && ids.state(i) == k)
  {
    var rows := StateRows(record, ids, n);
    forall i | 0 <= i < n
      ensures ids.state(i) in rows
        && rows[ids.state(i)] ==
          StateRow(ids.observation, record.publications[i].publicationId, record.publications[i].observation)
    {
      StateRowsKeys(record, ids, n, ids.state(i));
      var j :| 0 <= j < n && ids.state(j) == ids.state(i)
               && rows[ids.state(i)] ==
                 StateRow(ids.observation, record.publications[j].publicationId, record.publications[j].observation);
      assert i == j;
    }
    forall k ensures k in rows ==> k !in ot.states && exists i :: 0 <= i < n && ids.state(i) == k {
      StateRowsKeys(record, ids, n, k);
    }
  }

  /** A state row inserts exactly when its record entry and identity are good. */
  lemma StateStep(t: Tables, ot: ObservationTables, record: ObservationRecord, ids: ObservationIds, n: nat)
    requires n < |record.publications| && ObservationsOk(t, ot)
    requires StatesOk(t, record, n) && FreshObservationIds(ot, ids, n)
    ensures var entry := record.publications[n];
      var inserted := InsertState(t, WithRecord(ot, record, ids, n), ids.state(n),
                                  StateRow(ids.observation, entry.publicationId, entry.observation));
      && (inserted.Some? <==> StatesOk(t, record, n + 1) && FreshStateIds(ot, ids, n + 1))
      && (inserted.Some? ==> inserted.value == WithRecord(ot, record, ids, n + 1))
  {
    hide StateRows, ObservationsOk;
    var entry := record.publications[n];
    var base := WithRecord(ot, record, ids, n);
    WithRecordStates(t, ot, record, ids, n);
    assert base.observations[|ot.observations|].id == ids.observation;
    assert base.observations[|ot.observations|] in base.observations;
    OldStatesElsewhere(t, ot, ids);
    StateRowsExtend(ot, record, ids, n);
  }

  lemma OldStatesElsewhere(t: Tables, ot: ObservationTables, ids: ObservationIds)
    requires ObservationsOk(t, ot) && forall r | r in ot.observations :: r.id != ids.observation
    ensures forall k | k in ot.states :: ot.states[k].observationId != ids.observation
  {}

  lemma StateRowsExtend(ot: ObservationTables, record: ObservationRecord, ids: ObservationIds, n: nat)
    requires n < |record.publications|
    ensures var row := StateRow(ids.observation, record.publications[n].publicationId,
                                record.publications[n].observation);
      (ot.states + StateRows(record, ids, n))[ids.state(n) := row] == ot.states + StateRows(record, ids, n + 1)
  {}

  lemma RecordKeepsConstraints(t: Tables, ot: ObservationTables, record: ObservationRecord, ids: ObservationIds)
    requires ObservationsOk(t, ot) && RecordOk(t, record) && FreshObservationIds(ot, ids, |record.publications|)
    ensures ObservationsOk(t, WithRecord(ot, record, ids, |record.publications|))
  {
    hide StateRows;
    var n := |record.publications|;
    var whole := WithRecord(ot, record, ids, n);
    WithRecordStates(t, ot, record, ids, n);
    OldStatesElsewhere(t, ot, ids);
    StateRowsOk(t, ot, record, ids, whole);
    StatesUnique(t, ot, record, ids, whole.states);
  }

  lemma StateRowsOk(t: Tables, ot: ObservationTables, record: ObservationRecord, ids: ObservationIds,
                    whole: ObservationTables)
    requires ObservationsOk(t, ot) && StatesOk(t, record, |record.publications|)
    requires FreshStateIds(ot, ids, |record.publications|)
             && whole == WithRecord(ot, record, ids, |record.publications|)
    ensures forall k | k in whole.states ::
      && |k| == ID_LENGTH && whole.states[k].publicationId in t.publications
      && !whole.states[k].observation.state.OtherState?
      && exists i :: 0 <= i < |whole.observations| && whole.observations[i].id == whole.states[k].observationId
  {
    hide StateRows;
    WithRecordStates(t, ot, record, ids, |record.publications|);
    assert whole.observations[|ot.observations|].id == ids.observation;
    forall k | k in whole.states
      ensures && |k| == ID_LENGTH && whole.states[k].publicationId in t.publications
              && !whole.states[k].observation.state.OtherState?
              && exists i :: 0 <= i < |whole.observations| && whole.observations[i].id == whole.states[k].observationId
    {
      if k in ot.states {
        var i :| 0 <= i < |ot.observations| && ot.observations[i].id == ot.states[k].observationId;
        assert whole.observations[i].id == whole.states[k].observationId;
      }
    }
  }

  lemma StatesUnique(t: Tables, ot: ObservationTables, record: ObservationRecord, ids: ObservationIds,
                     states: map<Id, StateRow>)
    requires ObservationsOk(t, ot) && StatesOk(t, record, |record.publications|)
    requires forall k | k in ot.states :: ot.states[k].observationId != ids.observation
    requires forall k | k in ot.states :: k in states && states[k] == ot.states[k]
    requires forall i | 0 <= i < |record.publications| ::
      ids.state(i) in states
      && states[ids.state(i)] ==
        StateRow(ids.observation, record.publications[i].publicationId, record.publications[i].observation)
    requires forall k | k in states :: k in ot.states || exists i :: 0 <= i < |record.publications| && ids.state(i) == k
    ensures forall k, l | k in states && l in states && states[k].observationId == states[l].observationId
              && states[k].publicationId == states[l].publicationId :: k == l
  {}

  /** Accepting more publications cannot break recorded observations. */
  lemma MorePublicationsKeepObservations(t: Tables, u: Tables, ot: ObservationTables)
    requires ObservationsOk(t, ot) && t.publications.Keys <= u.publications.Keys
    ensures ObservationsOk(u, ot)
  {}

  // ---- The latest observation ----

  /** ORDER BY observed_at DESC, rowid DESC LIMIT 1. */
  function LatestIndex(rows: seq<ObservationRow>): (i: nat)
    requires rows != []
    ensures i < |rows|
    ensures forall k | 0 <= k < |rows| ::
        rows[k].observedAt < rows[i].observedAt || (rows[k].observedAt == rows[i].observedAt && k <= i)
  {
    var n := |rows| - 1;
    if n == 0 then 0
    else
      var earlier := LatestIndex(rows[..n]);
      if rows[n].observedAt >= rows[earlier].observedAt then n else earlier
  }

  datatype ObservationResult = ObservationResult(
    id: Id, observedAt: Time, lock: MutationLock, usage: Usage, unclaimedKeys: seq<string>,
    publications: map<Id, PublicationObservation>)

  /** The row and the states recorded with it. */
  ghost predicate ReadsBack(ot: ObservationTables, row: ObservationRow, r: ObservationResult) {
    && r.id == row.id && r.observedAt == row.observedAt && r.lock == row.lock && r.usage == row.usage
    && r.unclaimedKeys == row.unclaimedKeys
    && (forall k | k in ot.states && ot.states[k].observationId == row.id ::
          ot.states[k].publicationId in r.publications
            && r.publications[ot.states[k].publicationId] == ot.states[k].observation)
    && (forall p | p in r.publications ::
          exists k :: k in ot.states && ot.states[k].observationId == row.id && ot.states[k].publicationId == p)
  }

  /** The loop over publication_observations of one observation. */
  method CollectStates(states: map<Id, StateRow>, id: Id) returns (publications: map<Id, PublicationObservation>)
    requires forall k, l | k in states && l in states && states[k].observationId == states[l].observationId
              && states[k].publicationId == states[l].publicationId :: k == l
    ensures forall k | k in states && states[k].observationId == id ::
      states[k].publicationId in publications && publications[states[k].publicationId] == states[k].observation
    ensures forall p | p in publications ::
      exists k :: k in states && states[k].observationId == id && states[k].publicationId == p
  {
    publications := map[];
    var pending := states.Keys;
    while pending != {}
      invariant pending <= states.Keys
      invariant forall k | k in states && k !in pending && states[k].observationId == id ::
        states[k].publicationId in publications && publications[states[k].publicationId] == states[k].observation
      invariant forall p | p in publications ::
        exists k :: k in states && k !in pending && states[k].observationId == id && states[k].publicationId == p
      decreases pending
    {
      var k :| k in pending;
      if states[k].observationId == id {
        publications := publications[states[k].publicationId := states[k].observation];
      }
      pending := pending - {k};
    }
  }

  method ReadLatest(t: Tables, ot: ObservationTables) returns (r: Option<ObservationResult>)
    requires ObservationsOk(t, ot)
    ensures r.None? <==> ot.observations == []
    ensures r.Some? ==> ReadsBack(ot, ot.observations[LatestIndex(ot.observations)], r.value)
  {
    hide LatestIndex;
    if |ot.observations| == 0 {
      return None;
    }
    var row := ot.observations[LatestIndex(ot.observations)];
    var publications := CollectStates(ot.states, row.id);
    r := Some(ObservationResult(row.id, row.observedAt, row.lock, row.usage, row.unclaimedKeys, publications));
  }

  /** When times never go back, the latest observation is the last one recorded. */
  lemma LatestIsLast(rows: seq<ObservationRow>)
    requires rows != [] && forall k | 0 <= k < |rows| :: rows[k].observedAt <= rows[|rows| - 1].observedAt
    ensures LatestIndex(rows) == |rows| - 1
  {}

  /** Reading back a just recorded observation gives the record, to the second. */
  lemma RecordRoundTrip(t: Tables, ot: ObservationTables, record: ObservationRecord, ids: ObservationIds,
                        r: ObservationResult)
    requires ObservationsOk(t, ot) && RecordOk(t, record) && FreshObservationIds(ot, ids, |record.publications|)
    requires forall k | 0 <= k < |ot.observations| :: ot.observations[k].observedAt <= Truncate(record.observedAt)
    requires var whole := WithRecord(ot, record, ids, |record.publications|);
      ReadsBack(whole, whole.observations[LatestIndex(whole.observations)], r)
    ensures r.lock == record.lock && r.usage == record.usage && r.unclaimedKeys == record.unclaimedKeys
    ensures r.observedAt == Truncate(record.observedAt)
    ensures forall i | 0 <= i < |record.publications| ::
      record.publications[i].publicationId in r.publications
      && r.publications[record.publications[i].publicationId] == record.publications[i].observation
    ensures forall p | p in r.publications ::
        exists i :: 0 <= i < |record.publications| && record.publications[i].publicationId == p
  {
    hide StateRows, ObservationsOk, LatestIndex, RecordOk;
    var n := |record.publications|;
    var whole := WithRecord(ot, record, ids, n);
    LatestIsLast(whole.observations);
    WithRecordStates(t, ot, record, ids, n);
    OldStatesElsewhere(t, ot, ids);
    forall i | 0 <= i < n
      ensures record.publications[i].publicationId in r.publications
              && r.publications[record.publications[i].publicationId] == record.publications[i].observation
    {
      assert ids.state(i) in whole.states;
    }
  }
}

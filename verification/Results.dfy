/** What the recorded result of an accepted batch says, against the rows it is about. */
module Results {
  import opened Text
  import opened Storage
  import opened Planning
  import opened Catalog
  import opened Atomicity
  import opened Batches
  import opened Observations
  import opened Ownership

  /** The rows of a manifest, in number and bytes. */
  ghost predicate RowsCounted(u: Tables, manifest: Id, count: nat, bytes: int) {
    exists objects: seq<ManifestObject> ::
      && Distinct(ObjectKeys(objects)) && |objects| == count && SumSizes(objects) == bytes
      && forall o :: o in objects <==> (manifest, o.key) in u.objects && u.objects[(manifest, o.key)] == o
  }

  /** The entry names a new publication row of its project, that row's manifest, and the manifest's rows. */
  ghost predicate NamesPublication(t: Tables, u: Tables, project: Id, r: PublicationResult) {
    && r.publicationId in u.publications && r.publicationId !in t.publications
    && u.publications[r.publicationId].path == r.path && u.publications[r.publicationId].projectId == project
    && u.publications[r.publicationId].currentManifest == r.manifestId
    && r.manifestId in u.manifests && u.manifests[r.manifestId].publicationId == r.publicationId
    && RowsCounted(u, r.manifestId, r.objectCount, r.acceptedSize)
  }

  ghost predicate NamesProject(t: Tables, u: Tables, p: ProjectResult) {
    && p.projectId in u.projects && p.projectId !in t.projects && u.projects[p.projectId].prefix == p.prefix
    && forall r | r in p.publications :: NamesPublication(t, u, p.projectId, r)
  }

  /** Every new project and publication row has exactly one entry, and every entry is of one. */
  ghost predicate ResultIs(t: Tables, u: Tables, result: AdoptionResult) {
    && (forall p | p in result.projects :: NamesProject(t, u, p))
    && (forall id | id in u.projects && id !in t.projects :: exists p :: p in result.projects && p.projectId == id)
    && (forall id | id in u.publications && id !in t.publications ::
          exists p, r :: p in result.projects && r in p.publications && r.publicationId == id)
    && (forall i, j | 0 <= i < j < |result.projects| :: result.projects[i].projectId != result.projects[j].projectId)
    && (forall i, a, j, b | 0 <= i < |result.projects| && 0 <= a < |result.projects[i].publications|
                            && 0 <= j < |result.projects| && 0 <= b < |result.projects[j].publications|
                            && result.projects[i].publications[a].publicationId
                               == result.projects[j].publications[b].publicationId ::
          i == j && a == b)
  }

  /**
   No old row changes, and everything new belongs to the operation: one record of it, new
   projects and publications, one manifest for each new publication, and rows of those manifests.
   */
  ghost predicate OnlyBatchAdded(t: Tables, u: Tables, operationId: string, digest: Digest) {
    && (forall id | id in t.projects :: id in u.projects && u.projects[id] == t.projects[id])
    && (forall id | id in t.publications :: id in u.publications && u.publications[id] == t.publications[id])
    && (forall id | id in t.manifests :: id in u.manifests && u.manifests[id] == t.manifests[id])
    && (forall mk | mk in t.objects :: mk in u.objects && u.objects[mk] == t.objects[mk])
    && (forall op | op in t.operations :: op in u.operations && u.operations[op] == t.operations[op])
    && operationId !in t.operations && u.operations.Keys == t.operations.Keys + {operationId}
    && (forall id | id in u.publications && id !in t.publications ::
          u.publications[id].projectId in u.projects && u.publications[id].projectId !in t.projects)
    && (forall id | id in u.manifests && id !in t.manifests :: NewManifest(t, u, id, digest))
    && (forall mk | mk in u.objects && mk !in t.objects :: mk.0 in u.manifests && mk.0 !in t.manifests)
  }

  ghost predicate NewManifest(t: Tables, u: Tables, id: Id, digest: Digest) {
    && id in u.manifests && u.manifests[id].planDigest == digest
    && u.manifests[id].publicationId in u.publications && u.manifests[id].publicationId !in t.publications
    && u.publications[u.manifests[id].publicationId].currentManifest == id
  }

  // ---- Entries and placements ----

  lemma {:induction false} ProjectResultAt(projects: seq<AdoptedProject>, ids: Ids, n: nat, i: nat)
    requires i < n <= |projects|
    ensures |ProjectResults(projects, ids, n)| == n
    ensures ProjectResults(projects, ids, n)[i] ==
      ProjectResult(ids.project(i), projects[i].prefix,
                    ResultsOf(ProjectPlacements(projects, ids, i, |projects[i].publications|)))
    decreases n
  {
    hide ResultsOf, ProjectPlacements;
    if n > 1 {
      var m: nat := n - 1;
      ProjectResultAt(projects, ids, m, if i < m then i else 0);
    } else {
      assert ProjectResults(projects, ids, 0) == [];
    }
  }

  lemma {:induction false} ProjectResultsSize(projects: seq<AdoptedProject>, ids: Ids, n: nat)
    requires n <= |projects|
    ensures |ProjectResults(projects, ids, n)| == n
  {
    hide ResultsOf, ProjectPlacements;
    if n > 0 { ProjectResultsSize(projects, ids, n - 1); }
  }

  ghost predicate AcceptedAs(t: Tables, batch: Batch, ids: Ids, u: Tables, projects: seq<AdoptedProject>,
                             ps: seq<Placement>) {
    && SchemaOk(t) && u.objects == t.objects + ObjectRows(ps) && AllFit(t, ps) && Grown(t, u, ps, batch.planDigest)
    && ps == Placements(projects, ids, |projects|) && HoldsProjects(t, u, projects, ids)
    && forall i | 0 <= i < |projects| :: ProjectFits(t, projects, ids, i)
  }

  lemma EntryNames(t: Tables, batch: Batch, ids: Ids, u: Tables, projects: seq<AdoptedProject>, ps: seq<Placement>,
                   i: nat, j: nat)
    requires AcceptedAs(t, batch, ids, u, projects, ps) && i < |projects| && j < |projects[i].publications|
    ensures NamesPublication(t, u, ids.project(i), PublicationResultOf(PlacementAt(projects, ids, i, j)))
  {
    hide AllFit, RowsOk, ObjectRows, Placements, HoldsProjects, ProjectFits, CurrentManifestsOk;
    var p := PlacementAt(projects, ids, i, j);
    PlacementOrigin(projects, ids, |projects|, p);
    FitsFresh(t, ps, p);
    forall o
      ensures o in p.publication.objects <==>
          (p.manifestId, o.key) in u.objects && u.objects[(p.manifestId, o.key)] == o
    {
      PlacedObjects(t, u, ps, batch.planDigest, p, o);
      PlacedManifest(t, u, ps, batch.planDigest, p, o);
    }
    assert RowsCounted(u, p.manifestId, |p.publication.objects|, SumSizes(p.publication.objects));
  }

  lemma PlacedManifest(t: Tables, u: Tables, ps: seq<Placement>, digest: Digest, p: Placement, o: ManifestObject)
    requires Grown(t, u, ps, digest) && p in ps
    ensures HoldsObject(u, p.publicationId, o) <==>
        (p.manifestId, o.key) in u.objects && u.objects[(p.manifestId, o.key)] == o
  {
    hide ObjectRows;
    assert u.publications[p.publicationId] == RowOf(p);
  }

  /** Two places with one publication identity are one place. */
  lemma PlacesApart(t: Tables, ids: Ids, projects: seq<AdoptedProject>, ps: seq<Placement>, i: nat, a: nat, j: nat,
                    b: nat)
    requires ps == Placements(projects, ids, |projects|) && AllFit(t, ps)
    requires i < |projects| && a < |projects[i].publications| && j < |projects| && b < |projects[j].publications|
    requires ids.publication(i, a) == ids.publication(j, b)
    ensures i == j && a == b
  {
    hide Fits;
    var x := PlaceIndex(projects, ids, |projects|, i, a);
    var y := PlaceIndex(projects, ids, |projects|, j, b);
    if x < y { ApartAt(t, ps, x, y); }
    if y < x { ApartAt(t, ps, y, x); }
    SamePlace(projects, ids, |projects|, i, a, j, b, x);
  }

  lemma ApartAt(t: Tables, ps: seq<Placement>, x: nat, y: nat)
    requires AllFit(t, ps) && x < y < |ps|
    ensures ps[x].publicationId != ps[y].publicationId
  {
    assert Fits(t, ps[..y], ps[y]) && ps[..y][x] == ps[x];
    assert ps[x] in ps[..y];
  }

  /** The position of a place among all placements. */
  function Position(projects: seq<AdoptedProject>, i: nat, a: nat): nat
    requires i < |projects|
  {
    if i == 0 then a else Position(projects, i - 1, |projects[i - 1].publications|) + a
  }

  lemma {:induction false} PlacementsSize(projects: seq<AdoptedProject>, ids: Ids, n: nat)
    requires n < |projects|
    ensures |Placements(projects, ids, n)| == Position(projects, n, 0)
  {
    if n > 0 { PlacementsSize(projects, ids, n - 1); PositionAdds(projects, n - 1, |projects[n - 1].publications|); }
  }

  lemma PositionAdds(projects: seq<AdoptedProject>, i: nat, a: nat)
    requires i < |projects|
    ensures Position(projects, i, a) == Position(projects, i, 0) + a
  {}

  lemma {:induction false} PlaceIndex(projects: seq<AdoptedProject>, ids: Ids, n: nat, i: nat, a: nat) returns (x: nat)
    requires i < n <= |projects| && a < |projects[i].publications|
    ensures x < |Placements(projects, ids, n)| && Placements(projects, ids, n)[x] == PlacementAt(projects, ids, i, a)
    ensures x == Position(projects, i, a)
    decreases n
  {
    var m: nat := n - 1;
    if i == m {
      PlacementsSize(projects, ids, m);
      PositionAdds(projects, m, a);
      x := |Placements(projects, ids, m)| + a;
    } else {
      x := PlaceIndex(projects, ids, m, i, a);
    }
  }

  lemma {:induction false} PositionRises(projects: seq<AdoptedProject>, i: nat, a: nat, j: nat, b: nat)
    requires i < j < |projects| && a < |projects[i].publications|
    ensures Position(projects, i, a) < Position(projects, j, b)
    decreases j
  {
    var m: nat := j - 1;
    PositionAdds(projects, i, a);
    PositionAdds(projects, i, |projects[i].publications|);
    if i < m { PositionRises(projects, i, a, m, |projects[m].publications|); }
  }

  lemma SamePlace(projects: seq<AdoptedProject>, ids: Ids, n: nat, i: nat, a: nat, j: nat, b: nat, x: nat)
    requires i < |projects| && a < |projects[i].publications| && j < |projects| && b < |projects[j].publications|
    requires x == Position(projects, i, a) == Position(projects, j, b)
    ensures i == j && a == b
  {
    if i < j { PositionRises(projects, i, a, j, b); }
    if j < i { PositionRises(projects, j, b, i, a); }
    PositionAdds(projects, i, a);
    PositionAdds(projects, i, b);
  }

  lemma ResultsExact(t: Tables, batch: Batch, ids: Ids, u: Tables, projects: seq<AdoptedProject>, ps: seq<Placement>,
                     result: AdoptionResult)
    requires AcceptedAs(t, batch, ids, u, projects, ps) && result.projects == ProjectResults(projects, ids, |projects|)
    ensures ResultIs(t, u, result)
  {
    hide AllFit, RowsOk, ObjectRows, Placements, ProjectResults, NamesPublication, CurrentManifestsOk,
         ProjectPlacements;
    ProjectResultsSize(projects, ids, |projects|);
    forall i | 0 <= i < |projects| ensures NamesProject(t, u, result.projects[i]) {
      ProjectEntry(t, batch, ids, u, projects, ps, result, i);
    }
    forall p | p in result.projects ensures NamesProject(t, u, p) {
      var i :| 0 <= i < |result.projects| && result.projects[i] == p;
    }
    forall id | id in u.projects && id !in t.projects ensures exists p :: p in result.projects && p.projectId == id {
      var i :| 0 <= i < |projects| && ids.project(i) == id;
      ProjectResultAt(projects, ids, |projects|, i);
      assert result.projects[i] in result.projects;
    }
    forall id | id in u.publications && id !in t.publications
      ensures exists p, r :: p in result.projects && r in p.publications && r.publicationId == id {
      PublicationEntry(t, batch, ids, u, projects, ps, result, id);
    }
    forall i, j | 0 <= i < j < |result.projects| ensures result.projects[i].projectId != result.projects[j].projectId {
      ProjectResultAt(projects, ids, |projects|, i);
      ProjectResultAt(projects, ids, |projects|, j);
      assert ProjectFits(t, projects, ids, j);
    }
    forall i, a, j, b | 0 <= i < |result.projects| && 0 <= a < |result.projects[i].publications|
                        && 0 <= j < |result.projects| && 0 <= b < |result.projects[j].publications|
                        && result.projects[i].publications[a].publicationId
                           == result.projects[j].publications[b].publicationId
      ensures i == j && a == b
    {
      ProjectResultAt(projects, ids, |projects|, i);
      ProjectResultAt(projects, ids, |projects|, j);
      PlacesApart(t, ids, projects, ps, i, a, j, b);
    }
  }

  lemma ProjectEntry(t: Tables, batch: Batch, ids: Ids, u: Tables, projects: seq<AdoptedProject>, ps: seq<Placement>,
                     result: AdoptionResult, i: nat)
    requires AcceptedAs(t, batch, ids, u, projects, ps) && result.projects == ProjectResults(projects, ids, |projects|)
    requires i < |projects| && |result.projects| == |projects|
    ensures NamesProject(t, u, result.projects[i])
  {
    hide AllFit, RowsOk, ObjectRows, Placements, ProjectResults, NamesPublication, CurrentManifestsOk,
         ProjectPlacements, Grown;
    ProjectResultAt(projects, ids, |projects|, i);
    assert ProjectFits(t, projects, ids, i);
    var p := result.projects[i];
    forall r | r in p.publications ensures NamesPublication(t, u, p.projectId, r) {
      var j :| 0 <= j < |p.publications| && p.publications[j] == r;
      EntryNames(t, batch, ids, u, projects, ps, i, j);
    }
  }

  lemma PublicationEntry(t: Tables, batch: Batch, ids: Ids, u: Tables, projects: seq<AdoptedProject>,
                         ps: seq<Placement>,
                         result: AdoptionResult, id: Id)
    requires AcceptedAs(t, batch, ids, u, projects, ps) && result.projects == ProjectResults(projects, ids, |projects|)
    requires id in u.publications && id !in t.publications && |result.projects| == |projects|
    ensures exists p, r :: p in result.projects && r in p.publications && r.publicationId == id
  {
    hide AllFit, RowsOk, ObjectRows, Placements, ProjectResults, CurrentManifestsOk, ProjectPlacements, HoldsProjects;
    var q :| q in ps && q.publicationId == id;
    PlacementOrigin(projects, ids, |projects|, q);
    var i, j :| 0 <= i < |projects| && 0 <= j < |projects[i].publications| && q == PlacementAt(projects, ids, i, j);
    ProjectResultAt(projects, ids, |projects|, i);
    assert result.projects[i] in result.projects;
    var p := result.projects[i];
    assert p.publications[j].publicationId == id && p.publications[j] in p.publications;
  }

  lemma NewObjects(t: Tables, u: Tables, ps: seq<Placement>, digest: Digest, mk: (Id, string))
    requires AllFit(t, ps) && Grown(t, u, ps, digest) && RowsOk(t)
    ensures mk in t.objects ==> mk in u.objects && u.objects[mk] == t.objects[mk]
    ensures mk in u.objects && mk !in t.objects ==> mk.0 in u.manifests && mk.0 !in t.manifests
  {
    hide AllFit, ObjectRows, RowsOk;
    ObjectRowsKeys(ps, mk);
    if mk in ObjectRows(ps) {
      var q :| q in ps && q.manifestId == mk.0;
      FitsFresh(t, ps, q);
      ManifestFresh(t, mk.0, mk.1);
    }
  }

  lemma NewPlacements(t: Tables, u: Tables, projects: seq<AdoptedProject>, ids: Ids, ps: seq<Placement>, digest: Digest)
    requires AllFit(t, ps) && Grown(t, u, ps, digest) && HoldsProjects(t, u, projects, ids)
    requires ps == Placements(projects, ids, |projects|)
    requires forall i | 0 <= i < |projects| :: ProjectFits(t, projects, ids, i)
    ensures forall id | id in u.publications && id !in t.publications ::
        u.publications[id].projectId in u.projects && u.publications[id].projectId !in t.projects
    ensures forall id | id in u.manifests && id !in t.manifests :: NewManifest(t, u, id, digest)
  {
    hide AllFit, ObjectRows, Placements;
    forall id | id in u.publications && id !in t.publications
      ensures u.publications[id].projectId in u.projects && u.publications[id].projectId !in t.projects
    {
      var q :| q in ps && q.publicationId == id;
      PlacementOrigin(projects, ids, |projects|, q);
      var i, j :| 0 <= i < |projects| && 0 <= j < |projects[i].publications| && q == PlacementAt(projects, ids, i, j);
      assert ProjectFits(t, projects, ids, i);
    }
    forall id | id in u.manifests && id !in t.manifests ensures NewManifest(t, u, id, digest) {
      var q :| q in ps && q.manifestId == id;
      FitsFresh(t, ps, q);
    }
  }

  lemma OneOperation(t: Tables, batch: Batch, ids: Ids)
    requires Accepted(t, batch, ids)
    ensures var u := Committed(t, batch, ids);
      && batch.operationId !in t.operations && u.operations.Keys == t.operations.Keys + {batch.operationId}
      && forall op | op in t.operations :: op in u.operations && u.operations[op] == t.operations[op]
  {
    hide NormalizeOk, AllFit, ResultOf, Insertable;
  }

  lemma AdditionExact(t: Tables, batch: Batch, ids: Ids, u: Tables, ps: seq<Placement>, projects: seq<AdoptedProject>)
    requires SchemaOk(t) && Accepted(t, batch, ids) && u == Committed(t, batch, ids)
    requires projects == Normalized(batch.projects) && ps == Placements(projects, ids, |projects|)
    ensures OnlyBatchAdded(t, u, batch.operationId, batch.planDigest)
  {
    hide RowsOk, AllFit, ProjectFits, PublicationRows, ManifestRows, ObjectRows, ProjectRows, Placements, Normalized,
         NormalizeOk, CurrentManifestsOk, NewManifest, ResultOf, Plus;
    CommittedGrown(t, batch, ids);
    NewPlacements(t, u, projects, ids, ps, batch.planDigest);
    OneOperation(t, batch, ids);
    forall mk
      ensures mk in t.objects ==> mk in u.objects && u.objects[mk] == t.objects[mk]
      ensures mk in u.objects && mk !in t.objects ==> mk.0 in u.manifests && mk.0 !in t.manifests
    {
      NewObjects(t, u, ps, batch.planDigest, mk);
    }
  }

  /** The operation is recorded under its request hash, with the returned result. */
  ghost predicate OperationRecorded(u: Tables, operationId: string, hash: RequestHash, digest: Digest,
                                    result: AdoptionResult) {
    && operationId in u.operations && u.operations[operationId].requestHash == hash
    && u.operations[operationId].planDigest == digest
    && u.operations[operationId].result == result && result.operationId == operationId
  }

  /** The batch was added, nothing else was, and its operation is recorded with what was added. */
  ghost predicate BatchStored(t: Tables, u: Tables, operationId: string, hash: RequestHash, digest: Digest,
                              result: AdoptionResult) {
    && OnlyBatchAdded(t, u, operationId, digest)
    && OperationRecorded(u, operationId, hash, digest, result) && ResultIs(t, u, result)
  }

  /** The result recorded with an accepted batch names its rows: one entry for each, with their own identities. */
  lemma BatchResultExact(t: Tables, batch: Batch, ids: Ids, result: AdoptionResult)
    requires SchemaOk(t) && Accepted(t, batch, ids)
    requires batch.operationId in Committed(t, batch, ids).operations
    requires result == Committed(t, batch, ids).operations[batch.operationId].result
    ensures BatchStored(t, Committed(t, batch, ids), batch.operationId, batch.requestHash, batch.planDigest, result)
  {
    hide RowsOk, AllFit, ProjectFits, PublicationRows, ManifestRows, ObjectRows, ProjectRows, Placements, Normalized,
         NormalizeOk, CurrentManifestsOk, ResultIs, ProjectResults, OnlyBatchAdded;
    var u, projects := Committed(t, batch, ids), Normalized(batch.projects);
    CommittedGrown(t, batch, ids);
    AdditionExact(t, batch, ids, u, Placements(projects, ids, |projects|), projects);
    ResultsExact(t, batch, ids, u, projects, Placements(projects, ids, |projects|), result);
  }
}

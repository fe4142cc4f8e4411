/**
 The adoption transaction, statement by statement (internal/catalog/adopt.go).
 Any statement may fail, or the process may crash around it.
 */
module Transactions {
  import opened Storage
  import opened Planning
  import opened Catalog
  import opened Atomicity
  import opened Batches
  import opened Results

  /** What befalls one statement; CrashesAfter lets it take effect first. */
  datatype Fault = Proceeds | Fails | Crashes | CrashesAfter

  /** One fault per statement, in the order the transaction issues them. */
  type Faults = nat -> Fault

  datatype Outcome = Accept(result: AdoptionResult) | Reject | Crash

  function StoppedBy(f: Fault): (o: Outcome)
    ensures !o.Accept? && (!f.Proceeds? ==> (o.Crash? <==> f.Crashes? || f.CrashesAfter?))
  {
    if f.Fails? then Reject else Crash
  }

  ghost predicate NoFaults(faults: Faults) { forall n: nat :: faults(n) == Proceeds }

  /** Some statement brings the process down. */
  ghost predicate Crashing(faults: Faults) { exists n: nat :: faults(n).Crashes? || faults(n).CrashesAfter? }

  /** A COMMIT that took effect is also reported. */
  ghost predicate NoLateCrash(faults: Faults) { forall n: nat :: faults(n) != CrashesAfter }

  /** Runs one INSERT: its fault strikes, or its constraints decide. */
  method Execute(effect: Option<Tables>, fault: Fault) returns (r: Result<Tables, Outcome>)
    ensures r.Ok? ==> effect == Some(r.value)
    ensures r.Err? ==> r.error == if fault.Crashes? || fault.CrashesAfter? then Crash else Reject
    ensures fault.Proceeds? ==> (r.Ok? <==> effect.Some?)
  {
    if !fault.Proceeds? {
      return Err(StoppedBy(fault));
    }
    match effect
    case None => return Err(Reject);
    case Some(tables) => return Ok(tables);
  }

  method InsertPublicationRows(tx: Tables, p: Placement, digest: Digest, faults: Faults, start: nat)
    returns (r: Result<Tables, Outcome>, next: nat)
    ensures r.Ok? ==> PublicationInserted(tx, p, digest) == Some(r.value)
    ensures r.Err? ==> !r.error.Accept? && (r.error.Crash? ==> Crashing(faults))
    ensures NoFaults(faults) ==> (r.Ok? <==> PublicationInserted(tx, p, digest).Some?)
  {
    next := start + 1;
    r := Execute(InsertPublication(tx, p.publicationId, RowOf(p)), faults(start));
    if r.Err? {
      return;
    }
    var base := r.value;
    r := Execute(InsertManifest(base, p.manifestId, ManifestRow(p.publicationId, digest)), faults(next));
    next := next + 1;
    if r.Err? {
      return;
    }
    base := r.value;
    var objects := p.publication.objects;
    for i := 0 to |objects|
      invariant r.Ok? && ObjectsInserted(base, p.manifestId, objects[..i]) == Some(r.value)
    {
      assert objects[..i + 1][..i] == objects[..i];
      r := Execute(InsertObject(r.value, p.manifestId, objects[i]), faults(next));
      next := next + 1;
      if r.Err? {
        if ObjectsInserted(base, p.manifestId, objects).Some? {
          ObjectsInsertedPrefix(base, p.manifestId, objects, i + 1);
        }
        return;
      }
    }
    assert objects[..|objects|] == objects;
  }

  lemma {:induction false} ObjectsInsertedPrefix(t: Tables, m: Id, objects: seq<ManifestObject>, n: nat)
    requires n <= |objects| && ObjectsInserted(t, m, objects).Some?
    ensures ObjectsInserted(t, m, objects[..n]).Some?
    decreases |objects| - n
  {
    if n == |objects| {
      assert objects[..n] == objects;
    } else {
      ObjectsInsertedPrefix(t, m, objects, n + 1);
      assert objects[..n + 1][..n] == objects[..n];
    }
  }

  lemma {:induction false} PublicationsInsertedPrefix(t: Tables, projects: seq<AdoptedProject>, ids: Ids,
                                                      digest: Digest, i: nat, j: nat, k: nat)
    requires i < |projects| && j <= k <= |projects[i].publications|
    requires PublicationsInserted(t, projects, ids, digest, i, k).Some?
    ensures PublicationsInserted(t, projects, ids, digest, i, j).Some?
    decreases k
  {
    if j < k { PublicationsInsertedPrefix(t, projects, ids, digest, i, j, k - 1); }
  }

  lemma {:induction false} ProjectsInsertedPrefix(t: Tables, projects: seq<AdoptedProject>, ids: Ids, digest: Digest,
                                                  i: nat, n: nat)
    requires i <= n <= |projects| && ProjectsInserted(t, projects, ids, digest, n).Some?
    ensures ProjectsInserted(t, projects, ids, digest, i).Some?
    decreases n
  {
    hide PublicationsInserted, InsertProject;
    if i < n { ProjectsInsertedPrefix(t, projects, ids, digest, i, n - 1); }
  }

  /** One project's publications, with the result and totals they add. */
  method InsertProjectPublications(tx: Tables, projects: seq<AdoptedProject>, ids: Ids, digest: Digest, i: nat,
                                   faults: Faults, start: nat, before: AdoptionResult)
    returns (r: Result<Tables, Outcome>, next: nat, results: seq<PublicationResult>, totals: AdoptionResult)
    requires i < |projects|
    requires before.objectCount == ObjectTotal(Placements(projects, ids, i))
    requires before.acceptedSize == SizeTotal(Placements(projects, ids, i))
    ensures r.Ok? ==> PublicationsInserted(tx, projects, ids, digest, i, |projects[i].publications|) == Some(r.value)
    ensures r.Err? ==> !r.error.Accept? && (r.error.Crash? ==> Crashing(faults))
    ensures NoFaults(faults) ==>
      (r.Ok? <==> PublicationsInserted(tx, projects, ids, digest, i, |projects[i].publications|).Some?)
    ensures r.Ok? ==> results == ResultsOf(ProjectPlacements(projects, ids, i, |projects[i].publications|))
    ensures r.Ok? ==> |results| == |projects[i].publications|
    ensures r.Ok? ==> forall j | 0 <= j < |results| :: NamesPlace(results[j], projects, ids, i, j)
    ensures r.Ok? ==> totals == before.(objectCount := ObjectTotal(Placements(projects, ids, i + 1)),
                                        acceptedSize := SizeTotal(Placements(projects, ids, i + 1)))
  {
    hide PublicationInserted, NoFaults, SumSizes, ObjectTotal, SizeTotal, NamesPlace;
    ResultsNamePlaces(projects, ids, i);
    var publications := projects[i].publications;
    r, next, results, totals := Ok(tx), start, [], before;
    ghost var earlier := Placements(projects, ids, i);
    assert earlier + [] == earlier;
    for j := 0 to |publications|
      invariant r.Ok? && PublicationsInserted(tx, projects, ids, digest, i, j) == Some(r.value)
      invariant results == ResultsOf(ProjectPlacements(projects, ids, i, j))
      invariant totals == before.(objectCount := ObjectTotal(earlier + ProjectPlacements(projects, ids, i, j)),
                                  acceptedSize := SizeTotal(earlier + ProjectPlacements(projects, ids, i, j)))
    {
      var p := PlacementAt(projects, ids, i, j);
      var acceptedSize := AddSizes(p.publication.objects);
      r, next := InsertPublicationRows(r.value, p, digest, faults, next);
      if r.Err? {
        if PublicationsInserted(tx, projects, ids, digest, i, |publications|).Some? {
          PublicationsInsertedPrefix(tx, projects, ids, digest, i, j + 1, |publications|);
        }
        return;
      }
      results := results + [PublicationResult(p.publicationId, p.publication.path, p.manifestId,
                                              |p.publication.objects|, acceptedSize)];
      totals := totals.(objectCount := totals.objectCount + |p.publication.objects|,
                        acceptedSize := totals.acceptedSize + acceptedSize);
      ghost var placed := ProjectPlacements(projects, ids, i, j);
      assert earlier + ProjectPlacements(projects, ids, i, j + 1) == (earlier + placed) + [p];
      TotalsExtend(earlier + placed, p);
    }
  }

  method AddSizes(objects: seq<ManifestObject>) returns (acceptedSize: int)
    ensures acceptedSize == SumSizes(objects)
  {
    acceptedSize := 0;
    for i := 0 to |objects|
      invariant acceptedSize == SumSizes(objects[..i])
    {
      assert objects[..i + 1][..i] == objects[..i];
      acceptedSize := acceptedSize + objects[i].size;
    }
    assert objects[..|objects|] == objects;
  }

  method InsertProjects(t: Tables, projects: seq<AdoptedProject>, ids: Ids, digest: Digest, operationId: string,
                        faults: Faults, start: nat)
    returns (r: Result<Tables, Outcome>, next: nat, result: AdoptionResult)
    ensures r.Ok? ==> ProjectsInserted(t, projects, ids, digest, |projects|) == Some(r.value)
    ensures r.Err? ==> !r.error.Accept? && (r.error.Crash? ==> Crashing(faults))
    ensures NoFaults(faults) ==> (r.Ok? <==> ProjectsInserted(t, projects, ids, digest, |projects|).Some?)
    ensures r.Ok? ==> result == ResultOf(operationId, projects, ids)
    ensures r.Ok? ==> result.operationId == operationId && |result.projects| == |projects|
    ensures r.Ok? ==> forall i | 0 <= i < |projects| :: NamesProjectAt(result.projects[i], projects, ids, i)
  {
    hide PublicationsInserted, InsertProject, NoFaults, ResultsOf, Placements, ObjectTotal, SizeTotal, NamesPlace,
         NamesProjectAt;
    ProjectResultsNamePlaces(projects, ids, |projects|);
    NothingCounted(projects, ids);
    r, next, result := Ok(t), start, AdoptionResult(operationId, 0, 0, []);
    for i := 0 to |projects|
      invariant r.Ok? && ProjectsInserted(t, projects, ids, digest, i) == Some(r.value)
      invariant result == AdoptionResult(operationId, ObjectTotal(Placements(projects, ids, i)),
                                         SizeTotal(Placements(projects, ids, i)), ProjectResults(projects, ids, i))
    {
      ghost var whole := ProjectsInserted(t, projects, ids, digest, |projects|);
      if whole.Some? {
        ProjectsInsertedPrefix(t, projects, ids, digest, i + 1, |projects|);
      }
      var project := projects[i];
      ghost var quiet := faults(next) == Proceeds;
      assert NoFaults(faults) ==> quiet by { if NoFaults(faults) { Quiet(faults, next); } }
      r := Execute(InsertProject(r.value, ids.project(i), ProjectRow(project.prefix, project.displayName)),
                   faults(next));
      next := next + 1;
      if r.Err? {
        return;
      }
      var results: seq<PublicationResult>;
      r, next, results, result := InsertProjectPublications(r.value, projects, ids, digest, i, faults, next, result);
      if r.Err? {
        return;
      }
      result := result.(projects := result.projects + [ProjectResult(ids.project(i), project.prefix, results)]);
    }
  }

  lemma NothingCounted(projects: seq<AdoptedProject>, ids: Ids)
    ensures ObjectTotal(Placements(projects, ids, 0)) == 0 && SizeTotal(Placements(projects, ids, 0)) == 0
  {}

  lemma Quiet(faults: Faults, n: nat)
    requires NoFaults(faults)
    ensures faults(n) == Proceeds
  {}

  ghost predicate PrefixFree(t: Tables, project: AdoptedProject) {
    forall id | id in t.projects :: t.projects[id].prefix != project.prefix
  }

  ghost predicate PathFree(t: Tables, publication: AdoptedPublication) {
    forall id | id in t.publications :: t.publications[id].path != publication.path
  }

  /** No declared prefix or path is in the tables. */
  ghost predicate Unmanaged(t: Tables, projects: seq<AdoptedProject>) {
    forall p | p in projects :: PrefixFree(t, p) && forall q | q in p.publications :: PathFree(t, q)
  }

  lemma ManagedRejects(t: Tables, projects: seq<AdoptedProject>, ids: Ids)
    requires !Unmanaged(t, projects)
    ensures !Insertable(t, projects, ids, |projects|)
  {
    hide Insertable;
    var p :| p in projects && !(PrefixFree(t, p) && forall q | q in p.publications :: PathFree(t, q));
    var i :| 0 <= i < |projects| && projects[i] == p;
    if !PrefixFree(t, p) {
      var id :| id in t.projects && t.projects[id].prefix == p.prefix;
      ManagedPrefixRejects(t, projects, ids, i, id);
    } else {
      var q :| q in p.publications && !PathFree(t, q);
      var j :| 0 <= j < |p.publications| && p.publications[j] == q;
      var id :| id in t.publications && t.publications[id].path == q.path;
      ManagedPathRejects(t, projects, ids, i, j, id);
    }
  }

  /** SELECT ... WHERE prefix/path = ?: the rows that make a batch unacceptable. */
  method CheckUnmanaged(t: Tables, projects: seq<AdoptedProject>, faults: Faults, start: nat)
    returns (r: Result<(), Outcome>, next: nat)
    ensures r.Ok? ==> Unmanaged(t, projects)
    ensures r.Err? ==> !r.error.Accept? && (r.error.Crash? ==> Crashing(faults))
    ensures NoFaults(faults) ==> (r.Ok? <==> Unmanaged(t, projects))
  {
    hide PrefixFree, PathFree;
    r, next := Ok(()), start;
    for i := 0 to |projects|
      invariant r.Ok? && Unmanaged(t, projects[..i])
    {
      var project := projects[i];
      assert project in projects;
      assert projects[..i + 1] == projects[..i] + [project];
      if !faults(next).Proceeds? {
        return Err(StoppedBy(faults(next))), next;
      }
      next := next + 1;
      var free := FindPrefix(t, project);
      if !free {
        return Err(Reject), next;
      }
      for j := 0 to |project.publications|
        invariant r.Ok? && forall q | q in project.publications[..j] :: PathFree(t, q)
      {
        var publication := project.publications[j];
        assert publication in project.publications;
        assert project.publications[..j + 1] == project.publications[..j] + [publication];
        if !faults(next).Proceeds? {
          return Err(StoppedBy(faults(next))), next;
        }
        next := next + 1;
        var unused := FindPath(t, publication);
        if !unused {
          return Err(Reject), next;
        }
      }
      assert project.publications[..|project.publications|] == project.publications;
    }
    assert projects[..|projects|] == projects;
  }

  method FindPrefix(t: Tables, project: AdoptedProject) returns (free: bool)
    ensures free <==> PrefixFree(t, project)
  {
    if id :| id in t.projects && t.projects[id].prefix == project.prefix {
      return false;
    }
    return true;
  }

  method FindPath(t: Tables, publication: AdoptedPublication) returns (free: bool)
    ensures free <==> PathFree(t, publication)
  {
    if id :| id in t.publications && t.publications[id].path == publication.path {
      return false;
    }
    return true;
  }

  /** Everything before COMMIT: the transaction's private view of the tables and its result. */
  method Prepare(t: Tables, batch: Batch, ids: Ids, faults: Faults)
    returns (r: Result<Tables, Outcome>, result: AdoptionResult, next: nat)
    requires SchemaOk(t)
    ensures r.Ok? ==> Accepted(t, batch, ids) && r.value == Committed(t, batch, ids)
    ensures r.Ok? ==> result == Recorded(batch, ids).result
                      && BatchStored(t, r.value, batch.operationId, batch.requestHash, batch.planDigest, result)
    ensures r.Err? ==> !r.error.Accept? && (r.error.Crash? ==> Crashing(faults))
    ensures NoFaults(faults) ==> (r.Ok? <==> Accepted(t, batch, ids))
  {
    hide NormalizeOk, Normalized, Insertable, Unmanaged, ProjectsInserted, ResultOf, ProjectRows, Placements, Plus,
         BatchStored, NamesProjectAt, BatchComplete, InOrder;
    next, result := 0, AdoptionResult(batch.operationId, 0, 0, []);
    if batch.operationId == "" {
      return Err(Reject), result, next;
    }
    var normalized := NormalizeBatchProjects(batch.projects);
    if normalized.None? {
      return Err(Reject), result, next;
    }
    var projects := normalized.value;
    var unmanaged;
    unmanaged, next := CheckUnmanaged(t, projects, faults, next);
    if unmanaged.Err? {
      if !Unmanaged(t, projects) { ManagedRejects(t, projects, ids); }
      return Err(unmanaged.error), result, next;
    }
    if !faults(next).Proceeds? {
      return Err(StoppedBy(faults(next))), result, next;
    }
    next := next + 1;
    if batch.operationId in t.operations {
      return Err(Reject), result, next;
    }
    r, next, result := InsertProjects(t, projects, ids, batch.planDigest, batch.operationId, faults, next);
    BatchIsAtomic(t, projects, ids, batch.planDigest, |projects|);
    if r.Err? {
      return;
    }
    PlusKeepsOperations(t, projects, ids, batch.planDigest);
    r := Execute(InsertOperation(r.value, batch.operationId, OperationRow(batch.requestHash, batch.planDigest, result)),
                 faults(next));
    next := next + 1;
    if r.Ok? { BatchResultExact(t, batch, ids, result); }
  }

  lemma PlusKeepsOperations(t: Tables, projects: seq<AdoptedProject>, ids: Ids, digest: Digest)
    ensures Plus(t, ProjectRows(projects, ids, |projects|), Placements(projects, ids, |projects|), digest).operations ==
        t.operations
  {}
}

/** From declaration to tables: what an accepted commit stores of each declared publication, field by field. */
module DeclaredRows {
  import opened Text
  import opened Storage
  import opened Declarations
  import opened Planning
  import opened PlanFacts
  import opened Catalog
  import opened Atomicity
  import opened Batches
  import opened Observations
  import opened Commits
  import opened Ownership

  /** The publication row, as declared and seen. */
  ghost predicate RowAsDeclared(row: PublicationRow, world: World, p: PublicationDeclaration) {
    && row.path == p.path && row.entryPoint == p.entryPoint && row.routingMode == p.routingMode
    && NameIs(row.displayName, p) && NewestIs(row.contentChangedAt, world, p.objects)
  }

  /** Its project row: the declared prefix, and the declared name or else the prefix. */
  ghost predicate ProjectAsDeclared(row: ProjectRow, p: PublicationDeclaration) {
    && row.prefix == p.project.prefix
    && row.displayName == if p.project.displayName == "" then p.project.prefix else p.project.displayName
  }

  /** Its manifest holds exactly the declared keys, each as seen. */
  ghost predicate ManifestAsDeclared(u: Tables, manifest: Id, world: World, p: PublicationDeclaration) {
    && (forall key | key in p.objects ::
          (manifest, key) in u.objects && ObjectAsSeen(u.objects[(manifest, key)], world, p.path, key))
    && (forall mk | mk in u.objects && mk.0 == manifest :: mk.1 in p.objects)
  }

  /** All new rows of one declared publication. */
  ghost predicate RowsAsDeclared(t: Tables, u: Tables, world: World, p: PublicationDeclaration, digest: Digest,
                                 id: Id) {
    && id in u.publications && id !in t.publications && RowAsDeclared(u.publications[id], world, p)
    && u.publications[id].projectId in u.projects && u.publications[id].projectId !in t.projects
    && ProjectAsDeclared(u.projects[u.publications[id].projectId], p)
    && u.publications[id].currentManifest in u.manifests && u.publications[id].currentManifest !in t.manifests
    && u.manifests[u.publications[id].currentManifest].publicationId == id
    && u.manifests[u.publications[id].currentManifest].planDigest == digest
    && ManifestAsDeclared(u, u.publications[id].currentManifest, world, p)
  }

  /** Every declared publication has its new rows, and every new publication row is of a declared one. */
  ghost predicate DeclarationStored(t: Tables, u: Tables, world: World, content: PlanContent, digest: Digest) {
    && (forall p | p in content.declaration.publications :: exists id :: RowsAsDeclared(t, u, world, p, digest, id))
    && (forall id | id in u.publications && id !in t.publications :: IsDeclared(t, u, world, content, digest, id))
  }

  ghost predicate IsDeclared(t: Tables, u: Tables, world: World, content: PlanContent, digest: Digest, id: Id) {
    exists p :: p in content.declaration.publications && RowsAsDeclared(t, u, world, p, digest, id)
  }

  // ---- Project names ----

  /** The declared name of a prefix is the one all its publications agree on. */
  lemma {:induction false} ProjectNameExact(qs: seq<PlannedPublication>, q: PlannedPublication)
    requires q in qs
    requires forall r | r in qs && r.project.prefix == q.project.prefix :: r.project == q.project
    ensures ProjectNameOf(qs, q.project.prefix)
         == if q.project.displayName == "" then q.project.prefix else q.project.displayName
    decreases |qs|
  {
    hide FirstPrefixes;
    var n := |qs| - 1;
    assert qs == qs[..n] + [qs[n]] && qs[n] in qs;
    assert forall r | r in qs[..n] :: r in qs;
    FirstPrefixesExact(qs[..n]);
    if q.project.prefix in FirstPrefixes(qs[..n]) {
      var r :| r in qs[..n] && r.project.prefix == q.project.prefix;
      ProjectNameExact(qs[..n], r);
    }
  }

  lemma NamesAgree(call: Call, world: World, q: PlannedPublication, r: PlannedPublication)
    requires CallOk(call) && Rechecked(call, world)
    requires q in call.approved.content.publications && r in call.approved.content.publications
    requires r.project.prefix == q.project.prefix
    ensures r.project == q.project
  {
    hide PlanSucceeds, PlannedContent, ValidPublication;
    var i := ApprovedPublication(call, world, q);
    var j := ApprovedPublication(call, world, r);
    var ps := call.approved.content.declaration.publications;
    assert DisplayNamesAgree(ps);
    if i < j { assert ps[i].project.displayName == ps[j].project.displayName; }
    if j < i { assert ps[j].project.displayName == ps[i].project.displayName; }
  }

  lemma PlacedProjectName(call: Call, world: World, q: PlannedPublication, i: nat)
    requires CallOk(call) && Rechecked(call, world) && q in call.approved.content.publications
    requires var projects := Normalized(ProjectsOf(call.approved.content.publications));
      i < |projects| && projects[i].prefix == q.project.prefix
    ensures Normalized(ProjectsOf(call.approved.content.publications))[i].displayName
         == if q.project.displayName == "" then q.project.prefix else q.project.displayName
  {
    hide CallOk, Rechecked, Normalized, ProjectsOf, PublicationsOf, FirstPrefixes, SortBy, ProjectNameOf;
    var qs := call.approved.content.publications;
    var projects := Normalized(ProjectsOf(qs));
    NormalizedMembers(ProjectsOf(qs));
    assert projects[i] in projects;
    var project :| project in ProjectsOf(qs) && projects[i] == SortedProject(project);
    ProjectsOfMembers(qs, project);
    forall r | r in qs && r.project.prefix == q.project.prefix ensures r.project == q.project {
      NamesAgree(call, world, q, r);
    }
    ProjectNameExact(qs, q);
  }

  // ---- The rows ----

  lemma PlacementRows(t: Tables, call: Call, world: World, ids: Ids, u: Tables, pl: Placement, q: PlannedPublication,
                      p: PublicationDeclaration, base: string)
    requires SchemaOk(t) && CommitAccepted(t, call, world, ids) && u == Committed(t, BatchOf(call), ids)
    requires pl in PlacedBy(call, ids) && pl.publication == AdoptedOf(q) && pl.prefix == q.project.prefix
    requires q in call.approved.content.publications && PlannedAsSeen(q, world, base, p)
    ensures RowsAsDeclared(t, u, world, p, call.approved.digest, pl.publicationId)
  {
    hide RowsOk, AllFit, Rechecked, CallOk, Accepted, Committed, Normalized, ProjectsOf, Under, Placements, HoldsObject,
         Less, CurrentManifestsOk, NameIs, NewestIs, ProbesAsSeen, ManifestAsDeclared, ObjectAsSeen, Ascending, Address,
         ProjectFits, ObjectRows, ObjectsAsSeen;
    var ps := PlacedBy(call, ids);
    CommittedGrown(t, BatchOf(call), ids);
    var i := ProjectOfPlacement(Normalized(ProjectsOf(call.approved.content.publications)), ids, pl);
    FitsFresh(t, ps, pl);
    PlacedProjectName(call, world, q, i);
    ProjectIsNew(t, Normalized(ProjectsOf(call.approved.content.publications)), ids, i);
    forall o ensures HoldsObject(u, pl.publicationId, o) <==> o in q.objects {
      PlacedObjects(t, u, ps, call.approved.digest, pl, o);
    }
    CommittedSchemaOk(t, BatchOf(call), ids);
    HeldAsDeclared(u, pl.publicationId, world, p, q);
  }

  lemma ProjectOfPlacement(projects: seq<AdoptedProject>, ids: Ids, pl: Placement) returns (i: nat)
    requires pl in Placements(projects, ids, |projects|)
    ensures i < |projects| && projects[i].prefix == pl.prefix && pl.projectId == ids.project(i)
  {
    PlacementOrigin(projects, ids, |projects|, pl);
    var k, j :| 0 <= k < |projects| && 0 <= j < |projects[k].publications| && pl == PlacementAt(projects, ids, k, j);
    i := k;
  }

  lemma ProjectIsNew(t: Tables, projects: seq<AdoptedProject>, ids: Ids, i: nat)
    requires i < |projects| && ProjectFits(t, projects, ids, i)
    ensures ids.project(i) !in t.projects
  {}

  lemma HeldAsDeclared(u: Tables, id: Id, world: World, p: PublicationDeclaration, q: PlannedPublication)
    requires RowsOk(u) && id in u.publications && ObjectsAsSeen(q.objects, world, p)
    requires forall o :: HoldsObject(u, id, o) <==> o in q.objects
    ensures ManifestAsDeclared(u, u.publications[id].currentManifest, world, p)
  {
    hide ObjectAsSeen, Less, Ascending;
    var m := u.publications[id].currentManifest;
    forall key | key in p.objects
      ensures (m, key) in u.objects && ObjectAsSeen(u.objects[(m, key)], world, p.path, key)
    {
      ObjectKeyAt(q.objects, key);
      var o :| o in q.objects && o.key == key;
      assert HoldsObject(u, id, o);
    }
    forall mk | mk in u.objects && mk.0 == m ensures mk.1 in p.objects {
      assert u.objects[mk].key == mk.1 && mk == (m, mk.1);
      assert HoldsObject(u, id, u.objects[mk]);
    }
  }

  /** A commit stores the declaration as declared and seen. */
  lemma DeclaredRowsExact(t: Tables, call: Call, world: World, ids: Ids, u: Tables)
    requires SchemaOk(t) && CommitAccepted(t, call, world, ids) && u == Committed(t, BatchOf(call), ids)
    ensures DeclarationStored(t, u, world, call.approved.content, call.approved.digest)
  {
    hide RowsOk, AllFit, Rechecked, CallOk, Accepted, Committed, Normalized, ProjectsOf, Placements, RowsAsDeclared,
         PlannedAsSeen,
         CurrentManifestsOk, PlannedContent, PlanSucceeds;
    var content := call.approved.content;
    SeenContent(call, world);
    forall p | p in content.declaration.publications
      ensures exists id :: RowsAsDeclared(t, u, world, p, call.approved.digest, id)
    {
      var i :| 0 <= i < |content.declaration.publications| && content.declaration.publications[i] == p;
      var pl, j := PlannedIsPlaced(content.publications, ids, content.publications[i]);
      PlacementRows(t, call, world, ids, u, pl, content.publications[i], p, content.publicBaseURL);
    }
    forall id | id in u.publications && id !in t.publications
      ensures IsDeclared(t, u, world, content, call.approved.digest, id)
    {
      NewRowDeclared(t, call, world, ids, u, id);
    }
  }

  lemma SeenContent(call: Call, world: World)
    requires CallOk(call) && Rechecked(call, world)
    ensures var content := call.approved.content;
      && |content.publications| == |content.declaration.publications|
      && forall i | 0 <= i < |content.publications| ::
        PlannedAsSeen(content.publications[i], world, content.publicBaseURL, content.declaration.publications[i])
  {
    hide PlannedAsSeen, PlannedContent, ValidDeclaration, Plannable;
    RecheckPinsContent(call, world);
    PlanExact(world, call.approved.content.publicBaseURL, call.approved.content.declaration);
  }

  lemma NewPlacement(t: Tables, call: Call, ids: Ids, u: Tables, id: Id) returns (pl: Placement)
    requires SchemaOk(t) && Accepted(t, BatchOf(call), ids) && u == Committed(t, BatchOf(call), ids)
    requires id in u.publications && id !in t.publications
    ensures pl.publicationId == id && pl in PlacedBy(call, ids)
    ensures var projects := Normalized(ProjectsOf(call.approved.content.publications));
      pl in Placements(projects, ids, |projects|)
  {
    hide RowsOk, AllFit, Accepted, Committed, Normalized, ProjectsOf, Placements, CurrentManifestsOk, ObjectRows,
         HoldsProjects;
    CommittedGrown(t, BatchOf(call), ids);
    pl :| pl in PlacedBy(call, ids) && pl.publicationId == id;
  }

  lemma NewRowDeclared(t: Tables, call: Call, world: World, ids: Ids, u: Tables, id: Id)
    requires SchemaOk(t) && CommitAccepted(t, call, world, ids) && u == Committed(t, BatchOf(call), ids)
    requires id in u.publications && id !in t.publications
    ensures IsDeclared(t, u, world, call.approved.content, call.approved.digest, id)
  {
    hide RowsOk, AllFit, Rechecked, CallOk, Accepted, Committed, Normalized, ProjectsOf, Placements, PlannedAsSeen,
         CurrentManifestsOk, RowsAsDeclared, AdoptedOf;
    var content := call.approved.content;
    SeenContent(call, world);
    var pl := NewPlacement(t, call, ids, u, id);
    PlacementIsPlanned(content.publications, ids, pl);
    var q :| q in content.publications && pl.publication == AdoptedOf(q) && pl.prefix == q.project.prefix;
    var i :| 0 <= i < |content.publications| && content.publications[i] == q;
    PlacementRows(t, call, world, ids, u, pl, q, content.declaration.publications[i], content.publicBaseURL);
  }
}

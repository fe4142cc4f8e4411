/**
 Ownership across batches: the catalog never compares objects of different
 batches, yet every object key and every public URL has one owner.
 */
module Ownership {
  import opened Text
  import opened Storage
  import opened Declarations
  import opened Planning
  import opened Catalog
  import opened Atomicity
  import opened Batches
  import opened Observations
  import opened Commits
  import opened Scanning
  import opened Reconciliation

  /** Publications lie under their Project's one-segment prefix and hold their own objects. */
  ghost predicate WellPlaced(t: Tables, id: Id)
    requires id in t.publications
  {
    var p := t.publications[id];
    && p.projectId in t.projects
    && '/' !in t.projects[p.projectId].prefix && Under(t.projects[p.projectId].prefix, p.path)
    && (forall o | HoldsObject(t, id, o) :: Under(p.path, o.key))
    && (p.currentManifest, p.entryPoint) in t.objects && Under(p.path, p.entryPoint)
  }

  /** Every manifest is the current one of its publication. */
  ghost predicate ManifestsCurrent(t: Tables) {
    forall m | m in t.manifests ::
      t.manifests[m].publicationId in t.publications
        && t.publications[t.manifests[m].publicationId].currentManifest == m
  }

  /** Every publication is well placed, no path equals or nests in another, and every manifest is current. */
  ghost predicate Owned(t: Tables) {
    && ManifestsCurrent(t)
    && (forall id | id in t.publications :: WellPlaced(t, id))
    && (forall id, id' | id in t.publications && id' in t.publications && id != id' ::
          !Overlap(t.publications[id].path, t.publications[id'].path))
  }

  // ---- What ownership gives ----

  /** No object key is in two publications' manifests. */
  lemma KeyHasOnePublication(t: Tables, id: Id, id': Id, o: ManifestObject, o': ManifestObject)
    requires Owned(t) && HoldsObject(t, id, o) && HoldsObject(t, id', o') && o.key == o'.key
    ensures id == id' && o == o'
  {
    hide Under, Overlap;
    assert WellPlaced(t, id) && WellPlaced(t, id');
    OwnersOverlap(t.publications[id].path, t.publications[id'].path, o.key);
  }

  /** No object key is in two rows of manifest_objects, whatever manifests they belong to. */
  lemma KeyHasOneRow(t: Tables, mk: (Id, string), mk': (Id, string))
    requires RowsOk(t) && Owned(t) && mk in t.objects && mk' in t.objects && mk.1 == mk'.1
    ensures mk == mk'
  {
    hide WellPlaced, Overlap;
    assert mk.0 in t.manifests && mk'.0 in t.manifests;
    var id, id' := t.manifests[mk.0].publicationId, t.manifests[mk'.0].publicationId;
    KeyHasOnePublication(t, id, id', t.objects[mk], t.objects[mk']);
  }

  /** Canonical URLs are pairwise distinct, whatever mix of routing modes is accepted. */
  lemma PublicRoutesDistinct(t: Tables, baseURL: string, id: Id, id': Id)
    requires Owned(t) && id in t.publications && id' in t.publications && id != id'
    ensures var p, q := t.publications[id], t.publications[id'];
      CanonicalURL(baseURL, p.path, p.entryPoint, p.routingMode)
      != CanonicalURL(baseURL, q.path, q.entryPoint, q.routingMode)
  {
    hide Overlap, Under, CanonicalURL;
    assert WellPlaced(t, id) && WellPlaced(t, id');
    var p, q := t.publications[id], t.publications[id'];
    CanonicalURLsDiffer(baseURL, p.path, p.entryPoint, p.routingMode, q.path, q.entryPoint, q.routingMode);
  }

  /** Hence accepted manifests share no key, as the usage and lock theorems need. */
  lemma AcceptedManifestsShareNothing(t: Tables, ms: seq<PublicationManifest>)
    requires Owned(t) && AcceptedManifestsOf(t, ms)
    ensures NoSharedKeys(ms)
  {
    hide Owned, Less, Ascending;
    var objects := AllObjects(ms);
    AllObjectsDistinct(t, ms, |ms|);
    assert ms[..|ms|] == ms;
  }

  lemma {:induction false} AllObjectsDistinct(t: Tables, ms: seq<PublicationManifest>, n: nat)
    requires Owned(t) && AcceptedManifestsOf(t, ms) && n <= |ms|
    ensures Distinct(ObjectKeys(AllObjects(ms[..n])))
    decreases n
  {
    hide Owned, Less, ObjectKeys, Ascending, HoldsObject;
    if n > 0 {
      var m := ms[n - 1];
      assert m in ms && ms[..n][..n - 1] == ms[..n - 1];
      AllObjectsDistinct(t, ms, n - 1);
      var earlier := AllObjects(ms[..n - 1]);
      AscendingIsDistinct(ObjectKeys(m.objects));
      forall key | key in ObjectKeys(m.objects) ensures key !in ObjectKeys(earlier) {
        if key in ObjectKeys(earlier) { KeyOnlyEarlier(t, ms, n - 1, key); }
      }
      DistinctUnion(ObjectKeys(earlier), ObjectKeys(m.objects));
      assert ObjectKeys(earlier + m.objects) == ObjectKeys(earlier) + ObjectKeys(m.objects);
    }
  }

  lemma KeyOnlyEarlier(t: Tables, ms: seq<PublicationManifest>, n: nat, key: string)
    requires Owned(t) && AcceptedManifestsOf(t, ms) && n < |ms|
    requires key in ObjectKeys(AllObjects(ms[..n]))
    ensures key !in ObjectKeys(ms[n].objects)
  {
    hide Owned, Less, ObjectKeys, Ascending;
    ObjectKeyAt(AllObjects(ms[..n]), key);
    ObjectKeyAt(ms[n].objects, key);
    var o :| o in AllObjects(ms[..n]) && o.key == key;
    InAllObjects(ms[..n], o);
    var m :| m in ms[..n] && o in m.objects;
    var i :| 0 <= i < n && ms[i] == m;
    assert ms[i] in ms && ms[n] in ms;
    ManifestIdsDistinct(t, ms, i, n);
    if o' :| o' in ms[n].objects && o'.key == key {
      KeyHasOnePublication(t, ms[i].publicationId, ms[n].publicationId, o, o');
    }
  }

  // ---- Every accepted commit keeps ownership ----

  /** A commit whose recheck and transaction both succeed. */
  ghost predicate CommitAccepted(t: Tables, call: Call, world: World, ids: Ids) {
    CallOk(call) && Rechecked(call, world) && Accepted(t, BatchOf(call), ids)
  }

  ghost function PlacedBy(call: Call, ids: Ids): seq<Placement> {
    var projects := Normalized(ProjectsOf(call.approved.content.publications));
    Placements(projects, ids, |projects|)
  }

  /** The committed tables row by row: old rows unchanged, one set of rows per placement. */
  lemma CommittedGrown(t: Tables, batch: Batch, ids: Ids)
    requires Accepted(t, batch, ids)
    ensures var projects, u := Normalized(batch.projects), Committed(t, batch, ids);
      && Grown(t, u, Placements(projects, ids, |projects|), batch.planDigest)
      && HoldsProjects(t, u, projects, ids)
      && AllFit(t, Placements(projects, ids, |projects|))
      && forall i | 0 <= i < |projects| :: ProjectFits(t, projects, ids, i)
  {
    hide AllFit, ProjectFits, PublicationRows, ManifestRows, ObjectRows, ProjectRows, Placements, Normalized, ResultOf,
         NormalizeOk;
    var projects := Normalized(batch.projects);
    var pr, ps := ProjectRows(projects, ids, |projects|), Placements(projects, ids, |projects|);
    PlusGrown(t, projects, ids, pr, ps, batch.planDigest);
    var u, v := Committed(t, batch, ids), Plus(t, pr, ps, batch.planDigest);
    assert u.projects == v.projects && u.publications == v.publications && u.manifests == v.manifests
           && u.objects == v.objects;
  }

  /** Objects of an old publication are unchanged by a commit. */
  lemma OldObjectsKept(t: Tables, u: Tables, ps: seq<Placement>, digest: Digest, id: Id, o: ManifestObject)
    requires SchemaOk(t) && AllFit(t, ps) && Grown(t, u, ps, digest) && id in t.publications
    ensures HoldsObject(u, id, o) <==> HoldsObject(t, id, o)
    ensures var mk := (t.publications[id].currentManifest, o.key); mk in u.objects <==> mk in t.objects
  {
    hide AllFit, ObjectRows, RowsOk;
    var m := t.publications[id].currentManifest;
    ObjectRowsKeys(ps, (m, o.key));
    if (m, o.key) in ObjectRows(ps) {
      var p :| p in ps && p.manifestId == m;
      FitsFresh(t, ps, p);
    }
  }

  /** Objects of a placed publication are exactly the placement's. */
  lemma PlacedObjects(t: Tables, u: Tables, ps: seq<Placement>, digest: Digest, p: Placement, o: ManifestObject)
    requires RowsOk(t) && AllFit(t, ps) && Grown(t, u, ps, digest) && p in ps
    ensures HoldsObject(u, p.publicationId, o) <==> o in p.publication.objects
  {
    hide AllFit, ObjectRows, RowsOk;
    FitsFresh(t, ps, p);
    ManifestFresh(t, p.manifestId, o.key);
    var mk := (p.manifestId, o.key);
    ObjectRowsKeys(ps, mk);
    assert u.publications[p.publicationId].currentManifest == p.manifestId;
    if mk in ObjectRows(ps) {
      var q, o' :| q in ps && q.manifestId == mk.0 && o' in q.publication.objects && o'.key == mk.1
          && ObjectRows(ps)[mk] == o';
      if q != p { PlacementsApart(t, ps, p, q); }
      if o in p.publication.objects { KeyDetermines(p.publication.objects, o, o'); }
    }
  }

  lemma ManifestFresh(t: Tables, m: Id, key: string)
    requires RowsOk(t) && m !in t.manifests
    ensures (m, key) !in t.objects
  {}

  lemma KeyDetermines(objects: seq<ManifestObject>, o: ManifestObject, o': ManifestObject)
    requires Distinct(ObjectKeys(objects)) && o in objects && o' in objects && o.key == o'.key
    ensures o == o'
  {
    var i :| 0 <= i < |objects| && objects[i] == o;
    var j :| 0 <= j < |objects| && objects[j] == o';
    assert ObjectKeys(objects)[i] == ObjectKeys(objects)[j];
  }

  /** A placed publication is well placed: its keys were declared under its path. */
  lemma PlacedWellPlaced(t: Tables, call: Call, world: World, ids: Ids, u: Tables, p: Placement)
    requires RowsOk(t) && CommitAccepted(t, call, world, ids) && u == Committed(t, BatchOf(call), ids)
    requires p in PlacedBy(call, ids)
    ensures p.publicationId in u.publications && u.publications[p.publicationId] == RowOf(p)
    ensures p.projectId in u.projects && u.projects[p.projectId].prefix == p.prefix
    ensures WellPlaced(u, p.publicationId)
  {
    hide RowsOk, AllFit, Rechecked, CallOk, Accepted, Committed, ProjectFits, Normalized, ProjectsOf, Under, Placements;
    var qs := call.approved.content.publications;
    var ps := PlacedBy(call, ids);
    CommittedGrown(t, BatchOf(call), ids);
    PlacementIsPlanned(qs, ids, p);
    var q :| q in qs && p.publication == AdoptedOf(q) && p.prefix == q.project.prefix;
    ProjectOfPlacement(t, call, ids, u, p);
    ApprovedUnder(call, world, q, q.path);
    ApprovedUnder(call, world, q, q.entryPoint);
    forall o ensures HoldsObject(u, p.publicationId, o) <==> o in q.objects {
      PlacedObjects(t, u, ps, call.approved.digest, p, o);
    }
    forall o | HoldsObject(u, p.publicationId, o) ensures Under(q.path, o.key) {
      ObjectKeyAt(q.objects, o.key);
      ApprovedUnder(call, world, q, o.key);
    }
    ObjectKeyAt(q.objects, q.entryPoint);
    var entry :| entry in q.objects && entry.key == q.entryPoint;
    assert HoldsObject(u, p.publicationId, entry);
  }

  lemma ProjectOfPlacement(t: Tables, call: Call, ids: Ids, u: Tables, p: Placement)
    requires HoldsProjects(t, u, Normalized(ProjectsOf(call.approved.content.publications)), ids)
    requires p in PlacedBy(call, ids)
    ensures p.projectId in u.projects && u.projects[p.projectId].prefix == p.prefix
    ensures exists i :: 0 <= i < |Normalized(ProjectsOf(call.approved.content.publications))|
                        && Normalized(ProjectsOf(call.approved.content.publications))[i].prefix == p.prefix
                        && ids.project(i) == p.projectId
  {
    hide Normalized, ProjectsOf, Placements;
    var projects := Normalized(ProjectsOf(call.approved.content.publications));
    PlacementOrigin(projects, ids, |projects|, p);
    var i, j :| 0 <= i < |projects| && 0 <= j < |projects[i].publications| && p == PlacementAt(projects, ids, i, j);
    assert projects[i].prefix == p.prefix;
  }

  /** The prefix of a placed publication is new to the catalog. */
  lemma PlacedPrefixNew(t: Tables, call: Call, ids: Ids, p: Placement, project: Id)
    requires Accepted(t, BatchOf(call), ids) && p in PlacedBy(call, ids) && project in t.projects
    ensures t.projects[project].prefix != p.prefix
  {
    hide AllFit, Normalized, ProjectsOf, Committed, NormalizeOk, Placements;
    CommittedGrown(t, BatchOf(call), ids);
    ProjectOfPlacement(t, call, ids, Committed(t, BatchOf(call), ids), p);
    var projects := Normalized(ProjectsOf(call.approved.content.publications));
    var i :| 0 <= i < |projects| && projects[i].prefix == p.prefix;
    assert ProjectFits(t, projects, ids, i);
  }

  lemma OldStaysWellPlaced(t: Tables, u: Tables, ps: seq<Placement>, digest: Digest, projects: seq<AdoptedProject>,
                           ids: Ids, id: Id)
    requires SchemaOk(t) && AllFit(t, ps) && Grown(t, u, ps, digest) && HoldsProjects(t, u, projects, ids)
    requires id in t.publications && WellPlaced(t, id)
    ensures WellPlaced(u, id)
  {
    hide AllFit, RowsOk, Under;
    forall o ensures HoldsObject(u, id, o) <==> HoldsObject(t, id, o) {
      OldObjectsKept(t, u, ps, digest, id, o);
    }
    var mk := (t.publications[id].currentManifest, t.publications[id].entryPoint);
    assert mk in u.objects by { assert u.objects == t.objects + ObjectRows(ps); }
  }

  /** New paths stay clear of each other by declaration, and of old ones by their prefix. */
  lemma PathsApart(t: Tables, call: Call, world: World, ids: Ids, u: Tables, p: Placement, id: Id)
    requires SchemaOk(t) && Owned(t) && CommitAccepted(t, call, world, ids) && u == Committed(t, BatchOf(call), ids)
    requires p in PlacedBy(call, ids) && id in u.publications && id != p.publicationId
    ensures !Overlap(RowOf(p).path, u.publications[id].path)
  {
    hide AllFit, Rechecked, CallOk, Accepted, Committed, ProjectFits, Normalized, ProjectsOf, Under, Overlap, RowsOk,
         Placements;
    var qs := call.approved.content.publications;
    CommittedGrown(t, BatchOf(call), ids);
    PlacementIsPlanned(qs, ids, p);
    var q :| q in qs && p.publication == AdoptedOf(q) && p.prefix == q.project.prefix;
    if id in t.publications {
      ApprovedUnder(call, world, q, q.path);
      assert WellPlaced(t, id);
      var project := t.publications[id].projectId;
      PlacedPrefixNew(t, call, ids, p, project);
      DifferentPrefixesApart(p.prefix, t.projects[project].prefix, q.path, t.publications[id].path);
    } else {
      var p' :| p' in PlacedBy(call, ids) && p'.publicationId == id;
      PlacementIsPlanned(qs, ids, p');
      var q' :| q' in qs && p'.publication == AdoptedOf(q') && p'.prefix == q'.project.prefix;
      PlacementsApart(t, PlacedBy(call, ids), p, p');
      ApprovedApart(call, world, q, q');
    }
  }

  lemma ManifestsStayCurrent(t: Tables, u: Tables, ps: seq<Placement>, digest: Digest)
    requires ManifestsCurrent(t) && Grown(t, u, ps, digest)
    ensures ManifestsCurrent(u)
  {
    hide ObjectRows;
    forall m | m in u.manifests
      ensures u.manifests[m].publicationId in u.publications
              && u.publications[u.manifests[m].publicationId].currentManifest == m
    {
      if m !in t.manifests {
        var q :| q in ps && q.manifestId == m;
      }
    }
  }

  /** Every accepted commit keeps the schema and ownership. */
  lemma CommitKeepsOwnership(t: Tables, call: Call, world: World, ids: Ids)
    requires SchemaOk(t) && Owned(t) && CommitAccepted(t, call, world, ids)
    ensures SchemaOk(Committed(t, BatchOf(call), ids)) && Owned(Committed(t, BatchOf(call), ids))
  {
    hide AllFit, Rechecked, CallOk, Accepted, Committed, ProjectFits, Normalized, ProjectsOf, Under, Overlap, RowsOk,
         WellPlaced, Placements, CurrentManifestsOk, ManifestsCurrent;
    var u := Committed(t, BatchOf(call), ids);
    var ps := PlacedBy(call, ids);
    var projects := Normalized(ProjectsOf(call.approved.content.publications));
    CommittedSchemaOk(t, BatchOf(call), ids);
    CommittedGrown(t, BatchOf(call), ids);
    ManifestsStayCurrent(t, u, ps, call.approved.digest);
    forall id | id in u.publications ensures WellPlaced(u, id) {
      if id in t.publications {
        OldStaysWellPlaced(t, u, ps, call.approved.digest, projects, ids, id);
      } else {
        var p :| p in ps && p.publicationId == id;
        PlacedWellPlaced(t, call, world, ids, u, p);
      }
    }
    forall id, id' | id in u.publications && id' in u.publications && id != id'
      ensures !Overlap(u.publications[id].path, u.publications[id'].path)
    {
      if id !in t.publications {
        var p :| p in ps && p.publicationId == id;
        PathsApart(t, call, world, ids, u, p, id');
      } else if id' !in t.publications {
        var p :| p in ps && p.publicationId == id';
        PathsApart(t, call, world, ids, u, p, id);
        OverlapSymmetric(u.publications[id].path, u.publications[id'].path);
      }
    }
  }

  lemma EmptyIsOwned()
    ensures SchemaOk(EMPTY_TABLES) && Owned(EMPTY_TABLES)
  {}

  // ---- Emergent coverage ----

  /**
   A further adoption can only be accepted while the bucket holds none of the
   objects accepted before: it must plan the whole bucket, under new prefixes.
   */
  lemma AcceptedObjectsAreGone(t: Tables, call: Call, world: World, ids: Ids, id: Id, o: ManifestObject)
    requires Owned(t) && CommitAccepted(t, call, world, ids) && HoldsObject(t, id, o)
    ensures world.list.Ok? && o.key !in Keys(world.list.value)
  {
    hide AllFit, CallOk, Accepted, Committed, ProjectFits, Normalized, ProjectsOf, Under, Overlap, Placements, Keys,
         ValidDeclaration, PlannedContent, ValidPublication;
    var content := call.approved.content;
    if o.key in Keys(world.list.value) {
      PlanCoversBucket(world, content.publicBaseURL, content.declaration);
      RecheckPinsContent(call, world);
      var i, j :| PlansKey(content, i, j, o.key);
      var q := content.publications[i];
      ObjectKeyAt(q.objects, o.key);
      ApprovedUnder(call, world, q, o.key);
      var p, k := PlannedIsPlaced(content.publications, ids, q);
      assert WellPlaced(t, id);
      var project := t.publications[id].projectId;
      PlacedPrefixNew(t, call, ids, p, project);
      UnderTransitive(t.projects[project].prefix, t.publications[id].path, o.key);
      FirstSegment(t.projects[project].prefix, o.key);
      FirstSegment(q.project.prefix, o.key);
    }
  }
}

/**
 Inserting a batch row by row gives exactly the old tables plus the whole batch,
 or fails because some row does not fit.
 */
module Atomicity {
  import opened Text
  import opened Storage
  import opened Planning
  import opened Catalog

  // ---- One publication ----

  lemma DistinctExtend(objects: seq<ManifestObject>, o: ManifestObject)
    ensures Distinct(ObjectKeys(objects + [o])) <==>
            Distinct(ObjectKeys(objects)) && forall q | q in objects :: q.key != o.key
  {
    hide ObjectKeys;
    var keys, all := ObjectKeys(objects), ObjectKeys(objects + [o]);
    assert all == keys + [o.key];
    if Distinct(all) {
      assert forall i, j | 0 <= i < j < |keys| :: keys[i] == all[i] && keys[j] == all[j];
      forall q | q in objects ensures q.key != o.key {
        var i :| 0 <= i < |objects| && objects[i] == q;
        assert all[i] == q.key && all[|objects|] == o.key;
      }
    }
  }

  /** Object rows of a new manifest all fit exactly when keys are distinct and sizes are not negative. */
  lemma {:induction false} ObjectsInsertedExact(t: Tables, m: Id, objects: seq<ManifestObject>)
    requires m in t.manifests && forall key :: (m, key) !in t.objects
    ensures ObjectsInserted(t, m, objects).Some? <==>
            Distinct(ObjectKeys(objects)) && forall o | o in objects :: o.size >= 0
    ensures ObjectsInserted(t, m, objects).Some? ==>
            ObjectsInserted(t, m, objects).value == t.(objects := t.objects + ObjectRowsOf(m, objects))
    decreases |objects|
  {
    hide Distinct, ObjectKeys;
    if objects == [] {
      NoKeys();
      assert t.objects + map[] == t.objects;
    } else {
      var n := |objects| - 1;
      var earlier, o := objects[..n], objects[n];
      assert objects == earlier + [o];
      ObjectsInsertedExact(t, m, earlier);
      DistinctExtend(earlier, o);
      ObjectRowsOfKeys(m, earlier, (m, o.key));
      ObjectRowsExtend(t, m, earlier, o);
    }
  }

  lemma NoKeys()
    ensures Distinct(ObjectKeys([]))
  {}

  lemma ObjectRowsExtend(t: Tables, m: Id, objects: seq<ManifestObject>, o: ManifestObject)
    ensures t.objects + ObjectRowsOf(m, objects + [o]) == (t.objects + ObjectRowsOf(m, objects))[(m, o.key) := o]
  {
    assert (objects + [o])[..|objects|] == objects;
  }

  /** Placements that fit have distinct identities, so each finds its own rows. */
  lemma PlacedRows(t: Tables, ps: seq<Placement>, digest: Digest, p: Placement)
    requires AllFit(t, ps) && p in ps
    ensures p.publicationId in PublicationRows(ps) && PublicationRows(ps)[p.publicationId] == RowOf(p)
    ensures p.manifestId in ManifestRows(ps, digest)
         && ManifestRows(ps, digest)[p.manifestId] == ManifestRow(p.publicationId, digest)
  {
    PublicationRowsKeys(ps, p.publicationId);
    ManifestRowsKeys(ps, digest, p.manifestId);
    var q :| q in ps && q.publicationId == p.publicationId && PublicationRows(ps)[p.publicationId] == RowOf(q);
    if q != p { PlacementsApart(t, ps, p, q); }
    var m :| m in ps && m.manifestId == p.manifestId
             && ManifestRows(ps, digest)[p.manifestId] == ManifestRow(m.publicationId, digest);
    if m != p { PlacementsApart(t, ps, p, m); }
  }

  lemma PlacementsApart(t: Tables, ps: seq<Placement>, p: Placement, q: Placement)
    requires AllFit(t, ps) && p in ps && q in ps && p != q
    ensures p.publicationId != q.publicationId && p.manifestId != q.manifestId
    ensures p.publication.path != q.publication.path
  {
    var x :| 0 <= x < |ps| && ps[x] == p;
    var y :| 0 <= y < |ps| && ps[y] == q;
    if x < y {
      assert Fits(t, ps[..y], ps[y]) && ps[..y][x] == p;
    } else {
      assert Fits(t, ps[..x], ps[x]) && ps[..x][y] == q;
    }
  }

  /** The publications after placing: the old ones unchanged, and one per placement. */
  lemma PlusPublications(t: Tables, pr: map<Id, ProjectRow>, ps: seq<Placement>, digest: Digest)
    requires AllFit(t, ps)
    ensures var whole := Plus(t, pr, ps, digest).publications;
      && (forall id | id in t.publications :: id in whole && whole[id] == t.publications[id])
      && (forall q | q in ps :: q.publicationId in whole && whole[q.publicationId] == RowOf(q))
      && (forall id | id in whole :: id in t.publications || exists q :: q in ps && q.publicationId == id)
  {
    hide AllFit;
    var rows := PublicationRows(ps);
    forall q | q in ps ensures q.publicationId in rows && rows[q.publicationId] == RowOf(q) {
      PlacedRows(t, ps, digest, q);
    }
    forall id ensures id in rows ==> id !in t.publications && exists q :: q in ps && q.publicationId == id {
      PublicationRowsKeys(ps, id);
      if id in rows {
        var q :| q in ps && q.publicationId == id;
        FitsFresh(t, ps, q);
      }
    }
  }

  /** The manifests after placing: the old ones unchanged, and one per placement. */
  lemma PlusManifests(t: Tables, pr: map<Id, ProjectRow>, ps: seq<Placement>, digest: Digest)
    requires AllFit(t, ps)
    ensures var whole := Plus(t, pr, ps, digest).manifests;
      && (forall id | id in t.manifests :: id in whole && whole[id] == t.manifests[id])
      && (forall q | q in ps :: q.manifestId in whole && whole[q.manifestId] == ManifestRow(q.publicationId, digest))
      && (forall id | id in whole :: id in t.manifests || exists q :: q in ps && q.manifestId == id)
  {
    hide AllFit;
    var rows := ManifestRows(ps, digest);
    forall q | q in ps ensures q.manifestId in rows && rows[q.manifestId] == ManifestRow(q.publicationId, digest) {
      PlacedRows(t, ps, digest, q);
    }
    forall id ensures id in rows ==> id !in t.manifests && exists q :: q in ps && q.manifestId == id {
      ManifestRowsKeys(ps, digest, id);
      if id in rows {
        var q :| q in ps && q.manifestId == id;
        FitsFresh(t, ps, q);
      }
    }
  }

  lemma PublicationFits(t: Tables, pr: map<Id, ProjectRow>, ps: seq<Placement>, digest: Digest, p: Placement)
    requires AllFit(t, ps) && p.projectId in t.projects + pr
    ensures InsertPublication(Plus(t, pr, ps, digest), p.publicationId, RowOf(p)).Some? <==>
            && |p.publicationId| == ID_LENGTH && p.publicationId !in t.publications
            && !p.publication.routingMode.OtherMode?
            && (forall id | id in t.publications :: t.publications[id].path != p.publication.path)
            && (forall q | q in ps :: q.publicationId != p.publicationId && q.publication.path != p.publication.path)
  {
    hide AllFit, PublicationRows, ManifestRows, ObjectRows;
    PlusPublications(t, pr, ps, digest);
  }

  lemma FitsFresh(t: Tables, ps: seq<Placement>, q: Placement)
    requires AllFit(t, ps) && q in ps
    ensures q.publicationId !in t.publications && q.manifestId !in t.manifests
    ensures |q.publicationId| == ID_LENGTH && |q.manifestId| == ID_LENGTH && !q.publication.routingMode.OtherMode?
    ensures forall id | id in t.publications :: t.publications[id].path != q.publication.path
    ensures Distinct(ObjectKeys(q.publication.objects)) && forall o | o in q.publication.objects :: o.size >= 0
  {
    var x :| 0 <= x < |ps| && ps[x] == q;
    assert Fits(t, ps[..x], ps[x]);
  }

  /** A publication's rows all insert exactly when its placement fits, and add exactly that placement. */
  lemma PlaceStep(t: Tables, pr: map<Id, ProjectRow>, ps: seq<Placement>, digest: Digest, p: Placement)
    requires RowsOk(t) && AllFit(t, ps) && p.projectId in t.projects + pr
    ensures PublicationInserted(Plus(t, pr, ps, digest), p, digest).Some? <==> Fits(t, ps, p)
    ensures Fits(t, ps, p) ==>
            PublicationInserted(Plus(t, pr, ps, digest), p, digest).value == Plus(t, pr, ps + [p], digest)
  {
    hide AllFit, RowsOk, ObjectsInserted, ObjectRowsOf;
    var base := Plus(t, pr, ps, digest);
    var objects := p.publication.objects;
    PublicationFits(t, pr, ps, digest, p);
    ManifestRowsKeys(ps, digest, p.manifestId);
    var u := InsertPublication(base, p.publicationId, RowOf(p));
    if u.Some? {
      var v := InsertManifest(u.value, p.manifestId, ManifestRow(p.publicationId, digest));
      assert v.Some? <==> |p.manifestId| == ID_LENGTH && p.manifestId !in t.manifests
                          && forall q | q in ps :: q.manifestId != p.manifestId;
      if v.Some? {
        NoObjectsYet(t, ps, p.manifestId);
        ObjectsInsertedExact(v.value, p.manifestId, objects);
        PlusExtend(t, pr, ps, digest, p);
      }
    }
  }

  lemma NoObjectsYet(t: Tables, ps: seq<Placement>, m: Id)
    requires RowsOk(t) && m !in t.manifests && forall q | q in ps :: q.manifestId != m
    ensures forall key :: (m, key) !in t.objects + ObjectRows(ps)
  {
    forall key ensures (m, key) !in t.objects + ObjectRows(ps) {
      ObjectRowsKeys(ps, (m, key));
    }
  }

  lemma PlusExtend(t: Tables, pr: map<Id, ProjectRow>, ps: seq<Placement>, digest: Digest, p: Placement)
    ensures var base, whole := Plus(t, pr, ps, digest), Plus(t, pr, ps + [p], digest);
      && whole.projects == base.projects && whole.operations == base.operations
      && whole.publications == base.publications[p.publicationId := RowOf(p)]
      && whole.manifests == base.manifests[p.manifestId := ManifestRow(p.publicationId, digest)]
      && whole.objects == base.objects + ObjectRowsOf(p.manifestId, p.publication.objects)
  {
    PublicationRowsExtend(ps, p);
    ManifestRowsExtend(ps, digest, p);
    ObjectRowsOfExtend(ps, p);
    hide PublicationRows, ManifestRows, ObjectRows, ObjectRowsOf;
    var id, row := p.publicationId, RowOf(p);
    assert t.publications + PublicationRows(ps)[id := row] == (t.publications + PublicationRows(ps))[id := row];
    var m, mrow := p.manifestId, ManifestRow(p.publicationId, digest);
    assert t.manifests + ManifestRows(ps, digest)[m := mrow] == (t.manifests + ManifestRows(ps, digest))[m := mrow];
    UnionAssociative(t.objects, ObjectRows(ps), ObjectRowsOf(m, p.publication.objects));
  }

  lemma UnionAssociative<K, V>(a: map<K, V>, b: map<K, V>, c: map<K, V>)
    ensures a + (b + c) == (a + b) + c
  {}

  lemma PublicationRowsExtend(ps: seq<Placement>, p: Placement)
    ensures PublicationRows(ps + [p]) == PublicationRows(ps)[p.publicationId := RowOf(p)]
  {
    assert (ps + [p])[..|ps|] == ps;
  }

  lemma ManifestRowsExtend(ps: seq<Placement>, digest: Digest, p: Placement)
    ensures ManifestRows(ps + [p], digest) ==
        ManifestRows(ps, digest)[p.manifestId := ManifestRow(p.publicationId, digest)]
  {
    assert (ps + [p])[..|ps|] == ps;
  }

  lemma ObjectRowsOfExtend(ps: seq<Placement>, p: Placement)
    ensures ObjectRows(ps + [p]) == ObjectRows(ps) + ObjectRowsOf(p.manifestId, p.publication.objects)
  {
    assert (ps + [p])[..|ps|] == ps;
  }

  // ---- One project, all projects ----

  /** The projects after inserting n of them: the old ones unchanged, and one per declared project. */
  lemma PlusProjects(t: Tables, projects: seq<AdoptedProject>, ids: Ids, n: nat)
    requires n <= |projects| && forall i | 0 <= i < n :: ProjectFits(t, projects, ids, i)
    ensures var whole := t.projects + ProjectRows(projects, ids, n);
      && (forall id | id in t.projects :: id in whole && whole[id] == t.projects[id])
      && (forall i | 0 <= i < n :: ids.project(i) in whole
            && whole[ids.project(i)] == ProjectRow(projects[i].prefix, projects[i].displayName))
      && (forall id | id in whole :: id in t.projects || exists i :: 0 <= i < n && ids.project(i) == id)
  {
    var rows := ProjectRows(projects, ids, n);
    forall i | 0 <= i < n
      ensures ids.project(i) in rows && rows[ids.project(i)] == ProjectRow(projects[i].prefix, projects[i].displayName)
    {
      ProjectRowsKeys(projects, ids, n, ids.project(i));
      var j :| 0 <= j < n && ids.project(j) == ids.project(i)
               && rows[ids.project(i)] == ProjectRow(projects[j].prefix, projects[j].displayName);
      assert ProjectFits(t, projects, ids, i) && ProjectFits(t, projects, ids, j);
      assert i == j;
    }
    forall id ensures id in rows ==> id !in t.projects && exists i :: 0 <= i < n && ids.project(i) == id {
      ProjectRowsKeys(projects, ids, n, id);
      if id in rows {
        var i :| 0 <= i < n && ids.project(i) == id;
        assert ProjectFits(t, projects, ids, i);
      }
    }
  }

  lemma ProjectStep(t: Tables, projects: seq<AdoptedProject>, ids: Ids, n: nat, ps: seq<Placement>, digest: Digest)
    requires n < |projects| && forall i | 0 <= i < n :: ProjectFits(t, projects, ids, i)
    ensures InsertProject(Plus(t, ProjectRows(projects, ids, n), ps, digest), ids.project(n),
                          ProjectRow(projects[n].prefix, projects[n].displayName)).Some?
            <==> ProjectFits(t, projects, ids, n)
    ensures ProjectFits(t, projects, ids, n) ==>
            InsertProject(Plus(t, ProjectRows(projects, ids, n), ps, digest), ids.project(n),
                          ProjectRow(projects[n].prefix, projects[n].displayName)).value
            == Plus(t, ProjectRows(projects, ids, n + 1), ps, digest)
  {
    hide PublicationRows, ManifestRows, ObjectRows;
    var rows := ProjectRows(projects, ids, n);
    var row := ProjectRow(projects[n].prefix, projects[n].displayName);
    PlusProjects(t, projects, ids, n);
    assert (t.projects + rows)[ids.project(n) := row] == t.projects + ProjectRows(projects, ids, n + 1);
  }

  /** The placements present after the first i projects and j publications of the next. */
  function PlacedSoFar(projects: seq<AdoptedProject>, ids: Ids, i: nat, j: nat): seq<Placement>
    requires i < |projects| && j <= |projects[i].publications|
  {
    Placements(projects, ids, i) + ProjectPlacements(projects, ids, i, j)
  }

  lemma {:induction false} PublicationsStep(t: Tables, projects: seq<AdoptedProject>, ids: Ids, digest: Digest, i: nat,
                                            j: nat)
    requires i < |projects| && j <= |projects[i].publications|
    requires RowsOk(t) && AllFit(t, Placements(projects, ids, i))
    ensures var base := Plus(t, ProjectRows(projects, ids, i + 1), Placements(projects, ids, i), digest);
            var placed := PlacedSoFar(projects, ids, i, j);
            && (PublicationsInserted(base, projects, ids, digest, i, j).Some? <==> AllFit(t, placed))
            && (AllFit(t, placed) ==>
                PublicationsInserted(base, projects, ids, digest, i, j).value
                == Plus(t, ProjectRows(projects, ids, i + 1), placed, digest))
    decreases j
  {
    hide AllFit, RowsOk, Plus, PublicationInserted;
    var earlier := Placements(projects, ids, i);
    if j == 0 {
      assert PlacedSoFar(projects, ids, i, 0) == earlier;
    } else {
      PublicationsStep(t, projects, ids, digest, i, j - 1);
      var p := PlacementAt(projects, ids, i, j - 1);
      var placed := PlacedSoFar(projects, ids, i, j - 1);
      assert PlacedSoFar(projects, ids, i, j) == placed + [p];
      AllFitExtend(t, placed, p);
      ProjectRowsKeys(projects, ids, i + 1, ids.project(i));
      if AllFit(t, placed) {
        PlaceStep(t, ProjectRows(projects, ids, i + 1), placed, digest, p);
      }
    }
  }

  lemma {:induction false} AllFitPrefix(t: Tables, a: seq<Placement>, b: seq<Placement>)
    requires AllFit(t, a + b)
    ensures AllFit(t, a)
  {
    forall x | 0 <= x < |a| ensures Fits(t, a[..x], a[x]) {
      assert (a + b)[..x] == a[..x] && Fits(t, (a + b)[..x], (a + b)[x]);
    }
  }

  /** Row-by-row insertion of the whole batch is one atomic addition of the whole batch. */
  lemma {:induction false} BatchIsAtomic(t: Tables, projects: seq<AdoptedProject>, ids: Ids, digest: Digest, n: nat)
    requires RowsOk(t) && n <= |projects|
    ensures ProjectsInserted(t, projects, ids, digest, n).Some? <==> Insertable(t, projects, ids, n)
    ensures Insertable(t, projects, ids, n) ==>
            ProjectsInserted(t, projects, ids, digest, n).value
            == Plus(t, ProjectRows(projects, ids, n), Placements(projects, ids, n), digest)
    decreases n
  {
    hide AllFit, RowsOk, PublicationsInserted, InsertProject, ProjectFits, Plus;
    if n == 0 {
      NothingPlaced(t, digest);
    } else {
      var i := n - 1;
      BatchIsAtomic(t, projects, ids, digest, i);
      var last := |projects[i].publications|;
      var placed := Placements(projects, ids, i);
      assert PlacedSoFar(projects, ids, i, last) == Placements(projects, ids, n);
      if Insertable(t, projects, ids, i) {
        ProjectStep(t, projects, ids, i, placed, digest);
        PublicationsStep(t, projects, ids, digest, i, last);
      }
      if AllFit(t, Placements(projects, ids, n)) {
        AllFitPrefix(t, placed, ProjectPlacements(projects, ids, i, last));
      }
    }
  }

  lemma NothingPlaced(t: Tables, digest: Digest)
    ensures AllFit(t, []) && Plus(t, map[], [], digest) == t
  {
    assert t.projects + map[] == t.projects && t.publications + map[] == t.publications;
    assert t.manifests + map[] == t.manifests && t.objects + map[] == t.objects;
  }
}

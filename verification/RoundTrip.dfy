/**
 From an approved plan through grouping, sorting, row-by-row insertion and the
 join back to accepted manifests: nothing is lost, duplicated or invented.
 */
module RoundTrip {
  import opened Text
  import opened Storage
  import opened Declarations
  import opened Planning
  import opened Catalog
  import opened Atomicity
  import opened Batches
  import opened Observations
  import opened Scanning
  import opened Reconciliation
  import opened Commits
  import opened Ownership
  import opened AdoptThenObserve

  // ---- Sums do not depend on order ----

  lemma RemoveOne(b: seq<ManifestObject>, i: nat) returns (rest: seq<ManifestObject>)
    requires i < |b|
    ensures multiset(b) == multiset(rest) + multiset{b[i]} && SumSizes(b) == SumSizes(rest) + b[i].size
  {
    var before, after := b[..i], b[i + 1..];
    rest := before + after;
    assert b == before + [b[i]] + after;
    assert (before + [b[i]])[..|before|] == before;
    SumSizesConcat(before + [b[i]], after);
    SumSizesConcat(before, after);
  }

  lemma CancelOne(a: multiset<ManifestObject>, b: multiset<ManifestObject>, x: ManifestObject)
    requires a + multiset{x} == b + multiset{x}
    ensures a == b
  {
    forall y ensures a[y] == b[y] {
      assert (a + multiset{x})[y] == (b + multiset{x})[y];
    }
  }

  lemma {:induction false} SumIgnoresOrder(a: seq<ManifestObject>, b: seq<ManifestObject>)
    requires multiset(a) == multiset(b)
    ensures |a| == |b| && SumSizes(a) == SumSizes(b)
    decreases |a|
  {
    assert |a| == |multiset(a)| == |multiset(b)| == |b|;
    if a != [] {
      var n := |a| - 1;
      assert a == a[..n] + [a[n]] && a[n] in multiset(b);
      var i :| 0 <= i < |b| && b[i] == a[n];
      var rest := RemoveOne(b, i);
      assert multiset(a) == multiset(a[..n]) + multiset{a[n]};
      CancelOne(multiset(a[..n]), multiset(rest), a[n]);
      SumIgnoresOrder(a[..n], rest);
    }
  }

  // ---- Manifests before and after an accepted commit ----

  ghost predicate Adoption(t: Tables, call: Call, world: World, ids: Ids, u: Tables,
                           ms: seq<PublicationManifest>, ms': seq<PublicationManifest>) {
    && SchemaOk(t) && Owned(t) && CommitAccepted(t, call, world, ids) && u == Committed(t, BatchOf(call), ids)
    && AcceptedManifestsOf(t, ms) && AcceptedManifestsOf(u, ms')
  }

  /** A publication's rows of before still make the same manifest. */
  lemma OldManifestSame(t: Tables, call: Call, ids: Ids, u: Tables, m: PublicationManifest)
    requires SchemaOk(t) && Accepted(t, BatchOf(call), ids) && u == Committed(t, BatchOf(call), ids)
    requires m.publicationId in t.publications
    ensures ManifestOf(t, m) <==> ManifestOf(u, m)
  {
    hide RowsOk, Accepted, Committed, Normalized, ProjectsOf, AllFit, Placements, HoldsObject, Less, CurrentManifestsOk,
         Ascending;
    CommittedGrown(t, BatchOf(call), ids);
    forall o ensures HoldsObject(u, m.publicationId, o) <==> HoldsObject(t, m.publicationId, o) {
      OldObjectsKept(t, u, PlacedBy(call, ids), call.approved.digest, m.publicationId, o);
    }
  }

  /** What was accepted before is accepted unchanged. */
  lemma OldManifestKept(t: Tables, call: Call, world: World, ids: Ids, u: Tables,
                        ms: seq<PublicationManifest>, ms': seq<PublicationManifest>, m: PublicationManifest)
    requires Adoption(t, call, world, ids, u, ms, ms')
    ensures m in ms <==> m in ms' && m.publicationId in t.publications
  {
    hide SchemaOk, Owned, Accepted, Committed, Rechecked, CallOk, HoldsObject, Less, Ascending;
    if m.publicationId in t.publications {
      OldManifestSame(t, call, ids, u, m);
      if m in ms { MemberOfJoin(u, ms', m); }
      if m in ms' { MemberOfJoin(t, ms, m); }
    }
  }

  lemma MemberOfJoin(u: Tables, ms: seq<PublicationManifest>, m: PublicationManifest)
    requires AcceptedManifestsOf(u, ms) && ManifestOf(u, m)
    ensures m in ms
  {
    hide HoldsObject, Less, Ascending;
    assert m.objects[0] in m.objects;
    var m' :| m' in ms && m'.publicationId == m.publicationId;
    SameManifest(u, m, m');
  }

  /** Each planned publication's rows make one new manifest with exactly its objects. */
  lemma PlannedManifest(t: Tables, call: Call, world: World, ids: Ids, u: Tables, q: PlannedPublication)
    returns (m: PublicationManifest)
    requires SchemaOk(t) && CommitAccepted(t, call, world, ids) && u == Committed(t, BatchOf(call), ids)
    requires q in call.approved.content.publications
    ensures ManifestOf(u, m) && m.publicationId !in t.publications && m.path == q.path && m.objects == q.objects
  {
    hide RowsOk, Accepted, Committed, Rechecked, CallOk, Normalized, ProjectsOf, AllFit, Placements, HoldsObject, Less,
         CurrentManifestsOk, Ascending;
    var ps := PlacedBy(call, ids);
    CommittedGrown(t, BatchOf(call), ids);
    var p, i := PlannedIsPlaced(call.approved.content.publications, ids, q);
    FitsFresh(t, ps, p);
    var j := ApprovedPublication(call, world, q);
    m := PublicationManifest(p.publicationId, q.path, q.objects);
    forall o ensures o in m.objects <==> HoldsObject(u, m.publicationId, o) {
      PlacedObjects(t, u, ps, call.approved.digest, p, o);
    }
  }

  /** Each planned publication is accepted as one new manifest with exactly its objects. */
  lemma PlannedIsAccepted(t: Tables, call: Call, world: World, ids: Ids, u: Tables,
                          ms: seq<PublicationManifest>, ms': seq<PublicationManifest>, q: PlannedPublication)
    returns (m: PublicationManifest)
    requires Adoption(t, call, world, ids, u, ms, ms') && q in call.approved.content.publications
    ensures m in ms' && m.publicationId !in t.publications && m.path == q.path && m.objects == q.objects
  {
    hide SchemaOk, Owned, CommitAccepted, Committed, AcceptedManifestsOf, ManifestOf;
    m := PlannedManifest(t, call, world, ids, u, q);
    MemberOfJoin(u, ms', m);
  }

  /** After the commit: the manifests of before, and one manifest per planned publication. */
  lemma AcceptedIsOldPlusPlanned(t: Tables, call: Call, world: World, ids: Ids, u: Tables,
                                 ms: seq<PublicationManifest>, ms': seq<PublicationManifest>)
    requires Adoption(t, call, world, ids, u, ms, ms')
    ensures forall m :: m in ms <==> m in ms' && m.publicationId in t.publications
    ensures forall m | m in ms' && m.publicationId !in t.publications ::
      exists q :: q in call.approved.content.publications && q.path == m.path && q.objects == m.objects
    ensures forall q | q in call.approved.content.publications ::
      exists m :: m in ms' && m.publicationId !in t.publications && m.path == q.path && m.objects == q.objects
    ensures |ms'| == |ms| + |call.approved.content.publications|
  {
    hide Adoption, ManifestOf, Less, Ascending;
    forall m ensures m in ms <==> m in ms' && m.publicationId in t.publications {
      OldManifestKept(t, call, world, ids, u, ms, ms', m);
    }
    forall m | m in ms' && m.publicationId !in t.publications
      ensures exists q :: q in call.approved.content.publications && q.path == m.path && q.objects == m.objects
    {
      var q := NewIsPlanned(t, call, world, ids, u, ms, ms', m);
    }
    forall q | q in call.approved.content.publications
      ensures exists m :: m in ms' && m.publicationId !in t.publications && m.path == q.path && m.objects == q.objects
    {
      var m := PlannedIsAccepted(t, call, world, ids, u, ms, ms', q);
    }
    ManifestCount(t, call, world, ids, u, ms, ms');
  }

  lemma NewIsPlanned(t: Tables, call: Call, world: World, ids: Ids, u: Tables,
                     ms: seq<PublicationManifest>, ms': seq<PublicationManifest>, m: PublicationManifest)
    returns (q: PlannedPublication)
    requires Adoption(t, call, world, ids, u, ms, ms') && m in ms' && m.publicationId !in t.publications
    ensures q in call.approved.content.publications && q.path == m.path && q.objects == m.objects
  {
    hide SchemaOk, Owned, CommitAccepted, Committed, ManifestOf;
    q := NewManifestPlanned(t, call, world, ids, u, m);
  }

  function PlannedPaths(qs: seq<PlannedPublication>): (paths: seq<string>)
    ensures |paths| == |qs|
    ensures forall i | 0 <= i < |qs| :: paths[i] == qs[i].path
  {
    seq(|qs|, i requires 0 <= i < |qs| => qs[i].path)
  }

  lemma PlannedPathsDistinct(call: Call, world: World)
    requires CallOk(call) && Rechecked(call, world)
    ensures Distinct(PlannedPaths(call.approved.content.publications))
  {
    hide PlanSucceeds, PlannedContent, ValidPublication, Overlap;
    var qs, ps := call.approved.content.publications, call.approved.content.declaration.publications;
    RecheckPinsContent(call, world);
    forall i, j | 0 <= i < j < |qs| ensures qs[i].path != qs[j].path {
      PlannedPublicationExact(world, call.approved.content.publicBaseURL, call.approved.content.declaration, i);
      PlannedPublicationExact(world, call.approved.content.publicBaseURL, call.approved.content.declaration, j);
      assert BoundariesApart(ps) && !Overlap(ps[i].path, ps[j].path);
      SamePathsOverlap(ps[i].path);
    }
  }

  lemma SamePathsOverlap(path: string)
    ensures Overlap(path, path)
  {}

  lemma PathIn(ms: seq<PublicationManifest>, path: string)
    ensures path in ManifestPaths(ms) <==> exists m :: m in ms && m.path == path
  {
    if path in ManifestPaths(ms) {
      var i :| 0 <= i < |ms| && ManifestPaths(ms)[i] == path;
      assert ms[i] in ms;
    }
    if m :| m in ms && m.path == path {
      var i :| 0 <= i < |ms| && ms[i] == m;
      assert ManifestPaths(ms)[i] == path;
    }
  }

  lemma PlannedPathIn(qs: seq<PlannedPublication>, path: string)
    ensures path in PlannedPaths(qs) <==> exists q :: q in qs && q.path == path
  {
    if path in PlannedPaths(qs) {
      var i :| 0 <= i < |qs| && PlannedPaths(qs)[i] == path;
      assert qs[i] in qs;
    }
    if q :| q in qs && q.path == path {
      var i :| 0 <= i < |qs| && qs[i] == q;
      assert PlannedPaths(qs)[i] == path;
    }
  }

  lemma ManifestCount(t: Tables, call: Call, world: World, ids: Ids, u: Tables,
                      ms: seq<PublicationManifest>, ms': seq<PublicationManifest>)
    requires Adoption(t, call, world, ids, u, ms, ms')
    ensures |ms'| == |ms| + |call.approved.content.publications|
  {
    hide SchemaOk, Owned, Accepted, Committed, Rechecked, CallOk, ManifestOf, Less, HoldsObject, Ascending, BatchOf,
         Distinct;
    var qs := call.approved.content.publications;
    var old', new', all := ManifestPaths(ms), PlannedPaths(qs), ManifestPaths(ms');
    AscendingIsDistinct(old');
    AscendingIsDistinct(all);
    PlannedPathsDistinct(call, world);
    forall path ensures path in all <==> path in old' + new' {
      PathIn(ms, path);
      PathIn(ms', path);
      PlannedPathIn(qs, path);
      PathSplits(t, call, world, ids, u, ms, ms', path);
    }
    forall path | path in new' ensures path !in old' {
      PathIn(ms, path);
      PlannedPathIn(qs, path);
      PathNotBoth(t, call, world, ids, u, ms, ms', path);
    }
    DistinctUnion(old', new');
    SameMembersSameMultiset(all, old' + new');
  }

  lemma PathSplits(t: Tables, call: Call, world: World, ids: Ids, u: Tables,
                   ms: seq<PublicationManifest>, ms': seq<PublicationManifest>, path: string)
    requires Adoption(t, call, world, ids, u, ms, ms')
    ensures (exists m :: m in ms' && m.path == path)
            <==>
            (|| (exists m :: m in ms && m.path == path)
             || (exists q :: q in call.approved.content.publications && q.path == path))
  {
    hide Adoption;
    if m :| m in ms' && m.path == path {
      OldManifestKept(t, call, world, ids, u, ms, ms', m);
      if m.publicationId !in t.publications { var q := NewIsPlanned(t, call, world, ids, u, ms, ms', m); }
    }
    if m :| m in ms && m.path == path { OldManifestKept(t, call, world, ids, u, ms, ms', m); }
    if q :| q in call.approved.content.publications && q.path == path {
      var m := PlannedIsAccepted(t, call, world, ids, u, ms, ms', q);
    }
  }

  lemma PathNotBoth(t: Tables, call: Call, world: World, ids: Ids, u: Tables,
                    ms: seq<PublicationManifest>, ms': seq<PublicationManifest>, path: string)
    requires Adoption(t, call, world, ids, u, ms, ms')
    ensures !((exists m :: m in ms && m.path == path)
            && (exists q :: q in call.approved.content.publications && q.path == path))
  {
    hide RowsOk, Owned, Accepted, Committed, Rechecked, CallOk, ManifestOf, Less, HoldsObject, Ascending, BatchOf,
         AllFit, Placements;
    if m, q :| m in ms && m.path == path && q in call.approved.content.publications && q.path == path {
      OldManifestKept(t, call, world, ids, u, ms, ms', m);
      var m' := PlannedIsAccepted(t, call, world, ids, u, ms, ms', q);
      PathDetermines(ms', m, m');
    }
  }

  lemma PathDetermines(ms: seq<PublicationManifest>, m: PublicationManifest, m': PublicationManifest)
    requires Ascending(ManifestPaths(ms)) && m in ms && m' in ms && m.path == m'.path
    ensures m == m'
  {
    AscendingIsDistinct(ManifestPaths(ms));
    var i :| 0 <= i < |ms| && ms[i] == m;
    var j :| 0 <= j < |ms| && ms[j] == m';
    assert ManifestPaths(ms)[i] == ManifestPaths(ms)[j];
  }

  // ---- The durable result's totals ----

  function AllPlaced(ps: seq<Placement>): seq<ManifestObject> {
    if ps == [] then [] else AllPlaced(ps[..|ps| - 1]) + ps[|ps| - 1].publication.objects
  }

  lemma {:induction false} PlacedTotals(ps: seq<Placement>)
    ensures |AllPlaced(ps)| == ObjectTotal(ps) && SumSizes(AllPlaced(ps)) == SizeTotal(ps)
    decreases |ps|
  {
    if ps != [] {
      var n := |ps| - 1;
      PlacedTotals(ps[..n]);
      SumSizesConcat(AllPlaced(ps[..n]), ps[n].publication.objects);
    }
  }

  lemma {:induction false} InAllPlaced(ps: seq<Placement>, o: ManifestObject)
    ensures o in AllPlaced(ps) <==> exists p :: p in ps && o in p.publication.objects
    decreases |ps|
  {
    if ps != [] {
      var n := |ps| - 1;
      InAllPlaced(ps[..n], o);
      assert ps == ps[..n] + [ps[n]];
    }
  }

  /** Placed objects are held by the committed catalog, and ownership keeps them apart. */
  lemma {:induction false} PlacedDistinct(t: Tables, u: Tables, all: seq<Placement>, digest: Digest, n: nat)
    requires RowsOk(t) && AllFit(t, all) && Grown(t, u, all, digest) && Owned(u) && n <= |all|
    ensures Distinct(AllPlaced(all[..n]))
    decreases n
  {
    hide RowsOk, Owned, Grown, HoldsObject, Fits;
    if n > 0 {
      var m: nat := n - 1;
      assert all[..n][..m] == all[..m] && all[..n][m] == all[m];
      PlacedDistinct(t, u, all, digest, m);
      FitsFresh(t, all, all[m]);
      KeysDistinctSoObjects(all[m].publication.objects);
      forall o | o in all[m].publication.objects ensures o !in AllPlaced(all[..m]) {
        NotPlacedEarlier(t, u, all, digest, m, o);
      }
      DistinctUnion(AllPlaced(all[..m]), all[m].publication.objects);
    }
  }

  lemma NotPlacedEarlier(t: Tables, u: Tables, all: seq<Placement>, digest: Digest, m: nat, o: ManifestObject)
    requires RowsOk(t) && AllFit(t, all) && Grown(t, u, all, digest) && Owned(u) && m < |all|
             && o in all[m].publication.objects
    ensures o !in AllPlaced(all[..m])
  {
    hide RowsOk, Owned, Grown, HoldsObject, Distinct;
    InAllPlaced(all[..m], o);
    if p :| p in all[..m] && o in p.publication.objects {
      assert Fits(t, all[..m], all[m]);
      assert p in all;
      PlacedObjects(t, u, all, digest, p, o);
      PlacedObjects(t, u, all, digest, all[m], o);
      KeyHasOnePublication(u, p.publicationId, all[m].publicationId, o, o);
    }
  }

  lemma KeysDistinctSoObjects(objects: seq<ManifestObject>)
    requires Distinct(ObjectKeys(objects))
    ensures Distinct(objects)
  {
    forall i, j | 0 <= i < j < |objects| ensures objects[i] != objects[j] {
      assert ObjectKeys(objects)[i] != ObjectKeys(objects)[j];
    }
  }

  /** objectCount and acceptedSize are exactly the objects and bytes the commit adds to what is accepted. */
  lemma ResultCountsWhatWasAdded(t: Tables, call: Call, world: World, ids: Ids, u: Tables,
                                 ms: seq<PublicationManifest>, ms': seq<PublicationManifest>)
    requires Adoption(t, call, world, ids, u, ms, ms')
    ensures call.operationId in u.operations
    ensures var result := u.operations[call.operationId].result;
      && |AllObjects(ms')| == |AllObjects(ms)| + result.objectCount
      && SumSizes(AllObjects(ms')) == SumSizes(AllObjects(ms)) + result.acceptedSize
  {
    hide RowsOk, Owned, Accepted, Rechecked, CallOk, Normalized, ProjectsOf, AllFit, Placements, HoldsObject, Less,
         CurrentManifestsOk, Ascending, AcceptedManifestsOf, Distinct, ProjectFits, Grown, HoldsProjects, Plus,
           ProjectRows, ProjectResults;
    var ps := PlacedBy(call, ids);
    var a, b := AllObjects(ms), AllPlaced(ps);
    CommitKeepsOwnership(t, call, world, ids);
    CommittedGrown(t, BatchOf(call), ids);
    AcceptedManifestsShareNothing(t, ms);
    AcceptedManifestsShareNothing(u, ms');
    KeysDistinctSoObjects(a);
    KeysDistinctSoObjects(AllObjects(ms'));
    assert ps[..|ps|] == ps;
    PlacedDistinct(t, u, ps, call.approved.digest, |ps|);
    forall o ensures o in AllObjects(ms') <==> o in a || o in b { ObjectSplits(t, call, world, ids, u, ms, ms', o); }
    forall o | o in b ensures o !in a { ObjectNotBoth(t, call, world, ids, u, ms, ms', o); }
    DistinctUnion(a, b);
    SameMembersSameMultiset(AllObjects(ms'), a + b);
    SumIgnoresOrder(AllObjects(ms'), a + b);
    SumSizesConcat(a, b);
    PlacedTotals(ps);
  }

  lemma HeldIsAccepted(t: Tables, ms: seq<PublicationManifest>, o: ManifestObject)
    requires AcceptedManifestsOf(t, ms)
    ensures o in AllObjects(ms) <==> exists id :: HoldsObject(t, id, o)
  {
    hide HoldsObject, Less, Ascending;
    InAllObjects(ms, o);
    if m :| m in ms && o in m.objects { assert HoldsObject(t, m.publicationId, o); }
    if id :| HoldsObject(t, id, o) {
      var m :| m in ms && m.publicationId == id;
      ManifestHolds(t, m, o);
    }
  }

  lemma ObjectSplits(t: Tables, call: Call, world: World, ids: Ids, u: Tables,
                     ms: seq<PublicationManifest>, ms': seq<PublicationManifest>, o: ManifestObject)
    requires Adoption(t, call, world, ids, u, ms, ms')
    ensures o in AllObjects(ms') <==> o in AllObjects(ms) || o in AllPlaced(PlacedBy(call, ids))
  {
    hide RowsOk, Owned, Accepted, Committed, Rechecked, CallOk, Normalized, ProjectsOf, AllFit, Placements, HoldsObject,
         CurrentManifestsOk, AcceptedManifestsOf;
    var ps := PlacedBy(call, ids);
    CommittedGrown(t, BatchOf(call), ids);
    HeldIsAccepted(t, ms, o);
    HeldIsAccepted(u, ms', o);
    InAllPlaced(ps, o);
    if id :| HoldsObject(u, id, o) {
      HeldPublication(u, id, o);
      if id in t.publications {
        OldObjectsKept(t, u, ps, call.approved.digest, id, o);
      } else {
        var p :| p in ps && p.publicationId == id;
        PlacedObjects(t, u, ps, call.approved.digest, p, o);
      }
    }
    if id :| HoldsObject(t, id, o) {
      HeldPublication(t, id, o);
      OldObjectsKept(t, u, ps, call.approved.digest, id, o);
    }
    if p :| p in ps && o in p.publication.objects {
      PlacedObjects(t, u, ps, call.approved.digest, p, o);
    }
  }

  lemma HeldPublication(t: Tables, id: Id, o: ManifestObject)
    requires HoldsObject(t, id, o)
    ensures id in t.publications
  {}

  lemma ObjectNotBoth(t: Tables, call: Call, world: World, ids: Ids, u: Tables,
                      ms: seq<PublicationManifest>, ms': seq<PublicationManifest>, o: ManifestObject)
    requires Adoption(t, call, world, ids, u, ms, ms') && Owned(u) && o in AllPlaced(PlacedBy(call, ids))
    ensures o !in AllObjects(ms)
  {
    hide RowsOk, Owned, Accepted, Committed, Rechecked, CallOk, Normalized, ProjectsOf, AllFit, Placements, HoldsObject,
         CurrentManifestsOk, AcceptedManifestsOf;
    var ps := PlacedBy(call, ids);
    CommittedGrown(t, BatchOf(call), ids);
    HeldIsAccepted(t, ms, o);
    InAllPlaced(ps, o);
    var p :| p in ps && o in p.publication.objects;
    FitsFresh(t, ps, p);
    PlacedObjects(t, u, ps, call.approved.digest, p, o);
    if id :| HoldsObject(t, id, o) {
      HeldPublication(t, id, o);
      OldObjectsKept(t, u, ps, call.approved.digest, id, o);
      KeyHasOnePublication(u, id, p.publicationId, o, o);
    }
  }
}

/**
 Adopting and then scanning storage that nobody changes: what was just accepted is
 in sync, nothing is unclaimed, and whatever was accepted before is missing.
 */
module AdoptThenObserve {
  import opened Text
  import opened Storage
  import opened Declarations
  import opened Planning
  import opened Catalog
  import opened Batches
  import opened Observations
  import opened Scanning
  import opened Reconciliation
  import opened Verdicts
  import opened Commits
  import opened Ownership

  /** LIST, HEAD and GET describe the same objects; their times may still differ in kind. */
  ghost predicate Coherent(listing: seq<ObjectListing>, answers: Answers) {
    forall e | e in listing ::
      && answers.head(e.key).Ok? && answers.get(e.key).Ok?
      && answers.get(e.key).value.meta == answers.head(e.key).value
      && answers.get(e.key).value.size == e.size && answers.head(e.key).value.etag == e.etag
  }

  /** Planning saw this very storage. */
  ghost predicate PlannedFrom(world: World, listing: seq<ObjectListing>, answers: Answers) {
    world.list == Ok(listing) && forall e | e in listing :: world.read(e.key) == answers.get(e.key)
  }

  /** The accepted whole-second time is within tolerance of what HEAD reports. */
  ghost predicate TimeKept(e: ObjectListing, answers: Answers) {
    && answers.get(e.key).Ok? && answers.head(e.key).Ok?
    && WithinTolerance(answers.head(e.key).value.lastModified, Truncate(Modified(e, answers.get(e.key).value)))
  }

  /**
   Exactly when the accepted time survives: a known time must not fall inside the
   first second after the zero time, an unknown one must be unknown to LIST as well.
   */
  lemma TimeKeptExact(e: ObjectListing, answers: Answers)
    requires answers.get(e.key).Ok? && answers.head(e.key).Ok?
    requires answers.get(e.key).value.meta == answers.head(e.key).value
    ensures TimeKept(e, answers) <==>
            var lastModified := answers.head(e.key).value.lastModified;
            if lastModified == ZERO_TIME then 0 <= e.lastModified < SECOND else !(0 < lastModified < SECOND)
  {
    var lastModified := answers.head(e.key).value.lastModified;
    TruncationTolerated(lastModified);
    assert 0 <= e.lastModified - Truncate(e.lastModified) < SECOND;
    assert Truncate(e.lastModified) == 0 <==> 0 <= e.lastModified < SECOND;
  }

  /** An object in the first second after the zero time is reported as drifted though nothing changed. */
  lemma FirstSecondIsLost()
    ensures exists t: Time :: t != ZERO_TIME && !WithinTolerance(t, Truncate(t))
  {
    var t := SECOND / 2;
    TruncationTolerated(t);
    assert t != ZERO_TIME && !WithinTolerance(t, Truncate(t));
  }

  ghost predicate TimesKept(v: View, objects: seq<ManifestObject>) {
    forall o | o in objects :: o.key in v.observed && TimeKept(v.observed[o.key], v.answers)
  }

  ghost predicate Scene(t: Tables, call: Call, world: World, ids: Ids, u: Tables, listing: seq<ObjectListing>,
                        answers: Answers) {
    && SchemaOk(t) && Owned(t) && CommitAccepted(t, call, world, ids) && u == Committed(t, BatchOf(call), ids)
    && PlannedFrom(world, listing, answers) && Coherent(listing, answers)
  }

  /** A planned object is what LIST and GET show. */
  lemma PlannedObjectShown(call: Call, world: World, listing: seq<ObjectListing>, answers: Answers,
                           q: PlannedPublication, o: ManifestObject) returns (e: ObjectListing)
    requires CallOk(call) && Rechecked(call, world) && PlannedFrom(world, listing, answers)
             && Coherent(listing, answers)
    requires q in call.approved.content.publications && o in q.objects
    ensures o.key in ObservedOf(listing) && e == ObservedOf(listing)[o.key] && e in listing && e.key == o.key
    ensures answers.get(o.key).Ok? && o == PlannedObject(q.path, o.key, e, answers.get(o.key).value)
  {
    hide Under, ValidDeclaration, ValidPublication, Coherent, PlannedObject, ObservedOf;
    var content := call.approved.content;
    RecheckPinsContent(call, world);
    var i := ApprovedPublication(call, world, q);
    var p := content.declaration.publications[i];
    var base := world.normalizeBaseURL(content.publicBaseURL).value;
    assert Plannable(world, base, ObservedOf(listing), p);
    assert q == PlannedOf(world, base, ObservedOf(listing), p);
    ObjectsDistinct(p);
    PlannedObjectsExact(world, base, ObservedOf(listing), p);
    e := ObservedOf(listing)[o.key];
  }

  lemma ObjectsDistinct(p: PublicationDeclaration)
    requires ValidPublication(p)
    ensures Distinct(p.objects)
  {}

  /** A freshly planned object differs from storage at most in its time. */
  lemma FreshObjectClean(call: Call, world: World, listing: seq<ObjectListing>, answers: Answers, complete: bool,
                         q: PlannedPublication, o: ManifestObject)
    requires CallOk(call) && Rechecked(call, world) && PlannedFrom(world, listing, answers)
             && Coherent(listing, answers)
    requires q in call.approved.content.publications && o in q.objects
    ensures var v := View(ObservedOf(listing), answers, complete);
      && o.key in v.observed && v.observed[o.key] in listing
      && v.answers.head(o.key).Ok? && v.answers.get(o.key).Ok? && SameBody(v, o)
      && (LooksSame(v, o) <==> TimeKept(v.observed[o.key], answers))
  {
    hide CallOk, Rechecked, PlannedFrom, WithinTolerance, ObservedOf, RelativePath;
    var e := PlannedObjectShown(call, world, listing, answers, q, o);
    WithinToleranceExact(answers.head(o.key).value.lastModified, o.modifiedAt);
  }

  /** The objects of a newly accepted manifest are those of its planned publication. */
  lemma NewManifestPlanned(t: Tables, call: Call, world: World, ids: Ids, u: Tables, m: PublicationManifest)
    returns (q: PlannedPublication)
    requires SchemaOk(t) && CommitAccepted(t, call, world, ids) && u == Committed(t, BatchOf(call), ids)
    requires ManifestOf(u, m) && m.publicationId !in t.publications
    ensures q in call.approved.content.publications && q.path == m.path
    ensures forall o :: o in m.objects <==> o in q.objects
    ensures m.objects == q.objects
  {
    hide RowsOk, AllFit, Rechecked, CallOk, Accepted, Committed, ProjectFits, Normalized, ProjectsOf, Under, Placements,
         HoldsObject, Less;
    var ps := PlacedBy(call, ids);
    CommittedGrown(t, BatchOf(call), ids);
    var p :| p in ps && p.publicationId == m.publicationId;
    PlacementIsPlanned(call.approved.content.publications, ids, p);
    q :| q in call.approved.content.publications && p.publication == AdoptedOf(q) && p.prefix == q.project.prefix;
    forall o ensures o in m.objects <==> o in q.objects {
      PlacedObjects(t, u, ps, call.approved.digest, p, o);
    }
    var i := ApprovedPublication(call, world, q);
    SameOrderedObjects(m.objects, q.objects);
  }

  /** What was just accepted is in sync exactly when its times are kept, and never missing. */
  lemma NewPublicationInSync(t: Tables, call: Call, world: World, ids: Ids, u: Tables,
                             listing: seq<ObjectListing>, answers: Answers, complete: bool, m: PublicationManifest)
    requires Scene(t, call, world, ids, u, listing, answers)
    requires ManifestOf(u, m) && m.publicationId !in t.publications
    ensures var v := View(ObservedOf(listing), answers, complete);
      && Settled(v, m.objects)
      && StateOf(v, m.objects) == (if TimesKept(v, m.objects) then InSync else Drifted)
  {
    hide SchemaOk, Owned, Accepted, Committed, Rechecked, CallOk, Coherent, PlannedFrom, ObservedOf, StateOf, SameBody,
         LooksSame, TimeKept, Ascending, HoldsObject;
    var v := View(ObservedOf(listing), answers, complete);
    var q := NewManifestPlanned(t, call, world, ids, u, m);
    forall o | o in m.objects
      ensures o.key in v.observed && v.observed[o.key] in listing && v.answers.head(o.key).Ok?
              && v.answers.get(o.key).Ok?
      ensures SameBody(v, o) && (LooksSame(v, o) <==> TimeKept(v.observed[o.key], answers))
    {
      FreshObjectClean(call, world, listing, answers, complete, q, o);
    }
    assert Settled(v, m.objects);
    ClassificationExact(v, m);
    assert m.objects[0] in m.objects;
  }

  lemma ListedWhenAdopted(t: Tables, call: Call, world: World, ids: Ids, u: Tables,
                          listing: seq<ObjectListing>, answers: Answers, m: PublicationManifest, o: ManifestObject)
    requires Scene(t, call, world, ids, u, listing, answers)
    requires ManifestOf(u, m) && m.publicationId !in t.publications && o in m.objects
    ensures o.key in ObservedOf(listing)
  {
    hide SchemaOk, Owned, Accepted, Committed, Rechecked, CallOk, Coherent, PlannedFrom, ObservedOf, Ascending,
         HoldsObject;
    var q := NewManifestPlanned(t, call, world, ids, u, m);
    FreshObjectClean(call, world, listing, answers, false, q, o);
  }

  /** What was accepted before is missing: the recheck would have refused its objects. */
  lemma OldPublicationMissing(t: Tables, call: Call, world: World, ids: Ids, u: Tables,
                              listing: seq<ObjectListing>, answers: Answers, complete: bool, m: PublicationManifest)
    requires Scene(t, call, world, ids, u, listing, answers)
    requires ManifestOf(u, m) && m.publicationId in t.publications
    ensures var v := View(ObservedOf(listing), answers, complete);
      Settled(v, m.objects) && StateOf(v, m.objects) == Missing
  {
    hide RowsOk, Owned, Accepted, Committed, Rechecked, CallOk, Coherent, StateOf, Normalized, ProjectsOf, AllFit,
         Placements,
         HoldsObject, Keys, ObservedOf, CurrentManifestsOk;
    var v := View(ObservedOf(listing), answers, complete);
    CommittedGrown(t, BatchOf(call), ids);
    forall o | o in m.objects ensures o.key !in v.observed {
      OldObjectsKept(t, u, PlacedBy(call, ids), call.approved.digest, m.publicationId, o);
      AcceptedObjectsAreGone(t, call, world, ids, m.publicationId, o);
    }
    assert Settled(v, m.objects);
    ClassificationExact(v, m);
  }

  /** The listing holds nothing the accepted manifests do not claim. */
  lemma NothingUnclaimed(t: Tables, call: Call, world: World, ids: Ids, u: Tables,
                         listing: seq<ObjectListing>, answers: Answers, ms: seq<PublicationManifest>)
    requires Scene(t, call, world, ids, u, listing, answers) && AcceptedManifestsOf(u, ms)
    ensures ObservedOf(listing).Keys <= Claimed(ms)
  {
    hide Owned, Accepted, Committed, CallOk, Coherent, Normalized, ProjectsOf, AllFit, Placements, RowsOk, Keys,
         PlannedContent,
         ValidDeclaration, ObservedOf, HoldsObject, ManifestOf, Less, Ascending, CurrentManifestsOk;
    var content := call.approved.content;
    RecheckPinsContent(call, world);
    PlanCoversBucket(world, content.publicBaseURL, content.declaration);
    CommittedGrown(t, BatchOf(call), ids);
    forall key | key in ObservedOf(listing).Keys ensures key in Claimed(ms) {
      var i, j :| PlansKey(content, i, j, key);
      var q := content.publications[i];
      var p, k := PlannedIsPlaced(content.publications, ids, q);
      var o := q.objects[j];
      PlacedObjects(t, u, PlacedBy(call, ids), call.approved.digest, p, o);
      var m :| m in ms && m.publicationId == p.publicationId;
      ManifestHolds(u, m, o);
      InAllObjects(ms, o);
      ObjectKeyAt(AllObjects(ms), key);
    }
  }

  lemma ManifestHolds(u: Tables, m: PublicationManifest, o: ManifestObject)
    requires ManifestOf(u, m) && HoldsObject(u, m.publicationId, o)
    ensures o in m.objects
  {}

  /**
   Adopt, then observe, ordinary or complete: nothing is unclaimed, and the lock is
   none exactly when the catalog held no objects before and every time is kept.
   */
  lemma AdoptedBucketIsClean(t: Tables, call: Call, world: World, ids: Ids, u: Tables,
                             listing: seq<ObjectListing>, answers: Answers, complete: bool,
                             ms: seq<PublicationManifest>, now: Time, r: ScanResult)
    requires Scene(t, call, world, ids, u, listing, answers) && AcceptedManifestsOf(u, ms)
    requires ScanIs(listing, ms, View(ObservedOf(listing), answers, complete), now, r)
    ensures r.unclaimedKeys == [] && r.usage.unclaimedBytes == 0
    ensures r.lock == LockNone <==>
            && (forall m | m in ms :: m.publicationId !in t.publications)
            && (forall e | e in ObservedOf(listing).Values :: TimeKept(e, answers))
  {
    hide Scene, ObservedOf, StateOf, TimeKept, ManifestOf, HoldsObject, Ascending;
    var v := View(ObservedOf(listing), answers, complete);
    NothingUnclaimed(t, call, world, ids, u, listing, answers, ms);
    assert v.observed.Keys - Claimed(ms) == {};
    EmptyOrMember(r.unclaimedKeys);
    forall e | e in v.observed.Values ensures e in listing {
      var key :| key in v.observed && v.observed[key] == e;
    }
    var noneOld := forall m | m in ms :: m.publicationId !in t.publications;
    var timesKept := forall e | e in v.observed.Values :: TimeKept(e, answers);
    if r.lock == LockNone {
      forall m | m in ms ensures StateOf(v, m.objects) == InSync && m.publicationId !in t.publications {
        var i :| 0 <= i < |ms| && ms[i] == m;
        assert r.publications[i] in r.publications;
        if m.publicationId in t.publications {
          OldPublicationMissing(t, call, world, ids, u, listing, answers, complete, m);
        }
      }
      forall e | e in v.observed.Values ensures TimeKept(e, answers) {
        var key :| key in v.observed && v.observed[key] == e;
        assert key in Claimed(ms);
        ObjectKeyAt(AllObjects(ms), key);
        var o :| o in AllObjects(ms) && o.key == key;
        InAllObjects(ms, o);
        var m :| m in ms && o in m.objects;
        NewPublicationInSync(t, call, world, ids, u, listing, answers, complete, m);
        assert TimesKept(v, m.objects);
      }
    }
    if noneOld && timesKept {
      forall i | 0 <= i < |ms| ensures r.publications[i].state == InSync {
        assert ms[i] in ms;
        NewPublicationInSync(t, call, world, ids, u, listing, answers, complete, ms[i]);
        forall o | o in ms[i].objects ensures o.key in v.observed {
          ListedWhenAdopted(t, call, world, ids, u, listing, answers, ms[i], o);
        }
      }
    }
  }
}

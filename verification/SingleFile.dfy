/**
 The smallest adoptions: a bucket with one object, declared as an exact-file
 Publication at its own key. They go through every stage, one after another, so
 none of the conditions the larger theorems start from is empty, and the cases in
 which the code disappoints are seen to happen.
 */
module SingleFile {
  import opened Text
  import opened Storage
  import opened BaseURLs
  import opened Declarations
  import opened Planning
  import opened Catalog
  import opened Batches
  import opened Observations
  import opened Scanning
  import opened Commits
  import opened Ownership
  import opened AdoptThenObserve
  import opened RoundTrip
  import opened Acceptance

  /** One object as listed and read, the base URL and what parses as one, and the operation's names. */
  datatype File = File(
    e: ObjectListing, content: ObjectContent, baseURL: string, isOrigin: string -> bool, operationId: string, id: Id)

  /** A valid key, answers that agree, a base URL that normalization leaves settled, and proper names. */
  ghost predicate Good(x: File) {
    && ValidPrefix(x.e.key) && x.content.size == x.e.size >= 0 && x.content.meta.etag == x.e.etag
    && x.operationId != "" && |x.id| == ID_LENGTH
    && NormalizeBaseURL(x.isOrigin, x.baseURL).Ok? && Settles(NormalizeBaseURL(x.isOrigin, x.baseURL).value)
  }

  function DeclarationOf(key: string): Declaration {
    var probes := [RouteProbe("", 200)];
    Declaration(1, [PublicationDeclaration(ProjectDeclaration(key, ""), key, "", key, ExactFile, [key], probes)])
  }

  function WorldOf(x: File): World {
    World(Ok([x.e]), _ => Ok(x.content), _ => Ok(ProbeObservation(200, "", "")),
          raw => NormalizeBaseURL(x.isOrigin, raw))
  }

  function AnswersOf(x: File): Answers { Answers(_ => Ok(x.content.meta), _ => Ok(x.content)) }

  function SameIds(id: Id): Ids { Ids(_ => id, (_, _) => id, (_, _) => id) }

  function ObjectOf(x: File): ManifestObject { PlannedObject(x.e.key, x.e.key, x.e, x.content) }

  function ManifestFor(x: File): PublicationManifest { PublicationManifest(x.id, x.e.key, [ObjectOf(x)]) }

  lemma DeclarationIsValid(key: string)
    requires ValidPrefix(key)
    ensures ValidDeclaration(DeclarationOf(key))
  {
    var p := DeclarationOf(key).publications[0];
    assert ValidProbes(p.probes);
    assert ValidPublication(p);
  }

  lemma PlanningSucceeds(x: File)
    requires Good(x)
    ensures PlanSucceeds(WorldOf(x), x.baseURL, DeclarationOf(x.e.key))
  {
    hide ValidPrefix, ValidDeclaration, NormalizeBaseURL, Settles;
    var world, d := WorldOf(x), DeclarationOf(x.e.key);
    DeclarationIsValid(x.e.key);
    assert Keys([x.e]) == [x.e.key];
    assert x.e.key in d.publications[0].objects;
    assert ObservedOf([x.e]).Keys <= DeclaredKeys(d.publications);
    assert Plannable(world, world.normalizeBaseURL(x.baseURL).value, ObservedOf([x.e]), d.publications[0]);
  }

  ghost function CallOf(x: File): Call
    requires Good(x)
  {
    PlanningSucceeds(x);
    Approval(WorldOf(x), x.baseURL, DeclarationOf(x.e.key), x.operationId)
  }

  lemma CallIsGood(x: File)
    requires Good(x)
    ensures CallOk(CallOf(x)) && Rechecked(CallOf(x), WorldOf(x))
    ensures CallOf(x).operationId == x.operationId
  {
    hide ValidPrefix, ValidDeclaration, NormalizeBaseURL, Settles, PlanSucceeds, Rechecked;
    PlanningSucceeds(x);
    DeclarationIsValid(x.e.key);
    PlannedBase(WorldOf(x), x.baseURL, DeclarationOf(x.e.key));
    NormalizesToItself(x.isOrigin, x.baseURL);
    RecheckOfUnchangedWorld(WorldOf(x), x.baseURL, DeclarationOf(x.e.key), x.operationId);
  }

  lemma PlannedPublicationOf(x: File)
    requires Good(x)
    ensures var qs := CallOf(x).approved.content.publications;
      |qs| == 1 && qs[0].path == x.e.key && qs[0].project.prefix == x.e.key && qs[0].objects == [ObjectOf(x)]
  {
    hide ValidPrefix, ValidDeclaration, NormalizeBaseURL, Settles;
    PlanningSucceeds(x);
    var world, d := WorldOf(x), DeclarationOf(x.e.key);
    var base, observed := world.normalizeBaseURL(x.baseURL).value, ObservedOf([x.e]);
    var q := CallOf(x).approved.content.publications[0];
    assert d.publications[0] in d.publications;
    assert q == PlannedOf(world, base, observed, d.publications[0]);
    PlannedObjectsExact(world, base, observed, d.publications[0]);
    ObservedOfOne(x.e);
    assert q.objects[0] in q.objects;
  }

  lemma ObservedOfOne(e: ObjectListing)
    ensures e.key in ObservedOf([e]) && ObservedOf([e])[e.key] == e
    ensures ObservedOf([e]).Keys == {e.key} && ObservedOf([e]).Values == {e}
  {
    var observed := ObservedOf([e]);
    assert Keys([e]) == [e.key];
    assert e.key in observed && observed[e.key] == e;
    assert e in observed.Values;
  }

  // ---- The catalog before and after ----

  /** The names are new to the catalog. */
  ghost predicate NewTo(t: Tables, x: File) {
    && x.operationId !in t.operations && (forall id | id in t.projects :: t.projects[id].prefix != x.e.key)
    && x.id !in t.projects && x.id !in t.publications && x.id !in t.manifests
  }

  lemma OnlyPlacement(call: Call, world: World, id: Id, q: PlannedPublication) returns (p: Placement)
    requires CallOk(call) && Rechecked(call, world) && call.approved.content.publications == [q]
    ensures PlacedBy(call, SameIds(id)) == [p] && p.publicationId == id && p.manifestId == id
    ensures var projects := Normalized(ProjectsOf(call.approved.content.publications));
      |projects| == 1 && projects[0].prefix == q.project.prefix
  {
    hide CallOk, Rechecked, Normalized, ProjectsOf, Placements, Groups, SortStrings;
    var qs, ids := call.approved.content.publications, SameIds(id);
    var projects, ps := Normalized(ProjectsOf(qs)), PlacedBy(call, ids);
    var i;
    p, i := PlannedIsPlaced(qs, ids, q);
    AtMostOne(call, world, ids);
    PlacementOrigin(projects, ids, |projects|, p);
    assert |ps| == 1 && ps[0] == p;
  }

  lemma AtMostOne(call: Call, world: World, ids: Ids)
    requires CallOk(call) && Rechecked(call, world) && |call.approved.content.publications| == 1
    ensures |Normalized(ProjectsOf(call.approved.content.publications))| <= 1 && |PlacedBy(call, ids)| <= 1
  {
    hide CallOk, Rechecked, Normalized, ProjectsOf, Placements, Groups, SortStrings;
    var qs := call.approved.content.publications;
    var projects, ps := Normalized(ProjectsOf(qs)), PlacedBy(call, ids);
    PlannedPathsDistinct(call, world);
    NormalizedGroup(qs);
    if |projects| > 1 {
      assert Prefixes(projects)[0] != Prefixes(projects)[1];
      var q := ProjectPlan(qs, projects[0]);
      var q' := ProjectPlan(qs, projects[1]);
    }
    if |ps| > 1 {
      PlacementIsPlanned(qs, ids, ps[0]);
      PlacementIsPlanned(qs, ids, ps[1]);
      PlacedPathsDiffer(call, world, ids, 0, 1);
    }
  }

  lemma ProjectPlan(qs: seq<PlannedPublication>, project: AdoptedProject) returns (q: PlannedPublication)
    requires Groups(qs, project)
    ensures q in qs && q.project.prefix == project.prefix
  {
    assert project.publications[0] in project.publications;
    q :| q in qs && project.publications[0] == AdoptedOf(q) && q.project.prefix == project.prefix;
  }

  /** Any catalog to which its names are new accepts it. */
  lemma SingleFileIsAccepted(t: Tables, x: File)
    requires SchemaOk(t) && Owned(t) && Good(x) && NewTo(t, x)
    ensures CommitAccepted(t, CallOf(x), WorldOf(x), SameIds(x.id))
  {
    hide Normalized, ProjectsOf, Placements, Accepted, CallOk, Rechecked, Owned, SchemaOk, ValidPrefix,
         NormalizeBaseURL;
    CallIsGood(x);
    PlannedPublicationOf(x);
    var p := OnlyPlacement(CallOf(x), WorldOf(x), x.id, CallOf(x).approved.content.publications[0]);
    AcceptanceExact(t, CallOf(x), WorldOf(x), SameIds(x.id));
  }

  /** The catalog then holds this one publication more, and nothing else. */
  lemma AfterSingleFile(t: Tables, x: File, u: Tables)
    requires SchemaOk(t) && Owned(t) && Good(x) && NewTo(t, x) && u == Committed(t, BatchOf(CallOf(x)), SameIds(x.id))
    ensures SchemaOk(u) && Owned(u) && ManifestOf(u, ManifestFor(x)) && Holds(t, x, u)
  {
    hide Normalized, ProjectsOf, Placements, Accepted, CallOk, Rechecked, Owned, SchemaOk, ValidPrefix,
         NormalizeBaseURL, Committed,
         ManifestOf, AllFit, ProjectFits, ObjectOf, Good, Grown, HoldsProjects, CallOf, NewTo, Holds;
    var call, ids := CallOf(x), SameIds(x.id);
    CallIsGood(x);
    SingleFileIsAccepted(t, x);
    CommitKeepsOwnership(t, call, WorldOf(x), ids);
    CommittedGrown(t, BatchOf(call), ids);
    PlannedPublicationOf(x);
    var q := call.approved.content.publications[0];
    var p := OnlyPlacement(call, WorldOf(x), x.id, q);
    CommittedOperations(t, BatchOf(call), ids);
    GrownByOne(t, x, u, Normalized(ProjectsOf([q])), p, call.approved.digest);
    var m := PlannedManifest(t, call, WorldOf(x), ids, u, q);
    NewManifestIs(t, x, u, m);
  }

  ghost predicate Holds(t: Tables, x: File, u: Tables) {
    && u.operations.Keys == t.operations.Keys + {x.operationId}
    && u.publications.Keys == t.publications.Keys + {x.id} && u.manifests.Keys == t.manifests.Keys + {x.id}
    && u.projects.Keys == t.projects.Keys + {x.id} && u.projects[x.id].prefix == x.e.key
    && (forall id | id in t.projects :: u.projects[id] == t.projects[id])
  }

  lemma GrownByOne(t: Tables, x: File, u: Tables, projects: seq<AdoptedProject>, p: Placement, digest: Digest)
    requires Grown(t, u, [p], digest) && p.publicationId == x.id && p.manifestId == x.id
    requires HoldsProjects(t, u, projects, SameIds(x.id)) && |projects| == 1 && projects[0].prefix == x.e.key
    requires u.operations.Keys == t.operations.Keys + {x.operationId}
    ensures Holds(t, x, u)
  {
    hide ObjectRows;
    assert p in [p] && SameIds(x.id).project(0) == x.id;
    forall id ensures id in u.publications <==> id in t.publications || id == x.id {}
    forall id ensures id in u.manifests <==> id in t.manifests || id == x.id {}
    forall id ensures id in u.projects <==> id in t.projects || id == x.id {}
  }

  lemma NewManifestIs(t: Tables, x: File, u: Tables, m: PublicationManifest)
    requires Holds(t, x, u) && ManifestOf(u, m) && m.publicationId !in t.publications
    requires m.path == x.e.key && m.objects == [ObjectOf(x)]
    ensures m == ManifestFor(x)
  {}

  lemma CommittedOperations(t: Tables, batch: Batch, ids: Ids)
    ensures Committed(t, batch, ids).operations.Keys == t.operations.Keys + {batch.operationId}
  {}

  // ---- Adopted, then scanned ----

  lemma OnlyManifest(x: File, u: Tables)
    requires Good(x) && u == Committed(EMPTY_TABLES, BatchOf(CallOf(x)), SameIds(x.id))
    ensures AcceptedManifestsOf(u, [ManifestFor(x)])
  {
    hide Committed, ManifestOf, SchemaOk, Owned, Good, BatchOf, ObjectOf, CallOf;
    EmptyIsOwned();
    AfterSingleFile(EMPTY_TABLES, x, u);
  }

  /** The first file of an empty catalog: a scan is clean exactly when its time survives being stored. */
  lemma SingleFileEndToEnd(x: File, complete: bool, ms: seq<PublicationManifest>, now: Time, r: ScanResult)
    requires Good(x) && AcceptedManifestsOf(Committed(EMPTY_TABLES, BatchOf(CallOf(x)), SameIds(x.id)), ms)
    requires ScanIs([x.e], ms, View(ObservedOf([x.e]), AnswersOf(x), complete), now, r)
    ensures r.unclaimedKeys == []
    ensures r.lock == LockNone <==> TimeKept(x.e, AnswersOf(x))
  {
    hide AcceptedManifestsOf, ScanIs, TimeKept, CommitAccepted, Committed, Owned, SchemaOk, BatchOf, CallOf,
         ValidPrefix,
         NormalizeBaseURL, Settles, ObservedOf, Truncate;
    var u := Committed(EMPTY_TABLES, BatchOf(CallOf(x)), SameIds(x.id));
    EmptyIsOwned();
    SingleFileIsAccepted(EMPTY_TABLES, x);
    assert Coherent([x.e], AnswersOf(x)) && PlannedFrom(WorldOf(x), [x.e], AnswersOf(x));
    AdoptedBucketIsClean(EMPTY_TABLES, CallOf(x), WorldOf(x), SameIds(x.id), u, [x.e], AnswersOf(x), complete, ms, now,
                         r);
    ObservedOfOne(x.e);
    assert forall m: PublicationManifest :: m.publicationId !in EMPTY_TABLES.publications;
  }

  // ---- Where the code disappoints ----

  lemma ClaimedByOne(m: PublicationManifest, o: ManifestObject)
    requires m.objects == [o]
    ensures AllObjects([m]) == [o] && Claimed([m]) == {o.key}
  {
    assert [m][..0] == [];
    assert ObjectKeys([o]) == [o.key];
  }

  /** The scan of the first file of an empty catalog. */
  lemma FirstScan(x: File, complete: bool, now: Time) returns (r: ScanResult)
    requires Good(x)
    ensures ScanIs([x.e], [ManifestFor(x)], View(ObservedOf([x.e]), AnswersOf(x), complete), now, r)
  {
    hide ResultFor, PlannedObject, ObservedOf, Good, SumOver, AllObjects, Claimed, ListedBytes;
    var v, ms := View(ObservedOf([x.e]), AnswersOf(x), complete), [ManifestFor(x)];
    ObservedOfOne(x.e);
    KeyOfObject(x);
    ClaimedByOne(ManifestFor(x), ObjectOf(x));
    var publications := [ResultFor(v, ms[0])];
    var usage := Usage(ListedBytes([x.e]), SumSizes(AllObjects(ms)),
                       SumOver(v.observed, v.observed.Keys - Claimed(ms)));
    r := ScanResult(now, publications, [], usage, if AnyFinding(publications) then LockGlobal else LockNone);
  }

  lemma KeyOfObject(x: File)
    ensures ObjectOf(x).key == x.e.key
  {}

  /** A file modified in the first second after the zero time is reported drifted right after its adoption. */
  lemma FirstSecondDrifts(x: File, complete: bool, now: Time) returns (r: ScanResult)
    requires Good(x) && 0 < x.content.meta.lastModified < SECOND
    ensures AcceptedManifestsOf(Committed(EMPTY_TABLES, BatchOf(CallOf(x)), SameIds(x.id)), [ManifestFor(x)])
    ensures ScanIs([x.e], [ManifestFor(x)], View(ObservedOf([x.e]), AnswersOf(x), complete), now, r)
    ensures r.lock == LockGlobal && r.publications[0].state == Drifted
  {
    hide AcceptedManifestsOf, TimeKept, CommitAccepted, Committed, Owned, SchemaOk, BatchOf, CallOf, Good, ObservedOf,
         Truncate,
         ManifestOf, StateOf, AnyFinding, Claimed, ListedBytes, SumOver, DetailOf, FoundSize, NonePresent;
    var u := Committed(EMPTY_TABLES, BatchOf(CallOf(x)), SameIds(x.id));
    var v := View(ObservedOf([x.e]), AnswersOf(x), complete);
    OnlyManifest(x, u);
    r := FirstScan(x, complete, now);
    SingleFileEndToEnd(x, complete, [ManifestFor(x)], now, r);
    TimeKeptExact(x.e, AnswersOf(x));
    FirstFileState(x, complete);
  }

  /** Its state is in sync or drifted by its time alone. */
  lemma FirstFileState(x: File, complete: bool)
    requires Good(x)
    ensures StateOf(View(ObservedOf([x.e]), AnswersOf(x), complete), [ObjectOf(x)])
         == if TimeKept(x.e, AnswersOf(x)) then InSync else Drifted
  {
    hide TimeKept, CommitAccepted, Committed, Owned, SchemaOk, BatchOf, CallOf, ManifestOf, StateOf, ObservedOf,
         Truncate, ValidPrefix,
         NormalizeBaseURL, Settles;
    var u := Committed(EMPTY_TABLES, BatchOf(CallOf(x)), SameIds(x.id));
    EmptyIsOwned();
    SingleFileIsAccepted(EMPTY_TABLES, x);
    AfterSingleFile(EMPTY_TABLES, x, u);
    ObservedOfOne(x.e);
    assert Coherent([x.e], AnswersOf(x)) && PlannedFrom(WorldOf(x), [x.e], AnswersOf(x));
    NewPublicationInSync(EMPTY_TABLES, CallOf(x), WorldOf(x), SameIds(x.id), u, [x.e], AnswersOf(x), complete,
                         ManifestFor(x));
    assert ObjectOf(x) in ManifestFor(x).objects;
  }

  /** Two files whose names differ in every way. */
  ghost predicate Apart(x: File, y: File) {
    x.e.key != y.e.key && x.operationId != y.operationId && x.id != y.id
  }

  /**
   After the first file is gone from the bucket a second one is accepted as well; the
   first publication keeps its manifest, and a scan of the second bucket misses it.
   */
  lemma TwoAdoptions(x: File, y: File, complete: bool)
    requires Good(x) && Good(y) && Apart(x, y)
    ensures CommitAccepted(EMPTY_TABLES, CallOf(x), WorldOf(x), SameIds(x.id))
    ensures var u := Committed(EMPTY_TABLES, BatchOf(CallOf(x)), SameIds(x.id));
      && HoldsObject(u, x.id, ObjectOf(x))
      && CommitAccepted(u, CallOf(y), WorldOf(y), SameIds(y.id))
      && ManifestOf(Committed(u, BatchOf(CallOf(y)), SameIds(y.id)), ManifestFor(x))
    ensures StateOf(View(ObservedOf([y.e]), AnswersOf(y), complete), [ObjectOf(x)]) == Missing
  {
    hide CommitAccepted, Committed, Owned, SchemaOk, BatchOf, CallOf, Good, ManifestOf, StateOf, ObservedOf, Truncate;
    var u := Committed(EMPTY_TABLES, BatchOf(CallOf(x)), SameIds(x.id));
    EmptyIsOwned();
    SingleFileIsAccepted(EMPTY_TABLES, x);
    AfterSingleFile(EMPTY_TABLES, x, u);
    SingleFileIsAccepted(u, y);
    HeldByManifest(u, ManifestFor(x), ObjectOf(x));
    FirstGoesMissing(u, x, y, complete);
  }

  lemma HeldByManifest(u: Tables, m: PublicationManifest, o: ManifestObject)
    requires ManifestOf(u, m) && o in m.objects
    ensures HoldsObject(u, m.publicationId, o) && m.publicationId in u.publications
  {}

  lemma FirstGoesMissing(u: Tables, x: File, y: File, complete: bool)
    requires SchemaOk(u) && Owned(u) && Good(y) && ManifestOf(u, ManifestFor(x))
    requires CommitAccepted(u, CallOf(y), WorldOf(y), SameIds(y.id))
    ensures ManifestOf(Committed(u, BatchOf(CallOf(y)), SameIds(y.id)), ManifestFor(x))
    ensures StateOf(View(ObservedOf([y.e]), AnswersOf(y), complete), [ObjectOf(x)]) == Missing
  {
    hide Accepted, CallOk, Rechecked, Committed, Owned, SchemaOk, BatchOf, CallOf, ManifestOf, StateOf, ObservedOf,
         Truncate, ValidPrefix,
         NormalizeBaseURL, Settles;
    var w := Committed(u, BatchOf(CallOf(y)), SameIds(y.id));
    HeldByManifest(u, ManifestFor(x), ObjectOf(x));
    OldManifestSame(u, CallOf(y), SameIds(y.id), w, ManifestFor(x));
    assert Coherent([y.e], AnswersOf(y)) && PlannedFrom(WorldOf(y), [y.e], AnswersOf(y));
    OldPublicationMissing(u, CallOf(y), WorldOf(y), SameIds(y.id), w, [y.e], AnswersOf(y), complete, ManifestFor(x));
  }

  // ---- Such files exist ----

  /** A one-byte file at a one-letter key. */
  function Sample(c: char, modified: Time): File {
    File(ObjectListing([c], 1, "e", modified), ObjectContent(1, ObjectMeta("e", modified, "", "", "", map[]), "h"),
         "https://h", _ => true, [c], seq(ID_LENGTH, _ => c))
  }

  lemma PlainBaseURL(isOrigin: string -> bool)
    requires isOrigin("https://h")
    ensures NormalizeBaseURL(isOrigin, "https://h") == Ok("https://h") && Settles("https://h")
  {
    var url := "https://h";
    assert TrimLeft(url) == url && TrimRight(url) == url;
  }

  lemma LetterIsValid(c: char)
    requires 'a' <= c <= 'z'
    ensures ValidPrefix([c])
  {
    assert [c][0] == c && c in [c];
  }

  lemma SampleIsGood(c: char, modified: Time)
    requires 'a' <= c <= 'z'
    ensures Good(Sample(c, modified))
  {
    hide ValidPrefix, NormalizeBaseURL, Settles;
    LetterIsValid(c);
    PlainBaseURL(Sample(c, modified).isOrigin);
  }

  /** So both disappointments happen: one file drifts in its first second, and a second one hides the first. */
  lemma SamplesShowBoth(now: Time) returns (r: ScanResult)
    ensures var x := Sample('a', SECOND / 2);
      && Good(x) && ScanIs([x.e], [ManifestFor(x)], View(ObservedOf([x.e]), AnswersOf(x), false), now, r)
      && r.lock == LockGlobal && r.publications[0].state == Drifted
    ensures var x, y := Sample('a', 0), Sample('b', 0);
      && Good(x) && Good(y)
      && var u := Committed(EMPTY_TABLES, BatchOf(CallOf(x)), SameIds(x.id));
         HoldsObject(u, x.id, ObjectOf(x)) && CommitAccepted(u, CallOf(y), WorldOf(y), SameIds(y.id))
  {
    hide Good, CommitAccepted, Committed, BatchOf, CallOf, ScanIs, HoldsObject, ObservedOf;
    SampleIsGood('a', SECOND / 2);
    SampleIsGood('a', 0);
    SampleIsGood('b', 0);
    r := FirstSecondDrifts(Sample('a', SECOND / 2), false, now);
    var x, y := Sample('a', 0), Sample('b', 0);
    assert x.e.key[0] != y.e.key[0] && x.id[0] != y.id[0] && x.operationId[0] != y.operationId[0];
    TwoAdoptions(x, y, false);
  }
}

/**
 The catalog tables with their schema constraints
 (internal/catalog/migrations/001_initial_schema.sql) and the row-by-row adoption
 transaction over them (internal/catalog/adopt.go).
 */
module Catalog {
  import opened Text
  import opened Storage
  import opened Declarations
  import opened Planning

  type Id = string

  const ID_LENGTH := 36

  // ---- Rows and tables ----

  /** SHA-256 of the operation ID and the plan digest, taken to be free of collisions. */
  datatype RequestHash = RequestHash(operationId: string, planDigest: Digest)

  datatype ProjectRow = ProjectRow(prefix: string, displayName: string)

  datatype PublicationRow = PublicationRow(
    projectId: Id, path: string, displayName: string, entryPoint: string,
    routingMode: RoutingMode, contentChangedAt: Time, currentManifest: Id)

  datatype ManifestRow = ManifestRow(publicationId: Id, planDigest: Digest)

  datatype PublicationResult = PublicationResult(
    publicationId: Id, path: string, manifestId: Id, objectCount: nat, acceptedSize: int)

  datatype ProjectResult = ProjectResult(projectId: Id, prefix: string, publications: seq<PublicationResult>)

  datatype AdoptionResult = AdoptionResult(
    operationId: string, objectCount: nat, acceptedSize: int, projects: seq<ProjectResult>)

  datatype OperationRow = OperationRow(requestHash: RequestHash, planDigest: Digest, result: AdoptionResult)

  datatype Tables = Tables(
    projects: map<Id, ProjectRow>,
    publications: map<Id, PublicationRow>,
    manifests: map<Id, ManifestRow>,
    objects: map<(Id, string), ManifestObject>,
    operations: map<string, OperationRow>)

  const EMPTY_TABLES := Tables(map[], map[], map[], map[], map[])

  /** PRIMARY KEY, UNIQUE, CHECK and immediate REFERENCES constraints. */
  ghost predicate RowsOk(t: Tables) {
    && (forall id | id in t.projects :: |id| == ID_LENGTH)
    && (forall id, id' | id in t.projects && id' in t.projects && t.projects[id].prefix == t.projects[id'].prefix ::
      id == id')
    && (forall id | id in t.publications ::
          |id| == ID_LENGTH && t.publications[id].projectId in t.projects && !t.publications[id].routingMode.OtherMode?)
    && (forall id, id' | id in t.publications && id' in t.publications
      && t.publications[id].path == t.publications[id'].path :: id == id')
    && (forall id | id in t.manifests :: |id| == ID_LENGTH && t.manifests[id].publicationId in t.publications)
    && (forall mk | mk in t.objects :: mk.0 in t.manifests && t.objects[mk].key == mk.1 && t.objects[mk].size >= 0)
  }

  /** The deferred foreign key, and what it is for: the manifest belongs to the publication. */
  ghost predicate CurrentManifestsOk(t: Tables) {
    forall id | id in t.publications ::
      t.publications[id].currentManifest in t.manifests
      && t.manifests[t.publications[id].currentManifest].publicationId == id
  }

  ghost predicate SchemaOk(t: Tables) { RowsOk(t) && CurrentManifestsOk(t) }

  // ---- Statements ----

  function InsertProject(t: Tables, id: Id, row: ProjectRow): Option<Tables> {
    if |id| != ID_LENGTH || id in t.projects
       || (exists other | other in t.projects :: t.projects[other].prefix == row.prefix) then None
    else Some(t.(projects := t.projects[id := row]))
  }

  function InsertPublication(t: Tables, id: Id, row: PublicationRow): Option<Tables> {
    if || |id| != ID_LENGTH || id in t.publications || row.projectId !in t.projects || row.routingMode.OtherMode?
       || (exists other | other in t.publications :: t.publications[other].path == row.path) then None
    else Some(t.(publications := t.publications[id := row]))
  }

  function InsertManifest(t: Tables, id: Id, row: ManifestRow): Option<Tables> {
    if |id| != ID_LENGTH || id in t.manifests || row.publicationId !in t.publications then None
    else Some(t.(manifests := t.manifests[id := row]))
  }

  function InsertObject(t: Tables, manifestId: Id, o: ManifestObject): Option<Tables> {
    if manifestId !in t.manifests || (manifestId, o.key) in t.objects || o.size < 0 then None
    else Some(t.(objects := t.objects[(manifestId, o.key) := o]))
  }

  function InsertOperation(t: Tables, operationId: string, row: OperationRow): Option<Tables> {
    if operationId in t.operations then None
    else Some(t.(operations := t.operations[operationId := row]))
  }

  /** What COMMIT checks: the deferred foreign key. */
  predicate DeferredOk(t: Tables) {
    forall id | id in t.publications :: t.publications[id].currentManifest in t.manifests
  }

  // ---- Batches ----

  datatype AdoptedPublication = AdoptedPublication(
    path: string, displayName: string, entryPoint: string, routingMode: RoutingMode,
    contentChangedAt: Time, objects: seq<ManifestObject>)

  datatype AdoptedProject = AdoptedProject(prefix: string, displayName: string, publications: seq<AdoptedPublication>)

  datatype Batch = Batch(operationId: string, requestHash: RequestHash, planDigest: Digest,
                         projects: seq<AdoptedProject>)

  /** NewID answers, one per place in the batch; nothing is assumed about them. */
  datatype Ids = Ids(project: nat -> Id, publication: (nat, nat) -> Id, manifest: (nat, nat) -> Id)

  /** One publication of the batch with the identities it is given. */
  datatype Placement = Placement(
    projectId: Id, prefix: string, publication: AdoptedPublication, publicationId: Id, manifestId: Id)

  function PlacementAt(projects: seq<AdoptedProject>, ids: Ids, i: nat, j: nat): Placement
    requires i < |projects| && j < |projects[i].publications|
  {
    Placement(ids.project(i), projects[i].prefix, projects[i].publications[j], ids.publication(i, j),
              ids.manifest(i, j))
  }

  /** The first j placements of project i. */
  function ProjectPlacements(projects: seq<AdoptedProject>, ids: Ids, i: nat, j: nat): (ps: seq<Placement>)
    requires i < |projects| && j <= |projects[i].publications|
    ensures |ps| == j
    ensures forall b | 0 <= b < j :: ps[b] == PlacementAt(projects, ids, i, b)
  {
    if j == 0 then [] else ProjectPlacements(projects, ids, i, j - 1) + [PlacementAt(projects, ids, i, j - 1)]
  }

  /** All placements of the first n projects. */
  function Placements(projects: seq<AdoptedProject>, ids: Ids, n: nat): seq<Placement>
    requires n <= |projects|
  {
    if n == 0 then []
    else Placements(projects, ids, n - 1) + ProjectPlacements(projects, ids, n - 1, |projects[n - 1].publications|)
  }

  function RowOf(p: Placement): PublicationRow {
    PublicationRow(p.projectId, p.publication.path, p.publication.displayName, p.publication.entryPoint,
                   p.publication.routingMode, p.publication.contentChangedAt, p.manifestId)
  }

  // ---- Inserting rows one by one ----

  function ObjectsInserted(t: Tables, manifestId: Id, objects: seq<ManifestObject>): Option<Tables> {
    if objects == [] then Some(t)
    else
      var n := |objects| - 1;
      var u :- ObjectsInserted(t, manifestId, objects[..n]);
      InsertObject(u, manifestId, objects[n])
  }

  function PublicationInserted(t: Tables, p: Placement, digest: Digest): Option<Tables> {
    var u :- InsertPublication(t, p.publicationId, RowOf(p));
    var v :- InsertManifest(u, p.manifestId, ManifestRow(p.publicationId, digest));
    ObjectsInserted(v, p.manifestId, p.publication.objects)
  }

  function PublicationsInserted(t: Tables, projects: seq<AdoptedProject>, ids: Ids, digest: Digest, i: nat,
                                j: nat): Option<Tables>
    requires i < |projects| && j <= |projects[i].publications|
  {
    if j == 0 then Some(t)
    else
      var u :- PublicationsInserted(t, projects, ids, digest, i, j - 1);
      PublicationInserted(u, PlacementAt(projects, ids, i, j - 1), digest)
  }

  function ProjectsInserted(t: Tables, projects: seq<AdoptedProject>, ids: Ids, digest: Digest, n: nat): Option<Tables>
    requires n <= |projects|
  {
    if n == 0 then Some(t)
    else
      var u :- ProjectsInserted(t, projects, ids, digest, n - 1);
      var v :- InsertProject(u, ids.project(n - 1), ProjectRow(projects[n - 1].prefix, projects[n - 1].displayName));
      PublicationsInserted(v, projects, ids, digest, n - 1, |projects[n - 1].publications|)
  }

  // ---- The whole batch at once ----

  function ProjectRows(projects: seq<AdoptedProject>, ids: Ids, n: nat): map<Id, ProjectRow>
    requires n <= |projects|
  {
    if n == 0 then map[]
    else
      var last := projects[n - 1];
      ProjectRows(projects, ids, n - 1)[ids.project(n - 1) := ProjectRow(last.prefix, last.displayName)]
  }

  function PublicationRows(ps: seq<Placement>): map<Id, PublicationRow> {
    if ps == [] then map[]
    else PublicationRows(ps[..|ps| - 1])[ps[|ps| - 1].publicationId := RowOf(ps[|ps| - 1])]
  }

  function ManifestRows(ps: seq<Placement>, digest: Digest): map<Id, ManifestRow> {
    if ps == [] then map[]
    else
      var last := ps[|ps| - 1];
      ManifestRows(ps[..|ps| - 1], digest)[last.manifestId := ManifestRow(last.publicationId, digest)]
  }

  function ObjectRowsOf(manifestId: Id, objects: seq<ManifestObject>): map<(Id, string), ManifestObject> {
    if objects == [] then map[]
    else
      var last := objects[|objects| - 1];
      ObjectRowsOf(manifestId, objects[..|objects| - 1])[(manifestId, last.key) := last]
  }

  function ObjectRows(ps: seq<Placement>): map<(Id, string), ManifestObject> {
    if ps == [] then map[]
    else ObjectRows(ps[..|ps| - 1]) + ObjectRowsOf(ps[|ps| - 1].manifestId, ps[|ps| - 1].publication.objects)
  }

  /** The old tables plus these project rows and everything the placements add. */
  function Plus(t: Tables, projects: map<Id, ProjectRow>, ps: seq<Placement>, digest: Digest): Tables {
    Tables(t.projects + projects, t.publications + PublicationRows(ps),
           t.manifests + ManifestRows(ps, digest), t.objects + ObjectRows(ps), t.operations)
  }

  /** A project row the constraints admit after the first n projects. */
  ghost predicate ProjectFits(t: Tables, projects: seq<AdoptedProject>, ids: Ids, n: nat)
    requires n < |projects|
  {
    && |ids.project(n)| == ID_LENGTH
    && ids.project(n) !in t.projects
    && (forall id | id in t.projects :: t.projects[id].prefix != projects[n].prefix)
    && (forall i | 0 <= i < n :: ids.project(i) != ids.project(n) && projects[i].prefix != projects[n].prefix)
  }

  /** A placement the constraints admit after the given ones. */
  ghost predicate Fits(t: Tables, ps: seq<Placement>, p: Placement) {
    && |p.publicationId| == ID_LENGTH && p.publicationId !in t.publications
    && |p.manifestId| == ID_LENGTH && p.manifestId !in t.manifests
    && !p.publication.routingMode.OtherMode?
    && (forall id | id in t.publications :: t.publications[id].path != p.publication.path)
    && (forall q | q in ps ::
      q.publicationId != p.publicationId && q.manifestId != p.manifestId && q.publication.path != p.publication.path)
    && Distinct(ObjectKeys(p.publication.objects))
    && (forall o | o in p.publication.objects :: o.size >= 0)
  }

  ghost predicate AllFit(t: Tables, ps: seq<Placement>) {
    forall x | 0 <= x < |ps| :: Fits(t, ps[..x], ps[x])
  }

  ghost predicate Insertable(t: Tables, projects: seq<AdoptedProject>, ids: Ids, n: nat)
    requires n <= |projects|
  {
    && (forall i | 0 <= i < n :: ProjectFits(t, projects, ids, i))
    && AllFit(t, Placements(projects, ids, n))
  }

  lemma AllFitExtend(t: Tables, ps: seq<Placement>, p: Placement)
    ensures AllFit(t, ps + [p]) <==> AllFit(t, ps) && Fits(t, ps, p)
  {
    var qs := ps + [p];
    assert forall x | 0 <= x < |ps| :: qs[..x] == ps[..x] && qs[x] == ps[x];
    assert qs[..|ps|] == ps && qs[|ps|] == p;
    if AllFit(t, qs) {
      assert Fits(t, qs[..|ps|], qs[|ps|]);
      forall x | 0 <= x < |ps| ensures Fits(t, ps[..x], ps[x]) {
        assert Fits(t, qs[..x], qs[x]);
      }
    }
  }

  // ---- Reading the added rows back ----

  lemma {:induction false} PublicationRowsKeys(ps: seq<Placement>, id: Id)
    ensures id in PublicationRows(ps) <==> exists p :: p in ps && p.publicationId == id
    ensures id in PublicationRows(ps) ==>
        exists p :: p in ps && p.publicationId == id && PublicationRows(ps)[id] == RowOf(p)
    decreases |ps|
  {
    if ps != [] {
      var n := |ps| - 1;
      PublicationRowsKeys(ps[..n], id);
      assert ps == ps[..n] + [ps[n]];
    }
  }

  lemma {:induction false} ManifestRowsKeys(ps: seq<Placement>, digest: Digest, id: Id)
    ensures id in ManifestRows(ps, digest) <==> exists p :: p in ps && p.manifestId == id
    ensures id in ManifestRows(ps, digest) ==>
      exists p :: p in ps && p.manifestId == id && ManifestRows(ps, digest)[id] == ManifestRow(p.publicationId, digest)
    decreases |ps|
  {
    if ps != [] {
      var n := |ps| - 1;
      ManifestRowsKeys(ps[..n], digest, id);
      assert ps == ps[..n] + [ps[n]];
    }
  }

  lemma {:induction false} ObjectRowsOfKeys(manifestId: Id, objects: seq<ManifestObject>, mk: (Id, string))
    ensures mk in ObjectRowsOf(manifestId, objects) <==> mk.0 == manifestId && exists o :: o in objects && o.key == mk.1
    ensures mk in ObjectRowsOf(manifestId, objects) ==>
      exists o :: o in objects && o.key == mk.1 && ObjectRowsOf(manifestId, objects)[mk] == o
    decreases |objects|
  {
    if objects != [] {
      var n := |objects| - 1;
      ObjectRowsOfKeys(manifestId, objects[..n], mk);
      assert objects == objects[..n] + [objects[n]];
    }
  }

  lemma {:induction false} ObjectRowsKeys(ps: seq<Placement>, mk: (Id, string))
    ensures mk in ObjectRows(ps) <==>
      exists p, o :: p in ps && p.manifestId == mk.0 && o in p.publication.objects && o.key == mk.1
    ensures mk in ObjectRows(ps) ==>
      exists p, o :: p in ps && p.manifestId == mk.0 && o in p.publication.objects && o.key == mk.1
             && ObjectRows(ps)[mk] == o
    decreases |ps|
  {
    if ps != [] {
      var n := |ps| - 1;
      ObjectRowsKeys(ps[..n], mk);
      ObjectRowsOfKeys(ps[n].manifestId, ps[n].publication.objects, mk);
      assert ps == ps[..n] + [ps[n]];
    }
  }

  lemma {:induction false} ProjectRowsKeys(projects: seq<AdoptedProject>, ids: Ids, n: nat, id: Id)
    requires n <= |projects|
    ensures id in ProjectRows(projects, ids, n) <==> exists i :: 0 <= i < n && ids.project(i) == id
    ensures id in ProjectRows(projects, ids, n) ==>
      exists i :: 0 <= i < n && ids.project(i) == id
        && ProjectRows(projects, ids, n)[id] == ProjectRow(projects[i].prefix, projects[i].displayName)
    decreases n
  {
    if n > 0 {
      ProjectRowsKeys(projects, ids, n - 1, id);
      if ids.project(n - 1) == id {
        assert ProjectRows(projects, ids, n)[id] == ProjectRow(projects[n - 1].prefix, projects[n - 1].displayName);
      }
    }
  }
}

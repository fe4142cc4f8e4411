/**
 Committing an approved plan (internal/adoption/commit.go): grouping planned
 publications into Projects, and what the recheck and the transaction ensure.
 */
module Commits {
  import opened Text
  import opened Storage
  import opened BaseURLs
  import opened Declarations
  import opened Planning
  import opened Catalog
  import opened Batches

  // ---- adoptProjects ----

  function AdoptedOf(q: PlannedPublication): AdoptedPublication {
    AdoptedPublication(q.path, q.displayName, q.entryPoint, q.routingMode, q.contentChangedAt, q.objects)
  }

  function DisplayNameOf(project: ProjectDeclaration): string {
    if project.displayName == "" then project.prefix else project.displayName
  }

  function FirstPrefixes(qs: seq<PlannedPublication>): seq<string> {
    if qs == [] then []
    else
      var n := |qs| - 1;
      var earlier := FirstPrefixes(qs[..n]);
      if qs[n].project.prefix in earlier then earlier else earlier + [qs[n].project.prefix]
  }

  function PublicationsOf(qs: seq<PlannedPublication>, prefix: string): seq<AdoptedPublication> {
    if qs == [] then []
    else
      var n := |qs| - 1;
      PublicationsOf(qs[..n], prefix) + (if qs[n].project.prefix == prefix then [AdoptedOf(qs[n])] else [])
  }

  function ProjectNameOf(qs: seq<PlannedPublication>, prefix: string): string {
    if qs == [] then ""
    else
      var n := |qs| - 1;
      if prefix !in FirstPrefixes(qs[..n]) && qs[n].project.prefix == prefix then DisplayNameOf(qs[n].project)
      else ProjectNameOf(qs[..n], prefix)
  }

  function ProjectFor(qs: seq<PlannedPublication>, prefix: string): AdoptedProject {
    AdoptedProject(prefix, ProjectNameOf(qs, prefix), PublicationsOf(qs, prefix))
  }

  function ProjectsFor(qs: seq<PlannedPublication>, prefixes: seq<string>): (projects: seq<AdoptedProject>)
    ensures |projects| == |prefixes|
    ensures forall i | 0 <= i < |prefixes| :: projects[i] == ProjectFor(qs, prefixes[i])
  {
    seq(|prefixes|, i requires 0 <= i < |prefixes| => ProjectFor(qs, prefixes[i]))
  }

  /** One Project per declared prefix, by prefix. */
  function ProjectsOf(qs: seq<PlannedPublication>): seq<AdoptedProject> {
    ProjectsFor(qs, SortStrings(FirstPrefixes(qs)))
  }

  lemma {:induction false} FirstPrefixesExact(qs: seq<PlannedPublication>)
    ensures Distinct(FirstPrefixes(qs))
    ensures forall prefix :: prefix in FirstPrefixes(qs) <==> exists q :: q in qs && q.project.prefix == prefix
    decreases |qs|
  {
    if qs != [] {
      var n := |qs| - 1;
      FirstPrefixesExact(qs[..n]);
      DistinctConcat(FirstPrefixes(qs[..n]), qs[n].project.prefix);
      assert qs == qs[..n] + [qs[n]] && qs[n] in qs;
    }
  }

  lemma {:induction false} PublicationsOfExact(qs: seq<PlannedPublication>, prefix: string)
    ensures forall a :: a in PublicationsOf(qs, prefix) <==>
        exists q :: q in qs && q.project.prefix == prefix && a == AdoptedOf(q)
    ensures prefix !in FirstPrefixes(qs) ==> PublicationsOf(qs, prefix) == []
    decreases |qs|
  {
    if qs != [] {
      var n := |qs| - 1;
      PublicationsOfExact(qs[..n], prefix);
      assert qs == qs[..n] + [qs[n]] && qs[n] in qs;
    }
  }

  method AdoptProjects(qs: seq<PlannedPublication>) returns (projects: seq<AdoptedProject>)
    ensures projects == ProjectsOf(qs)
  {
    hide AdoptedOf, DisplayNameOf, SortBy;
    var byPrefix: map<string, AdoptedProject> := map[];
    var prefixes: seq<string> := [];
    for i := 0 to |qs|
      invariant prefixes == FirstPrefixes(qs[..i])
      invariant forall prefix :: prefix in byPrefix <==> prefix in prefixes
      invariant forall prefix | prefix in byPrefix :: byPrefix[prefix] == ProjectFor(qs[..i], prefix)
    {
      var planned := qs[i];
      var prefix := planned.project.prefix;
      assert qs[..i + 1][..i] == qs[..i];
      if prefix !in byPrefix {
        PublicationsOfExact(qs[..i], prefix);
        byPrefix := byPrefix[prefix := AdoptedProject(prefix, DisplayNameOf(planned.project), [])];
        prefixes := prefixes + [prefix];
      }
      var project := byPrefix[prefix];
      byPrefix := byPrefix[prefix := project.(publications := project.publications + [AdoptedOf(planned)])];
    }
    assert qs[..|qs|] == qs;
    FirstPrefixesExact(qs);
    SortStringsCorrect(prefixes);
    prefixes := SortStrings(prefixes);
    projects := [];
    for i := 0 to |prefixes|
      invariant |projects| == i && forall k | 0 <= k < i :: projects[k] == ProjectFor(qs, prefixes[k])
    {
      assert prefixes[i] in prefixes;
      projects := projects + [byPrefix[prefixes[i]]];
    }
  }

  // ---- Planned publications and placements correspond ----

  /** The publication to adopt is the planned one, field by field. */
  ghost predicate Copies(a: AdoptedPublication, q: PlannedPublication) {
    && a.path == q.path && a.displayName == q.displayName && a.entryPoint == q.entryPoint
    && a.routingMode == q.routingMode && a.contentChangedAt == q.contentChangedAt && a.objects == q.objects
  }

  /** Every placement of the batch is some planned publication, in its own Project. */
  lemma PlacementIsPlanned(qs: seq<PlannedPublication>, ids: Ids, p: Placement)
    requires var projects := Normalized(ProjectsOf(qs)); p in Placements(projects, ids, |projects|)
    ensures exists q ::
      q in qs && p.publication == AdoptedOf(q) && Copies(p.publication, q) && p.prefix == q.project.prefix
  {
    hide SortBy, SortStrings, Normalized, PublicationsOf, ProjectNameOf, ProjectsOf, FirstPrefixes;
    var projects := Normalized(ProjectsOf(qs));
    PlacementOrigin(projects, ids, |projects|, p);
    var i, j :| 0 <= i < |projects| && 0 <= j < |projects[i].publications| && p == PlacementAt(projects, ids, i, j);
    NormalizedMembers(ProjectsOf(qs));
    assert projects[i] in projects;
    var project :| project in ProjectsOf(qs) && projects[i] == SortedProject(project);
    SortByCorrect(PathOf, project.publications);
    assert p.publication in project.publications;
    ProjectsOfMembers(qs, project);
    PublicationsOfExact(qs, project.prefix);
  }

  lemma ProjectsOfMembers(qs: seq<PlannedPublication>, project: AdoptedProject)
    ensures project in ProjectsOf(qs) <==>
        project.prefix in FirstPrefixes(qs) && project == ProjectFor(qs, project.prefix)
  {
    hide SortBy, PublicationsOf, ProjectNameOf, FirstPrefixes;
    FirstPrefixesExact(qs);
    SortStringsCorrect(FirstPrefixes(qs));
    var prefixes, projects := SortStrings(FirstPrefixes(qs)), ProjectsOf(qs);
    if project in projects {
      var i :| 0 <= i < |projects| && projects[i] == project;
      assert prefixes[i] in prefixes;
    }
    if project.prefix in prefixes && project == ProjectFor(qs, project.prefix) {
      var i :| 0 <= i < |prefixes| && prefixes[i] == project.prefix;
      assert projects[i] == project;
    }
  }

  /** Every planned publication is placed, in its own Project. */
  lemma PlannedIsPlaced(qs: seq<PlannedPublication>, ids: Ids, q: PlannedPublication) returns (p: Placement, i: nat)
    requires q in qs
    ensures var projects := Normalized(ProjectsOf(qs));
      && p in Placements(projects, ids, |projects|)
      && p.publication == AdoptedOf(q) && Copies(p.publication, q) && p.prefix == q.project.prefix
      && i < |projects| && projects[i].prefix == p.prefix && p.projectId == ids.project(i)
  {
    hide SortBy, SortStrings, Normalized, PublicationsOf, ProjectNameOf, ProjectsOf, FirstPrefixes;
    var projects := Normalized(ProjectsOf(qs));
    var project := ProjectFor(qs, q.project.prefix);
    FirstPrefixesExact(qs);
    ProjectsOfMembers(qs, project);
    NormalizedMembers(ProjectsOf(qs));
    assert SortedProject(project) in projects;
    i :| 0 <= i < |projects| && projects[i] == SortedProject(project);
    PublicationsOfExact(qs, q.project.prefix);
    SortByCorrect(PathOf, project.publications);
    assert AdoptedOf(q) in projects[i].publications;
    var j :| 0 <= j < |projects[i].publications| && projects[i].publications[j] == AdoptedOf(q);
    p := PlacementAt(projects, ids, i, j);
    PlacementOrigin(projects, ids, |projects|, p);
  }

  // ---- One commit call ----

  datatype Call = Call(approved: Plan, operationId: string, expectedBaseURL: string)

  /** The checks before the catalog is opened. */
  ghost predicate CallOk(call: Call) {
    && call.approved.Verify()
    && ValidDeclaration(call.approved.content.declaration)
    && call.operationId != ""
    && (call.expectedBaseURL == "" || call.expectedBaseURL == call.approved.content.publicBaseURL)
  }

  function HashOf(call: Call): RequestHash { RequestHash(call.operationId, call.approved.digest) }

  /** Planning again right before the transaction reproduces the approved digest. */
  ghost predicate Rechecked(call: Call, world: World) {
    var content := call.approved.content;
    PlanSucceeds(world, content.publicBaseURL, content.declaration)
    && DigestOf(PlannedContent(world, content.publicBaseURL, content.declaration)) == call.approved.digest
  }

  function BatchOf(call: Call): Batch {
    Batch(call.operationId, HashOf(call), call.approved.digest, ProjectsOf(call.approved.content.publications))
  }

  /** The recheck pins the approved content to the declaration and the storage seen. */
  lemma RecheckPinsContent(call: Call, world: World)
    requires CallOk(call) && Rechecked(call, world)
    ensures var content := call.approved.content;
      && content == PlannedContent(world, content.publicBaseURL, content.declaration)
      && |content.publications| == |content.declaration.publications|
  {}

  /** The call that approves the plan made of this storage. */
  ghost function Approval(world: World, baseURL: string, d: Declaration, operationId: string): Call
    requires PlanSucceeds(world, baseURL, d)
  {
    var planned := PlannedContent(world, baseURL, d);
    Call(Plan(planned, DigestOf(planned)), operationId, "")
  }

  /** On unchanged storage and routes a plan passes its recheck exactly when its base URL normalizes to itself. */
  lemma RecheckOfUnchangedWorld(world: World, baseURL: string, d: Declaration, operationId: string)
    requires PlanSucceeds(world, baseURL, d)
    ensures var planned := PlannedContent(world, baseURL, d);
      Rechecked(Approval(world, baseURL, d, operationId), world)
      <==> world.normalizeBaseURL(planned.publicBaseURL) == Ok(planned.publicBaseURL)
  {
    hide ValidDeclaration, Plannable;
    var planned := PlannedContent(world, baseURL, d);
    assert planned.publicBaseURL == world.normalizeBaseURL(baseURL).value && planned.declaration == d;
  }

  /** In terms of the base URL: exactly when the normalized one ends in neither a slash nor a space. */
  lemma RecheckNeedsSettledBase(world: World, isOrigin: string -> bool, baseURL: string, d: Declaration,
                                operationId: string)
    requires forall raw :: world.normalizeBaseURL(raw) == NormalizeBaseURL(isOrigin, raw)
    requires PlanSucceeds(world, baseURL, d)
    ensures Rechecked(Approval(world, baseURL, d, operationId), world)
            <==> Settles(PlannedContent(world, baseURL, d).publicBaseURL)
  {
    hide PlanSucceeds, Rechecked, NormalizeBaseURL, Settles;
    PlannedBase(world, baseURL, d);
    NormalizesToItself(isOrigin, baseURL);
    RecheckOfUnchangedWorld(world, baseURL, d, operationId);
  }

  /** A base URL that ends in a doubled slash is planned, and its plan can never be committed. */
  lemma DoubledSlashNeverCommits(world: World, isOrigin: string -> bool, d: Declaration, operationId: string)
    requires (forall raw :: world.normalizeBaseURL(raw) == NormalizeBaseURL(isOrigin, raw)) && isOrigin("https://h/")
    requires PlanSucceeds(world, "https://h//", d)
    ensures !Rechecked(Approval(world, "https://h//", d, operationId), world)
  {
    hide PlanSucceeds, Rechecked, NormalizeBaseURL, Settles;
    DoubledSlash(isOrigin);
    PlannedBase(world, "https://h//", d);
    RecheckNeedsSettledBase(world, isOrigin, "https://h//", d, operationId);
  }

  lemma PlannedBase(world: World, baseURL: string, d: Declaration)
    requires PlanSucceeds(world, baseURL, d)
    ensures Ok(PlannedContent(world, baseURL, d).publicBaseURL) == world.normalizeBaseURL(baseURL)
  {}

  /** What the recheck says of one approved publication. */
  lemma ApprovedPublication(call: Call, world: World, q: PlannedPublication) returns (i: int)
    requires CallOk(call) && Rechecked(call, world) && q in call.approved.content.publications
    ensures var ps := call.approved.content.declaration.publications;
      && 0 <= i < |ps| && q == call.approved.content.publications[i]
      && ValidPublication(ps[i]) && q.project == ps[i].project && q.path == ps[i].path
      && q.entryPoint == ps[i].entryPoint && q.routingMode == ps[i].routingMode
      && Ascending(ObjectKeys(q.objects)) && q.objects != []
      && (forall key :: key in ObjectKeys(q.objects) <==> key in ps[i].objects)
  {
    hide PlanSucceeds, PlannedContent, ValidPublication, ValidDeclaration, Ascending;
    RecheckPinsContent(call, world);
    var content := call.approved.content;
    i :| 0 <= i < |content.publications| && content.publications[i] == q;
    PlannedPublicationExact(world, content.publicBaseURL, content.declaration, i);
    ObjectsDeclared(content.declaration.publications[i]);
  }

  lemma ObjectsDeclared(p: PublicationDeclaration)
    requires ValidPublication(p)
    ensures p.objects != [] && p.entryPoint in p.objects && !p.routingMode.OtherMode? && '/' !in p.project.prefix
  {}

  /** Approved publications own disjoint path spaces under their Projects' prefixes. */
  lemma ApprovedApart(call: Call, world: World, q: PlannedPublication, q': PlannedPublication)
    requires CallOk(call) && Rechecked(call, world)
    requires q in call.approved.content.publications && q' in call.approved.content.publications
    requires q.path != q'.path
    ensures !Overlap(q.path, q'.path)
  {
    hide PlanSucceeds, PlannedContent, ValidPublication, Overlap;
    var i := ApprovedPublication(call, world, q);
    var j := ApprovedPublication(call, world, q');
    var ps := call.approved.content.declaration.publications;
    assert BoundariesApart(ps);
    if i < j { assert !Overlap(ps[i].path, ps[j].path); }
    if j < i { assert !Overlap(ps[j].path, ps[i].path); OverlapSymmetric(q.path, q'.path); }
  }

  lemma OverlapSymmetric(a: string, b: string)
    ensures Overlap(a, b) <==> Overlap(b, a)
  {}

  lemma ApprovedUnder(call: Call, world: World, q: PlannedPublication, key: string)
    requires CallOk(call) && Rechecked(call, world) && q in call.approved.content.publications
    requires key in ObjectKeys(q.objects) || key == q.path || key == q.entryPoint
    ensures Under(q.project.prefix, key) && Under(q.path, key) && Under(q.project.prefix, q.path)
    ensures '/' !in q.project.prefix && q.entryPoint in ObjectKeys(q.objects)
  {
    hide PlanSucceeds, PlannedContent, ValidPublication, ValidDeclaration;
    var i := ApprovedPublication(call, world, q);
    var p := call.approved.content.declaration.publications[i];
    ObjectsDeclared(p);
    ValidKeysAreUnder(p, p.entryPoint);
    if key != q.path { ValidKeysAreUnder(p, key); }
  }
}

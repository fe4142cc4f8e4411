/**
 When a rechecked plan is accepted: the catalog's checks and constraints refuse it
 only for a recorded operation ID, a managed prefix, a clashing identity or a
 negative size. Everything else they test, the declaration has settled already.
 */
module Acceptance {
  import opened Text
  import opened Storage
  import opened Declarations
  import opened Planning
  import opened Catalog
  import opened Atomicity
  import opened Batches
  import opened Commits
  import opened Ownership
  import opened RoundTrip

  /** No declared Project prefix is managed yet. */
  ghost predicate PrefixesNew(t: Tables, qs: seq<PlannedPublication>) {
    forall q, id | q in qs && id in t.projects :: t.projects[id].prefix != q.project.prefix
  }

  ghost predicate ProjectIdsFresh(t: Tables, projects: seq<AdoptedProject>, ids: Ids) {
    && (forall i | 0 <= i < |projects| :: |ids.project(i)| == ID_LENGTH && ids.project(i) !in t.projects)
    && (forall i, j | 0 <= i < j < |projects| :: ids.project(i) != ids.project(j))
  }

  ghost predicate PlacementIdsFresh(t: Tables, ps: seq<Placement>) {
    && (forall x | 0 <= x < |ps| ::
          && |ps[x].publicationId| == ID_LENGTH && ps[x].publicationId !in t.publications
          && |ps[x].manifestId| == ID_LENGTH && ps[x].manifestId !in t.manifests)
    && (forall x, y | 0 <= x < y < |ps| ::
          ps[x].publicationId != ps[y].publicationId && ps[x].manifestId != ps[y].manifestId)
  }

  ghost predicate SizesOk(qs: seq<PlannedPublication>) {
    forall q, o | q in qs && o in q.objects :: o.size >= 0
  }

  // ---- Paths are distinct however they are grouped and sorted ----

  /** These publications are planned ones, grouped under their own prefix. */
  ghost predicate Groups(qs: seq<PlannedPublication>, project: AdoptedProject) {
    && Distinct(Paths(project.publications)) && project.publications != []
    && forall a | a in project.publications ::
         exists q :: q in qs && a == AdoptedOf(q) && q.project.prefix == project.prefix
  }

  ghost predicate AllGroup(qs: seq<PlannedPublication>, projects: seq<AdoptedProject>) {
    && Distinct(Prefixes(projects))
    && forall i | 0 <= i < |projects| :: Groups(qs, projects[i])
  }

  lemma {:induction false} PublicationsOfPathsDistinct(qs: seq<PlannedPublication>, prefix: string)
    requires Distinct(PlannedPaths(qs))
    ensures Distinct(Paths(PublicationsOf(qs, prefix)))
    decreases |qs|
  {
    if qs != [] {
      var n := |qs| - 1;
      var paths, earlier := PlannedPaths(qs), PublicationsOf(qs[..n], prefix);
      assert PlannedPaths(qs[..n]) == paths[..n];
      PublicationsOfPathsDistinct(qs[..n], prefix);
      if qs[n].project.prefix == prefix {
        forall x | 0 <= x < |earlier| ensures earlier[x].path != qs[n].path {
          PublicationsOfExact(qs[..n], prefix);
          assert earlier[x] in earlier;
          var q :| q in qs[..n] && earlier[x] == AdoptedOf(q);
          var k :| 0 <= k < n && qs[k] == q;
          assert paths[k] != paths[n];
        }
        assert Paths(earlier + [AdoptedOf(qs[n])]) == Paths(earlier) + [qs[n].path];
      }
    }
  }

  lemma SortedPathsDistinct(publications: seq<AdoptedPublication>)
    requires Distinct(Paths(publications))
    ensures Distinct(Paths(SortBy(PathOf, publications)))
  {
    assert forall i, j | 0 <= i < j < |publications| :: Paths(publications)[i] != Paths(publications)[j];
    SortByDistinct(PathOf, publications);
    var sorted := SortBy(PathOf, publications);
    forall i, j | 0 <= i < j < |sorted| ensures Paths(sorted)[i] != Paths(sorted)[j] {
      LessTotal(PathOf(sorted[i]), PathOf(sorted[j]));
    }
  }

  /** ProjectsOf groups, and sorting inside each Project keeps the groups. */
  lemma ProjectsGroup(qs: seq<PlannedPublication>)
    requires Distinct(PlannedPaths(qs))
    ensures AllGroup(qs, ProjectsOf(qs)) && AllGroup(qs, SortedProjects(ProjectsOf(qs)))
  {
    hide PublicationsOf, FirstPrefixes, SortBy, SortStrings, Distinct, Less, ProjectNameOf, ProjectsOf;
    var projects, sorted := ProjectsOf(qs), SortedProjects(ProjectsOf(qs));
    ProjectPrefixes(qs);
    assert Prefixes(sorted) == Prefixes(projects);
    forall i | 0 <= i < |projects| ensures Groups(qs, projects[i]) && Groups(qs, sorted[i]) {
      assert projects[i] in projects;
      var prefix := projects[i].prefix;
      ProjectsOfMembers(qs, projects[i]);
      PublicationsOfExact(qs, prefix);
      FirstPrefixesExact(qs);
      PublicationsOfPathsDistinct(qs, prefix);
      SortedPathsDistinct(projects[i].publications);
      SortByCorrect(PathOf, projects[i].publications);
      var q :| q in qs && q.project.prefix == prefix;
      assert AdoptedOf(q) in projects[i].publications && AdoptedOf(q) in sorted[i].publications;
    }
  }

  lemma ProjectPrefixes(qs: seq<PlannedPublication>)
    ensures Distinct(Prefixes(ProjectsOf(qs))) && Prefixes(ProjectsOf(qs)) == SortStrings(FirstPrefixes(qs))
  {
    hide PublicationsOf, FirstPrefixes, SortBy, SortStrings, Less, ProjectNameOf;
    FirstPrefixesExact(qs);
    SortStringsCorrect(FirstPrefixes(qs));
    AscendingIsDistinct(SortStrings(FirstPrefixes(qs)));
    assert Prefixes(ProjectsOf(qs)) == SortStrings(FirstPrefixes(qs));
  }

  /** Reordering the Projects by prefix keeps the groups as well. */
  lemma NormalizedGroup(qs: seq<PlannedPublication>)
    requires Distinct(PlannedPaths(qs))
    ensures AllGroup(qs, Normalized(ProjectsOf(qs)))
  {
    hide PublicationsOf, FirstPrefixes, SortBy, SortStrings, Less, ProjectNameOf, ProjectsOf, Groups;
    ProjectsGroup(qs);
    var sorted, normalized := SortedProjects(ProjectsOf(qs)), Normalized(ProjectsOf(qs));
    forall i, j | 0 <= i < j < |sorted| ensures PrefixOf(sorted[i]) != PrefixOf(sorted[j]) {
      assert Prefixes(sorted)[i] != Prefixes(sorted)[j];
    }
    SortByDistinct(PrefixOf, sorted);
    SortByCorrect(PrefixOf, sorted);
    forall i, j | 0 <= i < j < |normalized| ensures Prefixes(normalized)[i] != Prefixes(normalized)[j] {
      LessTotal(PrefixOf(normalized[i]), PrefixOf(normalized[j]));
    }
    forall i | 0 <= i < |normalized| ensures Groups(qs, normalized[i]) {
      assert normalized[i] in normalized;
      var j :| 0 <= j < |sorted| && sorted[j] == normalized[i];
    }
  }

  /** A path is planned once, so grouped paths are distinct across Projects too. */
  lemma {:induction false} GroupedPathsDistinct(qs: seq<PlannedPublication>, projects: seq<AdoptedProject>, n: nat)
    requires Distinct(PlannedPaths(qs)) && AllGroup(qs, projects) && n <= |projects|
    ensures Distinct(PathsOf(projects[..n]))
    ensures forall path | path in PathsOf(projects[..n]) :: InEarlier(projects, n, path)
    decreases n
  {
    hide Groups, Distinct;
    if n == 0 {
      EmptyDistinct();
    } else {
      var m: nat := n - 1;
      assert projects[..n][..m] == projects[..m] && projects[..n][m] == projects[m];
      GroupedPathsDistinct(qs, projects, m);
      var earlier, last := PathsOf(projects[..m]), Paths(projects[m].publications);
      forall path | path in last ensures path !in earlier && InEarlier(projects, n, path) {
        if path in earlier {
          var i :| 0 <= i < m && path in Paths(projects[i].publications);
          PathHasOneProject(qs, projects, i, m, path);
        }
      }
      assert Groups(qs, projects[m]);
      GroupDistinct(qs, projects[m]);
      DistinctUnion(earlier, last);
    }
  }

  ghost predicate InEarlier(projects: seq<AdoptedProject>, n: nat, path: string)
    requires n <= |projects|
  {
    exists i :: 0 <= i < n && path in Paths(projects[i].publications)
  }

  lemma GroupDistinct(qs: seq<PlannedPublication>, project: AdoptedProject)
    requires Groups(qs, project)
    ensures Distinct(Paths(project.publications))
  {}

  lemma PathHasOneProject(qs: seq<PlannedPublication>, projects: seq<AdoptedProject>, i: nat, j: nat, path: string)
    requires Distinct(PlannedPaths(qs)) && AllGroup(qs, projects) && i < j < |projects|
    requires path in Paths(projects[i].publications)
    ensures path !in Paths(projects[j].publications)
  {
    hide Paths;
    assert Prefixes(projects)[i] != Prefixes(projects)[j];
    if path in Paths(projects[j].publications) {
      var q := GroupedPlan(qs, projects[i], path);
      var q' := GroupedPlan(qs, projects[j], path);
      SamePlannedPath(qs, q, q');
    }
  }

  lemma SamePlannedPath(qs: seq<PlannedPublication>, q: PlannedPublication, q': PlannedPublication)
    requires Distinct(PlannedPaths(qs)) && q in qs && q' in qs && q.path == q'.path
    ensures q == q'
  {
    var x :| 0 <= x < |qs| && qs[x] == q;
    var y :| 0 <= y < |qs| && qs[y] == q';
    assert PlannedPaths(qs)[x] == PlannedPaths(qs)[y];
  }

  lemma GroupedPlan(qs: seq<PlannedPublication>, project: AdoptedProject, path: string) returns (q: PlannedPublication)
    requires Groups(qs, project) && path in Paths(project.publications)
    ensures q in qs && q.path == path && q.project.prefix == project.prefix
  {
    var x :| 0 <= x < |project.publications| && Paths(project.publications)[x] == path;
    assert project.publications[x] in project.publications;
    q :| q in qs && project.publications[x] == AdoptedOf(q) && q.project.prefix == project.prefix;
  }

  // ---- Normalization refuses nothing that was rechecked ----

  lemma RecheckedNormalizes(call: Call, world: World)
    requires CallOk(call) && Rechecked(call, world)
    ensures NormalizeOk(ProjectsOf(call.approved.content.publications))
  {
    hide CallOk, Rechecked, ProjectsOf, SortedProject, Groups, CompleteProject, Distinct;
    var qs := call.approved.content.publications;
    var projects, sorted := ProjectsOf(qs), SortedProjects(ProjectsOf(qs));
    PlannedPathsDistinct(call, world);
    ProjectsGroup(qs);
    GroupedPathsDistinct(qs, sorted, |sorted|);
    assert sorted[..|sorted|] == sorted;
    forall p | p in projects ensures CompleteProject(p) {
      var i :| 0 <= i < |projects| && projects[i] == p;
      GroupComplete(call, world, p);
    }
    SomeProject(call, world);
  }

  lemma GroupComplete(call: Call, world: World, p: AdoptedProject)
    requires CallOk(call) && Rechecked(call, world) && Groups(call.approved.content.publications, p)
    ensures CompleteProject(p)
  {
    hide CallOk, Rechecked, Distinct;
    var qs := call.approved.content.publications;
    forall a | a in p.publications ensures a.path != "" && a.objects != [] && p.prefix != "" {
      var q :| q in qs && a == AdoptedOf(q) && q.project.prefix == p.prefix;
      PlannedNotBlank(call, world, q);
    }
    assert p.publications[0] in p.publications;
  }

  lemma PlannedNotBlank(call: Call, world: World, q: PlannedPublication)
    requires CallOk(call) && Rechecked(call, world) && q in call.approved.content.publications
    ensures q.path != "" && q.objects != [] && q.project.prefix != ""
  {
    hide CallOk, Rechecked;
    var i := ApprovedPublication(call, world, q);
  }

  lemma SomeProject(call: Call, world: World)
    requires CallOk(call) && Rechecked(call, world)
    ensures ProjectsOf(call.approved.content.publications) != []
  {
    hide SortBy, SortStrings, PlanSucceeds, PlannedContent;
    var qs := call.approved.content.publications;
    RecheckPinsContent(call, world);
    FirstPrefixesExact(qs);
    assert qs[0] in qs && qs[0].project.prefix in FirstPrefixes(qs);
    SortStringsCorrect(FirstPrefixes(qs));
  }

  // ---- The constraints refuse exactly these ----

  lemma {:induction false} PlacementPaths(projects: seq<AdoptedProject>, ids: Ids, n: nat, x: nat)
    requires n <= |projects|
    ensures |Placements(projects, ids, n)| == |PathsOf(projects[..n])|
    ensures x < |PathsOf(projects[..n])| ==>
        PathsOf(projects[..n])[x] == Placements(projects, ids, n)[x].publication.path
    decreases n
  {
    if n > 0 {
      var m: nat := n - 1;
      assert projects[..n][..m] == projects[..m] && projects[..n][m] == projects[m];
      PlacementPaths(projects, ids, m, x);
    }
  }

  /** Necessity: whatever is accepted met all of these conditions. */
  lemma AcceptedMeansNew(t: Tables, call: Call, ids: Ids)
    requires Accepted(t, BatchOf(call), ids)
    ensures var qs := call.approved.content.publications;
      && PrefixesNew(t, qs) && SizesOk(qs)
      && ProjectIdsFresh(t, Normalized(ProjectsOf(qs)), ids) && PlacementIdsFresh(t, PlacedBy(call, ids))
  {
    hide Normalized, ProjectsOf, NormalizeOk, Placements, AllFit;
    var qs := call.approved.content.publications;
    var projects, ps := Normalized(ProjectsOf(qs)), PlacedBy(call, ids);
    forall q, id | q in qs && id in t.projects ensures t.projects[id].prefix != q.project.prefix {
      var p, i := PlannedIsPlaced(qs, ids, q);
      assert ProjectFits(t, projects, ids, i);
    }
    forall q, o | q in qs && o in q.objects ensures o.size >= 0 {
      var p, i := PlannedIsPlaced(qs, ids, q);
      FitsFresh(t, ps, p);
    }
    forall j | 0 <= j < |projects| ensures |ids.project(j)| == ID_LENGTH && ids.project(j) !in t.projects {
      assert ProjectFits(t, projects, ids, j);
    }
    forall i, j | 0 <= i < j < |projects| ensures ids.project(i) != ids.project(j) {
      assert ProjectFits(t, projects, ids, j);
    }
    FittingIdsFresh(t, ps);
  }

  lemma FittingIdsFresh(t: Tables, ps: seq<Placement>)
    requires AllFit(t, ps)
    ensures PlacementIdsFresh(t, ps)
  {
    hide Distinct;
    forall x | 0 <= x < |ps|
      ensures |ps[x].publicationId| == ID_LENGTH && ps[x].publicationId !in t.publications
      ensures |ps[x].manifestId| == ID_LENGTH && ps[x].manifestId !in t.manifests
    {
      assert Fits(t, ps[..x], ps[x]);
    }
    forall x, y | 0 <= x < y < |ps|
      ensures ps[x].publicationId != ps[y].publicationId && ps[x].manifestId != ps[y].manifestId {
      assert Fits(t, ps[..y], ps[y]) && ps[..y][x] == ps[x];
      assert ps[x] in ps[..y];
    }
  }

  /** Sufficiency, one placement: its path cannot be taken, by an old publication or in the batch. */
  lemma PlacementFits(t: Tables, call: Call, world: World, ids: Ids, x: nat)
    requires Owned(t) && CallOk(call) && Rechecked(call, world)
    requires PrefixesNew(t, call.approved.content.publications) && SizesOk(call.approved.content.publications)
    requires PlacementIdsFresh(t, PlacedBy(call, ids)) && x < |PlacedBy(call, ids)|
    ensures var ps := PlacedBy(call, ids); Fits(t, ps[..x], ps[x])
  {
    hide CallOk, Rechecked, Normalized, ProjectsOf, Placements, Overlap, Under, Less, Groups;
    var qs, ps := call.approved.content.publications, PlacedBy(call, ids);
    var projects := Normalized(ProjectsOf(qs));
    var p := ps[x];
    assert p in ps;
    PlacementIsPlanned(qs, ids, p);
    var q :| q in qs && p.publication == AdoptedOf(q) && p.prefix == q.project.prefix;
    var i := ApprovedPublication(call, world, q);
    AscendingIsDistinct(ObjectKeys(q.objects));
    forall id | id in t.publications ensures t.publications[id].path != q.path {
      PathIsNew(t, call, world, q, id);
    }
    forall r | r in ps[..x]
      ensures r.publicationId != p.publicationId && r.manifestId != p.manifestId
              && r.publication.path != p.publication.path
    {
      var y :| 0 <= y < x && ps[y] == r;
      PlacedPathsDiffer(call, world, ids, y, x);
    }
  }

  lemma PathIsNew(t: Tables, call: Call, world: World, q: PlannedPublication, id: Id)
    requires Owned(t) && CallOk(call) && Rechecked(call, world) && PrefixesNew(t, call.approved.content.publications)
    requires q in call.approved.content.publications && id in t.publications
    ensures t.publications[id].path != q.path
  {
    hide CallOk, Rechecked, Overlap, Under;
    ApprovedUnder(call, world, q, q.path);
    assert WellPlaced(t, id);
    DifferentPrefixesApart(q.project.prefix, t.projects[t.publications[id].projectId].prefix, q.path,
                           t.publications[id].path);
    SamePathsOverlap(q.path);
  }

  lemma PlacedPathsDiffer(call: Call, world: World, ids: Ids, y: nat, x: nat)
    requires CallOk(call) && Rechecked(call, world) && y < x < |PlacedBy(call, ids)|
    ensures PlacedBy(call, ids)[y].publication.path != PlacedBy(call, ids)[x].publication.path
  {
    hide CallOk, Rechecked, Normalized, ProjectsOf, Placements, Groups;
    var qs := call.approved.content.publications;
    var projects := Normalized(ProjectsOf(qs));
    PlannedPathsDistinct(call, world);
    NormalizedGroup(qs);
    GroupedPathsDistinct(qs, projects, |projects|);
    PlacementPaths(projects, ids, |projects|, x);
    PlacementPaths(projects, ids, |projects|, y);
  }

  lemma ProjectAdmitted(t: Tables, qs: seq<PlannedPublication>, ids: Ids, i: nat)
    requires Distinct(PlannedPaths(qs)) && PrefixesNew(t, qs)
    requires ProjectIdsFresh(t, Normalized(ProjectsOf(qs)), ids) && i < |Normalized(ProjectsOf(qs))|
    ensures ProjectFits(t, Normalized(ProjectsOf(qs)), ids, i)
  {
    hide Normalized, ProjectsOf;
    var projects := Normalized(ProjectsOf(qs));
    NormalizedGroup(qs);
    assert Groups(qs, projects[i]);
    assert projects[i].publications[0] in projects[i].publications;
    var q :| q in qs && projects[i].publications[0] == AdoptedOf(q) && q.project.prefix == projects[i].prefix;
    assert forall j | 0 <= j < i :: Prefixes(projects)[j] != Prefixes(projects)[i];
  }

  /** A rechecked plan is accepted exactly when operation, prefixes and identities are new and no size is negative. */
  lemma AcceptanceExact(t: Tables, call: Call, world: World, ids: Ids)
    requires Owned(t) && CallOk(call) && Rechecked(call, world)
    ensures var qs := call.approved.content.publications;
      CommitAccepted(t, call, world, ids) <==>
      && call.operationId !in t.operations && PrefixesNew(t, qs) && SizesOk(qs)
      && ProjectIdsFresh(t, Normalized(ProjectsOf(qs)), ids) && PlacementIdsFresh(t, PlacedBy(call, ids))
  {
    hide Rechecked, Normalized, ProjectsOf, Placements, NormalizeOk, Owned, PrefixesNew, SizesOk, ProjectIdsFresh,
         PlacementIdsFresh,
         Distinct, ProjectFits, Fits, ValidDeclaration;
    var qs := call.approved.content.publications;
    var projects, ps := Normalized(ProjectsOf(qs)), PlacedBy(call, ids);
    if Accepted(t, BatchOf(call), ids) { AcceptedMeansNew(t, call, ids); }
    if && call.operationId !in t.operations && PrefixesNew(t, qs) && SizesOk(qs)
       && ProjectIdsFresh(t, projects, ids) && PlacementIdsFresh(t, ps) {
      RecheckedNormalizes(call, world);
      PlannedPathsDistinct(call, world);
      forall i | 0 <= i < |projects| ensures ProjectFits(t, projects, ids, i) { ProjectAdmitted(t, qs, ids, i); }
      forall x | 0 <= x < |ps| ensures Fits(t, ps[..x], ps[x]) { PlacementFits(t, call, world, ids, x); }
    }
  }
}

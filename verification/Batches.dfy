/**
 Normalizing an adoption batch, its durable result, and what accepting it makes
 of the tables (internal/catalog/adopt.go).
 */
module Batches {
  import opened Text
  import opened Storage
  import opened Planning
  import opened Catalog
  import opened Atomicity

  // ---- normalizeBatchProjects ----

  function PathOf(p: AdoptedPublication): string { p.path }

  function PrefixOf(p: AdoptedProject): string { p.prefix }

  function SortedProject(p: AdoptedProject): AdoptedProject {
    p.(publications := SortBy(PathOf, p.publications))
  }

  function SortedProjects(projects: seq<AdoptedProject>): (sorted: seq<AdoptedProject>)
    ensures |sorted| == |projects|
    ensures forall i | 0 <= i < |projects| :: sorted[i] == SortedProject(projects[i])
  {
    seq(|projects|, i requires 0 <= i < |projects| => SortedProject(projects[i]))
  }

  /** Projects by prefix, and the publications of each by path. */
  function Normalized(projects: seq<AdoptedProject>): seq<AdoptedProject> {
    SortBy(PrefixOf, SortedProjects(projects))
  }

  ghost predicate CompleteProject(p: AdoptedProject) {
    && p.prefix != "" && p.publications != []
    && forall q | q in p.publications :: q.path != "" && q.objects != []
  }

  /** All publication paths of a batch, project by project. */
  function PathsOf(projects: seq<AdoptedProject>): seq<string> {
    if projects == [] then []
    else PathsOf(projects[..|projects| - 1]) + Paths(projects[|projects| - 1].publications)
  }

  function Paths(publications: seq<AdoptedPublication>): (paths: seq<string>)
    ensures |paths| == |publications|
    ensures forall i | 0 <= i < |paths| :: paths[i] == publications[i].path
  {
    seq(|publications|, i requires 0 <= i < |publications| => publications[i].path)
  }

  function Prefixes(projects: seq<AdoptedProject>): (prefixes: seq<string>)
    ensures |prefixes| == |projects|
    ensures forall i | 0 <= i < |prefixes| :: prefixes[i] == projects[i].prefix
  {
    seq(|projects|, i requires 0 <= i < |projects| => projects[i].prefix)
  }

  ghost predicate NormalizeOk(projects: seq<AdoptedProject>) {
    && projects != []
    && (forall p | p in projects :: CompleteProject(p))
    && Distinct(Prefixes(projects))
    && Distinct(PathsOf(SortedProjects(projects)))
  }

  lemma DistinctPrefix(s: seq<string>, t: seq<string>)
    requires Distinct(s + t)
    ensures Distinct(s)
  {
    assert forall i | 0 <= i < |s| :: (s + t)[i] == s[i];
  }

  /** The inner loop: every path is present, new to the batch, and has objects. */
  method CheckPublications(publications: seq<AdoptedPublication>, earlier: set<string>, ghost paths: seq<string>)
    returns (ok: bool, seenPaths: set<string>)
    requires Distinct(paths) && forall s :: s in earlier <==> s in paths
    ensures ok <==>
            (forall q | q in publications :: q.path != "" && q.objects != []) && Distinct(paths + Paths(publications))
    ensures ok ==> forall s :: s in seenPaths <==> s in paths + Paths(publications)
  {
    hide Distinct;
    seenPaths := earlier;
    assert paths + Paths(publications[..0]) == paths;
    for i := 0 to |publications|
      invariant forall q | q in publications[..i] :: q.path != "" && q.objects != []
      invariant Distinct(paths + Paths(publications[..i]))
      invariant forall s :: s in seenPaths <==> s in paths + Paths(publications[..i])
    {
      var q := publications[i];
      ghost var before := paths + Paths(publications[..i]);
      assert paths + Paths(publications[..i + 1]) == before + [q.path];
      assert publications[..i + 1] == publications[..i] + [q];
      DistinctConcat(before, q.path);
      assert q in publications;
      if q.path == "" {
        return false, seenPaths;
      }
      if q.path in seenPaths {
        assert paths + Paths(publications) == paths + Paths(publications[..i + 1]) + Paths(publications[i + 1..]);
        if Distinct(paths + Paths(publications)) {
          DistinctPrefix(paths + Paths(publications[..i + 1]), Paths(publications[i + 1..]));
        }
        return false, seenPaths;
      }
      seenPaths := seenPaths + {q.path};
      if q.objects == [] {
        return false, seenPaths;
      }
    }
    assert publications[..|publications|] == publications;
    ok := true;
  }

  lemma {:induction false} PathsOfPrefix(projects: seq<AdoptedProject>, n: nat)
    requires n <= |projects| && Distinct(PathsOf(projects))
    ensures Distinct(PathsOf(projects[..n]))
    decreases |projects| - n
  {
    if n < |projects| {
      PathsOfPrefix(projects, n + 1);
      assert projects[..n + 1][..n] == projects[..n];
      DistinctPrefix(PathsOf(projects[..n]), Paths(projects[n].publications));
    } else {
      assert projects[..n] == projects;
    }
  }

  lemma SortedComplete(p: AdoptedProject)
    ensures (forall q | q in SortedProject(p).publications :: q.path != "" && q.objects != [])
            <==> forall q | q in p.publications :: q.path != "" && q.objects != []
  {
    SortByCorrect(PathOf, p.publications);
  }

  // ---- What normalizing accepts and returns, in plain terms ----

  ghost predicate PathsApart(publications: seq<AdoptedPublication>) {
    forall a, b | 0 <= a < b < |publications| :: publications[a].path != publications[b].path
  }

  ghost predicate DisjointPaths(p: AdoptedProject, q: AdoptedProject) {
    forall a, b | a in p.publications && b in q.publications :: a.path != b.path
  }

  /** Nothing is missing, no prefix is declared twice, and no path is, within a project or across two. */
  ghost predicate BatchComplete(projects: seq<AdoptedProject>) {
    && projects != []
    && (forall p | p in projects :: p.prefix != "" && p.publications != [] && PathsApart(p.publications)
          && forall q | q in p.publications :: q.path != "" && q.objects != [])
    && forall i, j | 0 <= i < j < |projects| ::
         projects[i].prefix != projects[j].prefix && DisjointPaths(projects[i], projects[j])
  }

  ghost predicate SameProject(p: AdoptedProject, q: AdoptedProject) {
    p.prefix == q.prefix && p.displayName == q.displayName && multiset(p.publications) == multiset(q.publications)
  }

  /** The same projects by ascending prefix, each with the same publications by ascending path. */
  ghost predicate InOrder(projects: seq<AdoptedProject>, r: seq<AdoptedProject>) {
    && |r| == |projects|
    && (forall i, j | 0 <= i < j < |r| :: Less(r[i].prefix, r[j].prefix))
    && (forall p | p in r :: forall a, b | 0 <= a < b < |p.publications| ::
          Less(p.publications[a].path, p.publications[b].path))
    && (forall p | p in projects :: exists q :: q in r && SameProject(p, q))
    && (forall q | q in r :: exists p :: p in projects && SameProject(p, q))
  }

  lemma ApartByMembers(qs: seq<AdoptedPublication>)
    ensures PathsApart(qs) <==>
      && (forall q | q in qs :: multiset(qs)[q] == 1)
      && forall q, q' | q in qs && q' in qs && q != q' :: q.path != q'.path
  {
    if PathsApart(qs) {
      DistinctIsMultiplicityOne(qs);
    } else {
      var a, b :| 0 <= a < b < |qs| && qs[a].path == qs[b].path;
      if qs[a] == qs[b] { TwiceInSeq(qs, a, b); }
    }
  }

  lemma SortedApart(qs: seq<AdoptedPublication>)
    ensures PathsApart(SortBy(PathOf, qs)) <==> PathsApart(qs)
  {
    hide PathsApart;
    SortByCorrect(PathOf, qs);
    ApartByMembers(qs);
    ApartByMembers(SortBy(PathOf, qs));
  }

  lemma {:induction false} PathsOfMembers(projects: seq<AdoptedProject>, path: string)
    ensures path in PathsOf(projects) <==> exists p, q :: p in projects && q in p.publications && q.path == path
    decreases |projects|
  {
    if projects != [] {
      var n := |projects| - 1;
      PathsOfMembers(projects[..n], path);
      var last := projects[n];
      assert projects == projects[..n] + [last] && last in projects;
      if path in Paths(last.publications) {
        var i :| 0 <= i < |last.publications| && Paths(last.publications)[i] == path;
        assert last.publications[i] in last.publications;
      }
      if q :| q in last.publications && q.path == path {
        var i :| 0 <= i < |last.publications| && last.publications[i] == q;
        assert Paths(last.publications)[i] == path;
      }
    }
  }

  lemma DistinctSplit(s: seq<string>, t: seq<string>)
    ensures Distinct(s + t) <==> Distinct(s) && Distinct(t) && forall x | x in t :: x !in s
  {
    if Distinct(s + t) {
      assert forall i | 0 <= i < |s| :: (s + t)[i] == s[i];
      assert forall i | 0 <= i < |t| :: (s + t)[|s| + i] == t[i];
    } else if Distinct(s) && Distinct(t) && forall x | x in t :: x !in s {
      DistinctUnion(s, t);
      assert false;
    }
  }

  lemma {:induction false} PathsOfDistinct(projects: seq<AdoptedProject>)
    ensures Distinct(PathsOf(projects)) <==>
      && (forall p | p in projects :: PathsApart(p.publications))
      && forall i, j | 0 <= i < j < |projects| :: DisjointPaths(projects[i], projects[j])
    decreases |projects|
  {
    hide PathsApart, DisjointPaths, Distinct;
    if projects == [] {
      EmptyDistinct();
    } else {
      var n := |projects| - 1;
      var last := projects[n];
      assert projects == projects[..n] + [last] && last in projects;
      PathsOfDistinct(projects[..n]);
      DistinctSplit(PathsOf(projects[..n]), Paths(last.publications));
      ApartIsDistinct(last.publications);
      LastDisjoint(projects[..n], last);
      assert forall i | 0 <= i < n :: projects[..n][i] == projects[i] && projects[i] in projects[..n];
    }
  }

  lemma ApartIsDistinct(qs: seq<AdoptedPublication>)
    ensures Distinct(Paths(qs)) <==> PathsApart(qs)
  {}

  lemma PathAt(qs: seq<AdoptedPublication>, path: string)
    ensures path in Paths(qs) <==> exists q :: q in qs && q.path == path
  {
    if q :| q in qs && q.path == path {
      var k :| 0 <= k < |qs| && qs[k] == q;
      assert Paths(qs)[k] == path;
    }
  }

  lemma LastDisjoint(projects: seq<AdoptedProject>, last: AdoptedProject)
    ensures (forall x | x in Paths(last.publications) :: x !in PathsOf(projects))
            <==> forall p | p in projects :: DisjointPaths(p, last)
  {
    hide PathsOf, Paths;
    if forall x | x in Paths(last.publications) :: x !in PathsOf(projects) {
      forall p, a, b | p in projects && a in p.publications && b in last.publications ensures a.path != b.path {
        PathAt(last.publications, b.path);
        PathsOfMembers(projects, b.path);
      }
    }
    if forall p | p in projects :: DisjointPaths(p, last) {
      forall x | x in Paths(last.publications) ensures x !in PathsOf(projects) {
        PathAt(last.publications, x);
        PathsOfMembers(projects, x);
      }
    }
  }

  lemma NormalizeOkExact(projects: seq<AdoptedProject>)
    ensures NormalizeOk(projects) <==> BatchComplete(projects)
  {
    hide PathsApart, DisjointPaths, SortBy;
    var sorted := SortedProjects(projects);
    PathsOfDistinct(sorted);
    forall i | 0 <= i < |projects|
      ensures projects[i] in projects && sorted[i] in sorted
      ensures PathsApart(sorted[i].publications) <==> PathsApart(projects[i].publications)
    {
      SortedApart(projects[i].publications);
    }
    forall i, j | 0 <= i < j < |projects|
      ensures DisjointPaths(sorted[i], sorted[j]) <==> DisjointPaths(projects[i], projects[j])
    {
      SortedDisjoint(projects[i], projects[j]);
    }
  }

  lemma SortedDisjoint(p: AdoptedProject, q: AdoptedProject)
    ensures DisjointPaths(SortedProject(p), SortedProject(q)) <==> DisjointPaths(p, q)
  {
    SortByCorrect(PathOf, p.publications);
    SortByCorrect(PathOf, q.publications);
  }

  lemma NormalizedMembers(projects: seq<AdoptedProject>)
    ensures forall p :: p in Normalized(projects) <==> exists q :: q in projects && p == SortedProject(q)
    ensures |Normalized(projects)| == |projects|
  {
    hide SortedProject;
    var sorted := SortedProjects(projects);
    SortByCorrect(PrefixOf, sorted);
    forall p ensures p in sorted <==> exists q :: q in projects && p == SortedProject(q) {
      if q :| q in projects && p == SortedProject(q) {
        var i :| 0 <= i < |projects| && projects[i] == q;
        assert sorted[i] == p;
      }
      if p in sorted {
        var i :| 0 <= i < |sorted| && sorted[i] == p;
        assert projects[i] in projects;
      }
    }
  }

  lemma NormalizedInOrder(projects: seq<AdoptedProject>)
    requires BatchComplete(projects)
    ensures InOrder(projects, Normalized(projects))
  {
    hide SortBy, DisjointPaths, PathsApart, BatchComplete;
    var r, sorted := Normalized(projects), SortedProjects(projects);
    NormalizedMembers(projects);
    PrefixesApart(projects);
    SortByDistinct(PrefixOf, sorted);
    forall i, j | 0 <= i < j < |r| ensures Less(r[i].prefix, r[j].prefix) {
      assert Less(PrefixOf(r[i]), PrefixOf(r[j]));
    }
    forall p | p in projects ensures SameProject(p, SortedProject(p)) && SortedProject(p) in r {
      SortByCorrect(PathOf, p.publications);
    }
    forall q | q in r
      ensures exists p :: p in projects && SameProject(p, q)
      ensures forall a, b | 0 <= a < b < |q.publications| :: Less(q.publications[a].path, q.publications[b].path)
    {
      var p :| p in projects && q == SortedProject(p);
      SortedPublications(projects, p);
    }
  }

  lemma NormalizeExact(projects: seq<AdoptedProject>)
    ensures NormalizeOk(projects) <==> BatchComplete(projects)
    ensures NormalizeOk(projects) ==> InOrder(projects, Normalized(projects))
  {
    hide BatchComplete, InOrder, Normalized, NormalizeOk;
    NormalizeOkExact(projects);
    if BatchComplete(projects) { NormalizedInOrder(projects); }
  }

  lemma NormalizedIs(projects: seq<AdoptedProject>)
    ensures Normalized(projects) == SortBy(PrefixOf, SortedProjects(projects))
  {}

  lemma PrefixesApart(projects: seq<AdoptedProject>)
    requires BatchComplete(projects)
    ensures forall i, j | 0 <= i < j < |projects| :: projects[i].prefix != projects[j].prefix
  {}

  lemma SortedPublications(projects: seq<AdoptedProject>, p: AdoptedProject)
    requires BatchComplete(projects) && p in projects
    ensures var qs := SortedProject(p).publications;
      forall a, b | 0 <= a < b < |qs| :: Less(qs[a].path, qs[b].path)
  {
    var qs := SortedProject(p).publications;
    SortByDistinct(PathOf, p.publications);
    forall a, b | 0 <= a < b < |qs| ensures Less(qs[a].path, qs[b].path) {
      assert Less(PathOf(qs[a]), PathOf(qs[b]));
    }
  }

  lemma NextPrefix(projects: seq<AdoptedProject>, i: nat)
    requires i < |projects| && Distinct(Prefixes(projects[..i]))
    ensures Prefixes(projects[..i + 1]) == Prefixes(projects[..i]) + [projects[i].prefix]
    ensures Distinct(Prefixes(projects[..i + 1])) <==> projects[i].prefix !in Prefixes(projects[..i])
    ensures projects[i].prefix in Prefixes(projects[..i]) ==> !Distinct(Prefixes(projects))
  {
    hide Distinct;
    assert Prefixes(projects[..i + 1]) == Prefixes(projects[..i]) + [projects[i].prefix];
    DistinctConcat(Prefixes(projects[..i]), projects[i].prefix);
    assert Prefixes(projects) == Prefixes(projects[..i + 1]) + Prefixes(projects[i + 1..]);
    if Distinct(Prefixes(projects)) {
      DistinctPrefix(Prefixes(projects[..i + 1]), Prefixes(projects[i + 1..]));
    }
  }

  method NormalizeBatchProjects(projects: seq<AdoptedProject>) returns (r: Option<seq<AdoptedProject>>)
    ensures r.Some? <==> NormalizeOk(projects)
    ensures r.Some? ==> r.value == Normalized(projects)
    // In plain terms: complete batches only, and then the same batch in order.
    ensures r.Some? <==> BatchComplete(projects)
    ensures r.Some? ==> InOrder(projects, r.value)
  {
    hide Distinct, SortedProject, CompleteProject, BatchComplete, InOrder, Normalized;
    NormalizeExact(projects);
    if |projects| == 0 {
      return None;
    }
    var seenPrefixes: set<string> := {};
    var seenPaths: set<string> := {};
    var normalized: seq<AdoptedProject> := [];
    ghost var sorted := SortedProjects(projects);
    EmptyDistinct();
    for i := 0 to |projects|
      invariant forall p | p in projects[..i] :: CompleteProject(p)
      invariant Distinct(Prefixes(projects[..i])) && Distinct(PathsOf(sorted[..i]))
      invariant forall s :: s in seenPrefixes <==> s in Prefixes(projects[..i])
      invariant forall s :: s in seenPaths <==> s in PathsOf(sorted[..i])
      invariant normalized == sorted[..i]
    {
      var project := projects[i];
      assert project in projects;
      IncompleteProject(project);
      if project.prefix == "" || |project.publications| == 0 {
        return None;
      }
      NextPrefix(projects, i);
      if project.prefix in seenPrefixes {
        return None;
      }
      seenPrefixes := seenPrefixes + {project.prefix};
      var copied := SortedProject(project);
      SortedComplete(project);
      assert sorted[..i + 1][..i] == sorted[..i] && sorted[..i + 1][i] == copied;
      var ok, paths := CheckPublications(copied.publications, seenPaths, PathsOf(sorted[..i]));
      if !ok {
        if Distinct(PathsOf(sorted)) { PathsOfPrefix(sorted, i + 1); }
        return None;
      }
      seenPaths := paths;
      normalized := normalized + [copied];
      assert projects[..i + 1] == projects[..i] + [project];
      assert sorted[..i + 1] == sorted[..i] + [copied];
    }
    assert projects[..|projects|] == projects && sorted[..|projects|] == sorted;
    NormalizedIs(projects);
    r := Some(SortBy(PrefixOf, normalized));
  }

  lemma EmptyDistinct()
    ensures Distinct<string>([])
  {}

  lemma IncompleteProject(p: AdoptedProject)
    ensures CompleteProject(p) <==>
            p.prefix != "" && p.publications != [] && forall q | q in p.publications :: q.path != "" && q.objects != []
  {}

  // ---- The durable result ----

  function PublicationResultOf(p: Placement): PublicationResult {
    PublicationResult(p.publicationId, p.publication.path, p.manifestId,
                      |p.publication.objects|, SumSizes(p.publication.objects))
  }

  function ResultsOf(ps: seq<Placement>): (results: seq<PublicationResult>)
    ensures |results| == |ps|
    ensures forall x | 0 <= x < |ps| :: results[x] == PublicationResultOf(ps[x])
  {
    seq(|ps|, x requires 0 <= x < |ps| => PublicationResultOf(ps[x]))
  }

  function ProjectResults(projects: seq<AdoptedProject>, ids: Ids, n: nat): seq<ProjectResult>
    requires n <= |projects|
  {
    if n == 0 then []
    else ProjectResults(projects, ids, n - 1)
         + [ProjectResult(ids.project(n - 1), projects[n - 1].prefix,
                          ResultsOf(ProjectPlacements(projects, ids, n - 1, |projects[n - 1].publications|)))]
  }

  function ObjectTotal(ps: seq<Placement>): nat {
    if ps == [] then 0 else ObjectTotal(ps[..|ps| - 1]) + |ps[|ps| - 1].publication.objects|
  }

  function SizeTotal(ps: seq<Placement>): int {
    if ps == [] then 0 else SizeTotal(ps[..|ps| - 1]) + SumSizes(ps[|ps| - 1].publication.objects)
  }

  lemma TotalsExtend(ps: seq<Placement>, p: Placement)
    ensures ObjectTotal(ps + [p]) == ObjectTotal(ps) + |p.publication.objects|
    ensures SizeTotal(ps + [p]) == SizeTotal(ps) + SumSizes(p.publication.objects)
  {
    assert (ps + [p])[..|ps|] == ps;
  }

  function ResultOf(operationId: string, projects: seq<AdoptedProject>, ids: Ids): AdoptionResult {
    var ps := Placements(projects, ids, |projects|);
    AdoptionResult(operationId, ObjectTotal(ps), SizeTotal(ps), ProjectResults(projects, ids, |projects|))
  }

  /** The entry for publication j of project i: its own identities, path, and objects counted and summed. */
  ghost predicate NamesPlace(r: PublicationResult, projects: seq<AdoptedProject>, ids: Ids, i: nat, j: nat)
    requires i < |projects| && j < |projects[i].publications|
  {
    && r.publicationId == ids.publication(i, j) && r.manifestId == ids.manifest(i, j)
    && r.path == projects[i].publications[j].path
    && r.objectCount == |projects[i].publications[j].objects|
    && r.acceptedSize == SumSizes(projects[i].publications[j].objects)
  }

  ghost predicate NamesProjectAt(r: ProjectResult, projects: seq<AdoptedProject>, ids: Ids, i: nat)
    requires i < |projects|
  {
    && r.projectId == ids.project(i) && r.prefix == projects[i].prefix
    && |r.publications| == |projects[i].publications|
    && forall j | 0 <= j < |r.publications| :: NamesPlace(r.publications[j], projects, ids, i, j)
  }

  lemma ResultsNamePlaces(projects: seq<AdoptedProject>, ids: Ids, i: nat)
    requires i < |projects|
    ensures var n := |projects[i].publications|;
            var results := ResultsOf(ProjectPlacements(projects, ids, i, n));
            |results| == n && forall j | 0 <= j < n :: NamesPlace(results[j], projects, ids, i, j)
  {
    hide ProjectPlacements, SumSizes;
  }

  /** Every project and publication of the batch has its entry, in order. */
  lemma {:induction false} ProjectResultsNamePlaces(projects: seq<AdoptedProject>, ids: Ids, n: nat)
    requires n <= |projects|
    ensures |ProjectResults(projects, ids, n)| == n
    ensures forall i | 0 <= i < n :: NamesProjectAt(ProjectResults(projects, ids, n)[i], projects, ids, i)
    decreases n
  {
    hide NamesPlace, ResultsOf, ProjectPlacements;
    if n > 0 {
      ProjectResultsNamePlaces(projects, ids, n - 1);
      ResultsNamePlaces(projects, ids, n - 1);
    }
  }

  // ---- Acceptance ----

  ghost predicate Accepted(t: Tables, batch: Batch, ids: Ids) {
    && batch.operationId != "" && batch.operationId !in t.operations
    && NormalizeOk(batch.projects)
    && Insertable(t, Normalized(batch.projects), ids, |Normalized(batch.projects)|)
  }

  function Recorded(batch: Batch, ids: Ids): OperationRow {
    OperationRow(batch.requestHash, batch.planDigest, ResultOf(batch.operationId, Normalized(batch.projects), ids))
  }

  /** Exactly the old tables plus the whole batch plus its operation record. */
  function Committed(t: Tables, batch: Batch, ids: Ids): Tables {
    var projects := Normalized(batch.projects);
    Plus(t, ProjectRows(projects, ids, |projects|), Placements(projects, ids, |projects|), batch.planDigest)
      .(operations := t.operations[batch.operationId := Recorded(batch, ids)])
  }

  lemma {:induction false} PlacementOrigin(projects: seq<AdoptedProject>, ids: Ids, n: nat, p: Placement)
    requires n <= |projects|
    ensures p in Placements(projects, ids, n) <==>
            exists i, j :: 0 <= i < n && 0 <= j < |projects[i].publications| && p == PlacementAt(projects, ids, i, j)
  {
    hide ProjectPlacements;
    if n > 0 {
      var m: nat := n - 1;
      PlacementOrigin(projects, ids, m, p);
      var last := ProjectPlacements(projects, ids, m, |projects[m].publications|);
      if p in last {
        var j :| 0 <= j < |last| && last[j] == p;
        assert p == PlacementAt(projects, ids, m, j);
      }
      if j: nat :| j < |projects[m].publications| && p == PlacementAt(projects, ids, m, j) {
        assert last[j] == p;
      }
    }
  }

  /** The in-transaction precheck of prefixes rejects nothing the constraints would admit. */
  lemma ManagedPrefixRejects(t: Tables, projects: seq<AdoptedProject>, ids: Ids, i: int, id: Id)
    requires 0 <= i < |projects| && id in t.projects && t.projects[id].prefix == projects[i].prefix
    ensures !Insertable(t, projects, ids, |projects|)
  {
    assert !ProjectFits(t, projects, ids, i);
  }

  lemma ManagedPathRejects(t: Tables, projects: seq<AdoptedProject>, ids: Ids, i: int, j: int, id: Id)
    requires 0 <= i < |projects| && 0 <= j < |projects[i].publications|
    requires id in t.publications && t.publications[id].path == projects[i].publications[j].path
    ensures !Insertable(t, projects, ids, |projects|)
  {
    var ps := Placements(projects, ids, |projects|);
    var p := PlacementAt(projects, ids, i, j);
    PlacementOrigin(projects, ids, |projects|, p);
    if AllFit(t, ps) { FitsFresh(t, ps, p); }
  }

  /** Accepting a batch keeps every constraint; in particular the deferred reference resolves. */
  lemma CommittedSchemaOk(t: Tables, batch: Batch, ids: Ids)
    requires SchemaOk(t) && Accepted(t, batch, ids)
    ensures SchemaOk(Committed(t, batch, ids))
    ensures DeferredOk(Committed(t, batch, ids))
  {
    hide AllFit, NormalizeOk, Normalized, ResultOf, ProjectFits, PublicationRows, ManifestRows, ObjectRows;
    var projects := Normalized(batch.projects);
    var n := |projects|;
    var pr, ps := ProjectRows(projects, ids, n), Placements(projects, ids, n);
    PlusSchemaOk(t, projects, ids, pr, ps, batch.planDigest);
    SameRowsSchemaOk(Plus(t, pr, ps, batch.planDigest), Committed(t, batch, ids));
  }

  lemma SameRowsSchemaOk(u: Tables, v: Tables)
    requires SchemaOk(u)
    requires v.projects == u.projects && v.publications == u.publications && v.manifests == u.manifests
             && v.objects == u.objects
    ensures SchemaOk(v) && DeferredOk(v)
  {}

  lemma PlusSchemaOk(t: Tables, projects: seq<AdoptedProject>, ids: Ids, pr: map<Id, ProjectRow>, ps: seq<Placement>,
                     digest: Digest)
    requires SchemaOk(t) && Insertable(t, projects, ids, |projects|)
    requires pr == ProjectRows(projects, ids, |projects|) && ps == Placements(projects, ids, |projects|)
    ensures SchemaOk(Plus(t, pr, ps, digest))
  {
    hide *;
    PlusGrown(t, projects, ids, pr, ps, digest);
    InsertableParts(t, projects, ids);
    var u := Plus(t, pr, ps, digest);
    ProjectsOk(t, projects, ids, u);
    PublicationsOk(t, projects, ids, u, ps, digest);
    ManifestsAndObjectsOk(t, ps, u, digest);
    CurrentManifestsResolve(t, ps, u, digest);
    SchemaParts(u);
  }

  lemma InsertableParts(t: Tables, projects: seq<AdoptedProject>, ids: Ids)
    requires SchemaOk(t) && Insertable(t, projects, ids, |projects|)
    ensures RowsOk(t) && CurrentManifestsOk(t) && AllFit(t, Placements(projects, ids, |projects|))
    ensures forall i | 0 <= i < |projects| :: ProjectFits(t, projects, ids, i)
  {}

  /** The old rows unchanged, and one set of rows per placement. */
  ghost predicate Grown(t: Tables, u: Tables, ps: seq<Placement>, digest: Digest) {
    && (forall id | id in t.publications :: id in u.publications && u.publications[id] == t.publications[id])
    && (forall q | q in ps :: q.publicationId in u.publications && u.publications[q.publicationId] == RowOf(q))
    && (forall id | id in u.publications :: id in t.publications || exists q :: q in ps && q.publicationId == id)
    && (forall id | id in t.manifests :: id in u.manifests && u.manifests[id] == t.manifests[id])
    && (forall q | q in ps ::
      q.manifestId in u.manifests && u.manifests[q.manifestId] == ManifestRow(q.publicationId, digest))
    && (forall id | id in u.manifests :: id in t.manifests || exists q :: q in ps && q.manifestId == id)
    && u.objects == t.objects + ObjectRows(ps)
  }

  /** The old projects unchanged, and one row per declared project. */
  ghost predicate HoldsProjects(t: Tables, u: Tables, projects: seq<AdoptedProject>, ids: Ids) {
    && (forall id | id in t.projects :: id in u.projects && u.projects[id] == t.projects[id])
    && (forall i | 0 <= i < |projects| :: ids.project(i) in u.projects
          && u.projects[ids.project(i)] == ProjectRow(projects[i].prefix, projects[i].displayName))
    && (forall id | id in u.projects :: id in t.projects || exists i :: 0 <= i < |projects| && ids.project(i) == id)
  }

  lemma PlusGrown(t: Tables, projects: seq<AdoptedProject>, ids: Ids, pr: map<Id, ProjectRow>, ps: seq<Placement>,
                  digest: Digest)
    requires Insertable(t, projects, ids, |projects|)
    requires pr == ProjectRows(projects, ids, |projects|) && ps == Placements(projects, ids, |projects|)
    ensures Grown(t, Plus(t, pr, ps, digest), ps, digest)
    ensures HoldsProjects(t, Plus(t, pr, ps, digest), projects, ids)
  {
    hide AllFit, ProjectFits, PublicationRows, ManifestRows, ObjectRows, ProjectRows;
    PlusProjects(t, projects, ids, |projects|);
    PlusPublications(t, pr, ps, digest);
    PlusManifests(t, pr, ps, digest);
  }

  lemma SchemaParts(u: Tables)
    requires ProjectRowsOk(u.projects) && PublicationRowsOk(u) && ManifestRowsOk(u) && CurrentManifestsOk(u)
    ensures SchemaOk(u)
  {}

  ghost predicate ManifestRowsOk(u: Tables) {
    && (forall id | id in u.manifests :: |id| == ID_LENGTH && u.manifests[id].publicationId in u.publications)
    && (forall mk | mk in u.objects :: mk.0 in u.manifests && u.objects[mk].key == mk.1 && u.objects[mk].size >= 0)
  }

  ghost predicate ProjectRowsOk(projects: map<Id, ProjectRow>) {
    && (forall id | id in projects :: |id| == ID_LENGTH)
    && (forall id, id' | id in projects && id' in projects && projects[id].prefix == projects[id'].prefix :: id == id')
  }

  lemma ProjectsOk(t: Tables, projects: seq<AdoptedProject>, ids: Ids, u: Tables)
    requires RowsOk(t) && forall i | 0 <= i < |projects| :: ProjectFits(t, projects, ids, i)
    requires HoldsProjects(t, u, projects, ids)
    ensures ProjectRowsOk(u.projects)
  {
    var whole := u.projects;
    forall id | id in whole ensures |id| == ID_LENGTH {
      if id !in t.projects {
        var i :| 0 <= i < |projects| && ids.project(i) == id;
        assert ProjectFits(t, projects, ids, i);
      }
    }
    forall id, i | id in t.projects && 0 <= i < |projects| ensures t.projects[id].prefix != projects[i].prefix {
      assert ProjectFits(t, projects, ids, i);
    }
    forall id, id' | id in whole && id' in whole && whole[id].prefix == whole[id'].prefix ensures id == id' {
      if id !in t.projects {
        var i :| 0 <= i < |projects| && ids.project(i) == id;
        assert ProjectFits(t, projects, ids, i);
        if id' !in t.projects {
          var j :| 0 <= j < |projects| && ids.project(j) == id';
          assert ProjectFits(t, projects, ids, j);
        }
      }
    }
  }

  ghost predicate PublicationRowsOk(t: Tables) {
    && (forall id | id in t.publications ::
          |id| == ID_LENGTH && t.publications[id].projectId in t.projects && !t.publications[id].routingMode.OtherMode?)
    && (forall id, id' | id in t.publications && id' in t.publications
      && t.publications[id].path == t.publications[id'].path :: id == id')
  }

  lemma PublicationsOk(t: Tables, projects: seq<AdoptedProject>, ids: Ids, u: Tables, ps: seq<Placement>,
                       digest: Digest)
    requires RowsOk(t) && ps == Placements(projects, ids, |projects|) && AllFit(t, ps)
    requires HoldsProjects(t, u, projects, ids)
    requires Grown(t, u, ps, digest)
    ensures PublicationRowsOk(u)
  {
    hide AllFit;
    forall id | id in u.publications
      ensures |id| == ID_LENGTH && u.publications[id].projectId in u.projects
              && !u.publications[id].routingMode.OtherMode?
    {
      if id !in t.publications {
        var q :| q in ps && q.publicationId == id;
        FitsFresh(t, ps, q);
        PlacementOrigin(projects, ids, |projects|, q);
      }
    }
    forall id, id' | id in u.publications && id' in u.publications
           && u.publications[id].path == u.publications[id'].path
      ensures id == id'
    {
      if id !in t.publications {
        var q :| q in ps && q.publicationId == id;
        FitsFresh(t, ps, q);
        if id' !in t.publications {
          var q' :| q' in ps && q'.publicationId == id';
          if q != q' { PlacementsApart(t, ps, q, q'); }
        }
      } else if id' !in t.publications {
        var q' :| q' in ps && q'.publicationId == id';
        FitsFresh(t, ps, q');
      }
    }
  }

  lemma ManifestsAndObjectsOk(t: Tables, ps: seq<Placement>, u: Tables, digest: Digest)
    requires SchemaOk(t) && AllFit(t, ps)
    requires Grown(t, u, ps, digest)
    ensures ManifestRowsOk(u)
  {
    hide AllFit, ObjectRows;
    forall id | id in u.manifests ensures |id| == ID_LENGTH && u.manifests[id].publicationId in u.publications {
      if id !in t.manifests {
        var q :| q in ps && q.manifestId == id;
        FitsFresh(t, ps, q);
      }
    }
    AddedObjectsOk(t, ps);
  }

  /** Every current manifest resolves, and to a manifest of that very publication. */
  lemma CurrentManifestsResolve(t: Tables, ps: seq<Placement>, u: Tables, digest: Digest)
    requires CurrentManifestsOk(t)
    requires Grown(t, u, ps, digest)
    ensures CurrentManifestsOk(u)
  {
    forall id | id in u.publications
      ensures u.publications[id].currentManifest in u.manifests
              && u.manifests[u.publications[id].currentManifest].publicationId == id
    {
      if id !in t.publications {
        var q :| q in ps && q.publicationId == id;
      }
    }
  }

  lemma AddedObjectsOk(t: Tables, ps: seq<Placement>)
    requires AllFit(t, ps)
    ensures forall mk | mk in ObjectRows(ps) ::
      && (exists q :: q in ps && q.manifestId == mk.0)
      && ObjectRows(ps)[mk].key == mk.1 && ObjectRows(ps)[mk].size >= 0
  {
    hide AllFit;
    forall mk | mk in ObjectRows(ps)
      ensures (exists q :: q in ps && q.manifestId == mk.0)
              && ObjectRows(ps)[mk].key == mk.1 && ObjectRows(ps)[mk].size >= 0
    {
      ObjectRowsKeys(ps, mk);
      var q, o :| q in ps && q.manifestId == mk.0 && o in q.publication.objects && o.key == mk.1
          && ObjectRows(ps)[mk] == o;
      FitsFresh(t, ps, q);
    }
  }
}

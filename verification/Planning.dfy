/**
 Planning a declaration against observed storage and public routes
 (internal/adoption/plan.go).
 */
module Planning {
  import opened Text
  import opened Storage
  import opened Declarations

  datatype ProbeObservation = ProbeObservation(status: int, contentType: string, bodySha256: string)

  datatype PlannedProbe = PlannedProbe(
    path: string, url: string, expectStatus: int, observedStatus: int, contentType: string, bodySha256: string)

  datatype PlannedPublication = PlannedPublication(
    project: ProjectDeclaration, path: string, displayName: string, entryPoint: string,
    routingMode: RoutingMode, canonicalURL: string, contentChangedAt: Time,
    objects: seq<ManifestObject>, probes: seq<PlannedProbe>)

  datatype PlanContent = PlanContent(
    version: int, publicBaseURL: string, declaration: Declaration, publications: seq<PlannedPublication>)

  /** SHA-256 over the canonical encoding, taken to be free of collisions. */
  datatype Digest = DigestOf(content: PlanContent)

  datatype Plan = Plan(content: PlanContent, digest: Digest) {
    predicate Verify() { digest == DigestOf(content) }
  }

  /**
   The read-only seams of one planning pass. A valid declaration requests every
   object key and every probe URL once, so answers may be given per key and URL.
   */
  datatype World = World(
    list: Response<seq<ObjectListing>>,
    read: string -> Response<ObjectContent>,
    probe: string -> Response<ProbeObservation>,
    normalizeBaseURL: string -> Response<string>)

  datatype PlanError =
    | BadBaseURL | InvalidDeclaration | ListFailed(error: StorageError) | UnexpectedObjects
    | MissingObject(key: string) | ReadFailed(key: string, error: StorageError)
    | ProbeFailed(url: string) | ProbeStatus(url: string, status: int)

  // ---- What a plan holds ----

  function Modified(listed: ObjectListing, content: ObjectContent): Time {
    if content.meta.lastModified == ZERO_TIME then listed.lastModified else content.meta.lastModified
  }

  function PlannedObject(path: string, key: string, listed: ObjectListing, content: ObjectContent): ManifestObject {
    ManifestObject(key, RelativePath(path, key), content.size, content.meta.etag, Truncate(Modified(listed, content)),
                   content.meta.contentType, content.meta.contentEncoding, content.meta.cacheControl,
                   content.meta.userMetadata, content.sha256)
  }

  function DisplayNameOr(p: PublicationDeclaration): string {
    if !Blank(p.displayName) then p.displayName
    else if p.path == p.project.prefix then p.project.prefix
    else LastSegment(p.path)
  }

  function ProbeKey(probe: PlannedProbe): string { probe.path }

  function PlanProbe(probe: RouteProbe, url: string, seen: ProbeObservation): PlannedProbe {
    PlannedProbe(probe.path, url, probe.expectStatus, seen.status, seen.contentType, seen.bodySha256)
  }

  ghost predicate Readable(world: World, observed: Observed, key: string) {
    key in observed && world.read(key).Ok?
  }

  ghost predicate Probed(world: World, base: string, p: PublicationDeclaration, probe: RouteProbe) {
    var seen := world.probe(DeclaredProbeURL(base, p, probe));
    seen.Ok? && seen.value.status == probe.expectStatus
  }

  ghost predicate Plannable(world: World, base: string, observed: Observed, p: PublicationDeclaration) {
    && (forall key | key in p.objects :: Readable(world, observed, key))
    && (forall probe | probe in p.probes :: Probed(world, base, p, probe))
  }

  /** One planned object per declared key, in declared order. */
  ghost function ObjectsFor(world: World, observed: Observed, path: string,
                            keys: seq<string>): (objects: seq<ManifestObject>)
    requires forall key | key in keys :: Readable(world, observed, key)
    ensures |objects| == |keys|
    ensures forall i | 0 <= i < |keys| ::
      Readable(world, observed, keys[i])
        && objects[i] == PlannedObject(path, keys[i], observed[keys[i]], world.read(keys[i]).value)
  {
    if keys == [] then []
    else
      var n := |keys| - 1;
      assert forall i | 0 <= i < n :: keys[..n][i] == keys[i];
      assert Readable(world, observed, keys[n]);
      ObjectsFor(world, observed, path, keys[..n])
      + [PlannedObject(path, keys[n], observed[keys[n]], world.read(keys[n]).value)]
  }

  ghost function ProbesFor(world: World, base: string, p: PublicationDeclaration,
                           probes: seq<RouteProbe>): (planned: seq<PlannedProbe>)
    requires forall probe | probe in probes :: Probed(world, base, p, probe)
    ensures |planned| == |probes|
    ensures forall i | 0 <= i < |probes| ::
      && Probed(world, base, p, probes[i])
      && planned[i] ==
        PlanProbe(probes[i], DeclaredProbeURL(base, p, probes[i]),
                  world.probe(DeclaredProbeURL(base, p, probes[i])).value)
  {
    if probes == [] then []
    else
      var n := |probes| - 1;
      assert forall i | 0 <= i < n :: probes[..n][i] == probes[i];
      assert Probed(world, base, p, probes[n]);
      var url := DeclaredProbeURL(base, p, probes[n]);
      ProbesFor(world, base, p, probes[..n]) + [PlanProbe(probes[n], url, world.probe(url).value)]
  }

  /** The newest modification time, never before the zero time. */
  ghost function Newest(world: World, observed: Observed, keys: seq<string>): Time
    requires forall key | key in keys :: Readable(world, observed, key)
  {
    if keys == [] then ZERO_TIME
    else
      var n := |keys| - 1;
      assert forall i | 0 <= i < n :: keys[..n][i] == keys[i];
      assert Readable(world, observed, keys[n]);
      var earlier := Newest(world, observed, keys[..n]);
      var modified := Modified(observed[keys[n]], world.read(keys[n]).value);
      if modified > earlier then modified else earlier
  }

  ghost function PlannedOf(world: World, base: string, observed: Observed,
                           p: PublicationDeclaration): PlannedPublication
    requires Plannable(world, base, observed, p)
  {
    PlannedPublication(
      p.project, p.path, DisplayNameOr(p), p.entryPoint, p.routingMode,
      CanonicalURL(base, p.path, p.entryPoint, p.routingMode),
      Truncate(Newest(world, observed, p.objects)),
      SortBy(ObjectKey, ObjectsFor(world, observed, p.path, p.objects)),
      SortBy(ProbeKey, ProbesFor(world, base, p, p.probes)))
  }

  ghost function PlannedAll(world: World, base: string, observed: Observed,
                            ps: seq<PublicationDeclaration>): (planned: seq<PlannedPublication>)
    requires forall p | p in ps :: Plannable(world, base, observed, p)
    ensures |planned| == |ps|
    ensures forall i | 0 <= i < |ps| ::
      Plannable(world, base, observed, ps[i]) && planned[i] == PlannedOf(world, base, observed, ps[i])
  {
    if ps == [] then []
    else
      var n := |ps| - 1;
      assert forall i | 0 <= i < n :: ps[..n][i] == ps[i];
      PlannedAll(world, base, observed, ps[..n]) + [PlannedOf(world, base, observed, ps[n])]
  }

  /** Planning succeeds: everything listed is declared, and everything declared is readable and served as expected. */
  ghost predicate PlanSucceeds(world: World, baseURL: string, d: Declaration) {
    && world.normalizeBaseURL(baseURL).Ok?
    && ValidDeclaration(d)
    && world.list.Ok?
    && var observed := ObservedOf(world.list.value);
       observed.Keys <= DeclaredKeys(d.publications)
       && forall p | p in d.publications :: Plannable(world, world.normalizeBaseURL(baseURL).value, observed, p)
  }

  ghost function PlannedContent(world: World, baseURL: string, d: Declaration): PlanContent
    requires PlanSucceeds(world, baseURL, d)
  {
    var base := world.normalizeBaseURL(baseURL).value;
    PlanContent(1, base, d, PlannedAll(world, base, ObservedOf(world.list.value), d.publications))
  }

  // ---- Why planning fails ----

  /** An exact file is addressed by its entry point, everything else by its path. */
  function Address(baseURL: string, p: PublicationDeclaration): string {
    baseURL + "/" + (if p.routingMode.ExactFile? && p.entryPoint != "" then p.entryPoint else p.path)
  }

  function ProbeAddress(baseURL: string, p: PublicationDeclaration, probe: RouteProbe): string {
    Address(baseURL, p) + (if probe.path == "" then "" else "/" + probe.path)
  }

  lemma AddressExact(base: string, p: PublicationDeclaration, probe: RouteProbe)
    ensures CanonicalURL(base, p.path, p.entryPoint, p.routingMode) == Address(base, p)
    ensures DeclaredProbeURL(base, p, probe) == ProbeAddress(base, p, probe)
  {}

  /** The first key that is not listed or not readable. */
  ghost predicate ObjectFailure(world: World, observed: Observed, keys: seq<string>, k: int, error: PlanError) {
    && 0 <= k < |keys|
    && (forall x | 0 <= x < k :: keys[x] in observed && world.read(keys[x]).Ok?)
    && if keys[k] !in observed then error == MissingObject(keys[k])
       else world.read(keys[k]).Err? && error == ReadFailed(keys[k], world.read(keys[k]).error)
  }

  /** The route answers with the declared status. */
  ghost predicate Answers(world: World, base: string, p: PublicationDeclaration, probe: RouteProbe) {
    var seen := world.probe(ProbeAddress(base, p, probe));
    seen.Ok? && seen.value.status == probe.expectStatus
  }

  /** The first probe that fails or answers with another status. */
  ghost predicate ProbeFailure(world: World, base: string, p: PublicationDeclaration, k: int, error: PlanError) {
    && 0 <= k < |p.probes|
    && (forall x | 0 <= x < k :: Answers(world, base, p, p.probes[x]))
    && var url := ProbeAddress(base, p, p.probes[k]);
       if world.probe(url).Err? then error == ProbeFailed(url)
       else world.probe(url).value.status != p.probes[k].expectStatus
            && error == ProbeStatus(url, world.probe(url).value.status)
  }

  /** All objects are planned before the first probe is sent. */
  ghost predicate PublicationFailure(world: World, base: string, observed: Observed, p: PublicationDeclaration,
                                     error: PlanError) {
    || (exists k :: ObjectFailure(world, observed, p.objects, k, error))
    || ((forall key | key in p.objects :: key in observed && world.read(key).Ok?)
        && exists k :: ProbeFailure(world, base, p, k, error))
  }

  ghost predicate Complete(world: World, base: string, observed: Observed, p: PublicationDeclaration) {
    && (forall key | key in p.objects :: key in observed && world.read(key).Ok?)
    && (forall probe | probe in p.probes :: Answers(world, base, p, probe))
  }

  /** The first publication in declared order that is not complete. */
  ghost predicate PublicationsFailure(world: World, base: string, observed: Observed, ps: seq<PublicationDeclaration>,
                                      i: int, error: PlanError) {
    && 0 <= i < |ps| && (forall x | 0 <= x < i :: Complete(world, base, observed, ps[x]))
    && PublicationFailure(world, base, observed, ps[i], error)
  }

  /** The checks in their order: each is reported only when all before it passed. */
  ghost predicate PlanFails(world: World, baseURL: string, d: Declaration, error: PlanError) {
    if world.normalizeBaseURL(baseURL).Err? then error == BadBaseURL
    else if !ValidDeclaration(d) then error == InvalidDeclaration
    else if world.list.Err? then error == ListFailed(world.list.error)
    else if exists key :: key in Keys(world.list.value) && forall p | p in d.publications :: key !in p.objects
    then error == UnexpectedObjects
    else exists i ::
      PublicationsFailure(world, world.normalizeBaseURL(baseURL).value, ObservedOf(world.list.value), d.publications, i,
                          error)
  }

  lemma CompleteIsPlannable(world: World, base: string, observed: Observed, p: PublicationDeclaration)
    ensures Complete(world, base, observed, p) <==> Plannable(world, base, observed, p)
  {
    hide DeclaredProbeURL, ProbeAddress;
    forall probe | probe in p.probes ensures Answers(world, base, p, probe) <==> Probed(world, base, p, probe) {
      AddressExact(base, p, probe);
    }
  }

  // ---- The planning loops ----

  method PlanObjects(world: World, observed: Observed, p: PublicationDeclaration)
    returns (r: Result<seq<ManifestObject>, PlanError>, newest: Time)
    ensures r.Ok? <==> forall key | key in p.objects :: Readable(world, observed, key)
    ensures r.Ok? ==> r.value == ObjectsFor(world, observed, p.path, p.objects)
    ensures r.Ok? ==> newest == Newest(world, observed, p.objects)
    ensures r.Err? ==> exists k :: ObjectFailure(world, observed, p.objects, k, r.error)
  {
    var objects: seq<ManifestObject> := [];
    newest := ZERO_TIME;
    for i := 0 to |p.objects|
      invariant forall key | key in p.objects[..i] :: Readable(world, observed, key)
      invariant objects == ObjectsFor(world, observed, p.path, p.objects[..i])
      invariant newest == Newest(world, observed, p.objects[..i])
    {
      var key := p.objects[i];
      assert key in p.objects;
      if key !in observed {
        assert !Readable(world, observed, key);
        FirstObject(world, observed, p.objects, i, MissingObject(key));
        return Err(MissingObject(key)), newest;
      }
      var content := world.read(key);
      if content.Err? {
        assert !Readable(world, observed, key);
        FirstObject(world, observed, p.objects, i, ReadFailed(key, content.error));
        return Err(ReadFailed(key, content.error)), newest;
      }
      var modified := Modified(observed[key], content.value);
      if modified > newest {
        newest := modified;
      }
      assert p.objects[..i + 1] == p.objects[..i] + [key];
      assert p.objects[..i + 1][..i] == p.objects[..i];
      objects := objects + [PlannedObject(p.path, key, observed[key], content.value)];
    }
    assert p.objects[..|p.objects|] == p.objects;
    r := Ok(objects);
  }

  lemma FirstObject(world: World, observed: Observed, keys: seq<string>, k: nat, error: PlanError)
    requires k < |keys| && forall key | key in keys[..k] :: Readable(world, observed, key)
    requires if keys[k] !in observed then error == MissingObject(keys[k])
      else world.read(keys[k]).Err? && error == ReadFailed(keys[k], world.read(keys[k]).error)
    ensures ObjectFailure(world, observed, keys, k, error)
  {
    forall x | 0 <= x < k ensures keys[x] in observed && world.read(keys[x]).Ok? {
      assert keys[..k][x] == keys[x] && Readable(world, observed, keys[x]);
    }
  }

  lemma FirstProbe(world: World, base: string, p: PublicationDeclaration, k: nat, error: PlanError)
    requires k < |p.probes| && forall probe | probe in p.probes[..k] :: Probed(world, base, p, probe)
    requires var url := DeclaredProbeURL(base, p, p.probes[k]);
      if world.probe(url).Err? then error == ProbeFailed(url)
      else world.probe(url).value.status != p.probes[k].expectStatus
           && error == ProbeStatus(url, world.probe(url).value.status)
    ensures ProbeFailure(world, base, p, k, error)
  {
    hide DeclaredProbeURL, ProbeAddress;
    AddressExact(base, p, p.probes[k]);
    forall x | 0 <= x < k ensures Answers(world, base, p, p.probes[x]) {
      AddressExact(base, p, p.probes[x]);
      assert p.probes[..k][x] == p.probes[x] && Probed(world, base, p, p.probes[x]);
    }
  }

  method PlanProbes(world: World, base: string, p: PublicationDeclaration)
    returns (r: Result<seq<PlannedProbe>, PlanError>)
    ensures r.Ok? <==> forall probe | probe in p.probes :: Probed(world, base, p, probe)
    ensures r.Ok? ==> r.value == ProbesFor(world, base, p, p.probes)
    ensures r.Err? ==> exists k :: ProbeFailure(world, base, p, k, r.error)
  {
    var canonical := CanonicalURL(base, p.path, p.entryPoint, p.routingMode);
    var probes: seq<PlannedProbe> := [];
    for i := 0 to |p.probes|
      invariant forall probe | probe in p.probes[..i] :: Probed(world, base, p, probe)
      invariant probes == ProbesFor(world, base, p, p.probes[..i])
    {
      var probe := p.probes[i];
      assert probe in p.probes;
      var url := ProbeURL(canonical, probe.path);
      assert url == DeclaredProbeURL(base, p, probe);
      var observation := world.probe(url);
      if observation.Err? {
        assert !Probed(world, base, p, probe);
        FirstProbe(world, base, p, i, ProbeFailed(url));
        return Err(ProbeFailed(url));
      }
      if observation.value.status != probe.expectStatus {
        assert !Probed(world, base, p, probe);
        FirstProbe(world, base, p, i, ProbeStatus(url, observation.value.status));
        return Err(ProbeStatus(url, observation.value.status));
      }
      assert p.probes[..i + 1] == p.probes[..i] + [probe];
      assert p.probes[..i + 1][..i] == p.probes[..i];
      probes := probes + [PlanProbe(probe, url, observation.value)];
    }
    assert p.probes[..|p.probes|] == p.probes;
    r := Ok(probes);
  }

  method PlanPublication(world: World, base: string, observed: Observed, p: PublicationDeclaration)
    returns (r: Result<PlannedPublication, PlanError>)
    ensures r.Ok? <==> Plannable(world, base, observed, p)
    ensures r.Ok? ==> r.value == PlannedOf(world, base, observed, p)
    ensures r.Err? ==> PublicationFailure(world, base, observed, p, r.error)
  {
    hide ObjectFailure, ProbeFailure, DeclaredProbeURL;
    var objects, newest := PlanObjects(world, observed, p);
    if objects.Err? {
      return Err(objects.error);
    }
    var probes := PlanProbes(world, base, p);
    if probes.Err? {
      return Err(probes.error);
    }
    r := Ok(PlannedPublication(
      p.project, p.path, DisplayNameOr(p), p.entryPoint, p.routingMode,
      CanonicalURL(base, p.path, p.entryPoint, p.routingMode), Truncate(newest),
      SortBy(ObjectKey, objects.value), SortBy(ProbeKey, probes.value)));
  }

  method PlanPublications(world: World, base: string, observed: Observed, ps: seq<PublicationDeclaration>)
    returns (r: Result<seq<PlannedPublication>, PlanError>)
    ensures r.Ok? <==> forall p | p in ps :: Plannable(world, base, observed, p)
    ensures r.Ok? ==> r.value == PlannedAll(world, base, observed, ps)
    ensures r.Err? ==> exists i :: PublicationsFailure(world, base, observed, ps, i, r.error)
  {
    hide Plannable, PlannedOf, PublicationFailure, Complete;
    var publications: seq<PlannedPublication> := [];
    for i := 0 to |ps|
      invariant forall p | p in ps[..i] :: Plannable(world, base, observed, p)
      invariant publications == PlannedAll(world, base, observed, ps[..i])
    {
      assert ps[i] in ps;
      var planned := PlanPublication(world, base, observed, ps[i]);
      if planned.Err? {
        forall x | 0 <= x < i ensures Complete(world, base, observed, ps[x]) {
          assert ps[..i][x] == ps[x];
          CompleteIsPlannable(world, base, observed, ps[x]);
        }
        assert PublicationsFailure(world, base, observed, ps, i, planned.error);
        return Err(planned.error);
      }
      assert ps[..i + 1] == ps[..i] + [ps[i]];
      assert ps[..i + 1][..i] == ps[..i];
      publications := publications + [planned.value];
    }
    assert ps[..|ps|] == ps;
    r := Ok(publications);
  }

  method CheckNoUnexpectedObjects(observed: Observed, d: Declaration) returns (ok: bool)
    ensures ok <==> observed.Keys <= DeclaredKeys(d.publications)
  {
    var declared: set<string> := {};
    for i := 0 to |d.publications|
      invariant declared == DeclaredKeys(d.publications[..i])
    {
      var objects := d.publications[i].objects;
      ghost var before := declared;
      for j := 0 to |objects|
        invariant declared == before + (set key | key in objects[..j])
      {
        assert objects[..j + 1] == objects[..j] + [objects[j]];
        declared := declared + {objects[j]};
      }
      assert objects[..|objects|] == objects;
      assert d.publications[..i + 1] == d.publications[..i] + [d.publications[i]];
      DeclaredKeysExtend(d.publications[..i], d.publications[i]);
    }
    assert d.publications[..|d.publications|] == d.publications;
    var unexpected: seq<string> := [];
    var pending := observed.Keys;
    while pending != {}
      invariant pending <= observed.Keys
      invariant forall key :: key in unexpected <==> key in observed.Keys - pending && key !in declared
      decreases pending
    {
      var key :| key in pending;
      if key !in declared {
        unexpected := unexpected + [key];
      }
      pending := pending - {key};
    }
    if |unexpected| > 0 {
      assert unexpected[0] in unexpected;
    }
    ok := |unexpected| == 0;
  }

  lemma UndeclaredExactly(listing: seq<ObjectListing>, d: Declaration)
    ensures ObservedOf(listing).Keys <= DeclaredKeys(d.publications) <==>
        !exists key :: key in Keys(listing) && forall p | p in d.publications :: key !in p.objects
  {
    hide ObservedOf, Keys;
    forall key ensures key in DeclaredKeys(d.publications) <==> exists p :: p in d.publications && key in p.objects {
      if key in DeclaredKeys(d.publications) {
        var i :| 0 <= i < |d.publications| && key in d.publications[i].objects;
        assert d.publications[i] in d.publications;
      }
    }
  }

  method BuildPlan(world: World, baseURL: string, d: Declaration) returns (r: Result<Plan, PlanError>)
    ensures r.Ok? <==> PlanSucceeds(world, baseURL, d)
    ensures r.Ok? ==> r.value.content == PlannedContent(world, baseURL, d) && r.value.Verify()
    ensures r.Err? ==> PlanFails(world, baseURL, d, r.error)
  {
    hide Plannable, PlannedAll, ValidDeclaration, DeclaredKeys, ObservedOf, PublicationsFailure, Keys;
    var normalized := world.normalizeBaseURL(baseURL);
    if normalized.Err? {
      return Err(BadBaseURL);
    }
    var valid := Validate(d);
    if !valid {
      return Err(InvalidDeclaration);
    }
    if world.list.Err? {
      return Err(ListFailed(world.list.error));
    }
    var observed := CollectObserved(world.list.value);
    UndeclaredExactly(world.list.value, d);
    var expected := CheckNoUnexpectedObjects(observed, d);
    if !expected {
      return Err(UnexpectedObjects);
    }
    var publications := PlanPublications(world, normalized.value, observed, d.publications);
    if publications.Err? {
      return Err(publications.error);
    }
    var content := PlanContent(1, normalized.value, d, publications.value);
    r := Ok(Plan(content, DigestOf(content)));
  }

  // ---- What a successful plan means ----

  /** A planned publication holds each declared key once, in key order, exactly as observed. */
  lemma PlannedObjectsExact(world: World, base: string, observed: Observed, p: PublicationDeclaration)
    requires Plannable(world, base, observed, p) && Distinct(p.objects)
    ensures Ascending(ObjectKeys(PlannedOf(world, base, observed, p).objects))
    ensures forall o | o in PlannedOf(world, base, observed, p).objects ::
      && o.key in p.objects && Readable(world, observed, o.key)
      && o == PlannedObject(p.path, o.key, observed[o.key], world.read(o.key).value)
    ensures forall key :: key in ObjectKeys(PlannedOf(world, base, observed, p).objects) <==> key in p.objects
    ensures |PlannedOf(world, base, observed, p).objects| == |p.objects|
  {
    var raw := ObjectsFor(world, observed, p.path, p.objects);
    var sorted := SortBy(ObjectKey, raw);
    SortByCorrect(ObjectKey, raw);
    SortByDistinct(ObjectKey, raw);
    forall i, j | 0 <= i < j < |sorted| ensures Less(ObjectKeys(sorted)[i], ObjectKeys(sorted)[j]) {
      assert Less(ObjectKey(sorted[i]), ObjectKey(sorted[j]));
    }
    forall o | o in sorted
      ensures o.key in p.objects && Readable(world, observed, o.key)
              && o == PlannedObject(p.path, o.key, observed[o.key], world.read(o.key).value)
    {
      var i :| 0 <= i < |raw| && raw[i] == o;
      assert o.key == p.objects[i];
    }
    forall key ensures key in ObjectKeys(sorted) <==> key in p.objects {
      ObjectKeyAt(sorted, key);
      if key in p.objects {
        var i :| 0 <= i < |p.objects| && p.objects[i] == key;
        assert raw[i] in sorted && raw[i].key == key;
      }
    }
  }

  ghost predicate PlansKey(content: PlanContent, i: int, j: int, key: string) {
    0 <= i < |content.publications| && 0 <= j < |content.publications[i].objects|
    && content.publications[i].objects[j].key == key
  }

  /** The i-th planned publication against the i-th declared one. */
  lemma PlannedPublicationExact(world: World, baseURL: string, d: Declaration, i: int)
    requires PlanSucceeds(world, baseURL, d) && 0 <= i < |d.publications|
    ensures var p, q := d.publications[i], PlannedContent(world, baseURL, d).publications[i];
      && ValidPublication(p)
      && q.project == p.project && q.path == p.path && q.entryPoint == p.entryPoint && q.routingMode == p.routingMode
      && Ascending(ObjectKeys(q.objects)) && |q.objects| == |p.objects|
      && (forall key :: key in ObjectKeys(q.objects) <==> key in p.objects)
  {
    var base := world.normalizeBaseURL(baseURL).value;
    assert Plannable(world, base, ObservedOf(world.list.value), d.publications[i]);
    PlannedObjectsExact(world, base, ObservedOf(world.list.value), d.publications[i]);
  }

  /** A successful plan covers exactly the listed bucket ... */
  lemma PlanCoversBucket(world: World, baseURL: string, d: Declaration)
    requires PlanSucceeds(world, baseURL, d)
    ensures forall key :: key in Keys(world.list.value) <==>
        exists i, j :: PlansKey(PlannedContent(world, baseURL, d), i, j, key)
  {
    hide PlannedAll, PlannedOf, ValidPublication, ValidDeclaration, ObservedOf, ObjectKeys, Plannable, Keys;
    var content := PlannedContent(world, baseURL, d);
    var observed := ObservedOf(world.list.value);
    forall key ensures key in Keys(world.list.value) <==> exists i, j :: PlansKey(content, i, j, key) {
      if key in observed {
        var i :| 0 <= i < |d.publications| && key in d.publications[i].objects;
        PlannedPublicationExact(world, baseURL, d, i);
        var j :| 0 <= j < |content.publications[i].objects| && ObjectKeys(content.publications[i].objects)[j] == key;
        assert PlansKey(content, i, j, key);
      }
      if i, j :| PlansKey(content, i, j, key) {
        PlannedPublicationExact(world, baseURL, d, i);
        assert ObjectKeys(content.publications[i].objects)[j] == key;
        DeclaredKeysAreListed(world, baseURL, d, i, key);
      }
    }
  }

  lemma DeclaredKeysAreListed(world: World, baseURL: string, d: Declaration, i: int, key: string)
    requires PlanSucceeds(world, baseURL, d)
    requires 0 <= i < |d.publications| && key in d.publications[i].objects
    ensures key in ObservedOf(world.list.value)
  {
    hide ValidDeclaration, ObservedOf;
    assert Plannable(world, world.normalizeBaseURL(baseURL).value, ObservedOf(world.list.value), d.publications[i]);
    assert Readable(world, ObservedOf(world.list.value), key);
  }

  /** ... and plans each key exactly once. */
  lemma PlanHoldsKeyOnce(world: World, baseURL: string, d: Declaration, i: int, j: int, i': int, j': int, key: string)
    requires PlanSucceeds(world, baseURL, d)
    requires PlansKey(PlannedContent(world, baseURL, d), i, j, key)
    requires PlansKey(PlannedContent(world, baseURL, d), i', j', key)
    ensures i == i' && j == j'
  {
    hide PlannedAll, PlannedOf, ValidPublication, ValidDeclaration, ObservedOf, ObjectKeys, Plannable, Under;
    var content := PlannedContent(world, baseURL, d);
    PlannedPublicationExact(world, baseURL, d, i);
    PlannedPublicationExact(world, baseURL, d, i');
    assert ObjectKeys(content.publications[i].objects)[j] == key;
    assert ObjectKeys(content.publications[i'].objects)[j'] == key;
    ValidKeysAreUnder(d.publications[i], key);
    ValidKeysAreUnder(d.publications[i'], key);
    KeyHasOneOwner(d, i, i', key);
    AscendingIsDistinct(ObjectKeys(content.publications[i].objects));
  }
}

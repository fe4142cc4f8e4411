/** What a plan records, field by field, of the declaration, the storage and the routes it was made from. */
module PlanFacts {
  import opened Text
  import opened Storage
  import opened Declarations
  import opened Planning

  // ---- One object ----

  /** The text after the last slash, or all of it. */
  ghost predicate IsLastSegment(s: string, r: string) {
    '/' !in r && (s == r || exists j :: 0 <= j < |s| && s[j] == '/' && r == s[j + 1..])
  }

  lemma {:induction false} LastSegmentExact(s: string)
    ensures IsLastSegment(s, LastSegment(s))
  {
    if s != "" && s[|s| - 1] != '/' {
      var n := |s| - 1;
      var r := LastSegment(s[..n]);
      LastSegmentExact(s[..n]);
      if s[..n] == r {
        assert LastSegment(s) == s[..n] + [s[n]] == s;
      } else {
        var j :| 0 <= j < n && s[..n][j] == '/' && r == s[..n][j + 1..];
        assert s[j] == '/' && LastSegment(s) == s[j + 1..n] + [s[n]] == s[j + 1..];
      }
    } else if s != "" {
      assert s[|s| - 1] == '/' && LastSegment(s) == s[|s|..];
    }
  }

  /** The modification time GET reports, or LIST's when GET reports none. */
  ghost function SeenTime(world: World, key: string): Time
    requires world.list.Ok? && key in ObservedOf(world.list.value) && world.read(key).Ok?
  {
    var time := world.read(key).value.meta.lastModified;
    if time != 0 then time else ObservedOf(world.list.value)[key].lastModified
  }

  ghost predicate Seen(world: World, key: string) {
    world.list.Ok? && key in ObservedOf(world.list.value) && world.read(key).Ok?
  }

  ghost predicate ObjectAsSeen(o: ManifestObject, world: World, path: string, key: string) {
    && Seen(world, key)
    && var c, time := world.read(key).value, SeenTime(world, key);
       && o.key == key && o.size == c.size && o.etag == c.meta.etag && o.sha256 == c.sha256
       && o.modifiedAt == time - time % 1_000_000_000
       && o.contentType == c.meta.contentType && o.contentEncoding == c.meta.contentEncoding
       && o.cacheControl == c.meta.cacheControl && o.userMetadata == c.meta.userMetadata
       && if key == path then IsLastSegment(key, o.relativePath) else key == path + "/" + o.relativePath
  }

  // ---- One publication ----

  /** The declared display name, or the prefix or the last segment of the path when it is blank. */
  ghost predicate NameIs(name: string, p: PublicationDeclaration) {
    if exists c :: c in p.displayName && !IsSpace(c) then name == p.displayName
    else if p.path == p.project.prefix then name == p.project.prefix
    else IsLastSegment(p.path, name)
  }

  /** The newest of the seen times, not before the zero time, to the second. */
  ghost predicate NewestIs(time: Time, world: World, keys: seq<string>) {
    && (forall key | key in keys :: Seen(world, key))
    && exists newest: Time ::
      && time == newest - newest % 1_000_000_000 && newest >= 0
      && (forall key | key in keys :: SeenTime(world, key) <= newest)
      && (newest == 0 || exists key :: key in keys && SeenTime(world, key) == newest)
  }

  ghost predicate ProbeAsSeen(planned: PlannedProbe, world: World, baseURL: string, p: PublicationDeclaration,
                              probe: RouteProbe) {
    var url := ProbeAddress(baseURL, p, probe);
    && world.probe(url).Ok?
    && var seen := world.probe(url).value;
       && planned.path == probe.path && planned.url == url
       && planned.expectStatus == probe.expectStatus && planned.observedStatus == seen.status == probe.expectStatus
       && planned.contentType == seen.contentType && planned.bodySha256 == seen.bodySha256
  }

  ghost predicate ObjectsAsSeen(objects: seq<ManifestObject>, world: World, p: PublicationDeclaration) {
    && Ascending(ObjectKeys(objects))
    && (forall o | o in objects :: o.key in p.objects && ObjectAsSeen(o, world, p.path, o.key))
    && (forall key | key in p.objects :: key in ObjectKeys(objects))
  }

  ghost predicate ProbesAsSeen(probes: seq<PlannedProbe>, world: World, baseURL: string, p: PublicationDeclaration) {
    && (forall i, j | 0 <= i < j < |probes| :: Less(probes[i].path, probes[j].path))
    && (forall planned | planned in probes ::
          exists probe :: probe in p.probes && ProbeAsSeen(planned, world, baseURL, p, probe))
    && (forall probe | probe in p.probes ::
          exists planned :: planned in probes && ProbeAsSeen(planned, world, baseURL, p, probe))
  }

  ghost predicate PlannedAsSeen(q: PlannedPublication, world: World, baseURL: string, p: PublicationDeclaration) {
    && q.project == p.project && q.path == p.path && q.entryPoint == p.entryPoint && q.routingMode == p.routingMode
    && NameIs(q.displayName, p) && q.canonicalURL == Address(baseURL, p)
    && NewestIs(q.contentChangedAt, world, p.objects)
    && ObjectsAsSeen(q.objects, world, p) && ProbesAsSeen(q.probes, world, baseURL, p)
  }

  lemma {:induction false} NewestExact(world: World, observed: Observed, keys: seq<string>)
    requires world.list.Ok? && observed == ObservedOf(world.list.value)
    requires forall key | key in keys :: Readable(world, observed, key)
    ensures var newest := Newest(world, observed, keys);
      && newest >= 0 && (forall key | key in keys :: SeenTime(world, key) <= newest)
      && (newest == 0 || exists key :: key in keys && SeenTime(world, key) == newest)
    decreases |keys|
  {
    hide ObservedOf;
    if keys != [] {
      var n := |keys| - 1;
      assert keys == keys[..n] + [keys[n]] && keys[n] in keys;
      assert forall key | key in keys[..n] :: key in keys;
      assert Readable(world, observed, keys[n]);
      NewestExact(world, observed, keys[..n]);
    }
  }

  lemma PlannedNewest(world: World, observed: Observed, p: PublicationDeclaration)
    requires world.list.Ok? && observed == ObservedOf(world.list.value)
    requires forall key | key in p.objects :: Readable(world, observed, key)
    ensures NewestIs(Truncate(Newest(world, observed, p.objects)), world, p.objects)
  {
    hide ObservedOf, Newest;
    NewestExact(world, observed, p.objects);
    var newest := Newest(world, observed, p.objects);
    assert Truncate(newest) == newest - newest % 1_000_000_000;
  }

  lemma PlannedObjectSeen(world: World, observed: Observed, path: string, key: string)
    requires world.list.Ok? && observed == ObservedOf(world.list.value) && Readable(world, observed, key)
    requires ValidObjectKey(path, key)
    ensures ObjectAsSeen(PlannedObject(path, key, observed[key], world.read(key).value), world, path, key)
  {
    hide ObservedOf, ValidObjectKey, RelativePath, IsLastSegment;
    if key == path {
      RelativeOfPath(path);
    } else {
      RelativePathRebuilds(path, key);
    }
  }

  lemma RelativeOfPath(path: string)
    ensures IsLastSegment(path, RelativePath(path, path))
  {
    LastSegmentExact(path);
  }

  lemma PlannedObjectsSeen(world: World, base: string, observed: Observed, p: PublicationDeclaration)
    requires world.list.Ok? && observed == ObservedOf(world.list.value) && Plannable(world, base, observed, p)
             && ValidPublication(p)
    ensures ObjectsAsSeen(PlannedOf(world, base, observed, p).objects, world, p)
  {
    hide ObservedOf, PlannedObject, PlannedOf, ObjectAsSeen, Less, Ascending, ValidObjectKey, Plannable;
    KeysDistinct(p);
    PlannedObjectsExact(world, base, observed, p);
    forall o | o in PlannedOf(world, base, observed, p).objects ensures ObjectAsSeen(o, world, p.path, o.key) {
      PlannedObjectSeen(world, observed, p.path, o.key);
    }
  }

  lemma KeysDistinct(p: PublicationDeclaration)
    requires ValidPublication(p)
    ensures Distinct(p.objects) && forall key | key in p.objects :: ValidObjectKey(p.path, key)
  {}

  lemma NameExact(p: PublicationDeclaration)
    ensures NameIs(DisplayNameOr(p), p)
  {
    LastSegmentExact(p.path);
  }

  lemma PlannedProbesSeen(world: World, base: string, observed: Observed, p: PublicationDeclaration)
    requires Plannable(world, base, observed, p) && ValidPublication(p)
    ensures ProbesAsSeen(PlannedOf(world, base, observed, p).probes, world, base, p)
  {
    hide Less, SortBy, DeclaredProbeURL, ProbeAddress, ValidObjectKey, ObjectsFor, Newest;
    var raw := ProbesFor(world, base, p, p.probes);
    var sorted := SortBy(ProbeKey, raw);
    SortByCorrect(ProbeKey, raw);
    forall i | 0 <= i < |p.probes| ensures ProbeAsSeen(raw[i], world, base, p, p.probes[i]) {
      AddressExact(base, p, p.probes[i]);
    }
    forall i, j | 0 <= i < j < |raw| ensures ProbeKey(raw[i]) != ProbeKey(raw[j]) {
      assert p.probes[i].path != p.probes[j].path;
    }
    SortByDistinct(ProbeKey, raw);
    forall i, j | 0 <= i < j < |sorted| ensures Less(sorted[i].path, sorted[j].path) {
      assert Less(ProbeKey(sorted[i]), ProbeKey(sorted[j]));
    }
    forall planned | planned in sorted
      ensures exists probe :: probe in p.probes && ProbeAsSeen(planned, world, base, p, probe)
    {
      var i :| 0 <= i < |raw| && raw[i] == planned;
      assert p.probes[i] in p.probes;
    }
    forall probe | probe in p.probes
      ensures exists planned :: planned in sorted && ProbeAsSeen(planned, world, base, p, probe)
    {
      var i :| 0 <= i < |p.probes| && p.probes[i] == probe;
      assert raw[i] in sorted;
    }
  }

  lemma PublicationExact(world: World, base: string, observed: Observed, p: PublicationDeclaration)
    requires world.list.Ok? && observed == ObservedOf(world.list.value) && Plannable(world, base, observed, p)
             && ValidPublication(p)
    ensures PlannedAsSeen(PlannedOf(world, base, observed, p), world, base, p)
  {
    hide ObservedOf, NameIs, NewestIs, ObjectsAsSeen, ProbesAsSeen, ValidPublication, DisplayNameOr, Newest, SortBy,
         ObjectsFor,
         ProbesFor, CanonicalURL, Address;
    NameExact(p);
    PlannedNewest(world, observed, p);
    PlannedObjectsSeen(world, base, observed, p);
    PlannedProbesSeen(world, base, observed, p);
    AddressExact(base, p, RouteProbe("", 200));
  }

  /** The whole plan is what was declared and seen. */
  lemma PlanExact(world: World, baseURL: string, d: Declaration)
    requires PlanSucceeds(world, baseURL, d)
    ensures var content := PlannedContent(world, baseURL, d);
      && content.version == 1 && Ok(content.publicBaseURL) == world.normalizeBaseURL(baseURL)
      && content.declaration == d
      && |content.publications| == |d.publications|
      && forall i | 0 <= i < |d.publications| ::
        PlannedAsSeen(content.publications[i], world, content.publicBaseURL, d.publications[i])
  {
    hide ObservedOf, PlannedAsSeen, ValidPublication, PlannedOf, Plannable;
    var content := PlannedContent(world, baseURL, d);
    forall i | 0 <= i < |d.publications|
      ensures PlannedAsSeen(content.publications[i], world, content.publicBaseURL, d.publications[i])
    {
      PublicationExact(world, content.publicBaseURL, ObservedOf(world.list.value), d.publications[i]);
    }
  }

  // ---- What the digest pins ----

  /** Two storages show the same bytes, metadata and seconds of an object. */
  ghost predicate SameObject(world: World, world': World, key: string) {
    && Seen(world, key) && Seen(world', key)
    && var c, c' := world.read(key).value, world'.read(key).value;
       var time, time' := SeenTime(world, key), SeenTime(world', key);
       && c.size == c'.size && c.sha256 == c'.sha256 && c.meta.etag == c'.meta.etag
       && c.meta.contentType == c'.meta.contentType && c.meta.contentEncoding == c'.meta.contentEncoding
       && c.meta.cacheControl == c'.meta.cacheControl && c.meta.userMetadata == c'.meta.userMetadata
       && time - time % 1_000_000_000 == time' - time' % 1_000_000_000
  }

  /** And the same answer of a probed route. */
  ghost predicate SameRoute(world: World, world': World, url: string) {
    && world.probe(url).Ok? && world.probe(url) == world'.probe(url)
  }

  /**
   Equal digests mean equal keys, bytes, metadata, seconds and probe answers: whatever of
   these changes between planning and the recheck changes the digest.
   */
  lemma DigestPinsStorage(world: World, world': World, baseURL: string, baseURL': string, d: Declaration,
                          d': Declaration)
    requires PlanSucceeds(world, baseURL, d) && PlanSucceeds(world', baseURL', d')
    requires DigestOf(PlannedContent(world, baseURL, d)) == DigestOf(PlannedContent(world', baseURL', d'))
    ensures d == d' && world.normalizeBaseURL(baseURL) == world'.normalizeBaseURL(baseURL')
    ensures forall i, key | 0 <= i < |d.publications| && key in d.publications[i].objects ::
        SameObject(world, world', key)
    ensures var base := PlannedContent(world, baseURL, d).publicBaseURL;
      forall i, probe | 0 <= i < |d.publications| && probe in d.publications[i].probes ::
        SameRoute(world, world', ProbeAddress(base, d.publications[i], probe))
  {
    hide PlanSucceeds, PlannedContent, PlannedAsSeen, SameObject, SameRoute;
    PlanExact(world, baseURL, d);
    PlanExact(world', baseURL', d');
    var content := PlannedContent(world, baseURL, d);
    forall i, key | 0 <= i < |d.publications| && key in d.publications[i].objects
      ensures SameObject(world, world', key)
    {
      ObjectPinned(world, world', content.publicBaseURL, d.publications[i], content.publications[i], key);
    }
    forall i, probe | 0 <= i < |d.publications| && probe in d.publications[i].probes
      ensures SameRoute(world, world', ProbeAddress(content.publicBaseURL, d.publications[i], probe))
    {
      RoutePinned(world, world', content.publicBaseURL, d.publications[i], content.publications[i], probe);
    }
  }

  lemma ObjectPinned(world: World, world': World, base: string, p: PublicationDeclaration, q: PlannedPublication,
                     key: string)
    requires PlannedAsSeen(q, world, base, p) && PlannedAsSeen(q, world', base, p) && key in p.objects
    ensures SameObject(world, world', key)
  {
    hide ObservedOf, NameIs, NewestIs, ProbesAsSeen, Address, IsLastSegment, Less, Ascending;
    ObjectKeyAt(q.objects, key);
  }

  lemma RoutePinned(world: World, world': World, base: string, p: PublicationDeclaration, q: PlannedPublication,
                    probe: RouteProbe)
    requires PlannedAsSeen(q, world, base, p) && PlannedAsSeen(q, world', base, p) && probe in p.probes
    ensures SameRoute(world, world', ProbeAddress(base, p, probe))
  {
    hide NameIs, NewestIs, ObjectsAsSeen, Address, ProbesAsSeen, ProbeAsSeen, SameRoute, ProbeAddress;
    var planned := EntryOfProbe(q.probes, world, base, p, probe);
    var probe' := ProbeOfEntry(q.probes, world', base, p, planned);
    OneAnswer(planned, world, world', base, p, probe, probe');
  }

  lemma EntryOfProbe(probes: seq<PlannedProbe>, world: World, base: string, p: PublicationDeclaration,
                     probe: RouteProbe)
    returns (planned: PlannedProbe)
    requires ProbesAsSeen(probes, world, base, p) && probe in p.probes
    ensures planned in probes && ProbeAsSeen(planned, world, base, p, probe)
  {
    hide ProbeAsSeen, Less;
    planned :| planned in probes && ProbeAsSeen(planned, world, base, p, probe);
  }

  lemma ProbeOfEntry(probes: seq<PlannedProbe>, world: World, base: string, p: PublicationDeclaration,
                     planned: PlannedProbe)
    returns (probe: RouteProbe)
    requires ProbesAsSeen(probes, world, base, p) && planned in probes
    ensures probe in p.probes && ProbeAsSeen(planned, world, base, p, probe)
  {
    hide ProbeAsSeen, Less;
    probe :| probe in p.probes && ProbeAsSeen(planned, world, base, p, probe);
  }

  lemma OneAnswer(planned: PlannedProbe, world: World, world': World, base: string, p: PublicationDeclaration,
                  probe: RouteProbe, probe': RouteProbe)
    requires ProbeAsSeen(planned, world, base, p, probe) && ProbeAsSeen(planned, world', base, p, probe')
    ensures SameRoute(world, world', ProbeAddress(base, p, probe))
  {
    hide ProbeAddress;
  }
}

/**
 Comparing accepted manifests with observed storage (internal/observe/scan.go).
 LIST, HEAD and GET answer independently: the bucket may change in between.
 */
module Scanning {
  import opened Text
  import opened Storage
  import opened Catalog
  import opened Observations

  // ---- Times ----

  const MIN_DURATION: int := -0x8000_0000_0000_0000
  const MAX_DURATION: int := 0x7FFF_FFFF_FFFF_FFFF

  /** time.Time.Sub saturates at the 64-bit range. */
  function Sub(t: Time, u: Time): int {
    if t - u < MIN_DURATION then MIN_DURATION else if t - u > MAX_DURATION then MAX_DURATION else t - u
  }

  /** Negation of a 64-bit duration wraps at the minimum. */
  function Negate(d: int): int { if d == MIN_DURATION then MIN_DURATION else -d }

  function WithinTolerance(observed: Time, accepted: Time): bool {
    if observed == ZERO_TIME || accepted == ZERO_TIME then observed == accepted
    else
      var difference := Sub(observed, accepted);
      (if difference < 0 then Negate(difference) else difference) <= SECOND
  }

  /**
   The tolerance is one second, except that the smallest duration has no positive
   counterpart: a time centuries before the accepted one passes as well.
   */
  lemma WithinToleranceExact(observed: Time, accepted: Time)
    ensures WithinTolerance(observed, accepted) <==>
            if observed == ZERO_TIME || accepted == ZERO_TIME then observed == accepted
            else -SECOND <= observed - accepted <= SECOND || observed - accepted <= MIN_DURATION
  {}

  lemma ToleranceAdmitsAncientTime()
    ensures exists observed, accepted ::
        WithinTolerance(observed, accepted) && accepted - observed > 1_000_000_000 * SECOND
  {
    var accepted := 63_000_000_000 * SECOND;
    var observed := accepted + MIN_DURATION - SECOND;
    assert WithinTolerance(observed, accepted) && accepted - observed > 1_000_000_000 * SECOND;
  }

  /** Keeping whole seconds stays within tolerance, unless it turns a time into the zero time. */
  lemma TruncationTolerated(t: Time)
    ensures WithinTolerance(t, Truncate(t)) <==> !(0 < t < SECOND)
  {
    assert 0 <= t - Truncate(t) < SECOND;
    assert Truncate(t) == 0 <==> 0 <= t < SECOND;
  }

  // ---- One object ----

  /** The answers to HEAD and GET requests, at most one of each per key. */
  datatype Answers = Answers(head: string -> Response<ObjectMeta>, get: string -> Response<ObjectContent>)

  datatype Comparison = Comparison(finding: Option<Finding>, present: bool, downloaded: bool)

  function When(condition: bool, diff: Diff): seq<Diff> { if condition then [diff] else [] }

  /** Every difference in listing and metadata, in the order they are noticed. */
  function Diffs(accepted: ManifestObject, entry: ObjectListing, meta: ObjectMeta): seq<Diff> {
    var etagDiff := entry.etag != accepted.etag;
    When(entry.size != accepted.size, SizeChanged(accepted.size, entry.size))
    + When(etagDiff, ETagChanged)
    + When(!WithinTolerance(meta.lastModified, accepted.modifiedAt), ModifiedChanged)
    + When(meta.etag != accepted.etag && !etagDiff, ETagChanged)
    + When(meta.contentType != accepted.contentType, ContentTypeChanged(accepted.contentType, meta.contentType))
    + When(meta.contentEncoding != accepted.contentEncoding,
           ContentEncodingChanged(accepted.contentEncoding, meta.contentEncoding))
    + When(meta.cacheControl != accepted.cacheControl, CacheControlChanged(accepted.cacheControl, meta.cacheControl))
    + When(meta.userMetadata != accepted.userMetadata, UserMetadataChanged)
  }

  /** The listing entry and the metadata are those of the accepted object. */
  predicate Unchanged(accepted: ManifestObject, entry: ObjectListing, meta: ObjectMeta) {
    && entry.size == accepted.size && entry.etag == accepted.etag && meta.etag == accepted.etag
    && WithinTolerance(meta.lastModified, accepted.modifiedAt)
    && meta.contentType == accepted.contentType && meta.contentEncoding == accepted.contentEncoding
    && meta.cacheControl == accepted.cacheControl && meta.userMetadata == accepted.userMetadata
  }

  lemma NoDiffsIsUnchanged(accepted: ManifestObject, entry: ObjectListing, meta: ObjectMeta)
    ensures Diffs(accepted, entry, meta) == [] <==> Unchanged(accepted, entry, meta)
  {
    hide WithinTolerance;
  }

  function CompareObject(accepted: ManifestObject, observed: Observed, answers: Answers,
                         complete: bool): Response<Comparison> {
    var absent := Some(Finding(accepted.key, true, [], false, false));
    if accepted.key !in observed then Ok(Comparison(absent, false, false))
    else
      match answers.head(accepted.key)
      case Err(ObjectNotFound) => Ok(Comparison(absent, false, false))
      case Err(error) => Err(error)
      case Ok(meta) =>
        var diffs := Diffs(accepted, observed[accepted.key], meta);
        if diffs == [] && !complete then Ok(Comparison(None, true, false))
        else
          match answers.get(accepted.key)
          case Err(ObjectNotFound) => Ok(Comparison(absent, false, true))
          case Err(error) => Err(error)
          case Ok(content) =>
            if content.sha256 != accepted.sha256 then
              Ok(Comparison(Some(Finding(accepted.key, false, diffs, true, true)), true, true))
            else if diffs != [] then Ok(Comparison(Some(Finding(accepted.key, false, diffs, true, false)), true, true))
            else Ok(Comparison(None, true, true))
  }

  // ---- One publication ----

  datatype PublicationVerdict = PublicationVerdict(
    publicationId: Id, path: string, state: ObservedState, observedSize: Option<int>, detail: StatusDetail)

  /** What every comparison of a scan is made with. */
  datatype View = View(observed: Observed, answers: Answers, complete: bool) {
    function Compare(o: ManifestObject): Response<Comparison> { CompareObject(o, observed, answers, complete) }

    predicate Present(o: ManifestObject) { Compare(o).Ok? && Compare(o).value.present }

    predicate Clean(o: ManifestObject) { Compare(o).Ok? && Compare(o).value.finding.None? }

    function Size(o: ManifestObject): int { if o.key in observed then observed[o.key].size else 0 }
  }

  function FoundKeys(v: View, objects: seq<ManifestObject>): nat {
    if objects == [] then 0
    else FoundKeys(v, objects[..|objects| - 1]) + (if v.Present(objects[|objects| - 1]) then 1 else 0)
  }

  function FoundSize(v: View, objects: seq<ManifestObject>): int {
    if objects == [] then 0
    else
      var last := objects[|objects| - 1];
      FoundSize(v, objects[..|objects| - 1]) + (if v.Present(last) then v.Size(last) else 0)
  }

  /** The findings in manifest order. */
  function FindingsOf(v: View, objects: seq<ManifestObject>): seq<Finding> {
    if objects == [] then []
    else FindingsOf(v, objects[..|objects| - 1]) + FindingOf(v, objects[|objects| - 1])
  }

  function FindingOf(v: View, o: ManifestObject): seq<Finding> {
    var r := v.Compare(o);
    if r.Ok? && r.value.finding.Some? then [r.value.finding.value] else []
  }

  const STATUS_DETAIL_BOUND: nat := 5

  function FindingKey(f: Finding): string { f.key }

  /** describeFindings: the first few findings by key, and how many more there are. */
  function DescribeFindings(findings: seq<Finding>): StatusDetail {
    var ordered := SortBy(FindingKey, findings);
    if |ordered| > STATUS_DETAIL_BOUND
    then Differences(ordered[..STATUS_DETAIL_BOUND], |ordered| - STATUS_DETAIL_BOUND)
    else Differences(ordered, 0)
  }

  ghost function DetailOf(v: View, objects: seq<ManifestObject>): StatusDetail {
    if objects == [] then NoObjects
    else if NonePresent(v, objects) then AllAbsent(|objects|)
    else if AllClean(v, objects) then NothingNoted
    else DescribeFindings(FindingsOf(v, objects))
  }

  ghost predicate Comparable(v: View, objects: seq<ManifestObject>) { forall o | o in objects :: v.Compare(o).Ok? }

  /** The comparison that stops a publication's scan, and a scan's. */
  ghost predicate FirstError(v: View, objects: seq<ManifestObject>, error: StorageError) {
    exists i :: 0 <= i < |objects| && v.Compare(objects[i]) == Err(error) && Comparable(v, objects[..i])
  }

  ghost predicate ScanError(v: View, ms: seq<PublicationManifest>, error: StorageError) {
    exists i ::
      && 0 <= i < |ms| && FirstError(v, ms[i].objects, error)
      && forall k | 0 <= k < i :: Comparable(v, ms[k].objects)
  }

  ghost predicate AllClean(v: View, objects: seq<ManifestObject>) { forall o | o in objects :: v.Clean(o) }

  ghost predicate NonePresent(v: View, objects: seq<ManifestObject>) { forall o | o in objects :: !v.Present(o) }

  ghost function StateOf(v: View, objects: seq<ManifestObject>): ObservedState {
    if NonePresent(v, objects) then Missing else if AllClean(v, objects) then InSync else Drifted
  }

  ghost function ResultFor(v: View, m: PublicationManifest): PublicationVerdict {
    PublicationVerdict(m.publicationId, m.path, StateOf(v, m.objects),
                       if NonePresent(v, m.objects) then None else Some(FoundSize(v, m.objects)),
                       DetailOf(v, m.objects))
  }

  method ScanPublication(v: View, m: PublicationManifest) returns (r: Response<PublicationVerdict>)
    ensures r.Ok? <==> Comparable(v, m.objects)
    ensures r.Ok? ==> r.value == ResultFor(v, m)
    ensures r.Err? ==> FirstError(v, m.objects, r.error)
  {
    hide CompareObject, Comparable, NonePresent, AllClean;
    SummaryEmpty(v);
    if |m.objects| == 0 {
      assert m.objects == [];
      return Ok(PublicationVerdict(m.publicationId, m.path, Missing, None, NoObjects));
    }
    var findings: seq<Finding> := [];
    var foundKeys := 0;
    var observedSize := 0;
    for i := 0 to |m.objects|
      invariant Comparable(v, m.objects[..i])
      invariant foundKeys == FoundKeys(v, m.objects[..i]) && observedSize == FoundSize(v, m.objects[..i])
      invariant foundKeys == 0 <==> NonePresent(v, m.objects[..i])
      invariant findings == FindingsOf(v, m.objects[..i])
      invariant findings == [] <==> AllClean(v, m.objects[..i])
    {
      var accepted := m.objects[i];
      assert m.objects[..i + 1] == m.objects[..i] + [accepted];
      SummaryExtend(v, m.objects[..i], accepted);
      var compared := CompareObject(accepted, v.observed, v.answers, v.complete);
      if compared.Err? {
        IncomparableAt(v, m.objects, i);
        assert v.Compare(m.objects[i]) == Err(compared.error);
        return Err(compared.error);
      }
      if compared.value.present {
        PresentIsListed(v, accepted);
        foundKeys := foundKeys + 1;
        observedSize := observedSize + v.observed[accepted.key].size;
      }
      if compared.value.finding.Some? {
        findings := findings + [compared.value.finding.value];
      }
    }
    assert m.objects[..|m.objects|] == m.objects;
    if foundKeys == 0 {
      return Ok(PublicationVerdict(m.publicationId, m.path, Missing, None, AllAbsent(|m.objects|)));
    }
    var state, detail := InSync, NothingNoted;
    if |findings| > 0 {
      state, detail := Drifted, DescribeFindings(findings);
    }
    r := Ok(PublicationVerdict(m.publicationId, m.path, state, Some(observedSize), detail));
  }

  lemma {:induction false} FindingsCount(v: View, objects: seq<ManifestObject>)
    requires Comparable(v, objects)
    ensures forall f :: f in FindingsOf(v, objects) <==>
        exists o :: o in objects && v.Compare(o).value.finding == Some(f)
    ensures |FindingsOf(v, objects)| == Unclean(v, objects)
    decreases |objects|
  {
    hide CompareObject;
    if objects != [] {
      var n := |objects| - 1;
      assert objects == objects[..n] + [objects[n]];
      assert objects[n] in objects && forall o | o in objects[..n] :: o in objects;
      FindingsCount(v, objects[..n]);
    }
  }

  /** How many objects are not as accepted. */
  function Unclean(v: View, objects: seq<ManifestObject>): nat {
    if objects == [] then 0
    else Unclean(v, objects[..|objects| - 1]) + (if v.Clean(objects[|objects| - 1]) then 0 else 1)
  }

  lemma DescribeFindingsExact(findings: seq<Finding>)
    ensures var d := DescribeFindings(findings);
      && d.Differences? && |d.shown| + d.more == |findings|
      && |d.shown| <= STATUS_DETAIL_BOUND && (d.more > 0 ==> |d.shown| == STATUS_DETAIL_BOUND)
      && (forall i, j | 0 <= i < j < |d.shown| :: !Less(d.shown[j].key, d.shown[i].key))
      && (forall f | f in d.shown :: f in findings)
      && (forall f, g | f in findings && f !in d.shown && g in d.shown :: !Less(f.key, g.key))
      && ((forall i, j | 0 <= i < j < |findings| :: findings[i].key != findings[j].key) ==>
          forall i, j | 0 <= i < j < |d.shown| :: Less(d.shown[i].key, d.shown[j].key))
  {
    hide Less, SortBy;
    var ordered, d := SortBy(FindingKey, findings), DescribeFindings(findings);
    SortByCorrect(FindingKey, findings);
    forall i, j | 0 <= i < j < |ordered| ensures !Less(ordered[j].key, ordered[i].key) {
      assert !Less(FindingKey(ordered[j]), FindingKey(ordered[i]));
    }
    assert forall x | 0 <= x < |d.shown| :: ordered[x] == d.shown[x] && ordered[x] in d.shown;
    forall f, g | f in findings && f !in d.shown && g in d.shown ensures !Less(f.key, g.key) {
      assert f in ordered;
      var x :| 0 <= x < |ordered| && ordered[x] == f;
      var y :| 0 <= y < |d.shown| && d.shown[y] == g;
    }
    if forall i, j | 0 <= i < j < |findings| :: findings[i].key != findings[j].key {
      forall i, j | 0 <= i < j < |findings| ensures FindingKey(findings[i]) != FindingKey(findings[j]) {}
      SortByDistinct(FindingKey, findings);
      forall i, j | 0 <= i < j < |d.shown| ensures Less(d.shown[i].key, d.shown[j].key) {
        assert Less(FindingKey(ordered[i]), FindingKey(ordered[j]));
      }
    }
  }

  /** A drifted publication's detail shows its first findings by key, invents none, and counts all the others. */
  lemma StatusDetailExact(v: View, m: PublicationManifest)
    requires Comparable(v, m.objects) && StateOf(v, m.objects) == Drifted
    ensures var d := DetailOf(v, m.objects);
      && d.Differences? && |d.shown| + d.more == Unclean(v, m.objects)
      && |d.shown| <= STATUS_DETAIL_BOUND && (d.more > 0 ==> |d.shown| == STATUS_DETAIL_BOUND)
      && (forall i, j | 0 <= i < j < |d.shown| :: !Less(d.shown[j].key, d.shown[i].key))
      && (forall f | f in d.shown :: exists o :: o in m.objects && v.Compare(o).value.finding == Some(f))
      && (forall o, g | o in m.objects && !v.Clean(o) && g in d.shown ::
            v.Compare(o).value.finding.value in d.shown || !Less(v.Compare(o).value.finding.value.key, g.key))
  {
    hide CompareObject, Less, DescribeFindings;
    FindingsCount(v, m.objects);
    DescribeFindingsExact(FindingsOf(v, m.objects));
    assert DetailOf(v, m.objects) == DescribeFindings(FindingsOf(v, m.objects));
    forall o | o in m.objects && !v.Clean(o) ensures v.Compare(o).value.finding.value in FindingsOf(v, m.objects) {
      assert v.Compare(o).value.finding == Some(v.Compare(o).value.finding.value);
    }
  }

  lemma SummaryEmpty(v: View)
    ensures Comparable(v, []) && NonePresent(v, []) && AllClean(v, [])
  {}

  lemma SummaryExtend(v: View, objects: seq<ManifestObject>, o: ManifestObject)
    ensures Comparable(v, objects + [o]) <==> Comparable(v, objects) && v.Compare(o).Ok?
    ensures NonePresent(v, objects + [o]) <==> NonePresent(v, objects) && !v.Present(o)
    ensures AllClean(v, objects + [o]) <==> AllClean(v, objects) && v.Clean(o)
    ensures FindingsOf(v, objects + [o]) == FindingsOf(v, objects) + FindingOf(v, o)
    ensures FoundKeys(v, objects + [o]) == FoundKeys(v, objects) + (if v.Present(o) then 1 else 0)
    ensures FoundSize(v, objects + [o]) == FoundSize(v, objects) + (if v.Present(o) then v.Size(o) else 0)
  {
    hide CompareObject;
    var all := objects + [o];
    assert all[..|objects|] == objects && all[|objects|] == o;
    assert o in all && forall q | q in objects :: q in all;
  }

  lemma IncomparableAt(v: View, objects: seq<ManifestObject>, i: int)
    requires 0 <= i < |objects| && !v.Compare(objects[i]).Ok?
    ensures !Comparable(v, objects)
  {}

  lemma PresentIsListed(v: View, o: ManifestObject)
    requires v.Present(o)
    ensures o.key in v.observed
  {}

  // ---- Sums over the listing ----

  function ListedBytes(listing: seq<ObjectListing>): int {
    if listing == [] then 0 else ListedBytes(listing[..|listing| - 1]) + listing[|listing| - 1].size
  }

  /** The listed sizes of a set of keys, in whatever order they are added. */
  ghost function SumOver(observed: Observed, keys: set<string>): int
    requires keys <= observed.Keys
  {
    if keys == {} then 0
    else var key :| key in keys; observed[key].size + SumOver(observed, keys - {key})
  }

  lemma {:induction false} SumOverSplit(observed: Observed, keys: set<string>, key: string)
    requires keys <= observed.Keys && key in keys
    ensures SumOver(observed, keys) == observed[key].size + SumOver(observed, keys - {key})
    decreases |keys|
  {
    var first :| first in keys && SumOver(observed, keys) == observed[first].size + SumOver(observed, keys - {first});
    if first != key {
      SumOverSplit(observed, keys - {first}, key);
      SumOverSplit(observed, keys - {key}, first);
      assert keys - {first} - {key} == keys - {key} - {first};
    }
  }

  lemma {:induction false} SumOverUnion(observed: Observed, a: set<string>, b: set<string>)
    requires a + b <= observed.Keys && a !! b
    ensures SumOver(observed, a + b) == SumOver(observed, a) + SumOver(observed, b)
    decreases |a|
  {
    if a == {} {
      assert a + b == b;
    } else {
      var key :| key in a;
      SumOverSplit(observed, a, key);
      SumOverSplit(observed, a + b, key);
      assert a + b - {key} == (a - {key}) + b;
      SumOverUnion(observed, a - {key}, b);
    }
  }

  lemma {:induction false} SumOverAgree(observed: Observed, observed': Observed, keys: set<string>)
    requires keys <= observed.Keys && keys <= observed'.Keys
    requires forall key | key in keys :: observed[key] == observed'[key]
    ensures SumOver(observed, keys) == SumOver(observed', keys)
    decreases |keys|
  {
    if keys != {} {
      var key :| key in keys;
      SumOverSplit(observed, keys, key);
      SumOverSplit(observed', keys, key);
      SumOverAgree(observed, observed', keys - {key});
    }
  }

  lemma {:induction false} SumOverNotNegative(observed: Observed, keys: set<string>)
    requires keys <= observed.Keys && forall key | key in keys :: observed[key].size >= 0
    ensures SumOver(observed, keys) >= 0
    decreases |keys|
  {
    if keys != {} {
      var key :| key in keys;
      SumOverSplit(observed, keys, key);
      SumOverNotNegative(observed, keys - {key});
    }
  }

  /** A listing without duplicates sums to its keys' sizes. */
  lemma {:induction false} ListedBytesIsSum(listing: seq<ObjectListing>)
    requires Distinct(Keys(listing))
    ensures ListedBytes(listing) == SumOver(ObservedOf(listing), ObservedOf(listing).Keys)
    decreases |listing|
  {
    hide Keys;
    if listing != [] {
      var n := |listing| - 1;
      var observed, earlier := ObservedOf(listing), ObservedOf(listing[..n]);
      var key := listing[n].key;
      assert Keys(listing) == Keys(listing[..n]) + [key];
      assert Distinct(Keys(listing[..n])) && key !in Keys(listing[..n]) by {
        DistinctConcat(Keys(listing[..n]), key);
      }
      ListedBytesIsSum(listing[..n]);
      SumOverSplit(observed, observed.Keys, key);
      assert observed == earlier[key := listing[n]];
      assert observed.Keys - {key} == earlier.Keys;
      SumOverAgree(observed, earlier, earlier.Keys);
    }
  }

  // ---- The whole scan ----

  datatype ScanResult = ScanResult(
    observedAt: Time, publications: seq<PublicationVerdict>, unclaimedKeys: seq<string>, usage: Usage,
    lock: MutationLock)

  function AllObjects(ms: seq<PublicationManifest>): seq<ManifestObject> {
    if ms == [] then [] else AllObjects(ms[..|ms| - 1]) + ms[|ms| - 1].objects
  }

  ghost function Claimed(ms: seq<PublicationManifest>): set<string> {
    set key | key in ObjectKeys(AllObjects(ms))
  }

  predicate AnyFinding(publications: seq<PublicationVerdict>) {
    exists p | p in publications :: p.state != InSync
  }

  /** What a completed scan reports; every part is fixed by what was listed and answered. */
  ghost predicate ScanIs(listing: seq<ObjectListing>, ms: seq<PublicationManifest>, v: View, now: Time, r: ScanResult) {
    && r.observedAt == now
    && Ascending(r.unclaimedKeys)
    && (forall key :: key in r.unclaimedKeys <==> key in v.observed.Keys - Claimed(ms))
    && r.usage ==
      Usage(ListedBytes(listing), SumSizes(AllObjects(ms)), SumOver(v.observed, v.observed.Keys - Claimed(ms)))
    && |r.publications| == |ms|
    && (forall i | 0 <= i < |ms| :: r.publications[i] == ResultFor(v, ms[i]))
    && r.lock == (if r.unclaimedKeys != [] || AnyFinding(r.publications) then LockGlobal else LockNone)
  }

  /** Map iteration order leaves no trace in the result. */
  lemma ScanIsDetermined(listing: seq<ObjectListing>, ms: seq<PublicationManifest>, v: View, now: Time, r: ScanResult,
                         r': ScanResult)
    requires ScanIs(listing, ms, v, now, r) && ScanIs(listing, ms, v, now, r')
    ensures r == r'
  {
    AscendingUnique(r.unclaimedKeys, r'.unclaimedKeys);
    assert r.publications == r'.publications;
  }

  method SumListing(listing: seq<ObjectListing>) returns (totalBytes: int)
    ensures totalBytes == ListedBytes(listing)
  {
    totalBytes := 0;
    for i := 0 to |listing|
      invariant totalBytes == ListedBytes(listing[..i])
    {
      assert listing[..i + 1][..i] == listing[..i];
      totalBytes := totalBytes + listing[i].size;
    }
    assert listing[..|listing|] == listing;
  }

  lemma AllObjectsExtend(ms: seq<PublicationManifest>, m: PublicationManifest)
    ensures AllObjects(ms + [m]) == AllObjects(ms) + m.objects
  {
    assert (ms + [m])[..|ms|] == ms;
  }

  method ClaimManifests(ms: seq<PublicationManifest>) returns (claimed: set<string>, acceptedBytes: int)
    ensures claimed == Claimed(ms) && acceptedBytes == SumSizes(AllObjects(ms))
  {
    hide ObjectKeys;
    claimed, acceptedBytes := {}, 0;
    for i := 0 to |ms|
      invariant claimed == Claimed(ms[..i]) && acceptedBytes == SumSizes(AllObjects(ms[..i]))
    {
      var objects := ms[i].objects;
      ghost var before := AllObjects(ms[..i]);
      assert ms[..i + 1] == ms[..i] + [ms[i]];
      AllObjectsExtend(ms[..i], ms[i]);
      assert before + objects[..0] == before;
      claimed, acceptedBytes := ClaimObjects(objects, claimed, acceptedBytes, before);
    }
    assert ms[..|ms|] == ms;
  }

  method ClaimObjects(objects: seq<ManifestObject>, earlier: set<string>, earlierBytes: int,
                      ghost before: seq<ManifestObject>)
    returns (claimed: set<string>, acceptedBytes: int)
    requires earlier == (set key | key in ObjectKeys(before)) && earlierBytes == SumSizes(before)
    ensures claimed == (set key | key in ObjectKeys(before + objects)) && acceptedBytes == SumSizes(before + objects)
  {
    hide ObjectKeys;
    claimed, acceptedBytes := earlier, earlierBytes;
    assert before + objects[..0] == before;
    for j := 0 to |objects|
      invariant claimed == set key | key in ObjectKeys(before + objects[..j])
      invariant acceptedBytes == SumSizes(before + objects[..j])
    {
      ghost var next := before + objects[..j + 1];
      assert next == (before + objects[..j]) + [objects[j]];
      assert next[..|next| - 1] == before + objects[..j];
      assert ObjectKeys(next) == ObjectKeys(before + objects[..j]) + [objects[j].key];
      claimed := claimed + {objects[j].key};
      acceptedBytes := acceptedBytes + objects[j].size;
    }
    assert objects[..|objects|] == objects;
  }

  /** Ranges over the observed map in any order. */
  method CollectUnclaimed(observed: Observed, claimed: set<string>) returns (keys: seq<string>, bytes: int)
    ensures Ascending(keys) && forall key :: key in keys <==> key in observed.Keys - claimed
    ensures bytes == SumOver(observed, observed.Keys - claimed)
  {
    var collected: seq<string> := [];
    bytes := 0;
    var pending := observed.Keys;
    while pending != {}
      invariant pending <= observed.Keys && Distinct(collected)
      invariant forall key :: key in collected <==> key in observed.Keys - pending - claimed
      invariant bytes == SumOver(observed, observed.Keys - pending - claimed)
      decreases pending
    {
      var key :| key in pending;
      ghost var done := observed.Keys - pending - claimed;
      ghost var done' := observed.Keys - (pending - {key}) - claimed;
      assert key !in collected;
      if key !in claimed {
        collected := collected + [key];
        bytes := bytes + observed[key].size;
        SumOverSplit(observed, done', key);
        assert done' - {key} == done;
      } else {
        assert done' == done;
      }
      pending := pending - {key};
    }
    assert observed.Keys - {} - claimed == observed.Keys - claimed;
    SortStringsCorrect(collected);
    keys := SortStrings(collected);
  }

  method Scan(list: Response<seq<ObjectListing>>, ms: seq<PublicationManifest>, answers: Answers, complete: bool,
              now: Time)
    returns (r: Response<ScanResult>)
    ensures r.Ok? <==>
        list.Ok? && forall m | m in ms :: Comparable(View(ObservedOf(list.value), answers, complete), m.objects)
    ensures list.Err? ==> r == Err(list.error)
    ensures list.Ok? && r.Err? ==> ScanError(View(ObservedOf(list.value), answers, complete), ms, r.error)
    ensures r.Ok? ==> ScanIs(list.value, ms, View(ObservedOf(list.value), answers, complete), now, r.value)
  {
    hide ResultFor, Claimed, ObservedOf, Comparable, FirstError, AnyFinding, AllObjects, SumOver, ListedBytes, SumSizes;
    if list.Err? {
      return Err(list.error);
    }
    var observed := CollectObserved(list.value);
    var v := View(observed, answers, complete);
    var totalBytes := SumListing(list.value);
    var claimed, acceptedBytes := ClaimManifests(ms);
    var unclaimedKeys, unclaimedBytes := CollectUnclaimed(observed, claimed);
    var publications: seq<PublicationVerdict> := [];
    for i := 0 to |ms|
      invariant |publications| == i && forall k | 0 <= k < i :: publications[k] == ResultFor(v, ms[k])
      invariant forall k | 0 <= k < i :: Comparable(v, ms[k].objects)
    {
      var publication := ScanPublication(v, ms[i]);
      if publication.Err? {
        assert ms[i] in ms;
        return Err(publication.error);
      }
      publications := publications + [publication.value];
    }
    var lock := if |unclaimedKeys| > 0 || AnyFinding(publications) then LockGlobal else LockNone;
    r := Ok(ScanResult(now, publications, unclaimedKeys, Usage(totalBytes, acceptedBytes, unclaimedBytes), lock));
  }

  // ---- The durable form ----

  function PublicationRecordOf(p: PublicationVerdict): PublicationRecord {
    PublicationRecord(p.publicationId, PublicationObservation(p.state, p.observedSize, p.detail))
  }

  method Record(r: ScanResult) returns (record: ObservationRecord)
    ensures RecordOf(r, record)
  {
    record := ObservationRecord(r.observedAt, r.lock, r.usage, r.unclaimedKeys, []);
    for i := 0 to |r.publications|
      invariant |record.publications| == i
      invariant record == ObservationRecord(r.observedAt, r.lock, r.usage, r.unclaimedKeys, record.publications)
      invariant forall k | 0 <= k < i :: record.publications[k] == PublicationRecordOf(r.publications[k])
    {
      record := record.(publications := record.publications + [PublicationRecordOf(r.publications[i])]);
    }
  }

  /** The row ends a publication's verdict up in. */
  ghost predicate HoldsVerdict(row: StateRow, id: Id, m: PublicationManifest, p: PublicationVerdict) {
    && row.observationId == id && row.publicationId == m.publicationId
    && row.observation.state == p.state && row.observation.observedSize == p.observedSize
    && row.observation.detail == p.detail
  }

  /** The observation row of a scan, its time to the second. */
  ghost predicate HoldsScan(row: ObservationRow, id: Id, r: ScanResult) {
    && row.id == id && row.observedAt == r.observedAt - r.observedAt % 1_000_000_000
    && row.lock == r.lock && row.usage == r.usage && row.unclaimedKeys == r.unclaimedKeys
  }

  /** Exactly one row for each accepted manifest, with the verdict on it. */
  ghost predicate HoldsVerdicts(added: map<Id, StateRow>, id: Id, ms: seq<PublicationManifest>,
                                ps: seq<PublicationVerdict>)
    requires |ps| == |ms|
  {
    EachHeld(added, id, ms, ps) && NoneInvented(added, id, ms, ps)
    && (forall k, l | k in added && l in added && added[k].publicationId == added[l].publicationId :: k == l)
  }

  ghost predicate EachHeld(added: map<Id, StateRow>, id: Id, ms: seq<PublicationManifest>, ps: seq<PublicationVerdict>)
    requires |ps| == |ms|
  {
    forall i | 0 <= i < |ms| :: VerdictHeld(added, id, ms[i], ps[i])
  }

  ghost predicate VerdictHeld(added: map<Id, StateRow>, id: Id, m: PublicationManifest, p: PublicationVerdict) {
    exists k :: k in added && HoldsVerdict(added[k], id, m, p)
  }

  ghost predicate NoneInvented(added: map<Id, StateRow>, id: Id, ms: seq<PublicationManifest>,
                               ps: seq<PublicationVerdict>)
    requires |ps| == |ms|
  {
    forall k | k in added :: exists i :: 0 <= i < |ms| && HoldsVerdict(added[k], id, ms[i], ps[i])
  }

  /** The scan is in the tables: one observation row more and the rows of its verdicts; the old rows are unchanged. */
  ghost predicate Stored(before: ObservationTables, after: ObservationTables, id: Id, ms: seq<PublicationManifest>,
                         r: ScanResult) {
    && (exists row :: HoldsScan(row, id, r) && after.observations == before.observations + [row])
    && (forall k | k in before.states :: k in after.states && after.states[k] == before.states[k])
    && |r.publications| == |ms| && HoldsVerdicts(after.states - before.states.Keys, id, ms, r.publications)
  }

  /** Inserting the record of a scan stores exactly that scan. */
  lemma StoredExactly(t: Tables, ot: ObservationTables, record: ObservationRecord, ids: ObservationIds,
                      ms: seq<PublicationManifest>, r: ScanResult)
    requires ObservationsOk(t, ot) && RecordOk(t, record) && FreshObservationIds(ot, ids, |record.publications|)
    requires RecordOf(r, record) && |r.publications| == |ms|
    requires forall i | 0 <= i < |ms| :: r.publications[i].publicationId == ms[i].publicationId
    ensures Stored(ot, WithRecord(ot, record, ids, |record.publications|), ids.observation, ms, r)
  {
    hide StateRows, ObservationsOk, HoldsVerdicts;
    var n := |record.publications|;
    var whole := WithRecord(ot, record, ids, n);
    WithRecordStates(t, ot, record, ids, n);
    assert HoldsScan(RowOfRecord(record, ids.observation), ids.observation, r);
    VerdictsStored(t, ot, record, ids, ms, r, whole.states - ot.states.Keys);
  }

  lemma VerdictsStored(t: Tables, ot: ObservationTables, record: ObservationRecord, ids: ObservationIds,
                       ms: seq<PublicationManifest>, r: ScanResult, added: map<Id, StateRow>)
    requires RecordOk(t, record) && FreshStateIds(ot, ids, |record.publications|)
    requires RecordOf(r, record) && |r.publications| == |ms|
    requires forall i | 0 <= i < |ms| :: r.publications[i].publicationId == ms[i].publicationId
    requires added == WithRecord(ot, record, ids, |record.publications|).states - ot.states.Keys
    ensures HoldsVerdicts(added, ids.observation, ms, r.publications)
  {
    hide RecordOk, FreshStateIds, WithRecord, HoldsVerdict, HoldsVerdicts;
    AddedRows(ot, record, ids, ms, r, added, t);
    RecordDistinct(t, record, ms, r);
    AddedVerdicts(ids, ms, r.publications, added);
  }

  /** The added rows are those of the generated identities. */
  lemma AddedRows(ot: ObservationTables, record: ObservationRecord, ids: ObservationIds, ms: seq<PublicationManifest>,
                  r: ScanResult, added: map<Id, StateRow>, t: Tables)
    requires FreshStateIds(ot, ids, |record.publications|) && RecordOf(r, record) && |r.publications| == |ms|
    requires forall i | 0 <= i < |ms| :: r.publications[i].publicationId == ms[i].publicationId
    requires added == WithRecord(ot, record, ids, |record.publications|).states - ot.states.Keys
    ensures forall i | 0 <= i < |ms| ::
      ids.state(i) in added && HoldsVerdict(added[ids.state(i)], ids.observation, ms[i], r.publications[i])
    ensures forall k | k in added :: exists i :: 0 <= i < |ms| && ids.state(i) == k
  {
    hide StateRows;
    WithRecordStates(t, ot, record, ids, |record.publications|);
  }

  lemma RecordDistinct(t: Tables, record: ObservationRecord, ms: seq<PublicationManifest>, r: ScanResult)
    requires RecordOk(t, record) && RecordOf(r, record) && |r.publications| == |ms|
    requires forall i | 0 <= i < |ms| :: r.publications[i].publicationId == ms[i].publicationId
    ensures forall i, j | 0 <= i < j < |ms| :: ms[i].publicationId != ms[j].publicationId
  {
    forall i, j | 0 <= i < j < |ms| ensures ms[i].publicationId != ms[j].publicationId {
      assert record.publications[i].publicationId != record.publications[j].publicationId;
    }
  }

  lemma VerdictIds(ids: ObservationIds, ms: seq<PublicationManifest>, ps: seq<PublicationVerdict>,
                   added: map<Id, StateRow>)
    requires |ps| == |ms|
    requires forall i | 0 <= i < |ms| ::
      ids.state(i) in added && HoldsVerdict(added[ids.state(i)], ids.observation, ms[i], ps[i])
    ensures forall i | 0 <= i < |ms| :: added[ids.state(i)].publicationId == ms[i].publicationId
  {}

  lemma AddedVerdicts(ids: ObservationIds, ms: seq<PublicationManifest>, ps: seq<PublicationVerdict>,
                      added: map<Id, StateRow>)
    requires |ps| == |ms| && forall i, j | 0 <= i < j < |ms| :: ms[i].publicationId != ms[j].publicationId
    requires forall i | 0 <= i < |ms| ::
      ids.state(i) in added && HoldsVerdict(added[ids.state(i)], ids.observation, ms[i], ps[i])
    requires forall k | k in added :: exists i :: 0 <= i < |ms| && ids.state(i) == k
    ensures HoldsVerdicts(added, ids.observation, ms, ps)
  {
    hide HoldsVerdict, EachHeld, NoneInvented;
    assert EachHeld(added, ids.observation, ms, ps) by { AddedEach(ids, ms, ps, added); }
    assert NoneInvented(added, ids.observation, ms, ps) by { AddedNone(ids, ms, ps, added); }
    VerdictIds(ids, ms, ps, added);
    forall k, l | k in added && l in added && added[k].publicationId == added[l].publicationId ensures k == l {
      var i :| 0 <= i < |ms| && ids.state(i) == k;
      var j :| 0 <= j < |ms| && ids.state(j) == l;
      assert ms[i].publicationId == ms[j].publicationId;
    }
  }

  lemma AddedEach(ids: ObservationIds, ms: seq<PublicationManifest>, ps: seq<PublicationVerdict>,
                  added: map<Id, StateRow>)
    requires |ps| == |ms|
    requires forall i | 0 <= i < |ms| ::
      ids.state(i) in added && HoldsVerdict(added[ids.state(i)], ids.observation, ms[i], ps[i])
    ensures EachHeld(added, ids.observation, ms, ps)
  {
    forall i | 0 <= i < |ms| ensures VerdictHeld(added, ids.observation, ms[i], ps[i]) {
      assert HoldsVerdict(added[ids.state(i)], ids.observation, ms[i], ps[i]);
    }
  }

  lemma AddedNone(ids: ObservationIds, ms: seq<PublicationManifest>, ps: seq<PublicationVerdict>,
                  added: map<Id, StateRow>)
    requires |ps| == |ms|
    requires forall i | 0 <= i < |ms| ::
      ids.state(i) in added && HoldsVerdict(added[ids.state(i)], ids.observation, ms[i], ps[i])
    requires forall k | k in added :: exists i :: 0 <= i < |ms| && ids.state(i) == k
    ensures NoneInvented(added, ids.observation, ms, ps)
  {
    hide HoldsVerdict;
    forall k | k in added ensures exists i :: 0 <= i < |ms| && HoldsVerdict(added[k], ids.observation, ms[i], ps[i]) {
      var i :| 0 <= i < |ms| && ids.state(i) == k;
      assert HoldsVerdict(added[ids.state(i)], ids.observation, ms[i], ps[i]);
    }
  }

  ghost predicate RecordOf(r: ScanResult, record: ObservationRecord) {
    && record == ObservationRecord(r.observedAt, r.lock, r.usage, r.unclaimedKeys, record.publications)
    && |record.publications| == |r.publications|
    && forall k | 0 <= k < |r.publications| :: record.publications[k] == PublicationRecordOf(r.publications[k])
  }
}

/**
 What a comparison finds, in terms of what LIST, HEAD and GET answer and nothing
 else. The bucket may change between the requests: every view is covered, also one
 in which a listed object is gone by the time it is asked for.
 */
module Verdicts {
  import opened Text
  import opened Storage
  import opened Catalog
  import opened Observations
  import opened Scanning

  // ---- What storage shows of an accepted object ----

  ghost predicate Listed(v: View, o: ManifestObject) { o.key in v.observed }

  /** Times are equal to the second; the zero time equals only itself, and differences below -2^63 ns wrap. */
  ghost predicate SameTime(observed: Time, accepted: Time) {
    if observed == 0 || accepted == 0 then observed == accepted
    else -1_000_000_000 <= observed - accepted <= 1_000_000_000 || observed - accepted <= -0x8000_0000_0000_0000
  }

  /** The listing entry and the metadata are the accepted ones. */
  ghost predicate LooksSame(v: View, o: ManifestObject) {
    Listed(v, o) && v.answers.head(o.key).Ok?
    && var entry, meta := v.observed[o.key], v.answers.head(o.key).value;
       && entry.size == o.size && entry.etag == o.etag && meta.etag == o.etag
       && SameTime(meta.lastModified, o.modifiedAt)
       && meta.contentType == o.contentType && meta.contentEncoding == o.contentEncoding
       && meta.cacheControl == o.cacheControl && meta.userMetadata == o.userMetadata
  }

  /** GET is asked of what differs, and of everything in a complete reconciliation. */
  ghost predicate Fetched(v: View, o: ManifestObject) {
    Listed(v, o) && v.answers.head(o.key).Ok? && (v.complete || !LooksSame(v, o))
  }

  /** Every request made for the object finds it. */
  ghost predicate There(v: View, o: ManifestObject) {
    Listed(v, o) && v.answers.head(o.key).Ok? && (Fetched(v, o) ==> v.answers.get(o.key).Ok?)
  }

  /** Every request made for the object is answered; not found is an answer. */
  ghost predicate Answered(v: View, o: ManifestObject) {
    && (Listed(v, o) ==> v.answers.head(o.key).Ok? || v.answers.head(o.key).error == ObjectNotFound)
    && (Fetched(v, o) ==> v.answers.get(o.key).Ok? || v.answers.get(o.key).error == ObjectNotFound)
  }

  /** The object is as accepted, in a complete reconciliation down to its bytes. */
  ghost predicate AsAccepted(v: View, o: ManifestObject) {
    There(v, o) && LooksSame(v, o) && (v.complete ==> v.answers.get(o.key).value.sha256 == o.sha256)
  }

  // ---- One comparison ----

  lemma UnchangedIsSame(v: View, o: ManifestObject)
    requires Listed(v, o) && v.answers.head(o.key).Ok?
    ensures Diffs(o, v.observed[o.key], v.answers.head(o.key).value) == [] <==> LooksSame(v, o)
  {
    NoDiffsIsUnchanged(o, v.observed[o.key], v.answers.head(o.key).value);
    WithinToleranceExact(v.answers.head(o.key).value.lastModified, o.modifiedAt);
  }

  /** When a comparison succeeds, what it counts as present and clean, and when it downloads. */
  lemma CompareExact(v: View, o: ManifestObject)
    ensures v.Compare(o).Ok? <==> Answered(v, o)
    ensures v.Compare(o).Err? ==> v.Compare(o).error != ObjectNotFound
    ensures v.Compare(o).Err? ==>
      if v.answers.head(o.key).Err? then v.answers.head(o.key).error == v.Compare(o).error
      else v.answers.get(o.key).Err? && v.answers.get(o.key).error == v.Compare(o).error
    ensures v.Present(o) <==> There(v, o)
    ensures v.Clean(o) <==> AsAccepted(v, o)
    ensures v.Compare(o).Ok? ==> (v.Compare(o).value.downloaded <==> Fetched(v, o))
    ensures v.Compare(o).Ok? ==> (v.Compare(o).value.present <==> There(v, o))
    ensures v.Compare(o).Ok? ==> (v.Compare(o).value.finding.None? <==> AsAccepted(v, o))
  {
    hide Diffs, LooksSame;
    if Listed(v, o) && v.answers.head(o.key).Ok? { UnchangedIsSame(v, o); }
    assert LooksSame(v, o) ==> Listed(v, o) && v.answers.head(o.key).Ok? by { SameIsListed(v, o); }
  }

  lemma SameIsListed(v: View, o: ManifestObject)
    ensures LooksSame(v, o) ==> Listed(v, o) && v.answers.head(o.key).Ok?
  {}

  /** The place of a difference in the order they are noticed; an ETag that only HEAD shows comes after the time. */
  function NotedAt(d: Diff, listingShowsETag: bool): int {
    match d
    case SizeChanged(_, _) => 0
    case ETagChanged => if listingShowsETag then 1 else 3
    case ModifiedChanged => 2
    case ContentTypeChanged(_, _) => 4
    case ContentEncodingChanged(_, _) => 5
    case CacheControlChanged(_, _) => 6
    case UserMetadataChanged => 7
  }

  /** Each difference is noted once, in order, with the accepted and the observed value. */
  ghost predicate NotesExactly(diffs: seq<Diff>, o: ManifestObject, entry: ObjectListing, meta: ObjectMeta) {
    && (forall a, b :: SizeChanged(a, b) in diffs <==> a == o.size && b == entry.size && a != b)
    && (ETagChanged in diffs <==> entry.etag != o.etag || meta.etag != o.etag)
    && (ModifiedChanged in diffs <==> !SameTime(meta.lastModified, o.modifiedAt))
    && (forall a, b :: ContentTypeChanged(a, b) in diffs <==> a == o.contentType && b == meta.contentType && a != b)
    && (forall a, b :: ContentEncodingChanged(a, b) in diffs <==>
          a == o.contentEncoding && b == meta.contentEncoding && a != b)
    && (forall a, b :: CacheControlChanged(a, b) in diffs <==> a == o.cacheControl && b == meta.cacheControl && a != b)
    && (UserMetadataChanged in diffs <==> meta.userMetadata != o.userMetadata)
    && (forall i, j | 0 <= i < j < |diffs| ::
          NotedAt(diffs[i], entry.etag != o.etag) < NotedAt(diffs[j], entry.etag != o.etag))
  }

  ghost predicate InOrder(diffs: seq<Diff>, listingShowsETag: bool, below: int) {
    && (forall d | d in diffs :: NotedAt(d, listingShowsETag) < below)
    && (forall i, j | 0 <= i < j < |diffs| :: NotedAt(diffs[i], listingShowsETag) < NotedAt(diffs[j], listingShowsETag))
  }

  lemma Noted(diffs: seq<Diff>, condition: bool, d: Diff, listingShowsETag: bool)
    requires InOrder(diffs, listingShowsETag, NotedAt(d, listingShowsETag)) || !condition
    ensures condition ==> InOrder(diffs + When(condition, d), listingShowsETag, NotedAt(d, listingShowsETag) + 1)
    ensures forall x :: x in diffs + When(condition, d) <==> x in diffs || (condition && x == d)
    ensures !condition ==> diffs + When(condition, d) == diffs
  {}

  lemma OrderRises(diffs: seq<Diff>, listingShowsETag: bool, below: int, higher: int)
    requires InOrder(diffs, listingShowsETag, below) && below <= higher
    ensures InOrder(diffs, listingShowsETag, higher)
  {}

  /** One more condition in its place. */
  lemma NotedNext(diffs: seq<Diff>, condition: bool, d: Diff, listingShowsETag: bool, at: int) returns (more: seq<Diff>)
    requires InOrder(diffs, listingShowsETag, at) && (condition ==> NotedAt(d, listingShowsETag) == at)
    ensures more == diffs + When(condition, d) && InOrder(more, listingShowsETag, at + 1)
    ensures forall x :: x in more <==> x in diffs || (condition && x == d)
  {
    more := diffs + When(condition, d);
    Noted(diffs, condition, d, listingShowsETag);
    if !condition { OrderRises(diffs, listingShowsETag, at, at + 1); }
  }

  /** Listing differences, then what HEAD adds to the time and the ETag. */
  lemma FirstDiffs(o: ManifestObject, entry: ObjectListing, meta: ObjectMeta) returns (s: seq<Diff>)
    ensures var e := entry.etag != o.etag;
      && s == When(entry.size != o.size, SizeChanged(o.size, entry.size)) + When(e, ETagChanged)
              + When(!WithinTolerance(meta.lastModified, o.modifiedAt), ModifiedChanged)
              + When(meta.etag != o.etag && !e, ETagChanged)
      && InOrder(s, e, 4)
    ensures forall x :: x in s <==>
      || (entry.size != o.size && x == SizeChanged(o.size, entry.size))
      || ((entry.etag != o.etag || meta.etag != o.etag) && x == ETagChanged)
      || (!WithinTolerance(meta.lastModified, o.modifiedAt) && x == ModifiedChanged)
  {
    hide WithinTolerance, When, InOrder;
    var e := entry.etag != o.etag;
    NothingNotedYet(e);
    s := NotedNext([], entry.size != o.size, SizeChanged(o.size, entry.size), e, 0);
    assert s == When(entry.size != o.size, SizeChanged(o.size, entry.size));
    s := NotedNext(s, e, ETagChanged, e, 1);
    s := NotedNext(s, !WithinTolerance(meta.lastModified, o.modifiedAt), ModifiedChanged, e, 2);
    s := NotedNext(s, meta.etag != o.etag && !e, ETagChanged, e, 3);
  }

  /** Then the metadata. */
  lemma AllDiffs(o: ManifestObject, entry: ObjectListing, meta: ObjectMeta, first: seq<Diff>) returns (s: seq<Diff>)
    requires InOrder(first, entry.etag != o.etag, 4)
    ensures s == first + When(meta.contentType != o.contentType, ContentTypeChanged(o.contentType, meta.contentType))
                 + When(meta.contentEncoding != o.contentEncoding,
                        ContentEncodingChanged(o.contentEncoding, meta.contentEncoding))
                 + When(meta.cacheControl != o.cacheControl, CacheControlChanged(o.cacheControl, meta.cacheControl))
                 + When(meta.userMetadata != o.userMetadata, UserMetadataChanged)
    ensures InOrder(s, entry.etag != o.etag, 8)
    ensures forall x :: x in s <==>
      || x in first
      || (meta.contentType != o.contentType && x == ContentTypeChanged(o.contentType, meta.contentType))
      || (meta.contentEncoding != o.contentEncoding
          && x == ContentEncodingChanged(o.contentEncoding, meta.contentEncoding))
      || (meta.cacheControl != o.cacheControl && x == CacheControlChanged(o.cacheControl, meta.cacheControl))
      || (meta.userMetadata != o.userMetadata && x == UserMetadataChanged)
  {
    hide WithinTolerance, When, InOrder;
    var e := entry.etag != o.etag;
    s := NotedNext(first, meta.contentType != o.contentType,
                   ContentTypeChanged(o.contentType, meta.contentType), e, 4);
    s := NotedNext(s, meta.contentEncoding != o.contentEncoding,
                   ContentEncodingChanged(o.contentEncoding, meta.contentEncoding), e, 5);
    s := NotedNext(s, meta.cacheControl != o.cacheControl,
                   CacheControlChanged(o.cacheControl, meta.cacheControl), e, 6);
    s := NotedNext(s, meta.userMetadata != o.userMetadata, UserMetadataChanged, e, 7);
  }

  lemma DiffsExact(o: ManifestObject, entry: ObjectListing, meta: ObjectMeta)
    ensures NotesExactly(Diffs(o, entry, meta), o, entry, meta)
  {
    hide WithinTolerance, When, InOrder;
    WithinToleranceExact(meta.lastModified, o.modifiedAt);
    var first := FirstDiffs(o, entry, meta);
    var s := AllDiffs(o, entry, meta, first);
    assert s == Diffs(o, entry, meta);
    InOrderIsStrict(s, entry.etag != o.etag);
  }

  lemma NothingNotedYet(listingShowsETag: bool)
    ensures InOrder([], listingShowsETag, 0)
  {}

  lemma InOrderIsStrict(diffs: seq<Diff>, listingShowsETag: bool)
    requires InOrder(diffs, listingShowsETag, 8)
    ensures forall i, j | 0 <= i < j < |diffs| ::
      NotedAt(diffs[i], listingShowsETag) < NotedAt(diffs[j], listingShowsETag)
  {}

  /** What is noted of an object that is not as accepted: its absence, or every difference and the verified bytes. */
  lemma FindingExact(v: View, o: ManifestObject, f: Finding)
    requires v.Compare(o).Ok? && v.Compare(o).value.finding == Some(f)
    ensures f.key == o.key && (f.missing <==> !There(v, o))
    ensures f.missing ==> f.diffs == [] && !f.bytesVerified && !f.bytesDiffer
    ensures !f.missing ==>
      && NotesExactly(f.diffs, o, v.observed[o.key], v.answers.head(o.key).value)
      && f.bytesVerified && (f.bytesDiffer <==> v.answers.get(o.key).value.sha256 != o.sha256)
  {
    hide Diffs, LooksSame, NotesExactly;
    if Listed(v, o) && v.answers.head(o.key).Ok? {
      UnchangedIsSame(v, o);
      DiffsExact(o, v.observed[o.key], v.answers.head(o.key).value);
    }
  }

  // ---- One publication ----

  /** Bytes of the objects that are there, as listed. */
  ghost function ThereSize(v: View, objects: seq<ManifestObject>): int {
    if objects == [] then 0
    else
      var last := objects[|objects| - 1];
      ThereSize(v, objects[..|objects| - 1]) + (if There(v, last) then v.observed[last.key].size else 0)
  }

  ghost function NotAsAccepted(v: View, objects: seq<ManifestObject>): nat {
    if objects == [] then 0
    else NotAsAccepted(v, objects[..|objects| - 1]) + (if AsAccepted(v, objects[|objects| - 1]) then 0 else 1)
  }

  /** The note f is what storage shows of object o. */
  ghost predicate Notes(v: View, o: ManifestObject, f: Finding) {
    && f.key == o.key && (f.missing <==> !There(v, o))
    && (f.missing ==> f.diffs == [] && !f.bytesVerified && !f.bytesDiffer)
    && (!f.missing ==> NotesStorage(v, o, f))
  }

  ghost predicate NotesStorage(v: View, o: ManifestObject, f: Finding) {
    && Listed(v, o) && v.answers.head(o.key).Ok? && v.answers.get(o.key).Ok?
    && NotesExactly(f.diffs, o, v.observed[o.key], v.answers.head(o.key).value)
    && f.bytesVerified && (f.bytesDiffer <==> v.answers.get(o.key).value.sha256 != o.sha256)
  }

  /** At most five notes, those of the first keys, each of an object not as accepted, and the number of the others. */
  ghost predicate DetailIs(v: View, objects: seq<ManifestObject>, d: StatusDetail) {
    && d.Differences? && |d.shown| + d.more == NotAsAccepted(v, objects)
    && |d.shown| <= 5 && (d.more > 0 ==> |d.shown| == 5)
    && (forall i, j | 0 <= i < j < |d.shown| :: !Less(d.shown[j].key, d.shown[i].key))
    && (Distinct(ObjectKeys(objects)) ==> forall i, j | 0 <= i < j < |d.shown| :: Less(d.shown[i].key, d.shown[j].key))
    && (forall f | f in d.shown :: exists o :: o in objects && !AsAccepted(v, o) && Notes(v, o, f))
    && (forall o, g | o in objects && !AsAccepted(v, o) && g in d.shown ::
          (exists f :: f in d.shown && f.key == o.key) || !Less(o.key, g.key))
  }

  /** The verdict on one publication, by manifest and storage alone. */
  ghost predicate VerdictIs(v: View, m: PublicationManifest, p: PublicationVerdict) {
    && p.publicationId == m.publicationId && p.path == m.path
    && (p.state == Missing <==> forall o | o in m.objects :: !There(v, o))
    && (p.state == InSync <==> m.objects != [] && forall o | o in m.objects :: AsAccepted(v, o))
    && (p.state == Drifted <==>
          (exists o :: o in m.objects && There(v, o)) && (exists o :: o in m.objects && !AsAccepted(v, o)))
    && p.observedSize == (if p.state == Missing then None else Some(ThereSize(v, m.objects)))
    && (m.objects == [] ==> p.detail == NoObjects)
    && (m.objects != [] && p.state == Missing ==> p.detail == AllAbsent(|m.objects|))
    && (p.state == InSync ==> p.detail == NothingNoted)
    && (p.state == Drifted && (forall o | o in m.objects :: Answered(v, o)) ==> DetailIs(v, m.objects, p.detail))
  }

  lemma {:induction false} FoundIsThere(v: View, objects: seq<ManifestObject>)
    ensures FoundSize(v, objects) == ThereSize(v, objects)
    ensures Unclean(v, objects) == NotAsAccepted(v, objects)
    decreases |objects|
  {
    hide There, AsAccepted, CompareObject;
    if objects != [] {
      var last := objects[|objects| - 1];
      FoundIsThere(v, objects[..|objects| - 1]);
      CompareExact(v, last);
      if v.Present(last) { ThereIsListed(v, last); }
    }
  }

  lemma ThereIsListed(v: View, o: ManifestObject)
    requires There(v, o)
    ensures o.key in v.observed
  {}

  /** Comparing succeeds for exactly the publications all of whose requests are answered. */
  lemma ComparableExact(v: View, objects: seq<ManifestObject>)
    ensures Comparable(v, objects) <==> forall o | o in objects :: Answered(v, o)
  {
    hide Answered, CompareObject;
    forall o | o in objects ensures v.Compare(o).Ok? <==> Answered(v, o) { CompareExact(v, o); }
  }

  lemma NotesOf(v: View, o: ManifestObject, f: Finding)
    requires v.Compare(o).Ok? && v.Compare(o).value.finding == Some(f)
    ensures Notes(v, o, f) && !AsAccepted(v, o)
  {
    hide CompareObject, NotesExactly;
    FindingExact(v, o, f);
    CompareExact(v, o);
    if There(v, o) { assert Fetched(v, o) by { FetchedWhenDifferent(v, o); } }
  }

  lemma FetchedWhenDifferent(v: View, o: ManifestObject)
    requires There(v, o) && !AsAccepted(v, o)
    ensures Fetched(v, o)
  {}

  lemma {:induction false} FindingKeys(v: View, objects: seq<ManifestObject>)
    requires Distinct(ObjectKeys(objects))
    ensures var findings := FindingsOf(v, objects);
      && (forall f | f in findings :: f.key in ObjectKeys(objects))
      && (forall i, j | 0 <= i < j < |findings| :: findings[i].key != findings[j].key)
    decreases |objects|
  {
    hide CompareObject;
    if objects != [] {
      var n := |objects| - 1;
      assert ObjectKeys(objects) == ObjectKeys(objects[..n]) + [objects[n].key];
      DistinctConcat(ObjectKeys(objects[..n]), objects[n].key);
      FindingKeys(v, objects[..n]);
      var r := v.Compare(objects[n]);
      if r.Ok? && r.value.finding.Some? { FindingExact(v, objects[n], r.value.finding.value); }
    }
  }

  lemma DetailExact(v: View, m: PublicationManifest)
    requires Comparable(v, m.objects) && StateOf(v, m.objects) == Drifted
    ensures DetailIs(v, m.objects, DetailOf(v, m.objects))
  {
    hide CompareObject, Less, AsAccepted, There, Notes, DetailOf, StateOf, DescribeFindings, Distinct, ObjectKeys;
    var d := DetailOf(v, m.objects);
    StatusDetailExact(v, m);
    FoundIsThere(v, m.objects);
    DriftedDetail(v, m);
    DescribeFindingsExact(FindingsOf(v, m.objects));
    if Distinct(ObjectKeys(m.objects)) { FindingKeys(v, m.objects); }
    forall f | f in d.shown ensures exists o :: o in m.objects && !AsAccepted(v, o) && Notes(v, o, f) {
      var o :| o in m.objects && v.Compare(o).value.finding == Some(f);
      NotesOf(v, o, f);
    }
    forall o, g | o in m.objects && !AsAccepted(v, o) && g in d.shown
      ensures (exists f :: f in d.shown && f.key == o.key) || !Less(o.key, g.key) {
      CompareExact(v, o);
      FindingExact(v, o, v.Compare(o).value.finding.value);
    }
  }

  lemma DriftedDetail(v: View, m: PublicationManifest)
    requires StateOf(v, m.objects) == Drifted
    ensures DetailOf(v, m.objects) == DescribeFindings(FindingsOf(v, m.objects))
  {}

  /** Every verdict is the one storage demands, on every view. */
  lemma VerdictExact(v: View, m: PublicationManifest)
    ensures VerdictIs(v, m, ResultFor(v, m))
  {
    hide CompareObject, AsAccepted, There, Answered, DetailIs, DescribeFindings;
    forall o | o in m.objects ensures (v.Present(o) <==> There(v, o)) && (v.Clean(o) <==> AsAccepted(v, o)) {
      CompareExact(v, o);
    }
    forall o | o in m.objects && AsAccepted(v, o) ensures There(v, o) { AcceptedIsThere(v, o); }
    FoundIsThere(v, m.objects);
    ComparableExact(v, m.objects);
    if m.objects != [] { assert m.objects[0] in m.objects; }
    if Comparable(v, m.objects) && StateOf(v, m.objects) == Drifted { DetailExact(v, m); }
  }

  lemma AcceptedIsThere(v: View, o: ManifestObject)
    requires AsAccepted(v, o)
    ensures There(v, o)
  {}

  // ---- A whole scan ----

  /** Every request a scan of these manifests makes is answered. */
  ghost predicate AllAnswered(v: View, ms: seq<PublicationManifest>) {
    forall m, o | m in ms && o in m.objects :: Answered(v, o)
  }

  lemma ScanCompletes(v: View, ms: seq<PublicationManifest>)
    ensures (forall m | m in ms :: Comparable(v, m.objects)) <==> AllAnswered(v, ms)
  {
    hide Answered, Comparable;
    forall m | m in ms ensures Comparable(v, m.objects) <==> forall o | o in m.objects :: Answered(v, o) {
      ComparableExact(v, m.objects);
    }
  }

  /** Each publication of a completed scan has the verdict storage demands. */
  lemma ScanVerdicts(listing: seq<ObjectListing>, ms: seq<PublicationManifest>, v: View, now: Time, r: ScanResult)
    requires ScanIs(listing, ms, v, now, r)
    ensures |r.publications| == |ms| && forall i | 0 <= i < |ms| :: VerdictIs(v, ms[i], r.publications[i])
  {
    hide ResultFor, VerdictIs;
    forall i | 0 <= i < |ms| ensures VerdictIs(v, ms[i], r.publications[i]) { VerdictExact(v, ms[i]); }
  }

  /** A request made for the object fails with this error, and not because the object is not found. */
  ghost predicate FailsWith(v: View, o: ManifestObject, error: StorageError) {
    && error != ObjectNotFound
    && (|| (Listed(v, o) && v.answers.head(o.key) == Err(error))
        || (Fetched(v, o) && v.answers.get(o.key) == Err(error)))
  }

  /** The first request of a scan that fails, publication by publication and object by object, fails with this error. */
  ghost predicate FirstFailure(v: View, ms: seq<PublicationManifest>, error: StorageError) {
    exists i, j ::
      && 0 <= i < |ms| && 0 <= j < |ms[i].objects| && FailsWith(v, ms[i].objects[j], error)
      && (forall k | 0 <= k < j :: Answered(v, ms[i].objects[k]))
      && (forall k, o | 0 <= k < i && o in ms[k].objects :: Answered(v, o))
  }

  lemma FailsExactly(v: View, o: ManifestObject, error: StorageError)
    ensures v.Compare(o) == Err(error) <==> FailsWith(v, o, error)
    ensures FailsWith(v, o, error) ==> !Answered(v, o)
  {
    hide CompareObject, LooksSame;
    CompareExact(v, o);
  }

  /** The error of a failed scan is that of its first failing request. */
  lemma ScanErrorExact(v: View, ms: seq<PublicationManifest>, error: StorageError)
    ensures ScanError(v, ms, error) <==> FirstFailure(v, ms, error)
  {
    hide CompareObject, Answered, FailsWith, Comparable;
    if ScanError(v, ms, error) {
      var i :| && 0 <= i < |ms| && FirstError(v, ms[i].objects, error)
               && forall k | 0 <= k < i :: Comparable(v, ms[k].objects);
      var j :| 0 <= j < |ms[i].objects| && v.Compare(ms[i].objects[j]) == Err(error)
          && Comparable(v, ms[i].objects[..j]);
      FailsExactly(v, ms[i].objects[j], error);
      ComparableExact(v, ms[i].objects[..j]);
      forall k | 0 <= k < j ensures Answered(v, ms[i].objects[k]) {
        assert ms[i].objects[..j][k] in ms[i].objects[..j];
      }
      forall k, o | 0 <= k < i && o in ms[k].objects ensures Answered(v, o) { ComparableExact(v, ms[k].objects); }
    }
    if FirstFailure(v, ms, error) {
      var i, j :| && 0 <= i < |ms| && 0 <= j < |ms[i].objects| && FailsWith(v, ms[i].objects[j], error)
                  && (forall k | 0 <= k < j :: Answered(v, ms[i].objects[k]))
                  && (forall k, o | 0 <= k < i && o in ms[k].objects :: Answered(v, o));
      FailsExactly(v, ms[i].objects[j], error);
      ComparableExact(v, ms[i].objects[..j]);
      assert FirstError(v, ms[i].objects, error);
      forall k | 0 <= k < i ensures Comparable(v, ms[k].objects) { ComparableExact(v, ms[k].objects); }
    }
  }

  /** There is only one first failing request, and it fails with one error. */
  lemma FirstFailureUnique(v: View, ms: seq<PublicationManifest>, error: StorageError, error': StorageError)
    requires FirstFailure(v, ms, error) && FirstFailure(v, ms, error')
    ensures error == error'
  {
    hide LooksSame, Answered;
    var i, j :| && 0 <= i < |ms| && 0 <= j < |ms[i].objects| && FailsWith(v, ms[i].objects[j], error)
                && (forall k | 0 <= k < j :: Answered(v, ms[i].objects[k]))
                && (forall k, o | 0 <= k < i && o in ms[k].objects :: Answered(v, o));
    var i', j' :| && 0 <= i' < |ms| && 0 <= j' < |ms[i'].objects| && FailsWith(v, ms[i'].objects[j'], error')
                  && (forall k | 0 <= k < j' :: Answered(v, ms[i'].objects[k]))
                  && (forall k, o | 0 <= k < i' && o in ms[k].objects :: Answered(v, o));
    var o, o' := ms[i].objects[j], ms[i'].objects[j'];
    FailsExactly(v, o, error);
    FailsExactly(v, o', error');
    assert o in ms[i].objects && o' in ms[i'].objects;
  }
}

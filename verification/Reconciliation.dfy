/** What a scan result says about the bucket: usage, lock, states, recordability. */
module Reconciliation {
  import opened Text
  import opened Storage
  import opened Catalog
  import opened Observations
  import opened Scanning
  import opened Verdicts

  ghost predicate NoSharedKeys(ms: seq<PublicationManifest>) { Distinct(ObjectKeys(AllObjects(ms))) }

  // ---- Usage conservation ----

  /** Listed bytes of accepted objects. */
  ghost function ListedSize(v: View, objects: seq<ManifestObject>): int {
    if objects == [] then 0
    else
      var last := objects[|objects| - 1];
      ListedSize(v, objects[..|objects| - 1]) + (if Listed(v, last) then v.observed[last.key].size else 0)
  }

  /** Bytes of objects that were listed but gone when HEAD or GET asked for them. */
  ghost function VanishedSize(v: View, objects: seq<ManifestObject>): int {
    if objects == [] then 0
    else
      var last := objects[|objects| - 1];
      VanishedSize(v, objects[..|objects| - 1])
      + (if Listed(v, last) && !There(v, last) then v.observed[last.key].size else 0)
  }

  function ObservedTotal(publications: seq<PublicationVerdict>): int {
    if publications == [] then 0
    else
      var n := |publications| - 1;
      var size := publications[n].observedSize;
      ObservedTotal(publications[..n]) + (if size.Some? then size.value else 0)
  }

  lemma {:induction false} TherePlusVanished(v: View, objects: seq<ManifestObject>)
    ensures ThereSize(v, objects) + VanishedSize(v, objects) == ListedSize(v, objects)
    decreases |objects|
  {
    hide LooksSame;
    if objects != [] { TherePlusVanished(v, objects[..|objects| - 1]); }
  }

  lemma {:induction false} VanishedNotNegative(v: View, objects: seq<ManifestObject>)
    requires forall key | key in v.observed :: v.observed[key].size >= 0
    ensures VanishedSize(v, objects) >= 0
    ensures (forall o | o in objects && Listed(v, o) :: There(v, o)) ==> VanishedSize(v, objects) == 0
    decreases |objects|
  {
    hide LooksSame, There;
    if objects != [] {
      var n := |objects| - 1;
      VanishedNotNegative(v, objects[..n]);
      assert objects[n] in objects && forall o | o in objects[..n] :: o in objects;
    }
  }

  lemma {:induction false} ThereSizeConcat(v: View, a: seq<ManifestObject>, b: seq<ManifestObject>)
    ensures ThereSize(v, a + b) == ThereSize(v, a) + ThereSize(v, b)
    decreases |b|
  {
    hide There;
    if b == [] {
      assert a + b == a;
    } else {
      var n := |b| - 1;
      ThereSizeConcat(v, a, b[..n]);
      assert (a + b)[..|a + b| - 1] == a + b[..n];
      if There(v, b[n]) { ThereIsListed(v, b[n]); }
    }
  }

  lemma {:induction false} NothingThere(v: View, objects: seq<ManifestObject>)
    requires forall o | o in objects :: !There(v, o)
    ensures ThereSize(v, objects) == 0
    decreases |objects|
  {
    hide There;
    if objects != [] {
      var n := |objects| - 1;
      assert objects[n] in objects && forall o | o in objects[..n] :: o in objects;
      NothingThere(v, objects[..n]);
    }
  }

  lemma {:induction false} ObservedTotalIsThere(v: View, ms: seq<PublicationManifest>, ps: seq<PublicationVerdict>)
    requires |ps| == |ms| && forall i | 0 <= i < |ms| :: VerdictIs(v, ms[i], ps[i])
    ensures ObservedTotal(ps) == ThereSize(v, AllObjects(ms))
    decreases |ms|
  {
    hide There, AsAccepted, DetailIs;
    if ms != [] {
      var n := |ms| - 1;
      ObservedTotalIsThere(v, ms[..n], ps[..n]);
      ThereSizeConcat(v, AllObjects(ms[..n]), ms[n].objects);
      if ps[n].state == Missing { NothingThere(v, ms[n].objects); }
    }
  }

  lemma {:induction false} ListedSizeIsSum(v: View, objects: seq<ManifestObject>)
    requires Distinct(ObjectKeys(objects))
    ensures ListedSize(v, objects) == SumOver(v.observed, (set key | key in ObjectKeys(objects)) * v.observed.Keys)
    decreases |objects|
  {
    hide ObjectKeys;
    if objects != [] {
      var n := |objects| - 1;
      var key := objects[n].key;
      var earlier := (set k | k in ObjectKeys(objects[..n])) * v.observed.Keys;
      var all := (set k | k in ObjectKeys(objects)) * v.observed.Keys;
      assert ObjectKeys(objects) == ObjectKeys(objects[..n]) + [key];
      DistinctConcat(ObjectKeys(objects[..n]), key);
      ListedSizeIsSum(v, objects[..n]);
      if key in v.observed {
        SumOverSplit(v.observed, all, key);
        assert all - {key} == earlier;
      } else {
        assert all == earlier;
      }
    }
  }

  /** Every listed byte is unclaimed, observed in a publication, or vanished during the scan. */
  lemma UsageConserved(listing: seq<ObjectListing>, ms: seq<PublicationManifest>, v: View, now: Time, r: ScanResult)
    requires v.observed == ObservedOf(listing) && ScanIs(listing, ms, v, now, r)
    requires Distinct(Keys(listing)) && NoSharedKeys(ms)
    ensures r.usage.totalBytes ==
        r.usage.unclaimedBytes + ObservedTotal(r.publications) + VanishedSize(v, AllObjects(ms))
  {
    hide ObjectKeys, Keys, ResultFor, VerdictIs, There;
    var objects := AllObjects(ms);
    var claimed := Claimed(ms) * v.observed.Keys;
    ListedBytesIsSum(listing);
    SumOverUnion(v.observed, v.observed.Keys - Claimed(ms), claimed);
    assert (v.observed.Keys - Claimed(ms)) + claimed == v.observed.Keys;
    ListedSizeIsSum(v, objects);
    TherePlusVanished(v, objects);
    ScanVerdicts(listing, ms, v, now, r);
    ObservedTotalIsThere(v, ms, r.publications);
  }

  /** With sizes that are not negative, publications never observe more than what is claimed of the total. */
  lemma ObservedWithinTotal(listing: seq<ObjectListing>, ms: seq<PublicationManifest>, v: View, now: Time,
                            r: ScanResult)
    requires v.observed == ObservedOf(listing) && ScanIs(listing, ms, v, now, r)
    requires Distinct(Keys(listing)) && NoSharedKeys(ms)
    requires forall e | e in listing :: e.size >= 0
    ensures ObservedTotal(r.publications) <= r.usage.totalBytes - r.usage.unclaimedBytes
    ensures (forall o | o in AllObjects(ms) && Listed(v, o) :: There(v, o)) ==>
            ObservedTotal(r.publications) == r.usage.totalBytes - r.usage.unclaimedBytes
  {
    hide There;
    UsageConserved(listing, ms, v, now, r);
    VanishedNotNegative(v, AllObjects(ms));
  }

  // ---- The mutation lock ----

  lemma {:induction false} InAllObjects(ms: seq<PublicationManifest>, o: ManifestObject)
    ensures o in AllObjects(ms) <==> exists m :: m in ms && o in m.objects
    decreases |ms|
  {
    if ms != [] {
      var n := |ms| - 1;
      InAllObjects(ms[..n], o);
      assert ms == ms[..n] + [ms[n]];
    }
  }

  lemma InSyncObjects(v: View, m: PublicationManifest, p: PublicationVerdict, o: ManifestObject)
    requires VerdictIs(v, m, p) && p.state == InSync && o in m.objects
    ensures AsAccepted(v, o) && o.key in v.observed && v.observed[o.key].size == o.size
  {
    hide DetailIs;
  }

  lemma {:induction false} SameSizes(v: View, objects: seq<ManifestObject>)
    requires forall o | o in objects :: o.key in v.observed && v.observed[o.key].size == o.size
    ensures ListedSize(v, objects) == SumSizes(objects)
    decreases |objects|
  {
    if objects != [] {
      var n := |objects| - 1;
      assert objects[n] in objects && forall o | o in objects[..n] :: o in objects;
      SameSizes(v, objects[..n]);
    }
  }

  /** Lock none certifies the bucket: the listed keys are exactly the accepted keys, byte for byte. */
  lemma LockNoneCertifiesBucket(listing: seq<ObjectListing>, ms: seq<PublicationManifest>, v: View, now: Time,
                                r: ScanResult)
    requires v.observed == ObservedOf(listing) && ScanIs(listing, ms, v, now, r)
    requires Distinct(Keys(listing)) && NoSharedKeys(ms)
    requires r.lock == LockNone
    ensures v.observed.Keys == Claimed(ms)
    ensures r.usage.unclaimedBytes == 0 && r.usage.totalBytes == r.usage.acceptedBytes
    ensures forall o | o in AllObjects(ms) :: AsAccepted(v, o)
  {
    hide Distinct, ResultFor, There, LooksSame, VerdictIs, ListedBytes;
    var objects := AllObjects(ms);
    ScanVerdicts(listing, ms, v, now, r);
    forall o | o in objects ensures AsAccepted(v, o) && o.key in v.observed && v.observed[o.key].size == o.size {
      InAllObjects(ms, o);
      var m :| m in ms && o in m.objects;
      var i :| 0 <= i < |ms| && ms[i] == m;
      assert r.publications[i] in r.publications && r.publications[i].state == InSync;
      InSyncObjects(v, m, r.publications[i], o);
    }
    assert v.observed.Keys == Claimed(ms) by {
      forall key | key in v.observed.Keys ensures key in Claimed(ms) {
        assert key in r.unclaimedKeys <==> key !in Claimed(ms);
      }
      forall key | key in Claimed(ms) ensures key in v.observed.Keys {
        ObjectKeyAt(objects, key);
      }
    }
    assert v.observed.Keys - Claimed(ms) == {};
    assert Claimed(ms) * v.observed.Keys == v.observed.Keys;
    ListedBytesIsSum(listing);
    ListedSizeIsSum(v, objects);
    SameSizes(v, objects);
  }

  // ---- Exact classification ----

  /** Storage answers for everything it listed: no errors, nothing vanishes. */
  ghost predicate Settled(v: View, objects: seq<ManifestObject>) {
    forall o | o in objects && o.key in v.observed :: v.answers.head(o.key).Ok? && v.answers.get(o.key).Ok?
  }

  ghost predicate SameBody(v: View, o: ManifestObject) {
    v.answers.get(o.key).Ok? && v.answers.get(o.key).value.sha256 == o.sha256
  }

  /** One object on settled storage: presence, cleanness and the download decision. */
  lemma ObjectExact(v: View, o: ManifestObject)
    requires Settled(v, [o])
    ensures v.Compare(o).Ok?
    ensures There(v, o) <==> Listed(v, o)
    ensures AsAccepted(v, o) <==> LooksSame(v, o) && (v.complete ==> SameBody(v, o))
    ensures v.Compare(o).value.downloaded <==> Listed(v, o) && (v.complete || !LooksSame(v, o))
  {
    hide LooksSame, CompareObject;
    CompareExact(v, o);
    assert o in [o];
    SameIsListed(v, o);
  }

  /** A publication's state on settled storage, in terms of manifest and storage alone. */
  lemma ClassificationExact(v: View, m: PublicationManifest)
    requires Settled(v, m.objects)
    ensures Comparable(v, m.objects)
    ensures StateOf(v, m.objects) == Missing <==> forall o | o in m.objects :: !Listed(v, o)
    ensures StateOf(v, m.objects) == InSync <==>
            m.objects != [] && forall o | o in m.objects :: LooksSame(v, o) && (v.complete ==> SameBody(v, o))
    ensures StateOf(v, m.objects) == Drifted <==>
            && (exists o :: o in m.objects && Listed(v, o))
            && !(forall o | o in m.objects :: LooksSame(v, o) && (v.complete ==> SameBody(v, o)))
  {
    hide CompareObject, SameBody, LooksSame, There, AsAccepted, Listed, DetailIs, StateOf, Comparable;
    VerdictExact(v, m);
    ComparableExact(v, m.objects);
    forall o | o in m.objects
      ensures Answered(v, o) && (There(v, o) <==> Listed(v, o))
      ensures AsAccepted(v, o) <==> LooksSame(v, o) && (v.complete ==> SameBody(v, o))
    {
      assert Settled(v, [o]);
      ObjectExact(v, o);
      CompareExact(v, o);
    }
  }

  /**
   On every view, also one that changes under the scan, lock none means exactly: the
   listed keys are the accepted keys, no manifest is empty, and every object is found
   as accepted by every request made for it.
   */
  lemma LockNoneExact(listing: seq<ObjectListing>, ms: seq<PublicationManifest>, v: View, now: Time, r: ScanResult)
    requires v.observed == ObservedOf(listing) && ScanIs(listing, ms, v, now, r)
    ensures r.lock == LockNone <==>
      && v.observed.Keys == Claimed(ms)
      && (forall m | m in ms :: m.objects != [])
      && (forall o | o in AllObjects(ms) :: AsAccepted(v, o))
    ensures r.lock == LockNone || r.lock == LockGlobal
  {
    hide ResultFor, AsAccepted, There, ObservedOf, DetailIs, VerdictIs;
    ScanVerdicts(listing, ms, v, now, r);
    forall i | 0 <= i < |ms| ensures r.publications[i].state == InSync <==> ObjectsMatch(v, ms[i]) {
      InSyncExact(v, ms[i], r.publications[i]);
    }
    EmptyOrMember(r.unclaimedKeys);
    UnclaimedNone(listing, ms, v, now, r);
    if r.lock == LockNone {
      forall m | m in ms ensures ObjectsMatch(v, m) {
        var i :| 0 <= i < |ms| && ms[i] == m;
        assert r.publications[i] in r.publications;
      }
      forall o | o in AllObjects(ms) ensures AsAccepted(v, o) { InAllObjects(ms, o); }
      AllClaimedListed(ms, v);
    }
    if v.observed.Keys == Claimed(ms) && (forall m | m in ms :: m.objects != [])
       && (forall o | o in AllObjects(ms) :: AsAccepted(v, o)) {
      forall i | 0 <= i < |ms| ensures r.publications[i].state == InSync {
        assert ms[i] in ms;
        forall o | o in ms[i].objects ensures o in AllObjects(ms) { InAllObjects(ms, o); }
      }
    }
  }

  ghost predicate ObjectsMatch(v: View, m: PublicationManifest) {
    m.objects != [] && forall o | o in m.objects :: AsAccepted(v, o)
  }

  lemma InSyncExact(v: View, m: PublicationManifest, p: PublicationVerdict)
    requires VerdictIs(v, m, p)
    ensures p.state == InSync <==> ObjectsMatch(v, m)
  {
    hide AsAccepted, There, DetailIs;
  }

  lemma UnclaimedNone(listing: seq<ObjectListing>, ms: seq<PublicationManifest>, v: View, now: Time, r: ScanResult)
    requires v.observed == ObservedOf(listing) && ScanIs(listing, ms, v, now, r)
    ensures r.unclaimedKeys == [] <==> v.observed.Keys <= Claimed(ms)
  {
    hide ResultFor;
    EmptyOrMember(r.unclaimedKeys);
    forall key | key in v.observed.Keys ensures key in r.unclaimedKeys <==> key !in Claimed(ms) {}
  }

  lemma AllClaimedListed(ms: seq<PublicationManifest>, v: View)
    requires v.observed.Keys <= Claimed(ms) && forall o | o in AllObjects(ms) :: AsAccepted(v, o)
    ensures v.observed.Keys == Claimed(ms)
  {
    hide LooksSame;
    forall key | key in Claimed(ms) ensures key in v.observed.Keys { ObjectKeyAt(AllObjects(ms), key); }
  }

  /** A complete reconciliation agrees on what is missing and only tightens in sync, by the bodies. */
  lemma CompleteRefinesOrdinary(v: View, m: PublicationManifest)
    requires Settled(v, m.objects)
    ensures var ordinary, complete := v.(complete := false), v.(complete := true);
      && (StateOf(complete, m.objects) == Missing <==> StateOf(ordinary, m.objects) == Missing)
      && (StateOf(complete, m.objects) == InSync <==>
          StateOf(ordinary, m.objects) == InSync && forall o | o in m.objects :: SameBody(v, o))
  {
    hide StateOf, SameTime;
    ClassificationExact(v.(complete := false), m);
    ClassificationExact(v.(complete := true), m);
  }

  // ---- Every completed scan can be recorded ----

  lemma {:induction false} SumSizesNotNegative(objects: seq<ManifestObject>)
    requires forall o | o in objects :: o.size >= 0
    ensures SumSizes(objects) >= 0
    decreases |objects|
  {
    if objects != [] {
      var n := |objects| - 1;
      assert objects[n] in objects && forall o | o in objects[..n] :: o in objects;
      SumSizesNotNegative(objects[..n]);
    }
  }

  lemma AcceptedSizesNotNegative(t: Tables, ms: seq<PublicationManifest>)
    requires RowsOk(t) && AcceptedManifestsOf(t, ms)
    ensures SumSizes(AllObjects(ms)) >= 0
  {
    forall o | o in AllObjects(ms) ensures o.size >= 0 {
      InAllObjects(ms, o);
      var m :| m in ms && o in m.objects;
      assert HoldsObject(t, m.publicationId, o);
    }
    SumSizesNotNegative(AllObjects(ms));
  }

  lemma ManifestIdsDistinct(t: Tables, ms: seq<PublicationManifest>, i: int, j: int)
    requires AcceptedManifestsOf(t, ms) && 0 <= i < j < |ms|
    ensures ms[i].publicationId != ms[j].publicationId
  {
    assert ms[i] in ms && ms[j] in ms;
    assert Less(ManifestPaths(ms)[i], ManifestPaths(ms)[j]);
    LessTotal(ms[i].path, ms[j].path);
  }

  /** A scan of a catalog's own manifests yields a record that meets every check and constraint. */
  lemma ScanIsRecordable(t: Tables, listing: seq<ObjectListing>, ms: seq<PublicationManifest>, v: View, now: Time,
                         r: ScanResult, record: ObservationRecord)
    requires RowsOk(t) && AcceptedManifestsOf(t, ms)
    requires v.observed == ObservedOf(listing) && ScanIs(listing, ms, v, now, r) && RecordOf(r, record)
    requires now != ZERO_TIME && forall e | e in listing :: e.size >= 0
    ensures RecordOk(t, record)
  {
    hide StateOf, FoundSize, RowsOk;
    AcceptedSizesNotNegative(t, ms);
    SumOverNotNegative(v.observed, v.observed.Keys - Claimed(ms));
    ListedBytesNotNegative(listing);
    forall i | 0 <= i < |record.publications|
      ensures record.publications[i].publicationId in t.publications
              && !record.publications[i].observation.state.OtherState?
    {
      assert ms[i] in ms && ManifestOf(t, ms[i]);
      KnownState(v, ms[i].objects);
    }
    forall i, j | 0 <= i < j < |record.publications|
      ensures record.publications[i].publicationId != record.publications[j].publicationId
    {
      ManifestIdsDistinct(t, ms, i, j);
    }
  }

  lemma KnownState(v: View, objects: seq<ManifestObject>)
    ensures !StateOf(v, objects).OtherState?
  {}

  lemma {:induction false} ListedBytesNotNegative(listing: seq<ObjectListing>)
    requires forall e | e in listing :: e.size >= 0
    ensures ListedBytes(listing) >= 0
    decreases |listing|
  {
    if listing != [] {
      var n := |listing| - 1;
      assert listing[n] in listing && forall e | e in listing[..n] :: e in listing;
      ListedBytesNotNegative(listing[..n]);
    }
  }
}

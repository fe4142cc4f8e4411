/** Results, storage values and error classes shared by every component. */
module Storage {

  datatype Result<+T, +E> = Ok(value: T) | Err(error: E)

  datatype Option<+T> = None | Some(value: T) {
    predicate IsFailure() { None? }
    function PropagateFailure<U>(): Option<U> requires None? { None }
    function Extract(): T requires Some? { value }
  }

  /** Nanoseconds since Go's zero time; the zero time itself is 0. */
  type Time = int

  const SECOND: int := 1_000_000_000
  const ZERO_TIME: Time := 0

  /** What formatting with RFC 3339 second precision and parsing back leaves of a time. */
  function Truncate(t: Time): Time { t - t % SECOND }

  datatype StorageError = ObjectNotFound | StorageUnavailable | StorageMisconfigured | OtherError

  type Response<+T> = Result<T, StorageError>

  datatype ObjectListing = ObjectListing(key: string, size: int, etag: string, lastModified: Time)

  datatype ObjectMeta = ObjectMeta(
    etag: string, lastModified: Time, contentType: string, contentEncoding: string,
    cacheControl: string, userMetadata: map<string, string>)

  datatype ObjectContent = ObjectContent(size: int, meta: ObjectMeta, sha256: string)

  /** classifyStatus (internal/storage/reader.go): every status other than 200 is an error. */
  function ClassifyStatus(status: int): StorageError {
    if status == 404 then ObjectNotFound
    else if status == 408 || status == 429 || status >= 500 then StorageUnavailable
    else StorageMisconfigured
  }

  // ---- Listings by key ----

  function Keys(entries: seq<ObjectListing>): (keys: seq<string>)
    ensures |keys| == |entries|
    ensures forall i | 0 <= i < |keys| :: keys[i] == entries[i].key
  {
    seq(|entries|, i requires 0 <= i < |entries| => entries[i].key)
  }

  lemma KeyAt(entries: seq<ObjectListing>, key: string)
    ensures key in Keys(entries) <==> exists e :: e in entries && e.key == key
  {
    if key in Keys(entries) {
      var i :| 0 <= i < |entries| && Keys(entries)[i] == key;
      assert entries[i] in entries;
    }
    if e :| e in entries && e.key == key {
      var i :| 0 <= i < |entries| && entries[i] == e;
      assert Keys(entries)[i] == key;
    }
  }

  type Observed = map<string, ObjectListing>

  /** The listing as a map; a later entry replaces an earlier one with its key. */
  function ObservedOf(listing: seq<ObjectListing>): (observed: Observed)
    ensures forall key :: key in observed <==> key in Keys(listing)
    ensures forall key | key in observed :: observed[key] in listing && observed[key].key == key
  {
    if listing == [] then map[]
    else
      var n := |listing| - 1;
      assert listing == listing[..n] + [listing[n]];
      assert Keys(listing) == Keys(listing[..n]) + [listing[n].key];
      ObservedOf(listing[..n])[listing[n].key := listing[n]]
  }

  /** The last entry with a key is the observed one. */
  lemma {:induction false} ObservedIsLast(listing: seq<ObjectListing>, i: nat)
    requires i < |listing| && forall j | i < j < |listing| :: listing[j].key != listing[i].key
    ensures listing[i].key in ObservedOf(listing) && ObservedOf(listing)[listing[i].key] == listing[i]
    decreases |listing|
  {
    var n: nat := |listing| - 1;
    assert Keys(listing)[i] == listing[i].key;
    if i < n { ObservedIsLast(listing[..n], i); }
  }

  method CollectObserved(listing: seq<ObjectListing>) returns (observed: Observed)
    ensures observed == ObservedOf(listing)
  {
    observed := map[];
    for i := 0 to |listing|
      invariant observed == ObservedOf(listing[..i])
    {
      assert listing[..i + 1][..i] == listing[..i];
      observed := observed[listing[i].key := listing[i]];
    }
    assert listing[..|listing|] == listing;
  }

  // ---- Manifest objects ----

  /** One exact object record; planned, adopted and manifest objects share these fields. */
  datatype ManifestObject = ManifestObject(
    key: string, relativePath: string, size: int, etag: string, modifiedAt: Time,
    contentType: string, contentEncoding: string, cacheControl: string,
    userMetadata: map<string, string>, sha256: string)

  function ObjectKey(o: ManifestObject): string { o.key }

  function ObjectKeys(objects: seq<ManifestObject>): (keys: seq<string>)
    ensures |keys| == |objects|
    ensures forall i | 0 <= i < |keys| :: keys[i] == objects[i].key
  {
    seq(|objects|, i requires 0 <= i < |objects| => objects[i].key)
  }

  lemma ObjectKeyAt(objects: seq<ManifestObject>, key: string)
    ensures key in ObjectKeys(objects) <==> exists o :: o in objects && o.key == key
  {
    if key in ObjectKeys(objects) {
      var i :| 0 <= i < |objects| && ObjectKeys(objects)[i] == key;
      assert objects[i] in objects;
    }
    if o :| o in objects && o.key == key {
      var i :| 0 <= i < |objects| && objects[i] == o;
      assert ObjectKeys(objects)[i] == key;
    }
  }

  function SumSizes(objects: seq<ManifestObject>): int {
    if objects == [] then 0 else SumSizes(objects[..|objects| - 1]) + objects[|objects| - 1].size
  }

  lemma {:induction false} SumSizesConcat(a: seq<ManifestObject>, b: seq<ManifestObject>)
    ensures SumSizes(a + b) == SumSizes(a) + SumSizes(b)
    decreases |b|
  {
    if b == [] {
      assert a + b == a;
    } else {
      var n := |b| - 1;
      SumSizesConcat(a, b[..n]);
      assert (a + b)[..|a + b| - 1] == a + b[..n];
    }
  }
}

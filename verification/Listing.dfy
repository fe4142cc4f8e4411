/**
 Paginated listing: the continuation-token loop of the storage reader
 (internal/storage/reader.go) against the page producer of the in-process bucket
 (internal/storage/s3test/server.go), with the bucket changing between requests.
 */
module Listing {
  import opened Text
  import opened Storage

  datatype Stored = Stored(size: int, etag: string, lastModified: Time)

  type Bucket = map<string, Stored>

  function EntryOf(key: string, o: Stored): ObjectListing {
    ObjectListing(key, o.size, o.etag, o.lastModified)
  }

  /** The entry is what the bucket stores under its key. */
  ghost predicate Shows(objects: Bucket, e: ObjectListing) {
    && e.key in objects && objects[e.key].size == e.size
    && objects[e.key].etag == e.etag && objects[e.key].lastModified == e.lastModified
  }

  /** One ListObjectsV2 page. Tokens are the base64 form of a key; "" is no token. */
  datatype Page = Page(entries: seq<ObjectListing>, isTruncated: bool, nextToken: string)

  predicate After(token: string, key: string) { token == "" || Less(token, key) }

  /** The page a bucket owes to a token: the first keys after it, in order. */
  ghost predicate IsPage(objects: Bucket, token: string, pageSize: nat, page: Page) {
    var keys := Keys(page.entries);
    && Ascending(keys)
    && (forall e | e in page.entries :: After(token, e.key) && Shows(objects, e))
    && (forall k, e | k in objects && After(token, k) && k !in keys && e in page.entries :: Less(e.key, k))
    && (page.isTruncated <==> exists k :: k in objects && After(token, k) && k !in keys)
    && |keys| <= pageSize
    && (page.isTruncated ==> |keys| == pageSize)
    && page.nextToken == (if page.isTruncated && keys != [] then keys[|keys| - 1] else "")
  }

  function EntriesOf(objects: Bucket, keys: seq<string>): (entries: seq<ObjectListing>)
    requires forall k | k in keys :: k in objects
    ensures Keys(entries) == keys
    ensures forall e | e in entries :: Shows(objects, e)
  {
    seq(|keys|, i requires 0 <= i < |keys| => EntryOf(keys[i], objects[keys[i]]))
  }

  /** The keys after a token are those from the first one after it. */
  lemma KeysAfter(objects: Bucket, keys: seq<string>, token: string, start: nat, k: string)
    requires start <= |keys| && Ascending(keys)
    requires forall k :: k in keys <==> k in objects
    requires forall i | 0 <= i < start :: !After(token, keys[i])
    requires start < |keys| ==> After(token, keys[start])
    ensures k in objects && After(token, k) <==> k in keys[start..]
  {
    if k in objects && After(token, k) {
      var i :| 0 <= i < |keys| && keys[i] == k;
      assert keys[start..][i - start] == k;
    }
    if k in keys[start..] {
      var i :| 0 <= i < |keys| - start && keys[start..][i] == k;
      assert keys[start + i] == k;
      if i > 0 && token != "" { LessTransitive(token, keys[start], k); }
    }
  }

  lemma AscendingSplit(keys: seq<string>, n: nat, k: string)
    requires Ascending(keys) && n <= |keys|
    ensures Ascending(keys[..n])
    ensures k in keys && k !in keys[..n] <==> k in keys[n..]
    ensures forall e | k in keys[n..] && e in keys[..n] :: Less(e, k)
  {
    AscendingIsDistinct(keys);
    assert keys == keys[..n] + keys[n..];
    if k in keys[n..] {
      var j :| 0 <= j < |keys| - n && keys[n..][j] == k;
      assert keys[n + j] == k;
      forall e | e in keys[..n] ensures Less(e, k) {
        var i :| 0 <= i < n && keys[..n][i] == e;
        assert Less(keys[i], keys[n + j]);
      }
      assert k !in keys[..n];
    }
  }

  /** A page cut from the keys after the token is the page owed to it. */
  lemma SliceIsPage(objects: Bucket, rest: seq<string>, token: string, pageSize: nat, page: Page)
    requires pageSize >= 1 && Ascending(rest)
    requires forall k :: k in rest <==> k in objects && After(token, k)
    requires page.isTruncated <==> pageSize < |rest|
    requires page.nextToken == if page.isTruncated then rest[pageSize - 1] else ""
    requires Keys(page.entries) == if page.isTruncated then rest[..pageSize] else rest
    requires forall e | e in page.entries :: Shows(objects, e)
    ensures IsPage(objects, token, pageSize, page)
  {
    hide Keys, Less, After;
    var n := if page.isTruncated then pageSize else |rest|;
    var shown := Keys(page.entries);
    assert shown == rest[..n];
    forall e | e in page.entries ensures e.key in rest {
      KeyAt(page.entries, e.key);
      var i :| 0 <= i < n && shown[i] == e.key;
      assert rest[i] == e.key;
    }
    forall k, e | k in rest && k !in shown && e in page.entries ensures Less(e.key, k) {
      AscendingSplit(rest, n, k);
      KeyAt(page.entries, e.key);
    }
    if page.isTruncated {
      AscendingSplit(rest, n, rest[n]);
      assert rest[n] == rest[n..][0];
    }
  }

  datatype Mutation = SetObject(key: string, stored: Stored) | RemoveObject(key: string)

  /** The bucket after a series of changes. */
  function Mutated(bucket: Bucket, mutations: seq<Mutation>): Bucket {
    if mutations == [] then bucket
    else
      var n := |mutations| - 1;
      var before := Mutated(bucket, mutations[..n]);
      match mutations[n]
      case SetObject(key, stored) => before[key := stored]
      case RemoveObject(key) => before - {key}
  }

  /** Of each key the last change counts, and a key without one keeps what it had. */
  ghost predicate ChangedBy(bucket: Bucket, mutations: seq<Mutation>, after: Bucket) {
    && (forall key | Untouched(mutations, key, 0) ::
          (key in after <==> key in bucket) && (key in bucket ==> after[key] == bucket[key]))
    && forall i | 0 <= i < |mutations| && Untouched(mutations, mutations[i].key, i + 1) :: InForce(mutations[i], after)
  }

  /** No change of the key from the n-th on. */
  ghost predicate Untouched(mutations: seq<Mutation>, key: string, n: nat) {
    forall j | n <= j < |mutations| :: mutations[j].key != key
  }

  ghost predicate InForce(m: Mutation, after: Bucket) {
    match m
    case SetObject(key, stored) => key in after && after[key] == stored
    case RemoveObject(key) => key !in after
  }

  lemma {:induction false} MutatedExact(bucket: Bucket, mutations: seq<Mutation>)
    ensures ChangedBy(bucket, mutations, Mutated(bucket, mutations))
    decreases |mutations|
  {
    if mutations != [] {
      var n := |mutations| - 1;
      var earlier, after := Mutated(bucket, mutations[..n]), Mutated(bucket, mutations);
      MutatedExact(bucket, mutations[..n]);
      forall key | key != mutations[n].key
        ensures (key in after <==> key in earlier) && (key in earlier ==> after[key] == earlier[key]) {}
      assert InForce(mutations[n], after);
      forall key | Untouched(mutations, key, 0)
        ensures (key in after <==> key in bucket) && (key in bucket ==> after[key] == bucket[key])
      {
        UntouchedBefore(mutations, key, 0);
      }
      forall i | 0 <= i < n && Untouched(mutations, mutations[i].key, i + 1) ensures InForce(mutations[i], after) {
        UntouchedBefore(mutations, mutations[i].key, i + 1);
        assert mutations[..n][i] == mutations[i] && InForce(mutations[..n][i], earlier);
      }
    }
  }

  lemma UntouchedBefore(mutations: seq<Mutation>, key: string, n: nat)
    requires n < |mutations| && Untouched(mutations, key, n)
    ensures Untouched(mutations[..|mutations| - 1], key, n) && mutations[|mutations| - 1].key != key
  {}

  class Server {
    var objects: Bucket
    const pageSize: nat

    constructor (objects: Bucket)
      ensures this.objects == objects && pageSize == 2
    {
      this.objects := objects;
      this.pageSize := 2;
    }

    method Apply(mutations: seq<Mutation>, ghost universe: set<string>)
      requires objects.Keys <= universe && forall m | m in mutations :: m.key in universe
      modifies this`objects
      ensures objects == Mutated(old(objects), mutations) && objects.Keys <= universe
      ensures ChangedBy(old(objects), mutations, objects)
    {
      hide ChangedBy;
      for i := 0 to |mutations|
        invariant objects == Mutated(old(objects), mutations[..i]) && objects.Keys <= universe
      {
        assert mutations[..i + 1][..i] == mutations[..i];
        match mutations[i]
        case SetObject(key, stored) => objects := objects[key := stored];
        case RemoveObject(key) => objects := objects - {key};
      }
      assert mutations[..|mutations|] == mutations;
      MutatedExact(old(objects), mutations);
    }

    method CollectKeys() returns (collected: seq<string>)
      ensures Distinct(collected) && forall k :: k in collected <==> k in objects
    {
      collected := [];
      var pending := objects.Keys;
      while pending != {}
        invariant pending <= objects.Keys && Distinct(collected)
        invariant forall k :: k in collected <==> k in objects.Keys - pending
        decreases pending
      {
        var key :| key in pending;
        assert key !in collected;
        collected, pending := collected + [key], pending - {key};
      }
    }

    method List(token: string) returns (page: Page)
      requires pageSize >= 1
      ensures IsPage(objects, token, pageSize, page)
    {
      hide Less, IsPage, SortStrings, Keys, EntriesOf, EntryOf;
      var collected := CollectKeys();
      SortStringsCorrect(collected);
      var keys := SortStrings(collected);
      var start := 0;
      if token != "" {
        while start < |keys| && !Less(token, keys[start])
          invariant 0 <= start <= |keys|
          invariant forall i | 0 <= i < start :: !Less(token, keys[i])
        {
          start := start + 1;
        }
      }
      var end := start + pageSize;
      var truncated := end < |keys|;
      var nextToken := if truncated then keys[end - 1] else "";
      var contents := keys[start..if end <= |keys| then end else |keys|];
      assert forall k | k in contents :: k in keys;
      page := Page(EntriesOf(objects, contents), truncated, nextToken);
      PageAtIsPage(objects, keys, token, pageSize, start, page);
    }
  }

  lemma PageAtIsPage(objects: Bucket, keys: seq<string>, token: string, pageSize: nat, start: nat, page: Page)
    requires pageSize >= 1 && start <= |keys| && Ascending(keys)
    requires forall k :: k in keys <==> k in objects
    requires forall i | 0 <= i < start :: !After(token, keys[i])
    requires start < |keys| ==> After(token, keys[start])
    requires page.isTruncated <==> start + pageSize < |keys|
    requires page.nextToken == if page.isTruncated then keys[start + pageSize - 1] else ""
    requires Keys(page.entries) == keys[start..if start + pageSize <= |keys| then start + pageSize else |keys|]
    requires forall e | e in page.entries :: Shows(objects, e)
    ensures IsPage(objects, token, pageSize, page)
  {
    hide Less, IsPage, After, Keys;
    var rest := keys[start..];
    forall k ensures k in rest <==> k in objects && After(token, k) {
      KeysAfter(objects, keys, token, start, k);
    }
    assert Ascending(rest);
    assert Keys(page.entries) == if page.isTruncated then rest[..pageSize] else rest;
    SliceIsPage(objects, rest, token, pageSize, page);
  }

  // ---- The reader's loop ----

  datatype Transport = RequestFailed | Answered(status: int, bodyRead: bool, parses: bool)

  ghost predicate Delivered(t: Transport) {
    t.Answered? && t.status == 200 && t.bodyRead && t.parses
  }

  /** The error a page request ends in; a body that cannot be read is classified by its status. */
  ghost predicate FailsAs(t: Transport, error: StorageError) {
    match t
    case RequestFailed => error == StorageUnavailable
    case Answered(status, bodyRead, parses) =>
      && (status == 404 ==> error == ObjectNotFound)
      && (status == 408 || status == 429 || status >= 500 ==> error == StorageUnavailable)
      && (status != 404 && status != 408 && status != 429 && status < 500 && (status != 200 || !bodyRead) ==>
          error == StorageMisconfigured)
      && (status == 200 && bodyRead ==> !parses && error == OtherError)
  }

  /** What happens around each page request: bucket changes before it, and its delivery. */
  datatype Schedule = Schedule(changes: nat -> seq<Mutation>, transport: nat -> Transport)

  /** The bucket as page request n finds it. */
  function BucketAt(bucket: Bucket, changes: nat -> seq<Mutation>, n: nat): Bucket {
    Mutated(if n == 0 then bucket else BucketAt(bucket, changes, n - 1), changes(n))
  }

  /** The views are the bucket as each page request found it. */
  ghost predicate ViewsAre(views: seq<Bucket>, bucket: Bucket, changes: nat -> seq<Mutation>) {
    forall n | 0 <= n < |views| :: views[n] == BucketAt(bucket, changes, n)
  }

  lemma NoViews(bucket: Bucket, changes: nat -> seq<Mutation>)
    ensures ViewsAre([], bucket, changes)
  {}

  lemma ViewsExtend(views: seq<Bucket>, bucket: Bucket, changes: nat -> seq<Mutation>)
    requires ViewsAre(views, bucket, changes)
    ensures var next := Mutated(if views == [] then bucket else views[|views| - 1], changes(|views|));
      ViewsAre(views + [next], bucket, changes)
  {
    hide Mutated;
  }

  /** A listing assembled while the bucket looked like each of the views in turn. */
  ghost predicate ListedDuring(views: seq<Bucket>, listing: seq<ObjectListing>) {
    && Ascending(Keys(listing))
    && (forall e | e in listing :: e.key != "" && exists v :: v in views && Shows(v, e))
    && (forall key | key != "" && (forall v | v in views :: key in v) :: key in Keys(listing))
  }

  /** The same for the part of the key order up to and including a token. */
  ghost predicate ListedUpTo(views: seq<Bucket>, listing: seq<ObjectListing>, token: string) {
    && Ascending(Keys(listing))
    && (forall e | e in listing ::
          && e.key != "" && !After(token, e.key)
          && exists v :: v in views && Shows(v, e))
    && (forall key | key != "" && !After(token, key) && (forall v | v in views :: key in v) :: key in Keys(listing))
  }

  ghost function Above(universe: set<string>, token: string): set<string> {
    set k | k in universe && Less(token, k)
  }

  lemma AboveShrinks(universe: set<string>, token: string, next: string)
    requires next in universe && After(token, next)
    ensures token != "" ==> |Above(universe, next)| < |Above(universe, token)|
    ensures |Above(universe, next)| < |universe|
  {
    LessTotal(next, next);
    if token != "" {
      forall k | k in Above(universe, next) ensures k in Above(universe, token) {
        LessTransitive(token, next, k);
      }
      assert next in Above(universe, token) - Above(universe, next);
      SubsetSize(Above(universe, next), Above(universe, token) - {next});
    }
    SubsetSize(Above(universe, next), universe - {next});
  }

  lemma {:induction false} SubsetSize<T>(a: set<T>, b: set<T>)
    requires a <= b
    ensures |a| <= |b|
  {
    assert b == a + (b - a);
  }

  function NonEmptyKeys(entries: seq<ObjectListing>): seq<ObjectListing> {
    if entries == [] then []
    else if entries[0].key == "" then NonEmptyKeys(entries[1..])
    else [entries[0]] + NonEmptyKeys(entries[1..])
  }

  lemma AscendingBehind(first: ObjectListing, tail: seq<ObjectListing>)
    requires Ascending(Keys(tail)) && forall j | 0 <= j < |tail| :: Less(first.key, Keys(tail)[j])
    ensures Ascending(Keys([first] + tail))
  {
    hide Less;
    assert Keys([first] + tail) == [first.key] + Keys(tail);
  }

  lemma {:induction false} NonEmptyKeysCorrect(entries: seq<ObjectListing>)
    requires Ascending(Keys(entries))
    ensures Ascending(Keys(NonEmptyKeys(entries)))
    ensures forall e :: e in NonEmptyKeys(entries) <==> e in entries && e.key != ""
  {
    hide Keys, Less;
    if entries != [] {
      var first, rest := entries[0], entries[1..];
      assert forall i | 0 <= i < |rest| :: Keys(rest)[i] == Keys(entries)[i + 1];
      NonEmptyKeysCorrect(rest);
      assert entries == [first] + rest;
      if first.key != "" {
        var tail := NonEmptyKeys(rest);
        forall j | 0 <= j < |tail| ensures Less(first.key, Keys(tail)[j]) {
          assert tail[j] in rest;
          var i :| 0 <= i < |rest| && rest[i] == tail[j];
          assert Less(Keys(entries)[0], Keys(entries)[i + 1]);
        }
        AscendingBehind(first, tail);
      }
    }
  }

  /** Appending the next page extends a partial listing past the page's last key. */
  lemma PageExtends(views: seq<Bucket>, listing: seq<ObjectListing>, token: string, view: Bucket, pageSize: nat,
                    page: Page)
    requires if token == "" then listing == [] else ListedUpTo(views, listing, token)
    requires pageSize >= 2 && IsPage(view, token, pageSize, page)
    ensures page.isTruncated ==> page.nextToken != "" && page.nextToken in view && After(token, page.nextToken)
    ensures page.isTruncated ==> ListedUpTo(views + [view], listing + NonEmptyKeys(page.entries), page.nextToken)
    ensures !page.isTruncated ==> ListedDuring(views + [view], listing + NonEmptyKeys(page.entries))
  {
    hide Shows;
    var added := NonEmptyKeys(page.entries);
    NonEmptyKeysCorrect(page.entries);
    ShownIsStored(view);
    var all := listing + added;
    var views' := views + [view];
    assert view in views';
    AppendedAscending(listing, added, token);
    forall e | e in all
      ensures e.key != "" && exists v :: v in views' && Shows(v, e)
    {
      if e in listing {
        var v :| v in views && Shows(v, e);
        assert v in views';
      } else {
        assert e in page.entries && Shows(view, e);
      }
    }
    forall key | key != "" && (forall v | v in views' :: key in v) && (page.isTruncated ==> !After(page.nextToken, key))
      ensures key in Keys(all)
    {
      assert forall v | v in views :: v in views';
      assert key in view;
      if After(token, key) {
        if key !in Keys(page.entries) { LastEntryBelow(view, token, pageSize, page, key); }
        KeyAt(page.entries, key);
        KeyAt(all, key);
      } else {
        KeyAt(listing, key);
        KeyAt(all, key);
      }
    }
    if page.isTruncated {
      var n := |page.entries|;
      assert Less(Keys(page.entries)[0], Keys(page.entries)[n - 1]);
      assert page.entries[n - 1] in page.entries && page.nextToken == page.entries[n - 1].key;
      forall e | e in all ensures !After(page.nextToken, e.key) {
        if e in listing {
          LessTotal(token, e.key);
          LessTotal(page.nextToken, e.key);
          if Less(page.nextToken, e.key) { LessTransitive(token, page.nextToken, e.key); }
        } else {
          var i :| 0 <= i < n && page.entries[i] == e;
          LessTotal(page.nextToken, e.key);
          if i < n - 1 { assert Less(Keys(page.entries)[i], Keys(page.entries)[n - 1]); }
        }
      }
    }
  }

  lemma ShownIsStored(view: Bucket)
    ensures forall e | Shows(view, e) :: e.key in view
  {}

  lemma LastEntryBelow(view: Bucket, token: string, pageSize: nat, page: Page, key: string)
    requires pageSize >= 1 && IsPage(view, token, pageSize, page)
    requires key in view && After(token, key) && key !in Keys(page.entries)
    ensures page.isTruncated && Less(page.nextToken, key)
  {
    assert page.entries[|page.entries| - 1] in page.entries;
  }

  lemma AppendedAscending(listing: seq<ObjectListing>, added: seq<ObjectListing>, token: string)
    requires Ascending(Keys(listing)) && Ascending(Keys(added))
    requires forall e | e in listing :: !After(token, e.key)
    requires forall e | e in added :: After(token, e.key)
    ensures Ascending(Keys(listing + added))
  {
    var all := listing + added;
    var n := |listing|;
    forall i, j | 0 <= i < j < |all| ensures Less(Keys(all)[i], Keys(all)[j]) {
      if j < n {
        assert Less(Keys(listing)[i], Keys(listing)[j]);
      } else if i >= n {
        assert Less(Keys(added)[i - n], Keys(added)[j - n]);
      } else {
        assert listing[i] in listing && added[j - n] in added;
        LessTotal(token, all[i].key);
        if all[i].key != token { LessTransitive(all[i].key, token, all[j].key); }
      }
    }
  }

  /**
   ListObjects. The bucket may change before every page request, but only within
   a finite universe of keys; the loop then terminates, and a completed listing
   is strictly ascending and holds every key that was there throughout. The views
   are the bucket as each of the page requests found it.
   */
  method ListObjects(server: Server, schedule: Schedule, ghost universe: set<string>)
    returns (r: Response<seq<ObjectListing>>, ghost views: seq<Bucket>)
    requires server.pageSize >= 2
    requires server.objects.Keys <= universe
    requires forall n: nat, m | m in schedule.changes(n) :: m.key in universe
    modifies server`objects
    ensures r.Ok? ==> ListedDuring(views, r.value)
    ensures 1 <= |views| <= |universe| + 1
    ensures forall n | 0 <= n < |views| - 1 :: Delivered(schedule.transport(n))
    ensures r.Ok? <==> Delivered(schedule.transport(|views| - 1))
    ensures r.Err? ==> FailsAs(schedule.transport(|views| - 1), r.error)
    ensures ViewsAre(views, old(server.objects), schedule.changes) && server.objects == views[|views| - 1]
  {
    hide Mutated, ChangedBy, BucketAt, ViewsAre, ListedDuring, ListedUpTo, IsPage, NonEmptyKeys, After, Above, Shows;
    var listings: seq<ObjectListing> := [];
    var token := "";
    var requests := 0;
    ghost var bucket := server.objects;
    views := [];
    NoViews(bucket, schedule.changes);
    while true
      invariant server.objects.Keys <= universe
      invariant requests == |views|
      invariant forall n | 0 <= n < requests :: Delivered(schedule.transport(n))
      invariant if token == "" then listings == [] && |views| == 0 else ListedUpTo(views, listings, token)
      invariant token != "" ==> |views| + |Above(universe, token)| <= |universe|
      invariant ViewsAre(views, bucket, schedule.changes)
      invariant server.objects == if views == [] then bucket else views[|views| - 1]
      decreases if token == "" then |universe| + 1 else |Above(universe, token)|
    {
      ViewsExtend(views, bucket, schedule.changes);
      server.Apply(schedule.changes(requests), universe);
      ghost var view := server.objects;
      var transport := schedule.transport(requests);
      var page := server.List(token);
      PageExtends(views, listings, token, view, server.pageSize, page);
      views, requests := views + [view], requests + 1;
      if transport.RequestFailed? {
        return Err(StorageUnavailable), views;
      }
      if !transport.bodyRead || transport.status != 200 {
        return Err(ClassifyStatus(transport.status)), views;
      }
      if !transport.parses {
        return Err(OtherError), views;
      }
      listings := listings + NonEmptyKeys(page.entries);
      if !page.isTruncated || page.nextToken == "" {
        return Ok(listings), views;
      }
      AboveShrinks(universe, token, page.nextToken);
      token := page.nextToken;
    }
  }

  /** Without changes every page request finds the same bucket. */
  lemma {:induction false} UnchangedViews(bucket: Bucket, changes: nat -> seq<Mutation>, n: nat)
    requires forall k: nat :: changes(k) == []
    ensures BucketAt(bucket, changes, n) == bucket
  {
    if n > 0 { UnchangedViews(bucket, changes, n - 1); }
  }

  /** On a bucket that does not change, a completed listing is exactly the sorted bucket. */
  lemma StaticListing(bucket: Bucket, views: seq<Bucket>, listing: seq<ObjectListing>)
    requires |views| >= 1 && forall v | v in views :: v == bucket
    requires ListedDuring(views, listing)
    ensures forall key :: key in Keys(listing) <==> key in bucket && key != ""
    ensures forall e | e in listing :: Shows(bucket, e)
  {
    assert views[0] in views;
    forall key ensures key in Keys(listing) <==> key in bucket && key != "" {
      KeyAt(listing, key);
    }
  }

  /** Listings of one unchanging bucket are equal, however they were paged. */
  lemma ListingsOfOneBucketAgree(bucket: Bucket, views: seq<Bucket>, views': seq<Bucket>,
                                 listing: seq<ObjectListing>, listing': seq<ObjectListing>)
    requires |views| >= 1 && (forall v | v in views :: v == bucket) && ListedDuring(views, listing)
    requires |views'| >= 1 && (forall v | v in views' :: v == bucket) && ListedDuring(views', listing')
    ensures listing == listing'
  {
    StaticListing(bucket, views, listing);
    StaticListing(bucket, views', listing');
    AscendingUnique(Keys(listing), Keys(listing'));
    assert |listing| == |listing'|;
    forall i | 0 <= i < |listing| ensures listing[i] == listing'[i] {
      assert Keys(listing)[i] == Keys(listing')[i];
      assert listing[i] in listing && listing'[i] in listing';
    }
  }
}

/**
 Numbered schema migrations (internal/catalog/catalog.go): the history check, one
 transaction per migration, and the runtime's schema check. Migrate may stop after
 any statement and be run again, by this binary or by another one.
 */
module Migrations {
  import opened Storage
  import opened Transactions

  datatype Migration = Migration(version: int, name: string, checksum: string)

  /** schema_migrations, PRAGMA user_version, and the migrations whose SQL has taken effect. */
  datatype Content = Content(history: map<int, string>, userVersion: int, executed: seq<int>)

  const FRESH: Content := Content(map[], 0, [])

  /** The embedded files are numbered 1..M; sorting by version puts number i + 1 at index i. */
  ghost predicate Embedded(ms: seq<Migration>) {
    forall i | 0 <= i < |ms| :: ms[i].version == i + 1
  }

  /** The history of exactly the first n migrations. */
  ghost predicate IsPrefix(history: map<int, string>, ms: seq<Migration>, n: nat) {
    && n <= |ms|
    && (forall v :: v in history <==> 1 <= v <= n)
    && (forall v | 1 <= v <= n :: history[v] == ms[v - 1].checksum)
  }

  /** The whole catalog is the work of exactly the first n migrations. */
  ghost predicate At(c: Content, ms: seq<Migration>, n: nat) {
    && IsPrefix(c.history, ms, n) && c.userVersion == n
    && |c.executed| == n && (forall i | 0 <= i < n :: c.executed[i] == i + 1)
  }

  function Versions(n: nat): (vs: set<int>)
    ensures forall v :: v in vs <==> 1 <= v <= n
    ensures |vs| == n
  {
    if n == 0 then {} else Versions(n - 1) + {n}
  }

  /** Pigeonhole: as many versions as there are, holding each of 1..N, are exactly 1..N. */
  lemma HoldingAllIsExact(history: map<int, string>)
    requires forall v | 1 <= v <= |history| :: v in history
    ensures forall v :: v in history <==> 1 <= v <= |history|
  {
    assert |history.Keys| == |history|;
    var versions := Versions(|history|);
    assert versions <= history.Keys;
    assert history.Keys == versions + (history.Keys - versions);
    assert |history.Keys - versions| == 0;
    forall v ensures v in history <==> 1 <= v <= |history| {
      assert v in history <==> v in history.Keys;
    }
  }

  lemma PrefixSize(history: map<int, string>, ms: seq<Migration>, n: nat)
    requires IsPrefix(history, ms, n)
    ensures |history| == n
  {
    assert history.Keys == Versions(n);
    assert |history.Keys| == |history|;
  }

  method IndexByVersion(ms: seq<Migration>) returns (byVersion: map<int, Migration>)
    requires Embedded(ms)
    ensures forall v :: v in byVersion <==> 1 <= v <= |ms|
    ensures forall v | 1 <= v <= |ms| :: byVersion[v] == ms[v - 1]
  {
    byVersion := map[];
    for i := 0 to |ms|
      invariant forall v :: v in byVersion <==> 1 <= v <= i
      invariant forall v | 1 <= v <= i :: byVersion[v] == ms[v - 1]
    {
      byVersion := byVersion[ms[i].version := ms[i]];
    }
  }

  ghost predicate RecordKnown(history: map<int, string>, ms: seq<Migration>, v: int)
    requires v in history
  {
    1 <= v <= |ms| && history[v] == ms[v - 1].checksum
  }

  /** The loop over the applied records, in whatever order the map yields them. */
  method CheckRecords(history: map<int, string>, ms: seq<Migration>) returns (ok: bool)
    requires Embedded(ms)
    ensures ok <==> forall v | v in history :: RecordKnown(history, ms, v)
  {
    var byVersion := IndexByVersion(ms);
    var unchecked := history.Items;
    while unchecked != {}
      invariant unchecked <= history.Items
      invariant forall v | v in history && (v, history[v]) !in unchecked :: RecordKnown(history, ms, v)
      decreases |unchecked|
    {
      var record :| record in unchecked;
      if record.0 !in byVersion || record.1 != byVersion[record.0].checksum {
        assert !RecordKnown(history, ms, record.0);
        return false;
      }
      unchecked := unchecked - {record};
    }
    return true;
  }

  lemma KnownIsPrefix(history: map<int, string>, ms: seq<Migration>)
    requires forall v :: v in history <==> 1 <= v <= |history|
    ensures (forall v | v in history :: RecordKnown(history, ms, v)) <==> IsPrefix(history, ms, |history|)
  {
    if forall v | v in history :: RecordKnown(history, ms, v) {
      assert |history| > 0 ==> RecordKnown(history, ms, |history|);
      forall v | 1 <= v <= |history| ensures history[v] == ms[v - 1].checksum { assert RecordKnown(history, ms, v); }
    }
  }

  /** verifyKnownHistory accepts exactly the checksum-matching prefixes of the embedded migrations. */
  method VerifyKnownHistory(history: map<int, string>, ms: seq<Migration>) returns (ok: bool)
    requires Embedded(ms)
    ensures ok <==> IsPrefix(history, ms, |history|)
    ensures !ok ==> forall n: nat :: !IsPrefix(history, ms, n)
  {
    forall n: nat | IsPrefix(history, ms, n) ensures n == |history| { PrefixSize(history, ms, n); }
    ok := CheckRecords(history, ms);
    if !ok {
      return;
    }
    for i := 1 to |history| + 1
      invariant forall v | 1 <= v < i :: v in history
    {
      if i !in history {
        return false;
      }
    }
    HoldingAllIsExact(history);
    KnownIsPrefix(history, ms);
  }

  /** The catalog file. */
  class Database {
    var content: Content

    constructor ()
      ensures content == FRESH
    {
      content := FRESH;
    }

    /**
     One migration in one transaction: its SQL (which fails if it has run before), its
     history row, user_version, and COMMIT. Whatever stops it, all or nothing is kept.
     */
    method ApplyMigration(m: Migration, faults: Faults, start: nat) returns (ok: bool, next: nat)
      modifies this
      ensures content == old(content) || content == Applied(old(content), m)
      ensures ok ==> content == Applied(old(content), m)
      ensures NoFaults(faults) ==>
        && (ok <==> m.version !in old(content).history && m.version !in old(content).executed)
        && (!ok ==> content == old(content))
    {
      next := start + 4;
      if !faults(start).Proceeds? || m.version in content.executed {
        return false, next;
      }
      var tx := content.(executed := content.executed + [m.version]);
      if !faults(start + 1).Proceeds? || m.version in tx.history {
        return false, next;
      }
      tx := tx.(history := tx.history[m.version := m.checksum]);
      if !faults(start + 2).Proceeds? {
        return false, next;
      }
      tx := tx.(userVersion := m.version);
      if faults(start + 3).Proceeds? || faults(start + 3).CrashesAfter? {
        content := tx;
      }
      return faults(start + 3).Proceeds?, next;
    }

    /**
     A history that is no prefix is refused untouched. Any other catalog, whatever its
     user_version, has some of the missing migrations applied in order, and all of them
     when Migrate reports success; only a fault or a step whose SQL had already run stops it.
     */
    method Migrate(ms: seq<Migration>, faults: Faults) returns (r: Result<(nat, nat), ()>)
      requires Embedded(ms)
      modifies this
      ensures !IsPrefix(old(content).history, ms, |old(content).history|) ==> r.Err? && content == old(content)
      ensures IsPrefix(old(content).history, ms, |old(content).history|) ==>
        && (r.Ok? ==> r.value == (|old(content).history|, |ms|))
        && exists k: nat :: Resumed(old(content), ms, k, content) && (r.Ok? ==> k == |ms|)
                            && (r.Err? && NoFaults(faults) ==> k < |ms| && ms[k].version in content.executed)
      ensures forall n: nat | At(old(content), ms, n) :: exists k: nat :: n <= k <= |ms| && At(content, ms, k)
      ensures forall n: nat | At(old(content), ms, n) && r.Ok? :: r.value == (n, |ms|) && At(content, ms, |ms|)
      ensures forall n: nat | At(old(content), ms, n) && NoFaults(faults) :: r.Ok?
    {
      var history := content.history;
      var from := |history|;
      var known := VerifyKnownHistory(history, ms);
      if !known {
        return Err(());
      }
      ghost var before := content;
      forall n: nat | At(content, ms, n) ensures n == from { PrefixSize(content.history, ms, n); }
      var next := 0;
      for i := 0 to |ms|
        invariant content == AppliedUpTo(before, ms, from, if i < from then from else i)
      {
        if ms[i].version !in history {
          assert i >= from;
          AppliedPrefix(before, ms, from, i);
          if At(before, ms, from) { AppliedIsAt(before, ms, from, i); }
          var ok, after := ApplyMigration(ms[i], faults, next);
          if !ok {
            ghost var k := if content == AppliedUpTo(before, ms, from, i) then i else i + 1;
            assert Resumed(before, ms, k, content);
            if At(before, ms, from) { AppliedIsAt(before, ms, from, k); }
            return Err(());
          }
          next := after;
        }
      }
      assert Resumed(before, ms, |ms|, content);
      if At(before, ms, from) { AppliedIsAt(before, ms, from, |ms|); }
      return Ok((from, |ms|));
    }

    /** verifySchema before quick_check: exactly the complete history with its user_version opens. */
    method VerifySchema(ms: seq<Migration>) returns (ok: bool)
      requires Embedded(ms)
      ensures ok <==> Opens(content, ms)
    {
      if |ms| == 0 {
        return false;
      }
      var latest := ms[|ms| - 1].version;
      if content.userVersion == 0 && |content.history| == 0 {
        return false;
      }
      if content.userVersion != latest || |content.history| != |ms| {
        if IsComplete(content.history, ms) { PrefixSize(content.history, ms, |ms|); }
        return false;
      }
      ok := VerifyKnownHistory(content.history, ms);
    }
  }

  /** What the runtime demands before the integrity check. */
  ghost predicate Opens(c: Content, ms: seq<Migration>) {
    |ms| > 0 && IsComplete(c.history, ms) && c.userVersion == |ms|
  }

  /** Migrations from .. k applied one after another. */
  function AppliedUpTo(c: Content, ms: seq<Migration>, from: nat, k: nat): Content
    requires from <= k <= |ms|
  {
    if k == from then c else Applied(AppliedUpTo(c, ms, from, k - 1), ms[k - 1])
  }

  /** The catalog with the missing migrations applied up to the k-th. */
  ghost predicate Resumed(c: Content, ms: seq<Migration>, k: nat, d: Content) {
    |c.history| <= k <= |ms| && d == AppliedUpTo(c, ms, |c.history|, k)
  }

  /** Each of them extends a prefix by one, so the next is not in the history. */
  lemma {:induction false} AppliedPrefix(c: Content, ms: seq<Migration>, from: nat, k: nat)
    requires Embedded(ms) && from <= k <= |ms| && IsPrefix(c.history, ms, from)
    ensures IsPrefix(AppliedUpTo(c, ms, from, k).history, ms, k)
    decreases k
  {
    if k > from { AppliedPrefix(c, ms, from, k - 1); }
  }

  /** And a clean catalog stays clean. */
  lemma {:induction false} AppliedIsAt(c: Content, ms: seq<Migration>, from: nat, k: nat)
    requires Embedded(ms) && from <= k <= |ms| && At(c, ms, from)
    ensures At(AppliedUpTo(c, ms, from, k), ms, k)
    ensures k < |ms| ==> NewVersion(AppliedUpTo(c, ms, from, k), ms, k)
    decreases k
  {
    if k > from {
      var m: nat := k - 1;
      AppliedIsAt(c, ms, from, m);
      AppliedIsNext(AppliedUpTo(c, ms, from, m), ms, m);
    }
    if k < |ms| { NextIsNew(AppliedUpTo(c, ms, from, k), ms, k); }
  }

  ghost predicate IsComplete(history: map<int, string>, ms: seq<Migration>) { IsPrefix(history, ms, |ms|) }

  function Applied(c: Content, m: Migration): Content {
    Content(c.history[m.version := m.checksum], m.version, c.executed + [m.version])
  }

  ghost predicate NewVersion(c: Content, ms: seq<Migration>, i: nat)
    requires i < |ms|
  {
    ms[i].version !in c.history && ms[i].version !in c.executed
  }

  lemma NextIsNew(c: Content, ms: seq<Migration>, n: nat)
    requires Embedded(ms) && n < |ms| && At(c, ms, n)
    ensures NewVersion(c, ms, n)
  {}

  lemma AppliedIsNext(c: Content, ms: seq<Migration>, n: nat)
    requires Embedded(ms) && n < |ms| && At(c, ms, n)
    ensures At(Applied(c, ms[n]), ms, n + 1)
  {}

  // ---- Any sequence of interrupted runs, by any releases ----

  /** What one Migrate of the release that embeds ms[..k] may leave, however it ends. */
  ghost predicate MigrateLeaves(ms: seq<Migration>, k: nat, c: Content, d: Content)
    requires k <= |ms|
  {
    if IsPrefix(c.history, ms[..k], |c.history|)
    then forall n: nat | At(c, ms[..k], n) :: exists j: nat :: n <= j <= k && At(d, ms[..k], j)
    else d == c
  }

  /** The method's outcomes are such leavings. */
  method MigrateRelease(db: Database, ms: seq<Migration>, k: nat, faults: Faults) returns (r: Result<(nat, nat), ()>)
    requires Embedded(ms) && k <= |ms|
    modifies db
    ensures MigrateLeaves(ms, k, old(db.content), db.content)
  {
    r := db.Migrate(ms[..k], faults);
  }

  lemma AtRelease(c: Content, ms: seq<Migration>, k: nat, n: nat)
    requires Embedded(ms) && k <= |ms|
    ensures n <= k ==> (At(c, ms, n) <==> At(c, ms[..k], n))
  {}

  /** A release knows a catalog exactly when no later release has migrated it further. */
  lemma KnownExactly(c: Content, ms: seq<Migration>, k: nat, n: nat)
    requires Embedded(ms) && k <= |ms| && At(c, ms, n)
    ensures IsPrefix(c.history, ms[..k], |c.history|) <==> n <= k
  {
    PrefixSize(c.history, ms, n);
    if n <= k { AtRelease(c, ms, k, n); }
  }

  /** Whatever is interrupted and whichever releases run, the catalog stays at some prefix and never goes back. */
  lemma {:induction false} RunsKeepPrefix(ms: seq<Migration>, releases: seq<nat>, contents: seq<Content>)
    returns (n: nat)
    requires Embedded(ms) && |contents| == |releases| + 1 && contents[0] == FRESH
    requires forall i | 0 <= i < |releases| ::
        releases[i] <= |ms| && MigrateLeaves(ms, releases[i], contents[i], contents[i + 1])
    ensures At(contents[|releases|], ms, n)
    ensures |releases| > 0 ==> contents[|releases| - 1].userVersion <= contents[|releases|].userVersion
    decreases |releases|
  {
    if releases == [] {
      n := 0;
    } else {
      var last := |releases| - 1;
      var before := RunsKeepPrefix(ms, releases[..last], contents[..last + 1]);
      var k, c := releases[last], contents[last];
      assert MigrateLeaves(ms, k, c, contents[last + 1]);
      KnownExactly(c, ms, k, before);
      if before <= k {
        AtRelease(c, ms, k, before);
        n :| before <= n <= k && At(contents[last + 1], ms[..k], n);
        AtRelease(contents[last + 1], ms, k, n);
      } else {
        n := before;
      }
    }
  }

  /** The runtime of a release opens a catalog exactly when that release has finished migrating it. */
  lemma OpensExactly(c: Content, ms: seq<Migration>, k: nat, n: nat)
    requires Embedded(ms) && k <= |ms| && At(c, ms, n)
    ensures Opens(c, ms[..k]) <==> 0 < k == n
  {
    AtRelease(c, ms, k, n);
  }
}

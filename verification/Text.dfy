/**
 Strings as the source uses them: byte-wise order, sorting by a string key, and
 slash-separated paths. A string is a sequence of code points; their order agrees
 with the byte order of their UTF-8 encodings, which is what Go compares.
 */
module Text {

  /** Strict lexicographic order. */
  predicate Less(a: string, b: string) {
    if b == "" then false
    else if a == "" then true
    else a[0] < b[0] || (a[0] == b[0] && Less(a[1..], b[1..]))
  }

  lemma {:induction false} LessTotal(a: string, b: string)
    ensures !(Less(a, b) && Less(b, a))
    ensures Less(a, b) || Less(b, a) || a == b
    ensures !Less(a, a)
    decreases |a|
  {
    if a != "" {
      LessTotal(a[1..], if b == "" then "" else b[1..]);
      if b != "" && a[0] == b[0] && a[1..] == b[1..] {
        assert a == [a[0]] + a[1..] && b == [b[0]] + b[1..];
      }
    }
  }

  lemma {:induction false} LessTransitive(a: string, b: string, c: string)
    requires Less(a, b) && Less(b, c)
    ensures Less(a, c)
    decreases |a|
  {
    if a != "" && a[0] == b[0] && b[0] == c[0] {
      LessTransitive(a[1..], b[1..], c[1..]);
    }
  }

  /** The first difference decides, and a proper prefix comes first. */
  lemma {:induction false} LessExact(a: string, b: string)
    ensures Less(a, b) <==>
        exists n: nat :: n <= |a| && n < |b| && a[..n] == b[..n] && (n == |a| || a[n] < b[n])
    decreases |a|
  {
    if b != "" && a == "" {
      assert a[..0] == b[..0];
    } else if b != "" {
      var x, y := a[1..], b[1..];
      LessExact(x, y);
      if a[0] < b[0] { assert a[..0] == b[..0]; }
      if a[0] == b[0] {
        if n: nat :| n <= |x| && n < |y| && x[..n] == y[..n] && (n == |x| || x[n] < y[n]) {
          assert a[..n + 1] == [a[0]] + x[..n] && b[..n + 1] == [b[0]] + y[..n];
        }
        if n: nat :| n <= |a| && n < |b| && a[..n] == b[..n] && (n == |a| || a[n] < b[n]) {
          if n > 0 { assert x[..n - 1] == a[..n][1..] && y[..n - 1] == b[..n][1..]; }
        }
      }
    }
  }

  /** Strictly ascending, hence without duplicates. */
  ghost predicate Ascending(s: seq<string>) {
    forall i, j | 0 <= i < j < |s| :: Less(s[i], s[j])
  }

  ghost predicate Distinct<T(!new)>(s: seq<T>) {
    forall i, j | 0 <= i < j < |s| :: s[i] != s[j]
  }

  lemma DistinctConcat(s: seq<string>, x: string)
    ensures Distinct(s + [x]) <==> Distinct(s) && x !in s
  {
    var t := s + [x];
    assert forall i | 0 <= i < |s| :: t[i] == s[i];
    assert t[|s|] == x;
    if x in s {
      var i :| 0 <= i < |s| && s[i] == x;
      assert t[i] == t[|s|];
    }
    if !Distinct(s) {
      var i, j :| 0 <= i < j < |s| && s[i] == s[j];
      assert t[i] == t[j];
    }
  }

  lemma AscendingIsDistinct(s: seq<string>)
    requires Ascending(s)
    ensures Distinct(s)
  {
    forall i, j | 0 <= i < j < |s| ensures s[i] != s[j] {
      LessTotal(s[i], s[j]);
    }
  }

  lemma EmptyOrMember<T>(s: seq<T>)
    ensures s == [] || exists k :: k in s
  {
    if s != [] { assert s[0] in s; }
  }

  /** An ascending sequence is determined by its elements. */
  lemma {:induction false} AscendingUnique(a: seq<string>, b: seq<string>)
    requires Ascending(a) && Ascending(b)
    requires forall k :: k in a <==> k in b
    ensures a == b
    decreases |a|
  {
    if a == [] {
      EmptyOrMember(b);
    } else {
      assert a[0] in b && b != [] && b[0] in a;
      var i :| 0 <= i < |b| && b[i] == a[0];
      var j :| 0 <= j < |a| && a[j] == b[0];
      LessTotal(a[0], b[0]);
      assert a[0] == b[0];
      AscendingIsDistinct(a);
      AscendingIsDistinct(b);
      forall k ensures k in a[1..] <==> k in b[1..] {
        TailMembers(a, k);
        TailMembers(b, k);
      }
      AscendingUnique(a[1..], b[1..]);
      assert a == [a[0]] + a[1..] && b == [b[0]] + b[1..];
    }
  }

  lemma TailMembers(a: seq<string>, k: string)
    requires Distinct(a) && a != []
    ensures k in a[1..] <==> k in a && k != a[0]
  {
    if k in a && k != a[0] {
      var i :| 0 <= i < |a| && a[i] == k;
      assert a[1..][i - 1] == k;
    }
    if k in a[1..] {
      var i :| 0 <= i < |a[1..]| && a[1..][i] == k;
      assert a[i + 1] == k;
    }
  }

  // ---- Sorting by a string key (sort.Strings, sort.Slice, sort.SliceStable) ----

  ghost predicate OrderedBy<T>(key: T -> string, s: seq<T>) {
    forall i, j | 0 <= i < j < |s| :: !Less(key(s[j]), key(s[i]))
  }

  function InsertBy<T>(key: T -> string, x: T, s: seq<T>): seq<T> {
    if s == [] then [x]
    else if Less(key(s[0]), key(x)) then [s[0]] + InsertBy(key, x, s[1..])
    else [x] + s
  }

  function SortBy<T>(key: T -> string, s: seq<T>): seq<T> {
    if s == [] then [] else InsertBy(key, s[0], SortBy(key, s[1..]))
  }

  lemma {:induction false} InsertByCorrect<T>(key: T -> string, x: T, s: seq<T>)
    requires OrderedBy(key, s)
    ensures OrderedBy(key, InsertBy(key, x, s))
    ensures multiset(InsertBy(key, x, s)) == multiset{x} + multiset(s)
    decreases |s|
  {
    var r := InsertBy(key, x, s);
    if s == [] {
    } else if Less(key(s[0]), key(x)) {
      var t := InsertBy(key, x, s[1..]);
      InsertByCorrect(key, x, s[1..]);
      assert s == [s[0]] + s[1..];
      assert r == [s[0]] + t;
      forall j | 0 <= j < |t| ensures !Less(key(t[j]), key(s[0])) {
        assert t[j] in multiset(t);
        if t[j] in multiset(s[1..]) {
          assert t[j] in s[1..];
        } else {
          LessTotal(key(s[0]), key(x));
        }
      }
    } else {
      assert s == [s[0]] + s[1..];
      forall j | 0 <= j < |s| ensures !Less(key(s[j]), key(x)) {
        if Less(key(s[j]), key(x)) {
          if j > 0 {
            LessTotal(key(s[0]), key(s[j]));
            if Less(key(s[0]), key(s[j])) {
              LessTransitive(key(s[0]), key(s[j]), key(x));
            }
          }
        }
      }
    }
  }

  lemma {:induction false} SortByCorrect<T>(key: T -> string, s: seq<T>)
    ensures OrderedBy(key, SortBy(key, s))
    ensures multiset(SortBy(key, s)) == multiset(s)
    ensures |SortBy(key, s)| == |s|
    ensures forall x :: x in SortBy(key, s) <==> x in s
    decreases |s|
  {
    if s != [] {
      SortByCorrect(key, s[1..]);
      InsertByCorrect(key, s[0], SortBy(key, s[1..]));
      assert s == [s[0]] + s[1..];
    }
    assert |multiset(SortBy(key, s))| == |multiset(s)|;
    forall x ensures x in SortBy(key, s) <==> x in s {
      assert x in SortBy(key, s) <==> x in multiset(SortBy(key, s));
      assert x in s <==> x in multiset(s);
    }
  }

  /** With distinct keys the order is strict. */
  lemma SortByDistinct<T(!new)>(key: T -> string, s: seq<T>)
    requires forall i, j | 0 <= i < j < |s| :: key(s[i]) != key(s[j])
    ensures forall i, j | 0 <= i < j < |SortBy(key, s)| :: Less(key(SortBy(key, s)[i]), key(SortBy(key, s)[j]))
  {
    var r := SortBy(key, s);
    SortByCorrect(key, s);
    DistinctIsMultiplicityOne(s);
    forall i, j | 0 <= i < j < |r| ensures Less(key(r[i]), key(r[j])) {
      assert r[i] in s && r[j] in s && multiset(r)[r[i]] == 1;
      LessTotal(key(r[i]), key(r[j]));
      assert r[i] != r[j] by {
        if r[i] == r[j] { TwiceInSeq(r, i, j); }
      }
      var a :| 0 <= a < |s| && s[a] == r[i];
      var b :| 0 <= b < |s| && s[b] == r[j];
      assert key(s[a]) != key(s[b]) by {
        if a < b { assert key(s[a]) != key(s[b]); } else { assert key(s[b]) != key(s[a]); }
      }
    }
  }

  function Identity(k: string): string { k }

  function SortStrings(s: seq<string>): seq<string> { SortBy(Identity, s) }

  /** Sorting distinct strings gives the strictly ascending listing of the same set. */
  lemma SortStringsCorrect(s: seq<string>)
    requires Distinct(s)
    ensures Ascending(SortStrings(s))
    ensures forall k :: k in SortStrings(s) <==> k in s
    ensures |SortStrings(s)| == |s|
  {
    SortByCorrect(Identity, s);
    SortByDistinct(Identity, s);
    var r := SortStrings(s);
    forall i, j | 0 <= i < j < |r| ensures Less(r[i], r[j]) {
      assert Less(Identity(r[i]), Identity(r[j]));
    }
  }

  lemma TwiceInSeq<T>(s: seq<T>, i: int, j: int)
    requires 0 <= i < j < |s| && s[i] == s[j]
    ensures multiset(s)[s[i]] >= 2
  {
    assert s == s[..i] + [s[i]] + s[i + 1..j] + [s[j]] + s[j + 1..];
  }

  lemma {:induction false} DistinctIsMultiplicityOne<T(!new)>(s: seq<T>)
    requires Distinct(s)
    ensures forall x | x in s :: multiset(s)[x] == 1
    decreases |s|
  {
    if s != [] {
      DistinctIsMultiplicityOne(s[1..]);
      assert s == [s[0]] + s[1..];
      assert s[0] !in s[1..];
    }
  }

  lemma DistinctUnion<T(!new)>(a: seq<T>, b: seq<T>)
    requires Distinct(a) && Distinct(b) && forall x | x in b :: x !in a
    ensures Distinct(a + b)
  {
    var c := a + b;
    forall i, j | 0 <= i < j < |c| ensures c[i] != c[j] {
      if i < |a| <= j { assert c[i] in a && c[j] in b; }
    }
  }

  /** Distinct sequences with the same members are permutations of each other. */
  lemma SameMembersSameMultiset<T(!new)>(a: seq<T>, b: seq<T>)
    requires Distinct(a) && Distinct(b) && forall x :: x in a <==> x in b
    ensures multiset(a) == multiset(b) && |a| == |b|
  {
    DistinctIsMultiplicityOne(a);
    DistinctIsMultiplicityOne(b);
    forall x ensures multiset(a)[x] == multiset(b)[x] {
      assert x in a <==> x in multiset(a);
      assert x in b <==> x in multiset(b);
    }
    assert multiset(a) == multiset(b);
    assert |a| == |multiset(a)| == |multiset(b)| == |b|;
  }

  // ---- Slash-separated paths ----

  /** strings.Split(s, "/"). */
  function Split(s: string): (r: seq<string>)
    ensures |r| >= 1
  {
    if s == "" then [""]
    else if s[0] == '/' then [""] + Split(s[1..])
    else
      var r := Split(s[1..]);
      [[s[0]] + r[0]] + r[1..]
  }

  /** isSegmentPrefix: b lies strictly inside a at a segment boundary. */
  predicate SegmentPrefix(a: string, b: string) { a + "/" <= b }

  /** key is path itself or lies beneath it. */
  predicate Under(path: string, key: string) { key == path || SegmentPrefix(path, key) }

  /** Two paths whose route spaces share a member: equal, or one nested in the other. */
  predicate Overlap(a: string, b: string) { Under(a, b) || Under(b, a) }

  /** The textual test is exactly "the segments of a are a prefix of the segments of b". */
  lemma {:induction false} UnderIsSegmentwise(a: string, b: string)
    ensures Under(a, b) <==> Split(a) <= Split(b)
    decreases |a|
  {
    if a == "" {
      if b != "" && b[0] == '/' { assert "/" <= b; }
    } else if b == "" {
      if a[0] != '/' { assert |Split(a)[0]| >= 1; }
    } else if a[0] != b[0] {
      assert (a + "/")[0] != b[0];
      assert Split(a)[0] != Split(b)[0] by {
        assert a[0] != '/' ==> Split(a)[0][0] == a[0];
        assert b[0] != '/' ==> Split(b)[0][0] == b[0];
      }
    } else {
      var c, x, y := a[0], a[1..], b[1..];
      UnderIsSegmentwise(x, y);
      assert a == [c] + x && b == [c] + y;
      assert a + "/" == [c] + (x + "/");
      assert Under(a, b) <==> Under(x, y) by {
        assert [c] + (x + "/") <= [c] + y <==> x + "/" <= y by { PrefixCons(c, x + "/", y); }
      }
      assert Split(a) <= Split(b) <==> Split(x) <= Split(y) by {
        var p, q := Split(x), Split(y);
        if c == '/' {
          PrefixCons("", p, q);
        } else {
          assert p == [p[0]] + p[1..] && q == [q[0]] + q[1..];
          assert p <= q <==> p[0] == q[0] && p[1..] <= q[1..] by { PrefixHead(p, q); }
          var p', q' := Split(a), Split(b);
          assert p'[1..] == p[1..] && q'[1..] == q[1..];
          PrefixHead(p', q');
          assert p'[0] == [c] + p[0] && q'[0] == [c] + q[0];
          assert p'[0] == q'[0] <==> p[0] == q[0] by {
            if p'[0] == q'[0] { assert p[0] == p'[0][1..] && q[0] == q'[0][1..]; }
          }
        }
      }
    }
  }

  lemma PrefixCons<T>(c: T, x: seq<T>, y: seq<T>)
    ensures [c] + x <= [c] + y <==> x <= y
  {
    if [c] + x <= [c] + y {
      assert x == ([c] + x)[1..] && y == ([c] + y)[1..];
      forall i | 0 <= i < |x| ensures x[i] == y[i] {
        assert ([c] + x)[i + 1] == ([c] + y)[i + 1];
      }
    }
  }

  lemma PrefixHead<T>(p: seq<T>, q: seq<T>)
    requires p != [] && q != []
    ensures p <= q <==> p[0] == q[0] && p[1..] <= q[1..]
  {
    assert p == [p[0]] + p[1..] && q == [q[0]] + q[1..];
    if p[0] == q[0] { PrefixCons(p[0], p[1..], q[1..]); }
  }

  /** A key beneath two paths makes them overlap: every key has one owner. */
  lemma OwnersOverlap(a: string, b: string, key: string)
    requires Under(a, key) && Under(b, key)
    ensures Overlap(a, b)
  {
    UnderIsSegmentwise(a, key);
    UnderIsSegmentwise(b, key);
    UnderIsSegmentwise(a, b);
    UnderIsSegmentwise(b, a);
    var p, q, k := Split(a), Split(b), Split(key);
    if |p| <= |q| {
      assert p == k[..|p|] && q == k[..|q|];
    } else {
      assert p == k[..|p|] && q == k[..|q|];
    }
  }

  lemma UnderTransitive(a: string, b: string, c: string)
    requires Under(a, b) && Under(b, c)
    ensures Under(a, c)
  {
    UnderIsSegmentwise(a, b);
    UnderIsSegmentwise(b, c);
    UnderIsSegmentwise(a, c);
  }

  lemma {:induction false} SplitOfSegment(s: string)
    requires '/' !in s
    ensures Split(s) == [s]
    decreases |s|
  {
    if s != "" {
      SplitOfSegment(s[1..]);
      assert s == [s[0]] + s[1..];
    }
  }

  /** The first segment of everything beneath a one-segment prefix is that prefix. */
  lemma FirstSegment(prefix: string, key: string)
    requires '/' !in prefix && Under(prefix, key)
    ensures Split(key)[0] == prefix
  {
    SplitOfSegment(prefix);
    UnderIsSegmentwise(prefix, key);
  }

  /** Paths of two different top-level prefixes never overlap. */
  lemma DifferentPrefixesApart(p: string, q: string, a: string, b: string)
    requires '/' !in p && '/' !in q && p != q
    requires Under(p, a) && Under(q, b)
    ensures !Overlap(a, b)
  {
    FirstSegment(p, a);
    FirstSegment(q, b);
    UnderIsSegmentwise(a, b);
    UnderIsSegmentwise(b, a);
  }

  /** key[strings.LastIndex(key, "/")+1:], or key when it has no slash. */
  function LastSegment(s: string): (r: string)
    ensures '/' !in r
  {
    if s == "" then ""
    else if s[|s| - 1] == '/' then ""
    else LastSegment(s[..|s| - 1]) + [s[|s| - 1]]
  }
}

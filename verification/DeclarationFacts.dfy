/** Accepted declarations in plain terms: which texts pass, character by character and segment by segment. */
module DeclarationFacts {
  import opened Text
  import opened Declarations

  // ---- Segments ----

  /** Segments with a slash between each two. */
  function Joined(segments: seq<string>): string {
    if segments == [] then ""
    else if |segments| == 1 then segments[0]
    else segments[0] + "/" + Joined(segments[1..])
  }

  ghost predicate SlashFree(segments: seq<string>) {
    segments != [] && forall segment | segment in segments :: '/' !in segment
  }

  lemma {:induction false} SplitJoins(s: string)
    ensures Joined(Split(s)) == s && SlashFree(Split(s))
    decreases |s|
  {
    if s != "" {
      SplitJoins(s[1..]);
      var r := Split(s[1..]);
      assert s == [s[0]] + s[1..] && r[0] in r;
      if s[0] == '/' {
        assert Split(s)[1..] == r;
      } else {
        assert Split(s)[1..] == r[1..];
        assert forall segment | segment in r[1..] :: segment in r;
      }
    }
  }

  lemma {:induction false} SplitBehind(a: string, rest: string)
    requires '/' !in a
    ensures Split(a + "/" + rest) == [a] + Split(rest)
    decreases |a|
  {
    if a == "" {
      assert (a + "/" + rest)[1..] == rest;
    } else {
      SplitBehind(a[1..], rest);
      assert (a + "/" + rest)[1..] == a[1..] + "/" + rest;
      assert a == [a[0]] + a[1..];
    }
  }

  /** Splitting is the one way to write a text as slash-free segments. */
  lemma {:induction false} SplitIsUnique(segments: seq<string>)
    requires SlashFree(segments)
    ensures Split(Joined(segments)) == segments
    decreases |segments|
  {
    assert segments[0] in segments;
    if |segments| == 1 {
      SplitOfSegment(segments[0]);
    } else {
      assert forall segment | segment in segments[1..] :: segment in segments;
      SplitIsUnique(segments[1..]);
      SplitBehind(segments[0], Joined(segments[1..]));
      assert segments == [segments[0]] + segments[1..];
    }
  }

  /** The text has no empty, dot or dot-dot segment. */
  ghost predicate CleanSegments(s: string) {
    exists segments ::
      && SlashFree(segments) && s == Joined(segments)
      && forall segment | segment in segments :: segment != "" && segment != "." && segment != ".."
  }

  lemma SegmentsExact(s: string)
    ensures ValidPathSegments(s) <==> CleanSegments(s)
  {
    SplitJoins(s);
    if CleanSegments(s) {
      var segments :| SlashFree(segments) && s == Joined(segments)
        && forall segment | segment in segments :: segment != "" && segment != "." && segment != "..";
      SplitIsUnique(segments);
    }
  }

  // ---- Characters ----

  /** Unicode's White_Space code points. */
  ghost predicate White(c: char) {
    var n := c as int;
    || 9 <= n <= 13 || 8192 <= n <= 8202
    || n in {32, 133, 160, 5760, 8232, 8233, 8239, 8287, 12288}
  }

  /** No C0 or C1 control character, no delete, no '?', no '#', and something that is no space. */
  ghost predicate CleanText(s: string) {
    && (forall c | c in s :: c as int >= 32 && !(127 <= c as int <= 159) && c != '?' && c != '#')
    && exists c :: c in s && !White(c)
  }

  lemma CharactersExact(s: string)
    ensures ValidKeyCharacters(s) <==> CleanText(s)
  {
    forall c ensures IsSpace(c) <==> White(c) {}
  }

  /** "_page-hub" in any mix of letter cases. */
  ghost predicate IsReserved(s: string) {
    && |s| == 9 && s[0] == '_' && s[5] == '-'
    && s[1] in "pP" && s[2] in "aA" && s[3] in "gG" && s[4] in "eE" && s[6] in "hH" && s[7] in "uU" && s[8] in "bB"
  }

  lemma ReservedExact(s: string)
    ensures EqualFold(s, RESERVED_MANAGER_PREFIX) <==> IsReserved(s)
  {
    var t := RESERVED_MANAGER_PREFIX;
    if |s| == 9 {
      assert forall i | 0 <= i < 9 :: LowerAscii(t[i]) == t[i];
      assert LowerAscii(s[0]) == '_' <==> s[0] == '_';
      assert LowerAscii(s[5]) == '-' <==> s[5] == '-';
      assert LowerAscii(s[1]) == 'p' <==> s[1] in "pP";
      assert LowerAscii(s[2]) == 'a' <==> s[2] in "aA";
      assert LowerAscii(s[3]) == 'g' <==> s[3] in "gG";
      assert LowerAscii(s[4]) == 'e' <==> s[4] in "eE";
      assert LowerAscii(s[6]) == 'h' <==> s[6] in "hH";
      assert LowerAscii(s[7]) == 'u' <==> s[7] in "uU";
      assert LowerAscii(s[8]) == 'b' <==> s[8] in "bB";
    }
  }

  // ---- Publications ----

  ghost predicate PrefixAccepted(prefix: string) {
    prefix != "" && prefix[0] != '.' && '/' !in prefix && !IsReserved(prefix) && CleanText(prefix)
  }

  /** The same text, or one with further segments behind it. */
  ghost predicate Extends(outer: string, inner: string) {
    exists rest :: rest != "" && inner == outer + "/" + rest
  }

  ghost predicate TextAccepted(outer: string, inner: string) {
    inner == outer || (Extends(outer, inner) && CleanSegments(inner) && CleanText(inner))
  }

  ghost predicate ProbeAccepted(probe: RouteProbe) {
    && 100 <= probe.expectStatus <= 599
    && (probe.path == "" || (CleanSegments(probe.path) && CleanText(probe.path)))
  }

  ghost predicate PublicationAccepted(p: PublicationDeclaration) {
    && PrefixAccepted(p.project.prefix) && TextAccepted(p.project.prefix, p.path)
    && (p.routingMode == ExactFile || p.routingMode == DirectoryIndex || p.routingMode == Fallback)
    && (forall key | key in p.objects :: TextAccepted(p.path, key) && multiset(p.objects)[key] == 1)
    && p.entryPoint in p.objects && (p.routingMode == ExactFile ==> p.objects == [p.entryPoint])
    && p.probes != [] && (forall probe | probe in p.probes :: ProbeAccepted(probe))
    && forall i, j | 0 <= i < j < |p.probes| :: p.probes[i].path != p.probes[j].path
  }

  lemma PrefixExact(prefix: string)
    ensures ValidPrefix(prefix) <==> PrefixAccepted(prefix)
  {
    hide EqualFold, IsReserved, ValidKeyCharacters, CleanText;
    ReservedExact(prefix);
    CharactersExact(prefix);
  }

  lemma ExtendsExact(outer: string, inner: string)
    ensures Extends(outer, inner) <==> SegmentPrefix(outer, inner) && inner != outer + "/"
  {
    if SegmentPrefix(outer, inner) && inner != outer + "/" {
      var rest := inner[|outer| + 1..];
      assert inner == outer + "/" + rest;
    }
    if rest :| rest != "" && inner == outer + "/" + rest {
      assert outer + "/" <= inner;
    }
  }

  /** Clean segments exclude slashes at either end. */
  lemma NoSlashAtEnds(s: string)
    requires CleanSegments(s)
    ensures s != "" && s[0] != '/' && s[|s| - 1] != '/'
  {
    var segments :| SlashFree(segments) && s == Joined(segments)
      && forall segment | segment in segments :: segment != "" && segment != "." && segment != "..";
    JoinedEnds(segments);
  }

  lemma {:induction false} JoinedEnds(segments: seq<string>)
    requires SlashFree(segments) && forall segment | segment in segments :: segment != ""
    ensures var s := Joined(segments); s != "" && s[0] != '/' && s[|s| - 1] != '/'
    decreases |segments|
  {
    var first := segments[0];
    assert first in segments && first[0] in first && first[|first| - 1] in first;
    if |segments| > 1 {
      assert forall segment | segment in segments[1..] :: segment in segments;
      JoinedEnds(segments[1..]);
    }
  }

  lemma PathExact(prefix: string, path: string)
    ensures ValidPath(prefix, path) <==> TextAccepted(prefix, path)
  {
    hide ValidKeyCharacters, CleanText, ValidPathSegments, CleanSegments, Extends;
    SegmentsExact(path);
    CharactersExact(path);
    ExtendsExact(prefix, path);
    if CleanSegments(path) { NoSlashAtEnds(path); }
  }

  lemma ObjectKeyExact(path: string, key: string)
    ensures ValidObjectKey(path, key) <==> TextAccepted(path, key)
  {
    hide ValidKeyCharacters, CleanText, ValidPathSegments, CleanSegments, Extends;
    SegmentsExact(key);
    CharactersExact(key);
    ExtendsExact(path, key);
  }

  lemma ProbeExact(path: string)
    ensures ValidProbePath(path) <==> path == "" || (CleanSegments(path) && CleanText(path))
  {
    hide ValidKeyCharacters, CleanText, ValidPathSegments, CleanSegments;
    SegmentsExact(path);
    CharactersExact(path);
    if CleanSegments(path) { NoSlashAtEnds(path); }
  }

  lemma KeysOnce(keys: seq<string>)
    ensures Distinct(keys) <==> forall key | key in keys :: multiset(keys)[key] == 1
  {
    if Distinct(keys) {
      DistinctIsMultiplicityOne(keys);
    } else {
      var i, j :| 0 <= i < j < |keys| && keys[i] == keys[j];
      TwiceInSeq(keys, i, j);
    }
  }

  lemma SingleKey(keys: seq<string>, entryPoint: string)
    requires entryPoint in keys
    ensures |keys| == 1 <==> keys == [entryPoint]
  {}

  lemma ProbesExact(probes: seq<RouteProbe>)
    ensures ValidProbes(probes) <==>
      && probes != [] && (forall probe | probe in probes :: ProbeAccepted(probe))
      && forall i, j | 0 <= i < j < |probes| :: probes[i].path != probes[j].path
  {
    hide ValidProbePath, CleanSegments, CleanText;
    forall probe ensures ProbeAccepted(probe) <==> 100 <= probe.expectStatus <= 599 && ValidProbePath(probe.path) {
      ProbeExact(probe.path);
    }
    forall i | 0 <= i < |probes| ensures probes[i] in probes {}
  }

  lemma PublicationExact(p: PublicationDeclaration)
    ensures ValidPublication(p) <==> PublicationAccepted(p)
  {
    hide ValidPrefix, ValidPath, ValidObjectKey, ValidProbes, PrefixAccepted, TextAccepted, ProbeAccepted, Distinct;
    PrefixExact(p.project.prefix);
    PathExact(p.project.prefix, p.path);
    forall key ensures ValidObjectKey(p.path, key) <==> TextAccepted(p.path, key) { ObjectKeyExact(p.path, key); }
    KeysOnce(p.objects);
    if p.entryPoint in p.objects { SingleKey(p.objects, p.entryPoint); }
    ProbesExact(p.probes);
  }

  /** A declaration is accepted exactly when each publication is, names agree, and no path is or extends another. */
  lemma DeclarationExact(d: Declaration)
    ensures ValidDeclaration(d) <==>
      && d.version == 1 && d.publications != []
      && (forall p | p in d.publications :: PublicationAccepted(p))
      && (forall i, j | 0 <= i < |d.publications| && 0 <= j < |d.publications| && i != j ::
            && var p, q := d.publications[i], d.publications[j];
               && p.path != q.path && !(p.path + "/" <= q.path)
               && (p.project.prefix == q.project.prefix ==> p.project.displayName == q.project.displayName))
  {
    hide ValidPublication, PublicationAccepted;
    forall p ensures ValidPublication(p) <==> PublicationAccepted(p) { PublicationExact(p); }
    forall i | 0 <= i < |d.publications| ensures d.publications[i] in d.publications {}
  }

  // ---- What acceptance protects ----

  /** The first segment is the prefix, and no segment and no character is unsafe. */
  ghost predicate SafeText(prefix: string, s: string) {
    && CleanSegments(s) && CleanText(s)
    && (s == prefix || prefix + "/" <= s)
  }

  lemma OneSegmentClean(prefix: string)
    requires PrefixAccepted(prefix)
    ensures CleanSegments(prefix)
  {
    hide CleanText, IsReserved;
    assert Joined([prefix]) == prefix && SlashFree([prefix]);
  }

  /**
   Every path and key of an accepted declaration lies under a prefix that is not the
   manager's in any letter case, and has no empty, dot or dot-dot segment anywhere.
   */
  lemma AcceptedIsSafe(d: Declaration, p: PublicationDeclaration)
    requires ValidDeclaration(d) && p in d.publications
    ensures !IsReserved(p.project.prefix) && p.project.prefix[0] != '.' && '/' !in p.project.prefix
    ensures SafeText(p.project.prefix, p.path)
    ensures forall key | key in p.objects :: SafeText(p.project.prefix, key)
  {
    hide CleanText, CleanSegments, IsReserved, ValidPublication;
    PublicationExact(p);
    OneSegmentClean(p.project.prefix);
    forall key | key in p.objects ensures SafeText(p.project.prefix, key) {
      var prefix := p.project.prefix;
      if key != p.path && p.path != prefix {
        assert prefix + "/" <= p.path <= key;
      }
    }
  }
}

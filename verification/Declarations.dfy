/**
 Adoption declarations (internal/adoption/declaration.go): the path rules, the
 loops that enforce them, and the public URLs they keep apart.
 */
module Declarations {
  import opened Text

  datatype RoutingMode = ExactFile | DirectoryIndex | Fallback | OtherMode(text: string)

  datatype ProjectDeclaration = ProjectDeclaration(prefix: string, displayName: string)

  datatype RouteProbe = RouteProbe(path: string, expectStatus: int)

  datatype PublicationDeclaration = PublicationDeclaration(
    project: ProjectDeclaration, path: string, displayName: string, entryPoint: string,
    routingMode: RoutingMode, objects: seq<string>, probes: seq<RouteProbe>)

  datatype Declaration = Declaration(version: int, publications: seq<PublicationDeclaration>)

  const RESERVED_MANAGER_PREFIX := "_page-hub"

  // ---- Path rules ----

  /** unicode.IsControl. */
  predicate IsControl(c: char) { c < ' ' || '\U{7F}' <= c <= '\U{9F}' }

  /** unicode.IsSpace. */
  predicate IsSpace(c: char) {
    || '\t' <= c <= '\r' || c == ' ' || c == '\U{85}' || c == '\U{A0}' || c == '\U{1680}'
    || '\U{2000}' <= c <= '\U{200A}' || c == '\U{2028}' || c == '\U{2029}'
    || c == '\U{202F}' || c == '\U{205F}' || c == '\U{3000}'
  }

  predicate Blank(s: string) { forall c | c in s :: IsSpace(c) }

  predicate ValidKeyCharacters(s: string) {
    && (forall c | c in s :: !IsControl(c) && c != '?' && c != '#')
    && !Blank(s)
  }

  predicate ValidPathSegments(s: string) {
    forall segment | segment in Split(s) :: segment != "" && segment != "." && segment != ".."
  }

  function LowerAscii(c: char): char {
    if 'A' <= c <= 'Z' then c + ('a' - 'A') else c
  }

  /** strings.EqualFold against a name whose letters have only ASCII case variants. */
  predicate EqualFold(s: string, t: string) {
    |s| == |t| && forall i | 0 <= i < |s| :: LowerAscii(s[i]) == LowerAscii(t[i])
  }

  predicate ValidPrefix(prefix: string) {
    && prefix != ""
    && !EqualFold(prefix, RESERVED_MANAGER_PREFIX)
    && !("." <= prefix)
    && '/' !in prefix
    && ValidKeyCharacters(prefix)
  }

  predicate ValidPath(prefix: string, path: string) {
    || path == prefix
    || (&& SegmentPrefix(prefix, path)
        && path[|path| - 1] != '/'
        && ValidPathSegments(path)
        && ValidKeyCharacters(path))
  }

  predicate ValidObjectKey(path: string, key: string) {
    || key == path
    || (&& SegmentPrefix(path, key)
        && key != path + "/"
        && ValidPathSegments(key)
        && ValidKeyCharacters(key))
  }

  predicate ValidProbePath(path: string) {
    || path == ""
    || (path[0] != '/' && path[|path| - 1] != '/' && ValidPathSegments(path) && ValidKeyCharacters(path))
  }

  /** Whitespace inside an otherwise good value is rejected exactly when it is a control character. */
  lemma WhitespaceRejectedExactly(s: string, i: nat, c: char)
    requires ValidKeyCharacters(s) && i <= |s| && IsSpace(c)
    ensures ValidKeyCharacters(s[..i] + [c] + s[i..]) <==> !IsControl(c)
  {
    var t := s[..i] + [c] + s[i..];
    assert t[i] == c && s == s[..i] + s[i..];
    assert c in t && forall d | d in t :: d == c || d in s;
    var d :| d in s && !IsSpace(d);
    assert d in s[..i] || d in s[i..];
    assert d in t;
  }

  /** So an object key may hold a space. */
  lemma SpaceIsAccepted()
    ensures IsSpace(' ') && ValidObjectKey("a", "a/b c")
  {
    var key := "a/b c";
    assert key[1..] == "/b c" && key[1..][1..] == "b c";
    SplitOfSegment("b c");
    assert Split(key[1..]) == [""] + Split("b c");
    var rest := Split(key[1..]);
    assert rest == ["", "b c"] && Split(key) == [[key[0]] + rest[0]] + rest[1..];
    assert rest[1..] == ["b c"] && [key[0]] + rest[0] == "a";
    assert key[0] in key && !IsSpace(key[0]);
  }

  // ---- What a valid declaration means ----

  ghost predicate ValidProbes(probes: seq<RouteProbe>) {
    && probes != []
    && (forall i | 0 <= i < |probes| ::
          100 <= probes[i].expectStatus <= 599 && ValidProbePath(probes[i].path))
    && (forall i, j | 0 <= i < j < |probes| :: probes[i].path != probes[j].path)
  }

  ghost predicate ValidPublication(p: PublicationDeclaration) {
    && ValidPrefix(p.project.prefix)
    && ValidPath(p.project.prefix, p.path)
    && !p.routingMode.OtherMode?
    && p.objects != []
    && (p.routingMode.ExactFile? ==> |p.objects| == 1)
    && Distinct(p.objects)
    && (forall key | key in p.objects :: ValidObjectKey(p.path, key))
    && p.entryPoint in p.objects
    && ValidProbes(p.probes)
  }

  /** No declared path equals or nests in another. */
  ghost predicate BoundariesApart(ps: seq<PublicationDeclaration>) {
    forall i, j | 0 <= i < j < |ps| :: !Overlap(ps[i].path, ps[j].path)
  }

  ghost predicate ObjectsApart(ps: seq<PublicationDeclaration>) {
    forall i, j, key | 0 <= i < j < |ps| && key in ps[i].objects :: key !in ps[j].objects
  }

  ghost predicate DisplayNamesAgree(ps: seq<PublicationDeclaration>) {
    forall i, j | 0 <= i < j < |ps| && ps[i].project.prefix == ps[j].project.prefix ::
      ps[i].project.displayName == ps[j].project.displayName
  }

  ghost predicate ValidDeclaration(d: Declaration) {
    && d.version == 1
    && d.publications != []
    && (forall i | 0 <= i < |d.publications| :: ValidPublication(d.publications[i]))
    && DisplayNamesAgree(d.publications)
    && BoundariesApart(d.publications)
  }

  // ---- The checking loops ----

  method ValidateProbes(probes: seq<RouteProbe>) returns (ok: bool)
    ensures ok <==> ValidProbes(probes)
  {
    if |probes| == 0 {
      return false;
    }
    var seen: set<string> := {};
    for i := 0 to |probes|
      invariant forall path :: path in seen <==> exists a :: 0 <= a < i && probes[a].path == path
      invariant forall a | 0 <= a < i ::
        100 <= probes[a].expectStatus <= 599 && ValidProbePath(probes[a].path)
      invariant forall a, b | 0 <= a < b < i :: probes[a].path != probes[b].path
    {
      if probes[i].expectStatus < 100 || probes[i].expectStatus > 599 {
        return false;
      }
      if probes[i].path in seen {
        return false;
      }
      seen := seen + {probes[i].path};
      if !ValidProbePath(probes[i].path) {
        return false;
      }
    }
    return true;
  }

  method ValidatePublication(p: PublicationDeclaration) returns (ok: bool)
    ensures ok <==> ValidPublication(p)
  {
    if !ValidPrefix(p.project.prefix) || !ValidPath(p.project.prefix, p.path) || p.routingMode.OtherMode? {
      return false;
    }
    if |p.objects| == 0 || (p.routingMode.ExactFile? && |p.objects| != 1) {
      return false;
    }
    var seen: set<string> := {};
    for i := 0 to |p.objects|
      invariant forall key :: key in seen <==> key in p.objects[..i]
      invariant Distinct(p.objects[..i])
      invariant forall key | key in p.objects[..i] :: ValidObjectKey(p.path, key)
    {
      assert p.objects[..i + 1] == p.objects[..i] + [p.objects[i]];
      if p.objects[i] in seen {
        assert !Distinct(p.objects) by {
          var a :| 0 <= a < i && p.objects[..i][a] == p.objects[i];
          assert p.objects[a] == p.objects[i];
        }
        return false;
      }
      seen := seen + {p.objects[i]};
      if !ValidObjectKey(p.path, p.objects[i]) {
        return false;
      }
    }
    assert p.objects[..|p.objects|] == p.objects;
    var entryDeclared := false;
    for i := 0 to |p.objects|
      invariant !entryDeclared && p.entryPoint !in p.objects[..i]
    {
      assert p.objects[..i + 1] == p.objects[..i] + [p.objects[i]];
      if p.objects[i] == p.entryPoint {
        entryDeclared := true;
        break;
      }
    }
    if !entryDeclared {
      return false;
    }
    ok := ValidateProbes(p.probes);
  }

  method CheckBoundaries(ps: seq<PublicationDeclaration>) returns (ok: bool)
    ensures ok <==> BoundariesApart(ps)
  {
    for i := 0 to |ps|
      invariant forall a, b | 0 <= a < i && a < b < |ps| :: !Overlap(ps[a].path, ps[b].path)
    {
      for j := i + 1 to |ps|
        invariant forall b | i < b < j :: !Overlap(ps[i].path, ps[b].path)
      {
        var outer, inner := ps[i].path, ps[j].path;
        if outer == inner || SegmentPrefix(outer, inner) || SegmentPrefix(inner, outer) {
          return false;
        }
      }
    }
    return true;
  }

  /** Every object key declared by the publications. */
  ghost function DeclaredKeys(ps: seq<PublicationDeclaration>): set<string> {
    set i, key | 0 <= i < |ps| && key in ps[i].objects :: key
  }

  /** Records one publication's keys; stops at a key an earlier publication declared. */
  method ClaimObjects(objects: seq<string>, index: int, claimed: map<string, int>)
    returns (ok: bool, seenObjects: map<string, int>)
    requires Distinct(objects)
    ensures ok <==> forall key | key in objects :: key !in claimed
    ensures ok ==> seenObjects.Keys == claimed.Keys + (set key | key in objects)
  {
    seenObjects := claimed;
    for j := 0 to |objects|
      invariant seenObjects.Keys == claimed.Keys + (set key | key in objects[..j])
      invariant forall key | key in objects[..j] :: key !in claimed
    {
      assert objects[..j + 1] == objects[..j] + [objects[j]];
      if objects[j] in seenObjects {
        return false, seenObjects;
      }
      seenObjects := seenObjects[objects[j] := index];
    }
    assert objects[..|objects|] == objects;
    ok := true;
  }

  /** Records one Project's display name; reports a conflicting one. */
  method ClaimDisplayName(project: ProjectDeclaration, known: map<string, string>)
    returns (ok: bool, names: map<string, string>)
    ensures ok <==> (project.prefix in known ==> known[project.prefix] == project.displayName)
    ensures ok ==> names == known[project.prefix := project.displayName]
  {
    names := known;
    if project.prefix in known {
      ok := known[project.prefix] == project.displayName;
    } else {
      ok, names := true, known[project.prefix := project.displayName];
    }
  }

  ghost predicate NamesOf(ps: seq<PublicationDeclaration>, names: map<string, string>) {
    && (forall i | 0 <= i < |ps| ::
          ps[i].project.prefix in names && names[ps[i].project.prefix] == ps[i].project.displayName)
    && (forall prefix | prefix in names :: exists i :: 0 <= i < |ps| && ps[i].project.prefix == prefix)
  }

  lemma NamesOfExtend(ps: seq<PublicationDeclaration>, names: map<string, string>, p: PublicationDeclaration)
    requires NamesOf(ps, names)
    ensures DisplayNamesAgree(ps)
    ensures (p.project.prefix in names ==> names[p.project.prefix] == p.project.displayName)
            <==> DisplayNamesAgree(ps + [p])
    ensures DisplayNamesAgree(ps + [p]) ==> NamesOf(ps + [p], names[p.project.prefix := p.project.displayName])
  {
    var qs := ps + [p];
    if p.project.prefix in names {
      var i :| 0 <= i < |ps| && ps[i].project.prefix == p.project.prefix;
      assert qs[i].project.displayName == names[p.project.prefix] && qs[|ps|] == p;
    }
    var m := names[p.project.prefix := p.project.displayName];
    if DisplayNamesAgree(qs) {
      forall prefix | prefix in m ensures exists i :: 0 <= i < |qs| && qs[i].project.prefix == prefix {
        if prefix == p.project.prefix {
          assert qs[|ps|].project.prefix == prefix;
        } else {
          var i :| 0 <= i < |ps| && ps[i].project.prefix == prefix;
          assert qs[i].project.prefix == prefix;
        }
      }
    }
  }

  /** The per-publication part of Validate; claims and names carry the earlier publications. */
  method ValidateNext(d: Declaration, i: int, claimed: map<string, int>, known: map<string, string>)
    returns (ok: bool, seenObjects: map<string, int>, names: map<string, string>)
    requires 0 <= i < |d.publications|
    requires claimed.Keys == DeclaredKeys(d.publications[..i])
    requires NamesOf(d.publications[..i], known)
    ensures ok ==> ValidPublication(d.publications[i])
    ensures ok ==> seenObjects.Keys == DeclaredKeys(d.publications[..i + 1])
    ensures ok ==> NamesOf(d.publications[..i + 1], names) && DisplayNamesAgree(d.publications[..i + 1])
    ensures !ok ==> !ValidDeclaration(d)
  {
    hide NamesOf, DisplayNamesAgree, DeclaredKeys, BoundariesApart, ValidPublication;
    seenObjects, names := claimed, known;
    var p := d.publications[i];
    ok := ValidatePublication(p);
    if !ok {
      return;
    }
    ghost var earlier := d.publications[..i];
    assert d.publications[..i + 1] == earlier + [p];
    NamesOfExtend(earlier, known, p);
    assert Distinct(p.objects) by { ValidKeysDistinct(p); }
    ok, seenObjects := ClaimObjects(p.objects, i, claimed);
    if !ok {
      SharedObjectIsInvalid(d, i);
      return;
    }
    DeclaredKeysExtend(earlier, p);
    ok, names := ClaimDisplayName(p.project, known);
    if !ok {
      DisplayNamesPrefix(d.publications, i + 1);
    }
  }

  lemma ValidKeysDistinct(p: PublicationDeclaration)
    requires ValidPublication(p)
    ensures Distinct(p.objects)
  {}

  method Validate(d: Declaration) returns (ok: bool)
    ensures ok <==> ValidDeclaration(d)
  {
    hide NamesOf, DisplayNamesAgree, DeclaredKeys, BoundariesApart, ValidPublication;
    if d.version != 1 || |d.publications| == 0 {
      return false;
    }
    var seenObjects: map<string, int> := map[];
    var projectDisplayNames: map<string, string> := map[];
    NothingSeen(d.publications[..0]);
    for i := 0 to |d.publications|
      invariant forall a | 0 <= a < i :: ValidPublication(d.publications[a])
      invariant seenObjects.Keys == DeclaredKeys(d.publications[..i])
      invariant NamesOf(d.publications[..i], projectDisplayNames) && DisplayNamesAgree(d.publications[..i])
    {
      ok, seenObjects, projectDisplayNames := ValidateNext(d, i, seenObjects, projectDisplayNames);
      if !ok {
        return;
      }
    }
    assert d.publications[..|d.publications|] == d.publications;
    ok := CheckBoundaries(d.publications);
  }

  lemma NothingSeen(ps: seq<PublicationDeclaration>)
    requires ps == []
    ensures NamesOf(ps, map[]) && DisplayNamesAgree(ps) && DeclaredKeys(ps) == {}
  {}

  lemma DisplayNamesPrefix(ps: seq<PublicationDeclaration>, n: nat)
    requires n <= |ps| && !DisplayNamesAgree(ps[..n])
    ensures !DisplayNamesAgree(ps)
  {
    var i, j :| 0 <= i < j < n && ps[..n][i].project.prefix == ps[..n][j].project.prefix
                && ps[..n][i].project.displayName != ps[..n][j].project.displayName;
    assert ps[i].project.prefix == ps[j].project.prefix;
  }

  lemma DeclaredKeysExtend(ps: seq<PublicationDeclaration>, p: PublicationDeclaration)
    ensures DeclaredKeys(ps + [p]) == DeclaredKeys(ps) + (set key | key in p.objects)
  {
    var qs := ps + [p];
    forall key | key in DeclaredKeys(ps) ensures key in DeclaredKeys(qs) {
      var i :| 0 <= i < |ps| && key in ps[i].objects;
      assert key in qs[i].objects;
    }
    forall key | key in p.objects ensures key in DeclaredKeys(qs) {
      assert key in qs[|ps|].objects;
    }
  }

  /** The seenObjects check only rejects what the boundary check rejects as well. */
  lemma SharedObjectIsInvalid(d: Declaration, i: int)
    requires 0 <= i < |d.publications|
    requires exists key :: key in d.publications[i].objects && key in DeclaredKeys(d.publications[..i])
    ensures !ValidDeclaration(d)
  {
    if ValidDeclaration(d) {
      var key :| key in d.publications[i].objects && key in DeclaredKeys(d.publications[..i]);
      var a :| 0 <= a < i && key in d.publications[..i][a].objects;
      ValidKeysAreUnder(d.publications[a], key);
      ValidKeysAreUnder(d.publications[i], key);
      KeyHasOneOwner(d, a, i, key);
    }
  }

  /** Valid boundaries already give every object key exactly one declared owner. */
  lemma KeyHasOneOwner(d: Declaration, i: int, j: int, key: string)
    requires ValidDeclaration(d)
    requires 0 <= i < |d.publications| && 0 <= j < |d.publications|
    requires Under(d.publications[i].path, key) && Under(d.publications[j].path, key)
    ensures i == j
  {
    OwnersOverlap(d.publications[i].path, d.publications[j].path, key);
  }

  lemma ValidImpliesObjectsApart(d: Declaration)
    requires ValidDeclaration(d)
    ensures ObjectsApart(d.publications)
  {
    forall i, j, key | 0 <= i < j < |d.publications| && key in d.publications[i].objects
      ensures key !in d.publications[j].objects
    {
      ValidKeysAreUnder(d.publications[i], key);
      if key in d.publications[j].objects {
        ValidKeysAreUnder(d.publications[j], key);
        KeyHasOneOwner(d, i, j, key);
      }
    }
  }

  // ---- Public URLs ----

  function CanonicalURL(baseURL: string, path: string, entryPoint: string, mode: RoutingMode): string {
    if mode.ExactFile? && entryPoint != "" then baseURL + "/" + entryPoint
    else baseURL + "/" + path
  }

  function ProbeURL(canonical: string, probePath: string): string {
    if probePath == "" then canonical else canonical + "/" + probePath
  }

  /** The part of the canonical URL below the base URL. */
  function Route(path: string, entryPoint: string, mode: RoutingMode): (route: string)
    ensures forall baseURL :: CanonicalURL(baseURL, path, entryPoint, mode) == baseURL + "/" + route
  {
    if mode.ExactFile? && entryPoint != "" then entryPoint else path
  }

  lemma ConcatLeftInjective(base: string, x: string, y: string)
    requires base + x == base + y
    ensures x == y
  {
    assert x == (base + x)[|base|..] && y == (base + y)[|base|..];
  }

  /** Two publications that do not overlap have different canonical URLs, whatever their routing modes. */
  lemma CanonicalURLsDiffer(baseURL: string,
                            a: string, aEntry: string, aMode: RoutingMode,
                            b: string, bEntry: string, bMode: RoutingMode)
    requires !Overlap(a, b) && Under(a, aEntry) && Under(b, bEntry)
    ensures CanonicalURL(baseURL, a, aEntry, aMode) != CanonicalURL(baseURL, b, bEntry, bMode)
  {
    var x, y := Route(a, aEntry, aMode), Route(b, bEntry, bMode);
    if x == y { OwnersOverlap(a, b, x); }
    if baseURL + "/" + x == baseURL + "/" + y {
      ConcatLeftInjective(baseURL + "/", x, y);
    }
  }

  lemma ValidKeysAreUnder(p: PublicationDeclaration, key: string)
    requires ValidPublication(p) && key in p.objects
    ensures Under(p.path, key) && Under(p.project.prefix, key) && Under(p.project.prefix, p.path)
  {
    assert ValidObjectKey(p.path, key);
    UnderTransitive(p.project.prefix, p.path, key);
  }

  function DeclaredProbeURL(baseURL: string, p: PublicationDeclaration, probe: RouteProbe): string {
    ProbeURL(CanonicalURL(baseURL, p.path, p.entryPoint, p.routingMode), probe.path)
  }

  lemma ProbeRouteUnder(baseURL: string, p: PublicationDeclaration, probe: RouteProbe) returns (route: string)
    requires ValidPublication(p)
    ensures DeclaredProbeURL(baseURL, p, probe) == baseURL + "/" + route
    ensures Under(p.path, route)
  {
    var canonical := Route(p.path, p.entryPoint, p.routingMode);
    ValidKeysAreUnder(p, p.entryPoint);
    route := if probe.path == "" then canonical else canonical + "/" + probe.path;
    assert baseURL + "/" + (canonical + "/" + probe.path) == baseURL + "/" + canonical + "/" + probe.path;
    UnderTransitive(p.path, canonical, route);
  }

  /** Every probe of a valid declaration requests a URL no other probe requests. */
  lemma ProbeURLsDistinct(d: Declaration, baseURL: string, i: int, a: int, j: int, b: int)
    requires ValidDeclaration(d)
    requires 0 <= i < |d.publications| && 0 <= a < |d.publications[i].probes|
    requires 0 <= j < |d.publications| && 0 <= b < |d.publications[j].probes|
    requires DeclaredProbeURL(baseURL, d.publications[i], d.publications[i].probes[a])
          == DeclaredProbeURL(baseURL, d.publications[j], d.publications[j].probes[b])
    ensures i == j && a == b
  {
    var p, q := d.publications[i], d.publications[j];
    var x := ProbeRouteUnder(baseURL, p, p.probes[a]);
    var y := ProbeRouteUnder(baseURL, q, q.probes[b]);
    ConcatLeftInjective(baseURL + "/", x, y);
    KeyHasOneOwner(d, i, j, x);
    var c := CanonicalURL(baseURL, p.path, p.entryPoint, p.routingMode);
    var s, t := p.probes[a].path, p.probes[b].path;
    assert ProbeURL(c, s) == c + (if s == "" then "" else "/" + s);
    assert ProbeURL(c, t) == c + (if t == "" then "" else "/" + t);
    ConcatLeftInjective(c, if s == "" then "" else "/" + s, if t == "" then "" else "/" + t);
    if s != "" && t != "" { ConcatLeftInjective("/", s, t); }
    assert s == t;
  }

  // ---- Paths inside a publication ----

  function RelativePath(path: string, key: string): string {
    if key == path then LastSegment(key)
    else if SegmentPrefix(path, key) then key[|path| + 1..]
    else key
  }

  /** A key other than the path itself is rebuilt from its relative path. */
  lemma RelativePathRebuilds(path: string, key: string)
    requires ValidObjectKey(path, key) && key != path
    ensures key == path + "/" + RelativePath(path, key)
  {
    assert key == key[..|path| + 1] + key[|path| + 1..];
    assert key[..|path| + 1] == path + "/";
  }

  /** Two keys of one publication share a relative path exactly in the a/x versus a/x/x case. */
  lemma RelativePathCollision(path: string, k: string, l: string)
    requires ValidObjectKey(path, k) && ValidObjectKey(path, l) && k != l
    ensures RelativePath(path, k) == RelativePath(path, l) <==>
            {k, l} == {path, path + "/" + LastSegment(path)}
  {
    var twin := path + "/" + LastSegment(path);
    assert twin != path by { assert |twin| > |path|; }
    if k != path { RelativePathRebuilds(path, k); }
    if l != path { RelativePathRebuilds(path, l); }
    assert twin[|path| + 1..] == LastSegment(path);
    assert SegmentPrefix(path, twin) by { assert twin[..|path| + 1] == path + "/"; }
    if k == path {
      assert {k, l} == {path, twin} <==> l == twin by {
        if {k, l} == {path, twin} { assert twin in {k, l}; }
      }
    } else if l == path {
      assert {k, l} == {path, twin} <==> k == twin by {
        if {k, l} == {path, twin} { assert twin in {k, l}; }
      }
    } else {
      assert path !in {k, l};
    }
  }
}

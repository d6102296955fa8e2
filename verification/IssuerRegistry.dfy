/** The registry of protected resources and the routing decision made on every request path. */
module IssuerRegistry {
  import opened Text
  import Utf8
  import RequestPath

  /** Trusted facts about the protected resource a request was matched to. */
  datatype SurfaceContext = SurfaceContext(resourcePath: string, resourceUrl: string, issuer: string)

  type AuthenticatorId = nat

  datatype Runtime = Runtime(
    surface: SurfaceContext, authenticator: AuthenticatorId, allowedClientIds: set<string>)
  {
    function ResourcePath(): string { surface.resourcePath }
  }

  datatype UnmatchedRoutePolicy = PassThroughUnmatched | DenyUnmatched

  datatype WellKnownKind = AuthorizationServer | OpenIdConfiguration | ProtectedResource

  /** Which metadata document a well-known path serves, and of which entry. */
  datatype WellKnownRoute = WellKnownRoute(kind: WellKnownKind, entry: Runtime)

  datatype Registry = Registry(
    entries: seq<Runtime>, wellKnown: map<string, WellKnownRoute>, publicPaths: set<string>,
    publicPrefixes: seq<string>, policy: UnmatchedRoutePolicy)

  // ----- Resource paths -----

  function StripLeadingSlashes(s: string): (r: string)
    ensures r != "" ==> r[0] != '/'
  {
    if s != "" && s[0] == '/' then StripLeadingSlashes(s[1..]) else s
  }

  function StripTrailingSlashes(s: string): (r: string)
    ensures r <= s
    ensures r != "" ==> r[|r| - 1] != '/'
  {
    if s != "" && s[|s| - 1] == '/' then StripTrailingSlashes(s[..|s| - 1]) else s
  }

  predicate IsResourcePath(path: string)
  {
    path == "/" || (|path| >= 2 && path[0] == '/' && path[1] != '/' && path[|path| - 1] != '/')
  }

  function NormalizeResourcePath(path: string): (normal: string)
    ensures IsResourcePath(normal)
  {
    var trimmed := Trim(path);
    if trimmed == "" || trimmed == "/" then "/"
    else
      var inner := StripTrailingSlashes(StripLeadingSlashes(trimmed));
      if inner == "" then "/" else "/" + inner
  }

  predicate AllSlashes(s: string) { forall i :: 0 <= i < |s| ==> s[i] == '/' }

  lemma {:induction false} LeadingSlashes(s: string) returns (front: string)
    ensures s == front + StripLeadingSlashes(s) && AllSlashes(front)
  {
    front := "";
    if s != "" && s[0] == '/' {
      var rest := LeadingSlashes(s[1..]);
      front := ['/'] + rest;
    }
  }

  lemma {:induction false} TrailingSlashes(s: string) returns (back: string)
    ensures s == StripTrailingSlashes(s) + back && AllSlashes(back)
  {
    back := "";
    if s != "" && s[|s| - 1] == '/' {
      var rest := TrailingSlashes(s[..|s| - 1]);
      back := rest + ['/'];
    }
  }

  /** The path loses outer white space and outer slashes, gains one leading slash, and nothing else. */
  lemma ResourcePathCore(path: string) returns (front: string, core: string, back: string)
    ensures Trim(path) == front + core + back && AllSlashes(front) && AllSlashes(back)
    ensures NormalizeResourcePath(path) == "/" + core
  {
    front := LeadingSlashes(Trim(path));
    var inner := StripLeadingSlashes(Trim(path));
    back := TrailingSlashes(inner);
    core := StripTrailingSlashes(inner);
    assert Trim(path) == "/" ==> inner == "";
  }

  predicate PathMatchesResource(path: string, resource: string)
  {
    || resource == "/"
    || path == resource
    || FollowedBySlash(path, resource)
  }

  predicate FollowedBySlash(path: string, resource: string)
  {
    resource <= path && |resource| < |path| && path[|resource|] == '/'
  }

  predicate IsPublicPath(reg: Registry, path: string)
  {
    || path in reg.publicPaths
    || exists i :: 0 <= i < |reg.publicPrefixes| && PathMatchesResource(path, reg.publicPrefixes[i])
  }

  // ----- Entries -----

  predicate DistinctResources(entries: seq<Runtime>)
  {
    forall i, j :: 0 <= i < j < |entries| ==> entries[i].ResourcePath() != entries[j].ResourcePath()
  }

  predicate ValidEntries(entries: seq<Runtime>)
  {
    && DistinctResources(entries)
    && forall i :: 0 <= i < |entries| ==> IsResourcePath(entries[i].ResourcePath())
  }

  // ----- Longest match -----

  function BestLen(best: Option<Runtime>): nat
  {
    if best.Some? then Utf8.Len(best.value.ResourcePath()) else 0
  }

  /** The left-to-right scan: later entries win ties. */
  function MatchEntry(entries: seq<Runtime>, path: string): (best: Option<Runtime>)
  {
    if entries == [] then None
    else
      var before := MatchEntry(entries[..|entries| - 1], path);
      var last := entries[|entries| - 1];
      if PathMatchesResource(path, last.ResourcePath()) && Utf8.Len(last.ResourcePath()) >= BestLen(before)
      then Some(last) else before
  }

  method MatchEntryLoop(entries: seq<Runtime>, path: string) returns (best: Option<Runtime>)
    ensures best == MatchEntry(entries, path)
  {
    best := None;
    var bestLen := 0;
    for i := 0 to |entries|
      invariant best == MatchEntry(entries[..i], path)
      invariant bestLen == BestLen(best)
    {
      assert entries[..i + 1][..i] == entries[..i];
      if PathMatchesResource(path, entries[i].ResourcePath()) {
        var len := Utf8.Len(entries[i].ResourcePath());
        if len >= bestLen {
          best := Some(entries[i]);
          bestLen := len;
        }
      }
    }
    assert entries[..|entries|] == entries;
  }

  predicate Matches(e: Runtime, path: string) { PathMatchesResource(path, e.ResourcePath()) }

  lemma {:induction false} MatchIsLongest(entries: seq<Runtime>, path: string)
    ensures MatchEntry(entries, path).None? <==> forall e :: e in entries ==> !Matches(e, path)
    ensures MatchEntry(entries, path).Some? ==>
      var best := MatchEntry(entries, path).value;
      && best in entries && Matches(best, path)
      && forall e :: e in entries && Matches(e, path) ==> Utf8.Len(e.ResourcePath()) <= Utf8.Len(best.ResourcePath())
  {
    if entries != [] {
      var init := entries[..|entries| - 1];
      MatchIsLongest(init, path);
      var last := entries[|entries| - 1];
      assert entries == init + [last];
      assert forall e :: e in entries <==> e in init || e == last;
      assert last in entries;
    }
  }

  lemma {:induction false} PrefixOfSamePath(p: string, q: string, path: string)
    requires p <= path && q <= path
    ensures Utf8.Len(p) == Utf8.Len(q) ==> p == q
    ensures Utf8.Len(p) < Utf8.Len(q) ==> p < q
    ensures Utf8.Len(p) <= Utf8.Len(q) ==> p <= q
  {
    if |p| <= |q| {
      assert q == p + q[|p|..];
      Utf8.LenConcat(p, q[|p|..]);
    } else {
      assert p == q + p[|q|..];
      Utf8.LenConcat(q, p[|q|..]);
    }
  }

  /** Two different resources that match one path never tie. */
  lemma NoTies(path: string, p: string, q: string)
    requires path != "" && path[0] == '/'
    requires IsResourcePath(p) && IsResourcePath(q)
    requires PathMatchesResource(path, p) && PathMatchesResource(path, q)
    ensures p <= path && q <= path
    ensures Utf8.Len(p) == Utf8.Len(q) ==> p == q
  {
    PrefixOfSamePath(p, q, path);
  }

  lemma SameEntry(entries: seq<Runtime>, e: Runtime, f: Runtime)
    requires DistinctResources(entries) && e in entries && f in entries
    requires e.ResourcePath() == f.ResourcePath()
    ensures e == f
  {
    var i :| 0 <= i < |entries| && entries[i] == e;
    var j :| 0 <= j < |entries| && entries[j] == f;
    assert i == j by {
      if i < j { assert false; }
      if j < i { assert false; }
    }
  }

  /** The match does not depend on the order in which entries were registered. */
  lemma MatchOrderIndependent(entries: seq<Runtime>, shuffled: seq<Runtime>, path: string)
    requires ValidEntries(entries)
    requires forall e :: e in entries <==> e in shuffled
    requires path != "" && path[0] == '/'
    ensures MatchEntry(entries, path) == MatchEntry(shuffled, path)
  {
    MatchIsLongest(entries, path);
    MatchIsLongest(shuffled, path);
    if MatchEntry(entries, path).Some? {
      var e, f := MatchEntry(entries, path).value, MatchEntry(shuffled, path).value;
      NoTies(path, e.ResourcePath(), f.ResourcePath());
      SameEntry(entries, e, f);
    }
  }

  // ----- Matching is segment-wise -----

  lemma {:induction false} JoinConcat(xs: seq<string>, ys: seq<string>)
    requires xs != [] && ys != []
    ensures Join(xs + ys, "/") == Join(xs, "/") + "/" + Join(ys, "/")
  {
    if |xs| == 1 {
      assert (xs + ys)[1..] == ys;
    } else {
      assert (xs + ys)[1..] == xs[1..] + ys;
      JoinConcat(xs[1..], ys);
    }
  }

  lemma SlashGivesPieces(path: string, resource: string)
    requires FollowedBySlash(path, resource)
    ensures Split(resource, '/') <= Split(path, '/')
  {
    var rest := path[|resource| + 1..];
    assert path == resource + ['/'] + rest;
    SplitConcat(resource, '/', rest);
  }

  lemma PiecesGiveSlash(path: string, resource: string)
    requires Split(resource, '/') <= Split(path, '/')
    ensures path == resource || FollowedBySlash(path, resource)
  {
    var rs, ps := Split(resource, '/'), Split(path, '/');
    JoinSplit(path, '/');
    JoinSplit(resource, '/');
    var tail := ps[|rs|..];
    assert ps == rs + tail;
    if tail == [] {
      assert ps == rs;
    } else {
      JoinConcat(rs, tail);
      assert path == resource + "/" + Join(tail, "/");
    }
  }

  /** Being equal or followed by a slash is having all one's pieces in front. */
  lemma PrefixIsPiecewise(path: string, resource: string)
    ensures path == resource || FollowedBySlash(path, resource) <==> Split(resource, '/') <= Split(path, '/')
  {
    if Split(resource, '/') <= Split(path, '/') {
      PiecesGiveSlash(path, resource);
    } else if FollowedBySlash(path, resource) {
      SlashGivesPieces(path, resource);
    }
  }

  /** The pieces a path must start with to be under this resource. */
  function ResourcePieces(resource: string): seq<string>
  {
    if resource == "/" then [""] else Split(resource, '/')
  }

  predicate Covers(e: Runtime, path: string)
  {
    ResourcePieces(e.ResourcePath()) <= Split(path, '/')
  }

  lemma RootedPieces(path: string)
    requires path != "" && path[0] == '/'
    ensures Split(path, '/')[0] == "" && |Split(path, '/')| >= 2
  {
  }

  lemma MatchIsCovering(e: Runtime, path: string)
    requires path != "" && path[0] == '/'
    ensures Matches(e, path) <==> Covers(e, path)
  {
    RootedPieces(path);
    PrefixIsPiecewise(path, e.ResourcePath());
  }

  lemma MorePieces(path: string, p: string, q: string)
    requires path != "" && path[0] == '/' && IsResourcePath(p) && IsResourcePath(q)
    requires PathMatchesResource(path, p) && PathMatchesResource(path, q)
    ensures Utf8.Len(p) <= Utf8.Len(q) ==> |ResourcePieces(p)| <= |ResourcePieces(q)|
  {
    NoTies(path, p, q);
    PrefixOfSamePath(p, q, path);
    if Utf8.Len(p) <= Utf8.Len(q) && p != "/" {
      assert p <= q;
      if p == q {
      } else {
        assert path[|p|] == '/' && q[|p|] == path[|p|];
        PrefixIsPiecewise(q, p);
      }
    } else if p == "/" && q != "/" {
      RootedPieces(q);
    }
  }

  // ----- Routing -----

  datatype Route =
    | WellKnown
    | Public
    | Protected(entry: Runtime)
    | PassThrough
    | Denied

  function RouteOf(reg: Registry, rawPath: string): Route
  {
    var path := RequestPath.Normalize(rawPath);
    if path in reg.wellKnown then WellKnown
    else if IsPublicPath(reg, path) then Public
    else match MatchEntry(reg.entries, path)
      case Some(entry) => Protected(entry)
      case None => if reg.policy.DenyUnmatched? then Denied else PassThrough
  }

  /** Public by configuration: the path itself, or all its leading pieces up to a public prefix. */
  predicate PubliclyCovered(reg: Registry, path: string)
  {
    || path in reg.publicPaths
    || exists i :: 0 <= i < |reg.publicPrefixes| && ResourcePieces(reg.publicPrefixes[i]) <= Split(path, '/')
  }

  lemma PublicIsCovered(reg: Registry, path: string)
    requires path != "" && path[0] == '/'
    ensures IsPublicPath(reg, path) <==> PubliclyCovered(reg, path)
  {
    RootedPieces(path);
    forall i | 0 <= i < |reg.publicPrefixes|
      ensures PathMatchesResource(path, reg.publicPrefixes[i])
        <==> ResourcePieces(reg.publicPrefixes[i]) <= Split(path, '/')
    {
      PrefixIsPiecewise(path, reg.publicPrefixes[i]);
    }
  }

  /** The deepest covering resource guards the request, whatever the spelling of the path. */
  lemma ProtectedExactly(reg: Registry, rawPath: string, e: Runtime)
    requires ValidEntries(reg.entries)
    ensures RouteOf(reg, rawPath) == Protected(e) <==>
      var path := RequestPath.Normalize(rawPath);
      && path !in reg.wellKnown && !PubliclyCovered(reg, path)
      && e in reg.entries && Covers(e, path)
      && forall f :: f in reg.entries && Covers(f, path) ==>
           |ResourcePieces(f.ResourcePath())| <= |ResourcePieces(e.ResourcePath())|
  {
    var path := RequestPath.Normalize(rawPath);
    RequestPath.NormalizedShape(rawPath);
    PublicIsCovered(reg, path);
    MatchIsLongest(reg.entries, path);
    forall f | f in reg.entries ensures Matches(f, path) <==> Covers(f, path) {
      MatchIsCovering(f, path);
    }
    if MatchEntry(reg.entries, path).Some? {
      var best := MatchEntry(reg.entries, path).value;
      forall f | f in reg.entries && Covers(f, path)
        ensures |ResourcePieces(f.ResourcePath())| <= |ResourcePieces(best.ResourcePath())|
      {
        MorePieces(path, f.ResourcePath(), best.ResourcePath());
      }
      if e in reg.entries && Covers(e, path)
         && |ResourcePieces(best.ResourcePath())| <= |ResourcePieces(e.ResourcePath())| {
        SamePieces(path, e.ResourcePath(), best.ResourcePath());
        SameEntry(reg.entries, e, best);
      }
    }
  }

  lemma SamePieces(path: string, p: string, q: string)
    requires path != "" && path[0] == '/' && IsResourcePath(p) && IsResourcePath(q)
    requires ResourcePieces(p) <= Split(path, '/') && ResourcePieces(q) <= Split(path, '/')
    requires |ResourcePieces(p)| == |ResourcePieces(q)|
    ensures p == q
  {
    assert ResourcePieces(p) == ResourcePieces(q);
    RootedPieces(p);
    RootedPieces(q);
    JoinSplit(p, '/');
    JoinSplit(q, '/');
  }

  /** The inner service sees a request without authentication only here. */
  predicate Unauthenticated(route: Route) { route.Public? || route.PassThrough? }

  /** The exact condition on the normalised path for a request to pass without authentication. */
  lemma UnauthenticatedExactly(reg: Registry, rawPath: string)
    ensures Unauthenticated(RouteOf(reg, rawPath)) <==>
      var path := RequestPath.Normalize(rawPath);
      && path !in reg.wellKnown
      && (PubliclyCovered(reg, path) ||
          (reg.policy.PassThroughUnmatched? && forall e :: e in reg.entries ==> !Covers(e, path)))
  {
    var path := RequestPath.Normalize(rawPath);
    RequestPath.NormalizedShape(rawPath);
    PublicIsCovered(reg, path);
    MatchIsLongest(reg.entries, path);
    forall f | f in reg.entries ensures Matches(f, path) <==> Covers(f, path) {
      MatchIsCovering(f, path);
    }
  }

  /** Which requests the wrapper answers with metadata, lets through as public, and leaves to the policy. */
  lemma RouteExactly(reg: Registry, rawPath: string)
    ensures var path, route := RequestPath.Normalize(rawPath), RouteOf(reg, rawPath);
      && (route.WellKnown? <==> path in reg.wellKnown)
      && (route.Public? <==> path !in reg.wellKnown && PubliclyCovered(reg, path))
      && (route.PassThrough? || route.Denied? <==>
            && path !in reg.wellKnown && !PubliclyCovered(reg, path)
            && forall e :: e in reg.entries ==> !Covers(e, path))
      && (route.PassThrough? ==> reg.policy.PassThroughUnmatched?) && (route.Denied? ==> reg.policy.DenyUnmatched?)
  {
    var path := RequestPath.Normalize(rawPath);
    RequestPath.NormalizedShape(rawPath);
    PublicIsCovered(reg, path);
    MatchIsLongest(reg.entries, path);
    forall f | f in reg.entries ensures Matches(f, path) <==> Covers(f, path) {
      MatchIsCovering(f, path);
    }
  }

  /** Only the normal form of a path matters. */
  lemma SameNormalFormSameRoute(reg: Registry, p: string, q: string)
    requires RequestPath.Normalize(p) == RequestPath.Normalize(q)
    ensures RouteOf(reg, p) == RouteOf(reg, q)
  {
  }

  /** Respelling slashes or dots of a well-formed path never changes who guards it. */
  lemma RouteIgnoresSpelling(reg: Registry, a: string, spelling: string, b: string)
    ensures RequestPath.WellFormed(a + "/" + b) && RequestPath.SpellsSlash(spelling) ==>
              RouteOf(reg, a + spelling + b) == RouteOf(reg, a + "/" + b)
    ensures RequestPath.WellFormed(a + "." + b) && (spelling == "%2E" || spelling == "%2e") ==>
              RouteOf(reg, a + spelling + b) == RouteOf(reg, a + "." + b)
  {
    if RequestPath.WellFormed(a + "/" + b) && RequestPath.SpellsSlash(spelling) {
      RequestPath.SlashRespelling(a, spelling, b);
      SameNormalFormSameRoute(reg, a + spelling + b, a + "/" + b);
    }
    if RequestPath.WellFormed(a + "." + b) && (spelling == "%2E" || spelling == "%2e") {
      RequestPath.DotRespelling(a, spelling, b);
      SameNormalFormSameRoute(reg, a + spelling + b, a + "." + b);
    }
  }

  // ----- Resources whose path is not in normal form -----

  /** A resource can guard a request only if its path is resolved: rooted, with ordinary pieces. */
  lemma GuardsOnlyIfResolved(e: Runtime, rawPath: string)
    requires IsResourcePath(e.ResourcePath()) && Covers(e, RequestPath.Normalize(rawPath))
    ensures RequestPath.Resolved(e.ResourcePath())
  {
    var resource, path := e.ResourcePath(), RequestPath.Normalize(rawPath);
    RequestPath.NormalizedShape(rawPath);
    if resource != "/" {
      var pieces := Split(resource, '/');
      RootedPieces(resource);
      if path == "/" {
        RootPieces();
        JoinSplit(resource, '/');
        JoinSplit("/", '/');
      }
      assert forall i :: 0 <= i < |pieces| ==> pieces[i] == Split(path, '/')[i];
    }
  }

  lemma RootPieces()
    ensures Split("/", '/') == ["", ""]
  {
    SplitFree<char>([], '/');
    SplitConcat<char>([], '/', []);
    assert [] + ['/'] + [] == "/";
  }

  /** A resource guards a request for its own path if and only if that path is in normal form. */
  lemma GuardsItselfExactly(e: Runtime)
    requires IsResourcePath(e.ResourcePath())
    ensures Covers(e, RequestPath.Normalize(e.ResourcePath())) <==>
      RequestPath.Normalize(e.ResourcePath()) == e.ResourcePath()
  {
    var resource := e.ResourcePath();
    var path := RequestPath.Normalize(resource);
    if path == resource {
      RootedPieces(resource);
    } else if Covers(e, path) {
      GuardsOnlyIfResolved(e, resource);
      RequestPath.FixedPoints(resource);
      RequestPath.UnstableShrinks(resource);
      if resource != "/" { RequestPath.FewerPiecesFewerEscapes(resource, path); }
    }
  }

  /** Otherwise, as the only resource under pass-through, it lets its own path go by unauthenticated. */
  lemma UnguardedUnlessNormal(reg: Registry, e: Runtime)
    requires reg.entries == [e] && IsResourcePath(e.ResourcePath())
    requires var path := RequestPath.Normalize(e.ResourcePath());
      path !in reg.wellKnown && !PubliclyCovered(reg, path)
    ensures RouteOf(reg, e.ResourcePath()) ==
      if RequestPath.Normalize(e.ResourcePath()) == e.ResourcePath() then Protected(e)
      else if reg.policy.DenyUnmatched? then Denied
      else PassThrough
  {
    var path := RequestPath.Normalize(e.ResourcePath());
    GuardsItselfExactly(e);
    RequestPath.NormalizedShape(e.ResourcePath());
    PublicIsCovered(reg, path);
    MatchIsLongest(reg.entries, path);
    MatchIsCovering(e, path);
  }

  lemma DoubledSlashPieces(path: string)
    requires path == ['/', 'a', '/', '/', 'b']
    ensures Split(path, '/') == [[], ['a'], [], ['b']]
  {
    SplitFree<char>([], '/');
    SplitFree(['a'], '/');
    SplitFree(['b'], '/');
    SplitConcat([], '/', ['b']);
    SplitConcat(['a'], '/', [] + ['/'] + ['b']);
    SplitConcat([], '/', ['a'] + ['/'] + ([] + ['/'] + ['b']));
    assert [] + ['/'] + (['a'] + ['/'] + ([] + ['/'] + ['b'])) == path;
  }

  /** A resource path that configuration leaves alone and requests do not. */
  lemma DoubledSlashNotNormal()
    ensures NormalizeResourcePath("/a//b") == "/a//b" && RequestPath.Normalize("/a//b") != "/a//b"
  {
    var path := "/a//b";
    assert Trim(path) == path;
    assert StripLeadingSlashes(path) == "a//b" by { assert path[1..] == "a//b"; }
    assert StripTrailingSlashes("a//b") == "a//b";
    DoubledSlashPieces(path);
    RequestPath.FixedPoints(path);
    assert !RequestPath.IsOrdinary(Split(path, '/')[2]);
  }
}

/** Building the issuer registry from its configuration: which configurations are accepted, and with which routes. */
module RegistryBuilder {
  import opened Text
  import opened IssuerRegistry
  import Sorting

  /**
   * One configured issuer/resource pair. `problem` names the field that the URL and metadata
   * checks object to.
   */
  datatype ConfigEntry = ConfigEntry(
    resourcePath: string, issuer: string, authorizationEndpoint: string, tokenEndpoint: string,
    resourceUrl: string, authenticator: AuthenticatorId, allowedClientIds: set<string>,
    problem: Option<string>)

  datatype RootAliasPolicy = Enabled | Disabled | Automatic

  datatype SurfaceConfig = SurfaceConfig(
    validBaseUrl: bool, entries: seq<ConfigEntry>, rootAlias: RootAliasPolicy,
    publicPaths: set<string>, publicPrefixes: seq<string>)

  datatype SurfaceError =
    | EmptyRegistry
    | EmptyField(field: string)
    | InvalidUrl(field: string)
    | DuplicateResourcePath(path: string)
    | DuplicateWellKnownRoute(path: string)

  // ----- Entries -----

  predicate Realizes(runtime: Runtime, entry: ConfigEntry, path: string)
  {
    && runtime.surface.resourcePath == path
    && runtime.surface.resourceUrl == entry.resourceUrl && runtime.surface.issuer == entry.issuer
    && runtime.authenticator == entry.authenticator
    && runtime.allowedClientIds == entry.allowedClientIds
  }

  /** The first objection to one entry on its own, in the order of the source. */
  function EntryProblem(entry: ConfigEntry): (field: Option<string>)
  {
    if Trim(entry.issuer) == "" then Some("issuer")
    else if Trim(entry.authorizationEndpoint) == "" then Some("authorization_endpoint")
    else if Trim(entry.tokenEndpoint) == "" then Some("token_endpoint")
    else None
  }

  /** This field of the entry is blank and none of those asked about before it is. */
  predicate FirstBlank(entry: ConfigEntry, field: string)
  {
    if AllSpace(entry.issuer) then field == "issuer"
    else if AllSpace(entry.authorizationEndpoint) then field == "authorization_endpoint"
    else AllSpace(entry.tokenEndpoint) && field == "token_endpoint"
  }

  predicate Filled(entry: ConfigEntry)
  {
    !AllSpace(entry.issuer) && !AllSpace(entry.authorizationEndpoint) && !AllSpace(entry.tokenEndpoint)
  }

  lemma EntryProblemExactly(entry: ConfigEntry)
    ensures EntryProblem(entry).None? <==> Filled(entry)
    ensures EntryProblem(entry).Some? ==> FirstBlank(entry, EntryProblem(entry).value)
  {
    TrimFacts(entry.issuer);
    TrimFacts(entry.authorizationEndpoint);
    TrimFacts(entry.tokenEndpoint);
  }

  predicate Acceptable(entry: ConfigEntry)
  {
    Filled(entry) && entry.problem.None?
  }

  predicate AllAcceptable(config: seq<ConfigEntry>)
  {
    forall i :: 0 <= i < |config| ==> Acceptable(config[i])
  }

  /** The resource paths a configuration stands for, in order. */
  function PathsOf(config: seq<ConfigEntry>): (paths: seq<string>)
    ensures |paths| == |config|
    ensures forall i :: 0 <= i < |config| ==> IsResourcePath(paths[i])
  {
    seq(|config|, i requires 0 <= i < |config| => NormalizeResourcePath(config[i].resourcePath))
  }

  ghost predicate Repeats(paths: seq<string>, path: string)
  {
    exists i, j :: 0 <= i < j < |paths| && paths[i] == path == paths[j]
  }

  /** Blank fields come before a path that was seen, and that before what the URL checks object to. */
  predicate Objects(error: SurfaceError, entry: ConfigEntry, path: string, seenPaths: set<string>)
  {
    match error
    case EmptyField(field) => !Filled(entry) && FirstBlank(entry, field)
    case DuplicateResourcePath(p) => Filled(entry) && p == path && path in seenPaths
    case InvalidUrl(field) => Filled(entry) && path !in seenPaths && entry.problem == Some(field)
    case _ => false
  }

  /** The first objection to an entry, in the order of the source. */
  method CheckEntry(entry: ConfigEntry, resourcePath: string, seenPaths: set<string>)
    returns (problem: Option<SurfaceError>)
    ensures problem.None? <==> Acceptable(entry) && resourcePath !in seenPaths
    ensures problem.Some? ==> Objects(problem.value, entry, resourcePath, seenPaths)
  {
    var blank := EntryProblem(entry);
    EntryProblemExactly(entry);
    if blank.Some? {
      return Some(EmptyField(blank.value));
    }
    if resourcePath in seenPaths {
      return Some(DuplicateResourcePath(resourcePath));
    }
    if entry.problem.Some? {
      return Some(InvalidUrl(entry.problem.value));
    }
    problem := None;
  }

  // ----- Well-known routes -----

  const KINDS: seq<WellKnownKind> := [AuthorizationServer, OpenIdConfiguration, ProtectedResource]

  function Name(kind: WellKnownKind): (name: string)
  {
    match kind
    case AuthorizationServer => "oauth-authorization-server"
    case OpenIdConfiguration => "openid-configuration"
    case ProtectedResource => "oauth-protected-resource"
  }

  function RootAlias(kind: WellKnownKind): (path: string)
  {
    "/.well-known/" + Name(kind)
  }

  /** What a route appends to its well-known name: the resource path, trimmed once more. */
  function Suffix(resourcePath: string): (suffix: string)
  {
    StripTrailingSlashes(StripLeadingSlashes(Trim(resourcePath)))
  }

  function WellKnownPath(kind: WellKnownKind, resourcePath: string): (path: string)
  {
    if Suffix(resourcePath) == "" then RootAlias(kind) else RootAlias(kind) + ("/" + Suffix(resourcePath))
  }

  /** The route survives the root-alias filter. */
  predicate Retained(kind: WellKnownKind, resourcePath: string, aliasAllowed: bool)
  {
    aliasAllowed || resourcePath == "/" || WellKnownPath(kind, resourcePath) != RootAlias(kind)
  }

  /** The routes of one resource. */
  function Routes(resourcePath: string, aliasAllowed: bool): (routes: set<string>)
  {
    set kind | kind in KINDS && Retained(kind, resourcePath, aliasAllowed) :: WellKnownPath(kind, resourcePath)
  }

  /** The routes of each resource, in order. */
  function RouteSets(paths: seq<string>, aliasAllowed: bool): (sets: seq<set<string>>)
    ensures |sets| == |paths| && forall i :: 0 <= i < |paths| ==> sets[i] == Routes(paths[i], aliasAllowed)
  {
    seq(|paths|, i requires 0 <= i < |paths| => Routes(paths[i], aliasAllowed))
  }

  function Union(sets: seq<set<string>>): (all: set<string>)
  {
    if sets == [] then {} else Union(sets[..|sets| - 1]) + sets[|sets| - 1]
  }

  predicate PairwiseDisjoint(sets: seq<set<string>>)
  {
    forall i, j :: 0 <= i < j < |sets| ==> sets[i] !! sets[j]
  }

  function AllRoutes(paths: seq<string>, aliasAllowed: bool): (routes: set<string>)
  {
    Union(RouteSets(paths, aliasAllowed))
  }

  /** No resource claims a route of another. */
  predicate RoutesDisjoint(paths: seq<string>, aliasAllowed: bool)
  {
    PairwiseDisjoint(RouteSets(paths, aliasAllowed))
  }

  /** The three names differ before any suffix could make them alike. */
  lemma KindTold(kind: WellKnownKind, x: string, other: WellKnownKind, y: string)
    requires RootAlias(kind) + x == RootAlias(other) + y
    ensures kind == other && x == y
  {
    var s := RootAlias(kind) + x;
    assert s[19] == Name(kind)[6] == Name(other)[6];
    assert x == s[|RootAlias(kind)|..];
  }

  function Tail(resourcePath: string): string { if Suffix(resourcePath) == "" then "" else "/" + Suffix(resourcePath) }

  lemma PathIsAliasAndTail(kind: WellKnownKind, p: string)
    ensures WellKnownPath(kind, p) == RootAlias(kind) + Tail(p)
  {
    assert RootAlias(kind) + "" == RootAlias(kind);
  }

  /** A route tells its kind and its suffix. */
  lemma RouteTold(kind: WellKnownKind, p: string, other: WellKnownKind, q: string)
    ensures WellKnownPath(kind, p) == WellKnownPath(other, q) <==> kind == other && Suffix(p) == Suffix(q)
    ensures WellKnownPath(kind, p) == RootAlias(kind) <==> Suffix(p) == ""
  {
    var x, y := Tail(p), Tail(q);
    PathIsAliasAndTail(kind, p);
    PathIsAliasAndTail(other, q);
    if WellKnownPath(kind, p) == WellKnownPath(other, q) { KindTold(kind, x, other, y); }
    assert x == y <==> Suffix(p) == Suffix(q) by {
      assert x != "" ==> Suffix(p) == x[1..];
      assert y != "" ==> Suffix(q) == y[1..];
    }
    if WellKnownPath(kind, p) == RootAlias(kind) {
      assert RootAlias(kind) + "" == RootAlias(kind);
      KindTold(kind, x, kind, "");
    }
  }

  /** Two resources share a route exactly when they share a suffix, blank ones only where the alias is allowed. */
  lemma SharedRoute(p: string, q: string, aliasAllowed: bool)
    ensures Routes(p, aliasAllowed) !! Routes(q, aliasAllowed) <==>
      || Suffix(p) != Suffix(q)
      || (Suffix(p) == "" && !aliasAllowed && (p != "/" || q != "/"))
  {
    forall kind, other
      ensures WellKnownPath(kind, p) == WellKnownPath(other, q) <==> kind == other && Suffix(p) == Suffix(q)
    {
      RouteTold(kind, p, other, q);
    }
    forall kind ensures Retained(kind, p, aliasAllowed) <==> aliasAllowed || p == "/" || Suffix(p) != "" {
      RouteTold(kind, p, kind, p);
    }
    forall kind ensures Retained(kind, q, aliasAllowed) <==> aliasAllowed || q == "/" || Suffix(q) != "" {
      RouteTold(kind, q, kind, q);
    }
    var kind := AuthorizationServer;
    assert kind in KINDS;
    if Suffix(p) == Suffix(q) && (Suffix(p) != "" || aliasAllowed || (p == "/" && q == "/")) {
      assert WellKnownPath(kind, p) in Routes(p, aliasAllowed) && WellKnownPath(kind, q) in Routes(q, aliasAllowed);
    }
  }

  lemma {:induction false} NoLeadingSlash(s: string)
    requires s == "" || s[0] != '/'
    ensures StripLeadingSlashes(s) == s
  {
  }

  lemma TrimmedSuffix(p: string)
    requires IsResourcePath(p) && Trim(p) == p
    ensures p == "/" + Suffix(p)
  {
    var inner := p[1..];
    assert StripLeadingSlashes(p) == StripLeadingSlashes(inner);
    NoLeadingSlash(inner);
    assert inner != "" ==> inner[|inner| - 1] == p[|p| - 1];
    assert StripTrailingSlashes(inner) == inner;
  }

  /** The usual route: the well-known name followed by the resource path. */
  lemma WellKnownExactly(kind: WellKnownKind, p: string)
    requires IsResourcePath(p) && Trim(p) == p
    ensures WellKnownPath(kind, p) == if p == "/" then RootAlias(kind) else RootAlias(kind) + p
  {
    TrimmedSuffix(p);
    PathIsAliasAndTail(kind, p);
    assert RootAlias(kind) + "" == RootAlias(kind);
  }

  /** The bare well-known name is served for the root, and for a blank suffix only as the alias policy says. */
  lemma RootAliasExactly(config: SurfaceConfig, kind: WellKnownKind, p: string)
    ensures RootAlias(kind) in Routes(p, AliasAllowed(config)) <==>
      && Suffix(p) == ""
      && (p == "/" || match config.rootAlias
                      case Enabled => true
                      case Disabled => false
                      case Automatic => |config.entries| == 1)
  {
    assert kind in KINDS;
    forall other ensures WellKnownPath(other, p) == RootAlias(kind) ==> other == kind && Suffix(p) == "" {
      if WellKnownPath(other, p) == RootAlias(kind) {
        PathIsAliasAndTail(other, p);
        assert RootAlias(kind) + "" == RootAlias(kind);
        KindTold(other, Tail(p), kind, "");
      }
    }
    RouteTold(kind, p, kind, p);
  }

  /** Resource paths without outer white space claim different routes unless they are equal. */
  lemma TrimmedPathsNeverCollide(paths: seq<string>, aliasAllowed: bool)
    requires Sorting.Distinct(paths)
    requires forall i :: 0 <= i < |paths| ==> IsResourcePath(paths[i]) && Trim(paths[i]) == paths[i]
    ensures RoutesDisjoint(paths, aliasAllowed)
  {
    var sets := RouteSets(paths, aliasAllowed);
    forall i, j | 0 <= i < j < |paths| ensures sets[i] !! sets[j] {
      TrimmedSuffix(paths[i]);
      TrimmedSuffix(paths[j]);
      SharedRoute(paths[i], paths[j], aliasAllowed);
    }
  }

  lemma TrimExamples()
    ensures Trim(['/', 'a']) == ['/', 'a'] && Trim(['/', 'a', ' ', '/']) == ['/', 'a', ' ', '/']
    ensures Trim(['/', 'a', ' ']) == ['/', 'a']
  {
    var s := ['/', 'a', ' '];
    assert TrimEnd(s) == TrimEnd(s[..2]) && s[..2] == ['/', 'a'];
  }

  lemma StripExamples()
    ensures StripLeadingSlashes(['/', 'a']) == ['a'] && StripTrailingSlashes(['a']) == ['a']
    ensures StripLeadingSlashes(['/', 'a', ' ', '/']) == ['a', ' ', '/']
    ensures StripTrailingSlashes(['a', ' ', '/']) == ['a', ' ']
  {
    assert ['/', 'a'][1..] == ['a'] && ['/', 'a', ' ', '/'][1..] == ['a', ' ', '/'];
    assert ['a', ' ', '/'][..2] == ['a', ' '];
  }

  /** White space inside the outer slashes survives normalisation once: distinct paths can then share a route. */
  lemma SpacedPathsCollide(aliasAllowed: bool)
    ensures NormalizeResourcePath(['/', 'a']) != NormalizeResourcePath(['/', 'a', ' ', '/'])
    ensures !RoutesDisjoint(
      [NormalizeResourcePath(['/', 'a']), NormalizeResourcePath(['/', 'a', ' ', '/'])], aliasAllowed)
  {
    TrimExamples();
    StripExamples();
    var p, q := NormalizeResourcePath(['/', 'a']), NormalizeResourcePath(['/', 'a', ' ', '/']);
    assert p == ['/', 'a'] && q == ['/', 'a', ' '];
    SharedRoute(p, q, aliasAllowed);
    var sets := RouteSets([p, q], aliasAllowed);
    assert !(sets[0] !! sets[1]);
  }

  function Add(table: map<string, WellKnownRoute>, retained: bool, path: string, route: WellKnownRoute)
    : map<string, WellKnownRoute>
  {
    if retained then table[path := route] else table
  }

  function Only(retained: bool, path: string): set<string> { if retained then {path} else {} }

  /** One route of one entry, unless it is filtered out; taken if another holds its path. */
  method InsertRoute(table: map<string, WellKnownRoute>, kind: WellKnownKind, entry: Runtime, aliasAllowed: bool)
    returns (extended: map<string, WellKnownRoute>, taken: Option<string>)
    ensures var path := WellKnownPath(kind, entry.ResourcePath());
      var retained := Retained(kind, entry.ResourcePath(), aliasAllowed);
      && taken == (if retained && path in table then Some(path) else None)
      && (taken.None? ==> extended == Add(table, retained, path, WellKnownRoute(kind, entry)))
  {
    extended, taken := table, None;
    if Retained(kind, entry.ResourcePath(), aliasAllowed) {
      var path := WellKnownPath(kind, entry.ResourcePath());
      if path in table {
        return table, Some(path);
      }
      extended := table[path := WellKnownRoute(kind, entry)];
    }
  }

  lemma RoutesOfKinds(p: string, aliasAllowed: bool)
    ensures Routes(p, aliasAllowed)
      == Only(Retained(AuthorizationServer, p, aliasAllowed), WellKnownPath(AuthorizationServer, p))
       + Only(Retained(OpenIdConfiguration, p, aliasAllowed), WellKnownPath(OpenIdConfiguration, p))
       + Only(Retained(ProtectedResource, p, aliasAllowed), WellKnownPath(ProtectedResource, p))
    ensures WellKnownPath(AuthorizationServer, p) != WellKnownPath(OpenIdConfiguration, p)
    ensures WellKnownPath(AuthorizationServer, p) != WellKnownPath(ProtectedResource, p)
    ensures WellKnownPath(OpenIdConfiguration, p) != WellKnownPath(ProtectedResource, p)
  {
    RouteTold(AuthorizationServer, p, OpenIdConfiguration, p);
    RouteTold(AuthorizationServer, p, ProtectedResource, p);
    RouteTold(OpenIdConfiguration, p, ProtectedResource, p);
  }

  /** The table after adding the routes of one more entry. */
  ghost predicate Extends(
    extended: map<string, WellKnownRoute>, table: map<string, WellKnownRoute>, entry: Runtime, aliasAllowed: bool)
  {
    && extended.Keys == table.Keys + Routes(entry.ResourcePath(), aliasAllowed)
    && (forall path :: path in table ==> extended[path] == table[path])
    && ServesEntry(extended, entry, aliasAllowed)
  }

  /** If not filtered out, the entry's path for this kind serves its metadata. */
  predicate ServesKind(table: map<string, WellKnownRoute>, kind: WellKnownKind, entry: Runtime, aliasAllowed: bool)
  {
    var path := WellKnownPath(kind, entry.ResourcePath());
    Retained(kind, entry.ResourcePath(), aliasAllowed) ==> path in table && table[path] == WellKnownRoute(kind, entry)
  }

  ghost predicate ServesEntry(table: map<string, WellKnownRoute>, entry: Runtime, aliasAllowed: bool)
  {
    forall kind :: ServesKind(table, kind, entry, aliasAllowed)
  }

  lemma AllKindsServed(table: map<string, WellKnownRoute>, entry: Runtime, aliasAllowed: bool)
    requires ServesKind(table, AuthorizationServer, entry, aliasAllowed)
    requires ServesKind(table, OpenIdConfiguration, entry, aliasAllowed)
    requires ServesKind(table, ProtectedResource, entry, aliasAllowed)
    ensures ServesEntry(table, entry, aliasAllowed)
  {
    forall kind ensures ServesKind(table, kind, entry, aliasAllowed) {
      match kind
      case AuthorizationServer =>
      case OpenIdConfiguration =>
      case ProtectedResource =>
    }
  }

  lemma AddThree(
    table: map<string, WellKnownRoute>, ra: bool, a: string, x: WellKnownRoute, rb: bool, b: string, y: WellKnownRoute,
    rc: bool, c: string, z: WellKnownRoute)
    requires a != b && a != c && b != c && table.Keys !! Only(ra, a) + Only(rb, b) + Only(rc, c)
    ensures var t := Add(Add(Add(table, ra, a, x), rb, b, y), rc, c, z);
      && t.Keys == table.Keys + (Only(ra, a) + Only(rb, b) + Only(rc, c))
      && (forall path :: path in table ==> t[path] == table[path])
      && (ra ==> t[a] == x) && (rb ==> t[b] == y) && (rc ==> t[c] == z)
  {
  }

  /** The table after the three routes of an entry, none of them taken. */
  function WithRoutes(table: map<string, WellKnownRoute>, entry: Runtime, aliasAllowed: bool)
    : map<string, WellKnownRoute>
  {
    var p := entry.ResourcePath();
    var first := Add(table, Retained(AuthorizationServer, p, aliasAllowed),
                     WellKnownPath(AuthorizationServer, p), WellKnownRoute(AuthorizationServer, entry));
    var second := Add(first, Retained(OpenIdConfiguration, p, aliasAllowed),
                      WellKnownPath(OpenIdConfiguration, p), WellKnownRoute(OpenIdConfiguration, entry));
    Add(second, Retained(ProtectedResource, p, aliasAllowed),
        WellKnownPath(ProtectedResource, p), WellKnownRoute(ProtectedResource, entry))
  }

  lemma WithRoutesExtends(table: map<string, WellKnownRoute>, entry: Runtime, aliasAllowed: bool)
    requires table.Keys !! Routes(entry.ResourcePath(), aliasAllowed)
    ensures Extends(WithRoutes(table, entry, aliasAllowed), table, entry, aliasAllowed)
  {
    var p := entry.ResourcePath();
    RoutesOfKinds(p, aliasAllowed);
    AddThree(table,
             Retained(AuthorizationServer, p, aliasAllowed), WellKnownPath(AuthorizationServer, p),
             WellKnownRoute(AuthorizationServer, entry),
             Retained(OpenIdConfiguration, p, aliasAllowed), WellKnownPath(OpenIdConfiguration, p),
             WellKnownRoute(OpenIdConfiguration, entry),
             Retained(ProtectedResource, p, aliasAllowed), WellKnownPath(ProtectedResource, p),
             WellKnownRoute(ProtectedResource, entry));
    AllKindsServed(WithRoutes(table, entry, aliasAllowed), entry, aliasAllowed);
  }

  /** Adds the routes of one entry, kind by kind, unless one of them is taken. */
  method InsertRoutes(wellKnown: map<string, WellKnownRoute>, entry: Runtime, aliasAllowed: bool)
    returns (extended: map<string, WellKnownRoute>, taken: Option<string>)
    ensures taken.None? <==> wellKnown.Keys !! Routes(entry.ResourcePath(), aliasAllowed)
    ensures taken.None? ==> Extends(extended, wellKnown, entry, aliasAllowed)
    ensures taken.Some? ==> taken.value in wellKnown && taken.value in Routes(entry.ResourcePath(), aliasAllowed)
  {
    RoutesOfKinds(entry.ResourcePath(), aliasAllowed);
    extended, taken := InsertRoute(wellKnown, AuthorizationServer, entry, aliasAllowed);
    if taken.Some? {
      return;
    }
    extended, taken := InsertRoute(extended, OpenIdConfiguration, entry, aliasAllowed);
    if taken.Some? {
      return;
    }
    extended, taken := InsertRoute(extended, ProtectedResource, entry, aliasAllowed);
    if taken.None? {
      assert extended == WithRoutes(wellKnown, entry, aliasAllowed);
      WithRoutesExtends(wellKnown, entry, aliasAllowed);
    }
  }

  /** Each entry's retained paths serve its own metadata, kind by kind. */
  ghost predicate Serves(table: map<string, WellKnownRoute>, entries: seq<Runtime>, aliasAllowed: bool)
  {
    forall i :: 0 <= i < |entries| ==> ServesEntry(table, entries[i], aliasAllowed)
  }

  /** Adding an entry's routes leaves those of the others alone. */
  lemma ServesStep(
    extended: map<string, WellKnownRoute>, table: map<string, WellKnownRoute>, entries: seq<Runtime>, next: Runtime,
    aliasAllowed: bool)
    requires Serves(table, entries, aliasAllowed) && Extends(extended, table, next, aliasAllowed)
    ensures Serves(extended, entries + [next], aliasAllowed)
  {
    var all := entries + [next];
    forall i | 0 <= i < |all| ensures ServesEntry(extended, all[i], aliasAllowed) {
      if i < |entries| {
        forall kind ensures ServesKind(extended, kind, entries[i], aliasAllowed) {
          assert ServesKind(table, kind, entries[i], aliasAllowed);
        }
      }
    }
  }

  // ----- The loop over entries -----

  lemma DistinctExtends(paths: seq<string>, k: nat)
    requires k < |paths| && Sorting.Distinct(paths[..k])
    ensures Sorting.Distinct(paths[..k + 1]) <==> paths[k] !in paths[..k]
    ensures paths[k] in paths[..k] ==> !Sorting.Distinct(paths) && Repeats(paths, paths[k])
    ensures forall p :: p in paths[..k + 1] <==> p in paths[..k] || p == paths[k]
  {
    var longer := paths[..k + 1];
    assert longer == paths[..k] + [paths[k]];
    if paths[k] in paths[..k] {
      var i :| 0 <= i < k && paths[..k][i] == paths[k];
      assert longer[i] == longer[k] && paths[i] == paths[k];
    }
  }

  lemma {:induction false} Owner(sets: seq<set<string>>, x: string) returns (i: nat)
    requires x in Union(sets)
    ensures i < |sets| && x in sets[i]
  {
    i := |sets| - 1;
    if x !in sets[i] { i := Owner(sets[..i], x); }
  }

  lemma {:induction false} OwnIncluded(sets: seq<set<string>>, i: nat)
    requires i < |sets|
    ensures sets[i] <= Union(sets)
  {
    var n := |sets| - 1;
    if i < n { OwnIncluded(sets[..n], i); }
  }

  /** One more set is apart from all before it, or the whole is not pairwise disjoint. */
  lemma DisjointExtends(sets: seq<set<string>>, k: nat)
    requires k < |sets| && PairwiseDisjoint(sets[..k])
    ensures Union(sets[..k + 1]) == Union(sets[..k]) + sets[k]
    ensures Union(sets[..k]) !! sets[k] ==> PairwiseDisjoint(sets[..k + 1])
    ensures !(Union(sets[..k]) !! sets[k]) ==> !PairwiseDisjoint(sets)
  {
    var front, longer := sets[..k], sets[..k + 1];
    assert longer[..k] == front;
    if Union(front) !! sets[k] {
      forall i, j | 0 <= i < j < k + 1 ensures longer[i] !! longer[j] {
        assert longer[i] == front[i];
        if j < k { assert front[i] !! front[j]; } else { OwnIncluded(front, i); }
      }
    } else {
      var x :| x in Union(front) && x in sets[k];
      var i := Owner(front, x);
      assert x in sets[i];
    }
  }

  /** The first `k` entries are acceptable and realised in order. */
  ghost predicate Listed(config: seq<ConfigEntry>, entries: seq<Runtime>, k: nat)
  {
    && k == |entries| <= |config|
    && forall i :: 0 <= i < k ==> Acceptable(config[i]) && Realizes(entries[i], config[i], PathsOf(config)[i])
  }

  /** The first `k` paths are distinct and noted. */
  ghost predicate Noted(paths: seq<string>, seenPaths: set<string>, k: nat)
  {
    k <= |paths| && Sorting.Distinct(paths[..k]) && forall p :: p in seenPaths <==> p in paths[..k]
  }

  /** The first `k` route sets are apart and taken. */
  ghost predicate Taken(sets: seq<set<string>>, wellKnown: set<string>, k: nat)
  {
    k <= |sets| && PairwiseDisjoint(sets[..k]) && wellKnown == Union(sets[..k])
  }

  lemma ListedStep(config: seq<ConfigEntry>, entries: seq<Runtime>, k: nat, next: Runtime)
    requires Listed(config, entries, k) && k < |config|
    requires Acceptable(config[k]) && Realizes(next, config[k], PathsOf(config)[k])
    ensures Listed(config, entries + [next], k + 1)
  {
  }

  lemma NotedStep(paths: seq<string>, seenPaths: set<string>, k: nat)
    requires Noted(paths, seenPaths, k) && k < |paths|
    ensures paths[k] !in seenPaths ==> Noted(paths, seenPaths + {paths[k]}, k + 1)
    ensures paths[k] in seenPaths ==> !Sorting.Distinct(paths) && Repeats(paths, paths[k])
  {
    DistinctExtends(paths, k);
  }

  /** A taken route belongs to an earlier entry. */
  lemma TakenBy(sets: seq<set<string>>, wellKnown: set<string>, k: nat, route: string)
    requires Taken(sets, wellKnown, k) && route in wellKnown
    ensures exists i :: 0 <= i < k && route in sets[i]
  {
    var i := Owner(sets[..k], route);
    assert route in sets[i];
  }

  lemma NotedAre(paths: seq<string>, seenPaths: set<string>, k: nat)
    requires Noted(paths, seenPaths, k)
    ensures seenPaths == set p | p in paths[..k]
  {
  }

  lemma TakenStep(sets: seq<set<string>>, wellKnown: set<string>, k: nat)
    requires Taken(sets, wellKnown, k) && k < |sets|
    ensures wellKnown !! sets[k] ==> Taken(sets, wellKnown + sets[k], k + 1)
    ensures !(wellKnown !! sets[k]) ==> !PairwiseDisjoint(sets)
  {
    DisjointExtends(sets, k);
  }

  lemma AllListed(config: seq<ConfigEntry>, entries: seq<Runtime>, seenPaths: set<string>)
    requires Listed(config, entries, |config|) && Noted(PathsOf(config), seenPaths, |config|)
    ensures AllAcceptable(config) && Sorting.Distinct(PathsOf(config)) && ValidEntries(entries)
  {
    var paths := PathsOf(config);
    assert paths[..|config|] == paths;
    assert forall i :: 0 <= i < |entries| ==> entries[i].ResourcePath() == paths[i];
  }

  predicate AliasAllowed(config: SurfaceConfig)
  {
    config.rootAlias.Enabled? || (config.rootAlias.Automatic? && |config.entries| == 1)
  }

  function NormalizeAll(paths: seq<string>): (normal: seq<string>)
  {
    seq(|paths|, i requires 0 <= i < |paths| => NormalizeResourcePath(paths[i]))
  }

  /** Every entry fits with those before it. */
  ghost predicate EntriesFit(config: SurfaceConfig)
  {
    && AllAcceptable(config.entries) && Sorting.Distinct(PathsOf(config.entries))
    && RoutesDisjoint(PathsOf(config.entries), AliasAllowed(config))
  }

  /** What an accepted configuration must be. */
  ghost predicate Sound(config: SurfaceConfig)
  {
    config.entries != [] && config.validBaseUrl && EntriesFit(config)
  }

  /** What has been collected from the first `k` entries. */
  ghost predicate Collected(
    config: SurfaceConfig, entries: seq<Runtime>, seenPaths: set<string>,
    wellKnown: map<string, WellKnownRoute>, k: nat)
  {
    var paths := PathsOf(config.entries);
    && Listed(config.entries, entries, k) && Noted(paths, seenPaths, k)
    && Taken(RouteSets(paths, AliasAllowed(config)), wellKnown.Keys, k)
    && Serves(wellKnown, entries, AliasAllowed(config))
  }

  /** The first `k` entries fit. */
  ghost predicate FrontFits(config: SurfaceConfig, k: nat)
  {
    && k <= |config.entries| && AllAcceptable(config.entries[..k]) && Sorting.Distinct(PathsOf(config.entries)[..k])
    && PairwiseDisjoint(RouteSets(PathsOf(config.entries), AliasAllowed(config))[..k])
  }

  lemma CollectedFits(
    config: SurfaceConfig, entries: seq<Runtime>, seenPaths: set<string>,
    wellKnown: map<string, WellKnownRoute>, k: nat)
    requires Collected(config, entries, seenPaths, wellKnown, k)
    ensures FrontFits(config, k)
  {
  }

  /** The route is one of the resource at `k` and of one before it. */
  ghost predicate SharedAt(route: string, sets: seq<set<string>>, k: nat)
  {
    k < |sets| && route in sets[k] && exists i :: 0 <= i < k && route in sets[i]
  }

  /** Why a configuration is refused: what is wrong with entry `k`, those before it being sound. */
  ghost predicate Refuses(error: SurfaceError, config: SurfaceConfig, k: nat)
  {
    var paths := PathsOf(config.entries);
    && k < |config.entries| && FrontFits(config, k)
    && var entry, seenPaths := config.entries[k], set p | p in paths[..k];
       if error.DuplicateWellKnownRoute? then
         && Acceptable(entry) && paths[k] !in seenPaths
         && SharedAt(error.path, RouteSets(paths, AliasAllowed(config)), k)
       else Objects(error, entry, paths[k], seenPaths)
  }

  lemma CollectedStep(
    config: SurfaceConfig, entries: seq<Runtime>, seenPaths: set<string>,
    wellKnown: map<string, WellKnownRoute>, k: nat,
    next: Runtime, extended: map<string, WellKnownRoute>)
    requires Collected(config, entries, seenPaths, wellKnown, k) && k < |config.entries|
    requires Acceptable(config.entries[k]) && PathsOf(config.entries)[k] !in seenPaths
    requires Realizes(next, config.entries[k], PathsOf(config.entries)[k])
    requires Extends(extended, wellKnown, next, AliasAllowed(config))
    requires wellKnown.Keys !! Routes(PathsOf(config.entries)[k], AliasAllowed(config))
    ensures Collected(config, entries + [next], seenPaths + {PathsOf(config.entries)[k]}, extended, k + 1)
  {
    var paths := PathsOf(config.entries);
    ListedStep(config.entries, entries, k, next);
    NotedStep(paths, seenPaths, k);
    TakenStep(RouteSets(paths, AliasAllowed(config)), wellKnown.Keys, k);
    ServesStep(extended, wellKnown, entries, next, AliasAllowed(config));
  }

  /** What a registry built from this configuration is. */
  ghost predicate Represents(registry: Registry, config: SurfaceConfig, policy: UnmatchedRoutePolicy)
  {
    var paths := PathsOf(config.entries);
    && ValidEntries(registry.entries) && |registry.entries| == |config.entries|
    && (forall i :: 0 <= i < |paths| ==> Realizes(registry.entries[i], config.entries[i], paths[i]))
    && registry.wellKnown.Keys == AllRoutes(paths, AliasAllowed(config))
    && Serves(registry.wellKnown, registry.entries, AliasAllowed(config))
    && registry.publicPaths == (set p | p in config.publicPaths :: NormalizeResourcePath(p))
    && registry.publicPrefixes == NormalizeAll(config.publicPrefixes) && registry.policy == policy
  }

  /** What an entry is refused for is a misfit. */
  lemma RefusedIsMisfit(error: SurfaceError, config: SurfaceConfig, k: nat)
    requires Refuses(error, config, k)
    ensures !EntriesFit(config)
  {
    var paths := PathsOf(config.entries);
    if error.DuplicateWellKnownRoute? {
      var sets := RouteSets(paths, AliasAllowed(config));
      var i :| 0 <= i < k && error.path in sets[i];
    } else if error.DuplicateResourcePath? {
      var i :| 0 <= i < k && paths[..k][i] == paths[k];
      assert paths[i] == paths[k];
    } else {
      assert !Acceptable(config.entries[k]);
    }
  }

  /** The loop over the configured entries: all of them and their routes, or the first that does not fit. */
  method CollectEntries(config: SurfaceConfig)
    returns (entries: seq<Runtime>, wellKnown: map<string, WellKnownRoute>, error: Option<SurfaceError>,
             ghost seenPaths: set<string>, ghost failed: nat)
    ensures error.None? ==>
      && |entries| == |config.entries|
      && forall i :: 0 <= i < |entries| ==> Realizes(entries[i], config.entries[i], PathsOf(config.entries)[i])
    ensures error.None? ==> Collected(config, entries, seenPaths, wellKnown, |config.entries|)
    ensures error.Some? ==> Refuses(error.value, config, failed)
  {
    var paths := PathsOf(config.entries);
    var seen: set<string> := {};
    entries, wellKnown, error, seenPaths, failed := [], map[], None, {}, 0;
    for k := 0 to |config.entries|
      invariant Collected(config, entries, seen, wellKnown, k)
    {
      var entry := config.entries[k];
      failed := k;
      NotedAre(paths, seen, k);
      CollectedFits(config, entries, seen, wellKnown, k);
      var problem := CheckEntry(entry, paths[k], seen);
      if problem.Some? {
        error := problem;
        return;
      }
      var runtime := Runtime(SurfaceContext(paths[k], entry.resourceUrl, entry.issuer),
                             entry.authenticator, entry.allowedClientIds);
      var extended, taken := InsertRoutes(wellKnown, runtime, AliasAllowed(config));
      if taken.Some? {
        TakenBy(RouteSets(paths, AliasAllowed(config)), wellKnown.Keys, k, taken.value);
        error := Some(DuplicateWellKnownRoute(taken.value));
        return;
      }
      CollectedStep(config, entries, seen, wellKnown, k, runtime, extended);
      seen, wellKnown, entries := seen + {paths[k]}, extended, entries + [runtime];
    }
    seenPaths := seen;
  }

  /**
   * Accepted exactly when sound. The registry then realises each entry in order and serves exactly the
   * routes of its resources, each for its own entry; a refusal tells what is wrong with the first entry
   * that does not fit.
   */
  method BuildRegistry(config: SurfaceConfig, policy: UnmatchedRoutePolicy)
    returns (result: Result<Registry, SurfaceError>, ghost failed: nat)
    ensures result.Ok? <==> Sound(config)
    ensures result.Ok? ==> Represents(result.value, config, policy)
    ensures result == Err(EmptyRegistry) <==> config.entries == []
    ensures config.entries != [] && !config.validBaseUrl ==> result == Err(InvalidUrl("public_base_url"))
    ensures config.entries != [] && config.validBaseUrl && result.Err? ==> Refuses(result.error, config, failed)
  {
    failed := 0;
    if config.entries == [] {
      return Err(EmptyRegistry), failed;
    }
    if !config.validBaseUrl {
      return Err(InvalidUrl("public_base_url")), failed;
    }
    ghost var seenPaths;
    var entries, wellKnown, error;
    entries, wellKnown, error, seenPaths, failed := CollectEntries(config);
    if error.Some? {
      RefusedIsMisfit(error.value, config, failed);
      return Err(error.value), failed;
    }
    ghost var paths := PathsOf(config.entries);
    AllListed(config.entries, entries, seenPaths);
    assert RouteSets(paths, AliasAllowed(config))[..|paths|] == RouteSets(paths, AliasAllowed(config));
    var publicPaths := set p | p in config.publicPaths :: NormalizeResourcePath(p);
    result := Ok(Registry(entries, wellKnown, publicPaths, NormalizeAll(config.publicPrefixes), policy));
  }
}

/** The well-known routes of a registry are reached by the requests that ask for them. */
module WellKnownRoutes {
  import opened Text
  import opened IssuerRegistry
  import opened RegistryBuilder
  import opened RequestPath

  /** Lower-case letters, hyphens and dots only. */
  predicate Plain(s: string) { forall i :: 0 <= i < |s| ==> 'a' <= s[i] <= 'z' || s[i] == '-' || s[i] == '.' }

  lemma {:induction false} PlainFacts(s: string)
    requires Plain(s)
    ensures Stable(s) && Closed(s) && '/' !in s
  {
    if s != "" { PlainFacts(s[1..]); }
  }

  /** `/first/second`, followed by a text that starts with a slash or is empty. */
  lemma NameIsStable(first: string, second: string, rest: string)
    requires Plain(first) && Plain(second) && Stable(rest)
    ensures Stable("/" + (first + ("/" + (second + rest))))
  {
    PlainFacts(first);
    PlainFacts(second);
    StableConcat(second, rest);
    StableChar('/', second + rest);
    StableConcat(first, "/" + (second + rest));
    StableChar('/', first + ("/" + (second + rest)));
  }

  lemma RenderedBehind(first: string, second: string, segments: seq<string>)
    ensures Render([first, second] + segments) ==
      "/" + (first + ("/" + (second + if segments == [] then "" else Render(segments))))
  {
    JoinCons(second, segments, "/");
    JoinCons(first, [second] + segments, "/");
    assert [first] + ([second] + segments) == [first, second] + segments;
    assert segments == [] ==> second + "" == second;
  }

  /** A normal path behind two plain, ordinary pieces is normal. */
  lemma NormalBehind(first: string, second: string, segments: seq<string>)
    requires Plain(first) && Plain(second) && IsOrdinary(first) && IsOrdinary(second)
    requires AllSegments(segments) && Stable(Render(segments))
    ensures var path := Render([first, second] + segments); Normalize(path) == path
  {
    PlainFacts(first);
    PlainFacts(second);
    RenderedBehind(first, second, segments);
    NameIsStable(first, second, if segments == [] then "" else Render(segments));
    NormalizeStable([first, second] + segments);
  }

  lemma NamePlain(kind: WellKnownKind)
    ensures Plain(Name(kind)) && IsOrdinary(Name(kind))
  {
  }

  lemma DirectoryPlain()
    ensures Plain(".well-known") && IsOrdinary(".well-known")
  {
  }

  lemma Appended(directory: string, name: string, rest: string)
    ensures ("/" + directory + "/" + name) + rest == "/" + (directory + ("/" + (name + rest)))
  {
  }

  /** The route of a path behind a well-known name, both as they are rendered. */
  lemma RouteIsNormal(directory: string, name: string, p: string)
    requires Plain(directory) && Plain(name) && IsOrdinary(directory) && IsOrdinary(name) && Normalize(p) == p
    ensures var route := ("/" + directory + "/" + name) + (if p == "/" then "" else p); Normalize(route) == route
  {
    FixedPoints(p);
    var segments := ResolvedIsRendered(p);
    NormalBehind(directory, name, segments);
    RenderedBehind(directory, name, segments);
    Appended(directory, name, if p == "/" then "" else p);
    assert p == "/" <==> segments == [] by {
      if segments != [] { JoinCons(segments[0], segments[1..], "/"); assert segments == [segments[0]] + segments[1..]; }
    }
  }

  lemma AliasParts(kind: WellKnownKind, name: string)
    requires name == Name(kind)
    ensures RootAlias(kind) == "/" + ".well-known" + "/" + name
  {
    assert "/.well-known/" == "/" + ".well-known" + "/";
  }

  /** Every usual route of a resource in the normal form of requests is reached by asking for it as it is. */
  lemma WellKnownReachable(kind: WellKnownKind, p: string)
    requires IsResourcePath(p) && Trim(p) == p && Normalize(p) == p
    ensures Normalize(WellKnownPath(kind, p)) == WellKnownPath(kind, p)
  {
    NamePlain(kind);
    DirectoryPlain();
    AliasParts(kind, Name(kind));
    RouteIsNormal(".well-known", Name(kind), p);
    WellKnownExactly(kind, p);
    assert RootAlias(kind) + "" == RootAlias(kind);
  }

  /** So whoever asks for a served route of such a resource is answered with metadata. */
  lemma WellKnownServed(reg: Registry, kind: WellKnownKind, p: string)
    requires IsResourcePath(p) && Trim(p) == p && Normalize(p) == p && WellKnownPath(kind, p) in reg.wellKnown
    ensures RouteOf(reg, WellKnownPath(kind, p)).WellKnown?
  {
    WellKnownReachable(kind, p);
  }
}

/** Request-bound witnesses: what the auth surface attaches to a request and how a witness is consumed. */
module RequestBinding {
  import opened Text
  import opened AuthorizationDigest
  import opened Hashing
  import opened IssuerRegistry
  import Json

  datatype AuthContext = AuthContext(
    actor: string, scopes: seq<string>, roles: seq<string>, claims: Json.Value,
    azp: Option<string>, subject: Option<string>, tokenRef: string, rawToken: string)

  /** A credential result with its issuing authenticator and, once bound, a request marker. */
  datatype VerifiedAuthContext<Marker(==)> = VerifiedAuthContext(
    context: AuthContext, authenticator: AuthenticatorId, requestMarker: Option<Marker>)
  {
    predicate IsIssuedBy(id: AuthenticatorId) { authenticator == id }

    predicate IsBoundToRequest(marker: Marker) { requestMarker == Some(marker) }

    function BindToRequest(marker: Marker): VerifiedAuthContext<Marker>
    {
      this.(requestMarker := Some(marker))
    }
  }

  datatype Uri = Uri(scheme: Option<string>, authority: Option<string>, path: string, query: Option<string>)
  {
    /** Equality of `http::Uri`: scheme and authority ignore case, path and query do not. */
    predicate Same(other: Uri)
    {
      && SameText(scheme, other.scheme) && SameText(authority, other.authority)
      && path == other.path && query == other.query
    }
  }

  predicate SameText(a: Option<string>, b: Option<string>)
  {
    if a.Some? && b.Some? then AsciiLower(a.value) == AsciiLower(b.value) else a.None? && b.None?
  }

  /** The same text, letter case aside, or both absent. */
  predicate AlikeText(a: Option<string>, b: Option<string>)
  {
    || (a.None? && b.None?)
    || (&& a.Some? && b.Some? && |a.value| == |b.value|
        && forall i :: 0 <= i < |a.value| ==> SameLetter(a.value[i], b.value[i]))
  }

  /** The same resource: paths and queries to the letter, origins up to letter case. */
  predicate AlikeUri(u: Uri, v: Uri)
  {
    && u.path == v.path && u.query == v.query
    && AlikeText(u.scheme, v.scheme) && AlikeText(u.authority, v.authority)
  }

  lemma SameExactly(u: Uri, v: Uri)
    ensures u.Same(v) <==> AlikeUri(u, v)
  {
    if u.scheme.Some? && v.scheme.Some? { FoldsAlike(u.scheme.value, v.scheme.value); }
    if u.authority.Some? && v.authority.Some? { FoldsAlike(u.authority.value, v.authority.value); }
  }

  /** The parts of an HTTP request that a witness is bound to. */
  datatype Presented = Presented(verb: string, uri: Uri, authorization: HeaderValues)
  {
    /** The same method and Authorization values, and the same URI up to the case of its origin. */
    predicate Same(other: Presented)
    {
      verb == other.verb && AlikeUri(uri, other.uri) && authorization == other.authorization
    }
  }

  datatype Binding<Marker(==), Cell> = Binding(
    verb: string, uri: Uri, authorizationDigest: Digest, marker: Marker, lifecycle: Cell,
    surface: Option<SurfaceContext>)
  {
    predicate MatchesRequest(p: Presented)
    {
      verb == p.verb && uri.Same(p.uri) && authorizationDigest == DigestOf(p.authorization)
    }
  }

  function BeginBinding<Marker(==), Cell>(
    p: Presented, marker: Marker, cell: Cell, surface: Option<SurfaceContext>): Binding<Marker, Cell>
  {
    Binding(p.verb, p.uri, DigestOf(p.authorization), marker, cell, surface)
  }

  /** The four extension slots the auth surface uses. */
  datatype Extensions<Marker(==), Cell> = Extensions(
    binding: Option<Binding<Marker, Cell>>, verified: Option<VerifiedAuthContext<Marker>>,
    auth: Option<AuthContext>, surface: Option<SurfaceContext>)

  /** What a consumed witness carries. */
  datatype Grant = Grant(auth: Option<AuthContext>, surface: Option<SurfaceContext>)

  /** Every check made before the atomic compare-and-exchange. */
  function Check<Marker(==), Cell>(
    ext: Extensions<Marker, Cell>, p: Presented, authenticator: AuthenticatorId): (grant: Option<Grant>)
  {
    if ext.binding.None? || !ext.binding.value.MatchesRequest(p) then None
    else
      var binding := ext.binding.value;
      match binding.surface
      case Some(surface) =>
        if ext.verified.None?
           || !ext.verified.value.IsIssuedBy(authenticator)
           || !ext.verified.value.IsBoundToRequest(binding.marker) then None
        else if ext.surface != Some(surface) then None
        else Some(Grant(Some(ext.verified.value.context), Some(surface)))
      case None =>
        if ext.verified.Some? || ext.auth.Some? || ext.surface.Some? then None
        else Some(Grant(None, None))
  }

  // ----- The shared state cell -----

  datatype Stage = Active | Consumed | Closed
  {
    function Rank(): nat { match this case Active => 0 case Consumed => 1 case Closed => 2 }
  }

  class Lifecycle {
    var stage: Stage

    constructor ()
      ensures stage == Active
    {
      stage := Active;
    }

    /** compare_exchange(ACTIVE, CONSUMED). */
    method Consume() returns (ok: bool)
      modifies this
      ensures ok <==> old(stage) == Active
      ensures stage == if ok then Consumed else old(stage)
      ensures old(stage).Rank() <= stage.Rank()
    {
      ok := stage == Active;
      if ok { stage := Consumed; }
    }

    /** The guard's drop: an unconditional store. */
    method Close()
      modifies this
      ensures stage == Closed
      ensures old(stage).Rank() <= stage.Rank()
    {
      stage := Closed;
    }
  }

  /** An allocation whose address identifies one request. */
  class RequestMarker {
    constructor () {}
  }

  /**
   * Consuming from live objects: granted exactly when every check passes and the cell was still
   * active, and then the cell moves on; a refused call leaves the cell as it was.
   */
  method ConsumeVerifiedRequest(
    ext: Extensions<RequestMarker, Lifecycle>, p: Presented, authenticator: AuthenticatorId)
    returns (grant: Option<Grant>)
    modifies if ext.binding.Some? then {ext.binding.value.lifecycle} else {}
    ensures grant.Some? <==> Check(ext, p, authenticator).Some? && old(ext.binding.value.lifecycle.stage) == Active
    ensures grant.Some? ==> grant == Check(ext, p, authenticator) && ext.binding.value.lifecycle.stage == Consumed
    ensures grant.None? && ext.binding.Some? ==>
      ext.binding.value.lifecycle.stage == old(ext.binding.value.lifecycle.stage)
  {
    grant := Check(ext, p, authenticator);
    if grant.Some? {
      var ok := ext.binding.value.lifecycle.Consume();
      if !ok { grant := None; }
    }
  }
}

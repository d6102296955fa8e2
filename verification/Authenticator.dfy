/** Token authentication: the order of checks, bearer replay enforcement and the DPoP confirmation guard. */
module Authenticator {
  import opened Text
  import Json
  import Claims
  import Sorting
  import ReplayCache
  import opened RequestBinding

  datatype AuthMode = Delegation | Jwks | Introspection

  datatype AuthConfig = AuthConfig(
    mode: AuthMode, hasIntrospectionUrl: bool, introspectionForce: bool,
    actorClaim: string, requiredScopes: seq<string>, jtiEnforceBearer: bool)

  datatype TokenBinding = BearerOnly | SenderConstrained

  datatype AuthError =
    | Rejected(reason: string)
    | SenderConstrainedBearerToken
    | ConfirmationClaimMismatch
    | MissingActor
    | MissingScopes
    | MissingReplayStore
    | InvalidToken
    | ReplayStoreFailed
    | ReplayDetected

  /**
   * What the outside answers about one token: the local decoding of its signed claims, the
   * introspection response, the issuer and audience check made on a forced introspection, the
   * roles found in the claims and the token's fingerprint.
   */
  datatype Evidence = Evidence(
    signed: Result<Json.Value, AuthError>, introspected: Result<Json.Value, AuthError>,
    issuerAudience: Option<AuthError>, roles: seq<string>, token: string, tokenRef: string)

  /** Objects delivered by the JSON parser have no repeated keys. */
  predicate Parsed(e: Evidence)
  {
    e.introspected.Ok? && e.introspected.value.Object? ==> Claims.DistinctKeys(e.introspected.value.members)
  }

  // ----- Which claims are used -----

  function BaseClaims(c: AuthConfig, e: Evidence): (claims: Result<Json.Value, AuthError>)
  {
    match c.mode
    case Delegation => e.signed
    case Jwks =>
      if c.introspectionForce && c.hasIntrospectionUrl then
        if e.introspected.Ok? && e.issuerAudience.Some? then Err(e.issuerAudience.value) else e.introspected
      else e.signed
    case Introspection => e.introspected
  }

  function SelectClaims(c: AuthConfig, e: Evidence): (claims: Result<Json.Value, AuthError>)
  {
    match BaseClaims(c, e)
    case Err(error) => Err(error)
    case Ok(base) =>
      if c.mode.Jwks? && c.hasIntrospectionUrl && !c.introspectionForce then
        match e.introspected
        case Err(error) => Err(error)
        case Ok(response) => Ok(Claims.MergeClaims(base, response))
      else Ok(base)
  }

  function ConfirmationProblem(claims: Json.Value, binding: TokenBinding): (problem: Option<AuthError>)
  {
    match binding
    case BearerOnly => if Claims.HasConfirmationClaim(claims) then Some(SenderConstrainedBearerToken) else None
    case SenderConstrained => if Claims.ConfirmationJkt(claims).Some? then None else Some(ConfirmationClaimMismatch)
  }

  function Azp(claims: Json.Value): (azp: Option<string>)
  {
    var value := if Claims.Get(claims, "azp").Some? then Claims.Get(claims, "azp") else Claims.Get(claims, "client_id");
    match Claims.AsText(value)
    case Some(t) => if Trim(t) == "" then None else Some(Trim(t))
    case None => None
  }

  predicate ScopesSuffice(required: seq<string>, scopes: seq<string>)
  {
    forall i :: 0 <= i < |required| ==> required[i] in scopes
  }

  function Dedup(s: seq<string>): (r: seq<string>)
  {
    if |s| < 2 then s else if s[0] == s[1] then Dedup(s[1..]) else [s[0]] + Dedup(s[1..])
  }

  function ContextFrom(e: Evidence, claims: Json.Value, actor: string): AuthContext
  {
    AuthContext(actor, Dedup(Sorting.Sort(Claims.ExtractScopes(claims))), e.roles, claims, Azp(claims),
                Claims.TrimmedText(claims, "sub"), e.tokenRef, e.token)
  }

  /** Everything that is checked before the replay store is consulted, in order. */
  function Preflight(c: AuthConfig, e: Evidence, binding: TokenBinding): (result: Result<AuthContext, AuthError>)
  {
    match SelectClaims(c, e)
    case Err(error) => Err(error)
    case Ok(claims) =>
      var problem := ConfirmationProblem(claims, binding);
      if problem.Some? then Err(problem.value)
      else
        match Claims.TrimmedText(claims, Trim(c.actorClaim))
        case None => Err(MissingActor)
        case Some(actor) =>
          if !ScopesSuffice(c.requiredScopes, Claims.ExtractScopes(claims)) then Err(MissingScopes)
          else Ok(ContextFrom(e, claims, actor))
  }

  // ----- What an accepted token has -----

  lemma {:induction false} DedupFacts(s: seq<string>)
    requires Sorting.Sorted(s)
    ensures Sorting.Sorted(Dedup(s)) && Sorting.Distinct(Dedup(s))
    ensures forall x :: x in Dedup(s) <==> x in s
  {
    if |s| >= 2 {
      var rest := Dedup(s[1..]);
      DedupFacts(s[1..]);
      assert s == [s[0]] + s[1..];
      if s[0] != s[1] {
        forall i | 0 <= i < |rest| ensures Sorting.Leq(s[0], rest[i]) && s[0] != rest[i] {
          assert rest[i] in s[1..];
          var j :| 1 <= j < |s| && s[j] == rest[i];
          HeadIsLess(s, j);
        }
      }
    }
  }

  lemma HeadIsLess(s: seq<string>, j: nat)
    requires Sorting.Sorted(s) && 1 <= j < |s| && s[0] != s[1]
    ensures s[0] != s[j]
  {
    if s[0] == s[j] {
      Sorting.LeqReflexive(s[1]);
      assert Sorting.Leq(s[0], s[1]) && Sorting.Leq(s[1], s[j]);
      Sorting.LeqAntisymmetric(s[0], s[1]);
    }
  }

  // ----- What each mode makes of the evidence -----

  /** JWKS mode with an endpoint that replaces the local decoding. */
  predicate Forced(c: AuthConfig) { c.mode.Jwks? && c.hasIntrospectionUrl && c.introspectionForce }

  predicate UsesSignedClaims(c: AuthConfig) { c.mode.Delegation? || (c.mode.Jwks? && !Forced(c)) }

  predicate AsksServer(c: AuthConfig) { c.mode.Introspection? || (c.mode.Jwks? && c.hasIntrospectionUrl) }

  /** Every source that this configuration consults has vouched for the token. */
  predicate Vouched(c: AuthConfig, e: Evidence)
  {
    && (UsesSignedClaims(c) ==> e.signed.Ok?) && (AsksServer(c) ==> e.introspected.Ok?)
    && (Forced(c) ==> e.issuerAudience.None?)
  }

  /** The first complaint of a source that is consulted. */
  function Complaint(c: AuthConfig, e: Evidence): (error: AuthError)
    requires !Vouched(c, e)
  {
    if UsesSignedClaims(c) && e.signed.Err? then e.signed.error
    else if e.introspected.Err? then e.introspected.error
    else e.issuerAudience.value
  }

  /** Claims that look up as the merge of these two. */
  ghost predicate Merges(signed: Json.Value, response: Json.Value, claims: Json.Value)
  {
    && (!signed.Object? || !response.Object? ==> claims == signed)
    && forall key :: Claims.Get(claims, key) == Claims.MergedLookup(signed, response, key)
  }

  /** The claims in force: the signed ones, the response's, or where both are consulted their merge. */
  ghost predicate InForce(c: AuthConfig, e: Evidence, claims: Json.Value)
  {
    && Vouched(c, e)
    && if !AsksServer(c) then claims == e.signed.value
       else if !UsesSignedClaims(c) then claims == e.introspected.value
       else Merges(e.signed.value, e.introspected.value, claims)
  }

  lemma SelectExactly(c: AuthConfig, e: Evidence)
    requires Parsed(e)
    ensures SelectClaims(c, e).Ok? <==> Vouched(c, e)
    ensures SelectClaims(c, e).Ok? ==> InForce(c, e, SelectClaims(c, e).value)
    ensures SelectClaims(c, e).Err? ==> SelectClaims(c, e).error == Complaint(c, e)
  {
    if SelectClaims(c, e).Ok? && UsesSignedClaims(c) && AsksServer(c) {
      var signed, response := e.signed.value, e.introspected.value;
      forall key
        ensures Claims.Get(Claims.MergeClaims(signed, response), key) == Claims.MergedLookup(signed, response, key)
      {
        Claims.MergeLookup(signed, response, key);
      }
    }
  }

  /** The confirmation rule: a bearer token has no `cnf`, a sender-constrained one names its key. */
  ghost predicate BoundAs(claims: Json.Value, binding: TokenBinding)
  {
    if binding.BearerOnly? then Claims.Get(claims, "cnf").None? else exists jkt :: Claims.Confirms(claims, jkt)
  }

  ghost predicate HasActor(c: AuthConfig, claims: Json.Value)
  {
    exists actor :: Claims.IsText(claims, Trim(c.actorClaim), actor)
  }

  ghost predicate HasScopes(c: AuthConfig, claims: Json.Value)
  {
    forall x :: x in c.requiredScopes ==> Claims.HasScope(claims, x)
  }

  /** What is wrong with claims, in the order in which it is noticed; None if nothing is. */
  ghost function Objection(c: AuthConfig, claims: Json.Value, binding: TokenBinding): (error: Option<AuthError>)
  {
    if !BoundAs(claims, binding)
    then Some(if binding.BearerOnly? then SenderConstrainedBearerToken else ConfirmationClaimMismatch)
    else if !HasActor(c, claims) then Some(MissingActor)
    else if !HasScopes(c, claims) then Some(MissingScopes)
    else None
  }

  /** Claims that look up alike are judged alike. */
  lemma SameObjection(c: AuthConfig, a: Json.Value, b: Json.Value, binding: TokenBinding)
    requires forall key :: Claims.Get(a, key) == Claims.Get(b, key)
    ensures Objection(c, a, binding) == Objection(c, b, binding)
  {
    assert forall jkt :: Claims.Confirms(a, jkt) <==> Claims.Confirms(b, jkt);
    assert forall actor :: Claims.IsText(a, Trim(c.actorClaim), actor) <==> Claims.IsText(b, Trim(c.actorClaim), actor);
    assert forall x :: Claims.HasScope(a, x) <==> Claims.HasScope(b, x);
  }

  lemma ClaimsJudged(c: AuthConfig, e: Evidence, binding: TokenBinding)
    requires SelectClaims(c, e).Ok?
    ensures var claims := SelectClaims(c, e).value;
      && (Preflight(c, e, binding).Ok? <==> Objection(c, claims, binding).None?)
      && (Preflight(c, e, binding).Err? ==> Objection(c, claims, binding) == Some(Preflight(c, e, binding).error))
  {
    var claims := SelectClaims(c, e).value;
    var actor, jkt := Claims.TrimmedText(claims, Trim(c.actorClaim)), Claims.ConfirmationJkt(claims);
    forall text {
      Claims.ClaimExactly(claims, Trim(c.actorClaim), text);
    }
    assert HasActor(c, claims) <==> actor.Some? by {
      if actor.Some? { assert Claims.IsText(claims, Trim(c.actorClaim), actor.value); }
    }
    assert BoundAs(claims, SenderConstrained) <==> jkt.Some? by {
      if jkt.Some? { assert Claims.Confirms(claims, jkt.value); }
    }
    forall x {
      Claims.ScopesExactly(claims, x);
    }
    assert ScopesSuffice(c.requiredScopes, Claims.ExtractScopes(claims)) <==> HasScopes(c, claims);
  }

  /**
   * Judged by configuration and evidence alone: a token is refused with the first complaint of a source
   * that its mode consults, or with the first objection to the claims in force; otherwise it passes.
   */
  lemma PreflightExactly(c: AuthConfig, e: Evidence, binding: TokenBinding, claims: Json.Value)
    requires Parsed(e)
    ensures !Vouched(c, e) ==> Preflight(c, e, binding) == Err(Complaint(c, e))
    ensures InForce(c, e, claims) ==>
      && (Preflight(c, e, binding).Ok? <==> Objection(c, claims, binding).None?)
      && (Preflight(c, e, binding).Err? ==> Objection(c, claims, binding) == Some(Preflight(c, e, binding).error))
  {
    SelectExactly(c, e);
    if InForce(c, e, claims) {
      ClaimsJudged(c, e, binding);
      SameObjection(c, SelectClaims(c, e).value, claims, binding);
    }
  }

  /** The client: `azp`, or `client_id` where there is no `azp`, as trimmed non-blank text. */
  predicate IsClient(claims: Json.Value, client: string)
  {
    Claims.IsText(claims, if Claims.Get(claims, "azp").Some? then "azp" else "client_id", client)
  }

  /** Every field of the context is what the claims in force and the evidence say. */
  lemma AcceptedContext(c: AuthConfig, e: Evidence, binding: TokenBinding)
    requires Parsed(e) && Preflight(c, e, binding).Ok?
    ensures var context := Preflight(c, e, binding).value;
      && InForce(c, e, context.claims) && Objection(c, context.claims, binding).None?
      && Claims.IsText(context.claims, Trim(c.actorClaim), context.actor)
      && Sorting.Sorted(context.scopes) && Sorting.Distinct(context.scopes)
      && (forall x :: x in context.scopes <==> Claims.HasScope(context.claims, x))
      && (forall text :: context.azp == Some(text) <==> IsClient(context.claims, text))
      && (forall text :: context.subject == Some(text) <==> Claims.IsText(context.claims, "sub", text))
      && context.roles == e.roles && context.tokenRef == e.tokenRef && context.rawToken == e.token
  {
    SelectExactly(c, e);
    ClaimsJudged(c, e, binding);
    var claims := SelectClaims(c, e).value;
    forall text {
      Claims.ClaimExactly(claims, "sub", text);
    }
    forall x {
      Claims.ScopesExactly(claims, x);
    }
    Claims.ClaimExactly(claims, Trim(c.actorClaim), Preflight(c, e, binding).value.actor);
    var scopes := Claims.ExtractScopes(claims);
    Sorting.SortFacts(scopes);
    DedupFacts(Sorting.Sort(scopes));
  }

  // ----- A signed confirmation claim cannot be talked away -----

  lemma SignedConfirmationSelected(c: AuthConfig, e: Evidence)
    requires Parsed(e) && UsesSignedClaims(c) && e.signed.Ok? && Claims.HasConfirmationClaim(e.signed.value)
    requires SelectClaims(c, e).Ok?
    ensures Claims.HasConfirmationClaim(SelectClaims(c, e).value)
    ensures Claims.ConfirmationJkt(SelectClaims(c, e).value) == Claims.ConfirmationJkt(e.signed.value)
  {
    SelectExactly(c, e);
  }

  /** Whatever introspection answers, a token whose signed claims carry `cnf` never passes as a bearer token. */
  lemma NoBearerWithSignedConfirmation(c: AuthConfig, e: Evidence)
    requires Parsed(e) && UsesSignedClaims(c) && e.signed.Ok? && Claims.HasConfirmationClaim(e.signed.value)
    ensures Preflight(c, e, BearerOnly).Err?
  {
    if SelectClaims(c, e).Ok? {
      SignedConfirmationSelected(c, e);
    }
  }

  /**
   * Exactly when a token whose signed claims carry `cnf` is taken as a bearer token: the mode must
   * leave the signed claims unread, and the introspection response must pass by itself.
   */
  lemma SignedConfirmationAsBearer(c: AuthConfig, e: Evidence)
    requires Parsed(e) && e.signed.Ok? && Claims.HasConfirmationClaim(e.signed.value)
    ensures Preflight(c, e, BearerOnly).Ok? <==>
      && !UsesSignedClaims(c) && e.introspected.Ok? && (c.mode.Jwks? ==> e.issuerAudience.None?)
      && Objection(c, e.introspected.value, BearerOnly).None?
  {
    PreflightExactly(c, e, BearerOnly, if e.introspected.Ok? then e.introspected.value else Json.Null);
    if UsesSignedClaims(c) { NoBearerWithSignedConfirmation(c, e); }
  }

  /** A response that says nothing but the subject. */
  function SubjectOnly(): (claims: Json.Value)
  {
    Json.Object([Json.Member("sub", Json.String("u"))])
  }

  lemma SubjectOnlyClaims()
    ensures Claims.TrimmedText(SubjectOnly(), Trim("sub")) == Some("u") && !Claims.HasConfirmationClaim(SubjectOnly())
  {
    var members := SubjectOnly().members;
    assert members[1..] == [];
    assert Claims.Find(members, Claims.CNF) == Claims.Find([], Claims.CNF);
    assert Trim("sub") == "sub" && Trim("u") == "u";
  }

  /** Under forced introspection a signed `cnf` goes unread: such a token does pass as a bearer token. */
  lemma ForcedIntrospectionSkipsConfirmation()
    ensures
      var signed := Json.Object([Json.Member(Claims.CNF, Json.Object([]))]);
      var e := Evidence(Ok(signed), Ok(SubjectOnly()), None, [], "t", "r");
      && Parsed(e) && Claims.HasConfirmationClaim(signed)
      && Preflight(AuthConfig(Jwks, true, true, "sub", [], true), e, BearerOnly).Ok?
      && Preflight(AuthConfig(Introspection, true, false, "sub", [], true), e, BearerOnly).Ok?
  {
    SubjectOnlyClaims();
  }

  // ----- The confirmation-bound replay store -----

  /** One `insert_once` call made by the proof verifier, and what the backing store would answer. */
  datatype Insertion = Insertion(jtiHash: seq<int>, jkt: Option<string>, answer: Result<bool, string>)

  /** The caller's replay store; it remembers what it was asked to insert. */
  class ReplayStore {
    var received: seq<Insertion>

    constructor ()
      ensures received == []
    {
      received := [];
    }

    method InsertOnce(call: Insertion) returns (answer: Result<bool, string>)
      modifies this
      ensures received == old(received) + [call] && answer == call.answer
    {
      received := received + [call];
      answer := call.answer;
    }
  }

  class ConfirmationBoundReplayStore {
    const inner: ReplayStore
    const expectedJkt: string
    var confirmationMismatch: bool

    constructor (inner: ReplayStore, expectedJkt: string)
      ensures this.inner == inner && this.expectedJkt == expectedJkt && !confirmationMismatch
    {
      this.inner := inner;
      this.expectedJkt := expectedJkt;
      confirmationMismatch := false;
    }

    method InsertOnce(call: Insertion) returns (answer: Result<bool, string>)
      modifies this, inner
      ensures confirmationMismatch == (old(confirmationMismatch) || call.jkt != Some(expectedJkt))
      ensures inner.received == old(inner.received) + Forwarded([call], expectedJkt)
      ensures answer == if call.jkt == Some(expectedJkt) then call.answer else Ok(false)
    {
      if call.jkt != Some(expectedJkt) {
        confirmationMismatch := true;
        return Ok(false);
      }
      answer := inner.InsertOnce(call);
      assert Forwarded([call], expectedJkt) == [call] + Forwarded([], expectedJkt);
    }
  }

  /** The calls under the token's own key thumbprint, in order. */
  function Forwarded(calls: seq<Insertion>, jkt: string): (r: seq<Insertion>)
  {
    if calls == [] then []
    else (if calls[0].jkt == Some(jkt) then [calls[0]] else []) + Forwarded(calls[1..], jkt)
  }

  lemma {:induction false} ForwardedConcat(a: seq<Insertion>, b: seq<Insertion>, jkt: string)
    ensures Forwarded(a + b, jkt) == Forwarded(a, jkt) + Forwarded(b, jkt)
  {
    if a == [] {
      assert a + b == b;
    } else {
      assert (a + b)[1..] == a[1..] + b;
      ForwardedConcat(a[1..], b, jkt);
      ConcatAssociative(if a[0].jkt == Some(jkt) then [a[0]] else [], Forwarded(a[1..], jkt), Forwarded(b, jkt));
    }
  }

  /** Exactly the matching calls get through, unchanged and in order. */
  lemma {:induction false} ForwardedExactly(calls: seq<Insertion>, jkt: string)
    ensures forall x :: x in Forwarded(calls, jkt) <==> x in calls && x.jkt == Some(jkt)
    ensures Forwarded(calls, jkt) == calls <==> forall i :: 0 <= i < |calls| ==> calls[i].jkt == Some(jkt)
    ensures |Forwarded(calls, jkt)| <= |calls|
  {
    if calls != [] {
      ForwardedExactly(calls[1..], jkt);
      assert calls == [calls[0]] + calls[1..];
      if calls[0].jkt == Some(jkt) {
        assert Forwarded(calls, jkt)[1..] == Forwarded(calls[1..], jkt);
      } else {
        assert |Forwarded(calls, jkt)| < |calls|;
      }
    }
  }

  datatype SenderConstrainedError = Authentication(error: AuthError) | Dpop(reason: string)

  predicate Mismatched(calls: seq<Insertion>, jkt: string)
  {
    exists i :: 0 <= i < |calls| && calls[i].jkt != Some(jkt)
  }

  /** Runs an arbitrary verifier: whatever calls it makes go through the guard. */
  method RunVerifier(guarded: ConfirmationBoundReplayStore, calls: seq<Insertion>)
    modifies guarded, guarded.inner
    ensures guarded.inner.received == old(guarded.inner.received) + Forwarded(calls, guarded.expectedJkt)
    ensures guarded.confirmationMismatch ==
      (old(guarded.confirmationMismatch) || Mismatched(calls, guarded.expectedJkt))
  {
    for i := 0 to |calls|
      invariant guarded.inner.received == old(guarded.inner.received) + Forwarded(calls[..i], guarded.expectedJkt)
      invariant guarded.confirmationMismatch ==
        (old(guarded.confirmationMismatch) || Mismatched(calls[..i], guarded.expectedJkt))
    {
      var answer := guarded.InsertOnce(calls[i]);
      assert calls[..i + 1] == calls[..i] + [calls[i]];
      ForwardedConcat(calls[..i], [calls[i]], guarded.expectedJkt);
      MismatchedExtends(calls, i, guarded.expectedJkt);
    }
    assert calls[..|calls|] == calls;
  }

  lemma MismatchedExtends(calls: seq<Insertion>, i: nat, jkt: string)
    requires i < |calls|
    ensures Mismatched(calls[..i + 1], jkt) <==> Mismatched(calls[..i], jkt) || calls[i].jkt != Some(jkt)
  {
    var longer, shorter := calls[..i + 1], calls[..i];
    assert longer[i] == calls[i] && forall k :: 0 <= k < i ==> longer[k] == shorter[k];
  }

  /**
   * Sender-constrained authentication against an arbitrary verifier, given as the calls it makes
   * and the verdict it returns. The backing store receives only insertions under the token's own
   * key; success needs the preflight, a matching key on every call, and the verifier's consent.
   */
  method AuthenticateSenderConstrained(
    c: AuthConfig, e: Evidence, calls: seq<Insertion>, verdict: Option<string>, store: ReplayStore)
    returns (result: Result<AuthContext, SenderConstrainedError>)
    modifies store
    ensures Preflight(c, e, SenderConstrained).Err? ==>
      result == Err(Authentication(Preflight(c, e, SenderConstrained).error)) && store.received == old(store.received)
    ensures Preflight(c, e, SenderConstrained).Ok? ==>
      var context := Preflight(c, e, SenderConstrained).value;
      && Claims.ConfirmationJkt(context.claims).Some?
      && var jkt := Claims.ConfirmationJkt(context.claims).value;
         && store.received == old(store.received) + Forwarded(calls, jkt)
         && (Mismatched(calls, jkt) ==> result == Err(Authentication(ConfirmationClaimMismatch)))
         && (result.Ok? <==> !Mismatched(calls, jkt) && verdict.None?)
         && (result.Ok? ==> result.value == context)
         && (!Mismatched(calls, jkt) && verdict.Some? ==> result == Err(Dpop(verdict.value)))
  {
    var preflight := Preflight(c, e, SenderConstrained);
    if preflight.Err? {
      return Err(Authentication(preflight.error));
    }
    var jkt := Claims.ConfirmationJkt(preflight.value.claims);
    if jkt.None? {
      return Err(Authentication(ConfirmationClaimMismatch));
    }
    var guarded := new ConfirmationBoundReplayStore(store, jkt.value);
    RunVerifier(guarded, calls);
    if guarded.confirmationMismatch {
      return Err(Authentication(ConfirmationClaimMismatch));
    }
    if verdict.Some? {
      return Err(Dpop(verdict.value));
    }
    result := Ok(preflight.value);
  }

  // ----- Bearer replay enforcement -----

  /** The identifier a bearer attempt would record: only set when every other check passes. */
  function ReplayKey(c: AuthConfig, e: Evidence): (jti: Option<string>)
  {
    match Preflight(c, e, BearerOnly)
    case Ok(context) => Claims.TrimmedText(context.claims, "jti")
    case Err(_) => None
  }

  /**
   * The outcome of one bearer attempt. `store` is the attached cache, if any; `available` is false
   * when its lock is poisoned.
   */
  function Outcome(c: AuthConfig, e: Evidence, store: Option<ReplayCache.Cache>, available: bool, now: int)
    : (result: Result<AuthContext, AuthError>)
  {
    var checked := Preflight(c, e, BearerOnly);
    if checked.Err? || !c.jtiEnforceBearer then checked
    else if store.None? then Err(MissingReplayStore)
    else if ReplayKey(c, e).None? then Err(InvalidToken)
    else if !available then Err(ReplayStoreFailed)
    else if ReplayCache.Hit(store.value, ReplayKey(c, e).value, now) then Err(ReplayDetected)
    else checked
  }

  /** The identifier the store is asked about, if the attempt gets that far. */
  function Asked(c: AuthConfig, e: Evidence, attached: bool, available: bool): (jti: Option<string>)
  {
    if c.jtiEnforceBearer && attached && available then ReplayKey(c, e) else None
  }

  /** What replay enforcement says about claims that passed everything else; None if nothing. */
  ghost function ReplayObjection(
    claims: Json.Value, store: Option<ReplayCache.Cache>, available: bool, now: int): (error: Option<AuthError>)
  {
    if store.None? then Some(MissingReplayStore)
    else if jti :| Claims.IsText(claims, "jti", jti) then
      if !available then Some(ReplayStoreFailed)
      else if jti in store.value.entries && now < store.value.entries[jti] then Some(ReplayDetected)
      else None
    else Some(InvalidToken)
  }

  /** Enforcement comes last and alone decides what the other checks let through; the store is asked only then. */
  lemma OutcomeExactly(c: AuthConfig, e: Evidence, store: Option<ReplayCache.Cache>, available: bool, now: int)
    ensures var passed := Preflight(c, e, BearerOnly);
      && (passed.Err? ==> Outcome(c, e, store, available, now) == passed)
      && (passed.Ok? ==>
            var objection :=
              if c.jtiEnforceBearer then ReplayObjection(passed.value.claims, store, available, now) else None;
            Outcome(c, e, store, available, now) == if objection.Some? then Err(objection.value) else passed)
      && (forall jti :: Asked(c, e, store.Some?, available) == Some(jti) <==>
            && passed.Ok? && c.jtiEnforceBearer && store.Some? && available
            && Claims.IsText(passed.value.claims, "jti", jti))
  {
    var passed := Preflight(c, e, BearerOnly);
    if passed.Ok? {
      forall text {
        Claims.ClaimExactly(passed.value.claims, "jti", text);
      }
      var key := ReplayKey(c, e);
      if key.Some? { assert Claims.IsText(passed.value.claims, "jti", key.value); }
    }
  }

  /** Bearer authentication in the order of the source; the store moves only if it is asked. */
  method AuthenticateBearer(c: AuthConfig, e: Evidence, store: ReplayCache.JtiCache?, available: bool, now: int)
    returns (result: Result<AuthContext, AuthError>, ghost victim: string)
    modifies if store == null then {} else {store}
    ensures result == Outcome(c, e, if store == null then None else Some(old(store.Contents())), available, now)
    ensures store != null && Asked(c, e, true, available).None? ==> store.Contents() == old(store.Contents())
    ensures store != null && Asked(c, e, true, available).Some? ==>
      var jti := Asked(c, e, true, available).value;
      && ReplayCache.LegalVictim(old(store.Contents()), jti, now, victim)
      && store.Contents() == ReplayCache.AfterSeen(old(store.Contents()), jti, now, victim)
  {
    victim := "";
    result := Preflight(c, e, BearerOnly);
    if result.Err? || !c.jtiEnforceBearer {
      return;
    }
    if store == null {
      return Err(MissingReplayStore), victim;
    }
    var jti := Claims.TrimmedText(result.value.claims, "jti");
    if jti.None? {
      return Err(InvalidToken), victim;
    }
    if !available {
      return Err(ReplayStoreFailed), victim;
    }
    var replay;
    replay, victim := store.Seen(jti.value, now);
    if replay {
      result := Err(ReplayDetected);
    }
  }

  // ----- Whole runs of bearer attempts, by any number of authenticators over one store -----

  /**
   * One bearer attempt: the authenticator's configuration, whether it holds the shared store and the
   * store answers, its evidence, the clock reading taken under the lock and a victim for the map.
   */
  datatype BearerAttempt = BearerAttempt(
    config: AuthConfig, attached: bool, available: bool, evidence: Evidence, now: int, victim: string)
  {
    function Asks(): Option<string> { Asked(config, evidence, attached, available) }

    function Result(cache: ReplayCache.Cache): Result<AuthContext, AuthError>
    {
      Outcome(config, evidence, if attached then Some(cache) else None, available, now)
    }

    /** Enforcement was on and the attempt succeeded against this cache. */
    predicate Succeeds(cache: ReplayCache.Cache) { config.jtiEnforceBearer && Result(cache).Ok? }
  }

  datatype Success = Success(jti: string, at: int)

  /** The store's run so far and the enforced successes made from it. */
  datatype Log = Log(run: ReplayCache.Run, successes: seq<Success>)

  function CallOf(a: BearerAttempt): ReplayCache.Call
    requires a.Asks().Some?
  {
    ReplayCache.Call(a.Asks().value, a.now, a.victim)
  }

  ghost predicate Legal(log: Log, a: BearerAttempt)
  {
    a.Asks().Some? ==> ReplayCache.LegalCall(log.run, CallOf(a))
  }

  /** The store moves if it is asked; an enforced success is noted under its identifier. */
  ghost function Next(log: Log, a: BearerAttempt): Log
  {
    Log(if a.Asks().Some? then ReplayCache.Next(log.run, CallOf(a)) else log.run,
        if a.Succeeds(log.run.cache) then log.successes + [Success(a.Asks().value, a.now)] else log.successes)
  }

  ghost predicate LegalAttempts(log: Log, attempts: seq<BearerAttempt>)
    decreases |attempts|
  {
    attempts == [] || (Legal(log, attempts[0]) && LegalAttempts(Next(log, attempts[0]), attempts[1..]))
  }

  ghost function After(log: Log, attempts: seq<BearerAttempt>): Log
    decreases |attempts|
  {
    if attempts == [] then log else After(Next(log, attempts[0]), attempts[1..])
  }

  /** The enforced successes are exactly the store's recordings. */
  ghost predicate Recorded(log: Log)
  {
    && |log.successes| == |log.run.history|
    && forall i :: 0 <= i < |log.successes| ==>
         log.run.history[i] == ReplayCache.Recording(log.successes[i].jti, log.successes[i].at)
  }

  /** Equal identifiers succeed at least a time-to-live apart. */
  predicate Spaced(successes: seq<Success>, ttl: nat)
  {
    forall i, j :: 0 <= i < j < |successes| && successes[i].jti == successes[j].jti ==>
      successes[j].at >= successes[i].at + ttl
  }

  /** A success within the time-to-live of an earlier one with the same identifier. */
  predicate Early(before: seq<Success>, s: Success, ttl: nat)
  {
    exists i :: 0 <= i < |before| && before[i].jti == s.jti && s.at < before[i].at + ttl
  }

  function EarlyCount(successes: seq<Success>, ttl: nat): nat
  {
    if successes == [] then 0
    else
      var init, last := successes[..|successes| - 1], successes[|successes| - 1];
      EarlyCount(init, ttl) + (if Early(init, last, ttl) then 1 else 0)
  }

  lemma {:induction false} NoneEarlyIsSpaced(successes: seq<Success>, ttl: nat)
    ensures EarlyCount(successes, ttl) == 0 <==> Spaced(successes, ttl)
  {
    if successes != [] {
      var init, last := successes[..|successes| - 1], successes[|successes| - 1];
      NoneEarlyIsSpaced(init, ttl);
      assert forall i :: 0 <= i < |init| ==> init[i] == successes[i];
    }
  }

  ghost predicate LogInv(log: Log)
  {
    ReplayCache.Inv(log.run) && Recorded(log) && EarlyCount(log.successes, log.run.cache.ttl) == log.run.missed
  }

  /** Asked about an identifier, the store decides the attempt; unasked, no enforced attempt succeeds. */
  lemma StoreDecides(log: Log, a: BearerAttempt)
    ensures a.Succeeds(log.run.cache) <==>
      a.Asks().Some? && !ReplayCache.Hit(log.run.cache, a.Asks().value, a.now)
  {
  }

  lemma EarlyIsMissed(log: Log, call: ReplayCache.Call)
    requires Recorded(log) && !ReplayCache.Hit(log.run.cache, call.jti, call.now)
    ensures Early(log.successes, Success(call.jti, call.now), log.run.cache.ttl) <==> ReplayCache.Missed(log.run, call)
  {
    if ReplayCache.Missed(log.run, call) {
      var i :| 0 <= i < |log.run.history| && log.run.history[i].jti == call.jti
               && call.now < log.run.history[i].at + log.run.cache.ttl;
      assert log.successes[i].jti == call.jti;
    }
    if Early(log.successes, Success(call.jti, call.now), log.run.cache.ttl) {
      var i :| 0 <= i < |log.successes| && log.successes[i].jti == call.jti
               && call.now < log.successes[i].at + log.run.cache.ttl;
      assert log.run.history[i].jti == call.jti;
    }
  }

  /** The log after the store has answered a call. */
  ghost function Answered(log: Log, call: ReplayCache.Call): Log
  {
    Log(ReplayCache.Next(log.run, call),
        if ReplayCache.Hit(log.run.cache, call.jti, call.now) then log.successes
        else log.successes + [Success(call.jti, call.now)])
  }

  lemma CountExtends(successes: seq<Success>, s: Success, ttl: nat)
    ensures EarlyCount(successes + [s], ttl) == EarlyCount(successes, ttl) + if Early(successes, s, ttl) then 1 else 0
  {
    assert (successes + [s])[..|successes|] == successes;
  }

  lemma RecordedKept(log: Log, call: ReplayCache.Call)
    requires Recorded(log)
    ensures Recorded(Answered(log, call))
  {
  }

  lemma AnswerKeepsCount(log: Log, call: ReplayCache.Call)
    requires LogInv(log) && ReplayCache.LegalCall(log.run, call)
    ensures LogInv(Answered(log, call))
  {
    ReplayCache.StepKeepsInv(log.run, call);
    RecordedKept(log, call);
    if !ReplayCache.Hit(log.run.cache, call.jti, call.now) {
      EarlyIsMissed(log, call);
      CountExtends(log.successes, Success(call.jti, call.now), log.run.cache.ttl);
    }
  }

  /** Each attempt keeps the successes recorded and the early ones counted as the store's misses. */
  lemma StepKeepsCount(log: Log, a: BearerAttempt)
    requires LogInv(log) && Legal(log, a)
    ensures LogInv(Next(log, a))
  {
    StoreDecides(log, a);
    if a.Asks().Some? {
      AnswerKeepsCount(log, CallOf(a));
      assert Next(log, a) == Answered(log, CallOf(a));
    }
  }

  lemma {:induction false} AttemptsKeepCount(log: Log, attempts: seq<BearerAttempt>)
    requires LogInv(log) && LegalAttempts(log, attempts)
    ensures LogInv(After(log, attempts))
    decreases |attempts|
  {
    if attempts != [] {
      StepKeepsCount(log, attempts[0]);
      AttemptsKeepCount(Next(log, attempts[0]), attempts[1..]);
    }
  }

  /** The identifiers the store is asked about. */
  function KeysOf(attempts: seq<BearerAttempt>): set<string>
  {
    set i | 0 <= i < |attempts| && attempts[i].Asks().Some? :: attempts[i].Asks().value
  }

  lemma {:induction false} NoEvictions(log: Log, attempts: seq<BearerAttempt>, universe: set<string>)
    requires log.run.evictions == 0 && log.run.cache.entries.Keys <= universe
    requires KeysOf(attempts) <= universe && |universe| <= log.run.cache.capacity
    ensures After(log, attempts).run.evictions == 0
    decreases |attempts|
  {
    if attempts != [] {
      assert KeysOf(attempts[1..]) <= KeysOf(attempts);
      if attempts[0].Asks().Some? {
        assert attempts[0].Asks().value in KeysOf(attempts);
        ReplayCache.NoEvictionWithRoom(log.run, CallOf(attempts[0]), universe);
      }
      NoEvictions(Next(log, attempts[0]), attempts[1..], universe);
    }
  }

  function FreshLog(ttl: nat, capacity: nat, clock: int): Log
  {
    Log(ReplayCache.Start(ttl, capacity, clock), [])
  }

  /**
   * Over every run of attempts by any authenticators over one store: enforced successes within the
   * time-to-live of an earlier one with the same trimmed identifier never outnumber the evictions of
   * unexpired entries, and when at most `capacity` identifiers are presented there are none.
   */
  lemma SuccessesSpaced(ttl: nat, capacity: nat, clock: int, attempts: seq<BearerAttempt>)
    requires LegalAttempts(FreshLog(ttl, capacity, clock), attempts)
    ensures var end := After(FreshLog(ttl, capacity, clock), attempts);
      && EarlyCount(end.successes, end.run.cache.ttl) <= end.run.evictions
      && (|KeysOf(attempts)| <= capacity ==> Spaced(end.successes, end.run.cache.ttl))
  {
    var start := FreshLog(ttl, capacity, clock);
    ReplayCache.StartInv(ttl, capacity, clock);
    AttemptsKeepCount(start, attempts);
    var end := After(start, attempts);
    if |KeysOf(attempts)| <= capacity {
      NoEvictions(start, attempts, KeysOf(attempts));
      NoneEarlyIsSpaced(end.successes, end.run.cache.ttl);
    }
  }
}

/** The token-exchange retry loop against an arbitrary server and arbitrary concurrent nonce writers. */
module TokenExchange {
  import opened Text
  import opened NonceStore
  import ER = ExchangeRequest

  // ----- What the server may answer -----

  datatype RawToken = RawToken(
    accessToken: Option<string>, issuedTokenType: Option<string>, tokenType: Option<string>,
    expiresIn: Option<nat>, scope: Option<string>, refreshToken: Option<string>)

  /** A body as the two JSON readings of it: the OAuth error code and the token response, if they parse. */
  datatype Body = Unreadable(tooLarge: bool) | Readable(oauthError: Option<string>, token: Option<RawToken>)

  datatype Reply =
    | TransportFailure
    | Reply(status: nat, nonceHeaders: seq<HeaderText>, jsonContentType: bool, body: Body)

  datatype ExchangeError =
    | Nonce(nonceError: NonceError)
    | ProofConstruction
    | Http
    | ResponseTooLarge
    | UnexpectedResponseContentType
    | TokenEndpointRejected(status: nat, code: string)
    | MalformedTokenResponse
    | UnexpectedRefreshToken
    | MissingAccessToken
    | UnexpectedTokenType
    | UnexpectedIssuedTokenType
    | BroadenedScopes

  datatype AccessToken = AccessToken(accessToken: string, expiresIn: Option<nat>, scope: Option<string>)

  // ----- Response validation -----

  const SAFE_CODES := {
    "invalid_request", "invalid_client", "invalid_grant", "unauthorized_client", "unsupported_grant_type",
    "invalid_scope", "invalid_target", "use_dpop_nonce", "temporarily_unavailable", "server_error"}

  function SafeCode(code: Option<string>): string
  {
    if code.Some? && code.value in SAFE_CODES then code.value else "token_endpoint_error"
  }

  function GrantedScope(requested: seq<string>, granted: Option<string>): (scope: Result<Option<string>, ExchangeError>)
  {
    match granted
    case Some(scope) =>
      if !ER.IsScopeList(scope) then Err(MalformedTokenResponse)
      else if exists i :: 0 <= i < |Split(scope, ' ')| && Split(scope, ' ')[i] !in requested then Err(BroadenedScopes)
      else Ok(Some(scope))
    case None => if requested == [] then Ok(None) else Ok(Some(Join(requested, " ")))
  }

  function ValidateSuccess(request: ER.Request, token: Option<RawToken>): (result: Result<AccessToken, ExchangeError>)
  {
    match token
    case None => Err(MalformedTokenResponse)
    case Some(raw) =>
      if raw.refreshToken.Some? then Err(UnexpectedRefreshToken)
      else if raw.accessToken.None? || Trim(raw.accessToken.value) == "" then Err(MissingAccessToken)
      else if raw.tokenType.None? || AsciiLower(raw.tokenType.value) != "dpop" then Err(UnexpectedTokenType)
      else if raw.issuedTokenType != Some(ER.RFC8693_ACCESS_TOKEN_TYPE) then Err(UnexpectedIssuedTokenType)
      else match GrantedScope(request.scopes, raw.scope)
        case Err(e) => Err(e)
        case Ok(scope) => Ok(AccessToken(raw.accessToken.value, raw.expiresIn, scope))
  }

  // ----- What validation accepts and what it says otherwise -----

  predicate HasToken(raw: RawToken) { raw.accessToken.Some? && Trim(raw.accessToken.value) != "" }

  predicate IsDpop(raw: RawToken) { raw.tokenType.Some? && AsciiLower(raw.tokenType.value) == "dpop" }

  /** Every space-separated name in the text was requested. */
  predicate NamesWithin(scope: string, requested: seq<string>)
  {
    forall i :: 0 <= i < |Split(scope, ' ')| ==> Split(scope, ' ')[i] in requested
  }

  /** The scope a token gets: what the server named, within what was requested, or else what was requested. */
  predicate ScopeFor(requested: seq<string>, granted: Option<string>, scope: Option<string>)
  {
    if granted.Some? then ER.IsScopeList(granted.value) && NamesWithin(granted.value, requested) && scope == granted
    else scope == if requested == [] then None else Some(Join(requested, " "))
  }

  /** A token response this client accepts, and the token it then holds. */
  predicate Yields(request: ER.Request, raw: RawToken, token: AccessToken)
  {
    && raw.refreshToken.None? && HasToken(raw) && IsDpop(raw)
    && raw.issuedTokenType == Some(ER.RFC8693_ACCESS_TOKEN_TYPE)
    && raw.accessToken == Some(token.accessToken) && raw.expiresIn == token.expiresIn
    && ScopeFor(request.scopes, raw.scope, token.scope)
  }

  /** A token response this client refuses, and the first thing wrong with it. */
  predicate Refuses(request: ER.Request, raw: RawToken, error: ExchangeError)
  {
    if raw.refreshToken.Some? then error == UnexpectedRefreshToken
    else if !HasToken(raw) then error == MissingAccessToken
    else if !IsDpop(raw) then error == UnexpectedTokenType
    else if raw.issuedTokenType != Some(ER.RFC8693_ACCESS_TOKEN_TYPE) then error == UnexpectedIssuedTokenType
    else
      && raw.scope.Some?
      && if !ER.IsScopeList(raw.scope.value) then error == MalformedTokenResponse
         else !NamesWithin(raw.scope.value, request.scopes) && error == BroadenedScopes
  }

  lemma SuccessExactly(request: ER.Request, raw: RawToken, token: AccessToken, error: ExchangeError)
    ensures ValidateSuccess(request, Some(raw)) == Ok(token) <==> Yields(request, raw, token)
    ensures ValidateSuccess(request, Some(raw)) == Err(error) <==> Refuses(request, raw, error)
  {
  }

  /** Including the fallback, which joins the requested scopes: splitting it gives exactly those back. */
  lemma GrantedScopesWithin(requested: seq<string>, granted: Option<string>, scope: Option<string>)
    requires ER.ValidScopes(requested) && ScopeFor(requested, granted, scope)
    ensures scope.Some? ==> NamesWithin(scope.value, requested)
    ensures scope.Some? && granted.None? ==> Split(scope.value, ' ') == requested
    ensures scope.None? ==> requested == [] && granted.None?
  {
    if granted.None? && requested != [] {
      ER.JoinedScopesSplit(requested);
    }
  }

  // ----- The retry loop -----

  /**
   * Everything outside the client during one attempt: the server's reply, whether signing succeeds,
   * and what other holders of the nonce store write before the read and before the write.
   */
  datatype Round = Round(reply: Reply, signs: bool, beforeRead: seq<Write>, beforeWrite: seq<Write>)

  datatype World = World(first: Round, second: Round)
  {
    function At(attempt: nat): Round { if attempt == 0 then first else second }
  }

  /** What one exchange did: its result, the nonce of each proof it sent, and the store it left. */
  datatype Trace = Trace(
    result: Result<AccessToken, ExchangeError>, sent: seq<Option<string>>, store: Store, fellThrough: bool)

  /** The nonce the next proof will carry. */
  function ChooseNonce(retry: Option<string>, s: Store, endpoint: string): Result<Option<string>, ExchangeError>
  {
    if retry.Some? then Ok(retry)
    else if s.available then Ok(Lookup(s.tokenEndpoints, endpoint))
    else Err(Nonce(NonceStateUnavailable))
  }

  function ProofProblem(nonce: Option<string>, signs: bool): Option<ExchangeError>
  {
    if nonce.Some? && !ValidNonce(nonce.value) then Some(Nonce(InvalidNonceHeader))
    else if !signs then Some(ProofConstruction)
    else None
  }

  /** The store after taking note of the reply's nonce, or the error that stops the exchange. */
  function TakeNonce(s: Store, endpoint: string, header: Option<string>): Result<Store, NonceError>
  {
    if header.None? then Ok(s) else SetToken(s, endpoint, header.value)
  }

  /** A reply that ends the exchange, or None when it is a challenge; `header` is the nonce it brought. */
  function Verdict(request: ER.Request, r: Reply, header: Option<string>)
    : (verdict: Option<Result<AccessToken, ExchangeError>>)
    requires r.Reply?
  {
    if r.status == 200 && !r.jsonContentType then Some(Err(UnexpectedResponseContentType))
    else match r.body
      case Unreadable(tooLarge) => Some(Err(if tooLarge then ResponseTooLarge else Http))
      case Readable(oauthError, token) =>
        if r.status == 200 then Some(ValidateSuccess(request, token))
        else if (r.status == 400 || r.status == 401) && oauthError == Some("use_dpop_nonce") && header.Some? then None
        else Some(Err(TokenEndpointRejected(r.status, SafeCode(oauthError))))
  }

  /** One pass through the loop body: the exchange stops, or goes on with the challenge's nonce. */
  datatype Pass =
    | Stop(result: Result<AccessToken, ExchangeError>, sent: seq<Option<string>>, store: Store)
    | Again(header: Option<string>, sent: seq<Option<string>>, store: Store)

  /** Up to the dispatch: the nonce of the proof that is sent, or the error that prevents it. */
  function Prepare(signs: bool, endpoint: string, retry: Option<string>, s1: Store)
    : (nonce: Result<Option<string>, ExchangeError>)
  {
    match ChooseNonce(retry, s1, endpoint)
    case Err(e) => Err(e)
    case Ok(nonce) =>
      var problem := ProofProblem(nonce, signs);
      if problem.Some? then Err(problem.value) else Ok(nonce)
  }

  /** From the reply on, after having sent a proof with this nonce. */
  function Handle(
    round: Round, request: ER.Request, endpoint: string, last: bool, nonce: Option<string>, s1: Store): (pass: Pass)
  {
    if round.reply.TransportFailure? then Stop(Err(Http), [nonce], s1)
    else
      match StrictNonceHeader(round.reply.nonceHeaders)
      case Err(e) => Stop(Err(Nonce(e)), [nonce], s1)
      case Ok(header) =>
        var s2 := ApplyAll(s1, round.beforeWrite);
        match TakeNonce(s2, endpoint, header)
        case Err(e) => Stop(Err(Nonce(e)), [nonce], s2)
        case Ok(s3) =>
          match Verdict(request, round.reply, header)
          case Some(result) => Stop(result, [nonce], s3)
          case None =>
            if last then Stop(Err(Nonce(NonceRetryLimitReached)), [nonce], s3) else Again(header, [nonce], s3)
  }

  function OnePass(round: Round, request: ER.Request, endpoint: string, last: bool, retry: Option<string>, s: Store)
    : (pass: Pass)
  {
    var s1 := ApplyAll(s, round.beforeRead);
    match Prepare(round.signs, endpoint, retry, s1)
    case Err(e) => Stop(Err(e), [], s1)
    case Ok(nonce) => Handle(round, request, endpoint, last, nonce, s1)
  }

  /** The loop; running off its end is marked. */
  function RunFrom(
    w: World, request: ER.Request, endpoint: string, attempt: nat, retry: Option<string>, s: Store,
    sent: seq<Option<string>>)
    : (trace: Trace)
    decreases 2 - attempt
  {
    if attempt >= 2 then Trace(Err(Nonce(NonceRetryLimitReached)), sent, s, true)
    else
      match OnePass(w.At(attempt), request, endpoint, attempt == 1, retry, s)
      case Stop(result, more, s') => Trace(result, sent + more, s', false)
      case Again(header, more, s') => RunFrom(w, request, endpoint, attempt + 1, header, s', sent + more)
  }

  function Run(w: World, request: ER.Request, endpoint: string, s: Store): Trace
  {
    RunFrom(w, request, endpoint, 0, None, s, [])
  }

  /** The body of the source's loop over the shared store object. */
  method OnePassInPlace(
    round: Round, request: ER.Request, endpoint: string, last: bool, retry: Option<string>, nonces: NonceState)
    returns (pass: Pass)
    modifies nonces
    ensures pass == OnePass(round, request, endpoint, last, retry, old(nonces.Contents()))
    ensures pass.store == nonces.Contents()
  {
    nonces.Interfere(round.beforeRead);
    var nonce := retry;
    if retry.None? {
      var read := nonces.TokenEndpointNonce(endpoint);
      if read.Err? {
        return Stop(Err(Nonce(read.error)), [], nonces.Contents());
      }
      nonce := read.value;
    }
    var problem := ProofProblem(nonce, round.signs);
    if problem.Some? {
      return Stop(Err(problem.value), [], nonces.Contents());
    }
    var sent := [nonce];
    if round.reply.TransportFailure? {
      return Stop(Err(Http), sent, nonces.Contents());
    }
    var header := StrictNonceHeader(round.reply.nonceHeaders);
    if header.Err? {
      return Stop(Err(Nonce(header.error)), sent, nonces.Contents());
    }
    nonces.Interfere(round.beforeWrite);
    if header.value.Some? {
      var error := nonces.SetTokenEndpointNonce(endpoint, header.value.value);
      if error.Some? {
        return Stop(Err(Nonce(error.value)), sent, nonces.Contents());
      }
    }
    var verdict := Verdict(request, round.reply, header.value);
    if verdict.Some? {
      return Stop(verdict.value, sent, nonces.Contents());
    }
    if last {
      return Stop(Err(Nonce(NonceRetryLimitReached)), sent, nonces.Contents());
    }
    pass := Again(header.value, sent, nonces.Contents());
  }

  /** The bounded loop; the return after it cannot be reached. */
  method Exchange(w: World, request: ER.Request, endpoint: string, nonces: NonceState)
    returns (result: Result<AccessToken, ExchangeError>, sent: seq<Option<string>>)
    modifies nonces
    ensures Run(w, request, endpoint, old(nonces.Contents())) == Trace(result, sent, nonces.Contents(), false)
  {
    sent := [];
    var retry: Option<string> := None;
    for attempt := 0 to 2
      invariant attempt < 2
      invariant RunFrom(w, request, endpoint, attempt, retry, nonces.Contents(), sent)
             == Run(w, request, endpoint, old(nonces.Contents()))
    {
      var pass := OnePassInPlace(w.At(attempt), request, endpoint, attempt == 1, retry, nonces);
      sent := sent + pass.sent;
      if pass.Stop? {
        return pass.result, sent;
      }
      retry := pass.header;
    }
    assert false;
    result := Err(Nonce(NonceRetryLimitReached));
  }

  // ----- One pass, specified -----

  /** A reply asking for another proof with the nonce it brings. */
  predicate Challenges(r: Reply)
  {
    && r.Reply? && r.status in {400, 401} && OneNonce(r.nonceHeaders)
    && r.body.Readable? && r.body.oauthError == Some("use_dpop_nonce")
  }

  /** A reply whose nonce header is absent or one valid value. */
  predicate InOrder(r: Reply) { r.Reply? && (r.nonceHeaders == [] || OneNonce(r.nonceHeaders)) }

  function NonceFor(endpoint: string, retry: Option<string>, s1: Store): (nonce: Option<string>)
  {
    if retry.Some? then retry else Lookup(s1.tokenEndpoints, endpoint)
  }

  /** Nothing keeps a request back: the store answers if it is asked, the nonce is sound and signing works. */
  predicate CanSend(signs: bool, endpoint: string, retry: Option<string>, s1: Store)
  {
    && signs && (retry.None? ==> s1.available)
    && (NonceFor(endpoint, retry, s1).Some? ==> ValidNonce(NonceFor(endpoint, retry, s1).value))
  }

  lemma PrepareExactly(signs: bool, endpoint: string, retry: Option<string>, s1: Store)
    ensures var r := Prepare(signs, endpoint, retry, s1);
      && (r.Ok? <==> CanSend(signs, endpoint, retry, s1))
      && (r.Ok? ==> r.value == NonceFor(endpoint, retry, s1))
      && (r.Err? ==> KeptBack(signs, endpoint, retry, s1, r.error))
  {
  }

  /** Why no request was sent. */
  predicate KeptBack(signs: bool, endpoint: string, retry: Option<string>, s1: Store, error: ExchangeError)
  {
    var nonce := NonceFor(endpoint, retry, s1);
    if retry.None? && !s1.available then error == Nonce(NonceStateUnavailable)
    else if nonce.Some? && !ValidNonce(nonce.value) then error == Nonce(InvalidNonceHeader)
    else !signs && error == ProofConstruction
  }

  /** The reply's nonce header is in order, and if it brings a nonce there is a place for it. */
  ghost predicate Noted(round: Round, endpoint: string, s1: Store)
  {
    && InOrder(round.reply)
    && (round.reply.nonceHeaders != [] ==> TakesToken(ApplyAll(s1, round.beforeWrite), endpoint))
  }

  /** What a reply must be, and the store must allow, for the exchange to go on. */
  ghost predicate GoesOn(round: Round, endpoint: string, s1: Store)
  {
    Challenges(round.reply) && TakesToken(ApplyAll(s1, round.beforeWrite), endpoint)
  }

  /** The store after a request was answered. */
  ghost function Left(round: Round, endpoint: string, s1: Store): (s: Store)
  {
    var s2 := ApplyAll(s1, round.beforeWrite);
    if !InOrder(round.reply) then s1
    else if round.reply.nonceHeaders == [] || !TakesToken(s2, endpoint) then s2
    else s2.(tokenEndpoints := s2.tokenEndpoints[endpoint := round.reply.nonceHeaders[0].value])
  }

  predicate Answers(request: ER.Request, reply: Reply, token: AccessToken)
  {
    && reply.Reply? && reply.status == 200 && reply.jsonContentType
    && reply.body.Readable? && reply.body.token.Some? && Yields(request, reply.body.token.value, token)
  }

  /** A reply that is no answer, and what the caller is told: no text chosen by the server. */
  predicate Rejects(request: ER.Request, reply: Reply, error: ExchangeError)
    requires reply.Reply?
  {
    if reply.status == 200 && !reply.jsonContentType then error == UnexpectedResponseContentType
    else if reply.body.Unreadable? then error == if reply.body.tooLarge then ResponseTooLarge else Http
    else if reply.status != 200 then
      var code := reply.body.oauthError;
      error == TokenEndpointRejected(
        reply.status, if code.Some? && code.value in SAFE_CODES then code.value else "token_endpoint_error")
    else if reply.body.token.None? then error == MalformedTokenResponse
    else Refuses(request, reply.body.token.value, error)
  }

  lemma VerdictExactly(request: ER.Request, reply: Reply, token: AccessToken, error: ExchangeError)
    requires InOrder(reply)
    ensures var verdict := Verdict(request, reply, StrictNonceHeader(reply.nonceHeaders).value);
      && (verdict.None? <==> Challenges(reply))
      && (verdict == Some(Ok(token)) <==> Answers(request, reply, token))
      && (verdict == Some(Err(error)) <==> !Challenges(reply) && Rejects(request, reply, error))
  {
    if reply.body.Readable? && reply.body.token.Some? {
      SuccessExactly(request, reply.body.token.value, token, error);
    }
  }

  /** What goes wrong once a request has been sent, in the order in which it is noticed. */
  ghost predicate HandleFails(
    round: Round, request: ER.Request, endpoint: string, last: bool, s1: Store, error: ExchangeError)
  {
    if round.reply.TransportFailure? then error == Http
    else if !InOrder(round.reply) then error == Nonce(InvalidNonceHeader)
    else if !Noted(round, endpoint, s1) then
      error == Nonce(if ApplyAll(s1, round.beforeWrite).available then TokenEndpointNonceCapacityExceeded
                     else NonceStateUnavailable)
    else if Challenges(round.reply) then last && error == Nonce(NonceRetryLimitReached)
    else Rejects(request, round.reply, error)
  }

  lemma TakeExactly(s: Store, endpoint: string, header: Option<string>)
    ensures var r := TakeNonce(s, endpoint, header);
      && (r.Ok? <==> header.None? || TakesToken(s, endpoint))
      && (r.Ok? ==>
            r.value == if header.None? then s else s.(tokenEndpoints := s.tokenEndpoints[endpoint := header.value]))
      && (r.Err? ==> r.error == if s.available then TokenEndpointNonceCapacityExceeded else NonceStateUnavailable)
  {
  }

  lemma HandleExactly(
    round: Round, request: ER.Request, endpoint: string, last: bool, nonce: Option<string>, s1: Store,
    token: AccessToken, error: ExchangeError)
    ensures var pass := Handle(round, request, endpoint, last, nonce, s1);
      && pass.sent == [nonce] && pass.store == Left(round, endpoint, s1)
      && (pass.Again? <==> !last && GoesOn(round, endpoint, s1))
      && (pass.Again? ==> round.reply.nonceHeaders == [pass.header])
      && (pass.Stop? && pass.result == Ok(token) <==>
            Noted(round, endpoint, s1) && Answers(request, round.reply, token))
      && (pass.Stop? && pass.result == Err(error) <==> HandleFails(round, request, endpoint, last, s1, error))
  {
    if InOrder(round.reply) {
      var header := StrictNonceHeader(round.reply.nonceHeaders).value;
      TakeExactly(ApplyAll(s1, round.beforeWrite), endpoint, header);
      VerdictExactly(request, round.reply, token, error);
    }
  }

  /** One pass ends with this token. */
  ghost predicate Delivers(
    round: Round, request: ER.Request, endpoint: string, retry: Option<string>, s: Store, token: AccessToken)
  {
    var s1 := ApplyAll(s, round.beforeRead);
    && CanSend(round.signs, endpoint, retry, s1) && Noted(round, endpoint, s1)
    && Answers(request, round.reply, token)
  }

  /** One pass ends with this error. */
  ghost predicate Fails(
    round: Round, request: ER.Request, endpoint: string, last: bool, retry: Option<string>, s: Store,
    error: ExchangeError)
  {
    var s1 := ApplyAll(s, round.beforeRead);
    if CanSend(round.signs, endpoint, retry, s1) then HandleFails(round, request, endpoint, last, s1, error)
    else KeptBack(round.signs, endpoint, retry, s1, error)
  }

  /** One pass is challenged, and the nonce has a place. */
  ghost predicate Continues(round: Round, endpoint: string, retry: Option<string>, s: Store)
  {
    var s1 := ApplyAll(s, round.beforeRead);
    CanSend(round.signs, endpoint, retry, s1) && GoesOn(round, endpoint, s1)
  }

  /** The store one pass leaves. */
  ghost function Leaves(round: Round, endpoint: string, retry: Option<string>, s: Store): (s': Store)
  {
    var s1 := ApplyAll(s, round.beforeRead);
    if CanSend(round.signs, endpoint, retry, s1) then Left(round, endpoint, s1) else s1
  }

  lemma PassExactly(
    round: Round, request: ER.Request, endpoint: string, last: bool, retry: Option<string>, s: Store,
    token: AccessToken, error: ExchangeError)
    ensures var pass := OnePass(round, request, endpoint, last, retry, s);
      var s1 := ApplyAll(s, round.beforeRead);
      && pass.sent == (if CanSend(round.signs, endpoint, retry, s1) then [NonceFor(endpoint, retry, s1)] else [])
      && pass.store == Leaves(round, endpoint, retry, s)
      && (pass.Again? <==> !last && Continues(round, endpoint, retry, s))
      && (pass.Again? ==> round.reply.nonceHeaders == [pass.header])
      && (pass.Stop? && pass.result == Ok(token) <==> Delivers(round, request, endpoint, retry, s, token))
      && (pass.Stop? && pass.result == Err(error) <==> Fails(round, request, endpoint, last, retry, s, error))
  {
    var s1 := ApplyAll(s, round.beforeRead);
    PrepareExactly(round.signs, endpoint, retry, s1);
    var nonce := Prepare(round.signs, endpoint, retry, s1);
    if nonce.Ok? {
      HandleExactly(round, request, endpoint, last, nonce.value, s1, token, error);
    } else {
      OneReason(round.signs, endpoint, retry, s1, nonce.error, error);
    }
  }

  lemma OneReason(
    signs: bool, endpoint: string, retry: Option<string>, s1: Store, error: ExchangeError, error': ExchangeError)
    requires KeptBack(signs, endpoint, retry, s1, error)
    ensures KeptBack(signs, endpoint, retry, s1, error') <==> error' == error
  {
  }

  // ----- Whole exchanges -----

  /** A run is its first pass, followed by its second if the first was challenged. */
  lemma RunUnfolds(w: World, request: ER.Request, endpoint: string, s: Store)
    ensures var p0 := OnePass(w.first, request, endpoint, false, None, s);
      Run(w, request, endpoint, s) ==
        if p0.Stop? then Trace(p0.result, p0.sent, p0.store, false)
        else
          var p1 := OnePass(w.second, request, endpoint, true, p0.header, p0.store);
          if p1.Stop? then Trace(p1.result, p0.sent + p1.sent, p1.store, false)
          else RunFrom(w, request, endpoint, 2, p1.header, p1.store, p0.sent + p1.sent)
  {
    var p0 := OnePass(w.first, request, endpoint, false, None, s);
    assert w.At(0) == w.first && w.At(1) == w.second;
    assert [] + p0.sent == p0.sent;
    assert Run(w, request, endpoint, s) == RunFrom(w, request, endpoint, 0, None, s, []);
  }

  /** The first pass of this exchange is challenged. */
  ghost predicate Retries(w: World, endpoint: string, s: Store) { Continues(w.first, endpoint, None, s) }

  /** What the second pass starts from: the challenge's nonce and the store the first left. */
  ghost function Second(w: World, endpoint: string, s: Store): (start: (Option<string>, Store))
    requires Retries(w, endpoint, s)
  {
    (w.first.reply.nonceHeaders[0], Leaves(w.first, endpoint, None, s))
  }

  /**
   * An exchange against any server, any store and any concurrent writers, as its passes are specified.
   * A token or an error comes from the first pass, or from the second when the first was challenged;
   * the store is what the last pass left; and the return after the loop is unreachable.
   */
  lemma ExchangeExactly(
    w: World, request: ER.Request, endpoint: string, s: Store, token: AccessToken, error: ExchangeError)
    ensures var t := Run(w, request, endpoint, s);
      if Retries(w, endpoint, s) then
        var (retry, s') := Second(w, endpoint, s);
        && (t.result == Ok(token) <==> Delivers(w.second, request, endpoint, retry, s', token))
        && (t.result == Err(error) <==> Fails(w.second, request, endpoint, true, retry, s', error))
        && t.store == Leaves(w.second, endpoint, retry, s') && !t.fellThrough
      else
        && (t.result == Ok(token) <==> Delivers(w.first, request, endpoint, None, s, token))
        && (t.result == Err(error) <==> Fails(w.first, request, endpoint, false, None, s, error))
        && t.store == Leaves(w.first, endpoint, None, s) && !t.fellThrough
  {
    RunUnfolds(w, request, endpoint, s);
    var p0 := OnePass(w.first, request, endpoint, false, None, s);
    PassExactly(w.first, request, endpoint, false, None, s, token, error);
    if p0.Again? {
      PassExactly(w.second, request, endpoint, true, p0.header, p0.store, token, error);
    }
  }

  /** Which requests are sent, and with which nonces. */
  lemma SentExactly(w: World, request: ER.Request, endpoint: string, s: Store)
    ensures var s1 := ApplyAll(s, w.first.beforeRead);
      Run(w, request, endpoint, s).sent ==
        if !CanSend(w.first.signs, endpoint, None, s1) then []
        else [Lookup(s1.tokenEndpoints, endpoint)] +
             if GoesOn(w.first, endpoint, s1) && w.second.signs then w.first.reply.nonceHeaders else []
  {
    RunUnfolds(w, request, endpoint, s);
    var s1 := ApplyAll(s, w.first.beforeRead);
    var p0 := OnePass(w.first, request, endpoint, false, None, s);
    var any := AccessToken("", None, None);
    PassExactly(w.first, request, endpoint, false, None, s, any, Http);
    if p0.Again? {
      PassExactly(w.second, request, endpoint, true, p0.header, p0.store, any, Http);
    } else {
      assert [Lookup(s1.tokenEndpoints, endpoint)] + [] == [Lookup(s1.tokenEndpoints, endpoint)];
    }
  }

  /** A second request is sent exactly when the first was challenged with a nonce that had a place. */
  lemma SecondRequestExactly(w: World, request: ER.Request, endpoint: string, s: Store)
    ensures |Run(w, request, endpoint, s).sent| == 2 <==> Retries(w, endpoint, s) && w.second.signs
  {
    SentExactly(w, request, endpoint, s);
  }

  /** On a new store a challenged first request is followed by a second, without and then with the nonce. */
  lemma FreshStoreRetries(w: World, request: ER.Request, endpoint: string, resourceCapacity: nat)
    requires w.first.beforeRead == [] && w.first.beforeWrite == [] && w.first.signs && w.second.signs
    requires Challenges(w.first.reply)
    ensures Run(w, request, endpoint, NewStore(resourceCapacity)).sent == [None] + w.first.reply.nonceHeaders
  {
    SentExactly(w, request, endpoint, NewStore(resourceCapacity));
  }

  /** At most two requests; the first carries the stored nonce, a second exactly the challenge's. */
  ghost predicate SentAsPromised(w: World, endpoint: string, s: Store, sent: seq<Option<string>>)
  {
    && |sent| <= 2
    && (|sent| >= 1 ==> sent[0] == Lookup(ApplyAll(s, w.first.beforeRead).tokenEndpoints, endpoint))
    && (|sent| == 2 ==> Challenges(w.first.reply) && w.first.reply.nonceHeaders == [sent[1]])
  }

  /** The retry-limit error means two requests and two challenges. */
  lemma ExchangeProtocol(w: World, request: ER.Request, endpoint: string, s: Store)
    ensures var t := Run(w, request, endpoint, s);
      && SentAsPromised(w, endpoint, s, t.sent)
      && (t.result == Err(Nonce(NonceRetryLimitReached)) ==>
            |t.sent| == 2 && Challenges(w.first.reply) && Challenges(w.second.reply))
  {
    SentExactly(w, request, endpoint, s);
    ExchangeExactly(w, request, endpoint, s, AccessToken("", None, None), Nonce(NonceRetryLimitReached));
  }

  /** The reply to the last request sent. */
  function LastReply(w: World, sent: seq<Option<string>>): Reply
    requires 1 <= |sent| <= 2
  {
    if |sent| == 1 then w.first.reply else w.second.reply
  }

  /** A token is returned exactly when the last request sent is answered with it and the reply's nonce is noted. */
  lemma TokenExactly(w: World, request: ER.Request, endpoint: string, s: Store, token: AccessToken)
    ensures Run(w, request, endpoint, s).result == Ok(token) <==>
      if Retries(w, endpoint, s)
      then Delivers(w.second, request, endpoint, Second(w, endpoint, s).0, Second(w, endpoint, s).1, token)
      else Delivers(w.first, request, endpoint, None, s, token)
  {
    ExchangeExactly(w, request, endpoint, s, token, Http);
  }

  /** A returned token is the content of a 200 JSON reply to the last request sent. */
  lemma ResultTells(w: World, request: ER.Request, endpoint: string, s: Store)
    ensures var t := Run(w, request, endpoint, s);
      t.result.Ok? ==> 1 <= |t.sent| <= 2 && Answers(request, LastReply(w, t.sent), t.result.value)
  {
    SentExactly(w, request, endpoint, s);
    var result := Run(w, request, endpoint, s).result;
    if result.Ok? { ExchangeExactly(w, request, endpoint, s, result.value, Http); }
  }

  /** Any token an exchange returns has, split at spaces, a subset of the requested scopes. */
  lemma ExchangedScopesWithin(w: World, request: ER.Request, endpoint: string, s: Store)
    requires ER.Valid(request) && Run(w, request, endpoint, s).result.Ok?
    ensures var scope := Run(w, request, endpoint, s).result.value.scope;
      if scope.Some? then NamesWithin(scope.value, request.scopes) else request.scopes == []
  {
    ResultTells(w, request, endpoint, s);
    var t := Run(w, request, endpoint, s);
    GrantedScopesWithin(request.scopes, LastReply(w, t.sent).body.token.value.scope, t.result.value.scope);
  }

  /** The last request sent, with the retry nonce and the store of its pass. */
  ghost predicate EndsWith(w: World, endpoint: string, s: Store, round: Round, retry: Option<string>, s': Store)
  {
    if Retries(w, endpoint, s) then round == w.second && (retry, s') == Second(w, endpoint, s)
    else round == w.first && retry == None && s' == s
  }

  /** An error comes from the pass that the exchange ended with. */
  lemma ErrorFrom(w: World, request: ER.Request, endpoint: string, s: Store)
    returns (round: Round, retry: Option<string>, s': Store)
    requires Run(w, request, endpoint, s).result.Err?
    ensures EndsWith(w, endpoint, s, round, retry, s')
    ensures Fails(round, request, endpoint, Retries(w, endpoint, s), retry, s',
                  Run(w, request, endpoint, s).result.error)
  {
    ExchangeExactly(w, request, endpoint, s, AccessToken("", None, None), Run(w, request, endpoint, s).result.error);
    if Retries(w, endpoint, s) {
      var (nonce, left) := Second(w, endpoint, s);
      round, retry, s' := w.second, nonce, left;
    } else {
      round, retry, s' := w.first, None, s;
    }
  }

  /** If the pass it ended with sent its request, the reply to the last request is that pass's. */
  lemma LastIsLast(
    w: World, request: ER.Request, endpoint: string, s: Store, round: Round, retry: Option<string>, s': Store)
    requires EndsWith(w, endpoint, s, round, retry, s')
    requires CanSend(round.signs, endpoint, retry, ApplyAll(s', round.beforeRead))
    ensures var sent := Run(w, request, endpoint, s).sent; 1 <= |sent| <= 2 && LastReply(w, sent) == round.reply
  {
    SentExactly(w, request, endpoint, s);
  }

  /** An error that names a code of the server names one from the fixed list, and the status of the last reply. */
  lemma ErrorTells(w: World, request: ER.Request, endpoint: string, s: Store)
    ensures var t := Run(w, request, endpoint, s);
      t.result.Err? && t.result.error.TokenEndpointRejected? ==>
        && 1 <= |t.sent| <= 2 && LastReply(w, t.sent).Reply?
        && t.result.error.status == LastReply(w, t.sent).status != 200
        && (t.result.error.code in SAFE_CODES || t.result.error.code == "token_endpoint_error")
  {
    var result := Run(w, request, endpoint, s).result;
    if result.Err? && result.error.TokenEndpointRejected? {
      var round, retry, s' := ErrorFrom(w, request, endpoint, s);
      LastIsLast(w, request, endpoint, s, round, retry, s');
    }
  }

  lemma RejectionIsNoNonceError(request: ER.Request, reply: Reply, error: ExchangeError)
    requires reply.Reply? && Rejects(request, reply, error)
    ensures !error.Nonce?
  {
  }

  lemma PassAcceptsNonce(
    round: Round, request: ER.Request, endpoint: string, last: bool, retry: Option<string>, s: Store)
    requires Valid(s) && (retry.Some? ==> ValidNonce(retry.value))
    requires Fails(round, request, endpoint, last, retry, s, Nonce(InvalidNonceHeader))
    ensures CanSend(round.signs, endpoint, retry, ApplyAll(s, round.beforeRead))
    ensures round.reply.Reply? && !InOrder(round.reply)
  {
    RunsKeepValid(s, round.beforeRead);
    if round.reply.Reply? && Rejects(request, round.reply, Nonce(InvalidNonceHeader)) {
      RejectionIsNoNonceError(request, round.reply, Nonce(InvalidNonceHeader));
    }
  }

  /**
   * Stored and retried nonces are always acceptable to proof construction: the invalid-nonce error is
   * about the reply to the last request that was sent.
   */
  lemma ProofNeverRejectsNonce(w: World, request: ER.Request, endpoint: string, s: Store)
    requires Valid(s)
    ensures var t := Run(w, request, endpoint, s);
      t.result == Err(Nonce(InvalidNonceHeader)) ==>
        1 <= |t.sent| <= 2 && LastReply(w, t.sent).Reply? && !InOrder(LastReply(w, t.sent))
  {
    if Run(w, request, endpoint, s).result == Err(Nonce(InvalidNonceHeader)) {
      var round, retry, s' := ErrorFrom(w, request, endpoint, s);
      PassKeepsStore(w.first, endpoint, None, s);
      PassAcceptsNonce(round, request, endpoint, Retries(w, endpoint, s), retry, s');
      LastIsLast(w, request, endpoint, s, round, retry, s');
    }
  }

  lemma LeftIsValid(round: Round, endpoint: string, s1: Store)
    requires Valid(s1)
    ensures Valid(Left(round, endpoint, s1))
  {
    RunsKeepValid(s1, round.beforeWrite);
    if Noted(round, endpoint, s1) && OneNonce(round.reply.nonceHeaders) {
      var s2, nonce := ApplyAll(s1, round.beforeWrite), round.reply.nonceHeaders[0].value;
      SetKeepsValid(s2, endpoint, ResourceKey("", ""), nonce);
      SetExactly(s2, endpoint, ResourceKey("", ""), nonce);
    }
  }

  lemma PassKeepsStore(round: Round, endpoint: string, retry: Option<string>, s: Store)
    requires Valid(s)
    ensures Valid(Leaves(round, endpoint, retry, s))
  {
    RunsKeepValid(s, round.beforeRead);
    LeftIsValid(round, endpoint, ApplyAll(s, round.beforeRead));
  }

  /** An exchange leaves the store bounded and valid, whatever else was noted in it meanwhile. */
  lemma ExchangeKeepsStore(w: World, request: ER.Request, endpoint: string, s: Store)
    requires Valid(s)
    ensures Valid(Run(w, request, endpoint, s).store)
  {
    ExchangeExactly(w, request, endpoint, s, AccessToken("", None, None), Http);
    PassKeepsStore(w.first, endpoint, None, s);
    if Retries(w, endpoint, s) {
      var (retry, s') := Second(w, endpoint, s);
      PassKeepsStore(w.second, endpoint, retry, s');
    }
  }

  /** The nonce that came with a token is the one the next exchange with this endpoint starts with. */
  lemma NextExchangeCarries(
    w: World, w': World, request: ER.Request, request': ER.Request, endpoint: string, s: Store)
    requires Run(w, request, endpoint, s).result.Ok?
    requires w'.first.signs && w'.first.beforeRead == []
    ensures var t := Run(w, request, endpoint, s);
      && 1 <= |t.sent| <= 2 && LastReply(w, t.sent).Reply?
      && (LastReply(w, t.sent).nonceHeaders != [] ==>
            var sent := Run(w', request', endpoint, t.store).sent;
            sent != [] && LastReply(w, t.sent).nonceHeaders == [sent[0]])
  {
    ResultTells(w, request, endpoint, s);
    var t := Run(w, request, endpoint, s);
    ExchangeExactly(w, request, endpoint, s, t.result.value, Http);
    SentExactly(w, request, endpoint, s);
    SentExactly(w', request', endpoint, t.store);
  }

  /** An acceptable token is lost when its reply brings a nonce that a full namespace cannot store. */
  lemma FullNamespaceLosesToken(w: World, request: ER.Request, endpoint: string, s: Store, token: AccessToken)
    requires Answers(request, w.first.reply, token) && OneNonce(w.first.reply.nonceHeaders)
    requires CanSend(w.first.signs, endpoint, None, ApplyAll(s, w.first.beforeRead))
    requires var s2 := ApplyAll(ApplyAll(s, w.first.beforeRead), w.first.beforeWrite);
      s2.available && endpoint !in s2.tokenEndpoints && |s2.tokenEndpoints| >= s2.tokenEndpointCapacity
    ensures Run(w, request, endpoint, s).result == Err(Nonce(TokenEndpointNonceCapacityExceeded))
  {
    ExchangeExactly(w, request, endpoint, s, token, Nonce(TokenEndpointNonceCapacityExceeded));
  }
}

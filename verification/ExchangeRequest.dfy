/** RFC 8693 token-exchange requests: builders, limits, and the form they are sent as. */
module ExchangeRequest {
  import opened Text
  import Utf8
  import Sorting
  import opened FormEncoding

  const MAX_CREDENTIAL_BYTES := 64 * 1024
  const MAX_FIELD_BYTES := 2048
  const MAX_REQUEST_ITEMS := 64
  const RFC8693_GRANT_TYPE := "urn:ietf:params:oauth:grant-type:token-exchange"
  const RFC8693_ACCESS_TOKEN_TYPE := "urn:ietf:params:oauth:token-type:access_token"

  predicate HasControl(s: string) { exists i :: 0 <= i < |s| && IsControl(s[i]) }

  // ----- Field validators -----

  predicate IsRequiredField(value: string)
  {
    Trim(value) != "" && Utf8.Len(value) <= MAX_FIELD_BYTES && !HasControl(value)
  }

  predicate IsCredential(value: string)
  {
    value != "" && Utf8.Len(value) <= MAX_CREDENTIAL_BYTES && Trim(value) == value && !HasControl(value)
  }

  predicate IsScopeChar(c: char) { c == '!' || '#' <= c <= '[' || ']' <= c <= '~' }

  predicate IsScopeToken(value: string)
  {
    value != "" && Utf8.Len(value) <= MAX_FIELD_BYTES && forall i :: 0 <= i < |value| ==> IsScopeChar(value[i])
  }

  predicate IsScopeList(value: string)
  {
    value != "" && forall i :: 0 <= i < |Split(value, ' ')| ==> IsScopeToken(Split(value, ' ')[i])
  }

  predicate NoControl(value: string) { forall i :: 0 <= i < |value| ==> !IsControl(value[i]) }

  lemma RequiredFieldExactly(value: string)
    ensures IsRequiredField(value) <==> !AllSpace(value) && |Utf8.Encode(value)| <= 2048 && NoControl(value)
  {
    TrimFacts(value);
    Utf8.LenIsEncodedLength(value);
  }

  lemma CredentialExactly(value: string)
    ensures IsCredential(value) <==>
      && value != "" && !IsWhitespace(value[0]) && !IsWhitespace(value[|value| - 1])
      && |Utf8.Encode(value)| <= 65536 && NoControl(value)
  {
    TrimmedExactly(value);
    Utf8.LenIsEncodedLength(value);
  }

  /** Scope tokens are visible ASCII other than quote and backslash (section 3.3 of RFC 6749). */
  lemma ScopeTokenExactly(value: string)
    ensures IsScopeToken(value) <==>
      && value != "" && |Utf8.Encode(value)| <= 2048
      && forall i :: 0 <= i < |value| ==> 0x21 <= value[i] as int <= 0x7E && value[i] != '"' && value[i] != '\\'
  {
    Utf8.LenIsEncodedLength(value);
  }

  // ----- Requests and their builders -----

  datatype Request = Request(subjectToken: string, resources: seq<string>, audiences: seq<string>, scopes: seq<string>)

  datatype BuildError = InvalidField(field: string)

  /** What every request that the builders hand out satisfies. */
  predicate Valid(r: Request)
  {
    && IsCredential(r.subjectToken)
    && |r.resources| <= MAX_REQUEST_ITEMS && (forall i :: 0 <= i < |r.resources| ==> IsRequiredField(r.resources[i]))
    && |r.audiences| <= MAX_REQUEST_ITEMS && (forall i :: 0 <= i < |r.audiences| ==> IsRequiredField(r.audiences[i]))
    && ValidScopes(r.scopes)
  }

  predicate ValidScopes(scopes: seq<string>)
  {
    && |scopes| <= MAX_REQUEST_ITEMS && Sorting.Distinct(scopes)
    && forall i :: 0 <= i < |scopes| ==> IsScopeToken(scopes[i])
  }

  function NewRequest(subjectToken: string): (r: Result<Request, BuildError>)
    ensures r.Ok? ==> Valid(r.value)
    ensures r.Err? ==> r.error == InvalidField("subject_token")
  {
    if IsCredential(subjectToken) then Ok(Request(subjectToken, [], [], [])) else Err(InvalidField("subject_token"))
  }

  /** `indicator` is false when the value does not parse as an absolute URI without fragment or user information. */
  function WithResource(r: Request, resource: string, indicator: bool): (r': Result<Request, BuildError>)
    ensures Valid(r) && r'.Ok? ==> Valid(r'.value)
    ensures r'.Err? ==> r'.error == InvalidField("resource")
  {
    if |r.resources| >= MAX_REQUEST_ITEMS || !IsRequiredField(resource) || !indicator then Err(InvalidField("resource"))
    else Ok(r.(resources := r.resources + [resource]))
  }

  function WithAudience(r: Request, audience: string): (r': Result<Request, BuildError>)
    ensures Valid(r) && r'.Ok? ==> Valid(r'.value)
    ensures r'.Err? ==> r'.error == InvalidField("audience")
  {
    if |r.audiences| >= MAX_REQUEST_ITEMS || !IsRequiredField(audience) then Err(InvalidField("audience"))
    else Ok(r.(audiences := r.audiences + [audience]))
  }

  function WithScopes(r: Request, scopes: seq<string>): (r': Result<Request, BuildError>)
    ensures Valid(r) && r'.Ok? ==> Valid(r'.value)
    ensures r'.Err? ==> r'.error == InvalidField("scopes")
  {
    if ValidScopes(scopes) then Ok(r.(scopes := scopes)) else Err(InvalidField("scopes"))
  }

  /** The source's scan with a set of scopes seen so far accepts exactly the valid scope lists. */
  method CheckScopes(scopes: seq<string>) returns (ok: bool)
    ensures ok <==> ValidScopes(scopes)
  {
    if |scopes| > MAX_REQUEST_ITEMS {
      return false;
    }
    var unique: set<string> := {};
    for k := 0 to |scopes|
      invariant forall i :: 0 <= i < k ==> IsScopeToken(scopes[i])
      invariant forall i, j :: 0 <= i < j < k ==> scopes[i] != scopes[j]
      invariant forall s :: s in unique <==> exists i :: 0 <= i < k && scopes[i] == s
    {
      if !IsScopeToken(scopes[k]) || scopes[k] in unique {
        return false;
      }
      unique := unique + {scopes[k]};
    }
    ok := true;
  }

  datatype BuilderCall =
    | AddResource(resource: string, indicator: bool)
    | AddAudience(audience: string)
    | SetScopes(scopes: seq<string>)

  function Call(r: Request, call: BuilderCall): (r': Result<Request, BuildError>)
    ensures Valid(r) && r'.Ok? ==> Valid(r'.value)
  {
    match call
    case AddResource(x, indicator) => WithResource(r, x, indicator)
    case AddAudience(x) => WithAudience(r, x)
    case SetScopes(xs) => WithScopes(r, xs)
  }

  function Build(r: Result<Request, BuildError>, calls: seq<BuilderCall>): (r': Result<Request, BuildError>)
    decreases |calls|
  {
    if r.Err? || calls == [] then r else Build(Call(r.value, calls[0]), calls[1..])
  }

  /** Whatever sequence of builder calls produced it, a request is within its limits. */
  lemma {:induction false} BuiltIsValid(r: Result<Request, BuildError>, calls: seq<BuilderCall>)
    requires r.Ok? ==> Valid(r.value)
    ensures Build(r, calls).Ok? ==> Valid(Build(r, calls).value)
    decreases |calls|
  {
    if r.Ok? && calls != [] { BuiltIsValid(Call(r.value, calls[0]), calls[1..]); }
  }

  function ResourceOf(call: BuilderCall): seq<string> { if call.AddResource? then [call.resource] else [] }

  function AudienceOf(call: BuilderCall): seq<string> { if call.AddAudience? then [call.audience] else [] }

  function ScopesAfter(call: BuilderCall, scopes: seq<string>): seq<string>
  {
    if call.SetScopes? then call.scopes else scopes
  }

  function ResourcesIn(calls: seq<BuilderCall>): (values: seq<string>)
  {
    if calls == [] then [] else ResourceOf(calls[0]) + ResourcesIn(calls[1..])
  }

  function AudiencesIn(calls: seq<BuilderCall>): (values: seq<string>)
  {
    if calls == [] then [] else AudienceOf(calls[0]) + AudiencesIn(calls[1..])
  }

  /** The scopes set last, or these if none are. */
  function LastScopes(calls: seq<BuilderCall>, scopes: seq<string>): (last: seq<string>)
    decreases |calls|
  {
    if calls == [] then scopes else LastScopes(calls[1..], ScopesAfter(calls[0], scopes))
  }

  predicate CallOk(call: BuilderCall)
  {
    match call
    case AddResource(x, indicator) => IsRequiredField(x) && indicator
    case AddAudience(x) => IsRequiredField(x)
    case SetScopes(xs) => ValidScopes(xs)
  }

  predicate AllOk(calls: seq<BuilderCall>) { calls == [] || (CallOk(calls[0]) && AllOk(calls[1..])) }

  lemma CallExactly(r: Request, call: BuilderCall)
    requires |r.resources| <= MAX_REQUEST_ITEMS && |r.audiences| <= MAX_REQUEST_ITEMS
    ensures var r' := Call(r, call);
      && (r'.Ok? <==>
            && CallOk(call) && |r.resources + ResourceOf(call)| <= MAX_REQUEST_ITEMS
            && |r.audiences + AudienceOf(call)| <= MAX_REQUEST_ITEMS)
      && (r'.Ok? ==>
            r'.value == Request(r.subjectToken, r.resources + ResourceOf(call), r.audiences + AudienceOf(call),
                                ScopesAfter(call, r.scopes)))
  {
    assert r.resources + [] == r.resources && r.audiences + [] == r.audiences;
  }

  lemma {:induction false} BuiltFrom(r: Request, calls: seq<BuilderCall>)
    requires |r.resources| <= MAX_REQUEST_ITEMS && |r.audiences| <= MAX_REQUEST_ITEMS
    ensures Build(Ok(r), calls).Ok? <==>
      && AllOk(calls) && |r.resources| + |ResourcesIn(calls)| <= MAX_REQUEST_ITEMS
      && |r.audiences| + |AudiencesIn(calls)| <= MAX_REQUEST_ITEMS
    ensures Build(Ok(r), calls).Ok? ==>
      Build(Ok(r), calls).value ==
      Request(r.subjectToken, r.resources + ResourcesIn(calls), r.audiences + AudiencesIn(calls),
              LastScopes(calls, r.scopes))
    decreases |calls|
  {
    if calls == [] {
      assert r.resources + [] == r.resources && r.audiences + [] == r.audiences;
    } else {
      var call, rest := calls[0], calls[1..];
      CallExactly(r, call);
      ConcatAssociative(r.resources, ResourceOf(call), ResourcesIn(rest));
      ConcatAssociative(r.audiences, AudienceOf(call), AudiencesIn(rest));
      if Call(r, call).Ok? { BuiltFrom(Call(r, call).value, rest); }
    }
  }

  /**
   * A request is built exactly from acceptable values within the counts, and then holds the subject token,
   * the resources and audiences in the order in which they were added, and the scopes set last.
   */
  lemma BuiltExactly(subject: string, calls: seq<BuilderCall>)
    ensures Build(NewRequest(subject), calls).Ok? <==>
      && IsCredential(subject) && AllOk(calls)
      && |ResourcesIn(calls)| <= MAX_REQUEST_ITEMS && |AudiencesIn(calls)| <= MAX_REQUEST_ITEMS
    ensures Build(NewRequest(subject), calls).Ok? ==>
      Build(NewRequest(subject), calls).value ==
      Request(subject, ResourcesIn(calls), AudiencesIn(calls), LastScopes(calls, []))
  {
    if IsCredential(subject) {
      BuiltFrom(Request(subject, [], [], []), calls);
      assert [] + ResourcesIn(calls) == ResourcesIn(calls) && [] + AudiencesIn(calls) == AudiencesIn(calls);
    }
  }

  // ----- The form -----

  datatype ClientAuthMethod = RequestBody | Basic

  datatype ClientConfig = ClientConfig(clientId: string, clientSecret: Option<string>, authMethod: ClientAuthMethod)

  predicate ValidConfig(c: ClientConfig)
  {
    IsRequiredField(c.clientId) && (c.clientSecret.Some? ==> IsCredential(c.clientSecret.value))
  }

  datatype Pair = Pair(name: string, value: string)

  /** The pairs as the serializer sees them: UTF-8 bytes. */
  function ToBytes(pairs: seq<Pair>): (fields: seq<Field>)
    ensures |fields| == |pairs|
  {
    if pairs == [] then []
    else
      var last := pairs[|pairs| - 1];
      ToBytes(pairs[..|pairs| - 1]) + [Field(Utf8.Encode(last.name), Utf8.Encode(last.value))]
  }

  lemma SameLastField(fs: seq<Field>, gs: seq<Field>, x: Pair, y: Pair)
    requires fs + [Field(Utf8.Encode(x.name), Utf8.Encode(x.value))]
          == gs + [Field(Utf8.Encode(y.name), Utf8.Encode(y.value))]
    ensures fs == gs && x == y
  {
    var f, g := Field(Utf8.Encode(x.name), Utf8.Encode(x.value)), Field(Utf8.Encode(y.name), Utf8.Encode(y.value));
    assert (fs + [f])[|fs|] == f && (gs + [g])[|gs|] == g;
    assert (fs + [f])[..|fs|] == fs && (gs + [g])[..|gs|] == gs;
    Utf8.EncodeInjective(x.name, y.name);
    Utf8.EncodeInjective(x.value, y.value);
  }

  lemma {:induction false} ToBytesInjective(xs: seq<Pair>, ys: seq<Pair>)
    requires ToBytes(xs) == ToBytes(ys)
    ensures xs == ys
  {
    if xs != [] {
      var n := |xs| - 1;
      SameLastField(ToBytes(xs[..n]), ToBytes(ys[..n]), xs[n], ys[n]);
      ToBytesInjective(xs[..n], ys[..n]);
      assert xs == xs[..n] + [xs[n]] && ys == ys[..n] + [ys[n]];
    }
  }

  function EncodePairs(pairs: seq<Pair>): seq<Utf8.byte> { EncodeForm(ToBytes(pairs)) }

  function Repeated(name: string, values: seq<string>): (pairs: seq<Pair>)
    ensures |pairs| == |values|
  {
    if values == [] then [] else Repeated(name, values[..|values| - 1]) + [Pair(name, values[|values| - 1])]
  }

  function FixedFields(r: Request, grantType: string, tokenType: string): seq<Pair>
  {
    [Pair("grant_type", grantType), Pair("subject_token", r.subjectToken),
     Pair("subject_token_type", tokenType), Pair("requested_token_type", tokenType)]
  }

  function ScopeFields(scopes: seq<string>): seq<Pair>
  {
    if scopes == [] then [] else [Pair("scope", Join(scopes, " "))]
  }

  function ClientFields(c: ClientConfig): seq<Pair>
  {
    if c.authMethod.Basic? then []
    else [Pair("client_id", c.clientId)] +
         (if c.clientSecret.Some? then [Pair("client_secret", c.clientSecret.value)] else [])
  }

  function AllFields(r: Request, c: ClientConfig, grantType: string, tokenType: string): seq<Pair>
  {
    FixedFields(r, grantType, tokenType) + Repeated("resource", r.resources) + Repeated("audience", r.audiences)
    + ScopeFields(r.scopes) + ClientFields(c)
  }

  /** Everything that is appended to the body, in order. */
  function FormFields(r: Request, c: ClientConfig): seq<Pair>
  {
    AllFields(r, c, RFC8693_GRANT_TYPE, RFC8693_ACCESS_TOKEN_TYPE)
  }

  /** The values sent under a name, in order. */
  function Named(pairs: seq<Pair>, name: string): (values: seq<string>)
  {
    if pairs == [] then []
    else (if pairs[0].name == name then [pairs[0].value] else []) + Named(pairs[1..], name)
  }

  lemma {:induction false} NamedConcat(xs: seq<Pair>, ys: seq<Pair>, name: string)
    ensures Named(xs + ys, name) == Named(xs, name) + Named(ys, name)
  {
    if xs == [] {
      assert xs + ys == ys;
    } else {
      assert (xs + ys)[1..] == xs[1..] + ys;
      NamedConcat(xs[1..], ys, name);
    }
  }

  lemma NamedOne(p: Pair, name: string)
    ensures Named([p], name) == if p.name == name then [p.value] else []
  {
    assert [p][1..] == [];
  }

  predicate AllUnder(pairs: seq<Pair>, field: string, values: seq<string>)
  {
    |pairs| == |values| && forall i :: 0 <= i < |pairs| ==> pairs[i] == Pair(field, values[i])
  }

  lemma {:induction false} RepeatedUnder(field: string, values: seq<string>)
    ensures AllUnder(Repeated(field, values), field, values)
  {
    if values != [] { RepeatedUnder(field, values[..|values| - 1]); }
  }

  lemma {:induction false} NamedUnder(pairs: seq<Pair>, field: string, values: seq<string>, name: string)
    requires AllUnder(pairs, field, values)
    ensures Named(pairs, name) == if name == field then values else []
  {
    if pairs != [] {
      NamedUnder(pairs[1..], field, values[1..], name);
      assert [values[0]] + values[1..] == values;
    }
  }

  lemma NamedRepeated(field: string, values: seq<string>, name: string)
    ensures Named(Repeated(field, values), name) == if name == field then values else []
  {
    RepeatedUnder(field, values);
    NamedUnder(Repeated(field, values), field, values, name);
  }

  /** These values, if the name is this one. */
  function Under(name: string, field: string, values: seq<string>): (sent: seq<string>)
  {
    if name == field then values else []
  }

  lemma NamedFixed(r: Request, grantType: string, tokenType: string, name: string)
    ensures Named(FixedFields(r, grantType, tokenType), name) ==
      Under(name, "grant_type", [grantType]) + Under(name, "subject_token", [r.subjectToken])
      + Under(name, "subject_token_type", [tokenType]) + Under(name, "requested_token_type", [tokenType])
  {
    var a, b := Pair("grant_type", grantType), Pair("subject_token", r.subjectToken);
    var c, d := Pair("subject_token_type", tokenType), Pair("requested_token_type", tokenType);
    NamedOne(a, name);
    NamedOne(b, name);
    NamedOne(c, name);
    NamedOne(d, name);
    NamedConcat([a], [b], name);
    NamedConcat([a] + [b], [c], name);
    NamedConcat([a] + [b] + [c], [d], name);
    assert [a, b, c, d] == [a] + [b] + [c] + [d];
  }

  lemma NamedScopes(scopes: seq<string>, name: string)
    ensures Named(ScopeFields(scopes), name) == Under(name, "scope", if scopes == [] then [] else [Join(scopes, " ")])
  {
    if scopes != [] { NamedOne(Pair("scope", Join(scopes, " ")), name); }
  }

  lemma NamedClient(c: ClientConfig, name: string)
    ensures Named(ClientFields(c), name) ==
      if c.authMethod.Basic? then []
      else Under(name, "client_id", [c.clientId])
           + Under(name, "client_secret", if c.clientSecret.Some? then [c.clientSecret.value] else [])
  {
    if c.authMethod.RequestBody? {
      var id := Pair("client_id", c.clientId);
      NamedOne(id, name);
      if c.clientSecret.Some? {
        var secret := Pair("client_secret", c.clientSecret.value);
        NamedOne(secret, name);
        NamedConcat([id], [secret], name);
      } else {
        assert ClientFields(c) == [id];
      }
    }
  }

  lemma NamedAll(r: Request, c: ClientConfig, grantType: string, tokenType: string, name: string)
    ensures Named(AllFields(r, c, grantType, tokenType), name) ==
      Named(FixedFields(r, grantType, tokenType), name) + Named(Repeated("resource", r.resources), name)
      + Named(Repeated("audience", r.audiences), name) + Named(ScopeFields(r.scopes), name)
      + Named(ClientFields(c), name)
  {
    var a, b := FixedFields(r, grantType, tokenType), Repeated("resource", r.resources);
    var d, e := Repeated("audience", r.audiences), ScopeFields(r.scopes);
    NamedConcat(a, b, name);
    NamedConcat(a + b, d, name);
    NamedConcat(a + b + d, e, name);
    NamedConcat(a + b + d + e, ClientFields(c), name);
  }

  /** What is sent under a name: each parameter has its own, and under any other there is nothing. */
  function Sent(r: Request, c: ClientConfig, grantType: string, tokenType: string, name: string): (values: seq<string>)
  {
    Under(name, "grant_type", [grantType]) + Under(name, "subject_token", [r.subjectToken])
    + Under(name, "subject_token_type", [tokenType]) + Under(name, "requested_token_type", [tokenType])
    + Under(name, "resource", r.resources) + Under(name, "audience", r.audiences)
    + Under(name, "scope", if r.scopes == [] then [] else [Join(r.scopes, " ")])
    + (if c.authMethod.Basic? then []
       else Under(name, "client_id", [c.clientId])
            + Under(name, "client_secret", if c.clientSecret.Some? then [c.clientSecret.value] else []))
  }

  lemma SentExactly(r: Request, c: ClientConfig, grantType: string, tokenType: string, name: string)
    ensures Named(AllFields(r, c, grantType, tokenType), name) == Sent(r, c, grantType, tokenType, name)
  {
    NamedAll(r, c, grantType, tokenType, name);
    NamedFixed(r, grantType, tokenType, name);
    NamedRepeated("resource", r.resources, name);
    NamedRepeated("audience", r.audiences, name);
    NamedScopes(r.scopes, name);
    NamedClient(c, name);
  }

  /** The form names each parameter of RFC 8693 once, each resource and audience in order, and nothing else. */
  lemma FormExactly(r: Request, c: ClientConfig, name: string)
    ensures Named(FormFields(r, c), name) ==
      Sent(r, c, "urn:ietf:params:oauth:grant-type:token-exchange", "urn:ietf:params:oauth:token-type:access_token",
           name)
  {
    SentExactly(r, c, RFC8693_GRANT_TYPE, RFC8693_ACCESS_TOKEN_TYPE, name);
  }

  lemma OneMoreField(prefix: seq<Field>, f: Field, rest: seq<Field>, after: seq<Utf8.byte>, ok: bool)
    requires Appended(EncodeForm(prefix), Separator(EncodeForm(prefix)) + EncodeField(f), after, ok)
    ensures ok ==> after == EncodeForm(prefix + [f])
    ensures !ok ==> |EncodeForm(prefix + [f] + rest)| > MAX_REQUEST_FORM_BYTES
  {
    AppendedForm(prefix, f);
    FormPrefix(prefix + [f], rest);
  }

  /** Appends fields in order, stopping within the cap at the first that does not fit. */
  method AppendAll(body: FormBody, fields: seq<Field>) returns (ok: bool)
    requires body.bytes == []
    modifies body
    ensures |body.bytes| <= MAX_REQUEST_FORM_BYTES
    ensures ok <==> |EncodeForm(fields)| <= MAX_REQUEST_FORM_BYTES
    ensures ok ==> body.bytes == EncodeForm(fields)
  {
    for i := 0 to |fields|
      invariant body.bytes == EncodeForm(fields[..i])
      invariant |body.bytes| <= MAX_REQUEST_FORM_BYTES
    {
      ghost var prefix, rest := fields[..i], fields[i + 1..];
      ok := body.AppendField(fields[i]);
      OneMoreField(prefix, fields[i], rest, body.bytes, ok);
      Around(fields, i);
      if !ok {
        return;
      }
    }
    assert fields[..|fields|] == fields;
    ok := true;
  }

  /** Serializes a request; the only possible failure is running into the cap. */
  method EncodeRequest(r: Request, c: ClientConfig) returns (result: Result<seq<Utf8.byte>, BuildError>)
    ensures result.Ok? <==> |EncodePairs(FormFields(r, c))| <= MAX_REQUEST_FORM_BYTES
    ensures result == if result.Ok? then Ok(EncodePairs(FormFields(r, c))) else Err(InvalidField("request"))
  {
    var body := new FormBody();
    var ok := AppendAll(body, ToBytes(FormFields(r, c)));
    result := if ok then Ok(body.bytes) else Err(InvalidField("request"));
  }

  // ----- Every accepted request fits -----

  /** Longest field name, in characters; its encoding can take four bytes a character. */
  const NAME_CHARS := 20

  function PairBudget(p: Pair): nat { 3 * Utf8.Len(p.name) + 3 * Utf8.Len(p.value) + 2 }

  function Budget(pairs: seq<Pair>): nat
  {
    if pairs == [] then 0 else Budget(pairs[..|pairs| - 1]) + PairBudget(pairs[|pairs| - 1])
  }

  lemma {:induction false} PairsWithinBudget(pairs: seq<Pair>)
    ensures FormBudget(ToBytes(pairs)) == Budget(pairs)
  {
    if pairs != [] {
      var init, last := pairs[..|pairs| - 1], pairs[|pairs| - 1];
      PairsWithinBudget(init);
      Utf8.LenIsEncodedLength(last.name);
      Utf8.LenIsEncodedLength(last.value);
      var fields := ToBytes(pairs);
      assert fields[..|fields| - 1] == ToBytes(init);
    }
  }

  lemma BudgetSnoc(pairs: seq<Pair>, p: Pair)
    ensures Budget(pairs + [p]) == Budget(pairs) + PairBudget(p)
  {
    assert (pairs + [p])[..|pairs|] == pairs;
  }

  lemma {:induction false} BudgetConcat(xs: seq<Pair>, ys: seq<Pair>)
    ensures Budget(xs + ys) == Budget(xs) + Budget(ys)
    decreases |ys|
  {
    if ys == [] {
      assert xs + ys == xs;
    } else {
      var init, last := ys[..|ys| - 1], ys[|ys| - 1];
      BudgetConcat(xs, init);
      BudgetSnoc(xs + init, last);
      ConcatLast(xs, ys);
    }
  }

  lemma PairSize(name: string, value: string, n: nat)
    requires |name| <= NAME_CHARS && Utf8.Len(value) <= n
    ensures PairBudget(Pair(name, value)) <= 242 + 3 * n
  {
  }

  lemma {:induction false} RepeatedBudget(name: string, values: seq<string>)
    requires |name| <= NAME_CHARS && forall i :: 0 <= i < |values| ==> IsRequiredField(values[i])
    ensures Budget(Repeated(name, values)) <= 6386 * |values|
  {
    if values != [] {
      var init, last := values[..|values| - 1], values[|values| - 1];
      RepeatedBudget(name, init);
      PairSize(name, last, MAX_FIELD_BYTES);
      var pairs := Repeated(name, values);
      assert pairs[..|pairs| - 1] == Repeated(name, init);
    }
  }

  lemma {:induction false} JoinedScopesSize(scopes: seq<string>)
    requires forall i :: 0 <= i < |scopes| ==> Utf8.Len(scopes[i]) <= MAX_FIELD_BYTES
    ensures Utf8.Len(Join(scopes, " ")) <= 2052 * |scopes|
  {
    if |scopes| > 1 {
      JoinedScopesSize(scopes[1..]);
      Utf8.LenConcat(scopes[0] + " ", Join(scopes[1..], " "));
      Utf8.LenConcat(scopes[0], " ");
      assert Utf8.Len(" ") <= 4;
    }
  }

  lemma SingletonBudget(f: Pair)
    ensures Budget([f]) == PairBudget(f)
  {
    assert [f][..0] == [];
    assert Budget([f][..0]) == 0;
  }

  lemma FourBudget(a: Pair, b: Pair, c: Pair, d: Pair)
    ensures Budget([a, b, c, d]) == PairBudget(a) + PairBudget(b) + PairBudget(c) + PairBudget(d)
  {
    SingletonBudget(a);
    var ab, abc, abcd := [a, b], [a, b, c], [a, b, c, d];
    assert ab[..1] == [a] && abc[..2] == ab && abcd[..3] == abc;
    assert Budget(ab) == Budget(ab[..1]) + PairBudget(b);
    assert Budget(abc) == Budget(abc[..2]) + PairBudget(c);
    assert Budget(abcd) == Budget(abcd[..3]) + PairBudget(d);
  }

  lemma FixedBudget(r: Request, grantType: string, tokenType: string)
    requires IsCredential(r.subjectToken) && Utf8.Len(grantType) <= 200 && Utf8.Len(tokenType) <= 200
    ensures Budget(FixedFields(r, grantType, tokenType)) <= 4 * 242 + 3 * (3 * 200) + 3 * MAX_CREDENTIAL_BYTES
  {
    PairSize("grant_type", grantType, 200);
    PairSize("subject_token", r.subjectToken, MAX_CREDENTIAL_BYTES);
    PairSize("subject_token_type", tokenType, 200);
    PairSize("requested_token_type", tokenType, 200);
    FourBudget(Pair("grant_type", grantType), Pair("subject_token", r.subjectToken),
               Pair("subject_token_type", tokenType), Pair("requested_token_type", tokenType));
  }

  lemma ScopeBudget(scopes: seq<string>)
    requires ValidScopes(scopes)
    ensures Budget(ScopeFields(scopes)) <= 242 + 3 * (2052 * MAX_REQUEST_ITEMS)
  {
    if scopes != [] {
      JoinedScopesSize(scopes);
      PairSize("scope", Join(scopes, " "), 2052 * MAX_REQUEST_ITEMS);
      SingletonBudget(Pair("scope", Join(scopes, " ")));
    }
  }

  lemma ClientBudget(c: ClientConfig)
    requires ValidConfig(c)
    ensures Budget(ClientFields(c)) <= 2 * 242 + 3 * MAX_FIELD_BYTES + 3 * MAX_CREDENTIAL_BYTES
  {
    if c.authMethod.RequestBody? {
      var id := Pair("client_id", c.clientId);
      PairSize("client_id", c.clientId, MAX_FIELD_BYTES);
      SingletonBudget(id);
      if c.clientSecret.Some? {
        var secret := Pair("client_secret", c.clientSecret.value);
        PairSize("client_secret", c.clientSecret.value, MAX_CREDENTIAL_BYTES);
        SingletonBudget(secret);
        BudgetConcat([id], [secret]);
      } else {
        assert ClientFields(c) == [id];
      }
    }
  }

  /** Five groups of fields within their budgets fit the cap together. */
  lemma FiveGroupsFit(a: seq<Pair>, b: seq<Pair>, c: seq<Pair>, d: seq<Pair>, e: seq<Pair>)
    requires Budget(a) <= 4 * 242 + 3 * (3 * 200) + 3 * MAX_CREDENTIAL_BYTES
    requires Budget(b) <= 6386 * MAX_REQUEST_ITEMS && Budget(c) <= 6386 * MAX_REQUEST_ITEMS
    requires Budget(d) <= 242 + 3 * (2052 * MAX_REQUEST_ITEMS)
    requires Budget(e) <= 2 * 242 + 3 * MAX_FIELD_BYTES + 3 * MAX_CREDENTIAL_BYTES
    ensures |EncodePairs(a + b + c + d + e)| <= MAX_REQUEST_FORM_BYTES
  {
    BudgetConcat(a, b);
    BudgetConcat(a + b, c);
    BudgetConcat(a + b + c, d);
    BudgetConcat(a + b + c + d, e);
    PairsWithinBudget(a + b + c + d + e);
    FormWithinBudget(ToBytes(a + b + c + d + e));
  }

  lemma AllFieldsFit(r: Request, c: ClientConfig, grantType: string, tokenType: string)
    requires Valid(r) && ValidConfig(c) && Utf8.Len(grantType) <= 200 && Utf8.Len(tokenType) <= 200
    ensures |EncodePairs(AllFields(r, c, grantType, tokenType))| <= MAX_REQUEST_FORM_BYTES
  {
    FixedBudget(r, grantType, tokenType);
    RepeatedBudget("resource", r.resources);
    RepeatedBudget("audience", r.audiences);
    ScopeBudget(r.scopes);
    ClientBudget(c);
    FiveGroupsFit(FixedFields(r, grantType, tokenType), Repeated("resource", r.resources),
                  Repeated("audience", r.audiences), ScopeFields(r.scopes), ClientFields(c));
  }

  /** Within the per-field, per-count and credential limits the body always fits the cap. */
  lemma FormFits(r: Request, c: ClientConfig)
    requires Valid(r) && ValidConfig(c)
    ensures |EncodePairs(FormFields(r, c))| <= MAX_REQUEST_FORM_BYTES
  {
    AllFieldsFit(r, c, RFC8693_GRANT_TYPE, RFC8693_ACCESS_TOKEN_TYPE);
  }

  /** So the cap failure is unreachable, and the server reads back exactly the fields of the request. */
  lemma AcceptedRequestsRoundTrip(subject: string, calls: seq<BuilderCall>, c: ClientConfig)
    requires Build(NewRequest(subject), calls).Ok? && ValidConfig(c)
    ensures var pairs := FormFields(Build(NewRequest(subject), calls).value, c);
      |EncodePairs(pairs)| <= MAX_REQUEST_FORM_BYTES && ParseForm(EncodePairs(pairs)) == ToBytes(pairs)
  {
    BuiltIsValid(NewRequest(subject), calls);
    FormFits(Build(NewRequest(subject), calls).value, c);
    FormRoundTrip(ToBytes(FormFields(Build(NewRequest(subject), calls).value, c)));
  }

  /** Different name/value lists never share a body. */
  lemma PairsInjective(xs: seq<Pair>, ys: seq<Pair>)
    requires EncodePairs(xs) == EncodePairs(ys)
    ensures xs == ys
  {
    FormInjective(ToBytes(xs), ToBytes(ys));
    ToBytesInjective(xs, ys);
  }

  // ----- Scopes on the wire -----

  /** Valid scope tokens hold no space, so joining and splitting at spaces loses nothing. */
  lemma JoinedScopesSplit(scopes: seq<string>)
    requires scopes != [] && forall i :: 0 <= i < |scopes| ==> IsScopeToken(scopes[i])
    ensures Split(Join(scopes, " "), ' ') == scopes
  {
    forall i | 0 <= i < |scopes| ensures ' ' !in scopes[i] {
      assert IsScopeToken(scopes[i]);
    }
    SplitJoin(scopes, ' ');
  }
}

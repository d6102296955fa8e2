/** DPoP nonces: header validation, the shared bounded store, and one resource transaction. */
module NonceStore {
  import opened Text
  import Utf8

  const MAX_NONCE_BYTES := 1024

  datatype NonceError =
    | InvalidField(field: string)
    | InvalidNonceHeader
    | NonceStateUnavailable
    | ResourceNonceCapacityExceeded
    | TokenEndpointNonceCapacityExceeded
    | NonceRetryLimitReached

  // ----- Nonce syntax -----

  predicate IsCoreChar(c: char)
  {
    'A' <= c <= 'Z' || 'a' <= c <= 'z' || '0' <= c <= '9' || c in {'-', '.', '_', '~', '+', '/'}
  }

  /** Position of the first `=`, or the length. */
  function CoreLen(value: string): (n: nat)
    ensures n <= |value|
    ensures n < |value| ==> value[n] == '='
    ensures forall i :: 0 <= i < n ==> value[i] != '='
  {
    if value == "" || value[0] == '=' then 0 else 1 + CoreLen(value[1..])
  }

  /** The check of the source, over the core and the padding. */
  predicate ValidNonce(value: string)
  {
    && value != "" && Utf8.Len(value) <= MAX_NONCE_BYTES
    && CoreLen(value) > 0
    && (forall i :: 0 <= i < CoreLen(value) ==> IsCoreChar(value[i]))
    && (forall i :: CoreLen(value) <= i < |value| ==> value[i] == '=')
  }

  /** Letters, digits and `-._~+/`, by code point. */
  predicate IsB64Char(n: int)
  {
    65 <= n <= 90 || 97 <= n <= 122 || 47 <= n <= 57 || n == 45 || n == 46 || n == 95 || n == 126 || n == 43
  }

  predicate CoreThenPadding(value: string, k: nat)
  {
    && 0 < k <= |value|
    && (forall i :: 0 <= i < k ==> IsB64Char(value[i] as int))
    && (forall i :: k <= i < |value| ==> value[i] == '=')
  }

  /** The b64token grammar (section 2.1 of RFC 6750): a non-empty core and then padding. */
  ghost predicate IsB64Token(value: string)
  {
    exists k: nat :: CoreThenPadding(value, k)
  }

  lemma B64TokenIsAscii(value: string, k: nat)
    requires CoreThenPadding(value, k)
    ensures Utf8.Len(value) == |value|
  {
    forall i | 0 <= i < |value| ensures value[i] as int < 0x80 {
      assert i < k ==> IsB64Char(value[i] as int);
    }
    Utf8.EncodeAscii(value);
    Utf8.LenIsEncodedLength(value);
  }

  /** Finding the first `=` decides the grammar. */
  lemma ValidNonceIsB64Token(value: string)
    ensures ValidNonce(value) <==> IsB64Token(value) && |value| <= 1024
  {
    var n := CoreLen(value);
    if ValidNonce(value) {
      assert CoreThenPadding(value, n);
      B64TokenIsAscii(value, n);
    }
    if IsB64Token(value) {
      var k: nat :| CoreThenPadding(value, k);
      B64TokenIsAscii(value, k);
      assert n >= k by {
        assert n < k ==> IsB64Char(value[n] as int);
      }
      assert k < |value| ==> value[k] == '=';
    }
  }

  /** A header value as text, or None when it is not visible ASCII. */
  type HeaderText = Option<string>

  predicate OneNonce(values: seq<HeaderText>)
  {
    |values| == 1 && values[0].Some? && ValidNonce(values[0].value)
  }

  /** Absent is fine, one valid value is taken, anything else is an error. */
  function StrictNonceHeader(values: seq<HeaderText>): (nonce: Result<Option<string>, NonceError>)
    ensures nonce.Ok? <==> values == [] || OneNonce(values)
    ensures nonce.Ok? ==> nonce.value == if values == [] then None else values[0]
    ensures nonce.Err? ==> nonce.error == InvalidNonceHeader
  {
    if values == [] then Ok(None)
    else if |values| > 1 then Err(InvalidNonceHeader)
    else match values[0]
      case None => Err(InvalidNonceHeader)
      case Some(v) => if ValidNonce(v) then Ok(Some(v)) else Err(InvalidNonceHeader)
  }

  // ----- The store -----

  datatype ResourceKey = ResourceKey(verb: string, target: string)

  datatype Store = Store(
    tokenEndpoints: map<string, string>, resources: map<ResourceKey, string>,
    tokenEndpointCapacity: nat, resourceCapacity: nat, available: bool)

  function SetToken(s: Store, endpoint: string, nonce: string): (r: Result<Store, NonceError>)
  {
    if !s.available then Err(NonceStateUnavailable)
    else if endpoint !in s.tokenEndpoints && |s.tokenEndpoints| >= s.tokenEndpointCapacity
    then Err(TokenEndpointNonceCapacityExceeded)
    else Ok(s.(tokenEndpoints := s.tokenEndpoints[endpoint := nonce]))
  }

  function SetResource(s: Store, key: ResourceKey, nonce: string): (r: Result<Store, NonceError>)
  {
    if !s.available then Err(NonceStateUnavailable)
    else if key !in s.resources && |s.resources| >= s.resourceCapacity
    then Err(ResourceNonceCapacityExceeded)
    else Ok(s.(resources := s.resources[key := nonce]))
  }

  /** There is a place for this key: it is known, or its namespace is not full. */
  predicate TakesToken(s: Store, endpoint: string)
  {
    s.available && (endpoint in s.tokenEndpoints || |s.tokenEndpoints| < s.tokenEndpointCapacity)
  }

  predicate TakesResource(s: Store, key: ResourceKey)
  {
    s.available && (key in s.resources || |s.resources| < s.resourceCapacity)
  }

  /** A write succeeds exactly when there is a place for its key, and then changes that key alone. */
  lemma SetExactly(s: Store, endpoint: string, key: ResourceKey, nonce: string)
    ensures var r := SetToken(s, endpoint, nonce);
      && (r.Ok? <==> TakesToken(s, endpoint))
      && (r.Ok? ==> r.value == s.(tokenEndpoints := s.tokenEndpoints[endpoint := nonce]))
      && (r.Err? ==> r.error == if s.available then TokenEndpointNonceCapacityExceeded else NonceStateUnavailable)
    ensures var r := SetResource(s, key, nonce);
      && (r.Ok? <==> TakesResource(s, key))
      && (r.Ok? ==> r.value == s.(resources := s.resources[key := nonce]))
      && (r.Err? ==> r.error == if s.available then ResourceNonceCapacityExceeded else NonceStateUnavailable)
  {
  }

  /** The store a failed or successful write leaves behind. */
  function Kept(s: Store, r: Result<Store, NonceError>): Store { if r.Ok? then r.value else s }

  function Lookup<K(==)>(m: map<K, string>, key: K): Option<string>
  {
    if key in m then Some(m[key]) else None
  }

  /** What `Default` and `with_resource_capacity` build: both namespaces empty. */
  function NewStore(resourceCapacity: nat): Store { Store(map[], map[], 64, resourceCapacity, true) }

  // ----- Invariant over every run of writes -----

  /** Both namespaces are bounded and hold only nonces that a proof may carry. */
  predicate Valid(s: Store)
  {
    && |s.tokenEndpoints| <= s.tokenEndpointCapacity && |s.resources| <= s.resourceCapacity
    && (forall k :: k in s.tokenEndpoints ==> ValidNonce(s.tokenEndpoints[k]))
    && (forall k :: k in s.resources ==> ValidNonce(s.resources[k]))
  }

  /** Some holder of the store notes the nonce header of a reply it got; nothing is known about the reply. */
  datatype Write =
    | TokenWrite(endpoint: string, headers: seq<HeaderText>)
    | ResourceWrite(key: ResourceKey, headers: seq<HeaderText>)

  function Attempted(s: Store, w: Write): Result<Store, NonceError>
  {
    match StrictNonceHeader(w.headers)
    case Err(e) => Err(e)
    case Ok(None) => Ok(s)
    case Ok(Some(nonce)) => if w.TokenWrite? then SetToken(s, w.endpoint, nonce) else SetResource(s, w.key, nonce)
  }

  function ApplyWrite(s: Store, w: Write): Store { Kept(s, Attempted(s, w)) }

  lemma InsertBounded<K>(m: map<K, string>, key: K, nonce: string, capacity: nat)
    requires |m| <= capacity && (key in m || |m| < capacity)
    ensures |m[key := nonce]| <= capacity
  {
    if key in m {
      assert m[key := nonce].Keys == m.Keys;
    } else {
      assert m[key := nonce].Keys == m.Keys + {key};
    }
  }

  lemma SetKeepsValid(s: Store, endpoint: string, key: ResourceKey, nonce: string)
    requires Valid(s) && ValidNonce(nonce)
    ensures SetToken(s, endpoint, nonce).Ok? ==> Valid(SetToken(s, endpoint, nonce).value)
    ensures SetResource(s, key, nonce).Ok? ==> Valid(SetResource(s, key, nonce).value)
  {
    if SetToken(s, endpoint, nonce).Ok? { InsertBounded(s.tokenEndpoints, endpoint, nonce, s.tokenEndpointCapacity); }
    if SetResource(s, key, nonce).Ok? { InsertBounded(s.resources, key, nonce, s.resourceCapacity); }
  }

  /** Whatever the reply's headers were, noting them keeps the store bounded and valid. */
  lemma WriteKeepsValid(s: Store, w: Write)
    requires Valid(s)
    ensures Valid(ApplyWrite(s, w))
  {
    var header := StrictNonceHeader(w.headers);
    if header.Ok? && header.value.Some? {
      match w {
        case TokenWrite(endpoint, _) => SetKeepsValid(s, endpoint, ResourceKey("", ""), header.value.value);
        case ResourceWrite(key, _) => SetKeepsValid(s, "", key, header.value.value);
      }
    }
  }

  /** The headers are one valid nonce and there is a place for it. */
  predicate Lands(s: Store, w: Write)
  {
    OneNonce(w.headers) && if w.TokenWrite? then TakesToken(s, w.endpoint) else TakesResource(s, w.key)
  }

  /** A write that lands puts its nonce under one key of one namespace; any other changes nothing. */
  lemma WriteIsIsolated(s: Store, w: Write)
    ensures var s' := ApplyWrite(s, w);
      && (forall k :: !(w.TokenWrite? && k == w.endpoint) ==>
            Lookup(s'.tokenEndpoints, k) == Lookup(s.tokenEndpoints, k))
      && (forall k :: !(w.ResourceWrite? && k == w.key) ==> Lookup(s'.resources, k) == Lookup(s.resources, k))
      && (!Lands(s, w) ==> s' == s)
      && (Lands(s, w) ==>
            w.headers == [if w.TokenWrite? then Lookup(s'.tokenEndpoints, w.endpoint) else Lookup(s'.resources, w.key)])
    ensures Attempted(s, w).Ok? <==> w.headers == [] || Lands(s, w)
  {
  }

  function ApplyAll(s: Store, writes: seq<Write>): Store
    decreases |writes|
  {
    if writes == [] then s else ApplyAll(ApplyWrite(s, writes[0]), writes[1..])
  }

  /** Over every run of replies noted by anyone, in any order, the store stays bounded and valid. */
  lemma {:induction false} RunsKeepValid(s: Store, writes: seq<Write>)
    requires Valid(s)
    ensures Valid(ApplyAll(s, writes))
    decreases |writes|
  {
    if writes != [] {
      WriteKeepsValid(s, writes[0]);
      RunsKeepValid(ApplyWrite(s, writes[0]), writes[1..]);
    }
  }

  /** A namespace and key that nobody writes keeps its nonce over any run. */
  lemma {:induction false} UnwrittenKeysKept(s: Store, writes: seq<Write>, endpoint: string, key: ResourceKey)
    ensures (forall i :: 0 <= i < |writes| && writes[i].TokenWrite? ==> writes[i].endpoint != endpoint) ==>
      Lookup(ApplyAll(s, writes).tokenEndpoints, endpoint) == Lookup(s.tokenEndpoints, endpoint)
    ensures (forall i :: 0 <= i < |writes| && writes[i].ResourceWrite? ==> writes[i].key != key) ==>
      Lookup(ApplyAll(s, writes).resources, key) == Lookup(s.resources, key)
    decreases |writes|
  {
    if writes != [] {
      WriteIsIsolated(s, writes[0]);
      UnwrittenKeysKept(ApplyWrite(s, writes[0]), writes[1..], endpoint, key);
      assert forall i :: 0 <= i < |writes[1..]| ==> writes[1..][i] == writes[i + 1];
    }
  }

  /** Once present, a key stays present, so a full namespace can always refresh what it holds. */
  lemma {:induction false} PresentKeysStay(s: Store, writes: seq<Write>)
    ensures s.tokenEndpoints.Keys <= ApplyAll(s, writes).tokenEndpoints.Keys
    ensures s.resources.Keys <= ApplyAll(s, writes).resources.Keys
    ensures ApplyAll(s, writes).available == s.available
    decreases |writes|
  {
    if writes != [] { PresentKeysStay(ApplyWrite(s, writes[0]), writes[1..]); }
  }

  /** A nonce that was stored can be replaced after any run: capacity never locks out a known key. */
  lemma KnownKeysRefresh(s: Store, writes: seq<Write>, endpoint: string, key: ResourceKey, nonce: string)
    requires s.available
    ensures endpoint in s.tokenEndpoints ==> SetToken(ApplyAll(s, writes), endpoint, nonce).Ok?
    ensures key in s.resources ==> SetResource(ApplyAll(s, writes), key, nonce).Ok?
  {
    PresentKeysStay(s, writes);
  }

  /** The two maps behind their mutex; every method is one critical section. */
  class NonceState {
    var tokenEndpoints: map<string, string>
    var resources: map<ResourceKey, string>
    const tokenEndpointCapacity: nat
    const resourceCapacity: nat
    var poisoned: bool

    function Contents(): Store
      reads this
    {
      Store(tokenEndpoints, resources, tokenEndpointCapacity, resourceCapacity, !poisoned)
    }

    constructor (resourceCapacity: nat)
      ensures Contents() == NewStore(resourceCapacity) && Valid(Contents())
    {
      tokenEndpoints, resources := map[], map[];
      tokenEndpointCapacity, this.resourceCapacity := 64, resourceCapacity;
      poisoned := false;
    }

    /** A store for no resources at all is refused. */
    static method WithResourceCapacity(capacity: nat) returns (state: Result<NonceState, NonceError>)
      ensures state.Ok? <==> capacity > 0
      ensures state.Ok? ==> fresh(state.value) && state.value.Contents() == NewStore(capacity)
      ensures state.Err? ==> state.error == InvalidField("resource_nonce_capacity")
    {
      if capacity == 0 {
        return Err(InvalidField("resource_nonce_capacity"));
      }
      var s := new NonceState(capacity);
      state := Ok(s);
    }

    method TokenEndpointNonce(endpoint: string) returns (r: Result<Option<string>, NonceError>)
      ensures r.Err? <==> !Contents().available
      ensures r == if r.Ok? then Ok(Lookup(Contents().tokenEndpoints, endpoint)) else Err(NonceStateUnavailable)
    {
      if poisoned {
        return Err(NonceStateUnavailable);
      }
      if endpoint in tokenEndpoints {
        return Ok(Some(tokenEndpoints[endpoint]));
      }
      r := Ok(None);
    }

    method ResourceNonce(key: ResourceKey) returns (r: Result<Option<string>, NonceError>)
      ensures r.Err? <==> !Contents().available
      ensures r == if r.Ok? then Ok(Lookup(Contents().resources, key)) else Err(NonceStateUnavailable)
    {
      if poisoned {
        return Err(NonceStateUnavailable);
      }
      if key in resources {
        return Ok(Some(resources[key]));
      }
      r := Ok(None);
    }

    /** Refuses a new key in a full namespace; otherwise inserts. */
    method SetTokenEndpointNonce(endpoint: string, nonce: string) returns (error: Option<NonceError>)
      modifies this
      ensures error.None? <==> old(TakesToken(Contents(), endpoint))
      ensures error.None? ==> Contents() == old(Contents()).(tokenEndpoints := old(tokenEndpoints)[endpoint := nonce])
      ensures error.Some? ==>
        && Contents() == old(Contents())
        && error.value == if old(poisoned) then NonceStateUnavailable else TokenEndpointNonceCapacityExceeded
      ensures old(Valid(Contents())) && ValidNonce(nonce) ==> Valid(Contents())
    {
      if old(Valid(Contents())) && ValidNonce(nonce) {
        SetKeepsValid(Contents(), endpoint, ResourceKey("", ""), nonce);
      }
      if poisoned {
        return Some(NonceStateUnavailable);
      }
      if endpoint !in tokenEndpoints {
        if |tokenEndpoints| >= tokenEndpointCapacity {
          return Some(TokenEndpointNonceCapacityExceeded);
        }
      }
      tokenEndpoints := tokenEndpoints[endpoint := nonce];
      error := None;
    }

    method SetResourceNonce(key: ResourceKey, nonce: string) returns (error: Option<NonceError>)
      modifies this
      ensures error.None? <==> old(TakesResource(Contents(), key))
      ensures error.None? ==> Contents() == old(Contents()).(resources := old(resources)[key := nonce])
      ensures error.Some? ==>
        && Contents() == old(Contents())
        && error.value == if old(poisoned) then NonceStateUnavailable else ResourceNonceCapacityExceeded
      ensures old(Valid(Contents())) && ValidNonce(nonce) ==> Valid(Contents())
    {
      if old(Valid(Contents())) && ValidNonce(nonce) {
        SetKeepsValid(Contents(), "", key, nonce);
      }
      if poisoned {
        return Some(NonceStateUnavailable);
      }
      if key !in resources {
        if |resources| >= resourceCapacity {
          return Some(ResourceNonceCapacityExceeded);
        }
      }
      resources := resources[key := nonce];
      error := None;
    }

    /** Other holders of the same store note the headers of their replies in between. */
    method Interfere(writes: seq<Write>)
      modifies this
      ensures Contents() == ApplyAll(old(Contents()), writes)
    {
      for i := 0 to |writes|
        invariant ApplyAll(Contents(), writes[i..]) == ApplyAll(old(Contents()), writes)
      {
        assert writes[i..][1..] == writes[i + 1..];
        var header := StrictNonceHeader(writes[i].headers);
        if header.Ok? && header.value.Some? {
          match writes[i] {
            case TokenWrite(endpoint, _) => var _ := SetTokenEndpointNonce(endpoint, header.value.value);
            case ResourceWrite(key, _) => var _ := SetResourceNonce(key, header.value.value);
          }
        }
      }
    }
  }

  // ----- One resource transaction -----

  datatype Transaction = Transaction(key: ResourceKey, nonceRetryUsed: bool)

  /** Accepting a challenge: the answer, the transaction and the store afterwards. */
  function AcceptChallenge(t: Transaction, s: Store, status: nat, headers: seq<HeaderText>)
    : (r: (Result<bool, NonceError>, Transaction, Store))
  {
    if status != 401 then (Ok(false), t, s)
    else match StrictNonceHeader(headers)
      case Err(e) => (Err(e), t, s)
      case Ok(None) => (Ok(false), t, s)
      case Ok(Some(nonce)) =>
        if t.nonceRetryUsed then (Err(NonceRetryLimitReached), t, s)
        else match SetResource(s, t.key, nonce)
          case Err(e) => (Err(e), t, s)
          case Ok(s') => (Ok(true), t.(nonceRetryUsed := true), s')
  }

  function ObserveNonce(t: Transaction, s: Store, headers: seq<HeaderText>): (r: (Result<bool, NonceError>, Store))
  {
    match StrictNonceHeader(headers)
    case Err(e) => (Err(e), s)
    case Ok(None) => (Ok(false), s)
    case Ok(Some(nonce)) =>
      match SetResource(s, t.key, nonce)
      case Err(e) => (Err(e), s)
      case Ok(s') => (Ok(true), s')
  }

  /**
   * A challenge is accepted exactly for a 401 with one valid nonce, an unspent retry and a place in
   * the store; anything else leaves both the store and the retry budget as they were.
   */
  lemma AcceptExactly(t: Transaction, s: Store, status: nat, headers: seq<HeaderText>)
    ensures var (answer, t', s') := AcceptChallenge(t, s, status, headers);
      && (answer == Ok(true) <==>
            status == 401 && !t.nonceRetryUsed && OneNonce(headers) && TakesResource(s, t.key))
      && (answer == Ok(true) ==>
            t' == t.(nonceRetryUsed := true) && s' == s.(resources := s.resources[t.key := headers[0].value]))
      && (answer != Ok(true) ==> t' == t && s' == s)
      && (answer == Ok(false) <==> status != 401 || headers == [])
      && (answer.Err? ==>
            answer.error ==
            if !OneNonce(headers) then InvalidNonceHeader
            else if t.nonceRetryUsed then NonceRetryLimitReached
            else if s.available then ResourceNonceCapacityExceeded else NonceStateUnavailable)
      && (Valid(s) ==> Valid(s'))
  {
    if Valid(s) { WriteKeepsValid(s, ResourceWrite(t.key, headers)); }
  }

  /** Any reply's nonce is taken up while there is a place for it, at no cost to the retry budget. */
  lemma ObserveExactly(t: Transaction, s: Store, headers: seq<HeaderText>)
    ensures var (answer, s') := ObserveNonce(t, s, headers);
      && (answer == Ok(true) <==> OneNonce(headers) && TakesResource(s, t.key))
      && (answer == Ok(true) ==> s' == s.(resources := s.resources[t.key := headers[0].value]))
      && (answer != Ok(true) ==> s' == s)
      && (answer == Ok(false) <==> headers == [])
      && (answer.Err? ==>
            answer.error ==
            if !OneNonce(headers) then InvalidNonceHeader
            else if s.available then ResourceNonceCapacityExceeded else NonceStateUnavailable)
  {
  }

  /** Over any writes of others under other keys, the next authorization carries exactly the accepted nonce. */
  lemma AcceptedNonceIsCarried(
    t: Transaction, s: Store, status: nat, headers: seq<HeaderText>, writes: seq<Write>)
    requires AcceptChallenge(t, s, status, headers).0 == Ok(true)
    requires forall i :: 0 <= i < |writes| && writes[i].ResourceWrite? ==> writes[i].key != t.key
    ensures var after := ApplyAll(AcceptChallenge(t, s, status, headers).2, writes);
      after.available && headers == [Lookup(after.resources, t.key)]
  {
    AcceptExactly(t, s, status, headers);
    var s' := AcceptChallenge(t, s, status, headers).2;
    UnwrittenKeysKept(s', writes, "", t.key);
    PresentKeysStay(s', writes);
  }

  /** What a transaction's owner may do, interleaved with writes by others. */
  datatype Event =
    | Challenge(status: nat, challengeHeaders: seq<HeaderText>)
    | Observe(observedHeaders: seq<HeaderText>)
    | Others(writes: seq<Write>)

  datatype Progress = Progress(transaction: Transaction, store: Store, accepted: nat)

  function Advance(p: Progress, e: Event): Progress
  {
    match e
    case Challenge(status, headers) =>
      var (answer, t, s) := AcceptChallenge(p.transaction, p.store, status, headers);
      Progress(t, s, p.accepted + (if answer == Ok(true) then 1 else 0))
    case Observe(headers) => p.(store := ObserveNonce(p.transaction, p.store, headers).1)
    case Others(writes) => p.(store := ApplyAll(p.store, writes))
  }

  function AdvanceAll(p: Progress, events: seq<Event>): Progress
    decreases |events|
  {
    if events == [] then p else AdvanceAll(Advance(p, events[0]), events[1..])
  }

  /** The retry flag counts the accepted challenges. */
  predicate Counted(p: Progress) { p.accepted == if p.transaction.nonceRetryUsed then 1 else 0 }

  lemma AdvanceOk(p: Progress, e: Event)
    ensures Counted(p) ==> Counted(Advance(p, e))
    ensures Valid(p.store) ==> Valid(Advance(p, e).store)
    ensures Advance(p, e).transaction.key == p.transaction.key
  {
    match e {
      case Challenge(status, headers) => AcceptExactly(p.transaction, p.store, status, headers);
      case Observe(headers) =>
        if Valid(p.store) { WriteKeepsValid(p.store, ResourceWrite(p.transaction.key, headers)); }
      case Others(writes) => if Valid(p.store) { RunsKeepValid(p.store, writes); }
    }
  }

  /** Each transaction accepts at most one challenge, whatever the server and the other holders do. */
  lemma {:induction false} AtMostOneChallenge(p: Progress, events: seq<Event>)
    requires Counted(p)
    ensures AdvanceAll(p, events).accepted <= 1 && Counted(AdvanceAll(p, events))
    decreases |events|
  {
    if events != [] {
      AdvanceOk(p, events[0]);
      AtMostOneChallenge(Advance(p, events[0]), events[1..]);
    }
  }

  /** And over the same runs the store stays bounded and valid. */
  lemma {:induction false} TransactionsKeepValid(p: Progress, events: seq<Event>)
    requires Valid(p.store)
    ensures Valid(AdvanceAll(p, events).store)
    decreases |events|
  {
    if events != [] {
      AdvanceOk(p, events[0]);
      TransactionsKeepValid(Advance(p, events[0]), events[1..]);
    }
  }

  /** A transaction over the shared store, updated in place. */
  class ResourceRequest {
    const nonces: NonceState
    const key: ResourceKey
    var nonceRetryUsed: bool

    constructor (nonces: NonceState, key: ResourceKey)
      ensures this.nonces == nonces && this.key == key && !nonceRetryUsed
    {
      this.nonces := nonces;
      this.key := key;
      nonceRetryUsed := false;
    }

    ghost function State(): Transaction
      reads this
    {
      Transaction(key, nonceRetryUsed)
    }

    /** The nonce the next authorization of this transaction carries. */
    method AuthorizationNonce() returns (nonce: Result<Option<string>, NonceError>)
      ensures nonce.Ok? <==> nonces.Contents().available
      ensures nonce.Ok? ==> nonce.value == Lookup(nonces.Contents().resources, key)
      ensures nonce.Ok? && nonce.value.Some? && Valid(nonces.Contents()) ==> ValidNonce(nonce.value.value)
    {
      nonce := nonces.ResourceNonce(key);
    }

    method AcceptNonceChallenge(status: nat, headers: seq<HeaderText>) returns (answer: Result<bool, NonceError>)
      modifies this, nonces
      ensures (answer, State(), nonces.Contents())
           == AcceptChallenge(old(State()), old(nonces.Contents()), status, headers)
    {
      if status != 401 {
        return Ok(false);
      }
      var header := StrictNonceHeader(headers);
      if header.Err? {
        return Err(header.error);
      }
      if header.value.None? {
        return Ok(false);
      }
      if nonceRetryUsed {
        return Err(NonceRetryLimitReached);
      }
      var error := nonces.SetResourceNonce(key, header.value.value);
      if error.Some? {
        return Err(error.value);
      }
      nonceRetryUsed := true;
      answer := Ok(true);
    }

    method ObserveResponseNonce(headers: seq<HeaderText>) returns (answer: Result<bool, NonceError>)
      modifies nonces
      ensures (answer, nonces.Contents()) == ObserveNonce(old(State()), old(nonces.Contents()), headers)
    {
      var header := StrictNonceHeader(headers);
      if header.Err? {
        return Err(header.error);
      }
      if header.value.None? {
        return Ok(false);
      }
      var error := nonces.SetResourceNonce(key, header.value.value);
      answer := if error.Some? then Err(error.value) else Ok(true);
    }
  }
}

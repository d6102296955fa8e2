/** Webhook subscription requests and the stable identity shared by subscribe, refresh and unsubscribe. */
module Subscription {
  import opened Text
  import opened Json
  import opened CanonicalJson
  import opened Hashing
  import Utf8
  import JsonIdentity

  datatype EventRequestError = RequestTooLarge | InvalidRequest | InvalidSigningSecret | InvalidPrincipal

  datatype Lifetime = ServerDefault | NoExpiry | Milliseconds(ms: nat)

  /** A decoded subscribe body; `wellKeyed` is the verdict on its signing secret. */
  datatype RawSubscribe = RawSubscribe(
    name: string, arguments: seq<Member>, mode: string, url: string, secret: string, wellKeyed: bool,
    cursor: Option<string>, maxAgeMs: Option<nat>, lifetime: Lifetime)

  datatype RawUnsubscribe = RawUnsubscribe(name: string, arguments: seq<Member>, mode: string, url: string)

  datatype Key = Key(name: string, arguments: seq<Member>, callbackUrl: string)

  datatype Subscribe = Subscribe(
    key: Key, secret: string, cursor: Option<string>, maxAgeMs: Option<nat>, lifetime: Lifetime)

  const MAX_REQUEST_BYTES: nat := 64 * 1024

  predicate BoundedNonblank(value: string, maximum: nat)
  {
    Trim(value) != "" && Utf8.Len(value) <= maximum
  }

  function NewKey(name: string, arguments: seq<Member>, url: string): (r: Result<Key, EventRequestError>)
  {
    if !BoundedNonblank(name, 256) || !BoundedNonblank(url, 4096) then Err(InvalidRequest)
    else Ok(Key(name, arguments, url))
  }

  /** Budget, decoding, delivery mode, key, secret and cursor, in that order. */
  function ParseSubscribe(size: nat, decoded: Option<RawSubscribe>): (r: Result<Subscribe, EventRequestError>)
  {
    if size > MAX_REQUEST_BYTES then Err(RequestTooLarge)
    else if decoded.None? then Err(InvalidRequest)
    else
      var raw := decoded.value;
      if raw.mode != "webhook" then Err(InvalidRequest)
      else
        var key := NewKey(raw.name, raw.arguments, raw.url);
        if key.Err? then Err(key.error)
        else if !raw.wellKeyed then Err(InvalidSigningSecret)
        else if raw.cursor.Some? && Utf8.Len(raw.cursor.value) > 4096 then Err(InvalidRequest)
        else Ok(Subscribe(key.value, raw.secret, raw.cursor, raw.maxAgeMs, raw.lifetime))
  }

  function ParseUnsubscribe(size: nat, decoded: Option<RawUnsubscribe>): (r: Result<Key, EventRequestError>)
  {
    if size > MAX_REQUEST_BYTES then Err(RequestTooLarge)
    else if decoded.None? then Err(InvalidRequest)
    else if decoded.value.mode != "webhook" then Err(InvalidRequest)
    else NewKey(decoded.value.name, decoded.value.arguments, decoded.value.url)
  }

  /** Some visible character, within this many bytes. */
  ghost predicate Fits(value: string, maximum: nat)
  {
    !AllSpace(value) && |Utf8.Encode(value)| <= maximum
  }

  lemma BoundedExactly(value: string, maximum: nat)
    ensures BoundedNonblank(value, maximum) <==> Fits(value, maximum)
  {
    TrimFacts(value);
    Utf8.LenIsEncodedLength(value);
  }

  /** A body within the budget that decodes to a webhook delivery with a usable name and callback. */
  ghost predicate Usable(size: nat, mode: string, name: string, url: string)
  {
    size <= 65536 && mode == "webhook" && Fits(name, 256) && Fits(url, 4096)
  }

  /** Accepted exactly within every limit, and then with the fields as given; a refusal tells what is wrong. */
  lemma SubscribeAccepted(size: nat, decoded: Option<RawSubscribe>)
    ensures var r := ParseSubscribe(size, decoded);
      && (r.Ok? ==> decoded.Some?)
      && (decoded.Some? ==>
            var raw := decoded.value;
            var usable := Usable(size, raw.mode, raw.name, raw.url);
            && (r.Ok? <==>
                  usable && raw.wellKeyed && (raw.cursor.Some? ==> |Utf8.Encode(raw.cursor.value)| <= 4096))
            && (r.Ok? ==>
                  && r.value.key.name == raw.name && r.value.key.arguments == raw.arguments
                  && r.value.key.callbackUrl == raw.url && r.value.secret == raw.secret
                  && r.value.cursor == raw.cursor && r.value.maxAgeMs == raw.maxAgeMs
                  && r.value.lifetime == raw.lifetime)
            && (r == Err(InvalidSigningSecret) <==> usable && !raw.wellKeyed))
      && (r == Err(RequestTooLarge) <==> size > 65536)
      && (r.Err? ==> r.error in {RequestTooLarge, InvalidRequest, InvalidSigningSecret})
  {
    if decoded.Some? {
      BoundedExactly(decoded.value.name, 256);
      BoundedExactly(decoded.value.url, 4096);
      if decoded.value.cursor.Some? { Utf8.LenIsEncodedLength(decoded.value.cursor.value); }
    }
  }

  lemma UnsubscribeAccepted(size: nat, decoded: Option<RawUnsubscribe>)
    ensures var r := ParseUnsubscribe(size, decoded);
      && (r.Ok? <==> decoded.Some? && Usable(size, decoded.value.mode, decoded.value.name, decoded.value.url))
      && (r.Ok? ==>
            && r.value.name == decoded.value.name && r.value.arguments == decoded.value.arguments
            && r.value.callbackUrl == decoded.value.url)
      && (r.Err? ==> r.error == if size > 65536 then RequestTooLarge else InvalidRequest)
  {
    if decoded.Some? {
      BoundedExactly(decoded.value.name, 256);
      BoundedExactly(decoded.value.url, 4096);
    }
  }

  // ----- Identity -----

  const PROFILE: string := "mcp-toolkit.chatgpt-webhook-subscription.v1"

  function Envelope(key: Key, principal: string): (v: Value)
  {
    Object([
      Member("profile", String(PROFILE)),
      Member("principal", String(principal)),
      Member("url", String(key.callbackUrl)),
      Member("name", String(key.name)),
      Member("arguments", Object(key.arguments))])
  }

  /** The routing identifier: a fixed prefix and the hexadecimal digest. */
  datatype Id = Sub(digest: Digest)

  function SubscriptionId(key: Key, principal: string): (r: Result<Id, EventRequestError>)
  {
    if !BoundedNonblank(principal, 1024) then Err(InvalidPrincipal)
    else Ok(Sub(Sha256(JsonIdentity.CanonicalBytes(Envelope(key, principal)))))
  }

  lemma MeaningOfCons(m: Member, rest: seq<Member>)
    ensures MembersMeaning([m] + rest) == MembersMeaning(rest)[m.key := Meaning(m.value)]
    ensures forall k :: HasKey([m] + rest, k) <==> k == m.key || HasKey(rest, k)
    ensures WellFormedMembers([m] + rest)
      <==> !HasKey(rest, m.key) && WellFormed(m.value) && WellFormedMembers(rest)
  {
    assert ([m] + rest)[1..] == rest;
  }

  lemma EnvelopeMeaning(key: Key, principal: string)
    requires WellFormedMembers(key.arguments)
    ensures WellFormed(Envelope(key, principal))
    ensures Meaning(Envelope(key, principal)) == TreeObject(map[
      "profile" := TreeString(PROFILE),
      "principal" := TreeString(principal),
      "url" := TreeString(key.callbackUrl),
      "name" := TreeString(key.name),
      "arguments" := TreeObject(MembersMeaning(key.arguments))])
  {
    var a := Member("profile", String(PROFILE));
    var b := Member("principal", String(principal));
    var c := Member("url", String(key.callbackUrl));
    var d := Member("name", String(key.name));
    var e := Member("arguments", Object(key.arguments));
    MeaningOfCons(e, []);
    MeaningOfCons(d, [e] + []);
    MeaningOfCons(c, [d] + ([e] + []));
    MeaningOfCons(b, [c] + ([d] + ([e] + [])));
    MeaningOfCons(a, [b] + ([c] + ([d] + ([e] + []))));
    assert [a, b, c, d, e] == [a] + ([b] + ([c] + ([d] + ([e] + []))));
  }

  /** An identifier is given to every principal with a visible name of at most a kibibyte, and to no other. */
  lemma IdGiven(key: Key, principal: string)
    ensures SubscriptionId(key, principal).Ok? <==> Fits(principal, 1024)
    ensures SubscriptionId(key, principal).Err? ==> SubscriptionId(key, principal).error == InvalidPrincipal
  {
    BoundedExactly(principal, 1024);
  }

  /** The same subscription selector: name, callback and arguments up to object-key order. */
  predicate SameSelector(k: Key, l: Key)
  {
    && k.callbackUrl == l.callbackUrl && k.name == l.name
    && MembersMeaning(k.arguments) == MembersMeaning(l.arguments)
  }

  /** Identifiers agree exactly on the authenticated tuple, its arguments taken up to object-key order. */
  lemma IdDecidesTuple(k: Key, p: string, l: Key, q: string)
    requires WellFormedMembers(k.arguments) && WellFormedMembers(l.arguments)
    requires Fits(p, 1024) && Fits(q, 1024)
    ensures SubscriptionId(k, p) == SubscriptionId(l, q) <==> p == q && SameSelector(k, l)
  {
    IdGiven(k, p);
    IdGiven(l, q);
    EnvelopeMeaning(k, p);
    EnvelopeMeaning(l, q);
    var v, w := Envelope(k, p), Envelope(l, q);
    JsonIdentity.BytesDecideMeaning(v, w);
    var m, n := Meaning(v).members, Meaning(w).members;
    assert m["principal"] == TreeString(p) && n["principal"] == TreeString(q);
    assert m["url"] == TreeString(k.callbackUrl) && n["url"] == TreeString(l.callbackUrl);
    assert m["name"] == TreeString(k.name) && n["name"] == TreeString(l.name);
    assert m["arguments"] == TreeObject(MembersMeaning(k.arguments));
    assert n["arguments"] == TreeObject(MembersMeaning(l.arguments));
  }

  /** A refresh with any secret, cursor, age bound or lifetime routes to the same subscription. */
  lemma RefreshKeepsId(raw: RawSubscribe, size: nat, refresh: RawSubscribe, size': nat, principal: string)
    requires WellFormedMembers(raw.arguments) && WellFormedMembers(refresh.arguments)
    requires ParseSubscribe(size, Some(raw)).Ok? && ParseSubscribe(size', Some(refresh)).Ok?
    requires Fits(principal, 1024)
    ensures var k, l := ParseSubscribe(size, Some(raw)).value.key, ParseSubscribe(size', Some(refresh)).value.key;
      SubscriptionId(k, principal) == SubscriptionId(l, principal) <==> SameSelector(k, l)
  {
    SubscribeAccepted(size, Some(raw));
    SubscribeAccepted(size', Some(refresh));
    IdDecidesTuple(Key(raw.name, raw.arguments, raw.url), principal,
                   Key(refresh.name, refresh.arguments, refresh.url), principal);
  }

  /** Whatever a client could subscribe, it can cancel: the stop request parses and has the same identifier. */
  lemma UnsubscribeFindsSubscription(
    raw: RawSubscribe, size: nat, stop: RawUnsubscribe, size': nat, principal: string)
    requires WellFormedMembers(raw.arguments) && WellFormedMembers(stop.arguments)
    requires ParseSubscribe(size, Some(raw)).Ok? && size' <= 65536
    requires stop.mode == "webhook" && stop.name == raw.name && stop.url == raw.url
    requires MembersMeaning(stop.arguments) == MembersMeaning(raw.arguments)
    ensures ParseUnsubscribe(size', Some(stop)).Ok?
    ensures SubscriptionId(ParseUnsubscribe(size', Some(stop)).value, principal)
         == SubscriptionId(ParseSubscribe(size, Some(raw)).value.key, principal)
  {
    SubscribeAccepted(size, Some(raw));
    UnsubscribeAccepted(size', Some(stop));
    IdGiven(Key(stop.name, stop.arguments, stop.url), principal);
    IdGiven(Key(raw.name, raw.arguments, raw.url), principal);
    if Fits(principal, 1024) {
      IdDecidesTuple(Key(stop.name, stop.arguments, stop.url), principal,
                     Key(raw.name, raw.arguments, raw.url), principal);
    }
  }
}

/** The byte identity of a JSON payload. */
module JsonIdentity {
  import opened Json
  import opened CanonicalJson
  import opened Utf8
  import opened Hashing
  import JsonText

  function CanonicalBytes(v: Value): (bytes: seq<byte>)
  {
    Encode(JsonText.Print(OrderKeys(v)))
  }

  lemma {:induction false} CanonicalIsWellFormed(v: Value)
    requires Canonical(v)
    ensures WellFormed(v)
  {
    match v
    case Array(items) => CanonicalItemsWellFormed(items);
    case Object(members) => CanonicalMembersWellFormed(members);
    case _ =>
  }

  lemma {:induction false} CanonicalItemsWellFormed(items: seq<Value>)
    requires CanonicalItems(items)
    ensures WellFormedItems(items)
  {
    if items != [] {
      CanonicalIsWellFormed(items[0]);
      CanonicalItemsWellFormed(items[1..]);
    }
  }

  lemma {:induction false} CanonicalMembersWellFormed(members: seq<Member>)
    requires CanonicalMembers(members)
    ensures WellFormedMembers(members)
  {
    if members != [] {
      CanonicalIsWellFormed(members[0].value);
      BelowExcludes(members[0].key, members[1..]);
      CanonicalMembersWellFormed(members[1..]);
    }
  }

  /** Canonical bytes are equal exactly when the values differ at most in object-key order. */
  lemma BytesDecideMeaning(v: Value, w: Value)
    requires WellFormed(v) && WellFormed(w)
    ensures CanonicalBytes(v) == CanonicalBytes(w) <==> Meaning(v) == Meaning(w)
  {
    OrderDecidesMeaning(v, w);
    OrderIsCanonical(v);
    OrderIsCanonical(w);
    CanonicalIsWellFormed(OrderKeys(v));
    CanonicalIsWellFormed(OrderKeys(w));
    if CanonicalBytes(v) == CanonicalBytes(w) {
      EncodeInjective(JsonText.Print(OrderKeys(v)), JsonText.Print(OrderKeys(w)));
      JsonText.PrintInjective(OrderKeys(v), OrderKeys(w));
    }
  }

  /** Re-canonicalising changes nothing. */
  lemma OrderIdempotent(v: Value)
    requires WellFormed(v)
    ensures OrderKeys(OrderKeys(v)) == OrderKeys(v)
  {
    OrderKeepsMeaning(v);
    OrderIsCanonical(v);
    CanonicalIsWellFormed(OrderKeys(v));
    OrderDecidesMeaning(OrderKeys(v), v);
  }

  datatype Identity = Identity(bytes: seq<byte>, sha256: Digest)

  /** The identity keeps its bytes and their digest together; it decides meaning, and so does its digest. */
  method NewIdentity(v: Value) returns (identity: Identity)
    requires WellFormed(v)
    ensures identity.sha256 == Sha256(identity.bytes)
    ensures forall w :: WellFormed(w) ==> (identity.bytes == CanonicalBytes(w) <==> Meaning(v) == Meaning(w))
  {
    var ordered := OrderObjectKeys(v);
    var bytes := Encode(JsonText.Print(ordered));
    identity := Identity(bytes, Sha256(bytes));
    forall w | WellFormed(w) ensures identity.bytes == CanonicalBytes(w) <==> Meaning(v) == Meaning(w) {
      BytesDecideMeaning(v, w);
    }
  }
}

/** Compact, recursively key-ordered JSON: its bytes decide equality up to object-key order. */
module CanonicalJson {
  import opened Json
  import Sorting

  // ----- Values a serde_json map can hold -----

  predicate IsNumberChar(c: char)
  {
    '0' <= c <= '9' || c == '-' || c == '+' || c == '.' || c == 'e' || c == 'E'
  }

  predicate AllNumberChars(token: string)
  {
    token == "" || (IsNumberChar(token[0]) && AllNumberChars(token[1..]))
  }

  predicate IsNumberToken(token: string)
  {
    token != "" && (token[0] == '-' || '0' <= token[0] <= '9') && AllNumberChars(token)
  }

  predicate HasKey(members: seq<Member>, key: string)
  {
    members != [] && (members[0].key == key || HasKey(members[1..], key))
  }

  /** No object repeats a key, at any depth; numbers are printed tokens. */
  predicate WellFormed(v: Value)
  {
    match v
    case Number(token) => IsNumberToken(token)
    case Array(items) => WellFormedItems(items)
    case Object(members) => WellFormedMembers(members)
    case _ => true
  }

  predicate WellFormedItems(items: seq<Value>)
  {
    items == [] || (WellFormed(items[0]) && WellFormedItems(items[1..]))
  }

  predicate WellFormedMembers(members: seq<Member>)
  {
    members == [] ||
    (!HasKey(members[1..], members[0].key) && WellFormed(members[0].value) && WellFormedMembers(members[1..]))
  }

  // ----- Key ordering -----

  function InsertMember(m: Member, members: seq<Member>): (r: seq<Member>)
  {
    if members == [] || Sorting.Leq(m.key, members[0].key) then [m] + members
    else [members[0]] + InsertMember(m, members[1..])
  }

  function SortMembers(members: seq<Member>): (r: seq<Member>)
  {
    if members == [] then [] else InsertMember(members[0], SortMembers(members[1..]))
  }

  /** Members by ascending key at every depth; arrays keep their order. */
  function OrderKeys(v: Value): (ordered: Value)
  {
    match v
    case Array(items) => Array(OrderItems(items))
    case Object(members) => Object(SortMembers(OrderValues(members)))
    case _ => v
  }

  function OrderItems(items: seq<Value>): (ordered: seq<Value>)
  {
    if items == [] then [] else [OrderKeys(items[0])] + OrderItems(items[1..])
  }

  function OrderValues(members: seq<Member>): (ordered: seq<Member>)
    ensures |ordered| == |members|
  {
    if members == [] then []
    else [Member(members[0].key, OrderKeys(members[0].value))] + OrderValues(members[1..])
  }

  lemma {:induction false} OrderValuesInsert(m: Member, members: seq<Member>)
    ensures OrderValues(InsertMember(m, members))
         == InsertMember(Member(m.key, OrderKeys(m.value)), OrderValues(members))
  {
    if members == [] {
      assert [m] + members == [m];
    } else if Sorting.Leq(m.key, members[0].key) {
      assert ([m] + members)[1..] == members;
    } else {
      OrderValuesInsert(m, members[1..]);
      assert InsertMember(m, members)[1..] == InsertMember(m, members[1..]);
      assert OrderValues(members)[1..] == OrderValues(members[1..]);
    }
  }

  /** Ordering values and sorting members commute, so the source's sort-then-recurse is the same. */
  lemma {:induction false} OrderValuesSort(members: seq<Member>)
    ensures OrderValues(SortMembers(members)) == SortMembers(OrderValues(members))
  {
    if members != [] {
      OrderValuesInsert(members[0], SortMembers(members[1..]));
      OrderValuesSort(members[1..]);
      assert OrderValues(members)[1..] == OrderValues(members[1..]);
    }
  }

  lemma {:induction false} InsertMembership(m: Member, members: seq<Member>)
    ensures forall x :: x in InsertMember(m, members) <==> x == m || x in members
  {
    if members != [] && !Sorting.Leq(m.key, members[0].key) {
      InsertMembership(m, members[1..]);
    }
  }

  lemma {:induction false} SortMembership(members: seq<Member>)
    ensures forall x :: x in SortMembers(members) <==> x in members
  {
    if members != [] {
      SortMembership(members[1..]);
      InsertMembership(members[0], SortMembers(members[1..]));
    }
  }

  lemma {:induction false} OrderValuesAppend(a: seq<Member>, m: Member)
    ensures OrderValues(a + [m]) == OrderValues(a) + [Member(m.key, OrderKeys(m.value))]
  {
    if a == [] {
      assert a + [m] == [m];
    } else {
      OrderValuesAppend(a[1..], m);
      assert (a + [m])[1..] == a[1..] + [m];
    }
  }

  lemma {:induction false} OrderItemsAppend(a: seq<Value>, v: Value)
    ensures OrderItems(a + [v]) == OrderItems(a) + [OrderKeys(v)]
  {
    if a == [] {
      assert a + [v] == [v];
    } else {
      OrderItemsAppend(a[1..], v);
      assert (a + [v])[1..] == a[1..] + [v];
    }
  }

  /** Sort the members, then rebuild the object entry by entry. */
  method OrderObjectKeys(v: Value) returns (ordered: Value)
    ensures ordered == OrderKeys(v)
    decreases v
  {
    match v {
      case Object(members) =>
        var sorted := SortMembers(members);
        SortMembership(members);
        OrderValuesSort(members);
        var out: seq<Member> := [];
        for i := 0 to |sorted|
          invariant out == OrderValues(sorted[..i])
        {
          assert sorted[i] in members;
          var nested := OrderObjectKeys(sorted[i].value);
          OrderValuesAppend(sorted[..i], sorted[i]);
          assert sorted[..i + 1] == sorted[..i] + [sorted[i]];
          out := out + [Member(sorted[i].key, nested)];
        }
        assert sorted[..|sorted|] == sorted;
        ordered := Object(out);
      case Array(items) =>
        var out: seq<Value> := [];
        for i := 0 to |items|
          invariant out == OrderItems(items[..i])
        {
          var nested := OrderObjectKeys(items[i]);
          OrderItemsAppend(items[..i], items[i]);
          assert items[..i + 1] == items[..i] + [items[i]];
          out := out + [nested];
        }
        assert items[..|items|] == items;
        ordered := Array(out);
      case _ => ordered := v;
    }
  }

  // ----- Meaning: objects as unordered maps -----

  datatype Tree =
    | TreeNull
    | TreeBool(value: bool)
    | TreeNumber(token: string)
    | TreeString(text: string)
    | TreeArray(items: seq<Tree>)
    | TreeObject(members: map<string, Tree>)

  /** The reference notion of equality: a value with the order of its object members forgotten. */
  function Meaning(v: Value): (m: Tree)
  {
    match v
    case Null => TreeNull
    case Bool(b) => TreeBool(b)
    case Number(token) => TreeNumber(token)
    case String(text) => TreeString(text)
    case Array(items) => TreeArray(ItemsMeaning(items))
    case Object(members) => TreeObject(MembersMeaning(members))
  }

  function ItemsMeaning(items: seq<Value>): (m: seq<Tree>)
  {
    if items == [] then [] else [Meaning(items[0])] + ItemsMeaning(items[1..])
  }

  function MembersMeaning(members: seq<Member>): (m: map<string, Tree>)
  {
    if members == [] then map[] else MembersMeaning(members[1..])[members[0].key := Meaning(members[0].value)]
  }

  lemma {:induction false} KeysOfMeaning(members: seq<Member>, key: string)
    ensures key in MembersMeaning(members) <==> HasKey(members, key)
  {
    if members != [] { KeysOfMeaning(members[1..], key); }
  }

  /** A fresh key can be inserted anywhere. */
  lemma {:induction false} InsertMeaning(m: Member, members: seq<Member>)
    requires !HasKey(members, m.key)
    ensures MembersMeaning(InsertMember(m, members)) == MembersMeaning(members)[m.key := Meaning(m.value)]
  {
    if members == [] || Sorting.Leq(m.key, members[0].key) {
      assert ([m] + members)[1..] == members;
    } else {
      InsertMeaning(m, members[1..]);
      assert InsertMember(m, members)[1..] == InsertMember(m, members[1..]);
    }
  }

  lemma {:induction false} InsertKeys(m: Member, members: seq<Member>, key: string)
    ensures HasKey(InsertMember(m, members), key) <==> key == m.key || HasKey(members, key)
  {
    if members == [] || Sorting.Leq(m.key, members[0].key) {
      assert ([m] + members)[1..] == members;
    } else {
      InsertKeys(m, members[1..], key);
      assert InsertMember(m, members)[1..] == InsertMember(m, members[1..]);
    }
  }

  /** Sorting the ordered members keeps the keys of the originals. */
  lemma {:induction false} OrderedKeys(members: seq<Member>, key: string)
    ensures HasKey(SortMembers(OrderValues(members)), key) <==> HasKey(members, key)
  {
    if members != [] {
      var head := Member(members[0].key, OrderKeys(members[0].value));
      assert OrderValues(members)[1..] == OrderValues(members[1..]);
      InsertKeys(head, SortMembers(OrderValues(members[1..])), key);
      OrderedKeys(members[1..], key);
    }
  }

  /** Key ordering preserves meaning. */
  lemma {:induction false} OrderKeepsMeaning(v: Value)
    requires WellFormed(v)
    ensures Meaning(OrderKeys(v)) == Meaning(v)
  {
    match v
    case Array(items) => OrderKeepsItems(items);
    case Object(members) => OrderKeepsMembers(members);
    case _ =>
  }

  lemma {:induction false} OrderKeepsItems(items: seq<Value>)
    requires WellFormedItems(items)
    ensures ItemsMeaning(OrderItems(items)) == ItemsMeaning(items)
  {
    if items != [] {
      OrderKeepsMeaning(items[0]);
      OrderKeepsItems(items[1..]);
      assert OrderItems(items)[1..] == OrderItems(items[1..]);
    }
  }

  lemma {:induction false} OrderKeepsMembers(members: seq<Member>)
    requires WellFormedMembers(members)
    ensures MembersMeaning(SortMembers(OrderValues(members))) == MembersMeaning(members)
  {
    if members != [] {
      var head := Member(members[0].key, OrderKeys(members[0].value));
      assert OrderValues(members)[1..] == OrderValues(members[1..]);
      OrderedKeys(members[1..], head.key);
      InsertMeaning(head, SortMembers(OrderValues(members[1..])));
      OrderKeepsMeaning(members[0].value);
      OrderKeepsMembers(members[1..]);
    }
  }

  // ----- Canonical values -----

  predicate Below(key: string, members: seq<Member>)
  {
    members == [] || (Sorting.Less(key, members[0].key) && Below(key, members[1..]))
  }

  /** Object keys strictly ascend at every depth. */
  predicate Canonical(v: Value)
  {
    match v
    case Number(token) => IsNumberToken(token)
    case Array(items) => CanonicalItems(items)
    case Object(members) => CanonicalMembers(members)
    case _ => true
  }

  predicate CanonicalItems(items: seq<Value>)
  {
    items == [] || (Canonical(items[0]) && CanonicalItems(items[1..]))
  }

  predicate CanonicalMembers(members: seq<Member>)
  {
    members == [] ||
    (Canonical(members[0].value) && Below(members[0].key, members[1..]) && CanonicalMembers(members[1..]))
  }

  lemma LessTransitive(a: string, b: string, c: string)
    requires Sorting.Less(a, b) && Sorting.Less(b, c)
    ensures Sorting.Less(a, c)
  {
    Sorting.LeqTransitive(a, b, c);
    if a == c { Sorting.LeqAntisymmetric(a, b); }
  }

  lemma {:induction false} BelowAll(a: string, b: string, members: seq<Member>)
    requires Sorting.Less(a, b) && Below(b, members)
    ensures Below(a, members)
  {
    if members != [] {
      LessTransitive(a, b, members[0].key);
      BelowAll(a, b, members[1..]);
    }
  }

  lemma {:induction false} BelowInsert(key: string, m: Member, members: seq<Member>)
    requires Sorting.Less(key, m.key) && Below(key, members)
    ensures Below(key, InsertMember(m, members))
  {
    if members == [] || Sorting.Leq(m.key, members[0].key) {
      assert ([m] + members)[1..] == members;
    } else {
      BelowInsert(key, m, members[1..]);
      assert InsertMember(m, members)[1..] == InsertMember(m, members[1..]);
    }
  }

  lemma {:induction false} BelowExcludes(key: string, members: seq<Member>)
    requires Below(key, members)
    ensures !HasKey(members, key)
  {
    if members != [] { BelowExcludes(key, members[1..]); }
  }

  lemma {:induction false} InsertCanonical(m: Member, members: seq<Member>)
    requires Canonical(m.value) && CanonicalMembers(members) && !HasKey(members, m.key)
    ensures CanonicalMembers(InsertMember(m, members))
  {
    if members == [] {
      assert ([m] + members)[1..] == [];
    } else if Sorting.Leq(m.key, members[0].key) {
      assert ([m] + members)[1..] == members;
      BelowAll(m.key, members[0].key, members[1..]);
    } else {
      Sorting.LeqTotal(m.key, members[0].key);
      InsertCanonical(m, members[1..]);
      BelowInsert(members[0].key, m, members[1..]);
      assert InsertMember(m, members)[1..] == InsertMember(m, members[1..]);
    }
  }

  /** Ordering yields a canonical value. */
  lemma {:induction false} OrderIsCanonical(v: Value)
    requires WellFormed(v)
    ensures Canonical(OrderKeys(v))
  {
    match v
    case Array(items) => OrderItemsCanonical(items);
    case Object(members) => OrderMembersCanonical(members);
    case _ =>
  }

  lemma {:induction false} OrderItemsCanonical(items: seq<Value>)
    requires WellFormedItems(items)
    ensures CanonicalItems(OrderItems(items))
  {
    if items != [] {
      OrderIsCanonical(items[0]);
      OrderItemsCanonical(items[1..]);
      assert OrderItems(items)[1..] == OrderItems(items[1..]);
    }
  }

  lemma {:induction false} OrderMembersCanonical(members: seq<Member>)
    requires WellFormedMembers(members)
    ensures CanonicalMembers(SortMembers(OrderValues(members)))
  {
    if members != [] {
      var head := Member(members[0].key, OrderKeys(members[0].value));
      assert OrderValues(members)[1..] == OrderValues(members[1..]);
      OrderIsCanonical(members[0].value);
      OrderMembersCanonical(members[1..]);
      OrderedKeys(members[1..], head.key);
      InsertCanonical(head, SortMembers(OrderValues(members[1..])));
    }
  }

  /** Canonical values are determined by their meaning. */
  lemma {:induction false} CanonicalUnique(v: Value, w: Value)
    requires Canonical(v) && Canonical(w) && Meaning(v) == Meaning(w)
    ensures v == w
    decreases v
  {
    match v
    case Array(items) => CanonicalItemsUnique(items, w.items);
    case Object(members) => CanonicalMembersUnique(members, w.members);
    case _ =>
  }

  lemma {:induction false} CanonicalItemsUnique(xs: seq<Value>, ys: seq<Value>)
    requires CanonicalItems(xs) && CanonicalItems(ys) && ItemsMeaning(xs) == ItemsMeaning(ys)
    ensures xs == ys
    decreases xs
  {
    if xs != [] && ys != [] {
      var s, t := ItemsMeaning(xs), ItemsMeaning(ys);
      assert s[0] == t[0] && s[1..] == ItemsMeaning(xs[1..]) && t[1..] == ItemsMeaning(ys[1..]);
      CanonicalUnique(xs[0], ys[0]);
      CanonicalItemsUnique(xs[1..], ys[1..]);
      assert xs == [xs[0]] + xs[1..] && ys == [ys[0]] + ys[1..];
    }
  }

  /** The least key of one object is the least key of the other. */
  lemma {:induction false} BelowPresent(key: string, members: seq<Member>, other: string)
    requires Below(key, members) && HasKey(members, other)
    ensures Sorting.Less(key, other)
  {
    if members[0].key != other { BelowPresent(key, members[1..], other); }
  }

  lemma HeadsAgree(xs: seq<Member>, ys: seq<Member>)
    requires xs != [] && ys != [] && CanonicalMembers(xs) && CanonicalMembers(ys)
    requires MembersMeaning(xs) == MembersMeaning(ys)
    ensures xs[0].key == ys[0].key
  {
    var x, y := xs[0].key, ys[0].key;
    KeysOfMeaning(ys, x);
    KeysOfMeaning(xs, y);
    if x != y {
      BelowPresent(x, xs[1..], y);
      BelowPresent(y, ys[1..], x);
      Sorting.LeqAntisymmetric(x, y);
    }
  }

  lemma TailMeaning(xs: seq<Member>)
    requires xs != [] && CanonicalMembers(xs)
    ensures MembersMeaning(xs[1..]) == MembersMeaning(xs) - {xs[0].key}
  {
    BelowExcludes(xs[0].key, xs[1..]);
    KeysOfMeaning(xs[1..], xs[0].key);
  }

  lemma {:induction false} CanonicalMembersUnique(xs: seq<Member>, ys: seq<Member>)
    requires CanonicalMembers(xs) && CanonicalMembers(ys) && MembersMeaning(xs) == MembersMeaning(ys)
    ensures xs == ys
    decreases xs
  {
    if xs != [] { assert xs[0].key in MembersMeaning(ys); }
    if ys != [] { assert ys[0].key in MembersMeaning(xs); }
    if xs != [] && ys != [] {
      HeadsAgree(xs, ys);
      CanonicalUnique(xs[0].value, ys[0].value);
      TailMeaning(xs);
      TailMeaning(ys);
      CanonicalMembersUnique(xs[1..], ys[1..]);
      assert xs == [xs[0]] + xs[1..] && ys == [ys[0]] + ys[1..];
    }
  }

  /** Ordering forgets exactly the order of object members. */
  lemma OrderDecidesMeaning(v: Value, w: Value)
    requires WellFormed(v) && WellFormed(w)
    ensures OrderKeys(v) == OrderKeys(w) <==> Meaning(v) == Meaning(w)
  {
    OrderKeepsMeaning(v);
    OrderKeepsMeaning(w);
    OrderIsCanonical(v);
    OrderIsCanonical(w);
    if Meaning(v) == Meaning(w) { CanonicalUnique(OrderKeys(v), OrderKeys(w)); }
  }
}

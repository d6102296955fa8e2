/** Lexicographic order on strings and sorted lists of strings. */
module Sorting {

  /** Rust's `str` order: by code point, a proper prefix first. */
  predicate Leq(a: string, b: string)
  {
    a == "" || (b != "" && (a[0] < b[0] || (a[0] == b[0] && Leq(a[1..], b[1..]))))
  }

  predicate Less(a: string, b: string) { Leq(a, b) && a != b }

  lemma {:induction false} LeqReflexive(a: string)
    ensures Leq(a, a)
  {
    if a != "" { LeqReflexive(a[1..]); }
  }

  lemma {:induction false} LeqTotal(a: string, b: string)
    ensures Leq(a, b) || Leq(b, a)
  {
    if a != "" && b != "" { LeqTotal(a[1..], b[1..]); }
  }

  lemma {:induction false} LeqAntisymmetric(a: string, b: string)
    requires Leq(a, b) && Leq(b, a)
    ensures a == b
  {
    if a != "" && b != "" {
      LeqAntisymmetric(a[1..], b[1..]);
      assert a == [a[0]] + a[1..] && b == [b[0]] + b[1..];
    }
  }

  lemma {:induction false} LeqTransitive(a: string, b: string, c: string)
    requires Leq(a, b) && Leq(b, c)
    ensures Leq(a, c)
  {
    if a != "" && a[0] == b[0] == c[0] { LeqTransitive(a[1..], b[1..], c[1..]); }
  }

  /** Where two texts part: one ends there, or its character is the smaller. */
  predicate PartsAt(a: string, b: string, k: nat)
  {
    && k <= |a| && k <= |b| && a[..k] == b[..k]
    && (k == |a| || (k < |b| && a[k] < b[k]))
  }

  /** The order is decided at the first difference, by code point; a prefix comes first. */
  lemma {:induction false} LeqExactly(a: string, b: string)
    ensures Leq(a, b) <==> exists k: nat :: PartsAt(a, b, k)
  {
    if a == "" {
      assert PartsAt(a, b, 0);
    } else if b != "" && a[0] == b[0] {
      LeqExactly(a[1..], b[1..]);
      if k: nat :| PartsAt(a[1..], b[1..], k) {
        assert a[..k + 1] == [a[0]] + a[1..][..k] && b[..k + 1] == [b[0]] + b[1..][..k];
        assert PartsAt(a, b, k + 1);
      }
      if k: nat :| PartsAt(a, b, k) {
        assert k > 0 && a[1..][..k - 1] == a[..k][1..] && b[1..][..k - 1] == b[..k][1..];
        assert PartsAt(a[1..], b[1..], k - 1);
      }
    } else {
      assert b != "" && a[0] < b[0] ==> PartsAt(a, b, 0);
      if k: nat :| PartsAt(a, b, k) { assert k > 0 ==> a[..k][0] == b[..k][0]; }
    }
  }

  ghost predicate Sorted(s: seq<string>)
  {
    forall i, j :: 0 <= i < j < |s| ==> Leq(s[i], s[j])
  }

  predicate Distinct(s: seq<string>)
  {
    forall i, j :: 0 <= i < j < |s| ==> s[i] != s[j]
  }

  function Insert(x: string, s: seq<string>): (r: seq<string>)
  {
    if s == [] || Leq(x, s[0]) then [x] + s else [s[0]] + Insert(x, s[1..])
  }

  function Sort(s: seq<string>): (r: seq<string>)
  {
    if s == [] then [] else Insert(s[0], Sort(s[1..]))
  }

  lemma {:induction false} InsertFacts(x: string, s: seq<string>)
    requires Sorted(s)
    ensures Sorted(Insert(x, s)) && multiset(Insert(x, s)) == multiset(s) + multiset{x}
    ensures forall y :: y in Insert(x, s) <==> y == x || y in s
  {
    if s != [] {
      assert s == [s[0]] + s[1..];
      if Leq(x, s[0]) {
        forall i | 0 <= i < |s| ensures Leq(x, s[i]) {
          if i > 0 { LeqTransitive(x, s[0], s[i]); }
        }
      } else {
        LeqTotal(x, s[0]);
        InsertFacts(x, s[1..]);
        var r := Insert(x, s[1..]);
        forall i | 0 <= i < |r| ensures Leq(s[0], r[i]) {
          assert r[i] == x || r[i] in s[1..];
        }
      }
    }
  }

  /** Sorting sorts and permutes. */
  lemma {:induction false} SortFacts(s: seq<string>)
    ensures Sorted(Sort(s)) && multiset(Sort(s)) == multiset(s) && |Sort(s)| == |s|
    ensures forall y :: y in Sort(s) <==> y in s
  {
    if s != [] {
      SortFacts(s[1..]);
      InsertFacts(s[0], Sort(s[1..]));
      assert s == [s[0]] + s[1..];
      assert |multiset(Sort(s))| == |Sort(s)| && |multiset(s)| == |s|;
    }
  }

  lemma DistinctTail(s: seq<string>)
    requires s != [] && Distinct(s)
    ensures s[0] !in s[1..] && Distinct(s[1..])
  {
  }

  lemma {:induction false} SortDistinct(s: seq<string>)
    requires Distinct(s)
    ensures Distinct(Sort(s))
  {
    if s != [] {
      DistinctTail(s);
      SortDistinct(s[1..]);
      SortFacts(s[1..]);
      InsertDistinct(s[0], Sort(s[1..]));
    }
  }

  lemma {:induction false} InsertDistinct(x: string, s: seq<string>)
    requires Sorted(s) && Distinct(s) && x !in s
    ensures Distinct(Insert(x, s))
  {
    if s != [] && !Leq(x, s[0]) {
      DistinctTail(s);
      InsertDistinct(x, s[1..]);
      InsertFacts(x, s[1..]);
      assert s[0] in s;
    }
  }

  /** A sorted list without repeats is determined by its set of elements. */
  lemma {:induction false} SortedDistinctUnique(s: seq<string>, t: seq<string>)
    requires Sorted(s) && Distinct(s) && Sorted(t) && Distinct(t)
    requires forall x :: x in s <==> x in t
    ensures s == t
    decreases |s|
  {
    assert s != [] ==> s[0] in t;
    assert t != [] ==> t[0] in s;
    if s != [] {
      assert Leq(s[0], t[0]) && Leq(t[0], s[0]) by {
        LeqReflexive(s[0]);
        var i :| 0 <= i < |s| && s[i] == t[0];
        var j :| 0 <= j < |t| && t[j] == s[0];
        LeqReflexive(t[0]);
      }
      LeqAntisymmetric(s[0], t[0]);
      DistinctTail(s);
      DistinctTail(t);
      forall x ensures x in s[1..] <==> x in t[1..] {
        assert x in s <==> x == s[0] || x in s[1..];
        assert x in t <==> x == t[0] || x in t[1..];
      }
      SortedDistinctUnique(s[1..], t[1..]);
      assert s == [s[0]] + s[1..] && t == [t[0]] + t[1..];
    }
  }

  /** Sorting forgets exactly the order. */
  lemma SortIsCanonical(s: seq<string>, t: seq<string>)
    requires Distinct(s) && Distinct(t)
    ensures Sort(s) == Sort(t) <==> (forall x :: x in s <==> x in t)
  {
    SortFacts(s);
    SortFacts(t);
    SortDistinct(s);
    SortDistinct(t);
    if forall x :: x in s <==> x in t {
      SortedDistinctUnique(Sort(s), Sort(t));
    }
  }
}

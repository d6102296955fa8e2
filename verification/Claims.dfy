/** Token claims and the merge of signed claims with an introspection response. */
module Claims {
  import opened Text
  import opened Json

  const CNF := "cnf"

  function Find(members: seq<Member>, key: string): (found: Option<Value>)
  {
    if members == [] then None
    else if members[0].key == key then Some(members[0].value)
    else Find(members[1..], key)
  }

  /** `Value::get`: a member of an object, nothing for any other value. */
  function Get(claims: Value, key: string): (found: Option<Value>)
  {
    if claims.Object? then Find(claims.members, key) else None
  }

  function AsText(v: Option<Value>): (text: Option<string>)
  {
    if v.Some? && v.value.String? then Some(v.value.text) else None
  }

  /** A string claim, trimmed, if anything is left. */
  function TrimmedText(claims: Value, key: string): (text: Option<string>)
  {
    match AsText(Get(claims, key))
    case Some(t) => if Trim(t) == "" then None else Some(Trim(t))
    case None => None
  }

  predicate HasConfirmationClaim(claims: Value) { Get(claims, CNF).Some? }

  function ConfirmationJkt(claims: Value): (jkt: Option<string>)
  {
    match Get(claims, CNF)
    case Some(cnf) =>
      var jkt := AsText(Get(cnf, "jkt"));
      if jkt.Some? && jkt.value != "" then jkt else None
    case None => None
  }

  /** The claim is this text, once trimmed, and not blank. */
  predicate IsText(claims: Value, key: string, text: string)
  {
    Get(claims, key).Some? && Get(claims, key).value.String? && Trim(Get(claims, key).value.text) == text != ""
  }

  /** The claims confirm the key with this thumbprint. */
  predicate Confirms(claims: Value, jkt: string)
  {
    Get(claims, "cnf").Some? && Get(Get(claims, "cnf").value, "jkt") == Some(String(jkt)) && jkt != ""
  }

  lemma ClaimExactly(claims: Value, key: string, text: string)
    ensures TrimmedText(claims, key) == Some(text) <==> IsText(claims, key, text)
    ensures ConfirmationJkt(claims) == Some(text) <==> Confirms(claims, text)
    ensures HasConfirmationClaim(claims) <==> Get(claims, "cnf").Some?
  {
  }

  /** `Map::insert`: replace the value of a present key, add an absent one. */
  function Put(members: seq<Member>, key: string, value: Value): (r: seq<Member>)
  {
    if members == [] then [Member(key, value)]
    else if members[0].key == key then [Member(key, value)] + members[1..]
    else [members[0]] + Put(members[1..], key, value)
  }

  lemma {:induction false} FindPut(members: seq<Member>, key: string, value: Value, k: string)
    ensures Find(Put(members, key, value), k) == if k == key then Some(value) else Find(members, k)
  {
    if members != [] && members[0].key != key {
      FindPut(members[1..], key, value, k);
      assert Put(members, key, value)[1..] == Put(members[1..], key, value);
    }
  }

  /** An object has exactly its members; nothing else has any. */
  lemma GetExactly(claims: Value, key: string, value: Value)
    requires claims.Object? ==> DistinctKeys(claims.members)
    ensures Get(claims, key) == Some(value) <==> claims.Object? && Member(key, value) in claims.members
  {
    if claims.Object? { FindExactly(claims.members, key, value); }
  }

  lemma {:induction false} FindExactly(members: seq<Member>, key: string, value: Value)
    requires DistinctKeys(members)
    ensures Find(members, key) == Some(value) <==> Member(key, value) in members
  {
    if members != [] {
      FindExactly(members[1..], key, value);
      assert members == [members[0]] + members[1..];
    }
  }

  /** What looking up a key in the merge of two claim sets must give. */
  function MergedLookup(primary: Value, secondary: Value, key: string): (found: Option<Value>)
  {
    if !primary.Object? || !secondary.Object? then Get(primary, key)
    else if key == CNF && Get(primary, CNF).Some? then Get(primary, CNF)
    else if Get(secondary, key).Some? then Get(secondary, key)
    else Get(primary, key)
  }

  predicate DistinctKeys(members: seq<Member>)
  {
    forall i, j :: 0 <= i < j < |members| ==> members[i].key != members[j].key
  }

  /** The insertion loop, from the first `n` members of the response. */
  function Overlay(base: seq<Member>, extra: seq<Member>, n: nat): (r: seq<Member>)
    requires n <= |extra|
  {
    if n == 0 then base else Put(Overlay(base, extra, n - 1), extra[n - 1].key, extra[n - 1].value)
  }

  lemma {:induction false} FindPrefix(members: seq<Member>, n: nat, k: string)
    requires n < |members| && DistinctKeys(members)
    ensures Find(members[..n + 1], k) == if members[n].key == k then Some(members[n].value) else Find(members[..n], k)
  {
    var longer, shorter := members[..n + 1], members[..n];
    if n > 0 {
      assert DistinctKeys(members[1..]);
      FindPrefix(members[1..], n - 1, k);
      assert longer[1..] == members[1..][..n] && shorter[1..] == members[1..][..n - 1];
      assert members[1..][n - 1] == members[n];
    }
  }

  lemma {:induction false} FindOverlay(base: seq<Member>, extra: seq<Member>, n: nat, k: string)
    requires n <= |extra| && DistinctKeys(extra)
    ensures Find(Overlay(base, extra, n), k) ==
      if Find(extra[..n], k).Some? then Find(extra[..n], k) else Find(base, k)
  {
    if n > 0 {
      FindOverlay(base, extra, n - 1, k);
      FindPut(Overlay(base, extra, n - 1), extra[n - 1].key, extra[n - 1].value, k);
      FindPrefix(extra, n - 1, k);
    }
  }

  function MergeClaims(primary: Value, secondary: Value): (merged: Value)
  {
    if !primary.Object? || !secondary.Object? then primary
    else
      var overlaid := Overlay(primary.members, secondary.members, |secondary.members|);
      var cnf := Get(primary, CNF);
      Object(if cnf.Some? then Put(overlaid, CNF, cnf.value) else overlaid)
  }

  method MergeClaimsLoop(primary: Value, secondary: Value) returns (merged: Value)
    ensures merged == MergeClaims(primary, secondary)
  {
    if !primary.Object? || !secondary.Object? {
      return primary;
    }
    var members := primary.members;
    for i := 0 to |secondary.members|
      invariant members == Overlay(primary.members, secondary.members, i)
    {
      members := Put(members, secondary.members[i].key, secondary.members[i].value);
    }
    var confirmation := Get(primary, CNF);
    if confirmation.Some? {
      members := Put(members, CNF, confirmation.value);
    }
    merged := Object(members);
  }

  /** The response wins on every key except a confirmation claim that was signed. */
  lemma MergeLookup(primary: Value, secondary: Value, key: string)
    requires secondary.Object? ==> DistinctKeys(secondary.members)
    ensures Get(MergeClaims(primary, secondary), key) == MergedLookup(primary, secondary, key)
  {
    if primary.Object? && secondary.Object? {
      var n := |secondary.members|;
      FindOverlay(primary.members, secondary.members, n, key);
      assert secondary.members[..n] == secondary.members;
      var cnf := Get(primary, CNF);
      if cnf.Some? {
        FindPut(Overlay(primary.members, secondary.members, n), CNF, cnf.value, key);
      }
    }
  }

  /** No introspection response can erase or replace a signed confirmation claim. */
  lemma SignedConfirmationSurvives(primary: Value, secondary: Value)
    requires secondary.Object? ==> DistinctKeys(secondary.members)
    requires HasConfirmationClaim(primary)
    ensures Get(MergeClaims(primary, secondary), CNF) == Get(primary, CNF)
    ensures ConfirmationJkt(MergeClaims(primary, secondary)) == ConfirmationJkt(primary)
  {
    MergeLookup(primary, secondary, CNF);
  }

  // ----- Scopes -----

  function RunLength(s: string): (n: nat)
    ensures n <= |s| && (forall k :: 0 <= k < n ==> !IsWhitespace(s[k])) && (n < |s| ==> IsWhitespace(s[n]))
  {
    if s == "" || IsWhitespace(s[0]) then 0 else 1 + RunLength(s[1..])
  }

  /** `split_whitespace`: the maximal runs without white space. */
  function Words(s: string): (words: seq<string>)
    decreases |s|
  {
    if s == "" then []
    else if IsWhitespace(s[0]) then Words(s[1..])
    else [s[..RunLength(s)]] + Words(s[RunLength(s)..])
  }

  predicate IsWord(w: string) { w != "" && forall i :: 0 <= i < |w| ==> !IsWhitespace(w[i]) }

  /** A word ends at the next white space. */
  lemma WordsOfWord(w: string, rest: string)
    requires IsWord(w) && (rest == "" || IsWhitespace(rest[0]))
    ensures Words(w + rest) == [w] + Words(rest)
  {
    var s := w + rest;
    var n := RunLength(s);
    assert s[0] == w[0];
    assert forall k :: 0 <= k < |w| ==> s[k] == w[k];
    assert rest != "" ==> s[|w|] == rest[0];
    assert s[..|w|] == w && s[|w|..] == rest;
  }

  /** Words written with one white-space character between them are read back as they were. */
  lemma {:induction false} WordsOfJoined(words: seq<string>, space: char)
    requires IsWhitespace(space) && forall i :: 0 <= i < |words| ==> IsWord(words[i])
    ensures Words(Join(words, [space])) == words
  {
    if words != [] {
      var rest := words[1..];
      assert words == [words[0]] + rest;
      JoinCons(words[0], rest, [space]);
      if rest == [] {
        WordsOfWord(words[0], "");
        assert words[0] + "" == words[0];
      } else {
        var tail := [space] + Join(rest, [space]);
        WordsOfWord(words[0], tail);
        WordsOfJoined(rest, space);
        assert tail[1..] == Join(rest, [space]);
      }
    }
  }

  function TextItems(items: seq<Value>): (texts: seq<string>)
  {
    if items == [] then []
    else
      var rest := TextItems(items[1..]);
      if items[0].String? && Trim(items[0].text) != "" then [Trim(items[0].text)] + rest else rest
  }

  function ExtractScopes(claims: Value): (scopes: seq<string>)
  {
    match ScopeClaim(claims)
    case Some(String(text)) => Words(text)
    case Some(Array(items)) => TextItems(items)
    case _ => []
  }

  // ----- Which scopes a token has -----

  /** The word stands between these two parts of the text, touched by white space only. */
  predicate WordBetween(text: string, front: string, w: string, back: string)
  {
    && text == front + w + back && IsWord(w)
    && (front == "" || IsWhitespace(front[|front| - 1])) && (back == "" || IsWhitespace(back[0]))
  }

  ghost predicate IsWordOf(w: string, text: string) { exists front, back :: WordBetween(text, front, w, back) }

  lemma WordFurther(pre: string, s: string, front: string, w: string, back: string)
    requires WordBetween(s, front, w, back) && (front != "" || pre == "" || IsWhitespace(pre[|pre| - 1]))
    ensures WordBetween(pre + s, pre + front, w, back)
  {
    ConcatAssociative(pre, front + w, back);
    ConcatAssociative(pre, front, w);
  }

  /** Behind a run there is white space, so no word starts there. */
  lemma NotAtOnce(s: string, front: string, w: string, back: string)
    requires WordBetween(s, front, w, back) && IsWhitespace(s[0])
    ensures front != ""
  {
    assert front == "" ==> front + w + back == w + back;
  }

  lemma {:induction false} WordPosition(s: string, w: string) returns (front: string, back: string)
    requires w in Words(s)
    ensures WordBetween(s, front, w, back)
    decreases |s|
  {
    var n := if IsWhitespace(s[0]) then 1 else RunLength(s);
    var pre, rest := s[..n], s[n..];
    assert s == pre + rest;
    if !IsWhitespace(s[0]) && w == pre {
      front, back := "", rest;
      assert "" + w + rest == s;
    } else {
      front, back := WordPosition(rest, w);
      if !IsWhitespace(s[0]) { NotAtOnce(rest, front, w, back); }
      WordFurther(pre, rest, front, w, back);
      front := pre + front;
    }
  }

  /** In front of white space, the leading run is that of the part before it. */
  lemma {:induction false} RunOfFront(front: string, rest: string)
    requires front != "" && IsWhitespace(front[|front| - 1])
    ensures RunLength(front + rest) == RunLength(front) < |front|
  {
    assert (front + rest)[0] == front[0] && (front + rest)[1..] == front[1..] + rest;
    if !IsWhitespace(front[0]) { RunOfFront(front[1..], rest); }
  }

  lemma {:induction false} WordFound(front: string, w: string, rest: string)
    requires IsWord(w) && (front == "" || IsWhitespace(front[|front| - 1])) && (rest == "" || IsWhitespace(rest[0]))
    ensures w in Words(front + (w + rest))
    decreases |front|
  {
    var tail := w + rest;
    if front == "" {
      WordsOfWord(w, rest);
      assert front + tail == tail;
    } else {
      var s := front + tail;
      RunOfFront(front, tail);
      var n := if IsWhitespace(front[0]) then 1 else RunLength(front);
      assert s[0] == front[0] && s[n..] == front[n..] + tail;
      WordFound(front[n..], w, rest);
    }
  }

  lemma {:induction false} ItemFound(items: seq<Value>, x: string)
    ensures x in TextItems(items) <==> IsItemOf(x, items)
  {
    if items != [] {
      ItemFound(items[1..], x);
      assert forall k :: 0 <= k < |items[1..]| ==> items[1..][k] == items[k + 1];
      assert items == [items[0]] + items[1..];
      if k :| 0 <= k < |items| && IsScopeItem(items[k], x) { assert k > 0 ==> IsScopeItem(items[1..][k - 1], x); }
      if k :| 0 <= k < |items[1..]| && IsScopeItem(items[1..][k], x) { assert IsScopeItem(items[k + 1], x); }
    }
  }

  predicate IsScopeItem(item: Value, x: string) { item.String? && Trim(item.text) == x && x != "" }

  /** The claim scopes are read from: the first present of three. */
  function ScopeClaim(claims: Value): (scope: Option<Value>)
  {
    if Get(claims, "scope").Some? then Get(claims, "scope")
    else if Get(claims, "scp").Some? then Get(claims, "scp")
    else Get(claims, "scopes")
  }

  ghost predicate IsItemOf(x: string, items: seq<Value>) { exists k :: 0 <= k < |items| && IsScopeItem(items[k], x) }

  /** A word of a text, or one of the texts of a list. */
  ghost predicate ScopeIn(claim: Option<Value>, x: string)
  {
    match claim
    case Some(String(text)) => IsWordOf(x, text)
    case Some(Array(items)) => IsItemOf(x, items)
    case _ => false
  }

  /** Scopes are read from the first of `scope`, `scp` and `scopes` that is there. */
  ghost predicate HasScope(claims: Value, x: string)
  {
    if Get(claims, "scope").Some? then ScopeIn(Get(claims, "scope"), x)
    else if Get(claims, "scp").Some? then ScopeIn(Get(claims, "scp"), x)
    else ScopeIn(Get(claims, "scopes"), x)
  }

  /** A token has exactly the words of its scope text, or the trimmed non-blank texts of its scope list. */
  lemma ScopesExactly(claims: Value, x: string)
    ensures x in ExtractScopes(claims) <==> HasScope(claims, x)
  {
    match ScopeClaim(claims)
    case Some(String(text)) =>
      if x in Words(text) { var front, back := WordPosition(text, x); }
      if IsWordOf(x, text) {
        var front, back :| WordBetween(text, front, x, back);
        ConcatAssociative(front, x, back);
        WordFound(front, x, back);
      }
    case Some(Array(items)) => ItemFound(items, x);
    case _ =>
  }
}

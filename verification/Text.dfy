/** Sequence splitting and joining, trimming, and the option/result shapes shared by the models. */
module Text {

  datatype Option<+T> = None | Some(value: T)

  datatype Result<+T, +E> = Ok(value: T) | Err(error: E)

  // ----- str::split and [_]::join -----

  /** The pieces between separators; never empty, as for `str::split`. */
  function Split<T(==)>(s: seq<T>, sep: T): (parts: seq<seq<T>>)
    ensures |parts| >= 1
  {
    if s == [] then [[]]
    else
      var rest := Split(s[1..], sep);
      if s[0] == sep then [[]] + rest else [[s[0]] + rest[0]] + rest[1..]
  }

  function Join<T>(parts: seq<seq<T>>, sep: seq<T>): (s: seq<T>)
  {
    if |parts| == 0 then []
    else if |parts| == 1 then parts[0]
    else parts[0] + sep + Join(parts[1..], sep)
  }

  lemma {:induction false} SplitFree<T>(s: seq<T>, sep: T)
    requires sep !in s
    ensures Split(s, sep) == [s]
  {
    if s != [] {
      SplitFree(s[1..], sep);
      assert [s[0]] + s[1..] == s;
    }
  }

  /** Splitting distributes over a separator anywhere in the text. */
  lemma {:induction false} SplitConcat<T>(a: seq<T>, sep: T, b: seq<T>)
    ensures Split(a + [sep] + b, sep) == Split(a, sep) + Split(b, sep)
  {
    var whole := a + [sep] + b;
    if a == [] {
      assert whole[1..] == b;
    } else {
      assert whole[1..] == a[1..] + [sep] + b;
      SplitConcat(a[1..], sep, b);
    }
  }

  lemma {:induction false} SplitPartsFree<T>(s: seq<T>, sep: T)
    ensures forall i :: 0 <= i < |Split(s, sep)| ==> sep !in Split(s, sep)[i]
  {
    if s != [] {
      SplitPartsFree(s[1..], sep);
    }
  }

  /** Joining separator-free pieces and splitting again gives the pieces back. */
  lemma {:induction false} SplitJoin<T>(parts: seq<seq<T>>, sep: T)
    requires |parts| >= 1
    requires forall i :: 0 <= i < |parts| ==> sep !in parts[i]
    ensures Split(Join(parts, [sep]), sep) == parts
  {
    SplitFree(parts[0], sep);
    if |parts| > 1 {
      SplitJoin(parts[1..], sep);
      SplitConcat(parts[0], sep, Join(parts[1..], [sep]));
      assert parts == [parts[0]] + parts[1..];
    }
  }

  lemma {:induction false} JoinSplit<T>(s: seq<T>, sep: T)
    ensures Join(Split(s, sep), [sep]) == s
  {
    if s != [] {
      var rest := Split(s[1..], sep);
      JoinSplit(s[1..], sep);
      var parts := Split(s, sep);
      if s[0] == sep {
        assert parts[1..] == rest;
      } else if |rest| > 1 {
        assert parts[1..] == rest[1..];
      }
    }
  }

  lemma JoinCons<T>(a: seq<T>, rest: seq<seq<T>>, sep: seq<T>)
    ensures Join([a] + rest, sep) == if rest == [] then a else a + (sep + Join(rest, sep))
  {
    var parts := [a] + rest;
    if rest != [] {
      assert parts[1..] == rest;
      assert Join(parts, sep) == a + sep + Join(rest, sep);
    }
  }

  lemma ConcatAssociative<T>(a: seq<T>, b: seq<T>, c: seq<T>)
    ensures a + (b + c) == (a + b) + c
  {
  }

  /** A sequence around one of its elements. */
  lemma Around<T>(s: seq<T>, i: nat)
    requires i < |s|
    ensures s[..i + 1] == s[..i] + [s[i]] && s == s[..i] + [s[i]] + s[i + 1..]
  {
  }

  lemma ConcatLast<T>(s: seq<T>, t: seq<T>)
    requires t != []
    ensures s + t == (s + t[..|t| - 1]) + [t[|t| - 1]]
  {
  }

  /** ASCII case folding; texts that fold alike are equal for `eq_ignore_ascii_case`. */
  function AsciiLower(s: string): (r: string)
    ensures |r| == |s|
  {
    seq(|s|, i requires 0 <= i < |s| => if 'A' <= s[i] <= 'Z' then ((s[i] as int) + 32) as char else s[i])
  }

  /** Equal, or the two cases of one ASCII letter. */
  predicate SameLetter(c: char, d: char)
  {
    || c == d
    || ('A' <= c <= 'Z' && 'a' <= d <= 'z' && d as int - c as int == 32)
    || ('a' <= c <= 'z' && 'A' <= d <= 'Z' && c as int - d as int == 32)
  }

  lemma FoldsAlike(a: string, b: string)
    ensures AsciiLower(a) == AsciiLower(b) <==> |a| == |b| && forall i :: 0 <= i < |a| ==> SameLetter(a[i], b[i])
  {
    var x, y := AsciiLower(a), AsciiLower(b);
    if |a| == |b| {
      assert forall i :: 0 <= i < |a| ==> (x[i] == y[i] <==> SameLetter(a[i], b[i]));
    }
  }

  // ----- str::trim -----

  /** The Unicode White_Space property, as tested by `char::is_whitespace`. */
  predicate IsWhitespace(c: char)
  {
    var n := c as int;
    || 0x09 <= n <= 0x0D || n == 0x20 || n == 0x85 || n == 0xA0 || n == 0x1680
    || 0x2000 <= n <= 0x200A || n == 0x2028 || n == 0x2029 || n == 0x202F || n == 0x205F || n == 0x3000
  }

  /** The general category Cc, as tested by `char::is_control`. */
  predicate IsControl(c: char)
  {
    var n := c as int;
    n < 0x20 || 0x7F <= n <= 0x9F
  }

  function TrimStart(s: string): (r: string)
  {
    if s == [] || !IsWhitespace(s[0]) then s else TrimStart(s[1..])
  }

  function TrimEnd(s: string): (r: string)
  {
    if s == [] || !IsWhitespace(s[|s| - 1]) then s else TrimEnd(s[..|s| - 1])
  }

  function Trim(s: string): (r: string)
  {
    TrimEnd(TrimStart(s))
  }

  lemma {:induction false} TrimStartFacts(s: string)
    ensures var r := TrimStart(s);
      && |r| <= |s| && r == s[|s| - |r|..]
      && (r != [] ==> !IsWhitespace(r[0]))
      && forall i :: 0 <= i < |s| - |r| ==> IsWhitespace(s[i])
  {
    if s != [] && IsWhitespace(s[0]) {
      var t, r := s[1..], TrimStart(s);
      TrimStartFacts(t);
      var n := |t| - |r|;
      assert t[n..] == s[n + 1..];
      forall i | 0 <= i < n + 1 ensures IsWhitespace(s[i]) {
        assert i > 0 ==> s[i] == t[i - 1];
      }
    }
  }

  lemma {:induction false} TrimEndFacts(s: string)
    ensures var r := TrimEnd(s);
      && r <= s
      && (r != [] ==> !IsWhitespace(r[|r| - 1]))
      && forall i :: |r| <= i < |s| ==> IsWhitespace(s[i])
  {
    if s != [] && IsWhitespace(s[|s| - 1]) {
      var t, r := s[..|s| - 1], TrimEnd(s);
      TrimEndFacts(t);
      forall i | |r| <= i < |s| ensures IsWhitespace(s[i]) {
        assert i < |t| ==> s[i] == t[i];
      }
    }
  }

  /** Trimming keeps a block of the text and leaves no white space at either end. */
  lemma TrimFacts(s: string)
    ensures forall c :: c in Trim(s) ==> c in s
    ensures Trim(s) != [] ==> !IsWhitespace(Trim(s)[0]) && !IsWhitespace(Trim(s)[|Trim(s)| - 1])
    ensures Trim(s) == [] <==> forall i :: 0 <= i < |s| ==> IsWhitespace(s[i])
  {
    var front := TrimStart(s);
    var r := TrimEnd(front);
    TrimStartFacts(s);
    TrimEndFacts(front);
    if r == [] {
      assert front == [];
    } else {
      assert r[0] == front[0] == s[|s| - |front|];
    }
  }

  predicate AllSpace(s: string) { forall i :: 0 <= i < |s| ==> IsWhitespace(s[i]) }

  lemma {:induction false} TrimStartDrops(front: string, rest: string)
    requires AllSpace(front)
    ensures TrimStart(front + rest) == TrimStart(rest)
  {
    if front == "" {
      assert front + rest == rest;
    } else {
      assert (front + rest)[0] == front[0] && (front + rest)[1..] == front[1..] + rest;
      TrimStartDrops(front[1..], rest);
    }
  }

  lemma {:induction false} TrimEndDrops(rest: string, back: string)
    requires AllSpace(back)
    ensures TrimEnd(rest + back) == TrimEnd(rest)
  {
    if back == "" {
      assert rest + back == rest;
    } else {
      var n := |back| - 1;
      assert (rest + back)[|rest| + n] == back[n] && (rest + back)[..|rest| + n] == rest + back[..n];
      TrimEndDrops(rest, back[..n]);
    }
  }

  /** Trimming gives the text between the outer white space, whatever it is. */
  lemma TrimExactly(front: string, core: string, back: string)
    requires AllSpace(front) && AllSpace(back)
    requires core != "" ==> !IsWhitespace(core[0]) && !IsWhitespace(core[|core| - 1])
    ensures Trim(front + core + back) == core
  {
    ConcatAssociative(front, core, back);
    TrimStartDrops(front, core + back);
    TrimEndDrops(core, back);
    if core == "" {
      assert core + back == back;
      TrimStartDrops(back, "");
      assert back + "" == back;
    }
  }

  /** A text is its own trimming exactly when no white space is outermost. */
  lemma TrimmedExactly(s: string)
    ensures Trim(s) == s <==> s == "" || (!IsWhitespace(s[0]) && !IsWhitespace(s[|s| - 1]))
  {
    TrimFacts(s);
    if s != "" && !IsWhitespace(s[0]) && !IsWhitespace(s[|s| - 1]) {
      TrimExactly("", s, "");
      assert "" + s + "" == s;
    }
  }
}

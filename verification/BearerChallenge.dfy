/** Bearer WWW-Authenticate challenges: a conforming parser reads back exactly the sanitised fields. */
module BearerChallenge {
  import opened Text
  import opened Utf8

  // ----- Building -----

  /** Delete control characters, then trim. */
  function Filter(value: string): (s: string)
  {
    if value == "" then []
    else (if IsControl(value[0]) then [] else [value[0]]) + Filter(value[1..])
  }

  function Sanitize(value: string): (s: string) { Trim(Filter(value)) }

  /** `str::replace` of one character by a string. */
  function Replace(value: string, c: char, with: string): (s: string)
  {
    if value == "" then []
    else (if value[0] == c then with else [value[0]]) + Replace(value[1..], c, with)
  }

  /** Backslashes are doubled first, so that the backslashes put before quotes stay single. */
  function EscapeQuoted(value: string): (s: string)
  {
    Replace(Replace(value, '\\', ['\\', '\\']), '"', ['\\', '"'])
  }

  datatype Challenge = Challenge(
    realm: string, resourceMetadata: Option<string>, scope: Option<string>, error: Option<string>,
    errorDescription: Option<string>, errorUri: Option<string>)

  datatype Param = Param(name: string, value: string)

  function Print(p: Param): (s: string)
  {
    p.name + (['=', '"'] + (EscapeQuoted(p.value) + ['"']))
  }

  /** A given parameter is kept when something is left of it. */
  function Kept(name: string, value: Option<string>): (params: seq<Param>)
  {
    if value.None? || Sanitize(value.value) == "" then [] else [Param(name, Sanitize(value.value))]
  }

  /** The parameters a challenge announces: the realm always, the others in this order if non-empty. */
  function Params(c: Challenge): (params: seq<Param>)
    ensures params != []
  {
    [Param("realm", Sanitize(c.realm))]
    + Kept("resource_metadata", c.resourceMetadata)
    + Kept("scope", c.scope)
    + Kept("error", c.error)
    + Kept("error_description", c.errorDescription)
    + Kept("error_uri", c.errorUri)
  }

  function PrintAll(params: seq<Param>): (parts: seq<string>)
    ensures |parts| == |params|
  {
    if params == [] then [] else [Print(params[0])] + PrintAll(params[1..])
  }

  const SCHEME: string := "Bearer "

  function ChallengeText(c: Challenge): (s: string)
  {
    SCHEME + Join(PrintAll(Params(c)), [',', ' '])
  }

  // ----- Reading (sections 5.6.4 and 11.2 of RFC 9110) -----

  predicate IsTokenChar(c: char)
  {
    || 'A' <= c <= 'Z' || 'a' <= c <= 'z' || '0' <= c <= '9'
    || c == '!' || '#' <= c <= '\'' || c == '*' || c == '+' || c == '-' || c == '.'
    || '^' <= c <= '`' || c == '|' || c == '~'
  }

  /** Text allowed verbatim in a quoted string; characters beyond ASCII are obs-text bytes on the wire. */
  predicate IsQdText(c: char)
  {
    var n := c as int;
    n == 9 || n == 0x20 || n == 0x21 || 0x23 <= n <= 0x5B || 0x5D <= n <= 0x7E || n >= 0x80
  }

  predicate IsQuotable(c: char)
  {
    var n := c as int;
    n == 9 || 0x20 <= n <= 0x7E || n >= 0x80
  }

  /** The number of token characters in front. */
  function TokenLength(s: string): (n: nat)
    ensures n <= |s|
  {
    if s == "" || !IsTokenChar(s[0]) then 0 else 1 + TokenLength(s[1..])
  }

  datatype Quoted = Quoted(value: string, rest: string)

  /** A quoted string after its opening quote: its value and what follows its closing quote. */
  function ReadQuoted(s: string): (r: Option<Quoted>)
    ensures r.Some? ==> |r.value.rest| < |s|
  {
    if s == "" then None
    else if s[0] == '"' then Some(Quoted("", s[1..]))
    else if s[0] == '\\' then
      if |s| == 1 || !IsQuotable(s[1]) then None
      else Prepend(s[1], ReadQuoted(s[2..]))
    else if IsQdText(s[0]) then Prepend(s[0], ReadQuoted(s[1..]))
    else None
  }

  function Prepend(c: char, r: Option<Quoted>): (q: Option<Quoted>)
  {
    if r.None? then None else Some(Quoted([c] + r.value.value, r.value.rest))
  }

  function SkipBlanks(s: string): (r: string)
    ensures |r| <= |s|
  {
    if s != "" && (s[0] == ' ' || s[0] == '\t') then SkipBlanks(s[1..]) else s
  }

  datatype ReadParam = ReadParam(param: Param, rest: string)

  /** One `name="value"` parameter and what follows it. */
  function ReadOne(s: string): (r: Option<ReadParam>)
    ensures r.Some? ==> |r.value.rest| < |s|
  {
    var n := TokenLength(s);
    if n == 0 || n + 2 > |s| || s[n] != '=' || s[n + 1] != '"' then None
    else
      var q := ReadQuoted(s[n + 2..]);
      if q.None? then None else Some(ReadParam(Param(s[..n], q.value.value), q.value.rest))
  }

  /** A comma-separated list of parameters. */
  function ReadParams(s: string): (r: Option<seq<Param>>)
    decreases |s|
  {
    var one := ReadOne(s);
    if one.None? then None
    else
      var rest := SkipBlanks(one.value.rest);
      if rest == "" then Some([one.value.param])
      else if rest[0] != ',' then None
      else
        var more := ReadParams(SkipBlanks(rest[1..]));
        if more.None? then None else Some([one.value.param] + more.value)
  }

  datatype Parsed = Parsed(scheme: string, params: seq<Param>)

  function ReadChallenge(s: string): (r: Option<Parsed>)
  {
    var n := TokenLength(s);
    if n == 0 || n == |s| || s[n] != ' ' then None
    else
      var params := ReadParams(SkipBlanks(s[n..]));
      if params.None? then None else Some(Parsed(s[..n], params.value))
  }

  // ----- Sanitised values -----

  predicate ControlFree(s: string) { forall i :: 0 <= i < |s| ==> !IsControl(s[i]) }

  lemma {:induction false} FilterControlFree(value: string)
    ensures ControlFree(Filter(value))
  {
    if value != "" { FilterControlFree(value[1..]); }
  }

  lemma SanitizeControlFree(value: string)
    ensures ControlFree(Sanitize(value))
  {
    FilterControlFree(value);
    TrimFacts(Filter(value));
    var s := Sanitize(value);
    forall i | 0 <= i < |s| ensures !IsControl(s[i]) {
      assert s[i] in s;
      assert s[i] in Filter(value);
    }
  }

  lemma {:induction false} FilterKeepsOthers(value: string)
    requires ControlFree(value)
    ensures Filter(value) == value
  {
    if value != "" {
      FilterKeepsOthers(value[1..]);
      assert value == [value[0]] + value[1..];
    }
  }

  lemma {:induction false} FilterConcat(a: string, b: string)
    ensures Filter(a + b) == Filter(a) + Filter(b)
  {
    if a == "" {
      assert a + b == b;
    } else {
      assert (a + b)[1..] == a[1..] + b;
      FilterConcat(a[1..], b);
    }
  }

  /** Every control character goes and every other character stays, each on its own. */
  lemma FilterExactly(a: string, c: char, b: string)
    ensures Filter(a + [c] + b) ==
      if c as int < 0x20 || 0x7F <= c as int <= 0x9F then Filter(a + b) else Filter(a) + [c] + Filter(b)
  {
    FilterConcat(a + [c], b);
    FilterConcat(a, [c]);
    FilterConcat(a, b);
    assert [c][1..] == "";
    assert Filter(a) + [] == Filter(a);
  }

  /** What is announced of a value: the text left between outer white space once control characters are gone. */
  lemma SanitizeExactly(value: string, front: string, core: string, back: string)
    requires Filter(value) == front + core + back && AllSpace(front) && AllSpace(back)
    requires core != "" ==> !IsWhitespace(core[0]) && !IsWhitespace(core[|core| - 1])
    ensures Sanitize(value) == core
  {
    TrimExactly(front, core, back);
  }

  // ----- Escaping and unescaping -----

  /** One pass: a backslash before each quote and each backslash. */
  function Escape(value: string): (s: string)
  {
    if value == "" then [] else EscapeChar(value[0]) + Escape(value[1..])
  }

  function EscapeChar(c: char): (s: string)
    ensures s != ""
  {
    if c == '"' || c == '\\' then ['\\', c] else [c]
  }

  lemma {:induction false} ReplaceConcat(a: string, b: string, c: char, with: string)
    ensures Replace(a + b, c, with) == Replace(a, c, with) + Replace(b, c, with)
  {
    if a == "" {
      assert a + b == b;
    } else {
      assert (a + b)[1..] == a[1..] + b;
      ReplaceConcat(a[1..], b, c, with);
      var head := if a[0] == c then with else [a[0]];
      ConcatAssociative(head, Replace(a[1..], c, with), Replace(b, c, with));
    }
  }

  lemma ReplaceTwoBackslashes()
    ensures Replace(['\\', '\\'], '"', ['\\', '"']) == ['\\', '\\']
  {
    var s := ['\\', '\\'];
    assert s[1..] == ['\\'] && s[1..][1..] == [];
    assert Replace(s[1..], '"', ['\\', '"']) == ['\\'] + [];
  }

  /** The two successive replacements are the one-pass escape. */
  lemma {:induction false} TwoPassesAreOne(value: string)
    ensures EscapeQuoted(value) == Escape(value)
  {
    if value != "" {
      var c := value[0];
      var head := if c == '\\' then ['\\', '\\'] else [c];
      var tail := Replace(value[1..], '\\', ['\\', '\\']);
      ReplaceConcat(head, tail, '"', ['\\', '"']);
      if c == '\\' { ReplaceTwoBackslashes(); }
      assert c != '\\' ==> head[1..] == [];
      assert Replace(head, '"', ['\\', '"']) == EscapeChar(c);
      TwoPassesAreOne(value[1..]);
    }
  }

  /** Reading an escaped value returns it, and leaves what follows. */
  lemma {:induction false} ReadEscaped(value: string, rest: string)
    requires ControlFree(value)
    ensures ReadQuoted(Escape(value) + (['"'] + rest)) == Some(Quoted(value, rest))
  {
    var tail := ['"'] + rest;
    if value == "" {
      assert Escape(value) + tail == tail && tail[1..] == rest;
    } else {
      var c := value[0];
      var more := Escape(value[1..]) + tail;
      assert Escape(value) + tail == EscapeChar(c) + more;
      assert ControlFree(value[1..]) && !IsControl(c);
      ReadEscaped(value[1..], rest);
      ReadEscapedChar(c, more);
      assert value == [c] + value[1..];
    }
  }

  lemma ReadEscapedChar(c: char, more: string)
    requires !IsControl(c)
    ensures ReadQuoted(EscapeChar(c) + more) == Prepend(c, ReadQuoted(more))
  {
    var s := EscapeChar(c) + more;
    if c == '"' || c == '\\' {
      assert s[0] == '\\' && s[1] == c && s[2..] == more;
    } else {
      assert s[0] == c && s[1..] == more;
    }
  }

  // ----- The round trip -----

  predicate IsToken(s: string) { s != "" && forall i :: 0 <= i < |s| ==> IsTokenChar(s[i]) }

  /** A token is read up to the first other character. */
  lemma {:induction false} ReadToken(name: string, rest: string)
    requires forall i :: 0 <= i < |name| ==> IsTokenChar(name[i])
    requires rest != "" && !IsTokenChar(rest[0])
    ensures TokenLength(name + rest) == |name|
  {
    var s := name + rest;
    if name == "" {
      assert s == rest;
    } else {
      assert s[0] == name[0] && s[1..] == name[1..] + rest;
      ReadToken(name[1..], rest);
    }
  }

  lemma ReadOneAt(name: string, tail: string, value: string, rest: string)
    requires IsToken(name) && ReadQuoted(tail) == Some(Quoted(value, rest))
    ensures ReadOne(name + (['=', '"'] + tail)) == Some(ReadParam(Param(name, value), rest))
  {
    var s := name + (['=', '"'] + tail);
    ReadToken(name, ['=', '"'] + tail);
    var n := |name|;
    assert s[n] == '=' && s[n + 1] == '"' && s[..n] == name && s[n + 2..] == tail;
  }

  lemma PrintRegroup(a: string, b: string, c: string, d: string, e: string)
    ensures (a + (b + (c + d))) + e == a + (b + (c + (d + e)))
  {
  }

  /** One parameter with whatever follows it. */
  lemma ReadOneParam(p: Param, rest: string)
    requires IsToken(p.name) && ControlFree(p.value)
    ensures ReadOne(Print(p) + rest) == Some(ReadParam(p, rest))
  {
    TwoPassesAreOne(p.value);
    ReadEscaped(p.value, rest);
    PrintRegroup(p.name, ['=', '"'], EscapeQuoted(p.value), ['"'], rest);
    ReadOneAt(p.name, Escape(p.value) + (['"'] + rest), p.value, rest);
  }

  predicate Printable(params: seq<Param>)
  {
    forall i :: 0 <= i < |params| ==> IsToken(params[i].name) && ControlFree(params[i].value)
  }

  /** A printed list starts with the first name, so blanks in front of it are all that is skipped. */
  lemma StartsWithToken(params: seq<Param>)
    requires params != [] && Printable(params)
    ensures var s := Join(PrintAll(params), [',', ' ']); s != "" && IsTokenChar(s[0]) && SkipBlanks(s) == s
    ensures SkipBlanks([' '] + Join(PrintAll(params), [',', ' '])) == Join(PrintAll(params), [',', ' '])
  {
    var s := Join(PrintAll(params), [',', ' ']);
    JoinCons(Print(params[0]), PrintAll(params[1..]), [',', ' ']);
    assert s[0] == Print(params[0])[0] == params[0].name[0];
    assert ([' '] + s)[1..] == s;
  }

  lemma ReadLast(p: Param)
    requires IsToken(p.name) && ControlFree(p.value)
    ensures ReadParams(Print(p)) == Some([p])
  {
    assert Print(p) + "" == Print(p);
    ReadOneParam(p, "");
    assert SkipBlanks("") == "";
  }

  lemma BehindComma(more: string)
    requires SkipBlanks([' '] + more) == more
    ensures var rest := [',', ' '] + more; rest[0] == ',' && SkipBlanks(rest[1..]) == more
  {
    var rest := [',', ' '] + more;
    assert rest[1..] == [' '] + more;
  }

  /** Behind one parameter and a comma, reading goes on with the rest. */
  lemma ReadStep(s: string, p: Param, rest: string, more: string)
    requires ReadOne(s) == Some(ReadParam(p, rest)) && rest != "" && rest[0] == ','
    requires SkipBlanks(rest[1..]) == more && ReadParams(more).Some?
    ensures ReadParams(s) == Some([p] + ReadParams(more).value)
  {
    assert SkipBlanks(rest) == rest;
  }

  lemma {:induction false} ListRoundTrip(params: seq<Param>)
    requires params != [] && Printable(params)
    ensures ReadParams(Join(PrintAll(params), [',', ' '])) == Some(params)
  {
    var p, others := params[0], params[1..];
    JoinCons(Print(p), PrintAll(others), [',', ' ']);
    assert params == [p] + others;
    if others == [] {
      assert params == [p];
      ReadLast(p);
    } else {
      var more := Join(PrintAll(others), [',', ' ']);
      StartsWithToken(others);
      ListRoundTrip(others);
      var rest := [',', ' '] + more;
      BehindComma(more);
      ReadOneParam(p, rest);
      ReadStep(Print(p) + rest, p, rest, more);
    }
  }

  lemma KeptPrintable(name: string, value: Option<string>)
    requires IsToken(name)
    ensures Printable(Kept(name, value))
  {
    if value.Some? { SanitizeControlFree(value.value); }
  }

  lemma NamesAreTokens()
    ensures IsToken("realm") && IsToken("resource_metadata") && IsToken("scope") && IsToken("error")
    ensures IsToken("error_description") && IsToken("error_uri")
  {
  }

  lemma ParamsPrintable(c: Challenge)
    ensures Printable(Params(c))
  {
    NamesAreTokens();
    SanitizeControlFree(c.realm);
    KeptPrintable("resource_metadata", c.resourceMetadata);
    KeptPrintable("scope", c.scope);
    KeptPrintable("error", c.error);
    KeptPrintable("error_description", c.errorDescription);
    KeptPrintable("error_uri", c.errorUri);
  }

  function Given(name: string, value: Option<string>): (params: seq<Param>)
  {
    if value.None? || value.value == "" then [] else [Param(name, value.value)]
  }

  function Cleaned(value: Option<string>): (cleaned: Option<string>)
  {
    if value.None? then None else Some(Sanitize(value.value))
  }

  /** What a challenge announces: each field under its name, sanitised, in this order, unless nothing is left of it. */
  function Announced(c: Challenge): (params: seq<Param>)
  {
    [Param("realm", Sanitize(c.realm))]
    + Given("resource_metadata", Cleaned(c.resourceMetadata)) + Given("scope", Cleaned(c.scope))
    + Given("error", Cleaned(c.error)) + Given("error_description", Cleaned(c.errorDescription))
    + Given("error_uri", Cleaned(c.errorUri))
  }

  /** No field can inject, alter or drop a parameter: the parsed challenge is the announced one. */
  lemma ChallengeRoundTrip(c: Challenge)
    ensures ReadChallenge(ChallengeText(c)) == Some(Parsed("Bearer", Announced(c)))
  {
    ParamsPrintable(c);
    var list := Join(PrintAll(Params(c)), [',', ' ']);
    var s := ChallengeText(c);
    assert s == "Bearer" + ([' '] + list);
    ReadToken("Bearer", [' '] + list);
    assert s[6..] == [' '] + list && s[..6] == "Bearer";
    StartsWithToken(Params(c));
    ListRoundTrip(Params(c));
    KeptIsGiven(c);
  }

  lemma KeptIsGiven(c: Challenge)
    ensures Params(c) == Announced(c)
  {
  }

  /** A field the caller already cleaned. */
  predicate IsClean(value: string) { ControlFree(value) && Trim(value) == value }

  predicate IsCleanField(value: Option<string>) { value.Some? ==> IsClean(value.value) }

  predicate IsCleanChallenge(c: Challenge)
  {
    && IsClean(c.realm) && IsCleanField(c.resourceMetadata) && IsCleanField(c.scope)
    && IsCleanField(c.error) && IsCleanField(c.errorDescription) && IsCleanField(c.errorUri)
  }

  lemma CleanKept(name: string, value: Option<string>)
    requires IsCleanField(value)
    ensures Kept(name, value) == Given(name, value)
  {
    if value.Some? { FilterKeepsOthers(value.value); }
  }

  /** Clean fields reach the client exactly as given, quotes and backslashes included. */
  lemma CleanFieldsSurvive(c: Challenge)
    requires IsCleanChallenge(c)
    ensures ReadChallenge(ChallengeText(c)) == Some(Parsed("Bearer", [Param("realm", c.realm)]
      + Given("resource_metadata", c.resourceMetadata) + Given("scope", c.scope) + Given("error", c.error)
      + Given("error_description", c.errorDescription) + Given("error_uri", c.errorUri)))
  {
    FilterKeepsOthers(c.realm);
    CleanKept("resource_metadata", c.resourceMetadata);
    CleanKept("scope", c.scope);
    CleanKept("error", c.error);
    CleanKept("error_description", c.errorDescription);
    CleanKept("error_uri", c.errorUri);
    ChallengeRoundTrip(c);
  }

  // ----- Legal header text -----

  predicate HeaderByte(b: byte) { b == 9 || (b >= 32 && b != 127) }

  predicate Legal(bytes: seq<byte>) { forall i :: 0 <= i < |bytes| ==> HeaderByte(bytes[i]) }

  lemma {:induction false} ControlFreeIsLegal(s: string)
    requires ControlFree(s)
    ensures Legal(Encode(s))
  {
    if s != "" {
      assert ControlFree(s[1..]) && !IsControl(s[0]);
      ControlFreeIsLegal(s[1..]);
      assert Legal(EncodeChar(s[0]));
    }
  }

  lemma {:induction false} EscapeControlFree(value: string)
    requires ControlFree(value)
    ensures ControlFree(Escape(value))
  {
    if value != "" {
      assert ControlFree(value[1..]) && !IsControl(value[0]);
      EscapeControlFree(value[1..]);
    }
  }

  lemma ConcatControlFree(a: string, b: string)
    requires ControlFree(a) && ControlFree(b)
    ensures ControlFree(a + b)
  {
  }

  lemma PrintControlFree(p: Param)
    requires IsToken(p.name) && ControlFree(p.value)
    ensures ControlFree(Print(p))
  {
    TwoPassesAreOne(p.value);
    EscapeControlFree(p.value);
    ConcatControlFree(EscapeQuoted(p.value), ['"']);
    ConcatControlFree(['=', '"'], EscapeQuoted(p.value) + ['"']);
    assert ControlFree(p.name);
    ConcatControlFree(p.name, ['=', '"'] + (EscapeQuoted(p.value) + ['"']));
  }

  lemma {:induction false} ListControlFree(params: seq<Param>)
    requires Printable(params)
    ensures ControlFree(Join(PrintAll(params), [',', ' ']))
  {
    if params != [] {
      var text := Join(PrintAll(params[1..]), [',', ' ']);
      JoinCons(Print(params[0]), PrintAll(params[1..]), [',', ' ']);
      PrintControlFree(params[0]);
      ListControlFree(params[1..]);
      ConcatControlFree([',', ' '], text);
      if params[1..] != [] { ConcatControlFree(Print(params[0]), [',', ' '] + text); }
    }
  }

  /** Whatever the fields hold, the text is a legal header value. */
  lemma ChallengeIsLegal(c: Challenge)
    ensures Legal(Encode(ChallengeText(c)))
  {
    ParamsPrintable(c);
    ListControlFree(Params(c));
    ConcatControlFree(SCHEME, Join(PrintAll(Params(c)), [',', ' ']));
    ControlFreeIsLegal(ChallengeText(c));
  }

  // ----- The source's construction -----

  lemma {:induction false} PrintAllConcat(a: seq<Param>, b: seq<Param>)
    ensures PrintAll(a + b) == PrintAll(a) + PrintAll(b)
  {
    if a == [] {
      assert a + b == b;
    } else {
      assert (a + b)[1..] == a[1..] + b;
      PrintAllConcat(a[1..], b);
    }
  }

  method PushParam(parts: seq<string>, name: string, value: Option<string>) returns (extended: seq<string>)
    ensures extended == parts + PrintAll(Kept(name, value))
  {
    extended := parts;
    if value.Some? {
      var sanitized := Sanitize(value.value);
      if sanitized != "" {
        assert PrintAll([Param(name, sanitized)]) == [Print(Param(name, sanitized))];
        extended := parts + [name + (['=', '"'] + (EscapeQuoted(sanitized) + ['"']))];
      }
    }
  }

  lemma JoinScheme(first: string, others: seq<string>)
    ensures Join([SCHEME + first] + others, [',', ' ']) == SCHEME + Join([first] + others, [',', ' '])
  {
    JoinCons(SCHEME + first, others, [',', ' ']);
    JoinCons(first, others, [',', ' ']);
  }

  lemma PrintParams(c: Challenge)
    ensures PrintAll(Params(c)) == [Print(Param("realm", Sanitize(c.realm)))]
      + PrintAll(Kept("resource_metadata", c.resourceMetadata)) + PrintAll(Kept("scope", c.scope))
      + PrintAll(Kept("error", c.error)) + PrintAll(Kept("error_description", c.errorDescription))
      + PrintAll(Kept("error_uri", c.errorUri))
  {
    var a := [Param("realm", Sanitize(c.realm))];
    var b := a + Kept("resource_metadata", c.resourceMetadata);
    var d := b + Kept("scope", c.scope);
    var e := d + Kept("error", c.error);
    var f := e + Kept("error_description", c.errorDescription);
    assert PrintAll(a) == [Print(a[0])];
    PrintAllConcat(a, Kept("resource_metadata", c.resourceMetadata));
    PrintAllConcat(b, Kept("scope", c.scope));
    PrintAllConcat(d, Kept("error", c.error));
    PrintAllConcat(e, Kept("error_description", c.errorDescription));
    PrintAllConcat(f, Kept("error_uri", c.errorUri));
  }

  lemma FirstPart(realm: string)
    ensures "Bearer realm=\"" + realm + "\"" == SCHEME + ("realm" + (['=', '"'] + (realm + ['"'])))
  {
    assert "Bearer realm=\"" == SCHEME + ("realm" + ['=', '"']);
  }

  /** The scheme with the realm, then the other parameters that are given and not empty. */
  method CollectParts(c: Challenge) returns (parts: seq<string>)
    ensures Join(parts, [',', ' ']) == ChallengeText(c)
  {
    var realm := EscapeQuoted(Sanitize(c.realm));
    ghost var first := Print(Param("realm", Sanitize(c.realm)));
    parts := ["Bearer realm=\"" + realm + "\""];
    FirstPart(realm);
    parts := PushParam(parts, "resource_metadata", c.resourceMetadata);
    parts := PushParam(parts, "scope", c.scope);
    parts := PushParam(parts, "error", c.error);
    parts := PushParam(parts, "error_description", c.errorDescription);
    parts := PushParam(parts, "error_uri", c.errorUri);
    PartsPrinted(c, first, parts);
  }

  lemma Regroup(x: string, a: seq<string>, b: seq<string>, c: seq<string>, d: seq<string>, e: seq<string>)
    ensures [x] + a + b + c + d + e == [x] + (a + b + c + d + e)
  {
  }

  lemma PartsPrinted(c: Challenge, first: string, parts: seq<string>)
    requires first == Print(Param("realm", Sanitize(c.realm)))
    requires parts == [SCHEME + first]
      + PrintAll(Kept("resource_metadata", c.resourceMetadata)) + PrintAll(Kept("scope", c.scope))
      + PrintAll(Kept("error", c.error)) + PrintAll(Kept("error_description", c.errorDescription))
      + PrintAll(Kept("error_uri", c.errorUri))
    ensures Join(parts, [',', ' ']) == ChallengeText(c)
  {
    var p, q := PrintAll(Kept("resource_metadata", c.resourceMetadata)), PrintAll(Kept("scope", c.scope));
    var r, s := PrintAll(Kept("error", c.error)), PrintAll(Kept("error_description", c.errorDescription));
    var t := PrintAll(Kept("error_uri", c.errorUri));
    PrintParams(c);
    Regroup(SCHEME + first, p, q, r, s, t);
    Regroup(first, p, q, r, s, t);
    JoinScheme(first, p + q + r + s + t);
  }

  /** The bare-scheme fallback for an illegal value is never taken. */
  method BuildBearerChallenge(c: Challenge) returns (header: string)
    ensures header == ChallengeText(c)
    ensures ReadChallenge(header) == Some(Parsed("Bearer", Announced(c)))
  {
    var parts := CollectParts(c);
    var value := Join(parts, [',', ' ']);
    ChallengeIsLegal(c);
    ChallengeRoundTrip(c);
    header := if Legal(Encode(value)) then value else "Bearer";
  }
}

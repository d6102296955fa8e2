/** The compact text serde_json prints for a value: a JSON reader gets exactly that value back. */
module JsonText {
  import opened Text
  import opened Json
  import CanonicalJson

  // ----- Strings -----

  function HexNibble(n: nat): (c: char)
    requires n < 16
  {
    if n < 10 then '0' + n as char else 'a' + (n - 10) as char
  }

  /** Quotes, backslashes and control characters are escaped; everything else is verbatim. */
  function EscapeChar(c: char): (s: string)
    ensures s != ""
  {
    if c == '"' then ['\\', '"']
    else if c == '\\' then ['\\', '\\']
    else if c as int == 8 then ['\\', 'b']
    else if c as int == 9 then ['\\', 't']
    else if c as int == 10 then ['\\', 'n']
    else if c as int == 12 then ['\\', 'f']
    else if c as int == 13 then ['\\', 'r']
    else if c as int < 32 then ['\\', 'u', '0', '0', HexNibble(c as int / 16), HexNibble(c as int % 16)]
    else [c]
  }

  /** The rest of a string literal, with its closing quote. */
  function PrintText(text: string): (s: string)
  {
    if text == "" then ['"'] else EscapeChar(text[0]) + PrintText(text[1..])
  }

  // ----- Values -----

  function Print(v: Value): (s: string)
  {
    match v
    case Null => ['n', 'u', 'l', 'l']
    case Bool(b) => if b then ['t', 'r', 'u', 'e'] else ['f', 'a', 'l', 's', 'e']
    case Number(token) => token
    case String(text) => ['"'] + PrintText(text)
    case Array(items) => ['['] + PrintItems(items, true)
    case Object(members) => ['{'] + PrintMembers(members, true)
  }

  function Comma(first: bool): (s: string) { if first then [] else [','] }

  /** The elements still to come, a comma before all but the first, and the closing bracket. */
  function PrintItems(items: seq<Value>, first: bool): (s: string)
  {
    if items == [] then [']'] else Comma(first) + (Print(items[0]) + PrintItems(items[1..], false))
  }

  function PrintMember(m: Member): (s: string)
  {
    ['"'] + (PrintText(m.key) + ([':'] + Print(m.value)))
  }

  function PrintMembers(members: seq<Member>, first: bool): (s: string)
  {
    if members == [] then ['}'] else Comma(first) + (PrintMember(members[0]) + PrintMembers(members[1..], false))
  }

  // ----- Reading compact text (RFC 8259) -----

  function HexValue(c: char): (v: Option<nat>)
  {
    if '0' <= c <= '9' then Some(c as int - '0' as int)
    else if 'a' <= c <= 'f' then Some(c as int - 'a' as int + 10)
    else if 'A' <= c <= 'F' then Some(c as int - 'A' as int + 10)
    else None
  }

  /** What a two-character escape stands for (section 7). */
  function Unescape(c: char): (d: Option<char>)
  {
    if c == '"' || c == '\\' || c == '/' then Some(c)
    else if c == 'b' then Some(8 as char)
    else if c == 'f' then Some(12 as char)
    else if c == 'n' then Some(10 as char)
    else if c == 'r' then Some(13 as char)
    else if c == 't' then Some(9 as char)
    else None
  }

  /** Four hexadecimal digits; halves of surrogate pairs are left aside. */
  function ReadHex(s: string): (c: Option<char>)
    requires |s| >= 4
  {
    match (HexValue(s[0]), HexValue(s[1]), HexValue(s[2]), HexValue(s[3]))
    case (Some(a), Some(b), Some(c), Some(d)) =>
      var n := 4096 * a + 256 * b + 16 * c + d;
      if n < 0xD800 || 0xE000 <= n < 0x10000 then Some(n as char) else None
    case _ => None
  }

  datatype Read<T> = Read(value: T, rest: string)

  function Prepend(c: Option<char>, r: Option<Read<string>>): (q: Option<Read<string>>)
  {
    if c.None? || r.None? then None else Some(Read([c.value] + r.value.value, r.value.rest))
  }

  /** A string after its opening quote (section 7). */
  function ReadText(s: string): (r: Option<Read<string>>)
    ensures r.Some? ==> |r.value.rest| < |s|
  {
    if s == "" then None
    else if s[0] == '"' then Some(Read("", s[1..]))
    else if s[0] != '\\' then Prepend(if s[0] as int < 0x20 then None else Some(s[0]), ReadText(s[1..]))
    else if |s| < 2 then None
    else if s[1] != 'u' then Prepend(Unescape(s[1]), ReadText(s[2..]))
    else if |s| < 6 then None
    else Prepend(ReadHex(s[2..6]), ReadText(s[6..]))
  }

  function NumberLength(s: string): (n: nat)
    ensures n <= |s|
  {
    if s == "" || !CanonicalJson.IsNumberChar(s[0]) then 0 else 1 + NumberLength(s[1..])
  }

  /** A value at the front of a text (section 3), without insignificant white space. */
  function ReadValue(s: string): (r: Option<Read<Value>>)
    ensures r.Some? ==> |r.value.rest| < |s|
    decreases |s|, 0
  {
    if s == "" then None
    else if s[0] == '"' then
      var text := ReadText(s[1..]);
      if text.None? then None else Some(Read(String(text.value.value), text.value.rest))
    else if s[0] == '[' then
      var items := ReadItems(s[1..], true);
      if items.None? then None else Some(Read(Array(items.value.value), items.value.rest))
    else if s[0] == '{' then
      var members := ReadMembers(s[1..], true);
      if members.None? then None else Some(Read(Object(members.value.value), members.value.rest))
    else if |s| >= 4 && s[..4] == ['n', 'u', 'l', 'l'] then Some(Read(Null, s[4..]))
    else if |s| >= 4 && s[..4] == ['t', 'r', 'u', 'e'] then Some(Read(Bool(true), s[4..]))
    else if |s| >= 5 && s[..5] == ['f', 'a', 'l', 's', 'e'] then Some(Read(Bool(false), s[5..]))
    else if s[0] == '-' || '0' <= s[0] <= '9' then Some(Read(Number(s[..NumberLength(s)]), s[NumberLength(s)..]))
    else None
  }

  /** What is left once the comma before an element is read; none stands before the first. */
  function AfterComma(s: string, first: bool): (rest: Option<string>)
    ensures rest.Some? ==> |rest.value| <= |s|
  {
    if first then Some(s) else if s != "" && s[0] == ',' then Some(s[1..]) else None
  }

  function ReadItems(s: string, first: bool): (r: Option<Read<seq<Value>>>)
    ensures r.Some? ==> |r.value.rest| < |s|
    decreases |s|, 1
  {
    if s != "" && s[0] == ']' then Some(Read([], s[1..]))
    else
      var start := AfterComma(s, first);
      if start.None? then None
      else
        var item := ReadValue(start.value);
        if item.None? then None
        else
          var more := ReadItems(item.value.rest, false);
          if more.None? then None else Some(Read([item.value.value] + more.value.value, more.value.rest))
  }

  function ReadMember(s: string): (r: Option<Read<Member>>)
    ensures r.Some? ==> |r.value.rest| < |s|
    decreases |s|, 1
  {
    if s == "" || s[0] != '"' then None
    else
      var key := ReadText(s[1..]);
      if key.None? || key.value.rest == "" || key.value.rest[0] != ':' then None
      else
        var value := ReadValue(key.value.rest[1..]);
        if value.None? then None else Some(Read(Member(key.value.value, value.value.value), value.value.rest))
  }

  function ReadMembers(s: string, first: bool): (r: Option<Read<seq<Member>>>)
    ensures r.Some? ==> |r.value.rest| < |s|
    decreases |s|, 2
  {
    if s != "" && s[0] == '}' then Some(Read([], s[1..]))
    else
      var start := AfterComma(s, first);
      if start.None? then None
      else
        var member := ReadMember(start.value);
        if member.None? then None
        else
          var more := ReadMembers(member.value.rest, false);
          if more.None? then None else Some(Read([member.value.value] + more.value.value, more.value.rest))
  }

  // ----- What was printed is read back -----

  lemma ReadShort(d: char, more: string)
    requires d != 'u'
    ensures ReadText(['\\', d] + more) == Prepend(Unescape(d), ReadText(more))
  {
    var s := ['\\', d] + more;
    assert s[0] == '\\' && s[1] == d && s[2..] == more;
  }

  lemma ReadLong(x: char, y: char, more: string)
    ensures ReadText(['\\', 'u', '0', '0', x, y] + more) == Prepend(ReadHex(['0', '0', x, y]), ReadText(more))
  {
    var s := ['\\', 'u', '0', '0', x, y] + more;
    assert s[0] == '\\' && s[1] == 'u' && s[2..6] == ['0', '0', x, y] && s[6..] == more;
  }

  lemma ReadVerbatim(c: char, more: string)
    requires c != '"' && c != '\\' && c as int >= 32
    ensures ReadText([c] + more) == Prepend(Some(c), ReadText(more))
  {
    assert ([c] + more)[1..] == more;
  }

  lemma ReadEscape(c: char, more: string)
    ensures ReadText(EscapeChar(c) + more) == Prepend(Some(c), ReadText(more))
  {
    var e := EscapeChar(c);
    if |e| == 1 {
      ReadVerbatim(c, more);
    } else if |e| == 2 {
      ReadShort(e[1], more);
      assert Unescape(e[1]) == Some(c);
    } else {
      ReadControl(c);
      ReadLong(e[4], e[5], more);
    }
  }

  lemma ReadControl(c: char)
    requires c as int < 32
    ensures ReadHex(['0', '0', HexNibble(c as int / 16), HexNibble(c as int % 16)]) == Some(c)
  {
  }

  /** The escapes serde_json chooses where the grammar leaves a choice. */
  lemma EscapesChosen()
    ensures EscapeChar('"') == "\\\"" && EscapeChar('\\') == "\\\\" && EscapeChar('/') == "/"
    ensures EscapeChar(8 as char) == "\\b" && EscapeChar(9 as char) == "\\t" && EscapeChar(10 as char) == "\\n"
    ensures EscapeChar(12 as char) == "\\f" && EscapeChar(13 as char) == "\\r"
    ensures EscapeChar(0 as char) == "\\u0000" && EscapeChar(31 as char) == "\\u001f"
    ensures EscapeChar(127 as char) == [127 as char]
  {
  }

  lemma {:induction false} TextRoundTrip(text: string, rest: string)
    ensures ReadText(PrintText(text) + rest) == Some(Read(text, rest))
  {
    if text == "" {
      assert (['"'] + rest)[1..] == rest;
    } else {
      ConcatAssociative(EscapeChar(text[0]), PrintText(text[1..]), rest);
      ReadEscape(text[0], PrintText(text[1..]) + rest);
      TextRoundTrip(text[1..], rest);
      assert [text[0]] + text[1..] == text;
    }
  }

  /** What may follow a value: nothing, or a comma or closing bracket. */
  predicate Ends(s: string)
  {
    s == "" || s[0] == ',' || s[0] == ']' || s[0] == '}'
  }

  lemma {:induction false} NumberEnds(token: string, rest: string)
    requires CanonicalJson.AllNumberChars(token) && Ends(rest)
    ensures NumberLength(token + rest) == |token|
  {
    if token == "" {
      assert token + rest == rest;
    } else {
      assert (token + rest)[0] == token[0] && (token + rest)[1..] == token[1..] + rest;
      NumberEnds(token[1..], rest);
    }
  }

  lemma {:induction false} ItemsEnd(items: seq<Value>, rest: string)
    ensures Ends(PrintItems(items, false) + rest)
  {
    assert (PrintItems(items, false) + rest)[0] == PrintItems(items, false)[0];
  }

  lemma {:induction false} MembersEnd(members: seq<Member>, rest: string)
    ensures Ends(PrintMembers(members, false) + rest)
  {
    assert (PrintMembers(members, false) + rest)[0] == PrintMembers(members, false)[0];
  }

  lemma FrontDropped(a: string, rest: string)
    ensures (a + rest)[..|a|] == a && (a + rest)[|a|..] == rest
    ensures a != "" ==> (a + rest)[0] == a[0]
  {
  }

  lemma Opened(c: char, body: string, rest: string)
    ensures ([c] + body + rest)[0] == c && ([c] + body + rest)[1..] == body + rest
  {
  }

  lemma WordRoundTrip(v: Value, rest: string)
    requires v.Null? || v.Bool?
    ensures ReadValue(Print(v) + rest) == Some(Read(v, rest))
  {
    FrontDropped(Print(v), rest);
  }

  lemma NumberRoundTrip(token: string, rest: string)
    requires CanonicalJson.IsNumberToken(token) && Ends(rest)
    ensures ReadValue(token + rest) == Some(Read(Number(token), rest))
  {
    FrontDropped(token, rest);
    NumberEnds(token, rest);
  }

  lemma StringRoundTrip(text: string, rest: string)
    ensures ReadValue(['"'] + PrintText(text) + rest) == Some(Read(String(text), rest))
  {
    Opened('"', PrintText(text), rest);
    TextRoundTrip(text, rest);
  }

  lemma OpenArray(body: string, rest: string, items: seq<Value>)
    requires ReadItems(body + rest, true) == Some(Read(items, rest))
    ensures ReadValue(['['] + body + rest) == Some(Read(Array(items), rest))
  {
    Opened('[', body, rest);
  }

  lemma OpenObject(body: string, rest: string, members: seq<Member>)
    requires ReadMembers(body + rest, true) == Some(Read(members, rest))
    ensures ReadValue(['{'] + body + rest) == Some(Read(Object(members), rest))
  {
    Opened('{', body, rest);
  }

  /** A value printed before a delimiter is read back, up to that delimiter. */
  lemma {:induction false} ValueRoundTrip(v: Value, rest: string)
    requires CanonicalJson.WellFormed(v) && Ends(rest)
    ensures ReadValue(Print(v) + rest) == Some(Read(v, rest))
    decreases v
  {
    match v
    case Number(token) => NumberRoundTrip(token, rest);
    case String(text) => StringRoundTrip(text, rest);
    case Array(items) =>
      ItemsRoundTrip(items, rest, true);
      OpenArray(PrintItems(items, true), rest, items);
    case Object(members) =>
      MembersRoundTrip(members, rest, true);
      OpenObject(PrintMembers(members, true), rest, members);
    case _ => WordRoundTrip(v, rest);
  }

  lemma Regroup(a: string, b: string, c: string, d: string)
    ensures (a + (b + c)) + d == a + (b + (c + d))
  {
  }

  lemma CommaRead(first: bool, s: string)
    ensures AfterComma(Comma(first) + s, first) == Some(s)
    ensures Comma(first) + s != "" && (Comma(first) + s)[0] in {']', '}'} ==> first && s != "" && s[0] in {']', '}'}
  {
    assert first ==> Comma(first) + s == s;
    assert !first ==> (Comma(first) + s)[1..] == s;
  }

  lemma ValueStarts(v: Value, rest: string)
    requires CanonicalJson.WellFormed(v)
    ensures Print(v) + rest != "" && (Print(v) + rest)[0] != ']'
  {
    FrontDropped(Print(v), rest);
  }

  lemma {:induction false} ItemsRoundTrip(items: seq<Value>, rest: string, first: bool)
    requires CanonicalJson.WellFormedItems(items)
    ensures ReadItems(PrintItems(items, first) + rest, first) == Some(Read(items, rest))
    decreases items
  {
    if items == [] {
      FrontDropped([']'], rest);
    } else {
      var more := PrintItems(items[1..], false);
      var tail := Print(items[0]) + (more + rest);
      Regroup(Comma(first), Print(items[0]), more, rest);
      CommaRead(first, tail);
      ValueStarts(items[0], more + rest);
      ItemsEnd(items[1..], rest);
      ValueRoundTrip(items[0], more + rest);
      ItemsRoundTrip(items[1..], rest, false);
      assert [items[0]] + items[1..] == items;
    }
  }

  lemma {:induction false} MemberRoundTrip(m: Member, rest: string)
    requires CanonicalJson.WellFormed(m.value) && Ends(rest)
    ensures ReadMember(PrintMember(m) + rest) == Some(Read(m, rest))
    ensures PrintMember(m) + rest != "" && (PrintMember(m) + rest)[0] == '"'
    decreases m, 0
  {
    var tail := [':'] + (Print(m.value) + rest);
    Regroup(['"'], PrintText(m.key), [':'] + Print(m.value), rest);
    ConcatAssociative([':'], Print(m.value), rest);
    FrontDropped(['"'], PrintText(m.key) + tail);
    TextRoundTrip(m.key, tail);
    FrontDropped([':'], Print(m.value) + rest);
    ValueRoundTrip(m.value, rest);
  }

  lemma {:induction false} MembersRoundTrip(members: seq<Member>, rest: string, first: bool)
    requires CanonicalJson.WellFormedMembers(members)
    ensures ReadMembers(PrintMembers(members, first) + rest, first) == Some(Read(members, rest))
    decreases members
  {
    if members == [] {
      FrontDropped(['}'], rest);
    } else {
      var more := PrintMembers(members[1..], false);
      var tail := PrintMember(members[0]) + (more + rest);
      Regroup(Comma(first), PrintMember(members[0]), more, rest);
      CommaRead(first, tail);
      MembersEnd(members[1..], rest);
      MemberRoundTrip(members[0], more + rest);
      MembersRoundTrip(members[1..], rest, false);
      assert [members[0]] + members[1..] == members;
    }
  }

  /** So a printed value is determined by its text, and so is what follows it. */
  lemma ValueDetermined(v: Value, s: string, w: Value, t: string)
    requires CanonicalJson.WellFormed(v) && CanonicalJson.WellFormed(w)
    requires Ends(s) && Ends(t) && Print(v) + s == Print(w) + t
    ensures v == w && s == t
  {
    ValueRoundTrip(v, s);
    ValueRoundTrip(w, t);
  }

  /** Different values print differently. */
  lemma PrintInjective(v: Value, w: Value)
    requires CanonicalJson.WellFormed(v) && CanonicalJson.WellFormed(w)
    requires Print(v) == Print(w)
    ensures v == w
  {
    ValueDetermined(v, "", w, "");
  }
}

/** The request-path normaliser that runs before any routing decision. */
module RequestPath {
  import opened Text

  // ----- The two passes, as functions -----

  function HexDigit(c: char): (d: Option<nat>)
  {
    if '0' <= c <= '9' then Some(c as int - '0' as int)
    else if 'a' <= c <= 'f' then Some(c as int - 'a' as int + 10)
    else if 'A' <= c <= 'F' then Some(c as int - 'A' as int + 10)
    else None
  }

  function DecodeHexPair(hi: char, lo: char): (value: Option<nat>)
  {
    match (HexDigit(hi), HexDigit(lo))
    case (Some(h), Some(l)) => Some(16 * h + l)
    case _ => None
  }

  /** What one `%` and the two characters after it contribute to the decoded text. */
  function DecodeTriplet(hi: char, lo: char): (text: string)
  {
    match DecodeHexPair(hi, lo)
    case Some(v) => if v == 0x2F || v == 0x5C then "/" else if v == 0x2E then "." else ['%', hi, lo]
    case None => ['%', hi, lo]
  }

  function Decode(path: string): (decoded: string)
    decreases |path|
  {
    if path == [] then []
    else if path[0] == '%' then
      if |path| >= 3 then DecodeTriplet(path[1], path[2]) + Decode(path[3..]) else path
    else [if path[0] == '\\' then '/' else path[0]] + Decode(path[1..])
  }

  predicate IsOrdinary(segment: string)
  {
    segment != "" && segment != "." && segment != ".."
  }

  /** The segment stack after reading `parts`: `..` pops, empty and `.` are skipped. */
  function Resolve(parts: seq<string>, stack: seq<string>): (segments: seq<string>)
    decreases |parts|
  {
    if parts == [] then stack
    else if parts[0] == "" || parts[0] == "." then Resolve(parts[1..], stack)
    else if parts[0] == ".." then Resolve(parts[1..], if stack == [] then [] else stack[..|stack| - 1])
    else Resolve(parts[1..], stack + [parts[0]])
  }

  function Render(segments: seq<string>): (path: string)
  {
    "/" + Join(segments, "/")
  }

  function Segments(path: string): (segments: seq<string>)
  {
    Resolve(Split(Decode(path), '/'), [])
  }

  function Normalize(path: string): (normal: string)
  {
    Render(Segments(path))
  }

  /** The decoded form of the first character or triplet. */
  function DecodeHead(path: string): (text: string)
    requires path != [] && (path[0] == '%' ==> |path| >= 3)
  {
    if path[0] == '%' then DecodeTriplet(path[1], path[2]) else [if path[0] == '\\' then '/' else path[0]]
  }

  function HeadSize(path: string): nat
    requires path != []
  {
    if path[0] == '%' then 3 else 1
  }

  lemma DecodeFirst(path: string)
    requires path != [] && |path| >= HeadSize(path)
    ensures Decode(path) == DecodeHead(path) + Decode(path[HeadSize(path)..])
  {
  }

  /** First loop of the source: the left-to-right scan. */
  method DecodeScan(path: string) returns (decoded: string)
    ensures decoded == Decode(path)
  {
    decoded := "";
    var i := 0;
    while i < |path|
      invariant 0 <= i <= |path|
      invariant decoded + Decode(path[i..]) == Decode(path)
    {
      var ch := path[i];
      ghost var rest := path[i..];
      if ch == '%' {
        if i + 2 < |path| {
          var text := DecodeTriplet(path[i + 1], path[i + 2]);
          DecodeFirst(rest);
          assert rest[3..] == path[i + 3..];
          ConcatAssociative(decoded, text, Decode(path[i + 3..]));
          decoded := decoded + text;
          i := i + 3;
        } else {
          decoded := decoded + path[i..];
          i := |path|;
        }
      } else {
        var text := [if ch == '\\' then '/' else ch];
        DecodeFirst(rest);
        assert rest[1..] == path[i + 1..];
        ConcatAssociative(decoded, text, Decode(path[i + 1..]));
        decoded := decoded + text;
        i := i + 1;
      }
    }
  }

  /** Second loop of the source: the segment stack. */
  method ResolveLoop(parts: seq<string>) returns (segments: seq<string>)
    ensures segments == Resolve(parts, [])
  {
    segments := [];
    for j := 0 to |parts|
      invariant Resolve(parts[j..], segments) == Resolve(parts, [])
    {
      ghost var rest := parts[j..];
      assert rest[1..] == parts[j + 1..];
      if parts[j] == "" || parts[j] == "." {
        continue;
      }
      if parts[j] == ".." {
        segments := if segments == [] then [] else segments[..|segments| - 1];
        continue;
      }
      segments := segments + [parts[j]];
    }
  }

  /** The loops of the source compute exactly `Normalize`. */
  method NormalizeRequestPath(path: string) returns (normal: string)
    ensures normal == Normalize(path)
  {
    var decoded := DecodeScan(path);
    var segments := ResolveLoop(Split(decoded, '/'));
    normal := if segments == [] then "/" else "/" + Join(segments, "/");
  }

  // ----- Shape of every result -----

  predicate AllSegments(segments: seq<string>)
  {
    forall i :: 0 <= i < |segments| ==> IsOrdinary(segments[i]) && '/' !in segments[i]
  }

  lemma {:induction false} ResolveKeepsOrdinary(parts: seq<string>, stack: seq<string>)
    requires AllSegments(stack)
    requires forall i :: 0 <= i < |parts| ==> '/' !in parts[i]
    ensures AllSegments(Resolve(parts, stack))
    decreases |parts|
  {
    if parts != [] {
      if parts[0] == "" || parts[0] == "." {
        ResolveKeepsOrdinary(parts[1..], stack);
      } else if parts[0] == ".." {
        ResolveKeepsOrdinary(parts[1..], if stack == [] then [] else stack[..|stack| - 1]);
      } else {
        ResolveKeepsOrdinary(parts[1..], stack + [parts[0]]);
      }
    }
  }

  lemma SegmentsOrdinary(path: string)
    ensures AllSegments(Segments(path))
  {
    SplitPartsFree(Decode(path), '/');
    ResolveKeepsOrdinary(Split(Decode(path), '/'), []);
  }

  // ----- Which pieces survive -----

  /** How many pieces in front of these are climbed out of, read from the right. */
  function Climbs(parts: seq<string>): (n: nat)
  {
    if parts == [] then 0
    else if parts[0] == ".." then Climbs(parts[1..]) + 1
    else if !IsOrdinary(parts[0]) || Climbs(parts[1..]) == 0 then Climbs(parts[1..])
    else Climbs(parts[1..]) - 1
  }

  /** The ordinary pieces that nothing to their right climbs out of. */
  function Kept(parts: seq<string>): (kept: seq<string>)
  {
    if parts == [] then []
    else (if IsOrdinary(parts[0]) && Climbs(parts[1..]) == 0 then [parts[0]] else []) + Kept(parts[1..])
  }

  /** A stack without its top `n` pieces. */
  function Without(stack: seq<string>, n: nat): (rest: seq<string>)
  {
    if n <= |stack| then stack[..|stack| - n] else []
  }

  lemma WithoutPopped(stack: seq<string>, n: nat)
    ensures Without(if stack == [] then [] else stack[..|stack| - 1], n) == Without(stack, n + 1)
  {
  }

  lemma WithoutPushed(stack: seq<string>, top: string, n: nat)
    ensures Without(stack + [top], n) == if n == 0 then stack + [top] else Without(stack, n - 1)
  {
  }

  lemma KeptOrdinary(head: string, rest: seq<string>)
    requires IsOrdinary(head)
    ensures Climbs([head] + rest) == (if Climbs(rest) == 0 then 0 else Climbs(rest) - 1)
    ensures Kept([head] + rest) == (if Climbs(rest) == 0 then [head] + Kept(rest) else Kept(rest))
  {
    assert ([head] + rest)[1..] == rest;
  }

  lemma ResolvePushed(head: string, rest: seq<string>, stack: seq<string>)
    requires IsOrdinary(head)
    requires Resolve(rest, stack + [head]) == Without(stack + [head], Climbs(rest)) + Kept(rest)
    ensures Resolve(rest, stack + [head]) == Without(stack, Climbs([head] + rest)) + Kept([head] + rest)
  {
    KeptOrdinary(head, rest);
    WithoutPushed(stack, head, Climbs(rest));
    ConcatAssociative(stack, [head], Kept(rest));
    assert Without(stack, 0) == stack;
  }

  /** The stack read from the left keeps what matching each `..` from the right keeps; the root stays. */
  lemma {:induction false} ResolveExactly(parts: seq<string>, stack: seq<string>)
    ensures Resolve(parts, stack) == Without(stack, Climbs(parts)) + Kept(parts)
    decreases |parts|
  {
    if parts != [] {
      var head, rest := parts[0], parts[1..];
      if head == "" || head == "." {
        ResolveExactly(rest, stack);
      } else if head == ".." {
        ResolveExactly(rest, if stack == [] then [] else stack[..|stack| - 1]);
        WithoutPopped(stack, Climbs(rest));
      } else {
        ResolveExactly(rest, stack + [head]);
        ResolvePushed(head, rest, stack);
        assert parts == [head] + rest;
      }
    }
  }

  /** A rendered segment list reads back as an empty first piece and then exactly the segments. */
  lemma RenderedPieces(segments: seq<string>)
    requires AllSegments(segments)
    ensures segments == [] ==> Render(segments) == "/"
    ensures segments != [] ==> Split(Render(segments), '/') == [""] + segments
  {
    if segments != [] {
      SplitJoin(segments, '/');
      SplitFree<char>([], '/');
      SplitConcat([], '/', Join(segments, "/"));
      assert [] + ['/'] + Join(segments, "/") == Render(segments);
    }
  }

  /** Whatever the input, the result is rooted and no piece of it is empty, `.` or `..`. */
  lemma NormalizedShape(path: string)
    ensures Normalize(path) != "" && Normalize(path)[0] == '/'
    ensures Normalize(path) == "/" ||
            forall i :: 0 < i < |Split(Normalize(path), '/')| ==> IsOrdinary(Split(Normalize(path), '/')[i])
    ensures Split(Normalize(path), '/')[0] == ""
  {
    SegmentsOrdinary(path);
    RenderedPieces(Segments(path));
  }

  /** The normal form is the root alone, or the surviving pieces of the decoded path behind it. */
  lemma NormalForm(path: string)
    ensures var kept := Kept(Split(Decode(path), '/'));
      if kept == [] then Normalize(path) == "/" else Split(Normalize(path), '/') == [""] + kept
  {
    var parts := Split(Decode(path), '/');
    ResolveExactly(parts, []);
    assert [] + Kept(parts) == Kept(parts);
    SegmentsOrdinary(path);
    RenderedPieces(Segments(path));
  }

  // ----- Well-formed percent triplets (section 2.1 of RFC 3986) -----

  predicate IsHex(c: char) { '0' <= c <= '9' || 'a' <= c <= 'f' || 'A' <= c <= 'F' }

  predicate WellFormed(path: string)
  {
    forall i :: 0 <= i < |path| && path[i] == '%' ==>
      i + 2 < |path| && IsHex(path[i + 1]) && IsHex(path[i + 2])
  }

  lemma HexDigitExactly(c: char, d: nat)
    requires d < 16
    ensures HexDigit(c) == Some(d) <==> c == "0123456789abcdef"[d] || c == "0123456789ABCDEF"[d]
    ensures HexDigit(c).Some? <==> IsHex(c)
  {
  }

  lemma WellFormedSuffix(path: string, k: nat)
    requires WellFormed(path) && k <= |path|
    ensures WellFormed(path[k..])
  {
    forall i | 0 <= i < |path[k..]| && path[k..][i] == '%'
      ensures i + 2 < |path[k..]| && IsHex(path[k..][i + 1]) && IsHex(path[k..][i + 2])
    {
      assert path[k + i] == '%';
    }
  }

  lemma WellFormedConcat(a: string, b: string)
    requires WellFormed(a) && WellFormed(b)
    ensures WellFormed(a + b)
  {
    var s := a + b;
    forall i | 0 <= i < |s| && s[i] == '%'
      ensures i + 2 < |s| && IsHex(s[i + 1]) && IsHex(s[i + 2])
    {
      if i < |a| {
        assert a[i] == '%';
      } else {
        assert b[i - |a|] == '%';
      }
    }
  }

  /** A character that is not a hexadecimal digit cannot be inside a triplet. */
  lemma WellFormedAround(a: string, c: char, b: string)
    requires WellFormed(a + [c] + b) && !IsHex(c)
    ensures WellFormed(a)
    ensures WellFormed(b)
  {
    var s := a + [c] + b;
    WellFormedSuffix(s, |a| + 1);
    assert s[|a| + 1..] == b;
    forall i | 0 <= i < |a| && a[i] == '%'
      ensures i + 2 < |a| && IsHex(a[i + 1]) && IsHex(a[i + 2])
    {
      assert s[i] == '%' && s[|a|] == c;
      assert a[i + 1] == s[i + 1] && a[i + 2] == s[i + 2];
    }
  }

  lemma SameHead(a: string, b: string)
    requires a != [] && |a| >= HeadSize(a)
    ensures HeadSize(a + b) == HeadSize(a) && DecodeHead(a + b) == DecodeHead(a)
    ensures (a + b)[HeadSize(a)..] == a[HeadSize(a)..] + b
  {
    var s := a + b;
    assert s[0] == a[0];
    if a[0] == '%' {
      assert s[1] == a[1] && s[2] == a[2];
    }
  }

  /** Read left to right, the text ends on a boundary: it does not stop inside a triplet. */
  predicate Closed(s: string)
    decreases |s|
  {
    s == [] || (if s[0] == '%' then |s| >= 3 && Closed(s[3..]) else Closed(s[1..]))
  }

  lemma {:induction false} WellFormedIsClosed(s: string)
    requires WellFormed(s)
    ensures Closed(s)
    decreases |s|
  {
    if s != [] {
      WellFormedSuffix(s, HeadSize(s));
      WellFormedIsClosed(s[HeadSize(s)..]);
    }
  }

  /** After closed text, decoding starts afresh. */
  lemma {:induction false} DecodeConcat(a: string, b: string)
    requires Closed(a)
    ensures Decode(a + b) == Decode(a) + Decode(b)
    decreases |a|
  {
    if a == [] {
      assert a + b == b;
    } else {
      var rest := a[HeadSize(a)..];
      DecodeConcat(rest, b);
      SameHead(a, b);
      calc {
        Decode(a + b);
        { DecodeFirst(a + b); }
        DecodeHead(a) + Decode(rest + b);
        DecodeHead(a) + (Decode(rest) + Decode(b));
        { ConcatAssociative(DecodeHead(a), Decode(rest), Decode(b)); }
        DecodeHead(a) + Decode(rest) + Decode(b);
        { DecodeFirst(a); }
        Decode(a) + Decode(b);
      }
    }
  }

  // ----- What is decoded, and nothing else -----

  predicate EncodesSlash(t: string) { t in {"%2F", "%2f", "%5C", "%5c"} }

  predicate EncodesDot(t: string) { t in {"%2E", "%2e"} }

  /** Six triplets are decoded; every other text of that shape stays, hexadecimal or not. */
  lemma TripletExactly(t: string)
    requires |t| == 3 && t[0] == '%'
    ensures DecodeTriplet(t[1], t[2]) == if EncodesSlash(t) then "/" else if EncodesDot(t) then "." else t
  {
    assert t == ['%', t[1], t[2]];
  }

  /** At any place the scan reaches, a triplet becomes what it encodes or stays as it is. */
  lemma TripletDecoded(a: string, t: string, b: string)
    requires Closed(a) && |t| == 3 && t[0] == '%'
    ensures Decode(a + t + b) ==
      Decode(a) + (if EncodesSlash(t) then "/" else if EncodesDot(t) then "." else t) + Decode(b)
  {
    TripletExactly(t);
    ConcatAssociative(a, t, b);
    DecodeConcat(a, t + b);
    DecodeFirst(t + b);
    assert (t + b)[3..] == b;
    ConcatAssociative(Decode(a), DecodeTriplet(t[1], t[2]), Decode(b));
  }

  /** Any other character stays, save that a backslash becomes a slash. */
  lemma CharDecoded(a: string, c: char, b: string)
    requires Closed(a) && c != '%'
    ensures Decode(a + [c] + b) == Decode(a) + [if c == '\\' then '/' else c] + Decode(b)
  {
    ConcatAssociative(a, [c], b);
    DecodeConcat(a, [c] + b);
    DecodeFirst([c] + b);
    assert ([c] + b)[1..] == b;
    ConcatAssociative(Decode(a), [if c == '\\' then '/' else c], Decode(b));
  }

  /** A triplet cut off by the end of the path stays. */
  lemma CutOffKept(a: string, t: string)
    requires Closed(a) && (t == "" || (t[0] == '%' && |t| < 3))
    ensures Decode(a + t) == Decode(a) + t
  {
    DecodeConcat(a, t);
  }

  // ----- Invariance under respelling -----

  lemma {:induction false} ResolveConcat(xs: seq<string>, ys: seq<string>, stack: seq<string>)
    ensures Resolve(xs + ys, stack) == Resolve(ys, Resolve(xs, stack))
    decreases |xs|
  {
    if xs == [] {
      assert xs + ys == ys;
    } else {
      assert (xs + ys)[1..] == xs[1..] + ys;
      if xs[0] == "" || xs[0] == "." {
        ResolveConcat(xs[1..], ys, stack);
      } else if xs[0] == ".." {
        ResolveConcat(xs[1..], ys, if stack == [] then [] else stack[..|stack| - 1]);
      } else {
        ResolveConcat(xs[1..], ys, stack + [xs[0]]);
      }
    }
  }

  /** Spellings of the text between two segments that must not change the route. */
  ghost predicate SpellsSlash(spelling: string)
  {
    || spelling in {"/", "//", "/./", "\\", "%2F", "%2f", "%5C", "%5c"}
    || exists x :: SpellsDetour(spelling, x)
  }

  /** `/x/../` where x is one ordinary segment, itself possibly percent-encoded. */
  predicate SpellsDetour(spelling: string, x: string)
  {
    spelling == "/" + x + "/../" && WellFormed(x) && '/' !in Decode(x) && IsOrdinary(Decode(x))
  }

  /** Decoded text that separates like a single slash: the pieces it adds change no stack. */
  ghost predicate Separates(decoded: string, mid: string)
  {
    decoded == "/" || (decoded == "/" + mid + "/" && Neutral(Split(mid, '/')))
  }

  ghost predicate Neutral(pieces: seq<string>)
  {
    forall stack :: Resolve(pieces, stack) == stack
  }

  lemma DetourNeutral(d: string)
    requires '/' !in d && IsOrdinary(d)
    ensures Neutral(Split(d + "/..", '/'))
  {
    SplitFree(d, '/');
    SplitFree("..", '/');
    SplitConcat(d, '/', "..");
    assert d + "/.." == d + ['/'] + "..";
    var pieces := [d, ".."];
    assert Split(d + "/..", '/') == pieces;
    forall stack ensures Resolve(pieces, stack) == stack {
      assert pieces[1..] == [".."];
      var pushed := stack + [d];
      assert [".."][1..] == [];
      assert Resolve([".."], pushed) == pushed[..|pushed| - 1] == stack;
    }
  }

  lemma DetourDecoded(x: string)
    requires WellFormed(x)
    ensures WellFormed("/" + x + "/../")
    ensures Decode("/" + x + "/../") == "/" + Decode(x) + "/../"
  {
    var tail := "/../";
    WellFormedConcat("/", x);
    WellFormedConcat("/" + x, tail);
    DecodeAround("/", x, tail);
    assert tail[1..] == "../" && "../"[1..] == "./" && "./"[1..] == "/";
    assert Decode("/") == "/";
  }

  /** Spellings that decode to a bare slash. */
  lemma PlainSlashDecoded(spelling: string)
    requires spelling in {"/", "\\", "%2F", "%2f", "%5C", "%5c"}
    ensures WellFormed(spelling) && Decode(spelling) == "/"
  {
  }

  lemma DoubledSlashDecoded(spelling: string) returns (mid: string)
    requires spelling == "//" || spelling == "/./"
    ensures WellFormed(spelling) && Separates(Decode(spelling), mid)
  {
    mid := if spelling == "//" then "" else ".";
    assert "//"[1..] == "/" && "/./"[1..] == "./" && "./"[1..] == "/";
    SplitFree(mid, '/');
    assert Neutral([mid]);
  }

  lemma SlashDecoded(spelling: string) returns (mid: string)
    requires SpellsSlash(spelling)
    ensures WellFormed(spelling)
    ensures Separates(Decode(spelling), mid)
  {
    if x :| SpellsDetour(spelling, x) {
      DetourDecoded(x);
      DetourNeutral(Decode(x));
      mid := Decode(x) + "/..";
      assert "/" + Decode(x) + "/../" == "/" + mid + "/";
    } else if spelling == "//" || spelling == "/./" {
      mid := DoubledSlashDecoded(spelling);
    } else {
      mid := "";
      PlainSlashDecoded(spelling);
    }
  }

  lemma DecodeAround(a: string, m: string, b: string)
    requires WellFormed(a) && WellFormed(m)
    ensures Decode(a + m + b) == Decode(a) + Decode(m) + Decode(b)
    ensures WellFormed(b) ==> WellFormed(a + m + b)
  {
    WellFormedConcat(a, m);
    WellFormedIsClosed(a);
    WellFormedIsClosed(a + m);
    DecodeConcat(a + m, b);
    DecodeConcat(a, m);
    if WellFormed(b) {
      WellFormedConcat(a + m, b);
    }
  }

  lemma ResolveThrough(da: string, dm: string, mid: string, db: string)
    requires Separates(dm, mid)
    ensures Resolve(Split(da + dm + db, '/'), []) == Resolve(Split(db, '/'), Resolve(Split(da, '/'), []))
  {
    var xs, ys := Split(da, '/'), Split(db, '/');
    if dm == "/" {
      SplitConcat(da, '/', db);
      ResolveConcat(xs, ys, []);
    } else {
      var tail := mid + ['/'] + db;
      assert da + dm + db == da + ['/'] + tail;
      SplitConcat(da, '/', tail);
      SplitConcat(mid, '/', db);
      ResolveConcat(xs, Split(mid, '/') + ys, []);
      ResolveConcat(Split(mid, '/'), ys, Resolve(xs, []));
    }
  }

  lemma SegmentsThroughSlash(a: string, spelling: string, b: string)
    requires WellFormed(a) && WellFormed(b) && SpellsSlash(spelling)
    ensures WellFormed(a + spelling + b)
    ensures Segments(a + spelling + b) == Resolve(Split(Decode(b), '/'), Resolve(Split(Decode(a), '/'), []))
  {
    var mid := SlashDecoded(spelling);
    DecodeAround(a, spelling, b);
    ResolveThrough(Decode(a), Decode(spelling), mid, Decode(b));
  }

  /** Respelling a slash anywhere in a well-formed path leaves the normal form unchanged. */
  lemma SlashRespelling(a: string, spelling: string, b: string)
    requires WellFormed(a + "/" + b) && SpellsSlash(spelling)
    ensures WellFormed(a + spelling + b)
    ensures Normalize(a + spelling + b) == Normalize(a + "/" + b)
  {
    WellFormedAround(a, '/', b);
    SegmentsThroughSlash(a, spelling, b);
    SegmentsThroughSlash(a, "/", b);
  }

  lemma DotDecoded(spelling: string)
    requires spelling in {".", "%2E", "%2e"}
    ensures WellFormed(spelling) && Decode(spelling) == "."
  {
  }

  /** Percent-encoding a dot anywhere in a well-formed path leaves the normal form unchanged. */
  lemma DotRespelling(a: string, spelling: string, b: string)
    requires WellFormed(a + "." + b) && (spelling == "%2E" || spelling == "%2e")
    ensures WellFormed(a + spelling + b)
    ensures Normalize(a + spelling + b) == Normalize(a + "." + b)
  {
    WellFormedAround(a, '.', b);
    DotDecoded(spelling);
    DotDecoded(".");
    DecodeAround(a, spelling, b);
    DecodeAround(a, ".", b);
  }

  // ----- Idempotence -----

  /** Read left to right, nothing is left to decode: no bare backslash, no encoded slash, backslash or dot. */
  predicate Stable(path: string)
    decreases |path|
  {
    if path == [] then true
    else if path[0] == '%' then
      |path| < 3 || (!EncodesSlash(path[..3]) && !EncodesDot(path[..3]) && Stable(path[3..]))
    else path[0] != '\\' && Stable(path[1..])
  }

  lemma {:induction false} StableDecodes(path: string)
    requires Stable(path)
    ensures Decode(path) == path
    decreases |path|
  {
    if path != [] {
      if path[0] == '%' {
        if |path| >= 3 {
          StableDecodes(path[3..]);
          TripletExactly(path[..3]);
          assert path == path[..3] + path[3..];
        }
      } else {
        StableDecodes(path[1..]);
      }
    }
  }

  /** A well-formed text starts with one character that is not `%`, or with a whole triplet. */
  lemma StableTriplet(t: string, rest: string)
    requires |t| == 3 && t[0] == '%'
    ensures Stable(t + rest) <==> !EncodesSlash(t) && !EncodesDot(t) && Stable(rest)
  {
    var s := t + rest;
    assert s[..3] == t && s[3..] == rest;
  }

  lemma StableChar(c: char, rest: string)
    requires c != '%'
    ensures Stable([c] + rest) <==> c != '\\' && Stable(rest)
  {
    assert ([c] + rest)[1..] == rest;
  }

  /** After closed text, reading starts afresh. */
  lemma {:induction false} StableConcat(a: string, b: string)
    requires Closed(a)
    ensures Stable(a + b) <==> Stable(a) && Stable(b)
    decreases |a|
  {
    if a == [] {
      assert a + b == b;
    } else if a[0] == '%' {
      var t, rest := a[..3], a[3..];
      StableConcat(rest, b);
      assert a == t + rest && a + b == t + (rest + b);
      StableTriplet(t, rest);
      StableTriplet(t, rest + b);
    } else {
      var rest := a[1..];
      StableConcat(rest, b);
      assert a == [a[0]] + rest && a + b == [a[0]] + (rest + b);
      StableChar(a[0], rest);
      StableChar(a[0], rest + b);
    }
  }

  /** Decoding leaves nothing more to decode, for any input. */
  lemma {:induction false} DecodedIsStable(path: string)
    ensures Stable(Decode(path))
    decreases |path|
  {
    if path != [] && path[0] == '%' && |path| >= 3 {
      var t := DecodeTriplet(path[1], path[2]);
      DecodedIsStable(path[3..]);
      TripletExactly(path[..3]);
      assert path[..3] == ['%', path[1], path[2]];
      if t == ['%', path[1], path[2]] {
        StableTriplet(t, Decode(path[3..]));
      } else {
        StableChar(t[0], Decode(path[3..]));
      }
    } else if path != [] && path[0] != '%' {
      DecodedIsStable(path[1..]);
      StableChar(if path[0] == '\\' then '/' else path[0], Decode(path[1..]));
    }
  }

  // ----- Paths whose triplets hold no slash -----

  /** Read left to right, no triplet contains a slash, well formed or not; a cut-off one at the end may. */
  predicate SlashFreeTriplets(path: string)
    decreases |path|
  {
    || path == []
    || (if path[0] == '%' then |path| < 3 || ('/' !in path[1..3] && SlashFreeTriplets(path[3..]))
        else SlashFreeTriplets(path[1..]))
  }

  lemma SlashFreeTriplet(t: string, rest: string)
    requires |t| == 3 && t[0] == '%'
    ensures SlashFreeTriplets(t + rest) <==> '/' !in t && SlashFreeTriplets(rest)
  {
    var s := t + rest;
    assert s[1..3] == t[1..] && s[3..] == rest && t == [t[0]] + t[1..];
  }

  lemma SlashFreeChar(c: char, rest: string)
    requires c != '%'
    ensures SlashFreeTriplets([c] + rest) <==> SlashFreeTriplets(rest)
  {
    assert ([c] + rest)[1..] == rest;
  }

  lemma {:induction false} WellFormedIsSlashFree(path: string)
    requires WellFormed(path)
    ensures SlashFreeTriplets(path)
    decreases |path|
  {
    if path != [] {
      WellFormedSuffix(path, HeadSize(path));
      WellFormedIsSlashFree(path[HeadSize(path)..]);
      assert path[0] == '%' ==> IsHex(path[1]) && IsHex(path[2]) && path[1..3] == [path[1], path[2]];
    }
  }

  lemma {:induction false} DecodedIsSlashFree(path: string)
    requires SlashFreeTriplets(path)
    ensures SlashFreeTriplets(Decode(path))
    decreases |path|
  {
    if path != [] && path[0] == '%' && |path| >= 3 {
      var t := DecodeTriplet(path[1], path[2]);
      DecodedIsSlashFree(path[3..]);
      assert path[1..3] == [path[1], path[2]];
      if t == ['%', path[1], path[2]] {
        SlashFreeTriplet(t, Decode(path[3..]));
      } else {
        SlashFreeChar(t[0], Decode(path[3..]));
      }
    } else if path != [] && path[0] != '%' {
      DecodedIsSlashFree(path[1..]);
      SlashFreeChar(if path[0] == '\\' then '/' else path[0], Decode(path[1..]));
    }
  }

  /** Stable pieces, all closed but possibly one with nothing after it. */
  predicate Tame(parts: seq<string>)
  {
    parts == [] || (Stable(parts[0]) && if Closed(parts[0]) then Tame(parts[1..]) else AllEmpty(parts[1..]))
  }

  predicate AllEmpty(parts: seq<string>) { forall i :: 0 <= i < |parts| ==> parts[i] == "" }

  lemma {:induction false} SplitAfter(t: string, rest: string)
    requires '/' !in t
    ensures Split(t + rest, '/') == [t + Split(rest, '/')[0]] + Split(rest, '/')[1..]
  {
    var parts := Split(rest, '/');
    if t == [] {
      assert t + rest == rest && t + parts[0] == parts[0] && parts == [parts[0]] + parts[1..];
    } else {
      assert (t + rest)[1..] == t[1..] + rest;
      SplitAfter(t[1..], rest);
      var more := Split(t[1..] + rest, '/');
      assert [t[0]] + (t[1..] + parts[0]) == t + parts[0] && more[1..] == parts[1..];
    }
  }

  /** A piece read in front of the first of tame pieces keeps them tame. */
  lemma TameAfter(t: string, parts: seq<string>)
    requires parts != [] && Tame(parts)
    requires Stable(t + parts[0]) <==> Stable(parts[0])
    requires Closed(t + parts[0]) <==> Closed(parts[0])
    ensures Tame([t + parts[0]] + parts[1..])
  {
    var longer := [t + parts[0]] + parts[1..];
    assert longer[1..] == parts[1..];
  }

  lemma ClosedTriplet(t: string, rest: string)
    requires |t| == 3 && t[0] == '%'
    ensures Closed(t + rest) <==> Closed(rest)
  {
    assert (t + rest)[3..] == rest;
  }

  lemma ClosedChar(c: char, rest: string)
    requires c != '%'
    ensures Closed([c] + rest) <==> Closed(rest)
  {
    assert ([c] + rest)[1..] == rest;
  }

  lemma CutOffAtSlash()
    ensures Split(['%', '/'], '/') == [['%'], []]
  {
    assert ['%', '/'] == ['%'] + ['/'] + [];
    SplitConcat(['%'], '/', []);
    SplitFree(['%'], '/');
    SplitFree<char>([], '/');
  }

  lemma CutOffPieces(text: string)
    requires text != [] && |text| < 3 && text[0] == '%'
    ensures Tame(Split(text, '/'))
  {
    if |text| == 2 && text[1] == '/' {
      CutOffAtSlash();
      assert text == ['%', '/'];
      var parts := [['%'], []];
      assert Stable(parts[0]) && !Closed(parts[0]) && parts[1..] == [[]];
    } else {
      SplitFree(text, '/');
      assert [text][1..] == [];
    }
  }

  lemma {:induction false} PiecesTame(text: string)
    requires Stable(text) && SlashFreeTriplets(text)
    ensures Tame(Split(text, '/'))
    decreases |text|
  {
    if text == [] {
      assert [text][1..] == [];
    } else if text[0] == '%' && |text| < 3 {
      CutOffPieces(text);
    } else if text[0] == '%' {
      var t, rest := text[..3], text[3..];
      PiecesTame(rest);
      assert text == t + rest && text[1..3] == t[1..] && t == [t[0]] + t[1..];
      SplitAfter(t, rest);
      StableTriplet(t, Split(rest, '/')[0]);
      ClosedTriplet(t, Split(rest, '/')[0]);
      TameAfter(t, Split(rest, '/'));
    } else if text[0] == '/' {
      PiecesTame(text[1..]);
      assert ([[]] + Split(text[1..], '/'))[1..] == Split(text[1..], '/');
    } else {
      var t, rest := [text[0]], text[1..];
      PiecesTame(rest);
      assert text == t + rest;
      SplitAfter(t, rest);
      StableChar(text[0], Split(rest, '/')[0]);
      ClosedChar(text[0], Split(rest, '/')[0]);
      TameAfter(t, Split(rest, '/'));
    }
  }

  predicate AllStable(segments: seq<string>) { forall i :: 0 <= i < |segments| ==> Stable(segments[i]) }

  /** Every segment is closed, the last one excepted. */
  predicate ClosedButLast(segments: seq<string>) { forall i :: 0 <= i < |segments| - 1 ==> Closed(segments[i]) }

  predicate AllClosed(segments: seq<string>) { forall i :: 0 <= i < |segments| ==> Closed(segments[i]) }

  lemma {:induction false} ResolveEmpty(parts: seq<string>, stack: seq<string>)
    requires AllEmpty(parts)
    ensures Resolve(parts, stack) == stack
    decreases |parts|
  {
    if parts != [] { ResolveEmpty(parts[1..], stack); }
  }

  lemma DotsAreClosed()
    ensures Closed("") && Closed(".") && Closed("..")
  {
    assert "."[1..] == "" && ".."[1..] == ".";
  }

  lemma {:induction false} ResolveTame(parts: seq<string>, stack: seq<string>)
    requires Tame(parts) && AllStable(stack) && AllClosed(stack)
    ensures AllStable(Resolve(parts, stack)) && ClosedButLast(Resolve(parts, stack))
    decreases |parts|
  {
    if parts != [] {
      DotsAreClosed();
      if !Closed(parts[0]) {
        ResolveEmpty(parts[1..], stack + [parts[0]]);
      } else if parts[0] == "" || parts[0] == "." {
        ResolveTame(parts[1..], stack);
      } else if parts[0] == ".." {
        ResolveTame(parts[1..], if stack == [] then [] else stack[..|stack| - 1]);
      } else {
        ResolveTame(parts[1..], stack + [parts[0]]);
      }
    }
  }

  lemma {:induction false} JoinedIsStable(segments: seq<string>)
    requires AllStable(segments) && ClosedButLast(segments)
    ensures Stable(Join(segments, "/"))
  {
    if |segments| > 1 {
      var rest := Join(segments[1..], "/");
      JoinedIsStable(segments[1..]);
      assert segments == [segments[0]] + segments[1..];
      JoinCons(segments[0], segments[1..], "/");
      StableConcat(segments[0], "/" + rest);
      StableChar('/', rest);
    }
  }

  /** Where no triplet holds a slash, normalising twice is normalising once. */
  lemma SlashFreeIdempotent(path: string)
    requires SlashFreeTriplets(path)
    ensures Normalize(Normalize(path)) == Normalize(path)
  {
    DecodedIsStable(path);
    DecodedIsSlashFree(path);
    PiecesTame(Decode(path));
    ResolveTame(Split(Decode(path), '/'), []);
    JoinedIsStable(Segments(path));
    StableChar('/', Join(Segments(path), "/"));
    SegmentsOrdinary(path);
    NormalizeStable(Segments(path));
  }

  // ----- Well-formed paths stay well formed -----

  lemma DecodedHeadIsWellFormed(path: string)
    requires WellFormed(path) && path != []
    ensures |path| >= HeadSize(path) && WellFormed(DecodeHead(path))
  {
  }

  lemma {:induction false} DecodedIsWellFormed(path: string)
    requires WellFormed(path)
    ensures WellFormed(Decode(path))
    decreases |path|
  {
    if path != [] {
      DecodedHeadIsWellFormed(path);
      DecodeFirst(path);
      var rest := path[HeadSize(path)..];
      WellFormedSuffix(path, HeadSize(path));
      DecodedIsWellFormed(rest);
      WellFormedConcat(DecodeHead(path), Decode(rest));
    }
  }

  predicate AllWellFormed(segments: seq<string>) { forall i :: 0 <= i < |segments| ==> WellFormed(segments[i]) }

  lemma {:induction false} PiecesWellFormed(text: string)
    requires WellFormed(text)
    ensures AllWellFormed(Split(text, '/'))
    decreases |text|
  {
    if '/' !in text {
      SplitFree(text, '/');
    } else {
      var a, b := CutAtSlash(text);
      WellFormedAround(a, '/', b);
      PiecesWellFormed(a);
      PiecesWellFormed(b);
      SplitConcat(a, '/', b);
    }
  }

  lemma {:induction false} CutAtSlash(text: string) returns (a: string, b: string)
    requires '/' in text
    ensures text == a + ['/'] + b
    decreases |text|
  {
    if text[0] == '/' {
      a, b := [], text[1..];
    } else {
      a, b := CutAtSlash(text[1..]);
      a := [text[0]] + a;
    }
  }

  lemma {:induction false} ResolveKeepsWellFormed(parts: seq<string>, stack: seq<string>)
    requires AllWellFormed(parts) && AllWellFormed(stack)
    ensures AllWellFormed(Resolve(parts, stack))
    decreases |parts|
  {
    if parts != [] {
      if parts[0] == "" || parts[0] == "." {
        ResolveKeepsWellFormed(parts[1..], stack);
      } else if parts[0] == ".." {
        ResolveKeepsWellFormed(parts[1..], if stack == [] then [] else stack[..|stack| - 1]);
      } else {
        ResolveKeepsWellFormed(parts[1..], stack + [parts[0]]);
      }
    }
  }

  lemma {:induction false} JoinedIsWellFormed(segments: seq<string>)
    requires AllWellFormed(segments)
    ensures WellFormed(Join(segments, "/"))
  {
    if |segments| > 1 {
      JoinedIsWellFormed(segments[1..]);
      WellFormedConcat(segments[0], "/");
      WellFormedConcat(segments[0] + "/", Join(segments[1..], "/"));
    }
  }

  lemma {:induction false} ResolveOrdinary(segments: seq<string>, stack: seq<string>)
    requires forall i :: 0 <= i < |segments| ==> IsOrdinary(segments[i])
    ensures Resolve(segments, stack) == stack + segments
    decreases |segments|
  {
    if segments != [] {
      ResolveOrdinary(segments[1..], stack + [segments[0]]);
    }
  }

  lemma RenderedResolves(segments: seq<string>)
    requires AllSegments(segments)
    ensures Resolve(Split(Render(segments), '/'), []) == segments
  {
    RenderedPieces(segments);
    if segments == [] {
      SplitFree<char>([], '/');
      SplitConcat<char>([], '/', []);
      assert [] + ['/'] + [] == "/";
      assert ["", ""][1..] == [""] && [""][1..] == [];
    } else {
      assert ([""] + segments)[1..] == segments;
      ResolveOrdinary(segments, []);
    }
  }

  lemma NormalizeStable(segments: seq<string>)
    requires AllSegments(segments) && Stable(Render(segments))
    ensures Normalize(Render(segments)) == Render(segments)
  {
    StableDecodes(Render(segments));
    RenderedResolves(segments);
  }

  /** Normalising a well-formed path twice is normalising it once, and the result is well formed. */
  lemma NormalizeIdempotent(path: string)
    requires WellFormed(path)
    ensures Normalize(Normalize(path)) == Normalize(path)
    ensures WellFormed(Normalize(path))
  {
    WellFormedIsSlashFree(path);
    SlashFreeIdempotent(path);
    DecodedIsWellFormed(path);
    PiecesWellFormed(Decode(path));
    ResolveKeepsWellFormed(Split(Decode(path), '/'), []);
    JoinedIsWellFormed(Segments(path));
    WellFormedConcat("/", Join(Segments(path), "/"));
  }

  // ----- Exactly when a second pass changes nothing, for any input -----

  /** Characters that only decoding can remove. */
  function Escapes(s: string): (n: nat)
  {
    if s == [] then 0 else (if s[0] == '%' || s[0] == '\\' then 1 else 0) + Escapes(s[1..])
  }

  function EscapesIn(parts: seq<string>): (n: nat)
  {
    if parts == [] then 0 else Escapes(parts[0]) + EscapesIn(parts[1..])
  }

  lemma {:induction false} EscapesConcat(a: string, b: string)
    ensures Escapes(a + b) == Escapes(a) + Escapes(b)
  {
    if a == [] {
      assert a + b == b;
    } else {
      assert (a + b)[1..] == a[1..] + b;
      EscapesConcat(a[1..], b);
    }
  }

  lemma {:induction false} EscapesInConcat(xs: seq<string>, ys: seq<string>)
    ensures EscapesIn(xs + ys) == EscapesIn(xs) + EscapesIn(ys)
  {
    if xs == [] {
      assert xs + ys == ys;
    } else {
      assert (xs + ys)[1..] == xs[1..] + ys;
      EscapesInConcat(xs[1..], ys);
    }
  }

  lemma {:induction false} DecodeShrinksEscapes(path: string)
    ensures Escapes(Decode(path)) <= Escapes(path)
    ensures !Stable(path) ==> Escapes(Decode(path)) < Escapes(path)
    decreases |path|
  {
    if path != [] {
      if path[0] == '%' {
        if |path| >= 3 {
          DecodeShrinksEscapes(path[3..]);
          TripletExactly(path[..3]);
          EscapesConcat(DecodeTriplet(path[1], path[2]), Decode(path[3..]));
          EscapesConcat(path[..3], path[3..]);
          assert path == path[..3] + path[3..];
          assert path[..3] == ['%', path[1], path[2]];
        }
      } else {
        DecodeShrinksEscapes(path[1..]);
        EscapesConcat([if path[0] == '\\' then '/' else path[0]], Decode(path[1..]));
      }
    }
  }

  lemma {:induction false} SplitEscapes(s: string)
    ensures EscapesIn(Split(s, '/')) == Escapes(s)
  {
    if s != [] {
      SplitEscapes(s[1..]);
      var rest := Split(s[1..], '/');
      if s[0] == '/' {
        assert Split(s, '/')[1..] == rest;
      } else {
        EscapesConcat([s[0]], rest[0]);
        assert Split(s, '/')[1..] == rest[1..];
      }
    }
  }

  lemma {:induction false} ResolveEscapes(parts: seq<string>, stack: seq<string>)
    ensures EscapesIn(Resolve(parts, stack)) <= EscapesIn(parts) + EscapesIn(stack)
    decreases |parts|
  {
    if parts != [] {
      if parts[0] == "" || parts[0] == "." {
        ResolveEscapes(parts[1..], stack);
      } else if parts[0] == ".." {
        var popped := if stack == [] then [] else stack[..|stack| - 1];
        ResolveEscapes(parts[1..], popped);
        if stack != [] {
          assert stack == popped + [stack[|stack| - 1]];
          EscapesInConcat(popped, [stack[|stack| - 1]]);
        }
      } else {
        ResolveEscapes(parts[1..], stack + [parts[0]]);
        EscapesInConcat(stack, [parts[0]]);
      }
    }
  }

  lemma {:induction false} JoinEscapes(segments: seq<string>)
    ensures Escapes(Join(segments, "/")) == EscapesIn(segments)
  {
    if |segments| == 1 {
      assert segments[1..] == [];
    } else if |segments| > 1 {
      JoinEscapes(segments[1..]);
      EscapesConcat(segments[0], "/");
      EscapesConcat(segments[0] + "/", Join(segments[1..], "/"));
    }
  }

  /** Where something is left to decode, a pass removes an escape. */
  lemma UnstableShrinks(path: string)
    requires !Stable(path)
    ensures Escapes(Normalize(path)) < Escapes(path)
  {
    DecodeShrinksEscapes(path);
    SplitEscapes(Decode(path));
    ResolveEscapes(Split(Decode(path), '/'), []);
    JoinEscapes(Segments(path));
    EscapesConcat("/", Join(Segments(path), "/"));
  }

  lemma FewerEscapesInFront(front: seq<string>, all: seq<string>)
    requires front <= all
    ensures EscapesIn(front) <= EscapesIn(all)
  {
    var rest := all[|front|..];
    assert all == front + rest;
    EscapesInConcat(front, rest);
  }

  /** A path whose pieces are the first pieces of another holds no more escapes. */
  lemma FewerPiecesFewerEscapes(path: string, longer: string)
    requires Split(path, '/') <= Split(longer, '/')
    ensures Escapes(path) <= Escapes(longer)
  {
    SplitEscapes(path);
    SplitEscapes(longer);
    FewerEscapesInFront(Split(path, '/'), Split(longer, '/'));
  }

  /** Rooted, with ordinary pieces only. */
  predicate Resolved(path: string)
  {
    || path == "/"
    || (&& |Split(path, '/')| > 1 && Split(path, '/')[0] == ""
        && forall i :: 0 < i < |Split(path, '/')| ==> IsOrdinary(Split(path, '/')[i]))
  }

  lemma ResolvedIsRendered(path: string) returns (segments: seq<string>)
    requires Resolved(path)
    ensures AllSegments(segments) && path == Render(segments)
  {
    if path == "/" {
      segments := [];
    } else {
      var parts := Split(path, '/');
      segments := parts[1..];
      SplitPartsFree(path, '/');
      JoinSplit(path, '/');
      assert parts == [""] + segments;
      JoinCons("", segments, "/");
    }
  }

  /** The paths left alone are exactly those that are resolved and have nothing to decode, for any input. */
  lemma FixedPoints(path: string)
    ensures Normalize(path) == path <==> Resolved(path) && Stable(path)
  {
    if Resolved(path) && Stable(path) {
      var segments := ResolvedIsRendered(path);
      NormalizeStable(segments);
    }
    if Normalize(path) == path {
      NormalizedShape(path);
      SegmentsOrdinary(path);
      RenderedPieces(Segments(path));
      if !Stable(path) { UnstableShrinks(path); }
    }
  }

  /** So a second pass is a no-op exactly when the first left nothing to decode. */
  lemma SecondPassNoOp(path: string)
    ensures Normalize(Normalize(path)) == Normalize(path) <==> Stable(Normalize(path))
  {
    SegmentsOrdinary(path);
    if Stable(Normalize(path)) {
      NormalizeStable(Segments(path));
    } else {
      UnstableShrinks(Normalize(path));
    }
  }

  lemma MalformedPieces()
    ensures Split("/%//%a\\", '/') == ["", "%", "", "%a\\"]
  {
    SplitFree("", '/');
    SplitFree("%", '/');
    SplitFree("%a\\", '/');
    SplitConcat("", '/', "%//%a\\");
    SplitConcat("%", '/', "/%a\\");
    SplitConcat("", '/', "%a\\");
    assert "" + ['/'] + "%//%a\\" == "/%//%a\\";
    assert "%" + ['/'] + "/%a\\" == "%//%a\\" && "" + ['/'] + "%a\\" == "/%a\\";
  }

  lemma MalformedDecoded()
    ensures Decode("/%//%a\\") == "/%//%a\\"
  {
    var s, t := "/%//%a\\", "%//%a\\";
    assert s[1..] == t && t[3..] == "%a\\" && t[3..][3..] == [];
    assert Decode(t) == t;
  }

  lemma MalformedResolved()
    ensures Resolve(["", "%", "", "%a\\"], []) == ["%", "%a\\"]
  {
    var parts := ["", "%", "", "%a\\"];
    assert parts[1..] == ["%", "", "%a\\"] && parts[1..][1..] == ["", "%a\\"];
    assert ["", "%a\\"][1..] == ["%a\\"] && ["%a\\"][1..] == [];
  }

  lemma MalformedOnce()
    ensures Normalize("/%//%a\\") == "/%/%a\\"
  {
    MalformedDecoded();
    MalformedPieces();
    MalformedResolved();
    JoinCons("%", ["%a\\"], "/");
    assert ["%"] + ["%a\\"] == ["%", "%a\\"];
  }

  /** Without well-formed triplets a second pass can change the result: a malformed `%` shields a backslash once. */
  lemma MalformedNotIdempotent()
    ensures !WellFormed("/%//%a\\")
    ensures Normalize(Normalize("/%//%a\\")) != Normalize("/%//%a\\")
  {
    var s := "/%//%a\\";
    assert s[1] == '%' && !IsHex(s[2]);
    MalformedOnce();
    var once := "/%/%a\\";
    assert once[1..] == "%/%a\\" && once[1..][3..] == "a\\" && once[1..][3..][1..] == "\\";
    assert !Stable(once);
    UnstableShrinks(once);
  }
}

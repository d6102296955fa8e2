/** UTF-8 (RFC 3629), so that byte lengths and byte streams of Rust strings can be stated exactly. */
module Utf8 {

  type byte = b: int | 0 <= b < 256

  function EncodeChar(c: char): (bytes: seq<byte>)
    ensures 1 <= |bytes| <= 4
  {
    var n := c as int;
    if n < 0x80 then [n]
    else if n < 0x800 then [0xC0 + n / 64, 0x80 + n % 64]
    else if n < 0x10000 then [0xE0 + n / 4096, 0x80 + n / 64 % 64, 0x80 + n % 64]
    else [0xF0 + n / 262144, 0x80 + n / 4096 % 64, 0x80 + n / 64 % 64, 0x80 + n % 64]
  }

  function Encode(s: string): (bytes: seq<byte>)
    ensures |s| <= |bytes| <= 4 * |s|
  {
    if s == [] then [] else EncodeChar(s[0]) + Encode(s[1..])
  }

  function CharLen(c: char): (n: nat)
    ensures 1 <= n <= 4
  {
    var n := c as int;
    if n < 0x80 then 1 else if n < 0x800 then 2 else if n < 0x10000 then 3 else 4
  }

  /** Byte length, as `String::len`. */
  function Len(s: string): (n: nat)
    ensures |s| <= n <= 4 * |s|
  {
    if s == [] then 0 else CharLen(s[0]) + Len(s[1..])
  }

  lemma {:induction false} LenIsEncodedLength(s: string)
    ensures Len(s) == |Encode(s)|
  {
    if s != [] { LenIsEncodedLength(s[1..]); }
  }

  lemma {:induction false} LenConcat(a: string, b: string)
    ensures Len(a + b) == Len(a) + Len(b)
  {
    if a == [] {
      assert a + b == b;
    } else {
      assert (a + b)[1..] == a[1..] + b;
      LenConcat(a[1..], b);
    }
  }

  lemma Regroup(n: nat)
    ensures n == 64 * (n / 64) + n % 64
    ensures n == 4096 * (n / 4096) + 64 * (n / 64 % 64) + n % 64
    ensures n == 262144 * (n / 262144) + 4096 * (n / 4096 % 64) + 64 * (n / 64 % 64) + n % 64
  {
    assert n / 4096 == n / 64 / 64;
    assert n / 262144 == n / 4096 / 64;
  }

  /** No code word is a prefix of another, so the first character is determined by the stream. */
  lemma FirstCharDetermined(a: char, s: seq<byte>, b: char, t: seq<byte>)
    requires EncodeChar(a) + s == EncodeChar(b) + t
    ensures a == b && s == t
  {
    var x, y := EncodeChar(a), EncodeChar(b);
    var u, v := x + s, y + t;
    assert u[0] == v[0] && x[0] == u[0] && y[0] == v[0];
    assert |x| == |y|;
    assert x == u[..|x|] && y == v[..|y|];
    Regroup(a as int);
    Regroup(b as int);
    assert a as int == b as int;
    assert s == u[|x|..] && t == v[|y|..];
  }

  /** The code point that the first character of a stream stands for (section 3 of RFC 3629). */
  function CodePoint(s: seq<byte>): (n: int)
    requires |s| >= 4
  {
    var a: int, b: int, c: int, d: int := s[0], s[1], s[2], s[3];
    if a < 0x80 then a
    else if a < 0xE0 then 64 * (a - 0xC0) + (b - 0x80)
    else if a < 0xF0 then 4096 * (a - 0xE0) + 64 * (b - 0x80) + (c - 0x80)
    else 262144 * (a - 0xF0) + 4096 * (b - 0x80) + 64 * (c - 0x80) + (d - 0x80)
  }

  predicate IsContinuation(b: byte) { 0x80 <= b < 0xC0 }

  /** A character reads back from its lead byte and the continuation bytes that announces, none to spare. */
  lemma EncodeCharExactly(c: char, rest: seq<byte>)
    requires |rest| >= 3
    ensures var bytes := EncodeChar(c);
      && CodePoint(bytes + rest) == c as int
      && (forall i :: 1 <= i < |bytes| ==> IsContinuation(bytes[i]))
      && |bytes| == (if bytes[0] < 0x80 then 1 else if bytes[0] < 0xE0 then 2 else if bytes[0] < 0xF0 then 3 else 4)
      && (|bytes| == 2 ==> c as int >= 0x80) && (|bytes| == 3 ==> c as int >= 0x800)
      && (|bytes| == 4 ==> c as int >= 0x10000)
  {
    Regroup(c as int);
  }

  /** Distinct strings have distinct encodings. */
  lemma {:induction false} EncodeInjective(s: string, t: string)
    requires Encode(s) == Encode(t)
    ensures s == t
  {
    if s != [] && t != [] {
      FirstCharDetermined(s[0], Encode(s[1..]), t[0], Encode(t[1..]));
      EncodeInjective(s[1..], t[1..]);
      assert s == [s[0]] + s[1..] && t == [t[0]] + t[1..];
    }
  }

  predicate IsAscii(s: string)
  {
    forall i :: 0 <= i < |s| ==> s[i] as int < 0x80
  }

  /** ASCII text has one byte per character. */
  lemma {:induction false} EncodeAscii(s: string)
    requires IsAscii(s)
    ensures |Encode(s)| == |s|
    ensures forall i :: 0 <= i < |s| ==> Encode(s)[i] == s[i] as int
  {
    if s != [] {
      assert IsAscii(s[1..]);
      EncodeAscii(s[1..]);
    }
  }
}

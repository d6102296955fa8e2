/** The hand-written application/x-www-form-urlencoded serializer and its standard parser. */
module FormEncoding {
  import opened Text
  import opened Utf8

  const MAX_REQUEST_FORM_BYTES := 2 * 1024 * 1024

  const SPACE: byte := 0x20
  const PERCENT: byte := 0x25
  const AMPERSAND: byte := 0x26
  const PLUS: byte := 0x2B
  const EQUALS: byte := 0x3D

  /** Bytes written as themselves: `* - .`, digits, letters and `_`. */
  predicate IsPlain(b: byte)
  {
    || b == 0x2A || b == 0x2D || b == 0x2E || 0x30 <= b <= 0x39
    || 0x41 <= b <= 0x5A || b == 0x5F || 0x61 <= b <= 0x7A
  }

  function HexDigit(n: nat): (digit: byte)
    requires n < 16
  {
    if n < 10 then 0x30 + n else 0x41 + n - 10
  }

  function EncodeByte(b: byte): (bytes: seq<byte>)
    ensures 1 <= |bytes| <= 3
  {
    if IsPlain(b) then [b]
    else if b == SPACE then [PLUS]
    else [PERCENT, HexDigit(b / 16), HexDigit(b % 16)]
  }

  function EncodeComponent(value: seq<byte>): (bytes: seq<byte>)
  {
    if value == [] then [] else EncodeByte(value[0]) + EncodeComponent(value[1..])
  }

  datatype Field = Field(name: seq<byte>, value: seq<byte>)

  function EncodeField(f: Field): (bytes: seq<byte>)
  {
    EncodeComponent(f.name) + [EQUALS] + EncodeComponent(f.value)
  }

  /** Fields joined by `&`, as repeated appending to an empty body produces them. */
  function EncodeForm(fields: seq<Field>): (bytes: seq<byte>)
  {
    if fields == [] then []
    else if |fields| == 1 then EncodeField(fields[0])
    else EncodeForm(fields[..|fields| - 1]) + [AMPERSAND] + EncodeField(fields[|fields| - 1])
  }

  // ----- The bounded buffer -----

  /**
   * What appending `extra` under the cap does: it succeeds exactly when everything fits, and a
   * failure leaves at most a prefix of `extra`, within the cap.
   */
  ghost predicate Appended(before: seq<byte>, extra: seq<byte>, after: seq<byte>, ok: bool)
  {
    && |after| <= MAX_REQUEST_FORM_BYTES
    && (ok <==> |before| + |extra| <= MAX_REQUEST_FORM_BYTES)
    && (ok ==> after == before + extra)
    && before <= after <= before + extra
  }

  lemma AppendedThen(a: seq<byte>, x: seq<byte>, b: seq<byte>, y: seq<byte>, c: seq<byte>, ok: bool)
    requires Appended(a, x, b, true) && Appended(b, y, c, ok)
    ensures Appended(a, x + y, c, ok)
  {
    assert a + (x + y) == b + y;
  }

  lemma AppendedStops(a: seq<byte>, x: seq<byte>, b: seq<byte>, y: seq<byte>)
    requires Appended(a, x, b, false)
    ensures Appended(a, x + y, b, false)
  {
    assert a + (x + y) == a + x + y;
  }

  lemma ComponentSnoc(a: seq<byte>, b: byte)
    ensures EncodeComponent(a + [b]) == EncodeComponent(a) + EncodeByte(b)
  {
    ComponentConcat(a, [b]);
    var one := [b];
    assert one[1..] == [];
    assert EncodeComponent(one) == EncodeByte(b) + [];
  }

  /** One byte further, or stopped for good. */
  lemma AppendedByte(
    start: seq<byte>, a: seq<byte>, b: byte, c: seq<byte>, before: seq<byte>, after: seq<byte>, ok: bool)
    requires Appended(start, EncodeComponent(a), before, true)
    requires Appended(before, EncodeByte(b), after, ok)
    ensures ok ==> Appended(start, EncodeComponent(a + [b]), after, true)
    ensures !ok ==> Appended(start, EncodeComponent(a + [b] + c), after, false)
  {
    AppendedThen(start, EncodeComponent(a), before, EncodeByte(b), after, ok);
    ComponentSnoc(a, b);
    if !ok {
      AppendedStops(start, EncodeComponent(a + [b]), after, EncodeComponent(c));
      ComponentConcat(a + [b], c);
    }
  }

  class FormBody {
    var bytes: seq<byte>

    constructor ()
      ensures bytes == []
    {
      bytes := [];
    }

    /** All or nothing. */
    method AppendBytes(extra: seq<byte>) returns (ok: bool)
      requires |bytes| <= MAX_REQUEST_FORM_BYTES
      modifies this
      ensures Appended(old(bytes), extra, bytes, ok)
      ensures !ok ==> bytes == old(bytes)
    {
      if |extra| > MAX_REQUEST_FORM_BYTES - |bytes| {
        return false;
      }
      bytes := bytes + extra;
      ok := true;
    }

    method AppendComponent(value: seq<byte>) returns (ok: bool)
      requires |bytes| <= MAX_REQUEST_FORM_BYTES
      modifies this
      ensures Appended(old(bytes), EncodeComponent(value), bytes, ok)
    {
      for i := 0 to |value|
        invariant Appended(old(bytes), EncodeComponent(value[..i]), bytes, true)
      {
        ghost var before := bytes;
        ok := AppendBytes(EncodeByte(value[i]));
        AppendedByte(old(bytes), value[..i], value[i], value[i + 1..], before, bytes, ok);
        assert value[..i + 1] == value[..i] + [value[i]];
        if !ok {
          assert value == value[..i] + [value[i]] + value[i + 1..];
          return;
        }
      }
      assert value[..|value|] == value;
      ok := true;
    }

    /** Appends one more field, with a separator unless the body is empty. */
    method AppendField(f: Field) returns (ok: bool)
      requires |bytes| <= MAX_REQUEST_FORM_BYTES
      modifies this
      ensures Appended(old(bytes), Separator(old(bytes)) + EncodeField(f), bytes, ok)
    {
      ghost var start := bytes;
      ghost var sep := Separator(bytes);
      ghost var name, value := EncodeComponent(f.name), EncodeComponent(f.value);
      assert sep + EncodeField(f) == sep + (name + [EQUALS] + value);
      assert sep + EncodeField(f) == sep + name + ([EQUALS] + value);
      assert sep + EncodeField(f) == sep + name + [EQUALS] + value;
      ok := true;
      if bytes != [] {
        ok := AppendBytes([AMPERSAND]);
        if !ok {
          AppendedStops(start, sep, bytes, EncodeField(f));
          return;
        }
      }
      ghost var b := bytes;
      ok := AppendComponent(f.name);
      AppendedThen(start, sep, b, name, bytes, ok);
      if !ok {
        AppendedStops(start, sep + name, bytes, [EQUALS] + value);
        return;
      }
      b := bytes;
      ok := AppendBytes([EQUALS]);
      AppendedThen(start, sep + name, b, [EQUALS], bytes, ok);
      if !ok {
        AppendedStops(start, sep + name + [EQUALS], bytes, value);
        return;
      }
      b := bytes;
      ok := AppendComponent(f.value);
      AppendedThen(start, sep + name + [EQUALS], b, value, bytes, ok);
    }
  }

  function Separator(body: seq<byte>): (sep: seq<byte>)
  {
    if body == [] then [] else [AMPERSAND]
  }

  // ----- The standard parser (section 5.1 of the WHATWG URL Standard) -----

  function HexValue(b: byte): (v: Option<nat>)
  {
    if 0x30 <= b <= 0x39 then Some(b - 0x30)
    else if 0x41 <= b <= 0x46 then Some(b - 0x41 + 10)
    else if 0x61 <= b <= 0x66 then Some(b - 0x61 + 10)
    else None
  }

  /** `+` reads as a space; a percent sign with two hexadecimal digits reads as that byte. */
  function DecodeComponent(s: seq<byte>): (value: seq<byte>)
    decreases |s|
  {
    if s == [] then []
    else if s[0] == PLUS then [SPACE] + DecodeComponent(s[1..])
    else if s[0] == PERCENT && |s| >= 3 && HexValue(s[1]).Some? && HexValue(s[2]).Some? then
      [16 * HexValue(s[1]).value + HexValue(s[2]).value] + DecodeComponent(s[3..])
    else [s[0]] + DecodeComponent(s[1..])
  }

  /** The part before the first `=` and the part after it; no `=` leaves the value empty. */
  function CutAtEquals(s: seq<byte>): (cut: (seq<byte>, seq<byte>))
  {
    if s == [] then ([], [])
    else if s[0] == EQUALS then ([], s[1..])
    else var (name, value) := CutAtEquals(s[1..]); ([s[0]] + name, value)
  }

  function ParseSequences(parts: seq<seq<byte>>): (fields: seq<Field>)
  {
    if parts == [] then []
    else
      var rest := ParseSequences(parts[1..]);
      if parts[0] == [] then rest
      else
        var (name, value) := CutAtEquals(parts[0]);
        [Field(DecodeComponent(name), DecodeComponent(value))] + rest
  }

  function ParseForm(input: seq<byte>): (fields: seq<Field>)
  {
    ParseSequences(Split(input, AMPERSAND))
  }

  // ----- Round trip -----

  /** `*-._` and alphanumerics are written verbatim, a space as `+`, the rest in upper-case hexadecimal. */
  lemma EncodeByteExactly(b: byte)
    ensures EncodeByte(b) ==
      if b == '*' as int || b == '-' as int || b == '.' as int || b == '_' as int || '0' as int <= b <= '9' as int
         || 'A' as int <= b <= 'Z' as int || 'a' as int <= b <= 'z' as int then [b]
      else if b == ' ' as int then ['+' as int]
      else ['%' as int, "0123456789ABCDEF"[b / 16] as int, "0123456789ABCDEF"[b % 16] as int]
  {
    HexDigitExactly(b / 16);
    HexDigitExactly(b % 16);
  }

  lemma HexDigitExactly(n: nat)
    requires n < 16
    ensures HexDigit(n) == "0123456789ABCDEF"[n] as int
  {
  }

  predicate NoDelimiter(s: seq<byte>) { AMPERSAND !in s && EQUALS !in s }

  lemma DecodeOneByte(b: byte, rest: seq<byte>)
    ensures DecodeComponent(EncodeByte(b) + rest) == [b] + DecodeComponent(rest)
    ensures NoDelimiter(EncodeByte(b))
  {
    var s := EncodeByte(b) + rest;
    if IsPlain(b) || b == SPACE {
      assert s[1..] == rest;
    } else {
      assert s[1] == HexDigit(b / 16) && s[2] == HexDigit(b % 16) && s[3..] == rest;
      assert 16 * (b / 16) + b % 16 == b;
    }
  }

  lemma {:induction false} DecodeEncoded(value: seq<byte>)
    ensures DecodeComponent(EncodeComponent(value)) == value
    ensures NoDelimiter(EncodeComponent(value))
  {
    if value != [] {
      DecodeEncoded(value[1..]);
      DecodeOneByte(value[0], EncodeComponent(value[1..]));
    }
  }

  lemma {:induction false} CutAtFirst(name: seq<byte>, value: seq<byte>)
    requires EQUALS !in name
    ensures CutAtEquals(name + [EQUALS] + value) == (name, value)
  {
    var s := name + [EQUALS] + value;
    if name != [] {
      assert s[0] == name[0] && s[1..] == name[1..] + [EQUALS] + value;
      CutAtFirst(name[1..], value);
      assert [name[0]] + name[1..] == name;
    } else {
      assert s[1..] == value;
    }
  }

  lemma ParseOneField(f: Field)
    ensures AMPERSAND !in EncodeField(f)
    ensures ParseSequences([EncodeField(f)]) == [f]
  {
    DecodeEncoded(f.name);
    DecodeEncoded(f.value);
    CutAtFirst(EncodeComponent(f.name), EncodeComponent(f.value));
    var one := [EncodeField(f)];
    assert one[1..] == [];
  }

  lemma {:induction false} ParseSequencesConcat(xs: seq<seq<byte>>, ys: seq<seq<byte>>)
    ensures ParseSequences(xs + ys) == ParseSequences(xs) + ParseSequences(ys)
  {
    if xs == [] {
      assert xs + ys == ys;
    } else {
      assert (xs + ys)[1..] == xs[1..] + ys;
      ParseSequencesConcat(xs[1..], ys);
    }
  }

  /** Parsing the emitted body gives back exactly the appended fields, in order. */
  lemma {:induction false} FormRoundTrip(fields: seq<Field>)
    ensures ParseForm(EncodeForm(fields)) == fields
  {
    if fields == [] {
      var parts: seq<seq<byte>> := [[]];
      assert parts[1..] == [];
    } else {
      var last := fields[|fields| - 1];
      ParseOneField(last);
      SplitFree(EncodeField(last), AMPERSAND);
      if |fields| > 1 {
        var init := fields[..|fields| - 1];
        FormRoundTrip(init);
        SplitConcat(EncodeForm(init), AMPERSAND, EncodeField(last));
        ParseSequencesConcat(Split(EncodeForm(init), AMPERSAND), [EncodeField(last)]);
        assert fields == init + [last];
      }
    }
  }

  /** Distinct field lists have distinct bodies. */
  lemma FormInjective(xs: seq<Field>, ys: seq<Field>)
    requires EncodeForm(xs) == EncodeForm(ys)
    ensures xs == ys
  {
    FormRoundTrip(xs);
    FormRoundTrip(ys);
  }

  // ----- Size -----

  lemma {:induction false} ComponentSize(value: seq<byte>)
    ensures |value| <= |EncodeComponent(value)| <= 3 * |value|
  {
    if value != [] {
      ComponentSize(value[1..]);
    }
  }

  lemma {:induction false} ComponentConcat(a: seq<byte>, b: seq<byte>)
    ensures EncodeComponent(a + b) == EncodeComponent(a) + EncodeComponent(b)
  {
    if a == [] {
      assert a + b == b;
    } else {
      var s := a + b;
      assert s[0] == a[0] && s[1..] == a[1..] + b;
      ComponentConcat(a[1..], b);
      assert EncodeComponent(s) == EncodeByte(a[0]) + (EncodeComponent(a[1..]) + EncodeComponent(b));
    }
  }

  /** Worst case of one field, with its separator. */
  function FieldBudget(f: Field): nat { 3 * |f.name| + 3 * |f.value| + 2 }

  function FormBudget(fields: seq<Field>): nat
  {
    if fields == [] then 0 else FormBudget(fields[..|fields| - 1]) + FieldBudget(fields[|fields| - 1])
  }

  lemma {:induction false} FormWithinBudget(fields: seq<Field>)
    ensures |EncodeForm(fields)| <= FormBudget(fields)
  {
    if fields != [] {
      var last := fields[|fields| - 1];
      ComponentSize(last.name);
      ComponentSize(last.value);
      FormWithinBudget(fields[..|fields| - 1]);
    }
  }

  /** Appending one field to a body that holds a form gives the body of the longer form. */
  lemma AppendedForm(fields: seq<Field>, f: Field)
    ensures EncodeForm(fields + [f]) ==
      EncodeForm(fields) + (Separator(EncodeForm(fields)) + EncodeField(f))
    ensures EncodeForm(fields) == [] <==> fields == []
  {
    assert (fields + [f])[..|fields|] == fields;
    FormNonEmpty(fields);
  }

  lemma FormNonEmpty(fields: seq<Field>)
    ensures EncodeForm(fields) == [] <==> fields == []
  {
  }

  lemma {:induction false} FormPrefix(xs: seq<Field>, ys: seq<Field>)
    ensures |EncodeForm(xs)| <= |EncodeForm(xs + ys)|
    decreases |ys|
  {
    if ys == [] {
      assert xs + ys == xs;
    } else {
      var init, last := ys[..|ys| - 1], ys[|ys| - 1];
      FormPrefix(xs, init);
      var shorter := xs + init;
      AppendedForm(shorter, last);
      assert xs + ys == shorter + [last];
    }
  }
}

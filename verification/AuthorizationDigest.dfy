/** The digest that binds a request to its exact list of Authorization header values. */
module AuthorizationDigest {
  import opened Utf8
  import opened Hashing

  function Limit(width: nat): (n: nat)
    ensures n >= 1
  {
    if width == 0 then 1 else 256 * Limit(width - 1)
  }

  /** `to_be_bytes` of a word of `width` bytes. */
  function BigEndian(n: nat, width: nat): (bytes: seq<byte>)
    ensures |bytes| == width
  {
    if width == 0 then [] else BigEndian(n / 256, width - 1) + [n % 256]
  }

  /** A u64 length or count fits the word it is written in. */
  predicate Representable(values: seq<seq<byte>>)
  {
    |values| < Limit(8) && forall i :: 0 <= i < |values| ==> |values[i]| < Limit(8)
  }

  type HeaderValues = v: seq<seq<byte>> | Representable(v) witness []

  function ValueStream(values: seq<seq<byte>>): (bytes: seq<byte>)
  {
    if values == [] then []
    else BigEndian(|values[0]|, 8) + values[0] + ValueStream(values[1..])
  }

  function HeaderStream(values: seq<seq<byte>>): (bytes: seq<byte>)
  {
    BigEndian(|values|, 8) + ValueStream(values)
  }

  function DigestOf(values: seq<seq<byte>>): (digest: Digest)
  {
    Sha256(HeaderStream(values))
  }

  /** The incremental computation of the source. */
  method ComputeDigest(values: seq<seq<byte>>) returns (digest: Digest)
    ensures digest == DigestOf(values)
  {
    var fed := BigEndian(|values|, 8);
    for i := 0 to |values|
      invariant fed + ValueStream(values[i..]) == HeaderStream(values)
    {
      assert values[i..][1..] == values[i + 1..];
      fed := fed + BigEndian(|values[i]|, 8);
      fed := fed + values[i];
    }
    digest := Sha256(fed);
  }

  /** The number that bytes stand for, the first being the most significant. */
  function Number(bytes: seq<byte>): (n: nat)
  {
    if bytes == [] then 0 else 256 * Number(bytes[..|bytes| - 1]) + bytes[|bytes| - 1]
  }

  lemma {:induction false} BigEndianExactly(n: nat, width: nat)
    requires n < Limit(width)
    ensures Number(BigEndian(n, width)) == n
  {
    if width > 0 {
      BigEndianExactly(n / 256, width - 1);
      var bytes := BigEndian(n, width);
      assert bytes[..width - 1] == BigEndian(n / 256, width - 1);
    }
  }

  /** The hashed stream: the count, then each value behind its length, all as 64-bit words. */
  lemma StreamExactly(values: seq<seq<byte>>)
    requires Representable(values)
    ensures var s := HeaderStream(values);
      && |s| >= 8 && Number(s[..8]) == |values| && s[8..] == ValueStream(values)
      && (values != [] ==>
            var v := ValueStream(values);
            && |v| >= 8 + |values[0]| && Number(v[..8]) == |values[0]| && v[8..8 + |values[0]|] == values[0]
            && v[8 + |values[0]|..] == ValueStream(values[1..]))
  {
    BigEndianExactly(|values|, 8);
    var s := HeaderStream(values);
    assert s[..8] == BigEndian(|values|, 8);
    if values != [] {
      BigEndianExactly(|values[0]|, 8);
      var v := ValueStream(values);
      assert v[..8] == BigEndian(|values[0]|, 8);
    }
  }

  lemma {:induction false} BigEndianInjective(n: nat, m: nat, width: nat)
    requires n < Limit(width) && m < Limit(width)
    requires BigEndian(n, width) == BigEndian(m, width)
    ensures n == m
  {
    if width > 0 {
      var a, b := BigEndian(n, width), BigEndian(m, width);
      assert a[..width - 1] == BigEndian(n / 256, width - 1);
      assert b[..width - 1] == BigEndian(m / 256, width - 1);
      assert a[width - 1] == n % 256 && b[width - 1] == m % 256;
      BigEndianInjective(n / 256, m / 256, width - 1);
    }
  }

  lemma {:induction false} ValueStreamInjective(xs: seq<seq<byte>>, ys: seq<seq<byte>>)
    requires |xs| == |ys| && Representable(xs) && Representable(ys)
    requires ValueStream(xs) == ValueStream(ys)
    ensures xs == ys
  {
    if xs != [] {
      var x, y := xs[0], ys[0];
      var s, t := ValueStream(xs), ValueStream(ys);
      assert s[..8] == BigEndian(|x|, 8) && t[..8] == BigEndian(|y|, 8);
      BigEndianInjective(|x|, |y|, 8);
      assert s[8..8 + |x|] == x && t[8..8 + |y|] == y;
      assert s[8 + |x|..] == ValueStream(xs[1..]) && t[8 + |y|..] == ValueStream(ys[1..]);
      ValueStreamInjective(xs[1..], ys[1..]);
      assert xs == [x] + xs[1..] && ys == [y] + ys[1..];
    }
  }

  /** Equal digests mean the same header values in the same order, and conversely. */
  lemma DigestDecidesHeaders(xs: HeaderValues, ys: HeaderValues)
    ensures DigestOf(xs) == DigestOf(ys) <==> xs == ys
  {
    if DigestOf(xs) == DigestOf(ys) {
      var s, t := HeaderStream(xs), HeaderStream(ys);
      assert s[..8] == BigEndian(|xs|, 8) && t[..8] == BigEndian(|ys|, 8);
      BigEndianInjective(|xs|, |ys|, 8);
      assert s[8..] == ValueStream(xs) && t[8..] == ValueStream(ys);
      ValueStreamInjective(xs, ys);
    }
  }
}

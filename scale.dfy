/**
 * The SCALE compact length prefix (`Compact<u32>`) and the length-prefixed
 * byte-slice encoding (`<[u8]>::encode_to`) of the parity_codec crate.
 * That crate is not part of this model; its wire format is written out here
 * from the published SCALE definition: the two low bits of the first byte
 * select a 1-, 2-, 4- or 5-byte little-endian form.
 */
module Scale {
  import opened Common

  const U32_LIMIT: nat := 0x1_0000_0000

  /** Little-endian value of two bytes. */
  function Le2Value(b0: byte, b1: byte): nat
  {
    b0 as nat + 256 * b1 as nat
  }

  /** Little-endian value of four bytes. */
  function Le4Value(b0: byte, b1: byte, b2: byte, b3: byte): nat
  {
    b0 as nat + 256 * (b1 as nat + 256 * (b2 as nat + 256 * b3 as nat))
  }

  function Pow256(n: nat): (r: nat)
    ensures r >= 1
  {
    if n == 0 then 1 else 256 * Pow256(n - 1)
  }

  /** The `n` little-endian bytes of `v`. */
  function LeBytes(v: nat, n: nat): (r: seq<byte>)
    requires v < Pow256(n)
    ensures |r| == n
  {
    if n == 0 then [] else [v % 256] + LeBytes(v / 256, n - 1)
  }

  /** The two little-endian bytes of a `u16` value. */
  function Le2(v: nat): seq<byte>
    requires v < 0x1_0000
  {
    assert Pow256(2) == 0x1_0000;
    LeBytes(v, 2)
  }

  /** The four little-endian bytes of a `u32` value. */
  function Le4(v: nat): seq<byte>
    requires v < U32_LIMIT
  {
    assert Pow256(4) == U32_LIMIT;
    LeBytes(v, 4)
  }

  /** The bytes of `Le2` read back. */
  lemma Le2RoundTrip(v: nat)
    requires v < 0x1_0000
    ensures |Le2(v)| == 2 && Le2Value(Le2(v)[0], Le2(v)[1]) == v
    ensures Le2(v)[0] == v % 256
  {
    assert Pow256(1) == 256 && Pow256(2) == 0x1_0000;
    var e := Le2(v);
    assert e == [v % 256] + LeBytes(v / 256, 1);
    assert LeBytes(v / 256, 1) == [v / 256 % 256] + LeBytes(v / 256 / 256, 0);
  }

  /** The bytes of `Le4` read back. */
  lemma Le4RoundTrip(v: nat)
    requires v < U32_LIMIT
    ensures |Le4(v)| == 4 && Le4Value(Le4(v)[0], Le4(v)[1], Le4(v)[2], Le4(v)[3]) == v
    ensures Le4(v)[0] == v % 256
  {
    assert Pow256(1) == 256 && Pow256(2) == 0x1_0000 && Pow256(3) == 0x100_0000 && Pow256(4) == U32_LIMIT;
    var q1 := v / 256;
    var q2 := q1 / 256;
    var q3 := q2 / 256;
    var e := Le4(v);
    assert e == [v % 256] + LeBytes(q1, 3);
    assert LeBytes(q1, 3) == [q1 % 256] + LeBytes(q2, 2);
    assert LeBytes(q2, 2) == [q2 % 256] + LeBytes(q3, 1);
    assert LeBytes(q3, 1) == [q3 % 256] + LeBytes(q3 / 256, 0);
    assert e == [v % 256, q1 % 256, q2 % 256, q3 % 256];
  }

  /** `Compact(n).encode()` for a `u32` value `n`. */
  function CompactEncode(n: nat): (r: seq<byte>)
    requires n < U32_LIMIT
    ensures 1 <= |r| <= 5
  {
    if n < 0x40 then [n * 4]
    else if n < 0x4000 then Le2(n * 4 + 1)
    else if n < 0x4000_0000 then Le4(n * 4 + 2)
    else [3] + Le4(n)
  }

  /**
   * `<Compact<u32>>::decode`: the decoded value and the rest of the input, or
   * None on a short input or a big-integer form wider than four bytes.
   */
  function CompactDecode(input: seq<byte>): Option<(nat, seq<byte>)>
  {
    if |input| == 0 then None
    else
      var b := input[0];
      if b % 4 == 0 then Some((b / 4, input[1..]))
      else if b % 4 == 1 then
        if |input| < 2 then None else Some((Le2Value(b, input[1]) / 4, input[2..]))
      else if b % 4 == 2 then
        if |input| < 4 then None else Some((Le4Value(b, input[1], input[2], input[3]) / 4, input[4..]))
      else if b / 4 == 0 && |input| >= 5 then Some((Le4Value(input[1], input[2], input[3], input[4]), input[5..]))
      else None
  }

  lemma CompactRoundTrip(n: nat, rest: seq<byte>)
    requires n < U32_LIMIT
    ensures CompactDecode(CompactEncode(n) + rest) == Some((n, rest))
  {
    if n < 0x40 {
      assert (CompactEncode(n) + rest)[1..] == rest;
    } else if n < 0x4000 {
      TwoByteRoundTrip(n, rest);
    } else if n < 0x4000_0000 {
      FourByteRoundTrip(n, rest);
    } else {
      var e := CompactEncode(n);
      Le4RoundTrip(n);
      assert (e + rest)[5..] == rest;
    }
  }

  lemma TwoByteRoundTrip(n: nat, rest: seq<byte>)
    requires 0x40 <= n < 0x4000
    ensures CompactDecode(Le2(n * 4 + 1) + rest) == Some((n, rest))
  {
    var input := Le2(n * 4 + 1) + rest;
    Le2RoundTrip(n * 4 + 1);
    assert input[2..] == rest;
    LowBitsOfLowByte(n * 4 + 1);
  }

  lemma FourByteRoundTrip(n: nat, rest: seq<byte>)
    requires 0x4000 <= n < 0x4000_0000
    ensures CompactDecode(Le4(n * 4 + 2) + rest) == Some((n, rest))
  {
    var input := Le4(n * 4 + 2) + rest;
    Le4RoundTrip(n * 4 + 2);
    assert input[4..] == rest;
    LowBitsOfLowByte(n * 4 + 2);
  }

  /** `value.encode_to(&mut output)` for a byte slice: compact length, then the bytes. */
  function EncodeSlice(data: seq<byte>): (r: seq<byte>)
    requires |data| < U32_LIMIT
    ensures |r| > |data|
  {
    CompactEncode(|data|) + data
  }

  /**
   * What every decoder does with a length-prefixed slice: read the compact
   * length, then take that many bytes. It recovers the slice and the rest.
   */
  lemma SliceRoundTrip(data: seq<byte>, rest: seq<byte>)
    requires |data| < U32_LIMIT
    ensures CompactDecode(EncodeSlice(data) + rest) == Some((|data|, data + rest))
    ensures Take(data + rest, |data|) == (Some(data), rest)
  {
    assert EncodeSlice(data) + rest == CompactEncode(|data|) + (data + rest);
    CompactRoundTrip(|data|, data + rest);
    TakePrefix(data, rest);
  }

  /** A compact length cut short does not decode: every form announces its own width in its first byte. */
  lemma CompactTruncated(n: nat, k: nat)
    requires n < U32_LIMIT && k < |CompactEncode(n)|
    ensures CompactDecode(CompactEncode(n)[..k]) == None
  {
    if n >= 0x40 && k > 0 {
      var v := if n < 0x4000 then n * 4 + 1 else if n < 0x4000_0000 then n * 4 + 2 else 3;
      LowBitsOfLowByte(v);
      if n < 0x4000 {
        Le2RoundTrip(v);
      } else if n < 0x4000_0000 {
        Le4RoundTrip(v);
      }
      assert CompactEncode(n)[0] % 4 == v % 4;
      ShortFormRejected(CompactEncode(n)[..k]);
    }
  }

  /** A first byte announcing a wider form than the input holds does not decode. */
  lemma ShortFormRejected(input: seq<byte>)
    requires |input| > 0
    requires (input[0] % 4 == 1 && |input| < 2) || (input[0] % 4 == 2 && |input| < 4)
      || (input[0] % 4 == 3 && |input| < 5)
    ensures CompactDecode(input) == None
  {
  }

  /** The two low bits of a value are those of its low byte. */
  lemma LowBitsOfLowByte(v: nat)
    ensures (v % 256) % 4 == v % 4
  {
    var q, m := v / 256, v % 256;
    assert v == 256 * q + m;
    assert m == 4 * (m / 4) + m % 4;
    assert v == 4 * (64 * q + m / 4) + m % 4;
  }
}

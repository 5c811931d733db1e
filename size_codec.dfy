/**
 * The nibble-count varint of the no-extension layout: a 2-bit node-kind tag
 * and a 6-bit count share the first byte; counts above 62 put the sentinel 63
 * there and continue in a run of 255 bytes closed by one byte below 255.
 */
module SizeCodec {
  import opened Common

  /** `NIBBLE_SIZE_BOUND_NO_EXT` (`u16::max_value()`): the largest encoded count. */
  const NIBBLE_SIZE_BOUND: nat := 65535

  /** The largest count `decode_size` can return: 62 + 256 * 255 + 254 + 1. */
  const DECODE_SIZE_MAX: nat := 65597

  /** A tag mask: two top bits, six clear low bits (0x00, 0x40, 0x80 or 0xc0). */
  predicate IsPrefix(prefix: byte)
  {
    prefix % 64 == 0
  }

  /**
   * The bytes following the sentinel for a remainder `rem` (the count minus
   * 62): `(rem - 1) / 255` bytes 255, then the final `(rem - 1) % 255`.
   */
  function Continuation(rem: nat): (r: seq<byte>)
  {
    if rem == 0 then [] else Repeat(255, (rem - 1) / 255) + [(rem - 1) % 255]
  }

  /** The encoding of `size` under `prefix`, in closed form. */
  function SizeEncoding(size: nat, prefix: byte): (r: seq<byte>)
    requires IsPrefix(prefix)
    ensures |r| >= 1
  {
    var s := Min(NIBBLE_SIZE_BOUND, size);
    if s <= 62 then [prefix + s]
    else [prefix + 63] + Continuation(s - 62)
  }

  /**
   * `encode_size_and_prefix` driving `size_and_prefix_iterator`: the count is
   * saturated at 65535, the first byte is emitted, then the closure emits
   * continuation bytes while `rem` is positive.
   */
  method EncodeSizeAndPrefix(size: nat, prefix: byte) returns (out: seq<byte>)
    requires IsPrefix(prefix)
    ensures out == SizeEncoding(size, prefix)
  {
    var s := Min(NIBBLE_SIZE_BOUND, size);
    var l1 := Min(62, s);
    var rem: nat;
    if s == l1 {
      out, rem := [prefix + l1], 0;
    } else {
      out, rem := [prefix + 63], s - l1;
    }
    while rem > 0
      invariant out + Continuation(rem) == SizeEncoding(size, prefix)
    {
      if rem < 256 {
        out := out + [rem - 1];
        rem := 0;
      } else {
        ContinuationStep(rem);
        out := out + [255];
        rem := rem - 255;
      }
    }
  }

  lemma ContinuationStep(rem: nat)
    requires rem >= 256
    ensures Continuation(rem) == [255] + Continuation(rem - 255)
  {
    assert (rem - 1) / 255 == (rem - 256) / 255 + 1;
    assert (rem - 1) % 255 == (rem - 256) % 255;
  }

  /** The number of leading 255 bytes of `s`. */
  function Leading255(s: seq<byte>): (k: nat)
    ensures k <= |s|
    ensures forall j :: 0 <= j < k ==> s[j] == 255
    ensures k < |s| ==> s[k] < 255
  {
    if s == [] || s[0] < 255 then 0 else 1 + Leading255(s[1..])
  }

  /**
   * What `decode_size` reads, as a function of the run of 255 bytes: a small
   * count is the low six bits of the first byte; otherwise the run must end in a
   * terminal byte before the running total (62 + 255 per byte) passes 65535.
   * The result is (count, rest of the input).
   */
  function DecodedSize(first: byte, input: seq<byte>): Option<(nat, seq<byte>)>
  {
    var low := first % 64;
    if low < 63 then Some((low, input))
    else
      var k := Leading255(input);
      if k > 256 || k == |input| then None
      else Some((62 + 255 * k + input[k] + 1, input[k + 1..]))
  }

  /**
   * `decode_size`: `first & 63`, and if that is the sentinel a loop that adds
   * 255 per continuation byte until a byte below 255 or the bound.
   */
  method DecodeSize(first: byte, input: seq<byte>) returns (r: Option<(nat, seq<byte>)>)
    ensures r == DecodedSize(first, input)
  {
    var result: nat := first % 64;
    if result < 63 {
      return Some((result, input));
    }
    result := result - 1;
    var rest := input;
    ghost var j: nat := 0;
    while result <= NIBBLE_SIZE_BOUND
      invariant j <= |input| && rest == input[j..]
      invariant result == 62 + 255 * j
      invariant forall t :: 0 <= t < j ==> input[t] == 255
      decreases NIBBLE_SIZE_BOUND - result
    {
      if |rest| == 0 {
        Leading255Run(input, j);
        return None;
      }
      var n := rest[0];
      rest := rest[1..];
      if n < 255 {
        Leading255Run(input, j);
        return Some((result + n + 1, rest));
      }
      result := result + 255;
      j := j + 1;
    }
    Leading255Run(input, j);
    return None;
  }

  /** A run of `j` bytes 255 at the front means at least `j` leading 255s, exactly `j` when a smaller byte follows. */
  lemma {:induction false} Leading255Run(s: seq<byte>, j: nat)
    requires j <= |s|
    requires forall t :: 0 <= t < j ==> s[t] == 255
    ensures Leading255(s) >= j
    ensures j < |s| && s[j] < 255 ==> Leading255(s) == j
  {
    if j > 0 {
      Leading255Run(s[1..], j - 1);
    }
  }

  /** The run of 255s in an encoding stops at its final byte. */
  lemma {:induction false} Leading255OfRun(k: nat, last: byte, rest: seq<byte>)
    requires last < 255
    ensures Leading255(Repeat(255, k) + [last] + rest) == k
  {
    var s := Repeat(255, k) + [last] + rest;
    Leading255Run(s, k);
  }

  /**
   * The first byte of an encoding carries the tag in its two top bits and, in
   * its low six bits, the count or the sentinel 63.
   */
  lemma SizeEncodingFirstByte(size: nat, prefix: byte)
    requires IsPrefix(prefix)
    ensures SizeEncoding(size, prefix)[0] / 64 == prefix / 64
    ensures SizeEncoding(size, prefix)[0] % 64 == Min(63, Min(NIBBLE_SIZE_BOUND, size))
  {
  }

  /**
   * Round trip, as the repository's own test states it: decoding an encoding
   * yields the count saturated at 65535 and stops exactly at its end.
   */
  lemma SizeRoundTrip(size: nat, prefix: byte, rest: seq<byte>)
    requires IsPrefix(prefix)
    ensures var e := SizeEncoding(size, prefix);
      DecodedSize(e[0], e[1..] + rest) == Some((Min(size, NIBBLE_SIZE_BOUND), rest))
  {
    var e := SizeEncoding(size, prefix);
    var s := Min(NIBBLE_SIZE_BOUND, size);
    if s > 62 {
      var rem := s - 62;
      var k := (rem - 1) / 255;
      var last: byte := (rem - 1) % 255;
      assert e[1..] + rest == Repeat(255, k) + [last] + rest;
      Leading255OfRun(k, last, rest);
      var input := e[1..] + rest;
      assert input[k] == last;
      assert input[k + 1..] == rest;
      assert e[0] % 64 == 63;
      assert 62 + 255 * k + last + 1 == s;
    } else {
      assert e[0] % 64 == s;
      assert e[1..] + rest == rest;
    }
  }

  /** The encodings the repository's `size_encode_limit_values` test expects, prefix 0. */
  lemma SizeEncodingLimitValues()
    ensures SizeEncoding(0, 0) == [0] && SizeEncoding(1, 0) == [1]
    ensures SizeEncoding(62, 0) == [0x3e] && SizeEncoding(63, 0) == [0x3f, 0]
    ensures SizeEncoding(64, 0) == [0x3f, 1] && SizeEncoding(317, 0) == [0x3f, 0xfe]
    ensures SizeEncoding(318, 0) == [0x3f, 0xff, 0] && SizeEncoding(319, 0) == [0x3f, 0xff, 1]
    ensures SizeEncoding(572, 0) == [0x3f, 0xff, 0xfe]
    ensures SizeEncoding(573, 0) == [0x3f, 0xff, 0xff, 0]
    ensures SizeEncoding(574, 0) == [0x3f, 0xff, 0xff, 1]
  {
    assert Repeat(255, 1) == [255];
    assert Repeat(255, 2) == [255, 255];
  }

  /**
   * A truncated long encoding does not decode: every proper prefix of the
   * continuation bytes is a short read.
   */
  lemma {:induction false} SizeTruncatedFails(size: nat, prefix: byte, cut: nat)
    requires IsPrefix(prefix)
    requires Min(NIBBLE_SIZE_BOUND, size) > 62
    requires cut < |SizeEncoding(size, prefix)| - 1
    ensures var e := SizeEncoding(size, prefix); DecodedSize(e[0], e[1..1 + cut]) == None
  {
    var e := SizeEncoding(size, prefix);
    var s := Min(NIBBLE_SIZE_BOUND, size);
    var k := (s - 62 - 1) / 255;
    var input := e[1..1 + cut];
    assert |input| == cut <= k;
    assert forall t :: 0 <= t < cut ==> input[t] == e[1 + t] == 255;
    Leading255Run(input, cut);
  }

  /**
   * The decoder does not saturate: it accepts counts up to 65597, which the
   * encoder never produces, and never more.
   */
  lemma DecodedSizeBound(first: byte, input: seq<byte>)
    ensures DecodedSize(first, input).Some? ==> DecodedSize(first, input).value.0 <= DECODE_SIZE_MAX
    ensures var big := Repeat(255, 256) + [254];
      DecodedSize(63, big) == Some((DECODE_SIZE_MAX, []))
  {
    var big := Repeat(255, 256) + [254];
    Leading255OfRun(256, 254, []);
    assert big[257..] == [];
  }

  /** A run of more than 256 continuation bytes 255 is rejected, whatever follows. */
  lemma DecodedSizeRunTooLong(first: byte, input: seq<byte>)
    requires first % 64 == 63
    requires |input| >= 257 && forall t :: 0 <= t < 257 ==> input[t] == 255
    ensures DecodedSize(first, input) == None
  {
    Leading255Run(input, 257);
  }
}

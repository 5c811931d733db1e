/**
 * Partial keys and their wire form: the header byte(s) carrying the nibble
 * count, then the key bytes with an odd leading nibble (if any) alone in the
 * first byte. Covers `partial_to_key`, `partial_from_iterator_to_key`,
 * `partial_from_iterator_encode`, `partial_encode` and the nibble-array
 * packers `fuse_nibbles_node` and `fuse_nibbles_node_no_extension`.
 */
module Partials {
  import opened Common
  import opened Radix
  import opened SizeCodec
  import HeaderExt
  import HeaderNoExt

  /**
   * trie_db's `Partial`: `extraCount` nibbles held in the right of
   * `extraByte`, followed by whole bytes of nibbles.
   */
  datatype Partial = Partial(extraCount: nat, extraByte: byte, bytes: seq<byte>)

  /** A leading partial byte holds fewer nibbles than a whole byte. */
  predicate WellFormed(r: Radix, p: Partial)
  {
    p.extraCount < NibblePerByte(r)
  }

  /** `partial.1.len() * NIBBLE_PER_BYTE + number_nibble_encoded`. */
  function NibbleCount(r: Radix, p: Partial): nat
  {
    |p.bytes| * NibblePerByte(r) + p.extraCount
  }

  /** The key bytes written after the header: the masked leading byte, if any, then the whole bytes. */
  function KeyBytes(r: Radix, p: Partial): (k: seq<byte>)
    requires WellFormed(r, p)
    ensures |k| == NibbleBytes(r, NibbleCount(r, p))
  {
    NibbleBytesOfPartial(r, p);
    (if p.extraCount > 0 then [MaskedRight(r, p.extraCount, p.extraByte)] else []) + p.bytes
  }

  /** The whole bytes, and one more when a leading partial byte is present. */
  lemma NibbleBytesOfPartial(r: Radix, p: Partial)
    requires WellFormed(r, p)
    ensures NibbleBytes(r, NibbleCount(r, p)) == |p.bytes| + (if p.extraCount > 0 then 1 else 0)
  {
    var n := |p.bytes|;
    match r
    case Radix16 => assert (n * 2 + p.extraCount + 1) / 2 == n + (if p.extraCount > 0 then 1 else 0);
    case Radix4 => assert (n * 4 + p.extraCount + 3) / 4 == n + (if p.extraCount > 0 then 1 else 0);
  }

  /**
   * `partial_to_key` (extension layout): the one-byte header `offset + count`
   * then the key bytes. The source asserts `count < over`.
   */
  function PartialToKey(r: Radix, p: Partial, offset: byte, over: nat): (out: seq<byte>)
    requires WellFormed(r, p) && NibbleCount(r, p) < over && offset + over <= 256
    ensures |out| == 1 + NibbleBytes(r, NibbleCount(r, p))
    ensures out[0] - offset == NibbleCount(r, p)
    ensures out[1..] == KeyBytes(r, p)
  {
    [offset + NibbleCount(r, p)] + KeyBytes(r, p)
  }

  /**
   * `partial_from_iterator_to_key` (extension layout): the header for a given
   * count, then the already packed key bytes. The source asserts `count < over`.
   */
  function PartialFromIteratorToKey(partial: seq<byte>, count: nat, offset: byte, over: nat): (out: seq<byte>)
    requires count < over && offset + over <= 256
    ensures |out| == 1 + |partial| && out[0] - offset == count && out[1..] == partial
  {
    [offset + count] + partial
  }

  /**
   * `partial_from_iterator_encode` (no-extension layout): the varint header of
   * the kind with the count saturated at 65535, then the packed key bytes.
   */
  function PartialFromIteratorEncode(partial: seq<byte>, count: nat, kind: HeaderNoExt.NodeKind): (out: seq<byte>)
    ensures HeaderNoExt.Decode(out) == Some((HeaderNoExt.KindHeader(kind, Min(NIBBLE_SIZE_BOUND, count)), partial))
  {
    var h := HeaderNoExt.KindHeader(kind, Min(NIBBLE_SIZE_BOUND, count));
    assert HeaderNoExt.Saturated(h) == h;
    HeaderNoExt.RoundTrip(h, partial);
    HeaderNoExt.Encode(h) + partial
  }

  /**
   * What `partial_from_iterator_encode` writes reads back as the header of the
   * kind for the count saturated at 65535, followed by the key bytes.
   */
  lemma PartialFromIteratorEncodeHeader(partial: seq<byte>, count: nat, kind: HeaderNoExt.NodeKind, rest: seq<byte>)
    ensures var h := HeaderNoExt.KindHeader(kind, Min(NIBBLE_SIZE_BOUND, count));
      HeaderNoExt.Decode(PartialFromIteratorEncode(partial, count, kind) + rest) == Some((h, partial + rest))
  {
    var h := HeaderNoExt.KindHeader(kind, Min(NIBBLE_SIZE_BOUND, count));
    assert PartialFromIteratorEncode(partial, count, kind) + rest == HeaderNoExt.Encode(h) + (partial + rest);
    assert HeaderNoExt.Saturated(h) == h;
    HeaderNoExt.RoundTrip(h, partial + rest);
  }

  /**
   * `partial_encode` (no-extension layout): the varint header of the kind for
   * the partial's count saturated at 65535, then every key byte: only the
   * header count is saturated.
   */
  function PartialEncode(r: Radix, p: Partial, kind: HeaderNoExt.NodeKind): (out: seq<byte>)
    requires WellFormed(r, p)
    ensures HeaderNoExt.Decode(out)
      == Some((HeaderNoExt.KindHeader(kind, Min(NIBBLE_SIZE_BOUND, NibbleCount(r, p))), KeyBytes(r, p)))
  {
    var h := HeaderNoExt.KindHeader(kind, Min(NIBBLE_SIZE_BOUND, NibbleCount(r, p)));
    assert HeaderNoExt.Saturated(h) == h;
    HeaderNoExt.RoundTrip(h, KeyBytes(r, p));
    HeaderNoExt.Encode(h) + KeyBytes(r, p)
  }

  /**
   * What `partial_encode` writes reads back as the header of the kind for the
   * count saturated at 65535, followed by all of the key bytes.
   */
  lemma PartialEncodeHeader(r: Radix, p: Partial, kind: HeaderNoExt.NodeKind, rest: seq<byte>)
    requires WellFormed(r, p)
    ensures var h := HeaderNoExt.KindHeader(kind, Min(NIBBLE_SIZE_BOUND, NibbleCount(r, p)));
      HeaderNoExt.Decode(PartialEncode(r, p, kind) + rest) == Some((h, KeyBytes(r, p) + rest))
  {
    assert PartialEncode(r, p, kind) == PartialFromIteratorEncode(KeyBytes(r, p), NibbleCount(r, p), kind);
    PartialFromIteratorEncodeHeader(KeyBytes(r, p), NibbleCount(r, p), kind, rest);
  }

  // ---------------------------------------------------------------------
  // Nibble arrays (one radix-16 nibble per element), as the trie streams get them

  predicate IsNibbles(ns: seq<byte>)
  {
    forall i :: 0 <= i < |ns| ==> ns[i] < 16
  }

  /** `chunks(2).map(|ch| ch[0] << 4 | ch[1])` over an even-length nibble array. */
  function PackPairs(ns: seq<byte>): (out: seq<byte>)
    requires IsNibbles(ns) && |ns| % 2 == 0
    ensures |out| == |ns| / 2
  {
    if ns == [] then [] else [ns[0] * 16 + ns[1]] + PackPairs(ns[2..])
  }

  /** The two nibbles of every byte, high nibble first. */
  function UnpackPairs(bytes: seq<byte>): (ns: seq<byte>)
    ensures |ns| == 2 * |bytes| && IsNibbles(ns)
  {
    if bytes == [] then [] else [bytes[0] / 16, bytes[0] % 16] + UnpackPairs(bytes[1..])
  }

  lemma {:induction false} UnpackPack(ns: seq<byte>)
    requires IsNibbles(ns) && |ns| % 2 == 0
    ensures UnpackPairs(PackPairs(ns)) == ns
  {
    if ns != [] {
      UnpackPack(ns[2..]);
      assert PackPairs(ns)[1..] == PackPairs(ns[2..]);
      assert ns == [ns[0], ns[1]] + ns[2..];
    }
  }

  /** The key bytes of a nibble array: an odd first nibble alone, then the packed pairs. */
  function FusedKey(ns: seq<byte>): (k: seq<byte>)
    requires IsNibbles(ns)
    ensures |k| == NibbleBytes(Radix16, |ns|)
  {
    (if |ns| % 2 == 1 then [ns[0]] else []) + PackPairs(ns[|ns| % 2..])
  }

  /**
   * `fuse_nibbles_node`: the one-byte extension-layout header for a leaf or an
   * extension holding the nibble array, then its key bytes. The source
   * debug-asserts fewer than 126 nibbles.
   */
  function FuseNibblesNode(ns: seq<byte>, leaf: bool): (out: seq<byte>)
    requires IsNibbles(ns) && |ns| < 126
    ensures HeaderExt.Decode(out) ==
      Some((if leaf then HeaderExt.Leaf(|ns|) else HeaderExt.Extension(|ns|), FusedKey(ns)))
  {
    var first := (if leaf then HeaderExt.LEAF_NODE_OFFSET else HeaderExt.EXTENSION_NODE_OFFSET) + |ns|;
    assert ([first] + FusedKey(ns))[1..] == FusedKey(ns);
    [first] + FusedKey(ns)
  }

  /**
   * `fuse_nibbles_node_no_extension`: the varint header of the kind for the
   * array's length saturated at 65535, then all of its key bytes.
   */
  function FuseNibblesNodeNoExt(ns: seq<byte>, kind: HeaderNoExt.NodeKind): (out: seq<byte>)
    requires IsNibbles(ns)
    ensures HeaderNoExt.Decode(out) == Some((HeaderNoExt.KindHeader(kind, Min(NIBBLE_SIZE_BOUND, |ns|)), FusedKey(ns)))
  {
    var h := HeaderNoExt.KindHeader(kind, Min(NIBBLE_SIZE_BOUND, |ns|));
    assert HeaderNoExt.Encode(h) == SizeEncoding(Min(NIBBLE_SIZE_BOUND, |ns|), HeaderNoExt.KindMask(kind));
    assert HeaderNoExt.Saturated(h) == h;
    HeaderNoExt.RoundTrip(h, FusedKey(ns));
    SizeEncoding(Min(NIBBLE_SIZE_BOUND, |ns|), HeaderNoExt.KindMask(kind)) + FusedKey(ns)
  }

  /** The `Partial` trie_db builds for a radix-16 nibble array. */
  function PartialOfNibbles(ns: seq<byte>): (p: Partial)
    requires IsNibbles(ns)
    ensures WellFormed(Radix16, p) && NibbleCount(Radix16, p) == |ns|
  {
    Partial(|ns| % 2, if |ns| % 2 == 1 then ns[0] else 0, PackPairs(ns[|ns| % 2..]))
  }

  /** The packed key of a nibble array is the key bytes of its `Partial`. */
  lemma FusedKeyIsKeyBytes(ns: seq<byte>)
    requires IsNibbles(ns)
    ensures FusedKey(ns) == KeyBytes(Radix16, PartialOfNibbles(ns))
  {
    Pow2Values();
    if |ns| % 2 == 1 {
      MaskedRightKeepsSmall(Radix16, 1, ns[0]);
    }
  }

  /**
   * The trie stream and the node codec agree on a leaf's and an extension's
   * header and key: `fuse_nibbles_node` writes what `partial_to_key` writes for
   * the same nibbles.
   */
  lemma FuseMatchesPartialToKey(ns: seq<byte>, leaf: bool)
    requires IsNibbles(ns) && |ns| < 126
    ensures var offset := if leaf then HeaderExt.LEAF_NODE_OFFSET else HeaderExt.EXTENSION_NODE_OFFSET;
      var over := if leaf then HeaderExt.LEAF_NODE_OVER else HeaderExt.EXTENSION_NODE_OVER;
      FuseNibblesNode(ns, leaf) == PartialToKey(Radix16, PartialOfNibbles(ns), offset, over)
  {
    FusedKeyIsKeyBytes(ns);
  }

  /** The same agreement for the no-extension layout: `fuse_nibbles_node_no_extension` and `partial_encode`. */
  lemma FuseNoExtMatchesPartialEncode(ns: seq<byte>, kind: HeaderNoExt.NodeKind)
    requires IsNibbles(ns)
    ensures FuseNibblesNodeNoExt(ns, kind) == PartialEncode(Radix16, PartialOfNibbles(ns), kind)
  {
    FusedKeyIsKeyBytes(ns);
    var h := HeaderNoExt.KindHeader(kind, Min(NIBBLE_SIZE_BOUND, |ns|));
    assert HeaderNoExt.Encode(h) == SizeEncoding(Min(NIBBLE_SIZE_BOUND, |ns|), HeaderNoExt.KindMask(kind));
  }

  /**
   * The key bytes of a nibble array give the array back: unpacked two nibbles
   * per byte, past the `number_padding` nibbles a decoder skips.
   */
  lemma FusedKeyRoundTrip(ns: seq<byte>)
    requires IsNibbles(ns)
    ensures UnpackPairs(FusedKey(ns))[NumberPadding(Radix16, |ns|)..] == ns
  {
    var odd := |ns| % 2;
    var tail := ns[odd..];
    UnpackPack(tail);
    if odd == 1 {
      assert FusedKey(ns) == [ns[0]] + PackPairs(tail);
      UnpackAppend([ns[0]], PackPairs(tail));
      assert UnpackPairs([ns[0]]) == [0, ns[0]];
      assert ns == [ns[0]] + tail;
    } else {
      assert FusedKey(ns) == PackPairs(tail);
    }
  }

  lemma {:induction false} UnpackAppend(a: seq<byte>, b: seq<byte>)
    ensures UnpackPairs(a + b) == UnpackPairs(a) + UnpackPairs(b)
  {
    if a != [] {
      assert (a + b)[1..] == a[1..] + b;
      UnpackAppend(a[1..], b);
    } else {
      assert a + b == b;
    }
  }
}

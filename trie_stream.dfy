/**
 * `ReferenceTrieStream` and `ReferenceTrieStreamNoExt`: the byte sinks the
 * root calculation writes nodes into, one call per node part. Each owns a
 * growing buffer. Keys arrive as arrays of radix-16 nibbles; a finished
 * child stream is embedded inline when it is at most 31 bytes long and by
 * its hash otherwise.
 */
module TrieStream {
  import opened Common
  import opened Radix
  import opened Scale
  import opened SizeCodec
  import opened Bitmap
  import opened Partials
  import opened Node
  import HeaderExt
  import HeaderNoExt
  import CodecExt
  import CodecNoExt

  /** Child streams up to this length are embedded rather than hashed. */
  const INLINE_LIMIT: nat := 31

  /** The child reference `append_substream` writes: the data itself, or its hash. */
  function SubstreamRef(data: seq<byte>, hash: seq<byte> -> seq<byte>): seq<byte>
  {
    if |data| <= INLINE_LIMIT then data else hash(data)
  }

  /** The child reference fits the `u32` length prefix. */
  predicate Writable(data: seq<byte>, hash: seq<byte> -> seq<byte>)
  {
    |SubstreamRef(data, hash)| < U32_LIMIT
  }

  /**
   * The child reference a finished child stream stands for in a node: the
   * stream's bytes inline when they are short, its hash otherwise.
   */
  function ChildOf(data: seq<byte>, hash: seq<byte> -> seq<byte>): (c: Child)
    requires Writable(data, hash)
    ensures ChildPayload(c) == SubstreamRef(data, hash)
    ensures c.Inline? <==> |data| <= INLINE_LIMIT
  {
    if |data| <= INLINE_LIMIT then
      assert data[..|data|] == data;
      Inline(data, |data|)
    else
      Hash(hash(data))
  }

  /** A substream is written as a length-prefixed child reference, inline below 32 bytes. */
  lemma SubstreamChoice(data: seq<byte>, hash: seq<byte> -> seq<byte>)
    requires Writable(data, hash)
    ensures |data| <= INLINE_LIMIT ==> ReadSlice(EncodeSlice(SubstreamRef(data, hash))) == Some((data, []))
    ensures |data| > INLINE_LIMIT ==> ReadSlice(EncodeSlice(SubstreamRef(data, hash))) == Some((hash(data), []))
  {
    ReadSliceOfEncoding(SubstreamRef(data, hash), []);
    assert EncodeSlice(SubstreamRef(data, hash)) + [] == EncodeSlice(SubstreamRef(data, hash));
  }

  /**
   * What `begin_branch` writes in the extension layout: the branch header and
   * bitmap, the extension-fused key if one is given (the layout never gives
   * one), then the length-prefixed value if any.
   */
  function BranchStart(maybeKey: Option<seq<byte>>, maybeValue: Option<seq<byte>>, hasChildren: seq<bool>): seq<byte>
    requires maybeKey.Some? ==> IsNibbles(maybeKey.value) && |maybeKey.value| < HeaderExt.EXTENSION_NODE_OVER
    requires EncodableValue(maybeValue)
  {
    [CodecExt.BranchFirst(maybeValue.Some?)] + BitmapBytes(Radix16, hasChildren)
      + (if maybeKey.Some? then FuseNibblesNode(maybeKey.value, false) else []) + ValueBytes(maybeValue)
  }

  /**
   * What `begin_branch` writes in the no-extension layout: with a key, the
   * branch's varint header and key then the two bitmap bytes; without one
   * (which the layout never does), the extension layout's branch header and
   * bitmap. Then the length-prefixed value if any.
   */
  function BranchStartNoExt(maybeKey: Option<seq<byte>>, maybeValue: Option<seq<byte>>, hasChildren: seq<bool>): seq<byte>
    requires maybeKey.Some? ==> IsNibbles(maybeKey.value)
    requires EncodableValue(maybeValue)
  {
    (if maybeKey.Some?
     then FuseNibblesNodeNoExt(maybeKey.value, CodecNoExt.BranchKind(maybeValue.Some?))
       + BitmapBytes(Radix16, hasChildren)
     else [CodecExt.BranchFirst(maybeValue.Some?)] + BitmapBytes(Radix16, hasChildren))
      + ValueBytes(maybeValue)
  }

  class ReferenceTrieStream {
    var buffer: seq<byte>

    constructor ()
      ensures buffer == []
    {
      buffer := [];
    }

    /** `out`: the bytes written so far. */
    function Out(): seq<byte>
      reads this
    {
      buffer
    }

    method AppendEmptyData()
      modifies this
      ensures buffer == old(buffer) + [HeaderExt.EMPTY_TRIE]
    {
      buffer := buffer + [HeaderExt.EMPTY_TRIE];
    }

    /** The leaf's header and key from the nibbles, then the length-prefixed value. */
    method AppendLeaf(key: seq<byte>, value: seq<byte>)
      requires IsNibbles(key) && |key| < HeaderExt.EXTENSION_NODE_OVER && |value| < U32_LIMIT
      modifies this
      ensures buffer == old(buffer) + FuseNibblesNode(key, true) + EncodeSlice(value)
    {
      buffer := buffer + FuseNibblesNode(key, true);
      buffer := buffer + EncodeSlice(value);
    }

    /**
     * The branch header and bitmap, then the key if one is given (the layout
     * never gives one), then the length-prefixed value if any.
     */
    method BeginBranch(maybeKey: Option<seq<byte>>, maybeValue: Option<seq<byte>>, hasChildren: seq<bool>)
      requires maybeKey.Some? ==> IsNibbles(maybeKey.value) && |maybeKey.value| < HeaderExt.EXTENSION_NODE_OVER
      requires EncodableValue(maybeValue)
      modifies this
      ensures buffer == old(buffer) + BranchStart(maybeKey, maybeValue, hasChildren)
    {
      var header := CodecExt.BranchNodeHeader(maybeValue.Some?, hasChildren);
      ghost var keyBytes := if maybeKey.Some? then FuseNibblesNode(maybeKey.value, false) else [];
      buffer := buffer + header;
      if maybeKey.Some? {
        buffer := buffer + FuseNibblesNode(maybeKey.value, false);
      } else {
        AppendNil(buffer);
      }
      assert buffer == old(buffer) + header + keyBytes;
      Assoc(old(buffer), header, keyBytes);
      ghost var written := header + keyBytes;
      if maybeValue.Some? {
        buffer := buffer + EncodeSlice(maybeValue.value);
      } else {
        AppendNil(buffer);
      }
      assert buffer == old(buffer) + written + ValueBytes(maybeValue);
      Assoc(old(buffer), written, ValueBytes(maybeValue));
    }

    method AppendExtension(key: seq<byte>)
      requires IsNibbles(key) && |key| < HeaderExt.EXTENSION_NODE_OVER
      modifies this
      ensures buffer == old(buffer) + FuseNibblesNode(key, false)
    {
      buffer := buffer + FuseNibblesNode(key, false);
    }

    /** A finished child stream, inline or by its hash, length-prefixed. */
    method AppendSubstream(other: ReferenceTrieStream, hash: seq<byte> -> seq<byte>)
      requires Writable(other.buffer, hash)
      modifies this
      ensures buffer == old(buffer) + EncodeSlice(SubstreamRef(old(other.buffer), hash))
    {
      var data := other.Out();
      if |data| <= INLINE_LIMIT {
        buffer := buffer + EncodeSlice(data);
      } else {
        buffer := buffer + EncodeSlice(hash(data));
      }
    }
  }

  class ReferenceTrieStreamNoExt {
    var buffer: seq<byte>

    constructor ()
      ensures buffer == []
    {
      buffer := [];
    }

    /** `out`: the bytes written so far. */
    function Out(): seq<byte>
      reads this
    {
      buffer
    }

    method AppendEmptyData()
      modifies this
      ensures buffer == old(buffer) + [HeaderNoExt.EMPTY_TRIE_NO_EXT]
    {
      buffer := buffer + [HeaderNoExt.EMPTY_TRIE_NO_EXT];
    }

    /** The leaf's varint header and key from the nibbles, then the length-prefixed value. */
    method AppendLeaf(key: seq<byte>, value: seq<byte>)
      requires IsNibbles(key) && |value| < U32_LIMIT
      modifies this
      ensures buffer == old(buffer) + FuseNibblesNodeNoExt(key, HeaderNoExt.LeafKind) + EncodeSlice(value)
    {
      buffer := buffer + FuseNibblesNodeNoExt(key, HeaderNoExt.LeafKind);
      buffer := buffer + EncodeSlice(value);
    }

    /**
     * With a key: the branch's varint header and key, then the two bitmap
     * bytes. Without one (which the layout never does): the extension
     * layout's branch header and bitmap. Then the length-prefixed value if any.
     */
    method BeginBranch(maybeKey: Option<seq<byte>>, maybeValue: Option<seq<byte>>, hasChildren: seq<bool>)
      requires maybeKey.Some? ==> IsNibbles(maybeKey.value)
      requires EncodableValue(maybeValue)
      modifies this
      ensures buffer == old(buffer) + BranchStartNoExt(maybeKey, maybeValue, hasChildren)
    {
      ghost var head: seq<byte>;
      if maybeKey.Some? {
        var keyBytes := FuseNibblesNodeNoExt(maybeKey.value, CodecNoExt.BranchKind(maybeValue.Some?));
        buffer := buffer + keyBytes;
        var lo, hi := BranchNodeBitMask(hasChildren);
        buffer := buffer + [lo, hi];
        head := keyBytes + [lo, hi];
        Assoc(old(buffer), keyBytes, [lo, hi]);
      } else {
        var header := CodecExt.BranchNodeHeader(maybeValue.Some?, hasChildren);
        buffer := buffer + header;
        head := header;
      }
      assert buffer == old(buffer) + head;
      if maybeValue.Some? {
        buffer := buffer + EncodeSlice(maybeValue.value);
      } else {
        AppendNil(buffer);
      }
      assert buffer == old(buffer) + head + ValueBytes(maybeValue);
      Assoc(old(buffer), head, ValueBytes(maybeValue));
    }

    /** Extensions do not exist in this layout: nothing is written. */
    method AppendExtension(key: seq<byte>)
      modifies this
      ensures buffer == old(buffer)
    {
    }

    /** A finished child stream, inline or by its hash, length-prefixed. */
    method AppendSubstream(other: ReferenceTrieStreamNoExt, hash: seq<byte> -> seq<byte>)
      requires Writable(other.buffer, hash)
      modifies this
      ensures buffer == old(buffer) + EncodeSlice(SubstreamRef(old(other.buffer), hash))
    {
      var data := other.Out();
      if |data| <= INLINE_LIMIT {
        buffer := buffer + EncodeSlice(data);
      } else {
        buffer := buffer + EncodeSlice(hash(data));
      }
    }
  }

  // ---------------------------------------------------------------------
  // The streams write what the node codecs write

  /** A leaf from the extension-layout stream is the codec's leaf for the same nibbles, and decodes to them. */
  lemma StreamLeafIsCodecLeaf(cfg: Config, key: seq<byte>, value: seq<byte>)
    requires cfg.radix == Radix16
    requires IsNibbles(key) && |key| < HeaderExt.EXTENSION_NODE_OVER && |value| < U32_LIMIT
    ensures FuseNibblesNode(key, true) + EncodeSlice(value) == CodecExt.LeafNode(cfg, PartialOfNibbles(key), value)
    ensures CodecExt.Parse(cfg, FuseNibblesNode(key, true) + EncodeSlice(value))
      == Ok(Leaf(NibbleView(FusedKey(key), NumberPadding(Radix16, |key|)), value))
  {
    FuseMatchesPartialToKey(key, true);
    FusedKeyIsKeyBytes(key);
    CodecExt.LeafRoundTrip(cfg, PartialOfNibbles(key), value);
  }

  /** Every present slot holds a finished child stream `append_substream` can write. */
  predicate AllWritable(subs: seq<Option<seq<byte>>>, hash: seq<byte> -> seq<byte>)
  {
    forall i :: 0 <= i < |subs| && subs[i].Some? ==> Writable(subs[i].value, hash)
  }

  /** What `append_substream` writes for each present slot, in slot order. */
  function SubstreamsBytes(subs: seq<Option<seq<byte>>>, hash: seq<byte> -> seq<byte>): seq<byte>
    requires AllWritable(subs, hash)
  {
    if subs == [] then []
    else
      var slot := if subs[0].Some? then EncodeSlice(SubstreamRef(subs[0].value, hash)) else [];
      slot + SubstreamsBytes(subs[1..], hash)
  }

  /** The child references the node codec is given for the same slots. */
  function ChildrenOf(subs: seq<Option<seq<byte>>>, hash: seq<byte> -> seq<byte>): (children: seq<Option<Child>>)
    requires AllWritable(subs, hash)
    ensures |children| == |subs|
  {
    if subs == [] then []
    else [if subs[0].Some? then Some(ChildOf(subs[0].value, hash)) else None] + ChildrenOf(subs[1..], hash)
  }

  /** The `has_children` flags of the slots. */
  function Occupied(subs: seq<Option<seq<byte>>>): (flags: seq<bool>)
    ensures |flags| == |subs|
  {
    if subs == [] then [] else [subs[0].Some?] + Occupied(subs[1..])
  }

  /**
   * The substreams appended slot by slot are the codec's children bytes for
   * the corresponding child references, and the slots' flags are their presence.
   */
  lemma {:induction false} SubstreamsAreChildren(subs: seq<Option<seq<byte>>>, hash: seq<byte> -> seq<byte>)
    requires AllWritable(subs, hash)
    ensures SubstreamsBytes(subs, hash) == ChildrenBytes(ChildrenOf(subs, hash))
    ensures Presence(ChildrenOf(subs, hash)) == Occupied(subs)
  {
    if subs != [] {
      var cs := ChildrenOf(subs, hash);
      assert cs[1..] == ChildrenOf(subs[1..], hash);
      SubstreamsAreChildren(subs[1..], hash);
    }
  }

  /**
   * A keyless branch from the extension-layout stream (`begin_branch` with
   * the slots' flags) followed by one `append_substream` per present slot is
   * the codec's branch for the children those substreams stand for, and with
   * 16 slots it decodes to the value and the children's offset table.
   */
  lemma StreamBranchIsCodecBranch(cfg: Config, subs: seq<Option<seq<byte>>>, value: Option<seq<byte>>,
                                  hash: seq<byte> -> seq<byte>)
    requires cfg.radix == Radix16 && EncodableValue(value) && AllWritable(subs, hash)
    ensures BranchStart(None, value, Occupied(subs)) + SubstreamsBytes(subs, hash)
      == CodecExt.BranchLayout(cfg, ChildrenOf(subs, hash), value)
    ensures |subs| == 16 ==>
      CodecExt.Parse(cfg, BranchStart(None, value, Occupied(subs)) + SubstreamsBytes(subs, hash))
        == Ok(Branch(ChildIndex([0] + OffsetsFrom(ChildrenOf(subs, hash), cfg.contentHeaderSize, 0),
                                SubstreamsBytes(subs, hash)), value))
  {
    SubstreamsAreChildren(subs, hash);
    AppendNil([CodecExt.BranchFirst(value.Some?)] + BitmapBytes(Radix16, Occupied(subs)));
    if |subs| == 16 {
      CodecExt.BranchRoundTrip(cfg, ChildrenOf(subs, hash), value);
    }
  }

  /**
   * An extension from the extension-layout stream (`append_extension` then
   * `append_substream` of its child) is the codec's extension for the packed
   * key and the child reference the substream stands for, and decodes to them.
   */
  lemma StreamExtensionIsCodecExtension(cfg: Config, key: seq<byte>, data: seq<byte>, hash: seq<byte> -> seq<byte>)
    requires cfg.radix == Radix16
    requires IsNibbles(key) && |key| < HeaderExt.EXTENSION_NODE_OVER && Writable(data, hash)
    ensures FuseNibblesNode(key, false) + EncodeSlice(SubstreamRef(data, hash))
      == CodecExt.ExtensionNode(FusedKey(key), |key|, ChildOf(data, hash))
    ensures CodecExt.Parse(cfg, FuseNibblesNode(key, false) + EncodeSlice(SubstreamRef(data, hash)))
      == Ok(Extension(NibbleView(FusedKey(key), NumberPadding(Radix16, |key|)), SubstreamRef(data, hash)))
  {
    CodecExt.ExtensionRoundTrip(cfg, FusedKey(key), |key|, ChildOf(data, hash));
  }

  /** A leaf from the no-extension stream is the codec's leaf for the same nibbles, and decodes to them. */
  lemma StreamLeafNoExtIsCodecLeaf(cfg: Config, key: seq<byte>, value: seq<byte>)
    requires cfg.radix == Radix16
    requires IsNibbles(key) && |key| <= NIBBLE_SIZE_BOUND && |value| < U32_LIMIT
    ensures FuseNibblesNodeNoExt(key, HeaderNoExt.LeafKind) + EncodeSlice(value)
      == CodecNoExt.LeafNode(cfg, PartialOfNibbles(key), value)
    ensures CodecNoExt.Parse(cfg, FuseNibblesNodeNoExt(key, HeaderNoExt.LeafKind) + EncodeSlice(value))
      == Ok(Leaf(NibbleView(FusedKey(key), NumberPadding(Radix16, |key|)), value))
  {
    FuseNoExtMatchesPartialEncode(key, HeaderNoExt.LeafKind);
    FusedKeyIsKeyBytes(key);
    CodecNoExt.LeafRoundTrip(cfg, PartialOfNibbles(key), value);
  }

  /**
   * A keyed branch from the no-extension stream (`begin_branch` with the key
   * and the slots' flags) followed by one `append_substream` per present slot
   * is the codec's `branch_node_nibbled` for the packed key and the children
   * those substreams stand for.
   */
  lemma StreamBranchNoExtIsCodecBranch(cfg: Config, key: seq<byte>, subs: seq<Option<seq<byte>>>,
                                       value: Option<seq<byte>>, hash: seq<byte> -> seq<byte>)
    requires cfg.radix == Radix16
    requires IsNibbles(key) && EncodableValue(value) && AllWritable(subs, hash)
    ensures BranchStartNoExt(Some(key), value, Occupied(subs)) + SubstreamsBytes(subs, hash)
      == CodecNoExt.NibbledBranchLayout(cfg, FusedKey(key), |key|, ChildrenOf(subs, hash), value)
  {
    var kind := CodecNoExt.BranchKind(value.Some?);
    assert HeaderNoExt.Encode(HeaderNoExt.KindHeader(kind, Min(NIBBLE_SIZE_BOUND, |key|)))
      == SizeEncoding(Min(NIBBLE_SIZE_BOUND, |key|), HeaderNoExt.KindMask(kind));
    SubstreamsAreChildren(subs, hash);
    var fk, bb, vb, cb := FuseNibblesNodeNoExt(key, kind), BitmapBytes(Radix16, Occupied(subs)),
      ValueBytes(value), SubstreamsBytes(subs, hash);
    Assoc(fk, bb, vb);
    Assoc(fk, bb + vb, cb);
  }
}

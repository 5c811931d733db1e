/**
 * `ReferenceNodeCodec`: the node codec of the extension layout. A node is its
 * one-byte header (`NodeHeader`), then for a leaf or an extension the key
 * bytes and a length-prefixed value or child, and for a branch the bitmap,
 * the optional value and the length-prefixed children.
 */
module CodecExt {
  import opened Common
  import opened Radix
  import opened Scale
  import opened Bitmap
  import opened Partials
  import opened Node
  import H = HeaderExt

  /** `empty_node`: the single byte that decodes as the null header. */
  function EmptyNode(): (out: seq<byte>)
    ensures H.Decode(out) == Some((H.Null, []))
  {
    var out := [H.EMPTY_TRIE];
    assert out[1..] == [];
    out
  }

  /** `is_empty_node`: the input is exactly the empty node. */
  predicate IsEmptyNode(data: seq<byte>)
    ensures IsEmptyNode(data) <==> |data| == 1 && data[0] == H.EMPTY_TRIE
  {
    data == EmptyNode()
  }

  /** `try_decode_hash`: an input of the hasher's length is a hash; any other is not. */
  function TryDecodeHash(cfg: Config, data: seq<byte>): (r: Option<seq<byte>>)
    ensures r.Some? <==> |data| == cfg.hashLength
    ensures r.Some? ==> r.value == data
  {
    if |data| == cfg.hashLength then Some(data) else None
  }

  /** The first byte of a branch: the header for with or without a value. */
  function BranchFirst(hasValue: bool): byte
  {
    if hasValue then H.BRANCH_NODE_WITH_VALUE else H.BRANCH_NODE_NO_VALUE
  }

  /**
   * `leaf_node`: the leaf header and key of `partial_to_key`, then the
   * length-prefixed value. The source asserts fewer than 127 nibbles.
   */
  function LeafNode(cfg: Config, p: Partial, value: seq<byte>): (out: seq<byte>)
    requires WellFormed(cfg.radix, p) && NibbleCount(cfg.radix, p) < H.LEAF_NODE_OVER
    requires |value| < U32_LIMIT
    ensures H.Decode(out) == Some((H.Leaf(NibbleCount(cfg.radix, p)), KeyBytes(cfg.radix, p) + EncodeSlice(value)))
  {
    var key := PartialToKey(cfg.radix, p, H.LEAF_NODE_OFFSET, H.LEAF_NODE_OVER);
    assert (key + EncodeSlice(value))[1..] == key[1..] + EncodeSlice(value);
    key + EncodeSlice(value)
  }

  /**
   * `extension_node`: the extension header for `count` nibbles and the packed
   * key, then the child reference, length-prefixed whether hash or inline.
   * The source asserts fewer than 126 nibbles.
   */
  function ExtensionNode(partial: seq<byte>, count: nat, child: Child): (out: seq<byte>)
    requires count < H.EXTENSION_NODE_OVER
    ensures H.Decode(out) == Some((H.Extension(count), partial + EncodeSlice(ChildPayload(child))))
  {
    var key := PartialFromIteratorToKey(partial, count, H.EXTENSION_NODE_OFFSET, H.EXTENSION_NODE_OVER);
    assert (key + EncodeSlice(ChildPayload(child)))[1..] == partial + EncodeSlice(ChildPayload(child));
    key + EncodeSlice(ChildPayload(child))
  }

  /** The wire layout of a branch: header, bitmap, optional value, children. */
  function BranchLayout(cfg: Config, children: seq<Option<Child>>, value: Option<seq<byte>>): seq<byte>
    requires EncodableValue(value)
  {
    [BranchFirst(value.Some?)] + BitmapBytes(cfg.radix, Presence(children))
      + ValueBytes(value) + ChildrenBytes(children)
  }

  /**
   * `branch_node_buffered`: the branch header in `output[0]`, the bitmap of the
   * flags after it; the rest of the buffer is untouched.
   */
  method BranchNodeBuffered(r: Radix, hasValue: bool, flags: seq<bool>, output: array<byte>)
    requires BitmapEncodedLen(r) + 1 <= output.Length
    modifies output
    ensures output[..BitmapEncodedLen(r) + 1] == [BranchFirst(hasValue)] + BitmapBytes(r, flags)
    ensures output[BitmapEncodedLen(r) + 1..] == old(output[BitmapEncodedLen(r) + 1..])
  {
    output[0] := BranchFirst(hasValue);
    Bitmap.Encode(r, flags, output, 1);
    assert output[..BitmapEncodedLen(r) + 1] == output[..1] + output[1..BitmapEncodedLen(r) + 1];
  }

  /**
   * The free `branch_node` the trie streams use: the three-byte branch header
   * and 16-bit bitmap.
   */
  method BranchNodeHeader(hasValue: bool, flags: seq<bool>) returns (out: seq<byte>)
    ensures out == [BranchFirst(hasValue)] + BitmapBytes(Radix16, flags)
    ensures |out| == 3
  {
    var result := new byte[3](_ => 0);
    BranchNodeBuffered(Radix16, hasValue, flags, result);
    out := result[..];
    assert out == result[..3];
  }

  /**
   * `branch_node`: reserve the header and bitmap bytes, write the value and
   * then each present child, and put the header and bitmap, computed from the
   * children's presence, in front.
   */
  method BranchNode(cfg: Config, children: seq<Option<Child>>, value: Option<seq<byte>>)
    returns (output: seq<byte>)
    requires EncodableValue(value)
    ensures output == BranchLayout(cfg, children, value)
  {
    var r := cfg.radix;
    var len := BitmapEncodedLen(r);
    var zeros := Repeat(0, len + 1);
    var prefix := new byte[len + 1](_ => 0);
    var flags;
    output, flags := AppendValueAndChildren(zeros, value, children);
    BranchNodeBuffered(r, value.Some?, flags, prefix);
    var header := prefix[..];
    assert header == prefix[..len + 1];
    ghost var tail := ValueBytes(value) + ChildrenBytes(children);
    DropReserved(zeros, tail);
    output := header + output[len + 1..];
    Assoc(header, ValueBytes(value), ChildrenBytes(children));
  }

  /** Past the reserved bytes, the buffer holds what was written after them. */
  lemma DropReserved(reserved: seq<byte>, tail: seq<byte>)
    ensures (reserved + tail)[|reserved|..] == tail
  {
  }

  /** `decode`: the node of the first bytes of `data`; bytes after it are ignored. */
  function Parse(cfg: Config, data: seq<byte>): Result
  {
    match H.Decode(data)
    case None => Err(BadFormat)
    case Some((header, input)) =>
      match header
      case Null => Ok(Empty)
      case Branch(hasValue) => ParseBranch(cfg, hasValue, input)
      case Extension(n) =>
        (match ParseKeyed(cfg.radix, n, input)
         case None => Err(BadFormat)
         case Some((key, child)) => Ok(Extension(key, child)))
      case Leaf(n) =>
        (match ParseKeyed(cfg.radix, n, input)
         case None => Err(BadFormat)
         case Some((key, value)) => Ok(Leaf(key, value)))
  }

  /** A branch after its header. */
  function ParseBranch(cfg: Config, hasValue: bool, input: seq<byte>): Result
  {
    match ParseBranchBody(cfg, hasValue, input)
    case None => Err(BadFormat)
    case Some((children, value)) => Ok(Branch(children, value))
  }

  /** `decode`, on a cursor that each read advances. */
  method Decode(cfg: Config, data: seq<byte>) returns (result: Result)
    ensures result == Parse(cfg, data)
  {
    var header := H.Decode(data);
    if header.None? {
      return Err(BadFormat);
    }
    var cursor := header.value.1;
    match header.value.0 {
      case Null =>
        result := Ok(Empty);
      case Branch(hasValue) =>
        var body := DecodeBranchBody(cfg, hasValue, cursor);
        if body.None? {
          return Err(BadFormat);
        }
        result := Ok(Branch(body.value.0, body.value.1));
      case Extension(n) =>
        var keyed := DecodeKeyed(cfg.radix, n, cursor);
        if keyed.None? {
          return Err(BadFormat);
        }
        result := Ok(Extension(keyed.value.0, keyed.value.1));
      case Leaf(n) =>
        var keyed := DecodeKeyed(cfg.radix, n, cursor);
        if keyed.None? {
          return Err(BadFormat);
        }
        result := Ok(Leaf(keyed.value.0, keyed.value.1));
    }
  }

  // ---------------------------------------------------------------------
  // Properties

  /**
   * Round trip of a leaf: the decoder returns the key bytes viewed past the
   * padding nibbles, and the value.
   */
  lemma LeafRoundTrip(cfg: Config, p: Partial, value: seq<byte>)
    requires WellFormed(cfg.radix, p) && NibbleCount(cfg.radix, p) < H.LEAF_NODE_OVER
    requires |value| < U32_LIMIT
    ensures var count := NibbleCount(cfg.radix, p);
      Parse(cfg, LeafNode(cfg, p, value))
        == Ok(Leaf(NibbleView(KeyBytes(cfg.radix, p), NumberPadding(cfg.radix, count)), value))
  {
    KeyedRoundTrip(cfg.radix, NibbleCount(cfg.radix, p), KeyBytes(cfg.radix, p), value);
  }

  /**
   * Round trip of an extension: the decoder returns the key bytes viewed past
   * the padding nibbles, and the child reference's bytes.
   */
  lemma ExtensionRoundTrip(cfg: Config, partial: seq<byte>, count: nat, child: Child)
    requires count < H.EXTENSION_NODE_OVER
    requires |partial| == NibbleBytes(cfg.radix, count)
    ensures Parse(cfg, ExtensionNode(partial, count, child))
      == Ok(Extension(NibbleView(partial, NumberPadding(cfg.radix, count)), ChildPayload(child)))
  {
    KeyedRoundTrip(cfg.radix, count, partial, ChildPayload(child));
  }

  /**
   * Round trip of a branch of the radix's width: the decoder returns the
   * value and the offset table of the children, over the children's bytes.
   */
  lemma BranchRoundTrip(cfg: Config, children: seq<Option<Child>>, value: Option<seq<byte>>)
    requires |children| == NibbleLength(cfg.radix)
    requires EncodableValue(value)
    ensures Parse(cfg, BranchLayout(cfg, children, value))
      == Ok(Branch(ChildIndex([0] + OffsetsFrom(children, cfg.contentHeaderSize, 0), ChildrenBytes(children)), value))
  {
    var body := BitmapBytes(cfg.radix, Presence(children)) + ValueBytes(value) + ChildrenBytes(children);
    BranchLayoutSplit(cfg, children, value);
    ParseAfterBranchHeader(cfg, value.Some?, body);
    BranchBodyRoundTrip(cfg, children, value);
  }

  /** A branch is its header byte followed by the body the branch decoder reads. */
  lemma BranchLayoutSplit(cfg: Config, children: seq<Option<Child>>, value: Option<seq<byte>>)
    requires EncodableValue(value)
    ensures BranchLayout(cfg, children, value)
      == [BranchFirst(value.Some?)] + (BitmapBytes(cfg.radix, Presence(children)) + ValueBytes(value) + ChildrenBytes(children))
  {
    var x, bb, vb, cb := [BranchFirst(value.Some?)], BitmapBytes(cfg.radix, Presence(children)), ValueBytes(value), ChildrenBytes(children);
    Assoc(x, bb, vb);
    Assoc(x, bb + vb, cb);
  }

  lemma ParseAfterBranchHeader(cfg: Config, hasValue: bool, body: seq<byte>)
    ensures Parse(cfg, [BranchFirst(hasValue)] + body) == ParseBranch(cfg, hasValue, body)
  {
    H.EncodeDecode(H.Branch(hasValue), body);
  }

  /**
   * The empty node decodes as `Empty`, and so does every input starting with
   * the byte 0: `decode` ignores what follows, `is_empty_node` does not.
   */
  lemma EmptyNodeDecoding(cfg: Config, data: seq<byte>)
    ensures Parse(cfg, data) == Ok(Empty) <==> |data| > 0 && data[0] == H.EMPTY_TRIE
    ensures IsEmptyNode(data) ==> Parse(cfg, data) == Ok(Empty)
    ensures IsEmptyNode(data) <==> Parse(cfg, data) == Ok(Empty) && |data| == 1
  {
    if |data| > 0 && data[0] != H.EMPTY_TRIE {
      H.DecodeEncode(data[0], data[1..]);
      assert data == [data[0]] + data[1..];
    }
  }

  /** A leaf cut short anywhere, in its header, key, value length or value, is rejected. */
  lemma TruncatedLeafRejected(cfg: Config, p: Partial, value: seq<byte>, k: nat)
    requires WellFormed(cfg.radix, p) && NibbleCount(cfg.radix, p) < H.LEAF_NODE_OVER
    requires |value| < U32_LIMIT && k < |LeafNode(cfg, p, value)|
    ensures Parse(cfg, LeafNode(cfg, p, value)[..k]) == Err(BadFormat)
  {
    var r := cfg.radix;
    var count := NibbleCount(r, p);
    var enc := LeafNode(cfg, p, value);
    if k > 0 {
      var body := KeyBytes(r, p) + EncodeSlice(value);
      HeaderOfPrefix(enc, k);
      KeyedTruncated(r, count, KeyBytes(r, p), value, k - 1);
      LeafHeaderRejects(cfg, enc[..k], count, body[..k - 1]);
    }
  }

  /** A branch cut short anywhere before its children, in its header, bitmap or value, is rejected. */
  lemma TruncatedBranchRejected(cfg: Config, children: seq<Option<Child>>, value: Option<seq<byte>>, k: nat)
    requires |children| == NibbleLength(cfg.radix) && EncodableValue(value)
    requires k < |BranchLayout(cfg, children, value)| - |ChildrenBytes(children)|
    ensures Parse(cfg, BranchLayout(cfg, children, value)[..k]) == Err(BadFormat)
  {
    if k > 0 {
      var body := BitmapBytes(cfg.radix, Presence(children)) + ValueBytes(value) + ChildrenBytes(children);
      BranchLayoutSplit(cfg, children, value);
      assert BranchLayout(cfg, children, value)[..k] == [BranchFirst(value.Some?)] + body[..k - 1];
      ParseAfterBranchHeader(cfg, value.Some?, body[..k - 1]);
      BranchBodyTruncated(cfg, children, value, k - 1);
    }
  }

  /** After a leaf header, a key and value that do not parse make the node `BadFormat`. */
  lemma LeafHeaderRejects(cfg: Config, data: seq<byte>, count: nat, rest: seq<byte>)
    requires H.Decode(data) == Some((H.Leaf(count), rest)) && ParseKeyed(cfg.radix, count, rest) == None
    ensures Parse(cfg, data) == Err(BadFormat)
  {
  }

  /** A cut input keeps its header; what follows the header is cut one byte shorter. */
  lemma HeaderOfPrefix(data: seq<byte>, k: nat)
    requires 0 < k <= |data|
    ensures H.Decode(data[..k]) == Some((H.Decode(data).value.0, data[1..][..k - 1]))
  {
    assert data[..k][1..] == data[1..][..k - 1];
  }
}

/**
 * `ReferenceNodeCodecNoExt`: the node codec of the layout without extension
 * nodes. A node is its varint header (`NodeHeaderNoExt`), the key bytes, then
 * for a leaf the length-prefixed value and for a branch the bitmap, the
 * optional value and the length-prefixed children. The decoder checks that
 * the padding nibbles of an odd-length key are zero.
 */
module CodecNoExt {
  import opened Common
  import opened Radix
  import opened Scale
  import opened SizeCodec
  import opened Bitmap
  import opened Partials
  import opened Node
  import HN = HeaderNoExt

  /** `empty_node`: the single byte that decodes as the null header. */
  function EmptyNode(): (out: seq<byte>)
    ensures HN.Decode(out) == Some((HN.Null, []))
  {
    var out := [HN.EMPTY_TRIE_NO_EXT];
    assert out[1..] == [];
    out
  }

  /** `is_empty_node`: the input is exactly the empty node. */
  predicate IsEmptyNode(data: seq<byte>)
    ensures IsEmptyNode(data) <==> |data| == 1 && data[0] == HN.EMPTY_TRIE_NO_EXT
  {
    data == EmptyNode()
  }

  /**
   * `leaf_node`: the leaf header and every key byte from `partial_encode`, then
   * the length-prefixed value. Only the header's count saturates.
   */
  function LeafNode(cfg: Config, p: Partial, value: seq<byte>): (out: seq<byte>)
    requires WellFormed(cfg.radix, p) && |value| < U32_LIMIT
    ensures HN.Decode(out)
      == Some((HN.Leaf(Min(NIBBLE_SIZE_BOUND, NibbleCount(cfg.radix, p))), KeyBytes(cfg.radix, p) + EncodeSlice(value)))
  {
    PartialEncodeHeader(cfg.radix, p, HN.LeafKind, EncodeSlice(value));
    PartialEncode(cfg.radix, p, HN.LeafKind) + EncodeSlice(value)
  }

  /** The kind of a branch: with or without a value. */
  function BranchKind(hasValue: bool): HN.NodeKind
  {
    if hasValue then HN.BranchWithValue else HN.BranchNoValue
  }

  /** The wire layout of a branch: header and key, bitmap, optional value, children. */
  function NibbledBranchLayout(cfg: Config, partial: seq<byte>, count: nat,
                               children: seq<Option<Child>>, value: Option<seq<byte>>): seq<byte>
    requires EncodableValue(value)
  {
    PartialFromIteratorEncode(partial, count, BranchKind(value.Some?))
      + (BitmapBytes(cfg.radix, Presence(children)) + ValueBytes(value) + ChildrenBytes(children))
  }

  /**
   * `branch_node_nibbled`: header and key, then zeros reserved for the bitmap,
   * the value and each present child; the bitmap is computed into its own
   * buffer from the children's presence and copied over the reserved bytes.
   */
  method BranchNodeNibbled(cfg: Config, partial: seq<byte>, count: nat,
                           children: seq<Option<Child>>, value: Option<seq<byte>>)
    returns (output: seq<byte>)
    requires EncodableValue(value)
    ensures output == NibbledBranchLayout(cfg, partial, count, children, value)
  {
    var r := cfg.radix;
    var len := BitmapEncodedLen(r);
    var head := PartialFromIteratorEncode(partial, count, BranchKind(value.Some?));
    var bitmapIndex := |head|;
    var bitmap := new byte[len + 1](_ => 0);
    output := head + Repeat(0, len);
    var flags;
    output, flags := AppendValueAndChildren(output, value, children);
    Bitmap.Encode(r, flags, bitmap, 0);
    var bits := bitmap[..len];
    assert bits == bitmap[0..len];
    ghost var tail := ValueBytes(value) + ChildrenBytes(children);
    Splice(head, Repeat(0, len), tail, bits);
    output := output[..bitmapIndex] + bits + output[bitmapIndex + len..];
    Assoc(bits, ValueBytes(value), ChildrenBytes(children));
  }

  /** Copying `bytes` over the reserved bytes after `head` gives head, bytes, tail. */
  lemma Splice(head: seq<byte>, reserved: seq<byte>, tail: seq<byte>, bytes: seq<byte>)
    requires |reserved| == |bytes|
    ensures var o := head + reserved + tail;
      o[..|head|] + bytes + o[|head| + |bytes|..] == head + (bytes + tail)
  {
    var o := head + reserved + tail;
    assert o[..|head|] == head;
    assert o[|head| + |bytes|..] == tail;
  }

  /**
   * The padding check both decoders make before reading a key whose length is
   * not a whole number of bytes: the unused leading nibbles of the first key
   * byte must be zero. With no byte left to look at, `input[0]` panics.
   */
  function PaddingCheck(r: Radix, count: nat, input: seq<byte>): Option<DecodeError>
  {
    var withPadding := count % NibblePerByte(r);
    if withPadding == 0 then None
    else if |input| == 0 then Some(Panic)
    else if MaskedLeft(r, NibblePerByte(r) - withPadding, input[0]) != 0 then Some(BadFormat)
    else None
  }

  /** A leaf after its header. */
  function ParseLeaf(r: Radix, count: nat, input: seq<byte>): Result
  {
    match PaddingCheck(r, count, input)
    case Some(e) => Err(e)
    case None =>
      match ParseKeyed(r, count, input)
      case None => Err(BadFormat)
      case Some((key, value)) => Ok(Leaf(key, value))
  }

  /** A branch after its header: key, then the branch body. */
  function ParseNibbledBranch(cfg: Config, hasValue: bool, count: nat, input: seq<byte>): Result
  {
    match PaddingCheck(cfg.radix, count, input)
    case Some(e) => Err(e)
    case None =>
      match ReadNibbles(cfg.radix, count, input)
      case None => Err(BadFormat)
      case Some((key, afterKey)) =>
        match ParseBranchBody(cfg, hasValue, afterKey)
        case None => Err(BadFormat)
        case Some((children, value)) => Ok(NibbledBranch(key, children, value))
  }

  /** `decode`: the node of the first bytes of `data`; bytes after it are ignored. */
  function Parse(cfg: Config, data: seq<byte>): Result
  {
    match HN.Decode(data)
    case None => Err(BadFormat)
    case Some((header, input)) =>
      match header
      case Null => Ok(Empty)
      case Branch(hasValue, n) => ParseNibbledBranch(cfg, hasValue, n, input)
      case Leaf(n) => ParseLeaf(cfg.radix, n, input)
  }

  /** `decode`, on a cursor that each read advances. */
  method Decode(cfg: Config, data: seq<byte>) returns (result: Result)
    ensures result == Parse(cfg, data)
  {
    var header := HN.Decode(data);
    if header.None? {
      return Err(BadFormat);
    }
    var cursor := header.value.1;
    match header.value.0 {
      case Null =>
        result := Ok(Empty);
      case Branch(hasValue, n) =>
        result := DecodeNibbledBranch(cfg, hasValue, n, cursor);
      case Leaf(n) =>
        result := DecodeLeaf(cfg.radix, n, cursor);
    }
  }

  /** The padding check, on the cursor after the header. */
  method CheckPadding(r: Radix, count: nat, input: seq<byte>) returns (failure: Option<DecodeError>)
    ensures failure == PaddingCheck(r, count, input)
  {
    var nibbleWithPadding := count % NibblePerByte(r);
    var paddingLength := NibblePerByte(r) - nibbleWithPadding;
    if nibbleWithPadding > 0 {
      if |input| == 0 {
        // `input[0]` on an empty slice
        return Some(Panic);
      }
      if MaskedLeft(r, paddingLength, input[0]) != 0 {
        return Some(BadFormat);
      }
    }
    failure := None;
  }

  method DecodeLeaf(r: Radix, count: nat, input: seq<byte>) returns (result: Result)
    ensures result == ParseLeaf(r, count, input)
  {
    var failure := CheckPadding(r, count, input);
    if failure.Some? {
      return Err(failure.value);
    }
    var keyed := DecodeKeyed(r, count, input);
    if keyed.None? {
      return Err(BadFormat);
    }
    result := Ok(Leaf(keyed.value.0, keyed.value.1));
  }

  method DecodeNibbledBranch(cfg: Config, hasValue: bool, count: nat, input: seq<byte>) returns (result: Result)
    ensures result == ParseNibbledBranch(cfg, hasValue, count, input)
  {
    var r := cfg.radix;
    var failure := CheckPadding(r, count, input);
    if failure.Some? {
      return Err(failure.value);
    }
    var (nibbleData, afterKey) := Take(input, (count + (NibblePerByte(r) - 1)) / NibblePerByte(r));
    if nibbleData.None? {
      return Err(BadFormat);
    }
    var key := NibbleView(nibbleData.value, NumberPadding(r, count));
    var body := DecodeBranchBody(cfg, hasValue, afterKey);
    if body.None? {
      return Err(BadFormat);
    }
    result := Ok(NibbledBranch(key, body.value.0, body.value.1));
  }

  // ---------------------------------------------------------------------
  // Properties

  /** The key bytes of a well-formed partial pass the padding check. */
  lemma KeyBytesPaddingClear(r: Radix, p: Partial, rest: seq<byte>)
    requires WellFormed(r, p)
    ensures PaddingCheck(r, NibbleCount(r, p), KeyBytes(r, p) + rest) == None
  {
    CountModulus(r, p);
    if p.extraCount > 0 {
      LeadingKeyByte(r, p, rest);
      MaskedPaddingClear(r, p.extraCount, p.extraByte);
    }
  }

  /** The nibbles past the last whole byte are the partial's extra nibbles. */
  lemma CountModulus(r: Radix, p: Partial)
    requires WellFormed(r, p)
    ensures NibbleCount(r, p) % NibblePerByte(r) == p.extraCount
  {
    var n := |p.bytes|;
    match r {
      case Radix16 => assert NibbleCount(r, p) == n * 2 + p.extraCount;
      case Radix4 => assert NibbleCount(r, p) == n * 4 + p.extraCount;
    }
  }

  /** With extra nibbles, the first key byte is the masked extra byte. */
  lemma LeadingKeyByte(r: Radix, p: Partial, rest: seq<byte>)
    requires WellFormed(r, p) && p.extraCount > 0
    ensures (KeyBytes(r, p) + rest)[0] == MaskedRight(r, p.extraCount, p.extraByte)
  {
  }

  /**
   * Round trip of a leaf of at most 65535 nibbles: the decoder returns the key
   * bytes viewed past the padding nibbles, and the value.
   */
  lemma LeafRoundTrip(cfg: Config, p: Partial, value: seq<byte>)
    requires WellFormed(cfg.radix, p) && NibbleCount(cfg.radix, p) <= NIBBLE_SIZE_BOUND
    requires |value| < U32_LIMIT
    ensures var count := NibbleCount(cfg.radix, p);
      Parse(cfg, LeafNode(cfg, p, value))
        == Ok(Leaf(NibbleView(KeyBytes(cfg.radix, p), NumberPadding(cfg.radix, count)), value))
  {
    var r := cfg.radix;
    var count := NibbleCount(r, p);
    var rest := KeyBytes(r, p) + EncodeSlice(value);
    var enc := LeafNode(cfg, p, value);
    PartialEncodeHeader(r, p, HN.LeafKind, EncodeSlice(value));
    assert HN.Decode(enc) == Some((HN.Leaf(count), rest));
    assert Parse(cfg, enc) == ParseLeaf(r, count, rest);
    KeyBytesPaddingClear(r, p, EncodeSlice(value));
    KeyedRoundTrip(r, count, KeyBytes(r, p), value);
  }

  /** The unused leading nibbles of the first key byte are zero, as the decoder demands. */
  predicate PaddingClear(r: Radix, count: nat, partial: seq<byte>)
  {
    count % NibblePerByte(r) > 0 && |partial| > 0 ==>
      MaskedLeft(r, NibblePerByte(r) - count % NibblePerByte(r), partial[0]) == 0
  }

  /**
   * Round trip of a branch of the radix's width whose key of at most 65535
   * nibbles has clear padding: the decoder returns the key, the value and the
   * offset table of the children over the children's bytes.
   */
  lemma NibbledBranchRoundTrip(cfg: Config, partial: seq<byte>, count: nat,
                               children: seq<Option<Child>>, value: Option<seq<byte>>)
    requires count <= NIBBLE_SIZE_BOUND && |partial| == NibbleBytes(cfg.radix, count)
    requires PaddingClear(cfg.radix, count, partial)
    requires |children| == NibbleLength(cfg.radix) && EncodableValue(value)
    ensures Parse(cfg, NibbledBranchLayout(cfg, partial, count, children, value))
      == Ok(NibbledBranch(NibbleView(partial, NumberPadding(cfg.radix, count)),
                          ChildIndex([0] + OffsetsFrom(children, cfg.contentHeaderSize, 0), ChildrenBytes(children)),
                          value))
  {
    var body := BitmapBytes(cfg.radix, Presence(children)) + ValueBytes(value) + ChildrenBytes(children);
    PaddingClearPasses(cfg.radix, count, partial, body);
    KeyThenBody(cfg.radix, count, partial, body);
    BranchBodyRoundTrip(cfg, children, value);
    ParseAfterBranchHeader(cfg, partial, count, children, value);
  }

  /** The key is read whole, leaving the branch body. */
  lemma KeyThenBody(r: Radix, count: nat, partial: seq<byte>, body: seq<byte>)
    requires |partial| == NibbleBytes(r, count)
    ensures ReadNibbles(r, count, partial + body) == Some((NibbleView(partial, NumberPadding(r, count)), body))
  {
    TakePrefix(partial, body);
  }

  lemma ParseAfterBranchHeader(cfg: Config, partial: seq<byte>, count: nat,
                               children: seq<Option<Child>>, value: Option<seq<byte>>)
    requires count <= NIBBLE_SIZE_BOUND && EncodableValue(value)
    ensures var body := BitmapBytes(cfg.radix, Presence(children)) + ValueBytes(value) + ChildrenBytes(children);
      Parse(cfg, NibbledBranchLayout(cfg, partial, count, children, value))
        == ParseNibbledBranch(cfg, value.Some?, count, partial + body)
  {
    var body := BitmapBytes(cfg.radix, Presence(children)) + ValueBytes(value) + ChildrenBytes(children);
    var kind := BranchKind(value.Some?);
    var enc := NibbledBranchLayout(cfg, partial, count, children, value);
    PartialFromIteratorEncodeHeader(partial, count, kind, body);
    assert HN.KindHeader(kind, Min(NIBBLE_SIZE_BOUND, count)) == HN.Branch(value.Some?, count);
    assert enc == PartialFromIteratorEncode(partial, count, kind) + body;
    assert HN.Decode(enc) == Some((HN.Branch(value.Some?, count), partial + body));
    ParseBranchHeader(cfg, enc, value.Some?, count, partial + body);
  }

  lemma ParseBranchHeader(cfg: Config, data: seq<byte>, hasValue: bool, count: nat, rest: seq<byte>)
    requires HN.Decode(data) == Some((HN.Branch(hasValue, count), rest))
    ensures Parse(cfg, data) == ParseNibbledBranch(cfg, hasValue, count, rest)
  {
  }

  lemma PaddingClearPasses(r: Radix, count: nat, partial: seq<byte>, rest: seq<byte>)
    requires |partial| == NibbleBytes(r, count) && PaddingClear(r, count, partial)
    ensures PaddingCheck(r, count, partial + rest) == None
  {
    if count % NibblePerByte(r) > 0 {
      assert |partial| > 0;
      assert (partial + rest)[0] == partial[0];
    }
  }

  /**
   * The padding check decides: a key of `count` nibbles whose first byte has a
   * set padding bit is `BadFormat`, and a header with an unaligned count and
   * nothing after it makes the decoder panic.
   */
  lemma PaddingOutcome(cfg: Config, data: seq<byte>)
    requires HN.Decode(data).Some? && !HN.Decode(data).value.0.Null?
    ensures var (h, input) := HN.Decode(data).value;
      var npb := NibblePerByte(cfg.radix);
      && (Parse(cfg, data) == Err(Panic) <==> h.count % npb > 0 && input == [])
      && (h.count % npb > 0 && input != [] && MaskedLeft(cfg.radix, npb - h.count % npb, input[0]) != 0
          ==> Parse(cfg, data) == Err(BadFormat))
  {
    var (h, input) := HN.Decode(data).value;
    if PaddingCheck(cfg.radix, h.count, input).None? {
      match h {
        case Leaf(n) =>
          assert Parse(cfg, data) == ParseLeaf(cfg.radix, n, input);
        case Branch(v, n) =>
          assert Parse(cfg, data) == ParseNibbledBranch(cfg, v, n, input);
      }
    }
  }

  /**
   * A leaf of at most 65535 nibbles cut short anywhere is rejected with
   * `BadFormat`, except one cut: right after the header of a key whose length
   * is not a whole number of bytes, the padding check's `input[0]` panics.
   */
  lemma TruncatedLeafRejected(cfg: Config, p: Partial, value: seq<byte>, k: nat)
    requires WellFormed(cfg.radix, p) && NibbleCount(cfg.radix, p) <= NIBBLE_SIZE_BOUND
    requires |value| < U32_LIMIT && k < |LeafNode(cfg, p, value)|
    ensures var count := NibbleCount(cfg.radix, p);
      Parse(cfg, LeafNode(cfg, p, value)[..k])
        == if k == |HN.Encode(HN.Leaf(count))| && count % NibblePerByte(cfg.radix) > 0
           then Err(Panic) else Err(BadFormat)
  {
    var r := cfg.radix;
    var count := NibbleCount(r, p);
    var h := HN.Leaf(count);
    var hb := HN.Encode(h);
    var key := KeyBytes(r, p);
    var tail := key + EncodeSlice(value);
    var enc := LeafNode(cfg, p, value);
    assert HN.KindHeader(HN.LeafKind, Min(NIBBLE_SIZE_BOUND, count)) == h;
    Assoc(hb, key, EncodeSlice(value));
    assert enc == hb + tail;
    if k < |hb| {
      HN.TruncatedHeader(h, tail, k);
    } else {
      var j := k - |hb|;
      assert enc[..k] == hb + tail[..j];
      HN.RoundTrip(h, tail[..j]);
      ParseLeafHeader(cfg, enc[..k], count, tail[..j]);
      CountModulus(r, p);
      KeyedTruncated(r, count, key, value, j);
      if j > 0 {
        KeyBytesPaddingClear(r, p, EncodeSlice(value));
        PaddingOfFirstByte(r, count, tail[..j], tail);
      }
    }
  }

  /**
   * A branch of at most 65535 nibbles cut short anywhere before its children,
   * in its header, key, bitmap or value, is rejected with `BadFormat`, except
   * the cut right after the header of an unaligned key, where `input[0]` panics.
   */
  lemma TruncatedBranchRejected(cfg: Config, partial: seq<byte>, count: nat,
                                children: seq<Option<Child>>, value: Option<seq<byte>>, k: nat)
    requires count <= NIBBLE_SIZE_BOUND && |partial| == NibbleBytes(cfg.radix, count)
    requires PaddingClear(cfg.radix, count, partial)
    requires |children| == NibbleLength(cfg.radix) && EncodableValue(value)
    requires k < |NibbledBranchLayout(cfg, partial, count, children, value)| - |ChildrenBytes(children)|
    ensures Parse(cfg, NibbledBranchLayout(cfg, partial, count, children, value)[..k])
      == if k == |HN.Encode(HN.Branch(value.Some?, count))| && count % NibblePerByte(cfg.radix) > 0
         then Err(Panic) else Err(BadFormat)
  {
    var h := HN.Branch(value.Some?, count);
    var hb := HN.Encode(h);
    var body := BitmapBytes(cfg.radix, Presence(children)) + ValueBytes(value) + ChildrenBytes(children);
    var tail := partial + body;
    var cut := NibbledBranchLayout(cfg, partial, count, children, value)[..k];
    BranchHeaderThenTail(cfg, partial, count, children, value);
    assert cut == (hb + tail)[..k];
    if k < |hb| {
      HN.TruncatedHeader(h, tail, k);
    } else {
      var j := k - |hb|;
      KeyAndBodyTruncated(cfg, partial, count, children, value, j);
      ParseAfterCut(cfg, value.Some?, count, tail, j, cut, CutOutcome(cfg.radix, count, j));
    }
  }

  /** Past a whole branch header, the node decodes as what follows the header does. */
  lemma ParseAfterCut(cfg: Config, hasValue: bool, count: nat, tail: seq<byte>, j: nat,
                      cut: seq<byte>, expected: Result)
    requires count <= NIBBLE_SIZE_BOUND && j <= |tail|
    requires cut == (HN.Encode(HN.Branch(hasValue, count)) + tail)[..|HN.Encode(HN.Branch(hasValue, count))| + j]
    requires ParseNibbledBranch(cfg, hasValue, count, tail[..j]) == expected
    ensures Parse(cfg, cut) == expected
  {
    var h := HN.Branch(hasValue, count);
    HN.CutKeepsHeader(h, tail, j);
    ParseBranchHeader(cfg, cut, hasValue, count, tail[..j]);
  }

  /** A branch is its header's encoding followed by the key and the body. */
  lemma BranchHeaderThenTail(cfg: Config, partial: seq<byte>, count: nat,
                             children: seq<Option<Child>>, value: Option<seq<byte>>)
    requires count <= NIBBLE_SIZE_BOUND && EncodableValue(value)
    ensures NibbledBranchLayout(cfg, partial, count, children, value)
      == HN.Encode(HN.Branch(value.Some?, count))
         + (partial + (BitmapBytes(cfg.radix, Presence(children)) + ValueBytes(value) + ChildrenBytes(children)))
  {
    var body := BitmapBytes(cfg.radix, Presence(children)) + ValueBytes(value) + ChildrenBytes(children);
    var hb := HN.Encode(HN.Branch(value.Some?, count));
    assert HN.KindHeader(BranchKind(value.Some?), Min(NIBBLE_SIZE_BOUND, count)) == HN.Branch(value.Some?, count);
    Assoc(hb, partial, body);
  }

  /**
   * What a node cut `j` bytes past its header decodes to, when the cut falls
   * before its children: the padding check's `input[0]` panics on an
   * unaligned key with nothing after the header, and otherwise `BadFormat`.
   */
  function CutOutcome(r: Radix, count: nat, j: nat): Result
  {
    if j == 0 && count % NibblePerByte(r) > 0 then Err(Panic) else Err(BadFormat)
  }

  /** After the branch header: key, bitmap and value cut short. */
  lemma KeyAndBodyTruncated(cfg: Config, partial: seq<byte>, count: nat,
                            children: seq<Option<Child>>, value: Option<seq<byte>>, j: nat)
    requires |partial| == NibbleBytes(cfg.radix, count) && PaddingClear(cfg.radix, count, partial)
    requires |children| == NibbleLength(cfg.radix) && EncodableValue(value)
    requires j < |partial| + |BitmapBytes(cfg.radix, Presence(children))| + |ValueBytes(value)|
    ensures var tail := partial + (BitmapBytes(cfg.radix, Presence(children)) + ValueBytes(value) + ChildrenBytes(children));
      ParseNibbledBranch(cfg, value.Some?, count, tail[..j])
        == CutOutcome(cfg.radix, count, j)
  {
    var r := cfg.radix;
    var body := BitmapBytes(r, Presence(children)) + ValueBytes(value) + ChildrenBytes(children);
    var tail := partial + body;
    if j > 0 {
      PaddingClearPasses(r, count, partial, body);
      PaddingOfFirstByte(r, count, tail[..j], tail);
    }
    if j >= |partial| {
      var m := j - |partial|;
      assert tail[..j] == partial + body[..m];
      KeyThenBody(r, count, partial, body[..m]);
      BranchBodyTruncated(cfg, children, value, m);
    }
  }

  /** The padding check looks at the first byte only. */
  lemma PaddingOfFirstByte(r: Radix, count: nat, a: seq<byte>, b: seq<byte>)
    requires |a| > 0 && |b| > 0 && a[0] == b[0]
    ensures PaddingCheck(r, count, a) == PaddingCheck(r, count, b)
  {
  }

  /**
   * The empty node decodes as `Empty`, and so does every input starting with
   * the byte 0; `is_empty_node` accepts only the one-byte input.
   */
  lemma EmptyNodeDecoding(cfg: Config, data: seq<byte>)
    ensures Parse(cfg, data) == Ok(Empty) <==> |data| > 0 && data[0] == HN.EMPTY_TRIE_NO_EXT
    ensures IsEmptyNode(data) <==> Parse(cfg, data) == Ok(Empty) && |data| == 1
  {
    if HN.Decode(data).Some? {
      HN.DecodedKind(data);
    }
  }

  /**
   * The repository's oversized-leaf case: a leaf of 32769 zero key bytes
   * (65538 nibbles) and value `[1]` still decodes as a leaf, but the header
   * announces only 65535 nibbles, so the decoder keeps 32768 key bytes and
   * reads the surplus zero byte as the value's length: the value comes back empty.
   */
  lemma OversizedLeafDecodes(cfg: Config)
    requires cfg.radix == Radix16
    ensures var p := Partial(0, 0, Repeat(0, 32769));
      Parse(cfg, LeafNode(cfg, p, [1])) == Ok(Leaf(NibbleView(Repeat(0, 32768), 1), []))
  {
    var p := Partial(0, 0, Repeat(0, 32769));
    var enc := LeafNode(cfg, p, [1]);
    var input := Repeat(0, 32769) + [4, 1];
    assert HN.Decode(enc) == Some((HN.Leaf(65535), input)) by {
      assert NibbleCount(Radix16, p) == 65538;
      assert KeyBytes(Radix16, p) == Repeat(0, 32769);
      assert EncodeSlice([1]) == [4, 1];
      PartialEncodeHeader(Radix16, p, HN.LeafKind, EncodeSlice([1]));
    }
    ParseLeafHeader(cfg, enc, 65535, input);
    OversizedLeafBody();
  }

  lemma ParseLeafHeader(cfg: Config, data: seq<byte>, count: nat, rest: seq<byte>)
    requires HN.Decode(data) == Some((HN.Leaf(count), rest))
    ensures Parse(cfg, data) == ParseLeaf(cfg.radix, count, rest)
  {
  }

  /** After the saturated header: one key byte too many, read as the value's length. */
  lemma OversizedLeafBody()
    ensures ParseLeaf(Radix16, 65535, Repeat(0, 32769) + [4, 1])
      == Ok(Leaf(NibbleView(Repeat(0, 32768), 1), []))
  {
    var input := Repeat(0, 32769) + [4, 1];
    OversizedPadding(input);
    OversizedKey(input);
    OversizedValue();
  }

  lemma OversizedPadding(input: seq<byte>)
    requires input == Repeat(0, 32769) + [4, 1]
    ensures PaddingCheck(Radix16, 65535, input) == None
  {
    Pow2Values();
    assert input[0] == 0;
    assert MaskedLeft(Radix16, 1, 0) == 0;
  }

  lemma OversizedKey(input: seq<byte>)
    requires input == Repeat(0, 32769) + [4, 1]
    ensures ReadNibbles(Radix16, 65535, input) == Some((NibbleView(Repeat(0, 32768), 1), [0, 4, 1]))
  {
    assert NibbleBytes(Radix16, 65535) == 32768;
    assert NumberPadding(Radix16, 65535) == 1;
    assert input[..32768] == Repeat(0, 32768);
    assert input[32768..] == [0, 4, 1];
  }

  lemma OversizedValue()
    ensures ReadSlice([0, 4, 1]) == Some(([], [4, 1]))
  {
    assert CompactDecode([0, 4, 1]) == Some((0, [4, 1]));
    assert Take([4, 1], 0) == (Some([]), [4, 1]);
  }
}

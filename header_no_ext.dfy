/**
 * The node header of the no-extension layout (`NodeHeaderNoExt`): the two top
 * bits of the first byte give the kind (01 leaf, 10 branch without value, 11
 * branch with value), the rest is the size varint; the byte 0 is the empty node.
 */
module HeaderNoExt {
  import opened Common
  import opened SizeCodec

  const EMPTY_TRIE_NO_EXT: byte := 0
  const LEAF_PREFIX_MASK: byte := 0x40
  const BRANCH_WITHOUT_MASK: byte := 0x80
  const BRANCH_WITH_MASK: byte := 0xc0

  datatype NodeHeaderNoExt = Null | Branch(hasValue: bool, count: nat) | Leaf(count: nat)

  /** `NodeKindNoExt`: the kinds that carry a partial key. */
  datatype NodeKind = LeafKind | BranchNoValue | BranchWithValue

  /** The header of a node of `kind` holding `count` nibbles. */
  function KindHeader(kind: NodeKind, count: nat): NodeHeaderNoExt
  {
    match kind
    case LeafKind => Leaf(count)
    case BranchNoValue => Branch(false, count)
    case BranchWithValue => Branch(true, count)
  }

  /** The tag mask of each kind. */
  function KindMask(kind: NodeKind): (m: byte)
    ensures IsPrefix(m)
  {
    match kind
    case LeafKind => LEAF_PREFIX_MASK
    case BranchNoValue => BRANCH_WITHOUT_MASK
    case BranchWithValue => BRANCH_WITH_MASK
  }

  /** `NodeHeaderNoExt::encode_to`. */
  function Encode(h: NodeHeaderNoExt): (r: seq<byte>)
    ensures |r| >= 1
    ensures r[0] == EMPTY_TRIE_NO_EXT <==> h.Null?
  {
    match h
    case Null => [EMPTY_TRIE_NO_EXT]
    case Branch(true, n) => SizeEncodingFirstByte(n, BRANCH_WITH_MASK); SizeEncoding(n, BRANCH_WITH_MASK)
    case Branch(false, n) => SizeEncodingFirstByte(n, BRANCH_WITHOUT_MASK); SizeEncoding(n, BRANCH_WITHOUT_MASK)
    case Leaf(n) => SizeEncodingFirstByte(n, LEAF_PREFIX_MASK); SizeEncoding(n, LEAF_PREFIX_MASK)
  }

  /**
   * `NodeHeaderNoExt::decode`: the header and the rest of the input. The byte
   * 0 is the empty node; any other byte whose top bits are 00 is rejected.
   */
  function Decode(input: seq<byte>): (r: Option<(NodeHeaderNoExt, seq<byte>)>)
    ensures r.Some? ==> |r.value.1| < |input|
    ensures r.Some? && !r.value.0.Null? ==> r.value.0.count <= DECODE_SIZE_MAX
  {
    if |input| == 0 then None
    else
      DecodedSizeBound(input[0], input[1..]);
      var i := input[0];
      if i == EMPTY_TRIE_NO_EXT then Some((Null, input[1..]))
      else
        var tag := i / 64;
        if tag == 0 then None
        else
          match DecodedSize(i, input[1..])
          case None => None
          case Some((n, rest)) =>
            if tag == 1 then Some((Leaf(n), rest))
            else if tag == 2 then Some((Branch(false, n), rest))
            else Some((Branch(true, n), rest))
  }

  /** The header with its count saturated as the encoder does. */
  function Saturated(h: NodeHeaderNoExt): NodeHeaderNoExt
  {
    match h
    case Null => Null
    case Branch(v, n) => Branch(v, Min(n, NIBBLE_SIZE_BOUND))
    case Leaf(n) => Leaf(Min(n, NIBBLE_SIZE_BOUND))
  }

  /**
   * Round trip: decoding an encoded header gives it back with its count
   * saturated at 65535 (exactly, for counts up to 65535), and stops at its end.
   */
  lemma RoundTrip(h: NodeHeaderNoExt, rest: seq<byte>)
    ensures Decode(Encode(h) + rest) == Some((Saturated(h), rest))
    ensures h.Leaf? && h.count <= NIBBLE_SIZE_BOUND ==> Decode(Encode(h) + rest) == Some((h, rest))
    ensures h.Branch? && h.count <= NIBBLE_SIZE_BOUND ==> Decode(Encode(h) + rest) == Some((h, rest))
  {
    match h
    case Null => assert (Encode(h) + rest)[1..] == rest;
    case Leaf(n) => TaggedRoundTrip(n, LEAF_PREFIX_MASK, rest);
    case Branch(true, n) => TaggedRoundTrip(n, BRANCH_WITH_MASK, rest);
    case Branch(false, n) => TaggedRoundTrip(n, BRANCH_WITHOUT_MASK, rest);
  }

  /** A tagged encoding starts with a nonzero byte carrying the tag, then the size reads back saturated. */
  lemma TaggedRoundTrip(n: nat, mask: byte, rest: seq<byte>)
    requires mask == LEAF_PREFIX_MASK || mask == BRANCH_WITHOUT_MASK || mask == BRANCH_WITH_MASK
    ensures var input := SizeEncoding(n, mask) + rest;
      && input[0] != 0 && input[0] / 64 == mask / 64
      && DecodedSize(input[0], input[1..]) == Some((Min(n, NIBBLE_SIZE_BOUND), rest))
  {
    var e := SizeEncoding(n, mask);
    SizeEncodingFirstByte(n, mask);
    SizeRoundTrip(n, mask, rest);
    assert (e + rest)[0] == e[0];
    assert (e + rest)[1..] == e[1..] + rest;
  }

  /** A key-carrying header cut short, before its last byte, does not decode. */
  lemma TruncatedHeader(h: NodeHeaderNoExt, rest: seq<byte>, k: nat)
    requires !h.Null? && k < |Encode(h)|
    ensures Decode((Encode(h) + rest)[..k]) == None
  {
    if k > 0 {
      var mask := match h
        case Leaf(_) => LEAF_PREFIX_MASK
        case Branch(true, _) => BRANCH_WITH_MASK
        case Branch(false, _) => BRANCH_WITHOUT_MASK;
      var e := SizeEncoding(h.count, mask);
      assert Encode(h) == e;
      var input := (e + rest)[..k];
      assert input == e[..k];
      SizeEncodingFirstByte(h.count, mask);
      SizeTruncatedFails(h.count, mask, k - 1);
      assert input[0] == e[0] && input[1..] == e[1..1 + (k - 1)];
    }
  }

  /** A key-carrying header of at most 65535 nibbles decodes from any cut past its end. */
  lemma CutKeepsHeader(h: NodeHeaderNoExt, tail: seq<byte>, j: nat)
    requires !h.Null? && h.count <= NIBBLE_SIZE_BOUND && j <= |tail|
    ensures Decode((Encode(h) + tail)[..|Encode(h)| + j]) == Some((h, tail[..j]))
  {
    assert (Encode(h) + tail)[..|Encode(h)| + j] == Encode(h) + tail[..j];
    RoundTrip(h, tail[..j]);
  }

  /** The empty node's byte, and only it among the bytes with top bits 00, decodes. */
  lemma LowTagRejected(input: seq<byte>)
    requires |input| > 0 && input[0] < 64
    ensures input[0] == 0 ==> Decode(input) == Some((Null, input[1..]))
    ensures input[0] != 0 ==> Decode(input) == None
  {
  }

  /** The top two bits select the kind of a decoded header. */
  lemma DecodedKind(input: seq<byte>)
    requires Decode(input).Some?
    ensures var h := Decode(input).value.0;
      && (h.Null? <==> input[0] == 0)
      && (h.Leaf? <==> input[0] / 64 == 1)
      && (h.Branch? && !h.hasValue <==> input[0] / 64 == 2)
      && (h.Branch? && h.hasValue <==> input[0] / 64 == 3)
  {
  }
}

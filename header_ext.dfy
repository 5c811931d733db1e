/**
 * The one-byte node header of the extension layout (`NodeHeader`): the byte
 * range is split into empty (0), leaf (1..127), extension (128..253) and the
 * two branch tags 254 and 255.
 */
module HeaderExt {
  import opened Common

  const EMPTY_TRIE: byte := 0
  const LEAF_NODE_OFFSET: byte := 1
  const EXTENSION_NODE_OFFSET: byte := 128
  const BRANCH_NODE_NO_VALUE: byte := 254
  const BRANCH_NODE_WITH_VALUE: byte := 255
  /** Leaf nibble counts are below this bound (`EXTENSION_NODE_OFFSET - LEAF_NODE_OFFSET`). */
  const LEAF_NODE_OVER: nat := 127
  /** Extension nibble counts are below this bound (`BRANCH_NODE_NO_VALUE - EXTENSION_NODE_OFFSET`). */
  const EXTENSION_NODE_OVER: nat := 126
  const LEAF_NODE_LAST: byte := 127
  const EXTENSION_NODE_LAST: byte := 253

  datatype NodeHeader = Null | Branch(hasValue: bool) | Extension(count: nat) | Leaf(count: nat)

  /**
   * The counts `encode_to` can write without overflowing `u8`: the count is
   * cast to `u8` and added to the offset.
   */
  predicate Encodable(h: NodeHeader)
  {
    match h
    case Leaf(n) => LEAF_NODE_OFFSET + n % 256 < 256
    case Extension(n) => EXTENSION_NODE_OFFSET + n % 256 < 256
    case _ => true
  }

  /** The counts each tag range holds: leaf up to 126, extension up to 125. */
  predicate InRange(h: NodeHeader)
  {
    match h
    case Leaf(n) => n < LEAF_NODE_OVER
    case Extension(n) => n < EXTENSION_NODE_OVER
    case _ => true
  }

  /** `NodeHeader::encode_to`. */
  function Encode(h: NodeHeader): (b: byte)
    requires Encodable(h)
    ensures InRange(h) ==> Decode([b]) == Some((h, []))
  {
    var b := match h
      case Null => EMPTY_TRIE
      case Branch(true) => BRANCH_NODE_WITH_VALUE
      case Branch(false) => BRANCH_NODE_NO_VALUE
      case Leaf(n) => LEAF_NODE_OFFSET + n % 256
      case Extension(n) => EXTENSION_NODE_OFFSET + n % 256;
    assert [b][1..] == [];
    b
  }

  /** `NodeHeader::decode`: the header and the rest of the input; None only on an empty input. */
  function Decode(input: seq<byte>): (r: Option<(NodeHeader, seq<byte>)>)
    ensures r.Some? ==> |input| > 0 && InRange(r.value.0) && r.value.1 == input[1..]
  {
    if |input| == 0 then None
    else
      var i := input[0];
      var h :=
        if i == EMPTY_TRIE then Null
        else if i == BRANCH_NODE_NO_VALUE then Branch(false)
        else if i == BRANCH_NODE_WITH_VALUE then Branch(true)
        else if LEAF_NODE_OFFSET <= i <= LEAF_NODE_LAST then Leaf(i - LEAF_NODE_OFFSET)
        else Extension(i - EXTENSION_NODE_OFFSET);
      Some((h, input[1..]))
  }

  /**
   * Every byte decodes, to a header in its range, and encoding that header
   * gives the byte back.
   */
  lemma DecodeEncode(b: byte, rest: seq<byte>)
    ensures Decode([b] + rest).Some?
    ensures var (h, r) := Decode([b] + rest).value;
      InRange(h) && Encodable(h) && Encode(h) == b && r == rest
  {
    assert ([b] + rest)[1..] == rest;
  }

  /** Every header in its range survives encode then decode: the two maps are inverse bijections. */
  lemma EncodeDecode(h: NodeHeader, rest: seq<byte>)
    requires InRange(h)
    ensures Encodable(h) && Decode([Encode(h)] + rest) == Some((h, rest))
  {
    assert ([Encode(h)] + rest)[1..] == rest;
  }

  /** The tag values, range by range, as `encode_to` writes them. */
  lemma TagRanges(n: nat)
    ensures n <= 126 ==> Encode(Leaf(n)) == 1 + n
    ensures n <= 125 ==> Encode(Extension(n)) == 128 + n
    ensures Encode(Null) == 0
    ensures Encode(Branch(false)) == 254 && Encode(Branch(true)) == 255
  {
  }

  /** Decoding fails only on an empty input. */
  lemma DecodeFailsOnlyWhenEmpty(input: seq<byte>)
    ensures Decode(input).None? <==> input == []
  {
  }

  /**
   * Outside its range a leaf count still encodes, into the extension range:
   * `Leaf(127)` comes back as `Extension(0)`. `partial_to_key` asserts the
   * range before it writes a header.
   */
  lemma LeafOutOfRangeAliases()
    ensures Encodable(Leaf(127)) && Decode([Encode(Leaf(127))]) == Some((Extension(0), []))
  {
    assert Encode(Leaf(127)) == 128;
    assert [128 as byte][1..] == [];
  }
}

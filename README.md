# Reference trie node codec, in Dafny

This project models the node wire format of the `reference-trie` test-support
crate (`test-support/reference-trie/src/lib.rs`). The crate holds two node
codecs and the two matching trie streams:

- the **extension layout** (`ReferenceNodeCodec`, `ReferenceTrieStream`): a
  one-byte `NodeHeader` that partitions the byte range into empty, leaf,
  extension and the two branch tags;
- the **no-extension layout** (`ReferenceNodeCodecNoExt`,
  `ReferenceTrieStreamNoExt`): a `NodeHeaderNoExt` that keeps a 2-bit kind in
  the top of the first byte and a varint nibble count in the rest.

A leaf is its header, the key bytes and the length-prefixed value. An
extension is its header, the key bytes and the length-prefixed child. A branch
is its header (and key, in the no-extension layout), a child bitmap
(`BitMap16` or `BitMap4`), the optional length-prefixed value, then every
present child, length-prefixed, in slot order. The decoders read these parts
back and return the branch's children as a running offset table over the
bytes after the value.

Modules, one per file:

| file | module | what it holds |
|---|---|---|
| `common.dfy` | `Common` | bytes, `Option`, `take`, small sequence and arithmetic facts |
| `scale.dfy` | `Scale` | the SCALE `Compact<u32>` length prefix and slice `encode_to` |
| `radix.dfy` | `Radix` | `NibbleOps` for radix 16 and radix 4: nibbles per byte, padding, masks |
| `size_codec.dfy` | `SizeCodec` | `size_and_prefix_iterator`, `encode_size_and_prefix`, `decode_size` |
| `bitmap.dfy` | `Bitmap` | `BitMap16`, `BitMap4`, `branch_node_bit_mask` |
| `header_ext.dfy` | `HeaderExt` | `NodeHeader` encode and decode |
| `header_no_ext.dfy` | `HeaderNoExt` | `NodeHeaderNoExt` encode and decode |
| `partial.dfy` | `Partials` | `partial_*` key writers and `fuse_nibbles_node*` |
| `node.dfy` | `Node` | the decoded `Node`, child references, branch bodies both codecs share |
| `codec_ext.dfy` | `CodecExt` | `ReferenceNodeCodec` |
| `codec_no_ext.dfy` | `CodecNoExt` | `ReferenceNodeCodecNoExt` |
| `trie_stream.dfy` | `TrieStream` | `ReferenceTrieStream`, `ReferenceTrieStreamNoExt` |

How the source's forms are modelled:

- Code that loops or mutates is an imperative method, proved against a
  specification function:
  - the bitmap accumulators;
  - `size_and_prefix_iterator` and the `decode_size` loop;
  - the branch encoders, which reserve the bitmap bytes and splice them in afterwards;
  - the decoders' cursor and child-offset loop.
- The trie streams are classes with a `buffer` field that each method extends.
- Header matches, `fuse_nibbles_*` and the `partial_*` helpers are functions.
- Bytes are integers in `0..255`, and bit operations are written arithmetically:
  - a bit test is written by halving;
  - setting a clear bit is an addition;
  - `cursor <<= 1` on `u16`/`u8` is doubling modulo 2^16/2^8.
- The hasher is a function parameter of `append_substream`. `H::LENGTH` and
  `ChildSliceIndex::CONTENT_HEADER_SIZE` are fields of a `Config`, together
  with the radix.

Sizes are asymmetric between the two directions. The encoder saturates the
nibble count at 65535 (the `min` at lib.rs:440) and never writes more. The
`decode_size` loop (lib.rs:471-485) accepts continuation bytes while its
running total is at most 65535, so it decodes values up to 65597.
`SizeCodec.DecodedSizeBound` states this bound and shows that 65597 is reached.

## Model

| member | source | states |
|---|---|---|
| Common.Take | test-support/reference-trie/src/lib.rs:584-591 | `take` fails exactly when the input is shorter than `count` and then leaves the input as it was; otherwise it returns exactly `count` bytes and the rest is what follows them |
| Common.TakePrefix | test-support/reference-trie/src/lib.rs:584-591 | taking as many bytes as `a` holds from `a + b` returns `a` and leaves `b` |
| Scale.CompactRoundTrip | test-support/reference-trie/src/lib.rs:700-701 | the `Compact<u32>` decoder reads back any length below 2^32 from its encoding and leaves whatever follows untouched |
| Scale.SliceRoundTrip | test-support/reference-trie/src/lib.rs:757-761 | a slice's `encode_to` is its compact length then its bytes: decoding the length and taking that many bytes returns the slice and the rest |
| Scale.CompactTruncated | test-support/reference-trie/src/lib.rs:700-701 | a compact length cut short anywhere does not decode |
| Scale.ShortFormRejected | test-support/reference-trie/src/lib.rs:700-701 | a first byte announcing a 2-, 4- or 5-byte form with fewer bytes present does not decode |
| Radix.NibbleBytes | test-support/reference-trie/src/lib.rs:723-726 | `(count + NIBBLE_PER_BYTE - 1) / NIBBLE_PER_BYTE` is the least number of bytes holding `count` nibbles |
| Radix.NumberPadding | test-support/reference-trie/src/lib.rs:727-730 | `number_padding` is below `NIBBLE_PER_BYTE` and pads the count to a whole number of bytes |
| Radix.MaskedPaddingClear | test-support/reference-trie/src/lib.rs:836-842 | a first key byte written with `masked_right(k, b)` has its unused leading nibbles zero under `masked_left`, as the decoder's padding check requires |
| Radix.MaskedRightKeepsSmall | test-support/reference-trie/src/lib.rs:597-600 | `masked_right(k, b)` leaves a byte that already fits in `k` nibbles unchanged |
| SizeCodec.EncodeSizeAndPrefix | test-support/reference-trie/src/lib.rs:439-469 | the bytes pushed are the size encoding: the prefix plus the count below 63, otherwise prefix plus 63, a run of 255 while more than 255 remains, and a final byte below 255 |
| SizeCodec.SizeEncodingFirstByte | test-support/reference-trie/src/lib.rs:439-446 | the first byte keeps the prefix's top two bits, and its low six bits are the count saturated at 65535 and capped at 63 |
| SizeCodec.DecodeSize | test-support/reference-trie/src/lib.rs:471-485 | the `decode_size` loop returns what the specification function returns, reading one byte per iteration |
| SizeCodec.SizeRoundTrip | test-support/reference-trie/src/lib.rs:439-485 | decoding an encoded size returns the size saturated at 65535 and leaves the following bytes |
| SizeCodec.SizeEncodingLimitValues | test-support/reference-trie/src/lib.rs:1323-1346 | the exact encodings of 0, 1, 62, 63, 64, 317, 318, 319, 572, 573 and 574 |
| SizeCodec.SizeTruncatedFails | test-support/reference-trie/src/lib.rs:477-478 | a long-form size cut before its terminal byte does not decode |
| SizeCodec.DecodedSizeBound | test-support/reference-trie/src/lib.rs:471-485 | a decoded size is at most 65597, and 65597 is decoded from 63, 256 bytes of 255 and 254 |
| SizeCodec.DecodedSizeRunTooLong | test-support/reference-trie/src/lib.rs:476-484 | after the sentinel 63, a run of 257 bytes of 255 makes the decoder give up |
| Bitmap.AccumulateBitmap | test-support/reference-trie/src/lib.rs:110-116 | the accumulator loop yields the bitmap whose bit i is the i-th flag among the first 16 (radix 16) or 8 (radix 4), and it fits the accumulator's width |
| Bitmap.BitsValueTestBit | test-support/reference-trie/src/lib.rs:106-108 | `value_at(i)` of the accumulated bitmap is the i-th flag, and false past the flags |
| Bitmap.Encode | test-support/reference-trie/src/lib.rs:110-119 | `BitMap*::encode` writes exactly the bitmap's bytes (low byte then high byte for radix 16) at the given offset and touches nothing else |
| Bitmap.BranchNodeBitMask | test-support/reference-trie/src/lib.rs:279-287 | the returned low and high bytes are the radix-16 bitmap bytes, and bit i of `lo + 256 * hi` is the i-th flag |
| Bitmap.BitmapRoundTrip | test-support/reference-trie/src/lib.rs:100-108 | decoding an encoded bitmap of the radix's width succeeds and `value_at(i)` returns each flag |
| Bitmap.DecodeBitmap | test-support/reference-trie/src/lib.rs:100-136 | a bitmap decodes only from at least `ENCODED_LEN` bytes, and the value decoded fits the radix width: below 2^16 for `BitMap16`, below 2^4 for `BitMap4` |
| Bitmap.Bitmap4DecodeRejects | test-support/reference-trie/src/lib.rs:130-136 | `BitMap4::decode` fails exactly on an empty input or a first byte with one of bits 4 to 7 set |
| Bitmap.Bitmap4ExtraFlagRejected | test-support/reference-trie/src/lib.rs:142-149 | a radix-4 bitmap encoded from a flag at slot 4 to 7 is rejected by `BitMap4::decode` |
| HeaderExt.DecodeEncode | test-support/reference-trie/src/lib.rs:521-533 | every first byte decodes, to a header in its tag range, and encoding that header gives the byte back |
| HeaderExt.Encode | test-support/reference-trie/src/lib.rs:423-435 | a header in its tag range is written as one byte, and decoding that byte gives the header back with nothing left over |
| HeaderExt.Decode | test-support/reference-trie/src/lib.rs:521-533 | a decoded header lies in its tag range and consumes exactly the first byte |
| HeaderExt.EncodeDecode | test-support/reference-trie/src/lib.rs:423-435 | every header in its range encodes and decodes back to itself, with the rest of the input untouched |
| HeaderExt.TagRanges | test-support/reference-trie/src/lib.rs:200-208 | Null is 0, `Leaf(n)` is `1 + n` for n up to 126, `Extension(n)` is `128 + n` for n up to 125, branches are 254 and 255 |
| HeaderExt.DecodeFailsOnlyWhenEmpty | test-support/reference-trie/src/lib.rs:521-533 | the header decoder fails exactly on the empty input |
| HeaderExt.LeafOutOfRangeAliases | test-support/reference-trie/src/lib.rs:429-430 | `Leaf(127)` encodes as 128, which decodes as `Extension(0)`: the range check in `partial_to_key` is what keeps leaves decodable |
| HeaderNoExt.RoundTrip | test-support/reference-trie/src/lib.rs:507-552 | decoding an encoded header returns it with its count saturated at 65535, so leaves and branches up to 65535 nibbles come back unchanged |
| HeaderNoExt.Encode | test-support/reference-trie/src/lib.rs:507-519 | at least one byte is written, and the first byte is 0 exactly for the Null header |
| HeaderNoExt.Decode | test-support/reference-trie/src/lib.rs:535-552 | a successful decode consumes at least one byte, and a decoded leaf or branch count is at most 65597 |
| HeaderNoExt.TruncatedHeader | test-support/reference-trie/src/lib.rs:535-552 | a leaf or branch header cut before its last byte does not decode |
| HeaderNoExt.TaggedRoundTrip | test-support/reference-trie/src/lib.rs:507-519 | for each of the three kind masks, the encoded first byte is nonzero, carries the mask's top bits, and the size decodes to the saturated count |
| HeaderNoExt.LowTagRejected | test-support/reference-trie/src/lib.rs:538-550 | byte 0 decodes as Null; any other byte whose top bits are `00` is rejected |
| HeaderNoExt.DecodedKind | test-support/reference-trie/src/lib.rs:535-552 | a decoded header is Null, Leaf, branch without value or branch with value exactly when the first byte is 0 or its top bits are 01, 10 or 11 |
| Partials.KeyBytes | test-support/reference-trie/src/lib.rs:597-603 | the key bytes written after a header number `ceil(count / NIBBLE_PER_BYTE)` |
| Partials.PartialToKey | test-support/reference-trie/src/lib.rs:593-604 | `partial_to_key` writes one header byte `offset + count`, then the masked leading byte if any, then the whole bytes |
| Partials.PartialFromIteratorToKey | test-support/reference-trie/src/lib.rs:606-617 | `partial_from_iterator_to_key` writes `offset + count` and then the given key bytes unchanged |
| Partials.PartialFromIteratorEncode | test-support/reference-trie/src/lib.rs:619-637 | the output decodes as the kind's header with the count saturated at 65535, and what remains is exactly the given key bytes |
| Partials.PartialFromIteratorEncodeHeader | test-support/reference-trie/src/lib.rs:619-639 | what `partial_from_iterator_encode` writes decodes as the kind's header with the count saturated at 65535, followed by every key byte |
| Partials.PartialEncode | test-support/reference-trie/src/lib.rs:641-661 | the output decodes as the kind's header with the count saturated at 65535, and what remains is exactly the key bytes of the partial |
| Partials.PartialEncodeHeader | test-support/reference-trie/src/lib.rs:641-661 | what `partial_encode` writes decodes as the kind's header with the count saturated at 65535, followed by all the key bytes, with none dropped |
| Partials.FuseNibblesNode | test-support/reference-trie/src/lib.rs:220-234 | the fused bytes decode as a leaf or extension header whose count is the number of nibbles, and are followed by the packed key |
| Partials.FuseNibblesNodeNoExt | test-support/reference-trie/src/lib.rs:243-257 | the output decodes as the kind's header with the nibble count saturated at 65535, and what remains is exactly the packed key |
| Partials.UnpackPack | test-support/reference-trie/src/lib.rs:231-233 | packing each nibble pair into one byte, high nibble first, and splitting them again gives the nibbles back |
| Partials.FusedKeyRoundTrip | test-support/reference-trie/src/lib.rs:231-233 | the packed key, split into nibbles past its padding, is the original nibble sequence |
| Partials.FusedKeyIsKeyBytes | test-support/reference-trie/src/lib.rs:231-233 | the packed key is the key the `partial_*` writers produce for the same nibbles |
| Partials.FuseMatchesPartialToKey | test-support/reference-trie/src/lib.rs:220-234 | `fuse_nibbles_node` writes the same bytes as `partial_to_key` for the same nibbles |
| Partials.FuseNoExtMatchesPartialEncode | test-support/reference-trie/src/lib.rs:243-257 | `fuse_nibbles_node_no_extension` writes the same bytes as `partial_encode` for the same nibbles |
| Node.PresenceFlags | test-support/reference-trie/src/lib.rs:794-804 | the children iterator yields true exactly for the present slots, in slot order |
| Node.AppendChildren | test-support/reference-trie/src/lib.rs:794-804 | each present child is appended length-prefixed, hash or inline alike, and the presence flags are returned |
| Node.AppendValueAndChildren | test-support/reference-trie/src/lib.rs:788-804 | the length-prefixed value, if any, then the children are appended after what was already written |
| Node.ReadSliceOfEncoding | test-support/reference-trie/src/lib.rs:688-691 | reading a length then taking that many bytes returns a length-prefixed value and leaves what follows |
| Node.ReadSliceTruncated | test-support/reference-trie/src/lib.rs:731-734 | a length-prefixed value cut short anywhere cannot be read |
| Node.ReadChildren | test-support/reference-trie/src/lib.rs:695-706 | the offset loop yields 0 and then the running offset after each slot, advancing by length plus `CONTENT_HEADER_SIZE` at each flagged slot; an unreadable length fails |
| Node.ScanChildrenOfEncoding | test-support/reference-trie/src/lib.rs:695-706 | scanning the encoder's children yields the encoder's offsets: each present child advances by its body length plus `CONTENT_HEADER_SIZE` |
| Node.TruncatedChildNotReported | test-support/reference-trie/src/lib.rs:703 | a flagged child whose body is missing is not an error: the table still advances by the length read |
| Node.DecodeKeyed | test-support/reference-trie/src/lib.rs:721-735 | the leaf and extension decoding on a cursor returns what the specification function returns |
| Node.KeyedRoundTrip | test-support/reference-trie/src/lib.rs:721-735 | key bytes followed by a length-prefixed payload decode to the key viewed past its padding and the payload |
| Node.KeyedTruncated | test-support/reference-trie/src/lib.rs:721-735 | key bytes and a length-prefixed payload cut short anywhere do not decode |
| Node.DecodeBranchBody | test-support/reference-trie/src/lib.rs:684-708 | the branch body decoding on a cursor returns what the specification function returns |
| Node.BranchBodyRoundTrip | test-support/reference-trie/src/lib.rs:684-708 | a bitmap, value and children as the encoders write them decode to the value and the encoder's offset table over the children's bytes |
| Node.BranchBodyTruncated | test-support/reference-trie/src/lib.rs:684-694 | a branch body cut inside its bitmap or its value does not decode |
| CodecExt.EmptyNode | test-support/reference-trie/src/lib.rs:753-755 | the empty node is one byte that decodes as the Null header |
| CodecExt.IsEmptyNode | test-support/reference-trie/src/lib.rs:749-751 | holds exactly for the one-byte input 0 |
| CodecExt.TryDecodeHash | test-support/reference-trie/src/lib.rs:739-747 | an input is a hash exactly when its length is the hasher's, and the hash is the input |
| CodecExt.LeafNode | test-support/reference-trie/src/lib.rs:757-761 | a leaf decodes as a `Leaf(count)` header followed by the key bytes and the length-prefixed value |
| CodecExt.ExtensionNode | test-support/reference-trie/src/lib.rs:763-780 | an extension decodes as an `Extension(count)` header followed by the key bytes and the length-prefixed child, hash or inline alike |
| CodecExt.BranchNodeBuffered | test-support/reference-trie/src/lib.rs:265-277 | the branch tag (255 with a value, 254 without) and the bitmap bytes are written at the front, and the rest of the buffer is untouched |
| CodecExt.BranchNodeHeader | test-support/reference-trie/src/lib.rs:259-263 | `branch_node` returns three bytes: the branch tag and the radix-16 bitmap |
| CodecExt.BranchNode | test-support/reference-trie/src/lib.rs:782-808 | after the splice, the output is the branch tag, the bitmap of present children, the length-prefixed value and the children |
| CodecExt.Decode | test-support/reference-trie/src/lib.rs:679-737 | the cursor-based decoder returns what the specification function returns |
| CodecExt.LeafRoundTrip | test-support/reference-trie/src/lib.rs:721-735 | a leaf decodes to its key bytes viewed past the padding nibbles and its value |
| CodecExt.ExtensionRoundTrip | test-support/reference-trie/src/lib.rs:710-720 | an extension decodes to its key viewed past the padding nibbles and the child reference's bytes |
| CodecExt.BranchRoundTrip | test-support/reference-trie/src/lib.rs:683-708 | a branch of the radix's width decodes to its value and the offset table of its children over the children's bytes |
| CodecExt.EmptyNodeDecoding | test-support/reference-trie/src/lib.rs:749-755 | an input decodes as Empty exactly when its first byte is 0; `is_empty_node` holds exactly for the one-byte such input |
| CodecExt.TruncatedLeafRejected | test-support/reference-trie/src/lib.rs:721-735 | a leaf cut short anywhere, in its header, key, value length or value, is `BadFormat` |
| CodecExt.TruncatedBranchRejected | test-support/reference-trie/src/lib.rs:683-694 | a branch cut anywhere before its children, in its header, bitmap, value length or value, is `BadFormat` |
| CodecNoExt.EmptyNode | test-support/reference-trie/src/lib.rs:904-906 | the empty node is one byte that decodes as the Null header |
| CodecNoExt.IsEmptyNode | test-support/reference-trie/src/lib.rs:900-902 | holds exactly for the one-byte input 0 |
| CodecNoExt.LeafNode | test-support/reference-trie/src/lib.rs:908-912 | the leaf starts with a Leaf header whose count is the nibble count saturated at 65535, followed by the key bytes and the length-prefixed value |
| CodecNoExt.BranchNodeNibbled | test-support/reference-trie/src/lib.rs:929-966 | after the splice, the output is the header and key, the bitmap of present children, the length-prefixed value and the children |
| CodecNoExt.Splice | test-support/reference-trie/src/lib.rs:965-966 | copying bytes over the reserved slot after the header yields header, those bytes, and everything written after the slot |
| CodecNoExt.CheckPadding | test-support/reference-trie/src/lib.rs:836-842 | the padding check returns what the specification function returns: nothing for a whole-byte count, otherwise the panic of `input[0]` on no input, or `BadFormat` for nonzero padding |
| CodecNoExt.DecodeLeaf | test-support/reference-trie/src/lib.rs:877-892 | the leaf decoding on a cursor returns what the specification function returns |
| CodecNoExt.DecodeNibbledBranch | test-support/reference-trie/src/lib.rs:835-875 | the branch decoding on a cursor returns what the specification function returns |
| CodecNoExt.Decode | test-support/reference-trie/src/lib.rs:831-894 | the cursor-based decoder returns what the specification function returns |
| CodecNoExt.KeyBytesPaddingClear | test-support/reference-trie/src/lib.rs:878-882 | the key bytes written by `partial_encode` always pass the padding check |
| CodecNoExt.LeafRoundTrip | test-support/reference-trie/src/lib.rs:908-912 | a leaf of at most 65535 nibbles decodes to its key bytes viewed past the padding nibbles and its value |
| CodecNoExt.NibbledBranchRoundTrip | test-support/reference-trie/src/lib.rs:835-875 | a branch with a key of at most 65535 nibbles and clear padding decodes to the key, the value and the children's offset table |
| CodecNoExt.PaddingOutcome | test-support/reference-trie/src/lib.rs:838-842 | with an unaligned count the decoder panics exactly when no byte follows the header, and a set padding bit is `BadFormat` |
| CodecNoExt.TruncatedLeafRejected | test-support/reference-trie/src/lib.rs:876-892 | a leaf of at most 65535 nibbles cut short anywhere is `BadFormat`, except a cut right after the header of an unaligned key, where the padding check's `input[0]` panics |
| CodecNoExt.KeyAndBodyTruncated | test-support/reference-trie/src/lib.rs:837-860 | after a whole branch header, a key, bitmap and value cut before the children is `BadFormat`, except an empty remainder with an unaligned key, which panics |
| CodecNoExt.TruncatedBranchRejected | test-support/reference-trie/src/lib.rs:836-860 | a branch cut anywhere before its children, in its header, key, bitmap, value length or value, is `BadFormat`, except a cut right after the header of an unaligned key, which panics |
| CodecNoExt.EmptyNodeDecoding | test-support/reference-trie/src/lib.rs:900-906 | an input decodes as Empty exactly when its first byte is 0; `is_empty_node` holds exactly for the one-byte such input |
| CodecNoExt.OversizedLeafDecodes | test-support/reference-trie/src/lib.rs:1309-1321 | the 65538-nibble leaf with value `[1]` still decodes as a leaf, with 32768 key bytes and an empty value |
| TrieStream.SubstreamChoice | test-support/reference-trie/src/lib.rs:331-337 | a child stream of at most 31 bytes is embedded as its data and a longer one as its hash, both length-prefixed |
| TrieStream.ChildOf | test-support/reference-trie/src/lib.rs:331-337 | the child reference a substream becomes is inline exactly when the stream is at most 31 bytes, and its payload is what `append_substream` writes: the data, or its hash |
| TrieStream.SubstreamsAreChildren | test-support/reference-trie/src/lib.rs:331-337 | appending each slot's substream writes the codec's children bytes for the child references they become, and the present slots are the occupied ones |
| TrieStream.ReferenceTrieStream.constructor | test-support/reference-trie/src/lib.rs:296-300 | a new stream has an empty buffer |
| TrieStream.ReferenceTrieStream.AppendEmptyData | test-support/reference-trie/src/lib.rs:302-304 | appends the byte 0 |
| TrieStream.ReferenceTrieStream.AppendLeaf | test-support/reference-trie/src/lib.rs:306-309 | appends the fused leaf header and key, then the length-prefixed value |
| TrieStream.ReferenceTrieStream.BeginBranch | test-support/reference-trie/src/lib.rs:311-325 | appends the branch tag and bitmap, the fused extension key if one is given, and the length-prefixed value if any |
| TrieStream.ReferenceTrieStream.AppendExtension | test-support/reference-trie/src/lib.rs:327-329 | appends the fused extension header and key |
| TrieStream.ReferenceTrieStream.AppendSubstream | test-support/reference-trie/src/lib.rs:331-337 | appends the child stream's data, or its hash above 31 bytes, length-prefixed |
| TrieStream.ReferenceTrieStreamNoExt.constructor | test-support/reference-trie/src/lib.rs:349-353 | a new stream has an empty buffer |
| TrieStream.ReferenceTrieStreamNoExt.AppendEmptyData | test-support/reference-trie/src/lib.rs:355-357 | appends the byte 0 |
| TrieStream.ReferenceTrieStreamNoExt.AppendLeaf | test-support/reference-trie/src/lib.rs:359-362 | appends the varint leaf header and key, then the length-prefixed value |
| TrieStream.ReferenceTrieStreamNoExt.BeginBranch | test-support/reference-trie/src/lib.rs:364-389 | with a key: appends the branch header and key, then the two bitmap bytes; without one, the extension layout's branch header and bitmap; then the length-prefixed value if any |
| TrieStream.ReferenceTrieStreamNoExt.AppendExtension | test-support/reference-trie/src/lib.rs:391-393 | leaves the buffer unchanged |
| TrieStream.ReferenceTrieStreamNoExt.AppendSubstream | test-support/reference-trie/src/lib.rs:395-401 | appends the child stream's data, or its hash above 31 bytes, length-prefixed |
| TrieStream.StreamLeafIsCodecLeaf | test-support/reference-trie/src/lib.rs:306-309 | the extension stream's leaf is byte for byte the codec's `leaf_node` for the same nibbles, and it decodes to them and the value |
| TrieStream.StreamBranchIsCodecBranch | test-support/reference-trie/src/lib.rs:311-337 | `begin_branch` without a key, then `append_substream` for every occupied slot, writes byte for byte the codec's `branch_node` for the child references the substreams become; with 16 slots this decodes to the value and the offset table over the substreams' bytes |
| TrieStream.StreamExtensionIsCodecExtension | test-support/reference-trie/src/lib.rs:327-337 | `append_extension` then `append_substream` writes byte for byte the codec's `extension_node` for the child reference the substream becomes, and it decodes to the key and that reference |
| TrieStream.StreamLeafNoExtIsCodecLeaf | test-support/reference-trie/src/lib.rs:359-362 | the no-extension stream's leaf is byte for byte the codec's `leaf_node` for the same nibbles, and it decodes to them and the value |
| TrieStream.StreamBranchNoExtIsCodecBranch | test-support/reference-trie/src/lib.rs:364-401 | `begin_branch` with a key, then `append_substream` for every occupied slot, writes byte for byte the codec's `branch_node_nibbled` for the child references the substreams become |

## Left out

- `ReferenceNodeCodec::branch_node_nibbled`, `ReferenceNodeCodecNoExt::extension_node` and `ReferenceNodeCodecNoExt::branch_node` only call `unreachable!()`, so they have no behaviour to model.
- `hashed_null_node` and `H::hash`: hashing is foreign code. The streams take the hash function as a parameter. The codecs take the hash output length as a `Config` field.
- The internals of parity_codec are not part of this model. `Compact<u32>`, slice `encode_to` and `u16::decode` are written out from the SCALE format: compact modes 0 to 3, little-endian. The compact decoder accepts non-canonical forms.
- Radix 16 and radix 4 are the only radices, because these are the crate's layouts. A codec whose bitmap type does not match its radix is not modelled.
- `NibbleOps` and `ChildSliceIndex` come from trie_db, which is not part of this model:
  - `masked_left`, `masked_right` and `number_padding` are given definitions on whole nibbles;
  - `CONTENT_HEADER_SIZE` is a `Config` field;
  - the fixed-size `ChildSliceIndex` array is a sequence of offsets.
- Machine integer widths are not modelled. All lengths are required to be below 2^32. The `as u8` header casts are kept only behind the source's own range asserts. `usize` overflow of the running offset is not modelled.
- `compare_*`, `calc_root*` and `reference_trie_root*` drive trie building, hash databases and Keccak, which are outside the node codec.
- The layout type declarations and aliases are compile-time configuration only. They become the `Config` value.
- `ReferenceError`'s `Display` and `StdError` impls have no behaviour to state.
- The padding check's `input[0]` panic on an empty remainder is modelled as a distinct `Panic` error rather than as a crash.
- The `TrieStream` methods take the key as nibbles and the children's presence as a sequence of flags. The iterators are consumed eagerly.
- Partials.KeyBytes: its contract states only the key's length. Its contents are stated through `Partials.PartialToKey`, `Partials.PartialEncodeHeader` and the round-trip lemmas.

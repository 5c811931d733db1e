/**
 * What both node codecs share: the codec configuration, the child references
 * an encoder is given, the node a decoder returns (trie_db's `Node`, with
 * slices of the input), the length-prefixed children of a branch on the way
 * out, and the running offset table over them on the way in.
 */
module Node {
  import opened Common
  import opened Radix
  import opened Scale
  import opened Bitmap

  /**
   * A codec instance: its radix (nibble size and bitmap), the hasher's output
   * length `H::LENGTH`, and `ChildSliceIndex::CONTENT_HEADER_SIZE`, the bytes
   * the offset table counts per child on top of the child's body.
   */
  datatype Config = Config(radix: Radix, hashLength: nat, contentHeaderSize: nat)

  /** `ChildReference`: a hash, or the first `len` bytes of an inline buffer. */
  datatype ChildRef = Hash(hash: seq<byte>) | Inline(data: seq<byte>, len: nat)

  /** The source slices `inline_data[..len]`, and lengths go through a `u32` prefix. */
  predicate ValidChild(c: ChildRef)
  {
    match c
    case Hash(h) => |h| < U32_LIMIT
    case Inline(d, n) => n <= |d| && n < U32_LIMIT
  }

  /** A child reference an encoder can write. */
  type Child = c: ChildRef | ValidChild(c) witness Hash([])

  /** The bytes written for a child: the hash, or the used part of the inline buffer. */
  function ChildPayload(c: Child): (p: seq<byte>)
    ensures |p| < U32_LIMIT
  {
    match c
    case Hash(h) => h
    case Inline(d, n) => d[..n]
  }

  /** NibbleSlice::new_offset(data, offset): key bytes and the leading nibbles to skip. */
  datatype NibbleView = NibbleView(data: seq<byte>, offset: nat)

  /**
   * The decoded children of a branch: `offsets[i]..offsets[i + 1]` delimits
   * child i in `tail`, the undivided input that follows the value.
   */
  datatype ChildIndex = ChildIndex(offsets: seq<nat>, tail: seq<byte>)

  datatype Node =
    | Empty
    | Leaf(key: NibbleView, leafValue: seq<byte>)
    | Extension(key: NibbleView, child: seq<byte>)
    | Branch(children: ChildIndex, value: Option<seq<byte>>)
    | NibbledBranch(key: NibbleView, children: ChildIndex, value: Option<seq<byte>>)

  /**
   * `ReferenceError::BadFormat`, or the out-of-bounds panic of the
   * no-extension padding check, kept apart because the source does not return it.
   */
  datatype DecodeError = BadFormat | Panic

  datatype Result = Ok(node: Node) | Err(error: DecodeError)

  // ---------------------------------------------------------------------
  // Encoding

  predicate EncodableValue(value: Option<seq<byte>>)
  {
    value.Some? ==> |value.value| < U32_LIMIT
  }

  /** The presence flags the children iterator yields to `BITMAP::encode`. */
  function Presence(children: seq<Option<Child>>): (flags: seq<bool>)
    ensures |flags| == |children|
  {
    if children == [] then [] else [children[0].Some?] + Presence(children[1..])
  }

  /** Slot `i` is flagged exactly when child `i` is present. */
  lemma {:induction false} PresenceFlags(children: seq<Option<Child>>)
    ensures forall i :: 0 <= i < |children| ==> Presence(children)[i] == children[i].Some?
  {
    if children != [] {
      PresenceFlags(children[1..]);
      assert forall i :: 1 <= i < |children| ==> Presence(children)[i] == Presence(children[1..])[i - 1];
    }
  }

  /** The value's length-prefixed bytes, or nothing. */
  function ValueBytes(value: Option<seq<byte>>): seq<byte>
    requires EncodableValue(value)
  {
    if value.Some? then EncodeSlice(value.value) else []
  }

  /** The bytes one slot contributes: a present child's length-prefixed payload, or nothing. */
  function SlotBytes(child: Option<Child>): seq<byte>
  {
    if child.Some? then EncodeSlice(ChildPayload(child.value)) else []
  }

  /** Every present child in slot order, each length-prefixed, hash or inline alike. */
  function ChildrenBytes(children: seq<Option<Child>>): seq<byte>
  {
    if children == [] then [] else SlotBytes(children[0]) + ChildrenBytes(children[1..])
  }

  /**
   * The children closure of `branch_node` / `branch_node_nibbled`: write each
   * present child after `output` and report its presence.
   */
  method AppendChildren(output: seq<byte>, children: seq<Option<Child>>)
    returns (out: seq<byte>, flags: seq<bool>)
    ensures out == output + ChildrenBytes(children)
    ensures flags == Presence(children)
  {
    out, flags := output, [];
    var i := 0;
    while i < |children|
      invariant i <= |children|
      invariant out + ChildrenBytes(children[i..]) == output + ChildrenBytes(children)
      invariant flags == Presence(children[..i])
    {
      AppendSlot(out, children, i);
      PresencePrefix(children, i);
      out := out + SlotBytes(children[i]);
      flags := flags + [children[i].Some?];
      i := i + 1;
    }
    assert children[..i] == children;
    assert children[i..] == [];
  }

  /**
   * What both branch encoders write after the reserved header and bitmap
   * bytes: the value, if any, then the children.
   */
  method AppendValueAndChildren(output: seq<byte>, value: Option<seq<byte>>, children: seq<Option<Child>>)
    returns (out: seq<byte>, flags: seq<bool>)
    requires EncodableValue(value)
    ensures out == output + (ValueBytes(value) + ChildrenBytes(children))
    ensures flags == Presence(children)
  {
    out := output;
    if value.Some? {
      out := out + EncodeSlice(value.value);
    } else {
      AppendNil(output);
    }
    out, flags := AppendChildren(out, children);
    Assoc(output, ValueBytes(value), ChildrenBytes(children));
  }

  /** Writing slot `i` after `out` leaves the slots after it to write. */
  lemma AppendSlot(out: seq<byte>, children: seq<Option<Child>>, i: nat)
    requires i < |children|
    ensures (out + SlotBytes(children[i])) + ChildrenBytes(children[i + 1..]) == out + ChildrenBytes(children[i..])
  {
    assert children[i..][1..] == children[i + 1..];
    Assoc(out, SlotBytes(children[i]), ChildrenBytes(children[i + 1..]));
  }

  lemma PresencePrefix(children: seq<Option<Child>>, i: nat)
    requires i < |children|
    ensures Presence(children[..i + 1]) == Presence(children[..i]) + [children[i].Some?]
  {
    assert children[..i + 1] == children[..i] + [children[i]];
    PresenceSnoc(children[..i], children[i]);
  }

  lemma {:induction false} PresenceSnoc(children: seq<Option<Child>>, c: Option<Child>)
    ensures Presence(children + [c]) == Presence(children) + [c.Some?]
  {
    PresenceFlags(children + [c]);
    PresenceFlags(children);
  }

  // ---------------------------------------------------------------------
  // Decoding

  /** A compact length, then that many bytes: (slice, rest), or None on a short input. */
  function ReadSlice(input: seq<byte>): Option<(seq<byte>, seq<byte>)>
  {
    match CompactDecode(input)
    case None => None
    case Some((count, after)) =>
      var (taken, rest) := Take(after, count);
      if taken.None? then None else Some((taken.value, rest))
  }

  lemma ReadSliceOfEncoding(data: seq<byte>, rest: seq<byte>)
    requires |data| < U32_LIMIT
    ensures ReadSlice(EncodeSlice(data) + rest) == Some((data, rest))
  {
    SliceRoundTrip(data, rest);
  }

  /** `value_at(i)` for each of the `n` slots of a decoded bitmap. */
  function BitmapFlags(bitmap: nat, n: nat): (flags: seq<bool>)
    ensures |flags| == n
    ensures forall i :: 0 <= i < n ==> flags[i] == TestBit(bitmap, i)
  {
    seq(n, (i: int) requires 0 <= i => TestBit(bitmap, i))
  }

  /**
   * The decoders' child loop as a function of the input: for each flagged slot
   * read a compact length and advance the offset by it plus
   * `contentHeaderSize`; the body is skipped when it is there and silently
   * not skipped when it is not. Yields the offsets after each slot, or None
   * when a length cannot be read.
   */
  function ScanChildren(flags: seq<bool>, input: seq<byte>, chs: nat, ix: nat): (r: Option<seq<nat>>)
    ensures r.Some? ==> |r.value| == |flags|
  {
    if flags == [] then Some([])
    else if !flags[0] then
      match ScanChildren(flags[1..], input, chs, ix)
      case None => None
      case Some(t) => Some([ix] + t)
    else
      match CompactDecode(input)
      case None => None
      case Some((count, after)) =>
        var next := Take(after, count).1;
        match ScanChildren(flags[1..], next, chs, ix + count + chs)
        case None => None
        case Some(t) => Some([ix + count + chs] + t)
  }

  /** `Some(prefix + t)` for `Some(t)`. */
  function Prepend(prefix: seq<nat>, r: Option<seq<nat>>): Option<seq<nat>>
  {
    match r
    case None => None
    case Some(t) => Some(prefix + t)
  }

  /**
   * The child offset loop of both decoders: `children[0] = 0`, then for each
   * of the radix's slots `children[i + 1] = ix` after reading the child's
   * length when its bit is set. None is the `BadFormat` of an unreadable length.
   */
  method ReadChildren(r: Radix, bitmap: nat, input: seq<byte>, chs: nat) returns (table: Option<seq<nat>>)
    ensures table == Prepend([0], ScanChildren(BitmapFlags(bitmap, NibbleLength(r)), input, chs, 0))
  {
    var flags := BitmapFlags(bitmap, NibbleLength(r));
    // `children[i + 1]` for each slot; `children[0] = 0` goes in front at the end
    var offsets: seq<nat> := [];
    var ix: nat := 0;
    var rest := input;
    assert flags[0..] == flags;
    PrependNothing(ScanChildren(flags, input, chs, 0));
    for i := 0 to NibbleLength(r)
      invariant Prepend(offsets, ScanChildren(flags[i..], rest, chs, ix)) == ScanChildren(flags, input, chs, 0)
    {
      ghost var ix0, rest0 := ix, rest;
      if TestBit(bitmap, i) {
        var decoded := CompactDecode(rest);
        if decoded.None? {
          ScanUnreadable(flags[i..], rest, chs, ix);
          return None;
        }
        var (count, after) := decoded.value;
        // a short body leaves the cursor after the length: not an error
        var (_, next) := Take(after, count);
        rest := next;
        ix := ix + count + chs;
        ScanFlagged(flags[i..], rest0, chs, ix0);
      } else {
        ScanSkipped(flags[i..], rest, chs, ix);
      }
      assert flags[i..][1..] == flags[i + 1..];
      PrependStep(offsets, ix, ScanChildren(flags[i + 1..], rest, chs, ix));
      offsets := offsets + [ix];
    }
    assert flags[NibbleLength(r)..] == [];
    AppendNil(offsets);
    table := Some([0] + offsets);
  }

  /** An unflagged slot keeps the offset and the input. */
  lemma ScanSkipped(flags: seq<bool>, input: seq<byte>, chs: nat, ix: nat)
    requires flags != [] && !flags[0]
    ensures ScanChildren(flags, input, chs, ix) == Prepend([ix], ScanChildren(flags[1..], input, chs, ix))
  {
  }

  /** A flagged slot whose length reads advances past the length and as much of the body as there is. */
  lemma ScanFlagged(flags: seq<bool>, input: seq<byte>, chs: nat, ix: nat)
    requires flags != [] && flags[0] && CompactDecode(input).Some?
    ensures var (count, after) := CompactDecode(input).value;
      ScanChildren(flags, input, chs, ix)
        == Prepend([ix + count + chs], ScanChildren(flags[1..], Take(after, count).1, chs, ix + count + chs))
  {
  }

  /** A flagged slot whose length does not read fails the scan. */
  lemma ScanUnreadable(flags: seq<bool>, input: seq<byte>, chs: nat, ix: nat)
    requires flags != [] && flags[0] && CompactDecode(input).None?
    ensures ScanChildren(flags, input, chs, ix) == None
  {
  }

  lemma PrependNothing(r: Option<seq<nat>>)
    ensures Prepend([], r) == r
  {
    if r.Some? {
      assert [] + r.value == r.value;
    }
  }

  lemma PrependStep(prefix: seq<nat>, x: nat, r: Option<seq<nat>>)
    ensures Prepend(prefix, Prepend([x], r)) == Prepend(prefix + [x], r)
  {
    if r.Some? {
      assert prefix + ([x] + r.value) == (prefix + [x]) + r.value;
    }
  }

  /** Offsets after each slot as the encoder lays the children out. */
  function OffsetsFrom(children: seq<Option<Child>>, chs: nat, ix: nat): (o: seq<nat>)
    ensures |o| == |children|
  {
    if children == [] then []
    else
      var next := ix + (if children[0].Some? then |ChildPayload(children[0].value)| + chs else 0);
      [next] + OffsetsFrom(children[1..], chs, next)
  }

  /**
   * Scanning the encoder's children gives the encoder's offsets: each present
   * child advances the table by its body length plus `contentHeaderSize`.
   */
  lemma {:induction false} ScanChildrenOfEncoding(children: seq<Option<Child>>, rest: seq<byte>, chs: nat, ix: nat)
    ensures ScanChildren(Presence(children), ChildrenBytes(children) + rest, chs, ix)
      == Some(OffsetsFrom(children, chs, ix))
  {
    if children != [] {
      var next := OffsetsFrom(children, chs, ix)[0];
      ScanFirstSlot(children, rest, chs, ix);
      ScanChildrenOfEncoding(children[1..], rest, chs, next);
      assert OffsetsFrom(children, chs, ix) == [next] + OffsetsFrom(children[1..], chs, next);
    }
  }

  /** The first slot of the encoder's children advances the offset as `OffsetsFrom` does. */
  lemma ScanFirstSlot(children: seq<Option<Child>>, rest: seq<byte>, chs: nat, ix: nat)
    requires children != []
    ensures var next := OffsetsFrom(children, chs, ix)[0];
      ScanChildren(Presence(children), ChildrenBytes(children) + rest, chs, ix)
        == Prepend([next], ScanChildren(Presence(children[1..]), ChildrenBytes(children[1..]) + rest, chs, next))
  {
    var flags := Presence(children);
    var more := ChildrenBytes(children[1..]) + rest;
    var slot := SlotBytes(children[0]);
    assert flags[1..] == Presence(children[1..]);
    Assoc(slot, ChildrenBytes(children[1..]), rest);
    if children[0].Some? {
      ScanPresentStep(flags, ChildPayload(children[0].value), more, chs, ix);
    } else {
      AppendNil(more);
    }
  }

  /** A flagged slot over a length-prefixed body skips exactly that body. */
  lemma ScanPresentStep(flags: seq<bool>, p: seq<byte>, more: seq<byte>, chs: nat, ix: nat)
    requires flags != [] && flags[0] && |p| < U32_LIMIT
    ensures ScanChildren(flags, EncodeSlice(p) + more, chs, ix)
      == Prepend([ix + |p| + chs], ScanChildren(flags[1..], more, chs, ix + |p| + chs))
  {
    SliceRoundTrip(p, more);
  }

  /**
   * A flagged child whose body is missing is not reported: the table still
   * advances by the length that was read.
   */
  lemma TruncatedChildNotReported(count: nat, chs: nat)
    requires 0 < count < U32_LIMIT
    ensures ScanChildren([true], CompactEncode(count), chs, 0) == Some([count + chs])
  {
    CompactRoundTrip(count, []);
    assert CompactEncode(count) + [] == CompactEncode(count);
    assert [true][1..] == [];
    assert Take([], count) == (None, []);
    assert ScanChildren([], [], chs, count + chs) == Some([]);
    assert [count + chs] + [] == [count + chs];
  }

  /** A length-prefixed slice cut short is rejected, wherever the cut falls. */
  lemma ReadSliceTruncated(data: seq<byte>, k: nat)
    requires |data| < U32_LIMIT && k < |EncodeSlice(data)|
    ensures ReadSlice(EncodeSlice(data)[..k]) == None
  {
    var c := CompactEncode(|data|);
    if k < |c| {
      assert EncodeSlice(data)[..k] == c[..k];
      CompactTruncated(|data|, k);
    } else {
      var part := data[..k - |c|];
      assert EncodeSlice(data)[..k] == c + part;
      CompactRoundTrip(|data|, part);
    }
  }

  /**
   * The key of a node of `count` nibbles: `(count + npb - 1) / npb` bytes,
   * viewed past the `number_padding` leading nibbles; None on a short input.
   */
  function ReadNibbles(r: Radix, count: nat, input: seq<byte>): Option<(NibbleView, seq<byte>)>
  {
    var (data, rest) := Take(input, NibbleBytes(r, count));
    if data.None? then None else Some((NibbleView(data.value, NumberPadding(r, count)), rest))
  }

  /** A leaf's or an extension's key and its length-prefixed payload. */
  function ParseKeyed(r: Radix, count: nat, input: seq<byte>): Option<(NibbleView, seq<byte>)>
  {
    match ReadNibbles(r, count, input)
    case None => None
    case Some((key, afterKey)) =>
      match ReadSlice(afterKey)
      case None => None
      case Some((payload, _)) => Some((key, payload))
  }

  /** The key then the payload of a leaf or an extension, on a cursor. */
  method DecodeKeyed(r: Radix, count: nat, input: seq<byte>) returns (keyed: Option<(NibbleView, seq<byte>)>)
    ensures keyed == ParseKeyed(r, count, input)
  {
    var (nibbleData, afterKey) := Take(input, (count + (NibblePerByte(r) - 1)) / NibblePerByte(r));
    if nibbleData.None? {
      return None;
    }
    var key := NibbleView(nibbleData.value, NumberPadding(r, count));
    var length := CompactDecode(afterKey);
    if length.None? {
      return None;
    }
    var (payload, _) := Take(length.value.1, length.value.0);
    if payload.None? {
      return None;
    }
    keyed := Some((key, payload.value));
  }

  /** A key of the announced length then a length-prefixed payload read back as written. */
  lemma KeyedRoundTrip(r: Radix, count: nat, key: seq<byte>, payload: seq<byte>)
    requires |key| == NibbleBytes(r, count) && |payload| < U32_LIMIT
    ensures ParseKeyed(r, count, key + EncodeSlice(payload))
      == Some((NibbleView(key, NumberPadding(r, count)), payload))
  {
    TakePrefix(key, EncodeSlice(payload));
    ReadSliceOfEncoding(payload, []);
    assert EncodeSlice(payload) + [] == EncodeSlice(payload);
  }

  /** A key and payload cut short anywhere, in the key, the length or the payload, do not parse. */
  lemma KeyedTruncated(r: Radix, count: nat, key: seq<byte>, payload: seq<byte>, j: nat)
    requires |key| == NibbleBytes(r, count) && |payload| < U32_LIMIT
    requires j < |key + EncodeSlice(payload)|
    ensures ParseKeyed(r, count, (key + EncodeSlice(payload))[..j]) == None
  {
    if j >= |key| {
      var cut := EncodeSlice(payload)[..j - |key|];
      assert (key + EncodeSlice(payload))[..j] == key + cut;
      TakePrefix(key, cut);
      ReadSliceTruncated(payload, j - |key|);
    }
  }

  /**
   * What follows a branch's header (and key): the bitmap, the value when the
   * header announces one, then the children; None is `BadFormat`.
   */
  function ParseBranchBody(cfg: Config, hasValue: bool, input: seq<byte>): Option<(ChildIndex, Option<seq<byte>>)>
  {
    var r := cfg.radix;
    var (bitmapSlice, afterBitmap) := Take(input, BitmapEncodedLen(r));
    if bitmapSlice.None? then None
    else
      match DecodeBitmap(r, bitmapSlice.value)
      case None => None
      case Some(bitmap) =>
        var valueRead := if hasValue then ReadSlice(afterBitmap) else Some(([], afterBitmap));
        if valueRead.None? then None
        else
          var (v, childData) := valueRead.value;
          var value := if hasValue then Some(v) else None;
          match ScanChildren(BitmapFlags(bitmap, NibbleLength(r)), childData, cfg.contentHeaderSize, 0)
          case None => None
          case Some(t) => Some((ChildIndex([0] + t, childData), value))
  }

  /** The branch part of both decoders, on a cursor over the input. */
  method DecodeBranchBody(cfg: Config, hasValue: bool, input: seq<byte>)
    returns (body: Option<(ChildIndex, Option<seq<byte>>)>)
    ensures body == ParseBranchBody(cfg, hasValue, input)
  {
    var r := cfg.radix;
    var cursor := input;
    var (bitmapSlice, afterBitmap) := Take(cursor, BitmapEncodedLen(r));
    cursor := afterBitmap;
    if bitmapSlice.None? {
      return None;
    }
    var bitmap := DecodeBitmap(r, bitmapSlice.value);
    if bitmap.None? {
      return None;
    }
    var value: Option<seq<byte>> := None;
    if hasValue {
      var count := CompactDecode(cursor);
      if count.None? {
        return None;
      }
      var (taken, afterValue) := Take(count.value.1, count.value.0);
      cursor := afterValue;
      if taken.None? {
        return None;
      }
      value := Some(taken.value);
    }
    var childData := cursor;
    var table := ReadChildren(r, bitmap.value, childData, cfg.contentHeaderSize);
    if table.None? {
      return None;
    }
    body := Some((ChildIndex(table.value, childData), value));
  }

  /**
   * Round trip of a branch's body: the decoder gets back the value, and an
   * offset table in which each present child advances by its body length
   * plus `contentHeaderSize` over the children's bytes.
   */
  lemma BranchBodyRoundTrip(cfg: Config, children: seq<Option<Child>>, value: Option<seq<byte>>)
    requires |children| == NibbleLength(cfg.radix)
    requires EncodableValue(value)
    ensures var body := BitmapBytes(cfg.radix, Presence(children)) + ValueBytes(value) + ChildrenBytes(children);
      ParseBranchBody(cfg, value.Some?, body)
        == Some((ChildIndex([0] + OffsetsFrom(children, cfg.contentHeaderSize, 0), ChildrenBytes(children)), value))
  {
    var r := cfg.radix;
    var chs := cfg.contentHeaderSize;
    var flags := Presence(children);
    var bb := BitmapBytes(r, flags);
    var cb := ChildrenBytes(children);
    var vb := ValueBytes(value);
    Assoc(bb, vb, cb);
    TakePrefix(bb, vb + cb);
    BitmapFlagsOfEncoding(r, flags);
    if value.Some? {
      ReadSliceOfEncoding(value.value, cb);
    }
    ScanChildrenOfEncoding(children, [], chs, 0);
    AppendNil(cb);
  }

  /**
   * A branch body cut inside its bitmap or its value is rejected: the bitmap
   * `take` or the value's length-prefixed read comes up short.
   */
  lemma BranchBodyTruncated(cfg: Config, children: seq<Option<Child>>, value: Option<seq<byte>>, j: nat)
    requires |children| == NibbleLength(cfg.radix)
    requires EncodableValue(value)
    requires j < |BitmapBytes(cfg.radix, Presence(children))| + |ValueBytes(value)|
    ensures var body := BitmapBytes(cfg.radix, Presence(children)) + ValueBytes(value) + ChildrenBytes(children);
      ParseBranchBody(cfg, value.Some?, body[..j]) == None
  {
    var bb := BitmapBytes(cfg.radix, Presence(children));
    var vb := ValueBytes(value);
    var body := bb + vb + ChildrenBytes(children);
    if j >= |bb| {
      var cut := vb[..j - |bb|];
      assert body[..j] == bb + cut;
      TakePrefix(bb, cut);
      BitmapFlagsOfEncoding(cfg.radix, Presence(children));
      ReadSliceTruncated(value.value, j - |bb|);
    }
  }

  /** The flags a decoder reads from an encoded bitmap are the encoder's. */
  lemma BitmapFlagsOfEncoding(r: Radix, flags: seq<bool>)
    requires |flags| == NibbleLength(r)
    ensures DecodeBitmap(r, BitmapBytes(r, flags)).Some?
    ensures BitmapFlags(DecodeBitmap(r, BitmapBytes(r, flags)).value, NibbleLength(r)) == flags
  {
    BitmapRoundTrip(r, flags);
  }
}

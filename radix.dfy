/**
 * The radix a layout is built for: radix 16 (`NibbleHalf` nibbles with the
 * 16-slot `BitMap16`) or radix 4 (`NibbleQuarter` with the 4-slot `BitMap4`).
 * The nibble helpers of trie_db's `NibbleOps` are not part of this model; the
 * meaning the codecs rely on is written out here.
 */
module Radix {
  import opened Common

  datatype Radix = Radix16 | Radix4

  /** `N::NIBBLE_PER_BYTE`. */
  function NibblePerByte(r: Radix): nat
  {
    match r
    case Radix16 => 2
    case Radix4 => 4
  }

  /** `N::NIBBLE_LENGTH`: the number of child slots of a branch. */
  function NibbleLength(r: Radix): nat
  {
    match r
    case Radix16 => 16
    case Radix4 => 4
  }

  /** Bits in one nibble. */
  function NibbleBits(r: Radix): (b: nat)
    ensures b * NibblePerByte(r) == 8
  {
    match r
    case Radix16 => 4
    case Radix4 => 2
  }

  /** `BITMAP::ENCODED_LEN`. */
  function BitmapEncodedLen(r: Radix): nat
  {
    match r
    case Radix16 => 2
    case Radix4 => 1
  }

  /** Bytes holding `count` nibbles: `(count + (NIBBLE_PER_BYTE - 1)) / NIBBLE_PER_BYTE`. */
  function NibbleBytes(r: Radix, count: nat): (n: nat)
    ensures n * NibblePerByte(r) >= count
    ensures n * NibblePerByte(r) < count + NibblePerByte(r)
  {
    match r
    case Radix16 => (count + 1) / 2
    case Radix4 => (count + 3) / 4
  }

  /** `N::number_padding(count)`: unused nibbles at the front of the first key byte. */
  function NumberPadding(r: Radix, count: nat): (p: nat)
    ensures p < NibblePerByte(r)
    ensures (count + p) % NibblePerByte(r) == 0
  {
    match r
    case Radix16 => if count % 2 == 0 then 0 else 1
    case Radix4 => if count % 4 == 0 then 0 else 4 - count % 4
  }

  /** `N::masked_left(n, b)`: only the `n` leftmost nibbles of `b`. */
  function MaskedLeft(r: Radix, n: nat, b: byte): byte
    requires n <= NibblePerByte(r)
  {
    var low := Pow2(8 - n * NibbleBits(r));
    ModBounds(b, low);
    b - b % low
  }

  /** `N::masked_right(n, b)`: only the `n` rightmost nibbles of `b`. */
  function MaskedRight(r: Radix, n: nat, b: byte): byte
    requires n <= NibblePerByte(r)
  {
    var high := Pow2(n * NibbleBits(r));
    ModBounds(b, high);
    b % high
  }

  /**
   * A first key byte built by `MaskedRight` from `k` nibbles has its padding,
   * the `NibblePerByte - k` leftmost nibbles, clear: the padding check of the
   * no-extension decoder passes on it.
   */
  lemma {:induction false} MaskedPaddingClear(r: Radix, k: nat, b: byte)
    requires 0 < k < NibblePerByte(r)
    ensures MaskedLeft(r, NibblePerByte(r) - k, MaskedRight(r, k, b)) == 0
  {
    var m := MaskedRight(r, k, b);
    var bits := k * NibbleBits(r);
    assert (NibblePerByte(r) - k) * NibbleBits(r) == 8 - bits;
    var low := Pow2(8 - (NibblePerByte(r) - k) * NibbleBits(r));
    assert low == Pow2(bits);
    ModBounds(b, low);
    ModOfSmall(m, low);
  }

  /** `MaskedRight` keeps a byte that already fits in its `k` right nibbles. */
  lemma MaskedRightKeepsSmall(r: Radix, k: nat, b: byte)
    requires k <= NibblePerByte(r)
    requires b < Pow2(k * NibbleBits(r))
    ensures MaskedRight(r, k, b) == b
  {
    ModOfSmall(b, Pow2(k * NibbleBits(r)));
  }
}

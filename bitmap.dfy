/**
 * Child-presence bitmaps: `BitMap16` (two bytes, low byte first) for radix 16
 * and `BitMap4` (one byte whose high four bits are reserved) for radix 4.
 */
module Bitmap {
  import opened Common
  import opened Radix

  /** The value with bit `i` set exactly when `flags[i]` holds. */
  function BitsValue(flags: seq<bool>): nat
  {
    if flags == [] then 0 else (if flags[0] then 1 else 0) + 2 * BitsValue(flags[1..])
  }

  /** Width in bits of the integer `BITMAP::encode` accumulates in: `u16`, or `u8` for `BitMap4`. */
  function AccumulatorWidth(r: Radix): nat
  {
    match r
    case Radix16 => 16
    case Radix4 => 8
  }

  /** The accumulated bitmap: flags past the accumulator's width shift out of it. */
  function BitmapOf(r: Radix, flags: seq<bool>): nat
  {
    BitsValue(flags[..Min(|flags|, AccumulatorWidth(r))])
  }

  lemma {:induction false} BitsValueBound(flags: seq<bool>)
    ensures BitsValue(flags) < Pow2(|flags|)
  {
    if flags != [] {
      BitsValueBound(flags[1..]);
    }
  }

  /** Appending one flag sets the next bit. */
  lemma {:induction false} BitsValueSnoc(flags: seq<bool>, v: bool)
    ensures BitsValue(flags + [v]) == BitsValue(flags) + (if v then Pow2(|flags|) else 0)
  {
    if flags != [] {
      assert (flags + [v])[1..] == flags[1..] + [v];
      BitsValueSnoc(flags[1..], v);
    } else {
      assert ([] + [v])[1..] == [];
    }
  }

  /** Bit semantics: bit `i` of the value is `flags[i]`, and every higher bit is clear. */
  lemma {:induction false} BitsValueTestBit(flags: seq<bool>, i: nat)
    ensures TestBit(BitsValue(flags), i) == (i < |flags| && flags[i])
  {
    if flags == [] {
      ZeroBits(i);
    } else if i > 0 {
      BitsValueTestBit(flags[1..], i - 1);
    }
  }

  lemma {:induction false} ZeroBits(i: nat)
    ensures !TestBit(0, i)
  {
    if i > 0 {
      ZeroBits(i - 1);
    }
  }

  /**
   * The loop of `BitMap16::encode`, `BitMap4::encode` and `branch_node_bit_mask`:
   * `bitmap |= cursor` for each true flag, `cursor <<= 1` after each flag, both
   * in an integer of `AccumulatorWidth(r)` bits.
   */
  method AccumulateBitmap(r: Radix, flags: seq<bool>) returns (bitmap: nat)
    ensures bitmap == BitmapOf(r, flags)
    ensures bitmap < Pow2(AccumulatorWidth(r))
  {
    var width := AccumulatorWidth(r);
    var limit := if r == Radix16 then 65536 else 256;
    bitmap := 0;
    var cursor := 1;
    var i := 0;
    while i < |flags|
      invariant i <= |flags|
      invariant bitmap == BitsValue(flags[..Min(i, width)])
      invariant cursor == Cursor(r, i)
    {
      AccumulateStep(r, flags, i);
      if flags[i] {
        // the bit at `cursor` is still clear (bitmap < cursor), so `|=` adds it
        bitmap := bitmap + cursor;
      }
      // `cursor <<= 1` in the accumulator's width: the last bit shifts out
      cursor := (cursor * 2) % limit;
      i := i + 1;
    }
    assert flags[..Min(|flags|, width)] == flags[..Min(i, width)];
    BitsValueBound(flags[..Min(|flags|, width)]);
    PowMonotone(Min(|flags|, width), width);
  }

  /** The loop's `cursor` before flag `i`: bit `i`, until it has shifted out. */
  function Cursor(r: Radix, i: nat): nat
  {
    if i < AccumulatorWidth(r) then Pow2(i) else 0
  }

  /** One round of the accumulation loop: flag `i` adds the cursor's bit, and the cursor doubles in the accumulator's width. */
  lemma AccumulateStep(r: Radix, flags: seq<bool>, i: nat)
    requires i < |flags|
    ensures BitsValue(flags[..Min(i + 1, AccumulatorWidth(r))])
      == BitsValue(flags[..Min(i, AccumulatorWidth(r))]) + (if flags[i] then Cursor(r, i) else 0)
    ensures (Cursor(r, i) * 2) % (if r == Radix16 then 65536 else 256) == Cursor(r, i + 1)
  {
    var width := AccumulatorWidth(r);
    if i < width {
      assert flags[..i + 1] == flags[..i] + [flags[i]];
      BitsValueSnoc(flags[..i], flags[i]);
    } else {
      assert flags[..Min(i + 1, width)] == flags[..Min(i, width)];
    }
    CursorShift(r, i);
  }

  lemma CursorShift(r: Radix, i: nat)
    ensures (Cursor(r, i) * 2) % (if r == Radix16 then 65536 else 256) == Cursor(r, i + 1)
  {
    var width := AccumulatorWidth(r);
    var limit := if r == Radix16 then 65536 else 256;
    if i < width {
      assert Pow2(width) == limit by {
        Pow2Values();
      }
      assert Pow2(i + 1) == Pow2(i) * 2;
      if i + 1 < width {
        PowStrict(i + 1, width);
        ModOfSmall(Pow2(i + 1), limit);
      }
    }
  }

  lemma {:induction false} PowMonotone(a: nat, b: nat)
    requires a <= b
    ensures Pow2(a) <= Pow2(b)
  {
    if a < b {
      PowMonotone(a, b - 1);
    }
  }

  lemma {:induction false} PowStrict(a: nat, b: nat)
    requires a < b
    ensures Pow2(a) < Pow2(b)
  {
    PowMonotone(a, b - 1);
  }

  /** The bytes `BITMAP::encode` writes: low byte then high byte, or the single byte. */
  function BitmapBytes(r: Radix, flags: seq<bool>): (out: seq<byte>)
    ensures |out| == BitmapEncodedLen(r)
  {
    var v := BitmapOf(r, flags);
    Pow2Values();
    BitsValueBound(flags[..Min(|flags|, AccumulatorWidth(r))]);
    PowMonotone(Min(|flags|, AccumulatorWidth(r)), AccumulatorWidth(r));
    match r
    case Radix16 => [v % 256, v / 256]
    case Radix4 => [v]
  }

  /**
   * `BITMAP::encode(has_children, &mut output[at..])`: the bitmap bytes go to
   * `output[at..]`; every other byte of the buffer is untouched.
   */
  method Encode(r: Radix, flags: seq<bool>, output: array<byte>, at: nat)
    requires at + BitmapEncodedLen(r) <= output.Length
    modifies output
    ensures output[at..at + BitmapEncodedLen(r)] == BitmapBytes(r, flags)
    ensures output[..at] == old(output[..at])
    ensures output[at + BitmapEncodedLen(r)..] == old(output[at + BitmapEncodedLen(r)..])
  {
    var bitmap := AccumulateBitmap(r, flags);
    Pow2Values();
    match r {
      case Radix16 =>
        output[at] := bitmap % 256;
        output[at + 1] := bitmap / 256;
      case Radix4 =>
        output[at] := bitmap;
    }
  }

  /**
   * `branch_node_bit_mask`: the 16-bit bitmap of the flags as (low byte, high byte).
   */
  method BranchNodeBitMask(flags: seq<bool>) returns (lo: byte, hi: byte)
    ensures [lo, hi] == BitmapBytes(Radix16, flags)
    ensures forall i :: 0 <= i < 16 ==> TestBit((lo as int) + 256 * (hi as int), i) == (i < |flags| && flags[i])
  {
    var bitmap := AccumulateBitmap(Radix16, flags);
    Pow2Values();
    lo, hi := bitmap % 256, bitmap / 256;
    assert (lo as int) + 256 * (hi as int) == bitmap;
    forall i | 0 <= i < 16
      ensures TestBit((lo as int) + 256 * (hi as int), i) == (i < |flags| && flags[i])
    {
      var f := flags[..Min(|flags|, 16)];
      assert bitmap == BitsValue(f);
      assert i < |f| ==> f[i] == flags[i];
      BitsValueTestBit(f, i);
    }
  }

  /**
   * `BITMAP::decode`: `u16::decode` of two little-endian bytes, which cannot
   * fail on two bytes; for `BitMap4` one byte whose high four bits are zero.
   */
  function DecodeBitmap(r: Radix, data: seq<byte>): (bitmap: Option<nat>)
    ensures bitmap.Some? ==> |data| >= BitmapEncodedLen(r) && bitmap.value < Pow2(NibbleLength(r))
  {
    Pow2Values();
    match r
    case Radix16 => if |data| < 2 then None else Some((data[0] as int) + 256 * (data[1] as int))
    case Radix4 => if |data| == 0 || data[0] >= 16 then None else Some(data[0])
  }

  /**
   * `BitMap4::decode` fails exactly on an empty input or on a byte with one of
   * its four reserved high bits set.
   */
  lemma Bitmap4DecodeRejects(data: seq<byte>)
    ensures DecodeBitmap(Radix4, data).None? <==>
      |data| == 0 || exists i :: 4 <= i < 8 && TestBit(data[0], i)
  {
    Pow2Values();
    if |data| > 0 {
      var b := data[0];
      if b >= 16 {
        if !exists i :: 4 <= i < 8 && TestBit(b, i) {
          HighBitsClear(b, 4, 8);
          assert false;
        }
        assert data[0] == b;
        assert DecodeBitmap(Radix4, data).None?;
        assert exists i :: 4 <= i < 8 && TestBit(data[0], i);
      } else {
        forall i | 4 <= i < 8 ensures !TestBit(b, i) {
          PowMonotone(4, i);
          SmallHasNoHighBits(b, i);
        }
      }
    }
  }

  /** A value below `2^n` with bits `m..n-1` clear is below `2^m`. */
  lemma {:induction false} HighBitsClear(v: nat, m: nat, n: nat)
    requires m <= n && v < Pow2(n)
    requires forall j :: m <= j < n ==> !TestBit(v, j)
    ensures v < Pow2(m)
  {
    if m > 0 {
      forall j | m - 1 <= j < n - 1 ensures !TestBit(v / 2, j) {
        assert TestBit(v, j + 1) == TestBit(v / 2, j);
      }
      HighBitsClear(v / 2, m - 1, n - 1);
    } else if n > 0 {
      forall j | 0 <= j < n - 1 ensures !TestBit(v / 2, j) {
        assert TestBit(v, j + 1) == TestBit(v / 2, j);
      }
      HighBitsClear(v / 2, 0, n - 1);
      assert !TestBit(v, 0);
    }
  }

  lemma {:induction false} SmallHasNoHighBits(v: nat, i: nat)
    requires v < Pow2(i)
    ensures !TestBit(v, i)
  {
    if i == 0 {
    } else {
      SmallHasNoHighBits(v / 2, i - 1);
    }
  }

  /**
   * Round trip of the bitmap codec for a branch's `NibbleLength` slots: the
   * encoded bytes decode, and `value_at(i)` reads back the i-th flag.
   */
  lemma BitmapRoundTrip(r: Radix, flags: seq<bool>)
    requires |flags| == NibbleLength(r)
    ensures DecodeBitmap(r, BitmapBytes(r, flags)).Some?
    ensures forall i :: 0 <= i < |flags| ==>
      TestBit(DecodeBitmap(r, BitmapBytes(r, flags)).value, i) == flags[i]
  {
    assert flags[..Min(|flags|, AccumulatorWidth(r))] == flags;
    BitsValueBound(flags);
    var v := BitsValue(flags);
    forall i | 0 <= i < |flags| ensures TestBit(v, i) == flags[i] {
      BitsValueTestBit(flags, i);
    }
    if r == Radix4 {
      assert Pow2(4) == 16;
    }
  }

  /**
   * Radix 4 accumulates in a `u8`, so a fifth and later flag sets a reserved
   * bit: such an encoding is rejected by `BitMap4::decode`.
   */
  lemma Bitmap4ExtraFlagRejected(flags: seq<bool>, i: nat)
    requires 4 <= i < |flags| && i < 8 && flags[i]
    ensures DecodeBitmap(Radix4, BitmapBytes(Radix4, flags)) == None
  {
    var f := flags[..Min(|flags|, 8)];
    BitsValueTestBit(f, i);
    Bitmap4DecodeRejects(BitmapBytes(Radix4, flags));
  }
}

/** Bytes, bits and the input cursor shared by every codec layer. */
module Common {

  /** An unsigned 8-bit value (Rust `u8`). */
  type byte = x: int | 0 <= x < 256

  datatype Option<+T> = None | Some(value: T)

  function Min(a: nat, b: nat): nat { if a <= b then a else b }

  function Pow2(n: nat): (r: nat)
    ensures r >= 1
  {
    if n == 0 then 1 else 2 * Pow2(n - 1)
  }

  lemma Pow2Values()
    ensures Pow2(2) == 4 && Pow2(4) == 16 && Pow2(6) == 64 && Pow2(8) == 256
    ensures Pow2(16) == 65536
  {
    assert Pow2(1) == 2 && Pow2(2) == 4 && Pow2(3) == 8 && Pow2(4) == 16;
    assert Pow2(5) == 32 && Pow2(6) == 64 && Pow2(7) == 128 && Pow2(8) == 256;
    assert Pow2(9) == 512 && Pow2(10) == 1024 && Pow2(11) == 2048 && Pow2(12) == 4096;
    assert Pow2(13) == 8192 && Pow2(14) == 16384 && Pow2(15) == 32768;
  }

  /** Bit `i` of `v`, that is `v & (1 << i) != 0`. */
  function TestBit(v: nat, i: nat): bool
  {
    if i == 0 then v % 2 == 1 else TestBit(v / 2, i - 1)
  }

  lemma ModBounds(a: nat, m: nat)
    requires m >= 1
    ensures a % m <= a && a % m < m
  {
    assert a == m * (a / m) + a % m;
    assert a / m >= 0;
  }

  /** A value below the modulus is its own remainder. */
  lemma ModOfSmall(a: nat, m: nat)
    requires a < m
    ensures a % m == a
  {
  }

  /** `n` copies of the byte `b`. */
  function Repeat(b: byte, n: nat): (r: seq<byte>)
    ensures |r| == n
    ensures forall k :: 0 <= k < n ==> r[k] == b
  {
    if n == 0 then [] else [b] + Repeat(b, n - 1)
  }

  /**
   * `take` (reference-trie lib.rs): on a short input nothing is taken and the
   * cursor stays where it was; otherwise the first `count` bytes are returned
   * and the cursor moves past them. The pair is (taken, remaining input).
   */
  function Take(input: seq<byte>, count: nat): (r: (Option<seq<byte>>, seq<byte>))
    ensures r.0.None? <==> |input| < count
    ensures r.0.None? ==> r.1 == input
    ensures r.0.Some? ==> |r.0.value| == count && r.0.value + r.1 == input
  {
    if |input| < count then (None, input)
    else (Some(input[..count]), input[count..])
  }

  lemma Assoc<T>(a: seq<T>, b: seq<T>, c: seq<T>)
    ensures (a + b) + c == a + (b + c)
  {
  }

  lemma AppendNil<T>(a: seq<T>)
    ensures a + [] == a && [] + a == a
  {
  }

  /** Taking the first `|a|` bytes of `a + b` gives `a` back. */
  lemma TakePrefix(a: seq<byte>, b: seq<byte>)
    ensures Take(a + b, |a|) == (Some(a), b)
  {
    assert (a + b)[..|a|] == a;
    assert (a + b)[|a|..] == b;
  }
}

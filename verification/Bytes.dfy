/**
 Bytes, fixed-width words, and their little- and big-endian encodings.
 Words are unbounded naturals with their width stated: a Rust addition that the
 release build leaves unchecked is `Wrap64`, a Rust narrowing cast is `%`.
 */
module Bytes {
  import opened Arithmetic

  const TWO16: nat := 0x1_0000
  const TWO32: nat := 0x1_0000_0000
  const TWO64: nat := 0x1_0000_0000_0000_0000

  type byte = x: int | 0 <= x < 256
  type u16 = x: int | 0 <= x < TWO16
  type u32 = x: int | 0 <= x < TWO32
  type u64 = x: int | 0 <= x < TWO64

  /** The longest file the host's offsets allow, and the longest buffer a file is read into. */
  const MAX_FILE: nat := 0x7fff_ffff_ffff_ffff

  /** An unchecked 64-bit addition in the release build. */
  function Wrap64(x: nat): (r: u64)
    ensures x < TWO64 ==> r == x
  {
    x % TWO64
  }

  function Pow256(n: nat): (p: nat)
    ensures p > 0
  {
    if n == 0 then 1 else 256 * Pow256(n - 1)
  }

  lemma WordWidths()
    ensures Pow256(1) == 0x100 && Pow256(2) == TWO16 && Pow256(4) == TWO32 && Pow256(8) == TWO64
  {
    assert Pow256(3) == 256 * Pow256(2);
    assert Pow256(5) == 256 * Pow256(4);
    assert Pow256(6) == 256 * Pow256(5);
    assert Pow256(7) == 256 * Pow256(6);
  }

  function FromLE(s: seq<byte>): (v: nat)
    ensures v < Pow256(|s|)
  {
    if s == [] then 0 else s[0] + 256 * FromLE(s[1..])
  }

  function ToLE(v: nat, n: nat): (s: seq<byte>)
    ensures |s| == n
  {
    if n == 0 then [] else [v % 256] + ToLE(v / 256, n - 1)
  }

  /** Decoding inverts encoding for every value the width can hold ... */
  lemma {:induction false} DecodeEncode(v: nat, n: nat)
    requires v < Pow256(n)
    ensures FromLE(ToLE(v, n)) == v
  {
    if n > 0 {
      DecodeEncode(v / 256, n - 1);
      assert ToLE(v, n)[1..] == ToLE(v / 256, n - 1);
    }
  }

  /** ... and encoding inverts decoding, so an encoding is the only preimage. */
  lemma {:induction false} EncodeDecode(s: seq<byte>)
    ensures ToLE(FromLE(s), |s|) == s
  {
    if s != [] {
      EncodeDecode(s[1..]);
      assert s == [s[0]] + s[1..];
    }
  }

  /** Byte `i` of a little-endian encoding has weight 256^i: the least significant byte comes first ... */
  lemma {:induction false} LittleEndianByte(v: nat, n: nat, i: nat)
    requires i < n
    ensures ToLE(v, n)[i] == v / Pow256(i) % 256
    decreases i
  {
    if i > 0 {
      LittleEndianByte(v / 256, n - 1, i - 1);
      DivTwice(v, 256, Pow256(i - 1));
    } else {
      assert v / 1 == v;
    }
  }

  /** ... and last in a big-endian one. */
  lemma {:induction false} BigEndianByte(v: nat, n: nat, i: nat)
    requires i < n
    ensures ToBE(v, n)[n - 1 - i] == v / Pow256(i) % 256
    decreases i
  {
    if i > 0 {
      BigEndianByte(v / 256, n - 1, i - 1);
      DivTwice(v, 256, Pow256(i - 1));
    } else {
      assert v / 1 == v;
    }
  }

  /** A word whose bytes are all zero is zero. */
  lemma {:induction false} DecodeZeros(s: seq<byte>)
    requires forall i :: 0 <= i < |s| ==> s[i] == 0
    ensures FromLE(s) == 0
  {
    if s != [] {
      DecodeZeros(s[1..]);
    }
  }

  function FromBE(s: seq<byte>): (v: nat)
    ensures v < Pow256(|s|)
  {
    if s == [] then 0 else 256 * FromBE(s[..|s| - 1]) + s[|s| - 1]
  }

  function ToBE(v: nat, n: nat): (s: seq<byte>)
    ensures |s| == n
  {
    if n == 0 then [] else ToBE(v / 256, n - 1) + [v % 256]
  }

  lemma {:induction false} DecodeEncodeBE(v: nat, n: nat)
    requires v < Pow256(n)
    ensures FromBE(ToBE(v, n)) == v
  {
    if n > 0 {
      DecodeEncodeBE(v / 256, n - 1);
      assert ToBE(v, n)[..n - 1] == ToBE(v / 256, n - 1);
    }
  }

  /** The word stored at `[a, a + n)`. */
  function WordAt(m: seq<byte>, a: nat, n: nat): (v: nat)
    requires a + n <= |m|
    ensures v < Pow256(n)
  {
    FromLE(m[a..a + n])
  }

  /** Memory `m` with `data` laid over it at `off`. */
  function Patch(m: seq<byte>, off: nat, data: seq<byte>): (r: seq<byte>)
    requires off + |data| <= |m|
    ensures |r| == |m|
    ensures forall i {:trigger r[i]} :: 0 <= i < |m| ==> r[i] == if off <= i < off + |data| then data[i - off] else m[i]
  {
    m[..off] + data + m[off + |data|..]
  }

  /** `m` and `m'` differ at most inside `[lo, hi)`. */
  predicate SameOutside(m: seq<byte>, m': seq<byte>, lo: nat, hi: nat) {
    && |m| == |m'|
    && forall a {:trigger m'[a]} :: 0 <= a < |m| && !(lo <= a < hi) ==> m'[a] == m[a]
  }

  /** A word just written reads back. */
  lemma PatchReadBack(m: seq<byte>, off: nat, v: nat, n: nat)
    requires off + n <= |m| && v < Pow256(n)
    ensures WordAt(Patch(m, off, ToLE(v, n)), off, n) == v
  {
    var p := Patch(m, off, ToLE(v, n));
    assert p[off..off + n] == ToLE(v, n);
    DecodeEncode(v, n);
  }

  /** Words whose bytes agree in two memories are equal. */
  lemma SameWord(m: seq<byte>, m': seq<byte>, a: nat, n: nat)
    requires a + n <= |m| && a + n <= |m'|
    requires forall i :: a <= i < a + n ==> m[i] == m'[i]
    ensures WordAt(m, a, n) == WordAt(m', a, n)
  {
    assert m[a..a + n] == m'[a..a + n];
  }
}

/**
 Machine words and little-endian fields.

 Fixed-width values are integers with a range; wrap-around, truncation and
 shifts are written out with `%` and `/` where the source performs them. Bits
 are read by halving, so every fact about them is linear.
 */
module Words {

  type u8 = x: int | 0 <= x < 0x100
  type u16 = x: int | 0 <= x < 0x1_0000
  type u32 = x: int | 0 <= x < 0x1_0000_0000
  type u64 = x: int | 0 <= x < 0x1_0000_0000_0000_0000

  const TWO32: int := 0x1_0000_0000

  datatype Option<+T> = None | Some(value: T)

  /** Reduction to 32 bits: what `wrapping_add` and friends leave. */
  function Wrap32(x: int): (r: u32)
  {
    x % TWO32
  }

  /** A product, kept apart from linear arithmetic. */
  function Times(a: nat, b: nat): (n: nat)
  {
    a * b
  }

  // ----- bits -----

  /** Bit `i` of `x`. */
  predicate Bit(x: nat, i: nat)
    decreases i
  {
    if i == 0 then x % 2 == 1 else Bit(x / 2, i - 1)
  }

  /** `x & !(1 << i)`. */
  function ClearBit(x: nat, i: nat): (r: nat)
    ensures r <= x
    decreases i
  {
    if i == 0 then x - x % 2 else 2 * ClearBit(x / 2, i - 1) + x % 2
  }

  /** Trailing zeros of a non-zero word. */
  function Bsf(x: nat): (b: nat)
    requires x != 0
    ensures Bit(x, b)
    ensures forall i | 0 <= i < b :: !Bit(x, i)
    decreases x
  {
    if x % 2 == 1 then 0
    else
      assert forall i | 1 <= i < 1 + Bsf(x / 2) :: Bit(x, i) == Bit(x / 2, i - 1);
      1 + Bsf(x / 2)
  }

  lemma {:induction false} ClearBitBits(x: nat, b: nat, i: nat)
    ensures Bit(ClearBit(x, b), i) <==> Bit(x, i) && i != b
    decreases b
  {
    var y := ClearBit(x, b);
    if b != 0 && i != 0 {
      ClearBitBits(x / 2, b - 1, i - 1);
      assert y / 2 == ClearBit(x / 2, b - 1);
    } else if i != 0 {
      assert y / 2 == x / 2;
    }
  }

  lemma {:induction false} ClearBitDecreases(x: nat, b: nat)
    requires Bit(x, b)
    ensures ClearBit(x, b) < x
    decreases b
  {
    if b != 0 {
      ClearBitDecreases(x / 2, b - 1);
    }
  }

  lemma {:induction false} ZeroHasNoBits(i: nat)
    ensures !Bit(0, i)
  {
    if i != 0 {
      ZeroHasNoBits(i - 1);
    }
  }

  function Pow2(n: nat): (r: nat)
    ensures r > 0
  {
    if n == 0 then 1 else 2 * Pow2(n - 1)
  }

  /** A word below `2^n` has no bit at or above `n`. */
  lemma {:induction false} NoHighBits(x: nat, n: nat, i: nat)
    requires x < Pow2(n) && n <= i
    ensures !Bit(x, i)
    decreases n
  {
    if n == 0 {
      ZeroHasNoBits(i);
    } else {
      NoHighBits(x / 2, n - 1, i - 1);
    }
  }

  /** The bits of a word put together from a high and a low part. */
  lemma {:induction false} BitSplit(h: nat, low: nat, n: nat, c: nat)
    requires low < Pow2(n)
    ensures Bit(h * Pow2(n) + low, c) <==> if c < n then Bit(low, c) else Bit(h, c - n)
    decreases n
  {
    if n > 0 {
      var x, y := h * Pow2(n) + low, h * Pow2(n - 1);
      assert h * Pow2(n) == 2 * y;
      assert x / 2 == y + low / 2 && x % 2 == low % 2;
      if c > 0 {
        BitSplit(h, low / 2, n - 1, c - 1);
      }
    }
  }

  /** A word is its bits. */
  lemma {:induction false} SameBits(x: nat, y: nat, n: nat)
    requires x < Pow2(n) && y < Pow2(n) && forall i: nat | i < n :: Bit(x, i) == Bit(y, i)
    ensures x == y
  {
    if n > 0 {
      assert Bit(x, 0) == Bit(y, 0);
      forall i: nat | i < n - 1 ensures Bit(x / 2, i) == Bit(y / 2, i) {
        assert Bit(x, i + 1) == Bit(y, i + 1);
      }
      SameBits(x / 2, y / 2, n - 1);
    }
  }

  lemma ByteWidths()
    ensures Pow2(8) == 0x100 && Pow2(16) == 0x1_0000
  {
    assert Pow2(4) == 16;
    assert Pow2(8) == 256;
    assert Pow2(12) == 0x1000;
  }

  // ----- little-endian fields -----

  function LE16(v: u16): (s: seq<u8>)
    ensures |s| == 2
  {
    [v % 256, v / 256]
  }

  function LE32(v: u32): (s: seq<u8>)
    ensures |s| == 4
  {
    [v % 256, v / 256 % 256, v / 0x1_0000 % 256, v / 0x100_0000]
  }

  predicate In(s: seq<u8>, off: int, n: nat)
  {
    0 <= off && off + n <= |s|
  }

  function U16(s: seq<u8>, off: int): (v: u16)
    requires In(s, off, 2)
  {
    var b0: int, b1: int := s[off], s[off + 1];
    b0 + 256 * b1
  }

  function U32(s: seq<u8>, off: int): (v: u32)
    requires In(s, off, 4)
  {
    var b0: int, b1: int, b2: int, b3: int := s[off], s[off + 1], s[off + 2], s[off + 3];
    b0 + 256 * b1 + 0x1_0000 * b2 + 0x100_0000 * b3
  }

  /** Bit `i` of a field is bit `i % 8` of its byte `i / 8`: the least significant byte comes first. */
  lemma U16Bits(s: seq<u8>, off: int, i: nat)
    requires In(s, off, 2) && i < 16
    ensures Bit(U16(s, off), i) <==> Bit(s[off + i / 8], i % 8)
  {
    hide Bit, Pow2;
    ByteWidths();
    BitSplit(s[off + 1], s[off], 8, i);
  }

  lemma U32Bits(s: seq<u8>, off: int, i: nat)
    requires In(s, off, 4) && i < 32
    ensures Bit(U32(s, off), i) <==> Bit(s[off + i / 8], i % 8)
  {
    hide Bit, Pow2;
    ByteWidths();
    var low: int, high: int := U16(s, off), U16(s, off + 2);
    assert U32(s, off) == high * 0x1_0000 + low;
    BitSplit(high, low, 16, i);
    if i < 16 {
      U16Bits(s, off, i);
    } else {
      U16Bits(s, off + 2, i - 16);
    }
  }

  const TWO64: int := 0x1_0000_0000_0000_0000

  function LE64(v: u64): (s: seq<u8>)
    ensures |s| == 8
  {
    LE32(v % TWO32) + LE32(v / TWO32)
  }

  function U64(s: seq<u8>, off: int): (v: u64)
    requires In(s, off, 8)
  {
    var lo: int, hi: int := U32(s, off), U32(s, off + 4);
    lo + TWO32 * hi
  }

  lemma LE16RoundTrip(v: u16)
    ensures U16(LE16(v), 0) == v
  {
  }

  lemma LE32RoundTrip(v: u32)
    ensures U32(LE32(v), 0) == v
  {
    assert v == v % 256 + 256 * (v / 256);
    assert v / 256 == v / 256 % 256 + 256 * (v / 0x1_0000);
    assert v / 0x1_0000 == v / 0x1_0000 % 256 + 256 * (v / 0x100_0000);
  }

  lemma LE64RoundTrip(v: u64)
    ensures U64(LE64(v), 0) == v
  {
    var lo: u32, hi: u32 := v % TWO32, v / TWO32;
    LE32RoundTrip(lo);
    LE32RoundTrip(hi);
    assert At(LE64(v), 0, LE32(lo)) && At(LE64(v), 4, LE32(hi));
    AtFields(LE64(v), 0, LE32(lo), 0);
    AtFields(LE64(v), 4, LE32(hi), 0);
  }

  /** UTF-16 units as little-endian bytes. */
  function UnitBytes(units: seq<u16>): (r: seq<u8>)
    ensures |r| == 2 * |units|
  {
    if units == [] then [] else LE16(units[0]) + UnitBytes(units[1..])
  }

  // ----- fields inside a larger byte string -----

  /** `d` stands in `s` at offset `off`. */
  predicate At(s: seq<u8>, off: int, d: seq<u8>)
  {
    In(s, off, |d|) && s[off..off + |d|] == d
  }

  lemma AtByte(s: seq<u8>, off: int, d: seq<u8>, k: nat)
    requires At(s, off, d) && k < |d|
    ensures s[off + k] == d[k]
  {
  }

  lemma AtFields(s: seq<u8>, off: int, d: seq<u8>, k: nat)
    requires At(s, off, d)
    ensures In(s, off, |d|)
    ensures k + 2 <= |d| ==> U16(s, off + k) == U16(d, k)
    ensures k + 4 <= |d| ==> U32(s, off + k) == U32(d, k)
  {
  }

  lemma AtSub(s: seq<u8>, off: int, d: seq<u8>, k: int, e: seq<u8>)
    requires At(s, off, d) && At(d, k, e)
    ensures At(s, off + k, e)
  {
    forall i | 0 <= i < |e| ensures s[off + k + i] == e[i] {
      AtByte(s, off, d, k + i);
      AtByte(d, k, e, i);
    }
  }

  lemma AtSplit(s: seq<u8>, off: int, a: seq<u8>, b: seq<u8>)
    requires At(s, off, a + b)
    ensures At(s, off, a) && At(s, off + |a|, b)
  {
    assert At(a + b, 0, a) && At(a + b, |a|, b);
    AtSub(s, off, a + b, 0, a);
    AtSub(s, off, a + b, |a|, b);
  }

  lemma AtSlice(s: seq<u8>, off: int, d: seq<u8>, i: nat, j: nat)
    requires At(s, off, d) && i <= j <= |d|
    ensures s[off + i..off + j] == d[i..j]
  {
    forall k | i <= k < j ensures s[off + k] == d[k] {
      AtByte(s, off, d, k);
    }
    assert |s[off + i..off + j]| == |d[i..j]|;
    assert forall k | 0 <= k < j - i :: s[off + i..off + j][k] == d[i..j][k];
  }

  // ----- byte strings as Python treats them -----

  function Zeros(n: nat): (z: seq<u8>)
    ensures |z| == n && forall i | 0 <= i < n :: z[i] == 0
  {
    seq(n, i => 0)
  }

  /** `s[lo:hi]` as Python clips it. */
  function Slice(s: seq<u8>, lo: nat, hi: nat): (r: seq<u8>)
  {
    var h := if hi > |s| then |s| else hi;
    if lo >= h then [] else s[lo..h]
  }

  /** `s[off:off + |d|] = d` on a growable byte array. */
  function Put(s: seq<u8>, off: nat, d: seq<u8>): (r: seq<u8>)
  {
    var lo := if off > |s| then |s| else off;
    var hi := if off + |d| > |s| then |s| else off + |d|;
    s[..lo] + d + s[hi..]
  }
}

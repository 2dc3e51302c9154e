/**
 The exFAT rolling checksum: SetChecksum and NameHash
 (rust_kernel/kolibri_utils/src/exfat_checksum.rs).
 */
module ExfatChecksum {
  import opened Words

  /** Rotate right by one. */
  function Ror(sum: u16): (r: u16)
  {
    (if sum % 2 != 0 then 0x8000 else 0) + sum / 2
  }

  /** Rotate right by one and add a byte, in 16 bits. */
  function Roll(sum: u16, byte: u8): (r: u16)
  {
    (Ror(sum) + byte) % 0x1_0000
  }

  /** The two bytes of the SetChecksum field itself. */
  predicate Skipped(skip: bool, i: int)
  {
    skip && (i == 2 || i == 3)
  }

  /** The checksum of the bytes of `data` from `i` on, continued from `sum`. */
  function Rolled(data: seq<u8>, i: nat, sum: u16, skip: bool): (r: u16)
    decreases |data| - i
  {
    if i >= |data| then sum
    else Rolled(data, i + 1, if Skipped(skip, i) then sum else Roll(sum, data[i]), skip)
  }

  function Checksum(data: seq<u8>, skip: bool): (r: u16)
  {
    Rolled(data, 0, 0, skip)
  }

  /** `exFAT_hash_calculate`: the same core without the skipped field. */
  function NameHash(data: seq<u8>): (r: u16)
  {
    Checksum(data, false)
  }

  /** `exfat_rolling_checksum` over the first `len` bytes. */
  method RollingChecksum(data: array<u8>, len: nat, skip: bool) returns (sum: u16)
    requires len <= data.Length
    ensures sum == Checksum(data[..len], skip)
  {
    sum := 0;
    var i := 0;
    while i < len
      invariant 0 <= i <= len
      invariant Rolled(data[..len], i, sum, skip) == Checksum(data[..len], skip)
    {
      if !(skip && (i == 2 || i == 3)) {
        var rotated := if sum % 2 != 0 then 0x8000 else 0;
        var shifted := sum / 2;
        sum := (rotated + shifted + data[i]) % 0x1_0000;
      }
      i := i + 1;
    }
  }

  /** `calculate_set_checksum_field`: compute, then store at offset 2; the stored field verifies. */
  method CalculateSetChecksumField(buf: array<u8>, len: nat) returns (sum: u16)
    requires len <= buf.Length && buf.Length >= 4
    modifies buf
    ensures sum == Checksum(old(buf[..len]), true)
    ensures buf[..] == old(buf[..])[2 := sum % 256][3 := sum / 256]
    ensures Checksum(buf[..len], true) == sum
  {
    sum := RollingChecksum(buf, len, true);
    buf[2], buf[3] := sum % 256, sum / 256;
    SkippedBytesIrrelevant(old(buf[..len]), buf[..len], 0, 0);
  }

  lemma {:induction false} SkippedBytesIrrelevant(a: seq<u8>, b: seq<u8>, i: nat, sum: u16)
    requires |a| == |b| && forall k | 0 <= k < |a| && k != 2 && k != 3 :: a[k] == b[k]
    ensures Rolled(a, i, sum, true) == Rolled(b, i, sum, true)
    decreases |a| - i
  {
    if i < |a| {
      SkippedBytesIrrelevant(a, b, i + 1, if Skipped(true, i) then sum else Roll(sum, a[i]));
    }
  }

  /** Rolling is injective in the sum and in the byte. */
  lemma RollInjective(x: u16, y: u16, a: u8, b: u8)
    ensures Roll(x, a) == Roll(y, a) ==> x == y
    ensures Roll(x, a) == Roll(x, b) ==> a == b
  {
    RorInjective(x, y);
    hide Ror;
    AddInjective(Ror(x), Ror(y), a);
    if Roll(x, a) == Roll(x, b) {
      ByteInjective(Ror(x), a, b);
    }
  }

  lemma RorInjective(x: u16, y: u16)
    ensures Ror(x) == Ror(y) <==> x == y
  {
  }

  lemma AddInjective(x: u16, y: u16, a: u8)
    ensures (x + a) % 0x1_0000 == (y + a) % 0x1_0000 ==> x == y
  {
  }

  lemma ByteInjective(x: u16, a: u8, b: u8)
    ensures (x + a) % 0x1_0000 == (x + b) % 0x1_0000 ==> a == b
  {
  }

  /** Different sums stay different under a common suffix. */
  lemma {:induction false} SuffixInjective(a: seq<u8>, b: seq<u8>, i: nat, x: u16, y: u16, skip: bool)
    requires |a| == |b| && x != y && forall k | i <= k < |a| :: a[k] == b[k]
    ensures Rolled(a, i, x, skip) != Rolled(b, i, y, skip)
    decreases |a| - i
  {
    hide Roll;
    if i < |a| {
      if Skipped(skip, i) {
        SuffixInjective(a, b, i + 1, x, y, skip);
      } else {
        RollInjective(x, y, a[i], a[i]);
        SuffixInjective(a, b, i + 1, Roll(x, a[i]), Roll(y, b[i]), skip);
      }
    }
  }

  lemma {:induction false} OneByteFrom(a: seq<u8>, b: seq<u8>, i: nat, sum: u16, k: nat, skip: bool)
    requires |a| == |b| && i <= k < |a| && a[k] != b[k] && forall j | 0 <= j < |a| && j != k :: a[j] == b[j]
    ensures Rolled(a, i, sum, skip) != Rolled(b, i, sum, skip) <==> !Skipped(skip, k)
    decreases |a| - i
  {
    hide Roll;
    if i < k {
      OneByteFrom(a, b, i + 1, if Skipped(skip, i) then sum else Roll(sum, a[i]), k, skip);
    } else if Skipped(skip, k) {
      SameSuffix(a, b, i + 1, sum, skip);
    } else {
      RollInjective(sum, sum, a[k], b[k]);
      SuffixInjective(a, b, i + 1, Roll(sum, a[k]), Roll(sum, b[k]), skip);
    }
  }

  lemma {:induction false} SameSuffix(a: seq<u8>, b: seq<u8>, i: nat, sum: u16, skip: bool)
    requires |a| == |b| && forall j | i <= j < |a| :: a[j] == b[j]
    ensures Rolled(a, i, sum, skip) == Rolled(b, i, sum, skip)
    decreases |a| - i
  {
    hide Roll;
    if i < |a| {
      SameSuffix(a, b, i + 1, if Skipped(skip, i) then sum else Roll(sum, a[i]), skip);
    }
  }

  /**
   A single changed byte changes the checksum, for every length and position,
   exactly when it is not one of the two skipped bytes.
   */
  lemma OneByteDetected(a: seq<u8>, b: seq<u8>, k: nat, skip: bool)
    requires |a| == |b| && k < |a| && a[k] != b[k] && forall j | 0 <= j < |a| && j != k :: a[j] == b[j]
    ensures Checksum(a, skip) != Checksum(b, skip) <==> !(skip && (k == 2 || k == 3))
  {
    OneByteFrom(a, b, 0, 0, k, skip);
  }

  // ----- what a step is -----

  /** Bit `i` of the rotated sum is bit `i + 1` of the sum, bit 15 its bit 0. */
  lemma RorBits(sum: u16, i: nat)
    requires i < 16
    ensures Bit(Ror(sum), i) <==> Bit(sum, (i + 1) % 16)
  {
    var top, low := sum % 2, sum / 2;
    assert Pow2(15) == 0x8000 by { ByteWidths(); }
    assert Ror(sum) == top * 0x8000 + low;
    BitSplit(top, low, 15, i);
    if i == 15 {
      assert Bit(top, 0) <==> Bit(sum, 0);
    } else {
      assert Bit(low, i) <==> Bit(sum, i + 1);
    }
  }

  lemma {:induction false} RolledOne(data: seq<u8>, b: u8, i: nat, sum: u16, skip: bool)
    requires i <= |data|
    ensures var s := Rolled(data, i, sum, skip);
            Rolled(data + [b], i, sum, skip) == if Skipped(skip, |data|) then s else Roll(s, b)
    decreases |data| - i
  {
    hide Roll;
    if i < |data| {
      RolledOne(data, b, i + 1, if Skipped(skip, i) then sum else Roll(sum, data[i]), skip);
    } else {
      assert (data + [b])[i] == b;
    }
  }

  /** `r` is `sum` with every bit moved one place down, the lowest to the top. */
  ghost predicate Rotation(r: u16, sum: u16)
  {
    forall i: nat | i < 16 :: Bit(r, i) <==> Bit(sum, (i + 1) % 16)
  }

  lemma RorIsRotation(r: u16, sum: u16)
    ensures Rotation(r, sum) <==> r == Ror(sum)
  {
    hide Bit, Ror;
    forall i: nat | i < 16 ensures Bit(Ror(sum), i) <==> Bit(sum, (i + 1) % 16) {
      RorBits(sum, i);
    }
    ByteWidths();
    if Rotation(r, sum) {
      SameBits(r, Ror(sum), 16);
    }
  }

  /**
   The checksum by one more byte: it starts at zero; a byte of the stored field leaves it; any
   other is added, modulo 2^16, to the checksum so far with its bits rotated.
   */
  lemma ChecksumStep(data: seq<u8>, b: u8, skip: bool, rotated: u16)
    requires Rotation(rotated, Checksum(data, skip))
    ensures Checksum([], skip) == 0
    ensures Checksum(data + [b], skip)
            == if skip && (|data| == 2 || |data| == 3) then Checksum(data, skip) else (rotated + b) % 0x1_0000
  {
    hide Rotation, Ror;
    RolledOne(data, b, 0, 0, skip);
    RorIsRotation(rotated, Checksum(data, skip));
  }

  // ----- swapped bytes -----

  lemma {:induction false} RolledTo(a: seq<u8>, b: seq<u8>, i: nat, sum: u16, skip: bool)
    requires i <= |a|
    ensures Rolled(a + b, i, sum, skip) == Rolled(a + b, |a|, Rolled(a, i, sum, skip), skip)
    decreases |a| - i
  {
    hide Roll;
    if i < |a| {
      RolledTo(a, b, i + 1, if Skipped(skip, i) then sum else Roll(sum, a[i]), skip);
    }
  }

  /** Rotating and subtracting tells all words apart but zero and all ones. */
  lemma RorDrift(x: u16, y: u16)
    requires x != y
    ensures (Ror(x) + y) % 0x1_0000 == (Ror(y) + x) % 0x1_0000
            <==> (x == 0 && y == 0xFFFF) || (x == 0xFFFF && y == 0)
  {
  }

  /** The two bytes in the other order. */
  lemma SwapStep(t: u16, a: u8, b: u8)
    requires a != b
    ensures Roll((t + a) % 0x1_0000, b) == Roll((t + b) % 0x1_0000, a)
            <==> (a == b + 1 && t + b == 0xFFFF) || (b == a + 1 && t + a == 0xFFFF)
  {
    var x, y := (t + a) % 0x1_0000, (t + b) % 0x1_0000;
    assert x != y by { ByteInjective(t, a, b); }
    RorDrift(x, y);
    hide Ror;
    SwapSum(t, Ror(x), Ror(y), a, b);
    SwapCase(t, a, b);
  }

  lemma SwapSum(t: u16, p: u16, q: u16, a: u8, b: u8)
    ensures (p + b) % 0x1_0000 == (q + a) % 0x1_0000
            <==> (p + (t + b) % 0x1_0000) % 0x1_0000 == (q + (t + a) % 0x1_0000) % 0x1_0000
  {
    Absorb(p, t + b);
    Absorb(q, t + a);
    Shift(p + b, q + a, t);
  }

  lemma Absorb(p: nat, u: nat)
    ensures (p + u % 0x1_0000) % 0x1_0000 == (p + u) % 0x1_0000
  {
  }

  lemma Shift(x: nat, y: nat, t: nat)
    ensures (x + t) % 0x1_0000 == (y + t) % 0x1_0000 <==> x % 0x1_0000 == y % 0x1_0000
  {
    var d := (x + t) / 0x1_0000 - (y + t) / 0x1_0000;
    if (x + t) % 0x1_0000 == (y + t) % 0x1_0000 {
      assert x == y + 0x1_0000 * d;
    }
  }

  lemma SwapCase(t: u16, a: u8, b: u8)
    requires a != b
    ensures var x, y := (t + a) % 0x1_0000, (t + b) % 0x1_0000;
            (x == 0 && y == 0xFFFF) || (x == 0xFFFF && y == 0)
            <==> (a == b + 1 && t + b == 0xFFFF) || (b == a + 1 && t + a == 0xFFFF)
  {
  }

  /**
   Two different neighbouring bytes swapped, neither in the stored field, change the checksum
   unless they differ by one and the smaller brings the sum to all ones.
   */
  lemma SwapDetected(pre: seq<u8>, a: u8, b: u8, post: seq<u8>, skip: bool)
    requires a != b && !(skip && 1 <= |pre| <= 3)
    ensures Checksum(pre + [a, b] + post, skip) == Checksum(pre + [b, a] + post, skip)
            <==> (a == b + 1 && Checksum(pre + [b], skip) == 0xFFFF)
                 || (b == a + 1 && Checksum(pre + [a], skip) == 0xFFFF)
  {
    hide Roll;
    var s := Checksum(pre, skip);
    PairRolled(pre, a, b, post, skip);
    PairRolled(pre, b, a, post, skip);
    RolledOne(pre, a, 0, 0, skip);
    RolledOne(pre, b, 0, 0, skip);
    var x, y := Roll(Roll(s, a), b), Roll(Roll(s, b), a);
    var u, v := pre + [a, b] + post, pre + [b, a] + post;
    if x != y {
      SuffixInjective(u, v, |pre| + 2, x, y, skip);
    } else {
      SameSuffix(u, v, |pre| + 2, x, skip);
    }
    PairCase(s, a, b);
  }

  lemma PairRolled(pre: seq<u8>, a: u8, b: u8, post: seq<u8>, skip: bool)
    requires !(skip && 1 <= |pre| <= 3)
    ensures Checksum(pre + [a, b] + post, skip)
            == Rolled(pre + [a, b] + post, |pre| + 2, Roll(Roll(Checksum(pre, skip), a), b), skip)
  {
    hide Roll;
    var u := pre + [a, b] + post;
    assert u == pre + ([a, b] + post);
    RolledTo(pre, [a, b] + post, 0, 0, skip);
    assert u[|pre|] == a && u[|pre| + 1] == b;
    var s := Checksum(pre, skip);
    assert Rolled(u, |pre|, s, skip) == Rolled(u, |pre| + 1, Roll(s, a), skip);
  }

  lemma PairCase(s: u16, a: u8, b: u8)
    requires a != b
    ensures Roll(Roll(s, a), b) == Roll(Roll(s, b), a)
            <==> (a == b + 1 && Roll(s, b) == 0xFFFF) || (b == a + 1 && Roll(s, a) == 0xFFFF)
  {
    hide Ror;
    var t := Ror(s);
    SwapStep(t, a, b);
    AllOnes(t, a);
    AllOnes(t, b);
  }

  lemma AllOnes(t: u16, a: u8)
    ensures (t + a) % 0x1_0000 == 0xFFFF <==> t + a == 0xFFFF
  {
  }
}

/**
 The Internet checksum: the kernel's byte-wise `add`/`adc` pipeline
 (rust_kernel/kolibri_utils/src/checksum.rs) and the unbounded RFC 1071 sum of
 the capture tool (scripts/net_capture.py).
 */
module InetChecksum {
  import opened Words

  // ----- the one's-complement sum -----

  /** Sum of the big-endian 16-bit words of `data`, an odd tail padded with a zero byte. */
  function WordSum(data: seq<u8>): (t: nat)
  {
    if |data| == 0 then 0
    else if |data| == 1 then Word(data[0], 0)
    else Word(data[0], data[1]) + WordSum(data[2..])
  }

  function Word(hi: u8, lo: u8): (w: u16)
  {
    var h: int, l: int := hi, lo;
    256 * h + l
  }

  /** The sum by one more byte: a byte at an even place counts 256 times, at an odd place once. */
  lemma {:induction false} WordSumByByte(data: seq<u8>, b: u8)
    ensures WordSum([]) == 0
    ensures WordSum(data + [b]) == WordSum(data) + if |data| % 2 == 0 then 256 * (b as int) else b
  {
    var all := data + [b];
    if |data| == 1 {
      assert all[2..] == [];
    } else if |data| >= 2 {
      assert all[2..] == data[2..] + [b];
      WordSumByByte(data[2..], b);
    }
  }

  /** The end-around-carry residue: zero only for zero, otherwise in 1..65535. */
  function Fold(t: nat): (f: u16)
  {
    if t == 0 then 0 else 1 + (t - 1) % 65535
  }

  /** Adding a word and bringing its carry around. */
  lemma FoldStep(t: nat, w: nat)
    requires w <= 65535
    ensures Fold(t + w) == if Fold(t) + w <= 65535 then Fold(t) + w else Fold(t) + w - 65535
  {
  }

  lemma FoldFixed(t: nat)
    requires t <= 65535
    ensures Fold(t) == t
  {
  }

  /** Folding is a congruence modulo 65535. */
  lemma FoldMod(t: nat)
    ensures Fold(t) % 65535 == t % 65535
    ensures Fold(t) == 0 <==> t == 0
  {
  }

  // ----- checksum_1 -----

  function Flag(b: bool): (n: int)
  {
    if b then 1 else 0
  }

  /** `add dl, byte` / `adc dl, byte`: the new sum and the carry. */
  function AddDl(sum: u32, byte: u8, cf: bool): (r: (u32, bool))
  {
    var t := sum % 256 + byte + Flag(cf);
    (sum - sum % 256 + t % 256, t > 0xFF)
  }

  /** `adc dh, byte`. */
  function AdcDh(sum: u32, byte: u8, cf: bool): (r: (u32, bool))
  {
    var dh := sum / 256 % 256;
    var t := dh + byte + Flag(cf);
    (sum - dh * 256 + t % 256 * 256, t > 0xFF)
  }

  /** `adc edx, 0`. */
  function AdcEdx(sum: u32, cf: bool): (r: (u32, bool))
  {
    if !cf then (sum, false) else (Wrap32(sum + 1), sum + 1 >= TWO32)
  }

  /** The two byte additions of one network-order word. */
  function AddWord(sum: u32, hi: u8, lo: u8, cf: bool): (r: (u32, bool))
  {
    var (s, c) := AddDl(sum, lo, cf);
    AdcDh(s, hi, c)
  }

  /** EDX from its upper half, DH and DL. */
  function Edx(top: u16, dh: u8, dl: u8): (r: u32)
    ensures r % 256 == dl && r / 256 % 256 == dh && r / 0x1_0000 == top && r % 0x1_0000 == Word(dh, dl)
  {
    top * 0x1_0000 + dh * 256 + dl
  }

  lemma EdxParts(sum: u32)
    ensures sum == Edx(sum / 0x1_0000, sum / 256 % 256, sum % 256)
  {
    var q := sum / 256;
    assert sum / 0x1_0000 == q / 256;
    assert q == q / 256 * 256 + q % 256;
  }

  /** The byte additions on a register given by its parts. */
  lemma AddWordParts(top: u16, dh: u8, dl: u8, hi: u8, lo: u8, cf: bool)
    ensures var tl := dl + lo + Flag(cf); var th := dh + hi + Flag(tl > 0xFF);
            AddWord(Edx(top, dh, dl), hi, lo, cf) == (Edx(top, th % 256, tl % 256), th > 0xFF)
  {
    var tl := dl + lo + Flag(cf);
    assert AddDl(Edx(top, dh, dl), lo, cf) == (Edx(top, dh, tl % 256), tl > 0xFF);
    hide AddDl;
    var th := dh + hi + Flag(tl > 0xFF);
    assert AdcDh(Edx(top, dh, tl % 256), hi, tl > 0xFF) == (Edx(top, th % 256, tl % 256), th > 0xFF);
  }

  /** Two byte additions with carry are one 16-bit addition with carry. */
  lemma TwoBytes(dh: u8, dl: u8, hi: u8, lo: u8, cf: bool)
    ensures var tl := dl + lo + Flag(cf); var th := dh + hi + Flag(tl > 0xFF);
            var t := Word(dh, dl) + Word(hi, lo) + Flag(cf);
            Word(th % 256, tl % 256) == t % 0x1_0000 && (th > 0xFF <==> t >= 0x1_0000)
  {
    var tl := dl + lo + Flag(cf);
    var th := dh + hi + Flag(tl > 0xFF);
    assert tl % 256 == tl - 256 * Flag(tl > 0xFF);
    assert th % 256 == th - 256 * Flag(th > 0xFF);
  }

  /** The byte pair is one 16-bit addition with carry; the upper half never moves. */
  lemma AddWordIs16Bit(sum: u32, hi: u8, lo: u8, cf: bool)
    ensures var (s, c) := AddWord(sum, hi, lo, cf); var t := sum % 0x1_0000 + Word(hi, lo) + Flag(cf);
            s % 0x1_0000 == t % 0x1_0000 && s / 0x1_0000 == sum / 0x1_0000 && (c <==> t >= 0x1_0000)
  {
    hide AddWord, Edx, Word;
    EdxParts(sum);
    AddWordParts(sum / 0x1_0000, sum / 256 % 256, sum % 256, hi, lo, cf);
    TwoBytes(sum / 256 % 256, sum % 256, hi, lo, cf);
  }

  /** A sum with a pending carry stands for the folded total `t`, over the seed's upper half. */
  predicate Pending(sum: u32, cf: bool, top: nat, t: nat)
  {
    sum / 0x1_0000 == top && sum % 0x1_0000 + Flag(cf) == Fold(t)
  }

  lemma WordStep(sum: u32, cf: bool, top: nat, t: nat, hi: u8, lo: u8)
    requires Pending(sum, cf, top, t)
    ensures var (s, c) := AddWord(sum, hi, lo, cf); Pending(s, c, top, t + Word(hi, lo))
  {
    hide AddWord, Fold;
    AddWordIs16Bit(sum, hi, lo, cf);
    FoldStep(t, Word(hi, lo));
  }

  /** The closing `adc edx, 0` absorbs the carry inside the lower half: it never overflows into the upper. */
  lemma CarryAbsorbed(sum: u32, cf: bool, top: nat, t: nat)
    requires Pending(sum, cf, top, t)
    ensures var (s, c) := AdcEdx(sum, cf); Pending(s, c, top, t) && !c
  {
  }

  /** The word at `p` leads the rest of the sum. */
  lemma NextWord(data: seq<u8>, p: nat)
    requires p + 2 <= |data|
    ensures WordSum(data[p..]) == Word(data[p], data[p + 1]) + WordSum(data[p + 2..])
  {
  }

  lemma EmptySum()
    ensures WordSum([]) == 0
  {
  }

  lemma LastByte(data: seq<u8>, p: nat)
    requires p + 1 == |data|
    ensures WordSum(data[p..]) == Word(data[p], 0)
  {
  }

  /** `n` words from `p` on through one unbroken carry chain, closed by `adc edx, 0`. */
  method AddWords(sumIn: u32, data: seq<u8>, p: nat, n: nat, ghost top: nat, ghost t: nat)
    returns (sum: u32, cf: bool, ghost t': nat)
    requires p + 2 * n <= |data|
    requires Pending(sumIn, false, top, t)
    ensures Pending(sum, false, top, t') && !cf
    ensures t' + WordSum(data[p + 2 * n..]) == t + WordSum(data[p..])
  {
    hide Pending, AddWord, AdcEdx, WordSum, Word;
    sum, cf, t' := sumIn, false, t;
    for k := 0 to n
      invariant Pending(sum, cf, top, t')
      invariant t' + WordSum(data[p + 2 * k..]) == t + WordSum(data[p..])
    {
      var q := p + 2 * k;
      WordStep(sum, cf, top, t', data[q], data[q + 1]);
      NextWord(data, q);
      t' := t' + Word(data[q], data[q + 1]);
      var r := AddWord(sum, data[q], data[q + 1], cf);
      sum, cf := r.0, r.1;
    }
    CarryAbsorbed(sum, cf, top, t');
    var r := AdcEdx(sum, cf);
    sum, cf := r.0, r.1;
  }

  /** A word with a zero low byte only touches DH. */
  lemma OddByte(sum: u32, byte: u8)
    ensures var dh := sum / 256 % 256; var th := dh + byte;
            AddWord(sum, byte, 0, false) == (sum - dh * 256 + th % 256 * 256, th > 0xFF)
  {
  }

  /** The odd trailing byte: `add dh, byte` / `adc edx, 0`. */
  method FinishOdd(sumIn: u32, data: seq<u8>, p: nat, doIt: bool, ghost top: nat, ghost t: nat)
    returns (sum: u32)
    requires Pending(sumIn, false, top, t)
    requires p <= |data| && |data| == p + if doIt then 1 else 0
    ensures Pending(sum, false, top, t + WordSum(data[p..]))
  {
    hide Pending, AddWord, AdcEdx;
    if !doIt {
      return sumIn;
    }
    var dh := sumIn / 256 % 256;
    var th := dh + data[p];
    sum := sumIn - dh * 256 + th % 256 * 256;
    OddByte(sumIn, data[p]);
    WordStep(sumIn, false, top, t, data[p], 0);
    CarryAbsorbed(sum, th > 0xFF, top, t + Word(data[p], 0));
    var r := AdcEdx(sum, th > 0xFF);
    sum := r.0;
  }

  /** The partial sum of RFC 1071 over `data`, continued from `seed`: its upper half is kept. */
  function Partial(seed: u32, data: seq<u8>): (r: u32)
  {
    seed - seed % 0x1_0000 + Fold(seed % 0x1_0000 + WordSum(data))
  }

  /** `checksum_1`. */
  method Checksum1(seed: u32, data: seq<u8>) returns (sum: u32)
    ensures sum == Partial(seed, data)
  {
    hide AddWord, AdcEdx, WordSum, Fold;
    ghost var top: nat, t: nat := seed / 0x1_0000, seed % 0x1_0000;
    FoldFixed(t);
    sum := seed;
    var ptr, len := 0, |data|;
    assert data[0..] == data;
    var cfOdd, words := len % 2 != 0, len / 2;
    if words == 0 {
      sum := FinishOdd(sum, data, ptr, cfOdd, top, t);
      return;
    }
    var cf2, dwords := words % 2 != 0, words / 2;
    var cf;
    if dwords != 0 {
      var cf4, qwords := dwords % 2 != 0, dwords / 2;
      if qwords != 0 {
        var ecx := qwords;
        cf := false;
        while ecx != 0
          invariant 0 <= ptr <= |data| && ptr + 8 * ecx == 8 * qwords
          invariant Pending(sum, false, top, t) && !cf
          invariant t + WordSum(data[ptr..]) == seed % 0x1_0000 + WordSum(data)
          decreases ecx
        {
          sum, cf, t := AddWords(sum, data, ptr, 4, top, t);
          ptr, ecx := ptr + 8, ecx - 1;
        }
        CarryAbsorbed(sum, cf, top, t);
        var r := AdcEdx(sum, cf);
        sum := r.0;
      }
      if cf4 {
        sum, cf, t := AddWords(sum, data, ptr, 2, top, t);
        ptr := ptr + 4;
      }
    }
    if cf2 {
      sum, cf, t := AddWords(sum, data, ptr, 1, top, t);
      ptr := ptr + 2;
    }
    sum := FinishOdd(sum, data, ptr, cfOdd, top, t);
  }

  /** Continuing the sum after an even prefix is summing at once. */
  lemma {:induction false} WordSumSplit(data: seq<u8>, i: nat)
    requires i <= |data| && i % 2 == 0
    ensures WordSum(data) == WordSum(data[..i]) + WordSum(data[i..])
    decreases i
  {
    if i == 0 {
      assert data[0..] == data;
    } else {
      WordSumSplit(data[2..], i - 2);
      assert data[2..][..i - 2] == data[..i][2..];
      assert data[2..][i - 2..] == data[i..];
    }
  }

  lemma PartialSplit(seed: u32, data: seq<u8>, i: nat)
    requires i <= |data| && i % 2 == 0
    ensures Partial(seed, data) == Partial(Partial(seed, data[..i]), data[i..])
  {
    hide Fold, WordSum;
    WordSumSplit(data, i);
    var low, a, b := seed % 0x1_0000, WordSum(data[..i]), WordSum(data[i..]);
    assert Partial(seed, data[..i]) % 0x1_0000 == Fold(low + a);
    FoldSplit(low + a, b);
  }

  lemma FoldSplit(a: nat, b: nat)
    ensures Fold(Fold(a) + b) == Fold(a + b)
  {
  }

  // ----- checksum_2 -----

  /** `checksum_2`: fold twice, complement, the zero quirk, then swap the bytes. */
  function Checksum2(sum: u32): (r: u16)
  {
    var edx := sum % 0x1_0000 + sum / 0x1_0000;
    var dx := (edx % 0x1_0000 + edx / 0x1_0000) % 0x1_0000;
    Swap(if dx == 0 then 0xFFFE else 0xFFFF - dx)
  }

  function Swap(w: u16): (r: u16)
    ensures r % 256 == w / 256 && r / 256 == w % 256
  {
    w % 256 * 256 + w / 256
  }

  /** The folded value `checksum_2` complements is the residue of both halves together. */
  lemma Checksum2Folds(sum: u32)
    ensures var f := Fold(sum / 0x1_0000 + sum % 0x1_0000);
            Checksum2(sum) == Swap(if f == 0 then 0xFFFE else 0xFFFF - f)
  {
    hide Fold, Swap;
    FoldTwice(sum % 0x1_0000 + sum / 0x1_0000);
  }

  lemma FoldTwice(t: nat)
    requires t <= 2 * 65535
    ensures Fold(t) == (t % 0x1_0000 + t / 0x1_0000) % 0x1_0000
  {
  }

  /** Everything the pipeline sums: both halves of the seed and the words. */
  function Total(seed: u32, data: seq<u8>): (t: nat)
  {
    seed / 0x1_0000 + seed % 0x1_0000 + WordSum(data)
  }

  function Pipeline(seed: u32, data: seq<u8>): (r: u16)
  {
    Checksum2(Partial(seed, data))
  }

  /** The pipeline is the complemented residue of the total, with the zero quirk, bytes swapped. */
  lemma PipelineTotal(seed: u32, data: seq<u8>)
    ensures var f := Fold(Total(seed, data));
            Pipeline(seed, data) == Swap(if f == 0 then 0xFFFE else 0xFFFF - f)
  {
    hide Checksum2, WordSum;
    var p := Partial(seed, data);
    var low := seed % 0x1_0000 + WordSum(data);
    Checksum2Folds(p);
    assert p / 0x1_0000 == seed / 0x1_0000 && p % 0x1_0000 == Fold(low);
    FoldSplit(low, seed / 0x1_0000);
  }

  /** Zero exactly when the total is a positive multiple of 65535. */
  lemma PipelineZero(seed: u32, data: seq<u8>)
    ensures Pipeline(seed, data) == 0 <==> Total(seed, data) > 0 && Total(seed, data) % 65535 == 0
  {
    hide Pipeline, Total;
    PipelineTotal(seed, data);
    FoldMod(Total(seed, data));
  }

  // ----- storing the checksum -----

  /** `data` with the bytes `lo`, `hi` stored at `off` and `off + 1`. */
  function PutPair(data: seq<u8>, off: nat, first: u8, second: u8): (r: seq<u8>)
    requires off + 2 <= |data|
    ensures |r| == |data|
  {
    data[off := first][off + 1 := second]
  }

  /** A word stored over a zero word at an even offset is added to the sum. */
  lemma {:induction false} PutPairSum(data: seq<u8>, off: nat, first: u8, second: u8)
    requires off + 2 <= |data| && off % 2 == 0 && data[off] == 0 && data[off + 1] == 0
    ensures WordSum(PutPair(data, off, first, second)) == WordSum(data) + Word(first, second)
    decreases off
  {
    var r := PutPair(data, off, first, second);
    if off == 0 {
      assert r[2..] == data[2..];
    } else {
      PutPairSum(data[2..], off - 2, first, second);
      assert r[2..] == PutPair(data[2..], off - 2, first, second);
    }
  }

  /**
   A packet that carries its own checksum, low byte first, over a zeroed field
   at an even offset checks to zero; the all-zero seed and packet are the only
   exception.
   */
  lemma StoredChecksumVerifies(seed: u32, data: seq<u8>, off: nat)
    requires off + 2 <= |data| && off % 2 == 0 && data[off] == 0 && data[off + 1] == 0
    ensures var c := Pipeline(seed, data);
            Pipeline(seed, PutPair(data, off, c % 256, c / 256)) == 0 <==> !(seed == 0 && AllZero(data))
  {
    hide Pipeline, PutPair, AllZero, WordSum;
    var c := Pipeline(seed, data);
    var r := PutPair(data, off, c % 256, c / 256);
    var t := Total(seed, data);
    PutPairSum(data, off, c % 256, c / 256);
    PipelineTotal(seed, data);
    var w := if Fold(t) == 0 then 0xFFFE else 0xFFFF - Fold(t);
    assert c == Swap(w);
    assert Word(c % 256, c / 256) == w;
    assert Total(seed, r) == t + w;
    PipelineZero(seed, r);
    FoldMod(t);
    ZeroTotal(data);
    Complement(t, w);
  }

  lemma Complement(t: nat, w: nat)
    requires w == if Fold(t) == 0 then 0xFFFE else 0xFFFF - Fold(t)
    ensures t + w > 0 && (t + w) % 65535 == 0 <==> t != 0
  {
  }

  predicate AllZero(data: seq<u8>)
  {
    forall i | 0 <= i < |data| :: data[i] == 0
  }

  lemma {:induction false} ZeroTotal(data: seq<u8>)
    ensures WordSum(data) == 0 <==> AllZero(data)
  {
    if |data| >= 2 {
      ZeroTotal(data[2..]);
      assert AllZero(data) <==> data[0] == 0 && data[1] == 0 && AllZero(data[2..]) by {
        if data[0] == 0 && data[1] == 0 && AllZero(data[2..]) {
          forall i | 0 <= i < |data| ensures data[i] == 0 {
            if i >= 2 {
              assert data[i] == data[2..][i - 2];
            }
          }
        }
      }
    }
  }

  // ----- the capture tool's checksum -----

  /** The words of `data` with the checksum field, when it starts at an even offset, read as zero. */
  function ZeroField(data: seq<u8>, field: Option<nat>): (r: seq<u8>)
    ensures |r| == |data|
  {
    seq(|data|, i requires 0 <= i < |data| =>
      if field.Some? && field.value == i - i % 2 then 0 else data[i])
  }

  /** The complemented residue, never zero. */
  function Rfc1071(data: seq<u8>, field: Option<nat>): (c: u16)
  {
    var f := Fold(WordSum(ZeroField(data, field)));
    if f == 65535 then 0xFFFF else 0xFFFF - f
  }

  /** `rfc1071_checksum`: an unbounded sum folded until it fits. */
  method Rfc1071Checksum(data: seq<u8>, field: Option<nat>) returns (csum: u16)
    ensures csum == Rfc1071(data, field)
  {
    hide Fold, WordSum, Word;
    var total, i, n := 0, 0, |data|;
    ghost var z := ZeroField(data, field);
    assert z[0..] == z;
    while i + 1 < n
      invariant 0 <= i <= n && i % 2 == 0 && total >= 0
      invariant total + WordSum(z[i..]) == WordSum(z)
    {
      var hi: u8 := if field == Some(i) then 0 else data[i];
      var lo: u8 := if field == Some(i) then 0 else data[i + 1];
      NextWord(z, i);
      assert z[i] == hi && z[i + 1] == lo;
      total := total + Word(hi, lo);
      i := i + 2;
    }
    if i < n {
      var b: u8 := if field == Some(i) then 0 else data[i];
      LastByte(z, i);
      total := total + Word(b, 0);
    }
    ghost var sum := WordSum(z);
    assert total == sum by { assert i == n ==> z[i..] == []; EmptySum(); }
    while total / 0x1_0000 != 0
      invariant total >= 0 && Fold(total) == Fold(sum)
      decreases total
    {
      FoldOnce(total);
      total := total % 0x1_0000 + total / 0x1_0000;
    }
    FoldFixed(total);
    csum := 0xFFFF - total;
    if csum == 0 {
      csum := 0xFFFF;
    }
  }

  /** One folding step keeps the residue and shrinks the total. */
  lemma FoldOnce(t: nat)
    requires t >= 0x1_0000
    ensures var u := t % 0x1_0000 + t / 0x1_0000; u < t && Fold(u) == Fold(t)
  {
  }

  lemma NoField(data: seq<u8>)
    ensures ZeroField(data, None) == data
  {
  }

  /** The tool and the kernel agree exactly on the inputs whose word total is no multiple of 65535. */
  lemma ToolAgreesWithKernel(data: seq<u8>)
    ensures Rfc1071(data, None) == Swap(Pipeline(0, data)) <==> WordSum(data) % 65535 != 0
  {
    hide Pipeline, WordSum;
    NoField(data);
    PipelineTotal(0, data);
    FoldMod(WordSum(data));
    var f := Fold(WordSum(data));
    SwapTwice(if f == 0 then 0xFFFE else 0xFFFF - f);
  }

  lemma SwapTwice(w: u16)
    ensures Swap(Swap(w)) == w
  {
  }

  /** `ipv4_header_checksum_ok`. */
  predicate HeaderChecksumOk(header: seq<u8>)
  {
    |header| >= 20 &&
    var ihl := header[0] % 16 * 4;
    ihl >= 20 && |header| >= ihl && Rfc1071(header[..ihl], Some(10)) == Word(header[10], header[11])
  }

  /** The header fields, with the checksum field still zero. */
  method FillHeader(ttl: int, protocol: int, sourceIp: int, destIp: int, total: u16) returns (a: array<u8>)
    ensures fresh(a) && a.Length == 20 && a[0] == 0x45 && a[8] == ttl % 256 && a[9] == protocol % 256
    ensures a[2] == total / 256 && a[3] == total % 256 && a[1] == 0 && a[4..8] == [0, 0, 0, 0]
    ensures a[12..16] == LE32(Wrap32(sourceIp)) && a[16..20] == LE32(Wrap32(destIp))
    ensures a[10] == 0 && a[11] == 0
  {
    hide LE32, Wrap32, Word;
    a := new u8[20](i => 0);
    a[0] := 0x45;
    a[2], a[3] := total / 256, total % 256;
    a[8] := ttl % 256;
    a[9] := protocol % 256;
    StoreDword(a, 12, Wrap32(sourceIp));
    ghost var src := a[12..16];
    StoreDword(a, 16, Wrap32(destIp));
    assert a[12..16] == src;
  }

  /** Four bytes, least significant first. */
  method StoreDword(a: array<u8>, at: nat, v: u32)
    requires at + 4 <= a.Length
    modifies a
    ensures a[at..at + 4] == LE32(v)
    ensures forall i | 0 <= i < a.Length && !(at <= i < at + 4) :: a[i] == old(a[i])
  {
    hide LE32;
    var b := LE32(v);
    a[at], a[at + 1], a[at + 2], a[at + 3] := b[0], b[1], b[2], b[3];
    assert a[at..at + 4] == b;
  }

  /** A twenty-byte header with these fields that passes the tool's check and the kernel's. */
  ghost predicate GoodHeader(h: seq<u8>, ttl: int, protocol: int, sourceIp: int, destIp: int, total: int)
  {
    && |h| == 20 && h[0] == 0x45 && h[8] == ttl % 256 && h[9] == protocol % 256
    && h[2] == total / 256 && h[3] == total % 256 && h[1] == 0 && h[4..8] == [0, 0, 0, 0]
    && h[12..16] == LE32(Wrap32(sourceIp)) && h[16..20] == LE32(Wrap32(destIp))
    && HeaderChecksumOk(h) && Pipeline(0, h) == 0
  }

  /** `build_ipv4_header`: the length field is clamped above; a negative total raises. */
  method BuildIpv4Header(ttl: int, protocol: int, sourceIp: int, destIp: int, payloadLen: int)
    returns (r: Option<seq<u8>>)
    ensures r.None? <==> payloadLen + 20 < 0
    ensures r.Some? ==> GoodHeader(r.value, ttl, protocol, sourceIp, destIp,
                                   if payloadLen + 20 <= 65535 then payloadLen + 20 else 65535)
  {
    hide Pipeline, Rfc1071, HeaderChecksumOk, LE32, Wrap32, Word;
    var total := if payloadLen + 20 <= 65535 then payloadLen + 20 else 65535;
    if total < 0 {
      return None;
    }
    var a := FillHeader(ttl, protocol, sourceIp, destIp, total);
    ghost var blank := a[..];
    var csum := Rfc1071Checksum(a[..], Some(10));
    a[10], a[11] := csum / 256, csum % 256;
    var h := a[..];
    assert h == PutPair(blank, 10, csum / 256, csum % 256);
    assert h[4..8] == blank[4..8] && h[12..16] == blank[12..16] && h[16..20] == blank[16..20];
    HeaderPassesTool(blank, csum);
    HeaderPassesKernel(blank, csum);
    return Some(h);
  }

  lemma FieldReadsAsZero(blank: seq<u8>, off: nat, first: u8, second: u8)
    requires off + 2 <= |blank| && off % 2 == 0 && blank[off] == 0 && blank[off + 1] == 0
    ensures ZeroField(PutPair(blank, off, first, second), Some(off)) == blank == ZeroField(blank, Some(off))
  {
  }

  /** A header with the tool's checksum in its zeroed field satisfies the tool's own check. */
  lemma HeaderPassesTool(blank: seq<u8>, csum: u16)
    requires |blank| == 20 && blank[0] == 0x45 && blank[10] == 0 && blank[11] == 0
    requires csum == Rfc1071(blank, Some(10))
    ensures HeaderChecksumOk(PutPair(blank, 10, csum / 256, csum % 256))
  {
    hide ZeroField, WordSum;
    var h := PutPair(blank, 10, csum / 256, csum % 256);
    FieldReadsAsZero(blank, 10, csum / 256, csum % 256);
    assert h[..20] == h;
    assert Word(csum / 256, csum % 256) == csum;
  }

  /** A non-zero header with the tool's checksum in its zeroed field checks to zero in the kernel. */
  lemma HeaderPassesKernel(blank: seq<u8>, csum: u16)
    requires |blank| == 20 && blank[0] == 0x45 && blank[10] == 0 && blank[11] == 0
    requires csum == Rfc1071(blank, Some(10))
    ensures Pipeline(0, PutPair(blank, 10, csum / 256, csum % 256)) == 0
  {
    hide Pipeline, WordSum, PutPair, ZeroField;
    FieldReadsAsZero(blank, 10, csum / 256, csum % 256);
    PutPairSum(blank, 10, csum / 256, csum % 256);
    assert Word(csum / 256, csum % 256) == csum;
    PipelineZero(0, PutPair(blank, 10, csum / 256, csum % 256));
    ZeroTotal(blank);
    ComplementRfc(WordSum(blank), csum);
  }

  lemma ComplementRfc(t: nat, c: u16)
    requires t > 0 && c == if Fold(t) == 65535 then 0xFFFF else 0xFFFF - Fold(t)
    ensures (t + c) % 65535 == 0
  {
  }
}

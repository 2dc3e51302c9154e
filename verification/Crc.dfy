/**
 The bit-oriented CRC (rust_kernel/kolibri_utils/src/crc.rs) and the
 polynomials over GF(2) that explain it.

 A polynomial is the list of its coefficients, highest degree first. The
 register is reflected: its bit 0 is the coefficient of x^31.
 */
module Crc {

  type Poly = seq<bool>

  // ----- arithmetic of coefficient lists -----

  function Zeros(n: nat): (r: Poly)
    ensures |r| == n && forall i | 0 <= i < n :: !r[i]
  {
    seq(n, i => false)
  }

  /** Sum of two polynomials written with the same number of coefficients. */
  function Xor(a: Poly, b: Poly): (r: Poly)
    requires |a| == |b|
    ensures |r| == |a| && forall i | 0 <= i < |a| :: r[i] == (a[i] != b[i])
  {
    seq(|a|, i requires 0 <= i < |a| => a[i] != b[i])
  }

  lemma XorConcat(a: Poly, b: Poly, c: Poly, d: Poly)
    requires |a| == |c| && |b| == |d|
    ensures Xor(a + b, c + d) == Xor(a, c) + Xor(b, d)
  {
  }

  /** `p` times the power of x that brings it to `n` coefficients. */
  function Raised(p: Poly, n: nat): (r: Poly)
    requires |p| <= n
    ensures |r| == n
  {
    p + Zeros(n - |p|)
  }

  predicate Monic(p: Poly)
  {
    |p| > 0 && p[0]
  }

  /** One step of long division: the leading coefficient is cancelled and dropped. */
  function Reduce(v: Poly, p: Poly): (r: Poly)
    requires Monic(p) && |v| >= |p|
    ensures |r| == |v| - 1
  {
    (if v[0] then Xor(v, Raised(p, |v|)) else v)[1..]
  }

  function Remainder(v: Poly, p: Poly): (r: Poly)
    requires Monic(p) && |v| >= |p| - 1
    ensures |r| == |p| - 1
    decreases |v|
  {
    if |v| == |p| - 1 then v else Remainder(Reduce(v, p), p)
  }

  function Quotient(v: Poly, p: Poly): (q: Poly)
    requires Monic(p) && |v| >= |p| - 1
    ensures |q| == |v| - (|p| - 1)
    decreases |v|
  {
    if |v| == |p| - 1 then [] else [v[0]] + Quotient(Reduce(v, p), p)
  }

  function Product(q: Poly, p: Poly): (r: Poly)
    requires Monic(p)
    ensures |r| == |q| + |p| - 1
  {
    if q == [] then Zeros(|p| - 1)
    else Xor(if q[0] then Raised(p, |q| + |p| - 1) else Zeros(|q| + |p| - 1), [false] + Product(q[1..], p))
  }

  /** `q * p + r`. */
  function Combine(q: Poly, p: Poly, r: Poly): (v: Poly)
    requires Monic(p) && |r| == |p| - 1
    ensures |v| == |q| + |p| - 1
  {
    Xor(Product(q, p), Zeros(|q|) + r)
  }

  /** Unfolding the leading quotient coefficient. */
  lemma CombineStep(b: bool, q: Poly, p: Poly, r: Poly)
    requires Monic(p) && |r| == |p| - 1
    ensures var n := |q| + |p|;
            Combine([b] + q, p, r) == Xor(if b then Raised(p, n) else Zeros(n), [false] + Combine(q, p, r))
  {
    var n := |q| + |p|;
    assert ([b] + q)[1..] == q;
    var head := if b then Raised(p, n) else Zeros(n);
    assert Product([b] + q, p) == Xor(head, [false] + Product(q, p));
    var l, w := Combine([b] + q, p, r), Combine(q, p, r);
    var z, z' := Zeros(|q| + 1) + r, Zeros(|q|) + r;
    forall i | 0 <= i < n ensures l[i] == (head[i] != ([false] + w)[i]) {
      if i > 0 {
        assert z[i] == z'[i - 1];
      }
    }
    assert l == Xor(head, [false] + w);
  }

  /** Cancelling the leading coefficient turns `head + x w` into `w`. */
  lemma ReduceMatches(v: Poly, p: Poly, w: Poly)
    requires Monic(p) && |v| >= |p| && |w| == |v| - 1
    ensures var head := if v[0] then Raised(p, |v|) else Zeros(|v|);
            Xor(head, [false] + w) == v <==> w == Reduce(v, p)
  {
    var head := if v[0] then Raised(p, |v|) else Zeros(|v|);
    var d := Reduce(v, p);
    assert forall i | 0 <= i < |d| :: d[i] == (v[i + 1] != head[i + 1]);
    var x := Xor(head, [false] + w);
    assert forall i | 0 <= i < |d| :: x[i + 1] == (head[i + 1] != w[i]);
    if w == d {
      assert forall i | 0 < i < |v| :: x[i] == v[i] by {
        forall i | 0 < i < |v| ensures x[i] == v[i] {
          assert x[i - 1 + 1] == (head[i] != d[i - 1]);
        }
      }
    }
    if x == v {
      assert forall i | 0 <= i < |d| :: w[i] == d[i];
    }
  }

  /**
   Long division is division: quotient and remainder recombine to the dividend,
   and no other pair of the same size does.
   */
  lemma {:induction false} DivisionTheorem(v: Poly, p: Poly, q: Poly, r: Poly)
    requires Monic(p) && |v| >= |p| - 1
    requires |r| == |p| - 1 && |q| == |v| - |r|
    ensures Combine(q, p, r) == v <==> q == Quotient(v, p) && r == Remainder(v, p)
    decreases |v|
  {
    if q == [] {
      assert Combine(q, p, r) == r;
    } else {
      var b, rest := q[0], q[1..];
      assert q == [b] + rest;
      CombineStep(b, rest, p, r);
      if b == v[0] {
        ReduceMatches(v, p, Combine(rest, p, r));
        DivisionTheorem(Reduce(v, p), p, rest, r);
      } else {
        assert Combine(q, p, r)[0] == b;
      }
    }
  }

  // ----- the register -----

  function Half(x: bv32): (r: bv32)
  {
    x >> 1
  }

  predicate Odd(x: bv32)
  {
    x & 1 != 0
  }

  function Sum(x: bv32, y: bv32): (r: bv32)
  {
    x ^ y
  }

  lemma SumOdd(x: bv32, y: bv32)
    ensures Odd(Sum(x, y)) <==> Odd(x) != Odd(y)
  {
  }

  lemma SumHalf(x: bv32, y: bv32)
    ensures Half(Sum(x, y)) == Sum(Half(x), Half(y))
  {
  }

  lemma XorZero(x: bv32, y: bv32)
    requires x ^ y == 0
    ensures x == y
  {
  }

  lemma SumZero(x: bv32, y: bv32)
    ensures Sum(x, y) == 0 <==> x == y
  {
    if Sum(x, y) == 0 {
      XorZero(x, y);
    }
  }

  lemma ZeroParts(x: bv32)
    ensures x == 0 <==> Half(x) == 0 && !Odd(x)
  {
  }

  /** The low `n` bits of a word, lowest first. */
  function BitList(x: bv32, n: nat): (r: Poly)
    ensures |r| == n
    decreases n
  {
    if n == 0 then [] else [Odd(x)] + BitList(Half(x), n - 1)
  }

  /** The bits of a message in the order the loops consume them: the message as a polynomial. */
  function Message(data: seq<bv8>): (m: Poly)
    ensures |m| == 8 * |data|
  {
    if data == [] then [] else BitList(data[0] as bv32, 8) + Message(data[1..])
  }

  function StepBit(reg: bv32, poly: bv32, bit: bool): (r: bv32)
  {
    if Odd(reg) != bit then Sum(Half(reg), poly) else Half(reg)
  }

  function FeedBits(reg: bv32, poly: bv32, bits: Poly): (r: bv32)
    decreases |bits|
  {
    if bits == [] then reg else FeedBits(StepBit(reg, poly, bits[0]), poly, bits[1..])
  }

  /** The running CRC of `data` from register `reg`. */
  function Crc32(reg: bv32, poly: bv32, data: seq<bv8>): (r: bv32)
  {
    FeedBits(reg, poly, Message(data))
  }

  lemma {:induction false} FeedConcat(reg: bv32, poly: bv32, a: Poly, b: Poly)
    ensures FeedBits(reg, poly, a + b) == FeedBits(FeedBits(reg, poly, a), poly, b)
    decreases |a|
  {
    hide StepBit;
    if a == [] {
      assert a + b == b;
    } else {
      assert (a + b)[1..] == a[1..] + b;
      FeedConcat(StepBit(reg, poly, a[0]), poly, a[1..], b);
    }
  }

  lemma {:induction false} MessageConcat(a: seq<bv8>, b: seq<bv8>)
    ensures Message(a + b) == Message(a) + Message(b)
  {
    hide BitList;
    if a == [] {
      assert a + b == b;
    } else {
      assert (a + b)[1..] == a[1..] + b;
      MessageConcat(a[1..], b);
    }
  }

  /** The loop body consumes the lowest bit of the byte. */
  method UpdateBit(partialIn: bv32, poly: bv32, b: bv32) returns (partial: bv32, rest: bv32)
    ensures partial == StepBit(partialIn, poly, Odd(b))
    ensures rest == Half(b)
  {
    SumOdd(partialIn, b);
    var mix := partialIn ^ b;
    partial := partialIn >> 1;
    if mix & 1 != 0 {
      partial := partial ^ poly;
    }
    rest := b >> 1;
  }

  /** The bit steps of one byte of `crc32_update`. */
  method UpdateByte(partialIn: bv32, poly: bv32, byte: bv8) returns (partial: bv32)
    ensures partial == FeedBits(partialIn, poly, BitList(byte as bv32, 8))
  {
    hide StepBit, Odd, Half;
    partial := partialIn;
    var b := byte as bv32;
    for i := 0 to 8
      invariant FeedBits(partial, poly, BitList(b, 8 - i)) == FeedBits(partialIn, poly, BitList(byte as bv32, 8))
    {
      assert BitList(b, 8 - i)[1..] == BitList(Half(b), 7 - i);
      partial, b := UpdateBit(partial, poly, b);
    }
  }

  /** `crc32_update`. */
  method Crc32Update(partialIn: bv32, poly: bv32, data: seq<bv8>) returns (partial: bv32)
    ensures partial == Crc32(partialIn, poly, data)
  {
    hide StepBit, BitList;
    partial := partialIn;
    for i := 0 to |data|
      invariant FeedBits(partial, poly, Message(data[i..])) == Crc32(partialIn, poly, data)
    {
      assert data[i..][1..] == data[i + 1..];
      FeedConcat(partial, poly, BitList(data[i] as bv32, 8), Message(data[i + 1..]));
      partial := UpdateByte(partial, poly, data[i]);
    }
  }

  /** Updating chunk by chunk is updating at once. */
  lemma ChunksCompose(reg: bv32, poly: bv32, a: seq<bv8>, b: seq<bv8>)
    ensures Crc32(reg, poly, a + b) == Crc32(Crc32(reg, poly, a), poly, b)
  {
    MessageConcat(a, b);
    FeedConcat(reg, poly, Message(a), Message(b));
  }

  // ----- words and their coefficients -----

  /** The register's polynomial: 32 coefficients, bit 0 the highest. */
  function Coeffs(reg: bv32): (c: Poly)
    ensures |c| == 32
  {
    BitList(reg, 32)
  }

  /** The generator: x^32 plus the polynomial of the constant. */
  function Generator(poly: bv32): (p: Poly)
    ensures |p| == 33 && Monic(p)
  {
    [true] + Coeffs(poly)
  }

  /** `x >> n`, one place at a time. */
  function Shr(x: bv32, n: nat): (r: bv32)
    decreases n
  {
    if n == 0 then x else Shr(Half(x), n - 1)
  }

  lemma {:induction false} ShrAdd(x: bv32, a: nat, b: nat)
    ensures Shr(x, a + b) == Shr(Shr(x, a), b)
    decreases a
  {
    hide Half;
    if a > 0 {
      ShrAdd(Half(x), a - 1, b);
    }
  }

  function By4(x: bv32): (r: bv32)
  {
    x >> 4
  }

  function By8(x: bv32): (r: bv32)
  {
    x >> 8
  }

  lemma ShiftTwice(x: bv32)
    ensures By4(By4(x)) == By8(x) == x >> 8
  {
  }

  lemma Halves(x: bv32)
    ensures Half(Half(Half(Half(x)))) == By4(x)
  {
  }

  lemma Shr4(x: bv32)
    ensures Shr(x, 4) == By4(x)
  {
    hide Half, By4;
    Halves(x);
    assert Shr(x, 4) == Half(Half(Half(Half(x))));
  }

  lemma Shr8(x: bv32)
    ensures Shr(x, 8) == x >> 8
  {
    hide Shr, Half, By4, By8;
    ShrAdd(x, 4, 4);
    Shr4(x);
    Shr4(By4(x));
    ShiftTwice(x);
  }

  lemma Shr16(x: bv32)
    ensures Shr(x, 16) == x >> 16
  {
    ShrAdd(x, 8, 8);
    Shr8(x);
    Shr8(x >> 8);
  }

  /** Thirty-two places empty the word. */
  lemma Shr32(x: bv32)
    ensures Shr(x, 32) == 0
  {
    ShrAdd(x, 16, 16);
    Shr16(x);
    Shr16(x >> 16);
  }

  lemma {:induction false} BitListSplit(x: bv32, n: nat, m: nat)
    ensures BitList(x, n + m) == BitList(x, n) + BitList(Shr(x, n), m)
    decreases n
  {
    hide Half, Odd;
    if n == 0 {
      assert BitList(x, 0) + BitList(x, m) == BitList(x, m);
    } else {
      BitListSplit(Half(x), n - 1, m);
    }
  }

  lemma {:induction false} BitListSum(x: bv32, y: bv32, n: nat)
    ensures BitList(Sum(x, y), n) == Xor(BitList(x, n), BitList(y, n))
    decreases n
  {
    hide Half, Odd, Sum;
    if n > 0 {
      SumOdd(x, y);
      SumHalf(x, y);
      BitListSum(Half(x), Half(y), n - 1);
      XorConcat([Odd(x)], BitList(Half(x), n - 1), [Odd(y)], BitList(Half(y), n - 1));
    }
  }

  lemma {:induction false} BitListZero(x: bv32, n: nat)
    requires Shr(x, n) == 0
    ensures BitList(x, n) == Zeros(n) <==> x == 0
    decreases n
  {
    hide Half, Odd;
    if n > 0 {
      BitListZero(Half(x), n - 1);
      ZeroParts(x);
      assert BitList(x, n) == Zeros(n) <==> BitList(x, n)[0] == false && BitList(x, n)[1..] == Zeros(n - 1) by {
        var b := BitList(x, n);
        if !b[0] && b[1..] == Zeros(n - 1) {
          assert b == [false] + Zeros(n - 1);
        }
        if b == Zeros(n) {
          assert b[1..] == Zeros(n - 1);
        }
      }
    }
  }

  lemma ZeroCoeffs(x: bv32)
    ensures Coeffs(x) == Zeros(32) <==> x == 0
  {
    Shr32(x);
    BitListZero(x, 32);
  }

  lemma SumCoeffs(x: bv32, y: bv32)
    ensures Coeffs(Sum(x, y)) == Xor(Coeffs(x), Coeffs(y))
  {
    BitListSum(x, y, 32);
  }

  /** A register is determined by its coefficients. */
  lemma CoeffsInjective(x: bv32, y: bv32)
    ensures Coeffs(x) == Coeffs(y) <==> x == y
  {
    hide Coeffs, Sum;
    if Coeffs(x) == Coeffs(y) {
      SumCoeffs(x, y);
      assert Coeffs(Sum(x, y)) == Zeros(32);
      ZeroCoeffs(Sum(x, y));
      SumZero(x, y);
    }
  }

  // ----- the register as a remainder -----

  function StepCoeffs(c: Poly, q: Poly, bit: bool): (r: Poly)
    requires |c| == |q| > 0
    ensures |r| == |c|
  {
    Xor(c[1..] + [false], if c[0] != bit then q else Zeros(|c|))
  }

  function FeedCoeffs(c: Poly, q: Poly, bits: Poly): (r: Poly)
    requires |c| == |q| > 0
    ensures |r| == |c|
    decreases |bits|
  {
    if bits == [] then c else FeedCoeffs(StepCoeffs(c, q, bits[0]), q, bits[1..])
  }

  /** Shifting the register multiplies its polynomial by x and drops the leading coefficient. */
  lemma CoeffsShift(reg: bv32)
    ensures Coeffs(Half(reg)) == Coeffs(reg)[1..] + [false]
  {
    BitListSplit(Half(reg), 31, 1);
    Shr32(reg);
    assert Shr(Half(reg), 31) == 0;
    assert BitList(Shr(Half(reg), 31), 1) == [false];
  }

  lemma StepMatches(reg: bv32, poly: bv32, bit: bool)
    ensures Coeffs(StepBit(reg, poly, bit)) == StepCoeffs(Coeffs(reg), Coeffs(poly), bit)
  {
    hide Half, Odd, Sum;
    CoeffsShift(reg);
    SumCoeffs(Half(reg), poly);
    assert Coeffs(reg)[0] == Odd(reg);
    var h := Coeffs(reg)[1..] + [false];
    assert Xor(h, Zeros(32)) == h;
  }

  lemma {:induction false} FeedMatches(reg: bv32, poly: bv32, bits: Poly)
    ensures Coeffs(FeedBits(reg, poly, bits)) == FeedCoeffs(Coeffs(reg), Coeffs(poly), bits)
    decreases |bits|
  {
    hide StepBit, StepCoeffs, Coeffs;
    if bits != [] {
      StepMatches(reg, poly, bits[0]);
      FeedMatches(StepBit(reg, poly, bits[0]), poly, bits[1..]);
    }
  }

  /** start * x^n + message * x^32, in n + 32 coefficients. */
  function Dividend(c: Poly, bits: Poly): (v: Poly)
    ensures |v| == |bits| + |c|
  {
    Xor(bits + Zeros(|c|), c + Zeros(|bits|))
  }

  /** One register step is one step of the long division. */
  lemma StepReduces(c: Poly, q: Poly, bits: Poly)
    requires |c| == |q| > 0 && bits != []
    ensures Reduce(Dividend(c, bits), [true] + q) == Dividend(StepCoeffs(c, q, bits[0]), bits[1..])
  {
    var v, p := Dividend(c, bits), [true] + q;
    assert v[0] == (bits[0] != c[0]);
    var l, r := Reduce(v, p), Dividend(StepCoeffs(c, q, bits[0]), bits[1..]);
    forall i | 0 <= i < |l| ensures l[i] == r[i] {
      var rp := Raised(p, |v|);
      assert l[i] == (if v[0] then v[i + 1] != rp[i + 1] else v[i + 1]);
      assert rp[i + 1] == (i < |q| && q[i]);
      assert v[i + 1] == ((bits + Zeros(|c|))[i + 1] != (c + Zeros(|bits|))[i + 1]);
      assert (bits + Zeros(|c|))[i + 1] == (bits[1..] + Zeros(|c|))[i];
    }
  }

  lemma {:induction false} FeedIsRemainder(c: Poly, q: Poly, bits: Poly)
    requires |c| == |q| > 0
    ensures FeedCoeffs(c, q, bits) == Remainder(Dividend(c, bits), [true] + q)
    decreases |bits|
  {
    if bits == [] {
      assert Dividend(c, bits) == c;
    } else {
      StepReduces(c, q, bits);
      FeedIsRemainder(StepCoeffs(c, q, bits[0]), q, bits[1..]);
    }
  }

  /** The CRC register is the remainder of start * x^n + message * x^32 by the generator. */
  lemma CrcIsRemainder(reg: bv32, poly: bv32, data: seq<bv8>)
    ensures Coeffs(Crc32(reg, poly, data)) == Remainder(Dividend(Coeffs(reg), Message(data)), Generator(poly))
  {
    hide Coeffs;
    FeedMatches(reg, poly, Message(data));
    FeedIsRemainder(Coeffs(reg), Coeffs(poly), Message(data));
  }

  // ----- linearity -----

  lemma StepLinear(c: Poly, d: Poly, q: Poly, a: bool, b: bool)
    requires |c| == |d| == |q| > 0
    ensures StepCoeffs(Xor(c, d), q, a != b) == Xor(StepCoeffs(c, q, a), StepCoeffs(d, q, b))
  {
  }

  lemma {:induction false} FeedLinear(c: Poly, d: Poly, q: Poly, a: Poly, b: Poly)
    requires |c| == |d| == |q| > 0 && |a| == |b|
    ensures FeedCoeffs(Xor(c, d), q, Xor(a, b)) == Xor(FeedCoeffs(c, q, a), FeedCoeffs(d, q, b))
    decreases |a|
  {
    if a != [] {
      hide StepCoeffs;
      StepLinear(c, d, q, a[0], b[0]);
      assert Xor(a, b)[1..] == Xor(a[1..], b[1..]);
      FeedLinear(StepCoeffs(c, q, a[0]), StepCoeffs(d, q, b[0]), q, a[1..], b[1..]);
    }
  }

  function SumByte(x: bv8, y: bv8): (r: bv8)
  {
    x ^ y
  }

  function XorBytes(a: seq<bv8>, b: seq<bv8>): (r: seq<bv8>)
    requires |a| == |b|
    ensures |r| == |a|
  {
    if a == [] then [] else [SumByte(a[0], b[0])] + XorBytes(a[1..], b[1..])
  }

  lemma WidenXor(x: bv8, y: bv8)
    ensures SumByte(x, y) as bv32 == Sum(x as bv32, y as bv32)
  {
  }

  lemma ByteXor(x: bv8, y: bv8)
    ensures BitList(SumByte(x, y) as bv32, 8) == Xor(BitList(x as bv32, 8), BitList(y as bv32, 8))
  {
    hide Sum, BitList;
    WidenXor(x, y);
    BitListSum(x as bv32, y as bv32, 8);
  }

  lemma {:induction false} MessageXor(a: seq<bv8>, b: seq<bv8>)
    requires |a| == |b|
    ensures Message(XorBytes(a, b)) == Xor(Message(a), Message(b))
  {
    hide BitList, SumByte;
    if a != [] {
      ByteXor(a[0], b[0]);
      MessageXor(a[1..], b[1..]);
      assert XorBytes(a, b)[1..] == XorBytes(a[1..], b[1..]);
      XorConcat(BitList(a[0] as bv32, 8), Message(a[1..]), BitList(b[0] as bv32, 8), Message(b[1..]));
    }
  }

  /** The update is linear under the sum of registers and of equally long messages. */
  lemma CrcLinear(x: bv32, y: bv32, poly: bv32, a: seq<bv8>, b: seq<bv8>)
    requires |a| == |b|
    ensures Crc32(Sum(x, y), poly, XorBytes(a, b)) == Sum(Crc32(x, poly, a), Crc32(y, poly, b))
  {
    hide Coeffs, Sum;
    MessageXor(a, b);
    SumCoeffs(x, y);
    FeedMatches(x, poly, Message(a));
    FeedMatches(y, poly, Message(b));
    FeedMatches(Sum(x, y), poly, Message(XorBytes(a, b)));
    FeedLinear(Coeffs(x), Coeffs(y), Coeffs(poly), Message(a), Message(b));
    SumCoeffs(Crc32(x, poly, a), Crc32(y, poly, b));
    CoeffsInjective(Crc32(Sum(x, y), poly, XorBytes(a, b)), Sum(Crc32(x, poly, a), Crc32(y, poly, b)));
  }

  // ----- burst errors -----

  /** The generator has a constant term. */
  predicate HasUnit(poly: bv32)
  {
    poly & 0x8000_0000 != 0
  }

  lemma Shr24(x: bv32)
    ensures Shr(x, 24) == x >> 24
  {
    ShrAdd(x, 16, 8);
    Shr16(x);
    Shr8(x >> 16);
  }

  lemma Shr7(x: bv32)
    ensures Shr(x, 7) == x >> 7
  {
    ShrAdd(x, 4, 3);
    Shr4(x);
    var y := x >> 4;
    assert Shr(y, 3) == Half(Half(Half(y)));
  }

  lemma Shr31(x: bv32)
    ensures Odd(Shr(x, 31)) <==> HasUnit(x)
  {
    ShrAdd(x, 24, 7);
    Shr24(x);
    Shr7(x >> 24);
  }

  lemma UnitCoefficient(poly: bv32)
    ensures Coeffs(poly)[31] == HasUnit(poly)
  {
    BitListSplit(poly, 31, 1);
    Shr31(poly);
  }

  /** A step that leaves the lowest coefficient clear was a plain shift. */
  lemma StepBack(c: Poly, q: Poly, bit: bool)
    requires |c| == |q| > 0 && q[|q| - 1] && !StepCoeffs(c, q, bit)[|c| - 1]
    ensures c == [bit] + StepCoeffs(c, q, bit)[..|c| - 1]
  {
    var n := StepCoeffs(c, q, bit);
    assert n[|c| - 1] == (c[0] != bit);
    assert forall i | 1 <= i < |c| :: n[i - 1] == c[i];
  }

  /** The only register that at most `|c|` message bits drive to zero is those bits themselves. */
  lemma {:induction false} DrivenToZero(c: Poly, q: Poly, bits: Poly)
    requires |c| == |q| > 0 && q[|q| - 1] && |bits| <= |c|
    requires FeedCoeffs(c, q, bits) == Zeros(|c|)
    ensures c == bits + Zeros(|c| - |bits|)
    decreases |bits|
  {
    hide StepCoeffs;
    if bits == [] {
      assert bits + Zeros(|c|) == Zeros(|c|);
    } else {
      DrivenToZero(StepCoeffs(c, q, bits[0]), q, bits[1..]);
      DropZero(bits[1..], |c| - |bits|);
      StepBack(c, q, bits[0]);
      assert bits + Zeros(|c| - |bits|) == [bits[0]] + (bits[1..] + Zeros(|c| - |bits|));
    }
  }

  lemma DropZero(p: Poly, n: nat)
    ensures var r := p + Zeros(n + 1); !r[|r| - 1] && r[..|r| - 1] == p + Zeros(n)
  {
  }

  lemma StepInjective(c: Poly, d: Poly, q: Poly, bit: bool)
    requires |c| == |d| == |q| > 0 && q[|q| - 1] && StepCoeffs(c, q, bit) == StepCoeffs(d, q, bit)
    ensures c == d
  {
    var m, n := StepCoeffs(c, q, bit), StepCoeffs(d, q, bit);
    assert m[|c| - 1] == (c[0] != bit) && n[|c| - 1] == (d[0] != bit);
    assert forall i | 1 <= i < |c| :: m[i - 1] == (c[i] != (c[0] != bit && q[i - 1]));
    assert forall i | 1 <= i < |c| :: n[i - 1] == (d[i] != (d[0] != bit && q[i - 1]));
    assert forall i | 1 <= i < |c| :: c[i] == d[i];
  }

  /** Different registers stay different under a common suffix. */
  lemma {:induction false} FeedInjective(c: Poly, d: Poly, q: Poly, bits: Poly)
    requires |c| == |d| == |q| > 0 && q[|q| - 1] && FeedCoeffs(c, q, bits) == FeedCoeffs(d, q, bits)
    ensures c == d
    decreases |bits|
  {
    if bits != [] {
      hide StepCoeffs;
      FeedInjective(StepCoeffs(c, q, bits[0]), StepCoeffs(d, q, bits[0]), q, bits[1..]);
      StepInjective(c, d, q, bits[0]);
    }
  }

  /** From one register, different windows no longer than it give different registers. */
  lemma WindowInjective(c: Poly, q: Poly, a: Poly, b: Poly)
    requires |c| == |q| > 0 && q[|q| - 1] && |a| == |b| <= |c| && FeedCoeffs(c, q, a) == FeedCoeffs(c, q, b)
    ensures a == b
  {
    var d := Xor(a, b);
    FeedLinear(c, c, q, a, b);
    assert Xor(c, c) == Zeros(|c|);
    assert Xor(FeedCoeffs(c, q, a), FeedCoeffs(c, q, b)) == Zeros(|c|);
    DrivenToZero(Zeros(|c|), q, d);
    var z := d + Zeros(|c| - |d|);
    assert forall i | 0 <= i < |a| :: d[i] == z[i];
  }

  /** Bit strings of one length that differ at most inside 32 consecutive bits, at any offset. */
  ghost predicate SameOutsideWindow(a: Poly, b: Poly, i: nat)
    requires |a| == |b|
  {
    forall k | 0 <= k < |a| && !(i <= k < i + 32) :: a[k] == b[k]
  }

  /** Two messages of one length that differ, and only inside 32 consecutive bits. */
  ghost predicate Burst(a: seq<bv8>, b: seq<bv8>)
  {
    |a| == |b| && a != b && exists i: nat :: SameOutsideWindow(Message(a), Message(b), i)
  }

  /** A message is determined by its bits. */
  lemma {:induction false} MessageInjective(a: seq<bv8>, b: seq<bv8>)
    requires |a| == |b| && Message(a) == Message(b)
    ensures a == b
  {
    hide BitList;
    if a != [] {
      assert BitList(a[0] as bv32, 8) == Message(a)[..8] == Message(b)[..8] == BitList(b[0] as bv32, 8);
      assert Message(a[1..]) == Message(a)[8..] == Message(b)[8..] == Message(b[1..]);
      MessageInjective(a[1..], b[1..]);
      ByteInjective(a[0], b[0]);
    }
  }

  lemma ByteInjective(x: bv8, y: bv8)
    requires BitList(x as bv32, 8) == BitList(y as bv32, 8)
    ensures x == y
  {
    ByteXor(x, y);
    var z := SumByte(x, y) as bv32;
    assert BitList(z, 8) == Zeros(8);
    Shr8(z);
    BitListZero(z, 8);
  }

  /** Between a common prefix and a common suffix, different windows of at most 32 bits are told apart. */
  lemma WindowDetected(reg: bv32, poly: bv32, pre: Poly, a: Poly, b: Poly, post: Poly)
    requires HasUnit(poly) && |a| == |b| <= 32 && a != b
    ensures FeedBits(reg, poly, pre + a + post) != FeedBits(reg, poly, pre + b + post)
  {
    hide FeedBits, Coeffs, HasUnit;
    var r := FeedBits(reg, poly, pre);
    var x, y := FeedBits(r, poly, a), FeedBits(r, poly, b);
    FeedThree(reg, poly, pre, a, post);
    FeedThree(reg, poly, pre, b, post);
    if FeedBits(x, poly, post) == FeedBits(y, poly, post) {
      SameAfterSuffix(x, y, poly, post);
      SameWindow(r, poly, a, b);
      assert false;
    }
  }

  lemma FeedThree(reg: bv32, poly: bv32, a: Poly, b: Poly, c: Poly)
    ensures FeedBits(reg, poly, a + b + c) == FeedBits(FeedBits(FeedBits(reg, poly, a), poly, b), poly, c)
  {
    hide FeedBits;
    FeedConcat(reg, poly, a + b, c);
    FeedConcat(reg, poly, a, b);
  }

  lemma ThreeParts(a: Poly, i: nat, j: nat)
    requires i <= j <= |a|
    ensures a == a[..i] + a[i..j] + a[j..]
  {
  }

  /** Every burst of at most 32 bits changes the CRC, for every start register, length and bit offset. */
  lemma BurstDetected(reg: bv32, poly: bv32, a: seq<bv8>, b: seq<bv8>)
    requires HasUnit(poly) && Burst(a, b)
    ensures Crc32(reg, poly, a) != Crc32(reg, poly, b)
  {
    hide FeedBits, Coeffs, HasUnit, Message;
    var m, n := Message(a), Message(b);
    var w: nat :| SameOutsideWindow(m, n, w);
    var i := if w <= |m| then w else |m|;
    var j := if i + 32 <= |m| then i + 32 else |m|;
    assert m[..i] == n[..i] && m[j..] == n[j..];
    ThreeParts(m, i, j);
    ThreeParts(n, i, j);
    if m[i..j] == n[i..j] {
      MessageInjective(a, b);
      assert false;
    }
    WindowDetected(reg, poly, m[..i], m[i..j], n[i..j], m[j..]);
  }

  lemma SameAfterSuffix(x: bv32, y: bv32, poly: bv32, tail: Poly)
    requires HasUnit(poly) && FeedBits(x, poly, tail) == FeedBits(y, poly, tail)
    ensures x == y
  {
    hide Coeffs;
    UnitCoefficient(poly);
    FeedMatches(x, poly, tail);
    FeedMatches(y, poly, tail);
    FeedInjective(Coeffs(x), Coeffs(y), Coeffs(poly), tail);
    CoeffsInjective(x, y);
  }

  lemma SameWindow(r: bv32, poly: bv32, a: Poly, b: Poly)
    requires HasUnit(poly) && |a| == |b| <= 32 && FeedBits(r, poly, a) == FeedBits(r, poly, b)
    ensures a == b
  {
    hide Coeffs;
    UnitCoefficient(poly);
    FeedMatches(r, poly, a);
    FeedMatches(r, poly, b);
    WindowInjective(Coeffs(r), Coeffs(poly), a, b);
  }

  /** Equal bytes are equal bits. */
  lemma {:induction false} SameByteBits(a: seq<bv8>, b: seq<bv8>, k: nat, bit: nat)
    requires |a| == |b| && k < |a| && a[k] == b[k] && bit < 8
    ensures Message(a)[8 * k + bit] == Message(b)[8 * k + bit]
    decreases k
  {
    hide BitList;
    if k > 0 {
      SameByteBits(a[1..], b[1..], k - 1, bit);
    }
  }

  /** Messages that differ only inside four consecutive bytes are a burst. */
  lemma FourByteBurst(a: seq<bv8>, b: seq<bv8>, i: nat)
    requires |a| == |b| && a != b && forall k | 0 <= k < |a| && !(i <= k < i + 4) :: a[k] == b[k]
    ensures Burst(a, b)
  {
    hide Message;
    forall p | 0 <= p < |Message(a)| && !(8 * i <= p < 8 * i + 32) ensures Message(a)[p] == Message(b)[p] {
      SameByteBits(a, b, p / 8, p % 8);
      assert 8 * (p / 8) + p % 8 == p;
    }
    assert SameOutsideWindow(Message(a), Message(b), 8 * i);
  }

  // ----- without the constant term a burst can be missed -----

  lemma SumCommutes(x: bv32, y: bv32)
    ensures Sum(x, y) == Sum(y, x)
  {
  }

  lemma SumAssociates(x: bv32, y: bv32, z: bv32)
    ensures Sum(Sum(x, y), z) == Sum(x, Sum(y, z))
  {
  }

  lemma SumSwap(x: bv32, y: bv32, z: bv32)
    ensures Sum(Sum(x, y), z) == Sum(Sum(x, z), y)
  {
    hide Sum;
    SumAssociates(x, y, z);
    SumCommutes(y, z);
    SumAssociates(x, z, y);
  }

  lemma SumSelf(x: bv32)
    ensures Sum(0, x) == x
  {
  }

  /** Feeding the bits of `x` is adding `x` to the register and feeding zeros. */
  lemma {:induction false} FeedWord(reg: bv32, poly: bv32, x: bv32, n: nat)
    requires Shr(x, n) == 0
    ensures FeedBits(reg, poly, BitList(x, n)) == FeedBits(Sum(reg, x), poly, Zeros(n))
    decreases n
  {
    hide Sum, Half, Odd;
    if n == 0 {
      SumSelf(reg);
      SumZeroRight(reg);
    } else {
      var bits := BitList(x, n);
      assert bits[0] == Odd(x) && bits[1..] == BitList(Half(x), n - 1);
      assert Zeros(n)[1..] == Zeros(n - 1);
      FeedWord(StepBit(reg, poly, Odd(x)), poly, Half(x), n - 1);
      SumOdd(reg, x);
      SumHalf(reg, x);
      SumSwap(Half(reg), Half(x), poly);
    }
  }

  lemma SumZeroRight(x: bv32)
    ensures Sum(x, 0) == x
  {
  }

  lemma {:induction false} ZerosStayZero(poly: bv32, n: nat)
    ensures FeedBits(0, poly, Zeros(n)) == 0
  {
    if n > 0 {
      assert StepBit(0, poly, false) == 0;
      assert Zeros(n)[1..] == Zeros(n - 1);
      ZerosStayZero(poly, n - 1);
    }
  }

  /** The low `n` bits of `m` are set. */
  predicate AllOnes(m: bv32, n: nat)
    decreases n
  {
    n == 0 || (Odd(m) && AllOnes(Half(m), n - 1))
  }

  lemma MaskParts(x: bv32, m: bv32)
    ensures Half(x & m) == Half(x) & Half(m)
    ensures Odd(x & m) <==> Odd(x) && Odd(m)
  {
  }

  lemma {:induction false} MaskedBits(x: bv32, m: bv32, n: nat)
    requires AllOnes(m, n)
    ensures BitList(x & m, n) == BitList(x, n)
    decreases n
  {
    hide Odd, Half;
    if n > 0 {
      MaskParts(x, m);
      MaskedBits(Half(x), Half(m), n - 1);
    }
  }

  function LowByte(x: bv32): (b: bv8)
  {
    (x & 0xFF) as bv8
  }

  lemma LowByteBits(x: bv32)
    ensures BitList(LowByte(x) as bv32, 8) == BitList(x, 8)
  {
    ByteMask();
    MaskedBits(x, 0xFF, 8);
  }

  lemma ByteMask()
    ensures AllOnes(0xFF, 8)
  {
    assert AllOnes(0xF, 4);
    assert AllOnes(0x1F, 5);
    assert AllOnes(0x3F, 6);
    assert AllOnes(0x7F, 7);
  }

  function Bytes(x: bv32): (s: seq<bv8>)
    ensures |s| == 4
  {
    [LowByte(x), LowByte(Shr(x, 8)), LowByte(Shr(x, 16)), LowByte(Shr(x, 24))]
  }

  lemma MessageCons(b: bv8, rest: seq<bv8>)
    ensures Message([b] + rest) == BitList(b as bv32, 8) + Message(rest)
  {
    hide BitList;
    assert ([b] + rest)[1..] == rest;
  }

  lemma FourBytes(a: bv8, b: bv8, c: bv8, d: bv8)
    ensures Message([a, b, c, d])
            == BitList(a as bv32, 8) + (BitList(b as bv32, 8) + (BitList(c as bv32, 8) + BitList(d as bv32, 8)))
  {
    hide BitList, Message;
    assert [a, b, c, d] == [a] + [b, c, d] && [b, c, d] == [b] + [c, d] && [c, d] == [c] + [d] && [d] == [d] + [];
    MessageCons(a, [b, c, d]);
    MessageCons(b, [c, d]);
    MessageCons(c, [d]);
    MessageCons(d, []);
    assert Message([]) == [];
    assert BitList(d as bv32, 8) + [] == BitList(d as bv32, 8);
  }

  lemma FourParts(x: bv32)
    ensures Coeffs(x) == BitList(x, 8) + (BitList(Shr(x, 8), 8) + (BitList(Shr(x, 16), 8) + BitList(Shr(x, 24), 8)))
  {
    hide BitList, Shr;
    BitListSplit(x, 8, 24);
    BitListSplit(Shr(x, 8), 8, 16);
    BitListSplit(Shr(x, 16), 8, 8);
    ShrAdd(x, 8, 8);
    ShrAdd(x, 16, 8);
  }

  /** A word's bytes as a message are its coefficients. */
  lemma BytesMessage(x: bv32)
    ensures Message(Bytes(x)) == Coeffs(x)
  {
    hide BitList, Shr, LowByte, Coeffs;
    LowByteBits(x);
    LowByteBits(Shr(x, 8));
    LowByteBits(Shr(x, 16));
    LowByteBits(Shr(x, 24));
    FourParts(x);
    FourBytes(LowByte(x), LowByte(Shr(x, 8)), LowByte(Shr(x, 16)), LowByte(Shr(x, 24)));
  }

  lemma CancelsInOneStep(poly: bv32)
    requires !HasUnit(poly)
    ensures StepBit((poly << 1) | 1, poly, false) == 0 && (poly << 1) | 1 != 0
  {
  }

  /** Without the constant term, a burst of four bytes goes unseen. */
  lemma BurstMissed(poly: bv32)
    requires !HasUnit(poly)
    ensures var x := (poly << 1) | 1;
            Burst(Bytes(0), Bytes(x)) && Crc32(0, poly, Bytes(0)) == Crc32(0, poly, Bytes(x))
  {
    hide Coeffs, Bytes, StepBit, Sum, Message;
    var x := (poly << 1) | 1;
    CancelsInOneStep(poly);
    WordGoesUnseen(poly, x);
    WordGoesUnseenZero(poly);
    assert SameOutsideWindow(Message(Bytes(0)), Message(Bytes(x)), 0);
    BytesMessage(0);
    BytesMessage(x);
    CoeffsInjective(0, x);
  }

  lemma FirstZero(x: bv32, poly: bv32)
    ensures FeedBits(x, poly, Zeros(32)) == FeedBits(StepBit(x, poly, false), poly, Zeros(31))
  {
    hide StepBit;
    assert Zeros(32)[1..] == Zeros(31);
  }

  lemma WordGoesUnseen(poly: bv32, x: bv32)
    requires StepBit(x, poly, false) == 0
    ensures Crc32(0, poly, Bytes(x)) == 0
  {
    hide StepBit, Sum, Bytes, Shr, BitList, FeedBits;
    BytesMessage(x);
    Shr32(x);
    FeedWord(0, poly, x, 32);
    SumSelf(x);
    FirstZero(x, poly);
    ZerosStayZero(poly, 31);
  }

  lemma WordGoesUnseenZero(poly: bv32)
    ensures Crc32(0, poly, Bytes(0)) == 0
  {
    assert StepBit(0, poly, false) == 0;
    WordGoesUnseen(poly, 0);
  }

  /** Bursts of at most 32 bits are all detected exactly when the constant has its top bit set. */
  lemma BurstDetectionExact(poly: bv32)
    ensures HasUnit(poly) <==>
            forall reg: bv32, a: seq<bv8>, b: seq<bv8> :: Burst(a, b) ==> Crc32(reg, poly, a) != Crc32(reg, poly, b)
  {
    hide Burst, Crc32, HasUnit, Bytes;
    if HasUnit(poly) {
      forall reg: bv32, a: seq<bv8>, b: seq<bv8> | Burst(a, b) ensures Crc32(reg, poly, a) != Crc32(reg, poly, b) {
        BurstDetected(reg, poly, a, b);
      }
    } else {
      BurstMissed(poly);
    }
  }

  // ----- the order of bits -----

  lemma ShiftedBits(y: bv32)
    ensures ((y >> 1) & 1 != 0) == (y & 2 != 0) && (((y >> 1) >> 1) & 1 != 0) == (y & 4 != 0)
    ensures ((((y >> 1) >> 1) >> 1) & 1 != 0) == (y & 8 != 0) && (((y >> 1) >> 1) >> 1) >> 1 == y >> 4
  {
  }

  /** The four lowest bits. */
  lemma FourBits(y: bv32, n: nat)
    ensures BitList(y, 4 + n) == [y & 1 != 0, y & 2 != 0, y & 4 != 0, y & 8 != 0] + BitList(y >> 4, n)
  {
    ShiftedBits(y);
    var a, b, c := y >> 1, (y >> 1) >> 1, ((y >> 1) >> 1) >> 1;
    assert BitList(y, 4 + n) == [Odd(y)] + BitList(a, 3 + n);
    assert BitList(a, 3 + n) == [Odd(a)] + BitList(b, 2 + n);
    assert BitList(b, 2 + n) == [Odd(b)] + BitList(c, 1 + n);
    assert BitList(c, 1 + n) == [Odd(c)] + BitList(y >> 4, n);
  }

  lemma WideBits(x: bv8)
    ensures var y := x as bv32;
            && (y & 1 != 0) == (x & 1 != 0) && (y & 2 != 0) == (x & 2 != 0) && (y & 4 != 0) == (x & 4 != 0)
            && (y & 8 != 0) == (x & 8 != 0)
            && ((y >> 4) & 1 != 0) == (x & 16 != 0) && ((y >> 4) & 2 != 0) == (x & 32 != 0)
            && ((y >> 4) & 4 != 0) == (x & 64 != 0) && ((y >> 4) & 8 != 0) == (x & 128 != 0)
  {
  }

  lemma TwoNibbles(l: Poly, r: Poly, a: bool, b: bool, c: bool, d: bool, e: bool, f: bool, g: bool, h: bool)
    requires l == [a, b, c, d] + r && r == [e, f, g, h] + []
    ensures l == [a, b, c, d, e, f, g, h]
  {
  }

  /** The bit of a byte under a mask. */
  predicate Has(x: bv8, mask: bv8)
  {
    x & mask != 0
  }

  lemma ByteBits(x: bv8)
    ensures BitList(x as bv32, 8)
            == [Has(x, 1), Has(x, 2), Has(x, 4), Has(x, 8), Has(x, 16), Has(x, 32), Has(x, 64), Has(x, 128)]
  {
    hide BitList;
    var y := x as bv32;
    FourBits(y, 4);
    FourBits(y >> 4, 0);
    NoBits((y >> 4) >> 4);
    WideBits(x);
    TwoNibbles(BitList(y, 8), BitList(y >> 4, 4), Has(x, 1), Has(x, 2), Has(x, 4), Has(x, 8),
               Has(x, 16), Has(x, 32), Has(x, 64), Has(x, 128));
  }

  lemma NoBits(x: bv32)
    ensures BitList(x, 0) == []
  {
  }

  /** A byte is consumed from its lowest bit up, and the bytes in order. */
  lemma MessageBits(x: bv8, data: seq<bv8>)
    ensures Message([]) == []
    ensures Message([x] + data)
            == [Has(x, 1), Has(x, 2), Has(x, 4), Has(x, 8), Has(x, 16), Has(x, 32), Has(x, 64), Has(x, 128)]
               + Message(data)
  {
    hide BitList, Has;
    assert ([x] + data)[1..] == data;
    ByteBits(x);
  }
}

/**
 The streaming UTF-8 decoder `utf8to16` and the encoder `UTF16to8`, register by
 register. `None` is a read past the end of the bytes.

 The decoder is called with whatever EAX its last call left; its unit and the bytes
 it consumes are shown not to depend on that, and it inverts the encoder.
 */
module Utf8 {
  import opened Words

  /** EAX by its parts: the upper half, AH and AL. */
  datatype Reg = Reg(high: u16, ah: u8, al: u8)

  /** The final EAX and the position after the bytes consumed. */
  datatype Step = Step(eax: Reg, next: nat)

  function Ax(eax: Reg): (r: u16)
  {
    eax.ah * 256 + eax.al
  }

  // ----- register operations -----

  function SetAl(eax: Reg, b: u8): (r: Reg)
  {
    eax.(al := b)
  }

  /** `test al, al` / `jns`. */
  predicate Plain(eax: Reg)
  {
    eax.al < 0x80
  }

  /** The carry of `shl al, 2`: bit 6 of AL. */
  predicate Carry(eax: Reg)
  {
    eax.al / 64 % 2 == 1
  }

  function ShlAl2(eax: Reg): (r: Reg)
  {
    var al: int := eax.al;
    eax.(al := al * 4 % 256)
  }

  function ClearAh(eax: Reg): (r: Reg)
  {
    eax.(ah := 0)
  }

  /** `shl ax, 8` and the next byte in AL. */
  function NextByte(eax: Reg, b: u8): (r: Reg)
  {
    Reg(eax.high, eax.al, b)
  }

  function ShrAh2(eax: Reg): (r: Reg)
  {
    eax.(ah := eax.ah / 4)
  }

  /** The carry of `shl ax, 3`: bit 13 of AX. */
  predicate WordCarry(eax: Reg)
  {
    eax.ah / 32 % 2 == 1
  }

  function ShlAx3(eax: Reg): (r: Reg)
  {
    var ah: int, al: int := eax.ah, eax.al;
    Reg(eax.high, (ah * 8 + al / 32) % 256, al * 8 % 256)
  }

  function ShrAx5(eax: Reg): (r: Reg)
  {
    var ah: int, al: int := eax.ah, eax.al;
    Reg(eax.high, ah / 32, ah % 32 * 8 + al / 32)
  }

  function ShlEax3(eax: Reg): (r: Reg)
  {
    var high: int, ah: int, al: int := eax.high, eax.ah, eax.al;
    Reg((high * 8 + ah / 32) % 0x1_0000, (ah * 8 + al / 32) % 256, al * 8 % 256)
  }

  function ShrEax2(eax: Reg): (r: Reg)
  {
    var high: int, ah: int, al: int := eax.high, eax.ah, eax.al;
    Reg(high / 4, high % 4 * 64 + ah / 4, ah % 4 * 64 + al / 4)
  }

  // ----- decoding -----

  /** The gather loop: AL holds the shifted lead byte. */
  function Gather(s: seq<u8>, p: nat, eax: Reg): (r: Option<Step>)
    decreases |s| - p
  {
    if p >= |s| then None
    else
      var e := NextByte(eax, s[p]);
      if Plain(e) then Some(Step(ClearAh(e), p + 1))
      else if Carry(e) then Gather(s, p + 1, ShlAl2(e))
      else
        var f := ShrAh2(ShlAl2(e));
        if !WordCarry(f) then Some(Step(ShrAx5(ShlAx3(f)), p + 1))
        else Third(s, p + 1, ShlEax3(ShlAx3(f)))
  }

  /** The byte after two gathered ones. */
  function Third(s: seq<u8>, p: nat, eax: Reg): (r: Option<Step>)
    decreases |s| - p
  {
    if p >= |s| then None
    else
      var e := SetAl(eax, s[p]);
      if Plain(e) then Some(Step(ClearAh(e), p + 1))
      else if Carry(e) then Gather(s, p + 1, ShlAl2(e))
      else Some(Step(ShrEax2(ShlAl2(e)), p + 1))
  }

  /** One unit from position `p` on; stray continuation bytes are skipped. */
  function Decode(s: seq<u8>, p: nat, eax: Reg): (r: Option<Step>)
    decreases |s| - p
  {
    if p >= |s| then None
    else
      var e := SetAl(eax, s[p]);
      if Plain(e) then Some(Step(ClearAh(e), p + 1))
      else if !Carry(e) then Decode(s, p + 1, ShlAl2(e))
      else Gather(s, p + 1, ShlAl2(e))
  }

  method Utf8To16(s: seq<u8>, from: nat, initial: Reg) returns (r: Option<Step>)
    ensures r == Decode(s, from, initial)
  {
    hide SetAl, ShlAl2, ClearAh, Plain, Carry, Gather;
    var esi, eax := from, initial;
    while true
      invariant Decode(s, from, initial) == Decode(s, esi, eax)
      decreases |s| - esi
    {
      if esi >= |s| {
        return None;
      }
      eax := SetAl(eax, s[esi]);
      esi := esi + 1;
      if Plain(eax) {
        return Some(Step(ClearAh(eax), esi));
      }
      var lead := Carry(eax);
      eax := ShlAl2(eax);
      if lead {
        r := GatherBytes(s, esi, eax);
        return;
      }
    }
  }

  method GatherBytes(s: seq<u8>, from: nat, initial: Reg) returns (r: Option<Step>)
    ensures r == Gather(s, from, initial)
  {
    hide SetAl, ShlAl2, ClearAh, Plain, Carry, NextByte, ShrAh2, WordCarry, ShlAx3, ShrAx5, ShlEax3, ShrEax2;
    var esi, eax := from, initial;
    while true
      invariant Gather(s, from, initial) == Gather(s, esi, eax)
      decreases |s| - esi
    {
      if esi >= |s| {
        return None;
      }
      eax := NextByte(eax, s[esi]);
      esi := esi + 1;
      if Plain(eax) {
        return Some(Step(ClearAh(eax), esi));
      }
      var more := Carry(eax);
      eax := ShlAl2(eax);
      if more {
        continue;
      }
      eax := ShrAh2(eax);
      var long := WordCarry(eax);
      eax := ShlAx3(eax);
      if !long {
        return Some(Step(ShrAx5(eax), esi));
      }
      eax := ShlEax3(eax);
      if esi >= |s| {
        return None;
      }
      eax := SetAl(eax, s[esi]);
      esi := esi + 1;
      if Plain(eax) {
        return Some(Step(ClearAh(eax), esi));
      }
      var again := Carry(eax);
      eax := ShlAl2(eax);
      if !again {
        return Some(Step(ShrEax2(eax), esi));
      }
    }
  }

  // ----- encoding -----

  /** `encode_2byte`: spread over AH and AL, mark both, exchange them. The marks are clear bits. */
  function Encode2(c: u16): (r: seq<u8>)
    requires c < 0x800
    ensures |r| == 2
  {
    var x: int := c * 4;
    var ah, al := x / 256, x % 256 / 4;
    [ah + 0xC0, al + 0x80]
  }

  /** `encode_3byte`: spread over three bytes, mark them, reverse them. */
  function Encode3(c: u16): (r: seq<u8>)
    ensures |r| == 3
  {
    var x: int := c * 16;
    var top, ax := x / 0x1_0000, x % 0x1_0000 / 4;
    var ah, al := ax / 256, ax % 256 / 4;
    [top + 0xE0, ah + 0x80, al + 0x80]
  }

  /** The bytes of a unit; surrogates are ordinary three-byte units. */
  function Encode(u: u16): (r: seq<u8>)
    ensures 1 <= |r| <= 3
  {
    if u < 0x80 then [u] else if u < 0x800 then Encode2(u) else Encode3(u)
  }

  // ----- what the shifts compute -----

  /** What the decoder makes of the register over two bytes. */
  function TwoBytes(eax: Reg, a: u8, b: u8): (e: Reg)
  {
    ShrAh2(ShlAl2(NextByte(ShlAl2(SetAl(eax, a)), b)))
  }

  lemma Encode2Is(y: nat, x: nat)
    requires y < 32 && x < 64
    ensures Encode2(64 * y + x) == [0xC0 + y, 0x80 + x]
  {
    assert (64 * y + x) * 4 == 256 * y + 4 * x;
  }

  lemma Encode3Is(z: nat, y: nat, x: nat)
    requires z < 16 && y < 64 && x < 64
    ensures Encode3(4096 * z + 64 * y + x) == [0xE0 + z, 0x80 + y, 0x80 + x]
  {
    var v := (4096 * z + 64 * y + x) * 16;
    assert v == 0x1_0000 * z + (1024 * y + 16 * x);
    assert v / 0x1_0000 == z && v % 0x1_0000 == 1024 * y + 16 * x;
    assert (1024 * y + 16 * x) / 4 == 256 * y + 4 * x;
  }

  /** After two bytes: the payload of the lead in AH, that of the next one above two zero bits. */
  lemma TwoBytesAre(eax: Reg, lead: nat, x: nat)
    requires lead < 64 && x < 64
    ensures var f := TwoBytes(eax, 0xC0 + lead, 0x80 + x); f.ah == lead && f.al == 4 * x && f.high == eax.high
  {
    assert (0xC0 + lead) * 4 == 768 + 4 * lead;
    assert (0x80 + x) * 4 == 512 + 4 * x;
  }

  lemma Split32(q: nat, r: nat)
    requires r < 32
    ensures (32 * q + r) / 32 == q && (32 * q + r) % 32 == r
  {
  }

  lemma Split256(q: nat, r: nat)
    requires r < 256
    ensures (256 * q + r) / 256 == q && (256 * q + r) % 256 == r
  {
  }

  lemma TwoByteShift(e: Reg, y: nat, a: nat, b: nat)
    requires y < 32 && a < 8 && b < 8 && e.ah == y && e.al == 32 * a + 4 * b
    ensures ShlAx3(e) == Reg(e.high, 8 * y + a, 32 * b)
  {
    Split32(a, 4 * b);
    Split256(a, 32 * b);
    assert e.al * 8 == 256 * a + 32 * b;
    Split256(0, 8 * y + a);
  }

  lemma TwoByteFinish(e: Reg, c: nat, d: nat, a: nat, b: nat)
    requires c < 8 && d < 4 && a < 8 && b < 8 && e.ah == 8 * (4 * c + d) + a && e.al == 32 * b
    ensures ShrAx5(e) == Reg(e.high, c, 64 * d + 8 * a + b)
  {
    assert e.ah == 32 * c + (8 * d + a);
    Split32(c, 8 * d + a);
    Split32(b, 0);
  }

  lemma TwoByteValue(eax: Reg, y: nat, x: nat)
    requires y < 32 && x < 64
    ensures var f := TwoBytes(eax, 0xC0 + y, 0x80 + x); !WordCarry(f) && Ax(ShrAx5(ShlAx3(f))) == 64 * y + x
  {
    hide TwoBytes, ShlAx3, ShrAx5;
    var f := TwoBytes(eax, 0xC0 + y, 0x80 + x);
    TwoBytesAre(eax, y, x);
    assert 4 * x == 32 * (x / 8) + 4 * (x % 8);
    TwoByteShift(f, y, x / 8, x % 8);
    TwoByteFinish(ShlAx3(f), y / 4, y % 4, x / 8, x % 8);
  }

  /** A three-byte lead leaves bit 5 of AH, which the shift carries out. */
  lemma ThreeByteShift(e: Reg, z: nat, a: nat, b: nat)
    requires z < 32 && a < 8 && b < 8 && e.ah == 32 + z && e.al == 32 * a + 4 * b
    ensures WordCarry(e) && ShlAx3(e) == Reg(e.high, 8 * z + a, 32 * b)
  {
    Split32(a, 4 * b);
    Split32(1, z);
    Split256(a, 32 * b);
    assert e.al * 8 == 256 * a + 32 * b;
    Split256(1, 8 * z + a);
    assert e.ah * 8 + a == 256 + (8 * z + a);
  }

  lemma LowDigit(high: nat, k: nat)
    requires k < 8
    ensures (high * 8 + k) % 0x1_0000 % 8 == k
  {
    var q := (high * 8 + k) / 0x1_0000;
    assert (high * 8 + k) % 0x1_0000 == 8 * (high - 0x2000 * q) + k;
  }

  lemma Split4(q: nat, r: nat)
    requires r < 4
    ensures (4 * q + r) % 4 == r
  {
  }

  lemma LowTwo(v: nat)
    ensures v % 4 == v % 8 % 4
  {
    var q, r := v / 8, v % 8;
    if r < 4 {
      Split4(2 * q, r);
      Split4(0, r);
    } else {
      Split4(2 * q + 1, r - 4);
      Split4(1, r - 4);
    }
  }

  lemma ThreeByteWiden(e: Reg, c: nat, d: nat, a: nat, b: nat)
    requires c < 8 && d < 4 && a < 8 && b < 8 && e.ah == 8 * (4 * c + d) + a && e.al == 32 * b
    ensures var h := ShlEax3(e); h.high % 4 == c % 4 && h.ah == 64 * d + 8 * a + b
  {
    assert e.ah == 32 * c + (8 * d + a);
    Split32(c, 8 * d + a);
    Split32(b, 0);
    assert e.ah * 8 + b == 256 * c + (64 * d + 8 * a + b);
    Split256(c, 64 * d + 8 * a + b);
    LowDigit(e.high, c);
    LowTwo(ShlEax3(e).high);
  }

  lemma ThreeByteFinish(e: Reg, c: nat, m: nat, g: nat, x: nat)
    requires c < 4 && m < 64 && g < 4 && x < 64 && e.high % 4 == c && e.ah == 4 * m + g && e.al == 4 * x
    ensures Ax(ShrEax2(e)) == 0x4000 * c + 256 * m + 64 * g + x
  {
    assert e.ah / 4 == m && e.ah % 4 == g;
  }

  lemma ThreeDigits(z: nat, y: nat)
    requires z < 32 && y < 64
    ensures 0x4000 * (z / 4 % 4) + 256 * (16 * (z % 4) + y / 4) + 64 * (y % 4) == 4096 * (z % 16) + 64 * y
  {
    assert z / 4 % 4 == z % 16 / 4;
  }

  lemma ThreeByteValue(eax: Reg, z: nat, y: nat, x: nat)
    requires z < 32 && y < 64 && x < 64
    ensures var f := TwoBytes(eax, 0xE0 + z, 0x80 + y);
            WordCarry(f)
            && Ax(ShrEax2(ShlAl2(SetAl(ShlEax3(ShlAx3(f)), 0x80 + x)))) == 4096 * (z % 16) + 64 * y + x
  {
    hide TwoBytes, ShlAx3, ShlEax3, ShrEax2, WordCarry;
    var f := TwoBytes(eax, 0xE0 + z, 0x80 + y);
    TwoBytesAre(eax, 32 + z, y);
    assert 4 * y == 32 * (y / 8) + 4 * (y % 8);
    ThreeByteShift(f, z, y / 8, y % 8);
    var h := ShlEax3(ShlAx3(f));
    ThreeByteWiden(ShlAx3(f), z / 4, z % 4, y / 8, y % 8);
    assert h.ah == 64 * (z % 4) + y;
    var e := ShlAl2(SetAl(h, 0x80 + x));
    assert e.al == 4 * x && e.ah == h.ah && e.high == h.high;
    ThreeByteFinish(e, z / 4 % 4, 16 * (z % 4) + y / 4, y % 4, x);
    ThreeDigits(z, y);
  }

  // ----- any bytes -----

  /** A byte that continues a character. */
  predicate Continues(b: u8)
  {
    0x80 <= b < 0xC0
  }

  /**
   Decoding by the kinds of bytes. A byte below 0x80 is a unit. A continuation byte on its own is
   skipped. A lead byte below 0xE0 takes one continuation byte and any other lead two, six bits
   each under its own; a character cut short is dropped, and decoding goes on with the byte that
   cut it.
   */
  function ByKinds(s: seq<u8>, p: nat): (r: Option<(u16, nat)>)
    decreases |s| - p
  {
    if p >= |s| then None
    else if s[p] < 0x80 then Some((s[p], p + 1))
    else if Continues(s[p]) then ByKinds(s, p + 1)
    else if p + 1 >= |s| then None
    else if !Continues(s[p + 1]) then ByKinds(s, p + 1)
    else if s[p] < 0xE0 then Some((Joined(0, s[p] % 32, s[p + 1] % 64), p + 2))
    else if p + 2 >= |s| then None
    else if !Continues(s[p + 2]) then ByKinds(s, p + 2)
    else Some((Joined(s[p] % 16, s[p + 1] % 64, s[p + 2] % 64), p + 3))
  }

  /** Four, six and six bits side by side. */
  function Joined(z: int, y: int, x: int): (u: u16)
    requires 0 <= z < 16 && 0 <= y < 64 && 0 <= x < 64
  {
    4096 * z + 64 * y + x
  }

  /** The decoder's answer and the reference's. */
  predicate Answers(r: Option<Step>, k: Option<(u16, nat)>)
  {
    match k
    case None => r.None?
    case Some(u) => r.Some? && Ax(r.value.eax) == u.0 && r.value.next == u.1
  }

  lemma KindOf(e: Reg)
    ensures Plain(e) <==> e.al < 0x80
    ensures !Plain(e) ==> (Carry(e) <==> !Continues(e.al))
  {
  }

  /** The register-level decoder decodes by the kinds of bytes, on any bytes, whatever EAX held. */
  lemma {:induction false} DecodeAny(s: seq<u8>, p: nat, eax: Reg)
    ensures Answers(Decode(s, p, eax), ByKinds(s, p))
    decreases |s| - p, 1
  {
    hide Gather, Carry, Answers, Ax;
    if p < |s| {
      var e := SetAl(eax, s[p]);
      KindOf(e);
      if Plain(e) {
        PlainAnswers(e, p + 1);
      } else if Carry(e) {
        GatherAny(s, p, eax);
      } else {
        DecodeAny(s, p + 1, ShlAl2(e));
      }
    } else {
      NoAnswer();
    }
  }

  lemma PlainAnswers(e: Reg, next: nat)
    ensures Answers(Some(Step(ClearAh(e), next)), Some((e.al, next)))
  {
  }

  lemma NoAnswer()
    ensures Answers(None, None)
  {
  }

  /** A lead byte at `p`. */
  lemma {:induction false} GatherAny(s: seq<u8>, p: nat, eax: Reg)
    requires p < |s| && s[p] >= 0xC0
    ensures Answers(Gather(s, p + 1, ShlAl2(SetAl(eax, s[p]))), ByKinds(s, p))
    decreases |s| - p, 0
  {
    hide Answers, Ax, Carry, ShlAx3, ShrAx5, ShlEax3, WordCarry, Third, ShrAh2;
    var lead := ShlAl2(SetAl(eax, s[p]));
    NoAnswer();
    if p + 1 < |s| {
      var e := NextByte(lead, s[p + 1]);
      KindOf(e);
      if Plain(e) {
        PlainAnswers(e, p + 2);
      } else if Carry(e) {
        GatherAny(s, p + 1, e);
      } else {
        SecondAny(s, p, eax);
      }
    }
  }

  /** A lead byte and a continuation byte at `p`. */
  lemma {:induction false} SecondAny(s: seq<u8>, p: nat, eax: Reg)
    requires p + 1 < |s| && s[p] >= 0xC0 && Continues(s[p + 1])
    ensures var f := TwoBytes(eax, s[p], s[p + 1]);
            Answers(if !WordCarry(f) then Some(Step(ShrAx5(ShlAx3(f)), p + 2)) else Third(s, p + 2, ShlEax3(ShlAx3(f))),
                    ByKinds(s, p))
    decreases |s| - p - 1, 1
  {
    hide Ax, ShlAx3, ShrAx5, ShlEax3, WordCarry, Third, TwoBytes;
    if s[p] < 0xE0 {
      TwoByteValue(eax, s[p] - 0xC0, s[p + 1] - 0x80);
    } else {
      ThreeByteValue(eax, s[p] - 0xE0, s[p + 1] - 0x80, 0);
      ThirdAny(s, p, eax);
    }
  }

  /** A lead byte of three and a continuation byte at `p`. */
  lemma {:induction false} ThirdAny(s: seq<u8>, p: nat, eax: Reg)
    requires p + 1 < |s| && s[p] >= 0xE0 && Continues(s[p + 1])
    ensures Answers(Third(s, p + 2, ShlEax3(ShlAx3(TwoBytes(eax, s[p], s[p + 1])))), ByKinds(s, p))
    decreases |s| - p - 1, 0
  {
    hide Answers, Ax, ShlAx3, ShlEax3, ShrEax2, TwoBytes, Carry, Gather;
    NoAnswer();
    if p + 2 < |s| {
      var g := ShlEax3(ShlAx3(TwoBytes(eax, s[p], s[p + 1])));
      var e := SetAl(g, s[p + 2]);
      KindOf(e);
      if Plain(e) {
        PlainAnswers(e, p + 3);
      } else if Carry(e) {
        GatherAny(s, p + 2, g);
      } else {
        ThreeByteValue(eax, s[p] - 0xE0, s[p + 1] - 0x80, s[p + 2] - 0x80);
        ValueAnswers(ShrEax2(ShlAl2(e)), p + 3);
        assert (s[p] - 0xE0) % 16 == s[p] % 16;
      }
    }
  }

  lemma ValueAnswers(e: Reg, next: nat)
    ensures Answers(Some(Step(e, next)), Some((Ax(e), next)))
  {
  }

  /** The same unit and the same bytes consumed, or the same overrun. */
  predicate SameUnit(x: Option<Step>, y: Option<Step>)
  {
    x.Some? == y.Some? && (x.Some? ==> x.value.next == y.value.next && Ax(x.value.eax) == Ax(y.value.eax))
  }

  /** Unit and bytes consumed depend on the bytes alone, on any bytes. */
  lemma DecodeIgnoresEax(s: seq<u8>, p: nat, x: Reg, y: Reg)
    ensures SameUnit(Decode(s, p, x), Decode(s, p, y))
  {
    hide Decode, Ax, ByKinds;
    DecodeAny(s, p, x);
    DecodeAny(s, p, y);
  }

  lemma EncodedKinds(s: seq<u8>, p: nat, u: u16)
    requires At(s, p, Encode(u))
    ensures ByKinds(s, p) == Some((u, p + |Encode(u)|))
  {
    hide At, Encode2, Encode3, ByKinds;
    var b := Encode(u);
    AtFields(s, p, b, 0);
    AtByte(s, p, b, 0);
    if u < 0x80 {
      OneKind(s, p);
    } else if u < 0x800 {
      Encode2Is(u / 64, u % 64);
      AtByte(s, p, b, 1);
      TwoKinds(s, p, u / 64, u % 64);
    } else {
      Encode3Is(u / 4096, u / 64 % 64, u % 64);
      assert 4096 * (u / 4096) + 64 * (u / 64 % 64) + u % 64 == u;
      AtByte(s, p, b, 1);
      AtByte(s, p, b, 2);
      ThreeKinds(s, p, u / 4096, u / 64 % 64, u % 64);
    }
  }

  lemma OneKind(s: seq<u8>, p: nat)
    requires p < |s| && s[p] < 0x80
    ensures ByKinds(s, p) == Some((s[p], p + 1))
  {
  }

  lemma TwoKinds(s: seq<u8>, p: nat, y: nat, x: nat)
    requires p + 1 < |s| && y < 32 && x < 64 && s[p] == 0xC0 + y && s[p + 1] == 0x80 + x
    ensures ByKinds(s, p) == Some((64 * y + x, p + 2))
  {
    assert s[p] % 32 == y && s[p + 1] % 64 == x;
  }

  lemma ThreeKinds(s: seq<u8>, p: nat, z: nat, y: nat, x: nat)
    requires p + 2 < |s| && z < 16 && y < 64 && x < 64
    requires s[p] == 0xE0 + z && s[p + 1] == 0x80 + y && s[p + 2] == 0x80 + x
    ensures ByKinds(s, p) == Some((4096 * z + 64 * y + x, p + 3))
  {
    assert s[p] % 16 == z && s[p + 1] % 64 == y && s[p + 2] % 64 == x;
  }

  /** Decoding an encoded unit gives the unit back and consumes exactly its bytes, whatever EAX held. */
  lemma DecodeEncoded(s: seq<u8>, p: nat, eax: Reg, u: u16)
    requires At(s, p, Encode(u))
    ensures var r := Decode(s, p, eax); r.Some? && r.value.next == p + |Encode(u)| && Ax(r.value.eax) == u
  {
    hide Decode, Ax, ByKinds, Encode, At;
    DecodeAny(s, p, eax);
    EncodedKinds(s, p, u);
  }
}

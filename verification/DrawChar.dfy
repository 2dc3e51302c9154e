/**
 `drawChar`: the 1x glyph rasteriser with neighbour smoothing
 (rust_kernel/kolibri_utils/src/draw_char.rs).

 The pixel buffer is an array of bytes that the methods patch in place. The
 font is read-only memory, a function from addresses to bytes, because the
 neighbour tests read before and after the glyph. `getPixel`, the read of the
 screen, is an arbitrary function.
 */
module DrawChar {
  import opened Words

  /** The caller's context; `origin` is the index of the first pixel in the buffer array. */
  datatype Ctx = Ctx(
    color: u32,
    buffer: u32,
    origin: nat,
    glyph: int,
    rows: nat,
    widthX: nat,
    delta: u32,
    smoothing: u32,
    edxIn: u32,
    mem: int -> u8,
    getPixel: u32 -> u32)

  datatype Side = Left | Right

  // ----- pixels in a byte buffer -----

  function Load(s: seq<u8>, off: int): (v: u32)
  {
    if In(s, off, 4) then U32(s, off) else 0
  }

  function Store(s: seq<u8>, off: int, v: u32): (r: seq<u8>)
    ensures |r| == |s|
  {
    if In(s, off, 4) then s[..off] + LE32(v) + s[off + 4..] else s
  }

  lemma StoreFacts(s: seq<u8>, off: int, v: u32)
    requires In(s, off, 4)
    ensures Load(Store(s, off, v), off) == v
    ensures forall i | 0 <= i < |s| && !(off <= i < off + 4) :: Store(s, off, v)[i] == s[i]
  {
    LE32RoundTrip(v);
    var r := Store(s, off, v);
    assert r[off] == LE32(v)[0] && r[off + 1] == LE32(v)[1] && r[off + 2] == LE32(v)[2] && r[off + 3] == LE32(v)[3];
  }

  method StorePix(buf: array<u8>, off: int, v: u32)
    requires 0 <= off && off + 4 <= buf.Length
    modifies buf
    ensures buf[..] == Store(old(buf[..]), off, v)
  {
    var b := LE32(v);
    buf[off] := b[0];
    buf[off + 1] := b[1];
    buf[off + 2] := b[2];
    buf[off + 3] := b[3];
  }

  // ----- subpixel blending -----

  function SetByte0(x: u32, b: u8): (r: u32)
    ensures r % 256 == b && r / 256 == x / 256
  {
    x - x % 256 + b
  }

  function SetByte1(x: u32, b: u8): (r: u32)
    ensures r % 256 == x % 256 && r / 256 % 256 == b && r / 0x1_0000 == x / 0x1_0000
  {
    x / 0x1_0000 * 0x1_0000 + b * 256 + x % 256
  }

  function Rol16(x: u32): (r: u32)
    ensures r % 0x1_0000 == x / 0x1_0000 && r / 0x1_0000 == x % 0x1_0000
  {
    x % 0x1_0000 * 0x1_0000 + x / 0x1_0000
  }

  /** Byte `k` of a word, as a plain integer. */
  function Channel(x: u32, k: nat): (r: int)
    requires k < 3
    ensures 0 <= r < 256
  {
    if k == 0 then x % 256 else if k == 1 then x / 256 % 256 else x / 0x1_0000 % 256
  }

  /** Five parts of one colour to eleven of the other, by `lea` steps. */
  function Mix11(major: int, minor: int): (r: u8)
    requires 0 <= major < 256 && 0 <= minor < 256
    ensures r == (11 * major + 5 * minor) / 16
  {
    var edx := major * 8 + major;
    var edx' := major * 2 + edx;
    var ecx := minor * 4 + minor;
    (edx' + ecx) / 16 % 256
  }

  /** Seven parts of the neighbour to one of the font colour, by a shift and a subtraction. */
  function Mix7(neigh: int, font: int): (r: u8)
    requires 0 <= neigh < 256 && 0 <= font < 256
    ensures r == (7 * neigh + font) / 8
  {
    var ecx := neigh * 8 - neigh;
    (ecx + font) / 8 % 256
  }

  /** The register sequence of `.subpixelLeft`: patch AL, then AH, then the rotated AL. */
  function FasmSubpixelLeft(neigh: u32, font: u32): (r: u32)
  {
    var eax := SetByte0(neigh, Mix11(Channel(font, 0), Channel(neigh, 0)));
    var eax := SetByte1(eax, Mix11(Channel(eax, 1), Channel(font, 1)));
    var eax := Rol16(eax);
    var ebx := Rol16(font);
    Rol16(SetByte0(eax, Mix7(Channel(eax, 0), Channel(ebx, 0))))
  }

  function FasmSubpixelRight(neigh: u32, font: u32): (r: u32)
  {
    var eax := SetByte0(neigh, Mix7(Channel(neigh, 0), Channel(font, 0)));
    var eax := SetByte1(eax, Mix11(Channel(eax, 1), Channel(font, 1)));
    var ebx := Rol16(font);
    var eax := Rol16(eax);
    Rol16(SetByte0(eax, Mix11(Channel(ebx, 0), Channel(eax, 0))))
  }

  /** Weighted average of two bytes. */
  function Weighted(wa: nat, a: int, wb: nat, b: int): (r: u8)
    requires 0 <= a < 256 && 0 <= b < 256
    requires (wa == 11 && wb == 5) || (wa == 7 && wb == 1)
    ensures r == (wa * a + wb * b) / (wa + wb)
  {
    if wa == 11 then (11 * a + 5 * b) / 16 else (7 * a + b) / 8
  }

  /** A word from its top byte and its three colour bytes. */
  function Word(top: u8, red: u8, green: u8, blue: u8): (r: u32)
  {
    top * 0x100_0000 + red * 0x1_0000 + green * 256 + blue
  }

  /** The independent weights: blue, green and red of `side`, top byte of the neighbour kept. */
  function OracleSubpixel(side: Side, neigh: u32, font: u32): (r: u32)
  {
    var blue := if side.Left? then Weighted(11, Channel(font, 0), 5, Channel(neigh, 0))
                else Weighted(7, Channel(neigh, 0), 1, Channel(font, 0));
    var green := Weighted(11, Channel(neigh, 1), 5, Channel(font, 1));
    var red := if side.Left? then Weighted(7, Channel(neigh, 2), 1, Channel(font, 2))
               else Weighted(11, Channel(font, 2), 5, Channel(neigh, 2));
    Word(neigh / 0x100_0000, red, green, blue)
  }

  function FasmSubpixel(side: Side, neigh: u32, font: u32): (r: u32)
  {
    if side.Left? then FasmSubpixelLeft(neigh, font) else FasmSubpixelRight(neigh, font)
  }

  /** Every word is the word of its four bytes. */
  lemma WordOfBytes(x: u32)
    ensures x == Word(x / 0x100_0000, Channel(x, 2), Channel(x, 1), Channel(x, 0))
  {
    var q1 := x / 256;
    var q2 := q1 / 256;
    var q3 := q2 / 256;
    assert x == 0x1_0000 * q2 + 256 * (q1 % 256) + x % 256;
    assert x / 0x1_0000 == q2;
    assert x == 0x100_0000 * q3 + 0x1_0000 * (q2 % 256) + 256 * (q1 % 256) + x % 256;
    assert x / 0x100_0000 == q3;
  }

  /** The register operations, byte by byte. */
  lemma WordBytes(top: u8, red: u8, green: u8, blue: u8, n: u8)
    ensures var x := Word(top, red, green, blue);
            && Channel(x, 0) == blue && Channel(x, 1) == green && Channel(x, 2) == red
            && SetByte0(x, n) == Word(top, red, green, n)
            && SetByte1(x, n) == Word(top, red, n, blue)
  {
    var x := Word(top, red, green, blue);
    assert x % 256 == blue;
    assert x / 256 == top * 0x1_0000 + red * 256 + green;
    assert x / 0x1_0000 == top * 256 + red;
  }

  lemma WordRotates(top: u8, red: u8, green: u8, blue: u8)
    ensures Rol16(Word(top, red, green, blue)) == Word(green, blue, top, red)
  {
    var x := Word(top, red, green, blue);
    assert x / 0x1_0000 == top * 256 + red;
    assert x % 0x1_0000 == green * 256 + blue;
  }

  /** The two subpixel transcriptions agree on every pair of colours. */
  lemma SubpixelAgrees(side: Side, neigh: u32, font: u32)
    ensures FasmSubpixel(side, neigh, font) == OracleSubpixel(side, neigh, font)
  {
    SubpixelBytes(side, neigh / 0x100_0000, Channel(neigh, 2), Channel(neigh, 1), Channel(neigh, 0),
                  font / 0x100_0000, Channel(font, 2), Channel(font, 1), Channel(font, 0));
    WordOfBytes(neigh);
    WordOfBytes(font);
  }

  lemma SubpixelBytes(side: Side, nt: u8, nr: u8, ng: u8, nb: u8, ft: u8, fr: u8, fg: u8, fb: u8)
    ensures var neigh := Word(nt, nr, ng, nb); var font := Word(ft, fr, fg, fb);
            FasmSubpixel(side, neigh, font) == OracleSubpixel(side, neigh, font)
  {
    var blue := if side.Left? then Mix11(fb, nb) else Mix7(nb, fb);
    var green := Mix11(ng, fg);
    var red := if side.Left? then Mix7(nr, fr) else Mix11(fr, nr);
    WordBytes(nt, nr, ng, nb, blue);
    WordBytes(ft, fr, fg, fb, 0);
    WordBytes(nt, nr, ng, blue, green);
    WordRotates(nt, nr, green, blue);
    WordRotates(ft, fr, fg, fb);
    WordBytes(green, blue, nt, nr, red);
    WordBytes(fg, fb, ft, fr, 0);
    WordRotates(green, blue, nt, red);
    assert Word(nt, nr, ng, nb) / 0x100_0000 == nt;
  }

  // ----- anti-aliasing -----

  function Ror8(x: u32): (r: u32)
  {
    x % 256 * 0x100_0000 + x / 256
  }

  /** Three parts of the first byte to one of the second. */
  function Quarter(fg: int, bg: int): (r: u8)
    requires 0 <= fg < 256 && 0 <= bg < 256
    ensures r == (3 * fg + bg) / 4
  {
    (fg * 3 + bg) / 4
  }

  /** The blend byte by byte, the top byte of the first colour kept. */
  function AntiAliased(fg: u32, bg: u32): (r: u32)
  {
    Word(fg / 0x100_0000, Quarter(Channel(fg, 2), Channel(bg, 2)), Quarter(Channel(fg, 1), Channel(bg, 1)),
         Quarter(Channel(fg, 0), Channel(bg, 0)))
  }

  lemma WordRolls(top: u8, red: u8, green: u8, blue: u8)
    ensures Ror8(Word(top, red, green, blue)) == Word(blue, top, red, green)
  {
    var x := Word(top, red, green, blue);
    assert x % 256 == blue;
    assert x / 256 == top * 0x1_0000 + red * 256 + green;
  }

  /** `anti_aliasing`: one byte per turn, both registers rolled, and a last roll to restore the order. */
  method AntiAliasing(fg: u32, bg: u32) returns (eax: u32)
    ensures eax == AntiAliased(fg, bg)
  {
    hide Ror8, Word, SetByte0, Channel, Quarter;
    ghost var ft: u8, fr: u8, fgr: u8, fb: u8 := fg / 0x100_0000, Channel(fg, 2), Channel(fg, 1), Channel(fg, 0);
    ghost var bt: u8, br: u8, bgr: u8, bb: u8 := bg / 0x100_0000, Channel(bg, 2), Channel(bg, 1), Channel(bg, 0);
    ghost var nb, ng, nr := Quarter(fb, bb), Quarter(fgr, bgr), Quarter(fr, br);
    WordOfBytes(fg);
    WordOfBytes(bg);
    eax := fg;
    var ebx := bg;
    var bp := 3;
    while bp != 0
      invariant 0 <= bp <= 3
      invariant bp == 3 ==> eax == Word(ft, fr, fgr, fb) && ebx == Word(bt, br, bgr, bb)
      invariant bp == 2 ==> eax == Word(nb, ft, fr, fgr) && ebx == Word(bb, bt, br, bgr)
      invariant bp == 1 ==> eax == Word(ng, nb, ft, fr) && ebx == Word(bgr, bb, bt, br)
      invariant bp == 0 ==> eax == Word(nr, ng, nb, ft)
      decreases bp
    {
      ghost var (t, r, g, b) :=
        if bp == 3 then (ft, fr, fgr, fb) else if bp == 2 then (nb, ft, fr, fgr) else (ng, nb, ft, fr);
      ghost var (t', r', g', b') :=
        if bp == 3 then (bt, br, bgr, bb) else if bp == 2 then (bb, bt, br, bgr) else (bgr, bb, bt, br);
      RollStep(t, r, g, b, t', r', g', b');
      eax := SetByte0(eax, Quarter(Channel(eax, 0), Channel(ebx, 0)));
      eax, ebx := Ror8(eax), Ror8(ebx);
      bp := bp - 1;
    }
    WordRolls(nr, ng, nb, ft);
    eax := Ror8(eax);
  }

  lemma RollStep(t: u8, r: u8, g: u8, b: u8, t': u8, r': u8, g': u8, b': u8)
    ensures var eax, ebx := Word(t, r, g, b), Word(t', r', g', b');
            && Channel(eax, 0) == b && Channel(ebx, 0) == b'
            && Ror8(SetByte0(eax, Quarter(b, b'))) == Word(Quarter(b, b'), t, r, g)
            && Ror8(ebx) == Word(b', t', r', g')
  {
    hide Ror8, Word, SetByte0, Channel, Quarter;
    WordBytes(t, r, g, b, Quarter(b, b'));
    WordBytes(t', r', g', b', 0);
    WordRolls(t, r, g, Quarter(b, b'));
    WordRolls(t', r', g', b');
  }

  // ----- what a pixel should become -----

  /** `bt [at], bit`: the bit string that starts at address `at`. */
  predicate Lit(mem: int -> u8, at: int, bit: nat)
  {
    Bit(mem(at + bit / 8), bit % 8)
  }

  /**
   A lit bit `b` of the current row meets the dark neighbour `t` at a corner of
   `row`, the row above or below (`opposite` is the other one). `far` is the
   bit beyond `t`.
   */
  predicate Corner(mem: int -> u8, row: int, opposite: int, t: nat, b: nat, far: int)
  {
    && Lit(mem, row, t)
    && (Lit(mem, row, b) ==> !Lit(mem, opposite, b) && (far >= 0 ==> !Lit(mem, row, far)))
  }

  /** The neighbour of bit `b` on `side` is blended: it and the bit beyond it are dark, and a corner touches it. */
  predicate Blends(mem: int -> u8, g: int, side: Side, b: nat)
  {
    var t: int := if side.Left? then b - 1 else b + 1;
    var far: int := if side.Left? then b - 2 else b + 2;
    && t >= 0
    && !Lit(mem, g, t)
    && (far >= 0 ==> !Lit(mem, g, far))
    && (Corner(mem, g + 1, g - 1, t, b, far) || Corner(mem, g - 1, g + 1, t, b, far))
  }

  function Smooth(ctx: Ctx): (s: u8)
  {
    ctx.smoothing % 256
  }

  /** The screen pixel that lies under byte `off` of the buffer. */
  function ScreenPixel(ctx: Ctx, off: int): (v: u32)
  {
    ctx.getPixel(Wrap32(ctx.buffer + off - ctx.origin + ctx.delta) / 4)
  }

  /** The neighbour colour: the buffer's own pixel, or the screen's when a delta is given. */
  function Background(ctx: Ctx, off: int, pixel: u32): (v: u32)
  {
    if ctx.delta == 0 then pixel else ScreenPixel(ctx, off)
  }

  /** The neighbour colour mixed with the text colour, as the smoothing mode says. */
  function Mixed(ctx: Ctx, side: Side, neigh: u32): (v: u32)
  {
    if Smooth(ctx) == 1 then AntiAliased(neigh, ctx.color) else OracleSubpixel(side, neigh, ctx.color)
  }

  function Blend(ctx: Ctx, side: Side, off: int, pixel: u32): (v: u32)
  {
    Mixed(ctx, side, Background(ctx, off, pixel))
  }

  /** Some lit bit of `mask` blends its `side` neighbour into column `c`. */
  predicate BlendedFrom(ctx: Ctx, g: int, mask: nat, side: Side, c: nat)
  {
    var b: int := if side.Left? then c + 1 else c - 1;
    Smooth(ctx) != 0 && b >= 0 && Bit(mask, b) && Blends(ctx.mem, g, side, b)
  }

  /**
   Column `c` after a row with bit mask `mask` has been drawn over `pixel`: a
   blend from its left neighbour, then its own bit, then a blend from its right.
   */
  function PixelSpec(ctx: Ctx, g: int, mask: nat, off: int, c: nat, pixel: u32): (v: u32)
  {
    Layers(ctx, off, BlendedFrom(ctx, g, mask, Right, c), Bit(mask, c), BlendedFrom(ctx, g, mask, Left, c), pixel)
  }

  function Layers(ctx: Ctx, off: int, fromLeft: bool, own: bool, fromRight: bool, pixel: u32): (v: u32)
  {
    var v := if fromLeft then Blend(ctx, Right, off, pixel) else pixel;
    var v := if own then ctx.color else v;
    if fromRight then Blend(ctx, Left, off, v) else v
  }

  // ----- the drawing steps on values -----

  function BlendStep(s: seq<u8>, ctx: Ctx, g: int, row: int, b: nat, side: Side): (r: seq<u8>)
    ensures |r| == |s|
  {
    var off := row + 4 * (if side.Left? then b - 1 else b + 1);
    if Smooth(ctx) != 0 && Blends(ctx.mem, g, side, b) then Store(s, off, Blend(ctx, side, off, Load(s, off))) else s
  }

  /** One lit bit: its own pixel, then the left and the right neighbour. */
  function Plot(s: seq<u8>, ctx: Ctx, g: int, row: int, b: nat): (r: seq<u8>)
    ensures |r| == |s|
  {
    BlendStep(BlendStep(Store(s, row + 4 * b, ctx.color), ctx, g, row, b, Left), ctx, g, row, b, Right)
  }

  /** The bit scan of one row, lowest bit first. */
  function Scan(s: seq<u8>, ctx: Ctx, g: int, row: int, edx: nat): (r: seq<u8>)
    ensures |r| == |s|
    decreases edx
  {
    if edx == 0 then s
    else
      ClearBitDecreases(edx, Bsf(edx));
      Scan(Plot(s, ctx, g, row, Bsf(edx)), ctx, g, row, ClearBit(edx, Bsf(edx)))
  }

  /** The bit mask of row `r`: the first row keeps the upper bytes of the caller's EDX. */
  function Mask(ctx: Ctx, r: nat): (m: u32)
  {
    (if r == 0 then ctx.edxIn - ctx.edxIn % 256 else 0) + ctx.mem(ctx.glyph + r)
  }

  function RowOff(ctx: Ctx, r: nat): (off: nat)
  {
    ctx.origin + r * ctx.widthX
  }

  /** The first `n` rows drawn over `s`. */
  function Raster(s: seq<u8>, ctx: Ctx, n: nat): (r: seq<u8>)
    ensures |r| == |s|
  {
    if n == 0 then s
    else Scan(Raster(s, ctx, n - 1), ctx, ctx.glyph + n - 1, RowOff(ctx, n - 1), Mask(ctx, n - 1))
  }

  /** Columns a row can touch: nine, or thirty-three when the first row sees dirty upper bytes. */
  function Columns(ctx: Ctx): (n: nat)
  {
    if ctx.edxIn < 256 then 9 else 33
  }

  /** Every bit of the mask leaves room for a right neighbour inside `cols` columns. */
  ghost predicate NoBitsFrom(mask: nat, cols: nat)
  {
    forall i: nat | i + 1 >= cols :: !Bit(mask, i)
  }

  /** The buffer covers every row. */
  predicate Covers(ctx: Ctx, len: nat)
  {
    && ctx.rows >= 1
    && (ctx.rows - 1) * ctx.widthX + ctx.origin + 36 <= len
    && ctx.origin + 4 * Columns(ctx) <= len
  }

  // ----- the in-place rasteriser -----

  method BlendNeighbour(buf: array<u8>, ctx: Ctx, edi: int, side: Side, oracle: bool)
    requires var off := if side.Left? then edi - 4 else edi + 4; 0 <= off && off + 4 <= buf.Length
    modifies buf
    ensures var off := if side.Left? then edi - 4 else edi + 4;
            buf[..] == Store(old(buf[..]), off, Blend(ctx, side, off, Load(old(buf[..]), off)))
  {
    var off := if side.Left? then edi - 4 else edi + 4;
    var eax := Load(buf[..], off);
    if ctx.delta != 0 {
      eax := ScreenPixel(ctx, off);
    }
    if Smooth(ctx) == 1 {
      eax := AntiAliasing(eax, ctx.color);
    } else if oracle {
      eax := OracleSubpixel(side, eax, ctx.color);
    } else {
      SubpixelAgrees(side, eax, ctx.color);
      eax := FasmSubpixel(side, eax, ctx.color);
    }
    StorePix(buf, off, eax);
  }

  /** The branch ladder of `smooth_left_1x`; `blend` is whether it ends in a blend. */
  method LeftLadder(mem: int -> u8, ebx: int, edx: nat) returns (blend: bool)
    requires edx != 0
    ensures blend <==> Blends(mem, ebx, Left, Bsf(edx))
  {
    hide Bit, Bsf;
    var eax := Bsf(edx) - 1;
    if eax < 0 {
      return false;
    }
    if Lit(mem, ebx, eax) {
      return false;
    }
    eax := eax - 1;
    if eax >= 0 && Lit(mem, ebx, eax) {
      return false;
    }
    eax := eax + 1;
    if Lit(mem, ebx + 1, eax) {
      eax := eax + 1;
      if !Lit(mem, ebx + 1, eax) {
        return true;
      }
      if Lit(mem, ebx - 1, eax) {
        return false;
      }
      eax := eax - 2;
      if eax < 0 {
        return true;
      }
      if !Lit(mem, ebx + 1, eax) {
        return true;
      }
      eax := eax + 1;
    }
    if !Lit(mem, ebx - 1, eax) {
      return false;
    }
    eax := eax + 1;
    if !Lit(mem, ebx - 1, eax) {
      return true;
    }
    if Lit(mem, ebx + 1, eax) {
      return false;
    }
    eax := eax - 2;
    if eax < 0 {
      return true;
    }
    if Lit(mem, ebx - 1, eax) {
      return false;
    }
    return true;
  }

  /** The branch ladder of `smooth_right_1x`, which has no left edge to check. */
  method RightLadder(mem: int -> u8, ebx: int, edx: nat) returns (blend: bool)
    requires edx != 0
    ensures blend <==> Blends(mem, ebx, Right, Bsf(edx))
  {
    hide Bit, Bsf;
    var eax := Bsf(edx) + 1;
    if Lit(mem, ebx, eax) {
      return false;
    }
    eax := eax + 1;
    if Lit(mem, ebx, eax) {
      return false;
    }
    eax := eax - 1;
    if Lit(mem, ebx + 1, eax) {
      eax := eax - 1;
      if !Lit(mem, ebx + 1, eax) {
        return true;
      }
      if Lit(mem, ebx - 1, eax) {
        return false;
      }
      eax := eax + 2;
      if !Lit(mem, ebx + 1, eax) {
        return true;
      }
      eax := eax - 1;
    }
    if !Lit(mem, ebx - 1, eax) {
      return false;
    }
    eax := eax - 1;
    if !Lit(mem, ebx - 1, eax) {
      return true;
    }
    if Lit(mem, ebx + 1, eax) {
      return false;
    }
    eax := eax + 2;
    if Lit(mem, ebx - 1, eax) {
      return false;
    }
    return true;
  }

  /** `smooth_left_1x` and `smooth_right_1x` for the lit pixel at `edi`. */
  method SmoothSide(buf: array<u8>, ctx: Ctx, ebx: int, edx: nat, row: int, edi: int, side: Side, oracle: bool)
    requires edx != 0 && Smooth(ctx) != 0
    requires 0 <= row && edi == row + 4 * Bsf(edx) && edi + 8 <= buf.Length
    modifies buf
    ensures buf[..] == BlendStep(old(buf[..]), ctx, ebx, row, Bsf(edx), side)
  {
    hide Blend, Store, Load;
    var blend;
    if side.Left? {
      blend := LeftLadder(ctx.mem, ebx, edx);
    } else {
      blend := RightLadder(ctx.mem, ebx, edx);
    }
    if blend {
      BlendNeighbour(buf, ctx, edi, side, oracle);
    }
  }

  lemma NoSmoothing(s: seq<u8>, ctx: Ctx, g: int, row: int, b: nat)
    ensures Smooth(ctx) == 0 ==> BlendStep(s, ctx, g, row, b, Left) == s == BlendStep(s, ctx, g, row, b, Right)
  {
  }

  /** One step of the bit scan: the lowest bit of `edx` is stored and its neighbours are smoothed. */
  method PlotBit(buf: array<u8>, ctx: Ctx, ebx: int, edx: nat, row: int, edi: int, oracle: bool)
    requires edx != 0
    requires 0 <= row && edi == row + 4 * Bsf(edx) && edi + 8 <= buf.Length
    modifies buf
    ensures buf[..] == Plot(old(buf[..]), ctx, ebx, row, Bsf(edx))
  {
    hide BlendStep, Bsf, Store;
    StorePix(buf, edi, ctx.color);
    NoSmoothing(buf[..], ctx, ebx, row, Bsf(edx));
    if Smooth(ctx) != 0 {
      SmoothSide(buf, ctx, ebx, edx, row, edi, Left, oracle);
      SmoothSide(buf, ctx, ebx, edx, row, edi, Right, oracle);
    }
  }

  lemma ClearKeepsRoom(edx: nat, cols: nat)
    requires edx != 0 && NoBitsFrom(edx, cols)
    ensures NoBitsFrom(ClearBit(edx, Bsf(edx)), cols) && Bsf(edx) + 1 < cols
  {
    forall i: nat | i + 1 >= cols ensures !Bit(ClearBit(edx, Bsf(edx)), i) {
      ClearBitBits(edx, Bsf(edx), i);
    }
  }

  /** The inner loop of `draw_char_1x`: one glyph row at `row`, mask `mask`. */
  method DrawRow(buf: array<u8>, ctx: Ctx, ebx: int, row: int, mask: nat, ghost cols: nat)
    requires 0 <= row && row + 4 * cols <= buf.Length
    requires NoBitsFrom(mask, cols)
    modifies buf
    ensures buf[..] == Scan(old(buf[..]), ctx, ebx, row, mask)
  {
    var edx := mask;
    while edx != 0
      invariant NoBitsFrom(edx, cols)
      invariant Scan(buf[..], ctx, ebx, row, edx) == Scan(old(buf[..]), ctx, ebx, row, mask)
      decreases edx
    {
      ClearKeepsRoom(edx, cols);
      var bit := Bsf(edx);
      PlotBit(buf, ctx, ebx, edx, row, row + 4 * bit, false);
      ClearBitDecreases(edx, bit);
      edx := ClearBit(edx, bit);
    }
  }

  /** The inner loop of `draw_char_fasm` with the scale factor `esi` at 1. */
  method DrawRowFasm(buf: array<u8>, ctx: Ctx, ebx: int, row: int, mask: nat, esiIn: u32, oracle: bool, ghost cols: nat)
    returns (esi: u32)
    requires esiIn == 1
    requires 0 <= row && row + 4 * cols <= buf.Length
    requires NoBitsFrom(mask, cols)
    modifies buf
    ensures buf[..] == Scan(old(buf[..]), ctx, ebx, row, mask)
    ensures esi == 1
  {
    esi := esiIn;
    var edx := mask;
    while edx != 0
      invariant esi == 1
      invariant NoBitsFrom(edx, cols)
      invariant Scan(buf[..], ctx, ebx, row, edx) == Scan(old(buf[..]), ctx, ebx, row, mask)
      decreases edx
    {
      ClearKeepsRoom(edx, cols);
      var bit := Bsf(edx);
      var edi := row + bit * esi * 4;
      esi := esi - 1;
      PlotBit(buf, ctx, ebx, edx, row, edi, oracle);
      esi := esi + 1;
      ClearBitDecreases(edx, bit);
      edx := ClearBit(edx, bit);
    }
  }

  /** The columns row `r` can touch. */
  function RowColumns(ctx: Ctx, r: nat): (w: nat)
  {
    if r == 0 then Columns(ctx) else 9
  }

  /** The bits of a row mask lie inside the touched columns, and the row inside the buffer. */
  lemma RowFits(ctx: Ctx, r: nat, len: nat)
    requires Covers(ctx, len) && r < ctx.rows
    ensures RowOff(ctx, r) + 4 * RowColumns(ctx, r) <= len && NoBitsFrom(Mask(ctx, r), RowColumns(ctx, r))
  {
    var cols := RowColumns(ctx, r);
    WordWidths();
    forall i: nat | i + 1 >= cols ensures !Bit(Mask(ctx, r), i) {
      NoHighBits(Mask(ctx, r), cols - 1, i);
    }
    if r < ctx.rows - 1 {
      MulApart(r, ctx.rows - 1, ctx.widthX);
    }
  }

  lemma WordWidths()
    ensures Pow2(8) == 256 && Pow2(32) == TWO32
  {
    assert Pow2(12) == 0x1000;
    assert Pow2(16) == 0x1_0000;
    assert Pow2(20) == 0x10_0000;
    assert Pow2(24) == 0x100_0000;
    assert Pow2(28) == 0x1000_0000;
  }

  lemma MulApart(a: nat, b: nat, w: nat)
    requires a < b
    ensures a * w + w <= b * w
  {
    var d := b - a - 1;
    assert d * w >= 0;
    assert b * w == (a + 1 + d) * w == a * w + w + d * w;
  }

  /** The registers at the start of row `r`. */
  ghost predicate AtRow(ctx: Ctx, r: nat, edi: int, ebx: int, edx: int)
  {
    edi == RowOff(ctx, r) && ebx == ctx.glyph + r && edx == if r == 0 then ctx.edxIn else 0
  }

  lemma NextRow(ctx: Ctx, r: nat, edi: int, ebx: int, edx: int)
    requires AtRow(ctx, r, edi, ebx, edx)
    ensures edx - edx % 256 + ctx.mem(ebx) == Mask(ctx, r)
    ensures AtRow(ctx, r + 1, edi + ctx.widthX, ebx + 1, 0)
  {
    hide RowOff;
    RowOffNext(ctx, r);
  }

  lemma RasterStep(s: seq<u8>, ctx: Ctx, r: nat)
    ensures Raster(s, ctx, r + 1) == Scan(Raster(s, ctx, r), ctx, ctx.glyph + r, RowOff(ctx, r), Mask(ctx, r))
  {
    hide Scan, RowOff, Mask;
  }

  /** `draw_char_1x`. */
  method DrawChar1x(buf: array<u8>, ctx: Ctx)
    requires Covers(ctx, buf.Length)
    modifies buf
    ensures buf[..] == Raster(old(buf[..]), ctx, ctx.rows)
  {
    hide Scan, Covers, RowOff, Mask, RowColumns, NoBitsFrom;
    assert AtRow(ctx, 0, ctx.origin, ctx.glyph, ctx.edxIn) && ctx.rows >= 1 by { FirstRow(ctx, buf.Length); }
    var edi: int, ebx: int, edx: int, rows: int := ctx.origin, ctx.glyph, ctx.edxIn, ctx.rows;
    ghost var r := 0;
    while rows != 0
      invariant rows == ctx.rows - r && r <= ctx.rows && AtRow(ctx, r, edi, ebx, edx)
      invariant buf[..] == Raster(old(buf[..]), ctx, r)
      decreases rows
    {
      RowFits(ctx, r, buf.Length);
      NextRow(ctx, r, edi, ebx, edx);
      RasterStep(old(buf[..]), ctx, r);
      edx := edx - edx % 256 + ctx.mem(ebx);
      DrawRow(buf, ctx, ebx, edi, edx, RowColumns(ctx, r));
      ebx, edi, rows, edx := ebx + 1, edi + ctx.widthX, rows - 1, 0;
      r := r + 1;
    }
  }

  lemma FirstRow(ctx: Ctx, len: nat)
    requires Covers(ctx, len)
    ensures AtRow(ctx, 0, ctx.origin, ctx.glyph, ctx.edxIn) && ctx.rows >= 1
  {
  }

  /** `draw_char_fasm` at multiplier 1, with either set of blend weights, draws the same bytes. */
  method DrawCharFasm(buf: array<u8>, ctx: Ctx, multiplier: u32, oracle: bool)
    requires multiplier == 1
    requires Covers(ctx, buf.Length)
    modifies buf
    ensures buf[..] == Raster(old(buf[..]), ctx, ctx.rows)
  {
    hide Scan, Covers, RowOff, Mask, RowColumns, NoBitsFrom;
    assert AtRow(ctx, 0, ctx.origin, ctx.glyph, ctx.edxIn) && ctx.rows >= 1 by { FirstRow(ctx, buf.Length); }
    var esi: int, edi: int, ebx: int, edx: int, rows: int := multiplier, ctx.origin, ctx.glyph, ctx.edxIn, ctx.rows;
    ghost var r := 0;
    while rows != 0
      invariant rows == ctx.rows - r && r <= ctx.rows && esi == 1 && AtRow(ctx, r, edi, ebx, edx)
      invariant buf[..] == Raster(old(buf[..]), ctx, r)
      decreases rows
    {
      RowFits(ctx, r, buf.Length);
      NextRow(ctx, r, edi, ebx, edx);
      RasterStep(old(buf[..]), ctx, r);
      edx := edx - edx % 256 + ctx.mem(ebx);
      esi := DrawRowFasm(buf, ctx, ebx, edi, edx, esi, oracle, RowColumns(ctx, r));
      ebx, edi, rows, edx := ebx + 1, edi + ctx.widthX * esi, rows - 1, 0;
      r := r + 1;
    }
  }

  // ----- the per-pixel theorem -----

  /** A store changes its own pixel and no other pixel of the row. */
  lemma StorePixel(s: seq<u8>, row: int, w: nat, t: nat, v: u32, c: nat)
    requires 0 <= row && row + 4 * w <= |s| && t < w && c < w
    ensures Load(Store(s, row + 4 * t, v), row + 4 * c) == if c == t then v else Load(s, row + 4 * c)
  {
    StoreFacts(s, row + 4 * t, v);
  }

  ghost predicate SameOutside(s: seq<u8>, r: seq<u8>, lo: int, hi: int)
  {
    |s| == |r| && forall i | 0 <= i < |s| && !(lo <= i < hi) :: s[i] == r[i]
  }

  /** A blend step changes its target column alone, from that column's own pixel. */
  lemma BlendStepPixel(s: seq<u8>, ctx: Ctx, g: int, row: int, w: nat, b: nat, side: Side, c: nat)
    requires 0 <= row && row + 4 * w <= |s| && b + 1 < w && c < w
    ensures var off := row + 4 * c; var r := BlendStep(s, ctx, g, row, b, side);
            Load(r, off) ==
            if c == (if side.Left? then b - 1 else b + 1) && Smooth(ctx) != 0 && Blends(ctx.mem, g, side, b)
            then Blend(ctx, side, off, Load(s, off)) else Load(s, off)
  {
    var t: int := if side.Left? then b - 1 else b + 1;
    if Smooth(ctx) != 0 && Blends(ctx.mem, g, side, b) {
      var off := row + 4 * t;
      StorePixel(s, row, w, t, Blend(ctx, side, off, Load(s, off)), c);
    }
  }

  lemma BlendStepFrame(s: seq<u8>, ctx: Ctx, g: int, row: int, w: nat, b: nat, side: Side)
    requires 0 <= row && row + 4 * w <= |s| && b + 1 < w
    ensures SameOutside(s, BlendStep(s, ctx, g, row, b, side), row, row + 4 * w)
  {
  }

  /** Column `c` after bit `b` alone has been plotted over `pixel`. */
  function Plotted(ctx: Ctx, g: int, b: nat, off: int, c: nat, pixel: u32): (v: u32)
  {
    if c == b then ctx.color
    else if c + 1 == b && Smooth(ctx) != 0 && Blends(ctx.mem, g, Left, b) then Blend(ctx, Left, off, pixel)
    else if c == b + 1 && Smooth(ctx) != 0 && Blends(ctx.mem, g, Right, b) then Blend(ctx, Right, off, pixel)
    else pixel
  }

  lemma PlotPixel(s: seq<u8>, ctx: Ctx, g: int, row: int, w: nat, b: nat, c: nat)
    requires 0 <= row && row + 4 * w <= |s| && b + 1 < w && c < w
    ensures var off := row + 4 * c; Load(Plot(s, ctx, g, row, b), off) == Plotted(ctx, g, b, off, c, Load(s, off))
  {
    var s1 := Store(s, row + 4 * b, ctx.color);
    var s2 := BlendStep(s1, ctx, g, row, b, Left);
    StorePixel(s, row, w, b, ctx.color, c);
    BlendStepPixel(s1, ctx, g, row, w, b, Left, c);
    BlendStepPixel(s2, ctx, g, row, w, b, Right, c);
  }

  lemma PlotFrame(s: seq<u8>, ctx: Ctx, g: int, row: int, w: nat, b: nat)
    requires 0 <= row && row + 4 * w <= |s| && b + 1 < w
    ensures SameOutside(s, Plot(s, ctx, g, row, b), row, row + 4 * w)
  {
    var s1 := Store(s, row + 4 * b, ctx.color);
    var s2 := BlendStep(s1, ctx, g, row, b, Left);
    StoreFacts(s, row + 4 * b, ctx.color);
    BlendStepFrame(s1, ctx, g, row, w, b, Left);
    BlendStepFrame(s2, ctx, g, row, w, b, Right);
  }

  /** The bit that can blend into column `c` from one side. */
  lemma SourceBit(ctx: Ctx, g: int, edx: nat, side: Side, c: nat)
    requires edx != 0
    ensures var b := Bsf(edx); var src := if side.Left? then c + 1 else c - 1;
            BlendedFrom(ctx, g, ClearBit(edx, b), side, c) <==> BlendedFrom(ctx, g, edx, side, c) && src != b
    ensures BlendedFrom(ctx, g, edx, side, c) ==> (if side.Left? then c + 1 else c - 1) >= Bsf(edx)
  {
    var src := if side.Left? then c + 1 else c - 1;
    if src >= 0 {
      ClearBitBits(edx, Bsf(edx), src);
    }
  }

  /** Plotting the lowest bit first, then the remaining mask, is the whole mask. */
  lemma LowestBitFirst(ctx: Ctx, g: int, edx: nat, off: int, c: nat, pixel: u32)
    requires edx != 0
    ensures var b := Bsf(edx);
            PixelSpec(ctx, g, edx, off, c, pixel) ==
            PixelSpec(ctx, g, ClearBit(edx, b), off, c, Plotted(ctx, g, b, off, c, pixel))
  {
    hide Bit, ClearBit, Blends, Blend, Bsf;
    var b := Bsf(edx);
    ClearBitBits(edx, b, c);
    SourceBit(ctx, g, edx, Left, c);
    SourceBit(ctx, g, edx, Right, c);
  }

  /** The scan of a row meets the per-pixel function in every column. */
  lemma {:induction false} ScanPixel(s: seq<u8>, ctx: Ctx, g: int, row: int, w: nat, edx: nat, c: nat)
    requires 0 <= row && row + 4 * w <= |s| && c < w
    requires NoBitsFrom(edx, w)
    ensures var off := row + 4 * c;
            Load(Scan(s, ctx, g, row, edx), off) == PixelSpec(ctx, g, edx, off, c, Load(s, off))
    decreases edx
  {
    if edx == 0 {
      ZeroHasNoBits(c);
      ZeroHasNoBits(c + 1);
      if c > 0 {
        ZeroHasNoBits(c - 1);
      }
    } else {
      ClearBitDecreases(edx, Bsf(edx));
      ClearKeepsRoom(edx, w);
      PlotPixel(s, ctx, g, row, w, Bsf(edx), c);
      LowestBitFirst(ctx, g, edx, row + 4 * c, c, Load(s, row + 4 * c));
      ScanPixel(Plot(s, ctx, g, row, Bsf(edx)), ctx, g, row, w, ClearBit(edx, Bsf(edx)), c);
    }
  }

  /** The scan of a row leaves the bytes outside its columns alone. */
  lemma {:induction false} ScanFrame(s: seq<u8>, ctx: Ctx, g: int, row: int, w: nat, edx: nat)
    requires 0 <= row && row + 4 * w <= |s|
    requires NoBitsFrom(edx, w)
    ensures SameOutside(s, Scan(s, ctx, g, row, edx), row, row + 4 * w)
    decreases edx
  {
    if edx != 0 {
      ClearBitDecreases(edx, Bsf(edx));
      ClearKeepsRoom(edx, w);
      PlotFrame(s, ctx, g, row, w, Bsf(edx));
      ScanFrame(Plot(s, ctx, g, row, Bsf(edx)), ctx, g, row, w, ClearBit(edx, Bsf(edx)));
    }
  }

  // ----- the whole glyph -----

  /** A later row starts at least one pitch below an earlier one. */
  lemma RowsApart(ctx: Ctx, r: nat, q: nat)
    requires r < q
    ensures RowOff(ctx, r) + ctx.widthX <= RowOff(ctx, q)
  {
    MulApart(r, q, ctx.widthX);
  }

  lemma LoadOutside(s: seq<u8>, r: seq<u8>, lo: int, hi: int, off: int)
    requires SameOutside(s, r, lo, hi)
    requires off + 4 <= lo || hi <= off
    ensures Load(r, off) == Load(s, off)
  {
  }

  /** Row `n - 1` of a raster over `n` rows. */
  lemma LastRow(s: seq<u8>, ctx: Ctx, n: nat, c: nat)
    requires Covers(ctx, |s|) && 0 < n <= ctx.rows
    requires c < RowColumns(ctx, n - 1)
    ensures var off := RowOff(ctx, n - 1) + 4 * c;
            Load(Raster(s, ctx, n), off) ==
            PixelSpec(ctx, ctx.glyph + n - 1, Mask(ctx, n - 1), off, c, Load(Raster(s, ctx, n - 1), off))
  {
    hide PixelSpec, Load, Mask, Covers;
    RowFits(ctx, n - 1, |s|);
    ScanPixel(Raster(s, ctx, n - 1), ctx, ctx.glyph + n - 1, RowOff(ctx, n - 1), RowColumns(ctx, n - 1),
              Mask(ctx, n - 1), c);
  }

  lemma LastRowFrame(s: seq<u8>, ctx: Ctx, n: nat)
    requires Covers(ctx, |s|) && 0 < n <= ctx.rows
    ensures var row := RowOff(ctx, n - 1);
            SameOutside(Raster(s, ctx, n - 1), Raster(s, ctx, n), row, row + 4 * RowColumns(ctx, n - 1))
  {
    RowFits(ctx, n - 1, |s|);
    ScanFrame(Raster(s, ctx, n - 1), ctx, ctx.glyph + n - 1, RowOff(ctx, n - 1), RowColumns(ctx, n - 1),
              Mask(ctx, n - 1));
  }

  lemma NothingDrawn(s: seq<u8>, ctx: Ctx)
    ensures Raster(s, ctx, 0) == s
  {
  }

  lemma RowOffNext(ctx: Ctx, r: nat)
    ensures ctx.origin <= RowOff(ctx, r) && RowOff(ctx, r + 1) == RowOff(ctx, r) + ctx.widthX
  {
    assert (r + 1) * ctx.widthX == r * ctx.widthX + ctx.widthX;
  }

  /** A byte that lies in no pixel of a drawn row never changes, whatever the pitch. */
  lemma {:induction false} RasterFrame(s: seq<u8>, ctx: Ctx, n: nat, i: int)
    requires Covers(ctx, |s|) && n <= ctx.rows
    requires 0 <= i < |s|
    requires forall r: nat | r < n :: !(RowOff(ctx, r) <= i < RowOff(ctx, r) + 4 * RowColumns(ctx, r))
    ensures Raster(s, ctx, n)[i] == s[i]
  {
    if n > 0 {
      RasterFrame(s, ctx, n - 1, i);
      LastRowFrame(s, ctx, n);
    }
  }

  /** The low byte of every row mask is the glyph's own byte, whatever EDX held. */
  lemma MaskIsGlyph(ctx: Ctx, r: nat, c: nat)
    requires c < 8
    ensures Bit(Mask(ctx, r), c) <==> Lit(ctx.mem, ctx.glyph + r, c)
  {
    var h := if r == 0 then ctx.edxIn / 256 else 0;
    WordWidths();
    BitSplit(h, ctx.mem(ctx.glyph + r), 8, c);
    assert ctx.glyph + r + c / 8 == ctx.glyph + r && c % 8 == c;
  }

  /** No column up to the ninth is blended from both sides, whatever the caller left in EDX. */
  lemma BlendedOnce(ctx: Ctx, r: nat, c: nat)
    requires c <= 8
    ensures var g := ctx.glyph + r; var mask := Mask(ctx, r);
            !(BlendedFrom(ctx, g, mask, Right, c) && BlendedFrom(ctx, g, mask, Left, c))
  {
    if c > 0 {
      MaskIsGlyph(ctx, r, c - 1);
    }
  }
}

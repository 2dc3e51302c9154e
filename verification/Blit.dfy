/**
 The syscall-73 blitter: rows of 32-bit source pixels copied to the linear frame
 buffer where the window map gives the pixel to the caller's slot.

 The cores step their offsets by addition; the specification addresses each pixel
 by multiplication. Offsets and source addresses wrap at 32 bits. Row tables,
 window map, source memory and the cursor hook are arbitrary functions.
 */
module Blit {
  import opened Words

  datatype Format = Bpp32 | Bpp24 | Bpp16

  function Size(f: Format): (n: nat)
    ensures 2 <= n <= 4
  {
    match f case Bpp32 => 4 case Bpp24 => 3 case Bpp16 => 2
  }

  // ----- packing to 5-6-5 -----

  /** The shift, rotate and add sequence of the assembly store. */
  function FasmPack565(color: bv32): (r: bv32)
  {
    var masked := color & 0x00F8_FCF8;
    var ah := ((masked >> 8) & 0xFF) >> 2;
    var al := masked & 0xFF;
    var ax := ((ah << 8) | al) >> 3;
    var eax := ((masked & 0xFFFF_0000) | ax).RotateRight(8);
    var sum := ((eax & 0xFF) + ((eax >> 8) & 0xFF)) & 0xFF;
    ((eax & 0xFFFF_FF00) | sum).RotateLeft(8) & 0xFFFF
  }

  /** Five red, six green and five blue bits side by side. */
  function Pack565(color: bv32): (r: bv32)
    ensures r < 0x1_0000
  {
    ((((color >> 16) & 0xF8) >> 3) << 11) | ((((color >> 8) & 0xFC) >> 2) << 5) | ((color & 0xF8) >> 3)
  }

  lemma PackersAgree(color: bv32)
    ensures FasmPack565(color) == Pack565(color)
  {
  }

  function Bits(x: u32): (b: bv32)
  {
    x as bv32
  }

  function Word16(b: bv32): (x: u16)
    requires b < 0x1_0000
  {
    b as int
  }

  /** The bytes a colour becomes in the frame buffer. */
  function Stored(f: Format, color: u32): (s: seq<u8>)
    ensures |s| == Size(f)
  {
    match f
    case Bpp32 => LE32(color)
    case Bpp24 => [color % 256, color / 256 % 256, color / 0x1_0000 % 256]
    case Bpp16 => LE16(Word16(Pack565(Bits(color))))
  }

  // ----- a clipped blit -----

  /**
   One call of a core. `bps` and `dwidth` are the row tables, `owner` the window map,
   `source` the bitmap memory starting at `base`; `mouse` is the cursor hook, used when
   `software` is set. Screen coordinates are 32-bit words.
   */
  datatype Core = Core(format: Format, software: bool, mouse: (u32, u32) -> u32, slot: u8,
                       bps: u32 -> u32, dwidth: u32 -> u32, owner: u32 -> u8,
                       source: u32 -> u8, base: u32, stride: int, w: int, h: int, outX: u32, outY: u32)

  function ScreenY(c: Core, row: nat): (y: u32)
  {
    Wrap32(c.outY + row)
  }

  /** Frame buffer offset of a pixel. */
  function Cell(c: Core, row: nat, col: nat): (p: u32)
  {
    Wrap32(c.bps(ScreenY(c, row)) + (c.outX + col) * Size(c.format))
  }

  function MapCell(c: Core, row: nat, col: nat): (p: u32)
  {
    Wrap32(c.dwidth(ScreenY(c, row)) + c.outX + col)
  }

  function SourceAddress(c: Core, row: nat, col: nat): (p: u32)
  {
    Wrap32(c.base + row * c.stride + 4 * col)
  }

  predicate Owned(c: Core, row: nat, col: nat)
  {
    c.owner(MapCell(c, row, col)) == c.slot
  }

  function Load32(source: u32 -> u8, a: u32): (v: u32)
  {
    U32([source(a), source(Wrap32(a + 1)), source(Wrap32(a + 2)), source(Wrap32(a + 3))], 0)
  }

  /** Column in the high half, line in the low half. */
  function CursorPos(x: u32, y: u32): (p: u32)
  {
    x % 0x1_0000 * 0x1_0000 + y % 0x1_0000
  }

  function Adjusted(c: Core, color: u32, x: u32, y: u32): (r: u32)
  {
    if c.software then c.mouse(color, CursorPos(x, y)) else color
  }

  /** The bytes pixel (`row`, `col`) should receive. */
  function Pixel(c: Core, row: nat, col: nat): (s: seq<u8>)
    ensures |s| == Size(c.format)
  {
    Stored(c.format, Adjusted(c, Load32(c.source, SourceAddress(c, row, col)), Wrap32(c.outX + col), ScreenY(c, row)))
  }

  // ----- what the frame buffer becomes -----

  /** Every pixel to be written lies inside a frame buffer of `n` bytes. */
  ghost predicate Covered(c: Core, n: nat)
  {
    forall row: nat, col: nat | row < c.h && col < c.w && Owned(c, row, col) ::
      Cell(c, row, col) + Size(c.format) <= n
  }

  function Splice(fb: seq<u8>, at: nat, s: seq<u8>): (r: seq<u8>)
    requires at + |s| <= |fb|
    ensures |r| == |fb|
  {
    fb[..at] + s + fb[at + |s|..]
  }

  /** The first `n` pixels of a row painted, left to right. */
  ghost function RowPainted(fb: seq<u8>, c: Core, row: nat, n: nat): (r: seq<u8>)
    requires Covered(c, |fb|) && row < c.h && n <= c.w
    ensures |r| == |fb|
  {
    if n == 0 then fb
    else
      var before := RowPainted(fb, c, row, n - 1);
      if Owned(c, row, n - 1) then Splice(before, Cell(c, row, n - 1), Pixel(c, row, n - 1)) else before
  }

  /** The first `n` rows painted, top to bottom. */
  ghost function Painted(fb: seq<u8>, c: Core, n: nat): (r: seq<u8>)
    requires Covered(c, |fb|) && n <= c.h
    ensures |r| == |fb|
  {
    if n == 0 then fb
    else if c.w <= 0 then fb
    else RowPainted(Painted(fb, c, n - 1), c, n - 1, c.w)
  }

  // ----- the core loops -----

  lemma WrapSum(a: int, b: int)
    ensures Wrap32(Wrap32(a) + b) == Wrap32(a + b)
  {
  }

  /** Starting offsets of a row, as the cores compute them. */
  lemma RowStarts(c: Core, row: nat)
    ensures Cell(c, row, 0) == Wrap32(c.bps(ScreenY(c, row)) + Wrap32(c.outX * Size(c.format)))
    ensures MapCell(c, row, 0) == Wrap32(c.dwidth(ScreenY(c, row)) + c.outX)
    ensures SourceAddress(c, row, 0) == Wrap32(c.base + Wrap32(row * c.stride))
  {
    WrapSum(c.outX * Size(c.format), c.bps(ScreenY(c, row)));
    WrapSum(row * c.stride, c.base);
  }

  /** Each addition of the cores reaches the offsets of the next pixel. */
  lemma NextPixel(c: Core, row: nat, col: nat)
    ensures Cell(c, row, col + 1) == Wrap32(Cell(c, row, col) + Size(c.format))
    ensures MapCell(c, row, col + 1) == Wrap32(MapCell(c, row, col) + 1)
    ensures SourceAddress(c, row, col + 1) == Wrap32(SourceAddress(c, row, col) + 4)
  {
    var s := Size(c.format);
    assert (c.outX + (col + 1)) * s == (c.outX + col) * s + s;
    WrapSum(c.bps(ScreenY(c, row)) + (c.outX + col) * s, s);
    WrapSum(c.dwidth(ScreenY(c, row)) + c.outX + col, 1);
    WrapSum(c.base + row * c.stride + 4 * col, 4);
  }

  /** The store of each core. */
  method Store(fb: array<u8>, f: Format, at: nat, color: u32)
    requires at + Size(f) <= fb.Length
    modifies fb
    ensures fb[..] == Splice(old(fb[..]), at, Stored(f, color))
  {
    hide Stored, Pack565, FasmPack565, Bits, Word16;
    if f.Bpp32? {
      var b := LE32(color);
      assert Stored(f, color) == b by { StoredIs(color); }
      fb[at], fb[at + 1], fb[at + 2], fb[at + 3] := b[0], b[1], b[2], b[3];
    } else if f.Bpp24? {
      assert Stored(f, color) == [color % 256, color / 256 % 256, color / 0x1_0000 % 256] by { StoredIs(color); }
      fb[at] := color % 256;
      fb[at + 1] := color / 256 % 256;
      fb[at + 2] := color / 0x1_0000 % 256;
    } else {
      StoredIs(color);
      var b := LE16(Word16(FasmPack565(Bits(color))));
      fb[at], fb[at + 1] := b[0], b[1];
    }
  }

  lemma StoredIs(color: u32)
    ensures Stored(Bpp32, color) == LE32(color)
    ensures Stored(Bpp24, color) == [color % 256, color / 256 % 256, color / 0x1_0000 % 256]
    ensures FasmPack565(Bits(color)) < 0x1_0000
    ensures Stored(Bpp16, color) == LE16(Word16(FasmPack565(Bits(color))))
  {
  }

  method BlitRow(fb: array<u8>, c: Core, row: nat)
    requires Covered(c, fb.Length) && row < c.h && c.w >= 0
    modifies fb
    ensures fb[..] == RowPainted(old(fb[..]), c, row, c.w)
  {
    hide Pixel, Cell, MapCell, SourceAddress, Splice;
    var y := ScreenY(c, row);
    RowStarts(c, row);
    var lfbOff: int := Wrap32(c.bps(y) + Wrap32(c.outX * Size(c.format)));
    var mapOff: int := Wrap32(c.dwidth(y) + c.outX);
    var src: int := Wrap32(c.base + Wrap32(row * c.stride));
    ghost var before := fb[..];
    var col: nat := 0;
    while col < c.w
      invariant col <= c.w
      invariant lfbOff == Cell(c, row, col) && mapOff == MapCell(c, row, col) && src == SourceAddress(c, row, col)
      invariant fb[..] == RowPainted(before, c, row, col)
    {
      if c.owner(mapOff) == c.slot {
        assert Owned(c, row, col);
        var color := Adjusted(c, Load32(c.source, src), Wrap32(c.outX + col), y);
        assert Stored(c.format, color) == Pixel(c, row, col) by { PixelIs(c, row, col); }
        Store(fb, c.format, lfbOff, color);
      }
      NextPixel(c, row, col);
      src, lfbOff, mapOff := Wrap32(src + 4), Wrap32(lfbOff + Size(c.format)), Wrap32(mapOff + 1);
      col := col + 1;
    }
  }

  lemma PixelIs(c: Core, row: nat, col: nat)
    ensures Pixel(c, row, col)
            == Stored(c.format, Adjusted(c, Load32(c.source, SourceAddress(c, row, col)), Wrap32(c.outX + col),
                                         ScreenY(c, row)))
  {
  }

  /** The three cores, which differ only in pixel size and store. */
  method BlitCore(fb: array<u8>, c: Core)
    requires Covered(c, fb.Length)
    modifies fb
    ensures c.h >= 0 ==> fb[..] == Painted(old(fb[..]), c, c.h)
    ensures c.h < 0 ==> fb[..] == old(fb[..])
  {
    hide Covered, RowPainted;
    ghost var before := fb[..];
    var row: nat := 0;
    while row < c.h
      invariant row <= c.h || row == 0
      invariant row <= c.h ==> fb[..] == Painted(before, c, row)
      invariant row > c.h ==> fb[..] == before
    {
      if c.w > 0 {
        BlitRow(fb, c, row);
      }
      row := row + 1;
    }
  }

  // ----- pixel by pixel -----

  /** Byte `p` belongs to pixel (`row`, `col`), which the slot owns. */
  ghost predicate Hits(c: Core, row: nat, col: nat, p: nat)
  {
    Owned(c, row, col) && Cell(c, row, col) <= p < Cell(c, row, col) + Size(c.format)
  }

  /** The two pixels do not share a byte. */
  ghost predicate Apart(c: Core, row1: nat, col1: nat, row2: nat, col2: nat)
  {
    Cell(c, row1, col1) + Size(c.format) <= Cell(c, row2, col2)
    || Cell(c, row2, col2) + Size(c.format) <= Cell(c, row1, col1)
  }

  /** No two pixels of the rectangle share a byte. */
  ghost predicate Separate(c: Core)
  {
    forall row1: nat, col1: nat, row2: nat, col2: nat
      | row1 < c.h && row2 < c.h && col1 < c.w && col2 < c.w && (row1 != row2 || col1 != col2) ::
      Apart(c, row1, col1, row2, col2)
  }

  lemma SpliceByte(fb: seq<u8>, at: nat, s: seq<u8>, p: nat)
    requires at + |s| <= |fb| && p < |fb|
    ensures Splice(fb, at, s)[p] == if at <= p < at + |s| then s[p - at] else fb[p]
  {
  }

  lemma {:induction false} RowFrame(fb: seq<u8>, c: Core, row: nat, n: nat, p: nat)
    requires Covered(c, |fb|) && row < c.h && n <= c.w && p < |fb|
    requires forall col: nat | col < n :: !Hits(c, row, col, p)
    ensures RowPainted(fb, c, row, n)[p] == fb[p]
  {
    hide Cell, Pixel, Splice, Owned;
    if n != 0 {
      RowFrame(fb, c, row, n - 1, p);
      assert !Hits(c, row, n - 1, p);
      if Owned(c, row, n - 1) {
        SpliceByte(RowPainted(fb, c, row, n - 1), Cell(c, row, n - 1), Pixel(c, row, n - 1), p);
      }
    }
  }

  /** A byte of an owned pixel, once painted, is not painted again in its row. */
  lemma {:induction false} RowByte(fb: seq<u8>, c: Core, row: nat, n: nat, col: nat, p: nat)
    requires Covered(c, |fb|) && Separate(c) && row < c.h && col < n <= c.w && p < |fb|
    requires Hits(c, row, col, p)
    ensures RowPainted(fb, c, row, n)[p] == Pixel(c, row, col)[p - Cell(c, row, col)]
    decreases n
  {
    hide Cell, Pixel, Splice, Owned;
    var last := n - 1;
    if col < last {
      RowByte(fb, c, row, last, col, p);
      assert Apart(c, row, col, row, last);
    }
    if Owned(c, row, last) {
      SpliceByte(RowPainted(fb, c, row, last), Cell(c, row, last), Pixel(c, row, last), p);
    }
  }

  /** Every byte outside the owned pixels of the rectangle keeps its value. */
  lemma {:induction false} BlitFrame(fb: seq<u8>, c: Core, n: nat, p: nat)
    requires Covered(c, |fb|) && n <= c.h && p < |fb|
    requires forall row: nat, col: nat | row < n && col < c.w :: !Hits(c, row, col, p)
    ensures Painted(fb, c, n)[p] == fb[p]
    decreases n
  {
    hide Hits, RowPainted, Covered;
    if n != 0 && c.w > 0 {
      BlitFrame(fb, c, n - 1, p);
      RowFrame(Painted(fb, c, n - 1), c, n - 1, c.w, p);
    }
  }

  /**
   Every pixel of the rectangle the slot owns receives its packed, cursor-adjusted
   source colour, when no two pixels share a byte.
   */
  lemma {:induction false} BlitPixel(fb: seq<u8>, c: Core, n: nat, row: nat, col: nat, p: nat)
    requires Covered(c, |fb|) && Separate(c) && row < n <= c.h && col < c.w && p < |fb|
    requires Hits(c, row, col, p)
    ensures Painted(fb, c, n)[p] == Pixel(c, row, col)[p - Cell(c, row, col)]
    decreases n
  {
    hide Pixel, RowPainted, Covered, Cell, Owned;
    var last: nat := n - 1;
    var before := Painted(fb, c, last);
    if row == last {
      RowByte(before, c, row, c.w, col, p);
    } else {
      BlitPixel(fb, c, last, row, col, p);
      forall k: nat | k < c.w ensures !Hits(c, last, k, p) {
        assert Apart(c, row, col, last, k);
      }
      RowFrame(before, c, last, c.w, p);
    }
  }

  // ----- when pixels are apart -----

  function RowOffset(c: Core, y: u32): (p: u32)
  {
    c.bps(y)
  }

  /** Row tables as the display driver fills them, wide and long enough not to wrap. */
  ghost predicate LinearRows(c: Core, pitch: nat, lines: nat)
  {
    (forall y: u32 | y < lines :: RowOffset(c, y) == y as int * pitch)
    && lines * pitch < TWO32 && c.outY + c.h <= lines && (c.outX + c.w) * Size(c.format) <= pitch
  }

  lemma LinearCell(c: Core, pitch: nat, lines: nat, row: nat, col: nat)
    requires LinearRows(c, pitch, lines) && row < c.h && col < c.w
    ensures Cell(c, row, col) == (c.outY + row) * pitch + (c.outX + col) * Size(c.format)
    ensures (c.outX + col) * Size(c.format) + Size(c.format) <= pitch
  {
    var y, s := c.outY + row, Size(c.format);
    LinesBelow(y, lines, pitch);
    LinesBelow(c.outX + col, c.outX + c.w, s);
    assert pitch >= 2;
    LinesFit(y, lines, pitch);
    assert ScreenY(c, row) == y;
    assert RowOffset(c, y) == y * pitch;
  }

  /** `y < n` lines of `pitch` bytes end before `n` lines do. */
  lemma LinesBelow(y: nat, n: nat, pitch: nat)
    requires y < n
    ensures y * pitch + pitch <= n * pitch
  {
    assert n * pitch == (y + 1) * pitch + (n - y - 1) * pitch;
  }

  lemma LinesFit(y: nat, n: nat, pitch: nat)
    requires y < n && pitch >= 1 && n * pitch < TWO32
    ensures y < TWO32
  {
  }

  lemma LinearRowsSeparate(c: Core, pitch: nat, lines: nat)
    requires LinearRows(c, pitch, lines)
    ensures Separate(c)
  {
    forall row1: nat, col1: nat, row2: nat, col2: nat
      | row1 < c.h && row2 < c.h && col1 < c.w && col2 < c.w && (row1 != row2 || col1 != col2)
      ensures Apart(c, row1, col1, row2, col2)
    {
      LinearApart(c, pitch, lines, row1, col1, row2, col2);
    }
  }

  lemma LinearApart(c: Core, pitch: nat, lines: nat, row1: nat, col1: nat, row2: nat, col2: nat)
    requires LinearRows(c, pitch, lines)
    requires row1 < c.h && row2 < c.h && col1 < c.w && col2 < c.w && (row1 != row2 || col1 != col2)
    ensures Apart(c, row1, col1, row2, col2)
  {
    hide LinearRows, Cell;
    var s := Size(c.format);
    LinearCell(c, pitch, lines, row1, col1);
    LinearCell(c, pitch, lines, row2, col2);
    if row1 < row2 {
      LinesBelow(c.outY + row1, c.outY + row2, pitch);
    } else if row2 < row1 {
      LinesBelow(c.outY + row2, c.outY + row1, pitch);
    } else if col1 < col2 {
      LinesBelow(c.outX + col1, c.outX + col2, s);
    } else {
      LinesBelow(c.outX + col2, c.outX + col1, s);
    }
  }

  // ----- the system call -----

  /** The clipped geometry, as the clipper returns it. */
  datatype Geometry = Geometry(dstX: int, dstY: int, srcX: int, srcY: int, w: int, h: int)

  /** The core call a system call makes once clipped. */
  function CoreOf(c: Core, g: Geometry, bitmap: u32, winLeft: int, winTop: int, clientLeft: int, clientTop: int,
                  relative: bool): (r: Core)
  {
    var x := Wrap32(g.dstX + winLeft);
    var y := Wrap32(g.dstY + winTop);
    c.(base := Wrap32(Wrap32(bitmap + Wrap32(g.srcY * c.stride)) + Wrap32(4 * g.srcX)), w := g.w, h := g.h,
       outX := if relative then Wrap32(x + clientLeft) else x, outY := if relative then Wrap32(y + clientTop) else y)
  }

  /** The source address of a pixel, counted from the bitmap: line times stride plus four times column. */
  lemma SourceFromBitmap(c: Core, g: Geometry, bitmap: u32, winLeft: int, winTop: int, clientLeft: int,
                         clientTop: int, relative: bool, row: nat, col: nat)
    ensures SourceAddress(CoreOf(c, g, bitmap, winLeft, winTop, clientLeft, clientTop, relative), row, col)
            == Wrap32(bitmap + (g.srcY + row) * c.stride + 4 * (g.srcX + col))
  {
    assert (g.srcY + row) * c.stride == g.srcY * c.stride + row * c.stride;
    WrapChain(bitmap, g.srcY * c.stride, 4 * g.srcX, row * c.stride, 4 * col);
  }

  lemma WrapChain(bitmap: int, line: int, left: int, below: int, right: int)
    ensures Wrap32(Wrap32(Wrap32(bitmap + Wrap32(line)) + Wrap32(left)) + below + right)
            == Wrap32(bitmap + (line + below) + (left + right))
  {
  }

  /** `clipped` is the clipper's answer, `None` when nothing is to be drawn. */
  method Blit32(fb: array<u8>, c: Core, clipped: Option<Geometry>, bitmap: u32, winLeft: int, winTop: int,
                clientLeft: int, clientTop: int, relative: bool)
    requires clipped.Some? ==>
               Covered(CoreOf(c, clipped.value, bitmap, winLeft, winTop, clientLeft, clientTop, relative), fb.Length)
    modifies fb
    ensures clipped.None? || clipped.value.w <= 0 || clipped.value.h <= 0 ==> fb[..] == old(fb[..])
    ensures clipped.Some? && clipped.value.h >= 0 ==>
              fb[..] == Painted(old(fb[..]), CoreOf(c, clipped.value, bitmap, winLeft, winTop, clientLeft, clientTop,
                                                    relative), clipped.value.h)
  {
    if clipped.None? {
      return;
    }
    var g := clipped.value;
    ghost var core := CoreOf(c, g, bitmap, winLeft, winTop, clientLeft, clientTop, relative);
    if g.h >= 0 && g.w <= 0 {
      NoColumns(fb[..], core, g.h);
    }
    if g.w == 0 || g.h == 0 {
      return;
    }
    BlitCore(fb, CoreOf(c, g, bitmap, winLeft, winTop, clientLeft, clientTop, relative));
  }

  lemma {:induction false} NoColumns(fb: seq<u8>, c: Core, n: nat)
    requires Covered(c, |fb|) && n <= c.h && c.w <= 0
    ensures Painted(fb, c, n) == fb
  {
  }

  // ----- a call, pixel by pixel -----

  /** The screen coordinate of a column or line: clipped start, window, client area if relative, and step. */
  function Screen(start: int, window: int, client: int, relative: bool, step: nat): (x: u32)
  {
    (start + window + (if relative then client else 0) + step) % TWO32
  }

  /** Four source bytes as a colour, the least significant first. */
  function SourceColor(source: u32 -> u8, a: int): (v: u32)
  {
    var b0: int, b1: int := source(a % TWO32), source((a + 1) % TWO32);
    var b2: int, b3: int := source((a + 2) % TWO32), source((a + 3) % TWO32);
    b0 + 256 * (b1 + 256 * (b2 + 256 * b3))
  }

  /** Byte `k` of a stored colour: the colour's own bytes, or two of five red, six green and five blue bits. */
  ghost predicate StoredByte(f: Format, color: u32, k: nat, b: u8)
  {
    match f
    case Bpp32 => b == (if k == 0 then color % 256 else if k == 1 then color / 256 % 256
                        else if k == 2 then color / 0x1_0000 % 256 else color / 0x100_0000)
    case Bpp24 => b == if k == 0 then color % 256 else if k == 1 then color / 256 % 256 else color / 0x1_0000 % 256
    case Bpp16 => exists v: bv32 :: Fields565(v, Bits(color)) && b == if k == 0 then v as int % 256 else v as int / 256
  }

  /** Red, green and blue at bits 11, 5 and 0 of a 16-bit word, their upper bits kept. */
  predicate Fields565(v: bv32, color: bv32)
  {
    v < 0x1_0000 && v >> 11 == (color >> 19) & 0x1F && (v >> 5) & 0x3F == (color >> 10) & 0x3F
    && v & 0x1F == (color >> 3) & 0x1F
  }

  lemma PackFields(color: bv32)
    ensures Fields565(Pack565(color), color)
  {
  }

  lemma StoredBytes(f: Format, color: u32, k: nat)
    requires k < Size(f)
    ensures StoredByte(f, color, k, Stored(f, color)[k])
  {
    hide Pack565, Fields565, Bits;
    if f.Bpp16? {
      PackFields(Bits(color));
    }
  }

  lemma ScreenIs(start: int, window: int, client: int, relative: bool, step: nat)
    ensures var x := Wrap32(start + window);
            Wrap32((if relative then Wrap32(x + client) else x) + step) == Screen(start, window, client, relative, step)
  {
    hide Wrap32;
    WrapSum(start + window, client);
    WrapSum(start + window, step);
    WrapSum(start + window + client, step);
    WrapSum(Wrap32(start + window) + client, step);
    WrapIs(start + window + step);
    WrapIs(start + window + client + step);
  }

  lemma WrapIs(x: int)
    ensures Wrap32(x) == x % TWO32
  {
  }

  lemma WrapTimes(x: int, s: nat, y: int)
    ensures Wrap32(y + Wrap32(x) * s) == Wrap32(y + x * s)
  {
    var k := x / TWO32;
    assert x == TWO32 * k + Wrap32(x);
    assert x * s == TWO32 * (k * s) + Wrap32(x) * s;
    WrapMultiple(y + Wrap32(x) * s, k * s);
  }

  lemma WrapMultiple(x: int, k: int)
    ensures Wrap32(x + TWO32 * k) == Wrap32(x)
  {
  }

  lemma ColorIs(source: u32 -> u8, a: int)
    ensures Load32(source, Wrap32(a)) == SourceColor(source, a)
  {
    WrapSum(a, 1);
    WrapSum(a, 2);
    WrapSum(a, 3);
  }

  /**
   One pixel of a call. With X and Y its screen coordinates: if the window map gives the cell
   (X, Y) to the slot, the frame buffer holds, from the row's offset plus X pixels on, the source
   pixel as many lines and columns into the bitmap, after the cursor hook, in the screen's format.
   */
  lemma CallPixel(fb: seq<u8>, c: Core, g: Geometry, bitmap: u32, winLeft: int, winTop: int, clientLeft: int,
                  clientTop: int, relative: bool, row: nat, col: nat, k: nat)
    requires var core := CoreOf(c, g, bitmap, winLeft, winTop, clientLeft, clientTop, relative);
             Covered(core, |fb|) && Separate(core)
    requires row < g.h && col < g.w && k < Size(c.format)
    requires var x, y := Screen(g.dstX, winLeft, clientLeft, relative, col),
                         Screen(g.dstY, winTop, clientTop, relative, row);
             c.owner((c.dwidth(y) as int + x) % TWO32) == c.slot
    ensures var core := CoreOf(c, g, bitmap, winLeft, winTop, clientLeft, clientTop, relative);
            var x, y := Screen(g.dstX, winLeft, clientLeft, relative, col),
                        Screen(g.dstY, winTop, clientTop, relative, row);
            var at := (c.bps(y) + x * (match c.format case Bpp32 => 4 case Bpp24 => 3 case Bpp16 => 2)) % TWO32;
            var color := SourceColor(c.source, bitmap + (g.srcY + row) * c.stride + 4 * (g.srcX + col));
            && at + k < |fb|
            && var shown := if c.software then c.mouse(color, x % 0x1_0000 * 0x1_0000 + y % 0x1_0000) else color;
               StoredByte(c.format, shown, k, Painted(fb, core, g.h)[at + k])
  {
    hide Covered, Separate, Painted, StoredByte, CoreOf, Screen, SourceColor, Load32, Cell, MapCell, SourceAddress,
         ScreenY, Wrap32;
    var core := CoreOf(c, g, bitmap, winLeft, winTop, clientLeft, clientTop, relative);
    CallPlace(c, g, bitmap, winLeft, winTop, clientLeft, clientTop, relative, row, col);
    CorePixel(fb, core, row, col, k);
  }

  lemma CorePixel(fb: seq<u8>, c: Core, row: nat, col: nat, k: nat)
    requires Covered(c, |fb|) && Separate(c) && row < c.h && col < c.w && Owned(c, row, col) && k < Size(c.format)
    ensures Cell(c, row, col) + k < |fb|
    ensures var color := Load32(c.source, SourceAddress(c, row, col));
            StoredByte(c.format, Adjusted(c, color, Wrap32(c.outX + col), ScreenY(c, row)), k,
                       Painted(fb, c, c.h)[Cell(c, row, col) + k])
  {
    hide Covered, Separate, Painted, StoredByte, Load32, Cell, SourceAddress, ScreenY, Wrap32, Stored, Owned, Pixel,
         Adjusted;
    CellInside(c, |fb|, row, col);
    BlitPixel(fb, c, c.h, row, col, Cell(c, row, col) + k);
    PixelIs(c, row, col);
    StoredBytes(c.format, Adjusted(c, Load32(c.source, SourceAddress(c, row, col)), Wrap32(c.outX + col),
                                   ScreenY(c, row)), k);
  }

  lemma CellInside(c: Core, n: nat, row: nat, col: nat)
    requires Covered(c, n) && row < c.h && col < c.w && Owned(c, row, col)
    ensures Cell(c, row, col) + Size(c.format) <= n
  {
    hide Cell, Owned;
  }

  /** Where a pixel of the call lies, by its screen coordinates. */
  lemma CallPlace(c: Core, g: Geometry, bitmap: u32, winLeft: int, winTop: int, clientLeft: int, clientTop: int,
                  relative: bool, row: nat, col: nat)
    ensures var core := CoreOf(c, g, bitmap, winLeft, winTop, clientLeft, clientTop, relative);
            var x, y := Screen(g.dstX, winLeft, clientLeft, relative, col),
                        Screen(g.dstY, winTop, clientTop, relative, row);
            && core == c.(base := core.base, w := g.w, h := g.h, outX := core.outX, outY := core.outY)
            && Wrap32(core.outX + col) == x && ScreenY(core, row) == y
            && MapCell(core, row, col) == (c.dwidth(y) as int + x) % TWO32
            && Cell(core, row, col) == (c.bps(y) + x * Size(c.format)) % TWO32
            && Load32(c.source, SourceAddress(core, row, col))
               == SourceColor(c.source, bitmap + (g.srcY + row) * c.stride + 4 * (g.srcX + col))
  {
    hide Wrap32, Load32, SourceColor;
    var core := CoreOf(c, g, bitmap, winLeft, winTop, clientLeft, clientTop, relative);
    var x, y := Screen(g.dstX, winLeft, clientLeft, relative, col), Screen(g.dstY, winTop, clientTop, relative, row);
    ScreenIs(g.dstX, winLeft, clientLeft, relative, col);
    ScreenIs(g.dstY, winTop, clientTop, relative, row);
    WrapTimes(core.outX + col, Size(c.format), c.bps(y));
    WrapIs(c.bps(y) + x * Size(c.format));
    WrapSum(core.outX + col, c.dwidth(y));
    WrapIs(c.dwidth(y) as int + x);
    SourceFromBitmap(c, g, bitmap, winLeft, winTop, clientLeft, clientTop, relative, row, col);
    ColorIs(c.source, bitmap + (g.srcY + row) * c.stride + 4 * (g.srcX + col));
  }

  /** Byte `p` lies in the pixel at column `col` and line `row` of the call, which the slot owns. */
  ghost predicate CallHits(c: Core, g: Geometry, winLeft: int, winTop: int, clientLeft: int, clientTop: int,
                           relative: bool, row: nat, col: nat, p: nat)
  {
    var x, y := Screen(g.dstX, winLeft, clientLeft, relative, col), Screen(g.dstY, winTop, clientTop, relative, row);
    var size := match c.format case Bpp32 => 4 case Bpp24 => 3 case Bpp16 => 2;
    var at := (c.bps(y) + x * size) % TWO32;
    c.owner((c.dwidth(y) as int + x) % TWO32) == c.slot && at <= p < at + size
  }

  /** A byte in no owned pixel of the call keeps its value. */
  lemma CallKeeps(fb: seq<u8>, c: Core, g: Geometry, bitmap: u32, winLeft: int, winTop: int, clientLeft: int,
                  clientTop: int, relative: bool, p: nat)
    requires Covered(CoreOf(c, g, bitmap, winLeft, winTop, clientLeft, clientTop, relative), |fb|)
    requires g.h >= 0 && p < |fb|
    requires forall row: nat, col: nat | row < g.h && col < g.w ::
               !CallHits(c, g, winLeft, winTop, clientLeft, clientTop, relative, row, col, p)
    ensures Painted(fb, CoreOf(c, g, bitmap, winLeft, winTop, clientLeft, clientTop, relative), g.h)[p] == fb[p]
  {
    hide Covered, Painted, Cell, MapCell, Screen, ScreenY, Wrap32, SourceAddress, Load32, SourceColor, CoreOf;
    var core := CoreOf(c, g, bitmap, winLeft, winTop, clientLeft, clientTop, relative);
    CallPlace(c, g, bitmap, winLeft, winTop, clientLeft, clientTop, relative, 0, 0);
    forall row: nat, col: nat | row < g.h && col < g.w ensures !Hits(core, row, col, p) {
      CallPlace(c, g, bitmap, winLeft, winTop, clientLeft, clientTop, relative, row, col);
      assert !CallHits(c, g, winLeft, winTop, clientLeft, clientTop, relative, row, col, p);
    }
    BlitFrame(fb, core, g.h, p);
  }
}

/**
 What becomes of one pixel under all rows of a glyph, for every pitch and every EDX.

 At a narrow pitch the rows overlap: the upper bytes of the caller's EDX light columns
 of the first row that are pixels of later rows. A pixel is followed here through every
 row that can touch it.
 */
module GlyphPixels {
  import opened Words
  import opened DrawChar

  // ----- rows over a pixel -----

  /** The bytes row `q` may touch meet the pixel at byte `off`. */
  predicate Meets(ctx: Ctx, q: nat, off: int)
  {
    RowOff(ctx, q) < off + 4 && off < RowOff(ctx, q) + 4 * RowColumns(ctx, q)
  }

  predicate OnGrid(ctx: Ctx, q: nat, off: int)
  {
    (off - RowOff(ctx, q)) % 4 == 0
  }

  /** The pixel is one of the columns row `q` may touch. */
  predicate Has(ctx: Ctx, q: nat, off: int)
  {
    Meets(ctx, q, off) && OnGrid(ctx, q, off)
  }

  function Column(ctx: Ctx, q: nat, off: int): (c: nat)
    requires Has(ctx, q, off)
    ensures c < RowColumns(ctx, q) && off == RowOff(ctx, q) + 4 * c
  {
    (off - RowOff(ctx, q)) / 4
  }

  /** No row straddles the pixel: each of the first `n` rows has it as a column or misses it. */
  ghost predicate Whole(ctx: Ctx, n: nat, off: int)
  {
    forall q: nat | q < n && Meets(ctx, q, off) :: OnGrid(ctx, q, off)
  }

  /** The pixel after row `q` has been drawn over `pixel`. */
  function RowOver(ctx: Ctx, q: nat, off: int, pixel: u32): (v: u32)
  {
    if Has(ctx, q, off) then PixelSpec(ctx, ctx.glyph + q, Mask(ctx, q), off, Column(ctx, q, off), pixel) else pixel
  }

  /** The pixel after the first `n` rows. */
  function Layered(ctx: Ctx, n: nat, off: int, pixel: u32): (v: u32)
  {
    if n == 0 then pixel else RowOver(ctx, n - 1, off, Layered(ctx, n - 1, off, pixel))
  }

  predicate Lights(ctx: Ctx, q: nat, off: int)
  {
    Has(ctx, q, off) && Bit(Mask(ctx, q), Column(ctx, q, off))
  }

  /** Some bit of row `q` blends its neighbour on `side` into the pixel. */
  predicate BlendsInto(ctx: Ctx, q: nat, side: Side, off: int)
  {
    Has(ctx, q, off) && BlendedFrom(ctx, ctx.glyph + q, Mask(ctx, q), side, Column(ctx, q, off))
  }

  predicate Touches(ctx: Ctx, q: nat, off: int)
  {
    Lights(ctx, q, off) || BlendsInto(ctx, q, Left, off) || BlendsInto(ctx, q, Right, off)
  }

  /** A row by what it does to the pixel. */
  lemma RowOverIs(ctx: Ctx, q: nat, off: int, pixel: u32)
    ensures RowOver(ctx, q, off, pixel)
            == Layers(ctx, off, BlendsInto(ctx, q, Right, off), Lights(ctx, q, off), BlendsInto(ctx, q, Left, off),
                      pixel)
  {
    hide BlendedFrom, Blend, Bit, Meets, OnGrid;
  }

  /** The rasteriser, pixel by pixel, whatever the pitch: every row in turn over the original pixel. */
  lemma {:induction false} RasterLayers(s: seq<u8>, ctx: Ctx, n: nat, off: int)
    requires Covers(ctx, |s|) && n <= ctx.rows && Whole(ctx, n, off)
    ensures Load(Raster(s, ctx, n), off) == Layered(ctx, n, off, Load(s, off))
  {
    hide Covers, PixelSpec, Load, Raster, RowOff, RowColumns;
    if n == 0 {
      NothingDrawn(s, ctx);
    } else {
      RasterLayers(s, ctx, n - 1, off);
      if Meets(ctx, n - 1, off) {
        LastRow(s, ctx, n, Column(ctx, n - 1, off));
      } else {
        LastRowFrame(s, ctx, n);
        var row := RowOff(ctx, n - 1);
        LoadOutside(Raster(s, ctx, n - 1), Raster(s, ctx, n), row, row + 4 * RowColumns(ctx, n - 1), off);
      }
    }
  }

  lemma {:induction false} LayeredSame(ctx: Ctx, m: nat, n: nat, off: int, pixel: u32)
    requires m <= n && !AnyTouch(ctx, m, n, off)
    ensures Layered(ctx, n, off, pixel) == Layered(ctx, m, off, pixel)
    decreases n
  {
    hide Touches, RowOver;
    if m < n {
      LayeredSame(ctx, m, n - 1, off, pixel);
      Untouched(ctx, n - 1, off, Layered(ctx, n - 1, off, pixel));
    }
  }

  lemma Untouched(ctx: Ctx, q: nat, off: int, pixel: u32)
    requires !Touches(ctx, q, off)
    ensures RowOver(ctx, q, off, pixel) == pixel
  {
    hide RowOver, Lights, BlendsInto;
    RowOverIs(ctx, q, off, pixel);
  }

  /** Some row from `m` up to `n` touches the pixel. */
  ghost predicate AnyTouch(ctx: Ctx, m: nat, n: nat, off: int)
  {
    exists q: nat | m <= q < n :: Touches(ctx, q, off)
  }

  /** No row but `r` touches the pixel. */
  ghost predicate Only(ctx: Ctx, r: nat, off: int)
  {
    !AnyTouch(ctx, 0, r, off) && !AnyTouch(ctx, r + 1, ctx.rows, off)
  }

  lemma OnlyLayer(ctx: Ctx, r: nat, off: int, pixel: u32)
    requires r < ctx.rows && Only(ctx, r, off)
    ensures Layered(ctx, ctx.rows, off, pixel) == RowOver(ctx, r, off, pixel)
  {
    hide AnyTouch, RowOver;
    LayeredSame(ctx, r + 1, ctx.rows, off, pixel);
    LayeredSame(ctx, 0, r, off, pixel);
  }

  /**
   The rasteriser as a per-pixel function of the original buffer and the glyph: a pixel that
   one row alone touches is drawn from its own original background, whatever the caller left
   in EDX and whatever the pitch.
   */
  lemma RasterPixel(s: seq<u8>, ctx: Ctx, r: nat, c: nat)
    requires Covers(ctx, |s|) && r < ctx.rows && c < RowColumns(ctx, r)
    requires var off := RowOff(ctx, r) + 4 * c; Whole(ctx, ctx.rows, off) && Only(ctx, r, off)
    ensures var off := RowOff(ctx, r) + 4 * c;
            Load(Raster(s, ctx, ctx.rows), off) == PixelSpec(ctx, ctx.glyph + r, Mask(ctx, r), off, c, Load(s, off))
  {
    hide Covers, PixelSpec, Load, Raster, Whole, Only;
    var off := RowOff(ctx, r) + 4 * c;
    RasterLayers(s, ctx, ctx.rows, off);
    OnlyLayer(ctx, r, off, Load(s, off));
  }

  // ----- pitches -----

  lemma {:induction false} RowGrid(ctx: Ctx, q: nat)
    requires ctx.widthX % 4 == 0
    ensures RowOff(ctx, q) % 4 == ctx.origin % 4
  {
    hide RowOff;
    if q == 0 {
      RowZero(ctx);
    } else {
      RowGrid(ctx, q - 1);
      RowOffNext(ctx, q - 1);
      GridStep(RowOff(ctx, q - 1), ctx.widthX);
    }
  }

  lemma GridStep(a: nat, w: nat)
    requires w % 4 == 0
    ensures (a + w) % 4 == a % 4
  {
  }

  lemma RowZero(ctx: Ctx)
    ensures RowOff(ctx, 0) == ctx.origin
  {
  }

  /** At a pitch of whole pixels no row straddles a pixel of another, however narrow the pitch. */
  lemma WholePitch(ctx: Ctx, r: nat, c: nat)
    requires ctx.widthX % 4 == 0
    ensures Whole(ctx, ctx.rows, RowOff(ctx, r) + 4 * c)
  {
    hide RowOff;
    var off := RowOff(ctx, r) + 4 * c;
    RowGrid(ctx, r);
    forall q: nat | q < ctx.rows ensures OnGrid(ctx, q, off) {
      RowGrid(ctx, q);
    }
  }

  /** At a pitch of nine pixels no row but the first can touch the nine columns of another. */
  lemma NinePitch(ctx: Ctx, r: nat, c: nat, q: nat)
    requires 36 <= ctx.widthX && c < 9 && q != r && (q > 0 || 4 * Columns(ctx) <= ctx.widthX)
    ensures !Meets(ctx, q, RowOff(ctx, r) + 4 * c)
  {
    hide RowOff;
    if q < r {
      RowsApart(ctx, q, r);
    } else {
      RowsApart(ctx, r, q);
    }
  }

  /** At a pitch that holds every column the rows are apart: a pixel belongs to one row. */
  lemma WidePitch(ctx: Ctx, r: nat, c: nat)
    requires 4 * Columns(ctx) <= ctx.widthX && c < RowColumns(ctx, r)
    ensures Whole(ctx, ctx.rows, RowOff(ctx, r) + 4 * c) && Only(ctx, r, RowOff(ctx, r) + 4 * c)
  {
    hide RowOff;
    var off := RowOff(ctx, r) + 4 * c;
    forall q: nat ensures q != r ==> !Meets(ctx, q, off) && !Touches(ctx, q, off) {
      if q < r {
        RowsApart(ctx, q, r);
      } else if q > r {
        RowsApart(ctx, r, q);
      }
    }
  }

  // ----- what the caller's EDX does to later rows -----

  /**
   From the second row on, at any pitch of at least nine pixels, straddling or not: the nine
   columns of a row are drawn over what the first row has left there.
   */
  lemma {:induction false} LaterRow(s: seq<u8>, ctx: Ctx, n: nat, r: nat, c: nat)
    requires Covers(ctx, |s|) && 1 <= r < n <= ctx.rows && 36 <= ctx.widthX && c < 9
    ensures var off := RowOff(ctx, r) + 4 * c;
            Load(Raster(s, ctx, n), off)
            == PixelSpec(ctx, ctx.glyph + r, Mask(ctx, r), off, c, Load(Raster(s, ctx, 1), off))
    decreases n
  {
    hide Covers, PixelSpec, Load, Raster, RowOff;
    var off := RowOff(ctx, r) + 4 * c;
    if r == n - 1 {
      LastRow(s, ctx, n, c);
      StillFirst(s, ctx, r, r, c);
    } else {
      LaterRow(s, ctx, n - 1, r, c);
      NotYetDrawn(s, ctx, n, r, c);
    }
  }

  /** Row `n - 1`, not the first, leaves the nine columns of row `r` alone. */
  lemma NotYetDrawn(s: seq<u8>, ctx: Ctx, n: nat, r: nat, c: nat)
    requires Covers(ctx, |s|) && 1 < n <= ctx.rows && r != n - 1 && 36 <= ctx.widthX && c < 9
    ensures var off := RowOff(ctx, r) + 4 * c; Load(Raster(s, ctx, n), off) == Load(Raster(s, ctx, n - 1), off)
  {
    hide Covers, Load, Raster, RowOff;
    NinePitch(ctx, r, c, n - 1);
    LastRowFrame(s, ctx, n);
    var row := RowOff(ctx, n - 1);
    LoadOutside(Raster(s, ctx, n - 1), Raster(s, ctx, n), row, row + 36, RowOff(ctx, r) + 4 * c);
  }

  lemma {:induction false} StillFirst(s: seq<u8>, ctx: Ctx, n: nat, r: nat, c: nat)
    requires Covers(ctx, |s|) && 1 <= n <= r < ctx.rows && 36 <= ctx.widthX && c < 9
    ensures var off := RowOff(ctx, r) + 4 * c; Load(Raster(s, ctx, n), off) == Load(Raster(s, ctx, 1), off)
    decreases n
  {
    hide Covers, Load, Raster, RowOff;
    if n > 1 {
      StillFirst(s, ctx, n - 1, r, c);
      NotYetDrawn(s, ctx, n, r, c);
    }
  }

  // ----- blends and the text colour -----

  /** Byte `n` is `f` or up to `slack` above it. */
  predicate Near(f: int, n: int, slack: nat)
  {
    f <= n <= f + slack
  }

  /**
   The pixels that a blend on `side` turns into the text colour: same top byte, each channel
   equal to the colour's or a little above it.
   */
  predicate TurnsInto(ctx: Ctx, side: Side, neigh: u32)
  {
    && neigh / 0x100_0000 == ctx.color / 0x100_0000
    && Near(Channel(ctx.color, 0), Channel(neigh, 0), if Smooth(ctx) == 1 || side.Right? then 1 else 3)
    && Near(Channel(ctx.color, 1), Channel(neigh, 1), 1)
    && Near(Channel(ctx.color, 2), Channel(neigh, 2), if Smooth(ctx) == 1 || side.Left? then 1 else 3)
  }

  lemma WordInjective(t: u8, r: u8, g: u8, b: u8, t': u8, r': u8, g': u8, b': u8)
    ensures Word(t, r, g, b) == Word(t', r', g', b') <==> t == t' && r == r' && g == g' && b == b'
  {
    hide Channel;
    WordBytes(t, r, g, b, 0);
    WordBytes(t', r', g', b', 0);
  }

  /** Exactly those pixels blend to the colour; in particular the colour itself does. */
  lemma MixedIsColor(ctx: Ctx, side: Side, neigh: u32)
    ensures Mixed(ctx, side, neigh) == ctx.color <==> TurnsInto(ctx, side, neigh)
    ensures Mixed(ctx, side, ctx.color) == ctx.color
  {
    MixedWhen(ctx, side, neigh);
    MixedWhen(ctx, side, ctx.color);
  }

  lemma MixedWhen(ctx: Ctx, side: Side, neigh: u32)
    ensures Mixed(ctx, side, neigh) == ctx.color <==> TurnsInto(ctx, side, neigh)
  {
    hide Word, Channel;
    var nt, nr, ng, nb := neigh / 0x100_0000, Channel(neigh, 2), Channel(neigh, 1), Channel(neigh, 0);
    var ft, fr, fg, fb := ctx.color / 0x100_0000, Channel(ctx.color, 2), Channel(ctx.color, 1), Channel(ctx.color, 0);
    WordOfBytes(ctx.color);
    if Smooth(ctx) == 1 {
      WordInjective(nt, Quarter(nr, fr), Quarter(ng, fg), Quarter(nb, fb), ft, fr, fg, fb);
    } else if side.Left? {
      WordInjective(nt, Weighted(7, nr, 1, fr), Weighted(11, ng, 5, fg), Weighted(11, fb, 5, nb), ft, fr, fg, fb);
    } else {
      WordInjective(nt, Weighted(11, fr, 5, nr), Weighted(11, ng, 5, fg), Weighted(7, nb, 1, fb), ft, fr, fg, fb);
    }
  }

  // ----- lit pixels -----

  /** With no screen delta a row keeps the colour where it stands. */
  lemma KeepsColor(ctx: Ctx, q: nat, off: int, pixel: u32)
    requires ctx.delta == 0 && (Lights(ctx, q, off) || pixel == ctx.color)
    ensures RowOver(ctx, q, off, pixel) == ctx.color
  {
    hide RowOver, Lights, BlendsInto, Mixed;
    RowOverIs(ctx, q, off, pixel);
    MixedIsColor(ctx, Left, pixel);
    MixedIsColor(ctx, Right, pixel);
  }

  lemma {:induction false} StaysColor(ctx: Ctx, n: nat, p: nat, off: int, pixel: u32)
    requires p < n && ctx.delta == 0 && Lights(ctx, p, off)
    ensures Layered(ctx, n, off, pixel) == ctx.color
    decreases n
  {
    hide RowOver, Lights;
    if p < n - 1 {
      StaysColor(ctx, n - 1, p, off, pixel);
    }
    KeepsColor(ctx, n - 1, off, Layered(ctx, n - 1, off, pixel));
  }

  /**
   With no screen delta every pixel lit by any row ends as the colour, whatever EDX held and
   however the rows overlap.
   */
  lemma NoPixelLost(s: seq<u8>, ctx: Ctx, p: nat, off: int)
    requires Covers(ctx, |s|) && p < ctx.rows && Whole(ctx, ctx.rows, off) && Lights(ctx, p, off)
    requires ctx.delta == 0
    ensures Load(Raster(s, ctx, ctx.rows), off) == ctx.color
  {
    hide Covers, Load, Raster, Whole, Lights;
    RasterLayers(s, ctx, ctx.rows, off);
    StaysColor(ctx, ctx.rows, p, off, Load(s, off));
  }

  /** The last of the first `n` rows to touch the pixel. */
  function LastTouch(ctx: Ctx, n: nat, off: int): (q: nat)
  {
    if n == 0 then 0 else if Touches(ctx, n - 1, off) then n - 1 else LastTouch(ctx, n - 1, off)
  }

  /** With a screen delta, what a row that touches the pixel leaves there, whatever it was. */
  function Value(ctx: Ctx, q: nat, off: int): (v: u32)
  {
    if BlendsInto(ctx, q, Left, off) then Mixed(ctx, Left, ScreenPixel(ctx, off))
    else if Lights(ctx, q, off) then ctx.color
    else Mixed(ctx, Right, ScreenPixel(ctx, off))
  }

  lemma RowValue(ctx: Ctx, q: nat, off: int, pixel: u32)
    requires ctx.delta != 0 && Touches(ctx, q, off)
    ensures RowOver(ctx, q, off, pixel) == Value(ctx, q, off)
  {
    hide RowOver, Lights, BlendsInto, Mixed, ScreenPixel;
    RowOverIs(ctx, q, off, pixel);
  }

  lemma {:induction false} LastValue(ctx: Ctx, n: nat, r: nat, off: int, pixel: u32)
    requires ctx.delta != 0 && r < n && Touches(ctx, r, off)
    ensures r <= LastTouch(ctx, n, off) < n && Touches(ctx, LastTouch(ctx, n, off), off)
    ensures Layered(ctx, n, off, pixel) == Value(ctx, LastTouch(ctx, n, off), off)
    decreases n
  {
    hide RowOver, Touches, Value;
    if Touches(ctx, n - 1, off) {
      RowValue(ctx, n - 1, off, Layered(ctx, n - 1, off, pixel));
    } else {
      LastValue(ctx, n - 1, r, off, pixel);
      Untouched(ctx, n - 1, off, Layered(ctx, n - 1, off, pixel));
    }
  }

  /**
   Row `q` leaves the colour over a screen: it lights the pixel and does not blend back over
   it, or the screen pixel there is one that blends to the colour.
   */
  predicate LeavesColor(ctx: Ctx, q: nat, off: int)
  {
    || (Lights(ctx, q, off) && !BlendsInto(ctx, q, Left, off))
    || TurnsInto(ctx, if BlendsInto(ctx, q, Left, off) then Left else Right, ScreenPixel(ctx, off))
  }

  /**
   A pixel lit by some row, the caller's EDX included, ends as the colour if and only if
   neighbours are blended from the buffer itself, or the last row to touch the pixel leaves
   the colour there.
   */
  lemma LitColumn(s: seq<u8>, ctx: Ctx, p: nat, off: int)
    requires Covers(ctx, |s|) && p < ctx.rows && Whole(ctx, ctx.rows, off) && Lights(ctx, p, off)
    ensures Load(Raster(s, ctx, ctx.rows), off) == ctx.color
            <==> ctx.delta == 0 || LeavesColor(ctx, LastTouch(ctx, ctx.rows, off), off)
  {
    hide Covers, Load, Raster, Whole, Lights, BlendsInto, Mixed, TurnsInto, ScreenPixel, LastTouch;
    RasterLayers(s, ctx, ctx.rows, off);
    if ctx.delta == 0 {
      StaysColor(ctx, ctx.rows, p, off, Load(s, off));
    } else {
      LastValue(ctx, ctx.rows, p, off, Load(s, off));
      MixedIsColor(ctx, Left, ScreenPixel(ctx, off));
      MixedIsColor(ctx, Right, ScreenPixel(ctx, off));
    }
  }

  // ----- blends fade -----

  /** The blue channel farthest from the colour's. */
  function Farthest(f: int): (x: u8)
  {
    if f < 128 then 255 else 0
  }

  function Gap(f: int, x: int): (d: int)
  {
    if f < 128 then x - f else f - x
  }

  function MixBlue(ctx: Ctx, side: Side, x: u8): (y: u8)
  {
    var f := Channel(ctx.color, 0);
    if Smooth(ctx) == 1 then Quarter(x, f)
    else if side.Left? then Weighted(11, f, 5, x)
    else Weighted(7, x, 1, f)
  }

  lemma BlueOf(ctx: Ctx, side: Side, neigh: u32)
    ensures Channel(Mixed(ctx, side, neigh), 0) == MixBlue(ctx, side, Channel(neigh, 0))
  {
    hide Channel, Word;
    var nt, nr, ng, nb := neigh / 0x100_0000, Channel(neigh, 2), Channel(neigh, 1), Channel(neigh, 0);
    var fr, fg, fb := Channel(ctx.color, 2), Channel(ctx.color, 1), Channel(ctx.color, 0);
    if Smooth(ctx) == 1 {
      WordBytes(nt, Quarter(nr, fr), Quarter(ng, fg), Quarter(nb, fb), 0);
    } else if side.Left? {
      WordBytes(nt, Weighted(7, nr, 1, fr), Weighted(11, ng, 5, fg), Weighted(11, fb, 5, nb), 0);
    } else {
      WordBytes(nt, Weighted(11, fr, 5, nr), Weighted(11, ng, 5, fg), Weighted(7, nb, 1, fb), 0);
    }
  }

  /** A blend never moves away from the colour, and moves nearer from a distance of eight on. */
  lemma MixFades(ctx: Ctx, side: Side, x: u8)
    requires var f := Channel(ctx.color, 0); Gap(f, x) >= 0
    ensures var f := Channel(ctx.color, 0); var y := MixBlue(ctx, side, x);
            0 <= Gap(f, y) <= Gap(f, x) && (Gap(f, x) >= 8 ==> Gap(f, y) < Gap(f, x))
  {
    hide Channel;
  }

  /** From the farthest value a blend comes at least sixteen nearer. */
  lemma MixFadesFar(ctx: Ctx, side: Side)
    ensures var f := Channel(ctx.color, 0); var far := Farthest(f);
            Gap(f, far) >= 128 && Gap(f, MixBlue(ctx, side, far)) <= Gap(f, far) - 16
  {
    hide Channel;
  }

  /** A blend keeps values apart, and keeps five sixteenths of the distance from the colour. */
  lemma MixKeepsApart(ctx: Ctx, side: Side, x: u8, y: u8)
    requires var f := Channel(ctx.color, 0); 0 <= Gap(f, x) <= Gap(f, y) - 4
    ensures var f := Channel(ctx.color, 0); Gap(f, MixBlue(ctx, side, x)) < Gap(f, MixBlue(ctx, side, y))
    ensures var f := Channel(ctx.color, 0);
            side.Right? && Gap(f, x) <= Gap(f, y) - 16
            ==> Gap(f, MixBlue(ctx, side, x)) <= Gap(f, MixBlue(ctx, side, y)) - 4
    ensures var f := Channel(ctx.color, 0); Gap(f, MixBlue(ctx, side, y)) >= (5 * Gap(f, y)) / 16
  {
    hide Channel;
  }

  /** The blue channel after a row that does not light the pixel, neighbours blended from the buffer. */
  function RowBlue(ctx: Ctx, fromLeft: bool, fromRight: bool, x: u8): (y: u8)
  {
    var y := if fromLeft then MixBlue(ctx, Right, x) else x;
    if fromRight then MixBlue(ctx, Left, y) else y
  }

  lemma RowFades(ctx: Ctx, fromLeft: bool, fromRight: bool, x: u8)
    requires Gap(Channel(ctx.color, 0), x) >= 0
    ensures var f := Channel(ctx.color, 0); var y := RowBlue(ctx, fromLeft, fromRight, x);
            && 0 <= Gap(f, y) <= Gap(f, x)
            && ((fromLeft || fromRight) && Gap(f, x) >= 8 ==> Gap(f, y) < Gap(f, x))
  {
    hide Channel, MixBlue, Gap;
    MixFades(ctx, Right, x);
    MixFades(ctx, Left, if fromLeft then MixBlue(ctx, Right, x) else x);
  }

  lemma RowFadesFar(ctx: Ctx, fromLeft: bool, fromRight: bool, x: u8)
    requires var f := Channel(ctx.color, 0); 0 <= Gap(f, x) <= Gap(f, Farthest(f)) - 16
    ensures var f := Channel(ctx.color, 0); var y := RowBlue(ctx, fromLeft, fromRight, Farthest(f));
            && 8 <= Gap(f, y) && Gap(f, RowBlue(ctx, fromLeft, fromRight, x)) < Gap(f, y)
            && (fromLeft || fromRight ==> Gap(f, y) <= Gap(f, Farthest(f)) - 16)
  {
    hide Channel, MixBlue, Gap, Farthest;
    var f := Channel(ctx.color, 0);
    var far := Farthest(f);
    MixFadesFar(ctx, Right);
    MixFadesFar(ctx, Left);
    MixKeepsApart(ctx, Right, x, far);
    MixFades(ctx, Right, x);
    MixFades(ctx, Right, far);
    var x', far' := if fromLeft then MixBlue(ctx, Right, x) else x, if fromLeft then MixBlue(ctx, Right, far) else far;
    MixKeepsApart(ctx, Left, x', far');
    MixFades(ctx, Left, far');
  }

  /** The blue channel of a pixel. */
  function Blue(v: u32): (x: u8)
  {
    Channel(v, 0)
  }

  lemma RowOverBlue(ctx: Ctx, q: nat, off: int, v: u32)
    requires ctx.delta == 0 && !Lights(ctx, q, off)
    ensures Blue(RowOver(ctx, q, off, v))
            == RowBlue(ctx, BlendsInto(ctx, q, Right, off), BlendsInto(ctx, q, Left, off), Blue(v))
  {
    hide RowOver, Lights, BlendsInto, Mixed, Channel, MixBlue;
    RowOverIs(ctx, q, off, v);
    BlueOf(ctx, Right, v);
    BlueOf(ctx, Left, v);
    BlueOf(ctx, Left, Mixed(ctx, Right, v));
  }

  /** How far a pixel is from the colour, in blue. */
  function Far(ctx: Ctx, v: u32): (d: int)
  {
    Gap(Channel(ctx.color, 0), Blue(v))
  }

  ghost predicate NoneLights(ctx: Ctx, m: nat, n: nat, off: int)
  {
    forall q: nat | m <= q < n :: !Lights(ctx, q, off)
  }

  /** Rows that only blend bring the pixel no farther from the colour, and nearer if one touches it. */
  lemma {:induction false} Fading(ctx: Ctx, m: nat, n: nat, off: int, v: u32)
    requires m <= n && ctx.delta == 0 && NoneLights(ctx, m, n, off) && Far(ctx, Layered(ctx, m, off, v)) >= 0
    ensures var d, e := Far(ctx, Layered(ctx, m, off, v)), Far(ctx, Layered(ctx, n, off, v));
            0 <= e <= d && (d >= 8 && AnyTouch(ctx, m, n, off) ==> e < d)
    decreases n
  {
    hide RowOver, Lights, BlendsInto, RowBlue, Gap, Blue, Channel;
    if m < n {
      Fading(ctx, m, n - 1, off, v);
      var w := Layered(ctx, n - 1, off, v);
      RowOverBlue(ctx, n - 1, off, w);
      RowFades(ctx, BlendsInto(ctx, n - 1, Right, off), BlendsInto(ctx, n - 1, Left, off), Blue(w));
    }
  }

  /** A pixel as far from the colour as can be in blue. */
  function Extreme(ctx: Ctx): (v: u32)
  {
    Farthest(Channel(ctx.color, 0))
  }

  lemma ExtremeBlue(ctx: Ctx)
    ensures Blue(Extreme(ctx)) == Farthest(Channel(ctx.color, 0)) && Far(ctx, Extreme(ctx)) >= 128
  {
  }

  lemma {:induction false} FadedFar(ctx: Ctx, n: nat, off: int)
    requires ctx.delta == 0 && NoneLights(ctx, 0, n, off)
    ensures var d := Far(ctx, Layered(ctx, n, off, Extreme(ctx)));
            if AnyTouch(ctx, 0, n, off) then 0 <= d <= Far(ctx, Extreme(ctx)) - 16
            else Layered(ctx, n, off, Extreme(ctx)) == Extreme(ctx)
  {
    hide RowOver, Lights, BlendsInto, RowBlue, Gap, Blue, Channel, Farthest, Extreme;
    if n > 0 {
      FadedFar(ctx, n - 1, off);
      ExtremeBlue(ctx);
      var w := Layered(ctx, n - 1, off, Extreme(ctx));
      RowOverBlue(ctx, n - 1, off, w);
      var l, r := BlendsInto(ctx, n - 1, Right, off), BlendsInto(ctx, n - 1, Left, off);
      RowFades(ctx, l, r, Blue(w));
      if w == Extreme(ctx) {
        Start(ctx, l, r);
        if !Touches(ctx, n - 1, off) {
          Untouched(ctx, n - 1, off, w);
        }
      }
    }
  }

  lemma Start(ctx: Ctx, fromLeft: bool, fromRight: bool)
    ensures var f := Channel(ctx.color, 0); var y := RowBlue(ctx, fromLeft, fromRight, Farthest(f));
            8 <= Gap(f, y) && (fromLeft || fromRight ==> Gap(f, y) <= Gap(f, Farthest(f)) - 16)
  {
    hide RowBlue, Channel;
    var f := Channel(ctx.color, 0);
    RowFadesFar(ctx, fromLeft, fromRight, f);
  }

  // ----- when a pixel ends as one row alone would leave it -----

  /** Row `r` blends into a dark pixel, and another row touches it too: the extreme pixel tells the difference. */
  lemma BlendTold(ctx: Ctx, r: nat, off: int)
    requires r < ctx.rows && ctx.delta == 0 && !Lights(ctx, r, off) && !Only(ctx, r, off)
    ensures Layered(ctx, ctx.rows, off, Extreme(ctx)) != RowOver(ctx, r, off, Extreme(ctx))
  {
    hide RowOver, Lights, BlendsInto, RowBlue, Gap, Blue, Channel, Farthest, Extreme, AnyTouch, Layered, Touches;
    var l, e := BlendsInto(ctx, r, Right, off), BlendsInto(ctx, r, Left, off);
    RowOverBlue(ctx, r, off, Extreme(ctx));
    ExtremeBlue(ctx);
    Start(ctx, l, e);
    if p: nat :| p < ctx.rows && Lights(ctx, p, off) {
      StaysColor(ctx, ctx.rows, p, off, Extreme(ctx));
      NoGap(ctx);
    } else {
      FadedFar(ctx, r, off);
      RowBetween(ctx, r, off);
      Fading(ctx, r + 1, ctx.rows, off, Extreme(ctx));
    }
  }

  lemma NoGap(ctx: Ctx)
    ensures Far(ctx, ctx.color) == 0
  {
  }

  /** After row `r` the pixel is at most as far as row `r` alone leaves it, and nearer if an earlier row touched it. */
  lemma RowBetween(ctx: Ctx, r: nat, off: int)
    requires ctx.delta == 0 && NoneLights(ctx, 0, r + 1, off)
    ensures var d, e := Far(ctx, Layered(ctx, r + 1, off, Extreme(ctx))), Far(ctx, RowOver(ctx, r, off, Extreme(ctx)));
            0 <= d <= e && 8 <= e && (AnyTouch(ctx, 0, r, off) ==> d < e)
  {
    hide RowOver, Lights, BlendsInto, RowBlue, Gap, Blue, Channel, Farthest, Extreme, AnyTouch;
    var l, e := BlendsInto(ctx, r, Right, off), BlendsInto(ctx, r, Left, off);
    var w := Layered(ctx, r, off, Extreme(ctx));
    FadedFar(ctx, r, off);
    ExtremeBlue(ctx);
    Start(ctx, l, e);
    RowOverBlue(ctx, r, off, w);
    RowOverBlue(ctx, r, off, Extreme(ctx));
    RowFades(ctx, l, e, Blue(w));
    if AnyTouch(ctx, 0, r, off) {
      RowFadesFar(ctx, l, e, Blue(w));
    }
  }

  /** Over the buffer `s` the pixel ends as row `r` alone would leave it. */
  ghost predicate AsAlone(s: seq<u8>, ctx: Ctx, r: nat, off: int)
  {
    Load(Raster(s, ctx, ctx.rows), off) == RowOver(ctx, r, off, Load(s, off))
  }

  /**
   No other row touches the pixel; or it is lit and blends keep the colour; or, with a screen
   delta, the last row to touch it leaves what row `r` leaves.
   */
  ghost predicate Undisturbed(ctx: Ctx, r: nat, off: int)
  {
    || Only(ctx, r, off)
    || (ctx.delta == 0 && Lights(ctx, r, off))
    || (ctx.delta != 0 && Touches(ctx, r, off)
        && Value(ctx, LastTouch(ctx, ctx.rows, off), off) == Value(ctx, r, off))
  }

  lemma UndisturbedLayer(ctx: Ctx, r: nat, off: int, v: u32)
    requires r < ctx.rows && Undisturbed(ctx, r, off)
    ensures Layered(ctx, ctx.rows, off, v) == RowOver(ctx, r, off, v)
  {
    hide RowOver, Lights, Touches, Value, LastTouch, Only, Layered;
    if Only(ctx, r, off) {
      OnlyLayer(ctx, r, off, v);
    } else if ctx.delta == 0 {
      StaysColor(ctx, ctx.rows, r, off, v);
      KeepsColor(ctx, r, off, v);
    } else {
      LastValue(ctx, ctx.rows, r, off, v);
      RowValue(ctx, r, off, v);
    }
  }

  lemma Alone(s: seq<u8>, ctx: Ctx, r: nat, off: int)
    requires Covers(ctx, |s|) && r < ctx.rows && Whole(ctx, ctx.rows, off) && Undisturbed(ctx, r, off)
    ensures AsAlone(s, ctx, r, off)
  {
    hide Covers, Whole, Undisturbed, Raster, Load, RowOver, Layered;
    RasterLayers(s, ctx, ctx.rows, off);
    UndisturbedLayer(ctx, r, off, Load(s, off));
  }

  /** A background over which a disturbed pixel ends otherwise. */
  function Telltale(ctx: Ctx, off: int): (v: u32)
  {
    if ctx.delta == 0 then Extreme(ctx)
    else if Value(ctx, LastTouch(ctx, ctx.rows, off), off) == 0 then 1
    else 0
  }

  lemma DisturbedLayer(ctx: Ctx, r: nat, off: int)
    requires r < ctx.rows && !Undisturbed(ctx, r, off)
    ensures Layered(ctx, ctx.rows, off, Telltale(ctx, off)) != RowOver(ctx, r, off, Telltale(ctx, off))
  {
    var v := Telltale(ctx, off);
    hide RowOver, Lights, Touches, Value, LastTouch, Layered, Extreme;
    if ctx.delta == 0 {
      BlendTold(ctx, r, off);
    } else {
      var p: nat :| p < ctx.rows && Touches(ctx, p, off);
      LastValue(ctx, ctx.rows, p, off, v);
      if Touches(ctx, r, off) {
        RowValue(ctx, r, off, v);
      } else {
        Untouched(ctx, r, off, v);
      }
    }
  }

  /**
   For every pitch of whole pixels, every EDX, glyph and smoothing mode: a pixel of row `r` ends
   as row `r` alone would leave it, over every background, if and only if it is undisturbed.
   */
  lemma AloneExact(len: nat, ctx: Ctx, r: nat, off: int)
    requires Covers(ctx, len) && r < ctx.rows && Has(ctx, r, off) && Whole(ctx, ctx.rows, off)
    ensures (forall s: seq<u8> | |s| == len :: AsAlone(s, ctx, r, off)) <==> Undisturbed(ctx, r, off)
  {
    hide Covers, Whole, Undisturbed, RowOver, Layered, Store, Load, Raster, Telltale;
    if Undisturbed(ctx, r, off) {
      forall s: seq<u8> | |s| == len ensures AsAlone(s, ctx, r, off) {
        Alone(s, ctx, r, off);
      }
    } else {
      RowFits(ctx, r, len);
      var s := Store(seq(len, i => 0), off, Telltale(ctx, off));
      StoreFacts(seq(len, i => 0), off, Telltale(ctx, off));
      RasterLayers(s, ctx, ctx.rows, off);
      DisturbedLayer(ctx, r, off);
      assert !AsAlone(s, ctx, r, off);
    }
  }

  // ----- the glyph's own columns -----

  /**
   A glyph column that is undisturbed: a lit pixel ends as exactly the colour; a dark one is
   blended at most once, from its original background, or keeps it.
   */
  lemma GlyphColumn(s: seq<u8>, ctx: Ctx, r: nat, c: nat)
    requires Covers(ctx, |s|) && r < ctx.rows && c < 8
    requires var off := RowOff(ctx, r) + 4 * c; Whole(ctx, ctx.rows, off) && Undisturbed(ctx, r, off)
    ensures var off := RowOff(ctx, r) + 4 * c; var g := ctx.glyph + r; var mask := Mask(ctx, r);
            Load(Raster(s, ctx, ctx.rows), off) ==
            if Lit(ctx.mem, g, c) then ctx.color
            else if BlendedFrom(ctx, g, mask, Right, c) then Blend(ctx, Right, off, Load(s, off))
            else if BlendedFrom(ctx, g, mask, Left, c) then Blend(ctx, Left, off, Load(s, off))
            else Load(s, off)
  {
    hide Blend, Load, Raster, Covers, Whole, Undisturbed;
    Alone(s, ctx, r, RowOff(ctx, r) + 4 * c);
    BlendedOnce(ctx, r, c);
    MaskIsGlyph(ctx, r, c);
  }

  /** With clean upper bytes an undisturbed ninth column is only ever blended, from the lit eighth. */
  lemma NinthColumn(s: seq<u8>, ctx: Ctx, r: nat)
    requires Covers(ctx, |s|) && r < ctx.rows && (r > 0 || ctx.edxIn < 256)
    requires var off := RowOff(ctx, r) + 32; Whole(ctx, ctx.rows, off) && Undisturbed(ctx, r, off)
    ensures var off := RowOff(ctx, r) + 32; var g := ctx.glyph + r;
            Load(Raster(s, ctx, ctx.rows), off) ==
            if BlendedFrom(ctx, g, Mask(ctx, r), Right, 8) then Blend(ctx, Right, off, Load(s, off)) else Load(s, off)
  {
    hide Blends, Blend, Load, Raster, Covers, Whole, Undisturbed;
    Alone(s, ctx, r, RowOff(ctx, r) + 32);
    assert Mask(ctx, r) < Pow2(8) by { WordWidths(); }
    NoHighBits(Mask(ctx, r), 8, 8);
    NoHighBits(Mask(ctx, r), 8, 9);
  }

  // ----- which neighbours are blended -----

  /** Three pixels of a row, read from a lit one outward: the lit one's column, its neighbour's, and the next. */
  datatype Triple = Triple(own: bool, next: bool, far: bool)

  function TripleAt(mem: int -> u8, g: int, side: Side, b: nat): (t: Triple)
    requires b > 0 || side.Right?
  {
    var n: nat := if side.Left? then b - 1 else b + 1;
    var f: int := if side.Left? then b - 2 else b + 2;
    Triple(Bit(mem(g + b / 8), b % 8), Bit(mem(g + n / 8), n % 8), f >= 0 && Bit(mem(g + f / 8), f % 8))
  }

  /** A row above or below calls for a blend: it is lit at the neighbour alone, or ends a step there. */
  predicate Calls(row: Triple, opposite: Triple)
  {
    match row
    case Triple(false, true, _) => true
    case Triple(true, true, false) => !opposite.own
    case _ => false
  }

  /** The rule as a picture of the three rows: nothing lit beyond the pixel, and a corner above or below. */
  lemma BlendPicture(mem: int -> u8, g: int, side: Side, b: nat)
    ensures side.Left? && b == 0 ==> !Blends(mem, g, side, b)
    ensures side.Right? || b > 0 ==>
              var above, row, below := TripleAt(mem, g - 1, side, b), TripleAt(mem, g, side, b),
                                       TripleAt(mem, g + 1, side, b);
              Blends(mem, g, side, b)
              <==> !row.next && !row.far && (Calls(below, above) || Calls(above, below))
  {
    if side.Right? || b > 0 {
      TripleLit(mem, g - 1, side, b);
      TripleLit(mem, g, side, b);
      TripleLit(mem, g + 1, side, b);
      hide TripleAt, Lit;
      assert g - 1 == g + (-1);
    }
  }

  lemma TripleLit(mem: int -> u8, g: int, side: Side, b: nat)
    requires b > 0 || side.Right?
    ensures var n: nat := if side.Left? then b - 1 else b + 1; var f: int := if side.Left? then b - 2 else b + 2;
            TripleAt(mem, g, side, b) == Triple(Lit(mem, g, b), Lit(mem, g, n), f >= 0 && Lit(mem, g, f))
  {
    hide Bit;
  }

  // ----- a blended pixel, in bytes -----

  /** Byte `k` of a word, the least significant first. */
  function ByteOf(x: u32, k: nat): (b: u8)
    requires k < 4
  {
    if k == 0 then x % 256 else if k == 1 then x / 256 % 256 else if k == 2 then x / 0x1_0000 % 256 else x / 0x100_0000
  }

  /** `v` is `bg` mixed with `color`, byte by byte, as the smoothing mode and the side say; the top byte stays. */
  predicate MixedBytes(smoothing: u32, side: Side, bg: u32, color: u32, v: u32)
  {
    var b: int, g: int, r: int := ByteOf(bg, 0), ByteOf(bg, 1), ByteOf(bg, 2);
    var cb: int, cg: int, cr: int := ByteOf(color, 0), ByteOf(color, 1), ByteOf(color, 2);
    && ByteOf(v, 3) == ByteOf(bg, 3)
    && if smoothing % 256 == 1 then
         ByteOf(v, 2) == (3 * r + cr) / 4 && ByteOf(v, 1) == (3 * g + cg) / 4 && ByteOf(v, 0) == (3 * b + cb) / 4
       else if side.Left? then
         ByteOf(v, 2) == (7 * r + cr) / 8 && ByteOf(v, 1) == (11 * g + 5 * cg) / 16
         && ByteOf(v, 0) == (11 * cb + 5 * b) / 16
       else
         ByteOf(v, 2) == (11 * cr + 5 * r) / 16 && ByteOf(v, 1) == (11 * g + 5 * cg) / 16
         && ByteOf(v, 0) == (7 * b + cb) / 8
  }

  lemma Channels(x: u32)
    ensures ByteOf(x, 0) == Channel(x, 0) && ByteOf(x, 1) == Channel(x, 1) && ByteOf(x, 2) == Channel(x, 2)
    ensures ByteOf(x, 3) == x / 0x100_0000
  {
  }

  lemma WordIs(top: u8, red: u8, green: u8, blue: u8)
    ensures var w := Word(top, red, green, blue);
            ByteOf(w, 0) == blue && ByteOf(w, 1) == green && ByteOf(w, 2) == red && ByteOf(w, 3) == top
  {
    hide Channel, ByteOf;
    var w := Word(top, red, green, blue);
    WordBytes(top, red, green, blue, 0);
    Channels(w);
    assert w / 0x100_0000 == top;
  }

  lemma MixedIs(ctx: Ctx, side: Side, bg: u32)
    ensures MixedBytes(ctx.smoothing, side, bg, ctx.color, Mixed(ctx, side, bg))
  {
    hide Channel, ByteOf, Word;
    Channels(bg);
    Channels(ctx.color);
    var b, g, r := Channel(bg, 0), Channel(bg, 1), Channel(bg, 2);
    var cb, cg, cr := Channel(ctx.color, 0), Channel(ctx.color, 1), Channel(ctx.color, 2);
    if Smooth(ctx) == 1 {
      WordIs(bg / 0x100_0000, Quarter(r, cr), Quarter(g, cg), Quarter(b, cb));
    } else if side.Left? {
      WordIs(bg / 0x100_0000, Weighted(7, r, 1, cr), Weighted(11, g, 5, cg), Weighted(11, cb, 5, b));
    } else {
      WordIs(bg / 0x100_0000, Weighted(11, cr, 5, r), Weighted(11, g, 5, cg), Weighted(7, b, 1, cb));
    }
  }

  lemma RowPlace(ctx: Ctx, r: nat, c: nat)
    ensures RowOff(ctx, r) + 4 * c == ctx.origin + r * ctx.widthX + 4 * c
    ensures ctx.delta != 0 ==>
              Background(ctx, RowOff(ctx, r) + 4 * c, 0)
              == ctx.getPixel((ctx.buffer + r * ctx.widthX + 4 * c + ctx.delta) % TWO32 / 4)
  {
    assert ctx.buffer + (RowOff(ctx, r) + 4 * c) - ctx.origin + ctx.delta
        == ctx.buffer + r * ctx.widthX + 4 * c + ctx.delta;
  }

  lemma NinthDark(ctx: Ctx, r: nat)
    requires r > 0 || ctx.edxIn < 256
    ensures !Bit(Mask(ctx, r), 8)
  {
    assert Mask(ctx, r) < Pow2(8) by { WordWidths(); }
    NoHighBits(Mask(ctx, r), 8, 8);
  }

  /**
   A dark pixel into which a lit glyph bit blends, and which no other row touches: it ends as the
   mix of the colour with its background, byte by byte. The background is the pixel itself or,
   with a screen delta, the screen pixel whose index is a quarter of its address plus the delta.
   */
  lemma DarkPixel(s: seq<u8>, ctx: Ctx, r: nat, c: nat, side: Side)
    requires Covers(ctx, |s|) && r < ctx.rows && c < 9 && (c < 8 || r > 0 || ctx.edxIn < 256)
    requires var b := if side.Left? then c + 1 else c - 1;
             && 0 <= b < 8 && ctx.smoothing % 256 != 0
             && Lit(ctx.mem, ctx.glyph + r, b) && Blends(ctx.mem, ctx.glyph + r, side, b)
    requires Whole(ctx, ctx.rows, RowOff(ctx, r) + 4 * c) && Only(ctx, r, RowOff(ctx, r) + 4 * c)
    ensures var off := ctx.origin + r * ctx.widthX + 4 * c;
            && off + 4 <= |s|
            && var bg := if ctx.delta == 0 then U32(s, off)
                         else ctx.getPixel((ctx.buffer + r * ctx.widthX + 4 * c + ctx.delta) % TWO32 / 4);
               MixedBytes(ctx.smoothing, side, bg, ctx.color, U32(Raster(s, ctx, ctx.rows), off))
  {
    var off := RowOff(ctx, r) + 4 * c;
    RowPlace(ctx, r, c);
    RowFits(ctx, r, |s|);
    hide Covers, Whole, Only, Raster, Mixed, MixedBytes, RowOff, Mask, Bit, U32, ScreenPixel, NoBitsFrom;
    RasterPixel(s, ctx, r, c);
    var g, b := ctx.glyph + r, if side.Left? then c + 1 else c - 1;
    MaskIsGlyph(ctx, r, b);
    BlendedOnce(ctx, r, c);
    assert !Bit(Mask(ctx, r), c) by { DarkBit(ctx, r, c, side, b); }
    assert BlendedFrom(ctx, g, Mask(ctx, r), side, c);
    MixedIs(ctx, side, Background(ctx, off, U32(s, off)));
  }

  lemma DarkBit(ctx: Ctx, r: nat, c: nat, side: Side, b: int)
    requires c < 9 && (c < 8 || r > 0 || ctx.edxIn < 256)
    requires b == (if side.Left? then c + 1 else c - 1) && 0 <= b && Blends(ctx.mem, ctx.glyph + r, side, b)
    ensures !Bit(Mask(ctx, r), c)
  {
    hide Bit, Mask;
    if c < 8 {
      MaskIsGlyph(ctx, r, c);
    } else {
      NinthDark(ctx, r);
    }
  }

  /** At a pitch of nine pixels only the first row can reach into another row's nine columns. */
  lemma OnlyFirstReaches(ctx: Ctx, r: nat, c: nat)
    requires 36 <= ctx.widthX && r < ctx.rows && c < 9
    ensures var off := RowOff(ctx, r) + 4 * c;
            && (Only(ctx, r, off) <==> r == 0 || !Touches(ctx, 0, off))
            && (Touches(ctx, r, off) ==> LastTouch(ctx, ctx.rows, off) == r)
  {
    hide RowOff;
    var off := RowOff(ctx, r) + 4 * c;
    forall q: nat ensures q != r && q > 0 ==> !Touches(ctx, q, off) {
      if q != r && q > 0 {
        NinePitch(ctx, r, c, q);
      }
    }
    if Touches(ctx, r, off) {
      LastIs(ctx, ctx.rows, r, off);
    }
  }

  lemma {:induction false} LastIs(ctx: Ctx, n: nat, r: nat, off: int)
    requires r < n && Touches(ctx, r, off) && !AnyTouch(ctx, r + 1, n, off)
    ensures LastTouch(ctx, n, off) == r
    decreases n
  {
    hide Touches;
    if r < n - 1 {
      LastIs(ctx, n - 1, r, off);
    }
  }
}

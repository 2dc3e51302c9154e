/**
 What the caller's EDX does to a glyph: the raster of `draw_char_1x` beside the raster of
 the same call with a clean register.
 */
module GlyphEdx {
  import opened Words
  import opened DrawChar
  import opened GlyphPixels

  /** The same call with a clean EDX. */
  function Clean(ctx: Ctx): (d: Ctx)
  {
    ctx.(edxIn := 0)
  }

  /** Over the buffer `s` the pixel ends as it would with a clean EDX. */
  ghost predicate SameAsClean(s: seq<u8>, ctx: Ctx, off: int)
  {
    Load(Raster(s, ctx, ctx.rows), off) == Load(Raster(s, Clean(ctx), ctx.rows), off)
  }

  /** Bit `b` of EDX, above its low byte, blends its neighbour on `side`. */
  predicate EdxBlends(ctx: Ctx, side: Side, b: int)
  {
    b >= 8 && Smooth(ctx) != 0 && Bit(ctx.edxIn, b) && Blends(ctx.mem, ctx.glyph, side, b)
  }

  /** A bit of EDX above its low byte lights the pixel, or blends into it. */
  predicate Dirt(ctx: Ctx, off: int)
  {
    Has(ctx, 0, off)
    && var c := Column(ctx, 0, off);
       (c >= 8 && Bit(ctx.edxIn, c)) || EdxBlends(ctx, Left, c + 1) || EdxBlends(ctx, Right, c - 1)
  }

  /** A later row paints over whatever the first has left. */
  ghost predicate Erased(ctx: Ctx, n: nat, off: int)
  {
    exists q: nat | 1 <= q < n :: Touches(ctx, q, off) && (ctx.delta != 0 || Lights(ctx, q, off))
  }

  /** The glyph itself blends the pixel over a screen that turns into the colour. */
  predicate Absorbed(ctx: Ctx, off: int)
  {
    ctx.delta != 0 && BlendsInto(Clean(ctx), 0, Right, off) && TurnsInto(ctx, Right, ScreenPixel(ctx, off))
  }

  /** What EDX held makes no difference to the pixel. */
  ghost predicate Harmless(ctx: Ctx, off: int)
  {
    !Dirt(ctx, off) || Erased(ctx, ctx.rows, off) || Absorbed(ctx, off)
  }

  // ----- the two masks -----

  /** Above the low byte the first row's mask is EDX. */
  lemma MaskIsEdx(ctx: Ctx, c: nat)
    requires c >= 8
    ensures Bit(Mask(ctx, 0), c) <==> Bit(ctx.edxIn, c)
  {
    var h := ctx.edxIn / 256;
    WordWidths();
    BitSplit(h, ctx.mem(ctx.glyph), 8, c);
    BitSplit(h, ctx.edxIn % 256, 8, c);
  }

  /** Bit by bit, the first row's mask is the clean one and what EDX adds above the low byte. */
  lemma MaskAdds(ctx: Ctx, c: nat)
    ensures Bit(Mask(ctx, 0), c) <==> Bit(Mask(Clean(ctx), 0), c) || (c >= 8 && Bit(ctx.edxIn, c))
    ensures c >= 8 ==> !Bit(Mask(Clean(ctx), 0), c)
  {
    hide Mask, Bit;
    if c >= 8 {
      MaskIsEdx(ctx, c);
      MaskIsEdx(Clean(ctx), c);
      ZeroHasNoBits(c);
    } else {
      MaskIsGlyph(ctx, 0, c);
      MaskIsGlyph(Clean(ctx), 0, c);
    }
  }

  lemma CleanHas(ctx: Ctx, off: int)
    ensures Has(Clean(ctx), 0, off) <==> Has(ctx, 0, off) && Column(ctx, 0, off) < 9
    ensures Has(Clean(ctx), 0, off) ==> Column(Clean(ctx), 0, off) == Column(ctx, 0, off)
  {
  }

  /** What the first row does to a pixel, with and without the caller's bits. */
  lemma FirstRowAdds(ctx: Ctx, off: int)
    requires Has(ctx, 0, off)
    ensures var c := Column(ctx, 0, off); var d := Clean(ctx);
            && (Lights(ctx, 0, off) <==> Lights(d, 0, off) || (c >= 8 && Bit(ctx.edxIn, c)))
            && (BlendsInto(ctx, 0, Left, off) <==> BlendsInto(d, 0, Left, off) || EdxBlends(ctx, Left, c + 1))
            && (BlendsInto(ctx, 0, Right, off) <==> BlendsInto(d, 0, Right, off) || EdxBlends(ctx, Right, c - 1))
            && (c >= 8 ==> !Lights(d, 0, off))
            && (c >= 7 ==> !BlendsInto(d, 0, Left, off))
  {
    hide Mask, Bit, Blends, Has, Column;
    var c := Column(ctx, 0, off);
    CleanHas(ctx, off);
    MaskAdds(ctx, c);
    MaskAdds(ctx, c + 1);
    if c > 0 {
      MaskAdds(ctx, c - 1);
    }
  }

  // ----- rows with and without the caller's bits -----

  lemma SameBlend(ctx: Ctx, off: int, l: bool, own: bool, r: bool, v: u32)
    ensures Layers(Clean(ctx), off, l, own, r, v) == Layers(ctx, off, l, own, r, v)
  {
    hide AntiAliased, OracleSubpixel;
  }

  /** Later rows do not see EDX. */
  lemma LaterSame(ctx: Ctx, q: nat, off: int, v: u32)
    requires q >= 1
    ensures Lights(Clean(ctx), q, off) == Lights(ctx, q, off) && Touches(Clean(ctx), q, off) == Touches(ctx, q, off)
    ensures RowOver(Clean(ctx), q, off, v) == RowOver(ctx, q, off, v)
  {
    hide RowOver, Layers, Blends, Bit;
    var d := Clean(ctx);
    assert forall side :: BlendsInto(d, q, side, off) == BlendsInto(ctx, q, side, off);
    RowOverIs(ctx, q, off, v);
    RowOverIs(d, q, off, v);
    SameBlend(ctx, off, BlendsInto(ctx, q, Right, off), Lights(ctx, q, off), BlendsInto(ctx, q, Left, off), v);
  }

  lemma {:induction false} AfterFirst(ctx: Ctx, n: nat, off: int, v: u32)
    requires n >= 1 && RowOver(Clean(ctx), 0, off, v) == RowOver(ctx, 0, off, v)
    ensures Layered(Clean(ctx), n, off, v) == Layered(ctx, n, off, v)
  {
    hide RowOver;
    if n > 1 {
      AfterFirst(ctx, n - 1, off, v);
      LaterSame(ctx, n - 1, off, Layered(ctx, n - 1, off, v));
    }
  }

  lemma {:induction false} ErasedSame(ctx: Ctx, n: nat, q: nat, off: int, v: u32)
    requires 1 <= q < n && Touches(ctx, q, off) && (ctx.delta != 0 || Lights(ctx, q, off))
    ensures Layered(Clean(ctx), n, off, v) == Layered(ctx, n, off, v)
    decreases n
  {
    hide RowOver, Touches, Lights, Value;
    var d := Clean(ctx);
    var x, y := Layered(ctx, n - 1, off, v), Layered(d, n - 1, off, v);
    LaterSame(ctx, n - 1, off, y);
    if q < n - 1 {
      ErasedSame(ctx, n - 1, q, off, v);
    } else if ctx.delta == 0 {
      KeepsColor(ctx, q, off, x);
      KeepsColor(ctx, q, off, y);
    } else {
      RowValue(ctx, q, off, x);
      RowValue(ctx, q, off, y);
    }
  }

  /** With no bit of EDX at the pixel, the first row does to it what the clean one does. */
  lemma NoDirt(ctx: Ctx, off: int, v: u32)
    requires !Dirt(ctx, off)
    ensures RowOver(Clean(ctx), 0, off, v) == RowOver(ctx, 0, off, v)
  {
    hide Bit, Blends, Layers, Lights, BlendsInto, RowOver;
    var d := Clean(ctx);
    RowOverIs(ctx, 0, off, v);
    RowOverIs(d, 0, off, v);
    SameBlend(ctx, off, BlendsInto(d, 0, Right, off), Lights(d, 0, off), BlendsInto(d, 0, Left, off), v);
    if Has(ctx, 0, off) {
      FirstRowAdds(ctx, off);
    } else {
      NotHas(ctx, off);
    }
  }

  lemma NotHas(ctx: Ctx, off: int)
    requires !Has(ctx, 0, off)
    ensures !Lights(ctx, 0, off) && !BlendsInto(ctx, 0, Left, off) && !BlendsInto(ctx, 0, Right, off)
    ensures !Lights(Clean(ctx), 0, off)
    ensures !BlendsInto(Clean(ctx), 0, Left, off) && !BlendsInto(Clean(ctx), 0, Right, off)
  {
    hide Bit, BlendedFrom;
    CleanHas(ctx, off);
  }

  /** Up to the ninth column a blend from the left excludes one from the right. */
  lemma OneSide(ctx: Ctx, off: int)
    requires BlendsInto(Clean(ctx), 0, Right, off)
    ensures BlendsInto(ctx, 0, Right, off)
    ensures !BlendsInto(ctx, 0, Left, off) && !BlendsInto(Clean(ctx), 0, Left, off)
  {
    hide Mask, BlendedFrom;
    CleanHas(ctx, off);
    var c := Column(ctx, 0, off);
    FirstRowAdds(ctx, off);
    BlendedOnce(ctx, 0, c);
    BlendedOnce(Clean(ctx), 0, c);
  }

  lemma AbsorbedSame(ctx: Ctx, off: int, v: u32)
    requires Absorbed(ctx, off)
    ensures RowOver(Clean(ctx), 0, off, v) == RowOver(ctx, 0, off, v)
  {
    hide Lights, BlendsInto, RowOver, Mixed, ScreenPixel, TurnsInto;
    var d := Clean(ctx);
    OneSide(ctx, off);
    MixedIsColor(ctx, Right, ScreenPixel(ctx, off));
    RowOverIs(ctx, 0, off, v);
    RowOverIs(d, 0, off, v);
    SameBlend(ctx, off, true, Lights(d, 0, off), false, v);
  }

  lemma HarmlessLayer(ctx: Ctx, off: int, v: u32)
    requires ctx.rows >= 1 && Harmless(ctx, off)
    ensures Layered(Clean(ctx), ctx.rows, off, v) == Layered(ctx, ctx.rows, off, v)
  {
    hide Dirt, Absorbed, RowOver, Layered, Touches, Lights;
    if Erased(ctx, ctx.rows, off) {
      var q: nat :| 1 <= q < ctx.rows && Touches(ctx, q, off) && (ctx.delta != 0 || Lights(ctx, q, off));
      ErasedSame(ctx, ctx.rows, q, off, v);
    } else {
      if Absorbed(ctx, off) {
        AbsorbedSame(ctx, off, v);
      } else {
        NoDirt(ctx, off, v);
      }
      AfterFirst(ctx, ctx.rows, off, v);
    }
  }

  lemma CleanFits(ctx: Ctx, len: nat, off: int)
    requires Covers(ctx, len) && Whole(ctx, ctx.rows, off)
    ensures Covers(Clean(ctx), len) && Whole(Clean(ctx), ctx.rows, off)
  {
    forall q: nat | q < ctx.rows && Meets(Clean(ctx), q, off) ensures OnGrid(Clean(ctx), q, off) {
      assert Meets(ctx, q, off) && OnGrid(ctx, q, off);
    }
  }

  /**
   At every pitch and over every background: where EDX makes no difference by the rule above,
   the raster is that of a clean EDX.
   */
  lemma EdxHarmless(s: seq<u8>, ctx: Ctx, off: int)
    requires Covers(ctx, |s|) && Whole(ctx, ctx.rows, off) && Harmless(ctx, off)
    ensures SameAsClean(s, ctx, off)
  {
    hide Harmless, Layered, Load, Raster, Whole;
    CleanFits(ctx, |s|, off);
    HarmlessLayer(ctx, off, Load(s, off));
    RasterLayers(s, ctx, ctx.rows, off);
    RasterLayers(s, Clean(ctx), ctx.rows, off);
  }

  // ----- when EDX matters -----

  /** A background over which a difference shows. */
  function Shows(ctx: Ctx, off: int): (v: u32)
  {
    if ctx.delta == 0 then Extreme(ctx) else if Value(ctx, 0, off) == 0 then 1 else 0
  }

  /** The first row alone, lighting the pixel or blending into it, changes that background. */
  lemma FirstShows(ctx: Ctx, off: int)
    requires Touches(ctx, 0, off)
    ensures RowOver(ctx, 0, off, Shows(ctx, off)) != Shows(ctx, off)
  {
    hide Lights, BlendsInto, RowOver, Value, Gap, Blue, Channel, Farthest, Extreme, RowBlue;
    var v := Shows(ctx, off);
    if ctx.delta != 0 {
      RowValue(ctx, 0, off, v);
    } else {
      ExtremeBlue(ctx);
      if Lights(ctx, 0, off) {
        KeepsColor(ctx, 0, off, v);
        NoGap(ctx);
      } else {
        RowOverBlue(ctx, 0, off, v);
        Start(ctx, BlendsInto(ctx, 0, Right, off), BlendsInto(ctx, 0, Left, off));
      }
    }
  }

  /** The first nine columns of the first row, which no later row reaches at this pitch. */
  lemma FirstColumnsShow(ctx: Ctx, off: int)
    requires Dirt(ctx, off) && Column(ctx, 0, off) < 9 && !Absorbed(ctx, off)
    ensures RowOver(ctx, 0, off, Shows(ctx, off)) != RowOver(Clean(ctx), 0, off, Shows(ctx, off))
  {
    hide Bit, EdxBlends, Lights, BlendsInto, RowOver, Value, Shows, Mixed, ScreenPixel, TurnsInto, Column;
    var d, v := Clean(ctx), Shows(ctx, off);
    var c := Column(ctx, 0, off);
    FirstRowAdds(ctx, off);
    FirstShows(ctx, off);
    if BlendsInto(d, 0, Right, off) {
      OneSide(ctx, off);
      NinthLit(ctx, off);
    } else {
      CleanDark(ctx, off);
      Untouched(d, 0, off, v);
    }
  }

  /** A pixel that the glyph does not blend from the left and EDX lights or blends is dark in the glyph. */
  lemma CleanDark(ctx: Ctx, off: int)
    requires Dirt(ctx, off) && Column(ctx, 0, off) < 9 && !BlendsInto(Clean(ctx), 0, Right, off)
    ensures !Touches(Clean(ctx), 0, off)
  {
    hide Bit, Column, BlendsInto;
    var c := Column(ctx, 0, off);
    FirstRowAdds(ctx, off);
    CleanHas(ctx, off);
    if c < 8 {
      assert EdxBlends(ctx, Left, 8) && c == 7;
      assert !Lit(ctx.mem, ctx.glyph, 7);
      MaskIsGlyph(Clean(ctx), 0, 7);
    }
  }

  /** The ninth column, blended by the glyph and lit by EDX. */
  lemma NinthLit(ctx: Ctx, off: int)
    requires Dirt(ctx, off) && Column(ctx, 0, off) < 9 && !Absorbed(ctx, off)
    requires BlendsInto(Clean(ctx), 0, Right, off) && !BlendsInto(ctx, 0, Left, off)
    requires !BlendsInto(Clean(ctx), 0, Left, off)
    ensures RowOver(ctx, 0, off, Shows(ctx, off)) != RowOver(Clean(ctx), 0, off, Shows(ctx, off))
  {
    hide Bit, Lights, BlendsInto, RowOver, Mixed, ScreenPixel, TurnsInto, Column, Extreme, Gap, Blue, Channel, RowBlue,
         Farthest, Blends;
    var d, v := Clean(ctx), Shows(ctx, off);
    FirstRowAdds(ctx, off);
    assert Lights(ctx, 0, off) && !Lights(d, 0, off);
    if ctx.delta == 0 {
      KeepsColor(ctx, 0, off, v);
      NoGap(ctx);
      ExtremeBlue(ctx);
      RowOverBlue(d, 0, off, v);
      Start(d, true, false);
    } else {
      MixedIsColor(ctx, Right, ScreenPixel(ctx, off));
      RowOverIs(ctx, 0, off, v);
      RowOverIs(d, 0, off, v);
      SameBlend(ctx, off, true, false, false, v);
    }
  }

  /** Columns beyond the ninth: the clean first row does not have them, and at most one later row does. */
  lemma FarColumnShows(ctx: Ctx, off: int)
    requires 36 <= ctx.widthX && ctx.rows >= 1
    requires Dirt(ctx, off) && Column(ctx, 0, off) >= 9 && !Erased(ctx, ctx.rows, off)
    ensures Layered(ctx, ctx.rows, off, Shows(ctx, off)) != Layered(Clean(ctx), ctx.rows, off, Shows(ctx, off))
  {
    hide Bit, Lights, BlendsInto, RowOver, Value, Column, Layered, Extreme, EdxBlends, RowOff;
    var d, v := Clean(ctx), Shows(ctx, off);
    FirstRowAdds(ctx, off);
    CleanHas(ctx, off);
    assert Touches(ctx, 0, off);
    assert !Touches(d, 0, off) by { NotClean(ctx, off); }
    if AnyTouch(ctx, 1, ctx.rows, off) {
      var r: nat :| 1 <= r < ctx.rows && Touches(ctx, r, off);
      TouchHas(ctx, r, off);
      OnlyFirstReaches(d, r, Column(ctx, r, off));
      assert ctx.delta == 0 && !Lights(ctx, r, off);
      BlendTold(ctx, r, off);
      OnlyLayer(d, r, off, v);
      LaterSame(ctx, r, off, v);
    } else {
      forall q: nat | 1 <= q < ctx.rows ensures !Touches(d, q, off) {
        LaterSame(ctx, q, off, v);
      }
      OnlyLayer(ctx, 0, off, v);
      OnlyLayer(d, 0, off, v);
      Untouched(d, 0, off, v);
      FirstShows(ctx, off);
    }
  }

  lemma TouchHas(ctx: Ctx, r: nat, off: int)
    requires r >= 1 && Touches(ctx, r, off)
    ensures Has(ctx, r, off) && Column(ctx, r, off) < 9 && off == RowOff(Clean(ctx), r) + 4 * Column(ctx, r, off)
  {
    hide Bit, BlendedFrom;
  }

  lemma NotClean(ctx: Ctx, off: int)
    requires !Has(Clean(ctx), 0, off)
    ensures !Touches(Clean(ctx), 0, off)
  {
  }

  lemma HarmfulLayer(ctx: Ctx, off: int)
    requires 36 <= ctx.widthX && ctx.rows >= 1 && !Harmless(ctx, off)
    ensures Layered(ctx, ctx.rows, off, Shows(ctx, off)) != Layered(Clean(ctx), ctx.rows, off, Shows(ctx, off))
  {
    hide Dirt, Absorbed, Layered, RowOver, Shows, Column, RowOff;
    var c := DirtHas(ctx, off);
    if c >= 9 {
      FarColumnShows(ctx, off);
    } else {
      FirstColumnsShow(ctx, off);
      OnlyFirstReaches(ctx, 0, c);
      OnlyFirstReaches(Clean(ctx), 0, c);
      OnlyLayer(ctx, 0, off, Shows(ctx, off));
      OnlyLayer(Clean(ctx), 0, off, Shows(ctx, off));
    }
  }

  lemma DirtHas(ctx: Ctx, off: int) returns (c: nat)
    requires Dirt(ctx, off)
    ensures Has(ctx, 0, off) && c == Column(ctx, 0, off)
    ensures off == RowOff(ctx, 0) + 4 * c && RowOff(Clean(ctx), 0) == RowOff(ctx, 0)
  {
    c := Column(ctx, 0, off);
  }

  /**
   Every pixel, every EDX, at a pitch of at least nine pixels: over every background it ends as
   with a clean EDX if and only if no bit of EDX lights it or blends into it, or a later row
   paints over it, or the glyph itself turns it into the colour over a screen.
   */
  lemma EdxExact(len: nat, ctx: Ctx, off: int)
    requires Covers(ctx, len) && 36 <= ctx.widthX && Whole(ctx, ctx.rows, off) && 0 <= off && off + 4 <= len
    ensures (forall s: seq<u8> | |s| == len :: SameAsClean(s, ctx, off)) <==> Harmless(ctx, off)
  {
    assert ctx.rows >= 1;
    hide Covers, Whole, Harmless, Layered, Store, Load, Raster, Shows;
    if Harmless(ctx, off) {
      forall s: seq<u8> | |s| == len ensures SameAsClean(s, ctx, off) {
        EdxHarmless(s, ctx, off);
      }
    } else {
      var v := Shows(ctx, off);
      var s := Store(seq(len, i => 0), off, v);
      StoreFacts(seq(len, i => 0), off, v);
      CleanFits(ctx, len, off);
      RasterLayers(s, ctx, ctx.rows, off);
      RasterLayers(s, Clean(ctx), ctx.rows, off);
      HarmfulLayer(ctx, off);
      assert !SameAsClean(s, ctx, off);
    }
  }

  // ----- the glyph's own columns -----

  /**
   The glyph's own columns with a clean EDX, at any pitch of at least nine pixels: a lit pixel
   ends as exactly the colour; a dark one is blended at most once, from its original background,
   or keeps it.
   */
  lemma CleanColumn(s: seq<u8>, ctx: Ctx, r: nat, c: nat)
    requires Covers(ctx, |s|) && r < ctx.rows && c < 8 && ctx.edxIn < 256 && 36 <= ctx.widthX
    ensures var off := RowOff(ctx, r) + 4 * c; var g := ctx.glyph + r; var mask := Mask(ctx, r);
            Load(Raster(s, ctx, ctx.rows), off) ==
            if Lit(ctx.mem, g, c) then ctx.color
            else if BlendedFrom(ctx, g, mask, Right, c) then Blend(ctx, Right, off, Load(s, off))
            else if BlendedFrom(ctx, g, mask, Left, c) then Blend(ctx, Left, off, Load(s, off))
            else Load(s, off)
  {
    hide Covers, Whole, Only, Load, Raster, Blend, BlendedFrom, Lit;
    WidePitch(ctx, r, c);
    GlyphColumn(s, ctx, r, c);
  }

  /** In the first row only the eighth glyph column can be spoilt, by bit 8 of EDX. */
  lemma FirstRowHarmless(ctx: Ctx, c: nat)
    requires ctx.rows >= 1 && c < 8 && 36 <= ctx.widthX
    ensures Harmless(ctx, RowOff(ctx, 0) + 4 * c) <==> !(c == 7 && EdxBlends(ctx, Left, 8))
  {
    hide Bit, EdxBlends, RowOff, Touches, BlendsInto, TurnsInto, ScreenPixel;
    var off := RowOff(ctx, 0) + 4 * c;
    assert Has(ctx, 0, off) && Column(ctx, 0, off) == c;
    assert !EdxBlends(ctx, Right, c - 1) && (c < 7 ==> !EdxBlends(ctx, Left, c + 1)) by { LowBits(ctx, c); }
    forall q: nat | q >= 1 ensures !Touches(ctx, q, off) {
      NinePitch(ctx, 0, c, q);
      Missed(ctx, q, off);
    }
    if Absorbed(ctx, off) {
      OneSide(ctx, off);
      FirstRowAdds(ctx, off);
    }
  }

  lemma LowBits(ctx: Ctx, c: nat)
    requires c < 8
    ensures !EdxBlends(ctx, Right, c - 1) && (c < 7 ==> !EdxBlends(ctx, Left, c + 1))
  {
  }

  lemma Missed(ctx: Ctx, q: nat, off: int)
    requires !Meets(ctx, q, off)
    ensures !Touches(ctx, q, off)
  {
  }

  /** In a later row the first row's reach decides. */
  lemma LaterRowHarmless(ctx: Ctx, r: nat, c: nat)
    requires 1 <= r < ctx.rows && c < 8 && 36 <= ctx.widthX
    ensures var off := RowOff(ctx, r) + 4 * c;
            Harmless(ctx, off) <==>
            Lights(ctx, r, off) || (ctx.delta != 0 && Touches(ctx, r, off)) || !Touches(ctx, 0, off)
  {
    hide Bit, EdxBlends, RowOff, BlendsInto, Lights, TurnsInto, ScreenPixel, Meets, OnGrid;
    var off := RowOff(ctx, r) + 4 * c;
    OnlyRow(ctx, r, c);
    FirstRowFar(ctx, r, c);
  }

  lemma OnlyRow(ctx: Ctx, r: nat, c: nat)
    requires 1 <= r < ctx.rows && c < 8 && 36 <= ctx.widthX
    ensures var off := RowOff(ctx, r) + 4 * c; forall q: nat | 1 <= q && q != r :: !Touches(ctx, q, off)
  {
    hide RowOff, Touches;
    var off := RowOff(ctx, r) + 4 * c;
    forall q: nat | 1 <= q && q != r ensures !Touches(ctx, q, off) {
      NinePitch(ctx, r, c, q);
      Missed(ctx, q, off);
    }
  }

  /** A pixel of a later row is, if the first row reaches it, beyond the ninth column there. */
  lemma FirstRowFar(ctx: Ctx, r: nat, c: nat)
    requires 1 <= r && c < 8 && 36 <= ctx.widthX
    ensures var off := RowOff(ctx, r) + 4 * c;
            && (Dirt(ctx, off) <==> Touches(ctx, 0, off)) && !BlendsInto(Clean(ctx), 0, Right, off)
  {
    hide Bit, EdxBlends, RowOff, BlendsInto, Lights;
    var off := RowOff(ctx, r) + 4 * c;
    RowsApart(ctx, 0, r);
    CleanHas(ctx, off);
    if Has(ctx, 0, off) {
      assert Column(ctx, 0, off) >= 9;
      FirstRowAdds(ctx, off);
      NotClean(ctx, off);
      assert !BlendsInto(Clean(ctx), 0, Right, off) && !Lights(Clean(ctx), 0, off);
    } else {
      NotHas(ctx, off);
    }
  }

  /**
   Which glyph columns come out as with a clean EDX, over every background, at a pitch of at
   least nine pixels: in the first row all but the eighth when bit 8 of EDX blends into it; in a
   later row the lit ones, those blended over a screen, and those that no bit of the first row
   lights or blends.
   */
  lemma GlyphRight(len: nat, ctx: Ctx, r: nat, c: nat)
    requires Covers(ctx, len) && r < ctx.rows && c < 8 && 36 <= ctx.widthX && ctx.widthX % 4 == 0
    ensures var off := RowOff(ctx, r) + 4 * c;
            (forall s: seq<u8> | |s| == len :: SameAsClean(s, ctx, off)) <==>
            if r == 0 then !(c == 7 && EdxBlends(ctx, Left, 8))
            else || Lit(ctx.mem, ctx.glyph + r, c)
                 || (ctx.delta != 0 && Touches(ctx, r, off))
                 || !Touches(ctx, 0, off)
  {
    hide Covers, Whole, SameAsClean, Touches, Lights, Bit, Lit, Harmless, EdxBlends, RowOff, NoBitsFrom;
    var off := RowOff(ctx, r) + 4 * c;
    assert 0 <= off && off + 4 <= len by { RowFits(ctx, r, len); }
    WholePitch(ctx, r, c);
    EdxExact(len, ctx, off);
    if r == 0 {
      FirstRowHarmless(ctx, c);
    } else {
      LaterRowHarmless(ctx, r, c);
      LightsIsLit(ctx, r, c);
    }
  }

  lemma LightsIsLit(ctx: Ctx, r: nat, c: nat)
    requires c < 8
    ensures Lights(ctx, r, RowOff(ctx, r) + 4 * c) <==> Lit(ctx.mem, ctx.glyph + r, c)
  {
    hide Bit, Lit, RowOff;
    MaskIsGlyph(ctx, r, c);
    assert Column(ctx, r, RowOff(ctx, r) + 4 * c) == c;
  }

  // ----- what goes wrong -----

  lemma FirstWhole(ctx: Ctx, c: nat)
    requires 36 <= ctx.widthX && c < 9
    ensures Whole(ctx, ctx.rows, RowOff(ctx, 0) + 4 * c)
  {
    hide RowOff;
    var off := RowOff(ctx, 0) + 4 * c;
    forall q: nat | 0 < q ensures !Meets(ctx, q, off) {
      NinePitch(ctx, 0, c, q);
    }
  }

  /** Bit 9 left in EDX above an empty glyph, at a pitch of nine pixels, with no smoothing. */
  predicate NarrowCaller(ctx: Ctx)
  {
    && ctx.edxIn == 0x200 && ctx.widthX == 36 && ctx.rows >= 2 && ctx.smoothing == 0 && ctx.delta == 0
    && ctx.mem(ctx.glyph) == 0 && ctx.mem(ctx.glyph + 1) == 0
  }

  lemma NarrowLayout(ctx: Ctx)
    requires NarrowCaller(ctx)
    ensures RowOff(Clean(ctx), 1) == RowOff(ctx, 1) == RowOff(ctx, 0) + 36
    ensures Mask(ctx, 0) == 0x200 && Mask(Clean(ctx), 1) == 0
  {
  }

  lemma NarrowLit(ctx: Ctx)
    requires NarrowCaller(ctx)
    ensures Lights(ctx, 0, RowOff(ctx, 1))
  {
    hide Bit, RowOff, Mask;
    NarrowLayout(ctx);
    DirtyBits();
    assert Column(ctx, 0, RowOff(ctx, 1)) == 9;
  }

  lemma NarrowDark(ctx: Ctx)
    requires NarrowCaller(ctx)
    ensures var off := RowOff(ctx, 1); !Touches(Clean(ctx), 1, off) && Only(Clean(ctx), 1, off)
  {
    hide Bit, RowOff, Mask, Only, Blends;
    var off, d := RowOff(ctx, 1), Clean(ctx);
    NarrowLayout(ctx);
    ZeroHasNoBits(0);
    ZeroHasNoBits(1);
    assert Column(d, 1, off) == 0;
    OnlyFirstReaches(d, 1, 0);
    NinePitch(d, 1, 0, 0);
    Missed(d, 0, off);
  }

  /** The first column of the second row is dark and nothing blends it; it ends as the colour. */
  lemma DirtyEdxLightsDarkPixel(s: seq<u8>, ctx: Ctx)
    requires Covers(ctx, |s|) && NarrowCaller(ctx)
    ensures var off := RowOff(ctx, 1);
            && Load(Raster(s, ctx, ctx.rows), off) == ctx.color
            && Load(Raster(s, Clean(ctx), ctx.rows), off) == Load(s, off)
  {
    hide Raster, Load, RowOff, RowOver, Layered, Touches, Lights, Only, Whole, Covers;
    var off, d := RowOff(ctx, 1), Clean(ctx);
    WholePitch(ctx, 1, 0);
    CleanFits(ctx, |s|, off);
    NarrowLit(ctx);
    NarrowDark(ctx);
    NoPixelLost(s, ctx, 0, off);
    RasterLayers(s, d, ctx.rows, off);
    OnlyLayer(d, 1, off, Load(s, off));
    Untouched(d, 1, off, Load(s, off));
  }

  lemma DirtyBits()
    ensures Bit(0x300, 8) && Bit(0x300, 9) && Bit(0x200, 9) && Bit(0x100, 8)
  {
  }

  /**
   Bits 8 and 9 left in EDX above a glyph whose third byte is the first with a bit; white text
   over a black screen.
   */
  predicate DirtyCaller(ctx: Ctx)
  {
    && ctx.edxIn == 0x300 && ctx.smoothing == 1 && ctx.delta != 0 && ctx.color == 0xFF_FFFF
    && ctx.mem(ctx.glyph) == 0 && ctx.mem(ctx.glyph + 1) == 0 && ctx.mem(ctx.glyph + 2) == 1
    && ScreenPixel(ctx, RowOff(ctx, 0) + 32) == 0
  }

  lemma DirtyBlends(ctx: Ctx)
    requires DirtyCaller(ctx)
    ensures Blends(ctx.mem, ctx.glyph, Left, 9)
  {
    var mem, g := ctx.mem, ctx.glyph;
    ZeroHasNoBits(0);
    ZeroHasNoBits(7);
    assert Lit(mem, g + 1, 8) && !Lit(mem, g + 1, 9) && !Lit(mem, g, 8) && !Lit(mem, g, 7);
  }

  /** Column 8 is lit by bit 8 of the caller's register and then lost to the blend of bit 9 with the screen. */
  lemma DirtyEdxLosesPixel(s: seq<u8>, ctx: Ctx)
    requires Covers(ctx, |s|) && 36 <= ctx.widthX && DirtyCaller(ctx)
    ensures var off := RowOff(ctx, 0) + 32; Lights(ctx, 0, off) && Load(Raster(s, ctx, ctx.rows), off) != ctx.color
  {
    hide Blends, Bit, Raster, Load, RowOff, ScreenPixel, LastTouch;
    var off := RowOff(ctx, 0) + 32;
    assert Mask(ctx, 0) == 0x300;
    DirtyBits();
    DirtyBlends(ctx);
    assert Column(ctx, 0, off) == 8;
    OnlyFirstReaches(ctx, 0, 8);
    FirstWhole(ctx, 8);
    LitColumn(s, ctx, 0, off);
  }

  /** Bit 8 left in EDX above an empty glyph row, with the eighth column lit below; white text over black. */
  predicate EighthCaller(s: seq<u8>, ctx: Ctx)
  {
    && ctx.edxIn == 0x100 && ctx.smoothing == 1 && ctx.delta == 0 && ctx.color == 0xFF_FFFF
    && ctx.mem(ctx.glyph) == 0 && ctx.mem(ctx.glyph + 1) == 0x80 && ctx.mem(ctx.glyph + 2) == 0
    && Load(s, RowOff(ctx, 0) + 28) == 0
  }

  lemma EighthBlends(ctx: Ctx)
    requires ctx.mem(ctx.glyph) == 0 && ctx.mem(ctx.glyph + 1) == 0x80 && ctx.mem(ctx.glyph + 2) == 0
    ensures Blends(ctx.mem, ctx.glyph, Left, 8)
  {
    var mem, g := ctx.mem, ctx.glyph;
    ZeroHasNoBits(0);
    ZeroHasNoBits(6);
    ZeroHasNoBits(7);
    assert Lit(mem, g + 1, 7) && !Lit(mem, g + 1, 8) && !Lit(mem, g, 7) && !Lit(mem, g, 6);
  }

  /** Column 7 of the first row is dark, and stays black with a clean EDX; bit 8 of EDX turns it grey. */
  lemma DirtyEdxBlendsDarkPixel(s: seq<u8>, ctx: Ctx)
    requires Covers(ctx, |s|) && 36 <= ctx.widthX && EighthCaller(s, ctx)
    ensures var off := RowOff(ctx, 0) + 28;
            && Load(Raster(s, ctx, ctx.rows), off) == 0x3F3F3F
            && Load(Raster(s, Clean(ctx), ctx.rows), off) == 0
  {
    hide Blends, Bit, Raster, Load, RowOff, BlendsInto, Lights, RowOver, Layered, Whole, Covers;
    var off, d := RowOff(ctx, 0) + 28, Clean(ctx);
    assert ctx.rows >= 1 by { FirstRow(ctx, |s|); }
    assert Has(ctx, 0, off) && Column(ctx, 0, off) == 7;
    DirtyBits();
    EighthBlends(ctx);
    assert EdxBlends(ctx, Left, 8);
    assert Whole(ctx, ctx.rows, off) by { FirstWhole(ctx, 7); }
    CleanFits(ctx, |s|, off);
    OnlyFirstReaches(ctx, 0, 7);
    RowZero(ctx);
    RowZero(d);
    OnlyFirstReaches(d, 0, 7);
    RasterLayers(s, ctx, ctx.rows, off);
    RasterLayers(s, d, ctx.rows, off);
    OnlyLayer(ctx, 0, off, 0);
    OnlyLayer(d, 0, off, 0);
    EighthRow(ctx, off);
  }

  lemma EighthRow(ctx: Ctx, off: int)
    requires Has(ctx, 0, off) && Column(ctx, 0, off) == 7 && EdxBlends(ctx, Left, 8)
    requires ctx.smoothing == 1 && ctx.delta == 0 && ctx.color == 0xFF_FFFF
    ensures RowOver(ctx, 0, off, 0) == 0x3F3F3F && RowOver(Clean(ctx), 0, off, 0) == 0
  {
    hide Bit, BlendsInto, Lights, RowOver, Column, AntiAliased, Blends;
    FirstRowAdds(ctx, off);
    assert !BlendsInto(Clean(ctx), 0, Right, off) && !Lights(Clean(ctx), 0, off) by { SixthDark(ctx, off); }
    RowOverIs(ctx, 0, off, 0);
    RowOverIs(Clean(ctx), 0, off, 0);
    Grey();
  }

  lemma Grey()
    ensures AntiAliased(0, 0xFF_FFFF) == 0x3F3F3F
  {
  }

  /** A blend into column 7 from bit 8 means columns 6 and 7 are dark. */
  lemma SixthDark(ctx: Ctx, off: int)
    requires Has(ctx, 0, off) && Column(ctx, 0, off) == 7 && EdxBlends(ctx, Left, 8)
    ensures !BlendsInto(Clean(ctx), 0, Right, off) && !Lights(Clean(ctx), 0, off)
  {
    hide Bit;
    assert !Lit(ctx.mem, ctx.glyph, 7) && !Lit(ctx.mem, ctx.glyph, 6);
    MaskIsGlyph(Clean(ctx), 0, 6);
    MaskIsGlyph(Clean(ctx), 0, 7);
  }
}

/** Text rendering of src/modules/osd/osd_module.c: the glyph cache, the sizing pass and the blit into
    a row-major BGRA image. The rasteriser is a function from scale and character. */
module OsdText {
  import opened Common

  const GLYPH_CACHE_SIZE: nat := 128
  const PADDING_TOP: int := 4
  const PADDING_LEFT: int := 8

  // ---- Glyphs ----

  datatype Pixel = Pixel(b: byte, g: byte, r: byte, a: byte)

  const TRANSPARENT: Pixel := Pixel(0, 0, 0, 0)

  /** What libschrift renders: metrics and one alpha byte per pixel. */
  datatype RawRaster = Raster(width: nat, height: nat, advance: int, xmin: int, ymin: int, alpha: seq<byte>)

  type Raster = r: RawRaster | |r.alpha| == r.width * r.height witness RawRaster.Raster(0, 0, 0, 0, 0, [])

  /** `osd_glyph_t`; the bitmap holds four bytes per pixel, row by row. */
  datatype Glyph = Glyph(width: nat, height: nat, advance: int, xmin: int, ymin: int, bitmap: seq<byte>)

  /** The rasteriser at a scale; None when a lookup, rendering or allocation fails. */
  type Font = (int, int) -> Option<Raster>

  /** Byte offset of a pixel in an image of width `w`. */
  function At(w: nat, x: nat, y: nat): nat {
    (y * w + x) * 4
  }

  lemma {:induction false} AtInside(w: nat, h: nat, x: nat, y: nat)
    requires x < w && y < h
    ensures At(w, x, y) + 4 <= w * h * 4
  {
    assert (y + 1) * w <= h * w;
  }

  lemma {:induction false} RowEnd(w: nat, h: nat, y: nat)
    requires y < h
    ensures y * w + w == (y + 1) * w <= w * h
  {
  }

  /** Different pixels do not share bytes. */
  lemma {:induction false} AtApart(w: nat, x: nat, y: nat, x': nat, y': nat)
    requires x < w && x' < w && (x, y) != (x', y')
    ensures At(w, x, y) + 4 <= At(w, x', y') || At(w, x', y') + 4 <= At(w, x, y)
  {
    if y < y' {
      assert (y + 1) * w <= y' * w;
    } else if y' < y {
      assert (y' + 1) * w <= y * w;
    }
  }

  predicate GlyphSane(g: Glyph) {
    |g.bitmap| == g.width * g.height * 4
  }

  function GlyphPixel(g: Glyph, i: nat, j: nat): Pixel
    requires GlyphSane(g) && i < g.width && j < g.height
  {
    AtInside(g.width, g.height, i, j);
    var k := At(g.width, i, j);
    Pixel(g.bitmap[k], g.bitmap[k + 1], g.bitmap[k + 2], g.bitmap[k + 3])
  }

  /** A rasterised pixel in the text colour; transparent where the rasteriser left nothing. */
  function Tinted(colour: Pixel, alpha: byte): Pixel {
    if alpha > 0 then Pixel(colour.b, colour.g, colour.r, alpha) else TRANSPARENT
  }

  /** The bytes of a tinted raster. */
  function Tint(colour: Pixel, alpha: seq<byte>): (bitmap: seq<byte>)
    ensures |bitmap| == |alpha| * 4
  {
    if alpha == [] then []
    else
      var p := Tinted(colour, alpha[|alpha| - 1]);
      Tint(colour, alpha[..|alpha| - 1]) + [p.b, p.g, p.r, p.a]
  }

  lemma {:induction false} TintAt(colour: Pixel, alpha: seq<byte>, k: nat)
    requires k < |alpha|
    ensures var (s, p) := (Tint(colour, alpha), Tinted(colour, alpha[k]));
            s[k * 4] == p.b && s[k * 4 + 1] == p.g && s[k * 4 + 2] == p.r && s[k * 4 + 3] == p.a
  {
    if k < |alpha| - 1 {
      TintAt(colour, alpha[..|alpha| - 1], k);
    }
  }

  /** The four bytes of a tinted pixel: blue, green and red of the text colour and the alpha of the raster,
      or zeros where the raster is empty. */
  lemma {:induction false} TintBytes(colour: Pixel, alpha: seq<byte>, k: nat)
    requires k < |alpha|
    ensures Tint(colour, alpha)[k * 4..k * 4 + 4] ==
            if alpha[k] > 0 then [colour.b, colour.g, colour.r, alpha[k]] else [0, 0, 0, 0]
  {
    TintAt(colour, alpha, k);
  }

  lemma {:induction false} TintNothing(colour: Pixel)
    ensures Tint(colour, []) == []
  {
  }

  lemma {:induction false} TintStep(colour: Pixel, alpha: seq<byte>, k: nat)
    requires k < |alpha|
    ensures var p := Tinted(colour, alpha[k]);
            Tint(colour, alpha[..k + 1]) == Tint(colour, alpha[..k]) + [p.b, p.g, p.r, p.a]
  {
    assert alpha[..k + 1][..k] == alpha[..k];
  }

  /** The settings that decide how a character looks. */
  datatype Style = Style(font: Font, scale: int, colour: Pixel)

  /** A character rendered from scratch. Characters outside the cache are never drawn. */
  function FreshGlyph(style: Style, c: int): Option<Glyph> {
    if c < 0 || c >= GLYPH_CACHE_SIZE then None
    else
      match style.font(style.scale, c)
      case None => None
      case Some(raster) =>
        Some(Glyph(raster.width, raster.height, raster.advance, raster.xmin, raster.ymin,
                   Tint(style.colour, raster.alpha)))
  }

  /** A cached character has the measures that the rasteriser gives for its code, and its tinted pixels. */
  lemma {:induction false} FreshGlyphIs(style: Style, c: int)
    ensures FreshGlyph(style, c).Some? <==> 0 <= c <= 127 && style.font(style.scale, c).Some?
    ensures FreshGlyph(style, c).Some? ==>
              var (g, raster) := (FreshGlyph(style, c).value, style.font(style.scale, c).value);
              && g.width == raster.width && g.height == raster.height && g.advance == raster.advance
              && g.xmin == raster.xmin && g.ymin == raster.ymin && g.bitmap == Tint(style.colour, raster.alpha)
  {
  }

  lemma {:induction false} FreshGlyphSane(style: Style, c: int)
    requires FreshGlyph(style, c).Some?
    ensures GlyphSane(FreshGlyph(style, c).value)
  {
  }

  // ---- Layout ----

  /** The glyphs of the drawable characters of a text. */
  function Glyphs(style: Style, text: seq<byte>): seq<Glyph> {
    if text == [] then []
    else
      var glyph := FreshGlyph(style, text[|text| - 1]);
      Glyphs(style, text[..|text| - 1]) + if glyph.Some? then [glyph.value] else []
  }

  function AdvanceSum(gs: seq<Glyph>): int {
    if gs == [] then 0 else AdvanceSum(gs[..|gs| - 1]) + gs[|gs| - 1].advance
  }

  /** A glyph with its top left corner in image coordinates. */
  datatype Placed = Placed(glyph: Glyph, x: int, y: int)

  function Layout(gs: seq<Glyph>, pen: int, baseline: int): seq<Placed> {
    if gs == [] then []
    else
      var (init, g) := (gs[..|gs| - 1], gs[|gs| - 1]);
      Layout(init, pen, baseline) + [Placed(g, pen + AdvanceSum(init) + g.xmin, baseline + g.ymin)]
  }

  /** Glyph `k` stands at the start pen plus the advances of the glyphs before it. */
  lemma {:induction false} LayoutAt(gs: seq<Glyph>, pen: int, baseline: int, k: nat)
    requires k < |gs|
    ensures |Layout(gs, pen, baseline)| == |gs|
    ensures Layout(gs, pen, baseline)[k]
         == Placed(gs[k], pen + AdvanceSum(gs[..k]) + gs[k].xmin, baseline + gs[k].ymin)
  {
    var init := gs[..|gs| - 1];
    if k < |init| {
      LayoutAt(init, pen, baseline, k);
      assert init[..k] == gs[..k];
    } else if k > 0 {
      LayoutAt(init, pen, baseline, 0);
    }
  }

  /** Width of the bitmap for a text: padding on both sides, rounded up to an even number. */
  function SizedWidth(advance: int): int {
    var width := advance + PADDING_LEFT * 2;
    if width % 2 != 0 then width + 1 else width
  }

  /** Where the pen starts: at the left padding, or so that the text ends at the right padding. */
  function StartPen(posX: int, advance: int, width: int): int {
    if posX < 0 then width - advance - PADDING_LEFT else PADDING_LEFT
  }

  /** `SFT_LMetrics`. */
  datatype LineMetrics = LineMetrics(ascender: real, descender: real)

  /** The smallest integer that is not below `x`. */
  function Ceil(x: real): (n: int)
    ensures n as real - 1.0 < x <= n as real
  {
    -(-x).Floor
  }

  function Baseline(posY: int, metrics: LineMetrics, height: int): int {
    if posY < 0 then height + metrics.descender.Floor else Ceil(metrics.ascender)
  }

  /** Top-aligned text stands on the first line on which the ascender fits below the upper edge, whatever
      the height; bottom-aligned text on the last line on which the descender fits above the lower edge. */
  lemma {:induction false} BaselineFits(posY: int, metrics: LineMetrics, height: int)
    ensures var b := Baseline(posY, metrics, height);
            && (posY >= 0 ==> b as real - 1.0 < metrics.ascender <= b as real)
            && (posY < 0 ==> (height - b) as real - 1.0 < -metrics.descender <= (height - b) as real)
  {
  }

  /** Left-aligned text begins 8 pixels from the left edge, right-aligned text ends 8 pixels from the
      right edge. */
  lemma {:induction false} TextKeepsItsEdge(posX: int, gs: seq<Glyph>, width: int)
    ensures posX >= 0 ==> StartPen(posX, AdvanceSum(gs), width) == 8
    ensures posX < 0 ==> width - (StartPen(posX, AdvanceSum(gs), width) + AdvanceSum(gs)) == 8
  {
  }

  /** The width leaves 8 pixels on both sides and is the next even number. */
  lemma {:induction false} WidthIsTight(advance: int)
    ensures SizedWidth(advance) % 2 == 0 && advance + 16 <= SizedWidth(advance) <= advance + 17
  {
  }

  ghost predicate NonnegativeAdvances(gs: seq<Glyph>) {
    forall k :: 0 <= k < |gs| ==> gs[k].advance >= 0
  }

  /** In a bitmap sized for the text, the pen stays between the paddings for both alignments. */
  lemma {:induction false} PenStaysInside(gs: seq<Glyph>, posX: int, k: nat)
    requires NonnegativeAdvances(gs) && k <= |gs|
    ensures var width := SizedWidth(AdvanceSum(gs));
            var pen := StartPen(posX, AdvanceSum(gs), width) + AdvanceSum(gs[..k]);
            PADDING_LEFT <= pen <= width - PADDING_LEFT
  {
    AdvancesGrow(gs, 0, k);
    AdvancesGrow(gs, k, |gs|);
    assert gs[..|gs|] == gs;
  }

  lemma {:induction false} AdvancesGrow(gs: seq<Glyph>, i: nat, j: nat)
    requires NonnegativeAdvances(gs) && i <= j <= |gs|
    ensures AdvanceSum(gs[..i]) <= AdvanceSum(gs[..j])
    decreases j
  {
    if i < j {
      assert gs[..j][..j - 1] == gs[..j - 1];
      AdvancesGrow(gs, i, j - 1);
    }
  }

  // ---- Position of the bitmap in the picture ----

  /** One coordinate of `parse_position`: negative positions count from the far edge, and the result
      is pushed back into the picture. */
  function Position(pos: int, stream: int, size: int): int {
    var aligned := if pos < 0 then stream + pos - size else pos;
    var x := if aligned < 0 then 0 else aligned;
    if x + size > stream then stream - size else x
  }

  /** The bitmap lies inside the picture exactly when it is not larger, and a negative position that
      leaves room is the distance between the far edges. */
  lemma {:induction false} PositionInside(pos: int, stream: int, size: int)
    requires size >= 0
    ensures 0 <= Position(pos, stream, size) && Position(pos, stream, size) + size <= stream <==> size <= stream
    ensures pos < 0 && size - pos <= stream ==> stream - (Position(pos, stream, size) + size) == -pos
  {
  }

  /** A position that fits is kept; a bitmap that would stick out on the right is moved to the right edge,
      and one that would stick out on the left to the left edge. */
  lemma {:induction false} PositionExactly(pos: int, stream: int, size: int)
    ensures pos >= 0 && pos + size <= stream ==> Position(pos, stream, size) == pos
    ensures pos >= 0 && pos + size > stream ==> Position(pos, stream, size) == stream - size
    ensures pos < 0 && 0 <= stream + pos - size ==> Position(pos, stream, size) == stream + pos - size
    ensures pos < 0 && stream + pos - size < 0 && size <= stream ==> Position(pos, stream, size) == 0
  {
  }

  const DEFAULT_POSITION: int := 20

  /** `parse_position`; the coordinates are what `sscanf` finds in the position string. */
  method ParsePosition(
    posX: Option<int>, posY: Option<int>, streamWidth: int, streamHeight: int, textWidth: int, textHeight: int)
    returns (x: int, y: int)
    ensures x == Position(if posX.Some? then posX.value else 20, streamWidth, textWidth)
    ensures y == Position(if posY.Some? then posY.value else 20, streamHeight, textHeight)
  {
    x, y := DEFAULT_POSITION, DEFAULT_POSITION;
    if posX.Some? {
      x := posX.value;
    }
    if posY.Some? {
      y := posY.value;
    }
    if x < 0 {
      x := streamWidth + x - textWidth;
    }
    if y < 0 {
      y := streamHeight + y - textHeight;
    }
    if x < 0 {
      x := 0;
    }
    if y < 0 {
      y := 0;
    }
    if x + textWidth > streamWidth {
      x := streamWidth - textWidth;
    }
    if y + textHeight > streamHeight {
      y := streamHeight - textHeight;
    }
  }

  // ---- Painting ----

  /** The glyph has a pixel with non-zero alpha at (x, y). */
  predicate Covers(p: Placed, x: int, y: int)
    requires GlyphSane(p.glyph)
  {
    && 0 <= x - p.x < p.glyph.width && 0 <= y - p.y < p.glyph.height
    && GlyphPixel(p.glyph, x - p.x, y - p.y).a > 0
  }

  /** Where a glyph covers the image, and what is seen there, byte by byte. */
  lemma {:induction false} CoversBytes(p: Placed, x: int, y: int)
    requires GlyphSane(p.glyph) && 0 <= x - p.x < p.glyph.width && 0 <= y - p.y < p.glyph.height
    ensures var k := ((y - p.y) * p.glyph.width + (x - p.x)) * 4;
            && 0 <= k && k + 4 <= |p.glyph.bitmap|
            && (Covers(p, x, y) <==> p.glyph.bitmap[k + 3] > 0)
            && GlyphPixel(p.glyph, x - p.x, y - p.y)
               == Pixel(p.glyph.bitmap[k], p.glyph.bitmap[k + 1], p.glyph.bitmap[k + 2], p.glyph.bitmap[k + 3])
  {
    AtInside(p.glyph.width, p.glyph.height, x - p.x, y - p.y);
  }

  /** The four bytes of a pixel, row by row. */
  lemma {:induction false} PixelBytes(image: seq<byte>, w: nat, h: nat, x: nat, y: nat)
    requires w * h * 4 <= |image| && x < w && y < h
    ensures var k := (y * w + x) * 4;
            && k + 4 <= |image|
            && PixelAt(image, w, h, x, y) == Pixel(image[k], image[k + 1], image[k + 2], image[k + 3])
  {
    AtInside(w, h, x, y);
  }

  ghost predicate AllSane(ps: seq<Placed>) {
    forall k :: 0 <= k < |ps| ==> GlyphSane(ps[k].glyph)
  }

  /** Painter's order: what is left of a pixel after painting `ps` over it, one after the other. */
  function Painted(ground: Pixel, ps: seq<Placed>, x: int, y: int): Pixel
    requires AllSane(ps)
  {
    if ps == [] then ground
    else
      var last := ps[|ps| - 1];
      if Covers(last, x, y) then GlyphPixel(last.glyph, x - last.x, y - last.y)
      else Painted(ground, ps[..|ps| - 1], x, y)
  }

  /** The glyph seen at a pixel is the last one that covers it. */
  lemma {:induction false} LastCoveringIsSeen(ground: Pixel, ps: seq<Placed>, x: int, y: int, k: nat)
    requires AllSane(ps)
    requires k < |ps| && Covers(ps[k], x, y)
    requires forall m :: k < m < |ps| ==> !Covers(ps[m], x, y)
    ensures Painted(ground, ps, x, y) == GlyphPixel(ps[k].glyph, x - ps[k].x, y - ps[k].y)
  {
    hide GlyphPixel;
    if k < |ps| - 1 {
      LastCoveringIsSeen(ground, ps[..|ps| - 1], x, y, k);
    }
  }

  /** Where no glyph covers the pixel, the ground is seen. */
  lemma {:induction false} GroundIsSeen(ground: Pixel, ps: seq<Placed>, x: int, y: int)
    requires AllSane(ps)
    requires forall m :: 0 <= m < |ps| ==> !Covers(ps[m], x, y)
    ensures Painted(ground, ps, x, y) == ground
  {
    hide GlyphPixel;
    if ps != [] {
      GroundIsSeen(ground, ps[..|ps| - 1], x, y);
    }
  }

  /** A pixel of an image. */
  function PixelAt(image: seq<byte>, w: nat, h: nat, x: nat, y: nat): Pixel
    requires w * h * 4 <= |image| && x < w && y < h
  {
    AtInside(w, h, x, y);
    var k := At(w, x, y);
    Pixel(image[k], image[k + 1], image[k + 2], image[k + 3])
  }

  /** `after` shows `ps` painted over `before`, and bytes behind the image are untouched. */
  ghost predicate PaintedOver(before: seq<byte>, after: seq<byte>, w: nat, h: nat, ps: seq<Placed>)
    requires w * h * 4 <= |before| == |after|
  {
    && AllSane(ps)
    && after[w * h * 4..] == before[w * h * 4..]
    && forall x, y :: 0 <= x < w && 0 <= y < h ==>
         PixelAt(after, w, h, x, y) == Painted(PixelAt(before, w, h, x, y), ps, x, y)
  }

  lemma {:induction false} PaintedOverNothing(image: seq<byte>, w: nat, h: nat)
    requires w * h * 4 <= |image|
    ensures PaintedOver(image, image, w, h, [])
  {
  }

  lemma {:induction false} PaintedOverOne(before: seq<byte>, after: seq<byte>, w: nat, h: nat, p: Placed)
    requires w * h * 4 <= |before| == |after| && GlyphSane(p.glyph)
    requires after[w * h * 4..] == before[w * h * 4..]
    requires forall x, y :: 0 <= x < w && 0 <= y < h ==>
               PixelAt(after, w, h, x, y) ==
               if Covers(p, x, y) then GlyphPixel(p.glyph, x - p.x, y - p.y) else PixelAt(before, w, h, x, y)
    ensures PaintedOver(before, after, w, h, [p])
  {
    hide PixelAt, Covers, GlyphPixel;
    assert AllSane([p]) && [p][..0] == [];
    forall x, y | 0 <= x < w && 0 <= y < h
      ensures PixelAt(after, w, h, x, y) == Painted(PixelAt(before, w, h, x, y), [p], x, y)
    {
      assert Painted(PixelAt(before, w, h, x, y), [], x, y) == PixelAt(before, w, h, x, y);
    }
  }

  /** Painting one more glyph on top. */
  lemma {:induction false} PaintedOverStep(before: seq<byte>, between: seq<byte>, after: seq<byte>, w: nat, h: nat, ps: seq<Placed>, p: Placed)
    requires w * h * 4 <= |before| == |between| == |after|
    requires PaintedOver(before, between, w, h, ps) && PaintedOver(between, after, w, h, [p])
    ensures PaintedOver(before, after, w, h, ps + [p])
  {
    hide PixelAt, Covers, GlyphPixel;
    assert AllSane(ps + [p]) by {
      assert [p][0] == p;
    }
    assert (ps + [p])[..|ps|] == ps && [p][..0] == [];
    forall x, y | 0 <= x < w && 0 <= y < h
      ensures PixelAt(after, w, h, x, y) == Painted(PixelAt(before, w, h, x, y), ps + [p], x, y)
    {
      assert PixelAt(after, w, h, x, y) == Painted(PixelAt(between, w, h, x, y), [p], x, y);
    }
  }

  /** Lines 968-973. */
  method PutPixel(image: array<byte>, w: nat, h: nat, x: nat, y: nat, p: Pixel)
    requires w * h * 4 <= image.Length && x < w && y < h
    modifies image
    ensures forall x', y' :: 0 <= x' < w && 0 <= y' < h ==>
              PixelAt(image[..], w, h, x', y') == if (x', y') == (x, y) then p else PixelAt(old(image[..]), w, h, x', y')
    ensures image[w * h * 4..] == old(image[w * h * 4..])
  {
    AtInside(w, h, x, y);
    var k := At(w, x, y);
    image[k] := p.b;
    image[k + 1] := p.g;
    image[k + 2] := p.r;
    image[k + 3] := p.a;
    forall x', y' | 0 <= x' < w && 0 <= y' < h
      ensures PixelAt(image[..], w, h, x', y') == if (x', y') == (x, y) then p else PixelAt(old(image[..]), w, h, x', y')
    {
      AtInside(w, h, x', y');
      if (x', y') != (x, y) {
        AtApart(w, x, y, x', y');
      }
    }
  }

  /** Lines 963-978: one glyph, clipped to the image. */
  method DrawGlyph(image: array<byte>, w: nat, h: nat, g: Glyph, x: int, y: int)
    requires w * h * 4 <= image.Length && GlyphSane(g)
    modifies image
    ensures PaintedOver(old(image[..]), image[..], w, h, [Placed(g, x, y)])
  {
    hide PixelAt, GlyphPixel;
    ghost var p, before := Placed(g, x, y), image[..];
    for j := 0 to g.height
      invariant forall x', y' :: 0 <= x' < w && 0 <= y' < h ==>
                  PixelAt(image[..], w, h, x', y') ==
                  if Covers(p, x', y') && y' - y < j then GlyphPixel(g, x' - x, y' - y)
                  else PixelAt(before, w, h, x', y')
      invariant image[w * h * 4..] == before[w * h * 4..]
    {
      for i := 0 to g.width
        invariant forall x', y' :: 0 <= x' < w && 0 <= y' < h ==>
                    PixelAt(image[..], w, h, x', y') ==
                    if Covers(p, x', y') && (y' - y < j || (y' - y == j && x' - x < i)) then GlyphPixel(g, x' - x, y' - y)
                    else PixelAt(before, w, h, x', y')
        invariant image[w * h * 4..] == before[w * h * 4..]
      {
        if GlyphPixel(g, i, j).a > 0 {
          var dstX, dstY := x + i, y + j;
          if dstX >= 0 && dstX < w && dstY >= 0 && dstY < h {
            PutPixel(image, w, h, dstX, dstY, GlyphPixel(g, i, j));
          }
        }
      }
    }
    PaintedOverOne(before, image[..], w, h, p);
  }

  // ---- The context ----

  /** Tallest glyph in a cache (the height part of `osd_precalculate_font_metrics`). */
  function TallestGlyph(cache: seq<Option<Glyph>>): (height: nat)
    ensures forall c :: 0 <= c < |cache| && cache[c].Some? ==> cache[c].value.height <= height
    ensures height > 0 ==> exists c :: 0 <= c < |cache| && cache[c].Some? && cache[c].value.height == height
  {
    if cache == [] then 0
    else
      var (init, last) := (TallestGlyph(cache[..|cache| - 1]), cache[|cache| - 1]);
      if last.Some? && last.value.height > init then last.value.height else init
  }

  /** The lowest offset of the non-empty glyphs in a cache (the other part). */
  function DeepestDescender(cache: seq<Option<Glyph>>): (ymin: Option<int>)
    ensures ymin.None? <==> forall c :: 0 <= c < |cache| ==> !Visible(cache[c])
    ensures ymin.Some? ==> forall c :: 0 <= c < |cache| && Visible(cache[c]) ==> ymin.value <= cache[c].value.ymin
    ensures ymin.Some? ==> exists c :: 0 <= c < |cache| && Visible(cache[c]) && cache[c].value.ymin == ymin.value
  {
    if cache == [] then None
    else
      var (init, last) := (DeepestDescender(cache[..|cache| - 1]), cache[|cache| - 1]);
      if Visible(last) && (init.None? || last.value.ymin < init.value) then Some(last.value.ymin) else init
  }

  /** The slot holds a glyph that is not empty. */
  predicate Visible(slot: Option<Glyph>) {
    slot.Some? && !(slot.value.width == 0 && slot.value.height == 0)
  }

  /** A slot counts when its glyph has a width or a height. */
  lemma {:induction false} VisibleExactly(slot: Option<Glyph>)
    ensures Visible(slot) <==> slot.Some? && (slot.value.width > 0 || slot.value.height > 0)
  {
  }

  /** Zero stands for no glyph. */
  function DescenderOf(cache: seq<Option<Glyph>>): int {
    var ymin := DeepestDescender(cache);
    if ymin.Some? then ymin.value else 0
  }

  /** Characters that are always in the cache after a font change. */
  const METRIC_CHARS: string := "AgjyqpQWH@0123456789"

  /** The part of `osd_context_t` that text rendering uses. A cache slot without a bitmap is None. */
  class Context {
    const font: Font
    const colour: Pixel
    const background: Pixel
    var scale: int
    var fontMaxHeight: nat
    var fontDeepestDescender: int
    var cache: array<Option<Glyph>>

    function CurrentStyle(): Style
      reads this
    {
      Style(font, scale, colour)
    }

    /** What is cached is what would be rendered now. */
    ghost predicate Valid()
      reads this, cache
    {
      && cache.Length == GLYPH_CACHE_SIZE
      && forall c :: 0 <= c < GLYPH_CACHE_SIZE && cache[c].Some? ==> cache[c] == FreshGlyph(CurrentStyle(), c)
    }

    /** The colours and cache of `osd_libschrift_init`. */
    constructor (font: Font, colour: Pixel, background: Pixel, size: int)
      ensures Valid() && fresh(cache)
      ensures CurrentStyle() == Style(font, size, colour) && this.background == background
      ensures fontMaxHeight == TallestGlyph(cache[..]) && fontDeepestDescender == DescenderOf(cache[..])
    {
      this.font, this.colour, this.background, this.scale := font, colour, background, size;
      fontMaxHeight, fontDeepestDescender := 0, 0;
      cache := new Option<Glyph>[GLYPH_CACHE_SIZE](_ => None);
      new;
      PrecalculateFontMetrics();
    }

    /** Lines 780-799: a raster becomes a bitmap in the text colour. */
    method TintRaster(raster: Raster) returns (bitmap: array<byte>)
      ensures fresh(bitmap) && bitmap[..] == Tint(colour, raster.alpha)
    {
      hide Tint;
      var w, h := raster.width, raster.height;
      TintNothing(colour);
      bitmap := new byte[|raster.alpha| * 4];
      var row := 0;
      for y := 0 to h
        invariant row == y * w <= |raster.alpha|
        invariant bitmap[..row * 4] == Tint(colour, raster.alpha[..row])
      {
        RowEnd(w, h, y);
        TintRow(bitmap, raster.alpha, row, w);
        row := row + w;
      }
      assert raster.alpha[..row] == raster.alpha;
      assert bitmap[..row * 4] == bitmap[..];
    }

    /** One row, whose first pixel has index `row`. */
    method TintRow(bitmap: array<byte>, alpha: seq<byte>, row: nat, w: nat)
      requires row + w <= |alpha| && bitmap.Length == |alpha| * 4
      requires bitmap[..row * 4] == Tint(colour, alpha[..row])
      modifies bitmap
      ensures bitmap[..(row + w) * 4] == Tint(colour, alpha[..row + w])
    {
      hide Tint, Tinted;
      for x := 0 to w
        invariant bitmap[..(row + x) * 4] == Tint(colour, alpha[..row + x])
      {
        PutTinted(bitmap, row + x, alpha[row + x]);
        TintStep(colour, alpha, row + x);
      }
    }

    method PutTinted(bitmap: array<byte>, k: nat, alpha: byte)
      requires k * 4 + 4 <= bitmap.Length
      modifies bitmap
      ensures var p := Tinted(colour, alpha);
              bitmap[..(k + 1) * 4] == old(bitmap[..k * 4]) + [p.b, p.g, p.r, p.a]
    {
      if alpha > 0 {
        bitmap[k * 4 + 0] := colour.b;
        bitmap[k * 4 + 1] := colour.g;
        bitmap[k * 4 + 2] := colour.r;
        bitmap[k * 4 + 3] := alpha;
      } else {
        bitmap[k * 4 + 0] := 0;
        bitmap[k * 4 + 1] := 0;
        bitmap[k * 4 + 2] := 0;
        bitmap[k * 4 + 3] := 0;
      }
    }

    /** `osd_render_glyph`: afterwards a drawable character is cached as a fresh rendering. */
    method RenderGlyph(c: int) returns (ret: int)
      requires Valid()
      modifies cache
      ensures Valid()
      ensures ret == 0 <==> FreshGlyph(CurrentStyle(), c).Some?
      ensures ret == 0 ==>
                0 <= c < GLYPH_CACHE_SIZE && cache[..] == old(cache[..])[c := FreshGlyph(CurrentStyle(), c)]
      ensures ret != 0 ==> cache[..] == old(cache[..])
    {
      if c < 0 || c >= GLYPH_CACHE_SIZE {
        return -1;
      }
      if cache[c].Some? {
        return 0;
      }
      var raster := font(scale, c);
      if raster.None? {
        return -1;
      }
      var bitmap := TintRaster(raster.value);
      var r := raster.value;
      cache[c] := Some(Glyph(r.width, r.height, r.advance, r.xmin, r.ymin, bitmap[..]));
      return 0;
    }

    /** `osd_precalculate_font_metrics`. */
    method PrecalculateFontMetrics()
      requires Valid()
      modifies cache, this`fontMaxHeight, this`fontDeepestDescender
      ensures Valid()
      ensures fontMaxHeight == TallestGlyph(cache[..]) && fontDeepestDescender == DescenderOf(cache[..])
      ensures forall i :: 0 <= i < |METRIC_CHARS| && FreshGlyph(CurrentStyle(), METRIC_CHARS[i] as int).Some? ==>
                FreshGlyph(CurrentStyle(), METRIC_CHARS[i] as int).value.height <= fontMaxHeight
    {
      hide FreshGlyph, TallestGlyph, DescenderOf;
      for i := 0 to |METRIC_CHARS|
        invariant Valid()
        invariant forall k :: 0 <= k < i && FreshGlyph(CurrentStyle(), METRIC_CHARS[k] as int).Some? ==>
                    Caches(METRIC_CHARS[k] as int)
      {
        var ret := RenderGlyph(METRIC_CHARS[i] as int);
      }
      MeasureCache();
    }

    /** Lines 557-579; slots without pixels do not count. */
    method MeasureCache()
      requires cache.Length == GLYPH_CACHE_SIZE
      modifies this`fontMaxHeight, this`fontDeepestDescender
      ensures fontMaxHeight == TallestGlyph(cache[..]) && fontDeepestDescender == DescenderOf(cache[..])
      ensures forall c :: 0 <= c < GLYPH_CACHE_SIZE && cache[c].Some? ==> cache[c].value.height <= fontMaxHeight
    {
      fontMaxHeight, fontDeepestDescender := 0, 0;
      var firstGlyph := true;
      for c := 0 to GLYPH_CACHE_SIZE
        invariant fontMaxHeight == TallestGlyph(cache[..c])
        invariant firstGlyph <==> DeepestDescender(cache[..c]).None?
        invariant fontDeepestDescender == DescenderOf(cache[..c])
      {
        assert cache[..c + 1][..c] == cache[..c];
        if !Visible(cache[c]) {
          continue;
        }
        if firstGlyph {
          fontDeepestDescender := cache[c].value.ymin;
          firstGlyph := false;
        } else if cache[c].value.ymin < fontDeepestDescender {
          fontDeepestDescender := cache[c].value.ymin;
        }
        if cache[c].value.height > fontMaxHeight {
          fontMaxHeight := cache[c].value.height;
        }
      }
      assert cache[..GLYPH_CACHE_SIZE] == cache[..];
    }

    ghost predicate Caches(c: int)
      reads this, cache
    {
      0 <= c < cache.Length && cache[c].Some? && cache[c] == FreshGlyph(CurrentStyle(), c)
    }

    /** `osd_reload_font_if_changed`: after a change of size nothing of the old size is left. */
    method ReloadFontIfChanged(configSize: int) returns (changed: int)
      requires Valid()
      modifies this`scale, this`fontMaxHeight, this`fontDeepestDescender, cache
      ensures Valid()
      ensures scale == configSize
      ensures changed == 0 <==> old(scale) == configSize
      ensures changed == 0 ==> cache[..] == old(cache[..])
      ensures changed == 0 ==> fontMaxHeight == old(fontMaxHeight) && fontDeepestDescender == old(fontDeepestDescender)
      ensures changed != 0 ==>
                fontMaxHeight == TallestGlyph(cache[..]) && fontDeepestDescender == DescenderOf(cache[..])
    {
      if scale == configSize {
        return 0;
      }
      scale := configSize;
      forall c | 0 <= c < GLYPH_CACHE_SIZE {
        cache[c] := None;
      }
      PrecalculateFontMetrics();
      return 1;
    }

    /** The loop that both passes share: the sum of the advances of the drawable characters. */
    method SumAdvances(text: seq<byte>) returns (advance: int)
      requires Valid()
      modifies cache
      ensures Valid()
      ensures advance == AdvanceSum(Glyphs(CurrentStyle(), text))
    {
      hide FreshGlyph, Glyphs, AdvanceSum;
      advance := 0;
      NoGlyphs(CurrentStyle(), 0, 0);
      for i := 0 to |text|
        invariant Valid()
        invariant advance == AdvanceSum(Glyphs(CurrentStyle(), text[..i]))
      {
        var c := text[i];
        var ret := RenderGlyph(c);
        GlyphsStep(CurrentStyle(), text, i);
        if ret == 0 {
          advance := advance + cache[c].value.advance;
        }
      }
      assert text[..|text|] == text;
    }

    /** `osd_calculate_text_size`; `metricsOk` is the answer of `sft_lmetrics`. */
    method CalculateTextSize(text: seq<byte>, metricsOk: bool) returns (ret: int, width: int, height: int)
      requires Valid()
      modifies cache
      ensures Valid()
      ensures ret == 0 <==> metricsOk
      ensures ret == 0 ==>
                width == SizedWidth(AdvanceSum(Glyphs(CurrentStyle(), text))) && height == fontMaxHeight + 8
    {
      width, height := 0, 0;
      if !metricsOk {
        return -1, width, height;
      }
      width := SumAdvances(text);
      height := fontMaxHeight;
      height := height + PADDING_TOP * 2;
      width := width + PADDING_LEFT * 2;
      if width % 2 != 0 {
        width := width + 1;
      }
      ret := 0;
    }

    /** `osd_draw_text`: every pixel of the image is what painting the laid out glyphs over it leaves,
        and bytes behind the image are untouched. `posX` and `posY` are the two numbers of the
        position string. */
    method DrawText(image: array<byte>, text: seq<byte>, w: nat, h: nat, posX: int, posY: int, metrics: Option<LineMetrics>)
      returns (ret: int)
      requires Valid() && w * h * 4 <= image.Length
      modifies cache, image
      ensures Valid()
      ensures ret == 0 <==> metrics.Some?
      ensures ret != 0 ==> image[..] == old(image[..])
      ensures ret == 0 ==>
                var gs := Glyphs(CurrentStyle(), text);
                PaintedOver(old(image[..]), image[..], w, h,
                  Layout(gs, StartPen(posX, AdvanceSum(gs), w), Baseline(posY, metrics.value, h)))
    {
      hide FreshGlyph, PaintedOver, Glyphs, AdvanceSum, Layout;
      if metrics.None? {
        return -1;
      }
      var actualWidth := SumAdvances(text);
      var penX := PADDING_LEFT;
      if posX < 0 {
        penX := w - actualWidth - PADDING_LEFT;
      }
      var baselineY := Ceil(metrics.value.ascender);
      if posY < 0 {
        baselineY := h + metrics.value.descender.Floor;
      }
      ghost var style, pen := CurrentStyle(), penX;
      NoGlyphs(style, pen, baselineY);
      PaintedOverNothing(image[..], w, h);
      for i := 0 to |text|
        invariant Valid() && CurrentStyle() == style
        invariant penX == pen + AdvanceSum(Glyphs(style, text[..i]))
        invariant PaintedOver(old(image[..]), image[..], w, h, Layout(Glyphs(style, text[..i]), pen, baselineY))
      {
        var c := text[i];
        var ret := RenderGlyph(c);
        GlyphsStep(style, text, i);
        if ret == 0 {
          var glyph := cache[c].value;
          FreshGlyphSane(style, c);
          LayoutStep(Glyphs(style, text[..i]), glyph, pen, baselineY);
          ghost var between := image[..];
          DrawGlyph(image, w, h, glyph, penX + glyph.xmin, baselineY + glyph.ymin);
          PaintedOverStep(old(image[..]), between, image[..], w, h, Layout(Glyphs(style, text[..i]), pen, baselineY),
            Placed(glyph, penX + glyph.xmin, baselineY + glyph.ymin));
          penX := penX + glyph.advance;
        }
      }
      assert text[..|text|] == text;
      return 0;
    }

    /** `osd_create_text_bitmap`: the bitmap is sized for the text, filled with the background, and
        shows the text painted over it. `granted` is the answer of `malloc`, which cannot give the size of
        a text whose advances add up to a negative width. */
    method CreateTextBitmap(text: seq<byte>, posX: int, posY: int, metrics: Option<LineMetrics>, granted: bool)
      returns (bitmap: array?<byte>, w: int, h: int)
      requires Valid()
      modifies cache
      ensures Valid()
      ensures bitmap != null <==>
                metrics.Some? && granted && SizedWidth(AdvanceSum(Glyphs(CurrentStyle(), text))) >= 0
      ensures bitmap != null ==>
                var gs := Glyphs(CurrentStyle(), text);
                && w == SizedWidth(AdvanceSum(gs)) && h == fontMaxHeight + 8
                && bitmap.Length == w * h * 4
                && PaintedOver(Filled(background, w * h), bitmap[..], w, h,
                     Layout(gs, StartPen(posX, AdvanceSum(gs), w), Baseline(posY, metrics.value, h)))
    {
      hide PaintedOver, Glyphs, Layout, FreshGlyph;
      var ret;
      ret, w, h := CalculateTextSize(text, metrics.Some?);
      if ret != 0 || !granted || w < 0 {
        return null, w, h;
      }
      bitmap := FillBackground(w * h);
      ret := DrawText(bitmap, text, w, h, posX, posY, metrics);
    }

    /** Lines 514-524. */
    method FillBackground(pixels: nat) returns (bitmap: array<byte>)
      ensures fresh(bitmap) && bitmap[..] == Filled(background, pixels)
    {
      bitmap := new byte[pixels * 4](_ => 0);
      if background.a > 0 {
        for i := 0 to pixels
          invariant bitmap[..i * 4] == Filled(background, i)
        {
          bitmap[i * 4] := background.b;
          bitmap[i * 4 + 1] := background.g;
          bitmap[i * 4 + 2] := background.r;
          bitmap[i * 4 + 3] := background.a;
        }
        assert bitmap[..pixels * 4] == bitmap[..];
      } else {
        FilledTransparent(background, pixels);
      }
    }
  }

  /** The bytes of `n` pixels of background; without alpha the background is transparent black. */
  function Filled(background: Pixel, n: nat): (image: seq<byte>)
    ensures |image| == n * 4
  {
    if n == 0 then []
    else
      var p := if background.a > 0 then background else TRANSPARENT;
      Filled(background, n - 1) + [p.b, p.g, p.r, p.a]
  }

  lemma {:induction false} FilledTransparent(background: Pixel, n: nat)
    requires background.a == 0
    ensures forall k :: 0 <= k < n * 4 ==> Filled(background, n)[k] == 0
  {
    if n > 0 {
      FilledTransparent(background, n - 1);
    }
  }

  lemma {:induction false} FilledAt(background: Pixel, n: nat, k: nat)
    requires k < n
    ensures var (s, p) := (Filled(background, n), if background.a > 0 then background else TRANSPARENT);
            s[k * 4] == p.b && s[k * 4 + 1] == p.g && s[k * 4 + 2] == p.r && s[k * 4 + 3] == p.a
  {
    if k < n - 1 {
      FilledAt(background, n - 1, k);
    }
  }

  /** Every pixel of the fill has the background colour. */
  lemma {:induction false} BackgroundPixel(background: Pixel, w: nat, h: nat, x: nat, y: nat)
    requires x < w && y < h
    ensures PixelAt(Filled(background, w * h), w, h, x, y) == if background.a > 0 then background else TRANSPARENT
  {
    AtInside(w, h, x, y);
    FilledAt(background, w * h, y * w + x);
  }

  lemma {:induction false} NoGlyphs(style: Style, pen: int, baseline: int)
    ensures Glyphs(style, []) == [] && AdvanceSum([]) == 0 && Layout([], pen, baseline) == []
  {
  }

  /** One more glyph is placed behind the others. */
  lemma {:induction false} LayoutStep(gs: seq<Glyph>, g: Glyph, pen: int, baseline: int)
    ensures Layout(gs + [g], pen, baseline) ==
            Layout(gs, pen, baseline) + [Placed(g, pen + AdvanceSum(gs) + g.xmin, baseline + g.ymin)]
  {
    assert (gs + [g])[..|gs|] == gs;
  }

  /** One more character of the text. */
  lemma {:induction false} GlyphsStep(style: Style, text: seq<byte>, i: nat)
    requires i < |text|
    ensures var (gs, glyph) := (Glyphs(style, text[..i]), FreshGlyph(style, text[i]));
            && Glyphs(style, text[..i + 1]) == (if glyph.Some? then gs + [glyph.value] else gs)
            && AdvanceSum(Glyphs(style, text[..i + 1])) == AdvanceSum(gs) + if glyph.Some? then glyph.value.advance else 0
  {
    assert text[..i + 1][..i] == text[..i];
    var (gs, glyph) := (Glyphs(style, text[..i]), FreshGlyph(style, text[i]));
    if glyph.Some? {
      assert (gs + [glyph.value])[..|gs|] == gs;
    } else {
      assert gs + [] == gs;
    }
  }
}

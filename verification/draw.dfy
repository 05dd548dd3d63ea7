/** The HUD's drawing helpers, reduced to the rectangles they emit: filled
    rectangles for outlines, and textured quads for stretched, tiled and
    nine-sliced sprites. A quad's texture window is kept as integer pixel
    coordinates over the texture size, which is what the float texture
    coordinates are computed from. */
module Draw {
  import opened Base

  /** A target area on screen: top-left corner and size. */
  datatype Rect = Rect(x: int, y: int, w: int, h: int)

  /** A solid fill between two corners (the game's `fill(x1, y1, x2, y2)`). */
  datatype Fill = Fill(x1: int, y1: int, x2: int, y2: int)

  /** One textured quad: screen corners, and the texture window `u1..u2`,
      `v1..v2` out of a `tw` by `th` texture. */
  datatype Quad = Quad(x1: int, x2: int, y1: int, y2: int,
                       u1: int, u2: int, v1: int, v2: int, tw: int, th: int)

  predicate InRect(r: Rect, px: int, py: int) {
    r.x <= px < r.x + r.w && r.y <= py < r.y + r.h
  }

  /** 1 on the pixels of `r`, 0 elsewhere. */
  function Ind(r: Rect, px: int, py: int): int {
    if InRect(r, px, py) then 1 else 0
  }

  predicate FillCovers(f: Fill, px: int, py: int) {
    f.x1 <= px < f.x2 && f.y1 <= py < f.y2
  }

  predicate QuadCovers(q: Quad, px: int, py: int) {
    q.x1 <= px < q.x2 && q.y1 <= py < q.y2
  }

  // ---------------------------------------------------------------------------
  // Filled rectangles
  // ---------------------------------------------------------------------------

  /** `fillRect(x, y, width, height, int color)`. */
  function FillRect(x: int, y: int, w: int, h: int): (f: Fill)
    ensures forall px, py :: FillCovers(f, px, py) <==> InRect(Rect(x, y, w, h), px, py)
  {
    Fill(x, y, x + w, y + h)
  }

  /** How many of the fills paint a pixel. */
  function FillCount(fs: seq<Fill>, px: int, py: int): (n: nat)
    ensures n <= |fs|
  {
    if |fs| == 0 then 0
    else (if FillCovers(fs[0], px, py) then 1 else 0) + FillCount(fs[1..], px, py)
  }

  /** `outlineRect`: a left column, a right column, a top row and a bottom row,
      each one pixel thick and one pixel short so that the corners are shared
      out between them. */
  function OutlineRect(x: int, y: int, w: int, h: int): (fs: seq<Fill>)
    ensures |fs| == 4
  {
    [FillRect(x, y, 1, h - 1),
     FillRect(x + w - 1, y + 1, 1, h - 1),
     FillRect(x + 1, y, w - 1, 1),
     FillRect(x, y + h - 1, w - 1, 1)]
  }

  /** A pixel of the rectangle's one-pixel border. */
  predicate OnBorder(r: Rect, px: int, py: int) {
    InRect(r, px, py) && (px == r.x || px == r.x + r.w - 1 || py == r.y || py == r.y + r.h - 1)
  }

  /** For a rectangle at least two pixels each way, the outline paints every
      border pixel exactly once and nothing else, so a translucent colour is
      not doubled up in the corners. */
  lemma OutlineIsBorder(x: int, y: int, w: int, h: int, px: int, py: int)
    requires w >= 2 && h >= 2
    ensures FillCount(OutlineRect(x, y, w, h), px, py) == if OnBorder(Rect(x, y, w, h), px, py) then 1 else 0
  {
    var fs := OutlineRect(x, y, w, h);
    var r := Rect(x, y, w, h);
    var f1 := fs[1..];
    var f2 := f1[1..];
    var f3 := f2[1..];
    assert f3[1..] == [];
    assert FillCount(f3, px, py) == if FillCovers(fs[3], px, py) then 1 else 0;
    assert FillCount(f2, px, py) == (if FillCovers(fs[2], px, py) then 1 else 0) + FillCount(f3, px, py);
    assert FillCount(f1, px, py) == (if FillCovers(fs[1], px, py) then 1 else 0) + FillCount(f2, px, py);
  }

  /** `fillRect(x, y, width, height, Color)` as written: it hands `x + width`
      and `y + height` on as the width and height. */
  function FillRectColorAsWritten(x: int, y: int, w: int, h: int): (f: Fill)
    ensures f == FillRect(x, y, x + w, y + h)
  {
    FillRect(x, y, x + w, y + h)
  }

  /** A 5 by 1 rectangle at x = 10 is painted 15 pixels wide. */
  lemma FillRectColorOverpaints()
    ensures FillCovers(FillRectColorAsWritten(10, 0, 5, 1), 20, 0)
    ensures !InRect(Rect(10, 0, 5, 1), 20, 0)
  {
  }

  /** `fillRect(x, y, width, height, Color)` as evidently intended: the same
      area as the integer-colour overload. */
  function FillRectColor(x: int, y: int, w: int, h: int): (f: Fill)
    ensures forall px, py :: FillCovers(f, px, py) <==> InRect(Rect(x, y, w, h), px, py)
  {
    FillRect(x, y, w, h)
  }

  /** `fillRect(Rectangle, Color)` passes the size on unchanged and so agrees
      with the corrected overload. */
  function FillRectangle(r: Rect): (f: Fill)
    ensures forall px, py :: FillCovers(f, px, py) <==> FillCovers(FillRectColor(r.x, r.y, r.w, r.h), px, py)
  {
    FillRect(r.x, r.y, r.w, r.h)
  }

  // ---------------------------------------------------------------------------
  // Quads
  // ---------------------------------------------------------------------------

  function CoverCount(qs: seq<Quad>, px: int, py: int): (n: nat)
    ensures n <= |qs|
  {
    if |qs| == 0 then 0
    else (if QuadCovers(qs[0], px, py) then 1 else 0) + CoverCount(qs[1..], px, py)
  }

  lemma {:induction false} CoverConcat(a: seq<Quad>, b: seq<Quad>, px: int, py: int)
    ensures CoverCount(a + b, px, py) == CoverCount(a, px, py) + CoverCount(b, px, py)
    decreases |a|
  {
    if |a| > 0 {
      assert (a + b)[0] == a[0];
      assert (a + b)[1..] == a[1..] + b;
      CoverConcat(a[1..], b, px, py);
    } else {
      assert a + b == b;
    }
  }

  /** The quads paint every pixel of `r` exactly once and nothing outside it. */
  ghost predicate Partition(qs: seq<Quad>, r: Rect) {
    forall px, py :: CoverCount(qs, px, py) == Ind(r, px, py)
  }

  /** `blitSprite(texture, x, y, width, height, color)`: the whole texture
      stretched over the area, nothing at all when a side is zero. */
  function StretchBlit(r: Rect): (qs: seq<Quad>)
    ensures qs == [] <==> r.w == 0 || r.h == 0
    ensures r.w > 0 && r.h > 0 ==> Partition(qs, r)
  {
    if r.w != 0 && r.h != 0 then [Quad(r.x, r.x + r.w, r.y, r.y + r.h, 0, 1, 0, 1, 1, 1)] else []
  }

  /** The private `blitSprite` with a texture window: the window starts at
      `(u, v)` and is as large as the area; nothing when a side is zero. */
  function Blit(tw: int, th: int, u: int, v: int, r: Rect): (qs: seq<Quad>)
    ensures qs == [] <==> r.w == 0 || r.h == 0
  {
    if r.w != 0 && r.h != 0 then [Quad(r.x, r.x + r.w, r.y, r.y + r.h, u, u + r.w, v, v + r.h, tw, th)] else []
  }

  /** A blit of a non-negative area paints exactly that area. */
  lemma BlitPaints(tw: int, th: int, u: int, v: int, r: Rect, px: int, py: int)
    requires r.w >= 0 && r.h >= 0
    ensures CoverCount(Blit(tw, th, u, v, r), px, py) == Ind(r, px, py)
  {
  }

  // ---------------------------------------------------------------------------
  // Tiling
  // ---------------------------------------------------------------------------

  /** The part of a texture repeated by tiling: window origin, window size and
      the size of the texture it comes from. */
  datatype Sprite = Sprite(u: int, v: int, sw: int, sh: int, tw: int, th: int)

  /** A tile sits at the given column, is no larger than the sprite window and
      shows the start of that window. */
  predicate TileFits(q: Quad, s: Sprite, x: int, cw: int, t: Rect) {
    && q.x1 == x && q.x2 == x + cw
    && t.y <= q.y1 < q.y2 <= t.y + t.h && q.y2 - q.y1 <= s.sh
    && q.u1 == s.u && q.u2 == s.u + cw && q.v1 == s.v && q.v2 == s.v + (q.y2 - q.y1)
    && q.tw == s.tw && q.th == s.th
  }

  /** The inner loop of `blitTiledSprite`: one column of tiles `cw` wide, from
      row offset `yStep` down to the bottom of the target. */
  function Column(x: int, cw: int, t: Rect, yStep: int, s: Sprite): seq<Quad>
    requires s.sh > 0 && cw > 0 && yStep >= 0
    decreases t.h - yStep
  {
    if yStep >= t.h then []
    else
      var th := MinInt(s.sh, t.h - yStep);
      Blit(s.tw, s.th, s.u, s.v, Rect(x, t.y + yStep, cw, th)) + Column(x, cw, t, yStep + s.sh, s)
  }

  /** The outer loop: columns as wide as the sprite, the last one cut short. */
  function Columns(t: Rect, xStep: int, s: Sprite): seq<Quad>
    requires s.sw > 0 && s.sh > 0 && xStep >= 0
    decreases t.w - xStep
  {
    if xStep >= t.w then []
    else Column(t.x + xStep, MinInt(s.sw, t.w - xStep), t, 0, s) + Columns(t, xStep + s.sw, s)
  }

  lemma {:induction false} ColumnFits(x: int, cw: int, t: Rect, yStep: int, s: Sprite)
    requires s.sh > 0 && cw > 0 && yStep >= 0
    ensures forall q :: q in Column(x, cw, t, yStep, s) ==> TileFits(q, s, x, cw, t)
    decreases t.h - yStep
  {
    if yStep < t.h {
      ColumnFits(x, cw, t, yStep + s.sh, s);
    }
  }

  lemma {:induction false} ColumnsFit(t: Rect, xStep: int, s: Sprite)
    requires s.sw > 0 && s.sh > 0 && xStep >= 0
    ensures forall q :: q in Columns(t, xStep, s) ==>
      t.x + xStep <= q.x1 && 1 <= q.x2 - q.x1 <= s.sw && 1 <= q.y2 - q.y1 <= s.sh
      && q.u1 == s.u && q.u2 - q.u1 == q.x2 - q.x1 && q.v1 == s.v && q.v2 - q.v1 == q.y2 - q.y1
    decreases t.w - xStep
  {
    if xStep < t.w {
      ColumnFits(t.x + xStep, MinInt(s.sw, t.w - xStep), t, 0, s);
      ColumnsFit(t, xStep + s.sw, s);
    }
  }

  /** `blitTiledSprite`: nothing for an empty target, an error for a sprite
      window without positive size, otherwise the columns of tiles. */
  function TiledBlit(t: Rect, s: Sprite): (r: Result<seq<Quad>, string>)
    ensures t.w <= 0 || t.h <= 0 ==> r == Ok([])
    ensures t.w > 0 && t.h > 0 ==> (r.Err? <==> s.sw <= 0 || s.sh <= 0)
  {
    if t.w > 0 && t.h > 0 then
      if s.sw > 0 && s.sh > 0 then Ok(Columns(t, 0, s))
      else Err("IllegalArgumentException")
    else Ok([])
  }

  lemma {:induction false} ColumnCovers(x: int, cw: int, t: Rect, yStep: int, s: Sprite, px: int, py: int)
    requires s.sh > 0 && cw > 0 && yStep >= 0
    ensures CoverCount(Column(x, cw, t, yStep, s), px, py) ==
      if x <= px < x + cw && t.y + yStep <= py < t.y + t.h then 1 else 0
    decreases t.h - yStep
  {
    if yStep < t.h {
      var th := MinInt(s.sh, t.h - yStep);
      BlitPaints(s.tw, s.th, s.u, s.v, Rect(x, t.y + yStep, cw, th), px, py);
      ColumnCovers(x, cw, t, yStep + s.sh, s, px, py);
      ColumnStep(x, cw, t, yStep, s, px, py);
      SplitRange(t.y + yStep, th, s.sh, t.y + t.h, py, x <= px < x + cw);
    }
  }

  lemma ColumnStep(x: int, cw: int, t: Rect, yStep: int, s: Sprite, px: int, py: int)
    requires s.sh > 0 && cw > 0 && 0 <= yStep < t.h
    ensures CoverCount(Column(x, cw, t, yStep, s), px, py)
         == CoverCount(Blit(s.tw, s.th, s.u, s.v, Rect(x, t.y + yStep, cw, MinInt(s.sh, t.h - yStep))), px, py)
          + CoverCount(Column(x, cw, t, yStep + s.sh, s), px, py)
  {
    CoverConcat(Blit(s.tw, s.th, s.u, s.v, Rect(x, t.y + yStep, cw, MinInt(s.sh, t.h - yStep))),
                Column(x, cw, t, yStep + s.sh, s), px, py);
  }

  lemma {:induction false} ColumnsCover(t: Rect, xStep: int, s: Sprite, px: int, py: int)
    requires s.sw > 0 && s.sh > 0 && xStep >= 0
    ensures CoverCount(Columns(t, xStep, s), px, py) ==
      if t.x + xStep <= px < t.x + t.w && t.y <= py < t.y + t.h then 1 else 0
    decreases t.w - xStep
  {
    if xStep < t.w {
      var cw := MinInt(s.sw, t.w - xStep);
      ColumnsCover(t, xStep + s.sw, s, px, py);
      ColumnsStep(t, xStep, s, px, py);
      SplitRange(t.x + xStep, cw, s.sw, t.x + t.w, px, t.y <= py < t.y + t.h);
    }
  }

  /** The first column covers its own strip of the target once. */
  lemma ColumnsStep(t: Rect, xStep: int, s: Sprite, px: int, py: int)
    requires s.sw > 0 && s.sh > 0 && 0 <= xStep < t.w
    ensures CoverCount(Columns(t, xStep, s), px, py)
         == (if t.x + xStep <= px < t.x + xStep + MinInt(s.sw, t.w - xStep) && t.y <= py < t.y + t.h then 1 else 0)
          + CoverCount(Columns(t, xStep + s.sw, s), px, py)
  {
    ColumnCovers(t.x + xStep, MinInt(s.sw, t.w - xStep), t, 0, s, px, py);
    ColumnsConcat(t, xStep, s, px, py);
  }

  lemma ColumnsConcat(t: Rect, xStep: int, s: Sprite, px: int, py: int)
    requires s.sw > 0 && s.sh > 0 && 0 <= xStep < t.w
    ensures CoverCount(Columns(t, xStep, s), px, py)
         == CoverCount(Column(t.x + xStep, MinInt(s.sw, t.w - xStep), t, 0, s), px, py)
          + CoverCount(Columns(t, xStep + s.sw, s), px, py)
  {
    CoverConcat(Column(t.x + xStep, MinInt(s.sw, t.w - xStep), t, 0, s), Columns(t, xStep + s.sw, s), px, py);
  }

  /** A column `cw` wide, `cw` being the step or what is left of the range,
      and the rest of the range from one step on, split the range. */
  lemma SplitRange(a: int, cw: int, step: int, end: int, p: int, across: bool)
    requires a < end && step > 0 && cw == MinInt(step, end - a)
    ensures (if a <= p < a + cw && across then 1 else 0) + (if a + step <= p < end && across then 1 else 0)
         == (if a <= p < end && across then 1 else 0)
  {
  }

  /** Every tile is at least one pixel and at most one sprite window in each
      direction, and shows the window from its top-left corner, as much of it
      as fits. */
  lemma TileSizes(t: Rect, s: Sprite)
    requires TiledBlit(t, s).Ok?
    ensures forall q :: q in TiledBlit(t, s).value ==>
      1 <= q.x2 - q.x1 <= s.sw && 1 <= q.y2 - q.y1 <= s.sh
      && q.u1 == s.u && q.u2 - q.u1 == q.x2 - q.x1 && q.v1 == s.v && q.v2 - q.v1 == q.y2 - q.y1
  {
    if t.w > 0 && t.h > 0 {
      ColumnsFit(t, 0, s);
    }
  }

  /** The tiles cover the target exactly once, whatever the sprite size. */
  lemma TiledPartition(t: Rect, s: Sprite)
    requires TiledBlit(t, s).Ok? && t.w >= 0 && t.h >= 0
    ensures Partition(TiledBlit(t, s).value, t)
  {
    forall px, py
      ensures CoverCount(TiledBlit(t, s).value, px, py) == Ind(t, px, py)
    {
      if t.w > 0 && t.h > 0 {
        ColumnsCover(t, 0, s, px, py);
      }
    }
  }

  // ---------------------------------------------------------------------------
  // Nine-slice
  // ---------------------------------------------------------------------------

  datatype Border = Border(left: int, right: int, top: int, bottom: int)

  datatype NineSlice = NineSlice(width: int, height: int, border: Border, stretchInner: bool)

  /** A sprite's scaling mode. */
  datatype Scaling = Stretch | Tile(tileWidth: int, tileHeight: int) | Nine(slice: NineSlice)

  /** Sequencing two drawing steps: the first exception ends the drawing. */
  function Then(a: Result<seq<Quad>, string>, b: Result<seq<Quad>, string>): (r: Result<seq<Quad>, string>)
    ensures r.Ok? <==> a.Ok? && b.Ok?
    ensures r.Ok? ==> r.value == a.value + b.value
    ensures a.Err? ==> r == a
  {
    if a.Err? then a else if b.Err? then b else Ok(a.value + b.value)
  }

  /** `blitNineSliceInnerSegment`: an empty area draws nothing; otherwise the
      texture window is either stretched over the area or tiled across it. */
  function InnerSegment(ns: NineSlice, t: Rect, u: int, v: int, rw: int, rh: int): (r: Result<seq<Quad>, string>)
    ensures t.w <= 0 || t.h <= 0 ==> r == Ok([])
    ensures ns.stretchInner ==> r.Ok?
    ensures r.Err? <==> t.w > 0 && t.h > 0 && !ns.stretchInner && (rw <= 0 || rh <= 0)
  {
    if t.w > 0 && t.h > 0 then
      if ns.stretchInner then
        Ok([Quad(t.x, t.x + t.w, t.y, t.y + t.h, u, u + rw, v, v + rh, ns.width, ns.height)])
      else TiledBlit(t, Sprite(u, v, rw, rh, ns.width, ns.height))
    else Ok([])
  }

  /** A border side is at most half the target's extent (Java's truncating
      division). */
  function ClampBorder(b: int, extent: int): (c: int)
    ensures c <= b && c <= JavaDiv(extent, 2)
    ensures c == b || c == JavaDiv(extent, 2)
  {
    MinInt(b, JavaDiv(extent, 2))
  }

  /** One band of rows `[y0, y0 + hh)` of a nine-sliced sprite whose left and
      right pieces are plain blits: `bl` and `br` wide, showing the texture's
      borders, with the middle stretched or tiled from the centre of the
      texture. `v` and `rh` are the band's texture rows. */
  function EdgeBand(ns: NineSlice, x: int, w: int, bl: int, br: int, y0: int, hh: int, v: int, rh: int)
    : (r: Result<seq<Quad>, string>)
    ensures ns.stretchInner ==> r.Ok?
  {
    var nw := ns.width;
    var nh := ns.height;
    Then(Ok(Blit(nw, nh, 0, v, Rect(x, y0, bl, hh))),
    Then(InnerSegment(ns, Rect(x + bl, y0, w - br - bl, hh), bl, v, nw - br - bl, rh),
         Ok(Blit(nw, nh, nw - br, v, Rect(x + w - br, y0, br, hh)))))
  }

  /** The middle band of the general layout, where all three pieces are
      stretched or tiled. */
  function MiddleBand(ns: NineSlice, x: int, w: int, bl: int, br: int, y0: int, hh: int, v: int, rh: int)
    : (r: Result<seq<Quad>, string>)
    ensures ns.stretchInner ==> r.Ok?
  {
    var nw := ns.width;
    Then(InnerSegment(ns, Rect(x, y0, bl, hh), 0, v, bl, rh),
    Then(InnerSegment(ns, Rect(x + bl, y0, w - br - bl, hh), bl, v, nw - br - bl, rh),
         InnerSegment(ns, Rect(x + w - br, y0, br, hh), nw - br, v, br, rh)))
  }

  /** `blitNineSlicedSprite`: an exact-size target is one blit of the whole
      sprite; a target of the sprite's height (or width) is cut into three
      columns (or rows); otherwise into the top corners and edge, the bottom
      corners and edge, then the left edge, middle and right edge. */
  function NineSliced(ns: NineSlice, x: int, y: int, w: int, h: int): (r: Result<seq<Quad>, string>)
    ensures w == ns.width && h == ns.height ==> r == Ok(Blit(ns.width, ns.height, 0, 0, Rect(x, y, w, h)))
    ensures ns.stretchInner ==> r.Ok?
  {
    var nw := ns.width;
    var nh := ns.height;
    var bl := ClampBorder(ns.border.left, w);
    var br := ClampBorder(ns.border.right, w);
    var bt := ClampBorder(ns.border.top, h);
    var bb := ClampBorder(ns.border.bottom, h);
    if w == nw && h == nh then
      Ok(Blit(nw, nh, 0, 0, Rect(x, y, w, h)))
    else if h == nh then
      EdgeBand(ns, x, w, bl, br, y, h, 0, nh)
    else if w == nw then RowStack(ns, x, y, w, h, bt, bb)
    else Grid(ns, x, y, w, h, bl, br, bt, bb)
  }

  /** A target of the sprite's width: top border, stretched or tiled middle,
      bottom border. */
  function RowStack(ns: NineSlice, x: int, y: int, w: int, h: int, bt: int, bb: int): (r: Result<seq<Quad>, string>)
    ensures ns.stretchInner ==> r.Ok?
  {
    var nw := ns.width;
    var nh := ns.height;
    Then(Ok(Blit(nw, nh, 0, 0, Rect(x, y, w, bt))),
    Then(InnerSegment(ns, Rect(x, y + bt, w, h - bb - bt), 0, bt, nw, nh - bb - bt),
         Ok(Blit(nw, nh, 0, nh - bb, Rect(x, y + h - bb, w, bb)))))
  }

  /** The general layout, in drawing order: the top band, the bottom band,
      then the middle band. */
  function Grid(ns: NineSlice, x: int, y: int, w: int, h: int, bl: int, br: int, bt: int, bb: int)
    : (r: Result<seq<Quad>, string>)
    ensures ns.stretchInner ==> r.Ok?
  {
    var nh := ns.height;
    Then(EdgeBand(ns, x, w, bl, br, y, bt, 0, bt),
    Then(EdgeBand(ns, x, w, bl, br, y + h - bb, bb, nh - bb, bb),
         MiddleBand(ns, x, w, bl, br, y + bt, h - bb - bt, bt, nh - bb - bt)))
  }

  /** What a drawing step paints: its rectangle, exactly once. */
  predicate Paints(r: Result<seq<Quad>, string>, t: Rect, px: int, py: int)
    requires r.Ok?
  {
    CoverCount(r.value, px, py) == Ind(t, px, py)
  }

  lemma SegmentPaints(ns: NineSlice, t: Rect, u: int, v: int, rw: int, rh: int, px: int, py: int)
    requires InnerSegment(ns, t, u, v, rw, rh).Ok? && t.w >= 0 && t.h >= 0
    ensures Paints(InnerSegment(ns, t, u, v, rw, rh), t, px, py)
  {
    if t.w > 0 && t.h > 0 && !ns.stretchInner {
      TiledPartition(t, Sprite(u, v, rw, rh, ns.width, ns.height));
    }
  }

  lemma ThenPaints(a: Result<seq<Quad>, string>, b: Result<seq<Quad>, string>, px: int, py: int)
    requires Then(a, b).Ok?
    ensures a.Ok? && b.Ok?
    ensures CoverCount(Then(a, b).value, px, py) == CoverCount(a.value, px, py) + CoverCount(b.value, px, py)
  {
    CoverConcat(a.value, b.value, px, py);
  }

  /** Three columns `bl`, `w - bl - br` and `br` wide make up the band. */
  lemma ThreeColumns(x: int, w: int, bl: int, br: int, y0: int, hh: int, px: int, py: int)
    requires 0 <= bl && 0 <= br && bl + br <= w && hh >= 0
    ensures Ind(Rect(x, y0, bl, hh), px, py)
          + Ind(Rect(x + bl, y0, w - br - bl, hh), px, py)
          + Ind(Rect(x + w - br, y0, br, hh), px, py)
          == Ind(Rect(x, y0, w, hh), px, py)
  {
  }

  /** Three rows `bt`, `h - bt - bb` and `bb` high make up the target. */
  lemma ThreeRows(x: int, y: int, w: int, h: int, bt: int, bb: int, px: int, py: int)
    requires 0 <= bt && 0 <= bb && bt + bb <= h && w >= 0
    ensures Ind(Rect(x, y, w, bt), px, py)
          + Ind(Rect(x, y + bt, w, h - bb - bt), px, py)
          + Ind(Rect(x, y + h - bb, w, bb), px, py)
          == Ind(Rect(x, y, w, h), px, py)
  {
  }

  lemma EdgeBandPaints(ns: NineSlice, x: int, w: int, bl: int, br: int, y0: int, hh: int, v: int, rh: int, px: int, py: int)
    requires 0 <= bl && 0 <= br && bl + br <= w && hh >= 0
    requires EdgeBand(ns, x, w, bl, br, y0, hh, v, rh).Ok?
    ensures Paints(EdgeBand(ns, x, w, bl, br, y0, hh, v, rh), Rect(x, y0, w, hh), px, py)
  {
    var nw := ns.width;
    var nh := ns.height;
    var a := Ok(Blit(nw, nh, 0, v, Rect(x, y0, bl, hh)));
    var c := Ok(Blit(nw, nh, nw - br, v, Rect(x + w - br, y0, br, hh)));
    EdgeBandPieces(ns, x, w, bl, br, y0, hh, v, rh);
    var m := SegmentOf(ns, Rect(x + bl, y0, w - br - bl, hh), bl, v, nw - br - bl, rh, px, py);
    BlitPaints(nw, nh, 0, v, Rect(x, y0, bl, hh), px, py);
    BlitPaints(nw, nh, nw - br, v, Rect(x + w - br, y0, br, hh), px, py);
    ThreeColumns(x, w, bl, br, y0, hh, px, py);
    ThreePieces(a, m, c, Rect(x, y0, bl, hh), Rect(x + bl, y0, w - br - bl, hh), Rect(x + w - br, y0, br, hh),
                Rect(x, y0, w, hh), px, py);
  }

  lemma MiddleBandPaints(ns: NineSlice, x: int, w: int, bl: int, br: int, y0: int, hh: int, v: int, rh: int, px: int, py: int)
    requires 0 <= bl && 0 <= br && bl + br <= w && hh >= 0
    requires MiddleBand(ns, x, w, bl, br, y0, hh, v, rh).Ok?
    ensures Paints(MiddleBand(ns, x, w, bl, br, y0, hh, v, rh), Rect(x, y0, w, hh), px, py)
  {
    var nw := ns.width;
    MiddleBandPieces(ns, x, w, bl, br, y0, hh, v, rh);
    var a := SegmentOf(ns, Rect(x, y0, bl, hh), 0, v, bl, rh, px, py);
    var m := SegmentOf(ns, Rect(x + bl, y0, w - br - bl, hh), bl, v, nw - br - bl, rh, px, py);
    var c := SegmentOf(ns, Rect(x + w - br, y0, br, hh), nw - br, v, br, rh, px, py);
    ThreeColumns(x, w, bl, br, y0, hh, px, py);
    ThreePieces(a, m, c, Rect(x, y0, bl, hh), Rect(x + bl, y0, w - br - bl, hh), Rect(x + w - br, y0, br, hh),
                Rect(x, y0, w, hh), px, py);
  }

  /** An edge band is its two border blits around a segment. */
  lemma EdgeBandPieces(ns: NineSlice, x: int, w: int, bl: int, br: int, y0: int, hh: int, v: int, rh: int)
    ensures EdgeBand(ns, x, w, bl, br, y0, hh, v, rh)
         == Then(Ok(Blit(ns.width, ns.height, 0, v, Rect(x, y0, bl, hh))),
                 Then(InnerSegment(ns, Rect(x + bl, y0, w - br - bl, hh), bl, v, ns.width - br - bl, rh),
                      Ok(Blit(ns.width, ns.height, ns.width - br, v, Rect(x + w - br, y0, br, hh)))))
  {
  }

  /** The middle band is its three segments. */
  lemma MiddleBandPieces(ns: NineSlice, x: int, w: int, bl: int, br: int, y0: int, hh: int, v: int, rh: int)
    ensures MiddleBand(ns, x, w, bl, br, y0, hh, v, rh)
         == Then(InnerSegment(ns, Rect(x, y0, bl, hh), 0, v, bl, rh),
                 Then(InnerSegment(ns, Rect(x + bl, y0, w - br - bl, hh), bl, v, ns.width - br - bl, rh),
                      InnerSegment(ns, Rect(x + w - br, y0, br, hh), ns.width - br, v, br, rh)))
  {
  }

  /** A segment, and that it paints its area when it draws. */
  lemma SegmentOf(ns: NineSlice, t: Rect, u: int, v: int, rw: int, rh: int, px: int, py: int)
    returns (seg: Result<seq<Quad>, string>)
    requires t.w >= 0 && t.h >= 0
    ensures seg == InnerSegment(ns, t, u, v, rw, rh)
    ensures seg.Ok? ==> Paints(seg, t, px, py)
  {
    seg := InnerSegment(ns, t, u, v, rw, rh);
    if seg.Ok? {
      SegmentPaints(ns, t, u, v, rw, rh, px, py);
    }
  }

  /** Three drawing steps in a row that paint three rectangles which make up
      `whole` exactly once between them paint `whole` exactly once. */
  lemma ThreePieces(a: Result<seq<Quad>, string>, m: Result<seq<Quad>, string>, c: Result<seq<Quad>, string>,
                    ra: Rect, rm: Rect, rc: Rect, whole: Rect, px: int, py: int)
    requires Then(a, Then(m, c)).Ok?
    requires a.Ok? && m.Ok? && c.Ok? ==> Paints(a, ra, px, py) && Paints(m, rm, px, py) && Paints(c, rc, px, py)
    requires Ind(ra, px, py) + Ind(rm, px, py) + Ind(rc, px, py) == Ind(whole, px, py)
    ensures Paints(Then(a, Then(m, c)), whole, px, py)
  {
    ThenPaints(a, Then(m, c), px, py);
    ThenPaints(m, c, px, py);
  }

  /** The borders of a non-negative border spec clamp to at most half the
      extent, so opposite borders never overlap. */
  lemma BordersFit(a: int, b: int, extent: int)
    requires a >= 0 && b >= 0 && extent > 0
    ensures 0 <= ClampBorder(a, extent) && 0 <= ClampBorder(b, extent)
    ensures ClampBorder(a, extent) + ClampBorder(b, extent) <= extent
  {
  }

  /** Whenever nothing throws, the pieces of a nine-sliced sprite paint the
      target exactly once: the corners, edges and middle tile the area without
      gaps or overlaps, whichever of the layouts is taken. */
  lemma {:induction false} NineSlicePartition(ns: NineSlice, x: int, y: int, w: int, h: int)
    requires w > 0 && h > 0
    requires ns.border.left >= 0 && ns.border.right >= 0 && ns.border.top >= 0 && ns.border.bottom >= 0
    requires NineSliced(ns, x, y, w, h).Ok?
    ensures Partition(NineSliced(ns, x, y, w, h).value, Rect(x, y, w, h))
  {
    forall px, py
      ensures CoverCount(NineSliced(ns, x, y, w, h).value, px, py) == Ind(Rect(x, y, w, h), px, py)
    {
      NineSlicePoint(ns, x, y, w, h, px, py);
    }
  }

  lemma {:induction false} NineSlicePoint(ns: NineSlice, x: int, y: int, w: int, h: int, px: int, py: int)
    requires w > 0 && h > 0
    requires ns.border.left >= 0 && ns.border.right >= 0 && ns.border.top >= 0 && ns.border.bottom >= 0
    requires NineSliced(ns, x, y, w, h).Ok?
    ensures Paints(NineSliced(ns, x, y, w, h), Rect(x, y, w, h), px, py)
  {
    var nw := ns.width;
    var nh := ns.height;
    var bl := ClampBorder(ns.border.left, w);
    var br := ClampBorder(ns.border.right, w);
    var bt := ClampBorder(ns.border.top, h);
    var bb := ClampBorder(ns.border.bottom, h);
    BordersFit(ns.border.left, ns.border.right, w);
    BordersFit(ns.border.top, ns.border.bottom, h);
    if w == nw && h == nh {
      BlitPaints(nw, nh, 0, 0, Rect(x, y, w, h), px, py);
    } else if h == nh {
      assert NineSliced(ns, x, y, w, h) == EdgeBand(ns, x, w, bl, br, y, h, 0, nh);
      EdgeBandPaints(ns, x, w, bl, br, y, h, 0, nh, px, py);
    } else if w == nw {
      assert NineSliced(ns, x, y, w, h) == RowStack(ns, x, y, w, h, bt, bb);
      RowStackPaints(ns, x, y, w, h, bt, bb, px, py);
    } else {
      assert NineSliced(ns, x, y, w, h) == Grid(ns, x, y, w, h, bl, br, bt, bb);
      GridPaints(ns, x, y, w, h, bl, br, bt, bb, px, py);
    }
  }

  lemma RowStackPaints(ns: NineSlice, x: int, y: int, w: int, h: int, bt: int, bb: int, px: int, py: int)
    requires 0 <= bt && 0 <= bb && bt + bb <= h && w >= 0
    requires RowStack(ns, x, y, w, h, bt, bb).Ok?
    ensures Paints(RowStack(ns, x, y, w, h, bt, bb), Rect(x, y, w, h), px, py)
  {
    var nw := ns.width;
    var nh := ns.height;
    var a := Ok(Blit(nw, nh, 0, 0, Rect(x, y, w, bt)));
    var m := InnerSegment(ns, Rect(x, y + bt, w, h - bb - bt), 0, bt, nw, nh - bb - bt);
    var c := Ok(Blit(nw, nh, 0, nh - bb, Rect(x, y + h - bb, w, bb)));
    assert RowStack(ns, x, y, w, h, bt, bb) == Then(a, Then(m, c));
    BlitPaints(nw, nh, 0, 0, Rect(x, y, w, bt), px, py);
    if m.Ok? {
      SegmentPaints(ns, Rect(x, y + bt, w, h - bb - bt), 0, bt, nw, nh - bb - bt, px, py);
    }
    BlitPaints(nw, nh, 0, nh - bb, Rect(x, y + h - bb, w, bb), px, py);
    ThreeRows(x, y, w, h, bt, bb, px, py);
    ThreePieces(a, m, c, Rect(x, y, w, bt), Rect(x, y + bt, w, h - bb - bt), Rect(x, y + h - bb, w, bb),
                Rect(x, y, w, h), px, py);
  }

  lemma GridPaints(ns: NineSlice, x: int, y: int, w: int, h: int, bl: int, br: int, bt: int, bb: int, px: int, py: int)
    requires 0 <= bl && 0 <= br && bl + br <= w
    requires 0 <= bt && 0 <= bb && bt + bb <= h
    requires Grid(ns, x, y, w, h, bl, br, bt, bb).Ok?
    ensures Paints(Grid(ns, x, y, w, h, bl, br, bt, bb), Rect(x, y, w, h), px, py)
  {
    var nh := ns.height;
    var top := EdgeBandOf(ns, x, w, bl, br, y, bt, 0, bt, px, py);
    var bottom := EdgeBandOf(ns, x, w, bl, br, y + h - bb, bb, nh - bb, bb, px, py);
    var middle := MiddleBandOf(ns, x, w, bl, br, y + bt, h - bb - bt, bt, nh - bb - bt, px, py);
    assert Grid(ns, x, y, w, h, bl, br, bt, bb) == Then(top, Then(bottom, middle));
    ThreeRows(x, y, w, h, bt, bb, px, py);
    ThreePieces(top, bottom, middle, Rect(x, y, w, bt), Rect(x, y + h - bb, w, bb), Rect(x, y + bt, w, h - bb - bt),
                Rect(x, y, w, h), px, py);
  }

  /** An edge band, and that it paints its rows when it draws. */
  lemma EdgeBandOf(ns: NineSlice, x: int, w: int, bl: int, br: int, y0: int, hh: int, v: int, rh: int, px: int, py: int)
    returns (band: Result<seq<Quad>, string>)
    requires 0 <= bl && 0 <= br && bl + br <= w && hh >= 0
    ensures band == EdgeBand(ns, x, w, bl, br, y0, hh, v, rh)
    ensures band.Ok? ==> Paints(band, Rect(x, y0, w, hh), px, py)
  {
    band := EdgeBand(ns, x, w, bl, br, y0, hh, v, rh);
    if band.Ok? {
      EdgeBandPaints(ns, x, w, bl, br, y0, hh, v, rh, px, py);
    }
  }

  /** The middle band, and that it paints its rows when it draws. */
  lemma MiddleBandOf(ns: NineSlice, x: int, w: int, bl: int, br: int, y0: int, hh: int, v: int, rh: int, px: int, py: int)
    returns (band: Result<seq<Quad>, string>)
    requires 0 <= bl && 0 <= br && bl + br <= w && hh >= 0
    ensures band == MiddleBand(ns, x, w, bl, br, y0, hh, v, rh)
    ensures band.Ok? ==> Paints(band, Rect(x, y0, w, hh), px, py)
  {
    band := MiddleBand(ns, x, w, bl, br, y0, hh, v, rh);
    if band.Ok? {
      MiddleBandPaints(ns, x, w, bl, br, y0, hh, v, rh, px, py);
    }
  }

  /** `blitSprite(texture, x, y, width, height, color, scaling)`: dispatch on
      the scaling mode; a tiled sprite repeats its whole texture. */
  function BlitScaled(r: Rect, scaling: Scaling): (res: Result<seq<Quad>, string>)
    ensures scaling.Stretch? ==> res.Ok?
    ensures scaling.Tile? ==> res == TiledBlit(r, Sprite(0, 0, scaling.tileWidth, scaling.tileHeight, scaling.tileWidth, scaling.tileHeight))
  {
    match scaling
    case Stretch => Ok(StretchBlit(r))
    case Tile(tw, th) => TiledBlit(r, Sprite(0, 0, tw, th, tw, th))
    case Nine(ns) => NineSliced(ns, r.x, r.y, r.w, r.h)
  }

  /** Every scaling mode that draws without an exception paints a non-empty
      target exactly once. */
  lemma ScaledPartition(r: Rect, scaling: Scaling)
    requires r.w > 0 && r.h > 0
    requires scaling.Nine? ==> var b := scaling.slice.border; b.left >= 0 && b.right >= 0 && b.top >= 0 && b.bottom >= 0
    requires BlitScaled(r, scaling).Ok?
    ensures Partition(BlitScaled(r, scaling).value, r)
  {
    match scaling
    case Stretch =>
    case Tile(tw, th) => TiledPartition(r, Sprite(0, 0, tw, th, tw, th));
    case Nine(ns) => NineSlicePartition(ns, r.x, r.y, r.w, r.h);
  }
}

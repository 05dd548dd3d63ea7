/** A HUD element's placement: its position options are fractions of the
    screen, turned into pixels when the bounds are laid out; the element is
    kept off the negative side of the screen and, when it is narrower or
    shorter than the screen, moved back so its far edge stays on it. */
module HudEntry {
  import opened Base

  /** A float as far as this code sees one: a number or NaN (a zero divided
      by zero). Infinities never survive the clamps they meet here. */
  datatype Float = Num(v: real) | NaN

  /** A position on the screen. */
  datatype Pos = Pos(x: int, y: int)

  /** A rectangle: corner and size. */
  datatype Rect = Rect(x: int, y: int, width: int, height: int)

  /** The scaled screen size of the game window. */
  datatype Screen = Screen(width: int, height: int)

  /** An element's stored options and its unscaled size. */
  datatype Entry = Entry(xOption: Float, yOption: Float, width: int, height: int)

  /** What `setBounds` lays out: the scaled position and bounds, and the
      unscaled position and bounds drawing uses. */
  datatype Placed = Placed(truePos: Pos, renderPos: Pos, renderBounds: Rect, trueBounds: Rect)

  /** The layout before any window exists. */
  const Reset := Placed(Pos(0, 0), Pos(0, 0), Rect(0, 0, 1, 1), Rect(0, 0, 1, 1))

  /** `intToFloat`: the share of `max - offset` that `current` is, clamped to
      [0, 1]. A zero span divides by zero: a positive or negative `current`
      gives an infinity the clamp turns into 1 or 0, and 0 gives NaN, which
      the clamp lets through. */
  function IntToFloat(current: int, max: int, offset: int): (r: Float)
    ensures r.NaN? <==> current == 0 && max == offset
    ensures r.Num? ==> 0.0 <= r.v <= 1.0
    ensures max != offset && 0.0 <= current as real / (max - offset) as real <= 1.0 ==>
      r == Num(current as real / (max - offset) as real)
    ensures max == offset && current > 0 ==> r == Num(1.0)
    ensures max == offset && current < 0 ==> r == Num(0.0)
  {
    var d := max - offset;
    if d == 0 then
      (if current > 0 then Num(1.0) else if current < 0 then Num(0.0) else NaN)
    else Num(ClampReal(current as real / d as real, 0.0, 1.0))
  }

  /** `floatToInt`: `percent` of `max - offset`, rounded half up and clamped
      to [0, max]; a NaN rounds to 0. */
  function FloatToInt(percent: Float, max: int, offset: int): (r: int)
    ensures max >= 0 ==> 0 <= r <= max
    ensures percent.NaN? && max >= 0 ==> r == 0
    ensures percent.Num? && 0.0 <= (max - offset) as real * percent.v <= max as real ==>
      r as real - 0.5 <= (max - offset) as real * percent.v < r as real + 0.5
  {
    var n := match percent
             case NaN => 0
             case Num(p) => Round((max - offset) as real * p);
    ClampInt(n, 0, max)
  }

  /** `setX` and `setY`: a pixel position is stored as its share of the
      screen's width or height. */
  function SetX(e: Entry, x: int, screen: Screen): (r: Entry)
    ensures r.(xOption := e.xOption) == e
    ensures r.xOption.Num? ==> 0.0 <= r.xOption.v <= 1.0
  {
    e.(xOption := IntToFloat(x, screen.width, 0))
  }

  function SetY(e: Entry, y: int, screen: Screen): (r: Entry)
    ensures r.(yOption := e.yOption) == e
    ensures r.yOption.Num? ==> 0.0 <= r.yOption.v <= 1.0
  {
    e.(yOption := IntToFloat(y, screen.height, 0))
  }

  /** One axis of `setBounds`: a negative position becomes 0, and an element
      smaller than the screen that runs past its far edge is moved back to
      end exactly on it. */
  function Place(p: int, size: int, screen: int): (r: int)
    ensures r >= 0
    ensures size < screen ==> r + size <= screen
    ensures 0 <= p && p + size <= screen ==> r == p
    ensures size >= screen ==> r == MaxInt(p, 0)
    ensures size < screen && MaxInt(p, 0) + size > screen ==> r + size == screen
  {
    var q := if p < 0 then 0 else p;
    if size < screen && q + size > screen then screen - size else q
  }

  /** The scaled size of an element: each side times the scale, truncated. */
  function TrueSize(width: int, height: int, scale: real): (r: Pos)
    ensures scale >= 0.0 && width >= 0 ==> 0 <= r.x && r.x as real <= width as real * scale < r.x as real + 1.0
    ensures scale >= 0.0 && height >= 0 ==> 0 <= r.y && r.y as real <= height as real * scale < r.y as real + 1.0
  {
    assert scale >= 0.0 && width >= 0 ==> width as real * scale >= 0.0;
    assert scale >= 0.0 && height >= 0 ==> height as real * scale >= 0.0;
    Pos(Trunc(width as real * scale), Trunc(height as real * scale))
  }

  /** `setBounds`: with no window everything is reset; otherwise the stored
      shares become pixels less the element's own offsets (given, they are
      the interface's), each axis is placed on the screen, and the bounds
      follow. Dividing the position by the scale is a helper's and given as
      `divide`. */
  function SetBounds(e: Entry, window: Option<Screen>, scale: real, offsetX: int, offsetY: int,
                     divide: (Pos, real) -> Pos): (r: Placed)
    ensures window.None? ==> r == Reset
    ensures r.truePos.x >= 0 && r.truePos.y >= 0
    ensures window.Some? ==>
      r.trueBounds == Rect(r.truePos.x, r.truePos.y, TrueSize(e.width, e.height, scale).x, TrueSize(e.width, e.height, scale).y)
    ensures window.Some? && TrueSize(e.width, e.height, scale).x < window.value.width ==>
      r.truePos.x + TrueSize(e.width, e.height, scale).x <= window.value.width
    ensures window.Some? && TrueSize(e.width, e.height, scale).y < window.value.height ==>
      r.truePos.y + TrueSize(e.width, e.height, scale).y <= window.value.height
    ensures window.Some? ==> r.renderPos == divide(r.truePos, scale)
    ensures window.Some? ==> r.renderBounds == Rect(r.renderPos.x, r.renderPos.y, e.width, e.height)
  {
    match window
    case None => Reset
    case Some(s) =>
      var size := TrueSize(e.width, e.height, scale);
      var x := Place(FloatToInt(e.xOption, s.width, 0) - offsetX, size.x, s.width);
      var y := Place(FloatToInt(e.yOption, s.height, 0) - offsetY, size.y, s.height);
      var truePos := Pos(x, y);
      var renderPos := divide(truePos, scale);
      Placed(truePos, renderPos, Rect(renderPos.x, renderPos.y, e.width, e.height),
             Rect(x, y, size.x, size.y))
  }

  // ---------------------------------------------------------------------------
  // Properties
  // ---------------------------------------------------------------------------

  /** A pixel position on the screen survives being stored as a share and
      turned back into pixels. */
  lemma PixelRoundTrip(current: int, max: int)
    requires 0 < max && 0 <= current <= max
    ensures FloatToInt(IntToFloat(current, max, 0), max, 0) == current
  {
    var p := current as real / max as real;
    assert 0.0 <= p <= 1.0;
    assert IntToFloat(current, max, 0) == Num(p);
    assert max as real * p == current as real;
  }

  /** A share turned into pixels and back moves by at most half a pixel's
      share. */
  lemma ShareRoundTrip(p: real, max: int)
    requires 0 < max && 0.0 <= p <= 1.0
    ensures var n := FloatToInt(Num(p), max, 0);
      var back := IntToFloat(n, max, 0);
      back.Num? && -0.5 <= (back.v - p) * max as real <= 0.5
  {
    var m := max as real;
    var n := FloatToInt(Num(p), max, 0);
    assert 0.0 <= m * p <= m;
    assert n as real - 0.5 <= m * p < n as real + 0.5;
    var q := n as real / m;
    assert q * m == n as real;
    assert IntToFloat(n, max, 0) == Num(q);
    assert (q - p) * m == n as real - m * p;
  }

  /** Placing is idempotent: a placed position is placed where it is. */
  lemma PlaceIdempotent(p: int, size: int, screen: int)
    ensures Place(Place(p, size, screen), size, screen) == Place(p, size, screen)
  {
  }

  /** Moving an element to a spot where it fits, with no offset of its own,
      lays it out exactly there. */
  lemma {:induction false} MovedElementLandsThere(e: Entry, x: int, y: int, s: Screen, scale: real, divide: (Pos, real) -> Pos)
    requires 0 <= x <= s.width && 0 < s.width && x + TrueSize(e.width, e.height, scale).x <= s.width
    requires 0 <= y <= s.height && 0 < s.height && y + TrueSize(e.width, e.height, scale).y <= s.height
    ensures SetBounds(SetY(SetX(e, x, s), y, s), Some(s), scale, 0, 0, divide).truePos == Pos(x, y)
  {
    var moved := SetY(SetX(e, x, s), y, s);
    PixelRoundTrip(x, s.width);
    PixelRoundTrip(y, s.height);
    assert FloatToInt(moved.xOption, s.width, 0) == x;
    assert FloatToInt(moved.yOption, s.height, 0) == y;
    assert moved.width == e.width && moved.height == e.height;
  }
}

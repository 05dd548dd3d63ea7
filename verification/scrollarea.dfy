/** The news screen's scrollable text area: the scroll amount is kept between
    0 and the overflow of the content past the area's height, and the mouse
    wheel, the arrow keys and dragging the scrollbar all go through that
    clamp; the scrollbar's knob stays inside its track. */
module ScrollArea {
  import opened Base

  const ScrollbarWidth := 6
  const InnerPadding := 4
  const KeyUp := 265
  const KeyDown := 264

  /** The area's box, the height of its text, its scroll rate (one line), its
      scroll amount and whether the scrollbar is being dragged. */
  datatype Area = Area(
    x: int, y: int, width: int, height: int,
    innerHeight: int,
    scrollRate: real,
    amount: real,
    scrolling: bool,
    visible: bool)

  /** `contentHeight`: the text plus the padding above and below. */
  function ContentHeight(a: Area): (h: int)
    ensures h - a.innerHeight == 2 * InnerPadding
  {
    a.innerHeight + 2 * InnerPadding
  }

  /** `maxScrollAmount`: how far the content overflows the area, or 0. At
      the maximum the text's bottom sits one inner padding above the area's
      bottom. */
  function MaxScroll(a: Area): (m: int)
    ensures m >= 0
    ensures m == 0 <==> InnerPadding + a.innerHeight + InnerPadding <= a.height
    ensures m > 0 ==> a.y - m + InnerPadding + a.innerHeight + InnerPadding == a.y + a.height
  {
    MaxInt(0, ContentHeight(a) - a.height)
  }

  /** `scrollbarVisible`: the bar shows exactly when the text and its
      padding above and below are taller than the area. */
  function ScrollbarVisible(a: Area): (b: bool)
    ensures b <==> InnerPadding + a.innerHeight + InnerPadding > a.height
  {
    MaxScroll(a) > 0
  }

  /** The invariant every operation keeps: the amount lies in [0, max]. */
  ghost predicate InRange(a: Area) {
    0.0 <= a.amount <= MaxScroll(a) as real
  }

  /** `setScrollAmount`: clamp into [0, max]. */
  function SetAmount(a: Area, v: real): (r: Area)
    ensures InRange(r)
    ensures 0.0 <= v <= MaxScroll(a) as real ==> r.amount == v
    ensures v < 0.0 ==> r.amount == 0.0
    ensures v > MaxScroll(a) as real ==> r.amount == MaxScroll(a) as real
    ensures r.(amount := a.amount) == a
  {
    a.(amount := ClampReal(v, 0.0, MaxScroll(a) as real))
  }

  /** `refreshScrollAmount`, after the content or the size changed. */
  function Refresh(a: Area): (r: Area)
    ensures InRange(r)
    ensures InRange(a) ==> r == a
  {
    SetAmount(a, a.amount)
  }

  // ---------------------------------------------------------------------------
  // Input
  // ---------------------------------------------------------------------------

  /** `mouseScrolled`: a hidden area ignores the wheel; otherwise it scrolls
      by the wheel's delta times the rate (up is negative amount). */
  function MouseScrolled(a: Area, delta: real): (r: (Area, bool))
    ensures !a.visible ==> r == (a, false)
    ensures a.visible ==> r.1 && r.0 == SetAmount(a, a.amount - delta * a.scrollRate)
  {
    if !a.visible then (a, false) else (SetAmount(a, a.amount - delta * a.scrollRate), true)
  }

  /** `keyPressed`: the arrow keys move by one rate and are consumed only when
      the amount changed; anything else, or an arrow that hit the end, goes
      to the widget's default handling, whose answer is `fallback`. */
  function KeyPressed(a: Area, keyCode: int, fallback: bool): (r: (Area, bool))
    ensures keyCode != KeyUp && keyCode != KeyDown ==> r == (a, fallback)
    ensures keyCode == KeyUp ==> r.0 == SetAmount(a, a.amount - a.scrollRate)
    ensures keyCode == KeyDown ==> r.0 == SetAmount(a, a.amount + a.scrollRate)
    ensures r.1 <==> (r.0.amount != a.amount || fallback)
  {
    if keyCode == KeyUp || keyCode == KeyDown then
      var step := if keyCode == KeyUp then -1.0 else 1.0;
      var b := SetAmount(a, a.amount + step * a.scrollRate);
      if a.amount != b.amount then (b, true) else (b, fallback)
    else (a, fallback)
  }

  /** With the amount in range, the up arrow at the top and the down arrow at
      the bottom change nothing and fall through. */
  lemma ArrowsStopAtTheEnds(a: Area, fallback: bool)
    requires InRange(a) && a.scrollRate > 0.0
    ensures a.amount == 0.0 ==> KeyPressed(a, KeyUp, fallback) == (a, fallback)
    ensures a.amount == MaxScroll(a) as real ==> KeyPressed(a, KeyDown, fallback) == (a, fallback)
  {
  }

  /** Away from the ends, one line up and one line down is back where it was. */
  lemma UpThenDown(a: Area, fallback: bool)
    requires InRange(a) && 0.0 <= a.scrollRate <= a.amount
    ensures KeyPressed(KeyPressed(a, KeyUp, fallback).0, KeyDown, fallback).0 == a
  {
  }

  /** `scrollerHeight`: the knob's height, the area's share of the content
      scaled to the area (truncated), clamped as `min(max(v, 32), height - 8)`. */
  function ScrollerHeight(a: Area): (j: int)
    requires a.innerHeight >= 0
    ensures j <= a.height - 8
    ensures a.height - 8 >= 32 ==> 32 <= j
  {
    ClampInt(Trunc((a.height * a.height) as real / ContentHeight(a) as real), 32, a.height - 8)
  }

  /** `mouseDragged`: while dragging, above the area snaps to the top, below
      it to the bottom, and in between the drag moves the amount by the ratio
      of the overflow to the track's free length (at least 1). Without a
      drag in progress the widget's default handling answers. */
  function MouseDragged(a: Area, mouseY: real, dragY: real, fallback: bool): (r: (Area, bool))
    requires a.innerHeight >= 0
    ensures !a.scrolling ==> r == (a, fallback)
    ensures a.scrolling ==> r.1 && InRange(r.0)
    ensures a.scrolling && mouseY < a.y as real ==> r.0.amount == 0.0
    ensures a.scrolling && a.y as real <= mouseY && mouseY > (a.y + a.height) as real ==> r.0.amount == MaxScroll(a) as real
  {
    if !a.scrolling then (a, fallback)
    else if mouseY < a.y as real then (SetAmount(a, 0.0), true)
    else if mouseY > (a.y + a.height) as real then (SetAmount(a, MaxScroll(a) as real), true)
    else
      var d := MaxInt(1, MaxScroll(a)) as real;
      var i := ScrollerHeight(a);
      var e := if 1.0 >= d / (a.height - i) as real then 1.0 else d / (a.height - i) as real;
      (SetAmount(a, a.amount + dragY * e), true)
  }

  /** `updateScrolling` on a text area, whose scrollbar sits just right of its
      box: a drag starts on a valid button press inside the scrollbar's
      column while there is something to scroll. */
  function UpdateScrolling(a: Area, mouseX: real, mouseY: real, validButton: bool): (r: Area)
    ensures r.scrolling ==> ScrollbarVisible(a) && validButton
    ensures r.(scrolling := a.scrolling) == a
  {
    var barX := a.x + a.width;
    a.(scrolling := ScrollbarVisible(a) && validButton
                    && mouseX >= barX as real && mouseX <= (barX + ScrollbarWidth) as real
                    && mouseY >= a.y as real && mouseY < (a.y + a.height) as real)
  }

  /** `onRelease`. */
  function Release(a: Area): Area {
    a.(scrolling := false)
  }

  /** Whatever the input, the amount ends up in range, even from an area whose
      amount had gone stale. */
  lemma InputKeepsRange(a: Area, delta: real, keyCode: int, mouseY: real, dragY: real, fallback: bool)
    requires InRange(a) && a.innerHeight >= 0
    ensures InRange(MouseScrolled(a, delta).0)
    ensures InRange(KeyPressed(a, keyCode, fallback).0)
    ensures InRange(MouseDragged(a, mouseY, dragY, fallback).0)
  {
  }

  // ---------------------------------------------------------------------------
  // Scrollbar
  // ---------------------------------------------------------------------------

  /** `scrollBarY`, drawn only while the scrollbar is visible: the knob's top,
      the truncated amount's share of the free track (integer arithmetic),
      but never above the area. */
  function ScrollBarY(a: Area): (k: int)
    requires ScrollbarVisible(a) && a.innerHeight >= 0
    ensures a.y <= k
    ensures 0.0 <= a.amount < 1.0 ==> k == a.y
  {
    MaxInt(a.y, JavaDivAny(Trunc(a.amount) * (a.height - ScrollerHeight(a)), MaxScroll(a)) + a.y)
  }

  /** Java's `/` for a positive divisor and a dividend of either sign. */
  function JavaDivAny(n: int, m: int): int
    requires m > 0
  {
    JavaDiv(n, m)
  }

  /** With the amount in range, the knob lies inside the track: it starts at
      or below the area's top and ends at or above its bottom. */
  lemma {:induction false} KnobInTrack(a: Area)
    requires ScrollbarVisible(a) && a.innerHeight >= 0 && InRange(a)
    ensures a.y <= ScrollBarY(a)
    ensures ScrollBarY(a) + ScrollerHeight(a) <= a.y + a.height
  {
    ShareOfTrack(Trunc(a.amount), a.height - ScrollerHeight(a), MaxScroll(a));
  }

  /** The truncated amount's share of a track of length `w` is within it. */
  lemma {:induction false} ShareOfTrack(t: int, w: int, m: int)
    requires 0 <= t <= m && 0 < m && 0 <= w
    ensures 0 <= JavaDivAny(t * w, m) <= w
  {
    var p := t * w;
    ProductBetween(t, w, m);
    var q := JavaDiv(p, m);
    QuotientNonNegative(p, q, m);
    QuotientAtMost(p, q, m, w);
  }

  lemma ProductBetween(t: int, w: int, m: int)
    requires 0 <= t <= m && 0 <= w
    ensures 0 <= t * w <= m * w
  {
    assert (m - t) * w >= 0;
    assert m * w == t * w + (m - t) * w;
  }

  lemma QuotientNonNegative(p: int, q: int, m: int)
    requires 0 <= p && 0 < m && p < q * m + m
    ensures 0 <= q
  {
    SignOfProduct(q + 1, m);
    assert (q + 1) * m == q * m + m;
  }

  lemma SignOfProduct(a: int, m: int)
    requires m > 0
    ensures a <= 0 ==> a * m <= 0
  {
  }

  lemma QuotientAtMost(p: int, q: int, m: int, w: int)
    requires 0 < m && q * m <= p <= m * w
    ensures q <= w
  {
    assert (q - w) * m <= 0;
  }
}

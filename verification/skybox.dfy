/** A custom sky's opacity over the day: it fades in over one window of the
    24000-tick clock, stays fully shown, fades out over another window and
    is hidden otherwise; and the blend-mode names a sky file may give. */
module Skybox {
  import opened Base
  import opened Util

  /** The four fade times of a sky: fade-in start and end, fade-out start and
      end, as written in its file. */
  datatype Fade = Fade(startIn: int, endIn: int, startOut: int, endOut: int)

  /** A sky's opacity options. */
  datatype Sky = Sky(alwaysOn: bool, maxAlpha: real, fade: Fade)

  /** The fade times on the clock, each moved a day later when it would come
      before the one it follows. */
  datatype Window = Window(startIn: int, endIn: int, startOut: int, endOut: int)

  /** A time moved a day later when it lies before `floor`. */
  function After(x: int, floor: int): (r: int)
    ensures r == x || r == x + DayTicks
    ensures x < floor ==> r == x + DayTicks
  {
    if x < floor then x + DayTicks else x
  }

  /** A time on the clock, by Java's remainder (negative for negative times). */
  function OnClock(x: int): int {
    JavaRem(x, DayTicks)
  }

  /** The fade boundaries in order: the fade-in end after its start, the
      fade-out start after the fade-in end, the fade-out end after its start. */
  function Unwrap(f: Fade): (w: Window)
    ensures w.startIn == OnClock(f.startIn)
    ensures w.endIn == After(OnClock(f.endIn), w.startIn)
    ensures w.startOut == After(OnClock(f.startOut), w.endIn)
    ensures w.endOut == After(OnClock(f.endOut), w.startOut)
  {
    var s := OnClock(f.startIn);
    var e := After(OnClock(f.endIn), s);
    var so := After(OnClock(f.startOut), e);
    Window(s, e, so, After(OnClock(f.endOut), so))
  }

  /** For fade times on the clock, each window's end comes at or after its
      start (unless the fade-out was pushed a day past its end by a fade-in
      that runs past it) and less than a day later, and each window's length
      is the `getTicksBetween` distance of its two times. */
  lemma UnwrapOrdered(f: Fade)
    requires OnTheClock(f)
    ensures var w := Unwrap(f);
      && w.startIn <= w.endIn < w.startIn + DayTicks
      && w.endIn - w.startIn == TicksBetween(f.startIn, f.endIn)
      && w.endOut < w.startOut + DayTicks
      && (w.startOut < DayTicks ==> w.startOut <= w.endOut && w.endOut - w.startOut == TicksBetween(f.startOut, f.endOut))
      && (w.startOut <= w.endOut ==> w.endOut - w.startOut == TicksBetween(f.startOut, f.endOut))
      && (w.endIn < DayTicks ==> w.endIn <= w.startOut)
  {
    OnClockKeeps(f.startIn);
    OnClockKeeps(f.endIn);
    OnClockKeeps(f.startOut);
    OnClockKeeps(f.endOut);
  }

  /** A time already on the clock stays where it is. */
  lemma OnClockKeeps(x: int)
    requires 0 <= x < DayTicks
    ensures OnClock(x) == x
  {
  }

  predicate OnTheClock(f: Fade) {
    0 <= f.startIn < DayTicks && 0 <= f.endIn < DayTicks && 0 <= f.startOut < DayTicks && 0 <= f.endOut < DayTicks
  }

  /** Two times whose distance by `getTicksBetween` is 0 lie on the same
      spot of the clock, or exactly a day apart by Java's remainder. */
  lemma {:induction false} SameSpot(a: int, b: int)
    requires TicksBetween(a, b) == 0
    ensures OnClock(b) == OnClock(a) || OnClock(b) == OnClock(a) - DayTicks
  {
    if b != a {
      assert b == a - DayTicks;
      if a >= DayTicks {
        assert b % DayTicks == a % DayTicks;
      } else if a < 0 {
        assert (-b) % DayTicks == (-a) % DayTicks;
      }
    }
  }

  /** A window whose two ends are 0 ticks apart is empty, so neither fade
      divides by its zero length. */
  lemma {:induction false} EmptyWhenZero(f: Fade)
    ensures TicksBetween(f.startIn, f.endIn) == 0 ==> Unwrap(f).endIn <= Unwrap(f).startIn
    ensures TicksBetween(f.startOut, f.endOut) == 0 ==> Unwrap(f).endOut <= Unwrap(f).startOut
  {
    if TicksBetween(f.startIn, f.endIn) == 0 {
      SameSpot(f.startIn, f.endIn);
    }
    if TicksBetween(f.startOut, f.endOut) == 0 {
      SameSpot(f.startOut, f.endOut);
    }
  }

  /** How far the sky is shown at a time of day, before scaling: rising
      through the fade-in, 1 between the fades, falling through the fade-out,
      0 otherwise. The time is compared against each window after moving it
      a day later when it comes before the window's start. */
  function Phase(f: Fade, timeOfDay: int): (p: real)
    ensures OnTheClock(f) ==> 0.0 <= p <= 1.0
  {
    EmptyWhenZero(f);
    var p := PhaseAt(Unwrap(f), OnClock(timeOfDay), TicksBetween(f.startIn, f.endIn), TicksBetween(f.startOut, f.endOut));
    if OnTheClock(f) then
      UnwrapOrdered(f);
      PhaseAtFraction(Unwrap(f), OnClock(timeOfDay), TicksBetween(f.startIn, f.endIn), TicksBetween(f.startOut, f.endOut));
      p
    else p
  }

  /** The phase at clock time `t` against the windows `w`, dividing by the
      fade lengths `lenIn` and `lenOut`. */
  function PhaseAt(w: Window, t: int, lenIn: int, lenOut: int): real
    requires lenIn == 0 ==> w.endIn <= w.startIn
    requires lenOut == 0 ==> w.endOut <= w.startOut
  {
    var tIn := After(t, w.startIn);
    var tFull := After(t, w.endIn);
    var tOut := After(t, w.startOut);
    if w.startIn < tIn <= w.endIn then
      1.0 - (w.endIn - tIn) as real / lenIn as real
    else if w.endIn < tFull <= w.startOut then 1.0
    else if w.startOut < tOut <= w.endOut then
      (w.endOut - tOut) as real / lenOut as real
    else 0.0
  }

  /** `getAlpha`: 1 for a sky that is always on; otherwise the phase scaled
      by the sky's maximum, clamped to [0, 1]. */
  function Alpha(s: Sky, timeOfDay: int): (a: real)
    ensures 0.0 <= a <= 1.0
    ensures s.alwaysOn ==> a == 1.0
    ensures !s.alwaysOn && 0.0 <= Phase(s.fade, timeOfDay) * s.maxAlpha <= 1.0 ==>
      a == Phase(s.fade, timeOfDay) * s.maxAlpha
  {
    if s.alwaysOn then 1.0 else ClampReal(Phase(s.fade, timeOfDay) * s.maxAlpha, 0.0, 1.0)
  }

  /** For fade times on the clock the phase is itself a fraction: within
      the fade-in it is the share of the fade-in already passed, and within
      the fade-out the share still to go. */
  lemma {:induction false} PhaseIsFraction(f: Fade, timeOfDay: int)
    requires OnTheClock(f)
    ensures 0.0 <= Phase(f, timeOfDay) <= 1.0
    ensures var w := Unwrap(f); var tIn := After(OnClock(timeOfDay), w.startIn);
      w.startIn < tIn <= w.endIn ==>
        Phase(f, timeOfDay) == (tIn - w.startIn) as real / (w.endIn - w.startIn) as real
    ensures var w := Unwrap(f); var tIn := After(OnClock(timeOfDay), w.startIn);
      var tFull := After(OnClock(timeOfDay), w.endIn); var tOut := After(OnClock(timeOfDay), w.startOut);
      !(w.startIn < tIn <= w.endIn) && !(w.endIn < tFull <= w.startOut) && w.startOut < tOut <= w.endOut ==>
        Phase(f, timeOfDay) == (w.endOut - tOut) as real / (w.endOut - w.startOut) as real
  {
    UnwrapOrdered(f);
    EmptyWhenZero(f);
    PhaseAtFraction(Unwrap(f), OnClock(timeOfDay), TicksBetween(f.startIn, f.endIn), TicksBetween(f.startOut, f.endOut));
  }

  /** The same for any windows whose lengths are the fade lengths. */
  lemma PhaseAtFraction(w: Window, t: int, lenIn: int, lenOut: int)
    requires w.startIn <= w.endIn && lenIn == w.endIn - w.startIn
    requires w.startOut <= w.endOut ==> lenOut == w.endOut - w.startOut
    requires lenOut == 0 ==> w.endOut <= w.startOut
    ensures 0.0 <= PhaseAt(w, t, lenIn, lenOut) <= 1.0
    ensures var tIn := After(t, w.startIn);
      w.startIn < tIn <= w.endIn ==>
        PhaseAt(w, t, lenIn, lenOut) == (tIn - w.startIn) as real / (w.endIn - w.startIn) as real
    ensures var tIn := After(t, w.startIn); var tFull := After(t, w.endIn); var tOut := After(t, w.startOut);
      !(w.startIn < tIn <= w.endIn) && !(w.endIn < tFull <= w.startOut) && w.startOut < tOut <= w.endOut ==>
        PhaseAt(w, t, lenIn, lenOut) == (w.endOut - tOut) as real / (w.endOut - w.startOut) as real
  {
    var tIn := After(t, w.startIn);
    var tFull := After(t, w.endIn);
    var tOut := After(t, w.startOut);
    if w.startIn < tIn <= w.endIn {
      Rising(w.endIn - tIn, lenIn);
      assert lenIn - (w.endIn - tIn) == tIn - w.startIn;
    } else if w.endIn < tFull <= w.startOut {
    } else if w.startOut < tOut <= w.endOut {
      Falling(w.endOut - tOut, lenOut);
    }
  }

  lemma Rising(n: int, m: int)
    requires 0 <= n < m
    ensures 0.0 <= 1.0 - n as real / m as real <= 1.0
    ensures 1.0 - n as real / m as real == (m - n) as real / m as real
  {
    var a := n as real;
    var b := m as real;
    assert b > 0.0;
    assert b / b == 1.0;
    assert a / b < 1.0;
    assert (b - a) / b == b / b - a / b;
    assert (m - n) as real == b - a;
  }

  lemma Falling(n: int, m: int)
    requires 0 <= n < m
    ensures 0.0 <= n as real / m as real < 1.0
  {
  }

  /** Between the end of the fade-in and the start of the fade-out the sky is
      fully shown, and at times in none of the windows it is hidden. */
  lemma FullAndHidden(f: Fade, timeOfDay: int)
    ensures var w := Unwrap(f); var t := OnClock(timeOfDay);
      !(w.startIn < After(t, w.startIn) <= w.endIn) && w.endIn < After(t, w.endIn) <= w.startOut ==>
        Phase(f, timeOfDay) == 1.0
    ensures var w := Unwrap(f); var t := OnClock(timeOfDay);
      !(w.startIn < After(t, w.startIn) <= w.endIn) && !(w.endIn < After(t, w.endIn) <= w.startOut)
      && !(w.startOut < After(t, w.startOut) <= w.endOut) ==>
        Phase(f, timeOfDay) == 0.0
  {
  }

  // ---------------------------------------------------------------------------
  // Blend modes
  // ---------------------------------------------------------------------------

  /** The blend-mode names in the order of their numbers. */
  const BlendNames: seq<string> :=
    ["alpha", "add", "subtract", "multiply", "dodge", "burn", "screen", "overlay", "replace"]

  /** The additive mode, which a missing or unknown name falls back to. */
  const DefaultBlend := 1

  /** `parseBlend`: the name is lower-cased and trimmed and looked up; no name
      or an unknown one gives the additive mode. */
  function ParseBlend(name: Option<string>): (r: int)
    ensures 0 <= r < |BlendNames|
    ensures name.None? ==> r == DefaultBlend
    ensures name.Some? && Trim(LowerStr(name.value)) in BlendNames ==> BlendNames[r] == Trim(LowerStr(name.value))
    ensures name.Some? && Trim(LowerStr(name.value)) !in BlendNames ==> r == DefaultBlend
  {
    match name
    case None => DefaultBlend
    case Some(s) =>
      var k := IndexOf(BlendNames, Trim(LowerStr(s)));
      if k < 0 then DefaultBlend else k
  }

  /** A name with no upper-case letter and nothing to trim at its ends is
      looked up as it is. */
  lemma {:induction false} CleanNameIsKept(s: string)
    requires forall i :: 0 <= i < |s| ==> 'a' <= s[i] <= 'z'
    ensures Trim(LowerStr(s)) == s
  {
    LowerClean(s);
    TrimClean(s);
  }

  lemma LowerClean(s: string)
    requires forall i :: 0 <= i < |s| ==> !IsUpper(s[i])
    ensures LowerStr(s) == s
  {
    var t := LowerStr(s);
    forall i | 0 <= i < |s|
      ensures t[i] == s[i]
    {
      assert !IsUpper(s[i]);
    }
  }

  lemma {:induction false} TrimClean(s: string)
    requires forall i :: 0 <= i < |s| ==> s[i] > ' '
    ensures Trim(s) == s
  {
    assert |s| == 0 || s[0] > ' ';
    assert TrimStart(s) == s;
    assert |s| == 0 || s[|s| - 1] > ' ';
    TrimEndClean(s);
  }

  lemma {:induction false} TrimEndClean(s: string)
    requires |s| == 0 || s[|s| - 1] > ' '
    ensures TrimEnd(s) == s
  {
  }

  /** The mode names are pairwise different and lower-case letters only. */
  lemma BlendNamesClean()
    ensures forall i, j :: 0 <= i < j < |BlendNames| ==> BlendNames[i] != BlendNames[j]
    ensures forall i, k :: 0 <= i < |BlendNames| && 0 <= k < |BlendNames[i]| ==> 'a' <= BlendNames[i][k] <= 'z'
  {
  }

  /** Every mode's own name parses back to its number. */
  lemma {:induction false} BlendNamesRoundTrip(i: int)
    requires 0 <= i < |BlendNames|
    ensures ParseBlend(Some(BlendNames[i])) == i
  {
    BlendNamesClean();
    CleanNameIsKept(BlendNames[i]);
  }
}

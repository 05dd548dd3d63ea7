/** The zoom module: holding the zoom key divides the field of view by a
    divisor, eases the view towards it tick by tick, lowers the mouse
    sensitivity by the same divisor, can turn on the smooth camera, and lets
    the wheel or two keys change the divisor while zoomed; releasing the key
    restores the options it changed. */
module Zoom {
  import opened Base
  import opened Util

  /** The module's options; the divisor option admits 1 to 16 and the speed
      option 1 to 10. */
  datatype Config = Config(
    zoomDivisor: real,
    zoomSpeed: real,
    zoomScrolling: bool,
    decreaseSensitivity: bool,
    smoothCamera: bool)

  predicate ValidConfig(c: Config) {
    1.0 <= c.zoomDivisor <= 16.0 && 1.0 <= c.zoomSpeed <= 10.0
  }

  /** The game options the module changes. */
  datatype Options = Options(sensitivity: real, smoothCamera: bool)

  /** The module's memory: whether zoomed, the options saved when zooming
      started (and whether the smooth camera was saved at all), the target
      and animated zoom factors, the divisor, and the field of view it last
      returned. */
  datatype State = State(
    active: bool,
    originalSensitivity: real,
    originalSmoothCamera: bool,
    smoothCameraSaved: bool,
    targetFactor: real,
    divisor: real,
    lastAnimatedFactor: real,
    animatedFactor: real,
    lastReturnedFov: real)

  function Initial(): State {
    State(false, 0.0, false, false, 1.0, 0.0, 1.0, 1.0, 0.0)
  }

  /** The invariant the module keeps: while zoomed the divisor is at least 1
      and the target is its inverse; when not zoomed the target is 1. */
  ghost predicate Valid(s: State) {
    (s.active ==> s.divisor >= 1.0 && s.targetFactor * s.divisor == 1.0)
    && (!s.active ==> s.targetFactor == 1.0)
  }

  /** `setDivisor`: the target factor is the inverse of the divisor. */
  function SetDivisor(s: State, v: real): (r: State)
    requires v >= 1.0
    ensures r.divisor == v && r.targetFactor * v == 1.0
    ensures r.(divisor := s.divisor, targetFactor := s.targetFactor) == s
  {
    s.(divisor := v, targetFactor := 1.0 / v)
  }

  /** `updateSensitivity`: when asked to, the sensitivity is the saved one
      divided by the divisor. */
  function UpdateSensitivity(s: State, o: Options, c: Config): (r: Options)
    requires s.divisor >= 1.0
    ensures c.decreaseSensitivity ==> r.sensitivity * s.divisor == s.originalSensitivity
    ensures !c.decreaseSensitivity ==> r == o
    ensures r.smoothCamera == o.smoothCamera
  {
    if c.decreaseSensitivity then o.(sensitivity := s.originalSensitivity / s.divisor) else o
  }

  /** `setOptions`: save the sensitivity; when the smooth-camera option is on,
      save the smooth camera and turn it on; then lower the sensitivity. */
  function SetOptions(s: State, o: Options, c: Config): (r: (State, Options))
    requires s.divisor >= 1.0
    ensures r.0.originalSensitivity == o.sensitivity
    ensures c.smoothCamera ==> r.0.originalSmoothCamera == o.smoothCamera && r.0.smoothCameraSaved && r.1.smoothCamera
    ensures !c.smoothCamera ==> r.0 == s.(originalSensitivity := o.sensitivity) && r.1.smoothCamera == o.smoothCamera
  {
    var s1 := s.(originalSensitivity := o.sensitivity);
    var (s2, o2) := if c.smoothCamera
      then (s1.(originalSmoothCamera := o.smoothCamera, smoothCameraSaved := true), o.(smoothCamera := true))
      else (s1, o);
    (s2, UpdateSensitivity(s2, o2, c))
  }

  /** `start`: zoom in by the configured divisor and change the options. */
  function Start(s: State, o: Options, c: Config): (r: (State, Options))
    requires ValidConfig(c)
    ensures r.0.active && r.0.divisor == c.zoomDivisor && Valid(r.0)
    ensures r.0.originalSensitivity == o.sensitivity
  {
    SetOptions(SetDivisor(s.(active := true), c.zoomDivisor), o, c)
  }

  // ---------------------------------------------------------------------------
  // Stopping, as written and corrected
  // ---------------------------------------------------------------------------

  /** `restoreOptions` as written: the sensitivity and the smooth camera get
      their saved values, the smooth camera even when it was never saved. */
  function RestoreOptionsAsWritten(s: State, o: Options): (r: Options)
    ensures r == Options(s.originalSensitivity, s.originalSmoothCamera)
  {
    o.(sensitivity := s.originalSensitivity, smoothCamera := s.originalSmoothCamera)
  }

  /** `stop` as written: zoom out, the target back to 1, the options restored. */
  function StopAsWritten(s: State, o: Options): (r: (State, Options))
    ensures !r.0.active && r.0.targetFactor == 1.0
    ensures r.1 == RestoreOptionsAsWritten(s, o)
  {
    (s.(active := false, targetFactor := 1.0), RestoreOptionsAsWritten(s, o))
  }

  /** `update` as written: start on a held key when not zoomed, stop on a
      released key when zoomed, nothing otherwise. */
  function UpdateAsWritten(s: State, o: Options, c: Config, held: bool): (r: (State, Options))
    requires ValidConfig(c)
    ensures held && !s.active ==> r == Start(s, o, c)
    ensures !held && s.active ==> r == StopAsWritten(s, o)
    ensures held == s.active ==> r == (s, o)
  {
    if held && !s.active then Start(s, o, c)
    else if !held && s.active then StopAsWritten(s, o)
    else (s, o)
  }

  /** With the smooth-camera option off, zooming in and out once turns off a
      smooth camera the player had on: it is "restored" to a value that was
      never saved. */
  lemma ZoomTurnsOffSmoothCamera(c: Config, sensitivity: real)
    requires ValidConfig(c) && !c.smoothCamera
    ensures var o := Options(sensitivity, true);
      var (s1, o1) := UpdateAsWritten(Initial(), o, c, true);
      var (_, o2) := UpdateAsWritten(s1, o1, c, false);
      o1.smoothCamera && !o2.smoothCamera
  {
  }

  /** `restoreOptions` as intended: the smooth camera is put back only when
      it was saved, and then forgotten. */
  function RestoreOptions(s: State, o: Options): (r: (State, Options))
    ensures r.1.sensitivity == s.originalSensitivity
    ensures r.1.smoothCamera == if s.smoothCameraSaved then s.originalSmoothCamera else o.smoothCamera
    ensures !r.0.smoothCameraSaved
  {
    (s.(smoothCameraSaved := false),
     o.(sensitivity := s.originalSensitivity,
        smoothCamera := if s.smoothCameraSaved then s.originalSmoothCamera else o.smoothCamera))
  }

  /** `stop` with the intended restore. */
  function Stop(s: State, o: Options): (r: (State, Options))
    ensures !r.0.active && r.0.targetFactor == 1.0 && !r.0.smoothCameraSaved
    ensures r.1 == RestoreOptions(s, o).1
  {
    var (s1, o1) := RestoreOptions(s, o);
    (s1.(active := false, targetFactor := 1.0), o1)
  }

  /** `update` with the intended restore. */
  function Update(s: State, o: Options, c: Config, held: bool): (r: (State, Options))
    requires ValidConfig(c)
    ensures held && !s.active ==> r == Start(s, o, c)
    ensures !held && s.active ==> r == Stop(s, o)
    ensures held == s.active ==> r == (s, o)
  {
    if held && !s.active then Start(s, o, c)
    else if !held && s.active then Stop(s, o)
    else (s, o)
  }

  // ---------------------------------------------------------------------------
  // Scrolling
  // ---------------------------------------------------------------------------

  /** `scroll`: while zoomed with scrolling on, a non-zero amount moves the
      divisor one step in its direction, never below 1, and the sensitivity
      follows; otherwise nothing happens and the scroll is not consumed. */
  function Scroll(s: State, o: Options, c: Config, amount: real): (r: (State, Options, bool))
    requires Valid(s)
    ensures r.2 <==> s.active && c.zoomScrolling && amount != 0.0
    ensures !r.2 ==> r.0 == s && r.1 == o
    ensures r.2 ==> r.0.divisor == MaxReal(1.0, s.divisor + (if amount > 0.0 then 1.0 else -1.0))
    ensures r.2 ==> r.1 == UpdateSensitivity(r.0, o, c)
    ensures Valid(r.0)
    ensures r.0.(divisor := s.divisor, targetFactor := s.targetFactor) == s
  {
    if s.active && c.zoomScrolling && amount != 0.0 then
      var sign := if amount > 0.0 then 1.0 else -1.0;
      var s1 := SetDivisor(s, MaxReal(1.0, s.divisor + sign));
      (s1, UpdateSensitivity(s1, o, c), true)
    else (s, o, false)
  }

  function MaxReal(a: real, b: real): real {
    if a >= b then a else b
  }

  /** Scrolling in by one and back out by one (or out and in, away from 1)
      gives the divisor it started with. */
  lemma ScrollInOut(s: State, o: Options, c: Config)
    requires Valid(s) && s.active && c.zoomScrolling && s.divisor >= 2.0
    ensures var (s1, o1, _) := Scroll(s, o, c, 1.0); Scroll(s1, o1, c, -1.0).0.divisor == s.divisor
    ensures var (s1, o1, _) := Scroll(s, o, c, -1.0); Scroll(s1, o1, c, 1.0).0.divisor == s.divisor
  {
  }

  /** A run of scrolls. */
  function ScrollAll(s: State, o: Options, c: Config, amounts: seq<real>): (r: (State, Options))
    requires Valid(s)
    ensures Valid(r.0)
    decreases |amounts|
  {
    if |amounts| == 0 then (s, o)
    else
      var (s1, o1, _) := Scroll(s, o, c, amounts[0]);
      ScrollAll(s1, o1, c, amounts[1..])
  }

  /** Scrolling keeps what was saved and whether zoom is on. */
  lemma {:induction false} ScrollAllKeepsSaved(s: State, o: Options, c: Config, amounts: seq<real>)
    requires Valid(s)
    ensures var r := ScrollAll(s, o, c, amounts).0;
      r.active == s.active && r.originalSensitivity == s.originalSensitivity
      && r.originalSmoothCamera == s.originalSmoothCamera && r.smoothCameraSaved == s.smoothCameraSaved
    ensures ScrollAll(s, o, c, amounts).1.smoothCamera == o.smoothCamera
    decreases |amounts|
  {
    if |amounts| > 0 {
      var (s1, o1, _) := Scroll(s, o, c, amounts[0]);
      ScrollAllKeepsSaved(s1, o1, c, amounts[1..]);
    }
  }

  /** With the intended restore, zooming in, scrolling any number of times
      and zooming out gives back exactly the options the player had. */
  lemma {:induction false} ZoomRestoresOptions(s: State, o: Options, c: Config, amounts: seq<real>)
    requires ValidConfig(c) && Valid(s) && !s.active && !s.smoothCameraSaved
    ensures var (s1, o1) := Update(s, o, c, true);
      var (s2, o2) := ScrollAll(s1, o1, c, amounts);
      var (s3, o3) := Update(s2, o2, c, false);
      o3 == o && !s3.active && s3.targetFactor == 1.0
  {
    var (s1, o1) := Update(s, o, c, true);
    assert s1.active && s1.originalSensitivity == o.sensitivity;
    assert s1.smoothCameraSaved == c.smoothCamera;
    assert s1.smoothCameraSaved ==> s1.originalSmoothCamera == o.smoothCamera;
    assert !s1.smoothCameraSaved ==> o1.smoothCamera == o.smoothCamera;
    ScrollAllKeepsSaved(s1, o1, c, amounts);
    var (s2, o2) := ScrollAll(s1, o1, c, amounts);
    var (s3, o3) := Update(s2, o2, c, false);
    assert (s3, o3) == Stop(s2, o2);
    assert o3.sensitivity == o.sensitivity;
    assert o3.smoothCamera == o.smoothCamera;
  }

  // ---------------------------------------------------------------------------
  // Animation and field of view
  // ---------------------------------------------------------------------------

  /** `tick`: the animated factor moves towards the target by a tenth of the
      speed of the remaining distance; then the increase key scrolls in by
      half the speed, or else the decrease key scrolls out. */
  function Tick(s: State, o: Options, c: Config, increase: bool, decrease: bool): (r: (State, Options))
    requires Valid(s) && ValidConfig(c)
    ensures r.0.lastAnimatedFactor == s.animatedFactor
    ensures r.0.animatedFactor - s.targetFactor == (s.animatedFactor - s.targetFactor) * (1.0 - c.zoomSpeed / 10.0)
    ensures Valid(r.0)
  {
    var s1 := s.(lastAnimatedFactor := s.animatedFactor,
                 animatedFactor := s.animatedFactor + (s.targetFactor - s.animatedFactor) * (c.zoomSpeed / 10.0));
    if increase then
      var (s2, o2, _) := Scroll(s1, o, c, c.zoomSpeed / 2.0);
      (s2, o2)
    else if decrease then
      var (s2, o2, _) := Scroll(s1, o, c, -c.zoomSpeed / 2.0);
      (s2, o2)
    else (s1, o)
  }

  /** Each tick the animated factor comes closer to the target and does not
      pass it; at full speed it reaches it at once. */
  lemma {:induction false} TickApproachesTarget(s: State, o: Options, c: Config, increase: bool, decrease: bool)
    requires Valid(s) && ValidConfig(c)
    ensures var a := Tick(s, o, c, increase, decrease).0.animatedFactor;
      && (s.animatedFactor <= s.targetFactor ==> s.animatedFactor <= a <= s.targetFactor)
      && (s.targetFactor <= s.animatedFactor ==> s.targetFactor <= a <= s.animatedFactor)
      && (c.zoomSpeed == 10.0 ==> a == s.targetFactor)
  {
    var k := 1.0 - c.zoomSpeed / 10.0;
    assert 0.0 <= k < 1.0;
    var d := s.animatedFactor - s.targetFactor;
    var a := Tick(s, o, c, increase, decrease).0.animatedFactor;
    assert a - s.targetFactor == d * k;
    if d >= 0.0 {
      assert 0.0 <= d * k <= d;
    } else {
      assert d <= d * k <= 0.0;
    }
  }

  /** `getFov`: the current field of view times the target factor at full
      speed, or the animated factor interpolated over the partial tick;
      the view is marked changed when a previous value differs. */
  function GetFov(s: State, c: Config, current: real, tickDelta: real): (r: (real, State, bool))
    ensures c.zoomSpeed == 10.0 ==> r.0 == current * s.targetFactor
    ensures c.zoomSpeed != 10.0 ==> r.0 == current * Lerp(s.lastAnimatedFactor, s.animatedFactor, tickDelta)
    ensures r.1 == s.(lastReturnedFov := r.0)
    ensures r.2 <==> s.lastReturnedFov != 0.0 && s.lastReturnedFov != r.0
  {
    var factor := if c.zoomSpeed == 10.0 then s.targetFactor else Lerp(s.lastAnimatedFactor, s.animatedFactor, tickDelta);
    var result := current * factor;
    (result, s.(lastReturnedFov := result), s.lastReturnedFov != 0.0 && s.lastReturnedFov != result)
  }

  /** Out of zoom and settled, the field of view is the game's own. */
  lemma SettledFovUnchanged(s: State, c: Config, current: real, tickDelta: real)
    requires Valid(s) && !s.active && s.lastAnimatedFactor == 1.0 && s.animatedFactor == 1.0
    ensures GetFov(s, c, current, tickDelta).0 == current
  {
  }
}

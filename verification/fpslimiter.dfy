/** The unfocused-FPS limiter: on every frame it reads the window's focus,
    visibility and hover state, adjusts the game's volume when focus or
    visibility changes, and decides whether to render, rendering one last
    frame before throttling and then at most the configured rate. */
module FpsLimiter {
  import opened Base

  /** The module's options; the frame rate option only admits 0 to 60 and the
      volume options 0 to 1. */
  datatype Config = Config(
    enabled: bool,
    reduceWhenUnfocused: bool,
    unfocusedFps: int,
    restoreOnHover: bool,
    unfocusedVolume: real,
    hiddenVolume: real,
    runGcOnUnfocus: bool)

  predicate ValidConfig(c: Config) {
    0 <= c.unfocusedFps <= 60 && 0.0 <= c.unfocusedVolume <= 1.0 && 0.0 <= c.hiddenVolume <= 1.0
  }

  /** What the window reports this frame, whether the game pauses when it
      loses focus, whether a screen is open, and the clock in milliseconds. */
  datatype Input = Input(focused: bool, visible: bool, hovered: bool, pauseOnUnfocus: bool, screenOpen: bool, now: int)

  /** The limiter's memory between frames, and the volume multiplier it last
      set on the game's sound. */
  datatype State = State(
    wasFocused: bool,
    wasVisible: bool,
    renderedLastFrame: bool,
    lastRender: int,
    volume: real)

  /** The decision for one frame: render or not, the new state, how long the
      game is asked to idle, and whether a garbage collection was requested. */
  datatype Step = Step(render: bool, state: State, idle: int, gc: bool)

  function Initial(volume: real): State {
    State(true, true, false, 0, volume)
  }

  // ---------------------------------------------------------------------------
  // Override
  // ---------------------------------------------------------------------------

  /** `fpsOverride`: a hidden window gets 0; a hovered one, when hovering
      restores the rate, gets none; an unfocused one, when reducing, gets the
      configured rate; otherwise none. */
  function FpsOverride(c: Config, i: Input): (r: Option<int>)
    ensures !i.visible ==> r == Some(0)
    ensures i.visible && c.restoreOnHover && i.hovered ==> r.None?
    ensures r.Some? && r.value != 0 ==> r.value == c.unfocusedFps && c.reduceWhenUnfocused && !i.focused
    ensures r.None? <==> i.visible && ((c.restoreOnHover && i.hovered) || !(c.reduceWhenUnfocused && !i.focused))
  {
    if !i.visible then Some(0)
    else if c.restoreOnHover && i.hovered then None
    else if c.reduceWhenUnfocused && !i.focused then Some(c.unfocusedFps)
    else None
  }

  // ---------------------------------------------------------------------------
  // Focus and visibility
  // ---------------------------------------------------------------------------

  /** The game pauses itself, and so silences its sounds, this frame: it is
      unfocused, pausing on focus loss is on and no screen is open. */
  predicate ClientWillPause(i: Input) {
    !i.focused && i.pauseOnUnfocus && !i.screenOpen
  }

  /** `setVolumeMultiplier`: a multiplier of 0 would stop all sounds, music
      included, so it is skipped when the game pauses anyway; any other
      multiplier is set. */
  function SetVolume(volume: real, multiplier: real, i: Input): (r: real)
    ensures r == volume || r == multiplier
    ensures r == multiplier <==> multiplier == volume || !(multiplier == 0.0 && ClientWillPause(i))
  {
    if multiplier == 0.0 && ClientWillPause(i) then volume else multiplier
  }

  /** `checkForStateChanges`: the focus handler runs first, then the
      visibility handler, each only when its state differs from the last one
      seen. Gaining focus restores full volume; losing it, while visible,
      sets the unfocused volume and may ask for a garbage collection;
      appearing unfocused sets the unfocused volume; disappearing sets the
      hidden volume. A volume of 0 is not set while the game will pause. */
  function StateChanges(c: Config, s: State, i: Input): (r: (State, bool))
    ensures r.0.wasFocused == i.focused && r.0.wasVisible == i.visible
    ensures r.0.renderedLastFrame == s.renderedLastFrame && r.0.lastRender == s.lastRender
    ensures i.focused == s.wasFocused && i.visible == s.wasVisible ==> r == (s, false)
    ensures r.1 <==> i.focused != s.wasFocused && !i.focused && c.runGcOnUnfocus
    ensures i.visible != s.wasVisible && !i.visible && !(c.hiddenVolume == 0.0 && ClientWillPause(i)) ==>
      r.0.volume == c.hiddenVolume
    ensures !i.visible && c.hiddenVolume == 0.0 && ClientWillPause(i) ==> r.0.volume == s.volume
    ensures i.focused != s.wasFocused && !i.focused && i.visible && !(c.unfocusedVolume == 0.0 && ClientWillPause(i)) ==>
      r.0.volume == c.unfocusedVolume
    ensures i.focused != s.wasFocused && i.focused && (i.visible == s.wasVisible || i.visible) ==> r.0.volume == 1.0
    ensures i.visible != s.wasVisible && i.visible && !i.focused && !(c.unfocusedVolume == 0.0 && ClientWillPause(i)) ==>
      r.0.volume == c.unfocusedVolume
    ensures ClientWillPause(i) && r.0.volume != s.volume ==> r.0.volume != 0.0
  {
    var (afterFocus, gc) :=
      if i.focused == s.wasFocused then (s, false)
      else if i.focused then (s.(wasFocused := true, volume := SetVolume(s.volume, 1.0, i)), false)
      else (s.(wasFocused := false, volume := if i.visible then SetVolume(s.volume, c.unfocusedVolume, i) else s.volume), c.runGcOnUnfocus);
    var afterVisible :=
      if i.visible == afterFocus.wasVisible then afterFocus
      else if i.visible then afterFocus.(wasVisible := true, volume := if !i.focused then SetVolume(afterFocus.volume, c.unfocusedVolume, i) else afterFocus.volume)
      else afterFocus.(wasVisible := false, volume := SetVolume(afterFocus.volume, c.hiddenVolume, i));
    (afterVisible, gc)
  }

  /** The volume the handlers leave always is one the options allow, or full
      volume. */
  lemma VolumeStaysInRange(c: Config, s: State, i: Input)
    requires ValidConfig(c) && 0.0 <= s.volume <= 1.0
    ensures 0.0 <= StateChanges(c, s, i).0.volume <= 1.0
  {
  }

  // ---------------------------------------------------------------------------
  // Rendering
  // ---------------------------------------------------------------------------

  /** The private `checkForRender(timeSinceLastRender)`: with no override,
      render and forget the last frame; the first check under an override
      renders one last frame; an override of 0 then never renders and idles a
      second; otherwise render once a frame's time (Java's integer
      `1000 / fps`) has passed, and idle for a frame's time if not. Returns
      whether to render, the new last-frame flag and the idle time. */
  function Throttle(override: Option<int>, renderedLastFrame: bool, elapsed: int): (r: (bool, bool, int))
    requires override.Some? ==> override.value >= 0
    ensures override.None? ==> r == (true, false, 0)
    ensures override.Some? && !renderedLastFrame ==> r == (true, true, 0)
    ensures override == Some(0) && renderedLastFrame ==> r == (false, true, 1000)
    ensures override.Some? && override.value > 0 && renderedLastFrame ==>
      r.1 && (r.0 <==> elapsed >= JavaDiv(1000, override.value))
      && (r.0 ==> r.2 == 0) && (!r.0 ==> r.2 == JavaDiv(1000, override.value))
  {
    match override
    case None => (true, false, 0)
    case Some(fps) =>
      if !renderedLastFrame then (true, true, 0)
      else if fps == 0 then (false, true, 1000)
      else
        var frameTime := JavaDiv(1000, fps);
        if elapsed < frameTime then (false, true, frameTime) else (true, true, 0)
  }

  /** The public `checkForRender`, once per frame. When the module is off it
      always renders and touches nothing; otherwise the handlers run, the
      frame is decided, and the render time is remembered only for a frame
      that is rendered. */
  function CheckForRender(c: Config, s: State, i: Input): (r: Step)
    requires ValidConfig(c)
    ensures !c.enabled ==> r == Step(true, s, 0, false)
    ensures c.enabled && r.render ==> r.state.lastRender == i.now
    ensures !r.render ==> r.state.lastRender == s.lastRender
    ensures c.enabled ==> r.state.wasFocused == i.focused && r.state.wasVisible == i.visible
    ensures c.enabled && FpsOverride(c, i).None? ==> r.render && !r.state.renderedLastFrame
    ensures c.enabled && FpsOverride(c, i).Some? && !s.renderedLastFrame ==> r.render && r.state.renderedLastFrame
    ensures c.enabled && FpsOverride(c, i) == Some(0) && s.renderedLastFrame ==> !r.render && r.idle == 1000
    ensures c.enabled && FpsOverride(c, i).Some? && FpsOverride(c, i).value > 0 && s.renderedLastFrame ==>
      (r.render <==> i.now - s.lastRender >= JavaDiv(1000, FpsOverride(c, i).value))
  {
    if !c.enabled then Step(true, s, 0, false)
    else
      var (s1, gc) := StateChanges(c, s, i);
      var (render, last, idle) := Throttle(FpsOverride(c, i), s1.renderedLastFrame, i.now - s1.lastRender);
      var s2 := s1.(renderedLastFrame := last, lastRender := if render then i.now else s1.lastRender);
      Step(render, s2, idle, gc)
  }

  /** Frames over time: the render decisions and the final state. */
  function Run(c: Config, s: State, inputs: seq<Input>): (r: (seq<int>, State))
    requires ValidConfig(c)
    decreases |inputs|
  {
    if |inputs| == 0 then ([], s)
    else
      var step := CheckForRender(c, s, inputs[0]);
      var (rest, last) := Run(c, step.state, inputs[1..]);
      ((if step.render then [inputs[0].now] else []) + rest, last)
  }

  /** Under a steady positive rate, once the last frame before throttling has
      been drawn, rendered frames are at least a frame's time apart: the
      first one a frame's time after the last render, each next one a
      frame's time after the one before. */
  lemma {:induction false} RateIsRespected(c: Config, s: State, inputs: seq<Input>, fps: int)
    requires ValidConfig(c) && c.enabled && fps > 0 && s.renderedLastFrame
    requires forall k :: 0 <= k < |inputs| ==> FpsOverride(c, inputs[k]) == Some(fps)
    ensures var times := Run(c, s, inputs).0;
      && (|times| > 0 ==> times[0] - s.lastRender >= JavaDiv(1000, fps))
      && (forall k :: 0 <= k < |times| - 1 ==> times[k + 1] - times[k] >= JavaDiv(1000, fps))
    decreases |inputs|
  {
    if |inputs| > 0 {
      var step := CheckForRender(c, s, inputs[0]);
      RateIsRespected(c, step.state, inputs[1..], fps);
      var rest := Run(c, step.state, inputs[1..]).0;
      var times := Run(c, s, inputs).0;
      if step.render {
        assert times == [inputs[0].now] + rest;
        forall k | 0 <= k < |times| - 1
          ensures times[k + 1] - times[k] >= JavaDiv(1000, fps)
        {
          if k > 0 {
            assert times[k + 1] == rest[k] && times[k] == rest[k - 1];
          }
        }
      } else {
        assert times == rest;
      }
    }
  }

  /** A hidden window renders the one last frame and then nothing at all. */
  lemma {:induction false} HiddenStopsRendering(c: Config, s: State, inputs: seq<Input>)
    requires ValidConfig(c) && c.enabled && s.renderedLastFrame
    requires forall k :: 0 <= k < |inputs| ==> !inputs[k].visible
    ensures Run(c, s, inputs).0 == []
    decreases |inputs|
  {
    if |inputs| > 0 {
      var step := CheckForRender(c, s, inputs[0]);
      HiddenStopsRendering(c, step.state, inputs[1..]);
    }
  }
}

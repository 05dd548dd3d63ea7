/** The toggle-sprint HUD: two toggle keys, each flipping its toggle once per
    press (not once per tick it is held), and the text the HUD shows. */
module ToggleSprint {

  /** One toggle: whether the feature's toggle key is enabled, whether it is
      toggled on, and whether the key was seen held on the tick it last
      flipped. */
  datatype Toggle = Toggle(enabled: bool, toggled: bool, wasPressed: bool)

  datatype State = State(sprint: Toggle, sneak: Toggle)

  /** One half of `tick`: on a press edge with the option on, flip and
      remember the key is down; whenever the key is up, forget it. */
  function Edge(t: Toggle, down: bool): (r: Toggle)
    ensures r.enabled == t.enabled
    ensures r.toggled != t.toggled <==> down && !t.wasPressed && t.enabled
    ensures !down ==> !r.wasPressed
    ensures down && t.enabled ==> r.wasPressed
    ensures down && !t.enabled ==> r.wasPressed == t.wasPressed
  {
    if down != t.wasPressed && down && t.enabled then t.(toggled := !t.toggled, wasPressed := down)
    else if !down then t.(wasPressed := false)
    else t
  }

  /** `tick`: the sprint toggle, then the sneak toggle, each from its own key;
      a toggle flips exactly on a fresh press of its key with its option on,
      and neither key touches the other toggle. */
  function Tick(s: State, sprintDown: bool, sneakDown: bool): (r: State)
    ensures r.sprint.enabled == s.sprint.enabled && r.sneak.enabled == s.sneak.enabled
    ensures r.sprint.toggled != s.sprint.toggled <==> sprintDown && !s.sprint.wasPressed && s.sprint.enabled
    ensures r.sneak.toggled != s.sneak.toggled <==> sneakDown && !s.sneak.wasPressed && s.sneak.enabled
    ensures r.sprint.wasPressed == (sprintDown && (s.sprint.enabled || s.sprint.wasPressed))
    ensures r.sneak.wasPressed == (sneakDown && (s.sneak.enabled || s.sneak.wasPressed))
  {
    State(Edge(s.sprint, sprintDown), Edge(s.sneak, sneakDown))
  }

  /** A run of ticks for one toggle, given whether the key is down on each. */
  function Hold(t: Toggle, downs: seq<bool>): Toggle
    decreases |downs|
  {
    if |downs| == 0 then t else Hold(Edge(t, downs[0]), downs[1..])
  }

  /** Holding the key for any number of ticks flips the toggle at most once:
      on the first tick if it was up before, never after. */
  lemma {:induction false} HoldingTogglesOnce(t: Toggle, downs: seq<bool>)
    requires t.enabled && |downs| > 0
    requires forall k :: 0 <= k < |downs| ==> downs[k]
    ensures Hold(t, downs) == t.(toggled := if t.wasPressed then t.toggled else !t.toggled, wasPressed := true)
    decreases |downs|
  {
    var t1 := Edge(t, true);
    assert t1 == t.(toggled := if t.wasPressed then t.toggled else !t.toggled, wasPressed := true);
    assert Hold(t, downs) == Hold(t1, downs[1..]);
    HeldStays(t1, downs[1..]);
  }

  lemma {:induction false} HeldStays(t: Toggle, downs: seq<bool>)
    requires t.enabled && t.wasPressed
    requires forall k :: 0 <= k < |downs| ==> downs[k]
    ensures Hold(t, downs) == t
    decreases |downs|
  {
    if |downs| > 0 {
      assert Edge(t, true) == t;
      HeldStays(t, downs[1..]);
    }
  }

  /** A press and a release (any number of ticks each) flip the toggle exactly
      once, and leave the key forgotten, ready for the next press. */
  lemma PressReleaseTogglesOnce(t: Toggle, press: seq<bool>, release: seq<bool>)
    requires t.enabled && !t.wasPressed && |press| > 0 && |release| > 0
    requires forall k :: 0 <= k < |press| ==> press[k]
    requires forall k :: 0 <= k < |release| ==> !release[k]
    ensures Hold(t, press + release) == t.(toggled := !t.toggled)
  {
    var m := Hold(t, press);
    HoldingTogglesOnce(t, press);
    HoldConcat(t, press, release);
    Released(m, release);
    assert m.(wasPressed := false) == t.(toggled := !t.toggled);
  }

  lemma {:induction false} Released(t: Toggle, downs: seq<bool>)
    requires |downs| > 0
    requires forall k :: 0 <= k < |downs| ==> !downs[k]
    ensures Hold(t, downs) == t.(wasPressed := false)
    decreases |downs|
  {
    if |downs| > 1 {
      Released(Edge(t, false), downs[1..]);
    }
  }

  lemma {:induction false} HoldConcat(t: Toggle, a: seq<bool>, b: seq<bool>)
    ensures Hold(t, a + b) == Hold(Hold(t, a), b)
    decreases |a|
  {
    if |a| > 0 {
      assert (a + b)[1..] == a[1..] + b;
      HoldConcat(Edge(t, a[0]), a[1..], b);
    } else {
      assert a + b == b;
    }
  }

  // ---------------------------------------------------------------------------
  // Display
  // ---------------------------------------------------------------------------

  datatype Shown = SneakPressed | SprintPressed | SneakToggled | SprintToggled | Placeholder

  /** `getValue`: a held sneak key, then a held sprint key, then the sneak
      toggle (when its key is enabled), then the sprint toggle, then the
      placeholder text. */
  function Value(s: State, sneakDown: bool, sprintDown: bool): (v: Shown)
    ensures v == SneakPressed <==> sneakDown
    ensures v == SprintPressed <==> !sneakDown && sprintDown
    ensures v == SneakToggled <==> !sneakDown && !sprintDown && s.sneak.enabled && s.sneak.toggled
    ensures v == SprintToggled <==>
      !sneakDown && !sprintDown && !(s.sneak.enabled && s.sneak.toggled) && s.sprint.enabled && s.sprint.toggled
  {
    if sneakDown then SneakPressed
    else if sprintDown then SprintPressed
    else if s.sneak.enabled && s.sneak.toggled then SneakToggled
    else if s.sprint.enabled && s.sprint.toggled then SprintToggled
    else Placeholder
  }

  /** Toggling sprint on with nothing else going on shows the sprint toggle. */
  lemma SprintPressShows(s: State)
    requires s.sprint.enabled && !s.sprint.wasPressed && !s.sprint.toggled
    requires !(s.sneak.enabled && s.sneak.toggled) && !s.sneak.wasPressed
    ensures Value(Tick(s, true, false), false, false) == SprintToggled
  {
  }
}

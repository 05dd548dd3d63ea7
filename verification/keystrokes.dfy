/** The keystroke display's configuration: which label a key shows, the two
    kinds of stroke (one with a text label, one drawn by a special renderer),
    moving a stroke, the label setters, and saving strokes to JSON objects and
    reading them back. */
module Keystrokes {
  import opened Base

  /** A key binding as the strokes see it: the option's own name (such as
      "key.jump"), the translation key of the physical key bound to it (such as
      "key.mouse.left"), and that key's display name. */
  datatype KeyBind = KeyBind(translationKey: string, keyTranslationKey: string, keyName: string)

  datatype Rect = Rect(x: int, y: int, width: int, height: int)

  datatype Pos = Pos(x: int, y: int)

  /** The special renderers; the space bar is the only one. */
  datatype Special = Space

  /** A stroke: its bounds relative to the HUD's position, its key (`null` in
      the source is `None`), and either a label with its synchronise flag, or
      the special renderer it draws with. */
  datatype Stroke =
    | Label(bounds: Rect, key: Option<KeyBind>, text: Option<string>, sync: bool)
    | Custom(special: Special, bounds: Rect, key: Option<KeyBind>)

  /** The translation keys the game gives the first three mouse buttons. */
  datatype MouseKeys = MouseKeys(left: string, right: string, middle: string)

  // ---------------------------------------------------------------------------
  // Labels
  // ---------------------------------------------------------------------------

  /** `getMouseKeyBindName`: the three mouse buttons, compared ignoring case;
      left wins over right, which wins over middle. */
  function MouseKeyBindName(k: KeyBind, mouse: MouseKeys): (r: Option<string>)
    ensures var t := k.keyTranslationKey;
      && (r == Some("LMB") <==> EqualsIgnoreCase(t, mouse.left))
      && (r == Some("RMB") <==> !EqualsIgnoreCase(t, mouse.left) && EqualsIgnoreCase(t, mouse.right))
      && (r == Some("MMB") <==>
            !EqualsIgnoreCase(t, mouse.left) && !EqualsIgnoreCase(t, mouse.right) && EqualsIgnoreCase(t, mouse.middle))
      && (r.None? <==>
            !EqualsIgnoreCase(t, mouse.left) && !EqualsIgnoreCase(t, mouse.right) && !EqualsIgnoreCase(t, mouse.middle))
  {
    var t := k.keyTranslationKey;
    if EqualsIgnoreCase(t, mouse.left) then Some("LMB")
    else if EqualsIgnoreCase(t, mouse.right) then Some("RMB")
    else if EqualsIgnoreCase(t, mouse.middle) then Some("MMB")
    else None
  }

  /** The label a key gets (`createFromKey`, and the two setters below): the
      mouse button's short name, or else the key's name in upper case; a name
      longer than four characters is cut to its first two. */
  function DerivedLabel(k: KeyBind, mouse: MouseKeys): (name: string)
    ensures |name| <= 4
    ensures MouseKeyBindName(k, mouse).Some? ==> name == MouseKeyBindName(k, mouse).value
    ensures MouseKeyBindName(k, mouse).None? && |k.keyName| <= 4 ==> name == UpperStr(k.keyName)
    ensures MouseKeyBindName(k, mouse).None? && |k.keyName| > 4 ==> name == UpperStr(k.keyName)[..2]
  {
    var n := match MouseKeyBindName(k, mouse) case Some(m) => m case None => UpperStr(k.keyName);
    if |n| > 4 then n[..2] else n
  }

  /** `createFromKey`: a labelled stroke that follows its key. */
  function CreateFromKey(bounds: Rect, k: KeyBind, mouse: MouseKeys): (s: Stroke)
    ensures s.Label? && s.bounds == bounds && s.key == Some(k) && s.sync
    ensures s.text == Some(DerivedLabel(k, mouse))
  {
    Label(bounds, Some(k), Some(DerivedLabel(k, mouse)), true)
  }

  /** `newStroke`: a blank 17 by 17 stroke at the HUD's origin. */
  function NewStroke(): (s: Stroke)
    ensures s.Label? && s.bounds == Rect(0, 0, 17, 17)
    ensures s.key.None? && s.text == Some("") && !s.sync
  {
    Label(Rect(0, 0, 17, 17), None, Some(""), false)
  }

  /** `setSynchronizeLabel`: switching it on re-derives the label from the
      key, which fails when the stroke has none; switching it off keeps the
      label. A special stroke has no such setter. */
  function SetSynchronizeLabel(s: Stroke, on: bool, mouse: MouseKeys): (r: Result<Stroke, string>)
    requires s.Label?
    ensures !on ==> r == Ok(s.(sync := false))
    ensures on && s.key.None? ==> r.Err?
    ensures on && s.key.Some? ==> r == Ok(s.(text := Some(DerivedLabel(s.key.value, mouse)), sync := true))
  {
    if on then
      if s.key.None? then Err("NullPointerException")
      else Ok(s.(text := Some(DerivedLabel(s.key.value, mouse)), sync := true))
    else Ok(s.(sync := false))
  }

  /** `setKey`: a labelled stroke that follows its key re-derives the label
      from the new key (failing on `null`); a special stroke, or a label not
      following its key, only takes the key. */
  function SetKey(s: Stroke, k: Option<KeyBind>, mouse: MouseKeys): (r: Result<Stroke, string>)
    ensures (s.Custom? || !s.sync) ==> r == Ok(s.(key := k))
    ensures s.Label? && s.sync && k.None? ==> r.Err?
    ensures s.Label? && s.sync && k.Some? ==> r == Ok(s.(key := k, text := Some(DerivedLabel(k.value, mouse))))
  {
    if s.Label? && s.sync then
      if k.None? then Err("NullPointerException")
      else Ok(s.(key := k, text := Some(DerivedLabel(k.value, mouse))))
    else Ok(s.(key := k))
  }

  /** `setLabel`: a labelled stroke takes the text; a special stroke ignores it. */
  function SetLabel(s: Stroke, t: string): (r: Stroke)
    ensures r.bounds == s.bounds && r.key == s.key
    ensures s.Label? ==> r.Label? && r.text == Some(t) && r.sync == s.sync
    ensures s.Custom? ==> r == s
  {
    if s.Label? then s.(text := Some(t)) else s
  }

  /** Turning synchronisation on and then re-binding the key gives the label of
      the new key: the label always follows the current key. */
  lemma SyncFollowsKey(s: Stroke, k: KeyBind, mouse: MouseKeys)
    requires s.Label? && s.key.Some?
    ensures var a := SetSynchronizeLabel(s, true, mouse);
      a.Ok? && SetKey(a.value, Some(k), mouse).Ok?
      && SetKey(a.value, Some(k), mouse).value.text == Some(DerivedLabel(k, mouse))
  {
  }

  /** A manual label survives re-binding once synchronisation is off. */
  lemma ManualLabelSticks(s: Stroke, t: string, k: Option<KeyBind>, mouse: MouseKeys)
    requires s.Label?
    ensures var a := SetSynchronizeLabel(SetLabel(s, t), false, mouse);
      a.Ok? && SetKey(a.value, k, mouse).Ok? && SetKey(a.value, k, mouse).value.text == Some(t)
  {
  }

  // ---------------------------------------------------------------------------
  // Position
  // ---------------------------------------------------------------------------

  /** `setX`: the bounds are kept relative to the HUD's position. */
  function SetX(s: Stroke, offset: Pos, x: int): (r: Stroke)
    ensures r.bounds.x + offset.x == x
    ensures r.bounds.(x := s.bounds.x) == s.bounds
    ensures r.(bounds := s.bounds) == s
  {
    s.(bounds := s.bounds.(x := x - offset.x))
  }

  function SetY(s: Stroke, offset: Pos, y: int): (r: Stroke)
    ensures r.bounds.y + offset.y == y
    ensures r.bounds.(y := s.bounds.y) == s.bounds
    ensures r.(bounds := s.bounds) == s
  {
    s.(bounds := s.bounds.(y := y - offset.y))
  }

  /** `getRenderPosition`: the bounds moved by the HUD's position. Moving a
      stroke to where it is drawn leaves it as it is. */
  function RenderPosition(s: Stroke, offset: Pos): (r: Rect)
    ensures r.width == s.bounds.width && r.height == s.bounds.height
    ensures SetX(s, offset, r.x) == s && SetY(s, offset, r.y) == s
  {
    Rect(s.bounds.x + offset.x, s.bounds.y + offset.y, s.bounds.width, s.bounds.height)
  }

  /** A stroke moved to `(x, y)` is drawn at `(x, y)`, with its size unchanged,
      wherever the HUD is. */
  lemma MovedStrokeRendersThere(s: Stroke, offset: Pos, x: int, y: int)
    ensures RenderPosition(SetY(SetX(s, offset, x), offset, y), offset) == Rect(x, y, s.bounds.width, s.bounds.height)
  {
  }

  // ---------------------------------------------------------------------------
  // Default layout
  // ---------------------------------------------------------------------------

  /** The space bar's own rectangle. */
  function SpecialRect(sp: Special): Rect {
    match sp case Space => Rect(0, 54, 53, 7)
  }

  /** `setDefaultKeystrokes`: attack and use side by side at the bottom,
      forward above the left/back/right row, and the space bar below. */
  function DefaultStrokes(attack: KeyBind, use: KeyBind, forward: KeyBind, left: KeyBind,
                          back: KeyBind, right: KeyBind, jump: KeyBind, mouse: MouseKeys): seq<Stroke> {
    [ CreateFromKey(Rect(0, 36, 26, 17), attack, mouse),
      CreateFromKey(Rect(27, 36, 26, 17), use, mouse),
      CreateFromKey(Rect(18, 0, 17, 17), forward, mouse),
      CreateFromKey(Rect(0, 18, 17, 17), left, mouse),
      CreateFromKey(Rect(18, 18, 17, 17), back, mouse),
      CreateFromKey(Rect(36, 18, 17, 17), right, mouse),
      Custom(Space, SpecialRect(Space), Some(jump)) ]
  }

  predicate Disjoint(a: Rect, b: Rect) {
    a.x + a.width <= b.x || b.x + b.width <= a.x || a.y + a.height <= b.y || b.y + b.height <= a.y
  }

  predicate Inside(a: Rect, width: int, height: int) {
    0 <= a.x && 0 <= a.y && a.x + a.width <= width && a.y + a.height <= height
  }

  /** The default strokes' rectangles, in order. */
  const DefaultRects: seq<Rect> := [Rect(0, 36, 26, 17), Rect(27, 36, 26, 17), Rect(18, 0, 17, 17), Rect(0, 18, 17, 17),
                                    Rect(18, 18, 17, 17), Rect(36, 18, 17, 17), Rect(0, 54, 53, 7)]

  /** The default strokes do not overlap and fit the HUD's 53 by 61 box. */
  lemma DefaultLayoutFits(attack: KeyBind, use: KeyBind, forward: KeyBind, left: KeyBind,
                          back: KeyBind, right: KeyBind, jump: KeyBind, mouse: MouseKeys)
    ensures var d := DefaultStrokes(attack, use, forward, left, back, right, jump, mouse);
      && |d| == 7
      && (forall i :: 0 <= i < |d| ==> Inside(d[i].bounds, 53, 61))
      && (forall i, j :: 0 <= i < j < |d| ==> Disjoint(d[i].bounds, d[j].bounds))
  {
    DefaultBounds(attack, use, forward, left, back, right, jump, mouse);
    DefaultRectsFit();
  }

  lemma DefaultBounds(attack: KeyBind, use: KeyBind, forward: KeyBind, left: KeyBind,
                      back: KeyBind, right: KeyBind, jump: KeyBind, mouse: MouseKeys)
    ensures var d := DefaultStrokes(attack, use, forward, left, back, right, jump, mouse);
      |d| == 7 && forall i :: 0 <= i < |d| ==> d[i].bounds == DefaultRects[i]
  {
  }

  lemma DefaultRectsFit()
    ensures forall i :: 0 <= i < |DefaultRects| ==> Inside(DefaultRects[i], 53, 61)
    ensures forall i, j :: 0 <= i < j < |DefaultRects| ==> Disjoint(DefaultRects[i], DefaultRects[j])
  {
  }

  // ---------------------------------------------------------------------------
  // JSON
  // ---------------------------------------------------------------------------

  /** The JSON values the configuration uses; numbers are read back as Java
      `long`s. */
  datatype Json = JNum(n: int) | JStr(s: string) | JBool(b: bool) | JObj(fields: map<string, Json>)

  type Obj = map<string, Json>

  function BoundsJson(r: Rect): Obj {
    map["x" := JNum(r.x), "y" := JNum(r.y), "width" := JNum(r.width), "height" := JNum(r.height)]
  }

  /** `Keystroke.serialize` and its overrides. Every kind writes the bound
      key's translation key and the bounds, so a stroke without a key fails;
      a labelled stroke adds "custom", the option's name, the label (left out
      when `null`) and the synchronise flag; a special one adds "option", the
      option's name and the renderer's name. */
  function Serialize(s: Stroke): (r: Result<Obj, string>)
    ensures r.Err? <==> s.key.None?
    ensures r.Ok? ==> "bounds" in r.value && r.value["bounds"] == JObj(BoundsJson(s.bounds))
    ensures r.Ok? && s.Label? ==> "type" in r.value && r.value["type"] == JStr("custom")
    ensures r.Ok? && s.Custom? ==> "type" in r.value && r.value["type"] == JStr("option") && "editable_label" !in r.value
  {
    match s.key
    case None => Err("NullPointerException")
    case Some(k) =>
      var base := map["key" := JStr(k.keyTranslationKey), "bounds" := JObj(BoundsJson(s.bounds))];
      match s
      case Label(_, _, text, sync) =>
        var m := base + map["type" := JStr("custom"), "key_name" := JStr(k.translationKey),
                             "synchronize_label" := JBool(sync)];
        Ok(if text.Some? then m["label" := JStr(text.value)] else m)
      case Custom(sp, _, _) =>
        Ok(base + map["type" := JStr("option"), "option" := JStr(k.translationKey),
                      "special_name" := JStr(SpecialName(sp))])
  }

  function SpecialName(sp: Special): string {
    match sp case Space => "SPACE"
  }

  /** `SpecialKeystroke.valueOf`: `null` and unknown names throw. */
  function SpecialOf(name: Option<string>): (r: Result<Special, string>)
    ensures r.Ok? <==> name == Some(SpecialName(Space))
    ensures r.Ok? ==> Some(SpecialName(r.value)) == name
  {
    if name == Some("SPACE") then Ok(Space)
    else if name.None? then Err("NullPointerException")
    else Err("IllegalArgumentException")
  }

  /** A `(String)` cast of a map entry: a missing entry is `null`. */
  function GetString(o: Obj, k: string): (r: Result<Option<string>, string>)
    ensures k !in o ==> r == Ok(None)
    ensures k in o && o[k].JStr? ==> r == Ok(Some(o[k].s))
    ensures k in o && !o[k].JStr? ==> r.Err?
  {
    if k !in o then Ok(None)
    else match o[k]
      case JStr(s) => Ok(Some(s))
      case _ => Err("ClassCastException")
  }

  /** An `(int) (long)` cast: unboxing a missing entry throws; the `long` is
      narrowed to 32 bits. */
  function GetInt(o: Obj, k: string): (r: Result<int, string>)
    ensures k in o && o[k].JNum? ==> r == Ok(ToInt32(o[k].n))
    ensures !(k in o && o[k].JNum?) ==> r.Err?
  {
    if k !in o then Err("NullPointerException")
    else match o[k]
      case JNum(n) => Ok(ToInt32(n))
      case _ => Err("ClassCastException")
  }

  /** A `(boolean)` cast: a missing entry throws. */
  function GetBool(o: Obj, k: string): (r: Result<bool, string>)
    ensures k in o && o[k].JBool? ==> r == Ok(o[k].b)
    ensures !(k in o && o[k].JBool?) ==> r.Err?
  {
    if k !in o then Err("NullPointerException")
    else match o[k]
      case JBool(b) => Ok(b)
      case _ => Err("ClassCastException")
  }

  /** `getRectangle`, on the entry that should hold the bounds. */
  function GetRectangle(o: Obj, k: string): (r: Result<Rect, string>)
    ensures r.Ok? ==> IsInt32(r.value.x) && IsInt32(r.value.y) && IsInt32(r.value.width) && IsInt32(r.value.height)
  {
    if k !in o then Err("NullPointerException")
    else match o[k]
      case JObj(b) =>
        (match (GetInt(b, "x"), GetInt(b, "y"), GetInt(b, "width"), GetInt(b, "height"))
         case (Ok(x), Ok(y), Ok(w), Ok(h)) => Ok(Rect(x, y, w, h))
         case _ => Err("malformed bounds"))
      case _ => Err("ClassCastException")
  }

  /** The registry's lookup by option name: a `null` or unknown name gives no key. */
  function FindKey(registry: map<string, KeyBind>, name: Option<string>): Option<KeyBind> {
    if name.Some? && name.value in registry then Some(registry[name.value]) else None
  }

  /** `deserializeKey`. Type "option" with an "editable_label" entry is a
      labelled stroke that follows its key; type "option" without it is a
      special stroke; any other type is a labelled stroke with its saved
      synchronise flag. */
  function Deserialize(o: Obj, registry: map<string, KeyBind>): (r: Result<Stroke, string>)
    ensures r.Ok? && r.value.Custom? ==> "type" in o && o["type"] == JStr("option") && "editable_label" !in o
    ensures r.Ok? && "type" in o && o["type"] == JStr("option") && "editable_label" in o ==> r.value.Label? && r.value.sync
  {
    if "type" in o && o["type"] == JStr("option") then
      match GetString(o, "option")
      case Err(e) => Err(e)
      case Ok(option) =>
        var key := FindKey(registry, option);
        if "editable_label" in o then
          match (GetString(o, "label"), GetRectangle(o, "bounds"))
          case (Ok(text), Ok(b)) => Ok(Label(b, key, text, true))
          case _ => Err("malformed stroke")
        else
          match (GetString(o, "special_name"), GetRectangle(o, "bounds"))
          case (Ok(name), Ok(b)) =>
            (match SpecialOf(name)
             case Ok(sp) => Ok(Custom(sp, b, key))
             case Err(e) => Err(e))
          case _ => Err("malformed stroke")
    else
      match GetString(o, "key_name")
      case Err(e) => Err(e)
      case Ok(keyName) =>
        var key := FindKey(registry, keyName);
        match (GetString(o, "label"), GetRectangle(o, "bounds"), GetBool(o, "synchronize_label"))
        case (Ok(text), Ok(b), Ok(sync)) => Ok(Label(b, key, text, sync))
        case _ => Err("malformed stroke")
  }

  /** The registry hands back the stroke's own key for its option's name. */
  predicate Registered(s: Stroke, registry: map<string, KeyBind>) {
    s.key.Some? && s.key.value.translationKey in registry && registry[s.key.value.translationKey] == s.key.value
  }

  predicate ValidBounds(r: Rect) {
    IsInt32(r.x) && IsInt32(r.y) && IsInt32(r.width) && IsInt32(r.height)
  }

  lemma BoundsRoundTrip(o: Obj, r: Rect)
    requires ValidBounds(r) && "bounds" in o && o["bounds"] == JObj(BoundsJson(r))
    ensures GetRectangle(o, "bounds") == Ok(r)
  {
    var b := BoundsJson(r);
    assert GetInt(b, "x") == Ok(r.x);
    assert GetInt(b, "y") == Ok(r.y);
    assert GetInt(b, "width") == Ok(r.width);
    assert GetInt(b, "height") == Ok(r.height);
  }

  /** Saving a stroke and loading it back gives the same stroke: bounds, key,
      label and synchronise flag, or the special renderer. */
  lemma {:induction false} SerializeRoundTrip(s: Stroke, registry: map<string, KeyBind>)
    requires Registered(s, registry) && ValidBounds(s.bounds)
    ensures Serialize(s).Ok? && Deserialize(Serialize(s).value, registry) == Ok(s)
  {
    LoadBack(s, registry);
  }

  /** A saved stroke whose key is missing from the registry comes back with
      no key, everything else intact. */
  lemma UnknownKeyComesBackUnbound(s: Stroke, registry: map<string, KeyBind>)
    requires s.key.Some? && s.key.value.translationKey !in registry && ValidBounds(s.bounds)
    ensures Serialize(s).Ok? && Deserialize(Serialize(s).value, registry) == Ok(s.(key := None))
  {
    LoadBack(s, registry);
  }

  /** Loading a saved stroke gives it back with whatever key the registry
      holds under its option's name. */
  lemma LoadBack(s: Stroke, registry: map<string, KeyBind>)
    requires s.key.Some? && ValidBounds(s.bounds)
    ensures Serialize(s).Ok?
    ensures Deserialize(Serialize(s).value, registry) == Ok(s.(key := FindKey(registry, Some(s.key.value.translationKey))))
  {
    var o := Serialize(s).value;
    BoundsRoundTrip(o, s.bounds);
    if s.Label? {
      LoadBackLabel(s, o);
    } else {
      LoadBackCustom(s, o);
    }
  }

  lemma LoadBackLabel(s: Stroke, o: Obj)
    requires s.Label? && s.key.Some? && o == Serialize(s).value
    ensures o["type"] == JStr("custom") != JStr("option")
    ensures GetString(o, "key_name") == Ok(Some(s.key.value.translationKey))
    ensures GetString(o, "label") == Ok(s.text)
    ensures GetBool(o, "synchronize_label") == Ok(s.sync)
  {
  }

  lemma LoadBackCustom(s: Stroke, o: Obj)
    requires s.Custom? && s.key.Some? && o == Serialize(s).value
    ensures GetString(o, "option") == Ok(Some(s.key.value.translationKey))
    ensures GetString(o, "special_name") == Ok(Some(SpecialName(s.special)))
    ensures s.special == Space
  {
  }
}

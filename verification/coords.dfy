/** The coordinates HUD's compass: which of eight directions the player faces,
    the sign hints shown beside the X and Z coordinates, and the biome label. */
module Coords {
  import opened Base

  // ---------------------------------------------------------------------------
  // Direction buckets
  // ---------------------------------------------------------------------------

  /** Lower bounds of the eight 45-degree sectors (North wraps around 360). */
  const Bounds: seq<int> := [0, 23, 68, 113, 158, 203, 248, 293, 338, 360]

  /** `yaw %= 360; if (yaw < 0) yaw += 360;` with Java's truncating remainder. */
  function NormaliseYaw(yaw: real): (n: real)
    ensures 0.0 <= n < 360.0
    ensures n == yaw - 360.0 * (yaw / 360.0).Floor as real
  {
    var k := Trunc(yaw / 360.0);
    var r := yaw - k as real * 360.0;
    TruncAgainstFloor(yaw / 360.0);
    if r < 0.0 then r + 360.0 else r
  }

  /** Truncation and flooring differ by one exactly on negative non-integers. */
  lemma TruncAgainstFloor(q: real)
    ensures q >= 0.0 || q == q.Floor as real ==> Trunc(q) == q.Floor
    ensures q < 0.0 && q != q.Floor as real ==> Trunc(q) == q.Floor + 1
  {
    var f := q.Floor;
    if q < 0.0 {
      var g := (-q).Floor;
      assert Trunc(q) == -g;
      assert g as real <= -q < g as real + 1.0;
      assert f as real <= q < f as real + 1.0;
    }
  }

  /** The search loop of `getDirection`: bucket `i` is `[Bounds[i], Bounds[i+1])`,
      the last one wraps to `Bounds[0]`, and bucket 8 is reported as North. */
  function FindBucket(yaw: real, i: nat): (d: int)
    requires i <= |Bounds|
    decreases |Bounds| - i
  {
    if i == |Bounds| then 0
    else
      var min := Bounds[i];
      var max := if i + 1 >= |Bounds| then Bounds[0] else Bounds[i + 1];
      if yaw >= min as real && yaw < max as real then
        (if i >= 8 then 1 else i + 1)
      else FindBucket(yaw, i + 1)
  }

  /** The compass sector of a normalised yaw, as an independent reference:
      North is `[338, 360) ∪ [0, 23)`, and every further 45 degrees is the next
      direction clockwise. */
  function Sector(n: real): int
    requires 0.0 <= n < 360.0
  {
    if n < 23.0 || n >= 338.0 then 1 else ((n - 23.0) / 45.0).Floor + 2
  }

  /** `getDirection`: 1 = North, 2 = North East, ... 8 = North West. */
  function Direction(yaw: real): (d: int)
    ensures 1 <= d <= 8
    ensures d == Sector(NormaliseYaw(yaw))
  {
    var n := NormaliseYaw(yaw);
    BucketMatchesSector(n);
    FindBucket(n, 0)
  }

  lemma {:induction false} BucketMatchesSector(n: real)
    requires 0.0 <= n < 360.0
    ensures FindBucket(n, 0) == Sector(n)
  {
    if n < 23.0 {
    } else if n < 68.0 {
      assert FindBucket(n, 1) == 2;
    } else if n < 113.0 {
      assert FindBucket(n, 2) == 3;
    } else if n < 158.0 {
      assert FindBucket(n, 3) == 4;
    } else if n < 203.0 {
      assert FindBucket(n, 4) == 5;
    } else if n < 248.0 {
      assert FindBucket(n, 5) == 6;
    } else if n < 293.0 {
      assert FindBucket(n, 6) == 7;
    } else if n < 338.0 {
      assert FindBucket(n, 7) == 8;
    } else {
      assert FindBucket(n, 8) == 1;
    }
  }

  /** Turning a full circle does not change the direction, whatever the sign of
      the yaw. */
  lemma DirectionPeriodic(yaw: real)
    ensures Direction(yaw + 360.0) == Direction(yaw)
    ensures Direction(yaw - 360.0) == Direction(yaw)
  {
    var q := yaw / 360.0;
    assert (yaw + 360.0) / 360.0 == q + 1.0;
    assert (yaw - 360.0) / 360.0 == q - 1.0;
    assert (q + 1.0).Floor == q.Floor + 1;
    assert (q - 1.0).Floor == q.Floor - 1;
  }

  /** Both ends of the circle are North. */
  lemma NorthWrapsAround(yaw: real)
    requires 338.0 <= yaw < 360.0 || 0.0 <= yaw < 23.0
    ensures Direction(yaw) == 1
  {
  }

  // ---------------------------------------------------------------------------
  // Labels
  // ---------------------------------------------------------------------------

  /** `getWordedDirection`: a compass word for the eight points, "?" for the
      unknown direction 0, nothing otherwise. The odd points are the four
      cardinal ones and get a single letter. */
  function WordedDirection(dir: int): (r: string)
    ensures r == "?" <==> dir == 0
    ensures r == "" <==> !(0 <= dir <= 8)
    ensures 1 <= dir <= 8 ==> |r| == (if dir % 2 == 1 then 1 else 2)
    ensures 1 <= dir <= 8 ==> forall k :: 0 <= k < |r| ==> r[k] in "NESW"
  {
    match dir
    case 1 => "N"
    case 2 => "NE"
    case 3 => "E"
    case 4 => "SE"
    case 5 => "S"
    case 6 => "SW"
    case 7 => "W"
    case 8 => "NW"
    case 0 => "?"
    case _ => ""
  }

  /** `getXDir`: how X changes when walking in this direction; walking due
      North or South leaves it alone. */
  function XDir(dir: int): (r: string)
    ensures r in {"++", "+", "-", "--", ""}
    ensures 1 <= dir <= 8 ==> (r == "" <==> dir == 1 || dir == 5)
  {
    match dir
    case 3 => "++"
    case 2 | 4 => "+"
    case 6 | 8 => "-"
    case 7 => "--"
    case _ => ""
  }

  /** `getZDir`: how Z changes when walking in this direction; walking due
      East or West leaves it alone. */
  function ZDir(dir: int): (r: string)
    ensures r in {"++", "+", "-", "--", ""}
    ensures 1 <= dir <= 8 ==> (r == "" <==> dir == 3 || dir == 7)
  {
    match dir
    case 5 => "++"
    case 4 | 6 => "+"
    case 8 | 2 => "-"
    case 1 => "--"
    case _ => ""
  }

  /** The sign hint for one axis, read off the worded direction: the letter
      `pos` means the coordinate grows, `neg` that it shrinks, and a pure
      cardinal direction doubles the sign. */
  function AxisHint(word: string, pos: char, neg: char): string
  {
    if word == [pos] then "++"
    else if word == [neg] then "--"
    else if pos in word then "+"
    else if neg in word then "-"
    else ""
  }

  /** The X and Z hints agree with the compass words: East is +X, West is -X,
      South is +Z and North is -Z; directions outside 1..8 have no hint. */
  lemma HintsFollowWords(dir: int)
    ensures 1 <= dir <= 8 ==> XDir(dir) == AxisHint(WordedDirection(dir), 'E', 'W')
    ensures 1 <= dir <= 8 ==> ZDir(dir) == AxisHint(WordedDirection(dir), 'S', 'N')
    ensures !(1 <= dir <= 8) ==> XDir(dir) == "" && ZDir(dir) == ""
    ensures WordedDirection(dir) == "" <==> !(0 <= dir <= 8)
  {
  }

  /** The compass point opposite `dir`, half a turn away. */
  function Opposite(dir: int): (r: int)
    requires 1 <= dir <= 8
    ensures 1 <= r <= 8 && r != dir
  {
    (dir + 3) % 8 + 1
  }

  /** A hint with its sign flipped. */
  function Negate(h: string): string {
    if h == "++" then "--" else if h == "--" then "++"
    else if h == "+" then "-" else if h == "-" then "+"
    else h
  }

  /** Walking the opposite way flips both hints, and no two points share a
      word. */
  lemma OppositeHints(dir: int)
    requires 1 <= dir <= 8
    ensures XDir(Opposite(dir)) == Negate(XDir(dir))
    ensures ZDir(Opposite(dir)) == Negate(ZDir(dir))
    ensures WordedDirection(Opposite(dir)) != WordedDirection(dir)
  {
  }

  /** The Z hint of a point is the X hint of the point a quarter turn
      anticlockwise: South is to Z what East is to X. */
  lemma ZIsXTurned(dir: int)
    requires 1 <= dir <= 8
    ensures ZDir(dir) == XDir((dir + 5) % 8 + 1)
  {
  }

  // ---------------------------------------------------------------------------
  // Biome label
  // ---------------------------------------------------------------------------

  /** A biome's registry key. */
  datatype BiomeKey = BiomeKey(namespace: string, path: string)

  /** `Character.isWhitespace` on the ASCII range. */
  predicate IsWhitespace(c: char) {
    c == ' ' || c == '\t' || c == '\n' || c == '\U{B}' || c == '\U{C}' || c == '\r'
    || ('\U{1C}' <= c <= '\U{1F}')
  }

  function ReplaceUnderscores(s: string): (t: string)
    ensures |t| == |s|
    ensures forall i :: 0 <= i < |s| ==> t[i] == (if s[i] == '_' then ' ' else s[i])
  {
    if |s| == 0 then [] else [if s[0] == '_' then ' ' else s[0]] + ReplaceUnderscores(s[1..])
  }

  /** The title-casing loop of `getBiomeName`. */
  function TitleCase(s: string, capitalizeNext: bool): (t: string)
    ensures |t| == |s|
  {
    if |s| == 0 then []
    else if IsWhitespace(s[0]) then [s[0]] + TitleCase(s[1..], true)
    else if capitalizeNext then [ToUpper(s[0])] + TitleCase(s[1..], false)
    else [s[0]] + TitleCase(s[1..], false)
  }

  /** A character starts a word when it is not whitespace and follows whitespace
      or the start of the text. */
  predicate WordStart(s: string, i: int)
    requires 0 <= i < |s|
  {
    !IsWhitespace(s[i]) && (i == 0 || IsWhitespace(s[i - 1]))
  }

  lemma {:induction false} TitleCaseSpec(s: string, capitalizeNext: bool, i: int)
    requires 0 <= i < |s|
    ensures TitleCase(s, capitalizeNext)[i] ==
      if !IsWhitespace(s[i]) && ((i == 0 && capitalizeNext) || (i > 0 && IsWhitespace(s[i - 1])))
      then ToUpper(s[i]) else s[i]
    decreases |s|
  {
    if i > 0 {
      TitleCaseSpec(s[1..], if IsWhitespace(s[0]) then true else false, i - 1);
    }
  }

  /** The biome path with a namespace other than `minecraft` appended in
      parentheses. */
  function RawPath(key: BiomeKey): string
  {
    if key.namespace == "minecraft" then key.path else key.path + "(" + key.namespace + ")"
  }

  /** `getBiomeName`: "Unknown" for a missing biome; otherwise the path, with a
      foreign namespace appended in parentheses, underscores turned into
      spaces, and every word's first letter upper-cased. */
  function BiomeName(biome: Option<BiomeKey>): (r: string)
    ensures biome.None? ==> r == "Unknown"
    ensures biome.Some? ==>
      var raw := RawPath(biome.value);
      && |r| == |raw|
      && '_' !in r
      && forall i :: 0 <= i < |raw| ==> LabelChar(raw, r, i)
  {
    match biome
    case None => "Unknown"
    case Some(key) =>
      var path := RawPath(key);
      var str := ReplaceUnderscores(path);
      if |str| == 0 then str
      else
        var t := TitleCase(str, true);
        BiomeNameChars(path, str, t);
        t
  }

  /** Character `i` of the label: an underscore becomes a space, and a
      character at the start of the path or after a space or underscore is
      upper-cased; everything else is kept. */
  predicate LabelChar(raw: string, r: string, i: int)
    requires 0 <= i < |raw| && |r| == |raw|
  {
    r[i] == (if raw[i] == '_' then ' '
             else if i == 0 || raw[i - 1] == '_' || IsWhitespace(raw[i - 1]) then ToUpper(raw[i])
             else raw[i])
  }

  lemma {:induction false} BiomeNameChars(raw: string, str: string, t: string)
    requires str == ReplaceUnderscores(raw) && t == TitleCase(str, true)
    ensures '_' !in t
    ensures forall i :: 0 <= i < |raw| ==> LabelChar(raw, t, i)
  {
    forall i | 0 <= i < |raw|
      ensures t[i] != '_'
      ensures LabelChar(raw, t, i)
    {
      BiomeNameChar(raw, str, t, i);
    }
  }

  lemma {:induction false} BiomeNameChar(raw: string, str: string, t: string, i: int)
    requires str == ReplaceUnderscores(raw) && t == TitleCase(str, true)
    requires 0 <= i < |raw|
    ensures t[i] != '_'
    ensures LabelChar(raw, t, i)
  {
    TitleCaseSpec(str, true, i);
    assert str[i] == (if raw[i] == '_' then ' ' else raw[i]);
    if i > 0 {
      assert str[i - 1] == (if raw[i - 1] == '_' then ' ' else raw[i - 1]);
    }
  }
}

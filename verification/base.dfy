/** Shared vocabulary: optional values and results for the source's `null`s and
    exceptions, Java's integer and floating-point operators written out, and the
    ASCII text helpers the core uses (case mapping, trimming, substring search). */
module Base {

  datatype Option<T> = None | Some(value: T)

  datatype Result<T, E> = Ok(value: T) | Err(error: E)

  // ---------------------------------------------------------------------------
  // Java arithmetic
  // ---------------------------------------------------------------------------

  /** Java's `a % m` for a positive modulus: the remainder takes the sign of `a`. */
  function JavaRem(a: int, m: int): (r: int)
    requires m > 0
    ensures a >= 0 ==> 0 <= r < m
    ensures a < 0 ==> -m < r <= 0
  {
    if a >= 0 then a % m else -((-a) % m)
  }

  /** Java's `a / m` for a positive divisor: the quotient is truncated toward zero. */
  function JavaDiv(a: int, m: int): (q: int)
    requires m > 0
    ensures a >= 0 ==> q * m <= a < q * m + m
    ensures a < 0 ==> q * m - m < a <= q * m
  {
    if a >= 0 then a / m else -((-a) / m)
  }

  /** A `(int)` cast of a non-NaN floating-point value: truncation toward zero. */
  function Trunc(x: real): (n: int)
    ensures x >= 0.0 ==> n as real <= x < n as real + 1.0
    ensures x < 0.0 ==> n as real - 1.0 < x <= n as real
  {
    if x >= 0.0 then x.Floor else -((-x).Floor)
  }

  /** `Math.round` on a float: round half up. */
  function Round(x: real): (n: int)
    ensures n as real - 0.5 <= x < n as real + 0.5
  {
    (x + 0.5).Floor
  }

  /** Clamping as the game's math helper does it: `min(max(v, lo), hi)`. */
  function ClampInt(v: int, lo: int, hi: int): (r: int)
    ensures lo <= hi ==> lo <= r <= hi
    ensures lo <= v <= hi ==> r == v
    ensures lo <= hi && v < lo ==> r == lo
    ensures v > hi ==> r == hi
  {
    if v < lo then (if lo < hi then lo else hi) else if v < hi then v else hi
  }

  function ClampReal(v: real, lo: real, hi: real): (r: real)
    ensures lo <= hi ==> lo <= r <= hi
    ensures lo <= v <= hi ==> r == v
    ensures lo <= hi && v < lo ==> r == lo
    ensures v > hi ==> r == hi
  {
    if v < lo then (if lo < hi then lo else hi) else if v < hi then v else hi
  }

  function MaxInt(a: int, b: int): int { if a >= b then a else b }
  function MinInt(a: int, b: int): int { if a <= b then a else b }

  const IntMin := -0x8000_0000
  const IntMax := 0x7fff_ffff

  predicate IsInt32(v: int) { IntMin <= v <= IntMax }

  /** Java's narrowing `(int)` cast of a `long`: keep the low 32 bits, read
      them as two's complement. */
  function ToInt32(v: int): (r: int)
    ensures IsInt32(r)
    ensures (r - v) % 0x1_0000_0000 == 0
    ensures IsInt32(v) ==> r == v
  {
    (v - IntMin) % 0x1_0000_0000 + IntMin
  }

  // ---------------------------------------------------------------------------
  // Text (ASCII case mapping; the game's locale-independent calls agree on it)
  // ---------------------------------------------------------------------------

  predicate IsUpper(c: char) { 'A' <= c <= 'Z' }
  predicate IsLower(c: char) { 'a' <= c <= 'z' }

  function ToLower(c: char): (d: char)
    ensures !IsUpper(d)
    ensures !IsUpper(c) ==> d == c
  {
    if IsUpper(c) then (c as int + 32) as char else c
  }

  function ToUpper(c: char): (d: char)
    ensures !IsLower(d)
    ensures !IsLower(c) ==> d == c
  {
    if IsLower(c) then (c as int - 32) as char else c
  }

  function LowerStr(s: string): (t: string)
    ensures |t| == |s|
    ensures forall i :: 0 <= i < |s| ==> t[i] == ToLower(s[i])
  {
    if |s| == 0 then [] else [ToLower(s[0])] + LowerStr(s[1..])
  }

  function UpperStr(s: string): (t: string)
    ensures |t| == |s|
    ensures forall i :: 0 <= i < |s| ==> t[i] == ToUpper(s[i])
  {
    if |s| == 0 then [] else [ToUpper(s[0])] + UpperStr(s[1..])
  }

  /** `String.equalsIgnoreCase` restricted to ASCII letters. */
  predicate EqualsIgnoreCase(a: string, b: string) {
    LowerStr(a) == LowerStr(b)
  }

  /** `s.contains(sub)`. */
  predicate Contains(s: string, sub: string) {
    exists i :: 0 <= i <= |s| - |sub| && OccursAt(s, sub, i)
  }

  predicate OccursAt(s: string, sub: string, i: int) {
    0 <= i <= |s| - |sub| && s[i..i + |sub|] == sub
  }

  /** A computable search for `sub` in `s`, checked against `Contains`. */
  function ContainsFrom(s: string, sub: string, from: nat): (b: bool)
    requires from <= |s|
    ensures b <==> exists i :: from <= i && OccursAt(s, sub, i)
    decreases |s| - from
  {
    if from + |sub| > |s| then false
    else if OccursAt(s, sub, from) then true
    else ContainsFrom(s, sub, from + 1)
  }

  function ContainsStr(s: string, sub: string): (b: bool)
    ensures b <==> Contains(s, sub)
  {
    ContainsFrom(s, sub, 0)
  }

  /** Java's `trim`: strips every leading and trailing character up to U+0020. */
  function Trim(s: string): (t: string)
    ensures |t| <= |s|
    ensures |t| > 0 ==> t[0] > ' ' && t[|t| - 1] > ' '
  {
    var a := TrimStart(s);
    TrimEnd(a)
  }

  function TrimStart(s: string): (t: string)
    ensures |t| <= |s| && t == s[|s| - |t|..]
    ensures |t| > 0 ==> t[0] > ' '
  {
    if |s| > 0 && s[0] <= ' ' then TrimStart(s[1..]) else s
  }

  function TrimEnd(s: string): (t: string)
    ensures |t| <= |s| && t == s[..|t|]
    ensures |t| > 0 ==> t[|t| - 1] > ' '
  {
    if |s| > 0 && s[|s| - 1] <= ' ' then TrimEnd(s[..|s| - 1]) else s
  }

  /** `String.replace(target, replacement)`: every non-overlapping occurrence,
      scanning left to right. */
  function ReplaceAll(s: string, target: string, repl: string): (r: string)
    requires |target| > 0
    decreases |s|
  {
    if |s| < |target| then s
    else if s[..|target|] == target then repl + ReplaceAll(s[|target|..], target, repl)
    else [s[0]] + ReplaceAll(s[1..], target, repl)
  }

  /** Removing every occurrence of one character (`s.replace("-", "")`). */
  function RemoveChar(s: string, c: char): (r: string)
    ensures c !in r
    ensures |r| <= |s|
    ensures c !in s ==> r == s
    ensures forall d :: d in r ==> d in s
  {
    if |s| == 0 then []
    else if s[0] == c then RemoveChar(s[1..], c)
    else [s[0]] + RemoveChar(s[1..], c)
  }

  /** A lookup by equality (a `switch` on strings, `HashMap.get`): the first
      position of `key` in `keys`, or -1. */
  function IndexOf<T(==)>(keys: seq<T>, key: T): (r: int)
    ensures -1 <= r < |keys|
    ensures r >= 0 ==> keys[r] == key && forall j :: 0 <= j < r ==> keys[j] != key
    ensures r == -1 <==> key !in keys
  {
    if |keys| == 0 then -1
    else if keys[0] == key then 0
    else
      var k := IndexOf(keys[1..], key);
      if k < 0 then -1 else k + 1
  }

  /** `List.remove(Object)`: drop the first element equal to `x`, if any. */
  function RemoveFirst<T(==)>(q: seq<T>, x: T): (r: seq<T>)
    ensures x !in q ==> r == q
    ensures x in q ==> |r| == |q| - 1
  {
    if |q| == 0 then q
    else if q[0] == x then q[1..]
    else [q[0]] + RemoveFirst(q[1..], x)
  }

  /** The first occurrence of `x` is the one that goes: everything before it
      and everything after it is kept in order. */
  lemma {:induction false} RemoveFirstSplits<T>(q: seq<T>, x: T, i: int)
    requires 0 <= i < |q| && q[i] == x && x !in q[..i]
    ensures RemoveFirst(q, x) == q[..i] + q[i + 1..]
    decreases |q|
  {
    if i > 0 {
      assert q[1..][..i - 1] == q[1..i];
      assert q[0] in q[..i];
      RemoveFirstSplits(q[1..], x, i - 1);
      assert q[..i] == [q[0]] + q[1..][..i - 1];
      assert q[1..][i..] == q[i + 1..];
    }
  }

  /** As a bag, removing takes away exactly one copy of `x` when there is one. */
  lemma {:induction false} RemoveFirstMultiset<T>(q: seq<T>, x: T)
    ensures multiset(RemoveFirst(q, x)) == multiset(q) - multiset{x}
    decreases |q|
  {
    if |q| > 0 {
      assert q == [q[0]] + q[1..];
      if q[0] != x {
        RemoveFirstMultiset(q[1..], x);
      }
    }
  }
}

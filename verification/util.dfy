/** The client's small string and time helpers: ticks between two times of
    day, splitting identifiers at capital letters, linear interpolation and
    Roman numerals. */
module Util {
  import opened Base

  // ---------------------------------------------------------------------------
  // Ticks
  // ---------------------------------------------------------------------------

  /** Length of a Minecraft day in ticks. */
  const DayTicks: int := 24000

  /** `getTicksBetween`: the forward distance from `start` to `end` on the
      24000-tick clock. */
  function TicksBetween(start: int, end: int): (t: int)
    ensures start == end ==> t == 0
    ensures 0 <= start < DayTicks && 0 <= end < DayTicks ==>
              0 <= t < DayTicks && (start + t) % DayTicks == end
  {
    if end < start then end + DayTicks - start else end - start
  }

  /** Walking from `s` to `e` and on from `e` back to `s` is one full day,
      unless the two times coincide. */
  lemma TicksAroundTheClock(s: int, e: int)
    requires 0 <= s < DayTicks && 0 <= e < DayTicks
    ensures s != e ==> TicksBetween(s, e) + TicksBetween(e, s) == DayTicks
    ensures TicksBetween(s, e) == (e - s) % DayTicks
  {
    if e < s {
      assert e - s + DayTicks == TicksBetween(s, e);
      assert (e - s) % DayTicks == e - s + DayTicks;
    }
  }

  // ---------------------------------------------------------------------------
  // Splitting at capital letters
  // ---------------------------------------------------------------------------

  /** Whether the splitter puts a space in front of `c`: an upper-case letter
      that differs from the text's first character. */
  predicate SplitsBefore(c: char, first: char) {
    IsUpper(c) && c != first
  }

  /** The loop of `splitAtCapitalLetters` over the remaining characters, with
      the text's first character fixed. */
  function SplitFrom(s: string, first: char): (r: string)
    ensures |r| >= |s|
    ensures |s| > 0 && SplitsBefore(s[0], first) ==> |r| > 0 && r[0] == ' '
    ensures |s| > 0 && !SplitsBefore(s[0], first) ==> |r| > 0 && r[0] == s[0]
  {
    if |s| == 0 then []
    else if SplitsBefore(s[0], first) then [' ', s[0]] + SplitFrom(s[1..], first)
    else [s[0]] + SplitFrom(s[1..], first)
  }

  /** `splitAtCapitalLetters`; `None` stands for a null argument. */
  function SplitAtCapitals(s: Option<string>): (r: string)
    ensures s.None? || s.value == [] ==> r == ""
    ensures s.Some? && s.value != [] ==> |r| >= |s.value| && r[0] == s.value[0]
  {
    if s.None? || |s.value| == 0 then ""
    else SplitFrom(s.value, s.value[0])
  }

  /** Removing the inserted spaces: a space goes when the next character is
      one the splitter puts a space before. */
  function Unsplit(r: string, first: char): string
  {
    if |r| == 0 then []
    else if |r| >= 2 && r[0] == ' ' && SplitsBefore(r[1], first) then [r[1]] + Unsplit(r[2..], first)
    else [r[0]] + Unsplit(r[1..], first)
  }

  /** The splitter only inserts spaces: taking them out again gives back the
      original text, characters unchanged and in order. */
  lemma {:induction false} UnsplitSplit(s: string, first: char)
    ensures Unsplit(SplitFrom(s, first), first) == s
  {
    if |s| > 0 {
      var rest := SplitFrom(s[1..], first);
      UnsplitSplit(s[1..], first);
      if SplitsBefore(s[0], first) {
        assert SplitFrom(s, first) == [' ', s[0]] + rest;
        assert ([' ', s[0]] + rest)[2..] == rest;
      } else {
        var r := [s[0]] + rest;
        assert SplitFrom(s, first) == r;
        assert r[1..] == rest;
        if |r| >= 2 && r[0] == ' ' {
          assert |s| >= 2;
          assert !SplitsBefore(r[1], first);
        }
      }
    }
  }

  /** The number of capitals the splitter puts a space before. */
  function CountSplits(s: string, first: char): nat
  {
    if |s| == 0 then 0 else (if SplitsBefore(s[0], first) then 1 else 0) + CountSplits(s[1..], first)
  }

  /** The result is longer by one space per qualifying capital. */
  lemma {:induction false} SplitLength(s: string, first: char)
    ensures |SplitFrom(s, first)| == |s| + CountSplits(s, first)
  {
    if |s| > 0 {
      SplitLength(s[1..], first);
    }
  }

  /** The first character never gets a space in front of it, so a text that
      starts with a capital is not split there. */
  lemma SplitKeepsFirst(s: string)
    requires |s| > 0
    ensures SplitAtCapitals(Some(s)) == [s[0]] + SplitFrom(s[1..], s[0])
  {
  }

  // ---------------------------------------------------------------------------
  // Linear interpolation
  // ---------------------------------------------------------------------------

  /** `lerp`: the point a fraction `percent` of the way from `start` to `end`. */
  function Lerp(start: real, end: real, percent: real): (v: real)
    ensures percent == 0.0 ==> v == start
    ensures percent == 1.0 ==> v == end
    ensures start <= end && 0.0 <= percent <= 1.0 ==> start <= v <= end
    ensures end <= start && 0.0 <= percent <= 1.0 ==> end <= v <= start
  {
    var m := (end - start) * percent;
    ScaleWithinUnit(end - start, percent);
    start + m
  }

  /** A fraction in `[0, 1]` of `d` lies between 0 and `d`. */
  lemma ScaleWithinUnit(d: real, p: real)
    ensures p == 0.0 ==> d * p == 0.0
    ensures p == 1.0 ==> d * p == d
    ensures 0.0 <= p <= 1.0 && d >= 0.0 ==> 0.0 <= d * p <= d
    ensures 0.0 <= p <= 1.0 && d <= 0.0 ==> d <= d * p <= 0.0
  {
    if 0.0 <= p <= 1.0 {
      assert d * p + d * (1.0 - p) == d;
      if d >= 0.0 {
        assert d * (1.0 - p) >= 0.0;
      } else {
        assert (-d) * (1.0 - p) >= 0.0;
        assert (-d) * p >= 0.0;
      }
    }
  }

  /** Interpolating backwards from the other end gives the same point. */
  lemma LerpSymmetric(start: real, end: real, percent: real)
    ensures Lerp(start, end, percent) == Lerp(end, start, 1.0 - percent)
  {
  }

  // ---------------------------------------------------------------------------
  // Roman numerals
  // ---------------------------------------------------------------------------

  /** `Strings.repeat` of a single character. */
  function Rep(c: char, k: nat): (s: string)
    ensures |s| == k
    ensures forall i :: 0 <= i < k ==> s[i] == c
  {
    if k == 0 then [] else [c] + Rep(c, k - 1)
  }

  /** One decimal digit in standard Roman notation, with the symbols for
      one, five and ten of its place. */
  function Digit(d: int, one: char, five: char, ten: char): string
  {
    match d
    case 1 => [one]
    case 2 => [one, one]
    case 3 => [one, one, one]
    case 4 => [one, five]
    case 5 => [five]
    case 6 => [five, one]
    case 7 => [five, one, one]
    case 8 => [five, one, one, one]
    case 9 => [one, ten]
    case _ => []
  }

  /** The standard Roman numeral: thousands as repeated M, then one digit
      each for hundreds, tens and units. */
  function RomanReference(n: nat): string
  {
    Rep('M', n / 1000) + Digit((n / 100) % 10, 'C', 'D', 'M')
      + Digit((n / 10) % 10, 'X', 'L', 'C') + Digit(n % 10, 'I', 'V', 'X')
  }

  /** The four replacements of `toRoman` that handle one decimal place. */
  function Stage(s: string, one: char, five: char, ten: char): string
  {
    var a := ReplaceAll(s, [one, one, one, one, one], [five]);
    var b := ReplaceAll(a, [one, one, one, one], [one, five]);
    var c := ReplaceAll(b, [five, five], [ten]);
    ReplaceAll(c, [five, one, five], [one, ten])
  }

  /** `toRoman`: a run of `number` I's rewritten by the twelve replacements. */
  function ToRoman(number: int): (r: string)
    ensures number <= 0 ==> r == ""
    ensures number > 0 ==> r == RomanReference(number)
  {
    if number > 0 then
      var r := Stage(Stage(Stage(Rep('I', number), 'I', 'V', 'X'), 'X', 'L', 'C'), 'C', 'D', 'M');
      ToRomanIsStandard(number);
      r
    else ""
  }

  /** Only the seven Roman symbols appear. */
  predicate RomanAlphabet(s: string) {
    forall i :: 0 <= i < |s| ==> s[i] in "IVXLCDM"
  }

  lemma {:induction false} ToRomanAlphabet(n: int)
    ensures RomanAlphabet(ToRoman(n))
  {
    if n > 0 {
      var m := Rep('M', n / 1000);
      var c := Digit((n / 100) % 10, 'C', 'D', 'M');
      var x := Digit((n / 10) % 10, 'X', 'L', 'C');
      var i := Digit(n % 10, 'I', 'V', 'X');
      assert RomanAlphabet(m);
      DigitAlphabet((n / 100) % 10, 'C', 'D', 'M');
      DigitAlphabet((n / 10) % 10, 'X', 'L', 'C');
      DigitAlphabet(n % 10, 'I', 'V', 'X');
      AlphabetConcat(m, c);
      AlphabetConcat(m + c, x);
      AlphabetConcat(m + c + x, i);
    }
  }

  lemma DigitAlphabet(d: int, one: char, five: char, ten: char)
    requires one in "IVXLCDM" && five in "IVXLCDM" && ten in "IVXLCDM"
    ensures RomanAlphabet(Digit(d, one, five, ten))
  {
  }

  lemma AlphabetConcat(a: string, b: string)
    requires RomanAlphabet(a) && RomanAlphabet(b)
    ensures RomanAlphabet(a + b)
  {
    forall i | 0 <= i < |a + b| ensures (a + b)[i] in "IVXLCDM" {
      if i >= |a| {
        assert (a + b)[i] == b[i - |a|];
      }
    }
  }

  lemma RomanExamples()
    ensures ToRoman(4) == "IV" && ToRoman(9) == "IX"
    ensures ToRoman(14) == "XIV"
  {
    assert RomanReference(4) == "IV";
    assert RomanReference(9) == "IX";
    assert RomanReference(14) == "XIV";
  }

  /** The subtractive pairs of the tens and hundreds. */
  lemma RomanSubtractiveExamples()
    ensures ToRoman(40) == "XL" && ToRoman(90) == "XC" && ToRoman(400) == "CD"
  {
    assert RomanReference(40) == "XL";
    assert RomanReference(90) == "XC";
    assert RomanReference(400) == "CD";
  }

  lemma {:induction false} RomanYearExample(n: int)
    requires n == 1994
    ensures ToRoman(n) == "MCMXCIV"
  {
    YearReference(n);
  }

  lemma {:induction false} YearReference(n: nat)
    requires n == 1994
    ensures RomanReference(n) == "MCMXCIV"
  {
    var m, c, x, i := n / 1000, (n / 100) % 10, (n / 10) % 10, n % 10;
    assert m == 1 && c == 9 && x == 9 && i == 4;
    assert Rep('M', m) == "M";
    assert Digit(c, 'C', 'D', 'M') == "CM";
    assert Digit(x, 'X', 'L', 'C') == "XC";
    assert Digit(i, 'I', 'V', 'X') == "IV";
  }

  /** The largest numeral before a fourth M would be needed. */
  lemma {:induction false} RomanLargestExample(n: int)
    requires n == 3999
    ensures ToRoman(n) == "MMMCMXCIX"
  {
    LargestReference(n);
  }

  lemma {:induction false} LargestReference(n: nat)
    requires n == 3999
    ensures RomanReference(n) == "MMMCMXCIX"
  {
    assert n / 1000 == 3 && (n / 100) % 10 == 9 && (n / 10) % 10 == 9 && n % 10 == 9;
    var m := Rep('M', n / 1000);
    assert m == "MMM" by {
      assert |m| == 3 && m[0] == 'M' && m[1] == 'M' && m[2] == 'M';
    }
  }

  // --- the proof that the replacement chain produces standard numerals ------

  /** A replacement leaves alone a text too short for the target or without
      the target's first character. */
  lemma ReplaceInert(s: string, t: string, r: string)
    requires |t| > 0
    requires |s| < |t| || t[0] !in s
    ensures ReplaceAll(s, t, r) == s
    decreases |s|
  {
    if |s| >= |t| {
      assert s[..|t|][0] == s[0];
      ReplaceInert(s[1..], t, r);
      assert [s[0]] + s[1..] == s;
    }
  }

  /** Text that cannot begin an occurrence passes through unchanged. */
  lemma {:induction false} ReplaceSkipsPrefix(p: string, q: string, t: string, r: string)
    requires |t| > 0 && t[0] !in p
    ensures ReplaceAll(p + q, t, r) == p + ReplaceAll(q, t, r)
    decreases |p|
  {
    if |p| > 0 {
      var s := p + q;
      if |s| >= |t| {
        assert s[..|t|][0] == p[0];
      }
      assert s[1..] == p[1..] + q;
      ReplaceSkipsPrefix(p[1..], q, t, r);
      assert [p[0]] + (p[1..] + ReplaceAll(q, t, r)) == p + ReplaceAll(q, t, r);
    } else {
      assert p + q == q;
    }
  }

  /** No occurrence can straddle a boundary whose right side starts with a
      character foreign to the target, so the two sides are rewritten
      separately. */
  lemma {:induction false} ReplaceSplits(p: string, q: string, t: string, r: string)
    requires |t| > 0
    requires q == [] || q[0] !in t
    ensures ReplaceAll(p + q, t, r) == ReplaceAll(p, t, r) + ReplaceAll(q, t, r)
    decreases |p|
  {
    var s := p + q;
    if q == [] {
      assert s == p;
      assert ReplaceAll(q, t, r) == [];
    } else if |s| < |t| {
      ReplaceInert(p, t, r);
      ReplaceInert(q, t, r);
    } else if |p| >= |t| && s[..|t|] == t {
      assert p[..|t|] == t;
      assert s[|t|..] == p[|t|..] + q;
      ReplaceSplits(p[|t|..], q, t, r);
    } else if |p| == 0 {
      assert s == q;
    } else {
      if |p| < |t| {
        assert s[..|t|][|p|] == q[0];
        assert s[..|t|] != t;
      }
      assert s[1..] == p[1..] + q;
      ReplaceSplits(p[1..], q, t, r);
      if |p| < |t| {
        ReplaceInert(p, t, r);
        ReplaceInert(p[1..], t, r);
        assert [p[0]] + p[1..] == p;
      } else {
        assert p[..|t|] == s[..|t|];
      }
    }
  }

  lemma RepSplit(c: char, a: nat, b: nat)
    ensures Rep(c, a + b) == Rep(c, a) + Rep(c, b)
  {
  }

  /** Step one: every five `one`s become a `five`. */
  lemma {:induction false} FivesCollapse(one: char, five: char, m: nat)
    requires one != five
    ensures ReplaceAll(Rep(one, m), [one, one, one, one, one], [five])
            == Rep(five, m / 5) + Rep(one, m % 5)
  {
    if m >= 5 {
      RepSplit(one, 5, m - 5);
      assert Rep(one, m)[..5] == [one, one, one, one, one];
      assert Rep(one, m)[5..] == Rep(one, m - 5);
      FivesCollapse(one, five, m - 5);
      assert (m - 5) / 5 == m / 5 - 1 && (m - 5) % 5 == m % 5;
    }
  }

  /** The units left after step two: up to three `one`s, or `one five`. */
  function Tail(one: char, five: char, b: nat): string
    requires b < 5
  {
    if b == 4 then [one, five] else Rep(one, b)
  }

  lemma FourBecomesSubtractive(one: char, five: char, a: nat, b: nat)
    requires one != five && b < 5
    ensures ReplaceAll(Rep(five, a) + Rep(one, b), [one, one, one, one], [one, five])
            == Rep(five, a) + Tail(one, five, b)
  {
    var t := [one, one, one, one];
    ReplaceSkipsPrefix(Rep(five, a), Rep(one, b), t, [one, five]);
    if b == 4 {
      assert Rep(one, 4) == t;
      assert ReplaceAll(t, t, [one, five]) == [one, five] + ReplaceAll([], t, [one, five]);
    } else {
      ReplaceInert(Rep(one, b), t, [one, five]);
    }
  }

  /** The units tail never holds two fives in a row. */
  lemma TailHasNoPair(one: char, five: char, ten: char, b: nat)
    requires one != five && b < 5
    ensures ReplaceAll(Tail(one, five, b), [five, five], [ten]) == Tail(one, five, b)
    ensures ReplaceAll([five] + Tail(one, five, b), [five, five], [ten]) == [five] + Tail(one, five, b)
  {
    var t := [five, five];
    var tail := Tail(one, five, b);
    if b == 4 {
      ReplaceSkipsPrefix([one], [five], t, [ten]);
      assert [one] + [five] == tail;
      ReplaceInert([five], t, [ten]);
    } else {
      ReplaceInert(tail, t, [ten]);
    }
    ReplaceSplits([five], tail, t, [ten]);
    ReplaceInert([five], t, [ten]);
  }

  lemma PairsOfFives(one: char, five: char, ten: char, a: nat, b: nat)
    requires one != five && b < 5
    ensures ReplaceAll(Rep(five, a) + Tail(one, five, b), [five, five], [ten])
            == Rep(ten, a / 2) + Rep(five, a % 2) + Tail(one, five, b)
  {
    TailHasNoPair(one, five, ten, b);
    PairsCollapse(five, ten, a, Tail(one, five, b));
  }

  /** A run of `five`s before a tail the pair rule leaves alone collapses
      pair by pair. */
  lemma {:induction false} PairsCollapse(five: char, ten: char, a: nat, rest: string)
    requires ReplaceAll(rest, [five, five], [ten]) == rest
    requires ReplaceAll([five] + rest, [five, five], [ten]) == [five] + rest
    ensures ReplaceAll(Rep(five, a) + rest, [five, five], [ten])
            == Rep(ten, a / 2) + Rep(five, a % 2) + rest
  {
    if a >= 2 {
      PairsCollapse(five, ten, a - 2, rest);
      PairsStep(five, ten, a, rest);
    } else if a == 1 {
      assert Rep(five, 1) == [five];
      assert Rep(ten, 0) + Rep(five, 1) + rest == [five] + rest;
    } else {
      assert Rep(five, 0) + rest == rest;
      assert Rep(ten, 0) + Rep(five, 0) + rest == rest;
    }
  }

  lemma PairsStep(five: char, ten: char, a: nat, rest: string)
    requires a >= 2
    requires ReplaceAll(Rep(five, a - 2) + rest, [five, five], [ten])
             == Rep(ten, (a - 2) / 2) + Rep(five, (a - 2) % 2) + rest
    ensures ReplaceAll(Rep(five, a) + rest, [five, five], [ten])
            == Rep(ten, a / 2) + Rep(five, a % 2) + rest
  {
    var u := Rep(five, a - 2) + rest;
    RepPair(five, a, rest);
    PairHead(five, ten, u);
    assert (a - 2) / 2 == a / 2 - 1 && (a - 2) % 2 == a % 2;
    RepFront(ten, a / 2 - 1, Rep(five, a % 2) + rest);
  }

  lemma RepPair(c: char, a: nat, rest: string)
    requires a >= 2
    ensures Rep(c, a) + rest == [c, c] + (Rep(c, a - 2) + rest)
  {
    RepSplit(c, 2, a - 2);
    assert Rep(c, 2) == [c, c];
  }

  lemma RepFront(c: char, h: nat, rest: string)
    ensures [c] + (Rep(c, h) + rest) == Rep(c, h + 1) + rest
  {
    assert Rep(c, h + 1) == [c] + Rep(c, h);
  }

  lemma PairHead(five: char, ten: char, u: string)
    ensures ReplaceAll([five, five] + u, [five, five], [ten]) == [ten] + ReplaceAll(u, [five, five], [ten])
  {
    var s := [five, five] + u;
    assert s[..2] == [five, five];
    assert s[2..] == u;
  }

  lemma NineBecomesSubtractive(one: char, five: char, ten: char, a: nat, b: nat)
    requires one != five && one != ten && five != ten && b < 5
    ensures ReplaceAll(Rep(ten, a / 2) + Rep(five, a % 2) + Tail(one, five, b), [five, one, five], [one, ten])
            == Rep(ten, a / 2) + Digit(5 * (a % 2) + b, one, five, ten)
  {
    var t := [five, one, five];
    var u := [one, ten];
    var tail := Tail(one, five, b);
    var rest := Rep(five, a % 2) + tail;
    assert Rep(ten, a / 2) + Rep(five, a % 2) + tail == Rep(ten, a / 2) + rest;
    ReplaceSkipsPrefix(Rep(ten, a / 2), rest, t, u);
    if a % 2 == 1 {
      assert Rep(five, 1) == [five];
      NineOdd(one, five, ten, b);
    } else {
      assert rest == tail;
      NineEven(one, five, ten, b);
    }
  }

  /** After a `five`, the tail becomes the digit `5 + b`; with four ones
      that is the subtractive nine. */
  lemma NineOdd(one: char, five: char, ten: char, b: nat)
    requires one != five && one != ten && five != ten && b < 5
    ensures ReplaceAll([five] + Tail(one, five, b), [five, one, five], [one, ten]) == Digit(5 + b, one, five, ten)
  {
    var t := [five, one, five];
    var u := [one, ten];
    var rest := [five] + Tail(one, five, b);
    if b == 4 {
      assert rest == t;
      assert ReplaceAll(t, t, u) == u + ReplaceAll([], t, u);
    } else {
      assert rest == [five] + Rep(one, b);
      if |rest| >= 3 {
        assert rest[..3] != t by { assert rest[2] == one; }
      }
      ReplaceInert(Rep(one, b), t, u);
      assert rest[1..] == Rep(one, b);
      assert b == 0 ==> rest == [five];
      assert b == 1 ==> rest == [five, one];
      assert b == 2 ==> rest == [five, one, one];
      assert b == 3 ==> rest == [five, one, one, one];
    }
  }

  /** Without a `five` before it, the tail is already the digit `b`. */
  lemma NineEven(one: char, five: char, ten: char, b: nat)
    requires one != five && one != ten && five != ten && b < 5
    ensures ReplaceAll(Tail(one, five, b), [five, one, five], [one, ten]) == Digit(b, one, five, ten)
  {
    var tail := Tail(one, five, b);
    ReplaceInert(tail, [five, one, five], [one, ten]);
    assert b == 1 ==> tail == [one];
    assert b == 2 ==> tail == [one, one];
    assert b == 3 ==> tail == [one, one, one];
  }

  /** One place's four replacements turn a run of `m` ones into `m / 10` tens
      followed by the standard digit for `m % 10`. */
  lemma StageOnRun(one: char, five: char, ten: char, m: nat)
    requires one != five && one != ten && five != ten
    ensures Stage(Rep(one, m), one, five, ten) == Rep(ten, m / 10) + Digit(m % 10, one, five, ten)
  {
    var a, b := m / 5, m % 5;
    FivesCollapse(one, five, m);
    FourBecomesSubtractive(one, five, a, b);
    PairsOfFives(one, five, ten, a, b);
    NineBecomesSubtractive(one, five, ten, a, b);
    assert a / 2 == m / 10 && 5 * (a % 2) + b == m % 10;
  }

  /** A text that none of a place's four replacements touch. */
  predicate Inert(s: string, one: char, five: char, ten: char) {
    && ReplaceAll(s, [one, one, one, one, one], [five]) == s
    && ReplaceAll(s, [one, one, one, one], [one, five]) == s
    && ReplaceAll(s, [five, five], [ten]) == s
    && ReplaceAll(s, [five, one, five], [one, ten]) == s
  }

  /** A place's replacements leave an inert tail that starts with a lower
      symbol where it is. */
  lemma StageWithTail(p: string, tail: string, one: char, five: char, ten: char)
    requires tail == [] || (tail[0] != one && tail[0] != five)
    requires Inert(tail, one, five, ten)
    ensures Stage(p + tail, one, five, ten) == Stage(p, one, five, ten) + tail
  {
    var t1, t2, t3, t4 := [one, one, one, one, one], [one, one, one, one], [five, five], [five, one, five];
    var a := ReplaceAll(p, t1, [five]);
    ReplaceSplits(p, tail, t1, [five]);
    var b := ReplaceAll(a, t2, [one, five]);
    ReplaceSplits(a, tail, t2, [one, five]);
    var c := ReplaceAll(b, t3, [ten]);
    ReplaceSplits(b, tail, t3, [ten]);
    ReplaceSplits(c, tail, t4, [one, ten]);
  }

  lemma {:induction false} DigitInertAbove(d: int, one: char, five: char, ten: char, one2: char, five2: char, ten2: char)
    requires one2 != one && one2 != five && five2 != one && five2 != five && five2 != ten
    requires one2 == ten || one2 !in [one, five, ten]
    ensures Inert(Digit(d, one, five, ten), one2, five2, ten2)
  {
    var s := Digit(d, one, five, ten);
    assert |s| <= 4;
    assert five2 !in s;
    ReplaceInert(s, [five2, five2], [ten2]);
    ReplaceInert(s, [five2, one2, five2], [one2, ten2]);
    if one2 == ten {
      assert one2 !in s || |s| < 4;
    } else {
      assert one2 !in s;
    }
    ReplaceInert(s, [one2, one2, one2, one2, one2], [five2]);
    ReplaceInert(s, [one2, one2, one2, one2], [one2, five2]);
  }

  lemma {:induction false} InertConcat(p: string, q: string, one: char, five: char, ten: char)
    requires Inert(p, one, five, ten) && Inert(q, one, five, ten)
    requires q == [] || (q[0] != one && q[0] != five)
    ensures Inert(p + q, one, five, ten)
  {
    ReplaceSplits(p, q, [one, one, one, one, one], [five]);
    ReplaceSplits(p, q, [one, one, one, one], [one, five]);
    ReplaceSplits(p, q, [five, five], [ten]);
    ReplaceSplits(p, q, [five, one, five], [one, ten]);
  }

  /** A digit starts with its place's `one` or `five`. */
  lemma DigitHead(d: int, one: char, five: char, ten: char)
    ensures Digit(d, one, five, ten) == [] || Digit(d, one, five, ten)[0] in [one, five]
  {
  }

  /** Tens: the run of X's left by the units place becomes C's and the tens
      digit, in front of the units digit. */
  lemma {:induction false} TensPlace(n: nat)
    ensures Stage(Rep('X', n / 10) + Digit(n % 10, 'I', 'V', 'X'), 'X', 'L', 'C')
            == Rep('C', n / 100) + Digit((n / 10) % 10, 'X', 'L', 'C') + Digit(n % 10, 'I', 'V', 'X')
  {
    var d1 := Digit(n % 10, 'I', 'V', 'X');
    DigitHead(n % 10, 'I', 'V', 'X');
    DigitInertAbove(n % 10, 'I', 'V', 'X', 'X', 'L', 'C');
    StageWithTail(Rep('X', n / 10), d1, 'X', 'L', 'C');
    StageOnRun('X', 'L', 'C', n / 10);
    assert (n / 10) / 10 == n / 100;
  }

  /** The tens and units digits are untouched by the hundreds place. */
  lemma {:induction false} LowDigitsInert(n: nat)
    ensures var low := Digit((n / 10) % 10, 'X', 'L', 'C') + Digit(n % 10, 'I', 'V', 'X');
            Inert(low, 'C', 'D', 'M') && (low == [] || low[0] in "XLIV")
  {
    var d1 := Digit(n % 10, 'I', 'V', 'X');
    var d2 := Digit((n / 10) % 10, 'X', 'L', 'C');
    DigitHead(n % 10, 'I', 'V', 'X');
    DigitHead((n / 10) % 10, 'X', 'L', 'C');
    DigitInertAbove(n % 10, 'I', 'V', 'X', 'C', 'D', 'M');
    DigitInertAbove((n / 10) % 10, 'X', 'L', 'C', 'C', 'D', 'M');
    InertConcat(d2, d1, 'C', 'D', 'M');
  }

  /** Hundreds: the run of C's becomes M's and the hundreds digit, in front
      of the tens and units digits. */
  lemma HundredsPlace(n: nat)
    ensures Stage(Rep('C', n / 100) + Digit((n / 10) % 10, 'X', 'L', 'C') + Digit(n % 10, 'I', 'V', 'X'), 'C', 'D', 'M')
            == RomanReference(n)
  {
    var low := Digit((n / 10) % 10, 'X', 'L', 'C') + Digit(n % 10, 'I', 'V', 'X');
    LowDigitsInert(n);
    Regroup([], Rep('C', n / 100), Digit((n / 10) % 10, 'X', 'L', 'C'), Digit(n % 10, 'I', 'V', 'X'));
    assert [] + Rep('C', n / 100) == Rep('C', n / 100);
    StageWithTail(Rep('C', n / 100), low, 'C', 'D', 'M');
    StageOnRun('C', 'D', 'M', n / 100);
    assert (n / 100) / 10 == n / 1000;
    Regroup(Rep('M', n / 1000), Digit((n / 100) % 10, 'C', 'D', 'M'),
            Digit((n / 10) % 10, 'X', 'L', 'C'), Digit(n % 10, 'I', 'V', 'X'));
  }

  lemma Regroup(a: string, b: string, c: string, d: string)
    ensures a + b + (c + d) == a + b + c + d
  {
  }

  /** The twelve replacements of `toRoman` produce exactly the standard
      numeral. */
  lemma {:induction false} ToRomanIsStandard(n: nat)
    requires n > 0
    ensures Stage(Stage(Stage(Rep('I', n), 'I', 'V', 'X'), 'X', 'L', 'C'), 'C', 'D', 'M')
            == RomanReference(n)
  {
    StageOnRun('I', 'V', 'X', n);
    TensPlace(n);
    HundredsPlace(n);
  }
}

/** The Bed Wars team-upgrade tracker for traps: a queue of at most a few trap
    kinds, fed by chat messages (a purchase, a trap going off, a trap removed
    from the queue), with the price of the next trap read off its length. */
module Traps {
  import opened Base

  datatype TrapType = ItsATrap | CounterOffensive | Alarm | MinerFatigue

  /** The capture groups of a matched chat line: the first group, and the
      second one when the pattern has one (only the "removed from the queue"
      pattern does). */
  datatype TrapMatch = TrapMatch(group1: string, group2: Option<string>)

  /** The queue is full at this many traps. */
  const MaxTraps := 3

  // ---------------------------------------------------------------------------
  // Trap kinds
  // ---------------------------------------------------------------------------

  /** `TrapType.getFuzzy`: the kind named somewhere in a message, ignoring case;
      "miner" wins over "alarm", which wins over "counter"; anything else is the
      plain trap. */
  function GetFuzzy(s: string): (t: TrapType)
    ensures t == MinerFatigue <==> Contains(LowerStr(s), "miner")
    ensures t == Alarm <==> !Contains(LowerStr(s), "miner") && Contains(LowerStr(s), "alarm")
    ensures t == CounterOffensive <==>
      !Contains(LowerStr(s), "miner") && !Contains(LowerStr(s), "alarm") && Contains(LowerStr(s), "counter")
    ensures t == ItsATrap <==>
      !Contains(LowerStr(s), "miner") && !Contains(LowerStr(s), "alarm") && !Contains(LowerStr(s), "counter")
  {
    var l := LowerStr(s);
    if ContainsStr(l, "miner") then MinerFatigue
    else if ContainsStr(l, "alarm") then Alarm
    else if ContainsStr(l, "counter") then CounterOffensive
    else ItsATrap
  }

  lemma LowerUpperChar(c: char)
    ensures ToLower(ToUpper(c)) == ToLower(c)
  {
  }

  lemma {:induction false} LowerOfUpper(s: string)
    ensures LowerStr(UpperStr(s)) == LowerStr(s)
  {
    forall i | 0 <= i < |s|
      ensures LowerStr(UpperStr(s))[i] == LowerStr(s)[i]
    {
      LowerUpperChar(s[i]);
    }
  }

  /** Shouting a trap's name does not change which trap it names. */
  lemma {:induction false} FuzzyIgnoresCase(s: string)
    ensures GetFuzzy(UpperStr(s)) == GetFuzzy(s)
    ensures GetFuzzy(LowerStr(s)) == GetFuzzy(s)
  {
    LowerOfUpper(s);
    LowerTwice(s);
  }

  lemma {:induction false} LowerTwice(s: string)
    ensures LowerStr(LowerStr(s)) == LowerStr(s)
  {
    forall i | 0 <= i < |s|
      ensures LowerStr(LowerStr(s))[i] == LowerStr(s)[i]
    {
    }
  }

  lemma FuzzyMiner()
    ensures GetFuzzy("Miner") == MinerFatigue
  {
    var l := LowerStr("Miner");
    assert l == "miner";
    assert OccursAt(l, "miner", 0);
  }

  lemma FuzzyAlarm()
    ensures GetFuzzy("ALARM") == Alarm
  {
    var l := LowerStr("ALARM");
    assert l == "alarm";
    assert OccursAt(l, "alarm", 0);
    NoOccurrence(l, "miner", 1);
  }

  /** "Trap" holds none of the key words, so it names the plain trap. */
  lemma FuzzyPlain()
    ensures GetFuzzy("Trap") == ItsATrap
  {
    var l := LowerStr("Trap");
    assert l == "trap";
    NoOccurrence(l, "miner", 0);
    NoOccurrence(l, "alarm", 1);
    NoOccurrence(l, "counter", 0);
  }

  /** A pattern with a letter that does not occur in a text does not occur in it. */
  lemma NoOccurrence(s: string, sub: string, j: int)
    requires 0 <= j < |sub| && sub[j] !in s
    ensures !Contains(s, sub)
  {
    forall i | 0 <= i <= |s| - |sub|
      ensures !OccursAt(s, sub, i)
    {
      assert s[i..i + |sub|][j] == s[i + j];
    }
  }

  // ---------------------------------------------------------------------------
  // The queue
  // ---------------------------------------------------------------------------

  /** `onMatch`. A trap going off removes the oldest one, which fails on an
      empty queue (the list removal throws); a "removed from the queue"
      message drops the first trap of that kind; a purchase appends. */
  function OnMatch(q: seq<TrapType>, m: TrapMatch): (r: Result<seq<TrapType>, string>)
    ensures m.group1 == "off" ==> (r.Err? <==> |q| == 0)
    ensures m.group1 == "off" && |q| > 0 ==> r == Ok(q[1..])
    ensures m.group1 != "off" && m.group2 == Some("queue") ==>
      r.Ok? && multiset(r.value) == multiset(q) - multiset{GetFuzzy(m.group1)}
    ensures m.group1 != "off" && m.group2 != Some("queue") ==>
      r == Ok(q + [GetFuzzy(m.group1)])
  {
    if m.group1 == "off" then
      if |q| == 0 then Err("IndexOutOfBoundsException") else Ok(q[1..])
    else
      var t := GetFuzzy(m.group1);
      if m.group2 == Some("queue") then
        RemoveFirstMultiset(q, t);
        Ok(RemoveFirst(q, t))
      else Ok(q + [t])
  }

  /** A purchase followed by the matching trap going off with nothing queued
      before it leaves the queue empty again; the queue is first in, first out. */
  lemma PurchaseThenOff(name: string)
    requires name != "off"
    ensures var p := OnMatch([], TrapMatch(name, None));
      p.Ok? && OnMatch(p.value, TrapMatch("off", None)) == Ok([])
  {
    var t := GetFuzzy(name);
    var m := TrapMatch(name, None);
    assert m.group1 != "off" && m.group2 != Some("queue");
    var e: seq<TrapType> := [];
    assert e + [t] == [t];
    assert OnMatch(e, m) == Ok([t]);
    assert [t][1..] == [];
  }

  /** Purchasing then removing the same kind from the queue restores the queue
      when no trap of that kind was queued before. */
  lemma PurchaseThenRemove(q: seq<TrapType>, name: string, other: string)
    requires name != "off" && other != "off"
    requires GetFuzzy(name) == GetFuzzy(other) && GetFuzzy(name) !in q
    ensures var p := OnMatch(q, TrapMatch(name, None));
      p.Ok? && OnMatch(p.value, TrapMatch(other, Some("queue"))) == Ok(q)
  {
    var t := GetFuzzy(name);
    assert OnMatch(q, TrapMatch(name, None)) == Ok(q + [t]);
    assert GetFuzzy(other) == t;
    assert (q + [t])[..|q|] == q;
    RemoveFirstSplits(q + [t], t, |q|);
    assert (q + [t])[|q| + 1..] == [];
    assert q + [] == q;
  }

  // ---------------------------------------------------------------------------
  // Purchase state
  // ---------------------------------------------------------------------------

  /** `canPurchase`: another trap can be bought exactly when buying one,
      whatever its name, keeps the queue within `MaxTraps`. */
  function CanPurchase(q: seq<TrapType>): (b: bool)
    ensures b <==> forall name :: name != "off" ==> |OnMatch(q, TrapMatch(name, None)).value| <= MaxTraps
  {
    var probe := TrapMatch("trap", None);
    assert probe.group1 != "off";
    assert |OnMatch(q, probe).value| == |q| + 1;
    |q| < MaxTraps
  }

  /** `isPurchased`: some trap is queued exactly when one going off can be
      handled. */
  function IsPurchased(q: seq<TrapType>): (b: bool)
    ensures b <==> OnMatch(q, TrapMatch("off", None)).Ok?
  {
    |q| != 0
  }

  function Pow2(n: nat): (p: nat)
    ensures p >= 1
  {
    if n == 0 then 1 else 2 * Pow2(n - 1)
  }

  /** `getPrice`: the next trap costs 1, 2, then 4 diamonds, doubling with each
      queued trap while one can still be bought, and nothing once the queue is
      full. */
  function GetPrice(q: seq<TrapType>): (price: int)
    ensures CanPurchase(q) ==> price == Pow2(|q|)
    ensures !CanPurchase(q) ==> price == 0
    ensures price > 0 <==> CanPurchase(q)
  {
    match |q|
    case 0 => 1
    case 1 => 2
    case 2 => 4
    case _ => 0
  }

  /** Each purchase into a non-full queue doubles the price of the next one. */
  lemma PriceDoubles(q: seq<TrapType>, name: string)
    requires name != "off" && |q| + 1 < MaxTraps
    ensures var p := OnMatch(q, TrapMatch(name, None));
      p.Ok? && GetPrice(p.value) == 2 * GetPrice(q)
  {
  }
}

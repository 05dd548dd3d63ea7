/** The feature disabler: some options are forced off on servers that ban
    them, recognised by a server name inside the joined address (ignoring
    letter case); a server can also force features off by name over its
    own channel, and leaving a server lifts every ban. */
module FeatureDisabler {
  import opened Base

  /** The options the disabler may force off. */
  datatype Feature = FullBright | LowFire | Freelook | ToggleSneak | TimeChanger

  /** A ban rule: the option, the server names that ban it, and whether the
      ban also needs the option's own condition (freelook's
      `needsDisabling`, which is given). */
  datatype Rule = Rule(option: Feature, servers: seq<string>, conditional: bool)

  /** The rules `init` registers. */
  const Rules: seq<Rule> := [
    Rule(FullBright, ["gommehd"], false),
    Rule(LowFire, ["gommehd"], false),
    Rule(Freelook, ["hypixel", "mineplex", "gommehd", "nucleoid", "mccisland"], true),
    Rule(ToggleSneak, ["hypixel"], false)
  ]

  /** The features a server may force off by name. */
  const FeatureNames: seq<string> := ["freelook", "timechanger", "lowfire", "fullbright"]
  const Features: seq<Feature> := [Freelook, TimeChanger, LowFire, FullBright]

  /** The joined address and the options currently forced off. */
  datatype State = State(address: string, forced: set<Feature>)

  /** A `setForceOff` call on an option. */
  datatype Call = SetForceOff(option: Feature, off: bool)

  /** Each rule names a different option (they are the keys of a map). */
  ghost predicate DistinctOptions(rules: seq<Rule>) {
    forall i, j :: 0 <= i < j < |rules| ==> rules[i].option != rules[j].option
  }

  lemma RulesDistinct()
    ensures DistinctOptions(Rules)
  {
  }

  /** A server name matches when the lower-cased address contains it
      lower-cased. */
  predicate Matches(address: string, server: string) {
    Contains(LowerStr(address), LowerStr(server))
  }

  /** The loop of `disableOption`: the first server name that matches. */
  function FirstMatch(address: string, servers: seq<string>): (r: Option<nat>)
    ensures r.Some? ==> r.value < |servers| && Matches(address, servers[r.value])
    ensures r.Some? ==> forall j :: 0 <= j < r.value ==> !Matches(address, servers[j])
    ensures r.None? <==> forall j :: 0 <= j < |servers| ==> !Matches(address, servers[j])
  {
    if |servers| == 0 then None
    else if ContainsStr(LowerStr(address), LowerStr(servers[0])) then Some(0)
    else
      match FirstMatch(address, servers[1..])
      case None => None
      case Some(k) => Some(k + 1)
  }

  /** Whether an option is banned on an address: some server name of its rule
      matches and its condition holds. */
  predicate Banned(address: string, rule: Rule, condition: bool) {
    (exists j :: 0 <= j < |rule.servers| && Matches(address, rule.servers[j]))
    && (!rule.conditional || condition)
  }

  /** `disableOption`: find the first matching name; the ban is the rule's
      condition then, none otherwise; the option is forced to the ban only
      when that changes it. */
  function DisableOption(st: State, rule: Rule, condition: bool): (r: (State, seq<Call>))
    ensures r.0.address == st.address
    ensures rule.option in r.0.forced <==> Banned(st.address, rule, condition)
    ensures forall f :: f != rule.option ==> (f in r.0.forced <==> f in st.forced)
    ensures r.1 == [] <==> (rule.option in st.forced <==> Banned(st.address, rule, condition))
    ensures r.1 != [] ==> r.1 == [SetForceOff(rule.option, Banned(st.address, rule, condition))]
  {
    var ban := match FirstMatch(st.address, rule.servers)
               case None => false
               case Some(_) => !rule.conditional || condition;
    if (rule.option in st.forced) == ban then (st, [])
    else if ban then (st.(forced := st.forced + {rule.option}), [SetForceOff(rule.option, true)])
    else (st.(forced := st.forced - {rule.option}), [SetForceOff(rule.option, false)])
  }

  /** `update`: every rule, one after the other. */
  function Update(st: State, rules: seq<Rule>, condition: bool): (r: (State, seq<Call>))
    requires DistinctOptions(rules)
    ensures r.0.address == st.address
    ensures forall i :: 0 <= i < |rules| ==> (rules[i].option in r.0.forced <==> Banned(st.address, rules[i], condition))
    ensures forall f :: (forall i :: 0 <= i < |rules| ==> rules[i].option != f) ==> (f in r.0.forced <==> f in st.forced)
    decreases |rules|
  {
    if |rules| == 0 then (st, [])
    else
      var (s1, c1) := DisableOption(st, rules[0], condition);
      var (s2, c2) := Update(s1, rules[1..], condition);
      assert forall i :: 1 <= i < |rules| ==> rules[i] == rules[1..][i - 1];
      (s2, c1 + c2)
  }

  /** `onServerJoin`: remember the address, then apply every rule to it. */
  function OnServerJoin(st: State, address: string, condition: bool): (r: (State, seq<Call>))
    ensures r.0.address == address
    ensures forall i :: 0 <= i < |Rules| ==> (Rules[i].option in r.0.forced <==> Banned(address, Rules[i], condition))
    ensures TimeChanger in r.0.forced <==> TimeChanger in st.forced
  {
    RulesDistinct();
    Update(st.(address := address), Rules, condition)
  }

  /** `clear`, on leaving a server: every listed option and every
      server-controllable feature is un-forced; the address is kept. */
  function Clear(st: State): (r: State)
    ensures r.address == st.address
    ensures forall f :: f !in r.forced
  {
    st.(forced := {})
  }

  /** The feature a name stands for, if it names one. */
  function Named(name: string): (r: Option<Feature>)
    ensures r.Some? <==> name in FeatureNames
    ensures forall i :: 0 <= i < |FeatureNames| && FeatureNames[i] == name ==> r == Some(Features[i])
  {
    var k := IndexOf(FeatureNames, name);
    if k >= 0 then Some(Features[k]) else None
  }

  /** Some name of the payload stands for `f`. */
  ghost predicate NamedIn(names: seq<string>, f: Feature) {
    exists i :: 0 <= i < |names| && Named(names[i]) == Some(f)
  }

  lemma NamedInCons(names: seq<string>, f: Feature)
    requires |names| > 0
    ensures NamedIn(names, f) <==> Named(names[0]) == Some(f) || NamedIn(names[1..], f)
  {
    var p := n => Named(n) == Some(f);
    ExistsCons(names, p);
    assert NamedIn(names, f) <==> exists i :: 0 <= i < |names| && p(names[i]);
    assert NamedIn(names[1..], f) <==> exists i :: 0 <= i < |names[1..]| && p(names[1..][i]);
  }

  /** Some element satisfies `p` when the head does or some element of the
      tail does. */
  lemma ExistsCons<A>(xs: seq<A>, p: A -> bool)
    requires |xs| > 0
    ensures (exists i :: 0 <= i < |xs| && p(xs[i])) <==> p(xs[0]) || exists i :: 0 <= i < |xs[1..]| && p(xs[1..][i])
  {
    if exists i :: 0 <= i < |xs[1..]| && p(xs[1..][i]) {
      var i :| 0 <= i < |xs[1..]| && p(xs[1..][i]);
      assert xs[i + 1] == xs[1..][i];
    }
    if exists i :: 0 <= i < |xs| && p(xs[i]) {
      var i :| 0 <= i < |xs| && p(xs[i]);
      if i > 0 {
        assert xs[1..][i - 1] == xs[i];
      }
    }
  }

  /** The channel's payload: each name of a known feature forces it off; an
      unknown name is skipped (the lookup fails and is logged). */
  function ReceiveFeatures(st: State, names: seq<string>): (r: State)
    ensures r.address == st.address
    ensures forall f :: f in r.forced <==> f in st.forced || NamedIn(names, f)
    decreases |names|
  {
    if |names| == 0 then st
    else
      var s1 := match Named(names[0])
                case Some(f) => st.(forced := st.forced + {f})
                case None => st;
      var r := ReceiveFeatures(s1, names[1..]);
      assert forall f :: NamedIn(names, f) <==> Named(names[0]) == Some(f) || NamedIn(names[1..], f) by {
        forall f ensures NamedIn(names, f) <==> Named(names[0]) == Some(f) || NamedIn(names[1..], f) {
          NamedInCons(names, f);
        }
      }
      r
  }

  // ---------------------------------------------------------------------------
  // Properties
  // ---------------------------------------------------------------------------

  /** Updating twice is updating once, and the second pass calls nothing. */
  lemma UpdateIdempotent(st: State, rules: seq<Rule>, condition: bool)
    requires DistinctOptions(rules)
    ensures var (s1, _) := Update(st, rules, condition);
      Update(s1, rules, condition) == (s1, [])
  {
    UpdateFixed(Update(st, rules, condition).0, rules, condition);
  }

  /** An update of a state the rules already agree with changes nothing. */
  lemma {:induction false} UpdateFixed(st: State, rules: seq<Rule>, condition: bool)
    requires DistinctOptions(rules)
    requires forall i :: 0 <= i < |rules| ==> (rules[i].option in st.forced <==> Banned(st.address, rules[i], condition))
    ensures Update(st, rules, condition) == (st, [])
    decreases |rules|
  {
    if |rules| > 0 {
      var (s1, c1) := DisableOption(st, rules[0], condition);
      assert s1 == st && c1 == [];
      assert DistinctOptions(rules[1..]);
      assert forall i :: 0 <= i < |rules[1..]| ==> rules[1..][i] == rules[i + 1];
      UpdateFixed(st, rules[1..], condition);
      var rest := Update(st, rules[1..], condition);
      assert rest == (st, []);
      assert Update(st, rules, condition) == (rest.0, c1 + rest.1);
      assert c1 + rest.1 == [];
    }
  }

  /** The order the rules are visited in (a hash map's) does not matter. */
  lemma {:induction false} UpdateOrderFree(st: State, a: seq<Rule>, b: seq<Rule>, condition: bool)
    requires DistinctOptions(a) && DistinctOptions(b)
    requires multiset(a) == multiset(b)
    ensures Update(st, a, condition).0 == Update(st, b, condition).0
  {
    var ra := Update(st, a, condition).0;
    var rb := Update(st, b, condition).0;
    forall f
      ensures f in ra.forced <==> f in rb.forced
    {
      if i :| 0 <= i < |a| && a[i].option == f {
        assert a[i] in multiset(b);
        var j :| 0 <= j < |b| && b[j] == a[i];
      } else {
        forall j | 0 <= j < |b|
          ensures b[j].option != f
        {
          assert b[j] in multiset(a);
        }
      }
    }
  }

  /** The letter case of the address does not matter. */
  lemma CaseDoesNotMatter(address: string, rule: Rule, condition: bool)
    ensures Banned(UpperStr(address), rule, condition) == Banned(address, rule, condition)
  {
    var u := UpperStr(address);
    forall i | 0 <= i < |address|
      ensures LowerStr(u)[i] == LowerStr(address)[i]
    {
    }
    assert LowerStr(u) == LowerStr(address);
  }

  /** A server naming a feature forces exactly that feature off. */
  lemma NamedFeatureForced(st: State, i: int)
    requires 0 <= i < |FeatureNames|
    ensures ReceiveFeatures(st, [FeatureNames[i]]).forced == st.forced + {Features[i]}
  {
    var names := [FeatureNames[i]];
    assert Named(names[0]) == Some(Features[i]);
    forall f ensures NamedIn(names, f) <==> f == Features[i] {
      NamedInCons(names, f);
      assert !NamedIn(names[1..], f);
    }
  }
}

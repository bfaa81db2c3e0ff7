/** Host isolation: the containment table and the poll loop that installs and removes it. */
module Containment {
  import opened Text
  import opened Nft
  import opened Blocklist

  const TABLE := "deuswatch_containment"

  // ---------------------------------------------------------------- the ruleset

  function InputRules(): seq<Rule> {
    [Rule(IifLo, Accept), Rule(Established, Accept), Rule(IpSaddr("allow4"), Accept), Rule(Ip6Saddr("allow6"), Accept)]
  }

  function OutputRules(): seq<Rule> {
    [Rule(OifLo, Accept), Rule(Established, Accept), Rule(IpDaddr("allow4"), Accept), Rule(Ip6Daddr("allow6"), Accept)]
  }

  function Chains(): map<string, Chain> {
    map["input" := Chain(Input, -150, Drop, InputRules()),
        "output" := Chain(Output, -150, Drop, OutputRules()),
        "forward" := Chain(Forward, -150, Drop, [])]
  }

  /** The table that lets through exactly the given addresses. */
  function IsolationTable(allowed: set<Addr>): Table {
    Table(map["allow4" := AddrSet(Ipv4Addr, set a | a in allowed && a.V4?),
              "allow6" := AddrSet(Ipv6Addr, set a | a in allowed && a.V6?)],
          Chains())
  }

  /** ApplyIsolation's script: it installs the isolation table over any prior state. */
  method IsolationScript(allowIPs: seq<string>, parse: Parser) returns (script: seq<Command>)
    ensures forall rs :: Transaction(rs, script) == Some(rs[TABLE := IsolationTable(Listed(allowIPs, parse))])
  {
    var v4, v6 := SplitBlockIPs(allowIPs, parse);
    var decls := [SetDecl("allow4", Ipv4Addr, v4), SetDecl("allow6", Ipv6Addr, v6)];
    decls := decls + [ChainDecl("input", Chain(Input, -150, Drop, InputRules()))];
    decls := decls + [ChainDecl("output", Chain(Output, -150, Drop, OutputRules()))];
    decls := decls + [ChainDecl("forward", Chain(Forward, -150, Drop, []))];
    script := Replace(TABLE, decls);
    DeclaresIsolation(v4, v6, Listed(allowIPs, parse));
    forall rs ensures Transaction(rs, script) == Some(rs[TABLE := IsolationTable(Listed(allowIPs, parse))]) {
      ReplaceInstalls(rs, TABLE, decls);
    }
  }

  lemma DeclaresIsolation(v4: seq<Addr>, v6: seq<Addr>, allowed: set<Addr>)
    requires Elements(v4) + Elements(v6) == allowed
    requires (forall a :: a in v4 ==> a.V4?) && (forall a :: a in v6 ==> a.V6?)
    ensures DeclareAll(EMPTY, [SetDecl("allow4", Ipv4Addr, v4), SetDecl("allow6", Ipv6Addr, v6)]
        + [ChainDecl("input", Chain(Input, -150, Drop, InputRules()))]
        + [ChainDecl("output", Chain(Output, -150, Drop, OutputRules()))]
        + [ChainDecl("forward", Chain(Forward, -150, Drop, []))]) == Some(IsolationTable(allowed))
  {
    var c1, c2, c3 := Chain(Input, -150, Drop, InputRules()), Chain(Output, -150, Drop, OutputRules()), Chain(Forward, -150, Drop, []);
    var d1, d2 := SetDecl("allow4", Ipv4Addr, v4), SetDecl("allow6", Ipv6Addr, v6);
    var d3, d4, d5 := ChainDecl("input", c1), ChainDecl("output", c2), ChainDecl("forward", c3);
    var names: seq<string> := ["allow4", "allow6", "input", "output", "forward"];
    assert names[0][5] != names[1][5] && names[2][0] != names[3][0] && names[2][0] != names[4][0] && names[3][0] != names[4][0];
    var t1 := Table(map["allow4" := AddrSet(Ipv4Addr, Elements(v4))], map[]);
    var t2 := t1.(sets := t1.sets["allow6" := AddrSet(Ipv6Addr, Elements(v6))]);
    var t3 := t2.(chains := map["input" := c1]);
    var t4 := t3.(chains := t3.chains["output" := c2]);
    var t5 := t4.(chains := t4.chains["forward" := c3]);
    assert DeclareAll(t4, [d5]) == DeclareAll(t5, []) by { assert [d5][1..] == []; }
    assert DeclareAll(t3, [d4, d5]) == DeclareAll(t4, [d5]) by { assert [d4, d5][1..] == [d5]; }
    assert DeclareAll(t2, [d3, d4, d5]) == DeclareAll(t3, [d4, d5]) by { assert [d3, d4, d5][1..] == [d4, d5]; }
    assert DeclareAll(t1, [d2, d3, d4, d5]) == DeclareAll(t2, [d3, d4, d5]) by { assert [d2, d3, d4, d5][1..] == [d3, d4, d5]; }
    assert DeclareAll(EMPTY, [d1, d2, d3, d4, d5]) == DeclareAll(t1, [d2, d3, d4, d5]) by { assert [d1, d2, d3, d4, d5][1..] == [d2, d3, d4, d5]; }
    assert [d1, d2] + [d3] + [d4] + [d5] == [d1, d2, d3, d4, d5];
    assert Elements(v4) == set a | a in allowed && a.V4?;
    assert Elements(v6) == set a | a in allowed && a.V6?;
    assert t5.chains == Chains();
  }

  lemma IsolationSets(allowed: set<Addr>, a: Addr)
    ensures InSet(IsolationTable(allowed), "allow4", a) <==> a in allowed && a.V4?
    ensures InSet(IsolationTable(allowed), "allow6", a) <==> a in allowed && a.V6?
  {
    var names: seq<string> := ["allow4", "allow6"];
    assert names[0][5] != names[1][5];
  }

  /** One chain on each hook. */
  lemma IsolationChains(allowed: set<Addr>, p: Packet)
    ensures var t := IsolationTable(allowed);
      && (Passes(t, Input, p) <==> Judge(t, InputRules(), Drop, p) == Accept)
      && (Passes(t, Output, p) <==> Judge(t, OutputRules(), Drop, p) == Accept)
      && !Passes(t, Forward, p)
  {
    var t := IsolationTable(allowed);
    var names: seq<string> := ["input", "output", "forward"];
    assert names[0][0] != names[1][0] && names[0][0] != names[2][0] && names[1][0] != names[2][0];
    assert t.chains.Keys == {"input", "output", "forward"};
    assert t.chains["input"].rules == InputRules() && t.chains["output"].rules == OutputRules();
    assert "forward" in t.chains && Judge(t, [], Drop, p) == Drop;
  }

  /** Isolation lets through loopback, known connections and the allowed peers, and nothing else. */
  lemma IsolatesExactly(allowed: set<Addr>, p: Packet)
    ensures Passes(IsolationTable(allowed), Input, p) <==> p.loIn || p.known || p.src in allowed
    ensures Passes(IsolationTable(allowed), Output, p) <==> p.loOut || p.known || p.dst in allowed
    ensures !Passes(IsolationTable(allowed), Forward, p)
  {
    var t := IsolationTable(allowed);
    IsolationChains(allowed, p);
    IsolationSets(allowed, p.src);
    IsolationSets(allowed, p.dst);
    JudgeFour(t, InputRules(), p);
    JudgeFour(t, OutputRules(), p);
  }

  lemma JudgeFour(t: Table, rules: seq<Rule>, p: Packet)
    requires |rules| == 4 && forall i :: 0 <= i < 4 ==> rules[i].verdict == Accept
    ensures Judge(t, rules, Drop, p) == Accept <==>
      Matches(t, rules[0].cond, p) || Matches(t, rules[1].cond, p) || Matches(t, rules[2].cond, p) || Matches(t, rules[3].cond, p)
  {
    var r1, r2, r3 := rules[1..], rules[2..], rules[3..];
    assert r1[1..] == r2 && r2[1..] == r3 && r3[1..] == [];
    assert Judge(t, r3, Drop, p) == if Matches(t, rules[3].cond, p) then Accept else Drop;
    assert Judge(t, r2, Drop, p) == if Matches(t, rules[2].cond, p) then Accept else Judge(t, r3, Drop, p);
    assert Judge(t, r1, Drop, p) == if Matches(t, rules[1].cond, p) then Accept else Judge(t, r2, Drop, p);
  }

  // ---------------------------------------------------------------- the poll loop

  /** One tick: the fetch fails, or it brings a directive. applyOk and clearOk say whether nft, if
      it is called, succeeds. */
  datatype Event = FetchFails | Directive(isolate: bool, allowIPs: seq<string>, applyOk: bool, clearOk: bool)

  /** isolated and lastKey are the loop's variables and rules the kernel's ruleset. installed is
      history: the list the containment table in the kernel was built from, if it is there. */
  datatype State = State(isolated: bool, lastKey: string, rules: Ruleset, installed: Option<seq<string>>)

  function Key(allow: seq<string>): string { Join(allow, ",") }

  function Next(s: State, gateway: seq<string>, e: Event, parse: Parser): State {
    match e
    case FetchFails => s
    case Directive(isolate, allowIPs, applyOk, clearOk) =>
      if isolate then
        var allow := gateway + allowIPs;
        if (s.isolated && Key(allow) == s.lastKey) || !applyOk then s
        else State(true, Key(allow), s.rules[TABLE := IsolationTable(Listed(allow, parse))], Some(allow))
      else if s.isolated then
        if clearOk then State(false, "", s.rules - {TABLE}, None) else State(false, "", s.rules, s.installed)
      else s
  }

  function After(s: State, gateway: seq<string>, events: seq<Event>, parse: Parser): State {
    if events == [] then s
    else Next(After(s, gateway, events[..|events| - 1], parse), gateway, events[|events| - 1], parse)
  }

  /** The loop. A failed clear is not noticed: its error is ignored and the flag is reset anyway. */
  method RunContainment(s0: State, gateway: seq<string>, events: seq<Event>, parse: Parser) returns (s: State)
    ensures s == After(s0, gateway, events, parse)
  {
    var isolated, lastKey, rules, installed := s0.isolated, s0.lastKey, s0.rules, s0.installed;
    for i := 0 to |events|
      invariant State(isolated, lastKey, rules, installed) == After(s0, gateway, events[..i], parse)
    {
      assert events[..i + 1][..i] == events[..i];
      match events[i] {
        case FetchFails => continue;
        case Directive(isolate, allowIPs, applyOk, clearOk) =>
          if isolate {
            var allow := gateway + allowIPs;
            var key := Join(allow, ",");
            if isolated && key == lastKey { continue; }
            var script := IsolationScript(allow, parse);
            if !applyOk { continue; }
            rules, installed := Transaction(rules, script).value, Some(allow);
            isolated, lastKey := true, key;
          } else if isolated {
            if clearOk { rules, installed := rules - {TABLE}, None; }
            isolated, lastKey := false, "";
          }
      }
    }
    assert events[..|events|] == events;
    return State(isolated, lastKey, rules, installed);
  }

  // ---------------------------------------------------------------- what every run keeps

  ghost predicate Inv(s: State, gateway: seq<string>, parse: Parser) {
    && (s.installed.None? <==> TABLE !in s.rules)
    && (s.installed.Some? ==>
         gateway <= s.installed.value && s.rules[TABLE] == IsolationTable(Listed(s.installed.value, parse)))
    && (s.isolated ==> s.installed.Some? && s.lastKey == Key(s.installed.value))
    && (!s.isolated ==> s.lastKey == "")
  }

  /** A start with nothing installed. */
  ghost predicate Unisolated(s: State) {
    !s.isolated && s.lastKey == "" && s.installed.None? && TABLE !in s.rules
  }

  lemma {:induction false} RunInv(s: State, gateway: seq<string>, events: seq<Event>, parse: Parser)
    requires Inv(s, gateway, parse)
    ensures Inv(After(s, gateway, events, parse), gateway, parse)
    ensures After(s, gateway, events, parse).rules - {TABLE} == s.rules - {TABLE}
  {
    if events != [] {
      RunInv(s, gateway, events[..|events| - 1], parse);
    }
  }

  /** The gateway's addresses stay reachable in every reachable state, whatever fails. */
  lemma GatewayStaysReachable(s: State, gateway: seq<string>, events: seq<Event>, parse: Parser, g: string, p: Packet)
    requires Unisolated(s) && g in gateway && parse(g).Some?
    ensures var t := After(s, gateway, events, parse);
      TABLE in t.rules ==>
        (p.dst == parse(g).value ==> Passes(t.rules[TABLE], Output, p))
        && (p.src == parse(g).value ==> Passes(t.rules[TABLE], Input, p))
  {
    RunInv(s, gateway, events, parse);
    var t := After(s, gateway, events, parse);
    if TABLE in t.rules {
      var i :| 0 <= i < |gateway| && gateway[i] == g;
      assert t.installed.value[i] == g;
      IsolatesExactly(Listed(t.installed.value, parse), p);
    }
  }

  // ---------------------------------------------------------------- does the flag tell the truth?

  /** Whether the last flag change was a clear that failed, read off the run. */
  ghost function ClearLost(s: State, gateway: seq<string>, events: seq<Event>, parse: Parser): bool {
    if events == [] then false
    else
      var n := |events| - 1;
      var before, e := After(s, gateway, events[..n], parse), events[n];
      if e.FetchFails? then ClearLost(s, gateway, events[..n], parse)
      else if !e.isolate && before.isolated then !e.clearOk
      else if e.isolate && e.applyOk then false
      else ClearLost(s, gateway, events[..n], parse)
  }

  lemma {:induction false} OrphanIffClearLost(s: State, gateway: seq<string>, events: seq<Event>, parse: Parser)
    requires Unisolated(s)
    ensures var t := After(s, gateway, events, parse);
      ClearLost(s, gateway, events, parse) <==> !t.isolated && TABLE in t.rules
  {
    if events != [] {
      var n := |events| - 1;
      RunInv(s, gateway, events[..n], parse);
      OrphanIffClearLost(s, gateway, events[..n], parse);
    }
  }

  /** The flag agrees with the kernel exactly when no failed clear is still outstanding; and then,
      with lastKey, it names the installed allow-list. */
  lemma FlagDescribesTable(s: State, gateway: seq<string>, events: seq<Event>, parse: Parser)
    requires Unisolated(s)
    ensures var t := After(s, gateway, events, parse);
      && ((t.isolated <==> TABLE in t.rules) <==> !ClearLost(s, gateway, events, parse))
      && (t.isolated ==>
           t.installed.Some? && t.lastKey == Key(t.installed.value)
           && TABLE in t.rules && t.rules[TABLE] == IsolationTable(Listed(t.installed.value, parse)))
  {
    RunInv(s, gateway, events, parse);
    OrphanIffClearLost(s, gateway, events, parse);
  }

  /** An installed table the flag does not know of, left by a failed clear or found after a restart,
      is never removed by directives to lift isolation. */
  lemma {:induction false} OrphanIsNeverLifted(s: State, gateway: seq<string>, events: seq<Event>, parse: Parser)
    requires !s.isolated && TABLE in s.rules
    requires forall i :: 0 <= i < |events| ==> events[i].FetchFails? || !events[i].isolate
    ensures After(s, gateway, events, parse) == s
  {
    if events != [] {
      OrphanIsNeverLifted(s, gateway, events[..|events| - 1], parse);
    }
  }

  /** After any history, a directive to lift isolation whose nft call succeeds leaves the flag down and, if
      the flag was up, no table; other tables stay, and the list is forgotten. */
  lemma LiftRestores(s: State, gateway: seq<string>, events: seq<Event>, parse: Parser, allowIPs: seq<string>, applyOk: bool)
    requires Unisolated(s)
    ensures var before, after := After(s, gateway, events, parse), After(s, gateway, events + [Directive(false, allowIPs, applyOk, true)], parse);
      && !after.isolated && after.lastKey == ""
      && (before.isolated ==> TABLE !in after.rules && after.rules == before.rules - {TABLE})
      && (!before.isolated ==> after.rules == before.rules)
  {
    var lift := Directive(false, allowIPs, applyOk, true);
    assert (events + [lift])[..|events|] == events;
    RunInv(s, gateway, events, parse);
  }

  /** A failed fetch and a failed apply change nothing. */
  lemma FailuresChangeNothing(s: State, gateway: seq<string>, events: seq<Event>, parse: Parser, allowIPs: seq<string>, clearOk: bool)
    ensures After(s, gateway, events + [FetchFails], parse) == After(s, gateway, events, parse)
    ensures After(s, gateway, events + [Directive(true, allowIPs, false, clearOk)], parse) == After(s, gateway, events, parse)
  {
    var e := Directive(true, allowIPs, false, clearOk);
    assert (events + [FetchFails])[..|events|] == events && (events + [e])[..|events|] == events;
  }

  /** That happens: isolate, then lift while nft fails. */
  lemma FailedClearIsForgotten(parse: Parser, rules: Ruleset)
    ensures var s := State(false, "", rules - {TABLE}, None);
      var events := [Directive(true, [], true, true), Directive(false, [], true, false)];
      var t := After(s, [], events, parse);
      ClearLost(s, [], events, parse) && !t.isolated && TABLE in t.rules
  {
    var s := State(false, "", rules - {TABLE}, None);
    var e1, e2 := Directive(true, [], true, true), Directive(false, [], true, false);
    assert [e1, e2][..1] == [e1] && [e1][..0] == [];
    assert After(s, [], [], parse) == s;
    assert After(s, [], [e1], parse) == Next(s, [], e1, parse);
    OrphanIffClearLost(s, [], [e1, e2], parse);
  }

  // ---------------------------------------------------------------- is skipping by key sound?

  ghost predicate CommaFree(ss: seq<string>) {
    forall i :: 0 <= i < |ss| ==> ',' !in ss[i]
  }

  /** The key tells comma-free lists apart, except the empty list from the one blank entry. */
  lemma KeyIsInjective(a: seq<string>, b: seq<string>)
    requires CommaFree(a) && CommaFree(b) && Key(a) == Key(b)
    ensures a == b || (a == [] && b == [""]) || (a == [""] && b == [])
  {
    if a != [] { SplitJoinChar(a, ','); }
    if b != [] { SplitJoinChar(b, ','); }
    FreeOfChar("", ',');
    assert Split("", ",") == [""];
  }

  /** With comma-free addresses, a tick that orders isolation and whose nft call, if any, succeeds
      leaves exactly the ordered addresses allowed: skipping an unchanged key is sound. */
  lemma OrderedAddressesAllowed(s: State, gateway: seq<string>, e: Event, parse: Parser)
    requires Inv(s, gateway, parse) && e.Directive? && e.isolate && e.applyOk && parse("").None?
    requires CommaFree(gateway + e.allowIPs) && (s.installed.Some? ==> CommaFree(s.installed.value))
    ensures var t := Next(s, gateway, e, parse);
      t.isolated && TABLE in t.rules && t.rules[TABLE] == IsolationTable(Listed(gateway + e.allowIPs, parse))
      && t.installed.Some? && CommaFree(t.installed.value)
  {
    var allow := gateway + e.allowIPs;
    if s.isolated && Key(allow) == s.lastKey {
      KeyIsInjective(allow, s.installed.value);
      assert Listed([], parse) == Listed([""], parse);
    }
  }

  ghost predicate CommaFreeRun(gateway: seq<string>, events: seq<Event>) {
    CommaFree(gateway) && forall i :: 0 <= i < |events| && events[i].Directive? ==> CommaFree(events[i].allowIPs)
  }

  lemma {:induction false} InstalledCommaFree(s: State, gateway: seq<string>, events: seq<Event>, parse: Parser)
    requires Unisolated(s) && CommaFreeRun(gateway, events)
    ensures var t := After(s, gateway, events, parse); t.installed.Some? ==> CommaFree(t.installed.value)
  {
    if events != [] {
      var n := |events| - 1;
      InstalledCommaFree(s, gateway, events[..n], parse);
    }
  }

  /** At the end of any comma-free run whose last tick orders isolation without an nft failure, the
      installed table lets through exactly the addresses that tick asked for. */
  lemma LastOrderIsInForce(s: State, gateway: seq<string>, events: seq<Event>, e: Event, parse: Parser)
    requires Unisolated(s) && CommaFreeRun(gateway, events + [e]) && parse("").None?
    requires e.Directive? && e.isolate && e.applyOk
    ensures var t := After(s, gateway, events + [e], parse);
      t.isolated && TABLE in t.rules && t.rules[TABLE] == IsolationTable(Listed(gateway + e.allowIPs, parse))
  {
    var all := events + [e];
    assert all[..|all| - 1] == events && all[|events|] == e;
    assert forall i :: 0 <= i < |events| ==> all[i] == events[i];
    RunInv(s, gateway, events, parse);
    InstalledCommaFree(s, gateway, events, parse);
    OrderedAddressesAllowed(After(s, gateway, events, parse), gateway, e, parse);
  }

  /** Without that condition it is not: an entry holding a comma gives the key of two entries, and
      the second order is skipped although it asks for addresses the table does not allow. */
  lemma CommaHidesAnOrder(parse: Parser, rules: Ruleset, a: string, b: string)
    requires parse(a + "," + b).None? && parse(a).Some? && parse(b).Some?
    ensures var first, second := Directive(true, [a + "," + b], true, true), Directive(true, [a, b], true, true);
      var t := After(State(false, "", rules - {TABLE}, None), [], [first, second], parse);
      TABLE in t.rules && t.rules[TABLE] == IsolationTable({}) && Listed([a, b], parse) != {}
  {
    var first, second := Directive(true, [a + "," + b], true, true), Directive(true, [a, b], true, true);
    var s0 := State(false, "", rules - {TABLE}, None);
    assert [first, second][..1] == [first] && [first][..0] == [];
    assert After(s0, [], [], parse) == s0;
    var s1 := Next(s0, [], first, parse);
    assert After(s0, [], [first], parse) == s1;
    assert [] + [a + "," + b] == [a + "," + b] && [] + [a, b] == [a, b];
    assert [a, b][1..] == [b];
    assert Join([b], ",") == b;
    assert Key([a, b]) == a + "," + b;
    assert Key([a + "," + b]) == a + "," + b;
    assert Listed([a + "," + b], parse) == {};
    assert After(s0, [], [first, second], parse) == s1;
    assert a in [a, b] && parse(a).value in Listed([a, b], parse);
  }

  // ---------------------------------------------------------------- exactly when an order is in force

  /** What a parser of addresses does: it looks at the trimmed text, and no address holds a comma or
      is blank. */
  ghost predicate ParsesAddresses(parse: Parser) {
    forall s :: parse(s) == parse(TrimSpace(s)) && (parse(s).Some? ==> ',' !in s && TrimSpace(s) != "")
  }

  /** The entries of a list that could be addresses at all, trimmed. */
  ghost function Candidates(ips: seq<string>): set<string> {
    set s | s in ips && ',' !in s && TrimSpace(s) != "" :: TrimSpace(s)
  }

  /** The order the loop believes to be in force after a run: the last one it applied and has not
      lifted. It does not depend on what the addresses parse to. */
  ghost function Standing(gateway: seq<string>, events: seq<Event>): Option<seq<string>> {
    if events == [] then None
    else
      var before, e := Standing(gateway, events[..|events| - 1]), events[|events| - 1];
      if e.FetchFails? then before
      else if !e.isolate then None
      else if Skips(before, gateway + e.allowIPs) || !e.applyOk then before
      else Some(gateway + e.allowIPs)
  }

  /** An order is skipped when its key is the key of the standing one. */
  ghost predicate Skips(standing: Option<seq<string>>, order: seq<string>) {
    standing.Some? && Key(order) == Key(standing.value)
  }

  lemma {:induction false} StandingIsInstalled(s: State, gateway: seq<string>, events: seq<Event>, parse: Parser)
    requires Unisolated(s)
    ensures var t, o := After(s, gateway, events, parse), Standing(gateway, events);
      && (t.isolated <==> o.Some?)
      && (o.Some? ==> t.installed == o && t.lastKey == Key(o.value))
  {
    if events != [] {
      StandingIsInstalled(s, gateway, events[..|events| - 1], parse);
    }
  }

  /** Whether a list is in force: isolated, with the table for exactly its addresses. */
  ghost predicate InForce(t: State, order: seq<string>, parse: Parser) {
    t.isolated && TABLE in t.rules && t.rules[TABLE] == IsolationTable(Listed(order, parse))
  }

  /** What a successful tick leaves in the kernel: the skipped order's predecessor, or the order. */
  lemma AfterOrder(s: State, gateway: seq<string>, events: seq<Event>, e: Event, parse: Parser)
    requires Unisolated(s) && e.Directive? && e.isolate && e.applyOk
    ensures var order, o := gateway + e.allowIPs, Standing(gateway, events);
      InForce(After(s, gateway, events + [e], parse), if Skips(o, order) then o.value else order, parse)
  {
    assert (events + [e])[..|events|] == events;
    StandingIsInstalled(s, gateway, events, parse);
    RunInv(s, gateway, events, parse);
  }

  lemma TableTellsAddresses(a: set<Addr>, b: set<Addr>)
    ensures IsolationTable(a) == IsolationTable(b) <==> a == b
  {
    if IsolationTable(a) == IsolationTable(b) {
      forall x ensures x in a <==> x in b {
        IsolationSets(a, x);
        IsolationSets(b, x);
      }
    }
  }

  lemma ListedCandidates(a: seq<string>, b: seq<string>, parse: Parser, x: Addr)
    requires ParsesAddresses(parse) && Candidates(a) <= Candidates(b) && x in Listed(a, parse)
    ensures x in Listed(b, parse)
  {
    var s :| s in a && parse(s).Some? && parse(s).value == x;
    assert TrimSpace(s) in Candidates(a);
    var r :| r in b && ',' !in r && TrimSpace(r) != "" && TrimSpace(r) == TrimSpace(s);
    assert parse(r) == parse(TrimSpace(r)) == parse(s);
  }

  /** A parser that knows one address only. */
  lemma OneAddressParser(x: string) returns (parse: Parser)
    requires ',' !in x && x != "" && Trimmed(x)
    ensures ParsesAddresses(parse)
    ensures forall s :: parse(s).Some? <==> ',' !in s && TrimSpace(s) == x
  {
    parse := s => if TrimSpace(s) == x && ',' !in s then Some(V4(0)) else None;
    forall s ensures parse(s) == parse(TrimSpace(s)) {
      TrimmedIsFixed(TrimSpace(s));
      CommaSurvivesTrim(s);
    }
  }

  lemma CommaSurvivesTrim(s: string)
    ensures ',' in s <==> ',' in TrimSpace(s)
  {
    var left, right := TrimSpaceSplits(s);
    assert ',' !in left && ',' !in right;
  }

  /** Some parser tells two lists apart if their candidates differ. */
  lemma CandidateShows(a: seq<string>, b: seq<string>, x: string) returns (parse: Parser)
    requires x in Candidates(a) && x !in Candidates(b)
    ensures ParsesAddresses(parse) && Listed(a, parse) != Listed(b, parse)
  {
    var s :| s in a && ',' !in s && TrimSpace(s) != "" && TrimSpace(s) == x;
    CommaSurvivesTrim(s);
    parse := OneAddressParser(x);
    assert parse(s).value in Listed(a, parse);
    forall r | r in b ensures parse(r).None? {
      assert ',' !in r && TrimSpace(r) == x ==> TrimSpace(r) in Candidates(b);
    }
    assert Listed(b, parse) == {};
  }

  lemma SameListedIff(a: seq<string>, b: seq<string>)
    ensures (forall parse :: ParsesAddresses(parse) ==> Listed(a, parse) == Listed(b, parse)) <==> Candidates(a) == Candidates(b)
  {
    if Candidates(a) == Candidates(b) {
      forall parse | ParsesAddresses(parse) ensures Listed(a, parse) == Listed(b, parse) {
        forall x ensures x in Listed(a, parse) <==> x in Listed(b, parse) {
          if x in Listed(a, parse) { ListedCandidates(a, b, parse, x); }
          if x in Listed(b, parse) { ListedCandidates(b, a, parse, x); }
        }
      }
    } else if x :| x in Candidates(a) && x !in Candidates(b) {
      var parse := CandidateShows(a, b, x);
    } else {
      var x :| x in Candidates(b) && x !in Candidates(a);
      var parse := CandidateShows(b, a, x);
    }
  }

  /** A tick that orders isolation without an nft failure leaves exactly the ordered addresses
      allowed, whatever they parse to, if and only if the order is not skipped or has the same
      possible addresses as the standing one. Commas are what can make the two differ. */
  lemma InForceExactlyWhen(s: State, gateway: seq<string>, events: seq<Event>, e: Event)
    requires Unisolated(s) && e.Directive? && e.isolate && e.applyOk
    ensures var order, o := gateway + e.allowIPs, Standing(gateway, events);
      (forall parse :: ParsesAddresses(parse) ==> InForce(After(s, gateway, events + [e], parse), order, parse)) <==>
      (Skips(o, order) ==> Candidates(o.value) == Candidates(order))
  {
    var order, o := gateway + e.allowIPs, Standing(gateway, events);
    var kept := if Skips(o, order) then o.value else order;
    forall parse
      ensures InForce(After(s, gateway, events + [e], parse), order, parse) <==> Listed(kept, parse) == Listed(order, parse)
    {
      AfterOrder(s, gateway, events, e, parse);
      TableTellsAddresses(Listed(kept, parse), Listed(order, parse));
    }
    SameListedIff(kept, order);
  }
}

/** A small model of nftables: tables of typed address sets and base chains, scripts of commands
    applied as one transaction, and the verdict a table gives on a packet. */
module Nft {
  import opened Text

  datatype Addr = V4(bits: nat) | V6(bits: nat)

  /** A packet at one hook. loIn and loOut: it uses the loopback interface; known: its connection
      is established or related. */
  datatype Packet = Packet(src: Addr, dst: Addr, loIn: bool, loOut: bool, known: bool)

  datatype Hook = Input | Output | Forward
  datatype Verdict = Accept | Drop
  datatype AddrType = Ipv4Addr | Ipv6Addr

  datatype Cond =
    | IpSaddr(set4: string) | Ip6Saddr(set6: string)
    | IpDaddr(set4: string) | Ip6Daddr(set6: string)
    | IifLo | OifLo | Established

  datatype Rule = Rule(cond: Cond, verdict: Verdict)
  datatype Chain = Chain(hook: Hook, priority: int, policy: Verdict, rules: seq<Rule>)
  datatype AddrSet = AddrSet(typ: AddrType, elems: set<Addr>)
  datatype Table = Table(sets: map<string, AddrSet>, chains: map<string, Chain>)

  type Ruleset = map<string, Table>

  datatype Decl = SetDecl(name: string, typ: AddrType, elems: seq<Addr>) | ChainDecl(name: string, chain: Chain)

  datatype Command = AddTable(name: string) | DeleteTable(name: string) | InTable(name: string, decls: seq<Decl>)

  predicate Fits(a: Addr, typ: AddrType) { a.V4? <==> typ == Ipv4Addr }

  function Elements(es: seq<Addr>): set<Addr> { set a | a in es }

  /** A set holds one family only; one element of the wrong family fails the declaration. Adding to
      an existing set or chain extends it. */
  function Declare(t: Table, d: Decl): Option<Table> {
    match d
    case SetDecl(name, typ, es) =>
      if exists a :: a in es && !Fits(a, typ) then None
      else if name in t.sets && t.sets[name].typ != typ then None
      else
        var elems := if name in t.sets then t.sets[name].elems + Elements(es) else Elements(es);
        Some(t.(sets := t.sets[name := AddrSet(typ, elems)]))
    case ChainDecl(name, c) =>
      if name in t.chains then
        if t.chains[name].hook != c.hook then None
        else Some(t.(chains := t.chains[name := c.(rules := t.chains[name].rules + c.rules)]))
      else Some(t.(chains := t.chains[name := c]))
  }

  function DeclareAll(t: Table, ds: seq<Decl>): Option<Table>
    decreases |ds|
  {
    if ds == [] then Some(t)
    else match Declare(t, ds[0])
      case None => None
      case Some(t') => DeclareAll(t', ds[1..])
  }

  const EMPTY := Table(map[], map[])

  function Execute(rs: Ruleset, c: Command): Option<Ruleset> {
    match c
    case AddTable(n) => Some(if n in rs then rs else rs[n := EMPTY])
    case DeleteTable(n) => if n in rs then Some(rs - {n}) else None
    case InTable(n, ds) =>
      match DeclareAll(if n in rs then rs[n] else EMPTY, ds)
      case None => None
      case Some(t) => Some(rs[n := t])
  }

  /** nft -f: every command takes effect, or none does. */
  function Transaction(rs: Ruleset, script: seq<Command>): Option<Ruleset>
    decreases |script|
  {
    if script == [] then Some(rs)
    else match Execute(rs, script[0])
      case None => None
      case Some(rs') => Transaction(rs', script[1..])
  }

  // ---------------------------------------------------------------- packets

  predicate InSet(t: Table, name: string, a: Addr) { name in t.sets && a in t.sets[name].elems }

  predicate Matches(t: Table, c: Cond, p: Packet) {
    match c
    case IpSaddr(s) => p.src.V4? && InSet(t, s, p.src)
    case Ip6Saddr(s) => p.src.V6? && InSet(t, s, p.src)
    case IpDaddr(s) => p.dst.V4? && InSet(t, s, p.dst)
    case Ip6Daddr(s) => p.dst.V6? && InSet(t, s, p.dst)
    case IifLo => p.loIn
    case OifLo => p.loOut
    case Established => p.known
  }

  /** The first matching rule decides, else the policy. */
  function Judge(t: Table, rules: seq<Rule>, policy: Verdict, p: Packet): Verdict {
    if rules == [] then policy
    else if Matches(t, rules[0].cond, p) then rules[0].verdict
    else Judge(t, rules[1..], policy, p)
  }

  /** A table lets a packet through when none of its chains on that hook drops it. */
  ghost predicate Passes(t: Table, hook: Hook, p: Packet) {
    forall n :: n in t.chains && t.chains[n].hook == hook ==>
      Judge(t, t.chains[n].rules, t.chains[n].policy, p) == Accept
  }

  // ---------------------------------------------------------------- replacing a table

  /** The shape both generated scripts share: make sure the table exists, delete it, define it. */
  function Replace(name: string, decls: seq<Decl>): seq<Command> {
    [AddTable(name), DeleteTable(name), InTable(name, decls)]
  }

  /** From any prior state such a script succeeds exactly when its declarations are good on an empty
      table; it then installs precisely that table and touches nothing else. */
  lemma ReplaceInstalls(rs: Ruleset, name: string, decls: seq<Decl>)
    ensures Transaction(rs, Replace(name, decls)) ==
      match DeclareAll(EMPTY, decls) case None => None case Some(t) => Some(rs[name := t])
  {
    var script := Replace(name, decls);
    var rs1 := if name in rs then rs else rs[name := EMPTY];
    var rs2 := rs1 - {name};
    assert script[1..] == [DeleteTable(name), InTable(name, decls)];
    assert script[1..][1..] == [InTable(name, decls)];
    assert script[1..][1..][1..] == [];
    assert Transaction(rs, script) == Transaction(rs1, script[1..]);
    assert Transaction(rs1, script[1..]) == Transaction(rs2, script[1..][1..]);
    var t := DeclareAll(EMPTY, decls);
    if t.Some? {
      assert Transaction(rs2, script[1..][1..]) == Transaction(rs2[name := t.value], []);
      assert rs2[name := t.value] == rs[name := t.value];
    }
  }
}

/** The agent-side block list. */
module Blocklist {
  import opened Text
  import opened Nft

  /** net.ParseIP on the trimmed text; a mapped IPv4 address parses as IPv4. */
  type Parser = string -> Option<Addr>

  function Listed(ips: seq<string>, parse: Parser): set<Addr> {
    set s | s in ips && parse(s).Some? :: parse(s).value
  }

  /** Sorts the parseable addresses by family, keeping their order. */
  method SplitBlockIPs(ips: seq<string>, parse: Parser) returns (v4: seq<Addr>, v6: seq<Addr>)
    ensures Elements(v4) + Elements(v6) == Listed(ips, parse)
    ensures (forall a :: a in v4 ==> a.V4?) && (forall a :: a in v6 ==> a.V6?)
  {
    v4, v6 := [], [];
    for i := 0 to |ips|
      invariant Elements(v4) + Elements(v6) == Listed(ips[..i], parse)
      invariant (forall a :: a in v4 ==> a.V4?) && (forall a :: a in v6 ==> a.V6?)
    {
      ListedNext(ips, parse, i);
      var ip := parse(ips[i]);
      if ip.None? { continue; }
      if ip.value.V4? {
        ElementsAppend(v4, ip.value);
        v4 := v4 + [ip.value];
      } else {
        ElementsAppend(v6, ip.value);
        v6 := v6 + [ip.value];
      }
    }
    assert ips[..|ips|] == ips;
  }

  lemma ElementsAppend(es: seq<Addr>, a: Addr)
    ensures Elements(es + [a]) == Elements(es) + {a}
  {
  }

  lemma ListedNext(ips: seq<string>, parse: Parser, i: nat)
    requires i < |ips|
    ensures Listed(ips[..i + 1], parse) ==
      Listed(ips[..i], parse) + if parse(ips[i]).Some? then {parse(ips[i]).value} else {}
  {
    assert ips[..i + 1] == ips[..i] + [ips[i]];
  }

  function InputChain(name: string): Chain {
    Chain(Input, 0, Accept, [Rule(IpSaddr(name), Drop), Rule(Ip6Saddr(name + "6"), Drop)])
  }

  /** The rendered script for nft -f. */
  method BlocklistRuleset(table: string, name: string, ips: seq<string>, parse: Parser) returns (script: seq<Command>)
    ensures forall rs :: Transaction(rs, script) == Some(rs[table := BlockTable(name, Listed(ips, parse))])
  {
    var v4, v6 := SplitBlockIPs(ips, parse);
    var decls := [SetDecl(name, Ipv4Addr, v4)];
    decls := decls + [SetDecl(name + "6", Ipv6Addr, v6)];
    decls := decls + [ChainDecl("input", InputChain(name))];
    script := [AddTable(table)];
    script := script + [DeleteTable(table)];
    script := script + [InTable(table, decls)];
    assert script == Replace(table, decls);
    forall rs ensures Transaction(rs, script) == Some(rs[table := BlockTable(name, Listed(ips, parse))]) {
      ReplaceInstalls(rs, table, decls);
      DeclaresBlockTable(name, v4, v6, Listed(ips, parse));
    }
  }

  /** The table that blocks exactly the given addresses. */
  function BlockTable(name: string, blocked: set<Addr>): Table {
    Table(map[name := AddrSet(Ipv4Addr, set a | a in blocked && a.V4?),
              name + "6" := AddrSet(Ipv6Addr, set a | a in blocked && a.V6?)],
          map["input" := InputChain(name)])
  }

  lemma DeclaresBlockTable(name: string, v4: seq<Addr>, v6: seq<Addr>, blocked: set<Addr>)
    requires Elements(v4) + Elements(v6) == blocked
    requires (forall a :: a in v4 ==> a.V4?) && (forall a :: a in v6 ==> a.V6?)
    ensures DeclareAll(EMPTY, [SetDecl(name, Ipv4Addr, v4), SetDecl(name + "6", Ipv6Addr, v6), ChainDecl("input", InputChain(name))])
      == Some(BlockTable(name, blocked))
  {
    var d1, d2, d3 := SetDecl(name, Ipv4Addr, v4), SetDecl(name + "6", Ipv6Addr, v6), ChainDecl("input", InputChain(name));
    assert |name + "6"| == |name| + 1;
    var t1 := Table(map[name := AddrSet(Ipv4Addr, Elements(v4))], map[]);
    var t2 := Table(map[name := AddrSet(Ipv4Addr, Elements(v4)), name + "6" := AddrSet(Ipv6Addr, Elements(v6))], map[]);
    assert Declare(EMPTY, d1) == Some(t1);
    assert Declare(t1, d2) == Some(t2);
    assert [d1, d2, d3][1..] == [d2, d3] && [d2, d3][1..] == [d3] && [d3][1..] == [];
    var t3 := t2.(chains := map["input" := InputChain(name)]);
    assert DeclareAll(EMPTY, [d1, d2, d3]) == DeclareAll(t1, [d2, d3]) == DeclareAll(t2, [d3]) == DeclareAll(t3, []);
    assert Elements(v4) == set a | a in blocked && a.V4?;
    assert Elements(v6) == set a | a in blocked && a.V6?;
  }

  /** In its own table a packet is dropped exactly when its source is one of the addresses. */
  lemma BlocksExactly(name: string, blocked: set<Addr>, hook: Hook, p: Packet)
    ensures Passes(BlockTable(name, blocked), hook, p) <==> hook != Input || p.src !in blocked
  {
    var t := BlockTable(name, blocked);
    var c := InputChain(name);
    assert |name + "6"| == |name| + 1;
    assert c.rules[1..] == [Rule(Ip6Saddr(name + "6"), Drop)] && c.rules[1..][1..] == [];
    assert InSet(t, name, p.src) <==> p.src in blocked && p.src.V4?;
    assert InSet(t, name + "6", p.src) <==> p.src in blocked && p.src.V6?;
    assert t.chains["input"] == c && t.chains.Keys == {"input"};
    assert Judge(t, c.rules, Accept, p) ==
      if Matches(t, c.rules[0].cond, p) then Drop else Judge(t, c.rules[1..], Accept, p);
    assert Judge(t, c.rules[1..], Accept, p) ==
      if Matches(t, c.rules[1].cond, p) then Drop else Accept;
  }

  /** Applying the script to any state leaves other tables alone, applying it twice is applying it
      once, and only the set of parsed addresses matters, not their order, repetition or spelling. */
  method Reconcile(rs: Ruleset, table: string, name: string, ips: seq<string>, again: seq<string>, parse: Parser)
    returns (once: Ruleset, twice: Ruleset)
    requires Listed(ips, parse) == Listed(again, parse)
    ensures twice == once && once.Keys == rs.Keys + {table}
    ensures forall n :: n in rs && n != table ==> once[n] == rs[n]
    ensures forall p :: Passes(once[table], Input, p) <==> p.src !in Listed(ips, parse)
  {
    var s1 := BlocklistRuleset(table, name, ips, parse);
    var s2 := BlocklistRuleset(table, name, again, parse);
    once := Transaction(rs, s1).value;
    twice := Transaction(once, s2).value;
    forall p ensures Passes(once[table], Input, p) <==> p.src !in Listed(ips, parse) {
      BlocksExactly(name, Listed(ips, parse), Input, p);
    }
  }
}

/** The OSV assessment of one agent: distinct ids, a record cache filled by periodic flushes, and
    deduplicated findings. Covers both the package scan and the dependency scan, which differ in
    the deduplication key. */
module OsvScan {
  import opened Text

  type Id = string

  datatype Record = Record(id: Id, cve: string, severity: string, cvss: real, fixed: map<string, string>)

  datatype Owner = Owner(name: string, version: string, target: string)

  datatype Finding = Finding(owner: Owner, fixed: string, cve: string, severity: string, cvss: real)

  datatype Kind = Packages | Dependencies

  type Cache = map<Id, Record>

  const FLUSH_ROWS := 200

  /** Which fixed version a record gives for an owner. */
  type Fixed = (Record, Owner) -> string

  // ---------------------------------------------------------------- distinct ids

  ghost function AllIds(idsPer: seq<seq<Id>>): set<Id> { set i, j | 0 <= i < |idsPer| && 0 <= j < |idsPer[i]| :: idsPer[i][j] }

  ghost predicate Distinct<T>(s: seq<T>) { forall i, j :: 0 <= i < j < |s| ==> s[i] != s[j] }

  method CollectIds(idsPer: seq<seq<Id>>) returns (unique: set<Id>)
    ensures unique == AllIds(idsPer)
  {
    unique := {};
    for i := 0 to |idsPer|
      invariant unique == AllIds(idsPer[..i])
    {
      unique := unique + set id | id in idsPer[i];
      assert AllIds(idsPer[..i + 1]) == AllIds(idsPer[..i]) + set id | id in idsPer[i] by {
        assert idsPer[..i + 1] == idsPer[..i] + [idsPer[i]];
        IdsAppend(idsPer[..i], idsPer[i]);
      }
    }
    assert idsPer[..|idsPer|] == idsPer;
  }

  lemma IdsAppend(idsPer: seq<seq<Id>>, ids: seq<Id>)
    ensures AllIds(idsPer + [ids]) == AllIds(idsPer) + set id | id in ids
  {
    var all := idsPer + [ids];
    forall id | id in AllIds(idsPer) + (set id | id in ids) ensures id in AllIds(all) {
      if id in ids {
        var j :| 0 <= j < |ids| && ids[j] == id;
        assert all[|idsPer|][j] == id;
      } else {
        var i, j :| 0 <= i < |idsPer| && 0 <= j < |idsPer[i]| && idsPer[i][j] == id;
        assert all[i][j] == id;
      }
    }
  }

  /** Ranging over the set in whatever order the map yields it. */
  method Enumerate(unique: set<Id>) returns (ids: seq<Id>)
    ensures Distinct(ids) && (forall id :: id in ids <==> id in unique)
  {
    ids := [];
    var todo := unique;
    while todo != {}
      invariant Distinct(ids) && todo <= unique
      invariant forall id :: id in unique <==> id in ids || id in todo
      invariant forall id :: id in ids ==> id !in todo
      decreases |todo|
    {
      var id :| id in todo;
      ids, todo := ids + [id], todo - {id};
    }
  }

  // ---------------------------------------------------------------- filling the cache

  function Upsert(cache: Cache, rows: seq<Record>): Cache {
    if rows == [] then cache
    else Upsert(cache, rows[..|rows| - 1])[rows[|rows| - 1].id := rows[|rows| - 1]]
  }

  ghost function Concat(puts: seq<seq<Record>>): seq<Record> {
    if puts == [] then [] else Concat(puts[..|puts| - 1]) + puts[|puts| - 1]
  }

  /** The records fetched for the ids that were not cached, in order. */
  function Fetched(ids: seq<Id>, cached: Cache, fetch: Id -> Option<Record>): seq<Record> {
    if ids == [] then []
    else
      var id := ids[|ids| - 1];
      Fetched(ids[..|ids| - 1], cached, fetch) + if id !in cached && fetch(id).Some? then [fetch(id).value] else []
  }

  /** The working map after the fetch loop. */
  function Resolved(ids: seq<Id>, cached: Cache, fetch: Id -> Option<Record>): Cache {
    if ids == [] then cached
    else
      var id := ids[|ids| - 1];
      var before := Resolved(ids[..|ids| - 1], cached, fetch);
      if id !in cached && fetch(id).Some? then before[id := fetch(id).value] else before
  }

  /** The fetch loop with its reused buffer: every fetched record is written exactly once, in order,
      in writes of exactly 200 rows and one last shorter write. */
  method FetchMissing(ids: seq<Id>, cached0: Cache, fetch: Id -> Option<Record>)
    returns (cached: Cache, puts: seq<seq<Record>>)
    requires Distinct(ids)
    ensures cached == Resolved(ids, cached0, fetch)
    ensures Concat(puts) == Fetched(ids, cached0, fetch)
    ensures puts != [] && (forall i :: 0 <= i < |puts| - 1 ==> |puts[i]| == 200) && |puts[|puts| - 1]| < 200
  {
    cached, puts := cached0, [];
    var fetched: seq<Record> := [];
    for k := 0 to |ids|
      invariant cached == Resolved(ids[..k], cached0, fetch)
      invariant Concat(puts) + fetched == Fetched(ids[..k], cached0, fetch)
      invariant |fetched| < FLUSH_ROWS && forall i :: 0 <= i < |puts| ==> |puts[i]| == FLUSH_ROWS
    {
      var id := ids[k];
      FetchStep(ids, k, cached0, fetch);
      if id in cached { continue; }
      var v := fetch(id);
      if v.None? { continue; }
      cached := cached[id := v.value];
      assert Concat(puts) + (fetched + [v.value]) == Concat(puts) + fetched + [v.value];
      fetched := fetched + [v.value];
      if |fetched| >= FLUSH_ROWS {
        ConcatAppend(puts, fetched);
        puts, fetched := puts + [fetched], [];
      }
    }
    assert ids[..|ids|] == ids;
    ConcatAppend(puts, fetched);
    puts := puts + [fetched];
  }

  /** One turn of the fetch loop: an id is fetched unless it was cached at the start. */
  lemma FetchStep(ids: seq<Id>, k: nat, cached: Cache, fetch: Id -> Option<Record>)
    requires Distinct(ids) && k < |ids|
    ensures var before := Resolved(ids[..k], cached, fetch);
      && (ids[k] in before <==> ids[k] in cached)
      && Resolved(ids[..k + 1], cached, fetch) ==
           (if ids[k] in before || fetch(ids[k]).None? then before else before[ids[k] := fetch(ids[k]).value])
      && Fetched(ids[..k + 1], cached, fetch) == Fetched(ids[..k], cached, fetch) +
           if ids[k] in before || fetch(ids[k]).None? then [] else [fetch(ids[k]).value]
  {
    assert ids[..k + 1][..k] == ids[..k];
    ResolvedKeys(ids[..k], cached, fetch, ids[k]);
    assert ids[k] !in ids[..k];
  }

  lemma ConcatAppend(puts: seq<seq<Record>>, rows: seq<Record>)
    ensures Concat(puts + [rows]) == Concat(puts) + rows
  {
    assert (puts + [rows])[..|puts|] == puts;
  }

  /** The fetch loop adds exactly the ids it went through and could fetch. */
  lemma {:induction false} ResolvedKeys(ids: seq<Id>, cached: Cache, fetch: Id -> Option<Record>, id: Id)
    ensures var r := Resolved(ids, cached, fetch);
      && (id in r <==> id in cached || (id in ids && fetch(id).Some?))
      && (id in r ==> r[id] == if id in cached then cached[id] else fetch(id).value)
  {
    if ids != [] {
      var n := |ids| - 1;
      assert ids == ids[..n] + [ids[n]];
      ResolvedKeys(ids[..n], cached, fetch, id);
    }
  }

  // ---------------------------------------------------------------- findings

  function CveOf(id: Id, r: Record): string { if r.cve == "" then id else r.cve }

  function KeyOf(kind: Kind, cve: string, o: Owner): string {
    match kind
    case Packages => cve + "\0" + o.name
    case Dependencies => cve + "\0" + o.name + "\0" + o.version
  }

  function FindingOf(o: Owner, id: Id, r: Record, fixed: Fixed): Finding {
    Finding(o, fixed(r, o), CveOf(id, r), r.severity, r.cvss)
  }

  /** Everything the ids of one owner give, in order, before deduplication. */
  function OwnerFindings(o: Owner, ids: seq<Id>, lookup: Id -> Option<Record>, fixed: Fixed): seq<Finding> {
    if ids == [] then []
    else
      var id := ids[|ids| - 1];
      OwnerFindings(o, ids[..|ids| - 1], lookup, fixed)
      + if lookup(id).Some? then [FindingOf(o, id, lookup(id).value, fixed)] else []
  }

  /** The direct answer: look every id of every owner up, in order. */
  function Direct(owners: seq<Owner>, idsPer: seq<seq<Id>>, lookup: Id -> Option<Record>, fixed: Fixed): seq<Finding>
    requires |owners| == |idsPer|
  {
    if owners == [] then []
    else
      var n := |owners| - 1;
      Direct(owners[..n], idsPer[..n], lookup, fixed) + OwnerFindings(owners[n], idsPer[n], lookup, fixed)
  }

  predicate HasKey(kind: Kind, fs: seq<Finding>, key: string) {
    exists i :: 0 <= i < |fs| && KeyOf(kind, fs[i].cve, fs[i].owner) == key
  }

  /** Keeping the first finding of every key. */
  function FirstPerKey(kind: Kind, fs: seq<Finding>): seq<Finding> {
    if fs == [] then []
    else
      var f := fs[|fs| - 1];
      var before := FirstPerKey(kind, fs[..|fs| - 1]);
      if HasKey(kind, before, KeyOf(kind, f.cve, f.owner)) then before else before + [f]
  }

  ghost predicate KeysDistinct(kind: Kind, fs: seq<Finding>) {
    forall i, j :: 0 <= i < j < |fs| ==> KeyOf(kind, fs[i].cve, fs[i].owner) != KeyOf(kind, fs[j].cve, fs[j].owner)
  }

  /** At most one finding per key, and none of the keys is lost. */
  lemma {:induction false} FirstPerKeyIsFaithful(kind: Kind, fs: seq<Finding>)
    ensures KeysDistinct(kind, FirstPerKey(kind, fs))
    ensures forall f :: f in FirstPerKey(kind, fs) ==> f in fs
    ensures forall key :: HasKey(kind, fs, key) <==> HasKey(kind, FirstPerKey(kind, fs), key)
  {
    if fs != [] {
      var n := |fs| - 1;
      var init, f := fs[..n], fs[n];
      FirstPerKeyIsFaithful(kind, init);
      var before, after := FirstPerKey(kind, init), FirstPerKey(kind, fs);
      assert fs == init + [f];
      forall key ensures HasKey(kind, fs, key) <==> HasKey(kind, after, key) {
        HasKeyAppend(kind, init, f, key);
        HasKeyAppend(kind, before, f, key);
      }
    }
  }

  /** Of the findings that share a key the first one is kept. */
  lemma {:induction false} FirstIsKept(kind: Kind, fs: seq<Finding>, i: nat)
    requires i < |fs| && !HasKey(kind, fs[..i], KeyOf(kind, fs[i].cve, fs[i].owner))
    ensures fs[i] in FirstPerKey(kind, fs)
  {
    var n := |fs| - 1;
    if i < n {
      assert fs[..n][..i] == fs[..i];
      FirstIsKept(kind, fs[..n], i);
    } else {
      FirstPerKeyIsFaithful(kind, fs[..n]);
    }
  }

  lemma HasKeyAppend(kind: Kind, fs: seq<Finding>, f: Finding, key: string)
    ensures HasKey(kind, fs + [f], key) <==> HasKey(kind, fs, key) || KeyOf(kind, f.cve, f.owner) == key
  {
    if HasKey(kind, fs, key) {
      var i :| 0 <= i < |fs| && KeyOf(kind, fs[i].cve, fs[i].owner) == key;
      assert (fs + [f])[i] == fs[i];
    }
    assert (fs + [f])[|fs|] == f;
  }

  ghost predicate SeenIs(kind: Kind, seen: set<string>, fs: seq<Finding>) {
    forall key :: key in seen <==> HasKey(kind, fs, key)
  }

  /** One finding against the seen set. */
  method AddFinding(kind: Kind, f: Finding, seen0: set<string>, findings0: seq<Finding>, ghost all: seq<Finding>)
    returns (seen: set<string>, findings: seq<Finding>)
    requires findings0 == FirstPerKey(kind, all) && SeenIs(kind, seen0, findings0)
    ensures findings == FirstPerKey(kind, all + [f]) && SeenIs(kind, seen, findings)
  {
    assert (all + [f])[..|all|] == all;
    var key := KeyOf(kind, f.cve, f.owner);
    if key in seen0 { return seen0, findings0; }
    forall k ensures HasKey(kind, findings0 + [f], k) <==> HasKey(kind, findings0, k) || key == k {
      HasKeyAppend(kind, findings0, f, k);
    }
    return seen0 + {key}, findings0 + [f];
  }

  /** The inner loop: one owner's ids against the working map and the seen set. */
  method AddOwner(kind: Kind, o: Owner, ids: seq<Id>, cached: Cache, fixed: Fixed, seen0: set<string>, findings0: seq<Finding>,
                  ghost before: seq<Finding>)
    returns (seen: set<string>, findings: seq<Finding>)
    requires findings0 == FirstPerKey(kind, before) && SeenIs(kind, seen0, findings0)
    ensures findings == FirstPerKey(kind, before + OwnerFindings(o, ids, Get(cached), fixed)) && SeenIs(kind, seen, findings)
  {
    seen, findings := seen0, findings0;
    ghost var mine: seq<Finding> := [];
    assert before + mine == before;
    for j := 0 to |ids|
      invariant mine == OwnerFindings(o, ids[..j], Get(cached), fixed)
      invariant findings == FirstPerKey(kind, before + mine) && SeenIs(kind, seen, findings)
    {
      var id := ids[j];
      OwnerFindingsNext(o, ids, j, cached, fixed);
      if id !in cached { continue; }
      var f := FindingOf(o, id, cached[id], fixed);
      seen, findings := AddFinding(kind, f, seen, findings, before + mine);
      assert before + mine + [f] == before + (mine + [f]);
      mine := mine + [f];
    }
    assert ids[..|ids|] == ids;
  }

  lemma OwnerFindingsNext(o: Owner, ids: seq<Id>, j: nat, cached: Cache, fixed: Fixed)
    requires j < |ids|
    ensures OwnerFindings(o, ids[..j + 1], Get(cached), fixed) == OwnerFindings(o, ids[..j], Get(cached), fixed)
      + if ids[j] in cached then [FindingOf(o, ids[j], cached[ids[j]], fixed)] else []
  {
    assert ids[..j + 1][..j] == ids[..j];
  }

  function Get(cached: Cache): Id -> Option<Record> {
    (id: Id) => if id in cached then Some(cached[id]) else None
  }

  method MakeFindings(kind: Kind, owners: seq<Owner>, idsPer: seq<seq<Id>>, cached: Cache, fixed: Fixed)
    returns (findings: seq<Finding>)
    requires |owners| == |idsPer|
    ensures findings == FirstPerKey(kind, Direct(owners, idsPer, Get(cached), fixed))
  {
    findings := [];
    var seen: set<string> := {};
    for i := 0 to |owners|
      invariant findings == FirstPerKey(kind, Direct(owners[..i], idsPer[..i], Get(cached), fixed))
      invariant SeenIs(kind, seen, findings)
    {
      assert owners[..i + 1][..i] == owners[..i] && idsPer[..i + 1][..i] == idsPer[..i];
      seen, findings := AddOwner(kind, owners[i], idsPer[i], cached, fixed, seen, findings,
                                 Direct(owners[..i], idsPer[..i], Get(cached), fixed));
    }
    assert owners[..|owners|] == owners && idsPer[..|idsPer|] == idsPer;
  }

  // ---------------------------------------------------------------- the scan

  /** GetOSVVulns: the cached rows among the ids. */
  function CachedAmong(store: Cache, ids: seq<Id>): Cache { map id | id in ids && id in store :: store[id] }

  /** One agent's assessment, given the answer to the package query. puts are the writes to the
      record cache; the findings do not depend on whether they succeed, nor on the order ids. */
  method ScanAgent(kind: Kind, owners: seq<Owner>, idsPer: seq<seq<Id>>, store0: Cache, fetch: Id -> Option<Record>, fixed: Fixed)
    returns (findings: seq<Finding>, puts: seq<seq<Record>>, ghost ids: seq<Id>)
    requires |owners| == |idsPer|
    ensures Distinct(ids) && forall id :: id in ids <==> id in AllIds(idsPer)
    ensures Concat(puts) == Fetched(ids, CachedAmong(store0, ids), fetch)
    ensures findings == FirstPerKey(kind, Direct(owners, idsPer, LookUp(store0, fetch), fixed))
  {
    var unique := CollectIds(idsPer);
    var all := Enumerate(unique);
    ids := all;
    var cached := CachedAmong(store0, all);
    ghost var cached0 := cached;
    cached, puts := FetchMissing(all, cached, fetch);
    findings := MakeFindings(kind, owners, idsPer, cached, fixed);
    forall id | id in AllIds(idsPer) ensures Get(cached)(id) == LookUp(store0, fetch)(id) {
      ResolvedKeys(all, cached0, fetch, id);
    }
    DirectAgrees(owners, idsPer, Get(cached), LookUp(store0, fetch), fixed);
  }

  /** A cached record, or else what the client returns. */
  function LookUp(store: Cache, fetch: Id -> Option<Record>): Id -> Option<Record> {
    (id: Id) => if id in store then Some(store[id]) else fetch(id)
  }

  lemma {:induction false} OwnerAgrees(o: Owner, ids: seq<Id>, a: Id -> Option<Record>, b: Id -> Option<Record>, fixed: Fixed)
    requires forall j :: 0 <= j < |ids| ==> a(ids[j]) == b(ids[j])
    ensures OwnerFindings(o, ids, a, fixed) == OwnerFindings(o, ids, b, fixed)
  {
    if ids != [] { OwnerAgrees(o, ids[..|ids| - 1], a, b, fixed); }
  }

  lemma {:induction false} DirectAgrees(owners: seq<Owner>, idsPer: seq<seq<Id>>, a: Id -> Option<Record>, b: Id -> Option<Record>, fixed: Fixed)
    requires |owners| == |idsPer|
    requires forall id :: id in AllIds(idsPer) ==> a(id) == b(id)
    ensures Direct(owners, idsPer, a, fixed) == Direct(owners, idsPer, b, fixed)
  {
    if owners != [] {
      var n := |owners| - 1;
      assert idsPer == idsPer[..n] + [idsPer[n]];
      IdsAppend(idsPer[..n], idsPer[n]);
      forall j | 0 <= j < |idsPer[n]| ensures a(idsPer[n][j]) == b(idsPer[n][j]) {
        assert idsPer[n][j] in AllIds(idsPer);
      }
      OwnerAgrees(owners[n], idsPer[n], a, b, fixed);
      DirectAgrees(owners[..n], idsPer[..n], a, b, fixed);
    }
  }

  // ---------------------------------------------------------------- what the findings say

  /** Owner i has the id j-th, and there is a record for it. */
  ghost predicate Hits(owners: seq<Owner>, idsPer: seq<seq<Id>>, lookup: Id -> Option<Record>, i: nat, j: nat)
    requires |owners| == |idsPer|
  {
    i < |owners| && j < |idsPer[i]| && lookup(idsPer[i][j]).Some?
  }

  /** f reports record r of that id on that owner: the CVE if the record names one, else the id. */
  ghost predicate ReportsHit(f: Finding, o: Owner, id: Id, r: Record, fixed: Fixed) {
    && f.owner == o && f.severity == r.severity && f.cvss == r.cvss && f.fixed == fixed(r, o)
    && (r.cve != "" ==> f.cve == r.cve) && (r.cve == "" ==> f.cve == id)
  }

  lemma {:induction false} OwnerFindingsAre(o: Owner, ids: seq<Id>, lookup: Id -> Option<Record>, fixed: Fixed)
    ensures forall f :: f in OwnerFindings(o, ids, lookup, fixed) ==>
      exists j :: 0 <= j < |ids| && lookup(ids[j]).Some? && ReportsHit(f, o, ids[j], lookup(ids[j]).value, fixed)
    ensures forall j :: 0 <= j < |ids| && lookup(ids[j]).Some? ==> FindingOf(o, ids[j], lookup(ids[j]).value, fixed) in OwnerFindings(o, ids, lookup, fixed)
  {
    if ids != [] {
      var n := |ids| - 1;
      var init, all := OwnerFindings(o, ids[..n], lookup, fixed), OwnerFindings(o, ids, lookup, fixed);
      OwnerFindingsAre(o, ids[..n], lookup, fixed);
      forall f | f in all
        ensures exists j :: 0 <= j < |ids| && lookup(ids[j]).Some? && ReportsHit(f, o, ids[j], lookup(ids[j]).value, fixed)
      {
        if f in init {
          var j :| 0 <= j < n && lookup(ids[..n][j]).Some? && ReportsHit(f, o, ids[..n][j], lookup(ids[..n][j]).value, fixed);
          assert ids[..n][j] == ids[j];
        } else {
          assert ReportsHit(f, o, ids[n], lookup(ids[n]).value, fixed);
        }
      }
      forall j | 0 <= j < |ids| && lookup(ids[j]).Some? ensures FindingOf(o, ids[j], lookup(ids[j]).value, fixed) in all {
        if j < n { assert ids[..n][j] == ids[j]; }
      }
    }
  }

  /** f reports the hit of owner i's j-th id. */
  ghost predicate ReportsAt(owners: seq<Owner>, idsPer: seq<seq<Id>>, lookup: Id -> Option<Record>, fixed: Fixed, f: Finding, i: nat, j: nat)
    requires |owners| == |idsPer|
  {
    Hits(owners, idsPer, lookup, i, j) && ReportsHit(f, owners[i], idsPer[i][j], lookup(idsPer[i][j]).value, fixed)
  }

  /** Every finding of the direct answer reports a hit... */
  lemma {:induction false} DirectIsGenuine(owners: seq<Owner>, idsPer: seq<seq<Id>>, lookup: Id -> Option<Record>, fixed: Fixed, f: Finding)
    returns (i: nat, j: nat)
    requires |owners| == |idsPer| && f in Direct(owners, idsPer, lookup, fixed)
    ensures ReportsAt(owners, idsPer, lookup, fixed, f, i, j)
  {
    var n := |owners| - 1;
    if f in Direct(owners[..n], idsPer[..n], lookup, fixed) {
      i, j := DirectIsGenuine(owners[..n], idsPer[..n], lookup, fixed, f);
      assert owners[..n][i] == owners[i] && idsPer[..n][i] == idsPer[i];
    } else {
      OwnerFindingsAre(owners[n], idsPer[n], lookup, fixed);
      i := n;
      j :| 0 <= j < |idsPer[n]| && lookup(idsPer[n][j]).Some? && ReportsHit(f, owners[n], idsPer[n][j], lookup(idsPer[n][j]).value, fixed);
    }
  }

  /** ... and every hit is reported. */
  lemma {:induction false} DirectIsComplete(owners: seq<Owner>, idsPer: seq<seq<Id>>, lookup: Id -> Option<Record>, fixed: Fixed, i: nat, j: nat)
    returns (f: Finding)
    requires |owners| == |idsPer| && Hits(owners, idsPer, lookup, i, j)
    ensures f in Direct(owners, idsPer, lookup, fixed) && ReportsAt(owners, idsPer, lookup, fixed, f, i, j)
  {
    var n := |owners| - 1;
    if i < n {
      assert owners[..n][i] == owners[i] && idsPer[..n][i] == idsPer[i];
      f := DirectIsComplete(owners[..n], idsPer[..n], lookup, fixed, i, j);
    } else {
      OwnerFindingsAre(owners[n], idsPer[n], lookup, fixed);
      f := FindingOf(owners[n], idsPer[n][j], lookup(idsPer[n][j]).value, fixed);
    }
  }

  /** Two findings count as one exactly when they name the same vulnerability and package and, for
      dependencies, the same version; names hold no NUL. */
  lemma KeyTells(kind: Kind, c: string, o: Owner, d: string, q: Owner)
    requires '\0' !in c && '\0' !in d && '\0' !in o.name && '\0' !in q.name
    ensures KeyOf(kind, c, o) == KeyOf(kind, d, q) <==>
      c == d && o.name == q.name && (kind == Dependencies ==> o.version == q.version)
  {
    if KeyOf(kind, c, o) == KeyOf(kind, d, q) {
      match kind {
        case Packages => FirstField(c, o.name, d, q.name);
        case Dependencies =>
          assert KeyOf(kind, c, o) == c + "\0" + (o.name + "\0" + o.version);
          assert KeyOf(kind, d, q) == d + "\0" + (q.name + "\0" + q.version);
          FirstField(c, o.name + "\0" + o.version, d, q.name + "\0" + q.version);
          FirstField(o.name, o.version, q.name, q.version);
      }
    }
  }

  lemma FirstField(a: string, x: string, b: string, y: string)
    requires '\0' !in a && '\0' !in b && a + "\0" + x == b + "\0" + y
    ensures a == b && x == y
  {
    IndexOfChar(a, '\0', x);
    IndexOfChar(b, '\0', y);
    var s := a + "\0" + x;
    assert s[..|a|] == a && s[|a| + 1..] == x;
    assert (b + "\0" + y)[..|b|] == b && (b + "\0" + y)[|b| + 1..] == y;
  }

  /** The findings of a scan, without the helper functions: each reports a hit, every hit shares its
      vulnerability and package, and for dependencies its version, with a finding, and no two
      findings do so with each other. */
  lemma ScanFinds(kind: Kind, owners: seq<Owner>, idsPer: seq<seq<Id>>, lookup: Id -> Option<Record>, fixed: Fixed)
    requires |owners| == |idsPer|
    ensures var found := FirstPerKey(kind, Direct(owners, idsPer, lookup, fixed));
      && (forall f :: f in found ==> exists i: nat, j: nat :: ReportsAt(owners, idsPer, lookup, fixed, f, i, j))
      && (forall i: nat, j: nat :: Hits(owners, idsPer, lookup, i, j) ==>
           exists f :: ReportsAt(owners, idsPer, lookup, fixed, f, i, j) && HasKey(kind, found, KeyOf(kind, f.cve, f.owner)))
      && KeysDistinct(kind, found)
  {
    var all := Direct(owners, idsPer, lookup, fixed);
    var found := FirstPerKey(kind, all);
    FirstPerKeyIsFaithful(kind, all);
    forall f | f in found ensures exists i: nat, j: nat :: ReportsAt(owners, idsPer, lookup, fixed, f, i, j) {
      var i, j := DirectIsGenuine(owners, idsPer, lookup, fixed, f);
    }
    forall i: nat, j: nat | Hits(owners, idsPer, lookup, i, j)
      ensures exists f :: ReportsAt(owners, idsPer, lookup, fixed, f, i, j) && HasKey(kind, found, KeyOf(kind, f.cve, f.owner))
    {
      var f := DirectIsComplete(owners, idsPer, lookup, fixed, i, j);
      var k :| 0 <= k < |all| && all[k] == f;
      assert HasKey(kind, all, KeyOf(kind, f.cve, f.owner));
    }
  }

  // ---------------------------------------------------------------- cache and truth

  /** Every cached row is the true record of its id. */
  ghost predicate Correct(store: Cache, truth: Id -> Record) {
    forall id :: id in store ==> store[id] == truth(id)
  }

  /** From any correct cache an error-free scan finds exactly what looking every id up gives. */
  lemma CacheIsTransparent(kind: Kind, owners: seq<Owner>, idsPer: seq<seq<Id>>, store: Cache, fetch: Id -> Option<Record>,
                           truth: Id -> Record, fixed: Fixed)
    requires |owners| == |idsPer| && Correct(store, truth)
    requires forall id :: id in AllIds(idsPer) ==> fetch(id) == Some(truth(id))
    ensures FirstPerKey(kind, Direct(owners, idsPer, LookUp(store, fetch), fixed))
      == FirstPerKey(kind, Direct(owners, idsPer, id => Some(truth(id)), fixed))
  {
    DirectAgrees(owners, idsPer, LookUp(store, fetch), id => Some(truth(id)), fixed);
  }

  /** The record cache after the given writes, one transaction each, all successful. */
  ghost function Written(store: Cache, puts: seq<seq<Record>>): Cache {
    if puts == [] then store else Upsert(Written(store, puts[..|puts| - 1]), puts[|puts| - 1])
  }

  lemma {:induction false} UpsertConcat(store: Cache, a: seq<Record>, b: seq<Record>)
    ensures Upsert(store, a + b) == Upsert(Upsert(store, a), b)
    decreases |b|
  {
    if b == [] {
      assert a + b == a;
    } else {
      var n := |b| - 1;
      assert (a + b)[..|a + b| - 1] == a + b[..n];
      UpsertConcat(store, a, b[..n]);
    }
  }

  lemma {:induction false} WrittenIsUpsert(store: Cache, puts: seq<seq<Record>>)
    ensures Written(store, puts) == Upsert(store, Concat(puts))
  {
    if puts != [] {
      var n := |puts| - 1;
      WrittenIsUpsert(store, puts[..n]);
      UpsertConcat(store, Concat(puts[..n]), puts[n]);
    }
  }

  /** When every record carries the id it was fetched under, the scan's writes leave exactly the
      fetched records added to the cache, which stays correct. */
  lemma WritesFillCache(ids: seq<Id>, store: Cache, fetch: Id -> Option<Record>, truth: Id -> Record, puts: seq<seq<Record>>, id: Id)
    requires Correct(store, truth) && Concat(puts) == Fetched(ids, CachedAmong(store, ids), fetch)
    requires forall i :: 0 <= i < |ids| && fetch(ids[i]).Some? ==> fetch(ids[i]).value == truth(ids[i]) && truth(ids[i]).id == ids[i]
    ensures var after := Written(store, puts);
      && (id in after <==> id in store || (id in ids && fetch(id).Some?))
      && (id in after ==> after[id] == truth(id))
  {
    WrittenIsUpsert(store, puts);
    FetchedFrom(ids, ids, store, fetch, truth, id);
  }

  lemma {:induction false} FetchedFrom(ids: seq<Id>, all: seq<Id>, store: Cache, fetch: Id -> Option<Record>, truth: Id -> Record, id: Id)
    requires ids <= all && Correct(store, truth)
    requires forall i :: 0 <= i < |all| && fetch(all[i]).Some? ==> fetch(all[i]).value == truth(all[i]) && truth(all[i]).id == all[i]
    ensures var after := Upsert(store, Fetched(ids, CachedAmong(store, all), fetch));
      && (id in after <==> id in store || (id in ids && fetch(id).Some?))
      && (id in after ==> after[id] == truth(id))
    decreases |ids|
  {
    if ids != [] {
      var n := |ids| - 1;
      FetchedFrom(ids[..n], all, store, fetch, truth, id);
      assert ids == ids[..n] + [ids[n]] && ids[n] == all[n];
      var cached := CachedAmong(store, all);
      var rows := Fetched(ids[..n], cached, fetch);
      if ids[n] !in cached && fetch(ids[n]).Some? {
        var v := fetch(ids[n]).value;
        UpsertAppend(store, rows, v);
      } else {
        assert Fetched(ids, cached, fetch) == rows + [] == rows;
      }
    }
  }

  lemma UpsertAppend(store: Cache, rows: seq<Record>, v: Record)
    ensures Upsert(store, rows + [v]) == Upsert(store, rows)[v.id := v]
  {
    assert (rows + [v])[..|rows|] == rows;
  }
}

/** The executable-hash cache: reuse a digest while the file still has the size and mtime it was
    hashed under, for at most 30 minutes, in at most 4096 entries. Files change at any moment, also
    in the middle of a lookup, and lookups of several goroutines overlap. */
module HashCache {
  import opened Text

  type Path = string

  datatype File = File(regular: bool, size: nat, mtime: int, content: string)

  /** The file system at every moment, in nanoseconds. */
  type Timeline = nat -> map<Path, File>

  /** The digest of a content. */
  type Digest = string -> string

  datatype Entry = Entry(hash: string, size: nat, mtime: int, at: nat)

  type Cache = map<Path, Entry>

  const TTL := 30 * 60 * 1_000_000_000
  const MAX_ENTRIES := 4096
  const MAX_HASH_BYTES := 64 * 1024 * 1024

  /** When one lookup stats the file, reads the cache, takes the age of the entry it found, reads the
      file (only if it must), and stores the result. */
  datatype Lookup = Lookup(path: Path, statAt: nat, readAt: nat, checkAt: nat, hashAt: nat, storeAt: nat)

  /** computeFileHash on the file as it is while it is read. */
  function ComputeFileHash(w: Timeline, h: Digest, path: Path, t: nat): Option<string> {
    if path !in w(t) || !w(t)[path].regular || w(t)[path].size > MAX_HASH_BYTES || |w(t)[path].content| != w(t)[path].size
    then None
    else Some(h(w(t)[path].content))
  }

  predicate Hit(c: Cache, f: File, l: Lookup) {
    l.path in c && c[l.path].size == f.size && c[l.path].mtime == f.mtime && l.checkAt - c[l.path].at < TTL
  }

  // ---------------------------------------------------------------- one lookup

  /** The file the lookup stats, if it is there and regular. */
  function Statted(w: Timeline, l: Lookup): Option<File> {
    if l.path in w(l.statAt) && w(l.statAt)[l.path].regular then Some(w(l.statAt)[l.path]) else None
  }

  /** Whether the lookup, with this cache at its read, goes on to store a digest, and which. */
  function Missed(c: Cache, w: Timeline, h: Digest, l: Lookup): Option<string> {
    var f := Statted(w, l);
    if f.None? || Hit(c, f.value, l) then None else ComputeFileHash(w, h, l.path, l.hashAt)
  }

  /** What it returns, "" for none. */
  function Returned(c: Cache, w: Timeline, h: Digest, l: Lookup): string {
    var f := Statted(w, l);
    if f.None? then ""
    else if Hit(c, f.value, l) then c[l.path].hash
    else
      match ComputeFileHash(w, h, l.path, l.hashAt)
      case None => ""
      case Some(hash) => hash
  }

  /** The cache after storing a digest; a full one is cleared first. */
  function Stored(c: Cache, f: File, hash: string, l: Lookup): Cache {
    (if |c| >= MAX_ENTRIES then map[] else c)[l.path := Entry(hash, f.size, f.mtime, l.storeAt)]
  }

  class HashStore {
    const world: Timeline
    const digest: Digest
    var entries: Cache

    constructor (world: Timeline, digest: Digest)
      ensures entries == map[] && this.world == world && this.digest == digest
    {
      entries := map[];
      this.world, this.digest := world, digest;
    }

    /** The part under the read lock, and the test of what it found. */
    method Check(l: Lookup, f: File) returns (hash: Option<string>)
      ensures hash == if Hit(entries, f, l) then Some(entries[l.path].hash) else None
    {
      if l.path in entries {
        var e := entries[l.path];
        if e.size == f.size && e.mtime == f.mtime && l.checkAt - e.at < TTL { return Some(e.hash); }
      }
      return None;
    }

    /** The part under the write lock. */
    method Store(l: Lookup, f: File, hash: string)
      modifies this
      ensures entries == Stored(old(entries), f, hash, l)
    {
      if |entries| >= MAX_ENTRIES { entries := map[]; }
      entries := entries[l.path := Entry(hash, f.size, f.mtime, l.storeAt)];
    }

    /** A lookup that no other one interrupts. */
    method GetOrComputeHash(l: Lookup) returns (hash: string)
      modifies this
      ensures hash == Returned(old(entries), world, digest, l)
      ensures entries ==
        var missed := Missed(old(entries), world, digest, l);
        if missed.Some? then Stored(old(entries), Statted(world, l).value, missed.value, l) else old(entries)
    {
      var now := world(l.statAt);
      if l.path !in now || !now[l.path].regular { return ""; }
      var f := now[l.path];
      var cached := Check(l, f);
      if cached.Some? { return cached.value; }
      var computed := ComputeFileHash(world, digest, l.path, l.hashAt);
      if computed.None? { return ""; }
      Store(l, f, computed.value);
      return computed.value;
    }
  }

  // ---------------------------------------------------------------- interleaved lookups

  /** The two critical sections. A lookup that need not store passes its second one by. */
  datatype Op = Check(l: Lookup) | Store(l: Lookup)

  /** The cache, and the lookups that have missed and are on their way to store. */
  datatype State = State(cache: Cache, missed: set<Lookup>)

  function Apply(w: Timeline, h: Digest, s: State, op: Op): State {
    match op
    case Check(l) => if Missed(s.cache, w, h, l).Some? then s.(missed := s.missed + {l}) else s
    case Store(l) =>
      var f, hash := Statted(w, l), ComputeFileHash(w, h, l.path, l.hashAt);
      if l in s.missed && f.Some? && hash.Some? then State(Stored(s.cache, f.value, hash.value, l), s.missed - {l}) else s
  }

  function After(w: Timeline, h: Digest, ops: seq<Op>): State {
    if ops == [] then State(map[], {}) else Apply(w, h, After(w, h, ops[..|ops| - 1]), ops[|ops| - 1])
  }

  /** The answer of a lookup that reads the cache after these operations. */
  function Answer(w: Timeline, h: Digest, ops: seq<Op>, l: Lookup): string {
    Returned(After(w, h, ops).cache, w, h, l)
  }

  function TimeOf(op: Op): nat { if op.Check? then op.l.readAt else op.l.storeAt }

  /** Operations take effect in the order of their moments, and every lookup works in order. */
  ghost predicate Timed(ops: seq<Op>) {
    && (forall i :: 0 <= i < |ops| ==>
         ops[i].l.statAt <= ops[i].l.readAt <= ops[i].l.checkAt <= ops[i].l.hashAt <= ops[i].l.storeAt)
    && (forall i, j :: 0 <= i < j < |ops| ==> TimeOf(ops[i]) <= TimeOf(ops[j]))
  }

  ghost predicate SameIdentity(w: Timeline, p: Path, t: nat, u: nat) {
    p in w(t) && p in w(u) && w(t)[p].size == w(u)[p].size && w(t)[p].mtime == w(u)[p].mtime
  }

  /** e was made by this lookup: identity from its stat, hash from its read. */
  ghost predicate MadeBy(w: Timeline, h: Digest, p: Path, e: Entry, l: Lookup) {
    && l.path == p && p in w(l.statAt) && e.size == w(l.statAt)[p].size && e.mtime == w(l.statAt)[p].mtime
    && e.at == l.storeAt && ComputeFileHash(w, h, p, l.hashAt) == Some(e.hash)
  }

  /** Every entry was stored by one of the operations. */
  ghost predicate Traced(w: Timeline, h: Digest, ops: seq<Op>, c: Cache) {
    forall p :: p in c ==> exists i :: 0 <= i < |ops| && ops[i].Store? && MadeBy(w, h, p, c[p], ops[i].l)
  }

  lemma StepEntries(w: Timeline, h: Digest, s: State, op: Op, p: Path)
    ensures var c' := Apply(w, h, s, op).cache;
      p in c' ==> (p in s.cache && c'[p] == s.cache[p]) || (op.Store? && MadeBy(w, h, p, c'[p], op.l))
  {
  }

  lemma StoredBounded(c: Cache, f: File, hash: string, l: Lookup)
    requires |c| <= MAX_ENTRIES
    ensures |Stored(c, f, hash, l)| <= MAX_ENTRIES
  {
    var base: Cache := if |c| >= MAX_ENTRIES then map[] else c;
    assert Stored(c, f, hash, l).Keys == base.Keys + {l.path};
  }

  lemma StepBounded(w: Timeline, h: Digest, s: State, op: Op)
    requires |s.cache| <= MAX_ENTRIES
    ensures |Apply(w, h, s, op).cache| <= MAX_ENTRIES
  {
    var l := op.l;
    var f, hash := Statted(w, l), ComputeFileHash(w, h, l.path, l.hashAt);
    if f.Some? && hash.Some? { StoredBounded(s.cache, f.value, hash.value, l); }
  }

  lemma {:induction false} RunBounded(w: Timeline, h: Digest, ops: seq<Op>)
    ensures |After(w, h, ops).cache| <= MAX_ENTRIES
  {
    if ops != [] {
      RunBounded(w, h, ops[..|ops| - 1]);
      StepBounded(w, h, After(w, h, ops[..|ops| - 1]), ops[|ops| - 1]);
    }
  }

  lemma {:induction false} RunTraced(w: Timeline, h: Digest, ops: seq<Op>)
    ensures Traced(w, h, ops, After(w, h, ops).cache)
  {
    if ops != [] {
      var n := |ops| - 1;
      var before, after := After(w, h, ops[..n]), After(w, h, ops);
      RunTraced(w, h, ops[..n]);
      forall p | p in after.cache
        ensures exists i :: 0 <= i < |ops| && ops[i].Store? && MadeBy(w, h, p, after.cache[p], ops[i].l)
      {
        StepEntries(w, h, before, ops[n], p);
        if p in before.cache && after.cache[p] == before.cache[p] {
          var i :| 0 <= i < n && ops[..n][i].Store? && MadeBy(w, h, p, before.cache[p], ops[..n][i].l);
          assert ops[i] == ops[..n][i];
        }
      }
    }
  }

  /** Over every interleaving of lookups and file changes: the cache never exceeds its bound, and an
      answer is the digest read by this lookup itself, or by one that had stored it before, less
      than 30 minutes ago, and had seen the same size and mtime. */
  lemma AnswersAreRecent(w: Timeline, h: Digest, ops: seq<Op>, l: Lookup) returns (source: Lookup)
    requires Timed(ops + [Check(l)])
    ensures |After(w, h, ops).cache| <= 4096
    ensures source == l || Store(source) in ops
    ensures var r := Answer(w, h, ops, l); r != "" ==>
      && (source == l || (Store(source) in ops && source.storeAt <= l.readAt && l.checkAt - source.storeAt < 30 * 60 * 1_000_000_000))
      && source.path == l.path && SameIdentity(w, l.path, source.statAt, l.statAt)
      && ComputeFileHash(w, h, l.path, source.hashAt) == Some(r)
  {
    RunBounded(w, h, ops);
    RunTraced(w, h, ops);
    var c := After(w, h, ops).cache;
    source := l;
    var f := Statted(w, l);
    if f.Some? && Hit(c, f.value, l) {
      var i :| 0 <= i < |ops| && ops[i].Store? && MadeBy(w, h, l.path, c[l.path], ops[i].l);
      source := ops[i].l;
      assert ops[i] == Store(source);
      assert (ops + [Check(l)])[i] == ops[i] && (ops + [Check(l)])[|ops|] == Check(l);
    }
  }

  // ---------------------------------------------------------------- when there is an answer

  /** A file that can be hashed: regular, at most 64 MiB, read whole. */
  ghost predicate Hashable(w: Timeline, p: Path, t: nat) {
    p in w(t) && w(t)[p].regular && w(t)[p].size <= 64 * 1024 * 1024 && |w(t)[p].content| == w(t)[p].size
  }

  /** A path nothing was stored for is answered exactly when the file is regular at the stat and can be
      hashed at the read, with the digest of its content then. */
  lemma FreshAnswer(w: Timeline, h: Digest, ops: seq<Op>, l: Lookup)
    requires forall i :: 0 <= i < |ops| && ops[i].Store? ==> ops[i].l.path != l.path
    ensures Answer(w, h, ops, l) ==
      if l.path in w(l.statAt) && w(l.statAt)[l.path].regular && Hashable(w, l.path, l.hashAt) then h(w(l.hashAt)[l.path].content)
      else ""
  {
    RunTraced(w, h, ops);
    assert l.path !in After(w, h, ops).cache;
  }

  /** A file that is gone, or no regular file, at the stat is never answered. */
  lemma NoFileNoAnswer(w: Timeline, h: Digest, ops: seq<Op>, l: Lookup)
    requires l.path !in w(l.statAt) || !w(l.statAt)[l.path].regular
    ensures Answer(w, h, ops, l) == ""
  {
  }

  /** Within 30 minutes of a store, and with the same size and mtime at the stat, the stored digest is
      returned without reading the file again; after that it is not. */
  lemma StoredIsReused(w: Timeline, h: Digest, ops: seq<Op>, s: Lookup, l: Lookup)
    requires Missed(After(w, h, ops).cache, w, h, s).Some? && s in After(w, h, ops).missed
    requires l.path == s.path && SameIdentity(w, s.path, s.statAt, l.statAt) && w(l.statAt)[l.path].regular
    ensures l.checkAt - s.storeAt < 30 * 60 * 1_000_000_000 ==>
      Answer(w, h, ops + [Store(s)], l) == h(w(s.hashAt)[s.path].content)
    ensures l.checkAt - s.storeAt >= 30 * 60 * 1_000_000_000 && !Hashable(w, l.path, l.hashAt) ==>
      Answer(w, h, ops + [Store(s)], l) == ""
  {
    assert (ops + [Store(s)])[..|ops|] == ops;
  }

  // ---------------------------------------------------------------- when the answer is current

  /** Every change of content also changes size or mtime, over the whole timeline. */
  ghost predicate ChangesShow(w: Timeline, p: Path) {
    forall t: nat, u: nat :: SameIdentity(w, p, t, u) ==> w(t)[p].content == w(u)[p].content
  }

  /** The answer, if there is one, is the digest of the file the lookup statted. */
  ghost predicate Current(w: Timeline, h: Digest, ops: seq<Op>, l: Lookup) {
    Answer(w, h, ops, l) != "" ==>
      l.path in w(l.statAt) && Answer(w, h, ops, l) == h(w(l.statAt)[l.path].content)
  }

  /** The file is not replaced between a lookup's stat and its read. */
  ghost predicate Undisturbed(w: Timeline, l: Lookup) {
    l.path in w(l.statAt) && l.path in w(l.hashAt) ==> w(l.statAt)[l.path] == w(l.hashAt)[l.path]
  }

  /** Every answer is current if neither this lookup nor one that stores is raced by a replacement. */
  lemma AnswersAreCurrent(w: Timeline, h: Digest, ops: seq<Op>, l: Lookup)
    requires Timed(ops + [Check(l)]) && ChangesShow(w, l.path)
    requires forall i :: 0 <= i < |ops| && ops[i].Store? ==> Undisturbed(w, ops[i].l)
    requires Undisturbed(w, l)
    ensures Current(w, h, ops, l)
  {
    var source := AnswersAreRecent(w, h, ops, l);
    if Answer(w, h, ops, l) != "" {
      assert Undisturbed(w, source);
    }
  }

  /** A schedule for l to come into: operations in order, a store after its check, l new, and no two
      lookups touching the file system at the same moment. */
  ghost predicate Schedule(ops: seq<Op>, l: Lookup) {
    && Timed(ops + [Check(l)])
    && (forall i :: 0 <= i < |ops| ==> ops[i].l != l && Apart(ops[i].l, l))
    && (forall i, j :: 0 <= i < |ops| && 0 <= j < |ops| && ops[i].l != ops[j].l ==> Apart(ops[i].l, ops[j].l))
    && (forall i :: 0 <= i < |ops| && ops[i].Store? ==> Check(ops[i].l) in ops[..i])
  }

  ghost predicate Apart(l: Lookup, m: Lookup) {
    l.statAt != m.statAt && l.statAt != m.hashAt && l.hashAt != m.statAt && l.hashAt != m.hashAt
  }

  /** A lookup whose entry can still be there, and young enough, when l reads the cache. */
  ghost predicate CanAnswer(ops: seq<Op>, l: Lookup, s: Lookup) {
    Store(s) in ops && s.path == l.path && l.checkAt - s.storeAt < TTL
  }

  /** Stat and read of the file are one moment. */
  predicate Atomic(l: Lookup) { l.statAt == l.hashAt }

  const FILE_A := File(true, 1, 1, "a")
  const FILE_B := File(true, 1, 2, "b")

  /** The path holds A at the lookup's stat and at one more moment, B at its read, and nothing at any
      other moment. */
  function Glimpses(p: Path, s: Lookup, again: nat): Timeline {
    t => if t == s.statAt || t == again then map[p := FILE_A] else if t == s.hashAt then map[p := FILE_B] else map[]
  }

  lemma GlimpsesShow(p: Path, s: Lookup, again: nat)
    ensures ChangesShow(Glimpses(p, s, again), p)
  {
  }

  /** In that world only s ever stores, and it stores B's digest under A's identity. */
  lemma {:induction false} OnlyOneStores(ops: seq<Op>, s: Lookup, again: nat)
    requires s.statAt != s.hashAt && again != s.hashAt
    requires forall i :: 0 <= i < |ops| && ops[i].l != s ==>
      ops[i].l.statAt != s.statAt && ops[i].l.statAt != s.hashAt && ops[i].l.statAt != again
    requires forall i :: 0 <= i < |ops| && ops[i].Store? ==> Check(ops[i].l) in ops[..i]
    ensures var t := After(Glimpses(s.path, s, again), c => c, ops);
      && t.missed <= {s}
      && (t.cache == map[] || t.cache == map[s.path := Entry("b", 1, 1, s.storeAt)])
      && (Check(s) in ops ==> s in t.missed || t.cache != map[])
      && (Store(s) in ops ==> t.cache != map[])
  {
    if ops != [] {
      var n := |ops| - 1;
      var init, op := ops[..n], ops[n];
      assert ops == init + [op];
      forall i | 0 <= i < |init| && init[i].Store? ensures Check(init[i].l) in init[..i] {
        assert init[i] == ops[i] && init[..i] == ops[..i];
      }
      OnlyOneStores(init, s, again);
      if op == Store(s) { assert Check(s) in init; }
      OneStoreStep(After(Glimpses(s.path, s, again), c => c, init), op, s, again);
    }
  }

  lemma OneStoreStep(t: State, op: Op, s: Lookup, again: nat)
    requires s.statAt != s.hashAt && again != s.hashAt
    requires op.l != s ==> op.l.statAt != s.statAt && op.l.statAt != s.hashAt && op.l.statAt != again
    requires t.missed <= {s} && (t.cache == map[] || t.cache == map[s.path := Entry("b", 1, 1, s.storeAt)])
    ensures var t' := Apply(Glimpses(s.path, s, again), c => c, t, op);
      && t'.missed <= {s}
      && (t'.cache == map[] || t'.cache == map[s.path := Entry("b", 1, 1, s.storeAt)])
      && (t.cache != map[] ==> t'.cache != map[])
      && (op == Check(s) ==> s in t'.missed || t'.cache != map[])
      && (op == Store(s) && s in t.missed ==> t'.cache != map[])
      && (op != Store(s) && s in t.missed ==> s in t'.missed)
  {
    var w := Glimpses(s.path, s, again);
    if op.l == s {
      assert w(s.statAt) == map[s.path := FILE_A] && w(s.hashAt) == map[s.path := FILE_B];
      assert ComputeFileHash(w, c => c, s.path, s.hashAt) == Some("b");
    } else {
      assert w(op.l.statAt) == map[];
    }
  }

  /** If a lookup that can answer is not atomic, some world makes the answer wrong. */
  lemma RacedSourceMisleads(ops: seq<Op>, l: Lookup, s: Lookup) returns (w: Timeline, h: Digest)
    requires Schedule(ops, l) && CanAnswer(ops, l, s) && !Atomic(s)
    ensures ChangesShow(w, l.path) && !Current(w, h, ops, l)
  {
    w, h := Glimpses(s.path, s, l.statAt), c => c;
    var k :| 0 <= k < |ops| && ops[k] == Store(s);
    assert Apart(ops[k].l, l);
    GlimpsesShow(s.path, s, l.statAt);
    forall i | 0 <= i < |ops| && ops[i].l != s
      ensures ops[i].l.statAt != s.statAt && ops[i].l.statAt != s.hashAt && ops[i].l.statAt != l.statAt
    {
      assert Apart(ops[i].l, ops[k].l) && Apart(ops[i].l, l);
    }
    OnlyOneStores(ops, s, l.statAt);
    assert w(l.statAt) == map[s.path := FILE_A];
    assert Answer(w, h, ops, l) == "b";
  }

  lemma RacedLookupMisleads(ops: seq<Op>, l: Lookup) returns (w: Timeline, h: Digest)
    requires Schedule(ops, l) && !Atomic(l)
    ensures ChangesShow(w, l.path) && !Current(w, h, ops, l)
  {
    w, h := Glimpses(l.path, l, l.statAt), c => c;
    GlimpsesShow(l.path, l, l.statAt);
    forall i | 0 <= i < |ops| ensures ops[i].l.statAt != l.statAt && ops[i].l.statAt != l.hashAt && ops[i].l != l {
      assert Apart(ops[i].l, l);
    }
    NeverStored(ops, l);
    assert w(l.statAt) == map[l.path := FILE_A] && w(l.hashAt) == map[l.path := FILE_B];
    assert Answer(w, h, ops, l) == "b";
  }

  /** A lookup that has done nothing yet has left nothing behind. */
  lemma {:induction false} NeverStored(ops: seq<Op>, l: Lookup)
    requires forall i :: 0 <= i < |ops| ==> ops[i].l != l && ops[i].l.statAt != l.statAt && ops[i].l.statAt != l.hashAt
    ensures After(Glimpses(l.path, l, l.statAt), c => c, ops) == State(map[], {})
  {
    if ops != [] {
      var n := |ops| - 1;
      NeverStored(ops[..n], l);
      assert Glimpses(l.path, l, l.statAt)(ops[n].l.statAt) == map[];
    }
  }

  /** In a given schedule the answer is current, in every world whose content changes show in size or
      mtime, if and only if stat and read are one moment for the lookup itself and for every lookup
      of the same path that stores less than 30 minutes before its age test. */
  lemma CurrentExactlyWhen(ops: seq<Op>, l: Lookup)
    requires Schedule(ops, l)
    ensures (forall w, h :: ChangesShow(w, l.path) ==> Current(w, h, ops, l)) <==>
      Atomic(l) && forall s :: CanAnswer(ops, l, s) ==> Atomic(s)
  {
    if !Atomic(l) {
      var w, h := RacedLookupMisleads(ops, l);
    } else if s :| CanAnswer(ops, l, s) && !Atomic(s) {
      var w, h := RacedSourceMisleads(ops, l, s);
    } else {
      forall w, h | ChangesShow(w, l.path) ensures Current(w, h, ops, l) {
        var source := AnswersAreRecent(w, h, ops, l);
        assert source != l && Answer(w, h, ops, l) != "" ==> CanAnswer(ops, l, source);
      }
    }
  }

  /** The condition is needed: a replacement between stat and read files the new digest under
      the old identity, and when the old file is put back the wrong digest is returned for it. */
  lemma RaceLeavesWrongDigest() returns (w: Timeline, ops: seq<Op>, l: Lookup)
    ensures Schedule(ops, l) && |ops| == 2 && ChangesShow(w, l.path) && l.path in w(l.statAt)
    ensures w(l.statAt)[l.path].content == "a" && Answer(w, c => c, ops, l) == "b"
  {
    var first := Lookup("x", 0, 0, 0, 1, 1);
    ops, l := [Check(first), Store(first)], Lookup("x", 2, 2, 2, 2, 2);
    assert ops[..1] == [Check(first)] && Check(first) in ops[..1];
    assert ops[1] == Store(first);
    w := Glimpses("x", first, 2);
    GlimpsesShow("x", first, 2);
    OnlyOneStores(ops, first, 2);
    assert w(2) == map["x" := FILE_A];
  }
}

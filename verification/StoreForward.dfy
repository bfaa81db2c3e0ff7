/** Names of buffered batches: a zero-padded nanosecond stamp and a wrapping sequence number. */
module BufferNames {
  import opened Text

  const SEQ_LIMIT := 1_000_000

  function Pow10(w: nat): nat { if w == 0 then 1 else 10 * Pow10(w - 1) }

  /** %0<w>d for a number of at most w digits. */
  function Padded(n: nat, w: nat): (s: string)
    ensures |s| == w
  {
    if w == 0 then "" else Padded(n / 10, w - 1) + [DigitChar(n % 10)]
  }

  function FileName(nanos: nat, count: nat): string {
    Padded(nanos, 20) + ("-" + (Padded(count % SEQ_LIMIT, 6) + ".json"))
  }

  lemma {:induction false} PaddedValue(n: nat, w: nat)
    requires n < Pow10(w)
    ensures (forall c :: c in Padded(n, w) ==> IsDigit(c)) && DigitsValue(Padded(n, w)) == n
  {
    if w > 0 {
      PaddedValue(n / 10, w - 1);
      var s := Padded(n, w);
      assert s[..|s| - 1] == Padded(n / 10, w - 1);
    }
  }

  /** The name of a batch: twenty digits of nanoseconds, a dash, six digits of the counter, .json. */
  lemma NameSays(nanos: nat, count: nat)
    requires nanos < Pow10(20)
    ensures var name := FileName(nanos, count);
      && |name| == 32 && name[20] == '-' && name[27..] == ".json"
      && (forall c :: c in name[..20] ==> IsDigit(c)) && DigitsValue(name[..20]) == nanos
      && (forall c :: c in name[21..27] ==> IsDigit(c)) && DigitsValue(name[21..27]) == count % 1_000_000
  {
    var name, a, b := FileName(nanos, count), Padded(nanos, 20), Padded(count % SEQ_LIMIT, 6);
    SixDigits();
    PaddedValue(nanos, 20);
    PaddedValue(count % SEQ_LIMIT, 6);
    assert name == a + ("-" + (b + ".json"));
    assert name[..20] == a && name[21..27] == b && name[27..] == ".json";
  }

  lemma SixDigits()
    ensures Pow10(6) == SEQ_LIMIT
  {
    assert Pow10(3) == 1000;
    assert Pow10(6) == 1000 * Pow10(3);
  }

  /** Go's string order. */
  predicate Before(s: string, t: string) {
    t != "" && (s == "" || s[0] < t[0] || (s[0] == t[0] && Before(s[1..], t[1..])))
  }

  lemma {:induction false} SharedPrefix(p: string, s: string, t: string)
    ensures Before(p + s, p + t) == Before(s, t)
    decreases |p|
  {
    if p == "" {
      assert p + s == s && p + t == t;
    } else {
      SharedPrefix(p[1..], s, t);
      assert (p + s)[1..] == p[1..] + s && (p + t)[1..] == p[1..] + t;
    }
  }

  /** Padding makes the text order the numeric order, whatever follows. */
  lemma {:induction false} PaddedOrder(m: nat, n: nat, w: nat, s: string, t: string)
    requires m < n < Pow10(w)
    ensures Before(Padded(m, w) + s, Padded(n, w) + t) && !Before(Padded(n, w) + t, Padded(m, w) + s)
    decreases w
  {
    var p, q := Padded(m / 10, w - 1), Padded(n / 10, w - 1);
    var c, d := DigitChar(m % 10), DigitChar(n % 10);
    assert Padded(m, w) + s == p + ([c] + s) && Padded(n, w) + t == q + ([d] + t);
    if m / 10 < n / 10 {
      PaddedOrder(m / 10, n / 10, w - 1, [c] + s, [d] + t);
    } else {
      SharedPrefix(p, [c] + s, [d] + t);
      SharedPrefix(p, [d] + t, [c] + s);
    }
  }

  lemma {:induction false} Irreflexive(s: string)
    ensures !Before(s, s)
  {
    if s != "" { Irreflexive(s[1..]); }
  }

  lemma {:induction false} Asymmetric(s: string, t: string)
    requires Before(s, t)
    ensures !Before(t, s)
  {
    if s != "" && s[0] == t[0] { Asymmetric(s[1..], t[1..]); }
  }

  lemma {:induction false} Transitive(s: string, t: string, u: string)
    requires Before(s, t) && Before(t, u)
    ensures Before(s, u)
  {
    if s != "" && s[0] == t[0] == u[0] { Transitive(s[1..], t[1..], u[1..]); }
  }

  lemma {:induction false} Total(s: string, t: string)
    ensures s == t || Before(s, t) || Before(t, s)
  {
    if s != "" && t != "" && s[0] == t[0] {
      Total(s[1..], t[1..]);
      assert s == [s[0]] + s[1..] && t == [t[0]] + t[1..];
    }
  }

  predicate HasSuffix(s: string, suffix: string) {
    |s| >= |suffix| && s[|s| - |suffix|..] == suffix
  }

  lemma FileNameIsJson(nanos: nat, count: nat)
    ensures HasSuffix(FileName(nanos, count), ".json")
  {
    var head := Padded(nanos, 20) + ("-" + Padded(count % SEQ_LIMIT, 6));
    assert FileName(nanos, count) == head + ".json";
  }

  /** Sorting names sorts by time of saving; within one nanosecond by the wrapped counter. */
  lemma NamesSortByStamp(t1: nat, q1: nat, t2: nat, q2: nat)
    requires t1 < Pow10(20) && t2 < Pow10(20)
    ensures Before(FileName(t1, q1), FileName(t2, q2)) <==>
      t1 < t2 || (t1 == t2 && q1 % SEQ_LIMIT < q2 % SEQ_LIMIT)
  {
    var c1, c2 := Padded(q1 % SEQ_LIMIT, 6) + ".json", Padded(q2 % SEQ_LIMIT, 6) + ".json";
    if t1 < t2 {
      PaddedOrder(t1, t2, 20, "-" + c1, "-" + c2);
    } else if t2 < t1 {
      PaddedOrder(t2, t1, 20, "-" + c2, "-" + c1);
    } else {
      SharedPrefix(Padded(t1, 20), "-" + c1, "-" + c2);
      SharedPrefix("-", c1, c2);
      CounterOrder(q1 % SEQ_LIMIT, q2 % SEQ_LIMIT);
    }
  }

  lemma CounterOrder(m: nat, n: nat)
    requires m < SEQ_LIMIT && n < SEQ_LIMIT
    ensures Before(Padded(m, 6) + ".json", Padded(n, 6) + ".json") <==> m < n
  {
    SixDigits();
    if m < n {
      PaddedOrder(m, n, 6, ".json", ".json");
    } else if n < m {
      PaddedOrder(n, m, 6, ".json", ".json");
    } else {
      Irreflexive(Padded(m, 6) + ".json");
    }
  }
}

/** Sorted listings of stamps. */
module Stamps {
  type Stamp = nat

  ghost predicate Increasing(s: seq<Stamp>) {
    forall i, j :: 0 <= i < j < |s| ==> s[i] < s[j]
  }

  ghost function Range(s: seq<Stamp>): set<Stamp> { set x | x in s }

  /** s lists exactly the stamps in ks, oldest first. */
  ghost predicate Lists(s: seq<Stamp>, ks: set<Stamp>) {
    Increasing(s) && Range(s) == ks
  }

  lemma {:induction false} RangeSize(s: seq<Stamp>)
    requires Increasing(s)
    ensures |Range(s)| == |s|
  {
    if s != [] {
      var rest := s[1..];
      assert Range(s) == {s[0]} + Range(rest);
      assert s[0] !in Range(rest);
      RangeSize(rest);
    }
  }

  ghost function NewerThan(ks: set<Stamp>, x: Stamp): set<Stamp> { set k | k in ks && k > x }

  lemma SubsetSize(a: set<Stamp>, b: set<Stamp>)
    requires a <= b
    ensures |a| <= |b|
  {
    assert b == a + (b - a);
  }

  /** Cutting a listing in two separates the older stamps from the newer ones. */
  lemma SplitRange(s: seq<Stamp>, ks: set<Stamp>, n: nat)
    requires Lists(s, ks) && n <= |s|
    ensures ks - Range(s[..n]) == Range(s[n..]) && |Range(s[n..])| == |s| - n
  {
    assert s == s[..n] + s[n..];
    RangeSize(s[n..]);
  }

  lemma OlderFirst(s: seq<Stamp>, n: nat, x: Stamp, y: Stamp)
    requires Increasing(s) && n <= |s| && x in Range(s[..n]) && y in Range(s[n..])
    ensures x < y
  {
  }
}

/** Sorted listings of file names, and what they say about the stamps in the names. */
module NameListings {
  import opened BufferNames
  import opened Stamps

  ghost predicate Sorted(s: seq<string>) {
    forall i, j :: 0 <= i < j < |s| ==> Before(s[i], s[j])
  }

  ghost function Names(s: seq<string>): set<string> { set n | n in s }

  /** s lists exactly the names in ns, in Go's string order. */
  ghost predicate ListsNames(s: seq<string>, ns: set<string>) {
    Sorted(s) && Names(s) == ns
  }

  ghost function After(ns: set<string>, n: string): set<string> { set m | m in ns && Before(n, m) }

  lemma {:induction false} NamesSize(s: seq<string>)
    requires Sorted(s)
    ensures |Names(s)| == |s|
  {
    if s != [] {
      var rest := s[1..];
      assert Names(s) == {s[0]} + Names(rest);
      Irreflexive(s[0]);
      assert s[0] !in Names(rest);
      NamesSize(rest);
    }
  }

  /** What comes after the i-th name of a listing is the rest of the listing. */
  lemma RestIsAfter(s: seq<string>, ns: set<string>, i: nat)
    requires ListsNames(s, ns) && i < |s|
    ensures After(ns, s[i]) == Names(s[i + 1..]) && |After(ns, s[i])| == |s| - i - 1
  {
    forall m | m in After(ns, s[i]) ensures m in Names(s[i + 1..]) {
      var j :| 0 <= j < |s| && s[j] == m;
      if j < i { Asymmetric(s[j], s[i]); }
      Irreflexive(s[i]);
      assert s[i + 1..][j - i - 1] == m;
    }
    forall m | m in Names(s[i + 1..]) ensures m in After(ns, s[i]) {
      var j :| 0 <= j < |s[i + 1..]| && s[i + 1..][j] == m;
      assert s[i + 1 + j] == m;
    }
    NamesSize(s[i + 1..]);
  }

  method Least(ns: set<string>) returns (m: string)
    requires ns != {}
    ensures m in ns && forall n :: n in ns ==> n == m || Before(m, n)
  {
    m :| m in ns;
    var todo := ns;
    while todo != {}
      invariant m in ns && todo <= ns && forall n :: n in ns ==> n in todo || n == m || Before(m, n)
      decreases |todo|
    {
      var n :| n in todo;
      Total(m, n);
      if Before(n, m) {
        forall k | k in ns && Before(m, k) ensures Before(n, k) { Transitive(n, m, k); }
        m := n;
      }
      todo := todo - {n};
    }
  }

  /** Directory entries in any order, sorted. */
  method Sort(ns: set<string>) returns (s: seq<string>)
    ensures ListsNames(s, ns)
    decreases |ns|
  {
    if ns == {} { return []; }
    var m := Least(ns);
    var rest := Sort(ns - {m});
    s := [m] + rest;
    assert Names(s) == {m} + Names(rest);
    forall i | 0 <= i < |rest| ensures Before(m, rest[i]) { assert rest[i] in Names(rest); }
  }

  // ---------------------------------------------------------------- listings by stamp

  /** A stamp is a nanosecond and a wrapped counter in one number, and the name that goes with it. */
  function StampAt(nanos: nat, count: nat): Stamp { nanos * SEQ_LIMIT + count % SEQ_LIMIT }

  function NameOf(k: Stamp): string { FileName(k / SEQ_LIMIT, k % SEQ_LIMIT) }

  lemma NameOfStamp(nanos: nat, count: nat)
    ensures NameOf(StampAt(nanos, count)) == FileName(nanos, count)
  {
    StampParts(nanos, count % SEQ_LIMIT);
  }

  lemma StampParts(nanos: nat, q: nat)
    requires q < SEQ_LIMIT
    ensures (nanos * SEQ_LIMIT + q) / SEQ_LIMIT == nanos && (nanos * SEQ_LIMIT + q) % SEQ_LIMIT == q && q % SEQ_LIMIT == q
  {
  }

  /** The nanoseconds fit in the 20 digits of a name. */
  predicate Fits(k: Stamp) { k / SEQ_LIMIT < Pow10(20) }

  /** The string order of names is the order of their stamps. */
  lemma NamesOrder(a: Stamp, b: Stamp)
    requires Fits(a) && Fits(b)
    ensures Before(NameOf(a), NameOf(b)) <==> a < b
  {
    var t, q, u, r := a / SEQ_LIMIT, a % SEQ_LIMIT, b / SEQ_LIMIT, b % SEQ_LIMIT;
    NamesSortByStamp(t, q, u, r);
    Lexicographic(t, q, u, r);
  }

  lemma Lexicographic(t: nat, q: nat, u: nat, r: nat)
    requires q < SEQ_LIMIT && r < SEQ_LIMIT
    ensures t * SEQ_LIMIT + q < u * SEQ_LIMIT + r <==> t < u || (t == u && q < r)
    ensures q % SEQ_LIMIT == q && r % SEQ_LIMIT == r
  {
  }

  ghost function NamesOf(ks: set<Stamp>): set<string> { set k | k in ks :: NameOf(k) }

  ghost function StampOf(n: string, ks: set<Stamp>): (k: Stamp)
    requires n in NamesOf(ks)
    ensures k in ks && n == NameOf(k)
  {
    var k :| k in ks && n == NameOf(k);
    k
  }

  lemma NameTellsStamp(k: Stamp, m: Stamp)
    requires Fits(k) && Fits(m) && NameOf(k) == NameOf(m)
    ensures k == m
  {
    NamesOrder(k, m);
    NamesOrder(m, k);
    Irreflexive(NameOf(k));
  }

  /** Listing file names in string order lists their stamps in increasing order: what the buffer
      sorts is what the delivery protocol assumes of its listings. */
  lemma NamesListStamps(names: seq<string>, ks: set<Stamp>) returns (stamps: seq<Stamp>)
    requires (forall k :: k in ks ==> Fits(k)) && ListsNames(names, NamesOf(ks))
    ensures |stamps| == |names| && Lists(stamps, ks)
    ensures forall i :: 0 <= i < |names| ==> names[i] == NameOf(stamps[i])
  {
    assert forall i :: 0 <= i < |names| ==> names[i] in Names(names);
    stamps := seq(|names|, i requires 0 <= i < |names| => StampOf(names[i], ks));
    forall i, j | 0 <= i < j < |stamps| ensures stamps[i] < stamps[j] {
      NamesOrder(stamps[i], stamps[j]);
    }
    forall k | k in ks ensures k in Range(stamps) {
      assert NameOf(k) in Names(names);
      var i :| 0 <= i < |names| && names[i] == NameOf(k);
      NameTellsStamp(k, stamps[i]);
    }
  }
}

/** The disk buffer as an object: a directory of batches, pruned on every save. */
module DiskBuffer {
  import opened BufferNames
  import opened NameListings

  type Batch = string

  datatype Entry = Subdir | File(body: Batch)

  type Directory = map<string, Entry>

  predicate IsBatch(d: Directory, n: string) { n in d && d[n].File? && HasSuffix(n, ".json") }

  /** The names the buffer counts as batches; anything else in the directory is left alone. */
  function Batches(d: Directory): set<string> { set n | n in d && IsBatch(d, n) }

  /** Among the oldest beyond max: at least max batches sort after it. */
  ghost predicate Doomed(d: Directory, n: string, max: nat) {
    n in Batches(d) && |After(Batches(d), n)| >= max
  }

  /** The directory without its doomed batches, save those whose removal fails. */
  ghost function Pruned(d: Directory, max: nat, stuck: set<string>): Directory {
    map n | n in d && !(Doomed(d, n, max) && n !in stuck) :: d[n]
  }

  /** At most max batches are left; whatever was dropped sorts before everything kept, and
      something is dropped only down to max. */
  ghost predicate KeptNewest(before: Directory, after: Directory, max: nat) {
    && |Batches(after)| <= max
    && (forall k, n :: k in before && k !in after && n in Batches(after) ==> Before(k, n))
    && (after != before ==> |Batches(after)| == max)
  }

  /** In a listing the doomed batches are the first ones, all but the last max. */
  lemma DoomedAreFirst(d: Directory, s: seq<string>, max: nat)
    requires ListsNames(s, Batches(d))
    ensures var k := if |s| > max then |s| - max else 0;
      forall n :: Doomed(d, n, max) <==> n in s[..k]
  {
    var k := if |s| > max then |s| - max else 0;
    forall j | 0 <= j < k ensures s[j] in s[..k] { assert s[..k][j] == s[j]; }
    forall n ensures Doomed(d, n, max) <==> n in s[..k] {
      if n in s[..k] {
        var j :| 0 <= j < k && s[..k][j] == n;
        RestIsAfter(s, Batches(d), j);
        assert s[j] in Names(s);
      } else if n in Batches(d) {
        var i :| 0 <= i < |s| && s[i] == n;
        RestIsAfter(s, Batches(d), i);
      }
    }
  }

  lemma PruneKeepsNewest(d: Directory, s: seq<string>, max: nat)
    requires ListsNames(s, Batches(d))
    ensures KeptNewest(d, Pruned(d, max, {}), max)
  {
    DoomedAreFirst(d, s, max);
    var k := if |s| > max then |s| - max else 0;
    var d' := Pruned(d, max, {});
    assert Batches(d') == Names(s[k..]) by {
      forall n ensures n in Batches(d') <==> n in Names(s[k..]) { KeptIsLater(s, k, n); }
    }
    NamesSize(s[k..]);
    forall m, n | m in d && m !in d' && n in Batches(d') ensures Before(m, n) {
      var i :| 0 <= i < k && s[..k][i] == m;
      var j :| 0 <= j < |s[k..]| && s[k..][j] == n;
      assert Before(s[i], s[k + j]);
    }
    if |s| <= max { assert d' == d; }
  }

  lemma KeptIsLater(s: seq<string>, k: nat, n: string)
    requires Sorted(s) && k <= |s|
    ensures n in Names(s[k..]) <==> n in Names(s) && n !in s[..k]
  {
    assert s == s[..k] + s[k..];
    if n in s[..k] && n in s[k..] { Irreflexive(n); }
  }

  /** The batch just written survives the prune that follows exactly when fewer than max batches
      have later names, or its removal fails. */
  lemma SurvivesOwnSave(d: Directory, n: string, body: Batch, max: nat, stuck: set<string>)
    requires HasSuffix(n, ".json")
    ensures n in Pruned(d[n := File(body)], max, stuck) <==> |After(Batches(d), n)| < max || n in stuck
  {
    var d' := d[n := File(body)];
    Irreflexive(n);
    assert n in Batches(d');
    assert After(Batches(d'), n) == After(Batches(d), n);
  }

  /** It need not survive: saved into a buffer of one batch after the clock was set back, a batch is
      dropped by its own save. */
  lemma DroppedByOwnSave(nanos: nat, count: nat, setBack: nat, body: Batch)
    requires setBack < nanos < Pow10(20)
    ensures var first, second := FileName(nanos, count), FileName(setBack, count + 1);
      second !in Pruned(map[first := File(body)][second := File(body)], 1, {})
  {
    var first, second := FileName(nanos, count), FileName(setBack, count + 1);
    var d: Directory := map[first := File(body)];
    FileNameIsJson(nanos, count);
    FileNameIsJson(setBack, count + 1);
    NamesSortByStamp(setBack, count + 1, nanos, count);
    assert After(Batches(d), second) == {first};
    SurvivesOwnSave(d, second, body, 1, {});
  }

  class Buffer {
    var dir: Directory
    var count: nat
    const max: nat

    constructor (dir: Directory, max: int)
      ensures this.dir == dir && count == 0 && this.max == (if max <= 0 then 1000 else max)
    {
      this.dir, count := dir, 0;
      this.max := if max <= 0 then 1000 else max;
    }

    /** The batches, oldest first; an error if the directory cannot be read. */
    method Pending(listOk: bool) returns (s: seq<string>, ok: bool)
      ensures ok == listOk && (ok ==> ListsNames(s, Batches(dir)))
    {
      if !listOk { return [], false; }
      s := Sort(Batches(dir));
      ok := true;
    }

    method Remove(n: string, removeOk: bool) returns (ok: bool)
      modifies this`dir
      ensures ok <==> n in old(dir) && removeOk
      ensures dir == if ok then old(dir) - {n} else old(dir)
    {
      if n !in dir || !removeOk { return false; }
      dir := dir - {n};
      return true;
    }

    /** Writes one batch under a fresh name and prunes. A failed write changes nothing; a failed
        listing is reported, but the batch is on disk; a failed removal is ignored. */
    method Save(body: Batch, nanos: nat, writeOk: bool, listOk: bool, stuck: set<string>) returns (ok: bool)
      modifies this
      ensures count == old(count) + 1
      ensures
        var name := FileName(nanos, old(count) + 1);
        var written := writeOk && !(name in old(dir) && old(dir)[name].Subdir?);
        && (ok <==> written && listOk)
        && (!written ==> dir == old(dir))
        && (written && !listOk ==> dir == old(dir)[name := File(body)] && name in Batches(dir))
        && (ok ==> dir == Pruned(old(dir)[name := File(body)], max, stuck))
        && (ok ==> (name in dir <==> |After(Batches(old(dir)), name)| < max || name in stuck))
        && (ok && stuck == {} ==> KeptNewest(old(dir)[name := File(body)], dir, max))
    {
      count := count + 1;
      var name := FileName(nanos, count);
      FileNameIsJson(nanos, count);
      if !writeOk || (name in dir && dir[name].Subdir?) { return false; }
      SurvivesOwnSave(dir, name, body, max, stuck);
      dir := dir[name := File(body)];
      ok := Prune(listOk, stuck);
    }

    method Prune(listOk: bool, stuck: set<string>) returns (ok: bool)
      modifies this`dir
      ensures ok == listOk
      ensures dir == if ok then Pruned(old(dir), max, stuck) else old(dir)
      ensures ok && stuck == {} ==> KeptNewest(old(dir), dir, max)
    {
      var s;
      s, ok := Pending(listOk);
      if !ok { return; }
      DoomedAreFirst(dir, s, max);
      PruneKeepsNewest(dir, s, max);
      if |s| > max { RemoveAll(s[..|s| - max], stuck); }
    }

    method RemoveAll(victims: seq<string>, stuck: set<string>)
      modifies this`dir
      ensures dir == map n | n in old(dir) && !(n in victims && n !in stuck) :: old(dir)[n]
    {
      for i := 0 to |victims|
        invariant dir == map n | n in old(dir) && !(n in victims[..i] && n !in stuck) :: old(dir)[n]
      {
        assert victims[..i + 1] == victims[..i] + [victims[i]];
        var _ := Remove(victims[i], victims[i] !in stuck);
      }
      assert victims[..|victims|] == victims;
    }
  }
}

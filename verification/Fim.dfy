/** Copies of watched files: a first-write-wins baseline per path, and a content-addressed store of
    dated versions. */
module Snapshots {
  import opened Text

  type Path = string
  type Content = string

  predicate IsHex(c: char) { '0' <= c <= '9' || 'a' <= c <= 'f' || 'A' <= c <= 'F' }

  predicate BlobKey(s: string) {
    |s| == 64 && forall i :: 0 <= i < |s| ==> IsHex(s[i])
  }

  /** The sixteen digits, in either case. */
  lemma HexDigits(c: char)
    ensures IsHex(c) <==> c in "0123456789abcdefABCDEF"
  {
    if IsHex(c) { HexAt(c); }
  }

  lemma HexAt(c: char)
    requires IsHex(c)
    ensures c in "0123456789abcdefABCDEF"
  {
    var digits := "0123456789abcdefABCDEF";
    var i := if c <= '9' then c as int - '0' as int else if c <= 'F' then 16 + (c as int - 'A' as int) else 10 + (c as int - 'a' as int);
    assert digits[i] == c;
  }

  method ValidBlobKey(s: string) returns (ok: bool)
    ensures ok <==> BlobKey(s)
  {
    if |s| != 64 { return false; }
    for i := 0 to |s|
      invariant forall k :: 0 <= k < i ==> IsHex(s[k])
    {
      if !IsHex(s[i]) { return false; }
    }
    return true;
  }

  /** No accepted key can name anything outside the blobs directory. */
  lemma BlobKeyIsOneSegment(s: string)
    requires BlobKey(s)
    ensures '/' !in s && '\\' !in s && '.' !in s
  {
    forall i | 0 <= i < |s| ensures s[i] != '/' && s[i] != '\\' && s[i] != '.' {
      assert IsHex(s[i]);
    }
  }

  /** The watched files. */
  class FileSystem {
    var files: map<Path, Content>

    constructor (files: map<Path, Content>)
      ensures this.files == files
    {
      this.files := files;
    }

    /** writeAtomic: a temporary file renamed over the target, or no change at all. */
    method WriteAtomic(path: Path, content: Content, writeOk: bool) returns (ok: bool)
      modifies this
      ensures ok == writeOk && files == if writeOk then old(files)[path := content] else old(files)
    {
      if !writeOk { return false; }
      files := files[path := content];
      return true;
    }
  }

  class Store {
    var baselines: map<Path, Content>
    var blobs: map<string, Content>

    constructor ()
      ensures baselines == map[] && blobs == map[]
    {
      baselines, blobs := map[], map[];
    }

    /** First write wins; a failed write leaves no snapshot. */
    method Ensure(path: Path, content: Content, writeOk: bool)
      modifies this`baselines
      ensures baselines == if path in old(baselines) || !writeOk then old(baselines) else old(baselines)[path := content]
    {
      if path in baselines { return; }
      if writeOk { baselines := baselines[path := content]; }
    }

    method Read(path: Path, readOk: bool) returns (content: Option<Content>)
      ensures content == if path in baselines && readOk then Some(baselines[path]) else None
    {
      if path !in baselines || !readOk { return None; }
      return Some(baselines[path]);
    }

    /** created says that the content is new; ok is false for a refused key or a failed write. */
    method SaveVersion(sha: string, content: Content, writeOk: bool) returns (created: bool, ok: bool)
      modifies this`blobs
      ensures ok <==> sha == "" || (BlobKey(sha) && (sha in old(blobs) || writeOk))
      ensures created <==> BlobKey(sha) && sha !in old(blobs) && writeOk
      ensures blobs == if created then old(blobs)[sha := content] else old(blobs)
    {
      if sha == "" { return false, true; }
      var valid := ValidBlobKey(sha);
      if !valid { return false, false; }
      if sha in blobs { return false, true; }
      if !writeOk { return false, false; }
      blobs := blobs[sha := content];
      return true, true;
    }

    method ReadVersion(sha: string, readOk: bool) returns (content: Option<Content>)
      ensures content == if BlobKey(sha) && sha in blobs && readOk then Some(blobs[sha]) else None
    {
      if sha == "" { return None; }
      var valid := ValidBlobKey(sha);
      if !valid || sha !in blobs || !readOk { return None; }
      return Some(blobs[sha]);
    }

    /** Writes the baseline back; without one, or when a read or the write fails, nothing changes. */
    method Restore(fs: FileSystem, path: Path, readOk: bool, writeOk: bool) returns (ok: bool)
      modifies fs
      ensures ok <==> path in baselines && readOk && writeOk
      ensures fs.files == if ok then old(fs.files)[path := baselines[path]] else old(fs.files)
    {
      var content := Read(path, readOk);
      if content.None? { return false; }
      ok := fs.WriteAtomic(path, content.value, writeOk);
    }

    method RestoreVersion(fs: FileSystem, path: Path, sha: string, readOk: bool, writeOk: bool) returns (ok: bool)
      modifies fs
      ensures ok <==> BlobKey(sha) && sha in blobs && readOk && writeOk
      ensures fs.files == if ok then old(fs.files)[path := blobs[sha]] else old(fs.files)
    {
      var content := ReadVersion(sha, readOk);
      if content.None? { return false; }
      ok := fs.WriteAtomic(path, content.value, writeOk);
    }

    method RestoreContent(fs: FileSystem, path: Path, content: Content, writeOk: bool) returns (ok: bool)
      modifies fs
      ensures ok == writeOk && fs.files == if writeOk then old(fs.files)[path := content] else old(fs.files)
    {
      ok := fs.WriteAtomic(path, content, writeOk);
    }
  }
}

/** The integrity scanner: each scan replaces the baseline and reports the differences. */
module Scanner {
  import opened Text
  import opened Snapshots
  import LineDiff

  datatype FileState = FileState(
    sha256: string, size: nat, mode: string, content: Content, isText: bool, entropy: real)

  type Tree = map<Path, FileState>

  datatype Action = Created | Modified | Deleted | Encrypted

  datatype Change = Change(
    path: Path, action: Action, sha256: string, size: nat, mode: string, diff: string, entropy: real)

  const MIN_ENTROPY_BYTES := 64

  predicate LooksEncrypted(st: FileState, threshold: real) {
    threshold <= 8.0 && st.size >= MIN_ENTROPY_BYTES && !st.isText && st.entropy >= threshold
  }

  function MakeChange(path: Path, action: Action, st: FileState): Change {
    if action == Deleted then Change(path, action, "", st.size, st.mode, "", 0.0)
    else Change(path, action, st.sha256, st.size, st.mode, "", st.entropy)
  }

  // ---------------------------------------------------------------- what a scan must report

  /** What integrity is about: hash, size and permissions. */
  datatype Print = Print(sha256: string, size: nat, mode: string)

  function PrintOf(st: FileState): Print { Print(st.sha256, st.size, st.mode) }

  ghost function View(t: Tree): map<Path, Print> { map p | p in t :: PrintOf(t[p]) }

  /** The change to report for one path, if any. */
  ghost function Expected(prev: Tree, cur: Tree, path: Path, threshold: real): Option<Change> {
    if path in cur && path !in prev then
      Some(MakeChange(path, if LooksEncrypted(cur[path], threshold) then Encrypted else Created, cur[path]))
    else if path in cur && PrintOf(prev[path]) != PrintOf(cur[path]) then
      var c := MakeChange(path, if prev[path].isText && LooksEncrypted(cur[path], threshold) then Encrypted else Modified, cur[path]);
      Some(c.(diff := if prev[path].isText && cur[path].isText
                      then LineDiff.DiffText(prev[path].content, cur[path].content) else ""))
    else if path !in cur && path in prev then Some(MakeChange(path, Deleted, prev[path]))
    else None
  }

  ghost predicate OncePerPath(changes: seq<Change>) {
    forall i, j :: 0 <= i < j < |changes| ==> changes[i].path != changes[j].path
  }

  ghost predicate Mentions(changes: seq<Change>, path: Path) {
    exists i :: 0 <= i < |changes| && changes[i].path == path
  }

  /** Exactly the expected changes of the paths done so far, each once, in any order. */
  ghost predicate Reports(prev: Tree, cur: Tree, changes: seq<Change>, done: set<Path>, threshold: real) {
    && OncePerPath(changes)
    && (forall i :: 0 <= i < |changes| ==>
         changes[i].path in done && Expected(prev, cur, changes[i].path, threshold) == Some(changes[i]))
    && (forall p :: p in done && Expected(prev, cur, p, threshold).Some? ==> Mentions(changes, p))
  }

  lemma ReportOne(prev: Tree, cur: Tree, changes: seq<Change>, done: set<Path>, threshold: real, p: Path)
    requires Reports(prev, cur, changes, done, threshold) && p !in done
    ensures var e := Expected(prev, cur, p, threshold);
      Reports(prev, cur, if e.Some? then changes + [e.value] else changes, done + {p}, threshold)
  {
    var e := Expected(prev, cur, p, threshold);
    var changes' := if e.Some? then changes + [e.value] else changes;
    forall q | q in done + {p} && Expected(prev, cur, q, threshold).Some? ensures Mentions(changes', q) {
      if q == p {
        assert changes'[|changes|].path == p;
      } else {
        var i :| 0 <= i < |changes| && changes[i].path == q;
        assert changes'[i] == changes[i];
      }
    }
  }

  // ---------------------------------------------------------------- replay

  ghost function Replay(view: map<Path, Print>, changes: seq<Change>): map<Path, Print> {
    if changes == [] then view
    else
      var c := changes[|changes| - 1];
      var before := Replay(view, changes[..|changes| - 1]);
      if c.action == Deleted then before - {c.path} else before[c.path := Print(c.sha256, c.size, c.mode)]
  }

  /** What replaying does to one path: its only change decides, or nothing does. */
  lemma {:induction false} ReplayPath(view: map<Path, Print>, changes: seq<Change>, p: Path)
    requires OncePerPath(changes)
    ensures var r := Replay(view, changes);
      && (!Mentions(changes, p) ==> (p in r <==> p in view) && (p in r ==> r[p] == view[p]))
      && (forall i :: 0 <= i < |changes| && changes[i].path == p ==>
           (p in r <==> changes[i].action != Deleted)
           && (p in r ==> r[p] == Print(changes[i].sha256, changes[i].size, changes[i].mode)))
  {
    if changes != [] {
      var n := |changes| - 1;
      var init := changes[..n];
      ReplayPath(view, init, p);
      assert forall i :: 0 <= i < n ==> init[i] == changes[i];
      assert Mentions(init, p) ==> Mentions(changes, p);
    }
  }

  /** Folding one scan's changes over the previous view gives exactly the new view. */
  lemma ReplayScan(prev: Tree, cur: Tree, changes: seq<Change>, threshold: real)
    requires Reports(prev, cur, changes, prev.Keys + cur.Keys, threshold)
    ensures Replay(View(prev), changes) == View(cur)
  {
    var r := Replay(View(prev), changes);
    forall p ensures p in r <==> p in View(cur)
      ensures p in r ==> r[p] == View(cur)[p]
    {
      ReplayPath(View(prev), changes, p);
      var e := Expected(prev, cur, p, threshold);
      if Mentions(changes, p) {
        var i :| 0 <= i < |changes| && changes[i].path == p;
        assert e == Some(changes[i]);
      } else {
        assert e.None?;
      }
    }
  }

  // ---------------------------------------------------------------- the scan

  /** What one scan of an unprimed (None) or primed scanner may emit; walk None is a failed walk. */
  ghost predicate Emits(base: Option<Tree>, walk: Option<Tree>, changes: seq<Change>, threshold: real) {
    if base.None? || walk.None? then changes == []
    else Reports(base.value, walk.value, changes, base.value.Keys + walk.value.Keys, threshold)
  }

  ghost function NextBase(base: Option<Tree>, walk: Option<Tree>): Option<Tree> {
    if walk.None? then base else walk
  }

  /** Baseline snapshots after the scan went through the paths in seen: old ones stay, new text
      files are added unless their write failed. */
  ghost predicate Ensured(before: map<Path, Content>, after: map<Path, Content>, cur: Tree, seen: set<Path>, writable: set<Path>)
    requires seen <= cur.Keys
  {
    && (forall p :: p in after <==> p in before || (p in seen && cur[p].isText && p in writable))
    && (forall p :: p in before ==> after[p] == before[p])
    && (forall p :: p in after && p !in before ==> after[p] == cur[p].content)
  }

  class FimScanner {
    var baseline: Tree
    var primed: bool
    const snaps: Store?
    const threshold: real

    constructor (snaps: Store?, threshold: real)
      ensures Base() == None && this.snaps == snaps && this.threshold == threshold
    {
      baseline, primed := map[], false;
      this.snaps, this.threshold := snaps, threshold;
    }

    ghost function Base(): Option<Tree>
      reads this
    {
      if primed then Some(baseline) else None
    }

    /** One scan. The walk over the roots is a parameter: the tree it found, or None if it failed. */
    method Scan(walk: Option<Tree>, writable: set<Path>) returns (changes: seq<Change>, ok: bool)
      modifies this, snaps
      ensures ok <==> walk.Some?
      ensures Emits(old(Base()), walk, changes, threshold)
      ensures Base() == NextBase(old(Base()), walk)
      ensures snaps != null && walk.Some? ==> Ensured(old(snaps.baselines), snaps.baselines, walk.value, walk.value.Keys, writable)
      ensures snaps != null && walk.None? ==> snaps.baselines == old(snaps.baselines)
      ensures snaps != null ==> snaps.blobs == old(snaps.blobs)
    {
      if walk.None? { return [], false; }
      var current := walk.value;
      if snaps != null { EnsureAll(current, writable); }
      if !primed {
        baseline, primed := current, true;
        return [], true;
      }
      changes := Compare(baseline, current, threshold);
      baseline := current;
      return changes, true;
    }

    method EnsureAll(current: Tree, writable: set<Path>)
      requires snaps != null
      modifies snaps`baselines
      ensures Ensured(old(snaps.baselines), snaps.baselines, current, current.Keys, writable)
    {
      var todo := current.Keys;
      ghost var done: set<Path> := {};
      while todo != {}
        invariant done + todo == current.Keys && done !! todo
        invariant Ensured(old(snaps.baselines), snaps.baselines, current, done, writable)
        decreases |todo|
      {
        var p :| p in todo;
        if current[p].isText {
          snaps.Ensure(p, current[p].content, p in writable);
        }
        todo, done := todo - {p}, done + {p};
      }
      assert done == current.Keys;
    }
  }

  /** The two comparison loops, over the maps in whatever order they yield their entries. */
  method Compare(prev: Tree, cur: Tree, threshold: real) returns (changes: seq<Change>)
    ensures Reports(prev, cur, changes, prev.Keys + cur.Keys, threshold)
  {
    changes := CompareCurrent(prev, cur, threshold);
    changes := CompareDeleted(prev, cur, threshold, changes);
  }

  method CompareCurrent(prev: Tree, cur: Tree, threshold: real) returns (changes: seq<Change>)
    ensures Reports(prev, cur, changes, cur.Keys, threshold)
  {
    changes := [];
    var todo := cur.Keys;
    ghost var done: set<Path> := {};
    while todo != {}
      invariant done + todo == cur.Keys && done !! todo
      invariant Reports(prev, cur, changes, done, threshold)
      decreases |todo|
    {
      var p :| p in todo;
      var c := CompareFile(prev, cur, p, threshold);
      ReportOne(prev, cur, changes, done, threshold, p);
      if c.Some? { changes := changes + [c.value]; }
      todo, done := todo - {p}, done + {p};
    }
    assert done == cur.Keys;
  }

  method CompareDeleted(prev: Tree, cur: Tree, threshold: real, found: seq<Change>) returns (changes: seq<Change>)
    requires Reports(prev, cur, found, cur.Keys, threshold)
    ensures Reports(prev, cur, changes, prev.Keys + cur.Keys, threshold)
  {
    changes := found;
    var todo := prev.Keys;
    ghost var done := cur.Keys;
    while todo != {}
      invariant todo <= prev.Keys && cur.Keys <= done <= prev.Keys + cur.Keys
      invariant forall p :: p in prev ==> p in done || p in todo
      invariant forall p :: p in todo && p in done ==> p in cur
      invariant Reports(prev, cur, changes, done, threshold)
      decreases |todo|
    {
      var p :| p in todo;
      todo := todo - {p};
      if p !in cur {
        ReportDeleted(prev, cur, changes, done, threshold, p);
        changes, done := changes + [MakeChange(p, Deleted, prev[p])], done + {p};
      }
    }
    assert done == prev.Keys + cur.Keys;
  }

  lemma ReportDeleted(prev: Tree, cur: Tree, changes: seq<Change>, done: set<Path>, threshold: real, p: Path)
    requires Reports(prev, cur, changes, done, threshold) && p !in done && p in prev && p !in cur
    ensures Reports(prev, cur, changes + [MakeChange(p, Deleted, prev[p])], done + {p}, threshold)
  {
    ReportOne(prev, cur, changes, done, threshold, p);
  }

  method CompareFile(prev: Tree, cur: Tree, path: Path, threshold: real) returns (c: Option<Change>)
    requires path in cur
    ensures c == Expected(prev, cur, path, threshold)
  {
    var st := cur[path];
    if path !in prev {
      return Some(MakeChange(path, if LooksEncrypted(st, threshold) then Encrypted else Created, st));
    }
    var was := prev[path];
    if was.sha256 == st.sha256 && was.size == st.size && was.mode == st.mode { return None; }
    var change := MakeChange(path, if was.isText && LooksEncrypted(st, threshold) then Encrypted else Modified, st);
    if was.isText && st.isText {
      var diff := LineDiff.UnifiedDiff(was.content, st.content);
      change := change.(diff := diff);
    }
    return Some(change);
  }

  // ---------------------------------------------------------------- what a reported change says

  /** High-entropy content that is no text, of at least 64 bytes; a threshold above 8 bits switches
      the test off. */
  ghost predicate Scrambled(st: FileState, threshold: real) {
    threshold <= 8.0 && st.entropy >= threshold && st.size >= 64 && !st.isText
  }

  /** Every change a scan reports, read on its own terms: deleted for a path that is gone, created for
      one that is new, modified for one whose hash, size or mode differs, and encrypted instead when
      the new content is scrambled and no binary file was there before. It carries the new hash, size
      and mode, or the old size and mode of a deleted file; and the diff from the old text to the
      new one exactly when both are text. */
  lemma ChangeSays(prev: Tree, cur: Tree, changes: seq<Change>, threshold: real, i: nat)
    requires Reports(prev, cur, changes, prev.Keys + cur.Keys, threshold) && i < |changes|
    ensures var c := changes[i];
      && (c.action == Deleted <==> c.path in prev && c.path !in cur)
      && (c.action == Created <==> c.path !in prev && c.path in cur && !Scrambled(cur[c.path], threshold))
      && (c.action == Encrypted <==> c.path in cur && Scrambled(cur[c.path], threshold) && (c.path in prev ==> prev[c.path].isText))
      && (c.action == Modified ==> c.path in prev && c.path in cur && PrintOf(prev[c.path]) != PrintOf(cur[c.path]))
      && (c.action == Deleted ==> c.size == prev[c.path].size && c.mode == prev[c.path].mode && c.sha256 == "" && c.diff == "")
      && (c.action != Deleted ==>
           c.sha256 == cur[c.path].sha256 && c.size == cur[c.path].size && c.mode == cur[c.path].mode && c.entropy == cur[c.path].entropy)
      && (c.action == Created ==> c.diff == "")
      && (c.action == Modified ==>
           c.diff == if prev[c.path].isText && cur[c.path].isText then LineDiff.DiffText(prev[c.path].content, cur[c.path].content) else "")
  {
    assert Expected(prev, cur, changes[i].path, threshold) == Some(changes[i]);
  }

  /** Nothing is missing: every path that is new, gone or different is reported, and no other. */
  lemma ReportIsComplete(prev: Tree, cur: Tree, changes: seq<Change>, threshold: real, p: Path)
    requires Reports(prev, cur, changes, prev.Keys + cur.Keys, threshold)
    ensures Mentions(changes, p) <==>
      || (p in prev && p !in cur) || (p !in prev && p in cur)
      || (p in prev && p in cur &&
           (prev[p].sha256 != cur[p].sha256 || prev[p].size != cur[p].size || prev[p].mode != cur[p].mode))
  {
    if Mentions(changes, p) {
      var i :| 0 <= i < |changes| && changes[i].path == p;
      assert Expected(prev, cur, p, threshold) == Some(changes[i]);
    }
  }

  // ---------------------------------------------------------------- any run of scans

  /** logs is what the scans emitted, scan by scan, from the given base on. */
  ghost predicate Run(base: Option<Tree>, walks: seq<Option<Tree>>, logs: seq<seq<Change>>, threshold: real)
    decreases |walks|
  {
    |walks| == |logs| && (walks != [] ==>
      Emits(base, walks[0], logs[0], threshold) && Run(NextBase(base, walks[0]), walks[1..], logs[1..], threshold))
  }

  ghost function FinalBase(base: Option<Tree>, walks: seq<Option<Tree>>): Option<Tree>
    decreases |walks|
  {
    if walks == [] then base else FinalBase(NextBase(base, walks[0]), walks[1..])
  }

  ghost function FirstWalk(walks: seq<Option<Tree>>): Option<Tree> {
    if walks == [] then None else if walks[0].Some? then walks[0] else FirstWalk(walks[1..])
  }

  ghost function Flatten(logs: seq<seq<Change>>): seq<Change> {
    if logs == [] then [] else logs[0] + Flatten(logs[1..])
  }

  lemma {:induction false} ReplayConcat(view: map<Path, Print>, xs: seq<Change>, ys: seq<Change>)
    ensures Replay(view, xs + ys) == Replay(Replay(view, xs), ys)
    decreases |ys|
  {
    if ys == [] {
      assert xs + ys == xs;
    } else {
      var n := |ys| - 1;
      assert (xs + ys)[..|xs + ys| - 1] == xs + ys[..n];
      ReplayConcat(view, xs, ys[..n]);
    }
  }

  lemma {:induction false} ReplayPrimed(base: Tree, walks: seq<Option<Tree>>, logs: seq<seq<Change>>, threshold: real)
    requires Run(Some(base), walks, logs, threshold)
    ensures FinalBase(Some(base), walks).Some?
    ensures Replay(View(base), Flatten(logs)) == View(FinalBase(Some(base), walks).value)
    decreases |walks|
  {
    if walks != [] {
      var next := NextBase(Some(base), walks[0]).value;
      if walks[0].Some? { ReplayScan(base, walks[0].value, logs[0], threshold); }
      ReplayPrimed(next, walks[1..], logs[1..], threshold);
      ReplayConcat(View(base), logs[0], Flatten(logs[1..]));
    }
  }

  /** Over any run of scans, failed ones included: nothing is emitted before the first successful
      scan, and folding everything emitted over that scan's view gives the latest view. */
  lemma {:induction false} ReplayRun(walks: seq<Option<Tree>>, logs: seq<seq<Change>>, threshold: real)
    requires Run(None, walks, logs, threshold)
    ensures FinalBase(None, walks).Some? <==> FirstWalk(walks).Some?
    ensures FirstWalk(walks).None? ==> Flatten(logs) == []
    ensures FirstWalk(walks).Some? ==>
      Replay(View(FirstWalk(walks).value), Flatten(logs)) == View(FinalBase(None, walks).value)
    decreases |walks|
  {
    if walks != [] {
      assert logs[0] == [] && Flatten(logs) == Flatten(logs[1..]);
      if walks[0].Some? {
        ReplayPrimed(walks[0].value, walks[1..], logs[1..], threshold);
      } else {
        ReplayRun(walks[1..], logs[1..], threshold);
      }
    }
  }
}

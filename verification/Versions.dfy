/** Dated versions of watched files: captures, uploads of their metadata, and restores, over any
    run in which the files themselves change under the agent. Contents are byte strings. */
module Versions {
  import opened Text
  import opened Snapshots
  import LineDiff

  const TEXT_SAMPLE := 8000

  predicate IsProbablyText(b: Content) {
    forall i :: 0 <= i < |b| && i < TEXT_SAMPLE ==> b[i] != '\0'
  }

  datatype Trigger = OnChange | Scheduled | Manual

  datatype Meta = Meta(path: Path, sha256: string, size: nat, trigger: Trigger, diff: string, content: Content)

  /** What stat and read made of a file at capture time. */
  datatype Reading = Unusable | Readable(size: nat, content: Content)

  /** A digest prints as 64 hex digits. That distinct contents have distinct digests is not
      assumed here: where it matters it is a condition on the contents actually captured. */
  ghost predicate Digest(hash: Content -> string) {
    forall c :: BlobKey(hash(c))
  }

  /** Everything the captures of one source touch: the shared store, the source's own record of the
      last captured hash per path, the shared sink. */
  datatype Archive = Archive(
    baselines: map<Path, Content>, blobs: map<string, Content>, lastHash: map<Path, string>, shipped: seq<Meta>)

  predicate Capturable(r: Reading, limit: nat) {
    r.Readable? && r.size <= limit && IsProbablyText(r.content)
  }

  /** The store after keeping content under sum, if it can be kept. */
  function Saved(a: Archive, sum: string, content: Content): Archive {
    if sum in a.blobs then a else a.(blobs := a.blobs[sum := content])
  }

  /** readOk: the previous version's blob can be read. */
  ghost function DiffToPrevious(a: Archive, path: Path, content: Content, readOk: bool): string {
    if path in a.lastHash && a.lastHash[path] in a.blobs && readOk then LineDiff.DiffText(a.blobs[a.lastHash[path]], content)
    else ""
  }

  /** captureVersion as a function of the archive. */
  ghost function Captured(a: Archive, hash: Content -> string, limit: nat, path: Path, trigger: Trigger,
                          r: Reading, managerSide: bool, blobReadOk: bool, writeOk: bool): Archive
  {
    if !Capturable(r, limit) then a
    else
      var sum := hash(r.content);
      if path in a.lastHash && a.lastHash[path] == sum then a
      else if sum !in a.blobs && !writeOk then a
      else
        Saved(a, sum, r.content).(
          lastHash := a.lastHash[path := sum],
          shipped := a.shipped + [Meta(path, sum, r.size, trigger, DiffToPrevious(a, path, r.content, blobReadOk),
                                       if managerSide then r.content else "")])
  }

  /** The capture closure of a FIM source with snapshots and a sink. */
  class Versioner {
    const store: Store
    const limit: nat
    const managerSide: bool
    const hash: Content -> string
    var lastHash: map<Path, string>
    var shipped: seq<Meta>

    constructor (store: Store, limit: nat, managerSide: bool, hash: Content -> string)
      ensures this.store == store && this.hash == hash && this.limit == limit && this.managerSide == managerSide
      ensures lastHash == map[] && shipped == []
    {
      this.store, this.limit, this.managerSide, this.hash := store, limit, managerSide, hash;
      lastHash, shipped := map[], [];
    }

    ghost function Archived(): Archive
      reads this, store
    {
      Archive(store.baselines, store.blobs, lastHash, shipped)
    }

    ghost predicate Valid()
      reads this
    {
      Digest(hash) && forall p :: p in lastHash ==> BlobKey(lastHash[p])
    }

    method CaptureVersion(path: Path, trigger: Trigger, r: Reading, blobReadOk: bool, writeOk: bool)
      requires Valid()
      modifies this, store
      ensures Valid()
      ensures Archived() == Captured(old(Archived()), hash, limit, path, trigger, r, managerSide, blobReadOk, writeOk)
    {
      if r.Unusable? || r.size > limit || !IsProbablyText(r.content) { return; }
      var sum := hash(r.content);
      if path in lastHash && lastHash[path] == sum { return; }
      var diff := "";
      if path in lastHash {
        var prev := store.ReadVersion(lastHash[path], blobReadOk);
        if prev.Some? { diff := LineDiff.UnifiedDiff(prev.value, r.content); }
      }
      var _, ok := store.SaveVersion(sum, r.content, writeOk);
      if !ok { return; }
      lastHash := lastHash[path := sum];
      shipped := shipped + [Meta(path, sum, r.size, trigger, diff, if managerSide then r.content else "")];
    }

    /** The on-demand capture: no memory of the last hash, metadata returned to be posted. */
    method CaptureVersionNow(path: Path, r: Reading, writeOk: bool) returns (meta: Option<Meta>)
      requires Valid()
      modifies store`blobs
      ensures meta.Some? <==> Capturable(r, limit) && (hash(r.content) in old(store.blobs) || writeOk)
      ensures meta.Some? ==> meta.value == Meta(path, hash(r.content), r.size, Manual, "", "")
      ensures Archived() == if meta.Some? then Saved(old(Archived()), hash(r.content), r.content) else old(Archived())
    {
      if r.Unusable? || r.size > limit || !IsProbablyText(r.content) { return None; }
      var sum := hash(r.content);
      var _, ok := store.SaveVersion(sum, r.content, writeOk);
      if !ok { return None; }
      return Some(Meta(path, sum, r.size, Manual, "", ""));
    }
  }

  // ---------------------------------------------------------------- runs

  type SourceId = nat

  /** files are the watched files as they are now; baselines and blobs are the snapshot directory,
      which all sources share and which survives a restart; memory is each source's lastHash, which
      does not; ensuring is the path each source's scan has found without a baseline and is about to
      write one for. From shipped on it is history: what went to the sink, and for every captured
      version its hash with the content that was read. */
  datatype State = State(
    files: map<Path, Content>, baselines: map<Path, Content>, blobs: map<string, Content>,
    memory: map<SourceId, map<Path, string>>, ensuring: map<SourceId, Path>, shipped: seq<Meta>, captured: seq<(string, Content)>)

  datatype Event =
    | Outside(files: map<Path, Content>)                        // anything happens to the files
    | Restart                                                   // the agent starts anew
    | EnsureStat(source: SourceId, path: Path)                  // a source's scan meets a text file
    | EnsureWrite(source: SourceId, content: Content, writeOk: bool)
    | Capture(source: SourceId, path: Path, trigger: Trigger, size: nat, readOk: bool, blobReadOk: bool, writeOk: bool)
    | CaptureNow(path: Path, size: nat, readOk: bool, writeOk: bool)
    | Restore(path: Path, readOk: bool, writeOk: bool)
    | RestoreVersion(path: Path, sha256: string, readOk: bool, writeOk: bool)
    | RestoreContent(path: Path, content: Content, writeOk: bool)

  datatype Config = Config(hash: Content -> string, limit: nat, managerSide: SourceId -> bool)

  ghost function ReadNow(s: State, path: Path, size: nat, readOk: bool): Reading {
    if readOk && path in s.files then Readable(size, s.files[path]) else Unusable
  }

  ghost function ArchiveOf(s: State, source: SourceId): Archive {
    Archive(s.baselines, s.blobs, if source in s.memory then s.memory[source] else map[], s.shipped)
  }

  ghost function WithArchive(s: State, source: SourceId, a: Archive): State {
    s.(baselines := a.baselines, blobs := a.blobs, memory := s.memory[source := a.lastHash], shipped := a.shipped)
  }

  /** A restore that answers with an error touches nothing. */
  ghost function Apply(c: Config, s: State, e: Event): State {
    match e
    case Outside(files) => s.(files := files)
    case Restart => s.(memory := map[], ensuring := map[])
    case EnsureStat(source, p) =>
      if p in s.baselines then s.(ensuring := s.ensuring - {source}) else s.(ensuring := s.ensuring[source := p])
    case EnsureWrite(source, content, writeOk) =>
      if source !in s.ensuring then s
      else
        s.(ensuring := s.ensuring - {source},
           baselines := if writeOk then s.baselines[s.ensuring[source] := content] else s.baselines)
    case Capture(source, p, trigger, size, readOk, blobReadOk, writeOk) =>
      var a, r := ArchiveOf(s, source), ReadNow(s, p, size, readOk);
      var a' := Captured(a, c.hash, c.limit, p, trigger, r, c.managerSide(source), blobReadOk, writeOk);
      if a' == a then s else WithArchive(s, source, a').(captured := s.captured + [(c.hash(r.content), r.content)])
    case CaptureNow(p, size, readOk, writeOk) =>
      var r := ReadNow(s, p, size, readOk);
      if Capturable(r, c.limit) && (c.hash(r.content) in s.blobs || writeOk) then
        s.(blobs := Saved(ArchiveOf(s, 0), c.hash(r.content), r.content).blobs,
           captured := s.captured + [(c.hash(r.content), r.content)])
      else s
    case Restore(p, readOk, writeOk) =>
      if p in s.baselines && readOk && writeOk then s.(files := s.files[p := s.baselines[p]]) else s
    case RestoreVersion(p, sha, readOk, writeOk) =>
      if BlobKey(sha) && sha in s.blobs && readOk && writeOk then s.(files := s.files[p := s.blobs[sha]]) else s
    case RestoreContent(p, content, writeOk) => if writeOk then s.(files := s.files[p := content]) else s
  }

  ghost function After(c: Config, s: State, events: seq<Event>): State {
    if events == [] then s else Apply(c, After(c, s, events[..|events| - 1]), events[|events| - 1])
  }

  /** The very first start of the agent, with any files. */
  ghost predicate Init(s: State) {
    s.baselines == map[] && s.blobs == map[] && s.memory == map[] && s.ensuring == map[] && s.shipped == [] && s.captured == []
  }

  // ---------------------------------------------------------------- versions

  /** k's blob is a content that was captured under k. */
  ghost predicate FromCapture(s: State, k: string)
    requires k in s.blobs
  {
    exists i :: 0 <= i < |s.captured| && s.captured[i] == (k, s.blobs[k])
  }

  ghost predicate BlobsFine(c: Config, s: State) {
    forall k :: k in s.blobs ==> k == c.hash(s.blobs[k]) && FromCapture(s, k)
  }

  /** What is shipped is stored, and content shipped along hashes to the announced key. */
  ghost predicate ShippedFine(c: Config, s: State) {
    forall i :: 0 <= i < |s.shipped| ==>
      s.shipped[i].sha256 in s.blobs && (s.shipped[i].content == "" || c.hash(s.shipped[i].content) == s.shipped[i].sha256)
  }

  ghost predicate Inv(c: Config, s: State) {
    && BlobsFine(c, s)
    && ShippedFine(c, s)
    && (forall i :: 0 <= i < |s.captured| ==> s.captured[i].0 in s.blobs)
  }

  lemma FromCaptureStays(s: State, s': State, k: string)
    requires k in s.blobs && FromCapture(s, k)
    requires k in s'.blobs && s'.blobs[k] == s.blobs[k] && s.captured <= s'.captured
    ensures FromCapture(s', k)
  {
    var i :| 0 <= i < |s.captured| && s.captured[i] == (k, s.blobs[k]);
    assert s'.captured[i] == s.captured[i];
  }

  /** Keeping one more captured content, or none, keeps every blob traceable to a capture. */
  lemma SaveKeepsBlobs(c: Config, s: State, s': State, content: Content)
    requires BlobsFine(c, s)
    requires s'.blobs == if c.hash(content) in s.blobs then s.blobs else s.blobs[c.hash(content) := content]
    requires s'.captured == s.captured + [(c.hash(content), content)]
    ensures BlobsFine(c, s')
  {
    forall k | k in s'.blobs ensures k == c.hash(s'.blobs[k]) && FromCapture(s', k) {
      if k in s.blobs {
        FromCaptureStays(s, s', k);
      } else {
        assert s'.captured[|s.captured|] == (k, s'.blobs[k]);
      }
    }
  }

  lemma SameBlobsFine(c: Config, s: State, s': State)
    requires BlobsFine(c, s) && s'.blobs == s.blobs && s'.captured == s.captured
    ensures BlobsFine(c, s')
  {
    forall k | k in s'.blobs ensures FromCapture(s', k) { FromCaptureStays(s, s', k); }
  }

  /** What a capture does to the blobs and the record, whatever else it does. */
  ghost predicate Captures(c: Config, s: State, s': State, content: Content) {
    && s'.blobs == (if c.hash(content) in s.blobs then s.blobs else s.blobs[c.hash(content) := content])
    && s'.captured == s.captured + [(c.hash(content), content)]
    && (s'.shipped == s.shipped || exists m: Meta ::
         s'.shipped == s.shipped + [m] && m.sha256 == c.hash(content) && (m.content == "" || m.content == content))
  }

  /** Blobs, sink and record are as they were. */
  ghost predicate Untouched(s: State, s': State) {
    s'.blobs == s.blobs && s'.shipped == s.shipped && s'.captured == s.captured
  }

  lemma CaptureCaptures(c: Config, s: State, e: Event)
    requires e.Capture?
    ensures Apply(c, s, e) == s || (e.path in s.files && Captures(c, s, Apply(c, s, e), s.files[e.path]))
  {
    var s' := Apply(c, s, e);
    if s' != s {
      var m := s'.shipped[|s.shipped|];
      assert s'.shipped == s.shipped + [m];
    }
  }

  lemma CaptureNowCaptures(c: Config, s: State, e: Event)
    requires e.CaptureNow?
    ensures Apply(c, s, e) == s || (e.path in s.files && Captures(c, s, Apply(c, s, e), s.files[e.path]))
  {
  }

  lemma OthersLeaveAlone(c: Config, s: State, e: Event)
    requires !e.Capture? && !e.CaptureNow?
    ensures Untouched(s, Apply(c, s, e))
  {
  }

  /** Every event leaves the versions alone or captures one. */
  lemma StepKinds(c: Config, s: State, e: Event, s': State)
    requires s' == Apply(c, s, e)
    ensures Untouched(s, s') || exists content :: Captures(c, s, s', content)
  {
    if e.Capture? { CaptureCaptures(c, s, e); } else if e.CaptureNow? { CaptureNowCaptures(c, s, e); } else { OthersLeaveAlone(c, s, e); }
  }

  lemma ChangeInv(c: Config, s: State, s': State)
    requires Inv(c, s) && (Untouched(s, s') || exists content :: Captures(c, s, s', content))
    ensures Inv(c, s') && s.captured <= s'.captured
  {
    if Untouched(s, s') {
      SameBlobsFine(c, s, s');
    } else {
      var content :| Captures(c, s, s', content);
      SaveKeepsBlobs(c, s, s', content);
    }
  }

  lemma StepInv(c: Config, s: State, e: Event)
    requires Inv(c, s)
    ensures Inv(c, Apply(c, s, e)) && s.captured <= Apply(c, s, e).captured
  {
    var s' := Apply(c, s, e);
    StepKinds(c, s, e, s');
    ChangeInv(c, s, s');
  }

  lemma {:induction false} RunInv(c: Config, s: State, events: seq<Event>)
    requires Inv(c, s)
    ensures Inv(c, After(c, s, events)) && s.captured <= After(c, s, events).captured
  {
    if events != [] {
      RunInv(c, s, events[..|events| - 1]);
      StepInv(c, After(c, s, events[..|events| - 1]), events[|events| - 1]);
    }
  }

  /** No two captured contents share a digest. */
  ghost predicate NoCollision(captured: seq<(string, Content)>) {
    forall i, j :: 0 <= i < |captured| && 0 <= j < |captured| && captured[i].0 == captured[j].0 ==>
      captured[i].1 == captured[j].1
  }

  /** Restoring the i-th captured version to p writes back exactly the content read at capture. */
  ghost predicate RestoresExactly(c: Config, s: State, i: nat, p: Path)
    requires i < |s.captured|
  {
    Apply(c, s, RestoreVersion(p, s.captured[i].0, true, true)).files == s.files[p := s.captured[i].1]
  }

  lemma RestoresItsBlob(c: Config, s: State, i: nat, p: Path)
    requires Digest(c.hash) && Inv(c, s) && i < |s.captured|
    ensures RestoresExactly(c, s, i, p) <==> s.blobs[s.captured[i].0] == s.captured[i].1
  {
    var k := s.captured[i].0;
    assert BlobKey(k) by { assert k == c.hash(s.blobs[k]); }
    var files := Apply(c, s, RestoreVersion(p, k, true, true)).files;
    assert files[p] == s.blobs[k] && s.files[p := s.captured[i].1][p] == s.captured[i].1;
  }

  /** Over every run, restarts included: every blob's key is the hash of its content, metadata is
      shipped only for a stored blob and content shipped with it has the announced hash. Restoring
      writes back exactly what was captured, by whichever source and however long ago, if and only
      if no two contents captured in the run collide. */
  lemma VersionsAreFaithful(c: Config, s: State, events: seq<Event>, p: Path)
    requires Digest(c.hash) && Init(s)
    ensures var t := After(c, s, events);
      && (forall k :: k in t.blobs ==> k == c.hash(t.blobs[k]))
      && (forall i :: 0 <= i < |t.shipped| ==>
           t.shipped[i].sha256 in t.blobs && (t.shipped[i].content == "" || c.hash(t.shipped[i].content) == t.shipped[i].sha256))
      && ((forall i :: 0 <= i < |t.captured| ==> RestoresExactly(c, t, i, p)) <==> NoCollision(t.captured))
  {
    RunInv(c, s, events);
    var t := After(c, s, events);
    forall i | 0 <= i < |t.captured|
      ensures RestoresExactly(c, t, i, p) <==> t.blobs[t.captured[i].0] == t.captured[i].1
    {
      RestoresItsBlob(c, t, i, p);
    }
    if NoCollision(t.captured) {
      forall i | 0 <= i < |t.captured| ensures t.blobs[t.captured[i].0] == t.captured[i].1 {
        assert FromCapture(t, t.captured[i].0);
      }
    }
  }

  /** The restore action: capture the current content first, then write the content the manager
      sent, or else the named version. */
  ghost function RestoreActionEvents(p: Path, size: nat, content: Content, sha: string, readOk: bool, writeOk: bool): seq<Event> {
    [CaptureNow(p, size, true, true),
     if content != "" then RestoreContent(p, content, writeOk) else RestoreVersion(p, sha, readOk, writeOk)]
  }

  /** The action writes the content the manager sent, or else the stored version, and no other file. */
  lemma RestoreActionWrites(c: Config, s: State, p: Path, size: nat, content: Content, sha: string, readOk: bool, writeOk: bool)
    ensures
      var t := After(c, s, RestoreActionEvents(p, size, content, sha, readOk, writeOk));
      && (content != "" && writeOk ==> t.files == s.files[p := content])
      && (content == "" && writeOk && readOk && BlobKey(sha) && sha in s.blobs ==> t.files == s.files[p := s.blobs[sha]])
      && (!writeOk ==> t.files == s.files)
  {
    var action := RestoreActionEvents(p, size, content, sha, readOk, writeOk);
    assert action[..1] == [action[0]] && [action[0]][..0] == [];
    assert After(c, s, []) == s;
    assert After(c, s, [action[0]]) == Apply(c, s, action[0]);
  }

  /** The capture before a restore makes the restore undoable, at any later time, whether the
      restored content came from the manager or from the store. */
  lemma RestoreIsUndoable(c: Config, s: State, p: Path, size: nat, content: Content, sha: string, readOk: bool, writeOk: bool,
                          later: seq<Event>)
    requires Digest(c.hash) && Inv(c, s)
    requires p in s.files && Capturable(Readable(size, s.files[p]), c.limit)
    ensures
      var u := After(c, After(c, s, RestoreActionEvents(p, size, content, sha, readOk, writeOk)), later);
      NoCollision(u.captured) ==>
        var r := Apply(c, u, RestoreVersion(p, c.hash(s.files[p]), true, true)); p in r.files && r.files[p] == s.files[p]
  {
    var action := RestoreActionEvents(p, size, content, sha, readOk, writeOk);
    var v := Apply(c, s, action[0]);
    var w := After(c, s, action);
    assert action[..1] == [action[0]] && [action[0]][..0] == [];
    assert After(c, s, []) == s;
    assert After(c, s, [action[0]]) == v;
    assert w.captured == v.captured == s.captured + [(c.hash(s.files[p]), s.files[p])];
    var u := After(c, w, later);
    RunInv(c, s, action);
    RunInv(c, w, later);
    var i := |s.captured|;
    assert u.captured[i] == w.captured[i] == (c.hash(s.files[p]), s.files[p]);
    assert FromCapture(u, u.captured[i].0);
    RestoresItsBlob(c, u, i, p);
  }

  // ---------------------------------------------------------------- what is shipped

  /** A file of at most limit bytes without a NUL among its first 8000. */
  ghost predicate SmallText(size: nat, content: Content, limit: nat) {
    size <= limit && forall i :: 0 <= i < |content| && i < 8000 ==> content[i] != '\0'
  }

  /** The hash a source last captured for a path since the agent started. */
  ghost function LastHash(s: State, source: SourceId, p: Path): Option<string> {
    if source in s.memory && p in s.memory[source] then Some(s.memory[source][p]) else None
  }

  /** A capture ships exactly one item when the file is there, is a small text, differs from what this
      source captured last, and can be stored; otherwise nothing changes. The item names path, hash,
      size and trigger, carries the content only when the source stores on the manager, and the
      diff from the source's previous version if that can still be read. */
  lemma CaptureShips(c: Config, s: State, e: Event)
    requires e.Capture?
    ensures
      var s' := Apply(c, s, e);
      var ships := e.readOk && e.path in s.files && SmallText(e.size, s.files[e.path], c.limit)
        && LastHash(s, e.source, e.path) != Some(c.hash(s.files[e.path]))
        && (c.hash(s.files[e.path]) in s.blobs || e.writeOk);
      && (!ships ==> s' == s)
      && (ships ==>
           var content, previous := s.files[e.path], LastHash(s, e.source, e.path);
           && |s'.shipped| == |s.shipped| + 1 && s'.shipped[..|s.shipped|] == s.shipped
           && LastHash(s', e.source, e.path) == Some(c.hash(content)) && c.hash(content) in s'.blobs
           && var m := s'.shipped[|s.shipped|];
              && m.path == e.path && m.sha256 == c.hash(content) && m.size == e.size && m.trigger == e.trigger
              && m.content == (if c.managerSide(e.source) then content else "")
              && m.diff == if previous.Some? && previous.value in s.blobs && e.blobReadOk
                           then LineDiff.DiffText(s.blobs[previous.value], content) else "")
  {
  }

  /** An unchanged file is not shipped twice by a source, however often it is captured, until the agent
      restarts; then it is shipped once more. */
  lemma UnchangedIsShippedOnce(c: Config, s: State, e: Event)
    requires e.Capture? && e.readOk && e.writeOk && e.path in s.files && SmallText(e.size, s.files[e.path], c.limit)
    ensures var once := Apply(c, s, e);
      && Apply(c, once, e) == once
      && |Apply(c, Apply(c, once, Restart), e).shipped| == |once.shipped| + 1
  {
    CaptureShips(c, s, e);
    CaptureShips(c, Apply(c, s, e), e);
    CaptureShips(c, Apply(c, Apply(c, s, e), Restart), e);
  }

  // ---------------------------------------------------------------- baselines

  ghost function Baseline(s: State, p: Path): Option<Content> {
    if p in s.baselines then Some(s.baselines[p]) else None
  }

  /** The first baseline p has in the run, if any: the one it starts with, or the first recorded. */
  ghost function FirstBaseline(c: Config, s: State, events: seq<Event>, p: Path): Option<Content> {
    if events == [] then Baseline(s, p)
    else
      var before := FirstBaseline(c, s, events[..|events| - 1], p);
      if before.Some? then before else Baseline(After(c, s, events), p)
  }

  /** Which paths each source watches. */
  type Watches = (SourceId, Path) -> bool

  ghost predicate Within(watches: Watches, events: seq<Event>) {
    forall i :: 0 <= i < |events| && events[i].EnsureStat? ==> watches(events[i].source, events[i].path)
  }

  /** No path is watched by two sources. */
  ghost predicate Disjoint(watches: Watches) {
    forall a, b, p :: watches(a, p) && watches(b, p) ==> a == b
  }

  /** A start of the agent, over whatever the snapshot directory already holds. */
  ghost predicate Starting(s: State) { s.ensuring == map[] }

  /** A source about to write a baseline watches that path, and nobody else has written one. */
  ghost predicate EnsuringFine(watches: Watches, s: State) {
    forall a :: a in s.ensuring ==> watches(a, s.ensuring[a]) && s.ensuring[a] !in s.baselines
  }

  lemma BaselineStep(c: Config, s: State, e: Event, watches: Watches, p: Path)
    requires Disjoint(watches) && EnsuringFine(watches, s) && (e.EnsureStat? ==> watches(e.source, e.path))
    ensures EnsuringFine(watches, Apply(c, s, e))
    ensures p in s.baselines ==> Baseline(Apply(c, s, e), p) == Baseline(s, p)
  {
    if e.EnsureWrite? && e.source in s.ensuring {
      forall a | a in s.ensuring && s.ensuring[a] == s.ensuring[e.source] ensures a == e.source {
        assert watches(a, s.ensuring[a]) && watches(e.source, s.ensuring[a]);
      }
    }
  }

  lemma {:induction false} BaselineHistory(c: Config, s: State, events: seq<Event>, watches: Watches, p: Path)
    requires Disjoint(watches) && EnsuringFine(watches, s) && Within(watches, events)
    ensures EnsuringFine(watches, After(c, s, events))
    ensures Baseline(After(c, s, events), p) == FirstBaseline(c, s, events, p)
  {
    if events != [] {
      var n := |events| - 1;
      BaselineHistory(c, s, events[..n], watches, p);
      BaselineStep(c, After(c, s, events[..n]), events[n], watches, p);
    }
  }

  /** When no path is watched by two sources: from any contents of the store and over any run,
      restarts included, a path's baseline is the first content recorded for it and never changes
      afterwards; Restore writes back exactly that content, or changes nothing when there is none
      or an operation fails. */
  lemma BaselineIsFirst(c: Config, s: State, events: seq<Event>, watches: Watches, p: Path, readOk: bool, writeOk: bool)
    requires Starting(s) && Disjoint(watches) && Within(watches, events)
    ensures var t, first := After(c, s, events), FirstBaseline(c, s, events, p);
      && Baseline(t, p) == first
      && Apply(c, t, Restore(p, readOk, writeOk)).files ==
           if first.Some? && readOk && writeOk then t.files[p := first.value] else t.files
  {
    BaselineHistory(c, s, events, watches, p);
  }

  /** Two sources that watch the same path can both find no baseline, and then the one that writes
      last replaces the other's. */
  lemma SecondWriteWins(c: Config, s: State, a: SourceId, b: SourceId, p: Path, x: Content, y: Content)
    requires a != b && p !in s.baselines
    ensures var events := [EnsureStat(a, p), EnsureStat(b, p), EnsureWrite(a, x, true), EnsureWrite(b, y, true)];
      FirstBaseline(c, s, events, p) == Some(x) && Baseline(After(c, s, events), p) == Some(y)
  {
    var e1, e2, e3, e4 := EnsureStat(a, p), EnsureStat(b, p), EnsureWrite(a, x, true), EnsureWrite(b, y, true);
    assert [e1, e2, e3, e4][..3] == [e1, e2, e3] && [e1, e2, e3][..2] == [e1, e2] && [e1, e2][..1] == [e1] && [e1][..0] == [];
    var s1 := s.(ensuring := s.ensuring[a := p]);
    var s2 := s.(ensuring := s.ensuring[a := p][b := p]);
    var s3 := s.(ensuring := s2.ensuring - {a}, baselines := s.baselines[p := x]);
    assert After(c, s, []) == s && After(c, s, [e1]) == s1;
    assert After(c, s, [e1, e2]) == s2;
    assert After(c, s, [e1, e2, e3]) == s3;
    assert FirstBaseline(c, s, [], p) == None && FirstBaseline(c, s, [e1], p) == None;
    assert FirstBaseline(c, s, [e1, e2], p) == None;
    assert FirstBaseline(c, s, [e1, e2, e3], p) == Some(x);
  }

  /** The first baseline of every path stays, in every run of these sources. */
  ghost predicate FirstWins(watches: Watches) {
    forall c, s, events, p :: Starting(s) && Within(watches, events) ==>
      Baseline(After(c, s, events), p) == FirstBaseline(c, s, events, p)
  }

  /** The original is preserved over every run if and only if no path is watched by two sources. */
  lemma FirstWinsExactlyWhen(watches: Watches)
    ensures FirstWins(watches) <==> Disjoint(watches)
  {
    if Disjoint(watches) {
      forall c, s, events, p | Starting(s) && Within(watches, events)
        ensures Baseline(After(c, s, events), p) == FirstBaseline(c, s, events, p)
      {
        BaselineHistory(c, s, events, watches, p);
      }
    } else {
      var a, b, p :| watches(a, p) && watches(b, p) && a != b;
      var c := Config(x => "", 0, x => false);
      var s := State(map[], map[], map[], map[], map[], [], []);
      SecondWriteWins(c, s, a, b, p, "x", "y");
      assert Within(watches, [EnsureStat(a, p), EnsureStat(b, p), EnsureWrite(a, "x", true), EnsureWrite(b, "y", true)]);
    }
  }
}

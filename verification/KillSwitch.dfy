/** The ransomware kill-switch: decide on the live process, kill, look again, while the process
    table changes underneath and process ids are reused. */
module KillSwitch {
  import opened Text

  datatype ProcInfo = ProcInfo(pid: int, ppid: int, name: string, exe: string, start: string)

  datatype Target = Target(pid: int, wantExe: string, wantName: string, wantStart: string)

  datatype Outcome = Killed | Failed | SkippedProtected | SkippedGone | SkippedMismatch | SkippedNoIdentity

  /** Who is asking, the built-in protected names (the agent's are PROTECTED), the operator's extra
      ones, and the two library functions the comparison of names and paths rests on:
      strings.ToLower, and the path normalisation. */
  datatype Policy = Policy(
    selfPid: int, selfPpid: int, builtin: set<string>, extra: seq<string>,
    lower: string -> string, normPath: string -> string)

  const UNIX_NAMES: set<string> := {
    "init", "systemd", "kthreadd", "sshd", "dbus-daemon", "systemd-journald", "systemd-logind", "systemd-udevd",
    "auditd", "containerd", "dockerd", "launchd", "cron", "crond"}

  const WINDOWS_NAMES: set<string> := {
    "system", "smss.exe", "csrss.exe", "wininit.exe", "services.exe", "lsass.exe", "winlogon.exe", "svchost.exe",
    "lsm.exe", "spoolsv.exe", "memory compression"}

  const OWN_NAMES: set<string> := {"deuswatch-agent", "deuswatch-agent.exe", "deuswatch"}

  const PROTECTED: set<string> := UNIX_NAMES + WINDOWS_NAMES + OWN_NAMES

  // ---------------------------------------------------------------- the decision

  /** What follows the last slash or backslash. */
  function LastSegment(s: string): string {
    if s == "" then ""
    else
      var n := |s| - 1;
      if s[n] == '/' || s[n] == '\\' then "" else LastSegment(s[..n]) + [s[n]]
  }

  function NormalizeProcName(p: Policy, s: string): string { LastSegment(TrimSpace(p.lower(s))) }

  predicate IsProtected(p: Policy, live: ProcInfo) {
    || live.pid <= 1
    || live.pid == p.selfPid
    || (p.selfPpid > 1 && live.pid == p.selfPpid)
    || var name, exeName := NormalizeProcName(p, live.name), NormalizeProcName(p, live.exe);
       || (name != "" && name in p.builtin)
       || (exeName != "" && exeName in p.builtin)
       || exists i :: 0 <= i < |p.extra| &&
            var e := NormalizeProcName(p, p.extra[i]); e != "" && (e == name || e == exeName)
  }

  predicate IdentityMatches(p: Policy, t: Target, live: ProcInfo) {
    if t.wantStart != "" && live.start != "" then t.wantStart == live.start
    else if t.wantExe != "" && live.exe != "" then p.normPath(t.wantExe) == p.normPath(live.exe)
    else t.wantName != "" && live.name != "" && NormalizeProcName(p, t.wantName) == NormalizeProcName(p, live.name)
  }

  function Decide(p: Policy, t: Target, live: Option<ProcInfo>): Outcome {
    if t.pid <= 0 then SkippedNoIdentity
    else if live.None? then SkippedGone
    else if IsProtected(p, live.value) then SkippedProtected
    else if t.wantStart == "" && t.wantExe == "" && t.wantName == "" then SkippedNoIdentity
    else if !IdentityMatches(p, t, live.value) then SkippedMismatch
    else Killed
  }

  /** A name a directory cannot disguise: not empty, no separator, no blank at either end. */
  predicate PlainName(s: string) {
    s != "" && Trimmed(s) && forall i :: 0 <= i < |s| ==> s[i] != '/' && s[i] != '\\'
  }

  lemma {:induction false} LastSegmentIs(dir: string, sep: char, base: string)
    requires sep == '/' || sep == '\\'
    requires forall i :: 0 <= i < |base| ==> base[i] != '/' && base[i] != '\\'
    ensures LastSegment(dir + [sep] + base) == base
    decreases |base|
  {
    var s := dir + [sep] + base;
    if base != "" {
      var n := |base| - 1;
      assert s[..|s| - 1] == dir + [sep] + base[..n];
      LastSegmentIs(dir, sep, base[..n]);
    }
  }

  lemma UnixNamesArePlain(n: string)
    requires n in UNIX_NAMES
    ensures PlainName(n)
  {
  }

  lemma WindowsNamesArePlain(n: string)
    requires n in WINDOWS_NAMES
    ensures PlainName(n)
  {
  }

  lemma OwnNamesArePlain(n: string)
    requires n in OWN_NAMES
    ensures PlainName(n)
  {
  }

  lemma ProtectedNamesArePlain(n: string)
    requires n in PROTECTED
    ensures PlainName(n)
  {
    if n in UNIX_NAMES { UnixNamesArePlain(n); }
    if n in WINDOWS_NAMES { WindowsNamesArePlain(n); }
    if n in OWN_NAMES { OwnNamesArePlain(n); }
  }

  /** Lower-casing works piece by piece and leaves separators alone, as strings.ToLower does. */
  ghost predicate LowersPiecewise(lower: string -> string) {
    && (forall x, y :: lower(x + y) == lower(x) + lower(y))
    && lower("/") == "/" && lower("\\") == "\\"
  }

  lemma NormalizeBehind(p: Policy, dir: string, sep: char, base: string)
    requires LowersPiecewise(p.lower) && (sep == '/' || sep == '\\') && PlainName(p.lower(base))
    ensures NormalizeProcName(p, dir + [sep] + base) == p.lower(base)
  {
    var d, b := p.lower(dir), p.lower(base);
    var raw := d + [sep] + b;
    assert p.lower(dir + [sep] + base) == raw by {
      assert p.lower(dir + [sep]) == d + [sep];
    }
    var i := FirstNonSpace(raw, 0);
    assert raw[|d|] == sep && raw[|raw| - 1] == b[|b| - 1];
    assert i <= |d|;
    assert AfterLastNonSpace(raw, i, |raw|) == |raw|;
    assert TrimSpace(raw) == d[i..] + [sep] + b;
    LastSegmentIs(d[i..], sep, b);
  }

  lemma {:induction false} LastSegmentPlain(s: string)
    requires forall i :: 0 <= i < |s| ==> s[i] != '/' && s[i] != '\\'
    ensures LastSegment(s) == s
  {
    if s != "" { LastSegmentPlain(s[..|s| - 1]); }
  }

  lemma NormalizePlain(p: Policy, s: string)
    requires PlainName(p.lower(s))
    ensures NormalizeProcName(p, s) == p.lower(s)
  {
    TrimmedIsFixed(p.lower(s));
    LastSegmentPlain(p.lower(s));
  }

  /** A protected program is refused behind any directory, in any letter case and with either kind
      of separator, whatever the target asks for. */
  lemma DirectoryDoesNotHide(p: Policy, t: Target, live: ProcInfo, dir: string, sep: char, base: string)
    requires p.builtin == PROTECTED && LowersPiecewise(p.lower)
    requires (sep == '/' || sep == '\\') && p.lower(base) in PROTECTED
    requires live.exe == dir + [sep] + base || live.name == dir + [sep] + base
    ensures IsProtected(p, live)
    ensures t.pid > 0 ==> Decide(p, t, Some(live)) == SkippedProtected
  {
    ProtectedNamesArePlain(p.lower(base));
    NormalizeBehind(p, dir, sep, base);
  }

  /** Init, the login, container and logging services of a Unix host... */
  lemma UnixServicesAreListed(n: string)
    requires n in ["init", "systemd", "kthreadd", "sshd", "dbus-daemon", "systemd-journald", "systemd-logind", "systemd-udevd",
                   "auditd", "containerd", "dockerd", "launchd", "cron", "crond"]
    ensures n in PROTECTED
  {
  }

  /** ... the core processes of a Windows host, and the agent itself are protected. */
  lemma WindowsServicesAreListed(n: string)
    requires n in ["system", "smss.exe", "csrss.exe", "wininit.exe", "services.exe", "lsass.exe", "winlogon.exe", "svchost.exe",
                   "lsm.exe", "spoolsv.exe", "memory compression", "deuswatch-agent", "deuswatch-agent.exe", "deuswatch"]
    ensures n in PROTECTED
  {
  }

  /** The Windows shell, a target of process injection, is deliberately not among them. */
  lemma ShellIsNotListed()
    ensures "explorer.exe" !in PROTECTED
  {
    var shell := "explorer.exe";
    FirstLetters(shell);
  }

  lemma FirstLetters(n: string)
    requires |n| > 0 && n[0] == 'e'
    ensures n !in PROTECTED
  {
  }

  /** The names a process goes by, without directories and letter case. */
  ghost function GoesBy(p: Policy, live: ProcInfo): set<string> {
    {NormalizeProcName(p, live.name), NormalizeProcName(p, live.exe)} - {""}
  }

  /** The built-in and the operator's names. */
  ghost function Guarded(p: Policy): set<string> { p.builtin + set e | e in p.extra :: NormalizeProcName(p, e) }

  /** Protected are exactly the kernel and init, the agent, its parent unless that is init, and every
      process that goes by a guarded name. */
  lemma ProtectedExactlyWhen(p: Policy, live: ProcInfo)
    ensures IsProtected(p, live) <==>
      live.pid <= 1 || live.pid == p.selfPid || (live.pid == p.selfPpid && p.selfPpid > 1) || GoesBy(p, live) * Guarded(p) != {}
  {
    var names: seq<string> := [NormalizeProcName(p, live.name), NormalizeProcName(p, live.exe)];
    GuardedName(p, names[0]);
    GuardedName(p, names[1]);
    assert GoesBy(p, live) * Guarded(p) != {} <==>
      (names[0] != "" && names[0] in Guarded(p)) || (names[1] != "" && names[1] in Guarded(p)) by {
      if n :| n in GoesBy(p, live) * Guarded(p) { assert n == names[0] || n == names[1]; }
      if names[0] != "" && names[0] in Guarded(p) { assert names[0] in GoesBy(p, live) * Guarded(p); }
      if names[1] != "" && names[1] in Guarded(p) { assert names[1] in GoesBy(p, live) * Guarded(p); }
    }
  }

  lemma GuardedName(p: Policy, n: string)
    ensures n in Guarded(p) <==> n in p.builtin || exists i :: 0 <= i < |p.extra| && NormalizeProcName(p, p.extra[i]) == n
  {
    if i :| 0 <= i < |p.extra| && NormalizeProcName(p, p.extra[i]) == n { assert p.extra[i] in p.extra; }
  }

  /** A program the operator lists is refused wherever it is installed and however it is spelt. */
  lemma OperatorListProtects(p: Policy, t: Target, live: ProcInfo, entry: string, dir: string, sep: char, base: string)
    requires LowersPiecewise(p.lower) && (sep == '/' || sep == '\\') && PlainName(p.lower(base))
    requires entry in p.extra && p.lower(entry) == p.lower(base) && live.exe == dir + [sep] + base
    ensures t.pid > 0 ==> Decide(p, t, Some(live)) == SkippedProtected
  {
    NormalizeBehind(p, dir, sep, base);
    NormalizePlain(p, entry);
    var n := p.lower(base);
    assert n in GoesBy(p, live) && n in Guarded(p);
    ProtectedExactlyWhen(p, live);
  }

  /** The decision, case by case: no process id, no process, a protected one, and else the strongest
      evidence both sides have: start token, then executable, then name. */
  lemma DecisionTable(p: Policy, t: Target, live: ProcInfo)
    ensures t.pid <= 0 ==> Decide(p, t, None) == SkippedNoIdentity && Decide(p, t, Some(live)) == SkippedNoIdentity
    ensures t.pid > 0 ==> Decide(p, t, None) == SkippedGone
    ensures t.pid > 0 && IsProtected(p, live) ==> Decide(p, t, Some(live)) == SkippedProtected
    ensures t.pid > 0 && !IsProtected(p, live) ==>
      var byStart, byExe, byName := t.wantStart != "" && live.start != "", t.wantExe != "" && live.exe != "", t.wantName != "" && live.name != "";
      var matches, mismatch := Decide(p, t, Some(live)) == Killed, Decide(p, t, Some(live)) == SkippedMismatch;
      && (byStart ==> if live.start == t.wantStart then matches else mismatch)
      && (!byStart && byExe ==> if p.normPath(live.exe) == p.normPath(t.wantExe) then matches else mismatch)
      && (!byStart && !byExe && byName ==>
           if NormalizeProcName(p, live.name) == NormalizeProcName(p, t.wantName) then matches else mismatch)
      && (!byStart && !byExe && !byName ==>
           if t.wantStart == "" && t.wantExe == "" && t.wantName == "" then Decide(p, t, Some(live)) == SkippedNoIdentity else mismatch)
  {
  }

  // ---------------------------------------------------------------- a changing process table

  /** One life of one process. Reusing a process id makes a different instance. */
  datatype Instance = Instance(serial: nat, info: ProcInfo)

  type Table = map<int, Instance>

  /** The process table at every moment. */
  type Timeline = nat -> Table

  ghost predicate Runs(w: Timeline, t: nat, i: Instance) {
    i.info.pid in w(t) && w(t)[i.info.pid] == i
  }

  /** Once an instance has ended it does not come back. */
  ghost predicate NoReturn(w: Timeline) {
    forall t1: nat, t2: nat, t3: nat, i ::
      t1 <= t2 <= t3 && Runs(w, t1, i) && Runs(w, t3, i) ==> Runs(w, t2, i)
  }

  /** Start tokens are never empty and tell apart the instances that share a process id. */
  ghost predicate TokensIdentify(w: Timeline) {
    forall i, j, t: nat, u: nat :: Runs(w, t, i) && Runs(w, u, j) ==>
      i.info.start != "" && (i.info.pid == j.info.pid && i.info.start == j.info.start ==> i == j)
  }

  ghost predicate Entries(w: Timeline) {
    forall t: nat, pid :: pid in w(t) ==> w(t)[pid].info.pid == pid
  }

  ghost predicate Sound(w: Timeline) { Entries(w) && NoReturn(w) && TokensIdentify(w) }

  function LookupIn(table: Table, pid: int): Option<ProcInfo> {
    if pid in table then Some(table[pid].info) else None
  }

  /** The platform's process source. Every call takes some time, and the table moves on meanwhile;
      kills records when a signal was sent and to which id. */
  class ProcSource {
    const world: Timeline
    var now: nat
    ghost var kills: seq<(nat, int)>

    constructor (world: Timeline)
      ensures this.world == world && kills == [] && now == 0
    {
      this.world, now, kills := world, 0, [];
    }

    method Lookup(pid: int, takes: nat) returns (live: Option<ProcInfo>)
      modifies this`now
      ensures now == old(now) + takes && live == LookupIn(world(now), pid)
    {
      now := now + takes;
      var table := world(now);
      if pid !in table { return None; }
      return Some(table[pid].info);
    }

    /** Signals whatever runs under pid at that moment; what the signal does shows in the table. */
    method Kill(pid: int, takes: nat, reply: bool) returns (ok: bool)
      modifies this`now, this`kills
      ensures now == old(now) + takes && kills == old(kills) + [(now, pid)] && ok == reply
    {
      now, kills := now + takes, kills + [(now + takes, pid)];
      return reply;
    }
  }

  /** How long each of the three calls takes, and the reply to Kill. */
  datatype Calls = Calls(lookup: nat, kill: nat, recheck: nat, killOk: bool)

  /** No process with this start token runs under this id at that moment. */
  ghost predicate GoneAt(w: Timeline, m: nat, pid: int, start: string) {
    var after := LookupIn(w(m), pid);
    after.None? || after.value.start != start
  }

  /** What is reported after a kill, from the reply to it and the second lookup at moment m. */
  ghost function Report(w: Timeline, pid: int, start: string, m: nat, killOk: bool): Outcome {
    if killOk && GoneAt(w, m, pid, start) then Killed else Failed
  }

  /** The kill and the re-check, once the decision on the process seen at first is made. */
  method KillAndRecheck(t: Target, live: ProcInfo, src: ProcSource, c: Calls) returns (outcome: Outcome)
    requires LookupIn(src.world(src.now), t.pid) == Some(live) && StartMatches(t, live)
    modifies src
    ensures src.kills == old(src.kills) + [(old(src.now) + c.kill, t.pid)]
    ensures outcome == Report(src.world, t.pid, live.start, old(src.now) + c.kill + c.recheck, c.killOk)
    ensures outcome == Killed ==> DetectedHasEnded(src.world, t, old(src.now), src.now)
    ensures outcome == Failed && c.killOk ==> DetectedIsHit(src.world, t, old(src.now), old(src.now) + c.kill)
  {
    ghost var first := src.now;
    var ok := src.Kill(t.pid, c.kill, c.killOk);
    if !ok { return Failed; }
    var after := src.Lookup(t.pid, c.recheck);
    if after.Some? && after.value.start == live.start {
      FailedMeansAllHit(src.world, t, first, first + c.kill, src.now);
      return Failed;
    }
    KilledMeansAllGone(src.world, t, first, src.now);
    return Killed;
  }

  /** Kills at most once, and only after a lookup that found an unprotected process matching the
      captured identity. Killed is reported only if the process is gone: the instance captured at
      detection runs neither on return nor at any later moment, however ids were recycled. Failed
      after a positive reply means that the signal hit that very instance. */
  method RunKillSwitch(p: Policy, t: Target, src: ProcSource?, c: Calls) returns (outcome: Outcome)
    modifies src
    ensures src == null ==> outcome == Failed
    ensures src != null ==>
      var first := old(src.now) + c.lookup;
      var decision := Decide(p, t, LookupIn(src.world(first), t.pid));
      && src.kills == old(src.kills) + (if decision == Killed then [(first + c.kill, t.pid)] else [])
      && (decision != Killed ==> outcome == decision)
      && (outcome == Killed ==> DetectedHasEnded(src.world, t, first, src.now))
      && (decision == Killed && outcome == Failed && c.killOk ==> DetectedIsHit(src.world, t, first, first + c.kill))
  {
    if src == null { return Failed; }
    var live := src.Lookup(t.pid, c.lookup);
    assert live == LookupIn(src.world(old(src.now) + c.lookup), t.pid);
    outcome := Decide(p, t, live);
    if outcome != Killed { return; }
    KillNeedsMatch(p, t, live);
    outcome := KillAndRecheck(t, live.value, src, c);
  }

  // ---------------------------------------------------------------- what killed means

  /** d is the instance the target describes: it ran at that moment and its id and start token
      were captured, on a sound timeline. */
  ghost predicate Detected(w: Timeline, t: Target, d: Instance, m: nat) {
    Sound(w) && Runs(w, m, d) && t.pid == d.info.pid && t.wantStart == d.info.start
  }

  ghost predicate EndedBy(w: Timeline, d: Instance, m: nat) {
    forall later: nat :: later >= m ==> !Runs(w, later, d)
  }

  /** The instance captured at detection, whichever it is, runs neither at m nor later. */
  ghost predicate DetectedHasEnded(w: Timeline, t: Target, first: nat, m: nat) {
    forall d, detection: nat :: detection <= first && Detected(w, t, d, detection) ==> EndedBy(w, d, m)
  }

  /** The instance captured at detection, whichever it is, runs at the moment of the kill. */
  ghost predicate DetectedIsHit(w: Timeline, t: Target, first: nat, kill: nat) {
    forall d, detection: nat :: detection <= first && Detected(w, t, d, detection) ==> Runs(w, kill, d)
  }

  /** The start tokens agree whenever both sides have one. */
  predicate StartMatches(t: Target, live: ProcInfo) {
    t.wantStart != "" && live.start != "" ==> live.start == t.wantStart
  }

  /** What a lookup at that moment finds under the target's id, if its start token matches. */
  ghost predicate SeenAt(w: Timeline, t: Target, m: nat) {
    t.pid in w(m) && StartMatches(t, w(m)[t.pid].info)
  }

  /** An authorised kill compared start tokens whenever both sides have one. */
  lemma KillNeedsMatch(p: Policy, t: Target, seen: Option<ProcInfo>)
    requires Decide(p, t, seen) == Killed
    ensures seen.Some? && StartMatches(t, seen.value)
  {
  }

  lemma LookupFindsDetected(w: Timeline, t: Target, d: Instance, detection: nat, first: nat)
    requires detection <= first && Detected(w, t, d, detection) && SeenAt(w, t, first)
    ensures Runs(w, first, d) && LookupIn(w(first), t.pid) == Some(d.info)
  {
    assert Runs(w, first, w(first)[t.pid]);
  }

  lemma GoneMeansEnded(w: Timeline, d: Instance, first: nat, second: nat)
    requires Sound(w) && first <= second && Runs(w, first, d) && GoneAt(w, second, d.info.pid, d.info.start)
    ensures EndedBy(w, d, second)
  {
    assert !Runs(w, second, d);
  }

  lemma StillThereMeansHit(w: Timeline, d: Instance, first: nat, kill: nat, second: nat)
    requires Sound(w) && first <= kill <= second && Runs(w, first, d) && !GoneAt(w, second, d.info.pid, d.info.start)
    ensures Runs(w, kill, d)
  {
    assert Runs(w, second, w(second)[d.info.pid]);
  }

  /** If a lookup that matches the target is followed by one that no longer finds that process, the instance captured
      at detection is not running then or at any later moment, however ids were recycled. */
  lemma KilledMeansGone(w: Timeline, t: Target, d: Instance, detection: nat, first: nat, second: nat)
    requires detection <= first <= second && Detected(w, t, d, detection)
    requires SeenAt(w, t, first) && GoneAt(w, second, t.pid, w(first)[t.pid].info.start)
    ensures EndedBy(w, d, second)
  {
    LookupFindsDetected(w, t, d, detection, first);
    GoneMeansEnded(w, d, first, second);
  }

  /** If it is followed by one that still finds that process, the signal in between went
      to the instance captured at detection. */
  lemma FailedMeansHit(w: Timeline, t: Target, d: Instance, detection: nat, first: nat, kill: nat, second: nat)
    requires detection <= first <= kill <= second && Detected(w, t, d, detection)
    requires SeenAt(w, t, first) && !GoneAt(w, second, t.pid, w(first)[t.pid].info.start)
    ensures Runs(w, kill, d)
  {
    LookupFindsDetected(w, t, d, detection, first);
    StillThereMeansHit(w, d, first, kill, second);
  }

  lemma KilledMeansAllGone(w: Timeline, t: Target, first: nat, second: nat)
    requires first <= second
    requires SeenAt(w, t, first) && GoneAt(w, second, t.pid, w(first)[t.pid].info.start)
    ensures DetectedHasEnded(w, t, first, second)
  {
    forall d, detection: nat | detection <= first && Detected(w, t, d, detection) ensures EndedBy(w, d, second) {
      KilledMeansGone(w, t, d, detection, first, second);
    }
  }

  lemma FailedMeansAllHit(w: Timeline, t: Target, first: nat, kill: nat, second: nat)
    requires first <= kill <= second
    requires SeenAt(w, t, first) && !GoneAt(w, second, t.pid, w(first)[t.pid].info.start)
    ensures DetectedIsHit(w, t, first, kill)
  {
    forall d, detection: nat | detection <= first && Detected(w, t, d, detection) ensures Runs(w, kill, d) {
      FailedMeansHit(w, t, d, detection, first, kill, second);
    }
  }

  // ---------------------------------------------------------------- whom the signal hits

  /** The signal itself is sent by process id: if the target exits between the lookup and the
      kill, another instance that got its id is signalled, and killed is still reported. This
      happens on this timeline for every positive delay of the kill. */
  lemma SignalCanHitAnother() returns (w: Timeline, p: Policy, t: Target, detected: Instance, other: Instance)
    ensures p.builtin == PROTECTED && LowersPiecewise(p.lower) && Detected(w, t, detected, 0)
    ensures detected.info.name != "" && detected.info.exe != "" && t.wantName == detected.info.name && t.wantExe == detected.info.exe
    ensures Decide(p, t, LookupIn(w(0), t.pid)) == Killed && LookupIn(w(0), t.pid).value.start == detected.info.start
    ensures other.info.pid == t.pid && other != detected
    ensures forall m: nat :: m > 0 ==> Runs(w, m, other) && GoneAt(w, m, t.pid, detected.info.start)
  {
    p := Policy(2, 1, PROTECTED, [], s => s, s => s);
    var info := ProcInfo(7, 1, "gpg", "/usr/bin" + ['/'] + "gpg", "100");
    detected := Instance(0, info);
    other := Instance(1, ProcInfo(7, 1, "vi", "/usr/bin/vi", "200"));
    t := Target(7, info.exe, "gpg", "100");
    w := m => if m == 0 then map[7 := detected] else map[7 := other];
    assert forall m: nat, i :: Runs(w, m, i) <==> i == if m == 0 then detected else other;
    ProgramIsUnprotected(p, info);
  }

  /** gpg is none of the protected programs. */
  lemma ProgramIsUnprotected(p: Policy, info: ProcInfo)
    requires p == Policy(2, 1, PROTECTED, [], p.lower, p.normPath) && LowersPiecewise(p.lower) && p.lower("gpg") == "gpg"
    requires info.pid == 7 && info.name == "gpg" && info.exe == "/usr/bin" + ['/'] + "gpg"
    ensures !IsProtected(p, info)
  {
    NormalizePlain(p, "gpg");
    NormalizeBehind(p, "/usr/bin", '/', "gpg");
    NotListed("gpg");
  }

  lemma NotListed(n: string)
    requires |n| == 3
    ensures n !in PROTECTED
  {
    assert n !in UNIX_NAMES by { UnixNamesAreLong(n); }
    assert n !in WINDOWS_NAMES by { WindowsNamesAreLong(n); }
  }

  lemma UnixNamesAreLong(n: string)
    ensures n in UNIX_NAMES ==> |n| > 3
  {
  }

  lemma WindowsNamesAreLong(n: string)
    ensures n in WINDOWS_NAMES ==> |n| > 3
  {
  }

  /** Every run with these delays and this reply that ends with this outcome signals the instance
      captured at detection. */
  ghost predicate SureHit(c: Calls, outcome: Outcome) {
    forall w, p, t, d, detection: nat, first: nat ::
      detection <= first && Detected(w, t, d, detection) && Ends(w, p, t, first, c, outcome) ==> Runs(w, first + c.kill, d)
  }

  /** The lookup at first authorises the kill, and the re-check then leads to this outcome. */
  ghost predicate Ends(w: Timeline, p: Policy, t: Target, first: nat, c: Calls, outcome: Outcome) {
    var seen := LookupIn(w(first), t.pid);
    Decide(p, t, seen) == Killed && outcome == Report(w, t.pid, seen.value.start, first + c.kill + c.recheck, c.killOk)
  }

  lemma RunHits(w: Timeline, p: Policy, t: Target, d: Instance, detection: nat, first: nat, c: Calls, outcome: Outcome)
    requires detection <= first && Detected(w, t, d, detection) && Ends(w, p, t, first, c, outcome)
    requires c.kill == 0 || (c.killOk && outcome == Failed)
    ensures Runs(w, first + c.kill, d)
  {
    KillNeedsMatch(p, t, LookupIn(w(first), t.pid));
    if c.kill == 0 {
      LookupFindsDetected(w, t, d, detection, first);
    } else {
      FailedMeansHit(w, t, d, detection, first, first + c.kill, first + c.kill + c.recheck);
    }
  }

  lemma SureHitIf(c: Calls, outcome: Outcome)
    requires c.kill == 0 || (c.killOk && outcome == Failed)
    ensures SureHit(c, outcome)
  {
    forall w, p, t, d, detection: nat, first: nat |
      detection <= first && Detected(w, t, d, detection) && Ends(w, p, t, first, c, outcome)
      ensures Runs(w, first + c.kill, d)
    {
      RunHits(w, p, t, d, detection, first, c, outcome);
    }
  }

  lemma NoSureHit(c: Calls, outcome: Outcome)
    requires outcome == if c.killOk then Killed else Failed
    requires c.kill > 0
    ensures !SureHit(c, outcome)
  {
    var w, p, t, detected, other := SignalCanHitAnother();
    assert GoneAt(w, c.kill + c.recheck, t.pid, detected.info.start);
    assert Ends(w, p, t, 0, c, outcome);
    assert Runs(w, c.kill, other) && !Runs(w, 0 + c.kill, detected);
  }

  /** That the signal hits the detected process, and not another one under a recycled id, is
      guaranteed exactly when no time passes between lookup and kill, or when the kill is accepted
      and failed is reported all the same; killed never guarantees it. */
  lemma SureHitExactlyWhen(c: Calls, outcome: Outcome)
    requires outcome == Failed || (outcome == Killed && c.killOk)
    ensures SureHit(c, outcome) <==> c.kill == 0 || (c.killOk && outcome == Failed)
  {
    if c.kill == 0 || (c.killOk && outcome == Failed) {
      SureHitIf(c, outcome);
    } else {
      NoSureHit(c, outcome);
    }
  }
}

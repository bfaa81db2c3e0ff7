/** The real-time trigger of the file-integrity monitor: an fsnotify loop that re-arms a debounce
    timer, timer callbacks that send without blocking on a one-slot channel, and the scan loop
    that receives from it. The three run concurrently, in time. */
module Watcher {
  import opened Text

  /** debounce: how long the timer runs. latency: how late the runtime may start the callback of a
      timer that has run out. */
  datatype Timing = Timing(debounce: nat, latency: nat)

  /** arming: the watcher has taken an event, may be adding a new directory, and has not yet set the
      timer. deadline: when the running debounce timer runs out, if it is running. firing: callbacks started
      and not yet finished (a timer that is re-armed while its callback runs can have several).
      queued: tokens in the channel. taken and covered count events: how many the watcher has
      taken, and how many of those had been taken when the latest scan started. */
  datatype State = State(
    now: nat, watching: bool, arming: bool, deadline: Option<nat>, firing: nat, queued: nat, busy: bool, taken: nat, covered: nat)

  const CAPACITY := 1

  datatype Step =
    | Pass(time: nat)    // time passes
    | TakeEvent          // the watcher receives an event
    | Arm                // it (re)arms the timer and selects again
    | WatchError         // the watcher logs an error
    | WatchCloses        // the event channel closes; a running timer is left alone
    | Expire             // the timer has run out and its callback starts
    | Fire               // the callback sends, or finds a token already queued
    | StartTriggered     // the idle scan loop takes the token and scans
    | StartPolled        // the idle scan loop scans on its safety-net ticker
    | StartScheduled     // the idle scan loop starts a scheduled snapshot, which is not a scan
    | Finish             // the scan loop is done and selects again

  predicate Enabled(c: Timing, s: State, e: Step) {
    match e
    case Pass(time) => s.deadline.Some? ==> s.now + time <= s.deadline.value + c.latency
    case TakeEvent => s.watching && !s.arming
    case Arm => s.arming
    case WatchError => s.watching && !s.arming
    case WatchCloses => s.watching && !s.arming
    case Expire => s.deadline.Some? && s.now >= s.deadline.value
    case Fire => s.firing > 0
    case StartTriggered => !s.busy && s.queued > 0
    case StartPolled => !s.busy
    case StartScheduled => !s.busy
    case Finish => s.busy
  }

  function Apply(c: Timing, s: State, e: Step): State
    requires Enabled(c, s, e)
  {
    match e
    case Pass(time) => s.(now := s.now + time)
    case TakeEvent => s.(arming := true, taken := s.taken + 1)
    case Arm => s.(arming := false, deadline := Some(s.now + c.debounce))
    case WatchError => s
    case WatchCloses => s.(watching := false)
    case Expire => s.(deadline := None, firing := s.firing + 1)
    case Fire => s.(firing := s.firing - 1, queued := if s.queued < CAPACITY then s.queued + 1 else s.queued)
    case StartTriggered => s.(queued := s.queued - 1, busy := true, covered := s.taken)
    case StartPolled => s.(busy := true, covered := s.taken)
    case StartScheduled => s.(busy := true)
    case Finish => s.(busy := false)
  }

  ghost predicate Reaches(c: Timing, s: State, steps: seq<Step>, s': State)
    decreases |steps|
  {
    if steps == [] then s' == s
    else Enabled(c, s, steps[0]) && Reaches(c, Apply(c, s, steps[0]), steps[1..], s')
  }

  const START := State(0, true, false, None, 0, 0, false, 0, 0)

  // ---------------------------------------------------------------- no wake-up is lost

  /** Some event taken so far is not covered by a scan that started after it. */
  predicate Waiting(s: State) { s.covered < s.taken }

  predicate WakeUpUnderWay(s: State) { s.arming || s.deadline.Some? || s.firing > 0 || s.queued > 0 }

  predicate Inv(s: State) {
    s.queued <= CAPACITY && s.covered <= s.taken && (Waiting(s) ==> WakeUpUnderWay(s))
  }

  lemma {:induction false} RunInv(c: Timing, s: State, steps: seq<Step>, s': State)
    requires Inv(s) && Reaches(c, s, steps, s')
    ensures Inv(s')
    decreases |steps|
  {
    if steps != [] {
      RunInv(c, Apply(c, s, steps[0]), steps[1..], s');
    }
  }

  /** No wake-up is lost and at most one scan is ever queued, in every interleaving. */
  lemma NoLostWakeUp(c: Timing, steps: seq<Step>, s: State)
    requires Reaches(c, START, steps, s)
    ensures Waiting(s) ==> s.arming || s.deadline.Some? || s.firing > 0 || s.queued > 0
    ensures s.queued <= 1
  {
    RunInv(c, START, steps, s);
  }

  // ---------------------------------------------------------------- the wake-up arrives

  /** The steps that need no new event from outside: arming, timer, callback, scan loop. */
  predicate Internal(e: Step) { e.Arm? || e.Expire? || e.Fire? || e.StartTriggered? || e.Finish? }

  ghost function CountInternal(steps: seq<Step>): nat {
    if steps == [] then 0 else (if Internal(steps[0]) then 1 else 0) + CountInternal(steps[1..])
  }

  function Rank(s: State): nat {
    (if s.arming then 5 else 0) + (if s.deadline.Some? then 4 else 0) + 3 * s.firing + 2 * s.queued + (if s.busy then 1 else 0)
  }

  lemma RankFalls(c: Timing, s: State, e: Step)
    requires Enabled(c, s, e) && (Internal(e) || e.Pass?)
    ensures (if Internal(e) then 1 else 0) + Rank(Apply(c, s, e)) <= Rank(s)
  {
  }

  lemma {:induction false} RankBounds(c: Timing, s: State, steps: seq<Step>, s': State)
    requires Reaches(c, s, steps, s') && forall i :: 0 <= i < |steps| ==> Internal(steps[i]) || steps[i].Pass?
    ensures CountInternal(steps) + Rank(s') <= Rank(s)
    decreases |steps|
  {
    if steps != [] {
      RankFalls(c, s, steps[0]);
      RankBounds(c, Apply(c, s, steps[0]), steps[1..], s');
    }
  }

  /** No loop can make a step, and the timer is not still running. */
  ghost predicate AtRest(c: Timing, s: State) {
    (s.deadline.Some? ==> s.now >= s.deadline.value) && forall e :: Internal(e) ==> !Enabled(c, s, e)
  }

  lemma RestCovers(c: Timing, s: State)
    requires Inv(s) && AtRest(c, s)
    ensures !Waiting(s)
  {
    assert !Enabled(c, s, Arm) && !Enabled(c, s, Expire) && !Enabled(c, s, Fire);
    assert !Enabled(c, s, StartTriggered) && !Enabled(c, s, Finish);
  }

  /** Left to themselves while time passes, the three loops make at most Rank steps; and once no step
      of theirs is possible and the timer is not still running, every event taken has been covered
      by a scan started after it. */
  lemma WakeUpArrives(c: Timing, s: State, steps: seq<Step>, s': State)
    requires Inv(s) && Reaches(c, s, steps, s')
    requires forall i :: 0 <= i < |steps| ==> Internal(steps[i]) || steps[i].Pass?
    ensures CountInternal(steps) + Rank(s') <= Rank(s)
    ensures AtRest(c, s') ==> !Waiting(s')
  {
    RankBounds(c, s, steps, s');
    RunInv(c, s, steps, s');
    if AtRest(c, s') { RestCovers(c, s'); }
  }

  /** A scan covers every event taken before it starts, whether the trigger or the safety-net poll
      started it; a scheduled snapshot covers none. */
  lemma ScansCover(c: Timing, s: State, e: Step)
    requires Enabled(c, s, e)
    ensures e == StartTriggered || e == StartPolled ==> !Waiting(Apply(c, s, e))
    ensures e == StartScheduled ==> (Waiting(Apply(c, s, e)) <==> Waiting(s))
  {
  }

  // ---------------------------------------------------------------- what debouncing does to a burst

  /** From s the watcher arms the timer for an event, and mid leads on to s' without doing so again. */
  ghost predicate Between(c: Timing, s: State, mid: seq<Step>, s': State) {
    Enabled(c, s, Arm) && Reaches(c, Apply(c, s, Arm), mid, s') && Arm !in mid
  }

  /** A callback can start within that time after the timer was set if no further event sets it. */
  ghost predicate MayFire(c: Timing, s: State, gap: nat) {
    exists mid, s' :: Between(c, s, mid, s') && s'.now == s.now + gap && Expire in mid
  }

  /** ... and it always does. */
  ghost predicate MustFire(c: Timing, s: State, gap: nat) {
    forall mid, s' :: Between(c, s, mid, s') && s'.now == s.now + gap ==> Expire in mid
  }

  /** s is in the stretch after the timer was set at last, with that timer still running. */
  predicate Stretch(c: Timing, s: State, last: nat) {
    s.deadline == Some(last + c.debounce) && last <= s.now <= last + c.debounce + c.latency
  }

  lemma {:induction false} TimeGrows(c: Timing, s: State, steps: seq<Step>, s': State)
    requires Reaches(c, s, steps, s')
    ensures s.now <= s'.now
    decreases |steps|
  {
    if steps != [] { TimeGrows(c, Apply(c, s, steps[0]), steps[1..], s'); }
  }

  lemma {:induction false} StretchFires(c: Timing, s: State, last: nat, mid: seq<Step>, s': State)
    requires Stretch(c, s, last) && Reaches(c, s, mid, s') && Arm !in mid
    ensures if Expire in mid then s'.now >= last + c.debounce else Stretch(c, s', last)
    decreases |mid|
  {
    if mid != [] {
      assert mid == [mid[0]] + mid[1..];
      var t := Apply(c, s, mid[0]);
      if mid[0] == Expire {
        TimeGrows(c, t, mid[1..], s');
      } else {
        assert mid[0] in mid;
        StretchFires(c, t, last, mid[1..], s');
      }
    }
  }

  lemma LateEnoughFires(c: Timing, s: State, gap: nat)
    requires Enabled(c, s, Arm) && gap >= c.debounce
    ensures MayFire(c, s, gap)
  {
    var e1, e2 := Pass(c.debounce), Pass(gap - c.debounce);
    var mid := [e1, Expire, e2];
    var s0 := Apply(c, s, Arm);
    var s1 := Apply(c, s0, e1);
    var s2 := Apply(c, s1, Expire);
    var s3 := Apply(c, s2, e2);
    assert mid[1..] == [Expire, e2] && [Expire, e2][1..] == [e2] && [e2][1..] == [];
    assert Reaches(c, s2, [e2], s3);
    assert Reaches(c, s1, [Expire, e2], s3);
    assert mid[1] == Expire && Between(c, s, mid, s3);
  }

  lemma EarlyEnoughWaits(c: Timing, s: State, gap: nat)
    requires Enabled(c, s, Arm) && gap <= c.debounce + c.latency
    ensures !MustFire(c, s, gap)
  {
    var s0 := Apply(c, s, Arm);
    var s1 := Apply(c, s0, Pass(gap));
    assert [Pass(gap)][1..] == [];
    assert Between(c, s, [Pass(gap)], s1);
  }

  /** A callback can start before the next event sets the timer again exactly when the gap reaches
      the debounce interval, and is certain to exactly when the gap also exceeds the runtime's
      latency. */
  lemma GapDecides(c: Timing, s: State, gap: nat)
    requires Enabled(c, s, Arm)
    ensures MayFire(c, s, gap) <==> gap >= c.debounce
    ensures MustFire(c, s, gap) <==> gap > c.debounce + c.latency
  {
    forall mid, s' | Between(c, s, mid, s')
      ensures if Expire in mid then s'.now >= s.now + c.debounce else s'.now <= s.now + c.debounce + c.latency
    {
      StretchFires(c, Apply(c, s, Arm), s.now, mid, s');
    }
    if gap >= c.debounce { LateEnoughFires(c, s, gap); }
    if gap <= c.debounce + c.latency { EarlyEnoughWaits(c, s, gap); }
  }

  /** When the events of a run set the timer, and at last when it ended. */
  ghost function Times(now: nat, steps: seq<Step>): (r: seq<nat>)
    ensures r != [] && r[0] >= now
    decreases |steps|
  {
    if steps == [] then [now]
    else match steps[0]
      case Pass(time) => Times(now + time, steps[1..])
      case Arm => [now] + Times(now, steps[1..])
      case _ => Times(now, steps[1..])
  }

  ghost predicate GapsBelow(times: seq<nat>, bound: nat) {
    forall i {:trigger times[i]} :: 0 < i < |times| ==> times[i] - times[i - 1] < bound
  }

  lemma GapsFrom(last: nat, times: seq<nat>, bound: nat)
    requires times != []
    ensures GapsBelow([last] + times, bound) <==> times[0] - last < bound && GapsBelow(times, bound)
  {
    var all := [last] + times;
    assert forall i :: 0 <= i < |times| ==> all[i + 1] == times[i];
    if GapsBelow(all, bound) {
      assert all[1] == times[0];
      forall i | 0 < i < |times| ensures times[i] - times[i - 1] < bound { assert all[i + 1] == times[i]; }
    }
  }

  lemma {:induction false} StretchBurst(c: Timing, s: State, last: nat, steps: seq<Step>, s': State)
    requires Stretch(c, s, last) && Reaches(c, s, steps, s')
    ensures Expire in steps ==> !GapsBelow([last] + Times(s.now, steps), c.debounce)
    ensures Expire !in steps ==> GapsBelow([last] + Times(s.now, steps), c.debounce + c.latency + 1)
    decreases |steps|
  {
    var times := Times(s.now, steps);
    GapsFrom(last, times, c.debounce);
    GapsFrom(last, times, c.debounce + c.latency + 1);
    if steps != [] {
      assert steps == [steps[0]] + steps[1..];
      var t := Apply(c, s, steps[0]);
      if steps[0] == Arm {
        StretchBurst(c, t, s.now, steps[1..], s');
      } else if steps[0] != Expire {
        StretchBurst(c, t, last, steps[1..], s');
      }
    }
  }

  /** Before the first event sets it nothing happens to the timer. */
  lemma {:induction false} QuietStart(c: Timing, s: State, steps: seq<Step>, s': State)
    requires s.deadline.None? && Reaches(c, s, steps, s')
    ensures Expire in steps ==> !GapsBelow(Times(s.now, steps), c.debounce)
    ensures Expire !in steps ==> GapsBelow(Times(s.now, steps), c.debounce + c.latency + 1)
    decreases |steps|
  {
    if steps != [] {
      assert steps == [steps[0]] + steps[1..];
      if steps[0] == Arm {
        StretchBurst(c, Apply(c, s, Arm), s.now, steps[1..], s');
      } else {
        QuietStart(c, Apply(c, s, steps[0]), steps[1..], s');
      }
    }
  }

  /** Over every run: as long as events keep setting the timer less than the debounce interval
      apart, no callback starts and nothing is queued; and none has started only if no gap between
      two of them, or after the last one, exceeds debounce and latency. */
  lemma BurstIsSilent(c: Timing, steps: seq<Step>, s: State)
    requires Reaches(c, START, steps, s)
    ensures GapsBelow(Times(0, steps), c.debounce) ==> Expire !in steps && s.firing == 0 && s.queued == 0
    ensures Expire !in steps ==> GapsBelow(Times(0, steps), c.debounce + c.latency + 1)
  {
    QuietStart(c, START, steps, s);
    if Expire !in steps { NothingFires(c, START, steps, s); }
  }

  lemma {:induction false} NothingFires(c: Timing, s: State, steps: seq<Step>, s': State)
    requires s.firing == 0 && s.queued == 0 && Reaches(c, s, steps, s') && Expire !in steps
    ensures s'.firing == 0 && s'.queued == 0
    decreases |steps|
  {
    if steps != [] {
      assert steps[0] in steps;
      NothingFires(c, Apply(c, s, steps[0]), steps[1..], s');
    }
  }

  /** So debouncing gives no upper bound on the delay: events a fixed gap apart, not longer than
      debounce and latency, can keep the first of them waiting for any multiple of that gap. Only
      the safety-net poll limits it. */
  lemma {:induction false} BurstPostpones(c: Timing, gap: nat, n: nat) returns (steps: seq<Step>, s: State)
    requires gap <= c.debounce + c.latency
    ensures Reaches(c, START, steps, s) && Expire !in steps
    ensures s.now == n * gap && s.taken == n + 1 && s.covered == 0 && Waiting(s)
  {
    steps, s := [TakeEvent, Arm], Apply(c, Apply(c, START, TakeEvent), Arm);
    assert [TakeEvent, Arm][1..] == [Arm] && [Arm][1..] == [];
    assert Reaches(c, Apply(c, START, TakeEvent), [Arm], s);
    for i := 0 to n
      invariant Reaches(c, START, steps, s) && Expire !in steps
      invariant s == START.(now := i * gap, deadline := Some(i * gap + c.debounce), taken := i + 1)
    {
      ReachesThen(c, START, steps, s, Pass(gap));
      steps, s := steps + [Pass(gap)], Apply(c, s, Pass(gap));
      ReachesThen(c, START, steps, s, TakeEvent);
      steps, s := steps + [TakeEvent], Apply(c, s, TakeEvent);
      ReachesThen(c, START, steps, s, Arm);
      steps, s := steps + [Arm], Apply(c, s, Arm);
      assert (i + 1) * gap == i * gap + gap;
    }
  }

  lemma {:induction false} ReachesThen(c: Timing, s: State, steps: seq<Step>, s': State, e: Step)
    requires Reaches(c, s, steps, s') && Enabled(c, s', e)
    ensures Reaches(c, s, steps + [e], Apply(c, s', e))
    decreases |steps|
  {
    if steps != [] {
      ReachesThen(c, Apply(c, s, steps[0]), steps[1..], s', e);
      assert (steps + [e])[1..] == steps[1..] + [e];
    } else {
      assert (steps + [e])[1..] == [];
    }
  }
}

/** The scheduled report: when a tick is due, and what that makes of a whole sequence of ticks.
    Times are nanoseconds on a fixed-offset clock whose day starts at 0. */
module Schedule {
  import opened Text

  const HOUR := 3_600_000_000_000

  function SlotOf(t: int): int { t / HOUR }
  function HourOf(t: int): int { SlotOf(t) % 24 }
  function DayOf(t: int): int { SlotOf(t) / 24 }

  predicate Pinned(atHour: int) { 0 <= atHour <= 23 }

  /** reportDue */
  predicate Due(now: int, last: Option<int>, intervalHours: int, atHour: int) {
    if intervalHours <= 0 then false
    else if !Pinned(atHour) then last.None? || now - last.value >= intervalHours * HOUR
    else if HourOf(now) != atHour then false
    else if last.None? then true
    else
      var minGap := if intervalHours * HOUR - HOUR < HOUR then HOUR else intervalHours * HOUR - HOUR;
      now - last.value >= minGap
  }

  function LastOf(runs: seq<int>): Option<int> { if runs == [] then None else Some(runs[|runs| - 1]) }

  /** The configured cadence; 0 hours or less means disabled. */
  datatype Config = Config(intervalHours: int, atHour: int)

  /** What one turn of the ticker loop meets: when it comes, whether an analyzer is there, the
      configuration if it can be loaded, whether the latest summary can be read, and the stamp
      under which the new summary is stored, if it can be made and saved. */
  datatype Tick = Tick(at: int, ready: bool, config: Option<Config>, lastReadable: bool, saved: Option<int>)

  /** A turn tries to make a summary; a latest summary that cannot be read counts as none. */
  predicate Attempts(t: Tick, last: Option<int>) {
    t.ready && t.config.Some?
    && Due(t.at, if t.lastReadable then last else None, t.config.value.intervalHours, t.config.value.atHour)
  }

  /** The stamps of the stored summaries, over any sequence of turns. They are stamped by the clock as
      they are stored, so the last one stored is the latest. */
  function Summaries(ticks: seq<Tick>): seq<int> {
    if ticks == [] then []
    else
      var before, t := Summaries(ticks[..|ticks| - 1]), ticks[|ticks| - 1];
      if Attempts(t, LastOf(before)) && t.saved.Some? then before + [t.saved.value] else before
  }

  /** The ticker loop, with the configuration read anew in every turn. */
  method RunScheduler(ticks: seq<Tick>) returns (stored: seq<int>)
    ensures stored == Summaries(ticks)
  {
    stored := [];
    for i := 0 to |ticks|
      invariant stored == Summaries(ticks[..i])
    {
      assert ticks[..i + 1][..i] == ticks[..i];
      var t := ticks[i];
      if !t.ready { continue; }
      if t.config.None? || t.config.value.intervalHours <= 0 { continue; }
      var last: Option<int> := None;
      if t.lastReadable && stored != [] { last := Some(stored[|stored| - 1]); }
      if !Due(t.at, last, t.config.value.intervalHours, t.config.value.atHour) { continue; }
      if t.saved.None? { continue; }
      stored := stored + [t.saved.value];
    }
    assert ticks[..|ticks|] == ticks;
  }

  /** A summary is stored only by a turn with an analyzer, a loaded configuration that is switched on and,
      when it names an hour, in that hour; it is stored under the stamp it was saved with. */
  lemma {:induction false} StoredOnlyWhen(ticks: seq<Tick>, stamp: int)
    requires stamp in Summaries(ticks)
    ensures exists t :: t in ticks && CanStore(t, stamp)
  {
    var n := |ticks| - 1;
    assert ticks == ticks[..n] + [ticks[n]];
    if stamp in Summaries(ticks[..n]) {
      StoredOnlyWhen(ticks[..n], stamp);
    } else {
      assert CanStore(ticks[n], stamp);
    }
  }

  ghost predicate CanStore(t: Tick, stamp: int) {
    && t.ready && t.config.Some? && t.config.value.intervalHours > 0 && t.saved == Some(stamp)
    && (0 <= t.config.value.atHour <= 23 ==> HourOf(t.at) == t.config.value.atHour)
  }

  /** The first turn that can make a summary makes one: with none stored yet nothing has to elapse. */
  lemma FirstSummary(ticks: seq<Tick>, t: Tick, stamp: int)
    requires Summaries(ticks) == [] && CanStore(t, stamp)
    ensures Summaries(ticks + [t]) == [stamp]
  {
    assert (ticks + [t])[..|ticks|] == ticks;
  }

  /** The clock: an hour is 3600 seconds of a billion nanoseconds, and the hours of a day run from
      midnight. */
  lemma HoursOfDay(day: nat, hour: nat, nanos: nat)
    requires hour < 24 && nanos < 3600 * 1_000_000_000
    ensures var t := (day * 24 + hour) * 3600 * 1_000_000_000 + nanos; HourOf(t) == hour && DayOf(t) == day
  {
    var t := (day * 24 + hour) * HOUR + nanos;
    assert SlotOf(t) == day * 24 + hour;
  }

  /** A turn in which everything works and the summary is stamped at its tick. */
  function Smooth(at: int, c: Config): Tick { Tick(at, true, Some(c), true, Some(at)) }

  function AllSmooth(ticks: seq<int>, c: Config): (r: seq<Tick>)
    ensures |r| == |ticks| && forall i :: 0 <= i < |ticks| ==> r[i] == Smooth(ticks[i], c)
  {
    seq(|ticks|, i requires 0 <= i < |ticks| => Smooth(ticks[i], c))
  }

  /** The times at which summaries are made when every turn goes smoothly. */
  function Runs(ticks: seq<int>, intervalHours: int, atHour: int): seq<int> {
    if ticks == [] then []
    else
      var before, t := Runs(ticks[..|ticks| - 1], intervalHours, atHour), ticks[|ticks| - 1];
      if Due(t, LastOf(before), intervalHours, atHour) then before + [t] else before
  }

  lemma {:induction false} SmoothRuns(ticks: seq<int>, c: Config)
    ensures Summaries(AllSmooth(ticks, c)) == Runs(ticks, c.intervalHours, c.atHour)
  {
    if ticks != [] {
      var n := |ticks| - 1;
      SmoothRuns(ticks[..n], c);
      assert AllSmooth(ticks, c)[..n] == AllSmooth(ticks[..n], c);
    }
  }

  /** The shortest time a configuration leaves between a summary and the next attempt. */
  function MinGap(c: Config): int {
    if !Pinned(c.atHour) then c.intervalHours * HOUR
    else if c.intervalHours <= 2 then HOUR
    else (c.intervalHours - 1) * HOUR
  }

  ghost predicate Spaced(stamps: seq<int>, gap: int) {
    forall i {:trigger stamps[i]} :: 0 < i < |stamps| ==> stamps[i] - stamps[i - 1] >= gap
  }

  /** Turns under one configuration in which anything may fail and summaries may be stamped later
      than their tick; forgets says that the latest summary may be unreadable as well. */
  ghost predicate Rough(ticks: seq<Tick>, c: Config, forgets: bool) {
    forall i :: 0 <= i < |ticks| ==>
      && (ticks[i].config.Some? ==> ticks[i].config.value == c)
      && (ticks[i].saved.Some? ==> ticks[i].saved.value >= ticks[i].at)
      && (!forgets ==> ticks[i].lastReadable)
  }

  ghost predicate DistanceKept(c: Config, forgets: bool) {
    forall ticks :: Rough(ticks, c, forgets) ==> Spaced(Summaries(ticks), MinGap(c))
  }

  lemma DueKeepsGap(now: int, last: int, c: Config)
    requires Due(now, Some(last), c.intervalHours, c.atHour)
    ensures now - last >= MinGap(c)
  {
    assert c.intervalHours * HOUR - HOUR == (c.intervalHours - 1) * HOUR;
  }

  lemma {:induction false} ReadableKeepsDistance(ticks: seq<Tick>, c: Config)
    requires Rough(ticks, c, false)
    ensures Spaced(Summaries(ticks), MinGap(c))
  {
    if ticks != [] {
      var n := |ticks| - 1;
      ReadableKeepsDistance(ticks[..n], c);
      var before, t := Summaries(ticks[..n]), ticks[n];
      if before != [] && Attempts(t, LastOf(before)) { DueKeepsGap(t.at, before[|before| - 1], c); }
    }
  }

  /** Two turns ten minutes apart in the same hour both store a summary when the second one cannot
      read the first one's. */
  lemma UnreadableSummaryIsRepeated(c: Config) returns (ticks: seq<Tick>)
    requires c.intervalHours > 0
    ensures Rough(ticks, c, true) && |Summaries(ticks)| == 2 && Summaries(ticks)[1] - Summaries(ticks)[0] == HOUR / 6
  {
    var at := if Pinned(c.atHour) then c.atHour * HOUR else 0;
    var first, second := Smooth(at, c), Smooth(at + HOUR / 6, c).(lastReadable := false);
    ticks := [first, second];
    assert Pinned(c.atHour) ==> HourOf(at) == c.atHour && HourOf(at + HOUR / 6) == c.atHour;
    assert [first, second][..1] == [first] && [first][..0] == [];
    assert Summaries([]) == [];
    assert Summaries([first]) == [at];
    assert Summaries(ticks) == [at, at + HOUR / 6];
  }

  /** Summaries keep their distance over every run, with failing and late ones, if and only if the
      latest summary can always be read: one that cannot counts as none. */
  lemma DistanceKeptExactlyWhen(c: Config, forgets: bool)
    requires c.intervalHours > 0
    ensures DistanceKept(c, forgets) <==> !forgets
  {
    if forgets {
      var ticks := UnreadableSummaryIsRepeated(c);
      assert MinGap(c) >= HOUR;
      var stamps := Summaries(ticks);
      assert stamps[1] - stamps[0] < MinGap(c);
      assert !Spaced(stamps, MinGap(c));
    } else {
      forall ticks | Rough(ticks, c, forgets) ensures Spaced(Summaries(ticks), MinGap(c)) { ReadableKeepsDistance(ticks, c); }
    }
  }

  ghost predicate Increasing(ts: seq<int>) { forall i, j :: 0 <= i < j < |ts| ==> ts[i] < ts[j] }

  lemma {:induction false} RunsAreTicks(ticks: seq<int>, intervalHours: int, atHour: int)
    ensures forall r :: r in Runs(ticks, intervalHours, atHour) ==> r in ticks
  {
    if ticks != [] {
      var n := |ticks| - 1;
      RunsAreTicks(ticks[..n], intervalHours, atHour);
      assert ticks == ticks[..n] + [ticks[n]];
    }
  }

  // ---------------------------------------------------------------- the drifting schedule

  /** From one run to the next: at least the interval, and no tick in between was already due. */
  ghost predicate Gap(a: int, b: int, ticks: seq<int>, gap: int) {
    b - a >= gap && forall t :: t in ticks && a < t < b ==> t < a + gap
  }

  ghost predicate GapBefore(runs: seq<int>, i: nat, ticks: seq<int>, gap: int)
    requires 0 < i < |runs|
  {
    Gap(runs[i - 1], runs[i], ticks, gap)
  }

  ghost predicate Paced(runs: seq<int>, ticks: seq<int>, gap: int) {
    forall i: nat :: 0 < i < |runs| ==> GapBefore(runs, i, ticks, gap)
  }

  /** No tick after the last run was due. */
  ghost predicate NothingMissed(runs: seq<int>, ticks: seq<int>, gap: int) {
    if runs == [] then ticks == []
    else forall t :: t in ticks && t > runs[|runs| - 1] ==> t < runs[|runs| - 1] + gap
  }

  /** Unpinned: consecutive summaries are at least the interval apart, and each comes at the first
      tick at which it is due, so it is late by less than the gap between two ticks. */
  lemma {:induction false} DriftingSchedule(ticks: seq<int>, intervalHours: int, atHour: int)
    requires Increasing(ticks) && intervalHours > 0 && !Pinned(atHour)
    ensures Paced(Runs(ticks, intervalHours, atHour), ticks, intervalHours * HOUR)
    ensures NothingMissed(Runs(ticks, intervalHours, atHour), ticks, intervalHours * HOUR)
  {
    if ticks != [] {
      var n := |ticks| - 1;
      var init, t := ticks[..n], ticks[n];
      DriftingSchedule(init, intervalHours, atHour);
      RunsAreTicks(init, intervalHours, atHour);
      assert ticks == init + [t];
      DriftingStep(init, t, Runs(init, intervalHours, atHour), intervalHours * HOUR);
    }
  }

  lemma DriftingStep(init: seq<int>, t: int, before: seq<int>, gap: int)
    requires (forall x :: x in init ==> x < t) && (forall r :: r in before ==> r in init)
    requires Paced(before, init, gap) && NothingMissed(before, init, gap)
    ensures var after := if before == [] || t - before[|before| - 1] >= gap then before + [t] else before;
      Paced(after, init + [t], gap) && NothingMissed(after, init + [t], gap)
  {
    var ticks := init + [t];
    assert forall x :: x in ticks <==> x in init || x == t;
    forall i: nat | 0 < i < |before| ensures Gap(before[i - 1], before[i], ticks, gap) {
      assert GapBefore(before, i, init, gap);
      assert before[i] in before;
    }
    if before == [] {
      assert Paced([t], ticks, gap);
    } else if t - before[|before| - 1] >= gap {
      assert Gap(before[|before| - 1], t, ticks, gap);
      var after := before + [t];
      forall i: nat | 0 < i < |after| ensures GapBefore(after, i, ticks, gap) {
        assert after[i - 1] == before[i - 1];
      }
    } else {
      forall i: nat | 0 < i < |before| ensures GapBefore(before, i, ticks, gap) {}
    }
  }

  // ---------------------------------------------------------------- the pinned schedule

  /** Days between pinned summaries: the interval rounded up to whole days. */
  function PeriodDays(intervalHours: int): int { (intervalHours + 23) / 24 }

  /** Within the appointed hour, whether a summary is due depends on the day alone unless the
      interval is one hour more than a positive number of whole days. */
  predicate WholeDays(intervalHours: int) { intervalHours % 24 != 1 || intervalHours == 1 }

  /** The gap between two times in the same hour of two days, to within an hour either way. */
  lemma GapOfDays(last: int, now: int)
    requires HourOf(last) == HourOf(now)
    ensures (24 * (DayOf(now) - DayOf(last)) - 1) * HOUR < now - last < (24 * (DayOf(now) - DayOf(last)) + 1) * HOUR
  {
    var a, b := SlotOf(last), SlotOf(now);
    assert last == a * HOUR + last % HOUR && now == b * HOUR + now % HOUR;
    assert a == 24 * (a / 24) + a % 24 && b == 24 * (b / 24) + b % 24;
  }

  lemma DueByDay(last: int, now: int, intervalHours: int, atHour: int)
    requires intervalHours > 0 && WholeDays(intervalHours) && Pinned(atHour)
    requires HourOf(last) == atHour && HourOf(now) == atHour && last <= now
    ensures Due(now, Some(last), intervalHours, atHour) <==> DayOf(now) - DayOf(last) >= PeriodDays(intervalHours)
  {
    GapOfDays(last, now);
    var j, k := DayOf(now) - DayOf(last), PeriodDays(intervalHours);
    assert 24 * (k - 1) < intervalHours <= 24 * k;
  }

  /** Two ticks in the appointed hour of the same day are both due or both not. */
  ghost predicate DayDecides(intervalHours: int, atHour: int) {
    forall last, a, b ::
      HourOf(last) == HourOf(a) == HourOf(b) == atHour && last <= a && last <= b && DayOf(a) == DayOf(b) ==>
        (Due(a, Some(last), intervalHours, atHour) <==> Due(b, Some(last), intervalHours, atHour))
  }

  lemma DayDecidesExactlyWhen(intervalHours: int, atHour: int)
    requires intervalHours > 0 && Pinned(atHour)
    ensures DayDecides(intervalHours, atHour) <==> WholeDays(intervalHours)
  {
    if WholeDays(intervalHours) {
      forall last, a, b | HourOf(last) == HourOf(a) == HourOf(b) == atHour && last <= a && last <= b && DayOf(a) == DayOf(b)
        ensures Due(a, Some(last), intervalHours, atHour) <==> Due(b, Some(last), intervalHours, atHour)
      {
        DueByDay(last, a, intervalHours, atHour);
        DueByDay(last, b, intervalHours, atHour);
      }
    } else {
      var j := intervalHours / 24;
      var last := atHour * HOUR + HOUR / 2;
      var a, b := (24 * j + atHour) * HOUR + HOUR / 2, (24 * j + atHour) * HOUR;
      assert SlotOf(last) == atHour && SlotOf(a) == 24 * j + atHour && SlotOf(b) == 24 * j + atHour;
      assert HourOf(last) == atHour && HourOf(a) == atHour && HourOf(b) == atHour && DayOf(a) == DayOf(b);
      assert Due(a, Some(last), intervalHours, atHour) && !Due(b, Some(last), intervalHours, atHour);
    }
  }

  /** Every 25 hours at midnight: after a summary at 00:30, the next midnight hour is too early at its
      start and due at half past. */
  lemma MinutesDecide()
    ensures var last := HOUR / 2;
      && !Due(24 * HOUR, Some(last), 25, 0) && Due(24 * HOUR + HOUR / 2, Some(last), 25, 0)
      && DayOf(24 * HOUR) == DayOf(24 * HOUR + HOUR / 2) == 1
  {
  }

  /** There is a tick in the appointed hour of every day between two ticks' days. */
  ghost predicate TickEveryDay(ticks: seq<int>, atHour: int) {
    forall d, t, u :: t in ticks && u in ticks && DayOf(t) < d < DayOf(u) ==> HasTick(ticks, d, atHour)
  }

  ghost predicate HasTick(ticks: seq<int>, d: int, atHour: int) {
    exists x :: x in ticks && DayOf(x) == d && HourOf(x) == atHour
  }

  ghost predicate EveryKthDay(runs: seq<int>, k: int, atHour: int) {
    && (forall i :: 0 <= i < |runs| ==> HourOf(runs[i]) == atHour)
    && (forall i: nat :: 0 < i < |runs| ==> DaysBefore(runs, i) == k)
  }

  /** Days from the previous summary to this one. */
  function DaysBefore(runs: seq<int>, i: nat): int
    requires 0 < i < |runs|
  {
    DayOf(runs[i]) - DayOf(runs[i - 1])
  }

  /** Before the first summary no tick fell in the appointed hour; since the last one none fell in
      it a period or more later. */
  ghost predicate UpToDate(runs: seq<int>, ticks: seq<int>, k: int, atHour: int) {
    forall t :: t in ticks && HourOf(t) == atHour ==>
      runs != [] && (t > runs[|runs| - 1] ==> DayOf(t) < DayOf(runs[|runs| - 1]) + k)
  }

  /** A summary takes the first chance: the first one comes at the first tick in the appointed hour,
      and every one at the first such tick of its day. */
  ghost predicate FirstChance(runs: seq<int>, ticks: seq<int>, atHour: int) {
    && (forall t :: t in ticks && HourOf(t) == atHour && runs != [] ==> runs[0] <= t)
    && (forall i, t :: 0 <= i < |runs| && t in ticks && HourOf(t) == atHour && DayOf(t) == DayOf(runs[i]) ==> runs[i] <= t)
  }

  lemma DayGrows(t: int, u: int)
    requires t <= u
    ensures DayOf(t) <= DayOf(u)
  {
  }

  /** Pinned, with a tick in the appointed hour of every day: summaries are made in that hour of
      exactly every k-th day from the first tick in it on, each at the first such tick of its day. */
  lemma {:induction false} PinnedSchedule(ticks: seq<int>, intervalHours: int, atHour: int, all: seq<int>)
    requires intervalHours > 0 && WholeDays(intervalHours) && Pinned(atHour)
    requires ticks <= all && Increasing(all) && TickEveryDay(all, atHour)
    ensures var runs, k := Runs(ticks, intervalHours, atHour), PeriodDays(intervalHours);
      EveryKthDay(runs, k, atHour) && UpToDate(runs, ticks, k, atHour) && FirstChance(runs, ticks, atHour)
    decreases |ticks|
  {
    if ticks != [] {
      var n := |ticks| - 1;
      PinnedSchedule(ticks[..n], intervalHours, atHour, all);
      assert ticks == ticks[..n] + [ticks[n]];
      PinnedStep(ticks[..n], ticks[n], Runs(ticks[..n], intervalHours, atHour), intervalHours, atHour, all);
      ChanceStep(ticks[..n], ticks[n], Runs(ticks[..n], intervalHours, atHour), intervalHours, atHour, all);
    }
  }

  lemma PinnedStep(init: seq<int>, t: int, before: seq<int>, intervalHours: int, atHour: int, all: seq<int>)
    requires intervalHours > 0 && WholeDays(intervalHours) && Pinned(atHour)
    requires init + [t] <= all && Increasing(all) && TickEveryDay(all, atHour)
    requires before == Runs(init, intervalHours, atHour)
    requires EveryKthDay(before, PeriodDays(intervalHours), atHour) && UpToDate(before, init, PeriodDays(intervalHours), atHour)
    ensures var k := PeriodDays(intervalHours);
      var after := if Due(t, LastOf(before), intervalHours, atHour) then before + [t] else before;
      EveryKthDay(after, k, atHour) && UpToDate(after, init + [t], k, atHour)
  {
    var k := PeriodDays(intervalHours);
    RunsAreTicks(init, intervalHours, atHour);
    InitBefore(init, t, all);
    if HourOf(t) == atHour {
      if before != [] {
        var last := before[|before| - 1];
        assert last in before && last in init;
        DueByDay(last, t, intervalHours, atHour);
        NotLate(init, t, before, k, atHour, all);
      }
      if Due(t, LastOf(before), intervalHours, atHour) {
        AppendRun(before, t, k, atHour);
      }
    }
    StaysUpToDate(init, t, before, Due(t, LastOf(before), intervalHours, atHour), k, atHour);
  }

  /** A tick in the appointed hour comes at most k days after the latest summary. */
  lemma NotLate(init: seq<int>, t: int, before: seq<int>, k: int, atHour: int, all: seq<int>)
    requires init + [t] <= all && Increasing(all) && TickEveryDay(all, atHour) && k > 0
    requires before != [] && before[|before| - 1] in init && HourOf(before[|before| - 1]) == atHour && HourOf(t) == atHour
    requires UpToDate(before, init, k, atHour)
    ensures DayOf(t) <= DayOf(before[|before| - 1]) + k
  {
    var last := before[|before| - 1];
    if DayOf(t) > DayOf(last) + k { NoDaySkipped(init, t, last, DayOf(last) + k, atHour, all); }
  }

  lemma StaysUpToDate(init: seq<int>, t: int, before: seq<int>, due: bool, k: int, atHour: int)
    requires UpToDate(before, init, k, atHour) && k > 0 && forall x :: x in init ==> x < t
    requires HourOf(t) == atHour && !due ==> before != [] && DayOf(t) < DayOf(before[|before| - 1]) + k
    ensures UpToDate(if due then before + [t] else before, init + [t], k, atHour)
  {
    var after := if due then before + [t] else before;
    forall x | x in init + [t] && HourOf(x) == atHour
      ensures after != [] && (x > after[|after| - 1] ==> DayOf(x) < DayOf(after[|after| - 1]) + k)
    {
      assert x in init || x == t;
    }
  }

  lemma ChanceStep(init: seq<int>, t: int, before: seq<int>, intervalHours: int, atHour: int, all: seq<int>)
    requires intervalHours > 0 && WholeDays(intervalHours) && Pinned(atHour)
    requires init + [t] <= all && Increasing(all)
    requires before == Runs(init, intervalHours, atHour)
    requires EveryKthDay(before, PeriodDays(intervalHours), atHour) && UpToDate(before, init, PeriodDays(intervalHours), atHour)
    requires FirstChance(before, init, atHour)
    ensures var after := if Due(t, LastOf(before), intervalHours, atHour) then before + [t] else before;
      FirstChance(after, init + [t], atHour)
  {
    RunsAreTicks(init, intervalHours, atHour);
    InitBefore(init, t, all);
    forall i | 0 <= i < |before| ensures before[i] < t { assert before[i] in before; }
    var due := Due(t, LastOf(before), intervalHours, atHour);
    if due && before != [] {
      var last := before[|before| - 1];
      assert last in before;
      DueByDay(last, t, intervalHours, atHour);
      forall x | x in init && HourOf(x) == atHour ensures DayOf(x) != DayOf(t) {
        if x <= last { DayGrows(x, last); }
      }
    }
    AppendChance(init, t, before, due, atHour);
  }

  /** A new summary on a day whose appointed hour had no tick yet takes the first chance. */
  lemma AppendChance(init: seq<int>, t: int, before: seq<int>, due: bool, atHour: int)
    requires FirstChance(before, init, atHour) && (forall x :: x in init ==> x < t)
    requires forall i :: 0 <= i < |before| ==> before[i] < t
    requires due ==> forall x :: x in init && HourOf(x) == atHour ==> before != [] && DayOf(x) != DayOf(t)
    ensures FirstChance(if due then before + [t] else before, init + [t], atHour)
  {
    var after, ticks := if due then before + [t] else before, init + [t];
    assert forall x :: x in ticks <==> x in init || x == t;
    forall i, x | 0 <= i < |after| && x in ticks && HourOf(x) == atHour && DayOf(x) == DayOf(after[i]) ensures after[i] <= x {
      if i < |before| { assert after[i] == before[i]; }
    }
  }

  lemma InitBefore(init: seq<int>, t: int, all: seq<int>)
    requires init + [t] <= all && Increasing(all)
    ensures forall x :: x in init ==> x < t
    ensures t in all && forall x :: x in init ==> x in all
  {
    var some := init + [t];
    assert all[|init|] == some[|init|] == t;
    forall x | x in init ensures x < t && x in all {
      var i :| 0 <= i < |init| && init[i] == x;
      assert all[i] == some[i] == x;
    }
  }

  lemma AppendRun(before: seq<int>, t: int, k: int, atHour: int)
    requires EveryKthDay(before, k, atHour) && HourOf(t) == atHour
    requires before != [] ==> DayOf(t) == DayOf(before[|before| - 1]) + k
    ensures EveryKthDay(before + [t], k, atHour)
  {
    var after := before + [t];
    forall i: nat | 0 < i < |after| ensures DaysBefore(after, i) == k {
      assert after[i - 1] == before[i - 1];
      if i < |before| { assert DaysBefore(before, i) == k && after[i] == before[i]; }
    }
  }

  /** A tick exists on day d between last and t, and it came before t. */
  lemma NoDaySkipped(init: seq<int>, t: int, last: int, d: int, atHour: int, all: seq<int>)
    requires init + [t] <= all && Increasing(all) && TickEveryDay(all, atHour)
    requires last in init && HourOf(last) == atHour && HourOf(t) == atHour && DayOf(last) < d < DayOf(t)
    ensures exists x :: x in init && DayOf(x) == d && HourOf(x) == atHour && x > last
  {
    InitBefore(init, t, all);
    assert HasTick(all, d, atHour);
    var x :| x in all && DayOf(x) == d && HourOf(x) == atHour;
    if x <= last { DayGrows(x, last); }
    if x >= t { DayGrows(t, x); }
    var j :| 0 <= j < |all| && all[j] == x;
    var some := init + [t];
    assert all[|init|] == some[|init|] == t;
    assert j < |init|;
    assert all[j] == some[j] == init[j];
  }
}

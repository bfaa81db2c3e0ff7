/** The snapshot uploader: batches metadata, flushes on count, bytes or time, keeps a failed batch
    for retry and drops the oldest items beyond 2000. */
module Uploader {

  newtype byte = x: int | 0 <= x < 256

  datatype Meta = Meta(content: seq<byte>, diff: seq<byte>)

  const MAX_UPLOAD_BYTES := 7 * 1024 * 1024
  const MAX_ITEMS := 100
  const MAX_KEPT := 2000

  function MetaBytes(m: Meta): nat { |m.content| + |m.diff| + 256 }

  function TotalBytes(ms: seq<Meta>): nat {
    if ms == [] then 0 else TotalBytes(ms[..|ms| - 1]) + MetaBytes(ms[|ms| - 1])
  }

  /** What the loop selects on, with the outcome of every POST it may make in that turn. */
  datatype Event =
    | Received(meta: Meta, firstOk: bool, secondOk: bool)
    | Tick(ok: bool)

  /** One POST. unblocked says that the POST before it, if any, succeeded. */
  datatype Post = Post(items: seq<Meta>, ok: bool, unblocked: bool)

  /** What became of a stretch of the received stream. */
  datatype Segment = Delivered(items: seq<Meta>) | Dropped(items: seq<Meta>)

  /** The two variables of the loop, then the history of what it did. */
  datatype State = State(batch: seq<Meta>, batchBytes: nat, posts: seq<Post>, history: seq<Segment>, failing: bool)

  const START := State([], 0, [], [], false)

  // ---------------------------------------------------------------- the loop as a function

  function Flushed(s: State, ok: bool): State {
    if s.batch == [] then s
    else
      var posts := s.posts + [Post(s.batch, ok, !s.failing)];
      if ok then State([], 0, posts, s.history + [Delivered(s.batch)], false)
      else if |s.batch| > MAX_KEPT then
        var n := |s.batch| - MAX_KEPT;
        State(s.batch[n..], TotalBytes(s.batch[n..]), posts, s.history + [Dropped(s.batch[..n])], true)
      else State(s.batch, TotalBytes(s.batch), posts, s.history, true)
  }

  function Appended(s: State, m: Meta): State {
    s.(batch := s.batch + [m], batchBytes := s.batchBytes + MetaBytes(m))
  }

  function Next(s: State, e: Event): State {
    match e
    case Tick(ok) => Flushed(s, ok)
    case Received(m, firstOk, secondOk) => FlushIfFull(Appended(MakeRoom(s, m, firstOk), m), secondOk)
  }

  /** Flush first when the item would push the batch over the byte limit. */
  function MakeRoom(s: State, m: Meta, ok: bool): State {
    if s.batch != [] && s.batchBytes + MetaBytes(m) > MAX_UPLOAD_BYTES then Flushed(s, ok) else s
  }

  function FlushIfFull(s: State, ok: bool): State {
    if |s.batch| >= MAX_ITEMS || s.batchBytes >= MAX_UPLOAD_BYTES then Flushed(s, ok) else s
  }

  function After(events: seq<Event>): State {
    if events == [] then START else Next(After(events[..|events| - 1]), events[|events| - 1])
  }

  // ---------------------------------------------------------------- the loop itself

  method Recount(batch: seq<Meta>) returns (batchBytes: nat)
    ensures batchBytes == TotalBytes(batch)
  {
    batchBytes := 0;
    for i := 0 to |batch|
      invariant batchBytes == TotalBytes(batch[..i])
    {
      assert batch[..i + 1][..i] == batch[..i];
      batchBytes := batchBytes + MetaBytes(batch[i]);
    }
    assert batch[..|batch|] == batch;
  }

  /** flush: POST the batch; on failure keep at most the newest 2000 items. */
  method Flush(s: State, ok: bool) returns (s': State)
    ensures s' == Flushed(s, ok)
  {
    if |s.batch| == 0 { return s; }
    var batch := s.batch;
    s' := s.(posts := s.posts + [Post(batch, ok, !s.failing)]);
    if !ok {
      if |batch| > MAX_KEPT {
        var n := |batch| - MAX_KEPT;
        s' := s'.(history := s.history + [Dropped(batch[..n])]);
        batch := batch[n..];
      }
      var batchBytes := Recount(batch);
      return s'.(batch := batch, batchBytes := batchBytes, failing := true);
    }
    return s'.(batch := [], batchBytes := 0, history := s.history + [Delivered(batch)], failing := false);
  }

  method Receive(s: State, m: Meta, firstOk: bool, secondOk: bool) returns (s': State)
    ensures s' == Next(s, Received(m, firstOk, secondOk))
  {
    s' := s;
    if |s.batch| > 0 && s.batchBytes + MetaBytes(m) > MAX_UPLOAD_BYTES {
      s' := Flush(s, firstOk);
    }
    assert s' == MakeRoom(s, m, firstOk);
    s' := s'.(batch := s'.batch + [m], batchBytes := s'.batchBytes + MetaBytes(m));
    assert s' == Appended(MakeRoom(s, m, firstOk), m);
    if |s'.batch| >= MAX_ITEMS || s'.batchBytes >= MAX_UPLOAD_BYTES {
      s' := Flush(s', secondOk);
    }
  }

  /** The select loop, over any sequence of arrivals and ticks, ended by the final flush. */
  method Run(events: seq<Event>, finalOk: bool) returns (s: State)
    ensures s == Flushed(After(events), finalOk)
  {
    s := START;
    for i := 0 to |events|
      invariant s == After(events[..i])
    {
      assert events[..i + 1][..i] == events[..i];
      match events[i] {
        case Received(m, firstOk, secondOk) => s := Receive(s, m, firstOk, secondOk);
        case Tick(ok) => s := Flush(s, ok);
      }
    }
    assert events[..|events|] == events;
    s := Flush(s, finalOk);
  }

  // ---------------------------------------------------------------- what every run keeps

  ghost function Stream(events: seq<Event>): seq<Meta> {
    if events == [] then []
    else
      var e := events[|events| - 1];
      Stream(events[..|events| - 1]) + if e.Received? then [e.meta] else []
  }

  ghost function Items(history: seq<Segment>): seq<Meta> {
    if history == [] then [] else Items(history[..|history| - 1]) + history[|history| - 1].items
  }

  /** The delivered stretches, in order. */
  ghost function DeliveredParts(history: seq<Segment>): seq<seq<Meta>> {
    if history == [] then []
    else
      var h := history[|history| - 1];
      DeliveredParts(history[..|history| - 1]) + if h.Delivered? then [h.items] else []
  }

  /** The successful POSTs, in order. */
  ghost function SuccessfulPosts(posts: seq<Post>): seq<seq<Meta>> {
    if posts == [] then []
    else
      var p := posts[|posts| - 1];
      SuccessfulPosts(posts[..|posts| - 1]) + if p.ok then [p.items] else []
  }

  ghost predicate WithinLimits(items: seq<Meta>) {
    1 <= |items| <= MAX_ITEMS && (TotalBytes(items) <= MAX_UPLOAD_BYTES || |items| == 1)
  }

  ghost predicate PostsFine(posts: seq<Post>) {
    forall i :: 0 <= i < |posts| ==> posts[i].items != [] && (posts[i].unblocked ==> WithinLimits(posts[i].items))
  }

  /** The received stream is, in order, the delivered and dropped stretches and then the batch. */
  ghost predicate Accounts(s: State, stream: seq<Meta>) {
    Items(s.history) + s.batch == stream && DeliveredParts(s.history) == SuccessfulPosts(s.posts)
  }

  /** Items are only ever dropped one at a time. */
  ghost predicate SingleDrops(history: seq<Segment>) {
    forall i :: 0 <= i < |history| && history[i].Dropped? ==> |history[i].items| == 1
  }

  ghost predicate Fine(s: State) {
    && s.batchBytes == TotalBytes(s.batch)
    && |s.batch| <= MAX_KEPT && SingleDrops(s.history)
    && (!s.failing ==> |s.batch| < MAX_ITEMS && s.batchBytes < MAX_UPLOAD_BYTES)
    && PostsFine(s.posts)
  }

  lemma ItemsAppend(history: seq<Segment>, h: Segment)
    ensures Items(history + [h]) == Items(history) + h.items
    ensures DeliveredParts(history + [h]) == DeliveredParts(history) + if h.Delivered? then [h.items] else []
  {
    assert (history + [h])[..|history|] == history;
  }

  lemma PostsAppend(posts: seq<Post>, p: Post)
    ensures SuccessfulPosts(posts + [p]) == SuccessfulPosts(posts) + if p.ok then [p.items] else []
  {
    assert (posts + [p])[..|posts|] == posts;
  }

  lemma FlushAccounts(s: State, ok: bool, stream: seq<Meta>)
    requires Accounts(s, stream)
    ensures Accounts(Flushed(s, ok), stream)
  {
    var s' := Flushed(s, ok);
    if s.batch != [] {
      PostsAppend(s.posts, Post(s.batch, ok, !s.failing));
      if ok {
        ItemsAppend(s.history, Delivered(s.batch));
        assert Items(s'.history) + [] == Items(s.history) + s.batch;
      } else if |s.batch| > MAX_KEPT {
        var n := |s.batch| - MAX_KEPT;
        ItemsAppend(s.history, Dropped(s.batch[..n]));
        Regroup(Items(s.history), s.batch, n);
      }
    }
  }

  lemma Regroup(x: seq<Meta>, batch: seq<Meta>, n: nat)
    requires n <= |batch|
    ensures x + batch[..n] + batch[n..] == x + batch
  {
    assert batch == batch[..n] + batch[n..];
  }

  lemma NextAccounts(s: State, e: Event, stream: seq<Meta>)
    requires Accounts(s, stream)
    ensures Accounts(Next(s, e), stream + if e.Received? then [e.meta] else [])
  {
    match e {
      case Tick(ok) =>
        FlushAccounts(s, ok, stream);
        assert stream + [] == stream;
      case Received(m, firstOk, secondOk) =>
        var room := MakeRoom(s, m, firstOk);
        MakeRoomAccounts(s, m, firstOk, stream);
        AppendAccounts(room, m, stream);
        FlushIfFullAccounts(Appended(room, m), secondOk, stream + [m]);
    }
  }

  lemma MakeRoomAccounts(s: State, m: Meta, ok: bool, stream: seq<Meta>)
    requires Accounts(s, stream)
    ensures Accounts(MakeRoom(s, m, ok), stream)
  {
    FlushAccounts(s, ok, stream);
  }

  lemma FlushIfFullAccounts(s: State, ok: bool, stream: seq<Meta>)
    requires Accounts(s, stream)
    ensures Accounts(FlushIfFull(s, ok), stream)
  {
    FlushAccounts(s, ok, stream);
  }

  lemma AppendAccounts(s: State, m: Meta, stream: seq<Meta>)
    requires Accounts(s, stream)
    ensures Accounts(Appended(s, m), stream + [m])
  {
    assert Items(s.history) + (s.batch + [m]) == Items(s.history) + s.batch + [m];
  }

  lemma FlushFine(s: State, ok: bool)
    requires PostsFine(s.posts) && s.batchBytes == TotalBytes(s.batch)
    requires |s.batch| <= MAX_KEPT + 1 && SingleDrops(s.history)
    requires !s.failing && s.batch != [] ==> WithinLimits(s.batch)
    ensures var s' := Flushed(s, ok);
      PostsFine(s'.posts) && s'.batchBytes == TotalBytes(s'.batch) && SingleDrops(s'.history)
      && (s.batch != [] ==> |s'.batch| <= MAX_KEPT && (ok ==> s'.batch == []) && (s'.failing <==> !ok))
  {
  }

  /** After making room and appending, an unblocked batch is within the limits. */
  lemma AppendFine(s: State, m: Meta, ok: bool)
    requires Fine(s)
    ensures var a := Appended(MakeRoom(s, m, ok), m);
      && a.batchBytes == TotalBytes(a.batch) && |a.batch| <= MAX_KEPT + 1 && PostsFine(a.posts) && SingleDrops(a.history)
      && a.batch != [] && (!a.failing ==> WithinLimits(a.batch))
  {
    FlushFine(s, ok);
    var room := MakeRoom(s, m, ok);
    assert (room.batch + [m])[..|room.batch|] == room.batch;
  }

  lemma NextFine(s: State, e: Event)
    requires Fine(s)
    ensures Fine(Next(s, e))
  {
    match e {
      case Tick(ok) => FlushFine(s, ok);
      case Received(m, firstOk, secondOk) =>
        AppendFine(s, m, firstOk);
        FlushIfFullFine(Appended(MakeRoom(s, m, firstOk), m), secondOk);
    }
  }

  lemma FlushIfFullFine(a: State, ok: bool)
    requires a.batchBytes == TotalBytes(a.batch) && |a.batch| <= MAX_KEPT + 1 && PostsFine(a.posts) && SingleDrops(a.history)
    requires a.batch != [] && (!a.failing ==> WithinLimits(a.batch))
    ensures Fine(FlushIfFull(a, ok))
  {
    FlushFine(a, ok);
  }

  lemma {:induction false} RunInv(events: seq<Event>)
    ensures Fine(After(events)) && Accounts(After(events), Stream(events))
  {
    if events != [] {
      var rest := events[..|events| - 1];
      RunInv(rest);
      NextFine(After(rest), events[|events| - 1]);
      NextAccounts(After(rest), events[|events| - 1], Stream(rest));
    }
  }

  /** Over every run: the byte count is exact, the batch never holds more than 2000 items, the
      successful POSTs are disjoint consecutive stretches of the received stream in order with
      nothing between them but single dropped items, and a POST that does not follow a failed one
      respects the item and byte limits. */
  lemma EveryRun(events: seq<Event>)
    ensures var s := After(events);
      && s.batchBytes == TotalBytes(s.batch) && |s.batch| <= 2000
      && Items(s.history) + s.batch == Stream(events)
      && DeliveredParts(s.history) == SuccessfulPosts(s.posts)
      && (forall i :: 0 <= i < |s.history| && s.history[i].Dropped? ==> |s.history[i].items| == 1)
      && forall i :: 0 <= i < |s.posts| ==>
           s.posts[i].items != [] && (s.posts[i].unblocked ==> WithinLimits(s.posts[i].items))
  {
    RunInv(events);
  }

  /** From before to after something was dropped. */
  ghost predicate DropsBetween(before: State, after: State) {
    exists i :: |before.history| <= i < |after.history| && after.history[i].Dropped?
  }

  /** The turn posts the waiting batch first, to make room for an arrival, and that POST succeeds. */
  predicate RoomMade(s: State, m: Meta, ok: bool) {
    s.batch != [] && s.batchBytes + MetaBytes(m) > MAX_UPLOAD_BYTES && ok
  }

  predicate Overflows(s: State, e: Event) {
    e.Received? && |s.batch| == MAX_KEPT && !RoomMade(s, e.meta, e.firstOk) && !e.secondOk
  }

  /** One flush of at most 2001 items: all are delivered, or the oldest of 2001 is dropped, or
      nothing happens to any. */
  lemma FlushHistory(s: State, ok: bool)
    requires |s.batch| <= MAX_KEPT + 1
    ensures var s' := Flushed(s, ok);
      if !ok && |s.batch| == MAX_KEPT + 1 then s'.history == s.history + [Dropped([s.batch[0]])] && s'.batch == s.batch[1..]
      else s'.history == s.history || s'.history == s.history + [Delivered(s.batch)]
    ensures !ok && |s.batch| <= MAX_KEPT ==> Flushed(s, ok).history == s.history && Flushed(s, ok).batch == s.batch
  {
    if |s.batch| == MAX_KEPT + 1 { assert s.batch[..1] == [s.batch[0]]; }
  }

  lemma OverflowTurn(s: State, e: Event)
    requires Overflows(s, e)
    ensures var s' := Next(s, e);
      s'.history == s.history + [Dropped([s.batch[0]])] && s'.batch == s.batch[1..] + [e.meta]
  {
    FlushHistory(s, e.firstOk);
    var a := Appended(MakeRoom(s, e.meta, e.firstOk), e.meta);
    assert a.batch == s.batch + [e.meta] && a.history == s.history;
    FlushHistory(a, false);
    assert a.batch[1..] == s.batch[1..] + [e.meta];
  }

  lemma CalmTurn(s: State, e: Event)
    requires |s.batch| <= MAX_KEPT && !Overflows(s, e)
    ensures !DropsBetween(s, Next(s, e))
  {
    match e {
      case Tick(ok) => FlushHistory(s, ok);
      case Received(m, firstOk, secondOk) =>
        var room := MakeRoom(s, m, firstOk);
        RoomHistory(s, m, firstOk);
        var a := Appended(room, m);
        FlushHistory(a, secondOk);
        assert FlushIfFull(a, secondOk).history == a.history || FlushIfFull(a, secondOk).history == a.history + [Delivered(a.batch)];
    }
  }

  lemma RoomHistory(s: State, m: Meta, ok: bool)
    requires |s.batch| <= MAX_KEPT
    ensures var room := MakeRoom(s, m, ok);
      if RoomMade(s, m, ok) then room.history == s.history + [Delivered(s.batch)] && room.batch == []
      else room.history == s.history && room.batch == s.batch
  {
    FlushHistory(s, ok);
  }

  /** After any run, the next turn drops something exactly when an item arrives while 2000 are
      waiting, none of which is delivered first, and the POST of all 2001 fails. It then drops the
      oldest one alone, and the 1999 others wait on with the new one behind them. */
  lemma DropsAreTheOldest(events: seq<Event>, e: Event)
    ensures var s, s' := After(events), After(events + [e]);
      && (DropsBetween(s, s') <==>
           e.Received? && |s.batch| == 2000 && !RoomMade(s, e.meta, e.firstOk) && !e.secondOk)
      && (DropsBetween(s, s') ==>
           s'.history == s.history + [Dropped([s.batch[0]])] && s'.batch == s.batch[1..] + [e.meta])
  {
    RunInv(events);
    AfterThen(events, e);
    var s, s' := After(events), After(events + [e]);
    if Overflows(s, e) {
      OverflowTurn(s, e);
      assert s'.history[|s.history|].Dropped?;
    } else {
      CalmTurn(s, e);
    }
  }

  // ---------------------------------------------------------------- ticks and the end

  /** After any run, a tick makes one POST of everything that waits, and none when nothing does. If it
      succeeds nothing waits any more, and everything received so far was delivered or dropped
      before; if it fails nothing is gone. */
  lemma TickPosts(events: seq<Event>, ok: bool)
    ensures var s, s' := After(events), After(events + [Tick(ok)]);
      && (s.batch == [] ==> s' == s)
      && (s.batch != [] ==>
           |s'.posts| == |s.posts| + 1 && s'.posts[..|s.posts|] == s.posts
           && s'.posts[|s.posts|].items == s.batch && s'.posts[|s.posts|].ok == ok)
      && (ok ==> s'.batch == [] && Items(s'.history) == Stream(events))
      && (ok && s.batch != [] ==> s'.history == s.history + [Delivered(s.batch)])
      && (!ok ==> s'.batch == s.batch && s'.history == s.history)
  {
    RunInv(events);
    RunInv(events + [Tick(ok)]);
    AfterThen(events, Tick(ok));
    var s, s' := After(events), After(events + [Tick(ok)]);
    FlushHistory(s, ok);
    assert (events + [Tick(ok)])[..|events|] == events;
    assert Stream(events + [Tick(ok)]) == Stream(events) + [];
    if ok { assert Items(s'.history) + [] == Items(s'.history); }
  }

  /** What a failed tick left waiting the next good one delivers, as one piece. */
  lemma RetryDelivers(events: seq<Event>)
    requires After(events).batch != []
    ensures var s, s' := After(events), After(events + [Tick(false)] + [Tick(true)]);
      s'.batch == [] && s'.history == s.history + [Delivered(s.batch)]
  {
    TickPosts(events, false);
    TickPosts(events + [Tick(false)], true);
  }

  /** The final flush is a tick: if it succeeds nothing is left behind, and every item received was
      delivered or dropped before. */
  lemma FinalFlush(events: seq<Event>, ok: bool)
    ensures Flushed(After(events), ok) == After(events + [Tick(ok)])
    ensures ok ==> Flushed(After(events), ok).batch == [] && Items(Flushed(After(events), ok).history) == Stream(events)
  {
    AfterThen(events, Tick(ok));
    TickPosts(events, ok);
  }

  /** The bytes of the contents, and those of the diffs. */
  ghost function ContentBytes(ms: seq<Meta>): nat { if ms == [] then 0 else |ms[0].content| + ContentBytes(ms[1..]) }
  ghost function DiffBytes(ms: seq<Meta>): nat { if ms == [] then 0 else |ms[0].diff| + DiffBytes(ms[1..]) }

  /** The running count is what the items weigh on the wire: contents, diffs, 256 bytes each. */
  lemma {:induction false} TotalIsWeight(ms: seq<Meta>)
    ensures TotalBytes(ms) == ContentBytes(ms) + DiffBytes(ms) + 256 * |ms|
  {
    if ms != [] {
      var n := |ms| - 1;
      TotalIsWeight(ms[..n]);
      WeightAppend(ms[..n], ms[n]);
      assert ms == ms[..n] + [ms[n]];
    }
  }

  lemma {:induction false} WeightAppend(ms: seq<Meta>, m: Meta)
    ensures ContentBytes(ms + [m]) == ContentBytes(ms) + |m.content| && DiffBytes(ms + [m]) == DiffBytes(ms) + |m.diff|
  {
    if ms != [] {
      WeightAppend(ms[1..], m);
      assert (ms + [m])[1..] == ms[1..] + [m];
    }
  }

  /** A POST that does not follow a failed one has at most 100 items and, unless it is a single item,
      at most 7 MiB of contents, diffs and overhead. */
  lemma UnblockedPostsFit(events: seq<Event>, i: nat)
    requires i < |After(events).posts| && After(events).posts[i].unblocked
    ensures var items := After(events).posts[i].items;
      1 <= |items| <= 100 && (ContentBytes(items) + DiffBytes(items) + 256 * |items| <= 7 * 1024 * 1024 || |items| == 1)
  {
    EveryRun(events);
    TotalIsWeight(After(events).posts[i].items);
  }

  /** An arrival that fits the 7 MiB with what waits goes out no earlier than what waits: the turn makes
      no POST without it. One that fills them exactly is posted with the rest at once. */
  lemma FittingItemJoins(events: seq<Event>, m: Meta, firstOk: bool, secondOk: bool)
    requires After(events).batchBytes + MetaBytes(m) <= 7 * 1024 * 1024
    ensures var s, s' := After(events), After(events + [Received(m, firstOk, secondOk)]);
      && (forall i :: |s.posts| <= i < |s'.posts| ==> s'.posts[i].items == s.batch + [m])
      && (s.batchBytes + MetaBytes(m) == 7 * 1024 * 1024 ==> |s'.posts| == |s.posts| + 1)
  {
    AfterThen(events, Received(m, firstOk, secondOk));
  }

  /** One that does not fit is posted only after what waits. */
  lemma MisfitWaits(events: seq<Event>, m: Meta, firstOk: bool, secondOk: bool)
    requires After(events).batch != [] && After(events).batchBytes + MetaBytes(m) > 7 * 1024 * 1024
    ensures var s, s' := After(events), After(events + [Received(m, firstOk, secondOk)]);
      |s'.posts| > |s.posts| && s'.posts[|s.posts|].items == s.batch
  {
    AfterThen(events, Received(m, firstOk, secondOk));
  }

  /** Fewer than 100 items that together stay below 7 MiB are not posted before a tick. */
  lemma {:induction false} SmallRunsWait(items: seq<Meta>, events: seq<Event>)
    requires |events| == |items| < 100 && TotalBytes(items) < 7 * 1024 * 1024
    requires forall i :: 0 <= i < |items| ==> events[i].Received? && events[i].meta == items[i]
    ensures After(events) == State(items, TotalBytes(items), [], [], false)
  {
    if items != [] {
      var n := |items| - 1;
      SmallRunsWait(items[..n], events[..n]);
      assert items == items[..n] + [items[n]];
    }
  }

  // ---------------------------------------------------------------- when the limits are kept

  /** Which POSTs can fail: those that make room for an arrival, those of a full batch, those on
      a tick. */
  datatype Faults = Faults(first: bool, second: bool, tick: bool)

  ghost predicate Allowed(f: Faults, e: Event) {
    match e
    case Tick(ok) => ok || f.tick
    case Received(_, firstOk, secondOk) => (firstOk || f.first) && (secondOk || f.second)
  }

  ghost predicate AllAllowed(f: Faults, events: seq<Event>) {
    forall i :: 0 <= i < |events| ==> Allowed(f, events[i])
  }

  ghost predicate KeepsLimits(posts: seq<Post>) {
    forall i :: 0 <= i < |posts| ==> WithinLimits(posts[i].items)
  }

  /** Every POST of every run with no other failures than these respects the limits. */
  ghost predicate LimitsKept(f: Faults) {
    forall events :: AllAllowed(f, events) ==> KeepsLimits(After(events).posts)
  }

  /** A tick that fails leaves the batch as it was, below the thresholds. */
  lemma {:induction false} TicksMayFail(f: Faults, events: seq<Event>)
    requires !f.first && !f.second && AllAllowed(f, events)
    ensures Small(After(events))
  {
    if events != [] {
      var n := |events| - 1;
      TicksMayFail(f, events[..n]);
      assert Allowed(f, events[n]);
      SmallTurn(After(events[..n]), events[n]);
    }
  }

  ghost predicate Small(s: State) {
    KeepsLimits(s.posts) && |s.batch| < MAX_ITEMS && s.batchBytes < MAX_UPLOAD_BYTES && s.batchBytes == TotalBytes(s.batch)
  }

  lemma SmallTurn(s: State, e: Event)
    requires Small(s) && (e.Received? ==> e.firstOk && e.secondOk)
    ensures Small(Next(s, e))
  {
    match e {
      case Tick(ok) => SmallTick(s, ok);
      case Received(m, _, _) =>
        SmallAppend(s, m);
        SmallFlush(Appended(MakeRoom(s, m, true), m));
    }
  }

  lemma SmallTick(s: State, ok: bool)
    requires Small(s)
    ensures Small(Flushed(s, ok))
  {
    if s.batch != [] { FlushLimits(s, ok); }
  }

  lemma SmallFlush(a: State)
    requires KeepsLimits(a.posts) && WithinLimits(a.batch) && a.batchBytes == TotalBytes(a.batch)
    ensures Small(FlushIfFull(a, true))
  {
    FlushLimits(a, true);
  }

  /** Flushing a batch within the limits adds a POST within the limits. */
  lemma FlushLimits(s: State, ok: bool)
    requires KeepsLimits(s.posts) && WithinLimits(s.batch) && s.batchBytes == TotalBytes(s.batch)
    ensures var s' := Flushed(s, ok);
      KeepsLimits(s'.posts) && if ok then s'.batch == [] && s'.batchBytes == 0 else s'.batch == s.batch && s'.batchBytes == s.batchBytes
  {
  }

  lemma SmallAppend(s: State, m: Meta)
    requires Small(s)
    ensures var a := Appended(MakeRoom(s, m, true), m);
      KeepsLimits(a.posts) && WithinLimits(a.batch) && a.batchBytes == TotalBytes(a.batch)
  {
    var room := MakeRoom(s, m, true);
    assert (room.batch + [m])[..|room.batch|] == room.batch;
  }

  lemma AfterThen(events: seq<Event>, e: Event)
    ensures After(events + [e]) == Next(After(events), e)
  {
    assert (events + [e])[..|events|] == events;
  }

  /** Two versions of 4 MiB: the POST that should make room fails, and both go out together. */
  lemma OversizedAfterFailure() returns (events: seq<Event>)
    ensures AllAllowed(Faults(true, false, false), events) && |events| == 2
    ensures var posts := After(events).posts;
      |posts| == 2 && |posts[1].items| == 2 && TotalBytes(posts[1].items) > MAX_UPLOAD_BYTES
  {
    var m := Meta(seq(4 * 1024 * 1024, _ => 0), []);
    var e1, e2 := Received(m, true, true), Received(m, false, true);
    events := [e1, e2];
    assert [] + [e1] == [e1] && [e1] + [e2] == events;
    AfterThen([], e1);
    AfterThen([e1], e2);
    TotalOfTwo(m);
    var s1 := After([e1]);
    assert s1 == State([m], MetaBytes(m), [], [], false);
    var room := MakeRoom(s1, m, false);
    assert room == State([m], MetaBytes(m), [Post([m], false, true)], [], true);
    assert Appended(room, m).batch == [m, m];
  }

  lemma TotalOfTwo(m: Meta)
    ensures TotalBytes([m]) == MetaBytes(m) && TotalBytes([m, m]) == 2 * MetaBytes(m)
  {
    assert [m][..0] == [] && [m, m][..1] == [m];
  }

  ghost function Tiny(n: nat): seq<Event> { seq(n, _ => Received(Meta([], []), true, false)) }

  lemma {:induction false} TinyRun(n: nat)
    requires n < MAX_ITEMS
    ensures var s := After(Tiny(n)); |s.batch| == n && s.batchBytes == 256 * n && s.posts == [] && !s.failing
  {
    if n > 0 {
      TinyRun(n - 1);
      assert Tiny(n) == Tiny(n - 1) + [Received(Meta([], []), true, false)];
      AfterThen(Tiny(n - 1), Received(Meta([], []), true, false));
    }
  }

  /** 101 small items: the POST of the first 100 fails, and the next arrival sends 101. */
  lemma OvercountAfterFailure() returns (events: seq<Event>)
    ensures AllAllowed(Faults(false, true, false), events) && |events| == MAX_ITEMS + 1
    ensures var posts := After(events).posts; |posts| == 2 && |posts[1].items| == MAX_ITEMS + 1
  {
    var e := Received(Meta([], []), true, false);
    TinyRun(MAX_ITEMS - 1);
    var full := Tiny(MAX_ITEMS - 1) + [e];
    AfterThen(Tiny(MAX_ITEMS - 1), e);
    RunInv(Tiny(MAX_ITEMS - 1));
    AppendFine(After(Tiny(MAX_ITEMS - 1)), e.meta, true);
    FailedFlush(Appended(After(Tiny(MAX_ITEMS - 1)), e.meta));
    events := full + [e];
    AfterThen(full, e);
  }

  lemma FailedFlush(s: State)
    requires 0 < |s.batch| <= MAX_KEPT && s.batchBytes == TotalBytes(s.batch)
    ensures Flushed(s, false) == s.(posts := s.posts + [Post(s.batch, false, !s.failing)], failing := true)
  {
  }

  /** The limits are kept over every run exactly when the POSTs that arrivals trigger do not fail;
      failing ticks do no harm. */
  lemma LimitsKeptExactlyWhen(f: Faults)
    ensures LimitsKept(f) <==> !f.first && !f.second
  {
    if f.first {
      var events := OversizedAfterFailure();
      assert !WithinLimits(After(events).posts[1].items);
      assert AllAllowed(f, events) by { AllowMore(Faults(true, false, false), f, events); }
    } else if f.second {
      var events := OvercountAfterFailure();
      assert !WithinLimits(After(events).posts[1].items);
      assert AllAllowed(f, events) by { AllowMore(Faults(false, true, false), f, events); }
    } else {
      forall events | AllAllowed(f, events) ensures KeepsLimits(After(events).posts) { TicksMayFail(f, events); }
    }
  }

  lemma AllowMore(f: Faults, g: Faults, events: seq<Event>)
    requires AllAllowed(f, events) && (f.first ==> g.first) && (f.second ==> g.second) && (f.tick ==> g.tick)
    ensures AllAllowed(g, events)
  {
    forall i | 0 <= i < |events| ensures Allowed(g, events[i]) { assert Allowed(f, events[i]); }
  }
}

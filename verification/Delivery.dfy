/** Store-and-forward as a protocol: the flush loop (send, save, prune) and the drain loop (list,
    read, resend, remove) interleave at every file and network operation. */
module Delivery {
  import opened Text
  import opened Stamps
  import opened DiskBuffer

  /** Where the flush loop stands. clean records that no removal of this save has failed. */
  datatype Flusher = Ready | Unsent(batch: Batch) | Written | Pruning(victims: seq<Stamp>, clean: bool)

  /** Where the drain loop stands; todo starts with the file being handled. */
  datatype Drainer =
    | Idle
    | At(todo: seq<Stamp>)
    | Holding(body: Batch, todo: seq<Stamp>)
    | Sent(todo: seq<Stamp>)
    | Unreadable(todo: seq<Stamp>)

  datatype Resent = Resent(stamp: Stamp, body: Batch)

  /** disk is the directory, by stamp; the rest of the record from saved on is history. order lists
      the stamps in the order of saving, which is their numeric order only if the clock is never
      set back. */
  datatype State = State(
    max: nat, disk: map<Stamp, Batch>, flush: Flusher, drain: Drainer,
    saved: map<Stamp, Batch>, order: seq<Stamp>, delivered: seq<Resent>, pruned: set<Stamp>, discarded: set<Stamp>,
    unlinkFailed: bool)

  datatype Event =
    | SendDirect(batch: Batch)
    | SendFails(batch: Batch)
    | WriteFails
    | Write(stamp: Stamp)
    | ListFails
    | List(listing: seq<Stamp>)
    | PruneOne(ok: bool)
    | SaveDone
    | Tick(files: seq<Stamp>)
    | ReadOk
    | ReadFails
    | ResendOk
    | ResendFails
    | Unlink(ok: bool)
    | PassDone

  function Victims(listing: seq<Stamp>, max: nat): seq<Stamp> {
    if |listing| <= max then [] else listing[..|listing| - max]
  }

  /** When an operation can happen. A file that was pruned under the drain loop reads as failed. */
  ghost predicate Enabled(s: State, e: Event) {
    match e
    case SendDirect(_) => s.flush.Ready?
    case SendFails(_) => s.flush.Ready?
    case WriteFails => s.flush.Unsent?
    case Write(stamp) => s.flush.Unsent? && stamp !in s.saved
    case ListFails => s.flush.Written?
    case List(listing) => s.flush.Written? && Lists(listing, s.disk.Keys)
    case PruneOne(_) => s.flush.Pruning? && s.flush.victims != []
    case SaveDone => s.flush.Pruning? && s.flush.victims == []
    case Tick(files) => s.drain.Idle? && Lists(files, s.disk.Keys)
    case ReadOk => s.drain.At? && s.drain.todo != [] && s.drain.todo[0] in s.disk
    case ReadFails => s.drain.At? && s.drain.todo != []
    case ResendOk => s.drain.Holding? && s.drain.todo != []
    case ResendFails => s.drain.Holding?
    case Unlink(_) => (s.drain.Sent? || s.drain.Unreadable?) && s.drain.todo != []
    case PassDone => s.drain.At? && s.drain.todo == []
  }

  ghost function Apply(s: State, e: Event): State
    requires Enabled(s, e)
  {
    match e
    case SendDirect(_) => s
    case SendFails(b) => s.(flush := Unsent(b))
    case WriteFails => s.(flush := Ready)
    case Write(stamp) =>
      s.(flush := Written, disk := s.disk[stamp := s.flush.batch],
         saved := s.saved[stamp := s.flush.batch], order := s.order + [stamp])
    case ListFails => s.(flush := Ready)
    case List(listing) => s.(flush := Pruning(Victims(listing, s.max), true))
    case PruneOne(ok) =>
      var v := s.flush.victims[0];
      if ok then
        s.(flush := Pruning(s.flush.victims[1..], s.flush.clean), disk := s.disk - {v},
           pruned := if v in s.disk then s.pruned + {v} else s.pruned)
      else s.(flush := Pruning(s.flush.victims[1..], false))
    case SaveDone => s.(flush := Ready)
    case Tick(files) => s.(drain := At(files))
    case ReadOk => s.(drain := Holding(s.disk[s.drain.todo[0]], s.drain.todo))
    case ReadFails => s.(drain := Unreadable(s.drain.todo))
    case ResendOk => s.(drain := Sent(s.drain.todo), delivered := s.delivered + [Resent(s.drain.todo[0], s.drain.body)])
    case ResendFails => s.(drain := Idle)
    case Unlink(ok) =>
      var f := s.drain.todo[0];
      if ok then
        s.(drain := At(s.drain.todo[1..]), disk := s.disk - {f},
           discarded := if s.drain.Unreadable? && f in s.disk then s.discarded + {f} else s.discarded)
      else s.(drain := At(s.drain.todo[1..]), unlinkFailed := true)
    case PassDone => s.(drain := Idle)
  }

  ghost predicate Reaches(s: State, events: seq<Event>, s': State)
    decreases |events|
  {
    if events == [] then s' == s
    else Enabled(s, events[0]) && Reaches(Apply(s, events[0]), events[1..], s')
  }

  ghost predicate Distinct(order: seq<Stamp>) {
    forall i, j :: 0 <= i < j < |order| ==> order[i] != order[j]
  }

  /** A start over whatever earlier runs left on disk, saved in any order. */
  ghost predicate Init(s: State) {
    && s.flush == Ready && s.drain == Idle && s.saved == s.disk
    && s.delivered == [] && s.pruned == {} && s.discarded == {} && !s.unlinkFailed
    && Distinct(s.order) && Range(s.order) == s.disk.Keys
  }

  // ---------------------------------------------------------------- nothing is lost silently

  ghost predicate WasDelivered(s: State, k: Stamp) {
    exists i :: 0 <= i < |s.delivered| && s.delivered[i].stamp == k
  }

  ghost predicate Accounted(s: State, k: Stamp) {
    k in s.disk || WasDelivered(s, k) || k in s.pruned || k in s.discarded
  }

  /** order lists the saved stamps, each once. */
  ghost predicate Recorded(s: State) { Distinct(s.order) && Range(s.order) == s.saved.Keys }

  lemma StepRecorded(s: State, e: Event)
    requires Enabled(s, e) && Recorded(s)
    ensures Recorded(Apply(s, e))
  {
    if e.Write? {
      forall i | 0 <= i < |s.order| ensures s.order[i] != e.stamp { assert s.order[i] in Range(s.order); }
      assert Range(s.order + [e.stamp]) == Range(s.order) + {e.stamp};
    }
  }

  ghost predicate Contents(s: State) {
    && (forall k :: k in s.disk ==> k in s.saved && s.disk[k] == s.saved[k])
    && Recorded(s)
    && (forall i :: 0 <= i < |s.delivered| ==>
         s.delivered[i].stamp in s.saved && s.delivered[i].body == s.saved[s.delivered[i].stamp])
    && (s.drain.Holding? ==> s.drain.todo != [] && s.drain.todo[0] in s.saved && s.drain.body == s.saved[s.drain.todo[0]])
    && (s.drain.Sent? ==> s.drain.todo != [] && WasDelivered(s, s.drain.todo[0]))
  }

  ghost predicate Conserved(s: State) {
    forall k :: k in s.saved ==> Accounted(s, k)
  }

  lemma DeliveredStays(s: State, s': State, k: Stamp)
    requires s.delivered <= s'.delivered && WasDelivered(s, k)
    ensures WasDelivered(s', k)
  {
    var i :| 0 <= i < |s.delivered| && s.delivered[i].stamp == k;
    assert s'.delivered[i] == s.delivered[i];
  }

  lemma StepContents(s: State, e: Event)
    requires Enabled(s, e) && Contents(s)
    ensures Contents(Apply(s, e))
  {
    var s' := Apply(s, e);
    StepRecorded(s, e);
    match e {
      case ResendOk => assert s'.delivered[|s.delivered|].stamp == s.drain.todo[0];
      case _ => if s.drain.Sent? { DeliveredStays(s, s', s.drain.todo[0]); }
    }
  }

  lemma StepConserved(s: State, e: Event)
    requires Enabled(s, e) && Contents(s) && Conserved(s)
    ensures Conserved(Apply(s, e))
  {
    var s' := Apply(s, e);
    forall k | k in s'.saved ensures Accounted(s', k) {
      if k in s.saved {
        assert Accounted(s, k);
        if WasDelivered(s, k) { DeliveredStays(s, s', k); }
        if e.Unlink? && s.drain.Sent? { DeliveredStays(s, s', s.drain.todo[0]); }
      }
    }
  }

  // ---------------------------------------------------------------- only the oldest are pruned

  /** At least max batches were saved under later stamps than k. */
  ghost predicate Outnumbered(s: State, k: Stamp) {
    |NewerThan(s.saved.Keys, k)| >= s.max
  }

  ghost predicate PrunesOldest(s: State) {
    && (forall k :: k in s.pruned ==> Outnumbered(s, k))
    && (s.flush.Pruning? ==> forall i :: 0 <= i < |s.flush.victims| ==> Outnumbered(s, s.flush.victims[i]))
  }

  lemma OutnumberedStays(s: State, s': State, k: Stamp)
    requires s.max == s'.max && s.saved.Keys <= s'.saved.Keys && Outnumbered(s, k)
    ensures Outnumbered(s', k)
  {
    SubsetSize(NewerThan(s.saved.Keys, k), NewerThan(s'.saved.Keys, k));
  }

  lemma VictimsOutnumbered(s: State, listing: seq<Stamp>)
    requires Contents(s) && Lists(listing, s.disk.Keys)
    ensures var v := Victims(listing, s.max); forall i :: 0 <= i < |v| ==> Outnumbered(s, v[i])
  {
    var v := Victims(listing, s.max);
    forall i | 0 <= i < |v| ensures Outnumbered(s, v[i]) {
      var n := |v|;
      SplitRange(listing, s.disk.Keys, n);
      var newest := Range(listing[n..]);
      forall y | y in newest ensures y in NewerThan(s.saved.Keys, v[i]) { OlderFirst(listing, n, v[i], y); }
      SubsetSize(newest, NewerThan(s.saved.Keys, v[i]));
    }
  }

  lemma StepPrunesOldest(s: State, e: Event)
    requires Enabled(s, e) && Contents(s) && PrunesOldest(s)
    ensures PrunesOldest(Apply(s, e))
  {
    var s' := Apply(s, e);
    forall k | Outnumbered(s, k) ensures Outnumbered(s', k) { OutnumberedStays(s, s', k); }
    if e.List? { VictimsOutnumbered(s, e.listing); }
  }

  // ---------------------------------------------------------------- a save leaves at most max files

  ghost predicate Bounded(s: State) {
    s.flush.Pruning? && s.flush.clean ==>
      Increasing(s.flush.victims) && |s.disk.Keys - Range(s.flush.victims)| <= s.max
  }

  lemma VictimsIncreasing(listing: seq<Stamp>, max: nat)
    requires Increasing(listing)
    ensures Increasing(Victims(listing, max))
  {
  }

  lemma ListingBounded(disk: set<Stamp>, listing: seq<Stamp>, max: nat)
    requires Lists(listing, disk)
    ensures |disk - Range(Victims(listing, max))| <= max
  {
    var n := if |listing| > max then |listing| - max else 0;
    assert Victims(listing, max) == listing[..n];
    SplitRange(listing, disk, n);
  }

  lemma StepBounded(s: State, e: Event)
    requires Enabled(s, e) && Bounded(s)
    ensures Bounded(Apply(s, e))
  {
    match e {
      case List(listing) =>
        VictimsIncreasing(listing, s.max);
        ListingBounded(s.disk.Keys, listing, s.max);
      case PruneOne(_) =>
        if s.flush.clean { DropVictim(s.disk.Keys, s.flush.victims); }
      case Unlink(_) =>
        if s.flush.Pruning? { DropFile(s.disk.Keys, Range(s.flush.victims), s.drain.todo[0]); }
      case _ =>
    }
  }

  lemma DropVictim(disk: set<Stamp>, v: seq<Stamp>)
    requires v != [] && Increasing(v)
    ensures Increasing(v[1..]) && (disk - {v[0]}) - Range(v[1..]) == disk - Range(v)
  {
    assert Range(v) == {v[0]} + Range(v[1..]);
  }

  lemma DropFile(disk: set<Stamp>, v: set<Stamp>, f: Stamp)
    ensures |(disk - {f}) - v| <= |disk - v|
  {
    SubsetSize((disk - {f}) - v, disk - v);
  }

  // ---------------------------------------------------------------- batches leave in save order

  ghost predicate DeliveryIncreasing(d: seq<Resent>) {
    forall i, j :: 0 <= i < j < |d| ==> d[i].stamp < d[j].stamp
  }

  ghost function Last(d: seq<Resent>): int { if d == [] then -1 else d[|d| - 1].stamp }

  /** The files this pass may still resend. */
  ghost function Remaining(d: Drainer): seq<Stamp> {
    if d.Idle? then [] else if d.Sent? && d.todo != [] then d.todo[1..] else d.todo
  }

  /** What the drain loop still has to do, relative to what it has delivered: its own files are
      later than everything delivered, in order, and on disk they come before any newer file. */
  ghost predicate InOrder(s: State) {
    && DeliveryIncreasing(s.delivered)
    && (s.drain.Sent? ==> s.drain.todo != [] && s.drain.todo[0] == Last(s.delivered))
    && (forall k :: k in s.disk ==> k > Last(s.delivered) || (s.drain.Sent? && k == Last(s.delivered)))
    && var todo := Remaining(s.drain);
       && Increasing(todo)
       && (forall i :: 0 <= i < |todo| ==> Last(s.delivered) < todo[i] && todo[i] in s.saved)
       && (forall k, i :: k in s.disk && 0 <= i < |todo| ==>
            k in todo || k > todo[i] || (s.drain.Sent? && k == Last(s.delivered)))
  }

  lemma ResendInOrder(s: State)
    requires Enabled(s, ResendOk) && InOrder(s)
    ensures InOrder(Apply(s, ResendOk))
  {
    var todo := s.drain.todo;
    var s' := Apply(s, ResendOk);
    assert Remaining(s'.drain) == todo[1..];
    forall k | k in s.disk ensures k >= todo[0] {
      if k in todo { var i :| 0 <= i < |todo| && todo[i] == k; }
    }
    forall k, i | k in s.disk && 0 <= i < |todo[1..]| && k != todo[0] ensures k in todo[1..] || k > todo[1..][i] {
      assert k in todo || k > todo[i + 1];
    }
  }

  lemma UnlinkInOrder(s: State)
    requires Enabled(s, Unlink(true)) && InOrder(s)
    ensures InOrder(Apply(s, Unlink(true)))
  {
    var todo := s.drain.todo;
    var s' := Apply(s, Unlink(true));
    assert Remaining(s'.drain) == todo[1..];
    forall k, i | k in s'.disk && 0 <= i < |todo[1..]| ensures k in todo[1..] || k > todo[1..][i] {
      if s.drain.Unreadable? { assert k in todo || k > todo[i + 1]; }
    }
  }

  lemma TickInOrder(s: State, files: seq<Stamp>)
    requires Enabled(s, Tick(files)) && Contents(s) && InOrder(s)
    ensures InOrder(Apply(s, Tick(files)))
  {
    forall i | 0 <= i < |files| ensures files[i] in s.disk { assert files[i] in Range(files); }
    forall k | k in s.disk ensures k in files { assert k in Range(files); }
  }

  lemma WriteInOrder(s: State, stamp: Stamp)
    requires Enabled(s, Write(stamp)) && Contents(s) && InOrder(s) && Increasing(s.order + [stamp])
    ensures InOrder(Apply(s, Write(stamp)))
  {
    forall k | k in s.saved ensures k < stamp {
      assert k in Range(s.order);
      var i :| 0 <= i < |s.order| && s.order[i] == k;
      assert (s.order + [stamp])[i] == k && (s.order + [stamp])[|s.order|] == stamp;
    }
    if s.delivered != [] { assert s.delivered[|s.delivered| - 1].stamp in s.saved; }
  }

  /** The clock was never set back and the drain loop's removals succeeded. */
  ghost predicate Faultless(s: State) { !s.unlinkFailed && Increasing(s.order) }

  lemma OrderGrows(s: State, e: Event)
    requires Enabled(s, e)
    ensures s.order <= Apply(s, e).order
    ensures Increasing(Apply(s, e).order) ==> Increasing(s.order)
  {
    var order' := Apply(s, e).order;
    assert forall i :: 0 <= i < |s.order| ==> order'[i] == s.order[i];
  }

  lemma StepInOrder(s: State, e: Event)
    requires Enabled(s, e) && Contents(s)
    requires Faultless(s) ==> InOrder(s)
    ensures Faultless(Apply(s, e)) ==> InOrder(Apply(s, e))
  {
    if Faultless(Apply(s, e)) {
      OrderGrows(s, e);
      match e {
        case ResendOk => ResendInOrder(s);
        case Unlink(_) => UnlinkInOrder(s);
        case Tick(files) => TickInOrder(s, files);
        case Write(stamp) => WriteInOrder(s, stamp);
        case _ =>
      }
    }
  }

  // ---------------------------------------------------------------- every run

  ghost predicate Inv(s: State) {
    Contents(s) && Conserved(s) && PrunesOldest(s) && Bounded(s) && (Faultless(s) ==> InOrder(s))
  }

  lemma StepInv(s: State, e: Event)
    requires Enabled(s, e) && Inv(s)
    ensures Inv(Apply(s, e))
  {
    StepContents(s, e);
    StepConserved(s, e);
    StepPrunesOldest(s, e);
    StepBounded(s, e);
    StepInOrder(s, e);
  }

  lemma {:induction false} RunInv(s: State, events: seq<Event>, s': State)
    requires Inv(s) && Reaches(s, events, s')
    ensures Inv(s')
    decreases |events|
  {
    if events != [] {
      StepInv(s, events[0]);
      RunInv(Apply(s, events[0]), events[1..], s');
    }
  }

  lemma InitInv(s: State)
    requires Init(s)
    ensures Inv(s)
  {
  }

  /** Store and forward over every interleaving with failing sends, writes, listings and
      removals. Every batch written to the buffer is still on disk with its content, was
      delivered, was discarded as unreadable, or was pruned with at least max batches saved under
      later stamps, however the clock moves;
      whatever the drain loop delivered carries the bytes that were saved. */
  lemma NothingLost(s0: State, events: seq<Event>, s: State)
    requires Init(s0) && Reaches(s0, events, s)
    ensures forall k :: k in s.saved ==>
      (k in s.disk && s.disk[k] == s.saved[k]) || WasDelivered(s, k) || k in s.discarded
      || (k in s.pruned && |NewerThan(s.saved.Keys, k)| >= s0.max)
    ensures forall i :: 0 <= i < |s.delivered| ==>
      s.delivered[i].stamp in s.saved && s.delivered[i].body == s.saved[s.delivered[i].stamp]
  {
    InitInv(s0);
    RunInv(s0, events, s);
    MaxStays(s0, events, s);
  }

  // ---------------------------------------------------------------- what becomes of a failed send

  /** The batches whose send failed, read off the run. */
  ghost function FailedSends(events: seq<Event>): seq<Batch> {
    if events == [] then []
    else (if events[0].SendFails? then [events[0].batch] else []) + FailedSends(events[1..])
  }

  /** How the saves ended, read off the run: the stamp a batch was written under, or no write. */
  ghost function Saves(events: seq<Event>): seq<Option<Stamp>> {
    if events == [] then []
    else
      (if events[0].Write? then [Some(events[0].stamp)] else if events[0].WriteFails? then [None] else [])
      + Saves(events[1..])
  }

  /** The stamps among them. */
  ghost function Stamped(saves: seq<Option<Stamp>>): seq<Stamp> {
    if saves == [] then [] else (if saves[0].Some? then [saves[0].value] else []) + Stamped(saves[1..])
  }

  /** The batch the flush loop holds and has not yet tried to save. */
  ghost function InHand(s: State): seq<Batch> { if s.flush.Unsent? then [s.flush.batch] else [] }

  lemma SavedStays(s: State, e: Event, k: Stamp)
    requires Enabled(s, e) && k in s.saved
    ensures k in Apply(s, e).saved && Apply(s, e).saved[k] == s.saved[k]
  {
  }

  lemma {:induction false} SavedForGood(s: State, events: seq<Event>, s': State, k: Stamp)
    requires Reaches(s, events, s') && k in s.saved
    ensures k in s'.saved && s'.saved[k] == s.saved[k]
    decreases |events|
  {
    if events != [] {
      SavedStays(s, events[0], k);
      SavedForGood(Apply(s, events[0]), events[1..], s', k);
    }
  }

  /** Failed sends, in order, are the batches that were written, each under its stamp, those whose
      write failed, and the one in hand. */
  ghost predicate Matches(batches: seq<Batch>, saves: seq<Option<Stamp>>, s: State) {
    && |saves| <= |batches| && batches[|saves|..] == InHand(s)
    && forall i :: 0 <= i < |saves| && saves[i].Some? ==> saves[i].value in s.saved && s.saved[saves[i].value] == batches[i]
  }

  /** What one step does to the batch in hand and to the order of saving. */
  lemma HandStep(s: State, e: Event)
    requires Enabled(s, e)
    ensures var t := Apply(s, e);
      && (e.SendFails? ==> InHand(s) == [] && InHand(t) == [e.batch])
      && (e.Write? || e.WriteFails? ==> s.flush.Unsent? && InHand(t) == [])
      && (!e.SendFails? && !e.Write? && !e.WriteFails? ==> InHand(t) == InHand(s))
      && t.order == s.order + (if e.Write? then [e.stamp] else [])
      && (e.Write? ==> e.stamp in t.saved && t.saved[e.stamp] == s.flush.batch)
  {
  }

  lemma {:induction false} SendsMatchSaves(s: State, events: seq<Event>, s': State)
    requires Reaches(s, events, s')
    ensures Matches(InHand(s) + FailedSends(events), Saves(events), s')
    decreases |events|
  {
    if events != [] {
      var e, t := events[0], Apply(s, events[0]);
      SendsMatchSaves(t, events[1..], s');
      HandStep(s, e);
      var later, rest := FailedSends(events[1..]), Saves(events[1..]);
      if e.Write? {
        SavedForGood(t, events[1..], s', e.stamp);
        MatchesCons(s.flush.batch, InHand(t) + later, Some(e.stamp), rest, s');
        assert [] + later == later;
      } else if e.WriteFails? {
        MatchesCons(s.flush.batch, InHand(t) + later, None, rest, s');
        assert [] + later == later;
      } else if e.SendFails? {
        assert [] + ([e.batch] + later) == [e.batch] + later && [] + rest == rest;
      } else {
        assert [] + later == later && [] + rest == rest;
      }
    } else {
      assert InHand(s) + [] == InHand(s);
    }
  }

  lemma {:induction false} OrderIsSaves(s: State, events: seq<Event>, s': State)
    requires Reaches(s, events, s')
    ensures s'.order == s.order + Stamped(Saves(events))
    decreases |events|
  {
    if events != [] {
      var e := events[0];
      HandStep(s, e);
      OrderIsSaves(Apply(s, e), events[1..], s');
      var rest := Saves(events[1..]);
      if e.Write? {
        assert ([Some(e.stamp)] + rest)[1..] == rest;
      } else if e.WriteFails? {
        assert ([None] + rest)[1..] == rest;
      } else {
        assert [] + rest == rest;
      }
    }
  }

  lemma MatchesCons(b: Batch, batches: seq<Batch>, save: Option<Stamp>, saves: seq<Option<Stamp>>, s: State)
    requires Matches(batches, saves, s) && (save.Some? ==> save.value in s.saved && s.saved[save.value] == b)
    ensures Matches([b] + batches, [save] + saves, s)
  {
    var all, outcomes := [b] + batches, [save] + saves;
    assert all[|outcomes|..] == batches[|saves|..];
    forall i | 0 <= i < |outcomes| && outcomes[i].Some?
      ensures outcomes[i].value in s.saved && s.saved[outcomes[i].value] == all[i]
    {
      if i > 0 { assert outcomes[i] == saves[i - 1] && all[i] == batches[i - 1]; }
    }
  }

  /** k's batch is on disk, was resent, both with this body, was discarded or pruned. */
  ghost predicate Kept(s: State, k: Stamp, body: Batch) {
    || (k in s.disk && s.disk[k] == body)
    || (exists i :: 0 <= i < |s.delivered| && s.delivered[i] == Resent(k, body))
    || k in s.discarded || k in s.pruned
  }

  /** Over every run: the i-th batch whose send failed is still in hand, or its write failed, which is
      reported, or it was saved under a stamp and from then on is on disk or was resent with its own
      content, discarded as unreadable or pruned. The stamps were saved in that order. */
  lemma FailedSendsAreKept(s0: State, events: seq<Event>, s: State)
    requires Init(s0) && Reaches(s0, events, s)
    ensures var sends, saves := FailedSends(events), Saves(events);
      && |saves| <= |sends| && sends[|saves|..] == InHand(s)
      && s.order == s0.order + Stamped(saves)
      && forall i :: 0 <= i < |saves| && saves[i].Some? ==> Kept(s, saves[i].value, sends[i])
  {
    var sends, saves := FailedSends(events), Saves(events);
    SendsMatchSaves(s0, events, s);
    OrderIsSaves(s0, events, s);
    assert InHand(s0) + sends == sends;
    NothingLost(s0, events, s);
    forall i | 0 <= i < |saves| && saves[i].Some? ensures Kept(s, saves[i].value, sends[i]) {
      var k := saves[i].value;
      if WasDelivered(s, k) {
        var j :| 0 <= j < |s.delivered| && s.delivered[j].stamp == k;
        assert s.delivered[j] == Resent(k, sends[i]);
      }
    }
  }

  // ---------------------------------------------------------------- what a pass achieves

  /** Nothing goes wrong in the drain loop, and it stays within one pass. */
  ghost predicate GoodPass(events: seq<Event>) {
    forall i :: 0 <= i < |events| ==>
      !events[i].ResendFails? && !events[i].Tick? && !events[i].PassDone? && events[i] != Unlink(false)
  }

  /** A pass in which every send and removal succeeds leaves none of the files it went through on
      disk, whatever is saved meanwhile. */
  lemma {:induction false} PassClears(s: State, events: seq<Event>, s': State)
    requires !s.drain.Idle? && Reaches(s, events, s') && GoodPass(events)
    requires forall k :: k in s.drain.todo ==> k in s.saved
    ensures !s'.drain.Idle? && forall k :: k in s.drain.todo ==> k in s'.drain.todo || k !in s'.disk
    decreases |events|
  {
    if events != [] {
      var e, t := events[0], Apply(s, events[0]);
      forall i | 0 <= i < |events[1..]| ensures events[1..][i] == events[i + 1] {}
      PassClears(t, events[1..], s');
      forall k | k in s.drain.todo && k !in t.drain.todo ensures k !in s'.disk {
        StaysGone(t, events[1..], s', k);
      }
    }
  }

  lemma {:induction false} StaysGone(s: State, events: seq<Event>, s': State, k: Stamp)
    requires Reaches(s, events, s') && k in s.saved && k !in s.disk
    ensures k !in s'.disk
    decreases |events|
  {
    if events != [] { StaysGone(Apply(s, events[0]), events[1..], s', k); }
  }

  // ---------------------------------------------------------------- order

  /** a was saved before b. */
  ghost predicate SavedBefore(order: seq<Stamp>, a: Stamp, b: Stamp) {
    exists i, j :: 0 <= i < j < |order| && order[i] == a && order[j] == b
  }

  /** Resent batches leave in the order of saving, none twice. */
  ghost predicate InSaveOrder(s: State) {
    forall i, j :: 0 <= i < j < |s.delivered| ==> SavedBefore(s.order, s.delivered[i].stamp, s.delivered[j].stamp)
  }

  lemma LaterStampSavedLater(order: seq<Stamp>, a: Stamp, b: Stamp)
    requires Increasing(order) && a in Range(order) && b in Range(order) && a < b
    ensures SavedBefore(order, a, b)
  {
    var i :| 0 <= i < |order| && order[i] == a;
    var j :| 0 <= j < |order| && order[j] == b;
    assert i < j;
  }

  /** While the drain loop's removals succeed and the clock is not set back, it delivers in save
      order and nothing twice. */
  lemma DeliveredInSaveOrder(s0: State, events: seq<Event>, s: State)
    requires Init(s0) && Reaches(s0, events, s) && !s.unlinkFailed && Increasing(s.order)
    ensures InSaveOrder(s)
  {
    InitInv(s0);
    RunInv(s0, events, s);
    forall i, j | 0 <= i < j < |s.delivered| ensures SavedBefore(s.order, s.delivered[i].stamp, s.delivered[j].stamp) {
      LaterStampSavedLater(s.order, s.delivered[i].stamp, s.delivered[j].stamp);
    }
  }

  lemma ReachesCons(s: State, e: Event, rest: seq<Event>, s': State)
    requires Enabled(s, e) && Reaches(Apply(s, e), rest, s')
    ensures Reaches(s, [e] + rest, s')
  {
    assert ([e] + rest)[1..] == rest;
  }

  /** A file at the head of a pass, read, resent and removed, or not. */
  ghost function AfterSent(s: State, k: Stamp, todo: seq<Stamp>, removed: bool): State
    requires k in s.disk
  {
    s.(drain := At(todo), delivered := s.delivered + [Resent(k, s.disk[k])],
       disk := if removed then s.disk - {k} else s.disk, unlinkFailed := s.unlinkFailed || !removed)
  }

  lemma SentThen(s: State, k: Stamp, todo: seq<Stamp>, removed: bool, rest: seq<Event>, s': State)
    requires s.drain == At([k] + todo) && k in s.disk && Reaches(AfterSent(s, k, todo, removed), rest, s')
    ensures Reaches(s, [ReadOk] + ([ResendOk] + ([Unlink(removed)] + rest)), s')
  {
    assert ([k] + todo)[1..] == todo;
    var s1 := Apply(s, ReadOk);
    var s2 := Apply(s1, ResendOk);
    assert Apply(s2, Unlink(removed)) == AfterSent(s, k, todo, removed);
    ReachesCons(s2, Unlink(removed), rest, s');
    ReachesCons(s1, ResendOk, [Unlink(removed)] + rest, s');
    ReachesCons(s, ReadOk, [ResendOk] + ([Unlink(removed)] + rest), s');
  }

  /** One pass over a single file: sent, and then not removed. */
  lemma SentAndKept(s: State, k: Stamp, rest: seq<Event>, s': State)
    requires s.drain.Idle? && s.disk.Keys == {k}
    requires Reaches(s.(delivered := s.delivered + [Resent(k, s.disk[k])], unlinkFailed := true), rest, s')
    ensures Reaches(s, [Tick([k])] + ([ReadOk] + ([ResendOk] + ([Unlink(false)] + ([PassDone] + rest)))), s')
  {
    assert Lists([k], {k}) && [k] + [] == [k];
    var s1 := s.(drain := At([k]));
    ReachesCons(AfterSent(s1, k, [], false), PassDone, rest, s');
    SentThen(s1, k, [], false, [PassDone] + rest, s');
    ReachesCons(s, Tick([k]), [ReadOk] + ([ResendOk] + ([Unlink(false)] + ([PassDone] + rest))), s');
  }

  /** A batch whose removal fails after the resend is delivered again by the next pass. */
  lemma FailedRemovalRepeats(max: nat, k: Stamp, body: Batch) returns (s0: State, events: seq<Event>, s: State)
    ensures Init(s0) && Reaches(s0, events, s) && Increasing(s.order)
    ensures s.delivered == [Resent(k, body), Resent(k, body)] && !InSaveOrder(s)
  {
    var disk := map[k := body];
    s0 := State(max, disk, Ready, Idle, disk, [k], [], {}, {}, false);
    var once := s0.(delivered := [Resent(k, body)], unlinkFailed := true);
    s := once.(delivered := [Resent(k, body), Resent(k, body)]);
    assert once.(delivered := once.delivered + [Resent(k, once.disk[k])], unlinkFailed := true) == s;
    var pass := [Tick([k])] + ([ReadOk] + ([ResendOk] + ([Unlink(false)] + ([PassDone] + []))));
    SentAndKept(once, k, [], s);
    assert s0.(delivered := s0.delivered + [Resent(k, s0.disk[k])], unlinkFailed := true) == once;
    SentAndKept(s0, k, pass, s);
    events := [Tick([k])] + ([ReadOk] + ([ResendOk] + ([Unlink(false)] + ([PassDone] + pass))));
    assert !SavedBefore(s.order, s.delivered[0].stamp, s.delivered[1].stamp);
  }

  /** Of two batches saved around a clock that was set back, the later one leaves first, with every
      removal succeeding. */
  lemma ClockSetBackReorders(max: nat, k: Stamp, setBack: Stamp, body: Batch)
    returns (s0: State, events: seq<Event>, s: State)
    requires setBack < k
    ensures Init(s0) && Reaches(s0, events, s) && !s.unlinkFailed
    ensures s.order == [k, setBack] && s.delivered == [Resent(setBack, body), Resent(k, body)] && !InSaveOrder(s)
  {
    var disk := map[k := body, setBack := body];
    s0 := State(max, disk, Ready, Idle, disk, [k, setBack], [], {}, {}, false);
    assert Lists([setBack, k], disk.Keys);
    var s1 := s0.(drain := At([setBack, k]));
    assert [k] + [] == [k] && [setBack] + [k] == [setBack, k];
    var s2 := AfterSent(s1, setBack, [k], true);
    s := AfterSent(s2, k, [], true);
    var last := [ReadOk] + ([ResendOk] + ([Unlink(true)] + []));
    SentThen(s2, k, [], true, [], s);
    SentThen(s1, setBack, [k], true, last, s);
    events := [Tick([setBack, k])] + ([ReadOk] + ([ResendOk] + ([Unlink(true)] + last)));
    ReachesCons(s0, Tick([setBack, k]), [ReadOk] + ([ResendOk] + ([Unlink(true)] + last)), s);
    assert !SavedBefore(s.order, s.delivered[0].stamp, s.delivered[1].stamp);
  }

  /** What may go wrong: the drain loop's removals may fail, the clock may be set back. */
  datatype Faults = Faults(removal: bool, clock: bool)

  ghost predicate OrderKept(f: Faults) {
    forall s0, events, s ::
      Init(s0) && Reaches(s0, events, s) && (s.unlinkFailed ==> f.removal) && (!Increasing(s.order) ==> f.clock) ==> InSaveOrder(s)
  }

  /** Delivery in save order and without repetition depends on both, and on nothing else that can
      fail. */
  lemma OrderKeptExactlyWhen(f: Faults)
    ensures OrderKept(f) <==> !f.removal && !f.clock
  {
    if f.removal {
      var s0, events, s := FailedRemovalRepeats(1, 0, "");
    } else if f.clock {
      var s0, events, s := ClockSetBackReorders(1, 1, 0, "");
    } else {
      forall s0, events, s | Init(s0) && Reaches(s0, events, s) && !s.unlinkFailed && Increasing(s.order)
        ensures InSaveOrder(s)
      {
        DeliveredInSaveOrder(s0, events, s);
      }
    }
  }

  /** A save that ends without a failed removal leaves at most max files, whatever the drain
      loop did meanwhile. */
  lemma SaveLeavesAtMostMax(s0: State, events: seq<Event>, s: State)
    requires Init(s0) && Reaches(s0, events, s) && Enabled(s, SaveDone) && s.flush.clean
    ensures |Apply(s, SaveDone).disk| <= s0.max
  {
    ReachableBounded(s0, events, s);
    DoneBounded(s);
  }

  lemma ReachableBounded(s0: State, events: seq<Event>, s: State)
    requires Init(s0) && Reaches(s0, events, s)
    ensures Bounded(s) && s.max == s0.max
  {
    InitInv(s0);
    RunInv(s0, events, s);
    MaxStays(s0, events, s);
  }

  lemma DoneBounded(s: State)
    requires Bounded(s) && Enabled(s, SaveDone) && s.flush.clean
    ensures |Apply(s, SaveDone).disk| <= s.max
  {
    assert s.disk.Keys - Range([]) == s.disk.Keys;
  }

  lemma {:induction false} MaxStays(s: State, events: seq<Event>, s': State)
    requires Reaches(s, events, s')
    ensures s'.max == s.max
    decreases |events|
  {
    if events != [] { MaxStays(Apply(s, events[0]), events[1..], s'); }
  }
}

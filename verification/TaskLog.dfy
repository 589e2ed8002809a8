/**
 * The crash-safe task log (`tasklog/tasklog.go`), specified as steps on a pair of maps: what is in
 * memory and what is on disk. Saves replace the file atomically and may fail; eviction picks among
 * equally old entries in map order. Steps are therefore relations. A summary is a string of bytes.
 */
module TaskLog {
  import opened Common

  /** Unknown stands for any other text a stored state may have. */
  datatype State = Started | Finished | Interrupted | Unknown

  /** Times are instants in any unit; a zero time is None. The task id is the key of the entry. */
  datatype Entry = Entry(
    state: State, startedAt: int, finishedAt: Option<int>, summary: string, exitCode: int, acked: bool)

  type Entries = map<string, Entry>

  /** What an upload tells the server about a task. */
  datatype Outgoing = Outgoing(summary: string, exitCode: int, finishedAt: int, status: State)

  datatype Limits = Limits(retain: int, capacity: nat)

  const DEFAULT_LIMITS := Limits(24 * 3600, 256)

  predicate IsProtected(entry: Entry) {
    entry.state.Started? || ((entry.state.Finished? || entry.state.Interrupted?) && !entry.acked)
  }

  function Stamp(entry: Entry): int {
    if entry.finishedAt.Some? then entry.finishedAt.value else entry.startedAt
  }

  predicate HasAged(entry: Entry, now: int, retain: int) {
    !IsProtected(entry) && now - Stamp(entry) > retain
  }

  function TruncateSummary(summary: string): string {
    if |summary| <= 256 then summary else summary[..256]
  }

  // ---------------------------------------------------------------- pruning and eviction

  ghost predicate Within(small: Entries, big: Entries) {
    forall id | id in small :: id in big && small[id] == big[id]
  }

  ghost predicate AllProtected(entries: Entries) {
    forall id | id in entries :: IsProtected(entries[id])
  }

  /** The empty id stands for "none" when a victim is looked for, so a droppable entry under it confuses the search. */
  ghost predicate Nameless(entries: Entries) {
    "" in entries && !IsProtected(entries[""])
  }

  /**
   * `after` is `before` cut down to `capacity` entries by dropping oldest droppable ones: only as
   * many as needed, and no entry kept although it could go started before a dropped one.
   */
  ghost predicate Evicted(before: Entries, after: Entries, capacity: int) {
    && Within(after, before)
    && (forall id | id in before && id !in after :: !IsProtected(before[id]))
    && (|after| <= capacity || AllProtected(after) || Nameless(after))
    && (after != before ==> |after| >= capacity)
    && (!Nameless(before) ==>
          forall gone, kept | gone in before && gone !in after && kept in after && !IsProtected(after[kept]) ::
            before[gone].startedAt <= after[kept].startedAt)
  }

  function Unaged(entries: Entries, now: int, retain: int): Entries {
    map id | id in entries && !HasAged(entries[id], now, retain) :: entries[id]
  }

  ghost predicate Pruned(before: Entries, after: Entries, now: int, limits: Limits) {
    Evicted(Unaged(before, now, limits.retain), after, limits.capacity)
  }

  // ---------------------------------------------------------------- steps

  datatype LogState = LogState(mem: Entries, disk: Entries)

  datatype BeginOutcome = Begun | AlreadyStarted | AlreadyFinished | WasInterrupted | LogFull | SaveFailed

  /** The clock is read several times within one call. */
  datatype Times = Times(prune: int, start: int, finish: int, save: int)

  /**
   * What a call did. `pruned`, `room` and `kept` are what its pruning, its eviction and the pruning
   * of its save left; they are the choices that map order makes.
   */
  datatype Event =
    | Begin(id: string, t: Times, saved: bool, outcome: BeginOutcome, pruned: Entries, room: Entries, kept: Entries)
    | Finish(id: string, summary: string, exitCode: int, t: Times, saved: bool, kept: Entries)
    | Ack(id: string, t: Times, saved: bool, kept: Entries)
    | Reopen(t: Times, pruned: Entries, kept: Entries)
    | Upload(id: string, ok: bool, report: Outgoing)

  function Refusal(entry: Entry): BeginOutcome {
    match entry.state
    case Finished => AlreadyFinished
    case Interrupted => WasInterrupted
    case _ => AlreadyStarted
  }

  function NewEntry(now: int): Entry {
    Entry(Started, now, None, "", 0, false)
  }

  function FinishedEntry(entries: Entries, id: string, summary: string, exitCode: int, t: Times): Entry {
    var entry := if id in entries then entries[id] else Entry(Unknown, t.start, None, "", 0, false);
    entry.(state := Finished, finishedAt := Some(t.finish), summary := TruncateSummary(summary), exitCode := exitCode)
  }

  function Interrupt(entry: Entry, now: int): Entry {
    if !entry.state.Started? then entry
    else entry.(state := Interrupted, summary := "execution status unknown", exitCode := -1,
                finishedAt := if entry.finishedAt.Some? then entry.finishedAt else Some(now))
  }

  function InterruptAll(entries: Entries, now: int): Entries {
    map id | id in entries :: Interrupt(entries[id], now)
  }

  /** Starts a task unless its id is known or only protected entries are left. */
  ghost predicate BeginStep(s: LogState, s': LogState, e: Event, limits: Limits)
    requires e.Begin?
  {
    && Pruned(s.mem, e.pruned, e.t.prune, limits)
    && if e.id in e.pruned then
         e.outcome == Refusal(e.pruned[e.id]) && s' == s.(mem := e.pruned)
       else
         && Evicted(e.pruned, e.room, limits.capacity - 1)
         && if |e.room| >= limits.capacity then
              e.outcome == LogFull && s' == s.(mem := e.room)
            else
              && Pruned(e.room[e.id := NewEntry(e.t.start)], e.kept, e.t.save, limits)
              && e.outcome == (if e.saved then Begun else SaveFailed)
              && s' == if e.saved then LogState(e.kept, e.kept) else s.(mem := e.kept - {e.id})
  }

  /** Records a result, also for an unknown id. A failed save takes it back. */
  ghost predicate FinishStep(s: LogState, s': LogState, e: Event, limits: Limits)
    requires e.Finish?
  {
    && Pruned(s.mem[e.id := FinishedEntry(s.mem, e.id, e.summary, e.exitCode, e.t)], e.kept, e.t.save, limits)
    && s' == if e.saved then LogState(e.kept, e.kept)
             else s.(mem := if e.id in s.mem then e.kept[e.id := s.mem[e.id]] else e.kept - {e.id})
  }

  /** Marks an entry as reported. A failed save unmarks it, even if it was marked before. */
  ghost predicate AckStep(s: LogState, s': LogState, e: Event, limits: Limits)
    requires e.Ack?
  {
    if e.id !in s.mem then s' == s
    else
      && Pruned(s.mem[e.id := s.mem[e.id].(acked := true)], e.kept, e.t.save, limits)
      && s' == if e.saved then LogState(e.kept, e.kept)
               else s.(mem := e.kept[e.id := s.mem[e.id].(acked := false)])
  }

  /** Loading the file skips an entry without an id. */
  function Loaded(disk: Entries): Entries {
    disk - {""}
  }

  /**
   * A crash and a successful `Open`. (A failed one leaves the file as it was and yields no log.)
   * A log that needs no change is not written.
   */
  ghost predicate ReopenStep(s: LogState, s': LogState, e: Event, limits: Limits)
    requires e.Reopen?
  {
    var revived := InterruptAll(e.pruned, e.t.prune);
    && Pruned(Loaded(s.disk), e.pruned, e.t.prune, limits)
    && if revived == Loaded(s.disk) then s' == LogState(revived, s.disk)
       else Pruned(revived, e.kept, e.t.save, limits) && s' == LogState(e.kept, e.kept)
  }

  ghost predicate Step(s: LogState, s': LogState, e: Event, limits: Limits) {
    match e
    case Begin(_, _, _, _, _, _, _) => BeginStep(s, s', e, limits)
    case Finish(_, _, _, _, _, _) => FinishStep(s, s', e, limits)
    case Ack(_, _, _, _) => AckStep(s, s', e, limits)
    case Reopen(_, _, _) => ReopenStep(s, s', e, limits)
    case Upload(_, _, _) => s' == s
  }

  // ---------------------------------------------------------------- memory and disk agree

  /** Only the acknowledgement can differ, and then disk is ahead. */
  ghost predicate SameButAcked(mem: Entry, disk: Entry) {
    disk == mem || disk == mem.(acked := true)
  }

  /**
   * What is in memory is on disk. Disk may hold more, but only entries that may be dropped: a failed save leaves
   * pruned and evicted entries there. (An entry without an id stays on disk when the file is loaded.)
   */
  ghost predicate Agree(s: LogState) {
    && (forall id | id in s.mem :: id in s.disk && SameButAcked(s.mem[id], s.disk[id]))
    && (forall id | id in s.disk && id !in s.mem && id != "" :: !IsProtected(s.disk[id]))
  }

  /** Entries leave a map only unprotected. */
  ghost predicate Shrinks(before: Entries, after: Entries) {
    Within(after, before) && forall id | id in before && id !in after :: !IsProtected(before[id])
  }

  lemma PrunedShrinks(before: Entries, after: Entries, now: int, limits: Limits)
    requires Pruned(before, after, now, limits)
    ensures Shrinks(before, after)
  {
  }

  lemma AgreeAfterShrink(s: LogState, mem: Entries)
    requires Agree(s) && Shrinks(s.mem, mem)
    ensures Agree(s.(mem := mem))
  {
  }

  lemma EvictedShrinks(before: Entries, after: Entries, capacity: int)
    requires Evicted(before, after, capacity)
    ensures Shrinks(before, after)
  {
  }

  lemma ShrinkAgain(a: Entries, b: Entries, c: Entries)
    requires Shrinks(a, b) && Shrinks(b, c)
    ensures Shrinks(a, c)
  {
  }

  /** A new entry that is taken back leaves only what the pruning dropped. */
  lemma DropShrinks(before: Entries, room: Entries, id: string, entry: Entry, kept: Entries)
    requires id !in before && Shrinks(before, room) && Shrinks(room[id := entry], kept)
    ensures Shrinks(room, kept - {id})
  {
  }

  /** What the choices of a step say about the entries that may be gone. */
  ghost predicate Choices(s: LogState, e: Event) {
    match e
    case Begin(id, t, _, _, pruned, room, kept) =>
      Shrinks(s.mem, pruned) && (id !in pruned ==> Shrinks(pruned, room))
      && (e.outcome.Begun? || e.outcome.SaveFailed? ==> id !in pruned && Shrinks(room[id := NewEntry(t.start)], kept))
    case Finish(id, summary, exitCode, t, _, kept) =>
      Shrinks(s.mem[id := FinishedEntry(s.mem, id, summary, exitCode, t)], kept)
    case Ack(id, _, _, kept) => id in s.mem ==> Shrinks(s.mem[id := s.mem[id].(acked := true)], kept)
    case Reopen(t, pruned, kept) =>
      && Shrinks(Loaded(s.disk), pruned)
      && (InterruptAll(pruned, t.prune) != Loaded(s.disk) ==> Shrinks(InterruptAll(pruned, t.prune), kept))
    case Upload(_, _, _) => true
  }

  lemma BeginChoices(s: LogState, s': LogState, e: Event, limits: Limits)
    requires e.Begin? && BeginStep(s, s', e, limits)
    ensures Choices(s, e)
  {
    hide Evicted, Pruned, Shrinks;
    PrunedShrinks(s.mem, e.pruned, e.t.prune, limits);
    if e.id !in e.pruned {
      EvictedShrinks(e.pruned, e.room, limits.capacity - 1);
      if |e.room| < limits.capacity {
        PrunedShrinks(e.room[e.id := NewEntry(e.t.start)], e.kept, e.t.save, limits);
      }
    }
  }

  lemma StepChoices(s: LogState, s': LogState, e: Event, limits: Limits)
    requires Step(s, s', e, limits)
    ensures Choices(s, e)
  {
    hide Evicted, Pruned, Shrinks, BeginStep;
    match e {
      case Begin(_, _, _, _, _, _, _) =>
        BeginChoices(s, s', e, limits);
      case Finish(id, summary, exitCode, t, saved, kept) =>
        PrunedShrinks(s.mem[id := FinishedEntry(s.mem, id, summary, exitCode, t)], kept, t.save, limits);
      case Ack(id, t, saved, kept) =>
        if id in s.mem {
          PrunedShrinks(s.mem[id := s.mem[id].(acked := true)], kept, t.save, limits);
        }
      case Reopen(t, pruned, kept) =>
        PrunedShrinks(Loaded(s.disk), pruned, t.prune, limits);
        if InterruptAll(pruned, t.prune) != Loaded(s.disk) {
          PrunedShrinks(InterruptAll(pruned, t.prune), kept, t.save, limits);
        }
      case Upload(_, _, _) =>
    }
  }

  lemma AgreeWhenSaved(mem: Entries)
    ensures Agree(LogState(mem, mem))
  {
  }

  lemma StepKeepsAgreement(s: LogState, s': LogState, e: Event, limits: Limits)
    requires Agree(s) && Step(s, s', e, limits)
    ensures Agree(s')
  {
    hide Evicted, Pruned, Agree, Choices, BeginStep, FinishStep, AckStep, ReopenStep;
    StepChoices(s, s', e, limits);
    if s'.mem == s'.disk {
      AgreeWhenSaved(s'.mem);
    } else {
      match e {
        case Begin(_, _, _, _, _, _, _) => BeginKeepsAgreement(s, s', e, limits);
        case Finish(_, _, _, _, _, _) => FinishKeepsAgreement(s, s', e, limits);
        case Ack(_, _, _, _) => AckKeepsAgreement(s, s', e, limits);
        case Reopen(_, _, _) => ReopenKeepsAgreement(s, s', e, limits);
        case Upload(_, _, _) =>
      }
    }
  }

  lemma ReopenKeepsAgreement(s: LogState, s': LogState, e: Event, limits: Limits)
    requires e.Reopen? && ReopenStep(s, s', e, limits) && s'.mem != s'.disk
    ensures Agree(s')
  {
    hide Evicted, Pruned;
  }

  lemma BeginKeepsAgreement(s: LogState, s': LogState, e: Event, limits: Limits)
    requires Agree(s) && e.Begin? && BeginStep(s, s', e, limits) && Choices(s, e) && s'.mem != s'.disk
    ensures Agree(s')
  {
    hide Evicted, Pruned, Agree, Shrinks;
    if e.id !in e.pruned {
      ShrinkAgain(s.mem, e.pruned, e.room);
      if |e.room| < limits.capacity {
        DropShrinks(e.pruned, e.room, e.id, NewEntry(e.t.start), e.kept);
        ShrinkAgain(s.mem, e.room, e.kept - {e.id});
      }
    }
    AgreeAfterShrink(s, s'.mem);
  }

  lemma FinishKeepsAgreement(s: LogState, s': LogState, e: Event, limits: Limits)
    requires Agree(s) && e.Finish? && FinishStep(s, s', e, limits) && Choices(s, e) && s'.mem != s'.disk
    ensures Agree(s')
  {
    hide Evicted, Pruned, Agree, FinishedEntry;
    assert Shrinks(s.mem, s'.mem);
    AgreeAfterShrink(s, s'.mem);
  }

  lemma AckKeepsAgreement(s: LogState, s': LogState, e: Event, limits: Limits)
    requires Agree(s) && e.Ack? && AckStep(s, s', e, limits) && Choices(s, e) && s'.mem != s'.disk
    ensures Agree(s')
  {
    hide Evicted, Pruned;
  }

  // ---------------------------------------------------------------- the life of one entry

  /**
   * What happened to the current incarnation of a task id: it entered the log, it ended (finished,
   * or interrupted by a restart), and an acknowledgement of it was saved.
   */
  datatype Life = Life(entered: bool, ended: bool, acked: bool)

  function LifeAfter(life: Life, id: string, known: bool, e: Event): Life {
    match e
    case Begin(i, _, _, outcome, _, _, _) => if i == id && outcome.Begun? then Life(true, false, false) else life
    case Finish(i, _, _, _, saved, _) =>
      if i == id && saved then (if known then life.(ended := life.entered) else Life(true, true, false)) else life
    case Ack(i, _, saved, _) => if i == id && saved && known then life.(acked := life.entered) else life
    case Reopen(_, _, _) => life.(ended := life.entered)
    case Upload(_, _, _) => life
  }

  /**
   * Until it has both ended and been acknowledged, the entry is in memory and on disk; it is running
   * exactly until it ended, and neither copy is marked as reported before the acknowledgement.
   */
  ghost predicate Tracked(s: LogState, id: string, life: Life) {
    life.entered && !(life.ended && life.acked) ==> IsTracked(s, id, life)
  }

  ghost predicate IsTracked(s: LogState, id: string, life: Life) {
    && id in s.mem && id in s.disk
    && (if life.ended then s.mem[id].state.Finished? || s.mem[id].state.Interrupted? else s.mem[id].state.Started?)
    && (!life.acked ==> !s.mem[id].acked && !s.disk[id].acked)
  }

  lemma StepKeepsTrack(s: LogState, s': LogState, e: Event, limits: Limits, id: string, life: Life)
    requires Agree(s) && Tracked(s, id, life) && Step(s, s', e, limits) && id != ""
    ensures Tracked(s', id, LifeAfter(life, id, id in s.mem, e))
  {
    StepChoices(s, s', e, limits);
    hide Evicted, Pruned;
    match e {
      case Begin(_, _, _, _, _, _, _) => BeginKeepsTrack(s, s', e, limits, id, life);
      case Finish(_, _, _, _, _, _) => FinishKeepsTrack(s, s', e, limits, id, life);
      case Ack(_, _, _, _) => AckKeepsTrack(s, s', e, limits, id, life);
      case Reopen(_, _, _) => ReopenKeepsTrack(s, s', e, limits, id, life);
      case Upload(_, _, _) =>
    }
  }

  lemma BeginKeepsTrack(s: LogState, s': LogState, e: Event, limits: Limits, id: string, life: Life)
    requires Agree(s) && Tracked(s, id, life) && e.Begin? && BeginStep(s, s', e, limits) && Choices(s, e)
    ensures Tracked(s', id, LifeAfter(life, id, id in s.mem, e))
  {
    hide Evicted, Pruned;
  }

  lemma FinishKeepsTrack(s: LogState, s': LogState, e: Event, limits: Limits, id: string, life: Life)
    requires Agree(s) && Tracked(s, id, life) && e.Finish? && FinishStep(s, s', e, limits) && Choices(s, e)
    ensures Tracked(s', id, LifeAfter(life, id, id in s.mem, e))
  {
    hide Evicted, Pruned;
  }

  lemma AckKeepsTrack(s: LogState, s': LogState, e: Event, limits: Limits, id: string, life: Life)
    requires Agree(s) && Tracked(s, id, life) && e.Ack? && AckStep(s, s', e, limits) && Choices(s, e)
    ensures Tracked(s', id, LifeAfter(life, id, id in s.mem, e))
  {
    hide Evicted, Pruned;
  }

  lemma ReopenKeepsTrack(s: LogState, s': LogState, e: Event, limits: Limits, id: string, life: Life)
    requires Agree(s) && Tracked(s, id, life) && e.Reopen? && ReopenStep(s, s', e, limits) && Choices(s, e) && id != ""
    ensures Tracked(s', id, LifeAfter(life, id, id in s.mem, e))
  {
    hide Evicted, Pruned;
  }

  // ---------------------------------------------------------------- whole runs

  /** A run interleaves calls, uploads, crashes and restarts; save failures are part of the events. */
  ghost predicate IsRun(states: seq<LogState>, events: seq<Event>, limits: Limits) {
    && |states| == |events| + 1
    && forall i | 0 <= i < |events| :: Step(states[i], states[i + 1], events[i], limits)
  }

  /** The life of `id` after `k` events. */
  ghost function LifeOf(id: string, states: seq<LogState>, events: seq<Event>, k: nat): Life
    requires k <= |events| < |states|
  {
    if k == 0 then Life(false, false, false)
    else LifeAfter(LifeOf(id, states, events, k - 1), id, id in states[k - 1].mem, events[k - 1])
  }

  lemma NotTrackedYet(s: LogState, id: string)
    ensures Tracked(s, id, Life(false, false, false))
  {
  }

  lemma {:induction false} RunInvariant(states: seq<LogState>, events: seq<Event>, limits: Limits, id: string, k: nat)
    requires IsRun(states, events, limits) && Agree(states[0]) && k <= |events| && id != ""
    ensures Agree(states[k]) && Tracked(states[k], id, LifeOf(id, states, events, k))
  {
    hide Step, Agree, Tracked, LifeAfter;
    if k == 0 {
      assert Tracked(states[0], id, Life(false, false, false)) by { NotTrackedYet(states[0], id); }
    } else {
      RunInvariant(states, events, limits, id, k - 1);
      StepKeepsAgreement(states[k - 1], states[k], events[k - 1], limits);
      StepKeepsTrack(states[k - 1], states[k], events[k - 1], limits, id, LifeOf(id, states, events, k - 1));
    }
  }

  ghost predicate Begins(e: Event, id: string) {
    e.Begin? && e.id == id && e.outcome.Begun?
  }

  ghost predicate Ends(e: Event, id: string) {
    e.Reopen? || (e.Finish? && e.id == id && e.saved)
  }

  /** A saved acknowledgement of an entry that is in the log. */
  ghost predicate Acks(s: LogState, e: Event, id: string) {
    e.Ack? && e.id == id && e.saved && id in s.mem
  }

  /** After step i and before step k the entry ended and was acknowledged. */
  ghost predicate DoneWithin(states: seq<LogState>, events: seq<Event>, id: string, i: nat, k: nat)
    requires k <= |events| < |states|
  {
    && (exists f | i < f < k :: Ends(events[f], id))
    && (exists a | i < a < k :: Acks(states[a], events[a], id))
  }

  ghost predicate Uploads(e: Event, id: string) {
    e.Upload? && e.id == id && e.ok
  }

  /** The flags of a life are only set by the events they stand for. */
  lemma {:induction false} LifeHasReasons(id: string, states: seq<LogState>, events: seq<Event>, i: nat, k: nat)
    requires i < k <= |events| < |states| && Begins(events[i], id)
    ensures var life := LifeOf(id, states, events, k);
            && life.entered
            && (life.ended ==> exists f | i < f < k :: Ends(events[f], id))
            && (life.acked ==> exists a | i < a < k :: Acks(states[a], events[a], id))
  {
    if i < k - 1 {
      LifeHasReasons(id, states, events, i, k - 1);
      var before, life := LifeOf(id, states, events, k - 1), LifeOf(id, states, events, k);
      if life.ended && !before.ended {
        assert Ends(events[k - 1], id);
      }
      if life.acked && !before.acked {
        assert Acks(states[k - 1], events[k - 1], id);
      }
    }
  }

  lemma {:induction false} AckHasReason(id: string, states: seq<LogState>, events: seq<Event>, k: nat)
    requires k <= |events| < |states|
    ensures LifeOf(id, states, events, k).acked ==> exists a | 0 <= a < k :: Acks(states[a], events[a], id)
  {
    if k > 0 {
      AckHasReason(id, states, events, k - 1);
      if LifeOf(id, states, events, k).acked && !LifeOf(id, states, events, k - 1).acked {
        assert Acks(states[k - 1], events[k - 1], id);
      }
    }
  }

  lemma BeginNeedsRoom(s: LogState, s': LogState, e: Event, limits: Limits)
    requires Step(s, s', e, limits) && e.Begin? && e.outcome.Begun?
    ensures e.id !in s.mem || !IsProtected(s.mem[e.id])
    ensures e.id in s'.mem
  {
    StepChoices(s, s', e, limits);
    hide Evicted, Pruned;
  }

  /** The last moment at which the entry was in memory. */
  lemma {:induction false} LeavesOnce(states: seq<LogState>, id: string, i: nat, j: nat)
    requires i <= j < |states| && id in states[i].mem
    ensures exists r | i <= r <= j :: id in states[r].mem && (r == j || id !in states[r + 1].mem)
    decreases j - i
  {
    if i < j {
      if id in states[i + 1].mem {
        LeavesOnce(states, id, i + 1, j);
      } else {
        assert id in states[i].mem && id !in states[i + 1].mem;
      }
    }
  }

  /** Once begun, an entry is missing from memory, or may be dropped, only after it ended and was acknowledged. */
  lemma GoneMeansDone(states: seq<LogState>, events: seq<Event>, limits: Limits, id: string, i: nat, r: nat)
    requires IsRun(states, events, limits) && Agree(states[0]) && i < r <= |events| && Begins(events[i], id) && id != ""
    requires id in states[r].mem ==> !IsProtected(states[r].mem[id])
    ensures DoneWithin(states, events, id, i, r)
  {
    RunInvariant(states, events, limits, id, r);
    LifeHasReasons(id, states, events, i, r);
  }

  /**
   * No task runs twice. In any run with failing saves, crashes and restarts, between two successful begins of one
   * id the entry of the first ended (finished, or interrupted by a restart) and an acknowledgement of it was saved,
   * and only after both did the entry leave memory, by age or by capacity: before the second begin or, at the
   * latest, dropped by it.
   */
  lemma NeverStartedTwice(states: seq<LogState>, events: seq<Event>, limits: Limits, id: string, i: nat, j: nat)
    requires IsRun(states, events, limits) && Agree(states[0])
    requires i < j < |events| && Begins(events[i], id) && Begins(events[j], id) && id != ""
    ensures DoneWithin(states, events, id, i, j)
    ensures forall r | i < r <= j && id !in states[r].mem :: DoneWithin(states, events, id, i, r)
    ensures exists r | i < r <= j :: RemovedAt(states, events, limits, id, r, j)
    ensures id !in states[j].mem || !IsProtected(states[j].mem[id])
  {
    hide DoneWithin, Step, Agree, RemovedAt, IsProtected, Begins, IsRun;
    BeginAt(states, events, limits, id, i);
    BeginAt(states, events, limits, id, j);
    forall r | i < r <= j && id !in states[r].mem ensures DoneWithin(states, events, id, i, r) {
      GoneMeansDone(states, events, limits, id, i, r);
    }
    GoneMeansDone(states, events, limits, id, i, j);
    LeavesOnce(states, id, i + 1, j);
    var r :| i < r <= j && id in states[r].mem && (r == j || id !in states[r + 1].mem);
    RemovedHere(states, events, limits, id, r, j);
  }

  lemma BeginAt(states: seq<LogState>, events: seq<Event>, limits: Limits, id: string, i: nat)
    requires IsRun(states, events, limits) && i < |events| && Begins(events[i], id)
    ensures |states| == |events| + 1 && id in states[i + 1].mem
    ensures id !in states[i].mem || !IsProtected(states[i].mem[id])
  {
    assert Step(states[i], states[i + 1], events[i], limits);
    hide Step;
    BeginNeedsRoom(states[i], states[i + 1], events[i], limits);
  }

  lemma RemovedHere(states: seq<LogState>, events: seq<Event>, limits: Limits, id: string, r: nat, j: nat)
    requires IsRun(states, events, limits) && Agree(states[0]) && r <= j < |events| && id != ""
    requires id in states[r].mem && (if r == j then Begins(events[j], id) else id !in states[r + 1].mem)
    ensures RemovedAt(states, events, limits, id, r, j)
  {
    hide Step, Agree, MayLeave, AgedOrCrowded;
    assert Step(states[r], states[r + 1], events[r], limits);
    RunInvariant(states, events, limits, id, r);
    RemovalHasReason(states[r], states[r + 1], events[r], limits, id);
  }

  /**
   * In memory before step r, and removed by it, by age or capacity: for good, or to make way for the begin at step j.
   */
  ghost predicate RemovedAt(states: seq<LogState>, events: seq<Event>, limits: Limits, id: string, r: nat, j: nat)
    requires j < |events| < |states|
  {
    && r <= j && id in states[r].mem && (r == j || id !in states[r + 1].mem)
    && !events[r].Upload? && IsKnown(states[r], events[r], id)
    && MayLeave(states[r], events[r], id) && AgedOrCrowded(states[r], events[r], limits, id)
  }

  /** An entry in memory that a step drops, or that its own begin replaces. */
  lemma RemovalHasReason(s: LogState, s': LogState, e: Event, limits: Limits, id: string)
    requires Agree(s) && Step(s, s', e, limits) && id in s.mem && id != "" && (id !in s'.mem || Begins(e, id))
    ensures !e.Upload? && IsKnown(s, e, id) && MayLeave(s, e, id) && AgedOrCrowded(s, e, limits, id)
  {
    hide Evicted, Pruned, AgedOrCrowded;
    if Begins(e, id) {
      BeginDrops(s, s', e, limits, id);
    } else {
      LeavesByAgeOrCapacity(s, s', e, limits, id);
    }
  }

  /**
   * The empty id is the exception, and the only one: loading skips its entry, so after a crash it can begin again
   * although its first execution was never acknowledged.
   */
  lemma EmptyIdCanStartTwice() returns (states: seq<LogState>, events: seq<Event>, limits: Limits)
    ensures IsRun(states, events, limits) && Agree(states[0]) && |events| == 3
    ensures Begins(events[0], "") && Begins(events[2], "") && !DoneWithin(states, events, "", 0, 2)
  {
    limits := Limits(10, 2);
    var t, none, one: Entries := Times(0, 0, 0, 0), map[], map["" := NewEntry(0)];
    var begin := Begin("", t, true, Begun, none, none, one);
    var reopen := Reopen(t, none, none);
    OneEntryStays(none, one);
    assert Loaded(one) == none && InterruptAll(none, 0) == none && none["" := NewEntry(0)] == one;
    hide Pruned, Evicted;
    states := [LogState(none, none), LogState(one, one), LogState(none, one), LogState(one, one)];
    events := [begin, reopen, begin];
    assert Step(states[0], states[1], begin, limits) && Step(states[2], states[3], begin, limits);
    assert Step(states[1], states[2], reopen, limits);
  }

  lemma OneEntryStays(none: Entries, one: Entries)
    requires none == map[] && one == map["" := NewEntry(0)]
    ensures Pruned(none, none, 0, Limits(10, 2)) && Evicted(none, none, 1) && Pruned(one, one, 0, Limits(10, 2))
  {
    assert Unaged(none, 0, 10) == none && Unaged(one, 0, 10) == one;
  }

  /** Reporting asks for an acknowledgement only after some upload for that id has succeeded. */
  ghost predicate Disciplined(events: seq<Event>) {
    forall a | 0 <= a < |events| && events[a].Ack? :: UploadedBefore(events, events[a].id, a)
  }

  ghost predicate UploadedBefore(events: seq<Event>, id: string, k: nat)
    requires k <= |events|
  {
    exists u | 0 <= u < k :: Uploads(events[u], id)
  }

  predicate IsPending(entry: Entry) {
    !entry.acked && (entry.state.Interrupted? || entry.state.Finished?)
  }

  /**
   * No result is lost. A task that entered the log stays in memory and on disk, identical and
   * unacknowledged, until an upload for it succeeds; once it ended, both copies are pending reports.
   */
  lemma NoResultIsLost(states: seq<LogState>, events: seq<Event>, limits: Limits, id: string, k: nat)
    requires IsRun(states, events, limits) && Agree(states[0]) && Disciplined(events) && k <= |events|
    requires LifeOf(id, states, events, k).entered && !UploadedBefore(events, id, k) && id != ""
    ensures id in states[k].mem && id in states[k].disk && states[k].disk[id] == states[k].mem[id]
    ensures !states[k].mem[id].acked
    ensures if LifeOf(id, states, events, k).ended then IsPending(states[k].mem[id])
            else states[k].mem[id].state.Started?
  {
    RunInvariant(states, events, limits, id, k);
    AckHasReason(id, states, events, k);
  }

  /**
   * A result and the acknowledgement of an earlier one: a saved result is pending if and only if its entry had not
   * been acknowledged before, because the entry keeps that mark. A result saved over an acknowledged entry is
   * therefore not reported again when its one upload fails.
   */
  lemma SavedResultIsPendingExactly(s: LogState, s': LogState, e: Event, limits: Limits)
    requires e.Finish? && e.saved && FinishStep(s, s', e, limits)
    ensures (e.id in s'.mem && IsPending(s'.mem[e.id])) <==> !(e.id in s.mem && s.mem[e.id].acked)
    ensures s'.disk == s'.mem
  {
    StepChoices(s, s', e, limits);
    hide Pruned;
  }

  /** In memory and on disk, and pending in both. */
  ghost predicate HeldPending(s: LogState, id: string) {
    id in s.mem && id in s.disk && IsPending(s.mem[id]) && IsPending(s.disk[id])
  }

  lemma StepKeepsPending(s: LogState, s': LogState, e: Event, limits: Limits, id: string)
    requires Agree(s) && Step(s, s', e, limits) && id != "" && HeldPending(s, id) && !Acks(s, e, id)
    ensures HeldPending(s', id)
  {
    var life := Life(true, true, false);
    hide Step;
    StepKeepsAgreement(s, s', e, limits);
    StepKeepsTrack(s, s', e, limits, id, life);
    if e.Begin? && e.outcome.Begun? {
      BeginNeedsRoom(s, s', e, limits);
    }
    assert LifeAfter(life, id, true, e) == life;
  }

  /** Nothing but a saved result or a saved acknowledgement of the id touches its pending entry. */
  lemma PendingContentStays(s: LogState, s': LogState, e: Event, limits: Limits, id: string)
    requires Agree(s) && Step(s, s', e, limits) && id != "" && HeldPending(s, id) && !Acks(s, e, id)
    requires !(e.Finish? && e.saved && e.id == id)
    ensures HeldPending(s', id) && s'.mem[id] == s.mem[id] && s'.disk[id] == s.disk[id] == s.mem[id]
  {
    StepKeepsPending(s, s', e, limits, id);
    StepChoices(s, s', e, limits);
    hide Evicted, Pruned;
    match e {
      case Begin(_, _, _, _, _, _, _) => BeginKeepsContent(s, s', e, limits, id);
      case Finish(_, _, _, _, _, _) => FinishKeepsContent(s, s', e, limits, id);
      case Ack(_, _, _, _) => AckKeepsContent(s, s', e, limits, id);
      case Reopen(_, _, _) => ReopenKeepsContent(s, s', e, limits, id);
      case Upload(_, _, _) =>
    }
  }

  lemma BeginKeepsContent(s: LogState, s': LogState, e: Event, limits: Limits, id: string)
    requires Agree(s) && HeldPending(s, id) && e.Begin? && BeginStep(s, s', e, limits) && Choices(s, e)
    requires id in s'.mem
    ensures s'.mem[id] == s.mem[id] && id in s'.disk && s'.disk[id] == s.disk[id] == s.mem[id]
  {
    hide Evicted, Pruned;
  }

  lemma FinishKeepsContent(s: LogState, s': LogState, e: Event, limits: Limits, id: string)
    requires Agree(s) && HeldPending(s, id) && e.Finish? && FinishStep(s, s', e, limits) && Choices(s, e)
    requires id in s'.mem && !(e.saved && e.id == id)
    ensures s'.mem[id] == s.mem[id] && id in s'.disk && s'.disk[id] == s.disk[id] == s.mem[id]
  {
    hide Evicted, Pruned, FinishedEntry;
  }

  lemma AckKeepsContent(s: LogState, s': LogState, e: Event, limits: Limits, id: string)
    requires Agree(s) && HeldPending(s, id) && e.Ack? && AckStep(s, s', e, limits) && Choices(s, e)
    requires id in s'.mem && !Acks(s, e, id)
    ensures s'.mem[id] == s.mem[id] && id in s'.disk && s'.disk[id] == s.disk[id] == s.mem[id]
  {
    hide Evicted, Pruned;
  }

  lemma ReopenKeepsContent(s: LogState, s': LogState, e: Event, limits: Limits, id: string)
    requires Agree(s) && HeldPending(s, id) && e.Reopen? && ReopenStep(s, s', e, limits) && Choices(s, e)
    requires id in s'.mem && id != ""
    ensures s'.mem[id] == s.mem[id] && id in s'.disk && s'.disk[id] == s.disk[id] == s.mem[id]
  {
    hide Evicted, Pruned;
  }

  /**
   * Any saved result of an entry that had not been acknowledged, the first one or a later one, stays pending in memory
   * and on disk until the next saved result or a saved acknowledgement of the id. Both copies carry its exit code, its
   * time and the first 256 bytes of its summary.
   */
  lemma {:induction false} SavedResultIsHeld(states: seq<LogState>, events: seq<Event>, limits: Limits, id: string,
                                             f: nat, k: nat)
    requires IsRun(states, events, limits) && Agree(states[0]) && f < k <= |events| && id != ""
    requires events[f].Finish? && events[f].saved && events[f].id == id
    requires !(id in states[f].mem && states[f].mem[id].acked)
    requires forall a | f < a < k :: !Acks(states[a], events[a], id)
    requires forall g | f < g < k :: !(events[g].Finish? && events[g].saved && events[g].id == id)
    ensures HeldPending(states[k], id) && states[k].disk[id] == states[k].mem[id]
    ensures var e, entry := events[f], states[k].mem[id];
            && entry.state == Finished && entry.exitCode == e.exitCode && entry.finishedAt == Some(e.t.finish)
            && entry.summary == (if |e.summary| <= 256 then e.summary else e.summary[..256])
            && entry.startedAt == if id in states[f].mem then states[f].mem[id].startedAt else e.t.start
  {
    hide Step, Agree, HeldPending, FinishStep, Acks;
    RunInvariant(states, events, limits, id, k - 1);
    assert Step(states[k - 1], states[k], events[k - 1], limits);
    if k == f + 1 {
      FinishIsHeld(states[f], states[k], events[f], limits);
    } else {
      SavedResultIsHeld(states, events, limits, id, f, k - 1);
      PendingContentStays(states[k - 1], states[k], events[k - 1], limits, id);
    }
  }

  lemma FinishIsHeld(s: LogState, s': LogState, e: Event, limits: Limits)
    requires e.Finish? && e.saved && Step(s, s', e, limits) && !(e.id in s.mem && s.mem[e.id].acked)
    ensures HeldPending(s', e.id) && s'.disk == s'.mem
    ensures var entry := s'.mem[e.id];
            && entry.state == Finished && entry.exitCode == e.exitCode && entry.finishedAt == Some(e.t.finish)
            && entry.summary == (if |e.summary| <= 256 then e.summary else e.summary[..256])
            && entry.startedAt == if e.id in s.mem then s.mem[e.id].startedAt else e.t.start
  {
    SavedResultIsPendingExactly(s, s', e, limits);
    StepChoices(s, s', e, limits);
    hide Pruned;
  }

  /** Until an acknowledgement of the id is saved, some result of it stays pending, whatever is saved over it. */
  lemma {:induction false} SomeResultIsHeld(states: seq<LogState>, events: seq<Event>, limits: Limits, id: string,
                                            f: nat, k: nat)
    requires IsRun(states, events, limits) && Agree(states[0]) && f < k <= |events| && id != ""
    requires events[f].Finish? && events[f].saved && events[f].id == id
    requires !(id in states[f].mem && states[f].mem[id].acked)
    requires forall a | f < a < k :: !Acks(states[a], events[a], id)
    ensures HeldPending(states[k], id)
  {
    hide Step, Agree, HeldPending, FinishStep, Acks;
    RunInvariant(states, events, limits, id, k - 1);
    assert Step(states[k - 1], states[k], events[k - 1], limits);
    if k == f + 1 {
      FinishIsHeld(states[f], states[k], events[f], limits);
    } else {
      SomeResultIsHeld(states, events, limits, id, f, k - 1);
      StepKeepsPending(states[k - 1], states[k], events[k - 1], limits, id);
    }
  }

  // ---------------------------------------------------------------- what a step writes

  /** A begun task enters both copies as running since the clock of its begin, with nothing reported. */
  lemma BeginWrites(s: LogState, s': LogState, e: Event, limits: Limits)
    requires Step(s, s', e, limits) && e.Begin? && e.outcome.Begun?
    ensures e.id in s'.mem && s'.mem[e.id] == Entry(Started, e.t.start, None, "", 0, false) && s'.disk == s'.mem
  {
    StepChoices(s, s', e, limits);
    hide Evicted, Pruned;
  }

  /** A restart turns what was running into an interrupted entry, in memory and on disk, and changes no other entry. */
  lemma ReopenWrites(s: LogState, s': LogState, e: Event, limits: Limits, id: string)
    requires Step(s, s', e, limits) && e.Reopen? && id in s.disk && id != ""
    ensures s.disk[id].state.Started? && !s.disk[id].acked ==> id in s'.mem
    ensures id in s'.mem ==>
              && id in s'.disk && s'.disk[id] == s'.mem[id]
              && var was := s.disk[id];
                 s'.mem[id] == if !was.state.Started? then was
                               else Entry(Interrupted, was.startedAt,
                                          if was.finishedAt.Some? then was.finishedAt else Some(e.t.prune),
                                          "execution status unknown", -1, was.acked)
  {
    StepChoices(s, s', e, limits);
    hide Evicted, Pruned;
  }

  // ---------------------------------------------------------------- how an entry leaves the log

  /** The copy of an entry that a step starts from: on disk for a restart, in memory otherwise. */
  predicate IsKnown(s: LogState, e: Event, id: string) {
    if e.Reopen? then id in s.disk && id != "" else id in s.mem
  }

  /**
   * The two reasons to leave the log at a step: at one of its pruning clocks the time since the entry finished, or
   * else started, exceeds the retention; or the entries, with the one that the step is about, exceed the capacity.
   * (The step itself may be what finishes the entry.)
   */
  predicate AgedOrCrowded(s: LogState, e: Event, limits: Limits, id: string)
    requires IsKnown(s, e, id) && !e.Upload?
  {
    var entry := if e.Reopen? then s.disk[id] else s.mem[id];
    var since :=
      if e.Finish? && e.id == id then e.t.finish
      else if entry.finishedAt.Some? then entry.finishedAt.value
      else if e.Reopen? && entry.state == Started then e.t.prune
      else entry.startedAt;
    || e.t.prune - since > limits.retain || e.t.save - since > limits.retain
    || (if e.Reopen? then |s.disk.Keys - {""}| > limits.capacity else |s.mem.Keys + {e.id}| > limits.capacity)
  }

  /** What may be dropped: it was acknowledged, now at the latest, or its state is none that the agent writes. */
  predicate MayLeave(s: LogState, e: Event, id: string)
    requires IsKnown(s, e, id)
  {
    var entry := if e.Reopen? then s.disk[id] else s.mem[id];
    entry.acked || entry.state == Unknown || (e.Ack? && e.id == id)
  }

  lemma PrunedByAgeOrCapacity(before: Entries, after: Entries, now: int, limits: Limits, id: string)
    requires Pruned(before, after, now, limits) && id in before && id !in after
    ensures before[id].state != Started && (before[id].acked || before[id].state == Unknown)
    ensures var since := if before[id].finishedAt.Some? then before[id].finishedAt.value else before[id].startedAt;
            now - since > limits.retain || |before.Keys| > limits.capacity
  {
    var unaged := Unaged(before, now, limits.retain);
    if id in unaged {
      SubmapSize(unaged, before);
      EvictedMeansCrowded(unaged, after, limits.capacity, id);
    }
  }

  lemma EvictedMeansCrowded(before: Entries, after: Entries, capacity: int, id: string)
    requires Evicted(before, after, capacity) && id in before && id !in after
    ensures |before.Keys| > capacity && !IsProtected(before[id])
  {
    assert after.Keys <= before.Keys - {id};
    SubsetSize(after.Keys, before.Keys - {id});
  }

  /**
   * An entry leaves memory only if it was acknowledged (or has no state that the agent writes), and only by age or by
   * capacity. This holds for every step, whether its save succeeds or fails.
   */
  lemma LeavesByAgeOrCapacity(s: LogState, s': LogState, e: Event, limits: Limits, id: string)
    requires Step(s, s', e, limits) && IsKnown(s, e, id) && id !in s'.mem
    ensures !e.Upload? && MayLeave(s, e, id) && AgedOrCrowded(s, e, limits, id)
  {
    hide Evicted, Pruned;
    match e {
      case Begin(_, _, _, _, _, _, _) => BeginDrops(s, s', e, limits, id);
      case Finish(_, _, _, _, _, _) => FinishDrops(s, s', e, limits, id);
      case Ack(_, _, _, _) => AckDrops(s, s', e, limits, id);
      case Reopen(_, _, _) => ReopenDrops(s, s', e, limits, id);
      case Upload(_, _, _) =>
    }
  }

  /**
   * What leaves although it has not aged makes room, and the tasks that started first leave first: nothing that could
   * be dropped and started earlier stays behind.
   */
  lemma OldestLeaveFirst(s: LogState, s': LogState, e: Event, limits: Limits, gone: string, kept: string)
    requires Step(s, s', e, limits) && !e.Reopen? && gone in s.mem && kept in s.mem && "" !in s.mem && e.id != ""
    requires gone !in s'.mem && kept in s'.mem && e.id != gone && e.id != kept
    requires s.mem[kept].state == Unknown || (s.mem[kept].state != Started && s.mem[kept].acked)
    requires var since := if s.mem[gone].finishedAt.Some? then s.mem[gone].finishedAt.value else s.mem[gone].startedAt;
             e.t.prune - since <= limits.retain && e.t.save - since <= limits.retain
    ensures s.mem[gone].startedAt <= s.mem[kept].startedAt
  {
    StepChoices(s, s', e, limits);
    hide Evicted, Pruned;
    match e {
      case Begin(_, _, _, _, _, _, _) =>
        BeginOldestFirst(s, s', e, limits, gone, kept);
      case Finish(_, _, _, _, _, _) =>
        var all := s.mem[e.id := FinishedEntry(s.mem, e.id, e.summary, e.exitCode, e.t)];
        PrunedOldestFirst(all, e.kept, e.t.save, limits, gone, kept);
      case Ack(_, _, _, _) =>
        PrunedOldestFirst(s.mem[e.id := s.mem[e.id].(acked := true)], e.kept, e.t.save, limits, gone, kept);
    }
  }

  lemma BeginOldestFirst(s: LogState, s': LogState, e: Event, limits: Limits, gone: string, kept: string)
    requires e.Begin? && BeginStep(s, s', e, limits) && gone in s.mem && kept in s.mem && "" !in s.mem && e.id != ""
    requires gone !in s'.mem && kept in s'.mem && e.id != gone && e.id != kept
    requires !IsProtected(s.mem[kept])
    requires !HasAged(s.mem[gone], e.t.prune, limits.retain) && !HasAged(s.mem[gone], e.t.save, limits.retain)
    ensures s.mem[gone].startedAt <= s.mem[kept].startedAt
  {
    BeginChoices(s, s', e, limits);
    hide Evicted, Pruned, IsProtected, HasAged;
    if gone !in e.pruned {
      PrunedOldestFirst(s.mem, e.pruned, e.t.prune, limits, gone, kept);
    } else if gone !in e.room {
      EvictedOldestFirst(e.pruned, e.room, limits.capacity - 1, gone, kept);
    } else {
      PrunedOldestFirst(e.room[e.id := NewEntry(e.t.start)], e.kept, e.t.save, limits, gone, kept);
    }
  }

  lemma PrunedOldestFirst(before: Entries, after: Entries, now: int, limits: Limits, gone: string, kept: string)
    requires Pruned(before, after, now, limits) && gone in before && gone !in after && kept in before && kept in after
    requires "" !in before && !IsProtected(before[kept]) && !HasAged(before[gone], now, limits.retain)
    ensures before[gone].startedAt <= before[kept].startedAt
  {
    EvictedOldestFirst(Unaged(before, now, limits.retain), after, limits.capacity, gone, kept);
  }

  lemma EvictedOldestFirst(before: Entries, after: Entries, capacity: int, gone: string, kept: string)
    requires Evicted(before, after, capacity) && gone in before && gone !in after && kept in after
    requires kept in before && "" !in before && !IsProtected(before[kept])
    ensures before[gone].startedAt <= before[kept].startedAt
  {
  }

  lemma KeysWithin(small: Entries, big: Entries)
    requires Within(small, big)
    ensures small.Keys <= big.Keys
  {
  }

  lemma BeginDrops(s: LogState, s': LogState, e: Event, limits: Limits, id: string)
    requires e.Begin? && BeginStep(s, s', e, limits) && id in s.mem && (id !in s'.mem || id !in e.pruned)
    ensures MayLeave(s, e, id) && AgedOrCrowded(s, e, limits, id)
  {
    BeginChoices(s, s', e, limits);
    hide Evicted, Pruned;
    KeysWithin(e.pruned, s.mem);
    if id !in e.pruned {
      PrunedByAgeOrCapacity(s.mem, e.pruned, e.t.prune, limits, id);
      SubsetSize(s.mem.Keys, s.mem.Keys + {e.id});
    } else {
      KeysWithin(e.room, e.pruned);
      if id !in e.room {
        EvictedMeansCrowded(e.pruned, e.room, limits.capacity - 1, id);
        SubsetSize(e.pruned.Keys, s.mem.Keys);
        assert e.id !in s.mem ==> |s.mem.Keys + {e.id}| == |s.mem.Keys| + 1;
        BeginRoom(s, e, limits);
      } else {
        AddingDrops(s, s', e, limits, id);
      }
    }
  }

  lemma AddingDrops(s: LogState, s': LogState, e: Event, limits: Limits, id: string)
    requires e.Begin? && BeginStep(s, s', e, limits) && id in s.mem && id in e.room && id in e.pruned && id !in s'.mem
    requires Within(e.pruned, s.mem) && Within(e.room, e.pruned)
    ensures MayLeave(s, e, id) && AgedOrCrowded(s, e, limits, id)
  {
    hide Evicted, Pruned;
    var added := e.room[e.id := NewEntry(e.t.start)];
    assert e.id !in e.pruned && id in added && (id == e.id || added[id] == s.mem[id]);
    PrunedByAgeOrCapacity(added, e.kept, e.t.save, limits, id);
    assert added.Keys == e.room.Keys + {e.id};
    SubsetSize(added.Keys, s.mem.Keys + {e.id});
  }

  /** When the pruning already dropped the id that begins, the others still fit beside it or the log was crowded. */
  lemma BeginRoom(s: LogState, e: Event, limits: Limits)
    requires e.Begin? && e.id !in e.pruned && Within(e.pruned, s.mem)
    ensures |e.pruned.Keys| + 1 <= |s.mem.Keys + {e.id}|
  {
    assert e.pruned.Keys + {e.id} <= s.mem.Keys + {e.id};
    SubsetSize(e.pruned.Keys + {e.id}, s.mem.Keys + {e.id});
  }

  lemma FinishDrops(s: LogState, s': LogState, e: Event, limits: Limits, id: string)
    requires e.Finish? && FinishStep(s, s', e, limits) && id in s.mem && id !in s'.mem
    ensures MayLeave(s, e, id) && AgedOrCrowded(s, e, limits, id)
  {
    hide Evicted, Pruned;
    var all := s.mem[e.id := FinishedEntry(s.mem, e.id, e.summary, e.exitCode, e.t)];
    PrunedByAgeOrCapacity(all, e.kept, e.t.save, limits, id);
    assert all.Keys == s.mem.Keys + {e.id};
  }

  lemma AckDrops(s: LogState, s': LogState, e: Event, limits: Limits, id: string)
    requires e.Ack? && AckStep(s, s', e, limits) && id in s.mem && id !in s'.mem
    ensures MayLeave(s, e, id) && AgedOrCrowded(s, e, limits, id)
  {
    hide Evicted, Pruned;
    var all := s.mem[e.id := s.mem[e.id].(acked := true)];
    PrunedByAgeOrCapacity(all, e.kept, e.t.save, limits, id);
    assert all.Keys == s.mem.Keys + {e.id};
  }

  lemma ReopenDrops(s: LogState, s': LogState, e: Event, limits: Limits, id: string)
    requires e.Reopen? && ReopenStep(s, s', e, limits) && id in s.disk && id != "" && id !in s'.mem
    ensures MayLeave(s, e, id) && AgedOrCrowded(s, e, limits, id)
  {
    hide Evicted, Pruned;
    var loaded := Loaded(s.disk);
    assert loaded.Keys == s.disk.Keys - {""};
    PrunedShrinks(loaded, e.pruned, e.t.prune, limits);
    if id !in e.pruned {
      PrunedByAgeOrCapacity(loaded, e.pruned, e.t.prune, limits, id);
    } else {
      RevivedDrops(s, s', e, limits, id);
    }
  }

  lemma RevivedDrops(s: LogState, s': LogState, e: Event, limits: Limits, id: string)
    requires e.Reopen? && ReopenStep(s, s', e, limits) && id in s.disk && id != "" && id !in s'.mem
    requires id in e.pruned && Within(e.pruned, Loaded(s.disk))
    ensures MayLeave(s, e, id) && AgedOrCrowded(s, e, limits, id)
  {
    hide Evicted, Pruned;
    var revived := InterruptAll(e.pruned, e.t.prune);
    PrunedByAgeOrCapacity(revived, e.kept, e.t.save, limits, id);
    KeysWithin(e.pruned, Loaded(s.disk));
    assert revived.Keys == e.pruned.Keys;
    assert Loaded(s.disk).Keys == s.disk.Keys - {""};
    SubsetSize(revived.Keys, Loaded(s.disk).Keys);
  }

  /** What stays after a successful save is running, unreported, or not older than the retention. */
  lemma SavedLogIsRecent(s: LogState, s': LogState, e: Event, limits: Limits, id: string)
    requires Step(s, s', e, limits) && id in s'.mem
    requires (e.Begin? && e.outcome.Begun?) || (e.Finish? && e.saved) || (e.Ack? && e.saved && e.id in s.mem)
    ensures var entry := s'.mem[id];
            || entry.state == Started
            || (entry.state in {Finished, Interrupted} && !entry.acked)
            || e.t.save - (if entry.finishedAt.Some? then entry.finishedAt.value else entry.startedAt) <= limits.retain
  {
  }

  /** A begin is refused for what the log knows: the answer says in which state the task is. */
  lemma BeginAnswers(s: LogState, s': LogState, e: Event, limits: Limits)
    requires Step(s, s', e, limits) && e.Begin?
    ensures e.outcome == AlreadyFinished ==> e.id in s.mem && s.mem[e.id].state == Finished
    ensures e.outcome == WasInterrupted ==> e.id in s.mem && s.mem[e.id].state == Interrupted
    ensures e.outcome == AlreadyStarted ==> e.id in s.mem && s.mem[e.id].state in {Started, Unknown}
    ensures e.id in s.mem && !(MayLeave(s, e, e.id) && AgedOrCrowded(s, e, limits, e.id)) ==>
              e.outcome in {AlreadyFinished, WasInterrupted, AlreadyStarted}
  {
    BeginChoices(s, s', e, limits);
    hide Evicted, Pruned;
    if e.id in s.mem && e.id !in e.pruned {
      BeginDrops(s, s', e, limits, e.id);
    }
  }

  /**
   * With the default limits: what finished within a day is refused again as long as the log holds at most 256 entries.
   */
  lemma DefaultLogRemembersForADay(s: LogState, s': LogState, e: Event)
    requires Step(s, s', e, DEFAULT_LIMITS) && e.Begin? && e.id in s.mem && |s.mem.Keys| <= 256
    requires s.mem[e.id].finishedAt.Some? && e.t.prune - s.mem[e.id].finishedAt.value <= 86400
    ensures e.outcome in {AlreadyFinished, WasInterrupted, AlreadyStarted} && e.id in s'.mem
  {
    BeginChoices(s, s', e, DEFAULT_LIMITS);
    hide Evicted, Pruned;
    if e.id !in e.pruned {
      PrunedByAgeOrCapacity(s.mem, e.pruned, e.t.prune, DEFAULT_LIMITS, e.id);
    }
  }

  // ---------------------------------------------------------------- capacity

  /** After every successful save the log fits its capacity, unless nothing in it may be dropped. */
  lemma SavedLogIsBounded(s: LogState, s': LogState, e: Event, limits: Limits)
    requires Step(s, s', e, limits)
    requires (e.Begin? && e.outcome.Begun?) || (e.Finish? && e.saved) || (e.Ack? && e.saved && e.id in s.mem)
    ensures s'.mem == s'.disk && (|s'.disk| <= limits.capacity || AllProtected(s'.disk) || Nameless(s'.disk))
  {
  }

  ghost function ProtectedOf(entries: Entries): Entries {
    map id | id in entries && IsProtected(entries[id]) :: entries[id]
  }

  lemma SubmapSize(small: Entries, big: Entries)
    requires Within(small, big)
    ensures |small| <= |big|
  {
    assert small.Keys <= big.Keys;
    assert big.Keys == small.Keys + (big.Keys - small.Keys);
  }

  lemma ProtectedStays(before: Entries, after: Entries)
    requires Shrinks(before, after)
    ensures |ProtectedOf(before)| <= |after|
    ensures AllProtected(after) ==> |after| <= |ProtectedOf(before)|
  {
    SubmapSize(ProtectedOf(before), after);
    if AllProtected(after) {
      SubmapSize(after, ProtectedOf(before));
    }
  }

  /**
   * An unknown task is turned away exactly when protected entries alone fill the log (or the search for a victim
   * is confused).
   */
  lemma LogFullExactly(s: LogState, s': LogState, e: Event, limits: Limits)
    requires e.Begin? && BeginStep(s, s', e, limits) && e.id !in s.mem
    ensures |ProtectedOf(s.mem)| >= limits.capacity ==> e.outcome.LogFull?
    ensures e.outcome.LogFull? ==> |ProtectedOf(s.mem)| >= limits.capacity || Nameless(s.mem)
  {
    BeginChoices(s, s', e, limits);
    ShrinkAgain(s.mem, e.pruned, e.room);
    ProtectedStays(s.mem, e.room);
    assert |e.room| >= limits.capacity ==> AllProtected(e.room) || Nameless(s.mem);
    hide Pruned;
  }

  /**
   * A saved result leaves the log above its capacity exactly when the protected entries alone, with this one,
   * exceed it.
   */
  lemma FinishExceedsCapacityExactly(s: LogState, s': LogState, e: Event, limits: Limits)
    requires e.Finish? && e.saved && FinishStep(s, s', e, limits)
    ensures var all := s.mem[e.id := FinishedEntry(s.mem, e.id, e.summary, e.exitCode, e.t)];
            && (|ProtectedOf(all)| > limits.capacity ==> |s'.disk| > limits.capacity)
            && (|s'.disk| > limits.capacity ==> |ProtectedOf(all)| > limits.capacity || Nameless(all))
  {
    hide FinishedEntry;
    var all := s.mem[e.id := FinishedEntry(s.mem, e.id, e.summary, e.exitCode, e.t)];
    PrunedShrinks(all, e.kept, e.t.save, limits);
    ProtectedStays(all, e.kept);
    hide Pruned, Shrinks;
    assert |e.kept| > limits.capacity && !Nameless(all) ==> AllProtected(e.kept) by {
      PrunedFits(all, e.kept, e.t.save, limits);
    }
  }

  lemma PrunedFits(before: Entries, after: Entries, now: int, limits: Limits)
    requires Pruned(before, after, now, limits)
    ensures |after| <= limits.capacity || AllProtected(after) || Nameless(before)
  {
  }

  /** The input behind it: a result for an unknown task joins a log of protected entries, full or not. */
  lemma FinishCanExceedCapacity(s: LogState, s': LogState, e: Event, limits: Limits)
    requires e.Finish? && e.saved && FinishStep(s, s', e, limits)
    requires AllProtected(s.mem) && e.id !in s.mem
    ensures |s'.mem| == |s.mem| + 1
  {
    StepChoices(s, s', e, limits);
    hide Pruned;
    var all := s.mem[e.id := FinishedEntry(s.mem, e.id, e.summary, e.exitCode, e.t)];
    assert all.Keys == s.mem.Keys + {e.id};
    assert s'.mem.Keys == all.Keys;
  }
}

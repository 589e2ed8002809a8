/**
 * The `Log` object of `tasklog/tasklog.go`: each method performs one step of the specification, and
 * the object keeps the run so far as ghost state. Whether a save succeeds is an argument.
 */
module TaskLogFile {
  import opened Common
  import opened TaskLog

  /**
   * `oldestDroppableTaskLogEntry`; the empty id stands for "none". That is exact unless an entry without an id may be
   * dropped itself.
   */
  method OldestDroppable(entries: Entries) returns (oldestID: string)
    ensures AllProtected(entries) ==> oldestID == ""
    ensures oldestID == "" ==> AllProtected(entries) || Nameless(entries)
    ensures oldestID != "" ==> oldestID in entries && !IsProtected(entries[oldestID])
    ensures oldestID != "" && !Nameless(entries) ==>
      forall id | id in entries && !IsProtected(entries[id]) :: entries[oldestID].startedAt <= entries[id].startedAt
  {
    oldestID := "";
    var oldest := 0;
    var todo := entries.Keys;
    while todo != {}
      invariant todo <= entries.Keys
      invariant oldestID == "" ==>
        Nameless(entries) || forall id | id in entries && id !in todo :: IsProtected(entries[id])
      invariant oldestID != "" ==> oldestID in entries && oldestID !in todo && !IsProtected(entries[oldestID])
      invariant oldestID != "" && !Nameless(entries) ==> oldest == entries[oldestID].startedAt
      invariant oldestID != "" && !Nameless(entries) ==>
        forall id | id in entries && id !in todo && !IsProtected(entries[id]) :: oldest <= entries[id].startedAt
    {
      var id :| id in todo;
      if !IsProtected(entries[id]) && (oldestID == "" || entries[id].startedAt < oldest) {
        oldestID, oldest := id, entries[id].startedAt;
      }
      todo := todo - {id};
    }
  }

  /** The eviction loop of `pruneLocked` and `Begin`. It ends early when no victim is found. */
  method EvictDownTo(before: Entries, capacity: int) returns (entries: Entries)
    ensures Evicted(before, entries, capacity)
  {
    entries := before;
    while |entries| > capacity
      invariant Within(entries, before)
      invariant forall id | id in before && id !in entries :: !IsProtected(before[id])
      invariant entries != before ==> |entries| >= capacity
      invariant !Nameless(before) ==> !Nameless(entries)
      invariant !Nameless(before) ==>
        forall gone, kept | gone in before && gone !in entries && kept in entries && !IsProtected(entries[kept]) ::
          before[gone].startedAt <= entries[kept].startedAt
      decreases |entries|
    {
      var victim := OldestDroppable(entries);
      if victim == "" {
        break;
      }
      ghost var size := |entries|;
      assert (entries - {victim}).Keys == entries.Keys - {victim};
      entries := entries - {victim};
      assert |entries| == size - 1;
    }
  }

  /** When `Open` has nothing to write. */
  lemma RevivedUnchanged(pruned: Entries, disk: Entries, now: int)
    requires Within(pruned, disk)
    ensures InterruptAll(pruned, now) == disk <==> pruned == disk && forall id | id in disk :: !disk[id].state.Started?
  {
    if InterruptAll(pruned, now) == disk {
      assert pruned.Keys == InterruptAll(pruned, now).Keys;
    }
    if pruned == disk && forall id | id in disk :: !disk[id].state.Started? {
      assert InterruptAll(pruned, now) == disk;
    }
  }

  /** A stored log that `Open` finds as it should be: nothing aged, nothing running, and not too long. */
  ghost predicate NothingToWrite(loaded: Entries, now: int, limits: Limits) {
    && (forall id | id in loaded :: !loaded[id].state.Started? && !HasAged(loaded[id], now, limits.retain))
    && (|loaded| <= limits.capacity || AllProtected(loaded))
  }

  /** Pruning keeps everything exactly when nothing has aged and the log fits or is all protected. */
  lemma PruningKeepsAll(disk: Entries, pruned: Entries, now: int, limits: Limits)
    requires Pruned(disk, pruned, now, limits) && "" !in disk
    ensures pruned == disk <==>
      && (forall id | id in disk :: !HasAged(disk[id], now, limits.retain))
      && (|disk| <= limits.capacity || AllProtected(disk))
  {
    if forall id | id in disk :: !HasAged(disk[id], now, limits.retain) {
      assert Unaged(disk, now, limits.retain) == disk;
      if |disk| <= limits.capacity && pruned != disk {
        SmallerWithin(pruned, disk);
      }
      if AllProtected(disk) {
        assert pruned == disk;
      }
    }
  }

  /** `Open` writes exactly when the loaded log is not as it should be. */
  lemma OpenWrites(loaded: Entries, pruned: Entries, now: int, limits: Limits)
    requires Pruned(loaded, pruned, now, limits) && "" !in loaded
    ensures NothingToWrite(loaded, now, limits)
            <==> pruned == loaded && !(exists id | id in pruned :: pruned[id].state.Started?)
    ensures InterruptAll(pruned, now) == loaded <==> NothingToWrite(loaded, now, limits)
  {
    PrunedShrinks(loaded, pruned, now, limits);
    PruningKeepsAll(loaded, pruned, now, limits);
    hide Pruned;
    RevivedUnchanged(pruned, loaded, now);
  }

  lemma ReopenIsStep(s: LogState, s': LogState, e: Event, limits: Limits)
    requires e.Reopen? && Pruned(Loaded(s.disk), e.pruned, e.t.prune, limits)
    requires var revived := InterruptAll(e.pruned, e.t.prune);
             if revived == Loaded(s.disk) then s' == LogState(revived, s.disk)
             else Pruned(revived, e.kept, e.t.save, limits) && s' == LogState(e.kept, e.kept)
    ensures Step(s, s', e, limits)
  {
    hide Pruned;
  }

  lemma SmallerWithin(small: Entries, big: Entries)
    requires Within(small, big) && small != big
    ensures |small| < |big|
  {
    assert small.Keys <= big.Keys;
    assert small.Keys != big.Keys;
    assert big.Keys == small.Keys + (big.Keys - small.Keys);
  }

  /** The steps of `Begin` for an id that is unknown and fits. */
  lemma StepIntoRoom(s: LogState, s': LogState, e: Event, limits: Limits)
    requires e.Begin? && Pruned(s.mem, e.pruned, e.t.prune, limits) && e.id !in e.pruned
    requires Evicted(e.pruned, e.room, limits.capacity - 1) && |e.room| < limits.capacity
    requires Pruned(e.room[e.id := NewEntry(e.t.start)], e.kept, e.t.save, limits)
    requires e.outcome == if e.saved then Begun else SaveFailed
    requires s' == if e.saved then LogState(e.kept, e.kept) else s.(mem := e.kept - {e.id})
    ensures Step(s, s', e, limits)
  {
    hide Evicted, Pruned;
  }

  class Log {
    const limits: Limits
    var entries: Entries
    var disk: Entries  // the content of the file
    ghost var states: seq<LogState>
    ghost var events: seq<Event>

    ghost predicate Valid()
      reads this
    {
      && |states| == |events| + 1 && IsRun(states, events, limits) && Agree(states[0])
      && states[|events|] == LogState(entries, disk)
    }

    ghost function LastEvent(): Event
      requires events != []
      reads this
    {
      events[|events| - 1]
    }

    ghost function View(): LogState
      reads this
    {
      LogState(entries, disk)
    }

    /** A log whose first `Open` found `stored` and had nothing to change. */
    constructor (limits: Limits, stored: Entries)
      ensures Valid() && events == [] && this.limits == limits && View() == LogState(Loaded(stored), stored)
    {
      this.limits, entries, disk := limits, Loaded(stored), stored;
      states, events := [LogState(Loaded(stored), stored)], [];
    }

    /** Every method performs one step and appends it to the run. */
    ghost method Record(e: Event)
      requires IsRun(states, events, limits) && Agree(states[0])
      requires Step(states[|events|], View(), e, limits)
      modifies this`states, this`events
      ensures Valid() && events == old(events) + [e]
    {
      hide Step, Agree;
      states, events := states + [View()], events + [e];
    }

    method PruneLocked(now: int) returns (dirty: bool)
      modifies this`entries
      ensures Pruned(old(entries), entries, now, limits)
      ensures dirty <==> entries != old(entries)
    {
      var todo, before := entries.Keys, entries;
      var kept := entries;
      while todo != {}
        invariant todo <= entries.Keys
        invariant kept
               == map id | id in entries && (id in todo || !HasAged(entries[id], now, limits.retain)) :: entries[id]
      {
        var id :| id in todo;
        if HasAged(entries[id], now, limits.retain) {
          kept := kept - {id};
        }
        todo := todo - {id};
      }
      assert kept == Unaged(entries, now, limits.retain);
      entries := EvictDownTo(kept, limits.capacity);
      dirty := entries != before;
    }

    method SaveLocked(now: int, saved: bool)
      modifies this`entries, this`disk
      ensures Pruned(old(entries), entries, now, limits)
      ensures disk == if saved then entries else old(disk)
    {
      var _ := PruneLocked(now);
      if saved {
        disk := entries;
      }
    }

    method Begin(id: string, t: Times, saved: bool) returns (outcome: BeginOutcome, existing: Option<Entry>)
      requires Valid()
      modifies this
      ensures Valid() && events != [] && events == old(events) + [LastEvent()]
      ensures var e := LastEvent();
              e.Begin? && e.id == id && e.t == t && e.saved == saved && e.outcome == outcome
      ensures existing.Some? <==> outcome.AlreadyStarted? || outcome.AlreadyFinished? || outcome.WasInterrupted?
      ensures existing.Some? ==> id in entries && existing.value == entries[id] && outcome == Refusal(entries[id])
      ensures existing.Some? ==> id in old(entries) && existing.value == old(entries)[id]
    {
      hide Evicted, Pruned, IsRun, Agree;
      var _ := PruneLocked(t.prune);
      ghost var pruned := entries;
      PrunedShrinks(old(entries), pruned, t.prune, limits);
      if id in entries {
        outcome, existing := Refusal(entries[id]), Some(entries[id]);
        Record(Event.Begin(id, t, saved, outcome, pruned, pruned, pruned));
        return;
      }
      entries := EvictDownTo(entries, limits.capacity - 1);
      EvictedShrinks(pruned, entries, limits.capacity - 1);
      if |entries| >= limits.capacity {
        Record(Event.Begin(id, t, saved, LogFull, pruned, entries, entries));
        return LogFull, None;
      }
      outcome := AddEntry(id, t, saved, pruned);
      existing := None;
    }

    /** The end of `Begin`: there is room for the new task. */
    method AddEntry(id: string, t: Times, saved: bool, ghost pruned: Entries) returns (outcome: BeginOutcome)
      requires |states| == |events| + 1 && IsRun(states, events, limits) && Agree(states[0])
      requires Pruned(states[|events|].mem, pruned, t.prune, limits) && id !in pruned && disk == states[|events|].disk
      requires Evicted(pruned, entries, limits.capacity - 1) && |entries| < limits.capacity
      modifies this
      ensures Valid() && events != [] && events == old(events) + [LastEvent()]
      ensures outcome == if saved then Begun else SaveFailed
      ensures var e := LastEvent(); e.Begin? && e.id == id && e.t == t && e.saved == saved && e.outcome == outcome
    {
      hide Evicted, Pruned, IsRun, Agree, NewEntry, Step;
      ghost var room := entries;
      entries := entries[id := NewEntry(t.start)];
      SaveLocked(t.save, saved);
      ghost var kept := entries;
      outcome := if saved then Begun else SaveFailed;
      if !saved {
        entries := entries - {id};
      }
      ghost var e := Event.Begin(id, t, saved, outcome, pruned, room, kept);
      StepIntoRoom(states[|events|], View(), e, limits);
      Record(e);
    }

    method Finish(id: string, summary: string, exitCode: int, t: Times, saved: bool)
      requires Valid()
      modifies this
      ensures Valid() && events != [] && events == old(events) + [LastEvent()]
      ensures var e := LastEvent();
              e.Finish? && e.id == id && e.summary == summary && e.exitCode == exitCode && e.t == t && e.saved == saved
    {
      hide Evicted, Pruned, IsRun, Agree;
      var previous := entries;
      entries := entries[id := FinishedEntry(entries, id, summary, exitCode, t)];
      SaveLocked(t.save, saved);
      ghost var kept := entries;
      if !saved {
        entries := if id in previous then entries[id := previous[id]] else entries - {id};
      }
      Record(Event.Finish(id, summary, exitCode, t, saved, kept));
    }

    method Ack(id: string, t: Times, saved: bool)
      requires Valid()
      modifies this
      ensures Valid() && events != [] && events == old(events) + [LastEvent()]
      ensures var e := LastEvent(); e.Ack? && e.id == id && e.t == t && e.saved == saved
    {
      hide Evicted, Pruned, IsRun, Agree;
      if id !in entries {
        Record(Event.Ack(id, t, saved, entries));
        return;
      }
      var entry := entries[id].(acked := true);
      entries := entries[id := entry];
      SaveLocked(t.save, saved);
      ghost var kept := entries;
      if !saved {
        entries := entries[id := entry.(acked := false)];
      }
      Record(Event.Ack(id, t, saved, kept));
    }

    /** The entries that are finished or interrupted and not acknowledged. */
    method PendingReports() returns (out: Entries)
      ensures forall id :: id in out <==>
        id in entries && !entries[id].acked && (entries[id].state == Finished || entries[id].state == Interrupted)
      ensures forall id | id in out :: out[id] == entries[id]
    {
      out := map[];
      var todo := entries.Keys;
      while todo != {}
        invariant todo <= entries.Keys
        invariant out == map id | id in entries && id !in todo && IsPending(entries[id]) :: entries[id]
      {
        var id :| id in todo;
        if IsPending(entries[id]) {
          out := out[id := entries[id]];
        }
        todo := todo - {id};
      }
    }

    /** The loop of `Open` over what was running when the agent stopped. */
    method InterruptStarted(now: int) returns (dirty: bool)
      modifies this`entries
      ensures entries == InterruptAll(old(entries), now)
      ensures dirty <==> exists id | id in old(entries) :: old(entries)[id].state.Started?
    {
      dirty := false;
      var todo := entries.Keys;
      while todo != {}
        invariant todo <= entries.Keys == old(entries).Keys
        invariant forall id | id in entries ::
          entries[id] == if id in todo then old(entries)[id] else Interrupt(old(entries)[id], now)
        invariant dirty <==> exists id | id in old(entries) && id !in todo :: old(entries)[id].state.Started?
      {
        var id :| id in todo;
        if entries[id].state.Started? {
          entries := entries[id := Interrupt(entries[id], now)];
          dirty := true;
        }
        todo := todo - {id};
      }
    }

    /**
     * A restart. It fails exactly when there is something to write and saving fails; then the file is unchanged
     * and there is no log to use.
     */
    method Open(t: Times, saved: bool) returns (ok: bool)
      requires Valid()
      modifies this
      ensures ok ==> Valid() && events != [] && events == old(events) + [LastEvent()] && LastEvent().Reopen?
      ensures ok ==> LastEvent().t == t
      ensures ok <==> saved || NothingToWrite(Loaded(old(disk)), t.prune, limits)
      ensures !ok ==> disk == old(disk) && events == old(events)
    {
      hide Evicted, Pruned, IsRun, Agree, Interrupt, Step, NothingToWrite;
      var loaded := disk - {""};
      entries := loaded;
      var aged := PruneLocked(t.prune);
      ghost var pruned := entries;
      var running := InterruptStarted(t.prune);
      OpenWrites(loaded, pruned, t.prune, limits);
      if aged || running {
        SaveLocked(t.save, saved);
        if !saved {
          return false;
        }
      }
      ReopenIsStep(states[|events|], View(), Reopen(t, pruned, entries), limits);
      Record(Reopen(t, pruned, entries));
      return true;
    }

    /** An upload attempt; it only matters for the run. */
    ghost method Uploaded(id: string, ok: bool, report: Outgoing)
      requires Valid()
      modifies this`states, this`events
      ensures Valid() && events == old(events) + [Upload(id, ok, report)]
    {
      Record(Upload(id, ok, report));
    }
  }
}

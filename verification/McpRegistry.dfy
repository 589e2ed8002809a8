/**
 * The tables of `server/mcp.go` and their critical sections. Each method is one step of the
 * specification; which cancel functions were called, and by whom the rest are owned, is ghost state.
 */
module McpRegistry {
  import opened Common
  import opened McpLeases

  /** The pruning loop of both memories: what has run out is forgotten. */
  method Prune(memory: map<string, int>, now: int) returns (kept: map<string, int>)
    ensures kept == Unexpired(memory, now)
  {
    kept := memory;
    var todo := memory.Keys;
    while todo != {}
      invariant todo <= memory.Keys
      invariant kept == map key | key in memory && (key in todo || memory[key] > now) :: memory[key]
    {
      var key :| key in todo;
      if memory[key] <= now {
        kept := kept - {key};
      }
      todo := todo - {key};
    }
  }

  /** The key whose memory runs out first. */
  method Oldest(memory: map<string, int>) returns (oldest: string)
    requires memory != map[] && "" !in memory
    ensures oldest in memory && forall key | key in memory :: memory[oldest] <= memory[key]
  {
    oldest := "";
    var first := 0;
    var todo := memory.Keys;
    while todo != {}
      invariant todo <= memory.Keys
      invariant oldest == "" ==> todo == memory.Keys
      invariant oldest != "" ==> oldest in memory && first == memory[oldest]
      invariant oldest != "" ==> forall key | key in memory && key !in todo :: first <= memory[key]
    {
      var key :| key in todo;
      if oldest == "" || memory[key] < first {
        oldest, first := key, memory[key];
      }
      todo := todo - {key};
    }
  }

  /** The eviction loop of `rememberRevokedLocked`. */
  method Cap(memory: map<string, int>, max: nat) returns (kept: map<string, int>)
    requires "" !in memory
    ensures Capped(memory, kept, max)
  {
    kept := memory;
    while |kept| > max
      invariant forall key | key in kept :: key in memory && kept[key] == memory[key]
      invariant kept != memory ==> |kept| >= max
      invariant forall gone, key | gone in memory && gone !in kept && key in kept :: memory[gone] <= kept[key]
      decreases |kept|
    {
      var oldest := Oldest(kept);
      ghost var size := |kept|;
      assert (kept - {oldest}).Keys == kept.Keys - {oldest};
      kept := kept - {oldest};
      assert |kept| == size - 1;
    }
  }

  lemma ExpireIsStep(s: Registry, lease: string)
    ensures Step(s, ExpireStep(s, lease), Event.Expire(lease))
  {
  }

  class McpRegistry {
    var runs: map<string, Run>
    var leases: map<string, Hold>
    var revoked: map<string, int>
    var cancelled: map<string, int>
    ghost var called: set<nat>
    ghost var inFlight: set<nat>
    ghost var watchers: map<nat, Watcher>

    ghost function View(): Registry
      reads this
    {
      Registry(runs, leases, revoked, cancelled, called, inFlight, watchers)
    }

    ghost predicate Valid()
      reads this
    {
      Inv(View()) && "" !in revoked
    }

    constructor ()
      ensures Valid() && View() == INITIALLY
    {
      runs, leases, revoked, cancelled := map[], map[], map[], map[];
      called, inFlight, watchers := {}, {}, map[];
    }

    method LeaseRevoked(lease: string, now: int) returns (r: bool)
      requires Valid()
      modifies this`revoked
      ensures Valid() && Step(old(View()), View(), AskRevoked(lease, now))
      ensures r == Remembers(old(revoked), lease, now)
    {
      if lease == "" || lease !in revoked {
        return false;
      }
      if revoked[lease] <= now {
        revoked := revoked - {lease};
        return false;
      }
      return true;
    }

    method OperationCancelled(task: string, now: int) returns (r: bool)
      requires Valid()
      modifies this`cancelled
      ensures Valid() && Step(old(View()), View(), AskCancelled(task, now))
      ensures r == Remembers(old(cancelled), task, now)
    {
      if task == "" || task !in cancelled {
        return false;
      }
      if cancelled[task] <= now {
        cancelled := cancelled - {task};
        return false;
      }
      return true;
    }

    /**
     * `watcher` names the goroutine a new lease gets. Without a task id nothing happens. A task id that is registered
     * already replaces its run; the tables stay in step unless another lease holds the old run.
     */
    method Register(task: string, lease: string, cancel: nat, deadline: Option<int>, now: int, ghost watcher: nat)
      returns (admitted: bool)
      requires Valid() && watcher !in watchers
      modifies this
      ensures old(Tidy(View(), Event.Register(task, lease, cancel, deadline, now, watcher))) ==> Valid()
      ensures admitted
         <==> task != "" && Admitted(old(View()), Event.Register(task, lease, cancel, deadline, now, watcher))
      ensures task != "" && !admitted ==> cancel in inFlight && runs == old(runs) && leases == old(leases)
      ensures if task == "" then View() == old(View())
              else Step(old(View()), View(), Event.Register(task, lease, cancel, deadline, now, watcher))
    {
      hide Inv, AddRun;
      if task == "" {
        return false;
      }
      ghost var e := Event.Register(task, lease, cancel, deadline, now, watcher);
      if Tidy(View(), e) {
        RegisterKeeps(View(), e);
      }
      var refused := LeaseRevoked(lease, now);
      if !refused {
        refused := OperationCancelled(task, now);
      }
      if refused {
        inFlight := inFlight + {cancel};
        return false;
      }
      Admit(task, lease, cancel, deadline, e);
      return true;
    }

    /** The end of `registerMCPRun` for a run that was not turned away. */
    method Admit(task: string, lease: string, cancel: nat, deadline: Option<int>, ghost e: Event)
      requires e.Register? && e.task == task && e.lease == lease && e.cancel == cancel && e.deadline == deadline
      modifies this`runs, this`leases, this`watchers
      ensures View() == AddRun(old(View()), e)
      ensures task in runs
    {
      runs := runs[task := Run(cancel, lease, false)];
      if lease != "" {
        if lease !in leases {
          leases := leases[lease := Hold(None, map[])];
          watchers := watchers[e.watcher := Checking(lease)];
        }
        var hold := leases[lease];
        leases := leases[lease := Hold(Later(hold.deadline, deadline), hold.cancels[task := cancel])];
      }
    }

    method Unregister(task: string)
      requires Valid()
      modifies this`runs, this`leases
      ensures Valid() && Step(old(View()), View(), Event.Unregister(task))
    {
      UnregisterKeeps(View(), task);
      if task in runs && runs[task].lease != "" && runs[task].lease in leases {
        var hold := leases[runs[task].lease];
        leases := leases[runs[task].lease := hold.(cancels := hold.cancels - {task})];
      }
      runs := runs - {task};
    }

    method Renew(lease: string, deadline: Option<int>, now: int)
      requires Valid()
      modifies this`revoked, this`leases
      ensures Valid() && Step(old(View()), View(), Event.Renew(lease, deadline, now))
    {
      RenewKeeps(View(), lease, deadline, now);
      if lease == "" {
        return;
      }
      var r := LeaseRevoked(lease, now);
      if r || lease !in leases {
        return;
      }
      leases := leases[lease := leases[lease].(deadline := Later(leases[lease].deadline, deadline))];
    }

    /** The first critical section of `revokeMCPLease`; `Expire` is the second. */
    method RevokeMark(lease: string, now: int) returns (marked: bool)
      requires Valid()
      modifies this`revoked
      ensures Valid() && marked == (lease != "")
      ensures if marked then Step(old(View()), View(), Event.RevokeMark(lease, now, revoked)) else View() == old(View())
    {
      if lease == "" {
        return false;
      }
      var until := now + REVOKE_MEMORY_TTL;
      if lease in leases && leases[lease].deadline.Some? && leases[lease].deadline.value > until {
        until := leases[lease].deadline.value;
      }
      var pruned := Prune(revoked, now);
      revoked := Cap(pruned[lease := until], REVOKE_MEMORY_MAX);
      SameTables(old(View()), View());
      return true;
    }

    /** The critical section of `expireMCPLease`. The collected cancel functions are called afterwards. */
    method Expire(lease: string) returns (cancels: set<nat>)
      requires Valid()
      modifies this`runs, this`leases, this`inFlight
      ensures Valid() && Step(old(View()), View(), Event.Expire(lease))
      ensures cancels == if lease in old(leases) then old(leases)[lease].cancels.Values else {}
      ensures inFlight == old(inFlight) + cancels
    {
      hide Inv, Step;
      ExpireKeeps(View(), lease);
      ExpireIsStep(View(), lease);
      cancels := {};
      if lease !in leases {
        return;
      }
      var held := leases[lease].cancels;
      leases := leases - {lease};
      var todo := held.Keys;
      while todo != {}
        invariant todo <= held.Keys
        invariant runs.Keys == old(runs).Keys
        invariant forall t | t in runs ::
          runs[t] == if t in held && t !in todo then old(runs)[t].(expired := true) else old(runs)[t]
        invariant cancels == set t | t in held && t !in todo :: held[t]
        invariant leases == old(leases) - {lease} && inFlight == old(inFlight)
      {
        var t :| t in todo;
        if t in runs {
          runs := runs[t := runs[t].(expired := true)];
        }
        cancels := cancels + {held[t]};
        todo := todo - {t};
      }
      inFlight := inFlight + cancels;
      assert cancels == held.Values;
      assert runs == ExpireStep(old(View()), lease).runs;
    }

    /** The critical section of `cancelMCPOperation`. */
    method CancelMark(task: string, now: int) returns (known: bool, cancel: Option<nat>)
      requires Valid()
      modifies this`cancelled, this`inFlight
      ensures Valid() && known == (task != "")
      ensures if known then Step(old(View()), View(), Event.CancelMark(task, now)) else View() == old(View())
      ensures cancel == if known && task in runs then Some(runs[task].cancel) else None
    {
      if task == "" {
        return false, None;
      }
      var pruned := Prune(cancelled, now);
      cancelled := pruned[task := now + CANCEL_MEMORY_TTL];
      known, cancel := true, None;
      if task in runs {
        cancel := Some(runs[task].cancel);
        inFlight := inFlight + {runs[task].cancel};
      }
      SameTables(old(View()), View());
    }

    /** One look of a watcher at its lease: it ends when nothing is left to watch. */
    method WatchLook(w: nat, lease: string) returns (deadline: Option<Option<int>>)
      requires Valid() && w in watchers && watchers[w] == Checking(lease)
      modifies this`leases, this`watchers
      ensures Valid() && Step(old(View()), View(), Event.WatchLook(w))
      ensures deadline == if w in watchers then Some(old(leases)[lease].deadline) else None
    {
      if lease !in leases || leases[lease].cancels == map[] {
        leases := leases - {lease};
        watchers := watchers - {w};
        WatchersKeep(old(View()), View(), Event.WatchLook(w));
        return None;
      }
      watchers := watchers[w := Looked(lease, leases[lease].deadline)];
      WatchersKeep(old(View()), View(), Event.WatchLook(w));
      return Some(leases[lease].deadline);
    }
  }
}

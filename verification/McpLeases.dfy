/**
 * Leases, cancellation and revocation of remote executions (`server/mcp.go`), as a step system. A
 * step is one critical section under the mutex, or one action between two of them. Cancel functions
 * collected by an expiry or a cancellation stay in flight until they are called.
 */
module McpLeases {
  import opened Common

  const REVOKE_MEMORY_TTL: int := 2 * 3600
  const REVOKE_MEMORY_MAX: int := 4096
  const CANCEL_MEMORY_TTL: int := 30 * 60

  datatype Run = Run(cancel: nat, lease: string, expired: bool)

  datatype Hold = Hold(deadline: Option<int>, cancels: map<string, nat>)

  /** A watcher goroutine: about to look at its lease, done looking, or decided to expire it. */
  datatype Watcher = Checking(lease: string) | Looked(lease: string, deadline: Option<int>) | Expiring(lease: string)

  datatype Registry = Registry(
    runs: map<string, Run>,
    leases: map<string, Hold>,
    revoked: map<string, int>,
    cancelled: map<string, int>,
    called: set<nat>,
    inFlight: set<nat>,
    watchers: map<nat, Watcher>)

  const INITIALLY := Registry(map[], map[], map[], map[], {}, {}, map[])

  datatype Event =
    | Register(task: string, lease: string, cancel: nat, deadline: Option<int>, now: int, watcher: nat)
    | Unregister(task: string)
    | Renew(lease: string, deadline: Option<int>, now: int)
    | RevokeMark(lease: string, now: int, kept: map<string, int>)
    | Expire(lease: string)
    | CancelMark(task: string, now: int)
    | AskRevoked(lease: string, now: int)
    | AskCancelled(task: string, now: int)
    | CallCancel(cancel: nat)
    | WatchLook(watcher: nat)
    | WatchDecide(watcher: nat, now: int)
    | WatchExpire(watcher: nat)

  /** A memory that has run out is forgotten when it is asked. */
  predicate Remembers(memory: map<string, int>, key: string, now: int) {
    key != "" && key in memory && memory[key] > now
  }

  function Asked(memory: map<string, int>, key: string, now: int): map<string, int> {
    if key != "" && key in memory && memory[key] <= now then memory - {key} else memory
  }

  function Unexpired(memory: map<string, int>, now: int): map<string, int> {
    map key | key in memory && memory[key] > now :: memory[key]
  }

  function Later(deadline: Option<int>, other: Option<int>): Option<int> {
    if other.Some? && (deadline.None? || other.value > deadline.value) then other else deadline
  }

  /** How long a revocation is remembered: two hours, or until the deadline of the lease. */
  function RevokedUntil(s: Registry, lease: string, now: int): int {
    var until := now + REVOKE_MEMORY_TTL;
    if lease in s.leases && s.leases[lease].deadline.Some? && s.leases[lease].deadline.value > until
    then s.leases[lease].deadline.value else until
  }

  /** The memory is capped by forgetting what would run out first; ties fall in map order. */
  ghost predicate Capped(before: map<string, int>, after: map<string, int>, max: int) {
    && (forall key | key in after :: key in before && after[key] == before[key])
    && |after| <= max && (after != before ==> |after| == max)
    && (forall gone, kept | gone in before && gone !in after && kept in after :: before[gone] <= after[kept])
  }

  /** Adds the run to both tables. A new lease gets a watcher. */
  function AddRun(s: Registry, e: Event): Registry
    requires e.Register?
  {
    var added := s.(runs := s.runs[e.task := Run(e.cancel, e.lease, false)]);
    if e.lease == "" then added
    else
      var hold := if e.lease in s.leases then s.leases[e.lease] else Hold(None, map[]);
      var watched :=
        if e.lease in s.leases then added else added.(watchers := s.watchers[e.watcher := Checking(e.lease)]);
      watched.(leases := s.leases[e.lease := Hold(Later(hold.deadline, e.deadline), hold.cancels[e.task := e.cancel])])
  }

  /** A run is turned away, and cancelled, while its lease or its task is remembered. */
  function RegisterStep(s: Registry, e: Event): Registry
    requires e.Register?
  {
    var seen := s.(revoked := Asked(s.revoked, e.lease, e.now));
    if Remembers(s.revoked, e.lease, e.now) then seen.(inFlight := s.inFlight + {e.cancel})
    else
      var asked := seen.(cancelled := Asked(s.cancelled, e.task, e.now));
      if Remembers(s.cancelled, e.task, e.now) then asked.(inFlight := s.inFlight + {e.cancel})
      else AddRun(asked, e)
  }

  function UnregisterStep(s: Registry, task: string): Registry {
    var gone := s.(runs := s.runs - {task});
    if task !in s.runs || s.runs[task].lease == "" || s.runs[task].lease !in s.leases then gone
    else
      var hold := s.leases[s.runs[task].lease];
      gone.(leases := s.leases[s.runs[task].lease := hold.(cancels := hold.cancels - {task})])
  }

  function RenewStep(s: Registry, lease: string, deadline: Option<int>, now: int): Registry {
    if lease == "" then s
    else
      var asked := s.(revoked := Asked(s.revoked, lease, now));
      if Remembers(s.revoked, lease, now) || lease !in s.leases then asked
      else asked.(leases := s.leases[lease := s.leases[lease].(deadline := Later(s.leases[lease].deadline, deadline))])
  }

  /** Marks every run of the lease as expired and takes its cancel functions. */
  function ExpireStep(s: Registry, lease: string): Registry {
    if lease !in s.leases then s
    else
      var cancels := s.leases[lease].cancels;
      s.(leases := s.leases - {lease},
         runs := map task | task in s.runs :: if task in cancels then s.runs[task].(expired := true) else s.runs[task],
         inFlight := s.inFlight + cancels.Values)
  }

  function CancelMarkStep(s: Registry, task: string, now: int): Registry {
    s.(cancelled := Unexpired(s.cancelled, now)[task := now + CANCEL_MEMORY_TTL],
       inFlight := s.inFlight + if task in s.runs then {s.runs[task].cancel} else {})
  }

  function WatchLookStep(s: Registry, w: nat): Registry
    requires w in s.watchers
  {
    var lease := s.watchers[w].lease;
    if lease !in s.leases || s.leases[lease].cancels == map[] then
      s.(leases := s.leases - {lease}, watchers := s.watchers - {w})
    else
      s.(watchers := s.watchers[w := Looked(lease, s.leases[lease].deadline)])
  }

  ghost predicate Step(s: Registry, s': Registry, e: Event) {
    match e
    case Register(task, _, _, _, _, watcher) => task != "" && watcher !in s.watchers && s' == RegisterStep(s, e)
    case Unregister(task) => s' == UnregisterStep(s, task)
    case Renew(lease, deadline, now) => s' == RenewStep(s, lease, deadline, now)
    case RevokeMark(lease, now, kept) =>
      && lease != "" && s' == s.(revoked := kept)
      && Capped(Unexpired(s.revoked, now)[lease := RevokedUntil(s, lease, now)], kept, REVOKE_MEMORY_MAX)
    case Expire(lease) => s' == ExpireStep(s, lease)
    case CancelMark(task, now) => task != "" && s' == CancelMarkStep(s, task, now)
    case AskRevoked(lease, now) => s' == s.(revoked := Asked(s.revoked, lease, now))
    case AskCancelled(task, now) => s' == s.(cancelled := Asked(s.cancelled, task, now))
    case CallCancel(c) => c in s.inFlight && s' == s.(inFlight := s.inFlight - {c}, called := s.called + {c})
    case WatchLook(w) => w in s.watchers && s.watchers[w].Checking? && s' == WatchLookStep(s, w)
    case WatchDecide(w, now) =>
      && w in s.watchers && s.watchers[w].Looked?
      && var Looked(lease, deadline) := s.watchers[w];
         var passed := deadline.Some? && deadline.value <= now;
         s' == s.(watchers := s.watchers[w := if passed then Expiring(lease) else Checking(lease)])
    case WatchExpire(w) =>
      && w in s.watchers && s.watchers[w].Expiring?
      && s' == ExpireStep(s, s.watchers[w].lease).(watchers := s.watchers - {w})
  }

  // ---------------------------------------------------------------- the invariant

  /** A run that has a lease and is not expired is held by that lease, with the same cancel function. */
  ghost predicate RunsAreHeld(s: Registry) {
    forall t | t in s.runs && s.runs[t].lease != "" && !s.runs[t].expired ::
      s.runs[t].lease in s.leases && t in s.leases[s.runs[t].lease].cancels
      && s.leases[s.runs[t].lease].cancels[t] == s.runs[t].cancel
  }

  /** A lease holds only registered, unexpired runs of its own. */
  ghost predicate HoldsAreRuns(s: Registry) {
    && "" !in s.leases
    && forall l, t | l in s.leases && t in s.leases[l].cancels ::
         t in s.runs && HeldBy(s.runs[t], l, s.leases[l].cancels[t])
  }

  predicate HeldBy(run: Run, lease: string, cancel: nat) {
    run.lease == lease && run.cancel == cancel && !run.expired
  }

  function Stopped(s: Registry): set<nat> {
    s.called + s.inFlight
  }

  ghost predicate ExpiredAreStopped(s: Registry) {
    forall t | t in s.runs && s.runs[t].expired :: s.runs[t].cancel in Stopped(s)
  }

  /** Every lease has a watcher that will look at it again or expire it. */
  ghost predicate LeasesAreWatched(s: Registry) {
    forall l | l in s.leases :: exists w :: w in s.watchers && s.watchers[w].lease == l
  }

  ghost predicate Inv(s: Registry) {
    RunsAreHeld(s) && HoldsAreRuns(s) && ExpiredAreStopped(s) && LeasesAreWatched(s)
  }

  /** Steps that only touch the memories or call cancel functions. */
  lemma SameTables(s: Registry, s': Registry)
    requires Inv(s) && Stopped(s) <= Stopped(s')
    requires s'.runs == s.runs && s'.leases == s.leases && s'.watchers == s.watchers
    ensures Inv(s')
  {
  }

  lemma AddRunIsHeld(s: Registry, e: Event)
    requires RunsAreHeld(s) && e.Register?
    ensures RunsAreHeld(AddRun(s, e))
  {
    hide Later;
    if e.lease != "" {
      var s' := AddRun(s, e);
      forall t | t in s'.runs && s'.runs[t].lease != "" && !s'.runs[t].expired
        ensures s'.runs[t].lease in s'.leases && t in s'.leases[s'.runs[t].lease].cancels
        ensures s'.leases[s'.runs[t].lease].cancels[t] == s'.runs[t].cancel
      {
        assert t != e.task ==> t in s.runs && s'.runs[t] == s.runs[t];
      }
    }
  }

  /**
   * A task id that is registered already replaces its run. Another lease must not hold the old run then: else that
   * lease would keep a cancel function of a run that is not its own.
   */
  predicate Replaceable(s: Registry, e: Event)
    requires e.Register?
  {
    e.task in s.runs ==> s.runs[e.task].lease == "" || s.runs[e.task].expired || s.runs[e.task].lease == e.lease
  }

  lemma AddRunHolds(s: Registry, e: Event)
    requires HoldsAreRuns(s) && e.Register? && Replaceable(s, e)
    ensures HoldsAreRuns(AddRun(s, e))
  {
    hide Later;
    var s' := AddRun(s, e);
    forall l, t | l in s'.leases && t in s'.leases[l].cancels
      ensures t in s'.runs && HeldBy(s'.runs[t], l, s'.leases[l].cancels[t])
    {
      if l in s.leases && t in s.leases[l].cancels {
        assert t in s.runs && HeldBy(s.runs[t], l, s.leases[l].cancels[t]);
      }
    }
  }

  lemma AddRunIsUnexpired(s: Registry, e: Event)
    requires ExpiredAreStopped(s) && e.Register?
    ensures ExpiredAreStopped(AddRun(s, e))
  {
    hide Later;
  }

  lemma AddRunKeepsWatchers(s: Registry, e: Event)
    requires LeasesAreWatched(s) && e.Register? && e.watcher !in s.watchers
    ensures LeasesAreWatched(AddRun(s, e))
  {
    hide Later;
    var s' := AddRun(s, e);
    forall l | l in s'.leases
      ensures exists w :: w in s'.watchers && s'.watchers[w].lease == l
    {
      if l in s.leases {
        var w :| w in s.watchers && s.watchers[w].lease == l;
        assert w in s'.watchers && s'.watchers[w].lease == l;
      } else {
        assert e.watcher in s'.watchers && s'.watchers[e.watcher].lease == l;
      }
    }
  }

  /** Adding a run keeps the tables indexing each other if and only if the run is replaceable. */
  lemma ReplacingKeepsIndexExactly(s: Registry, e: Event)
    requires Inv(s) && e.Register?
    ensures HoldsAreRuns(AddRun(s, e)) <==> Replaceable(s, e)
  {
    if Replaceable(s, e) {
      AddRunHolds(s, e);
    } else {
      var l, s' := s.runs[e.task].lease, AddRun(s, e);
      assert l in s'.leases && e.task in s'.leases[l].cancels;
      assert !HeldBy(s'.runs[e.task], l, s'.leases[l].cancels[e.task]);
    }
  }

  lemma AddRunKeeps(s: Registry, e: Event)
    requires Inv(s) && e.Register? && Replaceable(s, e) && e.watcher !in s.watchers
    ensures Inv(AddRun(s, e))
  {
    hide AddRun, RunsAreHeld, HoldsAreRuns, ExpiredAreStopped, LeasesAreWatched;
    AddRunIsHeld(s, e);
    AddRunHolds(s, e);
    AddRunIsUnexpired(s, e);
    AddRunKeepsWatchers(s, e);
  }

  /** The task is registered: neither its lease nor itself is remembered. */
  predicate Admitted(s: Registry, e: Event) {
    e.Register? && !Remembers(s.revoked, e.lease, e.now) && !Remembers(s.cancelled, e.task, e.now)
  }

  lemma RegisterKeeps(s: Registry, e: Event)
    requires Inv(s) && e.Register? && e.watcher !in s.watchers && (Admitted(s, e) ==> Replaceable(s, e))
    ensures Inv(RegisterStep(s, e))
  {
    hide AddRun, Asked, Inv, Remembers;
    var asked := s.(revoked := Asked(s.revoked, e.lease, e.now), cancelled := Asked(s.cancelled, e.task, e.now));
    SameTables(s, asked);
    if Admitted(s, e) {
      AddRunKeeps(asked, e);
    } else {
      SameTables(s, RegisterStep(s, e));
    }
  }

  lemma UnregisterKeeps(s: Registry, task: string)
    requires Inv(s)
    ensures Inv(UnregisterStep(s, task))
  {
  }

  lemma RenewKeeps(s: Registry, lease: string, deadline: Option<int>, now: int)
    requires Inv(s)
    ensures Inv(RenewStep(s, lease, deadline, now))
  {
  }

  lemma ExpireKeeps(s: Registry, lease: string)
    requires Inv(s)
    ensures Inv(ExpireStep(s, lease))
  {
    var s' := ExpireStep(s, lease);
    forall t | t in s'.runs && s'.runs[t].expired
      ensures s'.runs[t].cancel in Stopped(s')
    {
      if lease in s.leases && t in s.leases[lease].cancels {
        assert s.leases[lease].cancels[t] in s.leases[lease].cancels.Values;
      }
    }
  }

  /** A watcher may stop once its lease is gone. */
  lemma StopWatching(s: Registry, w: nat)
    requires Inv(s) && w in s.watchers && s.watchers[w].lease !in s.leases
    ensures Inv(s.(watchers := s.watchers - {w}))
  {
    var s' := s.(watchers := s.watchers - {w});
    forall l | l in s'.leases
      ensures exists v :: v in s'.watchers && s'.watchers[v].lease == l
    {
      var v :| v in s.watchers && s.watchers[v].lease == l;
      assert v in s'.watchers && s'.watchers[v].lease == l;
    }
  }

  lemma KeepWatching(s: Registry, w: nat, watcher: Watcher)
    requires Inv(s) && w in s.watchers && s.watchers[w].lease == watcher.lease
    ensures Inv(s.(watchers := s.watchers[w := watcher]))
  {
    var s' := s.(watchers := s.watchers[w := watcher]);
    forall l | l in s'.leases
      ensures exists v :: v in s'.watchers && s'.watchers[v].lease == l
    {
      var v :| v in s.watchers && s.watchers[v].lease == l;
      assert v in s'.watchers && s'.watchers[v].lease == l;
    }
  }

  lemma DropEmptyLease(s: Registry, lease: string)
    requires Inv(s) && (lease in s.leases ==> s.leases[lease].cancels == map[])
    ensures Inv(s.(leases := s.leases - {lease}))
  {
  }

  lemma WatchersKeep(s: Registry, s': Registry, e: Event)
    requires Inv(s) && Step(s, s', e) && (e.WatchLook? || e.WatchDecide? || e.WatchExpire?)
    ensures Inv(s')
  {
    hide Inv;
    var w, lease := e.watcher, s.watchers[e.watcher].lease;
    if e.WatchExpire? {
      ExpireKeeps(s, lease);
      StopWatching(ExpireStep(s, lease), w);
    } else if e.WatchLook? {
      if lease !in s.leases || s.leases[lease].cancels == map[] {
        DropEmptyLease(s, lease);
        StopWatching(s.(leases := s.leases - {lease}), w);
      } else {
        KeepWatching(s, w, Looked(lease, s.leases[lease].deadline));
      }
    } else {
      KeepWatching(s, w, Expiring(lease));
      KeepWatching(s, w, Checking(lease));
    }
  }

  /** What registrations have to keep to: a task id is not registered while another lease holds it. */
  ghost predicate Tidy(s: Registry, e: Event) {
    Admitted(s, e) ==> Replaceable(s, e)
  }

  /** The two tables index each other exactly, in every reachable state. */
  lemma StepKeepsInv(s: Registry, s': Registry, e: Event)
    requires Inv(s) && Step(s, s', e) && Tidy(s, e)
    ensures Inv(s')
  {
    hide Inv, RegisterStep, UnregisterStep, RenewStep, ExpireStep, Capped, RevokedUntil;
    match e {
      case Register(_, _, _, _, _, _) => RegisterKeeps(s, e);
      case Unregister(task) => UnregisterKeeps(s, task);
      case Renew(lease, deadline, now) => RenewKeeps(s, lease, deadline, now);
      case Expire(lease) => ExpireKeeps(s, lease);
      case WatchLook(_) => WatchersKeep(s, s', e);
      case WatchDecide(_, _) => WatchersKeep(s, s', e);
      case WatchExpire(_) => WatchersKeep(s, s', e);
      case _ => SameTables(s, s');
    }
  }

  // ---------------------------------------------------------------- what each step does, and nothing else

  /**
   * A registration is refused exactly while its lease or its task is remembered. A refused run changes no table and
   * its cancel function is taken; any other run is added to both tables.
   */
  lemma RegisterExactly(s: Registry, s': Registry, e: Event)
    requires Step(s, s', e) && e.Register?
    ensures var refused := || (e.lease != "" && e.lease in s.revoked && s.revoked[e.lease] > e.now)
                           || (e.task in s.cancelled && s.cancelled[e.task] > e.now);
            if refused then
              && s'.runs == s.runs && s'.leases == s.leases && s'.watchers == s.watchers
              && s'.inFlight == s.inFlight + {e.cancel}
            else
              && s'.runs == s.runs[e.task := Run(e.cancel, e.lease, false)] && s'.inFlight == s.inFlight
              && s'.leases.Keys == s.leases.Keys + (if e.lease == "" then {} else {e.lease})
              && (forall l | l in s.leases && (l != e.lease || l == "") :: s'.leases[l] == s.leases[l])
              && (e.lease != "" ==>
                    s'.leases[e.lease].cancels
                    == (if e.lease in s.leases then s.leases[e.lease].cancels else map[])[e.task := e.cancel])
  {
    hide Later, Asked;
  }

  lemma {:induction false} StoppedStays(states: seq<Registry>, events: seq<Event>, i: nat, k: nat, cancel: nat)
    requires IsRun(states, events) && i <= k <= |events| && cancel in states[i].called + states[i].inFlight
    ensures cancel in states[k].called + states[k].inFlight
    decreases k
  {
    hide Step, Tidy;
    if i < k {
      StoppedStays(states, events, i, k - 1, cancel);
      assert Step(states[k - 1], states[k], events[k - 1]);
      StopsOnlyGrow(states[k - 1], states[k], events[k - 1]);
    }
  }

  lemma StopsOnlyGrow(s: Registry, s': Registry, e: Event)
    requires Step(s, s', e)
    ensures s.called + s.inFlight <= s'.called + s'.inFlight
  {
    if Admitted(s, e) {
      AdmittedRun(s, s', e);
    } else {
      StepOnlyStops(s, s', e);
    }
    hide Step;
  }

  /** A run that is turned away is cancelled: from then on its cancel function has been called or is about to be. */
  lemma RefusedRunIsCancelled(states: seq<Registry>, events: seq<Event>, i: nat, k: nat)
    requires IsRun(states, events) && i < k <= |events| && events[i].Register?
    requires var s, e := states[i], events[i];
             || (e.lease != "" && e.lease in s.revoked && s.revoked[e.lease] > e.now)
             || (e.task in s.cancelled && s.cancelled[e.task] > e.now)
    ensures events[i].cancel in states[k].called + states[k].inFlight
    ensures states[i + 1].runs == states[i].runs && states[i + 1].leases == states[i].leases
  {
    hide Step, Tidy;
    assert Step(states[i], states[i + 1], events[i]);
    RegisterExactly(states[i], states[i + 1], events[i]);
    StoppedStays(states, events, i + 1, k, events[i].cancel);
  }

  /** Unregistering takes the run out of both tables and leaves everything else alone. */
  lemma UnregisterExactly(s: Registry, s': Registry, task: string)
    requires Inv(s) && Step(s, s', Unregister(task))
    ensures s'.runs == s.runs - {task} && s'.inFlight == s.inFlight && s'.called == s.called
    ensures s'.leases.Keys == s.leases.Keys
    ensures forall l | l in s.leases ::
      s'.leases[l].cancels == s.leases[l].cancels - {task} && s'.leases[l].deadline == s.leases[l].deadline
  {
    forall l | l in s.leases
      ensures s'.leases[l].cancels == s.leases[l].cancels - {task} && s'.leases[l].deadline == s.leases[l].deadline
    {
      assert task in s.leases[l].cancels ==> task in s.runs && HeldBy(s.runs[task], l, s.leases[l].cancels[task]);
    }
  }

  /** Expiring a lease stops exactly its own runs. */
  lemma ExpireExactly(s: Registry, s': Registry, lease: string)
    requires Inv(s) && Step(s, s', Expire(lease))
    ensures s'.leases == s.leases - {lease} && s'.called == s.called && s'.runs.Keys == s.runs.Keys
    ensures forall t | t in s.runs ::
      s'.runs[t] == if lease != "" && s.runs[t].lease == lease then s.runs[t].(expired := true) else s.runs[t]
    ensures s'.inFlight == s.inFlight
      + set t | t in s.runs && lease != "" && s.runs[t].lease == lease && !s.runs[t].expired :: s.runs[t].cancel
  {
    var stopped :=
      set t | t in s.runs && lease != "" && s.runs[t].lease == lease && !s.runs[t].expired :: s.runs[t].cancel;
    if lease in s.leases {
      var cancels := s.leases[lease].cancels;
      forall c ensures c in cancels.Values <==> c in stopped {
        if c in cancels.Values {
          var t :| t in cancels && cancels[t] == c;
          assert HeldBy(s.runs[t], lease, c);
        }
        if c in stopped {
          var t :| t in s.runs && s.runs[t].lease == lease && !s.runs[t].expired && s.runs[t].cancel == c;
          assert t in cancels && cancels[t] == c;
        }
      }
      assert cancels.Values == stopped;
    } else {
      assert stopped == {};
    }
  }

  /**
   * Cancelling remembers the task for thirty minutes, forgets what has run out, and takes the cancel function of its
   * run only.
   */
  lemma CancelMarkExactly(s: Registry, s': Registry, task: string, now: int)
    requires Step(s, s', CancelMark(task, now))
    ensures s'.runs == s.runs && s'.leases == s.leases && s'.called == s.called && s'.revoked == s.revoked
    ensures s'.inFlight == s.inFlight + if task in s.runs then {s.runs[task].cancel} else {}
    ensures task in s'.cancelled && s'.cancelled[task] == now + 30 * 60
    ensures forall t | t != task :: t in s'.cancelled <==> t in s.cancelled && s.cancelled[t] > now
    ensures forall t | t != task && t in s'.cancelled :: s'.cancelled[t] == s.cancelled[t]
  {
  }

  /**
   * A mark touches nothing but the memory. It forgets what has run out, and more only from a memory that is full: what
   * would run out first.
   */
  lemma RevokeMarkExactly(s: Registry, s': Registry, e: Event)
    requires Step(s, s', e) && e.RevokeMark?
    ensures s' == s.(revoked := s'.revoked) && |s'.revoked| <= 4096
    ensures forall l | l in s'.revoked && l != e.lease :: l in s.revoked && s'.revoked[l] == s.revoked[l] > e.now
    ensures e.lease in s'.revoked ==>
      var held := e.lease in s.leases && s.leases[e.lease].deadline.Some?
                  && s.leases[e.lease].deadline.value > e.now + 2 * 3600;
      s'.revoked[e.lease] == if held then s.leases[e.lease].deadline.value else e.now + 2 * 3600
    ensures e.lease !in s'.revoked ==> |s'.revoked| == 4096
    ensures forall l | l in s.revoked && s.revoked[l] > e.now && l != e.lease && l !in s'.revoked ::
      |s'.revoked| == 4096 && forall m | m in s'.revoked :: s.revoked[l] <= s'.revoked[m]
  {
  }

  /** Renewing changes at most one deadline, and only to a later one. */
  lemma RenewExactly(s: Registry, s': Registry, e: Event)
    requires Step(s, s', e) && e.Renew?
    ensures s'.runs == s.runs && s'.inFlight == s.inFlight && s'.called == s.called && s'.leases.Keys == s.leases.Keys
    ensures forall l | l in s.leases :: s'.leases[l].cancels == s.leases[l].cancels
    ensures forall l | l in s.leases && l != e.lease :: s'.leases[l] == s.leases[l]
    ensures e.lease in s.leases && e.lease != "" ==>
      var was, now := s.leases[e.lease].deadline, s'.leases[e.lease].deadline;
      if e.lease in s.revoked && s.revoked[e.lease] > e.now then now == was
      else now == if e.deadline.Some? && (was.None? || e.deadline.value > was.value) then e.deadline else was
  {
  }

  /** A watcher ends exactly when nothing is left to watch; then its lease is gone. Otherwise it reads the deadline. */
  lemma WatchLookExactly(s: Registry, s': Registry, w: nat)
    requires Step(s, s', WatchLook(w))
    ensures var lease := s.watchers[w].lease;
            if lease in s.leases && s.leases[lease].cancels != map[] then
              s'.leases == s.leases && s'.watchers == s.watchers[w := Looked(lease, s.leases[lease].deadline)]
            else
              s'.leases == s.leases - {lease} && s'.watchers == s.watchers - {w}
    ensures s'.runs == s.runs && s'.inFlight == s.inFlight
  {
  }

  /** A watcher expires its lease exactly if the deadline it has read is not in the future; no deadline never passes. */
  lemma WatchDecideExactly(s: Registry, s': Registry, w: nat, now: int)
    requires Step(s, s', WatchDecide(w, now))
    ensures s' == s.(watchers := s'.watchers) && s'.watchers.Keys == s.watchers.Keys
    ensures s'.watchers[w].lease == s.watchers[w].lease
    ensures s'.watchers[w].Expiring? <==> s.watchers[w].deadline.Some? && now >= s.watchers[w].deadline.value
    ensures !s'.watchers[w].Expiring? ==> s'.watchers[w].Checking?
    ensures forall v | v in s.watchers && v != w :: s'.watchers[v] == s.watchers[v]
  {
  }

  /** Asking forgets the answer exactly when it has run out. */
  lemma AskExactly(s: Registry, s': Registry, lease: string, now: int)
    requires Step(s, s', AskRevoked(lease, now)) && lease != ""
    ensures s' == s.(revoked := s'.revoked)
    ensures forall l :: l in s'.revoked <==> l in s.revoked && (l == lease ==> s.revoked[l] > now)
    ensures forall l | l in s'.revoked :: s'.revoked[l] == s.revoked[l]
  {
  }

  // ---------------------------------------------------------------- revoked leases and cancelled tasks

  /** Every registered run of the lease is expired and its cancel function called or in flight. */
  ghost predicate LeaseStopped(s: Registry, lease: string) {
    forall t | t in s.runs && s.runs[t].lease == lease :: s.runs[t].expired && s.runs[t].cancel in Stopped(s)
  }

  ghost predicate TaskStopped(s: Registry, task: string) {
    task in s.runs ==> s.runs[task].cancel in Stopped(s)
  }

  /** Expiring stops every run the lease has at that moment. */
  lemma ExpireStops(s: Registry, s': Registry, lease: string)
    requires Inv(s) && lease != "" && Step(s, s', Expire(lease))
    ensures LeaseStopped(s', lease)
  {
    ExpireKeeps(s, lease);
  }

  lemma CancelMarkStops(s: Registry, s': Registry, task: string, now: int)
    requires Step(s, s', CancelMark(task, now))
    ensures TaskStopped(s', task)
  {
  }

  /** What a step does to runs: it may add one at a registration, and only ever stops others. */
  ghost predicate RunsOnlyStop(s: Registry, s': Registry) {
    && Stopped(s) <= Stopped(s')
    && forall t | t in s'.runs ::
         && t in s.runs && s'.runs[t].lease == s.runs[t].lease && s'.runs[t].cancel == s.runs[t].cancel
                                  && (s.runs[t].expired ==> s'.runs[t].expired)
  }

  lemma StepOnlyStops(s: Registry, s': Registry, e: Event)
    requires Step(s, s', e) && !Admitted(s, e)
    ensures RunsOnlyStop(s, s')
  {
    hide Capped, RevokedUntil, Asked, AddRun;
  }

  lemma AdmittedRun(s: Registry, s': Registry, e: Event)
    requires Step(s, s', e) && Admitted(s, e)
    ensures Stopped(s') == Stopped(s) && s'.runs == s.runs[e.task := Run(e.cancel, e.lease, false)]
  {
    hide Asked;
  }

  /** Every registration of `lease` finds it remembered. */
  ghost predicate LeaseGuarded(s: Registry, e: Event, lease: string) {
    e.Register? && e.lease == lease ==> Remembers(s.revoked, lease, e.now)
  }

  ghost predicate TaskGuarded(s: Registry, e: Event, task: string) {
    e.Register? && e.task == task ==> Remembers(s.cancelled, task, e.now)
  }

  lemma StaysStopped(s: Registry, s': Registry, e: Event, lease: string, task: string)
    requires Step(s, s', e)
    ensures LeaseStopped(s, lease) && LeaseGuarded(s, e, lease) ==> LeaseStopped(s', lease)
    ensures TaskStopped(s, task) && TaskGuarded(s, e, task) ==> TaskStopped(s', task)
  {
    hide Step;
    if Admitted(s, e) {
      AdmittedRun(s, s', e);
    } else {
      StepOnlyStops(s, s', e);
    }
  }

  ghost predicate IsRun(states: seq<Registry>, events: seq<Event>) {
    && |states| == |events| + 1 && states[0] == INITIALLY
    && forall i | 0 <= i < |events| :: Step(states[i], states[i + 1], events[i]) && Tidy(states[i], events[i])
  }

  lemma {:induction false} RunKeepsInv(states: seq<Registry>, events: seq<Event>, k: nat)
    requires IsRun(states, events) && k <= |events|
    ensures Inv(states[k])
  {
    hide Step, Inv, Tidy;
    if k == 0 {
      assert Inv(INITIALLY) by { InitiallyInv(); }
    } else {
      RunKeepsInv(states, events, k - 1);
      StepKeepsInv(states[k - 1], states[k], events[k - 1]);
    }
  }

  lemma InitiallyInv()
    ensures Inv(INITIALLY)
  {
  }

  /**
   * Revocation works under any interleaving. After the expiry that ends a revocation, and as long as
   * every registration for the lease still finds it remembered, each registered run of the lease is
   * marked expired with its cancel function called or in flight; none is ever added.
   */
  lemma {:induction false} RevokedLeaseStaysStopped(
    states: seq<Registry>, events: seq<Event>, lease: string, i: nat, k: nat)
    requires IsRun(states, events) && i < k <= |events| && lease != ""
    requires events[i] == Expire(lease)
    requires forall m | i < m < k :: LeaseGuarded(states[m], events[m], lease)
    ensures LeaseStopped(states[k], lease)
  {
    hide Step, LeaseStopped, Inv, LeaseGuarded;
    if k == i + 1 {
      RunKeepsInv(states, events, i);
      ExpireStops(states[i], states[i + 1], lease);
    } else {
      RevokedLeaseStaysStopped(states, events, lease, i, k - 1);
      StaysStopped(states[k - 1], states[k], events[k - 1], lease, "");
    }
  }

  /** The same for a cancelled operation, whether it was running already or registers later. */
  lemma {:induction false} CancelledTaskStaysStopped(
    states: seq<Registry>, events: seq<Event>, task: string, now: int, i: nat, k: nat)
    requires IsRun(states, events) && i < k <= |events|
    requires events[i] == CancelMark(task, now)
    requires forall m | i < m < k :: TaskGuarded(states[m], events[m], task)
    ensures TaskStopped(states[k], task)
  {
    hide Step, TaskStopped, TaskGuarded;
    if k == i + 1 {
      CancelMarkStops(states[i], states[i + 1], task, now);
    } else {
      CancelledTaskStaysStopped(states, events, task, now, i, k - 1);
      StaysStopped(states[k - 1], states[k], events[k - 1], "", task);
    }
  }

  // ---------------------------------------------------------------- how long the memory lasts

  predicate ClockBefore(e: Event, until: int) {
    match e
    case Register(_, _, _, _, now, _) => now < until
    case Renew(_, _, now) => now < until
    case RevokeMark(_, now, _) => now < until
    case AskRevoked(_, now) => now < until
    case CancelMark(_, now) => now < until
    case AskCancelled(_, now) => now < until
    case _ => true
  }

  lemma AddRunKeepsMemories(s: Registry, e: Event)
    requires e.Register?
    ensures AddRun(s, e).revoked == s.revoked && AddRun(s, e).cancelled == s.cancelled
  {
  }

  /** Between two revocations the memory of revoked leases is only asked. */
  lemma OnlyAsksRevoked(s: Registry, s': Registry, e: Event)
    requires Step(s, s', e) && !e.RevokeMark?
    ensures s'.revoked == s.revoked
            || ((e.Register? || e.Renew? || e.AskRevoked?) && s'.revoked == Asked(s.revoked, e.lease, e.now))
  {
    hide RevokedUntil, Later, Unexpired, Asked, Remembers, AddRun;
    if e.Register? {
      AddRunKeepsMemories(s.(revoked := Asked(s.revoked, e.lease, e.now),
                             cancelled := Asked(s.cancelled, e.task, e.now)), e);
    }
  }

  lemma OnlyAsksCancelled(s: Registry, s': Registry, e: Event)
    requires Step(s, s', e) && !e.CancelMark?
    ensures s'.cancelled == s.cancelled
            || ((e.Register? || e.AskCancelled?) && s'.cancelled == Asked(s.cancelled, e.task, e.now))
  {
    hide RevokedUntil, Later, Unexpired, Asked, Remembers, AddRun;
    if e.Register? {
      AddRunKeepsMemories(s.(revoked := Asked(s.revoked, e.lease, e.now),
                             cancelled := Asked(s.cancelled, e.task, e.now)), e);
    }
  }

  /** A revocation survives every other step before it runs out. */
  lemma RevocationLasts(s: Registry, s': Registry, e: Event, lease: string)
    requires Step(s, s', e) && lease != "" && lease in s.revoked && ClockBefore(e, s.revoked[lease]) && !e.RevokeMark?
    ensures lease in s'.revoked && s'.revoked[lease] == s.revoked[lease]
  {
    OnlyAsksRevoked(s, s', e);
    hide Step;
  }

  /**
   * A further revocation forgets it only when the memory overflows, and then only in favour of 4096
   * others that last at least as long. The lease that was just revoked is remembered for two hours or
   * until its deadline, under the same condition.
   */
  lemma RevocationOverflow(s: Registry, s': Registry, e: Event, lease: string)
    requires Step(s, s', e) && e.RevokeMark?
    requires lease == e.lease || (lease in s.revoked && e.now < s.revoked[lease])
    ensures var until := if lease == e.lease then RevokedUntil(s, lease, e.now) else s.revoked[lease];
            && until > e.now
            && if lease in s'.revoked then s'.revoked[lease] == until
               else |s'.revoked| == 4096 && forall l | l in s'.revoked :: until <= s'.revoked[l]
  {
  }

  /**
   * Revoking a lease again can shorten its memory: exactly when what is remembered lasts longer than two hours from
   * now and the lease is no longer held with a deadline that late.
   */
  lemma RevokingAgainShortensExactly(s: Registry, s': Registry, e: Event)
    requires Step(s, s', e) && e.RevokeMark? && e.lease in s.revoked && e.lease in s'.revoked
    ensures s'.revoked[e.lease] < s.revoked[e.lease]
            <==> && s.revoked[e.lease] > e.now + 2 * 3600
                 && !(e.lease in s.leases && s.leases[e.lease].deadline.Some?
                      && s.leases[e.lease].deadline.value >= s.revoked[e.lease])
  {
    RevocationOverflow(s, s', e, e.lease);
    hide Step;
  }

  /** A step before `until` that does not revoke the lease again for a shorter time. */
  ghost predicate Undisturbed(s: Registry, e: Event, lease: string, until: int) {
    ClockBefore(e, until) && (e.RevokeMark? && e.lease == lease ==> RevokedUntil(s, lease, e.now) >= until)
  }

  /** The other leases that are remembered at least until then. */
  function Rivals(revoked: map<string, int>, lease: string, until: int): set<string> {
    set l | l in revoked && l != lease && revoked[l] >= until
  }

  predicate MarksOther(e: Event, lease: string) {
    e.RevokeMark? && e.lease != lease
  }

  /** How many revocations of other leases there are between two steps. */
  function OtherMarks(events: seq<Event>, lease: string, from: nat, k: nat): nat
    requires from <= k <= |events|
  {
    if from == k then 0
    else OtherMarks(events, lease, from, k - 1) + if MarksOther(events[k - 1], lease) then 1 else 0
  }

  lemma RivalsGrow(s: Registry, s': Registry, e: Event, lease: string, until: int)
    requires Step(s, s', e)
    ensures |Rivals(s'.revoked, lease, until)|
            <= |Rivals(s.revoked, lease, until)| + if MarksOther(e, lease) then 1 else 0
  {
    var before, after := Rivals(s.revoked, lease, until), Rivals(s'.revoked, lease, until);
    if e.RevokeMark? {
      assert after <= before + if MarksOther(e, lease) then {e.lease} else {};
      SubsetSize(after, before + if MarksOther(e, lease) then {e.lease} else {});
    } else {
      OnlyAsksRevoked(s, s', e);
      hide Step;
      SubsetSize(after, before);
    }
  }

  /** Below the cap of rivals a mark keeps the lease: its own, or that of another lease. */
  lemma FewRivalsKeep(s: Registry, s': Registry, e: Event, lease: string, until: int)
    requires Step(s, s', e) && e.RevokeMark? && e.now < until
    requires if lease == e.lease then RevokedUntil(s, lease, e.now) >= until
             else lease in s.revoked && s.revoked[lease] >= until
    requires |Rivals(s'.revoked, lease, until)| < REVOKE_MEMORY_MAX
    ensures lease in s'.revoked && s'.revoked[lease] >= until
  {
    hide Step, RevokedUntil, Rivals;
    RevocationOverflow(s, s', e, lease);
    if lease !in s'.revoked {
      AllAreRivals(s'.revoked, lease, until);
    }
  }

  lemma AllAreRivals(revoked: map<string, int>, lease: string, until: int)
    requires lease !in revoked && forall l | l in revoked :: until <= revoked[l]
    ensures |Rivals(revoked, lease, until)| == |revoked|
  {
    assert Rivals(revoked, lease, until) == revoked.Keys;
  }

  /**
   * How long a revocation is remembered: for two hours, or until the deadline that the lease had when that is later. It
   * is enough that the leases remembered at least as long, together with the later revocations of other leases, stay
   * below 4096, and that the lease is not revoked again for a shorter time.
   */
  lemma {:induction false} RevocationIsRemembered(
    states: seq<Registry>, events: seq<Event>, lease: string, r: nat, k: nat)
    requires IsRun(states, events) && r < k <= |events| && lease != ""
    requires events[r].RevokeMark? && events[r].lease == lease
    requires var until := RevokedUntil(states[r], lease, events[r].now);
             && |Rivals(states[r].revoked, lease, until)| + OtherMarks(events, lease, r, k) < 4096
             && forall m | r < m < k :: Undisturbed(states[m], events[m], lease, until)
    ensures var until := RevokedUntil(states[r], lease, events[r].now);
            && lease in states[k].revoked && states[k].revoked[lease] >= until
            && |Rivals(states[k].revoked, lease, until)|
               <= |Rivals(states[r].revoked, lease, until)| + OtherMarks(events, lease, r, k)
  {
    hide Step, Capped, RevokedUntil, Tidy, Rivals;
    var until := RevokedUntil(states[r], lease, events[r].now);
    var s, s', e := states[k - 1], states[k], events[k - 1];
    assert Step(s, s', e);
    RivalsGrow(s, s', e, lease, until);
    if k == r + 1 {
      UntilIsLater(s, lease, e.now);
      FewRivalsKeep(s, s', e, lease, until);
    } else {
      RevocationIsRemembered(states, events, lease, r, k - 1);
      assert Undisturbed(s, e, lease, until);
      if e.RevokeMark? {
        FewRivalsKeep(s, s', e, lease, until);
      } else {
        RevocationLasts(s, s', e, lease);
      }
    }
  }

  lemma UntilIsLater(s: Registry, lease: string, now: int)
    ensures RevokedUntil(s, lease, now) >= now + 2 * 3600
  {
  }

  /**
   * A complete revocation: its mark at step r, its expiry at step i. For two hours, or until the later deadline of
   * the lease, and unless 4096 longer-lasting revocations push it out or it is revoked again for a shorter time,
   * every registered run of the lease is stopped.
   */
  lemma RevokedLeaseIsStopped(states: seq<Registry>, events: seq<Event>, lease: string, r: nat, i: nat, k: nat)
    requires IsRun(states, events) && r < i < k <= |events| && lease != ""
    requires events[r].RevokeMark? && events[r].lease == lease
    requires events[i] == Expire(lease)
    requires var until := RevokedUntil(states[r], lease, events[r].now);
             && |Rivals(states[r].revoked, lease, until)| + OtherMarks(events, lease, r, k) < 4096
             && forall m | r < m < k :: Undisturbed(states[m], events[m], lease, until)
    ensures LeaseStopped(states[k], lease)
  {
    hide Step, LeaseStopped, RevokedUntil, Tidy, Rivals, OtherMarks;
    forall m | i < m < k
      ensures LeaseGuarded(states[m], events[m], lease)
    {
      MarksOnlyGrow(events, lease, r, m, k);
      RevocationIsRemembered(states, events, lease, r, m);
      assert Undisturbed(states[m], events[m], lease, RevokedUntil(states[r], lease, events[r].now));
    }
    RevokedLeaseStaysStopped(states, events, lease, i, k);
  }

  lemma {:induction false} MarksOnlyGrow(events: seq<Event>, lease: string, from: nat, m: nat, k: nat)
    requires from <= m <= k <= |events|
    ensures OtherMarks(events, lease, from, m) <= OtherMarks(events, lease, from, k)
    decreases k
  {
    if m < k {
      MarksOnlyGrow(events, lease, from, m, k - 1);
    }
  }

  /** A step within the half hour from `since`; cancelling the task again counts from its own, later clock. */
  ghost predicate WithinCancel(e: Event, task: string, since: int) {
    ClockBefore(e, since + 30 * 60) && (e.CancelMark? && e.task == task ==> since <= e.now)
  }

  lemma CancellationLasts(s: Registry, s': Registry, e: Event, task: string, since: int)
    requires Step(s, s', e) && task != "" && WithinCancel(e, task, since)
    requires task in s.cancelled && s.cancelled[task] >= since + 30 * 60
    ensures task in s'.cancelled && s'.cancelled[task] >= since + 30 * 60
  {
    if e.CancelMark? {
      assert s' == CancelMarkStep(s, e.task, e.now);
    } else {
      OnlyAsksCancelled(s, s', e);
    }
    hide Step;
  }

  lemma CancelMarkRemembers(s: Registry, s': Registry, e: Event)
    requires Step(s, s', e) && e.CancelMark?
    ensures e.task != "" && e.task in s'.cancelled && s'.cancelled[e.task] == e.now + CANCEL_MEMORY_TTL
  {
  }

  /** A cancellation is remembered for half an hour: nothing caps this memory. */
  lemma {:induction false} CancellationIsRemembered(
    states: seq<Registry>, events: seq<Event>, task: string, i: nat, k: nat)
    requires IsRun(states, events) && i < k <= |events|
    requires events[i].CancelMark? && events[i].task == task
    requires forall m | i < m < k :: WithinCancel(events[m], task, events[i].now)
    ensures task != ""
    ensures task in states[k].cancelled && states[k].cancelled[task] >= events[i].now + 30 * 60
  {
    hide Step, Tidy;
    assert Step(states[k - 1], states[k], events[k - 1]);
    if k == i + 1 {
      CancelMarkRemembers(states[i], states[k], events[i]);
    } else {
      CancellationIsRemembered(states, events, task, i, k - 1);
      CancellationLasts(states[k - 1], states[k], events[k - 1], task, events[i].now);
    }
  }

  /** A cancelled operation is stopped for half an hour, whether it was running already or registers later. */
  lemma CancelledTaskIsStopped(states: seq<Registry>, events: seq<Event>, task: string, i: nat, k: nat)
    requires IsRun(states, events) && i < k <= |events|
    requires events[i].CancelMark? && events[i].task == task
    requires forall m | i < m < k :: WithinCancel(events[m], task, events[i].now)
    ensures TaskStopped(states[k], task)
  {
    assert Step(states[i], states[i + 1], events[i]);
    assert task != "";
    hide Step, TaskStopped, Tidy;
    forall m | i < m < k
      ensures TaskGuarded(states[m], events[m], task)
    {
      CancellationIsRemembered(states, events, task, i, m);
      assert WithinCancel(events[m], task, events[i].now);
    }
    CancelledTaskStaysStopped(states, events, task, events[i].now, i, k);
  }

  // ---------------------------------------------------------------- early expiry

  predicate Passed(deadline: Option<int>, clock: int) {
    deadline.Some? && deadline.value <= clock
  }

  /** The lease is held and its deadline has not passed. */
  predicate Ahead(s: Registry, lease: string, clock: int) {
    lease in s.leases && !Passed(s.leases[lease].deadline, clock)
  }

  function DeadlineOf(s: Registry, lease: string): Option<int> {
    if lease in s.leases then s.leases[lease].deadline else None
  }

  /** What a step gives to the lease: a registration that is admitted, or a renewal of a lease that is not revoked. */
  function Given(s: Registry, e: Event, lease: string): Option<int> {
    match e
    case Register(_, l, _, deadline, _, _) => if l == lease && Admitted(s, e) then deadline else None
    case Renew(l, deadline, now) => if l == lease && !Remembers(s.revoked, lease, now) then deadline else None
    case _ => None
  }

  /** While a lease is held, its deadline is the latest that was given. Only a registration brings a lease back. */
  lemma DeadlineStep(s: Registry, s': Registry, e: Event, lease: string)
    requires Step(s, s', e) && lease in s'.leases && lease != ""
    ensures DeadlineOf(s', lease) == Later(DeadlineOf(s, lease), Given(s, e, lease))
    ensures lease !in s.leases ==> e.Register?
  {
    hide Capped, RevokedUntil, Asked, Remembers, Unexpired, AddRun;
    if e.Register? {
      AddRunGivesDeadline(s.(revoked := Asked(s.revoked, e.lease, e.now),
                             cancelled := Asked(s.cancelled, e.task, e.now)), e, lease);
    }
  }

  lemma AddRunGivesDeadline(s: Registry, e: Event, lease: string)
    requires e.Register? && lease != ""
    ensures lease in AddRun(s, e).leases <==> lease in s.leases || e.lease == lease
    ensures lease in AddRun(s, e).leases ==>
      DeadlineOf(AddRun(s, e), lease) == Later(DeadlineOf(s, lease), if e.lease == lease then e.deadline else None)
  {
  }

  /** Held at every step after b, up to step k. */
  ghost predicate HeldSince(states: seq<Registry>, b: nat, k: nat, lease: string)
    requires k < |states|
  {
    forall q | b < q <= k :: lease in states[q].leases
  }

  /** A step from b on gives the lease a deadline past the clock. */
  ghost predicate GivenPast(states: seq<Registry>, events: seq<Event>, b: nat, k: nat, lease: string, clock: int)
    requires k <= |events| <= |states|
  {
    exists m | b <= m < k :: IsPast(Given(states[m], events[m], lease), clock)
  }

  predicate IsPast(deadline: Option<int>, clock: int) {
    deadline.Some? && deadline.value > clock
  }

  /** No step from b on gives the lease any deadline. */
  ghost predicate NoneGiven(states: seq<Registry>, events: seq<Event>, b: nat, k: nat, lease: string)
    requires k <= |events| <= |states|
  {
    forall m | b <= m < k :: Given(states[m], events[m], lease).None?
  }

  /** The deadline of a lease that is held since step b, in terms of what was given to it. */
  lemma {:induction false} DeadlineSince(
    states: seq<Registry>, events: seq<Event>, b: nat, k: nat, lease: string, clock: int)
    requires IsRun(states, events) && b < k <= |events| && lease != "" && HeldSince(states, b, k, lease)
    ensures DeadlineOf(states[k], lease).None?
            <==> DeadlineOf(states[b], lease).None? && NoneGiven(states, events, b, k, lease)
    ensures IsPast(DeadlineOf(states[k], lease), clock)
            <==> GivenPast(states, events, b, k, lease, clock) || IsPast(DeadlineOf(states[b], lease), clock)
  {
    hide Step, Tidy, Given, DeadlineOf, GivenPast, NoneGiven;
    assert Step(states[k - 1], states[k], events[k - 1]);
    DeadlineStep(states[k - 1], states[k], events[k - 1], lease);
    GivenSteps(states, events, b, k, lease, clock);
    if b == k - 1 {
      GivenNothing(states, events, b, lease, clock);
    } else {
      DeadlineSince(states, events, b, k - 1, lease, clock);
    }
  }

  lemma GivenNothing(states: seq<Registry>, events: seq<Event>, b: nat, lease: string, clock: int)
    requires b <= |events| <= |states|
    ensures !GivenPast(states, events, b, b, lease, clock) && NoneGiven(states, events, b, b, lease)
  {
  }

  lemma GivenSteps(states: seq<Registry>, events: seq<Event>, b: nat, k: nat, lease: string, clock: int)
    requires b < k <= |events| <= |states|
    ensures var d := Given(states[k - 1], events[k - 1], lease);
            && (GivenPast(states, events, b, k, lease, clock)
                <==> GivenPast(states, events, b, k - 1, lease, clock) || IsPast(d, clock))
            && (NoneGiven(states, events, b, k, lease) <==> NoneGiven(states, events, b, k - 1, lease) && d.None?)
  {
    hide Given, IsPast;
    if m :| b <= m < k && IsPast(Given(states[m], events[m], lease), clock) && m < k - 1 {
      assert GivenPast(states, events, b, k - 1, lease, clock);
    }
    assert IsPast(Given(states[k - 1], events[k - 1], lease), clock) ==> GivenPast(states, events, b, k, lease, clock);
  }

  /** Since when a lease is held: from step a on, or from a later step at which it was not. */
  lemma {:induction false} HeldFrom(states: seq<Registry>, a: nat, k: nat, lease: string) returns (b: nat)
    requires a < k < |states| && lease in states[k].leases
    ensures a <= b < k && HeldSince(states, b, k, lease) && (b == a || lease !in states[b].leases)
  {
    b := k - 1;
    if a < k - 1 && lease in states[k - 1].leases {
      b := HeldFrom(states, a, k - 1, lease);
    }
  }

  /** A watcher only gets to a state by its own steps. */
  lemma WatcherSteps(s: Registry, s': Registry, e: Event, w: nat)
    requires Step(s, s', e) && w in s'.watchers && !s'.watchers[w].Checking?
    ensures w in s.watchers && s.watchers[w].lease == s'.watchers[w].lease
    ensures || s.watchers[w] == s'.watchers[w]
            || (e == WatchLook(w) && s.watchers[w].Checking? && s'.watchers[w].Looked?
                && s'.watchers[w].lease in s.leases
                && s'.watchers[w].deadline == s.leases[s'.watchers[w].lease].deadline)
            || (e.WatchDecide? && e.watcher == w && s.watchers[w].Looked? && s'.watchers[w].Expiring?
                && Passed(s.watchers[w].deadline, e.now))
  {
    hide Capped, RevokedUntil, Asked, Remembers, Later, Unexpired;
  }

  /** The look of a watcher that has looked. */
  lemma {:induction false} LookOf(states: seq<Registry>, events: seq<Event>, n: nat, w: nat) returns (a: nat)
    requires IsRun(states, events) && n <= |events| && w in states[n].watchers && states[n].watchers[w].Looked?
    ensures a < n && events[a] == WatchLook(w)
    ensures var Looked(lease, deadline) := states[n].watchers[w];
            lease in states[a].leases && states[a].leases[lease].deadline == deadline
  {
    hide Step, Tidy;
    assert n > 0;
    assert Step(states[n - 1], states[n], events[n - 1]);
    WatcherSteps(states[n - 1], states[n], events[n - 1], w);
    a := n - 1;
    if states[n - 1].watchers[w] == states[n].watchers[w] {
      a := LookOf(states, events, n - 1, w);
    }
  }

  /** The look and the decision of a watcher that is about to expire its lease. */
  lemma {:induction false} DecisionOf(states: seq<Registry>, events: seq<Event>, n: nat, w: nat)
    returns (a: nat, c: nat)
    requires IsRun(states, events) && n <= |events| && w in states[n].watchers && states[n].watchers[w].Expiring?
    ensures a < c < n && events[a] == WatchLook(w) && events[c].WatchDecide? && events[c].watcher == w
    ensures var lease := states[n].watchers[w].lease;
            lease in states[a].leases && Passed(states[a].leases[lease].deadline, events[c].now)
  {
    hide Step, Tidy;
    assert n > 0;
    assert Step(states[n - 1], states[n], events[n - 1]);
    WatcherSteps(states[n - 1], states[n], events[n - 1], w);
    if states[n - 1].watchers[w] == states[n].watchers[w] {
      a, c := DecisionOf(states, events, n - 1, w);
    } else {
      c := n - 1;
      a := LookOf(states, events, n - 1, w);
    }
  }

  /**
   * When a watcher expires a lease too early. In any run, a watcher that expires its lease at step k looked at it at
   * some step a and compared what it read with the clock at some step c. If the lease is still held at step k, it is
   * held since some step b: since the look, or since a registration brought it back. Its deadline lies ahead of the
   * compared clock if and only if a step since b gave it one past that clock, or it was brought back and has been
   * given none.
   */
  lemma EarlyExpiryExactly(states: seq<Registry>, events: seq<Event>, k: nat, w: nat) returns (a: nat, c: nat, b: nat)
    requires IsRun(states, events) && k < |events| && events[k] == WatchExpire(w)
    ensures a < c < k && events[a] == WatchLook(w) && events[c].WatchDecide? && events[c].watcher == w
    ensures w in states[k].watchers
    ensures var lease, clock := states[k].watchers[w].lease, events[c].now;
            && Passed(DeadlineOf(states[a], lease), clock)
            && (lease in states[k].leases ==>
                  && a <= b < k && HeldSince(states, b, k, lease) && (b == a || lease !in states[b].leases)
                  && (Ahead(states[k], lease, clock)
                      <==> || GivenPast(states, events, b, k, lease, clock)
                           || (b > a && NoneGiven(states, events, b, k, lease))))
  {
    assert Step(states[k], states[k + 1], events[k]);
    hide Step, Tidy, Inv;
    a, c := DecisionOf(states, events, k, w);
    b := a;
    var lease, clock := states[k].watchers[w].lease, events[c].now;
    if lease in states[k].leases {
      RunKeepsInv(states, events, k);
      NamedLeases(states[k]);
      b := HeldFrom(states, a, k, lease);
      DeadlineSince(states, events, b, k, lease, clock);
    }
  }

  lemma NamedLeases(s: Registry)
    requires Inv(s)
    ensures "" !in s.leases
  {
  }

  /** One registered run whose watcher is `w` and whose lease is held until `deadline`. */
  function OneRun(deadline: int, w: Watcher): Registry {
    Registry(map["t" := Run(0, "l", false)], map["l" := Hold(Some(deadline), map["t" := 0])],
             map[], map[], {}, {}, map[0 := w])
  }

  lemma RegisterOneRun()
    ensures Step(INITIALLY, OneRun(10, Checking("l")), Register("t", "l", 0, Some(10), 0, 0))
  {
    assert Asked(map[], "l", 0) == map[] && Asked(map[], "t", 0) == map[];
  }

  lemma RenewOneRun(w: Watcher)
    ensures Step(OneRun(10, w), OneRun(100, w), Renew("l", Some(100), 9))
  {
    assert Later(Some(10), Some(100)) == Some(100);
  }

  lemma ExpireOneRun()
    ensures var s := OneRun(100, Expiring("l"));
            Step(s, ExpireStep(s, "l").(watchers := map[]), WatchExpire(0)) && "l" !in ExpireStep(s, "l").leases
  {
    assert OneRun(100, Expiring("l")).watchers - {0} == map[];
  }

  lemma LookAtOneRun(c: Watcher, looked: Watcher)
    requires c == Checking("l") && looked == Looked("l", Some(10))
    ensures Step(OneRun(10, c), OneRun(10, looked), WatchLook(0))
  {
    var s := OneRun(10, c);
    assert s.watchers[0] == c && s.leases[c.lease] == Hold(Some(10), map["t" := 0]);
    assert "t" in s.leases[c.lease].cancels;
    assert s.(watchers := s.watchers[0 := looked]) == OneRun(10, looked);
  }

  lemma DecideOneRun(looked: Watcher, x: Watcher)
    requires looked == Looked("l", Some(10)) && x == Expiring("l")
    ensures Step(OneRun(100, looked), OneRun(100, x), WatchDecide(0, 20))
  {
    var s := OneRun(100, looked);
    assert s.watchers[0] == looked && s.(watchers := s.watchers[0 := x]) == OneRun(100, x);
  }

  lemma NothingToReplace()
    ensures Replaceable(INITIALLY, Register("t", "l", 0, Some(10), 0, 0))
  {
  }

  /** The input behind it: a lease renewed after the look of its watcher expires although its deadline lies ahead. */
  lemma RenewedLeaseCanExpire() returns (states: seq<Registry>, events: seq<Event>)
    ensures IsRun(states, events) && |events| == 5
    ensures "l" in states[4].leases && states[4].leases["l"].deadline == Some(100)
    ensures events[3] == WatchDecide(0, 20) && events[4] == WatchExpire(0) && "l" !in states[5].leases
  {
    var c, looked, x := Checking("l"), Looked("l", Some(10)), Expiring("l");
    RegisterOneRun();
    RenewOneRun(looked);
    ExpireOneRun();
    LookAtOneRun(c, looked);
    DecideOneRun(looked, x);
    hide Step, ExpireStep, Replaceable;
    assert Replaceable(INITIALLY, Register("t", "l", 0, Some(10), 0, 0)) by { NothingToReplace(); }
    states := [INITIALLY, OneRun(10, c), OneRun(10, looked), OneRun(100, looked), OneRun(100, x),
               ExpireStep(OneRun(100, x), "l").(watchers := map[])];
    events := [Register("t", "l", 0, Some(10), 0, 0), WatchLook(0), Renew("l", Some(100), 9),
               WatchDecide(0, 20), WatchExpire(0)];
  }
}

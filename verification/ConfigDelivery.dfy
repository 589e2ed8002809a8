/**
 * Delivery of configuration results (`server/runtime_config_delivery.go`): revisions are processed one
 * at a time under the apply mutex, their result waits in `pendingConfigResult`, and uploads that may
 * interleave or nest (`server/basicInfo.go`) snapshot it, post it and clear it.
 */
module ConfigDelivery {
  import opened Common
  import opened RuntimeConfig
  import opened Text

  datatype ConfigResult = ConfigResult(revision: Uint64, eventID: string, applied: bool, error: string)

  // ---------------------------------------------------------------- the pending result

  function SetPending(pending: Option<ConfigResult>, result: ConfigResult): Option<ConfigResult> {
    if pending.Some? && pending.value.revision > result.revision then pending else Some(result)
  }

  /** The error text is not compared. */
  predicate SameResult(a: ConfigResult, b: ConfigResult) {
    a.revision == b.revision && a.applied == b.applied && a.eventID == b.eventID
  }

  function ClearPending(pending: Option<ConfigResult>, sent: Option<ConfigResult>): Option<ConfigResult> {
    if pending.Some? && sent.Some? && SameResult(pending.value, sent.value) then None else pending
  }

  // ---------------------------------------------------------------- the step system

  /** Where `processRuntimeConfig` stands while it holds the apply mutex. */
  datatype Phase =
    | Idle
    | Storing(result: ConfigResult)
    | Marking(result: ConfigResult)
    | Publishing(result: ConfigResult)

  /** An upload after its snapshot; `Arrived` once its post has succeeded. */
  datatype Upload = Sending(sent: Option<ConfigResult>) | Arrived(sent: Option<ConfigResult>)

  /** `published` and `delivered` are history: each revision's result, and the results of successful posts. */
  datatype State = State(
    processed: Uint64, applied: Uint64, pending: Option<ConfigResult>, runtime: Runtime, phase: Phase,
    uploads: map<nat, Upload>, published: map<Uint64, ConfigResult>, delivered: set<ConfigResult>)

  datatype Event =
    | Start(config: Params, eventID: string, message: string, env: Env, after: Runtime,
            outcome: Result<bool, ApplyError>)
    | StoreProcessed
    | MarkApplied
    | Publish
    | BeginUpload(id: nat)
    | PostFails(id: nat)
    | PostSucceeds(id: nat)
    | Abandon(id: nat)
    | Clear(id: nat)
    | Report

  predicate Stale(processed: Uint64, config: Params) {
    config.revision > 0 && config.revision <= processed
  }

  function ResultOf(config: Params, eventID: string, message: string, outcome: Result<bool, ApplyError>): ConfigResult {
    ConfigResult(config.revision, eventID, outcome.Ok?, if outcome.Ok? then "" else Sanitized(message))
  }

  function Started(s: State, e: Event): State
    requires e.Start?
  {
    if Stale(s.processed, e.config) then s
    else if e.config.revision == 0 then s.(runtime := e.after)
    else s.(runtime := e.after, phase := Storing(ResultOf(e.config, e.eventID, e.message, e.outcome)))
  }

  function Stored(s: State): State
    requires s.phase.Storing?
  {
    s.(processed := s.phase.result.revision, phase := Marking(s.phase.result))
  }

  function Marked(s: State): State
    requires s.phase.Marking?
  {
    s.(applied := if s.phase.result.applied then s.phase.result.revision else s.applied,
       phase := Publishing(s.phase.result))
  }

  function Published(s: State): State
    requires s.phase.Publishing?
  {
    s.(pending := SetPending(s.pending, s.phase.result), phase := Idle,
       published := s.published[s.phase.result.revision := s.phase.result])
  }

  function DeliveredBy(sent: Option<ConfigResult>): set<ConfigResult> {
    if sent.Some? then {sent.value} else {}
  }

  /** A config that is not stale is applied; a stale one touches nothing. */
  ghost predicate StartsWell(s: State, e: Event)
    requires e.Start?
  {
    s.phase == Idle && (Stale(s.processed, e.config) || Applies(s.runtime, e.config, e.env, e.after, e.outcome))
  }

  ghost predicate Step(s: State, e: Event, s': State) {
    match e
    case Start(_, _, _, _, _, _) => StartsWell(s, e) && s' == Started(s, e)
    case StoreProcessed => s.phase.Storing? && s' == Stored(s)
    case MarkApplied => s.phase.Marking? && s' == Marked(s)
    case Publish => s.phase.Publishing? && s' == Published(s)
    case BeginUpload(id) => id !in s.uploads && s' == s.(uploads := s.uploads[id := Sending(s.pending)])
    case PostFails(id) => id in s.uploads && s.uploads[id].Sending? && s' == s.(uploads := s.uploads - {id})
    case PostSucceeds(id) => (
      && id in s.uploads && s.uploads[id].Sending?
      && s' == s.(uploads := s.uploads[id := Arrived(s.uploads[id].sent)],
                  delivered := s.delivered + DeliveredBy(s.uploads[id].sent)))
    case Abandon(id) => id in s.uploads && s.uploads[id].Arrived? && s' == s.(uploads := s.uploads - {id})
    case Clear(id) => (
      && id in s.uploads && s.uploads[id].Arrived?
      && s' == s.(uploads := s.uploads - {id}, pending := ClearPending(s.pending, s.uploads[id].sent)))
    case Report => s' == s.(runtime := Reported(s.runtime))
  }

  function Initial(runtime: Runtime): State {
    State(0, 0, None, runtime, Idle, map[], map[], {})
  }

  ghost predicate IsRun(states: seq<State>, events: seq<Event>) {
    && |states| == |events| + 1
    && states[0] == Initial(states[0].runtime)
    && (forall i :: 0 <= i < |events| ==> Step(states[i], events[i], states[i + 1]))
  }

  // ---------------------------------------------------------------- the invariant

  /** The latest revision whose result has been published, zero when there is none. */
  ghost predicate IsLatest(published: map<Uint64, ConfigResult>, r: Uint64) {
    (r == 0 || r in published) && (forall k :: k in published ==> k <= r)
  }

  predicate Known(s: State, r: ConfigResult) {
    r.revision in s.published && s.published[r.revision] == r
  }

  ghost predicate PhaseInv(s: State) {
    match s.phase
    case Idle => IsLatest(s.published, s.processed)
    case Storing(r) => IsLatest(s.published, s.processed) && s.processed < r.revision
    case Marking(r) => 0 < r.revision == s.processed && (forall k :: k in s.published ==> k < s.processed)
    case Publishing(r) => 0 < r.revision == s.processed && (forall k :: k in s.published ==> k < s.processed)
  }

  /** `applied` is the greatest revision whose result says applied. */
  ghost predicate AppliedInv(s: State) {
    && (forall k :: k in s.published && s.published[k].applied ==> k <= s.applied)
    && (s.applied > 0 ==>
          || (s.phase.Publishing? && s.phase.result.applied && s.applied == s.phase.result.revision)
          || (s.applied in s.published && s.published[s.applied].applied))
    && (s.phase.Publishing? && s.phase.result.applied ==> s.applied == s.phase.result.revision)
  }

  /** The latest published result waits or has arrived with a successful post; nothing older waits. */
  ghost predicate PendingInv(s: State) {
    && (s.pending.Some? ==> Known(s, s.pending.value) && IsLatest(s.published, s.pending.value.revision))
    && (s.pending.None? ==> forall k :: k in s.published && IsLatest(s.published, k) ==> s.published[k] in s.delivered)
  }

  ghost predicate UploadInv(s: State) {
    && (forall k :: k in s.published ==> s.published[k].revision == k && k > 0)
    && (forall id :: id in s.uploads && s.uploads[id].sent.Some? ==> Known(s, s.uploads[id].sent.value))
    && (forall id :: id in s.uploads && s.uploads[id].Arrived? && s.uploads[id].sent.Some? ==>
          s.uploads[id].sent.value in s.delivered)
    && (forall r :: r in s.delivered ==> Known(s, r))
  }

  ghost predicate Inv(s: State) {
    PhaseInv(s) && AppliedInv(s) && PendingInv(s) && UploadInv(s)
  }

  lemma StepKeepsPhase(s: State, e: Event, s': State)
    requires Inv(s) && Step(s, e, s')
    ensures PhaseInv(s')
  {
    hide Applies, AppliedInv, PendingInv, UploadInv;
  }

  lemma StepKeepsApplied(s: State, e: Event, s': State)
    requires Inv(s) && Step(s, e, s')
    ensures AppliedInv(s')
  {
    hide Applies, PendingInv, UploadInv;
  }

  /** The published result is the latest, and every older result keeps its place. */
  lemma PublishKeepsPending(s: State)
    requires Inv(s) && s.phase.Publishing? && s.phase.result.revision > 0
    ensures PendingInv(Published(s)) && UploadInv(Published(s))
  {
    hide AppliedInv;
    var s' := Published(s);
    assert s'.pending == Some(s.phase.result);
    assert IsLatest(s'.published, s'.processed);
  }

  /** What is cleared has been delivered: equal revisions are the same result. */
  lemma ClearKeepsPending(s: State, id: nat)
    requires Inv(s) && id in s.uploads && s.uploads[id].Arrived?
    ensures PendingInv(s.(pending := ClearPending(s.pending, s.uploads[id].sent)))
  {
    hide AppliedInv, PhaseInv;
    var sent := s.uploads[id].sent;
    if s.pending.Some? && ClearPending(s.pending, sent).None? {
      assert s.pending.value == sent.value && sent.value in s.delivered;
      forall k | k in s.published && IsLatest(s.published, k) ensures s.published[k] in s.delivered {
        assert IsLatest(s.published, s.pending.value.revision);
        assert k == s.pending.value.revision;
      }
    }
  }

  lemma StepKeepsUploads(s: State, e: Event, s': State)
    requires Inv(s) && Step(s, e, s')
    ensures UploadInv(s')
  {
    hide IsLatest, AppliedInv, Applies;
    if e.Publish? {
      PublishKeepsPending(s);
    }
  }

  lemma StepKeepsPending(s: State, e: Event, s': State)
    requires Inv(s) && Step(s, e, s')
    ensures PendingInv(s')
  {
    hide IsLatest, AppliedInv, PhaseInv, Applies;
    match e
    case Publish =>
      assert s.phase.result.revision > 0 by {
        PublishesVersions(s);
      }
      PublishKeepsPending(s);
    case Clear(id) =>
      ClearKeepsPending(s, id);
    case _ =>
      assert s'.pending == s.pending && s'.published == s.published && s.delivered <= s'.delivered;
  }

  lemma PublishesVersions(s: State)
    requires PhaseInv(s) && s.phase.Publishing?
    ensures s.phase.result.revision > 0
  {
  }

  lemma {:induction false} RunInvariant(states: seq<State>, events: seq<Event>, n: nat)
    requires IsRun(states, events) && n <= |events|
    ensures Inv(states[n])
  {
    if n > 0 {
      RunInvariant(states, events, n - 1);
      hide PhaseInv, AppliedInv, PendingInv, UploadInv, Step;
      StepKeepsPhase(states[n - 1], events[n - 1], states[n]);
      StepKeepsApplied(states[n - 1], events[n - 1], states[n]);
      StepKeepsPending(states[n - 1], events[n - 1], states[n]);
      StepKeepsUploads(states[n - 1], events[n - 1], states[n]);
    }
  }

  // ---------------------------------------------------------------- what every run keeps

  /**
   * In every reachable state: applied never exceeds processed and is the revision of a result that says
   * applied; and whenever no config is being processed, the result of the latest processed revision
   * is waiting, or a post that carried exactly that result has succeeded.
   */
  lemma LatestResultIsHeld(states: seq<State>, events: seq<Event>, n: nat)
    requires IsRun(states, events) && n <= |events|
    ensures states[n].applied <= states[n].processed
    ensures var s := states[n]; s.phase == Idle && s.processed > 0 ==>
              s.processed in s.published
              && (s.pending == Some(s.published[s.processed]) || s.published[s.processed] in s.delivered)
    ensures var s := states[n]; s.phase == Idle && s.applied > 0 ==>
              s.applied in s.published && s.published[s.applied].applied
    ensures var s := states[n]; s.phase == Idle ==>
              forall k :: k in s.published && s.published[k].applied ==> k <= s.applied
  {
    RunInvariant(states, events, n);
    var s := states[n];
    if s.pending.None? && s.phase == Idle && s.processed > 0 {
      assert IsLatest(s.published, s.processed);
    }
  }

  /**
   * Delivered means sent: a result counts as delivered only if an upload holding exactly it was posted with
   * success.
   */
  lemma {:induction false} DeliveredMeansSent(states: seq<State>, events: seq<Event>, n: nat, r: ConfigResult)
    returns (k: nat)
    requires IsRun(states, events) && n <= |events| && r in states[n].delivered
    ensures k < n && events[k].PostSucceeds?
    ensures events[k].id in states[k].uploads && states[k].uploads[events[k].id] == Sending(Some(r))
  {
    assert n > 0;
    assert Step(states[n - 1], events[n - 1], states[n]);
    if r in states[n - 1].delivered {
      k := DeliveredMeansSent(states, events, n - 1, r);
    } else {
      k := n - 1;
    }
  }

  /**
   * Only the upload that carries the waiting result clears it, although the clear does not compare the error
   * text: revisions are processed once, so equal revisions mean the very same result.
   */
  lemma ClearTakesItsOwn(states: seq<State>, events: seq<Event>, n: nat)
    requires IsRun(states, events) && n < |events|
    requires states[n].pending.Some? && states[n + 1].pending != states[n].pending
    ensures (events[n].Clear? && states[n + 1].pending.None? && states[n].pending.value in states[n].delivered)
            || (events[n].Publish? && states[n + 1].pending == Some(states[n].phase.result)
                && states[n].phase.result.revision > states[n].pending.value.revision)
  {
    RunInvariant(states, events, n);
    assert Step(states[n], events[n], states[n + 1]);
  }

  /** The guard that keeps an older result from replacing a newer one never has to fire. */
  lemma PublishIsNeverRejected(states: seq<State>, events: seq<Event>, n: nat)
    requires IsRun(states, events) && n < |events| && events[n].Publish?
    ensures states[n + 1].pending == Some(states[n].phase.result)
  {
    RunInvariant(states, events, n);
    assert Step(states[n], events[n], states[n + 1]);
  }

  /** The last revision taken up: stored, or about to be. */
  function Floor(s: State): Uint64 {
    if s.phase.Storing? then s.phase.result.revision else s.processed
  }

  lemma StepRaisesFloor(s: State, e: Event, s': State)
    requires PhaseInv(s) && Step(s, e, s')
    ensures Floor(s) <= Floor(s')
  {
    hide Applies;
  }

  lemma {:induction false} FloorGrows(states: seq<State>, events: seq<Event>, i: nat, j: nat)
    requires IsRun(states, events) && i <= j <= |events|
    ensures Floor(states[i]) <= Floor(states[j])
    decreases j
  {
    hide PhaseInv, AppliedInv, PendingInv, UploadInv, Step, Floor, Initial;
    if i < j {
      FloorGrows(states, events, i, j - 1);
      RunInvariant(states, events, j - 1);
      StepRaisesFloor(states[j - 1], events[j - 1], states[j]);
    }
  }

  /** A versioned config that is taken up at this step. */
  ghost predicate TakesUp(s: State, e: Event) {
    e.Start? && e.config.revision > 0 && !Stale(s.processed, e.config)
  }

  /** Versioned configs are applied in strictly increasing order of revision, each revision at most once in a run. */
  lemma RevisionsIncrease(states: seq<State>, events: seq<Event>, i: nat, j: nat)
    requires IsRun(states, events) && i < j < |events|
    requires TakesUp(states[i], events[i]) && TakesUp(states[j], events[j])
    ensures events[i].config.revision < events[j].config.revision
  {
    assert Step(states[i], events[i], states[i + 1]);
    assert Step(states[j], events[j], states[j + 1]);
    FloorGrows(states, events, i + 1, j);
  }

  /** The settings change only in a step that applies a valid config with success, and become exactly its overlay. */
  lemma SettingsChangeOnlyBySuccess(states: seq<State>, events: seq<Event>, n: nat)
    requires IsRun(states, events) && n < |events|
    requires states[n + 1].runtime.settings != states[n].runtime.settings
    ensures events[n].Start? && events[n].outcome.Ok? && !Stale(states[n].processed, events[n].config)
    ensures ValidParams(events[n].config, events[n].env)
    ensures states[n + 1].runtime.settings == Overlay(states[n].runtime.settings, events[n].config)
  {
    hide Overlay, ValidParams;
    assert Step(states[n], events[n], states[n + 1]);
  }

  // ---------------------------------------------------------------- what happened to a config

  /** The result tells the revision, the event, whether the config was applied, and otherwise the cleaned-up reason. */
  ghost predicate Tells(r: ConfigResult, e: Event) {
    && e.Start? && r.revision == e.config.revision && r.eventID == e.eventID
    && (r.applied <==> e.outcome.Ok?) && r.error == if e.outcome.Ok? then "" else Sanitized(e.message)
  }

  /** A newer revision is taken up, an older one is ignored, and a config without a revision leaves no result. */
  lemma StartExactly(s: State, e: Event, s': State)
    requires e.Start? && Step(s, e, s')
    ensures 0 < e.config.revision <= s.processed ==> s' == s
    ensures e.config.revision == 0 ==> s' == s.(runtime := e.after)
    ensures e.config.revision > s.processed ==>
      && s'.phase.Storing? && Tells(s'.phase.result, e) && s' == s.(runtime := e.after, phase := s'.phase)
    ensures e.config.revision == 0 || e.config.revision > s.processed ==>
      Applies(s.runtime, e.config, e.env, e.after, e.outcome)
  {
    hide Applies;
  }

  /** Every published result tells what happened to a config of its revision that came before it and was newer then. */
  lemma {:induction false} PublishedTellsWhatHappened(states: seq<State>, events: seq<Event>, n: nat, r: ConfigResult)
    returns (i: nat)
    requires IsRun(states, events) && n <= |events|
    requires || r in states[n].published.Values
             || (!states[n].phase.Idle? && states[n].phase.result == r)
    ensures i < n && Tells(r, events[i]) && r.revision > states[i].processed
  {
    hide Tells, Applies;
    assert n > 0;
    assert Step(states[n - 1], events[n - 1], states[n]);
    if r in states[n - 1].published.Values || (!states[n - 1].phase.Idle? && states[n - 1].phase.result == r) {
      i := PublishedTellsWhatHappened(states, events, n - 1, r);
    } else {
      i := n - 1;
      StartExactly(states[i], events[i], states[n]);
      StartRevision(states[i], events[i], r);
    }
  }

  lemma StartRevision(s: State, e: Event, r: ConfigResult)
    requires e.Start? && Started(s, e).phase == Storing(r) && s.phase.Idle?
    ensures Tells(r, e) && r.revision > s.processed
  {
  }

  /** The clear compares three fields, and takes nothing else. */
  lemma ClearExactly(pending: Option<ConfigResult>, sent: Option<ConfigResult>)
    ensures ClearPending(pending, sent) ==
      if pending.Some? && sent.Some? && sent.value.(error := pending.value.error) == pending.value then None
      else pending
  {
  }

  lemma {:induction false} UploadStays(states: seq<State>, events: seq<Event>, i: nat, j: nat, id: nat)
    requires IsRun(states, events) && i <= j <= |events| && id in states[i].uploads
    requires forall m | i <= m < j :: !OfUpload(events[m], id)
    ensures id in states[j].uploads && states[j].uploads[id] == states[i].uploads[id]
    decreases j
  {
    if i < j {
      UploadStays(states, events, i, j - 1, id);
      assert Step(states[j - 1], events[j - 1], states[j]);
    }
  }

  predicate OfUpload(e: Event, id: nat) {
    match e
    case BeginUpload(n) => n == id
    case PostFails(n) => n == id
    case PostSucceeds(n) => n == id
    case Abandon(n) => n == id
    case Clear(n) => n == id
    case _ => false
  }

  /**
   * An upload that runs to its end delivers the result that was waiting when it began, and that result waits no
   * longer, whatever other uploads and configs do in between.
   */
  lemma UploadDelivers(states: seq<State>, events: seq<Event>, i: nat, j: nat, k: nat, id: nat)
    requires IsRun(states, events) && i < j < k < |events|
    requires events[i] == BeginUpload(id) && events[j] == PostSucceeds(id) && events[k] == Clear(id)
    requires forall m | i < m < k && m != j :: !OfUpload(events[m], id)
    requires states[i].pending.Some?
    ensures states[i].pending.value in states[k + 1].delivered
    ensures states[k + 1].pending != states[i].pending
  {
    hide Applies;
    assert Step(states[i], events[i], states[i + 1]);
    UploadStays(states, events, i + 1, j, id);
    assert Step(states[j], events[j], states[j + 1]);
    UploadStays(states, events, j + 1, k, id);
    assert Step(states[k], events[k], states[k + 1]);
    DeliveredStays(states, events, j + 1, k + 1, states[i].pending.value);
  }

  lemma {:induction false} DeliveredStays(states: seq<State>, events: seq<Event>, i: nat, j: nat, r: ConfigResult)
    requires IsRun(states, events) && i <= j <= |events| && r in states[i].delivered
    ensures r in states[j].delivered
    decreases j
  {
    if i < j {
      DeliveredStays(states, events, i, j - 1, r);
      assert Step(states[j - 1], events[j - 1], states[j]);
    }
  }

  // ---------------------------------------------------------------- the reset clock over a run

  predicate Writes(s: State, e: Event)
    requires e.Start?
  {
    && !Stale(s.processed, e.config) && ValidParams(e.config, e.env)
    && NetworkChanged(s.runtime.settings, Overlay(s.runtime.settings, e.config))
  }

  predicate SameClock(s: State, e: Event)
    requires e.Start?
  {
    ClockOf(Overlay(s.runtime.settings, e.config)) == ClockOf(s.runtime.settings)
  }

  /** A valid config that asks for another clock and fails in network accounting. */
  predicate Breaks(s: State, e: Event) {
    e.Start? && Writes(s, e) && e.outcome.Err? && !SameClock(s, e)
  }

  /** A report with a reset day, or a valid network change that succeeds or asks for the clock in force. */
  predicate Repairs(s: State, e: Event) {
    || (e.Report? && s.runtime.settings.monthRotate != 0)
    || (e.Start? && Writes(s, e) && (e.outcome.Ok? || SameClock(s, e)))
  }

  lemma ClockStep(s: State, e: Event, s': State)
    requires Step(s, e, s')
    ensures InStep(s'.runtime) <==> !Breaks(s, e) && (Repairs(s, e) || InStep(s.runtime))
  {
    hide Overlay, ValidParams;
    if e.Start? && !Stale(s.processed, e.config) {
      ClockInStepExactly(s.runtime, e.config, e.env, e.after, e.outcome);
    }
  }

  /** The config at step m broke clock and settings apart, and nothing repaired them before step n. */
  ghost predicate DriftsSince(states: seq<State>, events: seq<Event>, m: nat, n: nat)
    requires n <= |events| <= |states|
  {
    m < n && Breaks(states[m], events[m]) && forall q :: m < q < n ==> !Repairs(states[q], events[q])
  }

  /**
   * In any run that starts with clock and settings in step, they are out of step at a moment if and only if some
   * config broke them apart before and nothing has repaired them since.
   */
  lemma {:induction false} ClockDriftsExactly(states: seq<State>, events: seq<Event>, n: nat)
    requires IsRun(states, events) && n <= |events| && InStep(states[0].runtime)
    ensures !InStep(states[n].runtime) <==> exists m: nat :: DriftsSince(states, events, m, n)
  {
    hide Step, InStep, Breaks, Repairs;
    if n > 0 {
      var s, e := states[n - 1], events[n - 1];
      ClockDriftsExactly(states, events, n - 1);
      assert Step(s, e, states[n]);
      ClockStep(s, e, states[n]);
      BreakIsNoRepair(s, e);
      if Breaks(s, e) {
        assert DriftsSince(states, events, n - 1, n);
      } else if !Repairs(s, e) && !InStep(s.runtime) {
        var m: nat :| DriftsSince(states, events, m, n - 1);
        assert DriftsSince(states, events, m, n);
      }
      if m: nat :| DriftsSince(states, events, m, n) && m < n - 1 {
        assert DriftsSince(states, events, m, n - 1);
      }
    }
  }

  lemma BreakIsNoRepair(s: State, e: Event)
    ensures !(Breaks(s, e) && Repairs(s, e))
  {
  }

  // ---------------------------------------------------------------- the code

  datatype Core = Core(processed: Uint64, applied: Uint64, pending: Option<ConfigResult>)

  function CoreOf(s: State): Core {
    Core(s.processed, s.applied, s.pending)
  }

  /** What `processRuntimeConfig` does to the counters and the pending result when nothing interleaves. */
  function Handled(c: Core, config: Params, eventID: string, message: string, outcome: Result<bool, ApplyError>): Core {
    if config.revision == 0 || Stale(c.processed, config) then c
    else Core(config.revision, if outcome.Ok? then config.revision else c.applied,
              SetPending(c.pending, ResultOf(config, eventID, message, outcome)))
  }

  /** A config moves the counters and the waiting result only if it is newer than every one before. */
  lemma HandledExactly(c: Core, config: Params, eventID: string, message: string, outcome: Result<bool, ApplyError>)
    ensures var h := Handled(c, config, eventID, message, outcome);
      if config.revision <= c.processed then h == c
      else
        && h.processed == config.revision && h.applied == (if outcome.Ok? then config.revision else c.applied)
        && (c.pending.Some? && c.pending.value.revision > config.revision ==> h.pending == c.pending)
        && (c.pending.None? || c.pending.value.revision <= config.revision ==>
              && h.pending.Some? && h.pending.value.revision == config.revision && h.pending.value.eventID == eventID
              && h.pending.value.applied == outcome.Ok?
              && h.pending.value.error == if outcome.Ok? then "" else Sanitized(message))
  {
  }

  /** The four critical sections taken together are what the function computes. */
  lemma StepsMakeHandled(s: State, e: Event)
    requires e.Start? && StartsWell(s, e)
    ensures var t := Started(s, e);
            CoreOf(if t.phase.Storing? then Published(Marked(Stored(t))) else t)
            == Handled(CoreOf(s), e.config, e.eventID, e.message, e.outcome)
  {
  }

  /**
   * The outcome of one post: it fails, or its reply cannot be read, or says nothing, brings a config, or asks for
   * the state.
   */
  datatype Answer = NoAnswer | BadAnswer | Plain | WithConfig(config: Params, message: string, env: Env) | WantsState

  /** The first answer that does not ask again. */
  function LastAnswer(answers: seq<Answer>): Answer {
    if answers == [] then NoAnswer
    else if answers[0].WantsState? then LastAnswer(answers[1..])
    else answers[0]
  }

  lemma {:induction false} LastAnswerIsFirstOther(answers: seq<Answer>, i: nat)
    requires i <= |answers| && forall j | 0 <= j < i :: answers[j].WantsState?
    requires i < |answers| ==> !answers[i].WantsState?
    ensures LastAnswer(answers) == if i < |answers| then answers[i] else NoAnswer
  {
    if i > 0 {
      LastAnswerIsFirstOther(answers[1..], i - 1);
    }
  }

  predicate BringsNewer(answer: Answer, processed: Uint64) {
    answer.WithConfig? && answer.config.revision > processed
  }

  class Delivery {
    const runtime: RuntimeState
    var processed: Uint64
    var applied: Uint64
    var pending: Option<ConfigResult>

    ghost function View(): Core
      reads this
    {
      Core(processed, applied, pending)
    }

    constructor (runtime: RuntimeState)
      ensures View() == Core(0, 0, None) && this.runtime == runtime
    {
      this.runtime, processed, applied, pending := runtime, 0, 0, None;
    }

    method SetPendingResult(result: ConfigResult)
      modifies this`pending
      ensures pending == SetPending(old(pending), result)
    {
      if pending.Some? && pending.value.revision > result.revision {
        return;
      }
      pending := Some(result);
    }

    method ClearPendingResult(sent: Option<ConfigResult>)
      modifies this`pending
      ensures pending == ClearPending(old(pending), sent)
    {
      if sent.None? {
        return;
      }
      if pending.Some? && SameResult(pending.value, sent.value) {
        pending := None;
      }
    }

    /** False only when an unversioned config failed: then the event is not acknowledged. */
    method Process(config: Params, eventID: string, message: string, env: Env)
      returns (handled: bool, ghost outcome: Result<bool, ApplyError>)
      modifies this, runtime
      ensures View() == Handled(old(View()), config, eventID, message, outcome)
      ensures handled <==> (config.revision == 0 ==> outcome.Ok?)
      ensures if Stale(old(processed), config) then runtime.View() == old(runtime.View())
              else Applies(old(runtime.View()), config, env, runtime.View(), outcome)
    {
      hide Applies;
      outcome := Ok(false);
      if config.revision > 0 && config.revision <= processed {
        return true, outcome;
      }
      var r := runtime.Apply(config, env);
      outcome := r;
      if config.revision == 0 {
        return r.Ok?, outcome;
      }
      processed := config.revision;
      var result := ConfigResult(config.revision, eventID, true, "");
      if r.Err? {
        var error := Sanitize(message);
        result := result.(applied := false, error := error);
      } else {
        applied := config.revision;
      }
      SetPendingResult(result);
      return true, outcome;
    }

    /**
     * One upload with the answers of the server to it and to the uploads nested in it: an answer may ask for the state
     * again. The snapshot that was sent is cleared at the end, and a newer result, published while the last answer was
     * handled, stays.
     */
    method UploadState(answers: seq<Answer>) returns (ok: bool, ghost outcome: Result<bool, ApplyError>)
      modifies this, runtime
      ensures ok <==> LastAnswer(answers).Plain? || LastAnswer(answers).WithConfig?
      ensures !ok ==> View() == old(View()) && runtime.View() == old(runtime.View())
      ensures ok && !BringsNewer(LastAnswer(answers), old(processed)) ==> View() == old(View()).(pending := None)
      ensures ok && BringsNewer(LastAnswer(answers), old(processed))
                && (old(pending).Some? ==> old(pending).value.revision <= old(processed)) ==>
                && pending.Some? && pending.value.revision == LastAnswer(answers).config.revision == processed
                && pending.value.eventID == "" && pending.value.applied == outcome.Ok?
                && applied == if outcome.Ok? then processed else old(applied)
      ensures LastAnswer(answers).Plain? ==> runtime.View() == old(runtime.View())
      ensures LastAnswer(answers).WithConfig? ==>
        var WithConfig(config, _, env) := LastAnswer(answers);
        if 0 < config.revision <= old(processed) then runtime.View() == old(runtime.View())
        else Applies(old(runtime.View()), config, env, runtime.View(), outcome)
      decreases |answers|
    {
      hide Applies;
      var sent := pending;
      outcome := Ok(false);
      if answers == [] || answers[0].NoAnswer? {
        return false, outcome;
      }
      match answers[0] {
        case BadAnswer =>
          return false, outcome;
        case Plain =>
        case WithConfig(config, message, env) =>
          var _, applying := Process(config, "", message, env);
          outcome := applying;
        case WantsState =>
          var nested, last := UploadState(answers[1..]);
          if !nested {
            return false, outcome;
          }
          outcome := last;
      }
      ClearPendingResult(sent);
      return true, outcome;
    }
  }
}

/**
 * How the server drives the task log (`server/task.go`): accepting a task, finishing it, and
 * reporting results again after failures. Uploads and saves succeed or fail as the arguments say.
 */
module TaskServer {
  import opened TaskLog
  import opened TaskLogFile

  const FINISH_ATTEMPTS: nat := 5

  lemma OneMoreEvent(events: seq<Event>, e: Event)
    requires Disciplined(events) && (e.Ack? ==> UploadedBefore(events, e.id, |events|))
    ensures Disciplined(events + [e])
  {
    var more := events + [e];
    forall a | 0 <= a < |more| && more[a].Ack?
      ensures UploadedBefore(more, more[a].id, a)
    {
      var u :| 0 <= u < a && Uploads(events[u], more[a].id);
      assert Uploads(more[u], more[a].id);
    }
  }

  ghost predicate IsAck(e: Event, id: string) {
    e.Ack? && e.id == id
  }

  /** The log grew by events that satisfy the reporting discipline. */
  ghost predicate Grows(before: seq<Event>, after: seq<Event>) {
    before <= after && Disciplined(after)
  }

  /** What the log promises to the server at any time: an unreported result is pending in both places. */
  lemma PendingUntilUploaded(log: Log, id: string)
    requires log.Valid() && Disciplined(log.events)
    requires LifeOf(id, log.states, log.events, |log.events|).entered
    requires !UploadedBefore(log.events, id, |log.events|) && id != ""
    ensures id in log.entries && id in log.disk && log.disk[id] == log.entries[id] && !log.entries[id].acked
    ensures if LifeOf(id, log.states, log.events, |log.events|).ended then IsPending(log.entries[id])
            else log.entries[id].state.Started?
  {
    NoResultIsLost(log.states, log.events, log.limits, id, |log.events|);
  }

  lemma JustUploaded(events: seq<Event>, id: string, report: Outgoing)
    ensures UploadedBefore(events + [Upload(id, true, report)], id, |events| + 1)
  {
    var more := events + [Upload(id, true, report)];
    assert Uploads(more[|events|], id);
  }

  /** Uploads a result and acknowledges it only if the upload succeeded. */
  method Report(log: Log, id: string, report: Outgoing, uploadOk: bool, mayAck: bool, t: Times, saved: bool)
    requires log.Valid() && Disciplined(log.events)
    modifies log
    ensures log.Valid() && Grows(old(log.events), log.events)
    ensures |log.events| > old(|log.events|)
    ensures if uploadOk && mayAck then
              && log.events == old(log.events) + [Upload(id, uploadOk, report), log.LastEvent()]
              && IsAck(log.LastEvent(), id) && log.LastEvent().saved == saved
            else
              log.events == old(log.events) + [Upload(id, uploadOk, report)]
  {
    hide Disciplined, UploadedBefore;
    OneMoreEvent(log.events, Upload(id, uploadOk, report));
    log.Uploaded(id, uploadOk, report);
    if uploadOk && mayAck {
      ghost var sent := log.events;
      JustUploaded(old(log.events), id, report);
      log.Ack(id, t, saved);
      OneMoreEvent(sent, log.LastEvent());
    }
  }

  /**
   * A report that says what the entry says. A missing time is replaced by the clock, a missing reason by a fixed one.
   */
  ghost predicate Says(report: Outgoing, entry: Entry, now: int) {
    && report.exitCode == entry.exitCode && report.status == entry.state
    && report.finishedAt == (if entry.finishedAt.Some? then entry.finishedAt.value else now)
    && report.summary == if entry.state == Interrupted && entry.summary == "" then "execution status unknown"
                         else entry.summary
  }

  /** An upload of a task that says what its entry says. */
  ghost predicate IsUpload(e: Event, id: string, ok: bool, entry: Entry, now: int) {
    e.Upload? && e.id == id && e.ok == ok && Says(e.report, entry, now)
  }

  ghost predicate Refuses(e: Event) {
    e.Begin? && (e.outcome.AlreadyFinished? || e.outcome.WasInterrupted?)
  }

  /**
   * The events of one acceptance: the begin and, when it is refused because of a result that was not reported yet,
   * one upload of that result, acknowledged if it succeeds.
   */
  ghost predicate AcceptSequence(
    entries: Entries, events: seq<Event>, n: nat, taskID: string, uploadOk: bool, now: int)
  {
    && n < |events| && events[n].Begin? && events[n].id == taskID
    && (Refuses(events[n]) ==> taskID in entries)
    && if Refuses(events[n]) && !entries[taskID].acked then
         && n + 1 < |events| && IsUpload(events[n + 1], taskID, uploadOk, entries[taskID], now)
         && if uploadOk then |events| == n + 3 && IsAck(events[n + 2], taskID) else |events| == n + 2
       else |events| == n + 1
  }

  /**
   * `acceptTask`: the task may run exactly if this very call began it. A known result that was not reported yet is
   * reported again instead. The event is acknowledged unless the log is full or could not be saved.
   */
  method AcceptTask(log: Log, taskID: string, t: Times, saved: bool, now: int, uploadOk: bool, ackTimes: Times,
                    ackSaved: bool)
    returns (run: bool, ack: bool)
    requires log.Valid() && Disciplined(log.events)
    modifies log
    ensures log.Valid() && Grows(old(log.events), log.events)
    ensures taskID == "" ==> !run && !ack && log.events == old(log.events)
    ensures taskID != "" ==> AcceptSequence(old(log.entries), log.events, old(|log.events|), taskID, uploadOk, now)
    ensures taskID != "" ==> var outcome := log.events[old(|log.events|)].outcome;
                             (run <==> outcome.Begun?) && (ack <==> !outcome.LogFull? && !outcome.SaveFailed?)
  {
    hide Disciplined, UploadedBefore, Log.Valid;
    if taskID == "" {
      return false, false;
    }
    ghost var n := |log.events|;
    var outcome, existing := log.Begin(taskID, t, saved);
    OneMoreEvent(old(log.events), log.LastEvent());
    ghost var begin := log.events[n];
    if outcome.Begun? {
      return true, true;
    }
    if outcome.AlreadyFinished? {
      var entry := existing.value;
      if !entry.acked {
        var finishedAt := if entry.finishedAt.Some? then entry.finishedAt.value else now;
        var report := Outgoing(entry.summary, entry.exitCode, finishedAt, Finished);
        Report(log, taskID, report, uploadOk, true, ackTimes, ackSaved);
        assert log.events[n] == begin;
      }
      return false, true;
    }
    if outcome.AlreadyStarted? {
      return false, true;
    }
    if outcome.WasInterrupted? {
      var entry := existing.value;
      if !entry.acked {
        var summary := if entry.summary == "" then "execution status unknown" else entry.summary;
        var finishedAt := if entry.finishedAt.Some? then entry.finishedAt.value else now;
        var report := Outgoing(summary, entry.exitCode, finishedAt, Interrupted);
        Report(log, taskID, report, uploadOk, true, ackTimes, ackSaved);
        assert log.events[n] == begin;
      }
      return false, true;
    }
    return false, false;
  }

  /** One attempt to save the result of a task. */
  ghost predicate IsAttempt(e: Event, taskID: string, result: string, exitCode: int, t: Times, saved: bool) {
    && e.Finish? && e.id == taskID && e.summary == result && e.exitCode == exitCode && e.t == t && e.saved == saved
  }

  /** Events n to m - 1 are attempts to save the result, of which only the last may succeed. */
  ghost predicate Attempts(events: seq<Event>, n: nat, m: nat, taskID: string, result: string, exitCode: int,
                           t: nat -> Times, saves: nat -> bool)
    requires n <= m <= |events|
  {
    forall k | n <= k < m ::
      IsAttempt(events[k], taskID, result, exitCode, t(k - n), saves(k - n)) && (events[k].saved ==> k == m - 1)
  }

  /**
   * Up to five attempts, stopping at the first success, then one upload of the whole result, then an acknowledgement
   * if both succeeded. The time uploaded is the saved one, or the clock at which the task finished.
   */
  ghost predicate FinishSequence(events: seq<Event>, n: nat, m: nat, taskID: string, result: string, exitCode: int,
                                 now: int, t: nat -> Times, saves: nat -> bool, uploadOk: bool)
  {
    && n < m <= n + 5 && m < |events|
    && Attempts(events, n, m, taskID, result, exitCode, t, saves) && (m < n + 5 ==> events[m - 1].saved)
    && events[m] == Upload(taskID, uploadOk, Outgoing(
         result, exitCode, if events[m - 1].saved then events[m - 1].t.finish else now, Finished))
    && if uploadOk && events[m - 1].saved then |events| == m + 2 && IsAck(events[m + 1], taskID) else |events| == m + 1
  }

  /**
   * `finishTask`: persists the result with up to five attempts, uploads it in any case, and
   * acknowledges it only if it was persisted and uploaded.
   */
  method FinishTask(log: Log, taskID: string, result: string, exitCode: int, now: int, t: nat -> Times,
                    saves: nat -> bool, uploadOk: bool, ackSaved: bool)
    requires log.Valid() && Disciplined(log.events)
    modifies log
    ensures log.Valid() && Grows(old(log.events), log.events)
    ensures exists m ::
      FinishSequence(log.events, old(|log.events|), m, taskID, result, exitCode, now, t, saves, uploadOk)
  {
    hide Disciplined, UploadedBefore, Log.Valid;
    ghost var n := |log.events|;
    var attempt, persisted, finishedAt := 0, false, now;
    while attempt < FINISH_ATTEMPTS && !persisted
      invariant attempt <= FINISH_ATTEMPTS && |log.events| == n + attempt
      invariant log.Valid() && Grows(old(log.events), log.events)
      invariant Attempts(log.events, n, n + attempt, taskID, result, exitCode, t, saves)
      invariant persisted <==> attempt > 0 && log.events[n + attempt - 1].saved
      invariant finishedAt == if persisted then log.events[n + attempt - 1].t.finish else now
    {
      ghost var before := log.events;
      persisted := saves(attempt);
      log.Finish(taskID, result, exitCode, t(attempt), persisted);
      OneMoreEvent(before, log.LastEvent());
      if persisted {
        finishedAt := t(attempt).finish;
      }
      attempt := attempt + 1;
    }
    ghost var m, finished := |log.events|, log.events;
    var report := Outgoing(result, exitCode, finishedAt, Finished);
    Report(log, taskID, report, uploadOk, persisted, t(attempt), ackSaved);
    assert forall k | n <= k < m :: log.events[k] == finished[k];
    assert FinishSequence(log.events, n, m, taskID, result, exitCode, now, t, saves, uploadOk);
  }

  /**
   * An upload of a pending entry, acknowledged next exactly if it succeeded, or the acknowledgement of the upload just
   * before it.
   */
  ghost predicate IsReport(events: seq<Event>, n: nat, k: nat, entries: Entries, now: int, uploadOk: string -> bool)
    requires k < |events|
  {
    if events[k].Upload? then
      && events[k].id in entries && IsPending(entries[events[k].id])
      && IsUpload(events[k], events[k].id, uploadOk(events[k].id), entries[events[k].id], now)
      && (events[k].ok <==> k + 1 < |events| && IsAck(events[k + 1], events[k].id))
    else
      events[k].Ack? && k > n && events[k - 1].Upload? && events[k - 1].id == events[k].id && events[k - 1].ok
  }

  /** The events of a recovery pass. */
  ghost predicate ReportsOnly(events: seq<Event>, n: nat, entries: Entries, now: int, uploadOk: string -> bool) {
    forall k | n <= k < |events| :: IsReport(events, n, k, entries, now, uploadOk)
  }

  /** One more upload, with its acknowledgement when it succeeded, keeps the shape. */
  lemma OneMoreReport(before: seq<Event>, after: seq<Event>, n: nat, id: string, entries: Entries, now: int,
                      uploadOk: string -> bool)
    requires n <= |before| && ReportsOnly(before, n, entries, now, uploadOk)
    requires id in entries && IsPending(entries[id])
    requires |before| < |after| && before <= after && IsUpload(after[|before|], id, uploadOk(id), entries[id], now)
    requires if uploadOk(id) then |after| == |before| + 2 && IsAck(after[|before| + 1], id) else |after| == |before| + 1
    ensures ReportsOnly(after, n, entries, now, uploadOk)
  {
    hide IsUpload, IsPending;
    assert after[|before|].Upload? && after[|before|].id == id && after[|before|].ok == uploadOk(id) by {
      UploadParts(after[|before|], id, uploadOk(id), entries[id], now);
    }
    forall k | n <= k < |after| ensures IsReport(after, n, k, entries, now, uploadOk) {
      if k < |before| {
        assert IsReport(before, n, k, entries, now, uploadOk);
        assert after[k] == before[k] && (k > 0 ==> after[k - 1] == before[k - 1]);
        assert k + 1 < |before| ==> after[k + 1] == before[k + 1];
      }
    }
  }

  lemma UploadParts(e: Event, id: string, ok: bool, entry: Entry, now: int)
    requires IsUpload(e, id, ok, entry, now)
    ensures e.Upload? && e.id == id && e.ok == ok
  {
  }

  /** Some event from n on uploads what the entry of the task says. */
  ghost predicate IsReported(events: seq<Event>, n: nat, id: string, ok: bool, entry: Entry, now: int) {
    exists k | n <= k < |events| :: IsUpload(events[k], id, ok, entry, now)
  }

  lemma ReportedStays(before: seq<Event>, after: seq<Event>, n: nat, id: string, ok: bool, entry: Entry, now: int)
    requires before <= after && IsReported(before, n, id, ok, entry, now)
    ensures IsReported(after, n, id, ok, entry, now)
  {
    hide IsUpload;
    var k :| n <= k < |before| && IsUpload(before[k], id, ok, entry, now);
    assert after[k] == before[k];
  }

  /**
   * One recovery pass: every result pending at its start gets one upload attempt that says what its entry says, and
   * exactly those that arrive are acknowledged, each right after its own upload. The order is arbitrary.
   */
  method RecoverPendingReports(log: Log, now: int, uploadOk: string -> bool, t: Times, saves: string -> bool)
    requires log.Valid() && Disciplined(log.events)
    modifies log
    ensures log.Valid() && Grows(old(log.events), log.events)
    ensures forall id | id in old(log.entries) && IsPending(old(log.entries)[id]) ::
      IsReported(log.events, old(|log.events|), id, uploadOk(id), old(log.entries)[id], now)
    ensures ReportsOnly(log.events, old(|log.events|), old(log.entries), now, uploadOk)
  {
    hide Disciplined, UploadedBefore, Log.Valid, ReportsOnly, IsReported;
    var entries := log.PendingReports();
    ghost var known := log.entries;
    var jobs := entries.Keys;
    ghost var n := |log.events|;
    assert ReportsOnly(log.events, n, known, now, uploadOk) by { NoReports(log.events, known, now, uploadOk); }
    while jobs != {}
      invariant jobs <= entries.Keys && log.Valid() && Grows(old(log.events), log.events)
      invariant forall id | id in entries && id !in jobs ::
        IsReported(log.events, n, id, uploadOk(id), entries[id], now)
      invariant ReportsOnly(log.events, n, known, now, uploadOk)
    {
      var id :| id in jobs;
      var entry := entries[id];
      ghost var before := log.events;
      var finishedAt := if entry.finishedAt.Some? then entry.finishedAt.value else now;
      var summary, status := entry.summary, Interrupted;
      if entry.state.Finished? {
        status := Finished;
      } else if summary == "" {
        summary := "execution status unknown";
      }
      Report(log, id, Outgoing(summary, entry.exitCode, finishedAt, status), uploadOk(id), true, t, saves(id));
      assert IsUpload(log.events[|before|], id, uploadOk(id), entry, now);
      OneMoreReport(before, log.events, n, id, known, now, uploadOk);
      JustReported(log.events, n, |before|, id, uploadOk(id), entry, now);
      forall other | other in entries && other !in jobs
        ensures IsReported(log.events, n, other, uploadOk(other), entries[other], now)
      {
        ReportedStays(before, log.events, n, other, uploadOk(other), entries[other], now);
      }
      jobs := jobs - {id};
    }
  }

  lemma JustReported(events: seq<Event>, n: nat, k: nat, id: string, ok: bool, entry: Entry, now: int)
    requires n <= k < |events| && IsUpload(events[k], id, ok, entry, now)
    ensures IsReported(events, n, id, ok, entry, now)
  {
  }

  lemma NoReports(events: seq<Event>, entries: Entries, now: int, uploadOk: string -> bool)
    ensures ReportsOnly(events, |events|, entries, now, uploadOk)
  {
  }
}

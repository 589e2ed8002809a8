/**
 * The workers of a recovery pass (`server/task.go`): they take pending results from a channel, upload them and
 * acknowledge those that arrived, concurrently with each other and with the rest of the server.
 */
module RecoveryPool {
  import opened TaskLog
  import opened TaskServer

  /** A worker waits for a job, uploads one, or acknowledges one whose upload has succeeded. */
  datatype Worker = Waiting | Uploading(id: string) | Acking(id: string)

  /**
   * A recovery pass with its workers. `queue` is what the pass has not handed out, `reported` what it has uploaded or
   * tried to, and `dropped` what a cancellation left aside. `log` is what happened to the task log meanwhile.
   */
  datatype Pool = Pool(
    jobs: Entries, queue: set<string>, workers: map<nat, Worker>, reported: set<string>, dropped: set<string>,
    cancelled: bool, log: seq<Event>)

  datatype PoolEvent =
    | Take(w: nat, id: string)
    | Send(w: nat, ok: bool, report: Outgoing, now: int)
    | Acknowledge(w: nat, ack: Event)
    | Cancel
    | StopFeeding
    | Elsewhere(e: Event)

  /** The steps of the pass, and anything the rest of the server does to the log in between. */
  ghost predicate PoolStep(p: Pool, e: PoolEvent, p': Pool) {
    match e
    case Take(w, id) => (
      && w in p.workers && p.workers[w].Waiting? && id in p.queue
      && p' == if p.cancelled then p.(queue := p.queue - {id}, workers := p.workers - {w}, dropped := p.dropped + {id})
               else p.(queue := p.queue - {id}, workers := p.workers[w := Uploading(id)]))
    case Send(w, ok, report, now) => (
      && w in p.workers && p.workers[w].Uploading? && p.workers[w].id in p.jobs
      && Says(report, p.jobs[p.workers[w].id], now)
      && var id := p.workers[w].id;
         p' == p.(workers := p.workers[w := if ok then Acking(id) else Waiting], reported := p.reported + {id},
                  log := p.log + [Upload(id, ok, report)]))
    case Acknowledge(w, ack) => (
      && w in p.workers && p.workers[w].Acking? && IsAck(ack, p.workers[w].id)
      && p' == p.(workers := p.workers[w := Waiting], log := p.log + [ack]))
    case Cancel => p' == p.(cancelled := true)
    case StopFeeding => p.cancelled && p' == p.(queue := {}, dropped := p.dropped + p.queue)
    case Elsewhere(other) => (
      && (other.Ack? ==> UploadedBefore(p.log, other.id, |p.log|))
      && p' == p.(log := p.log + [other]))
  }

  ghost predicate IsUploading(p: Pool, w: nat, id: string) {
    w in p.workers && p.workers[w] == Uploading(id)
  }

  /** Every id of the pass is in exactly one place: queued, with one worker, reported, or dropped by a cancellation. */
  ghost predicate Placed(p: Pool, ids: set<string>) {
    && p.queue + p.reported + p.dropped <= ids
    && p.queue !! p.reported && p.queue !! p.dropped && p.reported !! p.dropped
    && (forall w, id :: IsUploading(p, w, id) ==> id in ids && id !in p.queue + p.reported + p.dropped)
    && (forall v, w, id :: IsUploading(p, v, id) && IsUploading(p, w, id) ==> v == w)
    && (forall id :: id in ids && id !in p.queue + p.reported + p.dropped ==> exists w :: IsUploading(p, w, id))
    && (p.dropped != {} ==> p.cancelled)
  }

  /** Acknowledgements follow uploads: those made and those about to be made. */
  ghost predicate Orderly(p: Pool) {
    && Disciplined(p.log)
    && forall w :: w in p.workers && p.workers[w].Acking? ==> UploadedBefore(p.log, p.workers[w].id, |p.log|)
  }

  lemma StepKeepsPlaces(p: Pool, e: PoolEvent, p': Pool, ids: set<string>)
    requires Placed(p, ids) && PoolStep(p, e, p')
    ensures Placed(p', ids)
    ensures e.Send? ==> p.workers[e.w].id !in p.reported
  {
    match e
    case Take(w, id) => TakeKeepsPlaces(p, e, p', ids);
    case Send(w, ok, _, _) => SendKeepsPlaces(p, e, p', ids);
    case _ => SameUploads(p, p', ids);
  }

  lemma SameUploads(p: Pool, p': Pool, ids: set<string>)
    requires Placed(p, ids)
    requires forall w, id :: IsUploading(p', w, id) <==> IsUploading(p, w, id)
    requires p'.reported == p.reported && p'.queue + p'.dropped == p.queue + p.dropped && p'.queue !! p'.dropped
    requires p.cancelled ==> p'.cancelled
    requires p'.dropped != {} ==> p'.cancelled
    ensures Placed(p', ids)
  {
    hide IsUploading;
    assert p'.queue + p'.reported + p'.dropped == p.queue + p.reported + p.dropped;
  }

  lemma TakeKeepsPlaces(p: Pool, e: PoolEvent, p': Pool, ids: set<string>)
    requires Placed(p, ids) && e.Take? && PoolStep(p, e, p')
    ensures Placed(p', ids)
  {
    forall id | id in ids && id !in p'.queue + p'.reported + p'.dropped ensures exists w :: IsUploading(p', w, id) {
      if id == e.id {
        assert IsUploading(p', e.w, id);
      } else {
        var w :| IsUploading(p, w, id);
        assert IsUploading(p', w, id);
      }
    }
    assert forall w, id :: IsUploading(p', w, id) ==> IsUploading(p, w, id) || (w == e.w && id == e.id);
  }

  lemma SendKeepsPlaces(p: Pool, e: PoolEvent, p': Pool, ids: set<string>)
    requires Placed(p, ids) && e.Send? && PoolStep(p, e, p')
    ensures Placed(p', ids) && p.workers[e.w].id !in p.reported
  {
    assert IsUploading(p, e.w, p.workers[e.w].id);
    forall id | id in ids && id !in p'.queue + p'.reported + p'.dropped ensures exists w :: IsUploading(p', w, id) {
      var w :| IsUploading(p, w, id);
      assert IsUploading(p', w, id);
    }
    assert forall w, id :: IsUploading(p', w, id) ==> IsUploading(p, w, id) && w != e.w;
  }

  lemma UploadedStays(events: seq<Event>, e: Event, id: string)
    requires UploadedBefore(events, id, |events|)
    ensures UploadedBefore(events + [e], id, |events| + 1)
  {
    var u :| 0 <= u < |events| && Uploads(events[u], id);
    assert Uploads((events + [e])[u], id);
  }

  lemma StepKeepsOrder(p: Pool, e: PoolEvent, p': Pool)
    requires Orderly(p) && PoolStep(p, e, p')
    ensures Orderly(p')
  {
    hide Disciplined, UploadedBefore;
    if p'.log != p.log {
      var last := p'.log[|p.log|];
      assert p'.log == p.log + [last];
      OneMoreEvent(p.log, last);
      if e.Send? && e.ok {
        JustUploaded(p.log, p.workers[e.w].id, e.report);
      }
      forall w | w in p'.workers && p'.workers[w].Acking? ensures UploadedBefore(p'.log, p'.workers[w].id, |p'.log|) {
        if w in p.workers && p.workers[w] == p'.workers[w] {
          UploadedStays(p.log, last, p.workers[w].id);
        }
      }
    }
  }

  ghost predicate IsPass(pools: seq<Pool>, steps: seq<PoolEvent>, ids: set<string>) {
    && |pools| == |steps| + 1
    && pools[0].queue == ids == pools[0].jobs.Keys && pools[0].reported == pools[0].dropped == {}
    && Disciplined(pools[0].log)
    && (forall w :: w in pools[0].workers ==> pools[0].workers[w].Waiting?)
    && (forall i :: 0 <= i < |steps| ==> PoolStep(pools[i], steps[i], pools[i + 1]))
  }

  lemma {:induction false} PassInvariant(pools: seq<Pool>, steps: seq<PoolEvent>, ids: set<string>, n: nat)
    requires IsPass(pools, steps, ids) && n <= |steps|
    ensures Placed(pools[n], ids) && Orderly(pools[n])
  {
    if n == 0 {
      assert forall w, id :: !IsUploading(pools[0], w, id);
    } else {
      hide PoolStep, Placed, Orderly;
      PassInvariant(pools, steps, ids, n - 1);
      assert PoolStep(pools[n - 1], steps[n - 1], pools[n]);
      StepKeepsPlaces(pools[n - 1], steps[n - 1], pools[n], ids);
      StepKeepsOrder(pools[n - 1], steps[n - 1], pools[n]);
    }
  }

  /**
   * A recovery pass with any number of workers, under any interleaving with each other and with the rest of the
   * server: the log keeps the reporting discipline, no id of the pass is uploaded twice by it, and once nothing is
   * queued and every worker waits, every id has been uploaded exactly once or a cancellation has dropped it.
   */
  lemma WorkersReportOnce(pools: seq<Pool>, steps: seq<PoolEvent>, ids: set<string>, n: nat)
    requires IsPass(pools, steps, ids) && n <= |steps|
    ensures Disciplined(pools[n].log)
    ensures n < |steps| && steps[n].Send? ==>
              forall id :: IsUploading(pools[n], steps[n].w, id) ==> id in ids && id !in pools[n].reported
    ensures pools[n].queue == {} && (forall w :: w in pools[n].workers ==> pools[n].workers[w].Waiting?) ==>
              pools[n].reported + pools[n].dropped == ids && (!pools[n].cancelled ==> pools[n].reported == ids)
  {
    PassInvariant(pools, steps, ids, n);
    var p := pools[n];
    if p.queue == {} && (forall w :: w in p.workers ==> p.workers[w].Waiting?) {
      assert forall w, id :: !IsUploading(p, w, id);
      assert forall id :: id in ids ==> id in p.reported + p.dropped;
    }
  }

  /** A result that arrived is acknowledged by the worker that sent it, which does nothing else before that. */
  lemma {:induction false} ArrivedIsAcknowledged(
    pools: seq<Pool>, steps: seq<PoolEvent>, ids: set<string>, k: nat, n: nat)
    requires IsPass(pools, steps, ids) && k < n <= |steps| && steps[k].Send? && steps[k].ok
    requires steps[k].w in pools[k].workers && pools[k].workers[steps[k].w].Uploading?
    ensures var w := steps[k].w;
      var id := pools[k].workers[w].id;
      || (w in pools[n].workers && pools[n].workers[w] == Acking(id))
      || exists a :: k < a < n && AcknowledgesBy(steps[a], w, id)
  {
    var w := steps[k].w;
    var id := pools[k].workers[w].id;
    assert PoolStep(pools[n - 1], steps[n - 1], pools[n]);
    if n > k + 1 {
      ArrivedIsAcknowledged(pools, steps, ids, k, n - 1);
      if IsAcking(pools[n - 1], w, id) && steps[n - 1].Acknowledge? && steps[n - 1].w == w {
        assert AcknowledgesBy(steps[n - 1], w, id);
      }
    }
  }

  ghost predicate AcknowledgesBy(e: PoolEvent, w: nat, id: string) {
    e.Acknowledge? && e.w == w && e.ack.Ack? && e.ack.id == id
  }

  ghost predicate IsAcking(p: Pool, w: nat, id: string) {
    w in p.workers && p.workers[w] == Acking(id)
  }

  ghost predicate Arrives(p: Pool, e: PoolEvent, w: nat, id: string) {
    e.Send? && e.w == w && e.ok && IsUploading(p, w, id)
  }

  /** And nothing else is: a worker that acknowledges a result has sent it before, and the sending succeeded. */
  lemma {:induction false} AckingHasArrived(
    pools: seq<Pool>, steps: seq<PoolEvent>, ids: set<string>, n: nat, w: nat, id: string)
    requires IsPass(pools, steps, ids) && n <= |steps| && IsAcking(pools[n], w, id)
    ensures exists k :: 0 <= k < n && Arrives(pools[k], steps[k], w, id)
  {
    assert n > 0;
    assert PoolStep(pools[n - 1], steps[n - 1], pools[n]);
    if IsAcking(pools[n - 1], w, id) {
      AckingHasArrived(pools, steps, ids, n - 1, w, id);
    } else {
      assert Arrives(pools[n - 1], steps[n - 1], w, id);
    }
  }

  /** After a cancellation only the uploads that were under way at that moment are still made. */
  lemma {:induction false} CancelledStartsNoUpload(
    pools: seq<Pool>, steps: seq<PoolEvent>, ids: set<string>, i: nat, k: nat, w: nat, id: string)
    requires IsPass(pools, steps, ids) && i <= k <= |steps| && pools[i].cancelled
    ensures pools[k].cancelled
    ensures IsUploading(pools[k], w, id) ==> IsUploading(pools[i], w, id)
    decreases k
  {
    if i < k {
      CancelledStartsNoUpload(pools, steps, ids, i, k - 1, w, id);
      assert PoolStep(pools[k - 1], steps[k - 1], pools[k]);
    }
  }
}

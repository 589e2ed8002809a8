/**
 * Traffic accounting with a monthly reset (`monitoring/netstatic/static.go`).
 *
 * Every network interface (NIC) is accounted for on its own, so the specification is about one NIC:
 * what sampling, flushing and purging do to its stored buckets and cached samples. The reference is
 * the plain log of sampled deltas. Counters and sums are unsigned 64-bit and may wrap.
 */
module Traffic {
  import opened Common
  import opened Calendar

  datatype TrafficData = TrafficData(timestamp: Uint64, tx: Uint64, rx: Uint64)

  datatype Counters = Counters(tx: Uint64, rx: Uint64)

  datatype Direction = Tx | Rx

  function Bytes(td: TrafficData, d: Direction): Uint64 {
    if d.Tx? then td.tx else td.rx
  }

  // ---------------------------------------------------------------- sums over a time range

  /** start 0 and end 0 leave that side open. */
  predicate InRange(timestamp: int, start: int, end: int) {
    (start == 0 || timestamp >= start) && (end == 0 || timestamp <= end)
  }

  function Sum(arr: seq<TrafficData>, d: Direction, start: int, end: int): int {
    if arr == [] then 0
    else
      var last := |arr| - 1;
      Sum(arr[..last], d, start, end) + if InRange(arr[last].timestamp, start, end) then Bytes(arr[last], d) else 0
  }

  /** The traffic stamped at or after `since`. */
  function Since(arr: seq<TrafficData>, d: Direction, since: int): int {
    if arr == [] then 0
    else
      var last := |arr| - 1;
      Since(arr[..last], d, since) + if arr[last].timestamp >= since then Bytes(arr[last], d) else 0
  }

  lemma {:induction false} SinceConcat(a: seq<TrafficData>, b: seq<TrafficData>, d: Direction, since: int)
    ensures Since(a + b, d, since) == Since(a, d, since) + Since(b, d, since)
  {
    if b == [] {
      assert a + b == a;
    } else {
      assert (a + b)[..|a + b| - 1] == a + b[..|b| - 1];
      SinceConcat(a, b[..|b| - 1], d, since);
    }
  }

  ghost predicate StampedBy(arr: seq<TrafficData>, now: int) {
    forall i | 0 <= i < |arr| :: arr[i].timestamp <= now
  }

  /** A window is what lies from its start on, without what lies after its end; 0 leaves a side open. */
  lemma {:induction false} WindowIsDifference(arr: seq<TrafficData>, d: Direction, start: Uint64, end: Uint64)
    ensures Sum(arr, d, start, end) == if end == 0 then Since(arr, d, start)
                                       else if start > end then 0
                                       else Since(arr, d, start) - Since(arr, d, end + 1)
  {
    if arr != [] {
      WindowIsDifference(arr[..|arr| - 1], d, start, end);
    }
  }

  /** A query that ends at or after every stamp only depends on its start. */
  lemma {:induction false} SumIsSince(arr: seq<TrafficData>, d: Direction, start: int, end: int)
    requires StampedBy(arr, end)
    ensures Sum(arr, d, start, end) == Since(arr, d, start)
  {
    if arr != [] {
      SumIsSince(arr[..|arr| - 1], d, start, end);
    }
  }

  /** No stamp is negative. */
  lemma {:induction false} SinceTheStart(arr: seq<TrafficData>, d: Direction, since: int)
    requires since <= 0
    ensures Since(arr, d, since) == Since(arr, d, 0)
  {
    if arr != [] {
      SinceTheStart(arr[..|arr| - 1], d, since);
    }
  }

  lemma {:induction false} SinceTheFuture(arr: seq<TrafficData>, d: Direction, since: int, now: int)
    requires StampedBy(arr, now) && now < since
    ensures Since(arr, d, since) == 0
  {
    if arr != [] {
      SinceTheFuture(arr[..|arr| - 1], d, since, now);
    }
  }

  // ---------------------------------------------------------------- flushing: coarse buckets

  /** One coarse record, or none when both sums are zero. */
  function Bucket(timestamp: Uint64, tx: Uint64, rx: Uint64): seq<TrafficData> {
    if tx > 0 || rx > 0 then [TrafficData(timestamp, tx, rx)] else []
  }

  function Before(arr: seq<TrafficData>, d: Direction, boundary: int): Uint64 {
    Wrap(Since(arr, d, 0) - Since(arr, d, boundary))
  }

  function After(arr: seq<TrafficData>, d: Direction, boundary: int): Uint64 {
    Wrap(Since(arr, d, boundary))
  }

  /** The records that replace the cached samples `arr` of a NIC at a flush. */
  function Aggregate(arr: seq<TrafficData>, flushTs: Uint64, boundary: Uint64): seq<TrafficData> {
    if boundary == 0 then
      Bucket(flushTs, After(arr, Tx, 0), After(arr, Rx, 0))
    else
      Bucket(if flushTs >= boundary then boundary - 1 else flushTs,
             Before(arr, Tx, boundary), Before(arr, Rx, boundary))
      + Bucket(if flushTs < boundary then boundary else flushTs, After(arr, Tx, boundary), After(arr, Rx, boundary))
  }

  function ResetBoundaryUnix(rule: ResetRule, flushTs: Uint64): Uint64 {
    if rule.day < 1 || rule.day > 31 || flushTs == 0 then 0
    else
      var instant := GetLastResetInstant(rule, flushTs);
      if instant <= 0 then 0 else Wrap(instant)
  }

  lemma SinceOfBucket(timestamp: Uint64, tx: Uint64, rx: Uint64, d: Direction, since: int)
    ensures Since(Bucket(timestamp, tx, rx), d, since)
         == if timestamp >= since then (if d.Tx? then tx else rx) else 0
  {
    var b := Bucket(timestamp, tx, rx);
    if |b| == 1 {
      assert b[..0] == [];
    }
  }

  /** Which traffic the flushed records hold, seen from any instant. */
  lemma SinceOfAggregate(arr: seq<TrafficData>, flushTs: Uint64, boundary: Uint64, d: Direction, since: int)
    requires boundary <= flushTs
    ensures Since(Aggregate(arr, flushTs, boundary), d, since)
         == if boundary == 0 then
              if since <= flushTs then After(arr, d, 0) else 0
            else
              (if since < boundary then Before(arr, d, boundary) else 0)
              + if since <= flushTs then After(arr, d, boundary) else 0
  {
    if boundary == 0 {
      SinceOfBucket(flushTs, After(arr, Tx, 0), After(arr, Rx, 0), d, since);
    } else {
      SinceOfBucket(boundary - 1, Before(arr, Tx, boundary), Before(arr, Rx, boundary), d, since);
      SinceOfBucket(flushTs, After(arr, Tx, boundary), After(arr, Rx, boundary), d, since);
      SinceConcat(Bucket(boundary - 1, Before(arr, Tx, boundary), Before(arr, Rx, boundary)),
                  Bucket(flushTs, After(arr, Tx, boundary), After(arr, Rx, boundary)), d, since);
    }
  }

  lemma AggregateSinceReset(arr: seq<TrafficData>, flushTs: Uint64, rule: ResetRule, k: int, d: Direction)
    requires Scheduled(rule) && GetLastResetInstant(rule, flushTs) <= ResetOf(rule, k)
    ensures Wrap(Since(Aggregate(arr, flushTs, ResetBoundaryUnix(rule, flushTs)), d, ResetOf(rule, k)))
         == if ResetOf(rule, k) <= flushTs then Wrap(Since(arr, d, ResetOf(rule, k))) else 0
  {
    hide ResetOf, GetLastResetInstant;
    LastResetIsGreatest(rule, flushTs);
    var since := ResetOf(rule, k);
    SinceOfAggregate(arr, flushTs, ResetBoundaryUnix(rule, flushTs), d, since);
    if since <= 0 {
      SinceTheStart(arr, d, since);
    }
    assert forall x :: Wrap(Wrap(x)) == Wrap(x);
  }

  /**
   * A flush and the resets that are current or still to come, for any samples: seen from such a reset the records
   * hold what the samples held if and only if the flush is stamped at or after the reset, or the samples
   * hold no traffic from it on.
   */
  lemma FlushKeepsEveryReset(arr: seq<TrafficData>, flushTs: Uint64, rule: ResetRule, k: int, d: Direction)
    requires Scheduled(rule) && GetLastResetInstant(rule, flushTs) <= ResetOf(rule, k)
    ensures Wrap(Since(Aggregate(arr, flushTs, ResetBoundaryUnix(rule, flushTs)), d, ResetOf(rule, k)))
         == Wrap(Since(arr, d, ResetOf(rule, k)))
       <==> ResetOf(rule, k) <= flushTs || Wrap(Since(arr, d, ResetOf(rule, k))) == 0
  {
    hide ResetOf, GetLastResetInstant, ResetBoundaryUnix, Aggregate;
    AggregateSinceReset(arr, flushTs, rule, k, d);
  }

  /** So a flush that is not stamped before its samples moves no traffic across any of these resets. */
  lemma TimelyFlushKeepsEveryReset(arr: seq<TrafficData>, flushTs: Uint64, rule: ResetRule, k: int, d: Direction)
    requires Scheduled(rule) && GetLastResetInstant(rule, flushTs) <= ResetOf(rule, k)
    requires StampedBy(arr, flushTs)
    ensures Wrap(Since(Aggregate(arr, flushTs, ResetBoundaryUnix(rule, flushTs)), d, ResetOf(rule, k)))
         == Wrap(Since(arr, d, ResetOf(rule, k)))
  {
    hide ResetOf, GetLastResetInstant, ResetBoundaryUnix, Aggregate;
    FlushKeepsEveryReset(arr, flushTs, rule, k, d);
    if flushTs < ResetOf(rule, k) {
      SinceTheFuture(arr, d, ResetOf(rule, k), flushTs);
    }
  }

  /**
   * An older reset keeps its traffic exactly when the cache holds none from before it: whatever was
   * sampled before that reset is now counted after it.
   */
  lemma FlushMovesOlderTraffic(arr: seq<TrafficData>, flushTs: Uint64, boundary: Uint64, since: int, d: Direction)
    requires 0 <= since < boundary <= flushTs
    ensures Wrap(Since(Aggregate(arr, flushTs, boundary), d, since)) == Wrap(Since(arr, d, since))
       <==> Wrap(Since(arr, d, 0) - Since(arr, d, since)) == 0
  {
    SinceOfAggregate(arr, flushTs, boundary, d, since);
    var all, later := Since(arr, d, 0), Since(arr, d, boundary);
    WrapAdd(all - later, later);
    WrapAdd(Before(arr, d, boundary), later);
    assert Wrap(Since(Aggregate(arr, flushTs, boundary), d, since)) == Wrap(all);
    WrapDifference(all, Since(arr, d, since));
  }

  lemma WrapDifference(a: int, b: int)
    ensures Wrap(a) == Wrap(b) <==> Wrap(a - b) == 0
  {
    WrapAdd(a - b, b);
    if Wrap(a) == Wrap(b) {
      var q := a / TWO64 - b / TWO64;
      assert a - b == q * TWO64;
      ModShift(a - b, q);
    }
  }

  // ---------------------------------------------------------------- one NIC over a run

  /** `stored` is the NIC's record list, `cached` its unflushed samples, `last` the counters seen last. */
  datatype Nic = Nic(stored: seq<TrafficData>, cached: seq<TrafficData>, last: Option<Counters>)

  datatype Event = Sample(counters: Counters, ts: Uint64) | Flush(ts: Uint64) | Purge(ts: Uint64)

  /** A counter that went backwards was reset or wrapped; its delta is dropped. */
  function SafeDelta(cur: Uint64, prev: Uint64): Uint64 {
    if cur >= prev then cur - prev else 0
  }

  /** What one reading adds to the log: nothing at first, and nothing when both deltas are zero. */
  function Delta(last: Option<Counters>, counters: Counters, ts: Uint64): seq<TrafficData> {
    if last.None? then []
    else Bucket(ts, SafeDelta(counters.tx, last.value.tx), SafeDelta(counters.rx, last.value.rx))
  }

  function Keep(arr: seq<TrafficData>, cutoff: int): seq<TrafficData> {
    if arr == [] then []
    else
      var last := |arr| - 1;
      Keep(arr[..last], cutoff) + if arr[last].timestamp >= cutoff then [arr[last]] else []
  }

  /** The cutoff is converted to uint64, so it wraps while the clock is below the preserved span. */
  function Cutoff(now: int, preserve: int): Uint64 {
    Wrap(now - preserve)
  }

  function Step(nic: Nic, event: Event, rule: ResetRule, preserve: int): Nic {
    match event
    case Sample(counters, ts) => nic.(cached := nic.cached + Delta(nic.last, counters, ts), last := Some(counters))
    case Flush(ts) => nic.(stored := nic.stored + Aggregate(nic.cached, ts, ResetBoundaryUnix(rule, ts)), cached := [])
    case Purge(ts) => nic.(stored := Keep(nic.stored, Cutoff(ts, preserve)))
  }

  const FRESH := Nic([], [], None)

  function RunFrom(nic: Nic, events: seq<Event>, rule: ResetRule, preserve: int): Nic {
    if events == [] then nic
    else Step(RunFrom(nic, events[..|events| - 1], rule, preserve), events[|events| - 1], rule, preserve)
  }

  /** The reference: the counters read last and the plain log of deltas. It knows no flush and no purge. */
  function LastReading(events: seq<Event>): Option<Counters> {
    if events == [] then None
    else
      var e := events[|events| - 1];
      if e.Sample? then Some(e.counters) else LastReading(events[..|events| - 1])
  }

  function RawLog(events: seq<Event>): seq<TrafficData> {
    if events == [] then []
    else
      var before, e := events[..|events| - 1], events[|events| - 1];
      RawLog(before) + if e.Sample? then Delta(LastReading(before), e.counters, e.ts) else []
  }

  /** Nothing is stamped after `now`, and no purge happens before the clock has passed the preserved span. */
  ghost predicate TimedBy(events: seq<Event>, now: int, preserve: int) {
    forall i | 0 <= i < |events| :: events[i].ts <= now && (events[i].Purge? ==> preserve <= events[i].ts)
  }

  /** The samples that the last flush has not taken. */
  function Unflushed(events: seq<Event>): seq<TrafficData> {
    if events == [] then []
    else
      var before, e := events[..|events| - 1], events[|events| - 1];
      match e
      case Sample(counters, ts) => Unflushed(before) + Delta(LastReading(before), counters, ts)
      case Flush(_) => []
      case Purge(_) => Unflushed(before)
  }

  /** The traffic from `since` on that was flushed with a stamp before `since`. */
  function Late(events: seq<Event>, d: Direction, since: int): int {
    if events == [] then 0
    else
      var before, e := events[..|events| - 1], events[|events| - 1];
      Late(before, d, since) + if e.Flush? && e.ts < since then Since(Unflushed(before), d, since) else 0
  }

  /** No flush is stamped before an earlier sample. */
  ghost predicate FlushesAreTimely(events: seq<Event>) {
    forall i, j | 0 <= i < j < |events| && events[i].Sample? && events[j].Flush? :: events[i].ts <= events[j].ts
  }

  lemma {:induction false} UnflushedStamps(events: seq<Event>, now: int)
    requires forall i | 0 <= i < |events| && events[i].Sample? :: events[i].ts <= now
    ensures StampedBy(Unflushed(events), now)
  {
    if events != [] {
      UnflushedStamps(events[..|events| - 1], now);
    }
  }

  /** Timely flushes are late for no reset. */
  lemma {:induction false} TimelyIsNotLate(events: seq<Event>, d: Direction, since: int)
    requires FlushesAreTimely(events)
    ensures Late(events, d, since) == 0
  {
    if events != [] {
      var before, e := events[..|events| - 1], events[|events| - 1];
      TimelyIsNotLate(before, d, since);
      if e.Flush? && e.ts < since {
        UnflushedStamps(before, e.ts);
        SinceTheFuture(Unflushed(before), d, since, e.ts);
      }
    }
  }

  ghost predicate NeverBackwards(events: seq<Event>, d: Direction) {
    forall i, j | 0 <= i < j < |events| && events[i].Sample? && events[j].Sample? ::
      Reading(events[i].counters, d) <= Reading(events[j].counters, d)
  }

  function Reading(c: Counters, d: Direction): Uint64 {
    if d.Tx? then c.tx else c.rx
  }

  lemma {:induction false} LastReadingIsListed(events: seq<Event>)
    requires events != [] && events[0].Sample?
    ensures LastReading(events).Some?
    ensures exists i | 0 <= i < |events| :: events[i].Sample? && events[i].counters == LastReading(events).value
  {
    var last := |events| - 1;
    if events[last].Sample? {
      assert events[last].counters == LastReading(events).value;
    } else {
      LastReadingIsListed(events[..last]);
      var i :| && 0 <= i < last && events[..last][i].Sample?
               && events[..last][i].counters == LastReading(events[..last]).value;
      assert events[i].Sample? && events[i].counters == LastReading(events).value;
    }
  }

  lemma LogGrows(events: seq<Event>, d: Direction)
    requires |events| > 1 && events[0].Sample? && NeverBackwards(events, d)
    requires LastReading(events[..|events| - 1]).Some?
    ensures Since(RawLog(events), d, 0) == Since(RawLog(events[..|events| - 1]), d, 0)
      + Reading(LastReading(events).value, d) - Reading(LastReading(events[..|events| - 1]).value, d)
  {
    hide Since, Wrap;
    var last := |events| - 1;
    var before, e := events[..last], events[last];
    LastReadingIsListed(before);
    var p := LastReading(before).value;
    var i :| 0 <= i < |before| && before[i].Sample? && before[i].counters == p;
    if e.Sample? {
      assert events[i].Sample? && Reading(events[i].counters, d) <= Reading(events[last].counters, d);
      SinceConcat(RawLog(before), Delta(Some(p), e.counters, e.ts), d, 0);
      SinceOfBucket(e.ts, SafeDelta(e.counters.tx, p.tx), SafeDelta(e.counters.rx, p.rx), d, 0);
    } else {
      assert RawLog(before) + [] == RawLog(before);
    }
  }

  /** What the log is for: while a counter only grows, the logged deltas add up to its growth. */
  lemma {:induction false} LogTelescopes(events: seq<Event>, d: Direction)
    requires events != [] && events[0].Sample? && NeverBackwards(events, d)
    ensures LastReading(events).Some?
    ensures Since(RawLog(events), d, 0) == Reading(LastReading(events).value, d) - Reading(events[0].counters, d)
  {
    if |events| == 1 {
      assert events[..0] == [];
    } else {
      LogTelescopes(events[..|events| - 1], d);
      LogGrows(events, d);
    }
  }

  // ---------------------------------------------------------------- what the log records

  datatype Measured = Measured(counters: Counters, ts: Uint64)

  /** The readings of a run, in order. */
  function SamplesOf(events: seq<Event>): seq<Measured> {
    if events == [] then []
    else
      var e := events[|events| - 1];
      SamplesOf(events[..|events| - 1]) + if e.Sample? then [Measured(e.counters, e.ts)] else []
  }

  /**
   * The rises between consecutive readings, counted at the later one if it is taken at or after `since`; falls count
   * nothing.
   */
  function Rises(samples: seq<Measured>, d: Direction, since: int): int {
    if |samples| <= 1 then 0
    else
      var a, b := samples[|samples| - 2], samples[|samples| - 1];
      Rises(samples[..|samples| - 1], d, since)
      + if b.ts >= since && Reading(a.counters, d) < Reading(b.counters, d)
        then Reading(b.counters, d) - Reading(a.counters, d) else 0
  }

  lemma {:induction false} LastSampleIsLastReading(events: seq<Event>)
    ensures LastReading(events) == if SamplesOf(events) == [] then None
                                   else Some(SamplesOf(events)[|SamplesOf(events)| - 1].counters)
  {
    if events != [] {
      LastSampleIsLastReading(events[..|events| - 1]);
    }
  }

  lemma SinceOfDelta(last: Option<Counters>, counters: Counters, ts: Uint64, d: Direction, since: int)
    ensures Since(Delta(last, counters, ts), d, since) ==
            if last.Some? && ts >= since && Reading(last.value, d) < Reading(counters, d)
            then Reading(counters, d) - Reading(last.value, d) else 0
  {
    if last.Some? {
      SinceOfBucket(ts, SafeDelta(counters.tx, last.value.tx), SafeDelta(counters.rx, last.value.rx), d, since);
    }
  }

  /**
   * For any readings, restarted counters among them, the traffic of the log from any instant on is the sum of the
   * rises.
   */
  lemma {:induction false} LogIsRises(events: seq<Event>, d: Direction, since: int)
    ensures Since(RawLog(events), d, since) == Rises(SamplesOf(events), d, since)
  {
    hide Since, Delta, Rises;
    if events == [] {
      SinceEmpty(d, since);
      RisesOfNothing(d, since);
    } else {
      var before, e := events[..|events| - 1], events[|events| - 1];
      LogIsRises(before, d, since);
      LastSampleIsLastReading(before);
      if e.Sample? {
        SinceOfDelta(LastReading(before), e.counters, e.ts, d, since);
        SinceConcat(RawLog(before), Delta(LastReading(before), e.counters, e.ts), d, since);
        RisesOneMore(SamplesOf(before), Measured(e.counters, e.ts), d, since);
      } else {
        assert RawLog(before) + [] == RawLog(before) && SamplesOf(before) + [] == SamplesOf(before);
      }
    }
  }

  lemma RisesOfNothing(d: Direction, since: int)
    ensures Rises([], d, since) == 0
  {
  }

  lemma RisesOneMore(samples: seq<Measured>, x: Measured, d: Direction, since: int)
    ensures Rises(samples + [x], d, since) == Rises(samples, d, since)
      + if samples != [] && x.ts >= since && Reading(samples[|samples| - 1].counters, d) < Reading(x.counters, d)
        then Reading(x.counters, d) - Reading(samples[|samples| - 1].counters, d) else 0
  {
    assert (samples + [x])[..|samples|] == samples;
  }

  lemma {:induction false} SamplesConcat(a: seq<Event>, b: seq<Event>)
    ensures SamplesOf(a + b) == SamplesOf(a) + SamplesOf(b)
  {
    if b == [] {
      assert a + b == a;
    } else {
      SamplesConcat(a, b[..|b| - 1]);
      assert (a + b)[..|a + b| - 1] == a + b[..|b| - 1];
    }
  }

  lemma {:induction false} RisesConcat(x: seq<Measured>, y: seq<Measured>, d: Direction, since: int)
    requires x != [] && y != [] && Reading(y[0].counters, d) <= Reading(x[|x| - 1].counters, d)
    ensures Rises(x + y, d, since) == Rises(x, d, since) + Rises(y, d, since)
  {
    assert (x + y)[..|x + y| - 1] == x + y[..|y| - 1];
    if |y| == 1 {
      assert x + y[..0] == x;
    } else {
      RisesConcat(x, y[..|y| - 1], d, since);
    }
  }

  lemma {:induction false} FirstSample(events: seq<Event>)
    requires events != [] && events[0].Sample?
    ensures SamplesOf(events) != [] && SamplesOf(events)[0].counters == events[0].counters
  {
    if |events| == 1 {
      assert events[..0] == [];
    } else {
      FirstSample(events[..|events| - 1]);
    }
  }

  /** Across a restart of the counters the log adds up to the growth before it and the growth after it. */
  lemma RestartIsNoTraffic(a: seq<Event>, b: seq<Event>, d: Direction)
    requires a != [] && a[0].Sample? && NeverBackwards(a, d)
    requires b != [] && b[0].Sample? && NeverBackwards(b, d)
    requires LastReading(a).Some? && Reading(b[0].counters, d) < Reading(LastReading(a).value, d)
    ensures LastReading(b).Some?
    ensures Since(RawLog(a + b), d, 0) == Reading(LastReading(a).value, d) - Reading(a[0].counters, d)
                                          + Reading(LastReading(b).value, d) - Reading(b[0].counters, d)
  {
    hide Since, Rises;
    LogTelescopes(a, d);
    LogTelescopes(b, d);
    LogIsRises(a, d, 0);
    LogIsRises(b, d, 0);
    LogIsRises(a + b, d, 0);
    SamplesConcat(a, b);
    FirstSample(a);
    FirstSample(b);
    LastSampleIsLastReading(a);
    RisesConcat(SamplesOf(a), SamplesOf(b), d, 0);
  }

  /** The log holds no empty records. */
  lemma {:induction false} LogHasTraffic(events: seq<Event>)
    ensures forall td :: td in RawLog(events) ==> td.tx > 0 || td.rx > 0
  {
    if events != [] {
      LogHasTraffic(events[..|events| - 1]);
    }
  }

  // ---------------------------------------------------------------- purging and stamps

  /** The purge keeps exactly the records stamped at or after the cutoff. */
  lemma {:induction false} KeepHas(arr: seq<TrafficData>, cutoff: int)
    ensures forall td :: td in Keep(arr, cutoff) <==> td in arr && td.timestamp >= cutoff
  {
    if arr != [] {
      KeepHas(arr[..|arr| - 1], cutoff);
      assert arr == arr[..|arr| - 1] + [arr[|arr| - 1]];
    }
  }

  /** Without a reset day a flush turns the samples into one record stamped at the flush. */
  lemma UnscheduledFlush(arr: seq<TrafficData>, flushTs: Uint64, rule: ResetRule)
    requires rule.day < 1 || rule.day > 31
    ensures Aggregate(arr, flushTs, ResetBoundaryUnix(rule, flushTs))
            == Bucket(flushTs, Wrap(Since(arr, Tx, 0)), Wrap(Since(arr, Rx, 0)))
  {
  }

  lemma {:induction false} KeepStamps(arr: seq<TrafficData>, cutoff: int, now: int)
    requires StampedBy(arr, now)
    ensures StampedBy(Keep(arr, cutoff), now)
  {
    if arr != [] {
      KeepStamps(arr[..|arr| - 1], cutoff, now);
    }
  }

  lemma {:induction false} KeepsSince(arr: seq<TrafficData>, cutoff: int, since: int, d: Direction)
    requires cutoff <= since
    ensures Since(Keep(arr, cutoff), d, since) == Since(arr, d, since)
  {
    if arr != [] {
      var last := |arr| - 1;
      KeepsSince(arr[..last], cutoff, since, d);
      var tail := if arr[last].timestamp >= cutoff then [arr[last]] else [];
      SinceConcat(Keep(arr[..last], cutoff), tail, d, since);
      assert tail != [] ==> tail[..0] == [];
    }
  }

  lemma BoundaryBounds(rule: ResetRule, ts: Uint64)
    requires Scheduled(rule)
    ensures ResetBoundaryUnix(rule, ts) <= ts
  {
    hide GetLastResetInstant, ResetOf;
    LastResetIsGreatest(rule, ts);
  }

  lemma StepStamps(nic: Nic, e: Event, now: int, rule: ResetRule, preserve: int)
    requires Scheduled(rule) && e.ts <= now
    requires StampedBy(nic.stored, now) && StampedBy(nic.cached, now)
    ensures var next := Step(nic, e, rule, preserve); StampedBy(next.stored, now) && StampedBy(next.cached, now)
  {
    hide ResetBoundaryUnix;
    match e {
      case Sample(counters, ts) =>
      case Flush(ts) =>
        BoundaryBounds(rule, ts);
      case Purge(ts) =>
        KeepStamps(nic.stored, Cutoff(ts, preserve), now);
    }
  }

  /** Every stored and cached stamp lies in the past; the last reading and the cache are the reference's. */
  lemma {:induction false} RunStamps(events: seq<Event>, rule: ResetRule, preserve: int, now: int)
    requires Scheduled(rule) && TimedBy(events, now, preserve)
    ensures var nic := RunFrom(FRESH, events, rule, preserve);
            && StampedBy(nic.stored, now) && StampedBy(nic.cached, now)
            && nic.last == LastReading(events) && nic.cached == Unflushed(events)
  {
    if events != [] {
      hide ResetBoundaryUnix, Aggregate, Keep, Delta;
      var before, e := events[..|events| - 1], events[|events| - 1];
      RunStamps(before, rule, preserve, now);
      hide StampedBy;
      StepStamps(RunFrom(FRESH, before, rule, preserve), e, now, rule, preserve);
    }
  }

  /** Buckets and cache of a NIC, together with what was flushed late, against a log, seen from `since`. */
  ghost predicate Accounts(nic: Nic, late: int, log: seq<TrafficData>, d: Direction, since: int) {
    Wrap(Since(nic.stored, d, since) + Since(nic.cached, d, since) + late) == Wrap(Since(log, d, since))
  }

  lemma SampleAccounts(nic: Nic, late: int, log: seq<TrafficData>, delta: seq<TrafficData>, last: Option<Counters>,
                       d: Direction, since: int)
    requires Accounts(nic, late, log, d, since)
    ensures Accounts(Nic(nic.stored, nic.cached + delta, last), late, log + delta, d, since)
  {
    hide Since;
    var S, C := Since(nic.stored, d, since), Since(nic.cached, d, since);
    var L, D := Since(log, d, since), Since(delta, d, since);
    SinceConcat(nic.cached, delta, d, since);
    SinceConcat(log, delta, d, since);
    WrapAdd(S + C + late, D);
    WrapAdd(L, D);
  }

  lemma FlushAccounts(nic: Nic, late: int, log: seq<TrafficData>, ts: Uint64, rule: ResetRule, k: int, d: Direction)
    requires Scheduled(rule) && GetLastResetInstant(rule, ts) <= ResetOf(rule, k)
    requires Accounts(nic, late, log, d, ResetOf(rule, k))
    ensures Accounts(Nic(nic.stored + Aggregate(nic.cached, ts, ResetBoundaryUnix(rule, ts)), [], nic.last),
                     late + if ts < ResetOf(rule, k) then Since(nic.cached, d, ResetOf(rule, k)) else 0,
                     log, d, ResetOf(rule, k))
  {
    hide GetLastResetInstant, ResetOf, Aggregate, ResetBoundaryUnix, Since;
    var since, flushed := ResetOf(rule, k), Aggregate(nic.cached, ts, ResetBoundaryUnix(rule, ts));
    AggregateSinceReset(nic.cached, ts, rule, k, d);
    SinceConcat(nic.stored, flushed, d, since);
    var S, C, F := Since(nic.stored, d, since), Since(nic.cached, d, since), Since(flushed, d, since);
    WrapAdd(S + late, F);
    WrapAdd(S + late, C);
    WrapAdd(S + late + C, F);
    SinceEmpty(d, since);
  }

  lemma SinceEmpty(d: Direction, since: int)
    ensures Since([], d, since) == 0
  {
  }

  lemma PurgeAccounts(nic: Nic, late: int, log: seq<TrafficData>, ts: Uint64, rule: ResetRule, preserve: int,
                      k: int, d: Direction)
    requires Scheduled(rule) && 31 * DAY - 1 <= preserve <= ts
    requires GetLastResetInstant(rule, ts) <= ResetOf(rule, k)
    requires Accounts(nic, late, log, d, ResetOf(rule, k))
    ensures Accounts(nic.(stored := Keep(nic.stored, Cutoff(ts, preserve))), late, log, d, ResetOf(rule, k))
  {
    hide GetLastResetInstant, ResetOf;
    PreservationIsTight(preserve);
    assert ReachesLastReset(preserve, rule, ts);
    KeepsSince(nic.stored, Cutoff(ts, preserve), ResetOf(rule, k), d);
  }

  lemma NothingAccounts(d: Direction, since: int)
    ensures Accounts(FRESH, 0, [], d, since)
  {
  }

  lemma LastIsTimed(events: seq<Event>, now: int, preserve: int)
    requires TimedBy(events, now, preserve) && events != []
    ensures TimedBy(events[..|events| - 1], now, preserve)
    ensures events[|events| - 1].ts <= now && (events[|events| - 1].Purge? ==> preserve <= events[|events| - 1].ts)
  {
  }

  /** After any run, buckets, cache and what was flushed late add up to the plain log. */
  lemma {:induction false} RunAccounts(
    events: seq<Event>, rule: ResetRule, preserve: int, now: int, k: int, d: Direction)
    requires Scheduled(rule) && TimedBy(events, now, preserve) && preserve >= 31 * DAY - 1
    requires GetLastResetInstant(rule, now) <= ResetOf(rule, k)
    ensures Accounts(RunFrom(FRESH, events, rule, preserve), Late(events, d, ResetOf(rule, k)), RawLog(events),
                     d, ResetOf(rule, k))
  {
    hide GetLastResetInstant, ResetOf, ResetBoundaryUnix, Aggregate, Keep, Delta, Accounts, Since, StampedBy, TimedBy;
    if events == [] {
      NothingAccounts(d, ResetOf(rule, k));
    } else {
      var before, e := events[..|events| - 1], events[|events| - 1];
      var nic, late := RunFrom(FRESH, before, rule, preserve), Late(before, d, ResetOf(rule, k));
      LastIsTimed(events, now, preserve);
      LastResetIsMonotone(rule, e.ts, now);
      RunAccounts(before, rule, preserve, now, k, d);
      RunStamps(before, rule, preserve, now);
      assert RawLog(before) + [] == RawLog(before);
      match e {
        case Sample(counters, ts) =>
          SampleAccounts(nic, late, RawLog(before), Delta(nic.last, counters, ts), Some(counters), d, ResetOf(rule, k));
        case Flush(ts) =>
          FlushAccounts(nic, late, RawLog(before), ts, rule, k, d);
        case Purge(ts) =>
          PurgeAccounts(nic, late, RawLog(before), ts, rule, preserve, k, d);
      }
    }
  }

  /**
   * The refinement. After any run, buckets and cache together agree with the plain log, modulo 2^64 and seen from
   * any reset that is current or still to come, if and only if no traffic was flushed late for that reset.
   * Timely flushes are never late.
   */
  lemma RunAgreesWithLog(events: seq<Event>, rule: ResetRule, preserve: int, now: int, k: int, d: Direction)
    requires Scheduled(rule) && TimedBy(events, now, preserve) && preserve >= 31 * DAY - 1
    requires GetLastResetInstant(rule, now) <= ResetOf(rule, k)
    ensures var nic, since := RunFrom(FRESH, events, rule, preserve), ResetOf(rule, k);
            Wrap(Since(nic.stored, d, since) + Since(nic.cached, d, since)) == Wrap(Since(RawLog(events), d, since))
            <==> Wrap(Late(events, d, since)) == 0
    ensures FlushesAreTimely(events) ==> Late(events, d, ResetOf(rule, k)) == 0
  {
    hide GetLastResetInstant, ResetOf, RunFrom, RawLog, TimedBy, Late, Since, FlushesAreTimely;
    RunAccounts(events, rule, preserve, now, k, d);
    var nic, since := RunFrom(FRESH, events, rule, preserve), ResetOf(rule, k);
    var total, late := Since(nic.stored, d, since) + Since(nic.cached, d, since), Late(events, d, since);
    WrapDifference(total + late, total);
    assert total + late - total == late;
    if FlushesAreTimely(events) {
      TimelyIsNotLate(events, d, since);
    }
  }

  /** What a query over [start, end] reports for one NIC. Absent NICs report zero. */
  function Query(nic: Nic, d: Direction, start: int, end: int): int {
    Wrap(Sum(nic.stored, d, start, end) + Sum(nic.cached, d, start, end))
  }

  /**
   * "Traffic since the last reset", asked after any run, is the traffic of the plain log since that reset if and
   * only if nothing was flushed late for it, however often it was flushed and purged in between.
   */
  lemma TrafficSinceReset(events: seq<Event>, rule: ResetRule, preserve: int, now: Uint64, d: Direction)
    requires Scheduled(rule) && TimedBy(events, now, preserve) && preserve >= 31 * DAY - 1
    requires 0 <= GetLastResetInstant(rule, now)
    ensures var since := GetLastResetInstant(rule, now);
            Query(RunFrom(FRESH, events, rule, preserve), d, Wrap(since), now) == Wrap(Since(RawLog(events), d, since))
            <==> Wrap(Late(events, d, since)) == 0
    ensures FlushesAreTimely(events) ==> Late(events, d, GetLastResetInstant(rule, now)) == 0
  {
    hide GetLastResetInstant, ResetOf, RunFrom, RawLog, TimedBy, Late, FlushesAreTimely, Since, Sum, StampedBy;
    var nic, since := RunFrom(FRESH, events, rule, preserve), GetLastResetInstant(rule, now);
    LastResetIsGreatest(rule, now);
    var k :| since == ResetOf(rule, k);
    RunAgreesWithLog(events, rule, preserve, now, k, d);
    RunStamps(events, rule, preserve, now);
    SumIsSince(nic.stored, d, since, now);
    SumIsSince(nic.cached, d, since, now);
  }

  /** Two readings at the moment of a reset, the second one byte ahead, and a flush whose stamp lies a second behind. */
  function LateFlush(reset: Uint64): seq<Event>
    requires 1 <= reset
  {
    [Sample(Counters(0, 0), reset), Sample(Counters(1, 0), reset), Flush(reset - 1)]
  }

  lemma LateFlushRuns(reset: Uint64, rule: ResetRule, preserve: int)
    requires 1 <= reset
    ensures var sampled := [TrafficData(reset, 1, 0)];
            && RawLog(LateFlush(reset)) == sampled
            && RunFrom(FRESH, LateFlush(reset), rule, preserve)
               == Nic(Aggregate(sampled, reset - 1, ResetBoundaryUnix(rule, reset - 1)), [], Some(Counters(1, 0)))
  {
    hide Aggregate, ResetBoundaryUnix;
    var events := LateFlush(reset);
    assert events[..2][..1] == [events[0]] && events[..1][..0] == [];
    assert LastReading(events[..1]) == Some(Counters(0, 0)) && RawLog(events[..1]) == [];
    assert RawLog(events[..2]) == [TrafficData(reset, 1, 0)];
    assert RunFrom(FRESH, events[..1], rule, preserve) == Nic([], [], Some(Counters(0, 0)));
    assert RunFrom(FRESH, events[..2], rule, preserve) == Nic([], [TrafficData(reset, 1, 0)], Some(Counters(1, 0)));
  }

  /**
   * The input behind the condition, for every rule and every reset after 1970: a byte sampled exactly at the reset and
   * flushed with a stamp one second earlier is in the plain log of the new cycle, and the query does not report it.
   */
  lemma LateSampleCrossesReset(rule: ResetRule, k: int, preserve: int)
    requires Scheduled(rule) && 1 <= ResetOf(rule, k) < TWO64
    ensures var reset := ResetOf(rule, k);
            && TimedBy(LateFlush(reset), reset, preserve) && GetLastResetInstant(rule, reset) == reset
            && Since(RawLog(LateFlush(reset)), Tx, reset) == 1
            && Query(RunFrom(FRESH, LateFlush(reset), rule, preserve), Tx, reset, reset) == 0
  {
    hide GetLastResetInstant, ResetOf, RunFrom, RawLog, Aggregate;
    var reset: Uint64 := ResetOf(rule, k);
    var sampled, boundary := [TrafficData(reset, 1, 0)], ResetBoundaryUnix(rule, reset - 1);
    LastResetIsGreatest(rule, reset);
    LateFlushRuns(reset, rule, preserve);
    BoundaryBounds(rule, reset - 1);
    assert sampled[..0] == [];
    SinceOfAggregate(sampled, reset - 1, boundary, Tx, reset);
    AggregateStamps(sampled, reset - 1, boundary, reset);
    SumIsSince(Aggregate(sampled, reset - 1, boundary), Tx, reset, reset);
  }

  lemma AggregateStamps(arr: seq<TrafficData>, flushTs: Uint64, boundary: Uint64, now: int)
    requires boundary <= flushTs <= now
    ensures StampedBy(Aggregate(arr, flushTs, boundary), now)
  {
  }

  /** From the end of January 1970 on, the last reset is not before 1970. */
  lemma RecentClocksQualify(rule: ResetRule, now: int)
    requires Scheduled(rule) && now >= 31 * DAY - 1
    ensures 0 <= GetLastResetInstant(rule, now)
  {
    hide GetLastResetInstant;
    PreservationIsTight(31 * DAY - 1);
    assert ReachesLastReset(31 * DAY - 1, rule, now);
  }

  lemma {:induction false} SumPastStamps(arr: seq<TrafficData>, d: Direction, start: int, end: int, now: int)
    requires StampedBy(arr, now) && 0 <= now < start
    ensures Sum(arr, d, start, end) == 0
  {
    if arr != [] {
      SumPastStamps(arr[..|arr| - 1], d, start, end, now);
    }
  }

  /** A last reset before 1970 wraps to a start in the far future, and nothing is reported. */
  lemma EarlyResetReportsNothing(nic: Nic, rule: ResetRule, now: Uint64, d: Direction)
    requires Scheduled(rule) && StampedBy(nic.stored, now) && StampedBy(nic.cached, now)
    requires GetLastResetInstant(rule, now) < 0
    ensures Query(nic, d, Wrap(GetLastResetInstant(rule, now)), now) == 0
  {
    hide GetLastResetInstant;
    PreservationIsTight(31 * DAY - 1);
    assert ReachesLastReset(31 * DAY - 1, rule, now);
    var start := Wrap(GetLastResetInstant(rule, now));
    assert start == GetLastResetInstant(rule, now) + TWO64 && now < start;
    SumPastStamps(nic.stored, d, start, now, now);
    SumPastStamps(nic.cached, d, start, now, now);
  }

  /** While the clock is below the preserved span, the cutoff of a purge wraps and every record is dropped. */
  lemma {:induction false} EarlyPurgeDropsAll(arr: seq<TrafficData>, now: Uint64, preserve: int)
    requires now < preserve <= TWO64 / 2 && StampedBy(arr, now)
    ensures Keep(arr, Cutoff(now, preserve)) == []
  {
    assert Cutoff(now, preserve) == now - preserve + TWO64;
    if arr != [] {
      EarlyPurgeDropsAll(arr[..|arr| - 1], now, preserve);
    }
  }
}

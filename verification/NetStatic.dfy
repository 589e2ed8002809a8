/**
 * The state of `monitoring/netstatic/static.go` for all NICs: sampling, flushing, purging and
 * querying, each tied to what the specification of one NIC says. Map iteration order is arbitrary.
 */
module NetStatic {
  import opened Common
  import opened Calendar
  import opened Traffic

  datatype IOCounters = IOCounters(name: string, counters: Counters)

  datatype Volume = Volume(tx: Uint64, rx: Uint64)

  function Records(m: map<string, seq<TrafficData>>, name: string): seq<TrafficData> {
    if name in m then m[name] else []
  }

  function Reported(res: map<string, Volume>, name: string, d: Direction): Uint64 {
    if name !in res then 0 else if d.Tx? then res[name].tx else res[name].rx
  }

  /** An empty list of monitored NICs allows all of them. */
  predicate IsNicAllowed(nics: seq<string>, name: string) {
    nics == [] || name in nics
  }

  /** The readings of one NIC within a sampling pass. */
  function Readings(ios: seq<IOCounters>, name: string, ts: Uint64, nics: seq<string>): seq<Event> {
    if ios == [] then []
    else
      var io := ios[|ios| - 1];
      Readings(ios[..|ios| - 1], name, ts, nics)
      + if io.name == name && IsNicAllowed(nics, name) then [Sample(io.counters, ts)] else []
  }

  /** A pass samples a NIC once for each of its readings, in their order, if the list is empty or names the NIC. */
  lemma {:induction false} ReadingsConcat(
    a: seq<IOCounters>, b: seq<IOCounters>, name: string, ts: Uint64, nics: seq<string>)
    ensures Readings(a + b, name, ts, nics) == Readings(a, name, ts, nics) + Readings(b, name, ts, nics)
  {
    if b == [] {
      assert a + b == a;
    } else {
      hide IsNicAllowed;
      ReadingsConcat(a, b[..|b| - 1], name, ts, nics);
      assert (a + b)[..|a + b| - 1] == a + b[..|b| - 1];
    }
  }

  lemma OneReading(io: IOCounters, name: string, ts: Uint64, nics: seq<string>)
    ensures Readings([io], name, ts, nics)
         == if io.name == name && (nics == [] || name in nics) then [Sample(io.counters, ts)] else []
  {
    assert [io][..0] == [];
  }

  lemma RunOneMore(nic: Nic, events: seq<Event>, e: Event, rule: ResetRule, preserve: int)
    ensures RunFrom(nic, events + [e], rule, preserve) == Step(RunFrom(nic, events, rule, preserve), e, rule, preserve)
  {
    assert (events + [e])[..|events|] == events;
  }

  lemma {:induction false} RunConcat(a: seq<Event>, b: seq<Event>, rule: ResetRule, preserve: int)
    ensures RunFrom(RunFrom(FRESH, a, rule, preserve), b, rule, preserve) == RunFrom(FRESH, a + b, rule, preserve)
  {
    if b == [] {
      assert a + b == a;
    } else {
      RunConcat(a, b[..|b| - 1], rule, preserve);
      assert (a + b)[..|a + b| - 1] == a + b[..|b| - 1];
    }
  }

  /** One locked operation of the package, for all NICs at once. */
  datatype Pass = Sampled(ios: seq<IOCounters>, at: Uint64) | Flushed(at: Uint64) | Purged(at: Uint64)

  function PassEvents(pass: Pass, name: string, nics: seq<string>): seq<Event> {
    match pass
    case Sampled(ios, at) => Readings(ios, name, at, nics)
    case Flushed(at) => [Flush(at)]
    case Purged(at) => [Purge(at)]
  }

  /** What a run of operations means for one NIC. */
  function EventsOf(passes: seq<Pass>, name: string, nics: seq<string>): seq<Event> {
    if passes == [] then []
    else EventsOf(passes[..|passes| - 1], name, nics) + PassEvents(passes[|passes| - 1], name, nics)
  }

  /** Nothing is stamped after `now`, and the clock has passed the preserved span at every purge. */
  ghost predicate PassedBy(passes: seq<Pass>, now: int, preserve: int) {
    forall i | 0 <= i < |passes| :: passes[i].at <= now && (passes[i].Purged? ==> preserve <= passes[i].at)
  }

  /** No flush is stamped before an earlier sampling pass. */
  ghost predicate InOrder(passes: seq<Pass>) {
    forall i, j | 0 <= i < j < |passes| && passes[i].Sampled? && passes[j].Flushed? :: passes[i].at <= passes[j].at
  }

  lemma {:induction false} ReadingsAreStamped(ios: seq<IOCounters>, name: string, ts: Uint64, nics: seq<string>)
    ensures forall i | 0 <= i < |Readings(ios, name, ts, nics)| ::
      Readings(ios, name, ts, nics)[i].Sample? && Readings(ios, name, ts, nics)[i].ts == ts
  {
    if ios != [] {
      ReadingsAreStamped(ios[..|ios| - 1], name, ts, nics);
    }
  }

  /** A NIC that a non-empty list leaves out is never sampled, so there is no traffic to report for it. */
  lemma {:induction false} UnlistedIsNeverSampled(passes: seq<Pass>, name: string, nics: seq<string>)
    requires nics != [] && name !in nics
    ensures forall i | 0 <= i < |EventsOf(passes, name, nics)| :: !EventsOf(passes, name, nics)[i].Sample?
  {
    if passes != [] {
      var last := passes[|passes| - 1];
      UnlistedIsNeverSampled(passes[..|passes| - 1], name, nics);
      if last.Sampled? {
        UnlistedHasNoReadings(last.ios, name, last.at, nics);
      }
    }
  }

  lemma {:induction false} UnlistedHasNoReadings(ios: seq<IOCounters>, name: string, ts: Uint64, nics: seq<string>)
    requires nics != [] && name !in nics
    ensures Readings(ios, name, ts, nics) == []
  {
    if ios != [] {
      UnlistedHasNoReadings(ios[..|ios| - 1], name, ts, nics);
    }
  }

  lemma {:induction false} EventsAreTimed(passes: seq<Pass>, name: string, nics: seq<string>, now: int, preserve: int)
    requires PassedBy(passes, now, preserve)
    ensures TimedBy(EventsOf(passes, name, nics), now, preserve)
  {
    if passes != [] {
      var last := passes[|passes| - 1];
      EventsAreTimed(passes[..|passes| - 1], name, nics, now, preserve);
      if last.Sampled? {
        ReadingsAreStamped(last.ios, name, last.at, nics);
      }
    }
  }

  /** Every sample of a NIC comes from a sampling pass with its stamp. */
  lemma {:induction false} SamplesComeFromPasses(passes: seq<Pass>, name: string, nics: seq<string>, i: nat)
    requires i < |EventsOf(passes, name, nics)| && EventsOf(passes, name, nics)[i].Sample?
    ensures exists p | 0 <= p < |passes| :: passes[p].Sampled? && passes[p].at == EventsOf(passes, name, nics)[i].ts
  {
    var last := |passes| - 1;
    var before := EventsOf(passes[..last], name, nics);
    if i < |before| {
      SamplesComeFromPasses(passes[..last], name, nics, i);
      var p :| 0 <= p < last && passes[..last][p].Sampled? && passes[..last][p].at == before[i].ts;
      assert passes[p].Sampled?;
    } else {
      ReadingsAreStamped(passes[last].ios, name, passes[last].at, nics);
    }
  }

  /** Passes in order give every NIC timely flushes. */
  lemma {:induction false} PassesAreTimely(passes: seq<Pass>, name: string, nics: seq<string>)
    requires InOrder(passes)
    ensures FlushesAreTimely(EventsOf(passes, name, nics))
  {
    if passes != [] {
      var last := |passes| - 1;
      var before, events := EventsOf(passes[..last], name, nics), EventsOf(passes, name, nics);
      PassesAreTimely(passes[..last], name, nics);
      if passes[last].Sampled? {
        ReadingsAreStamped(passes[last].ios, name, passes[last].at, nics);
      }
      forall i, j | 0 <= i < j < |events| && events[i].Sample? && events[j].Flush?
        ensures events[i].ts <= events[j].ts
      {
        if j < |before| {
          assert before[i].ts <= before[j].ts;
        } else {
          SamplesComeFromPasses(passes[..last], name, nics, i);
        }
      }
    }
  }

  /** What one more record adds to each accumulator. */
  lemma Accumulate(arr: seq<TrafficData>, i: int, d: Direction, boundary: Uint64)
    requires 0 <= i < |arr|
    ensures After(arr[..i + 1], d, boundary) == if arr[i].timestamp >= boundary
      then Wrap(After(arr[..i], d, boundary) + Bytes(arr[i], d)) else After(arr[..i], d, boundary)
    ensures Before(arr[..i + 1], d, boundary) == if arr[i].timestamp < boundary
      then Wrap(Before(arr[..i], d, boundary) + Bytes(arr[i], d)) else Before(arr[..i], d, boundary)
  {
    assert arr[..i + 1][..i] == arr[..i];
    WrapAdd(Since(arr[..i], d, 0) - Since(arr[..i], d, boundary), Bytes(arr[i], d));
    WrapAdd(Since(arr[..i], d, boundary), Bytes(arr[i], d));
  }

  lemma AccumulateRange(arr: seq<TrafficData>, i: int, d: Direction, start: Uint64, end: Uint64)
    requires 0 <= i < |arr|
    ensures Wrap(Sum(arr[..i + 1], d, start, end)) == if InRange(arr[i].timestamp, start, end)
      then Wrap(Wrap(Sum(arr[..i], d, start, end)) + Bytes(arr[i], d)) else Wrap(Sum(arr[..i], d, start, end))
  {
    assert arr[..i + 1][..i] == arr[..i];
    WrapAdd(Sum(arr[..i], d, start, end), Bytes(arr[i], d));
  }

  /** `aggregateByReset`: one pass that accumulates what lies before and after the boundary. */
  method AggregateByReset(arr: seq<TrafficData>, flushTs: Uint64, boundary: Uint64) returns (out: seq<TrafficData>)
    ensures out == Aggregate(arr, flushTs, boundary)
  {
    if |arr| == 0 {
      return [];
    }
    if boundary == 0 {
      out := SumTraffic(arr, flushTs);
      return;
    }
    var beforeTx: Uint64, beforeRx: Uint64, afterTx: Uint64, afterRx: Uint64 := 0, 0, 0, 0;
    for i := 0 to |arr|
      invariant beforeTx == Before(arr[..i], Tx, boundary) && beforeRx == Before(arr[..i], Rx, boundary)
      invariant afterTx == After(arr[..i], Tx, boundary) && afterRx == After(arr[..i], Rx, boundary)
    {
      hide Before, After, Wrap;
      var td := arr[i];
      Accumulate(arr, i, Tx, boundary);
      Accumulate(arr, i, Rx, boundary);
      if td.timestamp < boundary {
        beforeTx, beforeRx := Wrap(beforeTx + td.tx), Wrap(beforeRx + td.rx);
      } else {
        afterTx, afterRx := Wrap(afterTx + td.tx), Wrap(afterRx + td.rx);
      }
    }
    assert arr[..|arr|] == arr;
    out := [];
    if beforeTx > 0 || beforeRx > 0 {
      out := out + [TrafficData(if flushTs >= boundary then boundary - 1 else flushTs, beforeTx, beforeRx)];
    }
    if afterTx > 0 || afterRx > 0 {
      out := out + [TrafficData(if flushTs < boundary then boundary else flushTs, afterTx, afterRx)];
    }
  }

  method SumTraffic(arr: seq<TrafficData>, ts: Uint64) returns (out: seq<TrafficData>)
    ensures out == Bucket(ts, After(arr, Tx, 0), After(arr, Rx, 0))
  {
    var tx: Uint64, rx: Uint64 := 0, 0;
    for i := 0 to |arr|
      invariant tx == After(arr[..i], Tx, 0) && rx == After(arr[..i], Rx, 0)
    {
      hide After, Wrap;
      Accumulate(arr, i, Tx, 0);
      Accumulate(arr, i, Rx, 0);
      tx, rx := Wrap(tx + arr[i].tx), Wrap(rx + arr[i].rx);
    }
    assert arr[..|arr|] == arr;
    out := if tx == 0 && rx == 0 then [] else [TrafficData(ts, tx, rx)];
  }

  method SumRange(arr: seq<TrafficData>, start: Uint64, end: Uint64) returns (v: Volume)
    ensures v == Volume(Wrap(Sum(arr, Tx, start, end)), Wrap(Sum(arr, Rx, start, end)))
  {
    v := Volume(0, 0);
    for i := 0 to |arr|
      invariant v == Volume(Wrap(Sum(arr[..i], Tx, start, end)), Wrap(Sum(arr[..i], Rx, start, end)))
    {
      hide Sum, Wrap;
      AccumulateRange(arr, i, Tx, start, end);
      AccumulateRange(arr, i, Rx, start, end);
      if InRange(arr[i].timestamp, start, end) {
        v := Volume(Wrap(v.tx + arr[i].tx), Wrap(v.rx + arr[i].rx));
      }
    }
    assert arr[..|arr|] == arr;
  }

  /** The filter of the purge, keeping what is stamped at or after the cutoff. */
  method KeepFrom(arr: seq<TrafficData>, cutoff: Uint64) returns (kept: seq<TrafficData>)
    ensures kept == Keep(arr, cutoff)
  {
    kept := [];
    for i := 0 to |arr|
      invariant kept == Keep(arr[..i], cutoff)
    {
      assert arr[..i + 1][..i] == arr[..i];
      if arr[i].timestamp >= cutoff {
        kept := kept + [arr[i]];
      }
    }
    assert arr[..|arr|] == arr;
  }

  /** One of the two summing loops of a query: adds the totals of `m` to `base`. */
  method AddTotals(base: map<string, Volume>, m: map<string, seq<TrafficData>>, start: Uint64, end: Uint64)
    returns (res: map<string, Volume>)
    ensures forall name, d ::
      Reported(res, name, d) == Wrap(Reported(base, name, d) + Sum(Records(m, name), d, start, end))
  {
    hide Sum, Wrap, Reported;
    SumNothing(start, end);
    res := base;
    var todo := m.Keys;
    while todo != {}
      invariant todo <= m.Keys
      invariant forall name, d | name !in todo ::
        Reported(res, name, d) == Wrap(Reported(base, name, d) + Sum(Records(m, name), d, start, end))
      invariant forall name, d | name in todo :: Reported(res, name, d) == Reported(base, name, d)
    {
      var name :| name in todo;
      var v := SumRange(m[name], start, end);
      ghost var prior := res;
      if v.tx > 0 || v.rx > 0 {
        var cur := if name in res then res[name] else Volume(0, 0);
        res := res[name := Volume(Wrap(cur.tx + v.tx), Wrap(cur.rx + v.rx))];
      }
      VolumeAdded(prior, res, name, v);
      forall d: Direction
        ensures Reported(res, name, d) == Wrap(Reported(base, name, d) + Sum(Records(m, name), d, start, end))
      {
        assert Reported(prior, name, d) == Reported(base, name, d);
        WrapAdd(Reported(base, name, d), Sum(m[name], d, start, end));
        assert d == Tx || d == Rx;
      }
      todo := todo - {name};
    }
  }

  /** A volume that is added, or is zero and left out, shows up under its name and nowhere else. */
  lemma VolumeAdded(prior: map<string, Volume>, res: map<string, Volume>, name: string, v: Volume)
    requires var cur := if name in prior then prior[name] else Volume(0, 0);
             res == if v.tx > 0 || v.rx > 0 then prior[name := Volume(Wrap(cur.tx + v.tx), Wrap(cur.rx + v.rx))]
                    else prior
    ensures Reported(res, name, Tx) == Wrap(Reported(prior, name, Tx) + v.tx)
    ensures Reported(res, name, Rx) == Wrap(Reported(prior, name, Rx) + v.rx)
    ensures forall other, d | other != name :: Reported(res, other, d) == Reported(prior, other, d)
  {
  }

  lemma KeepNothing(cutoff: Uint64)
    ensures Keep([], cutoff) == []
  {
  }

  lemma NothingToFlush(ts: Uint64, boundary: Uint64)
    ensures Aggregate([], ts, boundary) == []
  {
    assert forall d: Direction :: After([], d, boundary) == 0 && Before([], d, boundary) == 0 && After([], d, 0) == 0;
  }

  lemma SumNothing(start: Uint64, end: Uint64)
    ensures forall d :: Sum([], d, start, end) == 0
    ensures Wrap(0) == 0 && forall x: Uint64 :: Wrap(x) == x
  {
  }

  class NetStatic {
    var store: map<string, seq<TrafficData>>
    var staticCache: map<string, seq<TrafficData>>
    var lastCounters: map<string, Counters>
    const rule: ResetRule
    const preserve: int  // seconds
    const nics: seq<string>
    ghost var passes: seq<Pass>  // every operation so far

    /** Every NIC is in the state that the operations so far prescribe. */
    ghost predicate Valid()
      reads this
    {
      forall name :: NicOf(name) == RunFrom(FRESH, EventsOf(passes, name, nics), rule, preserve)
    }

    ghost function NicOf(name: string): Nic
      reads this`store, this`staticCache, this`lastCounters
    {
      Nic(Records(store, name), Records(staticCache, name),
          if name in lastCounters then Some(lastCounters[name]) else None)
    }

    constructor (rule: ResetRule, preserve: int, nics: seq<string>)
      ensures this.rule == rule && this.preserve == preserve && this.nics == nics
      ensures Valid() && passes == []
    {
      store, staticCache, lastCounters := map[], map[], map[];
      this.rule, this.preserve, this.nics := rule, preserve, nics;
      passes := [];
    }

    /** An operation that steps every NIC by its events keeps the state valid. */
    twostate lemma ValidAgain(pass: Pass)
      requires old(Valid()) && passes == old(passes) + [pass]
      requires forall name :: NicOf(name) == RunFrom(old(NicOf(name)), PassEvents(pass, name, nics), rule, preserve)
      ensures Valid()
    {
      hide NicOf, Step;
      assert passes[..|passes| - 1] == old(passes);
      forall name
        ensures NicOf(name) == RunFrom(FRESH, EventsOf(passes, name, nics), rule, preserve)
      {
        RunConcat(EventsOf(old(passes), name, nics), PassEvents(pass, name, nics), rule, preserve);
      }
    }

    method SampleOnce(ios: seq<IOCounters>, ts: Uint64)
      requires Valid()
      modifies this`staticCache, this`lastCounters, this`passes
      ensures Valid() && passes == old(passes) + [Sampled(ios, ts)]
      ensures forall name :: NicOf(name) == RunFrom(old(NicOf(name)), Readings(ios, name, ts, nics), rule, preserve)
    {
      hide NicOf, Step;
      for i := 0 to |ios|
        invariant passes == old(passes)
        invariant forall name ::
          NicOf(name) == RunFrom(old(NicOf(name)), Readings(ios[..i], name, ts, nics), rule, preserve)
      {
        var name := ios[i].name;
        assert ios[..i + 1][..i] == ios[..i];
        assert forall n | n != name || !IsNicAllowed(nics, n) ::
          Readings(ios[..i + 1], n, ts, nics) == Readings(ios[..i], n, ts, nics);
        if IsNicAllowed(nics, name) {
          RunOneMore(old(NicOf(name)), Readings(ios[..i], name, ts, nics), Sample(ios[i].counters, ts), rule, preserve);
          SampleNic(name, ios[i].counters, ts);
        }
      }
      assert ios[..|ios|] == ios;
      passes := passes + [Sampled(ios, ts)];
      ValidAgain(Sampled(ios, ts));
    }

    /** The body of the sampling loop for an allowed NIC. */
    method SampleNic(name: string, cur: Counters, ts: Uint64)
      modifies this`staticCache, this`lastCounters
      ensures NicOf(name) == Step(old(NicOf(name)), Sample(cur, ts), rule, preserve)
      ensures forall n | n != name :: NicOf(n) == old(NicOf(n))
    {
      if name in lastCounters {
        var prev := lastCounters[name];
        var dtx, drx := SafeDelta(cur.tx, prev.tx), SafeDelta(cur.rx, prev.rx);
        if dtx > 0 || drx > 0 {
          staticCache := staticCache[name := Records(staticCache, name) + [TrafficData(ts, dtx, drx)]];
        }
      }
      lastCounters := lastCounters[name := cur];
    }

    method FlushCache(ts: Uint64)
      requires Valid()
      modifies this`store, this`staticCache, this`passes
      ensures Valid() && passes == old(passes) + [Flushed(ts)]
      ensures forall name :: NicOf(name) == Step(old(NicOf(name)), Flush(ts), rule, preserve)
    {
      hide ResetBoundaryUnix, Aggregate;
      var boundary := ResetBoundaryUnix(rule, ts);
      NothingToFlush(ts, boundary);
      var todo := staticCache.Keys;
      while todo != {}
        invariant passes == old(passes) && staticCache == old(staticCache) && todo <= staticCache.Keys
        invariant forall name | name !in todo ::
          Records(store, name) == Records(old(store), name) + Aggregate(Records(staticCache, name), ts, boundary)
        invariant forall name | name in todo :: Records(store, name) == Records(old(store), name)
      {
        var name :| name in todo;
        var recs := AggregateByReset(staticCache[name], ts, boundary);
        if recs != [] {
          store := store[name := Records(store, name) + recs];
        }
        todo := todo - {name};
      }
      staticCache := map[];
      passes := passes + [Flushed(ts)];
      ValidAgain(Flushed(ts));
    }

    method PurgeExpired(now: Uint64)
      requires Valid()
      modifies this`store, this`passes
      ensures Valid() && passes == old(passes) + [Purged(now)]
      ensures forall name :: NicOf(name) == Step(old(NicOf(name)), Purge(now), rule, preserve)
    {
      hide Cutoff, Keep;
      var cutoff := Cutoff(now, preserve);
      assert Keep([], cutoff) == [] by { KeepNothing(cutoff); }
      var todo := store.Keys;
      while todo != {}
        invariant passes == old(passes) && todo <= store.Keys
        invariant forall name | name !in todo :: Records(store, name) == Keep(Records(old(store), name), cutoff)
        invariant forall name | name in todo :: Records(store, name) == Records(old(store), name)
      {
        var name :| name in todo;
        var kept := KeepFrom(store[name], cutoff);
        store := if kept == [] then store - {name} else store[name := kept];
        todo := todo - {name};
      }
      passes := passes + [Purged(now)];
      ValidAgain(Purged(now));
    }

    method GetTotalTrafficBetween(start: Uint64, end: Uint64) returns (res: map<string, Volume>)
      ensures forall name, d :: Reported(res, name, d) == Query(NicOf(name), d, start, end)
    {
      var fromStore := AddTotals(map[], store, start, end);
      res := AddTotals(fromStore, staticCache, start, end);
      forall name, d
        ensures Reported(res, name, d) == Query(NicOf(name), d, start, end)
      {
        hide Wrap, Sum;
        assert Reported(fromStore, name, d)
            == Wrap(Reported(map[], name, d) + Sum(Records(store, name), d, start, end));
        WrapAdd(Sum(Records(store, name), d, start, end), Sum(Records(staticCache, name), d, start, end));
      }
    }

    /**
     * The monthly totals of `NetworkSpeed` (`monitoring/unit/net.go:234-240`): for every NIC, the traffic of its
     * plain sample log since the last reset, if and only if nothing was flushed late for that reset.
     */
    method TotalSinceReset(now: Uint64) returns (res: map<string, Volume>)
      requires Valid() && Scheduled(rule) && PassedBy(passes, now, preserve) && preserve >= 31 * DAY - 1
      requires 0 <= GetLastResetInstant(rule, now)
      ensures forall name, d ::
        Reported(res, name, d) == Wrap(Since(RawLog(EventsOf(passes, name, nics)), d, GetLastResetInstant(rule, now)))
        <==> Wrap(Late(EventsOf(passes, name, nics), d, GetLastResetInstant(rule, now))) == 0
      ensures InOrder(passes) ==> forall name, d ::
        Reported(res, name, d) == Wrap(Since(RawLog(EventsOf(passes, name, nics)), d, GetLastResetInstant(rule, now)))
    {
      hide GetLastResetInstant, RunFrom, Query, NicOf, Late, Since, InOrder, PassedBy, FlushesAreTimely;
      var since := GetLastResetInstant(rule, now);
      res := GetTotalTrafficBetween(Wrap(since), now);
      forall name, d
        ensures Reported(res, name, d) == Wrap(Since(RawLog(EventsOf(passes, name, nics)), d, since))
          <==> Wrap(Late(EventsOf(passes, name, nics), d, since)) == 0
        ensures InOrder(passes) ==> Late(EventsOf(passes, name, nics), d, since) == 0
      {
        EventsAreTimed(passes, name, nics, now, preserve);
        if InOrder(passes) {
          PassesAreTimely(passes, name, nics);
        }
        TrafficSinceReset(EventsOf(passes, name, nics), rule, preserve, now, d);
        assert Reported(res, name, d) == Query(NicOf(name), d, Wrap(since), now);
      }
    }
  }
}

/** The bounded window of event ids already seen, and the events it guards (`server/websocket.go`). */
module EventWindow {
  const LIMIT: nat := 512

  // ---------------------------------------------------------------- the list of ids

  ghost predicate Distinct(ids: seq<string>) {
    forall i, j :: 0 <= i < j < |ids| ==> ids[i] != ids[j]
  }

  ghost predicate Good(ids: seq<string>) {
    Distinct(ids) && |ids| <= 512 && "" !in ids
  }

  predicate Accepts(ids: seq<string>, id: string) {
    id != "" && id !in ids
  }

  /** A new id is appended; the oldest leaves when there are more than `LIMIT`. */
  function MarkIn(ids: seq<string>, id: string): seq<string> {
    if !Accepts(ids, id) then ids
    else if |ids| < LIMIT then ids + [id]
    else ids[1..] + [id]
  }

  /** The list without the first occurrence of an id. */
  function Without(ids: seq<string>, id: string): seq<string> {
    if ids == [] then []
    else if ids[0] == id then ids[1..]
    else [ids[0]] + Without(ids[1..], id)
  }

  lemma {:induction false} WithoutAbsent(ids: seq<string>, id: string)
    requires id !in ids
    ensures Without(ids, id) == ids
  {
    if ids != [] {
      WithoutAbsent(ids[1..], id);
    }
  }

  lemma {:induction false} WithoutAt(ids: seq<string>, id: string, k: nat)
    requires k < |ids| && ids[k] == id && id !in ids[..k]
    ensures Without(ids, id) == ids[..k] + ids[k + 1..]
  {
    if k > 0 {
      assert ids[0] in ids[..k];
      assert ids[1..][..k - 1] == ids[..k][1..];
      WithoutAt(ids[1..], id, k - 1);
      assert ids[1..][k..] == ids[k + 1..];
    }
  }

  lemma {:induction false} FirstAt(ids: seq<string>, id: string) returns (k: nat)
    requires id in ids
    ensures k < |ids| && ids[k] == id && id !in ids[..k]
  {
    if ids[0] == id {
      k := 0;
    } else {
      assert id in ids[1..];
      k := FirstAt(ids[1..], id);
      k := k + 1;
      assert ids[..k] == [ids[0]] + ids[1..][..k - 1];
    }
  }

  /** Forgetting removes exactly that id and keeps the others in order. */
  lemma WithoutKeepsGood(ids: seq<string>, id: string)
    requires Good(ids)
    ensures Good(Without(ids, id)) && id !in Without(ids, id)
    ensures forall x :: x in Without(ids, id) <==> x in ids && x != id
    ensures |Without(ids, id)| == if id in ids then |ids| - 1 else |ids|
  {
    if id in ids {
      var k := FirstAt(ids, id);
      WithoutAt(ids, id, k);
      assert ids == ids[..k] + [id] + ids[k + 1..];
    } else {
      WithoutAbsent(ids, id);
    }
  }

  lemma WithoutAbsentInGood(ids: seq<string>, id: string)
    requires Good(ids)
    ensures id == "" ==> Without(ids, id) == ids
  {
    if id == "" {
      WithoutAbsent(ids, id);
    }
  }

  lemma MarkKeepsGood(ids: seq<string>, id: string)
    requires Good(ids)
    ensures Good(MarkIn(ids, id))
    ensures id != "" ==> id in MarkIn(ids, id)
  {
  }

  /**
   * A refused event is marked and forgotten again. That restores the window exactly when it was not full;
   * a full window has lost its oldest id for good.
   */
  lemma ForgetUndoesMarkExactly(ids: seq<string>, id: string)
    requires Good(ids) && Accepts(ids, id)
    ensures Without(MarkIn(ids, id), id) == if |ids| < 512 then ids else ids[1..]
    ensures Without(MarkIn(ids, id), id) == ids <==> |ids| < 512
  {
    var marked := MarkIn(ids, id);
    WithoutAt(marked, id, |marked| - 1);
    assert marked[..|marked| - 1] == if |ids| < LIMIT then ids else ids[1..];
  }

  // ---------------------------------------------------------------- runs

  /** The critical sections, from any number of loops, in the order they take the mutex. */
  datatype Op = Mark(id: string) | Forget(id: string)

  function Next(ids: seq<string>, op: Op): seq<string> {
    match op
    case Mark(id) => MarkIn(ids, id)
    case Forget(id) => if id == "" then ids else Without(ids, id)
  }

  function After(ids: seq<string>, ops: seq<Op>): seq<string> {
    if ops == [] then ids else Next(After(ids, ops[..|ops| - 1]), ops[|ops| - 1])
  }

  /** How many new ids a run accepts. */
  function Accepted(ids: seq<string>, ops: seq<Op>): nat {
    if ops == [] then 0
    else
      var last := ops[|ops| - 1];
      Accepted(ids, ops[..|ops| - 1])
      + if last.Mark? && Accepts(After(ids, ops[..|ops| - 1]), last.id) then 1 else 0
  }

  lemma {:induction false} RunsKeepGood(ids: seq<string>, ops: seq<Op>)
    requires Good(ids)
    ensures Good(After(ids, ops))
  {
    if ops != [] {
      RunsKeepGood(ids, ops[..|ops| - 1]);
      var before, last := After(ids, ops[..|ops| - 1]), ops[|ops| - 1];
      match last
      case Mark(id) => MarkKeepsGood(before, id);
      case Forget(id) => WithoutKeepsGood(before, id);
    }
  }

  /** How many ids are younger than the one at a position. */
  ghost predicate YoungerBy(ids: seq<string>, id: string, n: int) {
    0 <= n < |ids| && ids[|ids| - 1 - n] == id
  }

  lemma MarkAges(ids: seq<string>, id: string, n: int, other: string)
    requires Good(ids) && YoungerBy(ids, id, n)
    ensures !Accepts(ids, other) ==> MarkIn(ids, other) == ids
    ensures Accepts(ids, other) && n < 512 - 1 ==> YoungerBy(MarkIn(ids, other), id, n + 1)
    ensures Accepts(ids, other) && n == 512 - 1 ==> id !in MarkIn(ids, other)
  {
    if Accepts(ids, other) {
      var k := |ids| - 1 - n;
      if |ids| < LIMIT {
        assert MarkIn(ids, other)[k] == ids[k];
      } else if k > 0 {
        assert MarkIn(ids, other)[k - 1] == ids[k];
      } else {
        assert MarkIn(ids, other) == ids[1..] + [other] && forall j :: 1 <= j < |ids| ==> ids[j] != id;
      }
    }
  }

  lemma MarkBringsNoOther(ids: seq<string>, id: string, other: string)
    requires id !in ids && other != id
    ensures id !in MarkIn(ids, other)
  {
  }

  lemma ForgetRejuvenates(ids: seq<string>, id: string, n: int, other: string) returns (n': int)
    requires Good(ids) && YoungerBy(ids, id, n) && other != id
    ensures YoungerBy(Without(ids, other), id, n') && n' <= n
  {
    n' := n;
    if other in ids {
      var k := FirstAt(ids, other);
      WithoutAt(ids, other, k);
      if k > |ids| - 1 - n {
        n' := n - 1;
      }
    } else {
      WithoutAbsent(ids, other);
    }
  }

  lemma {:induction false} AgesWithTheRun(ids: seq<string>, id: string, ops: seq<Op>) returns (n: int)
    requires Good(ids) && Accepts(ids, id) && Forget(id) !in ops
    requires Accepted(MarkIn(ids, id), ops) < 512
    ensures YoungerBy(After(MarkIn(ids, id), ops), id, n) && n <= Accepted(MarkIn(ids, id), ops)
  {
    var start := MarkIn(ids, id);
    MarkKeepsGood(ids, id);
    if ops == [] {
      n := 0;
    } else {
      var init, last := ops[..|ops| - 1], ops[|ops| - 1];
      assert Forget(id) !in init && last in ops;
      n := AgesWithTheRun(ids, id, init);
      RunsKeepGood(start, init);
      match last
      case Mark(other) => {
        MarkAges(After(start, init), id, n, other);
        n := if Accepts(After(start, init), other) then n + 1 else n;
      }
      case Forget(other) =>
        if other != "" {
          n := ForgetRejuvenates(After(start, init), id, n, other);
        }
    }
  }

  /** An id marked and not forgotten is rejected for as long as fewer than 512 further new ids have been accepted. */
  lemma MarkedIsRejected(ids: seq<string>, id: string, ops: seq<Op>)
    requires Good(ids) && Accepts(ids, id) && Forget(id) !in ops
    requires Accepted(MarkIn(ids, id), ops) < 512
    ensures id in After(MarkIn(ids, id), ops) && !Accepts(After(MarkIn(ids, id), ops), id)
  {
    var n := AgesWithTheRun(ids, id, ops);
  }

  /** A run that only marks other ids. */
  ghost predicate OnlyMarksOthers(ops: seq<Op>, id: string) {
    forall i :: 0 <= i < |ops| ==> ops[i].Mark? && ops[i].id != id
  }

  /** What one more mark adds to a run. */
  lemma OneMoreMark(ids: seq<string>, ops: seq<Op>)
    requires ops != [] && ops[|ops| - 1].Mark?
    ensures var before, last := After(ids, ops[..|ops| - 1]), ops[|ops| - 1].id;
            && After(ids, ops) == MarkIn(before, last)
            && Accepted(ids, ops) == Accepted(ids, ops[..|ops| - 1]) + if Accepts(before, last) then 1 else 0
  {
  }

  lemma {:induction false} AgesExactly(ids: seq<string>, id: string, ops: seq<Op>)
    requires Good(ids) && Accepts(ids, id) && OnlyMarksOthers(ops, id)
    ensures var start := MarkIn(ids, id);
            if Accepted(start, ops) < 512 then YoungerBy(After(start, ops), id, Accepted(start, ops))
            else id !in After(start, ops)
  {
    var start := MarkIn(ids, id);
    MarkKeepsGood(ids, id);
    if ops == [] {
      assert YoungerBy(start, id, 0);
    } else {
      hide MarkIn, Good, Accepts, YoungerBy, After, Accepted;
      var init, last := ops[..|ops| - 1], ops[|ops| - 1].id;
      AgesExactly(ids, id, init);
      RunsKeepGood(start, init);
      OneMoreMark(start, ops);
      if Accepted(start, init) < LIMIT {
        MarkAges(After(start, init), id, Accepted(start, init), last);
      } else {
        MarkBringsNoOther(After(start, init), id, last);
      }
    }
  }

  lemma YoungerIsIn(ids: seq<string>, id: string, n: int)
    requires YoungerBy(ids, id, n)
    ensures id in ids
  {
  }

  /**
   * The bound is exact when nothing is forgotten: the id is still known if and only if fewer than 512 new ids
   * followed.
   */
  lemma WindowIsExact(ids: seq<string>, id: string, ops: seq<Op>)
    requires Good(ids) && Accepts(ids, id) && OnlyMarksOthers(ops, id)
    ensures id in After(MarkIn(ids, id), ops) <==> Accepted(MarkIn(ids, id), ops) < 512
  {
    hide MarkIn, Good, Accepts, YoungerBy, After, Accepted;
    AgesExactly(ids, id, ops);
    if Accepted(MarkIn(ids, id), ops) < LIMIT {
      YoungerIsIn(After(MarkIn(ids, id), ops), id, Accepted(MarkIn(ids, id), ops));
    }
  }

  // ---------------------------------------------------------------- the events

  datatype Method =
    | Exec | McpExec | McpFile | McpCancel | McpRenew | McpRevoke
    | Ping | Route | Remote | Config | Message | Unknown

  /** What the dispatcher answers for an event it has not seen: `bound` parameters, and the word of the callee. */
  function Answer(m: Method, bound: bool, accepted: bool): bool {
    match m
    case Exec | McpExec | McpFile | Config => bound && accepted
    case McpCancel | McpRenew | McpRevoke | Ping | Route | Remote => bound
    case Message => true
    case Unknown => false
  }

  /** When it also forgets the event, so that a redelivery runs again. */
  predicate Forgets(m: Method, bound: bool, accepted: bool) {
    match m
    case Exec | McpExec | McpFile => !bound || !accepted
    case McpCancel | McpRenew | McpRevoke | Config => !bound
    case Ping | Route | Remote | Message | Unknown => false
  }

  /** The window after one event whose two critical sections nothing separates. */
  function Processed(ids: seq<string>, id: string, m: Method, bound: bool, accepted: bool): seq<string> {
    if id != "" && id in ids then ids
    else if Forgets(m, bound, accepted) then Next(MarkIn(ids, id), Forget(id))
    else MarkIn(ids, id)
  }

  /** An event that was acknowledged is never run again while fewer than 512 other new events are accepted. */
  lemma AcknowledgedEventIsNotRerun(ids: seq<string>, id: string, m: Method, bound: bool, accepted: bool, ops: seq<Op>)
    requires Good(ids) && Accepts(ids, id) && Answer(m, bound, accepted)
    requires Forget(id) !in ops && Accepted(Processed(ids, id, m, bound, accepted), ops) < 512
    ensures !Accepts(After(Processed(ids, id, m, bound, accepted), ops), id)
  {
    MarkedIsRejected(ids, id, ops);
  }

  // ---------------------------------------------------------------- interleaved deliveries

  /** Deliveries are numbered; `running` holds those whose method has been entered and not yet answered. */
  datatype Dispatch = Dispatch(ids: seq<string>, running: map<nat, string>, next: nat)

  /**
   * The two critical sections of one delivery: `Deliver` marks the event, and `Finish` is the answer of its method,
   * which forgets the event or leaves the window alone. Anything may happen in between.
   */
  datatype Event = Deliver(id: string) | Finish(delivery: nat, m: Method, bound: bool, accepted: bool)

  function Delivered(s: Dispatch, id: string): Dispatch {
    if id != "" && id in s.ids then s.(next := s.next + 1)
    else Dispatch(MarkIn(s.ids, id), s.running[s.next := id], s.next + 1)
  }

  function Finished(s: Dispatch, e: Event): Dispatch
    requires e.Finish? && e.delivery in s.running
  {
    s.(running := s.running - {e.delivery},
       ids := if Forgets(e.m, e.bound, e.accepted) then Next(s.ids, Forget(s.running[e.delivery])) else s.ids)
  }

  ghost predicate Step(s: Dispatch, e: Event, s': Dispatch) {
    match e
    case Deliver(id) => s' == Delivered(s, id)
    case Finish(d, _, _, _) => d in s.running && s' == Finished(s, e)
  }

  ghost predicate IsRun(states: seq<Dispatch>, events: seq<Event>) {
    && |states| == |events| + 1
    && states[0] == Dispatch([], map[], 0)
    && (forall i :: 0 <= i < |events| ==> Step(states[i], events[i], states[i + 1]))
  }

  ghost predicate Inv(s: Dispatch) {
    Good(s.ids) && (forall d :: d in s.running ==> d < s.next)
  }

  lemma StepKeepsInv(s: Dispatch, e: Event, s': Dispatch)
    requires Inv(s) && Step(s, e, s')
    ensures Inv(s')
  {
    hide Good, MarkIn, Without;
    match e
    case Deliver(id) => MarkKeepsGood(s.ids, id);
    case Finish(d, _, _, _) => WithoutKeepsGood(s.ids, s.running[d]);
  }

  lemma {:induction false} DispatchInvariant(states: seq<Dispatch>, events: seq<Event>, n: nat)
    requires IsRun(states, events) && n <= |events|
    ensures Inv(states[n])
  {
    if n > 0 {
      DispatchInvariant(states, events, n - 1);
      StepKeepsInv(states[n - 1], events[n - 1], states[n]);
    }
  }

  /**
   * A refused event is retried when it is delivered again if and only if its method forgets it, or the window has lost
   * it meanwhile. Otherwise the redelivery is taken for a duplicate and acknowledged although nothing was done.
   */
  lemma RefusedEventIsRetriedExactly(s: Dispatch, e: Event, s': Dispatch)
    requires Inv(s) && Step(s, e, s') && e.Finish? && !Answer(e.m, e.bound, e.accepted) && s.running[e.delivery] != ""
    ensures var id := s.running[e.delivery];
            Accepts(s'.ids, id)
            <==> || e.m in {Exec, McpExec, McpFile, McpCancel, McpRenew, McpRevoke} || (e.m == Config && !e.bound)
                 || id !in s.ids
  {
    WithoutKeepsGood(s.ids, s.running[e.delivery]);
  }

  /** A delivery that enters the method of its event. */
  ghost predicate Enters(s: Dispatch, e: Event, id: string) {
    e == Deliver(id) && Accepts(s.ids, id)
  }

  ghost predicate IsAnswer(e: Event, delivery: nat) {
    e.Finish? && e.delivery == delivery
  }

  ghost predicate Answers(e: Event, delivery: nat, answer: bool) {
    IsAnswer(e, delivery) && Answer(e.m, e.bound, e.accepted) == answer
  }

  ghost predicate ForgetsIt(e: Event, delivery: nat) {
    IsAnswer(e, delivery) && Forgets(e.m, e.bound, e.accepted)
  }

  /** An id in the window was put there by a delivery that has not forgotten it. */
  lemma {:induction false} EntryOf(states: seq<Dispatch>, events: seq<Event>, n: nat, id: string) returns (j: nat)
    requires IsRun(states, events) && n <= |events| && id in states[n].ids
    ensures j < n && Enters(states[j], events[j], id)
    ensures forall k :: j < k < n ==> !ForgetsIt(events[k], states[j].next)
    ensures states[n].next > states[j].next
  {
    assert n > 0;
    var s, e := states[n - 1], events[n - 1];
    assert Step(s, e, states[n]);
    DispatchInvariant(states, events, n - 1);
    if id in s.ids {
      j := EntryOf(states, events, n - 1, id);
      if ForgetsIt(e, states[j].next) {
        RunningUntilFinished(states, events, j, n - 1, id);
        WithoutKeepsGood(s.ids, id);
        assert false;
      }
    } else {
      if e.Finish? && Forgets(e.m, e.bound, e.accepted) {
        WithoutKeepsGood(s.ids, s.running[e.delivery]);
      }
      j := n - 1;
    }
  }

  /** A delivery that entered its method runs until its one answer. */
  lemma {:induction false} RunningUntilFinished(states: seq<Dispatch>, events: seq<Event>, j: nat, n: nat, id: string)
    requires IsRun(states, events) && j < n <= |events| && Enters(states[j], events[j], id)
    ensures states[j].next < states[n].next
    ensures states[j].next in states[n].running ==> states[n].running[states[j].next] == id
    ensures states[j].next in states[n].running
            <==> !(exists k :: j < k < n && IsAnswer(events[k], states[j].next))
    ensures forall k, l |
                  && j < k < n && j < l < n
                  && IsAnswer(events[k], states[j].next) && IsAnswer(events[l], states[j].next) ::
              k == l
    decreases n
  {
    var d, s, e := states[j].next, states[n - 1], events[n - 1];
    assert Step(s, e, states[n]);
    if n > j + 1 {
      RunningUntilFinished(states, events, j, n - 1, id);
      if e.Finish? && e.delivery == d {
        assert d in s.running;
        assert d !in states[n].running;
      }
    }
  }

  /** Requests that are refused but stay marked, as they stand when the first delivery is answered. */
  predicate RefusedForGood(m: Method, bound: bool, accepted: bool) {
    m == Unknown || (m in {Ping, Route, Remote} && !bound) || (m == Config && bound && !accepted)
  }

  /**
   * When an acknowledged duplicate was really accepted, as it stands when the duplicate arrives at step m. The event
   * was entered by some earlier delivery. Unless that delivery is still running it has been answered before, and it
   * was accepted if and only if its request is not one of those that are refused for good.
   */
  lemma DuplicateIsAcceptedExactly(states: seq<Dispatch>, events: seq<Event>, m: nat, id: string)
    returns (j: nat, k: nat)
    requires IsRun(states, events) && m < |events|
    requires events[m] == Deliver(id) && id in states[m].ids
    ensures j < m && Enters(states[j], events[j], id)
    ensures var d := states[j].next;
            d !in states[m].running ==>
              && j < k < m && IsAnswer(events[k], d)
              && (Answer(events[k].m, events[k].bound, events[k].accepted)
                  <==> !RefusedForGood(events[k].m, events[k].bound, events[k].accepted))
  {
    j := EntryOf(states, events, m, id);
    k := 0;
    var d := states[j].next;
    RunningUntilFinished(states, events, j, m, id);
    if d !in states[m].running {
      k :| j < k < m && IsAnswer(events[k], d);
      assert !ForgetsIt(events[k], d);
    }
  }

  /**
   * The gap is the only undecided case: while the first delivery is running, the run can go on with its acceptance
   * and just as well with a refusal that forgets the event.
   */
  lemma GapIsUndecided(states: seq<Dispatch>, events: seq<Event>, d: nat, accepted: bool)
    requires IsRun(states, events) && d in states[|events|].running
    ensures var e, last := Finish(d, Exec, true, accepted), states[|events|];
            && IsRun(states + [Finished(last, e)], events + [e])
            && Answers(e, d, accepted) && (ForgetsIt(e, d) <==> !accepted)
  {
    var e, last := Finish(d, Exec, true, accepted), states[|events|];
    var longer, more := states + [Finished(last, e)], events + [e];
    assert Step(last, e, Finished(last, e));
    hide Step, Finished;
    forall i | 0 <= i < |more| ensures Step(longer[i], more[i], longer[i + 1]) {
      if i < |events| {
        assert more[i] == events[i] && longer[i] == states[i] && longer[i + 1] == states[i + 1];
      }
    }
  }

  /**
   * The input behind it: a duplicate in the gap is acknowledged, and then the first delivery is refused and
   * forgotten.
   */
  lemma DuplicateInTheGap() returns (states: seq<Dispatch>, events: seq<Event>)
    ensures IsRun(states, events) && |events| == 3
    ensures events[1] == Deliver("x") && "x" in states[1].ids
    ensures Answers(events[2], 0, false) && "x" !in states[3].ids && states[3].running == map[]
  {
    var s0 := Dispatch([], map[], 0);
    var s1 := Delivered(s0, "x");
    var s2 := Delivered(s1, "x");
    var e := Finish(0, Exec, true, false);
    assert s1 == Dispatch(["x"], map[0 := "x"], 1) && s2 == s1.(next := 2);
    WithoutAt(["x"], "x", 0);
    var s3 := Finished(s2, e);
    assert s3.ids == [] && s3.running == map[];
    states, events := [s0, s1, s2, s3], [Deliver("x"), Deliver("x"), e];
  }

  /** Every method either acknowledges its event, or forgets it, or refuses it for good; never two of these. */
  lemma AnswersExactly(m: Method, bound: bool, accepted: bool)
    ensures Answer(m, bound, accepted) <==>
      m != Unknown && (bound || m == Message) && (accepted || m !in {Exec, McpExec, McpFile, Config})
    ensures Forgets(m, bound, accepted) <==> !Answer(m, bound, accepted) && !RefusedForGood(m, bound, accepted)
    ensures RefusedForGood(m, bound, accepted) ==> !Answer(m, bound, accepted)
  {
  }

  class SeenEvents {
    var seen: set<string>
    var ids: seq<string>

    ghost predicate Valid()
      reads this
    {
      Good(ids) && (forall x :: x in seen <==> x in ids)
    }

    constructor ()
      ensures Valid() && ids == []
    {
      seen, ids := {}, [];
    }

    method MarkSeen(id: string) returns (isNew: bool)
      requires Valid()
      modifies this
      ensures Valid() && ids == MarkIn(old(ids), id)
      ensures isNew <==> id == "" || id !in old(ids)
    {
      if id == "" {
        return true;
      }
      if id in seen {
        return false;
      }
      MarkKeepsGood(ids, id);
      seen := seen + {id};
      ids := ids + [id];
      if |ids| > LIMIT {
        var oldest := ids[0];
        ids := ids[1..];
        seen := seen - {oldest};
        assert old(ids) == [oldest] + old(ids)[1..] && ids == old(ids)[1..] + [id];
      }
      return true;
    }

    method ForgetSeen(id: string)
      requires Valid()
      modifies this
      ensures Valid() && ids == Next(old(ids), Forget(id))
    {
      if id == "" {
        return;
      }
      WithoutKeepsGood(ids, id);
      seen := seen - {id};
      var i := 0;
      while i < |ids|
        invariant 0 <= i <= |ids| && ids == old(ids) && id !in ids[..i] && seen == old(seen) - {id}
      {
        if ids[i] == id {
          WithoutAt(ids, id, i);
          ids := ids[..i] + ids[i + 1..];
          return;
        }
        i := i + 1;
      }
      WithoutAbsent(ids, id);
    }

    /** The second critical section of a delivery: the answer of the method, which may forget the event. */
    method Conclude(id: string, m: Method, bound: bool, accepted: bool) returns (ack: bool)
      requires Valid()
      modifies this
      ensures Valid() && ack == Answer(m, bound, accepted)
      ensures ack <==> m != Unknown && (bound || m == Message) && (accepted || m !in {Exec, McpExec, McpFile, Config})
      ensures ids == if Forgets(m, bound, accepted) then Next(old(ids), Forget(id)) else old(ids)
      ensures ids == if ack || RefusedForGood(m, bound, accepted) then old(ids) else Without(old(ids), id)
    {
      assert id == "" ==> Without(ids, id) == ids by { WithoutAbsentInGood(ids, id); }
      match m
      case Exec | McpExec | McpFile =>
        if !bound {
          ForgetSeen(id);
          return false;
        }
        if !accepted {
          ForgetSeen(id);
          return false;
        }
        ack := true;
      case McpCancel | McpRenew | McpRevoke =>
        if !bound {
          ForgetSeen(id);
          return false;
        }
        ack := true;
      case Ping | Route | Remote =>
        ack := bound;
      case Config =>
        if !bound {
          ForgetSeen(id);
          return false;
        }
        ack := accepted;
      case Message =>
        ack := true;
      case Unknown =>
        ack := false;
    }

    /**
     * A delivery that nothing interleaves; `ran` says that its method was entered. A duplicate is acknowledged at
     * once.
     */
    method Process(id: string, m: Method, bound: bool, accepted: bool) returns (ack: bool, ran: bool)
      requires Valid()
      modifies this
      ensures Valid() && ids == Processed(old(ids), id, m, bound, accepted)
      ensures ran <==> id == "" || id !in old(ids)
      ensures ack <==> ran ==> Answer(m, bound, accepted)
    {
      ran := MarkSeen(id);
      if !ran {
        return true, false;
      }
      ack := Conclude(id, m, bound, accepted);
    }
  }
}

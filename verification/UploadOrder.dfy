/**
 * Arrival order does not matter: the chunks of a file, delivered in any order that never needs to
 * park more than the window holds, reassemble the file (`terminal/file_manager.go:1208-1252`).
 */
module UploadOrder {
  import opened Common
  import opened Upload

  // ---------------------------------------------------------------- a file cut into chunks

  ghost predicate ValidCut(chunks: seq<seq<Byte>>) {
    && (forall i | 0 <= i < |chunks| :: 0 < |chunks[i]| <= MAX_CHUNK_SIZE)
    && |Join(chunks)| <= MAX_TRANSFER_SIZE
  }

  function Join(chunks: seq<seq<Byte>>): seq<Byte> {
    if chunks == [] then [] else Join(chunks[..|chunks| - 1]) + chunks[|chunks| - 1]
  }

  /** Where chunk `i` starts. */
  function Start(chunks: seq<seq<Byte>>, i: nat): nat
    requires i <= |chunks|
  {
    |Join(chunks[..i])|
  }

  lemma JoinOneMore(chunks: seq<seq<Byte>>, i: nat)
    requires i < |chunks|
    ensures Join(chunks[..i + 1]) == Join(chunks[..i]) + chunks[i]
  {
    assert chunks[..i + 1][..i] == chunks[..i];
  }

  lemma {:induction false} StartsIncrease(chunks: seq<seq<Byte>>, i: nat, j: nat)
    requires ValidCut(chunks) && i < j <= |chunks|
    ensures Start(chunks, i) + |chunks[i]| <= Start(chunks, j)
  {
    JoinOneMore(chunks, j - 1);
    if i < j - 1 {
      StartsIncrease(chunks, i, j - 1);
    }
  }

  lemma StartBound(chunks: seq<seq<Byte>>, i: nat)
    requires ValidCut(chunks) && i < |chunks|
    ensures Start(chunks, i) + |chunks[i]| <= |Join(chunks)| == Start(chunks, |chunks|)
  {
    assert chunks[..|chunks|] == chunks;
    StartsIncrease(chunks, i, |chunks|);
  }

  // ---------------------------------------------------------------- what has been delivered

  ghost predicate Below(delivered: set<nat>, n: nat) {
    forall i | i in delivered :: i < n
  }

  /** The first undelivered chunk at or after `from`. */
  function NextGap(delivered: set<nat>, from: nat, n: nat): (k: nat)
    requires Below(delivered, n) && from <= n
    ensures from <= k <= n && k !in delivered
    ensures forall i | from <= i < k :: i in delivered
    decreases n - from
  {
    if from in delivered then NextGap(delivered, from + 1, n) else from
  }

  /** The delivered chunks that still wait for an earlier one. */
  function Waiting(delivered: set<nat>, n: nat): set<nat>
    requires Below(delivered, n)
  {
    set i | i in delivered && i > NextGap(delivered, 0, n)
  }

  function ToSet(order: seq<nat>): set<nat> {
    set i | i in order
  }

  ghost predicate ValidOrder(order: seq<nat>, n: nat) {
    Distinct(order) && forall j | 0 <= j < |order| :: order[j] < n
  }

  lemma OrderIsBelow(order: seq<nat>, n: nat)
    requires ValidOrder(order, n)
    ensures Below(ToSet(order), n)
  {
  }

  /** No prefix of the delivery leaves more chunks waiting than the window holds. */
  ghost predicate FitsWindow(order: seq<nat>, n: nat)
    requires ValidOrder(order, n)
  {
    forall j | 0 <= j <= |order| ::
      Below(ToSet(order[..j]), n) && |Waiting(ToSet(order[..j]), n)| <= MAX_PENDING_CHUNKS
  }

  // ---------------------------------------------------------------- the session and the delivered set

  ghost predicate PendingMatches(s: Session, chunks: seq<seq<Byte>>, waiting: set<nat>)
    requires Below(waiting, |chunks|)
  {
    && s.pending.Keys == (set i | i in waiting :: Start(chunks, i))
    && forall i | i in waiting :: Start(chunks, i) in s.pending && s.pending[Start(chunks, i)].data == chunks[i]
  }

  /** `gap` chunks are written, and `waiting` are parked. */
  ghost predicate Holds(s: Session, chunks: seq<seq<Byte>>, gap: nat, waiting: set<nat>)
    requires Below(waiting, |chunks|) && gap <= |chunks|
  {
    && !s.closed && s.expected == |Join(chunks)|
    && s.received == Start(chunks, gap) && s.file == Join(chunks[..gap])
    && PendingMatches(s, chunks, waiting)
  }

  lemma StartIsInjective(chunks: seq<seq<Byte>>, i: nat, j: nat)
    requires ValidCut(chunks) && i <= |chunks| && j <= |chunks| && Start(chunks, i) == Start(chunks, j)
    ensures i == j
  {
    if i < j {
      StartsIncrease(chunks, i, j);
    } else if j < i {
      StartsIncrease(chunks, j, i);
    }
  }

  lemma {:induction false} WindowSize(chunks: seq<seq<Byte>>, waiting: set<nat>)
    requires ValidCut(chunks) && Below(waiting, |chunks|)
    ensures |set i | i in waiting :: Start(chunks, i)| == |waiting|
    decreases waiting
  {
    var starts := set i | i in waiting :: Start(chunks, i);
    if waiting != {} {
      var w :| w in waiting;
      var rest := set i | i in waiting - {w} :: Start(chunks, i);
      WindowSize(chunks, waiting - {w});
      forall i | i in waiting && Start(chunks, i) == Start(chunks, w)
        ensures i == w
      {
        StartIsInjective(chunks, i, w);
      }
      assert starts == rest + {Start(chunks, w)};
    }
  }

  lemma RemoveWaiting(s: Session, chunks: seq<seq<Byte>>, waiting: set<nat>, w: nat)
    requires ValidCut(chunks) && Below(waiting, |chunks|) && w in waiting && PendingMatches(s, chunks, waiting)
    ensures PendingMatches(s.(pending := s.pending - {Start(chunks, w)}), chunks, waiting - {w})
  {
    forall i | i in waiting && Start(chunks, i) == Start(chunks, w)
      ensures i == w
    {
      StartIsInjective(chunks, i, w);
    }
  }

  ghost predicate AllReceived(answers: seq<Answer>) {
    forall i | 0 <= i < |answers| :: answers[i].Received?
  }

  lemma ReceivedConcat(a: seq<Answer>, b: seq<Answer>)
    ensures AllReceived(a + b) <==> AllReceived(a) && AllReceived(b)
  {
    if AllReceived(a + b) {
      assert forall i | 0 <= i < |a| :: a[i] == (a + b)[i];
      assert forall i | 0 <= i < |b| :: b[i] == (a + b)[|a| + i];
    }
  }

  /** Writing the parked chunk at the gap. */
  lemma WriteWaiting(s: Session, chunks: seq<seq<Byte>>, gap: nat, waiting: set<nat>)
    requires ValidCut(chunks) && Below(waiting, |chunks|) && gap in waiting && gap < |chunks|
    requires Holds(s, chunks, gap, waiting)
    ensures s.received in s.pending
    ensures var written := Write(s.(pending := s.pending - {s.received}), s.pending[s.received].data, {});
            written.Some? && Holds(written.value, chunks, gap + 1, waiting - {gap})
  {
    RemoveWaiting(s, chunks, waiting, gap);
    JoinOneMore(chunks, gap);
  }

  lemma NotStarted(s: Session, chunks: seq<seq<Byte>>, waiting: set<nat>, c: nat)
    requires ValidCut(chunks) && Below(waiting, |chunks|) && c !in waiting && c <= |chunks|
    requires PendingMatches(s, chunks, waiting)
    ensures Start(chunks, c) !in s.pending
  {
    forall i | i in waiting && Start(chunks, i) == Start(chunks, c)
      ensures false
    {
      StartIsInjective(chunks, i, c);
    }
  }

  /** The chunks left waiting when the gap moves from `gap` to `next`. */
  function StillWaiting(waiting: set<nat>, gap: nat, next: nat): set<nat> {
    set i | i in waiting && !(gap <= i < next)
  }

  /** With working writes, draining writes exactly the waiting chunks up to the next gap. */
  lemma {:induction false} DrainClosesGap(s: Session, chunks: seq<seq<Byte>>, gap: nat, waiting: set<nat>)
    requires ValidCut(chunks) && Below(waiting, |chunks|) && gap <= |chunks|
    requires Holds(s, chunks, gap, waiting)
    ensures var (last, answers) := Drain(s, {});
            var next := NextGap(waiting, gap, |chunks|);
            AllReceived(answers) && Holds(last, chunks, next, StillWaiting(waiting, gap, next))
    decreases |chunks| - gap
  {
    hide Start;
    if gap in waiting {
      WriteWaiting(s, chunks, gap, waiting);
      var written := Write(s.(pending := s.pending - {s.received}), s.pending[s.received].data, {}).value;
      DrainClosesGap(written, chunks, gap + 1, waiting - {gap});
      SameGap(waiting, gap, |chunks|);
      var next := NextGap(waiting, gap, |chunks|);
      assert StillWaiting(waiting - {gap}, gap + 1, next) == StillWaiting(waiting, gap, next);
    } else {
      NotStarted(s, chunks, waiting, gap);
      assert StillWaiting(waiting, gap, gap) == waiting;
    }
  }

  /** What was delivered before the gap does not matter for the next one. */
  lemma {:induction false} GapFrom(a: set<nat>, b: set<nat>, from: nat, n: nat)
    requires Below(a, n) && Below(b, n) && from <= n
    requires forall i | i >= from :: i in a <==> i in b
    ensures NextGap(a, from, n) == NextGap(b, from, n)
    decreases n - from
  {
    if from in a {
      GapFrom(a, b, from + 1, n);
    }
  }

  lemma SameGap(waiting: set<nat>, gap: nat, n: nat)
    requires Below(waiting, n) && gap in waiting
    ensures NextGap(waiting, gap, n) == NextGap(waiting - {gap}, gap + 1, n)
  {
    GapFrom(waiting, waiting - {gap}, gap + 1, n);
  }

  lemma {:induction false} GapReaches(delivered: set<nat>, from: nat, upto: nat, n: nat)
    requires Below(delivered, n) && from <= upto <= n
    requires forall i | from <= i < upto :: i in delivered
    ensures NextGap(delivered, from, n) == NextGap(delivered, upto, n)
    decreases upto - from
  {
    if from < upto {
      GapReaches(delivered, from + 1, upto, n);
    }
  }

  // ---------------------------------------------------------------- one delivery

  ghost predicate Delivered(s: Session, chunks: seq<seq<Byte>>, delivered: set<nat>)
    requires Below(delivered, |chunks|)
  {
    Holds(s, chunks, NextGap(delivered, 0, |chunks|), Waiting(delivered, |chunks|))
  }

  /** The chunk at the gap passes every check and is written. */
  lemma AcceptNext(s: Session, chunks: seq<seq<Byte>>, gap: nat, waiting: set<nat>, token: nat)
    requires ValidCut(chunks) && Below(waiting, |chunks|) && gap < |chunks| && Holds(s, chunks, gap, waiting)
    ensures var written := Write(s, chunks[gap], {});
            && written.Some? && Holds(written.value, chunks, gap + 1, waiting)
            && Accept(s, token, Some(Start(chunks, gap)), chunks[gap], {})
               == (var (last, answers) := Drain(written.value, {});
                   (last, [Received(token, written.value.received)] + answers))
  {
    hide Drain, WrapInt64;
    StartBound(chunks, gap);
    WrapSmall(Start(chunks, gap) + |chunks[gap]|);
    JoinOneMore(chunks, gap);
  }

  lemma DeliverNext(s: Session, chunks: seq<seq<Byte>>, delivered: set<nat>, token: nat)
    requires ValidCut(chunks) && Below(delivered, |chunks|) && Delivered(s, chunks, delivered)
    requires NextGap(delivered, 0, |chunks|) < |chunks|
    ensures var c := NextGap(delivered, 0, |chunks|);
            var (next, answers) := Accept(s, token, Some(Start(chunks, c)), chunks[c], {});
            AllReceived(answers) && Delivered(next, chunks, delivered + {c})
  {
    hide Holds, Start, Accept, Drain;
    var n := |chunks|;
    var c, waiting := NextGap(delivered, 0, n), Waiting(delivered, n);
    AcceptNext(s, chunks, c, waiting, token);
    DrainClosesGap(Write(s, chunks[c], {}).value, chunks, c + 1, waiting);
    var all := delivered + {c};
    GapReaches(all, 0, c + 1, n);
    GapFrom(waiting, all, c + 1, n);
    assert StillWaiting(waiting, c + 1, NextGap(all, 0, n)) == Waiting(all, n);
  }

  lemma ParkMatches(s: Session, chunks: seq<seq<Byte>>, waiting: set<nat>, c: nat, token: nat)
    requires ValidCut(chunks) && Below(waiting, |chunks|) && c < |chunks| && c !in waiting
    requires PendingMatches(s, chunks, waiting)
    ensures PendingMatches(s.(pending := s.pending[Start(chunks, c) := Parked(token, chunks[c])]),
                           chunks, waiting + {c})
  {
    NotStarted(s, chunks, waiting, c);
  }

  /** A chunk beyond the gap passes the size checks and is parked, unless the window is full. */
  lemma AcceptAhead(s: Session, chunks: seq<seq<Byte>>, gap: nat, waiting: set<nat>, c: nat, token: nat)
    requires ValidCut(chunks) && Below(waiting, |chunks|) && gap < c < |chunks| && c !in waiting
    requires Holds(s, chunks, gap, waiting)
    ensures var (next, answers) := Accept(s, token, Some(Start(chunks, c)), chunks[c], {});
            if |waiting| < MAX_PENDING_CHUNKS then
              answers == [] && Holds(next, chunks, gap, waiting + {c})
            else
              !AllReceived(answers)
  {
    hide Drain, WrapInt64, Start, PendingMatches, Join, Write;
    StartBound(chunks, c);
    WrapSmall(Start(chunks, c) + |chunks[c]|);
    StartsIncrease(chunks, gap, c);
    NotStarted(s, chunks, waiting, c);
    PendingCount(s, chunks, waiting);
    ParkMatches(s, chunks, waiting, c, token);
    if |waiting| >= MAX_PENDING_CHUNKS {
      var answers := Accept(s, token, Some(Start(chunks, c)), chunks[c], {}).1;
      assert answers == [Rejected(token, OffsetMismatch)] && !answers[0].Received?;
    }
  }

  lemma PendingCount(s: Session, chunks: seq<seq<Byte>>, waiting: set<nat>)
    requires ValidCut(chunks) && Below(waiting, |chunks|) && PendingMatches(s, chunks, waiting)
    ensures |s.pending| == |waiting|
  {
    WindowSize(chunks, waiting);
    assert |s.pending| == |s.pending.Keys|;
  }

  lemma DeliverAhead(s: Session, chunks: seq<seq<Byte>>, delivered: set<nat>, c: nat, token: nat)
    requires ValidCut(chunks) && Below(delivered, |chunks|) && Delivered(s, chunks, delivered)
    requires NextGap(delivered, 0, |chunks|) < c < |chunks| && c !in delivered
    ensures var (next, answers) := Accept(s, token, Some(Start(chunks, c)), chunks[c], {});
            if |Waiting(delivered + {c}, |chunks|)| <= MAX_PENDING_CHUNKS then
              answers == [] && Delivered(next, chunks, delivered + {c})
            else
              !AllReceived(answers)
  {
    hide Holds, Start, Accept;
    var n := |chunks|;
    var gap, waiting, all := NextGap(delivered, 0, n), Waiting(delivered, n), delivered + {c};
    GapReaches(all, 0, gap, n);
    assert Waiting(all, n) == waiting + {c};
    AcceptAhead(s, chunks, gap, waiting, c, token);
  }

  // ---------------------------------------------------------------- whole deliveries

  function Delivery(chunks: seq<seq<Byte>>, order: seq<nat>): seq<Event>
    requires forall j | 0 <= j < |order| :: order[j] < |chunks|
  {
    seq(|order|, j requires 0 <= j < |order| => Chunk(Some(Start(chunks, order[j])), chunks[order[j]], {}))
  }

  lemma FitsOneMore(order: seq<nat>, n: nat)
    requires ValidOrder(order, n) && order != []
    ensures ValidOrder(order[..|order| - 1], n)
    ensures order[|order| - 1] !in ToSet(order[..|order| - 1])
    ensures ToSet(order) == ToSet(order[..|order| - 1]) + {order[|order| - 1]} && Below(ToSet(order), n)
    ensures FitsWindow(order, n)
       <==> FitsWindow(order[..|order| - 1], n) && |Waiting(ToSet(order), n)| <= MAX_PENDING_CHUNKS
  {
    var last := |order| - 1;
    var before := order[..last];
    assert order[..|order|] == order;
    assert forall j | 0 <= j <= last :: before[..j] == order[..j];
    OrderIsBelow(order, n);
    if FitsWindow(order, n) {
      forall j | 0 <= j <= |before|
        ensures Below(ToSet(before[..j]), n) && |Waiting(ToSet(before[..j]), n)| <= MAX_PENDING_CHUNKS
      {
        assert ToSet(before[..j]) == ToSet(order[..j]);
      }
    }
  }

  /** A chunk that is not delivered and not the next gap lies beyond it. */
  lemma BeyondGap(delivered: set<nat>, c: nat, n: nat)
    requires Below(delivered, n) && c !in delivered && c < n && c != NextGap(delivered, 0, n)
    ensures NextGap(delivered, 0, n) < c
  {
  }

  /** Filling the gap leaves no more chunks waiting than before. */
  lemma AfterNextFits(delivered: set<nat>, n: nat)
    requires Below(delivered, n) && NextGap(delivered, 0, n) < n
    requires |Waiting(delivered, n)| <= MAX_PENDING_CHUNKS
    ensures |Waiting(delivered + {NextGap(delivered, 0, n)}, n)| <= MAX_PENDING_CHUNKS
  {
    var c := NextGap(delivered, 0, n);
    var all := delivered + {c};
    GapReaches(all, 0, c + 1, n);
    assert Waiting(all, n) <= Waiting(delivered, n);
    SubsetSize(Waiting(all, n), Waiting(delivered, n));
  }

  lemma DeliverOne(s: Session, chunks: seq<seq<Byte>>, delivered: set<nat>, c: nat, token: nat)
    requires ValidCut(chunks) && Below(delivered, |chunks|) && Delivered(s, chunks, delivered)
    requires c < |chunks| && c !in delivered && |Waiting(delivered, |chunks|)| <= MAX_PENDING_CHUNKS
    ensures var (next, answers) := Accept(s, token, Some(Start(chunks, c)), chunks[c], {});
            if |Waiting(delivered + {c}, |chunks|)| <= MAX_PENDING_CHUNKS then
              AllReceived(answers) && Delivered(next, chunks, delivered + {c})
            else
              !AllReceived(answers)
  {
    hide Holds, Start, Accept;
    if NextGap(delivered, 0, |chunks|) == c {
      DeliverNext(s, chunks, delivered, token);
      AfterNextFits(delivered, |chunks|);
    } else {
      BeyondGap(delivered, c, |chunks|);
      DeliverAhead(s, chunks, delivered, c, token);
    }
  }

  lemma EmptyDelivery(chunks: seq<seq<Byte>>)
    requires ValidCut(chunks)
    ensures Waiting({}, |chunks|) == {} && Delivered(NewSession(|Join(chunks)|), chunks, {})
  {
    assert chunks[..0] == [];
  }

  /** Up to the first overflow the session holds what was delivered; from there on some answer is an error. */
  lemma {:induction false} DeliveryPrefix(chunks: seq<seq<Byte>>, order: seq<nat>)
    requires ValidCut(chunks) && ValidOrder(order, |chunks|)
    ensures var (s, answers) := Run(|Join(chunks)|, Delivery(chunks, order));
            && (FitsWindow(order, |chunks|) ==>
                  Below(ToSet(order), |chunks|) && AllReceived(answers) && Delivered(s, chunks, ToSet(order)))
            && (!FitsWindow(order, |chunks|) ==> !AllReceived(answers))
  {
    hide Holds, Start, Accept, NextGap, Waiting;
    var n, events := |chunks|, Delivery(chunks, order);
    OrderIsBelow(order, n);
    if order == [] {
      EmptyDelivery(chunks);
      assert events == [] && chunks[..0] == [];
      assert ToSet(order) == {} && ToSet(order[..0]) == {};
    } else {
      var last := |order| - 1;
      var c, before := order[last], order[..last];
      assert ValidOrder(before, n);
      assert events[..last] == Delivery(chunks, before);
      DeliveryPrefix(chunks, before);
      FitsOneMore(order, n);
      if FitsWindow(before, n) {
        var s := Run(|Join(chunks)|, events[..last]).0;
        var token := ChunkCount(events[..last]);
        assert |Waiting(ToSet(before), n)| <= MAX_PENDING_CHUNKS by {
          assert before[..|before|] == before;
        }
        DeliverOne(s, chunks, ToSet(before), c, token);
        ReceivedConcat(Run(|Join(chunks)|, events[..last]).1,
                       Accept(s, token, Some(Start(chunks, c)), chunks[c], {}).1);
      } else {
        var s := Run(|Join(chunks)|, events[..last]).0;
        ReceivedConcat(Run(|Join(chunks)|, events[..last]).1,
                       Accept(s, ChunkCount(events[..last]), Some(Start(chunks, c)), chunks[c], {}).1);
      }
    }
  }

  /**
   * Order independence. For any file cut into non-empty chunks and delivered in any order, every
   * chunk gets exactly one answer or stays parked; all answers are successes if and only if the
   * order never leaves more than 8 chunks waiting, and then the file is whole and nothing is parked.
   */
  lemma OrderIndependence(chunks: seq<seq<Byte>>, order: seq<nat>)
    requires ValidCut(chunks) && ValidOrder(order, |chunks|) && forall i | 0 <= i < |chunks| :: i in order
    ensures var (s, answers) := Run(|Join(chunks)|, Delivery(chunks, order));
            && (AllReceived(answers) <==> FitsWindow(order, |chunks|))
            && (FitsWindow(order, |chunks|) ==>
                  && s.file == Join(chunks) && s.received == s.expected == |Join(chunks)| && s.pending == map[]
                  && Distinct(Tokens(answers)) && forall t: nat :: t in Tokens(answers) <==> t < |order|)
  {
    var n, events := |chunks|, Delivery(chunks, order);
    DeliveryPrefix(chunks, order);
    UploadSafety(|Join(chunks)|, events);
    CountDelivery(events);
    if FitsWindow(order, n) {
      var s := Run(|Join(chunks)|, events).0;
      assert NextGap(ToSet(order), 0, n) == n by {
        GapReaches(ToSet(order), 0, n, n);
      }
      assert chunks[..n] == chunks;
      assert Waiting(ToSet(order), n) == {};
      assert s.pending.Keys == {};
    }
  }

  lemma {:induction false} CountDelivery(events: seq<Event>)
    requires forall i | 0 <= i < |events| :: events[i].Chunk?
    ensures ChunkCount(events) == |events|
  {
    if events != [] {
      CountDelivery(events[..|events| - 1]);
    }
  }
}

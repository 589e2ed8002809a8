/**
 * The list of event ids waiting to be acknowledged (`server/websocket.go`). The pull loop and the report
 * loop each snapshot it, post the snapshot and, when the post succeeds, clear what they sent.
 */
module AckList {
  // ---------------------------------------------------------------- clearing

  /** The ids that were not sent, in their order. */
  function Kept(ids: seq<string>, sent: set<string>): seq<string> {
    if ids == [] then []
    else
      var last := ids[|ids| - 1];
      Kept(ids[..|ids| - 1], sent) + if last in sent then [] else [last]
  }

  /** `at` names, in increasing order, the positions of `ids` that `kept` is made of. */
  ghost predicate Embeds(kept: seq<string>, ids: seq<string>, at: seq<nat>) {
    && |at| == |kept|
    && (forall i :: 0 <= i < |at| ==> at[i] < |ids| && kept[i] == ids[at[i]])
    && (forall i, j :: 0 <= i < j < |at| ==> at[i] < at[j])
  }

  /** The positions of the ids that were not sent, in increasing order. */
  function Survivors(ids: seq<string>, sent: set<string>): seq<nat> {
    if ids == [] then []
    else
      var n := |ids| - 1;
      Survivors(ids[..n], sent) + if ids[n] in sent then [] else [n]
  }

  lemma {:induction false} SurvivorsIncrease(ids: seq<string>, sent: set<string>)
    ensures forall i :: 0 <= i < |Survivors(ids, sent)| ==> Survivors(ids, sent)[i] < |ids|
    ensures forall i, j :: 0 <= i < j < |Survivors(ids, sent)| ==> Survivors(ids, sent)[i] < Survivors(ids, sent)[j]
  {
    if ids != [] {
      SurvivorsIncrease(ids[..|ids| - 1], sent);
    }
  }

  lemma {:induction false} SurvivorsAreKept(ids: seq<string>, sent: set<string>)
    ensures |Survivors(ids, sent)| == |Kept(ids, sent)|
    ensures forall i :: 0 <= i < |Kept(ids, sent)| ==>
              var k := Survivors(ids, sent)[i]; k < |ids| && ids[k] == Kept(ids, sent)[i] && ids[k] !in sent
  {
    if ids != [] {
      SurvivorsAreKept(ids[..|ids| - 1], sent);
    }
  }

  lemma {:induction false} SurvivorsMissNone(ids: seq<string>, sent: set<string>, k: nat)
    requires k < |ids| && ids[k] !in sent
    ensures k in Survivors(ids, sent)
  {
    if k < |ids| - 1 {
      SurvivorsMissNone(ids[..|ids| - 1], sent, k);
    }
  }

  /** Clearing drops every sent id, and every other occurrence stays, in the same order. */
  lemma KeptKeepsOrder(ids: seq<string>, sent: set<string>) returns (at: seq<nat>)
    ensures Embeds(Kept(ids, sent), ids, at)
    ensures forall k :: 0 <= k < |ids| ==> (k in at <==> ids[k] !in sent)
  {
    at := Survivors(ids, sent);
    SurvivorsIncrease(ids, sent);
    SurvivorsAreKept(ids, sent);
    forall k | 0 <= k < |ids| && ids[k] !in sent ensures k in at {
      SurvivorsMissNone(ids, sent, k);
    }
  }

  lemma KeptNone(sent: set<string>)
    ensures Kept([], sent) == []
  {
  }

  lemma KeptStep(ids: seq<string>, i: nat, sent: set<string>)
    requires i < |ids|
    ensures Kept(ids[..i + 1], sent) == Kept(ids[..i], sent) + if ids[i] in sent then [] else [ids[i]]
  {
    assert ids[..i + 1][..i] == ids[..i];
  }

  lemma {:induction false} KeptHas(ids: seq<string>, sent: set<string>)
    ensures forall x :: x in Kept(ids, sent) <==> x in ids && x !in sent
    ensures |Kept(ids, sent)| <= |ids|
  {
    if ids != [] {
      KeptHas(ids[..|ids| - 1], sent);
      assert ids == ids[..|ids| - 1] + [ids[|ids| - 1]];
    }
  }

  // ---------------------------------------------------------------- the two loops

  datatype Post = Sending(sent: seq<string>) | Arrived(sent: seq<string>)

  /** `confirmed` is history: the ids in the snapshots of posts that succeeded. */
  datatype State = State(list: seq<string>, posts: map<nat, Post>, confirmed: set<string>)

  datatype Event =
    | Add(id: string)
    | Snapshot(post: nat)
    | PostFails(post: nat)
    | PostSucceeds(post: nat)
    | Clear(post: nat)

  function Elements(s: seq<string>): set<string> {
    set x | x in s
  }

  function Added(list: seq<string>, id: string): seq<string> {
    if id == "" then list else list + [id]
  }

  ghost predicate Step(s: State, e: Event, s': State) {
    match e
    case Add(id) => s' == s.(list := Added(s.list, id))
    case Snapshot(p) => p !in s.posts && s' == s.(posts := s.posts[p := Sending(s.list)])
    case PostFails(p) => p in s.posts && s.posts[p].Sending? && s' == s.(posts := s.posts - {p})
    case PostSucceeds(p) => (
      && p in s.posts && s.posts[p].Sending?
      && s' == s.(posts := s.posts[p := Arrived(s.posts[p].sent)],
                  confirmed := s.confirmed + Elements(s.posts[p].sent)))
    case Clear(p) => (
      && p in s.posts && s.posts[p].Arrived?
      && s' == s.(posts := s.posts - {p}, list := Kept(s.list, Elements(s.posts[p].sent))))
  }

  ghost predicate IsRun(states: seq<State>, events: seq<Event>) {
    && |states| == |events| + 1
    && states[0] == State([], map[], {})
    && (forall i :: 0 <= i < |events| ==> Step(states[i], events[i], states[i + 1]))
  }

  /** A snapshot whose post has succeeded holds only confirmed ids. */
  ghost predicate Inv(s: State) {
    forall p :: p in s.posts && s.posts[p].Arrived? ==> Elements(s.posts[p].sent) <= s.confirmed
  }

  lemma {:induction false} RunInvariant(states: seq<State>, events: seq<Event>, n: nat)
    requires IsRun(states, events) && n <= |events|
    ensures Inv(states[n])
  {
    if n > 0 {
      RunInvariant(states, events, n - 1);
      assert Step(states[n - 1], events[n - 1], states[n]);
    }
  }

  /** An added id is listed or confirmed ever after. */
  lemma {:induction false} AddedStays(states: seq<State>, events: seq<Event>, i: nat, n: nat, id: string)
    requires IsRun(states, events) && i < n <= |events|
    requires events[i] == Add(id) && id != ""
    ensures id in states[n].list || id in states[n].confirmed
  {
    assert Step(states[n - 1], events[n - 1], states[n]);
    if i < n - 1 {
      AddedStays(states, events, i, n - 1, id);
      if events[n - 1].Clear? {
        RunInvariant(states, events, n - 1);
        KeptHas(states[n - 1].list, Elements(states[n - 1].posts[events[n - 1].post].sent));
      }
    }
  }

  /** The post of this step succeeds, and its snapshot holds the id. */
  ghost predicate Confirms(s: State, e: Event, id: string) {
    e.PostSucceeds? && e.post in s.posts && s.posts[e.post].Sending? && id in s.posts[e.post].sent
  }

  lemma {:induction false} ConfirmedMeansPosted(states: seq<State>, events: seq<Event>, n: nat, id: string)
    returns (k: nat)
    requires IsRun(states, events) && n <= |events| && id in states[n].confirmed
    ensures k < n && Confirms(states[k], events[k], id)
  {
    assert n > 0;
    assert Step(states[n - 1], events[n - 1], states[n]);
    if id in states[n - 1].confirmed {
      k := ConfirmedMeansPosted(states, events, n - 1, id);
    } else {
      k := n - 1;
    }
  }

  /** A post that has arrived, with this snapshot. */
  ghost predicate HasArrived(s: State, p: nat, sent: seq<string>) {
    p in s.posts && s.posts[p] == Arrived(sent)
  }

  /** This step clears what an arrived post had sent, the id among it. */
  ghost predicate Sweeps(s: State, e: Event, id: string, sent: seq<string>) {
    e.Clear? && HasArrived(s, e.post, sent) && id in sent
  }

  /** An id that is no longer listed was swept after it was added. */
  lemma {:induction false} SweepOf(states: seq<State>, events: seq<Event>, i: nat, n: nat, id: string)
    returns (c: nat, sent: seq<string>)
    requires IsRun(states, events) && i < n <= |events|
    requires events[i] == Add(id) && id != "" && id !in states[n].list
    ensures i < c < n && Sweeps(states[c], events[c], id, sent)
  {
    assert Step(states[n - 1], events[n - 1], states[n]);
    assert i < n - 1;
    if id in states[n - 1].list {
      c, sent := n - 1, states[n - 1].posts[events[n - 1].post].sent;
      KeptHas(states[n - 1].list, Elements(sent));
    } else {
      c, sent := SweepOf(states, events, i, n - 1, id);
    }
  }

  /** A post that has arrived by step c had arrived at step i already, or succeeds in between. */
  lemma {:induction false} ArrivalOf(states: seq<State>, events: seq<Event>, i: nat, c: nat, p: nat, sent: seq<string>)
    requires IsRun(states, events) && i <= c <= |events| && HasArrived(states[c], p, sent)
    ensures HasArrived(states[i], p, sent)
            || exists k :: i <= k < c && events[k] == PostSucceeds(p)
                           && p in states[k].posts && states[k].posts[p] == Sending(sent)
    decreases c
  {
    if i < c && !HasArrived(states[c - 1], p, sent) {
      assert Step(states[c - 1], events[c - 1], states[c]);
      assert events[c - 1] == PostSucceeds(p) && states[c - 1].posts[p] == Sending(sent);
    } else if i < c {
      ArrivalOf(states, events, i, c - 1, p, sent);
    }
  }

  /**
   * No acknowledgement is lost: an id that was added is still listed, or was swept after that by the clear of a post
   * whose snapshot held it. That post succeeded after the id was added, or had arrived when it was added: then the
   * same id had been confirmed before and was added once more.
   */
  lemma EveryAckIsHeld(states: seq<State>, events: seq<Event>, i: nat, n: nat, id: string)
    requires IsRun(states, events) && i < n <= |events|
    requires events[i] == Add(id) && id != ""
    ensures id in states[n].list
            || exists c, sent :: i < c < n && Sweeps(states[c], events[c], id, sent)
                                 && (HasArrived(states[i], events[c].post, sent)
                                     || exists k :: i < k < c && events[k] == PostSucceeds(events[c].post)
                                                    && Confirms(states[k], events[k], id))
    ensures id in states[n].list || exists k :: 0 <= k < n && Confirms(states[k], events[k], id)
  {
    if id !in states[n].list {
      var c, sent := SweepOf(states, events, i, n, id);
      var p := events[c].post;
      ArrivalOf(states, events, i, c, p, sent);
      if !HasArrived(states[i], p, sent) {
        var k :| && i <= k < c && events[k] == PostSucceeds(p)
                 && p in states[k].posts && states[k].posts[p] == Sending(sent);
        assert i < k && Confirms(states[k], events[k], id);
      }
      AddedStays(states, events, i, n, id);
      var k := ConfirmedMeansPosted(states, events, n, id);
    }
  }

  lemma SendAndArrive(sending: map<nat, Post>, arrived: map<nat, Post>)
    requires sending == map[0 := Sending(["x"])] && arrived == map[0 := Arrived(["x"])]
    ensures Step(State([], map[], {}), Add("x"), State(["x"], map[], {}))
    ensures Step(State(["x"], map[], {}), Snapshot(0), State(["x"], sending, {}))
    ensures Step(State(["x"], sending, {}), PostSucceeds(0), State(["x"], arrived, {"x"}))
  {
    assert Elements(["x"]) == {"x"};
    assert map[][0 := Sending(["x"])] == sending && sending[0 := Arrived(["x"])] == arrived;
  }

  lemma AddAndSweep(arrived: map<nat, Post>)
    requires arrived == map[0 := Arrived(["x"])]
    ensures Step(State(["x"], arrived, {"x"}), Add("x"), State(["x", "x"], arrived, {"x"}))
    ensures Step(State(["x", "x"], arrived, {"x"}), Clear(0), State([], map[], {"x"}))
  {
    assert ["x", "x"][..1] == ["x"] && ["x"][..0] == [];
    assert Kept(["x", "x"], Elements(["x"])) == [];
    assert arrived - {0} == map[];
  }

  /**
   * The input behind the second case: an id that is added again between the success of a post and its clear is swept,
   * and no post confirms it after that.
   */
  lemma ReaddedIdIsSwept() returns (states: seq<State>, events: seq<Event>)
    ensures IsRun(states, events) && |events| == 5 && events[3] == Add("x")
    ensures states[5].list == [] && forall k :: 3 <= k < 5 ==> !Confirms(states[k], events[k], "x")
  {
    hide Step;
    var sending, arrived := map[0 := Sending(["x"])], map[0 := Arrived(["x"])];
    events := [Add("x"), Snapshot(0), PostSucceeds(0), Add("x"), Clear(0)];
    states := [State([], map[], {}), State(["x"], map[], {}), State(["x"], sending, {}),
               State(["x"], arrived, {"x"}), State(["x", "x"], arrived, {"x"}), State([], map[], {"x"})];
    SendAndArrive(sending, arrived);
    AddAndSweep(arrived);
  }

  /** Nothing is acknowledged that was not added: what a snapshot holds is an id that was added before. */
  lemma {:induction false} ListedWasAdded(states: seq<State>, events: seq<Event>, n: nat, id: string)
    requires IsRun(states, events) && n <= |events|
    requires id in states[n].list || exists p :: p in states[n].posts && id in states[n].posts[p].sent
    ensures id != "" && exists i :: 0 <= i < n && events[i] == Add(id)
  {
    assert n > 0;
    assert Step(states[n - 1], events[n - 1], states[n]);
    if events[n - 1] != Add(id) || id == "" {
      if events[n - 1].Clear? {
        KeptHas(states[n - 1].list, Elements(states[n - 1].posts[events[n - 1].post].sent));
      }
      ListedWasAdded(states, events, n - 1, id);
    }
  }

  // ---------------------------------------------------------------- the code

  /** The list as a slice: a backing array and a length. */
  class AckIds {
    var buffer: array<string>
    var count: nat

    ghost predicate Valid()
      reads this
    {
      count <= buffer.Length
    }

    ghost function Contents(): seq<string>
      reads this, buffer
      requires Valid()
    {
      buffer[..count]
    }

    constructor ()
      ensures Valid() && fresh(buffer) && Contents() == []
    {
      buffer, count := new string[0], 0;
    }

    method Add(id: string)
      requires Valid()
      modifies this, buffer
      ensures Valid() && (buffer == old(buffer) || fresh(buffer))
      ensures Contents() == Added(old(Contents()), id)
    {
      if id == "" {
        return;
      }
      if count == buffer.Length {
        var grown := new string[2 * count + 1](_ => "");
        for i := 0 to count
          invariant count == old(count) && buffer == old(buffer) && fresh(grown)
          invariant grown.Length > count && buffer[..] == old(buffer[..])
          invariant grown[..i] == buffer[..i]
        {
          grown[i] := buffer[i];
        }
        buffer := grown;
      }
      buffer[count] := id;
      count := count + 1;
    }

    method Snapshot() returns (ids: seq<string>)
      requires Valid()
      ensures ids == Contents()
    {
      return buffer[..count];
    }

    /** Filters in place: the kept ids move to the front of the same array. */
    method Clear(sent: seq<string>)
      requires Valid()
      modifies this`count, buffer
      ensures Valid() && Contents() == Kept(old(Contents()), Elements(sent))
    {
      if |sent| == 0 {
        assert Elements(sent) == {};
        KeepAll(Contents());
        return;
      }
      hide Kept;
      ghost var was, gone := Contents(), Elements(sent);
      KeptNone(gone);
      assert was[..0] == [];
      var remaining := 0;
      for i := 0 to count
        invariant remaining <= i && count == old(count) && buffer == old(buffer)
        invariant forall k :: i <= k < count ==> buffer[k] == was[k]
        invariant buffer[..remaining] == Kept(was[..i], gone)
      {
        KeptStep(was, i, gone);
        if buffer[i] !in sent {
          buffer[remaining] := buffer[i];
          remaining := remaining + 1;
        }
      }
      assert was[..count] == was;
      count := remaining;
    }
  }

  lemma {:induction false} KeepAll(ids: seq<string>)
    ensures Kept(ids, {}) == ids
  {
    if ids != [] {
      KeepAll(ids[..|ids| - 1]);
    }
  }
}

/**
 * Reassembly of one upload (`terminal/file_manager.go`): chunks arrive in any order, are written
 * when they continue the file, parked in a window otherwise, and answered one by one.
 */
module Upload {
  import opened Common

  const MAX_TRANSFER_SIZE: int := 0x8000_0000
  const MAX_CHUNK_SIZE: int := 0x10_0000
  const MAX_PENDING_CHUNKS: int := 8

  datatype ChunkError = Empty | TooLarge | OffsetMismatch | ExceedsDeclaredSize | WriteFailed

  /** Chunks are told apart by a token, which stands for the request a chunk came with. */
  datatype Parked = Parked(token: nat, data: seq<Byte>)

  datatype Answer = Received(token: nat, received: int) | Rejected(token: nat, error: ChunkError)

  datatype Session = Session(expected: int, received: int, file: seq<Byte>, hashed: seq<Byte>,
                             pending: map<int, Parked>, closed: bool)

  function NewSession(expected: int): Session {
    Session(expected, 0, [], [], map[], false)
  }

  /**
   * A write fails on a closed file, and otherwise when the current length is among `failing`. The
   * writes of one call happen at distinct lengths, so this covers every pattern of failures.
   */
  function Write(s: Session, data: seq<Byte>, failing: set<int>): Option<Session> {
    if s.closed || s.received in failing then None
    else Some(s.(file := s.file + data, received := s.received + |data|, hashed := s.hashed + data))
  }

  /** Writes parked chunks while one continues the file. */
  function Drain(s: Session, failing: set<int>): (Session, seq<Answer>)
    decreases |s.pending|
  {
    if s.received !in s.pending then (s, [])
    else
      var parked := s.pending[s.received];
      var rest := s.(pending := s.pending - {s.received});
      var written := Write(rest, parked.data, failing);
      if written.None? then (rest, [Rejected(parked.token, WriteFailed)])
      else
        assert rest.pending.Keys == s.pending.Keys - {s.received};
        var (last, answers) := Drain(written.value, failing);
        (last, [Received(parked.token, written.value.received)] + answers)
  }

  function Accept(s: Session, token: nat, offset: Option<int>, data: seq<Byte>, failing: set<int>)
    : (Session, seq<Answer>)
  {
    if |data| == 0 then (s, [Rejected(token, Empty)])
    else if |data| > MAX_CHUNK_SIZE then (s, [Rejected(token, TooLarge)])
    else if offset.Some? && offset.value < 0 then (s, [Rejected(token, OffsetMismatch)])
    else
      var at := if offset.Some? then offset.value else s.received;
      if at < s.received then (s, [Rejected(token, OffsetMismatch)])
      else if WrapInt64(at + |data|) > s.expected then (s, [Rejected(token, ExceedsDeclaredSize)])
      else if at > s.received then
        if at in s.pending || |s.pending| >= MAX_PENDING_CHUNKS then (s, [Rejected(token, OffsetMismatch)])
        else (s.(pending := s.pending[at := Parked(token, data)]), [])
      else
        var written := Write(s, data, failing);
        if written.None? then (s, [Rejected(token, WriteFailed)])
        else
          var (last, answers) := Drain(written.value, failing);
          (last, [Received(token, written.value.received)] + answers)
  }

  // ---------------------------------------------------------------- what every call keeps

  ghost predicate Consistent(s: Session) {
    && |s.file| == s.received <= s.expected <= MAX_TRANSFER_SIZE
    && s.hashed == s.file
    && s.received !in s.pending
    && |s.pending| <= MAX_PENDING_CHUNKS
    && PendingFits(s)
  }

  /** A parked chunk within the declared size also ends within it. (Offsets may wrap, lengths not.) */
  ghost predicate PendingFits(s: Session) {
    forall at | at in s.pending && at <= s.expected :: at + |s.pending[at].data| <= s.expected
  }

  lemma {:induction false} DrainKeeps(s: Session, failing: set<int>)
    requires |s.file| == s.received <= s.expected <= MAX_TRANSFER_SIZE && s.hashed == s.file
    requires |s.pending| <= MAX_PENDING_CHUNKS && PendingFits(s)
    ensures var last := Drain(s, failing).0;
            Consistent(last) && last.expected == s.expected && last.closed == s.closed && s.file <= last.file
    decreases |s.pending|
  {
    if s.received in s.pending {
      var rest := s.(pending := s.pending - {s.received});
      assert rest.pending.Keys == s.pending.Keys - {s.received};
      var written := Write(rest, s.pending[s.received].data, failing);
      if written.Some? {
        DrainKeeps(written.value, failing);
      }
    }
  }

  lemma ParkKeeps(s: Session, at: int, token: nat, data: seq<Byte>)
    requires Consistent(s) && at > s.received && at !in s.pending && |s.pending| < MAX_PENDING_CHUNKS
    requires at <= s.expected ==> at + |data| <= s.expected
    ensures Consistent(s.(pending := s.pending[at := Parked(token, data)]))
  {
    assert s.pending[at := Parked(token, data)].Keys == s.pending.Keys + {at};
  }

  lemma WriteKeeps(s: Session, data: seq<Byte>, failing: set<int>)
    requires Consistent(s) && s.received + |data| <= s.expected && Write(s, data, failing).Some?
    ensures var last := Drain(Write(s, data, failing).value, failing).0;
            Consistent(last) && last.expected == s.expected && last.closed == s.closed && s.file <= last.file
    ensures !s.closed
  {
    hide Drain;
    DrainKeeps(Write(s, data, failing).value, failing);
  }

  lemma NoWrap(s: Session, at: int, length: nat)
    requires Consistent(s) && length <= MAX_CHUNK_SIZE
    ensures 0 <= s.received <= s.expected
    ensures 0 <= at <= s.expected ==> WrapInt64(at + length) == at + length
  {
  }

  /**
   * Every call keeps the session consistent: the file has exactly `received` bytes, they are the
   * hashed ones, they never exceed the declared size, and `received` is never a parked offset. The
   * file only grows, and not at all once it is closed.
   */
  lemma AcceptKeeps(s: Session, token: nat, offset: Option<int>, data: seq<Byte>, failing: set<int>)
    requires Consistent(s)
    ensures var next := Accept(s, token, offset, data, failing).0;
            && Consistent(next) && next.expected == s.expected && next.closed == s.closed
            && s.file <= next.file && (s.closed ==> next.file == s.file)
  {
    hide WrapInt64, Drain, Write, Consistent;
    var at := if offset.Some? then offset.value else s.received;
    if 0 < |data| <= MAX_CHUNK_SIZE {
      NoWrap(s, at, |data|);
      if WrapInt64(at + |data|) <= s.expected {
        if at == s.received && Write(s, data, failing).Some? {
          WriteKeeps(s, data, failing);
        } else if at > s.received && at !in s.pending && |s.pending| < MAX_PENDING_CHUNKS {
          ParkKeeps(s, at, token, data);
        }
      }
    }
  }

  lemma WrapSmall(x: int)
    requires 0 <= x < TWO64 / 2
    ensures WrapInt64(x) == x
  {
  }

  /**
   * The size check is the real comparison exactly when the end of the chunk does not overflow a signed 64-bit
   * number.
   */
  lemma SizeCheckExactly(s: Session, at: int, length: nat)
    requires Consistent(s) && 0 <= at < TWO64 / 2 && length <= MAX_CHUNK_SIZE
    ensures (WrapInt64(at + length) <= s.expected <==> at + length <= s.expected) <==> at + length < TWO64 / 2
  {
    if at + length >= TWO64 / 2 {
      assert WrapInt64(at + length) == at + length - TWO64;
    } else {
      WrapSmall(at + length);
    }
  }

  /** So a chunk at the largest offset is parked, with no answer, in a session that expects one byte. */
  lemma OverflowingChunkIsParked()
    ensures var (s, answers) := Accept(NewSession(1), 0, Some(9223372036854775807), [0], {});
            answers == [] && 9223372036854775807 in s.pending
  {
    assert WrapInt64(9223372036854775807 + 1) == -9223372036854775808;
  }

  // ---------------------------------------------------------------- what one call decides

  /** The end of a chunk as the code computes it, when it does not overflow. */
  ghost predicate Ends(at: int, data: seq<Byte>) {
    at + |data| < TWO64 / 2
  }

  /**
   * The refusals, in their order of precedence. A refused chunk changes nothing. A chunk without an offset stands
   * where the file ends.
   */
  lemma AcceptRefuses(s: Session, token: nat, offset: Option<int>, data: seq<Byte>, failing: set<int>)
    requires Consistent(s) && (offset.Some? ==> Ends(offset.value, data))
    ensures var (next, answers) := Accept(s, token, offset, data, failing);
      var at := if offset.None? then s.received else offset.value;
      && (|data| == 0 ==> next == s && answers == [Rejected(token, Empty)])
      && (|data| > 1024 * 1024 ==> next == s && answers == [Rejected(token, TooLarge)])
      && (0 < |data| <= 1024 * 1024 && at < s.received ==> next == s && answers == [Rejected(token, OffsetMismatch)])
      && (0 < |data| <= 1024 * 1024 && s.received <= at && s.expected < at + |data| ==>
            next == s && answers == [Rejected(token, ExceedsDeclaredSize)])
  {
    hide Drain, Write, WrapInt64;
    if 0 < |data| <= MAX_CHUNK_SIZE {
      var at := if offset.None? then s.received else offset.value;
      if s.received <= at {
        WrapSmall(at + |data|);
      }
    }
  }

  /**
   * A chunk that fits is parked when it lies ahead of the file, is not there already, and fewer than eight are
   * parked. When it continues the file it is written, unless the write fails.
   */
  lemma AcceptTakes(s: Session, token: nat, offset: Option<int>, data: seq<Byte>, failing: set<int>)
    requires Consistent(s) && 0 < |data| <= 1024 * 1024 && (offset.Some? ==> s.received <= offset.value)
    requires (if offset.None? then s.received else offset.value) + |data| <= s.expected
    ensures var (next, answers) := Accept(s, token, offset, data, failing);
      var at := if offset.None? then s.received else offset.value;
      if at > s.received then
        if at in s.pending || |s.pending| >= 8 then next == s && answers == [Rejected(token, OffsetMismatch)]
        else answers == [] && next == s.(pending := s.pending[at := Parked(token, data)])
      else if s.closed || s.received in failing then
        next == s && answers == [Rejected(token, WriteFailed)]
      else
        && answers != [] && answers[0] == Received(token, s.received + |data|)
        && s.file + data <= next.file && next.expected == s.expected && next.closed == s.closed
  {
    hide WrapInt64, Drain;
    var at := if offset.None? then s.received else offset.value;
    WrapSmall(at + |data|);
    if at == s.received && !s.closed && s.received !in failing {
      DrainKeeps(Write(s, data, failing).value, failing);
    }
  }

  /** The answer to a parked chunk: where it ends in the file, which now holds it; or the failure of its write. */
  ghost predicate SaysWhere(a: Answer, s: Session, last: Session, failing: set<int>) {
    exists at | at in s.pending :: AnswersAt(a, at, s.pending[at], s.closed, last, failing)
  }

  ghost predicate AnswersAt(a: Answer, at: int, parked: Parked, closed: bool, last: Session, failing: set<int>) {
    || (&& a == Received(parked.token, at + |parked.data|)
        && 0 <= at && at + |parked.data| <= |last.file| && last.file[at..at + |parked.data|] == parked.data)
    || (a == Rejected(parked.token, WriteFailed) && last.received == at && (closed || at in failing))
  }

  /** Every answer of the drain loop is about a parked chunk and is true of it. Only the last one can be a failure. */
  lemma {:induction false} DrainSays(s: Session, failing: set<int>)
    requires |s.file| == s.received
    ensures var (last, answers) := Drain(s, failing);
      && s.file <= last.file && |last.file| == last.received
      && (forall i | 0 <= i < |answers| :: SaysWhere(answers[i], s, last, failing))
      && (forall i | 0 <= i < |answers| - 1 :: answers[i].Received?)
    decreases |s.pending|
  {
    if s.received in s.pending {
      var at, parked := s.received, s.pending[s.received];
      var rest := s.(pending := s.pending - {at});
      assert rest.pending.Keys == s.pending.Keys - {at};
      var written := Write(rest, parked.data, failing);
      var (last, answers) := Drain(s, failing);
      if written.Some? {
        DrainSays(written.value, failing);
        var tail := Drain(written.value, failing).1;
        assert last.file[at..at + |parked.data|] == written.value.file[at..at + |parked.data|] == parked.data;
        forall i | 0 <= i < |answers|
          ensures SaysWhere(answers[i], s, last, failing)
        {
          if i == 0 {
            assert AnswersAt(answers[0], at, parked, s.closed, last, failing);
          } else {
            assert answers[i] == tail[i - 1];
            var b :| && b in written.value.pending
                     && AnswersAt(tail[i - 1], b, written.value.pending[b], s.closed, last, failing);
            assert AnswersAt(answers[i], b, s.pending[b], s.closed, last, failing);
          }
        }
      } else {
        assert AnswersAt(answers[0], at, parked, s.closed, last, failing);
      }
    }
  }

  /** The same for a whole call, whose first answer is about its own chunk. */
  lemma AcceptSays(s: Session, token: nat, offset: Option<int>, data: seq<Byte>, failing: set<int>)
    requires Consistent(s)
    ensures var (next, answers) := Accept(s, token, offset, data, failing);
      && (answers != [] ==> answers[0].token == token)
      && (forall i | 0 < i < |answers| :: SaysWhere(answers[i], s, next, failing))
      && (forall i | 0 <= i < |answers| - 1 :: answers[i].Received?)
  {
    hide Drain;
    var (next, answers) := Accept(s, token, offset, data, failing);
    if answers != [] && answers[0].Received? {
      var written := Write(s, data, failing).value;
      DrainSays(written, failing);
      var tail := Drain(written, failing).1;
      forall i | 0 < i < |answers|
        ensures SaysWhere(answers[i], s, next, failing)
      {
        assert answers[i] == tail[i - 1];
        var b :| b in written.pending && AnswersAt(tail[i - 1], b, written.pending[b], written.closed, next, failing);
        assert AnswersAt(answers[i], b, s.pending[b], s.closed, next, failing);
      }
    }
  }

  // ---------------------------------------------------------------- one answer per chunk

  function Tokens(answers: seq<Answer>): seq<nat> {
    seq(|answers|, i requires 0 <= i < |answers| => answers[i].token)
  }

  ghost predicate Distinct(xs: seq<nat>) {
    forall i, j | 0 <= i < j < |xs| :: xs[i] != xs[j]
  }

  ghost predicate IsParked(s: Session, token: nat) {
    exists at :: at in s.pending && s.pending[at].token == token
  }

  ghost predicate ParkedOnce(s: Session) {
    forall a, b | a in s.pending && b in s.pending && a != b :: s.pending[a].token != s.pending[b].token
  }

  /** The tokens below `n` are answered or parked, never both and never twice. */
  ghost predicate Accounted(s: Session, answers: seq<Answer>, n: nat) {
    && Distinct(Tokens(answers)) && ParkedOnce(s)
    && (forall t: nat :: t < n <==> t in Tokens(answers) || IsParked(s, t))
    && (forall t: nat :: !(t in Tokens(answers) && IsParked(s, t)))
  }

  lemma {:induction false} DrainAnswers(s: Session, failing: set<int>)
    requires ParkedOnce(s)
    ensures var (last, answers) := Drain(s, failing);
            && ParkedOnce(last) && Distinct(Tokens(answers))
            && (forall t: nat :: t in Tokens(answers) <==> IsParked(s, t) && !IsParked(last, t))
            && (forall t: nat :: IsParked(last, t) ==> IsParked(s, t))
    decreases |s.pending|
  {
    if s.received in s.pending {
      var parked := s.pending[s.received];
      var rest := s.(pending := s.pending - {s.received});
      assert rest.pending.Keys == s.pending.Keys - {s.received};
      forall t: nat
        ensures IsParked(s, t) <==> t == parked.token || IsParked(rest, t)
        ensures IsParked(rest, t) ==> t != parked.token
      {
        if IsParked(s, t) {
          var at :| at in s.pending && s.pending[at].token == t;
          assert at != s.received ==> at in rest.pending && rest.pending[at].token == t;
        }
      }
      var written := Write(rest, parked.data, failing);
      if written.Some? {
        DrainAnswers(written.value, failing);
        assert forall t: nat :: IsParked(written.value, t) <==> IsParked(rest, t);
        var (last, answers) := Drain(written.value, failing);
        var first := Received(parked.token, written.value.received);
        TokensConcat([first], answers);
        assert Tokens([first]) == [parked.token];
        DistinctConcat([parked.token], Tokens(answers));
      } else {
        assert Tokens([Rejected(parked.token, WriteFailed)]) == [parked.token];
      }
    }
  }

  lemma TokensConcat(a: seq<Answer>, b: seq<Answer>)
    ensures Tokens(a + b) == Tokens(a) + Tokens(b)
  {
  }

  lemma DistinctConcat(a: seq<nat>, b: seq<nat>)
    requires Distinct(a) && Distinct(b) && forall t | t in a :: t !in b
    ensures Distinct(a + b)
  {
    forall i, j | 0 <= i < j < |a + b|
      ensures (a + b)[i] != (a + b)[j]
    {
      if i < |a| <= j {
        assert (a + b)[i] in a && (a + b)[j] in b;
      }
    }
  }

  /** What one call answers: only its own chunk and parked ones, each once. */
  lemma AcceptAnswers(s: Session, token: nat, offset: Option<int>, data: seq<Byte>, failing: set<int>)
    requires ParkedOnce(s) && !IsParked(s, token)
    ensures var (next, answers) := Accept(s, token, offset, data, failing);
            && ParkedOnce(next) && Distinct(Tokens(answers))
            && (forall t: nat :: t in Tokens(answers) <==> (t == token || IsParked(s, t)) && !IsParked(next, t))
            && (forall t: nat :: IsParked(next, t) ==> t == token || IsParked(s, t))
  {
    var (next, answers) := Accept(s, token, offset, data, failing);
    var at := if offset.Some? then offset.value else s.received;
    if answers == [] {
      assert next.pending == s.pending[at := Parked(token, data)];
      forall t: nat
        ensures IsParked(next, t) <==> t == token || IsParked(s, t)
      {
        assert t == token ==> at in next.pending && next.pending[at].token == t;
        if IsParked(s, t) {
          var a :| a in s.pending && s.pending[a].token == t;
          assert a in next.pending && next.pending[a].token == t;
        }
      }
    } else if answers[0].Received? {
      var written := Write(s, data, failing).value;
      assert forall t: nat :: IsParked(written, t) <==> IsParked(s, t);
      DrainAnswers(written, failing);
      TokensConcat([answers[0]], Drain(written, failing).1);
      assert Tokens([answers[0]]) == [token];
      DistinctConcat([token], Tokens(Drain(written, failing).1));
    } else {
      assert next == s && Tokens(answers) == [token];
    }
  }

  lemma AcceptAccounts(s: Session, past: seq<Answer>, n: nat, offset: Option<int>, data: seq<Byte>, failing: set<int>)
    requires Accounted(s, past, n)
    ensures var (next, answers) := Accept(s, n, offset, data, failing);
            Accounted(next, past + answers, n + 1)
  {
    var (next, answers) := Accept(s, n, offset, data, failing);
    AcceptAnswers(s, n, offset, data, failing);
    TokensConcat(past, answers);
    DistinctConcat(Tokens(past), Tokens(answers));
  }

  // ---------------------------------------------------------------- whole runs

  /** A chunk handler may run at any time, even after the file was closed by finish, cancel or close. */
  datatype Event = Chunk(offset: Option<int>, data: seq<Byte>, failing: set<int>) | Close

  function ChunkCount(events: seq<Event>): nat {
    if events == [] then 0
    else ChunkCount(events[..|events| - 1]) + if events[|events| - 1].Chunk? then 1 else 0
  }

  /** The session and all answers after a run; the token of a chunk is its rank among the chunks. */
  function Run(expected: int, events: seq<Event>): (Session, seq<Answer>) {
    if events == [] then (NewSession(expected), [])
    else
      var before, e := events[..|events| - 1], events[|events| - 1];
      var (s, past) := Run(expected, before);
      match e
      case Close => (s.(closed := true), past)
      case Chunk(offset, data, failing) =>
        var (next, answers) := Accept(s, ChunkCount(before), offset, data, failing);
        (next, past + answers)
  }

  /**
   * Every reachable session is consistent, and every chunk ever submitted is answered exactly once
   * or still parked, never both.
   */
  lemma {:induction false} UploadSafety(expected: int, events: seq<Event>)
    requires 0 <= expected <= MAX_TRANSFER_SIZE
    ensures var (s, answers) := Run(expected, events);
            Consistent(s) && s.expected == expected && Accounted(s, answers, ChunkCount(events))
  {
    if events == [] {
      assert Tokens([]) == [];
    } else {
      var before, e := events[..|events| - 1], events[|events| - 1];
      UploadSafety(expected, before);
      var (s, past) := Run(expected, before);
      if e.Chunk? {
        AcceptKeeps(s, ChunkCount(before), e.offset, e.data, e.failing);
        AcceptAccounts(s, past, ChunkCount(before), e.offset, e.data, e.failing);
      } else {
        assert forall t: nat :: IsParked(s.(closed := true), t) <==> IsParked(s, t);
      }
    }
  }

  /** Once the file is closed, no racing chunk changes it: what was published stays as it was. */
  lemma {:induction false} ClosedFileIsFinal(expected: int, events: seq<Event>, later: seq<Event>)
    requires 0 <= expected <= MAX_TRANSFER_SIZE
    requires Run(expected, events).0.closed
    ensures Run(expected, events + later).0.closed
    ensures Run(expected, events + later).0.file == Run(expected, events).0.file
  {
    if later == [] {
      assert events + later == events;
    } else {
      var before, e := later[..|later| - 1], later[|later| - 1];
      ClosedFileIsFinal(expected, events, before);
      assert (events + later)[..|events + later| - 1] == events + before;
      UploadSafety(expected, events + before);
      if e.Chunk? {
        AcceptKeeps(Run(expected, events + before).0, ChunkCount(events + before), e.offset, e.data, e.failing);
      }
    }
  }
}

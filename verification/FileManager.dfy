/**
 * The upload sessions of a file manager (`terminal/file_manager.go`): the objects behind the
 * specification of one upload, the per-session limits, and the publication of a finished file.
 */
module FileManager {
  import opened Common
  import opened Upload

  const MAX_CONCURRENT_UPLOADS: int := 2

  class UploadState {
    const expected: int
    var received: int
    var file: seq<Byte>
    var hashed: seq<Byte>
    var pending: map<int, Parked>
    var closed: bool

    ghost function View(): Session
      reads this
    {
      Session(expected, received, file, hashed, pending, closed)
    }

    constructor (expected: int)
      ensures View() == NewSession(expected)
    {
      this.expected := expected;
      received, file, hashed, pending, closed := 0, [], [], map[], false;
    }

    method WriteChunk(data: seq<Byte>, failing: set<int>) returns (ok: bool)
      modifies this
      ensures ok == Write(old(View()), data, failing).Some?
      ensures View() == if ok then Write(old(View()), data, failing).value else old(View())
    {
      if closed || received in failing {
        return false;
      }
      file, received, hashed := file + data, received + |data|, hashed + data;
      return true;
    }

    /** `uploadChunkBytes` after the lookup, and `acceptUploadChunkLocked`. */
    method AcceptChunk(token: nat, offset: Option<int>, data: seq<Byte>, failing: set<int>)
      returns (results: seq<Answer>)
      modifies this
      ensures (View(), results) == Accept(old(View()), token, offset, data, failing)
    {
      if |data| == 0 {
        return [Rejected(token, Empty)];
      }
      if |data| > MAX_CHUNK_SIZE {
        return [Rejected(token, TooLarge)];
      }
      var at := received;
      if offset.Some? {
        if offset.value < 0 {
          return [Rejected(token, OffsetMismatch)];
        }
        at := offset.value;
      }
      if at < received || WrapInt64(at + |data|) > expected {
        return [Rejected(token, if at >= received then ExceedsDeclaredSize else OffsetMismatch)];
      }
      if at > received {
        if at in pending || |pending| >= MAX_PENDING_CHUNKS {
          return [Rejected(token, OffsetMismatch)];
        }
        pending := pending[at := Parked(token, data)];
        return [];
      }
      var ok := WriteChunk(data, failing);
      if !ok {
        return [Rejected(token, WriteFailed)];
      }
      var drained := DrainPending(failing);
      results := [Received(token, at + |data|)] + drained;
    }

    /** The drain loop: writes parked chunks while one continues the file. */
    method DrainPending(failing: set<int>) returns (results: seq<Answer>)
      modifies this
      ensures (View(), results) == Drain(old(View()), failing)
    {
      hide Drain;
      results := [];
      assert results + Drain(View(), failing).1 == Drain(View(), failing).1;
      while received in pending
        invariant Drain(old(View()), failing) == (Drain(View(), failing).0, results + Drain(View(), failing).1)
        decreases |pending|
      {
        var parked := pending[received];
        ghost var before, done := View(), results;
        DrainStep(before, failing);
        pending := pending - {received};
        assert pending.Keys == before.pending.Keys - {received};
        var ok := WriteChunk(parked.data, failing);
        if !ok {
          results := results + [Rejected(parked.token, WriteFailed)];
          return;
        }
        results := results + [Received(parked.token, received)];
        assert done + Drain(before, failing).1 == results + Drain(View(), failing).1;
      }
      DrainStep(View(), failing);
      assert results + [] == results;
    }
  }

  /** One round of the drain loop, and its end. */
  lemma DrainStep(s: Session, failing: set<int>)
    ensures s.received !in s.pending ==> Drain(s, failing) == (s, [])
    ensures s.received in s.pending ==>
      var parked, rest := s.pending[s.received], s.(pending := s.pending - {s.received});
      var written := Write(rest, parked.data, failing);
      if written.None? then Drain(s, failing) == (rest, [Rejected(parked.token, WriteFailed)])
      else
        && Drain(s, failing).0 == Drain(written.value, failing).0
        && Drain(s, failing).1 == [Received(parked.token, written.value.received)] + Drain(written.value, failing).1
  {
    hide Write;
  }

  // ---------------------------------------------------------------- reserved bytes

  ghost function Total(sizes: map<string, int>): int
    decreases |sizes|
  {
    if sizes == map[] then 0
    else
      var id := PickId(sizes.Keys);
      assert (sizes - {id}).Keys == sizes.Keys - {id};
      sizes[id] + Total(sizes - {id})
  }

  ghost function PickId(ids: set<string>): (id: string)
    requires ids != {}
    ensures id in ids
  {
    var id :| id in ids; id
  }

  /** The total does not depend on the order of summation. */
  lemma {:induction false} TotalWithout(sizes: map<string, int>, id: string)
    requires id in sizes
    ensures Total(sizes) == sizes[id] + Total(sizes - {id})
    decreases |sizes|
  {
    var first := PickId(sizes.Keys);
    if first != id {
      assert (sizes - {first}).Keys == sizes.Keys - {first};
      assert (sizes - {id}).Keys == sizes.Keys - {id};
      TotalWithout(sizes - {first}, id);
      TotalWithout(sizes - {id}, first);
      assert sizes - {first} - {id} == sizes - {id} - {first};
    }
  }

  lemma {:induction false} TotalIsNonNegative(sizes: map<string, int>)
    requires forall id | id in sizes :: sizes[id] >= 0
    ensures Total(sizes) >= 0
    decreases |sizes|
  {
    if sizes != map[] {
      var id := PickId(sizes.Keys);
      assert (sizes - {id}).Keys == sizes.Keys - {id};
      TotalIsNonNegative(sizes - {id});
    }
  }

  // ---------------------------------------------------------------- the manager

  datatype StartError = InvalidTarget | SizeLimit | TempFileFailed | ManagerClosed | TooManyUploads | SessionLimit

  datatype FinishError =
    | NotFound | SizeMismatch | ChecksumMismatch | SyncFailed | CloseFailed | TargetRejected | RenameFailed

  /** What the file system answers while a file is published. */
  datatype Disk = Disk(syncOk: bool, closeOk: bool, targetOk: bool, renameOk: bool)

  function Lower(c: char): char {
    if 'A' <= c <= 'Z' then (c as int + 32) as char else c
  }

  /** Equal up to case. One side is a hexadecimal digest, so only ASCII letters can have a case that matters. */
  predicate EqualFold(a: string, b: string) {
    |a| == |b| && forall i | 0 <= i < |a| :: Lower(a[i]) == Lower(b[i])
  }

  /** Two characters are equal up to case when they are the same, or one is the capital of the other. */
  lemma EqualFoldByCharacter(a: string, b: string)
    ensures EqualFold(a, b) <==> |a| == |b| && forall i | 0 <= i < |b| ::
      || a[i] == b[i]
      || ('a' <= b[i] <= 'z' && a[i] as int == b[i] as int - 32)
      || ('A' <= b[i] <= 'Z' && a[i] as int == b[i] as int + 32)
  {
    forall i | 0 <= i < |a| && |a| == |b|
      ensures Lower(a[i]) == Lower(b[i]) <==>
                || a[i] == b[i]
                || ('a' <= b[i] <= 'z' && a[i] as int == b[i] as int - 32)
                || ('A' <= b[i] <= 'Z' && a[i] as int == b[i] as int + 32)
    {
      LowerIsFold(a[i], b[i]);
    }
  }

  lemma LowerIsFold(c: char, h: char)
    ensures Lower(c) == Lower(h) <==>
              || c == h
              || ('a' <= h <= 'z' && c as int == h as int - 32)
              || ('A' <= h <= 'Z' && c as int == h as int + 32)
  {
  }

  ghost function Sizes(uploads: map<string, UploadState>): map<string, int> {
    map id | id in uploads :: uploads[id].expected
  }

  /** The counters are exact and within the limits. */
  ghost predicate Accounts(uploads: map<string, UploadState>, count: int, reserved: int) {
    && count == |uploads| <= MAX_CONCURRENT_UPLOADS
    && reserved == Total(Sizes(uploads)) <= MAX_TRANSFER_SIZE
    && forall id | id in uploads :: 0 <= uploads[id].expected
  }

  lemma AccountsWithout(uploads: map<string, UploadState>, count: int, reserved: int, id: string)
    requires Accounts(uploads, count, reserved) && id in uploads
    ensures Accounts(uploads - {id}, count - 1, reserved - uploads[id].expected)
    ensures count >= 1 && reserved >= uploads[id].expected
  {
    hide Total;
    var sizes := Sizes(uploads);
    TotalWithout(sizes, id);
    TotalIsNonNegative(sizes - {id});
    assert (uploads - {id}).Keys == uploads.Keys - {id};
    assert Sizes(uploads - {id}) == sizes - {id};
  }

  lemma CountersAreExact(uploads: map<string, UploadState>, count: int, reserved: int)
    requires Accounts(uploads, count, reserved)
    ensures count == |uploads| && reserved == Total(Sizes(uploads))
  {
  }

  lemma SizesWith(uploads: map<string, UploadState>, id: string, upload: UploadState)
    requires id !in uploads
    ensures var sizes := Sizes(uploads[id := upload]);
            id in sizes && sizes[id] == upload.expected && sizes - {id} == Sizes(uploads)
  {
  }

  lemma CountWith<V>(m: map<string, V>, id: string, v: V)
    requires id !in m
    ensures |m[id := v]| == |m| + 1
  {
    assert m[id := v].Keys == m.Keys + {id};
  }

  lemma AccountsWith(uploads: map<string, UploadState>, count: int, reserved: int, id: string, upload: UploadState)
    requires Accounts(uploads, count, reserved) && id !in uploads && upload.expected >= 0
    requires count < MAX_CONCURRENT_UPLOADS && reserved + upload.expected <= MAX_TRANSFER_SIZE
    ensures Accounts(uploads[id := upload], count + 1, reserved + upload.expected)
  {
    hide Total, Sizes;
    SizesWith(uploads, id, upload);
    TotalWithout(Sizes(uploads[id := upload]), id);
    CountWith(uploads, id, upload);
  }

  /** Every open session is its own consistent, open upload. */
  ghost predicate Separate(uploads: map<string, UploadState>)
    reads uploads.Values
  {
    && (forall id | id in uploads :: !uploads[id].closed && Consistent(uploads[id].View()))
    && (forall a, b | a in uploads && b in uploads && a != b :: uploads[a] != uploads[b])
  }

  lemma SeparateWithout(uploads: map<string, UploadState>, id: string)
    requires Separate(uploads)
    ensures Separate(uploads - {id})
  {
  }

  lemma SeparateWith(uploads: map<string, UploadState>, id: string, upload: UploadState)
    requires Separate(uploads) && !upload.closed && Consistent(upload.View())
    requires upload !in uploads.Values
    ensures Separate(uploads[id := upload])
  {
    hide Consistent;
    forall a | a in uploads ensures uploads[a] in uploads.Values {
    }
  }

  lemma NoUploads()
    ensures Accounts(map[], 0, 0)
  {
    assert Sizes(map[]) == map[];
  }

  lemma NewSessionIsConsistent(size: int)
    requires 0 <= size <= MAX_TRANSFER_SIZE
    ensures Consistent(NewSession(size))
  {
  }

  lemma ConsistentBytes(s: Session)
    requires Consistent(s)
    ensures s.hashed == s.file && |s.file| == s.received
  {
  }

  /** The cause of a refused start. An earlier cause hides a later one. */
  ghost predicate StartFailsBy(
    e: StartError, size: int, targetOk: bool, tempOk: bool, closed: bool, count: int, total: int)
  {
    match e
    case InvalidTarget => !targetOk
    case SizeLimit => targetOk && !(0 <= size <= 2048 * 1024 * 1024)
    case TempFileFailed => targetOk && 0 <= size <= 2048 * 1024 * 1024 && !tempOk
    case ManagerClosed => targetOk && 0 <= size <= 2048 * 1024 * 1024 && tempOk && closed
    case TooManyUploads => targetOk && 0 <= size <= 2048 * 1024 * 1024 && tempOk && !closed && count >= 2
    case SessionLimit => targetOk && 0 <= size <= 2048 * 1024 * 1024 && tempOk && !closed && count < 2
                         && total + size > 2048 * 1024 * 1024
  }

  /** The cause of a refused publication of a session that exists, in the order in which the steps are taken. */
  ghost predicate FinishFailsBy(e: FinishError, complete: bool, disk: Disk) {
    match e
    case NotFound => false
    case SizeMismatch => !complete
    case ChecksumMismatch => complete
    case SyncFailed => complete && !disk.syncOk
    case CloseFailed => complete && disk.syncOk && !disk.closeOk
    case TargetRejected => complete && disk.syncOk && disk.closeOk && !disk.targetOk
    case RenameFailed => complete && disk.syncOk && disk.closeOk && disk.targetOk && !disk.renameOk
  }

  class FileManager {
    var uploads: map<string, UploadState>
    var uploadCount: int
    var reservedUploadBytes: int
    var closed: bool

    ghost predicate Valid()
      reads this, uploads.Values
    {
      Accounts(uploads, uploadCount, reservedUploadBytes) && Separate(uploads) && (closed ==> uploads == map[])
    }

    constructor ()
      ensures Valid() && uploads == map[] && !closed
    {
      uploads, uploadCount, reservedUploadBytes, closed := map[], 0, 0, false;
    }

    method ReleaseUploadReservation(size: int)
      modifies this`uploadCount, this`reservedUploadBytes
      ensures uploadCount == if old(uploadCount) < 1 then 0 else old(uploadCount) - 1
      ensures reservedUploadBytes == if old(reservedUploadBytes) < size then 0 else old(reservedUploadBytes) - size
    {
      uploadCount := uploadCount - 1;
      reservedUploadBytes := reservedUploadBytes - size;
      if uploadCount < 0 {
        uploadCount := 0;
      }
      if reservedUploadBytes < 0 {
        reservedUploadBytes := 0;
      }
    }

    /** Neither clamp to zero fires: the counters drop by exactly one session and its bytes. */
    method ForgetUpload(uploadID: string) returns (upload: UploadState?)
      requires Valid()
      modifies this`uploads, this`uploadCount, this`reservedUploadBytes
      ensures Valid() && uploads == old(uploads) - {uploadID}
      ensures if uploadID in old(uploads) then
                && upload == old(uploads)[uploadID]
                && uploadCount == old(uploadCount) - 1
                && reservedUploadBytes == old(reservedUploadBytes) - upload.expected
              else
                upload == null && uploadCount == old(uploadCount) && reservedUploadBytes == old(reservedUploadBytes)
    {
      hide Accounts, Consistent, Separate;
      if uploadID !in uploads {
        assert uploads - {uploadID} == uploads;
        return null;
      }
      upload := uploads[uploadID];
      AccountsWithout(uploads, uploadCount, reservedUploadBytes, uploadID);
      SeparateWithout(uploads, uploadID);
      uploads := uploads - {uploadID};
      ReleaseUploadReservation(upload.expected);
    }

    /** Upload ids are random, so a new one is taken to be unused. */
    method StartUpload(uploadID: string, size: int, targetOk: bool, tempOk: bool)
      returns (r: Result<UploadState, StartError>)
      requires Valid() && uploadID !in uploads
      modifies this`uploads, this`uploadCount, this`reservedUploadBytes
      ensures Valid()
      ensures r.Ok? <==> targetOk && tempOk && 0 <= size <= 2048 * 1024 * 1024 && !closed
                         && |old(uploads)| < 2 && Total(Sizes(old(uploads))) + size <= 2048 * 1024 * 1024
      ensures r.Err? ==>
        StartFailsBy(r.error, size, targetOk, tempOk, closed, |old(uploads)|, Total(Sizes(old(uploads))))
      ensures r.Ok? ==> fresh(r.value) && r.value.View() == Session(size, 0, [], [], map[], false)
      ensures r.Ok? ==> uploads == old(uploads)[uploadID := r.value]
      ensures r.Err? ==> uploads == old(uploads)
    {
      hide Consistent, Accounts, Separate, Total, Sizes;
      CountersAreExact(uploads, uploadCount, reservedUploadBytes);
      if !targetOk {
        return Err(InvalidTarget);
      }
      if size < 0 || size > MAX_TRANSFER_SIZE {
        return Err(SizeLimit);
      }
      if !tempOk {
        return Err(TempFileFailed);
      }
      if closed {
        return Err(ManagerClosed);
      }
      if uploadCount >= MAX_CONCURRENT_UPLOADS {
        return Err(TooManyUploads);
      }
      if reservedUploadBytes + size > MAX_TRANSFER_SIZE {
        return Err(SessionLimit);
      }
      var upload := new UploadState(size);
      assert Consistent(upload.View()) by { NewSessionIsConsistent(size); }
      AccountsWith(uploads, uploadCount, reservedUploadBytes, uploadID, upload);
      SeparateWith(uploads, uploadID, upload);
      uploadCount := uploadCount + 1;
      reservedUploadBytes := reservedUploadBytes + size;
      uploads := uploads[uploadID := upload];
      return Ok(upload);
    }

    /** A chunk for an open session. An unknown session is answered with an error and changes nothing. */
    method UploadChunk(uploadID: string, token: nat, offset: Option<int>, data: seq<Byte>, failing: set<int>)
      returns (r: Result<seq<Answer>, FinishError>)
      requires Valid()
      modifies uploads.Values
      ensures Valid()
      ensures r.Ok? <==> uploadID in uploads
      ensures r.Err? ==> r.error == NotFound
      ensures r.Ok? ==>
        (uploads[uploadID].View(), r.value) == Accept(old(uploads[uploadID].View()), token, offset, data, failing)
      ensures forall id | id in uploads && id != uploadID :: uploads[id].View() == old(uploads[id].View())
    {
      if uploadID !in uploads {
        return Err(NotFound);
      }
      AcceptKeeps(uploads[uploadID].View(), token, offset, data, failing);
      var results := uploads[uploadID].AcceptChunk(token, offset, data, failing);
      return Ok(results);
    }

    /**
     * Publishes exactly the declared number of bytes, and only bytes that were hashed to the asked
     * checksum; an empty checksum asks for none. Whatever the outcome, the session is forgotten and its file is closed.
     */
    method FinishUpload(uploadID: string, checksum: string, digest: seq<Byte> -> string, disk: Disk)
      returns (r: Result<seq<Byte>, FinishError>)
      requires Valid()
      modifies this`uploads, this`uploadCount, this`reservedUploadBytes, uploads.Values
      ensures Valid() && uploads == old(uploads) - {uploadID}
      ensures uploadID in old(uploads) ==> old(uploads)[uploadID].closed
      ensures r.Ok? <==>
        && uploadID in old(uploads)
        && old(uploads[uploadID].received) == old(uploads)[uploadID].expected
        && (checksum == ""
            || var hex := digest(old(uploads[uploadID].file));
               |checksum| == |hex| && forall i | 0 <= i < |hex| ::
                 || checksum[i] == hex[i]
                 || ('a' <= hex[i] <= 'z' && checksum[i] as int == hex[i] as int - 32)
                 || ('A' <= hex[i] <= 'Z' && checksum[i] as int == hex[i] as int + 32))
        && disk.syncOk && disk.closeOk && disk.targetOk && disk.renameOk
      ensures r.Ok? ==> r.value == old(uploads[uploadID].file) && |r.value| == old(uploads)[uploadID].expected
      ensures uploadID !in old(uploads) ==> r == Err(NotFound)
      ensures uploadID in old(uploads) && r.Err? ==> (
        var complete := old(uploads[uploadID].received) == old(uploads)[uploadID].expected;
        FinishFailsBy(r.error, complete, disk))
      ensures r.Err? && !r.error.NotFound? && !r.error.SizeMismatch? ==> (
        var hex := digest(old(uploads[uploadID].file));
        r.error.ChecksumMismatch? <==> checksum != "" && !EqualFold(checksum, hex))
      ensures forall id | id in uploads :: uploads[id].View() == old(uploads[id].View())
    {
      hide Accounts, Consistent, EqualFold;
      if uploadID in uploads {
        ConsistentBytes(uploads[uploadID].View());
      }
      var upload := ForgetUpload(uploadID);
      if upload == null {
        return Err(NotFound);
      }
      upload.closed := true;
      if upload.received != upload.expected {
        return Err(SizeMismatch);
      }
      EqualFoldByCharacter(checksum, digest(upload.hashed));
      if checksum != "" && !EqualFold(checksum, digest(upload.hashed)) {
        return Err(ChecksumMismatch);
      }
      if !disk.syncOk {
        return Err(SyncFailed);
      }
      if !disk.closeOk {
        return Err(CloseFailed);
      }
      if !disk.targetOk {
        return Err(TargetRejected);
      }
      if !disk.renameOk {
        return Err(RenameFailed);
      }
      return Ok(upload.file);
    }

    method CancelUpload(uploadID: string) returns (found: bool)
      requires Valid()
      modifies this`uploads, this`uploadCount, this`reservedUploadBytes, uploads.Values
      ensures Valid() && uploads == old(uploads) - {uploadID} && found == (uploadID in old(uploads))
      ensures found ==> old(uploads)[uploadID].closed
      ensures forall id | id in uploads :: uploads[id].View() == old(uploads[id].View())
    {
      hide Accounts, Consistent;
      var upload := ForgetUpload(uploadID);
      if upload == null {
        return false;
      }
      upload.closed := true;
      return true;
    }

    /** Closing drops every session and closes its file; nothing can be started afterwards. */
    method Close()
      requires Valid()
      modifies this, uploads.Values
      ensures Valid() && closed && uploads == map[] && uploadCount == 0 && reservedUploadBytes == 0
      ensures forall id | id in old(uploads) ::
        old(uploads)[id].closed && old(uploads)[id].file == old(uploads[id].file)
    {
      NoUploads();
      hide Accounts, Consistent;
      closed := true;
      var open := uploads;
      uploads, uploadCount, reservedUploadBytes := map[], 0, 0;
      CloseAll(open);
    }
  }

  method CloseAll(open: map<string, UploadState>)
    modifies open.Values
    ensures forall id | id in open :: open[id].closed && open[id].file == old(open[id].file)
  {
    var todo := open.Keys;
    while todo != {}
      invariant todo <= open.Keys
      invariant forall id | id in open && id !in todo :: open[id].closed
      invariant forall id | id in open :: open[id].file == old(open[id].file)
    {
      var id :| id in todo;
      open[id].closed := true;
      todo := todo - {id};
    }
  }
}

/** Resumable uploads: uploadResumable and sendChunk of
    frontend/src/lib/resumableUpload.ts, against the server's side of a session
    (backend/app/api/v1/endpoints/uploads.py).

    Whatever the network, the user's pause button or another tab may do is a
    choice (`*`) each time it may happen, so what is proved holds for every run. */
module ResumableUpload {
  import opened Words
  import opened Chunks
  import Fips180
  import Sha256

  /** How one request can go wrong on its way, besides what the server answers. */
  datatype Fault = None | NeverArrived | ReplyLost | Refused(code: nat)

  datatype Reply = Ok | Lost | Error(code: nat) | FileMismatch | DuplicateFile

  /** Worth sending again: no reply at all, or a problem on the server's side. */
  predicate IsTransient(r: Reply) {
    r.Lost? || (r.Error? && r.code >= 500)
  }

  /** Two different byte strings with the same digest. */
  ghost predicate Collision(x: seq<byte>, y: seq<byte>) {
    x != y && Fips180.Sha256Hex(x) == Fips180.Sha256Hex(y)
  }

  /** The session as the server reports it. */
  datatype Session = Session(
    totalSize: nat,
    chunkSize: nat,
    chunkCount: nat,
    receivedChunks: seq<nat>,
    receivedChecksums: seq<string>,
    receivedBytes: nat,
    completed: bool
  )

  /** Nothing stored goes away or changes. */
  ghost predicate Kept(before: map<nat, seq<byte>>, after: map<nat, seq<byte>>) {
    forall i <- before :: i in after && after[i] == before[i]
  }

  /** The pause button. Unless it is armed no one presses it; once pressed it stays so. */
  class AbortSignal {
    const armed: bool
    var aborted: bool

    predicate Valid()
      reads this
    {
      aborted ==> armed
    }

    constructor (armed: bool)
      ensures Valid() && this.armed == armed && !aborted
    {
      this.armed, aborted := armed, false;
    }

    method Poll() returns (now: bool)
      requires Valid()
      modifies this
      ensures Valid() && now == aborted && (old(aborted) ==> aborted)
    {
      var pressed: bool := *;
      aborted := aborted || (armed && pressed);
      now := aborted;
    }
  }

  /** A document, once made, is not replaced. */
  predicate Stays(before: seq<seq<byte>>, after: seq<seq<byte>>) {
    before != [] ==> after == before
  }

  /** A session on the server. It is open until it has become a document, or is closed:
      refused for its content, given up or expired. Either way its chunks go. */
  class Server {
    /** Nothing goes wrong here: requests and replies arrive, the kind of file is allowed,
        and no other tab touches the session. Otherwise all of that may be, or not. */
    const calm: bool
    const totalSize: nat
    const chunkSize: nat
    const chunkCount: nat
    var chunks: map<nat, seq<byte>>
    var document: seq<seq<byte>>
    var closed: bool
    /** Every chunk the session ever took. */
    ghost var stored: map<nat, seq<byte>>

    predicate Open()
      reads this
    {
      !closed && document == []
    }

    /** Every chunk taken has the size its index asks for, and an open session still has
        them all; there is at most one document. */
    ghost predicate Valid()
      reads this
    {
      && Covers(totalSize, chunkSize, chunkCount)
      && |document| <= 1
      && chunks == (if Open() then stored else map[])
      && forall i <- stored ::
           i < chunkCount && |stored[i]| == ExpectedSize(totalSize, chunkSize, chunkCount, i)
    }

    ghost predicate Complete()
      reads this
    {
      forall i: nat :: i < chunkCount ==> i in chunks
    }

    /** Every chunk is there, and together they are a file of this size and digest. */
    ghost predicate Ready(checksum: string)
      reads this
    {
      && Complete()
      && |Assemble(chunks, chunkCount)| == totalSize
      && Fips180.Sha256Hex(Assemble(chunks, chunkCount)) == checksum
    }

    constructor (totalSize: nat, chunkSize: nat, calm: bool)
      requires 0 < totalSize && 0 < chunkSize
      ensures Valid() && Open() && chunks == stored == map[]
      ensures this.totalSize == totalSize && this.chunkSize == chunkSize && this.calm == calm
    {
      this.calm := calm;
      this.totalSize := totalSize;
      this.chunkSize := chunkSize;
      this.chunkCount := (totalSize + chunkSize - 1) / chunkSize;
      chunks, stored := map[], map[];
      document, closed := [], false;
      CeilingCovers(totalSize, chunkSize);
    }

    method Trouble() returns (fault: Fault)
      ensures calm ==> fault.None?
    {
      var any: Fault := *;
      fault := if calm then None else any;
    }

    method Supported() returns (supported: bool)
      ensures calm ==> supported
    {
      var any: bool := *;
      supported := calm || any;
    }

    /** How a closed session answers: it failed, it is not there, or it is over. */
    method Answer() returns (r: Reply)
      ensures r.Error? && !IsTransient(r)
    {
      var code: nat := *;
      r := Error(if code == 400 || code == 404 then code else 410);
    }

    /** `_fail`, a deleted session or an expired one: no request gets through any more. */
    method Close()
      requires Valid()
      modifies this`chunks, this`closed
      ensures Valid() && closed
    {
      chunks, closed := map[], true;
    }

    /** What another tab may do meanwhile: send a chunk, finalize, or give the upload up. */
    method OtherTab()
      requires Valid()
      modifies this
      ensures Valid() && Kept(old(stored), stored) && (old(closed) ==> closed)
      ensures Stays(old(document), document)
      ensures calm ==> stored == old(stored) && document == old(document) && closed == old(closed)
    {
      hide Fips180.Sha256Hex, Assemble, ExpectedSize, Covers;
      if calm {
        return;
      }
      var index: nat, body: seq<byte>, checksum: string := *, *, *;
      var sends, finalizes, closes: bool := *, *, *;
      if sends && Open() && index < chunkCount && index !in chunks
         && |body| == ExpectedSize(totalSize, chunkSize, chunkCount, index)
      {
        chunks, stored := chunks[index := body], stored[index := body];
      } else if finalizes {
        var _ := Finalize(checksum);
      } else if closes {
        Close();
      }
    }

    /** PUT of one chunk. A stored chunk is never replaced. The first chunk shows the
        kind of file, which may be one that is refused for good. */
    method Put(index: nat, body: seq<byte>, checksum: string) returns (r: Reply)
      requires Valid()
      modifies this`chunks, this`closed, this`stored
      ensures Valid() && Kept(old(stored), stored) && (old(closed) ==> closed)
      ensures stored.Keys <= old(stored).Keys + {index}
      ensures r.Ok? ==> index in chunks && Fips180.Sha256Hex(chunks[index]) == Fips180.Sha256Hex(body)
      ensures index in stored && index !in old(stored) ==> stored[index] == body
      ensures closed && !old(closed) ==> index == 0 && 0 !in old(chunks) && r == Error(400) && stored == old(stored)
      ensures calm && old(Open()) && index < chunkCount
              && |body| == ExpectedSize(totalSize, chunkSize, chunkCount, index)
              && checksum == Fips180.Sha256Hex(body) && (index in old(stored) ==> old(stored)[index] == body) ==>
                r.Ok? && Open() && stored == old(stored)[index := body]
      ensures calm && old(Open()) && index in old(chunks) && checksum == Fips180.Sha256Hex(body)
              && |body| == ExpectedSize(totalSize, chunkSize, chunkCount, index)
              && Fips180.Sha256Hex(old(chunks)[index]) != Fips180.Sha256Hex(body) ==>
                r == Error(409) && Open() && chunks == old(chunks)
    {
      hide Fips180.Sha256Hex, Assemble;
      var fault := Trouble();
      if fault.NeverArrived? {
        return Lost;
      }
      if fault.Refused? {
        return Error(fault.code);
      }
      if document != [] {
        return Error(409);
      }
      if closed {
        r := Answer();
        return;
      }
      if index >= chunkCount || |body| != ExpectedSize(totalSize, chunkSize, chunkCount, index)
         || checksum != Fips180.Sha256Hex(body)
      {
        return Error(400);
      }
      if index in chunks {
        if Fips180.Sha256Hex(chunks[index]) != Fips180.Sha256Hex(body) {
          return Error(409);
        }
      } else {
        var supported := Supported();
        if index == 0 && !supported {
          Close();
          return Error(400);
        }
        chunks, stored := chunks[index := body], stored[index := body];
      }
      return if fault.ReplyLost? then Lost else Ok;
    }

    /** POST finalize with the client's checksum of its whole file. A file that is not
        the one promised, or of a refused kind, closes the session. */
    method Finalize(checksum: string) returns (r: Reply)
      requires Valid()
      modifies this`document, this`chunks, this`closed
      ensures Valid() && (old(closed) ==> closed)
      ensures r.Ok? ==> |document| == 1 && Fips180.Sha256Hex(document[0]) == checksum
      ensures Stays(old(document), document)
      ensures document != old(document) ==>
                && !old(closed) && (forall i: nat :: i < chunkCount ==> i in old(chunks))
                && document == [Assemble(old(chunks), chunkCount)]
                && |document[0]| == totalSize && Fips180.Sha256Hex(document[0]) == checksum
      ensures closed && !old(closed) ==> document == [] && forall i: nat :: i < chunkCount ==> i in old(chunks)
      ensures calm && old(Open() && Ready(checksum)) ==> r.Ok?
      ensures calm && old(Open() && Complete() && !Ready(checksum)) ==> r == Error(400) && closed && document == []
      ensures calm && old(Open() && !Complete()) ==> r == Error(409) && Open() && chunks == old(chunks)
      ensures calm && !old(closed) && old(document) != [] ==>
                r == if Fips180.Sha256Hex(document[0]) == checksum then Ok else FileMismatch
    {
      hide Fips180.Sha256Hex, Covers, Assemble, ExpectedSize;
      var fault := Trouble();
      if fault.NeverArrived? {
        return Lost;
      }
      if closed {
        r := Answer();
        return;
      }
      if document != [] {
        return if Fips180.Sha256Hex(document[0]) != checksum then FileMismatch
               else if fault.ReplyLost? then Lost else Ok;
      }
      if fault.Refused? {
        return if fault.code == 409 then DuplicateFile else Error(fault.code);
      }
      if exists i: nat :: i < chunkCount && i !in chunks {
        return Error(409);
      }
      var assembled := Assemble(chunks, chunkCount);
      var supported := Supported();
      if |assembled| != totalSize || Fips180.Sha256Hex(assembled) != checksum || !supported {
        Close();
        return Error(400);
      }
      document, chunks := [assembled], map[];
      return if fault.ReplyLost? then Lost else Ok;
    }
  }

  /** What the session shown to the client says about the server and the file.
      `receivedChunks` may come in any order. */
  ghost predicate Describes(s: Session, server: Server, file: seq<byte>)
    reads server
  {
    && s.totalSize == server.totalSize == |file|
    && s.chunkSize == server.chunkSize && s.chunkCount == server.chunkCount
    && (s.completed ==> server.document != [])
    && (!s.completed ==>
          && |s.receivedChecksums| == |s.receivedChunks|
          && (forall p, q :: 0 <= p < q < |s.receivedChunks| ==> s.receivedChunks[p] != s.receivedChunks[q])
          && (forall p :: 0 <= p < |s.receivedChunks| ==>
                && s.receivedChunks[p] in server.stored
                && s.receivedChecksums[p] == Fips180.Sha256Hex(server.stored[s.receivedChunks[p]]))
          && s.receivedBytes == HeldBytes(file, s.chunkSize, Received(s), s.chunkCount))
  }

  function Received(s: Session): set<nat> {
    set i | i in s.receivedChunks
  }

  /** The local file's chunk has the checksum the server holds for it. */
  ghost predicate Matches(file: seq<byte>, s: Session, p: int)
    requires 0 <= p < |s.receivedChunks| == |s.receivedChecksums|
  {
    Fips180.Sha256Hex(Chunk(file, s.chunkSize, s.receivedChunks[p])) == s.receivedChecksums[p]
  }

  const CHUNK_ATTEMPTS := 3

  datatype Outcome = Paused | Accepted | DifferentFile | Failed(reply: Reply)

  /** Every chunk taken is the local file's. */
  ghost predicate OwnChunks(file: seq<byte>, chunkSize: nat, chunks: map<nat, seq<byte>>) {
    forall i <- chunks :: chunks[i] == Chunk(file, chunkSize, i)
  }

  /** Nothing goes wrong, and the session is open and has none but this file's chunks. */
  ghost predicate Undisturbed(server: Server, file: seq<byte>)
    reads server
  {
    && server.calm && server.Open() && server.totalSize == |file|
    && OwnChunks(file, server.chunkSize, server.stored)
  }

  /** Sends one chunk, again after a transient failure, at most three times. */
  method SendChunk(server: Server, signal: AbortSignal, index: nat, bytes: seq<byte>)
    returns (r: Outcome, attempts: nat)
    requires server.Valid() && signal.Valid() && |bytes| < Sha256.MAX_BYTES
    modifies server, signal
    ensures server.Valid() && signal.Valid()
    ensures Kept(old(server.stored), server.stored) && Stays(old(server.document), server.document)
    ensures r.Paused? || r.Accepted? || (r.Failed? && !r.reply.Ok?)
    ensures r.Paused? ==> signal.aborted
    ensures old(signal.aborted) ==> r.Paused? && server.stored == old(server.stored)
    ensures attempts <= CHUNK_ATTEMPTS
    ensures r.Accepted? ==>
              index in server.stored && Fips180.Sha256Hex(server.stored[index]) == Fips180.Sha256Hex(bytes)
    ensures r.Failed? && (r.reply.Lost? || (r.reply.Error? && r.reply.code >= 500)) ==> attempts == 3
    ensures old(server.calm && !signal.armed && server.Open()) && index < server.chunkCount
            && |bytes| == ExpectedSize(server.totalSize, server.chunkSize, server.chunkCount, index)
            && (index in old(server.stored) ==> old(server.stored)[index] == bytes) ==>
              r.Accepted? && server.Open() && server.stored == old(server.stored)[index := bytes]
  {
    hide Fips180.Sha256Hex, Covers, ExpectedSize;
    var checksum := Sha256.Sha256Hex(bytes);
    attempts := 0;
    while true
      invariant server.Valid() && signal.Valid() && attempts < CHUNK_ATTEMPTS
      invariant Kept(old(server.stored), server.stored) && Stays(old(server.document), server.document)
      invariant old(signal.aborted) ==> signal.aborted && attempts == 0
      invariant attempts == 0 ==>
        server.stored == old(server.stored) && server.document == old(server.document)
        && server.closed == old(server.closed)
      invariant attempts > 0 ==>
        !(old(server.calm && !signal.armed && server.Open()) && index < server.chunkCount
          && |bytes| == ExpectedSize(server.totalSize, server.chunkSize, server.chunkCount, index)
          && (index in old(server.stored) ==> old(server.stored)[index] == bytes))
      decreases CHUNK_ATTEMPTS - attempts
    {
      var aborted := signal.Poll();
      if aborted {
        return Paused, attempts;
      }
      server.OtherTab();
      var reply := server.Put(index, bytes, checksum);
      attempts := attempts + 1;
      if reply.Ok? {
        return Accepted, attempts;
      }
      aborted := signal.Poll();
      if aborted {
        return Paused, attempts;
      }
      if !IsTransient(reply) || attempts >= CHUNK_ATTEMPTS {
        return Failed(reply), attempts;
      }
    }
  }

  /** The indexes below `n` that are not held, ascending. */
  function Missing(held: set<nat>, n: nat): seq<nat> {
    if n == 0 then [] else Missing(held, n - 1) + if n - 1 in held then [] else [n - 1]
  }

  lemma {:induction false} NothingMissing(held: set<nat>, n: nat)
    requires forall i: nat :: i < n ==> i in held
    ensures Missing(held, n) == []
  {
    if n > 0 {
      NothingMissing(held, n - 1);
    }
  }

  /** Before anything is sent: every chunk the server confirmed is compared with
      the local file, and the whole file's hash takes the ones that come in order. */
  method ProveSameFile(file: seq<byte>, session: Session, server: Server, signal: AbortSignal, whole: Sha256.Sha256)
    returns (r: Outcome, hashedUpTo: nat)
    requires server.Valid() && signal.Valid() && Describes(session, server, file) && !session.completed
    requires whole.Valid() && !whole.done && whole.fed == [] && |file| < Sha256.MAX_BYTES
    modifies signal, whole, whole.state, whole.block, whole.w
    ensures signal.Valid() && (r == Paused ==> signal.aborted) && (old(signal.aborted) ==> signal.aborted)
    ensures old(signal.aborted) ==> r == Paused || session.receivedChunks == []
    ensures whole.Valid() && !whole.done && whole.state == old(whole.state)
    ensures whole.block == old(whole.block) && whole.w == old(whole.w)
    ensures r == Paused || r == Accepted || r == DifferentFile
    ensures hashedUpTo <= session.chunkCount && whole.fed == file[..Start(|file|, session.chunkSize, hashedUpTo)]
    ensures forall i: nat :: i < hashedUpTo ==> i in Received(session)
    ensures r == Accepted ==> forall p :: 0 <= p < |session.receivedChunks| ==> Matches(file, session, p)
    ensures r == DifferentFile ==> exists p :: 0 <= p < |session.receivedChunks| && !Matches(file, session, p)
  {
    hide Fips180.Sha256Hex, Fips180.Sha256, Sha256.Holds, Chunk, Covers, ExpectedSize, Start;
    hashedUpTo := 0;
    assert file[..Start(|file|, session.chunkSize, 0)] == [] by { FirstStart(file, session.chunkSize); }
    for position := 0 to |session.receivedChunks|
      invariant signal.Valid() && (old(signal.aborted) ==> signal.aborted && position == 0)
      invariant whole.Valid() && !whole.done && whole.state == old(whole.state)
      invariant whole.block == old(whole.block) && whole.w == old(whole.w)
      invariant hashedUpTo <= session.chunkCount && whole.fed == file[..Start(|file|, session.chunkSize, hashedUpTo)]
      invariant forall i: nat :: i < hashedUpTo ==> i in Received(session)
      invariant forall p :: 0 <= p < position ==> Matches(file, session, p)
    {
      var aborted := signal.Poll();
      if aborted {
        return Paused, hashedUpTo;
      }
      var index := session.receivedChunks[position];
      ChunkSmaller(file, session.chunkSize, index);
      var bytes := Chunk(file, session.chunkSize, index);
      var checksum := Sha256.Sha256Hex(bytes);
      if checksum != session.receivedChecksums[position] {
        assert !Matches(file, session, position);
        return DifferentFile, hashedUpTo;
      }
      if index == hashedUpTo {
        NextChunk(file, session.chunkSize, index);
        var ok := whole.Update(bytes);
        hashedUpTo := hashedUpTo + 1;
      }
    }
    r := Accepted;
  }

  /** The stored chunk `i` has the digest of the local file's. */
  ghost predicate SameDigest(file: seq<byte>, chunks: map<nat, seq<byte>>, chunkSize: nat, i: nat) {
    i in chunks && Fips180.Sha256Hex(chunks[i]) == Fips180.Sha256Hex(Chunk(file, chunkSize, i))
  }

  ghost predicate SameDigests(file: seq<byte>, chunks: map<nat, seq<byte>>, chunkSize: nat, held: set<nat>) {
    forall i <- held :: SameDigest(file, chunks, chunkSize, i)
  }

  lemma DigestsKept(file: seq<byte>, before: map<nat, seq<byte>>, after: map<nat, seq<byte>>, chunkSize: nat,
                    held: set<nat>)
    requires Kept(before, after) && SameDigests(file, before, chunkSize, held)
    ensures SameDigests(file, after, chunkSize, held)
  {
    hide Fips180.Sha256Hex, Chunk;
    forall i | i in held
      ensures SameDigest(file, after, chunkSize, i)
    {
      assert SameDigest(file, before, chunkSize, i);
    }
  }

  lemma OneMoreDigest(file: seq<byte>, chunks: map<nat, seq<byte>>, chunkSize: nat, held: set<nat>, index: nat)
    requires SameDigests(file, chunks, chunkSize, held) && SameDigest(file, chunks, chunkSize, index)
    ensures SameDigests(file, chunks, chunkSize, held + {index})
  {
    hide SameDigest;
  }

  lemma FewerDigests(file: seq<byte>, chunks: map<nat, seq<byte>>, chunkSize: nat, held: set<nat>, fewer: set<nat>)
    requires SameDigests(file, chunks, chunkSize, held) && fewer <= held
    ensures SameDigests(file, chunks, chunkSize, fewer)
  {
    hide SameDigest;
  }

  lemma KeptTransitive(a: map<nat, seq<byte>>, b: map<nat, seq<byte>>, c: map<nat, seq<byte>>)
    requires Kept(a, b) && Kept(b, c)
    ensures Kept(a, c)
  {
  }

  lemma KeptSame(a: map<nat, seq<byte>>)
    ensures Kept(a, a)
  {
  }

  /** The chunks the session counts as confirmed from the start. */
  function Confirmed(session: Session): set<nat> {
    if session.completed then Below(session.chunkCount) else Received(session)
  }

  /** One turn of the upload loop: the chunk goes into the whole file's hash, and is
      sent unless it is confirmed. */
  method TakeChunk(file: seq<byte>, server: Server, signal: AbortSignal, whole: Sha256.Sha256, chunkSize: nat,
                   ghost count: nat, index: nat, isConfirmed: bool)
    returns (r: Outcome, size: nat)
    requires server.Valid() && signal.Valid()
    requires Covers(|file|, chunkSize, count) && index < count && |file| < Sha256.MAX_BYTES
    requires whole.Valid() && !whole.done && whole.fed == file[..Start(|file|, chunkSize, index)]
    modifies server, signal, whole, whole.state, whole.block, whole.w
    ensures whole.Valid() && !whole.done && whole.fed == file[..Start(|file|, chunkSize, index + 1)]
    ensures whole.state == old(whole.state) && whole.block == old(whole.block) && whole.w == old(whole.w)
    ensures server.Valid() && signal.Valid() && (r == Paused ==> signal.aborted)
    ensures Kept(old(server.stored), server.stored) && Stays(old(server.document), server.document)
    ensures size == |Chunk(file, chunkSize, index)|
    ensures r != DifferentFile && (isConfirmed ==> r == Accepted) && (r.Failed? ==> !r.reply.Ok?)
    ensures r == Accepted && !isConfirmed ==> SameDigest(file, server.stored, chunkSize, index)
    ensures !signal.armed && old(Undisturbed(server, file))
            && server.chunkSize == chunkSize && server.chunkCount == count ==>
              r == Accepted && Undisturbed(server, file)
  {
    hide Fips180.Sha256Hex, Fips180.Sha256, Sha256.Holds, Chunk, Covers, ExpectedSize, Start, Kept;
    KeptSame(server.stored);
    ChunkSmaller(file, chunkSize, index);
    SizesAgree(file, chunkSize, count, index);
    var bytes := Chunk(file, chunkSize, index);
    size := |bytes|;
    NextChunk(file, chunkSize, index);
    var ok := whole.Update(bytes);
    if isConfirmed {
      return Accepted, size;
    }
    var attempts: nat;
    r, attempts := SendChunk(server, signal, index, bytes);
  }

  /** The upload loop: every chunk goes into the whole file's hash, in order, and is
      sent unless it was confirmed. `Accepted` means it came to the end. */
  method SendRest(file: seq<byte>, session: Session, server: Server, signal: AbortSignal, whole: Sha256.Sha256,
                  hashedUpTo: nat)
    returns (r: Outcome, sent: seq<nat>, confirmedBytes: nat)
    requires server.Valid() && signal.Valid() && Describes(session, server, file) && |file| < Sha256.MAX_BYTES
    requires whole.Valid() && !whole.done && hashedUpTo <= session.chunkCount
    requires whole.fed == file[..Start(|file|, session.chunkSize, hashedUpTo)]
    requires forall i: nat :: i < hashedUpTo ==> i in Confirmed(session)
    requires !session.completed ==> SameDigests(file, server.stored, session.chunkSize, Received(session))
    modifies server, signal, whole, whole.state, whole.block, whole.w
    ensures server.Valid() && signal.Valid() && whole.Valid() && !whole.done
    ensures r == Paused ==> signal.aborted
    ensures old(signal.aborted) ==>
              && signal.aborted && server.stored == old(server.stored)
              && (r == Paused || (r == Accepted && hashedUpTo == session.chunkCount))
    ensures r.Failed? ==> !r.reply.Ok?
    ensures !signal.armed && old(Undisturbed(server, file)) ==> r == Accepted && Undisturbed(server, file)
    ensures Kept(old(server.stored), server.stored) && Stays(old(server.document), server.document)
    ensures whole.state == old(whole.state) && whole.block == old(whole.block) && whole.w == old(whole.w)
    ensures r != DifferentFile
    ensures r == Accepted ==>
              && whole.fed == file && confirmedBytes == |file|
              && sent == Missing(Confirmed(session), session.chunkCount)
              && (!session.completed ==> SameDigests(file, server.stored, session.chunkSize, Below(session.chunkCount)))
  {
    hide Describes, Server.Valid, Sha256.Sha256.Valid, Sha256.Sha256.Buffered, Sha256.Sha256.Shape;
    hide Fips180.Sha256Hex, Fips180.Sha256, Sha256.Holds, Chunk, Covers, ExpectedSize, Start, Missing, HeldBytes,
         Confirmed, SameDigest, SameDigests, Kept, Undisturbed;
    SessionFits(session, server, file);
    var count, chunkSize := session.chunkCount, session.chunkSize;
    var confirmed: set<nat> := Confirmed(session);
    ghost var held: set<nat> := confirmed;
    confirmedBytes := if session.completed then session.totalSize else session.receivedBytes;
    r, sent := Paused, [];
    ConfirmedBytes(file, session, server);
    KeptSame(server.stored);
    NothingMissing(held, hashedUpTo);
    NothingBelow(held, hashedUpTo);
    LastStart(|file|, chunkSize, count);
    var index := hashedUpTo;
    while index < count
      invariant hashedUpTo <= index <= count && server.Valid() && signal.Valid()
      invariant whole.Valid() && !whole.done
      invariant whole.state == old(whole.state) && whole.block == old(whole.block) && whole.w == old(whole.w)
      invariant whole.fed == file[..Start(|file|, chunkSize, index)]
      invariant Kept(old(server.stored), server.stored) && Stays(old(server.document), server.document)
      invariant confirmedBytes == HeldBytes(file, chunkSize, confirmed, count)
      invariant confirmed == held + Below(index)
      invariant sent == Missing(held, index)
      invariant old(signal.aborted) ==> signal.aborted && server.stored == old(server.stored) && index == hashedUpTo
      invariant !signal.armed && old(Undisturbed(server, file)) ==> Undisturbed(server, file)
      invariant !session.completed ==> SameDigests(file, server.stored, chunkSize, confirmed)
    {
      var aborted := signal.Poll();
      if aborted {
        r := Paused;
        return;
      }
      ghost var before := server.stored;
      var isConfirmed := index in confirmed;
      var taking, size := TakeChunk(file, server, signal, whole, chunkSize, count, index, isConfirmed);
      KeptTransitive(old(server.stored), before, server.stored);
      MissingStep(held, index);
      BelowStep(held, index);
      if !taking.Accepted? {
        r := taking;
        return;
      }
      if !session.completed {
        DigestsKept(file, before, server.stored, chunkSize, confirmed);
      }
      if isConfirmed {
        index := index + 1;
        continue;
      }
      if !session.completed {
        OneMoreDigest(file, server.stored, chunkSize, confirmed, index);
      }
      HeldOneMore(file, chunkSize, confirmed, count, index);
      sent := sent + [index];
      confirmed := confirmed + {index};
      confirmedBytes := confirmedBytes + size;
      index := index + 1;
    }
    AllHeld(file, chunkSize, confirmed, count);
    assert file[..|file|] == file;
    if !session.completed {
      FewerDigests(file, server.stored, chunkSize, confirmed, Below(count));
    }
    r := Accepted;
  }

  lemma SessionFits(session: Session, server: Server, file: seq<byte>)
    requires server.Valid() && Describes(session, server, file)
    ensures Covers(|file|, session.chunkSize, session.chunkCount)
    ensures server.chunkSize == session.chunkSize && server.chunkCount == session.chunkCount
    ensures !session.completed ==> Confirmed(session) == Received(session)
  {
  }

  /** The bytes counted as confirmed at the start are those of the confirmed chunks. */
  lemma {:induction false} ConfirmedBytes(file: seq<byte>, session: Session, server: Server)
    requires server.Valid() && Describes(session, server, file)
    ensures HeldBytes(file, session.chunkSize, Confirmed(session), session.chunkCount)
              == if session.completed then session.totalSize else session.receivedBytes
  {
    hide Chunk, Covers, Start;
    if session.completed {
      AllHeld(file, session.chunkSize, Below(session.chunkCount), session.chunkCount);
      LastStart(|file|, session.chunkSize, session.chunkCount);
    }
  }

  /** One upload of one session. `reachedFinalize` says whether finalize was
      called, `checksum` with what; `sent` lists the chunks the server confirmed
      during this run. */
  method UploadSession(file: seq<byte>, session: Session, server: Server, signal: AbortSignal)
    returns (r: Outcome, reachedFinalize: bool, checksum: string, sent: seq<nat>, confirmedBytes: nat)
    requires server.Valid() && signal.Valid() && Describes(session, server, file) && |file| < Sha256.MAX_BYTES
    modifies server, signal
    ensures server.Valid() && signal.Valid()
    ensures r == Paused ==> signal.aborted
    ensures old(signal.aborted) ==> r == Paused && !reachedFinalize && server.stored == old(server.stored)
    ensures r.Failed? ==> !r.reply.Ok?
    ensures reachedFinalize ==> r == Accepted || r.Failed?
    ensures !signal.armed && old(Undisturbed(server, file)) ==> r == Accepted && server.document == [file]
    ensures Kept(old(server.stored), server.stored) && Stays(old(server.document), server.document)
    ensures r == Accepted ==> reachedFinalize
    ensures reachedFinalize ==>
              && checksum == Fips180.Sha256Hex(file)
              && sent == Missing(Confirmed(session), session.chunkCount)
              && confirmedBytes == |file|
              && (!session.completed ==> SameDigests(file, server.stored, session.chunkSize, Below(session.chunkCount)))
    ensures r == Accepted ==>
              |server.document| == 1 && Fips180.Sha256Hex(server.document[0]) == Fips180.Sha256Hex(file)
    ensures r == DifferentFile ==>
              && !session.completed && sent == []
              && exists p :: 0 <= p < |session.receivedChunks| && !Matches(file, session, p)
  {
    hide Fips180.Sha256Hex, Fips180.Sha256, Sha256.Holds, Chunk, Covers, ExpectedSize, Start, Missing, HeldBytes;
    r, reachedFinalize, checksum, sent, confirmedBytes := Paused, false, "", [], 0;
    var whole := new Sha256.Sha256();
    var hashedUpTo := 0;
    FirstStart(file, session.chunkSize);
    if !session.completed {
      if Undisturbed(server, file) {
        OwnChunksMatch(file, session, server);
      }
      r, hashedUpTo := ProveSameFile(file, session, server, signal, whole);
      if r != Accepted {
        return;
      }
      VerifiedDigests(file, session, server);
    }
    r, sent, confirmedBytes := SendRest(file, session, server, signal, whole, hashedUpTo);
    if r != Accepted {
      return;
    }
    var aborted := signal.Poll();
    if aborted {
      r := Paused;
      return;
    }
    checksum := whole.Hex();
    reachedFinalize := true;
    ghost var before := server.stored;
    if !signal.armed && old(Undisturbed(server, file)) {
      AllThere(file, session.chunkSize, session.chunkCount, server.stored);
      OwnFile(file, session.chunkSize, session.chunkCount, server.stored);
    }
    server.OtherTab();
    var reply := server.Finalize(checksum);
    if !session.completed {
      DigestsKept(file, before, server.stored, session.chunkSize, Below(session.chunkCount));
    }
    r := if reply.Ok? then Accepted else Failed(reply);
  }

  /** Chunks of this file pass the comparison with it. */
  lemma OwnChunksMatch(file: seq<byte>, session: Session, server: Server)
    requires server.Valid() && Describes(session, server, file) && !session.completed
    requires OwnChunks(file, server.chunkSize, server.stored)
    ensures forall p :: 0 <= p < |session.receivedChunks| ==> Matches(file, session, p)
  {
    hide Fips180.Sha256Hex, Chunk, Covers, ExpectedSize;
  }

  lemma AllThere(file: seq<byte>, chunkSize: nat, count: nat, chunks: map<nat, seq<byte>>)
    requires SameDigests(file, chunks, chunkSize, Below(count))
    ensures forall i: nat :: i < count ==> i in chunks
  {
    hide Fips180.Sha256Hex, Chunk;
    forall i: nat | i < count
      ensures i in chunks
    {
      assert SameDigest(file, chunks, chunkSize, i);
    }
  }

  /** All chunks of this file, put together, are the file. */
  lemma OwnFile(file: seq<byte>, chunkSize: nat, count: nat, chunks: map<nat, seq<byte>>)
    requires Covers(|file|, chunkSize, count) && OwnChunks(file, chunkSize, chunks)
    requires forall i: nat :: i < count ==> i in chunks
    ensures Assemble(chunks, count) == file
  {
    hide Fips180.Sha256Hex, Chunk, Covers, Start;
    AssembledFile(file, chunkSize, chunks, count);
    LastStart(|file|, chunkSize, count);
    WholeSlice(file);
  }

  /** GET of the session: its chunks in some order, with their checksums. */
  method Report(server: Server, file: seq<byte>) returns (s: Session)
    requires server.Valid() && !server.closed && server.totalSize == |file|
    ensures Describes(s, server, file)
    ensures s.completed == (server.document != []) && (!s.completed ==> Received(s) == server.chunks.Keys)
  {
    hide Fips180.Sha256Hex, Chunk, ExpectedSize, Covers;
    if server.document != [] {
      var all := seq(server.chunkCount, i => i);
      return Session(server.totalSize, server.chunkSize, server.chunkCount, all, [], server.totalSize, true);
    }
    var rest := server.chunks.Keys;
    var indexes: seq<nat>, checksums: seq<string>, bytes := [], [], 0;
    ghost var taken: set<nat> := {};
    NoneHeld(file, server.chunkSize, server.chunkCount);
    while rest != {}
      invariant taken == set i | i in indexes
      invariant rest !! taken && rest + taken == server.chunks.Keys && |checksums| == |indexes|
      invariant forall p, q :: 0 <= p < q < |indexes| ==> indexes[p] != indexes[q]
      invariant forall p :: 0 <= p < |indexes| ==>
        indexes[p] in server.chunks && checksums[p] == Fips180.Sha256Hex(server.chunks[indexes[p]])
      invariant bytes == HeldBytes(file, server.chunkSize, taken, server.chunkCount)
    {
      var i: nat :| i in rest;
      SizesAgree(file, server.chunkSize, server.chunkCount, i);
      HeldOneMore(file, server.chunkSize, taken, server.chunkCount, i);
      assert i !in taken;
      indexes, checksums := indexes + [i], checksums + [Fips180.Sha256Hex(server.chunks[i])];
      bytes, rest, taken := bytes + |server.chunks[i]|, rest - {i}, taken + {i};
    }
    assert taken == server.chunks.Keys;
    s := Session(server.totalSize, server.chunkSize, server.chunkCount, indexes, checksums, bytes, false);
    assert Received(s) == taken;
  }

  /** Uploads a file, going on with a remembered session where there is one. A
      session that turns out to hold another file is dropped and the file is sent
      from scratch, once. */
  method UploadResumable(file: seq<byte>, stored: Server?, newChunkSize: nat, startOver: bool, signal: AbortSignal,
                         calm: bool)
    returns (r: Outcome, server: Server)
    requires 0 < |file| < Sha256.MAX_BYTES && 0 < newChunkSize && signal.Valid()
    requires stored != null ==> stored.Valid()
    modifies stored, signal
    ensures server.Valid() && signal.Valid() && r != DifferentFile
    ensures r == Paused ==> signal.aborted
    ensures old(signal.aborted) ==> r == Paused
    ensures r.Failed? ==> !r.reply.Ok?
    ensures r == Accepted ==>
              && |server.document| == 1
              && (server.document[0] == file || Collision(server.document[0], file))
    ensures startOver || stored == null ==> server.totalSize == |file| && server.chunkSize == newChunkSize
    ensures (startOver || stored == null || old(Undisturbed(stored, file))) && calm && !signal.armed ==>
              r == Accepted && server.document == [file]
    decreases if startOver then 0 else 1
  {
    hide Fips180.Sha256Hex, Covers, ExpectedSize, Describes, Chunk;
    var usable: bool := *;
    if stored != null && !startOver && usable && !stored.closed && stored.totalSize == |file| {
      server := stored;
    } else {
      server := new Server(|file|, newChunkSize, calm);
    }
    var session := Report(server, file);
    var reached, checksum, sent, confirmedBytes;
    r, reached, checksum, sent, confirmedBytes := UploadSession(file, session, server, signal);
    if r == DifferentFile || r == Failed(FileMismatch) {
      var arrived: bool := *;
      if !session.completed && arrived {
        server.Close();
      }
      if startOver {
        r := Failed(FileMismatch);
      } else {
        r, server := UploadResumable(file, null, newChunkSize, true, signal, calm);
      }
    }
  }

  /** Even without the whole-file checksum: if every stored chunk has the digest of
      the local one, the assembled document is the local file, or one of the chunks
      is a collision. */
  lemma {:induction false} ChunkDigestsSuffice(file: seq<byte>, chunkSize: nat, count: nat, chunks: map<nat, seq<byte>>)
    requires Covers(|file|, chunkSize, count)
    requires forall i: nat :: i < count ==> i in chunks && SameDigest(file, chunks, chunkSize, i)
    ensures || Assemble(chunks, count) == file
            || exists i: nat :: i < count && Collision(chunks[i], Chunk(file, chunkSize, i))
  {
    hide Fips180.Sha256Hex, Chunk, Covers, Start, Assemble;
    if i: nat :| i < count && chunks[i] != Chunk(file, chunkSize, i) {
      assert SameDigest(file, chunks, chunkSize, i);
      assert Collision(chunks[i], Chunk(file, chunkSize, i));
    } else {
      AssembledFile(file, chunkSize, chunks, count);
      LastStart(|file|, chunkSize, count);
      WholeSlice(file);
    }
  }

  lemma WholeSlice(s: seq<byte>)
    ensures s[..|s|] == s
  {
  }

  lemma {:induction false} NoneHeld(file: seq<byte>, chunkSize: nat, n: nat)
    ensures HeldBytes(file, chunkSize, {}, n) == 0
  {
    if n > 0 {
      NoneHeld(file, chunkSize, n - 1);
    }
  }

  lemma BelowStep(held: set<nat>, n: nat)
    ensures held + Below(n + 1) == held + Below(n) + {n}
    ensures n in held + Below(n) <==> n in held
  {
  }

  lemma NothingBelow(held: set<nat>, n: nat)
    requires forall i: nat :: i < n ==> i in held
    ensures held == held + Below(n)
  {
  }

  function Below(n: nat): (s: set<nat>)
    ensures forall i: nat :: i in s <==> i < n
  {
    if n == 0 then {} else Below(n - 1) + {n - 1}
  }

  lemma MissingStep(held: set<nat>, n: nat)
    ensures Missing(held, n + 1) == Missing(held, n) + if n in held then [] else [n]
  {
  }

  lemma LastStart(size: nat, chunkSize: nat, count: nat)
    requires Covers(size, chunkSize, count)
    ensures Start(size, chunkSize, count) == size
  {
  }

  /** The chunks whose checksums were compared hold what the local file holds. */
  lemma {:induction false} VerifiedDigests(file: seq<byte>, session: Session, server: Server)
    requires server.Valid() && Describes(session, server, file) && !session.completed
    requires forall p :: 0 <= p < |session.receivedChunks| ==> Matches(file, session, p)
    ensures SameDigests(file, server.stored, session.chunkSize, Received(session))
  {
    hide Fips180.Sha256Hex, Chunk;
    forall i | i in Received(session)
      ensures SameDigest(file, server.stored, session.chunkSize, i)
    {
      var p :| 0 <= p < |session.receivedChunks| && session.receivedChunks[p] == i;
      assert Matches(file, session, p);
    }
  }

  lemma FirstStart(file: seq<byte>, chunkSize: nat)
    ensures file[..Start(|file|, chunkSize, 0)] == []
  {
  }

  lemma ChunkSmaller(file: seq<byte>, chunkSize: nat, index: nat)
    ensures |Chunk(file, chunkSize, index)| <= |file|
  {
  }

  lemma CeilingCovers(size: nat, chunkSize: nat)
    requires 0 < size && 0 < chunkSize
    ensures var count := (size + chunkSize - 1) / chunkSize; count >= 0 && Covers(size, chunkSize, count)
  {
    var count := (size + chunkSize - 1) / chunkSize;
    var rest := (size + chunkSize - 1) % chunkSize;
    assert size + chunkSize - 1 == count * chunkSize + rest;
    assert chunkSize * (count - 1) == count * chunkSize - chunkSize;
    assert count <= 0 ==> count * chunkSize <= 0;
  }
}

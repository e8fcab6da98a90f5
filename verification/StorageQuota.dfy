/** Storage quota accounting: what importing, uploading, trashing, restoring and
    wiping documents do to each owner's used bytes
    (backend/app/services/document_deletion.py and cloud_storage.py, and the locked
    quota checks of backend/app/api/v1/endpoints/documents.py and uploads.py).

    Each step is one transaction under the row locks it takes, and carries the clock
    reading it acts on; nothing is assumed of how readings compare. */
module StorageQuota {
  import opened Options

  type UserId = nat
  type DocumentId = nat
  type Time = real

  const QUOTA: nat := 1024 * 1024 * 1024

  /** TRASH_RETENTION_DAYS, in seconds. */
  const RETENTION: Time := 7.0 * 24.0 * 60.0 * 60.0

  datatype Document = Document(owner: UserId, size: nat, remoteId: Option<string>, deletedAt: Option<Time>)

  type Documents = map<DocumentId, Document>

  datatype State = State(documents: Documents, used: map<UserId, nat>)

  const EMPTY := State(map[], map[])

  /** A remote file, and the id its document would get. */
  datatype File = File(id: DocumentId, remoteId: string, size: nat, allowed: bool)

  /** An import goes on from the total its session has `seen`, which may be an older one:
      the row it locks is not read again. */
  datatype Step =
    | AddUser(user: UserId)
    | Import(user: UserId, files: seq<File>, seen: nat)
    | Upload(user: UserId, document: DocumentId, size: nat)
    | Trash(document: DocumentId, now: Time)
    | Restore(document: DocumentId, user: UserId, now: Time)
    | Purge(document: DocumentId, now: Time)
    | DeleteTrashed(document: DocumentId, user: UserId)

  /** is_trash_expired. */
  predicate Expired(document: Document, now: Time) {
    document.deletedAt.Some? && document.deletedAt.value <= now - RETENTION
  }

  predicate InTrash(documents: Documents, d: DocumentId) {
    d in documents && documents[d].deletedAt.Some?
  }

  /** A live document of the user that came from this remote file. */
  predicate Imported(documents: Documents, user: UserId, remoteId: string) {
    exists d :: d in documents && IsImportOf(documents[d], user, remoteId)
  }

  predicate IsImportOf(document: Document, user: UserId, remoteId: string) {
    document.owner == user && document.remoteId == Some(remoteId) && document.deletedAt.None?
  }

  /** The files of one sync, in order: known and unsupported ones are passed over, and
      the first that does not fit ends the import. */
  function ImportFiles(documents: Documents, used: nat, user: UserId, files: seq<File>): (Documents, nat)
    decreases |files|
  {
    if files == [] then (documents, used)
    else
      var file, rest := files[0], files[1..];
      if Imported(documents, user, file.remoteId) || !file.allowed then ImportFiles(documents, used, user, rest)
      else if used + file.size > QUOTA then (documents, used)
      else ImportFiles(documents[file.id := Document(user, file.size, Some(file.remoteId), None)],
                       used + file.size, user, rest)
  }

  /** Document ids are new: none is in use, and none is given twice. */
  predicate NewIds(documents: Documents, files: seq<File>) {
    && (forall i :: 0 <= i < |files| ==> files[i].id !in documents)
    && (forall i, j :: 0 <= i < j < |files| ==> files[i].id != files[j].id)
  }

  /** `_refund_quota`. */
  function Refund(used: nat, size: nat): nat {
    if used - size > 0 then used - size else 0
  }

  /** `_wipe_locked_document`. */
  function Wipe(s: State, d: DocumentId): (t: State)
    requires d in s.documents
    ensures d !in t.documents
  {
    var owner := s.documents[d].owner;
    State(s.documents - {d},
          if owner in s.used then s.used[owner := Refund(s.used[owner], s.documents[d].size)] else s.used)
  }

  /** The document moves to the trash and forgets the remote file it came from. */
  function Trashed(document: Document, now: Time): Document {
    document.(deletedAt := Some(now), remoteId := None)
  }

  function RestoreOne(s: State, d: DocumentId, user: UserId, now: Time): State {
    if d !in s.documents || s.documents[d].owner != user || s.documents[d].deletedAt.None? then s
    else if Expired(s.documents[d], now) then Wipe(s, d)
    else s.(documents := s.documents[d := s.documents[d].(deletedAt := None)])
  }

  function Next(s: State, step: Step): State {
    match step
    case AddUser(user) => if user in s.used then s else s.(used := s.used[user := 0])
    case Import(user, files, seen) =>
      if user !in s.used || !NewIds(s.documents, files) then s
      else
        var (documents, used) := ImportFiles(s.documents, seen, user, files);
        // a total that is the one seen is not written
        State(documents, if used == seen then s.used else s.used[user := used])
    case Upload(user, d, size) =>
      if user !in s.used || d in s.documents || s.used[user] + size > QUOTA then s
      else State(s.documents[d := Document(user, size, None, None)], s.used[user := s.used[user] + size])
    case Trash(d, now) =>
      if d !in s.documents || s.documents[d].deletedAt.Some? then s
      else s.(documents := s.documents[d := Trashed(s.documents[d], now)])
    case Restore(d, user, now) => RestoreOne(s, d, user, now)
    case Purge(d, now) => if d in s.documents && Expired(s.documents[d], now) then Wipe(s, d) else s
    case DeleteTrashed(d, user) =>
      if InTrash(s.documents, d) && s.documents[d].owner == user then Wipe(s, d) else s
  }

  function Run(s: State, steps: seq<Step>): State {
    if steps == [] then s else Next(Run(s, steps[..|steps| - 1]), steps[|steps| - 1])
  }

  // ----- sums of document sizes

  function SizeFor(document: Document, user: UserId): nat {
    if document.owner == user then document.size else 0
  }

  ghost function AnyOf(documents: Documents): (d: DocumentId)
    requires documents != map[]
    ensures d in documents
  {
    var e :| e in documents;
    e
  }

  /** The bytes of the user's documents, trashed ones included. */
  ghost function Sum(documents: Documents, user: UserId): nat
    decreases |documents|
  {
    if documents == map[] then 0
    else
      var d := AnyOf(documents);
      SizeFor(documents[d], user) + Sum(documents - {d}, user)
  }

  lemma {:induction false} SumWithout(documents: Documents, d: DocumentId, user: UserId)
    requires d in documents
    ensures Sum(documents, user) == SizeFor(documents[d], user) + Sum(documents - {d}, user)
    decreases |documents|
  {
    var e := AnyOf(documents);
    if e != d {
      assert d in documents - {e} && e in documents - {d};
      SumWithout(documents - {e}, d, user);
      SumWithout(documents - {d}, e, user);
      assert documents - {e} - {d} == documents - {d} - {e};
    }
  }

  lemma SumWith(documents: Documents, d: DocumentId, document: Document, user: UserId)
    requires d !in documents
    ensures Sum(documents[d := document], user) == Sum(documents, user) + SizeFor(document, user)
  {
    SumWithout(documents[d := document], d, user);
    assert documents[d := document] - {d} == documents;
  }

  lemma SumUpdate(documents: Documents, d: DocumentId, document: Document, user: UserId)
    requires d in documents && document.owner == documents[d].owner && document.size == documents[d].size
    ensures Sum(documents[d := document], user) == Sum(documents, user)
  {
    SumWithout(documents, d, user);
    SumWithout(documents[d := document], d, user);
    assert documents[d := document] - {d} == documents - {d};
  }

  // ----- conservation

  ghost predicate Balanced(documents: Documents, used: nat, user: UserId) {
    0 <= used == Sum(documents, user) <= QUOTA
  }

  /** Every user's used bytes are the bytes of their documents, and within the quota. */
  ghost predicate Inv(s: State) {
    && (forall user <- s.used :: Balanced(s.documents, s.used[user], user))
    && (forall d <- s.documents :: s.documents[d].owner in s.used)
  }

  lemma {:induction false} ImportKeepsBalance(documents: Documents, used: nat, user: UserId, files: seq<File>,
                                              other: UserId)
    requires NewIds(documents, files)
    ensures var r := ImportFiles(documents, used, user, files);
            && (forall d <- documents :: d in r.0 && r.0[d] == documents[d])
            && (forall d <- r.0 :: d in documents || r.0[d].owner == user)
            && (other != user ==> Sum(r.0, other) == Sum(documents, other))
            && Sum(r.0, user) == Sum(documents, user) + r.1 - used
            && (used <= QUOTA ==> r.1 <= QUOTA)
    decreases |files|
  {
    if files != [] {
      var file, rest := files[0], files[1..];
      assert forall i :: 0 <= i < |rest| ==> rest[i] == files[i + 1];
      if Imported(documents, user, file.remoteId) || !file.allowed {
        ImportKeepsBalance(documents, used, user, rest, other);
      } else if used + file.size <= QUOTA {
        var document := Document(user, file.size, Some(file.remoteId), None);
        SumWith(documents, file.id, document, user);
        SumWith(documents, file.id, document, other);
        ImportKeepsBalance(documents[file.id := document], used + file.size, user, rest, other);
      }
    }
  }

  /** The clamp of a refund never bites: no used total is smaller than one document. */
  lemma {:induction false} RefundIsExact(s: State, d: DocumentId)
    requires Inv(s) && d in s.documents
    ensures var owner := s.documents[d].owner;
            owner in s.used && Refund(s.used[owner], s.documents[d].size) == s.used[owner] - s.documents[d].size
  {
    var owner := s.documents[d].owner;
    assert Balanced(s.documents, s.used[owner], owner);
    SumWithout(s.documents, d, owner);
  }

  lemma WipeKeepsInv(s: State, d: DocumentId)
    requires Inv(s) && d in s.documents
    ensures Inv(Wipe(s, d))
  {
    var t := Wipe(s, d);
    RefundIsExact(s, d);
    forall user | user in t.used
      ensures Balanced(t.documents, t.used[user], user)
    {
      assert Balanced(s.documents, s.used[user], user);
      SumWithout(s.documents, d, user);
    }
  }

  lemma SameSizesKeepInv(s: State, t: State, d: DocumentId)
    requires Inv(s) && d in s.documents && d in t.documents && t == s.(documents := s.documents[d := t.documents[d]])
    requires t.documents[d].owner == s.documents[d].owner && t.documents[d].size == s.documents[d].size
    ensures Inv(t)
  {
    forall user | user in t.used
      ensures Balanced(t.documents, t.used[user], user)
    {
      assert Balanced(s.documents, s.used[user], user);
      SumUpdate(s.documents, d, t.documents[d], user);
    }
    assert forall e <- t.documents :: e in s.documents && t.documents[e].owner == s.documents[e].owner;
  }

  /** An import either brings in no bytes, or goes on from the total there is. */
  predicate Current(s: State, step: Step) {
    match step
    case Import(user, files, seen) =>
      user in s.used && NewIds(s.documents, files) && s.used[user] != seen ==>
        ImportFiles(s.documents, seen, user, files).1 == seen
    case _ => true
  }

  /** When an import keeps the books: exactly when it is current. Otherwise they are off
      by just what its session has not seen. */
  lemma {:induction false} ImportBalancesExactly(s: State, user: UserId, files: seq<File>, seen: nat)
    requires Inv(s) && user in s.used && NewIds(s.documents, files)
    ensures var step := Import(user, files, seen);
            var t := Next(s, step);
            && (Inv(t) <==> Current(s, step))
            && (!Current(s, step) ==>
                  user in t.used && t.used[user] - Sum(t.documents, user) == seen - s.used[user] != 0)
  {
    var t := Next(s, Import(user, files, seen));
    hide ImportFiles, NewIds, Sum;
    ImportKeepsBalance(s.documents, seen, user, files, user);
    BalancedIn(s, user);
    if Inv(t) {
      BalancedIn(t, user);
    }
    if Current(s, Import(user, files, seen)) {
      forall other | other in t.used
        ensures Balanced(t.documents, t.used[other], other)
      {
        assert Balanced(s.documents, s.used[other], other);
        ImportKeepsBalance(s.documents, seen, user, files, other);
      }
    }
  }

  lemma UploadKeepsInv(s: State, user: UserId, d: DocumentId, size: nat)
    requires Inv(s) && user in s.used && d !in s.documents && s.used[user] + size <= QUOTA
    ensures Inv(Next(s, Upload(user, d, size)))
  {
    var t := Next(s, Upload(user, d, size));
    forall other | other in t.used
      ensures Balanced(t.documents, t.used[other], other)
    {
      assert Balanced(s.documents, s.used[other], other);
      SumWith(s.documents, d, t.documents[d], other);
    }
  }

  lemma {:induction false} NoOneOwnsNothing(documents: Documents, user: UserId)
    requires forall d <- documents :: documents[d].owner != user
    ensures Sum(documents, user) == 0
    decreases |documents|
  {
    if documents != map[] {
      NoOneOwnsNothing(documents - {AnyOf(documents)}, user);
    }
  }

  lemma NewUserKeepsInv(s: State, user: UserId)
    requires Inv(s) && user !in s.used
    ensures Inv(s.(used := s.used[user := 0]))
  {
    NoOneOwnsNothing(s.documents, user);
  }

  /** Which steps keep the books: every one but an import that is not current. */
  lemma {:induction false} NextKeepsInv(s: State, step: Step)
    requires Inv(s)
    ensures Inv(Next(s, step)) <==> Current(s, step)
  {
    hide Wipe, Expired, NewIds, ImportFiles, Balanced, Sum;
    match step
    case AddUser(user) =>
      if user !in s.used {
        NewUserKeepsInv(s, user);
      }
    case Import(user, files, seen) =>
      if user in s.used && NewIds(s.documents, files) {
        ImportBalancesExactly(s, user, files, seen);
      }
    case Upload(user, d, size) =>
      if user in s.used && d !in s.documents && s.used[user] + size <= QUOTA {
        UploadKeepsInv(s, user, d, size);
      }
    case Trash(d, now) =>
      if d in s.documents && s.documents[d].deletedAt.None? {
        SameSizesKeepInv(s, Next(s, step), d);
      }
    case Restore(d, user, now) =>
      if InTrash(s.documents, d) {
        WipeKeepsInv(s, d);
        if Next(s, step) != s && !Expired(s.documents[d], now) {
          SameSizesKeepInv(s, Next(s, step), d);
        }
      }
    case _ =>
      if step.document in s.documents {
        WipeKeepsInv(s, step.document);
      }
  }

  /** Every import of the run is current when its turn comes. */
  ghost predicate AllCurrent(s: State, steps: seq<Step>) {
    forall k :: 0 <= k < |steps| ==> CurrentAt(s, steps, k)
  }

  predicate CurrentAt(s: State, steps: seq<Step>, k: nat)
    requires k < |steps|
  {
    Current(Run(s, steps[..k]), steps[k])
  }

  ghost predicate InvAt(s: State, steps: seq<Step>, k: nat)
    requires k <= |steps|
  {
    Inv(Run(s, steps[..k]))
  }

  lemma PrefixCurrent(s: State, steps: seq<Step>)
    requires steps != []
    ensures AllCurrent(s, steps) <==> AllCurrent(s, steps[..|steps| - 1]) && CurrentAt(s, steps, |steps| - 1)
  {
    hide Current;
    var init := steps[..|steps| - 1];
    forall k | 0 <= k < |init|
      ensures CurrentAt(s, init, k) == CurrentAt(s, steps, k)
    {
      assert init[..k] == steps[..k];
    }
  }

  lemma {:induction false} RunKeepsInv(s: State, steps: seq<Step>)
    requires Inv(s) && AllCurrent(s, steps)
    ensures Inv(Run(s, steps))
  {
    hide Inv, Current, Next;
    if steps != [] {
      PrefixCurrent(s, steps);
      RunKeepsInv(s, steps[..|steps| - 1]);
      NextKeepsInv(Run(s, steps[..|steps| - 1]), steps[|steps| - 1]);
    }
  }

  /** Over every interleaving of these transactions, by any number of users: the books
      balance in every state of the run exactly when every import of it is current. */
  lemma {:induction false} BalancedThroughoutExactly(steps: seq<Step>)
    ensures (forall k: nat :: k <= |steps| ==> InvAt(EMPTY, steps, k)) <==> AllCurrent(EMPTY, steps)
  {
    EmptyInv();
    hide Inv, Current, Next;
    if AllCurrent(EMPTY, steps) {
      forall k: nat | k <= |steps|
        ensures InvAt(EMPTY, steps, k)
      {
        CurrentSoFar(EMPTY, steps, k);
        RunKeepsInv(EMPTY, steps[..k]);
      }
    }
    if forall k: nat :: k <= |steps| ==> InvAt(EMPTY, steps, k) {
      forall k | 0 <= k < |steps|
        ensures CurrentAt(EMPTY, steps, k)
      {
        assert InvAt(EMPTY, steps, k) && InvAt(EMPTY, steps, k + 1);
        assert steps[..k + 1][..k] == steps[..k];
        NextKeepsInv(Run(EMPTY, steps[..k]), steps[k]);
      }
    }
  }

  lemma EmptyInv()
    ensures Inv(EMPTY)
  {
  }

  lemma CurrentSoFar(s: State, steps: seq<Step>, n: nat)
    requires AllCurrent(s, steps) && n <= |steps|
    ensures AllCurrent(s, steps[..n])
  {
    hide Current, Run;
    forall k | 0 <= k < n
      ensures CurrentAt(s, steps[..n], k)
    {
      assert steps[..n][..k] == steps[..k];
      assert CurrentAt(s, steps, k);
    }
  }

  /** So over every such run whose imports are current, by any number of users: used
      bytes are exactly the bytes of the documents there are, and within the quota. */
  lemma {:induction false} QuotaConserved(steps: seq<Step>, user: UserId)
    requires AllCurrent(EMPTY, steps)
    ensures var s := Run(EMPTY, steps);
            && (user in s.used ==> 0 <= s.used[user] == Sum(s.documents, user) <= QUOTA)
            && (user !in s.used ==> Sum(s.documents, user) == 0)
  {
    RunKeepsInv(EMPTY, steps);
    var s := Run(EMPTY, steps);
    if user in s.used {
      assert Balanced(s.documents, s.used[user], user);
    } else {
      NoOneOwnsNothing(s.documents, user);
    }
  }

  // ----- each wiped document is refunded exactly once

  /** The bytes a step brings in for the user, and the bytes it wipes. */
  ghost function Added(s: State, step: Step, user: UserId): nat {
    Sum(Next(s, step).documents - s.documents.Keys, user)
  }

  ghost function Wiped(s: State, step: Step, user: UserId): nat {
    Sum(s.documents - Next(s, step).documents.Keys, user)
  }

  ghost function AllAdded(s: State, steps: seq<Step>, user: UserId): nat {
    if steps == [] then 0
    else
      var init := steps[..|steps| - 1];
      AllAdded(s, init, user) + Added(Run(s, init), steps[|steps| - 1], user)
  }

  ghost function AllWiped(s: State, steps: seq<Step>, user: UserId): nat {
    if steps == [] then 0
    else
      var init := steps[..|steps| - 1];
      AllWiped(s, init, user) + Wiped(Run(s, init), steps[|steps| - 1], user)
  }

  /** No step changes a document's owner or size. */
  lemma SizesKept(s: State, step: Step)
    ensures var t := Next(s, step);
            forall d <- s.documents :: d in t.documents ==>
              && t.documents[d].owner == s.documents[d].owner
              && t.documents[d].size == s.documents[d].size
  {
    hide NewIds, Sum;
    match step
    case Import(user, files, seen) =>
      if user in s.used && NewIds(s.documents, files) {
        ImportKeepsBalance(s.documents, seen, user, files, user);
      }
    case _ =>
  }

  lemma {:induction false} SumSplit(documents: Documents, keys: set<DocumentId>, user: UserId)
    ensures Sum(documents, user) == Sum(documents - keys, user) + Sum(documents - (documents.Keys - keys), user)
    decreases |documents|
  {
    if documents != map[] {
      var d := AnyOf(documents);
      var rest := documents - {d};
      SumSplit(rest, keys, user);
      if d in keys {
        SumWithout(documents - (documents.Keys - keys), d, user);
        assert documents - (documents.Keys - keys) - {d} == rest - (rest.Keys - keys);
        assert documents - keys == rest - keys;
      } else {
        SumWithout(documents - keys, d, user);
        assert documents - keys - {d} == rest - keys;
        assert documents - (documents.Keys - keys) == rest - (rest.Keys - keys);
      }
    }
  }

  lemma {:induction false} SameSizesSameSum(a: Documents, b: Documents, user: UserId)
    requires a.Keys == b.Keys && forall d <- a :: a[d].owner == b[d].owner && a[d].size == b[d].size
    ensures Sum(a, user) == Sum(b, user)
    decreases |a|
  {
    if a != map[] {
      var d := AnyOf(a);
      SameSizesSameSum(a - {d}, b - {d}, user);
      SumWithout(b, d, user);
    } else {
      assert b == map[];
    }
  }

  lemma LedgerStep(s: State, step: Step, user: UserId)
    ensures var t := Next(s, step);
            Sum(t.documents, user) + Wiped(s, step, user) == Sum(s.documents, user) + Added(s, step, user)
  {
    SizesKept(s, step);
    hide Next, Sum;
    var t := Next(s, step);
    SumSplit(s.documents, t.documents.Keys, user);
    SumSplit(t.documents, s.documents.Keys, user);
    SameSizesSameSum(s.documents - (s.documents.Keys - t.documents.Keys),
                     t.documents - (t.documents.Keys - s.documents.Keys), user);
  }

  /** Over any run whose imports are current: what a user uses at the end, plus every
      byte of theirs that was wiped, is what they used at the start plus every byte that
      came in. */
  lemma {:induction false} Ledger(s: State, steps: seq<Step>, user: UserId)
    requires Inv(s) && user in s.used && AllCurrent(s, steps)
    ensures var t := Run(s, steps);
            Inv(t) && user in t.used
            && t.used[user] + AllWiped(s, steps, user) == s.used[user] + AllAdded(s, steps, user)
  {
    if steps != [] {
      var init, step := steps[..|steps| - 1], steps[|steps| - 1];
      var t := Run(s, init);
      PrefixCurrent(s, steps);
      Ledger(s, init, user);
      NextKeepsInv(t, step);
      UsersStay(t, step, user);
      LedgerStep(t, step, user);
      hide Next, Sum, Wiped, Added;
      BalancedIn(t, user);
      BalancedIn(Next(t, step), user);
    }
  }

  /** What the total loses because an import writes one it has read earlier. */
  function Missed(s: State, step: Step, user: UserId): int {
    if step.Import? && step.user == user && !Current(s, step) && user in s.used then s.used[user] - step.seen else 0
  }

  /** What a refund is larger than the total. */
  ghost function Clamped(s: State, step: Step, user: UserId): nat {
    if user in s.used && Wiped(s, step, user) > s.used[user] then Wiped(s, step, user) - s.used[user] else 0
  }

  ghost function AllMissed(s: State, steps: seq<Step>, user: UserId): int {
    if steps == [] then 0
    else
      var init := steps[..|steps| - 1];
      AllMissed(s, init, user) + Missed(Run(s, init), steps[|steps| - 1], user)
  }

  ghost function AllClamped(s: State, steps: seq<Step>, user: UserId): nat {
    if steps == [] then 0
    else
      var init := steps[..|steps| - 1];
      AllClamped(s, init, user) + Clamped(Run(s, init), steps[|steps| - 1], user)
  }

  /** Over any run at all, from any state: the ledger with what outdated imports missed
      and what refunds were cut off at zero. */
  lemma {:induction false} LedgerOfAnyRun(s: State, steps: seq<Step>, user: UserId)
    requires user in s.used
    ensures var t := Run(s, steps);
            && user in t.used
            && t.used[user] + AllWiped(s, steps, user) + AllMissed(s, steps, user)
                 == s.used[user] + AllAdded(s, steps, user) + AllClamped(s, steps, user)
  {
    hide Next, Sum, Wiped, Added, Missed, Clamped;
    if steps != [] {
      var init, step := steps[..|steps| - 1], steps[|steps| - 1];
      LedgerOfAnyRun(s, init, user);
      LedgerOfAnyStep(Run(s, init), step, user);
    }
  }

  lemma LedgerOfAnyStep(s: State, step: Step, user: UserId)
    requires user in s.used
    ensures var t := Next(s, step);
            && user in t.used
            && t.used[user] + Wiped(s, step, user) + Missed(s, step, user)
                 == s.used[user] + Added(s, step, user) + Clamped(s, step, user)
  {
    hide Sum, NewIds, ImportFiles, Wipe, Expired, Added, Wiped;
    LedgerStep(s, step, user);
    UsersStay(s, step, user);
    var t := Next(s, step);
    if d :| d in s.documents && d !in t.documents {
      WipeLedger(s, step, d, user);
    } else {
      NothingWiped(s, step, user);
      match step
      case Import(other, files, seen) =>
        if other in s.used && NewIds(s.documents, files) {
          ImportKeepsBalance(s.documents, seen, other, files, user);
        }
      case Upload(other, d, size) =>
        if t != s {
          SumWith(s.documents, d, t.documents[d], user);
        }
      case Trash(d, now) =>
        if t != s {
          SumUpdate(s.documents, d, t.documents[d], user);
        }
      case Restore(d, _, now) =>
        if t != s {
          SumUpdate(s.documents, d, t.documents[d], user);
        }
      case _ =>
    }
  }

  lemma WipeLedger(s: State, step: Step, d: DocumentId, user: UserId)
    requires d in s.documents && d !in Next(s, step).documents && user in s.used
    ensures Next(s, step) == Wipe(s, d) && Missed(s, step, user) == 0
    ensures Added(s, step, user) == 0 && Wiped(s, step, user) == SizeFor(s.documents[d], user)
    ensures Wipe(s, d).used[user] == Refund(s.used[user], SizeFor(s.documents[d], user))
  {
    hide Sum, Inv;
    OnlyTrashIsWiped(s, step, d);
    WipeIs(s, step, d);
    var t := Wipe(s, d);
    assert t.documents - s.documents.Keys == map[];
    assert s.documents - t.documents.Keys == map[d := s.documents[d]];
    OneDocument(d, s.documents[d], user);
    NoOneOwnsNothing(map[], user);
  }

  lemma WipeIs(s: State, step: Step, d: DocumentId)
    requires d in s.documents && InTrash(s.documents, d)
    requires step == DeleteTrashed(d, s.documents[d].owner)
             || (step.Purge? && step.document == d && Expired(s.documents[d], step.now))
             || (step.Restore? && step.document == d && Expired(s.documents[d], step.now)
                 && d !in Next(s, step).documents)
    ensures Next(s, step) == Wipe(s, d)
  {
  }

  lemma OneDocument(d: DocumentId, document: Document, user: UserId)
    ensures Sum(map[d := document], user) == SizeFor(document, user)
  {
    SumWithout(map[d := document], d, user);
    assert map[d := document] - {d} == map[];
  }

  lemma NothingWiped(s: State, step: Step, user: UserId)
    requires s.documents.Keys <= Next(s, step).documents.Keys
    ensures Wiped(s, step, user) == 0
  {
    hide Next;
    assert s.documents - Next(s, step).documents.Keys == map[];
  }

  lemma UsersStay(s: State, step: Step, user: UserId)
    requires user in s.used
    ensures user in Next(s, step).used
  {
    hide NewIds, ImportFiles, Expired;
  }

  lemma BalancedIn(s: State, user: UserId)
    requires Inv(s) && user in s.used
    ensures s.used[user] == Sum(s.documents, user)
  {
    assert Balanced(s.documents, s.used[user], user);
  }

  /** What a restore does: nothing to a document of someone else's or out of the trash;
      otherwise the document is live again, or gone if its seven days are over. */
  lemma {:induction false} RestoreExactly(s: State, d: DocumentId, user: UserId, now: Time)
    ensures var t := Next(s, Restore(d, user, now));
            if d !in s.documents || s.documents[d].owner != user || s.documents[d].deletedAt.None? then t == s
            else if now >= s.documents[d].deletedAt.value + 7.0 * 86400.0 then d !in t.documents
            else
              && t.documents.Keys == s.documents.Keys && t.used == s.used
              && forall e <- t.documents ::
                   t.documents[e] == if e == d then s.documents[d].(deletedAt := None) else s.documents[e]
  {
  }

  // ----- an import from an outdated total

  /** Such a run: ten bytes are uploaded after the session of a sync has read the total
      and before its import of five. The total forgets the upload, and wiping it is more
      than the total has. */
  lemma {:induction false} OutdatedImportForgetsUpload(user: UserId)
    ensures var steps := [AddUser(user), Upload(user, 1, 10), Import(user, [File(2, "a", 5, true)], 0),
                          Trash(1, 0.0), DeleteTrashed(1, user)];
            var t, u := Run(EMPTY, steps[..3]), Run(EMPTY, steps);
            && t.used == map[user := 5] && Sum(t.documents, user) == 15
            && u.used == map[user := 0] && Sum(u.documents, user) == 5
  {
    hide Sum;
    var file := File(2, "a", 5, true);
    var one, two := Document(user, 10, None, None), Document(user, 5, Some("a"), None);
    var steps := [AddUser(user), Upload(user, 1, 10), Import(user, [file], 0), Trash(1, 0.0), DeleteTrashed(1, user)];
    var s2 := Next(Next(EMPTY, steps[0]), steps[1]);
    assert s2 == State(map[1 := one], map[user := 10]);
    OneFile(s2.documents, 0, user, file);
    var s3 := Next(s2, steps[2]);
    assert s3 == State(map[1 := one][2 := two], map[user := 5]);
    OneDocument(1, one, user);
    SumWith(map[1 := one], 2, two, user);
    var s5 := Next(Next(s3, steps[3]), steps[4]);
    assert s5 == State(map[2 := two], map[user := 0]);
    OneDocument(2, two, user);
    RunOf5(EMPTY, steps);
  }

  // ----- the trash window

  /** Only documents in the trash are wiped: by their owner's request, or because
      their time in the trash is over. */
  lemma {:induction false} OnlyTrashIsWiped(s: State, step: Step, d: DocumentId)
    requires d in s.documents && d !in Next(s, step).documents
    ensures InTrash(s.documents, d)
    ensures step == DeleteTrashed(d, s.documents[d].owner)
            || (step.Purge? && step.document == d && Expired(s.documents[d], step.now))
            || (step.Restore? && step.document == d && Expired(s.documents[d], step.now))
  {
    hide NewIds, Sum;
    match step
    case Import(user, files, seen) =>
      if user in s.used && NewIds(s.documents, files) {
        ImportKeepsBalance(s.documents, seen, user, files, user);
      }
    case _ =>
  }

  /** Step `i` puts the document in the trash, and it is there ever since. */
  ghost predicate InTrashSince(s: State, steps: seq<Step>, i: nat, d: DocumentId) {
    && i < |steps| && steps[i].Trash? && steps[i].document == d
    && forall m :: i < m <= |steps| ==> TrashedAt(Run(s, steps[..m]), d, steps[i].now)
  }

  predicate TrashedAt(s: State, d: DocumentId, t: Time) {
    d in s.documents && s.documents[d].deletedAt == Some(t)
  }

  /** A document gets its trash date from the step that trashes it, and only there. */
  lemma TrashDateStep(s: State, step: Step, d: DocumentId, t: Time)
    requires TrashedAt(Next(s, step), d, t)
    ensures TrashedAt(s, d, t) || (step == Trash(d, t) && d in s.documents && s.documents[d].deletedAt.None?)
  {
    hide NewIds, Sum;
    match step
    case Import(user, files, seen) =>
      if user in s.used && NewIds(s.documents, files) {
        ImportKeepsBalance(s.documents, seen, user, files, user);
        if d !in s.documents {
          ImportedAreLive(s.documents, seen, user, files, d);
        }
      }
    case _ =>
  }

  lemma {:induction false} ImportedAreLive(documents: Documents, used: nat, user: UserId, files: seq<File>,
                                           d: DocumentId)
    requires d in documents ==> documents[d].deletedAt.None?
    ensures var r := ImportFiles(documents, used, user, files); d in r.0 ==> r.0[d].deletedAt.None?
    decreases |files|
  {
    if files != [] {
      var file, rest := files[0], files[1..];
      ImportedAreLive(documents, used, user, rest, d);
      ImportedAreLive(documents[file.id := Document(user, file.size, Some(file.remoteId), None)],
                      used + file.size, user, rest, d);
    }
  }

  /** A document in the trash was put there by one step, and has not left since. */
  lemma {:induction false} TrashHasAStart(steps: seq<Step>, d: DocumentId)
    requires InTrash(Run(EMPTY, steps).documents, d)
    ensures exists i: nat :: InTrashSince(EMPTY, steps, i, d)
              && TrashedAt(Run(EMPTY, steps), d, steps[i].now)
  {
    var t := Run(EMPTY, steps);
    if steps != [] {
      var init, step := steps[..|steps| - 1], steps[|steps| - 1];
      var before := Run(EMPTY, init);
      assert steps[..|steps|] == steps;
      TrashDateStep(before, step, d, t.documents[d].deletedAt.value);
      hide Next;
      if TrashedAt(before, d, t.documents[d].deletedAt.value) {
        TrashHasAStart(init, d);
        var i: nat :| InTrashSince(EMPTY, init, i, d) && TrashedAt(before, d, init[i].now);
        forall m | i < m <= |steps|
          ensures TrashedAt(Run(EMPTY, steps[..m]), d, steps[i].now)
        {
          if m <= |init| {
            assert init[..m] == steps[..m];
            assert TrashedAt(Run(EMPTY, init[..m]), d, init[i].now);
          } else {
            assert steps[..m] == steps;
          }
        }
        assert InTrashSince(EMPTY, steps, i, d);
      } else {
        forall m | |init| < m <= |steps|
          ensures TrashedAt(Run(EMPTY, steps[..m]), d, step.now)
        {
          assert steps[..m] == steps;
        }
        assert InTrashSince(EMPTY, steps, |init|, d);
      }
    }
  }

  /** A purge only wipes a document that was put in the trash at least seven days
      before the purge's clock, and was in the trash in every state since. */
  lemma {:induction false} PurgedAfterRetention(steps: seq<Step>, d: DocumentId, now: Time)
    requires d in Run(EMPTY, steps).documents && d !in Next(Run(EMPTY, steps), Purge(d, now)).documents
    ensures exists i: nat :: InTrashSince(EMPTY, steps, i, d) && steps[i].now + RETENTION <= now
  {
    OnlyTrashIsWiped(Run(EMPTY, steps), Purge(d, now), d);
    hide Next;
    TrashHasAStart(steps, d);
    var i: nat :| InTrashSince(EMPTY, steps, i, d) && TrashedAt(Run(EMPTY, steps), d, steps[i].now);
    assert steps[i].now + RETENTION <= now;
  }

  // ----- syncing again imports nothing

  predicate SameFiles(files: seq<File>, again: seq<File>) {
    |again| == |files| && forall i :: 0 <= i < |files| ==> again[i] == files[i].(id := again[i].id)
  }

  lemma {:induction false} ImportAgain(before: Documents, used: nat, user: UserId, files: seq<File>, again: seq<File>,
                                       later: nat)
    requires NewIds(before, files) && SameFiles(files, again) && later >= ImportFiles(before, used, user, files).1
    ensures var r := ImportFiles(before, used, user, files); ImportFiles(r.0, later, user, again) == (r.0, later)
    decreases |files|
  {
    if files != [] {
      var file, rest := files[0], files[1..];
      var (after, total) := ImportFiles(before, used, user, files);
      assert forall i :: 0 <= i < |rest| ==> rest[i] == files[i + 1];
      ImportKeepsBalance(before, used, user, files, user);
      assert again[0] == file.(id := again[0].id);
      assert SameFiles(rest, again[1..]);
      if Imported(before, user, file.remoteId) || !file.allowed {
        ImportAgain(before, used, user, rest, again[1..], later);
        if file.allowed {
          var d :| d in before && IsImportOf(before[d], user, file.remoteId);
          assert d in after && IsImportOf(after[d], user, file.remoteId);
        }
      } else if used + file.size <= QUOTA {
        var added := before[file.id := Document(user, file.size, Some(file.remoteId), None)];
        ImportAgain(added, used + file.size, user, rest, again[1..], later);
        ImportKeepsBalance(added, used + file.size, user, rest, user);
        assert file.id in after && IsImportOf(after[file.id], user, file.remoteId);
      }
    }
  }

  /** Syncing is idempotent: a second sync of the same remote files, whatever ids it
      would give, changes nothing, even after one that ran out of quota, as long as it has
      seen no smaller total than the first came to. */
  lemma {:induction false} SyncTwice(s: State, user: UserId, files: seq<File>, seen: nat, again: seq<File>, later: nat)
    requires user in s.used && NewIds(s.documents, files) && SameFiles(files, again)
    requires later >= ImportFiles(s.documents, seen, user, files).1
    ensures var t := Next(s, Import(user, files, seen)); Next(t, Import(user, again, later)) == t
  {
    ImportAgain(s.documents, seen, user, files, again, later);
  }

  // ----- when a remote file is imported

  /** What an import has made of the first `k` files; None if it ended before. */
  function Before(documents: Documents, used: nat, user: UserId, files: seq<File>, k: nat): Option<(Documents, nat)>
    requires k <= |files|
  {
    if k == 0 then Some((documents, used))
    else
      match Before(documents, used, user, files, k - 1)
      case None => None
      case Some(sofar) =>
        var file := files[k - 1];
        if Imported(sofar.0, user, file.remoteId) || !file.allowed then Some(sofar)
        else if sofar.1 + file.size > QUOTA then None
        else Some((sofar.0[file.id := Document(user, file.size, Some(file.remoteId), None)], sofar.1 + file.size))
  }

  /** The import comes to file `k`, which is of a supported type and fits. */
  ghost predicate Reaches(documents: Documents, used: nat, user: UserId, files: seq<File>, k: nat)
    requires k < |files|
  {
    var sofar := Before(documents, used, user, files, k);
    sofar.Some? && files[k].allowed && sofar.value.1 + files[k].size <= QUOTA
  }

  lemma {:induction false} BeforeFirst(documents: Documents, used: nat, user: UserId, files: seq<File>, k: nat)
    requires 0 < k <= |files|
    ensures var file, rest := files[0], files[1..];
            Before(documents, used, user, files, k) ==
              if Imported(documents, user, file.remoteId) || !file.allowed
              then Before(documents, used, user, rest, k - 1)
              else if used + file.size > QUOTA then None
              else Before(documents[file.id := Document(user, file.size, Some(file.remoteId), None)], used + file.size,
                          user, rest, k - 1)
  {
    if k > 1 {
      BeforeFirst(documents, used, user, files, k - 1);
      assert files[k - 1] == files[1..][k - 2];
    } else {
      assert Before(documents, used, user, files, 0) == Some((documents, used));
    }
  }

  /** An import goes on from what it has made of the first `k` files, or has ended. */
  lemma {:induction false} ImportGoesOn(documents: Documents, used: nat, user: UserId, files: seq<File>, k: nat)
    requires k <= |files| && NewIds(documents, files)
    ensures var sofar := Before(documents, used, user, files, k);
            && (sofar.Some? ==>
                  && NewIds(sofar.value.0, files[k..])
                  && ImportFiles(documents, used, user, files)
                       == ImportFiles(sofar.value.0, sofar.value.1, user, files[k..]))
            && (sofar.None? ==>
                  forall i :: k <= i < |files| ==> files[i].id !in ImportFiles(documents, used, user, files).0)
    decreases |files|
  {
    if k == 0 {
      assert files[0..] == files;
    } else {
      var file, rest := files[0], files[1..];
      BeforeFirst(documents, used, user, files, k);
      assert forall i :: 0 <= i < |rest| ==> rest[i] == files[i + 1];
      assert rest[k - 1..] == files[k..];
      if Imported(documents, user, file.remoteId) || !file.allowed {
        ImportGoesOn(documents, used, user, rest, k - 1);
      } else if used + file.size <= QUOTA {
        ImportGoesOn(documents[file.id := Document(user, file.size, Some(file.remoteId), None)], used + file.size,
                     user, rest, k - 1);
      }
      forall i | k <= i < |files|
        ensures files[i] == rest[i - 1]
      {
      }
    }
  }

  /** A file that the import comes to, supported and fitting, is given a document exactly
      when no live document of the user came from it. */
  lemma {:induction false} GivenDocumentExactly(documents: Documents, used: nat, user: UserId, files: seq<File>, k: nat)
    requires k < |files| && NewIds(documents, files) && Reaches(documents, used, user, files, k)
    ensures var sofar := Before(documents, used, user, files, k).value.0;
            var after := ImportFiles(documents, used, user, files).0;
            files[k].id in after <==> !Imported(sofar, user, files[k].remoteId)
  {
    ImportGoesOn(documents, used, user, files, k);
    ImportGoesOn(documents, used, user, files, k + 1);
    var (sofar, bytes) := Before(documents, used, user, files, k).value;
    var rest := files[k..];
    assert rest[0] == files[k] && rest[1..] == files[k + 1..];
    var next := Before(documents, used, user, files, k + 1).value;
    ImportKeepsBalance(next.0, next.1, user, files[k + 1..], user);
    if Imported(sofar, user, files[k].remoteId) {
      OnlyOwnIds(sofar, bytes, user, files[k + 1..], files[k].id);
    }
  }

  /** An import adds no document under an id that none of its files has. */
  lemma {:induction false} OnlyOwnIds(documents: Documents, used: nat, user: UserId, files: seq<File>, d: DocumentId)
    requires d !in documents && forall i :: 0 <= i < |files| ==> files[i].id != d
    ensures d !in ImportFiles(documents, used, user, files).0
    decreases |files|
  {
    if files != [] {
      var file, rest := files[0], files[1..];
      OnlyOwnIds(documents, used, user, rest, d);
      OnlyOwnIds(documents[file.id := Document(user, file.size, Some(file.remoteId), None)], used + file.size, user,
                 rest, d);
    }
  }

  /** A file whose remote id no earlier file of the import has is looked for among the
      documents there were before the import. */
  lemma {:induction false} EarlierFilesDoNotMatter(documents: Documents, used: nat, user: UserId, files: seq<File>,
                                                   k: nat,
                                                   remoteId: string)
    requires k <= |files| && NewIds(documents, files) && Before(documents, used, user, files, k).Some?
    requires forall i :: 0 <= i < k ==> files[i].remoteId != remoteId
    ensures Imported(Before(documents, used, user, files, k).value.0, user, remoteId)
        <==> Imported(documents, user, remoteId)
  {
    if k > 0 {
      EarlierFilesDoNotMatter(documents, used, user, files, k - 1, remoteId);
      ImportGoesOn(documents, used, user, files, k - 1);
      assert files[k - 1..][0] == files[k - 1];
      var sofar, file := Before(documents, used, user, files, k - 1).value.0, files[k - 1];
      OtherImport(sofar, file.id, Document(user, file.size, Some(file.remoteId), None), user, remoteId);
    }
  }

  lemma OtherImport(documents: Documents, d: DocumentId, document: Document, user: UserId, remoteId: string)
    requires d !in documents && !IsImportOf(document, user, remoteId)
    ensures Imported(documents[d := document], user, remoteId) <==> Imported(documents, user, remoteId)
  {
    var after := documents[d := document];
    if e :| e in documents && IsImportOf(documents[e], user, remoteId) {
      assert e in after && IsImportOf(after[e], user, remoteId);
    }
    if e :| e in after && IsImportOf(after[e], user, remoteId) {
      assert e in documents && IsImportOf(documents[e], user, remoteId);
    }
  }

  // ----- when it is imported a second time

  /** Only live documents know the remote file they came from, and of one user no two
      the same. */
  ghost predicate Remembered(documents: Documents) {
    && (forall d <- documents :: documents[d].deletedAt.Some? ==> documents[d].remoteId.None?)
    && (forall d, e :: d in documents && e in documents && d != e ==> !SameImport(documents[d], documents[e]))
  }

  predicate SameImport(a: Document, b: Document) {
    a.owner == b.owner && a.remoteId.Some? && a.remoteId == b.remoteId
  }

  lemma {:induction false} ImportKeepsRemembered(documents: Documents, used: nat, user: UserId, files: seq<File>)
    requires Remembered(documents) && NewIds(documents, files)
    ensures Remembered(ImportFiles(documents, used, user, files).0)
    decreases |files|
  {
    if files != [] {
      var file, rest := files[0], files[1..];
      assert forall i :: 0 <= i < |rest| ==> rest[i] == files[i + 1];
      if Imported(documents, user, file.remoteId) || !file.allowed {
        ImportKeepsRemembered(documents, used, user, rest);
      } else if used + file.size <= QUOTA {
        var document := Document(user, file.size, Some(file.remoteId), None);
        assert forall d <- documents :: !IsImportOf(documents[d], user, file.remoteId);
        ImportKeepsRemembered(documents[file.id := document], used + file.size, user, rest);
      }
    }
  }

  lemma NextKeepsRemembered(s: State, step: Step)
    requires Remembered(s.documents)
    ensures Remembered(Next(s, step).documents)
  {
    hide NewIds, ImportFiles, Imported;
    match step
    case Import(user, files, seen) =>
      if user in s.used && NewIds(s.documents, files) {
        ImportKeepsRemembered(s.documents, seen, user, files);
      }
    case _ =>
  }

  lemma {:induction false} RunKeepsRemembered(s: State, steps: seq<Step>)
    requires Remembered(s.documents)
    ensures Remembered(Run(s, steps).documents)
  {
    if steps != [] {
      RunKeepsRemembered(s, steps[..|steps| - 1]);
      NextKeepsRemembered(Run(s, steps[..|steps| - 1]), steps[|steps| - 1]);
    }
  }

  /** The step puts in the trash the live document that came from this remote file. */
  predicate Forgets(s: State, step: Step, user: UserId, remoteId: string) {
    step.Trash? && step.document in s.documents && IsImportOf(s.documents[step.document], user, remoteId)
  }

  /** Only that makes a file count as not imported. */
  lemma ForgetStep(s: State, step: Step, user: UserId, remoteId: string)
    requires Remembered(s.documents) && Imported(s.documents, user, remoteId)
    ensures Imported(Next(s, step).documents, user, remoteId) <==> !Forgets(s, step, user, remoteId)
  {
    var t := Next(s, step);
    var d :| d in s.documents && IsImportOf(s.documents[d], user, remoteId);
    if Forgets(s, step, user, remoteId) {
      assert step.document == d;
      assert forall e <- t.documents :: !IsImportOf(t.documents[e], user, remoteId);
    } else {
      KeepsImport(s, step, d, user, remoteId);
      assert IsImportOf(t.documents[d], user, remoteId);
    }
  }

  lemma KeepsImport(s: State, step: Step, d: DocumentId, user: UserId, remoteId: string)
    requires d in s.documents && IsImportOf(s.documents[d], user, remoteId) && !Forgets(s, step, user, remoteId)
    ensures d in Next(s, step).documents && Next(s, step).documents[d] == s.documents[d]
  {
    hide NewIds, Imported;
    match step
    case Import(other, files, seen) =>
      if other in s.used && NewIds(s.documents, files) {
        ImportKeepsBalance(s.documents, seen, other, files, other);
      }
    case _ =>
  }

  /** Step `k` of the run forgets the file. */
  predicate ForgetsAt(s: State, steps: seq<Step>, k: nat, user: UserId, remoteId: string)
    requires k < |steps|
  {
    Forgets(Run(s, steps[..k]), steps[k], user, remoteId)
  }

  /** Step `k` of the run imports the file. */
  predicate TakesAt(s: State, steps: seq<Step>, k: nat, user: UserId, remoteId: string)
    requires k < |steps|
  {
    && !Imported(Run(s, steps[..k]).documents, user, remoteId)
    && Imported(Next(Run(s, steps[..k]), steps[k]).documents, user, remoteId)
  }

  /** The file was forgotten in step `k`, and not imported since. */
  ghost predicate ForgottenSince(s: State, steps: seq<Step>, k: nat, user: UserId, remoteId: string) {
    && k < |steps| && ForgetsAt(s, steps, k, user, remoteId)
    && forall m :: k < m < |steps| ==> !TakesAt(s, steps, m, user, remoteId)
  }

  lemma ForgottenPrefix(s: State, steps: seq<Step>, k: nat, user: UserId, remoteId: string)
    requires k < |steps| - 1
    ensures ForgottenSince(s, steps, k, user, remoteId) <==>
              && ForgottenSince(s, steps[..|steps| - 1], k, user, remoteId)
              && !TakesAt(s, steps, |steps| - 1, user, remoteId)
  {
    hide Next, Imported, Forgets;
    var init := steps[..|steps| - 1];
    assert forall m :: 0 <= m <= |init| ==> init[..m] == steps[..m];
    assert forall m :: 0 <= m < |init| ==> TakesAt(s, init, m, user, remoteId) == TakesAt(s, steps, m, user, remoteId);
    assert ForgetsAt(s, init, k, user, remoteId) == ForgetsAt(s, steps, k, user, remoteId);
  }

  /** Over any run: an imported file counts as not imported at the end exactly when the
      document it came in was put in the trash and no import took the file since. */
  lemma {:induction false} ForgottenExactly(s: State, steps: seq<Step>, user: UserId, remoteId: string)
    requires Remembered(s.documents) && Imported(s.documents, user, remoteId)
    ensures !Imported(Run(s, steps).documents, user, remoteId) <==>
              exists k: nat :: ForgottenSince(s, steps, k, user, remoteId)
  {
    hide Next, Imported, Remembered, Forgets;
    if steps != [] {
      var init, n := steps[..|steps| - 1], |steps| - 1;
      var t := Run(s, init);
      RunKeepsRemembered(s, init);
      ForgottenExactly(s, init, user, remoteId);
      assert init == steps[..n];
      forall k: nat | k < n
        ensures ForgottenSince(s, steps, k, user, remoteId) <==>
                  ForgottenSince(s, init, k, user, remoteId) && !TakesAt(s, steps, n, user, remoteId)
      {
        ForgottenPrefix(s, steps, k, user, remoteId);
      }
      LastStep(s, steps, user, remoteId);
    }
  }

  /** What the last step of a run does, forgetting or taking the file. */
  lemma LastStep(s: State, steps: seq<Step>, user: UserId, remoteId: string)
    requires steps != [] && Remembered(Run(s, steps[..|steps| - 1]).documents)
    ensures var t, after := Run(s, steps[..|steps| - 1]), Run(s, steps);
            && (Imported(t.documents, user, remoteId) ==>
                  && !TakesAt(s, steps, |steps| - 1, user, remoteId)
                  && Imported(after.documents, user, remoteId)
                       == !ForgottenSince(s, steps, |steps| - 1, user, remoteId))
            && (!Imported(t.documents, user, remoteId) ==>
                  && !ForgottenSince(s, steps, |steps| - 1, user, remoteId)
                  && Imported(after.documents, user, remoteId) == TakesAt(s, steps, |steps| - 1, user, remoteId))
  {
    hide Next, Remembered;
    var t, step := Run(s, steps[..|steps| - 1]), steps[|steps| - 1];
    if Imported(t.documents, user, remoteId) {
      ForgetStep(t, step, user, remoteId);
    }
  }

  /** When a remote file is imported a second time. After any run `before` that left it
      imported and any run `between`, the next import that comes to it, supported and
      fitting and for the first time in that import, gives it a new document exactly when
      in between the document it came in was put in the trash, and no import took the
      file since. */
  lemma {:induction false} ImportedAgainExactly(before: seq<Step>, between: seq<Step>, user: UserId, files: seq<File>,
                                               seen: nat, k: nat)
    requires var s := Run(EMPTY, before);
             var t := Run(s, between);
             && k < |files| && Imported(s.documents, user, files[k].remoteId)
             && user in t.used && NewIds(t.documents, files) && Reaches(t.documents, seen, user, files, k)
             && forall i :: 0 <= i < k ==> files[i].remoteId != files[k].remoteId
    ensures var s := Run(EMPTY, before);
            files[k].id in Next(Run(s, between), Import(user, files, seen)).documents <==>
              exists m: nat :: ForgottenSince(s, between, m, user, files[k].remoteId)
  {
    var s := Run(EMPTY, before);
    var t := Run(s, between);
    RunKeepsRemembered(EMPTY, before);
    ForgottenExactly(s, between, user, files[k].remoteId);
    GivenDocumentExactly(t.documents, seen, user, files, k);
    EarlierFilesDoNotMatter(t.documents, seen, user, files, k, files[k].remoteId);
  }

  /** Such a run: a document that was trashed and restored is imported a second time by
      the next sync. */
  lemma {:induction false} RestoredIsImportedAgain(user: UserId)
    ensures var file, again := File(1, "a", 10, true), File(2, "a", 10, true);
            var t := Run(EMPTY, [AddUser(user), Import(user, [file], 0), Trash(1, 0.0), Restore(1, user, 1.0),
                                 Import(user, [again], 10)]);
            t.documents.Keys == {1, 2} && Imported(t.documents, user, "a") && t.used == map[user := 20]
  {
    var file, again := File(1, "a", 10, true), File(2, "a", 10, true);
    var steps := [AddUser(user), Import(user, [file], 0), Trash(1, 0.0), Restore(1, user, 1.0),
                  Import(user, [again], 10)];
    var s1 := Next(EMPTY, steps[0]);
    OneFile(s1.documents, 0, user, file);
    var s2 := Next(s1, steps[1]);
    assert s2.documents == map[1 := Document(user, 10, Some("a"), None)];
    var s3 := Next(s2, steps[2]);
    var s4 := Next(s3, steps[3]);
    assert s4.documents == map[1 := Document(user, 10, None, None)];
    OneFile(s4.documents, 10, user, again);
    var s5 := Next(s4, steps[4]);
    assert s5.documents == s4.documents[2 := Document(user, 10, Some("a"), None)];
    RunOf5(EMPTY, steps);
    assert IsImportOf(s5.documents[2], user, "a");
  }

  lemma OneFile(documents: Documents, used: nat, user: UserId, file: File)
    requires file.allowed && used + file.size <= QUOTA && !Imported(documents, user, file.remoteId)
    ensures ImportFiles(documents, used, user, [file])
              == (documents[file.id := Document(user, file.size, Some(file.remoteId), None)], used + file.size)
  {
    assert [file][1..] == [];
  }

  lemma RunOf5(s: State, steps: seq<Step>)
    requires |steps| == 5
    ensures Run(s, steps[..3]) == Next(Next(Next(s, steps[0]), steps[1]), steps[2])
    ensures Run(s, steps) == Next(Next(Next(Next(Next(s, steps[0]), steps[1]), steps[2]), steps[3]), steps[4])
  {
    hide Next;
    assert steps[..4][..3] == steps[..3] && steps[..3][..2] == steps[..2];
    assert steps[..2][..1] == steps[..1] && steps[..1][..0] == [];
    assert Run(s, steps[..1]) == Next(Run(s, steps[..0]), steps[0]);
    assert Run(s, steps[..2]) == Next(Run(s, steps[..1]), steps[1]);
    assert Run(s, steps[..3]) == Next(Run(s, steps[..2]), steps[2]);
    assert Run(s, steps[..4]) == Next(Run(s, steps[..3]), steps[3]);
  }
}

/** The rows of users and documents, and the functions of
    backend/app/services/document_deletion.py and cloud_storage.py that update them.
    Each transaction is proved to be the step of StorageQuota it stands for; those
    that go through many documents keep the books and say what is left. */
module QuotaStore {
  import opened Options
  import opened StorageQuota

  datatype RestoreOutcome = Restored | NotFound | NotTrashed | TrashExpired

  class QuotaStore {
    var documents: Documents
    var used: map<UserId, nat>

    function View(): State
      reads this
    {
      State(documents, used)
    }

    constructor ()
      ensures View() == EMPTY && Inv(View())
    {
      documents, used := map[], map[];
    }

    /** sync_credential_documents, once the remote files are known. The row is locked,
        but the total is the one the session has `seen`. */
    method SyncCredentialDocuments(user: UserId, files: seq<File>, seen: nat)
      requires user in used && NewIds(documents, files)
      modifies this
      ensures View() == Next(old(View()), Import(user, files, seen))
      ensures old(Inv(View())) ==> (Inv(View()) <==> old(Current(View(), Import(user, files, seen))))
    {
      if Inv(View()) {
        NextKeepsInv(View(), Import(user, files, seen));
      }
      ghost var goal := ImportFiles(documents, seen, user, files);
      var usedBytes: nat := seen;
      var added: Documents := documents;
      var k := 0;
      while k < |files|
        invariant 0 <= k <= |files|
        invariant ImportFiles(added, usedBytes, user, files[k..]) == goal
        decreases |files| - k
      {
        var file := files[k];
        assert files[k..][1..] == files[k + 1..];
        k := k + 1;
        if Imported(added, user, file.remoteId) || !file.allowed {
          continue;
        }
        if usedBytes + file.size > QUOTA {
          break;
        }
        added := added[file.id := Document(user, file.size, Some(file.remoteId), None)];
        usedBytes := usedBytes + file.size;
      }
      documents := added;
      // an unchanged attribute is not written
      if usedBytes != seen {
        used := used[user := usedBytes];
      }
    }

    /** `_wipe_locked_document`: the rows go, and their size is refunded. */
    method WipeLockedDocument(d: DocumentId)
      requires d in documents
      modifies this
      ensures View() == Wipe(old(View()), d) && (old(Inv(View())) ==> Inv(View()))
    {
      if Inv(View()) {
        WipeKeepsInv(View(), d);
      }
      var document := documents[d];
      documents := documents - {d};
      if document.owner in used {
        used := used[document.owner := Refund(used[document.owner], document.size)];
      }
    }

    /** soft_delete_document. */
    method SoftDeleteDocument(d: DocumentId, now: Time)
      modifies this
      ensures View() == Next(old(View()), Trash(d, now)) && (old(Inv(View())) ==> Inv(View()))
    {
      if Inv(View()) {
        NextKeepsInv(View(), Trash(d, now));
      }
      if d !in documents || documents[d].deletedAt.Some? {
        return;
      }
      var document := documents[d].(deletedAt := Some(now));
      document := document.(remoteId := None);
      documents := documents[d := document];
    }

    /** restore_document. */
    method RestoreDocument(d: DocumentId, user: UserId, now: Time) returns (outcome: RestoreOutcome)
      modifies this
      ensures View() == Next(old(View()), Restore(d, user, now)) && (old(Inv(View())) ==> Inv(View()))
      ensures outcome == Restored <==> d in documents && old(InTrash(documents, d)) && documents[d].deletedAt.None?
      ensures outcome == TrashExpired <==> old(d in documents) && d !in documents
      ensures outcome == NotFound <==> old(d !in documents || documents[d].owner != user)
      ensures outcome == NotFound || outcome == NotTrashed ==> View() == old(View())
    {
      if Inv(View()) {
        NextKeepsInv(View(), Restore(d, user, now));
      }
      if d !in documents || documents[d].owner != user {
        return NotFound;
      }
      if documents[d].deletedAt.None? {
        return NotTrashed;
      }
      if Expired(documents[d], now) {
        WipeLockedDocument(d);
        return TrashExpired;
      }
      documents := documents[d := documents[d].(deletedAt := None)];
      return Restored;
    }

    /** `_purge_if_expired`: checked again once the row is locked. */
    method PurgeIfExpired(d: DocumentId, now: Time)
      modifies this
      ensures View() == Next(old(View()), Purge(d, now)) && (old(Inv(View())) ==> Inv(View()))
    {
      if d !in documents || !Expired(documents[d], now) {
        return;
      }
      WipeLockedDocument(d);
    }

    /** permanently_delete_trashed. */
    method PermanentlyDeleteTrashed(d: DocumentId, user: UserId) returns (found: bool)
      modifies this
      ensures View() == Next(old(View()), DeleteTrashed(d, user)) && (old(Inv(View())) ==> Inv(View()))
      ensures found == old(InTrash(documents, d) && documents[d].owner == user)
    {
      if d !in documents || documents[d].owner != user || documents[d].deletedAt.None? {
        return false;
      }
      WipeLockedDocument(d);
      return true;
    }

    /** purge_expired_documents: wipes what is expired, but for rows another
        transaction holds. */
    method PurgeExpiredDocuments(now: Time, busy: set<DocumentId>)
      modifies this
      ensures documents ==
        map d | d in old(documents) && (d in busy || !Expired(old(documents)[d], now)) :: old(documents)[d]
      ensures used.Keys == old(used).Keys && (old(Inv(View())) ==> Inv(View()))
    {
      hide Sum, Balanced;
      var expired := set d | d in documents && Expired(documents[d], now);
      var rest := expired;
      while rest != {}
        invariant rest <= expired && used.Keys == old(used).Keys && (old(Inv(View())) ==> Inv(View()))
        invariant documents == old(documents) - (expired - rest - busy)
      {
        var d :| d in rest;
        if d !in busy {
          PurgeIfExpired(d, now);
        }
        rest := rest - {d};
      }
    }

    /** empty_user_trash. */
    method EmptyUserTrash(user: UserId, busy: set<DocumentId>)
      modifies this
      ensures documents ==
        map d | d in old(documents) && (d in busy || !IsTrashOf(old(documents)[d], user)) :: old(documents)[d]
      ensures used.Keys == old(used).Keys && (old(Inv(View())) ==> Inv(View()))
    {
      hide Sum, Balanced;
      var trashed := set d | d in documents && IsTrashOf(documents[d], user);
      var rest := trashed;
      while rest != {}
        invariant rest <= trashed && used.Keys == old(used).Keys && (old(Inv(View())) ==> Inv(View()))
        invariant documents == old(documents) - (trashed - rest - busy)
      {
        var d :| d in rest;
        if d !in busy {
          var found := PermanentlyDeleteTrashed(d, user);
        }
        rest := rest - {d};
      }
    }
  }

  predicate IsTrashOf(document: Document, user: UserId) {
    document.owner == user && document.deletedAt.Some?
  }
}

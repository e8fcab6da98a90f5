/** The tables of batches and documents, and the functions of
    backend/app/services/batch_notifications.py that read and update them. Each
    update is proved to be the step of BatchNotifications it stands for. */
module BatchStore {
  import opened Options
  import opened Sorting
  import opened BatchNotifications
  import Sets

  /** What one notification tells the owner. */
  datatype Notification = Notification(
    batch: BatchId, total: nat, completed: nat, failed: nat, canceled: nat, created: Time, completedAt: Option<Time>)

  predicate CreatedBefore(a: Notification, b: Notification) {
    a.created <= b.created
  }

  function NotificationOf(s: State, b: BatchId): (n: Notification)
    requires b in s.batches
  {
    var counts := Counts(s.documents, b);
    Notification(b, |counts|, counts["completed"], counts["failed"], counts["canceled"],
                 s.batches[b].created, s.batches[b].completed)
  }

  /** The owner's unannounced batches that still have live documents. */
  predicate Pending(s: State, owner: nat, b: BatchId) {
    && b in s.batches && s.batches[b].owner == owner && s.batches[b].notified.None?
    && exists i :: 0 <= i < |s.documents| && Live(s.documents[i], b)
  }

  /** The notification tells how many documents of the batch came to each end. */
  ghost predicate CountsLiveRows(n: Notification, batch: Batch, documents: seq<Document>) {
    && n.completed == |RowsWith(documents, n.batch, "completed")|
    && n.failed == |RowsWith(documents, n.batch, "failed")|
    && n.canceled == |RowsWith(documents, n.batch, "canceled")|
    && n.total == |LiveRows(documents, n.batch)|
    && n.created == batch.created && n.completedAt == batch.completed
  }

  class BatchStore {
    var batches: map<BatchId, Batch>
    var documents: seq<Document>

    function View(): State
      reads this
    {
      State(batches, documents)
    }

    constructor ()
      ensures View() == EMPTY
    {
      batches, documents := map[], [];
    }

    /** claim_batch_notifications: each offered batch is leased and comes back in
        one notification, oldest batch first, whose counts add up. */
    method ClaimBatchNotifications(owner: nat, now: Time) returns (notifications: seq<Notification>, pending: nat)
      modifies this
      ensures View() == Next(old(View()), Claim(owner, now))
      ensures forall b :: (exists n :: n in notifications && n.batch == b) <==> Offers(old(View()), owner, now, b)
      ensures Distinct(notifications) && SortedBy(notifications, CreatedBefore)
      ensures forall n <- notifications ::
        n.batch in batches && n == NotificationOf(View(), n.batch) && n.total == n.completed + n.failed + n.canceled > 0
      ensures forall n <- notifications :: n.batch in batches && CountsLiveRows(n, batches[n.batch], documents)
      ensures pending == |set b | b in batches && Pending(View(), owner, b)| >= |notifications|
    {
      hide Counts, IsFinished, Pending, Offers, Distinct, SortedBy, Tallied, CountsLiveRows;
      var s := View();
      var claimed := set b | b in batches && Offers(s, owner, now, b);
      batches := map b | b in batches :: if b in claimed then Leased(batches[b], now) else batches[b];
      assert batches == ClaimAll(s, owner, now).batches;
      var counts := CountStatuses(claimed);
      var unsorted := Notifications(claimed, counts);
      notifications := OldestFirst(unsorted);
      var waiting := set b | b in batches && Pending(View(), owner, b);
      pending := |waiting|;
      OfferedAreDue(s, View(), owner, now);
      Sets.SubsetSmaller(claimed, waiting);
      CountsAddUp(s, View(), owner, now);
      RowsOfAll(View());
    }

    /** The live documents of the claimed batches, grouped by batch and status. */
    method CountStatuses(claimed: set<BatchId>) returns (counts: map<BatchId, multiset<string>>)
      ensures Tallied(counts, claimed, documents)
    {
      var rows := documents;
      counts := map b | b in claimed :: multiset{};
      for i := 0 to |rows|
        invariant Tallied(counts, claimed, rows[..i])
      {
        var row := rows[i];
        TallyRow(counts, claimed, rows[..i], row);
        assert rows[..i + 1] == rows[..i] + [row];
        hide Tallied, Counts;
        if row.batch.Some? && row.batch.value in claimed && !row.trashed {
          var b := row.batch.value;
          counts := counts[b := counts[b] + multiset{row.status}];
        }
      }
      assert rows[..|rows|] == rows;
    }

    method Notifications(claimed: set<BatchId>, counts: map<BatchId, multiset<string>>)
      returns (notifications: seq<Notification>)
      requires claimed <= batches.Keys && Tallied(counts, claimed, documents)
      ensures |notifications| == |claimed| && Distinct(notifications)
      ensures forall n <- notifications :: n.batch in claimed && n == NotificationOf(View(), n.batch)
      ensures forall b <- claimed :: NotificationOf(View(), b) in notifications
    {
      notifications := [];
      var rest := claimed;
      while rest != {}
        invariant rest <= claimed && |notifications| == |claimed| - |rest| && Distinct(notifications)
        invariant forall n <- notifications :: n.batch in claimed - rest && n == NotificationOf(View(), n.batch)
        invariant forall b <- claimed - rest :: NotificationOf(View(), b) in notifications
      {
        var b :| b in rest;
        var statuses, row := counts[b], batches[b];
        var notification := Notification(b, |statuses|, statuses["completed"], statuses["failed"], statuses["canceled"],
                                         row.created, row.completed);
        assert notification !in notifications;
        notifications := notifications + [notification];
        rest := rest - {b};
      }
    }

    /** acknowledge_batch_notifications. */
    method AcknowledgeBatchNotifications(owner: nat, ids: seq<BatchId>, now: Time) returns (acknowledged: set<BatchId>)
      modifies this
      ensures View() == Next(old(View()), Acknowledge(owner, ids, now))
      ensures forall b :: b in acknowledged <==> Acknowledges(old(View()), owner, ids, b)
    {
      acknowledged := {};
      if ids == [] {
        assert batches == AcknowledgeAll(View(), owner, ids, now).batches;
        return;
      }
      acknowledged := set b | b in batches && Acknowledges(View(), owner, ids, b);
      batches := map b | b in batches :: if b in acknowledged then batches[b].(notified := Some(now)) else batches[b];
    }

    /** seal_batch, of a batch as it was read. */
    method SealBatch(b: BatchId, read: Batch, now: Time)
      requires b in batches
      modifies this
      ensures View() == Next(old(View()), Seal(b, read, now))
      ensures old(batches[b]).sealed.Some? || read.sealed.None? ==> batches[b].sealed.Some?
    {
      if read.sealed.None? {
        batches := batches[b := batches[b].(sealed := Some(now))];
      }
    }

    /** sync_completed_at, told what the progress page read and counted. */
    method SyncCompletedAt(b: BatchId, read: Batch, finished: bool, now: Time)
      requires b in batches
      modifies this
      ensures View() == Next(old(View()), Sync(b, read, finished, now))
      ensures old(batches[b]).completed.Some? == read.completed.Some? ==> batches[b].completed.Some? == finished
    {
      if finished && read.completed.None? {
        batches := batches[b := batches[b].(completed := Some(now))];
      } else if !finished && read.completed.Some? {
        batches := batches[b := batches[b].(completed := None)];
      }
    }

    /** `_get_or_create_batch`, and the write of what it changed in the batch it `read`. */
    method GetOrCreateBatch(owner: nat, b: BatchId, read: Batch, now: Time) returns (found: bool)
      modifies this
      ensures View() == Next(old(View()), Join(owner, b, read, now))
      ensures found <==> Joins(old(View()), Join(owner, b, read, now), b)
      ensures found ==> (batches[b].claimed.None? <==> !old(Overlooks(View(), Join(owner, b, read, now), b)))
    {
      if b !in batches {
        batches := batches[b := Batch(owner, now, None, None, None, None)];
        return true;
      }
      if batches[b].owner != owner {
        return false;
      }
      var batch := batches[b];
      if read.completed.Some? {
        batch := batch.(completed := None);
      }
      if read.sealed.Some? {
        batch := batch.(sealed := None);
      }
      if read.claimed.Some? {
        batch := batch.(claimed := None);
      }
      batches := batches[b := batch];
      return true;
    }
  }

  method OldestFirst(unsorted: seq<Notification>) returns (sorted: seq<Notification>)
    requires Distinct(unsorted)
    ensures Distinct(sorted) && SortedBy(sorted, CreatedBefore) && |sorted| == |unsorted|
    ensures forall n :: n in sorted <==> n in unsorted
  {
    sorted := Sort(unsorted, CreatedBefore);
    SortMembers(unsorted, CreatedBefore);
    SortSorts(unsorted, CreatedBefore);
    SortDistinct(unsorted, CreatedBefore);
  }

  /** What was offered had live documents, all of them final, and is still pending. */
  lemma OfferedAreDue(s: State, t: State, owner: nat, now: Time)
    requires t == ClaimAll(s, owner, now)
    ensures forall b :: Offers(s, owner, now, b) ==>
      && b in s.batches
      && Pending(t, owner, b)
      && IsFinished(Counts(t.documents, b))
  {
    forall b | Offers(s, owner, now, b)
      ensures Pending(t, owner, b) && IsFinished(Counts(t.documents, b))
    {
      OfferedExactlyWhenDue(s, owner, now, b);
      assert Selected(s, b, now);
    }
  }

  lemma RowsOfAll(s: State)
    ensures forall b <- s.batches :: CountsLiveRows(NotificationOf(s, b), s.batches[b], s.documents)
  {
    forall b | b in s.batches
      ensures CountsLiveRows(NotificationOf(s, b), s.batches[b], s.documents)
    {
      CountsAreRows(s.documents, b);
    }
  }

  lemma CountsAddUp(s: State, t: State, owner: nat, now: Time)
    requires t == ClaimAll(s, owner, now)
    ensures forall b :: Offers(s, owner, now, b) ==>
      && b in t.batches
      && var n := NotificationOf(t, b); n.total == n.completed + n.failed + n.canceled > 0
  {
    OfferedAreDue(s, t, owner, now);
  }

  /** The counts of every claimed batch, over these rows. */
  ghost predicate Tallied(counts: map<BatchId, multiset<string>>, claimed: set<BatchId>, documents: seq<Document>) {
    counts.Keys == claimed && forall b <- claimed :: counts[b] == Counts(documents, b)
  }

  lemma TallyRow(counts: map<BatchId, multiset<string>>, claimed: set<BatchId>, documents: seq<Document>, row: Document)
    requires Tallied(counts, claimed, documents)
    ensures counts.Keys == claimed
    ensures if row.batch.Some? && row.batch.value in claimed && !row.trashed then
              Tallied(counts[row.batch.value := counts[row.batch.value] + multiset{row.status}],
                      claimed, documents + [row])
            else Tallied(counts, claimed, documents + [row])
  {
    assert (documents + [row])[..|documents|] == documents;
  }
}

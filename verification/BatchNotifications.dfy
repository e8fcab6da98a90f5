/** Announcing finished upload batches once: backend/app/services/batch_notifications.py,
    and the steps around it (files joining a batch, documents changing status,
    moving to the trash and back) of backend/app/api/v1/endpoints/documents.py.

    Every step carries the clock reading it acts on; nothing is assumed of how the
    readings of different steps compare. Times are seconds, as reals. */
module BatchNotifications {
  import opened Options

  type BatchId = nat
  type Time = real

  const LEASE: Time := 60.0
  const SEAL_TIMEOUT: Time := 600.0

  datatype Batch = Batch(
    owner: nat, created: Time, sealed: Option<Time>, completed: Option<Time>,
    claimed: Option<Time>, notified: Option<Time>)

  datatype Document = Document(batch: Option<BatchId>, status: string, created: Time, trashed: bool)

  /** The table of batches, and the rows of the table of documents. */
  datatype State = State(batches: map<BatchId, Batch>, documents: seq<Document>)

  const EMPTY := State(map[], [])

  /** A claim and an acknowledgement are single updates of the table. `Seal`, `Sync` and
      `Join` have `read` the batch before, without a lock: they write only what differs from
      that, and by then the row may be another. `SetDocument` is any change to a document:
      its status, the trash, or joining a batch after the fact. */
  datatype Step =
    | Claim(owner: nat, now: Time)
    | Acknowledge(owner: nat, ids: seq<BatchId>, now: Time)
    | Seal(batch: BatchId, read: Batch, now: Time)
    | Sync(batch: BatchId, read: Batch, finished: bool, now: Time)
    | Join(owner: nat, batch: BatchId, read: Batch, now: Time)
    | AddDocument(document: Document)
    | SetDocument(row: nat, document: Document)
    | WipeDocument(row: nat)

  // ----- the pure predicates

  predicate IsFinal(status: string) {
    status == "completed" || status == "failed" || status == "canceled"
  }

  /** is_finished, of a number of documents for each status. */
  predicate IsFinished(counts: multiset<string>) {
    |counts| > 0 && counts["completed"] + counts["failed"] + counts["canceled"] == |counts|
  }

  /** is_sealed. */
  predicate IsSealed(batch: Batch, newest: Option<Time>, now: Time) {
    batch.sealed.Some? || (newest.Some? && newest.value <= now - SEAL_TIMEOUT)
  }

  predicate Live(document: Document, b: BatchId) {
    document.batch == Some(b) && !document.trashed
  }

  /** How many live documents of the batch have each status. */
  function Counts(documents: seq<Document>, b: BatchId): multiset<string> {
    if documents == [] then multiset{}
    else
      var rest := Counts(documents[..|documents| - 1], b);
      var last := documents[|documents| - 1];
      if Live(last, b) then rest + multiset{last.status} else rest
  }

  /** When the batch's newest live document was created. */
  function Newest(documents: seq<Document>, b: BatchId): Option<Time> {
    if documents == [] then None
    else
      var rest := Newest(documents[..|documents| - 1], b);
      var last := documents[|documents| - 1];
      if !Live(last, b) then rest
      else if rest.Some? && rest.value >= last.created then rest
      else Some(last.created)
  }

  // ----- the query

  predicate Claimable(batch: Batch, owner: nat, now: Time) {
    && batch.owner == owner
    && batch.notified.None?
    && (batch.claimed.None? || batch.claimed.value <= now - LEASE)
  }

  /** The claim's subquery joins a batch to its live documents, and keeps it if none
      of them is active and it is sealed or all of them are old. */
  predicate Selected(s: State, b: BatchId, now: Time)
    requires b in s.batches
  {
    && (exists i :: 0 <= i < |s.documents| && Live(s.documents[i], b))
    && (forall i :: 0 <= i < |s.documents| && Live(s.documents[i], b) ==> IsFinal(s.documents[i].status))
    && (s.batches[b].sealed.Some?
        || forall i :: 0 <= i < |s.documents| && Live(s.documents[i], b) ==>
                         s.documents[i].created <= now - SEAL_TIMEOUT)
  }

  /** The batches a claim offers. */
  predicate Offers(s: State, owner: nat, now: Time, b: BatchId) {
    b in s.batches && Claimable(s.batches[b], owner, now) && Selected(s, b, now)
  }

  /** Some live document of the batch has this status. */
  ghost predicate HasStatus(documents: seq<Document>, b: BatchId, status: string) {
    exists i :: 0 <= i < |documents| && Live(documents[i], b) && documents[i].status == status
  }

  lemma LastStatus(init: seq<Document>, last: Document, b: BatchId, status: string)
    ensures HasStatus(init + [last], b, status)
        <==> HasStatus(init, b, status) || (Live(last, b) && last.status == status)
  {
    var documents := init + [last];
    assert documents[|init|] == last;
    assert forall i :: 0 <= i < |init| ==> documents[i] == init[i];
  }

  lemma {:induction false} CountsOf(documents: seq<Document>, b: BatchId)
    ensures forall status :: status in Counts(documents, b) <==> HasStatus(documents, b, status)
  {
    if documents != [] {
      var init, last := documents[..|documents| - 1], documents[|documents| - 1];
      CountsOf(init, b);
      assert documents == init + [last];
      forall status
        ensures status in Counts(documents, b) <==> HasStatus(documents, b, status)
      {
        LastStatus(init, last, b, status);
      }
    }
  }

  lemma {:induction false} NewestOf(documents: seq<Document>, b: BatchId)
    ensures Newest(documents, b).None? <==> forall i :: 0 <= i < |documents| ==> !Live(documents[i], b)
    ensures var newest := Newest(documents, b);
            newest.Some? ==>
              && (exists i :: 0 <= i < |documents| && Live(documents[i], b) && documents[i].created == newest.value)
              && (forall i :: 0 <= i < |documents| && Live(documents[i], b) ==> documents[i].created <= newest.value)
  {
    if documents != [] {
      var init, last := documents[..|documents| - 1], documents[|documents| - 1];
      NewestOf(init, b);
      assert forall i :: 0 <= i < |init| ==> init[i] == documents[i];
      assert Live(last, b) ==> Live(documents[|documents| - 1], b);
    }
  }

  /** Every status is final exactly when the three final counts make up the total. */
  lemma {:induction false} FinalCounts(counts: multiset<string>)
    ensures (counts["completed"] + counts["failed"] + counts["canceled"] == |counts|)
        <==> (forall status <- counts :: IsFinal(status))
  {
    var c, f, x := counts["completed"], counts["failed"], counts["canceled"];
    var final: multiset<string> := multiset{}["completed" := c]["failed" := f]["canceled" := x];
    assert |final| == c + f + x;
    assert final <= counts;
    var rest := counts - final;
    assert counts == final + rest;
    assert forall status :: IsFinal(status) ==> rest[status] == 0;
    if rest != multiset{} {
      var status :| status in rest;
      assert status in counts && !IsFinal(status);
    }
  }

  /** A batch is offered exactly when it is claimable and, of its live documents,
      is_finished and is_sealed hold: the query and the predicates agree. */
  lemma {:induction false} OfferedExactlyWhenDue(s: State, owner: nat, now: Time, b: BatchId)
    ensures Offers(s, owner, now, b) <==>
              && b in s.batches
              && Claimable(s.batches[b], owner, now)
              && IsFinished(Counts(s.documents, b))
              && IsSealed(s.batches[b], Newest(s.documents, b), now)
  {
    var counts := Counts(s.documents, b);
    CountsOf(s.documents, b);
    NewestOf(s.documents, b);
    FinalCounts(counts);
    if b in s.batches {
      if |counts| > 0 {
        var status :| status in counts;
      }
      assert forall i :: 0 <= i < |s.documents| && Live(s.documents[i], b) ==> s.documents[i].status in counts;
    }
  }

  /** The rows of the batch that are not in the trash, and those of one status. */
  ghost function LiveRows(documents: seq<Document>, b: BatchId): set<nat> {
    set i: nat | i < |documents| && documents[i].batch == Some(b) && !documents[i].trashed
  }

  ghost function RowsWith(documents: seq<Document>, b: BatchId, status: string): set<nat> {
    set i: nat | i in LiveRows(documents, b) && documents[i].status == status
  }

  /** Each count is the number of rows of that status, and their total that of all rows. */
  lemma {:induction false} CountsAreRows(documents: seq<Document>, b: BatchId)
    ensures forall status :: Counts(documents, b)[status] == |RowsWith(documents, b, status)|
    ensures |Counts(documents, b)| == |LiveRows(documents, b)|
  {
    hide LiveRows, RowsWith;
    if documents == [] {
      NoRows(b);
    } else {
      var init, last := documents[..|documents| - 1], documents[|documents| - 1];
      CountsAreRows(init, b);
      assert documents == init + [last];
      forall status
        ensures Counts(documents, b)[status] == |RowsWith(documents, b, status)|
      {
        RowsOfLonger(init, last, b, status);
      }
      RowsOfLonger(init, last, b, "");
    }
  }

  lemma NoRows(b: BatchId)
    ensures LiveRows([], b) == {} && forall status :: RowsWith([], b, status) == {}
  {
  }

  lemma LongerRows(init: seq<Document>, last: Document)
    ensures var documents := init + [last];
            documents[|init|] == last && forall i :: 0 <= i < |init| ==> documents[i] == init[i]
  {
  }

  lemma RowsOfLonger(init: seq<Document>, last: Document, b: BatchId, status: string)
    ensures |LiveRows(init + [last], b)| == |LiveRows(init, b)| + if Live(last, b) then 1 else 0
    ensures |RowsWith(init + [last], b, status)|
              == |RowsWith(init, b, status)| + if Live(last, b) && last.status == status then 1 else 0
  {
    LongerRows(init, last);
    LiveRowsOfLonger(init, last, init + [last], b);
    RowsWithOfLonger(init, last, init + [last], b, status);
  }

  lemma LiveRowsOfLonger(init: seq<Document>, last: Document, documents: seq<Document>, b: BatchId)
    requires |documents| == |init| + 1 && documents[|init|] == last
    requires forall i :: 0 <= i < |init| ==> documents[i] == init[i]
    ensures |LiveRows(documents, b)| == |LiveRows(init, b)| + if Live(last, b) then 1 else 0
    ensures LiveRows(documents, b) == LiveRows(init, b) + if Live(last, b) then {|init|} else {}
  {
  }

  lemma RowsWithOfLonger(init: seq<Document>, last: Document, documents: seq<Document>, b: BatchId, status: string)
    requires |documents| == |init| + 1 && documents[|init|] == last
    requires forall i :: 0 <= i < |init| ==> documents[i] == init[i]
    ensures |RowsWith(documents, b, status)|
              == |RowsWith(init, b, status)| + if Live(last, b) && last.status == status then 1 else 0
  {
    LiveRowsOfLonger(init, last, documents, b);
    hide LiveRows;
    InRange(init, b);
    assert RowsWith(documents, b, status)
        == RowsWith(init, b, status) + if Live(last, b) && last.status == status then {|init|} else {};
  }

  lemma InRange(documents: seq<Document>, b: BatchId)
    ensures forall i <- LiveRows(documents, b) :: i < |documents|
  {
  }

  /** What the query offers, in terms of the rows: the owner's, not announced, not leased
      in the last minute; with live documents, all of which have come to an end; and sealed,
      or ten minutes after the last of them came. */
  lemma {:induction false} OfferedExactlyFor(s: State, owner: nat, now: Time, b: BatchId)
    ensures Offers(s, owner, now, b) <==>
              && b in s.batches && s.batches[b].owner == owner && s.batches[b].notified.None?
              && (s.batches[b].claimed.Some? ==> now >= s.batches[b].claimed.value + 60.0)
              && LiveRows(s.documents, b) != {}
              && (forall i <- LiveRows(s.documents, b) :: s.documents[i].status in {"completed", "failed", "canceled"})
              && (s.batches[b].sealed.Some?
                  || forall i <- LiveRows(s.documents, b) :: now >= s.documents[i].created + 600.0)
  {
    if b in s.batches {
      assert forall i: nat :: i in LiveRows(s.documents, b) <==> i < |s.documents| && Live(s.documents[i], b);
    }
  }

  // ----- the steps

  /** The claim leases every batch it offers, and dates its completion if no one has. */
  function ClaimAll(s: State, owner: nat, now: Time): State {
    s.(batches := map b | b in s.batches ::
         if Offers(s, owner, now, b) then Leased(s.batches[b], now) else s.batches[b])
  }

  function Leased(batch: Batch, now: Time): Batch {
    batch.(claimed := Some(now), completed := if batch.completed.None? then Some(now) else batch.completed)
  }

  predicate Acknowledges(s: State, owner: nat, ids: seq<BatchId>, b: BatchId) {
    && b in s.batches && b in ids
    && s.batches[b].owner == owner && s.batches[b].notified.None? && s.batches[b].claimed.Some?
  }

  function AcknowledgeAll(s: State, owner: nat, ids: seq<BatchId>, now: Time): State {
    s.(batches := map b | b in s.batches ::
         if Acknowledges(s, owner, ids, b) then s.batches[b].(notified := Some(now)) else s.batches[b])
  }

  function SealOne(s: State, b: BatchId, read: Batch, now: Time): State {
    if b !in s.batches || read.sealed.Some? then s
    else s.(batches := s.batches[b := s.batches[b].(sealed := Some(now))])
  }

  /** sync_completed_at. What the progress page counted may be out of date by now, so
      `finished` is anything. */
  function SyncOne(s: State, b: BatchId, read: Batch, finished: bool, now: Time): State {
    if b !in s.batches || finished == read.completed.Some? then s
    else s.(batches := s.batches[b := s.batches[b].(completed := if finished then Some(now) else None)])
  }

  /** A date that was read as set is cleared. */
  function Cleared(read: Option<Time>, date: Option<Time>): Option<Time> {
    if read.Some? then None else date
  }

  function Rejoined(batch: Batch, read: Batch): Batch {
    batch.(completed := Cleared(read.completed, batch.completed), sealed := Cleared(read.sealed, batch.sealed),
           claimed := Cleared(read.claimed, batch.claimed))
  }

  /** `_get_or_create_batch`: a file is about to join. */
  function JoinOne(s: State, owner: nat, b: BatchId, read: Batch, now: Time): State {
    if b !in s.batches then s.(batches := s.batches[b := Batch(owner, now, None, None, None, None)])
    else if s.batches[b].owner != owner then s
    else s.(batches := s.batches[b := Rejoined(s.batches[b], read)])
  }

  function Next(s: State, step: Step): State {
    match step
    case Claim(owner, now) => ClaimAll(s, owner, now)
    case Acknowledge(owner, ids, now) => AcknowledgeAll(s, owner, ids, now)
    case Seal(b, read, now) => SealOne(s, b, read, now)
    case Sync(b, read, finished, now) => SyncOne(s, b, read, finished, now)
    case Join(owner, b, read, now) => JoinOne(s, owner, b, read, now)
    case AddDocument(document) => s.(documents := s.documents + [document])
    case SetDocument(i, document) =>
      if i < |s.documents| then s.(documents := s.documents[i := document]) else s
    case WipeDocument(i) =>
      if i < |s.documents| then s.(documents := s.documents[..i] + s.documents[i + 1..]) else s
  }

  function Run(s: State, steps: seq<Step>): State {
    if steps == [] then s else Next(Run(s, steps[..|steps| - 1]), steps[|steps| - 1])
  }

  /** Step `k` of the run offers the batch. */
  predicate OfferedAt(s: State, steps: seq<Step>, k: nat, b: BatchId)
    requires k < |steps|
  {
    steps[k].Claim? && Offers(Run(s, steps[..k]), steps[k].owner, steps[k].now, b)
  }

  /** Step `k` of the run announces the batch. */
  predicate AcknowledgedAt(s: State, steps: seq<Step>, k: nat, b: BatchId)
    requires k < |steps|
  {
    steps[k].Acknowledge? && Acknowledges(Run(s, steps[..k]), steps[k].owner, steps[k].ids, b)
  }

  /** A file joins the batch; a stranger's attempt is refused and does not count. */
  predicate Joins(s: State, step: Step, b: BatchId) {
    step.Join? && step.batch == b && (b !in s.batches || s.batches[b].owner == step.owner)
  }

  /** In step `k` of the run a file joins the batch. */
  predicate JoinsAt(s: State, steps: seq<Step>, k: nat, b: BatchId)
    requires k < |steps|
  {
    Joins(Run(s, steps[..k]), steps[k], b)
  }

  // ----- an announced batch

  /** No step forgets a batch, its owner or that it was announced, and only an
      acknowledgement announces. */
  lemma {:induction false} NotifiedStep(s: State, step: Step, b: BatchId)
    requires b in s.batches
    ensures var t := Next(s, step);
            && b in t.batches && t.batches[b].owner == s.batches[b].owner
            && (s.batches[b].notified.Some? ==> t.batches[b].notified == s.batches[b].notified)
            && (s.batches[b].notified.None? ==>
                  (t.batches[b].notified.Some? <==>
                     step.Acknowledge? && Acknowledges(s, step.owner, step.ids, b)))
  {
    hide Offers, Counts, Newest, IsFinished, IsSealed;
  }

  /** `notified_at` is set at most once: over any run it keeps the value it has. */
  lemma {:induction false} AnnouncedForGood(s: State, steps: seq<Step>, b: BatchId)
    requires b in s.batches && s.batches[b].notified.Some?
    ensures var t := Run(s, steps); b in t.batches && t.batches[b].notified == s.batches[b].notified
  {
    if steps != [] {
      AnnouncedForGood(s, steps[..|steps| - 1], b);
      NotifiedStep(Run(s, steps[..|steps| - 1]), steps[|steps| - 1], b);
    }
  }

  /** Once announced, a batch is never offered and never announced again, whatever
      files join it or are reprocessed. */
  lemma {:induction false} AnnouncedOnce(s: State, steps: seq<Step>, i: nat, k: nat, b: BatchId)
    requires i < k < |steps| && AcknowledgedAt(s, steps, i, b)
    ensures !OfferedAt(s, steps, k, b) && !AcknowledgedAt(s, steps, k, b)
  {
    var after := Run(s, steps[..i + 1]);
    hide Next, Offers;
    PrefixStep(s, steps, i);
    NotifiedStep(Run(s, steps[..i]), steps[i], b);
    RunSplit(s, steps[..k], i + 1);
    assert steps[..k][..i + 1] == steps[..i + 1];
    AnnouncedForGood(after, steps[..k][i + 1..], b);
    NotOfferedOnceAnnounced(Run(s, steps[..k]), steps[k], b);
  }

  lemma NotOfferedOnceAnnounced(s: State, step: Step, b: BatchId)
    requires b in s.batches && s.batches[b].notified.Some?
    ensures step.Claim? ==> !Offers(s, step.owner, step.now, b)
    ensures step.Acknowledge? ==> !Acknowledges(s, step.owner, step.ids, b)
  {
  }

  lemma PrefixStep(s: State, steps: seq<Step>, k: nat)
    requires k < |steps|
    ensures Run(s, steps[..k + 1]) == Next(Run(s, steps[..k]), steps[k])
  {
    hide Next;
    assert steps[..k + 1][..k] == steps[..k];
  }

  lemma {:induction false} RunSplit(s: State, steps: seq<Step>, k: nat)
    requires k <= |steps|
    ensures Run(s, steps) == Run(Run(s, steps[..k]), steps[k..])
  {
    hide Next;
    if k == |steps| {
      assert steps[..k] == steps;
    } else {
      var init := steps[..|steps| - 1];
      RunSplit(s, init, k);
      assert init[..k] == steps[..k];
      assert steps[k..][..|steps[k..]| - 1] == init[k..];
    }
  }

  // ----- the lease

  /** A batch leased at `t` or later. */
  predicate LeasedSince(s: State, b: BatchId, t: Time) {
    b in s.batches && s.batches[b].claimed.Some? && s.batches[b].claimed.value >= t
  }

  /** Only a file joining ends a lease early: every other step keeps it, or takes a
      later one. */
  lemma {:induction false} LeaseStep(s: State, step: Step, b: BatchId, t: Time)
    requires LeasedSince(s, b, t) && !Joins(s, step, b)
    ensures LeasedSince(Next(s, step), b, t)
  {
    hide Counts, Newest, IsFinished, IsSealed, Selected;
  }

  lemma LeaseStillHeld(s: State, step: Step, b: BatchId, t: Time)
    requires LeasedSince(s, b, t) && step.Claim? && Offers(s, step.owner, step.now, b)
    ensures step.now >= t + LEASE
  {
    hide Selected;
  }

  lemma {:induction false} LeaseKept(s: State, steps: seq<Step>, b: BatchId, t: Time)
    requires LeasedSince(s, b, t) && forall k :: 0 <= k < |steps| ==> !JoinsAt(s, steps, k, b)
    ensures LeasedSince(Run(s, steps), b, t)
  {
    hide Next, LeasedSince, Joins;
    if steps != [] {
      var init := steps[..|steps| - 1];
      forall k | 0 <= k < |init|
        ensures !JoinsAt(s, init, k, b)
      {
        assert init[..k] == steps[..k];
        assert !JoinsAt(s, steps, k, b);
      }
      LeaseKept(s, init, b, t);
      assert !JoinsAt(s, steps, |steps| - 1, b);
      LeaseStep(Run(s, init), steps[|steps| - 1], b, t);
    }
  }

  lemma OfferLeases(s: State, owner: nat, now: Time, b: BatchId)
    requires Offers(s, owner, now, b)
    ensures LeasedSince(Next(s, Claim(owner, now)), b, now)
  {
    hide Selected;
  }

  lemma Slices<T>(s: seq<T>, a: nat, b: nat, c: nat)
    requires a <= b <= c <= |s|
    ensures s[..b][..a] == s[..a] && s[..b][a..] == s[..c][a..][..b - a]
  {
  }

  /** Two claims that offer the same batch, with no file joining it in between, are
      at least the lease apart, on whatever clocks they read. So two tabs or devices
      asking at about the same time never both get it. */
  lemma {:induction false} LeaseApart(s: State, steps: seq<Step>, i: nat, k: nat, b: BatchId)
    requires i < k < |steps| && OfferedAt(s, steps, i, b) && OfferedAt(s, steps, k, b)
    requires forall m :: i < m < k ==> !JoinsAt(s, steps, m, b)
    ensures steps[k].now >= steps[i].now + LEASE
  {
    hide Next, Offers, LeasedSince, Joins;
    var before := Run(s, steps[..i]);
    OfferLeases(before, steps[i].owner, steps[i].now, b);
    PrefixStep(s, steps, i);
    var between := steps[..k][i + 1..];
    RunSplit(s, steps[..k], i + 1);
    assert steps[..k][..i + 1] == steps[..i + 1];
    var start := Run(s, steps[..i + 1]);
    forall m | 0 <= m < |between|
      ensures !JoinsAt(start, between, m, b)
    {
      RunSplit(s, steps[..i + 1 + m], i + 1);
      Slices(steps, i + 1, i + 1 + m, k);
      assert !JoinsAt(s, steps, i + 1 + m, b);
    }
    LeaseKept(start, between, b, steps[i].now);
    LeaseStillHeld(Run(s, steps[..k]), steps[k], b, steps[i].now);
  }

  /** Offering is live: however the lease was taken, once it has run out the batch is
      offered to its owner again, unless it was announced or runs again. */
  lemma {:induction false} OfferedAgain(s: State, owner: nat, now: Time, later: Time, b: BatchId)
    requires Offers(s, owner, now, b) && later >= now + LEASE
    ensures Offers(Next(s, Claim(owner, now)), owner, later, b)
  {
    var t := Next(s, Claim(owner, now));
    assert t.documents == s.documents && t.batches[b].sealed == s.batches[b].sealed;
    assert Selected(s, b, now);
    forall i | 0 <= i < |t.documents| && Live(t.documents[i], b) && t.batches[b].sealed.None?
      ensures t.documents[i].created <= later - SEAL_TIMEOUT
    {
      assert Live(s.documents[i], b);
    }
    var i :| 0 <= i < |s.documents| && Live(s.documents[i], b);
    assert Live(t.documents[i], b);
    assert Selected(t, b, later);
  }

  /** An offer since which no file has joined. */
  ghost predicate FreshOffer(s: State, steps: seq<Step>, i: nat, b: BatchId) {
    i < |steps| && OfferedAt(s, steps, i, b) && forall m :: i < m < |steps| ==> !JoinsAt(s, steps, m, b)
  }

  /** In step `k` a file joins the batch and leaves its lease, which was taken after the
      batch was read. */
  predicate OverlooksAt(s: State, steps: seq<Step>, k: nat, b: BatchId)
    requires k < |steps|
  {
    JoinsAt(s, steps, k, b) && Overlooks(Run(s, steps[..k]), steps[k], b)
  }

  predicate Overlooks(s: State, step: Step, b: BatchId) {
    step.Join? && b in s.batches && s.batches[b].claimed.Some? && step.read.claimed.None?
  }

  /** The last offer of the batch, with none but such joins since. */
  ghost predicate LastOffer(s: State, steps: seq<Step>, i: nat, b: BatchId) {
    && i < |steps| && OfferedAt(s, steps, i, b)
    && forall m :: i < m < |steps| ==> !OfferedAt(s, steps, m, b) && Respects(s, steps, m, b)
  }

  predicate Respects(s: State, steps: seq<Step>, k: nat, b: BatchId)
    requires k < |steps|
  {
    JoinsAt(s, steps, k, b) ==> OverlooksAt(s, steps, k, b)
  }

  /** A lease comes from the last offer, and no join since has ended it. */
  lemma {:induction false} LeaseFromOffer(steps: seq<Step>, b: BatchId)
    ensures var t := Run(EMPTY, steps);
            b in t.batches && t.batches[b].claimed.Some? ==> exists i: nat :: LastOffer(EMPTY, steps, i, b)
  {
    var t := Run(EMPTY, steps);
    if steps != [] && b in t.batches && t.batches[b].claimed.Some? {
      var init, step := steps[..|steps| - 1], steps[|steps| - 1];
      var before := Run(EMPTY, init);
      if step.Claim? && Offers(before, step.owner, step.now, b) {
        assert LastOffer(EMPTY, steps, |steps| - 1, b);
      } else {
        LeaseTaken(before, step, b);
        LeaseFromOffer(init, b);
        hide Next, Offers, Joins, Overlooks;
        var i: nat :| LastOffer(EMPTY, init, i, b);
        assert init[..i] == steps[..i];
        forall m | i < m < |steps|
          ensures !OfferedAt(EMPTY, steps, m, b) && Respects(EMPTY, steps, m, b)
        {
          if m < |init| {
            assert init[..m] == steps[..m] && !OfferedAt(EMPTY, init, m, b) && Respects(EMPTY, init, m, b);
          }
        }
        assert LastOffer(EMPTY, steps, i, b);
      }
    }
  }

  lemma LeaseTaken(s: State, step: Step, b: BatchId)
    requires b in Next(s, step).batches && Next(s, step).batches[b].claimed.Some?
    requires !(step.Claim? && Offers(s, step.owner, step.now, b))
    ensures b in s.batches && s.batches[b].claimed.Some? && (Joins(s, step, b) ==> Overlooks(s, step, b))
  {
    hide Counts, Newest, IsFinished, IsSealed, Selected;
  }

  /** A join that overlooked the lease, and no offer since. */
  ghost predicate OverlookedSince(s: State, steps: seq<Step>, m: nat, b: BatchId) {
    m < |steps| && OverlooksAt(s, steps, m, b) && forall i :: m < i < |steps| ==> !OfferedAt(s, steps, i, b)
  }

  /** A batch is only announced after it was offered. And when that offer was after the
      last file to join, so that what the owner was told counts every file there was:
      exactly when no join since the last offer overlooked the lease. */
  lemma {:induction false} AnnouncedAfterOffer(steps: seq<Step>, k: nat, b: BatchId)
    requires k < |steps| && AcknowledgedAt(EMPTY, steps, k, b)
    ensures exists i: nat :: i < k && OfferedAt(EMPTY, steps, i, b)
    ensures (exists i: nat :: FreshOffer(EMPTY, steps[..k], i, b))
        <==> !(exists m: nat :: OverlookedSince(EMPTY, steps[..k], m, b))
  {
    var sofar := steps[..k];
    LeaseFromOffer(sofar, b);
    hide Run, Offers, Joins, Overlooks;
    var i: nat :| LastOffer(EMPTY, sofar, i, b);
    assert sofar[..i] == steps[..i] && OfferedAt(EMPTY, steps, i, b);
    if m: nat :| OverlookedSince(EMPTY, sofar, m, b) {
      NotFresh(sofar, m, b);
    } else {
      forall m | i < m < k
        ensures !JoinsAt(EMPTY, sofar, m, b)
      {
        assert Respects(EMPTY, sofar, m, b) && !OverlookedSince(EMPTY, sofar, m, b);
      }
      assert FreshOffer(EMPTY, sofar, i, b);
    }
  }

  lemma NotFresh(steps: seq<Step>, m: nat, b: BatchId)
    requires OverlookedSince(EMPTY, steps, m, b)
    ensures forall i: nat :: !FreshOffer(EMPTY, steps, i, b)
  {
    hide Run, Offers, Joins;
    forall i: nat
      ensures !FreshOffer(EMPTY, steps, i, b)
    {
      assert m < i < |steps| ==> !OfferedAt(EMPTY, steps, i, b);
      assert i == m ==> !OfferedAt(EMPTY, steps, i, b);
    }
  }

  /** Such a run: a file joins on a batch read before it was claimed, and the claim is
      acknowledged all the same. */
  lemma {:induction false} OverlookedJoinIsAnnounced()
    ensures var created, sealed := Batch(0, 0.0, None, None, None, None), Batch(0, 0.0, Some(1.0), None, None, None);
            var steps := [Join(0, 7, created, 0.0), AddDocument(Document(Some(7), "completed", 0.0, false)),
                          Seal(7, created, 1.0), Claim(0, 2.0), Join(0, 7, sealed, 3.0), Acknowledge(0, [7], 4.0)];
            OfferedAt(EMPTY, steps, 3, 7) && OverlooksAt(EMPTY, steps, 4, 7) && AcknowledgedAt(EMPTY, steps, 5, 7)
  {
    var created, sealed := Batch(0, 0.0, None, None, None, None), Batch(0, 0.0, Some(1.0), None, None, None);
    var document := Document(Some(7), "completed", 0.0, false);
    var steps := [Join(0, 7, created, 0.0), AddDocument(document), Seal(7, created, 1.0), Claim(0, 2.0),
                  Join(0, 7, sealed, 3.0), Acknowledge(0, [7], 4.0)];
    var s3 := State(map[7 := sealed], [document]);
    assert Next(Next(Next(EMPTY, steps[0]), steps[1]), steps[2]) == s3;
    assert Live(s3.documents[0], 7);
    assert Offers(s3, 0, 2.0, 7);
    var claimed := sealed.(claimed := Some(2.0), completed := Some(2.0));
    var s4 := Next(s3, steps[3]);
    assert s4.batches[7] == claimed;
    RunOf5(EMPTY, steps);
  }

  lemma RunOf5(s: State, steps: seq<Step>)
    requires |steps| >= 5
    ensures var s3 := Next(Next(Next(s, steps[0]), steps[1]), steps[2]);
            && Run(s, steps[..3]) == s3
            && Run(s, steps[..4]) == Next(s3, steps[3])
            && Run(s, steps[..5]) == Next(Next(s3, steps[3]), steps[4])
  {
    hide Next;
    assert steps[..0] == [];
    PrefixStep(s, steps, 0);
    PrefixStep(s, steps, 1);
    PrefixStep(s, steps, 2);
    PrefixStep(s, steps, 3);
    PrefixStep(s, steps, 4);
  }
}

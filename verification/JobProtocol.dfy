/** The life of processing jobs, one locked transaction at a time: the worker's
    steps (worker/app/tasks/ingestion.py), cancelling and trashing
    (backend/app/services/document_deletion.py, job_progress.py) and reprocessing
    (backend/app/services/reprocess.py).

    A step may be tried in any state and in any order, by any number of workers:
    what is proved holds of every interleaving, duplicate and late steps included. */
module JobProtocol {
  import opened Options
  import PageSelection
  import Sets

  type JobId = nat
  type DocumentId = nat

  datatype Status = Queued | Processing | Completed | Failed | Canceled {
    /** ACTIVE_JOB_STATUSES for jobs, OPEN_PAGE_STATUSES for pages. */
    predicate Active() {
      Queued? || Processing?
    }

    predicate Done() {
      Completed? || Failed?
    }
  }

  datatype Stage = Waiting | Downloading | Preparing | Parsing | Saving | Finished | StageFailed | StageCanceled

  datatype Job = Job(document: DocumentId, status: Status, stage: Stage, pagesProcessed: nat, totalPages: nat)

  /** The rows of a job's pages, by page number. */
  type PageRows = map<nat, Status>

  /** A stored page: its outcome and the job that wrote it. */
  datatype Page = Page(completed: bool, writer: JobId)

  datatype Document = Document(status: Status, pageCount: Option<nat>, pages: map<nat, Page>)

  datatype State = State(jobs: map<JobId, Job>, rows: map<JobId, PageRows>, documents: map<DocumentId, Document>)

  const EMPTY := State(map[], map[], map[])

  datatype PageEvent = Started | PageDone | PageFailed

  /** What a run brings to its last transaction: the number of pages of the file,
      the pages it was asked for, and those that failed. */
  datatype Results = Results(pageCount: nat, target: Option<seq<nat>>, failed: set<nat>)

  datatype Step =
    | AddDocument(document: DocumentId, job: JobId)
    | StartJob(job: JobId)
    | SetStage(job: JobId, stage: Stage)
    | ResetPages(job: JobId, pageCount: nat, target: Option<seq<nat>>)
    | RecordPage(job: JobId, page: nat, event: PageEvent)
    | SaveResults(job: JobId, results: Results)
    | MarkFailed(job: JobId)
    | StopJobs(document: DocumentId)
    | CancelJob(job: JobId)
    | Reprocess(document: DocumentId, latest: Option<JobId>, alive: bool, newJob: JobId)
    | WipeDocument(document: DocumentId)

  /** The steps a worker takes for a job. */
  predicate ByWorkerOf(step: Step, job: JobId) {
    match step
    case StartJob(j) => j == job
    case SetStage(j, _) => j == job
    case ResetPages(j, _, _) => j == job
    case RecordPage(j, _, _) => j == job
    case SaveResults(j, _) => j == job
    case MarkFailed(j) => j == job
    case _ => false
  }

  function WithRow(rows: PageRows, n: nat, status: Status): PageRows {
    rows[n := status]
  }

  function CountDone(rows: PageRows): nat {
    |set n: nat | n in rows && rows[n].Done()|
  }

  /** cancel_open_job_pages. */
  function CancelOpen(rows: PageRows): PageRows {
    map n: nat | n in rows :: if rows[n].Active() then Canceled else rows[n]
  }

  function CanceledJob(job: Job): Job {
    job.(status := Canceled, stage := StageCanceled)
  }

  /** A job the worker may go on with: it exists and was not canceled. */
  predicate Runs(s: State, j: JobId) {
    j in s.jobs && j in s.rows && s.jobs[j].status != Canceled && s.jobs[j].document in s.documents
  }

  function Start(s: State, j: JobId): State {
    if !Runs(s, j) then s
    else
      var job, doc := s.jobs[j], s.documents[s.jobs[j].document];
      s.(jobs := s.jobs[j := job.(status := Processing, stage := Downloading)],
         documents := s.documents[job.document := doc.(status := Processing)])
  }

  function SetStageOf(s: State, j: JobId, stage: Stage): State {
    if !Runs(s, j) then s else s.(jobs := s.jobs[j := s.jobs[j].(stage := stage)])
  }

  function QueuedRows(pages: seq<nat>): PageRows {
    map n: nat | n in pages :: Queued
  }

  function Reset(s: State, j: JobId, pages: seq<nat>): State {
    if !Runs(s, j) then s
    else s.(rows := s.rows[j := QueuedRows(pages)],
            jobs := s.jobs[j := s.jobs[j].(totalPages := |pages|, pagesProcessed := 0, stage := Parsing)])
  }

  function Record(s: State, j: JobId, n: nat, event: PageEvent): State {
    if j !in s.jobs || j !in s.rows || n !in s.rows[j] then s
    else
      var job := s.jobs[j];
      var rows: PageRows := s.rows[j];
      match event
      case Started => if rows[n] != Queued then s else s.(rows := s.rows[j := rows[n := Processing]])
      case _ =>
        if job.status != Processing || !rows[n].Active() then s
        else s.(rows := s.rows[j := rows[n := if event == PageDone then Completed else Failed]],
                jobs := s.jobs[j := job.(pagesProcessed := job.pagesProcessed + 1)])
  }

  /** The pages of the file this run was asked for. */
  predicate IsRunPage(r: Results, n: nat) {
    1 <= n <= r.pageCount && (r.target.None? || n in r.target.value)
  }

  /** Stored pages the run deletes: all of them, or the listed ones. */
  predicate Replaces(r: Results, n: nat) {
    r.target.None? || n in r.target.value
  }

  function NewPages(r: Results, j: JobId): map<nat, Page> {
    map n: nat | 1 <= n <= r.pageCount && IsRunPage(r, n) :: NewPage(r, j, n)
  }

  function NewPage(r: Results, j: JobId, n: nat): Page {
    Page(n !in r.failed, j)
  }

  function PagesAfter(pages: map<nat, Page>, r: Results, j: JobId): map<nat, Page> {
    (map n: nat | n in pages && !Replaces(r, n) :: pages[n]) + NewPages(r, j)
  }

  function RowsAfter(rows: PageRows, r: Results): PageRows {
    map n: nat | n in rows :: if IsRunPage(r, n) then if n in r.failed then Failed else Completed else rows[n]
  }

  function Attempted(r: Results): nat {
    if r.target.Some? then |r.target.value| else r.pageCount
  }

  /** Every attempted page failed; attempting nothing is no failure. */
  predicate RunFailed(r: Results) {
    Attempted(r) > 0 && Attempted(r) == |r.failed|
  }

  predicate AnyCompleted(pages: map<nat, Page>) {
    exists n: nat :: n in pages && pages[n].completed
  }

  function Save(s: State, j: JobId, r: Results): State {
    if !Runs(s, j) then s
    else
      var job, doc := s.jobs[j], s.documents[s.jobs[j].document];
      var rows, pages := RowsAfter(s.rows[j], r), PagesAfter(doc.pages, r, j);
      s.(rows := s.rows[j := rows],
         jobs := s.jobs[j := job.(pagesProcessed := CountDone(rows),
                                  status := if RunFailed(r) then Failed else Completed,
                                  stage := if RunFailed(r) then StageFailed else Finished)],
         documents := s.documents[job.document :=
           Document(if AnyCompleted(pages) then Completed else Failed, Some(r.pageCount), pages)])
  }

  function Fail(s: State, j: JobId): State {
    if !Runs(s, j) then s
    else
      var job, doc := s.jobs[j], s.documents[s.jobs[j].document];
      s.(jobs := s.jobs[j := job.(status := Failed, stage := StageFailed)],
         documents := s.documents[job.document := doc.(status := Failed)])
  }

  predicate Stops(s: State, d: DocumentId, j: JobId) {
    j in s.jobs && s.jobs[j].document == d && s.jobs[j].status.Active()
  }

  /** `_stop_unfinished_jobs`: every unfinished job of the document is canceled,
      with its open pages. */
  function Stop(s: State, d: DocumentId): State {
    if d !in s.documents then s
    else
      var doc := s.documents[d];
      s.(jobs := map j: nat | j in s.jobs ::
           if Stops(s, d, j) then CanceledJob(s.jobs[j]) else s.jobs[j],
         rows := map j: nat | j in s.rows :: if Stops(s, d, j) then CancelOpen(s.rows[j]) else s.rows[j],
         documents := s.documents[d := if doc.status.Active() then doc.(status := Canceled) else doc])
  }

  /** The cancel endpoint, for the document's latest job. */
  function Cancel(s: State, j: JobId): State {
    if !Runs(s, j) || !s.jobs[j].status.Active() then s
    else
      var job, doc := s.jobs[j], s.documents[s.jobs[j].document];
      s.(jobs := s.jobs[j := CanceledJob(job)],
         rows := s.rows[j := CancelOpen(s.rows[j])],
         documents := s.documents[job.document := doc.(status := Canceled)])
  }

  function CompletedPages(doc: Document): set<nat> {
    set n: nat | n in doc.pages && doc.pages[n].completed
  }

  /** Whether reprocessing covers the unfinished pages only: reprocess_scope, for a
      latest job that is not alive. */
  predicate CoversUnfinished(doc: Document, latestActive: bool) {
    || latestActive || doc.status.Active() || doc.status == Failed
    || (doc.status == Completed && doc.pageCount.Some? && |CompletedPages(doc)| < doc.pageCount.value)
  }

  function PagesToQueue(doc: Document, latestActive: bool): nat {
    match doc.pageCount
    case None => 0
    case Some(count) =>
      if CoversUnfinished(doc, latestActive)
      then |PageSelection.Numbers(count, PageSelection.Unfinished(CompletedPages(doc)))|
      else count
  }

  /** The locked part of reprocess_document: refused while the latest job is alive;
      a latest job that is active but silent is marked failed; then a job is added. */
  function Requeue(s: State, d: DocumentId, latest: Option<JobId>, alive: bool, newJob: JobId): State {
    if d !in s.documents || newJob in s.jobs || newJob in s.rows then s
    else if latest.Some? && (latest.value !in s.jobs || s.jobs[latest.value].document != d) then s
    else
      var active := latest.Some? && s.jobs[latest.value].status.Active();
      if active && alive then s
      else
        var doc := s.documents[d];
        var jobs := if active then s.jobs[latest.value := s.jobs[latest.value].(status := Failed)] else s.jobs;
        State(jobs[newJob := Job(d, Queued, Waiting, 0, PagesToQueue(doc, active))],
              s.rows[newJob := map[]],
              s.documents[d := doc.(status := Queued)])
  }

  predicate BelongsTo(s: State, j: JobId, d: DocumentId) {
    j in s.jobs && s.jobs[j].document == d
  }

  function Wipe(s: State, d: DocumentId): State {
    State(map j: nat | j in s.jobs && !BelongsTo(s, j, d) :: s.jobs[j],
          map j: nat | j in s.rows && !BelongsTo(s, j, d) :: s.rows[j],
          s.documents - {d})
  }

  function Add(s: State, d: DocumentId, j: JobId): State {
    if d in s.documents || j in s.jobs || j in s.rows then s
    else State(s.jobs[j := Job(d, Queued, Waiting, 0, 0)], s.rows[j := map[]],
               s.documents[d := Document(Queued, None, map[])])
  }

  function Next(s: State, step: Step): State {
    match step
    case AddDocument(d, j) => Add(s, d, j)
    case StartJob(j) => Start(s, j)
    case SetStage(j, stage) => SetStageOf(s, j, stage)
    case ResetPages(j, count, target) => Reset(s, j, PageSelection.RunPages(count, target))
    case RecordPage(j, n, event) => Record(s, j, n, event)
    case SaveResults(j, r) => Save(s, j, r)
    case MarkFailed(j) => Fail(s, j)
    case StopJobs(d) => Stop(s, d)
    case CancelJob(j) => Cancel(s, j)
    case Reprocess(d, latest, alive, newJob) => Requeue(s, d, latest, alive, newJob)
    case WipeDocument(d) => Wipe(s, d)
  }

  function Run(s: State, steps: seq<Step>): State {
    if steps == [] then s else Next(Run(s, steps[..|steps| - 1]), steps[|steps| - 1])
  }

  // ----- what every step keeps

  ghost predicate JobInv(s: State, j: JobId)
    requires j in s.jobs && j in s.rows
  {
    var job, rows := s.jobs[j], s.rows[j];
    && job.document in s.documents
    && job.pagesProcessed == CountDone(rows)
    && (rows == map[] || |rows| == job.totalPages)
    && (job.status == Canceled ==> forall n <- rows :: !rows[n].Active())
  }

  ghost predicate Inv(s: State) {
    && s.rows.Keys == s.jobs.Keys
    && forall j <- s.jobs :: JobInv(s, j)
  }

  /** Rows with the same finished pages have the same count. */
  lemma SameDone(a: PageRows, b: PageRows)
    requires forall n: nat :: (n in a && a[n].Done()) <==> (n in b && b[n].Done())
    ensures CountDone(a) == CountDone(b)
  {
    assert (set n: nat | n in a && a[n].Done()) == (set n: nat | n in b && b[n].Done());
  }

  lemma OneMoreDone(a: PageRows, n: nat, status: Status)
    requires n in a && !a[n].Done() && status.Done()
    ensures CountDone(a[n := status]) == CountDone(a) + 1
  {
    var b := a[n := status];
    var before := set m: nat | m in a && a[m].Done();
    var after := set m: nat | m in b && b[m].Done();
    assert after == before + {n};
  }

  lemma DoneAtMostAll(rows: PageRows)
    ensures CountDone(rows) <= |rows|
  {
    var done := set n: nat | n in rows && rows[n].Done();
    Sets.SubsetSmaller(done, rows.Keys);
  }

  lemma SameKeysSameSize(a: PageRows, b: PageRows)
    requires a.Keys == b.Keys
    ensures |a| == |b|
  {
    assert |a| == |a.Keys| && |b| == |b.Keys|;
  }

  lemma QueuedRowsSize(pages: seq<nat>)
    requires PageSelection.Increasing(pages)
    ensures |QueuedRows(pages)| == |pages| && CountDone(QueuedRows(pages)) == 0
  {
    var rows := QueuedRows(pages);
    assert rows.Keys == Sets.Elements(pages);
    Sets.DistinctSize(pages);
    assert (set n: nat | n in rows && rows[n].Done()) == {};
  }

  lemma CancelOpenCounts(rows: PageRows)
    ensures CancelOpen(rows).Keys == rows.Keys && |CancelOpen(rows)| == |rows|
    ensures CountDone(CancelOpen(rows)) == CountDone(rows)
    ensures CancelOpen(rows) == map[] <==> rows == map[]
    ensures forall n <- rows :: !CancelOpen(rows)[n].Active()
  {
    SameDone(CancelOpen(rows), rows);
    SameKeysSameSize(CancelOpen(rows), rows);
    assert CancelOpen(rows).Keys == rows.Keys;
  }

  /** A step that touches one job keeps the invariant if that job keeps its part. */
  lemma OneJobChanged(s: State, t: State, j: JobId)
    requires Inv(s) && j in s.jobs && j in t.jobs && j in t.rows && JobInv(t, j)
    requires t.jobs == s.jobs[j := t.jobs[j]] && t.rows == s.rows[j := t.rows[j]]
    requires t.documents.Keys == s.documents.Keys
    ensures Inv(t)
  {
    hide CountDone;
    forall k | k in t.jobs
      ensures JobInv(t, k)
    {
      if k != j {
        assert JobInv(s, k);
      }
    }
  }

  lemma ResetKeepsInv(s: State, j: JobId, pages: seq<nat>)
    requires Inv(s) && Runs(s, j) && PageSelection.Increasing(pages)
    ensures Inv(Reset(s, j, pages))
  {
    hide CountDone;
    QueuedRowsSize(pages);
    OneJobChanged(s, Reset(s, j, pages), j);
  }

  lemma RecordKeepsInv(s: State, j: JobId, n: nat, event: PageEvent)
    requires Inv(s)
    ensures Inv(Record(s, j, n, event))
  {
    hide CountDone;
    var t := Record(s, j, n, event);
    if t != s {
      var rows: PageRows := s.rows[j];
      assert JobInv(s, j);
      SameKeysSameSize(rows, t.rows[j]);
      if event == Started {
        SameDone(rows, t.rows[j]);
      } else {
        OneMoreDone(rows, n, if event == PageDone then Completed else Failed);
      }
      OneJobChanged(s, t, j);
    }
  }

  lemma SaveKeepsInv(s: State, j: JobId, r: Results)
    requires Inv(s) && Runs(s, j)
    ensures Inv(Save(s, j, r))
  {
    hide CountDone;
    var t := Save(s, j, r);
    assert JobInv(s, j);
    SameKeysSameSize(s.rows[j], t.rows[j]);
    OneJobChanged(s, t, j);
  }

  lemma CancelKeepsInv(s: State, j: JobId)
    requires Inv(s) && Runs(s, j)
    ensures Inv(Cancel(s, j))
  {
    hide CountDone;
    var t := Cancel(s, j);
    if t != s {
      assert JobInv(s, j);
      CancelOpenCounts(s.rows[j]);
      OneJobChanged(s, t, j);
    }
  }

  lemma StopKeepsInv(s: State, d: DocumentId)
    requires Inv(s)
    ensures Inv(Stop(s, d))
  {
    hide CountDone;
    var t := Stop(s, d);
    forall j | j in t.jobs
      ensures JobInv(t, j)
    {
      assert JobInv(s, j);
      CancelOpenCounts(s.rows[j]);
    }
  }

  lemma RequeueKeepsInv(s: State, d: DocumentId, latest: Option<JobId>, alive: bool, newJob: JobId)
    requires Inv(s)
    ensures Inv(Requeue(s, d, latest, alive, newJob))
  {
    var t := Requeue(s, d, latest, alive, newJob);
    NoRows();
    hide CountDone, PagesToQueue;
    forall j | j in t.jobs
      ensures JobInv(t, j)
    {
      if j in s.jobs {
        assert JobInv(s, j);
      }
    }
  }

  lemma AddKeepsInv(s: State, d: DocumentId, j: JobId)
    requires Inv(s)
    ensures Inv(Add(s, d, j))
  {
    NoRows();
    hide CountDone;
    var t := Add(s, d, j);
    forall k | k in t.jobs
      ensures JobInv(t, k)
    {
      if k in s.jobs {
        assert JobInv(s, k);
      }
    }
  }

  lemma NoRows()
    ensures CountDone(map[]) == 0
  {
    var none: PageRows := map[];
    assert (set n: nat | n in none && none[n].Done()) == {};
  }

  lemma WipeKeepsInv(s: State, d: DocumentId)
    requires Inv(s)
    ensures Inv(Wipe(s, d))
  {
    hide CountDone;
    var t := Wipe(s, d);
    forall j | j in t.jobs
      ensures JobInv(t, j)
    {
      assert JobInv(s, j);
    }
  }

  /** Every step keeps the invariant. */
  lemma {:induction false} NextKeepsInv(s: State, step: Step)
    requires Inv(s)
    ensures Inv(Next(s, step))
  {
    hide CountDone, JobInv;
    match step
    case ResetPages(j, count, target) =>
      PageSelection.NumbersAre(count, PageSelection.Targeted(target));
      if Runs(s, j) {
        ResetKeepsInv(s, j, PageSelection.RunPages(count, target));
      }
    case RecordPage(j, n, event) => RecordKeepsInv(s, j, n, event);
    case SaveResults(j, r) =>
      if Runs(s, j) {
        SaveKeepsInv(s, j, r);
      }
    case StopJobs(d) => StopKeepsInv(s, d);
    case CancelJob(j) =>
      if Runs(s, j) {
        CancelKeepsInv(s, j);
      }
    case AddDocument(d, j) => AddKeepsInv(s, d, j);
    case StartJob(j) => StatusKeepsInv(s, Start(s, j), j);
    case SetStage(j, stage) => StatusKeepsInv(s, SetStageOf(s, j, stage), j);
    case MarkFailed(j) => StatusKeepsInv(s, Fail(s, j), j);
    case Reprocess(d, latest, alive, newJob) => RequeueKeepsInv(s, d, latest, alive, newJob);
    case WipeDocument(d) => WipeKeepsInv(s, d);
  }

  lemma StatusKeepsInv(s: State, t: State, j: JobId)
    requires Inv(s) && t.rows == s.rows && t.documents.Keys == s.documents.Keys
    requires t == s || (j in s.jobs && j in t.jobs && t.jobs == s.jobs[j := t.jobs[j]]
                        && t.jobs[j].status != Canceled
                        && t.jobs[j] == s.jobs[j].(status := t.jobs[j].status, stage := t.jobs[j].stage))
    ensures Inv(t)
  {
    hide CountDone;
    if t != s {
      assert JobInv(s, j);
      OneJobChanged(s, t, j);
    }
  }

  /** So it holds in every reachable state: the counter of processed pages is the
      number of that job's pages that are completed or failed, it never exceeds the
      total, and a canceled job has no open page. */
  lemma {:induction false} ReachableInv(steps: seq<Step>)
    ensures Inv(Run(EMPTY, steps))
  {
    if steps != [] {
      ReachableInv(steps[..|steps| - 1]);
      NextKeepsInv(Run(EMPTY, steps[..|steps| - 1]), steps[|steps| - 1]);
    }
  }

  lemma {:induction false} ProcessedNeverExceedsTotal(steps: seq<Step>, j: JobId)
    ensures var s := Run(EMPTY, steps);
            j in s.jobs ==>
              && j in s.rows && s.jobs[j].pagesProcessed == CountDone(s.rows[j]) <= s.jobs[j].totalPages
              && (s.jobs[j].status == Canceled ==> forall n <- s.rows[j] :: !s.rows[j][n].Active())
  {
    ReachableInv(steps);
    var s := Run(EMPTY, steps);
    if j in s.jobs {
      assert JobInv(s, j);
      DoneAtMostAll(s.rows[j]);
      NoRows();
    }
  }

  // ----- a canceled job stays canceled

  /** What the job wrote in its document. */
  function Written(s: State, j: JobId): set<(DocumentId, nat)> {
    set d, n | d in s.documents && n in s.documents[d].pages && s.documents[d].pages[n].writer == j :: (d, n)
  }

  /** The worker's steps for a canceled job change nothing at all: no status, no
      page row, no stored page. */
  lemma {:induction false} CanceledRunDoesNothing(s: State, step: Step, j: JobId)
    requires Inv(s) && j in s.jobs && s.jobs[j].status == Canceled && ByWorkerOf(step, j)
    ensures Next(s, step) == s
  {
    assert JobInv(s, j);
  }

  /** One step later a canceled job is still canceled and its page rows are what
      they were, unless the document was wiped; and no page was written for it. */
  lemma CanceledStep(s: State, step: Step, j: JobId)
    requires Inv(s) && j in s.jobs && s.jobs[j].status == Canceled
    ensures var t := Next(s, step);
            && (j in t.jobs ==> t.jobs[j].status == Canceled && j in t.rows && t.rows[j] == s.rows[j])
            && Written(t, j) <= Written(s, j)
            && forall d, n :: (d, n) in Written(t, j) ==> t.documents[d].pages[n] == s.documents[d].pages[n]
  {
    NextKeepsInv(s, step);
    var t := Next(s, step);
    if ByWorkerOf(step, j) {
      CanceledRunDoesNothing(s, step, j);
    } else {
      assert JobInv(s, j);
      StatusKept(s, step, j);
      if step.SaveResults? {
        OthersPagesKept(s, step.job, step.results, j);
      } else {
        PagesKept(s, step);
        hide Next;
      }
    }
  }

  lemma StatusKept(s: State, step: Step, j: JobId)
    requires Inv(s) && j in s.jobs && s.jobs[j].status == Canceled && !ByWorkerOf(step, j)
    ensures var t := Next(s, step);
            j in t.jobs ==> t.jobs[j].status == Canceled && j in t.rows && t.rows[j] == s.rows[j]
  {
    hide CountDone, RunFailed, AnyCompleted, PagesToQueue, RowsAfter, PagesAfter, CancelOpen, QueuedRows,
         CoversUnfinished, CompletedPages, Inv, JobInv;
    JobInvOf(s, j);
  }

  /** Only saving results touches stored pages. */
  lemma PagesKept(s: State, step: Step)
    requires !step.SaveResults?
    ensures forall d <- Next(s, step).documents ::
              || Next(s, step).documents[d].pages == map[]
              || (d in s.documents && Next(s, step).documents[d].pages == s.documents[d].pages)
  {
    hide CountDone, RunFailed, AnyCompleted, PagesToQueue, RowsAfter, PagesAfter, CancelOpen;
  }

  /** Saving one job's results writes no page for another job. */
  lemma OthersPagesKept(s: State, k: JobId, r: Results, j: JobId)
    requires j != k
    ensures var t := Save(s, k, r);
            && Written(t, j) <= Written(s, j)
            && forall d, n :: (d, n) in Written(t, j) ==> t.documents[d].pages[n] == s.documents[d].pages[n]
  {
    hide CountDone, RunFailed, AnyCompleted;
  }

  /** The steps that bring a job into being; job ids are never used twice. */
  predicate Creates(step: Step, j: JobId) {
    match step
    case AddDocument(_, k) => k == j
    case Reprocess(_, _, _, k) => k == j
    case _ => false
  }

  /** Over any run from a state where the job is canceled: it never becomes anything
      else, its page rows never change, and no stored page is written for it. */
  lemma {:induction false} CanceledForever(s: State, steps: seq<Step>, j: JobId)
    requires Inv(s) && j in s.jobs && s.jobs[j].status == Canceled
    requires forall k :: 0 <= k < |steps| ==> !Creates(steps[k], j)
    ensures var t := Run(s, steps);
            && Inv(t)
            && (j in t.jobs ==> t.jobs[j].status == Canceled && j in t.rows && t.rows[j] == s.rows[j])
            && Written(t, j) <= Written(s, j)
            && forall d, n :: (d, n) in Written(t, j) ==> t.documents[d].pages[n] == s.documents[d].pages[n]
  {
    if steps != [] {
      var init, step := steps[..|steps| - 1], steps[|steps| - 1];
      CanceledForever(s, init, j);
      var t := Run(s, init);
      NextKeepsInv(t, step);
      hide Next, CountDone, JobInv, Inv, Written;
      if j in t.jobs {
        CanceledStep(t, step, j);
      } else {
        GoneStep(t, step, j);
      }
    }
  }

  /** A job that is gone stays gone. */
  lemma GoneStep(s: State, step: Step, j: JobId)
    requires Inv(s) && j !in s.jobs && !Creates(step, j)
    ensures var t := Next(s, step);
            && j !in t.jobs
            && Written(t, j) <= Written(s, j)
            && forall d, n :: (d, n) in Written(t, j) ==> t.documents[d].pages[n] == s.documents[d].pages[n]
  {
    hide CountDone, RunFailed, AnyCompleted, PagesToQueue;
    match step
    case SaveResults(k, r) =>
      if k != j {
        OthersPagesKept(s, k, r, j);
      }
    case _ =>
  }

  /** Trashing a document cancels its unfinished jobs for good. */
  lemma {:induction false} StoppedForever(s: State, d: DocumentId, steps: seq<Step>, j: JobId)
    requires Inv(s) && d in s.documents && Stops(s, d, j)
    requires forall k :: 0 <= k < |steps| ==> !Creates(steps[k], j)
    ensures var t := Run(Stop(s, d), steps);
            && (j in t.jobs ==> t.jobs[j].status == Canceled)
            && Written(t, j) <= Written(s, j)
  {
    NextKeepsInv(s, StopJobs(d));
    CanceledForever(Stop(s, d), steps, j);
    assert Written(Stop(s, d), j) <= Written(s, j);
  }

  // ----- progress

  const TERMINAL := {Completed, Failed, Canceled}

  /** progress_percent. */
  function ProgressPercent(status: Status, total: int, finished: int): int {
    if status in TERMINAL then 100
    else if total <= 0 then 0
    else
      var percent := 100 * finished / total;
      if percent < 0 then 0 else if percent > 100 then 100 else percent
  }

  function ProgressOf(s: State, j: JobId): int
    requires j in s.jobs && j in s.rows
  {
    ProgressPercent(s.jobs[j].status, s.jobs[j].totalPages, CountDone(s.rows[j]))
  }

  lemma {:induction false} MoreDoneMorePercent(status: Status, total: nat, a: nat, b: nat)
    requires a <= b
    ensures 0 <= ProgressPercent(status, total, a) <= ProgressPercent(status, total, b) <= 100
  {
    if total > 0 {
      assert 100 * a / total <= 100 * b / total by {
        DivisionMonotone(100 * a, 100 * b, total);
      }
    }
  }

  /** The percentage of an unfinished job is the share of its pages that are done, rounded
      down; a finished one is at 100. */
  lemma {:induction false} ProgressIsShare(status: Status, total: nat, finished: nat)
    requires finished <= total
    ensures var percent := ProgressPercent(status, total, finished);
            if status != Queued && status != Processing then percent == 100
            else if total == 0 then percent == 0
            else percent * total <= 100 * finished < (percent + 1) * total
  {
    if total > 0 {
      Share(100 * finished, total, 100);
    }
  }

  lemma Share(x: nat, d: nat, most: nat)
    requires d > 0 && x <= most * d
    ensures 0 <= x / d <= most && x / d * d <= x < (x / d + 1) * d
  {
    DivisionMonotone(x, most * d, d);
    assert most * d / d == most by {
      TimesOver(most, d);
    }
    assert x == x / d * d + x % d;
  }

  lemma TimesOver(a: nat, d: nat)
    requires d > 0
    ensures a * d / d == a
  {
    var q := a * d / d;
    assert a * d == q * d + a * d % d;
    if q < a {
      MoreTimes(q, a, d);
    }
    if a < q {
      MoreTimes(a, q, d);
    }
  }

  lemma DivisionMonotone(x: nat, y: nat, d: nat)
    requires x <= y && d > 0
    ensures x / d <= y / d
  {
    var q, r := x / d, y / d;
    assert x == q * d + x % d && y == r * d + y % d;
    if q > r {
      MoreTimes(r, q, d);
    }
  }

  lemma MoreTimes(a: int, b: int, d: nat)
    requires a < b
    ensures a * d + d <= b * d
  {
    assert b * d == a * d + d + (b - a - 1) * d;
  }

  /** The steps after which a job's progress may start over: the worker taking the
      job up, and setting up its page rows. */
  predicate StartsOver(step: Step, j: JobId) {
    step == StartJob(j) || (step.ResetPages? && step.job == j)
  }

  /** Any other step leaves the job finished, or unfinished with no fewer pages done. */
  lemma CountStep(s: State, step: Step, j: JobId)
    requires Inv(s) && j in s.jobs && !StartsOver(step, j) && j in Next(s, step).jobs
    ensures var job, job' := s.jobs[j], Next(s, step).jobs[j];
            || job'.status in TERMINAL
            || (job.status !in TERMINAL && job'.totalPages == job.totalPages
                && job'.pagesProcessed >= job.pagesProcessed)
  {
    hide CountDone, RunFailed, AnyCompleted, PagesToQueue, RowsAfter, PagesAfter, CancelOpen, QueuedRows,
         CoversUnfinished, CompletedPages, Inv, JobInv;
    JobInvOf(s, j);
  }

  lemma JobInvOf(s: State, j: JobId)
    requires Inv(s) && j in s.jobs
    ensures j in s.rows && s.jobs[j].document in s.documents && s.jobs[j].pagesProcessed == CountDone(s.rows[j])
  {
    assert JobInv(s, j);
  }

  /** No other step takes progress back, whoever takes it. */
  lemma {:induction false} ProgressStep(s: State, step: Step, j: JobId)
    requires Inv(s) && j in s.jobs && !StartsOver(step, j)
    ensures var t := Next(s, step);
            j in t.jobs ==>
              && j in s.rows && j in t.rows
              && 0 <= ProgressOf(s, j) <= ProgressOf(t, j) <= 100
  {
    NextKeepsInv(s, step);
    var t := Next(s, step);
    if j in t.jobs {
      CountStep(s, step, j);
      assert JobInv(s, j) && JobInv(t, j);
      hide CountDone, Next;
      MoreDoneMorePercent(s.jobs[j].status, s.jobs[j].totalPages, s.jobs[j].pagesProcessed, s.jobs[j].pagesProcessed);
      if t.jobs[j].status !in TERMINAL {
        MoreDoneMorePercent(t.jobs[j].status, t.jobs[j].totalPages, s.jobs[j].pagesProcessed, t.jobs[j].pagesProcessed);
      }
    }
  }

  /** Over any run in which the worker does not start the job over, progress stays
      within 0 and 100, never goes back, and stands at 100 once the job is finished. */
  lemma {:induction false} ProgressNeverGoesBack(s: State, steps: seq<Step>, j: JobId)
    requires Inv(s) && j in s.jobs
    requires forall k :: 0 <= k < |steps| ==> !StartsOver(steps[k], j) && !Creates(steps[k], j)
    ensures var t := Run(s, steps);
            && Inv(t)
            && (j in t.jobs ==>
                  && j in s.rows && j in t.rows
                  && 0 <= ProgressOf(s, j) <= ProgressOf(t, j) <= 100
                  && (t.jobs[j].status in TERMINAL ==> ProgressOf(t, j) == 100))
  {
    hide CountDone, Next;
    if steps == [] {
      assert JobInv(s, j);
      MoreDoneMorePercent(s.jobs[j].status, s.jobs[j].totalPages, s.jobs[j].pagesProcessed, s.jobs[j].pagesProcessed);
    } else {
      var init, step := steps[..|steps| - 1], steps[|steps| - 1];
      ProgressNeverGoesBack(s, init, j);
      var t := Run(s, init);
      NextKeepsInv(t, step);
      if j in t.jobs {
        ProgressStep(t, step, j);
      } else {
        GoneStep(t, step, j);
      }
    }
  }

  /** A saved run ends at 100, and so does one that failed. */
  lemma {:induction false} SavedRunIsComplete(s: State, j: JobId, r: Results)
    requires Inv(s) && Runs(s, j)
    ensures var t := Save(s, j, r);
            && j in t.jobs && j in t.rows && ProgressOf(t, j) == 100
            && (t.jobs[j].status == Completed || t.jobs[j].status == Failed)
    ensures var t := Fail(s, j); j in t.jobs && j in t.rows && ProgressOf(t, j) == 100
  {
    assert JobInv(s, j);
    hide CountDone;
  }

  /** What saving stores: the pages the run was asked for, as they came out, and
      nothing else changes; the document is completed if any page it has is. */
  lemma {:induction false} SaveReplacesTargetedPages(s: State, j: JobId, r: Results, n: nat)
    requires Runs(s, j)
    ensures var d := s.jobs[j].document;
            var before, after := s.documents[d].pages, Save(s, j, r).documents[d].pages;
            && (IsRunPage(r, n) ==> n in after && after[n] == Page(n !in r.failed, j))
            && (!Replaces(r, n) ==> (n in after <==> n in before) && (n in before ==> after[n] == before[n]))
            && (Replaces(r, n) && !IsRunPage(r, n) ==> n !in after)
            && (Save(s, j, r).documents[d].status == Completed <==> AnyCompleted(after))
  {
    hide CountDone, RunFailed, AnyCompleted, RowsAfter;
  }

  // ----- how a run comes out

  /** The pages of the file that this run was to process. */
  ghost function RunPagesOf(r: Results): set<nat> {
    set n: nat | 1 <= n <= r.pageCount && (r.target.None? || n in r.target.value)
  }

  /** The run was given all pages or a list such as reprocessing sends, and the pages that
      failed are pages of it. */
  ghost predicate IsRunOf(r: Results) {
    (r.target.Some? ==> PageSelection.LinesUp(r.pageCount, r.target.value)) && r.failed <= RunPagesOf(r)
  }

  lemma {:induction false} AllNumbers(n: nat)
    ensures |PageSelection.Numbers(n, PageSelection.Targeted(None))| == n
  {
    if n > 0 {
      AllNumbers(n - 1);
    }
  }

  lemma AttemptedIs(r: Results)
    requires IsRunOf(r)
    ensures Attempted(r) == |RunPagesOf(r)|
  {
    hide RunPagesOf, PageSelection.Numbers, PageSelection.LinesUp;
    RunPagesListed(r);
    match r.target {
      case None => AllNumbers(r.pageCount);
      case Some(list) => PageSelection.TasksLineUp(r.pageCount, list);
    }
  }

  lemma RunPagesListed(r: Results)
    ensures |RunPagesOf(r)| == |PageSelection.RunPages(r.pageCount, r.target)|
  {
    hide PageSelection.Numbers;
    var pages := PageSelection.RunPages(r.pageCount, r.target);
    PageSelection.NumbersAre(r.pageCount, PageSelection.Targeted(r.target));
    Sets.DistinctSize(pages);
    assert Sets.Elements(pages) == RunPagesOf(r);
  }

  /** A run is marked failed exactly when it had pages and every one of them failed. */
  lemma {:induction false} SavedStatus(s: State, j: JobId, r: Results)
    requires Runs(s, j) && IsRunOf(r)
    ensures var job := Save(s, j, r).jobs[j];
            if RunPagesOf(r) != {} && RunPagesOf(r) <= r.failed then job.status == Failed && job.stage == StageFailed
            else job.status == Completed && job.stage == Finished
  {
    hide CountDone, RowsAfter, PagesAfter, AnyCompleted, Attempted, RunPagesOf;
    var pages := RunPagesOf(r);
    AttemptedIs(r);
    if n :| n in pages && n !in r.failed {
      Sets.SubsetSmaller(r.failed, pages - {n});
    }
    assert pages <= r.failed ==> pages == r.failed;
  }

  /** What saving leaves: page rows and stored pages as the pages came out, the file's
      page count, and a document completed exactly if some page it has is. */
  lemma {:induction false} SavedDocument(s: State, j: JobId, r: Results, n: nat)
    requires Runs(s, j)
    ensures var d := s.jobs[j].document;
            var t := Save(s, j, r);
            var before, after := s.documents[d], t.documents[d];
            && after.pageCount == Some(r.pageCount)
            && after.status == (if exists n: nat :: n in after.pages && after.pages[n].completed then Completed
                                else Failed)
            && (n in RunPagesOf(r) ==> n in after.pages && after.pages[n] == Page(n !in r.failed, j))
            && (r.target.Some? && n !in r.target.value ==>
                  (n in after.pages <==> n in before.pages) && (n in after.pages ==> after.pages[n] == before.pages[n]))
            && (n in t.rows[j] <==> n in s.rows[j])
            && (n in t.rows[j] ==>
                  t.rows[j][n] == if n !in RunPagesOf(r) then s.rows[j][n]
                                  else if n in r.failed then Failed else Completed)
  {
    hide CountDone, RunFailed;
  }

  // ----- what each step does to a job

  const OPEN := {Queued, Processing}

  /** Which steps give a job a new status. */
  lemma {:induction false} StatusChanges(s: State, step: Step, j: JobId)
    requires Inv(s) && j in s.jobs && j in Next(s, step).jobs
    ensures var job, job' := s.jobs[j], Next(s, step).jobs[j];
            job'.status != job.status ==>
              match job'.status
              case Queued => false
              case Processing => step == StartJob(j)
              case Completed => step.SaveResults? && step.job == j
              case Failed =>
                || step == MarkFailed(j) || (step.SaveResults? && step.job == j)
                || (step.Reprocess? && step.latest == Some(j) && !step.alive && job.status in OPEN)
              case Canceled => (step == CancelJob(j) || step == StopJobs(job.document)) && job.status in OPEN
  {
    hide CountDone, RunFailed, AnyCompleted, PagesToQueue, RowsAfter, PagesAfter, CancelOpen, QueuedRows,
         CoversUnfinished, CompletedPages, Inv, JobInv;
    JobInvOf(s, j);
  }

  /** And what they leave the job in. */
  lemma {:induction false} StatusAfter(s: State, step: Step, j: JobId)
    requires Inv(s) && j in s.jobs && j in Next(s, step).jobs
    ensures var job, job' := s.jobs[j], Next(s, step).jobs[j];
            && (step == StartJob(j) && job.status != Canceled ==>
                  job' == job.(status := Processing, stage := Downloading))
            && (step == MarkFailed(j) && job.status != Canceled ==>
                  job' == job.(status := Failed, stage := StageFailed))
            && (step == CancelJob(j) || step == StopJobs(job.document) ==>
                  job' == if job.status in OPEN then job.(status := Canceled, stage := StageCanceled) else job)
            && (step.SetStage? && step.job == j && job.status != Canceled ==> job' == job.(stage := step.stage))
  {
    hide CountDone, RunFailed, AnyCompleted, PagesToQueue, RowsAfter, PagesAfter, CancelOpen, QueuedRows,
         CoversUnfinished, CompletedPages, Inv, JobInv;
    JobInvOf(s, j);
  }

  /** The status a step leaves the document of a job in that has not been canceled. */
  lemma {:induction false} DocumentAfter(s: State, step: Step, j: JobId)
    requires Inv(s) && j in s.jobs && s.jobs[j].status != Canceled
    ensures var d := s.jobs[j].document;
            var t := Next(s, step);
            && d in s.documents
            && (step == StartJob(j) ==> d in t.documents && t.documents[d] == s.documents[d].(status := Processing))
            && (step == MarkFailed(j) ==> d in t.documents && t.documents[d] == s.documents[d].(status := Failed))
            && (step == CancelJob(j) ==>
                  d in t.documents
                  && t.documents[d] == if s.jobs[j].status == Queued || s.jobs[j].status == Processing
                                       then s.documents[d].(status := Canceled) else s.documents[d])
            && (step == StopJobs(d) ==>
                  d in t.documents
                  && t.documents[d] == if s.documents[d].status == Queued || s.documents[d].status == Processing
                                       then s.documents[d].(status := Canceled) else s.documents[d])
  {
    hide CountDone, RunFailed, AnyCompleted, PagesToQueue, RowsAfter, PagesAfter, CancelOpen, QueuedRows,
         CoversUnfinished, CompletedPages, Inv, JobInv;
    JobInvOf(s, j);
  }

  /** A page's row follows the page events of its job as they are told, once each: a late
      or repeated one changes nothing, and neither does one for a job that does not run. */
  lemma {:induction false} RowAfter(s: State, j: JobId, n: nat, event: PageEvent, m: nat)
    requires Inv(s) && j in s.jobs && m in s.rows[j]
    ensures var t := Next(s, RecordPage(j, n, event));
            j in t.rows && m in t.rows[j] && t.rows[j].Keys == s.rows[j].Keys
    ensures var before, after := s.rows[j][m], Next(s, RecordPage(j, n, event)).rows[j][m];
            after == if m != n then before
                     else match event
                       case Started => if before == Queued then Processing else before
                       case PageDone => if s.jobs[j].status == Processing && before in OPEN then Completed else before
                       case PageFailed => if s.jobs[j].status == Processing && before in OPEN then Failed else before
  {
    assert JobInv(s, j);
    hide CountDone;
  }

  /** Setting up the rows: every page of the run waits, and no other has a row. */
  lemma {:induction false} RowsAtReset(s: State, j: JobId, pageCount: nat, target: Option<seq<nat>>)
    requires Runs(s, j)
    ensures var t := Next(s, ResetPages(j, pageCount, target));
            && (forall n: nat :: n in t.rows[j] <==>
                  1 <= n <= pageCount && match target case None => true case Some(pages) => n in pages)
            && (forall n <- t.rows[j] :: t.rows[j][n] == Queued)
            && t.jobs[j].totalPages == |t.rows[j]| && t.jobs[j].pagesProcessed == 0 && t.jobs[j].stage == Parsing
            && t.documents == s.documents
  {
    PageSelection.NumbersAre(pageCount, PageSelection.Targeted(target));
    hide CountDone;
    QueuedRowsSize(PageSelection.RunPages(pageCount, target));
  }

  /** Reprocessing, where it is not refused: a new job waits, the silent one it takes over
      from has failed, and the pages it counts are those not completed, or all of them where
      the document was complete or had been canceled. */
  lemma {:induction false} RequeuedJob(s: State, d: DocumentId, latest: Option<JobId>, alive: bool, newJob: JobId)
    requires d in s.documents && newJob !in s.jobs && newJob !in s.rows
    requires latest.Some? ==> latest.value in s.jobs && s.jobs[latest.value].document == d
    ensures var t := Next(s, Reprocess(d, latest, alive, newJob));
            var active := latest.Some? && s.jobs[latest.value].status in OPEN;
            var doc := s.documents[d];
            if active && alive then t == s
            else
              && newJob in t.jobs && newJob in t.rows && t.rows[newJob] == map[]
              && t.jobs[newJob].(totalPages := 0) == Job(d, Queued, Waiting, 0, 0)
              && t.documents == s.documents[d := doc.(status := Queued)]
              && (active ==> t.jobs[latest.value] == s.jobs[latest.value].(status := Failed))
              && (doc.pageCount.None? ==> t.jobs[newJob].totalPages == 0)
              && (doc.pageCount.Some? ==>
                    t.jobs[newJob].totalPages ==
                      if active || doc.status in OPEN || doc.status == Failed
                         || (doc.status == Completed && |CompletedPages(doc)| < doc.pageCount.value)
                      then |UnfinishedPages(doc.pageCount.value, doc)|
                      else doc.pageCount.value)
  {
    var doc := s.documents[d];
    if doc.pageCount.Some? {
      UnfinishedCount(doc.pageCount.value, doc);
    }
    hide CompletedPages;
  }

  lemma UnfinishedCount(count: nat, doc: Document)
    ensures |PageSelection.Numbers(count, PageSelection.Unfinished(CompletedPages(doc)))|
              == |UnfinishedPages(count, doc)|
  {
    var pages := PageSelection.Numbers(count, PageSelection.Unfinished(CompletedPages(doc)));
    PageSelection.NumbersAre(count, PageSelection.Unfinished(CompletedPages(doc)));
    Sets.DistinctSize(pages);
    assert Sets.Elements(pages) == UnfinishedPages(count, doc);
  }

  /** Pages of the document that have not been completed. */
  ghost function UnfinishedPages(count: nat, doc: Document): set<nat> {
    set n: nat | n <= count && 1 <= n <= count && !(n in doc.pages && doc.pages[n].completed)
  }

  /** An accepted file: its document and first job wait, and nothing of it has been read. */
  lemma {:induction false} AddedDocument(s: State, d: DocumentId, j: JobId)
    requires d !in s.documents && j !in s.jobs && j !in s.rows
    ensures var t := Next(s, AddDocument(d, j));
            && t.documents.Keys == s.documents.Keys + {d} && t.jobs.Keys == s.jobs.Keys + {j}
            && t.documents[d] == Document(Queued, None, map[]) && t.jobs[j] == Job(d, Queued, Waiting, 0, 0)
            && t.rows == s.rows[j := map[]]
            && (forall e <- s.documents :: t.documents[e] == s.documents[e])
            && forall i <- s.jobs :: t.jobs[i] == s.jobs[i]
  {
  }

  /** A wiped document takes its own jobs and their rows with it, and no others. */
  lemma {:induction false} WipedDocument(s: State, d: DocumentId, j: JobId)
    requires Inv(s) && j in s.jobs
    ensures var t := Next(s, WipeDocument(d));
            && d !in t.documents
            && forall e <- s.documents :: e != d ==> e in t.documents && t.documents[e] == s.documents[e]
    ensures var t := Next(s, WipeDocument(d));
            if s.jobs[j].document == d then j !in t.jobs && j !in t.rows
            else j in t.jobs && t.jobs[j] == s.jobs[j] && j in t.rows && t.rows[j] == s.rows[j]
  {
    hide CountDone;
  }
}

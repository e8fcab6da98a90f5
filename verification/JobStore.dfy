/** The rows of jobs, job pages and documents, and the transactions that update
    them field by field. Each transaction is proved to be the step of JobProtocol
    it stands for, so everything proved of runs there holds of these methods. */
module JobStore {
  import opened Options
  import opened JobProtocol
  import PageSelection

  class JobStore {
    var jobs: map<JobId, Job>
    var rows: map<JobId, PageRows>
    var documents: map<DocumentId, Document>

    function View(): State
      reads this
    {
      State(jobs, rows, documents)
    }

    constructor ()
      ensures View() == EMPTY
    {
      jobs, rows, documents := map[], map[], map[];
    }

    /** The first transaction of process_document_task. */
    method StartJob(j: JobId)
      requires Inv(View())
      modifies this
      ensures View() == Next(old(View()), Step.StartJob(j)) && Inv(View())
    {
      NextKeepsInv(View(), Step.StartJob(j));
      hide CountDone;
      if j !in jobs {
        return;
      }
      assert JobInv(View(), j);
      if jobs[j].status == Canceled {
        return;
      }
      var job := jobs[j].(status := Processing);
      job := job.(stage := Downloading);
      jobs := jobs[j := job];
      documents := documents[job.document := documents[job.document].(status := Processing)];
    }

    /** `_lock_running_job`: the job, unless it is gone or was canceled. */
    method LockRunningJob(j: JobId) returns (running: bool)
      requires Inv(View())
      ensures running == Runs(View(), j)
    {
      if j !in jobs {
        return false;
      }
      assert JobInv(View(), j);
      return jobs[j].status != Canceled;
    }

    /** `_set_stage`. */
    method SetStage(j: JobId, stage: Stage)
      requires Inv(View())
      modifies this
      ensures View() == Next(old(View()), Step.SetStage(j, stage)) && Inv(View())
    {
      NextKeepsInv(View(), Step.SetStage(j, stage));
      var running := LockRunningJob(j);
      if running {
        jobs := jobs[j := jobs[j].(stage := stage)];
      }
    }

    /** The transaction that sets up a row for every page of the run. */
    method ResetPages(j: JobId, pageCount: nat, target: Option<seq<nat>>)
      requires Inv(View())
      modifies this
      ensures View() == Next(old(View()), Step.ResetPages(j, pageCount, target)) && Inv(View())
    {
      NextKeepsInv(View(), Step.ResetPages(j, pageCount, target));
      hide CountDone;
      var running := LockRunningJob(j);
      if !running {
        return;
      }
      var pages := PageSelection.RunPages(pageCount, target);
      var added: PageRows := map[];
      for k := 0 to |pages|
        invariant added == QueuedRows(pages[..k])
      {
        assert pages[..k + 1] == pages[..k] + [pages[k]];
        added := added[pages[k] := Queued];
      }
      assert pages[..|pages|] == pages;
      rows := rows[j := added];
      var job := jobs[j].(totalPages := |pages|);
      job := job.(pagesProcessed := 0);
      job := job.(stage := Parsing);
      jobs := jobs[j := job];
    }

    /** `_record_page_event`: conditional updates, so a late or repeated event finds
        nothing to change. */
    method RecordPage(j: JobId, page: nat, event: PageEvent)
      requires Inv(View())
      modifies this
      ensures View() == Next(old(View()), Step.RecordPage(j, page, event)) && Inv(View())
    {
      NextKeepsInv(View(), Step.RecordPage(j, page, event));
      hide CountDone, JobInv, Inv;
      if event == Started {
        if j in jobs && page in rows[j] && rows[j][page] == Queued {
          SetRow(j, page, Processing);
        }
        return;
      }
      var running := j in jobs && jobs[j].status == Processing;
      if !running {
        return;
      }
      var finished := page in rows[j] && rows[j][page].Active();
      if finished {
        SetRow(j, page, if event == PageDone then Completed else Failed);
        jobs := jobs[j := jobs[j].(pagesProcessed := jobs[j].pagesProcessed + 1)];
      }
    }

    method SetRow(j: JobId, page: nat, status: Status)
      requires j in rows
      modifies `rows
      ensures rows == old(rows)[j := WithRow(old(rows)[j], page, status)]
    {
      rows := rows[j := WithRow(rows[j], page, status)];
    }

    /** The last transaction of a run: the targeted pages are replaced, the page
        rows take over how the pages came out, and job and document are settled. */
    method SaveResults(j: JobId, r: Results)
      requires Inv(View())
      modifies this
      ensures View() == Next(old(View()), Step.SaveResults(j, r)) && Inv(View())
    {
      NextKeepsInv(View(), Step.SaveResults(j, r));
      var s := View();
      var running := LockRunningJob(j);
      hide CountDone, RowsAfter, PagesAfter, NewPages, Inv, JobInv, AnyCompleted;
      if !running {
        return;
      }
      var job, document := jobs[j], documents[jobs[j].document];
      var written := WritePages(r, j);
      var pages := ReplacePages(document.pages, written, r, j);
      var updated := TakeOver(rows[j], written, r, j);
      rows := rows[j := updated];
      var runFailed := Attempted(r) > 0 && Attempted(r) - |r.failed| == 0;
      job := job.(pagesProcessed := CountDone(updated));
      job := job.(stage := if runFailed then StageFailed else Finished);
      job := job.(status := if runFailed then Failed else Completed);
      jobs := jobs[j := job];
      document := document.(pages := pages, pageCount := Some(r.pageCount));
      document := document.(status := if AnyCompleted(pages) then Completed else Failed);
      documents := documents[job.document := document];
    }

    /** `_mark_failed`. */
    method MarkFailed(j: JobId)
      requires Inv(View())
      modifies this
      ensures View() == Next(old(View()), Step.MarkFailed(j)) && Inv(View())
    {
      NextKeepsInv(View(), Step.MarkFailed(j));
      hide CountDone;
      if j !in jobs {
        return;
      }
      assert JobInv(View(), j);
      if jobs[j].status == Canceled {
        return;
      }
      var job := jobs[j].(status := Failed);
      job := job.(stage := StageFailed);
      jobs := jobs[j := job];
      documents := documents[job.document := documents[job.document].(status := Failed)];
    }

    /** `_stop_unfinished_jobs`: cancels the document's unfinished jobs one by one,
        then their open pages, then the document. */
    method StopUnfinishedJobs(d: DocumentId)
      requires Inv(View()) && d in documents
      modifies this
      ensures View() == Next(old(View()), StopJobs(d)) && Inv(View())
    {
      NextKeepsInv(View(), StopJobs(d));
      hide CountDone, CancelOpen, JobInv, Inv;
      var s := View();
      var unfinished := set j | j in jobs && Stops(s, d, j);
      CancelJobs(unfinished);
      CancelPages(unfinished);
      var document := documents[d];
      if document.status.Active() {
        document := document.(status := Canceled);
      }
      documents := documents[d := document];
      Stopped(s, View(), d, unfinished);
    }

    /** cancel_document_processing, for the document's latest job: refused once it has
        finished, so a cancel and a finishing worker cannot both win. */
    method CancelProcessing(j: JobId) returns (canceled: bool)
      requires Inv(View())
      modifies this
      ensures View() == Next(old(View()), CancelJob(j)) && Inv(View())
      ensures canceled <==> old(j in jobs && jobs[j].status.Active())
      ensures canceled ==> j in jobs && jobs[j].status == Canceled
    {
      hide CountDone, CancelOpen, JobInv, Inv;
      NextKeepsInv(View(), CancelJob(j));
      InvKeys(View());
      var running := LockRunningJob(j);
      if !running || !jobs[j].status.Active() {
        return false;
      }
      var job := jobs[j].(status := Canceled);
      job := job.(stage := StageCanceled);
      jobs := jobs[j := job];
      rows := rows[j := CancelOpen(rows[j])];
      documents := documents[job.document := documents[job.document].(status := Canceled)];
      return true;
    }

    method CancelJobs(chosen: set<JobId>)
      requires chosen <= jobs.Keys
      modifies `jobs
      ensures jobs.Keys == old(jobs).Keys
      ensures forall j <- jobs :: jobs[j] == if j in chosen then CanceledJob(old(jobs)[j]) else old(jobs)[j]
    {
      var rest := chosen;
      while rest != {}
        invariant rest <= chosen && jobs.Keys == old(jobs).Keys
        invariant forall j <- jobs :: jobs[j] == if j in chosen - rest then CanceledJob(old(jobs)[j]) else old(jobs)[j]
      {
        var j :| j in rest;
        var job := jobs[j].(status := Canceled);
        job := job.(stage := StageCanceled);
        jobs := jobs[j := job];
        rest := rest - {j};
      }
    }

    method CancelPages(chosen: set<JobId>)
      modifies `rows
      ensures rows.Keys == old(rows).Keys
      ensures forall j <- rows :: rows[j] == if j in chosen then CancelOpen(old(rows)[j]) else old(rows)[j]
    {
      rows := map j: nat | j in rows :: if j in chosen then CancelOpen(rows[j]) else rows[j];
    }

    /** The locked part of reprocess_document. */
    method ReprocessDocument(d: DocumentId, latest: Option<JobId>, alive: bool, newJob: JobId)
      returns (queued: bool)
      requires Inv(View()) && d in documents && newJob !in jobs
      requires latest.Some? ==> latest.value in jobs && jobs[latest.value].document == d
      modifies this
      ensures View() == Next(old(View()), Reprocess(d, latest, alive, newJob)) && Inv(View())
      ensures queued <==> !(latest.Some? && old(jobs)[latest.value].status.Active() && alive)
    {
      NextKeepsInv(View(), Reprocess(d, latest, alive, newJob));
      hide CountDone;
      if latest.Some? && jobs[latest.value].status.Active() && alive {
        return false;
      }
      var active := latest.Some? && jobs[latest.value].status.Active();
      if active {
        jobs := jobs[latest.value := jobs[latest.value].(status := Failed)];
      }
      jobs := jobs[newJob := Job(d, Queued, Waiting, 0, PagesToQueue(documents[d], active))];
      rows := rows[newJob := map[]];
      documents := documents[d := documents[d].(status := Queued)];
      return true;
    }
  }

  lemma InvKeys(s: State)
    requires Inv(s)
    ensures s.rows.Keys == s.jobs.Keys && forall j <- s.jobs :: s.jobs[j].document in s.documents
  {
    assert forall j <- s.jobs :: JobInv(s, j);
  }

  lemma Stopped(s: State, t: State, d: DocumentId, chosen: set<JobId>)
    requires d in s.documents && forall j: nat :: j in chosen <==> Stops(s, d, j)
    requires t.jobs.Keys == s.jobs.Keys && t.rows.Keys == s.rows.Keys
    requires forall j <- t.jobs :: t.jobs[j] == if j in chosen then CanceledJob(s.jobs[j]) else s.jobs[j]
    requires forall j <- t.rows :: t.rows[j] == if j in chosen then CancelOpen(s.rows[j]) else s.rows[j]
    requires var doc := s.documents[d];
             t.documents == s.documents[d := if doc.status.Active() then doc.(status := Canceled) else doc]
    ensures t == Stop(s, d)
  {
    hide CancelOpen;
  }

  /** One row for every page of the file that the run was asked for. */
  method WritePages(r: Results, j: JobId) returns (written: map<nat, Page>)
    ensures written == NewPages(r, j)
  {
    written := map[];
    for number := 1 to r.pageCount + 1
      invariant written == map n: nat | 1 <= n < number && IsRunPage(r, n) :: NewPage(r, j, n)
    {
      if r.target.None? || number in r.target.value {
        written := written[number := NewPage(r, j, number)];
      }
    }
  }

  /** The stored pages the run was asked for are deleted and its own are added. */
  method ReplacePages(pages: map<nat, Page>, written: map<nat, Page>, r: Results, j: JobId)
    returns (after: map<nat, Page>)
    requires written == NewPages(r, j)
    ensures after == PagesAfter(pages, r, j)
  {
    var kept := map n: nat | n in pages && !Replaces(r, n) :: pages[n];
    after := kept + written;
  }

  /** Each page row takes over the outcome of the page the run wrote, if it wrote one. */
  method TakeOver(rows: PageRows, written: map<nat, Page>, r: Results, j: JobId) returns (updated: PageRows)
    requires written == NewPages(r, j)
    ensures updated == RowsAfter(rows, r)
  {
    updated := rows;
    var rest := rows.Keys;
    while rest != {}
      invariant rest <= rows.Keys && updated.Keys == rows.Keys
      invariant forall n <- rows :: updated[n] == if n in rest then rows[n] else RowsAfter(rows, r)[n]
    {
      var n :| n in rest;
      if n in written {
        updated := updated[n := if written[n].completed then Completed else Failed];
      }
      rest := rest - {n};
    }
  }
}

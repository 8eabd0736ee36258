/** The worker's job handler: run the download, then report the job to the
    job store as completed, or as failed if anything threw. The job store
    (pg-boss) and the download itself are outside the model: whether each of
    them resolves or throws is a parameter, and the handler returns the calls
    it makes, in order. */
module Worker {
  import opened Wrappers

  /** The payload the submission endpoint stores with a job. */
  datatype JobData = JobData(fileUrl: Option<string>, separator: Option<string>, tableName: Option<string>)

  datatype Job = Job(id: string, data: JobData)

  /** How an awaited call settles, if it ever does. */
  datatype Outcome = Resolved | Threw | Pending

  /** A call the handler makes. */
  datatype Call =
    | DownloadAndSave(fileUrl: Option<string>, tableName: string)
    | Complete(jobId: string)
    | Fail(jobId: string)

  /** `jobHandler(job)`: `download`, `complete` and `fail` say how
      `downloadAndSave`, `boss.complete` and `boss.fail` settle when the
      handler awaits them; `Pending` is a promise that never settles, which
      stops the handler at that `await`. `calls` is what the handler calls, in
      order; `settled` is how the handler's own promise settles. */
  method JobHandler(job: Job, download: Outcome, complete: Outcome, fail: Outcome)
    returns (calls: seq<Call>, settled: Outcome)
    // the download always runs first, with the job's id as its table name;
    // the job's separator and table name are not passed on
    ensures |calls| >= 1 && calls[0] == DownloadAndSave(job.data.fileUrl, job.id)
    // a download that never settles leaves the handler waiting, with no report
    ensures download == Pending ==> calls == [DownloadAndSave(job.data.fileUrl, job.id)] && settled == Pending
    // completion is attempted exactly when the download resolved, right after it
    ensures Complete(job.id) in calls <==> download == Resolved
    ensures download == Resolved ==> calls[1] == Complete(job.id)
    // failure is reported exactly when the download or the completion threw, last
    ensures Fail(job.id) in calls <==> (download == Threw || (download == Resolved && complete == Threw))
    ensures Fail(job.id) in calls ==> calls[|calls| - 1] == Fail(job.id)
    // nothing else is called
    ensures |calls| == 1 + (if download == Resolved then 1 else 0) + (if Fail(job.id) in calls then 1 else 0)
    // the handler rejects only when reporting the failure itself threw
    ensures settled == Threw <==> Fail(job.id) in calls && fail == Threw
    // it never settles when the call it is waiting on never settles
    ensures settled == Pending <==>
      download == Pending || (download == Resolved && complete == Pending) || (Fail(job.id) in calls && fail == Pending)
  {
    calls := [DownloadAndSave(job.data.fileUrl, job.id)];
    settled := Pending;
    if download == Pending {
      return;
    }
    var threw := download == Threw;
    if !threw {
      calls := calls + [Complete(job.id)];
      if complete == Pending {
        return;
      }
      threw := complete == Threw;
    }
    if threw {
      calls := calls + [Fail(job.id)];
      settled := fail;
    } else {
      settled := Resolved;
    }
  }
}

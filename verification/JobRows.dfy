/** The database rows of the job queue and the updates made to them in place.

    Each update is a method on row objects, proved against a function on row values; the protocol in
    `JobQueue` is built from those functions.
 */
module JobRows {
  import opened Basics

  type Tenant = string
  type JobId = nat
  type DocumentId = nat
  type TemplateId = nat
  type ResultId = nat
  type WorkerId = nat

  datatype JobStatus = Queued | Running | Completed | Failed | Cancelled
  datatype DocumentStatus = Uploaded | Waiting | Processing | Done | Broken
  datatype Stage = AtQueue | Parsing | Extracting | Validating | Calculating | AtCompleted | AtFailed | AtCancelled

  /** The cancelled stage has no percentage of its own: it keeps whatever the row holds. */
  function Percentage(stage: Stage, current: nat): nat {
    match stage
    case AtQueue => 0
    case Parsing => 15
    case Extracting => 45
    case Validating => 70
    case Calculating => 85
    case AtCompleted => 100
    case AtFailed => 0
    case AtCancelled => current
  }

  datatype Job = Job(
    tenant: Tenant,
    document: DocumentId,
    template: TemplateId,
    createdAt: nat,
    status: JobStatus,
    error: Option<string>,
    stage: Stage,
    pct: nat,
    worker: Option<WorkerId>,
    attempts: nat)

  datatype Document = Document(tenant: Tenant, status: DocumentStatus)

  datatype ResultRow = ResultRow(tenant: Tenant, job: JobId, payload: string, pending: bool)

  function NewJob(tenant: Tenant, document: DocumentId, template: TemplateId, now: nat): Job {
    Job(tenant, document, template, now, Queued, None, AtQueue, 0, None, 0)
  }

  function Claimed(job: Job, w: WorkerId): Job {
    job.(status := Running, worker := Some(w), attempts := job.attempts + 1)
  }

  function Progressed(job: Job, stage: Stage): Job {
    job.(stage := stage, pct := Percentage(stage, job.pct))
  }

  function Retried(job: Job): Job {
    job.(status := Queued, error := None, stage := AtQueue, pct := 0, worker := None)
  }

  function CancelledByOperator(job: Job): Job {
    job.(status := Cancelled, error := Some("Cancelled by operator."), stage := AtCancelled, pct := 0, worker := None)
  }

  /** Completion leaves an old error message in place. */
  function Finished(job: Job): Job {
    job.(status := Completed, stage := AtCompleted, pct := 100)
  }

  function FailedWith(job: Job, message: string): Job {
    job.(status := Failed, error := Some(message), stage := AtFailed, pct := 0)
  }

  function ReleasedByCancel(document: Document): Document {
    if document.status.Waiting? || document.status.Processing? then document.(status := Uploaded) else document
  }

  class DocumentRow {
    const tenant: Tenant
    var status: DocumentStatus

    function View(): Document
      reads this
    {
      Document(tenant, status)
    }
  }

  class JobRow {
    const tenant: Tenant
    const document: DocumentId
    const template: TemplateId
    const createdAt: nat
    var status: JobStatus
    var error: Option<string>
    var stage: Stage
    var pct: nat
    var worker: Option<WorkerId>
    var attempts: nat

    function View(): Job
      reads this
    {
      Job(tenant, document, template, createdAt, status, error, stage, pct, worker, attempts)
    }

    /** The guarded update of the claim loop: it affects a row only while the row is still queued. */
    method Claim(w: WorkerId) returns (won: bool)
      modifies this
      ensures won <==> old(status) == Queued
      ensures View() == if won then Claimed(old(View()), w) else old(View())
    {
      won := status == Queued;
      if won {
        status := Running;
        worker := Some(w);
        attempts := attempts + 1;
      }
    }

    method UpdateProgress(next: Stage)
      modifies this
      ensures View() == Progressed(old(View()), next)
    {
      stage := next;
      pct := Percentage(next, pct);
    }
  }

  method RetryFailedJob(job: JobRow, document: DocumentRow)
    modifies job, document
    ensures job.View() == Retried(old(job.View()))
    ensures document.View() == old(document.View()).(status := Waiting)
  {
    job.status := Queued;
    job.error := None;
    job.stage := AtQueue;
    job.pct := 0;
    job.worker := None;
    document.status := Waiting;
  }

  method CancelJob(job: JobRow, document: DocumentRow)
    modifies job, document
    ensures job.View() == CancelledByOperator(old(job.View()))
    ensures document.View() == ReleasedByCancel(old(document.View()))
  {
    job.status := Cancelled;
    job.error := Some("Cancelled by operator.");
    job.stage := AtCancelled;
    job.pct := 0;
    job.worker := None;
    if document.status == Waiting || document.status == Processing {
      document.status := Uploaded;
    }
  }

  method CompleteJob(job: JobRow, document: DocumentRow)
    modifies job, document
    ensures job.View() == Finished(old(job.View()))
    ensures document.View() == old(document.View()).(status := Done)
  {
    job.status := Completed;
    job.stage := AtCompleted;
    job.pct := 100;
    document.status := Done;
  }

  method FailJob(job: JobRow, document: DocumentRow, message: string)
    modifies job, document
    ensures job.View() == FailedWith(old(job.View()), message)
    ensures document.View() == old(document.View()).(status := Broken)
  {
    job.status := Failed;
    job.error := Some(message);
    job.stage := AtFailed;
    job.pct := 0;
    document.status := Broken;
  }

  /** `Refused` is the answer of the provider and spreadsheet policies. */
  datatype Response = Accepted | NotFound | Conflict | Refused

  /** The retry handler: the row is read, its status checked, and then written, in one transaction. What the
      policies say of the job's provider and document is `policyAllows`; they are asked last. */
  method RetryRoute(
    job: JobRow?, document: DocumentRow?, templateTenant: Option<Tenant>, tenant: Tenant, policyAllows: bool)
    returns (r: Response)
    modifies job, document
    ensures r.Accepted? || r.Refused? <==>
              && job != null && document != null && job.tenant == tenant && old(job.status) == Failed
              && document.tenant == tenant && templateTenant == Some(tenant)
    ensures r.Accepted? ==> policyAllows
    ensures r.Refused? ==> !policyAllows
    ensures r.Conflict? <==> job != null && job.tenant == tenant && old(job.status) != Failed
    ensures r.Accepted? ==> job.View() == Retried(old(job.View())) && document.View() == old(document.View()).(status := Waiting)
    ensures !r.Accepted? ==> (job != null ==> unchanged(job)) && (document != null ==> unchanged(document))
  {
    if job == null || job.tenant != tenant {
      return NotFound;
    }
    if job.status != Failed {
      return Conflict;
    }
    if document == null || document.tenant != tenant || templateTenant != Some(tenant) {
      return NotFound;
    }
    if !policyAllows {
      return Refused;
    }
    RetryFailedJob(job, document);
    return Accepted;
  }

  /** The cancel handler: queued and running jobs only; the template is not looked at. */
  method CancelRoute(job: JobRow?, document: DocumentRow?, tenant: Tenant) returns (r: Response)
    modifies job, document
    ensures r.Accepted? <==>
              && job != null && document != null && job.tenant == tenant
              && (old(job.status) == Queued || old(job.status) == Running) && document.tenant == tenant
    ensures r.Conflict? <==>
              job != null && job.tenant == tenant && old(job.status) != Queued && old(job.status) != Running
    ensures !r.Refused?
    ensures r.Accepted? ==>
              job.View() == CancelledByOperator(old(job.View())) && document.View() == ReleasedByCancel(old(document.View()))
    ensures !r.Accepted? ==> (job != null ==> unchanged(job)) && (document != null ==> unchanged(document))
  {
    if job == null || job.tenant != tenant {
      return NotFound;
    }
    if job.status != Queued && job.status != Running {
      return Conflict;
    }
    if document == null || document.tenant != tenant {
      return NotFound;
    }
    CancelJob(job, document);
    return Accepted;
  }
}

/** The job queue protocol: any number of workers against the create, retry and cancel handlers.

    Every action is one committed transaction or one step between two commits of the worker. The API
    handlers read a status and then write without a guard; here, as in the protocol they rely on, each
    handler is one transaction. Workers may fail with an exception at any point of the guarded block
    and may crash anywhere.
 */
module JobQueue {
  import opened Basics
  import opened JobRows

  // ---------------------------------------------------------------------------------------------
  // States and actions
  // ---------------------------------------------------------------------------------------------

  /** Where a worker is inside `process_once`. From `Loaded` on it works on a job. */
  datatype Pc =
    | Idle
    | Selecting(tries: nat)
    | Candidate(job: JobId, tries: nat)
    | Loaded(job: JobId)
    | Started(job: JobId)
    | TextStored(job: JobId)
    | Executing(job: JobId)
    | Checked(job: JobId, payload: string)
    | Looked(job: JobId, payload: string, found: Option<ResultId>)
    | Committed(job: JobId)
    | Raised(job: JobId)
    | Failing(job: JobId)
    | Cancelling(job: JobId, inHandler: bool)
  {
    function Holding(): Option<JobId> {
      match this
      case Idle => None
      case Selecting(_) => None
      case Candidate(_, _) => None
      case _ => Some(job)
    }

    /** Inside the try block, where an exception reaches the handler. */
    predicate Guarded() {
      Holding().Some? && !Raised? && !Failing? && !(Cancelling? && inHandler)
    }
  }

  datatype State = State(
    jobs: map<JobId, Job>,
    documents: map<DocumentId, Document>,
    templates: map<TemplateId, Tenant>,
    results: map<ResultId, ResultRow>,
    workers: map<WorkerId, Pc>)
  {
    function At(w: WorkerId): Pc {
      if w in workers then workers[w] else Idle
    }

    predicate HasStatus(j: JobId, status: JobStatus) {
      j in jobs && jobs[j].status == status
    }

    predicate RowsPresent(j: JobId) {
      j in jobs && jobs[j].document in documents && jobs[j].template in templates
    }

    predicate SameTenant(j: JobId) {
      && RowsPresent(j)
      && documents[jobs[j].document].tenant == jobs[j].tenant
      && templates[jobs[j].template] == jobs[j].tenant
    }

    function Move(w: WorkerId, pc: Pc): State {
      this.(workers := workers[w := pc])
    }

    function SetJob(j: JobId, job: Job): State {
      this.(jobs := jobs[j := job])
    }

    function SetDocument(d: DocumentId, status: DocumentStatus): (t: State)
      ensures t.documents.Keys == documents.Keys
      ensures forall e | e in documents :: t.documents[e].tenant == documents[e].tenant
      ensures t == this.(documents := t.documents)
    {
      if d in documents then this.(documents := documents[d := documents[d].(status := status)]) else this
    }
  }

  datatype Action =
    | Create(j: JobId, tenant: Tenant, document: DocumentId, template: TemplateId, now: nat)
    | Retry(j: JobId, tenant: Tenant)
    | Cancel(j: JobId, tenant: Tenant)
    | Poll(w: WorkerId)
    | SelectNone(w: WorkerId)
    | Select(w: WorkerId, j: JobId)
    | ClaimWon(w: WorkerId, j: JobId)
    | ClaimLost(w: WorkerId)
    | ClaimLocked(w: WorkerId, j: JobId)
    | FailMissing(w: WorkerId)
    | Begin(w: WorkerId)
    | StoreText(w: WorkerId)
    | FirstCheck(w: WorkerId)
    | Report(w: WorkerId, stage: Stage)
    | LastCheck(w: WorkerId, payload: string)
    | LookUp(w: WorkerId, found: Option<ResultId>)
    | Commit(w: WorkerId, r: ResultId)
    | Leave(w: WorkerId)
    | Throw(w: WorkerId)
    | Refresh(w: WorkerId)
    | Fail(w: WorkerId, message: string)
    | Finalize(w: WorkerId)
    | Crash(w: WorkerId)

  predicate IsFirstRow(s: State, j: JobId, found: Option<ResultId>) {
    match found
    case Some(r) => r in s.results && s.results[r].job == j
    case None => forall r | r in s.results :: s.results[r].job != j
  }

  /** When an action can happen. `Select` takes an oldest queued job; `ClaimLocked` takes any queued
      job, because the locking read skips rows that other workers hold. */
  predicate Enabled(s: State, a: Action) {
    match a
    case Create(j, tenant, d, t, _) =>
      j !in s.jobs && d in s.documents && s.documents[d].tenant == tenant && t in s.templates && s.templates[t] == tenant
    case Retry(j, tenant) =>
      s.HasStatus(j, Failed) && s.jobs[j].tenant == tenant && s.SameTenant(j)
    case Cancel(j, tenant) =>
      && (s.HasStatus(j, Queued) || s.HasStatus(j, Running))
      && s.jobs[j].tenant == tenant
      && s.jobs[j].document in s.documents && s.documents[s.jobs[j].document].tenant == tenant
    case Poll(w) => s.At(w).Idle?
    case SelectNone(w) => s.At(w).Selecting? && forall j | j in s.jobs :: s.jobs[j].status != Queued
    case Select(w, j) =>
      && s.At(w).Selecting? && s.HasStatus(j, Queued)
      && forall k | k in s.jobs && s.jobs[k].status == Queued :: s.jobs[j].createdAt <= s.jobs[k].createdAt
    case ClaimWon(w, j) => s.At(w).Candidate? && s.At(w).job == j && s.HasStatus(j, Queued)
    case ClaimLost(w) => s.At(w).Candidate? && !s.HasStatus(s.At(w).job, Queued)
    case ClaimLocked(w, j) => s.At(w).Idle? && s.HasStatus(j, Queued)
    case FailMissing(w) => s.At(w).Loaded? && s.At(w).job in s.jobs && !s.RowsPresent(s.At(w).job)
    case Begin(w) => s.At(w).Loaded? && s.SameTenant(s.At(w).job)
    case StoreText(w) => s.At(w).Started?
    case FirstCheck(w) => s.At(w).TextStored?
    case Report(w, stage) => s.At(w).Executing? && s.At(w).job in s.jobs
    case LastCheck(w, _) => s.At(w).Executing?
    case LookUp(w, found) => s.At(w).Checked? && IsFirstRow(s, s.At(w).job, found)
    case Commit(w, r) =>
      && s.At(w).Looked? && s.RowsPresent(s.At(w).job)
      && (s.At(w).found == Some(r) || (s.At(w).found.None? && r !in s.results))
    case Leave(w) => s.At(w).Committed?
    case Throw(w) => s.At(w).Guarded() && s.RowsPresent(s.At(w).job)
    case Refresh(w) => s.At(w).Raised?
    case Fail(w, _) => s.At(w).Failing? && s.At(w).job in s.jobs
    case Finalize(w) => s.At(w).Cancelling? && s.At(w).job in s.jobs
    case Crash(w) => true
  }

  function Apply(s: State, a: Action): State
    requires Enabled(s, a)
  {
    match a
    case Create(j, tenant, d, t, now) => s.SetJob(j, NewJob(tenant, d, t, now)).SetDocument(d, Waiting)
    case Retry(j, _) => s.SetJob(j, Retried(s.jobs[j])).SetDocument(s.jobs[j].document, Waiting)
    case Cancel(j, _) =>
      var d := s.jobs[j].document;
      s.SetJob(j, CancelledByOperator(s.jobs[j])).SetDocument(d, ReleasedByCancel(s.documents[d]).status)
    case Poll(w) => s.Move(w, Selecting(0))
    case SelectNone(w) => s.Move(w, Idle)
    case Select(w, j) => s.Move(w, Candidate(j, s.At(w).tries))
    case ClaimWon(w, j) => s.SetJob(j, Claimed(s.jobs[j], w)).Move(w, Loaded(j))
    case ClaimLost(w) => s.Move(w, if s.At(w).tries < 4 then Selecting(s.At(w).tries + 1) else Idle)
    case ClaimLocked(w, j) => s.SetJob(j, Claimed(s.jobs[j], w)).Move(w, Loaded(j))
    case FailMissing(w) =>
      var j := s.At(w).job;
      s.SetJob(j, FailedWith(s.jobs[j], "Document or template version missing.")).Move(w, Idle)
    case Begin(w) =>
      var j := s.At(w).job;
      s.SetJob(j, Progressed(s.jobs[j], Parsing)).SetDocument(s.jobs[j].document, Processing).Move(w, Started(j))
    case StoreText(w) => s.Move(w, TextStored(s.At(w).job))
    case FirstCheck(w) =>
      var j := s.At(w).job;
      s.Move(w, if s.HasStatus(j, Cancelled) then Cancelling(j, false) else Executing(j))
    case Report(w, stage) =>
      var j := s.At(w).job;
      s.SetJob(j, Progressed(s.jobs[j], stage))
    case LastCheck(w, payload) =>
      var j := s.At(w).job;
      s.Move(w, if s.HasStatus(j, Cancelled) then Cancelling(j, false) else Checked(j, payload))
    case LookUp(w, found) => s.Move(w, Looked(s.At(w).job, s.At(w).payload, found))
    case Commit(w, r) =>
      var j := s.At(w).job;
      var row := ResultRow(s.jobs[j].tenant, j, s.At(w).payload, true);
      s.SetJob(j, Finished(s.jobs[j])).SetDocument(s.jobs[j].document, Done)
       .(results := s.results[r := row]).Move(w, Committed(j))
    case Leave(w) => s.Move(w, Idle)
    case Throw(w) => s.Move(w, Raised(s.At(w).job))
    case Refresh(w) =>
      var j := s.At(w).job;
      s.Move(w, if s.HasStatus(j, Cancelled) then Cancelling(j, true) else Failing(j))
    case Fail(w, message) =>
      var j := s.At(w).job;
      s.SetJob(j, FailedWith(s.jobs[j], message)).SetDocument(s.jobs[j].document, Broken).Move(w, Idle)
    case Finalize(w) => s.SetDocument(s.jobs[s.At(w).job].document, Uploaded).Move(w, Idle)
    case Crash(w) => s.Move(w, Idle)
  }

  // ---------------------------------------------------------------------------------------------
  // Runs
  // ---------------------------------------------------------------------------------------------

  /** A database of submitted jobs, of any tenants, that no worker has touched. */
  predicate Init(s: State) {
    && s.workers == map[] && s.results == map[]
    && forall j | j in s.jobs :: s.jobs[j].status == Queued && s.jobs[j].attempts == 0
  }

  /** The state after a run; an action that cannot happen changes nothing. */
  function After(s: State, run: seq<Action>): State {
    if run == [] then s
    else
      var t := After(s, run[..|run| - 1]);
      if Enabled(t, run[|run| - 1]) then Apply(t, run[|run| - 1]) else t
  }

  /** Every action of the run can happen when its turn comes. */
  predicate ValidRun(s: State, run: seq<Action>) {
    run == [] || (ValidRun(s, run[..|run| - 1]) && Enabled(After(s, run[..|run| - 1]), run[|run| - 1]))
  }

  // ---------------------------------------------------------------------------------------------
  // The invariant
  // ---------------------------------------------------------------------------------------------

  /** What a worker may rely on about the job it works on. */
  predicate WorkerOk(s: State, pc: Pc) {
    match pc
    case Idle => true
    case Selecting(_) => true
    case Candidate(_, _) => true
    case Loaded(j) => s.HasStatus(j, Running) || s.HasStatus(j, Cancelled)
    case Committed(j) => s.HasStatus(j, Completed) && s.SameTenant(j)
    case Raised(j) =>
      && (s.HasStatus(j, Running) || s.HasStatus(j, Cancelled) || s.HasStatus(j, Completed)) && s.RowsPresent(j)
    case Failing(j) =>
      && (s.HasStatus(j, Running) || s.HasStatus(j, Cancelled) || s.HasStatus(j, Completed)) && s.RowsPresent(j)
    case Cancelling(j, _) => s.HasStatus(j, Cancelled) && s.RowsPresent(j)
    case Looked(j, _, found) =>
      (s.HasStatus(j, Running) || s.HasStatus(j, Cancelled)) && s.SameTenant(j) && IsFirstRow(s, j, found)
    case _ => (s.HasStatus(pc.job, Running) || s.HasStatus(pc.job, Cancelled)) && s.SameTenant(pc.job)
  }

  ghost predicate Exclusive(s: State) {
    forall v, w | v in s.workers && w in s.workers && v != w && s.workers[v].Holding().Some? ::
      s.workers[v].Holding() != s.workers[w].Holding()
  }

  ghost predicate ResultsOk(s: State) {
    && (forall q, r | q in s.results && r in s.results && s.results[q].job == s.results[r].job :: q == r)
    && (forall r | r in s.results :: s.results[r].job in s.jobs && s.results[r].tenant == s.jobs[s.results[r].job].tenant)
  }

  ghost predicate CompletedOk(s: State) {
    forall j | s.HasStatus(j, Completed) :: s.SameTenant(j) && exists r :: r in s.results && s.results[r].job == j
  }

  ghost predicate Inv(s: State) {
    && Exclusive(s)
    && (forall w | w in s.workers :: WorkerOk(s, s.workers[w]))
    && ResultsOk(s)
    && CompletedOk(s)
  }

  /** Identities never change: tenants, and which document and template a job is about. */
  ghost predicate SameIdentities(s: State, t: State) {
    && s.templates == t.templates
    && s.documents.Keys == t.documents.Keys
    && (forall d | d in s.documents :: t.documents[d].tenant == s.documents[d].tenant)
    && s.jobs.Keys <= t.jobs.Keys
    && (forall j | j in s.jobs ::
          t.jobs[j].tenant == s.jobs[j].tenant && t.jobs[j].document == s.jobs[j].document && t.jobs[j].template == s.jobs[j].template)
  }

  predicate IsHandler(a: Action) {
    a.Create? || a.Retry? || a.Cancel?
  }

  /** Actions that write no row. */
  predicate IsMove(a: Action) {
    || a.Poll? || a.SelectNone? || a.Select? || a.ClaimLost? || a.StoreText? || a.FirstCheck? || a.LastCheck?
    || a.LookUp? || a.Leave? || a.Throw? || a.Refresh? || a.Crash?
  }

  /** The remaining actions: a worker writes the rows of the job it works on. */
  predicate IsWorkerWrite(a: Action) {
    !IsHandler(a) && !IsMove(a)
  }

  lemma MoveWritesNothing(s: State, a: Action)
    requires Enabled(s, a) && IsMove(a)
    ensures Apply(s, a) == s.(workers := Apply(s, a).workers)
  {
  }

  lemma HandlerMovesNobody(s: State, a: Action)
    requires Enabled(s, a) && IsHandler(a)
    ensures Apply(s, a).workers == s.workers && Apply(s, a).results == s.results
  {
  }

  lemma WriteMovesOne(s: State, a: Action, w: WorkerId)
    requires Enabled(s, a) && IsWorkerWrite(a)
    ensures Apply(s, a).At(w) == s.At(w) || a.w == w
    ensures !a.Commit? ==> Apply(s, a).results == s.results
  {
  }

  lemma OnlyCommitWritesResults(s: State, a: Action)
    requires Enabled(s, a) && !a.Commit?
    ensures Apply(s, a).results == s.results
  {
    if IsMove(a) {
      MoveWritesNothing(s, a);
    } else if IsHandler(a) {
      HandlerMovesNobody(s, a);
    } else {
      WriteMovesOne(s, a, a.w);
    }
  }

  /** One step keeps documents and templates, and the identity of `j`. */
  ghost predicate KeepsIdentity(s: State, t: State, j: JobId)
    requires j in s.jobs
  {
    && j in t.jobs && t.jobs[j].tenant == s.jobs[j].tenant
    && t.jobs[j].document == s.jobs[j].document && t.jobs[j].template == s.jobs[j].template
  }

  ghost predicate KeepsDocuments(s: State, t: State) {
    && s.templates == t.templates && s.documents.Keys == t.documents.Keys
    && forall d | d in s.documents :: t.documents[d].tenant == s.documents[d].tenant
  }

  lemma HandlerKeeps(s: State, a: Action)
    requires Enabled(s, a) && IsHandler(a)
    ensures KeepsDocuments(s, Apply(s, a)) && forall j | j in s.jobs :: KeepsIdentity(s, Apply(s, a), j)
  {
  }

  lemma WorkerWriteKeeps(s: State, a: Action)
    requires Enabled(s, a) && IsWorkerWrite(a)
    ensures KeepsDocuments(s, Apply(s, a)) && forall j | j in s.jobs :: KeepsIdentity(s, Apply(s, a), j)
  {
  }

  lemma StepKeepsIdentities(s: State, a: Action)
    requires Enabled(s, a)
    ensures SameIdentities(s, Apply(s, a))
  {
    if IsMove(a) {
      MoveWritesNothing(s, a);
    } else if IsHandler(a) {
      HandlerKeeps(s, a);
    } else {
      WorkerWriteKeeps(s, a);
    }
    assert forall j | j in s.jobs :: IsMove(a) || KeepsIdentity(s, Apply(s, a), j);
  }

  /** While a worker holds a job, the job is neither queued nor failed. */
  lemma HeldIsNotFree(s: State, w: WorkerId)
    requires Inv(s) && s.At(w).Holding().Some?
    ensures var j := s.At(w).Holding().value;
            j in s.jobs && s.jobs[j].status != Queued && s.jobs[j].status != Failed
  {
    assert WorkerOk(s, s.workers[w]);
  }

  /** Holds the job already, or claims it with this action. */
  predicate Acquires(s: State, a: Action, j: JobId, w: WorkerId) {
    s.At(w).Holding() == Some(j) || (IsClaimOf(a, j) && a.w == w)
  }

  /** A job held by one worker is neither held by another nor claimed by one. */
  lemma OneAcquires(s: State, a: Action, j: JobId, v: WorkerId, w: WorkerId)
    requires Inv(s) && Enabled(s, a) && v != w && Acquires(s, a, j, v)
    ensures !Acquires(s, a, j, w)
  {
    if s.At(v).Holding() == Some(j) {
      HeldIsNotFree(s, v);
    }
    if s.At(w).Holding() == Some(j) {
      HeldIsNotFree(s, w);
    }
  }

  lemma StepKeepsExclusive(s: State, a: Action)
    requires Inv(s) && Enabled(s, a)
    ensures Exclusive(Apply(s, a))
  {
    var t := Apply(s, a);
    forall v, w | v in t.workers && w in t.workers && v != w && t.workers[v].Holding().Some?
      ensures t.workers[v].Holding() != t.workers[w].Holding()
    {
      var j := t.workers[v].Holding().value;
      NewHolderClaimed(s, a, j, v);
      OneAcquires(s, a, j, v, w);
      if t.workers[w].Holding() == Some(j) {
        NewHolderClaimed(s, a, j, w);
      }
    }
  }

  /** What may happen to a job under a worker's hands: at most an operator's cancel. */
  ghost predicate Undisturbed(s: State, t: State, j: JobId) {
    && SameIdentities(s, t) && j in s.jobs
    && (t.jobs[j].status == s.jobs[j].status || (s.jobs[j].status == Running && t.jobs[j].status == Cancelled))
    && (forall r | r in s.results && s.results[r].job == j :: r in t.results && t.results[r].job == j)
    && (forall r | r in t.results && t.results[r].job == j :: r in s.results && s.results[r].job == j)
  }

  lemma UndisturbedKeepsWorker(s: State, t: State, pc: Pc)
    requires WorkerOk(s, pc)
    requires pc.Holding().Some? ==> Undisturbed(s, t, pc.Holding().value)
    ensures WorkerOk(t, pc)
  {
  }

  /** The job that an action of a worker completes or fails is the one that worker holds. */
  lemma FinisherHolds(s: State, a: Action, w: WorkerId)
    requires Inv(s) && Enabled(s, a) && s.At(w).Holding().Some? && Apply(s, a).At(w) == s.At(w)
    requires IsFinisher(a)
    ensures s.At(a.w).Holding().Some? && s.At(a.w).Holding() != s.At(w).Holding()
  {
    assert a.w != w;
    assert s.workers[w].Holding() != s.workers[a.w].Holding();
  }

  lemma OthersKeepStatus(s: State, a: Action, w: WorkerId)
    requires Inv(s) && Enabled(s, a) && s.At(w).Holding().Some? && Apply(s, a).At(w) == s.At(w)
    ensures var j := s.At(w).Holding().value;
            var t := Apply(s, a);
            j in s.jobs && j in t.jobs &&
            (t.jobs[j].status == s.jobs[j].status || (s.jobs[j].status == Running && t.jobs[j].status == Cancelled))
  {
    HeldIsNotFree(s, w);
    StepTransition(s, a, s.At(w).Holding().value);
    if IsFinisher(a) {
      FinisherHolds(s, a, w);
    }
  }

  lemma OthersLeaveUndisturbed(s: State, a: Action, w: WorkerId)
    requires Inv(s) && Enabled(s, a) && s.At(w).Holding().Some? && Apply(s, a).At(w) == s.At(w)
    ensures Undisturbed(s, Apply(s, a), s.At(w).Holding().value)
  {
    StepKeepsIdentities(s, a);
    OthersKeepStatus(s, a, w);
    if a.Commit? {
      FinisherHolds(s, a, w);
      assert WorkerOk(s, s.workers[a.w]);
    } else {
      OnlyCommitWritesResults(s, a);
    }
  }

  lemma OwnMoveKeepsWorker(s: State, a: Action, w: WorkerId)
    requires Inv(s) && Enabled(s, a) && IsMove(a) && Apply(s, a).At(w) != s.At(w)
    ensures WorkerOk(Apply(s, a), Apply(s, a).At(w))
  {
    MoveWritesNothing(s, a);
    if w in s.workers {
      assert WorkerOk(s, s.workers[w]);
    }
  }

  lemma OwnWriteKeepsWorker(s: State, a: Action, w: WorkerId)
    requires Inv(s) && Enabled(s, a) && IsWorkerWrite(a) && Apply(s, a).At(w) != s.At(w)
    ensures WorkerOk(Apply(s, a), Apply(s, a).At(w))
  {
    WorkerWriteKeeps(s, a);
    WriteMovesOne(s, a, w);
    if w in s.workers {
      assert WorkerOk(s, s.workers[w]);
    }
  }

  lemma OwnStepKeepsWorker(s: State, a: Action, w: WorkerId)
    requires Inv(s) && Enabled(s, a) && Apply(s, a).At(w) != s.At(w)
    ensures WorkerOk(Apply(s, a), Apply(s, a).At(w))
  {
    if IsMove(a) {
      OwnMoveKeepsWorker(s, a, w);
    } else if IsHandler(a) {
      HandlerMovesNobody(s, a);
    } else {
      OwnWriteKeepsWorker(s, a, w);
    }
  }

  lemma StepKeepsWorkers(s: State, a: Action, w: WorkerId)
    requires Inv(s) && Enabled(s, a) && w in Apply(s, a).workers
    ensures WorkerOk(Apply(s, a), Apply(s, a).workers[w])
  {
    if Apply(s, a).At(w) != s.At(w) {
      OwnStepKeepsWorker(s, a, w);
    } else {
      if w in s.workers {
        assert WorkerOk(s, s.workers[w]);
      }
      if s.At(w).Holding().Some? {
        OthersLeaveUndisturbed(s, a, w);
      }
      UndisturbedKeepsWorker(s, Apply(s, a), s.At(w));
    }
  }

  lemma ResultsOkFrame(s: State, t: State)
    requires ResultsOk(s) && SameIdentities(s, t) && t.results == s.results
    ensures ResultsOk(t)
  {
  }

  lemma CommitKeepsResults(s: State, a: Action)
    requires Inv(s) && Enabled(s, a) && a.Commit?
    ensures ResultsOk(Apply(s, a))
  {
    assert WorkerOk(s, s.workers[a.w]);
  }

  lemma StepKeepsResults(s: State, a: Action)
    requires Inv(s) && Enabled(s, a)
    ensures ResultsOk(Apply(s, a))
  {
    if a.Commit? {
      CommitKeepsResults(s, a);
    } else {
      StepKeepsIdentities(s, a);
      ResultsOkFrame(s, Apply(s, a));
    }
  }

  lemma WriteCompletes(s: State, a: Action, j: JobId)
    requires Enabled(s, a) && IsWorkerWrite(a) && Apply(s, a).HasStatus(j, Completed)
    ensures s.HasStatus(j, Completed) || (a.Commit? && s.At(a.w).Holding() == Some(j))
  {
  }

  lemma StepKeepsResultRows(s: State, a: Action)
    requires Inv(s) && Enabled(s, a)
    ensures forall r | r in s.results :: r in Apply(s, a).results && Apply(s, a).results[r].job == s.results[r].job
  {
    if a.Commit? {
      assert WorkerOk(s, s.workers[a.w]);
    } else {
      OnlyCommitWritesResults(s, a);
    }
  }

  /** Only a commit completes a job; result rows are never dropped and never change their job. */
  lemma StepCompletes(s: State, a: Action, j: JobId)
    requires Inv(s) && Enabled(s, a) && Apply(s, a).HasStatus(j, Completed)
    ensures s.HasStatus(j, Completed) || (a.Commit? && s.At(a.w).Holding() == Some(j))
    ensures forall r | r in s.results :: r in Apply(s, a).results && Apply(s, a).results[r].job == s.results[r].job
  {
    StepKeepsResultRows(s, a);
    if IsMove(a) {
      MoveWritesNothing(s, a);
    } else if IsWorkerWrite(a) {
      WriteCompletes(s, a, j);
    }
  }

  lemma StepKeepsCompleted(s: State, a: Action)
    requires Inv(s) && Enabled(s, a)
    ensures CompletedOk(Apply(s, a))
  {
    StepKeepsIdentities(s, a);
    var t := Apply(s, a);
    forall j | t.HasStatus(j, Completed)
      ensures t.SameTenant(j) && exists r :: r in t.results && t.results[r].job == j
    {
      StepCompletes(s, a, j);
      if s.HasStatus(j, Completed) {
        var r :| r in s.results && s.results[r].job == j;
        assert r in t.results && t.results[r].job == j;
      } else {
        assert WorkerOk(s, s.workers[a.w]);
        assert a.r in t.results && t.results[a.r].job == j;
      }
    }
  }

  lemma StepKeepsInv(s: State, a: Action)
    requires Inv(s) && Enabled(s, a)
    ensures Inv(Apply(s, a))
  {
    StepKeepsExclusive(s, a);
    StepKeepsResults(s, a);
    StepKeepsCompleted(s, a);
    forall w | w in Apply(s, a).workers
      ensures WorkerOk(Apply(s, a), Apply(s, a).workers[w])
    {
      StepKeepsWorkers(s, a, w);
    }
  }

  lemma {:induction false} RunKeepsInv(s: State, run: seq<Action>)
    requires Inv(s) && ValidRun(s, run)
    ensures Inv(After(s, run))
  {
    if run != [] {
      RunKeepsInv(s, run[..|run| - 1]);
      StepKeepsInv(After(s, run[..|run| - 1]), run[|run| - 1]);
    }
  }

  // ---------------------------------------------------------------------------------------------
  // Safety over whole runs
  // ---------------------------------------------------------------------------------------------

  lemma InitInv(s: State)
    requires Init(s)
    ensures Inv(s)
  {
  }

  /** In every interleaving at most one worker processes a given job, and while one does the job is
      neither queued, so that nobody can claim it, nor failed, so that nobody can retry it. */
  lemma MutualExclusion(s: State, run: seq<Action>, v: WorkerId, w: WorkerId, j: JobId)
    requires Init(s) && ValidRun(s, run)
    requires After(s, run).At(v).Holding() == Some(j)
    ensures After(s, run).At(w).Holding() == Some(j) ==> v == w
    ensures j in After(s, run).jobs && After(s, run).jobs[j].status in {Running, Cancelled, Completed}
  {
    InitInv(s);
    RunKeepsInv(s, run);
    var t := After(s, run);
    assert WorkerOk(t, t.workers[v]);
  }

  /** A completed job has exactly one result row, and its tenant is the one that job, document and
      template version share. */
  lemma CompletedHasOneResult(s: State, run: seq<Action>, j: JobId)
    requires Init(s) && ValidRun(s, run) && After(s, run).HasStatus(j, Completed)
    ensures var t := After(s, run);
            && t.SameTenant(j)
            && exists r :: r in t.results && t.results[r].job == j && t.results[r].tenant == t.jobs[j].tenant
                        && forall q | q in t.results && t.results[q].job == j :: q == r
  {
    InitInv(s);
    RunKeepsInv(s, run);
    var t := After(s, run);
    assert CompletedOk(t);
    var r :| r in t.results && t.results[r].job == j;
    assert forall q | q in t.results && t.results[q].job == j :: q == r;
  }

  predicate IsClaimOf(a: Action, j: JobId) {
    (a.ClaimWon? && a.j == j) || (a.ClaimLocked? && a.j == j)
  }

  function Claims(run: seq<Action>, j: JobId): nat {
    if run == [] then 0
    else Claims(run[..|run| - 1], j) + (if IsClaimOf(run[|run| - 1], j) then 1 else 0)
  }

  function Retries(run: seq<Action>, j: JobId): nat {
    if run == [] then 0
    else
      var a := run[|run| - 1];
      Retries(run[..|run| - 1], j) + (if a.Retry? && a.j == j then 1 else 0)
  }

  /** The attempt counter against the claims and retries that have happened. */
  ghost predicate Accounted(s: State, j: JobId, claims: nat, retries: nat) {
    if j !in s.jobs then claims == retries == 0
    else
      && s.jobs[j].attempts == claims
      && (match s.jobs[j].status
          case Queued => claims == retries
          case Cancelled => retries <= claims <= retries + 1
          case _ => claims == retries + 1)
      && forall w | w in s.workers && s.workers[w].Holding() == Some(j) :: claims == retries + 1
  }

  /** The worker's next writes will not look at the status again. */
  predicate PastLastCheck(s: State, pc: Pc) {
    || pc.Checked? || pc.Looked? || pc.Failing?
    || (pc.Loaded? && pc.job in s.jobs && !s.RowsPresent(pc.job))
  }

  /** The transitions of one job's status and attempt counter. */
  ghost predicate Transition(s: State, t: State, a: Action, j: JobId)
    requires j in s.jobs && j in t.jobs
  {
    var x, y := s.jobs[j], t.jobs[j];
    if IsClaimOf(a, j) then x.status == Queued && y.status == Running && y.attempts == x.attempts + 1
    else
      && y.attempts == x.attempts
      && if a.Retry? && a.j == j then x.status == Failed && y.status == Queued
         else if a.Cancel? && a.j == j then (x.status == Queued || x.status == Running) && y.status == Cancelled
         else
           || y.status == x.status
           || (&& (a.Commit? || a.Fail? || a.FailMissing?) && s.At(a.w).Holding() == Some(j)
               && PastLastCheck(s, s.At(a.w)) && (y.status == Completed || y.status == Failed))
  }

  predicate IsFinisher(a: Action) {
    a.Commit? || a.Fail? || a.FailMissing?
  }

  lemma FinisherTransition(s: State, a: Action, j: JobId)
    requires Enabled(s, a) && j in s.jobs && IsFinisher(a)
    ensures j in Apply(s, a).jobs && Transition(s, Apply(s, a), a, j)
  {
  }

  lemma HandlerTransition(s: State, a: Action, j: JobId)
    requires Enabled(s, a) && j in s.jobs && IsHandler(a)
    ensures j in Apply(s, a).jobs && Transition(s, Apply(s, a), a, j)
  {
  }

  lemma WriteTransition(s: State, a: Action, j: JobId)
    requires Enabled(s, a) && j in s.jobs && IsWorkerWrite(a) && !IsFinisher(a)
    ensures j in Apply(s, a).jobs && Transition(s, Apply(s, a), a, j)
  {
  }

  lemma StepTransition(s: State, a: Action, j: JobId)
    requires Enabled(s, a) && j in s.jobs
    ensures j in Apply(s, a).jobs && Transition(s, Apply(s, a), a, j)
  {
    if IsMove(a) {
      MoveWritesNothing(s, a);
    } else if IsHandler(a) {
      HandlerTransition(s, a, j);
    } else if IsFinisher(a) {
      FinisherTransition(s, a, j);
    } else {
      WriteTransition(s, a, j);
    }
  }

  lemma NewHolderClaimed(s: State, a: Action, j: JobId, w: WorkerId)
    requires Enabled(s, a) && Apply(s, a).At(w).Holding() == Some(j)
    ensures Acquires(s, a, j, w)
  {
    if IsHandler(a) {
      HandlerMovesNobody(s, a);
    }
  }

  /** On a cancelled job no step brings a worker past its last check. */
  lemma CancelStopsAtCheck(s: State, a: Action, j: JobId, w: WorkerId)
    requires Enabled(s, a) && Apply(s, a).At(w).Holding() == Some(j) && !IsClaimOf(a, j)
    requires s.HasStatus(j, Cancelled) && PastLastCheck(Apply(s, a), Apply(s, a).At(w))
    ensures PastLastCheck(s, s.At(w))
  {
    StepKeepsIdentities(s, a);
  }

  lemma HolderAccounts(s: State, a: Action, j: JobId, w: WorkerId, claims: nat, retries: nat)
    requires Inv(s) && Enabled(s, a) && Accounted(s, j, claims, retries)
    requires w in Apply(s, a).workers && Apply(s, a).workers[w].Holding() == Some(j)
    ensures IsClaimOf(a, j) || (claims == retries + 1 && !(a.Retry? && a.j == j))
  {
    NewHolderClaimed(s, a, j, w);
    if s.At(w).Holding() == Some(j) {
      HeldIsNotFree(s, w);
    }
  }

  lemma StepAccounts(s: State, a: Action, j: JobId, claims: nat, retries: nat)
    requires Inv(s) && Enabled(s, a) && Accounted(s, j, claims, retries)
    ensures Accounted(Apply(s, a), j,
                      claims + (if IsClaimOf(a, j) then 1 else 0),
                      retries + (if a.Retry? && a.j == j then 1 else 0))
  {
    var t := Apply(s, a);
    forall w | w in t.workers && t.workers[w].Holding() == Some(j)
      ensures IsClaimOf(a, j) || (claims == retries + 1 && !(a.Retry? && a.j == j))
    {
      HolderAccounts(s, a, j, w, claims, retries);
    }
    if j in s.jobs {
      StepTransition(s, a, j);
    }
  }

  lemma {:induction false} RunAccounts(s: State, run: seq<Action>, j: JobId)
    requires Init(s) && ValidRun(s, run)
    ensures Accounted(After(s, run), j, Claims(run, j), Retries(run, j))
  {
    if run != [] {
      var n := |run| - 1;
      RunAccounts(s, run[..n], j);
      InitInv(s);
      RunKeepsInv(s, run[..n]);
      StepAccounts(After(s, run[..n]), run[n], j, Claims(run[..n], j), Retries(run[..n], j));
    }
  }

  /** In every run the attempt counter equals the number of successful claims, which is the number of
      retries while the job waits and one more once it runs, has completed or has failed. */
  lemma AttemptsCountClaims(s: State, run: seq<Action>, j: JobId)
    requires Init(s) && ValidRun(s, run) && j in After(s, run).jobs
    ensures var job := After(s, run).jobs[j];
            && job.attempts == Claims(run, j)
            && (job.status == Queued ==> Claims(run, j) == Retries(run, j))
            && (job.status in {Running, Completed, Failed} ==> Claims(run, j) == Retries(run, j) + 1)
            && (job.status == Cancelled ==> Retries(run, j) <= Claims(run, j) <= Retries(run, j) + 1)
  {
    RunAccounts(s, run, j);
  }

  // ---------------------------------------------------------------------------------------------
  // What a retry leaves behind
  // ---------------------------------------------------------------------------------------------

  /** The row of a new job, but for the attempts made. */
  predicate LooksNew(job: Job) {
    job == NewJob(job.tenant, job.document, job.template, job.createdAt).(attempts := job.attempts)
  }

  ghost predicate QueuedLookNew(s: State) {
    forall j | s.HasStatus(j, Queued) :: LooksNew(s.jobs[j])
  }

  lemma WriteKeepsQueued(s: State, a: Action, j: JobId)
    requires Inv(s) && Enabled(s, a) && IsWorkerWrite(a) && Apply(s, a).HasStatus(j, Queued)
    ensures s.HasStatus(j, Queued) && Apply(s, a).jobs[j] == s.jobs[j]
  {
    if s.At(a.w).Holding().Some? {
      HeldIsNotFree(s, a.w);
    }
  }

  lemma HandlerQueuesNew(s: State, a: Action, j: JobId)
    requires Enabled(s, a) && IsHandler(a) && Apply(s, a).HasStatus(j, Queued)
    ensures LooksNew(Apply(s, a).jobs[j]) || (s.HasStatus(j, Queued) && Apply(s, a).jobs[j] == s.jobs[j])
  {
  }

  lemma StepKeepsQueued(s: State, a: Action)
    requires Inv(s) && QueuedLookNew(s) && Enabled(s, a)
    ensures QueuedLookNew(Apply(s, a))
  {
    forall j | Apply(s, a).HasStatus(j, Queued)
      ensures LooksNew(Apply(s, a).jobs[j])
    {
      if IsMove(a) {
        MoveWritesNothing(s, a);
      } else if IsHandler(a) {
        HandlerQueuesNew(s, a, j);
      } else {
        WriteKeepsQueued(s, a, j);
      }
    }
  }

  /** Whatever workers wrote into a job before, once it is queued again its row is that of a new job, except
      that the attempts made are counted: no worker still reports into a retried job. */
  lemma QueuedJobIsNew(s: State, run: seq<Action>, j: JobId)
    requires Init(s) && QueuedLookNew(s) && ValidRun(s, run) && After(s, run).HasStatus(j, Queued)
    ensures var job := After(s, run).jobs[j];
            job == NewJob(job.tenant, job.document, job.template, job.createdAt).(attempts := Claims(run, j))
  {
    RunKeepsQueued(s, run);
    AttemptsCountClaims(s, run, j);
  }

  lemma {:induction false} RunKeepsQueued(s: State, run: seq<Action>)
    requires Init(s) && QueuedLookNew(s) && ValidRun(s, run)
    ensures QueuedLookNew(After(s, run))
  {
    if run != [] {
      var n := |run| - 1;
      RunKeepsQueued(s, run[..n]);
      InitInv(s);
      RunKeepsInv(s, run[..n]);
      StepKeepsQueued(After(s, run[..n]), run[n]);
    }
  }

  // ---------------------------------------------------------------------------------------------
  // When a cancel is final
  // ---------------------------------------------------------------------------------------------

  /** The job is cancelled and no worker on it is past its last cancel check. */
  ghost predicate SafelyCancelled(s: State, j: JobId) {
    && s.HasStatus(j, Cancelled)
    && forall w | w in s.workers && s.workers[w].Holding() == Some(j) :: !PastLastCheck(s, s.workers[w])
  }

  ghost predicate SameRows(s: State, t: State, j: JobId) {
    forall r ::
      && (r in s.results && s.results[r].job == j <==> r in t.results && t.results[r].job == j)
      && (r in s.results && s.results[r].job == j && r in t.results ==> t.results[r] == s.results[r])
  }

  lemma StepKeepsRows(s: State, a: Action, j: JobId)
    requires Inv(s) && Enabled(s, a)
    requires a.Commit? ==> s.At(a.w).Holding() != Some(j)
    ensures SameRows(s, Apply(s, a), j)
  {
    if a.Commit? {
      assert WorkerOk(s, s.workers[a.w]);
    } else {
      OnlyCommitWritesResults(s, a);
    }
  }

  lemma StepKeepsCancel(s: State, a: Action, j: JobId)
    requires Inv(s) && Enabled(s, a) && SafelyCancelled(s, j)
    ensures SafelyCancelled(Apply(s, a), j) && SameRows(s, Apply(s, a), j)
  {
    StepTransition(s, a, j);
    StepKeepsRows(s, a, j);
    forall w | w in Apply(s, a).workers && Apply(s, a).workers[w].Holding() == Some(j)
      ensures !PastLastCheck(Apply(s, a), Apply(s, a).workers[w])
    {
      NewHolderClaimed(s, a, j, w);
      if PastLastCheck(Apply(s, a), Apply(s, a).workers[w]) {
        CancelStopsAtCheck(s, a, j, w);
      }
    }
  }

  lemma {:induction false} SafeCancelIsFinal(s: State, run: seq<Action>, j: JobId)
    requires Inv(s) && ValidRun(s, run) && SafelyCancelled(s, j)
    ensures SafelyCancelled(After(s, run), j) && SameRows(s, After(s, run), j)
  {
    if run != [] {
      var n := |run| - 1;
      SafeCancelIsFinal(s, run[..n], j);
      RunKeepsInv(s, run[..n]);
      StepKeepsCancel(After(s, run[..n]), run[n], j);
    }
  }

  lemma FreshKey(keys: set<nat>) returns (n: nat)
    ensures n !in keys && forall k | k in keys :: k < n
  {
    if keys == {} {
      n := 0;
    } else {
      var k :| k in keys;
      var m := FreshKey(keys - {k});
      n := if k < m then m else k + 1;
      assert forall q | q in keys :: q in keys - {k} || q == k;
    }
  }

  lemma OneStepRun(s: State, a: Action)
    requires Enabled(s, a)
    ensures ValidRun(s, [a]) && After(s, [a]) == Apply(s, a)
  {
    assert [a][..0] == [];
  }

  lemma TwoStepRun(s: State, a: Action, b: Action)
    requires Enabled(s, a) && Enabled(Apply(s, a), b)
    ensures ValidRun(s, [a, b]) && After(s, [a, b]) == Apply(Apply(s, a), b)
  {
    OneStepRun(s, a);
    assert [a, b][..1] == [a];
  }

  /** A cancel that lands behind a worker's last check is overwritten by that worker's next writes. */
  lemma LateCancelIsLost(s: State, w: WorkerId, j: JobId) returns (run: seq<Action>)
    requires Inv(s) && s.HasStatus(j, Cancelled) && s.At(w).Holding() == Some(j) && PastLastCheck(s, s.At(w))
    ensures ValidRun(s, run) && !After(s, run).HasStatus(j, Cancelled)
  {
    assert WorkerOk(s, s.workers[w]);
    match s.At(w) {
      case Loaded(_) =>
        run := [FailMissing(w)];
        OneStepRun(s, run[0]);
      case Failing(_) =>
        run := [Fail(w, "")];
        OneStepRun(s, run[0]);
      case Looked(_, _, found) =>
        var r := FreshKey(s.results.Keys);
        run := [Commit(w, if found.Some? then found.value else r)];
        OneStepRun(s, run[0]);
      case Checked(_, _) => run := CheckedCompletes(s, w, j);
    }
  }

  /** A cancelled job stays cancelled in every continuation exactly when no worker on it is past its
      last cancel check; no result row of the job is then written or changed. */
  lemma CancelIsFinalIff(s: State, j: JobId)
    requires Inv(s) && s.HasStatus(j, Cancelled)
    ensures SafelyCancelled(s, j) <==>
              forall run | ValidRun(s, run) :: After(s, run).HasStatus(j, Cancelled) && SameRows(s, After(s, run), j)
  {
    if SafelyCancelled(s, j) {
      forall run | ValidRun(s, run)
        ensures After(s, run).HasStatus(j, Cancelled) && SameRows(s, After(s, run), j)
      {
        SafeCancelIsFinal(s, run, j);
      }
    } else {
      var w :| w in s.workers && s.workers[w].Holding() == Some(j) && PastLastCheck(s, s.workers[w]);
      var run := LateCancelIsLost(s, w, j);
    }
  }

  /** The cancel handler is safe against a worker that has not made its last check yet. */
  lemma TimelyCancelIsSafe(s: State, j: JobId, tenant: Tenant)
    requires Inv(s) && Enabled(s, Cancel(j, tenant))
    requires forall w | w in s.workers && s.workers[w].Holding() == Some(j) :: !PastLastCheck(s, s.workers[w])
    ensures SafelyCancelled(Apply(s, Cancel(j, tenant)), j)
  {
  }

  lemma CheckedCompletes(s: State, w: WorkerId, j: JobId) returns (run: seq<Action>)
    requires s.At(w).Checked? && s.At(w).job == j && s.RowsPresent(j)
    ensures ValidRun(s, run) && After(s, run).HasStatus(j, Completed)
  {
    var r := FreshKey(s.results.Keys);
    var found := if q :| q in s.results && s.results[q].job == j then Some(q) else None;
    run := [LookUp(w, found), Commit(w, if found.Some? then found.value else r)];
    TwoStepRun(s, run[0], run[1]);
  }

  lemma CancelBehindCheck(s: State, w: WorkerId, j: JobId) returns (run: seq<Action>)
    requires s.At(w) == Executing(j) && s.HasStatus(j, Running) && s.SameTenant(j)
    ensures ValidRun(s, run) && After(s, run).HasStatus(j, Cancelled) && After(s, run).RowsPresent(j)
    ensures After(s, run).At(w).Checked? && After(s, run).At(w).job == j
  {
    run := [LastCheck(w, ""), Cancel(j, s.jobs[j].tenant)];
    TwoStepRun(s, run[0], run[1]);
  }

  /** The overwriting is real: whenever a worker executes a running job, there is a run in which a cancel
      is accepted and the job is nevertheless completed. */
  lemma LateCancelPossible(s: State, w: WorkerId, j: JobId) returns (run: seq<Action>, rest: seq<Action>)
    requires Inv(s) && s.At(w) == Executing(j) && s.HasStatus(j, Running)
    ensures ValidRun(s, run) && After(s, run).HasStatus(j, Cancelled)
    ensures ValidRun(After(s, run), rest) && After(After(s, run), rest).HasStatus(j, Completed)
  {
    assert WorkerOk(s, s.workers[w]);
    run := CancelBehindCheck(s, w, j);
    rest := CheckedCompletes(After(s, run), w, j);
  }

  lemma RunExtends(s: State, run: seq<Action>, last: Action)
    requires ValidRun(s, run) && Enabled(After(s, run), last)
    ensures ValidRun(s, run + [last]) && After(s, run + [last]) == Apply(After(s, run), last)
  {
    assert (run + [last])[..|run|] == run;
  }

  /** The run reaches `t` from `s`. */
  ghost predicate Reaches(s: State, run: seq<Action>, t: State) {
    ValidRun(s, run) && After(s, run) == t
  }

  lemma ReachesExtends(s: State, run: seq<Action>, t: State, last: Action)
    requires Reaches(s, run, t) && Enabled(t, last)
    ensures Reaches(s, run + [last], Apply(t, last))
  {
    RunExtends(s, run, last);
  }

  lemma ReachesSplits(s: State, run: seq<Action>, t: State) returns (m: State)
    requires Reaches(s, run, t) && run != []
    ensures Reaches(s, run[..|run| - 1], m) && Enabled(m, run[|run| - 1]) && t == Apply(m, run[|run| - 1])
  {
    m := After(s, run[..|run| - 1]);
  }

  lemma {:induction false} ReachesConcat(s: State, a: seq<Action>, t: State, b: seq<Action>, u: State)
    requires Reaches(s, a, t) && Reaches(t, b, u)
    ensures Reaches(s, a + b, u)
    decreases |b|
  {
    if b == [] {
      assert a + b == a;
    } else {
      var m := ReachesSplits(t, b, u);
      ReachesConcat(s, a, t, b[..|b| - 1], m);
      ReachesExtends(s, a + b[..|b| - 1], m, b[|b| - 1]);
      assert a + b == (a + b[..|b| - 1]) + [b[|b| - 1]];
    }
  }

  lemma RunConcat(s: State, a: seq<Action>, b: seq<Action>)
    requires ValidRun(s, a) && ValidRun(After(s, a), b)
    ensures ValidRun(s, a + b) && After(s, a + b) == After(After(s, a), b)
  {
    ReachesConcat(s, a, After(s, a), b, After(After(s, a), b));
  }

  /** Any worker can bring a submitted job, whose document and template are there, to its execution. */
  lemma ExecutingReachable(s: State, w: WorkerId, j: JobId) returns (run: seq<Action>)
    requires s.At(w).Idle? && s.HasStatus(j, Queued) && s.SameTenant(j)
    ensures ValidRun(s, run) && After(s, run).At(w) == Executing(j) && After(s, run).HasStatus(j, Running)
  {
    var claimed := Apply(s, ClaimLocked(w, j));
    assert claimed.At(w) == Loaded(j) && claimed.SameTenant(j) && claimed.HasStatus(j, Running);
    TwoStepRun(s, ClaimLocked(w, j), Begin(w));
    var started := Apply(claimed, Begin(w));
    assert started.At(w) == Started(j) && started.HasStatus(j, Running);
    TwoStepRun(started, StoreText(w), FirstCheck(w));
    run := [ClaimLocked(w, j), Begin(w)] + [StoreText(w), FirstCheck(w)];
    RunConcat(s, [ClaimLocked(w, j), Begin(w)], [StoreText(w), FirstCheck(w)]);
  }

  /** So from every start with a submitted job there is a run in which an accepted cancel is lost. */
  lemma CancelCanBeLost(s: State, j: JobId) returns (run: seq<Action>, rest: seq<Action>)
    requires Init(s) && j in s.jobs && s.SameTenant(j)
    ensures ValidRun(s, run) && After(s, run).HasStatus(j, Cancelled)
    ensures ValidRun(s, run + rest) && After(s, run + rest).HasStatus(j, Completed)
  {
    var before := ExecutingReachable(s, 0, j);
    InitInv(s);
    RunKeepsInv(s, before);
    var cancel;
    cancel, rest := LateCancelPossible(After(s, before), 0, j);
    RunConcat(s, before, cancel);
    run := before + cancel;
    RunConcat(s, run, rest);
  }
}

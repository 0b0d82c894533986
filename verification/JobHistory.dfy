/** What the rows of the queue say after a run: which extraction a result holds, and what each step writes. */
module JobHistory {
  import opened Basics
  import opened JobRows
  import opened JobQueue

  // ---------------------------------------------------------------------------------------------
  // Which extraction a result holds
  // ---------------------------------------------------------------------------------------------

  /** The extraction that a worker brought to its last cancel check. */
  function LastExtraction(run: seq<Action>, w: WorkerId): Option<string> {
    if run == [] then None
    else
      var a := run[|run| - 1];
      if a.LastCheck? && a.w == w then Some(a.payload) else LastExtraction(run[..|run| - 1], w)
  }

  /** The extraction of the worker that committed last on a job. */
  function LastCommitted(s: State, run: seq<Action>, j: JobId): Option<string> {
    if run == [] then None
    else
      var before, a := run[..|run| - 1], run[|run| - 1];
      if a.Commit? && After(s, before).At(a.w).Holding() == Some(j) then LastExtraction(before, a.w)
      else LastCommitted(s, before, j)
  }

  predicate CarriesExtraction(pc: Pc) {
    pc.Checked? || pc.Looked?
  }

  lemma StepCarries(s: State, a: Action, w: WorkerId)
    requires Enabled(s, a) && CarriesExtraction(Apply(s, a).At(w))
    ensures if a.LastCheck? && a.w == w then Apply(s, a).At(w).payload == a.payload
            else CarriesExtraction(s.At(w)) && Apply(s, a).At(w).payload == s.At(w).payload
  {
    if IsHandler(a) {
      HandlerMovesNobody(s, a);
    }
  }

  lemma {:induction false} RunCarries(s: State, run: seq<Action>, w: WorkerId)
    requires Init(s) && ValidRun(s, run) && CarriesExtraction(After(s, run).At(w))
    ensures LastExtraction(run, w) == Some(After(s, run).At(w).payload)
  {
    if run != [] {
      var n := |run| - 1;
      StepCarries(After(s, run[..n]), run[n], w);
      if !(run[n].LastCheck? && run[n].w == w) {
        RunCarries(s, run[..n], w);
      }
    }
  }

  /** Every row is unreviewed and holds the extraction committed last on its job. */
  ghost predicate RowsHold(s: State, run: seq<Action>) {
    var t := After(s, run);
    forall r | r in t.results :: t.results[r].pending && LastCommitted(s, run, t.results[r].job) == Some(t.results[r].payload)
  }

  lemma CommitHolds(s: State, before: seq<Action>, a: Action, r: ResultId)
    requires Init(s) && ValidRun(s, before + [a]) && a.Commit? && RowsHold(s, before) && r in After(s, before + [a]).results
    ensures var row := After(s, before + [a]).results[r];
            row.pending && LastCommitted(s, before + [a], row.job) == Some(row.payload)
  {
    var run := before + [a];
    assert run[..|before|] == before && run[|before|] == a;
    var m := After(s, before);
    InitInv(s);
    RunKeepsInv(s, before);
    RunKeepsInv(s, run);
    RunCarries(s, before, a.w);
    var t := After(s, run);
    if r != a.r {
      assert t.results[r] == m.results[r];
      assert t.results[a.r].job == m.At(a.w).job;
      assert ResultsOk(t);
    }
  }

  lemma {:induction false} RunRowsHold(s: State, run: seq<Action>)
    requires Init(s) && ValidRun(s, run)
    ensures RowsHold(s, run)
  {
    if run != [] {
      var n := |run| - 1;
      var before, a := run[..n], run[n];
      RunRowsHold(s, before);
      assert run == before + [a];
      if a.Commit? {
        forall r | r in After(s, run).results
          ensures After(s, run).results[r].pending
          ensures LastCommitted(s, run, After(s, run).results[r].job) == Some(After(s, run).results[r].payload)
        {
          CommitHolds(s, before, a, r);
        }
      } else {
        OnlyCommitWritesResults(After(s, before), a);
      }
    }
  }

  /** The only result of a completed job waits for review and holds the extraction that the worker which committed
      last on the job had brought to its last cancel check. */
  lemma CompletedHoldsExtraction(s: State, run: seq<Action>, j: JobId)
    requires Init(s) && ValidRun(s, run) && After(s, run).HasStatus(j, Completed)
    ensures var t := After(s, run);
            exists r :: r in t.results && t.results[r].job == j && t.results[r].tenant == t.jobs[j].tenant
                     && t.results[r].pending && Some(t.results[r].payload) == LastCommitted(s, run, j)
                     && forall q | q in t.results && t.results[q].job == j :: q == r
  {
    CompletedHasOneResult(s, run, j);
    RunRowsHold(s, run);
  }

  // ---------------------------------------------------------------------------------------------
  // What a step writes
  // ---------------------------------------------------------------------------------------------

  /** Rows of a state without its workers. */
  ghost predicate SameRowsElsewhere(s: State, t: State, j: JobId) {
    && t.templates == s.templates && t.jobs.Keys == s.jobs.Keys + {j}
    && (forall k | k in s.jobs && k != j :: t.jobs[k] == s.jobs[k])
  }

  ghost predicate OnlyDocument(s: State, t: State, d: DocumentId, status: DocumentStatus) {
    && t.documents.Keys == s.documents.Keys
    && (forall e | e in s.documents && e != d :: t.documents[e] == s.documents[e])
    && (d in s.documents ==> t.documents[d] == Document(s.documents[d].tenant, status))
  }

  /** Submitting a job queues it and its document. */
  lemma CreateWrites(s: State, a: Action)
    requires Enabled(s, a) && a.Create?
    ensures var t := Apply(s, a);
            && SameRowsElsewhere(s, t, a.j) && OnlyDocument(s, t, a.document, Waiting)
            && t.jobs[a.j] == Job(a.tenant, a.document, a.template, a.now, Queued, None, AtQueue, 0, None, 0)
  {
  }

  /** A retry empties the row but for its identity and its attempts, and queues the document. */
  lemma RetryWrites(s: State, a: Action)
    requires Enabled(s, a) && a.Retry?
    ensures var t, x := Apply(s, a), s.jobs[a.j];
            && SameRowsElsewhere(s, t, a.j) && OnlyDocument(s, t, x.document, Waiting)
            && t.jobs[a.j] == Job(x.tenant, x.document, x.template, x.createdAt, Queued, None, AtQueue, 0, None, x.attempts)
  {
  }

  /** A cancel marks the row, frees the worker field, and releases a document that waits or is processed. */
  lemma CancelWrites(s: State, a: Action)
    requires Enabled(s, a) && a.Cancel?
    ensures var t, x := Apply(s, a), s.jobs[a.j];
            var was := s.documents[x.document].status;
            && SameRowsElsewhere(s, t, a.j)
            && OnlyDocument(s, t, x.document, if was in {Waiting, Processing} then Uploaded else was)
            && t.jobs[a.j] == Job(x.tenant, x.document, x.template, x.createdAt, Cancelled, Some("Cancelled by operator."),
                                  AtCancelled, 0, None, x.attempts)
  {
  }

  /** A claim sets the status, the worker and the attempts, and nothing else. */
  lemma ClaimWrites(s: State, a: Action)
    requires Enabled(s, a) && (a.ClaimWon? || a.ClaimLocked?)
    ensures var t, x := Apply(s, a), s.jobs[a.j];
            && SameRowsElsewhere(s, t, a.j) && t.documents == s.documents && t.At(a.w) == Loaded(a.j)
            && t.jobs[a.j] == Job(x.tenant, x.document, x.template, x.createdAt, Running, x.error, x.stage, x.pct, Some(a.w), x.attempts + 1)
  {
  }

  /** The percentages of the reported stages. */
  function Reported(stage: Stage, before: nat): nat {
    if stage in {AtQueue, AtFailed} then 0
    else if stage == Parsing then 15
    else if stage == Extracting then 45
    else if stage == Validating then 70
    else if stage == Calculating then 85
    else if stage == AtCompleted then 100
    else before
  }

  /** Progress is stage and percentage; the first report also marks the document. */
  lemma ProgressWrites(s: State, a: Action)
    requires Enabled(s, a) && (a.Begin? || a.Report?)
    ensures var t, j := Apply(s, a), s.At(a.w).job;
            var x, stage := s.jobs[j], if a.Begin? then Parsing else a.stage;
            && SameRowsElsewhere(s, t, j)
            && (if a.Begin? then OnlyDocument(s, t, x.document, Processing) else t.documents == s.documents)
            && t.jobs[j] == Job(x.tenant, x.document, x.template, x.createdAt, x.status, x.error, stage, Reported(stage, x.pct),
                                x.worker, x.attempts)
  {
  }

  /** Completion leaves error and worker in place and marks the document; only the one result row changes. */
  lemma CommitWrites(s: State, a: Action)
    requires Enabled(s, a) && a.Commit?
    ensures var t, j := Apply(s, a), s.At(a.w).job;
            var x := s.jobs[j];
            && SameRowsElsewhere(s, t, j) && OnlyDocument(s, t, x.document, Done)
            && t.jobs[j] == Job(x.tenant, x.document, x.template, x.createdAt, Completed, x.error, AtCompleted, 100, x.worker, x.attempts)
            && t.results.Keys == s.results.Keys + {a.r}
            && forall r | r in s.results && r != a.r :: t.results[r] == s.results[r]
  {
  }

  /** A failure stores its message; when the document or the template is missing, no document is touched. */
  lemma FailWrites(s: State, a: Action)
    requires Enabled(s, a) && (a.Fail? || a.FailMissing?)
    ensures var t, j := Apply(s, a), s.At(a.w).job;
            var x, message := s.jobs[j], if a.Fail? then a.message else "Document or template version missing.";
            && SameRowsElsewhere(s, t, j)
            && (if a.Fail? then OnlyDocument(s, t, x.document, Broken) else t.documents == s.documents)
            && t.jobs[j] == Job(x.tenant, x.document, x.template, x.createdAt, Failed, Some(message), AtFailed, 0, x.worker, x.attempts)
  {
  }

  /** A worker that finds its job cancelled releases the document and leaves every job alone. */
  lemma FinalizeWrites(s: State, a: Action)
    requires Enabled(s, a) && a.Finalize?
    ensures var t := Apply(s, a);
            t.jobs == s.jobs && OnlyDocument(s, t, s.jobs[s.At(a.w).job].document, Uploaded)
  {
  }

  // ---------------------------------------------------------------------------------------------
  // The claim loop
  // ---------------------------------------------------------------------------------------------

  /** A worker that looks for a job takes an oldest queued one, or finds none; it can always do one of the two. */
  lemma SelectionIsOldest(s: State, w: WorkerId) returns (a: Action)
    requires s.At(w).Selecting?
    ensures Enabled(s, a) && (a == SelectNone(w) || (a.Select? && a.w == w))
    ensures Enabled(s, SelectNone(w)) <==> forall j | j in s.jobs :: s.jobs[j].status != Queued
    ensures forall j | Enabled(s, Select(w, j)) ::
              j in s.jobs && s.jobs[j].status == Queued && Apply(s, Select(w, j)).At(w) == Candidate(j, s.At(w).tries)
              && forall k | k in s.jobs && s.jobs[k].status == Queued :: s.jobs[j].createdAt <= s.jobs[k].createdAt
  {
    var queued := set j | j in s.jobs && s.jobs[j].status == Queued;
    if queued == {} {
      a := SelectNone(w);
      assert forall j | j in s.jobs :: j !in queued;
    } else {
      var j := Oldest(s, queued);
      a := Select(w, j);
    }
  }

  lemma {:induction false} Oldest(s: State, queued: set<JobId>) returns (j: JobId)
    requires queued != {} && queued <= s.jobs.Keys
    ensures j in queued && forall k | k in queued :: s.jobs[j].createdAt <= s.jobs[k].createdAt
    decreases queued
  {
    j :| j in queued;
    if queued != {j} {
      var other := Oldest(s, queued - {j});
      assert forall k | k in queued :: k == j || k in queued - {j};
      if s.jobs[other].createdAt < s.jobs[j].createdAt {
        j := other;
      }
    }
  }

  /** The claims a worker has lost since it last began to look for a job. */
  function Losses(run: seq<Action>, w: WorkerId): nat {
    if run == [] then 0
    else
      var a := run[|run| - 1];
      if a == Poll(w) then 0
      else Losses(run[..|run| - 1], w) + (if a == ClaimLost(w) then 1 else 0)
  }

  predicate IsLooking(pc: Pc) {
    pc.Selecting? || pc.Candidate?
  }

  lemma StepLooks(s: State, a: Action, w: WorkerId)
    requires Enabled(s, a) && IsLooking(Apply(s, a).At(w))
    ensures if a == Poll(w) then Apply(s, a).At(w).tries == 0
            else IsLooking(s.At(w)) && Apply(s, a).At(w).tries == s.At(w).tries + (if a == ClaimLost(w) then 1 else 0)
    ensures a == ClaimLost(w) ==> s.At(w).tries < 4
  {
    if IsHandler(a) {
      HandlerMovesNobody(s, a);
    }
  }

  /** The loop counts its losses and gives up after the fifth. */
  lemma {:induction false} FiveTries(s: State, run: seq<Action>, w: WorkerId)
    requires Init(s) && ValidRun(s, run) && IsLooking(After(s, run).At(w))
    ensures After(s, run).At(w).tries == Losses(run, w) <= 4
    ensures Losses(run, w) == 4 && Enabled(After(s, run), ClaimLost(w)) ==>
              Apply(After(s, run), ClaimLost(w)).At(w) == Idle
  {
    if run != [] {
      var n := |run| - 1;
      StepLooks(After(s, run[..n]), run[n], w);
      if run[n] != Poll(w) {
        FiveTries(s, run[..n], w);
      }
    }
  }

  // ---------------------------------------------------------------------------------------------
  // The path of a worker through its job
  // ---------------------------------------------------------------------------------------------

  datatype Milestone = Begun | Stored | FirstChecked | LastChecked | LookedUp | Saved

  function MilestoneOf(a: Action): Option<Milestone> {
    match a
    case Begin(_) => Some(Begun)
    case StoreText(_) => Some(Stored)
    case FirstCheck(_) => Some(FirstChecked)
    case LastCheck(_, _) => Some(LastChecked)
    case LookUp(_, _) => Some(LookedUp)
    case Commit(_, _) => Some(Saved)
    case _ => None
  }

  /** What a worker has done since it claimed its job. */
  function Trail(run: seq<Action>, w: WorkerId): seq<Milestone> {
    if run == [] then []
    else
      var before, a := Trail(run[..|run| - 1], w), run[|run| - 1];
      if (a.ClaimWon? || a.ClaimLocked?) && a.w == w then []
      else if MilestoneOf(a).Some? && a.w == w then before + [MilestoneOf(a).value]
      else before
  }

  /** The only way to each place of the main path. */
  function PathTo(pc: Pc): Option<seq<Milestone>> {
    match pc
    case Loaded(_) => Some([])
    case Started(_) => Some([Begun])
    case TextStored(_) => Some([Begun, Stored])
    case Executing(_) => Some([Begun, Stored, FirstChecked])
    case Checked(_, _) => Some([Begun, Stored, FirstChecked, LastChecked])
    case Looked(_, _, _) => Some([Begun, Stored, FirstChecked, LastChecked, LookedUp])
    case Committed(_) => Some([Begun, Stored, FirstChecked, LastChecked, LookedUp, Saved])
    case _ => None
  }

  lemma StepFollowsPath(s: State, a: Action, w: WorkerId, before: seq<Milestone>)
    requires Enabled(s, a) && (PathTo(s.At(w)).Some? ==> PathTo(s.At(w)).value == before)
    requires PathTo(Apply(s, a).At(w)).Some?
    ensures PathTo(Apply(s, a).At(w)).value
         == if (a.ClaimWon? || a.ClaimLocked?) && a.w == w then []
            else if MilestoneOf(a).Some? && a.w == w then before + [MilestoneOf(a).value]
            else before
  {
    if IsHandler(a) {
      HandlerMovesNobody(s, a);
    }
  }

  /** A worker reaches each place only by the whole path: it stores the text, looks for a cancel before and after the
      extraction, and looks for an old result before it commits. */
  lemma {:induction false} WorkersFollowPath(s: State, run: seq<Action>, w: WorkerId)
    requires Init(s) && ValidRun(s, run) && PathTo(After(s, run).At(w)).Some?
    ensures PathTo(After(s, run).At(w)).value == Trail(run, w)
  {
    if run != [] {
      var n := |run| - 1;
      var m := After(s, run[..n]);
      if PathTo(m.At(w)).Some? {
        WorkersFollowPath(s, run[..n], w);
      }
      StepFollowsPath(m, run[n], w, Trail(run[..n], w));
    }
  }

  /** The cancel checks read the status of the moment: a cancelled job is neither extracted nor committed by a worker
      that checks it, nor failed by one that has met an exception. */
  lemma ChecksSeeCancel(s: State, a: Action)
    requires Enabled(s, a) && (a.FirstCheck? || a.LastCheck? || a.Refresh?)
    ensures var j := s.At(a.w).job;
            var cancelled := j in s.jobs && s.jobs[j].status == Cancelled;
            && (cancelled <==> Apply(s, a).At(a.w).Cancelling?)
            && Apply(s, a).At(a.w).job == j
            && (a.Refresh? && !cancelled ==> Apply(s, a).At(a.w) == Failing(j))
  {
  }

  // ---------------------------------------------------------------------------------------------
  // Who may act, and how a guarded block ends
  // ---------------------------------------------------------------------------------------------

  /** The handlers serve a tenant's own rows: a job is submitted for its document and template, retried after a failure,
      and cancelled while it waits or runs. */
  lemma HandlersAccept(s: State, j: JobId, tenant: Tenant, d: DocumentId, t: TemplateId, now: nat)
    ensures var owned := d in s.documents && s.documents[d].tenant == tenant && t in s.templates && s.templates[t] == tenant;
            Enabled(s, Create(j, tenant, d, t, now)) <==> j !in s.jobs && owned
    ensures j in s.jobs && s.jobs[j].document == d && s.jobs[j].template == t ==>
              var ownDocument := d in s.documents && s.documents[d].tenant == tenant == s.jobs[j].tenant;
              && (Enabled(s, Retry(j, tenant)) <==>
                    s.jobs[j].status == Failed && ownDocument && t in s.templates && s.templates[t] == tenant)
              && (Enabled(s, Cancel(j, tenant)) <==> s.jobs[j].status in {Queued, Running} && ownDocument)
    ensures j !in s.jobs ==> !Enabled(s, Retry(j, tenant)) && !Enabled(s, Cancel(j, tenant))
  {
  }

  lemma StepKeepsTenants(s: State, a: Action, j: JobId)
    requires Enabled(s, a) && (j in s.jobs ==> s.SameTenant(j)) && j in Apply(s, a).jobs
    ensures Apply(s, a).SameTenant(j)
  {
    StepKeepsIdentities(s, a);
    if !a.Create? {
      StepKeepsJobs(s, a);
    }
  }

  lemma StepKeepsJobs(s: State, a: Action)
    requires Enabled(s, a) && !a.Create?
    ensures Apply(s, a).jobs.Keys == s.jobs.Keys
  {
    if IsMove(a) {
      MoveWritesNothing(s, a);
    }
  }

  /** In every run a job shares its tenant with its document and its template, if the first jobs do; so the check of the
      worker passes for all of them. */
  lemma {:induction false} TenantsAgree(s: State, run: seq<Action>, j: JobId)
    requires ValidRun(s, run) && (forall k | k in s.jobs :: s.SameTenant(k)) && j in After(s, run).jobs
    ensures After(s, run).SameTenant(j)
  {
    if run != [] {
      var before := After(s, run[..|run| - 1]);
      if j in before.jobs {
        TenantsAgree(s, run[..|run| - 1], j);
      }
      StepKeepsTenants(before, run[|run| - 1], j);
    }
  }

  /** A candidate is claimed exactly while it is queued, and lost exactly when it no longer is. */
  lemma ClaimIsDecided(s: State, w: WorkerId)
    requires s.At(w).Candidate?
    ensures var j := s.At(w).job;
            && (Enabled(s, ClaimWon(w, j)) <==> j in s.jobs && s.jobs[j].status == Queued)
            && (Enabled(s, ClaimLost(w)) <==> !Enabled(s, ClaimWon(w, j)))
  {
  }

  /** An exception may strike anywhere in the guarded block, the status write after completion included. Undisturbed, the
      handler then fails the job, with the exception's message, or releases the document of a cancelled one; a result that
      was stored stays. */
  lemma ExceptionEnds(s: State, w: WorkerId, message: string) returns (run: seq<Action>)
    requires s.At(w).Guarded() && s.RowsPresent(s.At(w).job)
    ensures var j := s.At(w).job;
            var t := After(s, run);
            && ValidRun(s, run) && t.At(w) == Idle && t.results == s.results
            && (if s.jobs[j].status == Cancelled then t.jobs == s.jobs && OnlyDocument(s, t, s.jobs[j].document, Uploaded)
                else
                  && t.HasStatus(j, Failed) && t.jobs[j].error == Some(message)
                  && OnlyDocument(s, t, s.jobs[j].document, Broken))
  {
    var j := s.At(w).job;
    var caught := Caught(s, w);
    var last := if s.jobs[j].status == Cancelled then Finalize(w) else Fail(w, message);
    RunExtends(s, [Throw(w), Refresh(w)], last);
    if last.Fail? {
      FailWrites(caught, last);
    } else {
      FinalizeWrites(caught, last);
    }
    run := [Throw(w), Refresh(w)] + [last];
  }

  /** An exception reaches its handler, which looks for a cancel. */
  lemma Caught(s: State, w: WorkerId) returns (t: State)
    requires s.At(w).Guarded() && s.RowsPresent(s.At(w).job)
    ensures var j := s.At(w).job;
            && ValidRun(s, [Throw(w), Refresh(w)]) && After(s, [Throw(w), Refresh(w)]) == t
            && t == s.Move(w, if s.jobs[j].status == Cancelled then Cancelling(j, true) else Failing(j))
  {
    var j := s.At(w).job;
    t := s.Move(w, if s.jobs[j].status == Cancelled then Cancelling(j, true) else Failing(j));
    TwoStepRun(s, Throw(w), Refresh(w));
  }

  /** So a job whose result is stored may still end as failed. */
  lemma CompletedCanFail(s: State, w: WorkerId, j: JobId) returns (run: seq<Action>)
    requires Inv(s) && s.At(w) == Committed(j)
    ensures ValidRun(s, run) && After(s, run).HasStatus(j, Failed)
    ensures exists r :: r in After(s, run).results && After(s, run).results[r].job == j
  {
    assert WorkerOk(s, s.workers[w]);
    run := ExceptionEnds(s, w, "");
  }
}

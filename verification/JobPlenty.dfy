/** Runs of the job service in which no allocation fails. */
module JobPlenty {
  import opened Bytes
  import opened JobModel
  import opened JobInvariant
  import opened JobRuns
  import opened JobSafety
  import Tokenizer

  /** Every allocation this call makes succeeds. */
  ghost predicate NeverShort(op: Operation) {
    match op
    case Create(_, _, world) => Plenty(world.mem)
    case Approve(_, _, _, copied, finalCopied) => copied && finalCopied
    case Reject(_, _, copied, finalCopied) => copied && finalCopied
    case Regenerate(_, _, _, copied) => copied
    case Cancel(_, copied) => copied
  }

  /** Between two calls a job waits for reviews or is done. */
  predicate Settled(job: Job) {
    && job.status in {ReviewReady, Completed, Failed, Canceled}
    && (job.status == ReviewReady ==> HasPending(job.drafts))
  }

  /** A completed job that has a pending draft. */
  predicate Open(job: Job) {
    job.status == Completed && HasPending(job.drafts)
  }

  ghost predicate Smooth(job: Job, log: seq<Entry>) {
    && Settled(job)
    && Count(log, StoresLost, job.id) == 0
    && (job.status == Failed <==> Count(log, Failures, job.id) == 1)
    && (Open(job) ==> Count(log, Reopened, job.id) > 0)
  }

  // ----- one call on one job -----

  ghost predicate SmoothEffect(job: Job, o: Outcome) {
    && (Settled(job) ==> Settled(o.job))
    && Count(o.log, StoresLost, job.id) == 0
    && (Settled(job) && Open(o.job) ==> Open(job) || Count(o.log, Reopened, job.id) > 0)
  }

  lemma NothingSmooth(job: Job, code: Code)
    ensures SmoothEffect(job, Outcome(job, [], code))
  {
  }

  /** A review that ends in `Finalize`, with `kept` logged before. */
  lemma FinalizeSmooth(job: Job, reviewed: Job, kept: seq<Entry>)
    requires reviewed.id == job.id && reviewed.status == job.status
    requires HasPending(reviewed.drafts) ==> HasPending(job.drafts)
    requires forall i :: 0 <= i < |kept| ==> !kept[i].StoreLost?
    ensures var (final, more) := Finalize(reviewed, true); SmoothEffect(job, Outcome(final, kept + more, Ok))
  {
    var (final, more) := Finalize(reviewed, true);
    NeverLost(kept + more, job.id);
  }

  lemma ReviewedPending(job: Job, k: nat, status: DraftStatus, card: int)
    requires k < |job.drafts| && status != Pending
    ensures HasPending(Reviewed(job, k, status, card).drafts) ==> HasPending(job.drafts)
  {
  }

  lemma RegenerateSmooth(job: Job, k: nat, card: Card)
    requires k < |job.drafts|
    ensures SmoothEffect(job, RegenerateDraft(job, k, Some(card), true))
  {
    var o := RegenerateDraft(job, k, Some(card), true);
    if o.code == Ok {
      assert o.job.drafts[k].status == Pending;
      CountTwo(o.log[0], o.log[0], StoresLost, job.id);
      CountTwo(o.log[0], o.log[0], Reopened, job.id);
    }
  }

  lemma ReviewSmooth(job: Job, k: nat, op: Operation)
    requires k < |job.drafts| && Reviewing(op) && NeverShort(op)
    ensures SmoothEffect(job, Review(job, k, op))
  {
    hide SmoothEffect, Finalize, HasPending;
    NothingSmooth(job, Review(job, k, op).code);
    match op
    case Approve(_, _, saved, _, _) =>
      if saved.Some? {
        ReviewedPending(job, k, Approved, saved.value);
        FinalizeSmooth(job, Reviewed(job, k, Approved, saved.value),
                       [CardStored(job.id), CardSaved(job.id, job.drafts[k].id)]);
      }
    case Reject(_, _, _, _) =>
      ReviewedPending(job, k, Rejected, job.drafts[k].savedCard);
      FinalizeSmooth(job, Reviewed(job, k, Rejected, job.drafts[k].savedCard), []);
      EmptyFirst(Finalize(Reviewed(job, k, Rejected, job.drafts[k].savedCard), true).1);
    case Regenerate(_, _, card, _) =>
      if card.Some? {
        RegenerateSmooth(job, k, card.value);
      }
  }

  lemma EmptyFirst(log: seq<Entry>)
    ensures [] + log == log
  {
  }

  lemma CancelSmooth(job: Job)
    ensures SmoothEffect(job, CancelJob(job, true))
  {
  }

  /** `StepIsStored`, with what plenty of memory adds. */
  lemma StepIsSmooth(s: Service, op: Operation) returns (j: nat, o: Outcome)
    requires !op.Create? && NeverShort(op)
    ensures Step(s, op).service == s
            || (j < |s.jobs| && Step(s, op) == Stored(s, j, o) && Effect(s.jobs[j], o) && SmoothEffect(s.jobs[j], o))
  {
    hide Effect, SmoothEffect, CancelJob, Review;
    j, o := 0, Outcome(NewJob(0, 0, []), [], Code.Ok);
    var i := FindJob(s.jobs, op.job);
    if i.Some? {
      j := i.value;
      if op.Cancel? {
        o := CancelJob(s.jobs[j], op.copied);
        CancelEffect(s.jobs[j], op.copied);
        CancelSmooth(s.jobs[j]);
      } else {
        var k := FindDraft(s.jobs[j].drafts, op.draft);
        if k.Some? {
          o := Review(s.jobs[j], k.value, op);
          ReviewEffect(s.jobs[j], k.value, op);
          ReviewSmooth(s.jobs[j], k.value, op);
        }
      }
    }
  }

  // ----- the table -----

  ghost predicate SmoothTable(s: Service) {
    Audited(s) && forall i :: 0 <= i < |s.jobs| ==> Smooth(s.jobs[i], s.log)
  }

  lemma EffectSmooth(job: Job, o: Outcome, log: seq<Entry>)
    requires Smooth(job, log) && Effect(job, o) && SmoothEffect(job, o)
    ensures Smooth(o.job, log + o.log)
  {
    hide Count, ApprovedDrafts, HasPending;
    forall what: Tally
      ensures Count(log + o.log, what, job.id) == Count(log, what, job.id) + Count(o.log, what, job.id)
    {
      CountConcat(log, o.log, what, job.id);
    }
  }

  lemma OthersSmooth(job: Job, before: seq<Entry>, after: seq<Entry>)
    requires Smooth(job, before) && before <= after
    requires forall j :: |before| <= j < |after| ==> after[j].job != job.id
    ensures Smooth(job, after)
  {
    hide Count, Settled, Open;
    forall what: Tally
      ensures Count(after, what, job.id) == Count(before, what, job.id)
    {
      CountExtends(before, after, what, job.id);
    }
  }

  lemma StoredSmooth(s: Service, j: nat, o: Outcome)
    requires SmoothTable(s) && j < |s.jobs| && Effect(s.jobs[j], o) && SmoothEffect(s.jobs[j], o)
    requires Audited(Stored(s, j, o).service)
    ensures SmoothTable(Stored(s, j, o).service)
  {
    hide Told, Smooth, SmoothEffect, JobConsistent, AllIds, ApprovedDrafts;
    var t := Stored(s, j, o).service;
    forall i | 0 <= i < |t.jobs|
      ensures Smooth(t.jobs[i], t.log)
    {
      if i == j {
        EffectSmooth(s.jobs[j], o, s.log);
      } else {
        OthersSmooth(s.jobs[i], s.log, t.log);
      }
    }
  }

  /** A job created with plenty of memory is settled, and announced as failed exactly if it failed. */
  lemma CreationSmooth(s: Service, text: bytes, user: int, w: World)
    requires Audited(s) && Plenty(w.mem)
    ensures Smooth(CreatedBy(s, text, user, w).job, CreatedBy(s, text, user, w).log)
  {
    hide Pipeline, Consistent;
    var job, log, id := NewJob(s.nextJob, user, text), CreatedLog(s), s.nextJob;
    var g := CreatedBy(s, text, user, w);
    PipelineCreates(job, s.nextDraft, log, w);
    CreationFailures(s, text, user, w);
    var n := PipelineAdds(job, s.nextDraft, log, w);
    assert forall j :: 0 <= j < |g.job.drafts| ==> FreshDraft(g.job.drafts[j], job, s.nextDraft + j);
    if g.job.drafts != [] {
      assert g.job.drafts[0].status == Pending;
    }
    CountConcat(s.log, [JobCreated(id)], StoresLost, id);
    CountOthers(s.log, StoresLost, id);
    CountTwo(JobCreated(id), JobCreated(id), StoresLost, id);
  }

  lemma CreateSmooth(s: Service, text: bytes, user: int, w: World)
    requires SmoothTable(s) && Plenty(w.mem)
    ensures SmoothTable(CreateJob(s, text, user, w).service)
  {
    hide Pipeline, Told, Smooth, JobConsistent, AllIds, Plenty;
    CreateAudited(s, text, user, w);
    PlentyFinal(w.mem);
    if text != [] && |s.jobs| < MAX_JOBS {
      CreationTold(s, text, user, w);
      CreationSmooth(s, text, user, w);
      var t := CreateJob(s, text, user, w).service;
      forall i | 0 <= i < |s.jobs|
        ensures Smooth(s.jobs[i], t.log)
      {
        OthersSmooth(s.jobs[i], s.log, t.log);
      }
    }
  }

  lemma StepSmooth(s: Service, op: Operation)
    requires SmoothTable(s) && NeverShort(op)
    ensures SmoothTable(Step(s, op).service)
  {
    hide Audited, Smooth, SmoothEffect, Effect, CreateJob, Stored, Plenty;
    StepAudited(s, op);
    if op.Create? {
      CreateSmooth(s, op.text, op.user, op.world);
    } else {
      var j, o := StepIsSmooth(s, op);
      if j < |s.jobs| && Step(s, op) == Stored(s, j, o) && Effect(s.jobs[j], o) && SmoothEffect(s.jobs[j], o) {
        StoredSmooth(s, j, o);
      }
    }
  }

  lemma {:induction false} RunSmooth(s: Service, ops: seq<Operation>)
    requires SmoothTable(s) && forall i :: 0 <= i < |ops| ==> NeverShort(ops[i])
    ensures SmoothTable(Run(s, ops))
    decreases |ops|
  {
    hide SmoothTable, NeverShort, Step;
    if ops == [] {
    } else {
      StepSmooth(s, ops[0]);
      RunSmooth(Step(s, ops[0]).service, ops[1..]);
    }
  }

  lemma EmptySmooth()
    ensures SmoothTable(EMPTY_SERVICE)
  {
  }

  /** What a client of the service sees of a job in a run without allocation failures: it is in review,
      with something left to review, or in one of three final states; it has emitted at most one outcome
      event; completed with a pending draft means a draft was regenerated after completion; and stored
      cards are exactly the approved drafts plus those regenerated since. */
  lemma PlentifulRun(ops: seq<Operation>, i: nat)
    requires forall j :: 0 <= j < |ops| ==> NeverShort(ops[j])
    requires i < |Run(EMPTY_SERVICE, ops).jobs|
    ensures var s := Run(EMPTY_SERVICE, ops);
            var job := s.jobs[i];
            && job.status in {ReviewReady, Completed, Failed, Canceled}
            && (job.status == ReviewReady ==> HasPending(job.drafts))
            && OutcomeEvents(s, job.id) == (if job.status in {Completed, Failed} then 1 else 0)
            && (job.status == Completed && HasPending(job.drafts) ==> Count(s.log, Reopened, job.id) > 0)
            && Count(s.log, CardsStored, job.id) ==
               ApprovedDrafts(job.drafts) + Count(s.log, ApprovedRedone, job.id)
  {
    hide Consistent, NeverShort, Run, HasPending, Count;
    EmptySmooth();
    RunSmooth(EMPTY_SERVICE, ops);
    var s := Run(EMPTY_SERVICE, ops);
    assert Told(s.jobs[i], s.log) && Smooth(s.jobs[i], s.log);
  }
}

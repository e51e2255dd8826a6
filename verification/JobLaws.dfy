/** What each review call of the service does, told from the tables before and after the call. */
module JobLaws {
  import opened Bytes
  import opened JobModel

  // ----- which job and which draft -----

  /** Job `i` is the one that `id` names: the first of that id. */
  ghost predicate NamesJob(jobs: seq<Job>, id: int, i: nat) {
    i < |jobs| && jobs[i].id == id && forall j :: 0 <= j < i ==> jobs[j].id != id
  }

  ghost predicate NamesDraft(drafts: seq<Draft>, id: int, k: nat) {
    k < |drafts| && drafts[k].id == id && forall j :: 0 <= j < k ==> drafts[j].id != id
  }

  /** The review call `op` is about draft `k` of job `i`. */
  ghost predicate About(s: Service, op: Operation, i: nat, k: nat) {
    Reviewing(op) && NamesJob(s.jobs, op.job, i) && NamesDraft(s.jobs[i].drafts, op.draft, k)
  }

  lemma {:induction false} JobFound(jobs: seq<Job>, id: int, i: nat)
    requires NamesJob(jobs, id, i)
    ensures FindJob(jobs, id) == Some(i)
  {
    if i > 0 {
      JobFound(jobs[1..], id, i - 1);
    }
  }

  lemma {:induction false} DraftFound(drafts: seq<Draft>, id: int, k: nat)
    requires NamesDraft(drafts, id, k)
    ensures FindDraft(drafts, id) == Some(k)
  {
    if k > 0 {
      DraftFound(drafts[1..], id, k - 1);
    }
  }

  /** A call is answered with "not found" exactly if there is no such job, or the first job of that id has
      no such draft; then nothing happens. */
  lemma NotFoundExactly(s: Service, op: Operation)
    requires !op.Create?
    ensures var found :=
              exists i: nat :: NamesJob(s.jobs, op.job, i)
                && (op.Cancel? || exists k :: 0 <= k < |s.jobs[i].drafts| && s.jobs[i].drafts[k].id == op.draft);
            && (Step(s, op).code == NotFound <==> !found)
            && (!found ==> Step(s, op).service == s)
  {
    hide Finalize, Reviewed;
    if i: nat :| NamesJob(s.jobs, op.job, i) {
      JobFound(s.jobs, op.job, i);
    }
    if FindJob(s.jobs, op.job).Some? {
      var i := FirstOf(s.jobs, op.job);
    }
  }

  lemma {:induction false} FirstOf(jobs: seq<Job>, id: int) returns (i: nat)
    requires FindJob(jobs, id).Some?
    ensures FindJob(jobs, id) == Some(i) && NamesJob(jobs, id, i)
  {
    if jobs[0].id == id {
      i := 0;
    } else {
      i := FirstOf(jobs[1..], id);
      i := i + 1;
    }
  }

  lemma StepAbout(s: Service, op: Operation, i: nat, k: nat)
    requires About(s, op, i, k)
    ensures Step(s, op) == Stored(s, i, Review(s.jobs[i], k, op))
  {
    JobFound(s.jobs, op.job, i);
    DraftFound(s.jobs[i].drafts, op.draft, k);
  }

  // ----- what stays -----

  /** Only job `i` may have changed, and of it only its status, drafts and number of reviewed drafts. */
  ghost predicate OnlyJob(s: Service, t: Service, i: nat)
    requires i < |s.jobs|
  {
    && t.nextJob == s.nextJob && t.nextDraft == s.nextDraft
    && |t.jobs| == |s.jobs| && (forall j :: 0 <= j < |s.jobs| && j != i ==> t.jobs[j] == s.jobs[j])
    && var a, b := s.jobs[i], t.jobs[i];
       && b.id == a.id && b.user == a.user && b.text == a.text && b.error == a.error
       && b.totalWords == a.totalWords && b.filteredWords == a.filteredWords
       && b.existingWords == a.existingWords && b.generatedDrafts == a.generatedDrafts
  }

  /** ... and of its drafts only the one at `k`. */
  ghost predicate OnlyDraft(s: Service, t: Service, i: nat, k: nat)
    requires i < |s.jobs| && k < |s.jobs[i].drafts|
  {
    && OnlyJob(s, t, i)
    && var a, b := s.jobs[i].drafts, t.jobs[i].drafts;
       |b| == |a| && forall j :: 0 <= j < |a| && j != k ==> b[j] == a[j]
  }

  /** All drafts but `k` are reviewed. */
  predicate OthersReviewed(drafts: seq<Draft>, k: nat) {
    forall j :: 0 <= j < |drafts| && j != k ==> drafts[j].status != Pending
  }

  /** The review of draft `k` completes the job. */
  predicate Completes(job: Job, k: nat, finalCopied: bool) {
    job.status !in {Completed, Failed, Canceled} && OthersReviewed(job.drafts, k) && finalCopied
  }

  /** Draft `k` has been reviewed as `status` and now belongs to card `saved`; the job counts it, and is
      completed if that was the last one. */
  ghost predicate ReviewedAs(
      s: Service, t: Service, i: nat, k: nat, status: DraftStatus, saved: int, finalCopied: bool)
    requires i < |s.jobs| && k < |s.jobs[i].drafts|
  {
    && OnlyDraft(s, t, i, k)
    && var a, b, d := s.jobs[i], t.jobs[i], s.jobs[i].drafts[k];
       && b.drafts[k] == Draft(d.job, d.id, d.user, saved, status, d.card)
       && b.reviewedDrafts == a.reviewedDrafts + 1
       && b.status == if Completes(a, k, finalCopied) then Completed else a.status
  }

  /** Marking the draft and closing the job, as one step. */
  lemma MarkAndClose(s: Service, i: nat, k: nat, status: DraftStatus, saved: int, finalCopied: bool, log: seq<Entry>)
    requires i < |s.jobs| && k < |s.jobs[i].drafts| && status != Pending
    ensures var (job, more) := Finalize(Reviewed(s.jobs[i], k, status, saved), finalCopied);
            && ReviewedAs(s, s.(jobs := s.jobs[i := job], log := log), i, k, status, saved, finalCopied)
            && more == if Completes(s.jobs[i], k, finalCopied) then [JobCompleted(s.jobs[i].id)] else []
  {
    var job := s.jobs[i];
    var marked := Reviewed(job, k, status, saved);
    assert HasPending(marked.drafts) <==> !OthersReviewed(job.drafts, k) by {
      forall j | 0 <= j < |job.drafts| && j != k
        ensures marked.drafts[j] == job.drafts[j]
      {
      }
    }
  }

  // ----- the calls -----

  /** Approving: which answer, and then the draft is approved and carries the stored card. When memory runs
      out behind the store call, the card is stored and the draft still pending. */
  lemma {:induction false} ApproveLaw(s: Service, op: Operation, i: nat, k: nat)
    requires op.Approve? && About(s, op, i, k)
    ensures var job, draft, r := s.jobs[i], s.jobs[i].drafts[k], Step(s, op);
            && r.code == (if job.user <= 0 then Unauthorized
                          else if job.status in {Canceled, Failed} || draft.status != Pending then Conflict
                          else if op.saved.None? || !op.copied then ServerError
                          else Ok)
            && (r.code == Ok ==>
                  && ReviewedAs(s, r.service, i, k, Approved, op.saved.value, op.finalCopied)
                  && r.service.log ==
                     s.log + [CardStored(job.id), CardSaved(job.id, draft.id)]
                     + if Completes(job, k, op.finalCopied) then [JobCompleted(job.id)] else [])
            && (r.code != Ok ==>
                  r.service ==
                  s.(log := s.log + if r.code == ServerError && op.saved.Some?
                                    then [CardStored(job.id), StoreLost(job.id)] else []))
  {
    hide Finalize, Reviewed, Completes, ReviewedAs;
    StepAbout(s, op, i, k);
    var job := s.jobs[i];
    assert s.jobs[i := job] == s.jobs && s.log + [] == s.log;
    if op.saved.Some? {
      MarkAndClose(s, i, k, Approved, op.saved.value, op.finalCopied, Step(s, op).service.log);
    }
  }

  /** Rejecting: no user is needed, any status of the job will do, and no card is touched. */
  lemma {:induction false} RejectLaw(s: Service, op: Operation, i: nat, k: nat)
    requires op.Reject? && About(s, op, i, k)
    ensures var job, draft, r := s.jobs[i], s.jobs[i].drafts[k], Step(s, op);
            && r.code == (if draft.status != Pending then Conflict else if !op.copied then ServerError else Ok)
            && (r.code == Ok ==>
                  && ReviewedAs(s, r.service, i, k, Rejected, draft.savedCard, op.finalCopied)
                  && r.service.log == s.log + if Completes(job, k, op.finalCopied) then [JobCompleted(job.id)] else [])
            && (r.code != Ok ==> r.service == s)
  {
    hide Finalize, Reviewed, Completes, ReviewedAs;
    StepAbout(s, op, i, k);
    var job := s.jobs[i];
    assert s.jobs[i := job] == s.jobs && s.log + [] == s.log;
    MarkAndClose(s, i, k, Rejected, job.drafts[k].savedCard, op.finalCopied, Step(s, op).service.log);
  }

  /** Regenerating: the draft is pending again with the model's new card and no stored one, and is no longer
      counted as reviewed; the job's status stays, even when it is completed. */
  lemma {:induction false} RegenerateLaw(s: Service, op: Operation, i: nat, k: nat)
    requires op.Regenerate? && About(s, op, i, k)
    ensures var job, draft, r := s.jobs[i], s.jobs[i].drafts[k], Step(s, op);
            && r.code == (if job.status in {Canceled, Failed} then Conflict
                          else if op.card.None? then Upstream
                          else if !op.copied then ServerError
                          else Ok)
            && (r.code == Ok ==>
                  && OnlyDraft(s, r.service, i, k)
                  && r.service.jobs[i].drafts[k] == Draft(draft.job, draft.id, draft.user, 0, Pending, op.card.value)
                  && r.service.jobs[i].status == job.status
                  && r.service.jobs[i].reviewedDrafts ==
                     job.reviewedDrafts - (if draft.status != Pending && job.reviewedDrafts > 0 then 1 else 0)
                  && r.service.log == s.log + [CardUpdated(job.id, draft.id, draft.status, job.status)])
            && (r.code != Ok ==> r.service == s)
  {
    StepAbout(s, op, i, k);
    assert s.jobs[i := s.jobs[i]] == s.jobs && s.log + [] == s.log;
  }

  /** Canceling: an open job becomes canceled, and nothing else about it or any other job changes. */
  lemma {:induction false} CancelLaw(s: Service, op: Operation, i: nat)
    requires op.Cancel? && NamesJob(s.jobs, op.job, i)
    ensures var job, r := s.jobs[i], Step(s, op);
            && r.code == (if job.status in {Completed, Failed, Canceled} then Conflict
                          else if !op.copied then ServerError
                          else Ok)
            && (r.code == Ok ==>
                  && r.service.jobs[i].status == Canceled
                  && r.service.jobs[i].drafts == job.drafts && r.service.jobs[i].reviewedDrafts == job.reviewedDrafts
                  && OnlyJob(s, r.service, i)
                  && r.service.log == s.log + [JobProgress(job.id, 100)])
            && (r.code != Ok ==> r.service == s)
  {
    JobFound(s.jobs, op.job, i);
    assert s.jobs[i := s.jobs[i]] == s.jobs && s.log + [] == s.log;
  }
}

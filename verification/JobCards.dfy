/** When the cards stored for a job are exactly its approved drafts and those regenerated since. */
module JobCards {
  import opened Bytes
  import opened JobModel
  import opened JobInvariant
  import opened JobRuns
  import opened JobSafety
  import opened JobStranded
  import Tokenizer

  /** The call stores a card for job `id` and then cannot copy the new status: it passes every guard of
      `approve`, the card store answers, and memory does not. */
  predicate LosesCard(s: Service, op: Operation, id: int) {
    && op.Approve? && op.job == id && op.saved.Some? && !op.copied
    && var i := FindJob(s.jobs, id);
    && i.Some?
    && var job := s.jobs[i.value];
    && job.user > 0 && job.status != Canceled && job.status != Failed
    && var k := FindDraft(job.drafts, op.draft);
    && k.Some? && job.drafts[k.value].status == Pending
  }

  /** The calls of a run that lose a card of job `id`. */
  function Losses(s: Service, ops: seq<Operation>, id: int): nat
    decreases |ops|
  {
    if ops == [] then 0
    else (if LosesCard(s, ops[0], id) then 1 else 0) + Losses(Step(s, ops[0]).service, ops[1..], id)
  }

  // ----- one call -----

  /** What a review or a cancellation of job `j` loses. */
  lemma OutcomeLoses(s: Service, j: nat, o: Outcome, id: int, lost: nat)
    requires j < |s.jobs| && Effect(s.jobs[j], o)
    requires Count(o.log, StoresLost, s.jobs[j].id) == lost
    ensures Count(Stored(s, j, o).service.log, StoresLost, id) ==
            Count(s.log, StoresLost, id) + if s.jobs[j].id == id then lost else 0
  {
    hide Count, ApprovedDrafts;
    CountConcat(s.log, o.log, StoresLost, id);
    if s.jobs[j].id != id {
      CountOthers(o.log, StoresLost, id);
    }
  }

  lemma ApproveLoses(job: Job, k: nat, saved: Option<int>, copied: bool, finalCopied: bool)
    requires k < |job.drafts|
    ensures Count(ApproveDraft(job, k, saved, copied, finalCopied).log, StoresLost, job.id) ==
            if job.user > 0 && job.status != Canceled && job.status != Failed && job.drafts[k].status == Pending
               && saved.Some? && !copied
            then 1 else 0
  {
    var o := ApproveDraft(job, k, saved, copied, finalCopied);
    if o.log == [CardStored(job.id), StoreLost(job.id)] {
      CountTwo(CardStored(job.id), StoreLost(job.id), StoresLost, job.id);
    } else {
      NeverLost(o.log, job.id);
    }
  }

  lemma ReviewLoses(job: Job, k: nat, op: Operation)
    requires k < |job.drafts| && Reviewing(op) && !op.Approve?
    ensures Count(Review(job, k, op).log, StoresLost, job.id) == 0
  {
    NeverLost(Review(job, k, op).log, job.id);
  }

  lemma CreateLoses(s: Service, text: bytes, user: int, w: World, id: int)
    ensures Count(CreateJob(s, text, user, w).service.log, StoresLost, id) == Count(s.log, StoresLost, id)
  {
    hide Pipeline, Count;
    if text != [] && |s.jobs| < MAX_JOBS && w.mem.job {
      var job, log := NewJob(s.nextJob, user, text), CreatedLog(s);
      PipelineCreates(job, s.nextDraft, log, w);
      CountConcat(s.log, [JobCreated(s.nextJob)], StoresLost, id);
      CountTwo(JobCreated(s.nextJob), JobCreated(s.nextJob), StoresLost, id);
      if id != s.nextJob {
        CountExtends(log, CreatedBy(s, text, user, w).log, StoresLost, id);
      }
    }
  }

  lemma StepLoses(s: Service, op: Operation, id: int)
    ensures Count(Step(s, op).service.log, StoresLost, id) ==
            Count(s.log, StoresLost, id) + if LosesCard(s, op, id) then 1 else 0
  {
    hide Count, CreateJob, Review, ApproveDraft, CancelJob, Effect;
    if op.Create? {
      CreateLoses(s, op.text, op.user, op.world, id);
    } else {
      var i := FindJob(s.jobs, op.job);
      if i.Some? {
        var job := s.jobs[i.value];
        if op.Cancel? {
          CancelEffect(job, op.copied);
          CancelLoses(job, op.copied);
          OutcomeLoses(s, i.value, CancelJob(job, op.copied), id, 0);
        } else {
          var k := FindDraft(job.drafts, op.draft);
          if k.Some? {
            ReviewEffect(job, k.value, op);
            ReviewedLoses(job, k.value, op);
            OutcomeLoses(s, i.value, Review(job, k.value, op), id, if LosesCard(s, op, job.id) then 1 else 0);
          }
        }
      }
    }
  }

  lemma CancelLoses(job: Job, copied: bool)
    ensures Count(CancelJob(job, copied).log, StoresLost, job.id) == 0
  {
    NeverLost(CancelJob(job, copied).log, job.id);
  }

  lemma ReviewedLoses(job: Job, k: nat, op: Operation)
    requires k < |job.drafts| && Reviewing(op)
    ensures Count(Review(job, k, op).log, StoresLost, job.id) ==
            if op.Approve? && job.user > 0 && job.status != Canceled && job.status != Failed
               && job.drafts[k].status == Pending && op.saved.Some? && !op.copied
            then 1 else 0
  {
    hide Count, ApproveDraft;
    if op.Approve? {
      ApproveLoses(job, k, op.saved, op.copied, op.finalCopied);
    } else {
      ReviewLoses(job, k, op);
    }
  }

  // ----- runs -----

  lemma {:induction false} RunLoses(s: Service, ops: seq<Operation>, id: int)
    ensures Count(Run(s, ops).log, StoresLost, id) == Count(s.log, StoresLost, id) + Losses(s, ops, id)
    decreases |ops|
  {
    hide Count, Step, LosesCard;
    if ops == [] {
    } else {
      StepLoses(s, ops[0], id);
      RunLoses(Step(s, ops[0]).service, ops[1..], id);
    }
  }

  lemma {:induction false} NoLosses(s: Service, ops: seq<Operation>, id: int)
    ensures Losses(s, ops, id) == 0 <==>
            forall j :: 0 <= j < |ops| ==> !LosesCard(Run(s, ops[..j]), ops[j], id)
    decreases |ops|
  {
    hide Step, LosesCard;
    if ops == [] {
    } else {
      var t, rest := Step(s, ops[0]).service, ops[1..];
      NoLosses(t, rest, id);
      assert ops[..0] == [];
      assert Run(s, ops[..0]) == s;
      forall j | 0 < j < |ops|
        ensures Run(s, ops[..j]) == Run(t, rest[..j - 1]) && ops[j] == rest[j - 1]
      {
        assert ops[..j][1..] == rest[..j - 1];
      }
      if forall j :: 0 <= j < |ops| ==> !LosesCard(Run(s, ops[..j]), ops[j], id) {
        forall j | 0 <= j < |rest|
          ensures !LosesCard(Run(t, rest[..j]), rest[j], id)
        {
          assert !LosesCard(Run(s, ops[..j + 1]), ops[j + 1], id);
        }
      }
    }
  }

  /** Over every run, the cards stored for a job are exactly its approved drafts and the approved drafts
      regenerated since, if and only if no call of the run was an approval that passed its guards, got its
      card stored, and then ran out of memory. */
  lemma BalanceExactly(ops: seq<Operation>, i: nat)
    requires i < |Run(EMPTY_SERVICE, ops).jobs|
    ensures var s := Run(EMPTY_SERVICE, ops);
            var id := s.jobs[i].id;
            Count(s.log, CardsStored, id) == ApprovedDrafts(s.jobs[i].drafts) + Count(s.log, ApprovedRedone, id)
            <==> forall j :: 0 <= j < |ops| ==> !LosesCard(Run(EMPTY_SERVICE, ops[..j]), ops[j], id)
  {
    hide Count, ApprovedDrafts, Run, LosesCard, Consistent, Losses;
    var s := Run(EMPTY_SERVICE, ops);
    ReachableAudited(ops);
    assert Told(s.jobs[i], s.log);
    RunLoses(EMPTY_SERVICE, ops, s.jobs[i].id);
    NoLosses(EMPTY_SERVICE, ops, s.jobs[i].id);
    NothingLogged(s.jobs[i].id);
  }

  lemma NothingLogged(id: int)
    ensures Count(EMPTY_SERVICE.log, StoresLost, id) == 0
  {
  }

  // ----- a run that loses a card -----

  /** Everything succeeds, and the model answers for every word. */
  const FULL: World := World(
    _ => false, _ => Some(CARD),
    Memory(true, true, true, true, true, true, _ => true, _ => true, true, true, true))

  const LOSING: Operation := Approve(1, 1, Some(7), false, true)

  lemma TwoDrafts(job: Job)
    requires job.drafts == []
    ensures var g := Generate(job, 1, [ZIP, ZOO], 0, FULL);
            && g.code == Ok && g.job == job.(drafts := g.job.drafts, generatedDrafts := 2)
            && |g.job.drafts| == 2 && g.job.drafts[0].id == 1
            && g.job.drafts[0].status == Pending && g.job.drafts[1].status == Pending
  {
    var one := Appended(job, 1, CARD);
    var two := Appended(one, 2, CARD);
    assert Generate(two, 3, [ZIP, ZOO], 2, FULL) == Generation(two, 3, [], Ok);
    assert Generate(one, 2, [ZIP, ZOO], 1, FULL).job == two;
  }

  /** The first create call leaves one job in review, with two pending drafts. */
  lemma FirstJob()
    ensures var s := CreateJob(EMPTY_SERVICE, TEXT, 1, FULL).service;
            && |s.jobs| == 1 && s.jobs[0].id == 1 && s.jobs[0].user == 1 && s.jobs[0].status == ReviewReady
            && |s.jobs[0].drafts| == 2 && s.jobs[0].drafts[0].id == 1
            && s.jobs[0].drafts[0].status == Pending && s.jobs[0].drafts[1].status == Pending
  {
    hide Tokenizer.Words, Uncommon, Unknown, Generate;
    TwoWords();
    TwoCandidates();
    NothingKnown([ZIP, ZOO]);
    TwoDrafts(NewJob(1, 1, TEXT).(totalWords := 2, status := Generating));
  }

  lemma {:induction false} NothingKnown(ws: seq<bytes>)
    ensures Unknown(ws, FULL.known) == ws
  {
    if ws == [] {
    } else {
      NothingKnown(ws[1..]);
    }
  }

  /** A create call and one approval whose status copy fails: a card is stored, and no draft is approved or
      was redone. */
  lemma CardLost()
    ensures var s := Run(EMPTY_SERVICE, [Create(TEXT, 1, FULL), LOSING]);
            && |s.jobs| == 1 && s.jobs[0].id == 1 && |s.jobs[0].drafts| == 2 && s.jobs[0].drafts[0].status == Pending
            && Count(s.log, CardsStored, 1) == 1
            && ApprovedDrafts(s.jobs[0].drafts) == 0 && Count(s.log, ApprovedRedone, 1) == 0
  {
    hide Tokenizer.Words, Uncommon, Unknown, Generate, Pipeline;
    var s := CreateJob(EMPTY_SERVICE, TEXT, 1, FULL).service;
    FirstJob();
    PipelineCreates(NewJob(1, 1, TEXT), 1, CreatedLog(EMPTY_SERVICE), FULL);
    forall what: Tally | what == CardsStored || what == ApprovedRedone
      ensures Count(s.log, what, 1) == 0
    {
      CountTwo(JobCreated(1), JobCreated(1), what, 1);
      assert CreatedLog(EMPTY_SERVICE) == [JobCreated(1)];
    }
    NoneApproved(s.jobs[0].drafts);
    var lost := [CardStored(1), StoreLost(1)];
    var t := Step(s, LOSING).service;
    assert t == Stored(s, 0, Outcome(s.jobs[0], lost, ServerError)).service;
    forall what: Tally
      ensures Count(t.log, what, 1) == Count(s.log, what, 1) + Count(lost, what, 1)
    {
      CountConcat(s.log, lost, what, 1);
    }
    CountTwo(lost[0], lost[1], CardsStored, 1);
    CountTwo(lost[0], lost[1], ApprovedRedone, 1);
    TwoCalls();
  }

  lemma TwoCalls()
    ensures Run(EMPTY_SERVICE, [Create(TEXT, 1, FULL), LOSING]) ==
            Step(CreateJob(EMPTY_SERVICE, TEXT, 1, FULL).service, LOSING).service
  {
    hide CreateJob;
    var ops := [Create(TEXT, 1, FULL), LOSING];
    assert ops[1..] == [LOSING] && ops[1..][1..] == [];
    var s := Step(EMPTY_SERVICE, ops[0]).service;
    assert Run(Step(s, LOSING).service, []) == Step(s, LOSING).service;
    assert Run(s, [LOSING]) == Step(s, LOSING).service;
  }
}

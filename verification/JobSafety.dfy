/** Safety of whole runs of the job service: outcomes are final and announced, cards are conserved. */
module JobSafety {
  import opened Bytes
  import opened JobModel
  import opened JobInvariant
  import opened JobRuns
  import Tokenizer

  // ----- how a job evolves from one table to a later one -----

  /** What relates a job to itself any number of calls later. */
  ghost predicate Evolves(s: Service, t: Service, i: nat) {
    && i < |s.jobs| <= |t.jobs|
    && var a, b, id := s.jobs[i], t.jobs[i], s.jobs[i].id;
    && b.id == a.id && |b.drafts| == |a.drafts|
    && (Terminal(a.status) ==> b.status == a.status)
    && (a.status != Completed && a.drafts == [] ==> b.status != Completed)
    && Count(t.log, Failures, id) == Count(s.log, Failures, id)
    && (a.status == Canceled || a.status == Failed ==>
          && Count(t.log, CardsStored, id) == Count(s.log, CardsStored, id)
          && forall k :: 0 <= k < |a.drafts| ==> OnlyRejected(a.drafts[k], b.drafts[k]))
  }

  lemma EvolvesTransitive(s: Service, t: Service, u: Service, i: nat)
    requires Evolves(s, t, i) && Evolves(t, u, i)
    ensures Evolves(s, u, i)
  {
  }

  /** Entries of other jobs change no count. */
  lemma CountExtends(before: seq<Entry>, after: seq<Entry>, what: Tally, id: int)
    requires before <= after && forall j :: |before| <= j < |after| ==> after[j].job != id
    ensures Count(after, what, id) == Count(before, what, id)
  {
  }

  /** An outcome for job `j` is stored: how job `i` evolves. */
  lemma StoredEvolves(s: Service, j: nat, o: Outcome, i: nat)
    requires Consistent(s) && i < |s.jobs| && j < |s.jobs| && Effect(s.jobs[j], o)
    ensures Evolves(s, Stored(s, j, o).service, i)
  {
    hide Count, JobConsistent, AllIds, ApprovedDrafts;
    var t := Stored(s, j, o).service;
    var id := s.jobs[i].id;
    forall what: Tally
      ensures Count(t.log, what, id) == Count(s.log, what, id) + if i == j then Count(o.log, what, id) else 0
    {
      if i == j {
        CountConcat(s.log, o.log, what, id);
      } else {
        CountExtends(s.log, t.log, what, id);
      }
    }
    EffectEvolves(s.jobs[j], o);
  }

  lemma EffectEvolves(a: Job, o: Outcome)
    requires Effect(a, o)
    ensures o.job.id == a.id && |o.job.drafts| == |a.drafts| && Count(o.log, Failures, a.id) == 0
    ensures Terminal(a.status) ==> o.job.status == a.status
    ensures a.status != Completed && a.drafts == [] ==> o.job.status != Completed
  {
  }

  lemma CreateEvolves(s: Service, text: bytes, user: int, w: World, i: nat)
    requires Consistent(s) && i < |s.jobs|
    ensures Evolves(s, CreateJob(s, text, user, w).service, i)
  {
    hide Count, JobConsistent, AllIds, Pipeline;
    if text != [] && |s.jobs| < MAX_JOBS && w.mem.job {
      var log, g, id := CreatedLog(s), CreatedBy(s, text, user, w), s.jobs[i].id;
      PipelineCreates(NewJob(s.nextJob, user, text), s.nextDraft, log, w);
      forall what: Tally
        ensures Count(g.log, what, id) == Count(s.log, what, id)
      {
        CountExtends(s.log, log, what, id);
        CountExtends(log, g.log, what, id);
      }
    }
  }

  /** The log once the new job is announced. */
  function CreatedLog(s: Service): seq<Entry> {
    s.log + [JobCreated(s.nextJob)]
  }

  function CreatedBy(s: Service, text: bytes, user: int, w: World): Generation {
    Pipeline(NewJob(s.nextJob, user, text), s.nextDraft, CreatedLog(s), w)
  }

  /** Which job of the table an operation other than `Create` works on, and what it does to it. */
  lemma StepIsStored(s: Service, op: Operation) returns (j: nat, o: Outcome)
    requires !op.Create?
    ensures Step(s, op).service == s || (j < |s.jobs| && Step(s, op) == Stored(s, j, o) && Effect(s.jobs[j], o))
  {
    hide Effect, CancelJob, Review;
    j, o := 0, Outcome(NewJob(0, 0, []), [], Ok);
    var i := FindJob(s.jobs, op.job);
    if i.Some? {
      j := i.value;
      if op.Cancel? {
        o := CancelJob(s.jobs[j], op.copied);
        CancelEffect(s.jobs[j], op.copied);
      } else {
        var k := FindDraft(s.jobs[j].drafts, op.draft);
        if k.Some? {
          o := Review(s.jobs[j], k.value, op);
          ReviewEffect(s.jobs[j], k.value, op);
        }
      }
    }
  }

  lemma StepEvolves(s: Service, op: Operation, i: nat)
    requires Consistent(s) && i < |s.jobs|
    ensures Evolves(s, Step(s, op).service, i)
  {
    hide Consistent, Effect, CreateJob, Stored;
    if op.Create? {
      CreateEvolves(s, op.text, op.user, op.world, i);
    } else {
      var j, o := StepIsStored(s, op);
      EvolvesItself(s, i);
      if j < |s.jobs| && Effect(s.jobs[j], o) {
        StoredEvolves(s, j, o, i);
      }
    }
  }

  lemma EvolvesItself(s: Service, i: nat)
    requires i < |s.jobs|
    ensures Evolves(s, s, i)
  {
  }

  /** From any consistent table on: completed, failed and canceled are final, no job gets a second
      failed event, and a canceled or failed job stores no card and can only reject its pending drafts. */
  lemma {:induction false} RunEvolves(s: Service, ops: seq<Operation>, i: nat)
    requires Consistent(s) && i < |s.jobs|
    ensures Evolves(s, Run(s, ops), i)
    decreases |ops|
  {
    hide Consistent, Step, Evolves;
    if ops == [] {
      EvolvesItself(s, i);
    } else {
      var t := Step(s, ops[0]).service;
      StepKeeps(s, ops[0]);
      StepEvolves(s, ops[0], i);
      TableNeverShrinks(s, t, i);
      RunEvolves(t, ops[1..], i);
      EvolvesTransitive(s, t, Run(t, ops[1..]), i);
    }
  }

  lemma TableNeverShrinks(s: Service, t: Service, i: nat)
    requires Evolves(s, t, i)
    ensures i < |t.jobs|
  {
  }

  // ----- what every reachable table and its log satisfy -----

  /** The log tells the story of the job. */
  ghost predicate Told(job: Job, log: seq<Entry>) {
    && Count(log, Completions, job.id) == (if job.status == Completed then 1 else 0)
    && Count(log, Failures, job.id) <= 1
    && (job.status == Failed ==> Count(log, Failures, job.id) == 1)
    && Count(log, CardsStored, job.id) ==
       ApprovedDrafts(job.drafts) + Count(log, ApprovedRedone, job.id) + Count(log, StoresLost, job.id)
  }

  ghost predicate Audited(s: Service) {
    && Consistent(s)
    && (forall j :: 0 <= j < |s.log| ==> s.log[j].job < s.nextJob)
    && forall i :: 0 <= i < |s.jobs| ==> Told(s.jobs[i], s.log)
  }

  lemma EffectTold(job: Job, o: Outcome, log: seq<Entry>)
    requires Told(job, log) && Effect(job, o)
    ensures Told(o.job, log + o.log)
  {
    hide Count, ApprovedDrafts;
    forall what: Tally
      ensures Count(log + o.log, what, job.id) == Count(log, what, job.id) + Count(o.log, what, job.id)
    {
      CountConcat(log, o.log, what, job.id);
    }
  }

  lemma OthersTold(job: Job, before: seq<Entry>, after: seq<Entry>)
    requires Told(job, before) && before <= after
    requires forall j :: |before| <= j < |after| ==> after[j].job != job.id
    ensures Told(job, after)
  {
    hide Count, ApprovedDrafts;
    forall what: Tally
      ensures Count(after, what, job.id) == Count(before, what, job.id)
    {
      CountExtends(before, after, what, job.id);
    }
  }

  lemma StoredAudited(s: Service, j: nat, o: Outcome)
    requires Audited(s) && j < |s.jobs| && Effect(s.jobs[j], o)
    requires Consistent(Stored(s, j, o).service)
    ensures Audited(Stored(s, j, o).service)
  {
    hide Told, JobConsistent, AllIds, ApprovedDrafts;
    var t := Stored(s, j, o).service;
    forall i | 0 <= i < |t.jobs|
      ensures Told(t.jobs[i], t.log)
    {
      if i == j {
        EffectTold(s.jobs[j], o, s.log);
      } else {
        OthersTold(s.jobs[i], s.log, t.log);
      }
    }
  }

  lemma {:induction false} NoneApproved(drafts: seq<Draft>)
    requires forall i :: 0 <= i < |drafts| ==> drafts[i].status == Pending
    ensures ApprovedDrafts(drafts) == 0
  {
    if drafts == [] {
    } else {
      NoneApproved(drafts[..|drafts| - 1]);
    }
  }

  /** A new job starts with a log of its own. */
  lemma CreationTold(s: Service, text: bytes, user: int, w: World)
    requires Audited(s)
    ensures Told(CreatedBy(s, text, user, w).job, CreatedBy(s, text, user, w).log)
    ensures Extends(s.log, CreatedBy(s, text, user, w).log, s.nextJob)
  {
    hide Pipeline, Consistent;
    var job, log, id := NewJob(s.nextJob, user, text), CreatedLog(s), s.nextJob;
    var g := CreatedBy(s, text, user, w);
    PipelineCreates(job, s.nextDraft, log, w);
    var n := PipelineAdds(job, s.nextDraft, log, w);
    assert forall j :: 0 <= j < |g.job.drafts| ==> FreshDraft(g.job.drafts[j], job, s.nextDraft + j);
    NoneApproved(g.job.drafts);
    forall what: Tally
      ensures Count(log, what, id) == 0
    {
      CountConcat(s.log, [JobCreated(id)], what, id);
      CountOthers(s.log, what, id);
      CountTwo(JobCreated(id), JobCreated(id), what, id);
    }
  }

  lemma CreateAudited(s: Service, text: bytes, user: int, w: World)
    requires Audited(s)
    ensures Audited(CreateJob(s, text, user, w).service)
  {
    hide Pipeline, Told, JobConsistent, AllIds;
    CreateKeeps(s, text, user, w);
    if text != [] && |s.jobs| < MAX_JOBS && w.mem.job {
      CreationTold(s, text, user, w);
      var t := CreateJob(s, text, user, w).service;
      forall i | 0 <= i < |s.jobs|
        ensures Told(s.jobs[i], t.log)
      {
        OthersTold(s.jobs[i], s.log, t.log);
      }
    }
  }

  lemma StepAudited(s: Service, op: Operation)
    requires Audited(s)
    ensures Audited(Step(s, op).service)
  {
    hide Consistent, Told, Effect, CreateJob, Stored;
    StepKeeps(s, op);
    if op.Create? {
      CreateAudited(s, op.text, op.user, op.world);
    } else {
      var j, o := StepIsStored(s, op);
      if j < |s.jobs| && Step(s, op) == Stored(s, j, o) && Effect(s.jobs[j], o) {
        StoredAudited(s, j, o);
      }
    }
  }

  lemma {:induction false} RunAudited(s: Service, ops: seq<Operation>)
    requires Audited(s)
    ensures Audited(Run(s, ops))
    decreases |ops|
  {
    hide Audited, Step;
    if ops == [] {
    } else {
      StepAudited(s, ops[0]);
      RunAudited(Step(s, ops[0]).service, ops[1..]);
    }
  }

  /** In every run from the empty table, whatever memory, model and store answer: a job is completed
      exactly when its one completed event was emitted, a failed job emitted one failed event, and every
      card stored for it is an approved draft, an approved draft regenerated since, or one lost when
      memory ran out right after the store call. */
  lemma ReachableAudited(ops: seq<Operation>)
    ensures Audited(Run(EMPTY_SERVICE, ops))
  {
    RunAudited(EMPTY_SERVICE, ops);
  }

  // ----- at most one outcome -----

  function OutcomeEvents(s: Service, id: int): nat {
    Count(s.log, Completions, id) + Count(s.log, Failures, id)
  }

  /** Review calls that bring a job to `Completed`: pending drafts from `k` on are rejected one by one. */
  lemma {:induction false} RejectPending(s: Service, i: nat, k: nat) returns (ops: seq<Operation>)
    requires Consistent(s) && i < |s.jobs| && k <= |s.jobs[i].drafts|
    requires !Terminal(s.jobs[i].status) && HasPending(s.jobs[i].drafts)
    requires forall j :: 0 <= j < k ==> s.jobs[i].drafts[j].status != Pending
    ensures Evolves(s, Run(s, ops), i) && Run(s, ops).jobs[i].status == Completed
    decreases |s.jobs[i].drafts| - k
  {
    hide Consistent, Evolves, Effect, Step;
    var job := s.jobs[i];
    assert k < |job.drafts|;
    if job.drafts[k].status != Pending {
      ops := RejectPending(s, i, k + 1);
    } else {
      var op := Reject(job.id, job.drafts[k].id, true, true);
      FoundByIds(s, i, k);
      StepRejects(s, i, k);
      var t := Step(s, op).service;
      StepKeeps(s, op);
      StepEvolves(s, op, i);
      if HasPending(t.jobs[i].drafts) {
        var more := RejectPending(t, i, k + 1);
        ops := [op] + more;
        assert ops[1..] == more;
        EvolvesTransitive(s, t, Run(t, more), i);
      } else {
        ops := [op];
        assert ops[1..] == [];
      }
    }
  }

  /** Ids determine the job and the draft found. */
  lemma FoundByIds(s: Service, i: nat, k: nat)
    requires Consistent(s) && i < |s.jobs| && k < |s.jobs[i].drafts|
    ensures FindJob(s.jobs, s.jobs[i].id) == Some(i)
    ensures FindDraft(s.jobs[i].drafts, s.jobs[i].drafts[k].id) == Some(k)
  {
    var j := FindJob(s.jobs, s.jobs[i].id);
    var l := FindDraft(s.jobs[i].drafts, s.jobs[i].drafts[k].id);
    assert j.Some? && j.value == i;
    DraftIdsUnique(s, i, k, i, l.value);
  }

  lemma StepRejects(s: Service, i: nat, k: nat)
    requires i < |s.jobs| && k < |s.jobs[i].drafts| && s.jobs[i].drafts[k].status == Pending
    requires FindJob(s.jobs, s.jobs[i].id) == Some(i)
    requires FindDraft(s.jobs[i].drafts, s.jobs[i].drafts[k].id) == Some(k)
    requires !Terminal(s.jobs[i].status)
    ensures var t := Step(s, Reject(s.jobs[i].id, s.jobs[i].drafts[k].id, true, true)).service;
            && |t.jobs| == |s.jobs| && |t.jobs[i].drafts| == |s.jobs[i].drafts|
            && t.jobs[i].drafts[k].status == Rejected
            && (forall j :: 0 <= j < k ==> t.jobs[i].drafts[j] == s.jobs[i].drafts[j])
            && t.jobs[i].status == if HasPending(t.jobs[i].drafts) then s.jobs[i].status else Completed
  {
  }

  /** Any draft of an open job can be made pending again. */
  lemma StepRegenerates(s: Service, i: nat, card: Card)
    requires i < |s.jobs| && s.jobs[i].drafts != [] && !Terminal(s.jobs[i].status)
    requires FindJob(s.jobs, s.jobs[i].id) == Some(i)
    requires FindDraft(s.jobs[i].drafts, s.jobs[i].drafts[0].id) == Some(0)
    ensures var t := Step(s, Regenerate(s.jobs[i].id, s.jobs[i].drafts[0].id, Some(card), true)).service;
            && i < |t.jobs| && HasPending(t.jobs[i].drafts) && t.jobs[i].status == s.jobs[i].status
  {
    var t := Step(s, Regenerate(s.jobs[i].id, s.jobs[i].drafts[0].id, Some(card), true)).service;
    assert t.jobs[i].drafts[0].status == Pending;
  }

  /** An open job with drafts can always be brought to `Completed`. */
  lemma CanComplete(s: Service, i: nat) returns (ops: seq<Operation>)
    requires Consistent(s) && i < |s.jobs| && !Terminal(s.jobs[i].status) && s.jobs[i].drafts != []
    ensures Evolves(s, Run(s, ops), i) && Run(s, ops).jobs[i].status == Completed
  {
    hide Consistent, Evolves, Step;
    var job := s.jobs[i];
    var op := Regenerate(job.id, job.drafts[0].id, Some(job.drafts[0].card), true);
    FoundByIds(s, i, 0);
    StepRegenerates(s, i, job.drafts[0].card);
    var t := Step(s, op).service;
    StepKeeps(s, op);
    StepEvolves(s, op, i);
    var more := RejectPending(t, i, 0);
    ops := [op] + more;
    assert ops[1..] == more;
    EvolvesTransitive(s, t, Run(t, more), i);
  }

  /** Whether a failed event may be followed by a completed one: the job was announced as failed, but
      its status could not be set, and it has drafts to review. */
  ghost predicate Stranded(job: Job, log: seq<Entry>) {
    Count(log, Failures, job.id) == 1 && job.drafts != [] && !Terminal(job.status)
  }

  /** Exactly when a job that has emitted at most one outcome event never emits a second one. */
  lemma {:induction false} AtMostOneOutcome(s: Service, i: nat)
    requires Audited(s) && i < |s.jobs| && OutcomeEvents(s, s.jobs[i].id) <= 1
    ensures (forall ops :: OutcomeEvents(Run(s, ops), s.jobs[i].id) <= 1) <==> !Stranded(s.jobs[i], s.log)
  {
    hide Consistent;
    var job := s.jobs[i];
    if Stranded(job, s.log) {
      var ops := CanComplete(s, i);
      RunAudited(s, ops);
      assert OutcomeEvents(Run(s, ops), job.id) == 2;
    } else {
      forall ops
        ensures OutcomeEvents(Run(s, ops), job.id) <= 1
      {
        RunAudited(s, ops);
        RunEvolves(s, ops, i);
        var after := Run(s, ops).jobs[i];
        assert Told(after, Run(s, ops).log);
      }
    }
  }

  /** The same, seen from the call that creates the job: a second outcome event can follow exactly when
      generation failed, memory ran out while the job was marked as failed, and drafts had been made. */
  lemma {:induction false} CreatedJobOutcome(s: Service, text: bytes, user: int, w: World)
    requires Audited(s) && text != [] && |s.jobs| < MAX_JOBS && w.mem.job
    ensures var r := CreateJob(s, text, user, w);
            (forall ops :: OutcomeEvents(Run(r.service, ops), s.nextJob) <= 1)
            <==> !(r.code == Upstream && !w.mem.failed && r.service.jobs[|s.jobs|].drafts != [])
  {
    hide Consistent, Pipeline, Told, Extends;
    var r := CreateJob(s, text, user, w);
    CreateAudited(s, text, user, w);
    var job := NewJob(s.nextJob, user, text);
    PipelineCreates(job, s.nextDraft, CreatedLog(s), w);
    CreationFailures(s, text, user, w);
    AtMostOneOutcome(r.service, |s.jobs|);
  }

  /** The events of a new job. */
  lemma CreationFailures(s: Service, text: bytes, user: int, w: World)
    requires Audited(s)
    ensures var g := CreatedBy(s, text, user, w);
            && g.job.id == s.nextJob
            && Count(g.log, Failures, s.nextJob) == (if g.code == Upstream then 1 else 0)
            && Count(g.log, Completions, s.nextJob) == (if g.job.status == Completed then 1 else 0)
            && (g.code == Upstream ==> g.job.status == if w.mem.failed then Failed else Generating)
            && (g.job.status == Failed ==> g.code == Upstream)
  {
    hide Pipeline, Consistent, Extends;
    PipelineCreates(NewJob(s.nextJob, user, text), s.nextDraft, CreatedLog(s), w);
    forall what: Tally
      ensures Count(CreatedLog(s), what, s.nextJob) == 0
    {
      CountConcat(s.log, [JobCreated(s.nextJob)], what, s.nextJob);
      CountOthers(s.log, what, s.nextJob);
      CountTwo(JobCreated(s.nextJob), JobCreated(s.nextJob), what, s.nextJob);
    }
  }
}

/** What whole runs of the job service guarantee. */
module JobRuns {
  import opened Bytes
  import opened JobModel
  import opened JobInvariant
  import Tokenizer

  // ----- counting log entries -----

  datatype Tally = Completions | Failures | CardsStored | StoresLost | ApprovedRedone | Reopened

  predicate Counts(what: Tally, e: Entry) {
    match what
    case Completions => e.JobCompleted?
    case Failures => e.JobFailed?
    case CardsStored => e.CardStored?
    case StoresLost => e.StoreLost?
    case ApprovedRedone => e.CardUpdated? && e.was == Approved
    case Reopened => e.CardUpdated? && e.during == Completed
  }

  /** How many entries of a kind the log holds for job `id`. */
  function Count(log: seq<Entry>, what: Tally, id: int): nat {
    if log == [] then 0
    else Count(log[..|log| - 1], what, id)
         + if log[|log| - 1].job == id && Counts(what, log[|log| - 1]) then 1 else 0
  }

  lemma {:induction false} CountConcat(a: seq<Entry>, b: seq<Entry>, what: Tally, id: int)
    ensures Count(a + b, what, id) == Count(a, what, id) + Count(b, what, id)
  {
    if b == [] {
      assert a + b == a;
    } else {
      assert (a + b)[..|a + b| - 1] == a + b[..|b| - 1];
      CountConcat(a, b[..|b| - 1], what, id);
    }
  }

  lemma {:induction false} CountOthers(log: seq<Entry>, what: Tally, id: int)
    requires forall i :: 0 <= i < |log| ==> log[i].job != id
    ensures Count(log, what, id) == 0
  {
    if log == [] {
    } else {
      CountOthers(log[..|log| - 1], what, id);
    }
  }

  lemma CountTwo(a: Entry, b: Entry, what: Tally, id: int)
    ensures Count([a], what, id) == if a.job == id && Counts(what, a) then 1 else 0
    ensures Count([a, b], what, id) ==
            (if a.job == id && Counts(what, a) then 1 else 0) + (if b.job == id && Counts(what, b) then 1 else 0)
  {
  }

  lemma CountNone(what: Tally, id: int)
    ensures Count([], what, id) == 0
  {
  }

  lemma {:induction false} NeverLost(log: seq<Entry>, id: int)
    requires forall i :: 0 <= i < |log| ==> !log[i].StoreLost?
    ensures Count(log, StoresLost, id) == 0
  {
    if log == [] {
    } else {
      NeverLost(log[..|log| - 1], id);
    }
  }

  function ApprovedDrafts(drafts: seq<Draft>): nat {
    if drafts == [] then 0
    else ApprovedDrafts(drafts[..|drafts| - 1]) + if drafts[|drafts| - 1].status == Approved then 1 else 0
  }

  lemma {:induction false} ApprovedUpdate(drafts: seq<Draft>, k: nat, d: Draft)
    requires k < |drafts|
    ensures ApprovedDrafts(drafts[k := d]) ==
            ApprovedDrafts(drafts) - (if drafts[k].status == Approved then 1 else 0)
            + (if d.status == Approved then 1 else 0)
  {
    var n := |drafts| - 1;
    if k < n {
      ApprovedUpdate(drafts[..n], k, d);
      assert drafts[k := d][..n] == drafts[..n][k := d];
    } else {
      assert drafts[k := d][..n] == drafts[..n];
    }
  }

  // ----- one call on one job -----

  /** What a review call or a cancellation can do to a job; `o` is its outcome. */
  ghost predicate Effect(job: Job, o: Outcome) {
    && o.job.id == job.id
    && (forall i :: 0 <= i < |o.log| ==> o.log[i].job == job.id)
    && |o.job.drafts| == |job.drafts|
    && (o.job.status == job.status || (!Terminal(job.status) && Terminal(o.job.status)))
    // a completed event marks exactly the step to `Completed`, which needs a draft
    && Count(o.log, Completions, job.id) == (if o.job.status != job.status && o.job.status == Completed then 1 else 0)
    && Count(o.log, Failures, job.id) == 0
    && o.job.status in {job.status, Completed, Canceled}
    && (o.job.status != job.status && o.job.status == Completed ==> job.drafts != [])
    // every stored card is an approved draft, a redone one, or lost
    && Count(o.log, CardsStored, job.id) + ApprovedDrafts(job.drafts) ==
       ApprovedDrafts(o.job.drafts) + Count(o.log, ApprovedRedone, job.id) + Count(o.log, StoresLost, job.id)
    // a canceled or failed job stores nothing, and its pending drafts can only be rejected
    && (job.status == Canceled || job.status == Failed ==>
          && Count(o.log, CardsStored, job.id) == 0
          && forall i :: 0 <= i < |job.drafts| ==>
               OnlyRejected(job.drafts[i], o.job.drafts[i]))
  }

  predicate OnlyRejected(before: Draft, after: Draft) {
    after == before || (before.status == Pending && after == before.(status := Rejected))
  }

  lemma FinalizeEffect(job: Job, copied: bool)
    ensures var (j, more) := Finalize(job, copied);
            && j.id == job.id && j.drafts == job.drafts
            && (j.status == job.status || (!Terminal(job.status) && j.status == Completed))
            && (forall i :: 0 <= i < |more| ==> more[i].job == job.id)
            && forall what :: Count(more, what, job.id) ==
                 if what == Completions && j.status != job.status then 1 else 0
  {
  }

  lemma ApproveEffect(job: Job, k: nat, saved: Option<int>, copied: bool, finalCopied: bool)
    requires k < |job.drafts|
    ensures Effect(job, ApproveDraft(job, k, saved, copied, finalCopied))
  {
    hide Finalize;
    var o := ApproveDraft(job, k, saved, copied, finalCopied);
    if o.log == [] {
      NothingHappened(job, o);
    } else {
      var id := job.id;
      var lost := [CardStored(id), StoreLost(id)];
      var kept := [CardStored(id), CardSaved(id, job.drafts[k].id)];
      forall what: Tally
        ensures Count(lost, what, id) == (if what == CardsStored || what == StoresLost then 1 else 0)
        ensures Count(kept, what, id) == (if what == CardsStored then 1 else 0)
      {
        CountTwo(lost[0], lost[1], what, id);
        CountTwo(kept[0], kept[1], what, id);
      }
      if copied {
        var reviewed := Reviewed(job, k, Approved, saved.value);
        var (final, more) := Finalize(reviewed, finalCopied);
        FinalizeEffect(reviewed, finalCopied);
        ApprovedUpdate(job.drafts, k, reviewed.drafts[k]);
        forall what: Tally
          ensures Count(o.log, what, id) == Count(kept, what, id) + Count(more, what, id)
        {
          CountConcat(kept, more, what, id);
        }
      }
    }
  }

  lemma NothingHappened(job: Job, o: Outcome)
    requires o.job == job && o.log == []
    ensures Effect(job, o)
  {
  }

  lemma RejectEffect(job: Job, k: nat, copied: bool, finalCopied: bool)
    requires k < |job.drafts|
    ensures Effect(job, RejectDraft(job, k, copied, finalCopied))
  {
    hide Finalize;
    var o := RejectDraft(job, k, copied, finalCopied);
    if o.code != Ok {
      NothingHappened(job, o);
    } else {
      var reviewed := Reviewed(job, k, Rejected, job.drafts[k].savedCard);
      FinalizeEffect(reviewed, finalCopied);
      ApprovedUpdate(job.drafts, k, reviewed.drafts[k]);
    }
  }

  lemma RegenerateEffect(job: Job, k: nat, card: Option<Card>, copied: bool)
    requires k < |job.drafts|
    ensures Effect(job, RegenerateDraft(job, k, card, copied))
  {
    var o := RegenerateDraft(job, k, card, copied);
    if o.code != Ok {
      NothingHappened(job, o);
    } else {
      ApprovedUpdate(job.drafts, k, o.job.drafts[k]);
      forall what: Tally
        ensures Count(o.log, what, job.id) == if Counts(what, o.log[0]) then 1 else 0
      {
        CountTwo(o.log[0], o.log[0], what, job.id);
      }
    }
  }

  lemma CancelEffect(job: Job, copied: bool)
    ensures Effect(job, CancelJob(job, copied))
  {
  }

  lemma ReviewEffect(job: Job, k: nat, op: Operation)
    requires k < |job.drafts| && Reviewing(op)
    ensures Effect(job, Review(job, k, op))
  {
    hide Effect, ApproveDraft, RejectDraft, RegenerateDraft;
    match op
    case Approve(_, _, saved, copied, final) => ApproveEffect(job, k, saved, copied, final);
    case Reject(_, _, copied, final) => RejectEffect(job, k, copied, final);
    case Regenerate(_, _, card, copied) => RegenerateEffect(job, k, card, copied);
  }

  // ----- creating a job -----

  /** Generating adds one failed event when the model fails and nothing else that is counted. */
  lemma {:induction false} GenerateLogs(job: Job, nextDraft: int, candidates: seq<bytes>, i: nat, w: World, what: Tally)
    requires i <= |candidates|
    ensures var g := Generate(job, nextDraft, candidates, i, w);
            && g.job.id == job.id
            && Count(g.log, what, job.id) == (if what == Failures && g.code == Upstream then 1 else 0)
            && (forall j :: 0 <= j < |g.log| ==> g.log[j].job == job.id)
            && g.code in {Ok, Upstream, ServerError}
            && g.job.status == (if g.code == Upstream && w.mem.failed then Failed else job.status)
    decreases |candidates| - i
  {
    hide Appended;
    var g := Generate(job, nextDraft, candidates, i, w);
    if i == |candidates| {
      CountNone(what, job.id);
    } else if w.generate(candidates[i]).None? {
      CountTwo(JobFailed(job.id), JobFailed(job.id), what, job.id);
    } else if !w.mem.draftBlock(i) || !w.mem.draftFields(i) {
      CountNone(what, job.id);
    } else {
      var card := w.generate(candidates[i]).value;
      AppendedFacts(job, nextDraft, card);
      GenerateLogs(Appended(job, nextDraft, card), nextDraft + 1, candidates, i + 1, w, what);
      var two := [CardDraft(job.id, nextDraft), JobProgress(job.id, 60 + (i + 1) * 35 / |candidates|)];
      CountTwo(two[0], two[1], what, job.id);
      CountConcat(two, Generate(Appended(job, nextDraft, card), nextDraft + 1, candidates, i + 1, w).log, what, job.id);
    }
  }

  lemma AppendedFacts(job: Job, nextDraft: int, card: Card)
    ensures Appended(job, nextDraft, card).id == job.id && Appended(job, nextDraft, card).status == job.status
  {
  }

  /** Nothing but what is said here is added to the log of another job or of this one. */
  ghost predicate Extends(before: seq<Entry>, after: seq<Entry>, id: int) {
    before <= after && forall j :: |before| <= j < |after| ==> after[j].job == id
  }

  /** A failed event when the model fails, a completed event when the job ends without drafts. */
  function CreationCount(what: Tally, g: Generation): nat {
    if what == Failures && g.code == Upstream then 1
    else if what == Completions && g.job.status == Completed then 1
    else 0
  }

  /** What creating leaves in the table and the log. */
  ghost predicate Creation(job: Job, before: seq<Entry>, g: Generation, w: World) {
    && g.job.id == job.id
    && Extends(before, g.log, job.id)
    && (forall what :: Count(g.log, what, job.id) == Count(before, what, job.id) + CreationCount(what, g))
    && g.job.status != Canceled
    && (g.code == Upstream ==> g.job.status == if w.mem.failed then Failed else Generating)
    && (g.code != Upstream ==> g.job.status != Failed)
    && (g.job.status == Completed ==> g.job.drafts == [])
    && (g.job.status == ReviewReady ==> g.job.drafts != [])
    && (Plenty(w.mem) ==> g.job.status in {ReviewReady, Completed, Failed})
  }

  lemma ExtendOne(before: seq<Entry>, after: seq<Entry>, e: Entry)
    requires Extends(before, after, e.job) && e.JobProgress?
    ensures Extends(before, after + [e], e.job)
    ensures forall what :: Count(after + [e], what, e.job) == Count(after, what, e.job)
  {
  }

  lemma ExtendCompleted(before: seq<Entry>, after: seq<Entry>, id: int)
    requires Extends(before, after, id)
    ensures Extends(before, after + [JobCompleted(id)], id)
    ensures forall what :: Count(after + [JobCompleted(id)], what, id) ==
                           Count(after, what, id) + if what == Completions then 1 else 0
  {
    assert (after + [JobCompleted(id)])[..|after|] == after;
  }

  lemma {:induction false} GenerateNeverFinishes(job: Job, nextDraft: int, candidates: seq<bytes>, i: nat, w: World)
    requires i <= |candidates|
    ensures Plenty(w.mem) ==> Generate(job, nextDraft, candidates, i, w).code != ServerError
    decreases |candidates| - i
  {
    if i < |candidates| && w.generate(candidates[i]).Some? {
      var next := Appended(job, nextDraft, w.generate(candidates[i]).value);
      GenerateNeverFinishes(next, nextDraft + 1, candidates, i + 1, w);
    }
  }

  lemma ExtendGenerated(before: seq<Entry>, after: seq<Entry>, g: Generation, id: int)
    requires Extends(before, after, id) && forall j :: 0 <= j < |g.log| ==> g.log[j].job == id
    ensures Extends(before, after + g.log, id)
    ensures forall what :: Count(after + g.log, what, id) == Count(after, what, id) + Count(g.log, what, id)
  {
    forall what: Tally
      ensures Count(after + g.log, what, id) == Count(after, what, id) + Count(g.log, what, id)
    {
      CountConcat(after, g.log, what, id);
    }
  }

  /** The generation loop and what follows it, with `log` written since `before`. */
  lemma GenerateCreates(job: Job, nextDraft: int, candidates: seq<bytes>, before: seq<Entry>, log: seq<Entry>, w: World)
    requires job.status == Generating && Extends(before, log, job.id)
    requires forall what :: Count(log, what, job.id) == Count(before, what, job.id)
    requires w.mem.tokenizing
    ensures var g := Generate(job, nextDraft, candidates, 0, w);
            Creation(job, before, FinishPipeline(g.(log := log + g.log), w.mem), w)
  {
    hide Generate, Plenty, Count, Extends;
    var g := Generate(job, nextDraft, candidates, 0, w);
    forall what: Tally
      ensures Count(g.log, what, job.id) == if what == Failures && g.code == Upstream then 1 else 0
    {
      GenerateLogs(job, nextDraft, candidates, 0, w, what);
    }
    GenerateLogs(job, nextDraft, candidates, 0, w, Failures);
    GenerateNeverFinishes(job, nextDraft, candidates, 0, w);
    ExtendGenerated(before, log, g, job.id);
    var all := log + g.log;
    if g.code == Ok && w.mem.final {
      if g.job.drafts == [] {
        ExtendCompleted(before, all, job.id);
      } else {
        ExtendOne(before, all, JobProgress(job.id, 100));
      }
    }
    PlentyFinal(w.mem);
  }

  lemma PlentyFinal(mem: Memory)
    ensures Plenty(mem) ==> mem.final && mem.failed && mem.tokenizing && mem.filtering && mem.candidates
                            && mem.checking && mem.generating && mem.job
  {
  }

  /** Memory ran out before the generation loop. */
  lemma EarlyCreates(id: int, g: Generation, before: seq<Entry>, w: World)
    requires g.code == ServerError && g.job.id == id && !Plenty(w.mem)
    requires g.job.status in {Queued, Tokenizing, FilteringCommonWords, CheckingDatabase}
    requires Extends(before, g.log, id) && forall what :: Count(g.log, what, id) == Count(before, what, id)
    ensures forall job: Job :: job.id == id ==> Creation(job, before, g, w)
  {
  }

  lemma {:induction false} PipelineCreates(job: Job, nextDraft: int, before: seq<Entry>, w: World)
    requires job.status == Queued && job.drafts == []
    ensures Creation(job, before, Pipeline(job, nextDraft, before, w), w)
  {
    hide Tokenizer.Words, Uncommon, Unknown, Generate, FinishPipeline, Plenty, Creation, Extends;
    PlentyFinal(w.mem);
    var g := Pipeline(job, nextDraft, before, w);
    var log1 := before + [JobProgress(job.id, 10)];
    var log2 := log1 + [JobProgress(job.id, 25)];
    var log3 := log2 + [JobProgress(job.id, 40)];
    ExtendNone(before, job.id);
    ExtendOne(before, before, JobProgress(job.id, 10));
    ExtendOne(before, log1, JobProgress(job.id, 25));
    ExtendOne(before, log2, JobProgress(job.id, 40));
    ExtendOne(before, log3, JobProgress(job.id, 60));
    var words := Tokenizer.Words(job.text);
    if w.mem.tokenizing && w.mem.filtering && (|words| == 0 || w.mem.candidates)
       && w.mem.checking && w.mem.generating {
      var uncommon := Uncommon(words);
      var candidates := if job.user > 0 then Unknown(uncommon, w.known) else uncommon;
      var start := job.(totalWords := |words|, filteredWords := job.filteredWords + |words| - |uncommon|,
                        existingWords := job.existingWords + |uncommon| - |candidates|, status := Generating);
      GenerateCreates(start, nextDraft, candidates, before, log3 + [JobProgress(job.id, 60)], w);
      SameCreation(start, job, before, g, w);
    } else {
      EarlyCreates(job.id, g, before, w);
    }
  }

  lemma ExtendNone(before: seq<Entry>, id: int)
    ensures Extends(before, before, id)
  {
  }

  lemma SameCreation(a: Job, b: Job, before: seq<Entry>, g: Generation, w: World)
    requires a.id == b.id && Creation(a, before, g, w)
    ensures Creation(b, before, g, w)
  {
  }
}

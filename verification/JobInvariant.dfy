/** What holds in every reachable job table, also when allocations fail. */
module JobInvariant {
  import opened Bytes
  import opened JobModel
  import Tokenizer

  // ----- the invariant -----

  /** How many drafts have been approved or rejected. */
  function NonPending(drafts: seq<Draft>): nat {
    if drafts == [] then 0
    else NonPending(drafts[..|drafts| - 1]) + if drafts[|drafts| - 1].status != Pending then 1 else 0
  }

  function Ids(drafts: seq<Draft>): (r: seq<int>)
    ensures |r| == |drafts| && forall i :: 0 <= i < |r| ==> r[i] == drafts[i].id
  {
    seq(|drafts|, i requires 0 <= i < |drafts| => drafts[i].id)
  }

  /** The draft ids of the whole table, job after job. */
  function AllIds(jobs: seq<Job>): seq<int> {
    if jobs == [] then [] else AllIds(jobs[..|jobs| - 1]) + Ids(jobs[|jobs| - 1].drafts)
  }

  predicate Increasing(s: seq<int>) {
    forall i, j :: 0 <= i < j < |s| ==> s[i] < s[j]
  }

  predicate JobConsistent(job: Job) {
    && job.reviewedDrafts == NonPending(job.drafts)
    && job.generatedDrafts == |job.drafts|
    && forall k :: 0 <= k < |job.drafts| ==> job.drafts[k].job == job.id && job.drafts[k].user == job.user
  }

  ghost predicate Consistent(s: Service) {
    && |s.jobs| <= MAX_JOBS
    && (forall i :: 0 <= i < |s.jobs| ==> JobConsistent(s.jobs[i]))
    && (forall i, j :: 0 <= i < j < |s.jobs| ==> s.jobs[i].id < s.jobs[j].id)
    && (forall i :: 0 <= i < |s.jobs| ==> 1 <= s.jobs[i].id < s.nextJob)
    && 1 <= s.nextJob
    && Increasing(AllIds(s.jobs))
    && (forall i :: 0 <= i < |AllIds(s.jobs)| ==> 1 <= AllIds(s.jobs)[i] < s.nextDraft)
    && 1 <= s.nextDraft <= 1 + Tokenizer.MAX_WORDS * |s.jobs|
  }

  // ----- one job -----

  lemma {:induction false} NonPendingUpdate(drafts: seq<Draft>, k: nat, d: Draft)
    requires k < |drafts|
    ensures NonPending(drafts[k := d]) ==
            NonPending(drafts) - (if drafts[k].status != Pending then 1 else 0)
            + (if d.status != Pending then 1 else 0)
    ensures drafts[k].status != Pending ==> NonPending(drafts) > 0
  {
    var n := |drafts| - 1;
    if k < n {
      NonPendingUpdate(drafts[..n], k, d);
      assert drafts[k := d][..n] == drafts[..n][k := d];
    } else {
      assert drafts[k := d][..n] == drafts[..n];
    }
  }

  /** Two states of a job that differ in nothing the table relies on. */
  predicate SameIdentity(a: Job, b: Job) {
    a.id == b.id && a.user == b.user && a.text == b.text && Ids(a.drafts) == Ids(b.drafts)
  }

  lemma FinalizeKeeps(job: Job, copied: bool)
    requires JobConsistent(job)
    ensures var j := Finalize(job, copied).0; JobConsistent(j) && SameIdentity(job, j)
  {
  }

  lemma UpdateKeeps(job: Job, k: nat, d: Draft, reviewed: int)
    requires JobConsistent(job) && k < |job.drafts|
    requires d.id == job.drafts[k].id && d.job == job.id && d.user == job.user
    requires reviewed == job.reviewedDrafts - (if job.drafts[k].status != Pending then 1 else 0)
                         + (if d.status != Pending then 1 else 0)
    ensures var j := job.(drafts := job.drafts[k := d], reviewedDrafts := reviewed);
            JobConsistent(j) && SameIdentity(job, j)
  {
    NonPendingUpdate(job.drafts, k, d);
    assert Ids(job.drafts[k := d]) == Ids(job.drafts);
  }

  /** With the invariant, the test for a positive count before the decrement never fails. */
  lemma DecrementGuardRedundant(job: Job, k: nat)
    requires JobConsistent(job) && k < |job.drafts| && job.drafts[k].status != Pending
    ensures job.reviewedDrafts > 0
  {
    NonPendingUpdate(job.drafts, k, job.drafts[k]);
  }

  lemma ReviewKeeps(job: Job, k: nat, op: Operation)
    requires JobConsistent(job) && k < |job.drafts| && Reviewing(op)
    ensures var j := Review(job, k, op).job; JobConsistent(j) && SameIdentity(job, j)
  {
    hide JobConsistent, SameIdentity, Finalize, NonPending;
    var d := job.drafts[k];
    Owned(job, k);
    SameAsItself(job);
    match op
    case Approve(_, _, saved, copied, final) =>
      if d.status == Pending && saved.Some? {
        UpdateKeeps(job, k, d.(status := Approved, savedCard := saved.value), job.reviewedDrafts + 1);
        FinalizeKeeps(Reviewed(job, k, Approved, saved.value), final);
        Transitive(job, Reviewed(job, k, Approved, saved.value), final);
      }
    case Reject(_, _, copied, final) =>
      if d.status == Pending {
        UpdateKeeps(job, k, d.(status := Rejected), job.reviewedDrafts + 1);
        FinalizeKeeps(Reviewed(job, k, Rejected, d.savedCard), final);
        Transitive(job, Reviewed(job, k, Rejected, d.savedCard), final);
      }
    case Regenerate(_, _, card, copied) =>
      if card.Some? {
        if d.status != Pending {
          DecrementGuardRedundant(job, k);
        }
        UpdateKeeps(job, k, d.(status := Pending, card := card.value, savedCard := 0),
                    job.reviewedDrafts - if d.status != Pending then 1 else 0);
      }
  }

  lemma Owned(job: Job, k: nat)
    requires JobConsistent(job) && k < |job.drafts|
    ensures job.drafts[k].job == job.id && job.drafts[k].user == job.user
  {
  }

  lemma SameAsItself(job: Job)
    ensures SameIdentity(job, job)
  {
  }

  lemma Transitive(a: Job, b: Job, copied: bool)
    requires SameIdentity(a, b) && SameIdentity(b, Finalize(b, copied).0)
    ensures SameIdentity(a, Finalize(b, copied).0)
  {
  }

  lemma CancelKeeps(job: Job, copied: bool)
    requires JobConsistent(job)
    ensures var j := CancelJob(job, copied).job; JobConsistent(j) && SameIdentity(job, j)
  {
  }

  // ----- the table -----

  lemma {:induction false} AllIdsUpdate(jobs: seq<Job>, i: nat, job: Job)
    requires i < |jobs| && Ids(job.drafts) == Ids(jobs[i].drafts)
    ensures AllIds(jobs[i := job]) == AllIds(jobs)
  {
    var n := |jobs| - 1;
    if i < n {
      AllIdsUpdate(jobs[..n], i, job);
      assert jobs[i := job][..n] == jobs[..n][i := job];
    } else {
      assert jobs[i := job][..n] == jobs[..n];
    }
  }

  lemma StoredKeeps(s: Service, i: nat, o: Outcome)
    requires Consistent(s) && i < |s.jobs|
    requires JobConsistent(o.job) && SameIdentity(s.jobs[i], o.job)
    ensures Consistent(Stored(s, i, o).service)
  {
    hide JobConsistent, Increasing;
    AllIdsUpdate(s.jobs, i, o.job);
  }

  // ----- the pipeline -----

  /** The drafts the generation loop adds to a job, numbered from `nextDraft`. */
  ghost predicate Added(before: Job, after: Job, nextDraft: int, n: nat) {
    && after.id == before.id && after.user == before.user && after.reviewedDrafts == before.reviewedDrafts
    && |after.drafts| == |before.drafts| + n && before.drafts <= after.drafts
    && after.generatedDrafts == |after.drafts|
    && forall j :: |before.drafts| <= j < |after.drafts| ==>
         FreshDraft(after.drafts[j], before, nextDraft + j - |before.drafts|)
  }

  predicate FreshDraft(d: Draft, job: Job, id: int) {
    d.job == job.id && d.user == job.user && d.id == id && d.status == Pending && d.savedCard == 0
  }

  lemma {:induction false} GenerateAdds(job: Job, nextDraft: int, candidates: seq<bytes>, i: nat, w: World)
    returns (n: nat)
    requires i <= |candidates| && job.generatedDrafts == |job.drafts|
    ensures var g := Generate(job, nextDraft, candidates, i, w);
            && n <= |candidates| - i
            && Added(job, g.job, nextDraft, n)
            && nextDraft + n <= g.nextDraft <= nextDraft + (|candidates| - i)
    decreases |candidates| - i
  {
    n := 0;
    if i < |candidates| && w.generate(candidates[i]).Some? && w.mem.draftBlock(i) && w.mem.draftFields(i) {
      var next := Appended(job, nextDraft, w.generate(candidates[i]).value);
      var m := GenerateAdds(next, nextDraft + 1, candidates, i + 1, w);
      n := m + 1;
      AddedOne(job, next, Generate(next, nextDraft + 1, candidates, i + 1, w).job, nextDraft, m);
    }
  }

  lemma AddedOne(job: Job, next: Job, after: Job, nextDraft: int, m: nat)
    requires Added(job, next, nextDraft, 1) && Added(next, after, nextDraft + 1, m)
    ensures Added(job, after, nextDraft, m + 1)
  {
  }

  lemma {:induction false} UncommonShorter(ws: seq<bytes>, known: bytes -> bool)
    ensures |Uncommon(ws)| <= |ws| && |Unknown(ws, known)| <= |ws|
  {
    if ws == [] {
    } else {
      UncommonShorter(ws[1..], known);
    }
  }

  lemma PipelineAdds(job: Job, nextDraft: int, log: seq<Entry>, w: World) returns (n: nat)
    requires job.drafts == [] && job.generatedDrafts == 0
    ensures var g := Pipeline(job, nextDraft, log, w);
            n <= Tokenizer.MAX_WORDS && Added(job, g.job, nextDraft, n)
            && nextDraft + n <= g.nextDraft <= nextDraft + Tokenizer.MAX_WORDS
  {
    hide Generate, Tokenizer.Words, Uncommon, Unknown;
    n := 0;
    if w.mem.tokenizing && w.mem.filtering {
      var words := Tokenizer.Words(job.text);
      var uncommon := Uncommon(words);
      UncommonShorter(words, w.known);
      UncommonShorter(uncommon, w.known);
      if (|words| == 0 || w.mem.candidates) && w.mem.checking && w.mem.generating {
        var candidates := if job.user > 0 then Unknown(uncommon, w.known) else uncommon;
        var start := job.(totalWords := |words|, filteredWords := job.filteredWords + |words| - |uncommon|,
                          existingWords := job.existingWords + |uncommon| - |candidates|, status := Generating);
        n := GenerateAdds(start, nextDraft, candidates, 0, w);
      }
    }
  }

  lemma {:induction false} AllPending(drafts: seq<Draft>)
    requires forall i :: 0 <= i < |drafts| ==> drafts[i].status == Pending
    ensures NonPending(drafts) == 0
  {
    if drafts == [] {
    } else {
      AllPending(drafts[..|drafts| - 1]);
    }
  }

  /** What the pipeline makes of a new job. */
  lemma CreatedConsistent(job: Job, nextDraft: int, log: seq<Entry>, w: World)
    requires job.drafts == [] && job.generatedDrafts == 0 && job.reviewedDrafts == 0
    ensures var g := Pipeline(job, nextDraft, log, w);
            && JobConsistent(g.job) && g.job.id == job.id
            && (forall j :: 0 <= j < |g.job.drafts| ==> g.job.drafts[j].id == nextDraft + j)
            && nextDraft + |g.job.drafts| <= g.nextDraft <= nextDraft + Tokenizer.MAX_WORDS
  {
    hide Pipeline, NonPending;
    var n := PipelineAdds(job, nextDraft, log, w);
    var g := Pipeline(job, nextDraft, log, w);
    assert forall j :: 0 <= j < n ==> FreshDraft(g.job.drafts[j], job, nextDraft + j);
    AllPending(g.job.drafts);
  }

  lemma CreateKeeps(s: Service, text: bytes, user: int, w: World)
    requires Consistent(s)
    ensures Consistent(CreateJob(s, text, user, w).service)
  {
    hide Pipeline, JobConsistent, AllIds;
    if text != [] && |s.jobs| < MAX_JOBS && w.mem.job {
      var job, log := NewJob(s.nextJob, user, text), s.log + [JobCreated(s.nextJob)];
      CreatedConsistent(job, s.nextDraft, log, w);
      var g := Pipeline(job, s.nextDraft, log, w);
      TableGrows(s, g.job, g.nextDraft, g.log);
    }
  }

  lemma TableGrows(s: Service, job: Job, nextDraft: int, log: seq<Entry>)
    requires Consistent(s) && |s.jobs| < MAX_JOBS && JobConsistent(job) && job.id == s.nextJob
    requires forall j :: 0 <= j < |job.drafts| ==> job.drafts[j].id == s.nextDraft + j
    requires s.nextDraft + |job.drafts| <= nextDraft <= s.nextDraft + Tokenizer.MAX_WORDS
    ensures Consistent(Service(s.jobs + [job], s.nextJob + 1, nextDraft, log))
  {
  }

  /** Every call keeps the table consistent. */
  lemma {:induction false} StepKeeps(s: Service, op: Operation)
    requires Consistent(s)
    ensures Consistent(Step(s, op).service)
  {
    hide Consistent, JobConsistent, CreateJob, Review, CancelJob, SameIdentity;
    match op
    case Create(text, user, w) => CreateKeeps(s, text, user, w);
    case Cancel(id, copied) =>
      var i := FindJob(s.jobs, id);
      if i.Some? {
        OneConsistent(s, i.value);
        CancelKeeps(s.jobs[i.value], copied);
        StoredKeeps(s, i.value, CancelJob(s.jobs[i.value], copied));
      }
    case _ =>
      var i := FindJob(s.jobs, op.job);
      if i.Some? {
        var job := s.jobs[i.value];
        var k := FindDraft(job.drafts, op.draft);
        if k.Some? {
          OneConsistent(s, i.value);
          ReviewKeeps(job, k.value, op);
          StoredKeeps(s, i.value, Review(job, k.value, op));
        }
      }
  }

  lemma OneConsistent(s: Service, i: nat)
    requires Consistent(s) && i < |s.jobs|
    ensures JobConsistent(s.jobs[i])
  {
  }

  /** In every reachable table: review and draft counts are right, job ids increase along the table,
      and draft ids increase, hence differ, across all jobs; the draft counter stays far below
      overflow. */
  lemma {:induction false} ReachableConsistent(ops: seq<Operation>)
    ensures Consistent(Run(EMPTY_SERVICE, ops))
  {
    RunKeeps(EMPTY_SERVICE, ops);
  }

  lemma {:induction false} RunKeeps(s: Service, ops: seq<Operation>)
    requires Consistent(s)
    ensures Consistent(Run(s, ops))
    decreases |ops|
  {
    hide Consistent, Step;
    if ops == [] {
    } else {
      StepKeeps(s, ops[0]);
      RunKeeps(Step(s, ops[0]).service, ops[1..]);
    }
  }

  // ----- draft ids are unique -----

  lemma {:induction false} DraftPosition(jobs: seq<Job>, i: nat, k: nat) returns (p: nat)
    requires i < |jobs| && k < |jobs[i].drafts|
    ensures p < |AllIds(jobs)| && AllIds(jobs)[p] == jobs[i].drafts[k].id
    ensures p == |AllIds(jobs[..i])| + k
    decreases |jobs|
  {
    var n := |jobs| - 1;
    if i < n {
      p := DraftPosition(jobs[..n], i, k);
      assert jobs[..n][..i] == jobs[..i];
    } else {
      p := |AllIds(jobs[..n])| + k;
    }
  }

  lemma {:induction false} IdsBefore(jobs: seq<Job>, i: nat, j: nat)
    requires i < j <= |jobs|
    ensures |AllIds(jobs[..i])| + |jobs[i].drafts| <= |AllIds(jobs[..j])|
    decreases j
  {
    assert jobs[..j][..j - 1] == jobs[..j - 1];
    if i < j - 1 {
      IdsBefore(jobs, i, j - 1);
    }
  }

  /** No two drafts of the table, of one job or of two, share an id. */
  lemma DraftIdsUnique(s: Service, i: nat, k: nat, j: nat, l: nat)
    requires Consistent(s) && i < |s.jobs| && j < |s.jobs|
    requires k < |s.jobs[i].drafts| && l < |s.jobs[j].drafts|
    requires s.jobs[i].drafts[k].id == s.jobs[j].drafts[l].id
    ensures i == j && k == l
  {
    hide JobConsistent, AllIds;
    var p := DraftPosition(s.jobs, i, k);
    var q := DraftPosition(s.jobs, j, l);
    assert p == q;
    if i < j {
      IdsBefore(s.jobs, i, j);
    } else if j < i {
      IdsBefore(s.jobs, j, i);
    }
  }
}

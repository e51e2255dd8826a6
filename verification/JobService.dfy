/** generation_job_service.c as it runs: a table of jobs changed in place. Every procedure does what
    its counterpart in `JobModel` says. */
module JobService {
  import opened Bytes
  import opened JobModel
  import Tokenizer

  /** `is_common_word`. */
  method IsCommonWord(w: bytes) returns (common: bool)
    ensures common == Common(w)
  {
    hide COMMON_WORDS;
    if |w| <= 2 {
      return true;
    }
    var i := 0;
    while i < |COMMON_WORDS|
      invariant 0 <= i <= |COMMON_WORDS|
      invariant forall j :: 0 <= j < i ==> COMMON_WORDS[j] != AsString(w)
    {
      if COMMON_WORDS[i] == AsString(w) {
        assert AsString(w) in COMMON_WORDS;
        return true;
      }
      i := i + 1;
    }
    assert AsString(w) !in COMMON_WORDS;
    return false;
  }

  /** The filtering loop of the pipeline: the common words are counted, the others collected. */
  method FilterCommon(words: array<bytes>, count: nat) returns (candidates: array<bytes>, kept: nat, filtered: nat)
    requires count <= words.Length
    ensures fresh(candidates) && candidates.Length == count && kept <= count
    ensures candidates[..kept] == Uncommon(words[..count]) && filtered == count - kept
  {
    hide Common;
    candidates := new bytes[count];
    kept, filtered := 0, 0;
    ghost var ws := words[..count];
    var i := 0;
    assert ws[0..] == ws && candidates[..0] + Uncommon(ws) == Uncommon(ws);
    while i < count
      invariant 0 <= i <= count && kept + filtered == i
      invariant candidates[..kept] + Uncommon(ws[i..]) == Uncommon(ws)
    {
      ghost var before, rest := candidates[..kept], Uncommon(ws[i + 1..]);
      assert ws[i..][1..] == ws[i + 1..] && ws[i] == words[i];
      var common := IsCommonWord(words[i]);
      if common {
        assert [] + rest == rest;
        filtered := filtered + 1;
      } else {
        assert before + ([ws[i]] + rest) == (before + [ws[i]]) + rest;
        candidates[kept] := words[i];
        kept := kept + 1;
      }
      i := i + 1;
    }
    assert ws[count..] == [] && candidates[..kept] + [] == candidates[..kept];
  }

  /** The compaction loop: candidates the user already has a card for are dropped in place. */
  method DropKnown(candidates: array<bytes>, count: nat, known: bytes -> bool) returns (kept: nat)
    requires count <= candidates.Length
    modifies candidates
    ensures kept <= count && candidates[..kept] == Unknown(old(candidates[..count]), known)
  {
    hide Unknown;
    kept := 0;
    ghost var ws := candidates[..count];
    var i := 0;
    assert ws[0..] == ws && candidates[..0] + Unknown(ws, known) == Unknown(ws, known);
    while i < count
      invariant 0 <= kept <= i <= count
      invariant forall j :: i <= j < count ==> candidates[j] == ws[j]
      invariant candidates[..kept] + Unknown(ws[i..], known) == Unknown(ws, known)
    {
      ghost var before, rest := candidates[..kept], Unknown(ws[i + 1..], known);
      UnknownStep(ws, i, known);
      if known(candidates[i]) {
        assert [] + rest == rest;
      } else {
        assert before + ([ws[i]] + rest) == (before + [ws[i]]) + rest;
        candidates[kept] := candidates[i];
        kept := kept + 1;
        assert candidates[..kept] == before + [ws[i]];
      }
      i := i + 1;
    }
    UnknownEnd(ws, known);
    assert candidates[..kept] + [] == candidates[..kept];
  }

  lemma UnknownStep(ws: seq<bytes>, i: nat, known: bytes -> bool)
    requires i < |ws|
    ensures Unknown(ws[i..], known) == (if known(ws[i]) then [] else [ws[i]]) + Unknown(ws[i + 1..], known)
  {
  }

  lemma UnknownEnd(ws: seq<bytes>, known: bytes -> bool)
    ensures Unknown(ws[|ws|..], known) == []
  {
  }

  class JobService {
    var jobs: seq<Job>
    var nextJob: int
    var nextDraft: int
    var log: seq<Entry>

    ghost function View(): Service
      reads this
    {
      Service(jobs, nextJob, nextDraft, log)
    }

    /** `generation_job_service_init`. */
    constructor ()
      ensures View() == EMPTY_SERVICE
    {
      jobs, nextJob, nextDraft, log := [], 1, 1, [];
    }

    /** `generation_job_find`. */
    method Find(id: int) returns (i: Option<nat>)
      ensures i == FindJob(jobs, id)
    {
      var k := 0;
      assert jobs[0..] == jobs;
      while k < |jobs|
        invariant 0 <= k <= |jobs|
        invariant FindJob(jobs, id) ==
                  var r := FindJob(jobs[k..], id); if r.None? then None else Some(r.value + k)
      {
        assert jobs[k..][1..] == jobs[k + 1..];
        if jobs[k].id == id {
          return Some(k);
        }
        k := k + 1;
      }
      return None;
    }

    /** `generation_job_find_draft`. */
    method FindDraftOf(i: nat, id: int) returns (k: Option<nat>)
      requires i < |jobs|
      ensures k == FindDraft(jobs[i].drafts, id)
    {
      var drafts := jobs[i].drafts;
      var j := 0;
      assert drafts[0..] == drafts;
      while j < |drafts|
        invariant 0 <= j <= |drafts|
        invariant FindDraft(drafts, id) ==
                  var r := FindDraft(drafts[j..], id); if r.None? then None else Some(r.value + j)
      {
        assert drafts[j..][1..] == drafts[j + 1..];
        if drafts[j].id == id {
          return Some(j);
        }
        j := j + 1;
      }
      return None;
    }

    method SetStatus(i: nat, status: JobStatus, copied: bool) returns (ok: bool)
      requires i < |jobs|
      modifies `jobs
      ensures ok == copied
      ensures jobs == if copied then old(jobs)[i := old(jobs[i]).(status := status)] else old(jobs)
    {
      if copied {
        jobs := jobs[i := jobs[i].(status := status)];
      }
      ok := copied;
    }

    method Emit(e: Entry)
      modifies `log
      ensures log == old(log) + [e]
    {
      log := log + [e];
    }

    // ----- review -----

    /** `generation_job_finalize_if_review_complete`. */
    method FinalizeIfReviewComplete(i: nat, copied: bool)
      requires i < |jobs|
      modifies `jobs, `log
      ensures var (job, more) := Finalize(old(jobs[i]), copied);
              jobs == old(jobs)[i := job] && log == old(log) + more
    {
      if Terminal(jobs[i].status) {
        return;
      }
      var k := 0;
      while k < |jobs[i].drafts|
        invariant 0 <= k <= |jobs[i].drafts|
        invariant forall j :: 0 <= j < k ==> jobs[i].drafts[j].status != Pending
      {
        if jobs[i].drafts[k].status == Pending {
          return;
        }
        k := k + 1;
      }
      var ok := SetStatus(i, Completed, copied);
      if ok {
        Emit(JobCompleted(jobs[i].id));
      }
    }

    /** `generation_job_service_approve`; `saved` is the answer of `card_service_create`. */
    method ApproveDraft(job: int, draft: int, saved: Option<int>, copied: bool, finalCopied: bool)
      returns (code: Code)
      modifies this
      ensures Step(old(View()), Approve(job, draft, saved, copied, finalCopied)) == Result(View(), code)
    {
      var i := Find(job);
      if i.None? {
        return NotFound;
      }
      var k := FindDraftOf(i.value, draft);
      if k.None? {
        return NotFound;
      }
      code := ApproveFound(i.value, k.value, saved, copied, finalCopied);
    }

    method ApproveFound(i: nat, k: nat, saved: Option<int>, copied: bool, finalCopied: bool) returns (code: Code)
      requires i < |jobs| && k < |jobs[i].drafts|
      modifies `jobs, `log
      ensures Stored(old(View()), i, JobModel.ApproveDraft(old(jobs[i]), k, saved, copied, finalCopied))
              == Result(View(), code)
    {
      hide Finalize;
      if jobs[i].user <= 0 {
        return Unauthorized;
      }
      if jobs[i].status == Canceled || jobs[i].status == Failed {
        return Conflict;
      }
      if jobs[i].drafts[k].status != Pending {
        return Conflict;
      }
      if saved.None? {
        return ServerError;
      }
      Emit(CardStored(jobs[i].id));
      if !copied {
        Emit(StoreLost(jobs[i].id));
        return ServerError;
      }
      jobs := jobs[i := Reviewed(jobs[i], k, Approved, saved.value)];
      Emit(CardSaved(jobs[i].id, jobs[i].drafts[k].id));
      FinalizeIfReviewComplete(i, finalCopied);
      code := Ok;
    }

    /** `generation_job_service_reject`. */
    method RejectDraft(job: int, draft: int, copied: bool, finalCopied: bool) returns (code: Code)
      modifies this
      ensures Step(old(View()), Reject(job, draft, copied, finalCopied)) == Result(View(), code)
    {
      hide Finalize;
      var i := Find(job);
      if i.None? {
        return NotFound;
      }
      var k := FindDraftOf(i.value, draft);
      if k.None? {
        return NotFound;
      }
      var at := i.value;
      if jobs[at].drafts[k.value].status != Pending {
        return Conflict;
      }
      if !copied {
        return ServerError;
      }
      jobs := jobs[at := Reviewed(jobs[at], k.value, Rejected, jobs[at].drafts[k.value].savedCard)];
      FinalizeIfReviewComplete(at, finalCopied);
      code := Ok;
    }

    /** `generation_job_service_regenerate`; `card` is the answer of the language model. */
    method RegenerateDraft(job: int, draft: int, card: Option<Card>, copied: bool) returns (code: Code)
      modifies this
      ensures Step(old(View()), Regenerate(job, draft, card, copied)) == Result(View(), code)
    {
      var i := Find(job);
      if i.None? {
        return NotFound;
      }
      var k := FindDraftOf(i.value, draft);
      if k.None? {
        return NotFound;
      }
      var current := jobs[i.value];
      if current.status == Canceled || current.status == Failed {
        return Conflict;
      }
      if card.None? {
        return Upstream;
      }
      if !copied {
        return ServerError;
      }
      var was := current.drafts[k.value];
      if was.status != Pending && current.reviewedDrafts > 0 {
        jobs := jobs[i.value := jobs[i.value].(reviewedDrafts := current.reviewedDrafts - 1)];
      }
      var now := was.(status := Pending, card := card.value, savedCard := 0);
      jobs := jobs[i.value := jobs[i.value].(drafts := current.drafts[k.value := now])];
      Emit(CardUpdated(current.id, was.id, was.status, current.status));
      code := Ok;
    }

    /** `generation_job_service_cancel`. */
    method CancelJob(job: int, copied: bool) returns (code: Code)
      modifies this
      ensures Step(old(View()), Cancel(job, copied)) == Result(View(), code)
    {
      var i := Find(job);
      if i.None? {
        return NotFound;
      }
      if Terminal(jobs[i.value].status) {
        return Conflict;
      }
      var ok := SetStatus(i.value, Canceled, copied);
      if !ok {
        return ServerError;
      }
      Emit(JobProgress(jobs[i.value].id, 100));
      code := Ok;
    }

    // ----- the pipeline -----

    /** `generation_job_append_draft`. */
    method AppendDraft(i: nat, card: Card, block: bool, fields: bool) returns (ok: bool)
      requires i < |jobs|
      modifies `jobs, `nextDraft
      ensures ok == (block && fields)
      ensures nextDraft == old(nextDraft) + if block then 1 else 0
      ensures jobs == if ok then old(jobs)[i := Appended(old(jobs[i]), old(nextDraft), card)] else old(jobs)
    {
      if !block {
        return false;
      }
      var id := nextDraft;
      nextDraft := nextDraft + 1;
      if !fields {
        return false;
      }
      var job := jobs[i];
      var drafts := job.drafts + [Draft(job.id, id, job.user, 0, Pending, card)];
      jobs := jobs[i := job.(drafts := drafts, generatedDrafts := |drafts|)];
      return true;
    }

    /** The failure branch of the generation loop. */
    method FailGeneration(i: nat, mem: Memory)
      requires i < |jobs|
      modifies `jobs, `log
      ensures var failed := if mem.failed then old(jobs[i]).(status := Failed) else old(jobs[i]);
              var noted := if mem.error then failed.(error := Some(LlmGenerationFailed)) else failed;
              jobs == old(jobs)[i := noted] && log == old(log) + [JobFailed(old(jobs[i]).id)]
    {
      var ok := SetStatus(i, Failed, mem.failed);
      if mem.error {
        jobs := jobs[i := jobs[i].(error := Some(LlmGenerationFailed))];
      }
      Emit(JobFailed(jobs[i].id));
    }

    /** The generation loop: one draft per candidate, until the model or the memory fails. */
    method GenerateDrafts(i: nat, candidates: array<bytes>, count: nat, w: World) returns (code: Code)
      requires i < |jobs| && count <= candidates.Length
      modifies `jobs, `nextDraft, `log
      ensures var g := Generate(old(jobs[i]), old(nextDraft), candidates[..count], 0, w);
              && jobs == old(jobs)[i := g.job] && nextDraft == g.nextDraft
              && log == old(log) + g.log && code == g.code
    {
      hide Generate;
      ghost var list := candidates[..count];
      ghost var all := Generate(jobs[i], nextDraft, list, 0, w);
      ghost var before := log;
      ghost var mine: seq<Entry> := [];
      LogNothing(all);
      var k := 0;
      while k < count
        invariant 0 <= k <= count && |jobs| == |old(jobs)| && jobs == old(jobs)[i := jobs[i]]
        invariant log == before + mine
        invariant all == LogFirst(mine, Generate(jobs[i], nextDraft, list, k, w))
      {
        GenerateStep(jobs[i], nextDraft, list, k, w, mine);
        var card := w.generate(candidates[k]);
        if card.None? {
          FailGeneration(i, w.mem);
          return Upstream;
        }
        var draft := nextDraft;
        var ok := AppendDraft(i, card.value, w.mem.draftBlock(k), w.mem.draftFields(k));
        if !ok {
          return ServerError;
        }
        Emit(CardDraft(jobs[i].id, draft));
        Emit(JobProgress(jobs[i].id, 60 + (k + 1) * 35 / count));
        mine := mine + [CardDraft(jobs[i].id, draft), JobProgress(jobs[i].id, 60 + (k + 1) * 35 / count)];
        k := k + 1;
      }
      GenerateDone(jobs[i], nextDraft, list, w);
      code := Ok;
    }

    /** The end of the pipeline: completed at once without drafts, else ready for review. */
    method FinishReview(i: nat, mem: Memory) returns (code: Code)
      requires i < |jobs|
      modifies `jobs, `log
      ensures var g := FinishPipeline(Generation(old(jobs[i]), nextDraft, old(log), Ok), mem);
              jobs == old(jobs)[i := g.job] && log == g.log && nextDraft == g.nextDraft && code == g.code
    {
      if |jobs[i].drafts| == 0 {
        var ok := SetStatus(i, Completed, mem.final);
        if !ok {
          return ServerError;
        }
        Emit(JobCompleted(jobs[i].id));
        return Ok;
      }
      var ok := SetStatus(i, ReviewReady, mem.final);
      if !ok {
        return ServerError;
      }
      Emit(JobProgress(jobs[i].id, 100));
      code := Ok;
    }

    /** The pipeline from the database check on; the candidates are compacted in place. */
    method CheckAndGenerate(i: nat, candidates: array<bytes>, count: nat, w: World) returns (code: Code)
      requires i < |jobs| && count <= candidates.Length
      modifies `jobs, `nextDraft, `log, candidates
      ensures var g := JobModel.CheckAndGenerate(
                         old(jobs[i]), old(nextDraft), old(candidates[..count]), old(log), w);
              jobs == old(jobs)[i := g.job] && log == g.log && nextDraft == g.nextDraft && code == g.code
    {
      hide Generate, Unknown, FinishPipeline;
      var ok := SetStatus(i, CheckingDatabase, w.mem.checking);
      if !ok {
        return ServerError;
      }
      Emit(JobProgress(jobs[i].id, 40));
      var left := count;
      if jobs[i].user > 0 {
        left := DropKnown(candidates, count, w.known);
        jobs := jobs[i := jobs[i].(existingWords := jobs[i].existingWords + count - left)];
      }
      ok := SetStatus(i, Generating, w.mem.generating);
      if !ok {
        return ServerError;
      }
      Emit(JobProgress(jobs[i].id, 60));
      code := GenerateDrafts(i, candidates, left, w);
      if code == Ok {
        code := FinishReview(i, w.mem);
      } else {
        FinishOther(Generation(jobs[i], nextDraft, log, code), w.mem);
      }
    }

    /** `generation_job_run_pipeline`. */
    method RunPipeline(i: nat, w: World) returns (code: Code)
      requires i < |jobs| && NoNul(jobs[i].text)
      modifies `jobs, `nextDraft, `log
      ensures var g := Pipeline(old(jobs[i]), old(nextDraft), old(log), w);
              jobs == old(jobs)[i := g.job] && nextDraft == g.nextDraft && log == g.log && code == g.code
    {
      hide JobModel.CheckAndGenerate, Uncommon, Tokenizer.Words;
      var ok := SetStatus(i, Tokenizing, w.mem.tokenizing);
      if !ok {
        return ServerError;
      }
      Emit(JobProgress(jobs[i].id, 10));
      var words, count := Tokenizer.ExtractUniqueWords(jobs[i].text);
      jobs := jobs[i := jobs[i].(totalWords := count)];
      ok := SetStatus(i, FilteringCommonWords, w.mem.filtering);
      if !ok {
        return ServerError;
      }
      Emit(JobProgress(jobs[i].id, 25));
      if count > 0 && !w.mem.candidates {
        return ServerError;
      }
      var candidates, kept, filtered := FilterCommon(words, count);
      jobs := jobs[i := jobs[i].(filteredWords := jobs[i].filteredWords + filtered)];
      code := CheckAndGenerate(i, candidates, kept, w);
    }

    /** `generation_job_service_create`. */
    method CreateJob(text: bytes, user: int, w: World) returns (code: Code)
      requires NoNul(text)
      modifies this
      ensures Step(old(View()), Create(text, user, w)) == Result(View(), code)
    {
      hide Pipeline, FindJob, FindDraft, JobModel.Review, JobModel.CancelJob;
      if |text| == 0 {
        return InvalidArgument;
      }
      if |jobs| >= MAX_JOBS {
        return ServerError;
      }
      var id := nextJob;
      nextJob := nextJob + 1;
      if !w.mem.job {
        return ServerError;
      }
      jobs := jobs + [NewJob(id, user, text)];
      Emit(JobCreated(id));
      code := RunPipeline(|jobs| - 1, w);
    }
  }

  lemma FinishOther(g: Generation, mem: Memory)
    requires g.code != Ok
    ensures FinishPipeline(g, mem) == g
  {
  }

  /** `g`, preceded by what was logged before. */
  function LogFirst(log: seq<Entry>, g: Generation): Generation {
    g.(log := log + g.log)
  }

  lemma LogNothing(g: Generation)
    ensures LogFirst([], g) == g
  {
  }

  lemma GenerateDone(job: Job, nextDraft: int, candidates: seq<bytes>, w: World)
    ensures Generate(job, nextDraft, candidates, |candidates|, w) == Generation(job, nextDraft, [], Ok)
  {
  }

  lemma GenerateStep(job: Job, nextDraft: int, candidates: seq<bytes>, k: nat, w: World, mine: seq<Entry>)
    requires k < |candidates|
    ensures var all := LogFirst(mine, Generate(job, nextDraft, candidates, k, w));
            var card := w.generate(candidates[k]);
            if card.None? then
              var failed := if w.mem.failed then job.(status := Failed) else job;
              var noted := if w.mem.error then failed.(error := Some(LlmGenerationFailed)) else failed;
              all == Generation(noted, nextDraft, mine + [JobFailed(job.id)], Upstream)
            else if !w.mem.draftBlock(k) then all == Generation(job, nextDraft, mine, ServerError)
            else if !w.mem.draftFields(k) then all == Generation(job, nextDraft + 1, mine, ServerError)
            else
              all == LogFirst(
                mine + [CardDraft(job.id, nextDraft), JobProgress(job.id, 60 + (k + 1) * 35 / |candidates|)],
                Generate(Appended(job, nextDraft, card.value), nextDraft + 1, candidates, k + 1, w))
  {
  }
}

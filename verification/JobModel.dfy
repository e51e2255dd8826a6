/** The generation jobs of generation_job_service.c: tables, what each operation does to them, and the
    answers of the services around them.

    Card store, language model, known-word check and allocator are parameters of the operations. The
    log records what an operation does to the outside: store calls that succeed and events handed to
    the realtime module; whether an event is in fact built and delivered is not part of this model. */
module JobModel {
  import opened Bytes
  import Tokenizer

  const MAX_JOBS: nat := 128

  datatype JobStatus =
    | Queued | Tokenizing | FilteringCommonWords | CheckingDatabase | Generating
    | ReviewReady | Completed | Failed | Canceled

  datatype DraftStatus = Pending | Approved | Rejected

  datatype JobError = LlmGenerationFailed

  /** A generated card: `generate_service_card_t` without ownership. */
  datatype Card = Card(word: bytes, transcription: bytes, translation: bytes, example0: bytes, example1: bytes)

  datatype Draft = Draft(job: int, id: int, user: int, savedCard: int, status: DraftStatus, card: Card)

  datatype Job = Job(
    id: int, user: int, status: JobStatus, text: bytes, error: Option<JobError>,
    totalWords: int, filteredWords: int, existingWords: int, generatedDrafts: int, reviewedDrafts: int,
    drafts: seq<Draft>)

  datatype Entry =
    | JobCreated(job: int)
    | JobProgress(job: int, progress: int)
    | CardDraft(job: int, draft: int)
    | CardStored(job: int)                                          // the store call of approve succeeded
    | StoreLost(job: int)                                           // ... and then memory ran out
    | CardSaved(job: int, draft: int)
    | CardUpdated(job: int, draft: int, was: DraftStatus, during: JobStatus)
    | JobCompleted(job: int)
    | JobFailed(job: int)

  datatype Service = Service(jobs: seq<Job>, nextJob: int, nextDraft: int, log: seq<Entry>)

  datatype Code = Ok | InvalidArgument | NotFound | Conflict | Unauthorized | Upstream | ServerError

  const EMPTY_SERVICE: Service := Service([], 1, 1, [])

  // ----- lookup -----

  function FindJob(jobs: seq<Job>, id: int): (r: Option<nat>)
    ensures r.Some? ==> r.value < |jobs| && jobs[r.value].id == id
    ensures r.None? ==> forall i :: 0 <= i < |jobs| ==> jobs[i].id != id
  {
    if jobs == [] then None
    else if jobs[0].id == id then Some(0)
    else
      var r := FindJob(jobs[1..], id);
      if r.None? then None else Some(r.value + 1)
  }

  function FindDraft(drafts: seq<Draft>, id: int): (r: Option<nat>)
    ensures r.Some? ==> r.value < |drafts| && drafts[r.value].id == id
    ensures r.None? ==> forall i :: 0 <= i < |drafts| ==> drafts[i].id != id
  {
    if drafts == [] then None
    else if drafts[0].id == id then Some(0)
    else
      var r := FindDraft(drafts[1..], id);
      if r.None? then None else Some(r.value + 1)
  }

  predicate HasPending(drafts: seq<Draft>) {
    exists i :: 0 <= i < |drafts| && drafts[i].status == Pending
  }

  predicate Terminal(s: JobStatus) {
    s == Completed || s == Failed || s == Canceled
  }

  // ----- review operations on one job -----

  /** `generation_job_finalize_if_review_complete`; `copied` tells whether the status string could be
      duplicated. */
  function Finalize(job: Job, copied: bool): (Job, seq<Entry>) {
    if Terminal(job.status) || HasPending(job.drafts) || !copied then (job, [])
    else (job.(status := Completed), [JobCompleted(job.id)])
  }

  /** A pending draft becomes `status`. */
  function Reviewed(job: Job, k: nat, status: DraftStatus, card: int): Job
    requires k < |job.drafts|
  {
    job.(drafts := job.drafts[k := job.drafts[k].(status := status, savedCard := card)],
         reviewedDrafts := job.reviewedDrafts + 1)
  }

  datatype Outcome = Outcome(job: Job, log: seq<Entry>, code: Code)

  /** `generation_job_service_approve` on a job and one of its drafts. `saved` is the answer of the card
      store, `copied` and `finalCopied` those of the allocator. */
  function ApproveDraft(job: Job, k: nat, saved: Option<int>, copied: bool, finalCopied: bool): Outcome
    requires k < |job.drafts|
  {
    if job.user <= 0 then Outcome(job, [], Unauthorized)
    else if job.status == Canceled || job.status == Failed then Outcome(job, [], Conflict)
    else if job.drafts[k].status != Pending then Outcome(job, [], Conflict)
    else if saved.None? then Outcome(job, [], ServerError)
    else if !copied then Outcome(job, [CardStored(job.id), StoreLost(job.id)], ServerError)
    else
      var (final, more) := Finalize(Reviewed(job, k, Approved, saved.value), finalCopied);
      Outcome(final, [CardStored(job.id), CardSaved(job.id, job.drafts[k].id)] + more, Ok)
  }

  /** `generation_job_service_reject`. */
  function RejectDraft(job: Job, k: nat, copied: bool, finalCopied: bool): Outcome
    requires k < |job.drafts|
  {
    if job.drafts[k].status != Pending then Outcome(job, [], Conflict)
    else if !copied then Outcome(job, [], ServerError)
    else
      var (final, more) := Finalize(Reviewed(job, k, Rejected, job.drafts[k].savedCard), finalCopied);
      Outcome(final, more, Ok)
  }

  /** `generation_job_service_regenerate`; `card` is the answer of the language model. */
  function RegenerateDraft(job: Job, k: nat, card: Option<Card>, copied: bool): Outcome
    requires k < |job.drafts|
  {
    var draft := job.drafts[k];
    if job.status == Canceled || job.status == Failed then Outcome(job, [], Conflict)
    else if card.None? then Outcome(job, [], Upstream)
    else if !copied then Outcome(job, [], ServerError)
    else
      var reviewed := if draft.status != Pending && job.reviewedDrafts > 0 then job.reviewedDrafts - 1
                      else job.reviewedDrafts;
      Outcome(
        job.(drafts := job.drafts[k := draft.(status := Pending, card := card.value, savedCard := 0)],
             reviewedDrafts := reviewed),
        [CardUpdated(job.id, draft.id, draft.status, job.status)], Ok)
  }

  /** `generation_job_service_cancel`. */
  function CancelJob(job: Job, copied: bool): Outcome {
    if Terminal(job.status) then Outcome(job, [], Conflict)
    else if !copied then Outcome(job, [], ServerError)
    else Outcome(job.(status := Canceled), [JobProgress(job.id, 100)], Ok)
  }

  // ----- the pipeline -----

  // the table `common_words`, line by line
  const COMMON_0: seq<string> := ["the", "a", "an", "and", "or", "but", "to", "of", "in", "on"]
  const COMMON_1: seq<string> := ["at", "for", "with", "from", "by", "is", "am", "are", "was"]
  const COMMON_2: seq<string> := ["were", "be", "been", "being", "it", "this", "that", "these"]
  const COMMON_3: seq<string> := ["those", "i", "you", "he", "she", "we", "they", "my", "your"]
  const COMMON_4: seq<string> := ["his", "her", "our", "their", "me", "him", "them", "as", "if"]
  const COMMON_5: seq<string> := ["than", "then", "so", "do", "does", "did", "have", "has", "had"]
  const COMMON_WORDS: seq<string> := COMMON_0 + COMMON_1 + COMMON_2 + COMMON_3 + COMMON_4 + COMMON_5

  function AsString(w: bytes): string {
    seq(|w|, i requires 0 <= i < |w| => w[i] as char)
  }

  predicate Common(w: bytes) {
    |w| <= 2 || AsString(w) in COMMON_WORDS
  }

  function Uncommon(ws: seq<bytes>): seq<bytes> {
    if ws == [] then []
    else (if Common(ws[0]) then [] else [ws[0]]) + Uncommon(ws[1..])
  }

  /** The words of `ws` the user has no card for yet. */
  function Unknown(ws: seq<bytes>, known: bytes -> bool): seq<bytes> {
    if ws == [] then []
    else (if known(ws[0]) then [] else [ws[0]]) + Unknown(ws[1..], known)
  }

  /** The words that go to the language model; without a user nothing is known to exist. */
  function Candidates(ws: seq<bytes>, user: int, known: bytes -> bool): seq<bytes> {
    if user > 0 then Unknown(Uncommon(ws), known) else Uncommon(ws)
  }

  /** The allocator's answers during `generation_job_service_create`. */
  datatype Memory = Memory(
    job: bool, tokenizing: bool, filtering: bool, candidates: bool, checking: bool, generating: bool,
    draftBlock: nat -> bool, draftFields: nat -> bool, failed: bool, error: bool, final: bool)

  /** No allocation fails. */
  ghost predicate Plenty(mem: Memory) {
    mem.job && mem.tokenizing && mem.filtering && mem.candidates && mem.checking && mem.generating
    && mem.failed && mem.error && mem.final
    && forall i: nat :: mem.draftBlock(i) && mem.draftFields(i)
  }

  /** Everything `create` learns from outside. Words are distinct, so functions of the word suffice. */
  datatype World = World(known: bytes -> bool, generate: bytes -> Option<Card>, mem: Memory)

  /** `generation_job_append_draft` when memory suffices. */
  function Appended(job: Job, draftId: int, card: Card): Job {
    var drafts := job.drafts + [Draft(job.id, draftId, job.user, 0, Pending, card)];
    job.(drafts := drafts, generatedDrafts := |drafts|)
  }

  datatype Generation = Generation(job: Job, nextDraft: int, log: seq<Entry>, code: Code)

  /** The generation loop from candidate `i` on. */
  function Generate(job: Job, nextDraft: int, candidates: seq<bytes>, i: nat, w: World): Generation
    requires i <= |candidates|
    decreases |candidates| - i
  {
    if i == |candidates| then Generation(job, nextDraft, [], Ok)
    else if w.generate(candidates[i]).None? then
      var failed := if w.mem.failed then job.(status := Failed) else job;
      var noted := if w.mem.error then failed.(error := Some(LlmGenerationFailed)) else failed;
      Generation(noted, nextDraft, [JobFailed(job.id)], Upstream)
    else if !w.mem.draftBlock(i) then Generation(job, nextDraft, [], ServerError)
    else if !w.mem.draftFields(i) then Generation(job, nextDraft + 1, [], ServerError)
    else
      var next := Appended(job, nextDraft, w.generate(candidates[i]).value);
      var rest := Generate(next, nextDraft + 1, candidates, i + 1, w);
      rest.(log := [CardDraft(job.id, nextDraft), JobProgress(job.id, 60 + (i + 1) * 35 / |candidates|)]
                   + rest.log)
  }

  /** The end of `generation_job_run_pipeline`. */
  function FinishPipeline(g: Generation, mem: Memory): Generation {
    if g.code != Ok then g
    else if !mem.final then g.(code := ServerError)
    else if g.job.drafts == [] then
      g.(job := g.job.(status := Completed), log := g.log + [JobCompleted(g.job.id)])
    else
      g.(job := g.job.(status := ReviewReady), log := g.log + [JobProgress(g.job.id, 100)])
  }

  /** `generation_job_run_pipeline` from the database check on, with the words already counted. */
  function CheckAndGenerate(job: Job, nextDraft: int, uncommon: seq<bytes>, log: seq<Entry>, w: World): Generation {
    if !w.mem.checking then Generation(job, nextDraft, log, ServerError)
    else
      var candidates := if job.user > 0 then Unknown(uncommon, w.known) else uncommon;
      var checked := job.(status := CheckingDatabase,
                          existingWords := job.existingWords + |uncommon| - |candidates|);
      var log1 := log + [JobProgress(job.id, 40)];
      if !w.mem.generating then Generation(checked, nextDraft, log1, ServerError)
      else
        var g := Generate(checked.(status := Generating), nextDraft, candidates, 0, w);
        FinishPipeline(g.(log := (log1 + [JobProgress(job.id, 60)]) + g.log), w.mem)
  }

  /** `generation_job_run_pipeline`, with the log so far. */
  function Pipeline(job: Job, nextDraft: int, log: seq<Entry>, w: World): Generation {
    if !w.mem.tokenizing then Generation(job, nextDraft, log, ServerError)
    else
      var words := Tokenizer.Words(job.text);
      var counted := job.(status := Tokenizing, totalWords := |words|);
      var log1 := log + [JobProgress(job.id, 10)];
      if !w.mem.filtering then Generation(counted, nextDraft, log1, ServerError)
      else
        var filtering := counted.(status := FilteringCommonWords);
        var log2 := log1 + [JobProgress(job.id, 25)];
        if |words| > 0 && !w.mem.candidates then Generation(filtering, nextDraft, log2, ServerError)
        else
          var uncommon := Uncommon(words);
          var filtered := filtering.(filteredWords := job.filteredWords + |words| - |uncommon|);
          CheckAndGenerate(filtered, nextDraft, uncommon, log2, w)
  }

  // ----- the service -----

  datatype Operation =
    | Create(text: bytes, user: int, world: World)
    | Approve(job: int, draft: int, saved: Option<int>, copied: bool, finalCopied: bool)
    | Reject(job: int, draft: int, copied: bool, finalCopied: bool)
    | Regenerate(job: int, draft: int, card: Option<Card>, copied: bool)
    | Cancel(job: int, copied: bool)

  function NewJob(id: int, user: int, text: bytes): Job {
    Job(id, user, Queued, text, None, 0, 0, 0, 0, 0, [])
  }

  datatype Result = Result(service: Service, code: Code)

  /** `generation_job_service_create`. */
  function CreateJob(s: Service, text: bytes, user: int, w: World): Result {
    if text == [] then Result(s, InvalidArgument)
    else if |s.jobs| >= MAX_JOBS then Result(s, ServerError)
    else if !w.mem.job then Result(s.(nextJob := s.nextJob + 1), ServerError)
    else
      var g := Pipeline(NewJob(s.nextJob, user, text), s.nextDraft, s.log + [JobCreated(s.nextJob)], w);
      Result(Service(s.jobs + [g.job], s.nextJob + 1, g.nextDraft, g.log), g.code)
  }

  /** Puts the outcome for job `i` back into the table. */
  function Stored(s: Service, i: nat, o: Outcome): Result
    requires i < |s.jobs|
  {
    Result(s.(jobs := s.jobs[i := o.job], log := s.log + o.log), o.code)
  }

  predicate Reviewing(op: Operation) {
    op.Approve? || op.Reject? || op.Regenerate?
  }

  /** What a review operation does to its job and draft. */
  function Review(job: Job, k: nat, op: Operation): Outcome
    requires k < |job.drafts| && Reviewing(op)
  {
    match op
    case Approve(_, _, saved, copied, final) => ApproveDraft(job, k, saved, copied, final)
    case Reject(_, _, copied, final) => RejectDraft(job, k, copied, final)
    case Regenerate(_, _, card, copied) => RegenerateDraft(job, k, card, copied)
  }

  /** One call of the service. */
  function Step(s: Service, op: Operation): Result {
    match op
    case Create(text, user, world) => CreateJob(s, text, user, world)
    case Cancel(job, copied) =>
      var i := FindJob(s.jobs, job);
      if i.None? then Result(s, NotFound) else Stored(s, i.value, CancelJob(s.jobs[i.value], copied))
    case _ =>
      var i := FindJob(s.jobs, op.job);
      if i.None? then Result(s, NotFound)
      else
        var k := FindDraft(s.jobs[i.value].drafts, op.draft);
        if k.None? then Result(s, NotFound)
        else Stored(s, i.value, Review(s.jobs[i.value], k.value, op))
  }

  function Run(s: Service, ops: seq<Operation>): Service
    decreases |ops|
  {
    if ops == [] then s else Run(Step(s, ops[0]).service, ops[1..])
  }
}

/** What creating a job does, told from the text, the answers of the outside and the tables before and after
    the call. */
module CreateLaws {
  import opened Bytes
  import opened JobModel
  import opened PipelineMeaning
  import Tokenizer

  // ----- counting words -----

  lemma {:induction false} DistinctSize(ws: seq<bytes>)
    requires Tokenizer.NoRepeats(ws)
    ensures |set w | w in ws| == |ws|
  {
    if ws == [] {
    } else {
      var rest := ws[1..];
      RestDistinct(ws);
      DistinctSize(rest);
      assert ws == [ws[0]] + rest;
      assert (set w | w in ws) == {ws[0]} + set w | w in rest;
    }
  }

  /** The words of a list that satisfy a condition. */
  function Satisfying(ws: seq<bytes>, p: bytes -> bool): set<bytes> {
    set w | w in ws && p(w)
  }

  /** A selection has as many words as satisfy its condition. */
  lemma SelectionSize(c: seq<bytes>, ws: seq<bytes>, keep: bytes -> bool)
    requires Selects(c, ws, keep)
    ensures |c| == |Satisfying(ws, keep)|
  {
    DistinctSize(c);
    assert (set w | w in c) == Satisfying(ws, keep);
  }

  /** The first word of `a` comes before every word of it. */
  lemma Earliest(a: seq<bytes>, ws: seq<bytes>, w: bytes)
    requires Tokenizer.InOrder(a, ws) && w in a
    ensures w == a[0] || Tokenizer.First(ws, a[0]) < Tokenizer.First(ws, w)
  {
  }

  lemma RestOrdered(a: seq<bytes>, ws: seq<bytes>)
    requires a != [] && Tokenizer.InOrder(a, ws)
    ensures Tokenizer.InOrder(a[1..], ws) && forall w :: w in a[1..] <==> w in a && w != a[0]
  {
    assert a == [a[0]] + a[1..];
    forall i | 0 < i < |a|
      ensures a[i] != a[0]
    {
      assert Tokenizer.First(ws, a[0]) < Tokenizer.First(ws, a[i]);
    }
  }

  lemma FirstWord(b: seq<bytes>)
    ensures b == [] || b[0] in b
  {
  }

  /** The same words in the same order. */
  lemma {:induction false} SameOrder(a: seq<bytes>, b: seq<bytes>, ws: seq<bytes>)
    requires Tokenizer.InOrder(a, ws) && Tokenizer.InOrder(b, ws) && forall w :: w in a <==> w in b
    ensures a == b
  {
    hide Tokenizer.InOrder;
    if a == [] {
      FirstWord(b);
    } else {
      assert a[0] in b;
      Earliest(a, ws, b[0]);
      Earliest(b, ws, a[0]);
      RestOrdered(a, ws);
      RestOrdered(b, ws);
      SameOrder(a[1..], b[1..], ws);
      assert a == [a[0]] + a[1..] && b == [b[0]] + b[1..];
    }
  }

  /** Selecting leaves no choice. */
  lemma SelectionUnique(a: seq<bytes>, b: seq<bytes>, ws: seq<bytes>, keep: bytes -> bool)
    requires Selects(a, ws, keep) && Selects(b, ws, keep)
    ensures a == b
  {
    SameOrder(a, b, ws);
  }

  // ----- the generation loop -----

  /** Candidate `i` becomes a draft. */
  predicate Makes(w: World, c: seq<bytes>, i: nat)
    requires i < |c|
  {
    w.generate(c[i]).Some? && w.mem.draftBlock(i) && w.mem.draftFields(i)
  }

  /** Behind the drafts `old` stands one draft for each of the `n` candidates from `i` on, with what the
      model made of it. */
  ghost predicate DraftsOf(
      drafts: seq<Draft>, before: seq<Draft>, job: Job, nextDraft: int, c: seq<bytes>, i: nat, n: nat, w: World)
    requires i + n <= |c|
  {
    && |drafts| == |before| + n && before <= drafts
    && forall j :: i <= j < i + n ==>
         && w.generate(c[j]).Some?
         && drafts[|before| + j - i] ==
            Draft(job.id, nextDraft + j - i, job.user, 0, Pending, w.generate(c[j]).value)
  }

  /** Every draft is announced, and after it how far the `total` candidates are done: from 60 to 95. */
  ghost predicate StepsOf(steps: seq<Entry>, id: int, nextDraft: int, total: nat, i: nat, n: nat)
    requires i + n <= total
  {
    && |steps| == 2 * n
    && forall k :: 0 <= k < n ==>
         && steps[2 * k] == CardDraft(id, nextDraft + k)
         && steps[2 * k + 1] == JobProgress(id, 60 + (i + k + 1) * 35 / total)
  }

  lemma DraftsFurther(
      drafts: seq<Draft>, job: Job, next: Job, nextDraft: int, c: seq<bytes>, i: nat, n: nat, w: World)
    requires i + 1 + n <= |c| && w.generate(c[i]).Some?
    requires next == Appended(job, nextDraft, w.generate(c[i]).value)
    requires DraftsOf(drafts, next.drafts, next, nextDraft + 1, c, i + 1, n, w)
    ensures DraftsOf(drafts, job.drafts, job, nextDraft, c, i, n + 1, w)
  {
    var first := Draft(job.id, nextDraft, job.user, 0, Pending, w.generate(c[i]).value);
    assert next.drafts == job.drafts + [first];
    assert drafts[|job.drafts|] == next.drafts[|job.drafts|] == first;
  }

  lemma StepsFurther(first: seq<Entry>, more: seq<Entry>, id: int, nextDraft: int, total: nat, i: nat, n: nat)
    requires i + 1 + n <= total
    requires first == [CardDraft(id, nextDraft), JobProgress(id, 60 + (i + 1) * 35 / total)]
    requires StepsOf(more, id, nextDraft + 1, total, i + 1, n)
    ensures StepsOf(first + more, id, nextDraft, total, i, n + 1)
  {
    var steps := first + more;
    forall k | 0 <= k < n + 1
      ensures steps[2 * k] == CardDraft(id, nextDraft + k)
      ensures steps[2 * k + 1] == JobProgress(id, 60 + (i + k + 1) * 35 / total)
    {
      if k > 0 {
        assert steps[2 * k] == more[2 * (k - 1)] && steps[2 * k + 1] == more[2 * (k - 1) + 1];
        assert i + 1 + (k - 1) + 1 == i + k + 1;
      }
    }
  }

  /** From candidate `i` on, the loop makes drafts of `n` candidates, up to the first one it cannot make one
      of, and says why it stopped. A draft whose fields could not be allocated has used up its number. */
  lemma {:induction false} LoopLaw(job: Job, nextDraft: int, c: seq<bytes>, i: nat, w: World)
    returns (n: nat, steps: seq<Entry>)
    requires i <= |c|
    ensures i + n <= |c| && (forall k :: i <= k < i + n ==> Makes(w, c, k)) && (i + n < |c| ==> !Makes(w, c, i + n))
    ensures var g, stop := Generate(job, nextDraft, c, i, w), i + n;
            && g.code == (if stop == |c| then Ok else if w.generate(c[stop]).None? then Upstream else ServerError)
            && g.nextDraft == nextDraft + n + (if g.code == ServerError && w.mem.draftBlock(stop) then 1 else 0)
            && StepsOf(steps, job.id, nextDraft, |c|, i, n)
            && g.log == steps + (if g.code == Upstream then [JobFailed(job.id)] else [])
            && DraftsOf(g.job.drafts, job.drafts, job, nextDraft, c, i, n, w)
            && g.job ==
               Job(job.id, job.user, if g.code == Upstream && w.mem.failed then Failed else job.status, job.text,
                 if g.code == Upstream && w.mem.error then Some(LlmGenerationFailed) else job.error,
                 job.totalWords, job.filteredWords, job.existingWords,
                 if n == 0 then job.generatedDrafts else |job.drafts| + n, job.reviewedDrafts, g.job.drafts)
    decreases |c| - i
  {
    hide DraftsOf, StepsOf;
    if i < |c| && Makes(w, c, i) {
      var next := Appended(job, nextDraft, w.generate(c[i]).value);
      var first := [CardDraft(job.id, nextDraft), JobProgress(job.id, 60 + (i + 1) * 35 / |c|)];
      var m, more := LoopLaw(next, nextDraft + 1, c, i + 1, w);
      var g := Generate(next, nextDraft + 1, c, i + 1, w);
      DraftsFurther(g.job.drafts, job, next, nextDraft, c, i, m, w);
      StepsFurther(first, more, job.id, nextDraft, |c|, i, m);
      n, steps := m + 1, first + more;
    } else {
      n, steps := 0, [];
      NothingMade(job, nextDraft, c, i, w);
    }
  }

  lemma NothingMade(job: Job, nextDraft: int, c: seq<bytes>, i: nat, w: World)
    requires i <= |c|
    ensures DraftsOf(job.drafts, job.drafts, job, nextDraft, c, i, 0, w)
    ensures StepsOf([], job.id, nextDraft, |c|, i, 0)
  {
  }

  // ----- the counters -----

  /** The words of a text that are common. */
  ghost function CommonWords(text: bytes): set<bytes> {
    Satisfying(Tokenizer.Words(text), w => Common(w))
  }

  /** The other words of it that the user has cards for; nobody's words are known. */
  ghost function KnownWords(text: bytes, user: int, known: bytes -> bool): set<bytes> {
    Satisfying(Tokenizer.Words(text), w => !Common(w) && user > 0 && known(w))
  }

  /** The words for the model, in the order of the text. */
  ghost predicate NewWords(c: seq<bytes>, text: bytes, user: int, known: bytes -> bool) {
    Selects(c, Tokenizer.Words(text), w => !Common(w) && (user > 0 ==> !known(w)))
  }

  lemma SplitSize(ws: seq<bytes>, whole: bytes -> bool, part: bytes -> bool, rest: bytes -> bool)
    requires forall w :: (whole(w) <==> part(w) || rest(w)) && !(part(w) && rest(w))
    ensures |Satisfying(ws, whole)| == |Satisfying(ws, part)| + |Satisfying(ws, rest)|
  {
    assert Satisfying(ws, whole) == Satisfying(ws, part) + Satisfying(ws, rest);
    assert Satisfying(ws, part) !! Satisfying(ws, rest);
  }

  /** The filters find exactly the new words, and what they drop are the common and the known words. */
  lemma FiltersCount(c: seq<bytes>, text: bytes, user: int, known: bytes -> bool)
    requires NewWords(c, text, user, known)
    ensures var words := Tokenizer.Words(text);
            && c == Candidates(words, user, known)
            && |words| - |Uncommon(words)| == |CommonWords(text)|
            && |Uncommon(words)| - |c| == |KnownWords(text, user, known)|
  {
    hide Tokenizer.Words, Common, Uncommon, Unknown, Selects, Candidates;
    var words := Tokenizer.Words(text);
    var keep := w => !Common(w) && (user > 0 ==> !known(w));
    Tokenizer.WordsMeaning(text);
    CandidatesMeaning(text, user, known);
    SelectionUnique(c, Candidates(words, user, known), words, keep);
    var common, rare, all := w => Common(w), w => !Common(w), w => true;
    UncommonSize(words, known);
    SelectionSize(c, words, keep);
    DistinctSize(words);
    SplitSize(words, all, common, rare);
    assert Satisfying(words, all) == set w | w in words;
    SplitSize(words, rare, keep, w => !Common(w) && user > 0 && known(w));
  }

  lemma UncommonSize(words: seq<bytes>, known: bytes -> bool)
    requires Tokenizer.NoRepeats(words)
    ensures |Uncommon(words)| == |Satisfying(words, w => !Common(w))|
  {
    hide Common, Uncommon, Selects;
    var rare := w => !Common(w);
    FiltersSelect(words, known, rare, w => !Common(w) && !known(w));
    SelectSelects(words, rare);
    SelectionSize(Uncommon(words), words, rare);
  }

  // ----- the call -----

  /** Nothing is created for no text, in a full table or without memory; only in the last case is a job
      number used up. */
  lemma CreateRefused(s: Service, op: Operation)
    requires op.Create? && (op.text == [] || |s.jobs| >= 128 || !op.world.mem.job)
    ensures Step(s, op) ==
            if op.text == [] then Result(s, InvalidArgument)
            else if |s.jobs| >= 128 then Result(s, ServerError)
            else Result(Service(s.jobs, s.nextJob + 1, s.nextDraft, s.log), ServerError)
  {
  }

  /** How many of the five steps before the loop had the memory they need: tokenizing, filtering, making the
      list of candidates, looking them up, and generating. */
  function StepsDone(mem: Memory, someWords: bool): (n: nat)
    ensures n <= 5
  {
    if !mem.tokenizing then 0
    else if !mem.filtering then 1
    else if someWords && !mem.candidates then 2
    else if !mem.checking then 3
    else if !mem.generating then 4
    else 5
  }

  const STATUS_AFTER: seq<JobStatus> :=
    [Queued, Tokenizing, FilteringCommonWords, FilteringCommonWords, CheckingDatabase, Generating]
  const PROGRESS_AFTER: seq<seq<int>> := [[], [10], [10, 25], [10, 25], [10, 25, 40], [10, 25, 40, 60]]

  /** What has been announced after `done` steps. */
  function Opening(id: int, done: nat): seq<Entry>
    requires done <= 5
  {
    var values := PROGRESS_AFTER[done];
    [JobCreated(id)] + seq(|values|, i requires 0 <= i < |values| => JobProgress(id, values[i]))
  }

  /** A new job after `done` steps, `n` drafts and the answer `code`. */
  ghost predicate CreatedAs(
      job: Job, id: int, op: Operation, done: nat, c: seq<bytes>, n: nat, nextDraft: int, code: Code)
    requires op.Create? && done <= 5 && n <= |c|
  {
    && job.id == id && job.user == op.user && job.text == op.text && job.reviewedDrafts == 0
    && job.totalWords == (if done >= 1 then |Tokenizer.Words(op.text)| else 0)
    && job.filteredWords == (if done >= 3 then |CommonWords(op.text)| else 0)
    && job.existingWords == (if done >= 4 then |KnownWords(op.text, op.user, op.world.known)| else 0)
    && job.generatedDrafts == n && DraftsOf(job.drafts, [], job, nextDraft, c, 0, n, op.world)
    && job.status == (if code == Ok then if c == [] then Completed else ReviewReady
                      else if code == Upstream && op.world.mem.failed then Failed
                      else STATUS_AFTER[done])
    && job.error == (if code == Upstream && op.world.mem.error then Some(LlmGenerationFailed) else None)
  }

  /** The last announcement. */
  function Ending(id: int, code: Code, someDrafts: bool): seq<Entry> {
    match code
    case Ok => if someDrafts then [JobProgress(id, 100)] else [JobCompleted(id)]
    case Upstream => [JobFailed(id)]
    case _ => []
  }

  /** Memory failed before the loop. */
  lemma CreateStops(s: Service, op: Operation, c: seq<bytes>)
    requires op.Create? && op.text != [] && |s.jobs| < 128 && op.world.mem.job
    requires NewWords(c, op.text, op.user, op.world.known)
    requires StepsDone(op.world.mem, Tokenizer.Words(op.text) != []) < 5
    ensures var r, done := Step(s, op), StepsDone(op.world.mem, Tokenizer.Words(op.text) != []);
            && r.code == ServerError
            && |r.service.jobs| == |s.jobs| + 1 && s.jobs <= r.service.jobs
            && r.service.nextJob == s.nextJob + 1 && r.service.nextDraft == s.nextDraft
            && r.service.log == s.log + Opening(s.nextJob, done)
            && CreatedAs(r.service.jobs[|s.jobs|], s.nextJob, op, done, c, 0, s.nextDraft, r.code)
  {
    hide Tokenizer.Words, Generate, Uncommon, Unknown, NewWords, CommonWords, KnownWords;
    FiltersCount(c, op.text, op.user, op.world.known);
  }

  /** Memory lasted to the loop, which tries the new words in order up to the first one it can make no draft
      of. The call succeeds exactly if there is none and the last status can be stored. */
  lemma CreateLaw(s: Service, op: Operation, c: seq<bytes>) returns (n: nat, steps: seq<Entry>)
    requires op.Create? && op.text != [] && |s.jobs| < 128 && op.world.mem.job
    requires NewWords(c, op.text, op.user, op.world.known)
    requires StepsDone(op.world.mem, Tokenizer.Words(op.text) != []) == 5
    ensures n <= |c| && (forall i :: 0 <= i < n ==> Makes(op.world, c, i)) && (n < |c| ==> !Makes(op.world, c, n))
    ensures var r, id, w := Step(s, op), s.nextJob, op.world;
            && r.code == (if n == |c| then if w.mem.final then Ok else ServerError
                          else if w.generate(c[n]).None? then Upstream
                          else ServerError)
            && |r.service.jobs| == |s.jobs| + 1 && s.jobs <= r.service.jobs
            && r.service.nextJob == id + 1
            && r.service.nextDraft ==
               s.nextDraft + n + (if n < |c| && w.generate(c[n]).Some? && w.mem.draftBlock(n) then 1 else 0)
            && StepsOf(steps, id, s.nextDraft, |c|, 0, n)
            && r.service.log == s.log + Opening(id, 5) + steps + Ending(id, r.code, n > 0)
            && CreatedAs(r.service.jobs[|s.jobs|], id, op, 5, c, n, s.nextDraft, r.code)
  {
    hide Tokenizer.Words, Generate, Uncommon, Unknown, NewWords, CommonWords, KnownWords, Makes, StepsOf, DraftsOf;
    FiltersCount(c, op.text, op.user, op.world.known);
    var words := Tokenizer.Words(op.text);
    var w, log := op.world, s.log + [JobCreated(s.nextJob)];
    var start := Job(
      s.nextJob, op.user, Generating, op.text, None, |words|, |CommonWords(op.text)|,
      |KnownWords(op.text, op.user, w.known)|, 0, 0, []);
    n, steps := LoopLaw(start, s.nextDraft, c, 0, w);
    var g := Generate(start, s.nextDraft, c, 0, w);
    ReachesLoop(s, op, c, start);
    SameOwner(g.job.drafts, start, Step(s, op).service.jobs[|s.jobs|], s.nextDraft, c, n, w);
    var opening := Opening(s.nextJob, 5);
    var more := if g.code == Upstream then [JobFailed(s.nextJob)] else [];
    assert s.log + opening + g.log == s.log + opening + steps + more;
  }

  /** The steps before the loop and the one after it. */
  lemma ReachesLoop(s: Service, op: Operation, c: seq<bytes>, start: Job)
    requires op.Create? && op.text != [] && |s.jobs| < 128 && op.world.mem.job
    requires NewWords(c, op.text, op.user, op.world.known)
    requires StepsDone(op.world.mem, Tokenizer.Words(op.text) != []) == 5
    requires start == Job(
      s.nextJob, op.user, Generating, op.text, None, |Tokenizer.Words(op.text)|, |CommonWords(op.text)|,
      |KnownWords(op.text, op.user, op.world.known)|, 0, 0, [])
    ensures var g := Generate(start, s.nextDraft, c, 0, op.world);
            var f := FinishPipeline(g.(log := s.log + Opening(s.nextJob, 5) + g.log), op.world.mem);
            Step(s, op) == Result(Service(s.jobs + [f.job], s.nextJob + 1, f.nextDraft, f.log), f.code)
  {
    hide Tokenizer.Words, Generate, Uncommon, Unknown, NewWords, CommonWords, KnownWords, FinishPipeline;
    FiltersCount(c, op.text, op.user, op.world.known);
    var g := Generate(start, s.nextDraft, c, 0, op.world);
    var id := s.nextJob;
    var opening := [JobCreated(id), JobProgress(id, 10), JobProgress(id, 25), JobProgress(id, 40), JobProgress(id, 60)];
    assert Opening(id, 5) == opening;
    assert s.log + opening ==
      (((s.log + [opening[0]]) + [opening[1]]) + [opening[2]]) + [opening[3]] + [opening[4]];
  }

  lemma SameOwner(drafts: seq<Draft>, a: Job, b: Job, nextDraft: int, c: seq<bytes>, n: nat, w: World)
    requires n <= |c| && a.id == b.id && a.user == b.user && DraftsOf(drafts, [], a, nextDraft, c, 0, n, w)
    ensures DraftsOf(drafts, [], b, nextDraft, c, 0, n, w) && |drafts| == n
  {
  }
}

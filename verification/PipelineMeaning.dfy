/** Which words a pipeline run sends to the model, and how its progress climbs. */
module PipelineMeaning {
  import opened Bytes
  import opened JobModel
  import Tokenizer

  // ----- the candidates -----

  /** Common are all words of at most two letters, and none beyond five. */
  lemma CommonLengths(w: bytes)
    ensures |w| <= 2 ==> Common(w)
    ensures |w| > 5 ==> !Common(w)
  {
  }

  lemma CommonExamples()
    ensures Common(Ascii("the")) && Common(Ascii("with")) && Common(Ascii("those")) && Common(Ascii("had"))
  {
    assert AsString(Ascii("the")) == "the" == COMMON_0[0] && AsString(Ascii("with")) == "with" == COMMON_1[2];
    assert AsString(Ascii("those")) == "those" == COMMON_3[0] && AsString(Ascii("had")) == "had" == COMMON_5[8];
  }

  /** `c` keeps exactly the words of `ws` that satisfy `keep`, in order. */
  ghost predicate Selects(c: seq<bytes>, ws: seq<bytes>, keep: bytes -> bool) {
    && (forall w :: w in c <==> w in ws && keep(w))
    && Tokenizer.NoRepeats(c) && Tokenizer.InOrder(c, ws)
  }

  /** The filters, as one function. */
  function Select(ws: seq<bytes>, keep: bytes -> bool): seq<bytes> {
    if ws == [] then []
    else (if keep(ws[0]) then [ws[0]] else []) + Select(ws[1..], keep)
  }

  /** The order of words after `ws[0]`, seen from the front. */
  lemma RestInOrder(c: seq<bytes>, ws: seq<bytes>)
    requires ws != [] && Tokenizer.InOrder(c, ws[1..]) && ws[0] !in c
    ensures Tokenizer.InOrder(c, ws)
  {
  }

  lemma FrontInOrder(c: seq<bytes>, ws: seq<bytes>)
    requires ws != [] && Tokenizer.InOrder(c, ws) && ws[0] !in c
    ensures Tokenizer.InOrder([ws[0]] + c, ws)
  {
  }

  lemma RestDistinct(ws: seq<bytes>)
    requires ws != [] && Tokenizer.NoRepeats(ws)
    ensures Tokenizer.NoRepeats(ws[1..]) && ws[0] !in ws[1..]
  {
  }

  lemma FrontDistinct(c: seq<bytes>, w: bytes)
    requires Tokenizer.NoRepeats(c) && w !in c
    ensures Tokenizer.NoRepeats([w] + c)
  {
  }

  lemma {:induction false} SelectSelects(ws: seq<bytes>, keep: bytes -> bool)
    requires Tokenizer.NoRepeats(ws)
    ensures Selects(Select(ws, keep), ws, keep)
  {
    hide Tokenizer.InOrder, Tokenizer.NoRepeats;
    if ws != [] {
      var w, rest, c := ws[0], ws[1..], Select(ws[1..], keep);
      RestDistinct(ws);
      SelectSelects(rest, keep);
      RestInOrder(c, ws);
      FrontInOrder(c, ws);
      FrontDistinct(c, w);
      assert ws == [w] + rest;
      assert Select(ws, keep) == if keep(w) then [w] + c else c;
      forall x
        ensures x in Select(ws, keep) <==> x in ws && keep(x)
      {
        assert x in Select(ws, keep) <==> (keep(w) && x == w) || x in c;
        assert x in ws <==> x == w || x in rest;
      }
    } else {
      Tokenizer.EmptyInOrder();
    }
  }

  lemma {:induction false} FiltersSelect(
      ws: seq<bytes>, known: bytes -> bool, uncommon: bytes -> bool, novel: bytes -> bool)
    requires forall w :: uncommon(w) == !Common(w) && novel(w) == (uncommon(w) && !known(w))
    ensures Uncommon(ws) == Select(ws, uncommon)
    ensures Unknown(Uncommon(ws), known) == Select(ws, novel)
  {
    hide Common;
    if ws == [] {
    } else {
      FiltersSelect(ws[1..], known, uncommon, novel);
      if !Common(ws[0]) {
        assert Uncommon(ws)[1..] == Uncommon(ws[1..]);
      } else {
        assert Uncommon(ws) == Uncommon(ws[1..]);
      }
    }
  }

  /** The words sent to the model are exactly those of the text that are neither common nor known to
      exist for the user, once each, in the order of their first occurrence. */
  lemma CandidatesMeaning(text: bytes, user: int, known: bytes -> bool)
    ensures var words := Tokenizer.Words(text);
            Selects(Candidates(words, user, known), words, w => !Common(w) && (user > 0 ==> !known(w)))
  {
    hide Tokenizer.Words, Common, Selects;
    var words := Tokenizer.Words(text);
    Tokenizer.WordsMeaning(text);
    var keep := w => !Common(w) && (user > 0 ==> !known(w));
    var uncommon, novel := w => !Common(w), w => !Common(w) && !known(w);
    FiltersSelect(words, known, uncommon, novel);
    SelectSelects(words, keep);
    SelectSame(words, if user > 0 then novel else uncommon, keep);
  }

  lemma {:induction false} SelectSame(ws: seq<bytes>, a: bytes -> bool, b: bytes -> bool)
    requires forall w :: a(w) == b(w)
    ensures Select(ws, a) == Select(ws, b)
  {
    if ws == [] {
    } else {
      SelectSame(ws[1..], a, b);
    }
  }

  // ----- progress -----

  /** The progress values in a log never fall and stay between two bounds. */
  predicate Climbs(log: seq<Entry>, low: int, high: int) {
    && (forall a :: 0 <= a < |log| && log[a].JobProgress? ==> low <= log[a].progress <= high)
    && forall a, b :: 0 <= a < b < |log| && log[a].JobProgress? && log[b].JobProgress? ==>
         log[a].progress <= log[b].progress
  }

  lemma ClimbsFurther(a: seq<Entry>, b: seq<Entry>, low: int, middle: int, high: int)
    requires Climbs(a, low, middle) && Climbs(b, middle, high) && low <= middle <= high
    ensures Climbs(a + b, low, high)
  {
  }

  lemma ProductGrows(a: nat, b: nat, n: nat)
    requires a <= b
    ensures a * n <= b * n
  {
  }

  lemma DivisionGrows(a: nat, b: nat, n: nat)
    requires a <= b && n > 0
    ensures a / n <= b / n
  {
    if b / n < a / n {
      ProductGrows(b / n + 1, a / n, n);
    }
  }

  lemma WholeQuotient(n: nat, q: nat)
    requires n > 0
    ensures q * n / n == q
  {
    if q * n / n < q {
      ProductGrows(q * n / n + 1, q, n);
    } else {
      ProductGrows(q, q * n / n, n);
      if q < q * n / n {
        ProductGrows(q + 1, q * n / n, n);
      }
    }
  }

  lemma LoopProgress(i: nat, n: nat)
    requires i < n
    ensures 60 <= 60 + i * 35 / n <= 60 + (i + 1) * 35 / n <= 95
  {
    var a, b, all: nat := i * 35, (i + 1) * 35, n * 35;
    DivisionGrows(a, b, n);
    DivisionGrows(b, all, n);
    WholeQuotient(n, 35);
    assert all == 35 * n;
  }

  lemma {:induction false} GenerateClimbs(job: Job, nextDraft: int, candidates: seq<bytes>, i: nat, w: World)
    requires i < |candidates|
    ensures Climbs(Generate(job, nextDraft, candidates, i, w).log, 60 + i * 35 / |candidates|, 95)
    decreases |candidates| - i
  {
    var n := |candidates|;
    LoopProgress(i, n);
    if w.generate(candidates[i]).Some? && w.mem.draftBlock(i) && w.mem.draftFields(i) {
      var next := Appended(job, nextDraft, w.generate(candidates[i]).value);
      var step := 60 + (i + 1) * 35 / n;
      var more := Generate(next, nextDraft + 1, candidates, i + 1, w).log;
      if i + 1 < n {
        GenerateClimbs(next, nextDraft + 1, candidates, i + 1, w);
      } else {
        assert Climbs(more, step, 95);
      }
      ClimbsFurther([CardDraft(job.id, nextDraft), JobProgress(job.id, step)], more, 60 + i * 35 / n, step, 95);
    }
  }

  ghost predicate ProgressSound(log: seq<Entry>, g: Generation) {
    && log <= g.log
    && Climbs(g.log[|log|..], 10, 100)
    && (g.code == Ok && g.job.drafts != [] ==>
          |g.log| > |log| && g.log[|g.log| - 1] == JobProgress(g.job.id, 100)
          && Climbs(g.log[|log|..|g.log| - 1], 10, 95))
    && (g.code != Ok || g.job.drafts == [] ==> Climbs(g.log[|log|..], 10, 95))
  }

  lemma FinishClimbs(log: seq<Entry>, middle: seq<Entry>, made: Generation, mem: Memory)
    requires Climbs(middle, 10, 95) && Climbs(middle, 10, 100)
    requires Climbs(middle + [JobCompleted(made.job.id)], 10, 95)
    requires Climbs(middle + [JobCompleted(made.job.id)], 10, 100)
    requires Climbs(middle + [JobProgress(made.job.id, 100)], 10, 100)
    ensures ProgressSound(log, FinishPipeline(made.(log := log + middle), mem))
  {
  }

  /** Progress never decreases while a job is created. It stays at most 95 until the drafts are ready for
      review, which is announced by a last 100. */
  lemma {:induction false} PipelineClimbs(job: Job, nextDraft: int, log: seq<Entry>, w: World)
    requires job.drafts == []
    ensures ProgressSound(log, Pipeline(job, nextDraft, log, w))
  {
    hide Generate, Tokenizer.Words, Uncommon, Unknown, Climbs;
    var g := Pipeline(job, nextDraft, log, w);
    var steps := [JobProgress(job.id, 10), JobProgress(job.id, 25), JobProgress(job.id, 40), JobProgress(job.id, 60)];
    StepsClimb(job.id);
    if w.mem.tokenizing && w.mem.filtering {
      var words := Tokenizer.Words(job.text);
      var uncommon := Uncommon(words);
      if (|words| == 0 || w.mem.candidates) && w.mem.checking && w.mem.generating {
        var candidates := if job.user > 0 then Unknown(uncommon, w.known) else uncommon;
        var start := job.(totalWords := |words|, filteredWords := job.filteredWords + |words| - |uncommon|,
                          existingWords := job.existingWords + |uncommon| - |candidates|, status := Generating);
        LoopLogClimbs(start, nextDraft, candidates, w);
        var made := Generate(start, nextDraft, candidates, 0, w);
        ClimbsFurther(steps, made.log, 10, 60, 95);
        EndClimbs(steps + made.log, made.job.id);
        assert (((((log + [steps[0]]) + [steps[1]]) + [steps[2]]) + [steps[3]]) + made.log)
               == log + (steps + made.log);
        FinishClimbs(log, steps + made.log, made, w.mem);
      } else {
        EarlyClimbs(log, g, job.id);
      }
    } else {
      EarlyClimbs(log, g, job.id);
    }
  }

  /** The loop's log, also when there are no candidates. */
  lemma LoopLogClimbs(job: Job, nextDraft: int, candidates: seq<bytes>, w: World)
    ensures Climbs(Generate(job, nextDraft, candidates, 0, w).log, 60, 95)
  {
    hide Climbs;
    if candidates == [] {
      NothingClimbs();
    } else {
      hide Generate;
      GenerateClimbs(job, nextDraft, candidates, 0, w);
    }
  }

  lemma NothingClimbs()
    ensures Climbs([], 60, 95)
  {
  }

  lemma StepsClimb(id: int)
    ensures Climbs([JobProgress(id, 10), JobProgress(id, 25), JobProgress(id, 40), JobProgress(id, 60)], 10, 60)
  {
  }

  lemma EndClimbs(log: seq<Entry>, id: int)
    requires Climbs(log, 10, 95)
    ensures Climbs(log, 10, 100)
    ensures Climbs(log + [JobCompleted(id)], 10, 95) && Climbs(log + [JobCompleted(id)], 10, 100)
    ensures Climbs(log + [JobProgress(id, 100)], 10, 100)
  {
  }

  /** Memory ran out before the loop: a prefix of the first three steps was announced. */
  lemma EarlyClimbs(log: seq<Entry>, g: Generation, id: int)
    requires g.code == ServerError
    requires var a, b, c := JobProgress(id, 10), JobProgress(id, 25), JobProgress(id, 40);
             g.log == log || g.log == log + [a] || g.log == (log + [a]) + [b] || g.log == ((log + [a]) + [b]) + [c]
    ensures log <= g.log && Climbs(g.log[|log|..], 10, 95) && Climbs(g.log[|log|..], 10, 100)
  {
  }
}

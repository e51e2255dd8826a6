/** A concrete run in which one job announces both a failure and a completion. */
module JobStranded {
  import opened Bytes
  import opened JobModel
  import opened JobSafety
  import Tokenizer

  // "zip" and "zoo"
  const ZIP: bytes := [0x7a, 0x69, 0x70]
  const ZOO: bytes := [0x7a, 0x6f, 0x6f]
  const TEXT: bytes := ZIP + [SPACE] + ZOO
  const CARD: Card := Card(ZIP, [], [], [], [])

  /** Everything succeeds except marking the job as failed. */
  const NO_MARK: Memory := Memory(true, true, true, true, true, true, _ => true, _ => true, false, true, true)

  /** The model answers for the first word only. */
  const HALF: World := World(_ => false, w => if w == ZIP then Some(CARD) else None, NO_MARK)

  lemma SpanIs(t: bytes, d: bool, n: nat)
    requires n <= |t| && (forall i :: 0 <= i < n ==> Tokenizer.Delimiter(t[i]) == d)
    requires n < |t| ==> Tokenizer.Delimiter(t[n]) != d
    ensures Tokenizer.Span(t, d) == n
  {
  }

  lemma LowerCaseStays(w: bytes)
    requires forall i :: 0 <= i < |w| ==> 0x61 <= w[i] <= 0x7a
    ensures Tokenizer.Normalize(w) == w
  {
  }

  lemma TwoTokens()
    ensures Tokenizer.Tokens(TEXT) == [ZIP, ZOO]
  {
    SpanIs(TEXT, true, 0);
    SpanIs(TEXT, false, 3);
    assert TEXT[0..] == TEXT && TEXT[..3] == ZIP;
    var rest := TEXT[3..];
    SpanIs(rest, true, 1);
    assert rest[1..] == ZOO;
    SpanIs(ZOO, false, 3);
    SpanIs([], true, 0);
    assert ZOO[..3] == ZOO && ZOO[3..] == [];
    assert Tokenizer.Tokens(ZOO[3..]) == [];
    assert Tokenizer.Tokens(rest) == [ZOO];
  }

  lemma TwoWords()
    ensures Tokenizer.Words(TEXT) == [ZIP, ZOO]
  {
    hide Tokenizer.Tokens, Tokenizer.Normalize;
    TwoTokens();
    LowerCaseStays(ZIP);
    LowerCaseStays(ZOO);
    assert [ZIP, ZOO][1..] == [ZOO];
    assert Tokenizer.Normalized([ZOO]) == [ZOO];
    assert Tokenizer.Normalized([ZIP, ZOO]) == [ZIP, ZOO];
    assert [ZIP] + [ZOO] == [ZIP, ZOO] && [] + [ZIP] == [ZIP];
    assert Tokenizer.Distinct([ZIP], [ZOO]) == [ZIP, ZOO];
  }

  lemma NotCommon(w: bytes)
    requires |w| == 3 && w[0] == 0x7a
    ensures !Common(w)
  {
    var s := AsString(w);
    assert s[0] == 'z';
    assert s !in COMMON_0 && s !in COMMON_1 && s !in COMMON_2 && s !in COMMON_3 && s !in COMMON_4 && s !in COMMON_5;
  }

  lemma TwoCandidates()
    ensures Uncommon(Tokenizer.Words(TEXT)) == [ZIP, ZOO] && Unknown([ZIP, ZOO], HALF.known) == [ZIP, ZOO]
  {
    hide Common, Tokenizer.Words;
    TwoWords();
    NotCommon(ZIP);
    NotCommon(ZOO);
    assert [ZIP, ZOO][1..] == [ZOO];
    assert Uncommon([ZOO]) == [ZOO] && Unknown([ZOO], HALF.known) == [ZOO];
  }

  lemma OneDraftThenFailure(job: Job, nextDraft: int)
    requires job.drafts == []
    ensures var g := Generate(job, nextDraft, [ZIP, ZOO], 0, HALF);
            g.code == Upstream && |g.job.drafts| == 1
  {
  }

  /** From the empty table: after this create call some sequence of review calls makes the job emit two
      outcome events. */
  lemma SecondOutcomePossible()
    ensures var r := CreateJob(EMPTY_SERVICE, TEXT, 1, HALF);
            exists ops :: OutcomeEvents(Run(r.service, ops), 1) > 1
  {
    hide Tokenizer.Words, Uncommon, Unknown, Generate, Audited, Run, OutcomeEvents;
    ReachableAudited([]);
    EmptyRun();
    TwoCandidates();
    var start := NewJob(1, 1, TEXT).(totalWords := 2, status := Generating);
    TwoWords();
    OneDraftThenFailure(start, 1);
    CreatedJobOutcome(EMPTY_SERVICE, TEXT, 1, HALF);
  }

  lemma EmptyRun()
    ensures Run(EMPTY_SERVICE, []) == EMPTY_SERVICE
  {
  }
}

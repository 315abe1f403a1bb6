/**
 * `main()` of `src/main.py` as a pure fold. The two model endpoints are oracles
 * indexed by call number, `time.sleep(13)` is a `Throttle` event in a trace,
 * and the saving steps are the report builders of `FileManager`.
 */
module Pipeline {
  import opened Wrappers
  import opened Json
  import opened Articles
  import opened Utils
  import opened Llm
  import opened LlmValidator
  import opened Results
  import opened NewsFetcher
  import opened FileManager

  const THROTTLE_SECONDS := 13

  datatype Stage = AnalysisStage | ValidationStage

  /** One `time.sleep` call. */
  datatype Event = Throttle(stage: Stage, seconds: nat)

  /** The articles the analysis loop does not skip, in input order. */
  function Survivors(articles: seq<Article>): (s: seq<Article>)
    ensures |s| == CountIf(articles, ValidateArticle)
    ensures forall j :: 0 <= j < |s| ==> ValidateArticle(s[j]) && s[j] in articles
  {
    Filter(articles, ValidateArticle)
  }

  /**
   * The survivors are an in-order subsequence of the articles: the j-th is
   * the article at the j-th of the strictly increasing positions of exactly
   * the accepted articles.
   */
  lemma SurvivorsInOrder(articles: seq<Article>)
    ensures exists ps: seq<nat> ::
      && |ps| == |Survivors(articles)| && KeptPositions(articles, ps)
      && forall j :: 0 <= j < |ps| ==> Survivors(articles)[j] == articles[ps[j]]
  {
    FilterAtPositions(articles, ValidateArticle);
    assert KeptPositions(articles, FilterPositions(articles, ValidateArticle));
  }

  /**
   * `ps` lists, in strictly increasing order, exactly the indices of the
   * articles `validate_article` accepts.
   */
  predicate KeptPositions(articles: seq<Article>, ps: seq<nat>) {
    && (forall k :: 0 <= k < |ps| ==> ps[k] < |articles| && ValidateArticle(articles[ps[k]]))
    && (forall k, l :: 0 <= k < l < |ps| ==> ps[k] < ps[l])
    && (forall j :: 0 <= j < |articles| && ValidateArticle(articles[j]) ==> j in ps)
  }

  /** Every article `validate_article` accepts survives, so none is lost. */
  lemma SurvivorsAreExactlyValid(articles: seq<Article>, a: Article)
    ensures a in Survivors(articles) <==> a in articles && ValidateArticle(a)
  {
    if a in articles && ValidateArticle(a) {
      FilterKeeps(articles, ValidateArticle, a);
    }
  }

  /** The record lines 54-60 create: nothing filled in yet, status `pending`. */
  function NewResult(article: Article, stamp: string): (r: PipelineResult)
    ensures r.status == Pending && r.analysis.None? && r.validation.None? && r.error.None?
    ensures r.article == article && r.timestamp == stamp
  {
    PipelineResult(article, None, None, stamp, Pending, None)
  }

  /**
   * Lines 54-74 for one article: a new pending record, then the outcome of the
   * analysis call. `attempt.stamp` is the `get_timestamp()` value read for it.
   */
  function AnalyzeStep(article: Article, attempt: Attempt): (r: PipelineResult)
    ensures r.status == (if attempt.reply.Reply? then Analyzed else AnalysisFailed)
    ensures WellFormed(r)
    ensures r.article == article && r.timestamp == attempt.stamp && r.validation.None?
    ensures attempt.reply.Reply? ==> r.analysis == Some(attempt.reply.text) && r.error.None?
    ensures attempt.reply.CallFailed? ==> r.error == Some(AnalysisError(attempt.reply.message))
  {
    var pending := NewResult(article, attempt.stamp);
    match AnalyzeArticle(attempt.reply)
    case Ok(text) => pending.(analysis := Some(text), status := Analyzed)
    case Err(message) => pending.(status := AnalysisFailed, error := Some(AnalysisError(message)))
  }

  /** The results built so far and the sleeps taken so far. */
  datatype Phase = Phase(results: seq<PipelineResult>, trace: seq<Event>)

  predicate OnlyThrottles(trace: seq<Event>, stage: Stage) {
    forall k :: 0 <= k < |trace| ==> trace[k] == Throttle(stage, THROTTLE_SECONDS)
  }

  /**
   * What the analysis loop has done after reading `articles`: one result per
   * surviving article, in order, the j-th built from the j-th call's outcome,
   * and one sleep per successful call.
   */
  predicate AnalysisInvariant(articles: seq<Article>, analyst: Oracle, p: Phase) {
    AnalyzedInOrder(Survivors(articles), analyst, p)
  }

  /** `p` holds one result per article of `s`, the j-th from the j-th call, and one sleep per success. */
  predicate AnalyzedInOrder(s: seq<Article>, analyst: Oracle, p: Phase) {
    && |p.results| == |s|
    && (forall j :: 0 <= j < |p.results| ==> p.results[j] == AnalyzeStep(s[j], analyst(j)))
    && |p.trace| == CountStatus(p.results, Analyzed)
    && OnlyThrottles(p.trace, AnalysisStage)
  }

  /** One pass of the loop body, lines 46-76, for article `a`. */
  function AnalysisNext(prev: Phase, a: Article, analyst: Oracle): Phase {
    if !ValidateArticle(a) then prev
    else
      var r := AnalyzeStep(a, analyst(|prev.results|));
      var sleep := if r.status == Analyzed then [Throttle(AnalysisStage, THROTTLE_SECONDS)] else [];
      Phase(prev.results + [r], prev.trace + sleep)
  }

  /** The analysis loop, lines 46-76, as a left fold of `AnalysisNext`. */
  function AnalysisPhase(articles: seq<Article>, analyst: Oracle): (p: Phase)
    ensures AnalysisInvariant(articles, analyst, p)
    decreases |articles|
  {
    if |articles| == 0 then Phase([], [])
    else
      var init := articles[..|articles| - 1];
      var a := articles[|articles| - 1];
      var prev := AnalysisPhase(init, analyst);
      AnalysisNextKeeps(init, a, articles, analyst, prev);
      AnalysisNext(prev, a, analyst)
  }

  lemma SurvivorsAppend(init: seq<Article>, a: Article)
    ensures Survivors(init + [a]) == if ValidateArticle(a) then Survivors(init) + [a] else Survivors(init)
  {
    assert (init + [a])[..|init|] == init;
  }

  lemma AnalysisNextKeeps(init: seq<Article>, a: Article, articles: seq<Article>, analyst: Oracle, prev: Phase)
    requires articles == init + [a]
    requires AnalysisInvariant(init, analyst, prev)
    ensures AnalysisInvariant(articles, analyst, AnalysisNext(prev, a, analyst))
  {
    SurvivorsAppend(init, a);
    if ValidateArticle(a) {
      AnalyzedOneMore(Survivors(init), a, analyst, prev, AnalysisNext(prev, a, analyst));
    }
  }

  /** Analysing one more article extends the results and the sleeps by its outcome. */
  lemma AnalyzedOneMore(s: seq<Article>, a: Article, analyst: Oracle, prev: Phase, next: Phase)
    requires AnalyzedInOrder(s, analyst, prev)
    requires var r := AnalyzeStep(a, analyst(|prev.results|));
      next == Phase(prev.results + [r],
                    prev.trace + if r.status == Analyzed then [Throttle(AnalysisStage, THROTTLE_SECONDS)] else [])
    ensures AnalyzedInOrder(s + [a], analyst, next)
  {
    var r := AnalyzeStep(a, analyst(|prev.results|));
    CountStatusAppend(prev.results, r, Analyzed);
    ResultsInOrder(s, a, analyst, prev.results, r, next.results);
    var sleep := if r.status == Analyzed then [Throttle(AnalysisStage, THROTTLE_SECONDS)] else [];
    ThrottlesAppend(prev.trace, sleep, next.trace, AnalysisStage);
  }

  lemma ResultsInOrder(s: seq<Article>, a: Article, analyst: Oracle, rs: seq<PipelineResult>, r: PipelineResult,
                       out: seq<PipelineResult>)
    requires |rs| == |s| && forall j :: 0 <= j < |rs| ==> rs[j] == AnalyzeStep(s[j], analyst(j))
    requires r == AnalyzeStep(a, analyst(|rs|)) && out == rs + [r]
    ensures |out| == |s + [a]| && forall j :: 0 <= j < |out| ==> out[j] == AnalyzeStep((s + [a])[j], analyst(j))
  {
    forall j | 0 <= j < |out| ensures out[j] == AnalyzeStep((s + [a])[j], analyst(j)) {
      if j < |rs| {
        assert out[j] == rs[j] && (s + [a])[j] == s[j];
      }
    }
  }

  lemma ThrottlesAppend(trace: seq<Event>, sleep: seq<Event>, out: seq<Event>, stage: Stage)
    requires OnlyThrottles(trace, stage) && OnlyThrottles(sleep, stage) && out == trace + sleep
    ensures OnlyThrottles(out, stage)
  {
    forall k | 0 <= k < |out| ensures out[k] == Throttle(stage, THROTTLE_SECONDS) {
      if k < |trace| { assert out[k] == trace[k]; } else { assert out[k] == sleep[k - |trace|]; }
    }
  }

  /**
   * After the analysis loop every result is `analyzed` or `analysis_failed`,
   * has exactly the keys its status promises, and there are no more results
   * than articles.
   */
  lemma AnalysisResultsShape(articles: seq<Article>, analyst: Oracle)
    ensures var p := AnalysisPhase(articles, analyst);
      && |p.results| <= |articles|
      && (forall j :: 0 <= j < |p.results| ==> p.results[j].status in {Analyzed, AnalysisFailed})
      && AllWellFormed(p.results)
  {
    var p := AnalysisPhase(articles, analyst);
    forall j | 0 <= j < |p.results|
      ensures p.results[j].status in {Analyzed, AnalysisFailed} && WellFormed(p.results[j])
    {
      assert p.results[j] == AnalyzeStep(Survivors(articles)[j], analyst(j));
    }
  }

  /**
   * Lines 92-105 for one `analyzed` result: on success the validation record,
   * stamped with `validated_at`, is stored and the status becomes `validated`;
   * on failure the status becomes `validation_failed` and the error is kept.
   */
  function ValidateStep(r: PipelineResult, attempt: Attempt, decode: Decoder): (v: PipelineResult)
    requires r.status == Analyzed
    ensures v.status == Validated <==> ValidateAnalysis(r.article, attempt.reply, decode).Ok?
    ensures v.status in {Validated, ValidationFailed}
    ensures v.article == r.article && v.analysis == r.analysis && v.timestamp == r.timestamp
    ensures v.status == Validated ==>
      && v.validation.Some? && v.error == r.error
      && Lookup(v.validation.value, "validated_at") == Some(JStr(attempt.stamp))
      && Lookup(v.validation.value, "article_title") == Some(r.article.title.ToJson())
    ensures v.status == ValidationFailed ==>
      v.validation == r.validation
      && v.error == Some(ValidationFailure(ValidateAnalysis(r.article, attempt.reply, decode).error))
    ensures WellFormed(r) ==> WellFormed(v)
  {
    match ValidateAnalysis(r.article, attempt.reply, decode)
    case Ok(record) =>
      var stamped := Put(record, "validated_at", JStr(attempt.stamp));
      PutLookup(record, "validated_at", JStr(attempt.stamp), "validated_at");
      PutLookup(record, "validated_at", JStr(attempt.stamp), "article_title");
      r.(validation := Some(stamped), status := Validated)
    case Err(e) =>
      r.(status := ValidationFailed, error := Some(ValidationFailure(e)))
  }

  /**
   * Line 94 changes only `validated_at`: the stored record reads as the
   * validator's decoded record under every other key, its verdict included.
   */
  lemma ValidateStepKeepsRecord(r: PipelineResult, attempt: Attempt, decode: Decoder)
    requires r.status == Analyzed
    ensures var v := ValidateStep(r, attempt, decode);
      v.status == Validated ==>
        AgreeExcept(v.validation.value, ValidateAnalysis(r.article, attempt.reply, decode).value, "validated_at")
  {
    var out := ValidateAnalysis(r.article, attempt.reply, decode);
    if out.Ok? {
      PutKeepsOthers(out.value, "validated_at", JStr(attempt.stamp));
    }
  }

  /** The results after the validation loop, its sleeps and `validated_count`. */
  datatype ValidationRun = ValidationRun(results: seq<PipelineResult>, trace: seq<Event>, validatedCount: nat)

  /** How many validation calls were made before position `j`. */
  function CallsBefore(rs: seq<PipelineResult>, j: nat): nat
    requires j <= |rs|
  {
    CountStatus(rs[..j], Analyzed)
  }

  /**
   * What the validation loop has done after visiting `rs`: results that were
   * not `analyzed` are untouched, each `analyzed` one went through the next
   * validation call, and `validated_count` and the sleeps count the successes.
   */
  predicate ValidationInvariant(rs: seq<PipelineResult>, validator: Oracle, decode: Decoder, v: ValidationRun) {
    && |v.results| == |rs|
    && (forall j :: 0 <= j < |rs| && rs[j].status != Analyzed ==> v.results[j] == rs[j])
    && (forall j :: 0 <= j < |rs| && rs[j].status == Analyzed ==>
          v.results[j] == ValidateStep(rs[j], validator(CallsBefore(rs, j)), decode))
    && CountStatus(rs, Validated) + v.validatedCount == CountStatus(v.results, Validated)
    && |v.trace| == v.validatedCount
    && OnlyThrottles(v.trace, ValidationStage)
  }

  /** One pass of the loop body, lines 86-105, for result `r`, which gets call number `k` if it is validated. */
  function ValidationNext(prev: ValidationRun, r: PipelineResult, k: nat, validator: Oracle, decode: Decoder)
    : ValidationRun
  {
    if r.status != Analyzed then
      ValidationRun(prev.results + [r], prev.trace, prev.validatedCount)
    else
      var out := ValidateStep(r, validator(k), decode);
      if out.status == Validated then
        ValidationRun(prev.results + [out], prev.trace + [Throttle(ValidationStage, THROTTLE_SECONDS)],
                      prev.validatedCount + 1)
      else
        ValidationRun(prev.results + [out], prev.trace, prev.validatedCount)
  }

  /** The validation loop, lines 85-105, as a left fold of `ValidationNext`. */
  function ValidationPhase(rs: seq<PipelineResult>, validator: Oracle, decode: Decoder): (v: ValidationRun)
    ensures ValidationInvariant(rs, validator, decode, v)
    decreases |rs|
  {
    if |rs| == 0 then ValidationRun([], [], 0)
    else
      var init := rs[..|rs| - 1];
      var r := rs[|rs| - 1];
      var prev := ValidationPhase(init, validator, decode);
      ValidationNextKeeps(init, r, rs, validator, decode, prev);
      ValidationNext(prev, r, CountStatus(init, Analyzed), validator, decode)
  }

  lemma ValidationNextKeeps(init: seq<PipelineResult>, r: PipelineResult, rs: seq<PipelineResult>,
                            validator: Oracle, decode: Decoder, prev: ValidationRun)
    requires rs == init + [r]
    requires ValidationInvariant(init, validator, decode, prev)
    ensures ValidationInvariant(rs, validator, decode,
                                ValidationNext(prev, r, CountStatus(init, Analyzed), validator, decode))
  {
    var n := |init|;
    var k := CountStatus(init, Analyzed);
    var next := ValidationNext(prev, r, k, validator, decode);
    var out := if r.status != Analyzed then r else ValidateStep(r, validator(k), decode);
    var sleep := if out.status == Validated && r.status == Analyzed
      then [Throttle(ValidationStage, THROTTLE_SECONDS)] else [];
    assert next.results == prev.results + [out] && next.trace == prev.trace + sleep;
    assert rs[..n] == init;
    ValidatedInPlace(init, r, rs, validator, decode, prev.results, out, next.results);
    CountStatusAppend(init, r, Validated);
    CountStatusAppend(prev.results, out, Validated);
    ThrottlesAppend(prev.trace, sleep, next.trace, ValidationStage);
  }

  /** The results part of the validation invariant, one position further on. */
  lemma ValidatedInPlace(init: seq<PipelineResult>, r: PipelineResult, rs: seq<PipelineResult>,
                         validator: Oracle, decode: Decoder,
                         before: seq<PipelineResult>, out: PipelineResult, after: seq<PipelineResult>)
    requires rs == init + [r] && after == before + [out] && |before| == |init|
    requires forall j :: 0 <= j < |init| && init[j].status != Analyzed ==> before[j] == init[j]
    requires forall j :: 0 <= j < |init| && init[j].status == Analyzed ==>
      before[j] == ValidateStep(init[j], validator(CallsBefore(init, j)), decode)
    requires out == if r.status != Analyzed then r else ValidateStep(r, validator(CountStatus(init, Analyzed)), decode)
    ensures forall j :: 0 <= j < |rs| && rs[j].status != Analyzed ==> after[j] == rs[j]
    ensures forall j :: 0 <= j < |rs| && rs[j].status == Analyzed ==>
      after[j] == ValidateStep(rs[j], validator(CallsBefore(rs, j)), decode)
  {
    var n := |init|;
    forall j | 0 <= j < |rs|
      ensures rs[j].status != Analyzed ==> after[j] == rs[j]
      ensures rs[j].status == Analyzed ==> after[j] == ValidateStep(rs[j], validator(CallsBefore(rs, j)), decode)
    {
      if j < n {
        assert rs[..j] == init[..j];
        assert CallsBefore(rs, j) == CallsBefore(init, j) && rs[j] == init[j] && after[j] == before[j];
      } else {
        assert rs[..n] == init;
        assert CallsBefore(rs, j) == CountStatus(init, Analyzed) && rs[j] == r && after[j] == out;
      }
    }
  }

  /**
   * After the validation loop no result is left `analyzed`, and results that
   * had the keys their status promised still do.
   */
  lemma ValidationResultsShape(rs: seq<PipelineResult>, validator: Oracle, decode: Decoder)
    ensures var v := ValidationPhase(rs, validator, decode);
      && CountStatus(v.results, Analyzed) == 0
      && (AllWellFormed(rs) ==> AllWellFormed(v.results))
  {
    var v := ValidationPhase(rs, validator, decode);
    forall j | 0 <= j < |rs|
      ensures v.results[j].status != Analyzed
      ensures WellFormed(rs[j]) ==> WellFormed(v.results[j])
    {
    }
    NoneWithStatus(v.results, Analyzed);
  }

  // ---------------------------------------------------------------------
  // What holds once both loops have run
  // ---------------------------------------------------------------------

  predicate HasAnalysis(r: PipelineResult) {
    r.analysis.Some?
  }

  /**
   * After both loops: every result has the keys its status promises, none is
   * left `analyzed`, a result holds an analysis exactly when its analysis call
   * succeeded, and the sleeps of each loop count its successful calls.
   */
  lemma BothPhases(articles: seq<Article>, analyst: Oracle, validator: Oracle, decode: Decoder)
    ensures var a := AnalysisPhase(articles, analyst);
      var v := ValidationPhase(a.results, validator, decode);
      && |v.results| == |a.results| <= |articles|
      && AllWellFormed(v.results)
      && (forall j :: 0 <= j < |v.results| ==> v.results[j].status != Analyzed)
      && (forall j :: 0 <= j < |v.results| ==> (HasAnalysis(v.results[j]) <==> a.results[j].status == Analyzed))
      && |a.trace| == CountStatus(a.results, Analyzed)
      && |v.trace| == v.validatedCount == CountStatus(v.results, Validated)
  {
    var a := AnalysisPhase(articles, analyst);
    var v := ValidationPhase(a.results, validator, decode);
    AnalysisResultsShape(articles, analyst);
    ValidationResultsShape(a.results, validator, decode);
    NoneWithStatus(a.results, Validated);
    forall j | 0 <= j < |v.results|
      ensures v.results[j].status != Analyzed
      ensures HasAnalysis(v.results[j]) <==> a.results[j].status == Analyzed
    {
      assert WellFormed(a.results[j]) && WellFormed(v.results[j]);
    }
  }

  /** A result keeps an analysis exactly when it was `analyzed`, so the two counts agree. */
  lemma {:induction false} CountAnalysesKept(rs: seq<PipelineResult>, out: seq<PipelineResult>)
    requires |rs| == |out|
    requires forall j :: 0 <= j < |rs| ==> (HasAnalysis(out[j]) <==> rs[j].status == Analyzed)
    ensures CountIf(out, HasAnalysis) == CountStatus(rs, Analyzed)
  {
    if |rs| > 0 {
      var n := |rs| - 1;
      assert forall j :: 0 <= j < n ==> rs[..n][j] == rs[j] && out[..n][j] == out[j];
      CountAnalysesKept(rs[..n], out[..n]);
    }
  }

  // ---------------------------------------------------------------------
  // The summary, lines 128-146
  // ---------------------------------------------------------------------

  /** The figures the summary prints. */
  datatype Summary = Summary(fetched: nat, analyzed: nat, validated: nat, correct: nat, partial: nat, incorrect: nat)

  /** `r.get("validation") and r["validation"].get("verdict") == v`. */
  predicate VerdictIs(r: PipelineResult, v: string) {
    r.validation.Some? && |r.validation.value| > 0 && Lookup(r.validation.value, "verdict") == Some(JStr(v))
  }

  predicate IsCorrect(r: PipelineResult) { VerdictIs(r, "correct") }
  predicate IsPartial(r: PipelineResult) { VerdictIs(r, "partially_correct") }
  predicate IsIncorrect(r: PipelineResult) { VerdictIs(r, "incorrect") }

  /** Line 132 as written: a result counts as analysed when its status is `analyzed` or `validated`. */
  predicate CountedAsAnalyzed(r: PipelineResult) {
    r.status in {Analyzed, Validated}
  }

  function SummaryAsWritten(fetched: nat, rs: seq<PipelineResult>): Summary {
    Summary(fetched, CountIf(rs, CountedAsAnalyzed), CountStatus(rs, Validated),
            CountIf(rs, IsCorrect), CountIf(rs, IsPartial), CountIf(rs, IsIncorrect))
  }

  /**
   * The summary with line 132 corrected: every result that holds an analysis
   * counts, including those whose validation failed afterwards.
   */
  function SummaryOf(fetched: nat, rs: seq<PipelineResult>): Summary {
    Summary(fetched, CountIf(rs, HasAnalysis), CountStatus(rs, Validated),
            CountIf(rs, IsCorrect), CountIf(rs, IsPartial), CountIf(rs, IsIncorrect))
  }

  /** Once no result is left `analyzed`, line 132 as written counts only the validated results. */
  lemma {:induction false} AsWrittenCountsValidated(rs: seq<PipelineResult>)
    requires forall j :: 0 <= j < |rs| ==> rs[j].status != Analyzed
    ensures CountIf(rs, CountedAsAnalyzed) == CountStatus(rs, Validated)
  {
    if |rs| > 0 {
      var n := |rs| - 1;
      assert forall j :: 0 <= j < n ==> rs[..n][j] == rs[j];
      AsWrittenCountsValidated(rs[..n]);
    }
  }

  /** Every well-formed validated result holds an analysis. */
  lemma {:induction false} ValidatedHaveAnalyses(rs: seq<PipelineResult>)
    requires AllWellFormed(rs)
    ensures CountStatus(rs, Validated) <= CountIf(rs, HasAnalysis)
  {
    if |rs| > 0 {
      var n := |rs| - 1;
      assert forall j :: 0 <= j < n ==> rs[..n][j] == rs[j];
      ValidatedHaveAnalyses(rs[..n]);
      assert WellFormed(rs[n]);
    }
  }

  /** A verdict can only be one of the three, and only a validated result carries one. */
  lemma {:induction false} VerdictTalliesBound(rs: seq<PipelineResult>)
    requires AllWellFormed(rs)
    ensures CountIf(rs, IsCorrect) + CountIf(rs, IsPartial) + CountIf(rs, IsIncorrect) <= CountStatus(rs, Validated)
  {
    if |rs| > 0 {
      var n := |rs| - 1;
      assert forall j :: 0 <= j < n ==> rs[..n][j] == rs[j];
      VerdictTalliesBound(rs[..n]);
      assert WellFormed(rs[n]);
    }
  }

  /**
   * The corrected summary after both loops: `analyzed` is the number of
   * successful analysis calls, `validated` the number of successful validation
   * calls, and the figures never grow from one line to the next.
   */
  lemma SummaryAfterPhases(articles: seq<Article>, analyst: Oracle, validator: Oracle, decode: Decoder)
    ensures var a := AnalysisPhase(articles, analyst);
      var v := ValidationPhase(a.results, validator, decode);
      var s := SummaryOf(|articles|, v.results);
      && s.analyzed == |a.trace|
      && s.validated == |v.trace|
      && s.correct + s.partial + s.incorrect <= s.validated <= s.analyzed <= s.fetched
  {
    var a := AnalysisPhase(articles, analyst);
    var v := ValidationPhase(a.results, validator, decode);
    BothPhases(articles, analyst, validator, decode);
    CountAnalysesKept(a.results, v.results);
    ValidatedHaveAnalyses(v.results);
    VerdictTalliesBound(v.results);
  }

  /**
   * Line 132 as written: after both loops its `analyzed` figure equals the
   * `validated` one, so every analysis whose validation failed is missing from it.
   */
  lemma AsWrittenAfterPhases(articles: seq<Article>, analyst: Oracle, validator: Oracle, decode: Decoder)
    ensures var a := AnalysisPhase(articles, analyst);
      var v := ValidationPhase(a.results, validator, decode);
      var s := SummaryAsWritten(|articles|, v.results);
      && s.analyzed == s.validated
      && s.analyzed + CountStatus(v.results, ValidationFailed) == |a.trace|
  {
    var a := AnalysisPhase(articles, analyst);
    var v := ValidationPhase(a.results, validator, decode);
    BothPhases(articles, analyst, validator, decode);
    AsWrittenCountsValidated(v.results);
    CountAnalysesKept(a.results, v.results);
    AnalysesSplit(v.results);
  }

  /** A result holds an analysis exactly when it is `validated` or `validation_failed`. */
  lemma {:induction false} AnalysesSplit(rs: seq<PipelineResult>)
    requires AllWellFormed(rs)
    requires forall j :: 0 <= j < |rs| ==> rs[j].status != Analyzed
    ensures CountIf(rs, HasAnalysis) == CountStatus(rs, Validated) + CountStatus(rs, ValidationFailed)
  {
    if |rs| > 0 {
      var n := |rs| - 1;
      assert forall j :: 0 <= j < n ==> rs[..n][j] == rs[j];
      AnalysesSplit(rs[..n]);
      assert WellFormed(rs[n]);
    }
  }

  /**
   * One usable article whose analysis succeeds and whose validation fails:
   * the printed summary as written says nothing was analysed, the corrected one says one.
   */
  lemma AsWrittenUndercounts(a: Article, analyst: Oracle, validator: Oracle, decode: Decoder)
    requires ValidateArticle(a)
    requires analyst(0).reply.Reply? && validator(0).reply.CallFailed?
    ensures var p := AnalysisPhase([a], analyst);
      var v := ValidationPhase(p.results, validator, decode);
      SummaryAsWritten(1, v.results).analyzed == 0 && SummaryOf(1, v.results).analyzed == 1
  {
    var p := AnalysisPhase([a], analyst);
    var v := ValidationPhase(p.results, validator, decode);
    OneArticleAnalyzed(a, analyst);
    OneResultRejected(p.results, validator, decode);
    AsWrittenAfterPhases([a], analyst, validator, decode);
    SummaryAfterPhases([a], analyst, validator, decode);
  }

  lemma OneArticleAnalyzed(a: Article, analyst: Oracle)
    requires ValidateArticle(a) && analyst(0).reply.Reply?
    ensures var p := AnalysisPhase([a], analyst);
      |p.results| == 1 && p.results[0].status == Analyzed && |p.trace| == 1
  {
    SurvivorsAppend([], a);
    assert [] + [a] == [a];
    var p := AnalysisPhase([a], analyst);
    assert Survivors([a]) == [a];
    assert p.results[0] == AnalyzeStep(a, analyst(0));
    CountStatusAppend([], p.results[0], Analyzed);
    assert p.results == [] + [p.results[0]];
  }

  lemma OneResultRejected(rs: seq<PipelineResult>, validator: Oracle, decode: Decoder)
    requires |rs| == 1 && rs[0].status == Analyzed && validator(0).reply.CallFailed?
    ensures var v := ValidationPhase(rs, validator, decode);
      |v.results| == 1 && v.results[0].status == ValidationFailed
      && CountStatus(v.results, ValidationFailed) == 1
  {
    var v := ValidationPhase(rs, validator, decode);
    assert rs[..0] == [];
    assert CallsBefore(rs, 0) == 0;
    CountStatusAppend([], v.results[0], ValidationFailed);
    assert v.results == [] + [v.results[0]];
  }

  // ---------------------------------------------------------------------
  // The whole run, lines 15-162
  // ---------------------------------------------------------------------

  /** What a completed run leaves behind: the results, the sleeps in order, both saved files and the summary. */
  datatype Run = Run(results: seq<PipelineResult>, trace: seq<Event>, analysisFile: AnalysisFile,
                     report: FinalReport, summary: Summary)

  /** How `main()` ends. */
  datatype Outcome =
    | FetchFailed(fetchError: FetchError)   // "Failed to fetch news", exit status 1
    | Crashed(position: nat)           // "Unexpected error": `.get` called on a string source, exit status 1
    | NoArticles                       // "No articles found"
    | SaveFailed(saveError: SaveError)     // "Failed to save results", plain return
    | Completed(run: Run)

  /**
   * `main()` with every outside effect supplied: the API key and the HTTP
   * response, the id generator, the two model endpoints and the JSON decoder.
   */
  function RunPipeline(apiKey: Option<string>, response: Result<seq<Article>, string>, ids: nat -> string,
                       analyst: Oracle, validator: Oracle, decode: Decoder): (o: Outcome)
    ensures var f := FetchNews(apiKey, response, ids);
      && (o.FetchFailed? <==> f.Err? && !f.error.SourceHasNoGet?)
      && (o.FetchFailed? ==> o.fetchError == f.error)
      && (o.Crashed? <==> f.Err? && f.error.SourceHasNoGet?)
      && (o.Crashed? ==> f.error == FetchError.SourceHasNoGet(o.position))
      && (f.Ok? ==> o == AfterFetch(f.value, analyst, validator, decode))
    ensures !o.NoArticles?
  {
    match FetchNews(apiKey, response, ids)
    case Err(SourceHasNoGet(position)) => Crashed(position)
    case Err(e) => FetchFailed(e)
    case Ok(articles) => AfterFetch(articles, analyst, validator, decode)
  }

  /**
   * Lines 30-146, from the fetched articles on. The summary is the one line
   * 132 prints as written (`SummaryAsWritten`); `SummaryOf` is its corrected
   * counterpart.
   */
  function AfterFetch(articles: seq<Article>, analyst: Oracle, validator: Oracle, decode: Decoder): (o: Outcome)
    ensures o.NoArticles? <==> |articles| == 0
    ensures !o.FetchFailed? && !o.Crashed?
  {
    if |articles| == 0 then NoArticles
    else
      var a := AnalysisPhase(articles, analyst);
      var v := ValidationPhase(a.results, validator, decode);
      match SaveAnalysisResults(v.results)
      case Err(e) => SaveFailed(e)
      case Ok(file) =>
        match SaveFinalReport(v.results)
        case Err(e) => SaveFailed(e)
        case Ok(report) => Completed(Run(v.results, a.trace + v.trace, file, report, SummaryAsWritten(|articles|, v.results)))
  }

  /** The verdict of a validated result is something `save_final_report` cannot render. */
  predicate BadVerdict(r: PipelineResult) {
    r.status == Validated && r.validation.Some? && !VerdictOf(r.validation.value).JStr?
  }

  /**
   * Once the articles are fetched, saving fails exactly when some validator
   * reply carried a verdict that is not a string; then the error names it.
   */
  lemma SaveFailure(articles: seq<Article>, analyst: Oracle, validator: Oracle, decode: Decoder)
    requires |articles| > 0
    ensures var v := ValidationPhase(AnalysisPhase(articles, analyst).results, validator, decode);
      var o := AfterFetch(articles, analyst, validator, decode);
      && (o.SaveFailed? <==> exists j :: 0 <= j < |v.results| && BadVerdict(v.results[j]))
      && (o.SaveFailed? ==> o.saveError in {VerdictUnhashable, VerdictNotText})
  {
    var a := AnalysisPhase(articles, analyst);
    var v := ValidationPhase(a.results, validator, decode);
    BothPhases(articles, analyst, validator, decode);
    SavesAfterPhases(v.results);
  }

  /** On well-formed results both saving steps fail only on a bad verdict. */
  lemma SavesAfterPhases(rs: seq<PipelineResult>)
    requires AllWellFormed(rs)
    ensures SaveAnalysisResults(rs).Ok?
    ensures SaveFinalReport(rs).Ok? <==> !exists j :: 0 <= j < |rs| && BadVerdict(rs[j])
    ensures SaveFinalReport(rs).Err? ==> SaveFinalReport(rs).error in {VerdictUnhashable, VerdictNotText}
  {
    assert AnalysesAreText(rs) by {
      forall j | 0 <= j < |rs| && rs[j].status == Validated ensures rs[j].analysis.Some? {
        assert WellFormed(rs[j]);
      }
    }
    forall j | 0 <= j < |rs| && rs[j].status == Validated
      ensures SectionOf(rs[j]).Ok? <==> !BadVerdict(rs[j])
      ensures SectionOf(rs[j]).Err? ==> SectionOf(rs[j]).error in {VerdictUnhashable, VerdictNotText}
    {
      assert WellFormed(rs[j]);
    }
    if SaveFinalReport(rs).Err? {
      SaveErrorFromSection(rs);
    }
  }

  /** A failing report names the error of one of its validated results. */
  lemma SaveErrorFromSection(rs: seq<PipelineResult>)
    requires AnalysesAreText(rs) && SaveFinalReport(rs).Err?
    ensures exists j :: 0 <= j < |rs| && rs[j].status == Validated && SectionOf(rs[j]) == Err(SaveFinalReport(rs).error)
  {
  }

  /**
   * A completed run. The printed summary counts as analysed only the validated
   * results; the corrected count `c.analyzed` is the number of successful
   * analysis calls. The trace is one 13-second sleep per success with the
   * analysis sleeps first, and both files agree with the summary.
   */
  lemma RunCompleted(articles: seq<Article>, analyst: Oracle, validator: Oracle, decode: Decoder)
    requires AfterFetch(articles, analyst, validator, decode).Completed?
    ensures var run := AfterFetch(articles, analyst, validator, decode).run;
      var a := AnalysisPhase(articles, analyst);
      var v := ValidationPhase(a.results, validator, decode);
      var s := run.summary;
      var c := SummaryOf(|articles|, run.results);
      && run.results == v.results && run.trace == a.trace + v.trace
      && c.analyzed == |a.trace| && s.validated == |v.trace|
      && s.fetched == |articles|
      && s.analyzed == s.validated == c.validated
      && s.correct + s.partial + s.incorrect <= s.validated <= c.analyzed <= s.fetched
      && |run.trace| == c.analyzed + s.validated
      && OnlyThrottles(run.trace[..c.analyzed], AnalysisStage)
      && OnlyThrottles(run.trace[c.analyzed..], ValidationStage)
      && run.analysisFile.totalArticles == |run.results| <= s.fetched
      && run.report.validated == |run.report.sections| == s.validated
  {
    var a := AnalysisPhase(articles, analyst);
    var v := ValidationPhase(a.results, validator, decode);
    SummaryAfterPhases(articles, analyst, validator, decode);
    AsWrittenAfterPhases(articles, analyst, validator, decode);
    BothPhases(articles, analyst, validator, decode);
    CompletedRun(articles, a, v, AfterFetch(articles, analyst, validator, decode).run, SummaryOf(|articles|, v.results));
  }

  lemma CompletedRun(articles: seq<Article>, a: Phase, v: ValidationRun, run: Run, c: Summary)
    requires |v.results| <= |articles|
    requires OnlyThrottles(a.trace, AnalysisStage) && OnlyThrottles(v.trace, ValidationStage)
    requires run.results == v.results && run.trace == a.trace + v.trace
    requires run.summary == SummaryAsWritten(|articles|, v.results)
    requires c.analyzed == |a.trace| && run.summary.validated == |v.trace|
    requires SaveAnalysisResults(v.results) == Ok(run.analysisFile)
    requires SaveFinalReport(v.results) == Ok(run.report)
    ensures var s := run.summary;
      && |run.trace| == c.analyzed + s.validated
      && OnlyThrottles(run.trace[..c.analyzed], AnalysisStage)
      && OnlyThrottles(run.trace[c.analyzed..], ValidationStage)
      && run.analysisFile.totalArticles == |run.results| <= s.fetched
      && run.report.validated == |run.report.sections| == s.validated
  {
    assert run.trace[..|a.trace|] == a.trace;
    assert run.trace[|a.trace|..] == v.trace;
  }
}

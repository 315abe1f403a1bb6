/**
 * `src/report_writer.py`: the JSON report with its verdict counts and the
 * markdown report with one section per result. Nothing in the pipeline calls
 * these writers; they take the same result records as `FileManager`.
 */
module ReportWriter {
  import opened Wrappers
  import opened Text
  import opened Json
  import opened Articles
  import opened Results
  import Pipeline

  /** The exceptions that end up as a `ReportWriterError`. */
  datatype ReportError =
    | ValidationIsNone     // `.get` on a `validation` that holds None
    | VerdictUnhashable    // a list or dict verdict used as a dictionary key
    | VerdictNotText       // `.upper()` on a verdict that is not a string
    | ConfidenceNotNumber  // the `:.2f` format applied to a value that is not a number
    | SourceHasNoGet       // `.get('name')` on a `source` that is a string or None
    | NotIterable          // `for x in value` over a truthy number or boolean

  const CORRECT := "correct"
  const PARTIAL := "partially_correct"
  const INCORRECT := "incorrect"

  // ---------------------------------------------------------------------
  // Verdict counts (lines 30-35 and 66-69)
  // ---------------------------------------------------------------------

  /**
   * `r.get("validation", {})` with a missing or None validation read as `{}`.
   * Every result record has the key, so as written the default never applies
   * and a None validation raises instead (see `TallyAsWritten`).
   */
  function ValidationOrEmpty(r: PipelineResult): seq<Member> {
    r.validation.GetOr([])
  }

  /** `r.get("validation", {}).get("verdict") == v`. */
  predicate Says(r: PipelineResult, v: string) {
    Lookup(ValidationOrEmpty(r), "verdict") == Some(JStr(v))
  }

  function VerdictCount(rs: seq<PipelineResult>, v: string): nat {
    if |rs| == 0 then 0 else VerdictCount(rs[..|rs| - 1], v) + (if Says(rs[|rs| - 1], v) then 1 else 0)
  }

  /** The counts of the JSON metadata and of the markdown statistics. */
  datatype Tally = Tally(total: nat, correct: nat, partial: nat, incorrect: nat)

  /** The counts with a None validation read as `{}`: every result counts towards the total, at most once towards a verdict. */
  function TallyOf(rs: seq<PipelineResult>): (t: Tally)
    ensures t.total == |rs|
    ensures t.correct + t.partial + t.incorrect <= t.total
  {
    VerdictCountsBound(rs);
    Tally(|rs|, VerdictCount(rs, CORRECT), VerdictCount(rs, PARTIAL), VerdictCount(rs, INCORRECT))
  }

  /** The three verdicts exclude one another, so their counts add up to at most the number of results. */
  lemma {:induction false} VerdictCountsBound(rs: seq<PipelineResult>)
    ensures VerdictCount(rs, CORRECT) + VerdictCount(rs, PARTIAL) + VerdictCount(rs, INCORRECT) <= |rs|
  {
    if |rs| > 0 {
      VerdictCountsBound(rs[..|rs| - 1]);
    }
  }

  /**
   * The counts as written: `r.get("validation", {})` returns the stored None,
   * and calling `.get` on it raises, so one result without a validation sinks
   * the whole report.
   */
  function TallyAsWritten(rs: seq<PipelineResult>): (r: Result<Tally, ReportError>)
    ensures r.Ok? <==> forall j :: 0 <= j < |rs| ==> rs[j].validation.Some?
    ensures r.Err? ==> r.error == ValidationIsNone
    ensures r.Ok? ==> r.value == TallyOf(rs)
  {
    if exists j :: 0 <= j < |rs| && rs[j].validation.None? then Err(ValidationIsNone) else Ok(TallyOf(rs))
  }

  /**
   * Every result whose analysis or validation failed holds a None validation,
   * so the counts as written fail on any run with such a result, while the
   * corrected counts still cover every result.
   */
  lemma FailedResultBreaksTally(rs: seq<PipelineResult>, j: nat)
    requires j < |rs| && WellFormed(rs[j]) && rs[j].status in {AnalysisFailed, ValidationFailed}
    ensures TallyAsWritten(rs) == Err(ValidationIsNone)
    ensures TallyOf(rs).total == |rs|
  {
  }

  /** The writers and the printed summary count the same verdicts. */
  lemma {:induction false} CountsMatchSummary(rs: seq<PipelineResult>, fetched: nat)
    ensures var s := Pipeline.SummaryOf(fetched, rs);
      var t := TallyOf(rs);
      t.correct == s.correct && t.partial == s.partial && t.incorrect == s.incorrect
  {
    if |rs| > 0 {
      CountsMatchSummary(rs[..|rs| - 1], fetched);
    }
  }

  /** What `save_json_report` writes besides the results themselves. */
  datatype JsonReport = JsonReport(metadata: Tally, results: seq<PipelineResult>)

  /**
   * `save_json_report` without the file write, with a None validation read as
   * `{}` (see `TallyAsWritten` for the code as written): every result is
   * written, each counted at most once under a verdict.
   */
  function SaveJsonReport(rs: seq<PipelineResult>): (r: JsonReport)
    ensures r.metadata.total == |rs| && r.results == rs
    ensures r.metadata.correct + r.metadata.partial + r.metadata.incorrect <= |rs|
    ensures (forall j :: 0 <= j < |rs| ==> rs[j].validation.Some?) ==> TallyAsWritten(rs) == Ok(r.metadata)
  {
    JsonReport(TallyOf(rs), rs)
  }

  // ---------------------------------------------------------------------
  // The markdown statistics (lines 66-87)
  // ---------------------------------------------------------------------

  /** Lines 72-73: the total the percentages divide by. */
  function DisplayTotal(n: nat): (t: nat)
    ensures t >= 1
    ensures n > 0 ==> t == n
  {
    if n == 0 then 1 else n
  }

  /** No percentage exceeds 100: every count fits under the displayed total. */
  lemma CountsWithinDisplayTotal(rs: seq<PipelineResult>)
    ensures var t := TallyOf(rs);
      t.correct + t.partial + t.incorrect <= DisplayTotal(|rs|)
  {
  }

  // ---------------------------------------------------------------------
  // One section (lines 95-142)
  // ---------------------------------------------------------------------

  /** Lines 106-110: the emoji map; looking up a list or dict raises. */
  function Emoji(verdict: Json): (r: Result<string, ReportError>)
    ensures r.Err? <==> !Hashable(verdict)
    ensures r.Err? ==> r.error == VerdictUnhashable
    ensures r == Ok("✅") <==> verdict == JStr(CORRECT)
    ensures r == Ok("⚠️") <==> verdict == JStr(PARTIAL)
    ensures r == Ok("❌") <==> verdict == JStr(INCORRECT)
    ensures r == Ok("❓") <==> Hashable(verdict) && verdict !in {JStr(CORRECT), JStr(PARTIAL), JStr(INCORRECT)}
  {
    if !Hashable(verdict) then Err(VerdictUnhashable)
    else if verdict == JStr(CORRECT) then Ok("✅")
    else if verdict == JStr(PARTIAL) then Ok("⚠️")
    else if verdict == JStr(INCORRECT) then Ok("❌")
    else Ok("❓")
  }

  /** `f"{confidence:.2f}"` accepts numbers and booleans (a Python `bool` is an `int`). */
  predicate Formattable(confidence: Json) {
    confidence.JNum? || confidence.JBool?
  }

  /** What `for x in value` yields: list items, the characters of a string, the keys of a dict. */
  function Items(value: Json): (r: Result<seq<Json>, ReportError>)
    ensures r.Err? <==> value.JNull? || value.JBool? || value.JNum?
    ensures value.JArr? ==> r == Ok(value.items)
    ensures value.JStr? ==>
      (r.Ok? && |r.value| == |value.s| && forall i :: 0 <= i < |value.s| ==> r.value[i] == JStr([value.s[i]]))
    ensures value.JObj? ==>
      (r.Ok? && |r.value| == |value.members|
       && forall i :: 0 <= i < |value.members| ==> r.value[i] == JStr(value.members[i].key))
  {
    match value
    case JArr(items) => Ok(items)
    case JStr(s) => Ok(seq(|s|, i requires 0 <= i < |s| => JStr([s[i]])))
    case JObj(members) => Ok(seq(|members|, i requires 0 <= i < |members| => JStr(members[i].key)))
    case _ => Err(NotIterable)
  }

  /** Lines 127-137: a block is written only for a truthy value, one bullet per item in order. */
  function Block(value: Json): (r: Result<Option<seq<Json>>, ReportError>)
    ensures r == Ok(None) <==> !Truthy(value)
    ensures r.Err? <==> Truthy(value) && (value.JBool? || value.JNum?)
    ensures r.Ok? && r.value.Some? ==> Items(value) == Ok(r.value.value) && |r.value.value| > 0
  {
    if !Truthy(value) then Ok(None)
    else
      match Items(value)
      case Err(e) => Err(e)
      case Ok(items) => Ok(Some(items))
  }

  /** Lines 112-140 for one result: the fields of its section. */
  datatype ReportSection = ReportSection(
    number: nat,
    title: string,
    emoji: string,
    verdict: string,
    confidence: Json,
    source: string,
    url: string,
    published: string,
    analysis: string,
    strengths: Option<seq<Json>>,
    issues: Option<seq<Json>>,
    assessment: Option<Json>)

  /** Line 116: `article.get('source', {}).get('name', 'Unknown')`. */
  function SourceName(source: Source): (r: Result<string, ReportError>)
    ensures r.Ok? <==> source.IsMapping()
    ensures source.NoSource? ==> r == Ok("Unknown")
    ensures source.SourceObject? && source.name.Str? ==> r == Ok(source.name.s)
  {
    if source.IsMapping() then Ok(source.Name().Show("Unknown")) else Err(SourceHasNoGet)
  }

  /**
   * Section `number` for result `r` whose validation reads as `validation`.
   * The steps raise in source order: the emoji lookup, `.upper()`, the
   * confidence format, the source name, then the strengths and issues loops.
   */
  function SectionFor(number: nat, r: PipelineResult, validation: seq<Member>): (s: Result<ReportSection, ReportError>)
    ensures var verdict := GetOr(validation, "verdict", JStr("unknown"));
      s.Ok? <==>
        && verdict.JStr?
        && Formattable(GetOr(validation, "confidence", JNum(0.0)))
        && r.article.source.IsMapping()
        && Block(GetOr(validation, "strengths", JArr([]))).Ok?
        && Block(GetOr(validation, "issues", JArr([]))).Ok?
    ensures var verdict := GetOr(validation, "verdict", JStr("unknown"));
      var confidence := GetOr(validation, "confidence", JNum(0.0));
      && (!Hashable(verdict) ==> s == Err(VerdictUnhashable))
      && (Hashable(verdict) && !verdict.JStr? ==> s == Err(VerdictNotText))
      && (verdict.JStr? && !Formattable(confidence) ==> s == Err(ConfidenceNotNumber))
      && (verdict.JStr? && Formattable(confidence) && !r.article.source.IsMapping() ==> s == Err(SourceHasNoGet))
      && (s.Err? && verdict.JStr? && Formattable(confidence) && r.article.source.IsMapping() ==> s.error == NotIterable)
    ensures s.Ok? ==> s.value.number == number
  {
    var verdict := GetOr(validation, "verdict", JStr("unknown"));
    var confidence := GetOr(validation, "confidence", JNum(0.0));
    var issues := GetOr(validation, "issues", JArr([]));
    var strengths := GetOr(validation, "strengths", JArr([]));
    match Emoji(verdict)
    case Err(e) => Err(e)
    case Ok(emoji) =>
      if !verdict.JStr? then Err(VerdictNotText)
      else if !Formattable(confidence) then Err(ConfidenceNotNumber)
      else
        match SourceName(r.article.source)
        case Err(e) => Err(e)
        case Ok(source) =>
          match Block(strengths)
          case Err(e) => Err(e)
          case Ok(strengthBlock) =>
            match Block(issues)
            case Err(e) => Err(e)
            case Ok(issueBlock) =>
              var assessment := GetOr(validation, "overall_assessment", JNull);
              Ok(ReportSection(
                number,
                r.article.title.Show("Untitled"),
                emoji,
                Upper(verdict.s),
                confidence,
                source,
                r.article.url.Show("#"),
                r.article.rawPublishedAt.Show("Unknown"),
                r.analysis.GetOr("None"),
                strengthBlock,
                issueBlock,
                if Truthy(assessment) then Some(assessment) else None))
  }

  /**
   * A rendered section: the emoji and upper-cased verdict agree with the
   * verdict, a missing verdict shows ❓ UNKNOWN, and the optional parts
   * appear exactly when their values are truthy.
   */
  lemma SectionContents(number: nat, r: PipelineResult, validation: seq<Member>)
    requires SectionFor(number, r, validation).Ok?
    ensures var s := SectionFor(number, r, validation).value;
      var verdict := GetOr(validation, "verdict", JStr("unknown"));
      && Emoji(verdict) == Ok(s.emoji)
      && s.verdict == Upper(verdict.s)
      && ("verdict" !in Keys(validation) ==> s.emoji == "❓" && s.verdict == "UNKNOWN")
      && (s.strengths.Some? <==> Truthy(GetOr(validation, "strengths", JArr([]))))
      && (s.issues.Some? <==> Truthy(GetOr(validation, "issues", JArr([]))))
      && (s.assessment.Some? <==> Truthy(GetOr(validation, "overall_assessment", JNull)))
      && (s.assessment.Some? ==> Lookup(validation, "overall_assessment") == s.assessment)
      && s.title == r.article.title.Show("Untitled")
  {
    var verdict := GetOr(validation, "verdict", JStr("unknown"));
    if "verdict" !in Keys(validation) {
      assert verdict == JStr("unknown");
      assert Upper("unknown") == "UNKNOWN";
    }
  }

  // ---------------------------------------------------------------------
  // The whole markdown report (lines 58-150)
  // ---------------------------------------------------------------------

  /** The outcomes of a run of steps, stopping at the first that raises. */
  function Collect<T>(outcomes: seq<Result<T, ReportError>>): (r: Result<seq<T>, ReportError>)
    ensures r.Ok? <==> forall k :: 0 <= k < |outcomes| ==> outcomes[k].Ok?
    ensures r.Ok? ==> |r.value| == |outcomes| && forall k :: 0 <= k < |outcomes| ==> r.value[k] == outcomes[k].value
    ensures r.Err? ==>
      exists k :: 0 <= k < |outcomes| && outcomes[k] == Err(r.error)
        && forall l :: 0 <= l < k ==> outcomes[l].Ok?
  {
    if |outcomes| == 0 then Ok([])
    else
      var n := |outcomes| - 1;
      var prev := Collect(outcomes[..n]);
      assert forall k :: 0 <= k < n ==> outcomes[k] == outcomes[..n][k];
      if prev.Err? then prev
      else
        match outcomes[n]
        case Err(e) => Err(e)
        case Ok(x) => Ok(prev.value + [x])
  }

  datatype MarkdownReport = MarkdownReport(shownTotal: nat, tally: Tally, sections: seq<ReportSection>)

  /** The section of every result, numbered from 1 in input order. */
  function Sections(rs: seq<PipelineResult>): (outcomes: seq<Result<ReportSection, ReportError>>)
    ensures |outcomes| == |rs|
    ensures forall k :: 0 <= k < |rs| ==> outcomes[k] == SectionFor(k + 1, rs[k], ValidationOrEmpty(rs[k]))
  {
    seq(|rs|, k requires 0 <= k < |rs| => SectionFor(k + 1, rs[k], ValidationOrEmpty(rs[k])))
  }

  /**
   * `save_markdown_report` without the file write, with a None validation
   * read as `{}`: the statistics first, then one section per result, validated
   * or not, stopping at the first section that raises.
   */
  function SaveMarkdownReport(rs: seq<PipelineResult>): (r: Result<MarkdownReport, ReportError>)
    ensures r.Ok? <==> forall k :: 0 <= k < |rs| ==> SectionFor(k + 1, rs[k], ValidationOrEmpty(rs[k])).Ok?
    ensures r.Ok? ==> r.value.shownTotal == DisplayTotal(|rs|) && r.value.tally == TallyOf(rs)
    ensures r.Ok? ==> |r.value.sections| == |rs|
    ensures r.Ok? ==> forall k :: 0 <= k < |rs| ==>
      (r.value.sections[k].number == k + 1
       && r.value.sections[k] == SectionFor(k + 1, rs[k], ValidationOrEmpty(rs[k])).value)
    ensures r.Err? ==> exists k :: 0 <= k < |rs| && SectionFor(k + 1, rs[k], ValidationOrEmpty(rs[k])) == Err(r.error)
  {
    match Collect(Sections(rs))
    case Err(e) => Err(e)
    case Ok(sections) => Ok(MarkdownReport(DisplayTotal(|rs|), TallyOf(rs), sections))
  }

  /**
   * Under the corrected reading of a missing validation as `{}` (line 100
   * itself raises on the stored None), a result whose analysis or validation
   * failed gets a section of its own: ❓ UNKNOWN with confidence 0 and no
   * strengths, issues or assessment.
   */
  lemma FailedResultShowsUnknown(number: nat, r: PipelineResult)
    requires r.validation.None? && r.article.source.IsMapping()
    ensures var s := SectionFor(number, r, ValidationOrEmpty(r));
      && s.Ok? && s.value.emoji == "❓" && s.value.verdict == "UNKNOWN" && s.value.confidence == JNum(0.0)
      && s.value.strengths.None? && s.value.issues.None? && s.value.assessment.None?
  {
    assert Upper("unknown") == "UNKNOWN";
  }

  /**
   * The fetcher stores `source` as a string, so the markdown writer raises on
   * the first result of every pipeline run, whatever the validator said
   * (its first section reads `.get('name')` from that string).
   */
  lemma PipelineResultsBreakMarkdown(rs: seq<PipelineResult>)
    requires |rs| > 0 && rs[0].article.source.SourceText?
    ensures SaveMarkdownReport(rs).Err?
  {
    assert !SectionFor(1, rs[0], ValidationOrEmpty(rs[0])).Ok?;
  }
}

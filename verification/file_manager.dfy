/**
 * The report logic of `src/file_manager.py` without the file writes: the
 * sentiment breakdown of `save_analysis_results` and the statistics, field
 * extraction and numbered sections of `save_final_report`.
 */
module FileManager {
  import opened Wrappers
  import opened Text
  import opened Json
  import opened Articles
  import opened Utils
  import opened Results

  // ---------------------------------------------------------------------
  // Field extraction (lines 147-172)
  // ---------------------------------------------------------------------

  /**
   * Which field a line of the analysis sets: the if/elif chain inside
   * `save_final_report` (lines 156-168) tests GIST, then SENTIMENT, then TONE.
   */
  datatype Label = GistLabel | SentimentLabel | ToneLabel | NoLabel

  function LabelOf(line: string): (l: Label)
    ensures l == GistLabel <==> ':' in line && Contains(Upper(line), "GIST")
    ensures l == SentimentLabel <==>
      ':' in line && !Contains(Upper(line), "GIST") && Contains(Upper(line), "SENTIMENT")
    ensures l == ToneLabel <==>
      ':' in line && !Contains(Upper(line), "GIST") && !Contains(Upper(line), "SENTIMENT") && Contains(Upper(line), "TONE")
  {
    var upper := Upper(line);
    if ':' !in line then NoLabel
    else if Contains(upper, "GIST") then GistLabel
    else if Contains(upper, "SENTIMENT") then SentimentLabel
    else if Contains(upper, "TONE") then ToneLabel
    else NoLabel
  }

  /** The label of every line. */
  function LabelsOf(lines: seq<string>): (ls: seq<Label>)
    ensures |ls| == |lines| && forall i :: 0 <= i < |lines| ==> ls[i] == LabelOf(lines[i])
  {
    seq(|lines|, i requires 0 <= i < |lines| => LabelOf(lines[i]))
  }

  /**
   * The value line `i` gives its field: the trimmed text after the first ':'
   * (or "" without one), or, when that is empty and a next line exists, the
   * next line trimmed.
   */
  function ValueAt(lines: seq<string>, i: nat): string
    requires i < |lines|
  {
    var v := if ':' in lines[i] then Strip(AfterFirst(lines[i], ':')) else "";
    if v == "" && i + 1 < |lines| then Strip(lines[i + 1]) else v
  }

  /** The value of every line. */
  function ValuesOf(lines: seq<string>): (vs: seq<string>)
    ensures |vs| == |lines| && forall i :: 0 <= i < |lines| ==> vs[i] == ValueAt(lines, i)
  {
    seq(|lines|, i requires 0 <= i < |lines| => ValueAt(lines, i))
  }

  datatype Fields = Fields(gist: string, sentiment: string, tone: string)

  /** The last of the first `n` lines labelled `which`, if any. */
  function LastLabelled(labels: seq<Label>, n: nat, which: Label): (r: Option<nat>)
    requires n <= |labels|
    ensures r.None? <==> forall j :: 0 <= j < n ==> labels[j] != which
    ensures r.Some? ==>
      r.value < n && labels[r.value] == which && forall j :: r.value < j < n ==> labels[j] != which
  {
    if n == 0 then None
    else if labels[n - 1] == which then Some(n - 1)
    else LastLabelled(labels, n - 1, which)
  }

  /**
   * `v` is what a field holds after the first `n` lines, whose labels are
   * `labels`: the value of the last of them carrying `which`, or "" when none does.
   */
  predicate IsLastValue(values: seq<string>, labels: seq<Label>, n: nat, which: Label, v: string)
    requires n <= |values| == |labels|
  {
    match LastLabelled(labels, n, which)
    case None => v == ""
    case Some(i) => v == values[i]
  }

  /** The `for i, line in enumerate(lines)` loop over the first `n` lines. */
  function ScanLines(values: seq<string>, labels: seq<Label>, n: nat): (f: Fields)
    requires n <= |values| == |labels|
    ensures IsLastValue(values, labels, n, GistLabel, f.gist)
    ensures IsLastValue(values, labels, n, SentimentLabel, f.sentiment)
    ensures IsLastValue(values, labels, n, ToneLabel, f.tone)
  {
    if n == 0 then Fields("", "", "")
    else
      var f := ScanLines(values, labels, n - 1);
      var v := values[n - 1];
      LastValueStep(values, labels, n, GistLabel, f.gist, if labels[n - 1] == GistLabel then v else f.gist);
      LastValueStep(values, labels, n, SentimentLabel, f.sentiment,
                    if labels[n - 1] == SentimentLabel then v else f.sentiment);
      LastValueStep(values, labels, n, ToneLabel, f.tone, if labels[n - 1] == ToneLabel then v else f.tone);
      match labels[n - 1]
      case GistLabel => f.(gist := v)
      case SentimentLabel => f.(sentiment := v)
      case ToneLabel => f.(tone := v)
      case NoLabel => f
  }

  /** One more line either sets the field (when labelled for it) or leaves it. */
  lemma {:induction false} LastValueStep(values: seq<string>, labels: seq<Label>, n: nat, which: Label, prev: string, next: string)
    requires 0 < n <= |values| == |labels|
    requires IsLastValue(values, labels, n - 1, which, prev)
    requires next == if labels[n - 1] == which then values[n - 1] else prev
    ensures IsLastValue(values, labels, n, which, next)
  {
    var r := LastLabelled(labels, n, which);
    if labels[n - 1] == which {
      assert r == Some(n - 1);
      assert r.Some? && next == values[r.value];
    } else {
      var q := LastLabelled(labels, n - 1, which);
      assert r == q;
      match q
      case None =>
        assert next == "";
      case Some(i) =>
        assert next == values[i];
    }
  }

  /** Lines whose values are all empty leave every field empty, whatever their labels. */
  lemma {:induction false} EmptyValuesScanEmpty(values: seq<string>, labels: seq<Label>, n: nat)
    requires n <= |values| == |labels|
    requires forall i :: 0 <= i < n ==> values[i] == ""
    ensures ScanLines(values, labels, n) == Fields("", "", "")
  {
    if n > 0 {
      EmptyValuesScanEmpty(values, labels, n - 1);
    }
  }

  const GIST_FALLBACK_LENGTH := 200

  /** Line 172: the whole analysis, or its first 200 characters and "...". */
  function FallbackGist(analysis: string): string {
    if |analysis| > GIST_FALLBACK_LENGTH then analysis[..GIST_FALLBACK_LENGTH] + ELLIPSIS else analysis
  }

  /** The fallback gist is `truncate_text(analysis, 200)`. */
  lemma FallbackIsTruncation(analysis: string)
    ensures FallbackGist(analysis) == TruncateText(Some(analysis), GIST_FALLBACK_LENGTH)
  {
  }

  /**
   * Lines 147-172: sentiment and tone are the values of the last lines
   * labelled with them. When the gist, sentiment and tone would all come out
   * empty, the gist becomes `truncate_text(analysis, 200)` instead; otherwise
   * it too is the value of its last labelled line. The fallback looks at the
   * values, not at the labels, so labelled lines with empty values trigger it.
   */
  function ExtractFields(analysis: string): (f: Fields)
    ensures var lines := Split(analysis, '\n'); var values := ValuesOf(lines); var labels := LabelsOf(lines);
      var blank := && IsLastValue(values, labels, |lines|, GistLabel, "")
                   && IsLastValue(values, labels, |lines|, SentimentLabel, "")
                   && IsLastValue(values, labels, |lines|, ToneLabel, "");
      && IsLastValue(values, labels, |lines|, SentimentLabel, f.sentiment)
      && IsLastValue(values, labels, |lines|, ToneLabel, f.tone)
      && (blank ==> f == Fields(TruncateText(Some(analysis), GIST_FALLBACK_LENGTH), "", ""))
      && (!blank ==> IsLastValue(values, labels, |lines|, GistLabel, f.gist))
  {
    var lines := Split(analysis, '\n');
    var s := ScanLines(ValuesOf(lines), LabelsOf(lines), |lines|);
    FallbackIsTruncation(analysis);
    if s.gist == "" && s.sentiment == "" && s.tone == "" then Fields(FallbackGist(analysis), "", "") else s
  }

  /** A non-empty analysis always yields at least one non-empty field, so extraction never comes back blank. */
  lemma ExtractionNeverBlank(analysis: string)
    requires analysis != ""
    ensures var f := ExtractFields(analysis); f.gist != "" || f.sentiment != "" || f.tone != ""
  {
  }

  // ---------------------------------------------------------------------
  // Errors
  // ---------------------------------------------------------------------

  /** The exceptions that end up as a `FileManagerError`. */
  datatype SaveError =
    | AnalysisNotText     // `in` or `.split` on an analysis that is None
    | ValidationMissing   // `.get` on a validation that is None
    | VerdictUnhashable   // a list or dict verdict used as a dictionary key
    | VerdictNotText      // `.replace` on a verdict that is not a string

  // ---------------------------------------------------------------------
  // The JSON sentiment breakdown (save_analysis_results, lines 56-75)
  // ---------------------------------------------------------------------

  const SENTIMENT_MARK := "SENTIMENT:"

  predicate IsSentimentLine(line: string) {
    Contains(line, SENTIMENT_MARK)
  }

  /** Index of the first line holding "SENTIMENT:", if any. */
  function FirstSentimentLine(lines: seq<string>): (r: Option<nat>)
    ensures r.None? <==> forall j :: 0 <= j < |lines| ==> !IsSentimentLine(lines[j])
    ensures r.Some? ==>
      r.value < |lines| && IsSentimentLine(lines[r.value])
      && forall j :: 0 <= j < r.value ==> !IsSentimentLine(lines[j])
  {
    if |lines| == 0 then None
    else if IsSentimentLine(lines[0]) then Some(0)
    else
      var r := FirstSentimentLine(lines[1..]);
      assert forall j :: 1 <= j < |lines| ==> lines[1..][j - 1] == lines[j];
      if r.None? then None else Some(r.value + 1)
  }

  /**
   * Lines 62-65: the key a validated analysis is counted under, the first
   * "SENTIMENT:" line with every "SENTIMENT:" removed and then trimmed.
   */
  function SentimentKey(analysis: string): Option<string> {
    if !Contains(analysis, SENTIMENT_MARK) then None
    else
      var lines := Split(analysis, '\n');
      match FirstSentimentLine(lines)
      case None => None
      case Some(i) => Some(Strip(RemoveAll(lines[i], SENTIMENT_MARK)))
  }

  /** The `if sentiment_line:` test never fails: a marked analysis has a marked line. */
  lemma SentimentKeyWhenMarked(analysis: string)
    ensures SentimentKey(analysis).Some? <==> Contains(analysis, SENTIMENT_MARK)
  {
    if Contains(analysis, SENTIMENT_MARK) {
      var lines := Split(analysis, '\n');
      assert '\n' !in SENTIMENT_MARK;
      ContainsSplitsToPart(lines, '\n', SENTIMENT_MARK);
    }
  }

  /** What one result adds to the breakdown: a validated analysis with a sentiment line. */
  function Contribution(r: PipelineResult): Option<string> {
    if r.status == Validated && r.analysis.Some? then SentimentKey(r.analysis.value) else None
  }

  /** How many results contribute under key `k`. */
  function ContributionsTo(rs: seq<PipelineResult>, k: string): nat {
    if |rs| == 0 then 0
    else ContributionsTo(rs[..|rs| - 1], k) + (if Contribution(rs[|rs| - 1]) == Some(k) then 1 else 0)
  }

  /** How many results contribute at all. */
  function Contributing(rs: seq<PipelineResult>): nat {
    if |rs| == 0 then 0
    else Contributing(rs[..|rs| - 1]) + (if Contribution(rs[|rs| - 1]).Some? then 1 else 0)
  }

  /** One entry of a tally dictionary. */
  datatype Entry = Entry(key: string, count: nat)

  /** `t.get(k, 0)`. */
  function CountOf(t: seq<Entry>, k: string): nat {
    if |t| == 0 then 0 else if t[0].key == k then t[0].count else CountOf(t[1..], k)
  }

  /** `t[k] = t.get(k, 0) + 1`: bump in place, or append a new key with 1. */
  function Bump(t: seq<Entry>, k: string): seq<Entry> {
    if |t| == 0 then [Entry(k, 1)]
    else if t[0].key == k then [Entry(k, t[0].count + 1)] + t[1..]
    else [t[0]] + Bump(t[1..], k)
  }

  function Total(t: seq<Entry>): nat {
    if |t| == 0 then 0 else t[0].count + Total(t[1..])
  }

  predicate DistinctKeys(t: seq<Entry>) {
    forall i, j :: 0 <= i < j < |t| ==> t[i].key != t[j].key
  }

  /** A bump adds one under its key and nothing under any other. */
  lemma {:induction false} BumpCounts(t: seq<Entry>, k: string, k2: string)
    ensures CountOf(Bump(t, k), k2) == CountOf(t, k2) + (if k == k2 then 1 else 0)
  {
    if |t| > 0 && t[0].key != k {
      BumpCounts(t[1..], k, k2);
      assert Bump(t, k)[1..] == Bump(t[1..], k);
    }
  }

  lemma {:induction false} BumpTotal(t: seq<Entry>, k: string)
    ensures Total(Bump(t, k)) == Total(t) + 1
  {
    if |t| > 0 && t[0].key != k {
      BumpTotal(t[1..], k);
      assert Bump(t, k)[1..] == Bump(t[1..], k);
    } else if |t| > 0 {
      assert Bump(t, k)[1..] == t[1..];
    }
  }

  /**
   * A bump keeps every key where it was; when `k` is new it appends `k` with
   * count 1.
   */
  lemma {:induction false} BumpShape(t: seq<Entry>, k: string)
    ensures var b := Bump(t, k);
      && (|b| == |t| || (|b| == |t| + 1 && b[|t|] == Entry(k, 1) && forall j :: 0 <= j < |t| ==> t[j].key != k))
      && (forall j :: 0 <= j < |t| ==> b[j].key == t[j].key)
  {
    if |t| > 0 && t[0].key != k {
      BumpShape(t[1..], k);
      var b := Bump(t, k);
      var rest := Bump(t[1..], k);
      assert b == [t[0]] + rest;
      forall j | 1 <= j < |t| ensures b[j].key == t[j].key && (|b| == |t| + 1 ==> t[j].key != k) {
        assert b[j] == rest[j - 1] && t[j] == t[1..][j - 1];
      }
    }
  }

  lemma BumpKeepsDistinct(t: seq<Entry>, k: string)
    requires DistinctKeys(t)
    ensures DistinctKeys(Bump(t, k))
  {
    BumpShape(t, k);
  }

  /** What `save_analysis_results` writes besides the results themselves. */
  datatype AnalysisFile = AnalysisFile(totalArticles: nat, breakdown: seq<Entry>)

  predicate AnalysesAreText(rs: seq<PipelineResult>) {
    forall j :: 0 <= j < |rs| && rs[j].status == Validated ==> rs[j].analysis.Some?
  }

  /** The counting loop of lines 57-66. */
  function SentimentBreakdown(rs: seq<PipelineResult>): (r: Result<seq<Entry>, SaveError>)
    ensures r.Ok? <==> AnalysesAreText(rs)
    ensures r.Err? ==> r.error == AnalysisNotText
    ensures r.Ok? ==> DistinctKeys(r.value) && Total(r.value) == Contributing(rs)
    ensures r.Ok? ==> forall k :: CountOf(r.value, k) == ContributionsTo(rs, k)
  {
    if |rs| == 0 then Ok([])
    else
      var init := rs[..|rs| - 1];
      var x := rs[|rs| - 1];
      var prev := SentimentBreakdown(init);
      assert AnalysesAreText(rs) <==> AnalysesAreText(init) && (x.status == Validated ==> x.analysis.Some?) by {
        assert forall j :: 0 <= j < |init| ==> init[j] == rs[j];
      }
      if prev.Err? then prev
      else if x.status != Validated then prev
      else if x.analysis.None? then Err(AnalysisNotText)
      else
        match SentimentKey(x.analysis.value)
        case None => prev
        case Some(k) =>
          BumpTotal(prev.value, k);
          BumpKeepsDistinct(prev.value, k);
          assert forall k2 :: CountOf(Bump(prev.value, k), k2) == ContributionsTo(rs, k2) by {
            forall k2 ensures CountOf(Bump(prev.value, k), k2) == ContributionsTo(rs, k2) {
              BumpCounts(prev.value, k, k2);
            }
          }
          Ok(Bump(prev.value, k))
  }

  /** `save_analysis_results`: the metadata counts every result, the breakdown only the marked validated ones. */
  function SaveAnalysisResults(rs: seq<PipelineResult>): (r: Result<AnalysisFile, SaveError>)
    ensures r.Ok? <==> AnalysesAreText(rs)
    ensures r.Ok? ==> r.value.totalArticles == |rs| && Total(r.value.breakdown) == Contributing(rs)
    ensures r.Ok? ==> SentimentBreakdown(rs).Ok? && r.value.breakdown == SentimentBreakdown(rs).value
  {
    match SentimentBreakdown(rs)
    case Err(e) => Err(e)
    case Ok(t) => Ok(AnalysisFile(|rs|, t))
  }

  // ---------------------------------------------------------------------
  // The markdown statistics (save_final_report, lines 100-115)
  // ---------------------------------------------------------------------

  datatype Mood = PositiveMood | NegativeMood | NeutralMood

  /** Lines 110-115: a case-sensitive substring test, Positive before Negative before Neutral. */
  function MoodOf(analysis: string): (m: Option<Mood>)
    ensures m == Some(PositiveMood) <==> Contains(analysis, "Positive")
    ensures m == Some(NegativeMood) <==> !Contains(analysis, "Positive") && Contains(analysis, "Negative")
    ensures m == Some(NeutralMood) <==>
      !Contains(analysis, "Positive") && !Contains(analysis, "Negative") && Contains(analysis, "Neutral")
    ensures m.None? <==>
      !Contains(analysis, "Positive") && !Contains(analysis, "Negative") && !Contains(analysis, "Neutral")
  {
    if Contains(analysis, "Positive") then Some(PositiveMood)
    else if Contains(analysis, "Negative") then Some(NegativeMood)
    else if Contains(analysis, "Neutral") then Some(NeutralMood)
    else None
  }

  /** The mood a result is tallied under: only validated results with a text analysis count. */
  function MoodOfResult(r: PipelineResult): Option<Mood> {
    if r.status == Validated && r.analysis.Some? then MoodOf(r.analysis.value) else None
  }

  /** How many results are tallied under `m`. */
  function MoodCount(rs: seq<PipelineResult>, m: Mood): nat {
    if |rs| == 0 then 0
    else MoodCount(rs[..|rs| - 1], m) + (if MoodOfResult(rs[|rs| - 1]) == Some(m) then 1 else 0)
  }

  datatype MoodCounts = MoodCounts(positive: nat, negative: nat, neutral: nat)

  /**
   * The counting loop of lines 107-115. Each validated result lands in at most
   * one bucket, so the three buckets never add up to more than the validated count.
   */
  function CountMoods(rs: seq<PipelineResult>): (r: Result<MoodCounts, SaveError>)
    ensures r.Ok? <==> AnalysesAreText(rs)
    ensures r.Err? ==> r.error == AnalysisNotText
    ensures r.Ok? ==> r.value.positive + r.value.negative + r.value.neutral <= CountStatus(rs, Validated)
    ensures r.Ok? ==> r.value == MoodCounts(MoodCount(rs, PositiveMood), MoodCount(rs, NegativeMood),
                                            MoodCount(rs, NeutralMood))
  {
    if |rs| == 0 then Ok(MoodCounts(0, 0, 0))
    else
      var init := rs[..|rs| - 1];
      var x := rs[|rs| - 1];
      var prev := CountMoods(init);
      assert AnalysesAreText(rs) <==> AnalysesAreText(init) && (x.status == Validated ==> x.analysis.Some?) by {
        assert forall j :: 0 <= j < |init| ==> init[j] == rs[j];
      }
      if prev.Err? then prev
      else if x.status != Validated then prev
      else if x.analysis.None? then Err(AnalysisNotText)
      else
        var c := prev.value;
        match MoodOf(x.analysis.value)
        case Some(PositiveMood) => Ok(c.(positive := c.positive + 1))
        case Some(NegativeMood) => Ok(c.(negative := c.negative + 1))
        case Some(NeutralMood) => Ok(c.(neutral := c.neutral + 1))
        case None => prev
  }

  // ---------------------------------------------------------------------
  // The numbered sections (lines 138-195)
  // ---------------------------------------------------------------------

  /** Lines 176-180: the glyph shown before the verdict. */
  function VerdictSymbol(verdict: string): (g: string)
    ensures g == "✓" <==> verdict == "correct"
    ensures g == "~" <==> verdict == "partially_correct"
    ensures g == "✗" <==> verdict == "incorrect"
    ensures g == "?" <==> verdict !in {"correct", "partially_correct", "incorrect"}
  {
    if verdict == "correct" then "✓"
    else if verdict == "partially_correct" then "~"
    else if verdict == "incorrect" then "✗"
    else "?"
  }

  /** `verdict.replace('_', ' ')`; the `.title()` that follows is not modelled. */
  function SpacedVerdict(verdict: string): (r: string)
    ensures |r| == |verdict|
    ensures forall i :: 0 <= i < |r| ==> r[i] == if verdict[i] == '_' then ' ' else verdict[i]
  {
    seq(|verdict|, i requires 0 <= i < |verdict| => if verdict[i] == '_' then ' ' else verdict[i])
  }

  const UNKNOWN_VERDICT := "unknown"
  const NO_DETAILS := "No validation details"

  /** What lines 184-190 render for one validated result, before its number. */
  datatype SectionBody = SectionBody(
    title: string,
    source: Source,
    url: string,
    fields: Fields,
    symbol: string,
    verdict: string,
    assessment: Json)

  datatype Section = Section(number: nat, body: SectionBody)

  /** `validation.get("verdict", "unknown")`. */
  function VerdictOf(validation: seq<Member>): Json {
    GetOr(validation, "verdict", JStr(UNKNOWN_VERDICT))
  }

  /**
   * Lines 143-190 for one validated result. The analysis is split first, then
   * the verdict is looked up in the glyph map (hashing it), then `.replace` is
   * called on it; each step raises on the values noted in `SaveError`.
   */
  function SectionOf(r: PipelineResult): (s: Result<SectionBody, SaveError>)
    ensures s.Ok? <==> r.analysis.Some? && r.validation.Some? && VerdictOf(r.validation.value).JStr?
    ensures r.analysis.None? ==> s == Err(AnalysisNotText)
    ensures r.analysis.Some? && r.validation.None? ==> s == Err(ValidationMissing)
    ensures r.analysis.Some? && r.validation.Some? && !Hashable(VerdictOf(r.validation.value)) ==>
      s == Err(VerdictUnhashable)
  {
    if r.analysis.None? then Err(AnalysisNotText)
    else if r.validation.None? then Err(ValidationMissing)
    else
      var validation := r.validation.value;
      var fields := ExtractFields(r.analysis.value);
      var verdict := VerdictOf(validation);
      if !Hashable(verdict) then Err(VerdictUnhashable)
      else if !verdict.JStr? then Err(VerdictNotText)
      else
        Ok(SectionBody(
          r.article.title.Show("Untitled"),
          r.article.source,
          r.article.url.Show("#"),
          fields,
          VerdictSymbol(verdict.s),
          SpacedVerdict(verdict.s),
          GetOr(validation, NO_DETAILS_KEY, JStr(NO_DETAILS))))
  }

  /**
   * A rendered section shows the glyph of the verdict, the fields extracted
   * from the analysis, the title (or "Untitled") and the assessment (or
   * "No validation details").
   */
  lemma SectionContents(r: PipelineResult)
    requires SectionOf(r).Ok?
    ensures var b := SectionOf(r).value; var verdict := VerdictOf(r.validation.value).s;
      && b.symbol == VerdictSymbol(verdict)
      && b.verdict == SpacedVerdict(verdict)
      && b.fields == ExtractFields(r.analysis.value)
      && b.title == r.article.title.Show("Untitled")
      && (NO_DETAILS_KEY !in Keys(r.validation.value) ==> b.assessment == JStr(NO_DETAILS))
  {
  }

  const NO_DETAILS_KEY := "overall_assessment"

  /** Positions of the validated results, in input order. */
  function ValidatedPositions(rs: seq<PipelineResult>): (ps: seq<nat>)
    ensures |ps| == CountStatus(rs, Validated)
    ensures forall k :: 0 <= k < |ps| ==> ps[k] < |rs| && rs[ps[k]].status == Validated
    ensures forall k, l :: 0 <= k < l < |ps| ==> ps[k] < ps[l]
    ensures forall j :: 0 <= j < |rs| && rs[j].status == Validated ==> j in ps
  {
    if |rs| == 0 then []
    else
      var n := |rs| - 1;
      var front := ValidatedPositions(rs[..n]);
      assert forall k :: 0 <= k < |front| ==> rs[..n][front[k]] == rs[front[k]];
      if rs[n].status == Validated then front + [n] else front
  }

  /**
   * The section loop of lines 138-195, given the outcome of each validated
   * result in order: the first failure ends it, otherwise sections are
   * numbered from 1.
   */
  function NumberSections(outcomes: seq<Result<SectionBody, SaveError>>): (r: Result<seq<Section>, SaveError>)
    ensures r.Ok? <==> forall k :: 0 <= k < |outcomes| ==> outcomes[k].Ok?
    ensures r.Ok? ==> |r.value| == |outcomes|
    ensures r.Ok? ==> forall k :: 0 <= k < |outcomes| ==> r.value[k] == Section(k + 1, outcomes[k].value)
    ensures r.Err? ==>
      exists k :: 0 <= k < |outcomes| && outcomes[k] == Err(r.error)
        && forall l :: 0 <= l < k ==> outcomes[l].Ok?
  {
    if |outcomes| == 0 then Ok([])
    else
      var n := |outcomes| - 1;
      var prev := NumberSections(outcomes[..n]);
      assert forall k :: 0 <= k < n ==> outcomes[k] == outcomes[..n][k];
      if prev.Err? then prev
      else
        match outcomes[n]
        case Err(e) => Err(e)
        case Ok(body) => Ok(prev.value + [Section(n + 1, body)])
  }

  /** What `save_final_report` writes: the counts and the numbered sections. */
  datatype FinalReport = FinalReport(validated: nat, moods: MoodCounts, sections: seq<Section>)

  /**
   * `save_final_report` without the file write: the mood counts first, then
   * one section per validated result, numbered 1, 2, ... in input order.
   */
  function SaveFinalReport(rs: seq<PipelineResult>): (r: Result<FinalReport, SaveError>)
    ensures r.Ok? <==> forall j :: 0 <= j < |rs| && rs[j].status == Validated ==> SectionOf(rs[j]).Ok?
    ensures r.Ok? ==>
      && r.value.validated == CountStatus(rs, Validated) == |r.value.sections|
      && r.value.moods.positive + r.value.moods.negative + r.value.moods.neutral <= r.value.validated
    ensures r.Ok? ==> CountMoods(rs).Ok? && r.value.moods == CountMoods(rs).value
    ensures r.Ok? ==> forall k :: 0 <= k < |r.value.sections| ==>
      r.value.sections[k] == Section(k + 1, SectionOf(rs[ValidatedPositions(rs)[k]]).value)
  {
    var ps := ValidatedPositions(rs);
    var outcomes := SectionOutcomes(rs, ps);
    OutcomesCoverValidated(rs, ps, outcomes);
    match CountMoods(rs)
    case Err(e) => Err(e)
    case Ok(moods) =>
      match NumberSections(outcomes)
      case Err(e) => Err(e)
      case Ok(sections) => Ok(FinalReport(CountStatus(rs, Validated), moods, sections))
  }

  /** The section (or the error) for each listed position. */
  function SectionOutcomes(rs: seq<PipelineResult>, ps: seq<nat>): (outcomes: seq<Result<SectionBody, SaveError>>)
    requires forall k :: 0 <= k < |ps| ==> ps[k] < |rs|
    ensures |outcomes| == |ps| && forall k :: 0 <= k < |ps| ==> outcomes[k] == SectionOf(rs[ps[k]])
  {
    seq(|ps|, k requires 0 <= k < |ps| => SectionOf(rs[ps[k]]))
  }

  /** The per-position outcomes are all fine exactly when every validated result renders. */
  lemma OutcomesCoverValidated(rs: seq<PipelineResult>, ps: seq<nat>, outcomes: seq<Result<SectionBody, SaveError>>)
    requires |outcomes| == |ps|
    requires forall k :: 0 <= k < |ps| ==> ps[k] < |rs| && outcomes[k] == SectionOf(rs[ps[k]])
    requires forall j :: 0 <= j < |rs| && rs[j].status == Validated ==> j in ps
    requires forall k :: 0 <= k < |ps| ==> rs[ps[k]].status == Validated
    ensures (forall k :: 0 <= k < |outcomes| ==> outcomes[k].Ok?) <==>
      (forall j :: 0 <= j < |rs| && rs[j].status == Validated ==> SectionOf(rs[j]).Ok?)
  {
    if forall k :: 0 <= k < |outcomes| ==> outcomes[k].Ok? {
      forall j | 0 <= j < |rs| && rs[j].status == Validated ensures SectionOf(rs[j]).Ok? {
        var k :| 0 <= k < |ps| && ps[k] == j;
        assert outcomes[k].Ok?;
      }
    }
  }

  // ---------------------------------------------------------------------
  // Extraction from labelled lines
  // ---------------------------------------------------------------------

  /** A labelled line "LABEL: value" gives its value. */
  lemma ValueOfLabelledLine(lines: seq<string>, i: nat, head: string, value: string)
    requires i < |lines| && lines[i] == head + ": " + value
    requires ':' !in head && IsStripped(value) && value != ""
    ensures ValueAt(lines, i) == value
  {
    var line := lines[i];
    assert line[..|head|] == head;
    AfterFirstAt(line, ':', |head|);
    assert line[|head| + 1..] == " " + value;
    StripUnique(" ", value, "");
    assert " " + value + "" == " " + value;
  }

  /** Three labelled lines joined by newlines give their three values. */
  lemma ExtractOfThreeJoined(lines: seq<string>)
    requires |lines| == 3 && forall i :: 0 <= i < 3 ==> '\n' !in lines[i]
    requires LabelOf(lines[0]) == GistLabel && LabelOf(lines[1]) == SentimentLabel && LabelOf(lines[2]) == ToneLabel
    requires ValueAt(lines, 0) != ""
    ensures ExtractFields(lines[0] + "\n" + lines[1] + "\n" + lines[2])
      == Fields(ValueAt(lines, 0), ValueAt(lines, 1), ValueAt(lines, 2))
  {
    JoinThree(lines, '\n');
    SplitJoin(lines, '\n');
    ExtractFromThreeLines(Join(lines, '\n'), lines);
  }

  /** Text of three lines labelled gist, sentiment and tone yields their three values. */
  lemma ExtractFromThreeLines(text: string, lines: seq<string>)
    requires Split(text, '\n') == lines && |lines| == 3
    requires LabelOf(lines[0]) == GistLabel && LabelOf(lines[1]) == SentimentLabel && LabelOf(lines[2]) == ToneLabel
    requires ValueAt(lines, 0) != ""
    ensures ExtractFields(text) == Fields(ValueAt(lines, 0), ValueAt(lines, 1), ValueAt(lines, 2))
  {
    ScanOfThree(lines);
    ExtractOfScan(text, Fields(ValueAt(lines, 0), ValueAt(lines, 1), ValueAt(lines, 2)));
  }

  lemma JoinThree(lines: seq<string>, sep: char)
    requires |lines| == 3
    ensures Join(lines, sep) == lines[0] + [sep] + lines[1] + [sep] + lines[2]
  {
    assert lines[1..][1..] == [lines[2]];
    assert Join(lines[1..], sep) == lines[1] + [sep] + lines[2];
  }

  /** Three lines labelled gist, sentiment and tone, in that order, set one field each. */
  lemma ScanOfThree(lines: seq<string>)
    requires |lines| == 3
    requires LabelOf(lines[0]) == GistLabel && LabelOf(lines[1]) == SentimentLabel && LabelOf(lines[2]) == ToneLabel
    ensures ScanLines(ValuesOf(lines), LabelsOf(lines), 3) == Fields(ValueAt(lines, 0), ValueAt(lines, 1), ValueAt(lines, 2))
  {
    var values := ValuesOf(lines);
    var labels := LabelsOf(lines);
    assert labels[0] == GistLabel && labels[1] == SentimentLabel && labels[2] == ToneLabel;
    assert ScanLines(values, labels, 1) == Fields(values[0], "", "");
    assert ScanLines(values, labels, 2) == Fields(values[0], values[1], "");
  }

  /** When the scan finds a gist the fallback stays off. */
  lemma ExtractOfScan(analysis: string, f: Fields)
    requires var lines := Split(analysis, '\n'); ScanLines(ValuesOf(lines), LabelsOf(lines), |lines|) == f
    requires f.gist != ""
    ensures ExtractFields(analysis) == f
  {
  }

  /**
   * A lone label with nothing after it ("GIST:", say) still triggers the
   * whole-analysis fallback: the line is labelled, but its value is empty.
   */
  lemma BareLabelFallsBack(head: string)
    requires ':' !in head && '\n' !in head && |head| < GIST_FALLBACK_LENGTH
    ensures ExtractFields(head + ":") == Fields(head + ":", "", "")
  {
    var line := head + ":";
    assert '\n' !in line;
    SplitWithoutSeparator(line, '\n');
    BareLabelValue(head, line);
    OneEmptyLineFallsBack(line, [line]);
  }

  lemma BareLabelValue(head: string, line: string)
    requires line == head + ":" && ':' !in head
    ensures ValueAt([line], 0) == ""
  {
    assert line[..|head|] == head;
    AfterFirstAt(line, ':', |head|);
    assert line[|head| + 1..] == "";
    assert Strip("") == "";
  }

  /** A single line with nothing after its colon yields the whole line as the gist. */
  lemma OneEmptyLineFallsBack(line: string, lines: seq<string>)
    requires lines == Split(line, '\n') && lines == [line] && |line| <= GIST_FALLBACK_LENGTH
    requires ValueAt(lines, 0) == ""
    ensures ExtractFields(line) == Fields(line, "", "")
  {
    EmptyValuesFallBack(line, lines);
    assert FallbackGist(line) == line;
  }

  /** When no line has a value, extraction falls back to the truncated analysis. */
  lemma EmptyValuesFallBack(analysis: string, lines: seq<string>)
    requires lines == Split(analysis, '\n')
    requires forall i :: 0 <= i < |lines| ==> ValueAt(lines, i) == ""
    ensures ExtractFields(analysis) == Fields(FallbackGist(analysis), "", "")
  {
    EmptyValuesScanEmpty(ValuesOf(lines), LabelsOf(lines), |lines|);
  }
}

# news-analyzer in Dafny

A Dafny model of the news-analyzer pipeline. The pipeline works in five steps:

1. It fetches political news from NewsAPI.
2. It normalises the articles.
3. It asks one generative model for an analysis of each usable article: a gist, a sentiment and a tone.
4. It asks a second model to validate each analysis, which gives a verdict, a confidence, strengths, issues and an overall assessment.
5. It writes a JSON file and a Markdown report, then prints a summary.

The model covers six parts of the Python code:

- `src/main.py`: the driver loop.
- `src/news_fetcher.py`: the normalisation filter.
- `src/llm_validator.py`: fence stripping and record stamping.
- `src/file_manager.py`: the sentiment tallies, the glyph map, the field extraction and the numbered sections of the final report.
- `src/report_writer.py`: the JSON and Markdown writers.
- `src/utils.py`: the helpers.

Everything is written as pure functions over immutable data. Each outside effect becomes an input:

- **API key and HTTP response.** Both are arguments of `NewsFetcher.FetchNews`. The response is either a transport error or the decoded `articles` list.
- **Article ids.** `uuid.uuid4()` becomes a function from input position to id.
- **The two model endpoints.** Each is an *oracle*: a function from call number to the reply and the `get_timestamp()` reading around that call. The reply is either text or a raised message.
- **JSON decoding.** `json.loads` is a decoder parameter, `string -> Option<Json>`, where `None` stands for a decode error.
- **Sleeps.** `time.sleep(13)` becomes a `Throttle` event, appended to a trace.

The model keeps the data shapes the Python code really handles:

- **Fields.** An article is a record whose fields can be missing, `None` or a string.
- **Source.** `source` is a sum type. NewsAPI delivers a mapping with a `name`, but the fetcher stores a plain string. Code that calls `.get("name")` on a string raises, and the model keeps that visible:
  - `NewsFetcher.FetchNews` reports a non-mapping source in the raw response.
  - `ReportWriter.PipelineResultsBreakMarkdown` shows that the Markdown writer can never render a result the pipeline produced.
- **Validation records.** These are JSON objects, held as ordered association lists with Python's dictionary semantics: replace in place, append a new key.
- **Result records.** Each pipeline result carries a status (`pending`, `analyzed`, `analysis_failed`, `validated`, `validation_failed`). `Results.WellFormed` states which keys each status fills in.

The module `report_writer.py` is not called by `main()`. It is modelled on the same result records, as a second consumer of them.

## Model

| member | source | states |
|---|---|---|
| Utils.TruncateText | src/utils.py:12-18 | missing or empty text gives ""; text within the limit comes back unchanged; longer text is a prefix of it plus "...", and its length is the limit plus 3 for a non-negative limit |
| Utils.TruncateIsPrefixPlusEllipsis | src/utils.py:16-18 | truncation never invents text: the result is the input or one of its prefixes followed by "..." |
| Utils.ValidateArticleMeaning | src/utils.py:30-32 | an article is valid exactly when title and content are both present, not None and not empty |
| Utils.DescriptionIsIrrelevant | src/utils.py:30-31 | changing the description never changes validity |
| Utils.FormatArticleSummary | src/utils.py:44-48 | succeeds exactly when `source` supports `.get`; the summary starts with the title (or "Untitled") and ends with the publication date (or "Unknown"), each set off by the three-character separator (space, vertical bar, space) |
| Utils.SummaryRoundTrip | src/utils.py:44-48 | when no part holds a vertical bar, splitting the summary at the vertical bars gives back title, source name and date, padded only by the separator's spaces |
| Utils.ProgressBar | src/utils.py:52-55 | for 0 <= current <= total the bar is 40 cells, blocks up to the filled count and dashes after; with no total it is 40 dashes |
| Utils.FilledCellsIsFloor | src/utils.py:54 | the filled count is the floor of the exact quotient 40 * current / total, between 0 and 40 |
| Utils.FilledCellsMonotonic | src/utils.py:54 | more progress never shortens the filled part |
| Utils.TruncateTextExamples | tests/test_analyzer.py:75-103 | the unit-test expectations of `truncate_text` hold |
| Utils.ValidateArticleExamples | tests/test_analyzer.py:22-69 | all six unit-test expectations of `validate_article` hold: accepted with or without a description; rejected with the title missing or empty, or the content missing or None |
| Utils.FormatArticleSummaryExample | tests/test_analyzer.py:105-115 | a full article renders as its title, source name and date in that order, joined by the separator |
| Utils.FormatArticleSummaryDefaults | tests/test_analyzer.py:117-124 | missing source and date both render as "Unknown" |
| NewsFetcher.EffectiveContent | src/news_fetcher.py:75 | the content when it is a non-empty string, the description otherwise |
| NewsFetcher.DescriptionFallback | src/news_fetcher.py:75 | a missing, None or empty content falls back to the description |
| NewsFetcher.Normalize | src/news_fetcher.py:84-92 | a kept article is stored with its id, stripped title and content, its source name as a string (or "Unknown"), and url and date copied |
| NewsFetcher.KeptPositions | src/news_fetcher.py:73-82 | the positions kept are increasing, in range, and exactly the usable articles |
| NewsFetcher.KeptExactlyWhenUsable | src/news_fetcher.py:80-82 | an article is kept exactly when it has a title and content of at least 50 characters |
| NewsFetcher.NormalizeAll | src/news_fetcher.py:71-93 | the j-th normalised article is the normalisation of the j-th usable raw article, with that article's id |
| NewsFetcher.FirstSourceWithoutGet | src/news_fetcher.py:76 | finds the first raw article whose source makes `.get("name")` raise, and none exactly when every source is a mapping |
| NewsFetcher.FetchNews | src/news_fetcher.py:43-98 | fails with the missing-key error exactly when the key is absent or empty; with a key, a failed request gives the request error and a source without `.get` names the first such article; fails with no-valid-articles exactly when nothing is usable; succeeds exactly when the key is set, the request succeeded, every source is a mapping and some article is usable, and then returns the normalised usable articles in order, between 1 and as many as received, each with string title, content and source |
| NewsFetcher.NormalizedShape | src/news_fetcher.py:71-96 | the normalised list is empty exactly when no raw article is usable, and is never longer than the response |
| NewsFetcher.LengthCheckedBeforeStripping | src/news_fetcher.py:81-88 | content padded with whitespace to 50 characters is kept, and stored with fewer than 50 |
| NewsFetcher.BlankTitleSurvivesFetching | src/news_fetcher.py:81-87 | a title of spaces passes the filter and is stored as "" |
| NewsFetcher.SingleUsableArticle | src/news_fetcher.py:73-98 | a response of one usable article comes back as that article, normalised |
| Llm.AnalyzeArticle | src/llm_analyzer.py:35-49 | a reply becomes the analysis text; a failed call becomes an analysis error with its message |
| LlmValidator.StripFences | src/llm_validator.py:64-74 | the text handed to the decoder is trimmed and never longer than the reply |
| LlmValidator.StripFencesIsWindow | src/llm_validator.py:64-74 | the decoded text is one contiguous piece of the reply; besides whitespace, at most 10 characters are cut before it and 3 after it |
| LlmValidator.UnfencedTextIsOnlyTrimmed | src/llm_validator.py:64-74 | a reply without fences is only trimmed |
| LlmValidator.BothLeadingFencesDropped | src/llm_validator.py:67-70 | the two front checks are independent: "```json```" loses both markers |
| LlmValidator.JsonFencedRoundTrip | src/llm_validator.py:67-74 | a body wrapped in a "```json" fence is recovered exactly |
| LlmValidator.PlainFencedRoundTrip | src/llm_validator.py:69-74 | a body wrapped in a plain fence is recovered exactly |
| LlmValidator.ValidateAnalysis | src/llm_validator.py:53-85 | a failed call or undecodable text raises; it succeeds exactly when the cleaned text decodes to an object; the result carries the article title and a None `validated_at` |
| LlmValidator.DecodedKeysKept | src/llm_validator.py:74-80 | every decoded key other than the two stamped ones keeps its decoded value |
| LlmValidator.FencedRecordRoundTrip | src/llm_validator.py:64-80 | an object sent bare or in either kind of fence comes back with every one of its own fields |
| Json.Lookup | src/file_manager.py:175-182 | a key reads as missing exactly when no entry has it; otherwise the value of an entry with that key |
| Json.Put | src/llm_validator.py:77-78 | assignment keeps an existing key in its place and appends a new key last |
| Json.PutLookup | src/main.py:94 | after `d[k] = v`, `d[k]` reads v and every other key reads as before |
| Json.PutKeepsKeysUnique | src/main.py:94 | assignment never creates a duplicate key |
| Pipeline.Survivors | src/main.py:46-52 | the articles the loop processes all pass `validate_article` and come from the input, as many as pass it |
| Pipeline.SurvivorsInOrder | src/main.py:46-52 | the processed articles are an in-order subsequence of the input: the j-th sits at the j-th of strictly increasing positions that list exactly the valid articles |
| Pipeline.SurvivorsAreExactlyValid | src/main.py:49-52 | an article is processed exactly when it is in the input and valid |
| Pipeline.NewResult | src/main.py:54-60 | a fresh result is pending, with no analysis, validation or error |
| Pipeline.AnalyzeStep | src/main.py:54-74 | one article's result is `analyzed` with the reply text when the call succeeds, else `analysis_failed` with the error; its keys match its status |
| Pipeline.AnalysisPhase | src/main.py:46-76 | after the loop: one result per valid article in order, the j-th from the j-th call, and one 13-second sleep per successful call |
| Pipeline.AnalysisNextKeeps | src/main.py:46-76 | one more pass of the loop body keeps that invariant |
| Pipeline.AnalysisResultsShape | src/main.py:46-76 | every result is `analyzed` or `analysis_failed`, has the keys its status promises, and there are no more results than articles |
| Pipeline.ValidateStep | src/main.py:92-105 | an analysed result becomes `validated` exactly when validation succeeds, then carrying the validator's record stamped with `validated_at` and the title; otherwise `validation_failed` with the cause; article, analysis and timestamp are untouched |
| Pipeline.ValidateStepKeepsRecord | src/main.py:93-95 | a validated result stores the validator's record with only `validated_at` changed: its verdict and every other key read as decoded |
| Pipeline.ValidationPhase | src/main.py:85-105 | non-analysed results are untouched; each analysed one goes through the next validation call in order; `validated_count` and the sleeps count the successes |
| Pipeline.ValidationNextKeeps | src/main.py:86-105 | one more pass of the validation loop keeps that invariant |
| Pipeline.ValidationResultsShape | src/main.py:85-105 | after validation no result is left `analyzed`, and well-formed results stay well-formed |
| Pipeline.BothPhases | src/main.py:46-105 | after both loops: every result is well-formed, none is `analyzed`, a result holds an analysis exactly when its analysis call succeeded, and each loop's sleeps count its successes |
| Pipeline.VerdictTalliesBound | src/main.py:135-137 | the correct, partial and incorrect counts together never exceed the validated count |
| Pipeline.SummaryAfterPhases | src/main.py:131-137 | the corrected summary's analysed figure is the number of successful analysis calls, its validated figure the number of successful validations, and verdicts ≤ validated ≤ analysed ≤ fetched |
| Pipeline.AsWrittenAfterPhases | src/main.py:132-133 | as written, the analysed figure always equals the validated figure and misses every analysis whose validation failed |
| Pipeline.AsWrittenUndercounts | src/main.py:132 | one article analysed and then rejected by the validator: the summary as written reports 0 analysed, the corrected one reports 1 |
| Pipeline.RunPipeline | src/main.py:15-168 | a fetch error ends the run as a fetch failure; a non-mapping source as an unexpected error at its position; otherwise the run continues with the fetched articles; a run never ends with "no articles" |
| Pipeline.AfterFetch | src/main.py:28-124 | the run stops with "no articles" exactly when none were fetched, and never as a fetch failure afterwards |
| Pipeline.SaveFailure | src/main.py:113-124 | once articles are fetched, saving fails exactly when some validated result holds a verdict that is not a string, and then with that error |
| Pipeline.SavesAfterPhases | src/main.py:113-124 | on well-formed results the JSON file always saves, and the report saves exactly when no verdict is bad |
| Pipeline.RunCompleted | src/main.py:28-154 | a completed run holds the results and sleeps of the two loops; its printed summary reports as many analysed as validated, its validated figure is the number of successful validations, and the corrected analysed figure (successful analysis calls) lies between that and the fetched count; the trace is one sleep per success, the analysis sleeps first; both files agree with the summary |
| FileManager.LabelOf | src/file_manager.py:155-165 | a line sets the gist when it has ':' and GIST in upper case; otherwise the sentiment when it has SENTIMENT; otherwise the tone when it has TONE |
| FileManager.LastLabelled | src/file_manager.py:154-168 | finds the last line with a given label, and none exactly when no line has it |
| FileManager.ScanLines | src/file_manager.py:148-168 | after the loop each field holds the value of the last line labelled for it, or "" |
| FileManager.LastValueStep | src/file_manager.py:154-168 | one more line sets the field when labelled for it and leaves it otherwise |
| FileManager.FallbackIsTruncation | src/file_manager.py:172 | the fallback gist is `truncate_text(analysis, 200)` |
| FileManager.ExtractFields | src/file_manager.py:147-172 | sentiment and tone are the values of their last labelled lines; when the last gist, sentiment and tone values are all empty, the gist becomes `truncate_text(analysis, 200)` and the others stay empty, and otherwise the gist is the value of its last labelled line |
| FileManager.ExtractionNeverBlank | src/file_manager.py:170-172 | a non-empty analysis never yields three empty fields |
| FileManager.EmptyValuesScanEmpty | src/file_manager.py:154-168 | lines whose values are all empty leave every field empty, whatever their labels |
| FileManager.ValueOfLabelledLine | src/file_manager.py:156-157 | a line "LABEL: value" gives the value |
| FileManager.ExtractOfThreeJoined | src/file_manager.py:153-172 | three lines labelled gist, sentiment and tone yield their three values |
| FileManager.BareLabelFallsBack | src/file_manager.py:156-172 | a lone label with nothing after its colon still triggers the whole-analysis fallback |
| FileManager.EmptyValuesFallBack | src/file_manager.py:153-172 | when no line has a value, extraction falls back to the truncated analysis |
| FileManager.FirstSentimentLine | src/file_manager.py:63 | finds the first line holding "SENTIMENT:", and none exactly when no line holds it |
| FileManager.SentimentKeyWhenMarked | src/file_manager.py:62-65 | an analysis containing "SENTIMENT:" always has such a line, so it always gets a key |
| FileManager.BumpCounts | src/file_manager.py:66 | a bump adds one under its key and nothing under any other |
| FileManager.BumpTotal | src/file_manager.py:66 | a bump adds one to the total |
| FileManager.BumpShape | src/file_manager.py:66 | a bump keeps every key in place, and appends the key with count 1 only when it is new |
| FileManager.BumpKeepsDistinct | src/file_manager.py:66 | a bump never creates a duplicate key |
| FileManager.SentimentBreakdown | src/file_manager.py:56-66 | fails exactly when a validated result has no analysis text; the counts under each key are the validated results whose first sentiment line gives that key; keys are distinct |
| FileManager.SaveAnalysisResults | src/file_manager.py:56-75 | fails exactly when a validated result has no text analysis; otherwise the metadata counts every result and the breakdown is the per-sentiment tally of the marked validated ones |
| FileManager.MoodOf | src/file_manager.py:110-115 | a case-sensitive substring test: Positive wins over Negative, which wins over Neutral |
| FileManager.CountMoods | src/file_manager.py:104-115 | each bucket counts the validated results in that mood; the buckets never add up to more than the validated count |
| FileManager.VerdictSymbol | src/file_manager.py:175-180 | ✓, ~ and ✗ for the three verdicts, and ? for anything else, in both directions |
| FileManager.SpacedVerdict | src/file_manager.py:189 | the verdict with every underscore replaced by a space |
| FileManager.SectionOf | src/file_manager.py:143-190 | a section renders exactly when the result has an analysis, a validation and a string verdict; the error names the first step that raises |
| FileManager.SectionContents | src/file_manager.py:175-190 | a section shows the glyph and spaced form of the verdict, the extracted fields, the title or "Untitled", and "No validation details" when no assessment exists |
| FileManager.ValidatedPositions | src/file_manager.py:138-141 | the positions of the validated results, increasing, all of them |
| FileManager.NumberSections | src/file_manager.py:138-195 | all sections render, numbered 1, 2, ... in order, or the first failure is reported |
| FileManager.SectionOutcomes | src/file_manager.py:139-190 | one outcome per listed position, that result's section |
| FileManager.SaveFinalReport | src/file_manager.py:100-195 | succeeds exactly when every validated result renders; then the validated count equals the number of sections, the moods add up to at most that count, the moods are the tally of the validated analyses, and section k is that of the k-th validated result |
| ReportWriter.TallyOf | src/report_writer.py:30-35 | counts every result in the total, each at most once under a verdict |
| ReportWriter.VerdictCountsBound | src/report_writer.py:32-34 | the three verdict counts together never exceed the number of results |
| ReportWriter.TallyAsWritten | src/report_writer.py:30-35 | as written, the counts succeed exactly when every result holds a validation, and then agree with the corrected counts |
| ReportWriter.FailedResultBreaksTally | src/report_writer.py:32-34 | a result whose analysis or validation failed makes the counts as written raise |
| ReportWriter.CountsMatchSummary | src/report_writer.py:32-34 | the writers and the printed summary count the same verdicts |
| ReportWriter.SaveJsonReport | src/report_writer.py:20-45 | the report holds every result and counts each at most once under a verdict; when every result holds a validation the counts are those of the code as written |
| ReportWriter.DisplayTotal | src/report_writer.py:72-73 | the total the percentages divide by is at least 1, and the real total when there are results |
| ReportWriter.CountsWithinDisplayTotal | src/report_writer.py:66-87 | no percentage exceeds 100 |
| ReportWriter.Emoji | src/report_writer.py:105-110 | ✅, ⚠️ and ❌ for the three verdicts, ❓ for any other hashable value; a list or dict verdict raises |
| ReportWriter.Items | src/report_writer.py:127-137 | iterating a list gives its items, a string its characters, a dict its keys; a number or boolean raises |
| ReportWriter.Block | src/report_writer.py:127-137 | a block is written exactly when the value is truthy, one bullet per item in order |
| ReportWriter.SourceName | src/report_writer.py:116 | the source name renders exactly when `source` is a mapping, "Unknown" when it is missing |
| ReportWriter.SectionFor | src/report_writer.py:95-140 | a section renders exactly when the verdict is a string, the confidence a number, the source a mapping and strengths and issues iterable; otherwise the error is the first step that raises |
| ReportWriter.SectionContents | src/report_writer.py:100-140 | the emoji and upper-cased verdict agree; a missing verdict shows ❓ UNKNOWN; the optional parts appear exactly when their values are truthy |
| ReportWriter.Collect | src/report_writer.py:95-142 | all outcomes in order, or the first one that raises |
| ReportWriter.Sections | src/report_writer.py:95-112 | the section of every result, numbered from 1 in input order |
| ReportWriter.SaveMarkdownReport | src/report_writer.py:58-150 | succeeds exactly when every result's section renders; then the statistics use the displayed total and the counts, and section k is the k-th result's; otherwise some section's error |
| ReportWriter.FailedResultShowsUnknown | src/report_writer.py:98-110 | reading a missing validation as `{}` (the corrected behaviour), a result without a validation shows ❓ UNKNOWN with confidence 0 and no strengths, issues or assessment |
| ReportWriter.PipelineResultsBreakMarkdown | src/report_writer.py:116 | a result whose source is the string the fetcher stores makes the Markdown writer raise |
| Text.Split | src/file_manager.py:153 | no part holds the separator, and joining the parts gives the text back |
| Text.SplitJoin | src/file_manager.py:153 | splitting joined parts that hold no separator gives the parts back |
| Text.StrippedIffFixed | src/news_fetcher.py:87-88 | a string is stripped exactly when stripping leaves it unchanged |
| Text.StripIdempotent | src/llm_validator.py:64-74 | stripping twice is stripping once |

## Left out

- The HTTP request, its retry session and the environment lookups of the query, page size and timeout are left out. The key and the response are inputs of `NewsFetcher.FetchNews`.
- `uuid.uuid4()` is a function from input position to id, so ids are not shown to be unique.
- The generative-model clients, prompts and model settings are left out. Each endpoint is an oracle of replies.
- `json.loads` is an opaque decoder parameter. A decoded object is taken to have no duplicate keys, as a Python dictionary never does.
- File writes, `os.makedirs`, file names, `datetime.now()` and the JSON layout are left out. Timestamps come from the oracles' attempts, and the writers return the data they would write.
- The Markdown text layout and the percentages (floating point) are left out. Each writer returns its counts and the fields of every section.
- `print`, `print_progress`'s percentage text and `\r` handling are left out; only its bar is modelled.
- `KeyboardInterrupt`, `sys.exit` and the traceback printing are left out. The run's ending is an `Outcome` value.
- `save_raw_articles` (`src/file_manager.py:9-39`) and its warning in `main()` are left out. Its failure only prints a warning and changes nothing downstream.
- `get_timestamp` and `ensure_output_directory` (`src/utils.py:4-10`) are left out. They are a clock reading and a directory creation.
- `src/mock_demo.py` is left out. It is a demo script outside the pipeline.
- A reply whose `response.text` is None is left out. The text is always a string here.
- Text.Upper: only ASCII letters are upper-cased; Python's `str.upper` also maps other scripts.
- FileManager.SpacedVerdict: the `.title()` applied after `.replace('_', ' ')` is not modelled.
- Utils.FilledCells: Python's float division `(40 * current) / total` is taken as exact rational division before `int()` truncates it; float rounding is not modelled.
- Utils.FilledCellsIsFloor: states the floor of the exact quotient; Python's rounded float quotient can differ from it only where rounding crosses an integer, which the model does not bound.
- Utils.ProgressBar: a current value outside `0..total` is only covered by its body, not by a contract.
- ReportWriter.SaveJsonReport: reads a None validation as `{}` (the corrected behaviour) rather than raising; `ReportWriter.TallyAsWritten` models the raise.
- ReportWriter.SaveMarkdownReport: reads a None validation as `{}` as well, so its line-100 `.get` never raises on one; the statistics use the corrected counts.
- ReportWriter.FailedResultShowsUnknown: describes a section under the corrected `{}` reading; as written, line 100 raises on such a result, as `ReportWriter.FailedResultBreaksTally` shows for the same `.get` at lines 32-34.

## Findings

| source | as written | input that shows it | evidently intended | confidence | as-written member | corrected member |
|---|---|---|---|---|---|---|
| src/main.py:132 | "Successfully Analyzed" counts results with status `analyzed` or `validated`; after the validation loop none is `analyzed`, so it equals the validated count | one valid article whose analysis call succeeds and whose validation call fails: prints 0 analysed | count every result holding an analysis, `validation_failed` included: 1 | not executed | Pipeline.AsWrittenUndercounts | Pipeline.SummaryAfterPhases |
| src/report_writer.py:32-34 | `r.get("validation", {})` returns the stored None, because every result has the key, and `.get("verdict")` on None raises; the same happens at lines 67-69 and 98-100 | any result whose analysis or validation failed | read a None validation as `{}`, so such a result counts under no verdict | not executed | ReportWriter.FailedResultBreaksTally | ReportWriter.TallyOf |

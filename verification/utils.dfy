/** The pure helpers of `src/utils.py`. */
module Utils {
  import opened Wrappers
  import opened Text
  import opened Articles

  const ELLIPSIS := "..."

  /**
   * `truncate_text`: empty or missing text gives "", text within the limit is
   * returned as is, longer text is cut to `maxLength` characters plus "...".
   * The cut is Python's `text[:max_length]`, so a negative limit counts from the end.
   */
  function TruncateText(text: Option<string>, maxLength: int): (r: string)
    ensures text.None? || text == Some("") ==> r == ""
    ensures text.Some? && |text.value| <= maxLength ==> r == text.value
    ensures text.Some? && 0 < |text.value| && maxLength < |text.value| ==>
      3 <= |r| <= |text.value| + 3 && EndsWith(r, ELLIPSIS) && r[..|r| - 3] == text.value[..|r| - 3]
    ensures text.Some? && 0 <= maxLength < |text.value| ==> |r| == maxLength + 3
  {
    if text.None? || |text.value| == 0 then ""
    else if |text.value| <= maxLength then text.value
    else
      var head := PyPrefix(text.value, maxLength);
      assert (head + ELLIPSIS)[..|head|] == head;
      head + ELLIPSIS
  }

  /** Either the input itself or one of its prefixes followed by "...": truncation never invents text. */
  lemma TruncateIsPrefixPlusEllipsis(text: string, maxLength: int)
    ensures var r := TruncateText(Some(text), maxLength);
      r == text || (EndsWith(r, ELLIPSIS) && StartsWith(text, r[..|r| - 3]))
  {
  }

  /** `validate_article`: `title` and `content` are both non-empty strings. */
  predicate ValidateArticle(a: Article) {
    a.title.Truthy() && a.content.Truthy()
  }

  /** The description plays no part in `validate_article`. */
  lemma DescriptionIsIrrelevant(a: Article, d: Field)
    ensures ValidateArticle(a.(description := d)) == ValidateArticle(a)
  {
  }

  /** `validate_article` holds exactly when title and content are present, not None and not empty. */
  lemma ValidateArticleMeaning(a: Article)
    ensures ValidateArticle(a) <==>
      (a.title != Absent && a.title != Null && a.title != Str("")
       && a.content != Absent && a.content != Null && a.content != Str(""))
  {
  }

  /** The error `format_article_summary` raises when `source` is not a mapping. */
  datatype SummaryError = SourceHasNoGet

  const SEPARATOR := " | "

  /**
   * `format_article_summary`: "title | source name | publishedAt", with
   * "Untitled" and "Unknown" for missing keys. It reads the NewsAPI keys, so a
   * normalised article (string `source`) makes it raise.
   */
  function FormatArticleSummary(a: Article): (r: Result<string, SummaryError>)
    ensures r.Ok? <==> a.source.IsMapping()
    ensures r.Ok? ==> StartsWith(r.value, a.title.Show("Untitled") + SEPARATOR)
    ensures r.Ok? ==> EndsWith(r.value, SEPARATOR + a.rawPublishedAt.Show("Unknown"))
  {
    if !a.source.IsMapping() then Err(SourceHasNoGet)
    else
      var title := a.title.Show("Untitled");
      var published := a.rawPublishedAt.Show("Unknown");
      var r := title + SEPARATOR + a.source.Name().Show("Unknown") + SEPARATOR + published;
      assert r[..|title + SEPARATOR|] == title + SEPARATOR;
      assert r[|r| - |SEPARATOR + published|..] == SEPARATOR + published;
      Ok(r)
  }

  /** When no part holds '|', splitting the summary on '|' gives the three parts back, padded by the separator's spaces. */
  lemma SummaryRoundTrip(a: Article)
    requires a.source.IsMapping()
    requires '|' !in a.title.Show("Untitled")
    requires '|' !in a.source.Name().Show("Unknown")
    requires '|' !in a.rawPublishedAt.Show("Unknown")
    ensures Split(FormatArticleSummary(a).value, '|') ==
      [a.title.Show("Untitled") + " ",
       " " + a.source.Name().Show("Unknown") + " ",
       " " + a.rawPublishedAt.Show("Unknown")]
  {
    var t := a.title.Show("Untitled");
    var s := a.source.Name().Show("Unknown");
    var p := a.rawPublishedAt.Show("Unknown");
    var parts := [t + " ", " " + s + " ", " " + p];
    SummaryParts(a, t, s, p);
    JoinSummaryParts(t, s, p, parts);
    SplitJoin(parts, '|');
  }

  lemma JoinSummaryParts(t: string, s: string, p: string, parts: seq<string>)
    requires parts == [t + " ", " " + s + " ", " " + p]
    ensures Join(parts, '|') == t + SEPARATOR + s + SEPARATOR + p
  {
    assert parts[1..][1..] == [" " + p];
    assert Join(parts[1..], '|') == " " + s + " " + "|" + " " + p;
  }

  const BAR_LENGTH := 40
  const FILLED := '█'
  const EMPTY := '-'

  /**
   * Python's `int(x / y)` for `y > 0`, with the float division taken as exact:
   * the rational quotient truncated toward zero.
   */
  function TruncDiv(x: int, y: int): int
    requires y > 0
  {
    if x >= 0 then x / y else -((-x) / y)
  }

  /** The `filled` count of `print_progress`. */
  function FilledCells(current: int, total: int): int {
    if total > 0 then TruncDiv(BAR_LENGTH * current, total) else 0
  }

  /**
   * The bar `print_progress` draws: `filled` blocks then dashes, where a
   * negative repeat count gives the empty string as in Python.
   */
  function ProgressBar(current: int, total: int): (bar: string)
    ensures total <= 0 ==> bar == Repeat(EMPTY, BAR_LENGTH)
    ensures total > 0 && 0 <= current <= total ==>
      |bar| == BAR_LENGTH
      && (forall i :: 0 <= i < FilledCells(current, total) ==> bar[i] == FILLED)
      && (forall i :: FilledCells(current, total) <= i < BAR_LENGTH ==> bar[i] == EMPTY)
  {
    var filled := FilledCells(current, total);
    FilledInRange(current, total);
    BarCells(filled, Repeat(FILLED, filled), Repeat(EMPTY, BAR_LENGTH - filled));
    Repeat(FILLED, filled) + Repeat(EMPTY, BAR_LENGTH - filled)
  }

  lemma FilledInRange(current: int, total: int)
    ensures total > 0 && 0 <= current <= total ==> 0 <= FilledCells(current, total) <= BAR_LENGTH
  {
    if total > 0 && 0 <= current <= total {
      FilledCellsIsFloor(current, total);
    }
  }

  /** Blocks then dashes: which cell holds which character. */
  lemma BarCells(filled: int, blocks: string, dashes: string)
    requires 0 <= filled <= BAR_LENGTH ==> |blocks| == filled && |dashes| == BAR_LENGTH - filled
    requires forall i :: 0 <= i < |blocks| ==> blocks[i] == FILLED
    requires forall i :: 0 <= i < |dashes| ==> dashes[i] == EMPTY
    ensures 0 <= filled <= BAR_LENGTH ==>
      && |blocks + dashes| == BAR_LENGTH
      && (forall i :: 0 <= i < filled ==> (blocks + dashes)[i] == FILLED)
      && (forall i :: filled <= i < BAR_LENGTH ==> (blocks + dashes)[i] == EMPTY)
  {
  }

  /** For a proper fraction the filled part is the floor of 40 * current / total. */
  lemma FilledCellsIsFloor(current: int, total: int)
    requires total > 0 && 0 <= current <= total
    ensures var f := FilledCells(current, total);
      0 <= f <= BAR_LENGTH && f * total <= BAR_LENGTH * current < (f + 1) * total
  {
  }

  /** More progress never shortens the filled part. */
  lemma FilledCellsMonotonic(c1: int, c2: int, total: int)
    requires total > 0 && 0 <= c1 <= c2 <= total
    ensures FilledCells(c1, total) <= FilledCells(c2, total)
  {
    var f1 := FilledCells(c1, total);
    var f2 := FilledCells(c2, total);
    FilledCellsIsFloor(c1, total);
    FilledCellsIsFloor(c2, total);
    if f1 > f2 {
      MultiplyMonotonic(f2 + 1, f1, total);
    }
  }

  lemma MultiplyMonotonic(a: int, b: int, t: int)
    requires a <= b && t > 0
    ensures a * t <= b * t
  {
    assert b * t - a * t == (b - a) * t;
  }

  /** The unit-test expectations for these helpers. */
  lemma TruncateTextExamples()
    ensures TruncateText(Some("Short text"), 100) == "Short text"
    ensures TruncateText(Some(""), 100) == ""
    ensures TruncateText(None, 100) == ""
    ensures TruncateText(Some(Repeat('a', 500)), 500) == Repeat('a', 500)
    ensures |TruncateText(Some(Repeat('a', 600)), 500)| == 503
    ensures EndsWith(TruncateText(Some(Repeat('a', 600)), 500), ELLIPSIS)
    ensures !EndsWith(TruncateText(Some(Repeat('a', 500)), 500), ELLIPSIS)
  {
    var r := TruncateText(Some(Repeat('a', 500)), 500);
    assert r[|r| - 1] == 'a' && ELLIPSIS[2] == '.';
  }

  lemma ValidateArticleExamples()
    ensures ValidateArticle(Article(Absent, Str("Test Article"), Str("Test description"), Str("This is test content."),
      NoSource, Absent, Absent, Absent))
    ensures ValidateArticle(Article(Absent, Str("Test Article"), Absent, Str("This is test content."),
      NoSource, Absent, Absent, Absent))
    ensures !ValidateArticle(Article(Absent, Absent, Str("Test description"), Str("This is test content."),
      NoSource, Absent, Absent, Absent))
    ensures !ValidateArticle(Article(Absent, Str("Test Article"), Str("Test description"), Absent,
      NoSource, Absent, Absent, Absent))
    ensures !ValidateArticle(Article(Absent, Str(""), Absent, Str("This is test content."),
      NoSource, Absent, Absent, Absent))
    ensures !ValidateArticle(Article(Absent, Str("Test Article"), Absent, Null,
      NoSource, Absent, Absent, Absent))
  {
  }

  lemma FormatArticleSummaryExample()
    ensures FormatArticleSummary(Article(Absent, Str("Test Article"), Absent, Absent,
      SourceObject(Str("Test Source")), Absent, Str("2026-01-17T10:00:00Z"), Absent))
      == Ok("Test Article" + " | " + "Test Source" + " | " + "2026-01-17T10:00:00Z")
  {
    var a := Article(Absent, Str("Test Article"), Absent, Absent,
      SourceObject(Str("Test Source")), Absent, Str("2026-01-17T10:00:00Z"), Absent);
    SummaryParts(a, "Test Article", "Test Source", "2026-01-17T10:00:00Z");
  }

  lemma FormatArticleSummaryDefaults()
    ensures FormatArticleSummary(Article(Absent, Str("Test Article"), Absent, Absent,
      NoSource, Absent, Absent, Absent))
      == Ok("Test Article | Unknown | Unknown")
  {
    var a := Article(Absent, Str("Test Article"), Absent, Absent, NoSource, Absent, Absent, Absent);
    SummaryParts(a, "Test Article", "Unknown", "Unknown");
    assert "Test Article" + SEPARATOR + "Unknown" + SEPARATOR + "Unknown" == "Test Article | Unknown | Unknown";
  }

  lemma SummaryParts(a: Article, t: string, n: string, p: string)
    requires a.source.IsMapping()
    requires t == a.title.Show("Untitled") && n == a.source.Name().Show("Unknown")
    requires p == a.rawPublishedAt.Show("Unknown")
    ensures FormatArticleSummary(a) == Ok(t + SEPARATOR + n + SEPARATOR + p)
  {
  }
}

/**
 * The normalisation filter of `fetch_news`. The HTTP request, the retry
 * session and the environment are inputs: the API key as read from the
 * environment, and the response as either a transport error or the decoded
 * `articles` list. Fresh ids are an opaque function of the input position.
 */
module NewsFetcher {
  import opened Wrappers
  import opened Text
  import opened Articles

  const MIN_CONTENT_LENGTH := 50

  datatype FetchError =
    | MissingApiKey
    | RequestFailed(message: string)
    | SourceHasNoGet(position: nat)
    | NoValidArticles

  /** `article.get("content") or article.get("description")`. */
  function EffectiveContent(a: Article): (c: Field)
    ensures a.content.Truthy() ==> c == a.content
    ensures !a.content.Truthy() ==> c == a.description
  {
    if a.content.Truthy() then a.content else a.description
  }

  /** The filter: a title, and content of at least 50 characters before stripping. */
  predicate Usable(a: Article) {
    a.title.Truthy()
    && EffectiveContent(a).Truthy()
    && |EffectiveContent(a).s| >= MIN_CONTENT_LENGTH
  }

  /** The record the fetcher appends for a usable raw article. */
  function Normalize(a: Article, id: string): (n: Article)
    requires Usable(a) && a.source.IsMapping()
    ensures n.id == Str(id)
    ensures n.title == Str(Strip(a.title.s))
    ensures n.content == Str(Strip(EffectiveContent(a).s))
    ensures n.source == SourceText(if a.source.Name().Truthy() then a.source.Name().s else "Unknown")
    ensures n.url == a.url.Copied() && n.publishedAt == a.rawPublishedAt.Copied()
    ensures n.description == Absent && n.rawPublishedAt == Absent
  {
    var name := a.source.Name();
    Article(
      id := Str(id),
      title := Str(Strip(a.title.s)),
      description := Absent,
      content := Str(Strip(EffectiveContent(a).s)),
      source := SourceText(if name.Truthy() then name.s else "Unknown"),
      url := a.url.Copied(),
      rawPublishedAt := Absent,
      publishedAt := a.rawPublishedAt.Copied())
  }

  /** Positions of the usable articles, in input order. */
  function KeptPositions(raw: seq<Article>): (ks: seq<nat>)
    ensures |ks| <= |raw|
    ensures forall j :: 0 <= j < |ks| ==> ks[j] < |raw| && Usable(raw[ks[j]])
    ensures forall j, k :: 0 <= j < k < |ks| ==> ks[j] < ks[k]
    ensures forall i :: 0 <= i < |raw| && Usable(raw[i]) ==> i in ks
  {
    if |raw| == 0 then []
    else
      var n := |raw| - 1;
      var front := KeptPositions(raw[..n]);
      assert forall j :: 0 <= j < |front| ==> raw[..n][front[j]] == raw[front[j]];
      if Usable(raw[n]) then front + [n] else front
  }

  predicate AllSourcesAreMappings(raw: seq<Article>) {
    forall i :: 0 <= i < |raw| ==> raw[i].source.IsMapping()
  }

  /** The normalisation loop over articles whose `source` supports `.get`. */
  function NormalizeAll(raw: seq<Article>, ids: nat -> string): (out: seq<Article>)
    requires AllSourcesAreMappings(raw)
    ensures |out| == |KeptPositions(raw)|
    ensures forall j :: 0 <= j < |out| ==>
      out[j] == Normalize(raw[KeptPositions(raw)[j]], ids(KeptPositions(raw)[j]))
  {
    if |raw| == 0 then []
    else
      var n := |raw| - 1;
      var front := NormalizeAll(raw[..n], ids);
      var out := if Usable(raw[n]) then front + [Normalize(raw[n], ids(n))] else front;
      NormalizeStep(raw, ids, front, out);
      out
  }

  lemma NormalizeStep(raw: seq<Article>, ids: nat -> string, front: seq<Article>, out: seq<Article>)
    requires |raw| > 0 && AllSourcesAreMappings(raw)
    requires var init := raw[..|raw| - 1];
      && |front| == |KeptPositions(init)|
      && forall j :: 0 <= j < |front| ==>
        front[j] == Normalize(init[KeptPositions(init)[j]], ids(KeptPositions(init)[j]))
    requires var n := |raw| - 1;
      out == if Usable(raw[n]) then front + [Normalize(raw[n], ids(n))] else front
    ensures |out| == |KeptPositions(raw)|
    ensures forall j :: 0 <= j < |out| ==>
      out[j] == Normalize(raw[KeptPositions(raw)[j]], ids(KeptPositions(raw)[j]))
  {
    var n := |raw| - 1;
    var init := raw[..n];
    var ks := KeptPositions(init);
    var all := KeptPositions(raw);
    assert all == if Usable(raw[n]) then ks + [n] else ks;
    forall j | 0 <= j < |out| ensures out[j] == Normalize(raw[all[j]], ids(all[j])) {
      if j < |front| {
        assert all[j] == ks[j];
        assert init[ks[j]] == raw[ks[j]];
      }
    }
  }

  /** The first article whose `source` makes `.get("name")` raise. */
  function FirstSourceWithoutGet(raw: seq<Article>): (r: Option<nat>)
    ensures r.None? <==> AllSourcesAreMappings(raw)
    ensures r.Some? ==>
      r.value < |raw| && !raw[r.value].source.IsMapping() && AllSourcesAreMappings(raw[..r.value])
  {
    if |raw| == 0 then None
    else if !raw[0].source.IsMapping() then Some(0)
    else
      var r := FirstSourceWithoutGet(raw[1..]);
      assert forall i :: 1 <= i < |raw| ==> raw[1..][i - 1] == raw[i];
      if r.None? then None
      else
        assert raw[..r.value + 1] == [raw[0]] + raw[1..][..r.value];
        Some(r.value + 1)
  }

  /**
   * `fetch_news`. A missing or empty key fails before any request; a transport
   * failure, a `source` that is not a mapping, or an empty normalised list fail
   * after it. The third is an `AttributeError`, not a `NewsFetcherError`.
   */
  function FetchNews(apiKey: Option<string>, response: Result<seq<Article>, string>, ids: nat -> string)
    : (r: Result<seq<Article>, FetchError>)
    ensures (apiKey.None? || apiKey == Some("")) <==> r == Err(MissingApiKey)
    ensures r.Ok? ==> response.Ok? && |r.value| >= 1 && |r.value| <= |response.value|
    ensures r.Ok? ==> forall j :: 0 <= j < |r.value| ==>
      r.value[j].title.Str? && r.value[j].content.Str? && r.value[j].source.SourceText?
    ensures r == Err(NoValidArticles) <==>
      apiKey.Some? && apiKey.value != "" && response.Ok? && AllSourcesAreMappings(response.value)
      && forall i :: 0 <= i < |response.value| ==> !Usable(response.value[i])
    ensures r.Ok? <==>
      apiKey.Some? && apiKey.value != "" && response.Ok? && AllSourcesAreMappings(response.value)
      && exists i :: 0 <= i < |response.value| && Usable(response.value[i])
    ensures r.Ok? ==> AllSourcesAreMappings(response.value) && r.value == NormalizeAll(response.value, ids)
    ensures apiKey.Some? && apiKey.value != "" && response.Err? ==> r == Err(RequestFailed(response.error))
    ensures apiKey.Some? && apiKey.value != "" && response.Ok? && FirstSourceWithoutGet(response.value).Some? ==>
      r == Err(SourceHasNoGet(FirstSourceWithoutGet(response.value).value))
  {
    if apiKey.None? || apiKey.value == "" then Err(MissingApiKey)
    else if response.Err? then Err(RequestFailed(response.error))
    else
      var raw := response.value;
      var bad := FirstSourceWithoutGet(raw);
      if bad.Some? then Err(SourceHasNoGet(bad.value))
      else
        var out := NormalizeAll(raw, ids);
        NormalizedShape(raw, ids);
        if |out| == 0 then Err(NoValidArticles) else Ok(out)
  }

  /** The normalised list is empty exactly when nothing is usable, and every entry has string fields. */
  lemma NormalizedShape(raw: seq<Article>, ids: nat -> string)
    requires AllSourcesAreMappings(raw)
    ensures var out := NormalizeAll(raw, ids);
      && (|out| == 0 <==> forall i :: 0 <= i < |raw| ==> !Usable(raw[i]))
      && |out| <= |raw|
      && forall j :: 0 <= j < |out| ==>
        out[j].title.Str? && out[j].content.Str? && out[j].source.SourceText?
  {
    var out := NormalizeAll(raw, ids);
    var ks := KeptPositions(raw);
    if |out| > 0 {
      assert Usable(raw[ks[0]]);
    }
    forall j | 0 <= j < |out|
      ensures out[j].title.Str? && out[j].content.Str? && out[j].source.SourceText?
    {
      assert out[j] == Normalize(raw[ks[j]], ids(ks[j]));
    }
  }

  /** An article is kept exactly when it is usable, and kept ones appear in input order. */
  lemma KeptExactlyWhenUsable(raw: seq<Article>, i: nat)
    requires i < |raw|
    ensures i in KeptPositions(raw) <==> Usable(raw[i])
  {
  }

  /**
   * The length test looks at the content before stripping, so an article whose
   * content is padded to 50 characters is kept with shorter stored content.
   */
  lemma LengthCheckedBeforeStripping(title: string, core: string, ids: nat -> string)
    requires |title| > 0 && |core| == 48 && IsStripped(core) && |core| > 0
    ensures var raw := Article(Absent, Str(title), Absent, Str(" " + core + " "), NoSource, Absent, Absent, Absent);
      var r := FetchNews(Some("key"), Ok([raw]), ids);
      r.Ok? && r.value[0].content == Str(core) && |r.value[0].content.s| < MIN_CONTENT_LENGTH
  {
    var raw := Article(Absent, Str(title), Absent, Str(" " + core + " "), NoSource, Absent, Absent, Absent);
    assert Usable(raw);
    StripUnique(" ", core, " ");
    SingleUsableArticle(raw, ids);
  }

  /**
   * A title of spaces passes the fetcher's filter and is stored stripped to "",
   * which `validate_article` later rejects.
   */
  lemma BlankTitleSurvivesFetching(content: string, ids: nat -> string)
    requires |content| >= MIN_CONTENT_LENGTH
    ensures var raw := Article(Absent, Str("   "), Absent, Str(content), NoSource, Absent, Absent, Absent);
      var r := FetchNews(Some("key"), Ok([raw]), ids);
      r.Ok? && r.value[0].title == Str("")
  {
    var raw := Article(Absent, Str("   "), Absent, Str(content), NoSource, Absent, Absent, Absent);
    assert Usable(raw);
    StripUnique("   ", "", "");
    assert "   " + "" + "" == "   ";
    SingleUsableArticle(raw, ids);
  }

  /** A response of one usable article comes back as that article, normalised. */
  lemma SingleUsableArticle(raw: Article, ids: nat -> string)
    requires Usable(raw) && raw.source.IsMapping()
    ensures FetchNews(Some("key"), Ok([raw]), ids) == Ok([Normalize(raw, ids(0))])
  {
    var one := [raw];
    assert one[..0] == [];
    assert KeptPositions(one) == [0];
    assert AllSourcesAreMappings(one);
    var out := NormalizeAll(one, ids);
    assert |out| == 1 && out[0] == Normalize(raw, ids(0));
    assert out == [Normalize(raw, ids(0))];
  }

  /** Content falls back to the description only when the content is missing, None or empty. */
  lemma DescriptionFallback(a: Article)
    requires a.content == Absent || a.content == Null || a.content == Str("")
    ensures EffectiveContent(a) == a.description
  {
  }
}

/**
 * Articles as the pipeline's dictionaries hold them. A raw NewsAPI article and
 * a normalised one are the same record with different keys filled in.
 */
module Articles {
  import opened Json

  /** One dictionary entry: missing key, key holding `None`, or key holding a string. */
  datatype Field = Absent | Null | Str(s: string) {

    /** Python truthiness of `d.get(key)`: a non-empty string. */
    predicate Truthy() {
      Str? && |s| > 0
    }

    /** How an f-string renders `d.get(key, default)`. */
    function Show(default: string): string {
      match this
      case Absent => default
      case Null => "None"
      case Str(s) => s
    }

    /** `d.get(key)` as a JSON value. */
    function ToJson(): Json {
      if Str? then JStr(s) else JNull
    }

    /** `d.get(key)` stored under a key that now always exists. */
    function Copied(): Field {
      if Absent? then Null else this
    }
  }

  /**
   * The `source` entry. NewsAPI delivers a mapping with a `name`; the fetcher
   * stores a plain string. Code that calls `.get("name")` on it works only for
   * the mapping (or a missing key, which defaults to `{}`).
   */
  datatype Source =
    | NoSource
    | NullSource
    | SourceText(text: string)
    | SourceObject(name: Field)
  {
    /** `d.get("source", {})` supports `.get("name")`. */
    predicate IsMapping() {
      NoSource? || SourceObject?
    }

    /** `d.get("source", {}).get("name")`, when that does not raise. */
    function Name(): Field
      requires IsMapping()
    {
      if NoSource? then Absent else name
    }
  }

  /**
   * An article dictionary. `rawPublishedAt` is NewsAPI's `publishedAt` key and
   * `publishedAt` the fetcher's `published_at` key; `id` only exists after
   * normalisation and `description` only before it.
   */
  datatype Article = Article(
    id: Field,
    title: Field,
    description: Field,
    content: Field,
    source: Source,
    url: Field,
    rawPublishedAt: Field,
    publishedAt: Field)
}

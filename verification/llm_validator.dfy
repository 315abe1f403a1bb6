/**
 * `validate_analysis` without the network call: the reply text is cleaned of
 * markdown code fences, decoded by an opaque JSON decoder, and the decoded
 * object is stamped with the article title.
 */
module LlmValidator {
  import opened Wrappers
  import opened Text
  import opened Json
  import opened Articles
  import opened Llm

  const FENCE := "```"
  const JSON_FENCE := "```json"

  /** The causes an `LLMValidationError` reports. */
  datatype ValidationError =
    | TransportFailed(message: string)
    | NotJson(response: string)
    | NotAnObject(value: Json)

  /** `json.loads`: `None` stands for a `JSONDecodeError`. */
  type Decoder = string -> Option<Json>

  /**
   * The text handed to `json.loads`: trimmed, then "```json" dropped from the
   * front, then (independently) "```" from the front, then "```" from the
   * back, then trimmed again.
   */
  function StripFences(text: string): (r: string)
    ensures IsStripped(r) && |r| <= |text|
  {
    Strip(DropFences(Strip(text)))
  }

  /** The three fence checks, in the order the source makes them. */
  function DropFences(t0: string): (t3: string)
    ensures |t3| <= |t0|
  {
    var t1 := if StartsWith(t0, JSON_FENCE) then t0[7..] else t0;
    var t2 := if StartsWith(t1, FENCE) then t1[3..] else t1;
    if EndsWith(t2, FENCE) then t2[..|t2| - 3] else t2
  }

  /** Number of non-whitespace characters of `s`. */
  function Visible(s: string): (n: nat)
    ensures n <= |s|
  {
    if |s| == 0 then 0 else (if IsSpace(s[0]) then 0 else 1) + Visible(s[1..])
  }

  lemma {:induction false} VisibleConcat(a: string, b: string)
    ensures Visible(a + b) == Visible(a) + Visible(b)
    decreases |a|
  {
    if |a| > 0 {
      assert (a + b)[1..] == a[1..] + b;
      VisibleConcat(a[1..], b);
    } else {
      assert a + b == b;
    }
  }

  lemma {:induction false} VisibleOfSpace(a: string)
    requires AllSpace(a)
    ensures Visible(a) == 0
    decreases |a|
  {
    if |a| > 0 {
      VisibleOfSpace(a[1..]);
    }
  }

  /**
   * `r` is the piece of `s` starting at `a`, with at most `front` visible
   * characters before it and at most `back` after it.
   */
  predicate Window(s: string, r: string, a: int, front: nat, back: nat) {
    0 <= a && a + |r| <= |s| && s[a..a + |r|] == r
    && Visible(s[..a]) <= front && Visible(s[a + |r|..]) <= back
  }

  lemma WindowCompose(s: string, t: string, r: string, a: int, c: int, f1: nat, b1: nat, f2: nat, b2: nat)
    requires Window(s, t, a, f1, b1) && Window(t, r, c, f2, b2)
    ensures Window(s, r, a + c, f1 + f2, b1 + b2)
  {
    forall i | 0 <= i < |r| ensures s[a + c + i] == r[i] {
      assert r[i] == t[c + i];
    }
    assert s[..a + c] == s[..a] + t[..c];
    VisibleConcat(s[..a], t[..c]);
    assert s[a + c + |r|..] == t[c + |r|..] + s[a + |t|..];
    VisibleConcat(t[c + |r|..], s[a + |t|..]);
  }

  lemma StripIsWindow(s: string)
    ensures Window(s, Strip(s), LeadingSpace(s), 0, 0)
  {
    var a := LeadingSpace(s);
    StripIsWindowed(s);
    VisibleOfSpace(s[..a]);
    VisibleOfSpace(s[a + |Strip(s)|..]);
    assert Window(s, Strip(s), a, 0, 0);
  }

  lemma DropFrontIsWindow(s: string, k: nat)
    requires k <= |s|
    ensures Window(s, s[k..], k, k, 0)
  {
    assert s[k..k + |s[k..]|] == s[k..];
    assert s[k + |s[k..]|..] == [];
  }

  lemma DropBackIsWindow(s: string, k: nat)
    requires k <= |s|
    ensures Window(s, s[..|s| - k], 0, 0, k)
  {
    assert s[..0] == [];
  }

  /** How many characters the two front checks of `DropFences` remove. */
  function FrontCut(t0: string): (n: nat)
    ensures n <= 10
  {
    var k1 := if StartsWith(t0, JSON_FENCE) then 7 else 0;
    var k2 := if StartsWith(t0[k1..], FENCE) then 3 else 0;
    k1 + k2
  }

  /** How many characters the back check of `DropFences` removes. */
  function BackCut(t0: string): (n: nat)
    ensures n <= 3
  {
    var k1 := if StartsWith(t0, JSON_FENCE) then 7 else 0;
    var t1 := t0[k1..];
    var k2 := if StartsWith(t1, FENCE) then 3 else 0;
    if EndsWith(t1[k2..], FENCE) then 3 else 0
  }

  lemma DropFencesIsSlice(t0: string)
    ensures FrontCut(t0) + BackCut(t0) <= |t0|
    ensures DropFences(t0) == t0[FrontCut(t0)..|t0| - BackCut(t0)]
  {
  }

  /** Cutting `f` characters from the front and `b` from the back leaves a window. */
  lemma CutIsWindow(s: string, f: nat, b: nat)
    requires f <= 10 && b <= 3 && f + b <= |s|
    ensures Window(s, s[f..|s| - b], f, 10, 3)
  {
    var r := s[f..|s| - b];
    assert s[f..f + |r|] == r;
    assert s[f + |r|..] == s[|s| - b..];
  }

  lemma DropFencesIsWindow(t0: string)
    ensures Window(t0, DropFences(t0), FrontCut(t0), 10, 3)
  {
    DropFencesIsSlice(t0);
    CutIsWindow(t0, FrontCut(t0), BackCut(t0));
  }

  /** Where the decoded text starts inside the reply. */
  function DecodeStart(text: string): nat {
    var t0 := Strip(text);
    LeadingSpace(text) + FrontCut(t0) + LeadingSpace(DropFences(t0))
  }

  /**
   * The decoded text is one contiguous piece of the reply; besides whitespace,
   * at most 10 characters are cut in front of it and at most 3 behind it.
   */
  lemma StripFencesIsWindow(text: string)
    ensures Window(text, StripFences(text), DecodeStart(text), 10, 3)
  {
    var t0 := Strip(text);
    var t3 := DropFences(t0);
    StripFencesUnfolds(text);
    StagesAreWindows(text, t0, t3, StripFences(text), DecodeStart(text));
  }

  lemma StripFencesUnfolds(text: string)
    ensures StripFences(text) == Strip(DropFences(Strip(text)))
    ensures DecodeStart(text) == LeadingSpace(text) + FrontCut(Strip(text)) + LeadingSpace(DropFences(Strip(text)))
  {
  }

  /** Trim, fence removal and trim again, each a window, compose to one. */
  lemma StagesAreWindows(text: string, t0: string, t3: string, r: string, start: int)
    requires t0 == Strip(text) && t3 == DropFences(t0) && r == Strip(t3)
    requires start == LeadingSpace(text) + FrontCut(t0) + LeadingSpace(t3)
    ensures Window(text, r, start, 10, 3)
  {
    StripIsWindow(text);
    DropFencesIsWindow(t0);
    StripIsWindow(t3);
    ComposeThree(text, t0, t3, r, LeadingSpace(text), FrontCut(t0), LeadingSpace(t3), start);
  }

  /** A trim, a cut of at most 10 and 3 visible characters, and a trim compose to one window. */
  lemma ComposeThree(s: string, t0: string, t3: string, r: string, a0: int, f: int, a3: int, start: int)
    requires Window(s, t0, a0, 0, 0) && Window(t0, t3, f, 10, 3) && Window(t3, r, a3, 0, 0)
    requires start == a0 + f + a3
    ensures Window(s, r, start, 10, 3)
  {
    WindowCompose(s, t0, t3, a0, f, 0, 0, 10, 3);
    assert Window(s, t3, a0 + f, 10, 3);
    WindowCompose(s, t3, r, a0 + f, a3, 10, 3, 0, 0);
  }

  /** Text that, once trimmed, neither starts nor ends with a fence is only trimmed. */
  lemma UnfencedTextIsOnlyTrimmed(text: string)
    requires !StartsWith(Strip(text), FENCE) && !EndsWith(Strip(text), FENCE)
    ensures StripFences(text) == Strip(text)
  {
    DropFencesWithoutFence(Strip(text));
    StripIdempotent(text);
  }

  lemma DropFencesWithoutFence(t0: string)
    requires !StartsWith(t0, FENCE) && !EndsWith(t0, FENCE)
    ensures DropFences(t0) == t0
  {
  }

  /** "```json```" loses both leading markers: the two front checks are independent. */
  lemma BothLeadingFencesDropped()
    ensures StripFences("```json```") == ""
  {
    var t0 := "```json```";
    assert IsStripped(t0) by {
      assert t0[0] == '`' && t0[|t0| - 1] == '`';
    }
    BothLeadingFencesCut();
    NothingLeftAfterFences(t0);
  }

  lemma BothLeadingFencesCut()
    ensures DropFences("```json```") == ""
  {
    var t0 := "```json```";
    assert t0[..7] == JSON_FENCE;
    assert t0[7..] == FENCE;
  }

  lemma NothingLeftAfterFences(t0: string)
    requires IsStripped(t0) && DropFences(t0) == ""
    ensures StripFences(t0) == ""
  {
    StrippedIffFixed(t0);
    StrippedIffFixed("");
  }

  /** A stripped body with no fence at either end. */
  predicate PlainBody(b: string) {
    IsStripped(b) && !StartsWith(b, FENCE) && !EndsWith(b, FENCE)
  }

  function JsonFenced(b: string): string { JSON_FENCE + "\n" + b + "\n" + FENCE }
  function PlainFenced(b: string): string { FENCE + "\n" + b + "\n" + FENCE }

  lemma {:induction false} FencedAreStripped(b: string)
    ensures IsStripped(JsonFenced(b)) && IsStripped(PlainFenced(b))
  {
  }

  lemma JsonFenceDropped(b: string)
    requires PlainBody(b)
    ensures DropFences(JsonFenced(b)) == "\n" + b + "\n"
  {
    var j := JsonFenced(b);
    assert StartsWith(j, JSON_FENCE);
    var j1 := j[7..];
    assert j1 == "\n" + b + "\n" + FENCE;
    assert j1[0] == '\n' && FENCE[0] == '`';
    assert !StartsWith(j1, FENCE);
    assert EndsWith(j1, FENCE);
    assert j1[..|j1| - 3] == "\n" + b + "\n";
  }

  lemma PlainFenceDropped(b: string)
    requires PlainBody(b)
    ensures DropFences(PlainFenced(b)) == "\n" + b + "\n"
  {
    var p := PlainFenced(b);
    assert p[3] == '\n' && JSON_FENCE[3] == 'j';
    assert !StartsWith(p, JSON_FENCE);
    assert StartsWith(p, FENCE);
    var p2 := p[3..];
    assert p2 == "\n" + b + "\n" + FENCE;
    assert EndsWith(p2, FENCE);
    assert p2[..|p2| - 3] == "\n" + b + "\n";
  }

  /** "```json" + newline + body + newline + "```" reduces to the body. */
  lemma JsonFencedRoundTrip(b: string)
    requires PlainBody(b)
    ensures StripFences(JsonFenced(b)) == b
  {
    FencedAreStripped(b);
    StrippedIffFixed(JsonFenced(b));
    JsonFenceDropped(b);
    StripUnique("\n", b, "\n");
  }

  /** "```" + newline + body + newline + "```" reduces to the body. */
  lemma PlainFencedRoundTrip(b: string)
    requires PlainBody(b)
    ensures StripFences(PlainFenced(b)) == b
  {
    FencedAreStripped(b);
    StrippedIffFixed(PlainFenced(b));
    PlainFenceDropped(b);
    StripUnique("\n", b, "\n");
  }

  /**
   * `validate_analysis`. A failed call, text that does not decode, or a decoded
   * value that is not an object all raise; otherwise the decoded object comes
   * back with `article_title` set to the article's title and `validated_at` set to None.
   */
  function ValidateAnalysis(article: Article, reply: Reply, decode: Decoder)
    : (r: Result<seq<Member>, ValidationError>)
    ensures reply.CallFailed? ==> r == Err(TransportFailed(reply.message))
    ensures reply.Reply? && decode(StripFences(reply.text)).None? ==> r == Err(NotJson(reply.text))
    ensures r.Ok? <==>
      reply.Reply? && decode(StripFences(reply.text)).Some? && decode(StripFences(reply.text)).value.JObj?
    ensures r.Ok? ==>
      && Lookup(r.value, "article_title") == Some(article.title.ToJson())
      && Lookup(r.value, "validated_at") == Some(JNull)
  {
    match reply
    case CallFailed(message) => Err(TransportFailed(message))
    case Reply(text) =>
      match decode(StripFences(text))
      case None => Err(NotJson(text))
      case Some(value) =>
        if !value.JObj? then Err(NotAnObject(value))
        else
          var withTitle := Put(value.members, "article_title", article.title.ToJson());
          var r := Put(withTitle, "validated_at", JNull);
          PutLookup(withTitle, "validated_at", JNull, "validated_at");
          PutLookup(withTitle, "validated_at", JNull, "article_title");
          PutLookup(value.members, "article_title", article.title.ToJson(), "article_title");
          Ok(r)
  }

  /** Every decoded key other than the two stamped ones keeps its decoded value, whatever it is. */
  lemma DecodedKeysKept(article: Article, reply: Reply, decode: Decoder, k: string)
    requires ValidateAnalysis(article, reply, decode).Ok?
    requires k != "article_title" && k != "validated_at"
    ensures Lookup(ValidateAnalysis(article, reply, decode).value, k)
      == Lookup(decode(StripFences(reply.text)).value.members, k)
  {
    var ms := decode(StripFences(reply.text)).value.members;
    var withTitle := Put(ms, "article_title", article.title.ToJson());
    PutLookup(withTitle, "validated_at", JNull, k);
    PutLookup(ms, "article_title", article.title.ToJson(), k);
  }

  /**
   * Round trip: an object whose text decodes, sent bare or inside either kind
   * of fence, comes back with every one of its own fields.
   */
  lemma FencedRecordRoundTrip(article: Article, body: string, decode: Decoder, k: string)
    requires PlainBody(body)
    requires decode(body).Some? && decode(body).value.JObj?
    requires k != "article_title" && k != "validated_at"
    ensures forall text | text in {body, JsonFenced(body), PlainFenced(body)} ::
      var r := ValidateAnalysis(article, Reply(text), decode);
      r.Ok? && Lookup(r.value, k) == Lookup(decode(body).value.members, k)
  {
    JsonFencedRoundTrip(body);
    PlainFencedRoundTrip(body);
    StrippedIffFixed(body);
    UnfencedTextIsOnlyTrimmed(body);
    forall text | text in {body, JsonFenced(body), PlainFenced(body)}
      ensures var r := ValidateAnalysis(article, Reply(text), decode);
        r.Ok? && Lookup(r.value, k) == Lookup(decode(body).value.members, k)
    {
      DecodedKeysKept(article, Reply(text), decode, k);
    }
  }
}

/**
 * The per-article result record the pipeline builds, and the counting the
 * summary and both report writers do over lists of such records.
 */
module Results {
  import opened Wrappers
  import opened Json
  import opened Articles
  import LlmValidator

  /** The `status` entry of a result. */
  datatype Status = Pending | Analyzed | AnalysisFailed | Validated | ValidationFailed

  /** What the `error` entry records: the message of the exception that was caught. */
  datatype Failure =
    | AnalysisError(message: string)
    | ValidationFailure(cause: LlmValidator.ValidationError)

  /**
   * One result dictionary. `analysis` and `validation` always exist as keys;
   * `None` here stands for the key holding Python's `None`. `error` is the one
   * key that may be missing.
   */
  datatype PipelineResult = PipelineResult(
    article: Article,
    analysis: Option<string>,
    validation: Option<seq<Member>>,
    timestamp: string,
    status: Status,
    error: Option<Failure>)

  /**
   * The shape every result has once it leaves a pipeline step: the keys that are
   * filled in are exactly the ones its status promises.
   */
  predicate WellFormed(r: PipelineResult) {
    && (r.analysis.Some? <==> r.status in {Analyzed, Validated, ValidationFailed})
    && (r.validation.Some? <==> r.status == Validated)
    && (r.error.Some? <==> r.status in {AnalysisFailed, ValidationFailed})
  }

  predicate AllWellFormed(rs: seq<PipelineResult>) {
    forall j :: 0 <= j < |rs| ==> WellFormed(rs[j])
  }

  /** Python's `sum(1 for x in xs if p(x))`. */
  function CountIf<T>(xs: seq<T>, p: T -> bool): (n: nat)
    ensures n <= |xs|
  {
    if |xs| == 0 then 0 else CountIf(xs[..|xs| - 1], p) + (if p(xs[|xs| - 1]) then 1 else 0)
  }

  lemma CountAppend<T>(xs: seq<T>, x: T, p: T -> bool)
    ensures CountIf(xs + [x], p) == CountIf(xs, p) + (if p(x) then 1 else 0)
  {
    assert (xs + [x])[..|xs|] == xs;
  }

  /** A weaker test counts at least as many elements. */
  lemma {:induction false} CountImplies<T>(xs: seq<T>, p: T -> bool, q: T -> bool)
    requires forall j :: 0 <= j < |xs| ==> p(xs[j]) ==> q(xs[j])
    ensures CountIf(xs, p) <= CountIf(xs, q)
  {
    if |xs| > 0 {
      CountImplies(xs[..|xs| - 1], p, q);
    }
  }

  /** Tests that agree on every element count the same. */
  lemma {:induction false} CountSame<T>(xs: seq<T>, p: T -> bool, q: T -> bool)
    requires forall j :: 0 <= j < |xs| ==> p(xs[j]) == q(xs[j])
    ensures CountIf(xs, p) == CountIf(xs, q)
  {
    if |xs| > 0 {
      CountSame(xs[..|xs| - 1], p, q);
    }
  }

  /** Counts of tests that never both hold add up to the count of their disjunction. */
  lemma {:induction false} CountDisjoint<T>(xs: seq<T>, p: T -> bool, q: T -> bool)
    requires forall j :: 0 <= j < |xs| ==> !(p(xs[j]) && q(xs[j]))
    ensures CountIf(xs, p) + CountIf(xs, q) == CountIf(xs, x => p(x) || q(x))
  {
    if |xs| > 0 {
      CountDisjoint(xs[..|xs| - 1], p, q);
    }
  }

  function CountStatus(rs: seq<PipelineResult>, s: Status): (n: nat)
    ensures n <= |rs|
  {
    if |rs| == 0 then 0 else CountStatus(rs[..|rs| - 1], s) + (if rs[|rs| - 1].status == s then 1 else 0)
  }

  lemma CountStatusAppend(rs: seq<PipelineResult>, r: PipelineResult, s: Status)
    ensures CountStatus(rs + [r], s) == CountStatus(rs, s) + (if r.status == s then 1 else 0)
  {
    assert (rs + [r])[..|rs|] == rs;
  }

  /** A status no result has is counted zero times. */
  lemma {:induction false} NoneWithStatus(rs: seq<PipelineResult>, s: Status)
    requires forall j :: 0 <= j < |rs| ==> rs[j].status != s
    ensures CountStatus(rs, s) == 0
  {
    if |rs| > 0 {
      NoneWithStatus(rs[..|rs| - 1], s);
    }
  }

  /** The indices of `xs` whose element passes `p`, in increasing order, every such index included. */
  function FilterPositions<T>(xs: seq<T>, p: T -> bool): (ps: seq<nat>)
    ensures |ps| == CountIf(xs, p)
    ensures forall k :: 0 <= k < |ps| ==> ps[k] < |xs| && p(xs[ps[k]])
    ensures forall k, l :: 0 <= k < l < |ps| ==> ps[k] < ps[l]
    ensures forall j :: 0 <= j < |xs| && p(xs[j]) ==> j in ps
  {
    if |xs| == 0 then []
    else
      var n := |xs| - 1;
      var front := FilterPositions(xs[..n], p);
      assert forall k :: 0 <= k < |front| ==> xs[..n][front[k]] == xs[front[k]];
      if p(xs[n]) then front + [n] else front
  }

  /** Python's `[x for x in xs if p(x)]`. */
  function Filter<T>(xs: seq<T>, p: T -> bool): (ys: seq<T>)
    ensures |ys| == CountIf(xs, p)
    ensures forall j :: 0 <= j < |ys| ==> p(ys[j]) && ys[j] in xs
  {
    if |xs| == 0 then []
    else
      var init := Filter(xs[..|xs| - 1], p);
      assert forall y | y in init :: y in xs by {
        forall y | y in init ensures y in xs {
          assert y in xs[..|xs| - 1];
        }
      }
      if p(xs[|xs| - 1]) then init + [xs[|xs| - 1]] else init
  }

  /**
   * `Filter` keeps the elements at `FilterPositions`, in that order: the
   * result is an in-order subsequence of `xs` holding exactly the elements
   * that pass.
   */
  lemma {:induction false} FilterAtPositions<T>(xs: seq<T>, p: T -> bool)
    ensures |Filter(xs, p)| == |FilterPositions(xs, p)|
    ensures forall j :: 0 <= j < |Filter(xs, p)| ==> Filter(xs, p)[j] == xs[FilterPositions(xs, p)[j]]
  {
    if |xs| > 0 {
      var n := |xs| - 1;
      FilterAtPositions(xs[..n], p);
      var front := FilterPositions(xs[..n], p);
      forall j | 0 <= j < |front| ensures xs[..n][front[j]] == xs[front[j]] {
      }
    }
  }

  /** An element that passes the test is kept. */
  lemma {:induction false} FilterKeeps<T>(xs: seq<T>, p: T -> bool, x: T)
    requires x in xs && p(x)
    ensures x in Filter(xs, p)
  {
    var n := |xs| - 1;
    if x != xs[n] {
      assert x in xs[..n] by {
        var i :| 0 <= i < |xs| && xs[i] == x;
        assert i < n;
        assert xs[..n][i] == x;
      }
      FilterKeeps(xs[..n], p, x);
    }
  }
}

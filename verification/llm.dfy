/**
 * The two generative-model endpoints as the pipeline sees them. A call either
 * returns text or raises; which one happens is supplied from outside, together
 * with the clock reading the pipeline takes around that call.
 */
module Llm {
  import opened Wrappers

  datatype Reply = Reply(text: string) | CallFailed(message: string)

  /** The reply to one call and the `get_timestamp()` value read around it. */
  datatype Attempt = Attempt(reply: Reply, stamp: string)

  /** The outcome of the n-th call made to one endpoint. */
  type Oracle = nat -> Attempt

  /**
   * `analyze_article`: the reply text becomes `analysis["analysis"]`; any
   * exception becomes an `LLMAnalysisError` carrying its message.
   */
  function AnalyzeArticle(reply: Reply): (r: Result<string, string>)
    ensures r.Ok? <==> reply.Reply?
    ensures reply.Reply? ==> r.value == reply.text
    ensures reply.CallFailed? ==> r.error == reply.message
  {
    match reply
    case Reply(text) => Ok(text)
    case CallFailed(message) => Err(message)
  }
}

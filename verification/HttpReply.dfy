/** What one POST of the retry loop makes of the server's reply, and which replies the loop therefore tries again. */
module HttpReplies {
  import opened Errors
  import opened Options
  import Retry

  /**
   `retryAfter` is the Retry-After header if it is a whole number of seconds below 2^64; `json` is the body if it arrived
   and parsed as JSON.
   */
  datatype Reply =
    | SendTimedOut
    | SendFailed
    | Reply(status: nat, retryAfter: Option<nat>, json: Option<string>)

  function PostOnce(reply: Reply): Result<string> {
    match reply
    case SendTimedOut => Err(Timeout)
    case SendFailed => Err(Http)
    case Reply(status, retryAfter, json) =>
      if status == 429 then
        Err(RateLimited(if retryAfter.Some? then (retryAfter.value * 1000) % 0x1_0000_0000_0000_0000 else 1000))
      else if json.None? then Err(Serialization)
      else if status < 200 || 300 <= status then Err(Api(status))
      else Ok(json.value)
  }

  /**
   Exactly which replies are tried again. The documentation of the loop promises it for every 5xx status; a 5xx reply
   whose body is not JSON, such as a gateway's HTML page, fails to parse before its status is looked at and is final.
   */
  lemma RetriedExactlyWhen(reply: Reply)
    ensures Retry.Retries(PostOnce(reply))
            <==> reply.SendTimedOut? || reply.SendFailed? || reply.status == 429
                 || (500 <= reply.status && reply.json.Some?)
    ensures PostOnce(reply) == Err(Timeout) <==> reply.SendTimedOut?
    ensures PostOnce(reply) == Err(Http) <==> reply.SendFailed?
  {
  }

  /** A reply in which a call with attempts left ends at once: one POST, no wait, whatever would have come next. */
  predicate Final(reply: Reply) {
    reply.Reply? && reply.status != 429 && (reply.json.None? || reply.status < 500)
  }

  lemma FinalReplyEndsTheCall(c: Retry.RetryConfig, w: Retry.World<string>, reply: Reply)
    requires !w.shutDownOnEntry && w.outcome(0) == PostOnce(reply) && Final(reply)
    ensures Retry.Call(c, w).posts == 1 && Retry.Call(c, w).waits == []
    ensures Retry.Call(c, w).result.Ok? <==> 200 <= reply.status < 300 && reply.json.Some?
    ensures Retry.Call(c, w).result.Err? ==>
              Retry.Call(c, w).result.error == if reply.json.Some? then Api(reply.status) else Serialization
  {
    RetriedExactlyWhen(reply);
  }

  /** A reply that is tried again leads to another POST, unless no retry is left or the client shuts down meanwhile. */
  lemma OtherReplyIsPostedAgain(c: Retry.RetryConfig, w: Retry.World<string>, reply: Reply)
    requires !w.shutDownOnEntry && w.outcome(0) == PostOnce(reply) && !Final(reply)
    ensures Retry.Call(c, w).posts >= 2 <==> 0 < c.maxRetries && !w.interrupted(1)
    ensures 0 < c.maxRetries ==>
              && 0 < |Retry.Call(c, w).waits|
              && (reply.Reply? && reply.status == 429 && reply.retryAfter == None ==> Retry.Call(c, w).waits[0] == 1000)
              && (reply.Reply? && reply.status == 429 && reply.retryAfter.Some?
                  && reply.retryAfter.value < 0x1_0000_0000 ==>
                    Retry.Call(c, w).waits[0] == 1000 * reply.retryAfter.value)
  {
    RetriedExactlyWhen(reply);
    if 0 < c.maxRetries {
      Retry.WaitIsAsked(c, w, 0);
    }
  }

  /** A 502 with an HTML page, and with a JSON body: the first is final, the second is tried again. */
  lemma BodyDecidesAboutServerErrors(c: Retry.RetryConfig, w: Retry.World<string>, v: Retry.World<string>)
    requires 0 < c.maxRetries && !w.shutDownOnEntry && !v.shutDownOnEntry && !v.interrupted(1)
    requires w.outcome(0) == PostOnce(Reply(502, None, None)) && v.outcome(0) == PostOnce(Reply(502, None, Some("{}")))
    ensures Retry.Call(c, w) == Retry.Trace(Err(Serialization), 1, []) && Retry.Call(c, v).posts >= 2
  {
    FinalReplyEndsTheCall(c, w, Reply(502, None, None));
    OtherReplyIsPostedAgain(c, v, Reply(502, None, Some("{}")));
  }
}

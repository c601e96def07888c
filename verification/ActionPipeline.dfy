/**
 The executor's methods as one caller runs them, in place: the nonce loop against interference, the expiry register,
 and the pipeline that signs an action and posts it with retries. `Executor` interleaves any number of such callers.
 */
module ActionPipeline {
  import opened Errors
  import opened Executor
  import opened Options
  import Retry

  /**
   One pass of the nonce loop as the environment shapes it: the clock reading, how far other callers push the nonce
   before the load and between the load and the compare-exchange, and whether the latter fails for no reason.
   */
  datatype Round = Round(now: nat, before: nat, between: nat, spurious: bool)

  predicate Loses(r: Round) {
    r.spurious || 0 < r.between
  }

  /** How far the others push the nonce in all. */
  function Pushed(rounds: seq<Round>): nat {
    if rounds == [] then 0
    else Pushed(rounds[..|rounds| - 1]) + rounds[|rounds| - 1].before + rounds[|rounds| - 1].between
  }

  /** What the transport answers: the `status` field of the JSON, "unknown" if it has none. */
  datatype Answer = Answer(status: string)

  const NOT_OK: HlError := Rejected("Exchange rejected action")

  class OrderExecutor {
    var nonce: nat
    var expiresAfter: nat
    const network: Network

    constructor (network: Network)
      ensures nonce == 0 && expiresAfter == 0 && this.network == network
    {
      nonce, expiresAfter := 0, 0;
      this.network := network;
    }

    ghost function Expiry(): Option<nat>
      reads this
    {
      ExpiryOf(expiresAfter)
    }

    /** An expiry of zero is no expiry; any other value is read back as set. */
    method SetExpiresAfter(value: Option<nat>)
      modifies this`expiresAfter
      ensures Expiry() == if value == Some(0) then None else value
    {
      expiresAfter := if value.Some? then value.value else 0;
    }

    /**
     `None` when the rounds end before the caller wins one. The winning round is the first that is not lost, and
     there the caller makes one atomic step `max(now, nonce + 1)` on the nonce as the others left it.
     */
    method NextNonce(rounds: seq<Round>) returns (next: Option<nat>, used: nat)
      modifies this`nonce
      ensures used <= |rounds|
      ensures next.Some? ==> && 0 < used && !Loses(rounds[used - 1])
                             && (forall k :: 0 <= k < used - 1 ==> Loses(rounds[k]))
                             && next.value == nonce == Max(rounds[used - 1].now, old(nonce) + Pushed(rounds[..used]) + 1)
      ensures next.None? ==> && used == |rounds| && (forall k :: 0 <= k < used ==> Loses(rounds[k]))
                             && nonce == old(nonce) + Pushed(rounds)
    {
      used := 0;
      while used < |rounds|
        invariant used <= |rounds|
        invariant forall k :: 0 <= k < used ==> Loses(rounds[k])
        invariant nonce == old(nonce) + Pushed(rounds[..used])
      {
        var r := rounds[used];
        used := used + 1;
        assert rounds[..used][..used - 1] == rounds[..used - 1];
        nonce := nonce + r.before;
        var prev := nonce;
        var candidate := Max(r.now, prev + 1);
        nonce := nonce + r.between;
        if nonce == prev && !r.spurious {
          nonce := candidate;
          return Some(candidate), used;
        }
      }
      assert rounds[..used] == rounds;
      next := None;
    }

    /**
     `posted` lists the requests that went out. `None` when no nonce was won before the rounds ended. The answer is
     the retry loop's, with an answer whose status is not "ok" turned into a rejection.
     */
    method SendSignedAction(content: string, vault: Option<string>, rounds: seq<Round>, signs: bool,
                            retry: Retry.RetryConfig, w: Retry.World<Answer>)
      returns (result: Option<Result<Answer>>, posted: seq<Body>)
      modifies this`nonce
      ensures result.Some? <==> exists k :: 0 <= k < |rounds| && !Loses(rounds[k])
      ensures forall k :: 0 <= k < |rounds| && !Loses(rounds[k]) && (forall j :: 0 <= j < k ==> Loses(rounds[j])) ==>
                nonce == Max(rounds[k].now, old(nonce) + Pushed(rounds[..k + 1]) + 1)
      ensures result.None? ==> posted == []
      ensures result.Some? && !signs ==> result.value == Err(Signing) && posted == []
      ensures result.Some? && signs ==>
                var t := Retry.Call(retry, w);
                && |posted| == t.posts
                && result.value == (if t.result.Ok? && t.result.value.status != "ok" then Err(NOT_OK) else t.result)
      ensures forall k :: 0 <= k < |posted| ==>
                var r := Decode(posted[k]);
                && SignedEqualsPosted(network, r) && r.action == Action(content, None) && r.vault == vault
                && r.nonce == nonce && r.expiresAfter == Expiry()
      ensures result.Some? ==> old(nonce) < nonce
    {
      hide BodyOf, Decode, Retry.RunFrom, Retry.AskedToWait;
      posted := [];
      var next, _ := NextNonce(rounds);
      if next.None? {
        return None, posted;
      }
      var expires := ExpiryOf(expiresAfter);
      var action := Action(content, None);
      if !signs {
        return Some(Err(Signing)), posted;
      }
      var signature := L1Signature(action, next.value, network, vault, expires);
      var payload := BuildExchangePayload(action, signature, next.value, vault, expires);
      var answer, posts, _ := Retry.PostWithRetry(retry, w);
      posted := seq(posts, _ => payload);
      if answer.Ok? && answer.value.status != "ok" {
        return Some(Err(NOT_OK)), posted;
      }
      return Some(answer), posted;
    }
  }
}

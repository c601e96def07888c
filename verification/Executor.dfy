/**
 One `OrderExecutor` shared by any number of concurrent actions: the lock-free nonce, the expiry register, signing
 and posting. Every load and compare-exchange is a step of its own, the compare-exchange may fail spuriously, and
 the wall clock may jump backwards.
 */
module Executor {
  import opened Options

  // ---------------------------------------------------------------- signatures and request bodies

  datatype Network = Mainnet | Testnet

  /** An action's JSON; a user-signed one carries its nonce in a `time` field. */
  datatype Action = Action(content: string, time: Option<nat>)

  /** A signature, idealised as a record of all that was hashed into it. */
  datatype Signature =
    | L1Signature(action: Action, nonce: nat, network: Network, vault: Option<string>, expiresAfter: Option<nat>)
    | UserSignature(action: Action, network: Network)

  datatype Json = JAction(action: Action) | JSignature(signature: Signature) | JNumber(n: nat) | JString(s: string)

  /** The top-level JSON object of an `/exchange` request. */
  type Body = map<string, Json>

  function BodyOf(action: Action, signature: Signature, nonce: nat, vault: Option<string>, expires: Option<nat>): Body {
    var always: Body := map["action" := JAction(action), "nonce" := JNumber(nonce), "signature" := JSignature(signature)];
    var withVault := if vault.Some? then always["vaultAddress" := JString(vault.value)] else always;
    if expires.Some? then withVault["expiresAfter" := JNumber(expires.value)] else withVault
  }

  method BuildExchangePayload(action: Action, signature: Signature, nonce: nat, vault: Option<string>,
                              expires: Option<nat>) returns (payload: Body)
    ensures Decode(payload) == Request(action, signature, nonce, vault, expires)
    ensures payload.Keys == {"action", "nonce", "signature"} + (if vault.Some? then {"vaultAddress"} else {})
                            + (if expires.Some? then {"expiresAfter"} else {})
    ensures payload["action"] == JAction(action) && payload["nonce"] == JNumber(nonce)
            && payload["signature"] == JSignature(signature)
    ensures vault.Some? ==> payload["vaultAddress"] == JString(vault.value)
    ensures expires.Some? ==> payload["expiresAfter"] == JNumber(expires.value)
  {
    payload := map["action" := JAction(action), "nonce" := JNumber(nonce), "signature" := JSignature(signature)];
    if vault.Some? {
      payload := payload["vaultAddress" := JString(vault.value)];
    }
    if expires.Some? {
      payload := payload["expiresAfter" := JNumber(expires.value)];
    }
    assert payload == BodyOf(action, signature, nonce, vault, expires);
    hide BodyOf, Decode;
    BodyRoundTrip(action, signature, nonce, vault, expires);
    BodyKeys(action, signature, nonce, vault, expires);
    BodyValues(action, signature, nonce, vault, expires);
  }

  /** The names on the wire: three always, two only when set. */
  lemma BodyKeys(action: Action, signature: Signature, nonce: nat, vault: Option<string>, expires: Option<nat>)
    ensures BodyOf(action, signature, nonce, vault, expires).Keys
         == {"action", "nonce", "signature"} + (if vault.Some? then {"vaultAddress"} else {})
            + (if expires.Some? then {"expiresAfter"} else {})
  {
  }

  lemma BodyValues(action: Action, signature: Signature, nonce: nat, vault: Option<string>, expires: Option<nat>)
    ensures var b := BodyOf(action, signature, nonce, vault, expires);
            && "action" in b && "nonce" in b && "signature" in b
            && b["action"] == JAction(action) && b["nonce"] == JNumber(nonce) && b["signature"] == JSignature(signature)
            && (vault.Some? ==> "vaultAddress" in b && b["vaultAddress"] == JString(vault.value))
            && (expires.Some? ==> "expiresAfter" in b && b["expiresAfter"] == JNumber(expires.value))
  {
  }

  /** What the exchange reads back from a body. */
  datatype Decoded = Malformed | Request(action: Action, signature: Signature, nonce: nat, vault: Option<string>,
                                         expiresAfter: Option<nat>)

  function Decode(b: Body): Decoded {
    if "action" in b && b["action"].JAction? && "signature" in b && b["signature"].JSignature?
       && "nonce" in b && b["nonce"].JNumber?
       && ("vaultAddress" in b ==> b["vaultAddress"].JString?) && ("expiresAfter" in b ==> b["expiresAfter"].JNumber?)
    then
      Request(b["action"].action, b["signature"].signature, b["nonce"].n,
              if "vaultAddress" in b then Some(b["vaultAddress"].s) else None,
              if "expiresAfter" in b then Some(b["expiresAfter"].n) else None)
    else Malformed
  }

  /** The body determines all five parts; an unset vault or expiry leaves no trace in it. */
  lemma BodyRoundTrip(action: Action, signature: Signature, nonce: nat, vault: Option<string>, expires: Option<nat>)
    ensures var b := BodyOf(action, signature, nonce, vault, expires);
            && Decode(b) == Request(action, signature, nonce, vault, expires)
            && |b| == 3 + (if vault.Some? then 1 else 0) + (if expires.Some? then 1 else 0)
  {
    var always: Body := map["action" := JAction(action), "nonce" := JNumber(nonce), "signature" := JSignature(signature)];
    assert |always| == 3;
  }

  // ---------------------------------------------------------------- the state machine

  /** L1 actions are signed with the vault and expiry; user-signed ones with neither, and posted without expiry. */
  datatype Kind = L1 | UserSigned

  datatype Pc =
    | ReadingClock
    | Loading(now: nat)
    | Swapping(now: nat, prev: nat)
    | HaveNonce(nonce: nat)
    | HaveExpiry(nonce: nat, expiresAfter: Option<nat>)
    | Posting(nonce: nat, body: Body)        // each POST of the retry loop happens here
    | Finished(nonce: nat)
    | FailedToSign(nonce: nat)

  /** `reading` is the task's last clock reading. */
  datatype Task = Task(kind: Kind, content: string, vault: Option<string>, reading: nat, pc: Pc)

  /** One successful compare-exchange: the caller's clock reading and the nonce it got. */
  datatype Issue = Issue(now: nat, nonce: nat)

  datatype Post = Post(task: nat, body: Body)

  /** `issued` and `winners` log the successful compare-exchanges and the tasks that made them. */
  datatype State = State(nonce: nat, expiresAfter: nat, network: Network, tasks: seq<Task>,
                         issued: seq<Issue>, winners: seq<nat>, posts: seq<Post>)

  datatype Event =
    | Start(kind: Kind, content: string, vault: Option<string>)
    | SetExpiresAfter(value: Option<nat>)
    | ReadClock(task: nat, now: nat)
    | LoadNonce(task: nat)
    | CompareExchangeWeak(task: nat, spurious: bool)
    | LoadExpiry(task: nat)
    | Sign(task: nat, ok: bool)
    | SendPost(task: nat)
    | StopPosting(task: nat)

  predicate Enabled(s: State, e: Event) {
    match e
    case Start(_, _, _) | SetExpiresAfter(_) => true
    case ReadClock(t, _) => t < |s.tasks| && s.tasks[t].pc.ReadingClock?
    case LoadNonce(t) => t < |s.tasks| && s.tasks[t].pc.Loading?
    case CompareExchangeWeak(t, _) => t < |s.tasks| && s.tasks[t].pc.Swapping?
    case LoadExpiry(t) => t < |s.tasks| && s.tasks[t].pc.HaveNonce?
    case Sign(t, _) => t < |s.tasks| && s.tasks[t].pc.HaveExpiry?
    case SendPost(t) => t < |s.tasks| && s.tasks[t].pc.Posting?
    case StopPosting(t) => t < |s.tasks| && s.tasks[t].pc.Posting?
  }

  function Max(a: nat, b: nat): nat {
    if a < b then b else a
  }

  /** `0` in the register means unset. */
  function ExpiryOf(register: nat): Option<nat> {
    if register == 0 then None else Some(register)
  }

  /** What a task signs with its nonce and the expiry it read, and the request it builds from that. */
  function SignedBody(network: Network, kind: Kind, content: string, vault: Option<string>, nonce: nat,
                      expires: Option<nat>): Body {
    match kind
    case L1 =>
      var action := Action(content, None);
      BodyOf(action, L1Signature(action, nonce, network, vault, expires), nonce, vault, expires)
    case UserSigned =>
      var action := Action(content, Some(nonce));
      BodyOf(action, UserSignature(action, network), nonce, vault, None)
  }

  function Goto(s: State, t: nat, pc: Pc): State
    requires t < |s.tasks|
  {
    s.(tasks := s.tasks[t := s.tasks[t].(pc := pc)])
  }

  function Step(s: State, e: Event): State
    requires Enabled(s, e)
  {
    match e
    case Start(kind, content, vault) => s.(tasks := s.tasks + [Task(kind, content, vault, 0, ReadingClock)])
    case SetExpiresAfter(value) => s.(expiresAfter := if value.Some? then value.value else 0)
    case ReadClock(t, now) => s.(tasks := s.tasks[t := s.tasks[t].(reading := now, pc := Loading(now))])
    case LoadNonce(t) => Goto(s, t, Swapping(s.tasks[t].pc.now, s.nonce))
    case CompareExchangeWeak(t, spurious) =>
      var (now, prev) := (s.tasks[t].pc.now, s.tasks[t].pc.prev);
      var next := Max(now, prev + 1);
      if s.nonce == prev && !spurious then
        Goto(s.(nonce := next, issued := s.issued + [Issue(now, next)], winners := s.winners + [t]), t, HaveNonce(next))
      else Goto(s, t, ReadingClock)
    case LoadExpiry(t) => Goto(s, t, HaveExpiry(s.tasks[t].pc.nonce, ExpiryOf(s.expiresAfter)))
    case Sign(t, ok) =>
      var (nonce, expires) := (s.tasks[t].pc.nonce, s.tasks[t].pc.expiresAfter);
      var body := SignedBody(s.network, s.tasks[t].kind, s.tasks[t].content, s.tasks[t].vault, nonce, expires);
      Goto(s, t, if ok then Posting(nonce, body) else FailedToSign(nonce))
    case SendPost(t) => s.(posts := s.posts + [Post(t, s.tasks[t].pc.body)])
    case StopPosting(t) => Goto(s, t, Finished(s.tasks[t].pc.nonce))
  }

  function Initial(network: Network): State {
    State(0, 0, network, [], [], [], [])
  }

  ghost predicate IsRun(s: State, es: seq<Event>)
    decreases |es|
  {
    es != [] ==> Enabled(s, es[0]) && IsRun(Step(s, es[0]), es[1..])
  }

  ghost function Run(s: State, es: seq<Event>): (s': State)
    requires IsRun(s, es)
    ensures s'.network == s.network && s.issued <= s'.issued && s.winners <= s'.winners && |s.tasks| <= |s'.tasks|
    decreases |es|
  {
    if es == [] then s else Run(Step(s, es[0]), es[1..])
  }

  // ---------------------------------------------------------------- the atomic specification of the nonce

  /** The one step a linearizable nonce counter would take per call: `s := max(now, s + 1)`. */
  function AtomicNonces(start: nat, readings: seq<nat>): seq<Issue>
    decreases |readings|
  {
    if readings == [] then []
    else
      var next := Max(readings[0], start + 1);
      [Issue(readings[0], next)] + AtomicNonces(next, readings[1..])
  }

  function Readings(issued: seq<Issue>): seq<nat> {
    seq(|issued|, i requires 0 <= i < |issued| => issued[i].now)
  }

  function LastNonce(start: nat, issued: seq<Issue>): nat {
    if issued == [] then start else issued[|issued| - 1].nonce
  }

  lemma {:induction false} AtomicAppend(start: nat, readings: seq<nat>, now: nat)
    ensures var last := LastNonce(start, AtomicNonces(start, readings));
            AtomicNonces(start, readings + [now])
            == AtomicNonces(start, readings) + [Issue(now, Max(now, last + 1))]
    decreases |readings|
  {
    if readings == [] {
      assert [now][1..] == [];
    } else {
      assert (readings + [now])[1..] == readings[1..] + [now];
      AtomicAppend(Max(readings[0], start + 1), readings[1..], now);
    }
  }

  /** Nonces of the atomic counter strictly increase, meet their own reading, and exceed the start. */
  lemma {:induction false} AtomicIncreases(start: nat, readings: seq<nat>)
    ensures var issued := AtomicNonces(start, readings);
            && |issued| == |readings|
            && (forall i :: 0 <= i < |issued| ==>
                  (issued[i].now == readings[i] && readings[i] <= issued[i].nonce && start < issued[i].nonce))
            && (forall i, j :: 0 <= i < j < |issued| ==> issued[i].nonce < issued[j].nonce)
    decreases |readings|
  {
    if readings != [] {
      var next := Max(readings[0], start + 1);
      AtomicIncreases(next, readings[1..]);
      var issued, rest := AtomicNonces(start, readings), AtomicNonces(next, readings[1..]);
      assert forall i :: 1 <= i < |issued| ==> issued[i] == rest[i - 1];
    }
  }

  /** With readings at most `top`, the k-th nonce is at most `top + k`: the counter runs ahead one per call. */
  lemma {:induction false} AtomicBound(start: nat, readings: seq<nat>, top: nat)
    requires start <= top && forall i :: 0 <= i < |readings| ==> readings[i] <= top
    ensures forall i :: 0 <= i < |AtomicNonces(start, readings)| ==> AtomicNonces(start, readings)[i].nonce <= top + i + 1
    decreases |readings|
  {
    if readings != [] {
      var next := Max(readings[0], start + 1);
      var issued, rest := AtomicNonces(start, readings), AtomicNonces(next, readings[1..]);
      assert forall i :: 0 <= i < |readings[1..]| ==> readings[1..][i] == readings[i + 1];
      AtomicBound(next, readings[1..], top + 1);
      forall i | 0 <= i < |issued|
        ensures issued[i].nonce <= top + i + 1
      {
        if 0 < i {
          assert issued[i] == rest[i - 1];
        }
      }
    }
  }

  // ---------------------------------------------------------------- the invariant

  predicate HasNonce(pc: Pc) {
    pc.HaveNonce? || pc.HaveExpiry? || pc.Posting? || pc.Finished? || pc.FailedToSign?
  }

  /** `body` is what task `t` builds from this nonce and some value of the expiry register. */
  ghost predicate Signed(network: Network, t: Task, nonce: nat, body: Body) {
    exists register: nat :: body == SignedBody(network, t.kind, t.content, t.vault, nonce, ExpiryOf(register))
  }

  ghost predicate TaskConsistent(network: Network, nonce: nat, t: Task) {
    && (HasNonce(t.pc) ==> 0 < t.pc.nonce <= nonce)
    && (t.pc.HaveExpiry? ==> exists register: nat :: t.pc.expiresAfter == ExpiryOf(register))
    && (t.pc.Posting? ==> Signed(network, t, t.pc.nonce, t.pc.body))
  }

  /** A recorded POST carries what its task signed with the nonce it still holds. */
  ghost predicate PostConsistent(network: Network, t: Task, body: Body) {
    && (t.pc.Posting? || t.pc.Finished?)
    && Signed(network, t, t.pc.nonce, body)
    && (t.pc.Posting? ==> t.pc.body == body)
  }

  ghost predicate PostsConsistent(s: State) {
    forall k :: 0 <= k < |s.posts| ==>
      s.posts[k].task < |s.tasks| && PostConsistent(s.network, s.tasks[s.posts[k].task], s.posts[k].body)
  }

  ghost predicate Inv(s: State) {
    && s.issued == AtomicNonces(0, Readings(s.issued))
    && s.nonce == LastNonce(0, s.issued)
    && (forall i :: 0 <= i < |s.tasks| ==> TaskConsistent(s.network, s.nonce, s.tasks[i]))
    && (forall i, j :: 0 <= i < j < |s.tasks| && HasNonce(s.tasks[i].pc) && HasNonce(s.tasks[j].pc)
          ==> s.tasks[i].pc.nonce != s.tasks[j].pc.nonce)
    && PostsConsistent(s)
    && (forall k, l :: 0 <= k < l < |s.posts| && s.posts[k].task == s.posts[l].task
          ==> s.posts[k].body == s.posts[l].body)
  }

  /** The refinement: a successful compare-exchange is one atomic step, and every other step leaves the log alone. */
  lemma StepRefinesAtomicCounter(s: State, e: Event)
    requires s.issued == AtomicNonces(0, Readings(s.issued)) && s.nonce == LastNonce(0, s.issued) && Enabled(s, e)
    ensures var s' := Step(s, e);
            && (s'.issued != s.issued ==> e.CompareExchangeWeak?)
            && s'.issued == AtomicNonces(0, Readings(s'.issued)) && s'.nonce == LastNonce(0, s'.issued)
            && (s'.issued == s.issued
                || s'.issued == s.issued + [Issue(s.tasks[e.task].pc.now, Max(s.tasks[e.task].pc.now, s.nonce + 1))])
  {
    var s' := Step(s, e);
    if s'.issued != s.issued {
      var now := s.tasks[e.task].pc.now;
      assert s'.issued == s.issued + [Issue(now, Max(now, s.nonce + 1))];
      assert Readings(s'.issued) == Readings(s.issued) + [now];
      AtomicAppend(0, Readings(s.issued), now);
    }
  }

  lemma StepKeepsTasks(s: State, e: Event)
    requires Inv(s) && Enabled(s, e)
    ensures var s' := Step(s, e);
            && (forall i :: 0 <= i < |s'.tasks| ==> TaskConsistent(s'.network, s'.nonce, s'.tasks[i]))
            && (forall i, j :: 0 <= i < j < |s'.tasks| && HasNonce(s'.tasks[i].pc) && HasNonce(s'.tasks[j].pc)
                  ==> s'.tasks[i].pc.nonce != s'.tasks[j].pc.nonce)
  {
    var s' := Step(s, e);
    assert s.nonce <= s'.nonce;
    forall i | 0 <= i < |s'.tasks|
      ensures TaskConsistent(s'.network, s'.nonce, s'.tasks[i])
    {
      if i < |s.tasks| {
        assert TaskConsistent(s.network, s.nonce, s.tasks[i]);
      }
    }
  }

  /** Task `i` won the compare-exchange of entry `k`, with its own clock reading and the nonce it holds. */
  predicate Holds(s: State, i: nat, k: nat)
    requires i < |s.tasks| && k < |s.issued| && |s.winners| == |s.issued|
  {
    s.winners[k] == i && HasNonce(s.tasks[i].pc) && s.issued[k] == Issue(s.tasks[i].reading, s.tasks[i].pc.nonce)
  }

  ghost predicate LogMatchesTasks(s: State) {
    && |s.winners| == |s.issued|
    && (forall k :: 0 <= k < |s.issued| ==> s.winners[k] < |s.tasks| && Holds(s, s.winners[k], k))
    && (forall i :: 0 <= i < |s.tasks| && HasNonce(s.tasks[i].pc) ==> i in s.winners)
    && (forall i :: 0 <= i < |s.tasks| && (s.tasks[i].pc.Loading? || s.tasks[i].pc.Swapping?)
          ==> s.tasks[i].pc.now == s.tasks[i].reading)
  }

  lemma StepKeepsLog(s: State, e: Event)
    requires LogMatchesTasks(s) && Enabled(s, e)
    ensures LogMatchesTasks(Step(s, e))
  {
    var s' := Step(s, e);
    forall k | 0 <= k < |s'.issued|
      ensures s'.winners[k] < |s'.tasks| && Holds(s', s'.winners[k], k)
    {
      if k < |s.issued| {
        assert Holds(s, s.winners[k], k);
      }
    }
    if s'.winners != s.winners {
      assert s'.winners[|s.winners|] == e.task;
      assert forall i :: i in s.winners ==> i in s'.winners;
    }
  }

  lemma {:induction false} RunKeepsLog(s: State, es: seq<Event>)
    requires LogMatchesTasks(s) && IsRun(s, es)
    ensures LogMatchesTasks(Run(s, es))
    decreases |es|
  {
    if es != [] {
      StepKeepsLog(s, es[0]);
      RunKeepsLog(Step(s, es[0]), es[1..]);
    }
  }

  /** Task `i` holds one entry of the log, and no other. */
  ghost predicate HoldsOneEntry(s: State, i: nat)
    requires i < |s.tasks| && |s.winners| == |s.issued|
  {
    exists k :: 0 <= k < |s.issued| && Holds(s, i, k) && forall l :: 0 <= l < |s.issued| && s.winners[l] == i ==> l == k
  }

  lemma StepKeepsPosts(s: State, e: Event)
    requires Inv(s) && Enabled(s, e)
    ensures var s' := Step(s, e);
            && PostsConsistent(s')
            && (forall k, l :: 0 <= k < l < |s'.posts| && s'.posts[k].task == s'.posts[l].task
                  ==> s'.posts[k].body == s'.posts[l].body)
  {
    var s' := Step(s, e);
    forall k | 0 <= k < |s'.posts|
      ensures var p := s'.posts[k];
              p.task < |s'.tasks| && PostConsistent(s'.network, s'.tasks[p.task], p.body)
    {
      if k < |s.posts| {
        assert PostConsistent(s.network, s.tasks[s.posts[k].task], s.posts[k].body);
      } else {
        assert TaskConsistent(s.network, s.nonce, s.tasks[e.task]);
      }
    }
    if e.SendPost? {
      forall k | 0 <= k < |s.posts| && s.posts[k].task == e.task
        ensures s.posts[k].body == s'.posts[|s.posts|].body
      {
        assert PostConsistent(s.network, s.tasks[s.posts[k].task], s.posts[k].body);
      }
    }
  }

  lemma {:induction false} RunInv(s: State, es: seq<Event>)
    requires Inv(s) && IsRun(s, es)
    ensures Inv(Run(s, es))
    decreases |es|
  {
    if es != [] {
      StepRefinesAtomicCounter(s, es[0]);
      StepKeepsTasks(s, es[0]);
      StepKeepsPosts(s, es[0]);
      RunInv(Step(s, es[0]), es[1..]);
    }
  }

  // ---------------------------------------------------------------- what every run keeps

  /**
   Linearizability of `next_nonce`: for any number of callers, any clock and any spurious failures, the nonces in
   compare-exchange order are those of the atomic counter. Hence they strictly increase, each is at least its
   caller's own clock reading, and after k calls none exceeds the largest reading by more than k. Each caller that has
   a nonce holds exactly one entry, made from its own clock reading, and each entry is held by such a caller.
   */
  lemma NonceLinearizability(network: Network, es: seq<Event>, top: nat)
    requires IsRun(Initial(network), es)
    requires forall i :: 0 <= i < |es| && es[i].ReadClock? ==> es[i].now <= top
    ensures var s := Run(Initial(network), es);
            && s.issued == AtomicNonces(0, Readings(s.issued))
            && (forall i, j :: 0 <= i < j < |s.issued| ==> s.issued[i].nonce < s.issued[j].nonce)
            && (forall i :: 0 <= i < |s.issued| ==> s.issued[i].now <= s.issued[i].nonce <= top + i + 1)
            && s.nonce <= top + |s.issued|
            && |s.winners| == |s.issued|
            && (forall i :: 0 <= i < |s.tasks| && HasNonce(s.tasks[i].pc) ==> HoldsOneEntry(s, i))
            && (forall k :: 0 <= k < |s.issued| ==> s.winners[k] < |s.tasks| && Holds(s, s.winners[k], k))
  {
    hide Inv;
    RunIsAtomic(network, es);
    RunKeepsLog(Initial(network), es);
    ReadingsAreClockEvents(Initial(network), es, top);
    var s := Run(Initial(network), es);
    AtomicIncreases(0, Readings(s.issued));
    AtomicBound(0, Readings(s.issued), top);
    forall i | 0 <= i < |s.tasks| && HasNonce(s.tasks[i].pc)
      ensures HoldsOneEntry(s, i)
    {
      EntryIsUnique(s, i);
    }
  }

  /**
   And the counter respects real time: whoever has a nonce at some point of a run keeps it, and it is smaller than every
   nonce obtained after that point, in particular by any call that started only then.
   */
  lemma NoncesFollowRealTime(network: Network, before: seq<Event>, after: seq<Event>, i: nat, j: nat)
    requires IsRun(Initial(network), before) && IsRun(Run(Initial(network), before), after)
    requires i < |Run(Initial(network), before).tasks| && HasNonce(Run(Initial(network), before).tasks[i].pc)
    requires j < |Run(Run(Initial(network), before), after).tasks|
    requires HasNonce(Run(Run(Initial(network), before), after).tasks[j].pc)
    requires j < |Run(Initial(network), before).tasks| ==> !HasNonce(Run(Initial(network), before).tasks[j].pc)
    ensures var (early, late) := (Run(Initial(network), before), Run(Run(Initial(network), before), after));
            && HasNonce(late.tasks[i].pc) && late.tasks[i].pc.nonce == early.tasks[i].pc.nonce
            && early.tasks[i].pc.nonce < late.tasks[j].pc.nonce
  {
    hide Inv;
    var early := Run(Initial(network), before);
    var late := Run(early, after);
    RunKeepsLog(Initial(network), before);
    RunKeepsLog(early, after);
    RunIsAtomicFrom(network, before, after);
    AtomicIncreases(0, Readings(late.issued));
    var k: nat :| k < |early.winners| && early.winners[k] == i;
    assert Holds(early, i, k) && late.winners[k] == i && Holds(late, i, k);
    var l: nat :| l < |late.winners| && late.winners[l] == j;
    assert Holds(late, j, l);
    assert |early.winners| <= l;
  }

  lemma RunIsAtomicFrom(network: Network, before: seq<Event>, after: seq<Event>)
    requires IsRun(Initial(network), before) && IsRun(Run(Initial(network), before), after)
    ensures var s := Run(Run(Initial(network), before), after); s.issued == AtomicNonces(0, Readings(s.issued))
  {
    RunInv(Initial(network), before);
    RunInv(Run(Initial(network), before), after);
  }

  lemma RunIsAtomic(network: Network, es: seq<Event>)
    requires IsRun(Initial(network), es)
    ensures var s := Run(Initial(network), es);
            s.issued == AtomicNonces(0, Readings(s.issued)) && s.nonce == LastNonce(0, s.issued)
  {
    RunInv(Initial(network), es);
  }

  lemma EntryIsUnique(s: State, i: nat)
    requires LogMatchesTasks(s) && i < |s.tasks| && HasNonce(s.tasks[i].pc)
    requires forall k, l :: 0 <= k < l < |s.issued| ==> s.issued[k].nonce < s.issued[l].nonce
    ensures HoldsOneEntry(s, i)
  {
    var k :| 0 <= k < |s.winners| && s.winners[k] == i;
    assert Holds(s, i, k);
    forall l | 0 <= l < |s.issued| && s.winners[l] == i
      ensures l == k
    {
      assert Holds(s, i, l);
    }
  }

  ghost predicate ReadingsUpTo(s: State, top: nat) {
    && (forall i :: 0 <= i < |s.tasks| && (s.tasks[i].pc.Loading? || s.tasks[i].pc.Swapping?) ==> s.tasks[i].pc.now <= top)
    && (forall i :: 0 <= i < |s.issued| ==> s.issued[i].now <= top)
  }

  lemma {:induction false} ReadingsAreClockEvents(s: State, es: seq<Event>, top: nat)
    requires IsRun(s, es) && ReadingsUpTo(s, top)
    requires forall i :: 0 <= i < |es| && es[i].ReadClock? ==> es[i].now <= top
    ensures ReadingsUpTo(Run(s, es), top)
    decreases |es|
  {
    if es != [] {
      assert forall i :: 0 <= i < |es[1..]| ==> es[1..][i] == es[i + 1];
      ReadingsAreClockEvents(Step(s, es[0]), es[1..], top);
    }
  }

  /** An L1 request is coherent: the signature covers exactly the action, nonce, vault and expiry sent beside it. */
  predicate SignedEqualsPosted(network: Network, r: Decoded) {
    r.Request? && r.signature == L1Signature(r.action, r.nonce, network, r.vault, r.expiresAfter)
    && r.expiresAfter != Some(0)
  }

  /** A user-signed request covers its nonce through the action's `time` field and never carries an expiry. */
  predicate UserRequestCoherent(network: Network, r: Decoded) {
    r.Request? && r.action.time == Some(r.nonce) && r.signature == UserSignature(r.action, network)
    && r.expiresAfter == None
  }

  /**
   Signed equals posted, in every interleaving with `set_expires_after`. Each POST of an L1 action carries the very
   action, nonce, vault and expiry that its signature covers; all POSTs of one action are the same request; and two
   different actions of the executor, of either kind, never share a nonce.
   */
  lemma SignedEqualsPostedInEveryRun(network: Network, es: seq<Event>)
    requires IsRun(Initial(network), es)
    ensures var s := Run(Initial(network), es);
            && (forall k :: 0 <= k < |s.posts| ==>
                  (s.posts[k].task < |s.tasks|
                   && (var (t, r) := (s.tasks[s.posts[k].task], Decode(s.posts[k].body));
                       && r.Request? && r.action.content == t.content && r.vault == t.vault
                       && (if t.kind.L1? then SignedEqualsPosted(network, r) else UserRequestCoherent(network, r)))))
            && (forall k, l :: 0 <= k < |s.posts| && 0 <= l < |s.posts| ==>
                  (if s.posts[k].task == s.posts[l].task then s.posts[k].body == s.posts[l].body
                   else Nonce(s.posts[k].body) != Nonce(s.posts[l].body)))
  {
    RunInv(Initial(network), es);
    var s := Run(Initial(network), es);
    forall k | 0 <= k < |s.posts|
      ensures var (t, r) := (s.tasks[s.posts[k].task], Decode(s.posts[k].body));
              && r.Request? && r.action.content == t.content && r.vault == t.vault && r.nonce == t.pc.nonce
              && (if t.kind.L1? then SignedEqualsPosted(network, r) else UserRequestCoherent(network, r))
    {
      PostIsCoherent(network, s.tasks[s.posts[k].task], s.posts[k].body);
    }
  }

  // ---------------------------------------------------------------- one action at a time

  /** The exchange is won exactly when nobody was faster and it did not fail by itself; a loser reads the clock anew. */
  lemma ExchangeWinsExactlyWhen(s: State, t: nat, spurious: bool)
    requires Enabled(s, CompareExchangeWeak(t, spurious))
    ensures var s' := Step(s, CompareExchangeWeak(t, spurious));
            && (|s'.issued| == |s.issued| + 1 <==> s.nonce == s.tasks[t].pc.prev && !spurious)
            && (|s'.issued| != |s.issued| + 1 ==>
                  s'.issued == s.issued && s'.nonce == s.nonce && s'.tasks[t].pc == ReadingClock)
  {
  }

  lemma Extend(s: State, es: seq<Event>, e: Event)
    requires IsRun(s, es) && Enabled(Run(s, es), e)
    ensures IsRun(s, es + [e]) && Run(s, es + [e]) == Step(Run(s, es), e)
    decreases |es|
  {
    if es == [] {
      assert [] + [e] == [e] && [e][1..] == [];
      assert Run(Step(s, e), []) == Step(s, e);
    } else {
      assert (es + [e])[0] == es[0] && (es + [e])[1..] == es[1..] + [e];
      Extend(Step(s, es[0]), es[1..], e);
    }
  }

  /** A new action, left alone, takes one atomic step on the nonce and reads the current expiry. */
  lemma PrepareAction(s: State, kind: Kind, content: string, vault: Option<string>, now: nat) returns (es: seq<Event>)
    ensures IsRun(s, es)
    ensures var (t, next) := (|s.tasks|, Max(now, s.nonce + 1));
            Run(s, es) == s.(tasks := s.tasks + [Task(kind, content, vault, now, HaveExpiry(next, ExpiryOf(s.expiresAfter)))],
                             nonce := next, issued := s.issued + [Issue(now, next)], winners := s.winners + [t])
  {
    var (t, next) := (|s.tasks|, Max(now, s.nonce + 1));
    es := [];
    Extend(s, es, Start(kind, content, vault));
    es := es + [Start(kind, content, vault)];
    Extend(s, es, ReadClock(t, now));
    es := es + [ReadClock(t, now)];
    assert Run(s, es) == s.(tasks := s.tasks + [Task(kind, content, vault, now, Loading(now))]);
    Extend(s, es, LoadNonce(t));
    es := es + [LoadNonce(t)];
    assert Run(s, es) == s.(tasks := s.tasks + [Task(kind, content, vault, now, Swapping(now, s.nonce))]);
    Extend(s, es, CompareExchangeWeak(t, false));
    es := es + [CompareExchangeWeak(t, false)];
    assert Run(s, es) == s.(tasks := s.tasks + [Task(kind, content, vault, now, HaveNonce(next))],
                            nonce := next, issued := s.issued + [Issue(now, next)], winners := s.winners + [t]);
    Extend(s, es, LoadExpiry(t));
    es := es + [LoadExpiry(t)];
  }

  lemma {:induction false} PostSeveral(s: State, t: nat, n: nat) returns (es: seq<Event>, posts: seq<Post>)
    requires t < |s.tasks| && s.tasks[t].pc.Posting?
    ensures IsRun(s, es) && Run(s, es) == s.(posts := s.posts + posts)
    ensures |posts| == n && forall k :: 0 <= k < n ==> posts[k] == Post(t, s.tasks[t].pc.body)
    decreases n
  {
    es, posts := [], [];
    if 0 < n {
      es, posts := PostSeveral(s, t, n - 1);
      Extend(s, es, SendPost(t));
      es, posts := es + [SendPost(t)], posts + [Post(t, s.tasks[t].pc.body)];
    }
  }

  /**
   From any state an action, left alone and signed, can be posted any number of times; each time with the next nonce of
   the atomic counter and, for an L1 action, the expiry set at that moment. If signing fails it stops there.
   */
  lemma AnyActionCanBePosted(s: State, kind: Kind, content: string, vault: Option<string>, now: nat, n: nat)
    returns (es: seq<Event>, failed: seq<Event>)
    ensures IsRun(s, es)
    ensures var s' := Run(s, es);
            && |s'.posts| == |s.posts| + n
            && forall k :: |s.posts| <= k < |s'.posts| ==>
                 var r := Decode(s'.posts[k].body);
                 && s'.posts[k].task == |s.tasks|
                 && r.Request? && r.action.content == content && r.vault == vault && r.nonce == Max(now, s.nonce + 1)
                 && r.expiresAfter == if kind.L1? then ExpiryOf(s.expiresAfter) else None
    ensures IsRun(s, failed) && |Run(s, failed).tasks| == |s.tasks| + 1
    ensures Run(s, failed).tasks[|s.tasks|].pc == FailedToSign(Max(now, s.nonce + 1)) && Run(s, failed).posts == s.posts
  {
    var (t, next) := (|s.tasks|, Max(now, s.nonce + 1));
    var prefix := PrepareAction(s, kind, content, vault, now);
    Extend(s, prefix, Sign(t, false));
    failed := prefix + [Sign(t, false)];
    Extend(s, prefix, Sign(t, true));
    es := prefix + [Sign(t, true)];
    var s1 := Run(s, es);
    var more, posts := PostSeveral(s1, t, n);
    RunConcat(s, es, more);
    es := es + more;
    var (x, plain, timed) := (ExpiryOf(s.expiresAfter), Action(content, None), Action(content, Some(next)));
    BodyRoundTrip(plain, L1Signature(plain, next, s.network, vault, x), next, vault, x);
    BodyRoundTrip(timed, UserSignature(timed, s.network), next, vault, None);
  }

  lemma {:induction false} RunConcat(s: State, a: seq<Event>, b: seq<Event>)
    requires IsRun(s, a) && IsRun(Run(s, a), b)
    ensures IsRun(s, a + b) && Run(s, a + b) == Run(Run(s, a), b)
    decreases |a|
  {
    if a == [] {
      assert a + b == b;
    } else {
      assert (a + b)[0] == a[0] && (a + b)[1..] == a[1..] + b;
      RunConcat(Step(s, a[0]), a[1..], b);
    }
  }

  /** An action that failed to sign is never posted, whatever happens afterwards. */
  lemma {:induction false} UnsignedIsNeverPosted(s: State, es: seq<Event>, t: nat)
    requires IsRun(s, es) && t < |s.tasks| && s.tasks[t].pc.FailedToSign?
    requires forall k :: 0 <= k < |s.posts| ==> s.posts[k].task != t
    ensures forall k :: 0 <= k < |Run(s, es).posts| ==> Run(s, es).posts[k].task != t
    decreases |es|
  {
    if es != [] {
      UnsignedIsNeverPosted(Step(s, es[0]), es[1..], t);
    }
  }

  // ---------------------------------------------------------------- which expiry is posted

  /** The value of the last `set_expires_after` among the events, `None` if there was none or it was zero. */
  function LastSet(es: seq<Event>): Option<nat> {
    if es == [] then None
    else
      var e := es[|es| - 1];
      if e.SetExpiresAfter? then (if e.value == Some(0) then None else e.value) else LastSet(es[..|es| - 1])
  }

  lemma {:induction false} RunSplit(s: State, a: seq<Event>, b: seq<Event>)
    requires IsRun(s, a + b)
    ensures IsRun(s, a) && IsRun(Run(s, a), b) && Run(s, a + b) == Run(Run(s, a), b)
    decreases |a|
  {
    if a == [] {
      assert a + b == b;
    } else {
      assert (a + b)[0] == a[0] && (a + b)[1..] == a[1..] + b;
      RunSplit(Step(s, a[0]), a[1..], b);
    }
  }

  /** The register holds what was set last. */
  lemma {:induction false} RegisterIsLastSet(network: Network, es: seq<Event>)
    requires IsRun(Initial(network), es)
    ensures ExpiryOf(Run(Initial(network), es).expiresAfter) == LastSet(es)
    decreases |es|
  {
    if es != [] {
      var (before, e) := (es[..|es| - 1], es[|es| - 1]);
      assert es == before + [e];
      RunSplit(Initial(network), before, [e]);
      RegisterIsLastSet(network, before);
      var s := Run(Initial(network), before);
      assert [e][1..] == [] && Run(s, [e]) == Run(Step(s, e), []) == Step(s, e);
    }
  }

  /** From the moment task `t` has read the expiry `x`: it signs and posts with that one. */
  ghost predicate Carries(s: State, t: nat, x: Option<nat>) {
    && t < |s.tasks|
    && (s.tasks[t].pc.HaveExpiry? || s.tasks[t].pc.Posting? || s.tasks[t].pc.Finished? || s.tasks[t].pc.FailedToSign?)
    && (s.tasks[t].pc.HaveExpiry? ==> s.tasks[t].pc.expiresAfter == x)
    && (s.tasks[t].pc.Posting? ==> BodyWith(s, t, s.tasks[t].pc.body, x))
    && (forall k :: 0 <= k < |s.posts| && s.posts[k].task == t ==> BodyWith(s, t, s.posts[k].body, x))
  }

  predicate BodyWith(s: State, t: nat, body: Body, x: Option<nat>)
    requires t < |s.tasks|
  {
    HasNonce(s.tasks[t].pc)
    && body == SignedBody(s.network, s.tasks[t].kind, s.tasks[t].content, s.tasks[t].vault, s.tasks[t].pc.nonce, x)
  }

  lemma StepCarries(s: State, e: Event, t: nat, x: Option<nat>)
    requires Carries(s, t, x) && Enabled(s, e)
    ensures Carries(Step(s, e), t, x) && Step(s, e).tasks[t].kind == s.tasks[t].kind
  {
    hide SignedBody;
    var s' := Step(s, e);
    forall k | 0 <= k < |s'.posts| && s'.posts[k].task == t
      ensures BodyWith(s', t, s'.posts[k].body, x)
    {
      if k < |s.posts| {
        assert BodyWith(s, t, s.posts[k].body, x);
      }
    }
  }

  lemma {:induction false} RunCarries(s: State, es: seq<Event>, t: nat, x: Option<nat>)
    requires Carries(s, t, x) && IsRun(s, es)
    ensures Carries(Run(s, es), t, x) && Run(s, es).tasks[t].kind == s.tasks[t].kind
    decreases |es|
  {
    hide Carries;
    if es != [] {
      CarriesTask(s, t, x);
      StepCarries(s, es[0], t, x);
      CarriesTask(Step(s, es[0]), t, x);
      RunCarries(Step(s, es[0]), es[1..], t, x);
    }
  }

  lemma CarriesTask(s: State, t: nat, x: Option<nat>)
    requires Carries(s, t, x)
    ensures t < |s.tasks|
  {
  }

  /**
   Which expiry an L1 action is posted with, in every interleaving: the last one set before the task read the register,
   whatever is set afterwards.
   */
  lemma PostedExpiryIsTheOneRead(network: Network, before: seq<Event>, t: nat, after: seq<Event>)
    requires IsRun(Initial(network), before) && Enabled(Run(Initial(network), before), LoadExpiry(t))
    requires IsRun(Step(Run(Initial(network), before), LoadExpiry(t)), after)
    ensures var s := Run(Step(Run(Initial(network), before), LoadExpiry(t)), after);
            t < |s.tasks| && forall k :: 0 <= k < |s.posts| && s.posts[k].task == t && s.tasks[t].kind.L1? ==>
              Decode(s.posts[k].body).Request? && Decode(s.posts[k].body).expiresAfter == LastSet(before)
  {
    RunInv(Initial(network), before);
    RegisterIsLastSet(network, before);
    var s0 := Run(Initial(network), before);
    var (s1, x) := (Step(s0, LoadExpiry(t)), LastSet(before));
    NotYetPosted(s0, t);
    RunCarries(s1, after, t, x);
    var s := Run(s1, after);
    CarriesTask(s, t, x);
    forall k | 0 <= k < |s.posts| && s.posts[k].task == t && s.tasks[t].kind.L1?
      ensures Decode(s.posts[k].body).Request? && Decode(s.posts[k].body).expiresAfter == x
    {
      assert BodyWith(s, t, s.posts[k].body, x);
      var (task, action) := (s.tasks[t], Action(s.tasks[t].content, None));
      BodyRoundTrip(action, L1Signature(action, task.pc.nonce, network, task.vault, x), task.pc.nonce, task.vault, x);
    }
  }

  lemma NotYetPosted(s: State, t: nat)
    requires Inv(s) && t < |s.tasks| && s.tasks[t].pc.HaveNonce?
    ensures forall k :: 0 <= k < |s.posts| ==> s.posts[k].task != t
  {
    forall k | 0 <= k < |s.posts|
      ensures s.posts[k].task != t
    {
      assert PostConsistent(s.network, s.tasks[s.posts[k].task], s.posts[k].body);
    }
  }

  function Nonce(b: Body): nat {
    if Decode(b).Request? then Decode(b).nonce else 0
  }

  lemma PostIsCoherent(network: Network, t: Task, body: Body)
    requires PostConsistent(network, t, body)
    ensures var r := Decode(body);
            && r.Request? && r.action.content == t.content && r.vault == t.vault && r.nonce == t.pc.nonce
            && (if t.kind.L1? then SignedEqualsPosted(network, r) else UserRequestCoherent(network, r))
  {
    var register: nat :| body == SignedBody(network, t.kind, t.content, t.vault, t.pc.nonce, ExpiryOf(register));
    var (nonce, expires) := (t.pc.nonce, ExpiryOf(register));
    var (plain, timed) := (Action(t.content, None), Action(t.content, Some(nonce)));
    BodyRoundTrip(plain, L1Signature(plain, nonce, network, t.vault, expires), nonce, t.vault, expires);
    BodyRoundTrip(timed, UserSignature(timed, network), nonce, t.vault, None);
  }
}

/** What the WebSocket client guarantees over every run, and the point up to which it does. */
module WsGuarantees {
  import opened Arithmetic
  import opened Errors
  import opened WsSession
  import Retry

  // ---------------------------------------------------------------- the session invariant

  ghost predicate Subsequence(a: seq<Message>, b: seq<Message>)
    decreases |b|
  {
    if a == [] then true
    else if b == [] then false
    else
      var (a', b') := (a[..|a| - 1], b[..|b| - 1]);
      (a[|a| - 1] == b[|b| - 1] && Subsequence(a', b')) || Subsequence(a, b')
  }

  ghost predicate Inv(ws: Ws) {
    && (ws.stream.Connected? <==> ws.heartbeat)
    && 1_000 <= ws.reconnectDelayMs <= 30_000
    && (ws.stream.Connected? ==> Subsequence(ws.stream.sent, ws.subscriptions))
  }

  /** The socket, if there is one, knows every subscription. */
  predicate FullySubscribed(ws: Ws) {
    ws.stream.Connected? ==> ws.stream.sent == ws.subscriptions
  }

  lemma AppendKeepsSubsequence(a: seq<Message>, b: seq<Message>, m: Message)
    requires Subsequence(a, b)
    ensures Subsequence(a, b + [m]) && Subsequence(a + [m], b + [m])
  {
    assert (b + [m])[..|b|] == b && (a + [m])[..|a|] == a;
  }

  lemma {:induction false} PrefixIsSubsequence(b: seq<Message>, k: nat)
    requires k <= |b|
    ensures Subsequence(b[..k], b)
    decreases |b|
  {
    if b != [] {
      var b' := b[..|b| - 1];
      if k == |b| {
        PrefixIsSubsequence(b', k - 1);
        assert b[..k][..k - 1] == b'[..k - 1];
      } else {
        PrefixIsSubsequence(b', k);
        assert b[..k] == b'[..k];
      }
    }
  }

  // ---------------------------------------------------------------- connecting

  /** Re-sending delivers a prefix of the subscriptions, and all of them exactly when it succeeds. */
  lemma {:induction false} ResendDelivers(ws: Ws, i: nat, script: Script) returns (k: nat)
    requires i <= |ws.subscriptions| && ws.stream == Connected(ws.subscriptions[..i])
    ensures i <= k <= |ws.subscriptions|
    ensures var e := Resend(ws, ws.subscriptions, i, script);
            && e.ws == ws.(stream := Connected(ws.subscriptions[..k]))
            && (e.out == Done(Ok(())) <==> k == |ws.subscriptions|)
            && (e.out.Done? ==> e.out == Done(Ok(())) || e.out == Done(SEND_FAILED))
    decreases |ws.subscriptions| - i
  {
    k := i;
    if i < |ws.subscriptions| {
      var e := SendRaw(ws, ws.subscriptions[i], script);
      assert ws.subscriptions[..i + 1] == ws.subscriptions[..i] + [ws.subscriptions[i]];
      if e.out == Done(Ok(())) {
        k := ResendDelivers(e.ws, i + 1, e.rest);
      }
    }
  }

  /**
   `connect`: a failed handshake changes nothing. Otherwise the old socket is gone, the backoff is reset and the new
   socket holds a prefix of the subscriptions, all of them exactly when the call returns Ok.
   */
  lemma ConnectOutcome(ws: Ws, script: Script)
    ensures var e := Connect(ws, script);
            if script == [] || !script[0].ok then e.ws == ws && e.out != Done(Ok(()))
            else
              && e.ws.stream.Connected? && e.ws.stream.sent <= ws.subscriptions
              && e.ws == Ws(e.ws.stream, ws.subscriptions, BASE_DELAY_MS, true)
              && (e.out == Done(Ok(())) <==> FullySubscribed(e.ws))
    ensures Inv(ws) ==> Inv(Connect(ws, script).ws)
  {
    if script != [] && script[0].ok {
      var onOpen := ws.(stream := Connected([]), reconnectDelayMs := BASE_DELAY_MS, heartbeat := true);
      assert ws.subscriptions[..0] == [];
      var k := ResendDelivers(onOpen, 0, script[1..]);
      PrefixIsSubsequence(ws.subscriptions, k);
    }
  }

  // ---------------------------------------------------------------- backoff

  /** Doubling `k` times under the cap. */
  function DelayAfter(ms: nat, k: nat): nat
    decreases k
  {
    if k == 0 then ms else DelayAfter(NextDelay(ms), k - 1)
  }

  /** Capping the first doubling does not show in the capped product. */
  lemma CapBeforeOrAfter(ms: nat, p: nat)
    ensures 0 < p ==> Min(NextDelay(ms) * p, MAX_DELAY_MS) == Min(ms * 2 * p, MAX_DELAY_MS)
  {
    if 0 < p && ms * 2 > MAX_DELAY_MS {
      MulMono(1, p, MAX_DELAY_MS);
      MulMono(MAX_DELAY_MS, ms * 2, p);
    }
  }

  lemma {:induction false} DelayAfterIsCappedPower(ms: nat, k: nat)
    requires 0 < ms <= MAX_DELAY_MS
    ensures DelayAfter(ms, k) == Min(ms * Retry.Pow(2, k), MAX_DELAY_MS)
    decreases k
  {
    if k > 0 {
      DelayAfterIsCappedPower(NextDelay(ms), k - 1);
      CapBeforeOrAfter(ms, Retry.Pow(2, k - 1));
      Retry.PowMono(2, 0, k - 1);
      assert Retry.Pow(2, k) == 2 * Retry.Pow(2, k - 1);
      Regroup(ms, Retry.Pow(2, k - 1));
    }
  }

  lemma Regroup(ms: nat, p: nat)
    ensures ms * (2 * p) == ms * 2 * p
  {
  }

  /** The script makes the next `k` sleeps run out and the handshakes after them fail, with nothing cancelled. */
  ghost predicate HandshakesFail(script: Script, k: nat) {
    && 2 * k <= |script|
    && forall j :: 0 <= j < 2 * k ==> !script[j].cancelled && !script[j].cancelWins && (j % 2 == 1 ==> !script[j].ok)
  }

  lemma OneFailureDoubles(ws: Ws, cfg: WsConfig, attempts: nat, script: Script)
    requires HandshakesFail(script, 1)
    requires cfg.maxReconnectAttempts.Max? ==> attempts < cfg.maxReconnectAttempts.n
    ensures var r := Reconnect(ws, cfg, attempts, script);
            var later := Reconnect(ws.(reconnectDelayMs := NextDelay(ws.reconnectDelayMs)), cfg, attempts + 1, script[2..]);
            && 0 < |r.sleeps| && r.sleeps[0].field == ws.reconnectDelayMs
            && r == later.(sleeps := [r.sleeps[0]] + later.sleeps, connects := later.connects + 1)
  {
    assert script[1..][1..] == script[2..] && script[1..][0] == script[1];
    assert !script[0].cancelled && !script[0].cancelWins && !script[1].ok;
  }

  lemma LaterHandshakesFail(script: Script, k: nat)
    requires HandshakesFail(script, k) && 0 < k
    ensures HandshakesFail(script, 1) && HandshakesFail(script[2..], k - 1)
    ensures script[2..][2 * (k - 1)..] == script[2 * k..]
  {
    forall j | 0 <= j < 2 * (k - 1)
      ensures var c := script[2..][j]; !c.cancelled && !c.cancelWins && (j % 2 == 1 ==> !c.ok)
    {
      assert script[2..][j] == script[j + 2] && (j + 2) % 2 == j % 2;
    }
  }

  /** `r` ends as `later` does, after `k` more sleeps and connects. */
  predicate EndsLike(r: Reconnection, later: Reconnection, k: nat) {
    r.ws == later.ws && r.out == later.out && r.rest == later.rest
    && r.connects == k + later.connects && |r.sleeps| == k + |later.sleeps|
  }

  /** `k` failed handshakes double the delay `k` times and leave the rest of the call as if just entered. */
  lemma {:induction false} FailuresDouble(ws: Ws, cfg: WsConfig, attempts: nat, script: Script, k: nat)
    requires HandshakesFail(script, k)
    requires cfg.maxReconnectAttempts.Max? ==> attempts + k <= cfg.maxReconnectAttempts.n
    ensures EndsLike(Reconnect(ws, cfg, attempts, script),
                     Reconnect(ws.(reconnectDelayMs := DelayAfter(ws.reconnectDelayMs, k)), cfg, attempts + k,
                               script[2 * k..]), k)
    decreases k
  {
    hide Reconnect;
    if k > 0 {
      LaterHandshakesFail(script, k);
      OneFailureDoubles(ws, cfg, attempts, script);
      var failed := ws.(reconnectDelayMs := NextDelay(ws.reconnectDelayMs));
      FailuresDouble(failed, cfg, attempts + 1, script[2..], k - 1);
      assert failed.(reconnectDelayMs := DelayAfter(failed.reconnectDelayMs, k - 1))
          == ws.(reconnectDelayMs := DelayAfter(ws.reconnectDelayMs, k));
    } else {
      assert script[0..] == script;
    }
  }

  /** The sleep before failure `j` is taken with the delay doubled `j` times. */
  lemma {:induction false} FailuresSleep(ws: Ws, cfg: WsConfig, attempts: nat, script: Script, k: nat, j: nat)
    requires HandshakesFail(script, k) && j < k
    requires cfg.maxReconnectAttempts.Max? ==> attempts + k <= cfg.maxReconnectAttempts.n
    ensures var r := Reconnect(ws, cfg, attempts, script);
            j < |r.sleeps| && r.sleeps[j].field == DelayAfter(ws.reconnectDelayMs, j)
    decreases k
  {
    LaterHandshakesFail(script, k);
    OneFailureDoubles(ws, cfg, attempts, script);
    if j > 0 {
      FailuresSleep(ws.(reconnectDelayMs := NextDelay(ws.reconnectDelayMs)), cfg, attempts + 1, script[2..], k - 1, j - 1);
    }
  }

  /**
   From the base, `k` consecutive handshake failures leave the delay field at `min(1000 * 2^k, 30000)`, and the
   sleep before failure `j` was taken with the field at `min(1000 * 2^j, 30000)`.
   */
  lemma BackoffAfterFailures(ws: Ws, cfg: WsConfig, script: Script, k: nat)
    requires ws.reconnectDelayMs == 1_000 && HandshakesFail(script, k) && |script| == 2 * k
    requires cfg.maxReconnectAttempts.Max? ==> k <= cfg.maxReconnectAttempts.n
    ensures var r := Reconnect(ws, cfg, 0, script);
            && r.ws == ws.(reconnectDelayMs := Min(1_000 * Retry.Pow(2, k), 30_000))
            && r.out.Pending? && r.connects == |r.sleeps| == k
            && (forall j :: 0 <= j < k ==>
                  r.sleeps[j].field == Min(1_000 * Retry.Pow(2, j), 30_000))
  {
    FailuresDouble(ws, cfg, 0, script, k);
    DelayAfterIsCappedPower(BASE_DELAY_MS, k);
    forall j | 0 <= j < k
      ensures Reconnect(ws, cfg, 0, script).sleeps[j].field == Min(BASE_DELAY_MS * Retry.Pow(2, j), MAX_DELAY_MS)
    {
      FailuresSleep(ws, cfg, 0, script, k, j);
      DelayAfterIsCappedPower(BASE_DELAY_MS, j);
    }
  }

  ghost predicate SleepsBounded(sleeps: seq<Sleep>) {
    forall j :: 0 <= j < |sleeps| ==>
      (1_000 <= sleeps[j].field <= 30_000
       && sleeps[j].field <= sleeps[j].actual && 4 * sleeps[j].actual <= 5 * sleeps[j].field)
  }

  ghost predicate NeverCancelled(cfg: WsConfig, script: Script) {
    cfg.hasToken ==> forall j :: 0 <= j < |script| ==> !script[j].cancelled && !script[j].cancelWins
  }

  ghost predicate IsSuffix(rest: Script, script: Script) {
    |rest| <= |script| && rest == script[|script| - |rest|..]
  }

  lemma SuffixOfSuffix(a: Script, b: Script, c: Script)
    requires IsSuffix(a, b) && IsSuffix(b, c)
    ensures IsSuffix(a, c)
  {
    assert b[|b| - |a|..] == c[|c| - |b|..][|b| - |a|..] == c[|c| - |a|..];
  }

  lemma {:induction false} ResendConsumesFront(ws: Ws, subs: seq<Message>, i: nat, script: Script)
    requires i <= |subs|
    ensures IsSuffix(Resend(ws, subs, i, script).rest, script)
    decreases |subs| - i
  {
    if i < |subs| {
      var e := SendRaw(ws, subs[i], script);
      assert IsSuffix(e.rest, script);
      if e.out == Done(Ok(())) {
        ResendConsumesFront(e.ws, subs, i + 1, e.rest);
        SuffixOfSuffix(Resend(e.ws, subs, i + 1, e.rest).rest, e.rest, script);
      }
    }
  }

  lemma ConnectConsumesFront(ws: Ws, script: Script)
    ensures IsSuffix(Connect(ws, script).rest, script)
  {
    if script != [] && script[0].ok {
      var live := ws.(stream := Connected([]), reconnectDelayMs := BASE_DELAY_MS, heartbeat := true);
      ResendConsumesFront(live, ws.subscriptions, 0, script[1..]);
      assert IsSuffix(script[1..], script);
      SuffixOfSuffix(Connect(ws, script).rest, script[1..], script);
    }
  }

  lemma PrependSleep(sleep: Sleep, later: seq<Sleep>)
    requires SleepsBounded([sleep]) && SleepsBounded(later)
    ensures SleepsBounded([sleep] + later)
  {
    assert [sleep][0] == sleep;
  }

  lemma FirstSleepIsBounded(ws: Ws, random: nat)
    requires Inv(ws)
    ensures SleepsBounded([Sleep(ws.reconnectDelayMs, ws.reconnectDelayMs + Jitter(ws.reconnectDelayMs, random))])
  {
    JitterIsSmall(ws.reconnectDelayMs, random);
  }

  lemma DoublingKeepsInv(ws: Ws)
    requires Inv(ws)
    ensures Inv(ws.(reconnectDelayMs := NextDelay(ws.reconnectDelayMs)))
  {
  }

  /**
   The reconnect loop, whatever the network does: it keeps the session invariant and the subscriptions, sleeps at
   most 1.25 times the delay field, and on Ok the backoff is reset and the socket knows every subscription.
   */
  lemma {:induction false} ReconnectKeepsSession(ws: Ws, cfg: WsConfig, attempts: nat, script: Script)
    requires Inv(ws)
    ensures var r := Reconnect(ws, cfg, attempts, script);
            && Inv(r.ws) && r.ws.subscriptions == ws.subscriptions && SleepsBounded(r.sleeps)
            && (r.out == Done(Ok(())) ==>
                  r.ws == Ws(Connected(ws.subscriptions), ws.subscriptions, BASE_DELAY_MS, true))
    decreases |script|
  {
    hide Connect, Subsequence, Jitter;
    if script != [] {
      FirstSleepIsBounded(ws, script[0].random);
      var c := Connect(ws, script[1..]);
      ConnectOutcome(ws, script[1..]);
      assert c.out.Done? && c.out.value.Ok? ==> c.out.value.value == ();
      if c.out.Done? && c.out.value.Err? {
        var failed := c.ws.(reconnectDelayMs := NextDelay(c.ws.reconnectDelayMs));
        DoublingKeepsInv(c.ws);
        ReconnectKeepsSession(failed, cfg, attempts + 1, c.rest);
        PrependSleep(Sleep(ws.reconnectDelayMs, ws.reconnectDelayMs + Jitter(ws.reconnectDelayMs, script[0].random)),
                     Reconnect(failed, cfg, attempts + 1, c.rest).sleeps);
      }
    }
  }

  lemma SuffixNeverCancelled(cfg: WsConfig, rest: Script, script: Script)
    requires NeverCancelled(cfg, script) && IsSuffix(rest, script)
    ensures NeverCancelled(cfg, rest)
  {
    assert forall j :: 0 <= j < |rest| ==> rest[j] == script[|script| - |rest| + j];
  }

  /**
   How the loop ends when nothing is cancelled: with a limit of `m` it makes at most `m` attempts and ends either
   connected or with "exhausted after m", the latter only after all `m` failed; without a limit only connected.
   */
  lemma {:induction false} ReconnectEnds(ws: Ws, cfg: WsConfig, attempts: nat, script: Script)
    requires NeverCancelled(cfg, script)
    requires cfg.maxReconnectAttempts.Max? ==> attempts <= cfg.maxReconnectAttempts.n
    ensures var r := Reconnect(ws, cfg, attempts, script);
            && (cfg.maxReconnectAttempts.Max? ==> attempts + r.connects <= cfg.maxReconnectAttempts.n)
            && (r.out.Done? ==>
                  || (r.out == Done(Ok(())) && 0 < r.connects)
                  || (cfg.maxReconnectAttempts == Max(attempts + r.connects)
                      && r.out == Done(Err(WsReconnectExhausted(attempts + r.connects)))))
    decreases |script|
  {
    if script != [] && !(cfg.maxReconnectAttempts.Max? && attempts >= cfg.maxReconnectAttempts.n) {
      var c := Connect(ws, script[1..]);
      if c.out.Done? && c.out.value.Err? {
        RestNeverCancelled(ws, cfg, script);
        ReconnectEnds(c.ws.(reconnectDelayMs := NextDelay(c.ws.reconnectDelayMs)), cfg, attempts + 1, c.rest);
      }
    }
  }

  /** Each attempt waits once, shakes hands once and sends each subscription at most once. */
  lemma {:induction false} ResendLength(ws: Ws, subs: seq<Message>, i: nat, script: Script)
    requires i <= |subs|
    ensures |script| <= |Resend(ws, subs, i, script).rest| + (|subs| - i)
    ensures Resend(ws, subs, i, script).out.Pending? ==> Resend(ws, subs, i, script).rest == []
    decreases |subs| - i
  {
    if i < |subs| {
      var e := SendRaw(ws, subs[i], script);
      if e.out == Done(Ok(())) {
        ResendLength(e.ws, subs, i + 1, e.rest);
      }
    }
  }

  lemma ConnectLength(ws: Ws, script: Script)
    ensures |script| <= |Connect(ws, script).rest| + 1 + |ws.subscriptions|
    ensures Connect(ws, script).out.Pending? ==> Connect(ws, script).rest == []
  {
    if script != [] && script[0].ok {
      ResendLength(ws.(stream := Connected([]), reconnectDelayMs := BASE_DELAY_MS, heartbeat := true),
                   ws.subscriptions, 0, script[1..]);
    }
  }

  lemma OneMoreAttempt(attempts: nat, size: nat)
    ensures (attempts + 1) * size == attempts * size + size
  {
  }

  lemma {:induction false} ReconnectLength(ws: Ws, cfg: WsConfig, attempts: nat, script: Script)
    ensures var r := Reconnect(ws, cfg, attempts, script);
            r.out.Pending? ==> r.rest == [] && |script| <= r.connects * (2 + |ws.subscriptions|)
    decreases |script|
  {
    hide Connect, Inv;
    if script != [] {
      var c := Connect(ws, script[1..]);
      ConnectLength(ws, script[1..]);
      ConnectOutcome(ws, script[1..]);
      if c.out.Done? && c.out.value.Err? {
        var failed := c.ws.(reconnectDelayMs := NextDelay(c.ws.reconnectDelayMs));
        ReconnectLength(failed, cfg, attempts + 1, c.rest);
        OneMoreAttempt(Reconnect(failed, cfg, attempts + 1, c.rest).connects, 2 + |ws.subscriptions|);
      }
    }
  }

  lemma {:induction false} ConnectsBelowLimit(ws: Ws, cfg: WsConfig, attempts: nat, script: Script)
    requires cfg.maxReconnectAttempts.Max? && attempts <= cfg.maxReconnectAttempts.n
    ensures attempts + Reconnect(ws, cfg, attempts, script).connects <= cfg.maxReconnectAttempts.n
    decreases |script|
  {
    if script != [] && attempts < cfg.maxReconnectAttempts.n {
      var c := Connect(ws, script[1..]);
      if c.out.Done? && c.out.value.Err? {
        ConnectsBelowLimit(c.ws.(reconnectDelayMs := NextDelay(c.ws.reconnectDelayMs)), cfg, attempts + 1, c.rest);
      }
    }
  }

  /**
   The loop does end: it stays pending only if the environment falls silent, and with a limit of `m` and `n`
   subscriptions it has an outcome as soon as the environment has decided `m * (2 + n)` await points and one more.
   */
  lemma ReconnectTerminates(ws: Ws, cfg: WsConfig, script: Script)
    ensures var r := Reconnect(ws, cfg, 0, script);
            && (r.out.Pending? ==> r.rest == [])
            && (cfg.maxReconnectAttempts.Max? && cfg.maxReconnectAttempts.n * (2 + |ws.subscriptions|) < |script|
                ==> r.out.Done?)
  {
    ReconnectLength(ws, cfg, 0, script);
    if cfg.maxReconnectAttempts.Max? {
      ConnectsBelowLimit(ws, cfg, 0, script);
      MulMono(Reconnect(ws, cfg, 0, script).connects, cfg.maxReconnectAttempts.n, 2 + |ws.subscriptions|);
    }
  }

  lemma RestNeverCancelled(ws: Ws, cfg: WsConfig, script: Script)
    requires NeverCancelled(cfg, script) && script != []
    ensures NeverCancelled(cfg, Connect(ws, script[1..]).rest)
  {
    ConnectConsumesFront(ws, script[1..]);
    SuffixNeverCancelled(cfg, script[1..], script);
    SuffixNeverCancelled(cfg, Connect(ws, script[1..]).rest, script[1..]);
  }

  lemma JitterIsSmall(ms: nat, random: nat)
    ensures ms <= ms + Jitter(ms, random) && 4 * (ms + Jitter(ms, random)) <= 5 * ms
  {
  }

  // ---------------------------------------------------------------- reading

  lemma SelectKeepsInv(ws: Ws, cfg: WsConfig, script: Script)
    requires Inv(ws) && script != []
    ensures var e := Select(ws, cfg, script);
            Inv(e.ws) && e.ws.subscriptions == ws.subscriptions && e.out != Done(End)
  {
  }

  /**
   `next_message` never reports the end of the stream, although its documentation says it does on a closed
   connection: after the connection check there is always a socket, so a closed one leads to a reconnect, a message
   or an error. Reading keeps the session invariant and the subscriptions.
   */
  lemma {:induction false} NextMessageNeverEnds(ws: Ws, cfg: WsConfig, script: Script)
    requires Inv(ws)
    ensures var e := NextMessage(ws, cfg, script);
            Inv(e.ws) && e.ws.subscriptions == ws.subscriptions && e.out != Done(End)
    decreases |script|
  {
    if script != [] && !(cfg.hasToken && script[0].cancelled) {
      ReconnectKeepsSession(ws, cfg, 0, script);
      var r := if ws.stream.NoStream? then Reconnect(ws, cfg, 0, script)
               else Reconnection(ws, Done(Ok(())), script, [], 0);
      assert r.out.Done? && r.out.value.Ok? ==> r.out.value == Ok(r.out.value.value) && r.out.value.value == ();
      if r.out == Done(Ok(())) && r.rest != [] {
        SelectKeepsInv(r.ws, cfg, r.rest);
        var s := Select(r.ws, cfg, r.rest);
        if s.out.Pending? {
          NextMessageNeverEnds(s.ws, cfg, s.rest);
        }
      }
    }
  }

  /** The environment lets a connected client's read reach its select and the token does not win it. */
  predicate ReachesSelect(ws: Ws, cfg: WsConfig, script: Script) {
    ws.stream.Connected? && script != [] && (cfg.hasToken ==> !script[0].cancelled && !script[0].cancelWins)
  }

  /**
   A read error, a closed connection or a failed ping loses the socket: the read goes on exactly as one entered without
   socket and heartbeat.
   */
  lemma LostSocketIsDropped(ws: Ws, cfg: WsConfig, script: Script)
    requires ReachesSelect(ws, cfg, script)
    ensures script[0].ready == ReadError || script[0].ready == Closed ==>
              NextMessage(ws, cfg, script)
              == NextMessage(Ws(NoStream, ws.subscriptions, ws.reconnectDelayMs, false), cfg, script[1..])
    ensures script[0].ready == Tick && ws.heartbeat && 1 < |script| && !script[1].ok ==>
              NextMessage(ws, cfg, script)
              == NextMessage(Ws(NoStream, ws.subscriptions, ws.reconnectDelayMs, false), cfg, script[2..])
  {
    assert 1 < |script| ==> script[1..][1..] == script[2..];
  }

  /** Anything else but a message is passed over on the same socket, which is neither dropped nor answered with an item. */
  lemma OtherEventsKeepReading(ws: Ws, cfg: WsConfig, script: Script)
    requires ReachesSelect(ws, cfg, script)
    ensures script[0].ready == BadText || script[0].ready == OtherFrame ==>
              NextMessage(ws, cfg, script) == NextMessage(ws, cfg, script[1..])
    ensures script[0].ready == PingFrame && 1 < |script| ==>
              NextMessage(ws, cfg, script) == NextMessage(ws, cfg, script[2..])
    ensures script[0].ready == Tick && ws.heartbeat && 1 < |script| && script[1].ok ==>
              NextMessage(ws, cfg, script) == NextMessage(ws, cfg, script[2..])
    ensures script[0].ready.Text? ==>
              NextMessage(ws, cfg, script) == Effect(ws, Done(Next(Ok(script[0].ready.value))), script[1..])
  {
    assert 1 < |script| ==> script[1..][1..] == script[2..];
  }

  /** Without a socket a read waits, shakes hands and sends every subscription before it looks at anything else. */
  lemma ReadReconnectsFirst(ws: Ws, cfg: WsConfig, script: Script)
    requires ws.stream.NoStream? && cfg.maxReconnectAttempts != Max(0)
    requires |ws.subscriptions| + 2 < |script| && forall j :: 1 <= j <= |ws.subscriptions| + 1 ==> script[j].ok
    requires cfg.hasToken ==> !script[0].cancelled && !script[0].cancelWins && !script[|ws.subscriptions| + 2].cancelled
    ensures NextMessage(ws, cfg, script)
         == NextMessage(Ws(Connected(ws.subscriptions), ws.subscriptions, 1_000, true), cfg, script[|ws.subscriptions| + 2..])
  {
    var rest := script[2..];
    assert script[1..][1..] == rest && rest[|ws.subscriptions|..] == script[|ws.subscriptions| + 2..];
    assert forall j :: 0 <= j < |ws.subscriptions| ==> rest[j] == script[j + 2];
    var open := Ws(Connected([]), ws.subscriptions, 1_000, true);
    assert ws.subscriptions[..0] == [] && rest[0..] == rest;
    ResendAll(open, 0, rest);
    var c := Connect(ws, script[1..]);
    assert script[1..][0] == script[1];
    assert c == Effect(Ws(Connected(ws.subscriptions), ws.subscriptions, 1_000, true), Done(Ok(())),
                       script[|ws.subscriptions| + 2..]);
    assert Reconnect(ws, cfg, 0, script).out == Done(Ok(()));
  }

  lemma {:induction false} ResendAll(ws: Ws, i: nat, script: Script)
    requires i <= |ws.subscriptions| && ws.stream == Connected(ws.subscriptions[..i])
    requires |ws.subscriptions| - i <= |script| && forall j :: 0 <= j < |ws.subscriptions| - i ==> script[j].ok
    ensures Resend(ws, ws.subscriptions, i, script)
         == Effect(ws.(stream := Connected(ws.subscriptions)), Done(Ok(())), script[|ws.subscriptions| - i..])
    decreases |ws.subscriptions| - i
  {
    if i < |ws.subscriptions| {
      assert ws.subscriptions[..i + 1] == ws.subscriptions[..i] + [ws.subscriptions[i]];
      ResendAll(ws.(stream := Connected(ws.subscriptions[..i + 1])), i + 1, script[1..]);
      assert script[1..][|ws.subscriptions| - i - 1..] == script[|ws.subscriptions| - i..];
    } else {
      assert ws.subscriptions[..i] == ws.subscriptions && script[0..] == script;
    }
  }

  /** Some await point the environment decided saw or brought a cancelled token. */
  ghost predicate SomewhereCancelled(cfg: WsConfig, script: Script) {
    cfg.hasToken && exists j :: 0 <= j < |script| && (script[j].cancelled || script[j].cancelWins)
  }

  lemma CancelledInSuffix(cfg: WsConfig, rest: Script, script: Script)
    requires IsSuffix(rest, script)
    ensures SomewhereCancelled(cfg, rest) ==> SomewhereCancelled(cfg, script)
  {
    if SomewhereCancelled(cfg, rest) {
      var j :| 0 <= j < |rest| && (rest[j].cancelled || rest[j].cancelWins);
      assert rest[j] == script[|script| - |rest| + j];
    }
  }

  lemma CancelledAtOnce(cfg: WsConfig, script: Script)
    requires script != [] && cfg.hasToken && (script[0].cancelled || script[0].cancelWins)
    ensures SomewhereCancelled(cfg, script)
  {
  }

  /** What an attempt leaves of the script when it did not win. */
  lemma AttemptConsumesFront(ws: Ws, script: Script)
    requires script != []
    ensures IsSuffix(Connect(ws, script[1..]).rest, script)
  {
    ConnectConsumesFront(ws, script[1..]);
    assert IsSuffix(script[1..], script);
    SuffixOfSuffix(Connect(ws, script[1..]).rest, script[1..], script);
  }

  lemma {:induction false} ReconnectConsumesFront(ws: Ws, cfg: WsConfig, attempts: nat, script: Script)
    ensures IsSuffix(Reconnect(ws, cfg, attempts, script).rest, script)
    decreases |script|
  {
    hide Connect;
    if script != [] {
      AttemptConsumesFront(ws, script);
      var c := Connect(ws, script[1..]);
      if c.out.Done? && c.out.value.Err? {
        var failed := c.ws.(reconnectDelayMs := NextDelay(c.ws.reconnectDelayMs));
        ReconnectConsumesFront(failed, cfg, attempts + 1, c.rest);
        SuffixOfSuffix(Reconnect(failed, cfg, attempts + 1, c.rest).rest, c.rest, script);
      }
    }
  }

  /** A reconnection fails in two ways only: "cancelled" if the token was, or "exhausted" with the configured limit. */
  lemma {:induction false} ReconnectErrors(ws: Ws, cfg: WsConfig, attempts: nat, script: Script)
    requires cfg.maxReconnectAttempts.Max? ==> attempts <= cfg.maxReconnectAttempts.n
    ensures var r := Reconnect(ws, cfg, attempts, script);
            r.out.Done? && r.out.value.Err? ==>
              || (r.out.value.error == WsCancelled && SomewhereCancelled(cfg, script))
              || (cfg.maxReconnectAttempts.Max?
                  && r.out.value.error == WsReconnectExhausted(cfg.maxReconnectAttempts.n))
    decreases |script|
  {
    hide Connect, IsSuffix, SomewhereCancelled;
    if script != [] {
      if cfg.hasToken && (script[0].cancelled || script[0].cancelWins) {
        CancelledAtOnce(cfg, script);
      } else if cfg.maxReconnectAttempts != Max(attempts) {
        AttemptConsumesFront(ws, script);
        var c := Connect(ws, script[1..]);
        if c.out.Done? && c.out.value.Err? {
          ReconnectErrors(c.ws.(reconnectDelayMs := NextDelay(c.ws.reconnectDelayMs)), cfg, attempts + 1, c.rest);
          CancelledInSuffix(cfg, c.rest, script);
        }
      }
    }
  }

  /** So does a read: every error it yields is one of these, and "cancelled" is never made up. */
  lemma {:induction false} ReadErrors(ws: Ws, cfg: WsConfig, script: Script)
    ensures var e := NextMessage(ws, cfg, script);
            e.out.Done? && e.out.value.Next? && e.out.value.result.Err? ==>
              || (e.out.value.result.error == WsCancelled && SomewhereCancelled(cfg, script))
              || (cfg.maxReconnectAttempts.Max?
                  && e.out.value.result.error == WsReconnectExhausted(cfg.maxReconnectAttempts.n))
    decreases |script|
  {
    hide Reconnect, Select, IsSuffix, SomewhereCancelled;
    if script != [] {
      if cfg.hasToken && script[0].cancelled {
        CancelledAtOnce(cfg, script);
      } else {
        ReconnectErrors(ws, cfg, 0, script);
        ReconnectConsumesFront(ws, cfg, 0, script);
        WholeIsSuffix(script);
        var r := if ws.stream.NoStream? then Reconnect(ws, cfg, 0, script)
                 else Reconnection(ws, Done(Ok(())), script, [], 0);
        if r.out.Done? && r.out.value.Ok? && r.ws.stream.Connected? && r.rest != [] {
          var s := Select(r.ws, cfg, r.rest);
          SelectErrors(r.ws, cfg, r.rest);
          SuffixOfSuffix(s.rest, r.rest, script);
          CancelledInSuffix(cfg, r.rest, script);
          if s.out.Pending? {
            ReadErrors(s.ws, cfg, s.rest);
            CancelledInSuffix(cfg, s.rest, script);
          }
        }
      }
    }
  }

  lemma WholeIsSuffix(script: Script)
    ensures IsSuffix(script, script)
  {
  }

  lemma SelectErrors(ws: Ws, cfg: WsConfig, script: Script)
    requires script != []
    ensures var e := Select(ws, cfg, script);
            && IsSuffix(e.rest, script)
            && (e.out.Done? && e.out.value.Next? && e.out.value.result.Err? ==>
                  e.out.value.result.error == WsCancelled && SomewhereCancelled(cfg, script))
  {
  }

  /** A token found cancelled ends an attempt before anything else, even before the limit is looked at. */
  lemma CancellationComesFirst(ws: Ws, cfg: WsConfig, attempts: nat, script: Script)
    requires cfg.hasToken && script != [] && script[0].cancelled
    ensures Reconnect(ws, cfg, attempts, script) == Reconnection(ws, Done(Err(WsCancelled)), script, [], 0)
    ensures NextMessage(ws, cfg, script) == Effect(ws, Done(Next(Err(WsCancelled))), script)
  {
  }

  /** A token that wins a backoff or a select ends the call there: nothing is tried and nothing is lost. */
  lemma CancellationStopsTheCall(ws: Ws, cfg: WsConfig, attempts: nat, script: Script)
    requires cfg.hasToken && script != [] && !script[0].cancelled && script[0].cancelWins
    ensures cfg.maxReconnectAttempts == Infinite || attempts < cfg.maxReconnectAttempts.n ==>
              var r := Reconnect(ws, cfg, attempts, script);
              r.ws == ws && r.out == Done(Err(WsCancelled)) && r.rest == script[1..] && r.connects == 0 && |r.sleeps| == 1
    ensures ws.stream.Connected? ==>
              NextMessage(ws, cfg, script) == Effect(ws, Done(Next(Err(WsCancelled))), script[1..])
  {
  }

  /** How `connect` fails: with the handshake's error, or with that of the first send refused. */
  lemma ConnectAnswers(ws: Ws, script: Script)
    ensures var e := Connect(ws, script);
            && (script != [] && !script[0].ok ==>
                  e.out == Done(Err(WebSocket("WebSocket connection failed"))) && e.rest == script[1..])
            && (script != [] && script[0].ok && e.out.Done? && e.out != Done(Ok(())) ==>
                  e.out == Done(Err(WebSocket("WebSocket send failed"))))
  {
    if script != [] && script[0].ok {
      assert ws.subscriptions[..0] == [];
      var k := ResendDelivers(ws.(stream := Connected([]), reconnectDelayMs := BASE_DELAY_MS, heartbeat := true), 0,
                              script[1..]);
    }
  }

  /** A subscription made without a socket is remembered and reported as not connected; on a live one the socket decides. */
  lemma SubscribeAnswers(ws: Ws, subscription: string, script: Script)
    ensures var e := SubscribeRaw(ws, subscription, script);
            && (ws.stream.NoStream? ==> e.out == Done(Err(WebSocket("WebSocket not connected"))) && e.rest == script)
            && (ws.stream.Connected? && script != [] ==>
                  e.out == (if script[0].ok then Done(Ok(())) else Done(Err(WebSocket("WebSocket send failed"))))
                  && e.rest == script[1..])
  {
  }

  /** Every whole number of milliseconds up to a quarter of the delay is a possible jitter, and nothing else is. */
  lemma JitterCoversItsRange(ms: nat, random: nat)
    ensures Jitter(ms, random) <= ms / 4
    ensures random <= ms / 4 ==> Jitter(ms, random) == random
  {
  }

  // ---------------------------------------------------------------- whole runs

  datatype Call = DoConnect(script: Script) | DoSubscribe(subscription: string, script: Script) | DoRead(script: Script)

  function Perform(ws: Ws, cfg: WsConfig, call: Call): Ws {
    match call
    case DoConnect(script) => Connect(ws, script).ws
    case DoSubscribe(subscription, script) => SubscribeRaw(ws, subscription, script).ws
    case DoRead(script) => NextMessage(ws, cfg, script).ws
  }

  function PerformAll(ws: Ws, cfg: WsConfig, calls: seq<Call>): Ws
    decreases |calls|
  {
    if calls == [] then ws else PerformAll(Perform(ws, cfg, calls[0]), cfg, calls[1..])
  }

  function AskedBy(call: Call): seq<Message> {
    if call.DoSubscribe? then [Subscribe(call.subscription)] else []
  }

  function Asked(calls: seq<Call>): seq<Message> {
    if calls == [] then [] else AskedBy(calls[0]) + Asked(calls[1..])
  }

  /** A new subscription is remembered whether or not a live socket accepts it; nothing else changes. */
  lemma SubscribeOutcome(ws: Ws, subscription: string, script: Script)
    ensures var (m, e) := (Subscribe(subscription), SubscribeRaw(ws, subscription, script).ws);
            && e == Ws(e.stream, ws.subscriptions + [m], ws.reconnectDelayMs, ws.heartbeat)
            && (e.stream == ws.stream || (ws.stream.Connected? && e.stream == Connected(ws.stream.sent + [m])))
  {
  }

  lemma SubscribeKeepsSession(ws: Ws, subscription: string, script: Script)
    requires Inv(ws)
    ensures Inv(SubscribeRaw(ws, subscription, script).ws)
    ensures SubscribeRaw(ws, subscription, script).ws.subscriptions == ws.subscriptions + [Subscribe(subscription)]
  {
    hide SubscribeRaw, Subsequence;
    SubscribeOutcome(ws, subscription, script);
    if ws.stream.Connected? {
      AppendKeepsSubsequence(ws.stream.sent, ws.subscriptions, Subscribe(subscription));
    }
  }

  lemma CallKeepsSession(ws: Ws, cfg: WsConfig, call: Call)
    requires Inv(ws)
    ensures Inv(Perform(ws, cfg, call))
    ensures Perform(ws, cfg, call).subscriptions == ws.subscriptions + AskedBy(call)
  {
    match call
    case DoConnect(script) => ConnectOutcome(ws, script);
    case DoSubscribe(subscription, script) => SubscribeKeepsSession(ws, subscription, script);
    case DoRead(script) => NextMessageNeverEnds(ws, cfg, script);
  }

  /**
   Over every sequence of calls against every network: the subscriptions are those present before, then those asked
   for, in order, whether or not they could be sent; there is a socket exactly when there is a heartbeat; the delay
   field stays within its bounds; and the socket was sent a subsequence of the subscriptions.
   */
  lemma {:induction false} SessionOfEveryRun(ws: Ws, cfg: WsConfig, calls: seq<Call>)
    requires Inv(ws)
    ensures Inv(PerformAll(ws, cfg, calls))
    ensures PerformAll(ws, cfg, calls).subscriptions == ws.subscriptions + Asked(calls)
    decreases |calls|
  {
    if calls != [] {
      CallKeepsSession(ws, cfg, calls[0]);
      SessionOfEveryRun(Perform(ws, cfg, calls[0]), cfg, calls[1..]);
    }
  }

  /** The same from construction: the subscriptions are exactly those asked for, in order. */
  lemma SessionFromConstruction(cfg: WsConfig, calls: seq<Call>)
    ensures Inv(PerformAll(New(), cfg, calls))
    ensures PerformAll(New(), cfg, calls).subscriptions == Asked(calls)
  {
    assert Inv(New());
    SessionOfEveryRun(New(), cfg, calls);
  }

  /** A call made after the cancellation: if it reads, it finds the token cancelled. */
  predicate AfterCancellation(cfg: WsConfig, call: Call) {
    call.DoRead? ==> cfg.hasToken && call.script != [] && call.script[0].cancelled
  }

  function WithoutReads(calls: seq<Call>): seq<Call> {
    if calls == [] then []
    else (if calls[0].DoRead? then [] else [calls[0]]) + WithoutReads(calls[1..])
  }

  /** The state in which call `k` finds the client. */
  function StateBefore(ws: Ws, cfg: WsConfig, calls: seq<Call>, k: nat): Ws
    requires k <= |calls|
  {
    PerformAll(ws, cfg, calls[..k])
  }

  /**
   Once the token is cancelled, the reads among any further calls might as well not have been made: the client ends as if
   only the connects and subscribes had happened, and each read answers "cancelled" in the state it found. What can still
   change is what those two change: they do not look at the token.
   */
  lemma {:induction false} CancelledReadsAreErased(ws: Ws, cfg: WsConfig, calls: seq<Call>)
    requires forall k :: 0 <= k < |calls| ==> AfterCancellation(cfg, calls[k])
    ensures PerformAll(ws, cfg, calls) == PerformAll(ws, cfg, WithoutReads(calls))
    ensures forall k :: 0 <= k < |calls| && calls[k].DoRead? ==>
              var found := StateBefore(ws, cfg, calls, k);
              NextMessage(found, cfg, calls[k].script) == Effect(found, Done(Next(Err(WsCancelled))), calls[k].script)
    decreases |calls|
  {
    if calls != [] {
      assert AfterCancellation(cfg, calls[0]);
      CancelledReadsAreErased(Perform(ws, cfg, calls[0]), cfg, calls[1..]);
      var rest := WithoutReads(calls[1..]);
      if calls[0].DoRead? {
        assert Perform(ws, cfg, calls[0]) == ws && [] + rest == rest;
      } else {
        assert ([calls[0]] + rest)[1..] == rest;
        assert PerformAll(ws, cfg, [calls[0]] + rest) == PerformAll(Perform(ws, cfg, calls[0]), cfg, rest);
      }
    }
  }

  // ---------------------------------------------------------------- the limit of the guarantee

  /**
   `connect` may return an error and leave the new socket in place with some subscriptions missing. The next read then
   finds a socket, does not reconnect, and delivers messages from it: the missing subscriptions stay missing.
   */
  lemma HalfSubscribedSocketStaysInUse(cfg: WsConfig, a: Message, b: Message, text: string)
    ensures var go := Choice(true, 0, false, false, Text(text));
            var stop := go.(ok := false);
            var ws := New().(subscriptions := [a, b]);
            var connected := Connect(ws, [go, go, stop]);
            && connected.out == Done(SEND_FAILED)
            && connected.ws == Ws(Connected([a]), [a, b], BASE_DELAY_MS, true)
            && NextMessage(connected.ws, cfg, [go]) == Effect(connected.ws, Done(Next(Ok(text))), [])
  {
    var go := Choice(true, 0, false, false, Text(text));
    var stop := go.(ok := false);
    var ws := New().(subscriptions := [a, b]);
    var onOpen := ws.(stream := Connected([]), heartbeat := true);
    assert [go, go, stop][1..] == [go, stop] && [go, stop][1..] == [stop] && [stop][1..] == [] && [go][1..] == [];
    assert [] + [a] == [a];
    assert Resend(onOpen.(stream := Connected([a])), [a, b], 1, [stop])
        == Effect(onOpen.(stream := Connected([a])), Done(SEND_FAILED), []);
  }

  // ---------------------------------------------------------------- exactly when nothing is missing

  /** How many of the next `n` sends are accepted before the first failure. */
  function Accepted(n: nat, script: Script): (k: nat)
    ensures k <= n && k <= |script|
  {
    if n == 0 || script == [] || !script[0].ok then 0 else 1 + Accepted(n - 1, script[1..])
  }

  /** The subscriptions each successful handshake of one `connect` got across: none, or one number. */
  function Handshake(ws: Ws, script: Script): seq<nat> {
    if script != [] && script[0].ok then [Accepted(|ws.subscriptions|, script[1..])] else []
  }

  /** The same for all the attempts of one reconnection, in order. */
  function Handshakes(ws: Ws, cfg: WsConfig, attempts: nat, script: Script): seq<nat>
    decreases |script|
  {
    if script == [] || (cfg.hasToken && (script[0].cancelled || script[0].cancelWins))
       || (cfg.maxReconnectAttempts.Max? && attempts >= cfg.maxReconnectAttempts.n) then []
    else
      var c := Connect(ws, script[1..]);
      Handshake(ws, script[1..])
      + if c.out.Done? && c.out.value.Err?
        then Handshakes(c.ws.(reconnectDelayMs := NextDelay(c.ws.reconnectDelayMs)), cfg, attempts + 1, c.rest)
        else []
  }

  /** The same for one read. */
  function ReadHandshakes(ws: Ws, cfg: WsConfig, script: Script): seq<nat>
    decreases |script|
  {
    if script == [] || (cfg.hasToken && script[0].cancelled) then []
    else
      var r := if ws.stream.NoStream? then Reconnect(ws, cfg, 0, script)
               else Reconnection(ws, Done(Ok(())), script, [], 0);
      (if ws.stream.NoStream? then Handshakes(ws, cfg, 0, script) else [])
      + if r.out != Done(Ok(())) || r.ws.stream.NoStream? || r.rest == [] then []
        else
          var s := Select(r.ws, cfg, r.rest);
          if s.out.Done? then [] else ReadHandshakes(s.ws, cfg, s.rest)
  }

  /** The last handshake that succeeded, if any did, got every subscription across. */
  predicate LastComplete(handshakes: seq<nat>, n: nat) {
    handshakes != [] ==> handshakes[|handshakes| - 1] == n
  }

  lemma {:induction false} ResendAccepts(ws: Ws, i: nat, script: Script)
    requires i <= |ws.subscriptions| && ws.stream == Connected(ws.subscriptions[..i])
    ensures var k := i + Accepted(|ws.subscriptions| - i, script);
            && Resend(ws, ws.subscriptions, i, script).ws == ws.(stream := Connected(ws.subscriptions[..k]))
            && (Resend(ws, ws.subscriptions, i, script).out == Done(Ok(())) <==> k == |ws.subscriptions|)
    decreases |ws.subscriptions| - i
  {
    if i < |ws.subscriptions| {
      var e := SendRaw(ws, ws.subscriptions[i], script);
      assert ws.subscriptions[..i + 1] == ws.subscriptions[..i] + [ws.subscriptions[i]];
      if e.out == Done(Ok(())) {
        ResendAccepts(e.ws, i + 1, e.rest);
      }
    }
  }

  /** The socket left behind knows what the last successful handshake got across; the outcome is Ok if that was all. */
  predicate LeavesLast(before: Stream, after: Stream, subs: seq<Message>, ok: bool, handshakes: seq<nat>) {
    if handshakes == [] then after == before && !ok
    else
      var last := handshakes[|handshakes| - 1];
      last <= |subs| && after == Connected(subs[..last]) && (ok <==> last == |subs|)
  }

  lemma LeavesLastAgain(before: Stream, mid: Stream, after: Stream, subs: seq<Message>, ok: bool,
                        first: seq<nat>, later: seq<nat>)
    requires LeavesLast(before, mid, subs, false, first) && LeavesLast(mid, after, subs, ok, later)
    ensures LeavesLast(before, after, subs, ok, first + later)
  {
    if later == [] {
      assert first + later == first;
    }
  }

  lemma ConnectAccepts(ws: Ws, script: Script)
    ensures var e := Connect(ws, script);
            && e.ws.subscriptions == ws.subscriptions
            && LeavesLast(ws.stream, e.ws.stream, ws.subscriptions, e.out == Done(Ok(())), Handshake(ws, script))
  {
    if script != [] && script[0].ok {
      assert ws.subscriptions[..0] == [];
      ResendAccepts(ws.(stream := Connected([]), reconnectDelayMs := BASE_DELAY_MS, heartbeat := true), 0, script[1..]);
    }
  }

  lemma {:induction false} ReconnectAccepts(ws: Ws, cfg: WsConfig, attempts: nat, script: Script)
    ensures var r := Reconnect(ws, cfg, attempts, script);
            && r.ws.subscriptions == ws.subscriptions
            && LeavesLast(ws.stream, r.ws.stream, ws.subscriptions, r.out == Done(Ok(())),
                          Handshakes(ws, cfg, attempts, script))
    decreases |script|
  {
    hide Connect, Handshake;
    if script != [] {
      var c := Connect(ws, script[1..]);
      ConnectAccepts(ws, script[1..]);
      assert c.out.Done? && c.out.value.Ok? ==> c.out.value.value == ();
      var first := Handshake(ws, script[1..]);
      assert first + [] == first;
      if c.out.Done? && c.out.value.Err? {
        var failed := c.ws.(reconnectDelayMs := NextDelay(c.ws.reconnectDelayMs));
        ReconnectAccepts(failed, cfg, attempts + 1, c.rest);
        var r := Reconnect(failed, cfg, attempts + 1, c.rest);
        LeavesLastAgain(ws.stream, c.ws.stream, r.ws.stream, ws.subscriptions, r.out == Done(Ok(())), first,
                        Handshakes(failed, cfg, attempts + 1, c.rest));
      }
    }
  }

  lemma {:induction false} AllAcceptedExactlyWhen(n: nat, script: Script)
    ensures Accepted(n, script) == n <==> n <= |script| && forall j :: 0 <= j < n ==> script[j].ok
  {
    if 0 < n && script != [] {
      AllAcceptedExactlyWhen(n - 1, script[1..]);
      assert forall j :: 1 <= j < |script| ==> script[j] == script[1..][j - 1];
      if Accepted(n, script) == n {
        assert forall j :: 0 <= j < n ==> j == 0 || script[j] == script[1..][j - 1];
      } else if script[0].ok && n <= |script| {
        var j :| 0 <= j < n - 1 && !script[1..][j].ok;
        assert !script[j + 1].ok;
      }
    }
  }

  lemma SelectKeepsComplete(ws: Ws, cfg: WsConfig, script: Script)
    requires FullySubscribed(ws) && script != []
    ensures var e := Select(ws, cfg, script); FullySubscribed(e.ws) && e.ws.subscriptions == ws.subscriptions
  {
  }

  lemma LastOfSum(a: seq<nat>, b: seq<nat>, n: nat)
    ensures b != [] ==> (LastComplete(a + b, n) <==> LastComplete(b, n))
    ensures b == [] ==> a + b == a
  {
  }

  lemma {:induction false} ReadAccepts(ws: Ws, cfg: WsConfig, script: Script)
    requires FullySubscribed(ws)
    ensures var (e, n) := (NextMessage(ws, cfg, script), |ws.subscriptions|);
            && (FullySubscribed(e.ws) <==> LastComplete(ReadHandshakes(ws, cfg, script), n))
            && e.ws.subscriptions == ws.subscriptions
            && (e.out.Done? && e.out.value.Next? && e.out.value.result.Ok? ==> FullySubscribed(e.ws))
    decreases |script|
  {
    if script != [] && !(cfg.hasToken && script[0].cancelled) {
      ReconnectAccepts(ws, cfg, 0, script);
      var n := |ws.subscriptions|;
      assert ws.subscriptions[..n] == ws.subscriptions;
      var r := if ws.stream.NoStream? then Reconnect(ws, cfg, 0, script)
               else Reconnection(ws, Done(Ok(())), script, [], 0);
      var h := if ws.stream.NoStream? then Handshakes(ws, cfg, 0, script) else [];
      assert r.out.Done? && r.out.value.Ok? ==> r.out.value.value == () && r.out == Done(Ok(()));
      assert FullySubscribed(r.ws) <==> LastComplete(h, n);
      if r.out == Done(Ok(())) && r.ws.stream.Connected? && r.rest != [] {
        SelectKeepsComplete(r.ws, cfg, r.rest);
        var s := Select(r.ws, cfg, r.rest);
        if s.out.Pending? {
          ReadAccepts(s.ws, cfg, s.rest);
          LastOfSum(h, ReadHandshakes(s.ws, cfg, s.rest), n);
        } else {
          LastOfSum(h, [], n);
        }
      } else {
        LastOfSum(h, [], n);
      }
    }
  }

  /** The sends a call makes on the socket it leaves behind are all accepted. */
  predicate SendsAccepted(ws: Ws, cfg: WsConfig, call: Call) {
    var n := |ws.subscriptions|;
    match call
    case DoConnect(script) =>
      script != [] && script[0].ok ==> n < |script| && forall j :: 1 <= j <= n ==> script[j].ok
    case DoSubscribe(_, script) => ws.stream.Connected? ==> script != [] && script[0].ok
    case DoRead(script) => LastComplete(ReadHandshakes(ws, cfg, script), n)
  }

  /**
   The exact condition, for every kind of call, under which a client that is missing nothing still misses nothing
   afterwards. For `connect`: if the handshake succeeds, so does every send after it. For `subscribe`: a live socket
   accepts it. For a read: of the handshakes it made on the way, the last one that succeeded got every subscription
   across, wherever the read stopped.
   */
  lemma FullySubscribedExactlyWhen(ws: Ws, cfg: WsConfig, call: Call)
    requires FullySubscribed(ws)
    ensures FullySubscribed(Perform(ws, cfg, call)) <==> SendsAccepted(ws, cfg, call)
  {
    match call
    case DoConnect(script) =>
      ConnectAccepts(ws, script);
      if script != [] && script[0].ok {
        AllAcceptedExactlyWhen(|ws.subscriptions|, script[1..]);
        assert forall j :: 1 <= j < |script| ==> script[j] == script[1..][j - 1];
        assert forall j :: 0 <= j < |script| - 1 ==> script[1..][j] == script[j + 1];
      }
    case DoSubscribe(subscription, script) =>
      if ws.stream.Connected? {
        assert |ws.subscriptions + [Subscribe(subscription)]| == |ws.stream.sent| + 1;
      }
    case DoRead(script) =>
      ReadAccepts(ws, cfg, script);
  }

  /** A read that returns a message never loses a subscription. */
  lemma MessageKeepsSubscriptions(ws: Ws, cfg: WsConfig, script: Script, text: string)
    requires FullySubscribed(ws) && NextMessage(ws, cfg, script).out == Done(Next(Ok(text)))
    ensures FullySubscribed(NextMessage(ws, cfg, script).ws)
  {
    ReadAccepts(ws, cfg, script);
  }

  /**
   But a read that gives up can: the socket closes, the only reconnection allowed shakes hands and sends half, and the
   read reports "exhausted" with that socket in place.
   */
  lemma ExhaustedReadLeavesHalf(a: Message, b: Message)
    ensures var (go, ws) := (Choice(true, 0, false, false, Closed), Ws(Connected([a, b]), [a, b], BASE_DELAY_MS, true));
            var e := NextMessage(ws, WsConfig(Max(1), false), [go, go, go, go, go.(ok := false), go]);
            && e.out == Done(Next(Err(WsReconnectExhausted(1))))
            && e.ws.stream == Connected([a]) && e.ws.subscriptions == [a, b]
  {
    var (go, cfg) := (Choice(true, 0, false, false, Closed), WsConfig(Max(1), false));
    var stop := go.(ok := false);
    var ws := Ws(Connected([a, b]), [a, b], BASE_DELAY_MS, true);
    var script := [go, go, go, go, stop, go];
    assert script[1..] == [go, go, go, stop, go];
    assert NextMessage(ws, cfg, script) == NextMessage(DropStream(ws), cfg, script[1..]);
    var open := ws.(stream := Connected([]));
    assert [go, go, go, stop, go][1..] == [go, go, stop, go] && [go, go, stop, go][1..] == [go, stop, go];
    assert [go, stop, go][1..] == [stop, go] && [stop, go][1..] == [go] && [] + [a] == [a];
    assert Resend(open.(stream := Connected([a])), [a, b], 1, [stop, go])
        == Effect(open.(stream := Connected([a])), Done(SEND_FAILED), [go]);
    assert Resend(open, [a, b], 0, [go, stop, go])
        == Resend(open.(stream := Connected([a])), [a, b], 1, [stop, go]);
    var c := Connect(DropStream(ws), [go, go, stop, go]);
    assert c == Effect(open.(stream := Connected([a])), Done(SEND_FAILED), [go]);
    var failed := c.ws.(reconnectDelayMs := NextDelay(BASE_DELAY_MS));
    assert Reconnect(failed, cfg, 1, [go])
        == Reconnection(failed, Done(Err(WsReconnectExhausted(1))), [go], [], 0);
    var r := Reconnect(DropStream(ws), cfg, 0, script[1..]);
    assert r.ws == failed && r.out == Done(Err(WsReconnectExhausted(1)));
  }
}

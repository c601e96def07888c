/**
 The auto-reconnecting WebSocket client. The network, the timers and the cancellation token act through a script:
 each await point of the code consumes one `Choice`. A script that ends leaves the call `Pending`, so finite scripts
 cover every finite prefix of every behaviour, including a future dropped half-way.
 */
module WsSession {
  import opened Arithmetic
  import opened Errors

  const BASE_DELAY_MS: nat := 1_000
  const MAX_DELAY_MS: nat := 30_000

  // ---------------------------------------------------------------- data

  datatype Message = Subscribe(subscription: string)

  /** A live socket, with the subscribe messages it has accepted. */
  datatype Stream = NoStream | Connected(sent: seq<Message>)

  datatype Ws = Ws(stream: Stream, subscriptions: seq<Message>, reconnectDelayMs: nat, heartbeat: bool)

  datatype Attempts = Infinite | Max(n: nat)

  datatype WsConfig = WsConfig(maxReconnectAttempts: Attempts, hasToken: bool)

  datatype Ready = Tick | Text(value: string) | BadText | PingFrame | OtherFrame | ReadError | Closed

  /**
   What the environment decides at one await point: whether a handshake or send succeeds, the random jitter, whether
   the token is cancelled by now, whether its branch wins a select, and which other branch becomes ready.
   */
  datatype Choice = Choice(ok: bool, random: nat, cancelled: bool, cancelWins: bool, ready: Ready)

  type Script = seq<Choice>

  datatype Outcome<T> = Pending | Done(value: T)

  datatype Item = End | Next(result: Result<string>)

  datatype Effect<T> = Effect(ws: Ws, out: Outcome<T>, rest: Script)

  /** One sleep of the backoff loop: the delay field when it started and the time actually slept. */
  datatype Sleep = Sleep(field: nat, actual: nat)

  datatype Reconnection = Reconnection(ws: Ws, out: Outcome<Result<()>>, rest: Script, sleeps: seq<Sleep>, connects: nat)

  const HANDSHAKE_FAILED: Result<()> := Err(WebSocket("WebSocket connection failed"))
  const NOT_CONNECTED: Result<()> := Err(WebSocket("WebSocket not connected"))
  const SEND_FAILED: Result<()> := Err(WebSocket("WebSocket send failed"))

  // ---------------------------------------------------------------- what each call does

  function New(): Ws {
    Ws(NoStream, [], BASE_DELAY_MS, false)
  }

  function SendRaw(ws: Ws, msg: Message, script: Script): (e: Effect<Result<()>>)
    ensures |e.rest| <= |script|
  {
    if ws.stream.NoStream? then Effect(ws, Done(NOT_CONNECTED), script)
    else if script == [] then Effect(ws, Pending, [])
    else if script[0].ok then
      Effect(ws.(stream := Connected(ws.stream.sent + [msg])), Done(Ok(())), script[1..])
    else Effect(ws, Done(SEND_FAILED), script[1..])
  }

  /** Re-sends the subscriptions from index `i` on, stopping at the first failure. */
  function Resend(ws: Ws, subs: seq<Message>, i: nat, script: Script): (e: Effect<Result<()>>)
    requires i <= |subs|
    ensures |e.rest| <= |script|
    decreases |subs| - i
  {
    if i == |subs| then Effect(ws, Done(Ok(())), script)
    else
      var e := SendRaw(ws, subs[i], script);
      if e.out == Done(Ok(())) then Resend(e.ws, subs, i + 1, e.rest) else e
  }

  function Connect(ws: Ws, script: Script): (e: Effect<Result<()>>)
    ensures |e.rest| <= |script|
    ensures script != [] ==> |e.rest| < |script|
  {
    if script == [] then Effect(ws, Pending, [])
    else if !script[0].ok then Effect(ws, Done(HANDSHAKE_FAILED), script[1..])
    else
      Resend(ws.(stream := Connected([]), reconnectDelayMs := BASE_DELAY_MS, heartbeat := true),
             ws.subscriptions, 0, script[1..])
  }

  function SubscribeRaw(ws: Ws, subscription: string, script: Script): Effect<Result<()>> {
    var msg := Subscribe(subscription);
    SendRaw(ws.(subscriptions := ws.subscriptions + [msg]), msg, script)
  }

  function NextDelay(ms: nat): nat {
    Min(ms * 2, MAX_DELAY_MS)
  }

  function Jitter(ms: nat, random: nat): nat {
    random % (ms / 4 + 1)
  }

  function Reconnect(ws: Ws, cfg: WsConfig, attempts: nat, script: Script): (r: Reconnection)
    ensures |r.rest| <= |script|
    decreases |script|
  {
    if script == [] then Reconnection(ws, Pending, [], [], 0)
    else if cfg.hasToken && script[0].cancelled then Reconnection(ws, Done(Err(WsCancelled)), script, [], 0)
    else if cfg.maxReconnectAttempts.Max? && attempts >= cfg.maxReconnectAttempts.n then
      Reconnection(ws, Done(Err(WsReconnectExhausted(attempts))), script, [], 0)
    else
      var sleep := Sleep(ws.reconnectDelayMs, ws.reconnectDelayMs + Jitter(ws.reconnectDelayMs, script[0].random));
      if cfg.hasToken && script[0].cancelWins then
        Reconnection(ws, Done(Err(WsCancelled)), script[1..], [sleep], 0)
      else
        var c := Connect(ws, script[1..]);
        match c.out
        case Pending => Reconnection(c.ws, Pending, c.rest, [sleep], 1)
        case Done(Ok(_)) => Reconnection(c.ws, Done(Ok(())), c.rest, [sleep], 1)
        case Done(Err(_)) =>
          var failed := c.ws.(reconnectDelayMs := NextDelay(c.ws.reconnectDelayMs));
          var r := Reconnect(failed, cfg, attempts + 1, c.rest);
          r.(sleeps := [sleep] + r.sleeps, connects := r.connects + 1)
  }

  /** A reconnection that had already slept and connected before. */
  ghost function Continue(slept: seq<Sleep>, connects: nat, r: Reconnection): Reconnection {
    r.(sleeps := slept + r.sleeps, connects := connects + r.connects)
  }

  lemma ContinueStep(slept: seq<Sleep>, connects: nat, sleep: Sleep, r: Reconnection)
    ensures Continue(slept, connects, r.(sleeps := [sleep] + r.sleeps, connects := r.connects + 1))
         == Continue(slept + [sleep], connects + 1, r)
  {
    assert slept + ([sleep] + r.sleeps) == slept + [sleep] + r.sleeps;
  }

  function DropStream(ws: Ws): Ws {
    ws.(stream := NoStream, heartbeat := false)
  }

  /** What one pass of the read loop's select does to a connected client, or `Pending` to go round again. */
  function Select(ws: Ws, cfg: WsConfig, script: Script): (e: Effect<Item>)
    requires script != []
    ensures |e.rest| < |script|
  {
    var (c, rest) := (script[0], script[1..]);
    if cfg.hasToken && c.cancelWins then Effect(ws, Done(Next(Err(WsCancelled))), rest)
    else
      match c.ready
      case Tick =>
        if ws.heartbeat && rest != [] then
          Effect(if rest[0].ok then ws else DropStream(ws), Pending, rest[1..])
        else Effect(ws, Pending, rest)
      case Text(value) => Effect(ws, Done(Next(Ok(value))), rest)
      case PingFrame => Effect(ws, Pending, if rest != [] then rest[1..] else rest)
      case BadText | OtherFrame => Effect(ws, Pending, rest)
      case ReadError | Closed => Effect(DropStream(ws), Pending, rest)
  }

  function NextMessage(ws: Ws, cfg: WsConfig, script: Script): Effect<Item>
    decreases |script|
  {
    if script == [] then Effect(ws, Pending, [])
    else if cfg.hasToken && script[0].cancelled then Effect(ws, Done(Next(Err(WsCancelled))), script)
    else
      var r := if ws.stream.NoStream? then Reconnect(ws, cfg, 0, script)
               else Reconnection(ws, Done(Ok(())), script, [], 0);
      match r.out
      case Pending => Effect(r.ws, Pending, r.rest)
      case Done(Err(e)) => Effect(r.ws, Done(Next(Err(e))), r.rest)
      case Done(Ok(_)) =>
        if r.ws.stream.NoStream? then Effect(r.ws, Done(End), r.rest)
        else if r.rest == [] then Effect(r.ws, Pending, [])
        else
          var s := Select(r.ws, cfg, r.rest);
          if s.out.Done? then s else NextMessage(s.ws, cfg, s.rest)
  }

  // ---------------------------------------------------------------- in place

  class HyperliquidWs {
    var stream: Stream
    var subscriptions: seq<Message>
    var reconnectDelayMs: nat
    var heartbeatInterval: bool
    const config: WsConfig

    ghost function State(): Ws
      reads this
    {
      Ws(stream, subscriptions, reconnectDelayMs, heartbeatInterval)
    }

    constructor WithConfig(config: WsConfig)
      ensures State() == New() && this.config == config
    {
      stream := NoStream;
      subscriptions := [];
      reconnectDelayMs := BASE_DELAY_MS;
      heartbeatInterval := false;
      this.config := config;
    }

    method Send(msg: Message, script: Script) returns (out: Outcome<Result<()>>, rest: Script)
      modifies this`stream
      ensures Effect(State(), out, rest) == SendRaw(old(State()), msg, script)
    {
      if stream.NoStream? {
        return Done(NOT_CONNECTED), script;
      }
      if script == [] {
        return Pending, [];
      }
      if script[0].ok {
        stream := Connected(stream.sent + [msg]);
        return Done(Ok(())), script[1..];
      }
      return Done(SEND_FAILED), script[1..];
    }

    method ConnectNow(script: Script) returns (out: Outcome<Result<()>>, rest: Script)
      modifies this
      ensures Effect(State(), out, rest) == Connect(old(State()), script)
    {
      if script == [] {
        return Pending, [];
      }
      rest := script[1..];
      if !script[0].ok {
        return Done(HANDSHAKE_FAILED), rest;
      }
      stream := Connected([]);
      reconnectDelayMs := BASE_DELAY_MS;
      heartbeatInterval := true;
      var subs := subscriptions;
      var i := 0;
      ghost var spec := Resend(State(), subs, 0, rest);
      while i < |subs|
        invariant i <= |subs|
        invariant spec == Connect(old(State()), script)
        invariant spec == Resend(State(), subs, i, rest)
      {
        out, rest := Send(subs[i], rest);
        if out != Done(Ok(())) {
          return;
        }
        i := i + 1;
      }
      out := Done(Ok(()));
    }

    method SubscribeTo(subscription: string, script: Script) returns (out: Outcome<Result<()>>, rest: Script)
      modifies this
      ensures Effect(State(), out, rest) == SubscribeRaw(old(State()), subscription, script)
    {
      var msg := Subscribe(subscription);
      subscriptions := subscriptions + [msg];
      out, rest := Send(msg, script);
    }

    method ReconnectWithBackoff(script: Script)
      returns (out: Outcome<Result<()>>, rest: Script, sleeps: seq<Sleep>, connects: nat)
      modifies this
      ensures Reconnection(State(), out, rest, sleeps, connects) == Reconnect(old(State()), config, 0, script)
    {
      hide Connect, NextDelay, Jitter;
      var attempts := 0;
      rest, sleeps, connects := script, [], 0;
      while true
        invariant connects == attempts
        invariant Reconnect(old(State()), config, 0, script)
               == Continue(sleeps, connects, Reconnect(State(), config, attempts, rest))
        decreases |rest|
      {
        assert sleeps + [] == sleeps;
        if rest == [] {
          return Pending, rest, sleeps, connects;
        }
        if config.hasToken && rest[0].cancelled {
          return Done(Err(WsCancelled)), rest, sleeps, connects;
        }
        if config.maxReconnectAttempts.Max? && attempts >= config.maxReconnectAttempts.n {
          return Done(Err(WsReconnectExhausted(attempts))), rest, sleeps, connects;
        }
        var jitter := Jitter(reconnectDelayMs, rest[0].random);
        ghost var (before, slept) := (sleeps, Sleep(reconnectDelayMs, reconnectDelayMs + jitter));
        sleeps := sleeps + [Sleep(reconnectDelayMs, reconnectDelayMs + jitter)];
        if config.hasToken && rest[0].cancelWins {
          return Done(Err(WsCancelled)), rest[1..], sleeps, connects;
        }
        attempts := attempts + 1;
        connects := connects + 1;
        out, rest := ConnectNow(rest[1..]);
        if out.Pending? || out.value.Ok? {
          assert out.Pending? || out.value.value == ();
          return;
        }
        reconnectDelayMs := NextDelay(reconnectDelayMs);
        ContinueStep(before, connects - 1, slept, Reconnect(State(), config, attempts, rest));
      }
      assert false;
    }

    method ReadNext(script: Script) returns (out: Outcome<Item>, rest: Script)
      modifies this
      ensures Effect(State(), out, rest) == NextMessage(old(State()), config, script)
    {
      rest := script;
      while true
        invariant NextMessage(old(State()), config, script) == NextMessage(State(), config, rest)
        decreases |rest|
      {
        if rest == [] {
          return Pending, rest;
        }
        if config.hasToken && rest[0].cancelled {
          return Done(Next(Err(WsCancelled))), rest;
        }
        if stream.NoStream? {
          var reconnected, left, _, _ := ReconnectWithBackoff(rest);
          rest := left;
          if reconnected.Pending? {
            return Pending, rest;
          } else if reconnected.value.Err? {
            return Done(Next(Err(reconnected.value.error))), rest;
          }
        }
        if stream.NoStream? {
          return Done(End), rest;
        }
        if rest == [] {
          return Pending, rest;
        }
        var choice := rest[0];
        rest := rest[1..];
        if config.hasToken && choice.cancelWins {
          return Done(Next(Err(WsCancelled))), rest;
        }
        match choice.ready {
          case Tick =>
            if heartbeatInterval && rest != [] {
              if !rest[0].ok {
                stream := NoStream;
                heartbeatInterval := false;
              }
              rest := rest[1..];
            }
          case Text(value) =>
            return Done(Next(Ok(value))), rest;
          case PingFrame =>
            if rest != [] {
              rest := rest[1..];
            }
          case BadText | OtherFrame =>
          case ReadError | Closed =>
            stream := NoStream;
            heartbeatInterval := false;
        }
      }
      assert false;
    }
  }
}

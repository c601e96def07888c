/** Position reconciliation: the diff between a caller's positions and the exchange's. Names are ASCII. */
module Reconcile {
  import opened AsciiNames
  import opened Options

  datatype PositionSide = Long | Short

  datatype LocalPosition = LocalPosition(id: string, coin: string, side: PositionSide, size: real)

  datatype ExchangePosition = ExchangePosition(market: string, side: PositionSide, size: real, entryPrice: real)

  datatype Action =
    | ClosedStale(id: string, market: string)
    | AddedMissing(market: string, side: PositionSide, size: real, entryPrice: real)
    | Updated(market: string, oldSize: real, newSize: real, oldSide: PositionSide, newSide: PositionSide)

  const ZERO_SIZE_THRESHOLD: real := 0.000_000_000_001
  const SIZE_TOLERANCE: real := 0.001

  function Abs(x: real): real {
    if x < 0.0 then -x else x
  }

  // ---------------------------------------------------------------- market names

  const PERP: string := "-PERP"

  /** The key of a local position uppercases its coin; the exchange's market does not. */
  function LocalMarket(p: LocalPosition): string {
    ToUpper(p.coin) + PERP
  }

  function ExchangeMarket(coin: string): string {
    coin + PERP
  }

  function CoinOf(market: string): string {
    if |PERP| <= |market| then market[..|market| - |PERP|] else market
  }

  // ---------------------------------------------------------------- the exchange's answer

  /** One entry of `assetPositions`; `None` stands for an absent, mistyped or unparsable field. */
  datatype RawPosition = RawPosition(coin: Option<string>, szi: Option<real>, entryPx: Option<real>)

  function Or(m: Option<real>, default: real): real {
    if m.Some? then m.value else default
  }

  predicate IsOpen(p: RawPosition) {
    Abs(Or(p.szi, 0.0)) >= ZERO_SIZE_THRESHOLD && p.coin.Some? && p.coin.value != ""
  }

  function Parsed(p: RawPosition): ExchangePosition
    requires IsOpen(p)
  {
    var size := Or(p.szi, 0.0);
    ExchangePosition(ExchangeMarket(p.coin.value), if size > 0.0 then Long else Short, Abs(size), Or(p.entryPx, 0.0))
  }

  function ParsedAll(raw: seq<RawPosition>): seq<ExchangePosition> {
    if raw == [] then []
    else
      var p := raw[|raw| - 1];
      ParsedAll(raw[..|raw| - 1]) + if IsOpen(p) then [Parsed(p)] else []
  }

  method ParseExchangePositions(raw: seq<RawPosition>) returns (positions: seq<ExchangePosition>)
    ensures positions == ParsedAll(raw)
    ensures forall j :: 0 <= j < |positions| ==> positions[j].size >= ZERO_SIZE_THRESHOLD && positions[j].market != PERP
  {
    positions := [];
    for i := 0 to |raw|
      invariant positions == ParsedAll(raw[..i])
      invariant forall j :: 0 <= j < |positions| ==> positions[j].size >= ZERO_SIZE_THRESHOLD && positions[j].market != PERP
    {
      assert raw[..i + 1][..i] == raw[..i];
      var p := raw[i];
      var size := Or(p.szi, 0.0);
      if Abs(size) < ZERO_SIZE_THRESHOLD {
        continue;
      }
      var entryPrice := Or(p.entryPx, 0.0);
      if p.coin.None? || p.coin.value == "" {
        continue;
      }
      var side := if size > 0.0 then Long else Short;
      assert |p.coin.value + PERP| > |PERP|;
      positions := positions + [ExchangePosition(p.coin.value + PERP, side, Abs(size), entryPrice)];
    }
    assert raw[..|raw|] == raw;
  }

  // ---------------------------------------------------------------- the diff

  type Index = map<string, LocalPosition>

  /** For each market, the first position among the first `n`. */
  function IndexUpTo(local: seq<LocalPosition>, n: nat): Index
    requires n <= |local|
  {
    if n == 0 then map[]
    else
      var (before, p) := (IndexUpTo(local, n - 1), local[n - 1]);
      if LocalMarket(p) in before then before else before[LocalMarket(p) := p]
  }

  function IndexOf(local: seq<LocalPosition>): Index {
    IndexUpTo(local, |local|)
  }

  /** The action for position `i` if its market was seen before: close it as a duplicate. */
  function DuplicateAt(local: seq<LocalPosition>, i: nat): seq<Action>
    requires i < |local|
  {
    var market := LocalMarket(local[i]);
    if market in IndexUpTo(local, i) then [ClosedStale(local[i].id, market)] else []
  }

  function DuplicatesUpTo(local: seq<LocalPosition>, n: nat): seq<Action>
    requires n <= |local|
  {
    if n == 0 then [] else DuplicatesUpTo(local, n - 1) + DuplicateAt(local, n - 1)
  }

  function Duplicates(local: seq<LocalPosition>): seq<Action> {
    DuplicatesUpTo(local, |local|)
  }

  predicate Lists(exchange: seq<ExchangePosition>, market: string) {
    exists j :: 0 <= j < |exchange| && exchange[j].market == market
  }

  /** Positions closed because the exchange has none for their market, visiting the index in the given order. */
  function Unlisted(index: Index, exchange: seq<ExchangePosition>, order: seq<string>): seq<Action>
    requires forall m :: m in order ==> m in index
  {
    if order == [] then []
    else
      (if Lists(exchange, order[0]) then [] else [ClosedStale(index[order[0]].id, order[0])])
      + Unlisted(index, exchange, order[1..])
  }

  predicate Diverged(p: LocalPosition, ep: ExchangePosition) {
    Abs(p.size - ep.size) > ep.size * SIZE_TOLERANCE || p.side != ep.side
  }

  function ActionFor(index: Index, ep: ExchangePosition): seq<Action> {
    if ep.market !in index then [AddedMissing(ep.market, ep.side, ep.size, ep.entryPrice)]
    else
      var p := index[ep.market];
      if Diverged(p, ep) then [Updated(ep.market, p.size, ep.size, p.side, ep.side)] else []
  }

  function ActionsFor(index: Index, exchange: seq<ExchangePosition>): seq<Action> {
    if exchange == [] then [] else ActionFor(index, exchange[0]) + ActionsFor(index, exchange[1..])
  }

  /** A hash map may be visited in any order, each key once. */
  ghost predicate IterationOrder(index: Index, order: seq<string>) {
    && (forall m :: m in index <==> m in order)
    && (forall i, j :: 0 <= i < j < |order| ==> order[i] != order[j])
  }

  function Diff(local: seq<LocalPosition>, exchange: seq<ExchangePosition>, order: seq<string>): seq<Action>
    requires forall m :: m in order ==> m in IndexOf(local)
  {
    var index := IndexOf(local);
    Duplicates(local) + Unlisted(index, exchange, order) + ActionsFor(index, exchange)
  }

  datatype Report = Report(actions: seq<Action>, exchangeCount: nat, localCount: nat)

  /** First pass: index the local positions by market; later ones for the same market are stale duplicates. */
  method IndexLocal(local: seq<LocalPosition>) returns (localByMarket: Index, actions: seq<Action>)
    ensures localByMarket == IndexOf(local) && actions == Duplicates(local)
  {
    localByMarket, actions := map[], [];
    for i := 0 to |local|
      invariant localByMarket == IndexUpTo(local, i) && actions == DuplicatesUpTo(local, i)
    {
      var p := local[i];
      var market := LocalMarket(p);
      if market in localByMarket {
        actions := actions + [ClosedStale(p.id, market)];
      } else {
        localByMarket := localByMarket[market := p];
      }
    }
  }

  /** Second pass: close what the exchange does not list. `order` exposes how the hash map happened to be visited. */
  method CloseUnlisted(localByMarket: Index, exchange: seq<ExchangePosition>)
    returns (actions: seq<Action>, order: seq<string>)
    ensures IterationOrder(localByMarket, order)
    ensures actions == Unlisted(localByMarket, exchange, order)
  {
    var exchangeByMarket := set j | 0 <= j < |exchange| :: exchange[j].market;
    var remaining := localByMarket.Keys;
    actions, order := [], [];
    while remaining != {}
      invariant remaining <= localByMarket.Keys
      invariant forall m :: m in order <==> m in localByMarket.Keys - remaining
      invariant forall i, j :: 0 <= i < j < |order| ==> order[i] != order[j]
      invariant actions == Unlisted(localByMarket, exchange, order)
      decreases remaining
    {
      var market :| market in remaining;
      assert market in exchangeByMarket <==> Lists(exchange, market);
      UnlistedAppend(localByMarket, exchange, order, market);
      if market !in exchangeByMarket {
        actions := actions + [ClosedStale(localByMarket[market].id, market)];
      }
      assert market !in order;
      order := order + [market];
      remaining := remaining - {market};
    }
  }

  /** Third pass: add what is missing locally and update what diverged. */
  method AddAndUpdate(localByMarket: Index, exchange: seq<ExchangePosition>) returns (actions: seq<Action>)
    ensures actions == ActionsFor(localByMarket, exchange)
  {
    actions := [];
    for j := 0 to |exchange|
      invariant actions == ActionsFor(localByMarket, exchange[..j])
    {
      assert exchange[..j + 1] == exchange[..j] + [exchange[j]];
      ActionsForAppend(localByMarket, exchange[..j], exchange[j]);
      var ep := exchange[j];
      if ep.market !in localByMarket {
        actions := actions + [AddedMissing(ep.market, ep.side, ep.size, ep.entryPrice)];
      } else {
        var p := localByMarket[ep.market];
        var sizeDiff := Abs(p.size - ep.size);
        var threshold := ep.size * SIZE_TOLERANCE;
        var sideChanged := p.side != ep.side;
        if sizeDiff > threshold || sideChanged {
          actions := actions + [Updated(ep.market, p.size, ep.size, p.side, ep.side)];
        }
      }
    }
    assert exchange[..|exchange|] == exchange;
  }

  /** The whole diff. The guarantees below hold for every order in which the hash map may be visited. */
  method ReconcilePositions(local: seq<LocalPosition>, raw: seq<RawPosition>)
    returns (report: Report, order: seq<string>)
    ensures IterationOrder(IndexOf(local), order)
    ensures report == Report(Diff(local, ParsedAll(raw), order), |ParsedAll(raw)|, |local|)
  {
    var exchange := ParseExchangePositions(raw);
    var localByMarket, duplicates := IndexLocal(local);
    var unlisted;
    unlisted, order := CloseUnlisted(localByMarket, exchange);
    var changes := AddAndUpdate(localByMarket, exchange);
    report := Report(duplicates + unlisted + changes, |exchange|, |local|);
  }

  lemma {:induction false} UnlistedAppend(index: Index, exchange: seq<ExchangePosition>, order: seq<string>, m: string)
    requires m in index && forall k :: k in order ==> k in index
    ensures Unlisted(index, exchange, order + [m])
         == Unlisted(index, exchange, order)
            + if Lists(exchange, m) then [] else [ClosedStale(index[m].id, m)]
  {
    hide Lists;
    if order == [] {
      assert [] + [m] == [m] && [m][1..] == [];
    } else {
      assert (order + [m])[1..] == order[1..] + [m];
      UnlistedAppend(index, exchange, order[1..], m);
    }
  }

  lemma {:induction false} ActionsForAppend(index: Index, exchange: seq<ExchangePosition>, ep: ExchangePosition)
    ensures ActionsFor(index, exchange + [ep]) == ActionsFor(index, exchange) + ActionFor(index, ep)
  {
    if exchange == [] {
      assert [] + [ep] == [ep] && [ep][1..] == [];
    } else {
      assert (exchange + [ep])[1..] == exchange[1..] + [ep];
      ActionsForAppend(index, exchange[1..], ep);
    }
  }
}

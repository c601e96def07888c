/** Applying a reconciliation report: what it achieves, what it counts, and when doing it again finds nothing. */
module ReconcileGuarantees {
  import opened AsciiNames
  import opened Options
  import opened Reconcile

  // ---------------------------------------------------------------- applying a report

  function Keep(local: seq<LocalPosition>, closed: string): seq<LocalPosition> {
    if local == [] then []
    else (if local[0].id == closed then [] else [local[0]]) + Keep(local[1..], closed)
  }

  function WithUpdate(p: LocalPosition, market: string, side: PositionSide, size: real): LocalPosition {
    if LocalMarket(p) == market then p.(side := side, size := size) else p
  }

  /** What a caller does with one action; `newId` names the positions it has to add. */
  function Apply(local: seq<LocalPosition>, action: Action, newId: string -> string): seq<LocalPosition> {
    match action
    case ClosedStale(id, _) => Keep(local, id)
    case AddedMissing(market, side, size, _) => local + [LocalPosition(newId(market), CoinOf(market), side, size)]
    case Updated(market, _, size, _, side) =>
      seq(|local|, i requires 0 <= i < |local| => WithUpdate(local[i], market, side, size))
  }

  function ApplyAll(local: seq<LocalPosition>, actions: seq<Action>, newId: string -> string): seq<LocalPosition>
    decreases |actions|
  {
    if actions == [] then local else ApplyAll(Apply(local, actions[0], newId), actions[1..], newId)
  }

  lemma {:induction false} ApplyConcat(local: seq<LocalPosition>, a: seq<Action>, b: seq<Action>, newId: string -> string)
    ensures ApplyAll(local, a + b, newId) == ApplyAll(ApplyAll(local, a, newId), b, newId)
    decreases |a|
  {
    if a == [] {
      assert a + b == b;
    } else {
      assert (a + b)[1..] == a[1..] + b;
      ApplyConcat(Apply(local, a[0], newId), a[1..], b, newId);
    }
  }

  lemma ApplyOne(local: seq<LocalPosition>, action: Action, newId: string -> string)
    ensures ApplyAll(local, [action], newId) == Apply(local, action, newId)
  {
    assert [action][1..] == [];
    assert ApplyAll(Apply(local, action, newId), [], newId) == Apply(local, action, newId);
  }

  // ---------------------------------------------------------------- being in sync

  ghost predicate DistinctIds(local: seq<LocalPosition>) {
    forall i, j :: 0 <= i < j < |local| ==> local[i].id != local[j].id
  }

  ghost predicate OnePerMarket(local: seq<LocalPosition>) {
    forall i, j :: 0 <= i < j < |local| ==> LocalMarket(local[i]) != LocalMarket(local[j])
  }

  /** The exchange has one position per market, as the one-position-per-market model promises. */
  ghost predicate DistinctMarkets(exchange: seq<ExchangePosition>) {
    forall i, j :: 0 <= i < j < |exchange| ==> exchange[i].market != exchange[j].market
  }

  ghost predicate AllUpper(exchange: seq<ExchangePosition>) {
    forall j :: 0 <= j < |exchange| ==> IsUpper(exchange[j].market)
  }

  /** Some local position stands for `ep`: same side, size within 0.1%. */
  ghost predicate Mirrors(local: seq<LocalPosition>, ep: ExchangePosition) {
    exists i :: 0 <= i < |local| && LocalMarket(local[i]) == ep.market
                && local[i].side == ep.side && Abs(local[i].size - ep.size) <= ep.size * SIZE_TOLERANCE
  }

  /** Exactly one local position per exchange position, and no other. */
  ghost predicate InSync(local: seq<LocalPosition>, exchange: seq<ExchangePosition>) {
    && OnePerMarket(local)
    && (forall i :: 0 <= i < |local| ==> Lists(exchange, LocalMarket(local[i])))
    && (forall j :: 0 <= j < |exchange| ==> Mirrors(local, exchange[j]))
  }

  // ---------------------------------------------------------------- names

  lemma UpperMarket(coin: string)
    ensures IsUpper(ToUpper(coin) + PERP)
    ensures IsUpper(ExchangeMarket(coin)) <==> IsUpper(coin)
    ensures CoinOf(ExchangeMarket(coin)) == coin
  {
    ToUpperIdempotent(coin);
    UpperParts(ToUpper(coin), PERP);
    UpperParts(coin, PERP);
  }

  // ---------------------------------------------------------------- the index

  ghost predicate SeenBefore(local: seq<LocalPosition>, n: nat, market: string)
    requires n <= |local|
  {
    exists k :: 0 <= k < n && LocalMarket(local[k]) == market
  }

  /** Position `i` is the first of its market. */
  ghost predicate First(local: seq<LocalPosition>, i: nat)
    requires i < |local|
  {
    !SeenBefore(local, i, LocalMarket(local[i]))
  }

  lemma {:induction false} IndexMembers(local: seq<LocalPosition>, n: nat, market: string)
    requires n <= |local|
    ensures market in IndexUpTo(local, n) <==> SeenBefore(local, n, market)
  {
    if n > 0 {
      IndexMembers(local, n - 1, market);
      if SeenBefore(local, n, market) && LocalMarket(local[n - 1]) != market {
        var k :| 0 <= k < n && LocalMarket(local[k]) == market;
        assert k < n - 1;
      }
    }
  }

  lemma {:induction false} FirstIsIndexed(local: seq<LocalPosition>, n: nat, i: nat)
    requires i < n <= |local| && First(local, i)
    ensures LocalMarket(local[i]) in IndexUpTo(local, n) && IndexUpTo(local, n)[LocalMarket(local[i])] == local[i]
  {
    if i < n - 1 {
      FirstIsIndexed(local, n - 1, i);
    } else {
      IndexMembers(local, i, LocalMarket(local[i]));
    }
  }

  lemma {:induction false} FirstOf(local: seq<LocalPosition>, n: nat, market: string) returns (k: nat)
    requires n <= |local| && market in IndexUpTo(local, n)
    ensures k < n && IndexUpTo(local, n)[market] == local[k] && LocalMarket(local[k]) == market && First(local, k)
  {
    if market in IndexUpTo(local, n - 1) {
      k := FirstOf(local, n - 1, market);
    } else {
      k := n - 1;
      IndexMembers(local, n - 1, market);
    }
  }

  // ---------------------------------------------------------------- closing

  lemma {:induction false} KeepMembers(local: seq<LocalPosition>, closed: string)
    ensures forall p :: p in Keep(local, closed) <==> p in local && p.id != closed
    ensures DistinctIds(local) ==> DistinctIds(Keep(local, closed))
  {
    if local != [] {
      KeepMembers(local[1..], closed);
      if DistinctIds(local) {
        var rest := Keep(local[1..], closed);
        forall k | 0 <= k < |rest|
          ensures rest[k].id != local[0].id
        {
          assert rest[k] in local[1..];
        }
      }
    }
  }

  ghost predicate Closes(actions: seq<Action>, id: string) {
    exists k :: 0 <= k < |actions| && actions[k].ClosedStale? && actions[k].id == id
  }

  ghost predicate OnlyCloses(actions: seq<Action>) {
    forall k :: 0 <= k < |actions| ==> actions[k].ClosedStale?
  }

  lemma {:induction false} ApplyCloses(local: seq<LocalPosition>, actions: seq<Action>, newId: string -> string)
    requires OnlyCloses(actions) && DistinctIds(local)
    ensures var l := ApplyAll(local, actions, newId);
            DistinctIds(l) && forall p :: p in l <==> p in local && !Closes(actions, p.id)
    decreases |actions|
  {
    if actions != [] {
      KeepMembers(local, actions[0].id);
      assert actions == [actions[0]] + actions[1..];
      ApplyCloses(Apply(local, actions[0], newId), actions[1..], newId);
      forall p
        ensures Closes(actions, p) <==> actions[0].id == p || Closes(actions[1..], p)
      {
        if Closes(actions[1..], p) {
          var k :| 0 <= k < |actions[1..]| && actions[1..][k].ClosedStale? && actions[1..][k].id == p;
          assert actions[k + 1].id == p;
        }
        if Closes(actions, p) && actions[0].id != p {
          var k :| 0 <= k < |actions| && actions[k].ClosedStale? && actions[k].id == p;
          assert actions[1..][k - 1].id == p;
        }
      }
    }
  }

  lemma {:induction false} DuplicatesAreLocal(local: seq<LocalPosition>, n: nat, id: string)
    requires n <= |local|
    ensures OnlyCloses(DuplicatesUpTo(local, n))
    ensures Closes(DuplicatesUpTo(local, n), id) ==> exists i :: 0 <= i < n && local[i].id == id
  {
    if n > 0 {
      DuplicatesAreLocal(local, n - 1, id);
      ClosesConcat(DuplicatesUpTo(local, n - 1), DuplicateAt(local, n - 1), id);
    }
  }

  lemma DuplicateAtCloses(local: seq<LocalPosition>, i: nat, id: string)
    requires i < |local|
    ensures Closes(DuplicateAt(local, i), id) <==> !First(local, i) && id == local[i].id
  {
    IndexMembers(local, i, LocalMarket(local[i]));
    if DuplicateAt(local, i) != [] {
      assert DuplicateAt(local, i)[0].id == local[i].id;
    }
  }

  lemma LastIsNew(local: seq<LocalPosition>, n: nat)
    requires DistinctIds(local) && 0 < n <= |local|
    ensures !Closes(DuplicatesUpTo(local, n - 1), local[n - 1].id)
  {
    DuplicatesAreLocal(local, n - 1, local[n - 1].id);
  }

  /** The duplicates closed are exactly the positions that are not the first of their market. */
  lemma {:induction false} DuplicateExactlyWhen(local: seq<LocalPosition>, n: nat, i: nat)
    requires DistinctIds(local) && i < n <= |local|
    ensures Closes(DuplicatesUpTo(local, n), local[i].id) <==> !First(local, i)
  {
    ClosesConcat(DuplicatesUpTo(local, n - 1), DuplicateAt(local, n - 1), local[i].id);
    DuplicateAtCloses(local, n - 1, local[i].id);
    if i < n - 1 {
      DuplicateExactlyWhen(local, n - 1, i);
    } else {
      LastIsNew(local, n);
    }
  }

  lemma ClosesConcat(a: seq<Action>, b: seq<Action>, id: string)
    ensures Closes(a + b, id) <==> Closes(a, id) || Closes(b, id)
  {
    if Closes(a, id) {
      var k :| 0 <= k < |a| && a[k].ClosedStale? && a[k].id == id;
      assert (a + b)[k].id == id;
    }
    if Closes(b, id) {
      var k :| 0 <= k < |b| && b[k].ClosedStale? && b[k].id == id;
      assert (a + b)[|a| + k].id == id;
    }
    if Closes(a + b, id) {
      var k :| 0 <= k < |a + b| && (a + b)[k].ClosedStale? && (a + b)[k].id == id;
      if k < |a| {
        assert a[k].id == id;
      } else {
        assert b[k - |a|].id == id;
      }
    }
  }

  lemma {:induction false} UnlistedCloses(index: Index, exchange: seq<ExchangePosition>, order: seq<string>)
    requires forall m :: m in order ==> m in index
    ensures OnlyCloses(Unlisted(index, exchange, order))
    ensures forall id :: Closes(Unlisted(index, exchange, order), id)
                    <==> exists m :: m in order && !Lists(exchange, m) && index[m].id == id
  {
    if order != [] {
      UnlistedCloses(index, exchange, order[1..]);
      var first := if Lists(exchange, order[0]) then [] else [ClosedStale(index[order[0]].id, order[0])];
      var rest := Unlisted(index, exchange, order[1..]);
      forall id
        ensures Closes(first + rest, id)
            <==> exists m :: m in order && !Lists(exchange, m) && index[m].id == id
      {
        ClosesConcat(first, rest, id);
        if first != [] && id == index[order[0]].id {
          assert first[0].id == id;
        }
      }
    }
  }

  lemma StaleExactlyWhen(local: seq<LocalPosition>, exchange: seq<ExchangePosition>, order: seq<string>, i: nat)
    requires DistinctIds(local) && IterationOrder(IndexOf(local), order) && i < |local|
    ensures Closes(Unlisted(IndexOf(local), exchange, order), local[i].id)
            <==> First(local, i) && !Lists(exchange, LocalMarket(local[i]))
  {
    UnlistedCloses(IndexOf(local), exchange, order);
    if First(local, i) {
      FirstIsIndexed(local, |local|, i);
    }
    if m :| m in order && !Lists(exchange, m) && IndexOf(local)[m].id == local[i].id {
      var k := FirstOf(local, |local|, m);
      assert k == i;
    }
  }

  /** After the closing passes there remain exactly the first positions of the markets the exchange lists. */
  lemma ClosingKeepsListedFirsts(local: seq<LocalPosition>, exchange: seq<ExchangePosition>, order: seq<string>,
                                 newId: string -> string)
    requires DistinctIds(local) && IterationOrder(IndexOf(local), order)
    ensures var l := ApplyAll(local, Duplicates(local) + Unlisted(IndexOf(local), exchange, order), newId);
            && DistinctIds(l)
            && (forall p :: p in l ==> p in local)
            && (forall i :: 0 <= i < |local| ==>
                  (local[i] in l <==> First(local, i) && Lists(exchange, LocalMarket(local[i]))))
  {
    var (dups, stale) := (Duplicates(local), Unlisted(IndexOf(local), exchange, order));
    DuplicatesAreLocal(local, |local|, "");
    UnlistedCloses(IndexOf(local), exchange, order);
    ApplyCloses(local, dups + stale, newId);
    forall i | 0 <= i < |local|
      ensures Closes(dups + stale, local[i].id) <==> !(First(local, i) && Lists(exchange, LocalMarket(local[i])))
    {
      ClosesConcat(dups, stale, local[i].id);
      DuplicateExactlyWhen(local, |local|, i);
      StaleExactlyWhen(local, exchange, order, i);
    }
  }

  // ---------------------------------------------------------------- adding and updating

  /** `market` is the exchange's spelling of an uppercase coin. */
  ghost predicate WellSpelled(market: string) {
    exists coin: string :: market == ExchangeMarket(coin) && IsUpper(coin)
  }

  ghost predicate Holds(local: seq<LocalPosition>, market: string) {
    exists i :: 0 <= i < |local| && LocalMarket(local[i]) == market
  }

  /**
   Half-way through the third pass: `done` is in sync, and for `todo` the list still holds what the index said when
   the actions were computed.
   */
  ghost predicate Progress(local: seq<LocalPosition>, index: Index, done: seq<ExchangePosition>,
                           todo: seq<ExchangePosition>) {
    && OnePerMarket(local)
    && (forall i :: 0 <= i < |local| ==> Lists(done, LocalMarket(local[i])) || Lists(todo, LocalMarket(local[i])))
    && (forall j :: 0 <= j < |done| ==> Mirrors(local, done[j]))
    && (forall j :: 0 <= j < |todo| ==> (todo[j].market in index <==> Holds(local, todo[j].market)))
    && (forall i :: 0 <= i < |local| && Lists(todo, LocalMarket(local[i])) && LocalMarket(local[i]) in index ==>
          index[LocalMarket(local[i])] == local[i])
  }

  lemma AddedKey(market: string)
    requires WellSpelled(market)
    ensures ToUpper(CoinOf(market)) + PERP == market
  {
    var coin: string :| market == ExchangeMarket(coin) && IsUpper(coin);
    UpperMarket(coin);
  }

  lemma AddedIsFound(local: seq<LocalPosition>, ep: ExchangePosition, newId: string -> string)
    requires WellSpelled(ep.market) && ep.size >= 0.0
    ensures var l := Apply(local, AddedMissing(ep.market, ep.side, ep.size, ep.entryPrice), newId);
            && |l| == |local| + 1 && l[..|local|] == local && LocalMarket(l[|local|]) == ep.market
            && Mirrors(l, ep)
  {
    var l := Apply(local, AddedMissing(ep.market, ep.side, ep.size, ep.entryPrice), newId);
    AddedKey(ep.market);
    assert l[|local|] == LocalPosition(newId(ep.market), CoinOf(ep.market), ep.side, ep.size);
    assert ep.size * SIZE_TOLERANCE >= 0.0;
    AgreeingMirrors(l, ep, |local|);
  }

  lemma MirrorsSurvives(before: seq<LocalPosition>, after: seq<LocalPosition>, ep: ExchangePosition)
    requires Mirrors(before, ep) && |before| <= |after|
    requires forall i :: 0 <= i < |before| && LocalMarket(before[i]) == ep.market ==> after[i] == before[i]
    ensures Mirrors(after, ep)
  {
    var i :| 0 <= i < |before| && LocalMarket(before[i]) == ep.market
             && before[i].side == ep.side && Abs(before[i].size - ep.size) <= ep.size * SIZE_TOLERANCE;
    assert after[i] == before[i];
  }

  lemma ListsSplit(ep: ExchangePosition, todo: seq<ExchangePosition>, market: string)
    ensures Lists([ep] + todo, market) <==> ep.market == market || Lists(todo, market)
  {
    var all := [ep] + todo;
    if ep.market == market {
      assert all[0].market == market;
    }
    if Lists(todo, market) {
      var j :| 0 <= j < |todo| && todo[j].market == market;
      assert all[j + 1].market == market;
    }
  }

  lemma ListsSnoc(done: seq<ExchangePosition>, ep: ExchangePosition, market: string)
    ensures Lists(done + [ep], market) <==> ep.market == market || Lists(done, market)
  {
    var all := done + [ep];
    if ep.market == market {
      assert all[|done|].market == market;
    }
    if Lists(done, market) {
      var j :| 0 <= j < |done| && done[j].market == market;
      assert all[j].market == market;
    }
  }

  /** A change of the list that only concerns `ep` and brings it in sync makes progress. */
  lemma OneMoreDone(before: seq<LocalPosition>, after: seq<LocalPosition>, index: Index, done: seq<ExchangePosition>,
                    ep: ExchangePosition, todo: seq<ExchangePosition>)
    requires Progress(before, index, done, [ep] + todo) && DistinctMarkets(done + ([ep] + todo))
    requires OnePerMarket(after) && Mirrors(after, ep) && |before| <= |after|
    requires forall i :: 0 <= i < |before| ==> LocalMarket(after[i]) == LocalMarket(before[i])
    requires forall i :: 0 <= i < |before| && LocalMarket(before[i]) != ep.market ==> after[i] == before[i]
    requires forall i :: |before| <= i < |after| ==> LocalMarket(after[i]) == ep.market
    ensures Progress(after, index, done + [ep], todo)
  {
    var all := done + ([ep] + todo);
    assert all[|done|] == ep;
    forall i | 0 <= i < |after|
      ensures Lists(done + [ep], LocalMarket(after[i])) || Lists(todo, LocalMarket(after[i]))
      ensures Lists(todo, LocalMarket(after[i])) && LocalMarket(after[i]) in index ==>
                index[LocalMarket(after[i])] == after[i]
    {
      var m := LocalMarket(after[i]);
      ListsSplit(ep, todo, m);
      ListsSnoc(done, ep, m);
      if Lists(todo, m) {
        var j :| 0 <= j < |todo| && todo[j].market == m;
        assert all[|done| + 1 + j] == todo[j];
        assert m != ep.market;
      }
    }
    forall j | 0 <= j < |done + [ep]|
      ensures Mirrors(after, (done + [ep])[j])
    {
      if j < |done| {
        assert all[j] == done[j] && done[j].market != ep.market;
        MirrorsSurvives(before, after, done[j]);
      }
    }
    forall j | 0 <= j < |todo|
      ensures todo[j].market in index <==> Holds(after, todo[j].market)
    {
      assert ([ep] + todo)[j + 1] == todo[j] && all[|done| + 1 + j] == todo[j];
      var m := todo[j].market;
      assert m != ep.market;
      if Holds(before, m) {
        var i :| 0 <= i < |before| && LocalMarket(before[i]) == m;
        assert LocalMarket(after[i]) == m;
      }
      if Holds(after, m) {
        var i :| 0 <= i < |after| && LocalMarket(after[i]) == m;
        assert LocalMarket(before[i]) == m;
      }
    }
  }

  lemma ActOnOne(local: seq<LocalPosition>, index: Index, done: seq<ExchangePosition>, ep: ExchangePosition,
                 todo: seq<ExchangePosition>, newId: string -> string)
    requires Progress(local, index, done, [ep] + todo) && DistinctMarkets(done + ([ep] + todo))
    requires WellSpelled(ep.market) && ep.size >= 0.0
    ensures Progress(ApplyAll(local, ActionFor(index, ep), newId), index, done + [ep], todo)
  {
    assert ([ep] + todo)[0] == ep;
    ListsSplit(ep, todo, ep.market);
    if ep.market !in index {
      AddOne(local, index, done, ep, todo, newId);
    } else {
      UpdateOne(local, index, done, ep, todo, newId);
    }
  }

  lemma AddOne(local: seq<LocalPosition>, index: Index, done: seq<ExchangePosition>, ep: ExchangePosition,
               todo: seq<ExchangePosition>, newId: string -> string)
    requires Progress(local, index, done, [ep] + todo) && DistinctMarkets(done + ([ep] + todo))
    requires WellSpelled(ep.market) && ep.size >= 0.0 && ep.market !in index && !Holds(local, ep.market)
    ensures Progress(ApplyAll(local, ActionFor(index, ep), newId), index, done + [ep], todo)
  {
    var action := AddedMissing(ep.market, ep.side, ep.size, ep.entryPrice);
    ApplyOne(local, action, newId);
    AddedIsFound(local, ep, newId);
    var after := Apply(local, action, newId);
    assert forall i :: 0 <= i < |local| ==> after[i] == after[..|local|][i];
    OneMoreDone(local, after, index, done, ep, todo);
  }

  lemma UpdateOne(local: seq<LocalPosition>, index: Index, done: seq<ExchangePosition>, ep: ExchangePosition,
                  todo: seq<ExchangePosition>, newId: string -> string)
    requires Progress(local, index, done, [ep] + todo) && DistinctMarkets(done + ([ep] + todo))
    requires ep.size >= 0.0 && ep.market in index && Holds(local, ep.market) && Lists([ep] + todo, ep.market)
    ensures Progress(ApplyAll(local, ActionFor(index, ep), newId), index, done + [ep], todo)
  {
    var i := HeldIsIndexed(local, index, done, [ep] + todo, ep.market);
    var p := index[ep.market];
    if Diverged(p, ep) {
      var action := Updated(ep.market, p.size, ep.size, p.side, ep.side);
      ApplyOne(local, action, newId);
      UpdateMirrors(local, ep, p, i, newId);
      OneMoreDone(local, Apply(local, action, newId), index, done, ep, todo);
    } else {
      AgreeingMirrors(local, ep, i);
      OneMoreDone(local, local, index, done, ep, todo);
    }
  }

  lemma AgreeingMirrors(local: seq<LocalPosition>, ep: ExchangePosition, i: nat)
    requires i < |local| && LocalMarket(local[i]) == ep.market && !Diverged(local[i], ep)
    ensures Mirrors(local, ep)
  {
  }

  lemma HeldIsIndexed(local: seq<LocalPosition>, index: Index, done: seq<ExchangePosition>,
                      todo: seq<ExchangePosition>, market: string) returns (i: nat)
    requires Progress(local, index, done, todo) && Holds(local, market) && market in index && Lists(todo, market)
    ensures i < |local| && local[i] == index[market] && LocalMarket(local[i]) == market
  {
    i :| 0 <= i < |local| && LocalMarket(local[i]) == market;
  }

  /** An update changes only the positions of its market, keeps every market, and brings that one in line. */
  lemma UpdateMirrors(local: seq<LocalPosition>, ep: ExchangePosition, p: LocalPosition, i: nat, newId: string -> string)
    requires ep.size >= 0.0 && i < |local| && LocalMarket(local[i]) == ep.market && OnePerMarket(local)
    ensures var after := Apply(local, Updated(ep.market, p.size, ep.size, p.side, ep.side), newId);
            && |after| == |local| && OnePerMarket(after) && Mirrors(after, ep)
            && (forall k :: 0 <= k < |local| ==> LocalMarket(after[k]) == LocalMarket(local[k]))
            && (forall k :: 0 <= k < |local| && LocalMarket(local[k]) != ep.market ==> after[k] == local[k])
  {
    var after := Apply(local, Updated(ep.market, p.size, ep.size, p.side, ep.side), newId);
    assert forall k :: 0 <= k < |local| ==> after[k].coin == local[k].coin;
    assert ep.size * SIZE_TOLERANCE >= 0.0;
    AgreeingMirrors(after, ep, i);
  }

  lemma MoveOver(done: seq<ExchangePosition>, todo: seq<ExchangePosition>)
    requires todo != []
    ensures todo == [todo[0]] + todo[1..] && done + todo == (done + [todo[0]]) + todo[1..]
  {
  }

  lemma {:induction false} ActOnAll(local: seq<LocalPosition>, index: Index, done: seq<ExchangePosition>,
                                    todo: seq<ExchangePosition>, newId: string -> string)
    requires Progress(local, index, done, todo) && DistinctMarkets(done + todo)
    requires forall j :: 0 <= j < |todo| ==> WellSpelled(todo[j].market) && todo[j].size >= 0.0
    ensures InSync(ApplyAll(local, ActionsFor(index, todo), newId), done + todo)
    decreases |todo|
  {
    if todo == [] {
      assert done + todo == done;
    } else {
      var (ep, rest) := (todo[0], todo[1..]);
      MoveOver(done, todo);
      ActOnOne(local, index, done, ep, rest, newId);
      ApplyConcat(local, ActionFor(index, ep), ActionsFor(index, rest), newId);
      var next := ApplyAll(local, ActionFor(index, ep), newId);
      assert forall j :: 0 <= j < |rest| ==> rest[j] == todo[j + 1];
      ActOnAll(next, index, done + [ep], rest, newId);
    }
  }

  // ---------------------------------------------------------------- the result

  /** Every parsed position comes from an open entry. */
  lemma {:induction false} ParsedFrom(raw: seq<RawPosition>, j: nat) returns (i: nat)
    requires j < |ParsedAll(raw)|
    ensures i < |raw| && IsOpen(raw[i]) && ParsedAll(raw)[j] == Parsed(raw[i])
  {
    var before := raw[..|raw| - 1];
    if j < |ParsedAll(before)| {
      i := ParsedFrom(before, j);
    } else {
      i := |raw| - 1;
    }
  }

  /** Parsing keeps the spelling of the coins it keeps, and every size it keeps is positive. */
  lemma ParsedFacts(raw: seq<RawPosition>, j: nat)
    requires j < |ParsedAll(raw)|
    ensures var ep := ParsedAll(raw)[j];
            ep.size >= ZERO_SIZE_THRESHOLD && (IsUpper(ep.market) <==> WellSpelled(ep.market))
  {
    var ep := ParsedAll(raw)[j];
    var i := ParsedFrom(raw, j);
    UpperMarket(raw[i].coin.value);
    if WellSpelled(ep.market) {
      var coin: string :| ep.market == ExchangeMarket(coin) && IsUpper(coin);
      UpperMarket(coin);
    }
  }

  /** A raw entry that counts: a named coin and a size of at least 10^-12 either way. */
  predicate IsLive(p: RawPosition) {
    p.coin.Some? && p.coin.value != "" && p.szi.Some?
    && (p.szi.value >= 0.000_000_000_001 || p.szi.value <= -0.000_000_000_001)
  }

  /** `ep` says what the raw entry says: a positive `szi` is a long, a negative one a short of that size. */
  predicate Represents(ep: ExchangePosition, p: RawPosition) {
    p.coin.Some? && p.szi.Some?
    && ep.market == p.coin.value + "-PERP"
    && (ep.side == Long <==> p.szi.value > 0.0)
    && (if ep.side == Long then ep.size else -ep.size) == p.szi.value
    && ep.entryPrice == (if p.entryPx.Some? then p.entryPx.value else 0.0)
  }

  lemma LiveIsOpen(p: RawPosition)
    ensures IsOpen(p) <==> IsLive(p)
    ensures IsLive(p) ==> Represents(Parsed(p), p)
  {
  }

  ghost predicate Picks(raw: seq<RawPosition>, ep: ExchangePosition, i: nat) {
    i < |raw| && IsLive(raw[i]) && Represents(ep, raw[i])
  }

  ghost predicate Ascending(live: seq<nat>) {
    forall j, k :: 0 <= j < k < |live| ==> live[j] < live[k]
  }

  /** `parsed` has one position per live entry of `raw`, in the same order, and nothing for the others. */
  ghost predicate IsParsing(raw: seq<RawPosition>, parsed: seq<ExchangePosition>, live: seq<nat>) {
    && |live| == |parsed| && Ascending(live)
    && (forall j :: 0 <= j < |live| ==> Picks(raw, parsed[j], live[j]))
    && (forall i :: 0 <= i < |raw| && IsLive(raw[i]) ==> i in live)
  }

  lemma OneMoreEntry(raw: seq<RawPosition>, p: RawPosition, parsed: seq<ExchangePosition>, live: seq<nat>)
    requires IsParsing(raw, parsed, live)
    ensures !IsLive(p) ==> IsParsing(raw + [p], parsed, live)
    ensures forall ep :: IsLive(p) && Represents(ep, p) ==> IsParsing(raw + [p], parsed + [ep], live + [|raw|])
  {
    hide IsLive, Represents;
    assert forall j :: 0 <= j < |live| ==> Picks(raw, parsed[j], live[j]) && Picks(raw + [p], parsed[j], live[j]);
    forall ep | IsLive(p) && Represents(ep, p)
      ensures IsParsing(raw + [p], parsed + [ep], live + [|raw|])
    {
      assert (live + [|raw|])[|live|] == |raw| && Picks(raw + [p], ep, |raw|);
    }
  }

  lemma {:induction false} ParsedExactly(raw: seq<RawPosition>) returns (live: seq<nat>)
    ensures IsParsing(raw, ParsedAll(raw), live)
  {
    live := [];
    if raw != [] {
      var (n, p) := (|raw| - 1, raw[|raw| - 1]);
      live := ParsedExactly(raw[..n]);
      LiveIsOpen(p);
      hide IsOpen, IsLive, Parsed, Represents, IsParsing;
      OneMoreEntry(raw[..n], p, ParsedAll(raw[..n]), live);
      assert raw == raw[..n] + [p];
      if IsLive(p) {
        live := live + [n];
      } else {
        assert ParsedAll(raw[..n]) + [] == ParsedAll(raw[..n]);
      }
    }
  }

  /** Signed size of a local position. */
  function Signed(p: LocalPosition): real {
    if p.side == Long then p.size else -p.size
  }

  ghost predicate LiveMarket(raw: seq<RawPosition>, market: string) {
    exists j :: 0 <= j < |raw| && IsLive(raw[j]) && raw[j].coin.value + "-PERP" == market
  }

  /** Some local position stands for the raw entry: same sign, and signed sizes within a thousandth of the entry's. */
  ghost predicate StandsFor(local: seq<LocalPosition>, p: RawPosition)
    requires IsLive(p)
  {
    exists i :: 0 <= i < |local| && ToUpper(local[i].coin) + "-PERP" == p.coin.value + "-PERP"
                && (local[i].side == Long <==> p.szi.value > 0.0)
                && 1000.0 * Abs(Signed(local[i]) - p.szi.value) <= Abs(p.szi.value)
  }

  /** The local list says what the exchange's answer says. */
  ghost predicate AgreesWith(local: seq<LocalPosition>, raw: seq<RawPosition>) {
    && OnePerMarket(local)
    && (forall i :: 0 <= i < |local| ==> LiveMarket(raw, LocalMarket(local[i])))
    && (forall j :: 0 <= j < |raw| && IsLive(raw[j]) ==> StandsFor(local, raw[j]))
  }

  lemma MirrorStandsFor(local: seq<LocalPosition>, ep: ExchangePosition, p: RawPosition)
    requires IsLive(p) && Represents(ep, p) && Mirrors(local, ep)
    ensures StandsFor(local, p)
  {
    var i :| 0 <= i < |local| && LocalMarket(local[i]) == ep.market
             && local[i].side == ep.side && Abs(local[i].size - ep.size) <= ep.size * SIZE_TOLERANCE;
    assert ToUpper(local[i].coin) + "-PERP" == p.coin.value + "-PERP";
  }

  lemma SyncedAgrees(local: seq<LocalPosition>, raw: seq<RawPosition>)
    requires InSync(local, ParsedAll(raw))
    ensures AgreesWith(local, raw)
  {
    hide IsLive, Represents, Mirrors, StandsFor;
    var live := ParsedExactly(raw);
    forall i | 0 <= i < |local|
      ensures LiveMarket(raw, LocalMarket(local[i]))
    {
      var j :| 0 <= j < |ParsedAll(raw)| && ParsedAll(raw)[j].market == LocalMarket(local[i]);
      MarketOfEntry(ParsedAll(raw)[j], raw, live[j]);
    }
    forall i | 0 <= i < |raw| && IsLive(raw[i])
      ensures StandsFor(local, raw[i])
    {
      var j :| 0 <= j < |live| && live[j] == i;
      MirrorStandsFor(local, ParsedAll(raw)[j], raw[i]);
    }
  }

  lemma MarketOfEntry(ep: ExchangePosition, raw: seq<RawPosition>, i: nat)
    requires i < |raw| && IsLive(raw[i]) && Represents(ep, raw[i])
    ensures LiveMarket(raw, ep.market)
  {
  }

  ghost function Reconciled(local: seq<LocalPosition>, raw: seq<RawPosition>, order: seq<string>,
                            newId: string -> string): seq<LocalPosition>
    requires IterationOrder(IndexOf(local), order)
  {
    ApplyAll(local, Diff(local, ParsedAll(raw), order), newId)
  }

  /**
   For uppercase coins, applying the report leaves exactly one local position per exchange position, with the same
   side and a size within 0.1%, and no other; for every visiting order of the hash map and every choice of new ids.
   */
  lemma ReconcilingSynchronises(local: seq<LocalPosition>, raw: seq<RawPosition>, order: seq<string>,
                                newId: string -> string)
    requires DistinctIds(local) && DistinctMarkets(ParsedAll(raw)) && AllUpper(ParsedAll(raw))
    requires IterationOrder(IndexOf(local), order)
    ensures InSync(Reconciled(local, raw, order, newId), ParsedAll(raw))
    ensures AgreesWith(Reconciled(local, raw, order, newId), raw)
  {
    var (index, exchange) := (IndexOf(local), ParsedAll(raw));
    var closes := Duplicates(local) + Unlisted(index, exchange, order);
    ClosedListIsReady(local, exchange, order, newId);
    ApplyConcat(local, closes, ActionsFor(index, exchange), newId);
    forall j | 0 <= j < |exchange|
      ensures WellSpelled(exchange[j].market) && exchange[j].size >= 0.0
    {
      ParsedFacts(raw, j);
    }
    assert [] + exchange == exchange;
    ActOnAll(ApplyAll(local, closes, newId), index, [], exchange, newId);
    SyncedAgrees(Reconciled(local, raw, order, newId), raw);
  }

  lemma ClosedListIsReady(local: seq<LocalPosition>, exchange: seq<ExchangePosition>, order: seq<string>,
                          newId: string -> string)
    requires DistinctIds(local) && IterationOrder(IndexOf(local), order)
    ensures Progress(ApplyAll(local, Duplicates(local) + Unlisted(IndexOf(local), exchange, order), newId),
                     IndexOf(local), [], exchange)
  {
    var index := IndexOf(local);
    ClosingKeepsListedFirsts(local, exchange, order, newId);
    var l := ApplyAll(local, Duplicates(local) + Unlisted(index, exchange, order), newId);
    forall i | 0 <= i < |l|
      ensures LocalMarket(l[i]) in index && index[LocalMarket(l[i])] == l[i] && Lists(exchange, LocalMarket(l[i]))
    {
      assert l[i] in l;
      var k :| 0 <= k < |local| && local[k] == l[i];
      FirstIsIndexed(local, |local|, k);
    }
    forall j | 0 <= j < |exchange|
      ensures exchange[j].market in index <==> Holds(l, exchange[j].market)
    {
      if exchange[j].market in index {
        var k := FirstOf(local, |local|, exchange[j].market);
        assert local[k] in l;
      }
    }
  }

  // ---------------------------------------------------------------- what a report says

  /** The first local position of a market, as `Updated` compares it with the exchange's. */
  ghost predicate Compared(local: seq<LocalPosition>, market: string, size: real, side: PositionSide) {
    exists i: nat :: i < |local| && First(local, i) && LocalMarket(local[i]) == market
                     && local[i].size == size && local[i].side == side
  }

  ghost predicate Listed(exchange: seq<ExchangePosition>, market: string, size: real, side: PositionSide) {
    exists j :: 0 <= j < |exchange| && exchange[j].market == market && exchange[j].size == size && exchange[j].side == side
  }

  ghost predicate IsHeld(local: seq<LocalPosition>, id: string, market: string) {
    exists i :: 0 <= i < |local| && local[i].id == id && LocalMarket(local[i]) == market
  }

  /**
   Every action tells the truth: a closed position is a local one, under its market; an added one is listed by the
   exchange and unknown locally; an update names the old local and the new exchange values, and they do differ, in side
   or by more than a thousandth of the new size.
   */
  ghost predicate Truthful(local: seq<LocalPosition>, exchange: seq<ExchangePosition>, action: Action) {
    match action
    case ClosedStale(id, market) => IsHeld(local, id, market)
    case AddedMissing(market, side, size, entryPrice) =>
      ExchangePosition(market, side, size, entryPrice) in exchange && !Holds(local, market)
    case Updated(market, oldSize, newSize, oldSide, newSide) =>
      Compared(local, market, oldSize, oldSide) && Listed(exchange, market, newSize, newSide)
      && (oldSide != newSide || 1000.0 * Abs(oldSize - newSize) > newSize)
  }

  ghost predicate AllTruthful(local: seq<LocalPosition>, exchange: seq<ExchangePosition>, actions: seq<Action>) {
    forall k :: 0 <= k < |actions| ==> Truthful(local, exchange, actions[k])
  }

  lemma {:induction false} DuplicatesAreTruthful(local: seq<LocalPosition>, exchange: seq<ExchangePosition>, n: nat)
    requires n <= |local|
    ensures AllTruthful(local, exchange, DuplicatesUpTo(local, n))
  {
    if 0 < n {
      DuplicatesAreTruthful(local, exchange, n - 1);
      assert IsHeld(local, local[n - 1].id, LocalMarket(local[n - 1]));
    }
  }

  lemma {:induction false} UnlistedAreTruthful(local: seq<LocalPosition>, exchange: seq<ExchangePosition>, order: seq<string>)
    requires forall m :: m in order ==> m in IndexOf(local)
    ensures AllTruthful(local, exchange, Unlisted(IndexOf(local), exchange, order))
  {
    if order != [] {
      UnlistedAreTruthful(local, exchange, order[1..]);
      var i := FirstOf(local, |local|, order[0]);
      assert IsHeld(local, IndexOf(local)[order[0]].id, order[0]);
    }
  }

  lemma ActionIsTruthful(local: seq<LocalPosition>, exchange: seq<ExchangePosition>, j: nat)
    requires j < |exchange|
    ensures AllTruthful(local, exchange, ActionFor(IndexOf(local), exchange[j]))
  {
    var ep := exchange[j];
    IndexMembers(local, |local|, ep.market);
    assert Listed(exchange, ep.market, ep.size, ep.side);
    if ep.market in IndexOf(local) {
      var i := FirstOf(local, |local|, ep.market);
      assert Compared(local, ep.market, local[i].size, local[i].side);
    } else {
      assert ExchangePosition(ep.market, ep.side, ep.size, ep.entryPrice) == ep;
    }
  }

  lemma {:induction false} ChangesAreTruthful(local: seq<LocalPosition>, exchange: seq<ExchangePosition>, from: nat)
    requires from <= |exchange|
    ensures AllTruthful(local, exchange, ActionsFor(IndexOf(local), exchange[from..]))
    decreases |exchange| - from
  {
    hide Truthful;
    if from < |exchange| {
      ChangesAreTruthful(local, exchange, from + 1);
      ActionIsTruthful(local, exchange, from);
      assert exchange[from..][1..] == exchange[from + 1..] && exchange[from..][0] == exchange[from];
    }
  }

  lemma ReportIsTruthful(local: seq<LocalPosition>, exchange: seq<ExchangePosition>, order: seq<string>)
    requires IterationOrder(IndexOf(local), order)
    ensures AllTruthful(local, exchange, Diff(local, exchange, order))
  {
    hide Truthful;
    DuplicatesAreTruthful(local, exchange, |local|);
    UnlistedAreTruthful(local, exchange, order);
    ChangesAreTruthful(local, exchange, 0);
    assert exchange[0..] == exchange;
  }

  lemma {:induction false} ActionIsReported(index: Index, exchange: seq<ExchangePosition>, j: nat, action: Action)
    requires j < |exchange| && action in ActionFor(index, exchange[j])
    ensures action in ActionsFor(index, exchange)
  {
    if 0 < j {
      ActionIsReported(index, exchange[1..], j - 1, action);
    }
  }

  /** And nothing is left out: what the exchange lists and the local list lacks, or holds differently, is reported. */
  lemma ReportIsComplete(local: seq<LocalPosition>, exchange: seq<ExchangePosition>, order: seq<string>, j: nat)
    requires IterationOrder(IndexOf(local), order) && j < |exchange|
    ensures var (ep, actions) := (exchange[j], Diff(local, exchange, order));
            && (!Holds(local, ep.market) ==> AddedMissing(ep.market, ep.side, ep.size, ep.entryPrice) in actions)
            && (forall i: nat :: (i < |local| && First(local, i) && LocalMarket(local[i]) == ep.market
                                  && (local[i].side != ep.side || 1000.0 * Abs(local[i].size - ep.size) > ep.size)) ==>
                  Updated(ep.market, local[i].size, ep.size, local[i].side, ep.side) in actions)
  {
    var (ep, index) := (exchange[j], IndexOf(local));
    IndexMembers(local, |local|, ep.market);
    if !Holds(local, ep.market) {
      ActionIsReported(index, exchange, j, AddedMissing(ep.market, ep.side, ep.size, ep.entryPrice));
    }
    forall i: nat | i < |local| && First(local, i) && LocalMarket(local[i]) == ep.market
                    && (local[i].side != ep.side || 1000.0 * Abs(local[i].size - ep.size) > ep.size)
      ensures Updated(ep.market, local[i].size, ep.size, local[i].side, ep.side) in ActionsFor(index, exchange)
    {
      FirstIsIndexed(local, |local|, i);
      ActionIsReported(index, exchange, j, Updated(ep.market, local[i].size, ep.size, local[i].side, ep.side));
    }
  }

  lemma NothingToReport(local: seq<LocalPosition>, exchange: seq<ExchangePosition>, order: seq<string>)
    requires InSync(local, exchange) && IterationOrder(IndexOf(local), order)
    ensures Diff(local, exchange, order) == []
  {
    NoDuplicates(local);
    forall m | m in order
      ensures m in IndexOf(local) && Lists(exchange, m)
    {
      var k := FirstOf(local, |local|, m);
    }
    NoneUnlisted(IndexOf(local), exchange, order);
    forall j | 0 <= j < |exchange|
      ensures ActionFor(IndexOf(local), exchange[j]) == []
    {
      MirroredNeedsNothing(local, exchange[j]);
    }
    NoActions(IndexOf(local), exchange);
  }

  lemma MirroredNeedsNothing(local: seq<LocalPosition>, ep: ExchangePosition)
    requires OnePerMarket(local) && Mirrors(local, ep)
    ensures ActionFor(IndexOf(local), ep) == []
  {
    var i :| 0 <= i < |local| && LocalMarket(local[i]) == ep.market && local[i].side == ep.side
             && Abs(local[i].size - ep.size) <= ep.size * SIZE_TOLERANCE;
    IndexHolds(local, i);
  }

  lemma IndexHolds(local: seq<LocalPosition>, i: nat)
    requires OnePerMarket(local) && i < |local|
    ensures LocalMarket(local[i]) in IndexOf(local) && IndexOf(local)[LocalMarket(local[i])] == local[i]
  {
    FirstIsIndexed(local, |local|, i);
  }

  lemma EachIsFirst(local: seq<LocalPosition>, i: nat)
    requires OnePerMarket(local) && i < |local|
    ensures First(local, i)
  {
  }

  lemma NoDuplicates(local: seq<LocalPosition>)
    requires OnePerMarket(local)
    ensures Duplicates(local) == []
  {
    forall i | 0 <= i < |local|
      ensures First(local, i)
    {
      EachIsFirst(local, i);
    }
    NoDuplicatesUpTo(local, |local|);
  }

  lemma {:induction false} NoDuplicatesUpTo(local: seq<LocalPosition>, n: nat)
    requires n <= |local| && forall i :: 0 <= i < |local| ==> First(local, i)
    ensures DuplicatesUpTo(local, n) == []
  {
    if n > 0 {
      NoDuplicatesUpTo(local, n - 1);
      assert First(local, n - 1);
      IndexMembers(local, n - 1, LocalMarket(local[n - 1]));
    }
  }

  lemma {:induction false} NoneUnlisted(index: Index, exchange: seq<ExchangePosition>, order: seq<string>)
    requires forall m :: m in order ==> m in index && Lists(exchange, m)
    ensures Unlisted(index, exchange, order) == []
  {
    if order != [] {
      NoneUnlisted(index, exchange, order[1..]);
    }
  }

  lemma {:induction false} NoActions(index: Index, exchange: seq<ExchangePosition>)
    requires forall j :: 0 <= j < |exchange| ==> ActionFor(index, exchange[j]) == []
    ensures ActionsFor(index, exchange) == []
  {
    if exchange != [] {
      assert forall j :: 0 <= j < |exchange[1..]| ==> exchange[1..][j] == exchange[j + 1];
      NoActions(index, exchange[1..]);
    }
  }

  /** A market with a lowercase letter can match no local key, so it is reported missing again and again. */
  lemma {:induction false} LowercaseIsAlwaysMissing(index: Index, exchange: seq<ExchangePosition>, j: nat)
    requires forall m :: m in index ==> IsUpper(m)
    requires j < |exchange| && !IsUpper(exchange[j].market)
    ensures ActionsFor(index, exchange) != []
  {
    if j > 0 {
      LowercaseIsAlwaysMissing(index, exchange[1..], j - 1);
    }
  }

  /**
   Reconciling the reconciled list again reports nothing, exactly when every coin the exchange lists is spelled in
   uppercase. One coin such as `kPEPE` makes every later pass report it again.
   */
  lemma FixpointExactlyWhenUppercase(local: seq<LocalPosition>, raw: seq<RawPosition>, order: seq<string>,
                                     newId: string -> string, again: seq<string>)
    requires DistinctIds(local) && DistinctMarkets(ParsedAll(raw)) && IterationOrder(IndexOf(local), order)
    requires IterationOrder(IndexOf(Reconciled(local, raw, order, newId)), again)
    ensures Diff(Reconciled(local, raw, order, newId), ParsedAll(raw), again) == [] <==> AllUpper(ParsedAll(raw))
  {
    if AllUpper(ParsedAll(raw)) {
      ReconcilingSynchronises(local, raw, order, newId);
      NothingToReport(Reconciled(local, raw, order, newId), ParsedAll(raw), again);
    } else {
      LowercaseNeverSettles(Reconciled(local, raw, order, newId), ParsedAll(raw), again);
    }
  }

  /** With a lowercase market no local list whatsoever reconciles to an empty report. */
  lemma LowercaseNeverSettles(local: seq<LocalPosition>, exchange: seq<ExchangePosition>, order: seq<string>)
    requires !AllUpper(exchange) && IterationOrder(IndexOf(local), order)
    ensures Diff(local, exchange, order) != []
  {
    var j :| 0 <= j < |exchange| && !IsUpper(exchange[j].market);
    forall m | m in IndexOf(local)
      ensures IsUpper(m)
    {
      var k := FirstOf(local, |local|, m);
      UpperMarket(local[k].coin);
    }
    LowercaseIsAlwaysMissing(IndexOf(local), exchange, j);
  }

  /** The failure on a coin the exchange really spells this way: an agreeing pair is closed and reported missing. */
  lemma MixedCaseCoinIsReplaced()
    ensures var local := [LocalPosition("1", "kPEPE", Long, 5.0)];
            var raw := [RawPosition(Some("kPEPE"), Some(5.0), Some(1.0))];
            && IndexOf(local).Keys == {"KPEPE-PERP"}
            && Diff(local, ParsedAll(raw), ["KPEPE-PERP"])
               == [ClosedStale("1", "KPEPE-PERP"), AddedMissing("kPEPE-PERP", Long, 5.0, 1.0)]
  {
    var (p, r) := (LocalPosition("1", "kPEPE", Long, 5.0), RawPosition(Some("kPEPE"), Some(5.0), Some(1.0)));
    assert ToUpper("kPEPE") == "KPEPE" && LocalMarket(p) == "KPEPE-PERP";
    assert IndexUpTo([p], 0) == map[] && IndexOf([p]) == map["KPEPE-PERP" := p];
    assert DuplicatesUpTo([p], 0) == [] && Duplicates([p]) == [];
    assert ExchangeMarket("kPEPE") == "kPEPE-PERP" && IsOpen(r);
    assert Parsed(r) == ExchangePosition("kPEPE-PERP", Long, 5.0, 1.0);
    assert [r][..0] == [] && ParsedAll([]) == [] && ParsedAll([r]) == [] + [Parsed(r)];
    assert "kPEPE-PERP"[0] != "KPEPE-PERP"[0];
    assert ["KPEPE-PERP"][1..] == [] && ParsedAll([r])[1..] == [];
    assert !Lists(ParsedAll([r]), "KPEPE-PERP");
    assert Unlisted(IndexOf([p]), ParsedAll([r]), ["KPEPE-PERP"]) == [ClosedStale("1", "KPEPE-PERP")];
    assert ActionsFor(IndexOf([p]), ParsedAll([r])) == [AddedMissing("kPEPE-PERP", Long, 5.0, 1.0)] + [];
  }

  // ---------------------------------------------------------------- accounting

  function Count(actions: seq<Action>, kind: Action -> bool): nat {
    if actions == [] then 0 else (if kind(actions[0]) then 1 else 0) + Count(actions[1..], kind)
  }

  predicate IsClose(a: Action) { a.ClosedStale? }
  predicate IsAdd(a: Action) { a.AddedMissing? }

  lemma {:induction false} CountConcat(a: seq<Action>, b: seq<Action>, kind: Action -> bool)
    ensures Count(a + b, kind) == Count(a, kind) + Count(b, kind)
  {
    if a == [] {
      assert a + b == b;
    } else {
      assert (a + b)[1..] == a[1..] + b;
      CountConcat(a[1..], b, kind);
    }
  }

  lemma {:induction false} DuplicatesCount(local: seq<LocalPosition>, n: nat)
    requires n <= |local|
    ensures Count(DuplicatesUpTo(local, n), IsClose) + |IndexUpTo(local, n)| == n
  {
    hide Count, IndexUpTo, DuplicatesUpTo;
    if n == 0 {
      NothingToCount(local);
    } else {
      DuplicatesCount(local, n - 1);
      DuplicatesCountStep(local, n - 1);
    }
  }

  lemma NothingToCount(local: seq<LocalPosition>)
    ensures Count(DuplicatesUpTo(local, 0), IsClose) == 0 && |IndexUpTo(local, 0)| == 0
  {
  }

  /** Each position is either indexed or closed as a duplicate. */
  lemma DuplicatesCountStep(local: seq<LocalPosition>, i: nat)
    requires i < |local|
    ensures Count(DuplicatesUpTo(local, i + 1), IsClose) + |IndexUpTo(local, i + 1)|
         == Count(DuplicatesUpTo(local, i), IsClose) + |IndexUpTo(local, i)| + 1
  {
    CountConcat(DuplicatesUpTo(local, i), DuplicateAt(local, i), IsClose);
    CountOne(ClosedStale(local[i].id, LocalMarket(local[i])), IsClose);
  }

  lemma {:induction false} ClosesAddNothing(actions: seq<Action>)
    requires OnlyCloses(actions)
    ensures Count(actions, IsAdd) == 0
  {
    if actions != [] {
      assert forall k :: 0 <= k < |actions[1..]| ==> actions[1..][k] == actions[k + 1];
      ClosesAddNothing(actions[1..]);
    }
  }

  lemma CountOne(a: Action, kind: Action -> bool)
    ensures Count([a], kind) == (if kind(a) then 1 else 0) && Count([], kind) == 0
  {
    assert [a][1..] == [] && Count([], kind) == 0;
  }

  /** The markets of `keys` that the exchange lists. */
  ghost function ListedKeys(keys: set<string>, exchange: seq<ExchangePosition>): set<string> {
    set m | m in keys && Lists(exchange, m)
  }

  ghost function KeySet(order: seq<string>): set<string> {
    set m | m in order
  }

  lemma OneMoreKey(order: seq<string>, exchange: seq<ExchangePosition>)
    requires order != [] && order[0] !in order[1..]
    ensures |KeySet(order)| == 1 + |KeySet(order[1..])|
    ensures |ListedKeys(KeySet(order), exchange)|
         == |ListedKeys(KeySet(order[1..]), exchange)| + if Lists(exchange, order[0]) then 1 else 0
  {
    var (m, rest) := (order[0], order[1..]);
    assert KeySet(order) == KeySet(rest) + {m};
    var (some, all) := (ListedKeys(KeySet(rest), exchange), ListedKeys(KeySet(order), exchange));
    assert all == if Lists(exchange, m) then some + {m} else some;
  }

  lemma {:induction false} UnlistedCount(index: Index, exchange: seq<ExchangePosition>, order: seq<string>)
    requires (forall m :: m in order ==> m in index) && forall i, j :: 0 <= i < j < |order| ==> order[i] != order[j]
    ensures Count(Unlisted(index, exchange, order), IsClose) + |ListedKeys(KeySet(order), exchange)| == |KeySet(order)|
    ensures Count(Unlisted(index, exchange, order), IsAdd) == 0
  {
    if order != [] {
      var (m, rest) := (order[0], order[1..]);
      assert forall i :: 0 <= i < |rest| ==> rest[i] == order[i + 1];
      UnlistedCount(index, exchange, rest);
      OneMoreKey(order, exchange);
      var first := if Lists(exchange, m) then [] else [ClosedStale(index[m].id, m)];
      CountConcat(first, Unlisted(index, exchange, rest), IsClose);
      CountConcat(first, Unlisted(index, exchange, rest), IsAdd);
    }
  }

  lemma OneMoreListed(keys: set<string>, exchange: seq<ExchangePosition>)
    requires exchange != [] && DistinctMarkets(exchange)
    ensures |ListedKeys(keys, exchange)|
         == |ListedKeys(keys, exchange[1..])| + if exchange[0].market in keys then 1 else 0
  {
    var (ep, rest) := (exchange[0], exchange[1..]);
    assert exchange == [ep] + rest;
    assert !Lists(rest, ep.market);
    forall m
      ensures Lists(exchange, m) <==> m == ep.market || Lists(rest, m)
    {
      ListsSplit(ep, rest, m);
    }
    var (some, all) := (ListedKeys(keys, rest), ListedKeys(keys, exchange));
    assert all == if ep.market in keys then some + {ep.market} else some;
  }

  /** Each exchange position either meets an indexed market or is added. */
  lemma {:induction false} AddedCount(index: Index, exchange: seq<ExchangePosition>)
    requires DistinctMarkets(exchange)
    ensures Count(ActionsFor(index, exchange), IsAdd) + |ListedKeys(index.Keys, exchange)| == |exchange|
    ensures Count(ActionsFor(index, exchange), IsClose) == 0
  {
    if exchange == [] {
      assert ListedKeys(index.Keys, exchange) == {};
    } else {
      AddedCount(index, exchange[1..]);
      OneMoreListed(index.Keys, exchange);
      var first := ActionFor(index, exchange[0]);
      assert first != [] ==> first[1..] == [];
      CountConcat(first, ActionsFor(index, exchange[1..]), IsAdd);
      CountConcat(first, ActionsFor(index, exchange[1..]), IsClose);
    }
  }

  /**
   The report's counts balance, however coins are spelled and whatever the visiting order: the local positions, less
   those closed, plus those added, are as many as the exchange's.
   */
  lemma CountsBalance(local: seq<LocalPosition>, raw: seq<RawPosition>, order: seq<string>)
    requires DistinctMarkets(ParsedAll(raw)) && IterationOrder(IndexOf(local), order)
    ensures var actions := Diff(local, ParsedAll(raw), order);
            |local| - Count(actions, IsClose) + Count(actions, IsAdd) == |ParsedAll(raw)|
  {
    DiffCounts(local, ParsedAll(raw), order);
  }

  lemma DiffCounts(local: seq<LocalPosition>, exchange: seq<ExchangePosition>, order: seq<string>)
    requires DistinctMarkets(exchange) && IterationOrder(IndexOf(local), order)
    ensures var (actions, matched) := (Diff(local, exchange, order), |ListedKeys(IndexOf(local).Keys, exchange)|);
            Count(actions, IsClose) + matched == |local| && Count(actions, IsAdd) + matched == |exchange|
  {
    CloseCount(local, exchange, order);
    CountDiff(local, exchange, order, IsAdd);
    DuplicatesAreLocal(local, |local|, "");
    ClosesAddNothing(Duplicates(local));
    UnlistedCount(IndexOf(local), exchange, order);
    AddedCount(IndexOf(local), exchange);
  }

  lemma CloseCount(local: seq<LocalPosition>, exchange: seq<ExchangePosition>, order: seq<string>)
    requires DistinctMarkets(exchange) && IterationOrder(IndexOf(local), order)
    ensures Count(Diff(local, exchange, order), IsClose) + |ListedKeys(IndexOf(local).Keys, exchange)| == |local|
  {
    OrderCoversIndex(IndexOf(local), order);
    CountDiff(local, exchange, order, IsClose);
    DuplicatesCount(local, |local|);
    UnlistedCount(IndexOf(local), exchange, order);
    AddedCount(IndexOf(local), exchange);
  }

  lemma OrderCoversIndex(index: Index, order: seq<string>)
    requires IterationOrder(index, order)
    ensures KeySet(order) == index.Keys && |index.Keys| == |index|
  {
  }

  lemma CountDiff(local: seq<LocalPosition>, exchange: seq<ExchangePosition>, order: seq<string>, kind: Action -> bool)
    requires forall m :: m in order ==> m in IndexOf(local)
    ensures Count(Diff(local, exchange, order), kind)
         == Count(Duplicates(local), kind) + Count(Unlisted(IndexOf(local), exchange, order), kind)
            + Count(ActionsFor(IndexOf(local), exchange), kind)
  {
    var (dups, stale) := (Duplicates(local), Unlisted(IndexOf(local), exchange, order));
    CountConcat(dups + stale, ActionsFor(IndexOf(local), exchange), kind);
    CountConcat(dups, stale, kind);
  }

  /** How often position `id` is closed. */
  function ClosingsOf(actions: seq<Action>, id: string): nat {
    if actions == [] then 0
    else ClosingsOf(actions[..|actions| - 1], id) + ClosesOnce(actions[|actions| - 1], id)
  }

  function ClosesOnce(a: Action, id: string): nat {
    if a.ClosedStale? && a.id == id then 1 else 0
  }

  lemma {:induction false} ClosingsConcat(a: seq<Action>, b: seq<Action>, id: string)
    ensures ClosingsOf(a + b, id) == ClosingsOf(a, id) + ClosingsOf(b, id)
    decreases |b|
  {
    if b == [] {
      assert a + b == a;
    } else {
      assert (a + b)[..|a + b| - 1] == a + b[..|b| - 1];
      ClosingsConcat(a, b[..|b| - 1], id);
    }
  }

  lemma ClosingsOfOne(a: Action, id: string)
    ensures ClosingsOf([a], id) == ClosesOnce(a, id) && ClosingsOf([], id) == 0
  {
    assert [a][..0] == [] && ClosingsOf([], id) == 0;
  }

  lemma {:induction false} UnclosedCountsZero(actions: seq<Action>, id: string)
    requires !Closes(actions, id)
    ensures ClosingsOf(actions, id) == 0
  {
    if actions != [] {
      var n := |actions| - 1;
      assert ClosesOnce(actions[n], id) == 0;
      assert forall k :: 0 <= k < n ==> actions[..n][k] == actions[k];
      UnclosedCountsZero(actions[..n], id);
    }
  }

  /**
   Every local position is closed exactly once or kept: it is kept exactly when it is the first of its market in the
   list and the exchange lists that market.
   */
  lemma ClosedExactlyWhen(local: seq<LocalPosition>, raw: seq<RawPosition>, order: seq<string>, i: nat)
    requires DistinctIds(local) && IterationOrder(IndexOf(local), order) && i < |local|
    ensures ClosingsOf(Diff(local, ParsedAll(raw), order), local[i].id)
            == if First(local, i) && Lists(ParsedAll(raw), LocalMarket(local[i])) then 0 else 1
  {
    var (exchange, id) := (ParsedAll(raw), local[i].id);
    var (dups, stale) := (Duplicates(local), Unlisted(IndexOf(local), exchange, order));
    var changes := ActionsFor(IndexOf(local), exchange);
    ClosingsConcat(dups + stale, changes, id);
    ClosingsConcat(dups, stale, id);
    ChangesCloseNothing(IndexOf(local), exchange, id);
    UnclosedCountsZero(changes, id);
    DuplicateClosings(local, i);
    StaleClosings(local, exchange, order, i);
  }

  lemma {:induction false} ChangesCloseNothing(index: Index, exchange: seq<ExchangePosition>, id: string)
    ensures !Closes(ActionsFor(index, exchange), id)
  {
    if exchange != [] {
      ChangesCloseNothing(index, exchange[1..], id);
      ClosesConcat(ActionFor(index, exchange[0]), ActionsFor(index, exchange[1..]), id);
    }
  }

  lemma DuplicateAtClosings(local: seq<LocalPosition>, k: nat, id: string)
    requires k < |local|
    ensures ClosingsOf(DuplicateAt(local, k), id) == if !First(local, k) && local[k].id == id then 1 else 0
  {
    IndexMembers(local, k, LocalMarket(local[k]));
    ClosingsOfOne(ClosedStale(local[k].id, LocalMarket(local[k])), id);
  }

  lemma DuplicateClosingsStep(local: seq<LocalPosition>, k: nat, id: string)
    requires k < |local|
    ensures ClosingsOf(DuplicatesUpTo(local, k + 1), id)
            == ClosingsOf(DuplicatesUpTo(local, k), id) + if !First(local, k) && local[k].id == id then 1 else 0
  {
    ClosingsConcat(DuplicatesUpTo(local, k), DuplicateAt(local, k), id);
    DuplicateAtClosings(local, k, id);
  }

  lemma NotYetClosed(local: seq<LocalPosition>, i: nat)
    requires DistinctIds(local) && i < |local|
    ensures ClosingsOf(DuplicatesUpTo(local, i), local[i].id) == 0
  {
    LastIsNew(local, i + 1);
    UnclosedCountsZero(DuplicatesUpTo(local, i), local[i].id);
  }

  /** The positions after `i` have other ids. */
  lemma {:induction false} LaterDuplicatesCloseOthers(local: seq<LocalPosition>, n: nat, i: nat)
    requires DistinctIds(local) && i < n <= |local|
    ensures ClosingsOf(DuplicatesUpTo(local, n), local[i].id) == ClosingsOf(DuplicatesUpTo(local, i + 1), local[i].id)
    decreases n
  {
    hide DuplicatesUpTo, ClosingsOf, First;
    if i + 1 < n {
      var k := n - 1;
      assert local[k].id != local[i].id;
      DuplicateClosingsStep(local, k, local[i].id);
      LaterDuplicatesCloseOthers(local, k, i);
    }
  }

  lemma DuplicateClosings(local: seq<LocalPosition>, i: nat)
    requires DistinctIds(local) && i < |local|
    ensures ClosingsOf(Duplicates(local), local[i].id) == if First(local, i) then 0 else 1
  {
    LaterDuplicatesCloseOthers(local, |local|, i);
    DuplicateClosingsStep(local, i, local[i].id);
    NotYetClosed(local, i);
  }

  /** Only the key under which the position is indexed can close it in the second pass. */
  lemma {:induction false} UnlistedClosings(index: Index, exchange: seq<ExchangePosition>, order: seq<string>,
                                            id: string, mine: string)
    requires forall m :: m in order ==> m in index && (index[m].id == id ==> m == mine)
    requires forall a, b :: 0 <= a < b < |order| ==> order[a] != order[b]
    ensures ClosingsOf(Unlisted(index, exchange, order), id)
            == if mine in order && index[mine].id == id && !Lists(exchange, mine) then 1 else 0
  {
    if order != [] {
      var (m, rest) := (order[0], order[1..]);
      assert m !in rest;
      UnlistedClosings(index, exchange, rest, id, mine);
      var first := if Lists(exchange, m) then [] else [ClosedStale(index[m].id, m)];
      ClosingsConcat(first, Unlisted(index, exchange, rest), id);
      ClosingsOfOne(ClosedStale(index[m].id, m), id);
    }
  }

  lemma StaleClosings(local: seq<LocalPosition>, exchange: seq<ExchangePosition>, order: seq<string>, i: nat)
    requires DistinctIds(local) && i < |local| && IterationOrder(IndexOf(local), order)
    ensures ClosingsOf(Unlisted(IndexOf(local), exchange, order), local[i].id)
            == if First(local, i) && !Lists(exchange, LocalMarket(local[i])) then 1 else 0
  {
    var mine := LocalMarket(local[i]);
    forall m | m in order && IndexOf(local)[m].id == local[i].id
      ensures m == mine && First(local, i)
    {
      var k := FirstOf(local, |local|, m);
      assert k == i;
    }
    if First(local, i) {
      FirstIsIndexed(local, |local|, i);
    }
    UnlistedClosings(IndexOf(local), exchange, order, local[i].id, mine);
  }
}

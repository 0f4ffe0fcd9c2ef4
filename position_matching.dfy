/**
  Order-to-position matching (`aggregatePositions`, exchanges/Exchange.ts).

  Orders are grouped by trading pair, in the order each pair was first seen.
  Within one pair the orders are walked in arrival order while buy and sell
  volume and cost accumulate; as soon as the running volumes balance to
  within two per cent, the accumulated run becomes a `Position` and the
  accumulators start again from zero. Orders left after the last balanced
  run produce no position.

  The specification `MatchPair` states this without accumulators: a pair's
  positions are obtained by repeatedly cutting off the SHORTEST non-empty
  prefix whose volumes balance. `MatchOrders` is the source's loop, proved to
  compute `MatchPair`, and `AggregatePositions` the whole operation, proved
  to compute `Positions`.
 */
module PositionMatching {
  import opened Wrappers
  import opened ExchangeTypes
  import TradeAggregation

  // ----- per-side volumes and costs -----

  /** An order on the buy side; every other side string is booked as a sell. */
  predicate IsBuy(o: Order)
  {
    o.side == BuySide
  }

  /** An order's cost: its volume at its average price. */
  function Cost(o: Order): real
  {
    o.totalVol * o.averagePrice
  }

  function BuyVolume(os: seq<Order>): real
  {
    if os == [] then 0.0
    else BuyVolume(os[..|os| - 1]) + if IsBuy(os[|os| - 1]) then os[|os| - 1].totalVol else 0.0
  }

  function SellVolume(os: seq<Order>): real
  {
    if os == [] then 0.0
    else SellVolume(os[..|os| - 1]) + if IsBuy(os[|os| - 1]) then 0.0 else os[|os| - 1].totalVol
  }

  function BuyCost(os: seq<Order>): real
  {
    if os == [] then 0.0
    else BuyCost(os[..|os| - 1]) + if IsBuy(os[|os| - 1]) then Cost(os[|os| - 1]) else 0.0
  }

  function SellCost(os: seq<Order>): real
  {
    if os == [] then 0.0
    else SellCost(os[..|os| - 1]) + if IsBuy(os[|os| - 1]) then 0.0 else Cost(os[|os| - 1])
  }

  /** The four accumulators hold the volumes and costs of `run`. */
  predicate Tallies(run: seq<Order>, buyVolume: real, sellVolume: real, buyCost: real, sellCost: real)
  {
    buyVolume == BuyVolume(run) && sellVolume == SellVolume(run) &&
    buyCost == BuyCost(run) && sellCost == SellCost(run)
  }

  // ----- the volume-balance test -----

  const VolumeThresholdPercent: real := 2.0

  /** The source's test |b − s| / ((b + s) / 2) · 100 ≤ 2. When b + s is zero the
      quotient is NaN or an infinity there, and both compare false. */
  predicate WithinThreshold(buyVolume: real, sellVolume: real)
  {
    buyVolume + sellVolume != 0.0 &&
    Abs(buyVolume - sellVolume) / ((buyVolume + sellVolume) / 2.0) * 100.0 <= VolumeThresholdPercent
  }

  /** The balance test without division: within two per cent of the mean of
      the two volumes when their total is positive, and always when their
      total is negative (the quotient is then not positive). */
  predicate Balanced(buyVolume: real, sellVolume: real)
  {
    if buyVolume + sellVolume > 0.0 then 100.0 * Abs(buyVolume - sellVolume) <= buyVolume + sellVolume
    else buyVolume + sellVolume < 0.0
  }

  /** The source's test and the division-free one agree on every input. */
  lemma ThresholdBalanced(b: real, s: real)
    ensures WithinThreshold(b, s) <==> Balanced(b, s)
  {
    if b + s != 0.0 {
      var half := (b + s) / 2.0;
      var q := Abs(b - s) / half;
      assert q * half == Abs(b - s);
      if b + s > 0.0 {
        if q * 100.0 <= 2.0 {
          assert q <= 2.0 / 100.0;
          assert q * half <= (2.0 / 100.0) * half;
          assert (2.0 / 100.0) * half == (b + s) / 100.0;
          assert Abs(b - s) <= (b + s) / 100.0;
          assert 100.0 * Abs(b - s) <= b + s;
          assert Balanced(b, s);
          assert WithinThreshold(b, s);
        } else {
          assert q > 2.0 / 100.0;
          assert q * half > (2.0 / 100.0) * half;
          assert (2.0 / 100.0) * half == (b + s) / 100.0;
        }
      } else {
        assert half < 0.0 && Abs(b - s) >= 0.0;
        if q > 0.0 {
          assert false;
        }
      }
    }
  }

  /** A run of orders whose running volumes balance. */
  predicate Closes(run: seq<Order>)
  {
    Balanced(BuyVolume(run), SellVolume(run))
  }

  /** Every order has at least one fill (the source reads the first fill of the
      first order of each run it emits). */
  predicate HasTrades(os: seq<Order>)
  {
    forall o | o in os :: |o.trades| > 0
  }

  lemma HasTradesSlice(os: seq<Order>, lo: int, hi: int)
    requires HasTrades(os) && 0 <= lo <= hi <= |os|
    ensures HasTrades(os[lo..hi])
  {
    assert forall o | o in os[lo..hi] :: o in os;
  }

  // ----- one position -----

  /** The position the source emits for a balanced run `run`. */
  function PositionOf(run: seq<Order>): Position
    requires |run| > 0 && |run[0].trades| > 0
  {
    var positionType := if BuyVolume(run) > SellVolume(run) then Long else Short;
    Position(
      time := run[0].trades[0].time,
      positionType := positionType,
      buyCost := BuyCost(run),
      sellCost := SellCost(run),
      profitLoss := if positionType == Long then SellCost(run) - BuyCost(run) else BuyCost(run) - SellCost(run),
      orders := run,
      pair := run[0].pair,
      price := run[0].trades[0].price)
  }

  // ----- the specification of one pair -----

  /** The length of the shortest prefix of `os`, of length at least `n`, that
      closes; `None` when no such prefix exists. */
  function ClosingFrom(os: seq<Order>, n: nat): (r: Option<nat>)
    requires 1 <= n
    ensures r.Some? ==> n <= r.value <= |os|
    decreases |os| + 1 - n
  {
    if n > |os| then None
    else if Closes(os[..n]) then Some(n)
    else ClosingFrom(os, n + 1)
  }

  /** The positions of one pair's orders: shortest closing prefixes, in turn. */
  function MatchPair(os: seq<Order>): seq<Position>
    requires HasTrades(os)
    decreases |os|
  {
    match ClosingFrom(os, 1)
    case None => []
    case Some(k) =>
      assert os[0] in os;
      HasTradesSlice(os, k, |os|);
      [PositionOf(os[..k])] + MatchPair(os[k..])
  }

  /** The orders of one pair left after its last position. */
  function Unmatched(os: seq<Order>): seq<Order>
    decreases |os|
  {
    match ClosingFrom(os, 1)
    case None => os
    case Some(k) => Unmatched(os[k..])
  }

  /** The orders of `ps`, position after position. */
  function Flatten(ps: seq<Position>): seq<Order>
  {
    if ps == [] then [] else ps[0].orders + Flatten(ps[1..])
  }

  function TotalBuyCost(ps: seq<Position>): real
  {
    if ps == [] then 0.0 else ps[0].buyCost + TotalBuyCost(ps[1..])
  }

  function TotalSellCost(ps: seq<Position>): real
  {
    if ps == [] then 0.0 else ps[0].sellCost + TotalSellCost(ps[1..])
  }

  /** A run that closes while none of its shorter non-empty prefixes does. */
  ghost predicate ClosedRun(run: seq<Order>)
  {
    |run| > 0 && Closes(run) && forall k | 1 <= k < |run| :: !Closes(run[..k])
  }

  // ----- the specification of the whole operation -----

  /** The distinct pairs of `orders`, in the order each was first seen. */
  function PairsOf(orders: seq<Order>): seq<string>
  {
    if orders == [] then []
    else
      var pairs := PairsOf(orders[..|orders| - 1]);
      var pair := orders[|orders| - 1].pair;
      if pair in pairs then pairs else pairs + [pair]
  }

  /** The orders on `pair`, in arrival order. */
  function OrdersOf(orders: seq<Order>, pair: string): seq<Order>
  {
    if orders == [] then []
    else
      var o := orders[|orders| - 1];
      OrdersOf(orders[..|orders| - 1], pair) + if o.pair == pair then [o] else []
  }

  lemma {:induction false} OrdersOfMembers(orders: seq<Order>, pair: string, o: Order)
    ensures o in OrdersOf(orders, pair) <==> o in orders && o.pair == pair
  {
    if orders != [] {
      var init := orders[..|orders| - 1];
      assert orders == init + [orders[|orders| - 1]];
      OrdersOfMembers(init, pair, o);
    }
  }

  lemma OrdersOfHasTrades(orders: seq<Order>, pair: string)
    requires HasTrades(orders)
    ensures HasTrades(OrdersOf(orders, pair))
  {
    forall o | o in OrdersOf(orders, pair)
      ensures |o.trades| > 0
    {
      OrdersOfMembers(orders, pair, o);
    }
  }

  /** The positions of the pairs `pairs`, one pair after another. */
  function PositionsOver(orders: seq<Order>, pairs: seq<string>): seq<Position>
    requires HasTrades(orders)
  {
    if pairs == [] then []
    else
      OrdersOfHasTrades(orders, pairs[|pairs| - 1]);
      PositionsOver(orders, pairs[..|pairs| - 1]) + MatchPair(OrdersOf(orders, pairs[|pairs| - 1]))
  }

  /** The specification of `aggregatePositions`. */
  function Positions(orders: seq<Order>): seq<Position>
    requires HasTrades(orders)
  {
    PositionsOver(orders, PairsOf(orders))
  }

  // ----- the source's loops -----

  lemma ClosingFromStep(os: seq<Order>, n: nat)
    requires 1 <= n <= |os| && !Closes(os[..n])
    ensures ClosingFrom(os, n) == ClosingFrom(os, n + 1)
  {
  }

  /** One unfolding of `MatchPair` at a closing prefix of length `k`. */
  lemma MatchPairUnfold(os: seq<Order>, k: nat)
    requires HasTrades(os) && ClosingFrom(os, 1) == Some(k)
    ensures |os[..k]| > 0 && |os[..k][0].trades| > 0 && HasTrades(os[k..])
    ensures MatchPair(os) == [PositionOf(os[..k])] + MatchPair(os[k..])
  {
    assert os[0] in os;
    HasTradesSlice(os, k, |os|);
  }

  /** Adding one order to a run adds it to exactly one side. */
  lemma AccumulateStep(run: seq<Order>, o: Order)
    ensures BuyVolume(run + [o]) == BuyVolume(run) + if IsBuy(o) then o.totalVol else 0.0
    ensures SellVolume(run + [o]) == SellVolume(run) + if IsBuy(o) then 0.0 else o.totalVol
    ensures BuyCost(run + [o]) == BuyCost(run) + if IsBuy(o) then Cost(o) else 0.0
    ensures SellCost(run + [o]) == SellCost(run) + if IsBuy(o) then 0.0 else Cost(o)
  {
    assert (run + [o])[..|run|] == run;
  }

  /** The orders taken so far, extended by the next one. */
  lemma RunExtend(group: seq<Order>, start: int, j: int)
    requires 0 <= start <= j < |group|
    ensures group[start..j] + [group[j]] == group[start..j + 1]
    ensures group[start..][..j + 1 - start] == group[start..j + 1]
    ensures group[start..][j + 1 - start..] == group[j + 1..]
  {
  }

  /** The loop's state after `j` orders of `group`: the positions `ps` were
      emitted for `group[..start]`, and the pending run `group[start..j]` has
      no closing prefix. */
  ghost predicate Matching(group: seq<Order>, start: int, j: int, ps: seq<Position>)
  {
    HasTrades(group) && 0 <= start <= j <= |group| && HasTrades(group[start..]) &&
    ClosingFrom(group[start..], 1) == ClosingFrom(group[start..], j - start + 1) &&
    ps + MatchPair(group[start..]) == MatchPair(group)
  }

  lemma MatchingInit(group: seq<Order>)
    requires HasTrades(group)
    ensures Matching(group, 0, 0, [])
  {
    assert group[0..] == group;
  }

  /** The next order extends the pending run; its first order has a fill. */
  lemma MatchingNext(group: seq<Order>, start: int, j: int, ps: seq<Position>)
    requires Matching(group, start, j, ps) && j < |group|
    ensures group[start..j] + [group[j]] == group[start..j + 1]
    ensures |group[start..j + 1][0].trades| > 0
  {
    RunExtend(group, start, j);
    assert group[start] in group;
  }

  /** The loop emits the pending run, `group[start..j + 1]`, when it closes. */
  lemma EmitStep(group: seq<Order>, start: int, j: int, ps: seq<Position>, run: seq<Order>)
    requires Matching(group, start, j, ps) && j < |group|
    requires run == group[start..j + 1] && Closes(run)
    ensures |run[0].trades| > 0 && group[j + 1..j + 1] == []
    ensures Matching(group, j + 1, j + 1, ps + [PositionOf(run)])
  {
    var rest, m := group[start..], j + 1 - start;
    RunExtend(group, start, j);
    MatchPairUnfold(rest, m);
    assert MatchPair(rest) == [PositionOf(run)] + MatchPair(group[j + 1..]);
    assert (ps + [PositionOf(run)]) + MatchPair(group[j + 1..])
      == ps + ([PositionOf(run)] + MatchPair(group[j + 1..]));
  }

  /** The loop goes on when the pending run, `group[start..j + 1]`, does not close. */
  lemma SkipStep(group: seq<Order>, start: int, j: int, ps: seq<Position>, run: seq<Order>)
    requires Matching(group, start, j, ps) && j < |group|
    requires run == group[start..j + 1] && !Closes(run)
    ensures Matching(group, start, j + 1, ps) && run == group[start..j + 1]
  {
    RunExtend(group, start, j);
    ClosingFromStep(group[start..], j + 1 - start);
  }

  /** One turn of the matching loop, whichever way the callback went. */
  lemma LoopStep(group: seq<Order>, start: int, j: int, ps: seq<Position>, run: seq<Order>,
                 emitted: Option<Position>, tempOrders: seq<Order>)
    requires Matching(group, start, j, ps) && j < |group| && run == group[start..j + 1]
    requires Closes(run) ==> emitted == Some(PositionOf(run)) && tempOrders == []
    requires !Closes(run) ==> emitted == None && tempOrders == run
    ensures emitted.Some? ==> Matching(group, j + 1, j + 1, ps + [emitted.value]) && tempOrders == group[j + 1..j + 1]
    ensures emitted.None? ==> Matching(group, start, j + 1, ps) && tempOrders == group[start..j + 1]
  {
    if Closes(run) {
      EmitStep(group, start, j, ps, run);
    } else {
      SkipStep(group, start, j, ps, run);
    }
  }

  /** At the end no prefix of the pending run closes, so it yields nothing. */
  lemma MatchingDone(group: seq<Order>, start: int, ps: seq<Position>)
    requires Matching(group, start, |group|, ps)
    ensures ps == MatchPair(group)
  {
    assert MatchPair(group[start..]) == [];
  }

  /** The source's per-order callback: book `order` on its side, and when the
      run balances emit its position and reset the accumulators. */
  method AddOrder(order: Order, buyVolume: real, sellVolume: real, buyCost: real, sellCost: real,
                  tempOrders: seq<Order>)
    returns (emitted: Option<Position>, buyVolume': real, sellVolume': real, buyCost': real,
             sellCost': real, tempOrders': seq<Order>)
    requires Tallies(tempOrders, buyVolume, sellVolume, buyCost, sellCost)
    requires |(tempOrders + [order])[0].trades| > 0
    ensures Tallies(tempOrders', buyVolume', sellVolume', buyCost', sellCost')
    ensures Closes(tempOrders + [order]) ==>
      emitted == Some(PositionOf(tempOrders + [order])) && tempOrders' == []
    ensures !Closes(tempOrders + [order]) ==>
      emitted == None && tempOrders' == tempOrders + [order]
  {
    AccumulateStep(tempOrders, order);
    buyVolume', sellVolume', buyCost', sellCost' := buyVolume, sellVolume, buyCost, sellCost;
    if order.side == BuySide {
      buyVolume' := buyVolume' + order.totalVol;
      buyCost' := buyCost' + order.totalVol * order.averagePrice;
    } else {
      sellVolume' := sellVolume' + order.totalVol;
      sellCost' := sellCost' + order.totalVol * order.averagePrice;
    }
    tempOrders' := tempOrders + [order];
    ThresholdBalanced(buyVolume', sellVolume');
    if WithinThreshold(buyVolume', sellVolume') {
      var positionType := if buyVolume' > sellVolume' then Long else Short;
      var profitLoss := if positionType == Long then sellCost' - buyCost' else buyCost' - sellCost';
      emitted := Some(Position(
        time := tempOrders'[0].trades[0].time,
        positionType := positionType,
        buyCost := buyCost',
        sellCost := sellCost',
        profitLoss := profitLoss,
        orders := tempOrders',
        pair := tempOrders'[0].pair,
        price := tempOrders'[0].trades[0].price));
      buyVolume', sellVolume', buyCost', sellCost' := 0.0, 0.0, 0.0, 0.0;
      tempOrders' := [];
    } else {
      emitted := None;
    }
  }

  /** The source's loop over one pair's orders. */
  method MatchOrders(group: seq<Order>) returns (ps: seq<Position>)
    requires HasTrades(group)
    ensures ps == MatchPair(group)
  {
    var buyVolume, sellVolume, buyCost, sellCost := 0.0, 0.0, 0.0, 0.0;
    var tempOrders: seq<Order> := [];
    ps := [];
    ghost var start := 0;
    MatchingInit(group);
    var j := 0;
    while j < |group|
      invariant Matching(group, start, j, ps)
      invariant tempOrders == group[start..j]
      invariant Tallies(tempOrders, buyVolume, sellVolume, buyCost, sellCost)
    {
      MatchingNext(group, start, j, ps);
      ghost var run := tempOrders + [group[j]];
      var emitted;
      emitted, buyVolume, sellVolume, buyCost, sellCost, tempOrders :=
        AddOrder(group[j], buyVolume, sellVolume, buyCost, sellCost, tempOrders);
      LoopStep(group, start, j, ps, run, emitted, tempOrders);
      if emitted.Some? {
        ps := ps + [emitted.value];
        start := j + 1;
      }
      j := j + 1;
    }
    MatchingDone(group, start, ps);
  }

  /** A pair not yet seen has no orders yet. */
  lemma {:induction false} OrdersOfUnseen(orders: seq<Order>, pair: string)
    requires pair !in PairsOf(orders)
    ensures OrdersOf(orders, pair) == []
  {
    if orders != [] {
      OrdersOfUnseen(orders[..|orders| - 1], pair);
    }
  }

  /** The grouping loop's state after `i` orders: the keys of `ordersByPair`
      are the pairs seen so far, listed in `pairs` in first-seen order, and
      each key holds the orders on its pair so far. */
  ghost predicate Grouped(orders: seq<Order>, i: int, ordersByPair: map<string, seq<Order>>, pairs: seq<string>)
  {
    0 <= i <= |orders| && pairs == PairsOf(orders[..i]) &&
    (forall p :: p in ordersByPair <==> p in pairs) &&
    forall p | p in ordersByPair :: ordersByPair[p] == OrdersOf(orders[..i], p)
  }

  /** One step of the grouping loop: make room for a new pair, then push. */
  lemma GroupStep(orders: seq<Order>, i: int, ordersByPair: map<string, seq<Order>>, pairs: seq<string>)
    requires Grouped(orders, i, ordersByPair, pairs) && i < |orders|
    ensures var o := orders[i];
      var room := if o.pair in ordersByPair then ordersByPair else ordersByPair[o.pair := []];
      var pairs' := if o.pair in ordersByPair then pairs else pairs + [o.pair];
      Grouped(orders, i + 1, room[o.pair := room[o.pair] + [o]], pairs')
  {
    var o := orders[i];
    assert orders[..i + 1][..i] == orders[..i];
    if o.pair !in ordersByPair {
      OrdersOfUnseen(orders[..i], o.pair);
    }
  }

  /** One step of the loop over pairs. */
  lemma PositionsOverStep(orders: seq<Order>, pairs: seq<string>, k: int)
    requires HasTrades(orders) && 0 <= k < |pairs|
    ensures HasTrades(OrdersOf(orders, pairs[k]))
    ensures PositionsOver(orders, pairs[..k + 1]) ==
      PositionsOver(orders, pairs[..k]) + MatchPair(OrdersOf(orders, pairs[k]))
  {
    assert pairs[..k + 1][..k] == pairs[..k];
    OrdersOfHasTrades(orders, pairs[k]);
  }

  /** `aggregatePositions`: group by pair, then match each pair's orders. */
  method AggregatePositions(orders: seq<Order>) returns (positions: seq<Position>)
    requires HasTrades(orders)
    ensures positions == Positions(orders)
  {
    var ordersByPair: map<string, seq<Order>> := map[];
    var pairs: seq<string> := [];
    var i := 0;
    while i < |orders|
      invariant Grouped(orders, i, ordersByPair, pairs)
    {
      var order := orders[i];
      GroupStep(orders, i, ordersByPair, pairs);
      if order.pair !in ordersByPair {
        ordersByPair := ordersByPair[order.pair := []];
        pairs := pairs + [order.pair];
      }
      ordersByPair := ordersByPair[order.pair := ordersByPair[order.pair] + [order]];
      i := i + 1;
    }
    assert orders[..i] == orders;
    positions := [];
    var k := 0;
    while k < |pairs|
      invariant 0 <= k <= |pairs|
      invariant positions == PositionsOver(orders, pairs[..k])
    {
      PositionsOverStep(orders, pairs, k);
      var ps := MatchOrders(ordersByPair[pairs[k]]);
      positions := positions + ps;
      k := k + 1;
    }
    assert pairs[..k] == pairs;
  }

  // ----- properties of the specification -----

  /** `ClosingFrom` finds the shortest closing prefix from length `n`, and
      finds nothing exactly when none closes. */
  lemma {:induction false} ClosingFromLeast(os: seq<Order>, n: nat)
    requires 1 <= n
    ensures ClosingFrom(os, n).Some? ==> Closes(os[..ClosingFrom(os, n).value])
    ensures ClosingFrom(os, n).Some? ==> forall k | n <= k < ClosingFrom(os, n).value :: !Closes(os[..k])
    ensures ClosingFrom(os, n).None? <==> forall k | n <= k <= |os| :: !Closes(os[..k])
    decreases |os| + 1 - n
  {
    if n <= |os| && !Closes(os[..n]) {
      ClosingFromLeast(os, n + 1);
    }
  }

  /** Every position closes a run none of whose shorter prefixes closes, and is
      the position of that run. */
  lemma {:induction false} MatchPairRuns(os: seq<Order>)
    requires HasTrades(os)
    ensures forall p | p in MatchPair(os) ::
      ClosedRun(p.orders) && |p.orders[0].trades| > 0 && p == PositionOf(p.orders)
    decreases |os|
  {
    ClosingFromLeast(os, 1);
    match ClosingFrom(os, 1)
    case None =>
    case Some(k) =>
      MatchPairUnfold(os, k);
      MatchPairRuns(os[k..]);
      assert os[..k][..k] == os[..k];
      assert forall j | 1 <= j < k :: os[..k][..j] == os[..j];
  }

  lemma FlattenCons(p: Position, ps: seq<Position>)
    ensures Flatten([p] + ps) == p.orders + Flatten(ps)
  {
    assert ([p] + ps)[1..] == ps;
  }

  lemma {:induction false} PartitionSplit(os: seq<Order>)
    requires HasTrades(os)
    ensures Flatten(MatchPair(os)) + Unmatched(os) == os
    decreases |os|
  {
    match ClosingFrom(os, 1)
    case None =>
    case Some(k) =>
      MatchPairUnfold(os, k);
      PartitionSplit(os[k..]);
      FlattenCons(PositionOf(os[..k]), MatchPair(os[k..]));
      JoinAt(os, k, Flatten(MatchPair(os[k..])), Unmatched(os[k..]));
  }

  /** Putting a cut sequence back together. */
  lemma JoinAt(os: seq<Order>, k: nat, front: seq<Order>, back: seq<Order>)
    requires k <= |os| && front + back == os[k..]
    ensures (os[..k] + front) + back == os
  {
    assert os == os[..k] + os[k..];
  }

  /** A pair's orders split into the runs of its positions, in order, followed
      by the unmatched rest; so the runs are disjoint, and together a prefix. */
  lemma MatchPairPartition(os: seq<Order>)
    requires HasTrades(os)
    ensures Flatten(MatchPair(os)) + Unmatched(os) == os
    ensures Flatten(MatchPair(os)) == os[..|Flatten(MatchPair(os))|]
  {
    PartitionSplit(os);
    var runs := Flatten(MatchPair(os));
    assert os[..|runs|] == (runs + Unmatched(os))[..|runs|];
  }

  /** No non-empty prefix of the unmatched rest closes. */
  lemma {:induction false} UnmatchedOpen(os: seq<Order>)
    ensures forall k | 1 <= k <= |Unmatched(os)| :: !Closes(Unmatched(os)[..k])
    decreases |os|
  {
    ClosingFromLeast(os, 1);
    match ClosingFrom(os, 1)
    case None =>
    case Some(k) =>
      UnmatchedOpen(os[k..]);
  }

  lemma {:induction false} CostsConcat(a: seq<Order>, b: seq<Order>)
    ensures BuyCost(a + b) == BuyCost(a) + BuyCost(b)
    ensures SellCost(a + b) == SellCost(a) + SellCost(b)
    decreases |b|
  {
    if b != [] {
      var init, last := b[..|b| - 1], b[|b| - 1];
      assert (a + b)[..|a + b| - 1] == a + init;
      assert (a + b)[|a + b| - 1] == last;
      CostsConcat(a, init);
      assert BuyCost(a + b) == BuyCost(a + init) + if IsBuy(last) then Cost(last) else 0.0;
      assert BuyCost(b) == BuyCost(init) + if IsBuy(last) then Cost(last) else 0.0;
      assert SellCost(a + b) == SellCost(a + init) + if IsBuy(last) then 0.0 else Cost(last);
      assert SellCost(b) == SellCost(init) + if IsBuy(last) then 0.0 else Cost(last);
    } else {
      assert a + b == a;
    }
  }

  /** Every unit of buy and sell cost is either booked in a position or still
      pending at the end. */
  lemma {:induction false} CostConservation(os: seq<Order>)
    requires HasTrades(os)
    ensures TotalBuyCost(MatchPair(os)) + BuyCost(Unmatched(os)) == BuyCost(os)
    ensures TotalSellCost(MatchPair(os)) + SellCost(Unmatched(os)) == SellCost(os)
    decreases |os|
  {
    match ClosingFrom(os, 1)
    case None =>
    case Some(k) =>
      MatchPairUnfold(os, k);
      CostConservation(os[k..]);
      var ps := MatchPair(os);
      assert ps[1..] == MatchPair(os[k..]);
      assert os == os[..k] + os[k..];
      CostsConcat(os[..k], os[k..]);
  }

  /** The orders of every position come from the pair's orders. */
  lemma {:induction false} RunsWithin(os: seq<Order>)
    requires HasTrades(os)
    ensures forall p | p in MatchPair(os) :: forall o | o in p.orders :: o in os
    decreases |os|
  {
    match ClosingFrom(os, 1)
    case None =>
    case Some(k) =>
      MatchPairUnfold(os, k);
      RunsWithin(os[k..]);
      assert forall o | o in os[k..] :: o in os;
      assert forall o | o in os[..k] :: o in os;
  }

  lemma {:induction false} PositionsOverRuns(orders: seq<Order>, pairs: seq<string>)
    requires HasTrades(orders)
    ensures forall p | p in PositionsOver(orders, pairs) ::
      ClosedRun(p.orders) && |p.orders[0].trades| > 0 && p == PositionOf(p.orders) &&
      forall o | o in p.orders :: o in orders && o.pair == p.pair
  {
    if pairs != [] {
      var pair := pairs[|pairs| - 1];
      var os := OrdersOf(orders, pair);
      OrdersOfHasTrades(orders, pair);
      PositionsOverRuns(orders, pairs[..|pairs| - 1]);
      MatchPairRuns(os);
      RunsWithin(os);
      forall p, o | p in MatchPair(os) && o in p.orders
        ensures o in orders && o.pair == p.pair
      {
        assert p.orders[0] in p.orders;
        OrdersOfMembers(orders, pair, o);
        OrdersOfMembers(orders, pair, p.orders[0]);
      }
    }
  }

  /** Every position of `aggregatePositions` closes a run of orders none of
      whose shorter prefixes closes, all on the position's pair, and is built
      from that run. */
  lemma PositionsAreClosedRuns(orders: seq<Order>)
    requires HasTrades(orders)
    ensures forall p | p in Positions(orders) ::
      ClosedRun(p.orders) && |p.orders[0].trades| > 0 && p == PositionOf(p.orders) &&
      forall o | o in p.orders :: o in orders && o.pair == p.pair
  {
    PositionsOverRuns(orders, PairsOf(orders));
  }

  /** The fields of every emitted position: long exactly when more was bought
      than sold, the profit rule for each direction, the costs as sums over
      its buy and non-buy orders, and time, price and pair from the first fill
      of its first order. */
  lemma PositionFields(orders: seq<Order>)
    requires HasTrades(orders)
    ensures forall p | p in Positions(orders) ::
      |p.orders| > 0 && |p.orders[0].trades| > 0 &&
      (p.positionType == Long <==> BuyVolume(p.orders) > SellVolume(p.orders)) &&
      p.profitLoss == (if p.positionType == Long then p.sellCost - p.buyCost else p.buyCost - p.sellCost) &&
      p.buyCost == BuyCost(p.orders) && p.sellCost == SellCost(p.orders) &&
      p.time == p.orders[0].trades[0].time && p.price == p.orders[0].trades[0].price &&
      p.pair == p.orders[0].pair
  {
    PositionsAreClosedRuns(orders);
  }

  /** A 2% gap of 100 against 98 fails the test, 100 against 98.1 passes. */
  lemma ThresholdBoundary()
    ensures !WithinThreshold(100.0, 98.0)
    ensures WithinThreshold(100.0, 98.1)
  {
    ThresholdBalanced(100.0, 98.0);
    ThresholdBalanced(100.0, 98.1);
  }

  /** A buy and a sell of the same volume on one pair: the buy alone does not
      close, the two together do, and the result is one short position whose
      profit is the buy cost minus the sell cost. Bought 100 at 10 and sold
      100 at 11, that profit is −100. */
  lemma RoundTrip(buy: Order, sell: Order)
    requires IsBuy(buy) && !IsBuy(sell) && |buy.trades| > 0 && |sell.trades| > 0
    requires buy.totalVol == sell.totalVol > 0.0
    ensures MatchPair([buy, sell]) == [PositionOf([buy, sell])]
    ensures PositionOf([buy, sell]).positionType == Short
    ensures PositionOf([buy, sell]).profitLoss == Cost(buy) - Cost(sell)
    ensures buy.totalVol == 100.0 && buy.averagePrice == 10.0 && sell.averagePrice == 11.0 ==>
      PositionOf([buy, sell]).profitLoss == -100.0
  {
    var run := [buy, sell];
    assert [] + [buy] == [buy] && [buy] + [sell] == run;
    AccumulateStep([], buy);
    AccumulateStep([buy], sell);
    assert run[..1] == [buy] && run[..2] == run;
    assert !Closes(run[..1]);
    assert Closes(run[..2]);
    assert ClosingFrom(run, 1) == Some(2);
    MatchPairUnfold(run, 2);
    assert run[2..] == [];
  }

  /** The output of `aggregateTrades` meets the precondition of
      `aggregatePositions`: every aggregate has at least one fill. */
  lemma AggregatedHasTrades(trades: seq<Trade>)
    requires TradeAggregation.PositiveVolumes(trades)
    ensures HasTrades(TradeAggregation.Aggregated(trades))
  {
    forall o | o in TradeAggregation.Aggregated(trades)
      ensures |o.trades| > 0
    {
      var i :| 0 <= i < |TradeAggregation.Aggregated(trades)| && TradeAggregation.Aggregated(trades)[i] == o;
      TradeAggregation.AggregatedAt(trades, i);
    }
  }

  /** The positions of `ps` on `pair`, in order. */
  function OnPair(ps: seq<Position>, pair: string): seq<Position>
  {
    if ps == [] then []
    else OnPair(ps[..|ps| - 1], pair) + if ps[|ps| - 1].pair == pair then [ps[|ps| - 1]] else []
  }

  lemma {:induction false} OnPairConcat(a: seq<Position>, b: seq<Position>, pair: string)
    ensures OnPair(a + b, pair) == OnPair(a, pair) + OnPair(b, pair)
    decreases |b|
  {
    if b == [] {
      assert a + b == a;
    } else {
      var init := b[..|b| - 1];
      assert (a + b)[..|a + b| - 1] == a + init;
      OnPairConcat(a, init, pair);
    }
  }

  lemma {:induction false} OnPairUniform(ps: seq<Position>, q: string, pair: string)
    requires forall p | p in ps :: p.pair == q
    ensures OnPair(ps, pair) == if q == pair then ps else []
    decreases |ps|
  {
    if ps != [] {
      assert forall p | p in ps[..|ps| - 1] :: p in ps;
      OnPairUniform(ps[..|ps| - 1], q, pair);
      assert ps[..|ps| - 1] + [ps[|ps| - 1]] == ps;
    }
  }

  lemma {:induction false} PairsOfDistinct(orders: seq<Order>)
    ensures forall i, j | 0 <= i < j < |PairsOf(orders)| :: PairsOf(orders)[i] != PairsOf(orders)[j]
  {
    if orders != [] {
      PairsOfDistinct(orders[..|orders| - 1]);
    }
  }

  /** Every position of one pair's matching is on that pair. */
  lemma PairPositionsOnPair(orders: seq<Order>, pair: string)
    requires HasTrades(orders)
    ensures HasTrades(OrdersOf(orders, pair))
    ensures forall p | p in MatchPair(OrdersOf(orders, pair)) :: p.pair == pair
  {
    var os := OrdersOf(orders, pair);
    OrdersOfHasTrades(orders, pair);
    MatchPairRuns(os);
    RunsWithin(os);
    forall p | p in MatchPair(os)
      ensures p.pair == pair
    {
      assert p.orders[0] in p.orders;
      OrdersOfMembers(orders, pair, p.orders[0]);
    }
  }

  lemma {:induction false} OnPairOver(orders: seq<Order>, pairs: seq<string>, pair: string)
    requires HasTrades(orders)
    requires forall i, j | 0 <= i < j < |pairs| :: pairs[i] != pairs[j]
    ensures HasTrades(OrdersOf(orders, pair))
    ensures OnPair(PositionsOver(orders, pairs), pair) == if pair in pairs then MatchPair(OrdersOf(orders, pair)) else []
  {
    OrdersOfHasTrades(orders, pair);
    if pairs != [] {
      var init, q := pairs[..|pairs| - 1], pairs[|pairs| - 1];
      assert pairs == init + [q];
      OnPairOver(orders, init, pair);
      PairPositionsOnPair(orders, q);
      OnPairConcat(PositionsOver(orders, init), MatchPair(OrdersOf(orders, q)), pair);
      OnPairUniform(MatchPair(OrdersOf(orders, q)), q, pair);
      assert q == pair ==> pair !in init;
    }
  }

  /** Restricted to one pair, the output of `aggregatePositions` is that pair's
      matching; with `MatchPairPartition` its runs are disjoint, on that pair,
      and together a prefix of that pair's orders in arrival order. */
  lemma PositionsOfPair(orders: seq<Order>, pair: string)
    requires HasTrades(orders)
    ensures HasTrades(OrdersOf(orders, pair))
    ensures OnPair(Positions(orders), pair) == MatchPair(OrdersOf(orders, pair))
  {
    OrdersOfHasTrades(orders, pair);
    PairsOfDistinct(orders);
    OnPairOver(orders, PairsOf(orders), pair);
    if pair !in PairsOf(orders) {
      OrdersOfUnseen(orders, pair);
    }
  }
}

/**
  Trade-to-order aggregation (`aggregateTrades`, exchanges/Exchange.ts).

  The specification is stated in closed form: the aggregate of an order id is
  built from the sub-sequence of trades carrying that id (`TradesOf`), with
  its volume as a sum, its extreme prices as a maximum and a minimum, and its
  average price as the volume-weighted mean Σ price·vol / Σ vol. The method
  `AggregateTrades` computes the same thing the way the source does, with a
  running average updated trade by trade, and is proved to meet it.
 */
module TradeAggregation {
  import opened ExchangeTypes

  /** Every trade has a positive volume (so no running total is ever zero). */
  predicate PositiveVolumes(ts: seq<Trade>)
  {
    forall t | t in ts :: t.vol > 0.0
  }

  /** The distinct order ids of `trades`, in the order each was first seen. */
  function OrderIds(trades: seq<Trade>): seq<string>
  {
    if trades == [] then []
    else
      var ids := OrderIds(trades[..|trades| - 1]);
      var id := trades[|trades| - 1].ordertxid;
      if id in ids then ids else ids + [id]
  }

  /** The trades carrying order id `id`, in input order. */
  function TradesOf(trades: seq<Trade>, id: string): seq<Trade>
  {
    if trades == [] then []
    else
      var t := trades[|trades| - 1];
      TradesOf(trades[..|trades| - 1], id) + if t.ordertxid == id then [t] else []
  }

  function SumVol(ts: seq<Trade>): real
  {
    if ts == [] then 0.0 else SumVol(ts[..|ts| - 1]) + ts[|ts| - 1].vol
  }

  /** A trade's price·vol. */
  function Weight(t: Trade): real
  {
    t.price * t.vol
  }

  /** Σ price·vol, the numerator of the volume-weighted average. */
  function SumPriceVol(ts: seq<Trade>): real
  {
    if ts == [] then 0.0 else SumPriceVol(ts[..|ts| - 1]) + ts[|ts| - 1].price * ts[|ts| - 1].vol
  }

  function MaxPrice(ts: seq<Trade>): real
    requires |ts| > 0
  {
    if |ts| == 1 then ts[0].price else Max(MaxPrice(ts[..|ts| - 1]), ts[|ts| - 1].price)
  }

  function MinPrice(ts: seq<Trade>): real
    requires |ts| > 0
  {
    if |ts| == 1 then ts[0].price else Min(MinPrice(ts[..|ts| - 1]), ts[|ts| - 1].price)
  }

  /** The volume-weighted mean price Σ price·vol / Σ vol. */
  function MeanPrice(ts: seq<Trade>): real
    requires SumVol(ts) != 0.0
  {
    SumPriceVol(ts) / SumVol(ts)
  }

  lemma {:induction false} SumVolPositive(ts: seq<Trade>)
    requires PositiveVolumes(ts)
    ensures |ts| > 0 ==> SumVol(ts) > 0.0
    ensures SumVol(ts) >= 0.0
  {
    if ts != [] {
      assert ts[|ts| - 1] in ts;
      assert forall t | t in ts[..|ts| - 1] :: t in ts;
      SumVolPositive(ts[..|ts| - 1]);
    }
  }

  /** The summary of one order's trades `ts` (all of one id, first one first). */
  function Summary(ts: seq<Trade>): Order
    requires |ts| > 0 && PositiveVolumes(ts)
  {
    SumVolPositive(ts);
    Order(
      ordertxid := ts[0].ordertxid,
      time := ts[0].time,
      side := ts[0].side,
      pair := ts[0].pair,
      totalVol := SumVol(ts),
      highestPrice := MaxPrice(ts),
      lowestPrice := MinPrice(ts),
      averagePrice := MeanPrice(ts),
      exchange := ts[0].exchange,
      trades := ts)
  }

  // ----- facts about the order ids and the per-id sub-sequences -----

  lemma {:induction false} OrderIdsDistinct(trades: seq<Trade>)
    ensures forall i, j | 0 <= i < j < |OrderIds(trades)| :: OrderIds(trades)[i] != OrderIds(trades)[j]
  {
    if trades != [] {
      OrderIdsDistinct(trades[..|trades| - 1]);
    }
  }

  /** An id is listed exactly when some trade carries it. */
  lemma {:induction false} OrderIdsComplete(trades: seq<Trade>, id: string)
    ensures id in OrderIds(trades) <==> exists k :: 0 <= k < |trades| && trades[k].ordertxid == id
  {
    if trades != [] {
      var init := trades[..|trades| - 1];
      OrderIdsComplete(init, id);
      if exists k :: 0 <= k < |trades| && trades[k].ordertxid == id {
        var k :| 0 <= k < |trades| && trades[k].ordertxid == id;
        if k < |trades| - 1 {
          assert init[k] == trades[k];
        }
      }
      if exists k :: 0 <= k < |init| && init[k].ordertxid == id {
        var k :| 0 <= k < |init| && init[k].ordertxid == id;
        assert trades[k] == init[k];
      }
    }
  }

  /** `TradesOf(trades, id)` holds exactly the trades of `trades` carrying `id`. */
  lemma {:induction false} TradesOfMembers(trades: seq<Trade>, id: string, t: Trade)
    ensures t in TradesOf(trades, id) <==> t in trades && t.ordertxid == id
  {
    if trades != [] {
      var init := trades[..|trades| - 1];
      TradesOfMembers(init, id, t);
      assert trades == init + [trades[|trades| - 1]];
    }
  }

  lemma {:induction false} TradesOfLength(trades: seq<Trade>, id: string)
    ensures |TradesOf(trades, id)| > 0 <==> id in OrderIds(trades)
  {
    if trades != [] {
      TradesOfLength(trades[..|trades| - 1], id);
    }
  }

  lemma TradesOfPositive(trades: seq<Trade>, id: string)
    requires PositiveVolumes(trades)
    ensures PositiveVolumes(TradesOf(trades, id))
  {
    forall t | t in TradesOf(trades, id) ensures t.vol > 0.0 {
      TradesOfMembers(trades, id, t);
    }
  }

  /** The specification of `aggregateTrades`: one summary per order id, in the
      order the ids were first seen. */
  function Aggregated(trades: seq<Trade>): seq<Order>
    requires PositiveVolumes(trades)
  {
    var ids := OrderIds(trades);
    seq(|ids|, i requires 0 <= i < |ids| =>
      TradesOfLength(trades, ids[i]);
      TradesOfPositive(trades, ids[i]);
      Summary(TradesOf(trades, ids[i])))
  }

  // ----- the source's step, proved against the closed form -----

  /** The order the source creates from the first trade of an id. */
  function NewOrder(t: Trade): (o: Order)
    requires t.vol > 0.0
    ensures o == Summary([t])
  {
    assert [t][..0] == [];
    assert SumVol([t]) == t.vol && SumPriceVol([t]) == t.price * t.vol;
    assert (t.price * t.vol) / t.vol == t.price;
    Order(t.ordertxid, t.time, t.side, t.pair, t.vol, t.price, t.price, t.price, t.exchange, [t])
  }

  /** The source's in-place update of order `o` by a later trade `t`:
      append, add the volume, widen the price range and recompute the
      running average from the previous total `totalVol - t.vol`. */
  function AddTrade(o: Order, t: Trade): Order
    requires o.totalVol + t.vol != 0.0
  {
    var totalVol := o.totalVol + t.vol;
    o.(trades := o.trades + [t],
       totalVol := totalVol,
       highestPrice := Max(o.highestPrice, t.price),
       lowestPrice := Min(o.lowestPrice, t.price),
       averagePrice := (o.averagePrice * (totalVol - t.vol) + t.price * t.vol) / totalVol)
  }

  /** The source's running average, fed the previous mean `mean` of the
      weighted sum `weighted` over the total `total`, gives the weighted
      mean of the extended sequence. */
  lemma RunningAverage(mean: real, weighted: real, total: real, price: real, vol: real, newTotal: real)
    requires total > 0.0 && vol > 0.0 && mean == weighted / total && newTotal == total + vol
    ensures (mean * (newTotal - vol) + price * vol) / newTotal == (weighted + price * vol) / newTotal
  {
    assert mean * total == weighted;
  }

  /** Appending a trade updates the extremes the way the source does. */
  lemma ExtremesStep(ts: seq<Trade>, t: Trade)
    requires |ts| > 0
    ensures MaxPrice(ts + [t]) == Max(MaxPrice(ts), t.price)
    ensures MinPrice(ts + [t]) == Min(MinPrice(ts), t.price)
  {
    var s := ts + [t];
    assert s[..|s| - 1] == ts;
  }

  /** Appending a trade updates the mean the way the source does. */
  lemma MeanStep(ts: seq<Trade>, t: Trade)
    requires SumVol(ts) > 0.0 && t.vol > 0.0
    ensures SumVol(ts + [t]) == SumVol(ts) + t.vol
    ensures MeanPrice(ts + [t])
         == (MeanPrice(ts) * ((SumVol(ts) + t.vol) - t.vol) + t.price * t.vol) / (SumVol(ts) + t.vol)
  {
    SumsStep(ts, t);
    RunningAverage(MeanPrice(ts), SumPriceVol(ts), SumVol(ts), t.price, t.vol, SumVol(ts) + t.vol);
  }

  /** One step of the running average agrees with the closed form. */
  lemma {:induction false} AddTradeSummary(ts: seq<Trade>, t: Trade)
    requires |ts| > 0 && PositiveVolumes(ts + [t])
    ensures PositiveVolumes(ts)
    ensures Summary(ts).totalVol + t.vol > 0.0
    ensures AddTrade(Summary(ts), t) == Summary(ts + [t])
  {
    var s := ts + [t];
    PrefixPositive(ts, t);
    SumVolPositive(ts);
    ExtremesStep(ts, t);
    MeanStep(ts, t);
    assert s[0] == ts[0];
  }

  lemma {:induction false} OrderIdsStep(trades: seq<Trade>, t: Trade)
    ensures OrderIds(trades + [t]) ==
      if t.ordertxid in OrderIds(trades) then OrderIds(trades) else OrderIds(trades) + [t.ordertxid]
    ensures forall id :: TradesOf(trades + [t], id) == TradesOf(trades, id) + if t.ordertxid == id then [t] else []
  {
    assert (trades + [t])[..|trades|] == trades;
  }

  lemma PrefixPositive(s: seq<Trade>, t: Trade)
    requires PositiveVolumes(s + [t])
    ensures PositiveVolumes(s) && t.vol > 0.0
  {
    assert t in s + [t];
    assert forall u | u in s :: u in s + [t];
  }

  /** The dictionary the source has built after the trades `s`, one trade
      at a time: a new entry for an unseen id, an in-place update otherwise. */
  ghost function Dictionary(s: seq<Trade>): (d: map<string, Order>)
    requires PositiveVolumes(s)
    ensures forall id :: id in d <==> id in OrderIds(s)
    ensures forall id | id in d :: d[id].totalVol > 0.0
  {
    if s == [] then map[]
    else
      var init, t := s[..|s| - 1], s[|s| - 1];
      assert s == init + [t];
      PrefixPositive(init, t);
      var d := Dictionary(init);
      if t.ordertxid in d then d[t.ordertxid := AddTrade(d[t.ordertxid], t)]
      else d[t.ordertxid := NewOrder(t)]
  }

  /** The entry of `id` is the closed-form summary of its trades. */
  ghost predicate SummarizesId(s: seq<Trade>, id: string)
    requires PositiveVolumes(s)
  {
    id in Dictionary(s) ==>
      && |TradesOf(s, id)| > 0
      && PositiveVolumes(TradesOf(s, id))
      && Dictionary(s)[id] == Summary(TradesOf(s, id))
  }

  lemma DictionaryUnfold(init: seq<Trade>, t: Trade)
    requires PositiveVolumes(init + [t])
    ensures PositiveVolumes(init) && t.vol > 0.0
    ensures var d := Dictionary(init);
      Dictionary(init + [t]) ==
        if t.ordertxid in d then d[t.ordertxid := AddTrade(d[t.ordertxid], t)]
        else d[t.ordertxid := NewOrder(t)]
  {
    PrefixPositive(init, t);
    assert (init + [t])[..|init|] == init;
  }

  lemma StepOtherId(init: seq<Trade>, t: Trade, id: string)
    requires PositiveVolumes(init + [t]) && PositiveVolumes(init)
    requires id != t.ordertxid && SummarizesId(init, id)
    ensures SummarizesId(init + [t], id)
  {
    DictionaryUnfold(init, t);
    OrderIdsStep(init, t);
    assert TradesOf(init + [t], id) == TradesOf(init, id);
  }

  lemma StepNewId(init: seq<Trade>, t: Trade)
    requires PositiveVolumes(init + [t]) && PositiveVolumes(init)
    requires t.ordertxid !in Dictionary(init)
    ensures SummarizesId(init + [t], t.ordertxid)
  {
    DictionaryUnfold(init, t);
    OrderIdsStep(init, t);
    TradesOfLength(init, t.ordertxid);
    assert TradesOf(init + [t], t.ordertxid) == [t];
  }

  lemma StepKnownId(init: seq<Trade>, t: Trade)
    requires PositiveVolumes(init + [t]) && PositiveVolumes(init)
    requires t.ordertxid in Dictionary(init) && SummarizesId(init, t.ordertxid)
    ensures SummarizesId(init + [t], t.ordertxid)
  {
    DictionaryUnfold(init, t);
    OrderIdsStep(init, t);
    var ts := TradesOf(init, t.ordertxid);
    assert forall u | u in ts + [t] :: u in ts || u == t;
    AddTradeSummary(ts, t);
    assert TradesOf(init + [t], t.ordertxid) == ts + [t];
  }

  /** Each entry of the dictionary is the closed-form summary of its id. */
  lemma {:induction false} DictionaryAt(s: seq<Trade>, id: string)
    requires PositiveVolumes(s)
    ensures SummarizesId(s, id)
  {
    if s != [] {
      var init, t := s[..|s| - 1], s[|s| - 1];
      assert s == init + [t];
      PrefixPositive(init, t);
      DictionaryAt(init, id);
      if id != t.ordertxid {
        StepOtherId(init, t, id);
      } else if id in Dictionary(init) {
        StepKnownId(init, t);
      } else {
        StepNewId(init, t);
      }
    }
  }

  /** The dictionary's values in key insertion order (`Object.values`). */
  function ValuesInOrder(orders: map<string, Order>, ids: seq<string>): seq<Order>
    requires forall id | id in ids :: id in orders
  {
    seq(|ids|, j requires 0 <= j < |ids| => orders[ids[j]])
  }

  lemma DictionaryValues(s: seq<Trade>)
    requires PositiveVolumes(s)
    ensures forall id | id in OrderIds(s) :: id in Dictionary(s)
    ensures ValuesInOrder(Dictionary(s), OrderIds(s)) == Aggregated(s)
  {
    forall id | id in OrderIds(s) ensures id in Dictionary(s) {
      DictionaryAt(s, id);
    }
    var r, a := ValuesInOrder(Dictionary(s), OrderIds(s)), Aggregated(s);
    forall j | 0 <= j < |r| ensures r[j] == a[j] {
      DictionaryAt(s, OrderIds(s)[j]);
    }
  }

  /** `aggregateTrades`: folds the trades into one aggregate per order id. The
      map `orders` and the key list `ids` together model the source's
      dictionary, whose values come out in key insertion order. */
  method AggregateTrades(trades: seq<Trade>) returns (result: seq<Order>)
    requires PositiveVolumes(trades)
    ensures result == Aggregated(trades)
  {
    var orders: map<string, Order> := map[];
    var ids: seq<string> := [];
    var i := 0;
    while i < |trades|
      invariant 0 <= i <= |trades|
      invariant PositiveVolumes(trades[..i])
      invariant ids == OrderIds(trades[..i])
      invariant orders == Dictionary(trades[..i])
    {
      var t := trades[i];
      assert trades[..i + 1][..i] == trades[..i];
      assert PositiveVolumes(trades[..i + 1]) by {
        assert forall u | u in trades[..i + 1] :: u in trades;
      }
      if t.ordertxid !in orders {
        orders := orders[t.ordertxid := NewOrder(t)];
        ids := ids + [t.ordertxid];
      } else {
        orders := orders[t.ordertxid := AddTrade(orders[t.ordertxid], t)];
      }
      i := i + 1;
    }
    assert trades[..i] == trades;
    DictionaryValues(trades);
    result := ValuesInOrder(orders, ids);
  }

  // ----- what the source promises about each aggregate -----

  lemma {:induction false} MaxPriceIsMax(ts: seq<Trade>)
    requires |ts| > 0
    ensures forall t | t in ts :: t.price <= MaxPrice(ts)
    ensures exists t :: t in ts && t.price == MaxPrice(ts)
  {
    assert ts[0] in ts;
    if |ts| > 1 {
      var init := ts[..|ts| - 1];
      MaxPriceIsMax(init);
      var last := ts[|ts| - 1];
      assert ts == init + [last];
      assert last in ts;
      if MaxPrice(ts) != last.price {
        var w :| w in init && w.price == MaxPrice(init);
        assert w in ts;
      }
    }
  }

  lemma {:induction false} MinPriceIsMin(ts: seq<Trade>)
    requires |ts| > 0
    ensures forall t | t in ts :: MinPrice(ts) <= t.price
    ensures exists t :: t in ts && t.price == MinPrice(ts)
  {
    assert ts[0] in ts;
    if |ts| > 1 {
      var init := ts[..|ts| - 1];
      MinPriceIsMin(init);
      var last := ts[|ts| - 1];
      assert ts == init + [last];
      assert last in ts;
      if MinPrice(ts) != last.price {
        var w :| w in init && w.price == MinPrice(init);
        assert w in ts;
      }
    }
  }

  lemma ExtendUpperBound(weighted: real, total: real, price: real, vol: real, bound: real)
    requires weighted <= bound * total && price <= bound && vol > 0.0
    ensures weighted + price * vol <= bound * (total + vol)
  {
    assert price * vol <= bound * vol;
  }

  lemma ExtendLowerBound(weighted: real, total: real, price: real, vol: real, bound: real)
    requires bound * total <= weighted && bound <= price && vol > 0.0
    ensures bound * (total + vol) <= weighted + price * vol
  {
    assert bound * vol <= price * vol;
  }

  lemma QuotientBounds(x: real, y: real, lo: real, hi: real)
    requires y > 0.0 && lo * y <= x <= hi * y
    ensures lo <= x / y <= hi
  {
    assert (lo * y) / y == lo && (hi * y) / y == hi;
  }

  lemma SumsStep(ts: seq<Trade>, t: Trade)
    ensures SumVol(ts + [t]) == SumVol(ts) + t.vol
    ensures SumPriceVol(ts + [t]) == SumPriceVol(ts) + t.price * t.vol
  {
    assert (ts + [t])[..|ts|] == ts;
  }

  lemma WeightedSumBelowStep(init: seq<Trade>, t: Trade, bound: real)
    requires SumPriceVol(init) <= bound * SumVol(init) && t.price <= bound && t.vol > 0.0
    ensures SumPriceVol(init + [t]) <= bound * SumVol(init + [t])
  {
    SumsStep(init, t);
    ExtendUpperBound(SumPriceVol(init), SumVol(init), t.price, t.vol, bound);
  }

  lemma WeightedSumAboveStep(init: seq<Trade>, t: Trade, bound: real)
    requires bound * SumVol(init) <= SumPriceVol(init) && bound <= t.price && t.vol > 0.0
    ensures bound * SumVol(init + [t]) <= SumPriceVol(init + [t])
  {
    SumsStep(init, t);
    ExtendLowerBound(SumPriceVol(init), SumVol(init), t.price, t.vol, bound);
  }

  /** Σ price·vol is bounded by any upper price bound times Σ vol. */
  lemma {:induction false} WeightedSumBelow(ts: seq<Trade>, bound: real)
    requires PositiveVolumes(ts)
    requires forall t | t in ts :: t.price <= bound
    ensures SumPriceVol(ts) <= bound * SumVol(ts)
  {
    if ts != [] {
      var init, t := ts[..|ts| - 1], ts[|ts| - 1];
      assert ts == init + [t];
      PrefixPositive(init, t);
      assert forall u | u in init :: u in ts;
      WeightedSumBelow(init, bound);
      assert t in ts;
      WeightedSumBelowStep(init, t, bound);
    }
  }

  /** Σ price·vol is at least any lower price bound times Σ vol. */
  lemma {:induction false} WeightedSumAbove(ts: seq<Trade>, bound: real)
    requires PositiveVolumes(ts)
    requires forall t | t in ts :: bound <= t.price
    ensures bound * SumVol(ts) <= SumPriceVol(ts)
  {
    if ts != [] {
      var init, t := ts[..|ts| - 1], ts[|ts| - 1];
      assert ts == init + [t];
      PrefixPositive(init, t);
      assert forall u | u in init :: u in ts;
      WeightedSumAbove(init, bound);
      assert t in ts;
      WeightedSumAboveStep(init, t, bound);
    }
  }

  /** The weighted mean lies within any bounds on the prices. */
  lemma MeanWithinBounds(ts: seq<Trade>, lo: real, hi: real)
    requires |ts| > 0 && PositiveVolumes(ts)
    requires forall t | t in ts :: lo <= t.price <= hi
    ensures SumVol(ts) > 0.0
    ensures lo <= MeanPrice(ts) <= hi
  {
    SumVolPositive(ts);
    WeightedSumBelow(ts, hi);
    WeightedSumAbove(ts, lo);
    MeanFromWeightedBounds(ts, lo, hi);
  }

  lemma MeanFromWeightedBounds(ts: seq<Trade>, lo: real, hi: real)
    requires SumVol(ts) > 0.0
    requires lo * SumVol(ts) <= SumPriceVol(ts) <= hi * SumVol(ts)
    ensures lo <= MeanPrice(ts) <= hi
  {
    QuotientBounds(SumPriceVol(ts), SumVol(ts), lo, hi);
  }

  /** With positive volumes the weighted mean lies between the extreme prices. */
  lemma MeanBetweenExtremes(ts: seq<Trade>)
    requires |ts| > 0 && PositiveVolumes(ts)
    ensures SumVol(ts) > 0.0
    ensures MinPrice(ts) <= MeanPrice(ts) <= MaxPrice(ts)
  {
    MaxPriceIsMax(ts);
    MinPriceIsMin(ts);
    MeanWithinBounds(ts, MinPrice(ts), MaxPrice(ts));
  }

  /** `ts` with the element at index `k` removed. */
  function Without(ts: seq<Trade>, k: int): seq<Trade>
    requires 0 <= k < |ts|
  {
    ts[..k] + ts[k + 1..]
  }

  /** Taking out any one trade lowers the sums by that trade alone. */
  lemma {:induction false} RemoveAtSums(ts: seq<Trade>, k: int)
    requires 0 <= k < |ts|
    ensures SumVol(ts) == SumVol(Without(ts, k)) + ts[k].vol
    ensures SumPriceVol(ts) == SumPriceVol(Without(ts, k)) + Weight(ts[k])
    decreases |ts|
  {
    if k == |ts| - 1 {
      assert Without(ts, k) == ts[..|ts| - 1];
    } else {
      RemoveAtSums(ts[..|ts| - 1], k);
      RemoveInnerSums(ts, k);
    }
  }

  /** The inductive step of `RemoveAtSums`, for a trade before the last. */
  lemma RemoveInnerSums(ts: seq<Trade>, k: int)
    requires 0 <= k < |ts| - 1
    requires SumVol(ts[..|ts| - 1]) == SumVol(Without(ts[..|ts| - 1], k)) + ts[k].vol
    requires SumPriceVol(ts[..|ts| - 1]) ==
      SumPriceVol(Without(ts[..|ts| - 1], k)) + Weight(ts[k])
    ensures SumVol(ts) == SumVol(Without(ts, k)) + ts[k].vol
    ensures SumPriceVol(ts) == SumPriceVol(Without(ts, k)) + Weight(ts[k])
  {
    var init, last := ts[..|ts| - 1], ts[|ts| - 1];
    var rest := Without(init, k);
    WithoutLast(ts, k);
    SumsStep(rest, last);
    SumsSwap(SumVol(ts), SumVol(init), SumVol(rest), SumVol(rest + [last]), ts[k].vol, last.vol);
    SumsSwap(SumPriceVol(ts), SumPriceVol(init), SumPriceVol(rest), SumPriceVol(rest + [last]),
      Weight(ts[k]), Weight(last));
  }

  /** Removing a trade before the last commutes with splitting off the last. */
  lemma WithoutLast(ts: seq<Trade>, k: int)
    requires 0 <= k < |ts| - 1
    ensures Without(ts, k) == Without(ts[..|ts| - 1], k) + [ts[|ts| - 1]]
  {
  }

  /** The linear step of `RemoveAtSums`, kept apart from the products. */
  lemma SumsSwap(whole: real, init: real, rest: real, restLast: real, w: real, last: real)
    requires whole == init + last && init == rest + w && restLast == rest + last
    ensures whole == restLast + w
  {
  }

  /** Widening in either order gives the same bound. */
  lemma SwapBounds(m: real, p: real, q: real)
    ensures Max(Max(m, p), q) == Max(Max(m, q), p)
    ensures Min(Min(m, p), q) == Min(Min(m, q), p)
  {
  }

  /** The extremes are those of the rest widened by the removed price. */
  lemma {:induction false} RemoveAtExtremes(ts: seq<Trade>, k: int)
    requires 0 <= k < |ts| && |ts| > 1
    ensures MaxPrice(ts) == Max(MaxPrice(Without(ts, k)), ts[k].price)
    ensures MinPrice(ts) == Min(MinPrice(Without(ts, k)), ts[k].price)
    decreases |ts|
  {
    var init, last := ts[..|ts| - 1], ts[|ts| - 1];
    if k == |ts| - 1 {
      assert Without(ts, k) == init;
    } else if |init| == 1 {
      assert Without(ts, k) == [last];
      assert init[0] == ts[k];
    } else {
      RemoveAtExtremes(init, k);
      assert init[k] == ts[k];
      var rest := Without(init, k);
      assert Without(ts, k) == rest + [last];
      ExtremesStep(rest, last);
      SwapBounds(MaxPrice(rest), ts[k].price, last.price);
      SwapBounds(MinPrice(rest), ts[k].price, last.price);
    }
  }

  /** The sums and extremes depend only on the multiset of trades. */
  lemma {:induction false} SumsPermutation(a: seq<Trade>, b: seq<Trade>)
    requires multiset(a) == multiset(b)
    ensures SumVol(a) == SumVol(b) && SumPriceVol(a) == SumPriceVol(b)
    ensures |a| > 0 ==> |b| > 0 && MaxPrice(a) == MaxPrice(b) && MinPrice(a) == MinPrice(b)
    decreases |a|
  {
    if a == [] {
      assert |b| == |multiset(b)| == 0;
    } else {
      var init, x := a[..|a| - 1], a[|a| - 1];
      var k := PickIndex(a, b);
      SumsPermutation(init, Without(b, k));
      RemoveAtSums(b, k);
      if |a| == 1 {
        assert |b| == |multiset(b)| == 1;
        assert b[0] == x;
      } else {
        RemoveAtExtremes(b, k);
      }
    }
  }

  /** The last trade of `a` sits somewhere in its permutation `b`, and the
      rests are permutations of each other. */
  lemma PickIndex(a: seq<Trade>, b: seq<Trade>) returns (k: int)
    requires |a| > 0 && multiset(a) == multiset(b)
    ensures 0 <= k < |b| && b[k] == a[|a| - 1]
    ensures multiset(a[..|a| - 1]) == multiset(Without(b, k))
  {
    var init, x := a[..|a| - 1], a[|a| - 1];
    assert a == init + [x];
    assert x in multiset(b);
    k :| 0 <= k < |b| && b[k] == x;
    assert b == b[..k] + [b[k]] + b[k + 1..];
    assert multiset(Without(b, k)) == multiset(b) - multiset{x};
  }

  /** Reordering the trades of one order leaves its volume, highest and
      lowest price and average price unchanged. */
  lemma SummaryPermutation(a: seq<Trade>, b: seq<Trade>)
    requires |a| > 0 && PositiveVolumes(a) && multiset(a) == multiset(b)
    ensures |b| > 0 && PositiveVolumes(b)
    ensures Summary(b).totalVol == Summary(a).totalVol
    ensures Summary(b).highestPrice == Summary(a).highestPrice
    ensures Summary(b).lowestPrice == Summary(a).lowestPrice
    ensures Summary(b).averagePrice == Summary(a).averagePrice
  {
    SumsPermutation(a, b);
    forall t | t in b ensures t.vol > 0.0 {
      assert t in multiset(a);
    }
  }

  lemma AggregatedAt(trades: seq<Trade>, i: int)
    requires PositiveVolumes(trades) && 0 <= i < |Aggregated(trades)|
    ensures |OrderIds(trades)| == |Aggregated(trades)|
    ensures |TradesOf(trades, OrderIds(trades)[i])| > 0
    ensures PositiveVolumes(TradesOf(trades, OrderIds(trades)[i]))
    ensures Aggregated(trades)[i] == Summary(TradesOf(trades, OrderIds(trades)[i]))
    ensures Aggregated(trades)[i].ordertxid == OrderIds(trades)[i]
  {
    var id := OrderIds(trades)[i];
    TradesOfLength(trades, id);
    TradesOfPositive(trades, id);
    var ts := TradesOf(trades, id);
    assert ts[0] in ts;
    TradesOfMembers(trades, id, ts[0]);
  }

  /** No two aggregates share an order id. */
  lemma AggregatedIdsDistinct(trades: seq<Trade>)
    requires PositiveVolumes(trades)
    ensures forall i, j | 0 <= i < j < |Aggregated(trades)| ::
      Aggregated(trades)[i].ordertxid != Aggregated(trades)[j].ordertxid
  {
    OrderIdsDistinct(trades);
    forall i, j | 0 <= i < j < |Aggregated(trades)|
      ensures Aggregated(trades)[i].ordertxid != Aggregated(trades)[j].ordertxid
    {
      AggregatedAt(trades, i);
      AggregatedAt(trades, j);
    }
  }

  /** Each aggregate's trades are exactly the input trades with its id, in
      input order, and its volume is their total. */
  lemma AggregatedTrades(trades: seq<Trade>, i: int)
    requires PositiveVolumes(trades) && 0 <= i < |Aggregated(trades)|
    ensures Aggregated(trades)[i].trades == TradesOf(trades, Aggregated(trades)[i].ordertxid)
    ensures Aggregated(trades)[i].totalVol == SumVol(Aggregated(trades)[i].trades)
  {
    AggregatedAt(trades, i);
  }

  /** Every input trade lands in the aggregate of its own id, and in no other. */
  lemma EveryTradeLands(trades: seq<Trade>, k: int)
    requires PositiveVolumes(trades) && 0 <= k < |trades|
    ensures exists i :: (0 <= i < |Aggregated(trades)| &&
      Aggregated(trades)[i].ordertxid == trades[k].ordertxid && trades[k] in Aggregated(trades)[i].trades)
    ensures forall i | 0 <= i < |Aggregated(trades)| && trades[k] in Aggregated(trades)[i].trades ::
      Aggregated(trades)[i].ordertxid == trades[k].ordertxid
  {
    var t := trades[k];
    OrderIdsComplete(trades, t.ordertxid);
    var ids := OrderIds(trades);
    var i :| 0 <= i < |ids| && ids[i] == t.ordertxid;
    AggregatedAt(trades, i);
    TradesOfMembers(trades, t.ordertxid, t);
    forall j | 0 <= j < |Aggregated(trades)| && t in Aggregated(trades)[j].trades
      ensures Aggregated(trades)[j].ordertxid == t.ordertxid
    {
      AggregatedAt(trades, j);
      TradesOfMembers(trades, ids[j], t);
    }
  }

  /** The extreme prices are the maximum and minimum of the constituent
      trade prices, the average price is the volume-weighted mean and lies
      between them. */
  lemma AggregatedPrices(trades: seq<Trade>, i: int)
    requires PositiveVolumes(trades) && 0 <= i < |Aggregated(trades)|
    ensures var o := Aggregated(trades)[i];
      && (forall t | t in o.trades :: o.lowestPrice <= t.price <= o.highestPrice)
      && (exists t :: t in o.trades && t.price == o.highestPrice)
      && (exists t :: t in o.trades && t.price == o.lowestPrice)
      && o.totalVol > 0.0
      && o.averagePrice == SumPriceVol(o.trades) / o.totalVol
      && o.lowestPrice <= o.averagePrice <= o.highestPrice
  {
    AggregatedAt(trades, i);
    var ts := TradesOf(trades, OrderIds(trades)[i]);
    MaxPriceIsMax(ts);
    MinPriceIsMin(ts);
    MeanBetweenExtremes(ts);
  }

  /** An aggregate's time, side, pair and exchange are those of the first
      input trade carrying its id; later trades never change them. */
  lemma AggregatedFirstTrade(trades: seq<Trade>, i: int)
    requires PositiveVolumes(trades) && 0 <= i < |Aggregated(trades)|
    ensures exists k :: (0 <= k < |trades| && FirstOfId(trades, k) &&
      var o, t := Aggregated(trades)[i], trades[k];
      && t.ordertxid == o.ordertxid && o.time == t.time && o.side == t.side
      && o.pair == t.pair && o.exchange == t.exchange)
  {
    AggregatedAt(trades, i);
    var id := OrderIds(trades)[i];
    var k := FirstTradeOf(trades, id);
  }

  /** Trade `k` is the first one carrying its order id. */
  ghost predicate FirstOfId(trades: seq<Trade>, k: int)
    requires 0 <= k < |trades|
  {
    forall j | 0 <= j < k :: trades[j].ordertxid != trades[k].ordertxid
  }

  /** The first trade of `TradesOf(trades, id)` is the first input trade
      carrying `id`. */
  lemma {:induction false} FirstTradeOf(trades: seq<Trade>, id: string) returns (k: int)
    requires |TradesOf(trades, id)| > 0
    ensures 0 <= k < |trades| && FirstOfId(trades, k)
    ensures trades[k].ordertxid == id && TradesOf(trades, id)[0] == trades[k]
  {
    var init := trades[..|trades| - 1];
    var t := trades[|trades| - 1];
    assert trades == init + [t];
    if |TradesOf(init, id)| > 0 {
      k := FirstTradeOf(init, id);
      assert trades[k] == init[k];
      assert forall j | 0 <= j < k :: trades[j] == init[j];
    } else {
      k := |trades| - 1;
      TradesOfLength(init, id);
      OrderIdsComplete(init, id);
      assert forall j | 0 <= j < k :: trades[j] == init[j];
    }
  }
}

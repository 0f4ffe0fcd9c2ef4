/**
  The records exchanged between the trade aggregator and the position matcher
  (`NormalizedTrade`, `AggregatedOrder` and `Position` of exchanges/Exchange.ts).

  Prices and volumes are exact reals: the source's `parseFloat`/`Number`
  conversions are taken as already applied, and `Date` copies of the
  timestamps are left out.
 */
module ExchangeTypes {

  /** One fill, as normalised from an exchange's report. The source's
      `type` field (a free string, "buy" or "sell" in practice) is `side`. */
  datatype Trade = Trade(
    id: string,
    ordertxid: string,
    pair: string,
    time: int,
    side: string,
    ordertype: string,
    price: real,
    cost: string,
    fee: string,
    vol: real,
    margin: string,
    leverage: string,
    misc: string,
    exchange: string)

  /** All fills of one order id, with their running summary. */
  datatype Order = Order(
    ordertxid: string,
    time: int,
    side: string,
    pair: string,
    totalVol: real,
    highestPrice: real,
    lowestPrice: real,
    averagePrice: real,
    exchange: string,
    trades: seq<Trade>)

  datatype PositionType = Long | Short

  /** A closed run of orders on one pair. */
  datatype Position = Position(
    time: int,
    positionType: PositionType,
    buyCost: real,
    sellCost: real,
    profitLoss: real,
    orders: seq<Order>,
    pair: string,
    price: real)

  /** The side string that the matcher books on the buy side; every other
      string is booked as a sell. */
  const BuySide: string := "buy"

  function Max(a: real, b: real): (r: real)
    ensures a <= r && b <= r && (r == a || r == b)
  {
    if a >= b then a else b
  }

  function Min(a: real, b: real): (r: real)
    ensures r <= a && r <= b && (r == a || r == b)
  {
    if a <= b then a else b
  }

  function Abs(x: real): (r: real)
    ensures r >= 0.0 && (r == x || r == -x)
  {
    if x < 0.0 then -x else x
  }
}

/** A trade: an immutable record of one execution between a buy order and a sell order. */
module Trades {
  import opened Wrappers
  import opened Numeric
  import opened Domain
  import opened Text
  import TradeConstraints

  /** The record's canonical constructor stores its arguments unchecked. */
  datatype Trade = Trade(buyOrderId: string, sellOrderId: string, price: i64, quantity: i64, timestamp: Instant)

  /** Present and not white space only. */
  predicate ValidId(id: Option<string>) {
    id.Some? && !IsBlank(id.value)
  }

  /**
   * The validating 4-argument constructor: buy id, sell id, price and quantity are checked
   * in that order, the first failure is thrown, and `now` (the clock) becomes the timestamp.
   */
  function NewTrade(buyOrderId: Option<string>, sellOrderId: Option<string>, price: i64, quantity: i64, now: Instant)
    : (r: Result<Trade, Error>)
    ensures !ValidId(buyOrderId) ==> r == Failure(TradeConstraints.IdError("Buy"))
    ensures ValidId(buyOrderId) && !ValidId(sellOrderId) ==> r == Failure(TradeConstraints.IdError("Sell"))
    ensures ValidId(buyOrderId) && ValidId(sellOrderId) && price <= 0 ==> r == Failure(TradeConstraints.PRICE_ERROR)
    ensures ValidId(buyOrderId) && ValidId(sellOrderId) && price > 0 && quantity <= 0
            ==> r == Failure(TradeConstraints.QUANTITY_ERROR)
    ensures r.Success? <==> ValidId(buyOrderId) && ValidId(sellOrderId) && price > 0 && quantity > 0
    ensures r.Success? ==> r.value == Trade(buyOrderId.value, sellOrderId.value, price, quantity, now)
  {
    var b :- TradeConstraints.RequireValidOrderId(buyOrderId, "Buy");
    var s :- TradeConstraints.RequireValidOrderId(sellOrderId, "Sell");
    var p :- TradeConstraints.RequireValidPrice(price);
    var q :- TradeConstraints.RequireValidQuantity(quantity);
    Success(Trade(b, s, p, q, now))
  }
}

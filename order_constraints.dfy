/** Guard-and-return validators for the values an order is created from. */
module OrderConstraints {
  import opened Wrappers
  import opened Numeric
  import opened Domain

  const SIDE_ERROR := IllegalArgument("Order side must be BUY or SELL")
  const PRICE_ERROR := IllegalArgument("Order price must be positive")
  const QUANTITY_ERROR := IllegalArgument("Order quantity must be positive")

  /** A null side is rejected; a present side is returned as it is. */
  function RequireValidSide(side: Option<OrderSide>): (r: Result<OrderSide, Error>)
    ensures r.Success? <==> side.Some?
    ensures r.Success? ==> Some(r.value) == side
    ensures r.Failure? ==> r.error == SIDE_ERROR
  {
    if side.None? then Failure(SIDE_ERROR) else Success(side.value)
  }

  /** A price that is not positive is rejected; a positive price is returned as it is. */
  function RequireValidPrice(price: i64): (r: Result<i64, Error>)
    ensures r.Success? <==> price > 0
    ensures r.Success? ==> r.value == price
    ensures r.Failure? ==> r.error == PRICE_ERROR
  {
    if price <= 0 then Failure(PRICE_ERROR) else Success(price)
  }

  /** A quantity that is not positive is rejected; a positive quantity is returned as it is. */
  function RequireValidQuantity(quantity: i64): (r: Result<i64, Error>)
    ensures r.Success? <==> quantity > 0
    ensures r.Success? ==> r.value == quantity
    ensures r.Failure? ==> r.error == QUANTITY_ERROR
  {
    if quantity <= 0 then Failure(QUANTITY_ERROR) else Success(quantity)
  }
}

/** Guard-and-return validators for the values a trade is created from. */
module TradeConstraints {
  import opened Wrappers
  import opened Numeric
  import opened Domain
  import opened Text

  const PRICE_ERROR := IllegalArgument("Trade price must be positive")
  const QUANTITY_ERROR := IllegalArgument("Trade quantity must be positive")

  /** The error for a missing order id in the given role ("Buy" or "Sell"). */
  function IdError(role: string): Error {
    IllegalArgument(role + " order id must be present")
  }

  /** An id is rejected exactly when it is null, empty or white space only; otherwise it is returned as it is. */
  function RequireValidOrderId(id: Option<string>, role: string): (r: Result<string, Error>)
    ensures r.Failure? <==> id.None? || |id.value| == 0 || forall i :: 0 <= i < |id.value| ==> IsWhitespace(id.value[i])
    ensures r.Success? ==> Some(r.value) == id && exists i :: 0 <= i < |r.value| && !IsWhitespace(r.value[i])
    ensures r.Failure? ==> r.error == IdError(role)
  {
    if id.None? || IsBlank(id.value) then Failure(IdError(role)) else Success(id.value)
  }

  /** A price that is not positive is rejected; a positive price is returned as it is. */
  function RequireValidPrice(price: i64): (r: Result<i64, Error>)
    ensures r.Success? <==> price > 0
    ensures r.Success? ==> r.value == price
    ensures r.Failure? ==> r.error == PRICE_ERROR
  {
    if price <= 0 then Failure(PRICE_ERROR) else Success(price)
  }

  /** A quantity that is not positive is rejected; a positive quantity is returned as it is. */
  function RequireValidQuantity(quantity: i64): (r: Result<i64, Error>)
    ensures r.Success? <==> quantity > 0
    ensures r.Success? ==> r.value == quantity
    ensures r.Failure? ==> r.error == QUANTITY_ERROR
  {
    if quantity <= 0 then Failure(QUANTITY_ERROR) else Success(quantity)
  }
}

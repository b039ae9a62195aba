/** An order: immutable identity, side, limit price and creation instant; mutable fill state. */
module Orders {
  import opened Wrappers
  import opened Numeric
  import opened Domain
  import OrderConstraints

  function Min(a: i64, b: i64): (m: i64)
    ensures m <= a && m <= b && (m == a || m == b)
  {
    if a <= b then a else b
  }

  class Order {
    const id: string
    const side: OrderSide
    const price: i64
    const timestamp: Instant
    var remainingQty: i64
    var status: OrderStatus

    /** Nothing negative remains, and the order reads FILLED exactly when nothing remains. */
    ghost predicate Valid()
      reads this
    {
      0 <= remainingQty && (status == Filled <==> remainingQty == 0)
    }

    /**
     * Field initialisation. The id (a random UUID) and the creation instant (the clock)
     * are taken as parameters; validation is done by `NewOrder`.
     */
    constructor(id: string, side: OrderSide, price: i64, quantity: i64, timestamp: Instant)
      ensures this.id == id && this.side == side && this.price == price && this.timestamp == timestamp
      ensures remainingQty == quantity && status == New
      ensures quantity > 0 ==> Valid()
    {
      this.id := id;
      this.side := side;
      this.price := price;
      this.timestamp := timestamp;
      remainingQty := quantity;
      status := New;
    }

    /** Crossing test: a BUY accepts any price up to its limit, a SELL any price from its limit up. */
    function CanMatch(opposingPrice: i64): (r: bool)
      ensures side == Buy ==> (r <==> opposingPrice <= price)
      ensures side == Sell ==> (r <==> opposingPrice >= price)
    {
      if side == Buy then opposingPrice <= price else opposingPrice >= price
    }

    /** Still matchable: NEW or PARTIALLY_FILLED. For a valid order that was never cancelled, exactly when something remains. */
    function IsActive(): (r: bool)
      reads this
      ensures r <==> status == New || status == PartiallyFilled
      ensures Valid() && status != Cancelled ==> (r <==> remainingQty > 0)
    {
      status == New || status == PartiallyFilled
    }

    /**
     * Fills min(requested, remaining) and records whether the order is now FILLED or
     * PARTIALLY_FILLED. The requested quantity must be positive (the source does not check it).
     */
    method Execute(requestedQty: i64) returns (filled: i64)
      requires Valid() && requestedQty > 0
      modifies this
      ensures Valid()
      ensures filled == Min(requestedQty, old(remainingQty))
      ensures remainingQty == old(remainingQty) - filled
      ensures 0 <= remainingQty <= old(remainingQty)
      ensures status == (if remainingQty == 0 then Filled else PartiallyFilled)
      ensures !IsActive() <==> remainingQty == 0
      ensures old(remainingQty) > 0 ==> filled > 0
      ensures old(status) == Filled ==> filled == 0 && remainingQty == 0 && status == Filled
    {
      filled := Min(requestedQty, remainingQty);
      remainingQty := remainingQty - filled;
      if remainingQty == 0 {
        status := Filled;
      } else {
        status := PartiallyFilled;
      }
    }
  }

  /** If an order accepts an opposing price, it accepts every price at least as good for it. */
  lemma CanMatchBetterPrice(o: Order, p: i64, q: i64)
    requires o.CanMatch(p)
    requires if o.side == Buy then q <= p else q >= p
    ensures o.CanMatch(q)
  {
  }

  /**
   * `new Order(side, price, quantity)`: side, price and quantity are checked in that order
   * and the first failure is thrown; otherwise a NEW order whose remaining quantity is the quantity.
   */
  method NewOrder(id: string, side: Option<OrderSide>, price: i64, quantity: i64, now: Instant)
    returns (r: Result<Order, Error>)
    ensures side.None? ==> r == Failure(OrderConstraints.SIDE_ERROR)
    ensures side.Some? && price <= 0 ==> r == Failure(OrderConstraints.PRICE_ERROR)
    ensures side.Some? && price > 0 && quantity <= 0 ==> r == Failure(OrderConstraints.QUANTITY_ERROR)
    ensures r.Success? <==> side.Some? && price > 0 && quantity > 0
    ensures r.Success? ==> fresh(r.value) && r.value.Valid()
    ensures r.Success? ==> r.value.id == id && Some(r.value.side) == side && r.value.price == price
    ensures r.Success? ==> r.value.timestamp == now && r.value.remainingQty == quantity && r.value.status == New
  {
    var s :- OrderConstraints.RequireValidSide(side);
    var p :- OrderConstraints.RequireValidPrice(price);
    var q :- OrderConstraints.RequireValidQuantity(quantity);
    var o := new Order(id, s, p, q, now);
    return Success(o);
  }
}

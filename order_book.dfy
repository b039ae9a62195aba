/** The two-sided book: a buy side (highest price first) and a sell side (lowest price first). */
module OrderBooks {
  import opened Wrappers
  import opened Numeric
  import opened Domain
  import opened Orders
  import opened OrderBookSides

  /** Every order resting on these levels has the given side. */
  ghost predicate AllOfSide(levels: seq<Level>, side: OrderSide) {
    forall i, k :: 0 <= i < |levels| && 0 <= k < |levels[i].orders| ==> levels[i].orders[k].side == side
  }

  class OrderBook {
    const buySide: OrderBookSide
    const sellSide: OrderBookSide

    ghost predicate Valid()
      reads this, buySide, sellSide
    {
      && buySide != sellSide
      && buySide.ordering == Descending && sellSide.ordering == Ascending
      && buySide.Valid() && sellSide.Valid()
      && AllOfSide(buySide.levels, Buy) && AllOfSide(sellSide.levels, Sell)
    }

    /** An empty book. */
    constructor()
      ensures Valid() && fresh(buySide) && fresh(sellSide)
      ensures buySide.levels == [] && sellSide.levels == []
    {
      buySide := new OrderBookSide.Buy();
      sellSide := new OrderBookSide.Sell();
    }

    /** A BUY order goes to the buy side, any other order to the sell side; the other side is untouched. */
    method Add(order: Order)
      requires Valid()
      modifies buySide, sellSide
      ensures Valid()
      ensures order.side == Buy ==> buySide.levels == Insert(Descending, old(buySide.levels), order) && unchanged(sellSide)
      ensures order.side == Sell ==> sellSide.levels == Insert(Ascending, old(sellSide.levels), order) && unchanged(buySide)
    {
      if order.side == Buy {
        buySide.Add(order);
        assert AllOfSide(buySide.levels, Buy) by {
          forall i, k | 0 <= i < |buySide.levels| && 0 <= k < |buySide.levels[i].orders|
            ensures buySide.levels[i].orders[k].side == Buy
          {
            SideOfInserted(Descending, old(buySide.levels), order, Buy, i, k);
          }
        }
      } else {
        sellSide.Add(order);
        assert AllOfSide(sellSide.levels, Sell) by {
          forall i, k | 0 <= i < |sellSide.levels| && 0 <= k < |sellSide.levels[i].orders|
            ensures sellSide.levels[i].orders[k].side == Sell
          {
            SideOfInserted(Ascending, old(sellSide.levels), order, Sell, i, k);
          }
        }
      }
    }

    /** Neither side holds an order. */
    function IsEmpty(): (r: bool)
      requires Valid()
      reads this, buySide, sellSide
      ensures r <==> buySide.IsEmpty() && sellSide.IsEmpty()
      ensures r ==> forall p :: OrdersAt(buySide.levels, p) == [] && OrdersAt(sellSide.levels, p) == []
    {
      buySide.IsEmpty() && sellSide.IsEmpty()
    }

    /** At least one BUY and one SELL order rest. */
    function HasBothSides(): (r: bool)
      requires Valid()
      reads this, buySide, sellSide
      ensures r <==> (exists p :: OrdersAt(buySide.levels, p) != []) && (exists q :: OrdersAt(sellSide.levels, q) != [])
      ensures r <==> BestBid().Success? && BestAsk().Success?
    {
      if buySide.IsEmpty() || sellSide.IsEmpty() then false
      else
        SomePriceRests(buySide.ordering, buySide.levels);
        SomePriceRests(sellSide.ordering, sellSide.levels);
        true
    }

    /** The highest resting BUY price; IllegalStateException when there is none. */
    function BestBid(): (r: Result<i64, Error>)
      requires Valid()
      reads this, buySide, sellSide
      ensures r.Failure? <==> buySide.IsEmpty()
      ensures r.Failure? ==> r.error == IllegalState("No BUY orders in book")
      ensures r.Success? ==> OrdersAt(buySide.levels, r.value) != []
      ensures r.Success? ==> forall p :: OrdersAt(buySide.levels, p) != [] ==> p <= r.value
    {
      if buySide.IsEmpty() then Failure(IllegalState("No BUY orders in book")) else buySide.BestPrice()
    }

    /** The lowest resting SELL price; IllegalStateException when there is none. */
    function BestAsk(): (r: Result<i64, Error>)
      requires Valid()
      reads this, buySide, sellSide
      ensures r.Failure? <==> sellSide.IsEmpty()
      ensures r.Failure? ==> r.error == IllegalState("No SELL orders in book")
      ensures r.Success? ==> OrdersAt(sellSide.levels, r.value) != []
      ensures r.Success? ==> forall p :: OrdersAt(sellSide.levels, p) != [] ==> r.value <= p
    {
      if sellSide.IsEmpty() then Failure(IllegalState("No SELL orders in book")) else sellSide.BestPrice()
    }

    /**
     * `bestBid >= bestAsk` when both sides hold orders, else false: exactly when some
     * resting BUY price is at or above some resting SELL price.
     */
    function HasCrossingPrices(): (r: bool)
      requires Valid()
      reads this, buySide, sellSide
      ensures r <==> exists b, a :: OrdersAt(buySide.levels, b) != [] && OrdersAt(sellSide.levels, a) != [] && b >= a
    {
      if !HasBothSides() then false
      else
        var bid := BestBid().value;
        var ask := BestAsk().value;
        assert OrdersAt(buySide.levels, bid) != [] && OrdersAt(sellSide.levels, ask) != [];
        bid >= ask
    }
  }

  /** A non-empty side has some price at which orders rest. */
  lemma SomePriceRests(ord: PriceOrder, levels: seq<Level>)
    requires LevelsValid(ord, levels) && levels != []
    ensures exists p :: OrdersAt(levels, p) != []
  {
    OrdersAtLevel(ord, levels, levels[0].price);
  }

  /** Every order filed under some price on a one-sided list of levels is of that side. */
  lemma {:induction false} OrdersAtOfSide(levels: seq<Level>, p: i64, side: OrderSide)
    requires AllOfSide(levels, side)
    ensures forall m :: 0 <= m < |OrdersAt(levels, p)| ==> OrdersAt(levels, p)[m].side == side
  {
    if levels != [] && levels[0].price != p {
      assert AllOfSide(levels[1..], side) by {
        forall i, k | 0 <= i < |levels[1..]| && 0 <= k < |levels[1..][i].orders|
          ensures levels[1..][i].orders[k].side == side
        {
          assert levels[1..][i] == levels[i + 1];
        }
      }
      OrdersAtOfSide(levels[1..], p, side);
    }
  }

  /** An order on the levels after `Insert` is either the inserted one or was there before. */
  lemma SideOfInserted(ord: PriceOrder, levels: seq<Level>, o: Order, side: OrderSide, i: int, k: int)
    requires LevelsValid(ord, levels) && AllOfSide(levels, side) && o.side == side
    requires 0 <= i < |Insert(ord, levels, o)| && 0 <= k < |Insert(ord, levels, o)[i].orders|
    ensures Insert(ord, levels, o)[i].orders[k].side == side
  {
    var r := Insert(ord, levels, o);
    var p := r[i].price;
    OrdersAtLevel(ord, r, p);
    OrdersAtOfSide(levels, p, side);
    assert r[i].orders == OrdersAt(r, p);
  }

  /**
   * The crossing test agrees with the order-level one: the book crosses exactly when the
   * oldest order at the best bid would accept the best ask.
   */
  lemma CrossingIsBestBidMatchingBestAsk(book: OrderBook)
    requires book.Valid() && book.HasBothSides()
    ensures book.buySide.PeekBestOrder().Success? && book.BestAsk().Success?
    ensures book.HasCrossingPrices() <==> book.buySide.PeekBestOrder().value.CanMatch(book.BestAsk().value)
  {
    var head := book.buySide.PeekBestOrder().value;
    var bid := book.BestBid().value;
    OrdersAtLevel(Descending, book.buySide.levels, bid);
    var j :| 0 <= j < |book.buySide.levels| && book.buySide.levels[j].price == bid;
    assert head == book.buySide.levels[j].orders[0];
    assert head.side == Buy && head.price == bid;
  }
}

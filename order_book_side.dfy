/**
 * One side of the book: price levels kept in comparator order (a TreeMap from price to
 * a FIFO deque of orders). The buy side orders prices descending, the sell side ascending.
 */
module OrderBookSides {
  import opened Wrappers
  import opened Numeric
  import opened Domain
  import opened Orders

  /** The comparator: natural order for the sell side, reverse order for the buy side. */
  datatype PriceOrder = Ascending | Descending

  /** `a` sorts strictly before `b` under the comparator. */
  predicate Precedes(ord: PriceOrder, a: i64, b: i64) {
    if ord == Ascending then a < b else a > b
  }

  /** One map entry: a price and the deque of orders resting at it, oldest first. */
  datatype Level = Level(price: i64, orders: seq<Order>)

  /**
   * Price priority (keys strictly in comparator order), no empty level stored,
   * and every order rests at the level of its own limit price.
   */
  ghost predicate LevelsValid(ord: PriceOrder, levels: seq<Level>) {
    && (forall i, j :: 0 <= i < j < |levels| ==> Precedes(ord, levels[i].price, levels[j].price))
    && (forall i :: 0 <= i < |levels| ==> levels[i].orders != [])
    && (forall i, k :: 0 <= i < |levels| && 0 <= k < |levels[i].orders| ==> levels[i].orders[k].price == levels[i].price)
  }

  /** The map's key set. */
  ghost function Prices(levels: seq<Level>): set<i64> {
    set i | 0 <= i < |levels| :: levels[i].price
  }

  lemma PricesCons(l: Level, rest: seq<Level>)
    ensures Prices([l] + rest) == {l.price} + Prices(rest)
  {
    var s := [l] + rest;
    assert s[0].price == l.price;
    forall x | x in Prices(s) ensures x in {l.price} + Prices(rest) {
      var i :| 0 <= i < |s| && s[i].price == x;
      if i > 0 {
        assert rest[i - 1].price == x;
      }
    }
    forall x | x in Prices(rest) ensures x in Prices(s) {
      var i :| 0 <= i < |rest| && rest[i].price == x;
      assert s[i + 1].price == x;
    }
  }

  /** The deque stored under `price`, or the empty sequence when the map has no such key. */
  function OrdersAt(levels: seq<Level>, price: i64): seq<Order> {
    if levels == [] then []
    else if levels[0].price == price then levels[0].orders
    else OrdersAt(levels[1..], price)
  }

  /** In a valid side, the deque under a stored key is that level's orders, and absent keys give nothing. */
  lemma {:induction false} OrdersAtLevel(ord: PriceOrder, levels: seq<Level>, price: i64)
    requires LevelsValid(ord, levels)
    ensures price !in Prices(levels) ==> OrdersAt(levels, price) == []
    ensures forall i :: 0 <= i < |levels| && levels[i].price == price ==> OrdersAt(levels, price) == levels[i].orders
    ensures OrdersAt(levels, price) != [] <==> price in Prices(levels)
  {
    if levels != [] {
      assert LevelsValid(ord, levels[1..]);
      PricesCons(levels[0], levels[1..]);
      assert [levels[0]] + levels[1..] == levels;
      OrdersAtLevel(ord, levels[1..], price);
      forall i | 0 <= i < |levels| && levels[i].price == price
        ensures OrdersAt(levels, price) == levels[i].orders
      {
        if i > 0 {
          assert levels[1..][i - 1] == levels[i];
        }
      }
    }
  }

  /** What adding `o` to a valid side must leave: a valid side holding `o` last at its price, all else equal. */
  ghost predicate Inserted(ord: PriceOrder, levels: seq<Level>, o: Order, r: seq<Level>) {
    && LevelsValid(ord, r)
    && Prices(r) == Prices(levels) + {o.price}
    && OrdersAt(r, o.price) == OrdersAt(levels, o.price) + [o]
    && forall p :: p != o.price ==> OrdersAt(r, p) == OrdersAt(levels, p)
  }

  lemma OrdersAtCons(l: Level, rest: seq<Level>, p: i64)
    ensures OrdersAt([l] + rest, p) == if l.price == p then l.orders else OrdersAt(rest, p)
  {
    assert ([l] + rest)[1..] == rest;
  }

  /** The price already has a level: the order joins the tail of that level. */
  lemma InsertAtHead(ord: PriceOrder, levels: seq<Level>, o: Order)
    requires LevelsValid(ord, levels) && levels != [] && levels[0].price == o.price
    ensures Inserted(ord, levels, o, [Level(o.price, levels[0].orders + [o])] + levels[1..])
  {
    var r := [Level(o.price, levels[0].orders + [o])] + levels[1..];
    PricesCons(levels[0], levels[1..]);
    PricesCons(r[0], levels[1..]);
    assert [levels[0]] + levels[1..] == levels;
    forall p ensures OrdersAt(r, p) == if p == o.price then OrdersAt(levels, p) + [o] else OrdersAt(levels, p) {
      OrdersAtCons(r[0], levels[1..], p);
      OrdersAtCons(levels[0], levels[1..], p);
    }
  }

  /** The price sorts before every stored price: a new level goes in front. */
  lemma InsertInFront(ord: PriceOrder, levels: seq<Level>, o: Order)
    requires LevelsValid(ord, levels)
    requires levels == [] || Precedes(ord, o.price, levels[0].price)
    ensures Inserted(ord, levels, o, [Level(o.price, [o])] + levels)
  {
    var r := [Level(o.price, [o])] + levels;
    forall i | 0 <= i < |levels| ensures Precedes(ord, o.price, levels[i].price) {
      if i > 0 {
        assert Precedes(ord, levels[0].price, levels[i].price);
      }
    }
    OrdersAtLevel(ord, levels, o.price);
    PricesCons(r[0], levels);
    forall p ensures OrdersAt(r, p) == if p == o.price then OrdersAt(levels, p) + [o] else OrdersAt(levels, p) {
      OrdersAtCons(r[0], levels, p);
    }
  }

  /** A valid level in front of valid levels it precedes gives valid levels. */
  lemma ConsValid(ord: PriceOrder, l: Level, rest: seq<Level>)
    requires LevelsValid(ord, rest) && LevelsValid(ord, [l])
    requires forall j :: 0 <= j < |rest| ==> Precedes(ord, l.price, rest[j].price)
    ensures LevelsValid(ord, [l] + rest)
  {
    var s := [l] + rest;
    assert forall j :: 0 < j < |s| ==> s[j] == rest[j - 1];
  }

  /** The head level still precedes every level of the rest after the insertion behind it. */
  lemma HeadPrecedesRest(ord: PriceOrder, levels: seq<Level>, o: Order, rest: seq<Level>)
    requires LevelsValid(ord, levels) && levels != []
    requires levels[0].price != o.price && !Precedes(ord, o.price, levels[0].price)
    requires Prices(rest) == Prices(levels[1..]) + {o.price}
    ensures forall j :: 0 <= j < |rest| ==> Precedes(ord, levels[0].price, rest[j].price)
  {
    forall j | 0 <= j < |rest| ensures Precedes(ord, levels[0].price, rest[j].price) {
      assert rest[j].price in Prices(rest);
      if rest[j].price != o.price {
        var k :| 0 <= k < |levels[1..]| && levels[1..][k].price == rest[j].price;
        assert levels[k + 1].price == rest[j].price;
      }
    }
  }

  /** The price sorts after the first level: the first level is kept and the order goes into the rest. */
  lemma InsertBehind(ord: PriceOrder, levels: seq<Level>, o: Order, rest: seq<Level>)
    requires LevelsValid(ord, levels) && levels != []
    requires levels[0].price != o.price && !Precedes(ord, o.price, levels[0].price)
    requires Inserted(ord, levels[1..], o, rest)
    ensures Inserted(ord, levels, o, [levels[0]] + rest)
  {
    var r := [levels[0]] + rest;
    PricesCons(levels[0], levels[1..]);
    PricesCons(levels[0], rest);
    assert [levels[0]] + levels[1..] == levels;
    HeadPrecedesRest(ord, levels, o, rest);
    assert LevelsValid(ord, [levels[0]]);
    ConsValid(ord, levels[0], rest);
    forall p ensures OrdersAt(r, p) == if p == o.price then OrdersAt(levels, p) + [o] else OrdersAt(levels, p) {
      OrdersAtCons(levels[0], rest, p);
      OrdersAtCons(levels[0], levels[1..], p);
    }
  }

  /**
   * `add`: the order goes to the tail of its price's deque, the level being created when
   * the price is new; every other level is unchanged and the side stays valid.
   */
  function Insert(ord: PriceOrder, levels: seq<Level>, o: Order): (r: seq<Level>)
    requires LevelsValid(ord, levels)
    ensures LevelsValid(ord, r)
    ensures Prices(r) == Prices(levels) + {o.price}
    ensures OrdersAt(r, o.price) == OrdersAt(levels, o.price) + [o]
    ensures forall p :: p != o.price ==> OrdersAt(r, p) == OrdersAt(levels, p)
    decreases |levels|
  {
    if levels == [] || Precedes(ord, o.price, levels[0].price) then
      InsertInFront(ord, levels, o);
      [Level(o.price, [o])] + levels
    else if levels[0].price == o.price then
      InsertAtHead(ord, levels, o);
      [Level(o.price, levels[0].orders + [o])] + levels[1..]
    else
      assert LevelsValid(ord, levels[1..]);
      var rest := Insert(ord, levels[1..], o);
      InsertBehind(ord, levels, o, rest);
      [levels[0]] + rest
  }

  /**
   * `pollFirst` on the best level's deque, and `pollFirstEntry` when that empties it:
   * the oldest order at the best price leaves; nothing else changes.
   */
  function PopBest(ord: PriceOrder, levels: seq<Level>): (r: seq<Level>)
    requires levels != [] && LevelsValid(ord, levels)
    ensures LevelsValid(ord, r)
    ensures Prices(r) == if |levels[0].orders| == 1 then Prices(levels) - {levels[0].price} else Prices(levels)
    ensures OrdersAt(r, levels[0].price) == levels[0].orders[1..]
    ensures forall p :: p != levels[0].price ==> OrdersAt(r, p) == OrdersAt(levels, p)
  {
    PopBestRest(ord, levels);
    if |levels[0].orders| == 1 then levels[1..]
    else
      var r := [Level(levels[0].price, levels[0].orders[1..])] + levels[1..];
      PricesCons(r[0], levels[1..]);
      r
  }

  /** What `PopBest` relies on about the levels behind the best one. */
  lemma PopBestRest(ord: PriceOrder, levels: seq<Level>)
    requires levels != [] && LevelsValid(ord, levels)
    ensures LevelsValid(ord, levels[1..])
    ensures OrdersAt(levels[1..], levels[0].price) == []
    ensures levels[0].price !in Prices(levels[1..])
    ensures Prices(levels) == {levels[0].price} + Prices(levels[1..])
    ensures forall p :: p != levels[0].price ==> OrdersAt(levels, p) == OrdersAt(levels[1..], p)
  {
    assert LevelsValid(ord, levels[1..]);
    OrdersAtLevel(ord, levels[1..], levels[0].price);
    forall k | 0 <= k < |levels[1..]| ensures levels[1..][k].price != levels[0].price {
      assert levels[1..][k] == levels[k + 1];
    }
    PricesCons(levels[0], levels[1..]);
    assert [levels[0]] + levels[1..] == levels;
  }

  /** Price priority: the first level's price comes before every other stored price. */
  lemma FirstIsBest(ord: PriceOrder, levels: seq<Level>, price: i64)
    requires LevelsValid(ord, levels)
    requires OrdersAt(levels, price) != []
    ensures levels != []
    ensures price == levels[0].price || Precedes(ord, levels[0].price, price)
  {
    OrdersAtLevel(ord, levels, price);
  }

  class OrderBookSide {
    const ordering: PriceOrder
    var levels: seq<Level>

    ghost predicate Valid()
      reads this
    {
      LevelsValid(ordering, levels)
    }

    /** `new BuyOrderBookSide()`: an empty side with prices in reverse (descending) order. */
    constructor Buy()
      ensures ordering == Descending && levels == [] && Valid()
    {
      ordering := Descending;
      levels := [];
    }

    /** `new SellOrderBookSide()`: an empty side with prices in natural (ascending) order. */
    constructor Sell()
      ensures ordering == Ascending && levels == [] && Valid()
    {
      ordering := Ascending;
      levels := [];
    }

    /** No price level is stored, which is the same as no order resting at any price. */
    function IsEmpty(): (r: bool)
      requires Valid()
      reads this
      ensures r <==> forall p :: OrdersAt(levels, p) == []
      ensures !r ==> levels != [] && OrdersAt(levels, levels[0].price) != []
    {
      if levels == [] then true
      else
        OrdersAtLevel(ordering, levels, levels[0].price);
        false
    }

    /** `firstKey()`: the price that sorts first; NoSuchElementException on an empty side. */
    function BestPrice(): (r: Result<i64, Error>)
      requires Valid()
      reads this
      ensures r.Failure? <==> IsEmpty()
      ensures r.Failure? ==> r.error == NoSuchElement
      ensures r.Success? ==> OrdersAt(levels, r.value) != []
      ensures r.Success? ==> forall p :: OrdersAt(levels, p) != [] ==> p == r.value || Precedes(ordering, r.value, p)
    {
      if levels == [] then Failure(NoSuchElement)
      else
        OrdersAtLevel(ordering, levels, levels[0].price);
        assert forall p :: OrdersAt(levels, p) != [] ==> p == levels[0].price || Precedes(ordering, levels[0].price, p) by {
          forall p | OrdersAt(levels, p) != [] ensures p == levels[0].price || Precedes(ordering, levels[0].price, p) {
            FirstIsBest(ordering, levels, p);
          }
        }
        Success(levels[0].price)
    }

    /** The oldest order at the best price; IllegalStateException on an empty side. Nothing changes. */
    function PeekBestOrder(): (r: Result<Order, Error>)
      requires Valid()
      reads this
      ensures r.Failure? <==> IsEmpty()
      ensures r.Failure? ==> r.error == IllegalState("Cannot peek order from empty book side")
      ensures r.Success? ==> BestPrice().Success? && r.value == OrdersAt(levels, BestPrice().value)[0]
    {
      if levels == [] then Failure(IllegalState("Cannot peek order from empty book side"))
      else
        OrdersAtLevel(ordering, levels, levels[0].price);
        Success(levels[0].orders[0])
    }

    /** Appends the order to the tail of its price's deque, creating the level if needed. */
    method Add(order: Order)
      requires Valid()
      modifies this
      ensures Valid()
      ensures levels == Insert(ordering, old(levels), order)
      ensures OrdersAt(levels, order.price) == OrdersAt(old(levels), order.price) + [order]
      ensures forall p :: p != order.price ==> OrdersAt(levels, p) == OrdersAt(old(levels), p)
    {
      levels := Insert(ordering, levels, order);
    }

    /**
     * Pops the oldest order at the best price if it is no longer active, dropping the level
     * when it empties; an empty side, or an active head, is left as it is.
     */
    method RemoveHeadIfInactive()
      requires Valid()
      modifies this
      ensures Valid()
      ensures old(levels) == [] ==> levels == []
      ensures old(levels) != [] && old(levels)[0].orders[0].IsActive() ==> levels == old(levels)
      ensures old(levels) != [] && !old(levels)[0].orders[0].IsActive() ==> levels == PopBest(ordering, old(levels))
    {
      if levels == [] {
        return;
      }
      var head := levels[0].orders[0];
      if !head.IsActive() {
        levels := PopBest(ordering, levels);
      }
    }
  }
}

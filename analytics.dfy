/**
 * The integer part of the analytics aggregation: trade count and volume, top
 * of book, and the number of open orders, all in Java `long` arithmetic.
 */
module Analytics {
  import opened Wrappers
  import opened Numeric
  import opened Domain
  import opened Trades

  const INT_MAX := 0x7fff_ffff

  /** A Java `int`. */
  type i32 = x: int | -0x8000_0000 <= x <= INT_MAX

  /** One price level as the book side reports it: price, total quantity, order count. */
  datatype LevelSnapshot = LevelSnapshot(price: i64, totalQuantity: i64, count: i32)

  /** The summary row, without the floating-point average trade price. */
  datatype AnalyticsSnapshot = AnalyticsSnapshot(
    timestamp: Instant,
    totalTrades: i64,
    totalVolume: i64,
    bestBid: Option<i64>,
    bestAsk: Option<i64>,
    openOrders: i64)

  /** The exact sum of the trades' quantities. */
  function TotalQuantity(trades: seq<Trade>): int {
    if trades == [] then 0 else TotalQuantity(trades[..|trades| - 1]) + trades[|trades| - 1].quantity as int
  }

  /** The exact sum of the levels' order counts. */
  function TotalCount(levels: seq<LevelSnapshot>): int {
    if levels == [] then 0 else TotalCount(levels[..|levels| - 1]) + levels[|levels| - 1].count as int
  }

  /** `List.size()`: the length, capped at `Integer.MAX_VALUE`. */
  function Size(n: nat): (r: i64)
    ensures r as int <= n && (n <= INT_MAX ==> r as int == n)
  {
    if n <= INT_MAX then n as i64 else INT_MAX as i64
  }

  /** The `for (Trade t : trades) totalVolume += t.quantity()` loop, in `long` arithmetic. */
  method SumVolume(trades: seq<Trade>) returns (total: i64)
    ensures total == Wrap64(TotalQuantity(trades))
  {
    total := 0;
    for i := 0 to |trades|
      invariant total == Wrap64(TotalQuantity(trades[..i]))
    {
      assert trades[..i + 1][..i] == trades[..i];
      WrapAdd(TotalQuantity(trades[..i]), trades[i].quantity as int);
      total := Wrap64(total as int + trades[i].quantity as int);
    }
    assert trades[..|trades|] == trades;
  }

  /** Adds every level's order count to the running `long` total `start`. */
  method AddCounts(start: i64, levels: seq<LevelSnapshot>) returns (total: i64)
    ensures total == Wrap64(start as int + TotalCount(levels))
  {
    total := start;
    for i := 0 to |levels|
      invariant total == Wrap64(start as int + TotalCount(levels[..i]))
    {
      assert levels[..i + 1][..i] == levels[..i];
      WrapAdd(start as int + TotalCount(levels[..i]), levels[i].count as int);
      total := Wrap64(total as int + levels[i].count as int);
    }
    assert levels[..|levels|] == levels;
  }

  /**
   * `compute`: the trade count and volume, the first bid and ask prices (absent
   * for an empty side) and the sum of all level counts; sums wrap like `long`s.
   */
  method Compute(bids: seq<LevelSnapshot>, asks: seq<LevelSnapshot>, trades: seq<Trade>, timestamp: Instant)
    returns (s: AnalyticsSnapshot)
    ensures s.timestamp == timestamp
    ensures s.totalTrades == Size(|trades|)
    ensures s.totalVolume == Wrap64(TotalQuantity(trades))
    ensures s.bestBid.None? <==> bids == []
    ensures bids != [] ==> s.bestBid == Some(bids[0].price)
    ensures s.bestAsk.None? <==> asks == []
    ensures asks != [] ==> s.bestAsk == Some(asks[0].price)
    ensures s.openOrders == Wrap64(TotalCount(bids) + TotalCount(asks))
  {
    var totalTrades := Size(|trades|);
    var totalVolume := SumVolume(trades);
    var bestBid := if bids == [] then None else Some(bids[0].price);
    var bestAsk := if asks == [] then None else Some(asks[0].price);
    var openOrders := AddCounts(0, bids);
    openOrders := AddCounts(openOrders, asks);
    WrapAdd(TotalCount(bids), TotalCount(asks));
    s := AnalyticsSnapshot(timestamp, totalTrades, totalVolume, bestBid, bestAsk, openOrders);
  }
}

# Trading engine core in Dafny

This project models the order-book and persistence core of a single-instrument
limit-order trading engine written in Java. It covers:

- **Orders and trades** (`Orders`, `OrderConstraints`, `Trades`, `TradeConstraints`).
  An order has an immutable id, side, limit price and creation instant. Its
  remaining quantity and status change as it executes. Trades are immutable
  records. The constraint classes are guard-and-return validators: each either
  returns its argument or throws `IllegalArgumentException` with a fixed message.
- **The per-price FIFO queue** (`OrdersQueues`). A `LinkedHashMap` from order id to
  order is modelled as a sequence of entries with pairwise distinct ids.
- **A book side** (`OrderBookSides`). A `TreeMap` from price to a deque of orders is
  modelled as a list of levels. The levels are strictly sorted by the side's
  comparator: descending for the buy side, ascending for the sell side. No level is
  empty, and every order rests at its own price. `OrdersAt(levels, p)` is the map view.
- **The two-sided book** (`OrderBooks`). It routes orders to their side and answers
  best bid, best ask and the crossing test.
- **The hash-chained command log**.
  - `CommandRecords` holds the record, the `key=value` hash payload, the lowercase hex
    encoding of a digest, and the chain check.
  - `CommandLogs` holds the log object over its file's lines.
  - Every record stores the previous record's hash (`"GENESIS"` for the first), and
    its own hash over `prevHash + "|" + payload`. The digest is SHA-256 (FIPS PUB
    180-4). It enters the model as a parameter `sha256: string -> Bytes32`, about
    which nothing is assumed. Where a proof needs the digest not to collide, the lemma
    says so in a `requires` clause.
- **The trade ledger** (`TradeStores`). It is a comma-separated line codec plus the
  append-only ledger file that `findAll` reads back, skipping blank lines.
- **The synchronous event dispatcher** (`Events`). Listener calls are recorded as a
  trace of (listener, event) pairs.
- **The integer part of the analytics aggregation** (`Analytics`).

Java `long` arithmetic is modelled explicitly: `i64` is a 64-bit newtype, and
`Wrap64` is two's-complement wrap-around. `Long.toString`/`Long.parseLong`,
`String.join`/`String.split(sep, -1)` and `String.isBlank` with
`Character.isWhitespace` are written out in `Numeric` and `Text`. Exceptions become
`Result`/`Outcome` values carrying the exception's message.

Among the results:

- The chain built by appends always verifies. Appending to a verifying log keeps it
  verifying, including across restarts.
- The chain check reports exactly the first broken record.
- Under the no-collision hypothesis, editing a hashed field, deleting a non-final
  record or swapping two records is detected.
- A trade read back from its own ledger line is the same trade exactly when its text
  fields hold no comma.
- `publish` calls each listener as many times as it is registered, exact-class
  listeners first.

In `verifyChainOrThrow` the number after "at line" counts records, not file lines:
blank lines are skipped before the records are numbered. The model follows the code.

## Model

| member | source | states |
|---|---|---|
| `OrderConstraints.RequireValidSide` | app/src/main/java/tradingengine/domain/OrderConstraints.java:12-17 | a null side fails with "Order side must be BUY or SELL"; a present side is returned unchanged |
| `OrderConstraints.RequireValidPrice` | app/src/main/java/tradingengine/domain/OrderConstraints.java:19-24 | fails exactly when price ≤ 0, with "Order price must be positive"; else returns the price unchanged |
| `OrderConstraints.RequireValidQuantity` | app/src/main/java/tradingengine/domain/OrderConstraints.java:26-31 | fails exactly when quantity ≤ 0, with "Order quantity must be positive"; else returns the quantity unchanged |
| `Orders.Order.constructor` | app/src/main/java/tradingengine/domain/Order.java:9-22 | the id, side, price and instant are stored as given; status NEW; remaining equals the quantity; a positive quantity gives a valid order |
| `Orders.NewOrder` | app/src/main/java/tradingengine/domain/Order.java:18-22 | side, price and quantity are checked in that order and the first failure's error is returned; succeeds exactly when all three are valid, giving a fresh valid NEW order whose remaining quantity is the quantity |
| `Orders.Order.CanMatch` | app/src/main/java/tradingengine/domain/Order.java:47-51 | a BUY accepts an opposing price ≤ its limit; a SELL accepts one ≥ its limit |
| `Orders.CanMatchBetterPrice` | app/src/main/java/tradingengine/domain/Order.java:47-51 | an order that accepts a price accepts every price at least as good for it |
| `Orders.Order.IsActive` | app/src/main/java/tradingengine/domain/Order.java:76-78 | holds iff the status is NEW or PARTIALLY_FILLED; for a valid order that is not cancelled, iff something remains |
| `Orders.Order.Execute` | app/src/main/java/tradingengine/domain/Order.java:58-71 | fills `min(requested, remaining)`; remaining drops by that amount and stays in `[0, old remaining]`; status is FILLED iff nothing remains, else PARTIALLY_FILLED; inactive afterwards iff fully filled; a FILLED order fills 0 and stays FILLED; validity is kept |
| `TradeConstraints.RequireValidOrderId` | app/src/main/java/tradingengine/domain/TradeConstraints.java:12-18 | fails iff the id is null, empty or white space only, with "<role> order id must be present"; otherwise returns the id unchanged |
| `TradeConstraints.RequireValidPrice` | app/src/main/java/tradingengine/domain/TradeConstraints.java:20-25 | fails exactly when price ≤ 0, with "Trade price must be positive"; else returns the price unchanged |
| `TradeConstraints.RequireValidQuantity` | app/src/main/java/tradingengine/domain/TradeConstraints.java:27-32 | fails exactly when quantity ≤ 0, with "Trade quantity must be positive"; else returns the quantity unchanged |
| `Trades.NewTrade` | app/src/main/java/tradingengine/domain/Trade.java:17-25 | checks buy id, sell id, price and quantity in that order, and the first failing check gives the error; succeeds iff all are valid, storing the values unchanged with the supplied instant |
| `OrdersQueues.Put` | app/src/main/java/tradingengine/book/OrdersQueue.java:24-27 | a new id is appended at the tail; an id already present keeps its position and only its order is replaced; ids stay distinct |
| `OrdersQueues.Remove` | app/src/main/java/tradingengine/book/OrdersQueue.java:56-59 | exactly the entry with that id goes and the rest keep their order; an absent id changes nothing; ids stay distinct |
| `OrdersQueues.OrdersQueue.constructor` | app/src/main/java/tradingengine/book/OrdersQueue.java:14 | a new queue is empty and valid |
| `OrdersQueues.OrdersQueue.IsEmpty` | app/src/main/java/tradingengine/book/OrdersQueue.java:17-19 | holds iff there are no entries |
| `OrdersQueues.OrdersQueue.Add` | app/src/main/java/tradingengine/book/OrdersQueue.java:24-27 | the entries become `Put(old entries, order)`; distinct ids are kept |
| `OrdersQueues.OrdersQueue.PeekOldest` | app/src/main/java/tradingengine/book/OrdersQueue.java:32-37 | absent iff the queue is empty, else the earliest-inserted entry; reads only |
| `OrdersQueues.OrdersQueue.RemoveOldest` | app/src/main/java/tradingengine/book/OrdersQueue.java:42-50 | on an empty queue returns null and changes nothing; else returns the head and leaves the tail |
| `OrdersQueues.OrdersQueue.RemoveById` | app/src/main/java/tradingengine/book/OrdersQueue.java:56-59 | the entries become `Remove(old entries, id)`; null iff no entry had the id, else the removed order with that id |
| `OrderBookSides.OrdersAtLevel` | app/src/main/java/tradingengine/book/OrderBookSide.java:35 | in a valid side, the deque stored under a key is that level's orders; a price with no level has none |
| `OrderBookSides.Insert` | app/src/main/java/tradingengine/book/OrderBookSide.java:87-98 | the order joins the tail of its price's deque, and a level is created if needed; every other price's deque is unchanged; the key set gains the price; the side stays valid |
| `OrderBookSides.PopBest` | app/src/main/java/tradingengine/book/OrderBookSide.java:115-120 | the oldest order at the best price leaves (FIFO); the level is dropped iff it held only that order; other prices are unchanged; the side stays valid |
| `OrderBookSides.FirstIsBest` | app/src/main/java/tradingengine/book/OrderBookSide.java:58-60 | the first level's price sorts before every other price that holds orders |
| `OrderBookSides.OrderBookSide.Buy` | app/src/main/java/tradingengine/book/BuyOrderBookSide.java:20-22 | an empty, valid side with descending (reverse-order) prices |
| `OrderBookSides.OrderBookSide.Sell` | app/src/main/java/tradingengine/book/SellOrderBookSide.java:20-22 | an empty, valid side with ascending (natural-order) prices |
| `OrderBookSides.OrderBookSide.IsEmpty` | app/src/main/java/tradingengine/book/OrderBookSide.java:50-52 | holds iff no order rests at any price |
| `OrderBookSides.OrderBookSide.BestPrice` | app/src/main/java/tradingengine/book/OrderBookSide.java:58-60 | fails with NoSuchElement iff the side is empty; else a price holding orders that sorts first among all such prices: the highest on the buy side, the lowest on the sell side |
| `OrderBookSides.OrderBookSide.PeekBestOrder` | app/src/main/java/tradingengine/book/OrderBookSide.java:68-76 | fails with "Cannot peek order from empty book side" iff the side is empty; else the oldest order at the best price; reads only |
| `OrderBookSides.OrderBookSide.Add` | app/src/main/java/tradingengine/book/OrderBookSide.java:87-98 | appends the order to its price's deque and leaves every other price's deque unchanged; validity (price priority, no empty level) is kept |
| `OrderBookSides.OrderBookSide.RemoveHeadIfInactive` | app/src/main/java/tradingengine/book/OrderBookSide.java:105-122 | no change on an empty side or when the head is active; else `PopBest`; validity is kept |
| `OrderBooks.OrderBook.constructor` | app/src/main/java/tradingengine/book/OrderBook.java:22-25 | two fresh empty sides, buy descending and sell ascending |
| `OrderBooks.OrderBook.Add` | app/src/main/java/tradingengine/book/OrderBook.java:33-39 | a BUY order is inserted on the buy side and a SELL order on the sell side, leaving the other side unchanged; each side holds only orders of its own side |
| `OrderBooks.SideOfInserted` | app/src/main/java/tradingengine/book/OrderBook.java:33-39 | inserting an order of a side into levels holding only that side keeps every order of that side |
| `OrderBooks.OrderBook.IsEmpty` | app/src/main/java/tradingengine/book/OrderBook.java:44-46 | holds iff both sides are empty, and then no price holds orders on either side |
| `OrderBooks.OrderBook.HasBothSides` | app/src/main/java/tradingengine/book/OrderBook.java:51-53 | holds iff some price on the BUY side and some price on the SELL side hold resting orders, that is iff both `bestBid` and `bestAsk` find a price |
| `OrderBooks.OrderBook.BestBid` | app/src/main/java/tradingengine/book/OrderBook.java:61-66 | fails with "No BUY orders in book" iff the buy side is empty; else the highest resting BUY price |
| `OrderBooks.OrderBook.BestAsk` | app/src/main/java/tradingengine/book/OrderBook.java:74-79 | fails with "No SELL orders in book" iff the sell side is empty; else the lowest resting SELL price |
| `OrderBooks.OrderBook.HasCrossingPrices` | app/src/main/java/tradingengine/book/OrderBook.java:92-97 | holds iff some resting BUY price is at or above some resting SELL price |
| `OrderBooks.CrossingIsBestBidMatchingBestAsk` | app/src/main/java/tradingengine/book/OrderBook.java:92-97 | the book crosses iff the oldest order at the best bid would accept the best ask |
| `CommandRecords.PayloadInjective` | app/src/main/java/tradingengine/persistence/CommandLog.java:186-200 | when no text field holds the bar separator, equal payloads mean equal hashed fields |
| `CommandRecords.PayloadCollision` | app/src/main/java/tradingengine/persistence/CommandLog.java:186-200 | moving a bar followed by `side=` and the text after it from orderId into side changes the record but not its payload, so both hash alike |
| `CommandRecords.HexRoundTrip` | app/src/main/java/tradingengine/persistence/CommandLog.java:173-177 | the two-digits-per-byte lowercase hex text decodes back to the bytes |
| `CommandRecords.HexOf` | app/src/main/java/tradingengine/persistence/CommandLog.java:173-177 | two lowercase hex digits per byte, nothing else |
| `CommandRecords.HashHex` | app/src/main/java/tradingengine/persistence/CommandLog.java:169-181 | `sha256Hex` gives 64 lowercase hex digits that decode back to the digest |
| `CommandRecords.HexInjective` | app/src/main/java/tradingengine/persistence/CommandLog.java:173-177 | different digests give different hex texts |
| `CommandRecords.HexShape` | app/src/main/java/tradingengine/persistence/CommandLog.java:173-177 | a hex text holds no bar separator and is never "GENESIS" |
| `CommandRecords.Sha256Hex` | app/src/main/java/tradingengine/persistence/CommandLog.java:169-181 | the loop's text is the hex of the digest, 64 characters long |
| `CommandRecords.Safe` | app/src/main/java/tradingengine/persistence/CommandLog.java:198-200 | a present string is kept; the result is empty exactly for null or the empty string, so the two hash alike |
| `CommandRecords.Payload` | app/src/main/java/tradingengine/persistence/CommandLog.java:186-196 | the payload holds at least the six separators, and splits back into the seven `key=value` pairs when no text field holds a bar |
| `CommandRecords.Seal` | app/src/main/java/tradingengine/persistence/CommandLog.java:103-107 | keeps the hashed fields, sets prevHash to the given value and hash to the hex digest of the previous hash, a bar and the payload |
| `CommandRecords.BreakFound` | app/src/main/java/tradingengine/persistence/CommandLog.java:153-164 | a record failing a check after linked records is reported as the first break, and the chain does not verify |
| `CommandRecords.CheckChain` | app/src/main/java/tradingengine/persistence/CommandLog.java:149-167 | passes iff every record is linked; otherwise reports the first failing record (1-based) and which check failed, the prevHash check taking precedence |
| `CommandRecords.AppendKeepsLinked` | app/src/main/java/tradingengine/persistence/CommandLog.java:103-107 | sealing a record after a verifying chain's last hash keeps the chain verifying |
| `CommandRecords.PrefixVerifies` | app/src/main/java/tradingengine/persistence/CommandLog.java:153-166 | every prefix of a verifying chain verifies, so dropping trailing records goes unnoticed by the check |
| `CommandRecords.ExpectedPrevShape` | app/src/main/java/tradingengine/persistence/CommandLog.java:156-165 | in a verifying chain every expected previous hash is free of the bar separator, and after the first record it is not "GENESIS" |
| `CommandRecords.SameHashSamePrev` | app/src/main/java/tradingengine/persistence/CommandLog.java:156-165 | in a collision-free verifying chain, two records with the same hash expect the same previous hash |
| `CommandRecords.HashesDistinct` | app/src/main/java/tradingengine/persistence/CommandLog.java:156-165 | in a collision-free verifying chain, no two records share a hash |
| `CommandRecords.ExpectedPrevDistinct` | app/src/main/java/tradingengine/persistence/CommandLog.java:156-165 | in a collision-free verifying chain, no two positions expect the same previous hash |
| `CommandRecords.EditDetected` | app/src/test/java/tradingengine/persistence/CommandLogRecoveryIntegrationTest.java:134-144 | editing a hashed field of a record while keeping its stored hashes breaks verification, unless the digest collides |
| `CommandRecords.DeleteDetected` | app/src/test/java/tradingengine/persistence/CommandLogRecoveryIntegrationTest.java:147-157 | deleting any record but the last breaks a collision-free verifying chain |
| `CommandRecords.SwapDetected` | app/src/test/java/tradingengine/persistence/CommandLogRecoveryIntegrationTest.java:160-171 | swapping two records breaks a collision-free verifying chain |
| `CommandLogs.Records` | app/src/main/java/tradingengine/persistence/CommandLog.java:126-147 | the file reads back iff no line is unparseable, with at most as many records as lines; `RecordsOfRecordLine`, `RecordsOfBlankLine` and `RecordsAppend` fix which records, in which order |
| `CommandLogs.RecordsOfRecordLine` | app/src/main/java/tradingengine/persistence/CommandLog.java:139-141 | a line holding a record reads back as exactly that record |
| `CommandLogs.RecordsOfBlankLine` | app/src/main/java/tradingengine/persistence/CommandLog.java:135-137 | a blank line is skipped: it reads back as no records |
| `CommandLogs.RecordsAppend` | app/src/main/java/tradingengine/persistence/CommandLog.java:132-143 | when both parts read back, the records of a file are those of its first part followed by those of its second, so records come in file order |
| `CommandLogs.PrevHashOfVerifying` | app/src/main/java/tradingengine/persistence/CommandLog.java:84-101 | on a file whose records verify, `append`'s backward scan picks the chain's expected next previous hash |
| `CommandLogs.PassedOn` | app/src/main/java/tradingengine/persistence/CommandLog.java:96-98 | the hash handed on is never blank: the record's own hash, or GENESIS when that is null or blank |
| `CommandLogs.PrevHashFor` | app/src/main/java/tradingengine/persistence/CommandLog.java:84-101 | GENESIS when every line is blank; no result exactly when the last non-blank line does not parse; never blank; on a file that reads back with records, what the last record passes on |
| `CommandLogs.AppendKeepsVerifying` | app/src/test/java/tradingengine/persistence/CommandLogRecoveryIntegrationTest.java:193-207 | appending to a file whose records verify adds exactly the sealed record, and the records still verify |
| `CommandLogs.Build` | app/src/main/java/tradingengine/persistence/CommandLog.java:80-124 | a file built only by appends has one record per command, record i holds command i's hashed fields, and the chain verifies |
| `CommandLogs.CommandLog.constructor` | app/src/main/java/tradingengine/persistence/CommandLog.java:57-59 | the log is bound to its path, digest and the file's current lines |
| `CommandLogs.CommandLog.Append` | app/src/main/java/tradingengine/persistence/CommandLog.java:80-124 | if the last non-blank line does not parse, fails with "Failed to append to command log: <path>" and changes nothing; else adds one line, the record sealed with the hash of the last non-blank record, or GENESIS |
| `CommandLogs.CommandLog.AppendOrder` | app/src/main/java/tradingengine/persistence/CommandLog.java:61-70 | appends an ORDER record holding orderId, side, price, quantity and timestamp |
| `CommandLogs.CommandLog.AppendCancel` | app/src/main/java/tradingengine/persistence/CommandLog.java:72-78 | appends a CANCEL record holding only cancelOrderId and timestamp, with price and quantity 0 |
| `CommandLogs.CommandLog.ReadAll` | app/src/main/java/tradingengine/persistence/CommandLog.java:126-147 | the records of the non-blank lines in file order; "Failed to read command log: <path>" when a line does not parse |
| `CommandLogs.CommandLog.VerifyChainOrThrow` | app/src/main/java/tradingengine/persistence/CommandLog.java:149-167 | a read failure is passed on; otherwise passes iff the records verify, and a failure names the first broken record |
| `Numeric.WrapAdd` | app/src/main/java/tradingengine/analytics/AnalyticsCalculator.java:45-65 | a `long` running sum that wraps at each step ends at the wrapped exact sum |
| `Numeric.ParseLongOfToString` | app/src/main/java/tradingengine/persistence/FileTradeStore.java:65-87 | `Long.parseLong(Long.toString(x)) == x` for every long |
| `Numeric.LongToString` | app/src/main/java/tradingengine/persistence/FileTradeStore.java:69-70 | at least one character, a leading minus exactly for negative values, digits elsewhere |
| `Numeric.ParseLong` | app/src/main/java/tradingengine/persistence/FileTradeStore.java:83-84 | accepts only an optional sign followed by digits; a minus gives a value at most 0, else at least 0; a digit run within range reads as its decimal value; a bare sign is rejected |
| `Numeric.LongToStringInjective` | app/src/main/java/tradingengine/persistence/CommandLog.java:191-192 | different longs have different decimal texts |
| `Text.SplitJoin` | app/src/main/java/tradingengine/persistence/FileTradeStore.java:65-87 | splitting a join recovers the pieces when none holds the separator |
| `Text.Split` | app/src/main/java/tradingengine/persistence/FileTradeStore.java:76 | `split(",", -1)`: at least one piece, none holding the separator |
| `Text.JoinSplit` | app/src/main/java/tradingengine/persistence/FileTradeStore.java:76 | joining the pieces of a split with the separator gives back the line |
| `Text.SplitLength` | app/src/main/java/tradingengine/persistence/FileTradeStore.java:76-79 | a text with k separators splits into k + 1 pieces, empty ones kept |
| `TradeStores.Deserialize` | app/src/main/java/tradingengine/persistence/FileTradeStore.java:75-87 | "Invalid trade record: <line>" iff the line does not have exactly 5 fields; else a NumberFormat error on the price, then on the quantity; else the trade with those fields |
| `TradeStores.SerializeNotBlank` | app/src/main/java/tradingengine/persistence/FileTradeStore.java:65-73 | a serialised trade is never blank, so `findAll` never skips it |
| `TradeStores.RoundTrip` | app/src/main/java/tradingengine/persistence/FileTradeStore.java:65-87 | a trade without commas in its text fields reads back as itself; one with a comma is rejected as an invalid record |
| `TradeStores.Serialize` | app/src/main/java/tradingengine/persistence/FileTradeStore.java:65-73 | the line holds at least the four separators, and splits back into the five fields when no text field holds a comma |
| `TradeStores.ParseLedger` | app/src/main/java/tradingengine/persistence/FileTradeStore.java:28-40 | succeeds iff every non-blank line deserializes; at most one trade per line; a failure is the error of the first non-blank line that does not deserialize; `ParseLedgerOne` and `ParseLedgerAppend` fix which trades, in which order |
| `TradeStores.ParseLedgerOne` | app/src/main/java/tradingengine/persistence/FileTradeStore.java:33-36 | a non-blank line that deserializes reads back as exactly its trade |
| `TradeStores.FileTradeStore.FindAll` | app/src/main/java/tradingengine/persistence/FileTradeStore.java:28-40 | the ledger read of the current lines, so the `ParseLedger` lemmas apply; an empty or missing file reads as no trades; succeeds iff every non-blank line deserializes |
| `TradeStores.ParseLedgerAppend` | app/src/main/java/tradingengine/persistence/FileTradeStore.java:28-40 | reading two concatenated ledgers: the first part's failure wins, else the second's, else the trades concatenate |
| `TradeStores.BlankLineIgnored` | app/src/main/java/tradingengine/persistence/FileTradeStore.java:34 | a blank line anywhere in the ledger does not change what is read |
| `TradeStores.FileTradeStore.constructor` | app/src/main/java/tradingengine/persistence/FileTradeStore.java:19-21 | the store is bound to its file and the file's current lines |
| `TradeStores.FileTradeStore.Save` | app/src/main/java/tradingengine/persistence/FileTradeStore.java:23-26 | appends exactly the trade's line; earlier lines are unchanged |
| `TradeStores.SaveThenFindAll` | app/src/main/java/tradingengine/persistence/FileTradeStore.java:23-40 | after saving a comma-free trade, `findAll` returns what it returned before followed by that trade |
| `Events.ClassOf` | app/src/main/java/tradingengine/events/EventDispatcher.java:45 | an event's class is always a concrete record class, never the wildcard |
| `Events.Calls` | app/src/main/java/tradingengine/events/EventDispatcher.java:47-49 | one call per listener with the event, in list order |
| `Events.CallsCount` | app/src/main/java/tradingengine/events/EventDispatcher.java:31-33 | a listener registered n times in a list is called n times |
| `Events.FanoutCount` | app/src/main/java/tradingengine/events/EventDispatcher.java:42-58 | per publish, a listener is called as often as it is registered under the event's class plus as a wildcard |
| `Events.ExactBeforeWildcard` | app/src/main/java/tradingengine/events/EventDispatcher.java:45-57 | the first calls are the exact-class listeners in order, followed by the wildcard listeners in order |
| `Events.Fanout` | app/src/main/java/tradingengine/events/EventDispatcher.java:42-58 | one call per exact-class registration plus one per wildcard registration, each carrying the published event |
| `Events.EventDispatcher.constructor` | app/src/main/java/tradingengine/events/EventDispatcher.java:15 | no registrations and no calls yet |
| `Events.EventDispatcher.Register` | app/src/main/java/tradingengine/events/EventDispatcher.java:24-34 | appends the listener to its class's list, creating it if absent; other classes' lists and the calls are unchanged |
| `Events.EventDispatcher.Notify` | app/src/main/java/tradingengine/events/EventDispatcher.java:47-49 | calls each listener of the list with the event, in order; the table is unchanged |
| `Events.EventDispatcher.Publish` | app/src/main/java/tradingengine/events/EventDispatcher.java:42-58 | the calls made are the exact-class listeners' then the wildcard listeners' (an unregistered class has none); the table is unchanged |
| `Analytics.Size` | app/src/main/java/tradingengine/analytics/AnalyticsCalculator.java:42 | `List.size()` is the length, capped at `Integer.MAX_VALUE` |
| `Analytics.SumVolume` | app/src/main/java/tradingengine/analytics/AnalyticsCalculator.java:43-49 | the loop's total is the sum of the trade quantities with `long` wrap-around |
| `Analytics.AddCounts` | app/src/main/java/tradingengine/analytics/AnalyticsCalculator.java:59-65 | each loop adds the sum of the level counts to the running `long` total, wrapping |
| `Analytics.Compute` | app/src/main/java/tradingengine/analytics/AnalyticsCalculator.java:30-76 | the timestamp passes through; totalTrades is the trade count; totalVolume is the wrapped sum of quantities; best bid and ask are the first levels' prices, absent iff that list is empty; openOrders is the wrapped sum of all level counts |

## Left out

- The file system.
  - Each file is its sequence of lines, and a missing file reads as no lines.
  - `createDirectories`, writer failures and the IOException wrapping of writes are not modelled.
  - `findAll`'s "Failed to load trades" I/O error is not modelled.
- Jackson JSON. A command-log line is either blank, a record, or unparseable. Writing a record and reading it back is taken to give the same record.
- SHA-256 itself (`MessageDigest`). The digest is a function parameter. Tamper detection is proved under an explicit no-collision hypothesis about the inputs involved.
- `Instant.toString` and `Instant.parse`. An instant is kept as its ISO text, and `Instant.parse` is taken to accept any text.
- `UUID.randomUUID` and `Instant.now`. The id and the clock reading are parameters.
- `synchronized` on the append methods. The log is modelled sequentially.
- The `double` fields `notional` and `avgTradePrice` of the analytics aggregation.
- Null arguments rejected by `Objects.requireNonNull`. Arguments are never null in the model, except for the nullable fields the source checks: the side, the ids and the record fields.
- Line breaks inside trade ids or timestamps, which would split one ledger line in two. Command-log records are written as escaped JSON on a single line, so the log is not affected.
- A command-log line holding the JSON literal `null`. `readAll` keeps the null record. `verifyChainOrThrow` throws a NullPointerException at it, unless an earlier record already broke the chain. `append` throws one only when that line is the last non-blank line, because its backward scan parses only that line. The model has no such line. Its nearest case is an unparseable line, which makes `readAll`, and so `verifyChainOrThrow`, throw at once.
- Listener side effects. A listener that registers further listeners while an event is being published is not modelled.
- The matching engine, the test-only APIs, transport, the UI, `AnalyticsStore` and `AnalyticsJob`. These sit outside the order-book and persistence core.
- `OrderBookSide.LevelSnapshot` is not part of this model. The analytics input keeps only a level's price, total quantity and order count.
- `ParseLong` accepts ASCII digits only. `Long.parseLong` also accepts other Unicode decimal digits.
- `Orders.Order.Execute`: requires a positive requested quantity, which the source does not check. A request of 0 fills nothing and leaves the remaining quantity, but still sets an order with quantity left to PARTIALLY_FILLED. A negative request raises the remaining quantity, and one near `Long.MIN_VALUE` wraps it around.
- `CommandRecords.EditDetected`: requires that no text field of either record holds `|`. `CommandRecords.PayloadCollision` shows that without this an edit can leave the payload, and so the hash, unchanged.
- `OrderStatus.CANCELLED`: it is declared but never set, because no modelled operation cancels an order.

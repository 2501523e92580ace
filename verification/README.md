# Limit order book with price-time priority — a Dafny model

This project models the `OrderBook` of a single-instrument matching engine
(`main.cpp`): new buy and sell orders, cancels, modifies and the printed book.
An incoming order walks the opposite side best price first. Within a price
level it trades with the oldest order first, each trade for the smaller of the
two remaining quantities. Filled resting orders leave the book and the order
locator. A good-for-day (`GFD`) remainder then rests at the back of its own
price level; anything else is discarded.

The model is purely functional:

- `Orders` — orders, trades, price levels and the sequence vocabulary (id lists,
  quantity sums, removal by id).
- `SideBook` — one side of the book as a list of levels sorted best price first
  (bids falling, asks rising), each level a FIFO queue. Inserting at the back of
  a level, and retrieving an order by price and id (`bidOrderFinder`,
  `askOrderFinder`, `retrieveOrderInLevelOrders`).
- `Matching` — `matchOrder` (`MatchLevel`) and `tryMatchOrder` (`MatchSide`,
  and its full scan as written, `TryMatch`), with price-time priority stated as an independent reference (`PriorityFills`).
- `OrderBook` — the book (bids, asks, locator) and the public operations
  `Submit` (`processNewBuyOrder`/`processNewSelOrder`), `Cancel`
  (`processCancel`), `Modify` (`processMod`) and `Withdraw` (`retrieveOrder`
  plus the locator erase). Each returns the next book and the trades it
  printed.
- `Invariants` — the book invariant `Valid`: sides sorted, no empty level, no
  zero-quantity order, ids unique, locator exact both ways, book not crossed.
  Proofs that every operation keeps it.
- `Properties` — what one submit does: priority, conservation, the filled
  prefix, the resting rule.
- `Snapshot` — `printBook`/`printLevel` as a value (`View`), the printing loops
  as methods, and the 32-bit accumulator of `printLevel` as written.
- `EngineChecks` — the engine's debugging checks (`checkForCrossedBook` and the
  rest), each as the condition under which it does not throw, and the proof that
  every valid book passes them.
- `Tokenizer` — `tokenizeMessage`, which splits a message at every single space.
- `Scenarios` — worked event sequences, including the one `main` runs.

Notes on how the code behaves:

- Messages are split at every single space. A leading, trailing or doubled
  space gives an empty token, so n spaces always give n + 1 tokens.
- `tryMatchOrder` does not leave its loop at a level that fails to cross; it
  goes on to later levels and leaves only once the incoming order is done
  (main.cpp:187). `Matching.TryMatch` models that
  scan as written and `Matching.TryMatchIsMatchSide` proves that on a sorted
  side it gives the same result as `Matching.MatchSide`, which stops at the
  first level that does not cross.
- An incoming order of quantity zero that crosses produces one trade of size
  zero before the match loop stops (`Scenarios.ZeroQuantityTradesZero`).

## Model

`OrderBook.Cancel` (`processCancel`) and `OrderBook.Modify` (`processMod`)
have no row of their own: their contracts are the `Invariants.Cancel*` and
`Invariants.Modify*` lemmas in the table.

| member | source | states |
|---|---|---|
| Orders.MatchSize | main.cpp:200-201 | the match size is at most both quantities and equals one of them |
| SideBook.InsertAppendsAtBack | main.cpp:70-74 | resting an order appends it to the back of the queue at its price; the queue at every other price is unchanged |
| SideBook.InsertWellFormed | main.cpp:62-63 | resting a positive-quantity order keeps the side sorted strictly best-first with only non-empty levels whose orders carry the level's side and price |
| SideBook.InsertQty | main.cpp:81-85 | resting an order adds exactly its quantity to the side |
| SideBook.RetrieveInLevel | main.cpp:157-168 | retrieval from a level succeeds exactly when the id is queued there, returns that order, and leaves one order fewer |
| SideBook.RetrieveInLevelContents | main.cpp:157-168 | retrieval from a queue keeps every order that does not carry the id, in queue order; with distinct ids what is left is exactly the queue without that order |
| SideBook.RetrieveAt | main.cpp:141-156 | retrieval by price and id succeeds exactly when the id is queued at that price, and returns the order with that id |
| SideBook.RetrieveAtFlatten | main.cpp:157-168 | retrieval removes exactly one position from the side's priority order and keeps the rest in order |
| SideBook.RetrieveAtWellFormed | main.cpp:144-146 | after retrieval the side is still sorted with no empty level (an emptied level is erased) |
| SideBook.FlattenPricesBestFirst | main.cpp:62-63 | in priority order, resting prices never get better: bids fall, asks rise |
| Matching.MatchLevelFacts | main.cpp:192-214 | matching one queue consumes a filled prefix whose ids it reports and partly fills at most the next order; orders are left in the queue only when the incoming order is done; quantity is conserved on both sides |
| Matching.MatchLevelStopsWhenDone | main.cpp:196-211 | within a level, every trade after the first is made while the incoming order still has quantity: the walk stops once it is done |
| Matching.MatchLevelPriority | main.cpp:196-211 | within a level, the i-th trade is against the i-th oldest order for the smaller of its quantity and the incoming remainder |
| Matching.MatchLevelConsumed | main.cpp:199-209 | each completely filled order traded its whole quantity, and a partly filled one lost exactly its trade's size |
| Matching.MatchSide | main.cpp:169-191 | the incoming order keeps everything but its quantity, loses exactly the traded total, and if anything remains, the best level left on the opposite side does not cross its limit |
| Matching.MatchSidePriority | main.cpp:176-189 | across levels, trades follow price-time priority against the whole side in priority order |
| Matching.MatchSideConsumesPrefix | main.cpp:183-190 | the side after matching is the side before it minus a filled prefix, with at most the next order partly filled |
| Matching.MatchSideStopsWhenDone | main.cpp:183-187 | across levels, every trade after the first is made while the incoming order still has quantity: the scan stops once it is done |
| Matching.MatchSideConsumed | main.cpp:169-191 | filled orders traded their whole quantity, and the partly filled order lost exactly the last trade's size |
| Matching.MatchSideConserves | main.cpp:200-204 | the side matched against loses exactly the total traded size |
| Matching.MatchSideWellFormed | main.cpp:183-190 | matching keeps the side sorted with no empty level and no zero-quantity order |
| Matching.MatchSideTradesCross | main.cpp:172-180 | every trade is at a level price that the incoming limit accepts |
| Matching.MatchSideSizesPositive | main.cpp:199-204 | an incoming order with positive quantity never produces a zero-size trade |
| Matching.NoLaterLevelCrosses | main.cpp:176-189 | on a side sorted best-first, once a level fails to cross no later level crosses |
| Matching.MatchSideLeavesNoCross | main.cpp:176-189 | on a well-formed side, when the incoming order has quantity left after matching, no level remaining on the opposite side crosses its limit |
| Matching.TryMatch | main.cpp:169-191 | the full scan erases only levels at the best end: the levels left are the old side's last levels, price for price |
| Matching.TryMatchIsMatchSide | main.cpp:169-191 | on a sorted side, the as-written scan, which goes on past levels that do not cross and leaves only once the order is done, gives the same incoming remainder, levels, filled ids and trades as matching that stops at the first level that does not cross |
| OrderBook.Withdraw | main.cpp:133-140 | a withdrawal that succeeds is for a known id, returns the order with that id, and erases exactly that locator entry |
| OrderBook.Submit | main.cpp:67-88 | an order never trades more than its own quantity |
| Invariants.LocatorFindsOrder | main.cpp:64-65 | in a consistent book, an id the locator knows is queued at the side and price the locator names |
| Invariants.WithdrawKnown | main.cpp:89-95 | in a consistent book, withdrawal succeeds exactly for the ids in the locator |
| Invariants.WithdrawConsistent | main.cpp:133-168 | withdrawal removes exactly that order from its side, leaves every other order in place, and keeps the book consistent |
| Invariants.EmptyBookValid | main.cpp:128 | the book a new engine starts with, with no levels and an empty locator, is valid |
| Invariants.CancelPreservesValid | main.cpp:89-95 | cancel keeps the book valid |
| Invariants.CancelRemovesExactlyThatOrder | main.cpp:89-95 | cancel erases exactly that id from the locator and that order from both sides; for an unknown id the book is unchanged |
| Invariants.CancelIdempotent | main.cpp:89-95 | cancelling the same id twice is the same as cancelling it once |
| Invariants.MatchedConsistent | main.cpp:205-209 | dropping the filled orders and their locator entries keeps the book consistent |
| Invariants.RestConsistent | main.cpp:70-74 | resting a fresh positive-quantity order and recording it in the locator keeps the book consistent |
| Invariants.SubmitNoCross | main.cpp:234-240 | after a submit the best bid is below the best ask |
| Invariants.SubmitPreservesValid | main.cpp:67-88 | submitting an order whose id is not resting keeps the book valid |
| Invariants.ModifyIsCancelThenSubmit | main.cpp:96-112 | modify of a resting order is a cancel followed by a submit with the same id and time in force and the new side, price and quantity |
| Invariants.ModifyUnknownIsNoop | main.cpp:98-99 | modify of an unknown id changes nothing and trades nothing |
| Invariants.ModifyPreservesValid | main.cpp:96-112 | modify keeps the book valid |
| Properties.SubmitTradesFollowPriority | main.cpp:169-214 | trades follow price-time priority against the opposite side; each trade's price is within the incoming limit, no trade is at a better price than an earlier one, and all sizes are positive when the order is |
| Properties.SubmitStopsWhenDone | main.cpp:187 | a submit trades only while the order still has quantity: before every trade but the first, less than its quantity had traded |
| Properties.SubmitConservation | main.cpp:176-204 | the opposite side loses exactly the total traded quantity; if the order is not filled completely, nothing left there crosses it |
| Properties.SubmitRemovesFilledPrefix | main.cpp:205-213 | the opposite side loses a prefix of its orders in priority order, each traded in full and erased from the locator, and at most the next one loses exactly the partial trade's size |
| Properties.SubmitRestingRule | main.cpp:70-74 | the remainder rests exactly when the order is good for the day and not completely filled; it then sits at the back of its price's queue with the unfilled quantity and the locator points there, with other queues unchanged; otherwise its own side is untouched |
| Properties.SubmitOwnSideQty | main.cpp:81-85 | the submitting side gains exactly the rested remainder |
| Snapshot.LevelTotal | main.cpp:224-231 | the printed level total is the exact sum of the level's order quantities |
| Snapshot.PrintBook | main.cpp:113-125 | the printout lists the ask levels from the highest price down, then the bid levels from the highest price down |
| Snapshot.PrintShape | main.cpp:113-125 | for a valid book, both lists fall strictly in price, each row's total is positive and is the quantity resting at that price, every resting price has a row, totals add up to the side, and the lowest ask is above the highest bid |
| Snapshot.LevelTotalAsWritten | main.cpp:228-229 | the level total as accumulated is the exact sum reduced to a signed 32-bit value |
| Snapshot.LevelTotalOverflows | main.cpp:228-229 | one order of 2^31 lots prints as the level total -2^31 |
| EngineChecks.ValidPassesEngineChecks | main.cpp:234-319 | a valid book passes the crossed-book, finder-consistency, bad-finder, full-finder and zero-size checks |
| EngineChecks.NoSharedPrice | main.cpp:241-263 | in a valid book no price has a level on both sides |
| Tokenizer.Tokenize | main.cpp:356-371 | the tokens are the reference split of the message; there is one more token than spaces, no token holds a space, and joining them with single spaces gives back the message |
| Tokenizer.SplitJoin | main.cpp:356-371 | joining the tokens of a message with single spaces gives back the message |
| Tokenizer.SplitCount | main.cpp:356-371 | a message with n spaces has n + 1 tokens |
| Tokenizer.SplitNoSpace | main.cpp:356-371 | no token contains a space |
| Tokenizer.JoinSplit | main.cpp:356-371 | splitting the join of a non-empty list of space-free tokens gives back the list |
| Scenarios.RestThenPartialFill | main.cpp:67-88 | a buy rests in an empty book; a sell at its price for half its size trades once and leaves the other half resting |
| Scenarios.ModifyFlipsSideAndCrosses | main.cpp:379-395 | the event sequence `main` runs: a modify that turns a resting buy into a sell fills the better bid and rests 900 at 10 on the ask side |
| Scenarios.OldestFilledFirst | main.cpp:192-213 | of two sells at one price, a larger buy fills the older one completely and then part of the newer one, which keeps its place |
| Scenarios.ZeroQuantityTradesZero | main.cpp:199-210 | a crossing order of quantity zero yields one zero-size trade and leaves the book unchanged |
| Scenarios.ImmediateOrCancelDoesNotRest | main.cpp:78-88 | an order that is not good for the day does not rest even when nothing trades |

## Left out

- Parsing orders from tokens is not modelled. This covers the `Order` constructor, the `stringstream` conversions with their `-1` sentinels, and the `"BUY"` test that sends every other side token to the sell path. Operations take an already-parsed `Side`, price and quantity.
- Console output is not modelled. Trades are returned as `Trade` values in execution order, and the printout is returned as a `View`. The `SELL:`/`BUY:` headers and line formatting are left out.
- The locator's member-function pointer is not modelled. It is replaced by a `Side` tag, which selects the same side.
- Prices and quantities are unbounded naturals, so 64-bit wrap-around is not modelled. The matching code only ever subtracts the smaller quantity from the larger.
- Invariants.SubmitPreservesValid: requires that the new order's id is not already resting. `processNewBuyOrder` and `processNewSelOrder` do not check this: a duplicate id would overwrite the locator entry and leave two orders with one id.
- Properties.SubmitRemovesFilledPrefix: requires that the new order's id is not already resting, for the same reason: with a duplicate id, erasing a filled order's locator entry and resting the new order under that id interfere.
- Properties.SubmitRestingRule: requires that the new order's id is not already resting. The rule tells whether the remainder rested by its id's locator entry, and with a duplicate id that entry exists before the submit; if the remainder rests, its entry replaces the older order's.
- OrderBook.Withdraw: returns `None` when the locator names a level or queue that does not hold the order. In `main.cpp` that case throws from `at()` or dereferences an end iterator. No valid book reaches it (`Invariants.WithdrawKnown`).
- The engine's check methods are never called by the program. They are modelled as predicates rather than as throwing methods. The final loop of `checkFullFinderConsistency`, which re-tests ids it has just found, adds nothing and is left out.
- `MatchingEngine` dispatch (`dispatchMessage`, `processOrderMessage`), `main` and the commented-out legacy code at the end of the file are not modelled. Only `main`'s event sequence appears, as `Scenarios.ModifyFlipsSideAndCrosses`.
- Tokenizer.Tokenize: its `int` loop indices are modelled as unbounded, so messages longer than 2^31 characters are left out.

## Findings

| source | as written | input that shows it | evidently intended | confidence | as-written member | corrected member |
|---|---|---|---|---|---|---|
| main.cpp:228-229 | `auto totalQuantity = 0` makes the level total a signed 32-bit `int`. Each `+=` of a 64-bit quantity is truncated back to 32 bits. | one resting order of quantity 2147483648 prints a level total of -2147483648 | the exact sum of the level's unsigned 64-bit quantities | not executed; high (the `int` type follows from the literal `0`) | Snapshot.LevelTotalAsWritten (Snapshot.LevelTotalOverflows) | Snapshot.LevelTotal |

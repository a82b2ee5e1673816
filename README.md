# Limit order book — a Dafny model

This project models the matching engine of a C++ limit order book and proves
properties of it. The model follows the engine's three layers:

- **`Order`** (`Orders.dfy`): one order. It keeps a remaining volume and a
  status (ACTIVE, FULFILLED or DELETED), and `fill` takes volume off it.
- **`Limit`** (`Limits.dfy`): one price level. It is a first-in first-out
  queue of orders with a cached `length` and `total_volume`. `match_order`
  fills an incoming order against the oldest resting orders first.
- **`Book`** (`Books.dfy`): two sides of price levels. Each side keeps a
  map from price to level, an ordered set of prices and a cached best price
  (0 means the side is empty). An index `id_to_order` holds the resting
  orders. `place_order` matches with price-time priority and rests what is
  left. `delete_order` cancels.

The demo program's two string helpers are modelled too (`Demo.dfy`): `split`,
the CSV field splitter, and `sv_to_num`, an integer parse with
`std::from_chars` semantics.

The other modules hold the pure definitions and the proofs:

- `Types.dfy` holds the integer widths of `src/Types.h` as subset types
  (`Price` below 2^32, `Id` and `Volume` below 2^64), the two enums and
  `Trade`. A trade is (taker id, resting id, price, volume).
- `Trees.dfy` holds the ordered price set, as an increasing sequence.
- `LevelSpec.dfy` defines `MatchLevel`, which is what `Limit::match_order`
  does to a level's (id, remaining volume) entries, and proves what it
  promises.
- `BookSpec.dfy` defines the book as a value, its invariant `Valid`, one
  round of the matching loop (`MatchRound`), the whole loop (`MatchLoop`),
  `Place`, `Cancel`, `StatusOf` and `Spread`, with the lemmas about them.

Each method of the `Book` and `Limit` classes is proved to compute the
matching function on the object's state. `Limits.Limit.MatchOrder`, the
model of `Limit::match_order`, equals `MatchLevel` on the entries of its
queue. `Books.Book.PlaceOrder`, the model of `Book::place_order`, equals
`BookSpec.PlaceChecked` on the book's state; that is `BookSpec.Place` on
every call for which the C++ function returns (`BookSpec.PlaceReturns`), and
the corrected behaviour on the one call for which it does not (see
Findings).

## Model

| member | source | states |
|---|---|---|
| Orders.Order.constructor | src/Order.h:24-25 | id, agent, type and price are as given and fixed; the remaining volume equals the initial volume; the status is ACTIVE |
| Orders.Order.Fill | src/Order.cpp:5-9 | filling more than what is left fails (`logic_error`) and changes neither volume nor status; otherwise the volume drops by exactly the fill and the status becomes FULFILLED exactly when nothing is left, else stays; the volume never grows; after a fill of an order that was not FULFILLED, `is_fulfilled` (tested by `match_order`'s loop) holds exactly when the status is FULFILLED (tested by `place_order`'s loop) |
| Orders.Order.SetStatus | src/Order.cpp:21 | sets the status and may change nothing else |
| Orders.ZeroVolumeOrder | src/Order.cpp:11-13 | a new order with no volume counts as fulfilled while its status is ACTIVE: `is_fulfilled` looks at the volume only |
| Limits.Limit.constructor | src/Limit.h:18 | a new level has the given price, no orders, length 0 and total volume 0 |
| Limits.Limit.IsEmpty | src/Limit.cpp:74-76 | on a well-formed level the cached length is 0 exactly when the queue holds no order |
| Limits.Limit.InsertOrder | src/Limit.cpp:4-14 | the order joins the back of the queue and the others keep their order; length grows by one and the total volume by the order's volume; the level invariant is kept |
| Limits.Limit.DeleteOrder | src/Limit.cpp:16-46 | a null order changes nothing; otherwise exactly that order leaves the queue and the rest keep their order; it becomes DELETED unless it was FULFILLED; length drops by one and the total volume by its remaining volume; no other order's status changes |
| Limits.Limit.FillHead | src/Limit.cpp:56-59 | the head and the incoming order are each filled by min(head volume, incoming volume), and each becomes FULFILLED when that empties it |
| Limits.Limit.MatchStep | src/Limit.cpp:55-68 | one iteration of `match_order`: it emits the first trade of the level's match, and a head that is used up is FULFILLED and leaves the queue |
| Limits.Limit.MatchRound | src/Limit.cpp:55-69 | one iteration keeps the loop's invariant: the orders taken off the front so far are FULFILLED with no volume, and the rest keep their status |
| Limits.Limit.MatchOrder | src/Limit.cpp:52-72 | the queue's entries, the incoming volume and the trades are those of `MatchLevel`; the queue keeps a suffix of itself; every order taken off the front is FULFILLED with no volume; the incoming order becomes FULFILLED exactly when its volume is used up |
| LevelSpec.MatchLevel | src/Limit.cpp:52-72 | matching never lengthens the level and never adds to the incoming order's volume, and it ends with the level empty or the incoming order filled |
| LevelSpec.MatchLevelHead | src/Limit.cpp:55-63 | a one-step unfolding of `MatchLevel`'s definition: the head is filled for min(its volume, what the incoming order has left), the trade (taker, head, level price, fill) comes first, a used-up head leaves the level, and matching goes on with the volume left |
| LevelSpec.MatchLevelTakerConserves | src/Limit.cpp:56-60 | the trades carry exactly the volume the incoming order lost |
| LevelSpec.MatchLevelConserves | src/Limit.cpp:56-60 | the level's total volume drops by exactly the traded volume |
| LevelSpec.MatchLevelSuffix | src/Limit.cpp:61-68 | what is left of the level is its youngest orders, with the first of them possibly partly filled |
| LevelSpec.MatchLevelTrades | src/Limit.cpp:60 | trade i has the incoming order as taker, the level's i-th oldest order as resting order and the level's price; there is one trade per removed order plus at most one partial fill |
| LevelSpec.MatchLevelFills | src/Limit.cpp:56-63 | every order removed from the level traded its whole remaining volume |
| LevelSpec.MatchLevelPartial | src/Limit.cpp:56-63 | a last trade that leaves its order in the level takes exactly the volume that order lost |
| LevelSpec.TotalAppend | src/Limit.cpp:12 | the total volume of a queue with an order appended grows by that order's volume |
| LevelSpec.TotalRemove | src/Limit.cpp:44 | removing one order takes its volume off the total |
| LevelSpec.RemoveIdSpec | src/Limit.cpp:16-46 | removing an id from a level without repeated ids drops exactly that id, keeps the level free of repeats, and changes nothing when the id is absent |
| Trees.Insert | src/Book.cpp:261-262 | inserting a price into the ordered set keeps it ordered and adds exactly that price |
| Trees.Remove | src/Book.cpp:182 | erasing a price keeps the set ordered, removes exactly that price, and keeps the lowest and highest prices unless one of them is the price erased |
| BookSpec.UpdateBest | src/Book.cpp:164-176 | the best buy becomes the highest buy price and the best sell the lowest sell price, or 0 when the side has no level; levels and prices are unchanged |
| BookSpec.GetOrCreateLimit | src/Book.cpp:219-267 | an existing level is left as is; otherwise an empty level is added at that price and the price joins the ordered set; the best price is untouched |
| BookSpec.CheckForEmptyLimit | src/Book.cpp:178-200 | an empty level at that price leaves the map and the set, and the best price is recomputed when it was that level's; otherwise nothing changes |
| BookSpec.InsertOrder | src/Book.cpp:202-217 | the order joins the back of the level at its price, creating it if needed; no other level changes; the price becomes the best when the side was empty or it improves on the best |
| BookSpec.MarkFulfilled | src/Limit.cpp:56-63 | marking the orders a round used up adds and drops no index entry; when every indexed order was ACTIVE, the FULFILLED entries afterwards are exactly the used-up ones, which the erase loop then drops (`RoundRemoves`, `EraseFilledRemoves`) |
| BookSpec.EraseFilled | src/Book.cpp:78-88 | the erase loop only removes entries from the index; every entry it keeps is as it was |
| BookSpec.EraseFilledRemoves | src/Book.cpp:78-88 | the erase loop removes from the index exactly the matched orders that are FULFILLED and keeps every other entry as it was |
| BookSpec.RoundLevel | src/Book.cpp:71-74 | one round at the best level keeps the level's youngest orders with their ids, and every order it takes off was matched by a trade |
| BookSpec.RoundRemoves | src/Book.cpp:78-88 | after one round the index has lost exactly the orders taken off the level |
| BookSpec.MatchRound | src/Book.cpp:69-92 | one round changes only the incoming order's volume and status, never raises its volume, trades exactly the volume it loses, and leaves the incoming order's own side untouched |
| BookSpec.RoundSide | src/Book.cpp:71-91 | after one round the other side is its best level replaced by what the match left of it, then dropped when empty; the round's trades are the match's |
| BookSpec.RoundConserves | src/Book.cpp:69-92 | volume is conserved on the book's other side: the round's trades carry exactly the volume its best level lost (the whole level when it leaves the side), and every other level of that side is unchanged |
| BookSpec.RoundValid | src/Book.cpp:69-92 | one round keeps the book invariant and leaves the incoming order's own side alone |
| BookSpec.RoundIndexKept | src/Book.cpp:78-88 | one round only removes entries from the index and keeps the others as they were |
| BookSpec.RoundOrder | src/Book.cpp:69-92 | one round trades at the best price only, with the incoming order as taker, for exactly the volume it loses; it either removes the best level or fills the incoming order; the new best price is no better for the taker than the old one |
| BookSpec.NextKeeps | src/Book.cpp:69-116 | a round keeps the loop's invariant and lowers (levels on the other side, incoming order still open): the loop ends |
| BookSpec.MatchLoop | src/Book.cpp:69-116 | the loop ends in a state where the incoming order is FULFILLED or no longer crosses the other side, and it only adds trades |
| BookSpec.LoopVolume | src/Book.cpp:69-116 | the loop only appends trades, and they carry exactly the volume the incoming order lost |
| BookSpec.LoopKeeps | src/Book.cpp:69-116 | the loop ends with a valid book that the incoming order no longer crosses unless it is FULFILLED; its own side is untouched and the index only loses entries |
| BookSpec.LoopPrices | src/Book.cpp:69-116 | the loop's trades are at prices within the incoming order's limit, no better than the other side's best, and each no better for the taker than the one before |
| BookSpec.PlaceKeepsValid | src/Book.cpp:30-132 | after `place_order` the book invariant holds: each side's set holds exactly the prices of its levels, no level is empty, each best price is that set's highest (buy) or lowest (sell) price or 0, the book is not crossed, and the index holds exactly the resting orders, all ACTIVE |
| BookSpec.Place | src/Book.cpp:30-132 | on every call for which the code returns (`PlaceReturns`: a zero price or a known id, some volume, or no cross), `place_order` never trades more than the placed order's volume |
| BookSpec.Finish | src/Book.cpp:119-128 | the end of `place_order` returns the loop's trades; the incoming order is indexed afterwards exactly when it is not FULFILLED or was indexed already; the other side is untouched |
| BookSpec.FinishOutcome | src/Book.cpp:119-128 | the end of `place_order`, from any loop state that conserved the order's volume, gives the outcome that `PlaceOutcome` states |
| BookSpec.PlaceIgnores | src/Book.cpp:33-42 | a zero price or an id already in the index returns no trades and leaves the book as it was |
| BookSpec.PlaceOutcome | src/Book.cpp:119-128 | the trades take at most the order's volume; the incoming order rests exactly when some of its volume is left (or it had none): it is then indexed as ACTIVE and is the last order of the level at its price with its remaining volume; a fully filled order is not indexed and reads as DELETED |
| BookSpec.PlaceTrades | src/Book.cpp:66-117 | every trade has the placed order as taker, at a price within its limit and no better for it than the other side's best before the call |
| BookSpec.PlacePriority | src/Book.cpp:66-117 | price priority: the trades' prices move away from the taker's advantage, best first |
| BookSpec.PlaceNoCross | src/Book.cpp:66-117 | an order that does not reach the other side's best trades nothing |
| BookSpec.ZeroVolumeRoundStalls | src/Book.cpp:69-92 | as written, a round for an order with no volume that crosses the other side changes nothing and the loop condition still holds |
| BookSpec.PlaceChecked | src/Book.cpp:30-132 | `place_order` with a loop that ends: a valid result; equal to `Place` on every call for which the code returns (ignored price or id, some volume, or no cross); a new crossing order with no volume changes nothing |
| BookSpec.PlaceCheckedIgnores | src/Book.cpp:33-42 | a zero price or a known id returns no trades and changes nothing |
| BookSpec.Cancel | src/Book.cpp:134-153 | the id ends up outside the index with status DELETED; other index entries are kept as they were; an unknown id changes nothing |
| BookSpec.CancelKeepsValid | src/Book.cpp:134-153 | cancelling keeps the book invariant |
| BookSpec.CancelLevel | src/Book.cpp:270-284 | a cancelled resting order leaves its level and nothing else does; the other side is unchanged, and the level goes when it was the last order |
| BookSpec.DeleteFromLimit | src/Book.cpp:270-284 | removing an order from the level at its price keeps the price set ordered and changes no other level; a price with no level changes nothing |
| BookSpec.StatusOf | src/Book.cpp:313-321 | an id outside the index reads as DELETED; in a valid book every indexed id reads as ACTIVE, so FULFILLED is never reported |
| BookSpec.Spread | src/Book.cpp:299-301 | best sell minus best buy as a 32-bit unsigned subtraction, wrapping modulo 2^32 when best buy is higher |
| BookSpec.SpreadValid | src/Book.cpp:299-301 | in a valid book with two non-empty sides the spread is positive and is the plain difference; with no sell side it wraps to 2^32 minus the best buy |
| Books.Book.UpdateBest | src/Book.cpp:164-176 | the book's new state is `BookSpec.UpdateBest` applied to that side |
| Books.Book.CheckForEmptyLimit | src/Book.cpp:178-200 | the book's new state is `BookSpec.CheckForEmptyLimit` applied to that side |
| Books.Book.GetOrCreateLimit | src/Book.cpp:219-267 | the book's new state is `BookSpec.GetOrCreateLimit` applied to that side |
| Books.Book.InsertOrder | src/Book.cpp:202-217 | the book's new state is `BookSpec.InsertOrder` applied to that side |
| Books.Book.DeleteOrderFromLimit | src/Book.cpp:270-284 | the book's new state is `BookSpec.DeleteFromLimit` applied to that side |
| Books.Book.DeleteOrder | src/Book.cpp:134-153 | the book's new state is `Cancel` of the old one |
| Books.Book.GetOrderStatus | src/Book.cpp:313-321 | returns `StatusOf` the book: in a valid book ACTIVE for an indexed id and DELETED otherwise |
| Books.Book.GetSpread | src/Book.cpp:299-301 | returns `Spread` of the book |
| Books.Book.EraseFilledOrders | src/Book.cpp:78-88 | the loop leaves the book as it was except for the index, which becomes `EraseFilled` of the trades |
| Books.Book.MatchBest | src/Book.cpp:69-92 | one iteration leaves the book, the incoming order and the trades that `MatchRound` gives |
| Books.Book.RestOrder | src/Book.cpp:119-128 | an order that is not FULFILLED is indexed and rests at its price; a FULFILLED one leaves the book as it was |
| Books.Book.PlaceOrder | src/Book.cpp:30-132 | the new book and the returned trades are `PlaceChecked` of the old book |
| Demo.Find | demo/demo.cpp:37 | the first delimiter at or after the start, or the end of the line when there is none |
| Demo.Fields | demo/demo.cpp:31-45 | the pieces between delimiters, the empty ones included; there is always at least one |
| Demo.SplitSpec | demo/demo.cpp:31-45 | no token that `split` produces holds the delimiter |
| Demo.Split | demo/demo.cpp:31-45 | the tokens are the pieces between delimiters, left to right, with the empty final piece dropped |
| Demo.SplitJoin | demo/demo.cpp:31-45 | joining the tokens with the delimiter gives back the line, less its final delimiter when it ends with one |
| Demo.SplitTrailing | demo/demo.cpp:42-44 | "a,b," gives the two tokens "a" and "b" |
| Demo.SplitDegenerate | demo/demo.cpp:42-44 | "," gives one empty token and the empty line gives none |
| Demo.SplitAdjacent | demo/demo.cpp:37-40 | adjacent delimiters give an empty token between them: "2,,3" gives "2", "" and "3" |
| Demo.SvToNum | demo/demo.cpp:25-29 | the result is always in the range of a 32-bit `int` |
| Demo.SvToNumShow | demo/demo.cpp:25-29 | every `int` written in decimal, followed by text that does not start with a digit, reads back as itself |
| Demo.SvToNumOutOfRange | demo/demo.cpp:26-28 | a number outside the `int` range reads as 0, with or without a sign |
| Demo.SvToNumNoDigits | demo/demo.cpp:26-28 | a field that starts with neither a digit nor '-' and a digit reads as 0 |
| Demo.SvToNumExamples | demo/demo.cpp:25-29 | "12ab" reads as 12, "-7" as -7, and "" and "-" as 0 |

## Left out

- The intrusive doubly-linked list of `Limit` (the `head`/`tail` fields and the `prev`/`next` links of `Order`, with `get_prev`, `set_prev`, `get_next` and `set_next`) is a sequence of orders here. The four relinking branches of `Limit::delete_order` become one removal from that sequence. Clearing the removed order's links has nothing to model.
- Orders.Order.constructor: the null `prev`/`next` links are not modelled, because the model has no links.
- The `Book` keeps each level as a sequence of (id, remaining volume) entries, not as a `Limit` object. The index keeps each resting order's agent, type, price and status, not a pointer to a shared `Order`. `Limit::match_order` marking resting orders FULFILLED through those shared pointers becomes a status update on the index (`MarkFulfilled`), which the erase loop then reads. `Limits.Limit.MatchOrder` is proved to compute `MatchLevel`, the same function the `Book` uses, so the two layers agree. Aliasing between the book's index and the level's orders is therefore not captured.
- The incoming order inside `place_order` is a value (`Incoming`), not a pool-allocated `Order`.
- Limits.Limit.InsertOrder and Limits.Limit.DeleteOrder: `length` and `total_volume` are unbounded, so their 64-bit wrap-around is not modelled. Volumes and ids are bounded below 2^64 by their types.
- Limits.Limit.DeleteOrder requires a non-null order to be in the queue, as the header comment of `delete_order` demands.
- BookSpec.Place requires `PlaceReturns`: the order is ignored for a zero price or a known id, or it has volume, or it does not cross the book. The code as written does not return for a new order at a non-zero price with no volume that crosses the book (see Findings). The corrected `BookSpec.PlaceChecked`, which `Books.Book.PlaceOrder` follows, drops such an order.
- BookSpec.PlaceTrades and BookSpec.PlacePriority: time priority (the trades at one price are against that level's orders, oldest first) is proved one round at a time by `RoundLevel` and `LevelSpec.MatchLevelTrades`; it is not restated for all the trades of `place_order`, which state price priority only.
- BookSpec.RoundConserves: volume conservation on the other side is stated one round at a time, level by level. The side's total over all its levels is not summed across the whole matching loop; `LoopVolume` states the taker's half of that balance for the whole loop.
- The memory pools (`order_pool`, `limit_pool`), placement new, explicit destructor calls, the `bad_alloc` path and the defensive `if (!limit)` checks are left out. A level or order is created or dropped directly.
- The warning that `place_order` writes to standard error for a duplicate id, and all `print` methods, are console output and are left out.
- `Book::get_mid_price` returns a `double` and is left out (floating point).
- The `Book` constructor and fields are declared in `Book.h`, which is not part of this model. `Books.Book.constructor` starts from the empty book, with both best prices 0 as `update_best_buy` and `update_best_sell` set for an empty side.
- The plain getters (`get_best_buy`, `get_best_sell`, the tree and map getters, `Order`'s and `Limit`'s getters, `is_in_buy_limits`, `is_in_sell_limits`) are left out: they are field reads, and the model's fields are public.
- `demo()`, `write_final_order_book` and the demo's Python scripts are left out: they are file I/O, timing, random order generation and plotting.
- Demo.Split returns a fresh sequence instead of clearing and refilling the caller's vector. The tokens are copies of the pieces, not views into the line.
- Demo.SvToNum treats a '+' sign and leading whitespace as `std::from_chars` does: neither is accepted, so both read as 0. Characters are Unicode code points, not bytes, and only the ASCII digits count as digits.

## Findings

| source | as written | input that shows it | evidently intended | confidence | as-written member | corrected member |
|---|---|---|---|---|---|---|
| src/Book.cpp:69-92 (and 94-116 for a sell) | the matching loop of `place_order` runs while the order crosses and is not FULFILLED; an order with volume 0 is never FULFILLED by `fill`, and `match_order` does nothing for it, so nothing changes and the loop never ends | `place_order` of a BUY with volume 0 at a price at or above `best_sell` on a book with a resting sell order | the call returns without trading | not executed | BookSpec.ZeroVolumeRoundStalls | BookSpec.PlaceChecked |

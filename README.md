# A verified model of a Solana prediction-market order book

This project models the on-chain core of a binary prediction market written in Rust for Solana (an Anchor program). It proves properties of that model in Dafny. The market trades Yes and No outcome tokens against USDC. The program holds two generations of an order book:

- **The request-queue design.**
  - Traders enqueue intents (`place_request.rs`, `cancel_request.rs`) on a bounded ring buffer.
  - A cranker runs `match_request.rs`. It dequeues requests in arrival order and crosses each one against the opposite side's **arena slab**. The arena slab is a red-black tree of price nodes in a fixed array; each node owns a FIFO chain of order entries in a second array.
  - Every fill or cancel is recorded on a bounded event queue, and the unfilled remainder rests on the order's own side.
- **The legacy synchronous design.**
  - `place_limit_order.rs` and `cancel_order.rs` work at once on an older slab.
  - That slab is a price-sorted doubly linked list with a free list (`utils.rs`).
  - They record fills and cancels in a growable event list and in the trader's slot bitmap.

The model also covers the integer LMSR helpers of `amm.rs` and the market lifecycle (`initialize_market.rs`, `resolve_market.rs`).

## How the model is built

Mutable accounts become classes with the source's fields and fixed arrays. Pure arithmetic becomes functions. Each class carries a ghost abstraction that the contracts talk about:

- **Arena slab** (`ArenaSlab.Slab`).
  - The ghost state is the in-order sequence of price-node indices (`io`), an interval map locating every node's subtree in that sequence (`sp`), and one index sequence per order chain (`chains`).
  - `Valid()` says the following:
    - the arrays thread a binary search tree with exactly that in-order sequence, sorted by key;
    - the root is black;
    - every chain is a disjoint FIFO linked list of occupied entries;
    - `node_count` counts the tree's nodes.
  - `Book()` reads off the abstract book side: the price levels in increasing price, each with its resting orders oldest first.
- **Ring buffers** (`RingBuffer.RequestQueue`, `RingBuffer.EventQueue`). `Contents()` is the window of `count` slots starting at `head`, taken modulo the capacity.
- **Legacy slab** (`LegacyBook.Slab`). The ghost state is the price list and the free list as index sequences. `Valid()` says that `prev`/`next` thread the price list from `head_index` in both directions, sorted for the slab's side, and that `next` threads the free list from `free_head`.
- **Legacy matching** (`LegacyOrders`). The fill loop of `place_limit_order.rs` is specified by a ghost recursive run over the slab's value (`StateOf`): `TurnOf` gives one iteration and `MatchRun` the whole loop. `MatchOrder` is proved to end where the run ends. On a list sorted for the crossing side, `Swept` says what any successful run does, and `SortedRun` proves it.
- **Matching** (`MatchingSpec`). The request-queue matching instruction is specified on abstract books:
  - `Consume` gives the FIFO consumption of one level;
  - `Cross`, `Rest` and `Limit` give one limit request;
  - `Step` gives any request, and `Process` a batch.

  The `Matching` methods are proved to produce exactly those books and events.

Errors use the error codes of `error.rs`. Two modelling values are added:

- `Panic` stands for a Rust arithmetic overflow or out-of-bounds index, which aborts the transaction.
- `MathError` appears wherever the source maps a failed checked operation to it.

Where a handler checks before it writes, the contracts state that an `Err` leaves the state unchanged. Elsewhere an `Err` carries no promise about the state, because the Solana runtime discards every write of a failed instruction. `Intake.PlaceOrderTransaction` shows that discard explicitly for one handler.

The clock (`Clock::get()`) becomes the parameters `now` (its unix timestamp) and `slot`.

Constants that `constants.rs` does not define are handled as follows:

- The array capacities `MAX_PRICE_NODES`, `MAX_ORDER_ENTRIES` and `MAX_REQUESTS` are the lengths of the arrays the constructors receive.
- `MAX_MARKET_QUESTION` and `MAX_MARKET_DESC` are parameters of `Lifecycle.InitializeMarket`.
- `PRICE_PRECISION_SCALE` is taken to be 1 000 000. `place_limit_order.rs` spells it `PRICE_PRICISION_SCALE`, and it is read as the same constant. The AMM's `FP_SCALE` equals it.

## Where the code and its description differ

The model follows the code in each of these places:

- **match_request.rs, crossing.** The loop only ever looks at the best price node. Popping an exhausted maker never removes that price node, so the loop stops at the first emptied best level, even when the next level would still cross (`MatchingSpec.Cross`).
- **match_request.rs, request types.** Every request type other than `CancelOrder`, including `MarketOrder` and unknown bytes, is matched as a limit order. Any side byte other than 0 is a sell.
- **match_request.rs, resting entries.** The rested entry's `owner_slot` is always 0. Its `reserved_amount` is the u128 quotient cast to u64, so only the low 64 bits are kept.
- **place_limit_order.rs, crossing bound.** The bound passed to `find_matching_node` is the remaining quantity, not the limit price (`LegacyOrders.FillOnce`).
- **place_limit_order.rs, partial fills.** The decremented quantity and reserves of a partly filled maker go to a local copy and are never written back (`LegacyOrders.FillAt`).
- **place_limit_order.rs, fill price.** The event price is the node key cast to u64.
- **place_limit_order.rs, slot selection.** The slot scan checks `(bitmap << i) & 1`, which is 0 for every `i >= 1`. So slot 1 is always chosen, and `MaxOrderReached` cannot happen (`LegacyOrders.SlotOneAlwaysFree`).
- **place_limit_order.rs, active orders.** `active_orders` is checked for overflow but the sum is discarded, so it never grows (`LegacyOrders.TakeSlot`).
- **cancel_order.rs.** The handler only looks at slots 1 to 15. The Cancel event carries the reserved outcome amount as its quantity and the reserved USDC as its price.
- **ring_buffer.rs.** `push_event` on a full queue returns `MathError`, not `EventQueueFull`.
- **amm.rs.**
  - `ln_approx` divides `y - FP_SCALE` by itself.
  - So every argument above one unit gives the same constant, and `lsmr_cost` depends on `b` alone.
  - `amm_cost_to_yes` and `amm_cost_to_no` therefore return 0 whenever nothing overflows (`Amm.LnApproxConstant`, `Amm.AmmCostToYesValue`).
- **resolve_market.rs.** The handler does not check the current status. A market that is open, paused, cancelled or already resolved can be resolved again. A winner byte other than 0 or 1 succeeds and changes nothing.
- **place_request.rs.** A buy's reserved quote is cast to u64 after the division, keeping the low 64 bits (`Intake.ReservedQuoteTruncates`). The locked balance is raised before the enqueue that can still fail.

## Model

| member | source | states |
|---|---|---|
| RingBuffer.RequestQueue.Enqueue | programs/polymarket-clone/src/utils/ring_buffer.rs:9-19 | A full queue gives RequestQueueFull and changes nothing. Otherwise the request is written into slot (head+count) mod capacity, that slot alone changes, `count` grows by one, and the contents gain the request at the back. Panic when head+count overflows u64. |
| RingBuffer.RequestQueue.Dequeue | programs/polymarket-clone/src/utils/ring_buffer.rs:21-41 | Returns the min(n, count) oldest requests in FIFO order. `head` grows and `count` drops by that many, the contents lose exactly that prefix, and the array is not touched. Panic or MathError on u64 overflow of `head`. |
| RingBuffer.EventQueue.Push | programs/polymarket-clone/src/utils/ring_buffer.rs:43-53 | A full queue gives MathError, not EventQueueFull, and nothing changes. Otherwise the event goes into slot (head+count) mod MAX_EVENTS, `count` grows by one, and the contents gain it at the back. |
| RingBuffer.EventQueue.Peek | programs/polymarket-clone/src/utils/ring_buffer.rs:55-65 | The min(n, count) oldest events in order. Nothing changes. |
| RingBuffer.EventQueue.Pop | programs/polymarket-clone/src/utils/ring_buffer.rs:67-78 | Returns what `Peek` returns. `head` moves past those events, `count` drops by their number, the contents lose exactly that prefix, and the array is untouched. |
| RingBuffer.WindowPush | programs/polymarket-clone/src/utils/ring_buffer.rs:14-15 | Writing the slot after the window extends the window by that element at the back. This is the enqueue half of the enqueue/dequeue round trip. |
| RingBuffer.WindowPop | programs/polymarket-clone/src/utils/ring_buffer.rs:25-38 | Advancing `head` by k and shrinking `count` by k drops exactly the first k elements of the window. This is the dequeue half of the round trip. |
| RingBuffer.DistinctSlots | programs/polymarket-clone/src/utils/ring_buffer.rs:9-26 | Distinct positions of a window lie in distinct slots of the array, so an enqueue overwrites no waiting element. |
| ArenaSlab.Slab.InitializeSlab | programs/polymarket-clone/src/utils/slab.rs:9-36 | The root is -1, `node_count` is 0, and both free-list heads are -1. Every price node and order entry is the empty record with all links -1. The slab is a valid tree holding the empty book. |
| ArenaSlab.Slab.SetColor | programs/polymarket-clone/src/utils/slab.rs:57-61 | Only the colour of node `i` changes. The null index changes nothing, and keys, links and chains stay as they were. |
| ArenaSlab.Slab.AllocatePriceNode | programs/polymarket-clone/src/utils/slab.rs:63-81 | Claims the lowest unoccupied slot: occupied, red, all links -1, and the key left as it was. `node_count` grows by one. MathError with nothing changed when every slot is occupied, and MathError when the count would overflow. |
| ArenaSlab.Slab.AllocateOrderEntry | programs/polymarket-clone/src/utils/slab.rs:83-92 | Err exactly when every entry is occupied, and then MathError with nothing changed. Otherwise the lowest unoccupied entry becomes occupied with `next_in_price` -1; it is on no chain and the book does not change. |
| ArenaSlab.Slab.FindPriceNode | programs/polymarket-clone/src/utils/slab.rs:94-108 | Some(i) with `key == price` for a node of the tree, and None exactly when no node of the tree holds the price. |
| ArenaSlab.Slab.LeftRotate | programs/polymarket-clone/src/utils/slab.rs:110-136 | Does nothing when the right child is null. Otherwise it performs exactly the link rewrites of a left rotation. Keys, chains and the in-order sequence are unchanged, and the tree stays a search tree. |
| ArenaSlab.Slab.RightRotate | programs/polymarket-clone/src/utils/slab.rs:138-163 | The mirror image of `LeftRotate`, for the left child. |
| ArenaSlab.Slab.InsertFixup | programs/polymarket-clone/src/utils/slab.rs:165-211 | Keys, chains and the in-order sequence are unchanged, the tree stays a sorted search tree, and its root ends black. |
| ArenaSlab.Slab.InsertPriceNode | programs/polymarket-clone/src/utils/slab.rs:213-244 | A price already in the tree returns that node, and nothing changes. For a new price the result is MathError exactly when every slot is occupied, and then nothing changes. Otherwise a previously free slot holds the price, and the book gains one empty level at its sorted place (`WithLevel`). The slab stays valid: sorted, with a black root. |
| ArenaSlab.Slab.Transplant | programs/polymarket-clone/src/utils/slab.rs:246-258 | `v` takes `u`'s place under `u`'s parent, or becomes the root. `v`'s parent becomes `u`'s parent, and `u`'s own record is not written. |
| ArenaSlab.Slab.TreeMin | programs/polymarket-clone/src/utils/slab.rs:260-265 | Returns the leftmost node of `x`'s subtree. It opens the subtree's span and holds its smallest key. |
| ArenaSlab.Slab.DeleteFixup | programs/polymarket-clone/src/utils/slab.rs:267-345 | Keys, chains and the in-order sequence are unchanged, the tree stays a sorted search tree, and the root is black when it returns Ok. Panic exactly where the loop would index a null sibling. |
| ArenaSlab.Slab.RemovePriceNode | programs/polymarket-clone/src/utils/slab.rs:347-411 | -1 is an Ok no-op, and any other index outside the array is Panic with nothing changed. Otherwise: `node_count` drops by one, and the slot becomes the empty record. The other nodes keep their keys and chains, because the successor is relinked rather than copied. The book loses exactly the level of that price (`WithoutLevel`). |
| ArenaSlab.Slab.AppendOrder | programs/polymarket-clone/src/utils/slab.rs:413-433 | A negative price index is MathError, and an index outside an array is Panic, both with nothing changed. Otherwise the entry becomes the tail of the node's FIFO chain, and that book level gains the order at its back. |
| ArenaSlab.Slab.PopOrder | programs/polymarket-clone/src/utils/slab.rs:435-453 | A negative index or an empty chain is NoMatchingOrder, and an index past the array is Panic, with nothing changed. Otherwise it returns the chain's head, the chain advances, the entry becomes unoccupied, and that level loses its oldest order. |
| ArenaSlab.Slab.FindBest | programs/polymarket-clone/src/utils/slab.rs:455-476 | None exactly when the tree is empty. Otherwise it returns the last node in key order for a bid slab and the first for an ask slab. |
| ArenaSlab.Slab.FillHead | programs/polymarket-clone/src/instructions/match_request.rs:108-110 | The oldest order of the node's level keeps its place with the new quantity. |
| ArenaSlab.Slab.WriteEntry | programs/polymarket-clone/src/instructions/match_request.rs:148-161 | Writing a claimed entry that is on no chain changes that entry only, and the book stays the same. |
| ArenaSlab.Slab.BookShape | programs/polymarket-clone/src/utils/slab.rs:94-108 | The book of a valid slab is in strictly increasing price order, level k carrying the key of the k-th node in order. |
| ArenaSlab.Slab.LevelOf | programs/polymarket-clone/src/utils/slab.rs:413-453 | The book level of a tree node carries its key. It is empty exactly when `order_head` is -1, and its oldest order is the `order_head` entry. |
| ArenaSlab.InsertBook | programs/polymarket-clone/src/utils/slab.rs:213-244 | A freshly claimed node linked in at its in-order position adds exactly one empty level at its price to the book. |
| ArenaSlab.RemoveBook | programs/polymarket-clone/src/utils/slab.rs:347-411 | Taking a node out of the in-order sequence removes exactly its level from the book, and leaves the other levels' keys and orders. |
| ArenaSlab.RemovedBook | programs/polymarket-clone/src/utils/slab.rs:347-411 | Clearing node z and then relinking or recolouring the rest, without touching keys or chains, gives exactly the old book without the level at z's key. |
| ArenaSlab.BookOfRecolor | programs/polymarket-clone/src/utils/slab.rs:57-163 | Changes that keep every node's key and chain (colour, parent, child links) leave the book unchanged. |
| ArenaSlab.SortedBook | programs/polymarket-clone/src/utils/slab.rs:213-244 | A search-sorted in-order sequence gives a book in strictly ascending price order. |
| SlabChains.WithoutWithLevel | programs/polymarket-clone/src/utils/slab.rs:213-411 | Inserting a new price level and removing it again gives the book back. |
| SlabChains.WithLevelAscending | programs/polymarket-clone/src/utils/slab.rs:213-244 | Adding an empty level at a price the ascending book does not hold keeps it ascending, and puts that level at the sorted position. |
| SlabChains.WithoutLevelAscending | programs/polymarket-clone/src/utils/slab.rs:347-411 | Removing the level at a price keeps an ascending book ascending and leaves no level at that price. It shortens the book by one exactly when the price was held. |
| MatchingSpec.Served | programs/polymarket-clone/src/instructions/match_request.rs:86-90 | The fill the front maker gives is min(its quantity, what the taker has left). |
| MatchingSpec.Remaining | programs/polymarket-clone/src/instructions/match_request.rs:108-113 | A maker with more than the taker needs keeps its place; a maker with no more is removed. |
| MatchingSpec.Consume | programs/polymarket-clone/src/instructions/match_request.rs:60-118 | On one level, the fills plus the final remainder equal the taker's quantity. The loop ends with nothing left or an empty level. There are fills exactly when quantity was left and the level had an order, and at most one fill per maker. |
| MatchingSpec.ConsumeFifo | programs/polymarket-clone/src/instructions/match_request.rs:81-113 | The i-th fill is taken from the i-th oldest maker and takes at most what that maker had. Every maker served before the last one is exhausted. |
| MatchingSpec.ConsumeRemains | programs/polymarket-clone/src/instructions/match_request.rs:108-113 | After the fills, the level holds the makers that were not reached. If the last maker served was only partly filled, it comes first with its quantity reduced by exactly the amount taken. |
| MatchingSpec.RemainsShift | programs/polymarket-clone/src/instructions/match_request.rs:108-113 | A maker served entirely keeps the relation between the level and what remains, one position further. |
| MatchingSpec.ConsumeConserves | programs/polymarket-clone/src/instructions/match_request.rs:86-117 | What stays on the level plus what was filled equals what rested there. |
| MatchingSpec.TakenBook | programs/polymarket-clone/src/instructions/match_request.rs:108-113 | Reducing the front maker, or popping it, is writing `Remaining` into that level. |
| MatchingSpec.FillEvent | programs/polymarket-clone/src/instructions/match_request.rs:92-104 | A Fill at the level's price for the fill's quantity. The maker's open-order account, slot and order id are named, along with the taker's open-order account, side and outcome. |
| MatchingSpec.FillEventsSnoc | programs/polymarket-clone/src/instructions/match_request.rs:106 | One more fill is one more event at the back of the queue. |
| MatchingSpec.FillEventsAt | programs/polymarket-clone/src/instructions/match_request.rs:92-106 | The k-th event pushed by the loop is the Fill of the k-th fill. |
| MatchingSpec.Cross | programs/polymarket-clone/src/instructions/match_request.rs:58-118 | The fills plus the remainder equal the request quantity. Only the best level changes, and its price stays. No fills leaves the book and the quantity alone. Any fill happened at the best level, which crosses the limit (ask <= limit for a buy, bid >= limit otherwise). |
| MatchingSpec.CrossConserves | programs/polymarket-clone/src/instructions/match_request.rs:86-117 | The best level's loss of volume is exactly the taker's filled quantity. |
| MatchingSpec.RemainderEvent | programs/polymarket-clone/src/instructions/match_request.rs:120-136 | The remainder's Fill names the market as maker at the taker's own limit price, for the remaining quantity. |
| MatchingSpec.CancelEvent | programs/polymarket-clone/src/instructions/match_request.rs:34-48 | A Cancel with the request owner as maker, the request's side, order id and outcome, and price and quantity 0. |
| MatchingSpec.ReservedAmount | programs/polymarket-clone/src/instructions/match_request.rs:153-161 | MathError exactly when a buy's price times quantity overflows u128. It is 0 for a sell. For a buy it is floor(price·qty / scale) whenever that fits in 64 bits, and that quotient modulo 2^64 for every input (the formula of `Intake.ReservedQuote`). |
| MatchingSpec.AddRestingHeld | programs/polymarket-clone/src/instructions/match_request.rs:145-162 | At a price the book holds, the order joins the back of that level and nothing else changes. |
| MatchingSpec.BelowAt | programs/polymarket-clone/src/instructions/match_request.rs:145 | In an ascending book, the sorted position of a held price is its level's index. |
| MatchingSpec.AddRestingNew | programs/polymarket-clone/src/instructions/match_request.rs:145-162 | At a new price, a level holding just the order appears where the price belongs. The levels below keep their places, the higher ones move up by one, and the book stays ascending. |
| MatchingSpec.AddResting | programs/polymarket-clone/src/instructions/match_request.rs:145-162 | A new price adds exactly one level, and a held price none. The placement is in `MatchingSpec.AddRestingHeld` and `MatchingSpec.AddRestingNew`. |
| MatchingSpec.Rest | programs/polymarket-clone/src/instructions/match_request.rs:120-163 | With nothing left, the book and events are unchanged. Otherwise exactly the remainder event is added, and the order rests on its own book with its reserve; only MathError can stop it. |
| MatchingSpec.Limit | programs/polymarket-clone/src/instructions/match_request.rs:52-163 | Its only error is MathError, from the reserve. |
| MatchingSpec.CancelStep | programs/polymarket-clone/src/instructions/match_request.rs:34-50 | A cancel request leaves both books as they were and adds exactly its one Cancel event. |
| MatchingSpec.LimitStep | programs/polymarket-clone/src/instructions/match_request.rs:52-163 | A buy matches against the asks, and any other side against the bids. The opposite book is what `Cross` leaves. The events are the fills, then the remainder event if quantity is left. The own book is untouched when nothing is left. Filled plus left equals the requested quantity. |
| MatchingSpec.Process | programs/polymarket-clone/src/instructions/match_request.rs:33-164 | No requests leave both books and add no events. |
| MatchingSpec.Step | programs/polymarket-clone/src/instructions/match_request.rs:33-164 | Only a request other than a cancel can fail, and then only with MathError. What it does is in `MatchingSpec.CancelStep` and `MatchingSpec.LimitStep`. |
| MatchingSpec.CancelsOnly | programs/polymarket-clone/src/instructions/match_request.rs:33-50 | A batch of cancel requests changes neither book and adds one Cancel event per request, in queue order. |
| MatchingSpec.ProcessNext | programs/polymarket-clone/src/instructions/match_request.rs:33-164 | When a batch went through, one more request is one more `Step` on the books it left, with its events appended. |
| MatchingSpec.ProcessFails | programs/polymarket-clone/src/instructions/match_request.rs:32-164 | A request that fails fails the whole instruction. |
| Matching.Probe | programs/polymarket-clone/src/instructions/match_request.rs:61-84 | The loop goes on exactly when quantity is left, the book is not empty, the best level crosses the limit, and that level has an order. It then returns the best node and its price. |
| Matching.TakeFront | programs/polymarket-clone/src/instructions/match_request.rs:108-113 | A front maker with more than the taker has left keeps its place with the difference; any other maker is popped. |
| Matching.TakeHead | programs/polymarket-clone/src/instructions/match_request.rs:85-117 | One turn: the Fill event for the served amount is pushed, then the front maker is reduced or popped, and the remainder drops by the amount filled. |
| Matching.Turn | programs/polymarket-clone/src/instructions/match_request.rs:85-117 | One turn keeps the loop's invariant. The book is the original with its best level replaced by what `Consume` has not reached, and the events so far are the fills so far. |
| Matching.TurnDone | programs/polymarket-clone/src/instructions/match_request.rs:85-117 | One served maker advances the loop invariant: the rest of the level, the remainder and the fills move one step through `Consume`, and the loop measure strictly decreases. |
| Matching.Sweep | programs/polymarket-clone/src/instructions/match_request.rs:58-118 | The loop ends with the book, the fills and the remainder that `Consume` gives for the best level, and the queue holds their Fill events. An empty or non-crossing book ends it at once. |
| Matching.CrossDone | programs/polymarket-clone/src/instructions/match_request.rs:58-84 | When the loop's checks fail, the book, fills and remainder are exactly those of `Cross`. |
| Matching.MatchBest | programs/polymarket-clone/src/instructions/match_request.rs:58-118 | The remainder, the opposite book and the new Fill events are exactly those of `Cross`. Only MathError or Panic stop it. |
| Matching.PlaceLevel | programs/polymarket-clone/src/instructions/match_request.rs:145 | The book is unchanged when it holds the price, and otherwise gains an empty level for it; the returned node sits at that level. MathError when the slab is full. |
| Matching.ClaimEntry | programs/polymarket-clone/src/instructions/match_request.rs:147 | A free entry is claimed on no chain, and the book is unchanged. MathError when every entry is occupied. |
| Matching.JoinLevel | programs/polymarket-clone/src/instructions/match_request.rs:148-162 | The written entry joins the back of its level. |
| Matching.LevelsAreKeys | programs/polymarket-clone/src/instructions/match_request.rs:145 | The book holds a level at a price exactly when some tree node has that key. |
| Matching.LevelOfKey | programs/polymarket-clone/src/instructions/match_request.rs:145-162 | The node with a price sits at the sorted position of that price in the book. |
| Matching.RestedAt | programs/polymarket-clone/src/instructions/match_request.rs:145-162 | Inserting the price, then appending the order at that level, is `AddResting`. |
| Matching.RestOrder | programs/polymarket-clone/src/instructions/match_request.rs:145-162 | When it succeeds, the book is `AddResting` of the old one. The resting order carries the request's id and open-order account, slot 0, the remainder, and `ReservedAmount`. When the reserve overflows, it fails. |
| Matching.RestRemainder | programs/polymarket-clone/src/instructions/match_request.rs:120-162 | When it succeeds, the own book and the new events are exactly those of `Rest`. When `Rest` fails, it fails. |
| Matching.MatchLimit | programs/polymarket-clone/src/instructions/match_request.rs:52-163 | When it succeeds, both books and the new events are those of `Limit`. When `Limit` fails, it fails. |
| Matching.MatchRequest | programs/polymarket-clone/src/instructions/match_request.rs:33-164 | When it succeeds, both books and the new events are those of `Step`. When `Step` fails, it fails. A cancel request succeeds exactly when the event queue has a free slot and its write index fits in u64, and then adds one event. |
| Matching.RunRequests | programs/polymarket-clone/src/instructions/match_request.rs:33-164 | When it succeeds, the books and events are those of `Process` over the requests in order. A batch made only of cancels succeeds whenever the event queue has room for all of them. |
| Matching.MatchOrders | programs/polymarket-clone/src/instructions/match_request.rs:31-166 | On success, the min(max_requests, waiting) oldest requests are taken off the queue, and the rest stay waiting in order. The books and event queue end as `Process` of those requests says. When the requests taken are all cancels, the queue heads stay in u64 range and the event queue has room for them, it succeeds; `MatchingSpec.CancelsOnly` then gives the books unchanged and one Cancel event per request. |
| Amm.CheckedAdd | programs/polymarket-clone/src/instructions/amm.rs:6-26 | Ok(a+b) exactly when the sum fits in u128, and MathError otherwise. |
| Amm.CheckedSub | programs/polymarket-clone/src/instructions/amm.rs:6-26 | Ok(a-b) exactly when b <= a, and MathError otherwise. |
| Amm.MulDiv | programs/polymarket-clone/src/instructions/amm.rs:28-58 | Ok(a·b / d) exactly when the product fits and d is not 0, and MathError otherwise. |
| Amm.CheckedMul | programs/polymarket-clone/src/instructions/amm.rs:40-57 | Ok(a·b) exactly when the product fits in u128, and MathError otherwise. |
| Amm.ExpApprox | programs/polymarket-clone/src/instructions/amm.rs:60-104 | It fails only with MathError, and any result is at least FP_SCALE plus the clamped argument. That it never fails, and its value, are in `Amm.ExpApproxValue` and `Amm.ExpApproxBounds`. |
| Amm.ExpApproxValue | programs/polymarket-clone/src/instructions/amm.rs:60-104 | `exp_approx` never fails. It equals the unbounded-integer series at the clamped argument, so none of its checked steps overflows. |
| Amm.ExpApproxClamp | programs/polymarket-clone/src/instructions/amm.rs:61-63 | Any argument above 20·FP_SCALE gives the value at 20·FP_SCALE. |
| Amm.ExpApproxAtZero | programs/polymarket-clone/src/instructions/amm.rs:60-104 | exp_approx(0) is FP_SCALE. |
| Amm.ExpApproxBounds | programs/polymarket-clone/src/instructions/amm.rs:65-103 | The result is at least FP_SCALE plus the clamped argument, and below 4·10^10. |
| Amm.ExpApproxMonotone | programs/polymarket-clone/src/instructions/amm.rs:60-104 | exp_approx is non-decreasing. |
| Amm.ExpSeriesMonotone | programs/polymarket-clone/src/instructions/amm.rs:65-103 | The unbounded truncated series is non-decreasing in its argument. |
| Amm.PowersBounded | programs/polymarket-clone/src/instructions/amm.rs:65-103 | At or below the clamp, every truncated power and every product the series forms stays below its stated bound. The whole series stays below 4·10^10, so no checked multiplication or addition of exp_approx can overflow u128. |
| Amm.LnApprox | programs/polymarket-clone/src/instructions/amm.rs:106-147 | MathError for y <= FP_SCALE, and no error kind other than MathError. Its value is in `Amm.LnApproxConstant`. |
| Amm.LnApproxConstant | programs/polymarket-clone/src/instructions/amm.rs:106-147 | MathError for y <= FP_SCALE (y equal to FP_SCALE through the zero divisor), and MathError when (y-FP_SCALE)·FP_SCALE overflows. Otherwise the result is the constant 2·(S + S/3 + S/5), whatever y is. |
| Amm.LsmrCost | programs/polymarket-clone/src/instructions/amm.rs:28-58 | InvalidArgument exactly when b = 0, and otherwise only MathError. Its value is in `Amm.LsmrCostValue`. |
| Amm.LsmrCostValue | programs/polymarket-clone/src/instructions/amm.rs:28-58 | `lsmr_cost` is InvalidArgument for b = 0, MathError when a scaled quantity or b·L overflows, and otherwise b·L / FP_SCALE, independent of the quantities. |
| Amm.LsmrOfScaledValue | programs/polymarket-clone/src/instructions/amm.rs:40-57 | Once the quantities are scaled, the ln argument is at least two units, so the cost is b·L / FP_SCALE or MathError. |
| Amm.CostDifferenceOfEqual | programs/polymarket-clone/src/instructions/amm.rs:6-26 | Two costs that agree whenever both succeed differ by 0, or the first error. |
| Amm.ClosedFormDifference | programs/polymarket-clone/src/instructions/amm.rs:6-26 | Raising one quantity leaves the closed-form cost unchanged, so the difference is 0 unless b = 0 or a product overflows. |
| Amm.AmmCostToYes | programs/polymarket-clone/src/instructions/amm.rs:6-15 | Fails only with InvalidArgument, which needs b = 0, or MathError. Its value is in `Amm.AmmCostToYesValue`. |
| Amm.AmmCostToNo | programs/polymarket-clone/src/instructions/amm.rs:17-26 | The same for No. Its value is in `Amm.AmmCostToNoValue`. |
| Amm.AmmCostToYesValue | programs/polymarket-clone/src/instructions/amm.rs:6-15 | `amm_cost_to_yes` is MathError when q_yes+Δ overflows, InvalidArgument for b = 0, MathError on an overflowing product, and 0 otherwise. |
| Amm.AmmCostToNoValue | programs/polymarket-clone/src/instructions/amm.rs:17-26 | The same for `amm_cost_to_no`. |
| Amm.AmmExecuteBuy | programs/polymarket-clone/src/instructions/amm.rs:149-177 | A zero quantity never fails. Errors are InvalidArgument or MathError. On success exactly the bought side's reserve grows, by exactly the quantity: Yes for outcome 0, No for any other byte. The cost is in `Amm.AmmExecuteBuyEffect`. |
| Amm.AmmExecuteBuyEffect | programs/polymarket-clone/src/instructions/amm.rs:149-177 | Quantity 0 costs 0 and keeps both reserves. A buy that succeeds costs 0 and raises exactly one reserve by the quantity: Yes for outcome 0, No for any other byte. For b = 0 it fails with MathError or InvalidArgument as the source orders them. |
| Amm.AmmPricePerToken | programs/polymarket-clone/src/instructions/amm.rs:179-218 | MathError for b = 0, no error other than MathError, and any price is at most one unit. That the two prices sum to one unit is in `Amm.PricesSumToOne`. |
| Amm.PricesSumToOne | programs/polymarket-clone/src/instructions/amm.rs:179-218 | The Yes price fails exactly when the No price does: b = 0 or a scaled quantity overflows, giving MathError. Otherwise the two prices add up to FP_SCALE exactly, and each is at most FP_SCALE. |
| Amm.PriceOfScaledSum | programs/polymarket-clone/src/instructions/amm.rs:190-217 | Once the quantities are scaled, both prices succeed and add up to FP_SCALE. |
| Amm.PriceShare | programs/polymarket-clone/src/instructions/amm.rs:196-217 | Fails only with MathError, and any share is at most one unit. |
| Amm.PriceShareSum | programs/polymarket-clone/src/instructions/amm.rs:196-217 | Shares of two exponentials in range add up to FP_SCALE, each at most FP_SCALE. |
| LegacyBook.CheckedAdd | programs/polymarket-clone/src/utils.rs:6-13 | Ok(a+b) exactly when the sum fits in u64, and MathError otherwise. |
| LegacyBook.CheckedSub | programs/polymarket-clone/src/utils.rs:15-17 | Ok(a-b) exactly when b <= a, and MathError otherwise. |
| LegacyBook.CheckedAddSub | programs/polymarket-clone/src/utils.rs:6-17 | Subtracting what was added gives the first operand back, and adding back what was subtracted does too. |
| LegacyBook.Slab.FindBestNodeIndex | programs/polymarket-clone/src/utils.rs:19-21 | Always Ok(head_index). That is -1 exactly on an empty list, and otherwise the best node: no listed key beats it. |
| LegacyBook.Slab.AllocateNode | programs/polymarket-clone/src/utils.rs:23-41 | Free-list path: it returns `free_head` and advances it. It clears that slot's `next` and leaves `occupied` as it was. The counter is bumped with MathError on u32 overflow. Scan path: it claims the lowest unoccupied slot. MathError with nothing changed when every slot is occupied. |
| LegacyBook.Slab.FreeANode | programs/polymarket-clone/src/utils.rs:44-58 | Clears `occupied`, `owner`, `quantity`, `key`, `order_id` and `time_stamp`. Pushes the slot onto the front of the free list. Drops the count with MathError at 0. Does not unlink the slot from the price list. An index outside the array is Panic. |
| LegacyBook.Slab.FindMatchingNode | programs/polymarket-clone/src/utils.rs:60-85 | None on an empty list. Otherwise the first listed node whose key is >= p (bid flag) or <= p (ask flag), or None when there is none. |
| LegacyBook.Slab.SlabInsertNode | programs/polymarket-clone/src/utils.rs:87-131 | The node joins the list at the first position whose key it strictly beats: higher for bids, lower for asks. So it lands after every equal key. The list stays sorted and doubly linked from `head_index`, and grows by exactly that node. Other nodes change only in their links. |
| LegacyBook.Slab.LinkOnly | programs/polymarket-clone/src/utils.rs:89-94 | On an empty list the node becomes the whole list. |
| LegacyBook.Slab.LinkBefore | programs/polymarket-clone/src/utils.rs:108-118 | The node is spliced in before the first node it beats, and becomes the head when that node was the head. |
| LegacyBook.Slab.LinkLast | programs/polymarket-clone/src/utils.rs:126-128 | The node is appended after the last node. |
| LegacyBook.Slab.Unlink | programs/polymarket-clone/src/instructions/cancel_order.rs:67-79 | The predecessor's `next`, or `head_index` when there is no predecessor, takes the node's `next`. The successor's `prev` takes the node's `prev`. The list loses exactly that position, and the other nodes keep their order. |
| LegacyBook.MatchFrom | programs/polymarket-clone/src/utils.rs:67-84 | The first position at or after i whose key crosses p, or the list's end: no earlier position crosses. |
| LegacyBook.InsertFrom | programs/polymarket-clone/src/utils.rs:99-123 | The first position at or after i whose key the new key strictly beats, or the list's end. |
| LegacyBook.MatchAtHead | programs/polymarket-clone/src/utils.rs:60-85 | In a list sorted for its own side, the first crossing node is the head or none at all. |
| LegacyBook.InsertAfterEqual | programs/polymarket-clone/src/utils.rs:99-137 | Every listed node with a key equal to the inserted one stays before it. |
| LegacyBook.SplicedWf | programs/polymarket-clone/src/utils.rs:87-131 | Splicing a detached node into its sorted position keeps the slab well formed: both threads, sorting, occupancy. |
| LegacyBook.CutWf | programs/polymarket-clone/src/instructions/cancel_order.rs:71-79 | Unlinking a position keeps the other nodes threaded and sorted in the same order, and the cut node is untouched. |
| LegacyBook.FreedWf | programs/polymarket-clone/src/utils.rs:44-58 | Freeing a detached slot puts it on the front of the free list and keeps the slab well formed. |
| LegacyBook.PoppedWf | programs/polymarket-clone/src/utils.rs:24-30 | Taking the free-list head off keeps the slab well formed. |
| LegacyBook.ClaimedWf | programs/polymarket-clone/src/utils.rs:31-40 | Claiming an unoccupied slot with no free list keeps the slab well formed. |
| LegacyBook.DetachedWrite | programs/polymarket-clone/src/instructions/place_limit_order.rs:230-246 | Writing a slot on neither list keeps the slab well formed, and does not move the insert position of any key. |
| LegacyBook.ListedNotFree | programs/polymarket-clone/src/utils.rs:44-58 | No node of the price list is on the free list. |
| LegacyOrders.SideByte | programs/polymarket-clone/src/instructions/place_limit_order.rs:110-113 | 0 exactly for Buy, and otherwise 1. |
| LegacyOrders.FillEvent | programs/polymarket-clone/src/instructions/place_limit_order.rs:104-117 | A Fill taken by the trader, with the order's side byte, outcome and time. The maker and order id are the node's, and the quantity is the fill's. |
| LegacyOrders.FillPrice | programs/polymarket-clone/src/instructions/place_limit_order.rs:104-117 | A legacy fill is priced at its maker's key: the key itself when it fits in 64 bits, and its low 64 bits otherwise. |
| LegacyOrders.CancelEvent | programs/polymarket-clone/src/instructions/cancel_order.rs:106-116 | A Cancel with the position owner as maker, the default taker and side 0. The node's reserved outcome is the quantity, and its reserved USDC the price, with the order id, outcome and time. |
| LegacyOrders.ReduceReserve | programs/polymarket-clone/src/instructions/place_limit_order.rs:123-138 | A USDC reserve drops by key·q / scale, cast to u64. Otherwise an outcome reserve drops by q. MathError when that would go negative or the product overflows. Only the reserve fields change. |
| LegacyOrders.TotalAppend | programs/polymarket-clone/src/instructions/place_limit_order.rs:140 | An appended event adds its quantity to the total. |
| LegacyOrders.SlotOneAlwaysFree | programs/polymarket-clone/src/instructions/place_limit_order.rs:250-251 | The bit the scan reads for slot 1 is 0 whatever the bitmap. |
| LegacyOrders.FindFreeSlot | programs/polymarket-clone/src/instructions/place_limit_order.rs:249-256 | The first slot in 1..16 whose bit the scan reads is zero, or None when there is none. |
| LegacyOrders.TakeSlot | programs/polymarket-clone/src/instructions/place_limit_order.rs:248-268 | Bit 1 is set, and `order_ids[1]` takes the id when the overflow check passes. MathError when `active_orders` + 1 overflows u8. `active_orders` itself never changes. |
| LegacyOrders.FillOnce | programs/polymarket-clone/src/instructions/place_limit_order.rs:93-175 | It stops with Ok(None) exactly when no listed node crosses the remaining quantity (the bound `find_matching_node` is given), and then nothing changes. Otherwise it makes one fill of at most what is left, appending its event. It either fills everything left or shortens the list. The only errors are EventQueueFull and MathError. In every case it is one turn of the reference run `MatchRun`: a failure fails the run with the same error, and a stop ends it here. A fill leaves the run on the new state with the fill appended. |
| LegacyOrders.FillAt | programs/polymarket-clone/src/instructions/place_limit_order.rs:97-172 | It succeeds exactly when the event list has room, the maker's reserve covers the fill, the count does not overflow and, for a full fill, the slab count is positive. It appends one Fill event of min(maker quantity, remaining). A partial fill leaves the slab as it was. A full fill unlinks and frees the maker. |
| LegacyOrders.TakeOut | programs/polymarket-clone/src/instructions/place_limit_order.rs:153-167 | The node leaves the price list, and its slot goes onto the front of the free list. The count drops by one, with MathError at zero. |
| LegacyOrders.MatchOrder | programs/polymarket-clone/src/instructions/place_limit_order.rs:93-176 | The loop fails exactly when the reference run `MatchRun` from the old slab and queue fails, and with the same error. On success its fills, its remainder and the slab's final list, nodes, free head and count are the run's. The fills plus the remainder equal the quantity, all fills are taken by this trader, and no node crosses a positive remainder. |
| LegacyOrders.PlaceRest | programs/polymarket-clone/src/instructions/place_limit_order.rs:178-246 | A buy's reserve overflow is MathError with nothing changed. A sell without an outcome account is InsufficientBalance with nothing changed. Otherwise: a node with the price, owner, remainder, slot id, outcome and time joins the list at its sorted position. Its `reserved_usdc` is price·left / scale (cast to u64) for a buy. Its `reserved_outcome` is left for a sell. |
| LegacyOrders.WriteAndLink | programs/polymarket-clone/src/instructions/place_limit_order.rs:231-246 | The written node joins the list at its sorted position. |
| LegacyOrders.PlaceLimitOrder | programs/polymarket-clone/src/instructions/place_limit_order.rs:73-271 | A market that is not Open gives MarketNotOpen with nothing changed. Otherwise a Buy matches against the asks and a Sell against the bids. The result is the reference run `MatchRun` on that slab: its error on failure; on success its fills, remainder and final slab, and on a sorted book `Swept`. So the exhausted makers from the head are filled in list order, each for its whole quantity at its own key, and unlinked and freed; at most one more is filled for the rest; the others keep their place and payload. One event per fill is appended, and `count` grows by their number. A positive remainder rests on the own side at its sorted position and is recorded in slot 1 of the position. Nothing rests when the order filled completely. |
| LegacyOrders.PlaceAgainst | programs/polymarket-clone/src/instructions/place_limit_order.rs:84-270 | The same, for an open market, on the chosen opposite and target slabs: the opposite slab ends as `MatchRun` leaves it, and as `Swept` describes when its side is the crossing side. |
| LegacyOrders.FillFound | programs/polymarket-clone/src/instructions/place_limit_order.rs:97-172 | Once the crossing node at position k is found, it makes one fill whose event is the maker's `FillEvent` for at most what is left. The error kinds, the continuation of `MatchRun` and the list facts are as for `FillOnce`. |
| LegacyOrders.FilledFails | programs/polymarket-clone/src/instructions/place_limit_order.rs:119-151 | A failed fill, as `FilledFrom` describes it, fails the reference run with the same error. |
| LegacyOrders.FilledFills | programs/polymarket-clone/src/instructions/place_limit_order.rs:97-172 | A successful fill, as `FilledFrom` describes it, continues the reference run from the new slab, the new event count and what is left. |
| LegacyOrders.TurnOf | programs/polymarket-clone/src/instructions/place_limit_order.rs:93-175 | One turn of the reference run. A full fill leaves a well-formed list one node shorter. |
| LegacyOrders.NoCrossStops | programs/polymarket-clone/src/instructions/place_limit_order.rs:173-175 | With no node crossing the remainder, the run stops at once with the slab unchanged. |
| LegacyOrders.MatchRunFails | programs/polymarket-clone/src/instructions/place_limit_order.rs:119-151 | A turn whose fill fails fails the run with that error. |
| LegacyOrders.MatchRunFills | programs/polymarket-clone/src/instructions/place_limit_order.rs:97-172 | A turn that fills hands the run on, from the state after that fill. |
| LegacyOrders.MatchRunFull | programs/polymarket-clone/src/instructions/place_limit_order.rs:153-172 | A turn that exhausts its maker continues the run on the slab without it. |
| LegacyOrders.TurnAtHeadPartial | programs/polymarket-clone/src/instructions/place_limit_order.rs:94-102 | On a list sorted for the crossing side, a partial turn fills the head, for all that is left. |
| LegacyOrders.TurnAtHeadFull | programs/polymarket-clone/src/instructions/place_limit_order.rs:94-102 | On a sorted list, a full turn fills the head for its whole quantity and leaves `HeadCut` of the slab, which is still sorted. |
| LegacyOrders.FullAtHead | programs/polymarket-clone/src/instructions/place_limit_order.rs:153-172 | On a sorted list, a run whose first turn exhausts the head is the run on the slab without the head. |
| LegacyOrders.HeadCutSorted | programs/polymarket-clone/src/instructions/place_limit_order.rs:153-166 | Unlinking and freeing the head keeps the rest of the list well-formed and sorted. |
| LegacyOrders.HeadCutPayload | programs/polymarket-clone/src/instructions/place_limit_order.rs:153-166 | Unlinking and freeing the head changes only the links of the other listed nodes. |
| LegacyOrders.SweptNone | programs/polymarket-clone/src/instructions/place_limit_order.rs:173-175 | A run that stops at once has swept nothing. |
| LegacyOrders.SweptPartial | programs/polymarket-clone/src/instructions/place_limit_order.rs:98-99 | A run whose first fill is partial swept only that fill, and used up what was left. |
| LegacyOrders.SweptStep | programs/polymarket-clone/src/instructions/place_limit_order.rs:153-172 | Filling the head completely and then sweeping the rest sweeps the whole list. |
| LegacyOrders.SortedRun | programs/polymarket-clone/src/instructions/place_limit_order.rs:93-176 | On a sorted list, a run that does not fail sweeps from the head: the exhausted makers in list order, each with its full quantity, then at most one partial fill that uses up the remainder. The untouched makers keep their order and payload. |
| LegacyOrders.RestOrder | programs/polymarket-clone/src/instructions/place_limit_order.rs:178-268 | A positive remainder rests: a node with the price, the remainder, the position key and the slot id joins the own list at its sorted position, and slot 1 of the position records it. The only errors are MathError and InsufficientBalance. |
| LegacyOrders.CancelIn | programs/polymarket-clone/src/instructions/cancel_order.rs:60-86 | The first listed occupied node with the id is unlinked and freed, and a copy of it is returned. When there is none: Ok(None) and nothing changes. |
| LegacyOrders.OrderFrom | programs/polymarket-clone/src/instructions/cancel_order.rs:60-86 | The first listed position at or after i holding an occupied node with the id, or the list's end when there is none. |
| LegacyOrders.CancelInEither | programs/polymarket-clone/src/instructions/cancel_order.rs:59-91 | The asks are searched first, then the bids. The other slab is untouched. |
| LegacyOrders.SlotFrom | programs/polymarket-clone/src/instructions/cancel_order.rs:44-53 | The first slot at or after i holding the id, or the end when there is none. |
| LegacyOrders.RecordCancel | programs/polymarket-clone/src/instructions/cancel_order.rs:95-123 | The slot's id becomes 0 and only its bit is cleared. It succeeds exactly when `active_orders` is positive, the event list has room and the count does not overflow. A zero `active_orders` is MathError, and otherwise a full list is EventQueueFull. On success `active_orders` drops by one. One Cancel event is appended: the position owner is the maker, the reserved outcome is its quantity, and the reserved USDC is its price. `count` grows by one. |
| LegacyOrders.CancelAt | programs/polymarket-clone/src/instructions/cancel_order.rs:55-123 | For the slot the id was found in, it does what `Cancelled` says: OrderNotFound with nothing written when neither slab lists the id, otherwise removal, slot cleanup and the Cancel event. |
| LegacyOrders.CancelOrder | programs/polymarket-clone/src/instructions/cancel_order.rs:41-126 | An id that is not in slots 1..15 gives OrderNotFound with nothing changed. Otherwise it does what `CancelAt` does. The only errors are OrderNotFound, MathError and EventQueueFull. |
| Intake.ReservedQuote | programs/polymarket-clone/src/instructions/place_request.rs:72-77 | MathError exactly when price·quantity overflows u128. Otherwise it is floor(price·quantity / scale) whenever that fits in 64 bits, and that quotient modulo 2^64 for every input. |
| Intake.ReservedQuoteTruncates | programs/polymarket-clone/src/instructions/place_request.rs:72-77 | A product that fits in u128 can divide down to more than 64 bits. The reserve then keeps only the low part. |
| Intake.Locking | programs/polymarket-clone/src/instructions/place_request.rs:63-131 | The checks stop at the first failure, in the source's order. InvalidSide unless the side is 0 or 1. Then InvalidArgument for a zero price or quantity. A buy then fails with the reserve's own MathError, then with InsufficientBalance when the reserved quote exceeds the USDC balance, and then with MathError only when the u128 add overflows. Otherwise it succeeds, and `locked_quote` grows by exactly the reserved quote while `locked_base` stays. A sell fails with MathError without an outcome account, then with InsufficientBalance when the quantity exceeds its balance, then with InvalidSide for an outcome other than 0 or 1, and then with MathError only on the u128 add. Otherwise it succeeds, and `locked_base` grows by the quantity while `locked_quote` stays. |
| Intake.LockingGrowsOneSide | programs/polymarket-clone/src/instructions/place_request.rs:71-131 | A successful locking raises exactly one of the two balances. |
| Intake.PlacedRequest | programs/polymarket-clone/src/instructions/place_request.rs:133-144 | The request carries the arguments as given, including the unchecked request type. The signer is its owner and the current slot its order id. |
| Intake.PlaceOrder | programs/polymarket-clone/src/instructions/place_request.rs:58-149 | A failed check returns that error with nothing changed. Otherwise: the balances become those `Locking` gives. The queue gains exactly `PlacedRequest` at its back, or the call fails with RequestQueueFull and the queue untouched. |
| Intake.PlaceOrderTransaction | programs/polymarket-clone/src/instructions/place_request.rs:58-149 | As the runtime applies the handler, a failure keeps none of its writes. |
| Intake.CancelRequest | programs/polymarket-clone/src/instructions/cancel_request.rs:21-32 | Type CancelOrder, with the signer and the id, and every other field zero or the default key. |
| Intake.CancelOrderRequest | programs/polymarket-clone/src/instructions/cancel_request.rs:20-36 | Any id is accepted. The queue gains exactly that request at its back, or the call fails with RequestQueueFull and the queue unchanged. |
| Lifecycle.WriteTerms | programs/polymarket-clone/src/instructions/initialize_market.rs:164-188 | The market's terms are written: status Open, q_yes = q_no = 0, b_liquidity 100000, the fees copied, and the admin as creator and oracle. |
| Lifecycle.WriteAccounts | programs/polymarket-clone/src/instructions/initialize_market.rs:171-181 | The account addresses are recorded in the market. |
| Lifecycle.WriteMarket | programs/polymarket-clone/src/instructions/initialize_market.rs:164-188 | Every recorded field of the market is configured from the arguments, accounts and bumps, and `amm_pool` is left as it was. |
| Lifecycle.ResetQueues | programs/polymarket-clone/src/instructions/initialize_market.rs:190-198 | Both queues are empty with head 0. |
| Lifecycle.InitializeBooks | programs/polymarket-clone/src/instructions/initialize_market.rs:200-205 | The asks become an empty ask book (`is_bid` false), and the bids an empty bid book. |
| Lifecycle.SetUp | programs/polymarket-clone/src/instructions/initialize_market.rs:164-205 | The market is configured, with `amm_pool` untouched, both queues are emptied, and both books are empty. |
| Lifecycle.InitializeMarket | programs/polymarket-clone/src/instructions/initialize_market.rs:142-208 | InvalidArgument with nothing changed when a fee exceeds 10000, `end_ts` <= now, or the question or description is too long (`ValidMarketParams`, in the source's order). Otherwise Ok, with a configured market, empty queues and two empty books. |
| Lifecycle.WinnerStatus | programs/polymarket-clone/src/instructions/resolve_market.rs:22-26 | Byte 0 is Resolved(Yes), byte 1 is Resolved(No), and no other byte names an outcome. |
| Lifecycle.ResolveMarket | programs/polymarket-clone/src/instructions/resolve_market.rs:17-29 | A signer other than the creator gives Unauthorized with the status unchanged. Otherwise Ok: winner 0 or 1 sets that outcome whatever the status was, and any other byte leaves the status unchanged. |

## Left out

- Token custody is left out: every CPI `transfer`, `mint_to` and `burn` is done by the external token program. The balances a handler reads are parameters, including `from_usdc.amount`, the outcome account's amount, and the presence of the outcome account.
- `place_market_order.rs` is left out, because its pricing uses `f64` `exp`/`ln`.
- Anchor wiring is left out: account structs, PDA seeds, bumps and rent. `Clock::get()` is the parameters `now` and `slot`, and the bumps are parameters.
- `initialise_market.rs`, `openorders.rs`, `consume_events.rs` (whose body is empty), `split_tokens.rs`, `merge_tokens.rs`, `claim_rewards.rs`, `settle_funds.rs`, `deposit.rs`, `lib.rs` and the `mod.rs` files are not part of this model. They only assign fields, move tokens or wire modules.
- Both slab types, the queues and the market are fixed-layout accounts. Their serialized byte layouts are not modelled, and strings are Dafny strings whose length stands for the UTF-8 byte length `len()` returns.
- ArenaSlab.Slab.InsertFixup: proves the root black and the search-tree order only. The full red-black invariants (no red node with a red child, equal black heights) are not stated, because a reachable book need not satisfy them, so `Valid()` cannot carry them. delete_fixup (programs/polymarket-clone/src/utils/slab.rs:285-288) counts a sibling as having two black children only when both are non-null. A sibling with two null children therefore takes the rotation branch instead of being recoloured red. Example: removing the black left leaf of a black root whose black right child has no children leaves that child as a black root over a black node on one side and nothing on the other, so the black heights differ. An insert-only preservation lemma would need black heights threaded through every rotation case of the array tree, and is not part of this model.
- ArenaSlab.Slab.DeleteFixup: the source treats a null nephew as "not black", so balance after removal is not guaranteed. The model proves only order, key membership and a black root.
- ArenaSlab.Slab.RemovePriceNode: requires that an in-range index is an occupied tree node. The source never checks this, and its only callers would pass a tree node; on an unoccupied slot the source would corrupt the tree, and that is not modelled.
- ArenaSlab.Slab.AppendOrder: requires that an entry in range is occupied and on no chain. This is the only way the matching instruction calls it, right after `allocate_order_entry`.
- MatchingSpec.Step: the pure specification has no slab capacity and no event-queue capacity. The methods tie their `Ok` results to it, and a full slab or a full event queue shows up as an `Err` of the method. `Step` and `Process` name no error other than MathError. The methods state when they succeed only for batches of cancel requests; for limit requests, success also depends on free slab slots, which the specification does not track.
- MatchingSpec.Limit: states only its error kind. Its results are stated by `MatchingSpec.LimitStep` and the lemmas about `Cross` and `Rest`.
- Matching.RestOrder: computes the reserved amount before writing the entry's fields. The source computes it while writing them, after `order_id`, `open_order_owner`, `quantity` and `owner_slot`. This only matters on the error path, whose writes the runtime discards.
- The `checked_sub` of match_request.rs:115-117 never fails, because the matched amount is at most what is left. The model subtracts directly. Likewise the `ok_or` of match_request.rs:68 is unreachable.
- `append_order_to_price` cannot fail in the resting path of match_request.rs:162: the price node comes from the insert and the entry from the allocation.
- The legacy `Slab` is assumed to start empty on both of its lists (`LegacyBook.Slab.constructor`), because the program never initializes this account type.
- LegacyOrders.TakeSlot: the `MaxOrderReached` branch of place_limit_order.rs:258-260 is unreachable (`LegacyOrders.SlotOneAlwaysFree`), so no contract mentions it.
- OpenOrder's `slots` array and `slots_bitmaps` are not used by the modelled handlers beyond their initial value.
- The AMM reserves are not updated by matching: match_request.rs never calls `amm_execute_buy`. `amm_execute_buy` updates its `&mut` reserves, which the model returns as new values (`Amm.Buy`).
- On a failed instruction the model does not restore the state: the writes made so far stand. This holds everywhere outside `Intake.PlaceOrderTransaction`. The runtime discards them, and contracts only promise an unchanged state where the source checks before writing.
- LegacyOrders.FillEvent: its contract does not state the price, which the body sets to the node key modulo 2^64 (place_limit_order.rs:109). That fact is the separate lemma `LegacyOrders.FillPrice`, because the matching proofs expand `FillEvent`'s contract at every fill and the extra clause makes them too costly to check.

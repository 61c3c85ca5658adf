/** The older, synchronous order path: place_limit_order.rs matches an
    incoming limit order against the opposite slab of utils.rs at once and
    rests what is left on its own side; cancel_order.rs takes a resting
    order out again. Both record what they did in a growable event list
    (state/orderbook.rs) and in the trader's position account
    (state/trader_position.rs). */
module LegacyOrders {
  import opened Common
  import opened MarketState
  import opened LegacyBook

  datatype EventType = Fill | Cancel

  /** state/orderbook.rs `Event`; the handlers also write an `outcome`,
      which the struct does not declare, so it is an extra field here. */
  datatype Event = Event(eventType: EventType, maker: Pubkey, taker: Pubkey, quantity: u64, price: u64,
                         side: u8, orderId: u64, outcome: OutcomeSide, timeStamp: i64)

  const NO_EVENT := Event(Fill, DEFAULT_KEY, DEFAULT_KEY, 0, 0, 0, 0, Yes, 0)

  /** state/orderbook.rs `EventQueue`: a `Vec` of events with a separate
      `count`; nothing bounds the vector but the handlers' own checks. */
  class EventQueue {
    var head: u64
    var count: u64
    var events: seq<Event>
    var bump: u8

    constructor ()
      ensures head == 0 && count == 0 && events == []
    {
      head, count, events, bump := 0, 0, [], 0;
    }
  }

  /** state/trader_position.rs: bit `i` of `slotsBitmap` marks slot `i` of
      `orderIds` as taken. */
  class TraderPosition {
    var market: Pubkey
    var owner: Pubkey
    var yesShares: u128
    var noShares: u128
    var pendingUsdc: u128
    var activeOrders: u8
    var slotsBitmap: bv128
    const orderIds: array<u64>
    var bump: u8

    /** The account as `init` creates it: all zero. */
    constructor (market: Pubkey, owner: Pubkey)
      ensures this.market == market && this.owner == owner && activeOrders == 0 && slotsBitmap == 0
      ensures fresh(orderIds) && orderIds.Length == MAX_ORDER_PER_TRADER
      ensures forall i :: 0 <= i < orderIds.Length ==> orderIds[i] == 0
    {
      this.market, this.owner := market, owner;
      yesShares, noShares, pendingUsdc, activeOrders, slotsBitmap, bump := 0, 0, 0, 0, 0, 0;
      orderIds := new u64[MAX_ORDER_PER_TRADER](_ => 0);
    }
  }

  datatype LimitOrderParams = LimitOrderParams(orderSide: OrderSide, outcome: OutcomeSide, price: u64,
                                               quantity: u64, marketId: u64)

  /** The event's side byte: 0 for Buy, 1 for Sell. */
  function SideByte(s: OrderSide): (b: u8)
    ensures b == 0 <==> s == Buy
    ensures b <= 1
  {
    match s
    case Buy => 0
    case Sell => 1
  }

  /** The fill event place_limit_order writes for `q` units taken from
      maker node `n`; `n.key as u64` keeps the low 64 bits of the key. */
  function FillEvent(n: SlabNode, q: u64, taker: Pubkey, side: OrderSide, outcome: OutcomeSide, now: i64): (e: Event)
    ensures FillBy(e, taker, side, outcome, now)
    ensures e.maker == n.owner && e.orderId == n.orderId && e.quantity == q
  {
    Event(Fill, n.owner, taker, q, (n.key % U64_LIMIT) as u64, SideByte(side), n.orderId, outcome, now)
  }

  /** A fill is priced at its maker's key: the key itself whenever it fits
      in 64 bits, its low 64 bits otherwise. Kept apart from `FillEvent`'s
      contract, which the matching proofs expand at every fill. */
  lemma FillPrice(n: SlabNode, q: u64, taker: Pubkey, side: OrderSide, outcome: OutcomeSide, now: i64)
    ensures FillEvent(n, q, taker, side, outcome, now).price as int == n.key % U64_LIMIT
    ensures n.key < U64_LIMIT ==> FillEvent(n, q, taker, side, outcome, now).price == n.key
  {
  }

  /** The cancel event cancel_order writes for the removed node `n`: the
      reserved outcome amount goes in `quantity`, the reserved USDC in
      `price`. */
  function CancelEvent(owner: Pubkey, n: SlabNode, orderId: u64, now: i64): (e: Event)
    ensures e.eventType == Cancel && e.maker == owner && e.taker == DEFAULT_KEY && e.side == 0
    ensures e.quantity == n.reservedOutcome && e.price == n.reservedUsdc
    ensures e.orderId == orderId && e.outcome == n.outcome && e.timeStamp == now
  {
    Event(Cancel, owner, DEFAULT_KEY, n.reservedOutcome, n.reservedUsdc, 0, orderId, n.outcome, now)
  }

  /** A fill event taken by `taker`. */
  predicate FillBy(e: Event, taker: Pubkey, side: OrderSide, outcome: OutcomeSide, now: i64)
  {
    e.eventType == Fill && e.taker == taker && e.side == SideByte(side) && e.outcome == outcome && e.timeStamp == now
  }

  /** The total quantity of a list of events. */
  function TotalQuantity(es: seq<Event>): nat
  {
    if es == [] then 0 else TotalQuantity(es[..|es| - 1]) + es[|es| - 1].quantity
  }

  lemma TotalAppend(es: seq<Event>, e: Event)
    ensures TotalQuantity(es + [e]) == TotalQuantity(es) + e.quantity
  {
    assert (es + [e])[..|es|] == es;
  }

  /** The maker copy's reserve after a fill of `q`
      (place_limit_order.rs:123-138): a USDC reserve drops by
      `key * q / PRICE_PRECISION_SCALE` truncated to 64 bits, with the
      product checked in u128; otherwise an outcome reserve drops by `q`;
      MathError when the product overflows or the reserve does not cover
      the reduction. */
  function ReduceReserve(n: SlabNode, q: u64): (r: Result<SlabNode>)
    ensures r.Err? ==> r.error == MathError && (n.reservedUsdc > 0 || n.reservedOutcome > 0)
    ensures r.Ok? ==> r.value.(reservedUsdc := n.reservedUsdc, reservedOutcome := n.reservedOutcome) == n
    ensures r.Ok? && n.reservedUsdc > 0 ==>
      r.value.reservedOutcome == n.reservedOutcome &&
      r.value.reservedUsdc as int == n.reservedUsdc - (n.key * q / PRICE_PRECISION_SCALE) % U64_LIMIT
    ensures r.Ok? && n.reservedUsdc == 0 ==>
      r.value.reservedUsdc == 0 && r.value.reservedOutcome as int == n.reservedOutcome - (if n.reservedOutcome > 0 then q else 0)
  {
    if n.reservedUsdc > 0 then
      if n.key * q as u128 >= U128_LIMIT then Err(MathError)
      else
        var reducedUsdc := ((n.key * q as u128 / PRICE_PRECISION_SCALE) % U64_LIMIT) as u64;
        if reducedUsdc > n.reservedUsdc then Err(MathError)
        else Ok(n.(reservedUsdc := n.reservedUsdc - reducedUsdc))
    else if n.reservedOutcome > 0 then
      if q > n.reservedOutcome then Err(MathError)
      else Ok(n.(reservedOutcome := n.reservedOutcome - q))
    else
      Ok(n)
  }

  /** The first position at or after `i` holding an occupied node with
      order id `id` (cancel_order.rs:61-86), or `|l|`. */
  ghost function OrderFrom(ns: seq<SlabNode>, l: seq<i32>, id: u64, i: nat): (k: nat)
    requires i <= |l|
    ensures i <= k <= |l|
    ensures forall j :: i <= j < k ==> !(NodeAt(ns, l, j).occupied && NodeAt(ns, l, j).orderId == id)
    ensures k < |l| ==> NodeAt(ns, l, k).occupied && NodeAt(ns, l, k).orderId == id
    decreases |l| - i
  {
    if i == |l| then i
    else if NodeAt(ns, l, i).occupied && NodeAt(ns, l, i).orderId == id then i
    else OrderFrom(ns, l, id, i + 1)
  }

  /** The first slot at or after `i` holding `id`, or `|ids|`. */
  function SlotFrom(ids: seq<u64>, id: u64, i: nat): (s: nat)
    requires i <= |ids|
    ensures i <= s <= |ids|
    ensures forall j :: i <= j < s ==> ids[j] != id
    ensures s < |ids| ==> ids[s] == id
    decreases |ids| - i
  {
    if i == |ids| then i
    else if ids[i] == id then i
    else SlotFrom(ids, id, i + 1)
  }

  /** The bit place_limit_order checks for slot `i`: bit 0 of the bitmap
      shifted left by `i`, where it meant bit `i` of the bitmap. */
  function SlotBit(bitmap: bv128, i: nat): bv128
    requires i <= 128
  {
    (bitmap << i) & 1
  }

  /** Marks slot `i` taken: `bitmap | (1 << i)`. */
  function SetSlot(bitmap: bv128, i: nat): bv128
    requires i < 128
  {
    bitmap | (1 << i)
  }

  /** Marks slot `i` free: `bitmap & !(1 << i)`. */
  function ClearSlot(bitmap: bv128, i: nat): bv128
    requires i < 128
  {
    bitmap & !(1 << i)
  }

  /** Shifting left by one or more clears bit 0, so the scan finds slot 1
      free whatever the bitmap holds: a second order placed from the same
      position overwrites slot 1, and MaxOrderReached is unreachable. */
  lemma SlotOneAlwaysFree(bitmap: bv128)
    ensures SlotBit(bitmap, 1) == 0
  {
  }

  // ---------------------------------------------------------------------
  // place_limit_order

  /** One turn of the matching loop (place_limit_order.rs:94-175). The
      crossing bound passed to find_matching_node is the remaining
      QUANTITY, not the price. `Ok(None)`: no node crosses, and the loop
      stops. */
  method FillOnce(book: Slab, crossBid: bool, leftQty: u64, side: OrderSide, outcome: OutcomeSide,
                  trader: Pubkey, now: i64, queue: EventQueue, ghost done: seq<Event>)
    returns (r: Result<Option<u64>>, ghost e: Event)
    requires book.Valid() && leftQty > 0
    modifies book`headIndex, book`list, book`freeHead, book`nodeCount, book`free, book.nodes, queue`events, queue`count
    ensures book.Valid()
    ensures r.Err? ==> r.error in {EventQueueFull, MathError}
    ensures r.Ok? && r.value.Some? ==>
      r.value.value <= leftQty && e.quantity == r.value.value && FillBy(e, trader, side, outcome, now) &&
      queue.events == old(queue.events) + [e] && queue.count == old(queue.count) + 1 &&
      |book.list| <= |old(book.list)| && (r.value.value == leftQty || |book.list| < |old(book.list)|)
    ensures r == Ok(None) ==> unchanged(book, book.nodes, queue)
    ensures r == Ok(None) <==> MatchFrom(old(book.nodes[..]), old(book.list), leftQty as u128, crossBid, 0) == |old(book.list)|
    ensures var t := Taker(crossBid, side, outcome, trader, now);
      var run := MatchRun(old(StateOf(book)), |old(queue.events)|, old(queue.count) as int, leftQty, t, done);
      (r.Err? ==> run == Err(r.error)) &&
      (r == Ok(None) ==> run == Ok(Run(StateOf(book), done, leftQty))) &&
      (r.Ok? && r.value.Some? ==>
        run == MatchRun(StateOf(book), |queue.events|, queue.count as int, leftQty - r.value.value, t, done + [e]))
  {
    ghost var s0 := StateOf(book);
    var m := book.FindMatchingNode(leftQty as u128, crossBid);
    if m.None? {
      assert StateOf(book) == s0;
      NoCrossStops(s0, |queue.events|, queue.count as int, leftQty, Taker(crossBid, side, outcome, trader, now), done);
      return Ok(None), NO_EVENT;
    }
    ghost var k := MatchFrom(book.nodes[..], book.list, leftQty as u128, crossBid, 0);
    assert StateOf(book) == s0;
    r, e := FillFound(book, m.value, k, crossBid, leftQty, side, outcome, trader, now, queue, done);
  }

  /** `FillOnce` once the crossing node `index`, at position `k` of the
      list, is found. */
  method FillFound(book: Slab, index: i32, ghost k: nat, crossBid: bool, leftQty: u64, side: OrderSide,
                   outcome: OutcomeSide, trader: Pubkey, now: i64, queue: EventQueue, ghost done: seq<Event>)
    returns (r: Result<Option<u64>>, ghost e: Event)
    requires book.Valid() && leftQty > 0
    requires k == MatchFrom(book.nodes[..], book.list, leftQty as u128, crossBid, 0) < |book.list| && book.list[k] == index
    modifies book`headIndex, book`list, book`freeHead, book`nodeCount, book`free, book.nodes, queue`events, queue`count
    ensures book.Valid()
    ensures r.Err? ==> r.error in {EventQueueFull, MathError}
    ensures r.Ok? ==>
      r.value.Some? && r.value.value <= leftQty && e == FillEvent(old(book.nodes[index]), r.value.value, trader, side, outcome, now) &&
      queue.events == old(queue.events) + [e] && queue.count == old(queue.count) + 1 &&
      |book.list| <= |old(book.list)| && (r.value.value == leftQty || |book.list| < |old(book.list)|)
    ensures var t := Taker(crossBid, side, outcome, trader, now);
      var run := MatchRun(old(StateOf(book)), |old(queue.events)|, old(queue.count) as int, leftQty, t, done);
      (r.Err? ==> run == Err(r.error)) &&
      (r.Ok? ==> run == MatchRun(StateOf(book), |queue.events|, queue.count as int, leftQty - r.value.value, t, done + [e]))
  {
    ghost var before, evs, qc := StateOf(book), queue.events, queue.count as int;
    r := FillAt(book, index, k, leftQty, side, outcome, trader, now, queue);
    assert FilledFrom(before, evs, qc, StateOf(book), queue.events, queue.count as int, k, index, leftQty,
                      side, outcome, trader, now, r);
    if r.Err? {
      e := NO_EVENT;
      FilledFails(before, evs, qc, StateOf(book), queue.events, queue.count as int, k, leftQty,
                  Taker(crossBid, side, outcome, trader, now), done, r);
    } else {
      e := FillEvent(before.nodes[index], r.value.value, trader, side, outcome, now);
      FilledFills(before, evs, qc, StateOf(book), queue.events, queue.count as int, k, leftQty,
                  Taker(crossBid, side, outcome, trader, now), done, r);
    }
  }

  /** What one fill against the node at position `k` (slot `idx`) did,
      from the state before it to the state after it: it succeeds exactly
      when the event list has room, the maker's reserve covers the fill,
      the event count does not overflow and, for a full fill, the slab's
      count is positive; it appends one fill event of min(maker quantity,
      remaining) units; a partial fill leaves the slab as it was, a full
      one unlinks and frees the maker's slot. */
  twostate predicate Filled(book: Slab, k: nat, idx: i32, leftQty: u64, side: OrderSide, outcome: OutcomeSide,
                            trader: Pubkey, now: i64, queue: EventQueue, new r: Result<Option<u64>>)
    reads book, book.nodes, queue
    requires old(allocated(book)) && book.nodes.Length == MAX_SLAB_NODES && 0 <= idx < MAX_SLAB_NODES
    requires old(Indices(book.nodes[..], book.list)) && k < |old(book.list)|
  {
    var n := old(book.nodes[idx]);
    var q := Min(n.quantity, leftQty) as u64;
    (r.Ok? <==> |old(queue.events)| < MAX_EVENTS && ReduceReserve(n, q).Ok? && old(queue.count) + 1 < U64_LIMIT &&
                (q == n.quantity ==> old(book.nodeCount) > 0)) &&
    (r.Err? ==> r.error == if |old(queue.events)| >= MAX_EVENTS then EventQueueFull else MathError) &&
    (r.Ok? ==>
      r == Ok(Some(q)) &&
      queue.events == old(queue.events) + [FillEvent(n, q, trader, side, outcome, now)] &&
      queue.count == old(queue.count) + 1 && queue.head == old(queue.head) &&
      (q < n.quantity ==> (q == leftQty &&
         book.nodes[..] == old(book.nodes[..]) && book.list == old(book.list) && book.free == old(book.free) &&
         book.headIndex == old(book.headIndex) && book.freeHead == old(book.freeHead) &&
         book.nodeCount == old(book.nodeCount))) &&
      (q == n.quantity ==> (
         book.list == Without(old(book.list), k) &&
         book.nodes[..] == Cut(old(book.nodes[..]), old(book.list), k)[idx := Freed(n, old(book.freeHead))] &&
         book.freeHead == idx && book.nodeCount == old(book.nodeCount) - 1)))
  }

  /** `Filled` on the values it relates: the slab state and the event
      list and count before (`s`, `evs`, `qc`) and after (`s'`, `evs'`,
      `qc'`). */
  ghost predicate FilledFrom(s: SlabState, evs: seq<Event>, qc: int, s': SlabState, evs': seq<Event>, qc': int,
                             k: nat, idx: i32, leftQty: u64, side: OrderSide, outcome: OutcomeSide,
                             trader: Pubkey, now: i64, r: Result<Option<u64>>)
    requires Indices(s.nodes, s.list) && k < |s.list| && 0 <= idx < |s.nodes|
  {
    var n := s.nodes[idx];
    var q := Min(n.quantity, leftQty) as u64;
    (r.Ok? <==> |evs| < MAX_EVENTS && ReduceReserve(n, q).Ok? && qc + 1 < U64_LIMIT && (q == n.quantity ==> s.nodeCount > 0)) &&
    (r.Err? ==> r.error == if |evs| >= MAX_EVENTS then EventQueueFull else MathError) &&
    (r.Ok? ==>
      r == Ok(Some(q)) &&
      evs' == evs + [FillEvent(n, q, trader, side, outcome, now)] && qc' == qc + 1 &&
      (q < n.quantity ==> q == leftQty && s' == s) &&
      (q == n.quantity ==> s' == SlabState(Cut(s.nodes, s.list, k)[idx := Freed(n, s.freeHead)], Without(s.list, k),
                                           idx, s.nodeCount - 1)))
  }

  /** A failed fill as `FilledFrom` states it fails the run. */
  lemma FilledFails(s: SlabState, evs: seq<Event>, qc: int, s': SlabState, evs': seq<Event>, qc': int,
                    k: nat, leftQty: u64, t: Taker, done: seq<Event>, r: Result<Option<u64>>)
    requires Indices(s.nodes, s.list) && leftQty > 0 && k == MatchFrom(s.nodes, s.list, leftQty as u128, t.crossBid, 0) < |s.list|
    requires FilledFrom(s, evs, qc, s', evs', qc', k, s.list[k], leftQty, t.side, t.outcome, t.trader, t.now, r)
    requires r.Err?
    ensures MatchRun(s, |evs|, qc, leftQty, t, done) == Err(r.error)
  {
    MatchRunFails(s, |evs|, qc, leftQty, t, done, k);
  }

  /** A fill as `FilledFrom` states it hands the run on to the slab it
      leaves. */
  lemma FilledFills(s: SlabState, evs: seq<Event>, qc: int, s': SlabState, evs': seq<Event>, qc': int,
                    k: nat, leftQty: u64, t: Taker, done: seq<Event>, r: Result<Option<u64>>)
    requires Indices(s.nodes, s.list) && leftQty > 0 && k == MatchFrom(s.nodes, s.list, leftQty as u128, t.crossBid, 0) < |s.list|
    requires Indices(s'.nodes, s'.list)
    requires FilledFrom(s, evs, qc, s', evs', qc', k, s.list[k], leftQty, t.side, t.outcome, t.trader, t.now, r)
    requires r.Ok?
    ensures r.value.Some? && r.value.value <= leftQty
    ensures MatchRun(s, |evs|, qc, leftQty, t, done) ==
            MatchRun(s', |evs'|, qc', leftQty - r.value.value, t,
                     done + [FillEvent(s.nodes[s.list[k]], r.value.value, t.trader, t.side, t.outcome, t.now)])
  {
    var n := s.nodes[s.list[k]];
    var q := Min(n.quantity, leftQty) as u64;
    assert r == Ok(Some(q));
    MatchRunFills(s, |evs|, qc, leftQty, t, done, k, q, s');
  }

  /** The body of the matching loop for the crossing node `index` at
      position `k` (place_limit_order.rs:97-172). The maker node is read
      into a copy; only when the copy's quantity reaches zero does the
      slab change, so a partial fill's reduced quantity and reserves are
      never written back. */
  method FillAt(book: Slab, index: i32, ghost k: nat, leftQty: u64, side: OrderSide, outcome: OutcomeSide,
                trader: Pubkey, now: i64, queue: EventQueue) returns (r: Result<Option<u64>>)
    requires book.Valid() && k < |book.list| && book.list[k] == index
    modifies book`headIndex, book`list, book`freeHead, book`nodeCount, book`free, book.nodes, queue`events, queue`count
    ensures book.Valid()
    ensures r.Ok? ==> r.value.Some?
    ensures Filled(book, k, index, leftQty, side, outcome, trader, now, queue, r)
  {
    var node := book.nodes[index];
    var matchQuantity := if node.quantity > leftQty then leftQty else node.quantity;
    var ev := Event(Fill, node.owner, trader, matchQuantity, (node.key % U64_LIMIT) as u64, SideByte(side),
                    node.orderId, outcome, now);
    if |queue.events| >= MAX_EVENTS {
      return Err(EventQueueFull);
    }
    var reduced := ReduceReserve(node, matchQuantity);
    if reduced.Err? {
      return Err(reduced.error);
    }
    node := reduced.value;
    queue.events := queue.events + [ev];
    if queue.count + 1 >= U64_LIMIT {
      return Err(MathError);
    }
    queue.count := queue.count + 1;
    // matchQuantity <= node.quantity, so this checked_sub cannot fail.
    node := node.(quantity := node.quantity - matchQuantity);
    if node.quantity == 0 {
      var freed := TakeOut(book, index, k);
      if freed.Err? {
        return Err(freed.error);
      }
    }
    return Ok(Some(matchQuantity));
  }

  /** Unlinks the node at position `k` and frees its slot, as both legacy
      handlers do (place_limit_order.rs:153-167, cancel_order.rs:67-80):
      the node leaves the price list, its slot goes on the front of the
      free list, and the count drops by one, with MathError at zero (the
      other writes stand). */
  method TakeOut(book: Slab, index: i32, ghost k: nat) returns (r: Result<()>)
    requires book.Valid() && k < |book.list| && book.list[k] == index
    modifies book`headIndex, book`list, book`freeHead, book`nodeCount, book`free, book.nodes
    ensures book.Valid()
    ensures book.list == Without(old(book.list), k)
    ensures book.nodes[..] == Cut(old(book.nodes[..]), old(book.list), k)[index := Freed(old(book.nodes[index]), old(book.freeHead))]
    ensures book.freeHead == index && book.free == [index] + old(book.free)
    ensures r.Ok? <==> old(book.nodeCount) > 0
    ensures r.Ok? ==> book.nodeCount == old(book.nodeCount) - 1
    ensures r.Err? ==> r.error == MathError
  {
    ListedNotFree(book.nodes[..], book.headIndex, book.list, book.freeHead, book.free, book.isBid, k);
    book.Unlink(index, k);
    r := book.FreeANode(index);
  }

  // ---------------------------------------------------------------------
  // The matching loop as a function of the opposite slab

  /** Where the matching loop leaves the opposite slab: its array, price
      list, free head and node count, the fill events (oldest first) and
      the unmatched remainder. */
  /** The values of a slab that the matching loop reads and writes: the
      node array, the price list, the free-list head and the node count. */
  datatype SlabState = SlabState(nodes: seq<SlabNode>, list: seq<i32>, freeHead: i32, nodeCount: int)

  ghost function StateOf(book: Slab): SlabState
    reads book, book.nodes
  {
    SlabState(book.nodes[..], book.list, book.freeHead, book.nodeCount as int)
  }

  /** What the matching loop knows about the incoming order: which side of
      the opposite slab crosses, and what goes into each fill event. */
  datatype Taker = Taker(crossBid: bool, side: OrderSide, outcome: OutcomeSide, trader: Pubkey, now: i64)

  /** The end of a matching loop that did not fail: the slab it leaves,
      the fill events in order and the quantity left unmatched. */
  datatype Run = Run(state: SlabState, fills: seq<Event>, left: u64)

  /** Unlinking a position leaves distinct indices of an array of the same
      size. */
  lemma WithoutIndices(ns: seq<SlabNode>, l: seq<i32>, k: int, ns': seq<SlabNode>)
    requires Indices(ns, l) && 0 <= k < |l| && |ns'| == |ns|
    ensures Indices(ns', Without(l, k))
  {
    forall a, b | 0 <= a < b < |l| - 1
      ensures Without(l, k)[a] != Without(l, k)[b]
    {
      WithoutAt(l, k, a);
      WithoutAt(l, k, b);
    }
    forall m | 0 <= m < |l| - 1
      ensures 0 <= Without(l, k)[m] < |ns'|
    {
      WithoutAt(l, k, m);
    }
  }

  /** What one turn of the matching loop does on the slab `s`, with
      `events` events in the list and the event count `count`: with nothing
      left or no listed node crossing `left` it stops. Otherwise the first
      crossing node is filled for min(its quantity, left), and that fill
      fails exactly as `Filled` says. A partly filled maker stays as it was
      and the loop ends, because nothing is left. An exhausted maker is
      unlinked and its slot freed, and the loop goes on with the slab
      `next`. */
  datatype Turn = Stop | Failed(error: MarketError) | Partial(fill: Event, q: u64) | Full(fill: Event, q: u64, next: SlabState)

  ghost function TurnOf(s: SlabState, events: nat, count: int, left: u64, t: Taker): (r: Turn)
    requires Indices(s.nodes, s.list)
    ensures r.Full? ==> |r.next.list| == |s.list| - 1 && Indices(r.next.nodes, r.next.list)
    ensures (r.Full? || r.Partial?) ==> r.q <= left
  {
    var k := if left == 0 then |s.list| else MatchFrom(s.nodes, s.list, left as u128, t.crossBid, 0);
    if k == |s.list| then Stop
    else
      var idx := s.list[k];
      var n := s.nodes[idx];
      var q := Min(n.quantity as int, left as int) as u64;
      if events >= MAX_EVENTS then Failed(EventQueueFull)
      else if ReduceReserve(n, q).Err? || count + 1 >= U64_LIMIT || (q == n.quantity && s.nodeCount <= 0) then Failed(MathError)
      else
        var e := FillEvent(n, q, t.trader, t.side, t.outcome, t.now);
        if q < n.quantity then Partial(e, q)
        else
          var ns' := Cut(s.nodes, s.list, k)[idx := Freed(n, s.freeHead)];
          WithoutIndices(s.nodes, s.list, k, ns');
          Full(e, q, SlabState(ns', Without(s.list, k), idx, s.nodeCount - 1))
  }

  /** The matching loop of place_limit_order.rs:93-176 on the opposite
      slab `s`: turns (`TurnOf`) until one stops, fails or fills partly.
      `done` holds the fill events so far. */
  ghost function MatchRun(s: SlabState, events: nat, count: int, left: u64, t: Taker, done: seq<Event>): Result<Run>
    requires Indices(s.nodes, s.list)
    decreases |s.list|, 1
  {
    RunTurn(s, TurnOf(s, events, count, left, t), events, count, left, t, done)
  }

  /** What the run does after the turn `r` on `s`. */
  ghost function RunTurn(s: SlabState, r: Turn, events: nat, count: int, left: u64, t: Taker, done: seq<Event>): Result<Run>
    requires (r.Full? || r.Partial?) ==> r.q <= left
    requires r.Full? ==> |r.next.list| < |s.list| && Indices(r.next.nodes, r.next.list)
    decreases |s.list|, 0
  {
    match r
    case Stop => Ok(Run(s, done, left))
    case Failed(err) => Err(err)
    case Partial(e, q) => Ok(Run(s, done + [e], left - q))
    case Full(e, q, next) => MatchRun(next, events + 1, count + 1, left - q, t, done + [e])
  }

  /** A turn that fills a node completely hands the run on to the slab
      without it. */
  lemma MatchRunFull(s: SlabState, events: nat, count: int, left: u64, t: Taker, done: seq<Event>,
                     e: Event, q: u64, next: SlabState)
    requires Indices(s.nodes, s.list) && TurnOf(s, events, count, left, t) == Full(e, q, next) && q <= left
    ensures Indices(next.nodes, next.list)
    ensures MatchRun(s, events, count, left, t, done) == MatchRun(next, events + 1, count + 1, left - q, t, done + [e])
  {
    var r := TurnOf(s, events, count, left, t);
    assert r.next == next && r.q == q && r.fill == e;
  }

  /** With no listed node crossing what is left, the run stops at once. */
  lemma NoCrossStops(s: SlabState, events: nat, count: int, left: u64, t: Taker, done: seq<Event>)
    requires Indices(s.nodes, s.list) && MatchFrom(s.nodes, s.list, left as u128, t.crossBid, 0) == |s.list|
    ensures MatchRun(s, events, count, left, t, done) == Ok(Run(s, done, left))
  {
  }

  /** A turn that fails fails the run, with the turn's error. */
  lemma MatchRunFails(s: SlabState, events: nat, count: int, left: u64, t: Taker, done: seq<Event>, k: nat)
    requires Indices(s.nodes, s.list) && left > 0 && k == MatchFrom(s.nodes, s.list, left as u128, t.crossBid, 0) < |s.list|
    requires var n := s.nodes[s.list[k]]; var q := Min(n.quantity as int, left as int) as u64;
      !(events < MAX_EVENTS && ReduceReserve(n, q).Ok? && count + 1 < U64_LIMIT && (q == n.quantity ==> s.nodeCount > 0))
    ensures MatchRun(s, events, count, left, t, done) == Err(if events >= MAX_EVENTS then EventQueueFull else MathError)
  {
  }

  /** A turn that fills the node at position `k` for `q` and leaves the
      slab as `s'` hands the rest of the run on to that state. */
  lemma MatchRunFills(s: SlabState, events: nat, count: int, left: u64, t: Taker, done: seq<Event>, k: nat, q: u64,
                      s': SlabState)
    requires Indices(s.nodes, s.list) && left > 0 && k == MatchFrom(s.nodes, s.list, left as u128, t.crossBid, 0) < |s.list|
    requires var n := s.nodes[s.list[k]];
      q as int == Min(n.quantity as int, left as int) &&
      events < MAX_EVENTS && ReduceReserve(n, q).Ok? && count + 1 < U64_LIMIT && (q == n.quantity ==> s.nodeCount > 0) &&
      (q < n.quantity ==> s' == s) &&
      (q == n.quantity ==> s' == SlabState(Cut(s.nodes, s.list, k)[s.list[k] := Freed(n, s.freeHead)], Without(s.list, k),
                                           s.list[k], s.nodeCount - 1))
    requires Indices(s'.nodes, s'.list)
    ensures MatchRun(s', events + 1, count + 1, left - q, t,
                     done + [FillEvent(s.nodes[s.list[k]], q, t.trader, t.side, t.outcome, t.now)]) ==
            MatchRun(s, events, count, left, t, done)
  {
    TurnFills(s, events, count, left, t, k, q, s');
    if q < s.nodes[s.list[k]].quantity {
      assert TurnOf(s', events + 1, count + 1, left - q, t) == Stop;
    }
  }

  /** The turn `MatchRunFills` takes. */
  lemma TurnFills(s: SlabState, events: nat, count: int, left: u64, t: Taker, k: nat, q: u64, s': SlabState)
    requires Indices(s.nodes, s.list) && left > 0 && k == MatchFrom(s.nodes, s.list, left as u128, t.crossBid, 0) < |s.list|
    requires var n := s.nodes[s.list[k]];
      q as int == Min(n.quantity as int, left as int) &&
      events < MAX_EVENTS && ReduceReserve(n, q).Ok? && count + 1 < U64_LIMIT && (q == n.quantity ==> s.nodeCount > 0) &&
      (q < n.quantity ==> s' == s) &&
      (q == n.quantity ==> s' == SlabState(Cut(s.nodes, s.list, k)[s.list[k] := Freed(n, s.freeHead)], Without(s.list, k),
                                           s.list[k], s.nodeCount - 1))
    ensures var e := FillEvent(s.nodes[s.list[k]], q, t.trader, t.side, t.outcome, t.now);
      TurnOf(s, events, count, left, t) == if q < s.nodes[s.list[k]].quantity then Partial(e, q) else Full(e, q, s')
  {
  }

  /** A maker that differs only in its links yields the same fill. */
  lemma SameButLinksFill(a: SlabNode, b: SlabNode, q: u64, t: Taker)
    requires SameButLinks(a, b)
    ensures a.quantity == b.quantity
    ensures FillEvent(a, q, t.trader, t.side, t.outcome, t.now) == FillEvent(b, q, t.trader, t.side, t.outcome, t.now)
  {
    assert b.owner == a.owner && b.key == a.key && b.orderId == a.orderId && b.quantity == a.quantity;
  }

  lemma SameButLinksTrans(a: SlabNode, b: SlabNode, c: SlabNode)
    requires SameButLinks(a, b) && SameButLinks(b, c)
    ensures SameButLinks(a, c)
  {
  }

  /** Writing a slot outside the list keeps the list sorted. */
  lemma SortedFrame(ns: seq<SlabNode>, l: seq<i32>, x: int, n: SlabNode, isBid: bool)
    requires Indices(ns, l) && Sorted(ns, l, isBid) && 0 <= x < |ns|
    requires forall m :: 0 <= m < |l| ==> l[m] != x
    ensures Sorted(ns[x := n], l, isBid)
  {
    var ns' := ns[x := n];
    forall a, b | 0 <= a < b < |l|
      ensures Ordered(isBid, KeyAt(ns', l, a), KeyAt(ns', l, b))
    {
      assert KeyAt(ns', l, a) == KeyAt(ns, l, a) && KeyAt(ns', l, b) == KeyAt(ns, l, b);
    }
  }

  /** The slab the loop leaves after the head was filled completely: the
      head is unlinked and its slot freed. */
  ghost function HeadCut(s: SlabState): SlabState
    requires Indices(s.nodes, s.list) && |s.list| > 0
  {
    SlabState(Cut(s.nodes, s.list, 0)[s.list[0] := Freed(s.nodes[s.list[0]], s.freeHead)], s.list[1..], s.list[0],
              s.nodeCount - 1)
  }

  /** Unlinking the head keeps the rest of a sorted list sorted. */
  lemma HeadCutSorted(s: SlabState, isBid: bool)
    requires Indices(s.nodes, s.list) && Sorted(s.nodes, s.list, isBid) && |s.list| > 0
    ensures Without(s.list, 0) == s.list[1..]
    ensures Indices(HeadCut(s).nodes, HeadCut(s).list) && Sorted(HeadCut(s).nodes, HeadCut(s).list, isBid)
  {
    var l := s.list;
    var c := Cut(s.nodes, l, 0);
    assert Without(l, 0) == l[1..];
    WithoutIndices(s.nodes, l, 0, c);
    WithoutIndices(s.nodes, l, 0, HeadCut(s).nodes);
    CutSorted(s.nodes, l, 0, isBid);
    SortedFrame(c, l[1..], l[0], Freed(s.nodes[l[0]], s.freeHead), isBid);
  }

  /** Unlinking the head leaves every other maker's payload as it was. */
  lemma HeadCutPayload(s: SlabState)
    requires Indices(s.nodes, s.list) && |s.list| > 0
    ensures |HeadCut(s).nodes| == |s.nodes|
    ensures forall j :: 1 <= j < |s.list| ==> SameButLinks(s.nodes[s.list[j]], HeadCut(s).nodes[s.list[j]])
  {
    var l := s.list;
    forall j | 1 <= j < |l|
      ensures SameButLinks(s.nodes[l[j]], HeadCut(s).nodes[l[j]])
    {
      CutAt(s.nodes, l, 0, j - 1);
      WithoutAt(l, 0, j - 1);
    }
  }

  /** `run` ends a loop over the sorted slab `s` that took the makers from
      the head in list order. The first `g` are filled for their whole
      quantity and unlinked, one fill event each, in order, after `done`.
      At most one more, the new head, is then filled for less than its
      quantity, which uses up what was left. The makers that remain keep
      their order and their payload. */
  ghost predicate Swept(s: SlabState, done: seq<Event>, run: Run, t: Taker)
    requires Indices(s.nodes, s.list)
  {
    SweptShape(s, done, run) && SweptFull(s, done, run, t) && SweptLast(s, done, run, t) && SweptKept(s, run)
  }

  /** How far the loop got: `g` makers unlinked from the head, one event
      each after `done`, and perhaps one more. */
  ghost predicate SweptShape(s: SlabState, done: seq<Event>, run: Run)
  {
    var g := |s.list| - |run.state.list|;
    0 <= g && run.state.list == s.list[g..] && |run.state.nodes| == |s.nodes| &&
    run.state.nodeCount == s.nodeCount - g &&
    |done| + g <= |run.fills| <= |done| + g + 1 && run.fills[..|done|] == done
  }

  /** The first `g` makers were filled for their whole quantity, in order. */
  ghost predicate SweptFull(s: SlabState, done: seq<Event>, run: Run, t: Taker)
    requires Indices(s.nodes, s.list)
  {
    var g := |s.list| - |run.state.list|;
    SweptShape(s, done, run) &&
    forall i :: 0 <= i < g ==>
      run.fills[|done| + i] ==
      FillEvent(s.nodes[s.list[i]], s.nodes[s.list[i]].quantity, t.trader, t.side, t.outcome, t.now)
  }

  /** An event after those is a partial fill of the new head that used up
      what was left. */
  ghost predicate SweptLast(s: SlabState, done: seq<Event>, run: Run, t: Taker)
    requires Indices(s.nodes, s.list)
  {
    var g := |s.list| - |run.state.list|;
    SweptShape(s, done, run) &&
    (|run.fills| == |done| + g + 1 ==>
       g < |s.list| && run.left == 0 &&
       run.fills[|done| + g].quantity < s.nodes[s.list[g]].quantity &&
       run.fills[|done| + g] ==
       FillEvent(s.nodes[s.list[g]], run.fills[|done| + g].quantity, t.trader, t.side, t.outcome, t.now))
  }

  /** The makers still listed kept their payload. */
  ghost predicate SweptKept(s: SlabState, run: Run)
    requires Indices(s.nodes, s.list)
  {
    var g := |s.list| - |run.state.list|;
    0 <= g && |run.state.nodes| == |s.nodes| &&
    forall j :: g <= j < |s.list| ==> SameButLinks(s.nodes[s.list[j]], run.state.nodes[s.list[j]])
  }

  /** A loop that stops at once swept nothing. */
  lemma SweptNone(s: SlabState, done: seq<Event>, left: u64, t: Taker)
    requires Indices(s.nodes, s.list)
    ensures Swept(s, done, Run(s, done, left), t)
  {
    assert s.list[0..] == s.list;
    assert done[..|done|] == done;
    forall j | 0 <= j < |s.list|
      ensures SameButLinks(s.nodes[s.list[j]], s.nodes[s.list[j]])
    {
    }
  }

  /** A loop whose first fill is partial swept nothing but that fill. */
  lemma SweptPartial(s: SlabState, done: seq<Event>, q: u64, t: Taker)
    requires Indices(s.nodes, s.list) && |s.list| > 0 && q < s.nodes[s.list[0]].quantity
    ensures Swept(s, done, Run(s, done + [FillEvent(s.nodes[s.list[0]], q, t.trader, t.side, t.outcome, t.now)], 0), t)
  {
    assert s.list[0..] == s.list;
    var e := FillEvent(s.nodes[s.list[0]], q, t.trader, t.side, t.outcome, t.now);
    var fills := done + [e];
    assert fills[..|done|] == done;
    assert fills[|done| + 0] == e && e.quantity == q;
    forall j | 0 <= j < |s.list|
      ensures SameButLinks(s.nodes[s.list[j]], s.nodes[s.list[j]])
    {
    }
  }

  /** The facts about unlinking the head that `SweptStep` uses: `s1` is
      `s` without its head, and the other listed makers kept their payload. */
  ghost predicate HeadCutOf(s: SlabState, s1: SlabState)
    requires Indices(s.nodes, s.list) && |s.list| > 0
  {
    s1.list == s.list[1..] && |s1.nodes| == |s.nodes| && s1.nodeCount == s.nodeCount - 1 &&
    forall j :: 1 <= j < |s.list| ==> SameButLinks(s.nodes[s.list[j]], s1.nodes[s.list[j]])
  }

  /** Sweeping the head and then the slab without it sweeps `s`. */
  lemma SweptStep(s: SlabState, s1: SlabState, done: seq<Event>, run: Run, t: Taker)
    requires Indices(s.nodes, s.list) && |s.list| > 0 && Indices(s1.nodes, s1.list) && HeadCutOf(s, s1)
    requires var n := s.nodes[s.list[0]];
      Swept(s1, done + [FillEvent(n, n.quantity, t.trader, t.side, t.outcome, t.now)], run, t)
    ensures Swept(s, done, run, t)
  {
    var n := s.nodes[s.list[0]];
    var e := FillEvent(n, n.quantity, t.trader, t.side, t.outcome, t.now);
    StepShape(s, s1, done, e, run);
    StepFull(s, s1, done, run, t);
    StepLast(s, s1, done, e, run, t);
    StepKept(s, s1, run);
  }

  lemma StepShape(s: SlabState, s1: SlabState, done: seq<Event>, e: Event, run: Run)
    requires |s.list| > 0 && s1.list == s.list[1..] && |s1.nodes| == |s.nodes| && s1.nodeCount == s.nodeCount - 1
    requires SweptShape(s1, done + [e], run)
    ensures SweptShape(s, done, run)
    ensures run.fills[|done|] == e
  {
    var l := s.list;
    var g := |l| - |run.state.list|;
    assert 1 <= g && run.state.list == s1.list[g - 1..];
    assert s1.list[g - 1..] == l[g..];
    assert run.fills[..|done + [e]|] == done + [e];
    assert run.fills[..|done|] == (done + [e])[..|done|];
  }

  lemma StepFull(s: SlabState, s1: SlabState, done: seq<Event>, run: Run, t: Taker)
    requires Indices(s.nodes, s.list) && |s.list| > 0 && Indices(s1.nodes, s1.list) && HeadCutOf(s, s1)
    requires var n := s.nodes[s.list[0]];
      SweptFull(s1, done + [FillEvent(n, n.quantity, t.trader, t.side, t.outcome, t.now)], run, t)
    requires SweptShape(s, done, run)
    requires var n := s.nodes[s.list[0]]; run.fills[|done|] == FillEvent(n, n.quantity, t.trader, t.side, t.outcome, t.now)
    ensures SweptFull(s, done, run, t)
  {
    var l := s.list;
    var e := FillEvent(s.nodes[l[0]], s.nodes[l[0]].quantity, t.trader, t.side, t.outcome, t.now);
    var g := |l| - |run.state.list|;
    forall i | 0 <= i < g
      ensures run.fills[|done| + i] == FillEvent(s.nodes[l[i]], s.nodes[l[i]].quantity, t.trader, t.side, t.outcome, t.now)
    {
      if i > 0 {
        assert s1.list[i - 1] == l[i];
        assert run.fills[|done + [e]| + (i - 1)] ==
               FillEvent(s1.nodes[l[i]], s1.nodes[l[i]].quantity, t.trader, t.side, t.outcome, t.now);
        SameButLinksFill(s.nodes[l[i]], s1.nodes[l[i]], s1.nodes[l[i]].quantity, t);
      }
    }
  }

  lemma StepLast(s: SlabState, s1: SlabState, done: seq<Event>, e: Event, run: Run, t: Taker)
    requires Indices(s.nodes, s.list) && |s.list| > 0 && Indices(s1.nodes, s1.list) && HeadCutOf(s, s1)
    requires SweptLast(s1, done + [e], run, t) && SweptShape(s, done, run)
    ensures SweptLast(s, done, run, t)
  {
    var l := s.list;
    var g := |l| - |run.state.list|;
    if |run.fills| == |done| + g + 1 {
      assert s1.list[g - 1] == l[g];
      assert run.fills[|done + [e]| + (g - 1)] == run.fills[|done| + g];
      SameButLinksFill(s.nodes[l[g]], s1.nodes[l[g]], run.fills[|done| + g].quantity, t);
    }
  }

  lemma StepKept(s: SlabState, s1: SlabState, run: Run)
    requires Indices(s.nodes, s.list) && |s.list| > 0 && Indices(s1.nodes, s1.list) && HeadCutOf(s, s1)
    requires SweptKept(s1, run)
    ensures SweptKept(s, run)
  {
    var l := s.list;
    var g := |l| - |run.state.list|;
    forall j | g <= j < |l|
      ensures SameButLinks(s.nodes[l[j]], run.state.nodes[l[j]])
    {
      assert l[j] == s1.list[j - 1];
      SameButLinksTrans(s.nodes[l[j]], s1.nodes[l[j]], run.state.nodes[l[j]]);
    }
  }

  /** On a list sorted for the side that crosses, a turn that fills partly
      fills the head, for all that is left. */
  lemma TurnAtHeadPartial(s: SlabState, events: nat, count: int, left: u64, t: Taker)
    requires Indices(s.nodes, s.list) && Sorted(s.nodes, s.list, t.crossBid)
    requires TurnOf(s, events, count, left, t).Partial?
    ensures |s.list| > 0 && left < s.nodes[s.list[0]].quantity
    ensures TurnOf(s, events, count, left, t) ==
            Partial(FillEvent(s.nodes[s.list[0]], left, t.trader, t.side, t.outcome, t.now), left)
  {
    MatchAtHead(s.nodes, s.list, left as u128, t.crossBid);
    var n := s.nodes[s.list[0]];
    assert Min(n.quantity as int, left as int) as u64 == left;
  }

  /** On a list sorted for the side that crosses, a turn that fills the
      whole of a maker fills the head, and leaves the slab `HeadCut` makes,
      still sorted. */
  lemma TurnAtHeadFull(s: SlabState, events: nat, count: int, left: u64, t: Taker)
    requires Indices(s.nodes, s.list) && Sorted(s.nodes, s.list, t.crossBid)
    requires TurnOf(s, events, count, left, t).Full?
    ensures |s.list| > 0 && s.nodes[s.list[0]].quantity <= left
    ensures Indices(HeadCut(s).nodes, HeadCut(s).list) && Sorted(HeadCut(s).nodes, HeadCut(s).list, t.crossBid)
    ensures var n := s.nodes[s.list[0]];
      TurnOf(s, events, count, left, t) == Full(FillEvent(n, n.quantity, t.trader, t.side, t.outcome, t.now), n.quantity, HeadCut(s))
  {
    MatchAtHead(s.nodes, s.list, left as u128, t.crossBid);
    HeadCutSorted(s, t.crossBid);
  }

  /** A run on a sorted list whose first turn fills a node completely is
      the run on the list without the head. */
  lemma FullAtHead(s: SlabState, events: nat, count: int, left: u64, t: Taker, done: seq<Event>, run: Run)
    requires Indices(s.nodes, s.list) && Sorted(s.nodes, s.list, t.crossBid)
    requires TurnOf(s, events, count, left, t).Full? && MatchRun(s, events, count, left, t, done) == Ok(run)
    ensures |s.list| > 0 && s.nodes[s.list[0]].quantity <= left
    ensures Indices(HeadCut(s).nodes, HeadCut(s).list) && Sorted(HeadCut(s).nodes, HeadCut(s).list, t.crossBid)
    ensures var n := s.nodes[s.list[0]];
      MatchRun(HeadCut(s), events + 1, count + 1, left - n.quantity, t,
               done + [FillEvent(n, n.quantity, t.trader, t.side, t.outcome, t.now)]) == Ok(run)
  {
    TurnAtHeadFull(s, events, count, left, t);
    var n := s.nodes[s.list[0]];
    MatchRunFull(s, events, count, left, t, done, FillEvent(n, n.quantity, t.trader, t.side, t.outcome, t.now), n.quantity, HeadCut(s));
  }

  /** On a price list sorted for the side that crosses, a loop that does
      not fail sweeps the list from its head (`Swept`). */
  lemma {:induction false} SortedRun(s: SlabState, events: nat, count: int, left: u64, t: Taker, done: seq<Event>, run: Run)
    requires Indices(s.nodes, s.list) && Sorted(s.nodes, s.list, t.crossBid)
    requires MatchRun(s, events, count, left, t, done) == Ok(run)
    ensures Swept(s, done, run, t)
    decreases |s.list|
  {
    var r := TurnOf(s, events, count, left, t);
    if r.Stop? {
      SweptNone(s, done, left, t);
    } else if r.Partial? {
      TurnAtHeadPartial(s, events, count, left, t);
      SweptPartial(s, done, left, t);
    } else if r.Full? {
      var n := s.nodes[s.list[0]];
      FullAtHead(s, events, count, left, t, done, run);
      SortedRun(HeadCut(s), events + 1, count + 1, left - n.quantity, t,
                done + [FillEvent(n, n.quantity, t.trader, t.side, t.outcome, t.now)], run);
      HeadCutPayload(s);
      SweptStep(s, HeadCut(s), done, run, t);
    }
  }

  /** place_limit_order_handler (place_limit_order.rs:73-271). A closed
      market is refused before anything is written. The order is matched
      against the opposite slab (`MatchOrder`), and a positive remainder
      `rest` then rests on the trader's own side as the node `placed`,
      ordered by price, with the trader's position key as owner and the
      slot number as order id; the position records it in slot 1. Nothing
      rests when the order was filled completely. The handler fails only
      with the errors listed in its second ensures; on failure the writes
      made so far stand in this model (the runtime discards them). */
  method PlaceLimitOrder(market: Market, asks: Slab, bids: Slab, queue: EventQueue, position: TraderPosition,
                         trader: Pubkey, positionKey: Pubkey, hasOutcomeAccount: bool,
                         params: LimitOrderParams, now: i64, slot: u64)
    returns (r: Result<()>, ghost rest: u64, ghost placed: i32, ghost fills: seq<Event>)
    requires asks.Valid() && bids.Valid() && asks != bids && asks.nodes != bids.nodes
    requires position.orderIds.Length == MAX_ORDER_PER_TRADER
    modifies asks, asks.nodes, bids, bids.nodes, queue, position, position.orderIds
    ensures asks.Valid() && bids.Valid()
    ensures old(market.status) != Open ==>
      r == Err(MarketNotOpen) && unchanged(asks, asks.nodes, bids, bids.nodes, queue, position, position.orderIds)
    ensures r.Err? ==> r.error in {MarketNotOpen, EventQueueFull, MathError, InsufficientBalance}
    ensures r.Ok? ==> market.status == Open && rest <= params.quantity && TotalQuantity(fills) + rest == params.quantity
    ensures r.Ok? ==> queue.events == old(queue.events) + fills && queue.count == old(queue.count) + |fills|
    ensures r.Ok? ==> forall e :: e in fills ==> FillBy(e, trader, params.orderSide, params.outcome, now)
    ensures r.Ok? && rest > 0 ==>
      var opposite := if params.orderSide == Buy then asks else bids;
      MatchFrom(opposite.nodes[..], opposite.list, rest as u128, params.orderSide == Sell, 0) == |opposite.list|
    ensures r.Ok? && rest > 0 ==>
      var target := if params.orderSide == Buy then bids else asks;
      0 <= placed < target.nodes.Length &&
      target.list == Inserted(old(target.list), InsertFrom(old(target.nodes[..]), old(target.list), params.price as u128, target.isBid, 0), placed) &&
      target.nodes[placed].key == params.price as u128 && target.nodes[placed].quantity == rest &&
      target.nodes[placed].owner == positionKey && target.nodes[placed].orderId == slot &&
      position.slotsBitmap == SetSlot(old(position.slotsBitmap), 1) &&
      position.orderIds[..] == old(position.orderIds[..])[1 := slot]
    ensures r.Ok? && rest == 0 ==>
      var target := if params.orderSide == Buy then bids else asks;
      unchanged(target, target.nodes, position, position.orderIds)
    ensures old(market.status) == Open ==>
      var opposite := if params.orderSide == Buy then asks else bids;
      var t := Taker(params.orderSide == Sell, params.orderSide, params.outcome, trader, now);
      var run := MatchRun(old(StateOf(opposite)), |old(queue.events)|, old(queue.count) as int, params.quantity, t, []);
      (run.Err? ==> r == Err(run.error)) &&
      (r.Ok? ==> run == Ok(Run(StateOf(opposite), fills, rest))) &&
      (r.Ok? && opposite.isBid == t.crossBid ==> Swept(old(StateOf(opposite)), [], Run(StateOf(opposite), fills, rest), t))
  {
    rest, placed, fills := 0, -1, [];
    if market.status != Open {
      return Err(MarketNotOpen), rest, placed, fills;
    }
    match params.orderSide
    case Buy =>
      r, rest, placed, fills := PlaceAgainst(asks, bids, false, queue, position, trader, positionKey,
                                             hasOutcomeAccount, params, now, slot);
    case Sell =>
      r, rest, placed, fills := PlaceAgainst(bids, asks, true, queue, position, trader, positionKey,
                                             hasOutcomeAccount, params, now, slot);
  }

  /** The body of place_limit_order_handler once the market is open
      (place_limit_order.rs:84-270), for the slab `opposite` it matches
      against (with find_matching_node's flag `crossBid`) and the slab
      `target` it rests on. */
  method PlaceAgainst(opposite: Slab, target: Slab, crossBid: bool, queue: EventQueue, position: TraderPosition,
                      trader: Pubkey, positionKey: Pubkey, hasOutcomeAccount: bool,
                      params: LimitOrderParams, now: i64, slot: u64)
    returns (r: Result<()>, ghost rest: u64, ghost placed: i32, ghost fills: seq<Event>)
    requires opposite.Valid() && target.Valid() && opposite != target && opposite.nodes != target.nodes
    requires position.orderIds.Length == MAX_ORDER_PER_TRADER
    modifies opposite, opposite.nodes, target, target.nodes, queue, position, position.orderIds
    ensures opposite.Valid() && target.Valid()
    ensures r.Err? ==> r.error in {EventQueueFull, MathError, InsufficientBalance}
    ensures r.Ok? ==> rest <= params.quantity && TotalQuantity(fills) + rest == params.quantity
    ensures r.Ok? ==> queue.events == old(queue.events) + fills && queue.count == old(queue.count) + |fills|
    ensures r.Ok? ==> forall e :: e in fills ==> FillBy(e, trader, params.orderSide, params.outcome, now)
    ensures r.Ok? && rest > 0 ==>
      MatchFrom(opposite.nodes[..], opposite.list, rest as u128, crossBid, 0) == |opposite.list|
    ensures r.Ok? && rest > 0 ==>
      0 <= placed < target.nodes.Length &&
      target.list == Inserted(old(target.list), InsertFrom(old(target.nodes[..]), old(target.list), params.price as u128, target.isBid, 0), placed) &&
      target.nodes[placed].key == params.price as u128 && target.nodes[placed].quantity == rest &&
      target.nodes[placed].owner == positionKey && target.nodes[placed].orderId == slot &&
      position.slotsBitmap == SetSlot(old(position.slotsBitmap), 1) &&
      position.orderIds[..] == old(position.orderIds[..])[1 := slot]
    ensures r.Ok? && rest == 0 ==> unchanged(target, target.nodes, position, position.orderIds)
    ensures var t := Taker(crossBid, params.orderSide, params.outcome, trader, now);
      var run := MatchRun(old(StateOf(opposite)), |old(queue.events)|, old(queue.count) as int, params.quantity, t, []);
      (run.Err? ==> r == Err(run.error)) &&
      (r.Ok? ==> run == Ok(Run(StateOf(opposite), fills, rest))) &&
      (r.Ok? && opposite.isBid == crossBid ==> Swept(old(StateOf(opposite)), [], Run(StateOf(opposite), fills, rest), t))
  {
    rest, placed := 0, -1;
    var left;
    ghost var s0, events0, count0 := StateOf(opposite), |queue.events|, queue.count as int;
    ghost var t := Taker(crossBid, params.orderSide, params.outcome, trader, now);
    left, fills := MatchOrder(opposite, crossBid, params.quantity, params.orderSide, params.outcome, trader, now, queue);
    if left.Err? {
      return Err(left.error), rest, placed, fills;
    }
    if opposite.isBid == crossBid {
      SortedRun(s0, events0, count0, params.quantity, t, [], Run(StateOf(opposite), fills, left.value));
    }
    var leftQty := left.value;
    rest := leftQty;
    if leftQty > 0 {
      r, placed := RestOrder(target, position, positionKey, hasOutcomeAccount, params, leftQty, now, slot);
      return r, rest, placed, fills;
    }
    return Ok(()), rest, placed, fills;
  }

  /** The part of place_limit_order_handler after the matching loop
      (place_limit_order.rs:178-268), for a positive remainder `left`: it
      rests on `target` as the node `placed` and is recorded in slot 1 of
      the position. */
  method RestOrder(target: Slab, position: TraderPosition, positionKey: Pubkey, hasOutcomeAccount: bool,
                   params: LimitOrderParams, left: u64, now: i64, slot: u64) returns (r: Result<()>, ghost placed: i32)
    requires target.Valid() && left > 0
    requires position.orderIds.Length == MAX_ORDER_PER_TRADER
    modifies target, target.nodes, position, position.orderIds
    ensures target.Valid()
    ensures r.Err? ==> r.error in {MathError, InsufficientBalance}
    ensures r.Ok? ==>
      0 <= placed < target.nodes.Length &&
      target.list == Inserted(old(target.list), InsertFrom(old(target.nodes[..]), old(target.list), params.price as u128, target.isBid, 0), placed) &&
      target.nodes[placed].key == params.price as u128 && target.nodes[placed].quantity == left &&
      target.nodes[placed].owner == positionKey && target.nodes[placed].orderId == slot &&
      position.slotsBitmap == SetSlot(old(position.slotsBitmap), 1) &&
      position.orderIds[..] == old(position.orderIds[..])[1 := slot]
  {
    placed := -1;
    var p := PlaceRest(target, params.orderSide, params.outcome, params.price, left, positionKey,
                       hasOutcomeAccount, now, slot);
    if p.Err? {
      return Err(p.error), placed;
    }
    placed := p.value;
    var taken := TakeSlot(position, slot);
    if taken.Err? {
      return Err(taken.error), placed;
    }
    return Ok(()), placed;
  }

  /** The matching loop of place_limit_order (place_limit_order.rs:93-176):
      while quantity is left and some node of `book` crosses it, fill
      against that node (`FillOnce`). Returns the unmatched remainder. */
  method MatchOrder(book: Slab, crossBid: bool, quantity: u64, side: OrderSide, outcome: OutcomeSide,
                    trader: Pubkey, now: i64, queue: EventQueue) returns (r: Result<u64>, ghost fills: seq<Event>)
    requires book.Valid()
    modifies book`headIndex, book`list, book`freeHead, book`nodeCount, book`free, book.nodes, queue`events, queue`count
    ensures book.Valid()
    ensures r.Err? ==> r.error in {EventQueueFull, MathError}
    ensures r.Ok? ==> r.value <= quantity && TotalQuantity(fills) + r.value == quantity
    ensures r.Ok? ==> queue.events == old(queue.events) + fills && queue.count == old(queue.count) + |fills|
    ensures r.Ok? ==> forall e :: e in fills ==> FillBy(e, trader, side, outcome, now)
    ensures r.Ok? && r.value > 0 ==> MatchFrom(book.nodes[..], book.list, r.value as u128, crossBid, 0) == |book.list|
    ensures var run := MatchRun(old(StateOf(book)), |old(queue.events)|, old(queue.count) as int, quantity,
                                Taker(crossBid, side, outcome, trader, now), []);
      (r.Err? <==> run.Err?) && (r.Err? ==> r.error == run.error) &&
      (r.Ok? ==> run == Ok(Run(StateOf(book), fills, r.value)))
  {
    var leftQty := quantity;
    fills := [];
    ghost var t := Taker(crossBid, side, outcome, trader, now);
    ghost var s0 := StateOf(book);
    ghost var run := MatchRun(s0, |queue.events|, queue.count as int, quantity, t, []);
    while leftQty > 0
      invariant book.Valid()
      invariant queue.events == old(queue.events) + fills && queue.count == old(queue.count) + |fills|
      invariant forall e :: e in fills ==> FillBy(e, trader, side, outcome, now)
      invariant TotalQuantity(fills) + leftQty == quantity
      invariant MatchRun(StateOf(book), |queue.events|, queue.count as int, leftQty, t, fills) == run
      decreases |book.list| + (if leftQty > 0 then 1 else 0)
    {
      var step, e := FillOnce(book, crossBid, leftQty, side, outcome, trader, now, queue, fills);
      if step.Err? {
        return Err(step.error), fills;
      }
      if step.value.None? {
        break;
      }
      TotalAppend(fills, e);
      fills := fills + [e];
      leftQty := leftQty - step.value.value;
    }
    return Ok(leftQty), fills;
  }

  /** Rests the unmatched remainder `left` on `book`
      (place_limit_order.rs:178-246): a buy reserves
      `price * left / PRICE_PRECISION_SCALE` USDC (product checked in u128,
      quotient truncated to 64 bits), a sell needs an outcome token
      account and reserves `left` shares; then a node is allocated, every
      field of it written, and it is linked in by price. An index outside
      the array cannot come back from allocate_node, so slab_insert_node
      cannot fail here. */
  method PlaceRest(book: Slab, side: OrderSide, outcome: OutcomeSide, price: u64, left: u64, owner: Pubkey,
                   hasOutcomeAccount: bool, now: i64, slot: u64) returns (r: Result<i32>)
    requires book.Valid()
    modifies book`headIndex, book`list, book`freeHead, book`nodeCount, book`free, book.nodes
    ensures book.Valid()
    ensures side == Buy && price as int * left as int >= U128_LIMIT ==> r == Err(MathError) && unchanged(book, book.nodes)
    ensures side == Sell && !hasOutcomeAccount ==> r == Err(InsufficientBalance) && unchanged(book, book.nodes)
    ensures r.Err? ==> r.error == if side == Sell && !hasOutcomeAccount then InsufficientBalance else MathError
    ensures r.Ok? ==>
      (side == Buy ==> price as int * left as int < U128_LIMIT) && (side == Sell ==> hasOutcomeAccount) &&
      0 <= r.value < book.nodes.Length &&
      book.list == Inserted(old(book.list), InsertFrom(old(book.nodes[..]), old(book.list), price as u128, book.isBid, 0), r.value) &&
      var n := book.nodes[r.value];
      n.key == price as u128 && n.owner == owner && n.quantity == left && n.orderId == slot &&
      n.outcome == outcome && n.timeStamp == now && n.occupied &&
      n.reservedUsdc == (if side == Buy then (price as int * left as int / PRICE_PRECISION_SCALE) % U64_LIMIT else 0) &&
      n.reservedOutcome == (if side == Buy then 0 else left)
  {
    var reservedUsdc: u64 := 0;
    var reservedOutcome: u64 := 0;
    if side == Buy {
      if price as u128 * left as u128 >= U128_LIMIT {
        return Err(MathError);
      }
      reservedUsdc := ((price as u128 * left as u128 / PRICE_PRECISION_SCALE) % U64_LIMIT) as u64;
    } else {
      if !hasOutcomeAccount {
        return Err(InsufficientBalance);
      }
      reservedOutcome := left;
    }
    ghost var ns0 := book.nodes[..];
    var a := book.AllocateNode();
    if a.Err? {
      return Err(a.error);
    }
    var index := a.value;
    assert forall k :: 0 <= k < |book.list| ==> book.list[k] != index;
    assert forall k :: 0 <= k < |book.list| ==> KeyAt(book.nodes[..], book.list, k) == KeyAt(ns0, book.list, k);
    InsertFromSameKeys(ns0, book.nodes[..], book.list, price as u128, book.isBid, 0);
    var node := SlabNode(price as u128, owner, left, slot, EMPTY_INDEX, EMPTY_INDEX, now, true, reservedUsdc,
                         reservedOutcome, outcome);
    WriteAndLink(book, index, node);
    return Ok(index);
  }

  /** Writes the whole of a freshly allocated node and links it in
      (place_limit_order.rs:231-246). */
  method WriteAndLink(book: Slab, index: i32, node: SlabNode)
    requires book.Valid() && 0 <= index < book.nodes.Length && index !in book.list && index !in book.free
    requires node.occupied
    modifies book`headIndex, book`list, book.nodes
    ensures book.Valid()
    ensures book.list == Inserted(old(book.list), InsertFrom(old(book.nodes[..]), old(book.list), node.key, book.isBid, 0), index)
    ensures SameButLinks(node, book.nodes[index])
  {
    DetachedWrite(book.nodes[..], book.headIndex, book.list, book.freeHead, book.free, book.isBid, index, node, node.key);
    book.nodes[index] := node;
    var _ := book.SlabInsertNode(index);
  }

  /** place_limit_order's scan for a free slot
      (place_limit_order.rs:249-256): the first `i` in 1..16 whose probed
      bit is zero. */
  method FindFreeSlot(bitmap: bv128) returns (slot: Option<nat>)
    ensures slot.Some? ==> 1 <= slot.value < MAX_ORDER_PER_TRADER && SlotBit(bitmap, slot.value) == 0
    ensures slot.Some? ==> forall j :: 1 <= j < slot.value ==> SlotBit(bitmap, j) != 0
    ensures slot.None? ==> forall j :: 1 <= j < MAX_ORDER_PER_TRADER ==> SlotBit(bitmap, j) != 0
  {
    slot := None;
    for i := 1 to MAX_ORDER_PER_TRADER
      invariant slot.None?
      invariant forall j :: 1 <= j < i ==> SlotBit(bitmap, j) != 0
    {
      if SlotBit(bitmap, i) == 0 {
        slot := Some(i);
        break;
      }
    }
  }

  /** Records the rested order in the trader's position
      (place_limit_order.rs:248-268). The scan always stops at slot 1
      (`SlotOneAlwaysFree`), so MaxOrderReached never happens; the bit set
      is bit 1, and `active_orders` is checked for overflow but never
      incremented. */
  method TakeSlot(position: TraderPosition, orderId: u64) returns (r: Result<()>)
    requires position.orderIds.Length == MAX_ORDER_PER_TRADER
    modifies position`slotsBitmap, position.orderIds
    ensures r.Ok? <==> old(position.activeOrders) as int + 1 < U8_LIMIT
    ensures r.Err? ==> r.error == MathError
    ensures position.slotsBitmap == SetSlot(old(position.slotsBitmap), 1)
    ensures r.Ok? ==> position.orderIds[..] == old(position.orderIds[..])[1 := orderId]
    ensures r.Err? ==> position.orderIds[..] == old(position.orderIds[..])
  {
    var freeSlot := FindFreeSlot(position.slotsBitmap);
    SlotOneAlwaysFree(position.slotsBitmap);
    if freeSlot.None? {
      // MaxOrderReached: unreachable, slot 1 always reads as free.
      assert false;
    }
    var i := freeSlot.value;
    assert i == 1;
    position.slotsBitmap := SetSlot(position.slotsBitmap, i);
    if position.activeOrders as int + 1 >= U8_LIMIT {
      return Err(MathError);
    }
    position.orderIds[i] := orderId;
    return Ok(());
  }

  // ---------------------------------------------------------------------
  // cancel_order

  /** cancel_order's walk of one slab (cancel_order.rs:60-86): the first
      listed node that is occupied and carries `orderId` is unlinked and
      freed (`TakeOut`), and a copy of it as it was is returned; `Ok(None)`
      and no change when there is none. */
  method CancelIn(book: Slab, orderId: u64) returns (r: Result<Option<SlabNode>>)
    requires book.Valid()
    modifies book`headIndex, book`list, book`freeHead, book`nodeCount, book`free, book.nodes
    ensures book.Valid()
    ensures var k := OrderFrom(old(book.nodes[..]), old(book.list), orderId, 0);
      (k == |old(book.list)| ==> r == Ok(None) && unchanged(book, book.nodes)) &&
      (k < |old(book.list)| ==>
        var idx := old(book.list)[k];
        book.list == Without(old(book.list), k) &&
        book.nodes[..] == Cut(old(book.nodes[..]), old(book.list), k)[idx := Freed(old(book.nodes[idx]), old(book.freeHead))] &&
        (r.Ok? <==> old(book.nodeCount) > 0) &&
        (r.Ok? ==> r.value == Some(old(book.nodes[idx])) && book.nodeCount == old(book.nodeCount) - 1) &&
        (r.Err? ==> r.error == MathError))
  {
    var index := book.headIndex;
    ghost var k := 0;
    ghost var ns0 := book.nodes[..];
    while index != EMPTY_INDEX
      invariant unchanged(book, book.nodes)
      invariant 0 <= k <= |book.list|
      invariant index == if k < |book.list| then book.list[k] else -1
      invariant OrderFrom(ns0, book.list, orderId, 0) == OrderFrom(ns0, book.list, orderId, k)
      decreases |book.list| - k
    {
      var n := book.nodes[index];
      assert NodeAt(ns0, book.list, k) == n;
      if n.occupied && n.orderId == orderId {
        var freed := TakeOut(book, index, k);
        if freed.Err? {
          return Err(freed.error);
        }
        return Ok(Some(n));
      }
      index := n.next;
      k := k + 1;
    }
    return Ok(None);
  }

  /** cancle_order_handler (cancel_order.rs:41-126). The order id must sit
      in one of slots 1..15 of the position, and an occupied node with that
      id must be listed in the asks or, failing that, the bids; otherwise
      OrderNotFound before anything is written. The first such node is
      unlinked and freed, the slot is cleared (id 0, bit `slot` off), the
      active-order count drops by one, and one cancel event is appended
      carrying the node's reserves and outcome, with the position owner as
      maker. The handler fails only with the errors listed in its last
      ensures; on a failure after the node was removed the writes made so
      far stand in this model (the runtime discards them). */
  method CancelOrder(asks: Slab, bids: Slab, queue: EventQueue, position: TraderPosition, orderId: u64, now: i64)
    returns (r: Result<()>, ghost removed: SlabNode)
    requires asks.Valid() && bids.Valid() && asks != bids && asks.nodes != bids.nodes
    requires position.orderIds.Length == MAX_ORDER_PER_TRADER
    modifies asks, asks.nodes, bids, bids.nodes, queue, position, position.orderIds
    ensures asks.Valid() && bids.Valid()
    ensures SlotFrom(old(position.orderIds[..]), orderId, 1) == MAX_ORDER_PER_TRADER ==>
      r == Err(OrderNotFound) && unchanged(asks, asks.nodes, bids, bids.nodes, queue, position, position.orderIds)
    ensures var s := SlotFrom(old(position.orderIds[..]), orderId, 1);
      s < MAX_ORDER_PER_TRADER ==> Cancelled(asks, bids, queue, position, s, orderId, now, r, removed)
    ensures r.Err? ==> r.error in {OrderNotFound, MathError, EventQueueFull}
  {
    removed := ZERO_NODE;
    var found: Option<nat> := None;
    for i := 1 to MAX_ORDER_PER_TRADER
      invariant found.None?
      invariant SlotFrom(position.orderIds[..], orderId, 1) == SlotFrom(position.orderIds[..], orderId, i)
    {
      if position.orderIds[i] == orderId {
        found := Some(i);
        break;
      }
    }
    if found.None? {
      return Err(OrderNotFound), removed;
    }
    r, removed := CancelAt(asks, bids, queue, position, found.value, orderId, now);
  }

  /** What cancel_order does once the id was found in slot `s`: when no
      listed occupied node of the asks or the bids carries the id it fails
      with OrderNotFound having written nothing; when it succeeds, the
      first such node (in the asks if there is one there) is `removed`
      from its list, the other slab is untouched, slot `s` is cleared (id
      0, its bit off), the active-order count dropped by one and one
      cancel event for `removed`, with the position owner as maker, was
      appended. */
  twostate predicate Cancelled(asks: Slab, bids: Slab, queue: EventQueue, position: TraderPosition, s: nat,
                               orderId: u64, now: i64, new r: Result<()>, new removed: SlabNode)
    requires old(allocated(asks) && allocated(bids) && allocated(queue) && allocated(position))
    requires old(asks.Valid() && bids.Valid()) && position.orderIds.Length == MAX_ORDER_PER_TRADER && 1 <= s < MAX_ORDER_PER_TRADER
    reads asks, asks.nodes, bids, bids.nodes, queue, position, position.orderIds
  {
    var ka := OrderFrom(old(asks.nodes[..]), old(asks.list), orderId, 0);
    var kb := OrderFrom(old(bids.nodes[..]), old(bids.list), orderId, 0);
    (ka == |old(asks.list)| && kb == |old(bids.list)| ==>
      r == Err(OrderNotFound) && unchanged(asks, asks.nodes, bids, bids.nodes, queue, position, position.orderIds)) &&
    (r.Ok? ==> (
      (ka < |old(asks.list)| ==>
        asks.list == Without(old(asks.list), ka) && removed == old(asks.nodes[asks.list[ka]]) &&
        unchanged(bids, bids.nodes)) &&
      (ka == |old(asks.list)| ==>
        kb < |old(bids.list)| && bids.list == Without(old(bids.list), kb) &&
        removed == old(bids.nodes[bids.list[kb]]) && unchanged(asks, asks.nodes)) &&
      position.orderIds[..] == old(position.orderIds[..])[s := 0] &&
      position.slotsBitmap == ClearSlot(old(position.slotsBitmap), s) &&
      position.activeOrders == old(position.activeOrders) - 1 &&
      queue.events == old(queue.events) + [CancelEvent(old(position.owner), removed, orderId, now)] &&
      queue.count == old(queue.count) + 1))
  }

  /** cancel_order.rs:55-123, for the slot `s` the id was found in. */
  method CancelAt(asks: Slab, bids: Slab, queue: EventQueue, position: TraderPosition, s: nat, orderId: u64, now: i64)
    returns (r: Result<()>, ghost removed: SlabNode)
    requires asks.Valid() && bids.Valid() && asks != bids && asks.nodes != bids.nodes
    requires position.orderIds.Length == MAX_ORDER_PER_TRADER && 1 <= s < MAX_ORDER_PER_TRADER
    modifies asks, asks.nodes, bids, bids.nodes, queue, position, position.orderIds
    ensures asks.Valid() && bids.Valid()
    ensures Cancelled(asks, bids, queue, position, s, orderId, now, r, removed)
    ensures r.Err? ==> r.error in {OrderNotFound, MathError, EventQueueFull}
  {
    removed := ZERO_NODE;
    var node := CancelInEither(asks, bids, orderId);
    if node.Err? {
      return Err(node.error), removed;
    }
    if node.value.None? {
      return Err(OrderNotFound), removed;
    }
    removed := node.value.value;
    assert position.orderIds[..] == old(position.orderIds[..]);
    r := RecordCancel(queue, position, s, node.value.value, orderId, now);
  }

  /** The walk of cancel_order.rs:59-91 over the asks, then the bids. */
  method CancelInEither(asks: Slab, bids: Slab, orderId: u64) returns (r: Result<Option<SlabNode>>)
    requires asks.Valid() && bids.Valid() && asks != bids && asks.nodes != bids.nodes
    modifies asks`headIndex, asks`list, asks`freeHead, asks`nodeCount, asks`free, asks.nodes
    modifies bids`headIndex, bids`list, bids`freeHead, bids`nodeCount, bids`free, bids.nodes
    ensures asks.Valid() && bids.Valid()
    ensures r.Err? ==> r.error == MathError
    ensures r == Ok(None) <==>
      OrderFrom(old(asks.nodes[..]), old(asks.list), orderId, 0) == |old(asks.list)| &&
      OrderFrom(old(bids.nodes[..]), old(bids.list), orderId, 0) == |old(bids.list)|
    ensures var ka := OrderFrom(old(asks.nodes[..]), old(asks.list), orderId, 0);
      var kb := OrderFrom(old(bids.nodes[..]), old(bids.list), orderId, 0);
      (ka == |old(asks.list)| && kb == |old(bids.list)| ==> r == Ok(None) && unchanged(asks, asks.nodes, bids, bids.nodes)) &&
      (ka < |old(asks.list)| ==>
        asks.list == Without(old(asks.list), ka) && unchanged(bids, bids.nodes) &&
        (r.Ok? ==> r.value == Some(old(asks.nodes[asks.list[ka]])))) &&
      (ka == |old(asks.list)| && kb < |old(bids.list)| ==>
        bids.list == Without(old(bids.list), kb) && unchanged(asks, asks.nodes) &&
        (r.Ok? ==> r.value == Some(old(bids.nodes[bids.list[kb]]))))
  {
    r := CancelIn(asks, orderId);
    if r.Ok? && r.value.None? {
      r := CancelIn(bids, orderId);
    }
  }

  /** The position and event bookkeeping of cancel_order
      (cancel_order.rs:95-123) for the removed node `n` from slot `i`. */
  method RecordCancel(queue: EventQueue, position: TraderPosition, i: nat, n: SlabNode, orderId: u64, now: i64)
    returns (r: Result<()>)
    requires position.orderIds.Length == MAX_ORDER_PER_TRADER && 1 <= i < MAX_ORDER_PER_TRADER
    modifies queue`events, queue`count, position`slotsBitmap, position`activeOrders, position.orderIds
    ensures position.orderIds[..] == old(position.orderIds[..])[i := 0]
    ensures position.slotsBitmap == ClearSlot(old(position.slotsBitmap), i)
    ensures r.Ok? <==> old(position.activeOrders) > 0 && |old(queue.events)| < MAX_EVENTS && old(queue.count) + 1 < U64_LIMIT
    ensures r.Err? ==> r.error == if old(position.activeOrders) > 0 && |old(queue.events)| >= MAX_EVENTS then EventQueueFull else MathError
    ensures r.Ok? ==>
      position.activeOrders == old(position.activeOrders) - 1 &&
      queue.events == old(queue.events) + [CancelEvent(position.owner, n, orderId, now)] &&
      queue.count == old(queue.count) + 1
  {
    position.orderIds[i] := 0;
    position.slotsBitmap := ClearSlot(position.slotsBitmap, i);
    if position.activeOrders == 0 {
      return Err(MathError);
    }
    position.activeOrders := position.activeOrders - 1;
    if |queue.events| >= MAX_EVENTS {
      return Err(EventQueueFull);
    }
    queue.events := queue.events + [CancelEvent(position.owner, n, orderId, now)];
    if queue.count + 1 >= U64_LIMIT {
      return Err(MathError);
    }
    queue.count := queue.count + 1;
    return Ok(());
  }
}

/** The matching instruction (instructions/match_request.rs) on the arena
    slabs: the waiting requests are taken off the request queue and run,
    oldest first, against the two book sides, writing Fill and Cancel
    events to the event queue. Each method is proved against the
    functions of MatchingSpec. */
module Matching {
  import opened Common
  import opened BookState
  import opened RingBuffer
  import opened SlabChains
  import opened SlabTree
  import opened ArenaSlab
  import opened MatchingSpec

  /** The matching loop of match_request.rs:58-118 for a limit request
      against the opposite side, whose book is `b`: the result is the
      taker's unfilled quantity, and the book and the new Fill events are
      those of `Cross`. A failed push stops it with the queue's error. */
  method MatchBest(opposite: Slab, queue: EventQueue, req: Request, now: i64, ghost b: seq<Level>)
    returns (r: Result<u64>)
    requires opposite.Valid() && queue.Valid() && opposite.Book() == b
    modifies opposite`chains, opposite.priceNodes, opposite.orderEntries, queue, queue.events
    ensures opposite.Valid() && queue.Valid() && queue.events == old(queue.events)
    ensures r.Err? ==> r.error == MathError || r.error == Panic
    ensures r.Ok? ==> var x := Cross(b, opposite.isBid, req.side, req.price, req.quantity);
      r.value == x.left && opposite.Book() == x.book &&
      queue.Contents() == old(queue.Contents()) + FillEvents(req, x.price, x.fills, now)
  {
    ghost var crossing := b != [] && Crosses(req.side, b[BestIndex(|b|, opposite.isBid)].price, req.price);
    ghost var k := if b != [] then BestIndex(|b|, opposite.isBid) else 0;
    ghost var m := Consume(if b != [] then b[k].orders else [], req.quantity, []);
    ghost var price := if crossing then b[k].price else 0;
    ghost var rest, fills, book;
    r, rest, fills, book := Sweep(opposite, queue, req, now, b, crossing, k, m, price);
    if r.Ok? {
      CrossDone(b, opposite.isBid, req.side, req.price, req.quantity, crossing, k, rest, r.value, fills, m, book);
    }
  }

  /** The matching loop of match_request.rs:58-118 itself, from the book
      `b` whose best level `k` the taker crosses or not (`crossing`): it
      stops with the loop state where the taker is done or the level holds
      no more orders, or with the error of a failed push. */
  method Sweep(opposite: Slab, queue: EventQueue, req: Request, now: i64, ghost b: seq<Level>, ghost crossing: bool,
               ghost k: nat, ghost m: Consumed, ghost price: u128)
    returns (r: Result<u64>, ghost rest: seq<Resting>, ghost fills: seq<Fill>, ghost book: seq<Level>)
    requires opposite.Valid() && queue.Valid() && opposite.Book() == b
    requires crossing == (b != [] && Crosses(req.side, b[BestIndex(|b|, opposite.isBid)].price, req.price))
    requires k == (if b != [] then BestIndex(|b|, opposite.isBid) else 0)
    requires m == Consume(if b != [] then b[k].orders else [], req.quantity, [])
    requires price == if crossing then b[k].price else 0
    modifies opposite`chains, opposite.priceNodes, opposite.orderEntries, queue, queue.events
    ensures opposite.Valid() && queue.Valid() && queue.events == old(queue.events)
    ensures r.Err? ==> r.error == MathError || r.error == Panic
    ensures r.Ok? ==> (opposite.Book() == book && queue.Contents() == old(queue.Contents()) + FillEvents(req, price, fills, now))
    ensures r.Ok? ==> (!crossing ==> fills == [] && r.value == req.quantity && book == b)
    ensures r.Ok? ==> (crossing ==> Turning(b, k, rest, r.value, fills, m, book))
    ensures r.Ok? ==>
      !(r.value > 0 && book != [] && Crosses(req.side, book[BestIndex(|book|, opposite.isBid)].price, req.price) &&
        book[BestIndex(|book|, opposite.isBid)].orders != [])
  {
    var left := req.quantity;
    rest := if b != [] then b[k].orders else [];
    fills := [];
    book := b;
    ghost var events0 := queue.Contents();
    while true
      invariant opposite.Valid() && queue.Valid() && queue.events == old(queue.events)
      invariant opposite.Book() == book
      invariant queue.Contents() == events0 + FillEvents(req, price, fills, now)
      invariant !crossing ==> fills == [] && left == req.quantity && book == b
      invariant crossing ==> Turning(b, k, rest, left, fills, m, book)
      decreases |rest|, left
    {
      var p, bestPrice, go := Probe(opposite, req, left, book);
      if !go {
        break;
      }
      var taken;
      taken, rest, fills, book := Turn(opposite, queue, req, p, bestPrice, left, now, b, k, rest, fills, m, book, events0);
      if taken.Err? {
        return Err(taken.error), rest, fills, book;
      }
      left := taken.value;
    }
    r := Ok(left);
  }

  /** One turn of the matching loop on the best level `k` of the book `b`
      the loop started from: with `book` the book now, the level holding
      `rest` and `fills` done, the turn takes the front maker and keeps the
      loop state, or stops with the error of a failed push. */
  method Turn(opposite: Slab, queue: EventQueue, req: Request, p: i32, best: u128, left: u64, now: i64,
              ghost b: seq<Level>, ghost k: nat, ghost rest: seq<Resting>, ghost fills: seq<Fill>, ghost m: Consumed,
              ghost book: seq<Level>, ghost events0: seq<Event>)
    returns (r: Result<u64>, ghost rest': seq<Resting>, ghost fills': seq<Fill>, ghost book': seq<Level>)
    requires opposite.Valid() && queue.Valid() && opposite.Book() == book
    requires Turning(b, k, rest, left, fills, m, book)
    requires left > 0 && book != [] && Crosses(req.side, book[BestIndex(|book|, opposite.isBid)].price, req.price) &&
      book[BestIndex(|book|, opposite.isBid)].orders != []
    requires k == BestIndex(|b|, opposite.isBid)
    requires p in opposite.sp && 0 <= p < opposite.priceNodes.Length &&
      opposite.sp[p].at == BestIndex(|book|, opposite.isBid) && best == book[BestIndex(|book|, opposite.isBid)].price
    requires queue.Contents() == events0 + FillEvents(req, b[k].price, fills, now)
    modifies opposite`chains, opposite.priceNodes, opposite.orderEntries, queue, queue.events
    ensures opposite.Valid() && queue.Valid() && queue.events == old(queue.events)
    ensures r.Err? ==> r.error == MathError || r.error == Panic
    ensures r.Ok? ==> Turning(b, k, rest', r.value, fills', m, book') && opposite.Book() == book'
    ensures r.Ok? ==> queue.Contents() == events0 + FillEvents(req, b[k].price, fills', now)
    ensures r.Ok? ==> |rest'| < |rest| || (|rest'| == |rest| && r.value < left)
  {
    TurningAt(b, k, rest, left, fills, m, book, opposite.isBid);
    ghost var f;
    r, f := TakeHead(opposite, queue, req, p, best, left, now, book, k);
    rest', fills', book' := rest, fills, book;
    if r.Err? {
      return;
    }
    book' := opposite.Book();
    TurnDone(opposite.isBid, b, k, rest, left, fills, m, book, best, f, r.value, book');
    EventsStep(req, best, now, events0, fills, f);
    rest', fills' := Remaining(rest, left), fills + [f];
  }

  /** What a completed turn leaves, in the terms the turn's steps state it. */
  lemma TurnDone(isBid: bool, b: seq<Level>, k: nat, rest: seq<Resting>, left: u64, fills: seq<Fill>, m: Consumed,
                 book: seq<Level>, best: u128, f: Fill, value: u64, book': seq<Level>)
    requires Turning(b, k, rest, left, fills, m, book) && k == BestIndex(|b|, isBid) && left > 0
    requires book != [] && book[BestIndex(|book|, isBid)].orders != [] && best == book[BestIndex(|book|, isBid)].price
    requires f == Served(book[k].orders[0], left) && value == left - f.quantity
    requires book' == if book[k].orders[0].quantity > left then FillFront(book, k, book[k].orders[0].quantity - left)
      else DropFront(book, k)
    ensures Turning(b, k, Remaining(rest, left), value, fills + [f], m, book')
    ensures |Remaining(rest, left)| < |rest| || (|Remaining(rest, left)| == |rest| && value < left)
    ensures best == b[k].price
  {
    TurningAt(b, k, rest, left, fills, m, book, isBid);
    assert rest != [] && f == Served(rest[0], left) && best == b[k].price;
    TurnStep(b, k, rest, left, fills, m, book, book');
  }

  /** On the loop's level the book now and the book the loop started from
      agree on the best index and price, and the level holds `rest`. */
  lemma TurningAt(b: seq<Level>, k: nat, rest: seq<Resting>, left: u64, fills: seq<Fill>, m: Consumed,
                  book: seq<Level>, isBid: bool)
    requires Turning(b, k, rest, left, fills, m, book) && k == BestIndex(|b|, isBid)
    ensures |book| == |b| && BestIndex(|book|, isBid) == k && book[k].price == b[k].price && book[k].orders == rest
  {
  }

  /** The checks of the matching loop (match_request.rs:61-84) on a
      book side whose book is `b`: `go` says that the taker has quantity
      `left` to go and the best level crosses its limit and has an order;
      `p` is then that level's price node and `bestPrice` its price. */
  method Probe(opposite: Slab, req: Request, left: u64, ghost b: seq<Level>) returns (p: i32, bestPrice: u128, go: bool)
    requires opposite.Valid() && opposite.Book() == b
    ensures go <==> (left > 0 && b != [] && Crosses(req.side, b[BestIndex(|b|, opposite.isBid)].price, req.price) &&
      b[BestIndex(|b|, opposite.isBid)].orders != [])
    ensures go ==> (p in opposite.sp && 0 <= p < opposite.priceNodes.Length &&
      opposite.sp[p].at == BestIndex(|b|, opposite.isBid) && bestPrice == b[BestIndex(|b|, opposite.isBid)].price)
  {
    if left == 0 {
      return -1, 0, false;
    }
    var best := opposite.FindBest();
    if best.None? {
      return -1, 0, false;
    }
    p := best.value;
    opposite.LevelOf(p);
    bestPrice := opposite.priceNodes[p].key;
    var crossing := if req.side == SIDE_BUY then bestPrice <= req.price else bestPrice >= req.price;
    if !crossing {
      return p, bestPrice, false;
    }
    if opposite.priceNodes[p].orderHead == -1 {
      return p, bestPrice, false;
    }
    go := true;
  }

  /** A turn of the matching loop on a level that still has orders keeps
      the loop state and makes progress. */
  lemma TurnStep(b: seq<Level>, k: nat, rest: seq<Resting>, left: u64, fills: seq<Fill>, m: Consumed,
                 book: seq<Level>, book': seq<Level>)
    requires Turning(b, k, rest, left, fills, m, book) && left > 0 && rest != []
    requires book' == if rest[0].quantity > left then FillFront(book, k, rest[0].quantity - left) else DropFront(book, k)
    ensures var f := Served(rest[0], left);
      Turning(b, k, Remaining(rest, left), left - f.quantity, fills + [f], m, book')
    ensures |Remaining(rest, left)| < |rest| || (|Remaining(rest, left)| == |rest| && left - Served(rest[0], left).quantity < left)
  {
    assert book[k].orders == rest;
    TakenBook(b, k, rest, left);
  }

  /** The turn's Fill event follows those of the earlier fills. */
  lemma EventsStep(req: Request, price: u128, now: i64, events0: seq<Event>, fills: seq<Fill>, f: Fill)
    ensures events0 + FillEvents(req, price, fills, now) + [FillEvent(req, price, f, now)] ==
      events0 + FillEvents(req, price, fills + [f], now)
  {
    FillEventsSnoc(req, price, fills, f, now);
  }

  /** Where the matching loop stops, it has done what `Cross` says. */
  lemma CrossDone(b: seq<Level>, isBid: bool, side: u8, limit: u128, quantity: u64, crossing: bool, k: nat,
                  rest: seq<Resting>, left: u64, fills: seq<Fill>, m: Consumed, book: seq<Level>)
    requires crossing == (b != [] && Crosses(side, b[BestIndex(|b|, isBid)].price, limit))
    requires k == (if b != [] then BestIndex(|b|, isBid) else 0)
    requires m == Consume(if b != [] then b[k].orders else [], quantity, [])
    requires !crossing ==> fills == [] && left == quantity && book == b
    requires crossing ==> Turning(b, k, rest, left, fills, m, book)
    requires !(left > 0 && book != [] && Crosses(side, book[BestIndex(|book|, isBid)].price, limit) &&
      book[BestIndex(|book|, isBid)].orders != [])
    ensures var x := Cross(b, isBid, side, limit, quantity);
      x.left == left && x.book == book && x.fills == fills && x.price == if crossing then b[k].price else 0
  {
    if crossing {
      TurningAt(b, k, rest, left, fills, m, book, isBid);
    }
  }

  /** The state of the matching loop on level `k` of book `b`: the level
      holds `rest`, and `fills` so far lead on to the outcome `m`. */
  ghost predicate Turning(b: seq<Level>, k: nat, rest: seq<Resting>, left: u64, fills: seq<Fill>, m: Consumed, book: seq<Level>)
  {
    k < |b| && book == b[k := b[k].(orders := rest)] && Consume(rest, left, fills) == m
  }

  /** One turn of the matching loop (match_request.rs:85-117) once the
      best level, at position `k` of book `b`, is known to cross and to have
      an order: the Fill event for the front maker is pushed, then that
      maker keeps its place with what it has left or, exhausted, is popped. */
  method TakeHead(opposite: Slab, queue: EventQueue, req: Request, p: i32, best: u128, left: u64, now: i64,
                  ghost b: seq<Level>, ghost k: nat)
    returns (r: Result<u64>, ghost f: Fill)
    requires opposite.Valid() && queue.Valid() && left > 0 && opposite.Book() == b
    requires p in opposite.sp && 0 <= p < opposite.priceNodes.Length && opposite.sp[p].at == k
    requires k < |b| && b[k].orders != [] && b[k].price == best
    modifies opposite`chains, opposite.priceNodes, opposite.orderEntries, queue, queue.events
    ensures opposite.Valid() && queue.Valid() && queue.events == old(queue.events)
    ensures f == Served(b[k].orders[0], left)
    ensures r.Err? ==> r.error == MathError || r.error == Panic
    ensures r.Ok? ==> r.value == left - f.quantity
    ensures r.Ok? ==> queue.Contents() == old(queue.Contents()) + [FillEvent(req, best, f, now)]
    ensures r.Ok? ==> (opposite.Book() ==
      if b[k].orders[0].quantity > left then FillFront(b, k, b[k].orders[0].quantity - left) else DropFront(b, k))
  {
    opposite.LevelOf(p);
    var head := opposite.priceNodes[p].orderHead;
    var entry := opposite.orderEntries[head];
    var matched := if entry.quantity > left then left else entry.quantity;
    f := Fill(RestingOf(entry), matched);
    var event := Event(EVENT_FILL, entry.openOrderOwner, entry.ownerSlot, req.openOrder, req.side, 0, best, matched,
                       entry.orderId, req.outcome, now);
    assert event == FillEvent(req, best, f, now);
    var pushed := queue.Push(event);
    assert opposite.Valid() && opposite.Book() == b;
    if pushed.Err? {
      return Err(pushed.error), f;
    }
    TakeFront(opposite, p, left, b, k);
    r := Ok(left - matched);
  }

  /** match_request.rs:108-113: a front maker with more than the taker has
      left keeps its place with the difference; any other is popped. */
  method TakeFront(opposite: Slab, p: i32, left: u64, ghost b: seq<Level>, ghost k: nat)
    requires opposite.Valid() && opposite.Book() == b
    requires p in opposite.sp && 0 <= p < opposite.priceNodes.Length && opposite.sp[p].at == k
    requires k < |b| && b[k].orders != []
    modifies opposite`chains, opposite.priceNodes, opposite.orderEntries
    ensures opposite.Valid()
    ensures opposite.Book() ==
      (if b[k].orders[0].quantity > left then FillFront(b, k, b[k].orders[0].quantity - left) else DropFront(b, k))
  {
    opposite.LevelOf(p);
    var head := opposite.priceNodes[p].orderHead;
    var quantity := opposite.orderEntries[head].quantity;
    if quantity > left {
      opposite.FillHead(p, quantity - left);
    } else {
      var popped := opposite.PopOrder(p);
    }
  }

  /** match_request.rs:145-162: the taker's remainder `left` rests at its
      limit price on its own side, whose book is `b`, behind the orders
      already there; a buy reserves its price times quantity. A reserve
      that overflows u128 fails with MathError, a full price-node or entry
      array with MathError, an index out of range aborts. */
  method RestOrder(own: Slab, req: Request, left: u64, ghost b: seq<Level>) returns (r: Result<()>)
    requires own.Valid() && own.Book() == b
    modifies own`root, own`sp, own`io, own`chains, own`nodeCount, own.priceNodes, own.orderEntries
    ensures own.Valid()
    ensures r.Err? ==> r.error == MathError || r.error == Panic
    ensures ReservedAmount(req.side, req.price, left).Err? ==> r.Err?
    ensures r.Ok? ==> (ReservedAmount(req.side, req.price, left).Ok? &&
      own.Book() == AddResting(b, req.price, Resting(req.orderId, req.openOrder, 0, left,
                                                      ReservedAmount(req.side, req.price, left).value)))
  {
    var placed := PlaceLevel(own, req.price, b);
    if placed.Err? {
      return Err(placed.error);
    }
    var p := placed.value;
    ghost var b1 := own.Book();
    var reserved := ReservedAmount(req.side, req.price, left);
    var e := ClaimEntry(own);
    if e.Err? {
      return Err(e.error);
    }
    if reserved.Err? {
      return Err(reserved.error);
    }
    var written := own.orderEntries[e.value].(orderId := req.orderId, openOrderOwner := req.openOrder, quantity := left,
                                              ownerSlot := 0, reservedAmount := reserved.value);
    r := JoinLevel(own, p, e.value, written, b1);
    if r.Ok? {
      RestedAt(b, req.price, b1, own.sp[p].at, RestingOf(written), own.Book());
    }
  }

  /** The end of the resting path (match_request.rs:148-162): the claimed
      entry `e` is written and joins the back of the chain of price node
      `p`, whose level is at `sp[p].at` of the book `b`. */
  method JoinLevel(own: Slab, p: i32, e: i32, written: OrderEntry, ghost b: seq<Level>) returns (r: Result<()>)
    requires own.Valid() && own.Book() == b
    requires 0 <= p < own.priceNodes.Length && p in own.sp && own.sp[p].at < |b|
    requires 0 <= e < own.orderEntries.Length && written.occupied && Unchained(own.chains, e)
    modifies own`chains, own.priceNodes, own.orderEntries
    ensures own.Valid() && own.sp == old(own.sp)
    ensures r.Err? ==> r.error == MathError || r.error == Panic
    ensures r.Ok? ==> (var at := own.sp[p].at; own.Book() == b[at := b[at].(orders := b[at].orders + [RestingOf(written)])])
  {
    own.WriteEntry(e, written);
    r := own.AppendOrder(p, e);
  }

  /** Joining the back of the level `AddResting` picks is `AddResting`. */
  lemma RestedAt(b: seq<Level>, price: u128, b1: seq<Level>, at: nat, o: Resting, book: seq<Level>)
    requires b1 == (if HasLevel(b, price) then b else WithLevel(b, price))
    requires at == Below(b1, price) < |b1| && book == b1[at := b1[at].(orders := b1[at].orders + [o])]
    ensures book == AddResting(b, price, o)
  {
  }

  /** insert_price_node_by_tree in the resting path: the price node of
      `price`, found or added, whose level is where `AddResting` puts an
      order at that price. */
  method PlaceLevel(own: Slab, price: u128, ghost b: seq<Level>) returns (r: Result<i32>)
    requires own.Valid() && own.Book() == b
    modifies own`root, own`sp, own`io, own`chains, own`nodeCount, own.priceNodes
    ensures own.Valid() && own.orderEntries == old(own.orderEntries)
    ensures r.Err? ==> r.error == MathError
    ensures r.Ok? ==> (own.Book() == (if HasLevel(b, price) then b else WithLevel(b, price)) &&
      0 <= r.value < own.priceNodes.Length && r.value in own.sp && own.priceNodes[r.value].key == price &&
      own.sp[r.value].at == Below(own.Book(), price) < |own.Book()|)
  {
    LevelsAreKeys(own, price);
    r := own.InsertPriceNode(price);
    if r.Ok? {
      LevelOfKey(own, r.value, price);
    }
  }

  /** allocate_order_entry in the resting path: a claimed entry on no
      chain, the book unchanged. */
  method ClaimEntry(own: Slab) returns (r: Result<i32>)
    requires own.Valid()
    modifies own.orderEntries
    ensures own.Valid() && own.Book() == old(own.Book())
    ensures r.Err? ==> r.error == MathError
    ensures r.Ok? ==> (0 <= r.value < own.orderEntries.Length && own.orderEntries[r.value].occupied &&
      Unchained(own.chains, r.value))
  {
    r := own.AllocateOrderEntry();
  }

  /** The book has a level at a price exactly when the tree holds that key. */
  lemma LevelsAreKeys(s: Slab, price: u128)
    requires s.Valid()
    ensures HasLevel(s.Book(), price) <==> HoldsKey(s.priceNodes[..], s.io, price)
  {
    s.BookShape();
    var b := s.Book();
    if HasLevel(b, price) {
      var j :| 0 <= j < |b| && b[j].price == price;
      assert 0 <= s.io[j] < |s.priceNodes[..]| && s.priceNodes[..][s.io[j]].key == price;
    }
    if HoldsKey(s.priceNodes[..], s.io, price) {
      var k :| 0 <= k < |s.io| && 0 <= s.io[k] < |s.priceNodes[..]| && s.priceNodes[..][s.io[k]].key == price;
      assert b[k].price == price;
    }
  }

  /** The level of a price node in the tree sits where its price belongs. */
  lemma LevelOfKey(s: Slab, p: i32, price: u128)
    requires s.Valid() && p in s.sp && 0 <= p < s.priceNodes.Length && s.priceNodes[p].key == price
    ensures s.sp[p].at < |s.Book()| && Below(s.Book(), price) == s.sp[p].at
  {
    s.BookShape();
    var at := s.sp[p].at;
    assert at < |s.io| && s.io[at] == p;
    BelowAt(s.Book(), price, at);
  }

  /** match_request.rs:120-162: a taker with quantity `left` still to go
      gets a Fill event naming the market as maker at its own limit, and
      then rests on its own side, whose book is `b`. */
  method RestRemainder(own: Slab, queue: EventQueue, req: Request, market: Pubkey, left: u64, now: i64,
                       ghost b: seq<Level>) returns (r: Result<()>)
    requires own.Valid() && queue.Valid() && own.Book() == b
    modifies own`root, own`sp, own`io, own`chains, own`nodeCount, own.priceNodes, own.orderEntries, queue, queue.events
    ensures own.Valid() && queue.Valid() && queue.events == old(queue.events)
    ensures r.Err? ==> r.error == MathError || r.error == Panic
    ensures Rest(b, req, market, left, now).Err? ==> r.Err?
    ensures r.Ok? ==> (Rest(b, req, market, left, now).Ok? && own.Book() == Rest(b, req, market, left, now).value.0 &&
      queue.Contents() == old(queue.Contents()) + Rest(b, req, market, left, now).value.1)
  {
    if left == 0 {
      return Ok(());
    }
    var pushed := queue.Push(RemainderEvent(req, market, left, now));
    if pushed.Err? {
      return Err(pushed.error);
    }
    r := RestOrder(own, req, left, b);
  }

  /** A limit request (match_request.rs:52-163) against the `opposite`
      side, whose book is `bo`, with its remainder resting on its `own`
      side, whose book is `bs`. */
  method MatchLimit(opposite: Slab, own: Slab, queue: EventQueue, req: Request, market: Pubkey, now: i64,
                    ghost bo: seq<Level>, ghost bs: seq<Level>) returns (r: Result<()>)
    requires opposite != own && opposite.priceNodes != own.priceNodes && opposite.orderEntries != own.orderEntries
    requires opposite.Valid() && own.Valid() && queue.Valid() && opposite.Book() == bo && own.Book() == bs
    modifies opposite`chains, opposite.priceNodes, opposite.orderEntries
    modifies own`root, own`sp, own`io, own`chains, own`nodeCount, own.priceNodes, own.orderEntries, queue, queue.events
    ensures opposite.Valid() && own.Valid() && queue.Valid() && queue.events == old(queue.events)
    ensures r.Err? ==> r.error == MathError || r.error == Panic
    ensures Limit(bo, bs, opposite.isBid, req, market, now).Err? ==> r.Err?
    ensures r.Ok? ==> var l := Limit(bo, bs, opposite.isBid, req, market, now);
      l.Ok? && opposite.Book() == l.value.opposite && own.Book() == l.value.own &&
      queue.Contents() == old(queue.Contents()) + l.value.events
  {
    var left := MatchBest(opposite, queue, req, now, bo);
    if left.Err? {
      return Err(left.error);
    }
    assert own.Valid() && own.Book() == bs;
    ghost var x := Cross(bo, opposite.isBid, req.side, req.price, req.quantity);
    ghost var fillEvents := FillEvents(req, x.price, x.fills, now);
    r := RestRemainder(own, queue, req, market, left.value, now, bs);
    if r.Ok? {
      Appended(old(queue.Contents()), fillEvents, Rest(bs, req, market, x.left, now).value.1);
    }
  }

  /** One request of the loop of match_request.rs:33-164 on the asks and
      bids, whose books are `ba` and `bb`: what `Step` says, or an error
      that ends the instruction. */
  method MatchRequest(asks: Slab, bids: Slab, queue: EventQueue, req: Request, market: Pubkey, now: i64,
                      ghost ba: seq<Level>, ghost bb: seq<Level>) returns (r: Result<()>)
    requires asks != bids && asks.priceNodes != bids.priceNodes && asks.orderEntries != bids.orderEntries
    requires asks.Valid() && bids.Valid() && queue.Valid() && asks.Book() == ba && bids.Book() == bb
    modifies asks`root, asks`sp, asks`io, asks`chains, asks`nodeCount, asks.priceNodes, asks.orderEntries
    modifies bids`root, bids`sp, bids`io, bids`chains, bids`nodeCount, bids.priceNodes, bids.orderEntries
    modifies queue, queue.events
    ensures asks.Valid() && bids.Valid() && queue.Valid() && queue.events == old(queue.events)
    ensures r.Err? ==> r.error == MathError || r.error == Panic
    ensures Step(ba, bb, asks.isBid, bids.isBid, req, market, now).Err? ==> r.Err?
    ensures r.Ok? ==> var step := Step(ba, bb, asks.isBid, bids.isBid, req, market, now);
      step.Ok? && asks.Book() == step.value.asks && bids.Book() == step.value.bids &&
      queue.Contents() == old(queue.Contents()) + step.value.events
    // a cancel request fails only when its event finds no room
    ensures req.requestType == REQUEST_CANCEL_ORDER ==>
      queue.head == old(queue.head) &&
      (r.Ok? <==> old(queue.count) < MAX_EVENTS && old(queue.head) as int + old(queue.count) as int < U64_LIMIT) &&
      (r.Ok? ==> queue.count == old(queue.count) + 1)
  {
    if req.requestType == REQUEST_CANCEL_ORDER {
      r := queue.Push(CancelEvent(req, now));
      return;
    }
    if req.side == SIDE_BUY {
      r := MatchLimit(asks, bids, queue, req, market, now, ba, bb);
    } else {
      r := MatchLimit(bids, asks, queue, req, market, now, bb, ba);
    }
  }

  /** Events pushed in two rounds are the events of both rounds in order. */
  lemma Appended(before: seq<Event>, first: seq<Event>, second: seq<Event>)
    ensures before + first + second == before + (first + second)
  {
  }

  /** match_order_handler (match_request.rs:31-166): up to `maxRequests`
      of the oldest waiting requests are taken off the request queue and
      run in order against the asks and bids; the books and the event queue
      end as `Process` says, or the instruction fails with an error. */
  method MatchOrders(requests: RequestQueue, asks: Slab, bids: Slab, queue: EventQueue, market: Pubkey,
                     maxRequests: u16, now: i64) returns (r: Result<()>)
    requires asks != bids && asks.priceNodes != bids.priceNodes && asks.orderEntries != bids.orderEntries
    requires requests.Valid() && asks.Valid() && bids.Valid() && queue.Valid()
    modifies requests
    modifies asks`root, asks`sp, asks`io, asks`chains, asks`nodeCount, asks.priceNodes, asks.orderEntries
    modifies bids`root, bids`sp, bids`io, bids`chains, bids`nodeCount, bids.priceNodes, bids.orderEntries
    modifies queue, queue.events
    ensures requests.Valid() && asks.Valid() && bids.Valid() && queue.Valid()
    ensures r.Err? ==> r.error == MathError || r.error == Panic
    ensures r.Ok? ==> var k := Min(maxRequests as nat, |old(requests.Contents())|);
      var p := Process(old(asks.Book()), old(bids.Book()), asks.isBid, bids.isBid, old(requests.Contents())[..k], market, now);
      p.Ok? && asks.Book() == p.value.asks && bids.Book() == p.value.bids &&
      queue.Contents() == old(queue.Contents()) + p.value.events && requests.Contents() == old(requests.Contents())[k..]
    // a batch of cancels goes through when the indices stay in range and the event queue has room
    ensures var k := Min(maxRequests as nat, |old(requests.Contents())|);
      (forall j :: 0 <= j < k ==> old(requests.Contents())[j].requestType == REQUEST_CANCEL_ORDER) &&
      old(requests.head) as int + k < U64_LIMIT &&
      old(queue.count) as int + k <= MAX_EVENTS && old(queue.head) as int + old(queue.count) as int + k <= U64_LIMIT
      ==> r.Ok?
  {
    ghost var ba, bb := asks.Book(), bids.Book();
    var taken := requests.Dequeue(maxRequests as nat);
    if taken.Err? {
      return Err(taken.error);
    }
    assert asks.Valid() && bids.Valid() && queue.Valid() && asks.Book() == ba && bids.Book() == bb;
    ghost var remaining := requests.Contents();
    r := RunRequests(asks, bids, queue, taken.value, market, now, ba, bb);
    assert requests.Valid() && requests.Contents() == remaining;
  }

  /** The loop of match_request.rs:33-164 over the dequeued requests
      `reqs`, on the asks and bids whose books are `ba` and `bb`. */
  method RunRequests(asks: Slab, bids: Slab, queue: EventQueue, reqs: seq<Request>, market: Pubkey, now: i64,
                     ghost ba: seq<Level>, ghost bb: seq<Level>) returns (r: Result<()>)
    requires asks != bids && asks.priceNodes != bids.priceNodes && asks.orderEntries != bids.orderEntries
    requires asks.Valid() && bids.Valid() && queue.Valid() && asks.Book() == ba && bids.Book() == bb
    modifies asks`root, asks`sp, asks`io, asks`chains, asks`nodeCount, asks.priceNodes, asks.orderEntries
    modifies bids`root, bids`sp, bids`io, bids`chains, bids`nodeCount, bids.priceNodes, bids.orderEntries
    modifies queue, queue.events
    ensures asks.Valid() && bids.Valid() && queue.Valid() && queue.events == old(queue.events)
    ensures r.Err? ==> r.error == MathError || r.error == Panic
    ensures r.Ok? ==> var p := Process(ba, bb, asks.isBid, bids.isBid, reqs, market, now);
      p.Ok? && asks.Book() == p.value.asks && bids.Book() == p.value.bids &&
      queue.Contents() == old(queue.Contents()) + p.value.events
    // a batch of cancels goes through when the event queue has room for all of them
    ensures (forall k :: 0 <= k < |reqs| ==> reqs[k].requestType == REQUEST_CANCEL_ORDER) &&
      old(queue.count) as int + |reqs| <= MAX_EVENTS && old(queue.head) as int + old(queue.count) as int + |reqs| <= U64_LIMIT
      ==> r.Ok?
  {
    ghost var events0 := queue.Contents();
    ghost var o := Outcome(ba, bb, []);
    ghost var cancels := forall k :: 0 <= k < |reqs| ==> reqs[k].requestType == REQUEST_CANCEL_ORDER;
    for i := 0 to |reqs|
      invariant asks.Valid() && bids.Valid() && queue.Valid() && queue.events == old(queue.events)
      invariant Process(ba, bb, asks.isBid, bids.isBid, reqs[..i], market, now) == Ok(o)
      invariant asks.Book() == o.asks && bids.Book() == o.bids && queue.Contents() == events0 + o.events
      invariant cancels ==> queue.head == old(queue.head) && queue.count as int == old(queue.count) as int + i
    {
      var done := MatchRequest(asks, bids, queue, reqs[i], market, now, o.asks, o.bids);
      if done.Err? {
        return Err(done.error);
      }
      ghost var step := Step(o.asks, o.bids, asks.isBid, bids.isBid, reqs[i], market, now).value;
      ProcessNext(ba, bb, asks.isBid, bids.isBid, reqs, market, now, i, o);
      Appended(events0, o.events, step.events);
      o := Outcome(step.asks, step.bids, o.events + step.events);
    }
    assert reqs[..|reqs|] == reqs;
    r := Ok(());
  }
}

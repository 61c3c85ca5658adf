/** What the matching instruction of instructions/match_request.rs does to
    the two books and the event queue, stated on the abstract book of
    SlabChains: a book side is its sequence of price levels in increasing
    price order, each with its resting orders oldest first.

    The instruction only ever looks at the best level of the opposite side:
    popping an exhausted maker never removes its price node, so the best
    node stays the same for the whole loop, and the loop stops as soon as
    that node's chain is empty. */
module MatchingSpec {
  import opened Common
  import opened BookState
  import opened SlabChains
  import Intake

  /** A maker and the quantity taken from it. */
  datatype Fill = Fill(maker: Resting, quantity: u64)

  /** What is left of a level after a taker went through it, the fills in
      the order they happened, and the taker's unfilled quantity. */
  datatype Consumed = Consumed(orders: seq<Resting>, fills: seq<Fill>, left: u64)

  /** The total quantity of some fills. */
  function Filled(fs: seq<Fill>): nat
  {
    if fs == [] then 0 else Filled(fs[..|fs| - 1]) + fs[|fs| - 1].quantity
  }

  /** The total quantity resting in some orders. */
  function Volume(os: seq<Resting>): nat
  {
    if os == [] then 0 else os[0].quantity + Volume(os[1..])
  }

  /** The fill the front maker `o` gives a taker with `left` to go:
      min(its quantity, what is left). */
  function Served(o: Resting, left: u64): (f: Fill)
    ensures f.maker == o && f.quantity <= o.quantity && f.quantity <= left
    ensures f.quantity == o.quantity || f.quantity == left
  {
    Fill(o, if o.quantity > left then left else o.quantity)
  }

  /** The level after its front maker served a taker with `left` to go: a
      maker with more than that keeps its place with the rest, any other
      maker is taken off. */
  function Remaining(orders: seq<Resting>, left: u64): (r: seq<Resting>)
    requires orders != []
    ensures |r| == |orders| || (|r| == |orders| - 1 && Served(orders[0], left).quantity == orders[0].quantity)
  {
    var o := orders[0];
    if o.quantity > left then [o.(quantity := o.quantity - left)] + orders[1..] else orders[1..]
  }

  /** The matching loop of match_request.rs:60-118 on one level, after the
      fills `done`: while the taker has quantity left and the level has an
      order, the front maker serves it. */
  function Consume(orders: seq<Resting>, left: u64, done: seq<Fill>): (m: Consumed)
    // the taker's quantity is split exactly into fills and remainder
    ensures Filled(m.fills) + m.left == Filled(done) + left
    // the loop only stops when the taker is done or the level is empty
    ensures m.left == 0 || m.orders == []
    // the new fills come after the earlier ones, at most one per maker
    ensures |done| <= |m.fills| <= |done| + |orders| && m.fills[..|done|] == done
    // a taker with some quantity always meets a non-empty level's front maker
    ensures |m.fills| == |done| <==> left == 0 || orders == []
    ensures |m.fills| == |done| ==> m.orders == orders && m.left == left
    decreases |orders|, left
  {
    if left == 0 || orders == [] then Consumed(orders, done, left)
    else
      var f := Served(orders[0], left);
      assert (done + [f])[..|done|] == done;
      var m := Consume(Remaining(orders, left), left - f.quantity, done + [f]);
      assert m.fills[..|done|] == m.fills[..|done| + 1][..|done|];
      m
  }

  /** Makers are served oldest first, each giving at most what it had, and
      every maker but the last one served is exhausted. */
  lemma {:induction false} ConsumeFifo(orders: seq<Resting>, left: u64, done: seq<Fill>, i: nat)
    requires |done| <= i < |Consume(orders, left, done).fills|
    ensures var m := Consume(orders, left, done);
      m.fills[i].maker == orders[i - |done|] && m.fills[i].quantity <= orders[i - |done|].quantity &&
      (i < |m.fills| - 1 ==> m.fills[i].quantity == orders[i - |done|].quantity)
    decreases |orders|, left
  {
    var f := Served(orders[0], left);
    var rest := Remaining(orders, left);
    var left', done' := left - f.quantity, done + [f];
    var m := Consume(rest, left', done');
    assert m == Consume(orders, left, done);
    if i == |done| {
      assert m.fills[i] == m.fills[..|done'|][i] == f;
      if i < |m.fills| - 1 {
        assert orders[0].quantity <= left;
      }
    } else {
      assert orders[0].quantity <= left;
      ConsumeFifo(rest, left', done', i);
    }
  }

  /** What stays on the level once some makers were served: the orders
      after the last of them, behind what that maker has left if it was only
      partly filled. */
  lemma {:induction false} ConsumeRemains(orders: seq<Resting>, left: u64, done: seq<Fill>)
    requires left > 0 && orders != []
    ensures Remains(orders, done, Consume(orders, left, done))
    decreases |orders|, left
  {
    var o := orders[0];
    var f := Served(o, left);
    var rest := Remaining(orders, left);
    var left', done' := left - f.quantity, done + [f];
    var m := Consume(rest, left', done');
    assert m == Consume(orders, left, done);
    if o.quantity > left {
      assert m.fills == done';
    } else if left' == 0 || rest == [] {
      assert m.fills == done';
    } else {
      ConsumeRemains(rest, left', done');
      assert rest == orders[1..];
      RemainsShift(orders, done, f, m);
    }
  }

  /** The level `orders` after the fills past `done` in `m`: behind what the
      last maker served has left, if anything, come the makers not reached. */
  ghost predicate Remains(orders: seq<Resting>, done: seq<Fill>, m: Consumed)
  {
    var n := |m.fills| - |done|;
    0 < n <= |orders| &&
    var last := orders[n - 1]; var f := m.fills[|m.fills| - 1];
    if f.quantity < last.quantity then m.orders == [last.(quantity := last.quantity - f.quantity)] + orders[n..]
    else m.orders == orders[n..]
  }

  lemma RemainsShift(orders: seq<Resting>, done: seq<Fill>, f: Fill, m: Consumed)
    requires orders != [] && Remains(orders[1..], done + [f], m)
    ensures Remains(orders, done, m)
  {
    var n := |m.fills| - |done|;
    assert orders[1..][n - 2] == orders[n - 1];
    assert orders[1..][n - 1..] == orders[n..];
  }

  /** No quantity is created or lost on the maker side: what stays on the
      level and the new fills add up to what rested there. */
  lemma {:induction false} ConsumeConserves(orders: seq<Resting>, left: u64, done: seq<Fill>)
    ensures var m := Consume(orders, left, done); Volume(m.orders) + Filled(m.fills) == Volume(orders) + Filled(done)
    decreases |orders|, left
  {
    if left != 0 && orders != [] {
      var o := orders[0];
      var f := Served(o, left);
      ConsumeConserves(Remaining(orders, left), left - f.quantity, done + [f]);
      assert (done + [f])[..|done|] == done;
      if o.quantity > left {
        assert ([o.(quantity := o.quantity - left)] + orders[1..])[1..] == orders[1..];
      }
    }
  }

  /** Filling or dropping the front maker of level `k` is writing the
      remaining orders into that level. */
  lemma TakenBook(b: seq<Level>, k: nat, orders: seq<Resting>, left: u64)
    requires k < |b| && orders != []
    ensures var c := b[k := b[k].(orders := orders)]; var o := orders[0];
      (if o.quantity > left then FillFront(c, k, o.quantity - left) else DropFront(c, k)) ==
      b[k := b[k].(orders := Remaining(orders, left))]
  {
    var o := orders[0];
    if o.quantity > left {
      assert orders[0 := o.(quantity := o.quantity - left)] == [o.(quantity := o.quantity - left)] + orders[1..];
    }
  }

  /** The Fill event of match_request.rs:92-104 for one fill at `price`:
      the maker's open-order account and slot, the taker's open-order
      account and side, the maker's order id. */
  function FillEvent(req: Request, price: u128, f: Fill, now: i64): (e: Event)
    ensures e.eventType == EVENT_FILL && e.price == price && e.quantity == f.quantity
    ensures e.makersOpenOrders == f.maker.owner && e.makerSlot == f.maker.slot && e.orderId == f.maker.orderId
    ensures e.takerOpenOrders == req.openOrder && e.takerSide == req.side && e.takerSlot == 0
    ensures e.outcome == req.outcome && e.timestamp == now
  {
    Event(EVENT_FILL, f.maker.owner, f.maker.slot, req.openOrder, req.side, 0, price, f.quantity, f.maker.orderId,
          req.outcome, now)
  }

  /** The Fill events of some fills, in order. */
  function FillEvents(req: Request, price: u128, fs: seq<Fill>, now: i64): (es: seq<Event>)
    ensures |es| == |fs|
  {
    if fs == [] then [] else FillEvents(req, price, fs[..|fs| - 1], now) + [FillEvent(req, price, fs[|fs| - 1], now)]
  }

  /** One more fill is one more event at the back. */
  lemma FillEventsSnoc(req: Request, price: u128, fs: seq<Fill>, f: Fill, now: i64)
    ensures FillEvents(req, price, fs + [f], now) == FillEvents(req, price, fs, now) + [FillEvent(req, price, f, now)]
  {
    assert (fs + [f])[..|fs|] == fs;
  }

  lemma {:induction false} FillEventsAt(req: Request, price: u128, fs: seq<Fill>, now: i64, k: nat)
    requires k < |fs|
    ensures FillEvents(req, price, fs, now)[k] == FillEvent(req, price, fs[k], now)
    decreases |fs|
  {
    if k < |fs| - 1 {
      FillEventsAt(req, price, fs[..|fs| - 1], now, k);
    }
  }

  /** The in-order position of the best level: the highest price of a bid
      book, the lowest of an ask book. */
  function BestIndex(n: nat, isBid: bool): (k: nat)
    requires n > 0
    ensures k < n
  {
    if isBid then n - 1 else 0
  }

  /** match_request.rs:71-75: a buy (side 0) crosses a best ask at or below
      its limit, any other side a best bid at or above it. */
  predicate Crosses(side: u8, best: u128, limit: u128)
  {
    if side == SIDE_BUY then best <= limit else best >= limit
  }

  /** The opposite book after the matching loop, the price of the level
      the fills happened at, the fills and the taker's remainder. */
  datatype Crossing = Crossing(book: seq<Level>, price: u128, fills: seq<Fill>, left: u64)

  /** The matching loop of match_request.rs:58-118 on the opposite book:
      nothing happens on an empty book or a best level that does not cross;
      otherwise the taker goes through the best level. */
  function Cross(b: seq<Level>, isBid: bool, side: u8, limit: u128, quantity: u64): (x: Crossing)
    ensures |x.book| == |b|
    ensures x.fills == [] ==> x.book == b && x.left == quantity
    ensures x.fills != [] ==> (|b| > 0 && Crosses(side, b[BestIndex(|b|, isBid)].price, limit) &&
      x.price == b[BestIndex(|b|, isBid)].price)
    ensures Filled(x.fills) + x.left == quantity
    ensures forall k :: 0 <= k < |b| && (|b| == 0 || k != BestIndex(|b|, isBid)) ==> x.book[k] == b[k]
    ensures forall k :: 0 <= k < |b| ==> x.book[k].price == b[k].price
  {
    if b == [] then Crossing(b, 0, [], quantity)
    else
      var k := BestIndex(|b|, isBid);
      if !Crosses(side, b[k].price, limit) then Crossing(b, 0, [], quantity)
      else
        var m := Consume(b[k].orders, quantity, []);
        Crossing(b[k := b[k].(orders := m.orders)], b[k].price, m.fills, m.left)
  }

  /** The quantity the best level loses is the quantity the taker gets:
      volume moves from the book to the taker and nowhere else. */
  lemma CrossConserves(b: seq<Level>, isBid: bool, side: u8, limit: u128, quantity: u64)
    requires b != []
    ensures var k := BestIndex(|b|, isBid); var x := Cross(b, isBid, side, limit, quantity);
      Volume(x.book[k].orders) + Filled(x.fills) == Volume(b[k].orders)
  {
    ConsumeConserves(b[BestIndex(|b|, isBid)].orders, quantity, []);
  }

  /** The Fill event of match_request.rs:121-133 for a remainder: the market
      itself is named as maker, at the taker's own limit price. */
  function RemainderEvent(req: Request, market: Pubkey, left: u64, now: i64): (e: Event)
    ensures e.eventType == EVENT_FILL && e.makersOpenOrders == market && e.makerSlot == 0
    ensures e.price == req.price && e.quantity == left && e.orderId == req.orderId
    ensures e.takerOpenOrders == req.openOrder && e.takerSide == req.side && e.takerSlot == 0
    ensures e.outcome == req.outcome && e.timestamp == now
  {
    Event(EVENT_FILL, market, 0, req.openOrder, req.side, 0, req.price, left, req.orderId, req.outcome, now)
  }

  /** The Cancel event of match_request.rs:35-47: the request's owner as
      maker, its side, order id and outcome, price and quantity zero. */
  function CancelEvent(req: Request, now: i64): (e: Event)
    ensures e.eventType == EVENT_CANCEL && e.makersOpenOrders == req.owner && e.makerSlot == 0
    ensures e.takerOpenOrders == DEFAULT_KEY && e.takerSide == req.side && e.takerSlot == 0
    ensures e.price == 0 && e.quantity == 0 && e.orderId == req.orderId && e.outcome == req.outcome
    ensures e.timestamp == now
  {
    Event(EVENT_CANCEL, req.owner, 0, DEFAULT_KEY, req.side, 0, 0, 0, req.orderId, req.outcome, now)
  }

  /** The reserve written into a resting entry (match_request.rs:153-161):
      for a buy the checked u128 product of price and quantity over the
      price scale, cast to u64 (keeping the low 64 bits); 0 for a sell.
      The buy side is the same formula place_request uses
      (`Intake.ReservedQuote`). */
  function ReservedAmount(side: u8, price: u128, left: u64): (r: Result<u64>)
    ensures r.Err? <==> side == SIDE_BUY && price * left >= U128_LIMIT
    ensures r.Err? ==> r.error == MathError
    ensures r.Ok? && side != SIDE_BUY ==> r.value == 0
    ensures r.Ok? && side == SIDE_BUY && price * left / PRICE_PRECISION_SCALE < U64_LIMIT ==>
      r.value * PRICE_PRECISION_SCALE <= price * left < (r.value + 1) * PRICE_PRECISION_SCALE
    ensures r.Ok? && side == SIDE_BUY ==> (price * left / PRICE_PRECISION_SCALE - r.value) % U64_LIMIT == 0
  {
    if side != SIDE_BUY then Ok(0) else Intake.ReservedQuote(price, left)
  }

  /** The book has a level at `price`. */
  predicate HasLevel(b: seq<Level>, price: u128)
  {
    exists j :: 0 <= j < |b| && b[j].price == price
  }

  /** The book after order `o` rests at `price`
      (match_request.rs:145-162): an empty level is added for a new price,
      and `o` joins the back of that level. */
  function AddResting(b: seq<Level>, price: u128, o: Resting): (r: seq<Level>)
    // a new price adds exactly one level, a held one none
    ensures |r| == |b| + (if HasLevel(b, price) then 0 else 1)
  {
    var b1 := if HasLevel(b, price) then b else WithLevel(b, price);
    var k := Below(b1, price);
    if k < |b1| then b1[k := b1[k].(orders := b1[k].orders + [o])] else b1
  }

  /** On an ascending book a level holding `price` is the `Below` gap. */
  lemma BelowAt(b: seq<Level>, price: u128, k: nat)
    requires Ascending(b) && k < |b| && b[k].price == price
    ensures Below(b, price) == k
  {
    BelowAscending(b, price);
    assert Below(b, price) < |b| ==> b[Below(b, price)].price >= price;
  }

  /** Resting an order at a price the book holds appends it to that
      level and changes nothing else. */
  lemma AddRestingHeld(b: seq<Level>, price: u128, o: Resting, k: nat)
    requires Ascending(b) && k < |b| && b[k].price == price
    ensures AddResting(b, price, o) == b[k := b[k].(orders := b[k].orders + [o])]
  {
    BelowAt(b, price, k);
  }

  /** Resting an order at a new price puts a level holding just that order
      where the price belongs and moves the higher levels up by one. */
  lemma AddRestingNew(b: seq<Level>, price: u128, o: Resting)
    requires Ascending(b) && !HasLevel(b, price)
    ensures var r := AddResting(b, price, o); var k := Below(b, price);
      Ascending(r) && |r| == |b| + 1 && r[k] == Level(price, [o]) &&
      (forall j :: 0 <= j < k ==> r[j] == b[j]) && (forall j :: k < j < |r| ==> r[j] == b[j - 1])
  {
    var k := Below(b, price);
    var w := WithLevel(b, price);
    WithLevelAscending(b, price);
    BelowAt(w, price, k);
    WithLevelParts(b, price);
    var r := AddResting(b, price, o);
    assert r == w[k := w[k].(orders := w[k].orders + [o])];
    assert w[k].orders + [o] == [o];
    SamePricesAscending(w, r);
  }

  /** Around the new level, `WithLevel` keeps the levels of `b` in order. */
  lemma WithLevelParts(b: seq<Level>, price: u128)
    ensures var w := WithLevel(b, price); var k := Below(b, price);
      (forall j :: 0 <= j < k ==> w[j] == b[j]) && (forall j :: k < j < |w| ==> w[j] == b[j - 1])
  {
  }

  /** Changing only the orders of some levels keeps a book ascending. */
  lemma SamePricesAscending(b: seq<Level>, c: seq<Level>)
    requires Ascending(b) && |c| == |b| && forall j :: 0 <= j < |b| ==> c[j].price == b[j].price
    ensures Ascending(c)
  {
  }

  /** The books and the new events after one request. */
  datatype Outcome = Outcome(asks: seq<Level>, bids: seq<Level>, events: seq<Event>)

  /** The remainder event and the book after the remainder rests, or the
      arithmetic error the reserve computation stops at. */
  function Rest(own: seq<Level>, req: Request, market: Pubkey, left: u64, now: i64): (r: Result<(seq<Level>, seq<Event>)>)
    ensures left == 0 ==> r == Ok((own, []))
    ensures r.Err? ==> r.error == MathError
    ensures r.Ok? && left > 0 ==> (ReservedAmount(req.side, req.price, left).Ok? &&
      r.value.1 == [RemainderEvent(req, market, left, now)] &&
      r.value.0 == AddResting(own, req.price, Resting(req.orderId, req.openOrder, 0, left,
                                                       ReservedAmount(req.side, req.price, left).value)))
  {
    if left == 0 then Ok((own, []))
    else
      var reserved := ReservedAmount(req.side, req.price, left);
      if reserved.Err? then Err(reserved.error)
      else Ok((AddResting(own, req.price, Resting(req.orderId, req.openOrder, 0, left, reserved.value)),
               [RemainderEvent(req, market, left, now)]))
  }

  /** A limit request matched against the opposite book, with the book
      of its own side after its remainder rests there, and the new events. */
  datatype Matched = Matched(opposite: seq<Level>, own: seq<Level>, events: seq<Event>)

  /** A limit request (match_request.rs:52-163): the matching loop on the
      opposite book, then the remainder on its own book. */
  function Limit(opposite: seq<Level>, own: seq<Level>, oppositeIsBid: bool, req: Request, market: Pubkey, now: i64)
    : (r: Result<Matched>)
    ensures r.Err? ==> r.error == MathError
  {
    var x := Cross(opposite, oppositeIsBid, req.side, req.price, req.quantity);
    var rest := Rest(own, req, market, x.left, now);
    if rest.Err? then Err(rest.error)
    else Ok(Matched(x.book, rest.value.0, FillEvents(req, x.price, x.fills, now) + rest.value.1))
  }

  /** One request of the loop of match_request.rs:33-164: a cancel request
      only adds its Cancel event; any other request type, whatever its byte,
      is matched as a limit order against the opposite side (the asks for a
      buy, the bids otherwise), and its remainder rests on its own side. */
  function Step(asks: seq<Level>, bids: seq<Level>, asksIsBid: bool, bidsIsBid: bool,
                req: Request, market: Pubkey, now: i64): (r: Result<Outcome>)
    // only a limit request can fail, and then only with MathError
    ensures r.Err? ==> req.requestType != REQUEST_CANCEL_ORDER && r.error == MathError
  {
    if req.requestType == REQUEST_CANCEL_ORDER then Ok(Outcome(asks, bids, [CancelEvent(req, now)]))
    else if req.side == SIDE_BUY then
      var l := Limit(asks, bids, asksIsBid, req, market, now);
      if l.Err? then Err(l.error) else Ok(Outcome(l.value.opposite, l.value.own, l.value.events))
    else
      var l := Limit(bids, asks, bidsIsBid, req, market, now);
      if l.Err? then Err(l.error) else Ok(Outcome(l.value.own, l.value.opposite, l.value.events))
  }

  /** A cancel request touches neither book and adds exactly one event. */
  lemma CancelStep(asks: seq<Level>, bids: seq<Level>, asksIsBid: bool, bidsIsBid: bool, req: Request, market: Pubkey, now: i64)
    requires req.requestType == REQUEST_CANCEL_ORDER
    ensures Step(asks, bids, asksIsBid, bidsIsBid, req, market, now) == Ok(Outcome(asks, bids, [CancelEvent(req, now)]))
  {
  }

  /** A limit request leaves its own side alone unless a remainder rests
      there, changes only the best level of the other side, and hands out
      its whole quantity: what the fill events carry plus what rests. */
  lemma LimitStep(asks: seq<Level>, bids: seq<Level>, asksIsBid: bool, bidsIsBid: bool, req: Request, market: Pubkey, now: i64)
    requires req.requestType != REQUEST_CANCEL_ORDER
    requires Step(asks, bids, asksIsBid, bidsIsBid, req, market, now).Ok?
    ensures var o := Step(asks, bids, asksIsBid, bidsIsBid, req, market, now).value;
      var opposite := if req.side == SIDE_BUY then asks else bids;
      var x := Cross(opposite, if req.side == SIDE_BUY then asksIsBid else bidsIsBid, req.side, req.price, req.quantity);
      (if req.side == SIDE_BUY then o.asks else o.bids) == x.book &&
      (x.left == 0 ==> (if req.side == SIDE_BUY then o.bids == bids else o.asks == asks) && |o.events| == |x.fills|) &&
      (x.left > 0 ==> |o.events| == |x.fills| + 1 && o.events[|x.fills|] == RemainderEvent(req, market, x.left, now)) &&
      Filled(x.fills) + x.left == req.quantity
  {
  }

  /** All of `reqs`, oldest first; the first request that fails ends the
      instruction. */
  function Process(asks: seq<Level>, bids: seq<Level>, asksIsBid: bool, bidsIsBid: bool,
                   reqs: seq<Request>, market: Pubkey, now: i64): (r: Result<Outcome>)
    ensures reqs == [] ==> r == Ok(Outcome(asks, bids, []))
    decreases |reqs|
  {
    if reqs == [] then Ok(Outcome(asks, bids, []))
    else
      var before := Process(asks, bids, asksIsBid, bidsIsBid, reqs[..|reqs| - 1], market, now);
      if before.Err? then before
      else
        var step := Step(before.value.asks, before.value.bids, asksIsBid, bidsIsBid, reqs[|reqs| - 1], market, now);
        if step.Err? then Err(step.error)
        else Ok(Outcome(step.value.asks, step.value.bids, before.value.events + step.value.events))
  }

  /** A batch of cancel requests leaves both books as they were and adds
      one Cancel event per request, in queue order. */
  lemma {:induction false} CancelsOnly(asks: seq<Level>, bids: seq<Level>, asksIsBid: bool, bidsIsBid: bool,
                                       reqs: seq<Request>, market: Pubkey, now: i64)
    requires forall k :: 0 <= k < |reqs| ==> reqs[k].requestType == REQUEST_CANCEL_ORDER
    ensures var r := Process(asks, bids, asksIsBid, bidsIsBid, reqs, market, now);
      r.Ok? && r.value.asks == asks && r.value.bids == bids && |r.value.events| == |reqs| &&
      forall k :: 0 <= k < |reqs| ==> r.value.events[k] == CancelEvent(reqs[k], now)
    decreases |reqs|
  {
    if reqs != [] {
      var front := reqs[..|reqs| - 1];
      CancelsOnly(asks, bids, asksIsBid, bidsIsBid, front, market, now);
      CancelStep(asks, bids, asksIsBid, bidsIsBid, reqs[|reqs| - 1], market, now);
    }
  }

  /** One more request on a batch that went through is one more `Step` on
      the books it left. */
  lemma ProcessNext(asks: seq<Level>, bids: seq<Level>, asksIsBid: bool, bidsIsBid: bool,
                    reqs: seq<Request>, market: Pubkey, now: i64, i: nat, o: Outcome)
    requires i < |reqs| && Process(asks, bids, asksIsBid, bidsIsBid, reqs[..i], market, now) == Ok(o)
    ensures var step := Step(o.asks, o.bids, asksIsBid, bidsIsBid, reqs[i], market, now);
      Process(asks, bids, asksIsBid, bidsIsBid, reqs[..i + 1], market, now) ==
        if step.Err? then Err(step.error) else Ok(Outcome(step.value.asks, step.value.bids, o.events + step.value.events))
  {
    assert reqs[..i + 1][..i] == reqs[..i];
  }

  /** A request that fails fails the whole batch: no later request undoes
      the error. */
  lemma {:induction false} ProcessFails(asks: seq<Level>, bids: seq<Level>, asksIsBid: bool, bidsIsBid: bool,
                                        reqs: seq<Request>, market: Pubkey, now: i64, i: nat)
    requires i <= |reqs| && Process(asks, bids, asksIsBid, bidsIsBid, reqs[..i], market, now).Err?
    ensures Process(asks, bids, asksIsBid, bidsIsBid, reqs, market, now).Err?
    decreases |reqs|
  {
    if i < |reqs| {
      var front := reqs[..|reqs| - 1];
      assert front[..i] == reqs[..i];
      ProcessFails(asks, bids, asksIsBid, bidsIsBid, front, market, now, i);
    } else {
      assert reqs[..i] == reqs;
    }
  }
}

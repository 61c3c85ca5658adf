/** The two intake instructions of the request-queue design
    (instructions/place_request.rs, instructions/cancel_request.rs): they
    check an intent, lock the funds it needs in the trader's open-order
    account and append one `Request` to the market's request queue, where
    the matching instruction later picks it up. The token transfers into
    the vaults are done by the token program and are not modelled; the
    token balances they read are parameters. */
module Intake {
  import opened Common
  import opened BookState
  import opened RingBuffer

  /** The instruction arguments of place_request.rs:17-24. `reqType` is
      passed through unchecked. */
  datatype PlaceOrderParams = PlaceOrderParams(
    reqType: u8,
    side: u8,
    price: u128,
    quantity: u64,
    clientId: u64,
    outcome: u8)

  /** The balance fields of the open-order account of state/open_orders.rs. */
  class OpenOrder {
    var owner: Pubkey
    var market: Pubkey
    var freeBase: u128
    var freeQuote: u128
    var lockedBase: u128
    var lockedQuote: u128
    var slotsBitmaps: u128
    var bump: u8

    constructor (owner: Pubkey, market: Pubkey)
      ensures this.owner == owner && this.market == market
      ensures freeBase == 0 && freeQuote == 0 && lockedBase == 0 && lockedQuote == 0 && slotsBitmaps == 0
    {
      this.owner, this.market := owner, market;
      freeBase, freeQuote, lockedBase, lockedQuote, slotsBitmaps, bump := 0, 0, 0, 0, 0, 0;
    }
  }

  /** The USDC a buy reserves, place_request.rs:72-77: the checked u128
      product of price and quantity, divided by the price scale and then
      cast to u64, which keeps only the low 64 bits. */
  function ReservedQuote(price: u128, quantity: u64): (r: Result<u64>)
    ensures r.Err? <==> price * quantity >= U128_LIMIT
    ensures r.Err? ==> r.error == MathError
    ensures r.Ok? && price * quantity / PRICE_PRECISION_SCALE < U64_LIMIT ==>
      r.value * PRICE_PRECISION_SCALE <= price * quantity < (r.value + 1) * PRICE_PRECISION_SCALE
    // above 64 bits the cast keeps the quotient modulo 2^64
    ensures r.Ok? ==> (price * quantity / PRICE_PRECISION_SCALE - r.value) % U64_LIMIT == 0
  {
    if price * quantity >= U128_LIMIT then Err(MathError)
    else Ok((price * quantity / PRICE_PRECISION_SCALE) % U64_LIMIT)
  }

  /** The cast to u64 does lose value: a product that fits in u128 can
      divide down to more than 64 bits, and the buy then locks only the
      low part of what it owes. */
  lemma ReservedQuoteTruncates()
    ensures ReservedQuote(1_000_000_000_000_000_000_000_000_000_000, 1)
         == Ok(1_000_000_000_000_000_000_000_000 - 54210 * U64_LIMIT)
  {
  }

  /** The locked balances (quote, base) after the checks and bookkeeping of
      place_request.rs:63-131, or the error they stop at. The usdc balance
      is `from_usdc.amount`; `outcomeBalance` is `from_outcome`'s amount,
      None when that optional account is not supplied. */
  function Locking(params: PlaceOrderParams, usdcBalance: u64, outcomeBalance: Option<u64>,
                   lockedQuote: u128, lockedBase: u128): (r: Result<(u128, u128)>)
    // the side is checked before anything else
    ensures params.side != SIDE_BUY && params.side != SIDE_SELL ==> r == Err(InvalidSide)
    ensures params.side in {SIDE_BUY, SIDE_SELL} && (params.price == 0 || params.quantity == 0) ==>
      r == Err(InvalidArgument)
    ensures r.Err? ==> r.error in {InvalidSide, InvalidArgument, MathError, InsufficientBalance}
    // a buy locks exactly its reserved quote, and never more than the usdc balance
    ensures r.Ok? && params.side == SIDE_BUY ==>
      var q := ReservedQuote(params.price, params.quantity);
      q.Ok? && q.value <= usdcBalance && r.value == (lockedQuote + q.value, lockedBase)
    // a sell locks exactly its quantity, of an outcome it names, within its token balance
    ensures r.Ok? && params.side != SIDE_BUY ==>
      outcomeBalance.Some? && params.quantity <= outcomeBalance.value && params.outcome in {OUTCOME_YES, OUTCOME_NO} &&
      r.value == (lockedQuote, lockedBase + params.quantity)
    ensures r.Ok? ==> params.price > 0 && params.quantity > 0
    // a buy that passes the first two checks: the reserve's own error, then
    // the usdc balance, then the u128 bookkeeping add
    ensures params.side == SIDE_BUY && params.price > 0 && params.quantity > 0 ==>
      var q := ReservedQuote(params.price, params.quantity);
      (q.Err? ==> r == Err(q.error)) &&
      (q.Ok? && q.value > usdcBalance ==> r == Err(InsufficientBalance)) &&
      (q.Ok? && q.value <= usdcBalance ==>
         (r.Ok? <==> lockedQuote + q.value < U128_LIMIT) && (r.Err? ==> r.error == MathError))
    // a sell that passes the first two checks: the missing outcome account,
    // then the token balance, then the outcome byte, then the bookkeeping add
    ensures params.side == SIDE_SELL && params.price > 0 && params.quantity > 0 ==>
      (outcomeBalance.None? ==> r == Err(MathError)) &&
      (outcomeBalance.Some? && params.quantity > outcomeBalance.value ==> r == Err(InsufficientBalance)) &&
      (outcomeBalance.Some? && params.quantity <= outcomeBalance.value && params.outcome !in {OUTCOME_YES, OUTCOME_NO} ==>
         r == Err(InvalidSide)) &&
      (outcomeBalance.Some? && params.quantity <= outcomeBalance.value && params.outcome in {OUTCOME_YES, OUTCOME_NO} ==>
         (r.Ok? <==> lockedBase + params.quantity as int < U128_LIMIT) && (r.Err? ==> r.error == MathError))
  {
    if params.side != SIDE_BUY && params.side != SIDE_SELL then Err(InvalidSide)
    else if params.price == 0 || params.quantity == 0 then Err(InvalidArgument)
    else if params.side == SIDE_BUY then
      var q := ReservedQuote(params.price, params.quantity);
      if q.Err? then Err(q.error)
      else if q.value > usdcBalance then Err(InsufficientBalance)
      else if lockedQuote + q.value >= U128_LIMIT then Err(MathError)
      else Ok((lockedQuote + q.value, lockedBase))
    else if outcomeBalance.None? then Err(MathError)
    else if params.quantity > outcomeBalance.value then Err(InsufficientBalance)
    else if params.outcome != OUTCOME_YES && params.outcome != OUTCOME_NO then Err(InvalidSide)
    else if lockedBase + params.quantity >= U128_LIMIT then Err(MathError)
    else Ok((lockedQuote, lockedBase + params.quantity))
  }

  /** A successful locking changes exactly one of the two balances, and
      only upwards. */
  lemma LockingGrowsOneSide(params: PlaceOrderParams, usdcBalance: u64, outcomeBalance: Option<u64>,
                            lockedQuote: u128, lockedBase: u128)
    requires Locking(params, usdcBalance, outcomeBalance, lockedQuote, lockedBase).Ok?
    ensures var (q, b) := Locking(params, usdcBalance, outcomeBalance, lockedQuote, lockedBase).value;
      (q >= lockedQuote && b == lockedBase) || (q == lockedQuote && b > lockedBase)
  {
  }

  /** The request a place-order intent turns into (place_request.rs:133-144):
      the arguments as given, the signer as owner and the current slot as
      order id. */
  function PlacedRequest(params: PlaceOrderParams, owner: Pubkey, openOrderKey: Pubkey, slot: u64, now: i64): (q: Request)
    ensures q.orderId == slot && q.owner == owner && q.openOrder == openOrderKey && q.timestamp == now
    ensures q.requestType == params.reqType && q.side == params.side && q.price == params.price
    ensures q.quantity == params.quantity && q.clientId == params.clientId && q.outcome == params.outcome
  {
    Request(params.reqType, owner, openOrderKey, params.side, params.price, params.quantity,
            slot, params.clientId, params.outcome, now)
  }

  /** place_order_handler, as written: the locked balance is updated before
      the enqueue, so a full queue returns its error with the balance
      already raised (`PlaceOrderTransaction` adds the runtime's discard). */
  method PlaceOrder(openOrder: OpenOrder, queue: RequestQueue, params: PlaceOrderParams, owner: Pubkey, openOrderKey: Pubkey,
                    usdcBalance: u64, outcomeBalance: Option<u64>, slot: u64, now: i64)
    returns (r: Result<()>)
    requires queue.Valid()
    modifies openOrder`lockedQuote, openOrder`lockedBase, queue, queue.requests
    ensures queue.Valid() && queue.requests == old(queue.requests)
    ensures var l := Locking(params, usdcBalance, outcomeBalance, old(openOrder.lockedQuote), old(openOrder.lockedBase));
      l.Err? ==> r == Err(l.error) && unchanged(openOrder, queue, queue.requests)
    ensures var l := Locking(params, usdcBalance, outcomeBalance, old(openOrder.lockedQuote), old(openOrder.lockedBase));
      l.Ok? ==> (
        (openOrder.lockedQuote, openOrder.lockedBase) == l.value &&
        (old(queue.count) >= queue.requests.Length ==> r == Err(RequestQueueFull)) &&
        (r.Ok? <==> old(queue.count) < queue.requests.Length && old(queue.head) + old(queue.count) < U64_LIMIT) &&
        (r.Ok? ==> queue.Contents() == old(queue.Contents()) + [PlacedRequest(params, owner, openOrderKey, slot, now)]) &&
        (r.Err? ==> unchanged(queue, queue.requests)))
  {
    if params.side != SIDE_BUY && params.side != SIDE_SELL {
      return Err(InvalidSide);
    }
    if params.price == 0 || params.quantity == 0 {
      return Err(InvalidArgument);
    }
    if params.side == SIDE_BUY {
      var reserved := ReservedQuote(params.price, params.quantity);
      if reserved.Err? {
        return Err(reserved.error);
      }
      if reserved.value > usdcBalance {
        return Err(InsufficientBalance);
      }
      if openOrder.lockedQuote + reserved.value >= U128_LIMIT {
        return Err(MathError);
      }
      openOrder.lockedQuote := openOrder.lockedQuote + reserved.value;
    } else {
      if outcomeBalance.None? {
        return Err(MathError);
      }
      if params.quantity > outcomeBalance.value {
        return Err(InsufficientBalance);
      }
      if params.outcome != OUTCOME_YES && params.outcome != OUTCOME_NO {
        return Err(InvalidSide);
      }
      if openOrder.lockedBase + params.quantity >= U128_LIMIT {
        return Err(MathError);
      }
      openOrder.lockedBase := openOrder.lockedBase + params.quantity;
    }
    var request := PlacedRequest(params, owner, openOrderKey, slot, now);
    r := queue.Enqueue(request);
  }

  /** The place-order instruction as the runtime applies it: a failed
      instruction has none of its writes kept, so the open-order balances
      written before the failing enqueue are put back. */
  method PlaceOrderTransaction(openOrder: OpenOrder, queue: RequestQueue, params: PlaceOrderParams, owner: Pubkey,
                               openOrderKey: Pubkey, usdcBalance: u64, outcomeBalance: Option<u64>, slot: u64, now: i64)
    returns (r: Result<()>)
    requires queue.Valid()
    modifies openOrder`lockedQuote, openOrder`lockedBase, queue, queue.requests
    ensures queue.Valid() && queue.requests == old(queue.requests)
    ensures r.Err? ==> unchanged(openOrder, queue, queue.requests)
    ensures r.Ok? <==>
      Locking(params, usdcBalance, outcomeBalance, old(openOrder.lockedQuote), old(openOrder.lockedBase)).Ok? &&
      old(queue.count) < queue.requests.Length && old(queue.head) + old(queue.count) < U64_LIMIT
    ensures r.Ok? ==>
      (openOrder.lockedQuote, openOrder.lockedBase)
        == Locking(params, usdcBalance, outcomeBalance, old(openOrder.lockedQuote), old(openOrder.lockedBase)).value &&
      queue.Contents() == old(queue.Contents()) + [PlacedRequest(params, owner, openOrderKey, slot, now)]
  {
    var lockedQuote, lockedBase := openOrder.lockedQuote, openOrder.lockedBase;
    r := PlaceOrder(openOrder, queue, params, owner, openOrderKey, usdcBalance, outcomeBalance, slot, now);
    if r.Err? {
      openOrder.lockedQuote, openOrder.lockedBase := lockedQuote, lockedBase;
    }
  }

  /** The request cancel_request.rs:21-32 builds: type CancelOrder, the
      signer and the id, every other field zero or the default key. */
  function CancelRequest(owner: Pubkey, orderId: u64, now: i64): (q: Request)
    ensures q.requestType == REQUEST_CANCEL_ORDER && q.owner == owner && q.orderId == orderId && q.timestamp == now
    ensures q.openOrder == DEFAULT_KEY && q.side == 0 && q.price == 0 && q.quantity == 0
    ensures q.clientId == 0 && q.outcome == 0
  {
    Request(REQUEST_CANCEL_ORDER, owner, DEFAULT_KEY, 0, 0, 0, orderId, 0, 0, now)
  }

  /** cancel_order_handler of cancel_request.rs: the id is enqueued without
      any check that such an order exists or belongs to the signer, so
      whether it succeeds depends on the queue alone. */
  method CancelOrderRequest(queue: RequestQueue, owner: Pubkey, orderId: u64, now: i64) returns (r: Result<()>)
    requires queue.Valid()
    modifies queue, queue.requests
    ensures queue.Valid() && queue.requests == old(queue.requests)
    ensures old(queue.count) >= queue.requests.Length ==> r == Err(RequestQueueFull)
    ensures r.Ok? <==> old(queue.count) < queue.requests.Length && old(queue.head) + old(queue.count) < U64_LIMIT
    ensures r.Ok? ==> queue.Contents() == old(queue.Contents()) + [CancelRequest(owner, orderId, now)]
    ensures r.Err? ==> unchanged(queue, queue.requests)
  {
    var request := CancelRequest(owner, orderId, now);
    r := queue.Enqueue(request);
  }
}

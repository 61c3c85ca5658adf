/** The records of the arena order book and of its two queues
    (state/order_book.rs, state/request_queue.rs, state/event_queue.rs).
    They are plain values that the arrays of the slab and of the queues
    hold; the code replaces them field by field. */
module BookState {
  import opened Common

  /** A price level of the red-black tree. Color 0 is black, 1 is red. */
  datatype PriceNode = PriceNode(
    occupied: bool,
    key: u128,
    left: i32,
    right: i32,
    parent: i32,
    orderHead: i32,
    orderTail: i32,
    color: u8)

  /** One resting order in the FIFO chain of a price level. */
  datatype OrderEntry = OrderEntry(
    occupied: bool,
    orderId: u64,
    openOrderOwner: Pubkey,
    ownerSlot: u16,
    quantity: u64,
    reservedAmount: u64,
    nextInPrice: i32)

  const BLACK: u8 := 0
  const RED: u8 := 1

  /** A freshly created (all-zero) account holds these records. */
  const ZERO_PRICE_NODE := PriceNode(false, 0, 0, 0, 0, 0, 0, 0)
  const ZERO_ORDER_ENTRY := OrderEntry(false, 0, DEFAULT_KEY, 0, 0, 0, 0)

  /** The record `initialize_slab` writes into every price-node slot. */
  const EMPTY_PRICE_NODE := PriceNode(false, 0, -1, -1, -1, -1, -1, BLACK)

  /** The record `initialize_slab` writes into every order-entry slot. */
  const EMPTY_ORDER_ENTRY := OrderEntry(false, 0, DEFAULT_KEY, 0, 0, 0, -1)

  // RequestType and OrderSide / OutcomeSide discriminants.
  const REQUEST_NEW_ORDER: u8 := 0
  const REQUEST_CANCEL_ORDER: u8 := 1
  const REQUEST_MARKET_ORDER: u8 := 2
  const SIDE_BUY: u8 := 0
  const SIDE_SELL: u8 := 1
  const OUTCOME_YES: u8 := 0
  const OUTCOME_NO: u8 := 1

  /** An intent waiting in the request queue. `requestType` is a raw byte:
      the intake does not check it. */
  datatype Request = Request(
    requestType: u8,
    owner: Pubkey,
    openOrder: Pubkey,
    side: u8,
    price: u128,
    quantity: u64,
    orderId: u64,
    clientId: u64,
    outcome: u8,
    timestamp: i64)

  const ZERO_REQUEST := Request(0, DEFAULT_KEY, DEFAULT_KEY, 0, 0, 0, 0, 0, 0, 0)

  // EventType discriminants.
  const EVENT_FILL: u8 := 0
  const EVENT_CANCEL: u8 := 1

  /** A match outcome waiting in the event queue for settlement. */
  datatype Event = Event(
    eventType: u8,
    makersOpenOrders: Pubkey,
    makerSlot: u16,
    takerOpenOrders: Pubkey,
    takerSide: u8,
    takerSlot: u16,
    price: u128,
    quantity: u64,
    orderId: u64,
    outcome: u8,
    timestamp: i64)

  const ZERO_EVENT := Event(0, DEFAULT_KEY, 0, DEFAULT_KEY, 0, 0, 0, 0, 0, 0, 0)
}

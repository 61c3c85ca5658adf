/** Integer widths, constants and error codes shared by the whole program
    (constants.rs, error.rs). Rust's fixed-width integers are modelled as
    subset types of `int`; every overflow the program checks is written out
    where it happens. */
module Common {

  const U8_LIMIT: int := 0x100
  const U16_LIMIT: int := 0x1_0000
  const U32_LIMIT: int := 0x1_0000_0000
  const U64_LIMIT: int := 0x1_0000_0000_0000_0000
  const U128_LIMIT: int := 0x1_0000_0000_0000_0000_0000_0000_0000_0000
  const I32_MIN: int := -0x8000_0000
  const I32_LIMIT: int := 0x8000_0000
  const I64_MIN: int := -0x8000_0000_0000_0000
  const I64_LIMIT: int := 0x8000_0000_0000_0000

  type u8 = x: int | 0 <= x < 0x100
  type u16 = x: int | 0 <= x < 0x1_0000
  type u32 = x: int | 0 <= x < 0x1_0000_0000
  type u64 = x: int | 0 <= x < 0x1_0000_0000_0000_0000
  type u128 = x: int | 0 <= x < 0x1_0000_0000_0000_0000_0000_0000_0000_0000
  type i32 = x: int | -0x8000_0000 <= x < 0x8000_0000
  type i64 = x: int | -0x8000_0000_0000_0000 <= x < 0x8000_0000_0000_0000

  /** An account address. `Pubkey::default()` is the all-zero key, here 0. */
  type Pubkey = nat
  const DEFAULT_KEY: Pubkey := 0

  // constants.rs
  const MAX_ORDER_PER_TRADER: nat := 16
  const MAX_SLAB_NODES: nat := 1024
  const MAX_EVENTS: nat := 128
  const FEE_BASIS_POINTS: u16 := 50
  const EMPTY_INDEX: i32 := -1

  /** PRICE_PRECISION_SCALE is used by the program but not defined in
      constants.rs; prices are fixed-point with six decimals. */
  const PRICE_PRECISION_SCALE: nat := 1_000_000

  /** The error codes of error.rs, plus `Panic`, which stands for an
      arithmetic overflow or an out-of-range array index that makes the
      Rust program abort. */
  datatype MarketError =
    | MarketNotOpen
    | EventQueueFull
    | RequestQueueFull
    | InsufficientBalance
    | OrderNotFound
    | MaxOrderReached
    | Unauthorized
    | MathError
    | NoMatchingOrder
    | InvalidArgument
    | SlotOccupied
    | InvalidSide
    | VaultTransferFailed
    | Panic

  /** Anchor's `Result<T>`. */
  datatype Result<+T> = Ok(value: T) | Err(error: MarketError) {
    predicate IsFailure() {
      Err?
    }

    function PropagateFailure<U>(): Result<U>
      requires Err?
    {
      Err(error)
    }

    function Extract(): T
      requires Ok?
    {
      value
    }
  }

  datatype Option<+T> = None | Some(value: T)

  function Min(a: int, b: int): int
  {
    if a <= b then a else b
  }
}

/** The market account and the enums of state/market.rs. The handlers of
    initialize_market.rs also write `usdc_mint`, `vault_yes`, `vault_no`,
    `request_queue`, `fee_vault_usdc` and `cranker_reward_bps`, which the
    struct does not declare; they are extra fields here. */
module MarketState {
  import opened Common

  datatype OutcomeSide = Yes | No

  datatype OrderSide = Buy | Sell

  /** resolve_market.rs writes `ResolvedYes` / `ResolvedNo`, while the enum
      declares `Resolved { winner }`; both name the same two states, here
      `Resolved(Yes)` and `Resolved(No)`. */
  datatype MarketStatus = Open | Paused | Resolved(winner: OutcomeSide) | Cancelled

  class Market {
    var marketId: u64
    var creator: Pubkey
    var question: string
    var description: string
    var endTs: i64
    var status: MarketStatus
    var yesMint: Pubkey
    var noMint: Pubkey
    var usdcMint: Pubkey
    var vaultUsdc: Pubkey
    var vaultYes: Pubkey
    var vaultNo: Pubkey
    var ammPool: Pubkey
    var feeBps: u16
    var crankerRewardBps: u16
    var qYes: u128
    var qNo: u128
    var bLiquidity: u64
    var bids: Pubkey
    var asks: Pubkey
    var eventQueue: Pubkey
    var requestQueue: Pubkey
    var feeVaultUsdc: Pubkey
    var oracle: Pubkey
    var bump: u8

    /** A freshly created account: every byte zero. */
    constructor ()
      ensures status == Open && qYes == 0 && qNo == 0 && bLiquidity == 0
      ensures question == [] && description == []
    {
      marketId, creator, question, description, endTs := 0, DEFAULT_KEY, [], [], 0;
      status := Open;
      yesMint, noMint, usdcMint, vaultUsdc, vaultYes, vaultNo, ammPool := 0, 0, 0, 0, 0, 0, 0;
      feeBps, crankerRewardBps, qYes, qNo, bLiquidity := 0, 0, 0, 0, 0;
      bids, asks, eventQueue, requestQueue, feeVaultUsdc, oracle, bump := 0, 0, 0, 0, 0, 0, 0;
    }
  }
}

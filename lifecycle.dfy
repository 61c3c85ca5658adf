/** Creating and resolving a market (instructions/initialize_market.rs,
    instructions/resolve_market.rs). The accounts the runtime creates for
    the instruction (mints, vaults, queues, slabs) arrive as objects or as
    their addresses; the signer is an address parameter and the clock's
    unix timestamp is `now`. */
module Lifecycle {
  import opened Common
  import opened MarketState
  import opened BookState
  import opened RingBuffer
  import opened ArenaSlab

  /** The instruction arguments of initialize_market.rs:133-140. */
  datatype InitializeMarketParams = InitializeMarketParams(
    marketId: u64,
    question: string,
    description: string,
    endTs: i64,
    feeBps: u16,
    crankerFeeBps: u16)

  /** The addresses of the accounts the instruction stores in the market. */
  datatype MarketAccounts = MarketAccounts(
    admin: Pubkey,
    asks: Pubkey,
    bids: Pubkey,
    yesMint: Pubkey,
    noMint: Pubkey,
    usdcMint: Pubkey,
    vaultUsdc: Pubkey,
    vaultYes: Pubkey,
    vaultNo: Pubkey,
    eventQueue: Pubkey,
    requestQueue: Pubkey,
    feeVaultUsdc: Pubkey)

  /** The PDA bumps the runtime found for the created accounts. */
  datatype Bumps = Bumps(market: u8, requestQueue: u8, eventQueue: u8, asks: u8, bids: u8)

  /** The liquidity parameter every market starts with. */
  const INITIAL_B_LIQUIDITY: u64 := 100_000

  /** The largest accepted basis-point fee, 100%. */
  const MAX_BPS: u16 := 10_000

  /** The argument checks of initialize_market.rs:147-163, in their order;
      they all fail with InvalidArgument. MAX_MARKET_QUESTION and
      MAX_MARKET_DESC are used but not defined in constants.rs, so they are
      parameters. */
  predicate ValidMarketParams(params: InitializeMarketParams, now: i64, maxQuestion: nat, maxDescription: nat)
  {
    params.feeBps <= MAX_BPS && params.crankerFeeBps <= MAX_BPS && params.endTs > now &&
    |params.question| <= maxQuestion && |params.description| <= maxDescription
  }

  /** The terms of the market that initialize_market.rs:165-170 and
      182-188 write. */
  method WriteTerms(market: Market, params: InitializeMarketParams, admin: Pubkey, bump: u8)
    modifies market`marketId, market`creator, market`question, market`description, market`endTs, market`status
    modifies market`feeBps, market`crankerRewardBps, market`qYes, market`qNo, market`bLiquidity, market`oracle, market`bump
    ensures market.marketId == params.marketId && market.creator == admin && market.oracle == admin
    ensures market.question == params.question && market.description == params.description
    ensures market.endTs == params.endTs && market.status == Open
    ensures market.feeBps == params.feeBps && market.crankerRewardBps == params.crankerFeeBps
    ensures market.qYes == 0 && market.qNo == 0 && market.bLiquidity == INITIAL_B_LIQUIDITY && market.bump == bump
  {
    market.marketId := params.marketId;
    market.creator := admin;
    market.question := params.question;
    market.description := params.description;
    market.endTs := params.endTs;
    market.status := Open;
    market.feeBps := params.feeBps;
    market.crankerRewardBps := params.crankerFeeBps;
    market.qYes := 0;
    market.qNo := 0;
    market.bLiquidity := INITIAL_B_LIQUIDITY;
    market.oracle := admin;
    market.bump := bump;
  }

  /** The account addresses that initialize_market.rs:171-181 records in
      the market. */
  method WriteAccounts(market: Market, keys: MarketAccounts)
    modifies market`asks, market`bids, market`yesMint, market`noMint, market`usdcMint, market`vaultUsdc
    modifies market`vaultYes, market`vaultNo, market`eventQueue, market`requestQueue, market`feeVaultUsdc
    ensures market.asks == keys.asks && market.bids == keys.bids && market.yesMint == keys.yesMint
    ensures market.noMint == keys.noMint && market.usdcMint == keys.usdcMint && market.vaultUsdc == keys.vaultUsdc
    ensures market.vaultYes == keys.vaultYes && market.vaultNo == keys.vaultNo && market.eventQueue == keys.eventQueue
    ensures market.requestQueue == keys.requestQueue && market.feeVaultUsdc == keys.feeVaultUsdc
  {
    market.asks := keys.asks;
    market.bids := keys.bids;
    market.yesMint := keys.yesMint;
    market.noMint := keys.noMint;
    market.usdcMint := keys.usdcMint;
    market.vaultUsdc := keys.vaultUsdc;
    market.vaultYes := keys.vaultYes;
    market.vaultNo := keys.vaultNo;
    market.eventQueue := keys.eventQueue;
    market.requestQueue := keys.requestQueue;
    market.feeVaultUsdc := keys.feeVaultUsdc;
  }

  /** The market as initialize_market.rs:165-188 leaves it: open, with no
      shares outstanding, the initial liquidity, the given terms and fees,
      the admin as creator and oracle and the given account addresses. */
  ghost predicate Configured(market: Market, params: InitializeMarketParams, keys: MarketAccounts, bumps: Bumps)
    reads market
  {
    market.marketId == params.marketId && market.creator == keys.admin && market.oracle == keys.admin &&
    market.question == params.question && market.description == params.description &&
    market.endTs == params.endTs && market.status == Open &&
    market.feeBps == params.feeBps && market.crankerRewardBps == params.crankerFeeBps &&
    market.qYes == 0 && market.qNo == 0 && market.bLiquidity == INITIAL_B_LIQUIDITY &&
    market.asks == keys.asks && market.bids == keys.bids && market.yesMint == keys.yesMint &&
    market.noMint == keys.noMint && market.usdcMint == keys.usdcMint && market.vaultUsdc == keys.vaultUsdc &&
    market.vaultYes == keys.vaultYes && market.vaultNo == keys.vaultNo && market.eventQueue == keys.eventQueue &&
    market.requestQueue == keys.requestQueue && market.feeVaultUsdc == keys.feeVaultUsdc &&
    market.bump == bumps.market
  }

  /** Both queues empty, their heads reset to 0 (initialize_market.rs:191-198). */
  ghost predicate EmptiedQueues(requestQueue: RequestQueue, eventQueue: EventQueue, bumps: Bumps)
    reads requestQueue, requestQueue.requests, eventQueue, eventQueue.events
  {
    requestQueue.Valid() && requestQueue.head == 0 && requestQueue.Contents() == [] &&
    requestQueue.bump == bumps.requestQueue &&
    eventQueue.Valid() && eventQueue.head == 0 && eventQueue.Contents() == [] && eventQueue.bump == bumps.eventQueue
  }

  /** initialize_market.rs:191-198: both queues emptied. */
  method ResetQueues(requestQueue: RequestQueue, eventQueue: EventQueue, bumps: Bumps)
    requires 0 < requestQueue.requests.Length < U64_LIMIT && eventQueue.events.Length == MAX_EVENTS
    modifies requestQueue`head, requestQueue`count, requestQueue`bump, eventQueue`head, eventQueue`count, eventQueue`bump
    ensures EmptiedQueues(requestQueue, eventQueue, bumps)
  {
    requestQueue.head, requestQueue.count, requestQueue.bump := 0, 0, bumps.requestQueue;
    eventQueue.head, eventQueue.count, eventQueue.bump := 0, 0, bumps.eventQueue;
  }

  /** Two empty books, the asks on the ask side and the bids on the bid side. */
  ghost predicate EmptyBooks(asks: Slab, bids: Slab, asksBump: u8, bidsBump: u8)
    reads asks, asks.priceNodes, asks.orderEntries, bids, bids.priceNodes, bids.orderEntries
  {
    asks.Valid() && !asks.isBid && asks.Book() == [] && asks.bump == asksBump &&
    bids.Valid() && bids.isBid && bids.Book() == [] && bids.bump == bidsBump
  }

  /** initialize_market.rs:201-205: the asks become an empty ask book and
      the bids an empty bid book. */
  method InitializeBooks(asks: Slab, bids: Slab, asksBump: u8, bidsBump: u8)
    requires asks != bids && asks.priceNodes != bids.priceNodes && asks.orderEntries != bids.orderEntries
    requires 0 < asks.priceNodes.Length < I32_LIMIT && 0 < asks.orderEntries.Length < I32_LIMIT
    requires 0 < bids.priceNodes.Length < I32_LIMIT && 0 < bids.orderEntries.Length < I32_LIMIT
    modifies asks, asks.priceNodes, asks.orderEntries, bids, bids.priceNodes, bids.orderEntries
    ensures asks.priceNodes == old(asks.priceNodes) && asks.orderEntries == old(asks.orderEntries)
    ensures bids.priceNodes == old(bids.priceNodes) && bids.orderEntries == old(bids.orderEntries)
    ensures EmptyBooks(asks, bids, asksBump, bidsBump)
  {
    asks.InitializeSlab(false, asksBump);
    bids.InitializeSlab(true, bidsBump);
  }

  /** The writes of initialize_market.rs:164-205, once the checks passed. */
  method SetUp(market: Market, requestQueue: RequestQueue, eventQueue: EventQueue, asks: Slab, bids: Slab,
               params: InitializeMarketParams, keys: MarketAccounts, bumps: Bumps)
    requires asks != bids && asks.priceNodes != bids.priceNodes && asks.orderEntries != bids.orderEntries
    requires 0 < asks.priceNodes.Length < I32_LIMIT && 0 < asks.orderEntries.Length < I32_LIMIT
    requires 0 < bids.priceNodes.Length < I32_LIMIT && 0 < bids.orderEntries.Length < I32_LIMIT
    requires 0 < requestQueue.requests.Length < U64_LIMIT && eventQueue.events.Length == MAX_EVENTS
    modifies market, requestQueue`head, requestQueue`count, requestQueue`bump, eventQueue`head, eventQueue`count, eventQueue`bump
    modifies asks, asks.priceNodes, asks.orderEntries, bids, bids.priceNodes, bids.orderEntries
    ensures asks.priceNodes == old(asks.priceNodes) && asks.orderEntries == old(asks.orderEntries)
    ensures bids.priceNodes == old(bids.priceNodes) && bids.orderEntries == old(bids.orderEntries)
    ensures Configured(market, params, keys, bumps) && market.ammPool == old(market.ammPool)
    ensures EmptiedQueues(requestQueue, eventQueue, bumps)
    ensures EmptyBooks(asks, bids, bumps.asks, bumps.bids)
  {
    WriteMarket(market, params, keys, bumps);
    ResetQueues(requestQueue, eventQueue, bumps);
    InitializeBooks(asks, bids, bumps.asks, bumps.bids);
  }

  /** initialize_market.rs:164-188: every field of the market but its AMM pool. */
  method WriteMarket(market: Market, params: InitializeMarketParams, keys: MarketAccounts, bumps: Bumps)
    modifies market
    ensures Configured(market, params, keys, bumps) && market.ammPool == old(market.ammPool)
  {
    WriteTerms(market, params, keys.admin, bumps.market);
    WriteAccounts(market, keys);
  }

  /** initial_market_handler: the checks, then the market's fields, then
      both queues emptied and both slabs initialized as empty books. */
  method InitializeMarket(market: Market, requestQueue: RequestQueue, eventQueue: EventQueue, asks: Slab, bids: Slab,
                          params: InitializeMarketParams, keys: MarketAccounts, bumps: Bumps, now: i64,
                          maxQuestion: nat, maxDescription: nat)
    returns (r: Result<()>)
    requires asks != bids && asks.priceNodes != bids.priceNodes && asks.orderEntries != bids.orderEntries
    requires 0 < asks.priceNodes.Length < I32_LIMIT && 0 < asks.orderEntries.Length < I32_LIMIT
    requires 0 < bids.priceNodes.Length < I32_LIMIT && 0 < bids.orderEntries.Length < I32_LIMIT
    requires 0 < requestQueue.requests.Length < U64_LIMIT && eventQueue.events.Length == MAX_EVENTS
    modifies market, requestQueue, eventQueue
    modifies asks, asks.priceNodes, asks.orderEntries, bids, bids.priceNodes, bids.orderEntries
    ensures asks.priceNodes == old(asks.priceNodes) && asks.orderEntries == old(asks.orderEntries)
    ensures bids.priceNodes == old(bids.priceNodes) && bids.orderEntries == old(bids.orderEntries)
    ensures requestQueue.requests == old(requestQueue.requests) && eventQueue.events == old(eventQueue.events)
    ensures !ValidMarketParams(params, now, maxQuestion, maxDescription) ==>
      r == Err(InvalidArgument) && unchanged(market, requestQueue, eventQueue) &&
      unchanged(asks, asks.priceNodes, asks.orderEntries, bids, bids.priceNodes, bids.orderEntries)
    ensures ValidMarketParams(params, now, maxQuestion, maxDescription) ==> r == Ok(())
    ensures r.Ok? ==> Configured(market, params, keys, bumps) && market.ammPool == old(market.ammPool)
    ensures r.Ok? ==> EmptiedQueues(requestQueue, eventQueue, bumps)
    ensures r.Ok? ==> EmptyBooks(asks, bids, bumps.asks, bumps.bids)
  {
    if params.feeBps > MAX_BPS || params.crankerFeeBps > MAX_BPS || params.endTs <= now ||
       |params.question| > maxQuestion || |params.description| > maxDescription {
      return Err(InvalidArgument);
    }
    SetUp(market, requestQueue, eventQueue, asks, bids, params, keys, bumps);
    r := Ok(());
  }

  /** The status resolve_market sets for a winner byte, None when the byte
      names neither outcome. */
  function WinnerStatus(winner: u8): (s: Option<MarketStatus>)
    ensures s.Some? <==> winner in {OUTCOME_YES, OUTCOME_NO}
    ensures s.Some? ==> s.value.Resolved? && (s.value.winner == Yes <==> winner == OUTCOME_YES)
  {
    if winner == OUTCOME_YES then Some(Resolved(Yes))
    else if winner == OUTCOME_NO then Some(Resolved(No))
    else None
  }

  /** resolve_market_handler: only the creator may resolve; a winner byte
      of 0 or 1 sets the outcome whatever the status was before (an open,
      paused, cancelled or already resolved market alike), and any other
      byte succeeds without changing anything. */
  method ResolveMarket(market: Market, admin: Pubkey, winner: u8) returns (r: Result<()>)
    modifies market`status
    ensures market.creator != admin ==> r == Err(Unauthorized) && market.status == old(market.status)
    ensures market.creator == admin ==> r == Ok(())
    ensures r.Ok? && winner == OUTCOME_YES ==> market.status == Resolved(Yes)
    ensures r.Ok? && winner == OUTCOME_NO ==> market.status == Resolved(No)
    ensures winner !in {OUTCOME_YES, OUTCOME_NO} ==> market.status == old(market.status)
  {
    if market.creator != admin {
      return Err(Unauthorized);
    }
    var s := WinnerStatus(winner);
    if s.Some? {
      market.status := s.value;
    }
    r := Ok(());
  }
}

/** Initialising the reserves of a market: one strategy per name, reserves in batches, and the
    incentives of the resulting aTokens. */
module ReserveInitialisation {
  import opened Collections

  const INIT_CHUNKS := 4
  const ZERO_ADDRESS := "0x0000000000000000000000000000000000000000"

  datatype Strategy = Strategy(
    name: string,
    optimalUtilizationRate: string,
    baseVariableBorrowRate: string,
    variableRateSlope1: string,
    variableRateSlope2: string,
    stableRateSlope1: string,
    stableRateSlope2: string,
    capacity: string
  )

  datatype ReserveParams = ReserveParams(
    strategy: Strategy,
    aTokenImpl: string,
    reserveDecimals: string,
    emissionPerSecond: string
  )

  type Reserve = (string, ReserveParams)

  datatype InitInput = InitInput(
    aTokenImpl: string,
    stableDebtTokenImpl: string,
    variableDebtTokenImpl: string,
    underlyingAssetDecimals: string,
    interestRateStrategyAddress: string,
    yieldAddress: string,
    underlyingAsset: string,
    treasury: string,
    incentivesController: string,
    underlyingAssetName: string,
    aTokenName: string,
    aTokenSymbol: string,
    variableDebtTokenName: string,
    variableDebtTokenSymbol: string,
    stableDebtTokenName: string,
    stableDebtTokenSymbol: string,
    params: string
  )

  /** The arguments of the initialisation, and the addresses it looks up. */
  datatype Market = Market(
    tokenAddresses: Entries<string>,
    yieldAddresses: Entries<string>,
    addressProvider: string,
    treasury: string,
    incentives: string,
    aTokenNamePrefix: string,
    stableDebtTokenNamePrefix: string,
    variableDebtTokenNamePrefix: string,
    symbolPrefix: string
  )

  datatype Tx =
    | DeployStableDebtToken
    | DeployVariableDebtToken
    | DeployATokenImpl
    | DeployCollateralATokenImpl
    | DeployStrategy(args: seq<string>)
    | BatchInitReserve(inputs: seq<InitInput>)
    | ConfigureAssets(assets: seq<string>, emissions: seq<string>)

  /** What is sent to the network; the n-th contract created gets the address addressOf(n). */
  class Network {
    const addressOf: nat -> string
    var created: nat
    var trace: seq<Tx>

    constructor (addressOf: nat -> string)
      ensures this.addressOf == addressOf && created == 0 && trace == []
    {
      this.addressOf := addressOf;
      created := 0;
      trace := [];
    }

    method Deploy(tx: Tx) returns (address: string)
      modifies this
      ensures trace == old(trace) + [tx] && created == old(created) + 1
      ensures address == addressOf(old(created))
    {
      address := addressOf(created);
      trace := trace + [tx];
      created := created + 1;
    }

    method Send(tx: Tx)
      modifies this`trace
      ensures trace == old(trace) + [tx]
    {
      trace := trace + [tx];
    }
  }

  // ---------- the plain form ----------

  predicate Accepted(r: Reserve) {
    r.1.aTokenImpl == "AToken" || r.1.aTokenImpl == "ATokenForCollateral"
  }

  function WithToken(accepted: Entries<ReserveParams>, tokens: Entries<string>): seq<Reserve> {
    Filter(accepted, (r: Reserve) => Get(tokens, r.0) != "")
  }

  function Retained(reserves: Entries<ReserveParams>, tokens: Entries<string>): Entries<ReserveParams> {
    WithToken(Filter(reserves, (r: Reserve) => Accepted(r)), tokens)
  }

  predicate HasStrategy(strategies: seq<Strategy>, name: string) {
    exists k | 0 <= k < |strategies| :: strategies[k].name == name
  }

  /** The strategies of the reserves, the first one of every name. */
  function FirstStrategies(retained: seq<Reserve>): seq<Strategy> {
    AddStrategies([], retained)
  }

  function AddStrategies(before: seq<Strategy>, retained: seq<Reserve>): seq<Strategy>
    decreases |retained|
  {
    if retained == [] then before else AddStrategies(AddStrategy(before, retained[0].1.strategy), retained[1..])
  }

  function AddStrategy(before: seq<Strategy>, s: Strategy): seq<Strategy> {
    if HasStrategy(before, s.name) then before else before + [s]
  }

  function StrategyIndex(strategies: seq<Strategy>, name: string): (k: nat)
    requires HasStrategy(strategies, name)
    ensures k < |strategies| && strategies[k].name == name
  {
    if strategies[0].name == name then 0
    else
      assert exists k | 0 <= k < |strategies[1..]| :: strategies[1..][k].name == name by {
        var k :| 0 <= k < |strategies| && strategies[k].name == name;
        assert strategies[1..][k - 1].name == name;
      }
      1 + StrategyIndex(strategies[1..], name)
  }

  function StrategyArgs(addressProvider: string, s: Strategy): seq<string> {
    [addressProvider, s.optimalUtilizationRate, s.baseVariableBorrowRate, s.variableRateSlope1,
     s.variableRateSlope2, s.stableRateSlope1, s.stableRateSlope2, s.capacity]
  }

  /** The addresses of the four token implementations. */
  datatype Implementations = Implementations(stableDebt: string, variableDebt: string, aToken: string, collateral: string)

  /** The record pushed for a reserve. */
  function MakeInput(symbol: string, decimals: string, token: string, strategyAddress: string, aTokenToUse: string,
                     market: Market, impls: Implementations): InitInput
  {
    var yieldAddress := Get(market.yieldAddresses, symbol);
    InitInput(
      aTokenToUse,
      impls.stableDebt,
      impls.variableDebt,
      decimals,
      strategyAddress,
      if yieldAddress != "" then yieldAddress else ZERO_ADDRESS,
      token,
      market.treasury,
      market.incentives,
      symbol,
      market.aTokenNamePrefix + " " + symbol,
      "s" + market.symbolPrefix + symbol,
      market.variableDebtTokenNamePrefix + " " + market.symbolPrefix + symbol,
      "variableDebt" + market.symbolPrefix + symbol,
      market.stableDebtTokenNamePrefix + " " + symbol,
      "stableDebt" + market.symbolPrefix + symbol,
      "0x10")
  }

  /** A reserve's record from its own fields. */
  function InputOf(r: Reserve, strategyAddress: string, market: Market, impls: Implementations): InitInput {
    MakeInput(r.0, r.1.reserveDecimals, Get(market.tokenAddresses, r.0), strategyAddress,
              if r.1.aTokenImpl == "AToken" then impls.aToken else impls.collateral, market, impls)
  }

  /** The strategy addresses by name, when the first strategy is the creation number `base`. */
  function StrategyAddress(retained: seq<Reserve>, addressOf: nat -> string, base: nat, name: string): string {
    var strategies := FirstStrategies(retained);
    if HasStrategy(strategies, name) then addressOf(base + StrategyIndex(strategies, name)) else ""
  }

  function InitInputs(retained: seq<Reserve>, addressOf: nat -> string, base: nat, market: Market,
                      impls: Implementations): seq<InitInput>
  {
    Map(retained, (r: Reserve) =>
      InputOf(r, StrategyAddress(retained, addressOf, base, r.1.strategy.name), market, impls))
  }

  function ImplementationsAt(addressOf: nat -> string, created: nat): Implementations {
    Implementations(addressOf(created), addressOf(created + 1), addressOf(created + 2), addressOf(created + 3))
  }

  // ---------- the loops ----------

  /** The strings 'generic' and 'collateral'. */
  datatype ATokenType = Generic | Collateral

  /** What the first loop leaves behind: parallel arrays, and records keyed by symbol. */
  datatype Collected = Collected(
    reserveInitDecimals: seq<string>,
    reserveTokens: seq<string>,
    reserveSymbols: seq<string>,
    emissionPerSeconds: seq<string>,
    strategyAddressPerAsset: map<string, string>,
    aTokenType: map<string, ATokenType>
  )

  /** The arrays hold the fields of the retained reserves by position, the records by symbol. */
  ghost predicate Holds(c: Collected, retained: seq<Reserve>, tokens: Entries<string>,
                        strategyAddresses: map<string, string>) {
    && |c.reserveInitDecimals| == |c.reserveTokens| == |c.reserveSymbols| == |c.emissionPerSeconds| == |retained|
    && (forall k | 0 <= k < |retained| :: HoldsAt(c, k, retained[k], tokens, strategyAddresses))
  }

  ghost predicate HoldsAt(c: Collected, k: nat, r: Reserve, tokens: Entries<string>,
                          strategyAddresses: map<string, string>)
    requires k < |c.reserveInitDecimals| && k < |c.reserveTokens| && k < |c.reserveSymbols|
    requires k < |c.emissionPerSeconds|
  {
    && c.reserveInitDecimals[k] == r.1.reserveDecimals
    && c.reserveTokens[k] == Get(tokens, r.0)
    && c.reserveSymbols[k] == r.0
    && c.emissionPerSeconds[k] == r.1.emissionPerSecond
    && r.1.strategy.name in strategyAddresses
    && r.0 in c.strategyAddressPerAsset
    && c.strategyAddressPerAsset[r.0] == strategyAddresses[r.1.strategy.name]
    && r.0 in c.aTokenType
    && c.aTokenType[r.0] == if r.1.aTokenImpl == "AToken" then Generic else Collateral
  }

  /** The cache after creating the strategies: each at the address of its creation. */
  function CacheOf(strategies: seq<Strategy>, addressOf: nat -> string, base: nat): map<string, string> {
    if strategies == [] then map[]
    else
      var n := |strategies| - 1;
      CacheOf(strategies[..n], addressOf, base)[strategies[n].name := addressOf(base + n)]
  }

  lemma HasStrategySnoc(strategies: seq<Strategy>, s: Strategy, name: string)
    ensures HasStrategy(strategies + [s], name) <==> HasStrategy(strategies, name) || s.name == name
  {
    var more := strategies + [s];
    if HasStrategy(strategies, name) {
      var k :| 0 <= k < |strategies| && strategies[k].name == name;
      assert more[k].name == name;
    }
    assert more[|strategies|] == s;
  }

  /** The cached names are those of the strategies. */
  lemma {:induction false} CachedNames(strategies: seq<Strategy>, addressOf: nat -> string, base: nat, name: string)
    ensures name in CacheOf(strategies, addressOf, base) <==> HasStrategy(strategies, name)
  {
    if strategies == [] {
    } else {
      var n := |strategies| - 1;
      CachedNames(strategies[..n], addressOf, base, name);
      HasStrategySnoc(strategies[..n], strategies[n], name);
      assert strategies[..n] + [strategies[n]] == strategies;
    }
  }

  ghost predicate DistinctNames(strategies: seq<Strategy>) {
    forall i, j | 0 <= i < j < |strategies| :: strategies[i].name != strategies[j].name
  }

  /** Without repeated names every strategy is cached at the address of its creation. */
  lemma {:induction false} CachedAddress(strategies: seq<Strategy>, addressOf: nat -> string, base: nat, k: nat)
    requires k < |strategies| && DistinctNames(strategies)
    ensures strategies[k].name in CacheOf(strategies, addressOf, base)
    ensures CacheOf(strategies, addressOf, base)[strategies[k].name] == addressOf(base + k)
  {
    var n := |strategies| - 1;
    if k == n {
    } else {
      CachedAddress(strategies[..n], addressOf, base, k);
    }
  }

  lemma {:induction false} CachedAddressIsSet(strategies: seq<Strategy>, addressOf: nat -> string, base: nat, name: string)
    requires GivesAddresses(addressOf) && name in CacheOf(strategies, addressOf, base)
    ensures CacheOf(strategies, addressOf, base)[name] != ""
  {
    var n := |strategies| - 1;
    if name == strategies[n].name {
    } else {
      CachedAddressIsSet(strategies[..n], addressOf, base, name);
    }
  }

  lemma CacheExtends(strategies: seq<Strategy>, s: Strategy, addressOf: nat -> string, base: nat)
    ensures CacheOf(strategies + [s], addressOf, base)
            == CacheOf(strategies, addressOf, base)[s.name := addressOf(base + |strategies|)]
  {
    assert (strategies + [s])[..|strategies|] == strategies;
  }

  ghost predicate GivesAddresses(addressOf: nat -> string) {
    forall n :: addressOf(n) != ""
  }

  lemma {:induction false} AddStrategiesSnoc(before: seq<Strategy>, retained: seq<Reserve>, r: Reserve)
    ensures AddStrategies(before, retained + [r]) == AddStrategy(AddStrategies(before, retained), r.1.strategy)
    decreases |retained|
  {
    if retained == [] {
      assert (retained + [r])[1..] == [];
    } else {
      assert (retained + [r])[1..] == retained[1..] + [r];
      AddStrategiesSnoc(AddStrategy(before, retained[0].1.strategy), retained[1..], r);
    }
  }

  function Push(c: Collected, r: Reserve, tokens: Entries<string>, strategyAddress: string): Collected {
    Collected(c.reserveInitDecimals + [r.1.reserveDecimals],
              c.reserveTokens + [Get(tokens, r.0)],
              c.reserveSymbols + [r.0],
              c.emissionPerSeconds + [r.1.emissionPerSecond],
              c.strategyAddressPerAsset[r.0 := strategyAddress],
              c.aTokenType[r.0 := if r.1.aTokenImpl == "AToken" then Generic else Collateral])
  }

  lemma PushHolds(c: Collected, retained: seq<Reserve>, r: Reserve, tokens: Entries<string>,
                  before: map<string, string>, cache: map<string, string>)
    requires Holds(c, retained, tokens, before) && r.1.strategy.name in cache
    requires forall name <- before :: name in cache && cache[name] == before[name]
    requires forall k | 0 <= k < |retained| :: retained[k].0 != r.0
    ensures Holds(Push(c, r, tokens, cache[r.1.strategy.name]), retained + [r], tokens, cache)
  {
    var c', more := Push(c, r, tokens, cache[r.1.strategy.name]), retained + [r];
    forall k | 0 <= k < |more| ensures HoldsAt(c', k, more[k], tokens, cache) {
      if k < |retained| {
        assert HoldsAt(c, k, retained[k], tokens, before);
      }
    }
  }

  lemma NotRetainedYet(accepted: Entries<ReserveParams>, i: nat, keep: Reserve -> bool)
    requires UniqueKeys(accepted) && i < |accepted|
    ensures forall k | 0 <= k < |Filter(accepted[..i], keep)| :: Filter(accepted[..i], keep)[k].0 != accepted[i].0
  {
    var done := Filter(accepted[..i], keep);
    FilterMembers(accepted[..i], keep);
    forall k | 0 <= k < |done| ensures done[k].0 != accepted[i].0 {
      assert done[k] in done;
      var j :| 0 <= j < i && accepted[j] == done[k];
    }
  }

  function DeployStrategies(strategies: seq<Strategy>, addressProvider: string): seq<Tx> {
    Map(strategies, (s: Strategy) => DeployStrategy(StrategyArgs(addressProvider, s)))
  }

  /** The state of the loop once the reserves in `done` are retained, with these first
      strategies: `sent` since it started, the
      first creation being number `base`. */
  ghost predicate Collecting(strategies: seq<Strategy>, done: seq<Reserve>, sent: seq<Tx>, created: nat, base: nat,
                             addressOf: nat -> string, c: Collected, cache: map<string, string>, market: Market) {
    && sent == DeployStrategies(strategies, market.addressProvider)
    && created == base + |strategies|
    && cache == CacheOf(strategies, addressOf, base)
    && Holds(c, done, market.tokenAddresses, cache)
  }

  /** A reserve of a cached strategy. */
  lemma CollectingCached(strategies: seq<Strategy>, done: seq<Reserve>, sent: seq<Tx>, created: nat, base: nat,
                         addressOf: nat -> string, c: Collected, cache: map<string, string>, market: Market, r: Reserve)
    requires Collecting(strategies, done, sent, created, base, addressOf, c, cache, market)
    requires r.1.strategy.name in cache && forall k | 0 <= k < |done| :: done[k].0 != r.0
    ensures Collecting(strategies, done + [r], sent, created, base, addressOf,
                       Push(c, r, market.tokenAddresses, cache[r.1.strategy.name]), cache, market)
  {
    PushHolds(c, done, r, market.tokenAddresses, cache, cache);
  }

  /** A reserve of a strategy that has to be created. */
  lemma CollectingCreated(strategies: seq<Strategy>, done: seq<Reserve>, sent: seq<Tx>, created: nat, base: nat,
                          addressOf: nat -> string, c: Collected, cache: map<string, string>, market: Market, r: Reserve)
    requires Collecting(strategies, done, sent, created, base, addressOf, c, cache, market)
    requires r.1.strategy.name !in cache && forall k | 0 <= k < |done| :: done[k].0 != r.0
    ensures Collecting(strategies + [r.1.strategy], done + [r],
                       sent + [DeployStrategy(StrategyArgs(market.addressProvider, r.1.strategy))],
                       created + 1, base, addressOf, Push(c, r, market.tokenAddresses, addressOf(created)),
                       cache[r.1.strategy.name := addressOf(created)], market)
  {
    var s := r.1.strategy;
    CacheExtends(strategies, s, addressOf, base);
    CachedNames(strategies, addressOf, base, s.name);
    PushHolds(c, done, r, market.tokenAddresses, cache, cache[s.name := addressOf(created)]);
    DeployStrategiesSnoc(strategies, s, market.addressProvider);
  }

  lemma DeployStrategiesSnoc(strategies: seq<Strategy>, s: Strategy, addressProvider: string)
    ensures DeployStrategies(strategies + [s], addressProvider)
            == DeployStrategies(strategies, addressProvider) + [DeployStrategy(StrategyArgs(addressProvider, s))]
  {
  }

  lemma AppendToSent(start: seq<Tx>, sent: seq<Tx>, tx: Tx)
    ensures start + sent + [tx] == start + (sent + [tx])
  {
  }

  /** One retained reserve: its strategy is created unless its name is cached. The trace is what it
      was at the start of the loop, and what the loop sent. */
  method CollectReserve(network: Network, r: Reserve, market: Market, c: Collected, cache: map<string, string>,
                        ghost strategies: seq<Strategy>, ghost done: seq<Reserve>, ghost start: seq<Tx>,
                        ghost sent: seq<Tx>, ghost base: nat)
    returns (c': Collected, cache': map<string, string>, ghost strategies': seq<Strategy>, ghost sent': seq<Tx>)
    requires Collecting(strategies, done, sent, network.created, base, network.addressOf, c, cache, market)
    requires GivesAddresses(network.addressOf) && forall k | 0 <= k < |done| :: done[k].0 != r.0
    requires network.trace == start + sent
    modifies network
    ensures network.trace == start + sent'
    ensures strategies' == AddStrategy(strategies, r.1.strategy)
    ensures Collecting(strategies', done + [r], sent', network.created, base, network.addressOf, c', cache', market)
  {
    var strategy := r.1.strategy;
    cache', strategies', sent' := cache, strategies, sent;
    CachedNames(strategies, network.addressOf, base, strategy.name);
    if strategy.name in cache {
      CachedAddressIsSet(strategies, network.addressOf, base, strategy.name);
      CollectingCached(strategies, done, sent, network.created, base, network.addressOf, c, cache, market, r);
    } else {
      CollectingCreated(strategies, done, sent, network.created, base, network.addressOf, c, cache, market, r);
    }
    if strategy.name !in cache || cache[strategy.name] == "" {
      var tx := DeployStrategy(StrategyArgs(market.addressProvider, strategy));
      AppendToSent(start, sent, tx);
      var address := network.Deploy(tx);
      sent', strategies' := sent + [tx], strategies + [strategy];
      cache' := cache[strategy.name := address];
    }
    c' := Push(c, r, market.tokenAddresses, cache'[strategy.name]);
  }

  lemma NextWithToken(accepted: Entries<ReserveParams>, i: nat, tokens: Entries<string>)
    requires UniqueKeys(accepted) && i < |accepted|
    ensures var before, after := WithToken(accepted[..i], tokens), WithToken(accepted[..i + 1], tokens);
      && after == before + (if Get(tokens, accepted[i].0) != "" then [accepted[i]] else [])
      && (forall k | 0 <= k < |before| :: before[k].0 != accepted[i].0)
      && FirstStrategies(before + [accepted[i]]) == AddStrategy(FirstStrategies(before), accepted[i].1.strategy)
  {
    var keep := (r: Reserve) => Get(tokens, r.0) != "";
    FilterOfPrefix(accepted, i, keep);
    NotRetainedYet(accepted, i, keep);
    AddStrategiesSnoc([], WithToken(accepted[..i], tokens), accepted[i]);
  }

  /** The loop over the accepted reserves; one without a token address is skipped. */
  method CollectAccepted(network: Network, accepted: Entries<ReserveParams>, market: Market)
    returns (c: Collected, strategyAddresses: map<string, string>, ghost sent: seq<Tx>)
    requires UniqueKeys(accepted) && GivesAddresses(network.addressOf)
    modifies network
    ensures network.trace == old(network.trace) + sent
    ensures Collecting(FirstStrategies(WithToken(accepted, market.tokenAddresses)),
                       WithToken(accepted, market.tokenAddresses), sent, network.created, old(network.created),
                       network.addressOf, c, strategyAddresses, market)
  {
    c, strategyAddresses, sent := Collected([], [], [], [], map[], map[]), map[], [];
    ghost var start, base := network.trace, network.created;
    ghost var strategies, done: seq<Reserve> := [], [];
    for i := 0 to |accepted|
      invariant network.trace == start + sent
      invariant done == WithToken(accepted[..i], market.tokenAddresses) && strategies == FirstStrategies(done)
      invariant Collecting(strategies, done, sent, network.created, base, network.addressOf, c, strategyAddresses, market)
    {
      NextWithToken(accepted, i, market.tokenAddresses);
      if Get(market.tokenAddresses, accepted[i].0) == "" {
        continue;
      }
      c, strategyAddresses, strategies, sent :=
        CollectReserve(network, accepted[i], market, c, strategyAddresses, strategies, done, start, sent, base);
      done := done + [accepted[i]];
    }
    PrefixIsWhole(accepted);
  }

  /** The record built at position i, which reads the arrays by position and the records by symbol. */
  function RecordAt(c: Collected, i: nat, market: Market, impls: Implementations): InitInput
    requires i < |c.reserveSymbols| && i < |c.reserveInitDecimals| && i < |c.reserveTokens|
    requires c.reserveSymbols[i] in c.aTokenType && c.reserveSymbols[i] in c.strategyAddressPerAsset
  {
    var symbol := c.reserveSymbols[i];
    MakeInput(symbol, c.reserveInitDecimals[i], c.reserveTokens[i], c.strategyAddressPerAsset[symbol],
              if c.aTokenType[symbol] == Generic then impls.aToken else impls.collateral, market, impls)
  }

  /** Every reserve's strategy is cached, and its record is made of its own fields. */
  ghost predicate IsInput(p: InitInput, r: Reserve, strategyAddresses: map<string, string>, market: Market,
                          impls: Implementations) {
    r.1.strategy.name in strategyAddresses && p == InputOf(r, strategyAddresses[r.1.strategy.name], market, impls)
  }

  lemma RecordIsInput(c: Collected, i: nat, market: Market, impls: Implementations, retained: seq<Reserve>,
                      strategyAddresses: map<string, string>)
    requires Holds(c, retained, market.tokenAddresses, strategyAddresses) && i < |retained|
    ensures c.reserveSymbols[i] in c.aTokenType && c.reserveSymbols[i] in c.strategyAddressPerAsset
    ensures IsInput(RecordAt(c, i, market, impls), retained[i], strategyAddresses, market, impls)
  {
    assert HoldsAt(c, i, retained[i], market.tokenAddresses, strategyAddresses);
  }

  /** The loop over the collected symbols. */
  method BuildInitInputs(c: Collected, market: Market, impls: Implementations,
                         ghost retained: seq<Reserve>, ghost strategyAddresses: map<string, string>)
    returns (initInputParams: seq<InitInput>)
    requires Holds(c, retained, market.tokenAddresses, strategyAddresses)
    ensures |initInputParams| == |retained|
    ensures forall k | 0 <= k < |retained| :: IsInput(initInputParams[k], retained[k], strategyAddresses, market, impls)
  {
    initInputParams := [];
    for i := 0 to |c.reserveSymbols|
      invariant |initInputParams| == i
      invariant forall k | 0 <= k < i :: IsInput(initInputParams[k], retained[k], strategyAddresses, market, impls)
    {
      RecordIsInput(c, i, market, impls, retained, strategyAddresses);
      initInputParams := initInputParams + [RecordAt(c, i, market, impls)];
    }
  }

  function BatchTxs(batches: seq<seq<InitInput>>): seq<Tx> {
    Map(batches, (batch: seq<InitInput>) => BatchInitReserve(batch))
  }

  lemma BatchTxsSnoc(start: seq<Tx>, batches: seq<seq<InitInput>>, k: nat)
    requires k < |batches|
    ensures start + BatchTxs(batches)[..k] + [BatchInitReserve(batches[k])] == start + BatchTxs(batches)[..k + 1]
  {
  }

  /** The nested loops over the chunks. `aTokenOf` answers for `pool.getReserveData`. */
  method InitInChunks(network: Network, initInputParams: seq<InitInput>, emissionPerSeconds: seq<string>,
                      aTokenOf: string -> string)
    returns (tokensForIncentive: seq<string>, emissionsPerSecond: seq<string>)
    requires |initInputParams| == |emissionPerSeconds|
    modifies network`trace
    ensures network.trace == old(network.trace) + BatchTxs(Chunk(initInputParams, INIT_CHUNKS))
    ensures tokensForIncentive == Map(initInputParams, (p: InitInput) => aTokenOf(p.underlyingAsset))
    ensures emissionsPerSecond == emissionPerSeconds
  {
    tokensForIncentive, emissionsPerSecond := [], [];
    var chunks := Chunk(initInputParams, INIT_CHUNKS);
    ghost var start, all := network.trace, Map(initInputParams, (p: InitInput) => aTokenOf(p.underlyingAsset));
    NoChunks(initInputParams, INIT_CHUNKS);
    for chunkIndex := 0 to |chunks|
      invariant network.trace == start + BatchTxs(chunks)[..chunkIndex]
      invariant |tokensForIncentive| == |emissionsPerSecond| <= |initInputParams|
      invariant |tokensForIncentive| == if chunkIndex < |chunks| then chunkIndex * INIT_CHUNKS else |initInputParams|
      invariant tokensForIncentive == all[..|tokensForIncentive|]
      invariant emissionsPerSecond == emissionPerSeconds[..|tokensForIncentive|]
    {
      BatchTxsSnoc(start, chunks, chunkIndex);
      ChunkEnd(initInputParams, INIT_CHUNKS, chunkIndex);
      network.Send(BatchInitReserve(chunks[chunkIndex]));
      for tokenIndex := 0 to |chunks[chunkIndex]|
        invariant network.trace == start + BatchTxs(chunks)[..chunkIndex + 1]
        invariant |tokensForIncentive| == |emissionsPerSecond| == chunkIndex * INIT_CHUNKS + tokenIndex
        invariant |tokensForIncentive| <= |initInputParams|
        invariant tokensForIncentive == all[..|tokensForIncentive|]
        invariant emissionsPerSecond == emissionPerSeconds[..|tokensForIncentive|]
      {
        ChunkElement(initInputParams, INIT_CHUNKS, chunkIndex, tokenIndex);
        PrefixGrows(all, chunkIndex * INIT_CHUNKS + tokenIndex);
        PrefixGrows(emissionPerSeconds, chunkIndex * INIT_CHUNKS + tokenIndex);
        tokensForIncentive := tokensForIncentive + [aTokenOf(chunks[chunkIndex][tokenIndex].underlyingAsset)];
        emissionsPerSecond := emissionsPerSecond + [emissionPerSeconds[chunkIndex * INIT_CHUNKS + tokenIndex]];
      }
    }
    PrefixIsWhole(all);
    PrefixIsWhole(emissionPerSeconds);
    PrefixIsWhole(BatchTxs(chunks));
  }

  lemma {:induction false} AddStrategiesAreDistinct(before: seq<Strategy>, retained: seq<Reserve>)
    requires DistinctNames(before)
    ensures DistinctNames(AddStrategies(before, retained))
    decreases |retained|
  {
    if retained == [] {
    } else {
      AddStrategiesAreDistinct(AddStrategy(before, retained[0].1.strategy), retained[1..]);
    }
  }

  /** By name in the cache is by position among the first strategies. */
  lemma CacheIsStrategyAddress(retained: seq<Reserve>, addressOf: nat -> string, base: nat, name: string)
    requires name in CacheOf(FirstStrategies(retained), addressOf, base)
    ensures CacheOf(FirstStrategies(retained), addressOf, base)[name] == StrategyAddress(retained, addressOf, base, name)
  {
    var strategies := FirstStrategies(retained);
    AddStrategiesAreDistinct([], retained);
    CachedNames(strategies, addressOf, base, name);
    CachedAddress(strategies, addressOf, base, StrategyIndex(strategies, name));
  }

  lemma InputsAreInitInputs(retained: seq<Reserve>, inputs: seq<InitInput>, addressOf: nat -> string, base: nat,
                            market: Market, impls: Implementations, cache: map<string, string>)
    requires cache == CacheOf(FirstStrategies(retained), addressOf, base) && |inputs| == |retained|
    requires forall k | 0 <= k < |retained| :: IsInput(inputs[k], retained[k], cache, market, impls)
    ensures inputs == InitInputs(retained, addressOf, base, market, impls)
  {
    forall k | 0 <= k < |retained|
      ensures inputs[k]
              == InputOf(retained[k], StrategyAddress(retained, addressOf, base, retained[k].1.strategy.name), market, impls)
    {
      assert IsInput(inputs[k], retained[k], cache, market, impls);
      CacheIsStrategyAddress(retained, addressOf, base, retained[k].1.strategy.name);
    }
    SameInputs(retained, inputs, addressOf, base, market, impls);
  }

  lemma SameInputs(retained: seq<Reserve>, inputs: seq<InitInput>, addressOf: nat -> string, base: nat,
                   market: Market, impls: Implementations)
    requires |inputs| == |retained|
    requires forall k | 0 <= k < |retained| ::
               inputs[k] == InputOf(retained[k], StrategyAddress(retained, addressOf, base, retained[k].1.strategy.name),
                                    market, impls)
    ensures inputs == InitInputs(retained, addressOf, base, market, impls)
  {
  }

  lemma Emissions(c: Collected, retained: seq<Reserve>, market: Market, cache: map<string, string>)
    requires Holds(c, retained, market.tokenAddresses, cache)
    ensures c.emissionPerSeconds == Map(retained, (r: Reserve) => r.1.emissionPerSecond)
  {
  }

  lemma ATokens(retained: seq<Reserve>, inputs: seq<InitInput>, market: Market, aTokenOf: string -> string)
    requires |inputs| == |retained|
    requires forall k | 0 <= k < |retained| :: inputs[k].underlyingAsset == Get(market.tokenAddresses, retained[k].0)
    ensures Map(inputs, (p: InitInput) => aTokenOf(p.underlyingAsset))
            == Map(retained, (r: Reserve) => aTokenOf(Get(market.tokenAddresses, r.0)))
  {
  }

  const DEPLOY_IMPLEMENTATIONS := [DeployStableDebtToken, DeployVariableDebtToken, DeployATokenImpl, DeployCollateralATokenImpl]

  method DeployImplementations(network: Network) returns (impls: Implementations)
    modifies network
    ensures network.trace == old(network.trace) + DEPLOY_IMPLEMENTATIONS && network.created == old(network.created) + 4
    ensures impls == ImplementationsAt(network.addressOf, old(network.created))
  {
    var stableDebt := network.Deploy(DeployStableDebtToken);
    var variableDebt := network.Deploy(DeployVariableDebtToken);
    var aToken := network.Deploy(DeployATokenImpl);
    var collateral := network.Deploy(DeployCollateralATokenImpl);
    impls := Implementations(stableDebt, variableDebt, aToken, collateral);
  }

  function Incentives(retained: seq<Reserve>, market: Market, aTokenOf: string -> string): Tx {
    ConfigureAssets(Map(retained, (r: Reserve) => aTokenOf(Get(market.tokenAddresses, r.0))),
                    Map(retained, (r: Reserve) => r.1.emissionPerSecond))
  }

  /** The batches of all records, and the incentives. */
  function RecordTxs(retained: seq<Reserve>, market: Market, addressOf: nat -> string, base: nat, impls: Implementations,
                     aTokenOf: string -> string): seq<Tx>
  {
    BatchTxs(Chunk(InitInputs(retained, addressOf, base, market, impls), INIT_CHUNKS))
    + [Incentives(retained, market, aTokenOf)]
  }

  /** The second half of `initReservesByHelper`: the inputs, their batches, and the incentives. */
  method InitCollected(network: Network, c: Collected, market: Market, impls: Implementations,
                       aTokenOf: string -> string, ghost retained: seq<Reserve>, ghost base: nat,
                       ghost strategyAddresses: map<string, string>)
    requires Holds(c, retained, market.tokenAddresses, strategyAddresses)
    requires strategyAddresses == CacheOf(FirstStrategies(retained), network.addressOf, base)
    modifies network`trace
    ensures network.trace
            == old(network.trace) + RecordTxs(retained, market, network.addressOf, base, impls, aTokenOf)
  {
    var initInputParams := BuildInitInputs(c, market, impls, retained, strategyAddresses);
    InputsAreInitInputs(retained, initInputParams, network.addressOf, base, market, impls, strategyAddresses);
    Emissions(c, retained, market, strategyAddresses);
    ATokens(retained, initInputParams, market, aTokenOf);
    var tokensForIncentive, emissionsPerSecond :=
      InitInChunks(network, initInputParams, c.emissionPerSeconds, aTokenOf);
    JoinIncentives(old(network.trace), retained, market, network.addressOf, base, impls, aTokenOf);
    network.Send(ConfigureAssets(tokensForIncentive, emissionsPerSecond));
  }

  lemma JoinIncentives(before: seq<Tx>, retained: seq<Reserve>, market: Market, addressOf: nat -> string, base: nat,
                       impls: Implementations, aTokenOf: string -> string)
    ensures before + BatchTxs(Chunk(InitInputs(retained, addressOf, base, market, impls), INIT_CHUNKS))
            + [Incentives(retained, market, aTokenOf)]
            == before + RecordTxs(retained, market, addressOf, base, impls, aTokenOf)
  {
  }

  /** The first half: the accepted reserves, collected, and their strategies. */
  method CollectReserves(network: Network, reserves: Entries<ReserveParams>, market: Market)
    returns (c: Collected, strategyAddresses: map<string, string>)
    requires UniqueKeys(reserves) && GivesAddresses(network.addressOf)
    modifies network
    ensures network.trace == old(network.trace)
                             + DeployStrategies(FirstStrategies(Retained(reserves, market.tokenAddresses)), market.addressProvider)
    ensures Holds(c, Retained(reserves, market.tokenAddresses), market.tokenAddresses, strategyAddresses)
    ensures strategyAddresses == CacheOf(FirstStrategies(Retained(reserves, market.tokenAddresses)),
                                         network.addressOf, old(network.created))
  {
    var accepted := Filter(reserves, (r: Reserve) => Accepted(r));
    FilterKeepsKeysUnique(reserves, (r: Reserve) => Accepted(r));
    ghost var sent;
    c, strategyAddresses, sent := CollectAccepted(network, accepted, market);
  }

  /** `initReservesByHelper` up to the configuration of the incentives: the four implementations, a
      strategy for every name, the batches of all inputs, and the incentives. */
  method InitReserves(network: Network, reserves: Entries<ReserveParams>, market: Market, aTokenOf: string -> string)
    requires UniqueKeys(reserves) && GivesAddresses(network.addressOf)
    modifies network
    ensures var retained := Retained(reserves, market.tokenAddresses);
      network.trace
      == old(network.trace)
         + DEPLOY_IMPLEMENTATIONS
         + DeployStrategies(FirstStrategies(retained), market.addressProvider)
         + RecordTxs(retained, market, network.addressOf, old(network.created) + 4,
                     ImplementationsAt(network.addressOf, old(network.created)), aTokenOf)
  {
    ghost var created := network.created;
    var impls := DeployImplementations(network);
    var c, strategyAddresses := CollectReserves(network, reserves, market);
    InitCollected(network, c, market, impls, aTokenOf, Retained(reserves, market.tokenAddresses), created + 4,
                  strategyAddresses);
  }

  // ---------- what the transactions say ----------

  /** The reserve has one of the two implementations, and a token address is set for its symbol. */
  ghost predicate IsRetained(r: Reserve, tokens: Entries<string>) {
    && (r.1.aTokenImpl == "AToken" || r.1.aTokenImpl == "ATokenForCollateral")
    && exists address :: address != "" && Lists(tokens, r.0, address)
  }

  /** The retained reserves are, in order and once each, exactly those. */
  lemma RetainedInOrder(reserves: Entries<ReserveParams>, tokens: Entries<string>) returns (positions: seq<nat>)
    ensures |positions| == |Retained(reserves, tokens)| && Increasing(positions)
    ensures forall i: nat | i < |reserves| :: IsRetained(reserves[i], tokens) <==> i in positions
    ensures forall k | 0 <= k < |positions| ::
              positions[k] < |reserves| && Retained(reserves, tokens)[k] == reserves[positions[k]]
  {
    var keep := (r: Reserve) => Accepted(r) && Get(tokens, r.0) != "";
    FilterTwice(reserves, (r: Reserve) => Accepted(r), (r: Reserve) => Get(tokens, r.0) != "", keep);
    positions := FilterIsSubsequence(reserves, keep);
    forall i: nat | i < |reserves| ensures IsRetained(reserves[i], tokens) <==> keep(reserves[i]) {
      GetIsListed(tokens, reserves[i].0);
    }
  }

  lemma InputAt(retained: seq<Reserve>, addressOf: nat -> string, base: nat, market: Market, impls: Implementations,
                k: nat)
    requires k < |retained|
    ensures InitInputs(retained, addressOf, base, market, impls)[k]
            == InputOf(retained[k], StrategyAddress(retained, addressOf, base, retained[k].1.strategy.name), market, impls)
  {
  }

  lemma IncentiveAt(retained: seq<Reserve>, market: Market, aTokenOf: string -> string, k: nat)
    requires k < |retained|
    ensures var tx := Incentives(retained, market, aTokenOf);
      && |tx.assets| == |tx.emissions| == |retained|
      && tx.assets[k] == aTokenOf(Get(market.tokenAddresses, retained[k].0))
      && tx.emissions[k] == retained[k].1.emissionPerSecond
  {
  }

  /** The configured incentives pair the aToken of the k-th record with the emission of the k-th
      retained reserve, and chunkIndex * 4 + tokenIndex is that k for the record at tokenIndex of
      chunk chunkIndex. */
  lemma IncentivesFollowTheRecords(retained: seq<Reserve>, addressOf: nat -> string, base: nat, market: Market,
                                   impls: Implementations, aTokenOf: string -> string, chunkIndex: nat, tokenIndex: nat)
    requires chunkIndex < |Chunk(InitInputs(retained, addressOf, base, market, impls), INIT_CHUNKS)|
    requires tokenIndex < |Chunk(InitInputs(retained, addressOf, base, market, impls), INIT_CHUNKS)[chunkIndex]|
    ensures var p := Chunk(InitInputs(retained, addressOf, base, market, impls), INIT_CHUNKS)[chunkIndex][tokenIndex];
      var k, tx := chunkIndex * 4 + tokenIndex, Incentives(retained, market, aTokenOf);
      && |tx.assets| == |tx.emissions| == |retained|
      && k < |retained|
      && p.underlyingAssetName == retained[k].0
      && tx.assets[k] == aTokenOf(p.underlyingAsset)
      && tx.emissions[k] == retained[k].1.emissionPerSecond
  {
    var k := chunkIndex * INIT_CHUNKS + tokenIndex;
    ChunkElement(InitInputs(retained, addressOf, base, market, impls), INIT_CHUNKS, chunkIndex, tokenIndex);
    InputAt(retained, addressOf, base, market, impls, k);
    IncentiveAt(retained, market, aTokenOf, k);
  }

  lemma {:induction false} EveryNameHasItsFirstStrategy(before: seq<Strategy>, retained: seq<Reserve>)
    ensures forall k | 0 <= k < |before| :: HasStrategy(AddStrategies(before, retained), before[k].name)
    ensures forall r <- retained :: HasStrategy(AddStrategies(before, retained), r.1.strategy.name)
    decreases |retained|
  {
    if retained == [] {
    } else {
      var s := retained[0].1.strategy;
      var next := AddStrategy(before, s);
      EveryNameHasItsFirstStrategy(next, retained[1..]);
      assert HasStrategy(next, s.name) by { HasStrategySnoc(before, s, s.name); }
      var i :| 0 <= i < |next| && next[i].name == s.name;
      assert HasStrategy(AddStrategies(next, retained[1..]), next[i].name);
      forall k | 0 <= k < |before| ensures HasStrategy(AddStrategies(before, retained), before[k].name) {
        assert next[k] == before[k];
      }
    }
  }

  /** s is the strategy of the first reserve of its name. */
  ghost predicate IsFirstOfItsName(s: Strategy, retained: seq<Reserve>) {
    exists i | 0 <= i < |retained| ::
      retained[i].1.strategy == s && forall j | 0 <= j < i :: retained[j].1.strategy.name != s.name
  }

  lemma {:induction false} CreatedStrategiesAreFirst(before: seq<Strategy>, retained: seq<Reserve>, s: Strategy)
    requires s in AddStrategies(before, retained) && s !in before
    ensures !HasStrategy(before, s.name) && IsFirstOfItsName(s, retained)
    decreases |retained|
  {
    var first := retained[0].1.strategy;
    var next := AddStrategy(before, first);
    HasStrategySnoc(before, first, s.name);
    if s in next {
      assert s == first && retained[0].1.strategy == s;
    } else {
      CreatedStrategiesAreFirst(next, retained[1..], s);
      var i :| 0 <= i < |retained[1..]| && retained[1..][i].1.strategy == s
               && forall j | 0 <= j < i :: retained[1..][j].1.strategy.name != s.name;
      assert first.name != s.name;
      assert retained[i + 1].1.strategy == s;
      forall j | 0 <= j < i + 1 ensures retained[j].1.strategy.name != s.name {
        if j > 0 { assert retained[j] == retained[1..][j - 1]; }
      }
    }
  }

  /** Exactly one strategy is created for every name among the retained reserves, with the
      parameters of the first reserve of that name. */
  lemma OneStrategyPerName(retained: seq<Reserve>)
    ensures DistinctNames(FirstStrategies(retained))
    ensures forall r <- retained :: HasStrategy(FirstStrategies(retained), r.1.strategy.name)
    ensures forall s <- FirstStrategies(retained) :: IsFirstOfItsName(s, retained)
  {
    AddStrategiesAreDistinct([], retained);
    EveryNameHasItsFirstStrategy([], retained);
    forall s | s in FirstStrategies(retained) ensures IsFirstOfItsName(s, retained) {
      CreatedStrategiesAreFirst([], retained, s);
    }
  }

  /** The transaction creates a strategy with the eight parameters of s in the order of the contract. */
  predicate CreatesStrategy(tx: Tx, addressProvider: string, s: Strategy) {
    && tx.DeployStrategy? && |tx.args| == 8
    && tx.args[0] == addressProvider
    && tx.args[1] == s.optimalUtilizationRate
    && tx.args[2] == s.baseVariableBorrowRate
    && tx.args[3] == s.variableRateSlope1
    && tx.args[4] == s.variableRateSlope2
    && tx.args[5] == s.stableRateSlope1
    && tx.args[6] == s.stableRateSlope2
    && tx.args[7] == s.capacity
  }

  lemma StrategiesHaveTheirParameters(strategies: seq<Strategy>, addressProvider: string, k: nat)
    requires k < |strategies|
    ensures CreatesStrategy(DeployStrategies(strategies, addressProvider)[k], addressProvider, strategies[k])
  {
  }

  /** The strategy address of a retained reserve is where the strategy of that name was created. */
  lemma StrategyAddressIsItsCreation(retained: seq<Reserve>, addressOf: nat -> string, base: nat, market: Market,
                                     r: Reserve)
    requires r in retained
    ensures exists k | 0 <= k < |FirstStrategies(retained)| ::
              && FirstStrategies(retained)[k].name == r.1.strategy.name
              && CreatesStrategy(DeployStrategies(FirstStrategies(retained), market.addressProvider)[k],
                                 market.addressProvider, FirstStrategies(retained)[k])
              && StrategyAddress(retained, addressOf, base, r.1.strategy.name) == addressOf(base + k)
  {
    OneStrategyPerName(retained);
    var k := StrategyIndex(FirstStrategies(retained), r.1.strategy.name);
    StrategiesHaveTheirParameters(FirstStrategies(retained), market.addressProvider, k);
    assert FirstStrategies(retained)[k].name == r.1.strategy.name;
  }

  /** Reserves share a strategy address exactly when their strategies have one name, provided no
      two creations share an address. */
  lemma SameNameSameAddress(retained: seq<Reserve>, addressOf: nat -> string, base: nat, q: Reserve, r: Reserve)
    requires q in retained && r in retained
    requires forall m: nat, n: nat | m != n :: addressOf(m) != addressOf(n)
    ensures StrategyAddress(retained, addressOf, base, q.1.strategy.name)
            == StrategyAddress(retained, addressOf, base, r.1.strategy.name)
            <==> q.1.strategy.name == r.1.strategy.name
  {
    OneStrategyPerName(retained);
  }
}

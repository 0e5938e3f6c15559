/** What the transactions of an initialisation say about each other: the addresses in the records are
    those of the contracts that the same run created. */
module ReserveTrace {
  import opened Collections
  import opened ReserveInitialisation

  /** What the initialisation sends when its first creation is number `created`. */
  function InitTxs(reserves: Entries<ReserveParams>, market: Market, addressOf: nat -> string, created: nat,
                   aTokenOf: string -> string): seq<Tx>
  {
    var retained := Retained(reserves, market.tokenAddresses);
    var impls := ImplementationsAt(addressOf, created);
    DEPLOY_IMPLEMENTATIONS
    + DeployStrategies(FirstStrategies(retained), market.addressProvider)
    + RecordTxs(retained, market, addressOf, created + 4, impls, aTokenOf)
  }

  /** That is what `InitReserves` appends to the trace. */
  lemma SentIsInitTxs(after: seq<Tx>, before: seq<Tx>, reserves: Entries<ReserveParams>, market: Market,
                      addressOf: nat -> string, created: nat, aTokenOf: string -> string)
    requires var retained := Retained(reserves, market.tokenAddresses);
      after == before + DEPLOY_IMPLEMENTATIONS
               + DeployStrategies(FirstStrategies(retained), market.addressProvider)
               + RecordTxs(retained, market, addressOf, created + 4, ImplementationsAt(addressOf, created), aTokenOf)
    ensures after == before + InitTxs(reserves, market, addressOf, created, aTokenOf)
  {
    var retained := Retained(reserves, market.tokenAddresses);
    Join(before, DEPLOY_IMPLEMENTATIONS, DeployStrategies(FirstStrategies(retained), market.addressProvider),
         RecordTxs(retained, market, addressOf, created + 4, ImplementationsAt(addressOf, created), aTokenOf));
  }

  lemma Join(a: seq<Tx>, b: seq<Tx>, c: seq<Tx>, d: seq<Tx>)
    ensures a + b + c + d == a + (b + c + d)
  {
  }

  /** The transaction creates a contract. */
  predicate Creates(tx: Tx) {
    !tx.BatchInitReserve? && !tx.ConfigureAssets?
  }

  function Creations(txs: seq<Tx>): seq<Tx> {
    Filter(txs, (tx: Tx) => Creates(tx))
  }

  /** The records of all batches, in the order in which they are sent. */
  function Records(txs: seq<Tx>): seq<InitInput> {
    if txs == [] then []
    else (if txs[0].BatchInitReserve? then txs[0].inputs else []) + Records(txs[1..])
  }

  lemma {:induction false} CreationsConcat(some: seq<Tx>, more: seq<Tx>)
    ensures Creations(some + more) == Creations(some) + Creations(more)
  {
    if some == [] {
      assert some + more == more;
    } else {
      assert (some + more)[1..] == some[1..] + more;
      CreationsConcat(some[1..], more);
    }
  }

  lemma {:induction false} RecordsConcat(some: seq<Tx>, more: seq<Tx>)
    ensures Records(some + more) == Records(some) + Records(more)
  {
    if some == [] {
      assert some + more == more;
    } else {
      assert (some + more)[1..] == some[1..] + more;
      RecordsConcat(some[1..], more);
    }
  }

  lemma {:induction false} OnlyCreations(txs: seq<Tx>)
    requires forall tx <- txs :: Creates(tx)
    ensures Creations(txs) == txs && Records(txs) == []
  {
    if txs == [] {
    } else {
      OnlyCreations(txs[1..]);
    }
  }

  lemma {:induction false} OnlyBatches(batches: seq<seq<InitInput>>)
    ensures Creations(BatchTxs(batches)) == [] && Records(BatchTxs(batches)) == Concat(batches)
  {
    if batches == [] {
    } else {
      assert BatchTxs(batches)[0] == BatchInitReserve(batches[0]);
      assert BatchTxs(batches)[1..] == BatchTxs(batches[1..]);
      OnlyBatches(batches[1..]);
    }
  }

  lemma OnlyStrategies(strategies: seq<Strategy>, addressProvider: string)
    ensures Creations(DeployStrategies(strategies, addressProvider)) == DeployStrategies(strategies, addressProvider)
    ensures Records(DeployStrategies(strategies, addressProvider)) == []
    ensures forall tx <- DeployStrategies(strategies, addressProvider) :: Creates(tx)
  {
    var txs := DeployStrategies(strategies, addressProvider);
    forall tx | tx in txs ensures Creates(tx) {
      var k :| 0 <= k < |txs| && txs[k] == tx;
    }
    OnlyCreations(txs);
  }

  /** The contracts a run creates, and the records it sends. */
  lemma RunConsistsOf(reserves: Entries<ReserveParams>, market: Market, addressOf: nat -> string, created: nat,
                      aTokenOf: string -> string)
    ensures var txs := InitTxs(reserves, market, addressOf, created, aTokenOf);
      var retained := Retained(reserves, market.tokenAddresses);
      && Creations(txs) == DEPLOY_IMPLEMENTATIONS + DeployStrategies(FirstStrategies(retained), market.addressProvider)
      && Records(txs) == InitInputs(retained, addressOf, created + 4, market, ImplementationsAt(addressOf, created))
  {
    var retained := Retained(reserves, market.tokenAddresses);
    PartsConsistOf(FirstStrategies(retained), market.addressProvider,
                   InitInputs(retained, addressOf, created + 4, market, ImplementationsAt(addressOf, created)),
                   Incentives(retained, market, aTokenOf));
  }

  lemma PartsConsistOf(strategies: seq<Strategy>, addressProvider: string, inputs: seq<InitInput>, last: Tx)
    requires last.ConfigureAssets?
    ensures var txs := DEPLOY_IMPLEMENTATIONS + DeployStrategies(strategies, addressProvider)
                       + (BatchTxs(Chunk(inputs, INIT_CHUNKS)) + [last]);
      && Creations(txs) == DEPLOY_IMPLEMENTATIONS + DeployStrategies(strategies, addressProvider)
      && Records(txs) == inputs
  {
    PartsOf(DEPLOY_IMPLEMENTATIONS, DeployStrategies(strategies, addressProvider),
            BatchTxs(Chunk(inputs, INIT_CHUNKS)), [last]);
    OnlyCreations(DEPLOY_IMPLEMENTATIONS);
    OnlyStrategies(strategies, addressProvider);
    OnlyBatches(Chunk(inputs, INIT_CHUNKS));
    ChunkIsPartition(inputs, INIT_CHUNKS);
    LastIsNeither(last);
  }

  lemma LastIsNeither(tx: Tx)
    requires tx.ConfigureAssets?
    ensures Creations([tx]) == [] && Records([tx]) == []
  {
    assert [tx][1..] == [];
    assert Creations([tx][1..]) == [];
  }

  lemma PartsOf(a: seq<Tx>, b: seq<Tx>, c: seq<Tx>, d: seq<Tx>)
    ensures Creations(a + b + (c + d)) == Creations(a) + Creations(b) + (Creations(c) + Creations(d))
    ensures Records(a + b + (c + d)) == Records(a) + Records(b) + (Records(c) + Records(d))
  {
    CreationsConcat(a + b, c + d);
    CreationsConcat(c, d);
    CreationsConcat(a, b);
    RecordsConcat(a + b, c + d);
    RecordsConcat(c, d);
    RecordsConcat(a, b);
  }

  /** Creation number i of the run is tx, and its contract has this address. */
  predicate CreatedAt(txs: seq<Tx>, i: nat, tx: Tx, addressOf: nat -> string, created: nat, address: string) {
    i < |Creations(txs)| && Creations(txs)[i] == tx && addressOf(created + i) == address
  }

  /** The creation of the aToken implementation a reserve asks for. */
  function ATokenCreation(r: Reserve): Tx {
    if r.1.aTokenImpl == "AToken" then DeployATokenImpl else DeployCollateralATokenImpl
  }

  /** A creation with the parameters of s, and with this address. */
  predicate StrategyCreatedAt(txs: seq<Tx>, i: nat, addressProvider: string, s: Strategy, addressOf: nat -> string,
                              created: nat, address: string) {
    && i < |Creations(txs)|
    && CreatesStrategy(Creations(txs)[i], addressProvider, s)
    && addressOf(created + i) == address
  }

  /** Each of the four contracts a record names was created by the run: the three implementations,
      the aToken being of the kind its reserve asks for, and a strategy with the parameters of the
      first retained reserve whose strategy has the same name. */
  ghost predicate NamesItsCreations(txs: seq<Tx>, p: InitInput, r: Reserve, retained: seq<Reserve>, market: Market,
                                    addressOf: nat -> string, created: nat) {
    && (exists i: nat :: CreatedAt(txs, i, DeployStableDebtToken, addressOf, created, p.stableDebtTokenImpl))
    && (exists i: nat :: CreatedAt(txs, i, DeployVariableDebtToken, addressOf, created, p.variableDebtTokenImpl))
    && (exists i: nat :: CreatedAt(txs, i, ATokenCreation(r), addressOf, created, p.aTokenImpl))
    && (exists i: nat, s: Strategy ::
          && s.name == r.1.strategy.name && IsFirstOfItsName(s, retained)
          && StrategyCreatedAt(txs, i, market.addressProvider, s, addressOf, created, p.interestRateStrategyAddress))
  }

  lemma ImplementationsAreCreations(txs: seq<Tx>, strategies: seq<Tx>, addressOf: nat -> string, created: nat)
    requires Creations(txs) == DEPLOY_IMPLEMENTATIONS + strategies
    ensures var impls := ImplementationsAt(addressOf, created);
      && CreatedAt(txs, 0, DeployStableDebtToken, addressOf, created, impls.stableDebt)
      && CreatedAt(txs, 1, DeployVariableDebtToken, addressOf, created, impls.variableDebt)
      && CreatedAt(txs, 2, DeployATokenImpl, addressOf, created, impls.aToken)
      && CreatedAt(txs, 3, DeployCollateralATokenImpl, addressOf, created, impls.collateral)
  {
  }

  lemma StrategyIsCreation(txs: seq<Tx>, retained: seq<Reserve>, market: Market, addressOf: nat -> string, created: nat,
                           r: Reserve) returns (i: nat, s: Strategy)
    requires Creations(txs) == DEPLOY_IMPLEMENTATIONS + DeployStrategies(FirstStrategies(retained), market.addressProvider)
    requires r in retained
    ensures s.name == r.1.strategy.name && IsFirstOfItsName(s, retained)
    ensures StrategyCreatedAt(txs, i, market.addressProvider, s, addressOf, created,
                              StrategyAddress(retained, addressOf, created + 4, r.1.strategy.name))
  {
    OneStrategyPerName(retained);
    var k := StrategyIndex(FirstStrategies(retained), r.1.strategy.name);
    i, s := k + 4, FirstStrategies(retained)[k];
    StrategiesHaveTheirParameters(FirstStrategies(retained), market.addressProvider, k);
    assert Creations(txs)[i] == DeployStrategies(FirstStrategies(retained), market.addressProvider)[k];
  }

  /** The run sends one record for each retained reserve, in order, and every address of a contract
      in it is where the run created the contract that belongs there. */
  lemma RecordsNameTheirCreations(reserves: Entries<ReserveParams>, market: Market, addressOf: nat -> string,
                                  created: nat, aTokenOf: string -> string)
    ensures var txs := InitTxs(reserves, market, addressOf, created, aTokenOf);
      var retained := Retained(reserves, market.tokenAddresses);
      && |Records(txs)| == |retained|
      && (forall k | 0 <= k < |retained| ::
            NamesItsCreations(txs, Records(txs)[k], retained[k], retained, market, addressOf, created))
  {
    var txs := InitTxs(reserves, market, addressOf, created, aTokenOf);
    var retained := Retained(reserves, market.tokenAddresses);
    RunConsistsOf(reserves, market, addressOf, created, aTokenOf);
    forall k | 0 <= k < |retained|
      ensures NamesItsCreations(txs, Records(txs)[k], retained[k], retained, market, addressOf, created)
    {
      RecordNamesItsCreations(txs, retained, market, addressOf, created, k);
    }
  }

  lemma RecordNamesItsCreations(txs: seq<Tx>, retained: seq<Reserve>, market: Market, addressOf: nat -> string,
                                created: nat, k: nat)
    requires k < |retained|
    requires Creations(txs) == DEPLOY_IMPLEMENTATIONS + DeployStrategies(FirstStrategies(retained), market.addressProvider)
    requires Records(txs) == InitInputs(retained, addressOf, created + 4, market, ImplementationsAt(addressOf, created))
    ensures NamesItsCreations(txs, Records(txs)[k], retained[k], retained, market, addressOf, created)
  {
    var r, base, impls := retained[k], created + 4, ImplementationsAt(addressOf, created);
    ImplementationsAreCreations(txs, DeployStrategies(FirstStrategies(retained), market.addressProvider), addressOf, created);
    InputAt(retained, addressOf, base, market, impls, k);
    var i, s := StrategyIsCreation(txs, retained, market, addressOf, created, r);
    InputNames(Records(txs)[k], r, StrategyAddress(retained, addressOf, base, r.1.strategy.name), market, impls);
    assert CreatedAt(txs, if r.1.aTokenImpl == "AToken" then 2 else 3, ATokenCreation(r), addressOf, created,
                     Records(txs)[k].aTokenImpl);
  }

  lemma InputNames(p: InitInput, r: Reserve, strategyAddress: string, market: Market, impls: Implementations)
    requires p == InputOf(r, strategyAddress, market, impls)
    ensures p.stableDebtTokenImpl == impls.stableDebt && p.variableDebtTokenImpl == impls.variableDebt
    ensures p.aTokenImpl == if r.1.aTokenImpl == "AToken" then impls.aToken else impls.collateral
    ensures p.interestRateStrategyAddress == strategyAddress
  {
  }

  /** The record has the fields of the reserve, the addresses listed under its symbol, and the zero
      address where no yield address is. */
  ghost predicate CarriesFields(p: InitInput, r: Reserve, market: Market) {
    && p.underlyingAssetName == r.0
    && p.underlyingAsset != "" && Lists(market.tokenAddresses, r.0, p.underlyingAsset)
    && p.underlyingAssetDecimals == r.1.reserveDecimals
    && HasYieldAddress(p, r, market)
    && p.treasury == market.treasury && p.incentivesController == market.incentives
    && HasTokenNames(p, r, market)
    && p.params == "0x10"
  }

  ghost predicate HasYieldAddress(p: InitInput, r: Reserve, market: Market) {
    if exists address :: address != "" && Lists(market.yieldAddresses, r.0, address)
    then p.yieldAddress != "" && Lists(market.yieldAddresses, r.0, p.yieldAddress)
    else p.yieldAddress == ZERO_ADDRESS
  }

  predicate HasTokenNames(p: InitInput, r: Reserve, market: Market) {
    && p.aTokenName == market.aTokenNamePrefix + " " + r.0
    && p.aTokenSymbol == "s" + market.symbolPrefix + r.0
    && p.variableDebtTokenName == market.variableDebtTokenNamePrefix + " " + market.symbolPrefix + r.0
    && p.variableDebtTokenSymbol == "variableDebt" + market.symbolPrefix + r.0
    && p.stableDebtTokenName == market.stableDebtTokenNamePrefix + " " + r.0
    && p.stableDebtTokenSymbol == "stableDebt" + market.symbolPrefix + r.0
  }

  lemma InputCarriesFields(r: Reserve, strategyAddress: string, market: Market, impls: Implementations)
    requires Get(market.tokenAddresses, r.0) != ""
    ensures CarriesFields(InputOf(r, strategyAddress, market, impls), r, market)
  {
    GetIsListed(market.tokenAddresses, r.0);
    GetIsListed(market.yieldAddresses, r.0);
  }

  /** The run sends one record for each reserve with an accepted implementation and a token address, in
      the order of the configuration and once each, at most four at a time; and each record carries
      the fields of its reserve. */
  lemma RecordsListEveryReserve(reserves: Entries<ReserveParams>, market: Market, addressOf: nat -> string,
                                created: nat, aTokenOf: string -> string)
    returns (positions: seq<nat>)
    ensures var txs := InitTxs(reserves, market, addressOf, created, aTokenOf);
      && |positions| == |Records(txs)| && Increasing(positions)
      && (forall i: nat | i < |reserves| :: IsRetained(reserves[i], market.tokenAddresses) <==> i in positions)
      && (forall k | 0 <= k < |positions| ::
            positions[k] < |reserves| && CarriesFields(Records(txs)[k], reserves[positions[k]], market))
      && (forall tx <- txs | tx.BatchInitReserve? :: 1 <= |tx.inputs| <= 4)
  {
    var retained := Retained(reserves, market.tokenAddresses);
    var impls := ImplementationsAt(addressOf, created);
    RunConsistsOf(reserves, market, addressOf, created, aTokenOf);
    positions := RetainedInOrder(reserves, market.tokenAddresses);
    forall k | 0 <= k < |positions|
      ensures CarriesFields(Records(InitTxs(reserves, market, addressOf, created, aTokenOf))[k], reserves[positions[k]],
                            market)
    {
      InputAt(retained, addressOf, created + 4, market, impls, k);
      assert positions[k] in positions;
      GetIsListed(market.tokenAddresses, retained[k].0);
      InputCarriesFields(retained[k], StrategyAddress(retained, addressOf, created + 4, retained[k].1.strategy.name),
                         market, impls);
    }
    BatchesOfRun(reserves, market, addressOf, created, aTokenOf);
  }

  lemma BatchesOfRun(reserves: Entries<ReserveParams>, market: Market, addressOf: nat -> string, created: nat,
                     aTokenOf: string -> string)
    ensures forall tx <- InitTxs(reserves, market, addressOf, created, aTokenOf) | tx.BatchInitReserve? ::
              1 <= |tx.inputs| <= 4
  {
    var retained := Retained(reserves, market.tokenAddresses);
    var inputs := InitInputs(retained, addressOf, created + 4, market, ImplementationsAt(addressOf, created));
    var strategies := DeployStrategies(FirstStrategies(retained), market.addressProvider);
    ChunkIsPartition(inputs, INIT_CHUNKS);
    forall tx | tx in InitTxs(reserves, market, addressOf, created, aTokenOf) && tx.BatchInitReserve?
      ensures 1 <= |tx.inputs| <= 4
    {
      assert tx !in strategies by { OnlyStrategies(FirstStrategies(retained), market.addressProvider); }
      assert tx in BatchTxs(Chunk(inputs, INIT_CHUNKS));
    }
  }

  /** No two records of a run have one symbol. */
  lemma RecordsHaveDistinctSymbols(reserves: Entries<ReserveParams>, market: Market, addressOf: nat -> string,
                                   created: nat, aTokenOf: string -> string, j: nat, k: nat)
    requires UniqueKeys(reserves)
    requires j < k < |Records(InitTxs(reserves, market, addressOf, created, aTokenOf))|
    ensures var records := Records(InitTxs(reserves, market, addressOf, created, aTokenOf));
      records[j].underlyingAssetName != records[k].underlyingAssetName
  {
    var positions := RecordsListEveryReserve(reserves, market, addressOf, created, aTokenOf);
  }

  /** The last transaction configures, at the position of each record, the aToken of the record's asset
      with the emission of its reserve. */
  lemma IncentivesMatchTheRecords(reserves: Entries<ReserveParams>, market: Market, addressOf: nat -> string,
                                  created: nat, aTokenOf: string -> string)
    ensures var txs := InitTxs(reserves, market, addressOf, created, aTokenOf);
      var retained, last := Retained(reserves, market.tokenAddresses), txs[|txs| - 1];
      && last.ConfigureAssets? && |last.assets| == |last.emissions| == |Records(txs)| == |retained|
      && (forall k | 0 <= k < |retained| ::
            && last.assets[k] == aTokenOf(Records(txs)[k].underlyingAsset)
            && last.emissions[k] == retained[k].1.emissionPerSecond)
  {
    var retained := Retained(reserves, market.tokenAddresses);
    var impls := ImplementationsAt(addressOf, created);
    RunConsistsOf(reserves, market, addressOf, created, aTokenOf);
    forall k: nat | k < |retained|
      ensures aTokenOf(Get(market.tokenAddresses, retained[k].0))
              == aTokenOf(InitInputs(retained, addressOf, created + 4, market, impls)[k].underlyingAsset)
    {
      InputAt(retained, addressOf, created + 4, market, impls, k);
    }
  }

  /** Every contract is created before the first batch. */
  lemma ContractsComeBeforeRecords(reserves: Entries<ReserveParams>, market: Market, addressOf: nat -> string,
                                   created: nat, aTokenOf: string -> string)
    ensures var txs := InitTxs(reserves, market, addressOf, created, aTokenOf);
      forall i, j | 0 <= i < j < |txs| && txs[i].BatchInitReserve? :: !Creates(txs[j])
  {
    var retained := Retained(reserves, market.tokenAddresses);
    var impls := ImplementationsAt(addressOf, created);
    OnlyStrategies(FirstStrategies(retained), market.addressProvider);
    CreationsComeFirst(DEPLOY_IMPLEMENTATIONS + DeployStrategies(FirstStrategies(retained), market.addressProvider),
                       RecordTxs(retained, market, addressOf, created + 4, impls, aTokenOf));
  }

  lemma CreationsComeFirst(creations: seq<Tx>, others: seq<Tx>)
    requires (forall tx <- creations :: Creates(tx)) && forall tx <- others :: !Creates(tx)
    ensures var txs := creations + others;
      forall i, j | 0 <= i < j < |txs| && txs[i].BatchInitReserve? :: !Creates(txs[j])
  {
    var txs := creations + others;
    forall i | 0 <= i < |creations| ensures Creates(txs[i]) {
      assert txs[i] in creations;
    }
    forall i | |creations| <= i < |txs| ensures !Creates(txs[i]) {
      assert txs[i] in others;
    }
  }
}

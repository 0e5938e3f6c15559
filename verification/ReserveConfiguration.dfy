/** Configuring reserves as collateral, in chunks, while the helper is pool administrator. */
module ReserveConfiguration {
  import opened Collections
  import opened Handover

  datatype CollateralParams = CollateralParams(
    baseLTVAsCollateral: string,
    liquidationThreshold: string,
    liquidationBonus: string,
    reserveFactor: string,
    stableBorrowRateEnabled: bool,
    borrowingEnabled: bool,
    collateralEnabled: bool
  )

  datatype ReserveInput = ReserveInput(
    asset: string,
    baseLTV: string,
    liquidationThreshold: string,
    liquidationBonus: string,
    reserveFactor: string,
    stableBorrowingEnabled: bool,
    borrowingEnabled: bool,
    collateralEnabled: bool
  )

  const ENABLE_CHUNKS := 20

  /** The asset has an address and a loan-to-value, and is not usable as collateral yet. */
  predicate Eligible(reserve: (string, CollateralParams), tokens: Entries<string>, alreadyEnabled: string -> bool) {
    && Get(tokens, reserve.0) != ""
    && reserve.1.baseLTVAsCollateral != "-1"
    && !alreadyEnabled(Get(tokens, reserve.0))
  }

  function InputOf(reserve: (string, CollateralParams), tokens: Entries<string>): ReserveInput {
    var p := reserve.1;
    ReserveInput(Get(tokens, reserve.0), p.baseLTVAsCollateral, p.liquidationThreshold, p.liquidationBonus,
                 p.reserveFactor, p.stableBorrowRateEnabled, p.borrowingEnabled, p.collateralEnabled)
  }

  /** What is to be configured, in the order of the configuration. */
  function Inputs(reserves: Entries<CollateralParams>, tokens: Entries<string>, alreadyEnabled: string -> bool)
    : seq<ReserveInput>
  {
    Map(Filter(reserves, (r: (string, CollateralParams)) => Eligible(r, tokens, alreadyEnabled)),
        (r: (string, CollateralParams)) => InputOf(r, tokens))
  }

  /** The transactions of a completed run. */
  function Transactions(inputs: seq<ReserveInput>, helper: string, admin: string): seq<Tx<seq<ReserveInput>>> {
    if inputs == [] then [] else HandedOver(helper, admin, Chunk(inputs, ENABLE_CHUNKS))
  }

  lemma InputsSnoc(reserves: Entries<CollateralParams>, r: (string, CollateralParams), tokens: Entries<string>,
                   alreadyEnabled: string -> bool)
    ensures Inputs(reserves + [r], tokens, alreadyEnabled)
            == Inputs(reserves, tokens, alreadyEnabled)
               + if Eligible(r, tokens, alreadyEnabled) then [InputOf(r, tokens)] else []
  {
    FilterSnoc(reserves, r, (r: (string, CollateralParams)) => Eligible(r, tokens, alreadyEnabled));
  }

  /** The first loop of `configureReservesByHelper`; `alreadyEnabled` answers for the data provider. */
  method CollectInputs(reserves: Entries<CollateralParams>, tokenAddresses: Entries<string>,
                       alreadyEnabled: string -> bool)
    returns (inputParams: seq<ReserveInput>)
    ensures inputParams == Inputs(reserves, tokenAddresses, alreadyEnabled)
  {
    inputParams := [];
    for i := 0 to |reserves|
      invariant inputParams == Inputs(reserves[..i], tokenAddresses, alreadyEnabled)
    {
      var assetSymbol, params := reserves[i].0, reserves[i].1;
      assert reserves[..i + 1] == reserves[..i] + [reserves[i]];
      InputsSnoc(reserves[..i], reserves[i], tokenAddresses, alreadyEnabled);
      if Get(tokenAddresses, assetSymbol) == "" {
        continue;
      }
      if params.baseLTVAsCollateral == "-1" {
        continue;
      }
      var assetAddressIndex := FindIndex(tokenAddresses, assetSymbol);
      var tokenAddress := tokenAddresses[assetAddressIndex].1;
      if alreadyEnabled(tokenAddress) {
        continue;
      }
      inputParams := inputParams + [ReserveInput(
        tokenAddress, params.baseLTVAsCollateral, params.liquidationThreshold, params.liquidationBonus,
        params.reserveFactor, params.stableBorrowRateEnabled, params.borrowingEnabled, params.collateralEnabled)];
    }
    assert reserves[..|reserves|] == reserves;
  }

  /** `configureReservesByHelper`. */
  method ConfigureReserves(addressProvider: OwnedContract<seq<ReserveInput>>,
                           reserves: Entries<CollateralParams>, tokenAddresses: Entries<string>,
                           alreadyEnabled: string -> bool, helper: string, admin: string)
    modifies addressProvider
    ensures var inputs := Inputs(reserves, tokenAddresses, alreadyEnabled);
      && addressProvider.trace == old(addressProvider.trace) + Transactions(inputs, helper, admin)
      && addressProvider.owner == if inputs == [] then old(addressProvider.owner) else admin
  {
    var inputParams := CollectInputs(reserves, tokenAddresses, alreadyEnabled);
    if |inputParams| > 0 {
      SendUnderHelper(addressProvider, helper, admin, Chunk(inputParams, ENABLE_CHUNKS));
    }
  }

  /** The batches of the transactions. */
  function Batches<T>(trace: seq<Tx<T>>): seq<T> {
    if trace == [] then []
    else (if trace[0].Work? then [trace[0].batch] else []) + Batches(trace[1..])
  }

  lemma {:induction false} BatchesOfWorks<T>(batches: seq<T>, last: Tx<T>)
    requires last.HandTo?
    ensures Batches(Works(batches) + [last]) == batches
  {
    var trace := Works(batches) + [last];
    if batches == [] {
      assert trace == [last] && trace[1..] == [];
    } else {
      assert trace[1..] == Works(batches[1..]) + [last];
      BatchesOfWorks(batches[1..], last);
    }
  }

  lemma BatchesOfHandover<T>(helper: string, admin: string, batches: seq<T>)
    ensures Batches(HandedOver(helper, admin, batches)) == batches
  {
    var trace := HandedOver(helper, admin, batches);
    assert trace[1..] == Works(batches) + [HandTo(admin)];
    BatchesOfWorks(batches, HandTo(admin));
  }

  /** A token address is listed for the symbol, a loan-to-value is set, and the provider does not
      report the asset as collateral yet. */
  ghost predicate ToBeConfigured(reserve: (string, CollateralParams), tokens: Entries<string>,
                                 alreadyEnabled: string -> bool) {
    exists address :: address != "" && Lists(tokens, reserve.0, address)
                      && reserve.1.baseLTVAsCollateral != "-1" && !alreadyEnabled(address)
  }

  /** The input names the address listed under the symbol and carries each field of the reserve. */
  ghost predicate Configures(p: ReserveInput, reserve: (string, CollateralParams), tokens: Entries<string>) {
    && p.asset != "" && Lists(tokens, reserve.0, p.asset)
    && p.baseLTV == reserve.1.baseLTVAsCollateral
    && p.liquidationThreshold == reserve.1.liquidationThreshold
    && p.liquidationBonus == reserve.1.liquidationBonus
    && p.reserveFactor == reserve.1.reserveFactor
    && p.stableBorrowingEnabled == reserve.1.stableBorrowRateEnabled
    && p.borrowingEnabled == reserve.1.borrowingEnabled
    && p.collateralEnabled == reserve.1.collateralEnabled
  }

  lemma EligibleIsToBeConfigured(reserve: (string, CollateralParams), tokens: Entries<string>,
                                 alreadyEnabled: string -> bool)
    ensures Eligible(reserve, tokens, alreadyEnabled) <==> ToBeConfigured(reserve, tokens, alreadyEnabled)
    ensures Eligible(reserve, tokens, alreadyEnabled) ==> Configures(InputOf(reserve, tokens), reserve, tokens)
  {
    GetIsListed(tokens, reserve.0);
  }

  /** Over every run: the sent batches together configure each eligible reserve once and in order,
      with its own fields, at most 20 at a time; each batch is sent while the helper is pool
      administrator; and the final administrator is `admin`, unless nothing was sent. */
  lemma EveryEligibleReserveOnce(reserves: Entries<CollateralParams>, tokens: Entries<string>,
                                 alreadyEnabled: string -> bool, initial: string, helper: string, admin: string)
    returns (positions: seq<nat>)
    ensures var trace := Transactions(Inputs(reserves, tokens, alreadyEnabled), helper, admin);
      var sent := Concat(Batches(trace));
      && (forall batch <- Batches(trace) :: 1 <= |batch| <= 20)
      && (forall k | 0 <= k < |trace| && trace[k].Work? :: OwnerAfter(initial, trace[..k]) == helper)
      && OwnerAfter(initial, trace) == (if sent == [] then initial else admin)
      && (sent == [] ==> trace == [])
      && |positions| == |sent| && Increasing(positions)
      && (forall i: nat | i < |reserves| :: ToBeConfigured(reserves[i], tokens, alreadyEnabled) <==> i in positions)
      && (forall k | 0 <= k < |sent| ::
            positions[k] < |reserves| && Configures(sent[k], reserves[positions[k]], tokens))
  {
    var inputs := Inputs(reserves, tokens, alreadyEnabled);
    positions := InputsInOrder(reserves, tokens, alreadyEnabled);
    var trace, chunks := Transactions(inputs, helper, admin), Chunk(inputs, ENABLE_CHUNKS);
    if inputs != [] {
      BatchesOfHandover(helper, admin, chunks);
      ChunkIsPartition(inputs, ENABLE_CHUNKS);
      forall k | 0 <= k < |trace| && trace[k].Work? ensures OwnerAfter(initial, trace[..k]) == helper {
        WorkRunsUnderHelper(initial, helper, admin, chunks, k);
      }
      OwnerDuringHandover(initial, helper, admin, chunks, |trace|);
      assert trace[..|trace|] == trace;
    }
  }

  lemma InputsInOrder(reserves: Entries<CollateralParams>, tokens: Entries<string>, alreadyEnabled: string -> bool)
    returns (positions: seq<nat>)
    ensures var inputs := Inputs(reserves, tokens, alreadyEnabled);
      && |positions| == |inputs| && Increasing(positions)
      && (forall i: nat | i < |reserves| :: ToBeConfigured(reserves[i], tokens, alreadyEnabled) <==> i in positions)
      && (forall k | 0 <= k < |inputs| ::
            positions[k] < |reserves| && Configures(inputs[k], reserves[positions[k]], tokens))
  {
    var keep := (r: (string, CollateralParams)) => Eligible(r, tokens, alreadyEnabled);
    positions := FilterIsSubsequence(reserves, keep);
    forall i: nat | i < |reserves|
      ensures keep(reserves[i]) <==> ToBeConfigured(reserves[i], tokens, alreadyEnabled)
      ensures keep(reserves[i]) ==> Configures(InputOf(reserves[i], tokens), reserves[i], tokens)
    {
      EligibleIsToBeConfigured(reserves[i], tokens, alreadyEnabled);
    }
    forall k | 0 <= k < |positions| ensures keep(reserves[positions[k]]) {
      assert positions[k] in positions;
    }
  }
}

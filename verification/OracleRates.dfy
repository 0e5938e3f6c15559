/** Setting the initial market rates of the lending-rate oracle while the helper owns it. */
module OracleRates {
  import opened Collections
  import opened Handover

  const RATES_CHUNKS := 20

  datatype Outcome = Completed | TypeError

  /** One call of `setOracleBorrowRates`: assets and rates in parallel. */
  datatype Rates = Rates(assets: seq<string>, rates: seq<string>)

  predicate AllListed(marketRates: Entries<string>, assetsAddresses: Entries<string>) {
    forall m <- marketRates :: HasKey(assetsAddresses, m.0)
  }

  function Assets(marketRates: Entries<string>, assetsAddresses: Entries<string>): seq<string> {
    Map(marketRates, (m: (string, string)) => Get(assetsAddresses, m.0))
  }

  function BorrowRates(marketRates: Entries<string>): seq<string> {
    Map(marketRates, (m: (string, string)) => m.1)
  }

  /** Chunk k of the assets with chunk k of the rates. */
  function Pairwise(assets: seq<seq<string>>, rates: seq<seq<string>>): seq<Rates>
    requires |assets| == |rates|
  {
    seq(|assets|, k requires 0 <= k < |assets| => Rates(assets[k], rates[k]))
  }

  function RateBatches(marketRates: Entries<string>, assetsAddresses: Entries<string>): seq<Rates> {
    ChunksMatch(Assets(marketRates, assetsAddresses), BorrowRates(marketRates), RATES_CHUNKS);
    Pairwise(Chunk(Assets(marketRates, assetsAddresses), RATES_CHUNKS), Chunk(BorrowRates(marketRates), RATES_CHUNKS))
  }

  /** `setInitialMarketRatesInRatesOracleByHelper`. A market without an address stops it before the
      first transaction; otherwise ownership changes hands even if there is no rate to set. */
  method SetInitialMarketRates(oracle: OwnedContract<Rates>, marketRates: Entries<string>,
                               assetsAddresses: Entries<string>, helper: string, admin: string)
    returns (outcome: Outcome)
    modifies oracle
    ensures outcome == if AllListed(marketRates, assetsAddresses) then Completed else TypeError
    ensures outcome.TypeError? ==> oracle.trace == old(oracle.trace) && oracle.owner == old(oracle.owner)
    ensures outcome.Completed? ==>
              && oracle.trace == old(oracle.trace)
                                 + HandedOver(helper, admin, RateBatches(marketRates, assetsAddresses))
              && oracle.owner == admin
  {
    var assetAddresses: seq<string>, borrowRates: seq<string> := [], [];
    for i := 0 to |marketRates|
      invariant |assetAddresses| == |borrowRates| == i
      invariant AllListed(marketRates[..i], assetsAddresses)
      invariant forall j | 0 <= j < i :: assetAddresses[j] == Get(assetsAddresses, marketRates[j].0)
      invariant forall j | 0 <= j < i :: borrowRates[j] == marketRates[j].1
    {
      var assetAddressIndex := FindIndex(assetsAddresses, marketRates[i].0);
      if assetAddressIndex == -1 {
        assert marketRates[i] in marketRates;
        return TypeError;
      }
      assetAddresses := assetAddresses + [assetsAddresses[assetAddressIndex].1];
      borrowRates := borrowRates + [marketRates[i].1];
      assert marketRates[..i + 1] == marketRates[..i] + [marketRates[i]];
    }
    assert marketRates[..|marketRates|] == marketRates;
    assert assetAddresses == Assets(marketRates, assetsAddresses);
    assert borrowRates == BorrowRates(marketRates);
    var chunkedTokens, chunkedRates := Chunk(assetAddresses, RATES_CHUNKS), Chunk(borrowRates, RATES_CHUNKS);
    ChunksMatch(assetAddresses, borrowRates, RATES_CHUNKS);
    SendUnderHelper(oracle, helper, admin, Pairwise(chunkedTokens, chunkedRates));
    return Completed;
  }

  lemma BatchesAreChunks(marketRates: Entries<string>, assetsAddresses: Entries<string>)
    ensures var batches := RateBatches(marketRates, assetsAddresses);
      && Map(batches, (b: Rates) => b.assets) == Chunk(Assets(marketRates, assetsAddresses), RATES_CHUNKS)
      && Map(batches, (b: Rates) => b.rates) == Chunk(BorrowRates(marketRates), RATES_CHUNKS)
  {
    ChunksMatch(Assets(marketRates, assetsAddresses), BorrowRates(marketRates), RATES_CHUNKS);
  }

  /** In every batch the rates stay next to their assets: position j of batch k holds the address and
      the rate of market 20 * k + j. */
  lemma RateStaysWithAsset(marketRates: Entries<string>, assetsAddresses: Entries<string>, k: nat, j: nat)
    requires k < |RateBatches(marketRates, assetsAddresses)|
    requires j < |RateBatches(marketRates, assetsAddresses)[k].assets|
    ensures var batch, at := RateBatches(marketRates, assetsAddresses)[k], 20 * k + j;
      && j < |batch.rates| && at < |marketRates|
      && (HasKey(assetsAddresses, marketRates[at].0) ==> Lists(assetsAddresses, marketRates[at].0, batch.assets[j]))
      && batch.rates[j] == marketRates[at].1
  {
    var assets, rates := Assets(marketRates, assetsAddresses), BorrowRates(marketRates);
    ChunksMatch(assets, rates, RATES_CHUNKS);
    ChunkElement(assets, RATES_CHUNKS, k, j);
    ChunkElement(rates, RATES_CHUNKS, k, j);
    LookedUpIsListed(assetsAddresses, marketRates[RATES_CHUNKS * k + j].0);
  }

  /** The batches together hold every market once and in order, at most 20 at a time. */
  lemma BatchesHoldEveryMarket(marketRates: Entries<string>, assetsAddresses: Entries<string>)
    ensures var batches := RateBatches(marketRates, assetsAddresses);
      && Concat(Map(batches, (b: Rates) => b.assets)) == Assets(marketRates, assetsAddresses)
      && Concat(Map(batches, (b: Rates) => b.rates)) == BorrowRates(marketRates)
      && (forall k | 0 <= k < |batches| :: 1 <= |batches[k].assets| == |batches[k].rates| <= 20)
  {
    BatchesAreChunks(marketRates, assetsAddresses);
    ChunksMatch(Assets(marketRates, assetsAddresses), BorrowRates(marketRates), RATES_CHUNKS);
    ChunkIsPartition(Assets(marketRates, assetsAddresses), RATES_CHUNKS);
    ChunkIsPartition(BorrowRates(marketRates), RATES_CHUNKS);
  }

  /** The helper owns the oracle for every batch, the administrator in the end, and a run stopped
      in between leaves it with the helper. */
  lemma OracleIsHandedBack(batches: seq<Rates>, initial: string, helper: string, admin: string, k: nat)
    requires k <= |HandedOver(helper, admin, batches)|
    ensures var trace := HandedOver(helper, admin, batches);
      && OwnerAfter(initial, trace) == admin
      && (0 < k < |trace| ==> OwnerAfter(initial, trace[..k]) == helper)
      && (k < |trace| && trace[k].Work? ==> OwnerAfter(initial, trace[..k]) == helper)
  {
    var trace := HandedOver(helper, admin, batches);
    OwnerDuringHandover(initial, helper, admin, batches, |trace|);
    OwnerDuringHandover(initial, helper, admin, batches, k);
    assert trace[..|trace|] == trace;
  }
}

/** Pairing the assets of a market with their price aggregators. */
module Aggregators {
  import opened Collections

  /** Destructuring an entry that was not found throws. */
  datatype Result<T> = Success(value: T) | TypeError

  function QuoteCurrencies(oracleQuoteCurrency: string): seq<string> {
    if oracleQuoteCurrency == "USD" then ["USD"] else ["ETH", "WETH"]
  }

  /** The `map` of the source, which looks every symbol up by position. */
  function LookUpAll(assets: Entries<string>, aggregators: Entries<string>): Result<seq<(string, string)>> {
    if assets == [] then Success([])
    else
      var index := FindIndex(aggregators, assets[0].0);
      if index == -1 then TypeError
      else
        match LookUpAll(assets[1..], aggregators)
        case TypeError => TypeError
        case Success(pairs) => Success([(assets[0].1, aggregators[index].1)] + pairs)
  }

  function PairsTokenAggregator(assets: Entries<string>, aggregators: Entries<string>, quote: string)
    : Result<(seq<string>, seq<string>)>
  {
    match LookUpAll(Omit(assets, QuoteCurrencies(quote)), aggregators)
    case TypeError => TypeError
    case Success(found) =>
      var pairs := Filter(found, (pair: (string, string)) => pair.1 != "");
      Success((Map(pairs, (pair: (string, string)) => pair.0), Map(pairs, (pair: (string, string)) => pair.1)))
  }

  /** USD is quoted in itself; every other quote stands for ether, wrapped or not. */
  predicate IsQuote(symbol: string, quote: string) {
    if quote == "USD" then symbol == "USD" else symbol == "ETH" || symbol == "WETH"
  }

  /** The asset is priced: it is no quote currency and its aggregator is set. */
  predicate Priced(asset: (string, string), aggregators: Entries<string>, quote: string) {
    !IsQuote(asset.0, quote) && Get(aggregators, asset.0) != ""
  }

  predicate Known(asset: (string, string), aggregators: Entries<string>, quote: string) {
    IsQuote(asset.0, quote) || HasKey(aggregators, asset.0)
  }

  lemma QuotesAreDropped(symbol: string, quote: string)
    ensures symbol in QuoteCurrencies(quote) <==> IsQuote(symbol, quote)
  {
  }

  lemma {:induction false} LookUpAllFinds(assets: Entries<string>, aggregators: Entries<string>)
    ensures LookUpAll(assets, aggregators).Success? <==> forall e <- assets :: HasKey(aggregators, e.0)
    ensures LookUpAll(assets, aggregators).Success? ==>
              LookUpAll(assets, aggregators).value
              == Map(assets, (e: (string, string)) => (e.1, Get(aggregators, e.0)))
  {
    if assets == [] {
    } else {
      LookUpAllFinds(assets[1..], aggregators);
      assert assets == [assets[0]] + assets[1..];
    }
  }

  /** Filtering looked-up pairs is looking up filtered assets. */
  lemma {:induction false} FilterOfMap(assets: Entries<string>, aggregators: Entries<string>)
    ensures Filter(Map(assets, (e: (string, string)) => (e.1, Get(aggregators, e.0))),
                   (pair: (string, string)) => pair.1 != "")
            == Map(Filter(assets, (e: (string, string)) => Get(aggregators, e.0) != ""),
                   (e: (string, string)) => (e.1, Get(aggregators, e.0)))
  {
    var f := (e: (string, string)) => (e.1, Get(aggregators, e.0));
    var keep := (e: (string, string)) => Get(aggregators, e.0) != "";
    if assets == [] {
    } else {
      FilterOfMap(assets[1..], aggregators);
      var head := if keep(assets[0]) then [assets[0]] else [];
      var tail := Filter(assets[1..], keep);
      if head != [] {
        assert Filter(assets, keep)[1..] == tail;
      }
      assert Map(assets, f) == [f(assets[0])] + Map(assets[1..], f);
      assert Map(assets, f)[1..] == Map(assets[1..], f);
    }
  }

  /** The result, with the look-ups spelled out. */
  lemma PairsAreLookedUp(assets: Entries<string>, aggregators: Entries<string>, quote: string)
    requires UniqueKeys(assets)
    ensures PairsTokenAggregator(assets, aggregators, quote).Success?
            <==> forall e <- assets :: Known(e, aggregators, quote)
    ensures var priced := Filter(assets, (e: (string, string)) => Priced(e, aggregators, quote));
      PairsTokenAggregator(assets, aggregators, quote).Success? ==>
        var (tokens, sources) := PairsTokenAggregator(assets, aggregators, quote).value;
        && |tokens| == |sources| == |priced|
        && (forall k | 0 <= k < |priced| ::
              tokens[k] == priced[k].1 && sources[k] == Get(aggregators, priced[k].0))
  {
    var quotes := QuoteCurrencies(quote);
    var unquoted := (e: (string, string)) => e.0 !in quotes;
    var isSet := (e: (string, string)) => Get(aggregators, e.0) != "";
    var keep := (e: (string, string)) => Priced(e, aggregators, quote);
    forall e <- assets ensures e.0 in quotes <==> IsQuote(e.0, quote) { QuotesAreDropped(e.0, quote); }
    OmitIsFilter(assets, quotes);
    FilterMembers(assets, unquoted);
    LookUpAllFinds(Omit(assets, quotes), aggregators);
    FilterOfMap(Filter(assets, unquoted), aggregators);
    FilterTwice(assets, unquoted, isSet, keep);
  }

  /** The call fails exactly when some asset that is no quote currency is unknown to the
      aggregators. Otherwise its two lists have one length and hold, in order and once each, the
      address of each priced asset and the aggregator listed for its symbol. */
  lemma PairsAreThePricedAssets(assets: Entries<string>, aggregators: Entries<string>, quote: string)
    returns (positions: seq<nat>)
    requires UniqueKeys(assets)
    ensures PairsTokenAggregator(assets, aggregators, quote).Success?
            <==> forall e <- assets :: Known(e, aggregators, quote)
    ensures Increasing(positions)
    ensures forall i: nat | i < |assets| :: Priced(assets[i], aggregators, quote) <==> i in positions
    ensures PairsTokenAggregator(assets, aggregators, quote).Success? ==>
              var (tokens, sources) := PairsTokenAggregator(assets, aggregators, quote).value;
              && |tokens| == |sources| == |positions|
              && (forall k | 0 <= k < |positions| ::
                    && positions[k] < |assets|
                    && tokens[k] == assets[positions[k]].1
                    && sources[k] != "" && Lists(aggregators, assets[positions[k]].0, sources[k]))
  {
    PairsAreLookedUp(assets, aggregators, quote);
    var keep := (e: (string, string)) => Priced(e, aggregators, quote);
    positions := FilterIsSubsequence(assets, keep);
    forall k | 0 <= k < |positions|
      ensures Lists(aggregators, assets[positions[k]].0, Get(aggregators, assets[positions[k]].0))
      ensures Get(aggregators, assets[positions[k]].0) != ""
    {
      assert positions[k] in positions;
      GetIsListed(aggregators, assets[positions[k]].0);
    }
  }
}

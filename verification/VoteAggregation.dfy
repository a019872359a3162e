/**
 From the votes of an accepted proposal to the prices in the oracle state: the vote aggregator
 (abci/strategies/aggregator/vote_aggregator.go), the data aggregator it fills (aggregator/aggregator.go) and the price
 applier (abci/strategies/aggregator/price_applier.go).
 */
module VoteAggregation {
  import opened Varint
  import opened Wrappers
  import opened Abci
  import opened Orders
  import opened GobInt
  import opened CurrencyPairStrategy
  import opened VoteExtensionWire
  import opened StakeWeightedPrices
  import opened Proposals

  // ---------------------------------------------------------------- what the calls compute

  /** One price of an extension: skipped when too long, of an unknown ID, or undecodable. */
  function AfterPrice(kind: Kind, c: Caches, ctx: Ctx, id: uint64, priceBz: bytes, report: Report): (Caches, Report) {
    if |priceBz| > MAXIMUM_PRICE_SIZE then (c, report)
    else
      var (c1, cp) := AfterFromID(kind, c, ctx, id);
      if cp.Failure? then (c1, report)
      else
        var (c2, price) := AfterDecode(kind, c1, ctx, cp.value, priceBz);
        (c2, if price.Failure? then report else report[cp.value := Some(price.value)])
  }

  function AfterPrices(kind: Kind, c: Caches, ctx: Ctx, prices: Prices, order: seq<uint64>): (Caches, Report)
    requires forall id <- order :: id in prices
  {
    if order == [] then (c, map[]) else
    var n := |order| - 1;
    var (c', report) := AfterPrices(kind, c, ctx, prices, order[..n]);
    AfterPrice(kind, c', ctx, order[n], prices[order[n]], report)
  }

  /** One vote: an empty extension leaves the data alone. */
  function AfterVote(kind: Kind, c: Caches, ctx: Ctx, addrString: GoBytes -> string, data: Providers, vote: Vote, order: seq<uint64>): (Caches, Providers)
    requires IsOrder(order, vote.oracleVoteExtension.Keys)
  {
    if vote.oracleVoteExtension == map[] then (c, data)
    else
      var (c', report) := AfterPrices(kind, c, ctx, vote.oracleVoteExtension, order);
      (c', data[addrString(vote.consAddress) := report])
  }

  ghost predicate OrdersFor(votes: seq<Vote>, orders: seq<seq<uint64>>) {
    |orders| == |votes| && forall i :: 0 <= i < |votes| ==> IsOrder(orders[i], votes[i].oracleVoteExtension.Keys)
  }

  /** All votes, starting from no data at all. */
  ghost function AfterVotes(kind: Kind, c: Caches, ctx: Ctx, addrString: GoBytes -> string, votes: seq<Vote>, orders: seq<seq<uint64>>): (Caches, Providers)
    requires OrdersFor(votes, orders)
    decreases |votes|
  {
    if votes == [] then (c, map[]) else
    var n := |votes| - 1;
    var (c', data) := AfterVotes(kind, c, ctx, addrString, votes[..n], orders[..n]);
    AfterVote(kind, c', ctx, addrString, data, votes[n], orders[n])
  }

  // ---------------------------------------------------------------- the objects

  class DataAggregator {
    var providerData: Providers
    var aggregatedData: map<CurrencyPair, int>

    constructor ()
      ensures providerData == map[] && aggregatedData == map[]
    {
      providerData, aggregatedData := map[], map[];
    }

    method ResetProviderData()
      modifies this`providerData
      ensures providerData == map[]
    {
      providerData := map[];
    }

    method SetProviderData(provider: string, data: Report)
      modifies this`providerData
      ensures providerData == old(providerData)[provider := data]
    {
      providerData := providerData[provider := data];
    }

    /** The absent report reads as the nil map. */
    method GetDataByProvider(provider: string) returns (data: Report)
      ensures data == if provider in providerData then providerData[provider] else map[]
    {
      data := if provider in providerData then providerData[provider] else map[];
    }

    /** AggregateDataFromContext with Median; false is a panic, which leaves the aggregated data as it was. */
    method AggregateData(stake: StakeStore, threshold: nat) returns (ok: bool, ghost order: seq<string>)
      modifies this`aggregatedData
      ensures IsOrder(order, providerData.Keys)
      ensures var prices := MedianPrices(order, providerData, stake, threshold);
              ok == prices.Some? && aggregatedData == if ok then prices.value else old(aggregatedData)
    {
      var prices;
      prices, order := Median(providerData, stake, threshold);
      ok := prices.Some?;
      if ok {
        aggregatedData := prices.value;
      }
    }
  }

  class VoteAggregator {
    const priceAggregator: DataAggregator
    const strategy: Strategy
    const addrString: GoBytes -> string
    const threshold: nat

    constructor (strategy: Strategy, addrString: GoBytes -> string, threshold: nat)
      ensures fresh(priceAggregator) && this.strategy == strategy && this.addrString == addrString && this.threshold == threshold
    {
      priceAggregator := new DataAggregator();
      this.strategy, this.addrString, this.threshold := strategy, addrString, threshold;
    }

    /** Collects the prices of one extension, visiting the IDs in an arbitrary order. */
    method DecodePrices(ctx: Ctx, oracleData: Prices) returns (prices: Report, ghost order: seq<uint64>)
      modifies strategy
      ensures IsOrder(order, oracleData.Keys)
      ensures (strategy.Contents(), prices) == AfterPrices(strategy.kind, old(strategy.Contents()), ctx, oracleData, order)
    {
      hide AfterFromID, AfterDecode;
      prices := map[];
      order := [];
      var todo := oracleData.Keys;
      while todo != {}
        invariant todo <= oracleData.Keys
        invariant IsOrder(order, oracleData.Keys - todo)
        invariant (strategy.Contents(), prices) == AfterPrices(strategy.kind, old(strategy.Contents()), ctx, oracleData, order)
      {
        var cpID :| cpID in todo;
        OrderExtends(order, oracleData.Keys, todo, cpID);
        assert (order + [cpID])[..|order|] == order;
        order := order + [cpID];
        todo := todo - {cpID};
        var priceBz := oracleData[cpID];
        if |priceBz| > MAXIMUM_PRICE_SIZE {
          continue;
        }
        var cp := strategy.FromID(ctx, cpID);
        if cp.Failure? {
          continue;
        }
        var price := strategy.GetDecodedPrice(ctx, cp.value, priceBz);
        if price.Failure? {
          continue;
        }
        prices := prices[cp.value := Some(price.value)];
      }
    }

    method AddVoteToAggregator(ctx: Ctx, vote: Vote) returns (ghost order: seq<uint64>)
      modifies strategy, priceAggregator`providerData
      ensures IsOrder(order, vote.oracleVoteExtension.Keys)
      ensures (strategy.Contents(), priceAggregator.providerData)
              == AfterVote(strategy.kind, old(strategy.Contents()), ctx, addrString, old(priceAggregator.providerData), vote, order)
    {
      hide AfterPrices;
      order := [];
      if |vote.oracleVoteExtension| == 0 {
        return;
      }
      var prices;
      prices, order := DecodePrices(ctx, vote.oracleVoteExtension);
      priceAggregator.SetProviderData(addrString(vote.consAddress), prices);
    }

    /** Nothing of an earlier aggregation is left in the data that is aggregated.  None is a panic in Median. */
    method AggregateOracleVotes(ctx: Ctx, votes: seq<Vote>, stake: StakeStore)
      returns (r: Option<map<CurrencyPair, int>>, ghost orders: seq<seq<uint64>>, ghost order: seq<string>)
      modifies strategy, priceAggregator
      ensures OrdersFor(votes, orders)
      ensures (strategy.Contents(), priceAggregator.providerData)
              == AfterVotes(strategy.kind, old(strategy.Contents()), ctx, addrString, votes, orders)
      ensures IsOrder(order, priceAggregator.providerData.Keys)
      ensures r == MedianPrices(order, priceAggregator.providerData, stake, threshold)
    {
      hide AfterVote;
      priceAggregator.ResetProviderData();
      orders := [];
      var i := 0;
      while i < |votes|
        invariant 0 <= i <= |votes|
        invariant OrdersFor(votes[..i], orders)
        invariant (strategy.Contents(), priceAggregator.providerData)
                  == AfterVotes(strategy.kind, old(strategy.Contents()), ctx, addrString, votes[..i], orders)
      {
        ghost var o := AddVoteToAggregator(ctx, votes[i]);
        assert votes[..i + 1][..i] == votes[..i];
        assert (orders + [o])[..i] == orders;
        orders := orders + [o];
        i := i + 1;
      }
      assert votes[..i] == votes;
      var ok;
      ok, order := priceAggregator.AggregateData(stake, threshold);
      r := if ok then Some(priceAggregator.aggregatedData) else None;
    }

    method GetPriceForValidator(validator: GoBytes) returns (data: Report)
      ensures data == if addrString(validator) in priceAggregator.providerData
                      then priceAggregator.providerData[addrString(validator)] else map[]
    {
      data := priceAggregator.GetDataByProvider(addrString(validator));
    }
  }

  // ---------------------------------------------------------------- reports depend on the chain state alone

  /** Caches that agree with the state they are used in; the empty caches of a new object do. */
  ghost predicate Sound(kind: Kind, c: Caches, ctx: Ctx) {
    && SoundState(kind, ctx.oracle)
    && (c.idHeight == ctx.height ==> Agrees(c, Names(kind, ctx.oracle)))
    && (c.priceHeight == ctx.height ==>
          forall cp <- c.priceCache :: KeeperPrice(ctx.oracle, cp) == Success(c.priceCache[cp]))
  }

  /** The price an extension's bytes stand for, by the chain state: no caches involved. */
  function ChainDecode(kind: Kind, o: OracleState, cp: CurrencyPair, b: bytes): Result<int, StrategyError> {
    if kind == Delta then
      match KeeperPrice(o, cp)
      case Failure(e) => Failure(e)
      case Success(base) => DecodedFrom(b, base)
    else DecodedFrom(b, 0)
  }

  /** The price one entry of an extension gives, if it is short enough and decodes. */
  function EntryPrice(kind: Kind, o: OracleState, cp: CurrencyPair, b: bytes): Option<int> {
    if |b| > MAXIMUM_PRICE_SIZE then None
    else match ChainDecode(kind, o, cp, b) case Failure(_) => None case Success(p) => Some(p)
  }

  /** At most 33 bytes, a decodable number, on top of the price on chain for the delta strategy, and no negative sum. */
  lemma EntryPriceExactly(kind: Kind, o: OracleState, cp: CurrencyPair, b: bytes, price: int)
    ensures EntryPrice(kind, o, cp, b) == Some(price)
            <==> && |b| <= 33 && price >= 0 && (kind.Delta? ==> cp in o.pairs)
                 && GobDecode(b) == Success(if kind.Delta? && o.pairs[cp].price.Some? then price - o.pairs[cp].price.value.price else price)
  {
    hide GobDecode;
  }

  /** The price an extension reports for a pair: the one listed under the pair's ID. */
  function ReportedPrice(kind: Kind, o: OracleState, prices: Prices, cp: CurrencyPair): Option<int> {
    if cp in o.pairs && IdOf(kind, o, cp) in prices then EntryPrice(kind, o, cp, prices[IdOf(kind, o, cp)]) else None
  }

  /** What an extension reports, by the chain state. */
  function ChainReport(kind: Kind, o: OracleState, prices: Prices): Report {
    map cp | cp in o.pairs && ReportedPrice(kind, o, prices, cp).Some? :: ReportedPrice(kind, o, prices, cp)
  }

  lemma FromIdSound(kind: Kind, c: Caches, ctx: Ctx, id: uint64)
    requires Sound(kind, c, ctx)
    ensures Sound(kind, AfterFromID(kind, c, ctx, id).0, ctx)
    ensures AfterFromID(kind, c, ctx, id).1 == if id in Names(kind, ctx.oracle) then Success(Names(kind, ctx.oracle)[id]) else Failure(IdNotFound)
  {
    hide Names, SoundState, Filled;
    StepTransparent(kind, c, CallFromID(ctx, id));
  }

  lemma DecodeSound(kind: Kind, c: Caches, ctx: Ctx, cp: CurrencyPair, b: bytes)
    requires Sound(kind, c, ctx)
    ensures Sound(kind, AfterDecode(kind, c, ctx, cp, b).0, ctx)
    ensures AfterDecode(kind, c, ctx, cp, b).1 == ChainDecode(kind, ctx.oracle, cp, b)
  {
    hide Names, SoundState, DecodedFrom;
  }

  lemma PriceSound(kind: Kind, c: Caches, ctx: Ctx, id: uint64, b: bytes, report: Report)
    requires Sound(kind, c, ctx)
    ensures Sound(kind, AfterPrice(kind, c, ctx, id, b, report).0, ctx)
    ensures AfterPrice(kind, c, ctx, id, b, report).1
            == (var names := Names(kind, ctx.oracle);
                if id in names && EntryPrice(kind, ctx.oracle, names[id], b).Some?
                then report[names[id] := EntryPrice(kind, ctx.oracle, names[id], b)] else report)
  {
    hide Names, Sound, AfterFromID, AfterDecode, ChainDecode;
    FromIdSound(kind, c, ctx, id);
    var (c1, cp) := AfterFromID(kind, c, ctx, id);
    if cp.Success? {
      DecodeSound(kind, c1, ctx, cp.value, b);
    }
  }

  /** The part of an extension with the given IDs. */
  function Restricted(prices: Prices, ids: seq<uint64>): Prices {
    map id | id in prices && id in ids :: prices[id]
  }

  /** Whatever the order and whatever sound caches it starts from, an extension gives the report of the chain state. */
  lemma {:induction false} PricesSound(kind: Kind, c: Caches, ctx: Ctx, prices: Prices, order: seq<uint64>)
    requires Sound(kind, c, ctx)
    requires forall id <- order :: id in prices
    requires forall i, j :: 0 <= i < j < |order| ==> order[i] != order[j]
    ensures Sound(kind, AfterPrices(kind, c, ctx, prices, order).0, ctx)
    ensures AfterPrices(kind, c, ctx, prices, order).1 == ChainReport(kind, ctx.oracle, Restricted(prices, order))
  {
    hide Sound, AfterPrice, ChainReport, Restricted;
    if order != [] {
      var n := |order| - 1;
      PricesSound(kind, c, ctx, prices, order[..n]);
      var (c', report) := AfterPrices(kind, c, ctx, prices, order[..n]);
      NextPriceSound(kind, c', ctx, prices, order[..n], order[n], report);
      assert order[..n] + [order[n]] == order;
    } else {
      EmptyReport(kind, ctx.oracle, prices);
    }
  }

  lemma NextPriceSound(kind: Kind, c: Caches, ctx: Ctx, prices: Prices, ids: seq<uint64>, id: uint64, report: Report)
    requires Sound(kind, c, ctx) && id in prices && id !in ids
    requires report == ChainReport(kind, ctx.oracle, Restricted(prices, ids))
    ensures Sound(kind, AfterPrice(kind, c, ctx, id, prices[id], report).0, ctx)
    ensures AfterPrice(kind, c, ctx, id, prices[id], report).1 == ChainReport(kind, ctx.oracle, Restricted(prices, ids + [id]))
  {
    assert SoundState(kind, ctx.oracle);
    hide Names, Sound, SoundState, AfterPrice, IdOf, EntryPrice, ChainReport, Restricted;
    PriceSound(kind, c, ctx, id, prices[id], report);
    ReportExtends(kind, ctx.oracle, prices, ids, id);
  }

  /** One more ID adds the price of the pair it names. */
  lemma ReportedPriceExtends(kind: Kind, o: OracleState, prices: Prices, ids: seq<uint64>, id: uint64, cp: CurrencyPair)
    requires SoundState(kind, o) && id in prices && id !in ids
    ensures ReportedPrice(kind, o, Restricted(prices, ids + [id]), cp)
            == if id in Names(kind, o) && Names(kind, o)[id] == cp then EntryPrice(kind, o, cp, prices[id])
               else ReportedPrice(kind, o, Restricted(prices, ids), cp)
    ensures id in Names(kind, o) && Names(kind, o)[id] == cp ==> ReportedPrice(kind, o, Restricted(prices, ids), cp) == None
    ensures id in Names(kind, o) ==> Names(kind, o)[id] in o.pairs
  {
    NamesInverse(kind, o);
    hide Names, SoundState, EntryPrice, IdOf;
  }

  lemma ReportExtends(kind: Kind, o: OracleState, prices: Prices, ids: seq<uint64>, id: uint64)
    requires SoundState(kind, o) && id in prices && id !in ids
    ensures var names := Names(kind, o);
            var report := ChainReport(kind, o, Restricted(prices, ids));
            ChainReport(kind, o, Restricted(prices, ids + [id]))
            == if id in names && EntryPrice(kind, o, names[id], prices[id]).Some?
               then report[names[id] := EntryPrice(kind, o, names[id], prices[id])] else report
  {
    hide Names, SoundState, EntryPrice, ReportedPrice, Restricted;
    forall cp
      ensures ReportedPrice(kind, o, Restricted(prices, ids + [id]), cp)
              == if id in Names(kind, o) && Names(kind, o)[id] == cp then EntryPrice(kind, o, cp, prices[id])
                 else ReportedPrice(kind, o, Restricted(prices, ids), cp)
      ensures id in Names(kind, o) && Names(kind, o)[id] == cp ==> ReportedPrice(kind, o, Restricted(prices, ids), cp) == None
      ensures id in Names(kind, o) ==> Names(kind, o)[id] in o.pairs
    {
      ReportedPriceExtends(kind, o, prices, ids, id, cp);
    }
    var a, b := ChainReport(kind, o, Restricted(prices, ids + [id])), ChainReport(kind, o, Restricted(prices, ids));
    if id in Names(kind, o) && EntryPrice(kind, o, Names(kind, o)[id], prices[id]).Some? {
      assert a == b[Names(kind, o)[id] := EntryPrice(kind, o, Names(kind, o)[id], prices[id])];
    } else {
      assert a == b;
    }
  }

  lemma EmptyReport(kind: Kind, o: OracleState, prices: Prices)
    ensures ChainReport(kind, o, Restricted(prices, [])) == map[]
  {
  }

  lemma OrderRestricts(prices: Prices, order: seq<uint64>)
    requires IsOrder(order, prices.Keys)
    ensures Restricted(prices, order) == prices
  {
  }

  /** The data after all votes, by the chain state: the last non-empty extension of each address counts. */
  ghost function ChainProviders(kind: Kind, o: OracleState, addrString: GoBytes -> string, votes: seq<Vote>): Providers {
    if votes == [] then map[] else
    var n := |votes| - 1;
    var data := ChainProviders(kind, o, addrString, votes[..n]);
    if votes[n].oracleVoteExtension == map[] then data
    else data[addrString(votes[n].consAddress) := ChainReport(kind, o, votes[n].oracleVoteExtension)]
  }

  /** Two nodes whose caches are sound fill their aggregators alike, in whatever order they range over the extensions. */
  lemma {:induction false} VotesSound(kind: Kind, c: Caches, ctx: Ctx, addrString: GoBytes -> string, votes: seq<Vote>, orders: seq<seq<uint64>>)
    requires Sound(kind, c, ctx) && OrdersFor(votes, orders)
    ensures Sound(kind, AfterVotes(kind, c, ctx, addrString, votes, orders).0, ctx)
    ensures AfterVotes(kind, c, ctx, addrString, votes, orders).1 == ChainProviders(kind, ctx.oracle, addrString, votes)
    decreases |votes|
  {
    hide Sound, AfterPrices, ChainReport;
    if votes != [] {
      var n := |votes| - 1;
      VotesSound(kind, c, ctx, addrString, votes[..n], orders[..n]);
      if votes[n].oracleVoteExtension != map[] {
        var c' := AfterVotes(kind, c, ctx, addrString, votes[..n], orders[..n]).0;
        PricesSound(kind, c', ctx, votes[n].oracleVoteExtension, orders[n]);
        OrderRestricts(votes[n].oracleVoteExtension, orders[n]);
      }
    }
  }

  /** No cache is from a later height. */
  predicate CachedUpTo(c: Caches, height: int) {
    c.idHeight <= height && c.priceHeight <= height
  }

  lemma PriceCachedUpTo(kind: Kind, c: Caches, ctx: Ctx, id: uint64, b: bytes, report: Report, height: int)
    requires CachedUpTo(c, height) && ctx.height <= height
    ensures CachedUpTo(AfterPrice(kind, c, ctx, id, b, report).0, height)
  {
    hide Filled, DecodedFrom, KeeperPrice;
  }

  lemma {:induction false} PricesCachedUpTo(kind: Kind, c: Caches, ctx: Ctx, prices: Prices, order: seq<uint64>, height: int)
    requires CachedUpTo(c, height) && ctx.height <= height
    requires forall id <- order :: id in prices
    ensures CachedUpTo(AfterPrices(kind, c, ctx, prices, order).0, height)
  {
    hide AfterPrice;
    if order != [] {
      var n := |order| - 1;
      PricesCachedUpTo(kind, c, ctx, prices, order[..n], height);
      var (c', report) := AfterPrices(kind, c, ctx, prices, order[..n]);
      PriceCachedUpTo(kind, c', ctx, order[n], prices[order[n]], report, height);
    }
  }

  lemma {:induction false} VotesCachedUpTo(kind: Kind, c: Caches, ctx: Ctx, addrString: GoBytes -> string, votes: seq<Vote>, orders: seq<seq<uint64>>, height: int)
    requires OrdersFor(votes, orders)
    requires CachedUpTo(c, height) && ctx.height <= height
    ensures CachedUpTo(AfterVotes(kind, c, ctx, addrString, votes, orders).0, height)
    decreases |votes|
  {
    hide AfterPrices;
    if votes != [] {
      var n := |votes| - 1;
      VotesCachedUpTo(kind, c, ctx, addrString, votes[..n], orders[..n], height);
      var c' := AfterVotes(kind, c, ctx, addrString, votes[..n], orders[..n]).0;
      if votes[n].oracleVoteExtension != map[] {
        PricesCachedUpTo(kind, c', ctx, votes[n].oracleVoteExtension, orders[n], height);
      }
    }
  }

  // ---------------------------------------------------------------- writing prices

  /** The order of the store's keys. */
  predicate KeyLess(a: string, b: string) {
    b != [] && (a == [] || a[0] < b[0] || (a[0] == b[0] && KeyLess(a[1..], b[1..])))
  }

  /** The listing with a new pair in its place. */
  function Listed(all: seq<CurrencyPair>, cp: CurrencyPair): seq<CurrencyPair> {
    if all == [] || KeyLess(cp.String(), all[0].String()) then [cp] + all else [all[0]] + Listed(all[1..], cp)
  }

  function PriceSet(o: OracleState, cp: CurrencyPair, quote: QuotePrice): OracleState {
    if cp in o.pairs then
      o.(pairs := o.pairs[cp := o.pairs[cp].(nonce := o.pairs[cp].nonce + 1, price := Some(quote))])
    else
      o.(nextId := (o.nextId + 1) % TWO_TO_THE_64, pairs := o.pairs[cp := PairState(o.nextId, 0, Some(quote))],
         byId := o.byId[o.nextId := cp], all := Listed(o.all, cp))
  }

  lemma {:induction false} ListedHolds(all: seq<CurrencyPair>, cp: CurrencyPair)
    ensures multiset(Listed(all, cp)) == multiset(all) + multiset{cp}
  {
    if all != [] && !KeyLess(cp.String(), all[0].String()) {
      ListedHolds(all[1..], cp);
      assert all == [all[0]] + all[1..];
    }
  }

  lemma {:induction false} DistinctByCount(s: seq<CurrencyPair>)
    ensures (forall i, j :: 0 <= i < j < |s| ==> s[i] != s[j]) <==> forall cp :: multiset(s)[cp] <= 1
  {
    if s != [] {
      DistinctByCount(s[1..]);
      assert s == [s[0]] + s[1..];
      assert s[0] in s[1..] <==> multiset(s[1..])[s[0]] > 0;
      if forall cp :: multiset(s)[cp] <= 1 {
        assert forall cp :: multiset(s[1..])[cp] <= multiset(s)[cp];
      }
      if forall i, j :: 0 <= i < j < |s| ==> s[i] != s[j] {
        assert forall i, j :: 0 <= i < j < |s[1..]| ==> s[1..][i] != s[1..][j];
      }
    }
  }

  /** A new pair's listing still has every pair once. */
  lemma ListedOnce(all: seq<CurrencyPair>, cp: CurrencyPair)
    requires cp !in all && forall i, j :: 0 <= i < j < |all| ==> all[i] != all[j]
    ensures forall cp' :: cp' in Listed(all, cp) <==> cp' in all || cp' == cp
    ensures forall i, j :: 0 <= i < j < |Listed(all, cp)| ==> Listed(all, cp)[i] != Listed(all, cp)[j]
  {
    ListedHolds(all, cp);
    DistinctByCount(all);
    DistinctByCount(Listed(all, cp));
    forall cp' ensures cp' in Listed(all, cp) <==> cp' in all || cp' == cp {
      assert cp' in Listed(all, cp) <==> cp' in multiset(Listed(all, cp));
      assert cp' in all <==> cp' in multiset(all);
    }
  }

  /** What setting a price leaves: the price and the next nonce of a known pair, or a new pair with the next ID and nonce 0. */
  lemma PriceSetExactly(o: OracleState, cp: CurrencyPair, quote: QuotePrice)
    ensures var o' := PriceSet(o, cp, quote);
            && o'.pairs.Keys == o.pairs.Keys + {cp} && (forall cp' <- o.pairs :: cp' != cp ==> o'.pairs[cp'] == o.pairs[cp'])
            && o'.pairs[cp].price == Some(quote)
            && (o'.numPairs, o'.numRemoved) == (o.numPairs, o.numRemoved)
            && if cp in o.pairs then
                 && (o'.byId, o'.all, o'.nextId) == (o.byId, o.all, o.nextId)
                 && o'.pairs[cp].id == o.pairs[cp].id && o'.pairs[cp].nonce == o.pairs[cp].nonce + 1
               else
                 && o'.byId == o.byId[o.nextId := cp] && o'.nextId == (if o.nextId == 0xffff_ffff_ffff_ffff then 0 else o.nextId + 1)
                 && o'.pairs[cp].id == o.nextId && o'.pairs[cp].nonce == 0
  {
  }

  lemma {:induction false} KeyLessTransitive(a: string, b: string, c: string)
    requires KeyLess(a, b) && KeyLess(b, c)
    ensures KeyLess(a, c)
  {
    if a != [] && a[0] == b[0] == c[0] {
      KeyLessTransitive(a[1..], b[1..], c[1..]);
    }
  }

  lemma {:induction false} KeyLessTotal(a: string, b: string)
    ensures KeyLess(a, b) || KeyLess(b, a) || a == b
  {
    if a != [] && b != [] && a[0] == b[0] {
      KeyLessTotal(a[1..], b[1..]);
      assert a == [a[0]] + a[1..] && b == [b[0]] + b[1..];
    }
  }

  /** At the first place where they differ, a has ended or has the smaller character. */
  predicate FirstDifference(a: string, b: string, k: nat) {
    k <= |a| && k < |b| && a[..k] == b[..k] && (k == |a| || a[k] < b[k])
  }

  lemma {:induction false} KeyLessIsLexicographic(a: string, b: string)
    ensures KeyLess(a, b) <==> exists k: nat :: FirstDifference(a, b, k)
  {
    if b != [] && (a == [] || a[0] != b[0]) {
      assert KeyLess(a, b) <==> FirstDifference(a, b, 0);
      forall k: nat | k > 0 ensures !FirstDifference(a, b, k) {
        assert k <= |a| && k < |b| ==> a[..k][0] == a[0] && b[..k][0] == b[0];
      }
    } else if b != [] {
      KeyLessIsLexicographic(a[1..], b[1..]);
      if k: nat :| FirstDifference(a[1..], b[1..], k) {
        assert a[..k + 1] == [a[0]] + a[1..][..k] && b[..k + 1] == [b[0]] + b[1..][..k];
        assert FirstDifference(a, b, k + 1);
      }
      if k: nat :| FirstDifference(a, b, k) {
        assert a[1..][..k - 1] == a[..k][1..] && b[1..][..k - 1] == b[..k][1..];
        assert FirstDifference(a[1..], b[1..], k - 1);
      }
    }
  }

  /** The pairs are listed in the order of their keys. */
  predicate ListedInOrder(all: seq<CurrencyPair>) {
    forall i, j :: 0 <= i < j < |all| ==> KeyLess(all[i].String(), all[j].String())
  }

  /** A new pair, with a name of its own, goes where its key belongs. */
  lemma {:induction false} ListedStaysInOrder(all: seq<CurrencyPair>, cp: CurrencyPair)
    requires ListedInOrder(all) && forall cp' <- all :: cp'.String() != cp.String()
    ensures ListedInOrder(Listed(all, cp))
  {
    hide KeyLess;
    if all != [] {
      KeyLessTotal(cp.String(), all[0].String());
      if KeyLess(cp.String(), all[0].String()) {
        forall i | 0 < i < |all| ensures KeyLess(cp.String(), all[i].String()) {
          KeyLessTransitive(cp.String(), all[0].String(), all[i].String());
        }
      } else {
        ListedStaysInOrder(all[1..], cp);
        ListedHolds(all[1..], cp);
        var rest := Listed(all[1..], cp);
        forall i | 0 <= i < |rest| ensures KeyLess(all[0].String(), rest[i].String()) {
          assert rest[i] in multiset(rest);
          assert rest[i] == cp || rest[i] in multiset(all[1..]);
          if rest[i] != cp {
            var j :| 0 <= j < |all[1..]| && all[1..][j] == rest[i];
            assert all[j + 1] == rest[i];
          }
        }
      }
    }
  }

  /** Setting a price leaves the IDs, their index and the listing in step exactly when the pair is known or the next ID is unused. */
  lemma PriceSetConsistent(o: OracleState, cp: CurrencyPair, quote: QuotePrice)
    requires Consistent(o)
    ensures Consistent(PriceSet(o, cp, quote)) <==> cp in o.pairs || o.nextId !in o.byId
    ensures forall cp' :: cp' in o.pairs && cp' != cp ==> cp' in PriceSet(o, cp, quote).pairs && PriceSet(o, cp, quote).pairs[cp'] == o.pairs[cp']
  {
    if cp !in o.pairs {
      hide Listed;
      ListedOnce(o.all, cp);
      if o.nextId in o.byId {
        var taken := o.byId[o.nextId];
        assert PriceSet(o, cp, quote).pairs[taken].id == o.nextId && PriceSet(o, cp, quote).byId[o.nextId] == cp;
      }
    }
  }

  class Keeper {
    var state: OracleState

    constructor (state: OracleState)
      ensures this.state == state
    {
      this.state := state;
    }

    /** A known pair gets the price and a higher nonce; an unknown one is created. */
    method SetPriceForCurrencyPair(cp: CurrencyPair, quote: QuotePrice)
      modifies this
      ensures state == PriceSet(old(state), cp, quote)
    {
      if cp !in state.pairs {
        var id := state.nextId;
        state := state.(nextId := (id + 1) % TWO_TO_THE_64);
        state := state.(pairs := state.pairs[cp := PairState(id, 0, Some(quote))], byId := state.byId[id := cp], all := Listed(state.all, cp));
      } else {
        var cps := state.pairs[cp];
        cps := cps.(nonce := cps.nonce + 1, price := Some(quote));
        state := state.(pairs := state.pairs[cp := cps]);
      }
    }
  }

  function QuoteOf(ctx: Ctx, price: int): QuotePrice {
    QuotePrice(price, ctx.blockTime, ctx.height % TWO_TO_THE_64)
  }

  predicate Writable(prices: map<CurrencyPair, int>, cp: CurrencyPair) {
    cp in prices && prices[cp] >= 0
  }

  function PairWritten(ctx: Ctx, prices: map<CurrencyPair, int>, cp: CurrencyPair, s: PairState): PairState {
    if Writable(prices, cp) then s.(nonce := s.nonce + 1, price := Some(QuoteOf(ctx, prices[cp]))) else s
  }

  /** The state after a block: each pair with a non-negative price is written once, and nothing else changes. */
  function StateWritten(ctx: Ctx, o: OracleState, prices: map<CurrencyPair, int>): OracleState {
    o.(pairs := map cp | cp in o.pairs :: PairWritten(ctx, prices, cp, o.pairs[cp]))
  }

  /** math.NewIntFromBigInt panics on more than 256 bits. */
  predicate Unrepresentable(price: int) {
    price >= Pow256(32)
  }

  predicate SomeUnrepresentable(o: OracleState, prices: map<CurrencyPair, int>) {
    exists cp :: cp in o.pairs && cp in prices && Unrepresentable(prices[cp])
  }

  lemma Representable(prices: map<CurrencyPair, int>, cp: CurrencyPair)
    requires cp in prices && prices[cp] < 0
    ensures !Unrepresentable(prices[cp])
  {
  }

  /** The first n pairs of the listing have been handled, and nothing else has changed. */
  ghost predicate WrittenUpTo(ctx: Ctx, prices: map<CurrencyPair, int>, before: OracleState, now: OracleState, n: nat)
    requires n <= |before.all|
  {
    && now == before.(pairs := now.pairs) && now.pairs.Keys == before.pairs.Keys
    && forall cp <- before.pairs ::
         now.pairs[cp] == if cp in before.all[..n] then PairWritten(ctx, prices, cp, before.pairs[cp]) else before.pairs[cp]
  }

  lemma NothingWritten(ctx: Ctx, prices: map<CurrencyPair, int>, o: OracleState)
    ensures WrittenUpTo(ctx, prices, o, o, 0)
  {
  }

  lemma WrittenNext(ctx: Ctx, prices: map<CurrencyPair, int>, before: OracleState, now: OracleState, n: nat)
    requires Consistent(before) && n < |before.all| && WrittenUpTo(ctx, prices, before, now, n)
    ensures var cp := before.all[n];
            && cp in now.pairs
            && WrittenUpTo(ctx, prices, before,
                           if !Writable(prices, cp) then now
                           else now.(pairs := now.pairs[cp := now.pairs[cp].(nonce := now.pairs[cp].nonce + 1, price := Some(QuoteOf(ctx, prices[cp])))]),
                           n + 1)
  {
    var cp := before.all[n];
    assert cp !in before.all[..n];
    assert forall cp' :: cp' in before.all[..n + 1] <==> cp' in before.all[..n] || cp' == cp;
  }

  lemma AllWritten(ctx: Ctx, prices: map<CurrencyPair, int>, before: OracleState, now: OracleState)
    requires Consistent(before) && WrittenUpTo(ctx, prices, before, now, |before.all|)
    ensures now == StateWritten(ctx, before, prices)
  {
    hide PairWritten;
    assert before.all[..|before.all|] == before.all;
    assert now.pairs == StateWritten(ctx, before, prices).pairs;
  }

  datatype ApplyError = VotesMissing(e: HandlerError) | AggregationPanic | ConversionPanic

  class PriceApplier {
    const va: VoteAggregator
    const ok: Keeper
    const codec: CommitCodec

    constructor (va: VoteAggregator, ok: Keeper, codec: CommitCodec)
      ensures this.va == va && this.ok == ok && this.codec == codec
    {
      this.va, this.ok, this.codec := va, ok, codec;
    }

    /** Writes the aggregated prices pair by pair, in the keeper's listing order, until one does not fit. */
    method WritePrices(ctx: Ctx, prices: map<CurrencyPair, int>) returns (panicked: bool)
      requires Consistent(ok.state)
      modifies ok
      ensures panicked <==> SomeUnrepresentable(old(ok.state), prices)
      ensures !panicked ==> ok.state == StateWritten(ctx, old(ok.state), prices)
      ensures exists n :: 0 <= n <= |old(ok.state).all| && WrittenUpTo(ctx, prices, old(ok.state), ok.state, n)
    {
      hide Unrepresentable, WrittenUpTo, PairWritten;
      ghost var before := ok.state;
      var currencyPairs := ok.state.all;
      NothingWritten(ctx, prices, before);
      var i := 0;
      while i < |currencyPairs|
        invariant 0 <= i <= |currencyPairs|
        invariant ok.state.pairs.Keys == before.pairs.Keys && WrittenUpTo(ctx, prices, before, ok.state, i)
        invariant forall k :: 0 <= k < i && currencyPairs[k] in prices ==> !Unrepresentable(prices[currencyPairs[k]])
      {
        var cp := currencyPairs[i];
        WrittenNext(ctx, prices, before, ok.state, i);
        if cp in prices && prices[cp] < 0 {
          Representable(prices, cp);
        }
        if cp in prices && prices[cp] >= 0 && Unrepresentable(prices[cp]) {
          return true;
        }
        i := i + 1;
        if cp !in prices || prices[cp] < 0 {
          continue;
        }
        ok.SetPriceForCurrencyPair(cp, QuotePrice(prices[cp], ctx.blockTime, ctx.height % TWO_TO_THE_64));
      }
      AllWritten(ctx, prices, before, ok.state);
      panicked := false;
    }

    /**
     Decodes the votes of the proposal, aggregates them and writes the prices.  After an error the oracle state is
     what it was; only a panic while writing leaves it half written.
     */
    method ApplyPricesFromVoteExtensions(ctx: Ctx, txs: seq<Tx>, stake: StakeStore)
      returns (r: Result<map<CurrencyPair, int>, ApplyError>, ghost orders: seq<seq<uint64>>, ghost order: seq<string>)
      requires ctx.oracle == ok.state && Consistent(ok.state)
      modifies ok, va.strategy, va.priceAggregator
      ensures r.Failure? && r.error != ConversionPanic ==> ok.state == old(ok.state)
      ensures r.Success? ==> ok.state == StateWritten(ctx, old(ok.state), r.value)
      ensures OracleVotes(codec, txs).Failure? ==>
        && r == Failure(VotesMissing(OracleVotes(codec, txs).error))
        && va.strategy.Contents() == old(va.strategy.Contents())
        && va.priceAggregator.providerData == old(va.priceAggregator.providerData)
      ensures OracleVotes(codec, txs).Success? ==>
        var votes := OracleVotes(codec, txs).value;
        && OrdersFor(votes, orders)
        && (var (caches, data) := AfterVotes(va.strategy.kind, old(va.strategy.Contents()), ctx, va.addrString, votes, orders);
            && IsOrder(order, data.Keys)
            && (va.strategy.Contents(), va.priceAggregator.providerData) == (caches, data)
            && match MedianPrices(order, data, stake, va.threshold)
               case None => r == Failure(AggregationPanic)
               case Some(prices) =>
                 && r == (if SomeUnrepresentable(old(ok.state), prices) then Failure(ConversionPanic) else Success(prices))
                 && exists n :: 0 <= n <= |old(ok.state).all| && WrittenUpTo(ctx, prices, old(ok.state), ok.state, n))
    {
      hide OracleVotes, AfterVotes, MedianPrices, StateWritten, SomeUnrepresentable, WrittenUpTo;
      orders, order := [], [];
      var votes := GetOracleVotes(codec, txs);
      if votes.Failure? {
        return Failure(VotesMissing(votes.error)), orders, order;
      }
      var prices;
      prices, orders, order := va.AggregateOracleVotes(ctx, votes.value, stake);
      if prices.None? {
        return Failure(AggregationPanic), orders, order;
      }
      var panicked := WritePrices(ctx, prices.value);
      r := if panicked then Failure(ConversionPanic) else Success(prices.value);
    }
  }
}

/**
 Extending and verifying votes (abci/ve/vote_extension.go).  Parsing of pair names and of decimal numbers are
 parameters; the oracle's answer is a map from names to numbers, ranged over in an arbitrary order.
 */
module VoteExtensionHandler {
  import opened Varint
  import opened Wrappers
  import opened Abci
  import opened Orders
  import opened GobInt
  import opened Commit
  import opened CurrencyPairStrategy
  import opened VoteExtensionWire
  import opened Proposals
  import opened StakeWeightedPrices
  import opened VoteAggregation
  import opened OraclePipeline
  import VoteExtension

  /** CurrencyPairFromString and big.Int.SetString. */
  datatype Parsers = Parsers(pair: string -> Option<CurrencyPair>, number: string -> Option<int>)

  type OraclePrices = map<string, string>

  predicate Parses(parse: Parsers, name: string, price: string) {
    parse.pair(name).Some? && parse.number(price).Some?
  }

  /** One entry of the oracle's answer: unknown pairs and negative prices are left out. */
  function AfterEntry(kind: Kind, c: Caches, ctx: Ctx, cp: CurrencyPair, rawPrice: int, prices: Prices): (Caches, Prices) {
    var (c1, id) := AfterID(kind, c, ctx, cp);
    if id.Failure? then (c1, prices)
    else
      var (c2, encoded) := AfterEncode(kind, c1, ctx, cp, rawPrice);
      (c2, if encoded.Failure? then prices else prices[id.value := encoded.value])
  }

  function AfterEntries(kind: Kind, c: Caches, ctx: Ctx, parse: Parsers, answer: OraclePrices, order: seq<string>): (Caches, Prices)
    requires forall name <- order :: name in answer && Parses(parse, name, answer[name])
  {
    if order == [] then (c, map[]) else
    var n := |order| - 1;
    assert Parses(parse, order[n], answer[order[n]]);
    var (c', prices) := AfterEntries(kind, c, ctx, parse, answer, order[..n]);
    AfterEntry(kind, c', ctx, parse.pair(order[n]).value, parse.number(answer[order[n]]).value, prices)
  }

  predicate AcceptsExtension(ctx: Ctx, extension: GoBytes) {
    |extension| == 0 ||
    var decoded := Unmarshal(extension);
    decoded.Decoded? && ValidOracleExtension(ctx, decoded.prices)
  }

  class Handler {
    const strategy: Strategy
    const parse: Parsers
    const priceApplier: PriceApplier

    constructor (strategy: Strategy, parse: Parsers, priceApplier: PriceApplier)
      ensures this.strategy == strategy && this.parse == parse && this.priceApplier == priceApplier
    {
      this.strategy, this.parse, this.priceApplier := strategy, parse, priceApplier;
    }

    /** Fails exactly when some entry does not parse. */
    method TransformOracleServicePrices(ctx: Ctx, answer: OraclePrices) returns (r: Option<Prices>, ghost order: seq<string>)
      modifies strategy
      ensures r.None? <==> exists name :: name in answer && !Parses(parse, name, answer[name])
      ensures r.Some? ==> IsOrder(order, answer.Keys)
      ensures forall name <- order :: name in answer && Parses(parse, name, answer[name])
      ensures var (caches, prices) := AfterEntries(strategy.kind, old(strategy.Contents()), ctx, parse, answer, order);
              strategy.Contents() == caches && (r.Some? ==> r.value == prices)
    {
      hide AfterID, AfterEncode;
      var strategyPrices: Prices := map[];
      order := [];
      var todo := answer.Keys;
      while todo != {}
        invariant todo <= answer.Keys
        invariant IsOrder(order, answer.Keys - todo)
        invariant forall name <- answer :: name !in todo ==> Parses(parse, name, answer[name])
        invariant (strategy.Contents(), strategyPrices) == AfterEntries(strategy.kind, old(strategy.Contents()), ctx, parse, answer, order)
      {
        var currencyPairID :| currencyPairID in todo;
        var cp := parse.pair(currencyPairID);
        if cp.None? {
          return None, order;
        }
        var rawPrice := parse.number(answer[currencyPairID]);
        if rawPrice.None? {
          return None, order;
        }
        OrderExtends(order, answer.Keys, todo, currencyPairID);
        assert (order + [currencyPairID])[..|order|] == order;
        order := order + [currencyPairID];
        todo := todo - {currencyPairID};
        var cpID := strategy.ID(ctx, cp.value);
        if cpID.Failure? {
          continue;
        }
        var encodedPrice := strategy.GetEncodedPrice(ctx, cp.value, rawPrice.value);
        if encodedPrice.Failure? {
          continue;
        }
        strategyPrices := strategyPrices[cpID.value := encodedPrice.value];
      }
      r := Some(strategyPrices);
    }

    /**
     ExtendVote up to the encoding: the prices of the current proposal are applied first, and the extension is built in
     the state this leaves.  None stands for the empty extension that every failure, even a panic, falls back to.
     */
    method ExtendVote(ctx: Ctx, txs: seq<Tx>, stake: StakeStore, answer: Option<OraclePrices>)
      returns (r: Option<Prices>, ghost applied: Caches, ghost order: seq<string>)
      requires Ready(priceApplier, ctx)
      modifies strategy, priceApplier.ok, priceApplier.va.strategy, priceApplier.va.priceAggregator
      ensures var outcome := ApplyOutcome(ChainOf(priceApplier), ctx, txs, stake);
        && (r.Some? <==> outcome.Success? && answer.Some? && forall name <- answer.value :: Parses(parse, name, answer.value[name]))
        && (outcome.Success? ==> priceApplier.ok.state == StateWritten(ctx, ctx.oracle, outcome.value))
        && (outcome.Failure? && outcome.error != ConversionPanic ==> priceApplier.ok.state == ctx.oracle)
        && (strategy != priceApplier.va.strategy ==> applied == old(strategy.Contents()))
        && (strategy == priceApplier.va.strategy ==> Sound(strategy.kind, applied, ctx))
        && (outcome.Failure? || answer.None? ==> strategy.Contents() == applied)
        && (outcome.Success? && answer.Some? ==>
              && (forall name <- order :: name in answer.value && Parses(parse, name, answer.value[name]))
              && (r.Some? ==> IsOrder(order, answer.value.Keys))
              && var (caches, prices) := AfterEntries(strategy.kind, applied, ctx.(oracle := StateWritten(ctx, ctx.oracle, outcome.value)),
                                                      parse, answer.value, order);
                 strategy.Contents() == caches && (r.Some? ==> r.value == prices))
    {
      hide AfterEntries, StateWritten, ApplyOutcome;
      order := [];
      var outcome := ApplyVotes(priceApplier, ctx, txs, stake);
      applied := strategy.Contents();
      if outcome.Failure? || answer.None? {
        return None, applied, order;
      }
      r, order := TransformOracleServicePrices(ctx.(oracle := priceApplier.ok.state), answer.value);
    }

    /** An empty extension is accepted; any other has to decode and to respect the limits. */
    method VerifyVoteExtension(ctx: Ctx, extension: GoBytes) returns (accept: bool)
      ensures accept <==> AcceptsExtension(ctx, extension)
    {
      if |extension| == 0 {
        return true;
      }
      var voteExtension := new VoteExtension.OracleVoteExtension();
      var err := voteExtension.Unmarshal(extension);
      if err.Some? {
        return false;
      }
      accept := ValidateOracleVoteExtension(ctx, voteExtension.Prices, strategy);
    }
  }

  // ---------------------------------------------------------------- what is extended is verified

  /** The IDs of the pairs on chain. */
  function ChainIds(kind: Kind, o: OracleState): set<uint64> {
    set cp | cp in o.pairs :: IdOf(kind, o, cp)
  }

  lemma {:induction false} IdsAtMostPairs(kind: Kind, o: OracleState, cps: set<CurrencyPair>)
    requires cps <= o.pairs.Keys
    ensures |set cp | cp in cps :: IdOf(kind, o, cp)| <= |cps|
  {
    if cps != {} {
      var cp :| cp in cps;
      IdsAtMostPairs(kind, o, cps - {cp});
      var all, rest := set cp' | cp' in cps :: IdOf(kind, o, cp'), set cp' | cp' in cps - {cp} :: IdOf(kind, o, cp');
      assert all == rest + {IdOf(kind, o, cp)};
    }
  }

  /** The price a delta is taken against, zero for the strategies that send prices as they are. */
  function EncodingBase(kind: Kind, c: Caches, ctx: Ctx, cp: CurrencyPair): int {
    if kind == Delta && BasePrice(c, ctx, cp).Success? then BasePrice(c, ctx, cp).value else 0
  }

  /** The answer gives this price for the pair. */
  predicate Answers(parse: Parsers, answer: OraclePrices, name: string, cp: CurrencyPair, price: int) {
    name in answer && parse.pair(name) == Some(cp) && parse.number(answer[name]) == Some(price) && price >= 0
  }

  /** Every price of the answer that is sent, for a pair on chain, is sent as a magnitude below 2^256. */
  ghost predicate SmallEnough(kind: Kind, c: Caches, ctx: Ctx, parse: Parsers, answer: OraclePrices) {
    forall name, cp, p :: Answers(parse, answer, name, cp, p) && cp in ctx.oracle.pairs ==>
      Magnitude(p - EncodingBase(kind, c, ctx, cp)) < Pow256(32)
  }

  /** The base of a pair stays the same while other entries are processed. */
  lemma BaseStays(kind: Kind, c: Caches, ctx: Ctx, cp: CurrencyPair, rawPrice: int, prices: Prices, cp': CurrencyPair)
    ensures EncodingBase(kind, AfterEntry(kind, c, ctx, cp, rawPrice, prices).0, ctx, cp') == EncodingBase(kind, c, ctx, cp')
  {
    hide IdOf, GobEncode;
    if kind != Delta {
      assert EncodingBase(kind, c, ctx, cp') == 0;
    }
  }

  lemma EntryWithinLimits(kind: Kind, c: Caches, ctx: Ctx, cp: CurrencyPair, rawPrice: int, prices: Prices)
    requires cp in ctx.oracle.pairs && rawPrice >= 0 ==> Magnitude(rawPrice - EncodingBase(kind, c, ctx, cp)) < Pow256(32)
    requires prices.Keys <= ChainIds(kind, ctx.oracle) && forall id <- prices :: |prices[id]| <= MAXIMUM_PRICE_SIZE
    ensures var prices' := AfterEntry(kind, c, ctx, cp, rawPrice, prices).1;
            prices'.Keys <= ChainIds(kind, ctx.oracle) && forall id <- prices' :: |prices'[id]| <= MAXIMUM_PRICE_SIZE
  {
    hide Pow256, GobEncode, IdOf;
    GobLength(rawPrice - EncodingBase(kind, c, ctx, cp), 33);
  }

  lemma {:induction false} BasesStay(kind: Kind, c: Caches, ctx: Ctx, parse: Parsers, answer: OraclePrices, order: seq<string>, cp: CurrencyPair)
    requires forall name <- order :: name in answer && Parses(parse, name, answer[name])
    ensures EncodingBase(kind, AfterEntries(kind, c, ctx, parse, answer, order).0, ctx, cp) == EncodingBase(kind, c, ctx, cp)
  {
    hide AfterEntry, EncodingBase;
    if order != [] {
      var n := |order| - 1;
      assert Parses(parse, order[n], answer[order[n]]);
      BasesStay(kind, c, ctx, parse, answer, order[..n], cp);
      var (c', prices) := AfterEntries(kind, c, ctx, parse, answer, order[..n]);
      BaseStays(kind, c', ctx, parse.pair(order[n]).value, parse.number(answer[order[n]]).value, prices, cp);
    }
  }

  lemma {:induction false} EntriesWithinLimits(kind: Kind, c: Caches, ctx: Ctx, parse: Parsers, answer: OraclePrices, order: seq<string>)
    requires forall name <- order :: name in answer && Parses(parse, name, answer[name])
    requires SmallEnough(kind, c, ctx, parse, answer)
    ensures var prices := AfterEntries(kind, c, ctx, parse, answer, order).1;
            prices.Keys <= ChainIds(kind, ctx.oracle) && forall id <- prices :: |prices[id]| <= MAXIMUM_PRICE_SIZE
  {
    hide AfterEntry, EncodingBase, Pow256, ChainIds;
    if order != [] {
      var n := |order| - 1;
      var name := order[n];
      EntriesWithinLimits(kind, c, ctx, parse, answer, order[..n]);
      var (c', prices) := AfterEntries(kind, c, ctx, parse, answer, order[..n]);
      assert Parses(parse, name, answer[name]);
      var cp, rawPrice := parse.pair(name).value, parse.number(answer[name]).value;
      BasesStay(kind, c, ctx, parse, answer, order[..n], cp);
      assert rawPrice >= 0 ==> Answers(parse, answer, name, cp, rawPrice);
      EntryWithinLimits(kind, c', ctx, cp, rawPrice, prices);
    }
  }

  /**
   Extend/Verify coherence: an extension built from the oracle's answer, in whatever order, is accepted in every context whose
   counter of pairs is the number of pairs of the extender, when the prices are sent as magnitudes below 2^256.
   */
  lemma ExtendedIsAccepted(kind: Kind, c: Caches, ctx: Ctx, ctx': Ctx, parse: Parsers, answer: OraclePrices, order: seq<string>, wireOrder: seq<uint64>)
    requires ctx'.mode == OtherMode && ctx'.oracle.numPairs == Some(|ctx.oracle.pairs|)
    requires forall name <- order :: name in answer && Parses(parse, name, answer[name])
    requires SmallEnough(kind, c, ctx, parse, answer)
    requires var prices := AfterEntries(kind, c, ctx, parse, answer, order).1;
             IsOrder(wireOrder, prices.Keys) && |Encoded(wireOrder, prices)| < TWO_TO_THE_63
    ensures AcceptsExtension(ctx', Encoded(wireOrder, AfterEntries(kind, c, ctx, parse, answer, order).1))
  {
    hide AfterEntries, Unmarshal, Encoded, SmallEnough, IdOf;
    var prices := AfterEntries(kind, c, ctx, parse, answer, order).1;
    EntriesWithinLimits(kind, c, ctx, parse, answer, order);
    RoundTrip(wireOrder, prices);
    FewIds(kind, ctx.oracle, prices);
  }

  /** An encoded extension is accepted exactly when it carries no more pairs than allowed and no price over 33 bytes. */
  lemma AcceptedExactly(ctx: Ctx, prices: Prices, wireOrder: seq<uint64>)
    requires IsOrder(wireOrder, prices.Keys) && |Encoded(wireOrder, prices)| < TWO_TO_THE_63
    ensures AcceptsExtension(ctx, Encoded(wireOrder, prices)) <==> prices == map[] || ValidOracleExtension(ctx, prices)
  {
    hide Unmarshal, ValidOracleExtension;
    RoundTrip(wireOrder, prices);
    OrderLength(wireOrder, prices.Keys);
    assert |prices| == |prices.Keys|;
    if wireOrder != [] {
      assert |Encoded(wireOrder, prices)| > 0;
    }
  }

  // ---------------------------------------------------------------- what the oracle answers is what the chain counts

  /** No two names of the answer are the same pair. */
  ghost predicate DistinctPairs(parse: Parsers, answer: OraclePrices) {
    forall n1, n2 :: n1 in answer && n2 in answer && parse.pair(n1).Some? && parse.pair(n1) == parse.pair(n2) ==> n1 == n2
  }

  lemma EntryAdds(kind: Kind, c: Caches, ctx: Ctx, cp: CurrencyPair, rawPrice: int, prices: Prices)
    ensures AfterEntry(kind, c, ctx, cp, rawPrice, prices).1
            == if cp in ctx.oracle.pairs && rawPrice >= 0
               then prices[IdOf(kind, ctx.oracle, cp) := GobEncode(rawPrice - EncodingBase(kind, c, ctx, cp))] else prices
  {
    hide IdOf, GobEncode;
  }

  /** The extension holds a pair's ID exactly when a visited name gives a price for it, and then its encoding. */
  lemma {:induction false} EntriesHold(kind: Kind, c: Caches, ctx: Ctx, parse: Parsers, answer: OraclePrices, order: seq<string>, cp: CurrencyPair)
    requires forall name <- order :: name in answer && Parses(parse, name, answer[name])
    requires forall i, j :: 0 <= i < j < |order| ==> order[i] != order[j]
    requires Unambiguous(kind, ctx.oracle) && DistinctPairs(parse, answer) && cp in ctx.oracle.pairs
    ensures var built, id := AfterEntries(kind, c, ctx, parse, answer, order).1, IdOf(kind, ctx.oracle, cp);
            && (forall name, p :: name in order && Answers(parse, answer, name, cp, p)
                  ==> id in built && built[id] == GobEncode(p - EncodingBase(kind, c, ctx, cp)))
            && (id in built ==> exists name, p :: name in order && Answers(parse, answer, name, cp, p))
  {
    hide AfterEntry, EncodingBase, IdOf, GobEncode;
    if order != [] {
      var n := |order| - 1;
      var name := order[n];
      assert Parses(parse, name, answer[name]);
      assert order == order[..n] + [name];
      EntriesHold(kind, c, ctx, parse, answer, order[..n], cp);
      var (c', prices) := AfterEntries(kind, c, ctx, parse, answer, order[..n]);
      var cp', rawPrice := parse.pair(name).value, parse.number(answer[name]).value;
      BasesStay(kind, c, ctx, parse, answer, order[..n], cp);
      EntryAdds(kind, c', ctx, cp', rawPrice, prices);
      if cp' == cp && rawPrice >= 0 {
        assert Answers(parse, answer, name, cp, rawPrice);
      }
    }
  }

  /**
   Extend/Verify coherence, exactly: when no two names of the answer are the same pair, an extension built from it is accepted if and
   only if every price it sends is a magnitude below 2^256.
   */
  lemma ExtendedIsAcceptedExactly(kind: Kind, c: Caches, ctx: Ctx, ctx': Ctx, parse: Parsers, answer: OraclePrices, order: seq<string>, wireOrder: seq<uint64>)
    requires ctx'.mode == OtherMode && ctx'.oracle.numPairs == Some(|ctx.oracle.pairs|)
    requires IsOrder(order, answer.Keys) && forall name <- order :: Parses(parse, name, answer[name])
    requires Unambiguous(kind, ctx.oracle) && DistinctPairs(parse, answer)
    requires var prices := AfterEntries(kind, c, ctx, parse, answer, order).1;
             IsOrder(wireOrder, prices.Keys) && |Encoded(wireOrder, prices)| < TWO_TO_THE_63
    ensures AcceptsExtension(ctx', Encoded(wireOrder, AfterEntries(kind, c, ctx, parse, answer, order).1))
            <==> SmallEnough(kind, c, ctx, parse, answer)
  {
    hide AfterEntries, Encoded, AcceptsExtension, IdOf, EncodingBase, Pow256, GobEncode;
    if SmallEnough(kind, c, ctx, parse, answer) {
      ExtendedIsAccepted(kind, c, ctx, ctx', parse, answer, order, wireOrder);
    } else {
      var name, cp, p :| Answers(parse, answer, name, cp, p) && cp in ctx.oracle.pairs
                         && Magnitude(p - EncodingBase(kind, c, ctx, cp)) >= Pow256(32);
      var prices := AfterEntries(kind, c, ctx, parse, answer, order).1;
      EntriesHold(kind, c, ctx, parse, answer, order, cp);
      assert name in order;
      assert |prices[IdOf(kind, ctx.oracle, cp)]| > MAXIMUM_PRICE_SIZE by {
        GobLength(p - EncodingBase(kind, c, ctx, cp), 33);
      }
      AcceptedExactly(ctx', prices, wireOrder);
    }
  }

  /** An encoder whose caches are sound measures deltas against the price on chain. */
  lemma SoundBase(kind: Kind, c: Caches, ctx: Ctx, cp: CurrencyPair)
    requires Sound(kind, c, ctx) && cp in ctx.oracle.pairs
    ensures kind == Delta ==> KeeperPrice(ctx.oracle, cp) == Success(EncodingBase(kind, c, ctx, cp))
    ensures kind != Delta ==> EncodingBase(kind, c, ctx, cp) == 0
  {
    hide SoundState, Names;
  }

  /** The price that an entry for a pair is added to, on the counting side. */
  function DecodingBase(kind: Kind, o: OracleState, cp: CurrencyPair): int {
    if kind == Delta && KeeperPrice(o, cp).Success? then KeeperPrice(o, cp).value else 0
  }

  /** The answer gives this price for the pair, under some name. */
  ghost predicate AnswersFor(parse: Parsers, answer: OraclePrices, cp: CurrencyPair, price: int) {
    exists name :: Answers(parse, answer, name, cp, price)
  }

  /** How far the price decoded lies above the price encoded. */
  function Drift(kind: Kind, c: Caches, ctx: Ctx, o: OracleState, cp: CurrencyPair): int {
    DecodingBase(kind, o, cp) - EncodingBase(kind, c, ctx, cp)
  }

  lemma EncodedIsReported(kind: Kind, o: OracleState, cp: CurrencyPair, delta: int)
    requires cp in o.pairs
    ensures EntryPrice(kind, o, cp, GobEncode(delta))
            == if |GobEncode(delta)| <= MAXIMUM_PRICE_SIZE && delta + DecodingBase(kind, o, cp) >= 0
               then Some(delta + DecodingBase(kind, o, cp)) else None
  {
    GobRoundTrip(delta);
    hide GobEncode, GobDecode;
  }

  /**
   From the oracle to the chain, whatever the caches of the encoder and the prices on either side: the vote reports a price for a pair
   exactly when that price, less the drift between the two bases, is the oracle's, it is not negative, and the entry fits 33 bytes.
   */
  lemma ExtendedIsShifted(kind: Kind, c: Caches, ctx: Ctx, o: OracleState, parse: Parsers, answer: OraclePrices, order: seq<string>,
                          cp: CurrencyPair, price: int)
    requires IsOrder(order, answer.Keys) && forall name <- order :: Parses(parse, name, answer[name])
    requires Unambiguous(kind, ctx.oracle) && DistinctPairs(parse, answer)
    requires cp in o.pairs && cp in ctx.oracle.pairs && IdOf(kind, o, cp) == IdOf(kind, ctx.oracle, cp)
    ensures ReportedPrice(kind, o, AfterEntries(kind, c, ctx, parse, answer, order).1, cp) == Some(price)
            <==> AnswersFor(parse, answer, cp, price - Drift(kind, c, ctx, o, cp))
                 && price >= 0 && |GobEncode(price - DecodingBase(kind, o, cp))| <= MAXIMUM_PRICE_SIZE
  {
    hide AfterEntries, EncodingBase, DecodingBase, GobEncode, EntryPrice, IdOf;
    EntriesHold(kind, c, ctx, parse, answer, order, cp);
    var built, id, base := AfterEntries(kind, c, ctx, parse, answer, order).1, IdOf(kind, o, cp), EncodingBase(kind, c, ctx, cp);
    if id in built {
      var name, p :| name in order && Answers(parse, answer, name, cp, p);
      EncodedIsReported(kind, o, cp, p - base);
    }
  }

  /**
   From the oracle to the chain: when both sides measure against the same price, the vote reports a price for a pair exactly when the
   oracle's answer gave it and its entry fits 33 bytes, whatever the iteration order and for every strategy; when they do not, it
   never reports the price that was answered.
   */
  lemma ExtendedIsReported(kind: Kind, c: Caches, ctx: Ctx, o: OracleState, parse: Parsers, answer: OraclePrices, order: seq<string>,
                           cp: CurrencyPair, price: int)
    requires IsOrder(order, answer.Keys) && forall name <- order :: Parses(parse, name, answer[name])
    requires Unambiguous(kind, ctx.oracle) && DistinctPairs(parse, answer)
    requires cp in o.pairs && cp in ctx.oracle.pairs && IdOf(kind, o, cp) == IdOf(kind, ctx.oracle, cp)
    ensures var reported := ReportedPrice(kind, o, AfterEntries(kind, c, ctx, parse, answer, order).1, cp) == Some(price);
            if Drift(kind, c, ctx, o, cp) == 0
            then reported <==> AnswersFor(parse, answer, cp, price) && |GobEncode(price - EncodingBase(kind, c, ctx, cp))| <= MAXIMUM_PRICE_SIZE
            else !(reported && AnswersFor(parse, answer, cp, price))
  {
    hide AfterEntries, EncodingBase, DecodingBase, GobEncode, ReportedPrice, IdOf;
    ExtendedIsShifted(kind, c, ctx, o, parse, answer, order, cp, price);
  }

  /** An encoder with sound caches, and votes counted in a state with the same price of the pair, measure against the same price. */
  lemma SoundHasNoDrift(kind: Kind, c: Caches, ctx: Ctx, o: OracleState, cp: CurrencyPair)
    requires Sound(kind, c, ctx) && cp in ctx.oracle.pairs && KeeperPrice(o, cp) == KeeperPrice(ctx.oracle, cp)
    ensures Drift(kind, c, ctx, o, cp) == 0 && Unambiguous(kind, ctx.oracle)
  {
    hide EncodingBase, KeeperPrice;
    SoundBase(kind, c, ctx, cp);
    assert Unambiguous(kind, ctx.oracle) by { SoundIsUnambiguous(kind, c, ctx); }
  }

  lemma SoundIsUnambiguous(kind: Kind, c: Caches, ctx: Ctx)
    requires Sound(kind, c, ctx)
    ensures Unambiguous(kind, ctx.oracle)
  {
  }

  /** How a validator built an extension: its caches and context, the oracle's answer, and the order it was visited in. */
  datatype Extending = Extending(c: Caches, ctx: Ctx, parse: Parsers, answer: OraclePrices, order: seq<string>)

  /** The extension was built like this, in a state that knows the pair under the ID it has in state o. */
  ghost predicate BuiltBy(kind: Kind, o: OracleState, extension: Prices, cp: CurrencyPair, e: Extending) {
    && IsOrder(e.order, e.answer.Keys) && (forall name <- e.order :: Parses(e.parse, name, e.answer[name]))
    && Unambiguous(kind, e.ctx.oracle) && DistinctPairs(e.parse, e.answer)
    && cp in e.ctx.oracle.pairs && (cp in o.pairs ==> IdOf(kind, o, cp) == IdOf(kind, e.ctx.oracle, cp))
    && extension == AfterEntries(kind, e.c, e.ctx, e.parse, e.answer, e.order).1
  }

  /** Every honest vote is empty, or was built from the answer of its validator's oracle. */
  ghost predicate HonestVotes(kind: Kind, o: OracleState, votes: seq<Vote>, honest: set<GoBytes>, cp: CurrencyPair, built: GoBytes -> Extending) {
    forall i :: 0 <= i < |votes| && votes[i].consAddress in honest && votes[i].oracleVoteExtension != map[]
      ==> BuiltBy(kind, o, votes[i].oracleVoteExtension, cp, built(votes[i].consAddress))
  }

  /** An honest validator's oracle answered this price for the pair. */
  ghost predicate AnsweredBy(honest: set<GoBytes>, built: GoBytes -> Extending, cp: CurrencyPair, a: GoBytes, price: int) {
    a in honest && AnswersFor(built(a).parse, built(a).answer, cp, price)
  }

  /** How far the price counted for a validator lies above the one its oracle answered. */
  function DriftOf(kind: Kind, o: OracleState, cp: CurrencyPair, e: Extending): int {
    Drift(kind, e.c, e.ctx, o, cp)
  }

  lemma HonestVoteAnswers(kind: Kind, o: OracleState, votes: seq<Vote>, honest: set<GoBytes>, cp: CurrencyPair, built: GoBytes -> Extending, i: nat)
    requires HonestVotes(kind, o, votes, honest, cp, built)
    requires i < |votes| && votes[i].consAddress in honest && PriceOfVote(kind, o, votes, i, cp).Some?
    ensures var a := votes[i].consAddress;
            AnsweredBy(honest, built, cp, a, PriceOfVote(kind, o, votes, i, cp).value - DriftOf(kind, o, cp, built(a)))
  {
    hide Drift, AfterEntries, EncodingBase, IdOf, GobEncode, EntryPrice;
    var e, price := built(votes[i].consAddress), PriceOfVote(kind, o, votes, i, cp).value;
    assert votes[i].oracleVoteExtension != map[] && cp in o.pairs;
    ExtendedIsShifted(kind, e.c, e.ctx, o, e.parse, e.answer, e.order, cp, price);
  }

  /** A proposal that the commit check accepts, honest votes built from their oracles' answers, and a safe dishonest minority for the pair. */
  ghost predicate HonestlyPriced(chain: Chain, store: ValidatorStore, ctx: Ctx, txs: seq<Tx>, stake: StakeStore, honest: set<GoBytes>,
                                 built: GoBytes -> Extending, cp: CurrencyPair) {
    && VoteExtensionsEnabled(ctx) && ProposalAccepted(chain.codec, store, ctx, txs) && Injective(chain.addrString)
    && ApplyOutcome(chain, ctx, txs, stake).Success? && cp in ApplyOutcome(chain, ctx, txs, stake).value
    && HonestVotes(chain.kind, ctx.oracle, OracleVotes(chain.codec, txs).value, honest, cp, built)
    && DishonestMinority(chain, ctx.oracle, OracleVotes(chain.codec, txs).value, stake, honest, cp)
  }

  /**
   The whole way, from the oracles to the published price, whatever the encoders had cached: the price of a pair lies between two
   prices that the oracles of honest validators answered, each moved by the drift of its validator.
   */
  lemma PublishedWithinDrift(chain: Chain, store: ValidatorStore, ctx: Ctx, txs: seq<Tx>, stake: StakeStore, honest: set<GoBytes>,
                             built: GoBytes -> Extending, cp: CurrencyPair)
    requires HonestlyPriced(chain, store, ctx, txs, stake, honest, built, cp)
    ensures var p := ApplyOutcome(chain, ctx, txs, stake).value[cp];
            && (exists a, q :: AnsweredBy(honest, built, cp, a, q) && q + DriftOf(chain.kind, ctx.oracle, cp, built(a)) <= p)
            && (exists a, q :: AnsweredBy(honest, built, cp, a, q) && p <= q + DriftOf(chain.kind, ctx.oracle, cp, built(a)))
  {
    hide OracleVotes, BlockPrices, HonestVotes, DishonestMinority, PriceOfVote, AnsweredBy, ProposalAccepted, SomeUnrepresentable, DriftOf;
    BlockSafety(chain, store, ctx, txs, stake, honest, cp);
    var votes, p := OracleVotes(chain.codec, txs).value, ApplyOutcome(chain, ctx, txs, stake).value[cp];
    var i: nat :| i < |votes| && votes[i].consAddress in honest
                  && PriceOfVote(chain.kind, ctx.oracle, votes, i, cp).Some? && PriceOfVote(chain.kind, ctx.oracle, votes, i, cp).value <= p;
    var j: nat :| j < |votes| && votes[j].consAddress in honest
                  && PriceOfVote(chain.kind, ctx.oracle, votes, j, cp).Some? && p <= PriceOfVote(chain.kind, ctx.oracle, votes, j, cp).value;
    HonestVoteAnswers(chain.kind, ctx.oracle, votes, honest, cp, built, i);
    HonestVoteAnswers(chain.kind, ctx.oracle, votes, honest, cp, built, j);
  }

  /** Where the honest validators measured against the price on chain, it lies between two prices that their oracles answered. */
  lemma PublishedWithinAnswers(chain: Chain, store: ValidatorStore, ctx: Ctx, txs: seq<Tx>, stake: StakeStore, honest: set<GoBytes>,
                               built: GoBytes -> Extending, cp: CurrencyPair)
    requires HonestlyPriced(chain, store, ctx, txs, stake, honest, built, cp)
    requires forall a <- honest :: DriftOf(chain.kind, ctx.oracle, cp, built(a)) == 0
    ensures var p := ApplyOutcome(chain, ctx, txs, stake).value[cp];
            && (exists a, q :: AnsweredBy(honest, built, cp, a, q) && q <= p)
            && (exists a, q :: AnsweredBy(honest, built, cp, a, q) && p <= q)
  {
    hide HonestlyPriced, ApplyOutcome, AnswersFor, DriftOf;
    assert ApplyOutcome(chain, ctx, txs, stake).Success? && cp in ApplyOutcome(chain, ctx, txs, stake).value by {
      PricedHonestly(chain, store, ctx, txs, stake, honest, built, cp);
    }
    PublishedWithinDrift(chain, store, ctx, txs, stake, honest, built, cp);
  }

  lemma PricedHonestly(chain: Chain, store: ValidatorStore, ctx: Ctx, txs: seq<Tx>, stake: StakeStore, honest: set<GoBytes>,
                       built: GoBytes -> Extending, cp: CurrencyPair)
    requires HonestlyPriced(chain, store, ctx, txs, stake, honest, built, cp)
    ensures ApplyOutcome(chain, ctx, txs, stake).Success? && cp in ApplyOutcome(chain, ctx, txs, stake).value
  {
  }

  // ---------------------------------------------------------------- one vote, from the oracle to the other validators

  /** Prices of at most 33 bytes take at most 48 bytes an entry. */
  lemma {:induction false} SmallPricesSize(prices: Prices)
    requires forall id <- prices :: |prices[id]| <= MAXIMUM_PRICE_SIZE
    ensures TotalSize(prices) <= 48 * |prices|
    decreases |prices|
  {
    if prices != map[] {
      var id := Pick(prices.Keys);
      SmallerWithout(prices, id);
      SmallPricesSize(prices - {id});
      SmallEntrySize(id, prices[id]);
    }
  }

  lemma FewIds(kind: Kind, o: OracleState, prices: Prices)
    requires prices.Keys <= ChainIds(kind, o)
    ensures |prices| <= |o.pairs|
  {
    IdsAtMostPairs(kind, o, o.pairs.Keys);
    assert ChainIds(kind, o) == set cp | cp in o.pairs.Keys :: IdOf(kind, o, cp);
    SubsetSize(prices.Keys, ChainIds(kind, o));
    assert |prices| == |prices.Keys|;
  }

  /**
   A validator extends its vote and another one verifies the encoded extension, in the state before the block's prices are
   written: it is accepted, whatever the oracle answered in prices that are sent as magnitudes below 2^256.
   */
  method ExtendThenVerify(extender: Handler, verifier: Handler, ctx: Ctx, txs: seq<Tx>, stake: StakeStore, answer: Option<OraclePrices>)
    returns (accept: bool)
    requires Ready(extender.priceApplier, ctx) && extender.strategy != extender.priceApplier.va.strategy
    requires ctx.mode == OtherMode && |ctx.oracle.pairs| < 0x100_0000_0000 && ctx.oracle.numPairs == Some(|ctx.oracle.pairs|)
    requires answer.Some? && ApplyOutcome(ChainOf(extender.priceApplier), ctx, txs, stake).Success? ==>
      SmallEnough(extender.strategy.kind, extender.strategy.Contents(),
                  ctx.(oracle := StateWritten(ctx, ctx.oracle, ApplyOutcome(ChainOf(extender.priceApplier), ctx, txs, stake).value)),
                  extender.parse, answer.value)
    modifies extender.strategy, extender.priceApplier.ok, extender.priceApplier.va.strategy, extender.priceApplier.va.priceAggregator
    ensures accept
  {
    hide AfterEntries, ApplyOutcome, SmallEnough, Ready, AcceptsExtension, Encoded, TotalSize, IdOf;
    ghost var kind, caches := extender.strategy.kind, extender.strategy.Contents();
    ghost var outcome := ApplyOutcome(ChainOf(extender.priceApplier), ctx, txs, stake);
    ghost var applied, order;
    var prices;
    prices, applied, order := extender.ExtendVote(ctx, txs, stake, answer);
    var extension: GoBytes := [];
    if prices.Some? {
      ghost var written := ctx.(oracle := StateWritten(ctx, ctx.oracle, outcome.value));
      EntriesWithinLimits(kind, caches, written, extender.parse, answer.value, order);
      SmallPricesSize(prices.value);
      FewIds(kind, written.oracle, prices.value);
      assert written.oracle.pairs.Keys == ctx.oracle.pairs.Keys;
      assert |written.oracle.pairs| == |ctx.oracle.pairs| by {
        assert |written.oracle.pairs| == |written.oracle.pairs.Keys| && |ctx.oracle.pairs| == |ctx.oracle.pairs.Keys|;
      }
      var ve := new VoteExtension.OracleVoteExtension();
      ve.Prices := prices.value;
      var bz, wireOrder := ve.Marshal();
      EncodedSize(wireOrder, prices.value);
      extension := bz[..];
      ExtendedIsAccepted(kind, caches, written, ctx, extender.parse, answer.value, order, wireOrder);
    } else {
      EmptyAccepted(ctx);
    }
    accept := verifier.VerifyVoteExtension(ctx, extension);
  }

  lemma EmptyAccepted(ctx: Ctx)
    ensures AcceptsExtension(ctx, [])
  {
  }

  // ---------------------------------------------------------------- verification, spelled out

  /** Outside proposals: no bytes, or an extension that decodes to at most as many entries as there are pairs, of at most 33 bytes each. */
  lemma VerifiedExactly(ctx: Ctx, extension: GoBytes)
    requires ctx.mode == OtherMode
    ensures AcceptsExtension(ctx, extension)
            <==> extension == [] || (ctx.oracle.numPairs.Some? && DecodesWithin(extension, ctx.oracle.numPairs.value))
  {
    hide UnmarshalFrom;
  }
}

/**
 What a block publishes, in terms of its votes, and what a run of blocks leaves of a pair, in terms of what its blocks published.
 */
module PublishedPrices {
  import opened Varint
  import opened Wrappers
  import opened Abci
  import opened Orders
  import opened Commit
  import opened CurrencyPairStrategy
  import opened VoteExtensionWire
  import opened GobInt
  import opened PriceThreshold
  import opened StakeWeightedPrices
  import opened Proposals
  import opened VoteAggregation
  import opened OraclePipeline

  // ---------------------------------------------------------------- the prices of a block

  /** The tokens of the voters that report the pair at a price of at most the limit (any price for None). */
  function VoteTokens(chain: Chain, o: OracleState, votes: seq<Vote>, stake: StakeStore, cp: CurrencyPair, limit: Option<int>): nat {
    if votes == [] then 0 else
    var n := |votes| - 1;
    var price, tokens := PriceOfVote(chain.kind, o, votes, n, cp), stake.tokens(chain.addrString(votes[n].consAddress));
    VoteTokens(chain, o, votes[..n], stake, cp, limit) +
    if price.Some? && tokens.Some? && (limit.Some? ==> price.value <= limit.value) then tokens.value else 0
  }

  /** A voter with known tokens reports the pair at p. */
  ghost predicate VotedFor(chain: Chain, o: OracleState, votes: seq<Vote>, stake: StakeStore, cp: CurrencyPair, p: int) {
    exists i :: 0 <= i < |votes| && PriceOfVote(chain.kind, o, votes, i, cp) == Some(p) && stake.tokens(chain.addrString(votes[i].consAddress)).Some?
  }

  /** The voters that report the pair hold 0.667 of the bonded tokens, as precisely as 18-digit decimals tell. */
  predicate EnoughVoted(chain: Chain, o: OracleState, votes: seq<Vote>, stake: StakeStore, cp: CurrencyPair) {
    2_000_000_000_000_000_000 * VoteTokens(chain, o, votes, stake, cp, None) >= 1_333_999_999_999_999_999 * stake.totalBonded
  }

  /** p is the least price voted for such that voters for at most p hold half of the reporting tokens, rounded down. */
  ghost predicate VotedMedian(chain: Chain, o: OracleState, votes: seq<Vote>, stake: StakeStore, cp: CurrencyPair, p: int) {
    var half := VoteTokens(chain, o, votes, stake, cp, None) / 2;
    && VotedFor(chain, o, votes, stake, cp, p)
    && VoteTokens(chain, o, votes, stake, cp, Some(p)) >= half
    && forall q :: q < p && VotedFor(chain, o, votes, stake, cp, q) ==> VoteTokens(chain, o, votes, stake, cp, Some(q)) < half
  }

  /** The addresses of the non-empty votes. */
  function Voters(chain: Chain, votes: seq<Vote>): seq<string> {
    if votes == [] then [] else
    var n := |votes| - 1;
    Voters(chain, votes[..n]) + if votes[n].oracleVoteExtension == map[] then [] else [chain.addrString(votes[n].consAddress)]
  }

  lemma {:induction false} VoterHasVote(chain: Chain, votes: seq<Vote>, a: string) returns (i: nat)
    requires a in Voters(chain, votes)
    ensures i < |votes| && votes[i].oracleVoteExtension != map[] && a == chain.addrString(votes[i].consAddress)
  {
    var n := |votes| - 1;
    if a in Voters(chain, votes[..n]) {
      i := VoterHasVote(chain, votes[..n], a);
    } else {
      i := n;
    }
  }

  lemma {:induction false} VotersAreOrder(chain: Chain, o: OracleState, votes: seq<Vote>)
    requires Injective(chain.addrString) && DistinctVoters(votes)
    ensures IsOrder(Voters(chain, votes), ChainProviders(chain.kind, o, chain.addrString, votes).Keys)
  {
    hide ChainReport;
    if votes != [] {
      var n := |votes| - 1;
      VotersAreOrder(chain, o, votes[..n]);
      var a := chain.addrString(votes[n].consAddress);
      assert forall v <- votes[..n] :: v.consAddress != votes[n].consAddress;
      if a in Voters(chain, votes[..n]) {
        var i := VoterHasVote(chain, votes[..n], a);
        assert false;
      }
    }
  }

  /** The tokens of the first k votes, counted by address. */
  lemma {:induction false} TokensOfVotes(chain: Chain, o: OracleState, votes: seq<Vote>, k: nat, stake: StakeStore, cp: CurrencyPair, limit: Option<int>)
    requires Injective(chain.addrString) && DistinctVoters(votes) && k <= |votes|
    ensures Tokens(Voters(chain, votes[..k]), ChainProviders(chain.kind, o, chain.addrString, votes), stake, cp, limit)
            == VoteTokens(chain, o, votes[..k], stake, cp, limit)
  {
    hide ChainProviders, ReportedPrice;
    if k > 0 {
      var n := k - 1;
      var data := ChainProviders(chain.kind, o, chain.addrString, votes);
      assert votes[..k][..n] == votes[..n] && votes[..k][n] == votes[n];
      TokensOfVotes(chain, o, votes, n, stake, cp, limit);
      var a := chain.addrString(votes[n].consAddress);
      assert PriceOfVote(chain.kind, o, votes[..k], n, cp) == PriceOfVote(chain.kind, o, votes, n, cp);
      if votes[n].oracleVoteExtension == map[] {
        NothingReported(chain.kind, o, cp);
        assert Voters(chain, votes[..k]) == Voters(chain, votes[..n]);
      } else {
        VoteIsProvider(chain.kind, o, chain.addrString, votes, n);
        ReportOfPair(chain.kind, o, votes[n].oracleVoteExtension, cp);
        TokensAppend(Voters(chain, votes[..n]), a, data, stake, cp, limit);
        assert [a][1..] == [];
      }
    }
  }

  lemma NothingReported(kind: Kind, o: OracleState, cp: CurrencyPair)
    ensures ReportedPrice(kind, o, map[], cp) == None
  {
  }

  lemma ReportOfPair(kind: Kind, o: OracleState, prices: Prices, cp: CurrencyPair)
    ensures cp in ChainReport(kind, o, prices) <==> ReportedPrice(kind, o, prices, cp).Some?
    ensures cp in ChainReport(kind, o, prices) ==> ChainReport(kind, o, prices)[cp] == ReportedPrice(kind, o, prices, cp)
  {
    hide ReportedPrice;
    if ReportedPrice(kind, o, prices, cp).Some? {
      ReportedIsOnChain(kind, o, prices, cp);
    }
  }

  lemma VotedForReported(chain: Chain, o: OracleState, votes: seq<Vote>, stake: StakeStore, cp: CurrencyPair, p: int)
    requires Injective(chain.addrString) && DistinctVoters(votes)
    ensures VotedFor(chain, o, votes, stake, cp, p)
            <==> ReportedAt(Voters(chain, votes), ChainProviders(chain.kind, o, chain.addrString, votes), stake, cp, p)
  {
    hide ChainProviders, ReportedPrice, Voters;
    var data, order := ChainProviders(chain.kind, o, chain.addrString, votes), Voters(chain, votes);
    VotersAreOrder(chain, o, votes);
    if VotedFor(chain, o, votes, stake, cp, p) {
      var i :| 0 <= i < |votes| && PriceOfVote(chain.kind, o, votes, i, cp) == Some(p) && stake.tokens(chain.addrString(votes[i].consAddress)).Some?;
      PricedIsSpoken(chain.kind, o, votes, i, cp);
      VoteIsProvider(chain.kind, o, chain.addrString, votes, i);
      ReportOfPair(chain.kind, o, votes[i].oracleVoteExtension, cp);
      assert chain.addrString(votes[i].consAddress) in order;
    }
    if ReportedAt(order, data, stake, cp, p) {
      var a :| a in order && a in data && cp in data[a] && data[a][cp] == Some(p) && stake.tokens(a).Some?;
      var i := VoteBehind(chain, o, votes, a, cp);
    }
  }

  /**
   Completeness and soundness of what a block publishes: exactly the pairs enough of the stake voted for, each at the median of the
   votes in tokens.
   */
  lemma PublishedByVotes(chain: Chain, o: OracleState, votes: seq<Vote>, stake: StakeStore, cp: CurrencyPair)
    requires Injective(chain.addrString) && DistinctVoters(votes) && stake.totalBonded > 0
    ensures var prices := BlockPrices(chain, o, votes, stake);
            && prices.Some?
            && (cp in prices.value <==> EnoughVoted(chain, o, votes, stake, cp))
            && (cp in prices.value ==> VotedMedian(chain, o, votes, stake, cp, prices.value[cp]))
  {
    hide ChainProviders, BlockPrices, MedianPrices, Voters, Tokens, VoteTokens, ReportedAt, VotedFor;
    var data, order := ChainProviders(chain.kind, o, chain.addrString, votes), Voters(chain, votes);
    VotersAreOrder(chain, o, votes);
    BlockPricesForOrder(chain, o, votes, stake, order);
    PublishedByTokens(order, data, stake, cp);
    assert votes[..|votes|] == votes;
    forall limit ensures Tokens(order, data, stake, cp, limit) == VoteTokens(chain, o, votes, stake, cp, limit) {
      TokensOfVotes(chain, o, votes, |votes|, stake, cp, limit);
    }
    forall p ensures VotedFor(chain, o, votes, stake, cp, p) <==> ReportedAt(order, data, stake, cp, p) {
      VotedForReported(chain, o, votes, stake, cp, p);
    }
  }

  // ---------------------------------------------------------------- the state after a block

  /**
   What a block writes: when extensions are enabled and the votes give prices, each pair with a price that is not negative, also one
   that never had a price, gets this price stamped with the block's time and height and the next nonce; everything else stays.
   Otherwise nothing changes at all.
   */
  lemma BlockWrites(chain: Chain, ctx: Ctx, txs: seq<Tx>, stake: StakeStore)
    ensures var o, o', outcome := ctx.oracle, AfterBlock(chain, ctx, txs, stake), ApplyOutcome(chain, ctx, txs, stake);
            if VoteExtensionsEnabled(ctx) && outcome.Success? then
              && o'.pairs.Keys == o.pairs.Keys
              && (o'.byId, o'.all, o'.nextId, o'.numPairs, o'.numRemoved) == (o.byId, o.all, o.nextId, o.numPairs, o.numRemoved)
              && forall cp <- o.pairs ::
                   o'.pairs[cp] == if cp in outcome.value && outcome.value[cp] >= 0
                                   then PairState(o.pairs[cp].id, o.pairs[cp].nonce + 1,
                                                  Some(QuotePrice(outcome.value[cp], ctx.blockTime, ctx.height % 0x1_0000_0000_0000_0000)))
                                   else o.pairs[cp]
            else o' == o
  {
    hide ApplyOutcome;
  }

  /** The votes give prices exactly when they can be extracted and no price that would be published exceeds 256 bits. */
  lemma OutcomeExactly(chain: Chain, ctx: Ctx, txs: seq<Tx>, stake: StakeStore)
    requires Injective(chain.addrString) && stake.totalBonded > 0
    requires OracleVotes(chain.codec, txs).Success? ==> DistinctVoters(OracleVotes(chain.codec, txs).value)
    ensures ApplyOutcome(chain, ctx, txs, stake).Success?
            <==> && OracleVotes(chain.codec, txs).Success?
                 && var votes := OracleVotes(chain.codec, txs).value;
                    forall cp, p :: EnoughVoted(chain, ctx.oracle, votes, stake, cp) && VotedMedian(chain, ctx.oracle, votes, stake, cp, p)
                      ==> p < Pow256(32)
  {
    hide OracleVotes, BlockPrices, EnoughVoted, VotedMedian, Pow256;
    if OracleVotes(chain.codec, txs).Success? {
      var votes := OracleVotes(chain.codec, txs).value;
      forall cp
        ensures BlockPrices(chain, ctx.oracle, votes, stake).Some?
        ensures var prices := BlockPrices(chain, ctx.oracle, votes, stake).value;
                && (cp in prices <==> EnoughVoted(chain, ctx.oracle, votes, stake, cp))
                && (cp in prices ==> cp in ctx.oracle.pairs && forall p :: VotedMedian(chain, ctx.oracle, votes, stake, cp, p) <==> p == prices[cp])
      {
        PublishedByVotes(chain, ctx.oracle, votes, stake, cp);
        var prices := BlockPrices(chain, ctx.oracle, votes, stake).value;
        if cp in prices {
          PricesComeFromVotes(chain, ctx.oracle, votes, stake, {}, cp);
          forall p | VotedMedian(chain, ctx.oracle, votes, stake, cp, p) ensures p == prices[cp] {
            VotedMedianUnique(chain, ctx.oracle, votes, stake, cp, p, prices[cp]);
          }
        }
      }
      PublishedByVotes(chain, ctx.oracle, votes, stake, CurrencyPair("", ""));
      var prices := BlockPrices(chain, ctx.oracle, votes, stake).value;
      if SomeUnrepresentable(ctx.oracle, prices) {
        var cp :| cp in ctx.oracle.pairs && cp in prices && Unrepresentable(prices[cp]);
        assert EnoughVoted(chain, ctx.oracle, votes, stake, cp) && VotedMedian(chain, ctx.oracle, votes, stake, cp, prices[cp]);
      } else {
        assert forall cp :: cp in ctx.oracle.pairs && cp in prices ==> !Unrepresentable(prices[cp]);
      }
    }
  }

  lemma VotedMedianUnique(chain: Chain, o: OracleState, votes: seq<Vote>, stake: StakeStore, cp: CurrencyPair, p: int, q: int)
    requires VotedMedian(chain, o, votes, stake, cp, p) && VotedMedian(chain, o, votes, stake, cp, q)
    ensures p == q
  {
    hide VoteTokens, VotedFor;
  }

  /**
   From the votes to the state: after a block whose votes give prices, a pair that enough of the stake voted for has the median of the
   votes as its price and the next nonce, and every other pair is as it was.
   */
  lemma VotesSetPrices(chain: Chain, ctx: Ctx, txs: seq<Tx>, stake: StakeStore, cp: CurrencyPair)
    requires VoteExtensionsEnabled(ctx) && ApplyOutcome(chain, ctx, txs, stake).Success?
    requires Injective(chain.addrString) && stake.totalBonded > 0 && DistinctVoters(OracleVotes(chain.codec, txs).value)
    ensures var o, o', votes := ctx.oracle, AfterBlock(chain, ctx, txs, stake), OracleVotes(chain.codec, txs).value;
            && (EnoughVoted(chain, o, votes, stake, cp) ==>
                  && cp in o.pairs && cp in o'.pairs
                  && o'.pairs[cp].nonce == o.pairs[cp].nonce + 1
                  && o'.pairs[cp].price.Some?
                  && o'.pairs[cp].price.value.blockTimestamp == ctx.blockTime
                  && o'.pairs[cp].price.value.blockHeight == ctx.height % 0x1_0000_0000_0000_0000
                  && VotedMedian(chain, o, votes, stake, cp, o'.pairs[cp].price.value.price))
            && (!EnoughVoted(chain, o, votes, stake, cp) && cp in o.pairs ==> cp in o'.pairs && o'.pairs[cp] == o.pairs[cp])
  {
    hide OracleVotes, BlockPrices, EnoughVoted, VotedMedian, AfterBlock, SomeUnrepresentable;
    var votes := OracleVotes(chain.codec, txs).value;
    BlockWrites(chain, ctx, txs, stake);
    PublishedByVotes(chain, ctx.oracle, votes, stake, cp);
    if EnoughVoted(chain, ctx.oracle, votes, stake, cp) {
      PricesComeFromVotes(chain, ctx.oracle, votes, stake, {}, cp);
    }
  }

  // ---------------------------------------------------------------- the state after a run

  /** The quote that a block, executed in state o, publishes for a pair: none, or one. */
  ghost function Publication(chain: Chain, o: OracleState, b: Block, cp: CurrencyPair): seq<QuotePrice> {
    var ctx := b.ctx.(oracle := o);
    var outcome := ApplyOutcome(chain, ctx, b.txs, b.stake);
    if VoteExtensionsEnabled(ctx) && outcome.Success? && cp in outcome.value && outcome.value[cp] >= 0
    then [QuotePrice(outcome.value[cp], b.ctx.blockTime, b.ctx.height % 0x1_0000_0000_0000_0000)] else []
  }

  /** What the blocks of a run publish for a pair, oldest first. */
  ghost function Publications(chain: Chain, o: OracleState, blocks: seq<Block>, cp: CurrencyPair): seq<QuotePrice> {
    if blocks == [] then [] else
    var n := |blocks| - 1;
    Publications(chain, o, blocks[..n], cp) + Publication(chain, StateAfter(chain, o, blocks[..n]), blocks[n], cp)
  }

  /**
   Every run, exactly: the nonce of a pair has counted its publications, its price is the last one or, without any, the original one, and
   no block adds, removes or renumbers pairs.
   */
  lemma {:induction false} RunPublishes(chain: Chain, o: OracleState, blocks: seq<Block>)
    ensures var o' := StateAfter(chain, o, blocks);
            && o'.pairs.Keys == o.pairs.Keys
            && (o'.byId, o'.all, o'.nextId, o'.numPairs, o'.numRemoved) == (o.byId, o.all, o.nextId, o.numPairs, o.numRemoved)
            && forall cp <- o.pairs ::
                 var quotes := Publications(chain, o, blocks, cp);
                 o'.pairs[cp] == PairState(o.pairs[cp].id, o.pairs[cp].nonce + |quotes|,
                                           if quotes == [] then o.pairs[cp].price else Some(quotes[|quotes| - 1]))
  {
    hide AfterBlock, ApplyOutcome, VoteExtensionsEnabled;
    if blocks != [] {
      var n := |blocks| - 1;
      var before := StateAfter(chain, o, blocks[..n]);
      RunPublishes(chain, o, blocks[..n]);
      BlockWrites(chain, blocks[n].ctx.(oracle := before), blocks[n].txs, blocks[n].stake);
      assert blocks[n].ctx.(oracle := before).height == blocks[n].ctx.height;
    }
  }
}

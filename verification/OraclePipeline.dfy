/**
 A block from the proposal to the oracle state, and runs of blocks.

 The proposal is accepted by ProcessProposal, PreBlock decodes, aggregates and writes; the theorems say what the written prices
 are in terms of the extensions that validators signed, whoever proposed the block.
 */
module OraclePipeline {
  import opened Varint
  import opened Wrappers
  import opened Abci
  import opened Orders
  import opened Commit
  import opened CurrencyPairStrategy
  import opened VoteExtensionWire
  import opened PriceThreshold
  import opened GobInt
  import opened WeightedMedian
  import opened StakeWeightedPrices
  import opened Proposals
  import opened VoteAggregation

  /** Address strings tell addresses apart. */
  ghost predicate Injective(addrString: GoBytes -> string) {
    forall a, b :: addrString(a) == addrString(b) ==> a == b
  }

  ghost predicate DistinctVoters(votes: seq<Vote>) {
    forall i, j :: 0 <= i < j < |votes| ==> votes[i].consAddress != votes[j].consAddress
  }

  /** With distinct voters, the data holds the report of every non-empty extension. */
  lemma {:induction false} VoteIsProvider(kind: Kind, o: OracleState, addrString: GoBytes -> string, votes: seq<Vote>, i: nat)
    requires Injective(addrString) && DistinctVoters(votes)
    requires i < |votes| && votes[i].oracleVoteExtension != map[]
    ensures addrString(votes[i].consAddress) in ChainProviders(kind, o, addrString, votes)
    ensures ChainProviders(kind, o, addrString, votes)[addrString(votes[i].consAddress)] == ChainReport(kind, o, votes[i].oracleVoteExtension)
  {
    hide ChainReport;
    var n := |votes| - 1;
    if i < n {
      assert votes[..n][i] == votes[i];
      VoteIsProvider(kind, o, addrString, votes[..n], i);
      assert votes[i].consAddress != votes[n].consAddress;
    }
  }

  /** The data holds nothing else. */
  lemma {:induction false} ProviderHasVote(kind: Kind, o: OracleState, addrString: GoBytes -> string, votes: seq<Vote>, a: string) returns (i: nat)
    requires a in ChainProviders(kind, o, addrString, votes)
    ensures i < |votes| && votes[i].oracleVoteExtension != map[] && a == addrString(votes[i].consAddress)
  {
    hide ChainReport;
    var n := |votes| - 1;
    if a in ChainProviders(kind, o, addrString, votes[..n]) {
      i := ProviderHasVote(kind, o, addrString, votes[..n], a);
    } else {
      i := n;
    }
  }

  /** The price that the i-th vote reports for a pair, by the chain state. */
  function PriceOfVote(kind: Kind, o: OracleState, votes: seq<Vote>, i: nat, cp: CurrencyPair): Option<int>
    requires i < |votes|
  {
    ReportedPrice(kind, o, votes[i].oracleVoteExtension, cp)
  }

  /** An entry of the data comes from a vote. */
  lemma ReportOfVote(kind: Kind, o: OracleState, addrString: GoBytes -> string, votes: seq<Vote>, a: string, cp: CurrencyPair)
    requires Injective(addrString) && DistinctVoters(votes)
    requires a in ChainProviders(kind, o, addrString, votes)
    requires cp in Priced(ChainProviders(kind, o, addrString, votes)[a])
    ensures cp in o.pairs
    ensures exists i :: 0 <= i < |votes| && a == addrString(votes[i].consAddress)
                        && PriceOfVote(kind, o, votes, i, cp) == ChainProviders(kind, o, addrString, votes)[a][cp]
  {
  }

  /** A decoded price is never negative. */
  lemma ReportedPriceSign(kind: Kind, o: OracleState, prices: Prices, cp: CurrencyPair)
    ensures ReportedPrice(kind, o, prices, cp).Some? ==> ReportedPrice(kind, o, prices, cp).value >= 0
  {
  }

  // ---------------------------------------------------------------- one block

  /** What a chain fixes: strategy, codec, address strings. */
  datatype Chain = Chain(kind: Kind, codec: CommitCodec, addrString: GoBytes -> string)

  /** The aggregated prices of a block: the same on every node, by MedianDeterministic and VotesSound. */
  ghost function BlockPrices(chain: Chain, o: OracleState, votes: seq<Vote>, stake: StakeStore): Option<map<CurrencyPair, int>> {
    var data := ChainProviders(chain.kind, o, chain.addrString, votes);
    SomeOrder(data.Keys);
    var order :| IsOrder(order, data.Keys);
    MedianPrices(order, data, stake, DEFAULT_POWER_THRESHOLD)
  }

  lemma BlockPricesForOrder(chain: Chain, o: OracleState, votes: seq<Vote>, stake: StakeStore, order: seq<string>)
    requires IsOrder(order, ChainProviders(chain.kind, o, chain.addrString, votes).Keys)
    ensures BlockPrices(chain, o, votes, stake)
            == MedianPrices(order, ChainProviders(chain.kind, o, chain.addrString, votes), stake, DEFAULT_POWER_THRESHOLD)
  {
    hide ChainProviders, MedianPrices;
    var data := ChainProviders(chain.kind, o, chain.addrString, votes);
    forall order' | IsOrder(order', data.Keys)
      ensures MedianPrices(order', data, stake, DEFAULT_POWER_THRESHOLD) == MedianPrices(order, data, stake, DEFAULT_POWER_THRESHOLD)
    {
      MedianDeterministic(order', order, data, stake, DEFAULT_POWER_THRESHOLD);
    }
  }

  /** What applying the votes of a proposal comes to: the prices to write, or why there are none. */
  ghost function ApplyOutcome(chain: Chain, ctx: Ctx, txs: seq<Tx>, stake: StakeStore): Result<map<CurrencyPair, int>, ApplyError> {
    match OracleVotes(chain.codec, txs)
    case Failure(e) => Failure(VotesMissing(e))
    case Success(votes) =>
      match BlockPrices(chain, ctx.oracle, votes, stake)
      case None => Failure(AggregationPanic)
      case Some(prices) => if SomeUnrepresentable(ctx.oracle, prices) then Failure(ConversionPanic) else Success(prices)
  }

  /** The oracle state after a block: one whose votes cannot be used, or that panics, leaves nothing behind. */
  ghost function AfterBlock(chain: Chain, ctx: Ctx, txs: seq<Tx>, stake: StakeStore): OracleState {
    var outcome := ApplyOutcome(chain, ctx, txs, stake);
    if VoteExtensionsEnabled(ctx) && outcome.Success? then StateWritten(ctx, ctx.oracle, outcome.value) else ctx.oracle
  }

  function ChainOf(pa: PriceApplier): Chain {
    Chain(pa.va.strategy.kind, pa.codec, pa.va.addrString)
  }

  /** A price applier as the application sets it up, on a node whose caches are sound. */
  ghost predicate Ready(pa: PriceApplier, ctx: Ctx)
    reads pa.ok, pa.va.strategy
  {
    && ctx.oracle == pa.ok.state
    && pa.va.threshold == DEFAULT_POWER_THRESHOLD
    && Sound(pa.va.strategy.kind, pa.va.strategy.Contents(), ctx)
  }

  /** Applying the votes gives the same outcome on every node, whatever its caches and iteration orders. */
  method ApplyVotes(pa: PriceApplier, ctx: Ctx, txs: seq<Tx>, stake: StakeStore) returns (r: Result<map<CurrencyPair, int>, ApplyError>)
    requires Ready(pa, ctx)
    modifies pa.ok, pa.va.strategy, pa.va.priceAggregator
    ensures r == ApplyOutcome(ChainOf(pa), ctx, txs, stake)
    ensures r.Success? ==> pa.ok.state == StateWritten(ctx, ctx.oracle, r.value)
    ensures r.Failure? && r.error != ConversionPanic ==> pa.ok.state == ctx.oracle
    ensures Sound(pa.va.strategy.kind, pa.va.strategy.Contents(), ctx)
    ensures forall height :: CachedUpTo(old(pa.va.strategy.Contents()), height) && ctx.height <= height
              ==> CachedUpTo(pa.va.strategy.Contents(), height)
  {
    hide OracleVotes, StateWritten, ChainProviders, AfterVotes, BlockPrices, MedianPrices, SoundState, Agrees, Names, SomeUnrepresentable, WrittenUpTo;
    ghost var chain, caches := ChainOf(pa), pa.va.strategy.Contents();
    assert Consistent(pa.ok.state) by { SoundIsConsistent(chain.kind, caches, ctx); }
    ghost var orders, order;
    r, orders, order := pa.ApplyPricesFromVoteExtensions(ctx, txs, stake);
    if OracleVotes(pa.codec, txs).Success? {
      ghost var votes := OracleVotes(pa.codec, txs).value;
      VotesSound(chain.kind, caches, ctx, chain.addrString, votes, orders);
      BlockPricesForOrder(chain, ctx.oracle, votes, stake, order);
      forall height | CachedUpTo(caches, height) && ctx.height <= height
        ensures CachedUpTo(pa.va.strategy.Contents(), height)
      {
        VotesCachedUpTo(chain.kind, caches, ctx, chain.addrString, votes, orders, height);
      }
    }
  }

  /** PreBlock computes AfterBlock, whatever sound caches the node's strategy object holds. */
  method PreBlock(pa: PriceApplier, ctx: Ctx, txs: seq<Tx>, stake: StakeStore) returns (err: Option<ApplyError>)
    requires Ready(pa, ctx)
    modifies pa.ok, pa.va.strategy, pa.va.priceAggregator
    ensures err != Some(ConversionPanic) ==> pa.ok.state == AfterBlock(ChainOf(pa), ctx, txs, stake)
    ensures err.Some? <==> VoteExtensionsEnabled(ctx) && ApplyOutcome(ChainOf(pa), ctx, txs, stake).Failure?
    ensures err.Some? ==> err.value == ApplyOutcome(ChainOf(pa), ctx, txs, stake).error
    ensures forall height :: CachedUpTo(old(pa.va.strategy.Contents()), height) && ctx.height <= height
              ==> CachedUpTo(pa.va.strategy.Contents(), height)
  {
    hide ApplyOutcome, StateWritten, CachedUpTo;
    if !VoteExtensionsEnabled(ctx) {
      return None;
    }
    var prices := ApplyVotes(pa, ctx, txs, stake);
    err := match prices case Success(_) => None case Failure(e) => Some(e);
  }

  lemma SoundIsConsistent(kind: Kind, c: Caches, ctx: Ctx)
    requires Sound(kind, c, ctx)
    ensures Consistent(ctx.oracle)
  {
  }

  // ---------------------------------------------------------------- prices fit the state's integers

  /** What an entry can decode to: 256 bits, on top of the price on chain for the delta strategy. */
  lemma EntryPriceBound(kind: Kind, o: OracleState, cp: CurrencyPair, b: bytes)
    requires EntryPrice(kind, o, cp, b).Some?
    ensures kind != Delta ==> !Unrepresentable(EntryPrice(kind, o, cp, b).value)
    ensures kind == Delta ==>
              KeeperPrice(o, cp).Success? && !Unrepresentable(EntryPrice(kind, o, cp, b).value - KeeperPrice(o, cp).value)
  {
    hide KeeperPrice, GobDecode, Pow256;
    if b == [] {
      EmptyIsZero();
      Pow256Positive(32);
    } else {
      DecodedMagnitude(b, 33);
    }
  }

  lemma EmptyIsZero()
    ensures GobDecode([]) == Success(0)
  {
  }

  /** The highest price that can be sent, measured against no price or a positive one. */
  lemma HighestEntry(o: OracleState, cp: CurrencyPair)
    requires KeeperPrice(o, cp).Success? && KeeperPrice(o, cp).value > 0
    ensures var b := GobEncode(Pow256(32) - 1);
            && |b| <= MAXIMUM_PRICE_SIZE
            && EntryPrice(Delta, o, cp, b) == Some(Pow256(32) - 1 + KeeperPrice(o, cp).value)
            && Unrepresentable(EntryPrice(Delta, o, cp, b).value)
  {
    hide KeeperPrice, Pow256, GobEncode, GobDecode;
    Pow256Positive(32);
    GobRoundTrip(Pow256(32) - 1);
    GobLength(Pow256(32) - 1, 33);
  }

  /** Under the delta strategy some acceptable entry for a pair exceeds 256 bits exactly when the pair has a positive price on chain. */
  lemma DeltaEntriesFitExactly(o: OracleState, cp: CurrencyPair)
    requires KeeperPrice(o, cp).Success?
    ensures (forall b: bytes :: EntryPrice(Delta, o, cp, b).Some? ==> !Unrepresentable(EntryPrice(Delta, o, cp, b).value))
            <==> KeeperPrice(o, cp).value <= 0
  {
    hide KeeperPrice, EntryPrice;
    if KeeperPrice(o, cp).value > 0 {
      HighestEntry(o, cp);
    } else {
      forall b: bytes | EntryPrice(Delta, o, cp, b).Some?
        ensures !Unrepresentable(EntryPrice(Delta, o, cp, b).value)
      {
        EntryPriceBound(Delta, o, cp, b);
      }
    }
  }

  /** Every strategy: a pair's entries all fit, unless it is sent as a delta on a positive price. */
  predicate EntriesFit(kind: Kind, o: OracleState, cp: CurrencyPair) {
    kind != Delta || (KeeperPrice(o, cp).Success? ==> KeeperPrice(o, cp).value <= 0)
  }

  lemma EntryFits(kind: Kind, o: OracleState, cp: CurrencyPair, b: bytes)
    requires EntriesFit(kind, o, cp) && EntryPrice(kind, o, cp, b).Some?
    ensures !Unrepresentable(EntryPrice(kind, o, cp, b).value)
  {
    hide KeeperPrice, EntryPrice;
    EntryPriceBound(kind, o, cp, b);
  }

  /** A validator that holds all the bonded tokens sets the price. */
  lemma OneVoteSetsPrice(chain: Chain, o: OracleState, vote: Vote, stake: StakeStore, cp: CurrencyPair, price: int)
    requires vote.oracleVoteExtension != map[] && ReportedPrice(chain.kind, o, vote.oracleVoteExtension, cp) == Some(price)
    requires stake.totalBonded > 0 && stake.tokens(chain.addrString(vote.consAddress)) == Some(stake.totalBonded)
    ensures BlockPrices(chain, o, [vote], stake).Some?
    ensures cp in BlockPrices(chain, o, [vote], stake).value
    ensures BlockPrices(chain, o, [vote], stake).value[cp] == price
  {
    hide ReportedPrice, PercentSubmitted, BlockPrices;
    var a := chain.addrString(vote.consAddress);
    var data := ChainProviders(chain.kind, o, chain.addrString, [vote]);
    var report := ChainReport(chain.kind, o, vote.oracleVoteExtension);
    assert [vote][..0] == [];
    assert ChainProviders(chain.kind, o, chain.addrString, []) == map[];
    assert data == map[][a := report] == map[a := report];
    assert cp in report by { ReportedIsOnChain(chain.kind, o, vote.oracleVoteExtension, cp); }
    OneProviderSetsPrice(a, report, stake, cp, price);
    BlockPricesForOrder(chain, o, [vote], stake, [a]);
  }

  lemma ReportedIsOnChain(kind: Kind, o: OracleState, prices: Prices, cp: CurrencyPair)
    requires ReportedPrice(kind, o, prices, cp).Some?
    ensures cp in o.pairs
  {
  }

  lemma OneReport(e: PricePerValidator)
    ensures Total([e]) == e.voteWeight && MedianOf([e]) == e.price
  {
    TotalStep([e], 0);
    assert [e][..1] == [e];
  }

  lemma OneProviderSetsPrice(a: string, report: Report, stake: StakeStore, cp: CurrencyPair, price: int)
    requires cp in report && report[cp] == Some(price)
    requires stake.totalBonded > 0 && stake.tokens(a) == Some(stake.totalBonded)
    ensures IsOrder([a], map[a := report].Keys)
    ensures var prices := MedianPrices([a], map[a := report], stake, DEFAULT_POWER_THRESHOLD);
            prices.Some? && cp in prices.value && prices.value[cp] == price
  {
    hide PercentSubmitted;
    var data := map[a := report];
    var e := PricePerValidator(stake.totalBonded, price);
    assert [a][..0] == [];
    assert ReportsFor([a], data, stake, cp) == [e];
    hide ReportsFor, PairsFor, SumBy;
    OneReport(e);
    PairsHaveReports([a], data, stake, cp);
    ThresholdExactly(stake.totalBonded, stake.totalBonded);
  }

  /** Every price of a block fits when those of the votes for its pairs do. */
  lemma BlockFits(chain: Chain, o: OracleState, votes: seq<Vote>, stake: StakeStore)
    requires Injective(chain.addrString) && DistinctVoters(votes)
    requires forall cp <- o.pairs :: EntriesFit(chain.kind, o, cp)
    requires BlockPrices(chain, o, votes, stake).Some?
    ensures !SomeUnrepresentable(o, BlockPrices(chain, o, votes, stake).value)
  {
    hide BlockPrices, EntryPrice, Unrepresentable, EntriesFit;
    var prices := BlockPrices(chain, o, votes, stake).value;
    forall cp | cp in o.pairs && cp in prices
      ensures !Unrepresentable(prices[cp])
    {
      PricesComeFromVotes(chain, o, votes, stake, {}, cp);
      var i :| 0 <= i < |votes| && PriceOfVote(chain.kind, o, votes, i, cp) == Some(prices[cp]);
      EntryFits(chain.kind, o, cp, votes[i].oracleVoteExtension[IdOf(chain.kind, o, cp)]);
    }
  }

  /** The commit of one validator at address a, whose extension reports the highest delta for a pair. */
  function HighestCommit(round: int, a: GoBytes, signature: GoBytes, id: uint64): ExtendedCommit {
    HighestDeltaSize(id);
    var extension: GoBytes := EntryBytes(id, GobEncode(Pow256(32) - 1));
    ExtendedCommit(round, [ExtendedVote(Validator(a, 1), Some(extension), Some(signature), FLAG_COMMIT)])
  }

  lemma HighestDeltaSize(id: uint64)
    ensures |GobEncode(Pow256(32) - 1)| <= MAXIMUM_PRICE_SIZE
    ensures |EntryBytes(id, GobEncode(Pow256(32) - 1))| <= 48
  {
    hide Pow256, GobEncode;
    Pow256Positive(32);
    GobLength(Pow256(32) - 1, 33);
    SmallEntrySize(id, GobEncode(Pow256(32) - 1));
  }

  /** A proposal that carries this commit, in a context in which it is the last commit, correctly signed. */
  ghost predicate CarriesHighest(chain: Chain, store: ValidatorStore, ctx: Ctx, txs: seq<Tx>, round: int, a: GoBytes, signature: GoBytes, id: uint64) {
    && |txs| >= 1 && DecodeCommit(chain.codec, txs[0]) == Some(HighestCommit(round, a, signature, id))
    && signature != [] && Signed(ctx, store, round, HighestCommit(round, a, signature, id).votes[0])
    && ctx.lastCommit == LastCommit(round, [CommitVote(Validator(a, 1), FLAG_COMMIT)])
    && VoteExtensionsEnabled(ctx) && MaxNumCP(ctx).Success? && MaxNumCP(ctx).value >= 1
  }

  /** A commit of one signed vote that is the last commit as well is acceptable. */
  lemma OneVoteAcceptable(ctx: Ctx, store: ValidatorStore, round: int, v: ExtendedVote)
    requires VoteExtensionsEnabled(ctx) && v.validator.power == 1 && v.blockIdFlag == FLAG_COMMIT
    requires Contents(v.extensionSignature) != [] && Signed(ctx, store, round, v)
    requires ctx.lastCommit == LastCommit(round, [CommitVote(v.validator, FLAG_COMMIT)])
    ensures Acceptable(ctx, store, ExtendedCommit(round, [v]))
  {
    hide Signed, VoteExtensionsEnabled;
    assert [v][..0] == [];
    assert Power([]) == 0 && CommitPower([]) == 0;
    assert Power([v]) == 1 && CommitPower([v]) == 1;
    assert AgreesWithLastCommit(ExtendedCommit(round, [v]), ctx.lastCommit);
  }

  /** An encoded entry of at most 33 bytes is a valid extension, where there is room for one pair. */
  lemma OneEntryValid(ctx: Ctx, v: ExtendedVote, id: uint64, b: bytes)
    requires |b| <= MAXIMUM_PRICE_SIZE && |EntryBytes(id, b)| <= 48 && v.voteExtension == Some(EntryBytes(id, b))
    requires MaxNumCP(ctx).Success? && MaxNumCP(ctx).value >= 1
    ensures VoteValid(ctx, v) && DecodeVotes([v]) == Success([Vote(v.validator.address, map[id := b])])
  {
    hide EntryBytes, Unmarshal, MaxNumCP;
    EntryDecodes(id, b);
    assert [v][..0] == [];
    assert DecodeVotes([]) == Success([]);
    var vote := Vote(v.validator.address, map[id := b]);
    assert [] + [vote] == [vote];
    assert DecodeVotes([v]) == Success([] + [vote]);
  }

  lemma HighestIsAccepted(chain: Chain, store: ValidatorStore, ctx: Ctx, txs: seq<Tx>, round: int, a: GoBytes, signature: GoBytes, id: uint64)
    requires CarriesHighest(chain, store, ctx, txs, round, a, signature, id)
    ensures ProposalAccepted(chain.codec, store, ctx, txs)
    ensures OracleVotes(chain.codec, txs) == Success([Vote(a, map[id := GobEncode(Pow256(32) - 1)])])
  {
    hide Pow256, GobEncode, EntryBytes, MaxNumCP, DecodeCommit, Signed, VoteExtensionsEnabled, Acceptable, VoteValid, DecodeVotes;
    HighestDeltaSize(id);
    var v := HighestCommit(round, a, signature, id).votes[0];
    OneVoteAcceptable(ctx, store, round, v);
    OneEntryValid(ctx, v, id, GobEncode(Pow256(32) - 1));
  }

  /**
   An accepted proposal that makes PreBlock panic, as soon as some price on chain is positive: a validator with all the bonded tokens,
   at whatever address, signs one entry of at most 33 bytes.
   */
  lemma DeltaBlockPanics(chain: Chain, store: ValidatorStore, ctx: Ctx, txs: seq<Tx>, stake: StakeStore,
                         round: int, a: GoBytes, signature: GoBytes, cp: CurrencyPair)
    requires chain.kind == Delta && cp in ctx.oracle.pairs
    requires KeeperPrice(ctx.oracle, cp).Success? && KeeperPrice(ctx.oracle, cp).value > 0
    requires CarriesHighest(chain, store, ctx, txs, round, a, signature, ctx.oracle.pairs[cp].id)
    requires stake.totalBonded > 0 && stake.tokens(chain.addrString(a)) == Some(stake.totalBonded)
    ensures ProposalAccepted(chain.codec, store, ctx, txs)
    ensures ApplyOutcome(chain, ctx, txs, stake) == Failure(ConversionPanic)
  {
    hide KeeperPrice, EntryPrice, BlockPrices, GobEncode, Pow256, ProposalAccepted, CarriesHighest, OracleVotes;
    var o, id := ctx.oracle, ctx.oracle.pairs[cp].id;
    HighestIsAccepted(chain, store, ctx, txs, round, a, signature, id);
    HighestEntry(o, cp);
    var vote, price := Vote(a, map[id := GobEncode(Pow256(32) - 1)]), Pow256(32) - 1 + KeeperPrice(o, cp).value;
    assert ReportedPrice(chain.kind, o, vote.oracleVoteExtension, cp) == Some(price);
    OneVoteSetsPrice(chain, o, vote, stake, cp, price);
  }

  /** No accepted proposal makes the conversion of a price panic in state o, whatever the stake; the empty address string has none. */
  ghost predicate AcceptedBlocksFit(chain: Chain, o: OracleState) {
    forall store: ValidatorStore, ctx: Ctx, txs: seq<Tx>, stake: StakeStore ::
      ctx.oracle == o && VoteExtensionsEnabled(ctx) && ProposalAccepted(chain.codec, store, ctx, txs) && stake.tokens("") == None
      ==> ApplyOutcome(chain, ctx, txs, stake) != Failure(ConversionPanic)
  }

  /** A commit vote of power 1 with a short address, a short extension and an ordinary signature. */
  predicate SmallVote(v: ExtendedVote) {
    && v.validator.power == 1 && v.blockIdFlag == FLAG_COMMIT
    && |v.validator.address| <= 20 && |Contents(v.voteExtension)| <= 48 && |Contents(v.extensionSignature)| <= 64
  }

  /** A commit of one such vote, of round 0, can be marshalled. */
  ghost predicate MarshalsOneVote(codec: CommitCodec) {
    forall v: ExtendedVote :: SmallVote(v) ==> codec.marshal(ExtendedCommit(0, [v])).Some?
  }

  /** The limit leaves room for one pair while proposals are processed, if there is a pair at all. */
  predicate RoomForOne(o: OracleState) {
    o.pairs != map[] ==> o.numPairs.Some? && o.numRemoved.Some? && (o.numPairs.value + o.numRemoved.value) % TWO_TO_THE_64 >= 1
  }

  /**
   The exact condition under which no accepted proposal can make PreBlock panic on a price, whatever the validators, votes and stake:
   the strategy is not the delta strategy, or no pair has a positive price on chain.
   */
  lemma BlocksFitExactly(chain: Chain, o: OracleState)
    requires Injective(chain.addrString) && forall a :: a != [] ==> chain.addrString(a) != ""
    requires Faithful(chain.codec) && MarshalsOneVote(chain.codec) && RoomForOne(o)
    ensures AcceptedBlocksFit(chain, o) <==> forall cp <- o.pairs :: EntriesFit(chain.kind, o, cp)
  {
    hide BlockPrices, SomeUnrepresentable, ProposalAccepted, ApplyOutcome, EntriesFit, Faithful, MarshalsOneVote, Injective;
    if forall cp <- o.pairs :: EntriesFit(chain.kind, o, cp) {
      forall store: ValidatorStore, ctx: Ctx, txs: seq<Tx>, stake: StakeStore | ctx.oracle == o && VoteExtensionsEnabled(ctx) && ProposalAccepted(chain.codec, store, ctx, txs)
        ensures ApplyOutcome(chain, ctx, txs, stake) != Failure(ConversionPanic)
      {
        FittingProposal(chain, store, ctx, txs, stake);
      }
    } else {
      var cp :| cp in o.pairs && !EntriesFit(chain.kind, o, cp);
      PanickingProposal(chain, o, cp);
    }
  }

  lemma FittingProposal(chain: Chain, store: ValidatorStore, ctx: Ctx, txs: seq<Tx>, stake: StakeStore)
    requires Injective(chain.addrString) && VoteExtensionsEnabled(ctx) && ProposalAccepted(chain.codec, store, ctx, txs)
    requires forall cp <- ctx.oracle.pairs :: EntriesFit(chain.kind, ctx.oracle, cp)
    ensures ApplyOutcome(chain, ctx, txs, stake) != Failure(ConversionPanic)
  {
    hide BlockPrices, SomeUnrepresentable, ProposalAccepted, EntriesFit, OracleVotes;
    AcceptedVotersDistinct(chain.codec, store, ctx, txs);
    var votes := OracleVotes(chain.codec, txs).value;
    if BlockPrices(chain, ctx.oracle, votes, stake).Some? {
      BlockFits(chain, ctx.oracle, votes, stake);
    }
  }

  /** A context at height 2 whose last commit is that of one validator, and a store that knows its key. */
  function OneValidatorCtx(o: OracleState, a: GoBytes): Ctx {
    Ctx(2, 2, "", 0, ProcessProposal, Some(1), LastCommit(0, [CommitVote(Validator(a, 1), FLAG_COMMIT)]), o)
  }

  const ONE_KEY := ValidatorStore(address => Key([1]), (extension, height, round, chainId) => Some([1]), (key, signed, given) => true)

  lemma OneValidatorCarries(chain: Chain, o: OracleState, a: GoBytes, signature: GoBytes, id: uint64)
    requires Faithful(chain.codec) && MarshalsOneVote(chain.codec) && RoomForOne(o) && o.pairs != map[]
    requires |a| <= 20 && 0 < |signature| <= 64
    ensures var ec := HighestCommit(0, a, signature, id);
            chain.codec.marshal(ec).Some? && CarriesHighest(chain, ONE_KEY, OneValidatorCtx(o, a), [chain.codec.marshal(ec).value], 0, a, signature, id)
  {
    hide DecodeCommit, Faithful, MarshalsOneVote, Signed, EntryBytes, GobEncode;
    MarshalledCommit(chain.codec, a, signature, id);
    var v := HighestCommit(0, a, signature, id).votes[0];
    AnySignature(OneValidatorCtx(o, a), ONE_KEY, v);
  }

  lemma PanickingProposal(chain: Chain, o: OracleState, cp: CurrencyPair)
    requires forall a :: a != [] ==> chain.addrString(a) != ""
    requires Faithful(chain.codec) && MarshalsOneVote(chain.codec) && RoomForOne(o)
    requires cp in o.pairs && !EntriesFit(chain.kind, o, cp)
    ensures !AcceptedBlocksFit(chain, o)
  {
    hide ProposalAccepted, ApplyOutcome, KeeperPrice, HighestCommit, CarriesHighest, Faithful, MarshalsOneVote;
    var a: GoBytes, signature: GoBytes := seq(20, i => 1), seq(64, i => 1);
    var id := o.pairs[cp].id;
    OneValidatorCarries(chain, o, a, signature, id);
    var ctx, txs := OneValidatorCtx(o, a), [chain.codec.marshal(HighestCommit(0, a, signature, id)).value];
    var stake := StakeStore((s: string) => if s == chain.addrString(a) then Some(1) else None, 1);
    DeltaBlockPanics(chain, ONE_KEY, ctx, txs, stake, 0, a, signature, cp);
    assert VoteExtensionsEnabled(ctx) && stake.tokens("") == None;
  }

  lemma AnySignature(ctx: Ctx, store: ValidatorStore, v: ExtendedVote)
    requires forall address :: store.pubKey(address) == Key([1])
    requires forall extension, height, round, chainId :: store.signBytes(extension, height, round, chainId) == Some([1])
    requires forall key, signed, given :: store.verify(key, signed, given)
    ensures Signed(ctx, store, 0, v)
  {
  }

  lemma MarshalledCommit(codec: CommitCodec, a: GoBytes, signature: GoBytes, id: uint64)
    requires Faithful(codec) && MarshalsOneVote(codec) && |a| <= 20 && 0 < |signature| <= 64
    ensures var ec := HighestCommit(0, a, signature, id);
            codec.marshal(ec).Some? && DecodeCommit(codec, codec.marshal(ec).value) == Some(ec)
  {
    hide GobEncode, Pow256;
    HighestDeltaSize(id);
    var ec := HighestCommit(0, a, signature, id);
    assert SmallVote(ec.votes[0]);
    assert codec.marshal(ExtendedCommit(0, [ec.votes[0]])).Some?;
    assert CommitAfterWire(ec) == ec by {
      assert Contents(ec.votes[0].voteExtension) != [];
      assert AfterWire(ec.votes[0]) == ec.votes[0];
    }
  }

  // ---------------------------------------------------------------- the assumptions can be met

  /** The lengths of extension and signature, then address, extension and signature. */
  function MarshalSmall(ec: ExtendedCommit): Option<GoBytes> {
    if ec.round == 0 && |ec.votes| == 1 && SmallVote(ec.votes[0]) then
      var v := ec.votes[0];
      var extension, signature := Contents(v.voteExtension), Contents(v.extensionSignature);
      var lengths: bytes := [|extension|, |signature|];
      Some(lengths + v.validator.address + extension + signature)
    else None
  }

  function UnmarshalSmall(b: GoBytes): Option<ExtendedCommit> {
    if |b| < 2 || |b| - b[0] - b[1] < 2 then None
    else
      var i, j := |b| - b[0] - b[1], |b| - b[1];
      Some(ExtendedCommit(0, [ExtendedVote(Validator(b[2..i], 1), NilIfEmpty(Some(b[i..j])), NilIfEmpty(Some(b[j..])), FLAG_COMMIT)]))
  }

  /** A chain with a codec for small commits, whose address strings are the addresses' own characters. */
  const SMALL_CHAIN: Chain := Chain(Delta, CommitCodec(MarshalSmall, UnmarshalSmall), PlainAddress)

  function PlainAddress(a: GoBytes): (s: string)
    ensures |s| == |a| && forall i :: 0 <= i < |a| ==> s[i] == a[i] as char
  {
    seq(|a|, i requires 0 <= i < |a| => a[i] as char)
  }

  lemma FourParts(lengths: bytes, a: bytes, e: bytes, s: bytes, b: bytes)
    requires |lengths| == 2 && lengths[0] == |e| && lengths[1] == |s| && b == lengths + a + e + s
    ensures |b| == 2 + |a| + |e| + |s| && b[0] == |e| && b[1] == |s|
    ensures b[2..2 + |a|] == a && b[2 + |a|..2 + |a| + |e|] == e && b[2 + |a| + |e|..] == s
  {
  }

  lemma SmallRoundTrip(ec: ExtendedCommit)
    requires MarshalSmall(ec).Some?
    ensures UnmarshalSmall(MarshalSmall(ec).value) == Some(CommitAfterWire(ec))
  {
    var v, b := ec.votes[0], MarshalSmall(ec).value;
    var extension, signature := Contents(v.voteExtension), Contents(v.extensionSignature);
    FourParts([|extension|, |signature|], v.validator.address, extension, signature, b);
    assert CommitAfterWire(ec).votes == [AfterWire(v)];
  }

  lemma PlainIsInjective()
    ensures Injective(PlainAddress)
  {
    forall a, b | PlainAddress(a) == PlainAddress(b)
      ensures a == b
    {
      forall i | 0 <= i < |a|
        ensures a[i] == b[i]
      {
        assert PlainAddress(a)[i] == PlainAddress(b)[i];
      }
    }
  }

  /**
   What BlocksFitExactly assumes of address strings and codec is met by a chain; on that chain, with one pair that has a positive price,
   some accepted proposal makes PreBlock panic.
   */
  lemma AssumptionsCanBeMet(cp: CurrencyPair, quote: QuotePrice)
    requires quote.price > 0
    ensures Injective(SMALL_CHAIN.addrString) && forall a :: a != [] ==> SMALL_CHAIN.addrString(a) != ""
    ensures Faithful(SMALL_CHAIN.codec) && MarshalsOneVote(SMALL_CHAIN.codec)
    ensures var o := OracleState(map[cp := PairState(0, 0, Some(quote))], map[0 := cp], [cp], 1, Some(1), Some(0));
            Consistent(o) && RoomForOne(o) && !AcceptedBlocksFit(SMALL_CHAIN, o)
  {
    hide AcceptedBlocksFit;
    PlainIsInjective();
    forall ec | SMALL_CHAIN.codec.marshal(ec).Some?
      ensures SMALL_CHAIN.codec.unmarshal(SMALL_CHAIN.codec.marshal(ec).value) == Some(CommitAfterWire(ec))
      ensures SMALL_CHAIN.codec.marshal(ec).value != []
    {
      SmallRoundTrip(ec);
    }
    assert Faithful(SMALL_CHAIN.codec);
    assert MarshalsOneVote(SMALL_CHAIN.codec);
    var o := OracleState(map[cp := PairState(0, 0, Some(quote))], map[0 := cp], [cp], 1, Some(1), Some(0));
    hide Faithful, MarshalsOneVote, Injective;
    BlocksFitExactly(SMALL_CHAIN, o);
    assert cp in o.pairs && !EntriesFit(Delta, o, cp);
  }

  /** Dishonest reporters of a pair are a safe minority, and the honest ones report prices that fit. */
  ghost predicate HonestPairFits(chain: Chain, o: OracleState, votes: seq<Vote>, stake: StakeStore, honest: set<GoBytes>, cp: CurrencyPair) {
    && DishonestMinority(chain, o, votes, stake, honest, cp)
    && forall i :: 0 <= i < |votes| && votes[i].consAddress in honest && PriceOfVote(chain.kind, o, votes, i, cp).Some?
         ==> !Unrepresentable(PriceOfVote(chain.kind, o, votes, i, cp).value)
  }

  /** Every strategy, the delta strategy included: a safe dishonest minority cannot make the conversion panic. */
  lemma HonestBlockFits(chain: Chain, o: OracleState, votes: seq<Vote>, stake: StakeStore, honest: set<GoBytes>)
    requires Injective(chain.addrString) && DistinctVoters(votes)
    requires BlockPrices(chain, o, votes, stake).Some?
    requires forall cp :: cp in o.pairs && cp in BlockPrices(chain, o, votes, stake).value ==>
               EntriesFit(chain.kind, o, cp) || HonestPairFits(chain, o, votes, stake, honest, cp)
    ensures !SomeUnrepresentable(o, BlockPrices(chain, o, votes, stake).value)
  {
    hide BlockPrices, EntryPrice, EntriesFit;
    var prices := BlockPrices(chain, o, votes, stake).value;
    forall cp | cp in o.pairs && cp in prices
      ensures !Unrepresentable(prices[cp])
    {
      PricesComeFromVotes(chain, o, votes, stake, honest, cp);
      if EntriesFit(chain.kind, o, cp) {
        var i :| 0 <= i < |votes| && PriceOfVote(chain.kind, o, votes, i, cp) == Some(prices[cp]);
        EntryFits(chain.kind, o, cp, votes[i].oracleVoteExtension[IdOf(chain.kind, o, cp)]);
      }
    }
  }

  // ---------------------------------------------------------------- safety of one block

  /** The vote is a commit vote, in the last commit as well, and signed by its validator's key if the key is known. */
  predicate Vouched(ctx: Ctx, store: ValidatorStore, ec: ExtendedCommit, i: nat)
    requires i < |ec.votes|
  {
    && i < |ctx.lastCommit.votes|
    && ec.votes[i].blockIdFlag == FLAG_COMMIT
    && ctx.lastCommit.votes[i] == CommitVote(ec.votes[i].validator, FLAG_COMMIT)
    && Signed(ctx, store, ec.round, ec.votes[i])
  }

  /** No proposer can add or alter a report: whatever says something in an accepted proposal is vouched for. */
  lemma SpokenIsVouched(codec: CommitCodec, store: ValidatorStore, ctx: Ctx, txs: seq<Tx>, i: nat)
    requires VoteExtensionsEnabled(ctx) && ProposalAccepted(codec, store, ctx, txs)
    requires OracleVotes(codec, txs).Success? && i < |OracleVotes(codec, txs).value|
    requires OracleVotes(codec, txs).value[i].oracleVoteExtension != map[]
    ensures i < |DecodeCommit(codec, txs[0]).value.votes|
    ensures Vouched(ctx, store, DecodeCommit(codec, txs[0]).value, i)
  {
    hide OracleVotes, VoteValid, Unmarshal, Signed, RequiredPower, Wrap, AdjacentlySorted, DistinctAddresses, ValidOracleExtension;
    AcceptedIsConsumable(codec, store, ctx, txs);
    EmptyDecodes();
    var ec := DecodeCommit(codec, txs[0]).value;
    assert VoteAcceptable(ctx, store, ec.round, ec.votes[i]);
    assert MatchesCommitVote(ec.votes[i], ctx.lastCommit.votes[i]);
  }

  ghost predicate Between(kind: Kind, o: OracleState, votes: seq<Vote>, honest: set<GoBytes>, cp: CurrencyPair, p: int) {
    && (exists i :: 0 <= i < |votes| && votes[i].consAddress in honest
                    && PriceOfVote(kind, o, votes, i, cp).Some? && PriceOfVote(kind, o, votes, i, cp).value <= p)
    && (exists j :: 0 <= j < |votes| && votes[j].consAddress in honest
                    && PriceOfVote(kind, o, votes, j, cp).Some? && p <= PriceOfVote(kind, o, votes, j, cp).value)
  }

  /** The bonded tokens of the dishonest voters that report the pair. */
  ghost function DishonestTokens(chain: Chain, o: OracleState, votes: seq<Vote>, stake: StakeStore, honest: set<GoBytes>, cp: CurrencyPair): nat {
    var data := ChainProviders(chain.kind, o, chain.addrString, votes);
    SomeOrder(data.Keys);
    var order :| IsOrder(order, data.Keys);
    DishonestStake(order, data, stake, cp, set a | a in honest :: chain.addrString(a))
  }

  /** Dishonest voters that report the pair hold less than a third of a safe number of bonded tokens. */
  ghost predicate DishonestMinority(chain: Chain, o: OracleState, votes: seq<Vote>, stake: StakeStore, honest: set<GoBytes>, cp: CurrencyPair) {
    && stake.totalBonded > 0 && MinoritySafe(stake.totalBonded)
    && 3 * DishonestTokens(chain, o, votes, stake, honest, cp) < stake.totalBonded
  }

  lemma AcceptedVotersDistinct(codec: CommitCodec, store: ValidatorStore, ctx: Ctx, txs: seq<Tx>)
    requires VoteExtensionsEnabled(ctx) && ProposalAccepted(codec, store, ctx, txs)
    ensures OracleVotes(codec, txs).Success? && DistinctVoters(OracleVotes(codec, txs).value)
  {
    hide OracleVotes, VoteValid, VoteAcceptable, AdjacentlySorted, RequiredPower, Wrap, ValidOracleExtension, Unmarshal;
    AcceptedIsConsumable(codec, store, ctx, txs);
    var votes, ec := OracleVotes(codec, txs).value, DecodeCommit(codec, txs[0]).value;
    assert DistinctAddresses(ec.votes);
  }

  /**
   Safety of a block, against any proposer: if the commit check accepts the proposal, every aggregated price is for a
   pair on chain, non-negative, reported by the extension of some validator, and, as long as dishonest validators that
   report the pair hold less than a third of a safe number of bonded tokens, between two prices that honest validators
   reported.  Whatever extension reports a price is vouched for.
   */
  lemma BlockSafety(chain: Chain, store: ValidatorStore, ctx: Ctx, txs: seq<Tx>, stake: StakeStore, honest: set<GoBytes>, cp: CurrencyPair)
    requires VoteExtensionsEnabled(ctx) && ProposalAccepted(chain.codec, store, ctx, txs)
    requires Injective(chain.addrString)
    ensures OracleVotes(chain.codec, txs).Success?
    ensures var votes := OracleVotes(chain.codec, txs).value;
            var prices := BlockPrices(chain, ctx.oracle, votes, stake);
            prices.Some? && cp in prices.value ==>
              && cp in ctx.oracle.pairs
              && prices.value[cp] >= 0
              && (exists i :: 0 <= i < |votes| && PriceOfVote(chain.kind, ctx.oracle, votes, i, cp) == Some(prices.value[cp]))
              && (forall i :: 0 <= i < |votes| && PriceOfVote(chain.kind, ctx.oracle, votes, i, cp).Some?
                    ==> i < |DecodeCommit(chain.codec, txs[0]).value.votes| && Vouched(ctx, store, DecodeCommit(chain.codec, txs[0]).value, i))
              && (DishonestMinority(chain, ctx.oracle, votes, stake, honest, cp)
                  ==> Between(chain.kind, ctx.oracle, votes, honest, cp, prices.value[cp]))
  {
    hide OracleVotes, ChainProviders, MedianPrices, ReportedPrice, DishonestStake, Vouched, BlockPrices, DecodeCommit;
    AcceptedVotersDistinct(chain.codec, store, ctx, txs);
    var votes := OracleVotes(chain.codec, txs).value;
    var prices := BlockPrices(chain, ctx.oracle, votes, stake);
    if prices.Some? && cp in prices.value {
      PricesComeFromVotes(chain, ctx.oracle, votes, stake, honest, cp);
      forall i: nat | i < |votes| && PriceOfVote(chain.kind, ctx.oracle, votes, i, cp).Some?
        ensures i < |DecodeCommit(chain.codec, txs[0]).value.votes| && Vouched(ctx, store, DecodeCommit(chain.codec, txs[0]).value, i)
      {
        PricedIsSpoken(chain.kind, ctx.oracle, votes, i, cp);
        SpokenIsVouched(chain.codec, store, ctx, txs, i);
      }
    }
  }

  lemma PricedIsSpoken(kind: Kind, o: OracleState, votes: seq<Vote>, i: nat, cp: CurrencyPair)
    requires i < |votes| && PriceOfVote(kind, o, votes, i, cp).Some?
    ensures votes[i].oracleVoteExtension != map[]
  {
  }

  /** The same for any votes of distinct validators. */
  lemma PricesComeFromVotes(chain: Chain, o: OracleState, votes: seq<Vote>, stake: StakeStore, honest: set<GoBytes>, cp: CurrencyPair)
    requires Injective(chain.addrString) && DistinctVoters(votes)
    requires BlockPrices(chain, o, votes, stake).Some? && cp in BlockPrices(chain, o, votes, stake).value
    ensures var p := BlockPrices(chain, o, votes, stake).value[cp];
            && cp in o.pairs && p >= 0
            && (exists i :: 0 <= i < |votes| && PriceOfVote(chain.kind, o, votes, i, cp) == Some(p))
            && (DishonestMinority(chain, o, votes, stake, honest, cp)
                ==> Between(chain.kind, o, votes, honest, cp, p))
  {
    hide ChainProviders, MedianPrices, ReportedPrice, DishonestStake;
    var data := ChainProviders(chain.kind, o, chain.addrString, votes);
    var strings := set a | a in honest :: chain.addrString(a);
    SomeOrder(data.Keys);
    var order :| IsOrder(order, data.Keys) && DishonestTokens(chain, o, votes, stake, honest, cp) == DishonestStake(order, data, stake, cp, strings);
    BlockPricesForOrder(chain, o, votes, stake, order);
    PublishedIsReported(order, data, stake, DEFAULT_POWER_THRESHOLD, cp);
    var p := BlockPrices(chain, o, votes, stake).value[cp];
    var a :| a in data && cp in Priced(data[a]) && data[a][cp].value == p;
    var k := VoteBehind(chain, o, votes, a, cp);
    ReportedPriceSign(chain.kind, o, votes[k].oracleVoteExtension, cp);
    if DishonestMinority(chain, o, votes, stake, honest, cp) {
      PublishedWithinHonest(order, data, stake, cp, strings);
      BetweenVotes(chain, o, votes, honest, cp, p);
    }
  }

  /** Honest reports around a price are the prices of honest votes. */
  lemma BetweenVotes(chain: Chain, o: OracleState, votes: seq<Vote>, honest: set<GoBytes>, cp: CurrencyPair, p: int)
    requires Injective(chain.addrString) && DistinctVoters(votes)
    requires var data := ChainProviders(chain.kind, o, chain.addrString, votes);
             var strings := set a | a in honest :: chain.addrString(a);
             && (exists low :: low in data && low in strings && cp in Priced(data[low]) && data[low][cp].value <= p)
             && (exists high :: high in data && high in strings && cp in Priced(data[high]) && p <= data[high][cp].value)
    ensures Between(chain.kind, o, votes, honest, cp, p)
  {
    hide ChainProviders, ReportedPrice;
    var data := ChainProviders(chain.kind, o, chain.addrString, votes);
    var strings := set a | a in honest :: chain.addrString(a);
    var low :| low in data && low in strings && cp in Priced(data[low]) && data[low][cp].value <= p;
    var high :| high in data && high in strings && cp in Priced(data[high]) && p <= data[high][cp].value;
    var i := VoteBehind(chain, o, votes, low, cp);
    var j := VoteBehind(chain, o, votes, high, cp);
  }

  lemma VoteBehind(chain: Chain, o: OracleState, votes: seq<Vote>, a: string, cp: CurrencyPair) returns (i: nat)
    requires Injective(chain.addrString) && DistinctVoters(votes)
    requires a in ChainProviders(chain.kind, o, chain.addrString, votes)
    requires cp in Priced(ChainProviders(chain.kind, o, chain.addrString, votes)[a])
    ensures cp in o.pairs
    ensures i < |votes| && a == chain.addrString(votes[i].consAddress)
    ensures PriceOfVote(chain.kind, o, votes, i, cp) == ChainProviders(chain.kind, o, chain.addrString, votes)[a][cp]
  {
    hide ReportedPrice, ChainProviders;
    ReportOfVote(chain.kind, o, chain.addrString, votes, a, cp);
    i :| 0 <= i < |votes| && a == chain.addrString(votes[i].consAddress)
         && PriceOfVote(chain.kind, o, votes, i, cp) == ChainProviders(chain.kind, o, chain.addrString, votes)[a][cp];
  }

  /** What liveness asks of the votes of a proposal, for each pair that gets a price. */
  ghost predicate PairsFit(chain: Chain, o: OracleState, txs: seq<Tx>, stake: StakeStore, honest: set<GoBytes>) {
    OracleVotes(chain.codec, txs).Success? ==>
      var votes := OracleVotes(chain.codec, txs).value;
      var prices := BlockPrices(chain, o, votes, stake);
      prices.Some? ==>
        forall cp :: cp in o.pairs && cp in prices.value ==> EntriesFit(chain.kind, o, cp) || HonestPairFits(chain, o, votes, stake, honest, cp)
  }

  /**
   Liveness of an accepted block, for every strategy: once the commit check has accepted a proposal, PreBlock cannot fail on it, as
   long as there are bonded tokens and every pair that gets a price and is sent as a delta on a positive price has a safe dishonest
   minority and honest reports that fit.  Without this last condition some accepted proposal makes it panic (BlocksFitExactly).
   */
  lemma AcceptedBlockApplies(chain: Chain, store: ValidatorStore, ctx: Ctx, txs: seq<Tx>, stake: StakeStore, honest: set<GoBytes>)
    requires VoteExtensionsEnabled(ctx) && ProposalAccepted(chain.codec, store, ctx, txs)
    requires Injective(chain.addrString) && stake.totalBonded > 0
    requires PairsFit(chain, ctx.oracle, txs, stake, honest)
    ensures ApplyOutcome(chain, ctx, txs, stake).Success?
  {
    hide OracleVotes, ChainProviders, BlockPrices, SomeUnrepresentable, MedianPrices, HonestPairFits, EntriesFit;
    AcceptedVotersDistinct(chain.codec, store, ctx, txs);
    var votes := OracleVotes(chain.codec, txs).value;
    var data := ChainProviders(chain.kind, ctx.oracle, chain.addrString, votes);
    SomeOrder(data.Keys);
    var order :| IsOrder(order, data.Keys);
    BlockPricesForOrder(chain, ctx.oracle, votes, stake, order);
    BondedPublish(order, data, stake);
    HonestBlockFits(chain, ctx.oracle, votes, stake, honest);
  }

  lemma BondedPublish(order: seq<string>, data: Providers, stake: StakeStore)
    requires stake.totalBonded > 0 && forall a <- order :: a in data
    ensures MedianPrices(order, data, stake, DEFAULT_POWER_THRESHOLD).Some?
  {
  }

  // ---------------------------------------------------------------- runs of blocks

  /** A block as PreBlock sees it, apart from the oracle state. */
  datatype Block = Block(ctx: Ctx, txs: seq<Tx>, stake: StakeStore)

  ghost function Next(chain: Chain, o: OracleState, b: Block): OracleState {
    AfterBlock(chain, b.ctx.(oracle := o), b.txs, b.stake)
  }

  ghost function StateAfter(chain: Chain, o: OracleState, blocks: seq<Block>): OracleState {
    if blocks == [] then o else Next(chain, StateAfter(chain, o, blocks[..|blocks| - 1]), blocks[|blocks| - 1])
  }

  /** The names, IDs, listing and counters of two states agree; prices and nonces may differ. */
  ghost predicate SamePairs(o: OracleState, o': OracleState) {
    && o' == o.(pairs := o'.pairs) && o'.pairs.Keys == o.pairs.Keys
    && forall cp <- o.pairs :: o'.pairs[cp].id == o.pairs[cp].id
  }

  lemma NextSamePairs(chain: Chain, o: OracleState, b: Block)
    ensures SamePairs(o, Next(chain, o, b))
  {
    hide ApplyOutcome;
  }

  lemma SamePairsSound(kind: Kind, o: OracleState, o': OracleState)
    requires SoundState(kind, o) && SamePairs(o, o')
    ensures SoundState(kind, o')
  {
    assert forall cp <- o.pairs :: IdOf(kind, o', cp) == IdOf(kind, o, cp);
  }

  /** The votes of the k-th block cannot be applied, in the state the blocks before it leave: PreBlock fails or panics. */
  ghost predicate Halts(chain: Chain, o: OracleState, blocks: seq<Block>, k: nat)
    requires k < |blocks|
  {
    && VoteExtensionsEnabled(blocks[k].ctx)
    && ApplyOutcome(chain, blocks[k].ctx.(oracle := StateAfter(chain, o, blocks[..k])), blocks[k].txs, blocks[k].stake).Failure?
  }

  /** The commit of the k-th block is accepted in the state the blocks before it leave, and its pairs fit. */
  ghost predicate Live(chain: Chain, store: ValidatorStore, o: OracleState, blocks: seq<Block>, k: nat, honest: set<GoBytes>)
    requires k < |blocks|
  {
    var b, before := blocks[k], StateAfter(chain, o, blocks[..k]);
    VoteExtensionsEnabled(b.ctx) ==>
      && ProposalAccepted(chain.codec, store, b.ctx.(oracle := before), b.txs)
      && b.stake.totalBonded > 0
      && PairsFit(chain, before, b.txs, b.stake, honest)
  }

  lemma LiveDoesNotHalt(chain: Chain, store: ValidatorStore, o: OracleState, blocks: seq<Block>, k: nat, honest: set<GoBytes>)
    requires Injective(chain.addrString) && k < |blocks| && Live(chain, store, o, blocks, k, honest)
    ensures !Halts(chain, o, blocks, k)
  {
    hide StateAfter, ApplyOutcome, ProposalAccepted, PairsFit;
    var ctx := blocks[k].ctx.(oracle := StateAfter(chain, o, blocks[..k]));
    if VoteExtensionsEnabled(ctx) {
      AcceptedBlockApplies(chain, store, ctx, blocks[k].txs, blocks[k].stake, honest);
    }
  }

  lemma LiveRunEnds(chain: Chain, store: nat -> ValidatorStore, o: OracleState, blocks: seq<Block>, done: nat, honest: nat -> set<GoBytes>)
    requires Injective(chain.addrString) && done <= |blocks|
    requires forall k :: 0 <= k < |blocks| ==> Live(chain, store(k), o, blocks, k, honest(k))
    requires done < |blocks| ==> Halts(chain, o, blocks, done)
    ensures done == |blocks|
  {
    hide Live, Halts;
    if done < |blocks| {
      LiveDoesNotHalt(chain, store(done), o, blocks, done, honest(done));
    }
  }

  /** Liveness over runs: block after block whose proposals are accepted, PreBlock on the same objects never fails. */
  method RunAcceptedBlocks(pa: PriceApplier, blocks: seq<Block>, ghost store: nat -> ValidatorStore, ghost honest: nat -> set<GoBytes>)
    requires pa.va.threshold == DEFAULT_POWER_THRESHOLD && SoundState(pa.va.strategy.kind, pa.ok.state)
    requires HeightsIncrease(blocks) && Injective(pa.va.addrString)
    requires blocks != [] ==> CachesUsable(pa, blocks[0].ctx)
    requires forall k :: 0 <= k < |blocks| ==> Live(ChainOf(pa), store(k), pa.ok.state, blocks, k, honest(k))
    modifies pa.ok, pa.va.strategy, pa.va.priceAggregator
    ensures pa.ok.state == StateAfter(ChainOf(pa), old(pa.ok.state), blocks)
  {
    hide Live, Halts, StateAfter, SoundState;
    ghost var chain, start := ChainOf(pa), pa.ok.state;
    var done := RunBlocks(pa, blocks);
    LiveRunEnds(chain, store, start, blocks, done, honest);
  }

  /** Caches that are from no later height than a block's and, where they are from its height, agree with the state it is executed in. */
  ghost predicate CachesUsable(pa: PriceApplier, ctx: Ctx)
    reads pa.ok, pa.va.strategy
  {
    && CachedUpTo(pa.va.strategy.Contents(), ctx.height)
    && Sound(pa.va.strategy.kind, pa.va.strategy.Contents(), ctx.(oracle := pa.ok.state))
  }

  lemma OlderCachesSound(kind: Kind, c: Caches, height: int, ctx: Ctx)
    requires SoundState(kind, ctx.oracle) && CachedUpTo(c, height) && height < ctx.height
    ensures Sound(kind, c, ctx) && CachedUpTo(c, ctx.height)
  {
  }

  predicate HeightsIncrease(blocks: seq<Block>) {
    forall i, j :: 0 <= i < j < |blocks| ==> blocks[i].ctx.height < blocks[j].ctx.height
  }

  /**
   PreBlock called on one price applier for block after block, at increasing heights, in the state that the blocks before have left.
   The objects go through the states of StateAfter, whatever their caches hold; the run stops early exactly at the first block whose
   votes cannot be applied, whether PreBlock returns an error or panics.
   */
  method RunBlocks(pa: PriceApplier, blocks: seq<Block>) returns (done: nat)
    requires pa.va.threshold == DEFAULT_POWER_THRESHOLD && SoundState(pa.va.strategy.kind, pa.ok.state)
    requires HeightsIncrease(blocks)
    requires blocks != [] ==> CachesUsable(pa, blocks[0].ctx)
    modifies pa.ok, pa.va.strategy, pa.va.priceAggregator
    ensures done <= |blocks|
    ensures done == |blocks| ==> pa.ok.state == StateAfter(ChainOf(pa), old(pa.ok.state), blocks)
    ensures forall k :: 0 <= k < done ==> !Halts(ChainOf(pa), old(pa.ok.state), blocks, k)
    ensures done < |blocks| ==> Halts(ChainOf(pa), old(pa.ok.state), blocks, done)
  {
    hide ApplyOutcome, AfterBlock, SoundState, StateWritten, SamePairs, Agrees, Names;
    ghost var chain, start := ChainOf(pa), pa.ok.state;
    done := 0;
    while done < |blocks|
      invariant done <= |blocks| && pa.ok.state == StateAfter(chain, start, blocks[..done])
      invariant SoundState(chain.kind, pa.ok.state)
      invariant forall k :: 0 <= k < done ==> !Halts(chain, start, blocks, k)
      invariant done < |blocks| ==> CachesUsable(pa, blocks[done].ctx)
    {
      var b := blocks[done];
      ghost var before := pa.ok.state;
      var ctx := b.ctx.(oracle := pa.ok.state);
      var err := PreBlock(pa, ctx, b.txs, b.stake);
      if err.Some? {
        return;
      }
      NextSamePairs(chain, before, b);
      SamePairsSound(chain.kind, before, Next(chain, before, b));
      assert blocks[..done + 1][..done] == blocks[..done];
      done := done + 1;
      if done < |blocks| {
        assert CachedUpTo(pa.va.strategy.Contents(), b.ctx.height);
        OlderCachesSound(chain.kind, pa.va.strategy.Contents(), b.ctx.height, blocks[done].ctx.(oracle := pa.ok.state));
      }
    }
    assert blocks[..done] == blocks;
  }

  /** b, executed in state o, writes the given quote for cp from the extension of one of its voters. */
  ghost predicate WrittenBy(chain: Chain, o: OracleState, b: Block, cp: CurrencyPair, quote: QuotePrice) {
    && OracleVotes(chain.codec, b.txs).Success?
    && quote == QuoteOf(b.ctx, quote.price)
    && quote.price >= 0
    && exists i :: 0 <= i < |OracleVotes(chain.codec, b.txs).value|
                   && PriceOfVote(chain.kind, o, OracleVotes(chain.codec, b.txs).value, i, cp) == Some(quote.price)
  }

  ghost predicate DistinctInBlock(chain: Chain, b: Block) {
    OracleVotes(chain.codec, b.txs).Success? ==> DistinctVoters(OracleVotes(chain.codec, b.txs).value)
  }

  /** One block: what it writes was reported in it, every write raises the nonce by one, and the rest is untouched. */
  lemma BlockStep(chain: Chain, o: OracleState, b: Block)
    requires Injective(chain.addrString) && DistinctInBlock(chain, b)
    ensures SamePairs(o, Next(chain, o, b))
    ensures forall cp <- o.pairs :: Next(chain, o, b).pairs[cp] == o.pairs[cp] ||
              (&& Next(chain, o, b).pairs[cp].nonce == o.pairs[cp].nonce + 1
               && Next(chain, o, b).pairs[cp].price.Some?
               && WrittenBy(chain, o, b, cp, Next(chain, o, b).pairs[cp].price.value))
  {
    hide OracleVotes, BlockPrices, VoteExtensionsEnabled, ReportedPrice, SomeUnrepresentable;
    var ctx := b.ctx.(oracle := o);
    var votes := OracleVotes(chain.codec, b.txs);
    if VoteExtensionsEnabled(ctx) && ApplyOutcome(chain, ctx, b.txs, b.stake).Success? {
      var prices := BlockPrices(chain, o, votes.value, b.stake).value;
      forall cp | cp in o.pairs && Writable(prices, cp)
        ensures WrittenBy(chain, o, b, cp, QuoteOf(ctx, prices[cp]))
      {
        PricesComeFromVotes(chain, o, votes.value, b.stake, {}, cp);
      }
    }
  }

  /** What a run left of a pair: its original state, or a quote written by one of the blocks in the state before it. */
  ghost predicate Explained(chain: Chain, o: OracleState, blocks: seq<Block>, cp: CurrencyPair, s: PairState)
    requires cp in o.pairs
  {
    s == o.pairs[cp] ||
    (s.nonce > o.pairs[cp].nonce && s.price.Some? &&
     exists k :: 0 <= k < |blocks| && WrittenBy(chain, StateAfter(chain, o, blocks[..k]), blocks[k], cp, s.price.value))
  }

  /**
   Provenance over every run: from any state, after any blocks, the pairs, IDs and counters are those of the start, and
   every price is the original one or non-negative, stamped with the time and height of a block of the run, and
   decoded from an extension of that block.
   */
  lemma {:induction false} RunProvenance(chain: Chain, o: OracleState, blocks: seq<Block>)
    requires Injective(chain.addrString)
    requires forall b <- blocks :: DistinctInBlock(chain, b)
    ensures SamePairs(o, StateAfter(chain, o, blocks))
    ensures forall cp <- o.pairs :: Explained(chain, o, blocks, cp, StateAfter(chain, o, blocks).pairs[cp])
  {
    hide Next, DistinctInBlock, WrittenBy;
    if blocks != [] {
      var n := |blocks| - 1;
      var before := StateAfter(chain, o, blocks[..n]);
      RunProvenance(chain, o, blocks[..n]);
      BlockStep(chain, before, blocks[n]);
      forall cp | cp in o.pairs
        ensures Explained(chain, o, blocks, cp, StateAfter(chain, o, blocks).pairs[cp])
      {
        assert Explained(chain, o, blocks[..n], cp, before.pairs[cp]);
        var s := StateAfter(chain, o, blocks).pairs[cp];
        if s == before.pairs[cp] {
          if s != o.pairs[cp] {
            var k :| 0 <= k < n && WrittenBy(chain, StateAfter(chain, o, blocks[..n][..k]), blocks[..n][k], cp, s.price.value);
            assert blocks[..n][..k] == blocks[..k];
            assert WrittenBy(chain, StateAfter(chain, o, blocks[..k]), blocks[k], cp, s.price.value);
          }
        } else {
          assert WrittenBy(chain, StateAfter(chain, o, blocks[..n]), blocks[n], cp, s.price.value);
        }
      }
    }
  }
}

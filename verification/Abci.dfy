/** The values that the ABCI handlers pass around: commits, the oracle state and the context. */
module Abci {
  import opened Varint
  import opened Wrappers

  /** No Go slice is longer than an int can count. */
  type GoBytes = s: bytes | |s| < TWO_TO_THE_63 witness []

  /** A Go byte slice; None is nil. */
  type Slice = Option<GoBytes>

  function Contents(s: Slice): GoBytes {
    match s case None => [] case Some(b) => b
  }

  type int64 = x: int | -TWO_TO_THE_63 <= x < TWO_TO_THE_63

  const FLAG_ABSENT: int := 1
  const FLAG_COMMIT: int := 2

  datatype Validator = Validator(address: GoBytes, power: int64)

  datatype ExtendedVote = ExtendedVote(validator: Validator, voteExtension: Slice, extensionSignature: Slice, blockIdFlag: int)

  datatype ExtendedCommit = ExtendedCommit(round: int, votes: seq<ExtendedVote>)

  datatype CommitVote = CommitVote(validator: Validator, blockIdFlag: int)

  datatype LastCommit = LastCommit(round: int, votes: seq<CommitVote>)

  datatype CurrencyPair = CurrencyPair(base: string, quote: string) {
    function String(): string { base + "/" + quote }
  }

  datatype QuotePrice = QuotePrice(price: int, blockTimestamp: int, blockHeight: int)

  /** What x/oracle stores for a pair; the price is absent until the first one is written. */
  datatype PairState = PairState(id: uint64, nonce: nat, price: Option<QuotePrice>)

  /**
   The x/oracle state: the pairs, the index from IDs to pairs, the pairs in listing order (that of their keys), the ID for the next
   new pair, and the counters of pairs and of pairs removed in the previous block (None when a counter was never written and
   reading it fails).
   */
  datatype OracleState = OracleState(
    pairs: map<CurrencyPair, PairState>,
    byId: map<uint64, CurrencyPair>,
    all: seq<CurrencyPair>,
    nextId: uint64,
    numPairs: Option<uint64>,
    numRemoved: Option<uint64>)

  /** The ID index is the inverse of the pairs' IDs, and the listing has every pair once. */
  ghost predicate Consistent(o: OracleState) {
    && (forall cp <- o.pairs :: o.pairs[cp].id in o.byId && o.byId[o.pairs[cp].id] == cp)
    && (forall id <- o.byId :: o.byId[id] in o.pairs && o.pairs[o.byId[id]].id == id)
    && (forall cp :: cp in o.all <==> cp in o.pairs)
    && (forall i, j :: 0 <= i < j < |o.all| ==> o.all[i] != o.all[j])
  }

  datatype ExecMode = PrepareProposal | ProcessProposal | OtherMode

  /** The parts of sdk.Context that are read.  enableHeight is None when the ABCI params are nil. */
  datatype Ctx = Ctx(
    height: int, headerHeight: int, chainId: string, blockTime: int,
    mode: ExecMode, enableHeight: Option<int>, lastCommit: LastCommit, oracle: OracleState)
}

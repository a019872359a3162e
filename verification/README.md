# A verified model of the oracle's price pipeline

The repository is a Cosmos SDK oracle. Validators attach prices to their votes, the proposer of the next block injects
those votes into its proposal, every validator checks them, and the block then writes one stake-weighted median price
for each currency pair. A sidecar process computes the prices that a validator attaches.

This project follows a price along that way and proves what each step keeps and what the whole gives.

- `Varint`, `FieldSkipper`, `VoteExtensionWire`, `VoteExtension`, `CurrencyPairWire`: the generated Protocol Buffers code.
  The writers fill a real array from its end backwards; the decoders are the generated loops. The functions of the `Wire`
  modules say what those loops compute. Round trips, concatenation as merge, skipping of unknown fields and groups.
- `WireFields`: fields written by an independent encoder. The two messages are made of them, and every unknown one is skipped.
- `GobInt`, `CurrencyPairStrategy`: how pairs become IDs and prices become bytes, with the caches of the three strategies.
- `Abci`, `Commit`, `Proposals`: validation of the extended commit, pruning, injection, and the two proposal handlers.
- `VoteExtensionHandler`: extending a vote and verifying one.
- `WeightedMedian`, `PriceThreshold`, `StakeWeightedPrices`: the median, the 0.667 threshold in 18-digit decimals, and the
  aggregation over all validators.
- `VoteAggregation`, `OraclePipeline`: decoding the votes, aggregating, writing prices; then the statements about whole blocks
  and whole runs of blocks.
- `PublishedPrices`: what a block publishes in terms of its votes and their tokens, what it writes, and what a run leaves.
- `MarketPrices`, `IndexPriceAggregator`: the sidecar's aggregator. The first says what one tick computes and what ticks
  converge to; the second is the code on heap objects, where sorting and scaling work in place on shared pointers.
- `PriceCycles`: markets that depend on each other in a ring.
- `CoinbaseFeed`: sequence numbers, trade IDs and the store the messages end up in.
- `Orders`, `Wrappers`: iteration orders of Go maps, and result types.

How Go is rendered:

- Bytes and 64-bit words are integers in range. Shifts, masks, conversions and the sums of voting powers wrap around as in
  Go; `|=` is kept as a bitwise or. A Go `int` has 64 bits, and no slice is longer than 2^63 - 1.
- Ranging over a Go map visits the keys in an arbitrary order. A method returns the order it took as a ghost result; the
  lemmas hold for all orders.
- The inner varint loop, which the generated code repeats, is the method `ReadVarint`; the steps of the backward writer are
  small methods as well.
- The SDK context is a value that carries the oracle state. A strategy, an aggregator, a keeper, a handler or a request is an
  object whose fields the methods update.
- Parameters with stated assumptions: marshalling of an extended commit (`Faithful`: a round trip up to nil against empty
  bytes; where an accepted proposal has to be exhibited also `MarshalsOneVote`: a commit of one small vote can be marshalled),
  bech32 addresses (`Injective`, and only the empty address has the empty string), key lookup, sign bytes and signature checks
  (arbitrary functions), sha256 (collisions excluded by `Unambiguous` where it matters), parsing of pair names and numbers,
  and the clock. `RoomForOne` says that the pair limit of the state is not zero while there are pairs. `AssumptionsCanBeMet`
  exhibits a codec, address strings and a state that meet all of these.

Where code and text disagree, or where a promised property is false, the model follows the code:

- A repeated key inside one map entry is not "last one wins": the accumulator is not cleared, so the keys are or-ed
  (`KeysAreOred`, and `LastKeyWinsExactly` for exactly when the last one wins after all).
- The quorum test is the strict two-thirds majority exactly as long as the total power is below 2^62 (`QuorumTestExact`).
- `injectAndResize` says that the injected transaction appears once; an equal transaction further down stays if it fits
  (`InjectedOnlyOnce` for exactly when, `InjectedTwiceExample`).
- A dishonest third can reach the median's cut-off exactly when there are at most 1000 bonded tokens and their number leaves
  remainder 1 when divided by 3 (`MinorityBoundExact`; `PublishedBoundExact` for the published price).
- The second example of pkg/math/voteweighted/README.md announces a price of 250; the code gives 200 (`MedianExample`).
- The delta strategy has to be constructed once for each user, as docs/developers/integration.mdx (lines 232 and 267-275)
  demands: with a shared object the price survives exactly when the block did not change it (`SharedStrategyRoundTrip`). Even with
  separate objects, a vote extended again in a later round of the same height keeps its price exactly when both rounds write
  the same price (`SecondRoundRoundTrip`).
- Under the delta strategy an accepted proposal can make PreBlock panic on a price that exceeds the state's 256-bit integers,
  exactly when some pair has a positive price on chain; under the other two it never can (`BlocksFitExactly`,
  `DeltaBlockPanics`). As long as honest reports fit, a safe dishonest minority cannot bring this about (`HonestBlockFits`).
- pkg/math/oracle/README.md (line 182) expects cycles of normalizations to resolve after a few iterations. A valid market map may
  hold tickers that depend on each other (`TwoCycleIsValid`); a ring of such markets settles, exceeds every bound, or falls below
  every bound under the exact conditions of `CycleSettlesExactly`, `CycleDivergesExactly` and `CycleVanishesExactly`.
- If the clock goes back, a heartbeat can refresh a price older than the trade it names (`StalePriceRefreshed`; `PriceOnAnyClock`
  says what is stored on any clock).
- `return ve, ve.Unmarshal(bz)` (abci/strategies/codec/codec.go, lines 55-58) is read as returning the message after the call.

## Model

| member | source | states |
|---|---|---|
| `Varint.SovIsVarintLength` | abci/ve/types/vote_extensions.pb.go:175-177 | the size computed from the bit length is the number of seven-bit groups on the wire, for every 64-bit word |
| `Varint.AtMostTenBytes` | abci/ve/types/vote_extensions.pb.go:143-153 | a 64-bit word never takes more than ten bytes |
| `Varint.EncodeVarint` | abci/ve/types/vote_extensions.pb.go:143-153 | the in-place writer puts exactly the wire form directly in front of the offset and leaves every other byte alone |
| `Varint.ReadVarint` | abci/ve/types/vote_extensions.pb.go:187-200 | the decoding loop, including overflow and early end of input, from any accumulator |
| `Varint.VarintRoundTrip` | abci/ve/types/vote_extensions.pb.go:143-200 | reading back a written word gives that word and stops right after its last byte, inside any input |
| `Varint.VarintOrsIntoAccumulator` | abci/ve/types/vote_extensions.pb.go:262-276 | a read into an accumulator that was not cleared ors the new number into it and consumes the same bytes |
| `Varint.VarintIgnoresSuffix` | abci/ve/types/vote_extensions.pb.go:187-200 | a successful read does not depend on what follows |
| `Varint.VarintIgnoresPrefix` | abci/ve/types/vote_extensions.pb.go:187-200 | a read does not depend on what precedes, errors included |
| `Varint.GroupOfVarint` | abci/ve/types/vote_extensions.pb.go:143-153 | byte k of the wire form holds bits 7k to 7k + 6 of the number, the top bit marks all bytes but the last, and the last group is not zero unless it is the only one |
| `Varint.ReadExactly` | abci/ve/types/vote_extensions.pb.go:187-200 | what a read gives for every input: the groups up to the first byte without the top bit among the next ten, modulo 2^64; an overflow if ten bytes go by without one; the end of the input if there are fewer |
| `FieldSkipper.SkipField` | abci/ve/types/vote_extensions.pb.go:345-422 | the skipping loop with its group counter, with wrap-around of lengths; it terminates on every input and consumes at least one byte when it succeeds |
| `FieldSkipper.SkipIsOneField` | abci/ve/types/vote_extensions.pb.go:345-422 | the counting loop skips exactly one field of the recursive grammar of fields and nested groups, and fails on everything else |
| `FieldSkipper.SkipIgnoresSuffix` | abci/ve/types/vote_extensions.pb.go:345-422 | a successful skip is the same when more input follows |
| `VoteExtensionWire.EncodedSize` | abci/ve/types/vote_extensions.pb.go:154-174 | every iteration order of the map encodes to the same number of bytes |
| `VoteExtensionWire.EntryDecodes` | abci/ve/types/vote_extensions.pb.go:242-323 | one encoded entry decodes to the map with that entry, for every key and every value, the empty one included |
| `VoteExtensionWire.RoundTrip` | abci/ve/types/vote_extensions.pb.go:116-344 | whatever the order in which the entries were written, decoding gives back the map |
| `VoteExtensionWire.ConcatenationIsMerge` | abci/ve/types/vote_extensions.pb.go:181-344 | if the first input decodes, the concatenation decodes exactly when the second one does, to the first map overwritten by the second ("Last One Wins"); after a failure the part decoded so far is the same too |
| `VoteExtensionWire.UnknownFieldsAreIgnored` | abci/ve/types/vote_extensions.pb.go:327-340 | a well-formed unknown field between any two inputs changes nothing |
| `VoteExtensionWire.EmptyDecodes` | abci/ve/types/vote_extensions.pb.go:181-344 | no bytes decode to the empty map |
| `VoteExtensionWire.KeysAreOred` | abci/ve/types/vote_extensions.pb.go:242-323 | for every entry body, whatever fields it holds: the decoder and one that clears the key before each read fail alike and find the same value; the key found is the bitwise or of all keys in the body, where the clearing one finds the last |
| `VoteExtensionWire.LastKeyWinsExactly` | abci/ve/types/vote_extensions.pb.go:262-276 | for every entry body: the last key wins exactly when decoding fails or the bits of every key in the body lie within the last one |
| `VoteExtensionWire.RepeatedKeyExample` | abci/ve/types/vote_extensions.pb.go:262-276 | keys 1 and 2 in one entry decode to key 3 |
| `WireFields.FieldEndsAfter` | abci/ve/types/vote_extensions.pb.go:345-422 | a field written as Protocol Buffers writes it (varint, eight bytes, length and bytes, group of fields nested to any depth, four bytes) is skipped to exactly its last byte, wherever it stands |
| `WireFields.UnknownFieldSkipped` | abci/ve/types/vote_extensions.pb.go:327-340 | such a field under any unknown number, between any input that decodes and any other input: decoding gives what it gives without the field, failures included |
| `WireFields.CutFieldFails` | abci/ve/types/vote_extensions.pb.go:345-422 | an unknown field of any kind that is cut off anywhere makes decoding fail |
| `WireFields.CutEntryFails` | abci/ve/types/vote_extensions.pb.go:220-323 | an encoded entry that is cut off anywhere makes decoding fail |
| `WireFields.EntryUnknownSkipped` | abci/ve/types/vote_extensions.pb.go:308-321 | inside a map entry, every field but those of key and value is skipped to exactly its end |
| `WireFields.EntryWithUnknownDecodes` | abci/ve/types/vote_extensions.pb.go:242-323 | an entry with an unknown field in front of its key decodes to the entry |
| `WireFields.EntryIsMessage` | abci/ve/types/vote_extensions.pb.go:121-138 | an encoded entry is field 1 of the extension: a message of the key under number 1 and, unless it is empty, the value under number 2 |
| `WireFields.MessageExamples` | abci/ve/types/vote_extensions.pb.go:116-141 | two entries and two pairs byte by byte |
| `WireFields.LengthExactly` | abci/ve/types/vote_extensions.pb.go:226-234 | a length is accepted exactly when that many bytes are left; otherwise it is invalid if it or the index it leads to is negative as a 64-bit integer, and the end of the input if not |
| `WireFields.RejectedTags` | abci/ve/types/vote_extensions.pb.go:201-211 | for both messages, every input whose first tag is an end of group, has number 0, a wrong wire type for a known number, or a wire type that does not exist fails with the error for it |
| `VoteExtension.WriteEntry` | abci/ve/types/vote_extensions.pb.go:121-138 | one entry is written directly in front of the given index; bytes before it are untouched |
| `VoteExtension.ReadEntry` | abci/ve/types/vote_extensions.pb.go:242-323 | the loop over the fields of an entry, with all its error exits |
| `VoteExtension.OracleVoteExtension.Size` | abci/ve/types/vote_extensions.pb.go:154-174 | the size returned is that of every encoding of the map |
| `VoteExtension.OracleVoteExtension.MarshalToSizedBuffer` | abci/ve/types/vote_extensions.pb.go:116-141 | the buffer ends with an encoding of the map in some order; nothing in front of it changes; the length returned is exact |
| `VoteExtension.OracleVoteExtension.Marshal` | abci/ve/types/vote_extensions.pb.go:101-109 | a new buffer filled by the encoding from index 0 to its end |
| `VoteExtension.OracleVoteExtension.Unmarshal` | abci/ve/types/vote_extensions.pb.go:181-344 | terminates on every input without an index out of range; the message afterwards, and the error, are those of the specification, also when decoding into a message that holds entries |
| `VoteExtension.MarshalThenUnmarshal` | abci/ve/types/vote_extensions.pb.go:101-344 | the two calls one after the other give the same map and no error |
| `CurrencyPairWire.CurrencyPair.Size` | pkg/types/currency_pair.pb.go:152-168 | the size is the length of the encoding |
| `CurrencyPairWire.CurrencyPair.MarshalToSizedBuffer` | pkg/types/currency_pair.pb.go:119-139 | the buffer ends with the encoding; nothing in front of it changes |
| `CurrencyPairWire.CurrencyPair.Marshal` | pkg/types/currency_pair.pb.go:104-112 | a new buffer filled by the encoding |
| `CurrencyPairWire.CurrencyPair.Unmarshal` | pkg/types/currency_pair.pb.go:175-288 | total on every input; both fields and the error are those of the specification, also after a failure |
| `CurrencyPairWire.PairConcatenationIsMerge` | pkg/types/currency_pair.pb.go:175-288 | decoding a concatenation is decoding the second input into the result of the first |
| `CurrencyPairWire.PairRoundTrip` | pkg/types/currency_pair.pb.go:104-288 | an encoded pair decodes to that pair, empty strings included |
| `CurrencyPairWire.EncodingsMerge` | pkg/types/currency_pair.pb.go:104-288 | two encodings one after the other decode to the second pair, with its empty strings filled in from the first |
| `CurrencyPairWire.PairMarshalThenUnmarshal` | pkg/types/currency_pair.pb.go:104-288 | the two calls one after the other give the same strings and no error |
| `WireFields.PairIsMessage` | pkg/types/currency_pair.pb.go:119-139 | an encoded pair is its base as field 1 and its quote as field 2, each unless it is empty |
| `WireFields.PairUnknownSkipped` | pkg/types/currency_pair.pb.go:268-281 | an unknown field of any kind, between an input that decodes and any other, changes nothing |
| `GobInt.GobRoundTrip` | abci/strategies/currencypair/default.go:85-114 | the gob form of every integer decodes to it |
| `GobInt.GobLength` | abci/types/constants.go:3-6 | the gob form fits k bytes exactly when the magnitude fits k - 1 bytes |
| `GobInt.DecodedMagnitude` | abci/types/constants.go:3-6 | k bytes decode to a magnitude of at most k - 1 bytes |
| `GobInt.BigEndianDigit` | abci/strategies/currencypair/default.go:85-96 | the k-th byte from the end of a magnitude has weight 256^k, and the first one is not zero |
| `CurrencyPairStrategy.Strategy.ID` | abci/strategies/currencypair/default.go:38-55 | the caches after the call and the answer, for all three strategies |
| `CurrencyPairStrategy.Strategy.FromID` | abci/strategies/currencypair/hash.go:55-87 | the caches after the call and the answer, with the loop that fills the hash strategy's cache |
| `CurrencyPairStrategy.Strategy.GetOnChainPrice` | abci/strategies/currencypair/delta.go:89-122 | the price cache of the delta strategy and its answer |
| `CurrencyPairStrategy.Strategy.GetEncodedPrice` | abci/strategies/currencypair/delta.go:33-56 | the encoded price, negative prices refused before the cache is touched |
| `CurrencyPairStrategy.Strategy.GetDecodedPrice` | abci/strategies/currencypair/delta.go:62-84 | the decoded price; never negative |
| `CurrencyPairStrategy.Strategy.GetMaxNumCP` | abci/strategies/currencypair/default.go:120-138 | the pair limit, with removed pairs counted while proposals are handled |
| `CurrencyPairStrategy.EncodedExactly` | abci/strategies/currencypair/delta.go:33-56 | with no price cached at this height, what is sent decodes to the price itself or, for the delta strategy, to its distance from the price on chain (zero if there is none); it fails exactly on negative prices and, for the delta strategy, unknown pairs |
| `CurrencyPairStrategy.FromIdExactly` | abci/strategies/currencypair/hash.go:55-87 | with nothing cached at this height, an ID names the pair of the keeper's index or, for the hash strategy, the last listed pair whose name hashes to it |
| `CurrencyPairStrategy.CacheTransparency` | abci/strategies/currencypair/default.go:38-81 | over every sequence of ID and FromID calls at any heights, every answer is the uncached one, if the pair/ID relation is fixed within each height |
| `CurrencyPairStrategy.NamesInverse` | abci/strategies/currencypair/hash.go:29-87 | the table that FromID uses is the inverse of the IDs, for the hash strategy if no two pairs on chain collide |
| `CurrencyPairStrategy.IdsInvert` | abci/strategies/currencypair/default.go:38-81 | ID and FromID undo each other, from any cache that agrees with the keeper |
| `CurrencyPairStrategy.RunExact` | abci/strategies/currencypair/default.go:38-81 | with no assumption on the keeper, for every strategy: the answers of a run on a new object are the uncached ones if and only if no lookup asks for an ID that earlier calls at its height tied to a pair the keeper no longer names, a condition on the calls and the keeper's states alone |
| `CurrencyPairStrategy.EncodeThenDecode` | abci/strategies/currencypair/delta.go:33-122 | encoding succeeds exactly for a non-negative price of a pair whose on-chain price is cached or readable, and within a height decoding then undoes it, with any encode and decode calls for any pairs in between and even if the stored price has changed |
| `CurrencyPairStrategy.DeltaAcrossHeights` | abci/strategies/currencypair/delta.go:33-122 | a delta decoded elsewhere gives the price back exactly when both sides measure against the same price |
| `CurrencyPairStrategy.SeparateStrategiesRoundTrip` | docs/developers/integration.mdx:267-275 | with an encoder object of its own the extended price survives to the next height exactly when that object has not cached another price of the pair at this height |
| `CurrencyPairStrategy.SecondRoundRoundTrip` | abci/strategies/currencypair/delta.go:89-96 | a vote extended again in a second round of the same height keeps its price exactly when both rounds' proposals write the same price |
| `CurrencyPairStrategy.SharedStrategyRoundTrip` | docs/developers/integration.mdx:232 | with one shared object it survives exactly when the block did not change the price |
| `Commit.ValidateExtendedCommitAgainstLastCommit` | abci/ve/utils.go:240-287 | accepts exactly the commits that agree with the last commit: round, length, order, distinct addresses, powers, and flags of votes that were not pruned |
| `Commit.ValidateVoteExtensions` | abci/ve/utils.go:111-234 | accepts exactly the acceptable commits, with powers summed in wrapping 64-bit arithmetic |
| `Commit.EnabledFrom` | abci/ve/utils.go:53-68 | extensions are enabled from the block after the enable height on, but never before height 2 |
| `Commit.SortedGlobally` | abci/ve/utils.go:252-259 | the check of neighbours orders every pair of validators strictly, larger power first and ties by address |
| `Commit.QuorumSoundness` | abci/ve/utils.go:111-287 | acceptance implies more than two thirds of the power in commit votes, strict order of distinct addresses, the validators of the last commit, and that every counted vote is a commit vote there |
| `Commit.QuorumIsTwoThirds` | abci/ve/utils.go:222-231 | with sane powers the integer test is the strict two-thirds majority, in both directions |
| `Commit.QuorumTestExact` | abci/ve/utils.go:222-231 | for a positive total the test tells majorities from minorities if and only if the total is below 2^62 |
| `Commit.QuorumsIntersect` | abci/ve/utils.go:111-234 | any two commits accepted at the same height share commit votes of more than a third of the power |
| `Commit.AcceptedExactlyLawful` | abci/ve/utils.go:111-287 | with extensions enabled and sane powers in the last commit, exactly this commit is accepted, whatever a proposer puts into it: validators, powers, round and flags of the last commit except for votes made absent and blank; distinct addresses in order of power and then of bytes; commit votes of more than two thirds of the power; a signature on each of them, verified over the extension, the previous height, the round and the chain if the key is known; and nothing in any other vote |
| `Commit.CompareIsLexicographic` | abci/ve/utils.go:252-259 | the comparison of addresses is lexicographic: one ends first, or has the smaller byte at the first difference |
| `Commit.SignatureCoversExactly` | abci/ve/utils.go:191-213 | a vote signed while extending at some height, with sign bytes that tell statements apart and a verifier that accepts this statement alone, passes in the block of the next height and no other, on the same chain and in the same round, with the extension that was signed |
| `Commit.DisabledAcceptsSilent` | abci/ve/utils.go:164-176 | while extensions are disabled, exactly the agreeing commits without any extension or signature are accepted, if there is power at all |
| `Proposals.ValidateOracleVoteExtension` | abci/ve/utils.go:24-47 | accepts exactly the extensions within the pair limit and with no price over 33 bytes |
| `Proposals.ValidateVoteExtension` | abci/proposals/validate.go:88-110 | accepts exactly the votes that are nil or decode to a valid extension |
| `Proposals.ProposalHandler.PruneAndValidateExtendedCommitInfo` | abci/proposals/validate.go:54-86 | every invalid vote is overwritten in place by an absent one, the valid ones stay, and the rest is validated |
| `Proposals.ProposalHandler.ValidateExtendedCommitInfo` | abci/proposals/validate.go:17-49 | accepts exactly the valid commits with valid extensions |
| `Proposals.PruneIdempotent` | abci/proposals/validate.go:54-86 | pruning twice is pruning once, and what it leaves is valid |
| `Proposals.PruneKeepsAgreement` | abci/ve/utils.go:278-283 | pruning keeps addresses, powers, order and agreement with the last commit |
| `Proposals.PruneKeepsAcceptance` | abci/proposals/validate.go:54-86 | a pruned commit is still acceptable exactly when its commit votes still hold the required power |
| `Proposals.PrunedCommitIsAccepted` | abci/proposals/proposals.go:140-158 | what survives pruning and validation passes every validator's validation after encoding and decoding, and is not empty |
| `Proposals.ProposalVoteExactly` | abci/proposals/validate.go:88-110 | a vote in a proposal is valid exactly when it says nothing, or its extension decodes to at most as many entries as there are pairs on chain and pairs the last block removed, of at most 33 bytes each |
| `Proposals.PrunedExactly` | abci/proposals/validate.go:54-86 | pruning leaves exactly the votes within these limits as they are and makes blank absent votes of all others |
| `Proposals.ProposalAcceptedExactly` | abci/proposals/proposals.go:255-330 | the verdict on a proposal's commit: the first transaction is not empty and decodes to a commit that is lawful and whose votes all keep the limits, and nothing else is accepted |
| `Proposals.InjectAndResizeTxs` | abci/proposals/proposals.go:222-249 | the loop returns the longest fitting prefix of the injected and the application's transactions |
| `Proposals.FittingIsLongestPrefix` | abci/proposals/proposals.go:238-248 | the result is a prefix, within the limit, and no longer prefix is |
| `Proposals.InjectExactly` | abci/proposals/proposals.go:222-249 | for every transaction to inject, also none, and every limit: the longest prefix within the limit of the application's list, with the injected transaction in front unless there is none, it is too large, or it is there already |
| `Proposals.AllInjected` | abci/proposals/proposals.go:222-249 | what fits as a whole is proposed as a whole; with nothing to inject that is the application's list |
| `Proposals.InjectIdempotent` | abci/proposals/proposals.go:218-221 | injecting again changes nothing, for every limit |
| `Proposals.InjectedIsFirst` | abci/proposals/proposals.go:222-249 | an injected transaction that fits is first, whatever the application returned |
| `Proposals.InjectedOnlyOnce` | abci/proposals/proposals.go:218-221 | it appears once exactly when every further copy in the application's list comes too late to fit: the injected transaction and the list up to and including that copy overrun the limit |
| `Proposals.InjectedTwiceExample` | abci/proposals/proposals.go:218-221 | an input on which it appears twice |
| `Proposals.ProposalHandler.PrepareProposal` | abci/proposals/proposals.go:99-216 | the response (the wrapped handler's list, with the commit in front, cut to the limit; without extensions its list alone) or the kind of error, and the request afterwards: pruned votes, reserved bytes, transactions passed on |
| `Proposals.ProposalHandler.ProcessProposal` | abci/proposals/proposals.go:255-360 | the verdict or the kind of error; the request's transactions are the same afterwards |
| `Proposals.ValidatorSeesTheSame` | abci/strategies/currencypair/default.go:120-138 | the commit check gives the same verdict while preparing and while processing |
| `Proposals.PreparedIsAccepted` | abci/proposals/proposals.go:99-330 | every successful PrepareProposal with extensions enabled puts the non-empty encoded commit first, stays within the original limit, and passes every validator's commit check, whatever the wrapped handler returned |
| `Proposals.PrepareThenProcess` | abci/proposals/proposals.go:99-360 | the two handlers one after the other: the verdict is that of the wrapped handler alone |
| `Proposals.GetOracleVotes` | abci/strategies/aggregator/vote_aggregator.go:29-61 | the decoded votes in order, or the kind of error |
| `Proposals.VotesExactly` | abci/strategies/aggregator/vote_aggregator.go:29-61 | votes can be extracted exactly when the first transaction and all extensions in it decode, and they are those of the commit, in order |
| `Proposals.AcceptedIsConsumable` | abci/strategies/aggregator/vote_aggregator.go:26-61 | once a proposal's commit is accepted, extracting its votes succeeds, one per validator, each within the limits |
| `VoteExtensionHandler.Handler.TransformOracleServicePrices` | abci/ve/vote_extension.go:290-343 | fails exactly when some entry does not parse; the extension, and in every case the strategy's caches, for the entries visited |
| `VoteExtensionHandler.Handler.ExtendVote` | abci/ve/vote_extension.go:77-207 | gives an extension exactly when the votes apply, the oracle answers and everything parses; it is built in the state with the new prices written; oracle state and caches afterwards, with a shared or a separate strategy object |
| `VoteExtensionHandler.Handler.VerifyVoteExtension` | abci/ve/vote_extension.go:213-285 | accepts exactly the empty extension and those that decode within the limits |
| `VoteExtensionHandler.EntriesWithinLimits` | abci/ve/vote_extension.go:290-343 | what is built has IDs of pairs on chain only and no price over 33 bytes |
| `VoteExtensionHandler.ExtendedIsAccepted` | abci/ve/vote_extension.go:247-343 | every extension is accepted whose prices, for pairs on chain, are sent as magnitudes below 2^256, whatever the two iteration orders |
| `VoteExtensionHandler.ExtendedIsAcceptedExactly` | abci/ve/vote_extension.go:247-343 | and only those, when no two names of the answer are the same pair |
| `VoteExtensionHandler.AcceptedExactly` | abci/ve/vote_extension.go:213-285 | an encoded extension is accepted exactly when it is empty or within the limits |
| `VoteExtensionHandler.VerifiedExactly` | abci/ve/vote_extension.go:213-285 | any bytes, encoded by anyone: accepted exactly when there are none, or they decode to at most as many entries as there are pairs, of at most 33 bytes each |
| `VoteExtensionHandler.ExtendedIsShifted` | abci/ve/vote_extension.go:290-343 | from the oracle to the chain, for any caches of the encoder and any prices on either side: a price is reported exactly when, less the difference between the two bases, it is the oracle's, it is not negative and its entry fits 33 bytes |
| `VoteExtensionHandler.ExtendedIsReported` | abci/ve/vote_extension.go:290-343 | when both sides measure against the same price, a price is reported exactly when the answer gave it and its entry fits; when they do not, the price that was answered is never the one reported |
| `VoteExtensionHandler.SoundHasNoDrift` | abci/strategies/currencypair/delta.go:89-122 | sound caches and an unchanged price on chain make both sides measure against the same price |
| `VoteExtensionHandler.PublishedWithinDrift` | abci/strategies/aggregator/price_applier.go:67-151 | the whole way, whatever the encoders had cached: on an accepted proposal, with honest votes built from their oracles' answers and a safe dishonest minority, a published price lies between two prices that the oracles of honest validators answered, each moved by its validator's drift |
| `VoteExtensionHandler.PublishedWithinAnswers` | abci/strategies/aggregator/price_applier.go:67-151 | between two such answers themselves, where the honest validators measured against the price on chain |
| `VoteExtensionHandler.ExtendThenVerify` | abci/ve/vote_extension.go:77-285 | the handlers and the wire format together: what one validator extends, another one accepts |
| `WeightedMedian.SortByPrice` | pkg/math/voteweighted/voteweighted.go:168-177 | sorts in place and permutes |
| `WeightedMedian.ComputeMedian` | pkg/math/voteweighted/voteweighted.go:166-198 | the least reported price that at least half of the weight, rounded down, does not exceed; the last-element fallback never decides |
| `WeightedMedian.MedianUnique` | pkg/math/voteweighted/voteweighted.go:166-198 | that description has at most one answer |
| `WeightedMedian.MedianOfPermutation` | pkg/math/voteweighted/voteweighted.go:166-198 | only the multiset of weights and prices matters |
| `WeightedMedian.MedianMonotone` | pkg/math/voteweighted/voteweighted.go:166-198 | raising reported prices never lowers the median |
| `WeightedMedian.MedianExample` | pkg/math/voteweighted/voteweighted.go:166-198 | the README's second example gives 200 |
| `WeightedMedian.HonestMajority` | pkg/math/voteweighted/voteweighted.go:180-190 | with less dishonest weight than the cut-off the median lies between two honest reports |
| `WeightedMedian.HonestRangeExact` | pkg/math/voteweighted/voteweighted.go:180-190 | no choice of prices can move it out of the honest range if and only if the dishonest weight is below the cut-off |
| `PriceThreshold.ThresholdExactly` | pkg/math/voteweighted/voteweighted.go:136-140 | reaching 0.667 in rounded 18-digit division is an exact comparison of integers, in both directions |
| `PriceThreshold.MinorityBoundExact` | pkg/math/voteweighted/voteweighted.go:19 | a minority of less than a third stays below the cut-off for all reporters that meet the threshold if and only if there are more than 1000 bonded tokens or their number does not leave remainder 1 modulo 3 |
| `StakeWeightedPrices.CollectReports` | pkg/math/voteweighted/voteweighted.go:67-124 | the list and the weight of each pair, for providers and prices visited in arbitrary orders |
| `StakeWeightedPrices.MedianInSomeOrder` | pkg/math/voteweighted/voteweighted.go:59-163 | a price for exactly the pairs whose reporters reach the threshold, and it is their median; a division by a zero total panics |
| `StakeWeightedPrices.Median` | pkg/math/voteweighted/voteweighted.go:59-163 | the result is the one for every order in which the maps could have been visited |
| `StakeWeightedPrices.MedianDeterministic` | pkg/math/voteweighted/voteweighted.go:59-163 | the whole output map is the same for every two iteration orders |
| `StakeWeightedPrices.PublishedByTokens` | pkg/math/voteweighted/voteweighted.go:59-198 | a pair is published exactly when the tokens behind it reach 0.667 of the bonded ones, at the least reported price such that validators reporting at most this price hold at least half of these tokens, rounded down |
| `StakeWeightedPrices.UnbondedPanicsExactly` | pkg/math/voteweighted/voteweighted.go:126-140 | without any bonded tokens the division panics exactly when a validator with known tokens reported a price, and otherwise nothing is published |
| `StakeWeightedPrices.PublishedWithinHonest` | pkg/math/voteweighted/voteweighted.go:59-198 | a published price lies between two honest reports of the pair when dishonest reporters hold less than a third of a safe number of bonded tokens |
| `StakeWeightedPrices.UnsafeMinoritySetsPrice` | pkg/math/voteweighted/voteweighted.go:59-198 | for every other number of bonded tokens, two validators of which the dishonest minority sets the published price outside the honest range |
| `StakeWeightedPrices.PublishedBoundExact` | pkg/math/voteweighted/voteweighted.go:59-198 | the published price lies between two honest reports for all validators, stakes and prices if and only if the number of bonded tokens is safe |
| `StakeWeightedPrices.PublishedIsReported` | pkg/math/voteweighted/voteweighted.go:59-198 | every published price was reported by a validator |
| `VoteAggregation.DataAggregator.ResetProviderData` | aggregator/aggregator.go:108-113 | no provider data is left |
| `VoteAggregation.DataAggregator.SetProviderData` | aggregator/aggregator.go:100-105 | one provider's data is replaced |
| `VoteAggregation.DataAggregator.GetDataByProvider` | aggregator/aggregator.go:88-96 | the provider's data, or the nil map |
| `VoteAggregation.DataAggregator.AggregateData` | aggregator/aggregator.go:127-135 | the aggregated data is the median of the provider data; a panic leaves it |
| `VoteAggregation.VoteAggregator.AddVoteToAggregator` | abci/strategies/aggregator/vote_aggregator.go:152-206 | one vote's prices, skipping what is too long, unknown or undecodable; an empty extension changes nothing |
| `VoteAggregation.VoteAggregator.AggregateOracleVotes` | abci/strategies/aggregator/vote_aggregator.go:116-146 | the data aggregated is that of these votes alone |
| `VoteAggregation.VoteAggregator.GetPriceForValidator` | abci/strategies/aggregator/vote_aggregator.go:208-211 | the report of the latest votes |
| `VoteAggregation.PricesSound` | abci/strategies/aggregator/vote_aggregator.go:157-195 | from any sound caches and in any order, an extension gives the report that the chain state alone determines |
| `VoteAggregation.VotesSound` | abci/strategies/aggregator/vote_aggregator.go:116-206 | all nodes fill their aggregators alike, whatever their caches and iteration orders |
| `VoteAggregation.EntryPriceExactly` | abci/strategies/aggregator/vote_aggregator.go:157-195 | an entry counts as a price exactly when it has at most 33 bytes and decodes to it, for the delta strategy on top of the price on chain, and it is not negative |
| `VoteAggregation.Keeper.SetPriceForCurrencyPair` | x/oracle/keeper/keeper.go:196-215 | a known pair's price is replaced and its nonce raised; an unknown pair is created with the next ID; nothing else changes |
| `VoteAggregation.PriceSetConsistent` | x/oracle/keeper/keeper.go:196-215 | IDs, their index and the listing stay in step exactly when the pair is known or the next ID is unused |
| `VoteAggregation.ListedStaysInOrder` | x/oracle/keeper/keeper.go:196-215 | a new pair goes where its key belongs, so the listing stays in the order of the keys |
| `VoteAggregation.PriceApplier.WritePrices` | abci/strategies/aggregator/price_applier.go:100-148 | every listed pair with a non-negative price is written once and nothing else changes; it panics exactly when some price exceeds 256 bits, and then a prefix of the listing has been written |
| `VoteAggregation.PriceApplier.ApplyPricesFromVoteExtensions` | abci/strategies/aggregator/price_applier.go:67-151 | the prices and the state written, or the error with the state untouched, or, after a panic of the conversion, with a prefix of the listing written; caches and provider data in every case |
| `OraclePipeline.VoteIsProvider` | abci/strategies/aggregator/vote_aggregator.go:121-134 | with distinct voters the data holds the report of every non-empty extension |
| `OraclePipeline.ReportOfVote` | abci/strategies/aggregator/vote_aggregator.go:121-206 | and nothing else: every priced entry is the price that some vote's extension holds under the pair's ID |
| `OraclePipeline.BlockPricesForOrder` | pkg/math/voteweighted/voteweighted.go:59-163 | the prices of a block are the same for every iteration order |
| `OraclePipeline.ApplyVotes` | abci/strategies/aggregator/price_applier.go:67-151 | applying the votes gives the same outcome on every node whose caches are sound |
| `OraclePipeline.PreBlock` | abci/preblock/oracle/preblock.go:77-148 | the state after the block, as a function of the chain state, the transactions and the stake alone |
| `PublishedPrices.PublishedByVotes` | abci/strategies/aggregator/price_applier.go:67-98 | completeness and soundness over the votes of a block: exactly the pairs are priced whose voters hold 0.667 of the bonded tokens, each at the median of these votes in tokens |
| `PublishedPrices.BlockWrites` | abci/strategies/aggregator/price_applier.go:100-148 | with extensions enabled and prices agreed on, each pair on chain with a price that is not negative, also one that never had a price, gets it with the block's time and height and the next nonce; everything else stays, and otherwise the whole state does |
| `PublishedPrices.OutcomeExactly` | abci/preblock/oracle/preblock.go:127-145 | the votes give prices exactly when they can be extracted and the median of no pair that enough of the stake voted for exceeds 256 bits |
| `PublishedPrices.VotesSetPrices` | abci/preblock/oracle/preblock.go:77-148 | from the votes to the state: a pair that enough of the stake voted for has the median of the votes as its price, stamped with this block, and the next nonce; every other pair is as it was |
| `OraclePipeline.EntryPriceBound` | abci/strategies/currencypair/delta.go:62-84 | an entry decodes to at most 256 bits, on top of the price on chain for the delta strategy |
| `OraclePipeline.DeltaEntriesFitExactly` | abci/strategies/currencypair/delta.go:62-84 | under the delta strategy every acceptable entry of a pair stays within 256 bits if and only if the pair has no positive price on chain |
| `OraclePipeline.BlocksFitExactly` | abci/strategies/aggregator/price_applier.go:125-130 | no accepted proposal makes PreBlock panic on a price, whatever the validators, votes and stake, if and only if the strategy is not the delta strategy or no pair has a positive price on chain |
| `OraclePipeline.AssumptionsCanBeMet` | abci/strategies/codec/codec.go:169-180 | a codec that round-trips and marshals every small vote, and injective address strings; on this chain, with one pair of positive price under the delta strategy, some accepted proposal makes PreBlock panic |
| `OraclePipeline.DeltaBlockPanics` | abci/strategies/aggregator/price_applier.go:125-130 | the accepted proposal that does: for any positive price on chain, one validator with all the bonded tokens, at any address, whose signed vote carries one entry of at most 33 bytes |
| `OraclePipeline.HonestBlockFits` | abci/strategies/aggregator/price_applier.go:125-130 | every strategy: with a safe dishonest minority and honest reports that fit, for each pair sent as a delta on a positive price, no block makes it panic |
| `OraclePipeline.SpokenIsVouched` | abci/ve/utils.go:111-287 | whatever says something in an accepted proposal is a commit vote, in the last commit too, and signed if the key is known |
| `OraclePipeline.AcceptedVotersDistinct` | abci/ve/utils.go:261-268 | the votes of an accepted proposal can be extracted and have distinct voters |
| `OraclePipeline.BlockSafety` | abci/strategies/aggregator/price_applier.go:67-151 | against any proposer: every aggregated price is of a pair on chain, non-negative, decoded from a vouched-for extension, and between two honest prices if dishonest reporters of the pair are a safe minority |
| `OraclePipeline.AcceptedBlockApplies` | abci/preblock/oracle/preblock.go:127-145 | once a proposal is accepted, PreBlock cannot fail on it, for every strategy, with bonded tokens and, for pairs that get a price and are sent as a delta on a positive price, a safe dishonest minority and honest reports that fit |
| `OraclePipeline.BlockStep` | abci/strategies/aggregator/price_applier.go:100-148 | one block: a pair is untouched or its nonce rises by one and its price was reported in the block |
| `OraclePipeline.RunProvenance` | abci/preblock/oracle/preblock.go:77-148 | after any blocks, pairs, IDs and counters are those of the start, and every price is the original one or was decoded from an extension of a block of the run, non-negative and stamped with that block |
| `PublishedPrices.RunPublishes` | abci/preblock/oracle/preblock.go:77-148 | every run, exactly: the nonce of a pair has counted the blocks that published it, its price is that of the last of them or the original one, and pairs, IDs, listing and counters are those of the start |
| `OraclePipeline.RunBlocks` | abci/preblock/oracle/preblock.go:77-148 | PreBlock called for block after block on the same objects, at increasing heights, goes through the states of the specification, whatever sound caches they start with; it stops exactly at the first block whose votes cannot be applied, be it an error or a panic |
| `OraclePipeline.RunAcceptedBlocks` | abci/preblock/oracle/preblock.go:77-148 | liveness over runs: over blocks whose proposals are accepted, each under the conditions of AcceptedBlockApplies, it never stops |
| `MarketPrices.SortSorts` | pkg/math/math.go:104-116 | the sort's result is ascending and a permutation |
| `MarketPrices.MedianExactly` | pkg/math/math.go:120-140 | an odd number of prices has one in the middle, with as many below or equal as above or equal, and the median is that one and no other; an even number has two, and it is their sum divided by two |
| `MarketPrices.MedianOfRearranged` | pkg/math/math.go:120-140 | the median depends on the prices alone, not on their order |
| `MarketPrices.AdjustedExactly` | pkg/math/oracle/aggregator.go:198-217 | a provider's price converts exactly to its own price or, if configured so, its inverse, times the index price of the pair it is normalized by; it does not convert when one of these is missing |
| `MarketPrices.ConvertedJoin` | pkg/math/oracle/aggregator.go:143-193 | the configurations contribute one after the other |
| `MarketPrices.TickPublishes` | pkg/math/oracle/aggregator.go:73-138 | what a tick publishes for a market: the median of its converted prices and the same times ten to its decimals, if it is enabled and has enough of them, and nothing otherwise |
| `MarketPrices.PublishedExactly` | pkg/math/oracle/aggregator.go:82-122 | a market that asks for a provider is published exactly when it is enabled and has enough convertible prices |
| `MarketPrices.PanicsExactly` | pkg/math/oracle/aggregator.go:95-117 | some prices make a tick panic if and only if an enabled market asks for no provider |
| `MarketPrices.ValidNeverPanics` | x/marketmap/types/ticker.go:42-49 | a market map that passes validation never makes a tick panic, and is keyed by ticker string |
| `MarketPrices.FilledIsTick` | pkg/math/oracle/aggregator.go:73-138 | on a valid market map the index prices and the scaled prices are the same for every iteration order |
| `MarketPrices.TicksConverge` | pkg/math/oracle/aggregator.go:73-217 | after more ticks than a market's rank its index price is its direct recursive evaluation, whatever the prices were at the start |
| `MarketPrices.TicksSettle` | pkg/math/oracle/aggregator.go:73-217 | then a further tick changes nothing |
| `PriceCycles.TwoCycleIsValid` | x/marketmap/types/market.go:15-41 | validation of the market map lets two tickers pass that depend on each other |
| `PriceCycles.SelfCycleIsValid` | x/marketmap/types/market.go:15-41 | and a ticker that depends on itself |
| `PriceCycles.CycleTicks` | pkg/math/oracle/aggregator.go:198-217 | in any market map, a tick on a ring of single-provider markets, each normalized by the next, gives every market its provider's price times the next one's index price, or none if that has none |
| `PriceCycles.CycleTurns` | pkg/math/oracle/aggregator.go:198-217 | as many ticks as the ring has markets multiply every index price by the product of all provider prices, from any tick on |
| `PriceCycles.CycleSettlesExactly` | pkg/math/oracle/README.md:178-182 | some tick leaves a ring as it is, and then every later one does, if and only if every start price is its provider's price times the next market's, or all markets start with an index price and some provider price is zero |
| `PriceCycles.CycleDivergesExactly` | pkg/math/oracle/README.md:178-182 | the index price of every market on a ring exceeds every bound if and only if the product of the provider prices exceeds 1 in magnitude and some market starts with an index price other than zero |
| `PriceCycles.CycleVanishesExactly` | pkg/math/oracle/README.md:178-182 | the index price of every market on a ring falls below every positive bound for good if and only if the product is below 1 in magnitude or no market starts with an index price other than zero |
| `IndexPriceAggregator.SortBigFloats` | pkg/math/math.go:104-116 | sorts the pointers in place; the objects keep their values |
| `IndexPriceAggregator.CalculateMedian` | pkg/math/math.go:120-139 | the median object, which may be one of those given |
| `IndexPriceAggregator.ScaleBigFloat` | pkg/math/math.go:93-101 | multiplies the given object in place |
| `IndexPriceAggregator.Aggregator.GetProviderPrice` | pkg/math/oracle/utils.go:15-37 | the price, as the provider's own object or, when inverted, as a new one |
| `IndexPriceAggregator.Aggregator.GetIndexPrice` | pkg/math/oracle/utils.go:41-54 | the index price, unless missing or nil |
| `IndexPriceAggregator.Aggregator.CalculateAdjustedPrice` | pkg/math/oracle/aggregator.go:198-217 | the adjusted price; provider prices and index prices keep their values |
| `IndexPriceAggregator.Aggregator.CalculateConvertedPrices` | pkg/math/oracle/aggregator.go:143-186 | the convertible prices in configuration order |
| `IndexPriceAggregator.Aggregator.AggregatePrices` | pkg/math/oracle/aggregator.go:73-138 | one tick: no existing price object is written to, the new maps hold new objects only and share none, and their values are those of the specification; it panics exactly when a market passes its count check with no price |
| `IndexPriceAggregator.Aggregator.SetIndexPrices` | pkg/math/oracle/utils.go:57-64 | the index prices are replaced |
| `IndexPriceAggregator.Aggregator.SetProviderPrices` | pkg/math/oracle/utils.go:94-103 | one provider's prices are replaced |
| `IndexPriceAggregator.Aggregator.Reset` | pkg/math/oracle/utils.go:106-111 | no provider prices are left |
| `IndexPriceAggregator.RunTicks` | pkg/math/oracle/aggregator.go:73-138 | calling AggregatePrices n times on the real object reaches the direct evaluation of every market of rank below n and leaves the provider prices alone |
| `CoinbaseFeed.WebSocketHandler.CheckSequenceNumber` | providers/websockets/coinbase/parse.go:102-126 | passes, and records the number, exactly when it is not below the recorded one |
| `CoinbaseFeed.WebSocketHandler.ParseTickerResponseMessage` | providers/websockets/coinbase/parse.go:19-57 | the handler's state and the response |
| `CoinbaseFeed.WebSocketHandler.ParseHeartbeatResponseMessage` | providers/websockets/coinbase/parse.go:63-97 | the handler's state and the response |
| `CoinbaseFeed.Provider.UpdateData` | providers/base/fetch.go:187-240 | the store after one result |
| `CoinbaseFeed.Provider.Recv` | providers/base/fetch.go:139-183 | the store after one response, whatever the order of its tickers |
| `CoinbaseFeed.Receive` | providers/base/fetch.go:139-240 | handler and store after any messages delivered in order |
| `CoinbaseFeed.SequenceTracksHighest` | providers/websockets/coinbase/parse.go:102-126 | the recorded sequence number is the highest of the history |
| `CoinbaseFeed.InOrderPasses` | providers/websockets/coinbase/parse.go:102-126 | a message passes the check exactly when no earlier one of its ticker has a higher number |
| `CoinbaseFeed.AnsweredExactly` | providers/websockets/coinbase/parse.go:19-115 | after any history a message is answered for exactly its own ticker: with a result if it is an accepted price or a heartbeat in order for the recorded trade, with an error otherwise |
| `CoinbaseFeed.Freshness` | providers/websockets/coinbase/parse.go:19-126 | over every history with a clock that does not go back: there is an entry exactly when a ticker message was accepted; it holds the price of the last one, with the time of the last in-order heartbeat that names its trade |
| `CoinbaseFeed.PriceOnAnyClock` | providers/base/fetch.go:187-240 | over every history on any clock: the price is that of the last accepted message, unless a later-stamped entry was there when it arrived |
| `CoinbaseFeed.TimestampsNeverDecrease` | providers/base/fetch.go:207-217 | no message removes an entry or turns a timestamp back |
| `CoinbaseFeed.HeartbeatOnlyRefreshes` | providers/base/fetch.go:192-231 | a heartbeat creates no entry and changes no price |
| `CoinbaseFeed.LastPriceStoredExactly` | providers/base/fetch.go:207-240 | over every history on any clock: the stored price is that of the last accepted message if and only if that message met no later-stamped entry, or one with the same price |
| `CoinbaseFeed.StalePriceRefreshed` | providers/websockets/coinbase/parse.go:83-96 | a history with a clock that goes back after which an older price counts as fresh |

## Left out

- Marshalling of extended commits, signature checks, key lookup, bech32, sha256 and the parsing of names and numbers: foreign code, parameters here.
- Compression codecs: they wrap the default codecs; only the default ones are modelled.
- Logging, metrics, latency measurements, locks, timeouts and the panic recovery of the extend handler (its effect, an empty extension, is modelled).
- HTTP, gRPC and websocket connections, the JSON of Coinbase messages, subscriptions, and every other exchange.
- Which of the validation errors of a commit is returned: `ValidateVoteExtensions` and `ValidateExtendedCommitAgainstLastCommit` are described by acceptance; handlers' errors by their kind.
- Wrapped proposal handlers that change the request they are given: they are functions of the context, the size limit and the transactions.
- Nil requests, which every handler refuses.
- Nil against empty `Prices` maps: both are the empty map.
- Overflow of the sizes computed for a message: a message whose encoding does not fit memory is outside `OracleVoteExtension.Size`, `Marshal` and `MarshalToSizedBuffer`; the byte count of `injectAndResize` is not wrapped either.
- Which permutation Go's library sort produces among equal prices: an insertion sort with the same comparison stands for it, and only "sorted permutation" is used.
- Exact rounding, infinities and signed zeros of big.Float: values are reals, operations arbitrary functions.
- Bounds of math.Int and LegacyDec other than the 256 bits of a written price: stakes do not come near them.
- Negative bonded tokens, which the staking module excludes.
- Nonces are not wrapped at 2^64.
- Cycles through markets with several providers, whose medians mix the ring with other prices: rings have one provider a market.
- The metadata of tickers and providers in a market map; the format of pair names is a parameter of `ValidMarketMap`.
- Adding and removing pairs, market-map updates and genesis: the keeper is the state between two blocks.
- PreBlock: the module manager's own PreBlock, which runs first, and the metrics recorded afterwards.
- Goroutines and channels of the providers: responses are delivered in order and none is lost.

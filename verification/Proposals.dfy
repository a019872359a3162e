/**
 The proposal handlers (abci/proposals): the proposer prunes invalid vote extensions, encodes the extended commit and
 injects it as the first transaction; every validator decodes and validates it again.

 Marshalling of an extended commit is a parameter (CommitCodec).  Vote extensions are decoded by the wire format proved in
 VoteExtensionWire.
 */
module Proposals {
  import opened Varint
  import opened Wrappers
  import opened Abci
  import opened Commit
  import opened CurrencyPairStrategy
  import opened VoteExtensionWire
  import VoteExtension

  const MAXIMUM_PRICE_SIZE: nat := 33

  // ---------------------------------------------------------------- validating one extension

  predicate ValidOracleExtension(ctx: Ctx, prices: Prices) {
    && MaxNumCP(ctx).Success?
    && |prices| <= MaxNumCP(ctx).value
    && forall k <- prices :: |prices[k]| <= MAXIMUM_PRICE_SIZE
  }

  method ValidateOracleVoteExtension(ctx: Ctx, prices: Prices, strategy: Strategy) returns (ok: bool)
    ensures ok <==> ValidOracleExtension(ctx, prices)
  {
    var maxNumCP := strategy.GetMaxNumCP(ctx);
    if maxNumCP.Failure? || |prices| > maxNumCP.value {
      return false;
    }
    var todo := prices;
    while todo != map[]
      invariant todo.Keys <= prices.Keys && forall k <- todo :: todo[k] == prices[k]
      invariant forall k <- prices :: k !in todo ==> |prices[k]| <= MAXIMUM_PRICE_SIZE
      decreases |todo|
    {
      assert todo.Keys != {};
      var k :| k in todo.Keys;
      if |todo[k]| > MAXIMUM_PRICE_SIZE {
        return false;
      }
      SmallerWithout(todo, k);
      todo := todo - {k};
    }
    ok := true;
  }

  /** A vote without extension and signature is not checked. */
  predicate VoteValid(ctx: Ctx, v: ExtendedVote) {
    (v.voteExtension == None && v.extensionSignature == None) ||
    var decoded := Unmarshal(Contents(v.voteExtension));
    decoded.Decoded? && ValidOracleExtension(ctx, decoded.prices)
  }

  method ValidateVoteExtension(ctx: Ctx, v: ExtendedVote, strategy: Strategy) returns (ok: bool)
    ensures ok <==> VoteValid(ctx, v)
  {
    if v.voteExtension == None && v.extensionSignature == None {
      return true;
    }
    var ve := new VoteExtension.OracleVoteExtension();
    var err := ve.Unmarshal(Contents(v.voteExtension));
    if err.Some? {
      return false;
    }
    ok := ValidateOracleVoteExtension(ctx, ve.Prices, strategy);
  }

  /** NewDefaultValidateVoteExtensionsFn: nothing is required while extensions are disabled. */
  predicate CommitValid(ctx: Ctx, store: ValidatorStore, ec: ExtendedCommit) {
    VoteExtensionsEnabled(ctx) ==> Acceptable(ctx, store, ec)
  }

  /** What ValidateExtendedCommitInfo accepts. */
  predicate CommitInfoValid(ctx: Ctx, store: ValidatorStore, ec: ExtendedCommit) {
    CommitValid(ctx, store, ec) && forall i :: 0 <= i < |ec.votes| ==> VoteValid(ctx, ec.votes[i])
  }

  // ---------------------------------------------------------------- pruning

  function PruneVote(ctx: Ctx, v: ExtendedVote): ExtendedVote {
    if VoteValid(ctx, v) then v
    else v.(blockIdFlag := FLAG_ABSENT, extensionSignature := None, voteExtension := None)
  }

  function PruneVotes(ctx: Ctx, votes: seq<ExtendedVote>): (pruned: seq<ExtendedVote>)
    ensures |pruned| == |votes|
    ensures forall i :: 0 <= i < |votes| ==> pruned[i] == PruneVote(ctx, votes[i])
  {
    seq(|votes|, i requires 0 <= i < |votes| => PruneVote(ctx, votes[i]))
  }

  function Prune(ctx: Ctx, ec: ExtendedCommit): ExtendedCommit {
    ec.(votes := PruneVotes(ctx, ec.votes))
  }

  /** Pruning twice is pruning once, and what is left is valid. */
  lemma PruneIdempotent(ctx: Ctx, ec: ExtendedCommit)
    ensures Prune(ctx, Prune(ctx, ec)) == Prune(ctx, ec)
    ensures forall i :: 0 <= i < |ec.votes| ==> VoteValid(ctx, Prune(ctx, ec).votes[i])
  {
  }

  /** Pruning keeps the order, the addresses and the powers, and with them agreement with the last commit. */
  lemma PruneKeepsAgreement(ctx: Ctx, ec: ExtendedCommit, lc: LastCommit)
    requires AgreesWithLastCommit(ec, lc)
    ensures AgreesWithLastCommit(Prune(ctx, ec), lc)
    ensures forall i :: 0 <= i < |ec.votes| ==> Prune(ctx, ec).votes[i].validator == ec.votes[i].validator
  {
  }

  lemma {:induction false} SamePower(v1: seq<ExtendedVote>, v2: seq<ExtendedVote>)
    requires |v1| == |v2|
    requires forall i :: 0 <= i < |v1| ==> v1[i].validator == v2[i].validator
    ensures Power(v1) == Power(v2)
    ensures (forall i :: 0 <= i < |v1| ==> v1[i].blockIdFlag == v2[i].blockIdFlag) ==> CommitPower(v1) == CommitPower(v2)
  {
    if v1 != [] {
      SamePower(v1[..|v1| - 1], v2[..|v2| - 1]);
    }
  }

  /** Pruning an acceptable commit loses acceptance exactly when the remaining commit votes are too few. */
  lemma PruneKeepsAcceptance(ctx: Ctx, store: ValidatorStore, ec: ExtendedCommit)
    requires VoteExtensionsEnabled(ctx) && Acceptable(ctx, store, ec)
    ensures Acceptable(ctx, store, Prune(ctx, ec))
            <==> Wrap(CommitPower(Prune(ctx, ec).votes)) >= RequiredPower(Wrap(Power(ec.votes)))
  {
    hide VoteValid, Wrap, AgreesWithLastCommit, Signed, RequiredPower;
    PruneKeepsAgreement(ctx, ec, ctx.lastCommit);
    SamePower(ec.votes, Prune(ctx, ec).votes);
    forall i | 0 <= i < |ec.votes|
      ensures VoteAcceptable(ctx, store, ec.round, Prune(ctx, ec).votes[i])
    {
      assert VoteAcceptable(ctx, store, ec.round, ec.votes[i]);
    }
  }

  // ---------------------------------------------------------------- encoding the commit

  /** Marshal and Unmarshal of ExtendedCommitInfo. */
  datatype CommitCodec = CommitCodec(marshal: ExtendedCommit -> Option<GoBytes>, unmarshal: GoBytes -> Option<ExtendedCommit>)

  /** DefaultExtendedCommitCodec.Decode: no bytes are the empty commit. */
  function DecodeCommit(codec: CommitCodec, b: GoBytes): Option<ExtendedCommit> {
    if |b| == 0 then Some(ExtendedCommit(0, [])) else codec.unmarshal(b)
  }

  function NilIfEmpty(s: Slice): Slice {
    if Contents(s) == [] then None else s
  }

  /** What a proto3 round trip makes of a vote: empty byte fields come back nil. */
  function AfterWire(v: ExtendedVote): ExtendedVote {
    v.(voteExtension := NilIfEmpty(v.voteExtension), extensionSignature := NilIfEmpty(v.extensionSignature))
  }

  function CommitAfterWire(ec: ExtendedCommit): ExtendedCommit {
    ec.(votes := seq(|ec.votes|, i requires 0 <= i < |ec.votes| => AfterWire(ec.votes[i])))
  }

  /** The assumption on the foreign codec: a round trip up to nil against empty, and votes take space. */
  ghost predicate Faithful(codec: CommitCodec) {
    forall ec :: codec.marshal(ec).Some? ==>
      && codec.unmarshal(codec.marshal(ec).value) == Some(CommitAfterWire(ec))
      && (ec.votes != [] ==> codec.marshal(ec).value != [])
  }

  lemma WireKeepsVoteValid(ctx: Ctx, v: ExtendedVote)
    requires VoteValid(ctx, v)
    ensures VoteValid(ctx, AfterWire(v))
  {
  }

  lemma WireKeepsAcceptable(ctx: Ctx, store: ValidatorStore, ec: ExtendedCommit)
    ensures Acceptable(ctx, store, ec) ==> Acceptable(ctx, store, CommitAfterWire(ec))
  {
    hide Wrap, Signed, CompareValidators, RequiredPower;
    var wire := CommitAfterWire(ec);
    SamePower(ec.votes, wire.votes);
    if Acceptable(ctx, store, ec) {
      forall i | 0 <= i < |ec.votes|
        ensures MatchesCommitVote(wire.votes[i], ctx.lastCommit.votes[i])
        ensures VoteAcceptable(ctx, store, ec.round, wire.votes[i])
      {
        assert MatchesCommitVote(ec.votes[i], ctx.lastCommit.votes[i]);
        assert VoteAcceptable(ctx, store, ec.round, ec.votes[i]);
        WireKeepsSignature(ctx, store, ec.round, ec.votes[i]);
      }
    }
  }

  lemma WireKeepsSignature(ctx: Ctx, store: ValidatorStore, round: int, v: ExtendedVote)
    ensures Signed(ctx, store, round, AfterWire(v)) == Signed(ctx, store, round, v)
  {
  }

  /**
   Prepare/Process coherence: what survives pruning and validation passes the validation of every other validator in
   the same state, after having been encoded and decoded.
   */
  lemma PrunedCommitIsAccepted(ctx: Ctx, store: ValidatorStore, codec: CommitCodec, ec: ExtendedCommit)
    requires Faithful(codec) && VoteExtensionsEnabled(ctx)
    requires CommitValid(ctx, store, Prune(ctx, ec))
    requires codec.marshal(Prune(ctx, ec)).Some?
    ensures var b := codec.marshal(Prune(ctx, ec)).value;
            |b| > 0 && DecodeCommit(codec, b).Some? && CommitInfoValid(ctx, store, DecodeCommit(codec, b).value)
  {
    hide VoteValid, AgreesWithLastCommit, VoteAcceptable, Wrap, RequiredPower;
    var pruned := Prune(ctx, ec);
    assert pruned.votes != [] by {
      assert Wrap(0) == 0 by { WrapExact(0); }
    }
    WireKeepsAcceptable(ctx, store, pruned);
    PruneIdempotent(ctx, ec);
    forall i | 0 <= i < |pruned.votes| ensures VoteValid(ctx, CommitAfterWire(pruned).votes[i]) {
      WireKeepsVoteValid(ctx, pruned.votes[i]);
    }
  }

  /** The injected commit of a proposal passes validation. */
  predicate ProposalAccepted(codec: CommitCodec, store: ValidatorStore, ctx: Ctx, txs: seq<GoBytes>) {
    |txs| >= 1 && DecodeCommit(codec, txs[0]).Some? && CommitInfoValid(ctx, store, DecodeCommit(codec, txs[0]).value)
  }

  // ---------------------------------------------------------------- injecting the commit

  type Tx = GoBytes

  function TotalBytes(txs: seq<Tx>): nat {
    if txs == [] then 0 else |txs[0]| + TotalBytes(txs[1..])
  }

  /** The longest prefix within the budget. */
  function Fitting(txs: seq<Tx>, budget: int): seq<Tx> {
    if txs == [] || |txs[0]| > budget then [] else [txs[0]] + Fitting(txs[1..], budget - |txs[0]|)
  }

  /** The candidate list: the injected transaction goes first unless it is absent, already there, or too large. */
  function Candidates(appTxs: seq<Tx>, injectTx: Tx, maxSizeBytes: int): seq<Tx> {
    if |injectTx| != 0 && (|appTxs| < 1 || appTxs[0] != injectTx) && |injectTx| <= maxSizeBytes
    then [injectTx] + appTxs else appTxs
  }

  function InjectAndResize(appTxs: seq<Tx>, injectTx: Tx, maxSizeBytes: int): seq<Tx> {
    Fitting(Candidates(appTxs, injectTx, maxSizeBytes), maxSizeBytes)
  }

  lemma {:induction false} FittingSplit(done: seq<Tx>, rest: seq<Tx>, budget: int)
    requires TotalBytes(done) <= budget
    ensures Fitting(done + rest, budget) == done + Fitting(rest, budget - TotalBytes(done))
  {
    if done == [] {
      assert done + rest == rest;
    } else {
      assert (done + rest)[1..] == done[1..] + rest;
      FittingSplit(done[1..], rest, budget - |done[0]|);
    }
  }

  lemma {:induction false} TotalBytesAppend(txs: seq<Tx>, tx: Tx)
    ensures TotalBytes(txs + [tx]) == TotalBytes(txs) + |tx|
  {
    if txs != [] {
      assert (txs + [tx])[1..] == txs[1..] + [tx];
      TotalBytesAppend(txs[1..], tx);
    }
  }

  lemma TotalBytesStep(txs: seq<Tx>, k: nat)
    requires k < |txs|
    ensures TotalBytes(txs[..k + 1]) == TotalBytes(txs[..k]) + |txs[k]|
  {
    assert txs[..k + 1] == txs[..k] + [txs[k]];
    TotalBytesAppend(txs[..k], txs[k]);
  }

  /** The prefix of k transactions is the longest one when the next transaction overruns the budget. */
  lemma FittingStops(txs: seq<Tx>, k: nat, budget: int)
    requires k <= |txs|
    requires k == 0 || TotalBytes(txs[..k]) <= budget
    requires k == |txs| || TotalBytes(txs[..k + 1]) > budget
    ensures Fitting(txs, budget) == txs[..k]
  {
    if k < |txs| {
      TotalBytesStep(txs, k);
    }
    if k > 0 {
      assert txs == txs[..k] + txs[k..];
      FittingSplit(txs[..k], txs[k..], budget);
    }
  }

  method InjectAndResizeTxs(appTxs: seq<Tx>, injectTx: Tx, maxSizeBytes: int) returns (returnedTxs: seq<Tx>)
    ensures returnedTxs == InjectAndResize(appTxs, injectTx, maxSizeBytes)
  {
    ghost var all := Candidates(appTxs, injectTx, maxSizeBytes);
    ghost var d := |all| - |appTxs|;
    returnedTxs := [];
    var consumedBytes := 0;
    if |injectTx| != 0 && (|appTxs| < 1 || appTxs[0] != injectTx) {
      var injectBytes := |injectTx|;
      if injectBytes <= maxSizeBytes {
        consumedBytes := consumedBytes + injectBytes;
        returnedTxs := returnedTxs + [injectTx];
        TotalBytesStep(all, 0);
      }
    }
    var i := 0;
    while i < |appTxs|
      invariant 0 <= i <= |appTxs|
      invariant returnedTxs == all[..i + d]
      invariant consumedBytes == TotalBytes(all[..i + d])
      invariant i + d == 0 || consumedBytes <= maxSizeBytes
      invariant d >= 0 && appTxs == all[d..]
    {
      var tx := appTxs[i];
      TotalBytesStep(all, i + d);
      consumedBytes := consumedBytes + |tx|;
      if consumedBytes > maxSizeBytes {
        FittingStops(all, i + d, maxSizeBytes);
        return;
      }
      returnedTxs := returnedTxs + [tx];
      i := i + 1;
    }
    FittingStops(all, i + d, maxSizeBytes);
  }

  /** Fitting is what its name says: the one prefix that fits and cannot be longer. */
  lemma {:induction false} FittingIsLongestPrefix(txs: seq<Tx>, budget: int)
    requires budget >= 0
    ensures Fitting(txs, budget) <= txs
    ensures TotalBytes(Fitting(txs, budget)) <= budget
    ensures forall n :: |Fitting(txs, budget)| < n <= |txs| ==> TotalBytes(txs[..n]) > budget
  {
    if txs != [] && |txs[0]| <= budget {
      FittingIsLongestPrefix(txs[1..], budget - |txs[0]|);
      forall n | |Fitting(txs, budget)| < n <= |txs| ensures TotalBytes(txs[..n]) > budget {
        assert txs[..n][1..] == txs[1..][..n - 1];
      }
    } else if txs != [] {
      forall n | 0 < n <= |txs| ensures TotalBytes(txs[..n]) > budget {
        assert txs[..n][0] == txs[0];
      }
    }
  }

  lemma {:induction false} FittingAll(txs: seq<Tx>, budget: int)
    requires TotalBytes(txs) <= budget
    ensures Fitting(txs, budget) == txs
  {
    if txs != [] {
      FittingAll(txs[1..], budget - |txs[0]|);
    }
  }

  /** txs is the longest prefix of the list within the limit; below zero nothing is. */
  predicate IsCutTo(txs: seq<Tx>, all: seq<Tx>, maxSizeBytes: int) {
    && txs <= all
    && (if maxSizeBytes < 0 then txs == [] else TotalBytes(txs) <= maxSizeBytes)
    && forall n :: |txs| < n <= |all| ==> TotalBytes(all[..n]) > maxSizeBytes
  }

  /**
   What is proposed, for every transaction to inject (also none) and every limit: the application's list, with the injected transaction in
   front unless there is none, it is too large, or it is there already, cut to the limit.
   */
  lemma InjectExactly(appTxs: seq<Tx>, injectTx: Tx, maxSizeBytes: int)
    ensures IsCutTo(InjectAndResize(appTxs, injectTx, maxSizeBytes),
                    if injectTx == [] || |injectTx| > maxSizeBytes || (appTxs != [] && appTxs[0] == injectTx) then appTxs else [injectTx] + appTxs,
                    maxSizeBytes)
  {
    if maxSizeBytes >= 0 {
      FittingIsLongestPrefix(Candidates(appTxs, injectTx, maxSizeBytes), maxSizeBytes);
    }
  }

  /** A list that fits as a whole is proposed as a whole. */
  lemma AllInjected(appTxs: seq<Tx>, injectTx: Tx, maxSizeBytes: int)
    requires |injectTx| + TotalBytes(appTxs) <= maxSizeBytes
    ensures InjectAndResize(appTxs, injectTx, maxSizeBytes)
            == if injectTx == [] || (appTxs != [] && appTxs[0] == injectTx) then appTxs else [injectTx] + appTxs
  {
    FittingAll(Candidates(appTxs, injectTx, maxSizeBytes), maxSizeBytes);
  }

  /** Injecting again changes nothing. */
  lemma InjectIdempotent(appTxs: seq<Tx>, injectTx: Tx, maxSizeBytes: int)
    ensures InjectAndResize(InjectAndResize(appTxs, injectTx, maxSizeBytes), injectTx, maxSizeBytes)
            == InjectAndResize(appTxs, injectTx, maxSizeBytes)
  {
    var all := Candidates(appTxs, injectTx, maxSizeBytes);
    var once := InjectAndResize(appTxs, injectTx, maxSizeBytes);
    if maxSizeBytes >= 0 {
      FittingIsLongestPrefix(all, maxSizeBytes);
      assert Candidates(once, injectTx, maxSizeBytes) == once;
      FittingAll(once, maxSizeBytes);
    }
  }

  /** An injected transaction that fits is first, whatever the application's transactions are. */
  lemma InjectedIsFirst(appTxs: seq<Tx>, injectTx: Tx, maxSizeBytes: int)
    requires 0 < |injectTx| <= maxSizeBytes
    ensures var txs := InjectAndResize(appTxs, injectTx, maxSizeBytes);
            |txs| > 0 && txs[0] == injectTx && TotalBytes(txs) <= maxSizeBytes
  {
    FittingIsLongestPrefix(Candidates(appTxs, injectTx, maxSizeBytes), maxSizeBytes);
  }

  lemma {:induction false} PrefixBytesGrow(txs: seq<Tx>, m: nat, n: nat)
    requires m <= n <= |txs|
    ensures TotalBytes(txs[..m]) <= TotalBytes(txs[..n])
  {
    if m < n {
      PrefixBytesGrow(txs, m, n - 1);
      TotalBytesStep(txs, n - 1);
    }
  }

  /** A transaction is kept exactly when everything up to and including it fits. */
  lemma KeptExactly(txs: seq<Tx>, budget: int, k: nat)
    requires budget >= 0 && k < |txs|
    ensures k < |Fitting(txs, budget)| <==> TotalBytes(txs[..k + 1]) <= budget
  {
    FittingIsLongestPrefix(txs, budget);
    var n := |Fitting(txs, budget)|;
    assert Fitting(txs, budget) == txs[..n];
    if k < n {
      PrefixBytesGrow(txs, k + 1, n);
    }
  }

  /** The application's transactions behind the injected one: a copy at the front is the injected one itself. */
  function Behind(appTxs: seq<Tx>, injectTx: Tx): seq<Tx> {
    if |appTxs| > 0 && appTxs[0] == injectTx then appTxs[1..] else appTxs
  }

  /**
   The handler's comment promises that the injected transaction appears only once.  It does exactly when every further copy in the
   application's list comes too late: up to and including it, the list overruns the limit.
   */
  lemma InjectedOnlyOnce(appTxs: seq<Tx>, injectTx: Tx, maxSizeBytes: int)
    requires 0 < |injectTx| <= maxSizeBytes
    ensures var behind := Behind(appTxs, injectTx);
            multiset(InjectAndResize(appTxs, injectTx, maxSizeBytes))[injectTx] == 1
            <==> forall k :: 0 <= k < |behind| && behind[k] == injectTx
                   ==> |injectTx| + TotalBytes(behind[..k + 1]) > maxSizeBytes
  {
    var behind, budget := Behind(appTxs, injectTx), maxSizeBytes - |injectTx|;
    var kept := Fitting(behind, budget);
    assert Candidates(appTxs, injectTx, maxSizeBytes) == [injectTx] + behind;
    assert ([injectTx] + behind)[1..] == behind;
    assert InjectAndResize(appTxs, injectTx, maxSizeBytes) == [injectTx] + kept;
    FittingIsLongestPrefix(behind, budget);
    forall k: nat | k < |behind|
      ensures k < |kept| <==> |injectTx| + TotalBytes(behind[..k + 1]) <= maxSizeBytes
      ensures k < |kept| ==> kept[k] == behind[k]
    {
      KeptExactly(behind, budget, k);
    }
  }

  lemma InjectedTwiceExample()
    ensures InjectAndResize([[1], [7]], [7], 100) == [[7], [1], [7]]
  {
    var all: seq<Tx> := [[7], [1], [7]];
    assert Candidates([[1], [7]], [7], 100) == all;
    assert TotalBytes(all) == 3 by {
      assert all[1..] == [[1], [7]] && all[1..][1..] == [[7]] && all[1..][1..][1..] == [];
    }
    FittingAll(all, 100);
  }

  // ---------------------------------------------------------------- the handlers

  datatype HandlerError = InvalidExtendedCommitInfo | CodecError | CommitExceedsBlock | WrappedHandlerError | MissingCommitInfo

  /** A request to prepare a proposal; the handler changes the size limit, the transactions and the votes in place. */
  class PrepareRequest {
    var maxTxBytes: int
    var txs: seq<Tx>
    const round: int
    const votes: array<ExtendedVote>

    constructor (maxTxBytes: int, txs: seq<Tx>, round: int, votes: array<ExtendedVote>)
      ensures this.maxTxBytes == maxTxBytes && this.txs == txs && this.round == round && this.votes == votes
    {
      this.maxTxBytes, this.txs, this.round, this.votes := maxTxBytes, txs, round, votes;
    }
  }

  class ProcessRequest {
    var txs: seq<Tx>

    constructor (txs: seq<Tx>)
      ensures this.txs == txs
    {
      this.txs := txs;
    }
  }

  /** The wrapped handlers: arbitrary functions of the context, the size limit and the transactions. */
  type WrappedPrepare = (Ctx, int, seq<Tx>) -> Option<seq<Tx>>
  type WrappedProcess = (Ctx, seq<Tx>) -> Option<bool>

  class ProposalHandler {
    const store: ValidatorStore
    const codec: CommitCodec
    const strategy: Strategy
    const prepareProposalHandler: WrappedPrepare
    const processProposalHandler: WrappedProcess
    const retainOracleDataInWrappedHandler: bool

    constructor (store: ValidatorStore, codec: CommitCodec, strategy: Strategy, prepare: WrappedPrepare, process: WrappedProcess, retain: bool)
      ensures this.store == store && this.codec == codec && this.strategy == strategy
      ensures this.prepareProposalHandler == prepare && this.processProposalHandler == process
      ensures this.retainOracleDataInWrappedHandler == retain
    {
      this.store, this.codec, this.strategy := store, codec, strategy;
      prepareProposalHandler, processProposalHandler := prepare, process;
      retainOracleDataInWrappedHandler := retain;
    }

    /** Overwrites the invalid votes in place and validates what is left. */
    method PruneAndValidateExtendedCommitInfo(ctx: Ctx, round: int, votes: array<ExtendedVote>) returns (ok: bool)
      modifies votes
      ensures votes[..] == PruneVotes(ctx, old(votes[..]))
      ensures ok <==> CommitValid(ctx, store, ExtendedCommit(round, votes[..]))
    {
      var i := 0;
      while i < votes.Length
        invariant 0 <= i <= votes.Length
        invariant forall k :: 0 <= k < i ==> votes[k] == PruneVote(ctx, old(votes[k]))
        invariant forall k :: i <= k < votes.Length ==> votes[k] == old(votes[k])
      {
        var vote := votes[i];
        var valid := ValidateVoteExtension(ctx, vote, strategy);
        if !valid {
          vote := vote.(blockIdFlag := FLAG_ABSENT);
          vote := vote.(extensionSignature := None);
          vote := vote.(voteExtension := None);
          votes[i] := vote;
        }
        i := i + 1;
      }
      ok := ValidateCommit(ctx, ExtendedCommit(round, votes[..]));
    }

    method ValidateCommit(ctx: Ctx, ec: ExtendedCommit) returns (ok: bool)
      ensures ok <==> CommitValid(ctx, store, ec)
    {
      if VoteExtensionsEnabled(ctx) {
        var err := ValidateVoteExtensions(ctx, store, ec);
        return err.None?;
      }
      ok := true;
    }

    method ValidateExtendedCommitInfo(ctx: Ctx, ec: ExtendedCommit) returns (ok: bool)
      ensures ok <==> CommitInfoValid(ctx, store, ec)
    {
      var commitOk := ValidateCommit(ctx, ec);
      if !commitOk {
        return false;
      }
      var i := 0;
      while i < |ec.votes|
        invariant 0 <= i <= |ec.votes|
        invariant forall k :: 0 <= k < i ==> VoteValid(ctx, ec.votes[k])
      {
        var valid := ValidateVoteExtension(ctx, ec.votes[i], strategy);
        if !valid {
          return false;
        }
        i := i + 1;
      }
      ok := true;
    }

    /** What the wrapped prepare handler is asked for, given the encoded commit. */
    function AskWrapped(ctx: Ctx, maxTxBytes: int, txs: seq<Tx>, extInfoBz: Tx): Option<seq<Tx>> {
      var txs' := if VoteExtensionsEnabled(ctx) && retainOracleDataInWrappedHandler then [extInfoBz] + txs else txs;
      prepareProposalHandler(ctx, maxTxBytes - |extInfoBz|, txs')
    }

    method PrepareProposal(ctx: Ctx, req: PrepareRequest) returns (r: Result<seq<Tx>, HandlerError>)
      modifies req`maxTxBytes, req`txs, req.votes
      ensures !VoteExtensionsEnabled(ctx) ==>
        var wrapped := AskWrapped(ctx, old(req.maxTxBytes), old(req.txs), []);
        r == if wrapped.None? then Failure(WrappedHandlerError)
             else Success(InjectAndResize(wrapped.value, [], old(req.maxTxBytes)))
      ensures VoteExtensionsEnabled(ctx) ==>
        var pruned := Prune(ctx, ExtendedCommit(req.round, old(req.votes[..])));
        if !CommitValid(ctx, store, pruned) then r == Failure(InvalidExtendedCommitInfo)
        else if codec.marshal(pruned).None? then r == Failure(CodecError)
        else
          var extInfoBz := codec.marshal(pruned).value;
          if |extInfoBz| > old(req.maxTxBytes) then r == Failure(CommitExceedsBlock)
          else
            var wrapped := AskWrapped(ctx, old(req.maxTxBytes), old(req.txs), extInfoBz);
            r == if wrapped.None? then Failure(WrappedHandlerError)
                 else Success(InjectAndResize(wrapped.value, extInfoBz, old(req.maxTxBytes)))
      ensures r.Success? ==>
        var injected := if VoteExtensionsEnabled(ctx) then codec.marshal(Prune(ctx, ExtendedCommit(req.round, old(req.votes[..])))).value else [];
        var wrapped := prepareProposalHandler(ctx, req.maxTxBytes, req.txs);
        && wrapped.Some?
        && IsCutTo(r.value, if injected == [] || (wrapped.value != [] && wrapped.value[0] == injected) then wrapped.value else [injected] + wrapped.value,
                   old(req.maxTxBytes))
      ensures !VoteExtensionsEnabled(ctx) ==>
        var wrapped := prepareProposalHandler(ctx, old(req.maxTxBytes), old(req.txs));
        && (r.Success? <==> wrapped.Some?)
        && (wrapped.Some? && TotalBytes(wrapped.value) <= old(req.maxTxBytes) ==> r.value == wrapped.value)
      ensures req.votes[..] == if VoteExtensionsEnabled(ctx) then PruneVotes(ctx, old(req.votes[..])) else old(req.votes[..])
      ensures !VoteExtensionsEnabled(ctx) || r in {Failure(InvalidExtendedCommitInfo), Failure(CodecError), Failure(CommitExceedsBlock)}
              ==> req.maxTxBytes == old(req.maxTxBytes) && req.txs == old(req.txs)
      ensures VoteExtensionsEnabled(ctx) && (r.Success? || r == Failure(WrappedHandlerError)) ==>
        var extInfoBz := codec.marshal(Prune(ctx, ExtendedCommit(req.round, old(req.votes[..])))).value;
        && req.maxTxBytes == old(req.maxTxBytes) - |extInfoBz|
        && req.txs == if retainOracleDataInWrappedHandler then [extInfoBz] + old(req.txs) else old(req.txs)
    {
      hide VoteValid, CommitValid, InjectAndResize, VoteExtensionsEnabled;
      var extInfoBz: Tx := [];
      if VoteExtensionsEnabled(ctx) {
        var valid := PruneAndValidateExtendedCommitInfo(ctx, req.round, req.votes);
        if !valid {
          return Failure(InvalidExtendedCommitInfo);
        }
        var encoded := codec.marshal(ExtendedCommit(req.round, req.votes[..]));
        if encoded.None? {
          return Failure(CodecError);
        }
        extInfoBz := encoded.value;
        var extInfoBzSize := |extInfoBz|;
        if extInfoBzSize <= req.maxTxBytes {
          req.maxTxBytes := req.maxTxBytes - extInfoBzSize;
        } else {
          return Failure(CommitExceedsBlock);
        }
        if retainOracleDataInWrappedHandler {
          req.txs := [extInfoBz] + req.txs;
        }
      }
      var wrapped := prepareProposalHandler(ctx, req.maxTxBytes, req.txs);
      if wrapped.None? {
        return Failure(WrappedHandlerError);
      }
      var txs := InjectAndResizeTxs(wrapped.value, extInfoBz, req.maxTxBytes + |extInfoBz|);
      InjectExactly(wrapped.value, extInfoBz, req.maxTxBytes + |extInfoBz|);
      if TotalBytes(wrapped.value) <= req.maxTxBytes {
        AllInjected(wrapped.value, extInfoBz, req.maxTxBytes + |extInfoBz|);
      }
      r := Success(txs);
    }

    predicate CommitAccepted(ctx: Ctx, txs: seq<Tx>) {
      ProposalAccepted(codec, store, ctx, txs)
    }

    /** The transactions are the same afterwards; the wrapped handler sees the injected one only if asked to. */
    method ProcessProposal(ctx: Ctx, req: ProcessRequest) returns (r: Result<bool, HandlerError>)
      modifies req
      ensures req.txs == old(req.txs)
      ensures VoteExtensionsEnabled(ctx) && !CommitAccepted(ctx, req.txs) ==>
        r == Failure(if |req.txs| < 1 then MissingCommitInfo
                     else if DecodeCommit(codec, req.txs[0]).None? then CodecError
                     else InvalidExtendedCommitInfo)
      ensures VoteExtensionsEnabled(ctx) && CommitAccepted(ctx, req.txs) ==>
        r == match processProposalHandler(ctx, if retainOracleDataInWrappedHandler then req.txs else req.txs[1..])
             case None => Failure(WrappedHandlerError)
             case Some(accept) => Success(accept)
      ensures !VoteExtensionsEnabled(ctx) ==>
        r == match processProposalHandler(ctx, req.txs) case None => Failure(WrappedHandlerError) case Some(accept) => Success(accept)
    {
      var injectedTx: Option<Tx> := None;
      if VoteExtensionsEnabled(ctx) {
        if |req.txs| < 1 {
          return Failure(MissingCommitInfo);
        }
        var extInfo := DecodeCommit(codec, req.txs[0]);
        if extInfo.None? {
          return Failure(CodecError);
        }
        var valid := ValidateExtendedCommitInfo(ctx, extInfo.value);
        if !valid {
          return Failure(InvalidExtendedCommitInfo);
        }
        if !retainOracleDataInWrappedHandler {
          injectedTx := Some(req.txs[0]);
          req.txs := req.txs[1..];
        }
      }
      var resp := processProposalHandler(ctx, req.txs);
      if resp.None? {
        r := Failure(WrappedHandlerError);
      } else {
        r := Success(resp.value);
      }
      if !retainOracleDataInWrappedHandler && injectedTx.Some? {
        req.txs := [injectedTx.value] + req.txs;
      }
    }
  }

  /** The state a proposal is checked in, once as proposer and once as validator, differs only in the mode. */
  function AsValidator(ctx: Ctx): Ctx {
    ctx.(mode := ProcessProposal)
  }

  lemma ValidatorSeesTheSame(ctx: Ctx, store: ValidatorStore, ec: ExtendedCommit)
    requires ctx.mode == PrepareProposal
    ensures CommitInfoValid(ctx, store, ec) == CommitInfoValid(AsValidator(ctx), store, ec)
    ensures VoteExtensionsEnabled(ctx) == VoteExtensionsEnabled(AsValidator(ctx))
  {
    hide AgreesWithLastCommit, Wrap, RequiredPower, Unmarshal, WellShaped;
    assert MaxNumCP(ctx) == MaxNumCP(AsValidator(ctx));
    forall v: ExtendedVote
      ensures VoteValid(ctx, v) == VoteValid(AsValidator(ctx), v)
      ensures VoteAcceptable(ctx, store, ec.round, v) == VoteAcceptable(AsValidator(ctx), store, ec.round, v)
    {
    }
  }

  /** What a successful PrepareProposal returns, stated for the properties below. */
  ghost predicate Prepared(h: ProposalHandler, ctx: Ctx, ec: ExtendedCommit, maxTxBytes: int, appTxs: seq<Tx>, txs: seq<Tx>) {
    && CommitValid(ctx, h.store, Prune(ctx, ec))
    && h.codec.marshal(Prune(ctx, ec)).Some?
    && |h.codec.marshal(Prune(ctx, ec)).value| <= maxTxBytes
    && txs == InjectAndResize(appTxs, h.codec.marshal(Prune(ctx, ec)).value, maxTxBytes)
  }

  /**
   Every successful PrepareProposal with extensions enabled puts the non-empty encoded commit first, stays within the
   original limit, and is accepted by the commit check of every validator in the same state, whatever transactions
   the wrapped handler returned.
   */
  lemma PreparedIsAccepted(h: ProposalHandler, ctx: Ctx, ec: ExtendedCommit, maxTxBytes: int, appTxs: seq<Tx>, txs: seq<Tx>)
    requires ctx.mode == PrepareProposal && VoteExtensionsEnabled(ctx)
    requires Faithful(h.codec)
    requires Prepared(h, ctx, ec, maxTxBytes, appTxs, txs)
    ensures |txs| > 0 && |txs[0]| > 0 && TotalBytes(txs) <= maxTxBytes
    ensures h.codec.marshal(Prune(ctx, ec)) == Some(txs[0])
    ensures h.CommitAccepted(AsValidator(ctx), txs)
  {
    hide CommitInfoValid, CommitValid;
    PrunedCommitIsAccepted(ctx, h.store, h.codec, ec);
    var b := h.codec.marshal(Prune(ctx, ec)).value;
    InjectedIsFirst(appTxs, b, maxTxBytes);
    ValidatorSeesTheSame(ctx, h.store, DecodeCommit(h.codec, b).value);
  }

  /** The two handlers one after the other: the validator's verdict is that of its wrapped handler alone. */
  method PrepareThenProcess(h: ProposalHandler, ctx: Ctx, req: PrepareRequest)
    returns (prepared: Result<seq<Tx>, HandlerError>, verdict: Option<Result<bool, HandlerError>>)
    requires ctx.mode == PrepareProposal && VoteExtensionsEnabled(ctx)
    requires Faithful(h.codec)
    modifies req`maxTxBytes, req`txs, req.votes
    ensures prepared.Success? ==>
      && |prepared.value| > 0 && TotalBytes(prepared.value) <= old(req.maxTxBytes)
      && verdict == Some(match h.processProposalHandler(AsValidator(ctx),
                                 if h.retainOracleDataInWrappedHandler then prepared.value else prepared.value[1..])
                         case None => Failure(WrappedHandlerError)
                         case Some(accept) => Success(accept))
  {
    hide InjectAndResize, CommitInfoValid, CommitValid, Prune, TotalBytes;
    ghost var ec := ExtendedCommit(req.round, req.votes[..]);
    ghost var limit, given := req.maxTxBytes, req.txs;
    prepared := h.PrepareProposal(ctx, req);
    verdict := None;
    if prepared.Success? {
      ghost var appTxs := h.AskWrapped(ctx, limit, given, h.codec.marshal(Prune(ctx, ec)).value).value;
      PreparedIsAccepted(h, ctx, ec, limit, appTxs, prepared.value);
      ValidatorSeesTheSame(ctx, h.store, ec);
      var processRequest := new ProcessRequest(prepared.value);
      var v := h.ProcessProposal(AsValidator(ctx), processRequest);
      verdict := Some(v);
    }
  }

  // ---------------------------------------------------------------- accepted means consumable

  datatype Vote = Vote(consAddress: GoBytes, oracleVoteExtension: Prices)

  /** Decoding of the injected commit and of every extension in it. */
  function OracleVotes(codec: CommitCodec, proposal: seq<Tx>): Result<seq<Vote>, HandlerError> {
    if |proposal| < 1 then Failure(MissingCommitInfo)
    else
      var ec := DecodeCommit(codec, proposal[0]);
      if ec.None? then Failure(CodecError)
      else DecodeVotes(ec.value.votes)
  }

  function DecodeVotes(votes: seq<ExtendedVote>): Result<seq<Vote>, HandlerError> {
    if votes == [] then Success([])
    else
      var n := |votes| - 1;
      var front := DecodeVotes(votes[..n]);
      var decoded := Unmarshal(Contents(votes[n].voteExtension));
      if front.Failure? then front
      else if decoded.Failed? then Failure(CodecError)
      else Success(front.value + [Vote(votes[n].validator.address, decoded.prices)])
  }

  lemma {:induction false} DecodeVotesFails(votes: seq<ExtendedVote>, n: nat)
    requires n <= |votes| && DecodeVotes(votes[..n]).Failure?
    ensures DecodeVotes(votes) == Failure(CodecError)
    decreases |votes|
  {
    hide Unmarshal;
    if n < |votes| {
      assert votes[..|votes| - 1][..n] == votes[..n];
      DecodeVotesFails(votes[..|votes| - 1], n);
    } else {
      assert votes[..n] == votes;
      DecodeVotesError(votes);
    }
  }

  lemma {:induction false} DecodeVotesError(votes: seq<ExtendedVote>)
    ensures DecodeVotes(votes).Failure? ==> DecodeVotes(votes) == Failure(CodecError)
  {
    if votes != [] {
      DecodeVotesError(votes[..|votes| - 1]);
    }
  }

  method GetOracleVotes(codec: CommitCodec, proposal: seq<Tx>) returns (r: Result<seq<Vote>, HandlerError>)
    ensures r == OracleVotes(codec, proposal)
  {
    hide UnmarshalFrom;
    if |proposal| < 1 {
      return Failure(MissingCommitInfo);
    }
    var ec := DecodeCommit(codec, proposal[0]);
    if ec.None? {
      return Failure(CodecError);
    }
    var infos := ec.value.votes;
    var votes: seq<Vote> := [];
    var i := 0;
    while i < |infos|
      invariant 0 <= i <= |infos|
      invariant DecodeVotes(infos[..i]) == Success(votes)
    {
      assert infos[..i + 1][..i] == infos[..i];
      var ve := new VoteExtension.OracleVoteExtension();
      var err := ve.Unmarshal(Contents(infos[i].voteExtension));

      if err.Some? {
        DecodeVotesFails(infos, i + 1);
        return Failure(CodecError);
      }
      votes := votes + [Vote(infos[i].validator.address, ve.Prices)];
      i := i + 1;
    }
    assert infos[..i] == infos;
    r := Success(votes);
  }

  lemma {:induction false} ValidVotesDecode(ctx: Ctx, votes: seq<ExtendedVote>)
    requires forall i :: 0 <= i < |votes| ==> VoteValid(ctx, votes[i])
    ensures DecodeVotes(votes).Success? && |DecodeVotes(votes).value| == |votes|
    ensures forall i :: 0 <= i < |votes| ==>
              && DecodeVotes(votes).value[i].consAddress == votes[i].validator.address
              && Unmarshal(Contents(votes[i].voteExtension)) == Decoded(DecodeVotes(votes).value[i].oracleVoteExtension)
              && (DecodeVotes(votes).value[i].oracleVoteExtension == map[]
                  || ValidOracleExtension(ctx, DecodeVotes(votes).value[i].oracleVoteExtension))
  {
    hide VoteValid, Unmarshal, ValidOracleExtension;
    if votes != [] {
      var n := |votes| - 1;
      ValidVotesDecode(ctx, votes[..n]);
      ValidVoteDecodes(ctx, votes[n]);
    }
  }

  lemma ValidVoteDecodes(ctx: Ctx, v: ExtendedVote)
    requires VoteValid(ctx, v)
    ensures Unmarshal(Contents(v.voteExtension)).Decoded?
    ensures var prices := Unmarshal(Contents(v.voteExtension)).prices;
            prices == map[] || ValidOracleExtension(ctx, prices)
  {
  }

  /**
   A proposal whose commit is accepted can be consumed: extracting the votes from the same transactions succeeds, one
   per validator of the commit and in its order, and each of them respects the pair count and the price size.
   */
  lemma AcceptedIsConsumable(codec: CommitCodec, store: ValidatorStore, ctx: Ctx, txs: seq<Tx>)
    requires ProposalAccepted(codec, store, ctx, txs)
    ensures OracleVotes(codec, txs).Success?
    ensures var votes, ec := OracleVotes(codec, txs).value, DecodeCommit(codec, txs[0]).value;
            |votes| == |ec.votes| &&
            forall i :: 0 <= i < |votes| ==>
              && votes[i].consAddress == ec.votes[i].validator.address
              && Unmarshal(Contents(ec.votes[i].voteExtension)) == Decoded(votes[i].oracleVoteExtension)
              && (votes[i].oracleVoteExtension == map[] || ValidOracleExtension(ctx, votes[i].oracleVoteExtension))
  {
    hide CommitValid;
    ValidVotesDecode(ctx, DecodeCommit(codec, txs[0]).value.votes);
  }

  // ---------------------------------------------------------------- the rules, spelled out

  /** The bytes decode to at most `limit` entries of at most 33 bytes. */
  ghost predicate DecodesWithin(b: GoBytes, limit: int) {
    exists prices :: Unmarshal(b) == Decoded(prices) && |prices| <= limit && forall id <- prices :: |prices[id]| <= 33
  }

  /** The vote says nothing, or its extension decodes within the limit. */
  ghost predicate WithinLimits(v: ExtendedVote, limit: int) {
    (v.voteExtension.None? && v.extensionSignature.None?) || DecodesWithin(Contents(v.voteExtension), limit)
  }

  /** How many entries a vote in a proposal may have, if the counters can be read: the pairs on chain and those the last block removed. */
  lemma ProposalVoteExactly(ctx: Ctx, v: ExtendedVote)
    requires ctx.mode != OtherMode && ctx.oracle.numPairs.Some? && ctx.oracle.numRemoved.Some?
    requires ctx.oracle.numPairs.value + ctx.oracle.numRemoved.value < TWO_TO_THE_64
    ensures VoteValid(ctx, v) <==> WithinLimits(v, ctx.oracle.numPairs.value + ctx.oracle.numRemoved.value)
  {
    hide UnmarshalFrom;
  }

  /** Without the counters only votes that say nothing are valid. */
  lemma UncountedVoteExactly(ctx: Ctx, v: ExtendedVote)
    requires ctx.mode != OtherMode && (ctx.oracle.numPairs.None? || ctx.oracle.numRemoved.None?)
    ensures VoteValid(ctx, v) <==> v.voteExtension.None? && v.extensionSignature.None?
  {
    hide UnmarshalFrom;
  }

  /** Pruning leaves the votes within the limits as they are and makes absent votes of all others; round and length stay. */
  lemma PrunedExactly(ctx: Ctx, ec: ExtendedCommit, limit: int)
    requires ctx.mode != OtherMode && ctx.oracle.numPairs.Some? && ctx.oracle.numRemoved.Some?
    requires limit == ctx.oracle.numPairs.value + ctx.oracle.numRemoved.value < TWO_TO_THE_64
    ensures Prune(ctx, ec).round == ec.round && |Prune(ctx, ec).votes| == |ec.votes|
    ensures forall i :: 0 <= i < |ec.votes| ==>
              Prune(ctx, ec).votes[i] == if WithinLimits(ec.votes[i], limit) then ec.votes[i] else ExtendedVote(ec.votes[i].validator, None, None, 1)
  {
    hide VoteValid, WithinLimits;
    forall v ensures VoteValid(ctx, v) <==> WithinLimits(v, limit) {
      ProposalVoteExactly(ctx, v);
    }
  }

  /** The verdict on a proposal's commit, spelled out: it is the first transaction, lawful, and within the limits vote by vote. */
  lemma ProposalAcceptedExactly(codec: CommitCodec, store: ValidatorStore, ctx: Ctx, txs: seq<GoBytes>, limit: int)
    requires VoteExtensionsEnabled(ctx) && SaneLastCommit(ctx.lastCommit) && -TWO_TO_THE_63 < ctx.headerHeight <= TWO_TO_THE_63
    requires ctx.mode != OtherMode && ctx.oracle.numPairs.Some? && ctx.oracle.numRemoved.Some?
    requires limit == ctx.oracle.numPairs.value + ctx.oracle.numRemoved.value < TWO_TO_THE_64
    ensures ProposalAccepted(codec, store, ctx, txs)
            <==> && txs != [] && txs[0] != []
                 && exists ec :: codec.unmarshal(txs[0]) == Some(ec) && Lawful(ctx, store, ec) && forall v <- ec.votes :: WithinLimits(v, limit)
  {
    hide Acceptable, Lawful, VoteValid, WithinLimits, VoteExtensionsEnabled;
    if txs != [] {
      forall ec
        ensures Acceptable(ctx, store, ec) <==> Lawful(ctx, store, ec)
      {
        AcceptedExactlyLawful(ctx, store, ec);
      }
      NoCommitIsLawful(ctx, store);
      forall v: ExtendedVote ensures VoteValid(ctx, v) <==> WithinLimits(v, limit) {
        ProposalVoteExactly(ctx, v);
      }
    }
  }

  /** The commit that no bytes decode to is refused. */
  lemma NoCommitIsLawful(ctx: Ctx, store: ValidatorStore)
    ensures !Acceptable(ctx, store, ExtendedCommit(0, []))
  {
    WrapExact(0);
    assert Power([]) == 0;
  }

  /**
   Which votes a block is made of: those of the commit in the first transaction, in its order and with the decoded extensions.  There are
   none exactly when this transaction is missing, or it or some extension does not decode.
   */
  lemma VotesExactly(codec: CommitCodec, txs: seq<Tx>)
    ensures OracleVotes(codec, txs).Success?
            <==> && txs != [] && DecodeCommit(codec, txs[0]).Some?
                 && forall v <- DecodeCommit(codec, txs[0]).value.votes :: Unmarshal(Contents(v.voteExtension)).Decoded?
    ensures OracleVotes(codec, txs).Success? ==>
              var votes, infos := OracleVotes(codec, txs).value, DecodeCommit(codec, txs[0]).value.votes;
              && |votes| == |infos|
              && forall i :: 0 <= i < |votes| ==>
                   votes[i].consAddress == infos[i].validator.address && Decoded(votes[i].oracleVoteExtension) == Unmarshal(Contents(infos[i].voteExtension))
  {
    hide Unmarshal;
    if txs != [] && DecodeCommit(codec, txs[0]).Some? {
      DecodedVotes(DecodeCommit(codec, txs[0]).value.votes);
    }
  }

  lemma {:induction false} DecodedVotes(infos: seq<ExtendedVote>)
    ensures DecodeVotes(infos).Success? <==> forall v <- infos :: Unmarshal(Contents(v.voteExtension)).Decoded?
    ensures DecodeVotes(infos).Success? ==>
              var votes := DecodeVotes(infos).value;
              && |votes| == |infos|
              && forall i :: 0 <= i < |votes| ==>
                   votes[i].consAddress == infos[i].validator.address && Decoded(votes[i].oracleVoteExtension) == Unmarshal(Contents(infos[i].voteExtension))
  {
    hide Unmarshal;
    if infos != [] {
      var n := |infos| - 1;
      DecodedVotes(infos[..n]);
      assert infos == infos[..n] + [infos[n]];
    }
  }
}

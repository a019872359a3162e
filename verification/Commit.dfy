/**
 Validation of an extended commit against the last commit (abci/ve/utils.go).  Voting powers are int64 and the sums
 wrap around.  Key lookup, the signed byte string and signature verification are parameters (a ValidatorStore).
 */
module Commit {
  import opened Varint
  import opened Abci
  import opened Wrappers

  datatype KeyLookup = KeyMissing | KeyMalformed | Key(key: bytes)

  datatype ValidatorStore = ValidatorStore(
    pubKey: bytes -> KeyLookup,
    signBytes: (bytes, int, int, string) -> Option<bytes>,
    verify: (bytes, bytes, bytes) -> bool)

  datatype Invalid =
    | RoundMismatch | LengthMismatch | NotSorted | DuplicateAddress | AddressMismatch | PowerMismatch | FlagMismatch
    | MissingSignature | UnexpectedExtension | UnexpectedSignature | MalformedKey | EncodingFailed | BadSignature
    | NoVotingPower | InsufficientPower

  function VoteExtensionsEnabled(ctx: Ctx): bool {
    match ctx.enableHeight
    case None => false
    case Some(h) => h != 0 && ctx.height > 1 && h < ctx.height
  }

  // ---------------------------------------------------------------- int64 arithmetic

  function Wrap(x: int): int64 {
    (x + TWO_TO_THE_63) % TWO_TO_THE_64 - TWO_TO_THE_63
  }

  /** Go's integer division rounds toward zero. */
  function Quo(x: int, y: int): int
    requires y > 0
  {
    if x >= 0 then x / y else -(-x / y)
  }

  lemma WrapExact(x: int)
    requires -TWO_TO_THE_63 <= x < TWO_TO_THE_63
    ensures Wrap(x) == x
  {
  }

  lemma WrapAdds(x: int, y: int)
    ensures Wrap(Wrap(x) + y) == Wrap(x + y)
  {
  }

  // ---------------------------------------------------------------- the order of validators

  /** bytes.Compare */
  function BytesCompare(a: bytes, b: bytes): (c: int)
    ensures c == -1 || c == 0 || c == 1
  {
    if a == [] then (if b == [] then 0 else -1)
    else if b == [] then 1
    else if a[0] < b[0] then -1
    else if a[0] > b[0] then 1
    else BytesCompare(a[1..], b[1..])
  }

  lemma {:induction false} CompareEqual(a: bytes, b: bytes)
    ensures BytesCompare(a, b) == 0 <==> a == b
  {
    if a != [] && b != [] && a[0] == b[0] {
      CompareEqual(a[1..], b[1..]);
      assert a == [a[0]] + a[1..] && b == [b[0]] + b[1..];
    }
  }

  lemma {:induction false} CompareFlips(a: bytes, b: bytes)
    ensures BytesCompare(a, b) == -BytesCompare(b, a)
  {
    if a != [] && b != [] {
      CompareFlips(a[1..], b[1..]);
    }
  }

  lemma {:induction false} CompareTransitive(a: bytes, b: bytes, c: bytes)
    requires BytesCompare(a, b) <= 0 && BytesCompare(b, c) <= 0
    ensures BytesCompare(a, c) <= 0
  {
    if a != [] && b != [] && c != [] && a[0] == b[0] == c[0] {
      CompareTransitive(a[1..], b[1..], c[1..]);
    }
  }

  /** The comparison function given to slices.IsSortedFunc. */
  function CompareValidators(v1: Validator, v2: Validator): int {
    if v1.power == v2.power then BytesCompare(v1.address, v2.address)
    else
      var diff: int := Wrap(v1.power - v2.power);
      Wrap(-diff)
  }

  /** Larger power first, ties by address. */
  predicate Before(v1: Validator, v2: Validator) {
    v1.power > v2.power || (v1.power == v2.power && BytesCompare(v1.address, v2.address) < 0)
  }

  // ---------------------------------------------------------------- what acceptance means

  /** slices.IsSortedFunc: no element compares below its predecessor. */
  predicate AdjacentlySorted(votes: seq<ExtendedVote>) {
    forall i :: 0 < i < |votes| ==> CompareValidators(votes[i].validator, votes[i - 1].validator) >= 0
  }

  predicate DistinctAddresses(votes: seq<ExtendedVote>) {
    forall i, j :: 0 <= i < j < |votes| ==> votes[i].validator.address != votes[j].validator.address
  }

  /** An absent vote without extension and signature, which is also what pruning leaves. */
  predicate Blank(v: ExtendedVote) {
    v.blockIdFlag == FLAG_ABSENT && Contents(v.voteExtension) == [] && Contents(v.extensionSignature) == []
  }

  predicate MatchesCommitVote(v: ExtendedVote, lc: CommitVote) {
    v.validator == lc.validator && (Blank(v) || v.blockIdFlag == lc.blockIdFlag)
  }

  predicate AgreesWithLastCommit(ec: ExtendedCommit, lc: LastCommit) {
    && ec.round == lc.round
    && |ec.votes| == |lc.votes|
    && AdjacentlySorted(ec.votes)
    && DistinctAddresses(ec.votes)
    && forall i :: 0 <= i < |ec.votes| ==> MatchesCommitVote(ec.votes[i], lc.votes[i])
  }

  /** Presence of extension and signature against the flag. */
  predicate WellShaped(enabled: bool, v: ExtendedVote) {
    if !enabled then
      Contents(v.voteExtension) == [] && Contents(v.extensionSignature) == []
    else if v.blockIdFlag == FLAG_COMMIT then
      Contents(v.extensionSignature) != []
    else
      Contents(v.voteExtension) == [] && Contents(v.extensionSignature) == []
  }

  /** A commit vote carries a signature of its key over the extension; an unknown key is let through. */
  predicate Signed(ctx: Ctx, store: ValidatorStore, round: int, v: ExtendedVote) {
    match store.pubKey(v.validator.address)
    case KeyMissing => true
    case KeyMalformed => false
    case Key(key) =>
      var signed := store.signBytes(Contents(v.voteExtension), Wrap(ctx.headerHeight - 1), round, ctx.chainId);
      signed.Some? && store.verify(key, signed.value, Contents(v.extensionSignature))
  }

  predicate VoteAcceptable(ctx: Ctx, store: ValidatorStore, round: int, v: ExtendedVote) {
    var enabled := VoteExtensionsEnabled(ctx);
    WellShaped(enabled, v) &&
    (enabled && v.blockIdFlag == FLAG_COMMIT ==> Signed(ctx, store, round, v))
  }

  function Power(votes: seq<ExtendedVote>): int {
    if votes == [] then 0 else Power(votes[..|votes| - 1]) + votes[|votes| - 1].validator.power
  }

  function CommitPower(votes: seq<ExtendedVote>): int {
    if votes == [] then 0 else
    var last := votes[|votes| - 1];
    CommitPower(votes[..|votes| - 1]) + if last.blockIdFlag == FLAG_COMMIT then last.validator.power else 0
  }

  /** The power needed, computed on the wrapped total. */
  function RequiredPower(total: int64): int64 {
    Wrap(Quo(Wrap(total * 2), 3) + 1)
  }

  predicate Acceptable(ctx: Ctx, store: ValidatorStore, ec: ExtendedCommit) {
    && AgreesWithLastCommit(ec, ctx.lastCommit)
    && (forall i :: 0 <= i < |ec.votes| ==> VoteAcceptable(ctx, store, ec.round, ec.votes[i]))
    && Wrap(Power(ec.votes)) > 0
    && (VoteExtensionsEnabled(ctx) ==> Wrap(CommitPower(ec.votes)) >= RequiredPower(Wrap(Power(ec.votes))))
  }

  // ---------------------------------------------------------------- the validators themselves

  /** slices.IsSortedFunc walks from the end. */
  method IsSorted(votes: seq<ExtendedVote>) returns (sorted: bool)
    ensures sorted <==> AdjacentlySorted(votes)
  {
    var i := |votes| - 1;
    while i > 0
      invariant i < |votes|
      invariant forall k :: 0 < k < |votes| && i < k ==> CompareValidators(votes[k].validator, votes[k - 1].validator) >= 0
    {
      if CompareValidators(votes[i].validator, votes[i - 1].validator) < 0 {
        return false;
      }
      i := i - 1;
    }
    sorted := true;
  }

  method ValidateExtendedCommitAgainstLastCommit(ec: ExtendedCommit, lc: LastCommit) returns (err: Option<Invalid>)
    ensures err.None? <==> AgreesWithLastCommit(ec, lc)
  {
    if ec.round != lc.round {
      return Some(RoundMismatch);
    }
    if |ec.votes| != |lc.votes| {
      return Some(LengthMismatch);
    }
    var sorted := IsSorted(ec.votes);
    if !sorted {
      return Some(NotSorted);
    }
    var addressCache := {};
    var i := 0;
    while i < |ec.votes|
      invariant 0 <= i <= |ec.votes|
      invariant addressCache == set k | 0 <= k < i :: ec.votes[k].validator.address
      invariant DistinctAddresses(ec.votes[..i])
      invariant forall k :: 0 <= k < i ==> MatchesCommitVote(ec.votes[k], lc.votes[k])
    {
      var vote := ec.votes[i];
      if vote.validator.address in addressCache {
        var k :| 0 <= k < i && ec.votes[k].validator.address == vote.validator.address;
        return Some(DuplicateAddress);
      }
      addressCache := addressCache + {vote.validator.address};
      var lcVote := lc.votes[i];
      if vote.validator.address != lcVote.validator.address {
        return Some(AddressMismatch);
      }
      if vote.validator.power != lcVote.validator.power {
        return Some(PowerMismatch);
      }
      if !(vote.blockIdFlag == FLAG_ABSENT && Contents(vote.voteExtension) == [] && Contents(vote.extensionSignature) == []) {
        if vote.blockIdFlag != lcVote.blockIdFlag {
          return Some(FlagMismatch);
        }
      }
      i := i + 1;
    }
    assert ec.votes[..i] == ec.votes;
    err := None;
  }

  method ValidateVoteExtensions(ctx: Ctx, store: ValidatorStore, extCommit: ExtendedCommit) returns (err: Option<Invalid>)
    ensures err.None? <==> Acceptable(ctx, store, extCommit)
  {
    hide AgreesWithLastCommit, Wrap, Quo, VoteExtensionsEnabled;
    err := ValidateExtendedCommitAgainstLastCommit(extCommit, ctx.lastCommit);
    if err.Some? {
      return;
    }
    var extensionsEnabled := VoteExtensionsEnabled(ctx);
    WrapExact(0);
    var totalVP: int64, sumVP: int64 := 0, 0;
    var i := 0;
    while i < |extCommit.votes|
      invariant 0 <= i <= |extCommit.votes|
      invariant totalVP == Wrap(Power(extCommit.votes[..i]))
      invariant extensionsEnabled ==> sumVP == Wrap(CommitPower(extCommit.votes[..i]))
      invariant forall k :: 0 <= k < i ==> VoteAcceptable(ctx, store, extCommit.round, extCommit.votes[k])
    {
      var vote := extCommit.votes[i];
      assert extCommit.votes[..i + 1][..i] == extCommit.votes[..i];
      WrapAdds(Power(extCommit.votes[..i]), vote.validator.power);
      totalVP := Wrap(totalVP + vote.validator.power);
      i := i + 1;
      if extensionsEnabled {
        if vote.blockIdFlag == FLAG_COMMIT && Contents(vote.extensionSignature) == [] {
          return Some(MissingSignature);
        }
        if vote.blockIdFlag != FLAG_COMMIT && Contents(vote.voteExtension) != [] {
          return Some(UnexpectedExtension);
        }
        if vote.blockIdFlag != FLAG_COMMIT && Contents(vote.extensionSignature) != [] {
          return Some(UnexpectedSignature);
        }
      } else {
        if Contents(vote.voteExtension) != [] {
          return Some(UnexpectedExtension);
        }
        if Contents(vote.extensionSignature) != [] {
          return Some(UnexpectedSignature);
        }
        continue;
      }
      if vote.blockIdFlag != FLAG_COMMIT {
        continue;
      }
      WrapAdds(CommitPower(extCommit.votes[..i - 1]), vote.validator.power);
      sumVP := Wrap(sumVP + vote.validator.power);
      var lookup := store.pubKey(vote.validator.address);
      if lookup.KeyMissing? {
        continue;
      }
      if lookup.KeyMalformed? {
        return Some(MalformedKey);
      }
      var signed := store.signBytes(Contents(vote.voteExtension), Wrap(ctx.headerHeight - 1), extCommit.round, ctx.chainId);
      if signed.None? {
        return Some(EncodingFailed);
      }
      if !store.verify(lookup.key, signed.value, Contents(vote.extensionSignature)) {
        return Some(BadSignature);
      }
    }
    assert extCommit.votes[..i] == extCommit.votes;
    if totalVP <= 0 {
      return Some(NoVotingPower);
    }
    if extensionsEnabled {
      var requiredVP := Wrap(Quo(Wrap(totalVP * 2), 3) + 1);
      if sumVP < requiredVP {
        return Some(InsufficientPower);
      }
    }
    err := None;
  }

  // ---------------------------------------------------------------- consequences of acceptance

  /** Powers that CometBFT can produce: non-negative, with a total that leaves room for doubling. */
  predicate SanePowers(votes: seq<ExtendedVote>) {
    (forall v <- votes :: v.validator.power >= 0) && Power(votes) < 0x4000_0000_0000_0000
  }

  lemma {:induction false} CommitPowerBounds(votes: seq<ExtendedVote>)
    requires forall v <- votes :: v.validator.power >= 0
    ensures 0 <= CommitPower(votes) <= Power(votes)
  {
    if votes != [] {
      CommitPowerBounds(votes[..|votes| - 1]);
    }
  }

  /** The adjacent-pair check orders every pair. */
  lemma {:induction false} SortedGlobally(votes: seq<ExtendedVote>, i: nat, j: nat)
    requires forall v <- votes :: v.validator.power >= 0
    requires AdjacentlySorted(votes) && DistinctAddresses(votes)
    requires i < j < |votes|
    ensures Before(votes[i].validator, votes[j].validator)
    decreases j - i
  {
    var a, b, c := votes[i].validator, votes[j - 1].validator, votes[j].validator;
    assert CompareValidators(c, b) >= 0;
    CompareFlips(b.address, c.address);
    assert b.power > c.power || (b.power == c.power && BytesCompare(b.address, c.address) <= 0);
    if i < j - 1 {
      SortedGlobally(votes, i, j - 1);
      if a.power == b.power == c.power {
        CompareTransitive(a.address, b.address, c.address);
      }
    }
    CompareEqual(a.address, c.address);
  }

  /**
   With extensions enabled, an accepted commit holds more than two thirds of the power in commit votes, its addresses
   are distinct and strictly ordered, it lists exactly the validators of the last commit, and every vote it counts
   is a commit vote there too.
   */
  lemma QuorumSoundness(ctx: Ctx, store: ValidatorStore, ec: ExtendedCommit)
    requires VoteExtensionsEnabled(ctx)
    requires SanePowers(ec.votes)
    requires Acceptable(ctx, store, ec)
    ensures 3 * CommitPower(ec.votes) > 2 * Power(ec.votes) > 0
    ensures forall i, j :: 0 <= i < j < |ec.votes| ==> Before(ec.votes[i].validator, ec.votes[j].validator)
    ensures |ec.votes| == |ctx.lastCommit.votes|
    ensures forall i :: 0 <= i < |ec.votes| ==> ec.votes[i].validator == ctx.lastCommit.votes[i].validator
    ensures forall i :: 0 <= i < |ec.votes| && ec.votes[i].blockIdFlag == FLAG_COMMIT
              ==> ctx.lastCommit.votes[i].blockIdFlag == FLAG_COMMIT
  {
    QuorumIsTwoThirds(ec.votes);
    forall i, j | 0 <= i < j < |ec.votes|
      ensures Before(ec.votes[i].validator, ec.votes[j].validator)
    {
      SortedGlobally(ec.votes, i, j);
    }
  }

  /** The integer test against (2/3 of the total, rounded down) + 1 is the strict two-thirds majority. */
  lemma QuorumIsTwoThirds(votes: seq<ExtendedVote>)
    requires SanePowers(votes) && Wrap(Power(votes)) > 0
    ensures Power(votes) > 0
    ensures Wrap(CommitPower(votes)) >= RequiredPower(Wrap(Power(votes)))
            <==> 3 * CommitPower(votes) > 2 * Power(votes)
  {
    var total, committed := Power(votes), CommitPower(votes);
    CommitPowerBounds(votes);
    WrapExact(total);
    WrapExact(committed);
    WrapExact(total * 2);
    assert 0 <= total * 2 / 3 + 1 < TWO_TO_THE_63;
    WrapExact(total * 2 / 3 + 1);
    assert total > 0;
    hide Wrap, Power, CommitPower;
  }

  predicate PassesQuorumTest(committed: int64, total: int64) {
    committed >= RequiredPower(total)
  }

  predicate TwoThirdsMajority(committed: int, total: int) {
    3 * committed > 2 * total
  }

  /** The test tells majorities from minorities exactly as long as the total is below 2^62: from there on, doubling wraps. */
  lemma QuorumTestExact(total: int64)
    requires total > 0
    ensures (forall c: int64 :: 0 <= c <= total ==> (PassesQuorumTest(c, total) <==> TwoThirdsMajority(c, total)))
            <==> total < 0x4000_0000_0000_0000
  {
    if total < 0x4000_0000_0000_0000 {
      WrapExact(total * 2);
    } else {
      QuorumTestOverflows(total);
      assert PassesQuorumTest(1, total) && !TwoThirdsMajority(1, total);
    }
  }

  /** One unit of commit power passes the test when doubling the total wraps. */
  lemma QuorumTestOverflows(total: int64)
    requires total >= 0x4000_0000_0000_0000
    ensures RequiredPower(total) <= 1
  {
    var doubled := total * 2 - TWO_TO_THE_64;
    assert Wrap(total * 2) == doubled;
    hide Wrap;
    assert -TWO_TO_THE_63 <= Quo(doubled, 3) <= 0;
    WrapExact(Quo(doubled, 3) + 1);
  }

  /** The power of the validators whose votes are commit votes in both commits. */
  function CommonPower(v1: seq<ExtendedVote>, v2: seq<ExtendedVote>): int
    requires |v1| == |v2|
  {
    if v1 == [] then 0 else
    var n := |v1| - 1;
    CommonPower(v1[..n], v2[..n]) +
    if v1[n].blockIdFlag == FLAG_COMMIT && v2[n].blockIdFlag == FLAG_COMMIT then v1[n].validator.power else 0
  }

  lemma {:induction false} InclusionExclusion(v1: seq<ExtendedVote>, v2: seq<ExtendedVote>)
    requires |v1| == |v2|
    requires forall i :: 0 <= i < |v1| ==> v1[i].validator == v2[i].validator && v1[i].validator.power >= 0
    ensures CommitPower(v1) + CommitPower(v2) <= CommonPower(v1, v2) + Power(v1)
    ensures Power(v1) == Power(v2)
  {
    if v1 != [] {
      var n := |v1| - 1;
      InclusionExclusion(v1[..n], v2[..n]);
    }
  }

  /** Any two commits accepted at the same height share commit votes worth more than a third of the power. */
  lemma QuorumsIntersect(ctx: Ctx, store: ValidatorStore, ec1: ExtendedCommit, ec2: ExtendedCommit)
    requires VoteExtensionsEnabled(ctx)
    requires SanePowers(ec1.votes)
    requires Acceptable(ctx, store, ec1) && Acceptable(ctx, store, ec2)
    ensures |ec1.votes| == |ec2.votes|
    ensures 3 * CommonPower(ec1.votes, ec2.votes) > Power(ec1.votes)
  {
    hide Wrap, Power, CommitPower, CommonPower, RequiredPower, AdjacentlySorted, VoteAcceptable, DistinctAddresses;
    assert forall i :: 0 <= i < |ec1.votes| ==> MatchesCommitVote(ec1.votes[i], ctx.lastCommit.votes[i]);
    assert forall i :: 0 <= i < |ec2.votes| ==> MatchesCommitVote(ec2.votes[i], ctx.lastCommit.votes[i]);
    InclusionExclusion(ec1.votes, ec2.votes);
    assert forall v <- ec2.votes :: v.validator.power >= 0;
    QuorumIsTwoThirds(ec1.votes);
    QuorumIsTwoThirds(ec2.votes);
  }

  // ---------------------------------------------------------------- acceptance, spelled out

  /** Extensions are enabled from the block after the enable height on, but never before height 2. */
  lemma EnabledFrom(ctx: Ctx)
    ensures VoteExtensionsEnabled(ctx)
            <==> ctx.enableHeight.Some? && ctx.enableHeight.value != 0 && ctx.height >= 2 && ctx.height >= ctx.enableHeight.value + 1
  {
  }

  /** Lexicographic order: at the first place where they differ, a has ended or has the smaller byte. */
  ghost predicate Less(a: bytes, b: bytes) {
    exists k: nat :: FirstDifference(a, b, k)
  }

  predicate FirstDifference(a: bytes, b: bytes, k: nat) {
    k <= |a| && k < |b| && a[..k] == b[..k] && (k == |a| || a[k] < b[k])
  }

  lemma {:induction false} CompareIsLexicographic(a: bytes, b: bytes)
    ensures BytesCompare(a, b) < 0 <==> Less(a, b)
  {
    if a == [] || b == [] {
      if a == [] && b != [] {
        assert FirstDifference(a, b, 0);
      }
    } else if a[0] != b[0] {
      if a[0] < b[0] {
        assert FirstDifference(a, b, 0);
      }
      if k: nat :| FirstDifference(a, b, k) {
        if k > 0 {
          assert a[..k][0] == b[..k][0];
        }
      }
    } else {
      CompareIsLexicographic(a[1..], b[1..]);
      if k: nat :| FirstDifference(a[1..], b[1..], k) {
        assert a[..k + 1] == [a[0]] + a[1..][..k] && b[..k + 1] == [b[0]] + b[1..][..k];
        assert FirstDifference(a, b, k + 1);
      }
      if k: nat :| FirstDifference(a, b, k) {
        assert a[1..][..k - 1] == a[..k][1..] && b[1..][..k - 1] == b[..k][1..];
        assert FirstDifference(a[1..], b[1..], k - 1);
      }
    }
  }

  predicate CommitVoted(v: ExtendedVote) {
    v.blockIdFlag == 2
  }

  predicate Anyone(v: ExtendedVote) {
    true
  }

  /** The power of the picked votes. */
  function PickedPower(votes: seq<ExtendedVote>, pick: ExtendedVote -> bool): int {
    if votes == [] then 0 else (if pick(votes[0]) then votes[0].validator.power else 0) + PickedPower(votes[1..], pick)
  }

  lemma {:induction false} PickedAppends(votes: seq<ExtendedVote>, v: ExtendedVote, pick: ExtendedVote -> bool)
    ensures PickedPower(votes + [v], pick) == PickedPower(votes, pick) + if pick(v) then v.validator.power else 0
  {
    if votes == [] {
      assert [v][1..] == [] && [] + [v] == [v];
    } else {
      assert (votes + [v])[1..] == votes[1..] + [v];
      PickedAppends(votes[1..], v, pick);
    }
  }

  lemma {:induction false} PowersPicked(votes: seq<ExtendedVote>)
    ensures Power(votes) == PickedPower(votes, Anyone)
    ensures CommitPower(votes) == PickedPower(votes, CommitVoted)
  {
    if votes != [] {
      var n := |votes| - 1;
      PowersPicked(votes[..n]);
      assert votes == votes[..n] + [votes[n]];
      PickedAppends(votes[..n], votes[n], Anyone);
      PickedAppends(votes[..n], votes[n], CommitVoted);
    }
  }

  /** Neither extension nor signature. */
  predicate Silent(v: ExtendedVote) {
    |Contents(v.voteExtension)| == 0 && |Contents(v.extensionSignature)| == 0
  }

  /**
   The validator's key is unknown, or it is well formed and the signature verifies over the extension, the height before the block's, the
   round of the commit and the chain.
   */
  predicate SignedAtLastHeight(ctx: Ctx, store: ValidatorStore, round: int, v: ExtendedVote) {
    var lookup := store.pubKey(v.validator.address);
    lookup == KeyMissing ||
    (&& lookup.Key?
     && store.signBytes(Contents(v.voteExtension), ctx.headerHeight - 1, round, ctx.chainId).Some?
     && store.verify(lookup.key, store.signBytes(Contents(v.voteExtension), ctx.headerHeight - 1, round, ctx.chainId).value, Contents(v.extensionSignature)))
  }

  /** A commit that a validator should accept while extensions are enabled. */
  ghost predicate Lawful(ctx: Ctx, store: ValidatorStore, ec: ExtendedCommit) {
    var votes, last := ec.votes, ctx.lastCommit;
    && ec.round == last.round && |votes| == |last.votes|
    && (forall i, j :: 0 <= i < j < |votes| ==>
          && votes[i].validator.address != votes[j].validator.address
          && (votes[i].validator.power > votes[j].validator.power ||
              (votes[i].validator.power == votes[j].validator.power && Less(votes[i].validator.address, votes[j].validator.address))))
    && (forall i :: 0 <= i < |votes| ==>
          && votes[i].validator == last.votes[i].validator
          && (votes[i].blockIdFlag == last.votes[i].blockIdFlag || (votes[i].blockIdFlag == 1 && Silent(votes[i])))
          && if votes[i].blockIdFlag == 2
             then |Contents(votes[i].extensionSignature)| > 0 && SignedAtLastHeight(ctx, store, ec.round, votes[i])
             else Silent(votes[i]))
    && 3 * PickedPower(votes, CommitVoted) > 2 * PickedPower(votes, Anyone) > 0
  }

  /** The checks of neighbours for a list that is strictly ordered. */
  lemma OrderedIsSorted(votes: seq<ExtendedVote>)
    requires forall v <- votes :: v.validator.power >= 0
    requires forall i, j :: 0 <= i < j < |votes| ==> Before(votes[i].validator, votes[j].validator)
    ensures AdjacentlySorted(votes)
  {
    forall i | 0 < i < |votes|
      ensures CompareValidators(votes[i].validator, votes[i - 1].validator) >= 0
    {
      assert Before(votes[i - 1].validator, votes[i].validator);
      CompareFlips(votes[i - 1].validator.address, votes[i].validator.address);
    }
  }

  lemma OrderIsLawful(votes: seq<ExtendedVote>)
    requires forall v <- votes :: v.validator.power >= 0
    ensures AdjacentlySorted(votes) && DistinctAddresses(votes)
            <==> forall i, j :: 0 <= i < j < |votes| ==>
                   && votes[i].validator.address != votes[j].validator.address
                   && (votes[i].validator.power > votes[j].validator.power ||
                       (votes[i].validator.power == votes[j].validator.power && Less(votes[i].validator.address, votes[j].validator.address)))
  {
    hide AdjacentlySorted, Less, BytesCompare;
    forall i, j | 0 <= i < j < |votes|
      ensures BytesCompare(votes[i].validator.address, votes[j].validator.address) < 0
              <==> Less(votes[i].validator.address, votes[j].validator.address)
      ensures AdjacentlySorted(votes) && DistinctAddresses(votes) ==> Before(votes[i].validator, votes[j].validator)
    {
      CompareIsLexicographic(votes[i].validator.address, votes[j].validator.address);
      if AdjacentlySorted(votes) && DistinctAddresses(votes) {
        SortedGlobally(votes, i, j);
      }
    }
    if forall i, j :: 0 <= i < j < |votes| ==> Before(votes[i].validator, votes[j].validator) {
      OrderedIsSorted(votes);
    }
  }

  lemma SignedIsAtLastHeight(ctx: Ctx, store: ValidatorStore, round: int, v: ExtendedVote)
    requires -TWO_TO_THE_63 < ctx.headerHeight <= TWO_TO_THE_63
    ensures Signed(ctx, store, round, v) <==> SignedAtLastHeight(ctx, store, round, v)
  {
    WrapExact(ctx.headerHeight - 1);
  }

  function LastPower(votes: seq<CommitVote>): int {
    if votes == [] then 0 else LastPower(votes[..|votes| - 1]) + votes[|votes| - 1].validator.power
  }

  /** The powers in the last commit, which consensus has decided on. */
  predicate SaneLastCommit(lc: LastCommit) {
    (forall v <- lc.votes :: v.validator.power >= 0) && LastPower(lc.votes) < 0x4000_0000_0000_0000
  }

  lemma {:induction false} PowersOfLastCommit(votes: seq<ExtendedVote>, last: seq<CommitVote>)
    requires |votes| == |last| && forall i :: 0 <= i < |votes| ==> votes[i].validator == last[i].validator
    ensures Power(votes) == LastPower(last)
  {
    if votes != [] {
      PowersOfLastCommit(votes[..|votes| - 1], last[..|last| - 1]);
    }
  }

  /** With extensions enabled, and whatever a proposer puts into it, exactly the lawful commit is accepted. */
  lemma AcceptedExactlyLawful(ctx: Ctx, store: ValidatorStore, ec: ExtendedCommit)
    requires VoteExtensionsEnabled(ctx) && SaneLastCommit(ctx.lastCommit)
    requires -TWO_TO_THE_63 < ctx.headerHeight <= TWO_TO_THE_63
    ensures Acceptable(ctx, store, ec) <==> Lawful(ctx, store, ec)
  {
    hide AdjacentlySorted, DistinctAddresses, Less, Wrap, RequiredPower, VoteExtensionsEnabled, PickedPower, Power, CommitPower, LastPower, SignedAtLastHeight, VoteAcceptable, Silent;
    if Acceptable(ctx, store, ec) || Lawful(ctx, store, ec) {
      forall i | 0 <= i < |ec.votes|
        ensures ec.votes[i].validator == ctx.lastCommit.votes[i].validator
      {
        assert Acceptable(ctx, store, ec) ==> MatchesCommitVote(ec.votes[i], ctx.lastCommit.votes[i]);
      }
      PowersOfLastCommit(ec.votes, ctx.lastCommit.votes);
      forall v | v in ec.votes ensures v.validator.power >= 0 {
        var i :| 0 <= i < |ec.votes| && ec.votes[i] == v;
        assert ctx.lastCommit.votes[i] in ctx.lastCommit.votes;
      }
      SaneAcceptedExactlyLawful(ctx, store, ec);
    }
  }

  lemma SaneAcceptedExactlyLawful(ctx: Ctx, store: ValidatorStore, ec: ExtendedCommit)
    requires VoteExtensionsEnabled(ctx) && SanePowers(ec.votes)
    requires -TWO_TO_THE_63 < ctx.headerHeight <= TWO_TO_THE_63
    ensures Acceptable(ctx, store, ec) <==> Lawful(ctx, store, ec)
  {
    hide AdjacentlySorted, DistinctAddresses, Less, Wrap, RequiredPower, VoteExtensionsEnabled, PickedPower, Power, CommitPower, Signed, SignedAtLastHeight;
    OrderIsLawful(ec.votes);
    PowersPicked(ec.votes);
    CommitPowerBounds(ec.votes);
    WrapExact(Power(ec.votes));
    if Power(ec.votes) > 0 {
      QuorumIsTwoThirds(ec.votes);
    }
    forall i | 0 <= i < |ec.votes|
      ensures Signed(ctx, store, ec.round, ec.votes[i]) <==> SignedAtLastHeight(ctx, store, ec.round, ec.votes[i])
    {
      SignedIsAtLastHeight(ctx, store, ec.round, ec.votes[i]);
    }
    assert forall v: ExtendedVote :: Blank(v) <==> v.blockIdFlag == 1 && Silent(v);
  }

  // ---------------------------------------------------------------- what a signature covers

  /** Sign bytes tell extensions, heights, rounds and chains apart. */
  ghost predicate SignsApart(store: ValidatorStore) {
    forall e, h, r, c, e', h', r', c' ::
      store.signBytes(e, h, r, c).Some? && store.signBytes(e, h, r, c) == store.signBytes(e', h', r', c')
      ==> e == e' && h == h' && r == r' && c == c'
  }

  /** The signature is one that its validator made over one statement: the verifier accepts it for the bytes of this statement alone. */
  ghost predicate MadeOver(store: ValidatorStore, key: bytes, signature: bytes, extension: bytes, height: int, round: int, chainId: string) {
    forall b :: store.verify(key, b, signature) <==> store.signBytes(extension, height, round, chainId) == Some(b)
  }

  /**
   A vote that was signed while extending at some height passes the check in a block exactly when the block's header is one height further,
   on the same chain, the commit is of the same round, and the extension is the one that was signed.
   */
  lemma SignatureCoversExactly(ctx: Ctx, store: ValidatorStore, round: int, v: ExtendedVote, key: bytes,
                               extension: bytes, height: int, signedRound: int, chainId: string)
    requires SignsApart(store) && store.pubKey(v.validator.address) == Key(key)
    requires store.signBytes(extension, height, signedRound, chainId).Some?
    requires MadeOver(store, key, Contents(v.extensionSignature), extension, height, signedRound, chainId)
    requires -TWO_TO_THE_63 < ctx.headerHeight <= TWO_TO_THE_63
    ensures Signed(ctx, store, round, v)
            <==> ctx.headerHeight == height + 1 && round == signedRound && ctx.chainId == chainId && Contents(v.voteExtension) == extension
  {
    SignedIsAtLastHeight(ctx, store, round, v);
    var b := store.signBytes(Contents(v.voteExtension), ctx.headerHeight - 1, round, ctx.chainId);
    if b.Some? {
      assert store.verify(key, b.value, Contents(v.extensionSignature)) <==> store.signBytes(extension, height, signedRound, chainId) == Some(b.value);
    }
  }

  /** While extensions are disabled, exactly the commits without any extension or signature agree, if there is power at all. */
  lemma DisabledAcceptsSilent(ctx: Ctx, store: ValidatorStore, ec: ExtendedCommit)
    requires !VoteExtensionsEnabled(ctx) && SanePowers(ec.votes)
    ensures Acceptable(ctx, store, ec)
            <==> AgreesWithLastCommit(ec, ctx.lastCommit) && (forall v <- ec.votes :: Silent(v)) && PickedPower(ec.votes, Anyone) > 0
  {
    hide AgreesWithLastCommit, Wrap, RequiredPower, PickedPower, Power, CommitPower, VoteExtensionsEnabled, Silent;
    PowersPicked(ec.votes);
    CommitPowerBounds(ec.votes);
    WrapExact(Power(ec.votes));
    forall i | 0 <= i < |ec.votes|
      ensures VoteAcceptable(ctx, store, ec.round, ec.votes[i]) <==> Silent(ec.votes[i])
    {
      DisabledVote(ctx, store, ec.round, ec.votes[i]);
    }
    hide VoteAcceptable;
  }

  lemma DisabledVote(ctx: Ctx, store: ValidatorStore, round: int, v: ExtendedVote)
    requires !VoteExtensionsEnabled(ctx)
    ensures VoteAcceptable(ctx, store, round, v) <==> Silent(v)
  {
    hide VoteExtensionsEnabled;
  }
}

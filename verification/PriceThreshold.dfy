/**
 The share of the bonded tokens that reported a pair, against the default threshold of 0.667, in the 18-digit decimals
 of cosmossdk.io/math, and what that share means for the median.
 */
module PriceThreshold {

  const PRECISION: int := 1_000_000_000_000_000_000
  const DEFAULT_POWER_THRESHOLD: int := 667_000_000_000_000_000

  /** LegacyNewDecFromInt: an integer as a multiple of 10^-18. */
  function DecFromInt(x: nat): nat {
    x * PRECISION
  }

  /** chopPrecisionAndRound: division by 10^18 to the nearest, ties to even. */
  function ChopPrecisionAndRound(d: nat): nat {
    var quo, rem := d / PRECISION, d % PRECISION;
    if rem < PRECISION / 2 then quo
    else if rem > PRECISION / 2 then quo + 1
    else if quo % 2 == 0 then quo else quo + 1
  }

  /** LegacyDec.Quo */
  function DecQuo(x: nat, y: nat): nat
    requires y > 0
  {
    ChopPrecisionAndRound(x * PRECISION * PRECISION / y)
  }

  function PercentSubmitted(reported: nat, bonded: nat): nat
    requires bonded > 0
  {
    DecQuo(DecFromInt(reported), DecFromInt(bonded))
  }

  /** Half a unit below the threshold is enough: there the tie is rounded up to an even last digit. */
  lemma ChopAtLeast(d: nat)
    ensures ChopPrecisionAndRound(d) >= DEFAULT_POWER_THRESHOLD <==> d >= (2 * DEFAULT_POWER_THRESHOLD - 1) * (PRECISION / 2)
  {
  }

  lemma LeProduct(a: int, b: int, y: nat)
    requires a <= b
    ensures a * y <= b * y
  {
  }

  lemma QuotientAtLeast(q: nat, a: nat, b: nat)
    requires b > 0
    ensures q <= a / b <==> q * b <= a
  {
    assert a / b * b <= a < a / b * b + b;
    if q <= a / b {
      LeProduct(q, a / b, b);
    } else {
      LeProduct(a / b + 1, q, b);
    }
  }

  lemma CancelPrecision(reported: nat, bonded: nat)
    ensures (2 * DEFAULT_POWER_THRESHOLD - 1) * (PRECISION / 2) * DecFromInt(bonded) <= DecFromInt(reported) * PRECISION * PRECISION
            <==> (2 * DEFAULT_POWER_THRESHOLD - 1) * bonded <= 2 * PRECISION * reported
  {
  }

  /** What reaching the threshold of 0.667 means for the tokens, with the rounding of 18-digit division: an exact comparison of integers. */
  lemma ThresholdExactly(reported: nat, bonded: nat)
    requires bonded > 0
    ensures PercentSubmitted(reported, bonded) >= DEFAULT_POWER_THRESHOLD
            <==> 2 * PRECISION * reported >= (2 * DEFAULT_POWER_THRESHOLD - 1) * bonded
  {
    var a, y := DecFromInt(reported) * PRECISION * PRECISION, DecFromInt(bonded);
    assert PercentSubmitted(reported, bonded) == ChopPrecisionAndRound(a / y);
    hide ChopPrecisionAndRound;
    hide DecFromInt, PercentSubmitted;
    ChopAtLeast(a / y);
    QuotientAtLeast((2 * DEFAULT_POWER_THRESHOLD - 1) * (PRECISION / 2), a, y);
    CancelPrecision(reported, bonded);
  }

  /** The least stake that meets the threshold, for as few tokens that rounding makes no difference. */
  function LeastReported(bonded: nat): nat {
    (667 * bonded + 999) / 1000
  }

  lemma LeastReportedMeets(bonded: nat)
    requires bonded > 0
    ensures PercentSubmitted(LeastReported(bonded), bonded) >= DEFAULT_POWER_THRESHOLD
  {
    ThresholdExactly(LeastReported(bonded), bonded);
  }

  lemma LeastReportedIsLeast(reported: nat, bonded: nat)
    requires 0 < bonded <= 1000
    requires PercentSubmitted(reported, bonded) >= DEFAULT_POWER_THRESHOLD
    ensures LeastReported(bonded) <= reported
  {
    ThresholdExactly(reported, bonded);
  }

  /** Reporters that meet the threshold, with dishonest ones among them that hold less than a third of the bonded tokens. */
  predicate Minority(reported: nat, bonded: nat, dishonest: nat)
    requires bonded > 0
  {
    3 * dishonest < bonded && PercentSubmitted(reported, bonded) >= DEFAULT_POWER_THRESHOLD
  }

  predicate BelowCutoff(reported: nat, dishonest: nat) {
    dishonest < reported / 2
  }

  /** The numbers of bonded tokens of which a third is too little to move the price. */
  predicate MinoritySafe(bonded: nat) {
    bonded > 1000 || bonded % 3 != 1
  }

  lemma MinorityBelowCutoff(reported: nat, bonded: nat, dishonest: nat)
    requires bonded > 0 && MinoritySafe(bonded) && Minority(reported, bonded, dishonest)
    ensures BelowCutoff(reported, dishonest)
  {
    hide PercentSubmitted;
    if bonded > 1000 {
      ThresholdExactly(reported, bonded);
    } else {
      LeastReportedIsLeast(reported, bonded);
    }
  }

  /**
   A minority of less than a third holds less than the median's cut-off exactly for the safe numbers of bonded tokens: all
   above 1000, and those few below that do not leave remainder 1 when divided by 3.
   */
  lemma MinorityBoundExact(bonded: nat)
    requires bonded > 0
    ensures (forall reported: nat, dishonest: nat :: Minority(reported, bonded, dishonest) ==> BelowCutoff(reported, dishonest))
            <==> MinoritySafe(bonded)
  {
    hide PercentSubmitted;
    forall reported: nat, dishonest: nat | MinoritySafe(bonded) && Minority(reported, bonded, dishonest)
      ensures BelowCutoff(reported, dishonest)
    {
      MinorityBelowCutoff(reported, bonded, dishonest);
    }
    if !MinoritySafe(bonded) {
      LeastReportedMeets(bonded);
      assert Minority(LeastReported(bonded), bonded, bonded / 3);
    }
  }
}

/**
 Median: the aggregation function that turns the prices of all validators into one price a pair
 (pkg/math/voteweighted/voteweighted.go).
 */
module StakeWeightedPrices {
  import opened Wrappers
  import opened Abci
  import opened Orders
  import opened WeightedMedian
  import opened PriceThreshold

  /** The prices one validator reported; a Go map of *big.Int may hold nil. */
  type Report = map<CurrencyPair, Option<int>>

  /** Validator address string -> report. */
  type Providers = map<string, Report>

  /**
   The validator store as Median uses it: the bonded tokens behind an address string (None when the address does not parse
   or the validator is unknown) and the total of bonded tokens.
   */
  datatype StakeStore = StakeStore(tokens: string -> Option<nat>, totalBonded: nat)

  datatype PriceInfo = PriceInfo(prices: Reports, totalWeight: nat)

  /** The pairs a validator reported a non-nil price for. */
  function Priced(report: Report): set<CurrencyPair> {
    set cp | cp in report && report[cp].Some?
  }

  /** What one validator contributes to the list of a pair. */
  function Contribution(providers: Providers, stake: StakeStore, a: string, cp: CurrencyPair): Reports
    requires a in providers
  {
    if stake.tokens(a).Some? && cp in Priced(providers[a])
    then [PricePerValidator(stake.tokens(a).value, providers[a][cp].value)] else []
  }

  /** The list of a pair, for validators visited in this order. */
  function ReportsFor(order: seq<string>, providers: Providers, stake: StakeStore, cp: CurrencyPair): Reports
    requires forall a <- order :: a in providers
  {
    if order == [] then [] else
    var n := |order| - 1;
    ReportsFor(order[..n], providers, stake, cp) + Contribution(providers, stake, order[n], cp)
  }

  function PairsFor(order: seq<string>, providers: Providers, stake: StakeStore): set<CurrencyPair>
    requires forall a <- order :: a in providers
  {
    if order == [] then {} else
    var n := |order| - 1;
    PairsFor(order[..n], providers, stake) + if stake.tokens(order[n]).Some? then Priced(providers[order[n]]) else {}
  }

  predicate Qualifies(reports: Reports, stake: StakeStore, threshold: nat)
    requires stake.totalBonded > 0
  {
    PercentSubmitted(Total(reports), stake.totalBonded) >= threshold
  }

  lemma {:induction false} PairsHaveReports(order: seq<string>, providers: Providers, stake: StakeStore, cp: CurrencyPair)
    requires forall a <- order :: a in providers
    ensures cp in PairsFor(order, providers, stake) <==> ReportsFor(order, providers, stake, cp) != []
  {
    if order != [] {
      PairsHaveReports(order[..|order| - 1], providers, stake, cp);
    }
  }

  /**
   The published prices: the median of each pair whose reporters reach the threshold.  None is the panic of a division by
   a zero total.
   */
  ghost function MedianPrices(order: seq<string>, providers: Providers, stake: StakeStore, threshold: nat): Option<map<CurrencyPair, int>>
    requires forall a <- order :: a in providers
  {
    var pairs := PairsFor(order, providers, stake);
    if pairs == {} then Some(map[])
    else if stake.totalBonded == 0 then None
    else Some(map cp | cp in pairs && Qualifies(ReportsFor(order, providers, stake, cp), stake, threshold)
                :: Published(ReportsFor(order, providers, stake, cp)))
  }

  /** The median; zero stands for the empty list, which no pair has. */
  ghost function Published(reports: Reports): int {
    if reports == [] then 0 else MedianOf(reports)
  }

  // ---------------------------------------------------------------- the function itself

  /** The information kept for a pair, empty while there is none. */
  function Info(priceInfo: map<CurrencyPair, PriceInfo>, cp: CurrencyPair): PriceInfo {
    if cp in priceInfo then priceInfo[cp] else PriceInfo([], 0)
  }

  function Added(info: PriceInfo, weight: nat, price: int): PriceInfo {
    PriceInfo(info.prices + [PricePerValidator(weight, price)], info.totalWeight + weight)
  }

  /** The inner loop: adds one validator's prices, pair by pair in an arbitrary order. */
  method AddReport(priceInfo: map<CurrencyPair, PriceInfo>, voteWeight: nat, report: Report) returns (r: map<CurrencyPair, PriceInfo>)
    ensures r.Keys == priceInfo.Keys + Priced(report)
    ensures forall cp <- r :: r[cp] == if cp in Priced(report) then Added(Info(priceInfo, cp), voteWeight, report[cp].value)
                                       else priceInfo[cp]
  {
    r := priceInfo;
    var todo := report.Keys;
    while todo != {}
      invariant todo <= report.Keys
      invariant r.Keys == priceInfo.Keys + (Priced(report) - todo)
      invariant forall cp <- r :: r[cp] == if cp in Priced(report) && cp !in todo
                                           then Added(Info(priceInfo, cp), voteWeight, report[cp].value) else priceInfo[cp]
    {
      var cp :| cp in todo;
      todo := todo - {cp};
      var price := report[cp];
      if price.Some? {
        if cp !in r {
          r := r[cp := PriceInfo([], 0)];
        }
        var cpInfo := r[cp];
        r := r[cp := PriceInfo(cpInfo.prices + [PricePerValidator(voteWeight, price.value)], cpInfo.totalWeight + voteWeight)];
      }
    }
  }

  lemma TotalAppend(s: Reports, e: PricePerValidator)
    ensures Total(s + [e]) == Total(s) + e.voteWeight
  {
  }

  ghost predicate InfoFor(priceInfo: map<CurrencyPair, PriceInfo>, order: seq<string>, providers: Providers, stake: StakeStore)
    requires forall a <- order :: a in providers
  {
    && priceInfo.Keys == PairsFor(order, providers, stake)
    && forall cp <- priceInfo ::
         priceInfo[cp] == PriceInfo(ReportsFor(order, providers, stake, cp), Total(ReportsFor(order, providers, stake, cp)))
  }

  lemma InfoExtends(priceInfo: map<CurrencyPair, PriceInfo>, r: map<CurrencyPair, PriceInfo>, order: seq<string>, a: string,
                    providers: Providers, stake: StakeStore)
    requires a in providers && forall a' <- order :: a' in providers
    requires InfoFor(priceInfo, order, providers, stake)
    requires stake.tokens(a).Some?
    requires r.Keys == priceInfo.Keys + Priced(providers[a])
    requires forall cp <- r :: r[cp] == if cp in Priced(providers[a])
                                        then Added(Info(priceInfo, cp), stake.tokens(a).value, providers[a][cp].value)
                                        else priceInfo[cp]
    ensures InfoFor(r, order + [a], providers, stake)
  {
    assert (order + [a])[..|order|] == order;
    forall cp | cp in r
      ensures r[cp] == PriceInfo(ReportsFor(order + [a], providers, stake, cp), Total(ReportsFor(order + [a], providers, stake, cp)))
    {
      PairsHaveReports(order, providers, stake, cp);
      if cp in Priced(providers[a]) {
        TotalAppend(ReportsFor(order, providers, stake, cp), PricePerValidator(stake.tokens(a).value, providers[a][cp].value));
      } else {
        assert ReportsFor(order, providers, stake, cp) + [] == ReportsFor(order, providers, stake, cp);
      }
    }
  }

  lemma InfoSkips(priceInfo: map<CurrencyPair, PriceInfo>, order: seq<string>, a: string, providers: Providers, stake: StakeStore)
    requires a in providers && forall a' <- order :: a' in providers
    requires InfoFor(priceInfo, order, providers, stake)
    requires stake.tokens(a).None?
    ensures InfoFor(priceInfo, order + [a], providers, stake)
  {
    hide ReportsFor, PairsFor;
    assert (order + [a])[..|order|] == order;
    forall cp ensures ReportsFor(order + [a], providers, stake, cp) == ReportsFor(order, providers, stake, cp) {
      SkippedReports(order, a, providers, stake, cp);
    }
    SkippedPairs(order, a, providers, stake);
  }

  lemma SkippedReports(order: seq<string>, a: string, providers: Providers, stake: StakeStore, cp: CurrencyPair)
    requires a in providers && forall a' <- order :: a' in providers
    requires stake.tokens(a).None?
    ensures ReportsFor(order + [a], providers, stake, cp) == ReportsFor(order, providers, stake, cp)
  {
    assert (order + [a])[..|order|] == order;
    assert ReportsFor(order, providers, stake, cp) + [] == ReportsFor(order, providers, stake, cp);
  }

  lemma SkippedPairs(order: seq<string>, a: string, providers: Providers, stake: StakeStore)
    requires a in providers && forall a' <- order :: a' in providers
    requires stake.tokens(a).None?
    ensures PairsFor(order + [a], providers, stake) == PairsFor(order, providers, stake)
  {
    assert (order + [a])[..|order|] == order;
    assert PairsFor(order, providers, stake) + {} == PairsFor(order, providers, stake);
  }

  /** The outer loop over the validators. */
  method CollectReports(providers: Providers, stake: StakeStore) returns (priceInfo: map<CurrencyPair, PriceInfo>, ghost order: seq<string>)
    ensures IsOrder(order, providers.Keys)
    ensures InfoFor(priceInfo, order, providers, stake)
  {
    hide ReportsFor, PairsFor;
    priceInfo := map[];
    order := [];
    assert InfoFor(priceInfo, order, providers, stake) by { NoInfo(providers, stake); }
    var todo := providers.Keys;
    while todo != {}
      invariant todo <= providers.Keys
      invariant IsOrder(order, providers.Keys - todo)
      invariant InfoFor(priceInfo, order, providers, stake)
    {
      hide InfoFor;
      var valAddress :| valAddress in todo;
      OrderExtends(order, providers.Keys, todo, valAddress);
      var voteWeight := stake.tokens(valAddress);
      if voteWeight.Some? {
        var extended := AddReport(priceInfo, voteWeight.value, providers[valAddress]);
        InfoExtends(priceInfo, extended, order, valAddress, providers, stake);
        priceInfo := extended;
      } else {
        InfoSkips(priceInfo, order, valAddress, providers, stake);
      }
      order := order + [valAddress];
      todo := todo - {valAddress};
    }
  }

  lemma NoInfo(providers: Providers, stake: StakeStore)
    ensures InfoFor(map[], [], providers, stake)
  {
  }

  /** One pair: the median of its list, computed on a slice that is sorted in place. */
  method MedianOfInfo(info: PriceInfo) returns (p: int)
    requires info.prices != [] && info.totalWeight == Total(info.prices)
    ensures p == Published(info.prices)
  {
    var slice := new PricePerValidator[|info.prices|](i requires 0 <= i < |info.prices| => info.prices[i]);
    assert slice[..] == info.prices;
    var r := ComputeMedian(slice, info.totalWeight);
    p := r.value;
    MedianUnique(info.prices, p, MedianOf(info.prices));
  }

  /** What a node publishes: the same prices for every order in which the maps could have been visited. */
  method Median(providers: Providers, stake: StakeStore, threshold: nat) returns (r: Option<map<CurrencyPair, int>>, ghost order: seq<string>)
    ensures IsOrder(order, providers.Keys)
    ensures r == MedianPrices(order, providers, stake, threshold)
    ensures forall o :: IsOrder(o, providers.Keys) ==> r == MedianPrices(o, providers, stake, threshold)
  {
    r, order := MedianInSomeOrder(providers, stake, threshold);
    forall o | IsOrder(o, providers.Keys)
      ensures r == MedianPrices(o, providers, stake, threshold)
    {
      MedianDeterministic(order, o, providers, stake, threshold);
    }
  }

  method MedianInSomeOrder(providers: Providers, stake: StakeStore, threshold: nat) returns (r: Option<map<CurrencyPair, int>>, ghost order: seq<string>)
    ensures IsOrder(order, providers.Keys)
    ensures r == MedianPrices(order, providers, stake, threshold)
  {
    hide ReportsFor, PairsFor, PercentSubmitted, SumBy;
    var priceInfo;
    priceInfo, order := CollectReports(providers, stake);
    var prices: map<CurrencyPair, int> := map[];
    var todo := priceInfo.Keys;
    while todo != {}
      invariant todo <= priceInfo.Keys
      invariant todo != priceInfo.Keys ==> stake.totalBonded > 0
      invariant forall cp <- prices :: cp in priceInfo && cp !in todo
      invariant stake.totalBonded > 0 ==>
        forall cp <- priceInfo :: cp !in todo ==> (cp in prices <==> Qualifies(priceInfo[cp].prices, stake, threshold))
      invariant forall cp <- prices :: prices[cp] == Published(priceInfo[cp].prices)
    {
      var cp :| cp in todo;
      todo := todo - {cp};
      var info := priceInfo[cp];
      if stake.totalBonded == 0 {
        return None, order;
      }
      if PercentSubmitted(info.totalWeight, stake.totalBonded) >= threshold {
        PairsHaveReports(order, providers, stake, cp);
        var median := MedianOfInfo(info);
        prices := prices[cp := median];
      }
    }
    assert priceInfo != map[] ==> prices == map cp | cp in PairsFor(order, providers, stake)
                                                   && Qualifies(ReportsFor(order, providers, stake, cp), stake, threshold)
                                              :: Published(ReportsFor(order, providers, stake, cp));
    assert priceInfo == map[] ==> prices == map[];
    r := Some(prices);
  }

  // ---------------------------------------------------------------- the order does not matter

  lemma {:induction false} ReportsWithout(order: seq<string>, providers: Providers, stake: StakeStore, cp: CurrencyPair, i: nat)
    requires i < |order| && forall a <- order :: a in providers
    ensures forall a <- Without(order, i) :: a in providers
    ensures multiset(ReportsFor(order, providers, stake, cp))
            == multiset(ReportsFor(Without(order, i), providers, stake, cp)) + multiset(Contribution(providers, stake, order[i], cp))
  {
    hide Contribution, ReportsFor;
    var n, rest := |order| - 1, Without(order, i);
    LastReports(order, providers, stake, cp);
    if i < n {
      assert rest[..n - 1] == Without(order[..n], i);
      assert rest[n - 1] == order[n];
      ReportsWithout(order[..n], providers, stake, cp, i);
      LastReports(rest, providers, stake, cp);
    } else {
      assert rest == order[..n];
    }
  }

  lemma LastReports(order: seq<string>, providers: Providers, stake: StakeStore, cp: CurrencyPair)
    requires order != [] && forall a <- order :: a in providers
    ensures var n := |order| - 1;
            multiset(ReportsFor(order, providers, stake, cp))
            == multiset(ReportsFor(order[..n], providers, stake, cp)) + multiset(Contribution(providers, stake, order[n], cp))
  {
  }

  /** Two orders give a pair the same reports, up to their order. */
  lemma {:induction false} ReportsPermute(o1: seq<string>, o2: seq<string>, keys: set<string>, providers: Providers, stake: StakeStore, cp: CurrencyPair)
    requires keys <= providers.Keys && IsOrder(o1, keys) && IsOrder(o2, keys)
    ensures multiset(ReportsFor(o1, providers, stake, cp)) == multiset(ReportsFor(o2, providers, stake, cp))
    decreases |o1|
  {
    OrderLength(o1, keys);
    OrderLength(o2, keys);
    if o1 != [] {
      var n := |o1| - 1;
      assert o1[n] in o2;
      var i :| 0 <= i < |o2| && o2[i] == o1[n];
      OrderInit(o1, keys);
      OrderWithout(o2, keys, i);
      ReportsWithout(o2, providers, stake, cp, i);
      ReportsPermute(o1[..n], Without(o2, i), keys - {o1[n]}, providers, stake, cp);
    }
  }

  lemma PublishedPermutes(r1: Reports, r2: Reports)
    requires multiset(r1) == multiset(r2)
    ensures Published(r1) == Published(r2) && Total(r1) == Total(r2) && (r1 == [] <==> r2 == [])
  {
    SumByPermutation(Weight(), r1, r2);
    assert |multiset(r1)| == |r1| && |multiset(r2)| == |r2|;
    if r1 != [] {
      MedianOfPermutation(r1, r2, MedianOf(r1));
      MedianUnique(r2, MedianOf(r1), MedianOf(r2));
    }
  }

  /** Consensus determinism: every node publishes the same prices, in whatever order it ranges over its maps. */
  lemma MedianDeterministic(o1: seq<string>, o2: seq<string>, providers: Providers, stake: StakeStore, threshold: nat)
    requires IsOrder(o1, providers.Keys) && IsOrder(o2, providers.Keys)
    ensures MedianPrices(o1, providers, stake, threshold) == MedianPrices(o2, providers, stake, threshold)
  {
    hide ReportsFor, PairsFor, Published, SumBy, PercentSubmitted;
    forall cp
      ensures multiset(ReportsFor(o1, providers, stake, cp)) == multiset(ReportsFor(o2, providers, stake, cp))
      ensures Published(ReportsFor(o1, providers, stake, cp)) == Published(ReportsFor(o2, providers, stake, cp))
      ensures Total(ReportsFor(o1, providers, stake, cp)) == Total(ReportsFor(o2, providers, stake, cp))
      ensures cp in PairsFor(o1, providers, stake) <==> cp in PairsFor(o2, providers, stake)
    {
      ReportsPermute(o1, o2, providers.Keys, providers, stake, cp);
      PublishedPermutes(ReportsFor(o1, providers, stake, cp), ReportsFor(o2, providers, stake, cp));
      PairsHaveReports(o1, providers, stake, cp);
      PairsHaveReports(o2, providers, stake, cp);
    }
    assert PairsFor(o1, providers, stake) == PairsFor(o2, providers, stake);
    if PairsFor(o1, providers, stake) != {} && stake.totalBonded > 0 {
      var m1, m2 := MedianPrices(o1, providers, stake, threshold).value, MedianPrices(o2, providers, stake, threshold).value;
      assert forall cp :: cp in m1 <==> cp in m2;
      assert m1 == m2;
    }
  }

  // ---------------------------------------------------------------- what is published, in tokens

  /** The tokens of the validators, among those listed, that reported the pair at a price of at most the limit (any price for None). */
  function Tokens(order: seq<string>, providers: Providers, stake: StakeStore, cp: CurrencyPair, limit: Option<int>): nat {
    if order == [] then 0 else
    var a := order[0];
    Tokens(order[1..], providers, stake, cp, limit) +
    if a in providers && cp in providers[a] && providers[a][cp].Some? && stake.tokens(a).Some?
       && (limit.Some? ==> providers[a][cp].value <= limit.value)
    then stake.tokens(a).value else 0
  }

  lemma {:induction false} TokensAppend(order: seq<string>, a: string, providers: Providers, stake: StakeStore, cp: CurrencyPair, limit: Option<int>)
    ensures Tokens(order + [a], providers, stake, cp, limit)
            == Tokens(order, providers, stake, cp, limit) + Tokens([a], providers, stake, cp, limit)
  {
    if order == [] {
      assert [] + [a] == [a];
    } else {
      assert (order + [a])[1..] == order[1..] + [a];
      TokensAppend(order[1..], a, providers, stake, cp, limit);
    }
  }

  /** The weights that the median works with. */
  lemma {:induction false} WeightsAreTokens(order: seq<string>, providers: Providers, stake: StakeStore, cp: CurrencyPair, q: int)
    requires forall a <- order :: a in providers
    ensures Total(ReportsFor(order, providers, stake, cp)) == Tokens(order, providers, stake, cp, None)
    ensures WeightUpTo(ReportsFor(order, providers, stake, cp), q) == Tokens(order, providers, stake, cp, Some(q))
  {
    if order != [] {
      var n := |order| - 1;
      var a, reports := order[n], ReportsFor(order[..n], providers, stake, cp);
      WeightsAreTokens(order[..n], providers, stake, cp, q);
      assert order == order[..n] + [a];
      TokensAppend(order[..n], a, providers, stake, cp, None);
      TokensAppend(order[..n], a, providers, stake, cp, Some(q));
      assert [a][1..] == [];
      if Contribution(providers, stake, a, cp) == [] {
        assert reports + [] == reports;
      } else {
        var e := PricePerValidator(stake.tokens(a).value, providers[a][cp].value);
        assert (reports + [e])[..|reports|] == reports;
      }
    }
  }

  /** Some listed validator with known tokens reported the pair at p. */
  ghost predicate ReportedAt(order: seq<string>, providers: Providers, stake: StakeStore, cp: CurrencyPair, p: int) {
    exists a :: a in order && a in providers && cp in providers[a] && providers[a][cp] == Some(p) && stake.tokens(a).Some?
  }

  lemma {:induction false} ReportedAtIsReported(order: seq<string>, providers: Providers, stake: StakeStore, cp: CurrencyPair, p: int)
    requires forall a <- order :: a in providers
    ensures Reported(ReportsFor(order, providers, stake, cp), p) <==> ReportedAt(order, providers, stake, cp, p)
  {
    if order != [] {
      var n := |order| - 1;
      var a, before := order[n], ReportsFor(order[..n], providers, stake, cp);
      ReportedAtIsReported(order[..n], providers, stake, cp, p);
      var all := before + Contribution(providers, stake, a, cp);
      assert ReportsFor(order, providers, stake, cp) == all;
      if Reported(before, p) {
        var i :| 0 <= i < |before| && before[i].price == p;
        assert all[i].price == p;
      }
      if ReportedAt(order, providers, stake, cp, p) && !ReportedAt(order[..n], providers, stake, cp, p) {
        assert providers[a][cp] == Some(p);
        assert all[|before|].price == p;
      }
    }
  }

  /**
   A pair is published exactly when the tokens behind it reach 0.667 of the bonded ones, and at the least reported price such that the
   validators reporting at most this price hold at least half of these tokens, rounded down.
   */
  lemma PublishedByTokens(order: seq<string>, providers: Providers, stake: StakeStore, cp: CurrencyPair)
    requires IsOrder(order, providers.Keys) && stake.totalBonded > 0
    ensures MedianPrices(order, providers, stake, DEFAULT_POWER_THRESHOLD).Some?
    ensures var prices := MedianPrices(order, providers, stake, DEFAULT_POWER_THRESHOLD).value;
            var all := Tokens(order, providers, stake, cp, None);
            && (cp in prices <==> 2_000_000_000_000_000_000 * all >= 1_333_999_999_999_999_999 * stake.totalBonded)
            && (cp in prices ==>
                  && ReportedAt(order, providers, stake, cp, prices[cp])
                  && Tokens(order, providers, stake, cp, Some(prices[cp])) >= all / 2
                  && forall q :: q < prices[cp] && ReportedAt(order, providers, stake, cp, q)
                       ==> Tokens(order, providers, stake, cp, Some(q)) < all / 2)
  {
    hide ReportsFor, PairsFor, Tokens, ReportedAt, PercentSubmitted, Reported, SumBy;
    var reports := ReportsFor(order, providers, stake, cp);
    PairsHaveReports(order, providers, stake, cp);
    ThresholdExactly(Total(reports), stake.totalBonded);
    forall q
      ensures Total(reports) == Tokens(order, providers, stake, cp, None)
      ensures WeightUpTo(reports, q) == Tokens(order, providers, stake, cp, Some(q))
      ensures Reported(reports, q) <==> ReportedAt(order, providers, stake, cp, q)
    {
      WeightsAreTokens(order, providers, stake, cp, q);
      ReportedAtIsReported(order, providers, stake, cp, q);
    }
    WeightsAreTokens(order, providers, stake, cp, 0);
    assert reports == [] ==> Total(reports) == 0 by { NoTotal(); }
    if reports != [] {
      assert IsMedian(reports, MedianOf(reports));
    }
  }

  /** Without any bonded tokens nothing is published, and it panics exactly when a validator with known tokens reported a price. */
  lemma UnbondedPanicsExactly(order: seq<string>, providers: Providers, stake: StakeStore, threshold: nat)
    requires IsOrder(order, providers.Keys) && stake.totalBonded == 0
    ensures MedianPrices(order, providers, stake, threshold).None? <==> exists cp, p :: ReportedAt(order, providers, stake, cp, p)
    ensures MedianPrices(order, providers, stake, threshold).Some? ==> MedianPrices(order, providers, stake, threshold).value == map[]
  {
    hide ReportsFor, PairsFor, ReportedAt;
    forall cp
      ensures cp in PairsFor(order, providers, stake) <==> exists p :: ReportedAt(order, providers, stake, cp, p)
    {
      PairsHaveReports(order, providers, stake, cp);
      forall p ensures Reported(ReportsFor(order, providers, stake, cp), p) <==> ReportedAt(order, providers, stake, cp, p) {
        ReportedAtIsReported(order, providers, stake, cp, p);
      }
      if ReportsFor(order, providers, stake, cp) != [] {
        assert Reported(ReportsFor(order, providers, stake, cp), ReportsFor(order, providers, stake, cp)[0].price);
      }
    }
    if PairsFor(order, providers, stake) != {} {
      var cp :| cp in PairsFor(order, providers, stake);
    }
    if cp, p :| ReportedAt(order, providers, stake, cp, p) {
      assert cp in PairsFor(order, providers, stake);
    }
  }

  lemma NoTotal()
    ensures Total([]) == 0
  {
  }

  // ---------------------------------------------------------------- honest validators

  /** For each entry of a pair's list, whether its validator is honest. */
  ghost function HonestFor(order: seq<string>, providers: Providers, stake: StakeStore, cp: CurrencyPair, honest: set<string>): (h: seq<bool>)
    requires forall a <- order :: a in providers
    ensures |h| == |ReportsFor(order, providers, stake, cp)|
  {
    if order == [] then [] else
    var n := |order| - 1;
    HonestFor(order[..n], providers, stake, cp, honest) +
    seq(|Contribution(providers, stake, order[n], cp)|, i => order[n] in honest)
  }

  lemma {:induction false} HonestEntry(order: seq<string>, providers: Providers, stake: StakeStore, cp: CurrencyPair, honest: set<string>, i: nat)
    requires forall a <- order :: a in providers
    requires i < |ReportsFor(order, providers, stake, cp)| && HonestFor(order, providers, stake, cp, honest)[i]
    ensures exists a :: a in order && a in honest && cp in Priced(providers[a])
                        && providers[a][cp].value == ReportsFor(order, providers, stake, cp)[i].price
  {
    var n := |order| - 1;
    if i < |ReportsFor(order[..n], providers, stake, cp)| {
      HonestEntry(order[..n], providers, stake, cp, honest, i);
      var a :| a in order[..n] && a in honest && cp in Priced(providers[a])
               && providers[a][cp].value == ReportsFor(order[..n], providers, stake, cp)[i].price;
      assert a in order;
    } else {
      assert order[n] in order;
    }
  }

  /** The tokens of the dishonest validators that reported the pair. */
  ghost function DishonestStake(order: seq<string>, providers: Providers, stake: StakeStore, cp: CurrencyPair, honest: set<string>): nat
    requires forall a <- order :: a in providers
  {
    DishonestWeight(ReportsFor(order, providers, stake, cp), HonestFor(order, providers, stake, cp, honest))
  }

  /** p lies between two honest reports of the pair. */
  ghost predicate BetweenHonest(providers: Providers, cp: CurrencyPair, honest: set<string>, p: int) {
    && (exists a :: a in providers && a in honest && cp in Priced(providers[a]) && providers[a][cp].value <= p)
    && (exists a :: a in providers && a in honest && cp in Priced(providers[a]) && p <= providers[a][cp].value)
  }

  /**
   Byzantine bound: a published price lies between two prices that honest validators reported for the pair, when
   dishonest reporters of the pair hold less than a third of a safe number of bonded tokens.
   */
  lemma PublishedWithinHonest(order: seq<string>, providers: Providers, stake: StakeStore, cp: CurrencyPair, honest: set<string>)
    requires IsOrder(order, providers.Keys)
    requires stake.totalBonded > 0 && MinoritySafe(stake.totalBonded)
    requires 3 * DishonestStake(order, providers, stake, cp, honest) < stake.totalBonded
    requires cp in MedianPrices(order, providers, stake, DEFAULT_POWER_THRESHOLD).value
    ensures BetweenHonest(providers, cp, honest, MedianPrices(order, providers, stake, DEFAULT_POWER_THRESHOLD).value[cp])
  {
    hide ReportsFor, PairsFor, HonestFor, PercentSubmitted, SumBy, DishonestWeight;
    var reports, flags := ReportsFor(order, providers, stake, cp), HonestFor(order, providers, stake, cp, honest);
    PairsHaveReports(order, providers, stake, cp);
    var p := MedianOf(reports);
    MinorityBelowCutoff(Total(reports), stake.totalBonded, DishonestWeight(reports, flags));
    HonestMajority(reports, flags, p);
    var i :| 0 <= i < |reports| && flags[i] && reports[i].price <= p;
    var j :| 0 <= j < |reports| && flags[j] && p <= reports[j].price;
    HonestEntry(order, providers, stake, cp, honest, i);
    HonestEntry(order, providers, stake, cp, honest, j);
  }

  /** The pair has a price although less than a third of the bonded tokens is dishonest among its reporters. */
  ghost predicate PublishedOverMinority(order: seq<string>, providers: Providers, stake: StakeStore, cp: CurrencyPair, honest: set<string>, bonded: nat) {
    && IsOrder(order, providers.Keys)
    && stake.totalBonded == bonded
    && 3 * DishonestStake(order, providers, stake, cp, honest) < bonded
    && MedianPrices(order, providers, stake, DEFAULT_POWER_THRESHOLD).Some?
    && cp in MedianPrices(order, providers, stake, DEFAULT_POWER_THRESHOLD).value
  }

  const HONEST_VALIDATOR: string := "h"
  const DISHONEST_VALIDATOR: string := "d"

  /** A dishonest validator d and an honest one h that report 0 and 1. */
  function TwoReports(h: string, d: string, cp: CurrencyPair): Providers {
    map[h := map[cp := Some(1)], d := map[cp := Some(0)]]
  }

  function TwoStakes(h: string, honest: nat, dishonest: nat, bonded: nat): StakeStore {
    StakeStore((a: string) => Some(if a == h then honest else dishonest), bonded)
  }

  /** The lists of a pair after one more validator. */
  lemma OneMore(order: seq<string>, a: string, providers: Providers, stake: StakeStore, cp: CurrencyPair, honest: set<string>, e: PricePerValidator)
    requires a in providers && forall a' <- order :: a' in providers
    requires Contribution(providers, stake, a, cp) == [e]
    ensures ReportsFor(order + [a], providers, stake, cp) == ReportsFor(order, providers, stake, cp) + [e]
    ensures HonestFor(order + [a], providers, stake, cp, honest) == HonestFor(order, providers, stake, cp, honest) + [a in honest]
    ensures DishonestStake(order + [a], providers, stake, cp, honest)
            == DishonestStake(order, providers, stake, cp, honest) + if a in honest then 0 else e.voteWeight
  {
    hide Contribution;
    var all := order + [a];
    assert all[..|order|] == order;
    var reports, flags := ReportsFor(order, providers, stake, cp), HonestFor(order, providers, stake, cp, honest);
    assert ReportsFor(all, providers, stake, cp) == reports + [e];
    assert HonestFor(all, providers, stake, cp, honest) == flags + [a in honest];
    assert (reports + [e])[..|reports|] == reports && (flags + [a in honest])[..|reports|] == flags;
  }

  lemma TwoOrdered(h: string, d: string, cp: CurrencyPair)
    requires h != d
    ensures IsOrder([h, d], TwoReports(h, d, cp).Keys)
  {
  }

  lemma TwoContributions(h: string, d: string, cp: CurrencyPair, honest: nat, dishonest: nat, bonded: nat)
    requires h != d
    ensures Contribution(TwoReports(h, d, cp), TwoStakes(h, honest, dishonest, bonded), h, cp) == [PricePerValidator(honest, 1)]
    ensures Contribution(TwoReports(h, d, cp), TwoStakes(h, honest, dishonest, bonded), d, cp) == [PricePerValidator(dishonest, 0)]
  {
  }

  lemma TwoReportsFor(h: string, d: string, cp: CurrencyPair, honest: nat, dishonest: nat, bonded: nat)
    requires h != d
    ensures h in TwoReports(h, d, cp) && d in TwoReports(h, d, cp)
    ensures ReportsFor([h, d], TwoReports(h, d, cp), TwoStakes(h, honest, dishonest, bonded), cp)
            == [PricePerValidator(honest, 1), PricePerValidator(dishonest, 0)]
    ensures DishonestStake([h, d], TwoReports(h, d, cp), TwoStakes(h, honest, dishonest, bonded), cp, {h}) == dishonest
  {
    var providers, stake := TwoReports(h, d, cp), TwoStakes(h, honest, dishonest, bonded);
    var e1, e2 := PricePerValidator(honest, 1), PricePerValidator(dishonest, 0);
    hide Contribution, TwoReports, TwoStakes;
    assert h in providers && d in providers by { TwoOrdered(h, d, cp); }
    TwoContributions(h, d, cp, honest, dishonest, bonded);
    assert ReportsFor([], providers, stake, cp) == [] && DishonestStake([], providers, stake, cp, {h}) == 0;
    hide ReportsFor, HonestFor, DishonestStake;
    OneMore([], h, providers, stake, cp, {h}, e1);
    OneMore([h], d, providers, stake, cp, {h}, e2);
    assert [] + [h] == [h] && [h] + [d] == [h, d] && [] + [e1] + [e2] == [e1, e2];
  }

  /** The dishonest report is the median as soon as its weight reaches the cut-off. */
  lemma TwoReportsMedian(honest: nat, dishonest: nat)
    requires dishonest >= (honest + dishonest) / 2
    ensures var s := [PricePerValidator(honest, 1), PricePerValidator(dishonest, 0)];
            Total(s) == honest + dishonest && MedianOf(s) == 0
  {
    var e1, e2 := PricePerValidator(honest, 1), PricePerValidator(dishonest, 0);
    var s := [e1, e2];
    assert s[..1] == [e1] && [e1][..0] == [];
    assert SumBy(Weight(), [e1]) == honest && SumBy(WeightAtMost(0), [e1]) == 0;
    assert SumBy(Weight(), s) == SumBy(Weight(), s[..1]) + dishonest;
    assert SumBy(WeightAtMost(0), s) == SumBy(WeightAtMost(0), s[..1]) + WeightAtMost(0)(e2);
    assert s[1].price == 0;
    assert IsMedian(s, 0);
    MedianUnique(s, 0, MedianOf(s));
  }

  /** For an unsafe number of bonded tokens, a dishonest minority sets the price below the honest report. */
  lemma UnsafeMinoritySetsPrice(h: string, d: string, bonded: nat, cp: CurrencyPair)
    requires h != d && bonded > 0 && !MinoritySafe(bonded)
    ensures var providers, stake := TwoReports(h, d, cp), TwoStakes(h, LeastReported(bonded) - bonded / 3, bonded / 3, bonded);
            && PublishedOverMinority([h, d], providers, stake, cp, {h}, bonded)
            && !BetweenHonest(providers, cp, {h}, MedianPrices([h, d], providers, stake, DEFAULT_POWER_THRESHOLD).value[cp])
  {
    hide PercentSubmitted, ReportsFor, PairsFor, HonestFor, DishonestStake, SumBy;
    var dishonest := bonded / 3;
    var honest := LeastReported(bonded) - dishonest;
    var providers, stake := TwoReports(h, d, cp), TwoStakes(h, honest, dishonest, bonded);
    TwoOrdered(h, d, cp);
    TwoReportsFor(h, d, cp, honest, dishonest, bonded);
    TwoReportsMedian(honest, dishonest);
    LeastReportedMeets(bonded);
    PairsHaveReports([h, d], providers, stake, cp);
    assert MedianPrices([h, d], providers, stake, DEFAULT_POWER_THRESHOLD).value[cp] == 0;
  }

  /**
   The bound is exact for the published price itself: a published price always lies between two honest reports of its pair, whatever the
   validators, their stakes and prices, if and only if the number of bonded tokens is a safe one.
   */
  lemma PublishedBoundExact(bonded: nat, cp: CurrencyPair)
    requires bonded > 0
    ensures (forall order, providers, stake, honest :: PublishedOverMinority(order, providers, stake, cp, honest, bonded)
               ==> BetweenHonest(providers, cp, honest, MedianPrices(order, providers, stake, DEFAULT_POWER_THRESHOLD).value[cp]))
            <==> MinoritySafe(bonded)
  {
    hide MedianPrices, DishonestStake;
    if MinoritySafe(bonded) {
      forall order, providers, stake, honest | PublishedOverMinority(order, providers, stake, cp, honest, bonded)
        ensures BetweenHonest(providers, cp, honest, MedianPrices(order, providers, stake, DEFAULT_POWER_THRESHOLD).value[cp])
      {
        PublishedWithinHonest(order, providers, stake, cp, honest);
      }
    } else {
      UnsafeMinoritySetsPrice(HONEST_VALIDATOR, DISHONEST_VALIDATOR, bonded, cp);
    }
  }

  /** Every published price is one that some validator with stake reported. */
  lemma PublishedIsReported(order: seq<string>, providers: Providers, stake: StakeStore, threshold: nat, cp: CurrencyPair)
    requires IsOrder(order, providers.Keys)
    requires MedianPrices(order, providers, stake, threshold).Some? && cp in MedianPrices(order, providers, stake, threshold).value
    ensures exists a :: a in providers && cp in Priced(providers[a])
                        && providers[a][cp].value == MedianPrices(order, providers, stake, threshold).value[cp]
  {
    hide ReportsFor, PairsFor, HonestFor, PercentSubmitted, SumBy;
    var reports := ReportsFor(order, providers, stake, cp);
    PairsHaveReports(order, providers, stake, cp);
    var i :| 0 <= i < |reports| && reports[i].price == MedianOf(reports);
    AllHonest(order, providers, stake, cp);
    assert HonestFor(order, providers, stake, cp, providers.Keys)[i] in HonestFor(order, providers, stake, cp, providers.Keys);
    HonestEntry(order, providers, stake, cp, providers.Keys, i);
  }

  lemma {:induction false} AllHonest(order: seq<string>, providers: Providers, stake: StakeStore, cp: CurrencyPair)
    requires forall a <- order :: a in providers
    ensures forall h <- HonestFor(order, providers, stake, cp, providers.Keys) :: h
  {
    if order != [] {
      AllHonest(order[..|order| - 1], providers, stake, cp);
    }
  }
}

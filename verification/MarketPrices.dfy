/**
 What one tick of the index price aggregator computes, and what iterating ticks converges to (pkg/math/oracle).

 A big.Float is a real number; its operations are arbitrary functions (an Arithmetic), so nothing here depends on how they
 round.  Comparison is exact.
 */
module MarketPrices {
  import opened Varint
  import opened Wrappers
  import opened Abci

  datatype Arithmetic = Arithmetic(
    mul: (real, real) -> real,
    quo: (real, real) -> real,
    add: (real, real) -> real,
    pow10: nat -> real)

  datatype ProviderConfig = ProviderConfig(name: string, offChainTicker: string, normalizeByPair: Option<CurrencyPair>, invert: bool)

  datatype Ticker = Ticker(currencyPair: CurrencyPair, decimals: nat, minProviderCount: uint64, enabled: bool)

  datatype Market = Market(ticker: Ticker, providerConfigs: seq<ProviderConfig>)

  type MarketMap = map<string, Market>

  /** Prices by ticker string; None is a nil pointer. */
  type View = map<string, Option<real>>

  function Lookup(view: View, ticker: string): Option<real> {
    if ticker in view then view[ticker] else None
  }

  // ---------------------------------------------------------------- one market

  /** The provider's price, inverted if configured so. */
  function ProviderPrice(ar: Arithmetic, providers: map<string, View>, c: ProviderConfig): Option<real> {
    var price := if c.name in providers then Lookup(providers[c.name], c.offChainTicker) else None;
    if price.Some? && c.invert then Some(ar.quo(1.0, price.value)) else price
  }

  /** The provider's price in terms of the target, using the index price of the pair it is normalized by. */
  function AdjustedPrice(ar: Arithmetic, providers: map<string, View>, index: View, c: ProviderConfig): Option<real> {
    var price := ProviderPrice(ar, providers, c);
    if price.None? || c.normalizeByPair.None? then price
    else
      var normalizer := Lookup(index, c.normalizeByPair.value.String());
      if normalizer.None? then None else Some(ar.mul(price.value, normalizer.value))
  }

  function ConvertedPrices(ar: Arithmetic, providers: map<string, View>, index: View, configs: seq<ProviderConfig>): seq<real> {
    if configs == [] then [] else
    var n := |configs| - 1;
    var front := ConvertedPrices(ar, providers, index, configs[..n]);
    var price := AdjustedPrice(ar, providers, index, configs[n]);
    if price.None? then front else front + [price.value]
  }

  /** x inserted into a sorted list, in front of the elements it does not exceed. */
  function Insert(s: seq<real>, x: real): seq<real> {
    if s == [] || s[|s| - 1] < x then s + [x] else Insert(s[..|s| - 1], x) + [s[|s| - 1]]
  }

  function Sort(s: seq<real>): (t: seq<real>)
    ensures |t| == |s|
  {
    if s == [] then [] else
    InsertLength(Sort(s[..|s| - 1]), s[|s| - 1]);
    Insert(Sort(s[..|s| - 1]), s[|s| - 1])
  }

  lemma {:induction false} InsertLength(s: seq<real>, x: real)
    ensures |Insert(s, x)| == |s| + 1
  {
    if s != [] {
      InsertLength(s[..|s| - 1], x);
    }
  }

  predicate Ascending(s: seq<real>) {
    forall i, j :: 0 <= i < j < |s| ==> s[i] <= s[j]
  }

  predicate Bounded(s: seq<real>, bound: real) {
    forall i :: 0 <= i < |s| ==> s[i] <= bound
  }

  lemma {:induction false} InsertBounded(s: seq<real>, x: real, bound: real)
    requires x <= bound && Bounded(s, bound)
    ensures Bounded(Insert(s, x), bound)
  {
    if s != [] {
      InsertBounded(s[..|s| - 1], x, bound);
    }
  }

  lemma {:induction false} InsertAscends(s: seq<real>, x: real)
    requires Ascending(s)
    ensures Ascending(Insert(s, x))
  {
    if s != [] && s[|s| - 1] >= x {
      var front, last := s[..|s| - 1], s[|s| - 1];
      InsertAscends(front, x);
      InsertBounded(front, x, last);
    }
  }

  lemma {:induction false} InsertAdds(s: seq<real>, x: real)
    ensures multiset(Insert(s, x)) == multiset(s) + multiset{x}
  {
    if s != [] && s[|s| - 1] >= x {
      var front, last := s[..|s| - 1], s[|s| - 1];
      assert s == front + [last];
      InsertAdds(front, x);
    }
  }

  /** Sort sorts. */
  lemma {:induction false} SortSorts(s: seq<real>)
    ensures Ascending(Sort(s)) && multiset(Sort(s)) == multiset(s)
  {
    if s != [] {
      var front := s[..|s| - 1];
      assert s == front + [s[|s| - 1]];
      SortSorts(front);
      InsertAscends(Sort(front), s[|s| - 1]);
      InsertAdds(Sort(front), s[|s| - 1]);
    }
  }

  /** The price in the middle, or the mean of the two middle prices. */
  function MedianPrice(ar: Arithmetic, values: seq<real>): real
    requires values != []
  {
    var sorted, middle := Sort(values), |values| / 2;
    if |values| % 2 == 0 then ar.quo(ar.add(sorted[middle - 1], sorted[middle]), 2.0) else sorted[middle]
  }

  /** Two sorted lists of the same elements are the same list. */
  lemma {:induction false} SortedUnique(s: seq<real>, t: seq<real>)
    requires Ascending(s) && Ascending(t) && multiset(s) == multiset(t)
    ensures s == t
  {
    hide Ascending;
    assert |s| == |multiset(s)| == |multiset(t)| == |t|;
    if s != [] {
      var n := |s| - 1;
      LastIsGreatest(s, t);
      LastIsGreatest(t, s);
      FrontAscends(s);
      FrontAscends(t);
      WithoutLast(s);
      WithoutLast(t);
      SortedUnique(s[..n], t[..n]);
      assert s == s[..n] + [s[n]] && t == t[..n] + [t[n]];
    }
  }

  lemma FrontAscends(s: seq<real>)
    requires s != [] && Ascending(s)
    ensures Ascending(s[..|s| - 1])
  {
  }

  lemma LastIsGreatest(s: seq<real>, t: seq<real>)
    requires s != [] && t != [] && Ascending(s) && multiset(s) == multiset(t)
    ensures t[|t| - 1] <= s[|s| - 1]
  {
    assert t[|t| - 1] in multiset(s);
    var i :| 0 <= i < |s| && s[i] == t[|t| - 1];
  }

  lemma WithoutLast(s: seq<real>)
    requires s != []
    ensures multiset(s[..|s| - 1]) == multiset(s) - multiset{s[|s| - 1]}
  {
    assert s == s[..|s| - 1] + [s[|s| - 1]];
  }

  /** The values fall into as many of at most a, then a to b themselves, and as many of at least b. */
  ghost predicate Middle(values: seq<real>, middle: seq<real>) {
    exists low: seq<real>, high: seq<real> :: Splits(values, low, middle, high)
  }

  ghost predicate MiddleTwo(values: seq<real>, a: real, b: real) {
    Middle(values, [a, b])
  }

  predicate Splits(values: seq<real>, low: seq<real>, middle: seq<real>, high: seq<real>) {
    && multiset(values) == multiset(low) + multiset(middle) + multiset(high)
    && |low| == |high|
    && middle != [] && Ascending(middle)
    && (forall x <- low :: x <= middle[0])
    && (forall x <- high :: x >= middle[|middle| - 1])
  }

  /** The extremes of a sorted list are elements of the list. */
  lemma SortedExtremes(s: seq<real>)
    requires s != []
    ensures Sort(s)[0] in s && Sort(s)[|s| - 1] in s
  {
    hide Sort;
    SortSorts(s);
    assert Sort(s)[0] in multiset(Sort(s)) && Sort(s)[|s| - 1] in multiset(Sort(s));
  }

  lemma JoinedSorts(values: seq<real>, low: seq<real>, middle: seq<real>, high: seq<real>)
    requires Splits(values, low, middle, high)
    ensures Ascending(Sort(low) + middle + Sort(high))
  {
    hide Sort, Ascending;
    SortSorts(low);
    SortSorts(high);
    if low != [] {
      SortedExtremes(low);
    }
    if high != [] {
      SortedExtremes(high);
    }
    JoinAscends(Sort(low), middle);
    JoinAscends(Sort(low) + middle, Sort(high));
  }

  lemma JoinedPermutes(values: seq<real>, low: seq<real>, middle: seq<real>, high: seq<real>)
    requires Splits(values, low, middle, high)
    ensures multiset(Sort(low) + middle + Sort(high)) == multiset(values)
    ensures |values| == |low| + |middle| + |high|
  {
    hide Sort, Ascending;
    SortSorts(low);
    SortSorts(high);
    assert |multiset(values)| == |values|;
  }

  /** Whatever lies in the middle lies in the middle of the sorted list. */
  lemma MiddleIsSorted(values: seq<real>, middle: seq<real>)
    requires Middle(values, middle)
    ensures |middle| <= |values| && (|values| - |middle|) % 2 == 0
    ensures var k := (|values| - |middle|) / 2; Sort(values)[k..k + |middle|] == middle
  {
    hide Sort, Ascending;
    var low: seq<real>, high: seq<real> :| Splits(values, low, middle, high);
    JoinedPermutes(values, low, middle, high);
    JoinedSorts(values, low, middle, high);
    assert |low| == |high|;
    hide Splits;
    SortSorts(values);
    SortedUnique(Sort(low) + middle + Sort(high), Sort(values));
  }

  lemma JoinAscends(s: seq<real>, t: seq<real>)
    requires Ascending(s) && Ascending(t) && (s != [] && t != [] ==> s[|s| - 1] <= t[0])
    ensures Ascending(s + t)
  {
    forall i, j | 0 <= i < j < |s + t| ensures (s + t)[i] <= (s + t)[j] {
      if i < |s| <= j {
        assert s[i] <= s[|s| - 1] <= t[0] <= t[j - |s|];
      }
    }
  }

  lemma SortedMiddle(values: seq<real>, k: nat)
    requires 2 * k < |values|
    ensures Middle(values, Sort(values)[k..|values| - k])
  {
    hide Sort, Ascending, Splits;
    SortSorts(values);
    SortedSplits(values, Sort(values), k);
  }

  lemma SortedSplits(values: seq<real>, s: seq<real>, k: nat)
    requires Ascending(s) && multiset(s) == multiset(values) && 2 * k < |s|
    ensures Splits(values, s[..k], s[k..|s| - k], s[|s| - k..])
  {
    ThreeParts(s, s[..k], s[k..|s| - k], s[|s| - k..]);
    PartsAscend(s, k);
    hide Ascending;
  }

  lemma PartsAscend(s: seq<real>, k: nat)
    requires Ascending(s) && 2 * k < |s|
    ensures var low, middle, high := s[..k], s[k..|s| - k], s[|s| - k..];
            && Ascending(middle)
            && (forall x <- low :: x <= middle[0])
            && (forall x <- high :: x >= middle[|middle| - 1])
  {
  }

  lemma ThreeParts(s: seq<real>, low: seq<real>, middle: seq<real>, high: seq<real>)
    requires |low| + |middle| <= |s| && low == s[..|low|] && middle == s[|low|..|low| + |middle|] && high == s[|low| + |middle|..]
    ensures multiset(s) == multiset(low) + multiset(middle) + multiset(high)
  {
    assert s == low + middle + high;
  }

  /**
   What the median is, whatever order the prices come in: an odd number of them has one in the middle, with as many below or equal as above
   or equal; an even number has two, and the median is their sum divided by two.
   */
  lemma MedianExactly(ar: Arithmetic, values: seq<real>)
    requires values != []
    ensures |values| % 2 == 1 ==> forall m :: Middle(values, [m]) <==> m == MedianPrice(ar, values)
    ensures |values| % 2 == 0 ==> exists a, b :: MiddleTwo(values, a, b) && MedianPrice(ar, values) == ar.quo(ar.add(a, b), 2.0)
    ensures |values| % 2 == 0 ==> forall a, b :: MiddleTwo(values, a, b) ==> MedianPrice(ar, values) == ar.quo(ar.add(a, b), 2.0)
  {
    hide Sort, Middle;
    var n, s := |values|, Sort(values);
    var k := (n - 1) / 2;
    SortedMiddle(values, k);
    if n % 2 == 1 {
      assert s[k..n - k] == [s[k]];
      forall m | Middle(values, [m]) ensures m == s[k] {
        MiddleIsSorted(values, [m]);
        assert s[k..k + 1][0] == m;
      }
    } else {
      assert s[k..n - k] == [s[k], s[k + 1]];
      forall a, b | MiddleTwo(values, a, b) ensures a == s[k] && b == s[k + 1] {
        MiddleIsSorted(values, [a, b]);
        assert s[k..k + 2][0] == a && s[k..k + 2][1] == b;
      }
      assert MiddleTwo(values, s[k], s[k + 1]);
      assert MedianPrice(ar, values) == ar.quo(ar.add(s[k], s[k + 1]), 2.0);
    }
  }

  /** Only the prices count, not their order. */
  lemma MedianOfRearranged(ar: Arithmetic, s: seq<real>, t: seq<real>)
    requires s != [] && multiset(s) == multiset(t)
    ensures t != [] && MedianPrice(ar, s) == MedianPrice(ar, t)
  {
    hide Sort;
    assert |s| == |multiset(s)| == |multiset(t)| == |t|;
    SortSorts(s);
    SortSorts(t);
    SortedUnique(Sort(s), Sort(t));
  }

  lemma ThreeSplit(a: real, b: real, c: real)
    requires a <= b <= c
    ensures Splits([c, a, b], [a], [b], [c])
  {
    var values, low, middle, high := [c, a, b], [a], [b], [c];
    assert multiset(values) == multiset(low) + multiset(middle) + multiset(high) by {
      ThreeParts(values, high, low, middle);
    }
  }

  lemma MedianOfThree(ar: Arithmetic, a: real, b: real, c: real)
    requires a <= b <= c
    ensures MedianPrice(ar, [c, a, b]) == b
  {
    hide MedianPrice;
    MedianExactly(ar, [c, a, b]);
    ThreeSplit(a, b, c);
  }

  predicate EnoughPrices(market: Market, converted: seq<real>) {
    |converted| >= AsInt64(market.ticker.minProviderCount)
  }

  /** Inserting below a sorted tail of elements that x does not exceed. */
  lemma {:induction false} InsertAt(s: seq<real>, x: real, j: nat)
    requires j <= |s|
    requires forall k :: j <= k < |s| ==> x <= s[k]
    requires j > 0 ==> s[j - 1] < x
    ensures Insert(s, x) == s[..j] + [x] + s[j..]
  {
    if j < |s| {
      var front := s[..|s| - 1];
      InsertAt(front, x, j);
      assert s[j..] == front[j..] + [s[|s| - 1]];
    }
  }

  // ---------------------------------------------------------------- one tick

  /** A market passes its count check with no price at all: the median of nothing is nil, and copying it panics. */
  predicate MarketPanics(ar: Arithmetic, market: Market, providers: map<string, View>, index: View) {
    var converted := ConvertedPrices(ar, providers, index, market.providerConfigs);
    market.ticker.enabled && EnoughPrices(market, converted) && converted == []
  }

  predicate TickPanics(ar: Arithmetic, markets: MarketMap, providers: map<string, View>, index: View) {
    exists t :: t in markets && MarketPanics(ar, markets[t], providers, index)
  }

  lemma {:induction false} NothingConverted(ar: Arithmetic, index: View, configs: seq<ProviderConfig>)
    ensures ConvertedPrices(ar, map[], index, configs) == []
  {
    if configs != [] {
      NothingConverted(ar, index, configs[..|configs| - 1]);
    }
  }

  /** Some prices make a tick panic exactly when an enabled market asks for no provider. */
  lemma PanicsExactly(ar: Arithmetic, markets: MarketMap)
    ensures (exists providers, index :: TickPanics(ar, markets, providers, index))
            <==> exists t :: t in markets && markets[t].ticker.enabled && AsInt64(markets[t].ticker.minProviderCount) <= 0
  {
    hide ConvertedPrices;
    forall t | t in markets && markets[t].ticker.enabled && AsInt64(markets[t].ticker.minProviderCount) <= 0
      ensures MarketPanics(ar, markets[t], map[], map[])
    {
      NothingConverted(ar, map[], markets[t].providerConfigs);
    }
    if exists t :: t in markets && markets[t].ticker.enabled && AsInt64(markets[t].ticker.minProviderCount) <= 0 {
      assert TickPanics(ar, markets, map[], map[]);
    }
  }

  // ---------------------------------------------------------------- valid market maps

  /** Ticker.ValidateBasic; the format of pairs is a parameter, metadata is not part of the model. */
  predicate ValidTicker(validPair: CurrencyPair -> bool, ticker: Ticker) {
    1 <= ticker.decimals <= 36 && ticker.minProviderCount >= 1 && validPair(ticker.currencyPair)
  }

  predicate ValidConfig(validPair: CurrencyPair -> bool, c: ProviderConfig) {
    c.name != "" && c.offChainTicker != "" && (c.normalizeByPair.Some? ==> validPair(c.normalizeByPair.value))
  }

  /** Market.ValidateBasic.  No slice is longer than an int can count. */
  predicate ValidMarket(validPair: CurrencyPair -> bool, market: Market) {
    var configs := market.providerConfigs;
    && ValidTicker(validPair, market.ticker)
    && market.ticker.minProviderCount <= |configs| < TWO_TO_THE_63
    && (forall c <- configs :: ValidConfig(validPair, c))
    && forall i, j :: 0 <= i < j < |configs| ==> configs[i].name + configs[i].offChainTicker != configs[j].name + configs[j].offChainTicker
  }

  /** MarketMap.ValidateBasic */
  predicate ValidMarketMap(validPair: CurrencyPair -> bool, markets: MarketMap) {
    && (forall t <- markets :: ValidMarket(validPair, markets[t]) && t == markets[t].ticker.currencyPair.String())
    && forall t <- markets :: forall c <- markets[t].providerConfigs :: c.normalizeByPair.Some? ==>
         var n := c.normalizeByPair.value.String();
         n in markets && (markets[t].ticker.enabled ==> markets[n].ticker.enabled)
  }

  /** A valid market map is keyed by ticker string, asks every market for a provider and never makes a tick panic. */
  lemma ValidNeverPanics(ar: Arithmetic, validPair: CurrencyPair -> bool, markets: MarketMap)
    requires ValidMarketMap(validPair, markets)
    ensures KeyedByTicker(markets) && forall t <- markets :: AsInt64(markets[t].ticker.minProviderCount) >= 1
    ensures forall providers, index :: !TickPanics(ar, markets, providers, index)
  {
    hide TickPanics;
    PanicsExactly(ar, markets);
  }

  /** A market publishes its price when it is enabled and has enough convertible prices. */
  function MarketPrice(ar: Arithmetic, market: Market, providers: map<string, View>, index: View): Option<real> {
    var converted := ConvertedPrices(ar, providers, index, market.providerConfigs);
    if market.ticker.enabled && EnoughPrices(market, converted) && converted != [] then Some(MedianPrice(ar, converted)) else None
  }

  function Scaled(ar: Arithmetic, market: Market, price: real): real {
    ar.mul(price, ar.pow10(market.ticker.decimals))
  }

  /** The maps a tick fills, for markets visited in this order. */
  function Filled(ar: Arithmetic, markets: MarketMap, providers: map<string, View>, index: View, order: seq<string>): (View, View)
    requires forall t <- order :: t in markets
  {
    if order == [] then (map[], map[]) else
    var n := |order| - 1;
    var (newIndex, scaled) := Filled(ar, markets, providers, index, order[..n]);
    var market := markets[order[n]];
    match MarketPrice(ar, market, providers, index)
    case None => (newIndex, scaled)
    case Some(p) =>
      var key := market.ticker.currencyPair.String();
      (newIndex[key := Some(p)], scaled[key := Some(Scaled(ar, market, p))])
  }

  /** A valid market map is keyed by ticker string. */
  predicate KeyedByTicker(markets: MarketMap) {
    forall t <- markets :: markets[t].ticker.currencyPair.String() == t
  }

  /** The index prices after a tick on a valid market map. */
  function Tick(ar: Arithmetic, markets: MarketMap, providers: map<string, View>, index: View): View {
    map t | t in markets && MarketPrice(ar, markets[t], providers, index).Some? :: MarketPrice(ar, markets[t], providers, index)
  }

  function TickScaled(ar: Arithmetic, markets: MarketMap, providers: map<string, View>, index: View): View {
    map t | t in markets && MarketPrice(ar, markets[t], providers, index).Some?
      :: Some(Scaled(ar, markets[t], MarketPrice(ar, markets[t], providers, index).value))
  }

  /** A market that asks for a provider is in the new index prices exactly when it is enabled with enough convertible prices. */
  lemma PublishedExactly(ar: Arithmetic, markets: MarketMap, providers: map<string, View>, index: View, t: string)
    requires t in markets ==> AsInt64(markets[t].ticker.minProviderCount) >= 1
    ensures t in Tick(ar, markets, providers, index)
            <==> t in markets && markets[t].ticker.enabled
                 && |ConvertedPrices(ar, providers, index, markets[t].providerConfigs)| >= AsInt64(markets[t].ticker.minProviderCount)
  {
  }

  lemma {:induction false} FilledLooksUp(ar: Arithmetic, markets: MarketMap, providers: map<string, View>, index: View, order: seq<string>, t: string)
    requires KeyedByTicker(markets) && forall t' <- order :: t' in markets
    ensures var (newIndex, scaled) := Filled(ar, markets, providers, index, order);
            && (t in newIndex <==> t in order && MarketPrice(ar, markets[t], providers, index).Some?)
            && (t in newIndex ==> newIndex[t] == MarketPrice(ar, markets[t], providers, index))
            && (t in scaled <==> t in newIndex)
            && (t in scaled ==> scaled[t] == Some(Scaled(ar, markets[t], newIndex[t].value)))
  {
    hide MarketPrice, Scaled;
    if order != [] {
      FilledLooksUp(ar, markets, providers, index, order[..|order| - 1], t);
    }
  }

  /** On a valid market map both maps are the same for every iteration order. */
  lemma FilledIsTick(ar: Arithmetic, markets: MarketMap, providers: map<string, View>, index: View, order: seq<string>)
    requires KeyedByTicker(markets)
    requires forall t :: t in order <==> t in markets
    ensures Filled(ar, markets, providers, index, order) == (Tick(ar, markets, providers, index), TickScaled(ar, markets, providers, index))
  {
    hide MarketPrice, Scaled, Filled, KeyedByTicker;
    var (newIndex, scaled) := Filled(ar, markets, providers, index, order);
    forall t: string
      ensures t in newIndex <==> t in Tick(ar, markets, providers, index)
      ensures t in newIndex ==> newIndex[t] == Tick(ar, markets, providers, index)[t]
      ensures t in scaled <==> t in TickScaled(ar, markets, providers, index)
      ensures t in scaled ==> scaled[t] == TickScaled(ar, markets, providers, index)[t]
    {
      FilledLooksUp(ar, markets, providers, index, order, t);
    }
    assert newIndex == Tick(ar, markets, providers, index);
    assert scaled == TickScaled(ar, markets, providers, index);
  }

  // ---------------------------------------------------------------- convergence

  function Ticks(ar: Arithmetic, markets: MarketMap, providers: map<string, View>, index: View, n: nat): View {
    if n == 0 then index else Tick(ar, markets, providers, Ticks(ar, markets, providers, index, n - 1))
  }

  /** The graph of normalizations has no cycle: every market ranks above the pairs it is normalized by. */
  predicate Ranked(markets: MarketMap, rank: string -> nat) {
    forall t <- markets :: forall c <- markets[t].providerConfigs ::
      c.normalizeByPair.Some? ==> rank(c.normalizeByPair.value.String()) < rank(t)
  }

  /** The direct evaluation: each normalization is replaced by the evaluation of its market. */
  function Direct(ar: Arithmetic, markets: MarketMap, providers: map<string, View>, rank: string -> nat, t: string): Option<real>
    requires Ranked(markets, rank)
    decreases rank(t), 1, 0
  {
    if t !in markets then None
    else
      var market := markets[t];
      var converted := DirectConverted(ar, markets, providers, rank, t, market.providerConfigs);
      if market.ticker.enabled && EnoughPrices(market, converted) && converted != [] then Some(MedianPrice(ar, converted)) else None
  }

  function DirectConverted(ar: Arithmetic, markets: MarketMap, providers: map<string, View>, rank: string -> nat, t: string, configs: seq<ProviderConfig>): seq<real>
    requires Ranked(markets, rank)
    requires t in markets && forall c <- configs :: c in markets[t].providerConfigs
    decreases rank(t), 0, |configs|
  {
    if configs == [] then [] else
    var n := |configs| - 1;
    var c := configs[n];
    assert c in configs;
    var front := DirectConverted(ar, markets, providers, rank, t, configs[..n]);
    var price := ProviderPrice(ar, providers, c);
    if price.None? then front
    else if c.normalizeByPair.None? then front + [price.value]
    else
      var normalizer := Direct(ar, markets, providers, rank, c.normalizeByPair.value.String());
      if normalizer.None? then front else front + [ar.mul(price.value, normalizer.value)]
  }

  /** After more ticks than a market's rank, its index price is its direct evaluation, whatever the prices were at the start. */
  lemma {:induction false} TicksConverge(ar: Arithmetic, markets: MarketMap, providers: map<string, View>, index: View, rank: string -> nat, t: string, n: nat)
    requires Ranked(markets, rank) && n > rank(t)
    ensures Lookup(Ticks(ar, markets, providers, index, n), t) == Direct(ar, markets, providers, rank, t)
    decreases rank(t), 1, 0
  {
    hide ConvertedPrices, DirectConverted, MedianPrice, EnoughPrices;
    if t in markets {
      ConvertedConverge(ar, markets, providers, index, rank, t, n, markets[t].providerConfigs);
    }
  }

  lemma {:induction false} ConvertedConverge(ar: Arithmetic, markets: MarketMap, providers: map<string, View>, index: View, rank: string -> nat,
                                             t: string, n: nat, configs: seq<ProviderConfig>)
    requires Ranked(markets, rank) && n > rank(t)
    requires t in markets && forall c <- configs :: c in markets[t].providerConfigs
    ensures ConvertedPrices(ar, providers, Ticks(ar, markets, providers, index, n - 1), configs)
            == DirectConverted(ar, markets, providers, rank, t, configs)
    decreases rank(t), 0, |configs|
  {
    hide Tick, Ticks, Direct, ProviderPrice;
    if configs != [] {
      var c := configs[|configs| - 1];
      assert c in configs;
      ConvertedConverge(ar, markets, providers, index, rank, t, n, configs[..|configs| - 1]);
      if c.normalizeByPair.Some? {
        TicksConverge(ar, markets, providers, index, rank, c.normalizeByPair.value.String(), n - 1);
      }
    }
  }

  /** Once there have been more ticks than any market's rank, a further tick changes nothing. */
  lemma TicksSettle(ar: Arithmetic, markets: MarketMap, providers: map<string, View>, index: View, rank: string -> nat, n: nat)
    requires Ranked(markets, rank) && n > 0
    requires forall t <- markets :: rank(t) < n
    ensures Ticks(ar, markets, providers, index, n + 1) == Ticks(ar, markets, providers, index, n)
  {
    hide MarketPrice, Ranked, Direct;
    var a, b := Ticks(ar, markets, providers, index, n + 1), Ticks(ar, markets, providers, index, n);
    forall t <- markets ensures Lookup(a, t) == Lookup(b, t) {
      TicksConverge(ar, markets, providers, index, rank, t, n);
      TicksConverge(ar, markets, providers, index, rank, t, n + 1);
    }
    forall t: string ensures (t in a <==> t in b) && (t in a ==> a[t] == b[t]) {
      if t in markets {
        assert Lookup(a, t) == Lookup(b, t);
      }
    }
  }

  /** A market with one provider gets that provider's adjusted price. */
  lemma OneProvider(ar: Arithmetic, market: Market, providers: map<string, View>, index: View, c: ProviderConfig)
    requires market.ticker.enabled && AsInt64(market.ticker.minProviderCount) <= 1 && market.providerConfigs == [c]
    ensures MarketPrice(ar, market, providers, index) == AdjustedPrice(ar, providers, index, c)
  {
    hide AdjustedPrice, ConvertedPrices, Sort;
    OneConverted(ar, providers, index, c);
    if AdjustedPrice(ar, providers, index, c).Some? {
      SortOne(AdjustedPrice(ar, providers, index, c).value);
    }
  }

  lemma OneConverted(ar: Arithmetic, providers: map<string, View>, index: View, c: ProviderConfig)
    ensures ConvertedPrices(ar, providers, index, [c])
            == match AdjustedPrice(ar, providers, index, c) case None => [] case Some(p) => [p]
  {
    hide AdjustedPrice;
    assert [c][..0] == [];
    assert ConvertedPrices(ar, providers, index, []) == [];
  }

  lemma SortOne(price: real)
    ensures Sort([price]) == [price]
  {
  }

  // ---------------------------------------------------------------- a market's price, spelled out

  /** A provider's price converts to p: its own price or, if configured so, its inverse, times the index price of the pair it is normalized by. */
  ghost predicate ConvertsTo(ar: Arithmetic, providers: map<string, View>, index: View, c: ProviderConfig, p: real) {
    && c.name in providers && c.offChainTicker in providers[c.name] && providers[c.name][c.offChainTicker].Some?
    && var raw := providers[c.name][c.offChainTicker].value;
       var own := if c.invert then ar.quo(1.0, raw) else raw;
       match c.normalizeByPair
       case None => p == own
       case Some(pair) =>
         var key := pair.base + "/" + pair.quote;
         key in index && index[key].Some? && p == ar.mul(own, index[key].value)
  }

  lemma AdjustedExactly(ar: Arithmetic, providers: map<string, View>, index: View, c: ProviderConfig, p: real)
    ensures AdjustedPrice(ar, providers, index, c) == Some(p) <==> ConvertsTo(ar, providers, index, c, p)
  {
    if c.normalizeByPair.Some? {
      assert c.normalizeByPair.value.String() == c.normalizeByPair.value.base + "/" + c.normalizeByPair.value.quote;
    }
  }

  /** The configurations contribute one after the other, and each at most its own price. */
  lemma {:induction false} ConvertedJoin(ar: Arithmetic, providers: map<string, View>, index: View, s: seq<ProviderConfig>, t: seq<ProviderConfig>)
    ensures ConvertedPrices(ar, providers, index, s + t)
            == ConvertedPrices(ar, providers, index, s) + ConvertedPrices(ar, providers, index, t)
  {
    hide AdjustedPrice;
    if t == [] {
      assert s + t == s;
    } else {
      var n := |t| - 1;
      assert (s + t)[..|s + t| - 1] == s + t[..n];
      ConvertedJoin(ar, providers, index, s, t[..n]);
    }
  }

  lemma ConvertedOne(ar: Arithmetic, providers: map<string, View>, index: View, c: ProviderConfig)
    ensures forall p :: ConvertedPrices(ar, providers, index, [c]) == [p] <==> ConvertsTo(ar, providers, index, c, p)
    ensures (forall p :: !ConvertsTo(ar, providers, index, c, p)) ==> ConvertedPrices(ar, providers, index, [c]) == []
  {
    hide AdjustedPrice, ConvertedPrices, ConvertsTo;
    OneConverted(ar, providers, index, c);
    forall p ensures AdjustedPrice(ar, providers, index, c) == Some(p) <==> ConvertsTo(ar, providers, index, c, p) {
      AdjustedExactly(ar, providers, index, c, p);
    }
  }

  /** What a tick publishes for a market that asks for a provider: the median of its converted prices, and that times ten to its decimals. */
  lemma TickPublishes(ar: Arithmetic, markets: MarketMap, providers: map<string, View>, index: View, t: string)
    requires t in markets && AsInt64(markets[t].ticker.minProviderCount) >= 1
    ensures var values := ConvertedPrices(ar, providers, index, markets[t].providerConfigs);
            var newIndex, scaled := Tick(ar, markets, providers, index), TickScaled(ar, markets, providers, index);
            if markets[t].ticker.enabled && |values| >= AsInt64(markets[t].ticker.minProviderCount) then
              && t in newIndex && newIndex[t].Some? && t in scaled
              && scaled[t] == Some(ar.mul(newIndex[t].value, ar.pow10(markets[t].ticker.decimals)))
              && (if |values| % 2 == 1 then Middle(values, [newIndex[t].value])
                  else exists a, b :: MiddleTwo(values, a, b) && newIndex[t].value == ar.quo(ar.add(a, b), 2.0))
            else t !in newIndex && t !in scaled
  {
    hide ConvertedPrices, MedianPrice, Middle, MiddleTwo;
    var values := ConvertedPrices(ar, providers, index, markets[t].providerConfigs);
    if values != [] {
      MedianExactly(ar, values);
    }
  }
}

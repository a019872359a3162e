/**
 The index price aggregator with its shared pointers (pkg/math/oracle/aggregator.go, utils.go; pkg/math/math.go): prices are
 objects, sorting permutes pointers in place and scaling multiplies in place, and yet no provider price and no old
 index price changes, because medians are copied before they are scaled.
 */
module IndexPriceAggregator {
  import opened Varint
  import opened Wrappers
  import opened Abci
  import opened Orders
  import opened MarketPrices

  class BigFloat {
    var v: real

    constructor (v: real)
      ensures this.v == v
    {
      this.v := v;
    }
  }

  type Prices = map<string, BigFloat?>

  /** The objects a price map points to. */
  function Objects(prices: Prices): set<BigFloat> {
    set t | t in prices && prices[t] != null :: prices[t]
  }

  function ViewOf(prices: Prices): View
    reads Objects(prices)
  {
    map t | t in prices :: if prices[t] == null then None else Some(prices[t].v)
  }

  function AllObjects(providerPrices: map<string, Prices>): set<BigFloat> {
    set name, t | name in providerPrices && t in providerPrices[name] && providerPrices[name][t] != null :: providerPrices[name][t]
  }

  function ViewsOf(providerPrices: map<string, Prices>): map<string, View>
    reads AllObjects(providerPrices)
  {
    map name | name in providerPrices :: ViewOf(providerPrices[name])
  }

  /** Views do not change while the objects they read keep their values. */
  twostate lemma ViewKept(prices: Prices)
    requires forall o <- Objects(prices) :: o.v == old(o.v)
    ensures ViewOf(prices) == old(ViewOf(prices))
  {
    forall t | t in prices && prices[t] != null
      ensures prices[t].v == old(prices[t].v)
    {
      assert prices[t] in Objects(prices);
    }
  }

  twostate lemma ViewsKept(providerPrices: map<string, Prices>)
    requires forall o <- AllObjects(providerPrices) :: o.v == old(o.v)
    ensures ViewsOf(providerPrices) == old(ViewsOf(providerPrices))
  {
    forall name | name in providerPrices
      ensures ViewOf(providerPrices[name]) == old(ViewOf(providerPrices[name]))
    {
      forall o | o in Objects(providerPrices[name]) ensures o.v == old(o.v) {
        assert o in AllObjects(providerPrices);
      }
      ViewKept(providerPrices[name]);
    }
  }

  // ---------------------------------------------------------------- medians

  function Values(floats: seq<BigFloat>): seq<real>
    reads floats
  {
    seq(|floats|, i requires 0 <= i < |floats| reads floats => floats[i].v)
  }

  /** SortBigFloats: the comparison answers true for equal values; pointers move, values stay where they are. */
  method SortBigFloats(floats: array<BigFloat>)
    modifies floats
    ensures Values(floats[..]) == Sort(Values(old(floats[..])))
    ensures multiset(floats[..]) == multiset(old(floats[..]))
  {
    hide Values, Sort, Insert;
    ghost var before := floats[..];
    NothingSorted(before);
    var i := 0;
    while i < floats.Length
      invariant 0 <= i <= floats.Length
      invariant multiset(floats[..]) == multiset(before)
      invariant Values(floats[..i]) == Sort(Values(before[..i]))
      invariant forall k :: i <= k < floats.Length ==> floats[k] == before[k]
    {
      SortStep(before, i);
      InsertFloat(floats, i);
      i := i + 1;
    }
    assert before[..i] == before;
    assert floats[..i] == floats[..];
  }

  lemma NothingSorted(floats: seq<BigFloat>)
    ensures Values(floats[..0]) == Sort(Values(floats[..0])) == []
  {
  }

  lemma SortStep(before: seq<BigFloat>, i: nat)
    requires i < |before|
    ensures Sort(Values(before[..i + 1])) == Insert(Sort(Values(before[..i])), before[i].v)
  {
    hide Insert;
    assert Values(before[..i + 1])[..i] == Values(before[..i]);
  }

  /** The pointers while the element at index i has been moved down to index j. */
  ghost function MovedDown(before: seq<BigFloat>, i: nat, j: nat): seq<BigFloat>
    requires j <= i < |before|
  {
    before[..j] + [before[i]] + before[j..i] + before[i + 1..]
  }

  lemma MovedDownAt(before: seq<BigFloat>, i: nat, j: nat)
    requires j <= i < |before|
    ensures |MovedDown(before, i, j)| == |before|
    ensures MovedDown(before, i, j)[j] == before[i]
    ensures j > 0 ==> MovedDown(before, i, j)[j - 1] == before[j - 1]
  {
  }

  lemma MovedDownOne(before: seq<BigFloat>, i: nat, j: nat, now: seq<BigFloat>)
    requires j < i < |before| && |now| == |before|
    requires now[j] == before[i] && now[j + 1] == before[j]
    requires forall k :: 0 <= k < |now| && k != j && k != j + 1 ==> now[k] == MovedDown(before, i, j + 1)[k]
    ensures now == MovedDown(before, i, j)
  {
  }

  lemma MovedDownRest(before: seq<BigFloat>, i: nat, j: nat)
    requires j <= i < |before|
    ensures forall k :: i < k < |before| ==> MovedDown(before, i, j)[k] == before[k]
  {
  }

  lemma MovedDownPermutes(before: seq<BigFloat>, i: nat, j: nat)
    requires j <= i < |before|
    ensures multiset(MovedDown(before, i, j)) == multiset(before)
  {
    var a, b, c := before[..j], before[j..i], before[i + 1..];
    var x := [before[i]];
    assert before == a + b + x + c;
    assert multiset(a + x + b + c) == multiset(a) + multiset(x) + multiset(b) + multiset(c);
  }

  lemma MovedDownSorts(before: seq<BigFloat>, i: nat, j: nat)
    requires j <= i < |before|
    requires forall k :: j <= k < i ==> before[i].v <= before[k].v
    requires j > 0 ==> before[j - 1].v < before[i].v
    ensures Values(MovedDown(before, i, j)[..i + 1]) == Insert(Values(before[..i]), before[i].v)
  {
    var sorted := Values(before[..i]);
    InsertAt(sorted, before[i].v, j);
    assert Values(MovedDown(before, i, j)[..i + 1]) == sorted[..j] + [before[i].v] + sorted[j..];
  }

  method SwapDown(floats: array<BigFloat>, j: nat)
    requires 0 < j < floats.Length
    modifies floats
    ensures floats[j - 1] == old(floats[j]) && floats[j] == old(floats[j - 1])
    ensures forall k :: 0 <= k < floats.Length && k != j && k != j - 1 ==> floats[k] == old(floats[k])
  {
    floats[j], floats[j - 1] := floats[j - 1], floats[j];
  }

  /** Moves the element at index i down to its place among the ones before it. */
  method InsertFloat(floats: array<BigFloat>, i: nat)
    requires i < floats.Length
    modifies floats
    ensures Values(floats[..i + 1]) == Insert(Values(old(floats[..i])), old(floats[i]).v)
    ensures forall k :: i < k < floats.Length ==> floats[k] == old(floats[k])
    ensures multiset(floats[..]) == multiset(old(floats[..]))
  {
    hide Insert, Values, MovedDown;
    ghost var before := floats[..];
    var j := i;
    assert floats[..] == MovedDown(before, i, i) by { MovedDownStart(before, i); }
    while j > 0 && floats[j].v <= floats[j - 1].v
      invariant 0 <= j <= i
      invariant floats[..] == MovedDown(before, i, j)
      invariant forall k :: j <= k < i ==> before[i].v <= before[k].v
    {
      MovedDownAt(before, i, j);
      SwapDown(floats, j);
      j := j - 1;
      MovedDownOne(before, i, j, floats[..]);
    }
    MovedDownAt(before, i, j);
    assert floats[..i + 1] == MovedDown(before, i, j)[..i + 1];
    MovedDownRest(before, i, j);
    MovedDownPermutes(before, i, j);
    MovedDownSorts(before, i, j);
  }

  lemma MovedDownStart(before: seq<BigFloat>, i: nat)
    requires i < |before|
    ensures MovedDown(before, i, i) == before
  {
  }

  /** The median object: one of the given objects, or a new one for the mean of two.  nil for no values. */
  method CalculateMedian(ar: Arithmetic, values: array<BigFloat>) returns (median: BigFloat?)
    modifies values
    ensures median == null <==> values.Length == 0
    ensures median != null ==> median.v == MedianPrice(ar, Values(old(values[..])))
    ensures median != null ==>
              if values.Length % 2 == 1 then Middle(Values(old(values[..])), [median.v])
              else exists a, b :: MiddleTwo(Values(old(values[..])), a, b) && median.v == ar.quo(ar.add(a, b), 2.0)
    ensures median != null ==> fresh(median) || median in old(values[..])
  {
    hide Sort, Middle, MiddleTwo;
    if values.Length == 0 {
      return null;
    }
    ghost var before := values[..];
    SortBigFloats(values);
    ghost var sorted := Values(values[..]);
    var middleIndex := values.Length / 2;
    if values.Length % 2 == 0 {
      median := new BigFloat(ar.add(values[middleIndex - 1].v, values[middleIndex].v));
      median.v := ar.quo(median.v, 2.0);
      assert sorted[middleIndex - 1] == values[middleIndex - 1].v && sorted[middleIndex] == values[middleIndex].v;
    } else {
      median := values[middleIndex];
      assert sorted[middleIndex] == median.v;
      assert median in multiset(values[..]);
    }
    MedianExactly(ar, Values(before));
  }

  /** Multiplies the given object in place. */
  method ScaleBigFloat(ar: Arithmetic, f: BigFloat, decimals: nat)
    modifies f
    ensures f.v == ar.mul(old(f.v), ar.pow10(decimals))
  {
    f.v := ar.mul(f.v, ar.pow10(decimals));
  }

  // ---------------------------------------------------------------- the aggregator

  class Aggregator {
    const ar: Arithmetic
    var markets: MarketMap
    var indexPrices: Prices
    var scaledPrices: Prices
    var providerPrices: map<string, Prices>

    constructor (ar: Arithmetic, markets: MarketMap)
      ensures this.ar == ar && this.markets == markets
      ensures indexPrices == map[] && scaledPrices == map[] && providerPrices == map[]
    {
      this.ar, this.markets := ar, markets;
      indexPrices, scaledPrices, providerPrices := map[], map[], map[];
    }

    /** The provider's object itself, or a new one when inverted; null for an error. */
    method GetProviderPrice(c: ProviderConfig) returns (price: BigFloat?)
      ensures price != null ==> if c.invert then fresh(price)
                                else c.name in providerPrices && c.offChainTicker in providerPrices[c.name]
                                     && price == providerPrices[c.name][c.offChainTicker]
      ensures ProviderPrice(ar, ViewsOf(providerPrices), c) == if price == null then None else Some(price.v)
    {
      if c.name !in providerPrices {
        return null;
      }
      var cache := providerPrices[c.name];
      if c.offChainTicker !in cache {
        return null;
      }
      price := cache[c.offChainTicker];
      if price == null {
        return null;
      }
      if c.invert {
        price := new BigFloat(ar.quo(1.0, price.v));
      }
    }

    method GetIndexPrice(cp: CurrencyPair) returns (price: BigFloat?)
      ensures Lookup(ViewOf(indexPrices), cp.String()) == if price == null then None else Some(price.v)
    {
      if cp.String() !in indexPrices {
        return null;
      }
      price := indexPrices[cp.String()];
    }

    method CalculateAdjustedPrice(c: ProviderConfig) returns (price: BigFloat?)
      ensures AdjustedPrice(ar, ViewsOf(providerPrices), ViewOf(indexPrices), c) == if price == null then None else Some(price.v)
      ensures ViewsOf(providerPrices) == old(ViewsOf(providerPrices)) && ViewOf(indexPrices) == old(ViewOf(indexPrices))
    {
      price := GetProviderPrice(c);
      ViewsKept(providerPrices);
      ViewKept(indexPrices);
      if price == null || c.normalizeByPair.None? {
        return;
      }
      var normalizer := GetIndexPrice(c.normalizeByPair.value);
      if normalizer == null {
        return null;
      }
      price := new BigFloat(ar.mul(price.v, normalizer.v));
    }

    /** The convertible prices in configuration order; the slice may share objects with the providers. */
    method CalculateConvertedPrices(market: Market) returns (converted: seq<BigFloat>)
      ensures Values(converted) == ConvertedPrices(ar, ViewsOf(providerPrices), ViewOf(indexPrices), market.providerConfigs)
      ensures ViewsOf(providerPrices) == old(ViewsOf(providerPrices)) && ViewOf(indexPrices) == old(ViewOf(indexPrices))
    {
      var configs := market.providerConfigs;
      converted := [];
      ghost var providers, index := ViewsOf(providerPrices), ViewOf(indexPrices);
      var i := 0;
      while i < |configs|
        invariant 0 <= i <= |configs|
        invariant providers == ViewsOf(providerPrices) && index == ViewOf(indexPrices)
        invariant Values(converted) == ConvertedPrices(ar, providers, index, configs[..i])
      {
        hide AdjustedPrice, ViewsOf, ViewOf;
        var adjusted := CalculateAdjustedPrice(configs[i]);
        assert configs[..i + 1][..i] == configs[..i];
        i := i + 1;
        if adjusted == null {
          continue;
        }
        ghost var front := Values(converted);
        converted := converted + [adjusted];
        assert Values(converted) == front + [adjusted.v];
      }
      assert configs[..i] == configs;
    }

    /** One market: its copied median and the scaled copy, or nulls when it does not publish. */
    method PriceMarket(market: Market) returns (panicked: bool, price: BigFloat?, scaled: BigFloat?)
      ensures panicked <==> MarketPanics(ar, market, ViewsOf(providerPrices), ViewOf(indexPrices))
      ensures price != null <==> scaled != null
      ensures price != null ==> fresh(price) && fresh(scaled) && price != scaled
      ensures MarketPrice(ar, market, ViewsOf(providerPrices), ViewOf(indexPrices)) == if price == null then None else Some(price.v)
      ensures price != null ==> scaled.v == Scaled(ar, market, price.v)
      ensures ViewsOf(providerPrices) == old(ViewsOf(providerPrices)) && ViewOf(indexPrices) == old(ViewOf(indexPrices))
    {
      hide ConvertedPrices, MedianPrice, ViewsOf, ViewOf;
      if !market.ticker.enabled {
        return false, null, null;
      }
      var convertedPrices := CalculateConvertedPrices(market);
      if |convertedPrices| < AsInt64(market.ticker.minProviderCount) {
        return false, null, null;
      }
      var slice := new BigFloat[|convertedPrices|](i requires 0 <= i < |convertedPrices| => convertedPrices[i]);
      assert slice[..] == convertedPrices;
      var median := CalculateMedian(ar, slice);
      ViewsKept(providerPrices);
      ViewKept(indexPrices);
      if median == null {
        return true, null, null;
      }
      panicked := false;
      price := new BigFloat(median.v);
      scaled := new BigFloat(median.v);
      ScaleBigFloat(ar, scaled, market.ticker.decimals);
      ViewsKept(providerPrices);
      ViewKept(indexPrices);
    }

    /**
     One tick.  Only the two price maps of the aggregator are replaced: no existing price object is written to, and the new
     maps point to new objects alone.  A panic leaves the maps as they were.
     */
    method AggregatePrices() returns (panicked: bool, ghost order: seq<string>)
      modifies this`indexPrices, this`scaledPrices
      ensures panicked <==> TickPanics(ar, markets, ViewsOf(providerPrices), old(ViewOf(indexPrices)))
      ensures panicked ==> indexPrices == old(indexPrices) && scaledPrices == old(scaledPrices)
      ensures !panicked ==>
        && IsOrder(order, markets.Keys)
        && fresh(Objects(indexPrices)) && fresh(Objects(scaledPrices)) && Objects(indexPrices) !! Objects(scaledPrices)
        && (ViewOf(indexPrices), ViewOf(scaledPrices)) == Filled(ar, markets, ViewsOf(providerPrices), old(ViewOf(indexPrices)), order)
    {
      hide ViewsOf, Filled, MarketPanics, MarketPrice, Scaled;
      var newIndex: Prices, newScaled: Prices := map[], map[];
      ghost var providers, index := ViewsOf(providerPrices), ViewOf(indexPrices);
      order := [];
      FilledByNone(ar, markets, providers, index);
      var todo := markets.Keys;
      while todo != {}
        invariant todo <= markets.Keys && IsOrder(order, markets.Keys - todo)
        invariant providers == ViewsOf(providerPrices) && index == ViewOf(indexPrices)
        invariant indexPrices == old(indexPrices) && scaledPrices == old(scaledPrices)
        invariant fresh(Objects(newIndex)) && fresh(Objects(newScaled)) && Objects(newIndex) !! Objects(newScaled)
        invariant (ViewOf(newIndex), ViewOf(newScaled)) == Filled(ar, markets, providers, index, order)
        invariant forall t <- markets :: t !in todo ==> !MarketPanics(ar, markets[t], providers, index)
      {
        var ticker :| ticker in todo;
        var market := markets[ticker];
        OrderExtends(order, markets.Keys, todo, ticker);
        FilledExtends(ar, markets, providers, index, order, ticker);
        order := order + [ticker];
        todo := todo - {ticker};
        ghost var indexView, scaledView := ViewOf(newIndex), ViewOf(newScaled);
        label Before:
        var stop, price, scaled := PriceMarket(market);
        ViewKept@Before(newIndex);
        ViewKept@Before(newScaled);
        if stop {
          return true, order;
        }
        if price == null {
          continue;
        }
        var target := market.ticker.currencyPair.String();
        ViewExtends(newIndex, target, price);
        ViewExtends(newScaled, target, scaled);
        newIndex := newIndex[target := price];
        newScaled := newScaled[target := scaled];
      }
      label Filled:
      indexPrices := newIndex;
      scaledPrices := newScaled;
      panicked := false;
      ViewsKept@Filled(providerPrices);
      ViewKept@Filled(newIndex);
      ViewKept@Filled(newScaled);
    }

    method SetIndexPrices(prices: Prices)
      modifies this`indexPrices
      ensures indexPrices == prices
    {
      indexPrices := prices;
    }

    method SetProviderPrices(provider: string, data: Prices)
      modifies this`providerPrices
      ensures providerPrices == old(providerPrices)[provider := data]
    {
      providerPrices := providerPrices[provider := data];
    }

    method Reset()
      modifies this`providerPrices
      ensures providerPrices == map[]
    {
      providerPrices := map[];
    }
  }

  /**
   Ticks repeated while providers and market map stay the same, on a valid market map: after n ticks every market that
   ranks below n has the index price of its direct evaluation, whatever index prices the aggregator started from.
   */
  method RunTicks(agg: Aggregator, n: nat, ghost rank: string -> nat)
    requires KeyedByTicker(agg.markets) && Ranked(agg.markets, rank)
    requires forall t <- agg.markets :: AsInt64(agg.markets[t].ticker.minProviderCount) >= 1
    modifies agg`indexPrices, agg`scaledPrices
    ensures ViewsOf(agg.providerPrices) == old(ViewsOf(agg.providerPrices))
    ensures ViewOf(agg.indexPrices) == Ticks(agg.ar, agg.markets, ViewsOf(agg.providerPrices), old(ViewOf(agg.indexPrices)), n)
    ensures forall t :: rank(t) < n ==>
              Lookup(ViewOf(agg.indexPrices), t) == Direct(agg.ar, agg.markets, ViewsOf(agg.providerPrices), rank, t)
  {
    hide ViewsOf, ViewOf, KeyedByTicker, Ranked, MarketPanics, Tick, Filled, Direct, Objects;
    ghost var providers, index := ViewsOf(agg.providerPrices), ViewOf(agg.indexPrices);
    var i := 0;
    while i < n
      invariant 0 <= i <= n
      invariant ViewsOf(agg.providerPrices) == providers
      invariant ViewOf(agg.indexPrices) == Ticks(agg.ar, agg.markets, providers, index, i)
    {
      ghost var before := ViewOf(agg.indexPrices);
      label Before:
      var panicked, order := agg.AggregatePrices();
      ViewsKept@Before(agg.providerPrices);
      NoPanics(agg.ar, agg.markets, providers, before);
      FilledIsTick(agg.ar, agg.markets, providers, before, order);
      i := i + 1;
    }
    forall t | rank(t) < n
      ensures Lookup(ViewOf(agg.indexPrices), t) == Direct(agg.ar, agg.markets, providers, rank, t)
    {
      TicksConverge(agg.ar, agg.markets, providers, index, rank, t, n);
    }
  }

  lemma NoPanics(ar: Arithmetic, markets: MarketMap, providers: map<string, View>, index: View)
    requires forall t <- markets :: AsInt64(markets[t].ticker.minProviderCount) >= 1
    ensures !TickPanics(ar, markets, providers, index)
  {
    hide TickPanics;
    PanicsExactly(ar, markets);
  }

  lemma ViewExtends(prices: Prices, t: string, price: BigFloat)
    ensures ViewOf(prices[t := price]) == ViewOf(prices)[t := Some(price.v)]
    ensures Objects(prices[t := price]) <= Objects(prices) + {price}
  {
  }

  lemma FilledByNone(ar: Arithmetic, markets: MarketMap, providers: map<string, View>, index: View)
    ensures Filled(ar, markets, providers, index, []) == (map[], map[])
  {
  }

  lemma FilledExtends(ar: Arithmetic, markets: MarketMap, providers: map<string, View>, index: View, order: seq<string>, t: string)
    requires t in markets && forall t' <- order :: t' in markets
    ensures var (newIndex, scaled) := Filled(ar, markets, providers, index, order);
            Filled(ar, markets, providers, index, order + [t]) ==
            match MarketPrice(ar, markets[t], providers, index)
            case None => (newIndex, scaled)
            case Some(p) =>
              var key := markets[t].ticker.currencyPair.String();
              (newIndex[key := Some(p)], scaled[key := Some(Scaled(ar, markets[t], p))])
  {
  }
}

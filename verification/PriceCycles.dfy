/**
 Cycles of normalizations (pkg/math/oracle/README.md, section "Cycle Detection"): markets with one provider each, every one
 normalized by the next and the last by the first, in any market map and with exact multiplication.
 */
module PriceCycles {
  import opened Varint
  import opened Wrappers
  import opened Abci
  import opened MarketPrices

  // ---------------------------------------------------------------- rings of markets

  /** The index after i on a ring of length k. */
  function Succ(i: nat, k: nat): (j: nat)
    requires i < k
    ensures j < k
  {
    if i + 1 == k then 0 else i + 1
  }

  /** The index n places after i. */
  function Along(i: nat, n: nat, k: nat): (j: nat)
    requires i < k
    ensures j < k
    decreases n
  {
    if n == 0 then i else Along(Succ(i, k), n - 1, k)
  }

  /** Enabled markets with one provider each, whose price is normalized by the index price of the next market on the ring. */
  predicate Ring(markets: MarketMap, ring: seq<string>, configs: seq<ProviderConfig>) {
    && |ring| == |configs| > 0
    && forall i :: 0 <= i < |ring| ==>
         && ring[i] in markets && markets[ring[i]].ticker.enabled && AsInt64(markets[ring[i]].ticker.minProviderCount) <= 1
         && markets[ring[i]].providerConfigs == [configs[i]]
         && configs[i].normalizeByPair.Some? && configs[i].normalizeByPair.value.String() == ring[Succ(i, |ring|)]
  }

  /** The prices that the providers of the ring give. */
  predicate RingPrices(ar: Arithmetic, providers: map<string, View>, configs: seq<ProviderConfig>, prices: seq<real>) {
    |prices| == |configs| && forall i :: 0 <= i < |configs| ==> ProviderPrice(ar, providers, configs[i]) == Some(prices[i])
  }

  const BTC := CurrencyPair("BTC", "USD")
  const USDT := CurrencyPair("USDT", "USD")
  const BTC_CONFIG := ProviderConfig("p", "BTC-USDT", Some(USDT), false)
  const USDT_CONFIG := ProviderConfig("p", "USDT-BTC", Some(BTC), false)

  /** Two tickers that depend on each other. */
  const TWO_CYCLE: MarketMap :=
    map["BTC/USD" := Market(Ticker(BTC, 8, 1, true), [BTC_CONFIG]), "USDT/USD" := Market(Ticker(USDT, 8, 1, true), [USDT_CONFIG])]

  const SELF_CONFIG := ProviderConfig("p", "BTC-BTC", Some(BTC), false)

  /** A ticker that depends on itself. */
  const SELF_CYCLE: MarketMap := map["BTC/USD" := Market(Ticker(BTC, 8, 1, true), [SELF_CONFIG])]

  /** Validation of the market map excludes neither. */
  lemma TwoCycleIsValid(validPair: CurrencyPair -> bool)
    requires validPair(BTC) && validPair(USDT)
    ensures ValidMarketMap(validPair, TWO_CYCLE)
    ensures Ring(TWO_CYCLE, ["BTC/USD", "USDT/USD"], [BTC_CONFIG, USDT_CONFIG])
  {
    assert BTC.String() == "BTC/USD" && USDT.String() == "USDT/USD";
    assert ValidMarket(validPair, TWO_CYCLE["BTC/USD"]) && ValidMarket(validPair, TWO_CYCLE["USDT/USD"]);
    hide ValidMarket;
    assert ValidMarketMap(validPair, TWO_CYCLE);
  }

  lemma SelfCycleIsValid(validPair: CurrencyPair -> bool)
    requires validPair(BTC)
    ensures ValidMarketMap(validPair, SELF_CYCLE) && Ring(SELF_CYCLE, ["BTC/USD"], [SELF_CONFIG])
  {
    assert BTC.String() == "BTC/USD";
  }

  // ---------------------------------------------------------------- ticks on a ring

  function Product(x: real, y: real): real {
    x * y
  }

  /** A price, if there is one, times a factor. */
  function Scale(factor: real, v: Option<real>): Option<real> {
    match v case None => None case Some(x) => Some(Product(factor, x))
  }

  /** The index prices of the ring after one tick. */
  function Turn(prices: seq<real>, vs: seq<Option<real>>): (vs': seq<Option<real>>)
    requires |prices| == |vs|
    ensures |vs'| == |vs|
    ensures forall i :: 0 <= i < |vs| ==> vs'[i] == TurnAt(prices, vs, i)
  {
    seq(|vs|, i requires 0 <= i < |vs| => TurnAt(prices, vs, i))
  }

  function TurnAt(prices: seq<real>, vs: seq<Option<real>>, i: nat): Option<real>
    requires i < |prices| == |vs|
  {
    Scale(prices[i], vs[Succ(i, |vs|)])
  }

  function Turned(prices: seq<real>, vs: seq<Option<real>>, n: nat): (vs': seq<Option<real>>)
    requires |prices| == |vs|
    ensures |vs'| == |vs|
  {
    if n == 0 then vs else Turn(prices, Turned(prices, vs, n - 1))
  }

  function RingView(index: View, ring: seq<string>): (vs: seq<Option<real>>)
    ensures |vs| == |ring|
  {
    seq(|ring|, i requires 0 <= i < |ring| => Lookup(index, ring[i]))
  }

  /** Scale, told its result. */
  lemma ScaleIs(factor: real, x: real, y: real)
    requires y == Product(factor, x)
    ensures Scale(factor, Some(x)) == Some(y)
  {
  }

  lemma AdjustedIsScaled(ar: Arithmetic, providers: map<string, View>, index: View, c: ProviderConfig, price: real)
    requires forall x, y :: ar.mul(x, y) == x * y
    requires ProviderPrice(ar, providers, c) == Some(price) && c.normalizeByPair.Some?
    ensures AdjustedPrice(ar, providers, index, c) == Scale(price, Lookup(index, c.normalizeByPair.value.String()))
  {
    hide ProviderPrice, Lookup;
    var normalizer := Lookup(index, c.normalizeByPair.value.String());
    if normalizer.Some? {
      ScaleIs(price, normalizer.value, ar.mul(price, normalizer.value));
    }
  }

  lemma TickLooksUp(ar: Arithmetic, markets: MarketMap, providers: map<string, View>, index: View, t: string)
    requires t in markets
    ensures Lookup(Tick(ar, markets, providers, index), t) == MarketPrice(ar, markets[t], providers, index)
  {
    hide MarketPrice;
  }

  lemma TickOnRing(ar: Arithmetic, markets: MarketMap, providers: map<string, View>, index: View,
                   ring: seq<string>, configs: seq<ProviderConfig>, prices: seq<real>, i: nat)
    requires forall x, y :: ar.mul(x, y) == x * y
    requires Ring(markets, ring, configs) && RingPrices(ar, providers, configs, prices) && i < |ring|
    ensures Lookup(Tick(ar, markets, providers, index), ring[i]) == TurnAt(prices, RingView(index, ring), i)
  {
    hide ProviderPrice, AdjustedPrice, MarketPrice, Tick, Lookup, Scale;
    TickLooksUp(ar, markets, providers, index, ring[i]);
    OneProvider(ar, markets[ring[i]], providers, index, configs[i]);
    AdjustedIsScaled(ar, providers, index, configs[i], prices[i]);
  }

  /** The ticks of the aggregator, seen on the ring, are its turns. */
  lemma {:induction false} CycleTicks(ar: Arithmetic, markets: MarketMap, providers: map<string, View>, index: View,
                                      ring: seq<string>, configs: seq<ProviderConfig>, prices: seq<real>, n: nat)
    requires forall x, y :: ar.mul(x, y) == x * y
    requires Ring(markets, ring, configs) && RingPrices(ar, providers, configs, prices)
    ensures RingView(Ticks(ar, markets, providers, index, n), ring) == Turned(prices, RingView(index, ring), n)
  {
    hide Tick, Ring, RingPrices, TurnAt;
    if n > 0 {
      assert |ring| == |prices| by { RingLength(ar, markets, providers, ring, configs, prices); }
      var before := Ticks(ar, markets, providers, index, n - 1);
      CycleTicks(ar, markets, providers, index, ring, configs, prices, n - 1);
      forall i: nat | i < |ring|
        ensures Lookup(Tick(ar, markets, providers, before), ring[i]) == TurnAt(prices, RingView(before, ring), i)
      {
        TickOnRing(ar, markets, providers, before, ring, configs, prices, i);
      }
    }
  }

  lemma RingLength(ar: Arithmetic, markets: MarketMap, providers: map<string, View>, ring: seq<string>, configs: seq<ProviderConfig>, prices: seq<real>)
    requires Ring(markets, ring, configs) && RingPrices(ar, providers, configs, prices)
    ensures |ring| == |prices| > 0
  {
  }

  // ---------------------------------------------------------------- products along the ring

  lemma {:induction false} AlongNext(i: nat, n: nat, k: nat)
    requires i < k
    ensures Along(i, n + 1, k) == Succ(Along(i, n, k), k)
    decreases n
  {
    if n > 0 {
      AlongNext(Succ(i, k), n - 1, k);
    }
  }

  lemma {:induction false} AlongAdds(i: nat, m: nat, n: nat, k: nat)
    requires i < k
    ensures Along(i, m + n, k) == Along(Along(i, m, k), n, k)
    decreases m
  {
    if m > 0 {
      AlongAdds(Succ(i, k), m - 1, n, k);
    }
  }

  lemma {:induction false} AlongForward(i: nat, n: nat, k: nat)
    requires i + n < k
    ensures Along(i, n, k) == i + n
    decreases n
  {
    if n > 0 {
      AlongForward(i + 1, n - 1, k);
    }
  }

  /** Once around the ring. */
  lemma AlongAround(i: nat, k: nat)
    requires i < k
    ensures Along(i, k, k) == i
  {
    AlongForward(i, k - 1 - i, k);
    AlongNext(i, k - 1 - i, k);
    AlongForward(0, i, k);
    AlongAdds(i, k - i, i, k);
  }

  /** Every place is reached from every other. */
  lemma Reach(i: nat, j: nat, k: nat) returns (n: nat)
    requires i < k && j < k
    ensures Along(i, n, k) == j
  {
    if i <= j {
      n := j - i;
      AlongForward(i, n, k);
    } else {
      n := k - i + j;
      AlongForward(i, k - 1 - i, k);
      AlongNext(i, k - 1 - i, k);
      AlongForward(0, j, k);
      AlongAdds(i, k - i, j, k);
    }
  }

  /** The product of n provider prices from place i on. */
  function ProductFrom(prices: seq<real>, i: nat, n: nat): real
    requires i < |prices|
    decreases n
  {
    if n == 0 then 1.0 else Product(prices[i], ProductFrom(prices, Succ(i, |prices|), n - 1))
  }

  /** The product of all provider prices of the ring. */
  function Around(prices: seq<real>): real
    requires prices != []
  {
    ProductFrom(prices, 0, |prices|)
  }

  lemma Associates(a: real, b: real, c: real)
    ensures Product(a, Product(b, c)) == Product(Product(a, b), c)
  {
  }

  lemma {:induction false} ProductSplits(prices: seq<real>, i: nat, m: nat, n: nat)
    requires i < |prices|
    ensures ProductFrom(prices, i, m + n) == Product(ProductFrom(prices, i, m), ProductFrom(prices, Along(i, m, |prices|), n))
    decreases m
  {
    hide Product;
    if m == 0 {
      ProductWithOne(ProductFrom(prices, i, n));
    } else {
      var j := Succ(i, |prices|);
      ProductSplits(prices, j, m - 1, n);
      Associates(prices[i], ProductFrom(prices, j, m - 1), ProductFrom(prices, Along(i, m, |prices|), n));
    }
  }

  lemma ProductWithOne(x: real)
    ensures Product(1.0, x) == Product(x, 1.0) == x
  {
  }

  lemma ProductOfOne(prices: seq<real>, i: nat)
    requires i < |prices|
    ensures ProductFrom(prices, i, 1) == prices[i]
  {
    assert ProductFrom(prices, Succ(i, |prices|), 0) == 1.0;
    ProductWithOne(prices[i]);
  }

  /** It does not matter where on the ring the product starts. */
  lemma ProductRotates(prices: seq<real>, i: nat)
    requires i < |prices|
    ensures ProductFrom(prices, Succ(i, |prices|), |prices|) == ProductFrom(prices, i, |prices|)
  {
    var k, j := |prices|, Succ(i, |prices|);
    ProductSplits(prices, j, k - 1, 1);
    AlongAround(i, k);
    ProductOfOne(prices, i);
    var rest := ProductFrom(prices, j, k - 1);
    assert ProductFrom(prices, i, k) == Product(prices[i], rest);
    assert ProductFrom(prices, j, k) == Product(rest, prices[i]);
  }

  lemma {:induction false} ProductAround(prices: seq<real>, i: nat)
    requires i < |prices|
    ensures ProductFrom(prices, i, |prices|) == Around(prices)
  {
    if i > 0 {
      ProductAround(prices, i - 1);
      ProductRotates(prices, i - 1);
    }
  }

  lemma NonZeroProduct(x: real, y: real)
    requires x != 0.0 && y != 0.0
    ensures Product(x, y) != 0.0
  {
  }

  lemma ZeroProduct(x: real)
    ensures Product(0.0, x) == Product(x, 0.0) == 0.0
  {
  }

  lemma {:induction false} ProductNonZero(prices: seq<real>, i: nat, n: nat)
    requires i < |prices| && 0.0 !in prices
    ensures ProductFrom(prices, i, n) != 0.0
    decreases n
  {
    if n > 0 {
      ProductNonZero(prices, Succ(i, |prices|), n - 1);
      NonZeroProduct(prices[i], ProductFrom(prices, Succ(i, |prices|), n - 1));
    }
  }

  /** The product around the ring is zero exactly when some provider price is. */
  lemma AroundZero(prices: seq<real>)
    requires prices != []
    ensures Around(prices) == 0.0 <==> 0.0 in prices
  {
    if 0.0 in prices {
      var j: nat :| j < |prices| && prices[j] == 0.0;
      ProductAround(prices, j);
      ZeroProduct(ProductFrom(prices, Succ(j, |prices|), |prices| - 1));
    } else {
      ProductNonZero(prices, 0, |prices|);
    }
  }

  // ---------------------------------------------------------------- the index prices after n turns

  lemma ScaleTwice(a: real, b: real, v: Option<real>)
    ensures Scale(a, Scale(b, v)) == Scale(Product(a, b), v)
  {
    hide Product;
    if v.Some? {
      Associates(a, b, v.value);
    }
  }

  lemma ScaleOnce(v: Option<real>)
    ensures Scale(1.0, v) == v
  {
    if v.Some? {
      ProductWithOne(v.value);
    }
  }

  /** After n turns a market holds the start price n places further on, times the provider prices on the way. */
  lemma {:induction false} TurnedIs(prices: seq<real>, vs: seq<Option<real>>, i: nat, n: nat)
    requires i < |prices| == |vs|
    ensures Turned(prices, vs, n)[i] == Scale(ProductFrom(prices, i, n), vs[Along(i, n, |vs|)])
    decreases n
  {
    hide Scale, Turn, Product;
    if n > 0 {
      var j := Succ(i, |vs|);
      TurnedIs(prices, vs, j, n - 1);
      ScaleTwice(prices[i], ProductFrom(prices, j, n - 1), vs[Along(i, n, |vs|)]);
    } else {
      ScaleOnce(vs[i]);
    }
  }

  /** k turns of a ring of k markets multiply every index price by the product of all provider prices, from wherever they start. */
  lemma CycleTurns(prices: seq<real>, vs: seq<Option<real>>, i: nat, n: nat)
    requires i < |prices| == |vs|
    ensures Turned(prices, vs, n + |vs|)[i] == Scale(Around(prices), Turned(prices, vs, n)[i])
  {
    hide Scale, Turned, ProductFrom, Along, Around, Product;
    var k := |vs|;
    var at := Along(i, n, k);
    TurnedIs(prices, vs, i, n);
    TurnedIs(prices, vs, i, n + k);
    AlongAdds(i, n, k, k);
    AlongAround(at, k);
    ProductSplits(prices, i, n, k);
    ProductAround(prices, at);
    var front, around := ProductFrom(prices, i, n), Around(prices);
    ScaleTwice(around, front, vs[at]);
    Commutes(front, around);
  }

  lemma Commutes(a: real, b: real)
    ensures Product(a, b) == Product(b, a)
  {
  }

  // ---------------------------------------------------------------- settling

  lemma CancelReal(p: real, x: real, y: real)
    requires p != 0.0 && Product(p, x) == Product(p, y)
    ensures x == y
  {
    assert Product(p, x - y) == Product(p, x) - Product(p, y);
    if x - y != 0.0 {
      NonZeroProduct(p, x - y);
    }
  }

  lemma Cancel(p: real, a: Option<real>, b: Option<real>)
    requires p != 0.0 && Scale(p, a) == Scale(p, b)
    ensures a == b
  {
    hide Product;
    if a.Some? && b.Some? {
      CancelReal(p, a.value, b.value);
      assert Some(a.value) == Some(b.value);
    }
  }

  lemma ScaleKeepsSome(p: real, v: Option<real>)
    ensures Scale(p, v).Some? == v.Some?
  {
  }

  lemma ScaleZero(p: real, v: Option<real>)
    ensures p == 0.0 && v.Some? ==> Scale(p, v) == Some(0.0)
    ensures Scale(p, Some(0.0)) == Some(0.0)
  {
    ZeroProduct(p);
    if v.Some? {
      ZeroProduct(v.value);
    }
  }

  function Pred(j: nat, k: nat): (i: nat)
    requires j < k
    ensures i < k && Succ(i, k) == j
  {
    if j == 0 then k - 1 else j - 1
  }

  lemma TurnInjective(prices: seq<real>, a: seq<Option<real>>, b: seq<Option<real>>)
    requires |prices| == |a| == |b| && 0.0 !in prices
    requires Turn(prices, a) == Turn(prices, b)
    ensures a == b
  {
    hide Turn, Scale;
    forall j: nat | j < |a|
      ensures a[j] == b[j]
    {
      var i := Pred(j, |a|);
      assert Turn(prices, a)[i] == Turn(prices, b)[i];
      Cancel(prices[i], a[j], b[j]);
    }
  }

  lemma RestStepsBack(prices: seq<real>, vs: seq<Option<real>>, n: nat)
    requires |prices| == |vs| && 0.0 !in prices && n > 0
    requires Turned(prices, vs, n + 1) == Turned(prices, vs, n)
    ensures Turned(prices, vs, n) == Turned(prices, vs, n - 1)
  {
    hide Turn, Turned;
    TurnedNext(prices, vs, n);
    TurnedNext(prices, vs, n - 1);
    TurnInjective(prices, Turned(prices, vs, n), Turned(prices, vs, n - 1));
  }

  /** Without a zero among the provider prices, a ring that rests has rested from the start. */
  lemma {:induction false} RestsFromStart(prices: seq<real>, vs: seq<Option<real>>, n: nat)
    requires |prices| == |vs| && 0.0 !in prices
    requires Turned(prices, vs, n + 1) == Turned(prices, vs, n)
    ensures Turn(prices, vs) == vs
  {
    hide Turn, Turned;
    if n > 0 {
      RestStepsBack(prices, vs, n);
      RestsFromStart(prices, vs, n - 1);
    } else {
      TurnedNext(prices, vs, 0);
    }
  }

  predicate AllPriced(vs: seq<Option<real>>) {
    forall i :: 0 <= i < |vs| ==> vs[i].Some?
  }

  predicate NonePriced(vs: seq<Option<real>>) {
    forall i :: 0 <= i < |vs| ==> vs[i].None?
  }

  lemma TurnKeepsPriced(prices: seq<real>, vs: seq<Option<real>>)
    requires |prices| == |vs|
    ensures AllPriced(Turn(prices, vs)) <==> AllPriced(vs)
    ensures NonePriced(Turn(prices, vs)) <==> NonePriced(vs)
  {
    hide Turn, Scale;
    forall j: nat | j < |vs|
      ensures Turn(prices, vs)[j].Some? == vs[Succ(j, |vs|)].Some?
      ensures Turn(prices, vs)[Pred(j, |vs|)].Some? == vs[j].Some?
    {
      ScaleKeepsSome(prices[j], vs[Succ(j, |vs|)]);
      ScaleKeepsSome(prices[Pred(j, |vs|)], vs[j]);
    }
  }

  lemma {:induction false} TurnsKeepPriced(prices: seq<real>, vs: seq<Option<real>>, n: nat)
    requires |prices| == |vs|
    ensures AllPriced(Turned(prices, vs, n)) <==> AllPriced(vs)
    ensures NonePriced(Turned(prices, vs, n)) <==> NonePriced(vs)
  {
    if n > 0 {
      TurnsKeepPriced(prices, vs, n - 1);
      TurnKeepsPriced(prices, Turned(prices, vs, n - 1));
    }
  }

  lemma {:induction false} SameAlongRest(prices: seq<real>, vs: seq<Option<real>>, i: nat)
    requires i < |prices| == |vs| && Turn(prices, vs) == vs
    ensures vs[i].Some? == vs[0].Some?
  {
    hide Turn, Scale;
    if i > 0 {
      SameAlongRest(prices, vs, i - 1);
      assert vs[i - 1] == Turn(prices, vs)[i - 1] == TurnAt(prices, vs, i - 1) == Scale(prices[i - 1], vs[i]);
      ScaleKeepsSome(prices[i - 1], vs[i]);
    }
  }

  /** A ring at rest has all its index prices, or none. */
  lemma RestIsUniform(prices: seq<real>, vs: seq<Option<real>>)
    requires |prices| == |vs| && Turn(prices, vs) == vs
    ensures AllPriced(vs) || NonePriced(vs)
  {
    forall i: nat | i < |vs|
      ensures vs[i].Some? == vs[0].Some?
    {
      SameAlongRest(prices, vs, i);
    }
  }

  /** With a zero among the provider prices, once around leaves nothing but zeros. */
  lemma ZeroSettles(prices: seq<real>, vs: seq<Option<real>>)
    requires |prices| == |vs| && 0.0 in prices && AllPriced(vs)
    ensures Turned(prices, vs, |vs| + 1) == Turned(prices, vs, |vs|)
  {
    hide Turn, Turned, Around, Scale;
    AroundZero(prices);
    var rest := Turned(prices, vs, |vs|);
    TurnedNext(prices, vs, |vs|);
    forall i: nat | i < |vs|
      ensures rest[i] == Some(0.0)
    {
      CycleTurns(prices, vs, i, 0);
      ScaleZero(Around(prices), vs[i]);
    }
    forall i: nat | i < |vs|
      ensures Turn(prices, rest)[i] == rest[i]
    {
      ScaleZero(prices[i], None);
    }
  }

  lemma TurnedNext(prices: seq<real>, vs: seq<Option<real>>, n: nat)
    requires |prices| == |vs|
    ensures Turned(prices, vs, 0) == vs && Turned(prices, vs, n + 1) == Turn(prices, Turned(prices, vs, n))
  {
  }

  predicate TurnRests(prices: seq<real>, vs: seq<Option<real>>, n: nat)
    requires |prices| == |vs|
  {
    Turned(prices, vs, n + 1) == Turned(prices, vs, n)
  }

  lemma TurnsSettleExactly(prices: seq<real>, vs: seq<Option<real>>)
    requires |prices| == |vs|
    ensures (exists n: nat :: TurnRests(prices, vs, n))
            <==> Turn(prices, vs) == vs || (AllPriced(vs) && 0.0 in prices)
  {
    if Turn(prices, vs) == vs {
      assert Turned(prices, vs, 0) == vs;
      assert TurnRests(prices, vs, 0);
    } else if AllPriced(vs) && 0.0 in prices {
      ZeroSettles(prices, vs);
      assert TurnRests(prices, vs, |vs|);
    }
    if n: nat :| TurnRests(prices, vs, n) {
      if 0.0 !in prices {
        RestsFromStart(prices, vs, n);
      } else {
        RestIsUniform(prices, Turned(prices, vs, n));
        TurnsKeepPriced(prices, vs, n);
        if NonePriced(vs) {
          assert Turn(prices, vs) == vs;
        }
      }
    }
  }

  /** Tick number n + 1 leaves the ring as it is. */
  ghost predicate Rests(ar: Arithmetic, markets: MarketMap, providers: map<string, View>, index: View, ring: seq<string>, n: nat) {
    RingView(Ticks(ar, markets, providers, index, n + 1), ring) == RingView(Ticks(ar, markets, providers, index, n), ring)
  }

  /**
   A cycle need not be resolved by a few iterations, as the package's README expects.  Some tick leaves a ring as it is, and then every
   later one does, exactly when the start prices are in balance already, or every market starts with one and some provider price is zero.
   */
  lemma CycleSettlesExactly(ar: Arithmetic, markets: MarketMap, providers: map<string, View>, index: View,
                            ring: seq<string>, configs: seq<ProviderConfig>, prices: seq<real>)
    requires forall x, y :: ar.mul(x, y) == x * y
    requires Ring(markets, ring, configs) && RingPrices(ar, providers, configs, prices)
    ensures |prices| == |ring|
    ensures (exists n: nat :: Rests(ar, markets, providers, index, ring, n))
            <==> Balanced(prices, RingView(index, ring)) || (AllPriced(RingView(index, ring)) && 0.0 in prices)
    ensures forall n: nat :: Rests(ar, markets, providers, index, ring, n) ==> Rests(ar, markets, providers, index, ring, n + 1)
  {
    hide Rests, Ring, RingPrices, RingView, ProviderPrice, TurnRests, Turn;
    RingLength(ar, markets, providers, ring, configs, prices);
    var vs := RingView(index, ring);
    forall n: nat
      ensures Rests(ar, markets, providers, index, ring, n) <==> TurnRests(prices, vs, n)
      ensures TurnRests(prices, vs, n) ==> TurnRests(prices, vs, n + 1)
    {
      RestsIs(ar, markets, providers, index, ring, configs, prices, n);
      RestStays(prices, vs, n);
    }
    TurnsSettleExactly(prices, vs);
    BalanceRests(prices, vs);
  }

  /** Every market's start price is its provider's price times the next market's, or both markets have none. */
  predicate Balanced(prices: seq<real>, vs: seq<Option<real>>)
    requires |prices| == |vs|
  {
    forall i :: 0 <= i < |vs| ==> vs[i] == Scale(prices[i], vs[Succ(i, |vs|)])
  }

  lemma BalanceRests(prices: seq<real>, vs: seq<Option<real>>)
    requires |prices| == |vs|
    ensures Balanced(prices, vs) <==> Turn(prices, vs) == vs
  {
    hide Turn, Scale;
    if Balanced(prices, vs) {
      forall i | 0 <= i < |vs|
        ensures Turn(prices, vs)[i] == vs[i]
      {
      }
    } else {
      var i: nat :| i < |vs| && vs[i] != Scale(prices[i], vs[Succ(i, |vs|)]);
      assert Turn(prices, vs)[i] == TurnAt(prices, vs, i);
    }
  }

  lemma RestStays(prices: seq<real>, vs: seq<Option<real>>, n: nat)
    requires |prices| == |vs|
    ensures TurnRests(prices, vs, n) ==> TurnRests(prices, vs, n + 1)
    ensures TurnRests(prices, vs, 0) <==> Turn(prices, vs) == vs
  {
    hide Turn;
    TurnedNext(prices, vs, 0);
    TurnedNext(prices, vs, n);
    TurnedNext(prices, vs, n + 1);
  }

  lemma RestsIs(ar: Arithmetic, markets: MarketMap, providers: map<string, View>, index: View,
                ring: seq<string>, configs: seq<ProviderConfig>, prices: seq<real>, n: nat)
    requires forall x, y :: ar.mul(x, y) == x * y
    requires Ring(markets, ring, configs) && RingPrices(ar, providers, configs, prices)
    ensures |prices| == |ring|
    ensures Rests(ar, markets, providers, index, ring, n)
            <==> TurnRests(prices, RingView(index, ring), n)
  {
    hide Ring, RingPrices, Ticks, RingView, Turned, ProviderPrice;
    RingLength(ar, markets, providers, ring, configs, prices);
    CycleTicks(ar, markets, providers, index, ring, configs, prices, n);
    CycleTicks(ar, markets, providers, index, ring, configs, prices, n + 1);
  }

  // ---------------------------------------------------------------- growth

  /** start, multiplied n times by a factor. */
  function Compounded(start: real, factor: real, n: nat): real {
    if n == 0 then start else factor * Compounded(start, factor, n - 1)
  }

  lemma {:induction false} CompoundedZero(factor: real, n: nat)
    ensures Compounded(0.0, factor, n) == 0.0
  {
    if n > 0 {
      CompoundedZero(factor, n - 1);
    }
  }

  function Abs(x: real): real {
    if x < 0.0 then -x else x
  }

  lemma AbsProduct(x: real, y: real)
    ensures Abs(x * y) == Abs(x) * Abs(y)
  {
    if x < 0.0 && y < 0.0 {
      assert x * y == (-x) * (-y);
      assert (-x) * (-y) > 0.0;
    } else if x < 0.0 {
      assert x * y == -((-x) * y);
      assert (-x) * y >= 0.0;
    } else if y < 0.0 {
      assert x * y == -(x * (-y));
      assert x * (-y) >= 0.0;
    } else {
      assert x * y >= 0.0;
    }
  }

  lemma SameProducts(factor: real, a: real, b: real, a': real, b': real)
    requires a == b && a' == factor * a && b' == factor * b
    ensures a' == b'
  {
  }

  lemma {:induction false} AbsCompounded(start: real, factor: real, n: nat)
    ensures Abs(Compounded(start, factor, n)) == Compounded(Abs(start), Abs(factor), n)
  {
    hide Abs, Compounded;
    CompoundedBy(start, factor, n);
    CompoundedBy(Abs(start), Abs(factor), n);
    if n > 0 {
      var v, w := Compounded(start, factor, n - 1), Compounded(Abs(start), Abs(factor), n - 1);
      AbsCompounded(start, factor, n - 1);
      AbsOfProduct(factor, v, Compounded(start, factor, n));
      SameProducts(Abs(factor), Abs(v), w, Abs(Compounded(start, factor, n)), Compounded(Abs(start), Abs(factor), n));
    }
  }

  lemma ScaledDown(factor: real, v: real)
    requires 0.0 <= factor <= 1.0 && v >= 0.0
    ensures 0.0 <= factor * v <= v
  {
    assert (1.0 - factor) * v >= 0.0;
  }

  lemma {:induction false} CompoundedShrinks(start: real, factor: real, n: nat)
    requires start >= 0.0 && 0.0 <= factor <= 1.0
    ensures 0.0 <= Compounded(start, factor, n) <= start
  {
    if n > 0 {
      var v := Compounded(start, factor, n - 1);
      assert Compounded(start, factor, n) == factor * v;
      hide Compounded;
      CompoundedShrinks(start, factor, n - 1);
      ScaledDown(factor, v);
    }
  }

  lemma ScaledUp(factor: real, v: real, start: real)
    requires factor >= 1.0 && v >= start >= 0.0
    ensures factor * v >= v + start * (factor - 1.0) && start * (factor - 1.0) >= 0.0
  {
    assert (v - start) * (factor - 1.0) >= 0.0;
  }

  /** A factor of at least 1 raises by at least the same amount each time. */
  lemma {:induction false} CompoundedGrows(start: real, factor: real, n: nat)
    requires start >= 0.0 && factor >= 1.0
    ensures Compounded(start, factor, n) >= start + Times(n, start * (factor - 1.0))
    ensures Compounded(start, factor, n) >= start
  {
    if n > 0 {
      var v := Compounded(start, factor, n - 1);
      assert Compounded(start, factor, n) == factor * v;
      hide Compounded;
      CompoundedGrows(start, factor, n - 1);
      ScaledUp(factor, v, start);
    }
  }

  function Times(n: nat, rise: real): real {
    if n == 0 then 0.0 else Times(n - 1, rise) + rise
  }

  lemma {:induction false} TimesIsProduct(n: nat, rise: real)
    ensures Times(n, rise) == n as real * rise
  {
    if n > 0 {
      TimesIsProduct(n - 1, rise);
    }
  }

  predicate WithinBound(start: real, factor: real, bound: real, n: nat) {
    Abs(Compounded(start, factor, n)) <= bound
  }

  ghost predicate Escapes(start: real, factor: real, bound: real) {
    exists n: nat :: !WithinBound(start, factor, bound, n)
  }

  lemma CompoundedEscapes(start: real, price: real)
    ensures (forall bound: real :: Escapes(start, price, bound))
            <==> start != 0.0 && Abs(price) > 1.0
  {
    hide Compounded;
    if start != 0.0 && Abs(price) > 1.0 {
      forall bound: real
        ensures Escapes(start, price, bound)
      {
        var n := Exceeds(Abs(start), Abs(price), bound);
        AbsCompounded(start, price, n);
        assert !WithinBound(start, price, bound, n);
      }
    } else {
      forall n: nat
        ensures WithinBound(start, price, Abs(start), n)
      {
        AbsCompounded(start, price, n);
        if start == 0.0 {
          CompoundedZero(price, n);
        } else {
          CompoundedShrinks(Abs(start), Abs(price), n);
        }
      }
      assert !Escapes(start, price, Abs(start));
    }
  }

  lemma Exceeds(start: real, factor: real, bound: real) returns (n: nat)
    requires start > 0.0 && factor > 1.0
    ensures Compounded(start, factor, n) > bound
  {
    var rise := start * (factor - 1.0);
    assert rise > 0.0;
    var steps := bound / rise;
    n := if steps < 0.0 then 0 else steps.Floor + 1;
    assert n as real >= steps;
    assert n as real * rise >= bound by {
      assert (n as real - steps) * rise >= 0.0;
      assert steps * rise == bound;
    }
    TimesIsProduct(n, rise);
    CompoundedGrows(start, factor, n);
  }

  /** m times around, from n turns on. */
  function TurnsAround(n: nat, m: nat, k: nat): nat {
    if m == 0 then n else TurnsAround(n, m - 1, k) + k
  }

  lemma {:induction false} AroundCompounds(prices: seq<real>, vs: seq<Option<real>>, i: nat, n: nat, m: nat, v: real)
    requires i < |prices| == |vs| && Turned(prices, vs, n)[i] == Some(v)
    ensures Turned(prices, vs, TurnsAround(n, m, |vs|))[i] == Some(Compounded(v, Around(prices), m))
  {
    hide Around, Turned;
    if m > 0 {
      AroundCompounds(prices, vs, i, n, m - 1, v);
      CycleTurns(prices, vs, i, TurnsAround(n, m - 1, |vs|));
      ScaleIs(Around(prices), Compounded(v, Around(prices), m - 1), Compounded(v, Around(prices), m));
    }
  }

  function Size(v: Option<real>): real {
    match v case None => 0.0 case Some(x) => Abs(x)
  }

  /** The sizes of a market's index prices on the way around, added up. */
  function Sizes(prices: seq<real>, vs: seq<Option<real>>, i: nat, n: nat): (sum: real)
    requires i < |prices| == |vs|
    ensures sum >= 0.0
  {
    if n == 0 then 0.0 else Sizes(prices, vs, i, n - 1) + Size(Turned(prices, vs, n - 1)[i])
  }

  lemma {:induction false} SizesCover(prices: seq<real>, vs: seq<Option<real>>, i: nat, n: nat, m: nat)
    requires i < |prices| == |vs| && m < n
    ensures Size(Turned(prices, vs, m)[i]) <= Sizes(prices, vs, i, n)
  {
    if m < n - 1 {
      SizesCover(prices, vs, i, n - 1, m);
    }
  }

  lemma SizeScaled(p: real, v: Option<real>)
    requires Abs(p) <= 1.0
    ensures Size(Scale(p, v)) <= Size(v)
  {
    if v.Some? {
      AbsScaled(p, v.value, Product(p, v.value));
    }
  }

  lemma AbsScaled(p: real, x: real, y: real)
    requires Abs(p) <= 1.0 && y == p * x
    ensures Abs(y) <= Abs(x)
  {
    AbsProduct(p, x);
    ScaledDown(Abs(p), Abs(x));
  }

  lemma {:induction false} TurnsBounded(prices: seq<real>, vs: seq<Option<real>>, i: nat, n: nat)
    requires i < |prices| == |vs| && Abs(Around(prices)) <= 1.0
    ensures Size(Turned(prices, vs, n)[i]) <= Sizes(prices, vs, i, |vs|)
    decreases n
  {
    hide Around, Turned, Sizes, Abs;
    var k := |vs|;
    if n < k {
      SizesCover(prices, vs, i, k, n);
    } else {
      TurnsBounded(prices, vs, i, n - k);
      CycleTurns(prices, vs, i, n - k);
      var before := Turned(prices, vs, n - k)[i];
      SizeScaled(Around(prices), before);
    }
  }

  /** A market of the ring starts with an index price other than zero. */
  predicate SomeMoney(vs: seq<Option<real>>) {
    exists j :: 0 <= j < |vs| && vs[j].Some? && vs[j].value != 0.0
  }

  lemma NoMoney(prices: seq<real>, vs: seq<Option<real>>, i: nat, n: nat)
    requires i < |prices| == |vs| && !SomeMoney(vs)
    ensures Size(Turned(prices, vs, n)[i]) == 0.0
  {
    TurnedIs(prices, vs, i, n);
    ZeroProduct(ProductFrom(prices, i, n));
  }

  /** After n turns the market has an index price outside the bound. */
  predicate TurnedOutside(prices: seq<real>, vs: seq<Option<real>>, i: nat, bound: real, n: nat)
    requires i < |prices| == |vs|
  {
    Turned(prices, vs, n)[i].Some? && Abs(Turned(prices, vs, n)[i].value) > bound
  }

  ghost predicate TurnedAbove(prices: seq<real>, vs: seq<Option<real>>, i: nat, bound: real)
    requires i < |prices| == |vs|
  {
    exists n: nat :: TurnedOutside(prices, vs, i, bound, n)
  }

  lemma TurnsDivergeExactly(prices: seq<real>, vs: seq<Option<real>>, i: nat)
    requires i < |prices| == |vs|
    ensures (forall bound: real :: TurnedAbove(prices, vs, i, bound)) <==> Abs(Around(prices)) > 1.0 && SomeMoney(vs)
  {
    hide Turned, Around, Sizes, SomeMoney, Abs;
    if Abs(Around(prices)) > 1.0 && SomeMoney(vs) {
      forall bound: real
        ensures TurnedAbove(prices, vs, i, bound)
      {
        GrowsPast(prices, vs, i, bound);
      }
    } else {
      var bound := if Abs(Around(prices)) <= 1.0 then Sizes(prices, vs, i, |vs|) else 0.0;
      forall n: nat ensures !TurnedOutside(prices, vs, i, bound, n) {
        if Abs(Around(prices)) <= 1.0 {
          TurnsBounded(prices, vs, i, n);
        } else {
          NoMoney(prices, vs, i, n);
        }
      }
      assert !TurnedAbove(prices, vs, i, bound);
    }
  }

  lemma AroundNotZero(prices: seq<real>)
    requires prices != [] && Abs(Around(prices)) >= 1.0
    ensures Around(prices) != 0.0
  {
  }

  /** A market of a ring without a zero among the provider prices comes to a price other than zero, if some market starts with one. */
  lemma ReachMoney(prices: seq<real>, vs: seq<Option<real>>, i: nat) returns (n: nat, v: real)
    requires i < |prices| == |vs| && Around(prices) != 0.0 && SomeMoney(vs)
    ensures v != 0.0 && Turned(prices, vs, n)[i] == Some(v)
  {
    var j: nat :| j < |vs| && vs[j].Some? && vs[j].value != 0.0;
    n := Reach(i, j, |vs|);
    TurnedIs(prices, vs, i, n);
    AroundZero(prices);
    ProductNonZero(prices, i, n);
    NonZeroProduct(ProductFrom(prices, i, n), vs[j].value);
    v := Product(ProductFrom(prices, i, n), vs[j].value);
  }

  lemma GrowsPast(prices: seq<real>, vs: seq<Option<real>>, i: nat, bound: real)
    requires i < |prices| == |vs| && Abs(Around(prices)) > 1.0 && SomeMoney(vs)
    ensures TurnedAbove(prices, vs, i, bound)
  {
    AroundNotZero(prices);
    var n, v := ReachMoney(prices, vs, i);
    hide Turned, Around, Compounded;
    CompoundedEscapes(v, Around(prices));
    assert Escapes(v, Around(prices), bound);
    var m: nat :| !WithinBound(v, Around(prices), bound, m);
    AroundCompounds(prices, vs, i, n, m, v);
    assert TurnedOutside(prices, vs, i, bound, TurnsAround(n, m, |vs|));
  }

  /** The index price after n ticks lies outside the bound. */
  ghost predicate Outside(ar: Arithmetic, markets: MarketMap, providers: map<string, View>, index: View, t: string, bound: real, n: nat) {
    var v := Lookup(Ticks(ar, markets, providers, index, n), t);
    v.Some? && Abs(v.value) > bound
  }

  ghost predicate ExceedsBound(ar: Arithmetic, markets: MarketMap, providers: map<string, View>, index: View, t: string, bound: real) {
    exists n: nat :: Outside(ar, markets, providers, index, t, bound, n)
  }

  /**
   The index price of every market on a ring exceeds every bound exactly when the product of the provider prices exceeds 1 in
   magnitude and some market starts with an index price other than zero.
   */
  lemma CycleDivergesExactly(ar: Arithmetic, markets: MarketMap, providers: map<string, View>, index: View,
                             ring: seq<string>, configs: seq<ProviderConfig>, prices: seq<real>, i: nat)
    requires forall x, y :: ar.mul(x, y) == x * y
    requires Ring(markets, ring, configs) && RingPrices(ar, providers, configs, prices) && i < |ring|
    ensures |prices| == |ring|
    ensures (forall bound: real :: ExceedsBound(ar, markets, providers, index, ring[i], bound))
            <==> Abs(Around(prices)) > 1.0 && SomeMoney(RingView(index, ring))
  {
    hide Ring, RingPrices, Turned, Around, SomeMoney, Abs, Outside, RingView, ProviderPrice;
    RingLength(ar, markets, providers, ring, configs, prices);
    var vs := RingView(index, ring);
    forall n: nat, bound: real
      ensures Outside(ar, markets, providers, index, ring[i], bound, n) <==> TurnedOutside(prices, vs, i, bound, n)
    {
      OutsideIs(ar, markets, providers, index, ring, configs, prices, i, bound, n);
    }
    TurnsDivergeExactly(prices, vs, i);
    hide TurnedOutside;
    if forall bound: real :: TurnedAbove(prices, vs, i, bound) {
      forall bound: real
        ensures ExceedsBound(ar, markets, providers, index, ring[i], bound)
      {
        assert TurnedAbove(prices, vs, i, bound);
        var n: nat :| TurnedOutside(prices, vs, i, bound, n);
        assert Outside(ar, markets, providers, index, ring[i], bound, n);
      }
    }
    if forall bound: real :: ExceedsBound(ar, markets, providers, index, ring[i], bound) {
      forall bound: real
        ensures TurnedAbove(prices, vs, i, bound)
      {
        assert ExceedsBound(ar, markets, providers, index, ring[i], bound);
        var n: nat :| Outside(ar, markets, providers, index, ring[i], bound, n);
        assert TurnedOutside(prices, vs, i, bound, n);
      }
    }
  }

  lemma OutsideIs(ar: Arithmetic, markets: MarketMap, providers: map<string, View>, index: View,
                  ring: seq<string>, configs: seq<ProviderConfig>, prices: seq<real>, i: nat, bound: real, n: nat)
    requires forall x, y :: ar.mul(x, y) == x * y
    requires Ring(markets, ring, configs) && RingPrices(ar, providers, configs, prices) && i < |ring|
    ensures |prices| == |ring|
    ensures Outside(ar, markets, providers, index, ring[i], bound, n) <==> TurnedOutside(prices, RingView(index, ring), i, bound, n)
  {
    hide Ring, RingPrices, Ticks, Turned, ProviderPrice, Abs, Lookup;
    RingLength(ar, markets, providers, ring, configs, prices);
    CycleTicks(ar, markets, providers, index, ring, configs, prices, n);
    assert RingView(Ticks(ar, markets, providers, index, n), ring)[i] == Lookup(Ticks(ar, markets, providers, index, n), ring[i]);
  }

  // ---------------------------------------------------------------- vanishing

  lemma Inverse(factor: real, q: real, a: real, b: real)
    requires factor * q == 1.0
    ensures (factor * a) * (q * b) == a * b
  {
    assert (factor * a) * (q * b) == (factor * q) * (a * b);
  }

  lemma {:induction false} CompoundedInverse(start: real, factor: real, q: real, n: nat)
    requires factor * q == 1.0
    ensures Compounded(start, factor, n) * Compounded(1.0, q, n) == start
  {
    if n > 0 {
      var a, b := Compounded(start, factor, n - 1), Compounded(1.0, q, n - 1);
      assert Compounded(start, factor, n) == factor * a && Compounded(1.0, q, n) == q * b;
      hide Compounded;
      CompoundedInverse(start, factor, q, n - 1);
      Inverse(factor, q, a, b);
    }
  }

  lemma PositiveFactor(x: real, y: real)
    requires x > 0.0 && x * y >= 0.0
    ensures y >= 0.0 && (x * y > 0.0 ==> y > 0.0)
  {
  }

  lemma SmallQuotient(a: real, b: real, start: real, bound: real)
    requires a * b == start && bound > 0.0 && b > start / bound && b > 0.0
    ensures a <= bound
  {
    assert bound * (start / bound) == start;
    assert bound * (b - start / bound) >= 0.0;
    assert b * (bound - a) >= 0.0;
    PositiveFactor(b, bound - a);
  }

  /** A factor below 1 brings every price below every positive bound. */
  lemma Vanishes(start: real, factor: real, bound: real) returns (m: nat)
    requires start >= 0.0 && 0.0 <= factor < 1.0 && bound > 0.0
    ensures Compounded(start, factor, m) <= bound
  {
    if factor == 0.0 {
      m := 1;
      ZeroProduct(start);
      assert Compounded(start, factor, 0) == start;
      assert Compounded(start, factor, 1) == Product(0.0, start);
    } else {
      var q := 1.0 / factor;
      assert factor * q == 1.0;
      assert q > 1.0 by {
        AboveOne(factor, q);
      }
      m := Exceeds(1.0, q, start / bound);
      CompoundedGrows(1.0, q, m);
      CompoundedInverse(start, factor, q, m);
      SmallQuotient(Compounded(start, factor, m), Compounded(1.0, q, m), start, bound);
    }
  }

  lemma AboveOne(factor: real, q: real)
    requires 0.0 < factor < 1.0 && factor * q == 1.0
    ensures q > 1.0
  {
    assert factor * (q - 1.0) == 1.0 - factor > 0.0;
    PositiveFactor(factor, q - 1.0);
  }

  /** From m times around on, the index prices are below what the sizes on the way around compound to. */
  lemma {:induction false} TurnsShrink(prices: seq<real>, vs: seq<Option<real>>, i: nat, m: nat, n: nat)
    requires i < |prices| == |vs| && Abs(Around(prices)) <= 1.0
    requires n >= TurnsAround(0, m, |vs|)
    ensures Size(Turned(prices, vs, n)[i]) <= Compounded(Sizes(prices, vs, i, |vs|), Abs(Around(prices)), m)
    decreases m
  {
    hide Around, Turned, Sizes, Abs, Compounded, Scale, Size;
    if m == 0 {
      TurnsBounded(prices, vs, i, n);
      CompoundedBy(Sizes(prices, vs, i, |vs|), Abs(Around(prices)), 1);
    } else {
      var bound, factor := Sizes(prices, vs, i, |vs|), Abs(Around(prices));
      TurnsShrink(prices, vs, i, m - 1, n - |vs|);
      TurnScales(prices, vs, i, n - |vs|);
      CompoundedBy(bound, factor, m);
      AbsNotNegative(Around(prices));
      LargerProducts(factor, Size(Turned(prices, vs, n - |vs|)[i]), Compounded(bound, factor, m - 1),
                     Size(Turned(prices, vs, n)[i]), Compounded(bound, factor, m));
    }
  }

  lemma AbsNotNegative(x: real)
    ensures Abs(x) >= 0.0
  {
  }

  lemma CompoundedBy(start: real, factor: real, m: nat)
    ensures Compounded(start, factor, 0) == start
    ensures m > 0 ==> Compounded(start, factor, m) == factor * Compounded(start, factor, m - 1)
  {
  }

  lemma SizeScales(p: real, v: Option<real>)
    ensures Size(Scale(p, v)) == Abs(p) * Size(v)
  {
    if v.Some? {
      AbsOfProduct(p, v.value, Product(p, v.value));
    }
  }

  lemma TurnScales(prices: seq<real>, vs: seq<Option<real>>, i: nat, n: nat)
    requires i < |prices| == |vs|
    ensures Size(Turned(prices, vs, n + |vs|)[i]) == Abs(Around(prices)) * Size(Turned(prices, vs, n)[i])
  {
    hide Around, Turned, Scale, Size;
    CycleTurns(prices, vs, i, n);
    SizeScales(Around(prices), Turned(prices, vs, n)[i]);
  }

  lemma AbsOfProduct(p: real, x: real, y: real)
    requires y == p * x
    ensures Abs(y) == Abs(p) * Abs(x)
  {
    AbsProduct(p, x);
  }

  lemma LargerProducts(factor: real, a: real, b: real, a': real, b': real)
    requires factor >= 0.0 && a <= b && a' == factor * a && b' == factor * b
    ensures a' <= b'
  {
    assert factor * (b - a) >= 0.0;
  }

  /** From turn number `from` on, the market has no index price outside the bound. */
  ghost predicate TurnedInsideFrom(prices: seq<real>, vs: seq<Option<real>>, i: nat, bound: real, from: nat)
    requires i < |prices| == |vs|
  {
    forall n: nat :: n >= from ==> !TurnedOutside(prices, vs, i, bound, n)
  }

  ghost predicate TurnedFalls(prices: seq<real>, vs: seq<Option<real>>, i: nat, bound: real)
    requires i < |prices| == |vs|
  {
    exists from: nat :: TurnedInsideFrom(prices, vs, i, bound, from)
  }

  lemma TurnsFallBelow(prices: seq<real>, vs: seq<Option<real>>, i: nat, bound: real)
    requires i < |prices| == |vs| && Abs(Around(prices)) < 1.0 && bound > 0.0
    ensures TurnedFalls(prices, vs, i, bound)
  {
    var sizes, factor := Sizes(prices, vs, i, |vs|), Abs(Around(prices));
    var m := Vanishes(sizes, factor, bound);
    var from := TurnsAround(0, m, |vs|);
    forall n: nat | n >= from
      ensures !TurnedOutside(prices, vs, i, bound, n)
    {
      hide Turned, Around, Sizes, Compounded;
      TurnsShrink(prices, vs, i, m, n);
    }
    assert TurnedInsideFrom(prices, vs, i, bound, from);
  }

  lemma {:induction false} TurnsAroundGrows(n: nat, m: nat, k: nat)
    requires k > 0
    ensures TurnsAround(n, m, k) >= m
  {
    if m > 0 {
      TurnsAroundGrows(n, m - 1, k);
    }
  }

  /** With a product of at least 1 in magnitude, a market that comes to a price other than zero comes back to its size. */
  lemma TurnsComeBack(prices: seq<real>, vs: seq<Option<real>>, i: nat) returns (bound: real)
    requires i < |prices| == |vs| && Abs(Around(prices)) >= 1.0 && SomeMoney(vs)
    ensures bound > 0.0 && !TurnedFalls(prices, vs, i, bound)
  {
    var n, v := ReachMoney(prices, vs, i);
    hide Turned, Around, Compounded, TurnedFalls;
    bound := Abs(v) / 2.0;
    forall from: nat
      ensures !TurnedInsideFrom(prices, vs, i, bound, from)
    {
      var at := TurnsAround(n, from, |vs|);
      TurnsAroundGrows(n, from, |vs|);
      AroundCompounds(prices, vs, i, n, from, v);
      AbsCompounded(v, Around(prices), from);
      CompoundedGrows(Abs(v), Abs(Around(prices)), from);
      assert TurnedOutside(prices, vs, i, bound, at);
    }
    assert !TurnedFalls(prices, vs, i, bound) by { NeverInside(prices, vs, i, bound); }
  }

  lemma NeverInside(prices: seq<real>, vs: seq<Option<real>>, i: nat, bound: real)
    requires i < |prices| == |vs| && forall from: nat :: !TurnedInsideFrom(prices, vs, i, bound, from)
    ensures !TurnedFalls(prices, vs, i, bound)
  {
  }

  lemma TurnsVanishExactly(prices: seq<real>, vs: seq<Option<real>>, i: nat)
    requires i < |prices| == |vs|
    ensures (forall bound: real :: bound > 0.0 ==> TurnedFalls(prices, vs, i, bound)) <==> Abs(Around(prices)) < 1.0 || !SomeMoney(vs)
  {
    hide Turned, Around, SomeMoney, Abs, TurnedInsideFrom;
    if Abs(Around(prices)) < 1.0 {
      forall bound: real | bound > 0.0
        ensures TurnedFalls(prices, vs, i, bound)
      {
        TurnsFallBelow(prices, vs, i, bound);
      }
    } else if !SomeMoney(vs) {
      forall bound: real | bound > 0.0
        ensures TurnedFalls(prices, vs, i, bound)
      {
        assert TurnedInsideFrom(prices, vs, i, bound, 0) by { BrokeStaysInside(prices, vs, i, bound); }
      }
    } else {
      var bound := TurnsComeBack(prices, vs, i);
    }
  }

  lemma BrokeStaysInside(prices: seq<real>, vs: seq<Option<real>>, i: nat, bound: real)
    requires i < |prices| == |vs| && !SomeMoney(vs) && bound > 0.0
    ensures TurnedInsideFrom(prices, vs, i, bound, 0)
  {
    forall n: nat
      ensures !TurnedOutside(prices, vs, i, bound, n)
    {
      NoMoney(prices, vs, i, n);
    }
  }

  ghost predicate InsideFrom(ar: Arithmetic, markets: MarketMap, providers: map<string, View>, index: View, t: string, bound: real, from: nat) {
    forall n: nat :: n >= from ==> !Outside(ar, markets, providers, index, t, bound, n)
  }

  /** From some tick on the market has no index price outside the bound. */
  ghost predicate FallsBelow(ar: Arithmetic, markets: MarketMap, providers: map<string, View>, index: View, t: string, bound: real) {
    exists from: nat :: InsideFrom(ar, markets, providers, index, t, bound, from)
  }

  /**
   The index price of every market on a ring tends to zero, if it has one at all, exactly when the product of the provider prices is
   below 1 in magnitude or no market starts with an index price other than zero.
   */
  lemma CycleVanishesExactly(ar: Arithmetic, markets: MarketMap, providers: map<string, View>, index: View,
                             ring: seq<string>, configs: seq<ProviderConfig>, prices: seq<real>, i: nat)
    requires forall x, y :: ar.mul(x, y) == x * y
    requires Ring(markets, ring, configs) && RingPrices(ar, providers, configs, prices) && i < |ring|
    ensures |prices| == |ring|
    ensures (forall bound: real :: bound > 0.0 ==> FallsBelow(ar, markets, providers, index, ring[i], bound))
            <==> Abs(Around(prices)) < 1.0 || !SomeMoney(RingView(index, ring))
  {
    hide Ring, RingPrices, Turned, Around, SomeMoney, Abs, RingView, ProviderPrice;
    RingLength(ar, markets, providers, ring, configs, prices);
    var vs := RingView(index, ring);
    TurnsVanishExactly(prices, vs, i);
    forall bound: real
      ensures FallsBelow(ar, markets, providers, index, ring[i], bound) <==> TurnedFalls(prices, vs, i, bound)
    {
      FallsIs(ar, markets, providers, index, ring, configs, prices, i, bound);
    }
  }

  lemma FallsIs(ar: Arithmetic, markets: MarketMap, providers: map<string, View>, index: View,
                ring: seq<string>, configs: seq<ProviderConfig>, prices: seq<real>, i: nat, bound: real)
    requires forall x, y :: ar.mul(x, y) == x * y
    requires Ring(markets, ring, configs) && RingPrices(ar, providers, configs, prices) && i < |ring|
    ensures |prices| == |ring|
    ensures FallsBelow(ar, markets, providers, index, ring[i], bound) <==> TurnedFalls(prices, RingView(index, ring), i, bound)
  {
    hide Ring, RingPrices, Outside, TurnedOutside, RingView, ProviderPrice;
    RingLength(ar, markets, providers, ring, configs, prices);
    var vs := RingView(index, ring);
    forall n: nat
      ensures Outside(ar, markets, providers, index, ring[i], bound, n) <==> TurnedOutside(prices, vs, i, bound, n)
    {
      OutsideIs(ar, markets, providers, index, ring, configs, prices, i, bound, n);
    }
    forall from: nat
      ensures InsideFrom(ar, markets, providers, index, ring[i], bound, from) <==> TurnedInsideFrom(prices, vs, i, bound, from)
    {
    }
    hide InsideFrom, TurnedInsideFrom;
    if from: nat :| InsideFrom(ar, markets, providers, index, ring[i], bound, from) {
      assert TurnedInsideFrom(prices, vs, i, bound, from);
    }
    if from: nat :| TurnedInsideFrom(prices, vs, i, bound, from) {
      assert InsideFrom(ar, markets, providers, index, ring[i], bound, from);
    }
  }
}

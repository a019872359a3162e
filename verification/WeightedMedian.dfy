/**
 The stake-weighted median of the reported prices (pkg/math/voteweighted/voteweighted.go).

 Ranging over the Go maps visits providers and prices in an arbitrary order.  Validator weights are bonded tokens, hence
 natural numbers.  The library sort is called with a comparison that answers true for equal prices; insertion sort with
 that comparison stands for it, and nothing but "sorted permutation" is used of its result.
 */
module WeightedMedian {
  import opened Wrappers
  import opened Abci
  import opened Orders

  datatype PricePerValidator = PricePerValidator(voteWeight: nat, price: int)

  type Reports = seq<PricePerValidator>

  // ---------------------------------------------------------------- sums over reports

  function SumBy(f: PricePerValidator -> nat, s: Reports): nat {
    if s == [] then 0 else SumBy(f, s[..|s| - 1]) + f(s[|s| - 1])
  }

  function Weight(): PricePerValidator -> nat {
    (e: PricePerValidator) => e.voteWeight
  }

  function WeightAtMost(p: int): PricePerValidator -> nat {
    (e: PricePerValidator) => if e.price <= p then e.voteWeight else 0
  }

  function Total(s: Reports): nat { SumBy(Weight(), s) }

  /** The weight that reported a price of at most p. */
  function WeightUpTo(s: Reports, p: int): nat { SumBy(WeightAtMost(p), s) }

  lemma {:induction false} SumByRemove(f: PricePerValidator -> nat, s: Reports, i: nat)
    requires i < |s|
    ensures SumBy(f, s) == SumBy(f, s[..i] + s[i + 1..]) + f(s[i])
  {
    var n := |s| - 1;
    var without := s[..i] + s[i + 1..];
    if i < n {
      assert without[..n - 1] == s[..n][..i] + s[..n][i + 1..];
      SumByRemove(f, s[..n], i);
    } else {
      assert without == s[..n];
    }
  }

  lemma MultisetWithout(t: Reports, i: nat)
    requires i < |t|
    ensures multiset(t) == multiset(t[..i] + t[i + 1..]) + multiset{t[i]}
  {
    var u, v := t[..i], t[i + 1..];
    assert t == u + ([t[i]] + v);
    assert multiset(u + v) == multiset(u) + multiset(v);
  }

  lemma LastMatched(s: Reports, t: Reports, i: nat)
    requires s != [] && i < |t| && multiset(s) == multiset(t) && t[i] == s[|s| - 1]
    ensures multiset(s[..|s| - 1]) == multiset(t[..i] + t[i + 1..])
  {
    var n := |s| - 1;
    assert s == s[..n] + [s[n]];
    assert multiset(s[..n]) == multiset(s) - multiset{s[n]};
    MultisetWithout(t, i);
    assert multiset(t[..i] + t[i + 1..]) == multiset(t) - multiset{t[i]};
  }

  /** A sum depends only on the multiset of reports. */
  lemma {:induction false} SumByPermutation(f: PricePerValidator -> nat, s: Reports, t: Reports)
    requires multiset(s) == multiset(t)
    ensures SumBy(f, s) == SumBy(f, t)
  {
    if s != [] {
      var n := |s| - 1;
      assert s[n] in multiset(t);
      var i :| 0 <= i < |t| && t[i] == s[n];
      LastMatched(s, t, i);
      SumByPermutation(f, s[..n], t[..i] + t[i + 1..]);
      SumByRemove(f, t, i);
    } else {
      assert |multiset(t)| == 0;
    }
  }

  lemma {:induction false} SumByMonotone(f: PricePerValidator -> nat, g: PricePerValidator -> nat, s: Reports)
    requires forall e <- s :: f(e) <= g(e)
    ensures SumBy(f, s) <= SumBy(g, s)
  {
    if s != [] {
      SumByMonotone(f, g, s[..|s| - 1]);
    }
  }

  lemma {:induction false} SumByPrefix(f: PricePerValidator -> nat, s: Reports, k: nat)
    requires k <= |s|
    ensures SumBy(f, s[..k]) <= SumBy(f, s)
    decreases |s|
  {
    if k < |s| {
      assert s[..|s| - 1][..k] == s[..k];
      SumByPrefix(f, s[..|s| - 1], k);
    } else {
      assert s[..k] == s;
    }
  }

  // ---------------------------------------------------------------- what the median is

  predicate Reported(s: Reports, p: int) {
    exists i :: 0 <= i < |s| && s[i].price == p
  }

  /** The least reported price that at least half of the weight (rounded down) does not exceed. */
  ghost predicate IsMedian(s: Reports, p: int) {
    && Reported(s, p)
    && WeightUpTo(s, p) >= Total(s) / 2
    && forall q :: Reported(s, q) && q < p ==> WeightUpTo(s, q) < Total(s) / 2
  }

  lemma MedianUnique(s: Reports, p: int, q: int)
    requires IsMedian(s, p) && IsMedian(s, q)
    ensures p == q
  {
  }

  /** Only the multiset of (weight, price) matters. */
  lemma MedianOfPermutation(s: Reports, t: Reports, p: int)
    requires multiset(s) == multiset(t) && IsMedian(s, p)
    ensures IsMedian(t, p)
  {
    SumByPermutation(Weight(), s, t);
    forall q ensures WeightUpTo(s, q) == WeightUpTo(t, q) && (Reported(t, q) ==> Reported(s, q)) {
      SumByPermutation(WeightAtMost(q), s, t);
      if Reported(t, q) {
        ReportedInPermutation(t, s, q);
      }
    }
    ReportedInPermutation(s, t, p);
  }

  lemma ReportedInPermutation(s: Reports, t: Reports, q: int)
    requires multiset(s) == multiset(t) && Reported(s, q)
    ensures Reported(t, q)
  {
    var i :| 0 <= i < |s| && s[i].price == q;
    assert s[i] in multiset(t);
  }

  // ---------------------------------------------------------------- sorting

  predicate Sorted(s: Reports) {
    forall i, j :: 0 <= i < j < |s| ==> s[i].price <= s[j].price
  }

  method Swap(a: array<PricePerValidator>, i: nat, j: nat)
    requires i < j < a.Length
    modifies a
    ensures a[..] == old(a[..])[i := old(a[j])][j := old(a[i])]
    ensures multiset(a[..]) == multiset(old(a[..]))
  {
    a[i], a[j] := a[j], a[i];
  }

  /** sort.SliceStable with less(i, j) true for equal prices: equal neighbours are exchanged as well. */
  method SortByPrice(a: array<PricePerValidator>)
    modifies a
    ensures Sorted(a[..])
    ensures multiset(a[..]) == multiset(old(a[..]))
  {
    var i := 1;
    while i < a.Length
      invariant 1 <= i
      invariant i <= a.Length ==> Sorted(a[..i])
      invariant i > a.Length ==> Sorted(a[..])
      invariant multiset(a[..]) == multiset(old(a[..]))
    {
      Insert(a, i);
      i := i + 1;
    }
    if a.Length > 0 {
      assert a[..] == a[..a.Length];
    }
  }

  method Insert(a: array<PricePerValidator>, i: nat)
    requires 0 < i < a.Length && Sorted(a[..i])
    modifies a
    ensures Sorted(a[..i + 1])
    ensures multiset(a[..]) == multiset(old(a[..]))
  {
    var j := i;
    while j > 0 && a[j].price <= a[j - 1].price
      invariant 0 <= j <= i
      invariant forall x, y :: 0 <= x < y <= i && x != j && y != j ==> a[x].price <= a[y].price
      invariant forall y :: j < y <= i ==> a[j].price <= a[y].price
      invariant multiset(a[..]) == multiset(old(a[..]))
    {
      Swap(a, j - 1, j);
      j := j - 1;
    }
  }

  // ---------------------------------------------------------------- ComputeMedian

  lemma BelowIndex(s: Reports, k: nat, q: int)
    requires Sorted(s) && k < |s| && q < s[k].price
    ensures WeightUpTo(s, q) <= Total(s[..k])
    decreases |s|
  {
    var n := |s| - 1;
    if k < n {
      assert s[..n][..k] == s[..k];
      BelowIndex(s[..n], k, q);
      assert s[n].price >= s[k].price;
    } else {
      SumByMonotone(WeightAtMost(q), Weight(), s[..k]);
    }
  }

  lemma UpToIndex(s: Reports, k: nat)
    requires Sorted(s) && k < |s|
    ensures WeightUpTo(s, s[k].price) >= Total(s[..k + 1])
  {
    var front := s[..k + 1];
    SumByMonotone(Weight(), WeightAtMost(s[k].price), front);
    SumByPrefix(WeightAtMost(s[k].price), s, k + 1);
  }

  /** Sorts the reports in place and returns the first price at which the accumulated weight reaches the middle. */
  method ComputeMedian(prices: array<PricePerValidator>, totalWeight: nat) returns (r: Option<int>)
    requires totalWeight == Total(prices[..])
    modifies prices
    ensures multiset(prices[..]) == multiset(old(prices[..])) && Sorted(prices[..])
    ensures prices.Length == 0 <==> r == None
    ensures prices.Length > 0 ==> IsMedian(old(prices[..]), r.value)
  {
    ghost var before := prices[..];
    SortByPrice(prices);
    ghost var s := prices[..];
    SumByPermutation(Weight(), before, s);
    var middle := totalWeight / 2;
    var sum := 0;
    var index := 0;
    while index < prices.Length
      invariant 0 <= index <= prices.Length && prices[..] == s
      invariant sum == Total(s[..index])
      invariant index > 0 ==> sum < middle && index < prices.Length
    {
      var price := prices[index];
      assert s[..index + 1][..index] == s[..index];
      assert index == prices.Length - 1 ==> s[..index + 1] == s;
      sum := sum + price.voteWeight;
      if sum >= middle {
        FirstReaching(s, index);
        MedianOfPermutation(s, before, price.price);
        return Some(price.price);
      }
      // the source returns the last price here; all the weight has been counted by then, so it never comes to that
      if index == prices.Length - 1 {
        assert false;
      }
      index := index + 1;
    }
    r := None;
  }

  /** In a sorted list, the first index whose accumulated weight reaches the middle holds the median. */
  lemma FirstReaching(s: Reports, k: nat)
    requires Sorted(s) && k < |s|
    requires Total(s[..k + 1]) >= Total(s) / 2
    requires k > 0 ==> Total(s[..k]) < Total(s) / 2
    ensures IsMedian(s, s[k].price)
  {
    UpToIndex(s, k);
    forall q | Reported(s, q) && q < s[k].price
      ensures WeightUpTo(s, q) < Total(s) / 2
    {
      BelowIndex(s, k, q);
      var i :| 0 <= i < |s| && s[i].price == q;
      assert i < k;
    }
  }

  /** Every non-empty list of reports has a median. */
  lemma {:induction false} MedianExists(s: Reports, p: int)
    requires Reported(s, p) && WeightUpTo(s, p) >= Total(s) / 2
    ensures exists m :: IsMedian(s, m)
    decreases |set i | 0 <= i < |s| && s[i].price < p :: i|
  {
    if !IsMedian(s, p) {
      var q :| Reported(s, q) && q < p && WeightUpTo(s, q) >= Total(s) / 2;
      var at :| 0 <= at < |s| && s[at].price == q;
      var below, lower := set i | 0 <= i < |s| && s[i].price < p :: i, set i | 0 <= i < |s| && s[i].price < q :: i;
      assert lower <= below && at in below && at !in lower;
      assert lower <= below - {at};
      SubsetSize(lower, below - {at});
      MedianExists(s, q);
    }
  }

  lemma {:induction false} HighestReport(s: Reports) returns (k: nat)
    requires s != []
    ensures k < |s| && forall e <- s :: e.price <= s[k].price
  {
    var n := |s| - 1;
    if n == 0 {
      k := 0;
    } else {
      k := HighestReport(s[..n]);
      if s[n].price > s[k].price {
        k := n;
      }
    }
  }

  lemma SomeMedian(s: Reports)
    requires s != []
    ensures exists m :: IsMedian(s, m)
  {
    var k := HighestReport(s);
    SumByMonotone(Weight(), WeightAtMost(s[k].price), s);
    MedianExists(s, s[k].price);
  }

  ghost function MedianOf(s: Reports): (m: int)
    requires s != []
    ensures IsMedian(s, m)
  {
    SomeMedian(s);
    var m :| IsMedian(s, m); m
  }

  lemma TotalStep(s: Reports, k: nat)
    requires k < |s|
    ensures Total(s[..k + 1]) == Total(s[..k]) + s[k].voteWeight
  {
    assert s[..k + 1][..k] == s[..k];
  }

  /** Weights 10, 20 and 30 behind the prices 100, 200 and 300 give 200. */
  lemma MedianExample()
    ensures var s := [PricePerValidator(10, 100), PricePerValidator(20, 200), PricePerValidator(30, 300)];
            forall p :: IsMedian(s, p) <==> p == 200
  {
    var s := [PricePerValidator(10, 100), PricePerValidator(20, 200), PricePerValidator(30, 300)];
    TotalStep(s, 0);
    TotalStep(s, 1);
    TotalStep(s, 2);
    assert s[..0] == [] && s[..3] == s;
    FirstReaching(s, 1);
    forall p | IsMedian(s, p) ensures p == 200 {
      MedianUnique(s, p, 200);
    }
  }

  // ---------------------------------------------------------------- monotonicity

  /** Raising reported prices never lowers the median. */
  lemma MedianMonotone(s: Reports, t: Reports, p: int, q: int)
    requires |s| == |t|
    requires forall i :: 0 <= i < |s| ==> s[i].voteWeight == t[i].voteWeight && s[i].price <= t[i].price
    requires IsMedian(s, p) && IsMedian(t, q)
    ensures p <= q
  {
    SameTotal(s, t);
    if q < p {
      RaisedWeight(s, t, q);
      var j :| 0 <= j < |t| && t[j].price == q;
      // the highest original report that does not exceed q
      var k := HighestUpTo(s, j, q);
      assert Reported(s, s[k].price);
      NothingBetween(s, s[k].price, q);
    }
  }

  lemma {:induction false} SameTotal(s: Reports, t: Reports)
    requires |s| == |t| && forall i :: 0 <= i < |s| ==> s[i].voteWeight == t[i].voteWeight
    ensures Total(s) == Total(t)
  {
    if s != [] {
      SameTotal(s[..|s| - 1], t[..|t| - 1]);
    }
  }

  lemma {:induction false} RaisedWeight(s: Reports, t: Reports, q: int)
    requires |s| == |t|
    requires forall i :: 0 <= i < |s| ==> s[i].voteWeight == t[i].voteWeight && s[i].price <= t[i].price
    ensures WeightUpTo(t, q) <= WeightUpTo(s, q)
  {
    if s != [] {
      RaisedWeight(s[..|s| - 1], t[..|t| - 1], q);
    }
  }

  lemma {:induction false} HighestUpTo(s: Reports, j: nat, q: int) returns (k: nat)
    requires j < |s| && s[j].price <= q
    ensures k < |s| && s[k].price <= q
    ensures forall e <- s :: e.price <= q ==> e.price <= s[k].price
  {
    var n := |s| - 1;
    if j == n && forall e <- s[..n] :: e.price > q {
      k := n;
    } else {
      var j' := j;
      if j == n {
        var e :| e in s[..n] && e.price <= q;
        j' :| 0 <= j' < n && s[j'] == e;
      }
      k := HighestUpTo(s[..n], j', q);
      if s[k].price < s[n].price <= q {
        k := n;
      }
    }
  }

  lemma {:induction false} NothingBetween(s: Reports, p: int, q: int)
    requires p <= q && forall e <- s :: e.price <= q ==> e.price <= p
    ensures WeightUpTo(s, p) == WeightUpTo(s, q)
  {
    if s != [] {
      NothingBetween(s[..|s| - 1], p, q);
    }
  }

  // ---------------------------------------------------------------- dishonest reporters

  /** The weight of the reports that are not honest. */
  function DishonestWeight(s: Reports, honest: seq<bool>): nat
    requires |s| == |honest|
  {
    if s == [] then 0 else
    var n := |s| - 1;
    DishonestWeight(s[..n], honest[..n]) + if honest[n] then 0 else s[n].voteWeight
  }

  /** p lies between two honest reports. */
  ghost predicate WithinHonest(s: Reports, honest: seq<bool>, p: int)
    requires |s| == |honest|
  {
    && (exists i :: 0 <= i < |s| && honest[i] && s[i].price <= p)
    && (exists j :: 0 <= j < |s| && honest[j] && p <= s[j].price)
  }

  lemma {:induction false} DishonestBelow(s: Reports, honest: seq<bool>, p: int)
    requires |s| == |honest|
    requires forall i :: 0 <= i < |s| && honest[i] ==> s[i].price > p
    ensures WeightUpTo(s, p) <= DishonestWeight(s, honest)
  {
    if s != [] {
      DishonestBelow(s[..|s| - 1], honest[..|s| - 1], p);
    }
  }

  lemma {:induction false} DishonestAbove(s: Reports, honest: seq<bool>, p: int)
    requires |s| == |honest|
    requires forall i :: 0 <= i < |s| && honest[i] ==> s[i].price < p
    ensures WeightUpTo(s, p - 1) + DishonestWeight(s, honest) >= Total(s)
  {
    if s != [] {
      DishonestAbove(s[..|s| - 1], honest[..|s| - 1], p);
    }
  }

  /** With less dishonest weight than the cut-off, the median lies within the honest reports. */
  lemma HonestMajority(s: Reports, honest: seq<bool>, p: int)
    requires |s| == |honest| && IsMedian(s, p)
    requires DishonestWeight(s, honest) < Total(s) / 2
    ensures WithinHonest(s, honest, p)
  {
    if forall i :: 0 <= i < |s| && honest[i] ==> s[i].price > p {
      DishonestBelow(s, honest, p);
    }
    if forall i :: 0 <= i < |s| && honest[i] ==> s[i].price < p {
      DishonestAbove(s, honest, p);
      var j :| 0 <= j < |s| && s[j].price == p;
      if exists i :: 0 <= i < |s| && s[i].price <= p - 1 {
        var i :| 0 <= i < |s| && s[i].price <= p - 1;
        var k := HighestUpTo(s, i, p - 1);
        assert Reported(s, s[k].price);
        NothingBetween(s, s[k].price, p - 1);
      } else {
        NoneUpTo(s, p - 1);
      }
    }
  }

  lemma {:induction false} NoneUpTo(s: Reports, p: int)
    requires forall i :: 0 <= i < |s| ==> s[i].price > p
    ensures WeightUpTo(s, p) == 0
  {
    if s != [] {
      NoneUpTo(s[..|s| - 1], p);
    }
  }

  /** The same reporters with other prices. */
  function WithPrices(s: Reports, prices: seq<int>): Reports
    requires |s| == |prices|
  {
    seq(|s|, i requires 0 <= i < |s| => s[i].(price := prices[i]))
  }

  /**
   The bound is exact: among given reporters, at least one of them dishonest, no choice of prices moves the median out
   of the honest range if and only if the dishonest weight is below the cut-off.
   */
  lemma HonestRangeExact(s: Reports, honest: seq<bool>)
    requires |s| == |honest| && (exists i :: 0 <= i < |s| && !honest[i])
    ensures (forall prices: seq<int>, p: int :: |prices| == |s| && IsMedian(WithPrices(s, prices), p)
               ==> WithinHonest(WithPrices(s, prices), honest, p))
            <==> DishonestWeight(s, honest) < Total(s) / 2
  {
    if DishonestWeight(s, honest) < Total(s) / 2 {
      forall prices: seq<int>, p: int | |prices| == |s| && IsMedian(WithPrices(s, prices), p)
        ensures WithinHonest(WithPrices(s, prices), honest, p)
      {
        var t := WithPrices(s, prices);
        SameTotal(s, t);
        SameDishonest(s, t, honest);
        HonestMajority(t, honest, p);
      }
    } else {
      var prices := seq(|s|, i requires 0 <= i < |s| => if honest[i] then 1 else 0);
      var t := WithPrices(s, prices);
      SameTotal(s, t);
      SameDishonest(s, t, honest);
      ZeroPrices(t, honest);
      var i :| 0 <= i < |s| && !honest[i];
      assert t[i].price == 0;
      assert Reported(t, 0);
      assert IsMedian(t, 0);
      assert !WithinHonest(t, honest, 0);
    }
  }

  lemma {:induction false} SameDishonest(s: Reports, t: Reports, honest: seq<bool>)
    requires |s| == |t| == |honest| && forall i :: 0 <= i < |s| ==> s[i].voteWeight == t[i].voteWeight
    ensures DishonestWeight(s, honest) == DishonestWeight(t, honest)
  {
    if s != [] {
      SameDishonest(s[..|s| - 1], t[..|s| - 1], honest[..|s| - 1]);
    }
  }

  lemma {:induction false} ZeroPrices(t: Reports, honest: seq<bool>)
    requires |t| == |honest| && forall i :: 0 <= i < |t| ==> t[i].price == if honest[i] then 1 else 0
    ensures WeightUpTo(t, 0) == DishonestWeight(t, honest)
  {
    if t != [] {
      ZeroPrices(t[..|t| - 1], honest[..|t| - 1]);
    }
  }
}

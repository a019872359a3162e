/** Iteration orders: ranging over a Go map visits every key once, in an order that may differ from run to run. */
module Orders {

  /** Every key exactly once. */
  ghost predicate IsOrder<T>(order: seq<T>, keys: set<T>) {
    && (forall k <- keys :: k in order)
    && (forall k <- order :: k in keys)
    && (forall i, j :: 0 <= i < j < |order| ==> order[i] != order[j])
  }

  function Without<T>(order: seq<T>, i: nat): seq<T>
    requires i < |order|
  {
    order[..i] + order[i + 1..]
  }

  lemma OrderWithout<T>(order: seq<T>, keys: set<T>, i: nat)
    requires IsOrder(order, keys) && i < |order|
    ensures IsOrder(Without(order, i), keys - {order[i]})
  {
  }

  lemma OrderInit<T>(order: seq<T>, keys: set<T>)
    requires IsOrder(order, keys) && order != []
    ensures IsOrder(order[..|order| - 1], keys - {order[|order| - 1]})
  {
  }

  lemma {:induction false} OrderLength<T>(order: seq<T>, keys: set<T>)
    requires IsOrder(order, keys)
    ensures |order| == |keys|
  {
    if order == [] {
      assert keys == {};
    } else {
      OrderInit(order, keys);
      OrderLength(order[..|order| - 1], keys - {order[|order| - 1]});
    }
  }

  /** One more key visited. */
  lemma OrderExtends<T>(order: seq<T>, keys: set<T>, todo: set<T>, k: T)
    requires todo <= keys && k in todo
    requires IsOrder(order, keys - todo)
    ensures IsOrder(order + [k], keys - (todo - {k}))
  {
  }

  /** Every set of keys can be visited. */
  lemma {:induction false} SomeOrder<T>(keys: set<T>)
    ensures exists order :: IsOrder(order, keys)
  {
    if keys == {} {
      assert IsOrder([], keys);
    } else {
      var k :| k in keys;
      SomeOrder(keys - {k});
      var order :| IsOrder(order, keys - {k});
      assert IsOrder(order + [k], keys);
    }
  }

  lemma SubsetSize<T>(a: set<T>, b: set<T>)
    requires a <= b
    ensures |a| <= |b|
  {
    assert b == a + (b - a);
  }
}

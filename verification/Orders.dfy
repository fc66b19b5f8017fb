/** Go visits a map in any order. An order is a sequence of the keys without repetition; a loop
    over a map is a fold along an order chosen by the environment. */
module Orders {

  ghost predicate IsOrder<K(!new)>(order: seq<K>, keys: set<K>) {
    && (forall k :: k in order <==> k in keys)
    && forall i, j | 0 <= i < j < |order| :: order[i] != order[j]
  }

  function Fold<T, K>(step: (T, K) -> T, t: T, order: seq<K>): T {
    if order == [] then t else Fold(step, step(t, order[0]), order[1..])
  }

  ghost predicate Commute<T(!new), K>(step: (T, K) -> T, a: K, b: K) {
    forall t :: step(step(t, a), b) == step(step(t, b), a)
  }

  lemma {:induction false} SomeOrder<K(!new)>(keys: set<K>) returns (order: seq<K>)
    ensures IsOrder(order, keys)
    decreases |keys|
  {
    if keys == {} {
      order := [];
    } else {
      var k :| k in keys;
      var rest := SomeOrder(keys - {k});
      order := [k] + rest;
    }
  }

  lemma {:induction false} FoldAppend<T, K>(step: (T, K) -> T, t: T, a: seq<K>, b: seq<K>)
    ensures Fold(step, t, a + b) == Fold(step, Fold(step, t, a), b)
  {
    if a == [] {
      assert a + b == b;
    } else {
      assert (a + b)[1..] == a[1..] + b;
      FoldAppend(step, step(t, a[0]), a[1..], b);
    }
  }

  lemma FoldOne<T, K>(step: (T, K) -> T, t: T, k: K)
    ensures Fold(step, t, [k]) == step(t, k)
  {
    assert [k][1..] == [];
  }

  lemma {:induction false} MoveToFront<T(!new), K>(step: (T, K) -> T, t: T, a: seq<K>, k: K)
    requires forall x | x in a :: Commute(step, x, k)
    ensures Fold(step, t, a + [k]) == Fold(step, step(t, k), a)
  {
    if a == [] {
      assert [] + [k] == [k] && [k][1..] == [];
    } else {
      assert (a + [k])[1..] == a[1..] + [k];
      assert Commute(step, a[0], k);
      MoveToFront(step, step(t, a[0]), a[1..], k);
    }
  }

  lemma {:induction false} OrderLength<K(!new)>(order: seq<K>, keys: set<K>)
    requires IsOrder(order, keys)
    ensures |order| == |keys|
    decreases |order|
  {
    if order == [] {
      assert forall k | k in keys :: k in order;
      assert keys == {};
    } else {
      assert order[0] in order;
      RemoveFrom(order, keys, 0);
      assert order[..0] + order[1..] == order[1..];
      OrderLength(order[1..], keys - {order[0]});
    }
  }

  /** Folding steps that commute gives the same result along every order. */
  lemma {:induction false} FoldIsOrderFree<T(!new), K(!new)>(step: (T, K) -> T, t: T, keys: set<K>, o1: seq<K>,
                                                           o2: seq<K>)
    requires IsOrder(o1, keys) && IsOrder(o2, keys)
    requires forall a, b | a in keys && b in keys :: Commute(step, a, b)
    ensures Fold(step, t, o1) == Fold(step, t, o2)
    decreases |o1|
  {
    if o1 == [] {
      OrderLength(o1, keys);
      OrderLength(o2, keys);
    } else {
      var k := o1[0];
      assert k in o1;
      var j :| 0 <= j < |o2| && o2[j] == k;
      var before, after := o2[..j], o2[j + 1..];
      assert o2 == before + [k] + after;
      assert forall x | x in before :: x in o2;
      FoldAppend(step, t, before + [k], after);
      MoveToFront(step, t, before, k);
      FoldAppend(step, step(t, k), before, after);
      RemoveFrom(o1, keys, 0);
      RemoveFrom(o2, keys, j);
      assert o1[..0] + o1[1..] == o1[1..];
      FoldIsOrderFree(step, step(t, k), keys - {k}, o1[1..], before + after);
    }
  }

  lemma RemoveFrom<K(!new)>(order: seq<K>, keys: set<K>, j: nat)
    requires IsOrder(order, keys) && j < |order|
    ensures IsOrder(order[..j] + order[j + 1..], keys - {order[j]})
  {
    var rest := order[..j] + order[j + 1..];
    forall k ensures k in rest <==> k in keys - {order[j]} {
      if k in order && k != order[j] {
        var i :| 0 <= i < |order| && order[i] == k;
        assert rest[if i < j then i else i - 1] == k;
      }
      if k in rest {
        var i :| 0 <= i < |rest| && rest[i] == k;
        assert order[if i < j then i else i + 1] == k;
      }
    }
  }

  /** The place of one key in an order, and the others around it. */
  lemma SplitAt<K(!new)>(order: seq<K>, keys: set<K>, k: K) returns (before: seq<K>, after: seq<K>)
    requires IsOrder(order, keys) && k in keys
    ensures order == before + ([k] + after)
    ensures forall x | x in before || x in after :: x in keys && x != k
  {
    assert k in order;
    var j :| 0 <= j < |order| && order[j] == k;
    before, after := order[..j], order[j + 1..];
    assert order == before + ([k] + after);
    forall x | x in before || x in after ensures x in keys && x != k {
      var i :| 0 <= i < |order| && i != j && order[i] == x;
      assert order[i] in order;
    }
  }
}

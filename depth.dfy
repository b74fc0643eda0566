/** Depth ordering of the graphics items: the zSort comparator and the sort
    of the items by it, whose positions become their z-values. */
module DepthOrder {

  /** zSort: an item whose model has the larger distance sorts first
      ("closer items come first"). */
  predicate ZSort(distance1: int, distance2: int)
  {
    distance1 > distance2
  }

  /** order lists each of the indices 0 .. n-1 exactly once. */
  predicate IsIndexPermutation(order: seq<nat>, n: nat)
  {
    && |order| == n
    && (forall k :: 0 <= k < n ==> order[k] < n)
    && (forall a, b :: 0 <= a < b < n ==> order[a] != order[b])
    && (forall j :: 0 <= j < n ==> j in order)
  }

  /** No index in order sorts (by the distances ds) before one listed
      earlier: the order a sort with zSort produces. */
  predicate SortedByZSort(ds: seq<int>, order: seq<nat>)
    requires forall k :: 0 <= k < |order| ==> order[k] < |ds|
  {
    forall a, b :: 0 <= a < b < |order| ==> !ZSort(ds[order[b]], ds[order[a]])
  }

  /** The distances ds[order[k]] do not increase along order. */
  predicate Descending(ds: seq<int>, order: seq<nat>)
    requires forall k :: 0 <= k < |order| ==> order[k] < |ds|
  {
    forall a, b :: 0 <= a < b < |order| ==> ds[order[a]] >= ds[order[b]]
  }

  /** The qSort of handleDistanceChanged: the indices of the items, ordered
      by descending distance of their models. How ties are ordered is not
      promised. */
  method SortByDistance(ds: seq<int>) returns (order: seq<nat>)
    ensures IsIndexPermutation(order, |ds|)
    ensures SortedByZSort(ds, order)
  {
    order := [];
    var i := 0;
    while i < |ds|
      invariant 0 <= i <= |ds|
      invariant IsIndexPermutation(order, i)
      invariant Descending(ds, order)
    {
      var p := 0;
      while p < |order| && ds[order[p]] >= ds[i]
        invariant 0 <= p <= |order|
        invariant forall a :: 0 <= a < p ==> ds[order[a]] >= ds[i]
      {
        p := p + 1;
      }
      InsertKeepsDescending(ds, order, p, i);
      InsertKeepsPermutation(order, p, i);
      order := order[..p] + [i] + order[p..];
      i := i + 1;
    }
  }

  /** Inserting index i where the distances stop being at least its own keeps
      the order descending. */
  lemma InsertKeepsDescending(ds: seq<int>, order: seq<nat>, p: nat, i: nat)
    requires i < |ds| && p <= |order|
    requires forall k :: 0 <= k < |order| ==> order[k] < |ds|
    requires Descending(ds, order)
    requires forall a :: 0 <= a < p ==> ds[order[a]] >= ds[i]
    requires p < |order| ==> ds[order[p]] < ds[i]
    ensures Descending(ds, order[..p] + [i] + order[p..])
  {
    var next := order[..p] + [i] + order[p..];
    assert forall a :: 0 <= a < p ==> next[a] == order[a];
    assert next[p] == i;
    assert forall a :: p < a < |next| ==> next[a] == order[a - 1];
    forall a, b | 0 <= a < b < |next| ensures ds[next[a]] >= ds[next[b]] {
      if b > p && a >= p {
        assert ds[order[b - 1]] <= ds[order[p]];
      }
    }
  }

  /** Inserting the next index i anywhere into a permutation of 0 .. i-1
      gives a permutation of 0 .. i. */
  lemma InsertKeepsPermutation(order: seq<nat>, p: nat, i: nat)
    requires IsIndexPermutation(order, i) && p <= i
    ensures IsIndexPermutation(order[..p] + [i] + order[p..], i + 1)
  {
    var next := order[..p] + [i] + order[p..];
    assert forall a :: 0 <= a < p ==> next[a] == order[a];
    assert next[p] == i;
    assert forall a :: p < a <= i ==> next[a] == order[a - 1];
    forall j | 0 <= j < i ensures j in next {
      assert j in order;
      var k :| 0 <= k < |order| && order[k] == j;
      if k < p { assert next[k] == j; } else { assert next[k + 1] == j; }
    }
  }

  /** Giving the item at the k-th position of a zSort order the z-value k
      puts every item strictly behind those whose model is further away, and
      hands out each of 0 .. n-1 exactly once. */
  lemma RanksRespectZSort(ds: seq<int>, order: seq<nat>, zs: seq<int>)
    requires IsIndexPermutation(order, |ds|) && SortedByZSort(ds, order)
    requires |zs| == |ds| && forall k :: 0 <= k < |ds| ==> zs[order[k]] == k
    ensures forall a, b :: 0 <= a < |ds| && 0 <= b < |ds| && ZSort(ds[a], ds[b]) ==> zs[a] < zs[b]
    ensures forall a :: 0 <= a < |ds| ==> 0 <= zs[a] < |ds|
    ensures forall a, b :: 0 <= a < b < |ds| ==> zs[a] != zs[b]
  {
    forall a | 0 <= a < |ds| ensures 0 <= zs[a] < |ds| && order[zs[a]] == a {
      assert a in order;
      var k :| 0 <= k < |order| && order[k] == a;
      assert zs[a] == k;
    }
    forall a, b | 0 <= a < |ds| && 0 <= b < |ds| && ZSort(ds[a], ds[b]) ensures zs[a] < zs[b] {
      var ka, kb := zs[a], zs[b];
      assert order[ka] == a && order[kb] == b;
    }
  }
}

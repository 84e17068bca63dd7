// Sorting by a key, as `sort_unstable_by` leaves a list.
module Sorting {

  ghost predicate TotalOrder<K(!new)>(less: (K, K) -> bool) {
    && (forall a :: !less(a, a))
    && (forall a, b, c :: less(a, b) && less(b, c) ==> less(a, c))
    && (forall a, b :: a == b || less(a, b) || less(b, a))
  }

  /** No element is before an earlier one. */
  predicate Ordered<T, K>(items: seq<T>, key: T -> K, less: (K, K) -> bool) {
    forall i, j :: 0 <= i < j < |items| ==> !less(key(items[j]), key(items[i]))
  }

  function Insert<T, K>(sorted: seq<T>, x: T, key: T -> K, less: (K, K) -> bool): (r: seq<T>)
    ensures multiset(r) == multiset(sorted) + multiset{x}
  {
    if sorted == [] || less(key(x), key(sorted[0])) then [x] + sorted
    else
      assert sorted == [sorted[0]] + sorted[1..];
      [sorted[0]] + Insert(sorted[1..], x, key, less)
  }

  lemma {:induction false} InsertOrders<T, K(!new)>(sorted: seq<T>, x: T, key: T -> K, less: (K, K) -> bool)
    requires TotalOrder(less) && Ordered(sorted, key, less)
    ensures Ordered(Insert(sorted, x, key, less), key, less)
  {
    if sorted != [] && !less(key(x), key(sorted[0])) {
      InsertOrders(sorted[1..], x, key, less);
      var rest := Insert(sorted[1..], x, key, less);
      forall k | 0 <= k < |rest|
        ensures !less(key(rest[k]), key(sorted[0]))
      {
        assert rest[k] in multiset(rest);
        if rest[k] != x {
          var j :| 0 <= j < |sorted[1..]| && sorted[1..][j] == rest[k];
          assert sorted[j + 1] == rest[k];
        }
      }
    } else if sorted != [] {
      forall j | 0 <= j < |sorted|
        ensures !less(key(sorted[j]), key(x))
      {
        assert j > 0 ==> !less(key(sorted[j]), key(sorted[0]));
      }
    }
  }

  method Sort<T, K(!new)>(items: seq<T>, key: T -> K, less: (K, K) -> bool) returns (sorted: seq<T>)
    requires TotalOrder(less)
    ensures Ordered(sorted, key, less) && multiset(sorted) == multiset(items)
  {
    sorted := [];
    for i := 0 to |items|
      invariant Ordered(sorted, key, less) && multiset(sorted) == multiset(items[..i])
    {
      assert items[..i + 1] == items[..i] + [items[i]];
      InsertOrders(sorted, items[i], key, less);
      sorted := Insert(sorted, items[i], key, less);
    }
    assert items[..|items|] == items;
  }

  ghost predicate Distinct<T>(items: seq<T>) {
    forall i, j :: 0 <= i < j < |items| ==> items[i] != items[j]
  }

  lemma {:induction false} DistinctOnce<T>(items: seq<T>)
    ensures Distinct(items) <==> forall x :: multiset(items)[x] <= 1
  {
    if items != [] {
      var init, last := items[..|items| - 1], items[|items| - 1];
      assert items == init + [last];
      DistinctOnce(init);
      if Distinct(items) {
        assert last !in init;
      } else if Distinct(init) {
        var i, j :| 0 <= i < j < |items| && items[i] == items[j];
        assert j == |init| && init[i] == last && last in multiset(init);
        assert multiset(items)[last] > 1;
      } else {
        var x :| multiset(init)[x] > 1;
        assert multiset(items)[x] > 1;
      }
    }
  }

  /** What is listed once stays listed once, in any order. */
  lemma {:induction false} DistinctPermuted<T>(a: seq<T>, b: seq<T>)
    requires multiset(a) == multiset(b) && Distinct(a)
    ensures Distinct(b) && |a| == |b| && forall x :: x in b <==> x in a
  {
    DistinctOnce(a);
    DistinctOnce(b);
    assert |a| == |multiset(a)| && |b| == |multiset(b)|;
    assert forall x :: x in a <==> x in multiset(a);
    assert forall x :: x in b <==> x in multiset(b);
  }
}

/** The stable sort behind Python's `sorted`. */
module Sorting {
  import opened Lists

  function Insert<T>(x: T, xs: seq<T>, less: (T, T) -> bool): (r: seq<T>) {
    if xs == [] || !less(xs[0], x) then [x] + xs else [xs[0]] + Insert(x, xs[1..], less)
  }

  function Sort<T>(xs: seq<T>, less: (T, T) -> bool): (r: seq<T>) {
    if xs == [] then [] else Insert(xs[0], Sort(xs[1..], less), less)
  }

  predicate Ascending<T>(xs: seq<T>, less: (T, T) -> bool) {
    forall i, j :: 0 <= i < j < |xs| ==> less(xs[i], xs[j])
  }

  /** `less` orders the elements of `xs` strictly and totally. */
  ghost predicate Orders<T(!new)>(xs: seq<T>, less: (T, T) -> bool) {
    && (forall x, y, z :: x in xs && y in xs && z in xs && less(x, y) && less(y, z) ==> less(x, z))
    && (forall x, y :: x in xs && y in xs ==> !(less(x, y) && less(y, x)))
    && (forall x, y :: x in xs && y in xs && x != y ==> less(x, y) || less(y, x))
  }

  lemma {:induction false} InsertPermutes<T>(x: T, xs: seq<T>, less: (T, T) -> bool)
    ensures multiset(Insert(x, xs, less)) == multiset([x]) + multiset(xs)
  {
    if !(xs == [] || !less(xs[0], x)) {
      InsertPermutes(x, xs[1..], less);
      assert xs == [xs[0]] + xs[1..];
    }
  }

  lemma {:induction false} SortPermutes<T>(xs: seq<T>, less: (T, T) -> bool)
    ensures multiset(Sort(xs, less)) == multiset(xs)
  {
    if xs != [] {
      SortPermutes(xs[1..], less);
      InsertPermutes(xs[0], Sort(xs[1..], less), less);
      assert xs == [xs[0]] + xs[1..];
    }
  }

  lemma InMultiset<T>(xs: seq<T>, ys: seq<T>)
    requires multiset(xs) == multiset(ys)
    ensures forall x :: x in xs <==> x in ys
    ensures |xs| == |ys|
  {
    forall x ensures x in xs <==> x in ys {
      assert x in xs <==> x in multiset(xs);
      assert x in ys <==> x in multiset(ys);
    }
    assert |multiset(xs)| == |xs| && |multiset(ys)| == |ys|;
  }

  lemma {:induction false} InsertAscends<T(!new)>(x: T, xs: seq<T>, less: (T, T) -> bool)
    requires Ascending(xs, less) && x !in xs && Orders([x] + xs, less)
    ensures Ascending(Insert(x, xs, less), less)
  {
    var all := [x] + xs;
    assert x == all[0] && forall i :: 0 <= i < |xs| ==> xs[i] == all[i + 1];
    if xs == [] {
    } else if !less(xs[0], x) {
      assert xs[0] in xs && xs[0] in all && x in all;
      forall j | 0 <= j < |xs| ensures less(x, xs[j]) {
        assert xs[j] in all;
        assert less(x, xs[0]);
      }
    } else {
      var rest := xs[1..];
      assert forall y :: y in [x] + rest ==> y in all;
      InsertAscends(x, rest, less);
      assert forall k :: 0 <= k < |rest| ==> rest[k] == xs[k + 1];
      InsertAbove(xs[0], x, rest, less);
    }
  }

  /** What lies below `x` and all of `xs` lies below the result of inserting. */
  lemma InsertAbove<T(!new)>(low: T, x: T, xs: seq<T>, less: (T, T) -> bool)
    requires less(low, x) && forall k :: 0 <= k < |xs| ==> less(low, xs[k])
    ensures forall j :: 0 <= j < |Insert(x, xs, less)| ==> less(low, Insert(x, xs, less)[j])
  {
    var r := Insert(x, xs, less);
    InsertPermutes(x, xs, less);
    assert multiset(r) == multiset([x] + xs);
    InMultiset(r, [x] + xs);
    forall j | 0 <= j < |r| ensures less(low, r[j]) {
      assert r[j] in r;
      assert r[j] in [x] + xs;
    }
  }

  /** `less` is a strict total order of the whole type. */
  ghost predicate TotalOrder<T(!new)>(less: (T, T) -> bool) {
    && (forall x, y, z :: less(x, y) && less(y, z) ==> less(x, z))
    && (forall x, y :: less(x, y) || less(y, x) || x == y)
    && (forall x :: !less(x, x))
  }

  /** Nothing comes before what stands in front of it; equal elements may follow one another. */
  predicate InOrder<T>(xs: seq<T>, less: (T, T) -> bool) {
    forall i, j :: 0 <= i < j < |xs| ==> !less(xs[j], xs[i])
  }

  lemma {:induction false} InsertKeepsOrder<T(!new)>(x: T, xs: seq<T>, less: (T, T) -> bool)
    requires TotalOrder(less) && InOrder(xs, less)
    ensures InOrder(Insert(x, xs, less), less)
  {
    if xs == [] {
    } else if !less(xs[0], x) {
      forall j | 0 <= j < |xs| ensures !less(xs[j], x) {
        assert j > 0 ==> !less(xs[j], xs[0]);
      }
    } else {
      var rest := Insert(x, xs[1..], less);
      InsertKeepsOrder(x, xs[1..], less);
      InsertPermutes(x, xs[1..], less);
      InMultiset(rest, [x] + xs[1..]);
      forall j | 0 <= j < |rest| ensures !less(rest[j], xs[0]) {
        assert rest[j] in [x] + xs[1..];
        if rest[j] != x {
          var k :| 0 <= k < |xs| - 1 && xs[1..][k] == rest[j];
          assert !less(xs[k + 1], xs[0]);
        }
      }
    }
  }

  lemma {:induction false} SortOrders<T(!new)>(xs: seq<T>, less: (T, T) -> bool)
    requires TotalOrder(less)
    ensures InOrder(Sort(xs, less), less)
  {
    if xs != [] {
      SortOrders(xs[1..], less);
      InsertKeepsOrder(xs[0], Sort(xs[1..], less), less);
    }
  }

  lemma {:induction false} SortAscends<T(!new)>(xs: seq<T>, less: (T, T) -> bool)
    requires Distinct(xs) && Orders(xs, less)
    ensures Ascending(Sort(xs, less), less)
  {
    if xs != [] {
      var rest := xs[1..];
      assert forall y :: y in rest ==> y in xs;
      SortAscends(rest, less);
      SortPermutes(rest, less);
      InMultiset(Sort(rest, less), rest);
      assert xs[0] !in rest;
      assert forall y :: y in [xs[0]] + Sort(rest, less) ==> y in xs;
      InsertAscends(xs[0], Sort(rest, less), less);
    }
  }

  /** A strictly ascending list is determined by its elements. */
  lemma {:induction false} AscendingUnique<T(!new)>(xs: seq<T>, ys: seq<T>, less: (T, T) -> bool)
    requires Ascending(xs, less) && Ascending(ys, less)
    requires forall x :: x in xs <==> x in ys
    requires forall x, y :: x in xs && y in xs ==> !(less(x, y) && less(y, x))
    ensures xs == ys
  {
    if xs == [] {
      assert forall i :: 0 <= i < |ys| ==> ys[i] in ys;
    } else {
      assert xs[0] in ys && ys != [];
      assert ys[0] in xs;
      assert xs[0] == ys[0];
      forall x ensures x in xs[1..] <==> x in ys[1..] {
        if x in xs[1..] {
          var j :| 1 <= j < |xs| && xs[j] == x;
          assert less(xs[0], x);
          assert x in ys && x != ys[0];
        }
        if x in ys[1..] {
          var j :| 1 <= j < |ys| && ys[j] == x;
          assert less(ys[0], x);
          assert x in xs && x != xs[0];
        }
      }
      AscendingUnique(xs[1..], ys[1..], less);
      assert xs == [xs[0]] + xs[1..] && ys == [ys[0]] + ys[1..];
    }
  }
}

/** Lists without repetition, as the source tests for them. */
module Lists {
  function Elements<T(==)>(values: seq<T>): (r: set<T>) { set v | v in values }

  /** The set of the values is as large as the list. */
  predicate Unique<T(==)>(values: seq<T>) {
    |Elements(values)| == |values|
  }

  predicate Distinct<T(==)>(values: seq<T>) {
    forall i, j :: 0 <= i < j < |values| ==> values[i] != values[j]
  }

  lemma {:induction false} ElementsSize<T>(values: seq<T>)
    ensures |Elements(values)| <= |values|
  {
    if values != [] {
      ElementsSize(values[1..]);
      assert Elements(values) == {values[0]} + Elements(values[1..]);
    }
  }

  /** Counting the set is comparing every pair. */
  lemma {:induction false} UniqueIffDistinct<T>(values: seq<T>)
    ensures Unique(values) <==> Distinct(values)
  {
    if values != [] {
      var head, rest := values[0], values[1..];
      UniqueIffDistinct(rest);
      ElementsSize(rest);
      assert Elements(values) == {head} + Elements(rest);
      assert Distinct(values) <==> head !in rest && Distinct(rest) by { DistinctCons(head, rest, values); }
      if head in rest {
        assert {head} + Elements(rest) == Elements(rest);
      }
    }
  }

  lemma DistinctCons<T>(head: T, rest: seq<T>, values: seq<T>)
    requires values == [head] + rest
    ensures Distinct(values) <==> head !in rest && Distinct(rest)
  {
    assert forall k :: 0 <= k < |rest| ==> rest[k] == values[k + 1];
    if Distinct(values) {
      assert forall k :: 0 <= k < |rest| ==> values[0] != rest[k];
      assert forall i, j :: 0 <= i < j < |rest| ==> rest[i] == values[i + 1] && rest[j] == values[j + 1];
    }
    if head !in rest && Distinct(rest) {
      forall i, j | 0 <= i < j < |values| ensures values[i] != values[j] {
        if i > 0 {
          assert rest[i - 1] != rest[j - 1];
        }
      }
    }
  }
}

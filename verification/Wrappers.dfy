/** The two result shapes the models share: a value that may be missing, and a computation that may raise. */
module Wrappers {
  datatype Option<+T> = None | Some(value: T)

  datatype Result<+T, +E> = Ok(value: T) | Err(error: E)

  function Map<S, T>(f: S -> T, xs: seq<S>): (ys: seq<T>)
    ensures |ys| == |xs| && forall i :: 0 <= i < |xs| ==> ys[i] == f(xs[i])
  {
    seq(|xs|, i requires 0 <= i < |xs| => f(xs[i]))
  }

  lemma MapCons<S, T>(f: S -> T, x: S, xs: seq<S>)
    ensures Map(f, [x] + xs) == [f(x)] + Map(f, xs)
  {
    var ys, zs := Map(f, [x] + xs), [f(x)] + Map(f, xs);
    assert |ys| == |zs|;
    forall i | 0 <= i < |ys| ensures ys[i] == zs[i] {
      assert i > 0 ==> ([x] + xs)[i] == xs[i - 1];
    }
  }
}

/** Many clients over one store: each step touches the state of one key only. */
module Keyed {
  import opened Prelude
  import M = Machine

  function Get<K, S>(store: map<K, S>, k: K): Option<S> {
    if k in store then Some(store[k]) else None
  }

  function Put<K(!new), S>(store: map<K, S>, k: K, v: Option<S>): (store': map<K, S>)
    ensures Get(store', k) == v
    ensures forall other: K :: other != k ==> Get(store', other) == Get(store, other)
  {
    if v.Some? then store[k := v.value] else store - {k}
  }

  /** Outputs of a run in which every input names the key it is for. */
  function Outputs<K(!new), S, I, O>(step: (Option<S>, I) -> (Option<S>, O), store: map<K, S>, xs: seq<(K, I)>)
      : (out: seq<O>)
    ensures |out| == |xs|
    decreases |xs|
  {
    if xs == [] then []
    else
      var next := step(Get(store, xs[0].0), xs[0].1);
      [next.1] + Outputs(step, Put(store, xs[0].0, next.0), xs[1..])
  }

  function Final<K(!new), S, I, O>(step: (Option<S>, I) -> (Option<S>, O), store: map<K, S>, xs: seq<(K, I)>): map<K, S>
    decreases |xs|
  {
    if xs == [] then store
    else Final(step, Put(store, xs[0].0, step(Get(store, xs[0].0), xs[0].1).0), xs[1..])
  }

  /** Which inputs are for key `k`. */
  function For<K(==), I>(xs: seq<(K, I)>, k: K): (mine: seq<bool>)
    ensures |mine| == |xs| && forall i :: 0 <= i < |xs| ==> mine[i] == (xs[i].0 == k)
  {
    if xs == [] then [] else [xs[0].0 == k] + For(xs[1..], k)
  }

  function Inputs<K(==), I>(xs: seq<(K, I)>, k: K): seq<I> {
    if xs == [] then []
    else (if xs[0].0 == k then [xs[0].1] else []) + Inputs(xs[1..], k)
  }

  /** Isolation: what one key sees of any interleaved run is exactly its own run. */
  lemma {:induction false} Isolation<K(!new), S, I, O>(step: (Option<S>, I) -> (Option<S>, O), store: map<K, S>,
                                                       xs: seq<(K, I)>, k: K)
    ensures Filter(Outputs(step, store, xs), For(xs, k)) == M.Outputs(step, Get(store, k), Inputs(xs, k))
    ensures Get(Final(step, store, xs), k) == M.Final(step, Get(store, k), Inputs(xs, k))
    decreases |xs|
  {
    if xs != [] {
      var next := step(Get(store, xs[0].0), xs[0].1);
      var store' := Put(store, xs[0].0, next.0);
      var out := Outputs(step, store, xs);
      assert out[0] == next.1 && out[1..] == Outputs(step, store', xs[1..]);
      assert For(xs, k)[1..] == For(xs[1..], k);
      Isolation(step, store', xs[1..], k);
      if xs[0].0 == k {
        assert Inputs(xs, k) == [xs[0].1] + Inputs(xs[1..], k);
      } else {
        assert Inputs(xs, k) == Inputs(xs[1..], k);
      }
    }
  }
}

/** Shared vocabulary: options, counting and filtering of sequences. */
module Prelude {
  datatype Option<+T> = None | Some(value: T)

  /** The four values a script returns, and the fields every limiter's Result shares. */
  datatype Reply = Reply(allowed: bool, remaining: int, retryAfter: int, limit: int)

  function Min(a: int, b: int): int { if a <= b then a else b }

  function Max(a: int, b: int): int { if a >= b then a else b }

  /** Number of admitted requests among the replies. */
  function Admitted(replies: seq<Reply>): nat {
    if replies == [] then 0
    else (if replies[0].allowed then 1 else 0) + Admitted(replies[1..])
  }

  function CountTrue(choice: seq<bool>): nat {
    if choice == [] then 0
    else (if choice[0] then 1 else 0) + CountTrue(choice[1..])
  }

  function Repeat<T>(x: T, n: nat): (xs: seq<T>)
    ensures |xs| == n && forall i :: 0 <= i < n ==> xs[i] == x
  {
    if n == 0 then [] else [x] + Repeat(x, n - 1)
  }

  /** The admission decisions in a sequence of replies. */
  function Decisions(replies: seq<Reply>): (choice: seq<bool>)
    ensures |choice| == |replies| && forall i :: 0 <= i < |replies| ==> choice[i] == replies[i].allowed
    ensures CountTrue(choice) == Admitted(replies)
  {
    if replies == [] then [] else [replies[0].allowed] + Decisions(replies[1..])
  }

  /** The elements of `xs` whose position is kept. */
  function Filter<T>(xs: seq<T>, keep: seq<bool>): (kept: seq<T>)
    requires |xs| == |keep|
  {
    if xs == [] then []
    else (if keep[0] then [xs[0]] else []) + Filter(xs[1..], keep[1..])
  }

  lemma {:induction false} AdmittedAppend(a: seq<Reply>, b: seq<Reply>)
    ensures Admitted(a + b) == Admitted(a) + Admitted(b)
  {
    if a == [] {
      assert a + b == b;
    } else {
      assert (a + b)[1..] == a[1..] + b;
      AdmittedAppend(a[1..], b);
    }
  }

  /** The spacing of two readings differs from the time that passes in Redis by at most `slack` ms. */
  predicate Paced(spacing: int, elapsed: int, slack: nat) {
    elapsed - spacing <= slack && spacing - elapsed <= slack
  }

  /** Whole windows of length `w` before `a`, for nonnegative `a` what Go's integer division gives. */
  function Quotient(a: int, w: int): (q: int)
    requires w >= 1
    ensures q * w <= a < q * w + w
  {
    a / w
  }

  lemma ProductMonotone(x: int, y: int, w: int)
    requires x <= y && w >= 0
    ensures x * w <= y * w
  {
  }

  lemma QuotientMonotone(a: int, b: int, w: int)
    requires a <= b && w >= 1
    ensures Quotient(a, w) <= Quotient(b, w)
  {
    var p, q := Quotient(a, w), Quotient(b, w);
    if q + 1 <= p {
      ProductMonotone(q + 1, p, w);
      assert false;
    }
  }

  lemma SameQuotient(a: int, q: int, w: int)
    requires w >= 1 && q * w <= a < q * w + w
    ensures Quotient(a, w) == q
  {
    var p := Quotient(a, w);
    if p < q {
      ProductMonotone(p + 1, q, w);
      assert false;
    } else if q < p {
      ProductMonotone(q + 1, p, w);
      assert false;
    }
  }

  /** n times c, as a sum. */
  function Multiple(n: nat, c: int): int { if n == 0 then 0 else Multiple(n - 1, c) + c }

  lemma {:induction false} MultipleIsProduct(n: nat, c: int)
    ensures Multiple(n, c) == n * c
  {
    if n > 0 {
      MultipleIsProduct(n - 1, c);
    }
  }

  lemma {:induction false} MultipleMonotone(m: nat, n: nat, c: nat)
    requires m <= n
    ensures Multiple(m, c) <= Multiple(n, c)
  {
    if m < n {
      MultipleMonotone(m, n - 1, c);
    }
  }

  /** Least integer not below `x` (Lua's math.ceil). */
  function Ceil(x: real): (n: int)
    ensures n as real - 1.0 < x <= n as real
  {
    -((-x).Floor)
  }

  /** Go's int(x): truncation toward zero. */
  function Trunc(x: real): int {
    if x >= 0.0 then x.Floor else -((-x).Floor)
  }
}

/** Deterministic machines fed a sequence of inputs. Each limiter's run is one. */
module Machine {
  import opened Prelude

  function Outputs<S, I, O>(step: (S, I) -> (S, O), s: S, xs: seq<I>): (out: seq<O>)
    ensures |out| == |xs|
  {
    if xs == [] then []
    else
      var next := step(s, xs[0]);
      [next.1] + Outputs(step, next.0, xs[1..])
  }

  function Final<S, I, O>(step: (S, I) -> (S, O), s: S, xs: seq<I>): S {
    if xs == [] then s else Final(step, step(s, xs[0]).0, xs[1..])
  }

  lemma {:induction false} RunAppend<S, I, O>(step: (S, I) -> (S, O), s: S, xs: seq<I>, ys: seq<I>)
    ensures Final(step, s, xs + ys) == Final(step, Final(step, s, xs), ys)
    ensures Outputs(step, s, xs + ys) == Outputs(step, s, xs) + Outputs(step, Final(step, s, xs), ys)
  {
    if xs == [] {
      assert xs + ys == ys;
    } else {
      assert (xs + ys)[1..] == xs[1..] + ys;
      RunAppend(step, step(s, xs[0]).0, xs[1..], ys);
    }
  }

  /** What a prefix of the inputs produces is the same prefix of the outputs. */
  lemma {:induction false} RunPrefix<S, I, O>(step: (S, I) -> (S, O), s: S, xs: seq<I>, k: nat)
    requires k <= |xs|
    ensures Outputs(step, s, xs)[..k] == Outputs(step, s, xs[..k])
    ensures Outputs(step, s, xs)[k..] == Outputs(step, Final(step, s, xs[..k]), xs[k..])
  {
    RunAppend(step, s, xs[..k], xs[k..]);
    assert xs[..k] + xs[k..] == xs;
  }

  /** A contiguous piece of a run is a run from the state reached before it. */
  lemma {:induction false} RunSlice<S, I, O>(step: (S, I) -> (S, O), s: S, xs: seq<I>, i: nat, j: nat)
    requires i <= j <= |xs|
    ensures Outputs(step, s, xs)[i..j] == Outputs(step, Final(step, s, xs[..i]), xs[i..j])
  {
    RunPrefix(step, s, xs, j);
    RunPrefix(step, s, xs[..j], i);
    assert xs[..j][..i] == xs[..i];
    assert xs[..j][i..] == xs[i..j];
    var out := Outputs(step, s, xs);
    assert out[..j][i..] == out[i..j];
  }

  /** The output at position k is the step taken from the state after the first k inputs. */
  lemma {:induction false} RunAt<S, I, O>(step: (S, I) -> (S, O), s: S, xs: seq<I>, k: nat)
    requires k < |xs|
    ensures Outputs(step, s, xs)[k] == step(Final(step, s, xs[..k]), xs[k]).1
    ensures Final(step, s, xs[..k + 1]) == step(Final(step, s, xs[..k]), xs[k]).0
  {
    RunPrefix(step, s, xs, k);
    assert Outputs(step, s, xs)[k..][0] == Outputs(step, s, xs)[k];
    assert xs[..k + 1] == xs[..k] + [xs[k]];
    RunAppend(step, s, xs[..k], [xs[k]]);
  }

  // ----- Deleting refused requests -----

  /** `same(a, b, x)`: states a and b cannot be told apart from input x on. A refused input keeps the
      state it leaves indistinguishable from the state it found; `follows` is what the run promises
      about consecutive inputs. */
  ghost predicate Transparent<S(!new), I(!new)>(step: (S, I) -> (S, Reply), same: (S, S, I) -> bool,
                                                follows: (I, I) -> bool) {
    && (forall a, b, x :: same(a, b, x) ==> step(a, x).1 == step(b, x).1)
    && (forall a, b, x, y :: same(a, b, x) && follows(x, y) ==> same(step(a, x).0, step(b, x).0, y))
    && (forall a, b, x, y :: same(a, b, x) && !step(a, x).1.allowed && follows(x, y) ==> same(step(a, x).0, b, y))
  }

  ghost predicate Chain<I>(xs: seq<I>, follows: (I, I) -> bool) {
    forall i :: 0 < i < |xs| ==> follows(xs[i - 1], xs[i])
  }

  ghost predicate Pairwise<I>(xs: seq<I>, related: (I, I) -> bool) {
    forall i, j :: 0 <= i < j < |xs| ==> related(xs[i], xs[j])
  }

  lemma {:induction false} FilterAll<I>(xs: seq<I>, keep: seq<bool>, good: I -> bool)
    requires |xs| == |keep| && forall i :: 0 <= i < |xs| ==> good(xs[i])
    ensures forall i :: 0 <= i < |Filter(xs, keep)| ==> good(Filter(xs, keep)[i])
  {
    if xs != [] {
      FilterAll(xs[1..], keep[1..], good);
    }
  }

  /** What holds between all inputs of a run holds between those that are left. */
  lemma {:induction false} FilterPairwise<I>(xs: seq<I>, keep: seq<bool>, related: (I, I) -> bool)
    requires |xs| == |keep| && Pairwise(xs, related)
    ensures Pairwise(Filter(xs, keep), related)
  {
    if xs != [] {
      var rest := Filter(xs[1..], keep[1..]);
      FilterPairwise(xs[1..], keep[1..], related);
      if keep[0] {
        FilterAll(xs[1..], keep[1..], (x: I) => related(xs[0], x));
        assert Filter(xs, keep) == [xs[0]] + rest;
      } else {
        assert Filter(xs, keep) == rest;
      }
    }
  }

  /** Deleting any refused inputs from a run leaves every other reply unchanged. */
  lemma {:induction false} NoTrace<S(!new), I(!new)>(
      step: (S, I) -> (S, Reply), same: (S, S, I) -> bool, follows: (I, I) -> bool,
      full: S, lean: S, xs: seq<I>, keep: seq<bool>)
    requires |xs| == |keep| && Transparent(step, same, follows) && Chain(xs, follows)
    requires xs != [] ==> same(full, lean, xs[0])
    requires forall i :: 0 <= i < |xs| && !keep[i] ==> !Outputs(step, full, xs)[i].allowed
    ensures Outputs(step, lean, Filter(xs, keep)) == Filter(Outputs(step, full, xs), keep)
    decreases |xs|
  {
    if xs != [] {
      var x, rest, out := xs[0], xs[1..], Outputs(step, full, xs);
      var full' := step(full, x).0;
      assert out[0] == step(full, x).1 && out[1..] == Outputs(step, full', rest);
      forall i | 0 < i < |rest| ensures follows(rest[i - 1], rest[i]) {
        assert rest[i - 1] == xs[i] && rest[i] == xs[i + 1];
      }
      assert forall i :: 0 <= i < |rest| ==> out[1..][i] == out[i + 1];
      assert rest != [] ==> follows(xs[0], xs[1]);
      if keep[0] {
        NoTrace(step, same, follows, full', step(lean, x).0, rest, keep[1..]);
        assert Filter(xs, keep) == [x] + Filter(rest, keep[1..]);
      } else {
        NoTrace(step, same, follows, full', lean, rest, keep[1..]);
        assert Filter(xs, keep) == Filter(rest, keep[1..]);
      }
    }
  }

  /** A run of refusals does not change the reply to the input after it. */
  lemma {:induction false} AllRefused<S(!new), I(!new)>(
      step: (S, I) -> (S, Reply), same: (S, S, I) -> bool, follows: (I, I) -> bool,
      full: S, lean: S, xs: seq<I>, last: I)
    requires Transparent(step, same, follows) && Chain(xs + [last], follows)
    requires same(full, lean, (xs + [last])[0])
    requires forall i :: 0 <= i < |xs| ==> !Outputs(step, full, xs)[i].allowed
    ensures step(Final(step, full, xs), last).1 == step(lean, last).1
    decreases |xs|
  {
    if xs != [] {
      var run, rest := xs + [last], xs[1..] + [last];
      var full' := step(full, xs[0]).0;
      assert run[1..] == rest && follows(run[0], run[1]);
      forall i | 0 < i < |rest| ensures follows(rest[i - 1], rest[i]) {
        assert rest[i - 1] == run[i] && rest[i] == run[i + 1];
      }
      assert Outputs(step, full, xs) == [step(full, xs[0]).1] + Outputs(step, full', xs[1..]);
      assert !Outputs(step, full, xs)[0].allowed;
      forall i | 0 <= i < |xs[1..]| ensures !Outputs(step, full', xs[1..])[i].allowed {
        assert Outputs(step, full', xs[1..])[i] == Outputs(step, full, xs)[i + 1];
      }
      AllRefused(step, same, follows, full', lean, xs[1..], last);
    }
  }
}

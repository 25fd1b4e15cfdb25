/** Keys that expire: when the loss of a key cannot be told from its being kept. */
module Expiry {
  import opened Prelude
  import opened Machine

  /** The state under a key, and the last Redis time (ms) at which the key is live. */
  datatype Entry<+S> = Entry(state: S, deadline: int)

  /** One script call as Redis sees it: its arguments, and Redis's own clock when it runs. */
  datatype Call<+R> = Call(req: R, ttl: int, clock: int)

  function Live<S>(e: Option<Entry<S>>, clock: int, empty: S): S {
    if e.Some? && clock <= e.value.deadline then e.value.state else empty
  }

  /** PEXPIRE with a time to live that is not positive deletes the key. */
  function Kept<S>(state: S, ttl: int, clock: int): Option<Entry<S>> {
    if ttl > 0 then Some(Entry(state, clock + ttl)) else None
  }

  function Next<S, R>(step: (S, R) -> (S, Reply), empty: S, e: Option<Entry<S>>, c: Call<R>)
      : (Option<Entry<S>>, Reply)
  {
    var next := step(Live(e, c.clock, empty), c.req);
    (Kept(next.0, c.ttl, c.clock), next.1)
  }

  /** A script's step on a key that every call gives a new time to live. */
  function Expiring<S(!new), R(!new)>(step: (S, R) -> (S, Reply), empty: S)
      : (f: (Option<Entry<S>>, Call<R>) -> (Option<Entry<S>>, Reply))
    ensures forall e: Option<Entry<S>>, c: Call<R> :: f(e, c) == Next(step, empty, e, c)
  {
    (e: Option<Entry<S>>, c: Call<R>) => Next(step, empty, e, c)
  }

  function Requests<R>(calls: seq<Call<R>>): (reqs: seq<R>)
    ensures |reqs| == |calls| && forall i :: 0 <= i < |calls| ==> reqs[i] == calls[i].req
  {
    if calls == [] then [] else [calls[0].req] + Requests(calls[1..])
  }

  /** Milliseconds from a call to the first at which its key is gone. */
  function GoneAfter(ttl: int): nat { if ttl > 0 then ttl + 1 else 0 }

  /** `left(s, a)`: s is a state call a can leave. When the key of a is gone by the next call b, b does not
      need what it held. */
  ghost predicate Forgettable<S(!new), R(!new)>(
      step: (S, R) -> (S, Reply), empty: S, left: (S, Call<R>) -> bool, follows: (Call<R>, Call<R>) -> bool) {
    && (forall a: Call<R> :: left(step(empty, a.req).0, a))
    && (forall s: S, a: Call<R>, b: Call<R> :: left(s, a) && follows(a, b) ==> left(step(s, b.req).0, b))
    && (forall s: S, a: Call<R>, b: Call<R> ::
          left(s, a) && follows(a, b) && (a.ttl <= 0 || b.clock >= a.clock + GoneAfter(a.ttl)) ==>
          step(s, b.req) == step(empty, b.req))
  }

  /** From a state left by the call `last`, the expiring store and the lasting one answer alike. */
  lemma {:induction false} SameAnswersFrom<S(!new), R(!new)>(
      step: (S, R) -> (S, Reply), empty: S, left: (S, Call<R>) -> bool, follows: (Call<R>, Call<R>) -> bool,
      s: S, last: Call<R>, calls: seq<Call<R>>)
    requires Forgettable(step, empty, left, follows) && left(s, last) && Chain([last] + calls, follows)
    ensures Outputs(Expiring(step, empty), Kept(s, last.ttl, last.clock), calls) == Outputs(step, s, Requests(calls))
    decreases |calls|
  {
    if calls != [] {
      var c, run, e := calls[0], [last] + calls, Kept(s, last.ttl, last.clock);
      assert run[0] == last && run[1] == c && follows(run[0], run[1]);
      var next := step(s, c.req);
      assert step(Live(e, c.clock, empty), c.req) == next;
      assert Expiring(step, empty)(e, c) == (Kept(next.0, c.ttl, c.clock), next.1);
      assert run[1..] == [c] + calls[1..];
      forall i | 0 < i < |calls| ensures follows(run[1..][i - 1], run[1..][i]) {
        assert run[1..][i - 1] == run[i] && run[1..][i] == run[i + 1];
      }
      SameAnswersFrom(step, empty, left, follows, next.0, c, calls[1..]);
    }
  }

  /** So the two answer alike in every run from an empty store. */
  lemma {:induction false} SameAnswers<S(!new), R(!new)>(
      step: (S, R) -> (S, Reply), empty: S, left: (S, Call<R>) -> bool, follows: (Call<R>, Call<R>) -> bool,
      calls: seq<Call<R>>)
    requires Forgettable(step, empty, left, follows) && Chain(calls, follows)
    ensures Outputs(Expiring(step, empty), None, calls) == Outputs(step, empty, Requests(calls))
  {
    if calls != [] {
      var c, gone: Option<Entry<S>> := calls[0], None;
      var next := step(empty, c.req);
      assert Expiring(step, empty)(gone, c) == (Kept(next.0, c.ttl, c.clock), next.1);
      assert [c] + calls[1..] == calls;
      SameAnswersFrom(step, empty, left, follows, next.0, c, calls[1..]);
    }
  }

  lemma {:induction false} FilterRequests<R>(calls: seq<Call<R>>, keep: seq<bool>)
    requires |calls| == |keep|
    ensures Requests(Filter(calls, keep)) == Filter(Requests(calls), keep)
  {
    if calls != [] {
      FilterRequests(calls[1..], keep[1..]);
      assert Requests(calls)[1..] == Requests(calls[1..]);
      if keep[0] {
        assert Filter(calls, keep) == [calls[0]] + Filter(calls[1..], keep[1..]);
      } else {
        assert Filter(calls, keep) == Filter(calls[1..], keep[1..]);
      }
    }
  }

  // ----- Runs in which policies may change -----

  /** Policies that may follow one another on a key; each may also stay in force. */
  ghost predicate Steps<P(!new)>(edits: set<(P, P)>) {
    forall p, q :: (p, q) in edits ==> (p, p) in edits && (q, q) in edits
  }
}

/** Concurrent requests through the rate limiting handler: what its counters and handler invocations amount to. */
module MiddlewareRace {
  import opened Prelude
  import M = Machine
  import T = TokenBucket
  import SW = SlidingWindow

  /** How far a request has come. */
  datatype Phase =
    | Arrived                // counted in RequestsTotal
    | Unknown                // identify failed: status 401
    | Waiting                // limiter chosen
    | Lost                   // Allow returned an error
    | Replied(reply: Reply)  // Allow returned a reply
    | Rejected               // counted as rejected: status 429
    | Passed                 // counted as allowed
    | Failed                 // counted as a Redis error
    | Unavailable            // status 503
    | Handled(failed: bool)  // the route's own handler is invoked, after an error if `failed`

  /** What happens to a limiter call: a reply that is lost may have been preceded by an admission. */
  datatype Fate = Delivered | ReplyLost | NotExecuted

  /** Limiter calls in the order the limiter executed them. */
  datatype Entry<I> = Entry(caller: nat, input: I, reply: Reply)

  datatype State<S, I> = State(
    phase: map<nat, Phase>,
    requests: nat, allowed: nat, rejected: nat, errors: nat,
    store: S, log: seq<Entry<I>>)

  datatype Action<I> =
    | Arrive(c: nat)
    | Identify(c: nat, known: bool)
    | Call(c: nat, input: I, fate: Fate)
    | Count(c: nat)
    | Proceed(c: nat)

  function Init<S, I>(store: S): State<S, I> { State(map[], 0, 0, 0, 0, store, []) }

  /** One step of one request; `open` is the failure mode, `serve` the limiter. */
  function Step<S, I>(open: bool, serve: (S, I) -> (S, Reply), s: State<S, I>, a: Action<I>): State<S, I> {
    match a
    case Arrive(c) =>
      if c in s.phase then s else s.(phase := s.phase[c := Arrived], requests := s.requests + 1)
    case Identify(c, known) =>
      if c !in s.phase || s.phase[c] != Arrived then s
      else s.(phase := s.phase[c := if known then Waiting else Unknown])
    case Call(c, input, fate) =>
      if c !in s.phase || s.phase[c] != Waiting then s
      else if fate == NotExecuted then s.(phase := s.phase[c := Lost])
      else
        var next := serve(s.store, input);
        s.(phase := s.phase[c := if fate == Delivered then Replied(next.1) else Lost],
           store := next.0, log := s.log + [Entry(c, input, next.1)])
    case Count(c) =>
      if c !in s.phase then s
      else if s.phase[c] == Lost then s.(phase := s.phase[c := Failed], errors := s.errors + 1)
      else if !s.phase[c].Replied? then s
      else if s.phase[c].reply.allowed then s.(phase := s.phase[c := Passed], allowed := s.allowed + 1)
      else s.(phase := s.phase[c := Rejected], rejected := s.rejected + 1)
    case Proceed(c) =>
      if c !in s.phase then s
      else if s.phase[c] == Passed then s.(phase := s.phase[c := Handled(false)])
      else if s.phase[c] == Failed then s.(phase := s.phase[c := if open then Handled(true) else Unavailable])
      else s
  }

  function Run<S, I>(open: bool, serve: (S, I) -> (S, Reply), s: State<S, I>, actions: seq<Action<I>>): State<S, I>
    decreases |actions|
  {
    if actions == [] then s else Run(open, serve, Step(open, serve, s, actions[0]), actions[1..])
  }

  // ----- Conservation -----

  /** Where a request stands in the books. */
  datatype Verdict = Undecided | Unidentified | Allowed | Refused | Errored

  function Judge(p: Phase): Verdict {
    match p
    case Arrived | Waiting | Lost | Replied(_) => Undecided
    case Unknown => Unidentified
    case Rejected => Refused
    case Passed => Allowed
    case Failed | Unavailable => Errored
    case Handled(failed) => if failed then Errored else Allowed
  }

  ghost function Having(phase: map<nat, Phase>, v: Verdict): set<nat> { set c | c in phase && Judge(phase[c]) == v }

  lemma Arrives(phase: map<nat, Phase>, c: nat, p: Phase, v: Verdict)
    requires c !in phase
    ensures |Having(phase[c := p], v)| == |Having(phase, v)| + (if Judge(p) == v then 1 else 0)
  {
    if Judge(p) == v {
      assert Having(phase[c := p], v) == Having(phase, v) + {c};
    } else {
      assert Having(phase[c := p], v) == Having(phase, v);
    }
  }

  lemma AllArrive(phase: map<nat, Phase>, c: nat, p: Phase)
    requires c !in phase
    ensures forall v :: |Having(phase[c := p], v)| == |Having(phase, v)| + (if Judge(p) == v then 1 else 0)
  {
    forall v ensures |Having(phase[c := p], v)| == |Having(phase, v)| + (if Judge(p) == v then 1 else 0) {
      Arrives(phase, c, p, v);
    }
  }

  /** How the count for one verdict changes when a request goes from one phase to another. */
  function Shift(from: Phase, to: Phase, v: Verdict): int {
    (if Judge(to) == v then 1 else 0) - (if Judge(from) == v then 1 else 0)
  }

  lemma AllMove(phase: map<nat, Phase>, c: nat, p: Phase)
    requires c in phase
    ensures forall v :: |Having(phase[c := p], v)| == |Having(phase, v)| + Shift(phase[c], p, v)
  {
    forall v ensures |Having(phase[c := p], v)| == |Having(phase, v)| + Shift(phase[c], p, v) {
      Moves(phase, c, p, v);
    }
  }

  lemma Moves(phase: map<nat, Phase>, c: nat, p: Phase, v: Verdict)
    requires c in phase
    ensures |Having(phase[c := p], v)| == |Having(phase, v)| + Shift(phase[c], p, v)
  {
    Arrives(phase - {c}, c, phase[c], v);
    Arrives(phase - {c}, c, p, v);
    assert (phase - {c})[c := phase[c]] == phase;
    assert (phase - {c})[c := p] == phase[c := p];
  }

  /** Each counter counts exactly the requests decided its way. */
  ghost predicate Tallied<S, I>(s: State<S, I>) {
    && s.allowed == |Having(s.phase, Allowed)|
    && s.rejected == |Having(s.phase, Refused)|
    && s.errors == |Having(s.phase, Errored)|
    && s.requests == s.allowed + s.rejected + s.errors + |Having(s.phase, Unidentified)| + |Having(s.phase, Undecided)|
  }

  /** A step that moves a known request shifts the counters as the request's verdict shifts. */
  lemma StepShifts<S, I>(open: bool, serve: (S, I) -> (S, Reply), s: State<S, I>, a: Action<I>)
    requires a.c in s.phase
    ensures var t := Step(open, serve, s, a);
            && a.c in t.phase && t.phase == s.phase[a.c := t.phase[a.c]]
            && t.requests == s.requests
            && t.allowed == s.allowed + Shift(s.phase[a.c], t.phase[a.c], Allowed)
            && t.rejected == s.rejected + Shift(s.phase[a.c], t.phase[a.c], Refused)
            && t.errors == s.errors + Shift(s.phase[a.c], t.phase[a.c], Errored)
  {
  }

  lemma NewcomerStep<S, I>(open: bool, serve: (S, I) -> (S, Reply), s: State<S, I>, a: Action<I>)
    requires a.c !in s.phase
    ensures Step(open, serve, s, a)
            == if a.Arrive? then s.(phase := s.phase[a.c := Arrived], requests := s.requests + 1) else s
  {
  }

  lemma StepKeepsTallied<S, I>(open: bool, serve: (S, I) -> (S, Reply), s: State<S, I>, a: Action<I>)
    requires Tallied(s)
    ensures Tallied(Step(open, serve, s, a))
  {
    var t := Step(open, serve, s, a);
    if a.c in s.phase {
      StepShifts(open, serve, s, a);
      AllMove(s.phase, a.c, t.phase[a.c]);
    } else {
      NewcomerStep(open, serve, s, a);
      AllArrive(s.phase, a.c, Arrived);
    }
  }

  // ----- Handler invocations and limiter admissions -----

  function InputsOf<I>(log: seq<Entry<I>>): (xs: seq<I>)
    ensures |xs| == |log|
    ensures forall i :: 0 <= i < |log| ==> xs[i] == log[i].input
  {
    if log == [] then [] else [log[0].input] + InputsOf(log[1..])
  }

  function RepliesOf<I>(log: seq<Entry<I>>): (out: seq<Reply>)
    ensures |out| == |log|
    ensures forall i :: 0 <= i < |log| ==> out[i] == log[i].reply
  {
    if log == [] then [] else [log[0].reply] + RepliesOf(log[1..])
  }

  /** What the log says about the phase of each caller in it. */
  predicate Fits(p: Phase, reply: Reply) {
    match p
    case Arrived | Unknown | Waiting => false
    case Replied(r) => r == reply
    case Passed => reply.allowed
    case Handled(failed) => failed || reply.allowed
    case _ => true
  }

  /** Phases only a delivered reply leads to. */
  predicate Answered(p: Phase) { p.Replied? || p.Passed? || p == Handled(false) }

  ghost predicate Called<I>(log: seq<Entry<I>>, c: nat) { exists i :: 0 <= i < |log| && log[i].caller == c }

  ghost predicate OnceEach<I>(log: seq<Entry<I>>) {
    forall i, j :: 0 <= i < j < |log| ==> log[i].caller != log[j].caller
  }

  /** Every caller is in the log at most once, with the reply it acted on. */
  ghost predicate Logged<S, I>(s: State<S, I>) {
    && OnceEach(s.log)
    && (forall i :: 0 <= i < |s.log| ==> s.log[i].caller in s.phase && Fits(s.phase[s.log[i].caller], s.log[i].reply))
    && (forall c :: c in s.phase && Answered(s.phase[c]) ==> Called(s.log, c))
  }

  /** The log is a run of the limiter from its first state. */
  ghost predicate Replayed<S, I>(serve: (S, I) -> (S, Reply), s0: S, s: State<S, I>) {
    && s.store == M.Final(serve, s0, InputsOf(s.log))
    && RepliesOf(s.log) == M.Outputs(serve, s0, InputsOf(s.log))
  }

  ghost predicate FailsClosed<S, I>(s: State<S, I>) { forall c :: c in s.phase ==> s.phase[c] != Handled(true) }

  lemma CallKeepsLogged<S, I>(s: State<S, I>, t: State<S, I>, e: Entry<I>, p: Phase)
    requires Logged(s) && e.caller in s.phase && s.phase[e.caller] == Waiting
    requires t.phase == s.phase[e.caller := p] && t.log == s.log + [e]
    requires p == Lost || p == Replied(e.reply)
    ensures Logged(t)
  {
    forall c | c in t.phase && Answered(t.phase[c]) ensures Called(t.log, c) {
      if c == e.caller {
        assert t.log[|s.log|].caller == c;
      } else {
        var i :| 0 <= i < |s.log| && s.log[i].caller == c;
        assert t.log[i].caller == c;
      }
    }
  }

  /** A request that moves on without calling the limiter. */
  lemma MoveKeepsLogged<S, I>(s: State<S, I>, t: State<S, I>, c: nat, p: Phase)
    requires Logged(s) && t.phase == s.phase[c := p] && t.log == s.log
    requires if Called(s.log, c) then c in s.phase && forall r: Reply :: Fits(s.phase[c], r) ==> Fits(p, r)
             else !Answered(p)
    ensures Logged(t)
  {
    forall i | 0 <= i < |s.log| ensures s.log[i].caller in t.phase && Fits(t.phase[s.log[i].caller], s.log[i].reply) {
      if s.log[i].caller == c {
        assert Called(s.log, c);
      }
    }
  }

  lemma StepKeepsLogged<S, I>(open: bool, serve: (S, I) -> (S, Reply), s: State<S, I>, a: Action<I>)
    requires Logged(s)
    ensures Logged(Step(open, serve, s, a))
  {
    var t := Step(open, serve, s, a);
    if t.log != s.log {
      CallKeepsLogged(s, t, t.log[|s.log|], t.phase[a.c]);
    } else if t.phase != s.phase {
      MoveKeepsLogged(s, t, a.c, t.phase[a.c]);
    } else {
      assert t.phase == s.phase;
    }
  }

  lemma StepLogs<S, I>(open: bool, serve: (S, I) -> (S, Reply), s: State<S, I>, a: Action<I>)
    ensures var t := Step(open, serve, s, a);
            || (t.log == s.log && t.store == s.store)
            || (a.Call? && t.log == s.log + [Entry(a.c, a.input, serve(s.store, a.input).1)]
                && t.store == serve(s.store, a.input).0)
  {
  }

  lemma {:induction false} LogGrows<S, I>(serve: (S, I) -> (S, Reply), s0: S, log: seq<Entry<I>>, e: Entry<I>)
    requires RepliesOf(log) == M.Outputs(serve, s0, InputsOf(log))
    requires e.reply == serve(M.Final(serve, s0, InputsOf(log)), e.input).1
    ensures M.Final(serve, s0, InputsOf(log + [e])) == serve(M.Final(serve, s0, InputsOf(log)), e.input).0
    ensures RepliesOf(log + [e]) == M.Outputs(serve, s0, InputsOf(log + [e]))
  {
    M.RunAppend(serve, s0, InputsOf(log), [e.input]);
    assert InputsOf(log + [e]) == InputsOf(log) + [e.input];
    assert RepliesOf(log + [e]) == RepliesOf(log) + [e.reply];
  }

  lemma StepKeepsReplayed<S, I>(open: bool, serve: (S, I) -> (S, Reply), s0: S, s: State<S, I>, a: Action<I>)
    requires Replayed(serve, s0, s)
    ensures Replayed(serve, s0, Step(open, serve, s, a))
  {
    var t := Step(open, serve, s, a);
    StepLogs(open, serve, s, a);
    if a.Call? && t.log != s.log {
      LogGrows(serve, s0, s.log, Entry(a.c, a.input, serve(s.store, a.input).1));
    }
  }

  lemma StepKeepsClosed<S, I>(serve: (S, I) -> (S, Reply), s: State<S, I>, a: Action<I>)
    requires FailsClosed(s)
    ensures FailsClosed(Step(false, serve, s, a))
  {
  }

  /** What holds in every state reached from Init(s0). */
  ghost predicate Sound<S, I>(open: bool, serve: (S, I) -> (S, Reply), s0: S, s: State<S, I>) {
    Tallied(s) && Logged(s) && Replayed(serve, s0, s) && (open || FailsClosed(s))
  }

  lemma StepKeepsSound<S, I>(open: bool, serve: (S, I) -> (S, Reply), s0: S, s: State<S, I>, a: Action<I>)
    requires Sound(open, serve, s0, s)
    ensures Sound(open, serve, s0, Step(open, serve, s, a))
  {
    StepKeepsTallied(open, serve, s, a);
    StepKeepsLogged(open, serve, s, a);
    StepKeepsReplayed(open, serve, s0, s, a);
    if !open {
      StepKeepsClosed(serve, s, a);
    }
  }

  lemma {:induction false} RunKeepsSound<S, I>(open: bool, serve: (S, I) -> (S, Reply), s0: S, s: State<S, I>,
                                               actions: seq<Action<I>>)
    requires Sound(open, serve, s0, s)
    ensures Sound(open, serve, s0, Run(open, serve, s, actions))
    decreases |actions|
  {
    if actions != [] {
      StepKeepsSound(open, serve, s0, s, actions[0]);
      RunKeepsSound(open, serve, s0, Step(open, serve, s, actions[0]), actions[1..]);
    }
  }

  lemma InitIsSound<S, I>(open: bool, serve: (S, I) -> (S, Reply), s0: S)
    ensures Sound(open, serve, s0, Init<S, I>(s0))
  {
    assert forall v :: Having(map[], v) == {};
  }

  // ----- The books balance -----

  /** In every reachable state, whatever fails: requests = allowed + rejected + errors + unidentified +
      undecided, each counter counting exactly the requests decided its way. */
  lemma {:induction false} BooksBalance<S, I>(open: bool, serve: (S, I) -> (S, Reply), s0: S, actions: seq<Action<I>>)
    ensures var t := Run(open, serve, Init(s0), actions);
            && t.requests == t.allowed + t.rejected + t.errors + |Having(t.phase, Unidentified)|
               + |Having(t.phase, Undecided)|
            && t.allowed == |Having(t.phase, Allowed)|
            && t.rejected == |Having(t.phase, Refused)|
            && t.errors == |Having(t.phase, Errored)|
  {
    InitIsSound(open, serve, s0);
    RunKeepsSound(open, serve, s0, Init(s0), actions);
  }

  // ----- Handlers run no more often than the limiter admits -----

  /** Which limiter calls were followed by the route's handler on the strength of the reply. */
  function Served<I>(phase: map<nat, Phase>, log: seq<Entry<I>>): (marks: seq<bool>)
    ensures |marks| == |log|
    ensures forall i :: 0 <= i < |log| ==>
            marks[i] == (log[i].caller in phase && phase[log[i].caller] == Handled(false))
  {
    if log == [] then []
    else [log[0].caller in phase && phase[log[0].caller] == Handled(false)] + Served(phase, log[1..])
  }

  /** Only admitted calls are marked. */
  ghost predicate Fitting(marks: seq<bool>, out: seq<Reply>) {
    |marks| == |out| && forall k :: 0 <= k < |out| && marks[k] ==> out[k].allowed
  }

  lemma {:induction false} MarkedAreAdmitted(marks: seq<bool>, out: seq<Reply>)
    requires Fitting(marks, out)
    ensures CountTrue(marks) <= Admitted(out)
  {
    if out != [] {
      MarkedAreAdmitted(marks[1..], out[1..]);
    }
  }

  ghost function Handlers(phase: map<nat, Phase>, failed: bool): set<nat> {
    set c | c in phase && phase[c] == Handled(failed)
  }

  /** Callers in the log that were handled number at most its marks. */
  lemma {:induction false} HandledAreMarked<I>(phase: map<nat, Phase>, log: seq<Entry<I>>, who: set<nat>)
    requires forall c :: c in who ==> Called(log, c) && c in phase && phase[c] == Handled(false)
    ensures |who| <= CountTrue(Served(phase, log))
    decreases |log|
  {
    if log == [] {
      assert forall c :: c in who ==> Called(log, c);
      assert who == {};
    } else {
      var c := log[0].caller;
      forall d | d in who - {c} ensures Called(log[1..], d) {
        var i :| 0 <= i < |log| && log[i].caller == d;
        assert log[1..][i - 1].caller == d;
      }
      HandledAreMarked(phase, log[1..], who - {c});
      assert who <= (who - {c}) + {c};
      assert c !in who ==> who == who - {c};
    }
  }

  /** In every reachable state, each limiter call followed by a handler was admitted by the limiter, whose
      replies are those of an uninterrupted run of its own. */
  lemma {:induction false} ServedAreAdmitted<S, I>(open: bool, serve: (S, I) -> (S, Reply), s0: S,
                                                   actions: seq<Action<I>>)
    ensures var t := Run(open, serve, Init(s0), actions);
            Fitting(Served(t.phase, t.log), M.Outputs(serve, s0, InputsOf(t.log)))
  {
    InitIsSound(open, serve, s0);
    RunKeepsSound(open, serve, s0, Init(s0), actions);
    LoggedFits(Run(open, serve, Init(s0), actions));
  }

  lemma {:induction false} LoggedFits<S, I>(t: State<S, I>)
    requires Logged(t)
    ensures Fitting(Served(t.phase, t.log), RepliesOf(t.log))
  {
    forall k | 0 <= k < |t.log| && Served(t.phase, t.log)[k] ensures RepliesOf(t.log)[k].allowed {
      assert Fits(t.phase[t.log[k].caller], t.log[k].reply);
    }
  }

  /** In every reachable state the handler has run at most once per admission, plus, when the failure mode is
      open, at most once per error; otherwise never after an error. */
  lemma {:induction false} HandlersBound<S, I>(open: bool, serve: (S, I) -> (S, Reply), s0: S, actions: seq<Action<I>>)
    ensures var t := Run(open, serve, Init(s0), actions);
            && |Handlers(t.phase, false)| <= Admitted(M.Outputs(serve, s0, InputsOf(t.log)))
            && |Handlers(t.phase, true)| <= (if open then t.errors else 0)
  {
    var t := Run(open, serve, Init(s0), actions);
    InitIsSound(open, serve, s0);
    RunKeepsSound(open, serve, s0, Init(s0), actions);
    HandledAreMarked(t.phase, t.log, Handlers(t.phase, false));
    ServedAreAdmitted(open, serve, s0, actions);
    MarkedAreAdmitted(Served(t.phase, t.log), RepliesOf(t.log));
    HandledAfterErrors(t.phase);
    if !open {
      assert Handlers(t.phase, true) == {};
    }
  }

  lemma HandledAfterErrors(phase: map<nat, Phase>)
    ensures |Handlers(phase, true)| <= |Having(phase, Errored)|
  {
    assert Having(phase, Errored) == Handlers(phase, true) + (Having(phase, Errored) - Handlers(phase, true));
  }

  // ----- Down to the limiters -----

  lemma MarkedSegment(marks: seq<bool>, out: seq<Reply>, i: nat, j: nat)
    requires Fitting(marks, out) && i <= j <= |out|
    ensures CountTrue(marks[i..j]) <= Admitted(out[i..j])
  {
    MarkedAreAdmitted(marks[i..j], out[i..j]);
  }

  /** Behind a token bucket, whatever the order of readings, edits of policies, interleaving and failures: the requests
      handled on the strength of any contiguous calls number at most the capacity at the first of them plus what
      forward movement earns from there on. */
  lemma {:induction false} HandledWithinEarnings(open: bool, b: Option<T.Bucket>, actions: seq<Action<T.Request>>,
                                                 i: nat, j: nat)
    requires i < j <= |Run(open, T.Step, Init(b), actions).log|
    ensures var t := Run(open, T.Step, Init(b), actions);
            var reqs := InputsOf(t.log);
            CountTrue(Served(t.phase, t.log)[i..j]) as real
              <= reqs[i].capacity as real + T.Earned(reqs[i].now, reqs[i + 1..j])
  {
    var t := Run(open, T.Step, Init(b), actions);
    ServedAreAdmitted(open, T.Step, b, actions);
    MarkedSegment(Served(t.phase, t.log), M.Outputs(T.Step, b, InputsOf(t.log)), i, j);
    T.SegmentBound(b, InputsOf(t.log), i, j);
  }

  /** Under one policy and with readings in order, at most the capacity plus what is earned from the first reading to
      the last. */
  lemma {:induction false} HandledAtTokenRate(open: bool, b: Option<T.Bucket>, actions: seq<Action<T.Request>>,
                                              capacity: int, rate: real, i: nat, j: nat)
    requires var t := Run(open, T.Step, Init(b), actions);
             i <= j < |t.log| && T.Nondecreasing(InputsOf(t.log)) && T.FixedPolicy(InputsOf(t.log), capacity, rate)
    ensures var t := Run(open, T.Step, Init(b), actions);
            CountTrue(Served(t.phase, t.log)[i..j + 1]) as real
              <= capacity as real + T.Gain(t.log[i].input.now, t.log[j].input)
  {
    HandledWithinEarnings(open, b, actions, i, j + 1);
    T.EarnedInSpan(InputsOf(Run(open, T.Step, Init(b), actions).log), capacity, rate, i, j);
  }

  lemma {:induction false} FewerMarksFewerHits(reqs: seq<SW.Request>, marks: seq<bool>, choice: seq<bool>, n: nat,
                                               lo: int, hi: int)
    requires n <= |reqs| == |marks| == |choice| && forall i :: 0 <= i < |reqs| && marks[i] ==> choice[i]
    ensures SW.CountIn(reqs, marks, n, lo, hi) <= SW.CountIn(reqs, choice, n, lo, hi)
  {
    if n > 0 {
      FewerMarksFewerHits(reqs, marks, choice, n - 1, lo, hi);
    }
  }

  lemma MarkedWithinWindow(reqs: seq<SW.Request>, marks: seq<bool>, limit: nat, window: int, lag: nat, hi: int)
    requires SW.LaggedRun(reqs, limit, window, lag)
    requires Fitting(marks, M.Outputs(SW.Step, map[], reqs))
    ensures SW.CountIn(reqs, marks, |reqs|, hi - (window - lag), hi) <= limit
  {
    FewerMarksFewerHits(reqs, marks, SW.Chosen(reqs), |reqs|, hi - (window - lag), hi);
    SW.LaggedWindowBound(reqs, limit, window, lag, |reqs|, hi);
  }

  /** Behind a sliding window under one policy, with readings that lag by at most `lag`, every half-open interval of
      the window less the lag holds the readings of at most `limit` requests handled on the strength of a reply. */
  lemma HandledWithinWindow(open: bool, actions: seq<Action<SW.Request>>, limit: nat, window: int, lag: nat, hi: int)
    requires SW.LaggedRun(InputsOf(Run(open, SW.Step, Init(map[]), actions).log), limit, window, lag)
    ensures var t := Run(open, SW.Step, Init(map[]), actions);
            SW.CountIn(InputsOf(t.log), Served(t.phase, t.log), |t.log|, hi - (window - lag), hi) <= limit
  {
    var t := Run(open, SW.Step, Init(map[]), actions);
    ServedAreAdmitted(open, SW.Step, map[], actions);
    MarkedWithinWindow(InputsOf(t.log), Served(t.phase, t.log), limit, window, lag, hi);
  }
}

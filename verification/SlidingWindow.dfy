/** The sliding-window log: one atomic script step over a sorted set, and what whole runs guarantee. */
module SlidingWindow {
  import opened Prelude
  import opened Machine

  /** A member id: the 128 bits uuid.NewString draws. */
  datatype Member = Uuid(bits: nat)

  /** The sorted set of one client: member id to score (a reading in ms). */
  type Log = map<Member, nat>

  /** One script call: the reading taken in Go, the fresh member id that goes with it, and the policy
      in force (window in ms). */
  datatype Request = Request(now: nat, member: Member, limit: int, window: int)

  /** ZREMRANGEBYSCORE key 0 upTo. */
  function Prune(log: Log, upTo: int): (kept: Log)
    ensures forall m :: m in kept <==> m in log && log[m] > upTo
    ensures forall m :: m in kept ==> kept[m] == log[m]
    ensures |kept| <= |log|
  {
    var kept := map m | m in log && !(0 <= log[m] <= upTo) :: log[m];
    SmallerKeys(kept.Keys, log.Keys);
    kept
  }

  lemma SmallerKeys<T>(a: set<T>, b: set<T>)
    requires a <= b
    ensures |a| <= |b|
    ensures a != b ==> |a| < |b|
  {
    assert b == a + (b - a);
  }

  ghost predicate IsOldest(log: Log, score: nat) {
    (exists m :: m in log && log[m] == score) && (forall m :: m in log ==> score <= log[m])
  }

  lemma {:induction false} OldestExists(log: Log)
    requires |log| > 0
    ensures exists score :: IsOldest(log, score)
    decreases |log|
  {
    var m :| m in log;
    var rest := log - {m};
    assert log.Keys == rest.Keys + {m};
    if |rest| == 0 {
      assert rest.Keys == {};
      assert IsOldest(log, log[m]);
    } else {
      OldestExists(rest);
      var below :| IsOldest(rest, below);
      assert IsOldest(log, if log[m] <= below then log[m] else below);
    }
  }

  /** The lowest score of a sorted set that is not empty. */
  ghost function Oldest(log: Log): (score: nat)
    requires |log| > 0
    ensures IsOldest(log, score)
  {
    OldestExists(log);
    var score :| IsOldest(log, score);
    score
  }

  /** Whole seconds that cover `ms` milliseconds. */
  function CeilSeconds(ms: int): (n: int)
    ensures 1000 * (n - 1) < ms <= 1000 * n
  {
    -((-ms) / 1000)
  }

  /** Seconds until the oldest entry leaves the window; 1 when there is none. */
  ghost function RetryAfter(log: Log, r: Request): int {
    if |log| == 0 then 1 else Max(1, CeilSeconds(Oldest(log) + r.window - r.now))
  }

  /** SlidingWindowScript: the sorted set it leaves and its reply. */
  ghost function Step(log: Log, r: Request): (Log, Reply) {
    var live := Prune(log, r.now - r.window);
    if |live| < r.limit then
      (live[r.member := r.now], Reply(true, r.limit - |live| - 1, 0, r.limit))
    else
      (live, Reply(false, 0, RetryAfter(live, r), r.limit))
  }

  lemma StepCases(log: Log, r: Request)
    ensures Step(log, r).1.allowed <==> |Prune(log, r.now - r.window)| < r.limit
    ensures Step(log, r).1.allowed ==> Step(log, r).0 == Prune(log, r.now - r.window)[r.member := r.now]
    ensures !Step(log, r).1.allowed ==> Step(log, r).0 == Prune(log, r.now - r.window)
  {
  }

  /** The reply carries the limit. An admission accounts for all of it: what remains, itself, and the entries found; it
      asks nobody to wait. A refusal leaves nothing and asks for at least a second, and for one if it found nothing. */
  predicate Accounts(reply: Reply, limit: int, found: nat) {
    && reply.limit == limit
    && (reply.allowed ==> limit == reply.remaining + 1 + found && reply.retryAfter == 0)
    && (!reply.allowed ==> reply.remaining == 0 && reply.retryAfter >= 1 && (found == 0 ==> reply.retryAfter == 1))
  }

  lemma ReplyAccounts(log: Log, r: Request)
    ensures Accounts(Step(log, r).1, r.limit, |Prune(log, r.now - r.window)|)
  {
  }

  ghost predicate Nondecreasing(reqs: seq<Request>) {
    forall i, j :: 0 <= i <= j < |reqs| ==> reqs[i].now <= reqs[j].now
  }

  ghost predicate FixedPolicy(reqs: seq<Request>, limit: int, window: int) {
    forall i :: 0 <= i < |reqs| ==> reqs[i].limit == limit && reqs[i].window == window
  }

  ghost predicate FreshMembers(reqs: seq<Request>) {
    forall i, j :: 0 <= i < j < |reqs| ==> reqs[i].member != reqs[j].member
  }

  // ----- Exactness -----

  /** Whether request i is chosen and its reading lies in (lo, hi]. */
  predicate Hit(reqs: seq<Request>, choice: seq<bool>, i: nat, lo: int, hi: int)
    requires i < |reqs| == |choice|
  {
    choice[i] && lo < reqs[i].now <= hi
  }

  /** The chosen ones among the first n requests with a reading in (lo, hi], as a sorted set. */
  function History(reqs: seq<Request>, choice: seq<bool>, n: nat, lo: int, hi: int): Log
    requires n <= |reqs| == |choice|
  {
    if n == 0 then map[]
    else
      var prior := History(reqs, choice, n - 1, lo, hi);
      if Hit(reqs, choice, n - 1, lo, hi) then prior[reqs[n - 1].member := reqs[n - 1].now] else prior
  }

  /** How many of the first n requests are chosen with a reading in (lo, hi]. */
  function CountIn(reqs: seq<Request>, choice: seq<bool>, n: nat, lo: int, hi: int): nat
    requires n <= |reqs| == |choice|
  {
    if n == 0 then 0
    else CountIn(reqs, choice, n - 1, lo, hi) + (if Hit(reqs, choice, n - 1, lo, hi) then 1 else 0)
  }

  lemma {:induction false} HistorySize(reqs: seq<Request>, choice: seq<bool>, n: nat, lo: int, hi: int)
    requires n <= |reqs| == |choice| && FreshMembers(reqs)
    ensures forall i :: n <= i < |reqs| ==> reqs[i].member !in History(reqs, choice, n, lo, hi)
    ensures |History(reqs, choice, n, lo, hi)| == CountIn(reqs, choice, n, lo, hi)
  {
    if n > 0 {
      HistorySize(reqs, choice, n - 1, lo, hi);
    }
  }

  /** Pruning the window that ends at `t` leaves the part of it that is still in the later window. */
  lemma {:induction false} HistoryPruned(reqs: seq<Request>, choice: seq<bool>, n: nat, from: int, t: int, lo: int,
                                         hi: int)
    requires n <= |reqs| == |choice| && FreshMembers(reqs)
    requires from <= lo && t <= hi && forall i :: 0 <= i < n ==> reqs[i].now <= t
    ensures Prune(History(reqs, choice, n, from, t), lo) == History(reqs, choice, n, lo, hi)
  {
    if n > 0 {
      HistorySize(reqs, choice, n - 1, from, t);
      HistoryPruned(reqs, choice, n - 1, from, t, lo, hi);
    }
  }

  lemma PruneMovesWindow(log: Log, reqs: seq<Request>, choice: seq<bool>, n: nat, window: int)
    requires 0 < n < |reqs| == |choice| && FreshMembers(reqs) && Nondecreasing(reqs)
    requires log == History(reqs, choice, n, reqs[n - 1].now - window, reqs[n - 1].now)
    ensures Prune(log, reqs[n].now - window) == History(reqs, choice, n, reqs[n].now - window, reqs[n].now)
  {
    var t', t := reqs[n - 1].now, reqs[n].now;
    HistoryPruned(reqs, choice, n, t' - window, t', t - window, t);
  }

  ghost function Chosen(reqs: seq<Request>): (choice: seq<bool>)
    ensures |choice| == |reqs|
  {
    Decisions(Outputs(Step, map[], reqs))
  }

  /** The sorted sets a run passes through, and its decisions. */
  ghost predicate Trace(reqs: seq<Request>, logs: seq<Log>, choice: seq<bool>) {
    && |logs| == |reqs| + 1 && |choice| == |reqs| && logs[0] == map[]
    && forall i: nat {:trigger Stepped(reqs, logs, choice, i)} :: i < |reqs| ==> Stepped(reqs, logs, choice, i)
  }

  ghost predicate Stepped(reqs: seq<Request>, logs: seq<Log>, choice: seq<bool>, i: nat)
    requires i < |reqs| == |choice| == |logs| - 1
  {
    logs[i + 1] == Step(logs[i], reqs[i]).0 && choice[i] == Step(logs[i], reqs[i]).1.allowed
  }

  lemma RunIsTrace(reqs: seq<Request>) returns (logs: seq<Log>, choice: seq<bool>)
    ensures Trace(reqs, logs, choice) && choice == Chosen(reqs)
    ensures forall i :: 0 <= i <= |reqs| ==> logs[i] == Final(Step, map[], reqs[..i])
  {
    logs := seq(|reqs| + 1, i requires 0 <= i <= |reqs| => Final(Step, map[], reqs[..i]));
    choice := Chosen(reqs);
    forall i: nat | i < |reqs| ensures Stepped(reqs, logs, choice, i) {
      RunAt(Step, map[], reqs, i);
    }
    assert reqs[..0] == [];
  }

  /** Step n of a trace. */
  lemma TraceStep(reqs: seq<Request>, logs: seq<Log>, choice: seq<bool>, limit: int, window: int, n: nat)
    requires Trace(reqs, logs, choice) && FixedPolicy(reqs, limit, window) && 0 < n <= |reqs|
    ensures Decides(Prune(logs[n - 1], reqs[n - 1].now - window), logs[n], reqs[n - 1], choice[n - 1], limit)
  {
    assert Stepped(reqs, logs, choice, n - 1);
    StepCases(logs[n - 1], reqs[n - 1]);
  }

  /** The decision on a pruned sorted set, and the one it leaves. */
  predicate Decides(live: Log, log: Log, r: Request, chosen: bool, limit: int) {
    && chosen == (|live| < limit)
    && log == if chosen then live[r.member := r.now] else live
  }

  /** What request i finds after pruning is the admitted history inside the window it closes. */
  ghost predicate FindsHistory(reqs: seq<Request>, logs: seq<Log>, choice: seq<bool>, window: int, i: nat)
    requires i < |reqs| == |choice| == |logs| - 1
  {
    Prune(logs[i], reqs[i].now - window) == History(reqs, choice, i, reqs[i].now - window, reqs[i].now)
  }

  lemma {:induction false} LiveIsHistory(reqs: seq<Request>, logs: seq<Log>, choice: seq<bool>, limit: int,
                                         window: int, i: nat)
    requires Trace(reqs, logs, choice) && i < |reqs|
    requires window >= 1 && Nondecreasing(reqs) && FixedPolicy(reqs, limit, window) && FreshMembers(reqs)
    ensures FindsHistory(reqs, logs, choice, window, i)
    decreases i
  {
    if i > 0 {
      LiveIsHistory(reqs, logs, choice, limit, window, i - 1);
      TraceStep(reqs, logs, choice, limit, window, i);
      StepOnHistory(reqs, logs, choice, limit, window, i);
      PruneMovesWindow(logs[i], reqs, choice, i, window);
    }
  }

  /** An admission decided by the history so far extends it. */
  lemma StepOnHistory(reqs: seq<Request>, logs: seq<Log>, choice: seq<bool>, limit: int, window: int, n: nat)
    requires 0 < n <= |reqs| == |choice| == |logs| - 1 && window >= 1 && FreshMembers(reqs)
    requires FindsHistory(reqs, logs, choice, window, n - 1)
    requires Decides(Prune(logs[n - 1], reqs[n - 1].now - window), logs[n], reqs[n - 1], choice[n - 1], limit)
    ensures logs[n] == History(reqs, choice, n, reqs[n - 1].now - window, reqs[n - 1].now)
    ensures choice[n - 1] <==> CountIn(reqs, choice, n - 1, reqs[n - 1].now - window, reqs[n - 1].now) < limit
  {
    HistorySize(reqs, choice, n - 1, reqs[n - 1].now - window, reqs[n - 1].now);
  }

  lemma {:induction false} HistoryAt(reqs: seq<Request>, logs: seq<Log>, choice: seq<bool>, limit: int, window: int,
                                     n: nat)
    requires Trace(reqs, logs, choice) && 0 < n <= |reqs|
    requires window >= 1 && Nondecreasing(reqs) && FixedPolicy(reqs, limit, window) && FreshMembers(reqs)
    ensures logs[n] == History(reqs, choice, n, reqs[n - 1].now - window, reqs[n - 1].now)
    ensures choice[n - 1] <==> CountIn(reqs, choice, n - 1, reqs[n - 1].now - window, reqs[n - 1].now) < limit
  {
    LiveIsHistory(reqs, logs, choice, limit, window, n - 1);
    TraceStep(reqs, logs, choice, limit, window, n);
    StepOnHistory(reqs, logs, choice, limit, window, n);
  }

  /** With nondecreasing readings and one policy, the sorted set after every step is the admitted history
      restricted to the half-open window ending at the latest reading. */
  lemma {:induction false} LogIsAdmittedWindow(reqs: seq<Request>, limit: int, window: int, i: nat)
    requires i < |reqs|
    requires window >= 1 && Nondecreasing(reqs) && FixedPolicy(reqs, limit, window) && FreshMembers(reqs)
    ensures Final(Step, map[], reqs[..i + 1]) == History(reqs, Chosen(reqs), i + 1, reqs[i].now - window, reqs[i].now)
  {
    var logs, choice := RunIsTrace(reqs);
    HistoryAt(reqs, logs, choice, limit, window, i + 1);
  }

  /** A request is admitted exactly when the window it closes holds fewer than `limit` earlier admissions. */
  lemma {:induction false} AdmittedIffRoom(reqs: seq<Request>, limit: int, window: int, i: nat)
    requires i < |reqs|
    requires window >= 1 && Nondecreasing(reqs) && FixedPolicy(reqs, limit, window) && FreshMembers(reqs)
    ensures Chosen(reqs)[i] <==> CountIn(reqs, Chosen(reqs), i, reqs[i].now - window, reqs[i].now) < limit
  {
    var logs, choice := RunIsTrace(reqs);
    HistoryAt(reqs, logs, choice, limit, window, i + 1);
  }

  /** And its reply says how many more that window holds: the limit, less the earlier admissions in it, and less one. */
  lemma {:induction false} RemainingCountsWindow(reqs: seq<Request>, limit: int, window: int, i: nat)
    requires i < |reqs|
    requires window >= 1 && Nondecreasing(reqs) && FixedPolicy(reqs, limit, window) && FreshMembers(reqs)
    requires Outputs(Step, map[], reqs)[i].allowed
    ensures var reply := Outputs(Step, map[], reqs)[i];
            && reply.limit == limit
            && reply.remaining == limit - CountIn(reqs, Chosen(reqs), i, reqs[i].now - window, reqs[i].now) - 1
  {
    FoundIsCounted(reqs, limit, window, i);
    ReplyAt(reqs, i);
  }

  lemma {:induction false} ReplyAt(reqs: seq<Request>, i: nat)
    requires i < |reqs|
    ensures Accounts(Outputs(Step, map[], reqs)[i], reqs[i].limit,
                     |Prune(Final(Step, map[], reqs[..i]), reqs[i].now - reqs[i].window)|)
  {
    RunAt(Step, map[], reqs, i);
    ReplyAccounts(Final(Step, map[], reqs[..i]), reqs[i]);
  }

  /** Request i finds as many entries as its window holds earlier admissions. */
  lemma {:induction false} FoundIsCounted(reqs: seq<Request>, limit: int, window: int, i: nat)
    requires i < |reqs|
    requires window >= 1 && Nondecreasing(reqs) && FixedPolicy(reqs, limit, window) && FreshMembers(reqs)
    ensures |Prune(Final(Step, map[], reqs[..i]), reqs[i].now - window)|
         == CountIn(reqs, Chosen(reqs), i, reqs[i].now - window, reqs[i].now)
  {
    var logs, choice := RunIsTrace(reqs);
    LiveIsHistory(reqs, logs, choice, limit, window, i);
    HistorySize(reqs, choice, i, reqs[i].now - window, reqs[i].now);
  }

  // ----- Window bounds, with readings out of order -----

  /** No reading lags a reading of an earlier step by more than `lag` ms. */
  ghost predicate Lagging(reqs: seq<Request>, lag: nat) {
    forall i, j :: 0 <= i <= j < |reqs| ==> reqs[i].now - lag <= reqs[j].now
  }

  ghost predicate Holds(log: Log, part: Log, lo: int) { forall m :: m in part ==> m in log && log[m] == part[m] > lo }

  lemma StepHolds(reqs: seq<Request>, choice: seq<bool>, n: nat, log: Log, log': Log, limit: int, window: int, lo: int,
                  hi: int)
    requires 0 < n <= |reqs| == |choice| && FreshMembers(reqs)
    requires Holds(log, History(reqs, choice, n - 1, lo, hi), lo) && reqs[n - 1].now - window <= lo
    requires Decides(Prune(log, reqs[n - 1].now - window), log', reqs[n - 1], choice[n - 1], limit)
    ensures Holds(log', History(reqs, choice, n, lo, hi), lo)
  {
    HistorySize(reqs, choice, n - 1, lo, hi);
  }

  /** While no reading is beyond hi + lag, nothing admitted in (hi - window + lag, hi] has been pruned. */
  lemma {:induction false} RecentStaysLive(reqs: seq<Request>, logs: seq<Log>, choice: seq<bool>, limit: int,
                                           window: int, lag: nat, n: nat, hi: int)
    requires Trace(reqs, logs, choice) && n <= |reqs|
    requires FixedPolicy(reqs, limit, window) && FreshMembers(reqs)
    requires forall i :: 0 <= i < n ==> reqs[i].now <= hi + lag
    ensures Holds(logs[n], History(reqs, choice, n, hi - window + lag, hi), hi - window + lag)
  {
    if n > 0 {
      RecentStaysLive(reqs, logs, choice, limit, window, lag, n - 1, hi);
      TraceStep(reqs, logs, choice, limit, window, n);
      StepHolds(reqs, choice, n, logs[n - 1], logs[n], limit, window, hi - window + lag, hi);
    }
  }

  /** So an admission in such an interval found room for all earlier ones there. */
  lemma RoomAtAdmission(reqs: seq<Request>, logs: seq<Log>, choice: seq<bool>, limit: int, window: int, lag: nat,
                        i: nat, hi: int)
    requires Trace(reqs, logs, choice) && i < |reqs| && choice[i] && reqs[i].now <= hi
    requires FixedPolicy(reqs, limit, window) && FreshMembers(reqs) && Lagging(reqs, lag)
    ensures CountIn(reqs, choice, i, hi - window + lag, hi) < limit
  {
    var recent, live := History(reqs, choice, i, hi - window + lag, hi), Prune(logs[i], reqs[i].now - window);
    RecentStaysLive(reqs, logs, choice, limit, window, lag, i, hi);
    TraceStep(reqs, logs, choice, limit, window, i + 1);
    HistorySize(reqs, choice, i, hi - window + lag, hi);
    SmallerKeys(recent.Keys, live.Keys);
  }

  lemma {:induction false} IntervalBound(reqs: seq<Request>, logs: seq<Log>, choice: seq<bool>, limit: int,
                                         window: int, lag: nat, n: nat, hi: int)
    requires Trace(reqs, logs, choice) && n <= |reqs| && limit >= 0
    requires FixedPolicy(reqs, limit, window) && FreshMembers(reqs) && Lagging(reqs, lag)
    ensures CountIn(reqs, choice, n, hi - window + lag, hi) <= limit
    decreases n
  {
    if n > 0 {
      IntervalBound(reqs, logs, choice, limit, window, lag, n - 1, hi);
      if Hit(reqs, choice, n - 1, hi - window + lag, hi) {
        RoomAtAdmission(reqs, logs, choice, limit, window, lag, n - 1, hi);
      }
    }
  }

  /** If no reading lags by more than `lag`, every half-open interval shorter than the window by the lag, anywhere
      over the whole run, holds at most `limit` admissions. */
  lemma LaggedWindowBound(reqs: seq<Request>, limit: int, window: int, lag: nat, n: nat, hi: int)
    requires n <= |reqs| && limit >= 0
    requires FixedPolicy(reqs, limit, window) && FreshMembers(reqs) && Lagging(reqs, lag)
    ensures CountIn(reqs, Chosen(reqs), n, hi - (window - lag), hi) <= limit
  {
    var logs, choice := RunIsTrace(reqs);
    IntervalBound(reqs, logs, choice, limit, window, lag, n, hi);
  }

  /** With nondecreasing readings, every half-open interval of one window. */
  lemma WindowBound(reqs: seq<Request>, limit: int, window: int, n: nat, hi: int)
    requires n <= |reqs| && limit >= 0
    requires Nondecreasing(reqs) && FixedPolicy(reqs, limit, window) && FreshMembers(reqs)
    ensures CountIn(reqs, Chosen(reqs), n, hi - window, hi) <= limit
  {
    LaggedWindowBound(reqs, limit, window, 0, n, hi);
  }

  // ----- Exactly which intervals the limit bounds -----

  lemma {:induction false} CountWidens(reqs: seq<Request>, choice: seq<bool>, n: nat, lo: int, lo': int, hi: int)
    requires n <= |reqs| == |choice| && lo <= lo'
    ensures CountIn(reqs, choice, n, lo', hi) <= CountIn(reqs, choice, n, lo, hi)
  {
    if n > 0 {
      CountWidens(reqs, choice, n - 1, lo, lo', hi);
    }
  }

  /** A log of one entry, with this score. */
  ghost predicate Single(log: Log, top: int) { |log| == 1 && forall m :: m in log ==> log[m] == top }

  lemma PruneSingle(log: Log, top: int, upTo: int)
    requires Single(log, top)
    ensures Prune(log, upTo) == if top <= upTo then map[] else log
  {
  }

  /** Under a limit of one a log holds one entry after every step, the latest admission, and an admission comes at
      least a window after the one before it. */
  lemma SingleStep(log: Log, top: int, log': Log, r: Request, chosen: bool, window: int) returns (top': int)
    requires window >= 1 && Decides(Prune(log, r.now - window), log', r, chosen, 1)
    requires log == map[] || Single(log, top)
    ensures Single(log', top') && (chosen ==> top' == r.now)
    ensures log == map[] ==> chosen
    ensures log != map[] ==> if chosen then top <= r.now - window else top' == top
  {
    top' := if chosen then r.now else top;
    if log == map[] {
      assert Prune(log, r.now - window) == map[];
    } else {
      PruneSingle(log, top, r.now - window);
    }
  }

  /** No request chosen among the first n has a reading after `top`. */
  ghost predicate NoneAfter(reqs: seq<Request>, choice: seq<bool>, n: nat, top: int)
    requires n <= |reqs| == |choice|
  {
    forall i :: 0 <= i < n && choice[i] ==> reqs[i].now <= top
  }

  lemma NoneAfterStep(reqs: seq<Request>, choice: seq<bool>, n: nat, before: int, top: int)
    requires 0 < n <= |reqs| == |choice| && (n > 1 ==> NoneAfter(reqs, choice, n - 1, before))
    requires n > 1 ==> before <= top
    requires choice[n - 1] ==> reqs[n - 1].now <= top
    ensures NoneAfter(reqs, choice, n, top)
  {
  }

  lemma {:induction false} StaysSingle(reqs: seq<Request>, logs: seq<Log>, choice: seq<bool>, window: int, n: nat)
      returns (top: int)
    requires Trace(reqs, logs, choice) && 0 < n <= |reqs| && window >= 1 && FixedPolicy(reqs, 1, window)
    ensures Single(logs[n], top) && NoneAfter(reqs, choice, n, top)
    ensures choice[n - 1] ==> NoneAfter(reqs, choice, n - 1, reqs[n - 1].now - window)
    decreases n
  {
    var before := 0;
    if n > 1 {
      before := StaysSingle(reqs, logs, choice, window, n - 1);
    }
    TraceStep(reqs, logs, choice, 1, window, n);
    top := SingleStep(logs[n - 1], before, logs[n], reqs[n - 1], choice[n - 1], window);
    NoneAfterStep(reqs, choice, n, before, top);
  }

  lemma {:induction false} NoHits(reqs: seq<Request>, choice: seq<bool>, n: nat, lo: int, hi: int)
    requires n <= |reqs| == |choice| && NoneAfter(reqs, choice, n, lo)
    ensures CountIn(reqs, choice, n, lo, hi) == 0
  {
    if n > 0 {
      NoHits(reqs, choice, n - 1, lo, hi);
    }
  }

  /** A limit of one bounds every window, however the readings are ordered. */
  lemma {:induction false} OneAtATime(reqs: seq<Request>, logs: seq<Log>, choice: seq<bool>, window: int, n: nat,
                                      hi: int)
    requires Trace(reqs, logs, choice) && n <= |reqs| && window >= 1 && FixedPolicy(reqs, 1, window)
    ensures CountIn(reqs, choice, n, hi - window, hi) <= 1
    decreases n
  {
    if n > 0 {
      OneAtATime(reqs, logs, choice, window, n - 1, hi);
      if Hit(reqs, choice, n - 1, hi - window, hi) {
        var top := StaysSingle(reqs, logs, choice, window, n);
        NoHits(reqs, choice, n - 1, hi - window, hi);
      }
    }
  }

  /** A run from an empty store under one policy, with fresh members and bounded lag. */
  ghost predicate LaggedRun(reqs: seq<Request>, limit: int, window: int, lag: nat) {
    FixedPolicy(reqs, limit, window) && FreshMembers(reqs) && Lagging(reqs, lag)
  }

  /** Admissions of a run from an empty store with a reading in (lo, hi]. */
  ghost function AdmittedIn(reqs: seq<Request>, lo: int, hi: int): nat { CountIn(reqs, Chosen(reqs), |reqs|, lo, hi) }

  /** Every half-open interval of this length, in every such run, holds at most `limit` admissions. */
  ghost predicate BoundsIntervals(limit: int, window: int, lag: nat, length: int) {
    forall reqs: seq<Request>, lo: int, hi: int :: LaggedRun(reqs, limit, window, lag) && hi - lo == length ==>
      AdmittedIn(reqs, lo, hi) <= limit
  }

  lemma ShortIntervalsAreBounded(limit: int, window: int, lag: nat, length: int)
    requires limit >= 1 && window >= 1 && (if limit == 1 then length <= window else length <= window - lag)
    ensures BoundsIntervals(limit, window, lag, length)
  {
    forall reqs: seq<Request>, lo: int, hi: int | LaggedRun(reqs, limit, window, lag) && hi - lo == length
      ensures AdmittedIn(reqs, lo, hi) <= limit
    {
      if limit == 1 {
        var logs, choice := RunIsTrace(reqs);
        OneAtATime(reqs, logs, choice, window, |reqs|, hi);
        CountWidens(reqs, Chosen(reqs), |reqs|, hi - window, lo, hi);
      } else {
        LaggedWindowBound(reqs, limit, window, lag, |reqs|, hi);
        CountWidens(reqs, Chosen(reqs), |reqs|, hi - (window - lag), lo, hi);
      }
    }
  }

  /** n requests at time zero, with distinct members. */
  function Salvo(n: nat, limit: int, window: int): (reqs: seq<Request>)
    ensures |reqs| == n && forall i :: 0 <= i < n ==> reqs[i] == Request(0, Uuid(i), limit, window)
  {
    if n == 0 then [] else Salvo(n - 1, limit, window) + [Request(0, Uuid(n - 1), limit, window)]
  }

  ghost predicate ZeroScores(log: Log, n: nat) {
    |log| == n && forall m :: m in log ==> log[m] == 0 && m.bits < n
  }

  lemma ZeroScoresStep(log: Log, n: nat, r: Request)
    requires ZeroScores(log, n) && r.now < r.window
    ensures Step(log, r).1.remaining == Max(0, r.limit - n - 1) && (n < r.limit <==> Step(log, r).1.allowed)
    ensures n < r.limit && r.now == 0 && r.member == Uuid(n) ==> ZeroScores(Step(log, r).0, n + 1)
  {
    assert Prune(log, r.now - r.window) == log;
    StepCases(log, r);
  }

  lemma {:induction false} SalvoFills(n: nat, limit: int, window: int)
    requires n <= limit && window >= 1
    ensures ZeroScores(Final(Step, map[], Salvo(n, limit, window)), n)
    ensures forall i :: 0 <= i < n ==> Outputs(Step, map[], Salvo(n, limit, window))[i].allowed
  {
    if n > 0 {
      var reqs := Salvo(n, limit, window);
      SalvoFills(n - 1, limit, window);
      assert reqs[..n - 1] == Salvo(n - 1, limit, window) && reqs[..n] == reqs;
      RunAt(Step, map[], reqs, n - 1);
      RunPrefix(Step, map[], reqs, n - 1);
      ZeroScoresStep(Final(Step, map[], reqs[..n - 1]), n - 1, reqs[n - 1]);
      forall i | 0 <= i < n ensures Outputs(Step, map[], reqs)[i].allowed {
        assert i < n - 1 ==> Outputs(Step, map[], reqs)[..n - 1][i] == Outputs(Step, map[], reqs)[i];
      }
    }
  }

  /** One request more at the same instant is refused. */
  lemma SalvoOverflows(limit: nat, window: int)
    requires window >= 1
    ensures !Outputs(Step, map[], Salvo(limit + 1, limit, window))[limit].allowed
  {
    var reqs := Salvo(limit + 1, limit, window);
    assert reqs[..limit] == Salvo(limit, limit, window);
    SalvoFills(limit, limit, window);
    RunAt(Step, map[], reqs, limit);
    ZeroScoresStep(Final(Step, map[], reqs[..limit]), limit, reqs[limit]);
  }

  /** A request one window later finds the log empty, and leaves it with itself. */
  lemma SalvoPasses(log: Log, n: nat, r: Request)
    requires ZeroScores(log, n) && r.limit >= 1 && r.now == r.window >= 1
    ensures Step(log, r).1.allowed && Step(log, r).0 == map[r.member := r.now]
  {
    assert Prune(log, r.now - r.window) == map[];
    StepCases(log, r);
  }

  /** A request that lags behind the only entry still finds it there, and room beside it. */
  lemma RoomBesideOne(m: Member, score: nat, r: Request)
    requires r.limit >= 2 && r.now - r.window < score
    ensures Step(map[m := score], r).1.allowed
  {
    assert Prune(map[m := score], r.now - r.window) == map[m := score];
    StepCases(map[m := score], r);
  }

  lemma {:induction false} CountAll(reqs: seq<Request>, choice: seq<bool>, n: nat, m: nat, lo: int, hi: int)
    requires m <= n <= |reqs| == |choice| && forall i :: 0 <= i < m ==> Hit(reqs, choice, i, lo, hi)
    ensures CountIn(reqs, choice, n, lo, hi) >= m
    decreases n
  {
    if m < n {
      CountAll(reqs, choice, n - 1, m, lo, hi);
    } else if n > 0 {
      CountAll(reqs, choice, n - 1, n - 1, lo, hi);
    }
  }

  lemma {:induction false} SalvoHits(limit: nat, window: int, tail: seq<Request>, lo: int, hi: int)
    requires window >= 1 && lo < 0 <= hi
    ensures var reqs := Salvo(limit, limit, window) + tail;
            forall i :: 0 <= i < limit ==> Hit(reqs, Chosen(reqs), i, lo, hi)
  {
    var salvo := Salvo(limit, limit, window);
    SalvoFills(limit, limit, window);
    RunAppend(Step, map[], salvo, tail);
    assert forall i :: 0 <= i < limit ==> (salvo + tail)[i] == salvo[i];
  }

  lemma {:induction false} CountOneMore(reqs: seq<Request>, choice: seq<bool>, m: nat, lo: int, hi: int)
    requires m < |reqs| == |choice| && forall i :: 0 <= i < m ==> Hit(reqs, choice, i, lo, hi)
    requires Hit(reqs, choice, |reqs| - 1, lo, hi)
    ensures CountIn(reqs, choice, |reqs|, lo, hi) > m
  {
    CountAll(reqs, choice, |reqs| - 1, m, lo, hi);
  }

  lemma {:induction false} LastIsChosen(prior: seq<Request>, tail: seq<Request>)
    requires tail != [] && Outputs(Step, Final(Step, map[], prior), tail)[|tail| - 1].allowed
    ensures Chosen(prior + tail)[|prior + tail| - 1]
  {
    RunAppend(Step, map[], prior, tail);
  }

  /** A full salvo, and after it a tail whose last request is admitted within the same interval. */
  lemma {:induction false} SalvoAndOneMore(limit: nat, window: int, tail: seq<Request>, lo: int, hi: int)
    requires window >= 1 && tail != [] && lo < 0 && tail[|tail| - 1].now == hi
    requires Outputs(Step, Final(Step, map[], Salvo(limit, limit, window)), tail)[|tail| - 1].allowed
    ensures AdmittedIn(Salvo(limit, limit, window) + tail, lo, hi) > limit
  {
    SalvoHits(limit, window, tail, lo, hi);
    LastIsChosen(Salvo(limit, limit, window), tail);
    CountOneMore(Salvo(limit, limit, window) + tail, Chosen(Salvo(limit, limit, window) + tail), limit, lo, hi);
  }

  /** One request a window after the salvo, and one that lags behind it. */
  function Tail(limit: nat, window: nat, lag: nat): seq<Request> {
    [Request(window, Uuid(limit), limit, window)]
    + if limit == 1 then [] else [Request(Max(0, window - lag), Uuid(limit + 1), limit, window)]
  }

  lemma {:induction false} TailIsLagged(limit: nat, window: nat, lag: nat)
    ensures LaggedRun(Salvo(limit, limit, window) + Tail(limit, window, lag), limit, window, lag)
  {
  }

  lemma {:induction false} TailIsAdmitted(log: Log, limit: nat, window: nat, lag: nat)
    requires limit >= 1 && window >= 1 && ZeroScores(log, limit)
    ensures var tail := Tail(limit, window, lag); Outputs(Step, log, tail)[|tail| - 1].allowed
  {
    var tail := Tail(limit, window, lag);
    SalvoPasses(log, limit, tail[0]);
    if limit > 1 {
      assert tail[1..] == [tail[1]];
      RoomBesideOne(tail[0].member, tail[0].now, tail[1]);
    }
  }

  lemma LongIntervalsAreNot(limit: int, window: int, lag: nat, length: int)
    requires limit >= 1 && window >= 1 && length >= 1
    requires if limit == 1 then length > window else length > window - lag
    ensures !BoundsIntervals(limit, window, lag, length)
  {
    SalvoFills(limit, limit, window);
    TailIsLagged(limit, window, lag);
    TailIsAdmitted(Final(Step, map[], Salvo(limit, limit, window)), limit, window, lag);
    var tail := Tail(limit, window, lag);
    var hi := tail[|tail| - 1].now;
    SalvoAndOneMore(limit, window, tail, hi - length, hi);
    Unbounded(Salvo(limit, limit, window) + tail, limit, window, lag, hi - length, hi);
  }

  lemma {:induction false} Unbounded(reqs: seq<Request>, limit: int, window: int, lag: nat, lo: int, hi: int)
    requires LaggedRun(reqs, limit, window, lag) && AdmittedIn(reqs, lo, hi) > limit
    ensures !BoundsIntervals(limit, window, lag, hi - lo)
  {
  }

  /** For any interval length: all such intervals of all such runs hold at most `limit` admissions exactly when the
      length is at most the window less the lag, or, under a limit of one, at most the window whatever the lag. */
  lemma BoundsIntervalsIff(limit: int, window: int, lag: nat, length: int)
    requires limit >= 1 && window >= 1 && length >= 1
    ensures BoundsIntervals(limit, window, lag, length)
            <==> if limit == 1 then length <= window else length <= window - lag
  {
    if (if limit == 1 then length <= window else length <= window - lag) {
      ShortIntervalsAreBounded(limit, window, lag, length);
    } else {
      LongIntervalsAreNot(limit, window, lag, length);
    }
  }

  /** Whatever the readings, the sorted set never outgrows the limit. */
  lemma {:induction false} NeverOutgrows(log: Log, reqs: seq<Request>, limit: int, window: int)
    requires FixedPolicy(reqs, limit, window) && |log| <= limit
    ensures |Final(Step, log, reqs)| <= limit
    decreases |reqs|
  {
    if reqs != [] {
      NeverOutgrows(Step(log, reqs[0]).0, reqs[1..], limit, window);
    }
  }

  // ----- Greedy optimality -----

  /** A rival choice of requests that respects the limit in every half-open window. */
  ghost predicate Respects(reqs: seq<Request>, rival: seq<bool>, limit: int, window: int)
    requires |rival| == |reqs|
  {
    forall n: nat, lo: int, hi: int :: n <= |reqs| && hi == lo + window ==> CountIn(reqs, rival, n, lo, hi) <= limit
  }

  /** How many of the first n requests are chosen. */
  function Total(choice: seq<bool>, n: nat): nat
    requires n <= |choice|
  {
    if n == 0 then 0 else Total(choice, n - 1) + (if choice[n - 1] then 1 else 0)
  }

  /** How many of the first n requests have a reading not above `bound`, when readings do not decrease. */
  ghost function Cut(reqs: seq<Request>, n: nat, bound: int): (m: nat)
    requires n <= |reqs| && Nondecreasing(reqs)
    ensures m <= n
    ensures forall i :: 0 <= i < m ==> reqs[i].now <= bound
    ensures forall i :: m <= i < n ==> reqs[i].now > bound
  {
    if n == 0 || reqs[n - 1].now <= bound then n else Cut(reqs, n - 1, bound)
  }

  lemma {:induction false} TotalSplits(reqs: seq<Request>, choice: seq<bool>, m: nat, n: nat, lo: int, hi: int)
    requires m <= n <= |reqs| == |choice|
    requires forall i :: 0 <= i < m ==> reqs[i].now <= lo
    requires forall i :: m <= i < n ==> lo < reqs[i].now <= hi
    ensures Total(choice, n) == Total(choice, m) + CountIn(reqs, choice, n, lo, hi)
    decreases n
  {
    if m < n {
      TotalSplits(reqs, choice, m, n - 1, lo, hi);
    } else if m > 0 {
      TotalSplits(reqs, choice, m - 1, m - 1, lo, hi);
    }
  }

  /** A window in which `choice` is full and the rival is not over the limit keeps `choice` ahead. */
  lemma FullWindow(reqs: seq<Request>, limit: int, window: int, choice: seq<bool>, rival: seq<bool>, n: nat)
    requires 0 < n <= |reqs| == |rival| == |choice| && window >= 1 && Nondecreasing(reqs)
    requires Respects(reqs, rival, limit, window)
    requires var t := reqs[n - 1].now;
             && CountIn(reqs, choice, n, t - window, t) >= limit
             && Total(rival, Cut(reqs, n, t - window)) <= Total(choice, Cut(reqs, n, t - window))
    ensures Total(rival, n) <= Total(choice, n)
  {
    var t := reqs[n - 1].now;
    var m := Cut(reqs, n, t - window);
    TotalSplits(reqs, choice, m, n, t - window, t);
    TotalSplits(reqs, rival, m, n, t - window, t);
    assert CountIn(reqs, rival, n, t - window, t) <= limit;
  }

  lemma RefusalMeansFull(reqs: seq<Request>, limit: int, window: int, rival: seq<bool>, n: nat)
    requires 0 < n <= |reqs| == |rival| && window >= 1 && !Chosen(reqs)[n - 1]
    requires Nondecreasing(reqs) && FixedPolicy(reqs, limit, window) && FreshMembers(reqs)
    requires Respects(reqs, rival, limit, window)
    requires var m := Cut(reqs, n, reqs[n - 1].now - window); Total(rival, m) <= Total(Chosen(reqs), m)
    ensures Total(rival, n) <= Total(Chosen(reqs), n)
  {
    AdmittedIffRoom(reqs, limit, window, n - 1);
    FullWindow(reqs, limit, window, Chosen(reqs), rival, n);
  }

  /** No rival that respects the limit has admitted more than the script in any prefix of the run. */
  lemma {:induction false} GreedyOptimal(reqs: seq<Request>, limit: int, window: int, rival: seq<bool>, n: nat)
    requires n <= |reqs| == |rival| && window >= 1
    requires Nondecreasing(reqs) && FixedPolicy(reqs, limit, window) && FreshMembers(reqs)
    requires Respects(reqs, rival, limit, window)
    ensures Total(rival, n) <= Total(Chosen(reqs), n)
    decreases n
  {
    if n > 0 {
      if Chosen(reqs)[n - 1] {
        GreedyOptimal(reqs, limit, window, rival, n - 1);
      } else {
        var lo := reqs[n - 1].now - window;
        GreedyOptimal(reqs, limit, window, rival, Cut(reqs, n, lo));
        RefusalMeansFull(reqs, limit, window, rival, n);
      }
    }
  }

  /** The script itself respects the limit, so the bound is attained. */
  lemma GreedyRespects(reqs: seq<Request>, limit: int, window: int)
    requires limit >= 0
    requires Nondecreasing(reqs) && FixedPolicy(reqs, limit, window) && FreshMembers(reqs)
    ensures Respects(reqs, Chosen(reqs), limit, window)
  {
    forall n: nat, lo: int, hi: int | n <= |reqs| && hi == lo + window
      ensures CountIn(reqs, Chosen(reqs), n, lo, hi) <= limit
    {
      WindowBound(reqs, limit, window, n, hi);
    }
  }

  // ----- Refused requests leave no trace -----

  lemma PruneComposes(log: Log, early: int, late: int)
    requires early <= late
    ensures Prune(Prune(log, early), late) == Prune(log, late)
  {
  }

  /** Consecutive requests of a steady run: the reading does not go back, the policy stays. */
  ghost predicate Follows(x: Request, y: Request) {
    x.now <= y.now && x.limit == y.limit && x.window == y.window
  }

  /** From request x on, the two logs prune to the same one. */
  ghost predicate SameLive(full: Log, lean: Log, x: Request) {
    Prune(full, x.now - x.window) == Prune(lean, x.now - x.window)
  }

  lemma SameLiveSteps(a: Log, b: Log, x: Request)
    requires SameLive(a, b, x)
    ensures Step(a, x) == Step(b, x)
  {
  }

  lemma RefusalKeepsLive(a: Log, b: Log, x: Request, y: Request)
    requires SameLive(a, b, x) && !Step(a, x).1.allowed && Follows(x, y)
    ensures SameLive(Step(a, x).0, b, y)
  {
    StepCases(a, x);
    PrunedStaysLive(Step(a, x).0, b, x, y);
  }

  lemma PrunedStaysLive(kept: Log, log: Log, x: Request, y: Request)
    requires kept == Prune(log, x.now - x.window) && Follows(x, y)
    ensures SameLive(kept, log, y)
  {
    PruneComposes(log, x.now - x.window, y.now - y.window);
  }

  lemma PruneIsTransparent()
    ensures Transparent(Step, SameLive, Follows)
  {
    forall a, b, x | SameLive(a, b, x) ensures Step(a, x) == Step(b, x) {
      SameLiveSteps(a, b, x);
    }
    forall a, b, x, y | SameLive(a, b, x) && !Step(a, x).1.allowed && Follows(x, y)
      ensures SameLive(Step(a, x).0, b, y)
    {
      RefusalKeepsLive(a, b, x, y);
    }
  }

  /** Deleting any refused requests from a steady run leaves every other reply unchanged. */
  lemma {:induction false} RefusalsLeaveNoTrace(log: Log, reqs: seq<Request>, keep: seq<bool>)
    requires |reqs| == |keep| && Chain(reqs, Follows)
    requires forall i :: 0 <= i < |reqs| && !keep[i] ==> !Outputs(Step, log, reqs)[i].allowed
    ensures Outputs(Step, log, Filter(reqs, keep)) == Filter(Outputs(Step, log, reqs), keep)
  {
    PruneIsTransparent();
    NoTrace(Step, SameLive, Follows, log, log, reqs, keep);
  }

  // ----- Honest Retry-After and Remaining -----

  function Later(r: Request, seconds: nat, member: Member): Request {
    Request(r.now + 1000 * seconds, member, r.limit, r.window)
  }

  /** Pruning makes room exactly when the oldest entry is due. */
  lemma OldestLeaves(log: Log, upTo: int)
    requires |log| > 0
    ensures |Prune(log, upTo)| < |log| <==> Oldest(log) <= upTo
  {
    var kept := Prune(log, upTo);
    if Oldest(log) <= upTo {
      var m :| m in log && log[m] == Oldest(log);
      assert m !in kept;
      SmallerKeys(kept.Keys, log.Keys);
    } else {
      assert kept == log;
    }
  }

  /** Whole seconds from request r until an entry with this score has left the window. */
  function LeavesIn(score: nat, r: Request): int { CeilSeconds(score + r.window - r.now) }

  /** The entries still in the window k seconds after r. */
  ghost function After(live: Log, r: Request, k: int): set<Member> { set m | m in live && LeavesIn(live[m], r) > k }

  lemma KeptIsAfter(live: Log, r: Request, k: nat)
    ensures Prune(live, r.now + 1000 * k - r.window).Keys == After(live, r, k)
    ensures |Prune(live, r.now + 1000 * k - r.window)| == |After(live, r, k)|
  {
    forall m | m in live ensures live[m] > r.now + 1000 * k - r.window <==> LeavesIn(live[m], r) > k {
    }
  }

  /** The client refused at r, and back k whole seconds later. */
  lemma BackAfter(log: Log, r: Request, k: nat, member: Member)
    requires !Step(log, r).1.allowed
    ensures Step(Step(log, r).0, Later(r, k, member)).1.allowed
            <==> |After(Prune(log, r.now - r.window), r, k)| < r.limit
  {
    StepCases(log, r);
    StepCases(Step(log, r).0, Later(r, k, member));
    KeptIsAfter(Prune(log, r.now - r.window), r, k);
  }

  /** The entries that outlast the second in which the oldest one leaves. */
  ghost function Outlasting(live: Log, r: Request): set<Member>
    requires |live| > 0
  {
    After(live, r, LeavesIn(Oldest(live), r))
  }

  ghost predicate HintExact(log: Log, r: Request) {
    forall k: nat, member ::
      Step(Step(log, r).0, Later(r, k, member)).1.allowed <==> k >= Step(log, r).1.retryAfter
  }

  /** Nobody leaves before the oldest; from its second on at most those that outlast it are left. */
  lemma AfterShrinks(live: Log, r: Request, k: int)
    requires |live| > 0
    ensures k < LeavesIn(Oldest(live), r) ==> After(live, r, k) == live.Keys
    ensures k >= LeavesIn(Oldest(live), r) ==> |After(live, r, k)| <= |Outlasting(live, r)|
  {
    if k < LeavesIn(Oldest(live), r) {
      forall m | m in live ensures LeavesIn(live[m], r) > k {
        assert Oldest(live) <= live[m];
      }
    } else {
      SmallerKeys(After(live, r, k), Outlasting(live, r));
    }
  }

  lemma HintIsOldest(log: Log, r: Request)
    requires r.limit >= 1 && !Step(log, r).1.allowed
    ensures var live := Prune(log, r.now - r.window);
            |live| >= r.limit && Step(log, r).1.retryAfter == LeavesIn(Oldest(live), r) >= 1
  {
    StepCases(log, r);
  }

  /** A refused client that returns k whole seconds later is admitted exactly from k = Retry-After on, for every k,
      if and only if fewer than `limit` entries outlast the second in which the oldest one leaves. */
  lemma RetryAfterExactIff(log: Log, r: Request)
    requires r.limit >= 1 && !Step(log, r).1.allowed
    ensures var live := Prune(log, r.now - r.window);
            |live| >= r.limit && (HintExact(log, r) <==> |Outlasting(live, r)| < r.limit)
  {
    var live, hint := Prune(log, r.now - r.window), Step(log, r).1.retryAfter;
    HintIsOldest(log, r);
    BackAfter(log, r, hint, r.member);
    if |Outlasting(live, r)| < r.limit {
      forall k: nat, member ensures Step(Step(log, r).0, Later(r, k, member)).1.allowed <==> k >= hint {
        BackAfter(log, r, k, member);
        AfterShrinks(live, r, k);
      }
    } else {
      assert !Step(Step(log, r).0, Later(r, hint, r.member)).1.allowed && hint >= hint;
    }
  }

  /** A log no larger than the limit, which every run under one policy keeps (NeverOutgrows), meets the condition. */
  lemma RetryAfterExact(log: Log, r: Request, k: nat, member: Member)
    requires r.limit >= 1 && |log| <= r.limit
    requires !Step(log, r).1.allowed
    ensures Step(log, r).1.retryAfter >= 1
    ensures Step(Step(log, r).0, Later(r, k, member)).1.allowed <==> k >= Step(log, r).1.retryAfter
  {
    var live := Prune(log, r.now - r.window);
    HintIsOldest(log, r);
    OldestIsOut(live, r);
    RetryAfterExactIff(log, r);
  }

  lemma OldestIsOut(live: Log, r: Request)
    requires |live| > 0
    ensures |Outlasting(live, r)| < |live|
  {
    var m :| m in live && live[m] == Oldest(live);
    assert m !in Outlasting(live, r);
    SmallerKeys(Outlasting(live, r), live.Keys);
  }

  lemma OldestIs(log: Log, m: Member)
    requires m in log && forall k :: k in log ==> log[m] <= log[k]
    ensures |log| > 0 && Oldest(log) == log[m]
  {
    assert log.Keys != {};
    assert IsOldest(log, Oldest(log));
  }

  /** Two entries left by a limit of two, and a request under a limit of one. */
  function LoweredLog(): Log { map[Uuid(0) := 0, Uuid(1) := 1000] }

  const LOWERED := Request(5000, Uuid(2), 1, 10000)

  lemma LoweredLogStays()
    ensures Prune(LoweredLog(), LOWERED.now - LOWERED.window) == LoweredLog()
    ensures |LoweredLog()| == 2 && Oldest(LoweredLog()) == 0
    ensures After(LoweredLog(), LOWERED, 5) == {Uuid(1)}
  {
    assert LoweredLog().Keys == {Uuid(0), Uuid(1)};
    OldestIs(LoweredLog(), Uuid(0));
  }

  /** An edit that lowers the limit can leave more behind: here the hint is 5 and the client is refused at it. */
  lemma LoweredLimitMisleads()
    ensures !Step(LoweredLog(), LOWERED).1.allowed && Step(LoweredLog(), LOWERED).1.retryAfter == 5
    ensures !Step(Step(LoweredLog(), LOWERED).0, Later(LOWERED, 5, Uuid(3))).1.allowed
  {
    LoweredLogStays();
    StepCases(LoweredLog(), LOWERED);
    HintIsOldest(LoweredLog(), LOWERED);
    BackAfter(LoweredLog(), LOWERED, 5, Uuid(3));
  }

  /** The same with any refused requests of the client in between. */
  lemma {:induction false} RetryAfterExactAmongRefusals(log: Log, r: Request, between: seq<Request>, k: nat,
                                                        member: Member)
    requires r.limit >= 1 && |log| <= r.limit
    requires !Step(log, r).1.allowed
    requires Chain(between + [Later(r, k, member)], Follows)
    requires forall i :: 0 <= i < |between| ==> !Outputs(Step, Step(log, r).0, between)[i].allowed
    ensures Step(Final(Step, Step(log, r).0, between), Later(r, k, member)).1.allowed
            <==> k >= Step(log, r).1.retryAfter
  {
    PruneIsTransparent();
    AllRefused(Step, SameLive, Follows, Step(log, r).0, Step(log, r).0, between, Later(r, k, member));
    RetryAfterExact(log, r, k, member);
  }

  /** So in any run from an empty store under one policy: a client refused at any point and, after any refusals,
      back k whole seconds later is admitted exactly when k >= its Retry-After. */
  lemma {:induction false} RetryAfterExactInRuns(reqs: seq<Request>, r: Request, between: seq<Request>, k: nat,
                                                 member: Member)
    requires r.limit >= 1 && FixedPolicy(reqs, r.limit, r.window)
    requires var log := Final(Step, map[], reqs);
             && !Step(log, r).1.allowed
             && forall i :: 0 <= i < |between| ==> !Outputs(Step, Step(log, r).0, between)[i].allowed
    requires Chain(between + [Later(r, k, member)], Follows)
    ensures var log := Final(Step, map[], reqs);
            Step(Final(Step, Step(log, r).0, between), Later(r, k, member)).1.allowed
            <==> k >= Step(log, r).1.retryAfter
  {
    NeverOutgrows(map[], reqs, r.limit, r.window);
    RetryAfterExactAmongRefusals(Final(Step, map[], reqs), r, between, k, member);
  }

  lemma {:induction false} RoomForAll(log: Log, reqs: seq<Request>, limit: int, window: int)
    requires FixedPolicy(reqs, limit, window) && |log| + |reqs| <= limit
    ensures forall i :: 0 <= i < |reqs| ==> Outputs(Step, log, reqs)[i].allowed
    decreases |reqs|
  {
    if reqs != [] {
      RoomForAll(Step(log, reqs[0]).0, reqs[1..], limit, window);
    }
  }

  lemma {:induction false} FillAtOneReading(log: Log, reqs: seq<Request>, limit: int, window: int, now: nat)
    requires reqs != [] && FixedPolicy(reqs, limit, window) && FreshMembers(reqs)
    requires forall i :: 0 <= i < |reqs| ==> reqs[i].now == now && reqs[i].member !in log
    requires forall m :: m in log ==> log[m] > now - window
    requires |log| + |reqs| - 1 >= limit && window >= 1
    ensures !Outputs(Step, log, reqs)[|reqs| - 1].allowed
    decreases |reqs|
  {
    assert Prune(log, now - window) == log;
    if |reqs| > 1 {
      FillAtOneReading(Step(log, reqs[0]).0, reqs[1..], limit, window, now);
    }
  }

  /** Remaining = n promises exactly n: the next n requests are admitted at any readings, and of n+1
      requests at the same reading the last is refused. */
  lemma {:induction false} RemainingIsAPromise(log: Log, r: Request, reqs: seq<Request>)
    requires r.limit >= 1
    requires FixedPolicy(reqs, r.limit, r.window)
    ensures Step(log, r).1.remaining >= 0
    ensures |reqs| <= Step(log, r).1.remaining ==>
              forall i :: 0 <= i < |reqs| ==> Outputs(Step, Step(log, r).0, reqs)[i].allowed
    ensures r.window >= 1 && |reqs| == Step(log, r).1.remaining + 1 && FreshMembers(reqs) && r.member !in log
            && (forall i :: 0 <= i < |reqs| ==>
                reqs[i].now == r.now && reqs[i].member != r.member && reqs[i].member !in log)
            ==> !Outputs(Step, Step(log, r).0, reqs)[|reqs| - 1].allowed
  {
    var log' := Step(log, r).0;
    if 0 < |reqs| <= Step(log, r).1.remaining {
      RoomForAll(log', reqs, r.limit, r.window);
    }
    if r.window >= 1 && |reqs| == Step(log, r).1.remaining + 1 && FreshMembers(reqs) && r.member !in log
       && (forall i :: 0 <= i < |reqs| ==>
           reqs[i].now == r.now && reqs[i].member != r.member && reqs[i].member !in log) {
      FillAtOneReading(log', reqs, r.limit, r.window, r.now);
    }
  }
}

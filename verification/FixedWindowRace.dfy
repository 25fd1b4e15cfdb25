/** Any number of FixedWindow.Allow calls, on any number of instances, interleaved command by command. */
module FixedWindowRace {
  import opened Prelude
  import opened FixedWindow

  /** A counter's name: the client and the window id computed from the caller's own clock. */
  datatype Key = Key(client: string, id: int)

  /** One INCR that took place: its key, which life of that key it counted in, its count, and the Redis time. */
  datatype Entry = Entry(key: Key, life: nat, count: nat, clock: int)

  /** Where a call is. `at` is the position of its INCR in the history. */
  datatype Phase =
    | Ready(key: Key)
    | Counted(key: Key, at: nat)
    | Settled(key: Key, at: nat)
    | Replied(key: Key, at: nat)
    | Stopped

  /** `life` numbers the latest incarnation of each key; `owners` gives the key of each incarnation. */
  datatype State = State(
    clock: int,
    counters: map<Key, Counter>,
    life: map<Key, nat>,
    owners: seq<Key>,
    phases: map<nat, Phase>,
    history: seq<Entry>)

  datatype Action =
    | Arrive(r: nat, client: string, now: nat)  // the call reads its clock, in seconds
    | Increment(r: nat)
    | SetExpiry(r: nat)                         // only after a count of one
    | ReadTtl(r: nat)
    | Stop(r: nat)                              // a failed command, or a crashed instance
    | Tick(ms: nat)

  function Init(): State { State(0, map[], map[], [], map[], []) }

  predicate Enabled(s: State, a: Action) {
    match a
    case Arrive(r, _, _) => r !in s.phases
    case Increment(r) => r in s.phases && s.phases[r].Ready?
    case SetExpiry(r) => r in s.phases && s.phases[r].Counted? && s.phases[r].at < |s.history|
      && s.history[s.phases[r].at].count == 1
    case ReadTtl(r) =>
      r in s.phases && (s.phases[r].Settled?
        || (s.phases[r].Counted? && s.phases[r].at < |s.history| && s.history[s.phases[r].at].count != 1))
    case Stop(r) => r in s.phases && !s.phases[r].Replied?
    case Tick(_) => true
  }

  function DoIncrement(s: State, r: nat): State
    requires Enabled(s, Increment(r))
  {
    var k := s.phases[r].key;
    var next := Incr(s.counters, k, s.clock);
    var born := Find(s.counters, k, s.clock).None? || k !in s.life;
    var life := if born then |s.owners| else s.life[k];
    s.(counters := next.0,
       life := s.life[k := life],
       owners := if born then s.owners + [k] else s.owners,
       phases := s.phases[r := Counted(k, |s.history|)],
       history := s.history + [Entry(k, life, next.1, s.clock)])
  }

  /** One step for windows of `window` seconds, of either sign; an action that is not enabled changes nothing. */
  function Step(window: int, s: State, a: Action): State
    requires window != 0
  {
    if !Enabled(s, a) then s
    else
      match a
      case Arrive(r, client, now) => s.(phases := s.phases[r := Ready(Key(client, GoQuotient(now, window)))])
      case Increment(r) => DoIncrement(s, r)
      case SetExpiry(r) =>
        var p := s.phases[r];
        s.(counters := Expire(s.counters, p.key, s.clock, 1000 * window), phases := s.phases[r := Settled(p.key, p.at)])
      case ReadTtl(r) => s.(phases := s.phases[r := Replied(s.phases[r].key, s.phases[r].at)])
      case Stop(r) => s.(phases := s.phases[r := Stopped])
      case Tick(ms) => s.(clock := s.clock + ms)
  }

  function Run(window: int, s: State, actions: seq<Action>): State
    requires window != 0
    decreases |actions|
  {
    if actions == [] then s else Run(window, Step(window, s, actions[0]), actions[1..])
  }

  lemma {:induction false} RunAppend(window: int, s: State, xs: seq<Action>, ys: seq<Action>)
    requires window != 0
    ensures Run(window, s, xs + ys) == Run(window, Run(window, s, xs), ys)
    decreases |xs|
  {
    if xs == [] {
      assert xs + ys == ys;
    } else {
      assert (xs + ys)[1..] == xs[1..] + ys;
      RunAppend(window, Step(window, s, xs[0]), xs[1..], ys);
    }
  }

  lemma {:induction false} RunCons(window: int, s: State, a: Action, rest: seq<Action>)
    requires window != 0
    ensures Run(window, s, [a] + rest) == Run(window, Step(window, s, a), rest)
  {
    assert ([a] + rest)[1..] == rest;
  }

  /** The steps of a call that nothing interrupts. */
  function Alone(r: nat, client: string, now: nat, first: bool): seq<Action> {
    [Arrive(r, client, now), Increment(r)] + (if first then [SetExpiry(r)] else []) + [ReadTtl(r)]
  }

  lemma {:induction false} AloneUnfolds(window: int, s: State, r: nat, client: string, now: nat, first: bool)
    requires window != 0
    ensures var counted := Step(window, Step(window, s, Arrive(r, client, now)), Increment(r));
            Run(window, s, Alone(r, client, now, first))
            == Step(window, if first then Step(window, counted, SetExpiry(r)) else counted, ReadTtl(r))
  {
    var tail := (if first then [SetExpiry(r)] else []) + [ReadTtl(r)];
    var s1 := Step(window, s, Arrive(r, client, now));
    var s2 := Step(window, s1, Increment(r));
    assert Alone(r, client, now, first) == [Arrive(r, client, now)] + ([Increment(r)] + tail);
    RunCons(window, s, Arrive(r, client, now), [Increment(r)] + tail);
    RunCons(window, s1, Increment(r), tail);
    if first {
      RunCons(window, s2, SetExpiry(r), [ReadTtl(r)]);
    } else {
      assert tail == [ReadTtl(r)];
    }
    assert [ReadTtl(r)] == [ReadTtl(r)] + [];
    RunCons(window, if first then Step(window, s2, SetExpiry(r)) else s2, ReadTtl(r), []);
  }

  /** A call that runs alone does to the counters what FixedWindow.Commands says and ends with its count. */
  lemma AloneIsCommands(window: int, s: State, r: nat, client: string, now: nat)
    requires window != 0 && r !in s.phases
    ensures var k := Key(client, GoQuotient(now, window));
            var done := Commands(s.counters, k, s.clock, s.clock, window);
            var t := Run(window, s, Alone(r, client, now, done.1 == 1));
            && t.counters == done.0 && t.phases == s.phases[r := Replied(k, |s.history|)]
            && |t.history| == |s.history| + 1 && t.history[|s.history|].count == done.1
  {
    var k := Key(client, GoQuotient(now, window));
    AloneUnfolds(window, s, r, client, now, Commands(s.counters, k, s.clock, s.clock, window).1 == 1);
  }

  // ----- Counts in one life of a key -----

  /** How many of the first n history entries belong to a life. */
  function InLife(history: seq<Entry>, n: nat, life: nat): nat
    requires n <= |history|
  {
    if n == 0 then 0 else InLife(history, n - 1, life) + (if history[n - 1].life == life then 1 else 0)
  }

  /** How many of the first n entries of a life have a count within the limit. */
  function InLifeWithin(history: seq<Entry>, n: nat, life: nat, limit: int): nat
    requires n <= |history|
  {
    if n == 0 then 0
    else
      InLifeWithin(history, n - 1, life, limit)
      + (if history[n - 1].life == life && history[n - 1].count <= limit then 1 else 0)
  }

  /** Every INCR got the count that follows the INCRs before it in the same life: each life hands out
      1, 2, 3 and so on, without gap or repetition. */
  ghost predicate Numbered(history: seq<Entry>) {
    forall i :: 0 <= i < |history| ==> history[i].count == InLife(history, i, history[i].life) + 1
  }

  /** The history is numbered, every entry belongs to a life of its own key, and the counters agree. */
  ghost predicate Consistent(s: State) {
    && Numbered(s.history)
    && (forall i :: 0 <= i < |s.history| ==> EntryOwned(s, s.history[i]))
    && s.counters.Keys <= s.life.Keys
    && (forall k :: k in s.counters ==> CounterOwned(s, k))
  }

  ghost predicate EntryOwned(s: State, e: Entry) {
    e.life < |s.owners| && s.owners[e.life] == e.key && e.key in s.life
  }

  ghost predicate CounterOwned(s: State, k: Key)
    requires k in s.counters && k in s.life
  {
    s.life[k] < |s.owners| && s.owners[s.life[k]] == k
      && s.counters[k].count == InLife(s.history, |s.history|, s.life[k])
  }

  lemma {:induction false} InLifeAppend(history: seq<Entry>, e: Entry, n: nat, life: nat)
    requires n <= |history|
    ensures InLife(history + [e], n, life) == InLife(history, n, life)
  {
    if n > 0 {
      InLifeAppend(history, e, n - 1, life);
    }
  }

  lemma {:induction false} NumberedAppend(history: seq<Entry>, e: Entry)
    requires Numbered(history) && e.count == InLife(history, |history|, e.life) + 1
    ensures Numbered(history + [e])
  {
    forall i | 0 <= i < |history + [e]|
      ensures (history + [e])[i].count == InLife(history + [e], i, (history + [e])[i].life) + 1
    {
      InLifeAppend(history, e, i, (history + [e])[i].life);
    }
  }

  /** The entry an INCR adds to the history. */
  function NewEntry(s: State, r: nat): Entry
    requires Enabled(s, Increment(r))
  {
    DoIncrement(s, r).history[|s.history|]
  }

  lemma IncrementCounts(s: State, r: nat)
    requires Consistent(s) && Enabled(s, Increment(r))
    ensures var s', e := DoIncrement(s, r), NewEntry(s, r);
            && s'.history == s.history + [e] && e.key == s.phases[r].key
            && e.count == InLife(s.history, |s.history|, e.life) + 1
            && s.owners <= s'.owners && e.life < |s'.owners| && s'.owners[e.life] == e.key
            && e.key in s'.counters && s'.counters[e.key].count == e.count
            && s'.counters.Keys == s.counters.Keys + {e.key} && s'.life == s.life[e.key := e.life]
            && forall k :: k in s.counters && k != e.key ==> s'.counters[k] == s.counters[k]
  {
    assert forall i :: 0 <= i < |s.history| ==> EntryOwned(s, s.history[i]);
    NoneInLife(s.history, |s.history|, |s.owners|);
    var k := s.phases[r].key;
    if k in s.counters {
      assert CounterOwned(s, k);
    }
  }

  lemma EntriesStayOwned(s: State, r: nat, i: nat)
    requires Consistent(s) && Enabled(s, Increment(r)) && i <= |s.history|
    ensures var s' := DoIncrement(s, r); EntryOwned(s', s'.history[i])
  {
    IncrementCounts(s, r);
    if i < |s.history| {
      assert EntryOwned(s, s.history[i]);
    }
  }

  lemma CounterStaysOwned(s: State, r: nat, k: Key)
    requires Consistent(s) && Enabled(s, Increment(r)) && k in DoIncrement(s, r).counters
    ensures k in DoIncrement(s, r).life && CounterOwned(DoIncrement(s, r), k)
  {
    var s', e := DoIncrement(s, r), NewEntry(s, r);
    IncrementCounts(s, r);
    if k != e.key {
      assert CounterOwned(s, k);
      assert s'.owners[s.life[k]] == k && s'.owners[e.life] == e.key;
      assert e.life != s.life[k];
      InLifeOneMore(s.history, e, s.life[k]);
    } else {
      InLifeOneMore(s.history, e, e.life);
    }
  }

  lemma {:induction false} InLifeOneMore(history: seq<Entry>, e: Entry, life: nat)
    ensures InLife(history + [e], |history| + 1, life)
            == InLife(history, |history|, life) + (if e.life == life then 1 else 0)
  {
    InLifeAppend(history, e, |history|, life);
  }

  lemma IncrementKeepsConsistent(s: State, r: nat)
    requires Consistent(s) && Enabled(s, Increment(r))
    ensures Consistent(DoIncrement(s, r))
  {
    var s' := DoIncrement(s, r);
    IncrementCounts(s, r);
    NumberedAppend(s.history, s'.history[|s.history|]);
    forall i: nat | i < |s'.history| ensures EntryOwned(s', s'.history[i]) {
      EntriesStayOwned(s, r, i);
    }
    forall k | k in s'.counters ensures CounterOwned(s', k) {
      CounterStaysOwned(s, r, k);
    }
  }

  lemma StepKeepsConsistent(window: int, s: State, a: Action)
    requires window != 0 && Consistent(s)
    ensures Consistent(Step(window, s, a))
  {
    if a.Increment? && Enabled(s, a) {
      IncrementKeepsConsistent(s, a.r);
    }
  }

  /** In every reachable state, each life of a counter has handed out exactly 1..n. */
  lemma {:induction false} RunKeepsConsistent(window: int, s: State, actions: seq<Action>)
    requires window != 0 && Consistent(s)
    ensures Consistent(Run(window, s, actions))
    decreases |actions|
  {
    if actions != [] {
      StepKeepsConsistent(window, s, actions[0]);
      RunKeepsConsistent(window, Step(window, s, actions[0]), actions[1..]);
    }
  }

  /** So of the n calls counted in one life exactly min(n, limit) get a count within the limit. */
  lemma {:induction false} MinOfLifeWithin(history: seq<Entry>, n: nat, life: nat, limit: nat)
    requires n <= |history| && Numbered(history)
    ensures InLifeWithin(history, n, life, limit) == Min(InLife(history, n, life), limit)
  {
    if n > 0 {
      MinOfLifeWithin(history, n - 1, life, limit);
    }
  }

  /** No count is handed out twice in a life. */
  lemma {:induction false} CountsIncrease(history: seq<Entry>, i: nat, j: nat)
    requires i < j < |history| && Numbered(history) && history[i].life == history[j].life
    ensures history[i].count < history[j].count
  {
    InLifeGrows(history, i + 1, j, history[i].life);
  }

  lemma {:induction false} InLifeGrows(history: seq<Entry>, m: nat, n: nat, life: nat)
    requires m <= n <= |history|
    ensures InLife(history, m, life) <= InLife(history, n, life)
    decreases n
  {
    if m < n {
      InLifeGrows(history, m, n - 1, life);
    }
  }

  /** Whatever stopped or crashed before, and wherever, the first INCR for a window no call has used is
      counted 1 and so within any positive limit. */
  lemma {:induction false} UnusedWindowIsOpen(window: int, actions: seq<Action>, r: nat)
    requires window != 0
    requires var s := Run(window, Init(), actions);
             Enabled(s, Increment(r)) && forall i :: 0 <= i < |s.history| ==> s.history[i].key != s.phases[r].key
    ensures var s := Run(window, Init(), actions);
            var h := Step(window, s, Increment(r)).history;
            |h| == |s.history| + 1 && h[|s.history|].key == s.phases[r].key && h[|s.history|].count == 1
  {
    var s := Run(window, Init(), actions);
    RunKeepsConsistent(window, Init(), actions);
    IncrementCounts(s, r);
    var e := NewEntry(s, r);
    forall i | 0 <= i < |s.history| ensures s.history[i].life != e.life {
      assert EntryOwned(s, s.history[i]);
    }
    NoneInLife(s.history, |s.history|, e.life);
  }

  lemma {:induction false} NoneInLife(history: seq<Entry>, n: nat, life: nat)
    requires n <= |history| && forall i :: 0 <= i < |history| ==> history[i].life != life
    ensures InLife(history, n, life) == 0
  {
    if n > 0 {
      NoneInLife(history, n - 1, life);
    }
  }

  predicate Incremented(p: Phase) { p.Counted? || p.Settled? || p.Replied? }

  /** Every call past its INCR owns one entry of the history, and no two calls own the same one. */
  ghost predicate Linked(s: State) {
    && (forall r :: r in s.phases && Incremented(s.phases[r]) ==>
          s.phases[r].at < |s.history| && s.history[s.phases[r].at].key == s.phases[r].key)
    && (forall r, q ::
          r in s.phases && q in s.phases && r != q && Incremented(s.phases[r]) && Incremented(s.phases[q]) ==>
          s.phases[r].at != s.phases[q].at)
  }

  lemma StepKeepsLinked(window: int, s: State, a: Action)
    requires window != 0 && Linked(s)
    ensures Linked(Step(window, s, a))
  {
  }

  lemma {:induction false} RunKeepsLinked(window: int, s: State, actions: seq<Action>)
    requires window != 0 && Linked(s)
    ensures Linked(Run(window, s, actions))
    decreases |actions|
  {
    if actions != [] {
      StepKeepsLinked(window, s, actions[0]);
      RunKeepsLinked(window, Step(window, s, actions[0]), actions[1..]);
    }
  }

  /** In every interleaving, two calls that counted in the same life of a key hold different counts. */
  lemma {:induction false} CallsHoldDistinctCounts(window: int, actions: seq<Action>, r: nat, q: nat)
    requires window != 0 && r != q
    requires var s := Run(window, Init(), actions);
             && r in s.phases && q in s.phases && Incremented(s.phases[r]) && Incremented(s.phases[q])
    ensures var s := Run(window, Init(), actions);
            && s.phases[r].at < |s.history| && s.phases[q].at < |s.history|
            && var e, f := s.history[s.phases[r].at], s.history[s.phases[q].at];
               e.life == f.life ==> e.key == f.key && e.count != f.count
  {
    var s := Run(window, Init(), actions);
    RunKeepsConsistent(window, Init(), actions);
    RunKeepsLinked(window, Init(), actions);
    var i, j := s.phases[r].at, s.phases[q].at;
    assert EntryOwned(s, s.history[i]) && EntryOwned(s, s.history[j]);
    if s.history[i].life == s.history[j].life {
      CountsIncrease(s.history, if i < j then i else j, if i < j then j else i);
    }
  }

  // ----- Negative windows: EXPIRE deletes -----

  /** INCRs of a key since the last EXPIRE on it, after a run from the start. */
  function Since(window: int, actions: seq<Action>, k: Key): nat
    requires window != 0
  {
    if actions == [] then 0
    else
      var n := |actions| - 1;
      var s, a, prior := Run(window, Init(), actions[..n]), actions[n], Since(window, actions[..n], k);
      if Enabled(s, a) && a.Increment? && s.phases[a.r].key == k then prior + 1
      else if Enabled(s, a) && a.SetExpiry? && s.phases[a.r].key == k then 0
      else prior
  }

  lemma {:induction false} RunSnoc(window: int, actions: seq<Action>)
    requires window != 0 && actions != []
    ensures var n := |actions| - 1;
            Run(window, Init(), actions) == Step(window, Run(window, Init(), actions[..n]), actions[n])
  {
    var n := |actions| - 1;
    var s := Run(window, Init(), actions[..n]);
    assert actions == actions[..n] + ([actions[n]] + []);
    RunAppend(window, Init(), actions[..n], [actions[n]] + []);
    RunCons(window, s, actions[n], []);
  }

  /** With a negative window a counter counts the INCRs since the last EXPIRE, and never gets a deadline. */
  lemma {:induction false} NegativeCounts(window: int, actions: seq<Action>, k: Key)
    requires window < 0
    ensures var s, n := Run(window, Init(), actions), Since(window, actions, k);
            if n == 0 then k !in s.counters else k in s.counters && s.counters[k] == Counter(n, None)
    decreases |actions|
  {
    if actions != [] {
      RunSnoc(window, actions);
      NegativeCounts(window, actions[..|actions| - 1], k);
    }
  }

  /** At the end of the run, or at some moment before, more than `limit` INCRs of one key have gone by without an
      EXPIRE on it. */
  ghost predicate TooMany(window: int, actions: seq<Action>, limit: nat)
    requires window != 0
    decreases |actions|
  {
    || (exists k :: Since(window, actions, k) > limit)
    || (actions != [] && TooMany(window, actions[..|actions| - 1], limit))
  }

  ghost predicate Exceeds(history: seq<Entry>, limit: nat) {
    exists i :: 0 <= i < |history| && history[i].count > limit
  }

  /** The last action hands out a count above the limit exactly when it makes its key's INCRs too many. */
  lemma {:induction false} LastExceeds(window: int, actions: seq<Action>, limit: nat)
    requires window < 0 && actions != []
    ensures var n := |actions| - 1;
            var h, h' := Run(window, Init(), actions[..n]).history, Run(window, Init(), actions).history;
            && (Exceeds(h', limit) ==> Exceeds(h, limit) || exists k :: Since(window, actions, k) > limit)
            && (Exceeds(h, limit) ==> Exceeds(h', limit))
            && ((exists k :: Since(window, actions, k) > limit && Since(window, actions[..n], k) <= limit) ==>
                Exceeds(h', limit))
  {
    var n := |actions| - 1;
    var s, a := Run(window, Init(), actions[..n]), actions[n];
    RunSnoc(window, actions);
    var h, h' := s.history, Run(window, Init(), actions).history;
    if Enabled(s, a) && a.Increment? {
      var k := s.phases[a.r].key;
      NegativeCounts(window, actions[..n], k);
      assert h' == h + [NewEntry(s, a.r)];
      assert h'[|h|].count == Since(window, actions, k);
    } else {
      assert h' == h;
    }
    if i :| 0 <= i < |h| && h[i].count > limit {
      assert h'[i].count > limit;
    }
  }

  /** With a negative window some call of a run is counted above the limit exactly when at some moment of it more
      than `limit` INCRs of one window id have gone by with no EXPIRE on that key in between. */
  lemma {:induction false} NegativeExceedsIff(window: int, actions: seq<Action>, limit: nat)
    requires window < 0
    ensures Exceeds(Run(window, Init(), actions).history, limit) <==> TooMany(window, actions, limit)
    decreases |actions|
  {
    if actions != [] {
      var n := |actions| - 1;
      NegativeExceedsIff(window, actions[..n], limit);
      LastExceeds(window, actions, limit);
      if k :| Since(window, actions, k) > limit && Since(window, actions[..n], k) > limit {
        assert TooMany(window, actions[..n], limit);
      }
    }
  }

  // ----- Calls that count and stop there -----

  /** n calls at one reading, numbered from `base`, that go no further than INCR. */
  function Crowd(now: nat, base: nat, n: nat): seq<Action> {
    if n == 0 then [] else Crowd(now, base, n - 1) + [Arrive(base + n - 1, "", now), Increment(base + n - 1)]
  }

  /** They count 1 to n in a fresh life of their key. */
  ghost predicate Crowded(s: State, t: State, k: Key, base: nat, n: nat) {
    && t.clock == s.clock && |t.history| == |s.history| + n && s.history <= t.history
    && (forall i :: |s.history| <= i < |t.history| ==>
        t.history[i].key == k && t.history[i].count == i - |s.history| + 1)
    && (forall r: nat :: r >= base + n ==> r !in t.phases)
    && (if n == 0 then t.counters == s.counters
        else k in t.counters && t.counters[k] == Counter(n, None)
             && base in t.phases && t.phases[base] == Counted(k, |s.history|))
  }

  lemma {:induction false} CrowdMore(window: int, s: State, t: State, now: nat, base: nat, n: nat)
    requires window != 0 && Find(s.counters, Key("", GoQuotient(now, window)), s.clock).None?
    requires Crowded(s, t, Key("", GoQuotient(now, window)), base, n)
    ensures var t' := Step(window, Step(window, t, Arrive(base + n, "", now)), Increment(base + n));
            && Crowded(s, t', Key("", GoQuotient(now, window)), base, n + 1)
            && Run(window, t, [Arrive(base + n, "", now), Increment(base + n)]) == t'
  {
    var arrived := Step(window, t, Arrive(base + n, "", now));
    assert [Arrive(base + n, "", now), Increment(base + n)]
           == [Arrive(base + n, "", now)] + ([Increment(base + n)] + []);
    RunCons(window, t, Arrive(base + n, "", now), [Increment(base + n)] + []);
    RunCons(window, arrived, Increment(base + n), []);
  }

  lemma {:induction false} CrowdCounts(window: int, s: State, now: nat, base: nat, n: nat)
    requires window != 0 && Find(s.counters, Key("", GoQuotient(now, window)), s.clock).None?
    requires forall r: nat :: r >= base ==> r !in s.phases
    ensures Crowded(s, Run(window, s, Crowd(now, base, n)), Key("", GoQuotient(now, window)), base, n)
    decreases n
  {
    if n > 0 {
      CrowdCounts(window, s, now, base, n - 1);
      RunAppend(window, s, Crowd(now, base, n - 1), [Arrive(base + n - 1, "", now), Increment(base + n - 1)]);
      CrowdMore(window, s, Run(window, s, Crowd(now, base, n - 1)), now, base, n - 1);
    }
  }

  /** So whatever the window, the limiter refuses somebody in some interleaving: calls that count before any EXPIRE
      succeeds are counted beyond any limit. */
  lemma {:induction false} EveryWindowCanRefuse(window: int, limit: nat)
    requires window != 0
    ensures Exceeds(Run(window, Init(), Crowd(0, 0, limit + 1)).history, limit)
  {
    CrowdCounts(window, Init(), 0, 0, limit + 1);
    var h := Run(window, Init(), Crowd(0, 0, limit + 1)).history;
    assert h[limit].count == limit + 1;
  }
}

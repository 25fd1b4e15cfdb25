/** What the fixed window admits when callers' clocks and Redis's clock differ by so much and no more. */
module FixedWindowBounds {
  import opened Prelude
  import FW = FixedWindow
  import opened FixedWindowRace

  /** Length of a window in Redis time. */
  function Length(window: int): int { 1000 * window }

  function Start(id: int, window: int): int { id * Length(window) }

  /** A Redis time at most `early` ms before the first ms of a window, and at most `late` ms after its last one. */
  predicate Near(id: int, window: int, clock: int, early: nat, late: nat) {
    Start(id, window) - early <= clock < Start(id, window) + Length(window) + late
  }

  /** INCR runs near the window its key names. */
  predicate OnTime(window: int, s: State, a: Action, early: nat, late: nat) {
    a.Increment? && Enabled(s, a) ==> Near(s.phases[a.r].key.id, window, s.clock, early, late)
  }

  ghost predicate OnTimeRun(window: int, s: State, actions: seq<Action>, early: nat, late: nat)
    requires window >= 1
    decreases |actions|
  {
    actions == []
    || (OnTime(window, s, actions[0], early, late)
        && OnTimeRun(window, Step(window, s, actions[0]), actions[1..], early, late))
  }

  // ----- Admissions and lives of a key -----

  /** Admissions (counts within the limit) among the first n INCRs, for one key. */
  function KeyWithin(history: seq<Entry>, n: nat, k: Key, limit: int): nat
    requires n <= |history|
  {
    if n == 0 then 0
    else
      KeyWithin(history, n - 1, k, limit)
      + (if history[n - 1].key == k && history[n - 1].count <= limit then 1 else 0)
  }

  /** Lives of a key among the first n INCRs: each begins with a count of one. */
  function Births(history: seq<Entry>, n: nat, k: Key): nat
    requires n <= |history|
  {
    if n == 0 then 0
    else Births(history, n - 1, k) + (if history[n - 1].key == k && history[n - 1].count == 1 then 1 else 0)
  }

  /** When the latest of these lives began. */
  function LastBirth(history: seq<Entry>, n: nat, k: Key): int
    requires n <= |history|
  {
    if n == 0 then 0
    else if history[n - 1].key == k && history[n - 1].count == 1 then history[n - 1].clock
    else LastBirth(history, n - 1, k)
  }

  lemma {:induction false} CountsAppend(history: seq<Entry>, e: Entry, n: nat, k: Key, limit: int)
    requires n <= |history|
    ensures KeyWithin(history + [e], n, k, limit) == KeyWithin(history, n, k, limit)
    ensures Births(history + [e], n, k) == Births(history, n, k)
    ensures LastBirth(history + [e], n, k) == LastBirth(history, n, k)
  {
    if n > 0 {
      CountsAppend(history, e, n - 1, k, limit);
    }
  }

  /** What is known of a key in a run whose INCRs are near their windows: its lives follow one another a window and
      a millisecond apart, and each has admitted at most the limit. */
  ghost predicate Graded(s: State, window: int, k: Key, early: nat, late: nat, limit: nat) {
    var h, n := s.history, |s.history|;
    if k !in s.counters then Births(h, n, k) == 0 && KeyWithin(h, n, k, limit) == 0
    else
      && Births(h, n, k) >= 1 && LastBirth(h, n, k) <= s.clock
      && (s.counters[k].deadline.Some? ==> s.counters[k].deadline.value >= LastBirth(h, n, k) + Length(window))
      && KeyWithin(h, n, k, limit) <= Multiple(Births(h, n, k) - 1, limit) + Min(s.counters[k].count, limit)
      && Near(k.id, window, LastBirth(h, n, k), early, late)
      && LastBirth(h, n, k) >= Start(k.id, window) - early + Multiple(Births(h, n, k) - 1, Length(window) + 1)
  }

  /** INCR on the key itself. */
  lemma OwnIncrement(s: State, r: nat, window: int, k: Key, early: nat, late: nat, limit: nat)
    requires window >= 1 && Graded(s, window, k, early, late, limit)
    requires Enabled(s, Increment(r)) && s.phases[r].key == k && Near(k.id, window, s.clock, early, late)
    ensures Graded(DoIncrement(s, r), window, k, early, late, limit)
  {
    var s' := DoIncrement(s, r);
    var e := s'.history[|s.history|];
    assert s'.history == s.history + [e] && e.key == k && e.clock == s.clock;
    CountsAppend(s.history, e, |s.history|, k, limit);
    if FW.Find(s.counters, k, s.clock).None? {
      assert s'.counters[k] == FW.Counter(1, None) && e.count == 1;
      assert Births(s'.history, |s'.history|, k) == Births(s.history, |s.history|, k) + 1;
    } else {
      assert e.count == s.counters[k].count + 1;
    }
  }

  lemma OtherIncrement(s: State, r: nat, window: int, k: Key, early: nat, late: nat, limit: nat)
    requires window >= 1 && Graded(s, window, k, early, late, limit)
    requires Enabled(s, Increment(r)) && s.phases[r].key != k
    ensures Graded(DoIncrement(s, r), window, k, early, late, limit)
  {
    var s' := DoIncrement(s, r);
    var e := s'.history[|s.history|];
    assert s'.history == s.history + [e];
    CountsAppend(s.history, e, |s.history|, k, limit);
  }

  lemma StepKeepsGraded(window: int, s: State, a: Action, k: Key, early: nat, late: nat, limit: nat)
    requires window >= 1 && Graded(s, window, k, early, late, limit) && OnTime(window, s, a, early, late)
    ensures Graded(Step(window, s, a), window, k, early, late, limit)
  {
    if Enabled(s, a) && a.Increment? {
      if s.phases[a.r].key == k {
        OwnIncrement(s, a.r, window, k, early, late, limit);
      } else {
        OtherIncrement(s, a.r, window, k, early, late, limit);
      }
    }
  }

  lemma {:induction false} RunKeepsGraded(window: int, s: State, actions: seq<Action>, k: Key, early: nat, late: nat,
                                          limit: nat)
    requires window >= 1 && Graded(s, window, k, early, late, limit) && OnTimeRun(window, s, actions, early, late)
    ensures Graded(Run(window, s, actions), window, k, early, late, limit)
    decreases |actions|
  {
    if actions != [] {
      StepKeepsGraded(window, s, actions[0], k, early, late, limit);
      RunKeepsGraded(window, Step(window, s, actions[0]), actions[1..], k, early, late, limit);
    }
  }

  /** In any run whose INCRs are that near their windows, the lives of a key, a window and a millisecond each, fit
      into the time in which it can be counted; and it admits at most the limit per life. */
  lemma {:induction false} LivesFit(window: int, actions: seq<Action>, k: Key, early: nat, late: nat, limit: nat)
    requires window >= 1 && OnTimeRun(window, Init(), actions, early, late)
    ensures var h := Run(window, Init(), actions).history;
            var lives := Births(h, |h|, k);
            && (lives == 0 || Multiple(lives - 1, Length(window) + 1) < Length(window) + early + late)
            && KeyWithin(h, |h|, k, limit) <= Multiple(lives, limit)
  {
    RunKeepsGraded(window, Init(), actions, k, early, late, limit);
  }

  /** As many lives as fit. */
  function MaxLives(window: int, early: nat, late: nat): (lives: nat)
    requires window >= 1
  {
    QuotientMonotone(0, Length(window) + early + late - 1, Length(window) + 1);
    Quotient(Length(window) + early + late - 1, Length(window) + 1) + 1
  }

  lemma FewerLives(lives: nat, each: nat, room: int, most: nat)
    requires lives == 0 || Multiple(lives - 1, each) < room
    requires most * each >= room
    ensures lives <= most
  {
    if lives > most {
      MultipleMonotone(most, lives - 1, each);
      MultipleIsProduct(most, each);
    }
  }

  lemma MaxLivesSuffice(window: int, early: nat, late: nat)
    requires window >= 1
    ensures MaxLives(window, early, late) * (Length(window) + 1) >= Length(window) + early + late
  {
    var q := Quotient(Length(window) + early + late - 1, Length(window) + 1);
    assert (q + 1) * (Length(window) + 1) == q * (Length(window) + 1) + (Length(window) + 1);
  }

  // ----- Exactly how many limits a window id may see -----

  /** No window id of any run whose INCRs are that near sees more than m limits of admissions. */
  ghost predicate LimitsHold(window: int, limit: nat, early: nat, late: nat, m: nat)
    requires window >= 1
  {
    forall actions: seq<Action>, k: Key :: OnTimeRun(window, Init(), actions, early, late) ==>
      KeyWithin(Run(window, Init(), actions).history, |Run(window, Init(), actions).history|, k, limit) <= m * limit
  }

  lemma {:induction false} KeyBound(window: int, actions: seq<Action>, k: Key, early: nat, late: nat, limit: nat,
                                    m: nat)
    requires window >= 1 && OnTimeRun(window, Init(), actions, early, late)
    requires m * (Length(window) + 1) >= Length(window) + early + late
    ensures var h := Run(window, Init(), actions).history; KeyWithin(h, |h|, k, limit) <= Multiple(m, limit)
  {
    var h := Run(window, Init(), actions).history;
    LivesFit(window, actions, k, early, late, limit);
    FewerLives(Births(h, |h|, k), Length(window) + 1, Length(window) + early + late, m);
    MultipleMonotone(Births(h, |h|, k), m, limit);
  }

  lemma LimitsSuffice(window: int, limit: nat, early: nat, late: nat, m: nat)
    requires window >= 1 && m * (Length(window) + 1) >= Length(window) + early + late
    ensures LimitsHold(window, limit, early, late, m)
  {
    forall actions: seq<Action>, k: Key | OnTimeRun(window, Init(), actions, early, late)
      ensures KeyWithin(Run(window, Init(), actions).history, |Run(window, Init(), actions).history|, k, limit)
              <= m * limit
    {
      KeyBound(window, actions, k, early, late, limit, m);
      MultipleIsProduct(m, limit);
    }
  }

  // ----- A run that sees that many -----

  lemma {:induction false} OnTimeAppend(window: int, s: State, xs: seq<Action>, ys: seq<Action>, early: nat, late: nat)
    requires window >= 1
    ensures OnTimeRun(window, s, xs, early, late) && OnTimeRun(window, Run(window, s, xs), ys, early, late)
            ==> OnTimeRun(window, s, xs + ys, early, late)
    decreases |xs|
  {
    if xs == [] {
      assert xs + ys == ys;
    } else {
      assert (xs + ys)[1..] == xs[1..] + ys;
      OnTimeAppend(window, Step(window, s, xs[0]), xs[1..], ys, early, late);
    }
  }

  lemma {:induction false} OnTimeCons(window: int, s: State, a: Action, rest: seq<Action>, early: nat, late: nat)
    requires window >= 1
    ensures OnTimeRun(window, s, [a] + rest, early, late)
            <==> OnTime(window, s, a, early, late) && OnTimeRun(window, Step(window, s, a), rest, early, late)
  {
    assert ([a] + rest)[1..] == rest;
  }

  /** The client whose window `id` the run is about. */
  function Target(id: nat): Key { Key("", id) }

  /** A whole limit of calls, the first of which sets the time to live; then the key dies. */
  function Round(window: nat, id: nat, base: nat, limit: nat): seq<Action> {
    Crowd(id * window, base, limit) + [SetExpiry(base), Tick(1000 * window + 1)]
  }

  function Rounds(window: nat, id: nat, limit: nat, m: nat): seq<Action> {
    if m == 0 then [] else Rounds(window, id, limit, m - 1) + Round(window, id, (m - 1) * limit, limit)
  }

  lemma TargetReading(window: int, id: nat)
    requires window >= 1
    ensures id * window >= 0 && FW.GoQuotient(id * window, window) == id
  {
    SameQuotient(id * window, id, window);
  }

  lemma {:induction false} CrowdOnTime(window: int, s: State, id: nat, base: nat, n: nat, early: nat, late: nat)
    requires window >= 1 && Near(id, window, s.clock, early, late)
    requires FW.Find(s.counters, Target(id), s.clock).None? && forall r: nat :: r >= base ==> r !in s.phases
    ensures OnTimeRun(window, s, Crowd(id * window, base, n), early, late)
    decreases n
  {
    if n > 0 {
      TargetReading(window, id);
      CrowdOnTime(window, s, id, base, n - 1, early, late);
      CrowdCounts(window, s, id * window, base, n - 1);
      var t, r := Run(window, s, Crowd(id * window, base, n - 1)), base + n - 1;
      var arrived := Step(window, t, Arrive(r, "", id * window));
      OnTimeCons(window, arrived, Increment(r), [], early, late);
      OnTimeCons(window, t, Arrive(r, "", id * window), [Increment(r)] + [], early, late);
      assert [Arrive(r, "", id * window), Increment(r)] == [Arrive(r, "", id * window)] + ([Increment(r)] + []);
      OnTimeAppend(window, s, Crowd(id * window, base, n - 1), [Arrive(r, "", id * window), Increment(r)], early, late);
    }
  }

  lemma {:induction false} AllWithin(h: seq<Entry>, h': seq<Entry>, n: nat, k: Key, limit: int)
    requires h <= h' && |h| <= n <= |h'|
    requires forall i :: |h| <= i < |h'| ==> h'[i].key == k && h'[i].count <= limit
    ensures KeyWithin(h', n, k, limit) == KeyWithin(h, |h|, k, limit) + (n - |h|)
    decreases n
  {
    if n > |h| {
      AllWithin(h, h', n - 1, k, limit);
    } else {
      SamePrefix(h, h', n, k, limit);
    }
  }

  lemma {:induction false} SamePrefix(h: seq<Entry>, h': seq<Entry>, n: nat, k: Key, limit: int)
    requires n <= |h| && h <= h'
    ensures KeyWithin(h', n, k, limit) == KeyWithin(h, n, k, limit)
  {
    if n > 0 {
      SamePrefix(h, h', n - 1, k, limit);
    }
  }

  /** Between rounds: the target's counter is dead or absent, and so many limits have been admitted. */
  ghost predicate Rested(s: State, id: nat, base: nat, admitted: int, limit: nat) {
    && FW.Find(s.counters, Target(id), s.clock).None? && (forall r: nat :: r >= base ==> r !in s.phases)
    && KeyWithin(s.history, |s.history|, Target(id), limit) == admitted
  }

  lemma {:induction false} RoundAdmits(window: int, s: State, id: nat, base: nat, admitted: int, limit: nat,
                                       early: nat, late: nat)
    requires window >= 1 && limit >= 1 && Rested(s, id, base, admitted, limit) && Near(id, window, s.clock, early, late)
    ensures var t := Run(window, s, Round(window, id, base, limit));
            && Rested(t, id, base + limit, admitted + limit, limit) && t.clock == s.clock + Length(window) + 1
            && OnTimeRun(window, s, Round(window, id, base, limit), early, late)
  {
    var crowd, w := Crowd(id * window, base, limit), 1000 * window + 1;
    var t := Run(window, s, crowd);
    TargetReading(window, id);
    CrowdCounts(window, s, id * window, base, limit);
    CrowdOnTime(window, s, id, base, limit, early, late);
    AllWithin(s.history, t.history, |t.history|, Target(id), limit);
    var dated := Step(window, t, SetExpiry(base));
    assert dated.counters[Target(id)].deadline == Some(s.clock + Length(window));
    assert [SetExpiry(base), Tick(w)] == [SetExpiry(base)] + ([Tick(w)] + []);
    RunAppend(window, s, crowd, [SetExpiry(base), Tick(w)]);
    RunCons(window, t, SetExpiry(base), [Tick(w)] + []);
    RunCons(window, dated, Tick(w), []);
    OnTimeCons(window, dated, Tick(w), [], early, late);
    OnTimeCons(window, t, SetExpiry(base), [Tick(w)] + [], early, late);
    OnTimeAppend(window, s, crowd, [SetExpiry(base), Tick(w)], early, late);
  }

  lemma {:induction false} RoundsAdmit(window: int, s: State, id: nat, m: nat, limit: nat, early: nat, late: nat)
    requires window >= 1 && limit >= 1 && Rested(s, id, 0, 0, limit) && s.clock == Start(id, window) - early
    requires m == 0 || Multiple(m - 1, Length(window) + 1) < Length(window) + early + late
    ensures var t := Run(window, s, Rounds(window, id, limit, m));
            && Rested(t, id, m * limit, m * limit, limit) && t.clock == s.clock + Multiple(m, Length(window) + 1)
            && OnTimeRun(window, s, Rounds(window, id, limit, m), early, late)
    decreases m
  {
    if m > 0 {
      var prior := Rounds(window, id, limit, m - 1);
      var t := Run(window, s, prior);
      MultipleMonotone(if m == 1 then 0 else m - 2, m - 1, Length(window) + 1);
      MultipleMonotone(0, m - 1, Length(window) + 1);
      RoundsAdmit(window, s, id, m - 1, limit, early, late);
      RoundAdmits(window, t, id, (m - 1) * limit, (m - 1) * limit, limit, early, late);
      RunAppend(window, s, prior, Round(window, id, (m - 1) * limit, limit));
      OnTimeAppend(window, s, prior, Round(window, id, (m - 1) * limit, limit), early, late);
      assert (m - 1) * limit + limit == m * limit;
    }
  }

  lemma LimitsFail(window: int, limit: nat, early: nat, late: nat, m: nat)
    requires window >= 1 && limit >= 1 && m * (Length(window) + 1) < Length(window) + early + late
    ensures !LimitsHold(window, limit, early, late, m)
  {
    var id := early + 1;
    ProductMonotone(1, Length(window), id);
    assert Start(id, window) - early >= 0;
    var tick := Tick(Start(id, window) - early);
    var s := Step(window, Init(), tick);
    var rounds := Rounds(window, id, limit, m + 1);
    MultipleIsProduct(m, Length(window) + 1);
    RoundsAdmit(window, s, id, m + 1, limit, early, late);
    RunCons(window, Init(), tick, rounds);
    OnTimeCons(window, Init(), tick, rounds, early, late);
    var actions := [tick] + rounds;
    ProductMonotone(m, m + 1, limit);
    assert (m + 1) * limit == m * limit + limit;
    assert OnTimeRun(window, Init(), actions, early, late);
    assert KeyWithin(Run(window, Init(), actions).history, |Run(window, Init(), actions).history|, Target(id),
                     limit) > m * limit;
  }

  /** With INCRs at most `early` ms before and `late` ms after their windows, every window id of every run sees at most
      m limits of admissions exactly when m lives of a window and a millisecond cover the time in which it can be
      counted. */
  lemma LimitsHoldIff(window: int, limit: nat, early: nat, late: nat, m: nat)
    requires window >= 1 && limit >= 1
    ensures LimitsHold(window, limit, early, late, m)
            <==> m * (Length(window) + 1) >= Length(window) + early + late
  {
    if m * (Length(window) + 1) >= Length(window) + early + late {
      LimitsSuffice(window, limit, early, late, m);
    } else {
      LimitsFail(window, limit, early, late, m);
    }
  }

  /** The limit itself holds for every window of every run exactly when INCRs are off by at most one millisecond,
      early and late together: a key is still live at its deadline. */
  lemma LimitHoldsIffOnTime(window: int, limit: nat, early: nat, late: nat)
    requires window >= 1 && limit >= 1
    ensures LimitsHold(window, limit, early, late, 1) <==> early + late <= 1
  {
    LimitsHoldIff(window, limit, early, late, 1);
  }

  // ----- Any interval of Redis time -----

  /** Admissions of one client among the first n INCRs with a window id in [from, to). */
  function IdsWithin(history: seq<Entry>, n: nat, client: string, from: int, to: int, limit: int): nat
    requires n <= |history|
  {
    if n == 0 then 0
    else
      var e := history[n - 1];
      IdsWithin(history, n - 1, client, from, to, limit)
      + (if e.key.client == client && from <= e.key.id < to && e.count <= limit then 1 else 0)
  }

  /** Admissions of one client among the first n INCRs that ran at a Redis time in [lo, hi). */
  function ClientWithin(history: seq<Entry>, n: nat, client: string, lo: int, hi: int, limit: int): nat
    requires n <= |history|
  {
    if n == 0 then 0
    else
      var e := history[n - 1];
      ClientWithin(history, n - 1, client, lo, hi, limit)
      + (if e.key.client == client && lo <= e.clock < hi && e.count <= limit then 1 else 0)
  }

  lemma {:induction false} IdsSplit(history: seq<Entry>, n: nat, client: string, from: int, to: int, limit: int)
    requires n <= |history| && from <= to
    ensures IdsWithin(history, n, client, from, to + 1, limit)
         == IdsWithin(history, n, client, from, to, limit) + KeyWithin(history, n, Key(client, to), limit)
  {
    if n > 0 {
      IdsSplit(history, n - 1, client, from, to, limit);
      var k := history[n - 1].key;
      assert k == Key(client, to) <==> k.client == client && k.id == to;
    }
  }

  lemma {:induction false} NoIds(history: seq<Entry>, n: nat, client: string, from: int, limit: int)
    requires n <= |history|
    ensures IdsWithin(history, n, client, from, from, limit) == 0
  {
    if n > 0 {
      NoIds(history, n - 1, client, from, limit);
    }
  }

  lemma {:induction false} IdsBound(h: seq<Entry>, client: string, from: int, width: nat, limit: nat, each: nat)
    requires forall k: Key :: KeyWithin(h, |h|, k, limit) <= each
    ensures IdsWithin(h, |h|, client, from, from + width, limit) <= Multiple(width, each)
    decreases width
  {
    if width == 0 {
      NoIds(h, |h|, client, from, limit);
    } else {
      IdsBound(h, client, from, width - 1, limit, each);
      IdsSplit(h, |h|, client, from, from + width - 1, limit);
    }
  }

  ghost predicate AllNear(h: seq<Entry>, window: int, early: nat, late: nat) {
    forall i :: 0 <= i < |h| ==> Near(h[i].key.id, window, h[i].clock, early, late)
  }

  lemma StepKeepsNear(window: int, s: State, a: Action, early: nat, late: nat)
    requires window >= 1 && AllNear(s.history, window, early, late) && OnTime(window, s, a, early, late)
    ensures AllNear(Step(window, s, a).history, window, early, late)
  {
  }

  lemma {:induction false} RunKeepsNear(window: int, s: State, actions: seq<Action>, early: nat, late: nat)
    requires window >= 1 && AllNear(s.history, window, early, late) && OnTimeRun(window, s, actions, early, late)
    ensures AllNear(Run(window, s, actions).history, window, early, late)
    decreases |actions|
  {
    if actions != [] {
      StepKeepsNear(window, s, actions[0], early, late);
      RunKeepsNear(window, Step(window, s, actions[0]), actions[1..], early, late);
    }
  }

  /** The window ids that can be counted in [lo, hi). */
  lemma IdInRange(id: int, clock: int, window: int, early: nat, late: nat, lo: int, hi: int)
    requires window >= 1 && Near(id, window, clock, early, late) && lo <= clock < hi
    ensures Quotient(lo - late, Length(window)) <= id <= Quotient(hi - 1 + early, Length(window))
  {
    var w := Length(window);
    var p, q := Quotient(lo - late, w), Quotient(hi - 1 + early, w);
    if p > id {
      ProductMonotone(id + 1, p, w);
      assert false;
    }
    if id > q {
      ProductMonotone(q + 1, id, w);
      assert false;
    }
  }

  lemma {:induction false} ClientWithinIds(history: seq<Entry>, n: nat, client: string, lo: int, hi: int, from: int,
                                           to: int, limit: nat)
    requires n <= |history|
    requires forall i :: 0 <= i < |history| && lo <= history[i].clock < hi ==> from <= history[i].key.id < to
    ensures ClientWithin(history, n, client, lo, hi, limit) <= IdsWithin(history, n, client, from, to, limit)
  {
    if n > 0 {
      ClientWithinIds(history, n - 1, client, lo, hi, from, to, limit);
    }
  }

  lemma {:induction false} NearIds(h: seq<Entry>, window: int, client: string, early: nat, late: nat, lo: int, hi: int,
                                   limit: nat)
    requires window >= 1 && AllNear(h, window, early, late)
    ensures var from, to := Quotient(lo - late, Length(window)), Quotient(hi - 1 + early, Length(window)) + 1;
            ClientWithin(h, |h|, client, lo, hi, limit) <= IdsWithin(h, |h|, client, from, to, limit)
  {
    var from, to := Quotient(lo - late, Length(window)), Quotient(hi - 1 + early, Length(window)) + 1;
    forall i | 0 <= i < |h| && lo <= h[i].clock < hi ensures from <= h[i].key.id < to {
      IdInRange(h[i].key.id, h[i].clock, window, early, late, lo, hi);
    }
    ClientWithinIds(h, |h|, client, lo, hi, from, to, limit);
  }

  /** Windows needed to cover T ms. */
  function CeilWindows(t: int, window: int): int
    requires window >= 1
  {
    Quotient(t + Length(window) - 1, Length(window))
  }

  lemma WindowsMet(lo: int, hi: int, window: int)
    requires window >= 1 && lo < hi
    ensures 0 <= Quotient(hi - 1, Length(window)) - Quotient(lo, Length(window)) <= CeilWindows(hi - lo, window)
  {
    var w := Length(window);
    var a, b, c := Quotient(lo, w), Quotient(hi - 1, w), CeilWindows(hi - lo, window);
    QuotientMonotone(lo, hi - 1, w);
    assert (a + c + 1) * w == a * w + c * w + w;
    if b >= a + c + 1 {
      ProductMonotone(a + c + 1, b, w);
      assert false;
    }
  }

  lemma EachKeyBound(window: int, actions: seq<Action>, early: nat, late: nat, limit: nat)
    requires window >= 1 && OnTimeRun(window, Init(), actions, early, late)
    ensures var h := Run(window, Init(), actions).history;
            forall k: Key :: KeyWithin(h, |h|, k, limit) <= MaxLives(window, early, late) * limit
  {
    var h := Run(window, Init(), actions).history;
    MaxLivesSuffice(window, early, late);
    LimitsSuffice(window, limit, early, late, MaxLives(window, early, late));
  }

  /** Any interval of T ms, aligned or not, sees at most (ceil((T + early + late) / W) + 1) window ids of a client, each
      with at most the limit per life: with INCRs exactly on time, (ceil(T / W) + 1) limits. */
  lemma {:induction false} IntervalBound(window: int, actions: seq<Action>, client: string, early: nat, late: nat,
                                         lo: int, hi: int, limit: nat)
    requires window >= 1 && lo < hi && OnTimeRun(window, Init(), actions, early, late)
    ensures var h := Run(window, Init(), actions).history;
            ClientWithin(h, |h|, client, lo, hi, limit)
            <= (CeilWindows(hi - lo + early + late, window) + 1) * (MaxLives(window, early, late) * limit)
  {
    var h, each := Run(window, Init(), actions).history, MaxLives(window, early, late) * limit;
    var from, to := Quotient(lo - late, Length(window)), Quotient(hi - 1 + early, Length(window)) + 1;
    RunKeepsNear(window, Init(), actions, early, late);
    NearIds(h, window, client, early, late, lo, hi, limit);
    EachKeyBound(window, actions, early, late, limit);
    WindowsMet(lo - late, hi + early, window);
    IdsBound(h, client, from, to - from, limit, each);
    MultipleMonotone(to - from, CeilWindows(hi - lo + early + late, window) + 1, each);
    MultipleIsProduct(CeilWindows(hi - lo + early + late, window) + 1, each);
  }

  lemma OneLife(window: int)
    requires window >= 1
    ensures MaxLives(window, 0, 0) == 1 && CeilWindows(Length(window), window) == 1
  {
    SameQuotient(Length(window) - 1, 0, Length(window) + 1);
    SameQuotient(2 * Length(window) - 1, 1, Length(window));
  }

  /** On time, at most twice the limit in any interval as long as a window. */
  lemma TwoLimitsPerWindow(window: int, actions: seq<Action>, client: string, lo: int, limit: nat)
    requires window >= 1 && OnTimeRun(window, Init(), actions, 0, 0)
    ensures var h := Run(window, Init(), actions).history;
            ClientWithin(h, |h|, client, lo, lo + Length(window), limit) <= 2 * limit
  {
    OneLife(window);
    IntervalBound(window, actions, client, 0, 0, lo, lo + Length(window), limit);
  }

  /** And at most the limit in an aligned window. */
  lemma OneLimitPerAlignedWindow(window: int, actions: seq<Action>, client: string, id: int, limit: nat)
    requires window >= 1 && OnTimeRun(window, Init(), actions, 0, 0)
    ensures var h := Run(window, Init(), actions).history;
            ClientWithin(h, |h|, client, Start(id, window), Start(id, window) + Length(window), limit) <= limit
  {
    var h, lo, w := Run(window, Init(), actions).history, Start(id, window), Length(window);
    RunKeepsNear(window, Init(), actions, 0, 0);
    SameQuotient(lo, id, w);
    SameQuotient(lo + w - 1, id, w);
    NearIds(h, window, client, 0, 0, lo, lo + w, limit);
    NoIds(h, |h|, client, id, limit);
    IdsSplit(h, |h|, client, id, id, limit);
    KeyBound(window, actions, Key(client, id), 0, 0, limit, 1);
    MultipleIsProduct(1, limit);
  }
}

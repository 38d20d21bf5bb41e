/**
The lock-free stopwatch: one 64-bit atomic word whose top bit is a lock, updated by
compare-and-swap retry loops.  Threads are step machines around load, clock read, test and swap;
a swap may fail spuriously.  The clock is an input that never decreases and stays below 2^63.

As in the join protocol a schedule is any sequence of step requests, and a request that is not
enabled changes nothing.
*/
module AtomicStopwatch {

  const LOCK: nat := 0x8000_0000_0000_0000
  const WORD: nat := 0x1_0000_0000_0000_0000

  /** The top bit of a word. */
  predicate Locked(word: nat) { word >= LOCK }

  /** The word with its top bit cleared (`& 0x7FFF...`). */
  function Low(word: nat): (r: nat)
    requires word < WORD
    ensures r < LOCK
  {
    if word >= LOCK then word - LOCK else word
  }

  /** Unsigned 64-bit addition. */
  function Add(a: nat, b: nat): (r: nat)
    requires a < WORD && b < WORD
    ensures r < WORD
  {
    if a + b >= WORD then a + b - WORD else a + b
  }

  /** `nanoseconds(prev)`: the clock, or `prev` if the clock is behind it, without the top bit. */
  function Nanoseconds(prev: nat, clock: nat): (r: nat)
    requires prev < WORD && clock < LOCK
    ensures r < LOCK
  {
    Low(if prev <= clock then clock else prev)
  }

  datatype Op = Restart | Deferred

  datatype Thread =
    | Idle
    | Loaded(op: Op, threshold: nat, cur: nat)             // start_ns loaded
    | Testing(op: Op, threshold: nat, cur: nat, now: nat)  // at the head of the retry loop
    | Swapping(op: Op, threshold: nat, cur: nat, now: nat) // tests passed
    | Holding                                              // owns a Lock
    | Unlocking(now: nat)                                  // ~Lock: clock read, store pending

  datatype State = State(start: nat, clock: nat, threads: seq<Thread>, wins: nat)

  datatype Step =
    | Tick(to: nat)
    | Begin(t: nat, op: Op, threshold: nat)
    | ReadClock(t: nat)
    | Test(t: nat)
    | Swap(t: nat, spurious: bool)
    | Release(t: nat)
    | Store(t: nat)

  predicate WellFormed(s: State) {
    && s.start < WORD && s.clock < LOCK
    && forall i | 0 <= i < |s.threads| :: WellFormedThread(s.threads[i])
  }

  predicate WellFormedThread(t: Thread) {
    match t
    case Loaded(_, threshold, cur) => threshold < WORD && cur < WORD
    case Testing(_, threshold, cur, now) => threshold < WORD && cur < WORD && now < LOCK
    case Swapping(_, threshold, cur, now) => threshold < WORD && cur < WORD && now < LOCK
    case Unlocking(now) => now < LOCK
    case _ => true
  }

  predicate Enabled(s: State, step: Step) {
    match step
    case Tick(to) => s.clock <= to < LOCK
    case Begin(t, _, threshold) => t < |s.threads| && s.threads[t].Idle? && threshold < WORD
    case ReadClock(t) => t < |s.threads| && s.threads[t].Loaded?
    case Test(t) => t < |s.threads| && s.threads[t].Testing?
    case Swap(t, _) => t < |s.threads| && s.threads[t].Swapping?
    case Release(t) => t < |s.threads| && s.threads[t].Holding?
    case Store(t) => t < |s.threads| && s.threads[t].Unlocking?
  }

  /** The two tests of the retry loop. */
  predicate Passes(op: Op, threshold: nat, cur: nat, now: nat)
    requires threshold < WORD && cur < WORD
  {
    !(op.Deferred? && Locked(cur)) && now >= Add(cur, threshold)
  }

  function Apply(s: State, step: Step): (s': State)
    requires WellFormed(s)
    ensures WellFormed(s') && |s'.threads| == |s.threads|
  {
    if !Enabled(s, step) then s else
    match step
    case Tick(to) => s.(clock := to)
    case Begin(t, op, threshold) => s.(threads := s.threads[t := Loaded(op, threshold, s.start)])
    case ReadClock(t) =>
      var Loaded(op, threshold, cur) := s.threads[t];
      s.(threads := s.threads[t := Testing(op, threshold, cur, Nanoseconds(cur, s.clock))])
    case Test(t) =>
      var Testing(op, threshold, cur, now) := s.threads[t];
      s.(threads := s.threads[t := if Passes(op, threshold, cur, now) then Swapping(op, threshold, cur, now) else Idle])
    case Swap(t, spurious) =>
      var Swapping(op, threshold, cur, now) := s.threads[t];
      if spurious || s.start != cur then s.(threads := s.threads[t := Testing(op, threshold, s.start, now)])
      else if op.Restart? then s.(start := now, wins := s.wins + 1, threads := s.threads[t := Idle])
      else s.(start := now + LOCK, wins := s.wins + 1, threads := s.threads[t := Holding])
    case Release(t) => s.(threads := s.threads[t := Unlocking(Nanoseconds(0, s.clock))])
    case Store(t) => s.(start := s.threads[t].now, threads := s.threads[t := Idle])
  }

  function Initial(now: nat, threads: nat): (s: State)
    requires now < LOCK
    ensures WellFormed(s)
  {
    State(now, now, seq(threads, _ => Idle), 0)
  }

  function Exec(s: State, schedule: seq<Step>): (s': State)
    requires WellFormed(s)
    ensures WellFormed(s') && |s'.threads| == |s.threads|
    decreases |schedule|
  {
    if schedule == [] then s
    else Apply(Exec(s, schedule[..|schedule| - 1]), schedule[|schedule| - 1])
  }

  /** Thread `t` owns a live Lock. */
  predicate Owns(t: Thread) { t.Holding? || t.Unlocking? }

  function Owners(s: State): set<nat> {
    set i: nat | i < |s.threads| && Owns(s.threads[i])
  }

  /** All clock readings stay up to `horizon` and all thresholds up to `most`. */
  predicate Within(step: Step, horizon: nat, most: nat) {
    match step
    case Tick(to) => to <= horizon
    case Begin(_, _, threshold) => threshold <= most
    case _ => true
  }

  // ---------------------------------------------------------------- invariant

  ghost predicate ThreadInv(s: State, t: Thread, most: nat)
    requires WellFormed(s) && WellFormedThread(t)
  {
    match t
    case Idle => true
    case Loaded(_, threshold, cur) => threshold <= most && Low(cur) <= s.clock
    case Testing(_, threshold, cur, now) => threshold <= most && Low(cur) <= s.clock && now <= s.clock
    case Swapping(_, threshold, cur, now) => threshold <= most && !Locked(cur) && cur + threshold <= now <= s.clock
    case Holding => true
    case Unlocking(now) => Low(s.start) <= now <= s.clock
  }

  ghost predicate Inv(s: State, horizon: nat, most: nat) {
    && WellFormed(s)
    && Low(s.start) <= s.clock <= horizon
    && (forall i | 0 <= i < |s.threads| :: ThreadInv(s, s.threads[i], most))
    && (Locked(s.start) <==> exists i :: 0 <= i < |s.threads| && Owns(s.threads[i]))
    && (forall i, j | 0 <= i < |s.threads| && 0 <= j < |s.threads| && Owns(s.threads[i]) && Owns(s.threads[j]) :: i == j)
  }

  lemma TestKeeps(s: State, t: nat, horizon: nat, most: nat)
    requires horizon + most < LOCK && Inv(s, horizon, most) && Enabled(s, Test(t))
    ensures Inv(Apply(s, Test(t)), horizon, most)
  {
    var s' := Apply(s, Test(t));
    assert s.threads[t].Testing? && ThreadInv(s, s.threads[t], most);
    OthersKept(s, s', t);
  }

  /** A step that leaves the word and the clock alone, and the ownership of its thread. */
  lemma OthersKept(s: State, s': State, t: nat)
    requires t < |s.threads| && |s'.threads| == |s.threads| && s'.threads == s.threads[t := s'.threads[t]]
    requires Owns(s.threads[t]) == Owns(s'.threads[t])
    ensures (exists i :: 0 <= i < |s.threads| && Owns(s.threads[i])) == (exists i :: 0 <= i < |s'.threads| && Owns(s'.threads[i]))
  {
    if i :| 0 <= i < |s.threads| && Owns(s.threads[i]) {
      assert Owns(s'.threads[i]);
    }
    if i :| 0 <= i < |s'.threads| && Owns(s'.threads[i]) {
      assert Owns(s.threads[i]);
    }
  }

  lemma QuietKeeps(s: State, step: Step, horizon: nat, most: nat)
    requires horizon + most < LOCK && Inv(s, horizon, most) && Enabled(s, step) && Within(step, horizon, most)
    requires step.Begin? || step.ReadClock? || step.Release?
    ensures Inv(Apply(s, step), horizon, most)
  {
    var s' := Apply(s, step);
    assert ThreadInv(s, s.threads[step.t], most);
    OthersKept(s, s', step.t);
  }

  lemma TickKeeps(s: State, to: nat, horizon: nat, most: nat)
    requires horizon + most < LOCK && Inv(s, horizon, most) && Enabled(s, Tick(to)) && to <= horizon
    ensures Inv(Apply(s, Tick(to)), horizon, most)
  {
  }

  lemma SwapKeeps(s: State, t: nat, spurious: bool, horizon: nat, most: nat)
    requires horizon + most < LOCK && Inv(s, horizon, most) && Enabled(s, Swap(t, spurious))
    ensures Inv(Apply(s, Swap(t, spurious)), horizon, most)
  {
    var s' := Apply(s, Swap(t, spurious));
    assert ThreadInv(s, s.threads[t], most);
    if spurious || s.start != s.threads[t].cur {
      OthersKept(s, s', t);
    } else {
      assert forall i | 0 <= i < |s.threads| :: !Owns(s.threads[i]);
      assert s'.threads[t].Holding? ==> Owns(s'.threads[t]);
    }
  }

  lemma StoreKeeps(s: State, t: nat, horizon: nat, most: nat)
    requires horizon + most < LOCK && Inv(s, horizon, most) && Enabled(s, Store(t))
    ensures Inv(Apply(s, Store(t)), horizon, most)
  {
    assert ThreadInv(s, s.threads[t], most);
    assert Owns(s.threads[t]);
  }

  lemma StepKeeps(s: State, step: Step, horizon: nat, most: nat)
    requires horizon + most < LOCK && Inv(s, horizon, most) && Within(step, horizon, most)
    ensures Inv(Apply(s, step), horizon, most)
  {
    if Enabled(s, step) {
      match step
      case Tick(to) => TickKeeps(s, to, horizon, most);
      case Test(t) => TestKeeps(s, t, horizon, most);
      case Swap(t, spurious) => SwapKeeps(s, t, spurious, horizon, most);
      case Store(t) => StoreKeeps(s, t, horizon, most);
      case _ => QuietKeeps(s, step, horizon, most);
    }
  }

  lemma {:induction false} Reachable(now: nat, threads: nat, schedule: seq<Step>, horizon: nat, most: nat)
    requires now <= horizon && horizon + most < LOCK
    requires forall i | 0 <= i < |schedule| :: Within(schedule[i], horizon, most)
    ensures Inv(Exec(Initial(now, threads), schedule), horizon, most)
    decreases |schedule|
  {
    if schedule != [] {
      var n := |schedule| - 1;
      Reachable(now, threads, schedule[..n], horizon, most);
      StepKeeps(Exec(Initial(now, threads), schedule[..n]), schedule[n], horizon, most);
    }
  }

  // ---------------------------------------------------------------- mutual exclusion

  /** Over every interleaving whose thresholds cannot wrap around, the top bit is set exactly when
      one Lock is live, and there are never two. */
  lemma MutualExclusion(now: nat, threads: nat, schedule: seq<Step>, horizon: nat, most: nat)
    requires now <= horizon && horizon + most < LOCK
    requires forall i | 0 <= i < |schedule| :: Within(schedule[i], horizon, most)
    ensures var s := Exec(Initial(now, threads), schedule);
            |Owners(s)| == if Locked(s.start) then 1 else 0
  {
    var s := Exec(Initial(now, threads), schedule);
    Reachable(now, threads, schedule, horizon, most);
    if Locked(s.start) {
      var i :| 0 <= i < |s.threads| && Owns(s.threads[i]);
      assert Owners(s) == {i};
    } else {
      assert Owners(s) == {};
    }
  }

  lemma Snoc(s: State, schedule: seq<Step>, step: Step)
    requires WellFormed(s)
    ensures Exec(s, schedule + [step]) == Apply(Exec(s, schedule), step)
  {
    assert (schedule + [step])[..|schedule|] == schedule;
  }

  /** One undisturbed call by an idle thread, up to its swap. */
  function Call(t: nat, op: Op, threshold: nat): seq<Step> {
    [Begin(t, op, threshold), ReadClock(t), Test(t), Swap(t, false)]
  }

  lemma CallRuns(s: State, schedule: seq<Step>, t: nat, op: Op, threshold: nat)
    requires WellFormed(s)
    requires var m := Exec(s, schedule); t < |m.threads| && m.threads[t].Idle? && threshold < WORD
    requires var m := Exec(s, schedule); Passes(op, threshold, m.start, Nanoseconds(m.start, m.clock))
    ensures
      var m := Exec(s, schedule);
      var now := Nanoseconds(m.start, m.clock);
      Exec(s, schedule + Call(t, op, threshold)) ==
        m.(start := if op.Restart? then now else now + LOCK,
           wins := m.wins + 1,
           threads := m.threads[t := if op.Restart? then Idle else Holding])
  {
    var a, b, c := schedule + [Begin(t, op, threshold)], schedule + Call(t, op, threshold)[..2], schedule + Call(t, op, threshold)[..3];
    Snoc(s, schedule, Begin(t, op, threshold));
    assert a + [ReadClock(t)] == b;
    Snoc(s, a, ReadClock(t));
    assert b + [Test(t)] == c;
    Snoc(s, b, Test(t));
    assert c + [Swap(t, false)] == schedule + Call(t, op, threshold);
    Snoc(s, c, Swap(t, false));
  }

  /** The bound is exact: as soon as a clock reading and a threshold can add up to 2^63, a
      compareAndRestart can pass its test on a locked word, clear the lock, and let a second
      thread lock the watch. */
  lemma LockStolen(now: nat, horizon: nat, most: nat) returns (schedule: seq<Step>)
    requires now <= horizon < LOCK && horizon + most >= LOCK
    ensures forall i | 0 <= i < |schedule| :: Within(schedule[i], horizon, most)
    ensures |Owners(Exec(Initial(now, 2), schedule))| == 2
  {
    var s0 := Initial(now, 2);
    var a := [Tick(horizon)];
    Snoc(s0, [], Tick(horizon));
    assert [] + a == a;
    CallRuns(s0, a, 0, Deferred, 0);
    var b := a + Call(0, Deferred, 0);
    CallRuns(s0, b, 1, Restart, LOCK - horizon);
    var c := b + Call(1, Restart, LOCK - horizon);
    CallRuns(s0, c, 1, Deferred, 0);
    schedule := c + Call(1, Deferred, 0);
    var s := Exec(s0, schedule);
    assert s.threads == [Holding, Holding];
    assert Owners(s) == {0, 1};
  }

  /** When one fresh compareAndRestart passes its test on a watch locked at time `t`. */
  lemma PassesOnLocked(t: nat, clock: nat, threshold: nat)
    requires t <= clock < LOCK && threshold < WORD
    ensures Passes(Restart, threshold, t + LOCK, Nanoseconds(t + LOCK, clock)) <==> LOCK - t <= threshold <= LOCK
  {
  }

  // ---------------------------------------------------------------- rate limit

  /** Every call in progress was made with `threshold`. */
  predicate OneThreshold(s: State, threshold: nat) {
    forall i | 0 <= i < |s.threads| :: match s.threads[i]
      case Loaded(_, x, _) => x == threshold
      case Testing(_, x, _, _) => x == threshold
      case Swapping(_, x, _, _) => x == threshold
      case _ => true
  }

  /** No step moves the watch back, and a success moves it forward by at least its threshold. */
  lemma StepAdvances(s: State, step: Step, horizon: nat, threshold: nat)
    requires horizon + threshold < LOCK && Inv(s, horizon, threshold) && Within(step, horizon, threshold)
    requires OneThreshold(s, threshold) && (step.Begin? ==> step.threshold == threshold)
    ensures
      var s' := Apply(s, step);
      && OneThreshold(s', threshold)
      && (s'.wins == s.wins ==> Low(s'.start) >= Low(s.start))
      && (s'.wins != s.wins ==> s'.wins == s.wins + 1 && Low(s'.start) >= Low(s.start) + threshold)
  {
    if Enabled(s, step) && (step.Swap? || step.Store?) {
      assert ThreadInv(s, s.threads[step.t], threshold);
    }
  }

  /** A step of a run with one threshold. */
  predicate Paced(step: Step, horizon: nat, threshold: nat) {
    Within(step, horizon, threshold) && (step.Begin? ==> step.threshold == threshold)
  }

  lemma {:induction false} RateLimitBelow(now: nat, threads: nat, schedule: seq<Step>, horizon: nat, threshold: nat)
    requires now <= horizon && horizon + threshold < LOCK
    requires forall i | 0 <= i < |schedule| :: Within(schedule[i], horizon, threshold)
    requires forall i | 0 <= i < |schedule| && schedule[i].Begin? :: schedule[i].threshold == threshold
    ensures
      var s := Exec(Initial(now, threads), schedule);
      && OneThreshold(s, threshold)
      && now + s.wins * threshold <= Low(s.start) <= s.clock
    decreases |schedule|
  {
    if schedule != [] {
      var n := |schedule| - 1;
      var before := Exec(Initial(now, threads), schedule[..n]);
      RateLimitBelow(now, threads, schedule[..n], horizon, threshold);
      Reachable(now, threads, schedule[..n], horizon, threshold);
      Reachable(now, threads, schedule, horizon, threshold);
      StepAdvances(before, schedule[n], horizon, threshold);
      assert (before.wins + 1) * threshold == before.wins * threshold + threshold;
    }
  }

  /** Nobody has got past the tests: the watch still shows `now`. */
  predicate Untouched(s: State, now: nat, horizon: nat, threshold: nat) {
    && s.start == now <= s.clock <= horizon && s.wins == 0
    && forall i | 0 <= i < |s.threads| :: match s.threads[i]
         case Idle => true
         case Loaded(_, x, cur) => x == threshold && cur == now
         case Testing(_, x, cur, time) => x == threshold && cur == now && time <= horizon
         case _ => false
  }

  lemma {:induction false} TooShort(now: nat, threads: nat, schedule: seq<Step>, horizon: nat, threshold: nat)
    requires now <= horizon < LOCK && horizon < now + threshold < WORD
    requires forall i | 0 <= i < |schedule| :: Paced(schedule[i], horizon, threshold)
    ensures Untouched(Exec(Initial(now, threads), schedule), now, horizon, threshold)
    decreases |schedule|
  {
    if schedule != [] {
      var n := |schedule| - 1;
      TooShort(now, threads, schedule[..n], horizon, threshold);
      assert Paced(schedule[n], horizon, threshold);
    }
  }

  /** The sums that break the limit: one that wraps around at the start, or one that reaches the top bit once the
      watch can have been locked. */
  predicate Breakable(now: nat, horizon: nat, threshold: nat) {
    now + threshold >= WORD || (now + threshold <= horizon && horizon + threshold >= LOCK)
  }

  /** Successes of either kind under one threshold: each moves the watch forward by at least the
      threshold, so `wins` of them span at least `wins` thresholds of clock time -- up to these sums. */
  lemma RateLimit(now: nat, threads: nat, schedule: seq<Step>, horizon: nat, threshold: nat)
    requires now <= horizon < LOCK && threshold < WORD && !Breakable(now, horizon, threshold)
    requires forall i | 0 <= i < |schedule| :: Paced(schedule[i], horizon, threshold)
    ensures var s := Exec(Initial(now, threads), schedule);
            now + s.wins * threshold <= Low(s.start) <= s.clock
  {
    if horizon + threshold < LOCK {
      assert forall i | 0 <= i < |schedule| :: Paced(schedule[i], horizon, threshold) ==> Within(schedule[i], horizon, threshold);
      RateLimitBelow(now, threads, schedule, horizon, threshold);
    } else {
      TooShort(now, threads, schedule, horizon, threshold);
    }
  }

  /** And beyond them two threads can break it. */
  lemma RateLimitBroken(now: nat, horizon: nat, threshold: nat) returns (schedule: seq<Step>)
    requires now <= horizon < LOCK && 0 < threshold < WORD && Breakable(now, horizon, threshold)
    ensures forall i | 0 <= i < |schedule| :: Paced(schedule[i], horizon, threshold)
    ensures var s := Exec(Initial(now, 2), schedule); now + s.wins * threshold > s.clock
  {
    var init := Initial(now, 2);
    if now + threshold >= WORD {
      schedule := [] + Call(0, Restart, threshold);
      CallRuns(init, [], 0, Restart, threshold);
      assert 1 * threshold == threshold;
    } else {
      var q := (horizon - now) / threshold;
      Quotient(horizon - now, threshold, q);
      var a := Restarts(now, horizon, threshold, q - 1);
      schedule := LockAndSteal(now, horizon, threshold, a, q);
    }
  }

  lemma Quotient(d: nat, threshold: nat, q: int)
    requires 0 < threshold <= d && q == d / threshold
    ensures q >= 1 && q * threshold <= d < (q + 1) * threshold
    ensures (q - 1) * threshold + threshold <= d
  {
    assert d == q * threshold + d % threshold;
    assert (q + 1) * threshold == q * threshold + threshold;
  }

  /** `k` successes, each as early as it can be. */
  lemma {:induction false} Restarts(now: nat, horizon: nat, threshold: nat, k: nat) returns (schedule: seq<Step>)
    requires horizon < LOCK && 0 < threshold && now + k * threshold <= horizon
    ensures forall i | 0 <= i < |schedule| :: Paced(schedule[i], horizon, threshold)
    ensures Exec(Initial(now, 2), schedule) == State(now + k * threshold, now + k * threshold, [Idle, Idle], k)
    decreases k
  {
    var init := Initial(now, 2);
    if k == 0 {
      schedule := [];
      assert init.threads == [Idle, Idle];
    } else {
      assert k * threshold == (k - 1) * threshold + threshold;
      var a := Restarts(now, horizon, threshold, k - 1);
      var b := a + [Tick(now + k * threshold)];
      Snoc(init, a, Tick(now + k * threshold));
      CallRuns(init, b, 0, Restart, threshold);
      schedule := b + Call(0, Restart, threshold);
      assert Exec(init, schedule).threads == [Idle, Idle];
    }
  }

  lemma LockAndSteal(now: nat, horizon: nat, threshold: nat, a: seq<Step>, q: nat) returns (schedule: seq<Step>)
    requires now <= horizon < LOCK && 0 < threshold && horizon + threshold >= LOCK && q >= 1
    requires now + (q - 1) * threshold + threshold <= horizon < now + (q + 1) * threshold
    requires forall i | 0 <= i < |a| :: Paced(a[i], horizon, threshold)
    requires Exec(Initial(now, 2), a) == State(now + (q - 1) * threshold, now + (q - 1) * threshold, [Idle, Idle], q - 1)
    ensures forall i | 0 <= i < |schedule| :: Paced(schedule[i], horizon, threshold)
    ensures var s := Exec(Initial(now, 2), schedule); now + s.wins * threshold > s.clock
  {
    var init := Initial(now, 2);
    var b := a + [Tick(horizon)];
    Snoc(init, a, Tick(horizon));
    CallRuns(init, b, 0, Deferred, threshold);
    var c := b + Call(0, Deferred, threshold);
    PassesOnLocked(horizon, horizon, threshold);
    CallRuns(init, c, 1, Restart, threshold);
    schedule := c + Call(1, Restart, threshold);
  }

  // ---------------------------------------------------------------- rate limit without locks

  /** A state of a run of `compareAndRestart` with one threshold: the word is never locked. */
  ghost predicate RestartInv(s: State, threshold: nat) {
    && WellFormed(s) && s.start <= s.clock
    && forall i | 0 <= i < |s.threads| :: RestartThread(s, s.threads[i], threshold)
  }

  predicate RestartThread(s: State, t: Thread, threshold: nat) {
    match t
    case Idle => true
    case Loaded(op, x, cur) => op.Restart? && x == threshold && cur <= s.clock
    case Testing(op, x, cur, now) => op.Restart? && x == threshold && cur <= s.clock && now <= s.clock
    case Swapping(op, x, cur, now) => op.Restart? && x == threshold && cur + threshold <= now <= s.clock
    case _ => false
  }

  predicate RestartStep(step: Step, horizon: nat, threshold: nat) {
    match step
    case Tick(to) => to <= horizon
    case Begin(_, op, x) => op.Restart? && x == threshold
    case _ => true
  }

  lemma RestartKeeps(s: State, step: Step, horizon: nat, threshold: nat)
    requires horizon + threshold < WORD && RestartInv(s, threshold) && s.clock <= horizon && RestartStep(step, horizon, threshold)
    ensures var s' := Apply(s, step);
            && RestartInv(s', threshold) && s.clock <= s'.clock <= horizon
            && (s'.wins == s.wins ==> s'.start == s.start)
            && (s'.wins != s.wins ==> s'.wins == s.wins + 1 && s'.start >= s.start + threshold)
  {
    if Enabled(s, step) && !step.Tick? {
      assert RestartThread(s, s.threads[step.t], threshold);
    }
  }

  lemma {:induction false} RestartRuns(now: nat, threads: nat, schedule: seq<Step>, horizon: nat, threshold: nat)
    requires now <= horizon < LOCK && horizon + threshold < WORD
    requires forall i | 0 <= i < |schedule| :: RestartStep(schedule[i], horizon, threshold)
    ensures var s := Exec(Initial(now, threads), schedule);
            && RestartInv(s, threshold) && s.clock <= horizon
            && now + s.wins * threshold <= s.start <= s.clock
    decreases |schedule|
  {
    if schedule != [] {
      var n := |schedule| - 1;
      var before := Exec(Initial(now, threads), schedule[..n]);
      RestartRuns(now, threads, schedule[..n], horizon, threshold);
      RestartKeeps(before, schedule[n], horizon, threshold);
      assert (before.wins + 1) * threshold == before.wins * threshold + threshold;
    }
  }

  /** With `compareAndRestart` only, the sum of a clock reading and the threshold may even use the top bit. */
  lemma RateLimitWithoutLocks(now: nat, threads: nat, schedule: seq<Step>, horizon: nat, threshold: nat)
    requires now <= horizon < LOCK && now + threshold < WORD
    requires forall i | 0 <= i < |schedule| :: RestartStep(schedule[i], horizon, threshold)
    ensures var s := Exec(Initial(now, threads), schedule);
            now + s.wins * threshold <= s.start <= s.clock
  {
    if horizon + threshold < WORD {
      RestartRuns(now, threads, schedule, horizon, threshold);
    } else {
      forall i | 0 <= i < |schedule|
        ensures Paced(schedule[i], horizon, threshold)
      {
        assert RestartStep(schedule[i], horizon, threshold);
      }
      TooShort(now, threads, schedule, horizon, threshold);
    }
  }

  /** That bound is exact: beyond it one call succeeds at once. */
  lemma RateExceeded(now: nat, threshold: nat) returns (schedule: seq<Step>)
    requires now < LOCK && 0 < threshold < WORD && now + threshold >= WORD
    ensures forall i | 0 <= i < |schedule| :: RestartStep(schedule[i], now, threshold)
    ensures var s := Exec(Initial(now, 1), schedule); s.wins == 1 && s.start == now
  {
    schedule := [] + Call(0, Restart, threshold);
    CallRuns(Initial(now, 1), [], 0, Restart, threshold);
  }

  // ---------------------------------------------------------------- elapsed time

  /** `elapsed()`, from the word as loaded and the clock as read. */
  function Elapsed(word: nat, clock: nat): nat
    requires word < WORD && clock < LOCK
  {
    Add(Nanoseconds(word, clock), if word == 0 then 0 else WORD - word)
  }

  lemma {:induction false} ClockMonotone(s: State, a: seq<Step>, b: seq<Step>)
    requires WellFormed(s)
    ensures Exec(s, a).clock <= Exec(s, a + b).clock
    decreases |b|
  {
    if b == [] {
      assert a + b == a;
    } else {
      var n := |b| - 1;
      ClockMonotone(s, a, b[..n]);
      assert a + b == (a + b[..n]) + [b[n]];
      Snoc(s, a + b[..n], b[n]);
    }
  }

  /** The word is loaded after `a` and the clock read after `b` more steps: elapsed time is clock time since
      the restart that was loaded, exactly if the watch was not locked then; otherwise it reads 2^63. */
  lemma ElapsedMeans(now: nat, threads: nat, a: seq<Step>, b: seq<Step>, horizon: nat, most: nat)
    requires now <= horizon && horizon + most < LOCK
    requires forall i | 0 <= i < |a| :: Within(a[i], horizon, most)
    ensures var word, clock := Exec(Initial(now, threads), a).start, Exec(Initial(now, threads), a + b).clock;
            Elapsed(word, clock) == if Locked(word) then LOCK else clock - word
  {
    Reachable(now, threads, a, horizon, most);
    ClockMonotone(Initial(now, threads), a, b);
  }
}

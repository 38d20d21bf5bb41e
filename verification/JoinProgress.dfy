/**
Progress of the join protocol: once every build driver has ended its input, every schedule in which
the publisher moves often enough delivers the result, releases every peer and fulfils the promise
of every probe that waits; or, exactly when no row was ever given to a concatenating build, stops
at `front()` of an empty vector.
*/
module JoinProgress {
  import opened Wrappers
  import opened JoinProtocol
  import opened JoinSafety

  // ---------------------------------------------------------------- promises and waiting probes

  function Waiting(probes: seq<Probe>): (n: nat)
    ensures n <= |probes|
  {
    if probes == [] then 0 else Waiting(probes[..|probes| - 1]) + if probes[|probes| - 1].waiting.Some? then 1 else 0
  }

  /** Before publication no promise is fulfilled, and each belongs to a probe of its own that waits. */
  ghost predicate WaitInv(s: State) {
    && (s.bridge.data.None? ==> s.fulfilled == {} && |s.bridge.promises| == Waiting(s.probes))
    && (s.pc.Notifying? ==> |s.pc.todo| <= |s.probes|)
  }

  lemma {:induction false} OneMoreWaits(probes: seq<Probe>, p: nat, x: nat)
    requires p < |probes| && probes[p].waiting.None?
    ensures Waiting(probes[p := probes[p].(waiting := Some(x))]) == Waiting(probes) + 1
    decreases |probes|
  {
    var n := |probes| - 1;
    var after := probes[p := probes[p].(waiting := Some(x))];
    if p < n {
      OneMoreWaits(probes[..n], p, x);
      assert after[..n] == probes[..n][p := probes[p].(waiting := Some(x))];
    } else {
      assert after[..n] == probes[..n];
    }
  }

  lemma {:induction false} NobodyWaits(n: nat)
    ensures Waiting(seq(n, _ => Probe(None, []))) == 0
  {
    var probes: seq<Probe> := seq(n, _ => Probe(None, []));
    if n > 0 {
      NobodyWaits(n - 1);
      assert probes[..n - 1] == seq(n - 1, _ => Probe(None, []));
    }
  }

  lemma WaitKeeps(kind: Kind, s: State, step: Step)
    requires WellFormed(s) && WaitInv(s) && (s.bridge.data.Some? <==> Past(kind, s.pc))
    ensures WaitInv(Apply(kind, s, step))
  {
    if Enabled(s, step) && step.Poll? && s.bridge.data.None? {
      OneMoreWaits(s.probes, step.p, s.bridge.issued);
    }
  }

  // ---------------------------------------------------------------- steps still to take

  /** Steps the publisher still has to take, at most. */
  ghost function Rank(kind: Kind, s: State): nat {
    var n, m := |s.barrier|, |s.probes|;
    match s.pc
    case Gathering(k) => (if k <= n then n - k else 0) + n + m + 4
    case Publishing => m + 2 + (if kind.Concatenating? then 0 else n + 1)
    case Notifying(todo) => |todo| + 1 + (if kind.Concatenating? then 0 else n + 1)
    case Releasing(k) => (if k <= n then n - k else 0) + 1 + (if kind.Concatenating? then m + 2 else 0)
    case _ => 0
  }

  /** The publisher's position once it has left `noMoreInput`. */
  predicate Settled(pc: Pc) {
    pc.Done? || pc.Faulted?
  }

  lemma PublisherRanks(kind: Kind, s: State)
    requires WellFormed(s) && ReleaseInv(kind, s) && WaitInv(s) && Active(s.pc)
    requires s.bridge.data.Some? <==> Past(kind, s.pc)
    ensures Rank(kind, PublisherStep(kind, s)) < Rank(kind, s)
  {
  }

  /** Once the last driver has ended, only the publisher moves the publisher. */
  lemma OthersWait(kind: Kind, s: State, step: Step)
    requires WellFormed(s) && BarrierInv(s) && s.last.Some? && !step.Publisher?
    ensures Rank(kind, Apply(kind, s, step)) == Rank(kind, s)
    ensures Apply(kind, s, step).last == s.last && Apply(kind, s, step).pc == s.pc
  {
    if step.NoMoreInput? && step.d < |s.drivers| {
      AllArrived(s, step.d);
    }
  }

  /** One step of anybody. */
  lemma RankStep(kind: Kind, s: State, step: Step)
    requires Inv(kind, s) && WaitInv(s) && s.last.Some?
    ensures var t := Apply(kind, s, step);
            t.last == s.last && if Settled(s.pc) then Settled(t.pc) else Rank(kind, t) + (if step.Publisher? then 1 else 0) <= Rank(kind, s)
  {
    if step.Publisher? {
      if Active(s.pc) {
        PublisherRanks(kind, s);
      }
    } else {
      OthersWait(kind, s, step);
    }
  }

  /** How often the publisher moves in a schedule. */
  function Publishers(schedule: seq<Step>): nat {
    if schedule == [] then 0
    else Publishers(schedule[..|schedule| - 1]) + if schedule[|schedule| - 1].Publisher? then 1 else 0
  }

  /** Whatever the others do in between, each step of the publisher brings it nearer to its end. */
  lemma {:induction false} Settles(kind: Kind, s: State, schedule: seq<Step>)
    requires Inv(kind, s) && WaitInv(s) && s.last.Some?
    ensures var t := Exec(kind, s, schedule);
            Inv(kind, t) && WaitInv(t) && t.last == s.last && (Settled(t.pc) || Rank(kind, t) + Publishers(schedule) <= Rank(kind, s))
    decreases |schedule|
  {
    if schedule != [] {
      var n := |schedule| - 1;
      Settles(kind, s, schedule[..n]);
      var t := Exec(kind, s, schedule[..n]);
      RankStep(kind, t, schedule[n]);
      StepKeeps(kind, t, schedule[n]);
      WaitKeeps(kind, t, schedule[n]);
    }
  }

  predicate NoEmptyBatch(data: seq<Batch>) {
    forall i | 0 <= i < |data| :: data[i] != []
  }

  lemma {:induction false} KeptNonEmpty(fed: seq<Batch>)
    ensures NoEmptyBatch(Kept(Concatenating, fed))
    decreases |fed|
  {
    if fed != [] {
      KeptNonEmpty(fed[..|fed| - 1]);
    }
  }

  lemma {:induction false} CollectedNonEmpty(fed: seq<seq<Batch>>, peers: seq<nat>)
    requires forall i | 0 <= i < |peers| :: peers[i] < |fed|
    ensures NoEmptyBatch(Collected(Concatenating, fed, peers))
    decreases |peers|
  {
    if peers != [] {
      KeptNonEmpty(fed[peers[|peers| - 1]]);
      CollectedNonEmpty(fed, peers[..|peers| - 1]);
    }
  }

  lemma NothingGathered(s: State)
    requires WellFormed(s) && BarrierInv(s) && s.last.Some?
    ensures Gathered(Concatenating, s) == [] <==> AllRows(s.fed) == multiset{}
  {
    var g := Gathered(Concatenating, s);
    GatheredRows(Concatenating, s);
    CollectedNonEmpty(s.fed, s.barrier);
    KeptNonEmpty(s.fed[s.last.value]);
    if g != [] {
      assert g[0][0] == Flatten(g)[0];
      assert Flatten(g)[0] in multiset(Flatten(g));
    }
  }

  /** A publisher faults exactly when a concatenating build received no row. */
  lemma SettledOutcome(kind: Kind, s: State)
    requires Inv(kind, s) && Settled(s.pc)
    ensures s.pc.Faulted? <==> kind.Concatenating? && AllRows(s.fed) == multiset{}
  {
    if kind.Concatenating? {
      NothingGathered(s);
    }
  }

  /** Everybody has been served: the result is out, every peer is released and every probe that
      waits can wake. */
  ghost predicate Served(kind: Kind, s: State)
    requires WellFormed(s)
  {
    && s.pc.Done?
    && s.last.Some? && s.bridge.data == Some(Expected(kind, s))
    && (forall d :: 0 <= d < |s.drivers| && s.drivers[d].parked ==> Enabled(s, Resume(d)))
    && (forall p :: 0 <= p < |s.probes| && s.probes[p].waiting.Some? ==> Enabled(s, Wake(p)))
  }

  lemma DoneServes(kind: Kind, s: State)
    requires Inv(kind, s) && s.pc.Done?
    ensures Served(kind, s)
  {
    forall d | 0 <= d < |s.drivers| && s.drivers[d].parked
      ensures Enabled(s, Resume(d))
    {
      assert d in s.barrier;
    }
    forall p | 0 <= p < |s.probes| && s.probes[p].waiting.Some?
      ensures Enabled(s, Wake(p))
    {
      assert s.probes[p].waiting.value < s.bridge.issued;
    }
  }

  /** Delivery: once every build driver has ended its input, any continuation in which the publisher
      gets `2 * drivers + probes + 2` steps -- interleaved in any way with whatever the drivers and
      probes do -- leads to a state where everybody is served, unless, and only unless, the build is
      a concatenating one that never received a row. */
  lemma Delivered(kind: Kind, drivers: nat, probes: nat, a: seq<Step>, b: seq<Step>)
    requires drivers >= 1 && Publishers(b) >= 2 * drivers + probes + 2
    requires var s := Exec(kind, Initial(drivers, probes), a);
             forall d | 0 <= d < |s.drivers| :: s.drivers[d].noMoreInput
    ensures
      var s := Exec(kind, Initial(drivers, probes), a + b);
      if kind.Concatenating? && AllRows(s.fed) == multiset{} then s.pc.Faulted? && s.bridge.data.None?
      else Served(kind, s)
  {
    var init := Initial(drivers, probes);
    var s := Exec(kind, init, a);
    Reachable(kind, drivers, probes, a);
    Waits(kind, drivers, probes, a);
    AllEnded(s);
    ExecConcat(kind, init, a, b);
    DeliveredFrom(kind, s, b);
  }

  lemma DeliveredFrom(kind: Kind, s: State, b: seq<Step>)
    requires Inv(kind, s) && WaitInv(s) && s.last.Some? && Publishers(b) >= 2 * |s.drivers| + |s.probes| + 2
    ensures
      var t := Exec(kind, s, b);
      if kind.Concatenating? && AllRows(t.fed) == multiset{} then t.pc.Faulted? && t.bridge.data.None?
      else WellFormed(t) && Served(kind, t)
  {
    Settles(kind, s, b);
    var t := Exec(kind, s, b);
    RankBounds(kind, s);
    RankBounds(kind, t);
    Outcome(kind, t);
  }

  lemma Outcome(kind: Kind, s: State)
    requires Inv(kind, s) && Settled(s.pc)
    ensures if kind.Concatenating? && AllRows(s.fed) == multiset{} then s.pc.Faulted? && s.bridge.data.None? else Served(kind, s)
  {
    SettledOutcome(kind, s);
    if s.pc.Done? {
      DoneServes(kind, s);
    }
  }

  /** An unsettled publisher has a step left. */
  lemma RankBounds(kind: Kind, s: State)
    requires WellFormed(s) && BarrierInv(s) && ReleaseInv(kind, s) && WaitInv(s) && s.last.Some?
    ensures (Settled(s.pc) || 0 < Rank(kind, s)) && Rank(kind, s) <= 2 * |s.drivers| + |s.probes| + 2
  {
  }

  lemma {:induction false} Waits(kind: Kind, drivers: nat, probes: nat, schedule: seq<Step>)
    requires drivers >= 1
    ensures var s := Exec(kind, Initial(drivers, probes), schedule);
            WaitInv(s) && |s.drivers| == drivers && |s.probes| == probes
    decreases |schedule|
  {
    if schedule == [] {
      NobodyWaits(probes);
    } else {
      var n := |schedule| - 1;
      Waits(kind, drivers, probes, schedule[..n]);
      var s := Exec(kind, Initial(drivers, probes), schedule[..n]);
      Reachable(kind, drivers, probes, schedule[..n]);
      WaitKeeps(kind, s, schedule[n]);
      SameSize(kind, s, schedule[n]);
    }
  }

  lemma SameSize(kind: Kind, s: State, step: Step)
    requires WellFormed(s)
    ensures |Apply(kind, s, step).drivers| == |s.drivers| && |Apply(kind, s, step).probes| == |s.probes|
  {
  }

  /** If nobody were last, all drivers would wait at the barrier, which is shorter than that. */
  lemma AllEnded(s: State)
    requires WellFormed(s) && BarrierInv(s)
    requires forall d | 0 <= d < |s.drivers| :: s.drivers[d].noMoreInput
    ensures s.last.Some?
  {
    if s.last.None? {
      assert forall d: nat | d < |s.drivers| :: Arrived(s, d);
      assert Range(|s.drivers|) <= ToSet(s.barrier);
      SubsetCard(Range(|s.drivers|), ToSet(s.barrier));
      DistinctCard(s.barrier);
    }
  }
}

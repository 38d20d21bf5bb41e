/**
Safety of the join protocol over every schedule: every step keeps `Inv`, and what the
invariant says about lost wakeups, single publication and conservation of rows.
*/
module JoinSafety {
  import opened Wrappers
  import opened JoinProtocol

  // ---------------------------------------------------------------- helpers

  lemma DistinctCard(ids: seq<nat>)
    requires Distinct(ids)
    ensures |ToSet(ids)| == |ids|
  {
    if ids != [] {
      var n := |ids| - 1;
      DistinctCard(ids[..n]);
      assert ToSet(ids) == ToSet(ids[..n]) + {ids[n]};
    }
  }

  ghost function Range(n: nat): (r: set<nat>)
    ensures forall x :: x in r <==> 0 <= x < n
    ensures |r| == n
  {
    if n == 0 then {} else Range(n - 1) + {n - 1}
  }

  /** `n - 1` distinct drivers out of `n`, the last one not among them: everybody arrived. */
  lemma AllArrived(s: State, d: nat)
    requires WellFormed(s) && BarrierInv(s) && s.last.Some? && d < |s.drivers|
    ensures Arrived(s, d)
  {
    var all := Range(|s.drivers|);
    var there := ToSet(s.barrier) + {s.last.value};
    DistinctCard(s.barrier);
    assert there <= all;
    if d !in there {
      SubsetCard(there, all - {d});
    }
  }

  lemma SubsetCard<T>(a: set<T>, b: set<T>)
    requires a <= b
    ensures |a| <= |b|
  {
    assert b == a + (b - a);
    assert |b| == |a| + |b - a|;
  }

  lemma FlattenConcat(a: seq<Batch>, b: seq<Batch>)
    ensures Flatten(a + b) == Flatten(a) + Flatten(b)
  {
    if a == [] {
      assert a + b == b;
    } else {
      FlattenConcat(a[1..], b);
      assert (a + b)[1..] == a[1..] + b;
    }
  }

  // ---------------------------------------------------------------- every step keeps Inv

  lemma InitialInv(kind: Kind, drivers: nat, probes: nat)
    requires drivers >= 1
    ensures Inv(kind, Initial(drivers, probes))
  {
  }

  lemma AddInputKeeps(kind: Kind, s: State, d: nat, input: Batch)
    requires Inv(kind, s) && Enabled(s, AddInput(d, input))
    ensures Inv(kind, Apply(kind, s, AddInput(d, input)))
  {
    if s.last.Some? {
      AllArrived(s, d);
      assert false;
    }
    var fed := s.fed[d];
    assert (fed + [input])[..|fed|] == fed;
    assert d !in s.barrier;
  }

  lemma NoMoreInputKeeps(kind: Kind, s: State, d: nat)
    requires Inv(kind, s) && Enabled(s, NoMoreInput(d))
    ensures Inv(kind, Apply(kind, s, NoMoreInput(d)))
  {
    if s.last.Some? {
      AllArrived(s, d);
      assert false;
    }
    var s' := Apply(kind, s, NoMoreInput(d));
    if s'.last.Some? {
      assert Taken(s') == [];
      assert Kept(kind, s'.fed[d]) == [] + Kept(kind, s'.fed[d]);
    }
  }

  lemma DriverStepControl(kind: Kind, s: State, step: Step)
    requires step.IsBlocked? || step.Resume? || step.Close?
    requires WellFormed(s) && BarrierInv(s) && ReleaseInv(kind, s) && Enabled(s, step)
    ensures BarrierInv(Apply(kind, s, step)) && ReleaseInv(kind, Apply(kind, s, step))
  {
  }

  lemma FlagsOnly(kind: Kind, s: State, s': State)
    requires WellFormed(s) && WellFormed(s') && DataInv(kind, s) && |s'.drivers| == |s.drivers|
    requires forall d | 0 <= d < |s.drivers| ::
               s'.drivers[d].data == s.drivers[d].data && s'.drivers[d].closed == s.drivers[d].closed
    requires s'.fed == s.fed && s'.last == s.last && s'.tables == s.tables && Taken(s') == Taken(s)
    ensures DataInv(kind, s')
  {
  }

  lemma CloseData(kind: Kind, s: State, d: nat)
    requires WellFormed(s) && DataInv(kind, s) && Enabled(s, Close(d))
    ensures DataInv(kind, Apply(kind, s, Close(d)))
  {
  }

  lemma DriverStepData(kind: Kind, s: State, step: Step)
    requires step.IsBlocked? || step.Resume? || step.Close?
    requires WellFormed(s) && DataInv(kind, s) && Enabled(s, step)
    ensures DataInv(kind, Apply(kind, s, step))
  {
    if step.Close? {
      CloseData(kind, s, step.d);
    } else {
      FlagsOnly(kind, s, Apply(kind, s, step));
    }
  }

  /** isBlocked, resume and close change one driver's own fields only. */
  lemma DriverStepKeeps(kind: Kind, s: State, step: Step)
    requires step.IsBlocked? || step.Resume? || step.Close?
    requires Inv(kind, s) && Enabled(s, step)
    ensures Inv(kind, Apply(kind, s, step))
  {
    DriverStepControl(kind, s, step);
    DriverStepData(kind, s, step);
  }

  lemma PollPromises(kind: Kind, s: State, p: nat)
    requires WellFormed(s) && PromiseInv(s) && ProbeInv(s) && Enabled(s, Poll(p))
    ensures PromiseInv(Apply(kind, s, Poll(p))) && ProbeInv(Apply(kind, s, Poll(p)))
  {
    var ids := s.bridge.promises;
    assert forall i | 0 <= i < |ids| :: ids[i] in ids;
    assert forall i | 0 <= i < |ids| :: ids[i] < s.bridge.issued;
  }

  lemma PollKeeps(kind: Kind, s: State, p: nat)
    requires Inv(kind, s) && Enabled(s, Poll(p))
    ensures Inv(kind, Apply(kind, s, Poll(p)))
  {
    PollPromises(kind, s, p);
  }

  lemma WakeKeeps(kind: Kind, s: State, p: nat)
    requires Inv(kind, s) && Enabled(s, Wake(p))
    ensures Inv(kind, Apply(kind, s, Wake(p)))
  {
  }

  lemma ReleaseControl(kind: Kind, s: State)
    requires WellFormed(s) && BarrierInv(s) && ReleaseInv(kind, s) && s.pc.Releasing?
    ensures BarrierInv(PublisherStep(kind, s)) && ReleaseInv(kind, PublisherStep(kind, s))
  {
    var k := s.pc.k;
    if k < |s.barrier| {
      assert s.barrier[..k + 1] == s.barrier[..k] + [s.barrier[k]];
    } else {
      assert s.barrier[..k] == s.barrier;
    }
  }

  lemma PublisherControl(kind: Kind, s: State)
    requires WellFormed(s) && BarrierInv(s) && ReleaseInv(kind, s) && Active(s.pc)
    requires s.bridge.data.Some? <==> Past(kind, s.pc)
    ensures BarrierInv(PublisherStep(kind, s)) && ReleaseInv(kind, PublisherStep(kind, s))
  {
    if s.pc.Releasing? {
      ReleaseControl(kind, s);
    } else {
      assert s.barrier[..0] == [];
    }
  }

  /** Nothing is closed while the publisher gathers, so every peer still holds what it was fed. */
  lemma GatherData(kind: Kind, s: State)
    requires WellFormed(s) && BarrierInv(s) && ReleaseInv(kind, s) && DataInv(kind, s) && s.pc.Gathering?
    ensures DataInv(kind, GatherStep(kind, s))
  {
    var s' := GatherStep(kind, s);
    var k := s.pc.k;
    if k < |s.barrier| {
      assert s.barrier[k] in s.barrier && !s.drivers[s.barrier[k]].closed;
      TakeOne(kind, s);
      GatherHolds(kind, s, Kept(kind, s.fed[s.barrier[k]]), Collected(kind, s.fed, Taken(s)), Kept(kind, s.fed[s.last.value]));
    } else {
      DataSame(kind, s, s');
    }
  }

  /** Gathering takes one peer more. */
  lemma TakeOne(kind: Kind, s: State)
    requires WellFormed(s) && s.pc.Gathering? && s.last.Some? && s.pc.k < |s.barrier|
    ensures var s' := GatherStep(kind, s);
            Collected(kind, s'.fed, Taken(s')) == Kept(kind, s.fed[s.barrier[s.pc.k]]) + Collected(kind, s.fed, Taken(s))
  {
    var k := s.pc.k;
    assert s.barrier[..k + 1][..k] == s.barrier[..k];
  }

  lemma GatherHolds(kind: Kind, s: State, mine: seq<Batch>, before: seq<Batch>, own: seq<Batch>)
    requires WellFormed(s) && s.pc.Gathering? && s.last.Some? && s.pc.k < |s.barrier| && s.barrier[s.pc.k] != s.last.value
    requires mine == s.drivers[s.barrier[s.pc.k]].data && own == Kept(kind, s.fed[s.last.value])
    requires before == Collected(kind, s.fed, Taken(s)) && PublisherHolds(kind, s, s.drivers[s.last.value])
    requires Collected(kind, s.fed, Taken(GatherStep(kind, s))) == mine + before
    ensures var s' := GatherStep(kind, s); PublisherHolds(kind, s', s'.drivers[s'.last.value])
  {
    if kind.Concatenating? {
      Associative(mine, before, own);
    } else {
      FlattenConcat(mine, before);
    }
  }

  lemma Associative(a: seq<Batch>, b: seq<Batch>, c: seq<Batch>)
    ensures a + (b + c) == a + b + c
  {
  }

  /** The invariant looks at no more than this. */
  lemma DataSame(kind: Kind, s: State, s': State)
    requires WellFormed(s) && WellFormed(s') && DataInv(kind, s)
    requires s'.drivers == s.drivers && s'.fed == s.fed && s'.last == s.last && s'.tables == s.tables && Taken(s') == Taken(s)
    ensures DataInv(kind, s')
  {
  }

  /** At publication everything has been gathered. */
  lemma PublishedValue(kind: Kind, s: State)
    requires WellFormed(s) && BarrierInv(s) && DataInv(kind, s) && s.pc.Publishing? && s.last.Some?
    requires kind.Concatenating? ==> !s.drivers[s.last.value].closed
    ensures var data := s.drivers[s.last.value].data;
            if kind.Concatenating? then data == Gathered(kind, s)
            else s.tables + multiset(Flatten(data)) == multiset(Flatten(Gathered(kind, s)))
  {
    FlattenConcat(Collected(kind, s.fed, s.barrier), Kept(kind, s.fed[s.last.value]));
  }

  lemma PublishBridge(kind: Kind, s: State)
    requires WellFormed(s) && BarrierInv(s) && DataInv(kind, s) && BridgeInv(kind, s) && s.pc.Publishing?
    ensures BridgeInv(kind, PublishStep(kind, s))
  {
    PublishedValue(kind, s);
    SameGathered(kind, s, PublishStep(kind, s));
  }

  lemma SameGathered(kind: Kind, s: State, s': State)
    requires WellFormed(s) && WellFormed(s') && s.last.Some? && s'.last == s.last && s'.fed == s.fed && s'.barrier == s.barrier
    ensures Gathered(kind, s') == Gathered(kind, s)
  {
  }

  lemma PublisherData(kind: Kind, s: State)
    requires WellFormed(s) && BarrierInv(s) && ReleaseInv(kind, s) && DataInv(kind, s) && Active(s.pc)
    ensures DataInv(kind, PublisherStep(kind, s))
  {
    if s.pc.Gathering? {
      GatherData(kind, s);
    } else {
      DataSame(kind, s, PublisherStep(kind, s));
    }
  }

  lemma OtherBridge(kind: Kind, s: State)
    requires WellFormed(s) && BridgeInv(kind, s) && Active(s.pc) && !s.pc.Publishing?
    ensures BridgeInv(kind, PublisherStep(kind, s))
  {
    var s' := PublisherStep(kind, s);
    assert s'.bridge == s.bridge && s'.last == s.last;
    assert Gathered(kind, s') == Gathered(kind, s);
  }

  lemma PublisherBridge(kind: Kind, s: State)
    requires WellFormed(s) && BarrierInv(s) && DataInv(kind, s) && BridgeInv(kind, s) && Active(s.pc)
    ensures BridgeInv(kind, PublisherStep(kind, s))
  {
    if s.pc.Publishing? {
      PublishBridge(kind, s);
    } else {
      OtherBridge(kind, s);
    }
  }

  lemma PublisherPromises(kind: Kind, s: State)
    requires WellFormed(s) && PromiseInv(s) && ProbeInv(s) && Active(s.pc)
    requires s.bridge.data.Some? <==> Past(kind, s.pc)
    ensures PromiseInv(PublisherStep(kind, s)) && ProbeInv(PublisherStep(kind, s))
  {
    if s.pc.Notifying? && s.pc.todo != [] {
      var todo := s.pc.todo;
      assert todo == [todo[0]] + todo[1..];
    }
  }

  lemma PublisherKeeps(kind: Kind, s: State)
    requires Inv(kind, s) && Active(s.pc)
    ensures Inv(kind, PublisherStep(kind, s))
  {
    PublisherControl(kind, s);
    PublisherData(kind, s);
    PublisherBridge(kind, s);
    PublisherPromises(kind, s);
  }

  lemma StepKeeps(kind: Kind, s: State, step: Step)
    requires Inv(kind, s)
    ensures Inv(kind, Apply(kind, s, step))
  {
    if Enabled(s, step) {
      match step
      case AddInput(d, input) => AddInputKeeps(kind, s, d, input);
      case NoMoreInput(d) => NoMoreInputKeeps(kind, s, d);
      case IsBlocked(_) => DriverStepKeeps(kind, s, step);
      case Resume(_) => DriverStepKeeps(kind, s, step);
      case Close(_) => DriverStepKeeps(kind, s, step);
      case Poll(p) => PollKeeps(kind, s, p);
      case Wake(p) => WakeKeeps(kind, s, p);
      case Publisher => PublisherKeeps(kind, s);
    }
  }

  /** The invariant holds in every state of every schedule. */
  lemma {:induction false} Reachable(kind: Kind, drivers: nat, probes: nat, schedule: seq<Step>)
    requires drivers >= 1
    ensures Inv(kind, Exec(kind, Initial(drivers, probes), schedule))
    decreases |schedule|
  {
    var n := |schedule|;
    if n == 0 {
      InitialInv(kind, drivers, probes);
    } else {
      Reachable(kind, drivers, probes, schedule[..n - 1]);
      StepKeeps(kind, Exec(kind, Initial(drivers, probes), schedule[..n - 1]), schedule[n - 1]);
    }
  }

  // ---------------------------------------------------------------- what it means

  /** A schedule can be cut anywhere. */
  lemma {:induction false} ExecConcat(kind: Kind, s: State, a: seq<Step>, b: seq<Step>)
    requires WellFormed(s)
    ensures Exec(kind, s, a + b) == Exec(kind, Exec(kind, s, a), b)
    decreases |b|
  {
    var n := |b|;
    if n == 0 {
      assert a + b == a;
    } else {
      ExecConcat(kind, s, a, b[..n - 1]);
      assert (a + b)[..|a + b| - 1] == a + b[..n - 1];
    }
  }

  /** No lost wakeup: a probe that was told to wait has its promise on the bridge while nothing
      is published, or in the publisher's hands, or already fulfilled -- and in one place only,
      so that no promise is fulfilled twice. */
  lemma NoLostWakeup(kind: Kind, drivers: nat, probes: nat, schedule: seq<Step>, p: nat)
    requires drivers >= 1
    requires var s := Exec(kind, Initial(drivers, probes), schedule); p < |s.probes| && s.probes[p].waiting.Some?
    ensures
      var s := Exec(kind, Initial(drivers, probes), schedule);
      var x := s.probes[p].waiting.value;
      var onBridge, inFlight, done := x in s.bridge.promises, x in InFlight(s), x in s.fulfilled;
      && (onBridge ==> s.bridge.data.None?)
      && (inFlight ==> s.bridge.data.Some?)
      && (onBridge || inFlight || done)
      && !(onBridge && inFlight) && !(onBridge && done) && !(inFlight && done)
      && multiset(s.bridge.promises)[x] <= 1 && multiset(InFlight(s))[x] <= 1
  {
    Reachable(kind, drivers, probes, schedule);
    var s := Exec(kind, Initial(drivers, probes), schedule);
    DistinctOnce(s.bridge.promises, s.probes[p].waiting.value);
    DistinctOnce(InFlight(s), s.probes[p].waiting.value);
  }

  lemma DistinctOnce(ids: seq<nat>, x: nat)
    requires Distinct(ids)
    ensures multiset(ids)[x] <= 1
  {
    if ids != [] {
      var n := |ids| - 1;
      DistinctOnce(ids[..n], x);
      assert ids == ids[..n] + [ids[n]];
      if x == ids[n] {
        assert x !in ids[..n];
      }
    }
  }

  lemma StepStable(kind: Kind, s: State, step: Step)
    requires Inv(kind, s) && s.bridge.data.Some?
    ensures Apply(kind, s, step).bridge.data == s.bridge.data
  {
    StepKeeps(kind, s, step);
  }

  /** Publication happens at most once: whatever the bridge holds after a schedule, it still
      holds after any continuation -- on the hash bridge too, which has no once-guard. */
  lemma {:induction false} PublishedOnce(kind: Kind, drivers: nat, probes: nat, a: seq<Step>, b: seq<Step>)
    requires drivers >= 1
    requires Exec(kind, Initial(drivers, probes), a).bridge.data.Some?
    ensures Exec(kind, Initial(drivers, probes), a + b).bridge.data == Exec(kind, Initial(drivers, probes), a).bridge.data
    decreases |b|
  {
    var n := |b|;
    if n == 0 {
      assert a + b == a;
    } else {
      PublishedOnce(kind, drivers, probes, a, b[..n - 1]);
      Reachable(kind, drivers, probes, a + b[..n - 1]);
      StepStable(kind, Exec(kind, Initial(drivers, probes), a + b[..n - 1]), b[n - 1]);
      AppendLast(a, b);
    }
  }

  lemma AppendLast(a: seq<Step>, b: seq<Step>)
    requires b != []
    ensures (a + b)[..|a + b| - 1] == a + b[..|b| - 1] && (a + b)[|a + b| - 1] == b[|b| - 1]
  {
  }

  lemma AnswerIsExpected(kind: Kind, s: State, p: nat, i: nat)
    requires WellFormed(s) && BridgeInv(kind, s) && ProbeInv(s)
    requires p < |s.probes| && i < |s.probes[p].answers|
    ensures s.last.Some? && s.probes[p].answers[i] == Expected(kind, s)
    ensures s.bridge.data == Some(s.probes[p].answers[i])
  {
    assert s.bridge.data == Some(s.probes[p].answers[i]);
  }

  /** All answers any probe ever received are one and the same value, the published one. */
  lemma OneAnswer(kind: Kind, drivers: nat, probes: nat, schedule: seq<Step>, p: nat, i: nat)
    requires drivers >= 1
    requires var s := Exec(kind, Initial(drivers, probes), schedule); p < |s.probes| && i < |s.probes[p].answers|
    ensures
      var s := Exec(kind, Initial(drivers, probes), schedule);
      s.last.Some? && s.probes[p].answers[i] == Expected(kind, s) && s.bridge.data == Some(s.probes[p].answers[i])
  {
    var s := Exec(kind, Initial(drivers, probes), schedule);
    Reachable(kind, drivers, probes, schedule);
    AnswerIsExpected(kind, s, p, i);
  }

  // ---------------------------------------------------------------- conservation

  /** All rows fed to all drivers. */
  function AllRows(fed: seq<seq<Batch>>): multiset<Row> {
    if fed == [] then multiset{} else multiset(Flatten(fed[|fed| - 1])) + AllRows(fed[..|fed| - 1])
  }

  /** All rows fed to the drivers in `ids`. */
  function RowsOf(fed: seq<seq<Batch>>, ids: seq<nat>): multiset<Row>
    requires forall i | 0 <= i < |ids| :: ids[i] < |fed|
  {
    if ids == [] then multiset{}
    else multiset(Flatten(fed[ids[|ids| - 1]])) + RowsOf(fed, ids[..|ids| - 1])
  }

  /** Dropping empty batches loses no row. */
  lemma {:induction false} KeptRows(kind: Kind, fed: seq<Batch>)
    ensures Flatten(Kept(kind, fed)) == Flatten(fed)
    decreases |fed|
  {
    if fed != [] {
      var n := |fed| - 1;
      KeptRows(kind, fed[..n]);
      assert fed == fed[..n] + [fed[n]];
      FlattenConcat(fed[..n], [fed[n]]);
      FlattenConcat(Kept(kind, fed[..n]), [fed[n]]);
      assert Flatten([fed[n]]) == fed[n] + Flatten([]) == fed[n];
    }
  }

  lemma {:induction false} CollectedRows(kind: Kind, fed: seq<seq<Batch>>, ids: seq<nat>)
    requires forall i | 0 <= i < |ids| :: ids[i] < |fed|
    ensures multiset(Flatten(Collected(kind, fed, ids))) == RowsOf(fed, ids)
    decreases |ids|
  {
    if ids != [] {
      var n := |ids| - 1;
      CollectedRows(kind, fed, ids[..n]);
      KeptRows(kind, fed[ids[n]]);
      FlattenConcat(Kept(kind, fed[ids[n]]), Collected(kind, fed, ids[..n]));
    }
  }

  /** Summing over a permutation of the drivers sums over all of them. */
  lemma {:induction false} RowsOfAll(fed: seq<seq<Batch>>, ids: seq<nat>)
    requires Distinct(ids) && |ids| == |fed| && forall i | 0 <= i < |ids| :: ids[i] < |fed|
    ensures RowsOf(fed, ids) == AllRows(fed)
    decreases |fed|
  {
    if fed != [] {
      var n := |fed| - 1;
      var k := Surjective(ids, n);
      var rest := Without(ids, k);
      RowsOfWithout(fed, ids, k);
      RowsOfPrefix(fed, rest, n);
      RowsOfAll(fed[..n], rest);
      AllRowsLast(fed);
    }
  }

  lemma AllRowsLast(fed: seq<seq<Batch>>)
    requires fed != []
    ensures var n := |fed| - 1; AllRows(fed) == multiset(Flatten(fed[n])) + AllRows(fed[..n])
  {
  }

  function Without(ids: seq<nat>, k: nat): (rest: seq<nat>)
    requires k < |ids|
    ensures |rest| == |ids| - 1
    ensures Distinct(ids) ==> Distinct(rest)
    ensures forall i | 0 <= i < |rest| :: rest[i] == if i < k then ids[i] else ids[i + 1]
  {
    ids[..k] + ids[k + 1..]
  }

  lemma Surjective(ids: seq<nat>, d: nat) returns (k: nat)
    requires Distinct(ids) && d < |ids| && forall i | 0 <= i < |ids| :: ids[i] < |ids|
    ensures k < |ids| && ids[k] == d
  {
    DistinctCard(ids);
    var all := Range(|ids|);
    if d !in ToSet(ids) {
      SubsetCard(ToSet(ids), all - {d});
    }
    k :| k < |ids| && ids[k] == d;
  }

  lemma {:induction false} RowsOfWithout(fed: seq<seq<Batch>>, ids: seq<nat>, k: nat)
    requires k < |ids| && forall i | 0 <= i < |ids| :: ids[i] < |fed|
    ensures RowsOf(fed, ids) == multiset(Flatten(fed[ids[k]])) + RowsOf(fed, Without(ids, k))
    decreases |ids|
  {
    var n := |ids| - 1;
    if k == n {
      assert Without(ids, k) == ids[..n];
    } else {
      RowsOfWithout(fed, ids[..n], k);
      WithoutLast(ids, k);
      RowsOfLast(fed, Without(ids[..n], k), ids[n]);
      Swap(multiset(Flatten(fed[ids[k]])), multiset(Flatten(fed[ids[n]])), RowsOf(fed, Without(ids[..n], k)));
    }
  }

  lemma WithoutLast(ids: seq<nat>, k: nat)
    requires k < |ids| - 1
    ensures var n := |ids| - 1; Without(ids, k) == Without(ids[..n], k) + [ids[n]]
  {
  }

  lemma RowsOfLast(fed: seq<seq<Batch>>, ids: seq<nat>, d: nat)
    requires d < |fed| && forall i | 0 <= i < |ids| :: ids[i] < |fed|
    ensures RowsOf(fed, ids + [d]) == multiset(Flatten(fed[d])) + RowsOf(fed, ids)
  {
    assert (ids + [d])[..|ids|] == ids;
  }

  lemma Swap(a: multiset<Row>, b: multiset<Row>, c: multiset<Row>)
    ensures a + (b + c) == b + (a + c)
  {
  }

  lemma {:induction false} RowsOfPrefix(fed: seq<seq<Batch>>, ids: seq<nat>, n: nat)
    requires n <= |fed| && forall i | 0 <= i < |ids| :: ids[i] < n
    ensures RowsOf(fed, ids) == RowsOf(fed[..n], ids)
    decreases |ids|
  {
    if ids != [] {
      RowsOfPrefix(fed, ids[..|ids| - 1], n);
    }
  }

  function Content(v: Published): multiset<Row> {
    match v
    case Rows(rows) => multiset(rows)
    case Table(content) => content
  }

  /** Conservation: in every run the published result holds exactly the rows given to all build
      drivers, each as often as it was given; the concatenating joins keep the order peers last to
      first, then the publisher's own -- whatever the released peers did to their buffers. */
  lemma Conservation(kind: Kind, drivers: nat, probes: nat, schedule: seq<Step>)
    requires drivers >= 1
    requires Exec(kind, Initial(drivers, probes), schedule).bridge.data.Some?
    ensures
      var s := Exec(kind, Initial(drivers, probes), schedule);
      && s.last.Some?
      && Content(s.bridge.data.value) == AllRows(s.fed)
      && (kind.Concatenating? ==> s.bridge.data.value == Rows(Flatten(Gathered(kind, s))))
  {
    var s := Exec(kind, Initial(drivers, probes), schedule);
    Reachable(kind, drivers, probes, schedule);
    GatheredRows(kind, s);
  }

  lemma GatheredRows(kind: Kind, s: State)
    requires WellFormed(s) && BarrierInv(s) && s.last.Some?
    ensures multiset(Flatten(Gathered(kind, s))) == AllRows(s.fed)
  {
    PeersAndOwn(kind, s.fed, s.barrier, s.last.value);
    RowsOfAll(s.fed, s.barrier + [s.last.value]);
  }

  lemma PeersAndOwn(kind: Kind, fed: seq<seq<Batch>>, peers: seq<nat>, own: nat)
    requires own < |fed| && forall i | 0 <= i < |peers| :: peers[i] < |fed|
    ensures multiset(Flatten(Collected(kind, fed, peers) + Kept(kind, fed[own]))) == RowsOf(fed, peers + [own])
  {
    FlattenConcat(Collected(kind, fed, peers), Kept(kind, fed[own]));
    CollectedRows(kind, fed, peers);
    KeptRows(kind, fed[own]);
    assert (peers + [own])[..|peers|] == peers;
  }
}

/**
The build barrier and the join bridge as one state machine.

`N` build drivers accumulate batches.  Each tells its operator `noMoreInput`; all but the
last one park on a barrier promise, the last one (the publisher) gathers its peers' data,
releases them, publishes one result on the bridge and fulfils the promises of the probes
that were told to wait.  The step relation is as fine as the source's atomicity: one peer
gathered, one promise fulfilled, or one critical section of the bridge per step.

The same machine covers the concatenating join (cross join and plain join: release, then
publish, behind a once-guard) and the hash join (publish, then release, no once-guard).

Schedules are arbitrary sequences of step requests; a request that is not enabled leaves the
state unchanged, so the states of all schedules are exactly the reachable states.
*/
module JoinProtocol {
  import opened Wrappers

  /** Rows are opaque to the protocol. */
  datatype Row = Row(id: int)

  type Batch = seq<Row>

  datatype Kind = Concatenating | Hashing

  /** What the bridge hands to the probes: rows in order, or a hash table's content. */
  datatype Published = Rows(rows: seq<Row>) | Table(content: multiset<Row>)

  /** The bridge: its optional result, its waiting promises and the number of promises ever
      issued (promise `i` is the `i`-th one issued). */
  datatype Bridge = Bridge(data: Option<Published>, promises: seq<nat>, issued: nat)

  /** Where the publisher is inside its `noMoreInput`. */
  datatype Pc =
    | NotStarted
    | Gathering(k: nat)          // peers [0, k) gathered
    | Releasing(k: nat)          // barrier promises [0, k) fulfilled
    | Publishing                 // about to enter the bridge's critical section
    | Notifying(todo: seq<nat>)  // promises moved out of the bridge, not yet fulfilled
    | Done
    | Faulted                    // `data_.front()` of an empty vector
    | Rejected                   // the once-guard threw

  datatype Driver = Driver(
    data: seq<Batch>,        // data_, or the content of the hash table builder
    noMoreInput: bool,
    future: bool,            // future_ is valid
    parked: bool,            // the future was handed out; the driver waits on it
    closed: bool)

  datatype Probe = Probe(waiting: Option<nat>, answers: seq<Published>)

  datatype State = State(
    drivers: seq<Driver>,
    fed: seq<seq<Batch>>,    // history: every batch ever given to each driver
    barrier: seq<nat>,       // drivers waiting at the barrier, in arrival order
    last: Option<nat>,       // the driver for which allPeersFinished was true
    pc: Pc,                  // where that driver is
    tables: multiset<Row>,   // finishHashBuild's local tables
    released: set<nat>,      // drivers whose barrier promise is fulfilled
    bridge: Bridge,
    fulfilled: set<nat>,     // probe promises that are fulfilled
    probes: seq<Probe>)

  datatype Step =
    | AddInput(d: nat, input: Batch)
    | NoMoreInput(d: nat)
    | IsBlocked(d: nat)      // hands out a valid future; the driver parks on it
    | Resume(d: nat)         // a parked driver whose promise is fulfilled
    | Publisher              // next step of the last driver's noMoreInput
    | Close(d: nat)
    | Poll(p: nat)
    | Wake(p: nat)           // a waiting probe whose promise is fulfilled

  // ---------------------------------------------------------------- operations

  /** `addInput`: the concatenating operators drop empty inputs. */
  function Keep(kind: Kind, data: seq<Batch>, input: Batch): seq<Batch> {
    if kind.Concatenating? && input == [] then data else data + [input]
  }

  /** The critical section of `setData` / `setHashTable`. */
  function BridgePublish(b: Bridge, v: Published): (Bridge, seq<nat>) {
    (b.(data := Some(v), promises := []), b.promises)
  }

  /** The critical section of `hasDataOrFuture`: a result, or a newly issued promise. */
  function BridgePoll(b: Bridge): (Bridge, Option<Published>) {
    if b.data.Some? then (b, b.data)
    else (b.(promises := b.promises + [b.issued], issued := b.issued + 1), None)
  }

  function Flatten(data: seq<Batch>): seq<Row> {
    if data == [] then [] else data[0] + Flatten(data[1..])
  }

  function IsFinished(d: Driver): bool {
    !d.future && d.noMoreInput
  }

  // ---------------------------------------------------------------- step relation

  predicate WellFormed(s: State) {
    && |s.fed| == |s.drivers|
    && (forall i | 0 <= i < |s.barrier| :: s.barrier[i] < |s.drivers|)
    && (s.last.Some? ==> s.last.value < |s.drivers|)
    && (Active(s.pc) ==> s.last.Some?)
  }

  /** The publisher is inside `noMoreInput`. */
  predicate Active(pc: Pc) {
    pc.Gathering? || pc.Releasing? || pc.Publishing? || pc.Notifying?
  }

  predicate Enabled(s: State, step: Step) {
    match step
    case AddInput(d, _) => d < |s.drivers| && !s.drivers[d].noMoreInput
    case NoMoreInput(d) => d < |s.drivers| && !s.drivers[d].noMoreInput
    case IsBlocked(d) => d < |s.drivers| && s.drivers[d].future
    case Resume(d) => d < |s.drivers| && s.drivers[d].parked && d in s.released
    case Publisher => Active(s.pc)
    case Close(d) => d < |s.drivers| && CanClose(s, d)
    case Poll(p) => p < |s.probes| && s.probes[p].waiting.None?
    case Wake(p) => p < |s.probes| && s.probes[p].waiting.Some? && s.probes[p].waiting.value in s.fulfilled
  }

  /** The framework closes a driver that runs (is not parked, is not inside noMoreInput) and
      whose operator says it is finished. */
  predicate CanClose(s: State, d: nat)
    requires d < |s.drivers|
  {
    !s.drivers[d].parked && IsFinished(s.drivers[d]) && (s.last == Some(d) ==> s.pc.Done?)
  }

  function Apply(kind: Kind, s: State, step: Step): (s': State)
    requires WellFormed(s)
    ensures WellFormed(s')
  {
    if !Enabled(s, step) then s else
    match step
    case AddInput(d, input) =>
      var w := s.drivers[d];
      s.(fed := s.fed[d := s.fed[d] + [input]], drivers := s.drivers[d := w.(data := Keep(kind, w.data, input))])
    case NoMoreInput(d) =>
      var w := s.drivers[d].(noMoreInput := true);
      if |s.barrier| + 1 == |s.drivers|
      then s.(drivers := s.drivers[d := w], last := Some(d), pc := Gathering(0))
      else s.(drivers := s.drivers[d := w.(future := true)], barrier := s.barrier + [d])
    case IsBlocked(d) =>
      s.(drivers := s.drivers[d := s.drivers[d].(future := false, parked := true)])
    case Resume(d) =>
      s.(drivers := s.drivers[d := s.drivers[d].(parked := false)])
    case Publisher => PublisherStep(kind, s)
    case Close(d) =>
      var w := s.drivers[d];
      s.(drivers := s.drivers[d := w.(closed := true, data := if kind.Concatenating? then [] else w.data)])
    case Poll(p) =>
      var (b, answer) := BridgePoll(s.bridge);
      var q := if answer.Some? then s.probes[p].(answers := s.probes[p].answers + [answer.value])
               else s.probes[p].(waiting := Some(s.bridge.issued));
      s.(bridge := b, probes := s.probes[p := q])
    case Wake(p) =>
      s.(probes := s.probes[p := s.probes[p].(waiting := None)])
  }

  /** One step of the last driver's `noMoreInput`. */
  function PublisherStep(kind: Kind, s: State): (s': State)
    requires WellFormed(s) && Active(s.pc)
    ensures WellFormed(s')
  {
    match s.pc
    case Gathering(k) => GatherStep(kind, s)
    case Releasing(k) =>
      if k < |s.barrier| then s.(released := s.released + {s.barrier[k]}, pc := Releasing(k + 1))
      else s.(pc := if kind.Concatenating? then Publishing else Done)
    case Publishing => PublishStep(kind, s)
    case Notifying(todo) =>
      if todo == [] then s.(pc := if kind.Concatenating? then Done else Releasing(0))
      else s.(fulfilled := s.fulfilled + {todo[0]}, pc := Notifying(todo[1..]))
  }

  /** One peer's data is inserted before the publisher's, or built into a table. */
  function GatherStep(kind: Kind, s: State): (s': State)
    requires WellFormed(s) && s.pc.Gathering? && s.last.Some?
    ensures WellFormed(s')
  {
    var k, l := s.pc.k, s.last.value;
    if k >= |s.barrier| then s.(pc := if kind.Concatenating? then Releasing(0) else Publishing)
    else
      var peer, w := s.drivers[s.barrier[k]], s.drivers[l];
      if kind.Concatenating?
      then s.(drivers := s.drivers[l := w.(data := peer.data + w.data)], pc := Gathering(k + 1))
      else s.(tables := s.tables + multiset(Flatten(peer.data)), pc := Gathering(k + 1))
  }

  /** The rows are appended (or the tables merged) and the bridge is entered. */
  function PublishStep(kind: Kind, s: State): (s': State)
    requires WellFormed(s) && s.pc.Publishing? && s.last.Some?
    ensures WellFormed(s')
  {
    var data := s.drivers[s.last.value].data;
    if kind.Concatenating? && data == [] then s.(pc := Faulted)
    else if kind.Concatenating? && s.bridge.data.Some? then s.(pc := Rejected)
    else
      var v := if kind.Concatenating? then Rows(Flatten(data)) else Table(s.tables + multiset(Flatten(data)));
      var (b, todo) := BridgePublish(s.bridge, v);
      s.(bridge := b, pc := Notifying(todo))
  }

  const FRESH_DRIVER := Driver([], false, false, false, false)

  function Initial(drivers: nat, probes: nat): (s: State)
    ensures WellFormed(s)
  {
    State(seq(drivers, _ => FRESH_DRIVER), seq(drivers, _ => []), [], None, NotStarted, multiset{}, {},
          Bridge(None, [], 0), {}, seq(probes, _ => Probe(None, [])))
  }

  /** The state after a schedule. */
  function Exec(kind: Kind, s: State, schedule: seq<Step>): (s': State)
    requires WellFormed(s)
    ensures WellFormed(s')
    decreases |schedule|
  {
    if schedule == [] then s
    else Apply(kind, Exec(kind, s, schedule[..|schedule| - 1]), schedule[|schedule| - 1])
  }

  // ---------------------------------------------------------------- specification

  /** What a driver's buffer holds after being fed `fed`. */
  function Kept(kind: Kind, fed: seq<Batch>): seq<Batch>
  {
    if fed == [] then [] else Keep(kind, Kept(kind, fed[..|fed| - 1]), fed[|fed| - 1])
  }

  /** Buffers of the peers, the last of them first. */
  function Collected(kind: Kind, fed: seq<seq<Batch>>, peers: seq<nat>): seq<Batch>
    requires forall i | 0 <= i < |peers| :: peers[i] < |fed|
  {
    if peers == [] then []
    else Kept(kind, fed[peers[|peers| - 1]]) + Collected(kind, fed, peers[..|peers| - 1])
  }

  /** All build batches: peers last to first, then the publisher's own. */
  function Gathered(kind: Kind, s: State): seq<Batch>
    requires WellFormed(s) && s.last.Some?
  {
    Collected(kind, s.fed, s.barrier) + Kept(kind, s.fed[s.last.value])
  }

  function Expected(kind: Kind, s: State): Published
    requires WellFormed(s) && s.last.Some?
  {
    if kind.Concatenating? then Rows(Flatten(Gathered(kind, s)))
    else Table(multiset(Flatten(Gathered(kind, s))))
  }

  predicate Distinct(ids: seq<nat>) {
    forall i, j | 0 <= i < j < |ids| :: ids[i] != ids[j]
  }

  /** Driver `d` has reached the barrier (as a peer or as the publisher). */
  predicate Arrived(s: State, d: nat) {
    d in s.barrier || s.last == Some(d)
  }

  function ToSet(ids: seq<nat>): set<nat> {
    set x | x in ids
  }

  /** Who is where: the barrier, the futures and the publisher. */
  ghost predicate BarrierInv(s: State)
    requires WellFormed(s)
  {
    && Distinct(s.barrier)
    && |s.barrier| < |s.drivers|
    && (forall d :: 0 <= d < |s.drivers| ==> (s.drivers[d].noMoreInput <==> Arrived(s, d)))
    && (forall d :: 0 <= d < |s.drivers| && d !in s.barrier ==> !s.drivers[d].future && !s.drivers[d].parked)
    && (s.last.None? <==> s.pc.NotStarted?)
    && (s.last.Some? ==> s.last.value !in s.barrier && |s.barrier| + 1 == |s.drivers|)
    // a peer that is neither about to park nor parked has been released, and so has a closed one
    && (forall d :: d in s.barrier && !s.drivers[d].future && !s.drivers[d].parked ==> d in s.released)
    && (forall d :: 0 <= d < |s.drivers| && s.drivers[d].closed ==> CanClose(s, d))
  }

  /** Which barrier promises are fulfilled, by the publisher's position. */
  ghost predicate ReleaseInv(kind: Kind, s: State) {
    match s.pc
    case NotStarted => s.released == {}
    case Gathering(k) => k <= |s.barrier| && s.released == {}
    case Releasing(k) => k <= |s.barrier| && s.released == ToSet(s.barrier[..k])
    case Publishing => s.released == (if kind.Concatenating? then ToSet(s.barrier) else {})
    case Notifying(_) => s.released == (if kind.Concatenating? then ToSet(s.barrier) else {})
    case Done => s.released == ToSet(s.barrier)
    case Faulted => kind.Concatenating? && s.released == ToSet(s.barrier)
    case Rejected => false
  }

  /** The peers whose data the publisher has taken. */
  function Taken(s: State): seq<nat> {
    if s.pc.NotStarted? then []
    else if s.pc.Gathering? && s.pc.k <= |s.barrier| then s.barrier[..s.pc.k]
    else s.barrier
  }

  /** What the buffers hold. */
  ghost predicate DataInv(kind: Kind, s: State)
    requires WellFormed(s)
  {
    && (forall d :: 0 <= d < |s.drivers| && s.last != Some(d) && (kind.Hashing? || !s.drivers[d].closed)
          ==> s.drivers[d].data == Kept(kind, s.fed[d]))
    && (s.last.Some? ==> PublisherHolds(kind, s, s.drivers[s.last.value]))
  }

  ghost predicate PublisherHolds(kind: Kind, s: State, w: Driver)
    requires WellFormed(s) && s.last.Some?
  {
    var own, peers := Kept(kind, s.fed[s.last.value]), Collected(kind, s.fed, Taken(s));
    match kind
    case Concatenating => !w.closed ==> w.data == peers + own
    case Hashing => w.data == own && s.tables == multiset(Flatten(peers))
  }

  /** The bridge holds nothing before publication, and the expected result after it. */
  ghost predicate BridgeInv(kind: Kind, s: State)
    requires WellFormed(s)
  {
    && (s.bridge.data.Some? <==> Past(kind, s.pc))
    && (s.bridge.data.Some? ==> s.last.Some? && s.bridge.data.value == Expected(kind, s) && s.bridge.promises == [])
    && (s.bridge.data.Some? && kind.Concatenating? ==> Gathered(kind, s) != [])
    && (s.pc.Faulted? ==> s.last.Some? && Gathered(kind, s) == [])
    && (s.last.None? ==> s.tables == multiset{})
  }

  /** The publisher has left the bridge's critical section. */
  predicate Past(kind: Kind, pc: Pc) {
    pc.Notifying? || pc.Done? || (kind.Hashing? && pc.Releasing?)
  }

  /** Promises moved out of the bridge and not yet fulfilled. */
  function InFlight(s: State): seq<nat> {
    if s.pc.Notifying? then s.pc.todo else []
  }

  /** Every issued promise is in exactly one place, once. */
  ghost predicate PromiseInv(s: State) {
    && Distinct(s.bridge.promises) && Distinct(InFlight(s))
    && (forall x | x in s.bridge.promises :: x !in InFlight(s) && x !in s.fulfilled)
    && (forall x | x in InFlight(s) :: x !in s.fulfilled)
    && (forall x: nat :: x < s.bridge.issued <==> x in s.bridge.promises || x in InFlight(s) || x in s.fulfilled)
  }

  ghost predicate ProbeInv(s: State) {
    && (forall p | 0 <= p < |s.probes| && s.probes[p].waiting.Some? :: s.probes[p].waiting.value < s.bridge.issued)
    && (forall p, i | 0 <= p < |s.probes| && 0 <= i < |s.probes[p].answers| :: s.bridge.data == Some(s.probes[p].answers[i]))
  }

  ghost predicate Inv(kind: Kind, s: State) {
    && WellFormed(s)
    && BarrierInv(s)
    && ReleaseInv(kind, s)
    && DataInv(kind, s)
    && BridgeInv(kind, s)
    && PromiseInv(s)
    && ProbeInv(s)
  }
}

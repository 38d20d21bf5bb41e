/**
The debug timers of one thread: starting and stopping them leaves a flat list of depths, and the
JSON encoder turns that list back into a tree.  The reference is the call tree itself, built with
a stack: a timer that stops becomes the youngest child of the timer that encloses it.
*/
module TimerTree {

  /** One `Duration`: its depth and its name. */
  datatype Entry = Entry(depth: int, name: nat)

  /** A JSON node: name and children. */
  datatype Node = Node(name: nat, children: seq<Node>)

  // ---------------------------------------------------------------- the encoder

  /** `childNodes` on the list from the iterator on: direct children are the entries one deeper
      than the parent that come before any entry as shallow as the parent. */
  function Children(list: seq<Entry>, parentDepth: int): seq<Node>
    decreases |list|
  {
    if list == [] || list[0].depth <= parentDepth then []
    else if list[0].depth == parentDepth + 1 then
      [Node(list[0].name, Children(list[1..], list[0].depth))] + Children(list[1..], parentDepth)
    else Children(list[1..], parentDepth)
  }

  /** The loop of `childNodes`, over `durations[begin..]`. */
  method ChildNodes(durations: seq<Entry>, begin: nat, parentDepth: int) returns (children: seq<Node>)
    requires begin <= |durations|
    ensures children == Children(durations[begin..], parentDepth)
    decreases |durations| - begin
  {
    children := [];
    var itr := begin;
    while itr != |durations|
      invariant begin <= itr <= |durations|
      invariant children + Children(durations[itr..], parentDepth) == Children(durations[begin..], parentDepth)
      decreases |durations| - itr
    {
      var depth := durations[itr].depth;
      assert durations[itr..][1..] == durations[itr + 1..];
      if depth <= parentDepth {
        break;
      }
      if depth == parentDepth + 1 {
        var grandchildren := ChildNodes(durations, itr + 1, depth);
        children := children + [Node(durations[itr].name, grandchildren)];
      }
      itr := itr + 1;
    }
  }

  /** `timer`: the root and its children. */
  function Timer(durations: seq<Entry>): Node
    requires durations != []
  {
    Node(durations[0].name, Children(durations[1..], 0))
  }

  // ---------------------------------------------------------------- flattening

  /** A forest as the list of depths its timers leave, in start order. */
  function Flatten(forest: seq<Node>, depth: int): seq<Entry> {
    if forest == [] then []
    else [Entry(depth, forest[0].name)] + Flatten(forest[0].children, depth + 1) + Flatten(forest[1..], depth)
  }

  lemma {:induction false} FlattenConcat(a: seq<Node>, b: seq<Node>, depth: int)
    ensures Flatten(a + b, depth) == Flatten(a, depth) + Flatten(b, depth)
    decreases |a|
  {
    if a == [] {
      assert a + b == b;
    } else {
      FlattenConcat(a[1..], b, depth);
      assert (a + b)[1..] == a[1..] + b && (a + b)[0] == a[0];
      Regroup([Entry(depth, a[0].name)], Flatten(a[0].children, depth + 1), Flatten(a[1..], depth), Flatten(b, depth));
    }
  }

  lemma Regroup(a: seq<Entry>, b: seq<Entry>, c: seq<Entry>, d: seq<Entry>)
    ensures a + b + (c + d) == a + b + c + d
  {
  }

  lemma FlattenSplit(forest: seq<Node>, depth: int, rest: seq<Entry>)
    requires forest != []
    ensures var list := Flatten(forest, depth) + rest;
            && list != [] && list[0] == Entry(depth, forest[0].name)
            && list[1..] == Flatten(forest[0].children, depth + 1) + (Flatten(forest[1..], depth) + rest)
  {
  }

  lemma FlattenStarts(forest: seq<Node>, depth: int)
    ensures forest != [] ==> Flatten(forest, depth) != [] && Flatten(forest, depth)[0].depth == depth
  {
  }

  /** Deeper entries are skipped. */
  lemma {:induction false} SkipDeeper(forest: seq<Node>, depth: int, rest: seq<Entry>, parentDepth: int)
    requires depth > parentDepth + 1
    ensures Children(Flatten(forest, depth) + rest, parentDepth) == Children(rest, parentDepth)
    decreases forest
  {
    if forest == [] {
      assert Flatten(forest, depth) + rest == rest;
    } else {
      FlattenSplit(forest, depth, rest);
      SkipDeeper(forest[0].children, depth + 1, Flatten(forest[1..], depth) + rest, parentDepth);
      SkipDeeper(forest[1..], depth, rest, parentDepth);
    }
  }

  /** The list ends, or goes on with an entry at most as deep as `depth`. */
  predicate EndsAt(rest: seq<Entry>, depth: int) {
    rest != [] ==> rest[0].depth <= depth
  }

  /** Encoding a flattened forest gives the forest back, whatever shallower entry follows it. */
  lemma {:induction false} ChildrenOfFlatten(forest: seq<Node>, depth: int, rest: seq<Entry>)
    requires EndsAt(rest, depth)
    ensures Children(Flatten(forest, depth + 1) + rest, depth) == forest
    decreases forest
  {
    if forest == [] {
      assert Flatten(forest, depth + 1) + rest == rest;
    } else {
      var after := Flatten(forest[1..], depth + 1) + rest;
      FlattenSplit(forest, depth + 1, rest);
      FlattenStarts(forest[1..], depth + 1);
      ChildrenOfFlatten(forest[0].children, depth + 1, after);
      SkipDeeper(forest[0].children, depth + 2, after, depth);
      ChildrenOfFlatten(forest[1..], depth, rest);
      assert forest == [Node(forest[0].name, forest[0].children)] + forest[1..];
    }
  }

  /** Encoding a flattened tree gives the tree back. */
  lemma TimerOfFlatten(tree: Node)
    ensures Flatten([tree], 0) != [] && Timer(Flatten([tree], 0)) == tree
  {
    var list := Flatten([tree], 0);
    FlattenSplit([tree], 0, []);
    assert list + [] == list;
    assert Flatten([tree][1..], 0) + [] == [];
    ChildrenOfFlatten(tree.children, 0, []);
  }

  // ---------------------------------------------------------------- runs

  datatype Event = Start(name: nat) | Stop

  /** What the thread's DurationTree holds. */
  datatype Log = Log(durations: seq<Entry>, currentDepth: int)

  function Record(log: Log, e: Event): Log {
    match e
    case Start(name) => Log(log.durations + [Entry(log.currentDepth, name)], log.currentDepth + 1)
    case Stop => log.(currentDepth := log.currentDepth - 1)
  }

  function Recorded(events: seq<Event>): Log {
    if events == [] then Log([], 0)
    else Record(Recorded(events[..|events| - 1]), events[|events| - 1])
  }

  /** The DurationTree object: `current_depth_` starts one deeper for the tree of a child thread. */
  class DurationTree {
    var durations: seq<Entry>
    var currentDepth: int

    constructor (startDepth: nat)
      ensures Abs() == Log([], if startDepth == 0 then 0 else startDepth + 1)
    {
      durations := [];
      currentDepth := startDepth + (if startDepth == 0 then 0 else 1);
    }

    function Abs(): Log
      reads this
    {
      Log(durations, currentDepth)
    }

    method NewDuration(name: nat) returns (duration: Entry)
      modifies this
      ensures Abs() == Record(old(Abs()), Start(name))
      ensures duration == Entry(old(currentDepth), name) && durations == old(durations) + [duration]
    {
      duration := Entry(currentDepth, name);
      durations := durations + [duration];
      currentDepth := currentDepth + 1;
    }

    /** True iff the stopped timer is the root. */
    method StopDuration(duration: Entry) returns (root: bool)
      modifies this
      ensures Abs() == Record(old(Abs()), Stop)
      ensures root == (duration.depth == 0)
    {
      currentDepth := currentDepth - 1;
      root := duration.depth == 0;
    }
  }

  // ---------------------------------------------------------------- the call tree

  /** A running timer and its finished children. */
  datatype Frame = Frame(name: nat, kids: seq<Node>)

  /** The running timers, outermost first, and the finished root, if any. */
  datatype Stack = Stack(running: seq<Frame>, done: seq<Node>)

  predicate Allowed(s: Stack, e: Event) {
    match e
    case Start(_) => s.done == []
    case Stop => s.running != []
  }

  function Finish(f: Frame): Node {
    Node(f.name, f.kids)
  }

  function Push(s: Stack, e: Event): Stack
    requires Allowed(s, e)
  {
    match e
    case Start(name) => s.(running := s.running + [Frame(name, [])])
    case Stop =>
      var n := |s.running| - 1;
      var node := Finish(s.running[n]);
      if n == 0 then Stack([], [node])
      else
        var outer := s.running[n - 1];
        s.(running := s.running[..n - 1] + [outer.(kids := outer.kids + [node])])
  }

  /** Timers are stopped in stack order, under one root. */
  predicate Disciplined(events: seq<Event>)
    decreases |events|, 0
  {
    events == [] ||
    (Disciplined(events[..|events| - 1]) && Allowed(CallStack(events[..|events| - 1]), events[|events| - 1]))
  }

  function CallStack(events: seq<Event>): Stack
    requires Disciplined(events)
    decreases |events|, 1
  {
    if events == [] then Stack([], [])
    else Push(CallStack(events[..|events| - 1]), events[|events| - 1])
  }

  /** The list a stack of running timers has left so far. */
  function FlattenRunning(running: seq<Frame>): seq<Entry> {
    if running == [] then []
    else
      var n := |running| - 1;
      FlattenRunning(running[..n]) + [Entry(n, running[n].name)] + Flatten(running[n].kids, n + 1)
  }

  /** One more finished child of the innermost timer. */
  lemma AddKid(running: seq<Frame>, node: Node)
    requires running != []
    ensures var n := |running| - 1;
            var more := running[..n] + [running[n].(kids := running[n].kids + [node])];
            FlattenRunning(more) == FlattenRunning(running) + Flatten([node], n + 1)
  {
    var n := |running| - 1;
    var more := running[..n] + [running[n].(kids := running[n].kids + [node])];
    assert more[..n] == running[..n];
    FlattenConcat(running[n].kids, [node], n + 1);
  }

  /** In every disciplined run the list is the flattened call tree so far, and the current depth is
      the number of running timers. */
  lemma {:induction false} ListIsCallTree(events: seq<Event>)
    requires Disciplined(events)
    ensures var s := CallStack(events);
            && (s.done != [] ==> |s.done| == 1 && s.running == [])
            && Recorded(events) == Log(ListOf(s), |s.running|)
    decreases |events|
  {
    if events != [] {
      var before := events[..|events| - 1];
      ListIsCallTree(before);
      var s := CallStack(before);
      match events[|events| - 1] {
        case Start(name) => StartKeeps(s, name);
        case Stop => StopKeeps(s);
      }
    }
  }

  /** The list that a stack stands for. */
  function ListOf(s: Stack): seq<Entry> {
    FlattenRunning(s.running) + Flatten(s.done, 0)
  }

  lemma StartKeeps(s: Stack, name: nat)
    requires s.done == []
    ensures ListOf(Push(s, Start(name))) == ListOf(s) + [Entry(|s.running|, name)]
  {
    var more := s.running + [Frame(name, [])];
    assert more[..|s.running|] == s.running;
  }

  lemma StopKeeps(s: Stack)
    requires s.running != [] && s.done == []
    ensures ListOf(Push(s, Stop)) == ListOf(s)
  {
    var n := |s.running| - 1;
    var f := s.running[n];
    assert Flatten([Finish(f)], n) == [Entry(n, f.name)] + Flatten(f.kids, n + 1) + [];
    assert FlattenRunning(s.running) == FlattenRunning(s.running[..n]) + Flatten([Finish(f)], n);
    if n > 0 {
      AddKid(s.running[..n], Finish(f));
      assert s.running[..n][..n - 1] == s.running[..n - 1];
    }
  }

  /** The JSON tree of every finished, disciplined run is its call tree. */
  lemma JsonIsCallTree(events: seq<Event>)
    requires Disciplined(events) && events != [] && CallStack(events).running == []
    ensures Recorded(events).durations != []
    ensures CallStack(events).done == [Timer(Recorded(events).durations)]
  {
    ListIsCallTree(events);
    var s := CallStack(events);
    assert FlattenRunning([]) + Flatten(s.done, 0) == Flatten(s.done, 0);
    SomethingHappened(events);
    TimerOfFlatten(s.done[0]);
    assert s.done == [s.done[0]];
  }

  /** A run that is not empty has a timer running or a finished root. */
  lemma {:induction false} SomethingHappened(events: seq<Event>)
    requires Disciplined(events) && events != []
    ensures CallStack(events).running != [] || CallStack(events).done != []
    decreases |events|
  {
    var before := events[..|events| - 1];
    if before != [] {
      SomethingHappened(before);
    }
  }

  // ---------------------------------------------------------------- every timer, once

  function Names(forest: seq<Node>): multiset<nat> {
    if forest == [] then multiset{}
    else multiset{forest[0].name} + Names(forest[0].children) + Names(forest[1..])
  }

  function Started(events: seq<Event>): multiset<nat> {
    if events == [] then multiset{}
    else
      var e := events[|events| - 1];
      Started(events[..|events| - 1]) + (if e.Start? then multiset{e.name} else multiset{})
  }

  function EntryNames(list: seq<Entry>): multiset<nat> {
    if list == [] then multiset{} else EntryNames(list[..|list| - 1]) + multiset{list[|list| - 1].name}
  }

  lemma {:induction false} EntryNamesConcat(a: seq<Entry>, b: seq<Entry>)
    ensures EntryNames(a + b) == EntryNames(a) + EntryNames(b)
    decreases |b|
  {
    if b == [] {
      assert a + b == a;
    } else {
      var n := |b| - 1;
      assert (a + b)[..|a + b| - 1] == a + b[..n];
      EntryNamesConcat(a, b[..n]);
    }
  }

  lemma {:induction false} FlattenNames(forest: seq<Node>, depth: int)
    ensures EntryNames(Flatten(forest, depth)) == Names(forest)
    decreases forest
  {
    if forest != [] {
      var first := [Entry(depth, forest[0].name)];
      FlattenNames(forest[0].children, depth + 1);
      FlattenNames(forest[1..], depth);
      EntryNamesConcat(first, Flatten(forest[0].children, depth + 1));
      EntryNamesConcat(first + Flatten(forest[0].children, depth + 1), Flatten(forest[1..], depth));
      assert EntryNames(first) == multiset{forest[0].name} by {
        assert first[..0] == [];
      }
    }
  }

  lemma {:induction false} RecordedNames(events: seq<Event>)
    ensures EntryNames(Recorded(events).durations) == Started(events)
    decreases |events|
  {
    if events != [] {
      var before := events[..|events| - 1];
      RecordedNames(before);
      var d := Recorded(before).durations;
      if events[|events| - 1].Start? {
        assert Recorded(events).durations[..|d|] == d;
      }
    }
  }

  /** Every timer that was started is in the JSON tree, as often as it was started. */
  lemma EveryTimerOnce(events: seq<Event>)
    requires Disciplined(events) && events != [] && CallStack(events).running == []
    ensures Recorded(events).durations != []
    ensures Names([Timer(Recorded(events).durations)]) == Started(events)
  {
    JsonIsCallTree(events);
    ListIsCallTree(events);
    RecordedNames(events);
    var s := CallStack(events);
    assert FlattenRunning([]) + Flatten(s.done, 0) == Flatten(s.done, 0);
    FlattenNames(s.done, 0);
  }
}

/**
Splitting an index range among workers: `makeIntervals` over an integer type with `size` values
starting at `low` (signed or unsigned, any width), including its wrap-around.
*/
module Intervals {

  /** An integer type T of `size` values and its unsigned counterpart U = [0, size). */
  datatype Width = Width(low: int, size: nat)

  const SIZE_T: nat := 0x1_0000_0000_0000_0000

  predicate IsType(t: Width) {
    2 <= t.size <= SIZE_T && t.low <= 0 < t.low + t.size
  }

  predicate InT(t: Width, x: int) {
    t.low <= x < t.low + t.size
  }

  /** Conversion to T. */
  function ToT(t: Width, x: int): (r: int)
    requires t.size > 0
    ensures InT(t, r)
    ensures InT(t, x) ==> r == x
  {
    (x - t.low) % t.size + t.low
  }

  /** Conversion to U. */
  function ToU(t: Width, x: int): (r: nat)
    requires t.size > 0
    ensures r < t.size
    ensures 0 <= x < t.size ==> r == x
  {
    x % t.size
  }

  datatype Interval = Interval(begin: int, end: int, index: nat)

  /** The members of `Intervals`. */
  datatype Plan = Plan(begin: int, total: nat, quot: nat, rem: nat)

  /** `makeIntervals` and the constructor. */
  function MakeIntervals(t: Width, begin: int, end: int, workers: nat): Plan
    requires IsType(t)
  {
    var n := Clamp(t, workers);
    var total := if begin < end && n != 0 then ToU(t, end - begin) else 0;
    Plan(begin, total, if n != 0 then total / n else 0, if n != 0 then total % n else 0)
  }

  /** The iterator object. */
  class Iterator {
    const t: Width
    var begin: int
    const quot: nat
    var rem: nat
    var index: nat

    constructor (t: Width, begin: int, quot: nat, rem: nat)
      ensures this.t == t && this.begin == begin && this.quot == quot && this.rem == rem && index == 0
    {
      this.t, this.begin, this.quot, this.rem, index := t, begin, quot, rem, 0;
    }

    /** `operator*`. */
    method Current() returns (r: Interval)
      requires IsType(t)
      ensures r == Interval(begin, ToT(t, begin + quot + (if rem != 0 then 1 else 0)), index)
    {
      r := Interval(begin, ToT(t, begin + quot + (if rem != 0 then 1 else 0)), index);
    }

    /** `operator++`. */
    method Advance()
      requires IsType(t)
      modifies this
      ensures begin == ToT(t, old(begin) + quot + (if old(rem) != 0 then 1 else 0))
      ensures rem == (if old(rem) != 0 then old(rem) - 1 else 0) && index == ToU(t, old(index) + 1)
    {
      var step := quot;
      if rem != 0 {
        step := step + 1;
        rem := rem - 1;
      }
      begin := ToT(t, begin + step);
      index := ToU(t, index + 1);
    }
  }

  // ---------------------------------------------------------------- the tiling

  /** Where the k-th interval begins, without wrap-around. */
  function Bound(p: Plan, k: nat): int {
    p.begin + k * p.quot + (if k < p.rem then k else p.rem)
  }

  function Tiles(p: Plan, count: nat): seq<Interval> {
    seq(count, k requires k >= 0 => Interval(Bound(p, k), Bound(p, k + 1), k))
  }

  /** How many intervals there are: one per worker, but none empty. */
  function Count(begin: int, end: int, workers: nat): nat {
    if end <= begin then 0 else if workers < end - begin then workers else end - begin
  }

  lemma BoundStep(p: Plan, k: nat)
    ensures Bound(p, k + 1) == Bound(p, k) + p.quot + (if k < p.rem then 1 else 0)
  {
    assert (k + 1) * p.quot == k * p.quot + p.quot;
  }

  lemma {:induction false} BoundMonotone(p: Plan, j: nat, k: nat)
    requires j <= k
    ensures Bound(p, j) <= Bound(p, k)
    decreases k - j
  {
    if j < k {
      BoundMonotone(p, j, k - 1);
      BoundStep(p, k - 1);
    }
  }

  lemma TilesSnoc(p: Plan, k: nat)
    ensures Tiles(p, k + 1) == Tiles(p, k) + [Interval(Bound(p, k), Bound(p, k + 1), k)]
  {
  }

  function Min(a: nat, b: nat): nat {
    if a < b then a else b
  }

  /** Quotient and remainder spread over as many parts as there are workers or items. */
  lemma Spread(total: nat, n: nat)
    requires n >= 1
    ensures var q, r, c := total / n, total % n, Min(n, total);
            c * q + Min(c, r) == total && r <= c && (c > 0 ==> q >= 1 || r == c)
  {
    if total < n {
      SmallDividend(total, n);
    } else {
      var q, r := total / n, total % n;
      assert total == n * q + r;
    }
  }

  lemma SmallDividend(a: nat, n: nat)
    requires a < n
    ensures a / n == 0 && a % n == a
  {
  }

  /** The number of workers, as U. */
  function Clamp(t: Width, workers: nat): nat
    requires IsType(t)
  {
    if t.size < SIZE_T && t.size - 1 < workers then t.size - 1 else ToU(t, workers)
  }

  /** No size of a range needs more workers than U can count. */
  lemma ClampHarmless(t: Width, begin: int, end: int, workers: nat)
    requires IsType(t) && InT(t, begin) && InT(t, end) && workers < SIZE_T
    ensures Clamp(t, workers) == 0 <==> workers == 0
    ensures begin < end ==> ToU(t, end - begin) == end - begin && Min(Clamp(t, workers), end - begin) == Count(begin, end, workers)
  {
  }

  /** What the constructor computes, for arguments of the type. */
  lemma PlanShape(t: Width, begin: int, end: int, workers: nat)
    requires IsType(t) && InT(t, begin) && InT(t, end) && workers < SIZE_T
    ensures
      var p, count := MakeIntervals(t, begin, end, workers), Count(begin, end, workers);
      && p.begin == begin
      && p.total == (if count == 0 then 0 else end - begin)
      && Bound(p, count) == begin + p.total
      && (count > 0 ==> p.quot >= 1 || p.rem == count)
      && p.rem <= count
  {
    ClampHarmless(t, begin, end, workers);
    if begin < end && workers != 0 {
      Spread(end - begin, Clamp(t, workers));
    }
  }

  /** The range-based for loop over `makeIntervals`: it ends, after `Count` intervals, and the end
      test -- which compares only the wrapped begin -- never fires early. */
  method Iterate(t: Width, begin: int, end: int, workers: nat) returns (out: seq<Interval>)
    requires IsType(t) && InT(t, begin) && InT(t, end) && workers < SIZE_T
    ensures out == Tiles(MakeIntervals(t, begin, end, workers), Count(begin, end, workers))
  {
    var p := MakeIntervals(t, begin, end, workers);
    PlanShape(t, begin, end, workers);
    out := Run(t, p, Count(begin, end, workers));
  }

  method Run(t: Width, p: Plan, ghost count: nat) returns (out: seq<Interval>)
    requires IsType(t) && InT(t, p.begin) && InT(t, p.begin + p.total) && count < t.size
    requires Bound(p, count) == p.begin + p.total && p.rem <= count && (count > 0 ==> p.quot >= 1 || p.rem == count)
    ensures out == Tiles(p, count)
  {
    var stop := ToT(t, p.begin + p.total);
    var it := new Iterator(t, p.begin, p.quot, p.rem);
    out := [];
    assert Bound(p, 0) == p.begin;
    while it.begin != stop
      invariant it.t == t && it.quot == p.quot && |out| <= count
      invariant it.begin == Bound(p, |out|)
      invariant it.rem == if |out| < p.rem then p.rem - |out| else 0
      invariant it.index == |out|
      invariant out == Tiles(p, |out|)
      decreases count - |out|
    {
      StepFits(t, p, |out|, count);
      TilesSnoc(p, |out|);
      var current := it.Current();
      out := out + [current];
      it.Advance();
    }
    if |out| < count {
      StepFits(t, p, |out|, count);
    }
  }

  /** The next bound is further on, and still inside the range. */
  lemma StepFits(t: Width, p: Plan, k: nat, count: nat)
    requires k < count && InT(t, p.begin) && InT(t, p.begin + p.total) && count < t.size
    requires Bound(p, count) == p.begin + p.total && p.rem <= count && (count > 0 ==> p.quot >= 1 || p.rem == count)
    ensures Bound(p, k + 1) == Bound(p, k) + p.quot + (if k < p.rem then 1 else 0)
    ensures Bound(p, k) < Bound(p, k + 1) <= p.begin + p.total && InT(t, Bound(p, k + 1))
  {
    BoundStep(p, k);
    BoundMonotone(p, k + 1, count);
    BoundMonotone(p, 0, k + 1);
  }

  // ---------------------------------------------------------------- what the tiling gives

  /** Contiguous, non-empty intervals in order that tile [begin, end), the larger ones first and no
      two differing by more than one. */
  lemma TilesTile(t: Width, begin: int, end: int, workers: nat)
    requires IsType(t) && InT(t, begin) && InT(t, end) && workers < SIZE_T && begin < end && workers > 0
    ensures
      var s := Tiles(MakeIntervals(t, begin, end, workers), Count(begin, end, workers));
      && 0 < |s| == Min(workers, end - begin)
      && s[0].begin == begin && s[|s| - 1].end == end
      && (forall k | 0 <= k < |s| :: s[k].begin < s[k].end && s[k].index == k)
      && (forall k | 0 < k < |s| :: s[k].begin == s[k - 1].end)
      && (forall j, k | 0 <= j < k < |s| :: 0 <= (s[j].end - s[j].begin) - (s[k].end - s[k].begin) <= 1)
  {
    var p, count := MakeIntervals(t, begin, end, workers), Count(begin, end, workers);
    PlanShape(t, begin, end, workers);
    var s := Tiles(p, count);
    assert Bound(p, 0) == begin;
    forall k | 0 <= k < count
      ensures s[k].end == s[k].begin + p.quot + (if k < p.rem then 1 else 0) && s[k].begin < s[k].end
    {
      StepFits(t, p, k, count);
    }
  }

  /** An empty range, or no workers: no intervals. */
  lemma NoTiles(t: Width, begin: int, end: int, workers: nat)
    requires IsType(t) && InT(t, begin) && InT(t, end) && workers < SIZE_T
    ensures Tiles(MakeIntervals(t, begin, end, workers), Count(begin, end, workers)) == [] <==> end <= begin || workers == 0
  {
  }
}

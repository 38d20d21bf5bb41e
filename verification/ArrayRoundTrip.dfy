/**
Arrays written by any number of appends and read back.
*/
module ArrayRoundTrip {
  import opened Wrappers
  import opened IntegerColumns
  import opened ChunkIter
  import opened ArrayEncoder

  // ---------------------------------------------------------------- one append

  /** The buffers hold the table and the payload of `arrays` behind `front`, and nothing else. */
  ghost predicate Holds(s: Buffers, arrays: seq<Item>, front: seq<Byte>) {
    HoldsAfter(s, [], [], arrays, front)
  }

  /** The same behind offsets and bytes that were there before. */
  ghost predicate HoldsAfter(s: Buffers, index: seq<int>, bytes: seq<Byte>, arrays: seq<Item>, front: seq<Byte>) {
    s == Buffers(index + TableOf(arrays, |front|), PayloadOf(arrays, bytes + front), |arrays|)
  }

  /** The place reached after all of `arrays`. */
  function Total(arrays: seq<Item>, base: nat): nat {
    Reach(arrays, base, |arrays|)
  }

  lemma TotalSnoc(arrays: seq<Item>, item: Item, base: nat)
    ensures Total(arrays + [item], base) == Total(arrays, base) + Length(item)
  {
    ReachPrefix(arrays + [item], base, |arrays|, |arrays|);
    assert (arrays + [item])[..|arrays|] == arrays;
  }

  lemma TableSnoc(arrays: seq<Item>, item: Item, base: nat)
    ensures var end := Total(arrays, base) + Length(item);
            TableOf(arrays + [item], base) == TableOf(arrays, base) + [if item.None? then 0 - end else end]
  {
    var longer := arrays + [item];
    TotalSnoc(arrays, item, base);
    forall i | 0 <= i <= |arrays|
      ensures TableOf(longer, base)[i] == TableOf(arrays, base)[i]
    {
      ReachPrefix(longer, base, i, |arrays|);
      assert longer[..|arrays|] == arrays;
    }
  }

  /** The entries of an append are the table's, as long as the offsets fit in 32 bits. */
  lemma {:induction false} EntriesAreTable(arrays: seq<Item>, items: seq<Item>, base: nat)
    requires Total(arrays + items, base) <= MAX_OFFSET
    ensures Fold(Next, items, Written(TableOf(arrays, base), Total(arrays, base))) ==
            Written(TableOf(arrays + items, base), Total(arrays + items, base))
    decreases |items|
  {
    if items == [] {
      assert arrays + items == arrays;
    } else {
      var n := |items| - 1;
      var shorter := arrays + items[..n];
      assert arrays + items == shorter + [items[n]];
      TotalSnoc(shorter, items[n], base);
      EntriesAreTable(arrays, items[..n], base);
      TableSnoc(shorter, items[n], base);
    }
  }

  lemma LastEntry(arrays: seq<Item>, base: nat)
    requires arrays != []
    ensures var t := TableOf(arrays, base);
            t[|arrays|] == if arrays[|arrays| - 1].None? then 0 - Total(arrays, base) else Total(arrays, base)
  {
  }

  /** What the check on the last offset refuses: one byte in front of a NULL, with no padding. */
  predicate Stops(arrays: seq<Item>, base: nat) {
    arrays != [] && arrays[|arrays| - 1].None? && Total(arrays, base) == 1
  }

  /** The bytes in front of the first array, chosen by the first element of the first source. */
  function FrontOf(src: seq<Item>, padding: seq<Byte>): seq<Byte>
    requires src != []
  {
    if NeedsPadding(src[0]) then padding else []
  }

  lemma AppendStops(s: Buffers, index: seq<int>, bytes: seq<Byte>, arrays: seq<Item>, front: seq<Byte>, src: seq<Item>, items: seq<Item>, padding: seq<Byte>)
    requires HoldsAfter(s, index, bytes, arrays, front) && arrays != [] && src != []
    ensures Append(s, src, items, padding).None? <==> Stops(arrays, |front|)
  {
    LastEntry(arrays, |front|);
    assert s.index[|s.index| - 1] == TableOf(arrays, |front|)[|arrays|];
  }

  lemma {:induction false} FoldBehind(items: seq<Item>, index: seq<int>, w: Written)
    ensures Fold(Next, items, Written(index + w.index, w.last)) ==
            var f := Fold(Next, items, w); Written(index + f.index, f.last)
    decreases |items|
  {
    if items != [] {
      var n := |items| - 1;
      FoldBehind(items[..n], index, w);
      NextBehind(Fold(Next, items[..n], w), index, items[n]);
    }
  }

  lemma NextBehind(w: Written, index: seq<int>, item: Item)
    ensures Next(Written(index + w.index, w.last), item) == Written(index + Next(w, item).index, Next(w, item).last)
  {
    var e := Next(w, item).index[|w.index|];
    assert index + w.index + [e] == index + (w.index + [e]);
  }

  /** The first arrays of a chunk. */
  lemma AppendFirst(s: Buffers, src: seq<Item>, items: seq<Item>, padding: seq<Byte>)
    requires s.count == 0 && src != [] && items != [] && |padding| == NULL_PADDING
    requires Total(items, |FrontOf(src, padding)|) <= MAX_OFFSET
    ensures Append(s, src, items, padding).Some?
    ensures HoldsAfter(Append(s, src, items, padding).value, s.index, s.buffer, items, FrontOf(src, padding))
  {
    var front := FrontOf(src, padding);
    var w := Written(TableOf([], |front|), |front|);
    assert w.index == [|front|];
    assert [] + items == items;
    EntriesAreTable([], items, |front|);
    FoldBehind(items, s.index, w);
  }

  lemma AppendMore(s: Buffers, index: seq<int>, bytes: seq<Byte>, arrays: seq<Item>, front: seq<Byte>, src: seq<Item>, items: seq<Item>, padding: seq<Byte>)
    requires HoldsAfter(s, index, bytes, arrays, front) && arrays != [] && src != [] && !Stops(arrays, |front|)
    requires Total(arrays + items, |front|) <= MAX_OFFSET
    ensures Append(s, src, items, padding).Some? && HoldsAfter(Append(s, src, items, padding).value, index, bytes, arrays + items, front)
  {
    LastEntry(arrays, |front|);
    assert s.index[|s.index| - 1] == TableOf(arrays, |front|)[|arrays|];
    EntriesAreTable(arrays, items, |front|);
    FoldBehind(items, index, Written(TableOf(arrays, |front|), Total(arrays, |front|)));
    PayloadConcat(arrays, items, bytes + front);
    assert s.buffer + [] == s.buffer;
  }

  /** An append of nothing to an empty chunk leaves an offset, and the padding, behind. */
  lemma AppendNothing(s: Buffers, src: seq<Item>, padding: seq<Byte>)
    requires s.count == 0 && src != [] && |padding| == NULL_PADDING
    ensures var front := FrontOf(src, padding);
            Append(s, src, [], padding) == Some(Buffers(s.index + [|front|], s.buffer + front, 0))
  {
  }

  // ---------------------------------------------------------------- runs of appends

  datatype Call = Call(src: seq<Item>, start: nat, num: nat, replicating: bool, padding: seq<Byte>)

  predicate Legal(c: Call) {
    c.src != [] && (c.replicating || c.start + c.num <= |c.src|) && |c.padding| == NULL_PADDING
  }

  predicate AllLegal(calls: seq<Call>) {
    forall i | 0 <= i < |calls| :: Legal(calls[i])
  }

  /** All the arrays appended. */
  function Items(calls: seq<Call>): seq<Item>
    requires AllLegal(calls)
  {
    if calls == [] then []
    else
      var c := calls[|calls| - 1];
      Items(calls[..|calls| - 1]) + Picked(c.src, c.start, c.num, c.replicating)
  }

  /** The buffers after a run of appends from empty ones, or None if a check stopped the program. */
  function Run(calls: seq<Call>): (r: Option<Buffers>)
    requires AllLegal(calls)
    ensures r.Some? && r.value.count > 0 ==> r.value.index != []
  {
    if calls == [] then Some(EMPTY)
    else
      var c := calls[|calls| - 1];
      var before := Run(calls[..|calls| - 1]);
      if before.None? then None else Append(before.value, c.src, Picked(c.src, c.start, c.num, c.replicating), c.padding)
  }

  /** How many appends of nothing a run starts with. */
  function Idle(calls: seq<Call>): (n: nat)
    ensures n <= |calls| && (calls != [] ==> (n == 0 <==> calls[0].num > 0))
  {
    if calls == [] then 0
    else
      var last := |calls| - 1;
      var n := Idle(calls[..last]);
      if n == last && calls[last].num == 0 then n + 1 else n
  }

  /** The offsets and the padding that they leave behind. */
  function IdleIndex(calls: seq<Call>): (index: seq<int>)
    requires AllLegal(calls)
    ensures |index| == |calls|
  {
    if calls == [] then []
    else
      var c := calls[|calls| - 1];
      IdleIndex(calls[..|calls| - 1]) + [|FrontOf(c.src, c.padding)|]
  }

  function IdleBytes(calls: seq<Call>): seq<Byte>
    requires AllLegal(calls)
  {
    if calls == [] then []
    else
      var c := calls[|calls| - 1];
      IdleBytes(calls[..|calls| - 1]) + FrontOf(c.src, c.padding)
  }

  /** A run that appends something; the append that does so first decides what stands in front of its
      first array. */
  predicate Started(calls: seq<Call>) {
    AllLegal(calls) && Idle(calls) < |calls|
  }

  function First(calls: seq<Call>): Call
    requires Started(calls)
  {
    calls[Idle(calls)]
  }

  function Front(calls: seq<Call>): seq<Byte>
    requires Started(calls)
  {
    FrontOf(First(calls).src, First(calls).padding)
  }

  /** The offsets fit in 32 bits. */
  predicate Offsets32(calls: seq<Call>)
    requires Started(calls)
  {
    Total(Items(calls), |Front(calls)|) <= MAX_OFFSET
  }

  lemma {:induction false} TotalGrows(a: seq<Item>, b: seq<Item>, base: nat)
    ensures Total(a, base) <= Total(a + b, base)
  {
    ReachMonotone(a + b, base, |a|, |a + b|);
    ReachPrefix(a + b, base, |a|, |a|);
    assert (a + b)[..|a|] == a;
  }

  /** A run without its last append. */
  lemma OneLess(calls: seq<Call>)
    requires Started(calls)
    ensures var n := |calls| - 1;
            if Idle(calls) == n then Idle(calls[..n]) == n && calls[n].num > 0
            else Started(calls[..n]) && Idle(calls[..n]) == Idle(calls) && First(calls[..n]) == First(calls)
  {
  }

  lemma {:induction false} IdleItems(calls: seq<Call>)
    requires AllLegal(calls)
    ensures Items(calls) == [] <==> Idle(calls) == |calls|
    decreases |calls|
  {
    if calls != [] {
      IdleItems(calls[..|calls| - 1]);
    }
  }

  lemma {:induction false} ItemsStart(calls: seq<Call>)
    requires Started(calls)
    ensures Items(calls) != [] && (First(calls).start == 0 || First(calls).replicating ==> Items(calls)[0] == First(calls).src[0])
    decreases |calls|
  {
    OneLess(calls);
    var n := |calls| - 1;
    if Idle(calls) < n {
      ItemsStart(calls[..n]);
    } else {
      IdleItems(calls[..n]);
    }
  }

  /** As long as nothing is appended only offsets and padding pile up. */
  lemma {:induction false} RunIdle(calls: seq<Call>)
    requires AllLegal(calls) && Idle(calls) == |calls|
    ensures Run(calls) == Some(Buffers(IdleIndex(calls), IdleBytes(calls), 0))
    decreases |calls|
  {
    if calls != [] {
      var n := |calls| - 1;
      var c := calls[n];
      RunIdle(calls[..n]);
      assert Picked(c.src, c.start, 0, c.replicating) == [];
      AppendNothing(Run(calls[..n]).value, c.src, c.padding);
    }
  }

  /** Every run that appends something and is not stopped leaves the table and the payload of all its arrays,
      behind what its first appends of nothing left there. */
  lemma {:induction false} RunHolds(calls: seq<Call>)
    requires Started(calls) && Offsets32(calls) && Run(calls).Some?
    ensures var idle := calls[..Idle(calls)];
            HoldsAfter(Run(calls).value, IdleIndex(idle), IdleBytes(idle), Items(calls), Front(calls))
    decreases |calls|
  {
    OneLess(calls);
    var n := |calls| - 1;
    var c, before := calls[n], calls[..n];
    var items := Picked(c.src, c.start, c.num, c.replicating);
    if Idle(calls) == n {
      RunIdle(before);
      IdleItems(before);
      assert Items(calls) == [] + items == items;
      AppendFirst(Run(before).value, c.src, items, c.padding);
    } else {
      var idle := calls[..Idle(calls)];
      assert before[..Idle(calls)] == idle;
      TotalGrows(Items(before), items, |Front(calls)|);
      RunHolds(before);
      IdleItems(before);
      AppendStops(Run(before).value, IdleIndex(idle), IdleBytes(idle), Items(before), Front(calls), c.src, items, c.padding);
      AppendMore(Run(before).value, IdleIndex(idle), IdleBytes(idle), Items(before), Front(calls), c.src, items, c.padding);
    }
  }

  /** The number of offsets after any run: one too many for every append of nothing that came first. */
  lemma {:induction false} IndexLength(calls: seq<Call>)
    requires AllLegal(calls) && Run(calls).Some?
    ensures var s := Run(calls).value;
            s.count == |Items(calls)| && |s.index| == s.count + Idle(calls) + if Items(calls) == [] then 0 else 1
    decreases |calls|
  {
    if calls != [] {
      var n := |calls| - 1;
      IndexLength(calls[..n]);
      IdleItems(calls[..n]);
      IdleItems(calls);
    }
  }

  /** So there is one offset more than there are arrays exactly if the first append is not empty, or the only
      one. */
  lemma OneOffsetMore(calls: seq<Call>)
    requires AllLegal(calls) && calls != [] && Run(calls).Some?
    ensures |Run(calls).value.index| == Run(calls).value.count + 1 <==> calls[0].num > 0 || |calls| == 1
  {
    IndexLength(calls);
    IdleItems(calls);
  }

  /** And the buffers hold the table of the arrays appended, behind whatever, exactly if the first append is
      not empty. */
  lemma TableIff(calls: seq<Call>)
    requires Started(calls) && Offsets32(calls) && Run(calls).Some?
    ensures (exists front :: Holds(Run(calls).value, Items(calls), front)) <==> calls[0].num > 0
  {
    IndexLength(calls);
    IdleItems(calls);
    if calls[0].num > 0 {
      RunHolds(calls);
      assert calls[..0] == [];
      assert Holds(Run(calls).value, Items(calls), Front(calls));
    }
  }

  /** After its first `k` appends the run holds what the next append refuses. */
  ghost predicate StopsAfter(calls: seq<Call>, k: nat, base: nat)
    requires AllLegal(calls) && k <= |calls|
  {
    Stops(Items(calls[..k]), base)
  }

  lemma StopsEarlier(calls: seq<Call>, base: nat)
    requires AllLegal(calls) && |calls| > 1
    ensures var before := calls[..|calls| - 1];
            (exists k | 0 < k < |calls| :: StopsAfter(calls, k, base)) <==>
            (exists k | 0 < k < |before| :: StopsAfter(before, k, base)) || Stops(Items(before), base)
  {
    var n := |calls| - 1;
    var before := calls[..n];
    forall k | 0 < k < n
      ensures StopsAfter(before, k, base) <==> StopsAfter(calls, k, base)
    {
      assert before[..k] == calls[..k];
    }
    assert StopsAfter(calls, n, base) <==> Stops(Items(before), base);
  }

  /** A run is stopped exactly when an append other than the first finds one byte and a NULL after it. */
  lemma {:induction false} RunStops(calls: seq<Call>)
    requires Started(calls) && Offsets32(calls)
    ensures Run(calls).None? <==> exists k | 0 < k < |calls| :: StopsAfter(calls, k, |Front(calls)|)
    decreases |calls|
  {
    OneLess(calls);
    var n := |calls| - 1;
    var c, before := calls[n], calls[..n];
    var items := Picked(c.src, c.start, c.num, c.replicating);
    if Idle(calls) == n {
      RunIdle(before);
      IdleItems(before);
      assert Items(calls) == [] + items == items;
      AppendFirst(Run(before).value, c.src, items, c.padding);
      NoStopYet(calls, |Front(calls)|);
    } else {
      TotalGrows(Items(before), items, |Front(calls)|);
      RunStops(before);
      StopsEarlier(calls, |Front(calls)|);
      if Run(before).Some? {
        var idle := before[..Idle(before)];
        RunHolds(before);
        IdleItems(before);
        AppendStops(Run(before).value, IdleIndex(idle), IdleBytes(idle), Items(before), Front(calls), c.src, items, c.padding);
      }
    }
  }

  lemma NoStopYet(calls: seq<Call>, base: nat)
    requires AllLegal(calls) && calls != [] && Idle(calls[..|calls| - 1]) == |calls| - 1
    ensures forall k | 0 < k < |calls| :: !StopsAfter(calls, k, base)
  {
    forall k | 0 < k < |calls|
      ensures !StopsAfter(calls, k, base)
    {
      IdlePrefix(calls[..|calls| - 1], k);
      assert calls[..|calls| - 1][..k] == calls[..k];
      IdleItems(calls[..k]);
    }
  }

  lemma {:induction false} IdlePrefix(calls: seq<Call>, k: nat)
    requires k <= |calls|
    ensures Idle(calls[..k]) == if k <= Idle(calls) then k else Idle(calls)
    decreases |calls|
  {
    var n := |calls| - 1;
    if k <= n {
      IdlePrefix(calls[..n], k);
      assert calls[..n][..k] == calls[..k];
    } else {
      assert calls[..k] == calls;
    }
  }

  // ---------------------------------------------------------------- reading back

  /** Element `i` of the table reads as NULL or as the bytes of `item`. */
  ghost predicate ReadsAs(s: Buffers, i: nat, item: Item) {
    var d := ArrayAt(s.index, i);
    if item.None? then d.isNull else !d.isNull && Slice(s.buffer, d) == item.value
  }

  /** A NULL before all bytes. */
  predicate LeadingNull(arrays: seq<Item>, i: nat) {
    i < |arrays| && arrays[i].None? && forall j | 0 <= j < i :: Length(arrays[j]) == 0
  }

  lemma {:induction false} ReachZero(arrays: seq<Item>, n: nat)
    requires n <= |arrays|
    ensures Reach(arrays, 0, n) == 0 <==> forall j | 0 <= j < n :: Length(arrays[j]) == 0
  {
    if n > 0 {
      ReachZero(arrays, n - 1);
    }
  }

  lemma {:induction false} ReachBase(arrays: seq<Item>, base: nat, n: nat)
    requires n <= |arrays|
    ensures Reach(arrays, base, n) == base + Reach(arrays, 0, n)
  {
    if n > 0 {
      ReachBase(arrays, base, n - 1);
    }
  }

  /** Element `i` of a table with offsets in front of it. */
  function ShiftedAt(idle: seq<int>, t: seq<int>, i: nat): Datum
    requires i < |t|
  {
    if i >= |idle| then ArrayAt(t, i - |idle|)
    else
      var index := idle + [t[0]];
      Datum(Size(index[i + 1] - index[i]), IntoPayload(index[i]), false)
  }

  /** What any run of appends reads as: the table of its arrays, shifted by the appends of nothing that came
      first; up to there the offsets that those left behind. */
  lemma ReadsShifted(calls: seq<Call>, i: nat)
    requires Started(calls) && Offsets32(calls) && Run(calls).Some? && i < |Items(calls)|
    ensures ArrayAt(Run(calls).value.index, i) ==
            ShiftedAt(IdleIndex(calls[..Idle(calls)]), TableOf(Items(calls), |Front(calls)|), i)
  {
    RunHolds(calls);
    AllNatural(calls[..Idle(calls)]);
    TableShifted(IdleIndex(calls[..Idle(calls)]), Items(calls), |Front(calls)|, i);
  }

  lemma TableShifted(idle: seq<int>, arrays: seq<Item>, base: nat, i: nat)
    requires i < |arrays| && forall k | 0 <= k < |idle| :: idle[k] >= 0
    ensures ArrayAt(idle + TableOf(arrays, base), i) == ShiftedAt(idle, TableOf(arrays, base), i)
  {
    var t := TableOf(arrays, base);
    assert t[0] == base;
    ShiftedIs(idle, t, i);
  }

  lemma ShiftedIs(idle: seq<int>, t: seq<int>, i: nat)
    requires i + 1 < |t| && t[0] >= 0 && forall k | 0 <= k < |idle| :: idle[k] >= 0
    ensures ArrayAt(idle + t, i) == ShiftedAt(idle, t, i)
  {
  }

  lemma AllNatural(calls: seq<Call>)
    requires AllLegal(calls)
    ensures forall k | 0 <= k < |calls| :: IdleIndex(calls)[k] >= 0
  {
    forall k | 0 <= k < |calls|
      ensures IdleIndex(calls)[k] >= 0
    {
      IdleNatural(calls, k);
    }
  }

  lemma {:induction false} IdleNatural(calls: seq<Call>, i: nat)
    requires AllLegal(calls) && i < |calls|
    ensures IdleIndex(calls)[i] >= 0
    decreases |calls|
  {
    var n := |calls| - 1;
    if i < n {
      IdleNatural(calls[..n], i);
    }
  }

  /** After any run whose first append is not empty an array reads back exactly unless it is a NULL before all
      bytes of a chunk that was not padded. */
  lemma ReadsBackIff(calls: seq<Call>, i: nat)
    requires Started(calls) && Offsets32(calls) && Run(calls).Some? && calls[0].num > 0 && i < |Items(calls)|
    ensures ReadsAs(Run(calls).value, i, Items(calls)[i]) <==>
            NeedsPadding(calls[0].src[0]) || !LeadingNull(Items(calls), i)
  {
    var arrays, front := Items(calls), Front(calls);
    RunHolds(calls);
    assert calls[..0] == [] && [] + front == front;
    assert [] + TableOf(arrays, |front|) == TableOf(arrays, |front|);
    ReadsBack(arrays, front, i);
    ReachBase(arrays, |front|, i);
    ReachZero(arrays, i);
  }

  /** If the first append that is not empty starts at its source's first element, no run is stopped. */
  lemma NeverStopped(calls: seq<Call>)
    requires Started(calls) && Offsets32(calls) && (First(calls).start == 0 || First(calls).replicating)
    ensures Run(calls).Some?
  {
    forall k | 0 < k < |calls|
      ensures !StopsAfter(calls, k, |Front(calls)|)
    {
      NotOneByte(calls, k);
    }
    RunStops(calls);
  }

  /** And if no empty one came before it, everything reads back. */
  lemma EncoderReadsBack(calls: seq<Call>, i: nat)
    requires Started(calls) && Offsets32(calls) && i < |Items(calls)|
    requires calls[0].num > 0 && (calls[0].start == 0 || calls[0].replicating)
    ensures Run(calls).Some? && |Run(calls).value.index| == |Items(calls)| + 1
    ensures ReadsAs(Run(calls).value, i, Items(calls)[i])
  {
    NeverStopped(calls);
    IndexLength(calls);
    ItemsStart(calls);
    ReadsBackIff(calls, i);
  }

  lemma NotOneByte(calls: seq<Call>, k: nat)
    requires Started(calls) && (First(calls).start == 0 || First(calls).replicating) && 0 < k <= |calls|
    ensures !Stops(Items(calls[..k]), |Front(calls)|)
  {
    var arrays, base := Items(calls[..k]), |Front(calls)|;
    IdlePrefix(calls, k);
    IdleItems(calls[..k]);
    if Idle(calls) < k {
      assert First(calls[..k]) == First(calls);
      ItemsStart(calls[..k]);
      ReachMonotone(arrays, base, 1, |arrays|);
    }
  }

  // ---------------------------------------------------------------- where it goes wrong

  /** The padding is chosen by the first element of the source, not by the first one appended: a NULL
      appended from position 1 of this source reads as an empty array. */
  lemma NullMisread(padding: seq<Byte>)
    requires |padding| == NULL_PADDING
    ensures var calls := [Call([Some([1, 2]), None], 1, 1, false, padding)];
            AllLegal(calls) && Items(calls) == [None] && Run(calls).Some? && !ReadsAs(Run(calls).value, 0, None)
  {
    var calls := [Call([Some([1, 2]), None], 1, 1, false, padding)];
    OneCall(calls);
    ReadsBackIff(calls, 0);
  }

  lemma OneCall(calls: seq<Call>)
    requires AllLegal(calls) && |calls| == 1 && calls[0].src == [Some([1, 2]), None]
    requires calls[0].start == 1 && calls[0].num == 1 && !calls[0].replicating
    ensures Started(calls) && Offsets32(calls) && Items(calls) == [None] && Run(calls).Some?
  {
    assert calls[..0] == [] && Picked(calls[0].src, 1, 1, false) == [None];
    assert Items(calls) == [] + [None] == [None];
    AppendFirst(EMPTY, calls[0].src, [None], calls[0].padding);
  }

  /** After an append of nothing this array, appended from the first position of its source, is read as an empty
      one. */
  lemma ShiftedMisread(padding: seq<Byte>)
    requires |padding| == NULL_PADDING
    ensures var src := [Some([1, 2])];
            var calls := [Call(src, 0, 0, false, padding), Call(src, 0, 1, false, padding)];
            AllLegal(calls) && Items(calls) == src && Run(calls).Some? && !ReadsAs(Run(calls).value, 0, src[0])
  {
    var src: seq<Item> := [Some([1, 2])];
    var calls := [Call(src, 0, 0, false, padding), Call(src, 0, 1, false, padding)];
    TwoCalls(calls);
    ReadsShifted(calls, 0);
  }

  lemma TwoCalls(calls: seq<Call>)
    requires AllLegal(calls) && |calls| == 2 && calls[0].src == calls[1].src == [Some([1, 2])]
    requires calls[0].num == 0 && calls[1].num == 1 && calls[1].start == 0
    ensures Idle(calls) == 1 && Items(calls) == [Some([1, 2])] && Started(calls) && Offsets32(calls)
    ensures Run(calls).Some? && IdleIndex(calls[..1]) == [0] && Front(calls) == []
  {
    var one := calls[..1];
    assert one[..0] == [] && Idle([]) == 0 && Items([]) == [];
    assert Idle(one) == 1;
    assert Picked(calls[1].src, 0, 1, calls[1].replicating) == [Some([1, 2])];
    assert Items(one) == [];
    TotalSnoc([], Some([1, 2]), 0);
    assert [] + [Some([1, 2])] == [Some([1, 2])];
    assert Total([], 0) == 0;
    NeverStopped(calls);
  }

  // ---------------------------------------------------------------- the bytes of the table

  function IndexBytes(index: seq<int>): (bs: seq<Byte>)
    ensures |bs| == 4 * |index|
  {
    if index == [] then [] else IndexBytes(index[..|index| - 1]) + Store(index[|index| - 1], 4)
  }

  lemma {:induction false} IndexBytesAt(index: seq<int>, i: nat)
    requires i < |index|
    ensures LoadAt(IndexBytes(index), 4 * i, 4) == Narrow(index[i], 4)
    decreases |index|
  {
    var n := |index| - 1;
    if i < n {
      IndexBytesAt(index[..n], i);
      assert IndexBytes(index)[4 * i..4 * i + 4] == IndexBytes(index[..n])[4 * i..4 * i + 4];
    } else {
      assert IndexBytes(index)[4 * i..4 * i + 4] == Store(index[i], 4);
      LoadStore(index[i], 4);
    }
  }

  /** The readers see the table that was written. */
  lemma ReadersSeeTable(chunk: ArrayChunk, index: seq<int>)
    requires chunk.chunk == IndexBytes(index) && chunk.startPos == 0 && chunk.count + 1 == |index|
    requires forall i | 0 <= i < |index| :: Low(4) <= index[i] <= High(4)
    ensures chunk.Valid() && chunk.Offsets() == index
  {
    forall i | 0 <= i < |index|
      ensures chunk.Offsets()[i] == index[i]
    {
      IndexBytesAt(index, i);
    }
  }
}

/**
Reading a column chunk: in order with a stride, by position, and as arrays of varying length whose
offset table marks NULL by a minus sign.
*/
module ChunkIter {
  import opened Wrappers
  import opened IntegerColumns

  // ---------------------------------------------------------------- what a read returns

  datatype Pointer = NullPointer | IntoChunk(pos: int) | IntoPayload(pos: int) | OwnDatum

  /** `VarlenDatum` and `ArrayDatum`. */
  datatype Datum = Datum(length: int, pointer: Pointer, isNull: bool)

  const NOTHING := Datum(0, NullPointer, true)

  /** Everything a read shows: the end flag, the result, and the decompressed value if one was written. */
  datatype Seen = Seen(isEnd: bool, result: Datum, value: Option<int>)

  const AT_END := Seen(true, NOTHING, None)

  /** `static_cast<size_t>` of an int. */
  function Size(n: int): int {
    if n >= 0 then n else n + 0x1_0000_0000_0000_0000
  }

  function LoadAt(chunk: seq<Byte>, pos: int, w: nat): int
    requires IntWidth(w) && 0 <= pos && pos + w <= |chunk|
  {
    Load(chunk[pos..pos + w])
  }

  /** The distance between neighbouring elements: offsets take four bytes. */
  function Unit(skipSize: int): (u: nat)
    ensures u >= 1
  {
    if skipSize > 0 then skipSize else 4
  }

  /** The element that starts at `pos`. */
  function ReadAt(col: Column, chunk: seq<Byte>, skipSize: int, pos: int, uncompress: bool): Seen
    requires Valid(col) && 0 <= pos
    requires if skipSize > 0 then skipSize == Stored(col) && pos + skipSize <= |chunk| else pos + 8 <= |chunk|
  {
    if skipSize > 0 then
      if uncompress && col.encoding != Plain then
        var reading := Decompress(chunk[pos..pos + skipSize], col);
        Seen(false, Datum(col.logical, OwnDatum, reading.isNull), Some(reading.value))
      else
        Seen(false, Datum(skipSize, IntoChunk(pos), StoredNull(chunk[pos..pos + skipSize])), None)
    else
      var offset, next := LoadAt(chunk, pos, 4), LoadAt(chunk, pos + 4, 4);
      Seen(false, Datum(Size(next - offset), IntoPayload(offset), next == offset), None)
  }

  // ---------------------------------------------------------------- arithmetic of positions

  lemma Product(a: nat, b: nat)
    ensures a * b >= 0
  {
  }

  lemma Inside(j: nat, n: nat, u: nat)
    requires j < n
    ensures j * u + u <= n * u
  {
    Product(n - j - 1, u);
    assert n * u == j * u + u + (n - j - 1) * u;
  }

  lemma Outside(j: nat, n: nat, u: nat)
    requires j >= n
    ensures j * u >= n * u
  {
    Product(j - n, u);
    assert j * u == n * u + (j - n) * u;
  }

  lemma PositionInRange(j: nat, n: nat, u: nat)
    requires u >= 1
    ensures j < n <==> j * u < n * u
    ensures j < n ==> j * u + u <= n * u
  {
    if j < n {
      Inside(j, n, u);
    } else {
      Outside(j, n, u);
    }
  }

  lemma Advance(j: nat, skip: nat, u: nat)
    ensures (j + skip) * u == j * u + skip * u
  {
  }

  /** `ChunkIter` over a chunk of `count` elements. */
  class Iterator {
    const col: Column
    const chunk: seq<Byte>
    const skip: nat
    const skipSize: int
    const count: nat
    const startPos: nat
    const endPos: nat
    var currentPos: int
    var datum: int
    // How many elements have been passed.
    ghost var passed: nat

    ghost predicate Valid()
      reads this
    {
      && IntegerColumns.Valid(col) && skip >= 1
      && (skipSize > 0 ==> skipSize == Stored(col))
      && endPos == startPos + count * Unit(skipSize)
      && endPos + (if skipSize > 0 then 0 else 4) <= |chunk|
      && currentPos == startPos + passed * Unit(skipSize)
    }

    /** The n-th element, or the end. */
    ghost function Nth(n: int, uncompress: bool): Seen
      requires Valid()
      reads this
    {
      if 0 <= n < count then
        Inside(n, count, Unit(skipSize));
        ReadAt(col, chunk, skipSize, startPos + n * Unit(skipSize), uncompress)
      else AT_END
    }

    /** What this object shows of `seen`: the end flag, the result, and the value left in `datum`. */
    ghost predicate Shows(seen: Seen, isEnd: bool, result: Datum, before: int)
      reads this
    {
      seen.isEnd == isEnd && seen.result == result && datum == if seen.value.Some? then seen.value.value else before
    }

    /** `ChunkIter_reset`. */
    method Reset()
      requires Valid()
      modifies this`currentPos, this`passed
      ensures Valid() && passed == 0
    {
      currentPos := startPos;
      passed := 0;
    }

    method Read(pos: int, uncompress: bool) returns (result: Datum)
      requires IntegerColumns.Valid(col) && 0 <= pos
      requires if skipSize > 0 then skipSize == Stored(col) && pos + skipSize <= |chunk| else pos + 8 <= |chunk|
      modifies this`datum
      ensures Shows(ReadAt(col, chunk, skipSize, pos, uncompress), false, result, old(datum))
    {
      if skipSize > 0 {
        if uncompress && col.encoding != Plain {
          var reading := Decompress(chunk[pos..pos + skipSize], col);
          datum := reading.value;
          result := Datum(col.logical, OwnDatum, reading.isNull);
        } else {
          result := Datum(skipSize, IntoChunk(pos), StoredNull(chunk[pos..pos + skipSize]));
        }
      } else {
        var offset := LoadAt(chunk, pos, 4);
        var length := Size(LoadAt(chunk, pos + 4, 4) - offset);
        result := Datum(length, IntoPayload(offset), length == 0);
      }
    }

    /** `ChunkIter_get_next`. */
    method GetNext(uncompress: bool) returns (isEnd: bool, result: Datum)
      requires Valid()
      modifies this
      ensures Valid() && Shows(old(Nth(passed, uncompress)), isEnd, result, old(datum))
      ensures passed == if isEnd then old(passed) else old(passed) + skip
    {
      PositionInRange(passed, count, Unit(skipSize));
      if currentPos >= endPos {
        return true, NOTHING;
      }
      isEnd := false;
      result := Read(currentPos, uncompress);
      Advance(passed, skip, Unit(skipSize));
      if skipSize > 0 {
        currentPos := currentPos + skip * skipSize;
      } else {
        currentPos := currentPos + skip * 4;
      }
      passed := passed + skip;
    }

    /** `ChunkIter_get_nth`; for fixed-size elements the byte offset is an int product and must not overflow. */
    method GetNth(n: int, uncompress: bool) returns (isEnd: bool, result: Datum)
      requires Valid() && -0x8000_0000 <= n <= 0x7FFF_FFFF
      requires skipSize > 0 && 0 <= n < count ==> n * skipSize <= 0x7FFF_FFFF
      modifies this`datum
      ensures Valid() && Shows(old(Nth(n, uncompress)), isEnd, result, old(datum))
    {
      if n < 0 || n >= count {
        return true, NOTHING;
      }
      Inside(n, count, Unit(skipSize));
      isEnd := false;
      result := Read(startPos + n * Unit(skipSize), uncompress);
    }

    /** After a reset, the k-th `ChunkIter_get_next` shows exactly what `ChunkIter_get_nth(k * skip)` shows. */
    method KthNext(k: nat, uncompress: bool) returns (isEnd: bool, result: Datum)
      requires Valid()
      modifies this
      ensures Valid()
      ensures isEnd == Nth(k * skip, uncompress).isEnd && result == Nth(k * skip, uncompress).result
      ensures Nth(k * skip, uncompress).value.Some? ==> datum == Nth(k * skip, uncompress).value.value
    {
      Reset();
      for i := 0 to k
        invariant Valid() && (passed == i * skip || count <= passed <= i * skip)
      {
        isEnd, result := GetNext(uncompress);
        assert (i + 1) * skip == i * skip + skip;
      }
      isEnd, result := GetNext(uncompress);
    }
  }

  // ---------------------------------------------------------------- arrays of varying length

  /** Element `i` of an offset table. */
  function ArrayAt(offsets: seq<int>, i: int): Datum {
    if !(0 <= i < |offsets| - 1) || offsets[i + 1] < 0 then NOTHING
    else
      var offset := if offsets[i] < 0 then -offsets[i] else offsets[i];
      Datum(Size(offsets[i + 1] - offset), IntoPayload(offset), false)
  }

  /** The offset table of a chunk, whose elements are reached through `offsets`. */
  class ArrayChunk {
    const chunk: seq<Byte>
    const count: nat
    const startPos: nat

    ghost predicate Valid() {
      startPos + 4 * count + 4 <= |chunk|
    }

    ghost function Offsets(): (offsets: seq<int>)
      requires Valid()
      ensures |offsets| == count + 1
    {
      seq(count + 1, i requires 0 <= i < count + 1 => LoadAt(chunk, startPos + 4 * i, 4))
    }

    /** `ChunkIter_get_nth` into an array datum, for offset tables. */
    method GetNth(n: int) returns (isEnd: bool, result: Datum)
      requires Valid()
      ensures isEnd <==> !(0 <= n < count)
      ensures result == ArrayAt(Offsets(), n)
    {
      if n < 0 || n >= count {
        return true, NOTHING;
      }
      isEnd := false;
      var offset := LoadAt(chunk, startPos + 4 * n, 4);
      var next := LoadAt(chunk, startPos + 4 * n + 4, 4);
      assert Offsets()[n] == offset && Offsets()[n + 1] == next;
      if next < 0 {
        result := NOTHING;
      } else {
        if offset < 0 {
          offset := -offset;
        }
        result := Datum(Size(next - offset), IntoPayload(offset), false);
      }
    }

    /** `ChunkIter_get_nth_varlen`. */
    method GetNthVarlen(n: int) returns (isEnd: bool, result: Datum)
      requires Valid()
      ensures isEnd <==> !(0 <= n < count)
      ensures result == ArrayAt(Offsets(), n)
    {
      isEnd := n < 0 || n >= count;
      if !isEnd {
        var offset := LoadAt(chunk, startPos + 4 * n, 4);
        var next := LoadAt(chunk, startPos + 4 * n + 4, 4);
        assert Offsets()[n] == offset && Offsets()[n + 1] == next;
        if next >= 0 {
          if offset < 0 {
            offset := -offset;
          }
          result := Datum(Size(next - offset), IntoPayload(offset), false);
          return;
        }
      }
      result := NOTHING;
    }
  }

  function Abs(n: int): nat {
    if n < 0 then -n else n
  }

  /** Offsets move forward; a negative one repeats the place before it. */
  ghost predicate WellFormed(offsets: seq<int>, payload: seq<Byte>) {
    && |offsets| >= 1
    && (forall i | 0 <= i < |offsets| :: Abs(offsets[i]) <= |payload|)
    && (forall i | 0 <= i < |offsets| - 1 :: Abs(offsets[i]) <= Abs(offsets[i + 1]))
    && (forall i | 0 <= i < |offsets| - 1 && offsets[i + 1] < 0 :: Abs(offsets[i + 1]) == Abs(offsets[i]))
  }

  /** The bytes an array datum points to; NULL has none. */
  ghost function Slice(payload: seq<Byte>, d: Datum): seq<Byte> {
    if d.pointer.IntoPayload? && 0 <= d.pointer.pos && 0 <= d.length && d.pointer.pos + d.length <= |payload|
    then payload[d.pointer.pos..d.pointer.pos + d.length] else []
  }

  /** The slices of the first `n` elements, one after the other. */
  ghost function Slices(offsets: seq<int>, payload: seq<Byte>, n: nat): seq<Byte> {
    if n == 0 then [] else Slices(offsets, payload, n - 1) + Slice(payload, ArrayAt(offsets, n - 1))
  }

  lemma SliceIs(offsets: seq<int>, payload: seq<Byte>, i: nat)
    requires WellFormed(offsets, payload) && i < |offsets| - 1
    ensures Slice(payload, ArrayAt(offsets, i)) == payload[Abs(offsets[i])..Abs(offsets[i + 1])]
  {
  }

  /** The slices of a well-formed table tile its payload, in order. */
  lemma {:induction false} SlicesTile(offsets: seq<int>, payload: seq<Byte>, n: nat)
    requires WellFormed(offsets, payload) && n < |offsets|
    ensures Abs(offsets[0]) <= Abs(offsets[n])
    ensures Slices(offsets, payload, n) == payload[Abs(offsets[0])..Abs(offsets[n])]
  {
    if n > 0 {
      SlicesTile(offsets, payload, n - 1);
      var from, mid, to := Abs(offsets[0]), Abs(offsets[n - 1]), Abs(offsets[n]);
      SliceIs(offsets, payload, n - 1);
      assert payload[from..mid] + payload[mid..to] == payload[from..to];
    }
  }

  // ---------------------------------------------------------------- writing a table and reading it back

  function Length(a: Option<seq<Byte>>): nat {
    if a.Some? then |a.value| else 0
  }

  /** Where the payload has got to after `n` arrays. */
  function Reach(arrays: seq<Option<seq<Byte>>>, base: nat, n: nat): nat
    requires n <= |arrays|
  {
    if n == 0 then base else Reach(arrays, base, n - 1) + Length(arrays[n - 1])
  }

  /** The table for a list of arrays whose payload starts at `base`: NULL negates the place reached. */
  function TableOf(arrays: seq<Option<seq<Byte>>>, base: nat): (offsets: seq<int>)
    ensures |offsets| == |arrays| + 1
  {
    seq(|arrays| + 1, i requires 0 <= i < |arrays| + 1 =>
      if i > 0 && arrays[i - 1].None? then 0 - Reach(arrays, base, i) else Reach(arrays, base, i))
  }

  /** The arrays' bytes behind `front`. */
  function PayloadOf(arrays: seq<Option<seq<Byte>>>, front: seq<Byte>): seq<Byte> {
    if arrays == [] then front
    else
      var last := arrays[|arrays| - 1];
      PayloadOf(arrays[..|arrays| - 1], front) + if last.Some? then last.value else []
  }

  lemma {:induction false} ReachPrefix(arrays: seq<Option<seq<Byte>>>, base: nat, n: nat, m: nat)
    requires n <= m <= |arrays|
    ensures Reach(arrays[..m], base, n) == Reach(arrays, base, n)
  {
    if n > 0 {
      ReachPrefix(arrays, base, n - 1, m);
    }
  }

  lemma {:induction false} PayloadLength(arrays: seq<Option<seq<Byte>>>, front: seq<Byte>)
    ensures |PayloadOf(arrays, front)| == Reach(arrays, |front|, |arrays|)
  {
    if arrays != [] {
      var n := |arrays| - 1;
      PayloadLength(arrays[..n], front);
      ReachPrefix(arrays, |front|, n, n);
    }
  }

  lemma {:induction false} PayloadPrefix(arrays: seq<Option<seq<Byte>>>, front: seq<Byte>, n: nat)
    requires n <= |arrays|
    ensures PayloadOf(arrays[..n], front) <= PayloadOf(arrays, front)
    decreases |arrays| - n
  {
    if n < |arrays| {
      PayloadPrefix(arrays, front, n + 1);
      assert arrays[..n + 1][..n] == arrays[..n];
    } else {
      assert arrays[..n] == arrays;
    }
  }

  /** Array `i` lies between the places reached before and after it. */
  lemma PayloadAt(arrays: seq<Option<seq<Byte>>>, front: seq<Byte>, i: nat)
    requires i < |arrays| && arrays[i].Some?
    ensures var payload, from := PayloadOf(arrays, front), Reach(arrays, |front|, i);
            from + |arrays[i].value| <= |payload| && payload[from..from + |arrays[i].value|] == arrays[i].value
  {
    var before, upTo := PayloadOf(arrays[..i], front), PayloadOf(arrays[..i + 1], front);
    PayloadPrefix(arrays, front, i + 1);
    PayloadLength(arrays[..i], front);
    ReachPrefix(arrays, |front|, i, i);
    assert arrays[..i + 1][..i] == arrays[..i];
    assert upTo == before + arrays[i].value;
    assert upTo == PayloadOf(arrays, front)[..|upTo|];
  }

  lemma TableAt(arrays: seq<Option<seq<Byte>>>, base: nat, i: nat)
    requires i < |arrays|
    ensures var from := Reach(arrays, base, i);
            ArrayAt(TableOf(arrays, base), i) ==
            if arrays[i].Some? then Datum(|arrays[i].value|, IntoPayload(from), false)
            else if from > 0 then NOTHING
            else Datum(0, IntoPayload(0), false)
  {
    var t := TableOf(arrays, base);
    assert t[i] == Reach(arrays, base, i) || t[i] == 0 - Reach(arrays, base, i);
    assert t[i + 1] == if arrays[i].None? then 0 - Reach(arrays, base, i) else Reach(arrays, base, i) + |arrays[i].value|;
  }

  lemma {:induction false} ReachMonotone(arrays: seq<Option<seq<Byte>>>, base: nat, n: nat, m: nat)
    requires n <= m <= |arrays|
    ensures Reach(arrays, base, n) <= Reach(arrays, base, m)
    decreases m
  {
    if n < m {
      ReachMonotone(arrays, base, n, m - 1);
    }
  }

  /** Such tables are well-formed, so their slices tile. */
  lemma TableWellFormed(arrays: seq<Option<seq<Byte>>>, front: seq<Byte>)
    ensures WellFormed(TableOf(arrays, |front|), PayloadOf(arrays, front))
  {
    var offsets, base := TableOf(arrays, |front|), |front|;
    forall i | 0 <= i <= |arrays|
      ensures Abs(offsets[i]) == Reach(arrays, base, i) <= |PayloadOf(arrays, front)|
    {
      PayloadLength(arrays, front);
      ReachMonotone(arrays, base, i, |arrays|);
    }
    assert forall i | 0 <= i < |arrays| && offsets[i + 1] < 0 :: arrays[i].None?;
  }

  /** Reading the table gives an array back exactly when it is not a NULL at place 0, where there is no
      negative offset: such a NULL reads as an empty array. */
  lemma ReadsBack(arrays: seq<Option<seq<Byte>>>, front: seq<Byte>, i: nat)
    requires i < |arrays|
    ensures var d, payload := ArrayAt(TableOf(arrays, |front|), i), PayloadOf(arrays, front);
            (if arrays[i].None? then d.isNull else !d.isNull && Slice(payload, d) == arrays[i].value)
            <==> !(arrays[i].None? && Reach(arrays, |front|, i) == 0)
  {
    TableAt(arrays, |front|, i);
    if arrays[i].Some? {
      PayloadAt(arrays, front, i);
    }
  }
}

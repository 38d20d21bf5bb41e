/**
Writing arrays of varying length: `ArrayNoneEncoder::appendData`. A table written by any number of
appends reads back as the arrays appended.
*/
module ArrayEncoder {
  import opened Wrappers
  import opened IntegerColumns
  import opened ChunkIter

  const NULL_PADDING := 8
  const MAX_INPUT_BUFFER := 1048576
  const MAX_OFFSET := 0x7FFF_FFFF

  /** NULL or its bytes. */
  type Item = Option<seq<Byte>>

  /** The index buffer, the data buffer and the number of elements. */
  datatype Buffers = Buffers(index: seq<int>, buffer: seq<Byte>, count: nat)

  const EMPTY := Buffers([], [], 0)

  // ---------------------------------------------------------------- what one append writes

  /** The arrays an append takes from its source. */
  function Picked(src: seq<Item>, start: nat, num: nat, replicating: bool): (items: seq<Item>)
    requires src != [] && (replicating || start + num <= |src|)
    ensures |items| == num
  {
    seq(num, i requires 0 <= i < num => src[if replicating then 0 else start + i])
  }

  /** The index written so far and the offset reached, a 32-bit integer. */
  datatype Written = Written(index: seq<int>, last: int)

  /** The entry of one array: the offset reached after it, negated for NULL. */
  function Next(w: Written, item: Item): Written {
    var end := Narrow(w.last + Length(item), 4);
    Written(w.index + [if item.None? then Narrow(0 - end, 4) else end], end)
  }

  function Fold<S>(step: (S, Item) -> S, items: seq<Item>, s: S): S {
    if items == [] then s else step(Fold(step, items[..|items| - 1], s), items[|items| - 1])
  }

  /** A first array that must not start at offset 0. */
  predicate NeedsPadding(first: Item) {
    first.None? || |first.value| <= 1
  }

  lemma {:induction false} FoldGrows(items: seq<Item>, w: Written)
    ensures |Fold(Next, items, w).index| == |w.index| + |items|
  {
    if items != [] {
      FoldGrows(items[..|items| - 1], w);
    }
  }

  /** One append: None if the check on the last offset stops the program. */
  function Append(s: Buffers, src: seq<Item>, items: seq<Item>, padding: seq<Byte>): (r: Option<Buffers>)
    requires src != [] && (s.count > 0 ==> s.index != [])
    ensures r.Some? ==> |r.value.index| == |s.index| + |items| + if s.count == 0 then 1 else 0
  {
    var padded := s.count == 0 && NeedsPadding(src[0]);
    var initial := if padded then NULL_PADDING else 0;
    if s.count > 0 && s.index[|s.index| - 1] == -1 then None
    else
      var last := if s.count == 0 then initial else Abs(s.index[|s.index| - 1]);
      var w := Written(if s.count == 0 then s.index + [initial] else s.index, last);
      FoldGrows(items, w);
      Some(Buffers(
        Fold(Next, items, w).index,
        PayloadOf(items, s.buffer + if padded then padding else []),
        s.count + |items|))
  }

  lemma FoldSnoc<S>(step: (S, Item) -> S, items: seq<Item>, item: Item, s: S)
    ensures Fold(step, items + [item], s) == step(Fold(step, items, s), item)
  {
    assert (items + [item])[..|items|] == items;
  }

  lemma {:induction false} FoldConcat<S>(step: (S, Item) -> S, a: seq<Item>, b: seq<Item>, s: S)
    ensures Fold(step, a + b, s) == Fold(step, b, Fold(step, a, s))
    decreases |b|
  {
    if b == [] {
      assert a + b == a;
    } else {
      var n := |b| - 1;
      FoldConcat(step, a, b[..n], s);
      assert a + b == (a + b[..n]) + [b[n]];
      FoldSnoc(step, a + b[..n], b[n], s);
    }
  }

  lemma PayloadSnoc(items: seq<Item>, item: Item, front: seq<Byte>)
    ensures PayloadOf(items + [item], front) == PayloadOf(items, front) + if item.Some? then item.value else []
  {
    assert (items + [item])[..|items|] == items;
  }

  lemma {:induction false} PayloadConcat(a: seq<Item>, b: seq<Item>, front: seq<Byte>)
    ensures PayloadOf(a + b, front) == PayloadOf(b, PayloadOf(a, front))
    decreases |b|
  {
    if b == [] {
      assert a + b == a;
    } else {
      var n := |b| - 1;
      PayloadConcat(a, b[..n], front);
      assert a + b == (a + b[..n]) + [b[n]];
      PayloadSnoc(a + b[..n], b[n], front);
    }
  }

  /** One entry in the input buffer, behind `index`. */
  method AddEntry(p: seq<int>, last: int, item: Item, ghost index: seq<int>) returns (q: seq<int>, end: int)
    ensures |q| == |p| + 1 && Written(index + q, end) == Next(Written(index + p, last), item)
  {
    end := Narrow(last + Length(item), 4);
    q := p + [if item.None? then Narrow(0 - end, 4) else end];
    assert index + q == (index + p) + [q[|p|]];
  }

  /** Filling the input buffer, which has room for `room` index entries; they follow `index`. */
  method FillIndex(src: seq<Item>, start: nat, num: nat, replicating: bool, room: nat, from: nat, before: int, ghost index: seq<int>)
    returns (p: seq<int>, last: int, appended: nat)
    requires src != [] && (replicating || start + num <= |src|) && from < num && room > 0
    ensures from < appended <= num
    ensures Written(index + p, last) == Fold(Next, Picked(src, start, num, replicating)[from..appended], Written(index, before))
  {
    ghost var items, done := Picked(src, start, num, replicating), [];
    p, last, appended := [], before, from;
    while appended < num && |p| < room
      invariant from <= appended <= num && |p| == appended - from && done == items[from..appended]
      invariant Written(index + p, last) == Fold(Next, done, Written(index, before))
    {
      var item := src[if replicating then 0 else appended + start];
      FoldSnoc(Next, done, item, Written(index, before));
      assert done + [item] == items[from..appended + 1];
      p, last := AddEntry(p, last, item, index);
      appended := appended + 1;
      done := done + [item];
    }
  }

  class Encoder {
    var index: seq<int>
    var buffer: seq<Byte>
    var numElems: nat

    constructor ()
      ensures State() == EMPTY
    {
      index, buffer, numElems := [], [], 0;
    }

    ghost function State(): Buffers
      reads this
    {
      Buffers(index, buffer, numElems)
    }

    method AppendIndex(src: seq<Item>, start: nat, num: nat, replicating: bool, room: nat, first: int)
      requires src != [] && (replicating || start + num <= |src|) && (num > 0 ==> room > 0)
      modifies this`index
      ensures index == Fold(Next, Picked(src, start, num, replicating), Written(old(index), first)).index
    {
      ghost var items := Picked(src, start, num, replicating);
      var last, appended := first, 0;
      while appended < num
        invariant appended <= num && Written(index, last) == Fold(Next, items[..appended], Written(old(index), first))
      {
        ghost var from := appended;
        var p;
        p, last, appended := FillIndex(src, start, num, replicating, room, appended, last, index);
        FoldConcat(Next, items[..from], items[from..appended], Written(old(index), first));
        assert items[..from] + items[from..appended] == items[..appended];
        index := index + p;
      }
      assert items[..num] == items;
    }

    /** One fill of an input buffer of `room` bytes; a longer array is appended on its own. */
    method FillBytes(src: seq<Item>, start: nat, num: nat, replicating: bool, room: nat, from: nat) returns (appended: nat)
      requires src != [] && (replicating || start + num <= |src|) && from < num && room > 0
      modifies this`buffer
      ensures from < appended <= num
      ensures buffer == PayloadOf(Picked(src, start, num, replicating)[from..appended], old(buffer))
    {
      ghost var items, done := Picked(src, start, num, replicating), [];
      var inbuf: seq<Byte> := [];
      appended := from;
      while appended < num && |inbuf| < room
        invariant from <= appended <= num && done == items[from..appended] && (appended == from ==> inbuf == [])
        invariant buffer + inbuf == PayloadOf(done, old(buffer))
      {
        var item := src[if replicating then 0 else start + appended];
        PayloadSnoc(done, item, old(buffer));
        assert done + [item] == items[from..appended + 1];
        if item.Some? {
          if |item.value| > room {
            buffer := buffer + inbuf;
            inbuf := [];
            buffer := buffer + item.value;
            appended := appended + 1;
            done := done + [item];
            break;
          } else if |inbuf| + |item.value| > room {
            break;
          }
          assert buffer + (inbuf + item.value) == (buffer + inbuf) + item.value;
          inbuf := inbuf + item.value;
        }
        appended := appended + 1;
        done := done + [item];
      }
      buffer := buffer + inbuf;
    }

    method AppendBytes(src: seq<Item>, start: nat, num: nat, replicating: bool, room: nat)
      requires src != [] && (replicating || start + num <= |src|) && (num > 0 ==> room > 0)
      modifies this`buffer
      ensures buffer == PayloadOf(Picked(src, start, num, replicating), old(buffer))
    {
      ghost var items := Picked(src, start, num, replicating);
      var appended := 0;
      while appended < num
        invariant appended <= num && buffer == PayloadOf(items[..appended], old(buffer))
      {
        ghost var from := appended;
        appended := FillBytes(src, start, num, replicating, room, appended);
        PayloadConcat(items[..from], items[from..appended], old(buffer));
        assert items[..from] + items[from..appended] == items[..appended];
      }
      assert items[..num] == items;
    }

    /** `appendData`; the padding is whatever the input buffer holds. */
    method AppendData(src: seq<Item>, start: nat, num: nat, replicating: bool, padding: seq<Byte>) returns (passed: bool)
      requires src != [] && (replicating || start + num <= |src|) && |padding| == NULL_PADDING
      requires numElems > 0 ==> index != []
      modifies this
      ensures var r := Append(old(State()), src, Picked(src, start, num, replicating), padding);
              passed == r.Some? && State() == if passed then r.value else old(State())
      ensures numElems > 0 ==> index != []
    {
      var indexSize := 4 * num;
      var padded, last := false, 0;
      if numElems == 0 {
        indexSize := indexSize + 4;
        if NeedsPadding(src[0]) {
          last, padded := NULL_PADDING, true;
        }
        index := index + [last];
      } else {
        last := index[|index| - 1];
        if last == -1 {
          return false;
        }
        if last < 0 {
          last := -last;
        }
      }
      var dataSize := if padded then NULL_PADDING else 0;
      for n := 0 to num
        invariant dataSize >= 0
      {
        dataSize := dataSize + Length(src[if replicating then 0 else start + n]);
      }
      var larger := if indexSize >= dataSize then indexSize else dataSize;
      var room := if larger <= MAX_INPUT_BUFFER then larger else MAX_INPUT_BUFFER;
      AppendIndex(src, start, num, replicating, room / 4, last);
      if padded {
        buffer := buffer + padding;
      }
      AppendBytes(src, start, num, replicating, room);
      numElems := numElems + num;
      assert old(buffer) + [] == old(buffer);
      return true;
    }
  }
}

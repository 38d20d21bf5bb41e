/** Splitting a string at a non-empty delimiter, and joining strings. */
module SplitJoin {
  import opened Wrappers

  /** `d` occurs in `s` at `i`. */
  predicate At(s: string, d: string, i: int) {
    0 <= i <= |s| - |d| && s[i..i + |d|] == d
  }

  predicate Occurs(s: string, d: string) {
    exists i :: 0 <= i <= |s| && At(s, d, i)
  }

  /** `str.find(delim, from)`. */
  method Find(s: string, d: string, from: nat) returns (r: Option<nat>)
    requires from <= |s|
    ensures r == FirstFrom(s, d, from)
  {
    var i := from;
    while i <= |s|
      invariant from <= i <= |s| + 1
      invariant FirstFrom(s, d, from) == if i <= |s| then FirstFrom(s, d, i) else None
    {
      if At(s, d, i) {
        return Some(i);
      }
      i := i + 1;
    }
    return None;
  }

  /** The first occurrence of `d` at or after `from`. */
  function FirstFrom(s: string, d: string, from: nat): (r: Option<nat>)
    requires from <= |s|
    ensures r.Some? ==> from <= r.value && r.value + |d| <= |s|
    decreases |s| - from
  {
    if At(s, d, from) then Some(from) else if from == |s| then None else FirstFrom(s, d, from + 1)
  }

  lemma {:induction false} FirstIs(s: string, d: string, from: nat)
    requires from <= |s|
    ensures var r := FirstFrom(s, d, from);
            if r.Some? then At(s, d, r.value) && forall i | from <= i < r.value :: !At(s, d, i)
            else forall i | from <= i <= |s| :: !At(s, d, i)
    decreases |s| - from
  {
    if !At(s, d, from) && from < |s| {
      FirstIs(s, d, from + 1);
    }
  }

  /** Occurrences in a slice are occurrences in the string. */
  lemma AtSlice(s: string, j: nat, i: nat, d: string, k: nat)
    requires j <= i <= |s|
    ensures At(s[j..i], d, k) <==> k + |d| <= i - j && At(s, d, j + k)
  {
    if k + |d| <= i - j {
      var a, b := s[j..i][k..k + |d|], s[j + k..j + k + |d|];
      assert forall m | 0 <= m < |d| :: a[m] == b[m];
      assert a == b;
    }
  }

  // ---------------------------------------------------------------- specification

  /** The pieces of `s` from position `j` on, with at most `budget` more splits. */
  function Pieces(s: string, d: string, j: nat, budget: Option<nat>): seq<string>
    requires d != [] && j <= |s|
    decreases |s| - j
  {
    var i := FirstFrom(s, d, j);
    if i.None? || budget == Some(0) then [s[j..]]
    else [s[j..i.value]] + Pieces(s, d, i.value + |d|, Less(budget, 1))
  }

  function Less(budget: Option<nat>, n: nat): Option<nat>
    requires budget.Some? ==> n <= budget.value
  {
    if budget.None? then None else Some(budget.value - n)
  }

  function Join(pieces: seq<string>, d: string): string {
    if pieces == [] then "" else if |pieces| == 1 then pieces[0] else pieces[0] + d + Join(pieces[1..], d)
  }

  // ---------------------------------------------------------------- the loops

  /** `split` with an explicit delimiter. */
  method Split(s: string, d: string, maxSplit: Option<nat>) returns (result: seq<string>)
    requires d != []
    ensures result == Pieces(s, d, 0, maxSplit)
  {
    result := [];
    ghost var rest, budget := Pieces(s, d, 0, maxSplit), maxSplit;
    var j := 0;
    var i := Find(s, d, 0);
    while i.Some? && (maxSplit.None? || |result| < maxSplit.value)
      invariant j <= |s| && i == FirstFrom(s, d, j)
      invariant maxSplit.Some? ==> |result| <= maxSplit.value
      invariant budget == Less(maxSplit, |result|) && rest == Pieces(s, d, j, budget)
      invariant result + rest == Pieces(s, d, 0, maxSplit)
      decreases |s| - j
    {
      ghost var p, after := PiecesStep(s, d, j, budget);
      Shift(result, p, after);
      rest, budget := after, Less(budget, 1);
      result := result + [s[j..i.value]];
      j := i.value + |d|;
      i := Find(s, d, j);
    }
    assert rest == [s[j..]];
    result := result + [s[j..]];
  }

  lemma PiecesStep(s: string, d: string, j: nat, budget: Option<nat>) returns (p: string, rest: seq<string>)
    requires d != [] && j <= |s| && FirstFrom(s, d, j).Some? && budget != Some(0)
    ensures var i := FirstFrom(s, d, j).value; p == s[j..i] && rest == Pieces(s, d, i + |d|, Less(budget, 1))
    ensures Pieces(s, d, j, budget) == [p] + rest
  {
    var i := FirstFrom(s, d, j).value;
    p, rest := s[j..i], Pieces(s, d, i + |d|, Less(budget, 1));
  }

  lemma Shift(done: seq<string>, p: string, rest: seq<string>)
    ensures done + ([p] + rest) == done + [p] + rest
  {
  }

  method JoinAll(pieces: seq<string>, d: string) returns (s: string)
    ensures s == Join(pieces, d)
  {
    s := "";
    if pieces != [] {
      s := pieces[0];
      for k := 1 to |pieces|
        invariant s == Join(pieces[..k], d)
      {
        JoinSnoc(pieces[..k], pieces[k], d);
        assert pieces[..k + 1] == pieces[..k] + [pieces[k]];
        s := s + d + pieces[k];
      }
      assert pieces[..|pieces|] == pieces;
    }
  }

  lemma {:induction false} JoinSnoc(pieces: seq<string>, p: string, d: string)
    requires pieces != []
    ensures Join(pieces + [p], d) == Join(pieces, d) + d + p
    decreases |pieces|
  {
    var all := pieces + [p];
    if |pieces| == 1 {
      assert all[1..] == [p];
    } else {
      JoinSnoc(pieces[1..], p, d);
      assert all[1..] == pieces[1..] + [p];
    }
  }

  // ---------------------------------------------------------------- split, then join

  lemma JoinCons(ps: seq<string>, p: string, rest: seq<string>, d: string, tail: string, text: string)
    requires ps == [p] + rest && rest != [] && Join(rest, d) == tail && text == p + d + tail
    ensures Join(ps, d) == text
  {
    assert ps[1..] == rest;
  }

  lemma {:induction false} SomePiece(s: string, d: string, j: nat, budget: Option<nat>)
    requires d != [] && j <= |s|
    ensures Pieces(s, d, j, budget) != []
  {
  }

  lemma CutAtFirst(s: string, d: string, j: nat)
    requires j <= |s| && FirstFrom(s, d, j).Some?
    ensures var i := FirstFrom(s, d, j).value; s[j..] == s[j..i] + d + s[i + |d|..]
  {
    FirstIs(s, d, j);
  }

  lemma {:induction false} JoinOfPieces(s: string, d: string, j: nat, budget: Option<nat>, ps: seq<string>)
    requires d != [] && j <= |s| && ps == Pieces(s, d, j, budget)
    ensures Join(ps, d) == s[j..]
    decreases |s| - j
  {
    var i := FirstFrom(s, d, j);
    if i.Some? && budget != Some(0) {
      var p, rest := PiecesStep(s, d, j, budget);
      JoinOfPieces(s, d, i.value + |d|, Less(budget, 1), rest);
      SomePiece(s, d, i.value + |d|, Less(budget, 1));
      CutAtFirst(s, d, j);
      JoinCons(ps, p, rest, d, s[i.value + |d|..], s[j..]);
    }
  }

  /** Joining the pieces gives the string back, whatever the limit. */
  lemma JoinOfSplit(s: string, d: string, j: nat, budget: Option<nat>)
    requires d != [] && j <= |s|
    ensures Join(Pieces(s, d, j, budget), d) == s[j..]
  {
    JoinOfPieces(s, d, j, budget, Pieces(s, d, j, budget));
  }

  /** At most one piece more than the limit; no piece but the last contains the delimiter, and the
      last one only if the limit was reached. */
  ghost predicate Clean(ps: seq<string>, d: string, budget: Option<nat>) {
    && |ps| >= 1
    && (budget.Some? ==> |ps| <= budget.value + 1)
    && (forall k | 0 <= k < |ps| - 1 :: !Occurs(ps[k], d))
    && (Occurs(ps[|ps| - 1], d) ==> budget.Some? && |ps| == budget.value + 1)
  }

  lemma {:induction false} PiecesClean(s: string, d: string, j: nat, budget: Option<nat>)
    requires d != [] && j <= |s|
    ensures Clean(Pieces(s, d, j, budget), d, budget)
    decreases |s| - j
  {
    var i := FirstFrom(s, d, j);
    FirstIs(s, d, j);
    if i.Some? && budget != Some(0) {
      PiecesClean(s, d, i.value + |d|, Less(budget, 1));
      var p, rest := PiecesStep(s, d, j, budget);
      NotInSlice(s, d, j, i.value);
      ConsClean(p, rest, d, budget);
    } else if i.None? {
      NotInSlice(s, d, j, |s|);
      assert s[j..] == s[j..|s|];
    }
  }

  lemma ConsClean(p: string, rest: seq<string>, d: string, budget: Option<nat>)
    requires !Occurs(p, d) && budget != Some(0) && Clean(rest, d, Less(budget, 1))
    ensures Clean([p] + rest, d, budget)
  {
    var ps := [p] + rest;
    forall k | 0 <= k < |ps| - 1
      ensures !Occurs(ps[k], d)
    {
      if k > 0 {
        assert ps[k] == rest[k - 1];
      }
    }
  }

  lemma NotInSlice(s: string, d: string, j: nat, i: nat)
    requires j <= i <= |s| && forall k | j <= k < i :: !At(s, d, k)
    requires d != []
    ensures !Occurs(s[j..i], d)
  {
    var t := s[j..i];
    forall k | 0 <= k <= |t|
      ensures !At(t, d, k)
    {
      AtSlice(s, j, i, d, k);
    }
  }

  // ---------------------------------------------------------------- join, then split

  /** In `p` followed by the delimiter, the delimiter is first met at the end of `p`. */
  predicate Ends(p: string, d: string) {
    FirstFrom(p + d, d, 0) == Some(|p|)
  }

  /** Every piece ends where its delimiter begins, and the last one has no delimiter. */
  predicate Separable(pieces: seq<string>, d: string) {
    && pieces != []
    && (forall k | 0 <= k < |pieces| - 1 :: Ends(pieces[k], d))
    && !Occurs(pieces[|pieces| - 1], d)
  }

  /** Nothing in front of a position decides what is found after it. */
  lemma {:induction false} PiecesOfSuffix(s: string, d: string, j: nat)
    requires d != [] && j <= |s|
    ensures Pieces(s, d, j, None) == Pieces(s[j..], d, 0, None)
  {
    PiecesShift(s, d, j, 0);
  }

  lemma {:induction false} PiecesShift(s: string, d: string, j: nat, k: nat)
    requires d != [] && j + k <= |s|
    ensures Pieces(s, d, j + k, None) == Pieces(s[j..], d, k, None)
    decreases |s| - k
  {
    var t := s[j..];
    FirstShift(s, d, j, k);
    var i := FirstFrom(t, d, k);
    if i.Some? {
      PiecesShift(s, d, j, i.value + |d|);
      SliceOfSuffix(s, j, k, i.value);
      var p, rest := PiecesStep(s, d, j + k, None);
      var q, tail := PiecesStep(t, d, k, None);
      assert p == q && rest == tail;
    } else {
      SliceOfSuffix(s, j, k, |t|);
      assert s[j + k..] == s[j + k..|s|] && t[k..] == t[k..|t|];
    }
  }

  lemma SliceOfSuffix(s: string, j: nat, k: nat, i: nat)
    requires k <= i && j + i <= |s|
    ensures s[j..][k..i] == s[j + k..j + i]
  {
  }

  lemma {:induction false} FirstShift(s: string, d: string, j: nat, k: nat)
    requires j + k <= |s|
    ensures FirstFrom(s, d, j + k) ==
            var i := FirstFrom(s[j..], d, k); if i.None? then None else Some(j + i.value)
    decreases |s| - k
  {
    assert s[j..] == s[j..|s|];
    AtSlice(s, j, |s|, d, k);
    if !At(s, d, j + k) && j + k < |s| {
      FirstShift(s, d, j, k + 1);
    }
  }

  /** The first occurrence in `p + d + rest` is the one in `p + d`. */
  lemma FirstInPrefix(p: string, d: string, rest: string)
    requires d != []
    ensures FirstFrom(p + d + rest, d, 0) == FirstFrom(p + d, d, 0)
    ensures FirstFrom(p + d, d, 0).Some? && FirstFrom(p + d, d, 0).value <= |p|
  {
    var s, t := p + d + rest, p + d;
    forall i | 0 <= i <= |p|
      ensures At(s, d, i) == At(t, d, i)
    {
      assert s[i..i + |d|] == t[i..i + |d|];
    }
    assert t[|p|..|p| + |d|] == d;
    assert At(t, d, |p|) && At(s, d, |p|);
    FirstIs(s, d, 0);
    FirstIs(t, d, 0);
  }

  /** Splitting a join gives the pieces back exactly when they are separable. */
  lemma {:induction false} SplitOfJoin(pieces: seq<string>, d: string)
    requires d != [] && pieces != []
    ensures Pieces(Join(pieces, d), d, 0, None) == pieces <==> Separable(pieces, d)
    decreases |pieces|
  {
    var s := Join(pieces, d);
    if |pieces| == 1 {
      var p := pieces[0];
      assert s[0..] == p;
      var i := FirstFrom(p, d, 0);
      FirstIs(p, d, 0);
      if i.Some? {
        assert Occurs(p, d);
        assert |Pieces(p, d, 0, None)[0]| < |p|;
      }
    } else {
      var p, tail := pieces[0], pieces[1..];
      var rest := Join(tail, d);
      FirstInPrefix(p, d, rest);
      SplitOfJoin(tail, d);
      SeparableTail(pieces, d);
      FirstPiece(p, d, rest, tail);
      assert pieces == [p] + tail;
    }
  }

  /** The first piece is split off right exactly if it ends where its delimiter begins. */
  lemma FirstPiece(p: string, d: string, rest: string, tail: seq<string>)
    requires d != []
    ensures Pieces(p + d + rest, d, 0, None) == [p] + tail <==> Ends(p, d) && Pieces(rest, d, 0, None) == tail
  {
    var s := p + d + rest;
    FirstInPrefix(p, d, rest);
    var i := FirstFrom(s, d, 0).value;
    Parts(p, d, rest);
    FirstPieceAt(s, p, d, i, rest, tail);
  }

  lemma FirstPieceAt(s: string, p: string, d: string, i: nat, rest: string, tail: seq<string>)
    requires d != [] && FirstFrom(s, d, 0) == Some(i) && i <= |p|
    requires i == |p| ==> s[0..i] == p && s[i + |d|..] == rest
    ensures Pieces(s, d, 0, None) == [p] + tail <==> i == |p| && Pieces(rest, d, 0, None) == tail
  {
    if i == |p| {
      var more := WholeFirst(s, d, i);
      SameHead(p, more, tail);
    } else {
      ShortFirst(s, p, d, i, tail);
    }
  }

  lemma WholeFirst(s: string, d: string, i: nat) returns (more: seq<string>)
    requires d != [] && FirstFrom(s, d, 0) == Some(i)
    ensures Pieces(s, d, 0, None) == [s[0..i]] + more && more == Pieces(s[i + |d|..], d, 0, None)
  {
    var first;
    first, more := PiecesStep(s, d, 0, None);
    PiecesOfSuffix(s, d, i + |d|);
  }

  lemma ShortFirst(s: string, p: string, d: string, i: nat, tail: seq<string>)
    requires d != [] && FirstFrom(s, d, 0) == Some(i) && i < |p|
    ensures Pieces(s, d, 0, None) != [p] + tail
  {
    var first, more := PiecesStep(s, d, 0, None);
    assert ([first] + more)[0] == first && ([p] + tail)[0] == p;
  }

  lemma Parts(p: string, d: string, rest: string)
    ensures (p + d + rest)[0..|p|] == p && (p + d + rest)[|p| + |d|..] == rest
  {
  }

  lemma SameHead(p: string, ps: seq<string>, qs: seq<string>)
    ensures [p] + ps == [p] + qs <==> ps == qs
  {
    assert ([p] + ps)[1..] == ps && ([p] + qs)[1..] == qs;
  }

  lemma SeparableTail(pieces: seq<string>, d: string)
    requires |pieces| >= 2
    ensures Separable(pieces, d) <==> Ends(pieces[0], d) && Separable(pieces[1..], d)
  {
    var tail := pieces[1..];
    assert forall k | 0 <= k < |tail| :: tail[k] == pieces[k + 1];
    if Ends(pieces[0], d) && Separable(tail, d) {
      forall k | 0 <= k < |pieces| - 1
        ensures Ends(pieces[k], d)
      {
        if k > 0 {
          assert Ends(tail[k - 1], d);
        }
      }
    }
    if Separable(pieces, d) {
      forall k | 0 <= k < |tail| - 1
        ensures Ends(tail[k], d)
      {
        assert Ends(pieces[k + 1], d);
      }
    }
  }

  /** For a one-character delimiter separable means: no piece contains it. */
  lemma SeparableChar(pieces: seq<string>, c: char)
    requires pieces != []
    ensures Separable(pieces, [c]) <==> forall k | 0 <= k < |pieces| :: c !in pieces[k]
  {
    forall k | 0 <= k < |pieces|
      ensures (Ends(pieces[k], [c]) <==> c !in pieces[k]) && (Occurs(pieces[k], [c]) <==> c in pieces[k])
    {
      CharEnds(pieces[k], c);
    }
  }

  lemma CharEnds(p: string, c: char)
    ensures Ends(p, [c]) <==> c !in p
    ensures Occurs(p, [c]) <==> c in p
  {
    var t := p + [c];
    forall i | 0 <= i < |t|
      ensures At(t, [c], i) <==> t[i] == c
    {
      assert t[i..i + 1] == [t[i]];
    }
    forall i | 0 <= i < |p|
      ensures At(p, [c], i) <==> p[i] == c
    {
      assert p[i..i + 1] == [p[i]];
    }
    if i :| 0 <= i < |p| && p[i] == c {
      assert t[i] == c && At(p, [c], i);
    }
    assert t[|p|] == c;
    FirstIs(t, [c], 0);
  }
}

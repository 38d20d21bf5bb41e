/**
What the search of `FunctionBinding` chooses: when it finds anything, and which of the signatures
that fit it prefers.
*/
module BindingTheorems {
  import opened FunctionBinding

  // ---------------------------------------------------------------- what fits, independently of scores

  /** Argument types the engine produces for a call: the encodings that go with the kind. */
  predicate Ordinary(t: TypeInfo) {
    if IsNumeric(t.kind) then t.encoding == Plain || t.encoding == Fixed
    else
      match t.kind
      case Array => true
      case NullT => true
      case Column => true
      case ColumnList => t.dimension == 1
      case Varchar => t.encoding == Plain || t.encoding == Dict
      case Text => t.encoding == Plain || t.encoding == Dict
      case _ => true
  }

  /** The scalar parameters a numeric argument can be passed to. */
  predicate Widens(arg: TypeInfo, e: Elem) {
    match arg.kind
    case Boolean => e == Bool
    case TinyInt => e != Bool
    case SmallInt => e != Bool && e != Int8
    case Int => e == Int32 || e == Int64 || e == Fp32 || e == Fp64
    case BigInt => e == Int64 || e == Fp64
    case Float => e == Fp32 || e == Fp64
    case Double => e == Fp64
    case _ => e == Fp64 || (e == Fp32 && arg.dimension <= 7)
  }

  predicate TakesElem(arg: TypeInfo, e: Elem) {
    || arg.subtype == KindOf(e)
    || (e == Int8 && arg.subtype == Boolean && arg.dimension == 0 && arg.scale == 0 && !arg.notnull && arg.encoding == Plain)
  }

  /** One argument can be passed to this group of parameters. */
  predicate Accepts(arg: TypeInfo, group: seq<ExtType>) {
    if |group| == 2 then
      (arg.kind == Array || arg.kind == NullT) && group[0].Pointer? && group[1] == Scalar(Int64)
    else
      && |group| == 1
      && match group[0]
         case Scalar(e) => IsNumeric(arg.kind) && Widens(arg, e)
         case ArrayOf(e) => arg.kind == Array && TakesElem(arg, e)
         case ColumnOf(e) => arg.kind == Column && TakesElem(arg, e)
         case ColumnListOf(e) => arg.kind == ColumnList && TakesElem(arg, e)
         case TextNone => (arg.kind == Text || arg.kind == Varchar) && arg.encoding == Plain
         case ColumnText => arg.kind == Column && arg.subtype == Text
         case ColumnListText => arg.kind == ColumnList && arg.subtype == Text
         case _ => false
  }

  /** The arguments use up the parameters exactly. */
  predicate Consumes(types: seq<TypeInfo>, sigs: seq<ExtType>) {
    if types == [] then sigs == []
    else
      || (|sigs| >= 1 && Accepts(types[0], sigs[..1]) && Consumes(types[1..], sigs[1..]))
      || (|sigs| >= 2 && Accepts(types[0], sigs[..2]) && Consumes(types[1..], sigs[2..]))
  }

  predicate Cast(arg: TypeInfo, sig: ExtType) {
    IntegerToFp(arg.kind, InfoOf(sig).kind)
  }

  /** How many parameters an argument takes. */
  function Takes(sigs: seq<ExtType>): nat {
    if PointerAndSize(sigs) then 2 else 1
  }

  /** How many integers are turned into floating point. */
  function Casts(types: seq<TypeInfo>, sigs: seq<ExtType>): nat {
    if types == [] || |sigs| < Takes(sigs) then 0
    else (if Cast(types[0], sigs[0]) then 1 else 0) + Casts(types[1..], sigs[Takes(sigs)..])
  }

  /** No check fails, and no argument costs much. */
  ghost predicate Fair(sigs: seq<ExtType>, m: Match) {
    m.NoMatch? || m.Unsupported? || (m.Matched? && m.consumed == Takes(sigs) <= |sigs| && 1000 <= m.penalty <= 1_009_000)
  }

  function Width(e: Elem): int {
    match e
    case Bool => 1
    case Int8 => 1
    case Int16 => 2
    case Int32 => 4
    case Int64 => 8
    case Fp32 => 4
    case Fp64 => 8
  }

  predicate ByteWidth(n: int) {
    n == 1 || n == 2 || n == 4 || n == 8
  }

  /** The cast rules, and why the scale checks never fail. */
  lemma CastableIsWidens(arg: TypeInfo, e: Elem)
    requires Ordinary(arg) && IsNumeric(arg.kind)
    ensures Castable(arg, InfoOf(Scalar(e))) <==> Widens(arg, e)
    ensures ByteWidth(Scale(arg)) && Scale(InfoOf(Scalar(e))) == Width(e)
    ensures Widens(arg, e) ==> Scale(arg) <= Width(e)
  {
    if IsInteger(arg.kind) {
      IntegerWidens(arg, e);
    } else {
      OtherWidens(arg, e);
    }
  }

  lemma IntegerWidens(arg: TypeInfo, e: Elem)
    requires Ordinary(arg) && IsInteger(arg.kind)
    ensures Castable(arg, InfoOf(Scalar(e))) <==> Widens(arg, e)
    ensures ByteWidth(Scale(arg)) && Scale(InfoOf(Scalar(e))) == Width(e)
    ensures Widens(arg, e) ==> Scale(arg) <= Width(e)
  {
  }

  lemma OtherWidens(arg: TypeInfo, e: Elem)
    requires Ordinary(arg) && (arg.kind == Boolean || IsFp(arg.kind) || IsDecimal(arg.kind))
    ensures Castable(arg, InfoOf(Scalar(e))) <==> Widens(arg, e)
    ensures ByteWidth(Scale(arg)) && Scale(InfoOf(Scalar(e))) == Width(e)
    ensures Widens(arg, e) ==> Scale(arg) <= Width(e)
  {
  }

  /** The part of the penalty that depends on widths. */
  function Scaling(a: int, s: int, literal: bool): int
    requires a > 0
  {
    if literal then 8000 / a - 1000 * (s / a) else 1000 * (s / a)
  }

  lemma ScalingBounds(a: int, s: int, literal: bool)
    requires ByteWidth(a) && ByteWidth(s) && a <= s
    ensures 0 <= Scaling(a, s, literal) <= 8000
  {
  }

  /** A numeric argument's match, in full. */
  function NumericMatch(arg: TypeInfo, literal: bool, e: Elem): Match
    requires Scale(arg) > 0
  {
    if !Widens(arg, e) then NoMatch
    else Matched(1, Scaling(Scale(arg), Width(e), literal) + if Cast(arg, Scalar(e)) then 1_001_000 else 1000)
  }

  lemma NumericIs(arg: TypeInfo, literal: bool, e: Elem)
    requires Ordinary(arg) && IsNumeric(arg.kind)
    ensures Scale(arg) > 0 && MatchNumeric(arg, literal, Scalar(e)) == NumericMatch(arg, literal, e)
  {
    CastableIsWidens(arg, e);
    if Widens(arg, e) {
      ScalingBounds(Scale(arg), Width(e), literal);
    }
  }

  lemma NumericIsFair(arg: TypeInfo, literal: bool, sigs: seq<ExtType>)
    requires Ordinary(arg) && IsNumeric(arg.kind) && sigs != []
    ensures Fair(sigs, MatchNumeric(arg, literal, sigs[0]))
    ensures MatchNumeric(arg, literal, sigs[0]).Matched? <==> sigs[0].Scalar? && Widens(arg, sigs[0].elem)
  {
    if sigs[0].Scalar? {
      var e := sigs[0].elem;
      NumericIs(arg, literal, e);
      CastableIsWidens(arg, e);
      if Widens(arg, e) {
        ScalingBounds(Scale(arg), Width(e), literal);
      }
    }
  }

  lemma ArgumentIsFair(arg: TypeInfo, literal: bool, sigs: seq<ExtType>)
    requires Ordinary(arg)
    ensures Fair(sigs, MatchArgument(arg, literal, sigs))
  {
    if sigs != [] && IsNumeric(arg.kind) {
      NumericIsFair(arg, literal, sigs);
    }
  }

  lemma MatchIsAccepts(arg: TypeInfo, literal: bool, sigs: seq<ExtType>, n: nat)
    requires Ordinary(arg) && 1 <= n <= 2 && n <= |sigs|
    ensures Accepts(arg, sigs[..n]) <==>
            MatchArgument(arg, literal, sigs).Matched? && MatchArgument(arg, literal, sigs).consumed == n
  {
    assert sigs[..n][0] == sigs[0];
    assert n == 2 ==> sigs[..n][1] == sigs[1];
    if IsNumeric(arg.kind) {
      NumericIsFair(arg, literal, sigs);
    }
  }

  // ---------------------------------------------------------------- what the search relies on

  ghost predicate AllOrdinary(types: seq<TypeInfo>) {
    forall i | 0 <= i < |types| :: Ordinary(types[i])
  }

  ghost predicate AcceptedBy(arg: TypeInfo, sigs: seq<ExtType>, m: Match) {
    && (m.Matched? ==> 1 <= m.consumed <= 2 && m.consumed <= |sigs|)
    && (|sigs| >= 1 ==> (Accepts(arg, sigs[..1]) <==> m.Matched? && m.consumed == 1))
    && (|sigs| >= 2 ==> (Accepts(arg, sigs[..2]) <==> m.Matched? && m.consumed == 2))
  }

  function CastPenalty(arg: TypeInfo, sigs: seq<ExtType>): int {
    if sigs != [] && Cast(arg, sigs[0]) then 1_000_000 else 0
  }

  /** Apart from casts to floating point, two ways to pass an argument differ by at most 7000. */
  ghost predicate Close(arg: TypeInfo, a: seq<ExtType>, b: seq<ExtType>, ma: Match, mb: Match) {
    ma.Matched? && mb.Matched? ==> ma.penalty - mb.penalty <= 7000 + CastPenalty(arg, a) - CastPenalty(arg, b)
  }

  predicate SameFamily(e: Elem, w: Elem) {
    e != Bool && w != Bool && ((e == Fp32 || e == Fp64) <==> (w == Fp32 || w == Fp64))
  }

  /** Passing to a wider parameter of the family costs a column at least 1000 more, and a literal as much less. */
  ghost predicate WiderCosts(literal: bool, a: seq<ExtType>, b: seq<ExtType>, ma: Match, mb: Match) {
    (&& a != [] && b != [] && a[0].Scalar? && b[0].Scalar? && SameFamily(a[0].elem, b[0].elem)
     && Width(a[0].elem) < Width(b[0].elem) && ma.Matched? && mb.Matched?) ==>
      if literal then mb.penalty + 1000 <= ma.penalty else ma.penalty + 1000 <= mb.penalty
  }

  /** The part of a signature that an argument can look at. */
  predicate SameFront(a: seq<ExtType>, b: seq<ExtType>) {
    && a != [] && b != [] && a[0] == b[0]
    && (a[0].Pointer? ==> |a| >= 2 && |b| >= 2 && a[1] == b[1])
  }

  /** All that is used of matching one argument below. */
  ghost predicate Reasonable(f: Matcher) {
    && InBounds(f)
    && (forall arg, literal, sigs | Ordinary(arg) :: Fair(sigs, f(arg, literal, sigs)))
    && (forall arg, literal, sigs | Ordinary(arg) :: AcceptedBy(arg, sigs, f(arg, literal, sigs)))
    && (forall arg, literal, a, b | Ordinary(arg) :: Close(arg, a, b, f(arg, literal, a), f(arg, literal, b)))
    && (forall arg, literal, a, b | Ordinary(arg) :: WiderCosts(literal, a, b, f(arg, literal, a), f(arg, literal, b)))
    && (forall arg, literal, a, b | SameFront(a, b) :: f(arg, literal, a) == f(arg, literal, b))
  }

  lemma ReasonableAt(f: Matcher, arg: TypeInfo, literal: bool, a: seq<ExtType>, b: seq<ExtType>)
    requires Reasonable(f) && Ordinary(arg)
    ensures Fair(a, f(arg, literal, a)) && AcceptedBy(arg, a, f(arg, literal, a))
    ensures Close(arg, a, b, f(arg, literal, a), f(arg, literal, b))
    ensures WiderCosts(literal, a, b, f(arg, literal, a), f(arg, literal, b))
    ensures SameFront(a, b) ==> f(arg, literal, a) == f(arg, literal, b)
  {
  }

  lemma MatchIsAccepted(arg: TypeInfo, literal: bool, sigs: seq<ExtType>)
    requires Ordinary(arg)
    ensures AcceptedBy(arg, sigs, MatchArgument(arg, literal, sigs))
  {
    ArgumentIsFair(arg, literal, sigs);
    if |sigs| >= 1 {
      MatchIsAccepts(arg, literal, sigs, 1);
    }
    if |sigs| >= 2 {
      MatchIsAccepts(arg, literal, sigs, 2);
    }
  }

  lemma ScalingSpread(a: int, s: int, w: int, literal: bool)
    requires ByteWidth(a) && ByteWidth(s) && ByteWidth(w) && a <= s && a <= w
    ensures Scaling(a, s, literal) - Scaling(a, w, literal) <= 7000
    ensures s < w ==> if literal then Scaling(a, w, true) + 1000 <= Scaling(a, s, true)
                      else Scaling(a, s, false) + 1000 <= Scaling(a, w, false)
  {
  }

  lemma NumericIsClose(arg: TypeInfo, literal: bool, e: Elem, w: Elem)
    requires Ordinary(arg) && IsNumeric(arg.kind) && Widens(arg, e) && Widens(arg, w)
    ensures var p, q := MatchNumeric(arg, literal, Scalar(e)), MatchNumeric(arg, literal, Scalar(w));
            && p.Matched? && q.Matched?
            && p.penalty - q.penalty <= 7000 + CastPenalty(arg, [Scalar(e)]) - CastPenalty(arg, [Scalar(w)])
            && (SameFamily(e, w) && Width(e) < Width(w) ==>
                  if literal then q.penalty + 1000 <= p.penalty else p.penalty + 1000 <= q.penalty)
  {
    NumericIs(arg, literal, e);
    NumericIs(arg, literal, w);
    CastableIsWidens(arg, e);
    CastableIsWidens(arg, w);
    ScalingSpread(Scale(arg), Width(e), Width(w), literal);
  }

  lemma MatchIsClose(arg: TypeInfo, literal: bool, a: seq<ExtType>, b: seq<ExtType>)
    requires Ordinary(arg)
    ensures Close(arg, a, b, MatchArgument(arg, literal, a), MatchArgument(arg, literal, b))
    ensures WiderCosts(literal, a, b, MatchArgument(arg, literal, a), MatchArgument(arg, literal, b))
  {
    if a != [] && b != [] && IsNumeric(arg.kind) {
      NumericIsFair(arg, literal, a);
      NumericIsFair(arg, literal, b);
      if MatchNumeric(arg, literal, a[0]).Matched? && MatchNumeric(arg, literal, b[0]).Matched? {
        NumericIsClose(arg, literal, a[0].elem, b[0].elem);
      }
    }
  }

  lemma MatchIsReasonable()
    ensures Reasonable(MatchArgument)
  {
    forall arg, literal, sigs | Ordinary(arg)
      ensures Fair(sigs, MatchArgument(arg, literal, sigs)) && AcceptedBy(arg, sigs, MatchArgument(arg, literal, sigs))
    {
      ArgumentIsFair(arg, literal, sigs);
      MatchIsAccepted(arg, literal, sigs);
    }
    forall arg, literal, a, b | Ordinary(arg)
      ensures Close(arg, a, b, MatchArgument(arg, literal, a), MatchArgument(arg, literal, b))
      ensures WiderCosts(literal, a, b, MatchArgument(arg, literal, a), MatchArgument(arg, literal, b))
    {
      MatchIsClose(arg, literal, a, b);
    }
  }

  // ---------------------------------------------------------------- whole signatures

  ghost predicate FairTotal(n: nat, o: Outcome) {
    o.Rejected? || o.Threw? || (o.Scored? && 1000 * n <= o.penalty <= 1_009_000 * n)
  }

  lemma FairStep(f: Matcher, types: seq<TypeInfo>, literals: seq<bool>, at: nat, sigs: seq<ExtType>) returns (m: Match)
    requires Reasonable(f) && types != [] && Ordinary(types[0]) && at < |literals|
    ensures m == f(types[0], literals[at], sigs) && Fair(sigs, m) && AcceptedBy(types[0], sigs, m)
    ensures Scan(f, types, literals, at, sigs) ==
            if m.Matched? then Add(m.penalty, Scan(f, types[1..], literals, at + 1, sigs[m.consumed..]))
            else if m.Unsupported? then Threw
            else Rejected
  {
    m := f(types[0], literals[at], sigs);
    ReasonableAt(f, types[0], literals[at], sigs, sigs);
  }

  lemma {:induction false} ScanIsFair(f: Matcher, types: seq<TypeInfo>, literals: seq<bool>, at: nat, sigs: seq<ExtType>)
    requires Reasonable(f) && AllOrdinary(types) && at + |types| == |literals|
    ensures FairTotal(|types|, Scan(f, types, literals, at, sigs))
    decreases |types|
  {
    if types != [] {
      var m := FairStep(f, types, literals, at, sigs);
      if m.Matched? {
        ScanIsFair(f, types[1..], literals, at + 1, sigs[m.consumed..]);
      }
    }
  }

  lemma ConsumesStep(types: seq<TypeInfo>, sigs: seq<ExtType>, m: Match)
    requires types != [] && AcceptedBy(types[0], sigs, m)
    ensures Consumes(types, sigs) <==> m.Matched? && Consumes(types[1..], sigs[m.consumed..])
  {
  }

  /** Exactly the signatures that the arguments use up get a score. */
  lemma {:induction false} ScoredIffConsumed(f: Matcher, types: seq<TypeInfo>, literals: seq<bool>, at: nat, sigs: seq<ExtType>)
    requires Reasonable(f) && AllOrdinary(types) && at + |types| == |literals|
    ensures Scan(f, types, literals, at, sigs).Scored? <==> Consumes(types, sigs)
    decreases |types|
  {
    if types != [] {
      var m := FairStep(f, types, literals, at, sigs);
      ConsumesStep(types, sigs, m);
      if m.Matched? {
        ScoredIffConsumed(f, types[1..], literals, at + 1, sigs[m.consumed..]);
      }
    }
  }

  lemma {:induction false} FewerCastsCostLess(f: Matcher, types: seq<TypeInfo>, literals: seq<bool>, at: nat, a: seq<ExtType>, b: seq<ExtType>)
    requires Reasonable(f) && AllOrdinary(types) && at + |types| == |literals|
    requires Scan(f, types, literals, at, a).Scored? && Scan(f, types, literals, at, b).Scored?
    ensures Scan(f, types, literals, at, a).penalty - Scan(f, types, literals, at, b).penalty
         <= 7000 * |types| + 1_000_000 * (Casts(types, a) - Casts(types, b))
    decreases |types|
  {
    if types != [] {
      var ma, mb := f(types[0], literals[at], a), f(types[0], literals[at], b);
      ReasonableAt(f, types[0], literals[at], a, b);
      ReasonableAt(f, types[0], literals[at], b, a);
      FewerCastsCostLess(f, types[1..], literals, at + 1, a[ma.consumed..], b[mb.consumed..]);
    }
  }

  /** Whether the argument that takes parameter `k` is a literal. */
  function LiteralAt(literals: seq<bool>, sigs: seq<ExtType>, k: nat): bool
    requires k < |sigs|
  {
    if literals == [] then false
    else if k < Takes(sigs) then literals[0]
    else LiteralAt(literals[1..], sigs[Takes(sigs)..], k - Takes(sigs))
  }

  lemma LiteralHere(literals: seq<bool>, at: nat, sigs: seq<ExtType>)
    requires at < |literals| && sigs != []
    ensures LiteralAt(literals[at..], sigs, 0) == literals[at]
  {
  }

  lemma LiteralLater(literals: seq<bool>, at: nat, sigs: seq<ExtType>, k: nat)
    requires at < |literals| && k < |sigs| && Takes(sigs) <= k
    ensures LiteralAt(literals[at..], sigs, k) == LiteralAt(literals[at + 1..], sigs[Takes(sigs)..], k - Takes(sigs))
  {
    assert literals[at..][1..] == literals[at + 1..];
  }

  predicate Narrower(a: ExtType, b: ExtType) {
    a.Scalar? && b.Scalar? && SameFamily(a.elem, b.elem) && Width(a.elem) < Width(b.elem)
  }

  /** Parameter by parameter `a` is the same as `b`, or narrower where a column is passed and wider where
      a literal is. */
  ghost predicate Preferable(literals: seq<bool>, a: seq<ExtType>, b: seq<ExtType>) {
    && |a| == |b|
    && forall k | 0 <= k < |a| ::
         a[k] == b[k] || if LiteralAt(literals, a, k) then Narrower(b[k], a[k]) else Narrower(a[k], b[k])
  }

  /** Both are taken up by the arguments in the same groups. */
  lemma SameGroups(f: Matcher, arg: TypeInfo, literal: bool, a: seq<ExtType>, b: seq<ExtType>)
    requires Reasonable(f) && Ordinary(arg) && |a| == |b|
    requires forall k | 0 <= k < |a| :: a[k] == b[k] || Narrower(a[k], b[k]) || Narrower(b[k], a[k])
    requires f(arg, literal, a).Matched? && f(arg, literal, b).Matched?
    ensures Takes(a) == Takes(b) == f(arg, literal, a).consumed == f(arg, literal, b).consumed <= |a|
    ensures a[..Takes(a)] != b[..Takes(a)] ==> Takes(a) == 1 && a[0] != b[0]
    ensures a[0] == b[0] ==> f(arg, literal, a) == f(arg, literal, b)
  {
    ReasonableAt(f, arg, literal, a, b);
    ReasonableAt(f, arg, literal, b, a);
  }

  lemma PreferableTail(literals: seq<bool>, at: nat, a: seq<ExtType>, b: seq<ExtType>)
    requires at < |literals| && Preferable(literals[at..], a, b) && Takes(a) <= |a|
    ensures Preferable(literals[at + 1..], a[Takes(a)..], b[Takes(a)..])
  {
    var n := Takes(a);
    var c, d := a[n..], b[n..];
    forall k | 0 <= k < |c|
      ensures c[k] == d[k] || if LiteralAt(literals[at + 1..], c, k) then Narrower(d[k], c[k]) else Narrower(c[k], d[k])
    {
      LiteralLater(literals, at, a, n + k);
      assert c[k] == a[n + k] && d[k] == b[n + k];
    }
  }

  lemma PreferableHead(f: Matcher, arg: TypeInfo, literals: seq<bool>, at: nat, a: seq<ExtType>, b: seq<ExtType>)
    requires Reasonable(f) && Ordinary(arg) && at < |literals| && a != [] && b != [] && Preferable(literals[at..], a, b)
    requires f(arg, literals[at], a).Matched? && f(arg, literals[at], b).Matched?
    ensures a[0] != b[0] ==> f(arg, literals[at], a).penalty + 1000 <= f(arg, literals[at], b).penalty
  {
    LiteralHere(literals, at, a);
    assert a[0] == b[0] || if LiteralAt(literals[at..], a, 0) then Narrower(b[0], a[0]) else Narrower(a[0], b[0]);
    ReasonableAt(f, arg, literals[at], a, b);
    ReasonableAt(f, arg, literals[at], b, a);
  }

  /** A preferable signature is cheaper, by at least 1000 if it differs at all. */
  lemma {:induction false} PreferableIsCheaper(f: Matcher, types: seq<TypeInfo>, literals: seq<bool>, at: nat, a: seq<ExtType>,
                                               b: seq<ExtType>)
    requires Reasonable(f) && AllOrdinary(types) && at + |types| == |literals| && Preferable(literals[at..], a, b)
    requires Scan(f, types, literals, at, a).Scored? && Scan(f, types, literals, at, b).Scored?
    ensures var p, q := Scan(f, types, literals, at, a).penalty, Scan(f, types, literals, at, b).penalty;
            p <= q && (a != b ==> p + 1000 <= q)
    decreases |types|
  {
    if types != [] {
      var ma := FairStep(f, types, literals, at, a);
      var mb := FairStep(f, types, literals, at, b);
      SameGroups(f, types[0], literals[at], a, b);
      var n := Takes(a);
      PreferableHead(f, types[0], literals, at, a, b);
      PreferableTail(literals, at, a, b);
      PreferableIsCheaper(f, types[1..], literals, at + 1, a[n..], b[n..]);
      assert a == a[..n] + a[n..] && b == b[..n] + b[n..];
    }
  }

  // ---------------------------------------------------------------- what is bound

  ghost predicate WellFormed(call: Call) {
    call.types != [] && |call.types| == |call.literals| && AllOrdinary(call.types)
  }

  lemma SizeBounds(t: ExtType)
    ensures -1 <= LogicalSize(InfoOf(t)) <= 8
  {
  }

  lemma CandidateIff(call: Call, f: Signature)
    requires WellFormed(call) && |call.types| <= 2128
    ensures !Score(call, f).Aborted?
    ensures Candidate(Score(call, f)) <==> Consumes(call.types, f.args)
  {
    MatchIsReasonable();
    ScanIsFair(MatchArgument, call.types, call.literals, 0, f.args);
    ScoredIffConsumed(MatchArgument, call.types, call.literals, 0, f.args);
    SizeBounds(f.ret);
  }

  /** An argument of a kind that is not supported fits no parameter. */
  predicate Unfit(t: TypeInfo) {
    !IsNumeric(t.kind) && t.kind !in {Array, NullT, Column, ColumnList, Varchar, Text}
  }

  lemma {:induction false} ThrewIsUnfit(f: Matcher, types: seq<TypeInfo>, literals: seq<bool>, at: nat, sigs: seq<ExtType>)
    requires Reasonable(f) && AllOrdinary(types) && at + |types| == |literals|
    requires forall arg, literal, s | f(arg, literal, s).Unsupported? :: Unfit(arg)
    requires Scan(f, types, literals, at, sigs).Threw?
    ensures exists i | 0 <= i < |types| :: Unfit(types[i])
    decreases |types|
  {
    if types != [] {
      var m := FairStep(f, types, literals, at, sigs);
      if m.Matched? {
        ThrewIsUnfit(f, types[1..], literals, at + 1, sigs[m.consumed..]);
        var i :| 0 <= i < |types| - 1 && Unfit(types[1..][i]);
        assert Unfit(types[i + 1]);
      } else {
        var arg, literal := types[0], literals[at];
        assert f(arg, literal, sigs).Unsupported?;
        assert Unfit(types[0]);
      }
    }
  }

  lemma {:induction false} UnfitConsumesNothing(types: seq<TypeInfo>, i: nat, sigs: seq<ExtType>)
    requires i < |types| && Unfit(types[i])
    ensures !Consumes(types, sigs)
  {
    if i > 0 {
      if |sigs| >= 1 {
        UnfitConsumesNothing(types[1..], i - 1, sigs[1..]);
      }
      if |sigs| >= 2 {
        UnfitConsumesNothing(types[1..], i - 1, sigs[2..]);
      }
    }
  }

  lemma ScoresAre(call: Call, funcs: seq<Signature>)
    requires WellFormed(call) && |call.types| <= 2128
    ensures var scores := Scores(call, funcs);
            && (forall i | 0 <= i < |funcs| :: !scores[i].Aborted?)
            && (forall i | 0 <= i < |funcs| :: Candidate(scores[i]) <==> Consumes(call.types, funcs[i].args))
            && (forall i, j | 0 <= i < |funcs| && 0 <= j < |funcs| && scores[i].Threw? :: !Consumes(call.types, funcs[j].args))
  {
    forall i | 0 <= i < |funcs|
      ensures !Scores(call, funcs)[i].Aborted? && (Candidate(Scores(call, funcs)[i]) <==> Consumes(call.types, funcs[i].args))
    {
      CandidateIff(call, funcs[i]);
    }
    forall i, j | 0 <= i < |funcs| && 0 <= j < |funcs| && Scores(call, funcs)[i].Threw?
      ensures !Consumes(call.types, funcs[j].args)
    {
      MatchIsReasonable();
      ThrewIsUnfit(MatchArgument, call.types, call.literals, 0, funcs[i].args);
      var k :| 0 <= k < |call.types| && Unfit(call.types[k]);
      UnfitConsumesNothing(call.types, k, funcs[j].args);
    }
  }

  /** Up to 2128 arguments the search never aborts, throws exactly when nothing fits -- an argument of an
      unsupported kind included -- and otherwise binds a signature that fits together with the argument types as given. */
  lemma BindsIffConsumed(name: string, call: Call, funcs: seq<Signature>, r: Binding)
    requires ValidName(name) && WellFormed(call) && |call.types| <= 2128 && IsBinding(name, call, funcs, r)
    ensures r != Abort
    ensures r == Exception <==> forall i | 0 <= i < |funcs| :: !Consumes(call.types, funcs[i].args)
    ensures r.Bound? ==> r.index < |funcs| && Consumes(call.types, funcs[r.index].args) && r.variant == call.types
  {
    ScoresAre(call, funcs);
  }

  /** What was bound costs no more than anything else that fits. */
  lemma BoundIsCheapest(name: string, call: Call, funcs: seq<Signature>, r: Binding, j: nat)
    requires ValidName(name) && WellFormed(call) && |call.types| <= 2128 && IsBinding(name, call, funcs, r)
    requires r.Bound? && j < |funcs| && Consumes(call.types, funcs[j].args)
    ensures r.index < |funcs|
    ensures Score(call, funcs[r.index]).Scored? && Score(call, funcs[j]).Scored?
    ensures Score(call, funcs[r.index]).penalty <= Score(call, funcs[j]).penalty
    ensures j < r.index ==> Score(call, funcs[r.index]).penalty < Score(call, funcs[j]).penalty
  {
    ScoresAre(call, funcs);
    var scores := Scores(call, funcs);
    assert scores[r.index] == Score(call, funcs[r.index]) && scores[j] == Score(call, funcs[j]);
  }

  /** Of signatures with the same parameters, the one with the smallest return type is bound, and the
      earliest of those. */
  lemma SmallestReturn(name: string, call: Call, funcs: seq<Signature>, r: Binding, j: nat)
    requires ValidName(name) && WellFormed(call) && |call.types| <= 2128 && IsBinding(name, call, funcs, r)
    requires r.Bound? && r.index < |funcs| && j < |funcs| && funcs[j].args == funcs[r.index].args
    ensures var bound, other := LogicalSize(InfoOf(funcs[r.index].ret)), LogicalSize(InfoOf(funcs[j].ret));
            bound <= other && (j < r.index ==> bound < other)
  {
    BindsIffConsumed(name, call, funcs, r);
    BoundIsCheapest(name, call, funcs, r, j);
  }

  /** Up to 142 arguments, what was bound turns the fewest integers into floating point. */
  lemma FewestCasts(name: string, call: Call, funcs: seq<Signature>, r: Binding, j: nat)
    requires ValidName(name) && WellFormed(call) && |call.types| <= 142 && IsBinding(name, call, funcs, r)
    requires r.Bound? && j < |funcs| && Consumes(call.types, funcs[j].args)
    ensures r.index < |funcs| && Casts(call.types, funcs[r.index].args) <= Casts(call.types, funcs[j].args)
  {
    BoundIsCheapest(name, call, funcs, r, j);
    MatchIsReasonable();
    FewerCastsCostLess(MatchArgument, call.types, call.literals, 0, funcs[j].args, funcs[r.index].args);
    SizeBounds(funcs[j].ret);
    SizeBounds(funcs[r.index].ret);
  }

  /** Columns get the narrowest and literals the widest parameters, in whatever parameters and return types
      two signatures differ: nothing that fits is preferable to what is bound. */
  lemma WidthChosen(name: string, call: Call, funcs: seq<Signature>, r: Binding, j: nat)
    requires ValidName(name) && WellFormed(call) && |call.types| <= 2128 && IsBinding(name, call, funcs, r)
    requires r.Bound? && j < |funcs| && Consumes(call.types, funcs[j].args)
    requires r.index < |funcs| && Preferable(call.literals, funcs[j].args, funcs[r.index].args)
    ensures funcs[j].args == funcs[r.index].args
  {
    BoundIsCheapest(name, call, funcs, r, j);
    MatchIsReasonable();
    assert call.literals[0..] == call.literals;
    PreferableIsCheaper(MatchArgument, call.types, call.literals, 0, funcs[j].args, funcs[r.index].args);
    SizeBounds(funcs[j].ret);
    SizeBounds(funcs[r.index].ret);
  }

  // ---------------------------------------------------------------- where the preference stops

  function Repeat<T>(x: T, n: nat): (r: seq<T>)
    ensures |r| == n && forall i | 0 <= i < n :: r[i] == x
  {
    if n == 0 then [] else [x] + Repeat(x, n - 1)
  }

  function TinyCost(e: Elem): int {
    match e
    case Int8 => 8000
    case Int64 => 1000
    case Fp64 => 1_001_000
    case _ => 0
  }

  predicate Tiny(sigs: seq<ExtType>) {
    sigs != [] && sigs[0].Scalar? && (sigs[0].elem == Int8 || sigs[0].elem == Int64 || sigs[0].elem == Fp64)
  }

  lemma FirstCost(f: Matcher, types: seq<TypeInfo>, literals: seq<bool>, at: nat, sigs: seq<ExtType>, cost: int, rest: int)
    requires InBounds(f) && types != [] && types[0] == Simple(TinyInt) && at < |literals| && literals[at] == true && sigs != []
    requires f(Simple(TinyInt), true, sigs) == Matched(1, cost)
    requires Scan(f, types[1..], literals, at + 1, sigs[1..]) == Scored(rest)
    ensures Scan(f, types, literals, at, sigs) == Scored(cost + rest)
  {
    assert f(types[0], literals[at], sigs) == Matched(1, cost);
  }

  predicate AllSame<T(==)>(xs: seq<T>, x: T) {
    forall i | 0 <= i < |xs| :: xs[i] == x
  }

  lemma {:induction false} RepeatCost(f: Matcher, e: Elem, types: seq<TypeInfo>, literals: seq<bool>, at: nat, sigs: seq<ExtType>)
    requires TinyCosts(f) && (e == Int8 || e == Int64) && |types| == |sigs| && at + |types| == |literals|
    requires AllSame(types, Simple(TinyInt)) && AllSame(literals, true) && AllSame(sigs, Scalar(e))
    ensures Scan(f, types, literals, at, sigs) == Scored(|types| * TinyCost(e))
    decreases |types|
  {
    if types != [] {
      var n, cost := |types|, TinyCost(e);
      RepeatCost(f, e, types[1..], literals, at + 1, sigs[1..]);
      TinyCostAt(f, sigs);
      FirstCost(f, types, literals, at, sigs, cost, (n - 1) * cost);
      assert n * cost == cost + (n - 1) * cost;
    }
  }

  lemma {:induction false} RepeatCasts(e: Elem, n: nat)
    requires e == Int8 || e == Int64
    ensures Casts(Repeat(Simple(TinyInt), n), Repeat(Scalar(e), n)) == 0
  {
    if n > 0 {
      var types, sigs := Repeat(Simple(TinyInt), n), Repeat(Scalar(e), n);
      assert types[1..] == Repeat(Simple(TinyInt), n - 1) && sigs[1..] == Repeat(Scalar(e), n - 1);
      RepeatCasts(e, n - 1);
    }
  }

  lemma TinyNumeric(e: Elem)
    requires e == Int8 || e == Int64 || e == Fp64
    ensures Scale(Simple(TinyInt)) == 1 && NumericMatch(Simple(TinyInt), true, e) == Matched(1, TinyCost(e))
  {
  }

  lemma TinyLiteral(e: Elem, sigs: seq<ExtType>)
    requires (e == Int8 || e == Int64 || e == Fp64) && sigs != [] && sigs[0] == Scalar(e)
    ensures MatchArgument(Simple(TinyInt), true, sigs) == Matched(1, TinyCost(e))
  {
    NumericIs(Simple(TinyInt), true, e);
    TinyNumeric(e);
  }

  ghost predicate TinyCosts(f: Matcher) {
    && InBounds(f)
    && (forall sigs: seq<ExtType> | Tiny(sigs) :: f(Simple(TinyInt), true, sigs) == Matched(1, TinyCost(sigs[0].elem)))
  }

  lemma MatchInBounds()
    ensures InBounds(MatchArgument)
  {
  }

  lemma MatchHasTinyCosts()
    ensures TinyCosts(MatchArgument)
  {
    MatchInBounds();
    forall sigs: seq<ExtType> | Tiny(sigs)
      ensures MatchArgument(Simple(TinyInt), true, sigs) == Matched(1, TinyCost(sigs[0].elem))
    {
      TinyLiteral(sigs[0].elem, sigs);
    }
  }

  lemma TinyCostAt(f: Matcher, sigs: seq<ExtType>)
    requires TinyCosts(f) && Tiny(sigs)
    ensures f(Simple(TinyInt), true, sigs) == Matched(1, TinyCost(sigs[0].elem))
  {
  }

  lemma OneCastCost(f: Matcher, n: nat, types: seq<TypeInfo>, literals: seq<bool>, one: seq<ExtType>)
    requires n >= 1 && TinyCosts(f) && |literals| == |types| == |one| == n
    requires AllSame(types, Simple(TinyInt)) && AllSame(literals, true) && one[0] == Scalar(Fp64) && AllSame(one[1..], Scalar(Int64))
    ensures Scan(f, types, literals, 0, one) == Scored(1_001_000 + (n - 1) * 1000)
  {
    RepeatCost(f, Int64, types[1..], literals, 1, one[1..]);
    TinyCostAt(f, one);
    FirstCost(f, types, literals, 0, one, 1_001_000, (n - 1) * 1000);
  }

  lemma OneCastCount(n: nat)
    requires n >= 1
    ensures Casts(Repeat(Simple(TinyInt), n), [Scalar(Fp64)] + Repeat(Scalar(Int64), n - 1)) == 1
  {
    var types, one := Repeat(Simple(TinyInt), n), [Scalar(Fp64)] + Repeat(Scalar(Int64), n - 1);
    assert types[1..] == Repeat(Simple(TinyInt), n - 1) && one[1..] == Repeat(Scalar(Int64), n - 1);
    RepeatCasts(Int64, n - 1);
  }

  /** A call with `n` literal bytes. */
  function TinyCall(n: nat): Call {
    Call(Repeat(Simple(TinyInt), n), Repeat(true, n))
  }

  function WithoutCast(n: nat): Signature {
    Signature(Repeat(Scalar(Int8), n), TextNone)
  }

  function WithCast(n: nat): Signature
    requires n >= 1
  {
    Signature([Scalar(Fp64)] + Repeat(Scalar(Int64), n - 1), TextNone)
  }

  lemma CastCounts(n: nat)
    requires n >= 1
    ensures Casts(TinyCall(n).types, WithoutCast(n).args) == 0 && Casts(TinyCall(n).types, WithCast(n).args) == 1
  {
    RepeatCasts(Int8, n);
    OneCastCount(n);
  }

  /** From 143 arguments on, a cast to floating point can be cheaper than none. */
  lemma CastIsCheaper(n: nat)
    requires n >= 143
    ensures Score(TinyCall(n), WithoutCast(n)).Scored? && Score(TinyCall(n), WithCast(n)).Scored?
    ensures Score(TinyCall(n), WithCast(n)).penalty < Score(TinyCall(n), WithoutCast(n)).penalty
  {
    MatchHasTinyCosts();
    var types, one := Repeat(Simple(TinyInt), n), [Scalar(Fp64)] + Repeat(Scalar(Int64), n - 1);
    RepeatCost(MatchArgument, Int8, types, Repeat(true, n), 0, Repeat(Scalar(Int8), n));
    OneCastCost(MatchArgument, n, types, Repeat(true, n), one);
  }

  /** The cheaper of two signatures that have scores is bound. */
  lemma CheaperIsBound(name: string, call: Call, f: Signature, g: Signature, r: Binding)
    requires ValidName(name) && WellFormed(call) && |call.types| <= 2128 && IsBinding(name, call, [f, g], r)
    requires Score(call, f).Scored? && Score(call, g).Scored? && Score(call, g).penalty < Score(call, f).penalty
    ensures r == Bound(1, call.types)
  {
    var funcs := [f, g];
    MatchIsReasonable();
    ScoredIffConsumed(MatchArgument, call.types, call.literals, 0, g.args);
    assert funcs[1] == g && Consumes(call.types, funcs[1].args);
    BindsIffConsumed(name, call, funcs, r);
    BoundIsCheapest(name, call, funcs, r, 1);
  }

  /** So for every such number of arguments a signature with a cast is bound where one without fits. */
  lemma CastWins(name: string, n: nat, r: Binding)
    requires ValidName(name) && 143 <= n <= 2128 && IsBinding(name, TinyCall(n), [WithoutCast(n), WithCast(n)], r)
    ensures r == Bound(1, TinyCall(n).types)
    ensures Casts(TinyCall(n).types, WithoutCast(n).args) == 0 && Casts(TinyCall(n).types, WithCast(n).args) == 1
  {
    CastCounts(n);
    CastIsCheaper(n);
    CheaperIsBound(name, TinyCall(n), WithoutCast(n), WithCast(n), r);
  }
}

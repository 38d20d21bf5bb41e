/**
Overload resolution for extension functions: how well a list of SQL arguments fits one signature,
and the search for the best signature.
*/
module FunctionBinding {

  const INT_MAX: int := 0x7FFF_FFFF

  // ---------------------------------------------------------------- types

  datatype Kind =
    | NullT | Boolean | Char | Varchar | Numeric | Decimal | Int | SmallInt | Float | Double | Time | Timestamp
    | BigInt | Text | Date | Array | IntervalDayTime | IntervalYearMonth | TinyInt | EvalContext | Void | Cursor
    | Column | ColumnList | Struct

  datatype Encoding = Plain | RunLength | Diff | Fixed | Sparse | Dict | DateInDays

  /** `SQLTypeInfo`. */
  datatype TypeInfo =
    TypeInfo(kind: Kind, subtype: Kind, dimension: int, scale: int, notnull: bool, encoding: Encoding, param: int)

  datatype Elem = Bool | Int8 | Int16 | Int32 | Int64 | Fp32 | Fp64

  /** `ExtArgumentType`. */
  datatype ExtType =
    | Scalar(elem: Elem) | Pointer(elem: Elem) | ArrayOf(elem: Elem) | ColumnOf(elem: Elem) | ColumnListOf(elem: Elem)
    | TextNone | TextDict | ColumnText | ColumnListText | CursorType | VoidType

  function KindOf(e: Elem): Kind {
    match e
    case Bool => Boolean
    case Int8 => TinyInt
    case Int16 => SmallInt
    case Int32 => Int
    case Int64 => BigInt
    case Fp32 => Float
    case Fp64 => Double
  }

  function Simple(kind: Kind): TypeInfo {
    TypeInfo(kind, NullT, 0, 0, false, Plain, 0)
  }

  /** `ext_arg_type_to_type_info`. */
  function InfoOf(t: ExtType): TypeInfo {
    match t
    case Scalar(e) => Simple(KindOf(e))
    case ArrayOf(e) => Simple(Array).(subtype := KindOf(e))
    case ColumnOf(e) => Simple(Column).(subtype := KindOf(e))
    case ColumnListOf(e) => Simple(Column).(subtype := KindOf(e))
    case TextNone => Simple(Text)
    case TextDict => Simple(Text).(encoding := Dict)
    case ColumnText => Simple(Column).(subtype := Text, encoding := Dict)
    case ColumnListText => Simple(Column).(subtype := Text, encoding := Dict)
    case _ => Simple(NullT)
  }

  predicate IsInteger(k: Kind) {
    k == TinyInt || k == SmallInt || k == Int || k == BigInt
  }

  predicate IsFp(k: Kind) {
    k == Float || k == Double
  }

  predicate IsDecimal(k: Kind) {
    k == Numeric || k == Decimal
  }

  /** The kinds `match_numeric_argument` is asked about. */
  predicate IsNumeric(k: Kind) {
    k == Boolean || IsInteger(k) || IsFp(k) || IsDecimal(k)
  }

  function Eighth(n: int): int {
    if n >= 0 then n / 8 else -((-n) / 8)
  }

  /** `get_storage_size`, for the encodings `get_logical_size` leaves in place. */
  function StorageSize(k: Kind, encoding: Encoding, param: int): int {
    if k == Boolean || k == TinyInt then 1
    else if IsInteger(k) || IsDecimal(k) then
      match encoding
      case Plain => if k == SmallInt then 2 else if k == Int then 4 else 8
      case Sparse => Eighth(param)
      case _ => -1
    else if k == Date then 4
    else if encoding != Plain then -1
    else if k == Float then 4
    else if k == Double || k == Timestamp || k == Time || k == IntervalDayTime || k == IntervalYearMonth then 8
    else -1
  }

  function LogicalSize(t: TypeInfo): int {
    if t.encoding == Fixed || t.encoding == DateInDays then StorageSize(t.kind, Plain, 0)
    else if t.encoding == Dict then 4
    else StorageSize(t.kind, t.encoding, t.param)
  }

  /** `is_numeric_scalar_auto_castable`, on numeric arguments. */
  predicate Castable(arg: TypeInfo, sig: TypeInfo) {
    if arg.kind == Boolean then sig.kind == Boolean
    else if arg.kind == BigInt then sig.kind == BigInt || sig.kind == Double
    else if IsInteger(arg.kind) then
      && (IsInteger(sig.kind) || IsFp(sig.kind) || IsDecimal(sig.kind))
      && (IsFp(sig.kind) || LogicalSize(sig) >= LogicalSize(arg))
    else if IsFp(arg.kind) then IsFp(sig.kind) && LogicalSize(sig) >= LogicalSize(arg)
    else if IsDecimal(sig.kind) then sig.dimension >= arg.dimension
    else sig.kind == Double || (sig.kind == Float && arg.dimension <= 7)
  }

  /** `get_numeric_scalar_scale`, on numeric types; 0 elsewhere. */
  function Scale(t: TypeInfo): int {
    if t.kind == Boolean then 1
    else if IsInteger(t.kind) || IsFp(t.kind) then LogicalSize(t)
    else if IsDecimal(t.kind) then (if t.dimension > 7 then 8 else 4)
    else 0
  }

  // ---------------------------------------------------------------- one argument

  /** What matching one argument comes to; `Unsupported` is the exception, `CheckFailed` an abort. */
  datatype Match = NoMatch | Matched(consumed: nat, penalty: int) | Unsupported | CheckFailed

  predicate IntegerToFp(arg: Kind, sig: Kind) {
    IsInteger(arg) && IsFp(sig)
  }

  /** `match_numeric_argument`. */
  function MatchNumeric(arg: TypeInfo, literal: bool, ext: ExtType): Match {
    var sig := InfoOf(ext);
    if !Castable(arg, sig) then NoMatch
    else
      var a, s := Scale(arg), Scale(sig);
      if !(1 <= a <= 8) || !(1 <= s <= 8) || s < a then CheckFailed
      else
        var ratio := s / a;
        var family := if IntegerToFp(arg.kind, sig.kind) then 1_001_000 else 1000;
        var scaling := if literal then 8000 / a - 1000 * ratio else 1000 * ratio;
        if family + scaling <= 0 then CheckFailed else Matched(1, family + scaling)
  }

  /** Element types match exactly, or a plain boolean element meets an 8-bit one. */
  predicate ElemMatches(arg: TypeInfo, sig: Kind) {
    || (sig == TinyInt && arg.(kind := arg.subtype, subtype := NullT) == Simple(Boolean).(param := arg.param))
    || arg.subtype == sig
  }

  /** A pointer followed by a 64-bit length. */
  predicate PointerAndSize(sigs: seq<ExtType>) {
    |sigs| >= 2 && sigs[0].Pointer? && sigs[1] == Scalar(Int64)
  }

  function Exactly(arg: TypeInfo, sig: Kind, penalty: int): Match {
    if ElemMatches(arg, sig) then Matched(1, penalty) else NoMatch
  }

  /** `match_arguments`, on the part of the signature not yet consumed. */
  function MatchArgument(arg: TypeInfo, literal: bool, sigs: seq<ExtType>): (m: Match)
    ensures m.Matched? ==> 1 <= m.consumed <= |sigs|
  {
    if sigs == [] then NoMatch
    else if IsNumeric(arg.kind) then MatchNumeric(arg, literal, sigs[0])
    else
      match arg.kind
      case Array =>
        if PointerAndSize(sigs) then Matched(2, 1000)
        else if sigs[0].ArrayOf? then Exactly(arg, KindOf(sigs[0].elem), 1000)
        else NoMatch
      case NullT => if PointerAndSize(sigs) then Matched(2, 1000) else NoMatch
      case Column =>
        if sigs[0].ColumnOf? then Exactly(arg, KindOf(sigs[0].elem), 1000)
        else if sigs[0].ColumnText? then Exactly(arg, Text, 1000)
        else NoMatch
      case ColumnList =>
        if sigs[0].ColumnListOf? then Exactly(arg, KindOf(sigs[0].elem), 10000)
        else if sigs[0].ColumnListText? then Exactly(arg, Text, 10000)
        else NoMatch
      case Varchar => MatchText(arg, sigs[0])
      case Text => MatchText(arg, sigs[0])
      case _ => Unsupported
  }

  function MatchText(arg: TypeInfo, sig: ExtType): Match {
    if sig != TextNone then NoMatch
    else if arg.encoding == Plain then Matched(1, 1000)
    else if arg.encoding == Dict then NoMatch
    else CheckFailed
  }

  // ---------------------------------------------------------------- one signature

  /** What matching a whole signature comes to. */
  datatype Outcome = Rejected | Scored(penalty: int) | Threw | Aborted

  /** How many of the call's arguments one type stands for. */
  function Spans(arg: TypeInfo): int {
    if arg.kind == ColumnList then arg.dimension else 1
  }

  type Matcher = (TypeInfo, bool, seq<ExtType>) -> Match

  predicate Within(m: Match, sigs: seq<ExtType>) {
    m.Matched? ==> m.consumed <= |sigs|
  }

  ghost predicate InBounds(f: Matcher) {
    forall arg, literal, sigs :: Within(f(arg, literal, sigs), sigs)
  }

  lemma InBoundsAt(f: Matcher, arg: TypeInfo, literal: bool, sigs: seq<ExtType>)
    requires InBounds(f)
    ensures Within(f(arg, literal, sigs), sigs)
  {
  }

  /** Matches arguments to a signature from the front, one by one with `f`; `at` is the call argument that
      the first type came from. */
  function Scan(f: Matcher, types: seq<TypeInfo>, literals: seq<bool>, at: int, sigs: seq<ExtType>): Outcome
    requires InBounds(f)
    decreases |types|
  {
    if types == [] then
      if sigs != [] then Rejected else if at == |literals| then Scored(0) else Aborted
    else if !(0 <= at < |literals|) then Aborted
    else
      InBoundsAt(f, types[0], literals[at], sigs);
      match f(types[0], literals[at], sigs)
      case NoMatch => Rejected
      case Unsupported => Threw
      case CheckFailed => Aborted
      case Matched(consumed, penalty) =>
        Add(penalty, Scan(f, types[1..], literals, at + Spans(types[0]), sigs[consumed..]))
  }

  function Add(penalty: int, rest: Outcome): Outcome {
    if rest.Scored? then Scored(penalty + rest.penalty) else rest
  }

  datatype Signature = Signature(args: seq<ExtType>, ret: ExtType)

  datatype Call = Call(types: seq<TypeInfo>, literals: seq<bool>)

  /** The score of a signature for a call: its arguments' penalties and the size of what it returns. */
  function Score(call: Call, f: Signature): Outcome {
    Add(LogicalSize(InfoOf(f.ret)), Scan(MatchArgument, call.types, call.literals, 0, f.args))
  }

  /** What is still to be scanned, after `n` arguments and `pos` positions of the signature. */
  ghost predicate Pending(f: Matcher, want: Outcome, call: Call, sigs: seq<ExtType>, n: nat, at: int, pos: nat, penalty: int)
    requires InBounds(f) && n <= |call.types| && pos <= |sigs|
  {
    want == Add(penalty, Scan(f, call.types[n..], call.literals, at, sigs[pos..]))
  }

  lemma PendingStep(f: Matcher, want: Outcome, call: Call, sigs: seq<ExtType>, n: nat, at: int, pos: nat, penalty: int, m: Match)
    requires InBounds(f) && n < |call.types| && pos <= |sigs| && 0 <= at < |call.literals|
    requires m == f(call.types[n], call.literals[at], sigs[pos..])
    requires Pending(f, want, call, sigs, n, at, pos, penalty)
    ensures m.NoMatch? ==> want == Rejected
    ensures m.Unsupported? ==> want == Threw
    ensures m.CheckFailed? ==> want == Aborted
    ensures m.Matched? ==> pos + m.consumed <= |sigs|
    ensures m.Matched? ==> Pending(f, want, call, sigs, n + 1, at + Spans(call.types[n]), pos + m.consumed, penalty + m.penalty)
  {
    InBoundsAt(f, call.types[n], call.literals[at], sigs[pos..]);
    assert call.types[n..][1..] == call.types[n + 1..];
    if m.Matched? {
      assert sigs[pos..][m.consumed..] == sigs[pos + m.consumed..];
    }
  }

  /** The innermost loop of `bind_function`. */
  method ScoreVariant(f: Matcher, call: Call, sigs: seq<ExtType>) returns (outcome: Outcome)
    requires InBounds(f)
    ensures outcome == Scan(f, call.types, call.literals, 0, sigs)
  {
    var types, literals := call.types, call.literals;
    ghost var want := Scan(f, types, literals, 0, sigs);
    var penalty, pos, at := 0, 0, 0;
    assert types[0..] == types && sigs[0..] == sigs;
    for n := 0 to |types|
      invariant 0 <= pos <= |sigs| && Pending(f, want, call, sigs, n, at, pos, penalty)
    {
      if !(0 <= at < |literals|) {
        return Aborted;
      }
      var m := f(types[n], literals[at], sigs[pos..]);
      PendingStep(f, want, call, sigs, n, at, pos, penalty, m);
      match m {
        case NoMatch => return Rejected;
        case Unsupported => return Threw;
        case CheckFailed => return Aborted;
        case Matched(consumed, more) =>
          at := at + Spans(types[n]);
          pos := pos + consumed;
          penalty := penalty + more;
      }
    }
    if pos != |sigs| {
      return Rejected;
    }
    if |literals| != at {
      return Aborted;
    }
    return Scored(penalty);
  }

  // ---------------------------------------------------------------- the search

  /** The loop that builds the argument type variants: it only ever builds the input itself. */
  method Variants(types: seq<TypeInfo>) returns (variants: seq<seq<TypeInfo>>)
    ensures variants == if types == [] then [] else [types]
  {
    variants := [];
    for n := 0 to |types|
      invariant if n == 0 then variants == [] else variants == [types[..n]]
    {
      assert types[..n + 1] == types[..n] + [types[n]];
      assert n == 0 ==> types[..n + 1] == [types[n]];
      if variants == [] {
        variants := [[types[n]]];
      } else {
        var longer: seq<seq<TypeInfo>> := [];
        for k := 0 to |variants|
          invariant |longer| == k && forall j | 0 <= j < k :: longer[j] == variants[j] + [types[n]]
        {
          longer := longer + [variants[k] + [types[n]]];
        }
        assert longer == [types[..n + 1]];
        variants := longer + [];
      }
    }
    assert types[..|types|] == types;
  }

  predicate IsAlpha(c: char) {
    'a' <= c <= 'z' || 'A' <= c <= 'Z' || c == '_'
  }

  predicate IsAlnum(c: char) {
    IsAlpha(c) || '0' <= c <= '9'
  }

  predicate ValidName(name: string) {
    name != [] && IsAlpha(name[0]) && forall i | 0 <= i < |name| :: IsAlnum(name[i])
  }

  method IsValidIdentifier(name: string) returns (valid: bool)
    ensures valid == ValidName(name)
  {
    if |name| == 0 {
      return false;
    }
    if !IsAlpha(name[0]) {
      return false;
    }
    for i := 1 to |name|
      invariant forall k | 0 <= k < i :: IsAlnum(name[k])
    {
      if !IsAlnum(name[i]) {
        return false;
      }
    }
    return true;
  }

  datatype Binding = Bound(index: nat, variant: seq<TypeInfo>) | Exception | Abort

  function Scores(call: Call, funcs: seq<Signature>): (scores: seq<Outcome>)
    ensures |scores| == |funcs|
  {
    seq(|funcs|, i requires 0 <= i < |funcs| => Score(call, funcs[i]))
  }

  predicate Candidate(o: Outcome) {
    o.Scored? && o.penalty < INT_MAX
  }

  /** An exception or abort stops the search. */
  predicate Stops(o: Outcome) {
    o.Threw? || o.Aborted?
  }

  /** The earliest candidate of minimum score. */
  ghost predicate Earliest(scores: seq<Outcome>, best: nat) {
    && best < |scores| && Candidate(scores[best])
    && (forall j | 0 <= j < |scores| && Candidate(scores[j]) :: scores[best].penalty <= scores[j].penalty)
    && (forall j | 0 <= j < best && Candidate(scores[j]) :: scores[best].penalty < scores[j].penalty)
  }

  ghost predicate NoCandidate(scores: seq<Outcome>) {
    forall j | 0 <= j < |scores| :: !Candidate(scores[j])
  }

  ghost predicate NoStop(scores: seq<Outcome>) {
    forall j | 0 <= j < |scores| :: !Stops(scores[j])
  }

  /** The outcome of the search, from the scores of the signatures in order. */
  ghost predicate Picks(scores: seq<Outcome>, types: seq<TypeInfo>, r: Binding) {
    if !NoStop(scores) then
      exists k | 0 <= k < |scores| ::
        Stops(scores[k]) && NoStop(scores[..k]) && r == if scores[k].Threw? then Exception else Abort
    else if NoCandidate(scores) then r == Exception
    else r.Bound? && r.variant == types && Earliest(scores, r.index)
  }

  /** What `bind_function` promises. */
  ghost predicate IsBinding(name: string, call: Call, funcs: seq<Signature>, r: Binding) {
    if !ValidName(name) then r == Exception
    else if call.types == [] && funcs != [] then
      r == if |funcs| == 1 && funcs[0].args == [] then Bound(0, []) else Abort
    else Picks(Scores(call, funcs), call.types, r)
  }

  /** The search's state after the signatures scored so far. */
  ghost predicate BestSoFar(seen: seq<Outcome>, optimal: int, minimal: int) {
    && NoStop(seen)
    && if optimal == -1 then minimal == INT_MAX && NoCandidate(seen)
       else 0 <= optimal < |seen| && Earliest(seen, optimal) && minimal == seen[optimal].penalty
  }

  lemma BestStep(seen: seq<Outcome>, optimal: int, minimal: int, o: Outcome)
    requires BestSoFar(seen, optimal, minimal) && !Stops(o)
    ensures if o.Scored? && o.penalty < minimal then BestSoFar(seen + [o], |seen|, o.penalty)
            else BestSoFar(seen + [o], optimal, minimal)
  {
  }

  lemma BestAtEnd(scores: seq<Outcome>, types: seq<TypeInfo>, optimal: int, minimal: int)
    requires BestSoFar(scores, optimal, minimal)
    ensures Picks(scores, types, if optimal == -1 then Exception else Bound(optimal, types))
  {
    assert optimal != -1 ==> !NoCandidate(scores);
  }

  method ScoreFunction(call: Call, variants: seq<seq<TypeInfo>>, funcs: seq<Signature>, index: nat,
                       ghost scores: seq<Outcome>) returns (outcome: Outcome)
    requires index < |funcs| && variants == [call.types] && scores == Scores(call, funcs)
    ensures outcome == scores[index]
  {
    outcome := ScoreVariant(MatchArgument, call.(types := variants[0]), funcs[index].args);
    if outcome.Scored? {
      outcome := Scored(outcome.penalty + LogicalSize(InfoOf(funcs[index].ret)));
    }
  }

  /** The search over the candidates. */
  method Search(call: Call, variants: seq<seq<TypeInfo>>, funcs: seq<Signature>, ghost scores: seq<Outcome>) returns (r: Binding)
    requires (funcs != [] ==> variants == [call.types]) && scores == Scores(call, funcs)
    ensures Picks(scores, call.types, r)
  {
    var minimal, optimal, optimalVariant := INT_MAX, -1, -1;
    for index := 0 to |funcs|
      invariant BestSoFar(scores[..index], optimal, minimal) && (optimal != -1 ==> optimalVariant == 0)
    {
      var outcome := ScoreFunction(call, variants, funcs, index, scores);
      if outcome.Threw? {
        return Exception;
      }
      if outcome.Aborted? {
        return Abort;
      }
      BestStep(scores[..index], optimal, minimal, outcome);
      assert scores[..index + 1] == scores[..index] + [outcome];
      if outcome.Scored? {
        if outcome.penalty < minimal {
          optimal, minimal, optimalVariant := index, outcome.penalty, 0;
        }
      }
    }
    assert scores[..|funcs|] == scores;
    BestAtEnd(scores, call.types, optimal, minimal);
    if optimal == -1 {
      return Exception;
    }
    return Bound(optimal, variants[optimalVariant]);
  }

  method Bind(name: string, call: Call, funcs: seq<Signature>) returns (r: Binding)
    ensures IsBinding(name, call, funcs, r)
  {
    var valid := IsValidIdentifier(name);
    if !valid {
      return Exception;
    }
    var types := call.types;
    if |types| == 0 && |funcs| > 0 {
      if |funcs| != 1 || |funcs[0].args| != 0 {
        return Abort;
      }
      return Bound(0, []);
    }
    var variants := Variants(types);
    r := Search(call, variants, funcs, Scores(call, funcs));
  }
}

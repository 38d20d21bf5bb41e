/**
Integer literals on their way through a fixed-width column: parsing with the column's bounds,
narrowing into bytes, and reading the bytes back.
*/
module IntegerColumns {
  import opened Wrappers
  import opened Numerals

  // ---------------------------------------------------------------- bytes

  type Byte = x: int | 0 <= x < 256

  predicate IntWidth(w: nat) {
    w == 1 || w == 2 || w == 4 || w == 8
  }

  /** The number of values of an integer of `w` bytes. */
  function Span(w: nat): nat
    requires IntWidth(w)
  {
    if w == 1 then 0x100 else if w == 2 then 0x1_0000 else if w == 4 then 0x1_0000_0000 else 0x1_0000_0000_0000_0000
  }

  /** Also the null sentinel of a signed integer of `w` bytes. */
  function Low(w: nat): int
    requires IntWidth(w)
  {
    -(Span(w) / 2)
  }

  function High(w: nat): int
    requires IntWidth(w)
  {
    Span(w) / 2 - 1
  }

  /** Conversion to a signed integer of `w` bytes. */
  function Narrow(v: int, w: nat): (r: int)
    requires IntWidth(w)
    ensures Low(w) <= r <= High(w)
    ensures r == v <==> Low(w) <= v <= High(w)
  {
    var n := v % Span(w);
    if n <= High(w) then n else n - Span(w)
  }

  /** Little-endian, `w` bytes. */
  function Bytes(n: nat, w: nat): (bs: seq<Byte>)
    ensures |bs| == w
  {
    if w == 0 then [] else [n % 256] + Bytes(n / 256, w - 1)
  }

  function Number(bs: seq<Byte>): nat {
    if bs == [] then 0 else bs[0] + 256 * Number(bs[1..])
  }

  function Pow256(w: nat): nat {
    if w == 0 then 1 else 256 * Pow256(w - 1)
  }

  lemma {:induction false} NumberOfBytes(n: nat, w: nat)
    requires n < Pow256(w)
    ensures Number(Bytes(n, w)) == n
    decreases w
  {
    if w > 0 {
      NumberOfBytes(n / 256, w - 1);
      assert Bytes(n, w)[1..] == Bytes(n / 256, w - 1);
    }
  }

  lemma Pow256Span(w: nat)
    requires IntWidth(w)
    ensures Pow256(w) == Span(w)
  {
    assert Pow256(1) == 0x100 && Pow256(2) == 0x1_0000;
    assert Pow256(4) == 0x1_0000 * Pow256(2);
    assert Pow256(6) == 0x1_0000 * Pow256(4);
    assert Pow256(8) == 0x1_0000 * Pow256(6);
  }

  /** Reads a signed little-endian integer. */
  function Load(bs: seq<Byte>): int
    requires IntWidth(|bs|)
  {
    Narrow(Number(bs), |bs|)
  }

  /** Writes one. */
  function Store(v: int, w: nat): seq<Byte>
    requires IntWidth(w)
  {
    Bytes(v % Span(w), w)
  }

  lemma ModTwice(v: int, p: nat)
    requires p > 0
    ensures (v % p) % p == v % p
  {
  }

  lemma LoadStore(v: int, w: nat)
    requires IntWidth(w)
    ensures Load(Store(v, w)) == Narrow(v, w)
  {
    var n := v % Span(w);
    Pow256Span(w);
    NumberOfBytes(n, w);
    ModTwice(v, Span(w));
    assert Narrow(n, w) == Narrow(v, w);
  }

  // ---------------------------------------------------------------- columns

  datatype Encoding = Plain | Fixed(bits: nat)

  /** An integer column: the width of its SQL type, how it is stored, whether it excludes NULL. */
  datatype Column = Column(logical: nat, encoding: Encoding, notnull: bool)

  /** The encodings that `decompress` knows: strictly narrower ones. */
  predicate Valid(col: Column) {
    && IntWidth(col.logical)
    && (col.encoding.Fixed? ==>
          (col.encoding.bits == 8 || col.encoding.bits == 16 || col.encoding.bits == 32) && col.encoding.bits < 8 * col.logical)
  }

  function Stored(col: Column): (w: nat)
    requires Valid(col)
    ensures IntWidth(w) && w <= col.logical && (col.encoding.Fixed? <==> w < col.logical)
  {
    if col.encoding.Fixed? then col.encoding.bits / 8 else col.logical
  }

  // ---------------------------------------------------------------- parsing

  /** How much of the text `from_chars` walks over: a sign and digits, or nothing without digits. */
  function NumeralLength(s: string): (n: nat)
    ensures n <= |s|
  {
    var sign := if s != [] && s[0] == '-' then 1 else 0;
    var n := DigitRun(s[sign..]);
    if n == 0 then 0 else sign + n
  }

  predicate CommonSuffix(s: string) {
    s == "." || s == ".0"
  }

  /** `parseInteger`; `fallback` is what the floating-point path makes of the text. */
  function ParseInteger(s: string, col: Column, fallback: Result<int>): Result<int>
    requires Valid(col)
    requires fallback.Ok? ==> Low(col.logical) <= fallback.value <= High(col.logical)
  {
    var used := NumeralLength(s);
    var scanned := FromChars(s, |s|, Low(col.logical), High(col.logical));
    var parsed :=
      if used < |s| then
        if scanned.Some? && CommonSuffix(s[used..]) then Ok(scanned.value.value) else fallback
      else if scanned.Some? then Ok(scanned.value.value)
      else Thrown;
    if parsed.Thrown? then Thrown else CheckBounds(parsed.value, col)
  }

  /** The bounds check at the end of `parseInteger`. */
  function CheckBounds(v: int, col: Column): Result<int>
    requires Valid(col)
  {
    var w := Stored(col);
    if w < col.logical then
      if High(w) < v then Thrown
      else if col.notnull then (if v < Low(w) then Thrown else Ok(v))
      else if v <= Low(w) then Thrown
      else Ok(v)
    else if !col.notnull && v == Low(col.logical) then Thrown
    else Ok(v)
  }

  /** The values a column can hold. */
  predicate Holds(col: Column, v: int)
    requires Valid(col)
  {
    Low(Stored(col)) <= v <= High(Stored(col)) && (col.notnull || v != Low(Stored(col)))
  }

  lemma PrintedScan(n: int, suffix: string, lo: int, hi: int)
    requires lo < 0 && (suffix != [] ==> !IsDigit(suffix[0]))
    ensures var s := PrintSigned(n, 0) + suffix;
            && NumeralLength(s) == |PrintSigned(n, 0)|
            && FromChars(s, |s|, lo, hi) == if lo <= n <= hi then Some(Scanned(n, suffix)) else None
  {
    if n < 0 {
      NegativeScan(n, suffix, lo, hi);
    } else {
      PositiveScan(n, suffix, lo, hi);
    }
  }

  lemma DigitsThen(p: string, suffix: string)
    requires AllDigits(p) && (suffix != [] ==> !IsDigit(suffix[0]))
    ensures var s := p + suffix; DigitRun(s) == |p| && s[..|p|] == p && s[|p|..] == suffix
  {
    var s := p + suffix;
    assert s[..|p|] == p && s[|p|..] == suffix;
    DigitRunIs(s, |p|);
  }

  lemma NegativeScan(n: int, suffix: string, lo: int, hi: int)
    requires n < 0 && lo < 0 && (suffix != [] ==> !IsDigit(suffix[0]))
    ensures var s := PrintSigned(n, 0) + suffix;
            && NumeralLength(s) == |PrintSigned(n, 0)|
            && FromChars(s, |s|, lo, hi) == if lo <= n <= hi then Some(Scanned(n, suffix)) else None
  {
    var s, p := PrintSigned(n, 0) + suffix, Print(-n, 0);
    PrintDigits(-n, 0);
    DigitsThen(p, suffix);
    assert s[0] == '-' && s[1..] == p + suffix && s[|p| + 1..] == suffix;
  }

  lemma PositiveScan(n: nat, suffix: string, lo: int, hi: int)
    requires lo < 0 && (suffix != [] ==> !IsDigit(suffix[0]))
    ensures var s := PrintSigned(n, 0) + suffix;
            && NumeralLength(s) == |PrintSigned(n, 0)|
            && FromChars(s, |s|, lo, hi) == if lo <= n <= hi then Some(Scanned(n, suffix)) else None
  {
    var s, p := PrintSigned(n, 0) + suffix, Print(n, 0);
    PrintDigits(n, 0);
    DigitsThen(p, suffix);
    assert s == p + suffix && s[0..] == s && IsDigit(s[0]);
  }

  /** Of all integers, printed, exactly those the column can hold are accepted -- and as themselves;
      with a point or ".0" after them too, if the logical type has them at all, and otherwise the
      floating-point path decides. */
  lemma AcceptsExactly(n: int, suffix: string, col: Column, fallback: Result<int>)
    requires Valid(col) && (suffix == [] || CommonSuffix(suffix))
    requires fallback.Ok? ==> Low(col.logical) <= fallback.value <= High(col.logical)
    ensures ParseInteger(PrintSigned(n, 0) + suffix, col, fallback) ==
            if suffix == [] || Low(col.logical) <= n <= High(col.logical) then (if Holds(col, n) then Ok(n) else Thrown)
            else if fallback.Ok? && Holds(col, fallback.value) then fallback else Thrown
  {
    var p := PrintSigned(n, 0);
    PrintedScan(n, suffix, Low(col.logical), High(col.logical));
    assert (p + suffix)[|p|..] == suffix;
  }

  // ---------------------------------------------------------------- storing

  /** `integer_setter`: NULL of the logical type becomes NULL of the stored one. */
  function Target(v: int, logical: nat, w: nat): int
    requires IntWidth(logical) && IntWidth(w)
  {
    if v == Low(logical) then Low(w) else v
  }

  /** The integer cases of `put_scalar`: the cell is written even when the value does not fit. */
  method PutScalar(buf: array<Byte>, at: nat, logical: nat, esize: nat, v: int) returns (r: Result<()>)
    requires IntWidth(logical) && at + esize <= buf.Length
    modifies buf
    ensures r.Ok? <==> IntWidth(esize) && Low(esize) <= Target(v, logical, esize) <= High(esize)
    ensures IntWidth(esize) ==> buf[at..at + esize] == Store(Target(v, logical, esize), esize)
    ensures buf[..at] == old(buf[..at]) && buf[at + esize..] == old(buf[at + esize..])
    ensures !IntWidth(esize) ==> buf[..] == old(buf[..])
  {
    if !IntWidth(esize) {
      return Thrown;
    }
    var wanted := Target(v, logical, esize);
    var bytes := Store(wanted, esize);
    forall k | 0 <= k < esize {
      buf[at + k] := bytes[k];
    }
    if Narrow(wanted, esize) != wanted {
      return Thrown;
    }
    return Ok(());
  }

  // ---------------------------------------------------------------- reading

  datatype Reading = Reading(value: int, isNull: bool)

  /** `decompress`: sign extension, then the null test of the logical type. */
  function Decompress(cell: seq<Byte>, col: Column): Reading
    requires Valid(col) && |cell| == Stored(col)
  {
    var v := Load(cell);
    Reading(v, v == Low(col.logical))
  }

  /** `is_null` on the stored bytes: the null test of the stored width. */
  predicate StoredNull(cell: seq<Byte>)
    requires IntWidth(|cell|)
  {
    Load(cell) == Low(|cell|)
  }

  /** Whatever a nullable column accepts is stored, comes back unchanged, and is never taken for NULL. */
  lemma SurvivesColumn(s: string, col: Column, fallback: Result<int>)
    requires Valid(col) && !col.notnull
    requires fallback.Ok? ==> Low(col.logical) <= fallback.value <= High(col.logical)
    requires ParseInteger(s, col, fallback).Ok?
    ensures var v, w := ParseInteger(s, col, fallback).value, Stored(col);
            && Low(w) <= Target(v, col.logical, w) <= High(w)
            && var cell := Store(Target(v, col.logical, w), w);
            && Decompress(cell, col) == Reading(v, false)
            && !StoredNull(cell)
  {
    var v, w := ParseInteger(s, col, fallback).value, Stored(col);
    LoadStore(Target(v, col.logical, w), w);
  }

  /** NULL always fits; the stored bytes say NULL, but after decompression it is NULL exactly when the
      column is not narrowed. */
  lemma NullThroughColumn(col: Column)
    requires Valid(col)
    ensures var w := Stored(col);
            && Target(Low(col.logical), col.logical, w) == Low(w)
            && var cell := Store(Low(w), w);
            && StoredNull(cell)
            && Decompress(cell, col).value == Low(w)
            && (Decompress(cell, col).isNull <==> w == col.logical)
  {
    LoadStore(Low(Stored(col)), Stored(col));
  }

  /** A NOT NULL column accepts its lowest value, which the stored bytes alone cannot tell from NULL. */
  lemma LowestOfNotNull(col: Column, fallback: Result<int>)
    requires Valid(col) && col.notnull
    requires fallback.Ok? ==> Low(col.logical) <= fallback.value <= High(col.logical)
    ensures var w := Stored(col);
            && ParseInteger(PrintSigned(Low(w), 0), col, fallback) == Ok(Low(w))
            && StoredNull(Store(Target(Low(w), col.logical, w), w))
  {
    AcceptsExactly(Low(Stored(col)), [], col, fallback);
    assert PrintSigned(Low(Stored(col)), 0) + [] == PrintSigned(Low(Stored(col)), 0);
    LoadStore(Low(Stored(col)), Stored(col));
  }
}

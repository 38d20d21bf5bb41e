/**
Bit vectors packed into bytes.  The reference is the sequence of booleans they stand for.
*/
module BitVector {

  // ---------------------------------------------------------------- one byte

  /** `kCiderBitMask`. */
  function Mask(k: nat): bv8
    requires k < 8
  {
    match k
    case 0 => 1
    case 1 => 2
    case 2 => 4
    case 3 => 8
    case 4 => 16
    case 5 => 32
    case 6 => 64
    case _ => 128
  }

  predicate Bit(b: bv8, k: nat)
    requires k < 8
  {
    b & Mask(k) != 0
  }

  lemma OrMask(b: bv8, k: nat, m: nat)
    requires k < 8 && m < 8
    ensures Bit(b | Mask(k), m) == (m == k || Bit(b, m))
  {
  }

  lemma AndNotMask(b: bv8, k: nat, m: nat)
    requires k < 8 && m < 8
    ensures Bit(b & !Mask(k), m) == (m != k && Bit(b, m))
  {
  }

  lemma AndBit(a: bv8, b: bv8, m: nat)
    requires m < 8
    ensures Bit(a & b, m) == (Bit(a, m) && Bit(b, m))
  {
  }

  /** A byte is its bits. */
  lemma ByteOfBits(a: bv8, b: bv8)
    requires forall k | 0 <= k < 8 :: Bit(a, k) == Bit(b, k)
    ensures a == b
  {
    assert Bit(a, 0) == Bit(b, 0) && Bit(a, 1) == Bit(b, 1) && Bit(a, 2) == Bit(b, 2) && Bit(a, 3) == Bit(b, 3);
    assert Bit(a, 4) == Bit(b, 4) && Bit(a, 5) == Bit(b, 5) && Bit(a, 6) == Bit(b, 6) && Bit(a, 7) == Bit(b, 7);
  }

  // ---------------------------------------------------------------- a buffer

  /** `isBitSetAt`. */
  predicate IsSet(bytes: seq<bv8>, i: nat)
    requires i < 8 * |bytes|
  {
    Bit(bytes[i / 8], i % 8)
  }

  /** The booleans a buffer stands for. */
  function Bits(bytes: seq<bv8>): seq<bool> {
    seq(8 * |bytes|, i requires 0 <= i < 8 * |bytes| => IsSet(bytes, i))
  }

  lemma BitsUpdate(bytes: seq<bv8>, i: nat, b: bv8, value: bool)
    requires i < 8 * |bytes|
    requires forall m | 0 <= m < 8 :: Bit(b, m) == if m == i % 8 then value else Bit(bytes[i / 8], m)
    ensures Bits(bytes[i / 8 := b]) == Bits(bytes)[i := value]
  {
    var after := bytes[i / 8 := b];
    forall j | 0 <= j < 8 * |bytes|
      ensures IsSet(after, j) == if j == i then value else IsSet(bytes, j)
    {
    }
  }

  lemma SetUpdate(bytes: seq<bv8>, i: nat)
    requires i < 8 * |bytes|
    ensures Bits(bytes[i / 8 := bytes[i / 8] | Mask(i % 8)]) == Bits(bytes)[i := true]
  {
    var b := bytes[i / 8];
    forall m | 0 <= m < 8 ensures Bit(b | Mask(i % 8), m) == if m == i % 8 then true else Bit(b, m) {
      OrMask(b, i % 8, m);
    }
    BitsUpdate(bytes, i, b | Mask(i % 8), true);
  }

  lemma ClearUpdate(bytes: seq<bv8>, i: nat)
    requires i < 8 * |bytes|
    ensures Bits(bytes[i / 8 := bytes[i / 8] & !Mask(i % 8)]) == Bits(bytes)[i := false]
  {
    var b := bytes[i / 8];
    forall m | 0 <= m < 8 ensures Bit(b & !Mask(i % 8), m) == if m == i % 8 then false else Bit(b, m) {
      AndNotMask(b, i % 8, m);
    }
    BitsUpdate(bytes, i, b & !Mask(i % 8), false);
  }

  method SetBitAt(a: array<bv8>, i: nat)
    requires i < 8 * a.Length
    modifies a
    ensures Bits(a[..]) == old(Bits(a[..]))[i := true]
  {
    SetUpdate(a[..], i);
    ghost var after := a[..][i / 8 := a[i / 8] | Mask(i % 8)];
    a[i / 8] := a[i / 8] | Mask(i % 8);
    assert a[..] == after;
  }

  method ClearBitAt(a: array<bv8>, i: nat)
    requires i < 8 * a.Length
    modifies a
    ensures Bits(a[..]) == old(Bits(a[..]))[i := false]
  {
    ClearUpdate(a[..], i);
    ghost var after := a[..][i / 8 := a[i / 8] & !Mask(i % 8)];
    a[i / 8] := a[i / 8] & !Mask(i % 8);
    assert a[..] == after;
  }

  /** The bit that `setBitAtUnified` reaches: its byte index is kept in eight bits. */
  function Reached(i: nat): (r: nat)
    ensures r == i <==> i < 2048
    ensures r < 2048
  {
    (i / 8) % 256 * 8 + i % 8
  }

  /** `(byte & ~mask) | (-value & mask)`. */
  function UnifiedByte(b: bv8, k: nat, value: bool): bv8
    requires k < 8
  {
    (b & !Mask(k)) | ((if value then 0xFF else 0) & Mask(k))
  }

  lemma UnifiedBit(b: bv8, k: nat, value: bool, m: nat)
    requires k < 8 && m < 8
    ensures Bit(UnifiedByte(b, k, value), m) == if m == k then value else Bit(b, m)
  {
  }

  lemma UnifiedUpdate(bytes: seq<bv8>, i: nat, value: bool)
    requires i < 8 * |bytes|
    ensures Bits(bytes[i / 8 := UnifiedByte(bytes[i / 8], i % 8, value)]) == Bits(bytes)[i := value]
  {
    var b := bytes[i / 8];
    forall m | 0 <= m < 8 ensures Bit(UnifiedByte(b, i % 8, value), m) == if m == i % 8 then value else Bit(b, m) {
      UnifiedBit(b, i % 8, value, m);
    }
    BitsUpdate(bytes, i, UnifiedByte(b, i % 8, value), value);
  }

  /** `setBitAtUnified` sets or clears without branching -- the bit it reaches, which is bit `i`
      exactly for `i` below 2048. */
  method SetBitAtUnified(a: array<bv8>, i: nat, value: bool)
    requires Reached(i) < 8 * a.Length
    modifies a
    ensures Bits(a[..]) == old(Bits(a[..]))[Reached(i) := value]
  {
    var idx, k := (i / 8) % 256, i % 8;
    assert Reached(i) / 8 == idx && Reached(i) % 8 == k;
    UnifiedUpdate(a[..], Reached(i), value);
    ghost var after := a[..][idx := UnifiedByte(a[idx], k, value)];
    a[idx] := UnifiedByte(a[idx], k, value);
    assert a[..] == after;
  }

  /** `isBitClearAt` compares the whole byte with the mask, so it is the negation of `isBitSetAt`
      exactly when the bit is clear or is the only one set in its byte. */
  predicate IsBitClearAt(bytes: seq<bv8>, i: nat)
    requires i < 8 * |bytes|
  {
    bytes[i / 8] ^ Mask(i % 8) != 0
  }

  lemma ClearIsNotSet(bytes: seq<bv8>, i: nat)
    requires i < 8 * |bytes|
    ensures IsBitClearAt(bytes, i) == !IsSet(bytes, i) <==> !IsSet(bytes, i) || bytes[i / 8] == Mask(i % 8)
  {
    var b, m := bytes[i / 8], Mask(i % 8);
    assert b ^ m == 0 <==> b == m;
    assert m & m != 0;
  }

  // ---------------------------------------------------------------- runs of operations

  datatype Op = Set(i: nat) | Clear(i: nat) | Unified(i: nat, value: bool)

  function Target(op: Op): nat {
    match op
    case Set(i) => i
    case Clear(i) => i
    case Unified(i, _) => Reached(i)
  }

  function Value(op: Op): bool {
    match op
    case Set(_) => true
    case Clear(_) => false
    case Unified(_, value) => value
  }

  /** The same run on booleans. */
  function Replay(bits: seq<bool>, ops: seq<Op>): (r: seq<bool>)
    requires forall k | 0 <= k < |ops| :: Target(ops[k]) < |bits|
    ensures |r| == |bits|
  {
    if ops == [] then bits
    else
      var n := |ops| - 1;
      Replay(bits, ops[..n])[Target(ops[n]) := Value(ops[n])]
  }

  /** Over any run of operations the buffer refines the booleans. */
  method RunAll(a: array<bv8>, ops: seq<Op>)
    requires forall k | 0 <= k < |ops| :: Target(ops[k]) < 8 * a.Length
    modifies a
    ensures Bits(a[..]) == Replay(old(Bits(a[..])), ops)
  {
    for n := 0 to |ops|
      invariant Bits(a[..]) == Replay(old(Bits(a[..])), ops[..n])
    {
      assert ops[..n + 1][..n] == ops[..n];
      match ops[n]
      case Set(i) => SetBitAt(a, i);
      case Clear(i) => ClearBitAt(a, i);
      case Unified(i, value) => SetBitAtUnified(a, i, value);
    }
    assert ops[..|ops|] == ops;
  }

  // ---------------------------------------------------------------- counting

  /** The number of ones among the first `n` booleans. */
  function Count(bits: seq<bool>, n: nat): nat
    requires n <= |bits|
  {
    if n == 0 then 0 else Count(bits, n - 1) + One(bits[n - 1])
  }

  function One(b: bool): nat {
    if b then 1 else 0
  }

  function ByteBits(b: bv8): seq<bool> {
    seq(8, k requires 0 <= k < 8 => Bit(b, k))
  }

  function Ones(b: bv8): nat {
    Count(ByteBits(b), 8)
  }

  function OnesList(bytes: seq<bv8>): (ones: seq<nat>)
    ensures |ones| == |bytes|
  {
    seq(|bytes|, i requires 0 <= i < |bytes| => Ones(bytes[i]))
  }

  function Sum(ns: seq<nat>): nat {
    if ns == [] then 0 else Sum(ns[..|ns| - 1]) + ns[|ns| - 1]
  }

  /** The 64-bit word at a byte address, least significant byte first. */
  function Word(bytes: seq<bv8>, at: nat): bv64
    requires at + 8 <= |bytes|
  {
    (bytes[at] as bv64) | ((bytes[at + 1] as bv64) << 8) | ((bytes[at + 2] as bv64) << 16) |
    ((bytes[at + 3] as bv64) << 24) | ((bytes[at + 4] as bv64) << 32) | ((bytes[at + 5] as bv64) << 40) |
    ((bytes[at + 6] as bv64) << 48) | ((bytes[at + 7] as bv64) << 56)
  }

  function BytesOf(w: bv64): seq<bv8> {
    [(w & 0xFF) as bv8, ((w >> 8) & 0xFF) as bv8, ((w >> 16) & 0xFF) as bv8, ((w >> 24) & 0xFF) as bv8,
     ((w >> 32) & 0xFF) as bv8, ((w >> 40) & 0xFF) as bv8, ((w >> 48) & 0xFF) as bv8, ((w >> 56) & 0xFF) as bv8]
  }

  /** `__builtin_popcountl`: the ones in its eight bytes. */
  function PopCount(w: bv64): nat {
    Sum(OnesList(BytesOf(w)))
  }

  lemma BytesOfWord(bytes: seq<bv8>, at: nat)
    requires at + 8 <= |bytes|
    ensures BytesOf(Word(bytes, at)) == bytes[at..at + 8]
  {
    LowBytes(bytes, at);
    HighBytes(bytes, at);
    Halves(BytesOf(Word(bytes, at)), bytes, at);
  }

  lemma Halves(w: seq<bv8>, bytes: seq<bv8>, at: nat)
    requires at + 8 <= |bytes| && |w| == 8 && w[..4] == bytes[at..at + 4] && w[4..] == bytes[at + 4..at + 8]
    ensures w == bytes[at..at + 8]
  {
    assert w == w[..4] + w[4..];
  }

  lemma LowBytes(bytes: seq<bv8>, at: nat)
    requires at + 8 <= |bytes|
    ensures BytesOf(Word(bytes, at))[..4] == bytes[at..at + 4]
  {
    var w := BytesOf(Word(bytes, at));
    assert w[0] == bytes[at] && w[1] == bytes[at + 1] && w[2] == bytes[at + 2] && w[3] == bytes[at + 3];
  }

  lemma HighBytes(bytes: seq<bv8>, at: nat)
    requires at + 8 <= |bytes|
    ensures BytesOf(Word(bytes, at))[4..] == bytes[at + 4..at + 8]
  {
    var w := BytesOf(Word(bytes, at));
    assert w[4] == bytes[at + 4] && w[5] == bytes[at + 5] && w[6] == bytes[at + 6] && w[7] == bytes[at + 7];
  }

  /** Equal stretches of booleans hold equally many ones. */
  lemma {:induction false} CountStretch(bits: seq<bool>, from: nat, stretch: seq<bool>, n: nat)
    requires n <= |stretch| && from + |stretch| <= |bits| && bits[from..from + |stretch|] == stretch
    ensures Count(bits, from + n) == Count(bits, from) + Count(stretch, n)
  {
    if n > 0 {
      CountStretch(bits, from, stretch, n - 1);
      assert bits[from..from + |stretch|][n - 1] == bits[from + n - 1];
    }
  }

  lemma ByteStretch(bytes: seq<bv8>, j: nat)
    requires j < |bytes|
    ensures Bits(bytes)[8 * j..8 * j + 8] == ByteBits(bytes[j])
  {
    forall k | 0 <= k < 8
      ensures Bits(bytes)[8 * j + k] == Bit(bytes[j], k)
    {
      assert (8 * j + k) / 8 == j && (8 * j + k) % 8 == k;
    }
  }

  lemma CountByte(bytes: seq<bv8>, j: nat)
    requires j < |bytes|
    ensures Count(Bits(bytes), 8 * j + 8) == Count(Bits(bytes), 8 * j) + Ones(bytes[j])
  {
    ByteStretch(bytes, j);
    CountStretch(Bits(bytes), 8 * j, ByteBits(bytes[j]), 8);
  }

  /** `ones` counts the ones in the bits, eight at a time. */
  ghost predicate Tallies(bits: seq<bool>, ones: seq<nat>) {
    && |bits| == 8 * |ones|
    && forall j | 0 <= j < |ones| :: Count(bits, 8 * j + 8) == Count(bits, 8 * j) + ones[j]
  }

  lemma BytesTally(bytes: seq<bv8>)
    ensures Tallies(Bits(bytes), OnesList(bytes))
  {
    forall j | 0 <= j < |bytes|
      ensures Count(Bits(bytes), 8 * j + 8) == Count(Bits(bytes), 8 * j) + OnesList(bytes)[j]
    {
      CountByte(bytes, j);
    }
  }

  lemma OnesSlice(bytes: seq<bv8>, from: nat, to: nat)
    requires from <= to <= |bytes|
    ensures OnesList(bytes[from..to]) == OnesList(bytes)[from..to]
  {
  }

  lemma {:induction false} CountStrides(bits: seq<bool>, ones: seq<nat>, at: nat, n: nat)
    requires Tallies(bits, ones) && at + n <= |ones|
    ensures Count(bits, 8 * (at + n)) == Count(bits, 8 * at) + Sum(ones[at..at + n])
  {
    if n > 0 {
      CountStrides(bits, ones, at, n - 1);
      var j := at + n - 1;
      assert ones[at..at + n][..n - 1] == ones[at..j] && ones[at..at + n][n - 1] == ones[j];
      assert 8 * (at + n) == 8 * j + 8;
    }
  }

  lemma CountNext(bytes: seq<bv8>, i: nat)
    requires i < 8 * |bytes|
    ensures Count(Bits(bytes), i + 1) == Count(Bits(bytes), i) + One(IsSet(bytes, i))
  {
    assert Bits(bytes)[i] == IsSet(bytes, i);
  }

  lemma StrideOnes(bytes: seq<bv8>, at: nat)
    requires at + 8 <= |bytes|
    ensures Count(Bits(bytes), 8 * at + 64) == Count(Bits(bytes), 8 * at) + Sum(OnesList(bytes[at..at + 8]))
  {
    BytesTally(bytes);
    CountStrides(Bits(bytes), OnesList(bytes), at, 8);
    OnesSlice(bytes, at, at + 8);
  }

  /** One stride of `countSetBits`. */
  method CountStride(bytes: seq<bv8>, at: nat) returns (ones: nat)
    requires at + 8 <= |bytes|
    ensures Count(Bits(bytes), 8 * at + 64) == Count(Bits(bytes), 8 * at) + ones
  {
    StrideOnes(bytes, at);
    BytesOfWord(bytes, at);
    ones := PopCount(Word(bytes, at));
  }

  /** `countSetBits`: whole words first, then bit by bit. */
  method CountSetBits(bytes: seq<bv8>, end: nat) returns (ans: nat)
    requires end <= 8 * |bytes|
    ensures ans == Count(Bits(bytes), end)
  {
    var i := 0;
    ans := 0;
    while i + 64 <= end
      invariant i % 64 == 0 && i <= end && ans == Count(Bits(bytes), i)
    {
      var ones := CountStride(bytes, i / 64 * 8);
      ans := ans + ones;
      i := i + 64;
    }
    while i < end
      invariant i <= end && ans == Count(Bits(bytes), i)
    {
      CountNext(bytes, i);
      ans := ans + One(IsSet(bytes, i));
      i := i + 1;
    }
  }

  method CountUnsetBits(bytes: seq<bv8>, end: nat) returns (ans: nat)
    requires end <= 8 * |bytes|
    ensures ans + Count(Bits(bytes), end) == end
  {
    var set_ := CountSetBits(bytes, end);
    CountBound(Bits(bytes), end);
    ans := end - set_;
  }

  lemma {:induction false} CountBound(bits: seq<bool>, n: nat)
    requires n <= |bits|
    ensures Count(bits, n) <= n
  {
    if n > 0 {
      CountBound(bits, n - 1);
    }
  }

  // ---------------------------------------------------------------- comparing

  lemma BytesAgree(a: seq<bv8>, b: seq<bv8>, n: nat)
    requires n <= |a| && n <= |b|
    ensures a[..n] == b[..n] <==> forall i | 0 <= i < 8 * n :: IsSet(a, i) == IsSet(b, i)
  {
    if a[..n] == b[..n] {
      forall i | 0 <= i < 8 * n
        ensures IsSet(a, i) == IsSet(b, i)
      {
        assert a[..n][i / 8] == b[..n][i / 8];
      }
    }
    if forall i | 0 <= i < 8 * n :: IsSet(a, i) == IsSet(b, i) {
      forall j | 0 <= j < n
        ensures a[j] == b[j]
      {
        forall k | 0 <= k < 8
          ensures Bit(a[j], k) == Bit(b[j], k)
        {
          assert IsSet(a, 8 * j + k) == IsSet(b, 8 * j + k);
        }
        ByteOfBits(a[j], b[j]);
      }
    }
  }

  /** `CheckBitVectorEq`: whole bytes at once, then the remaining bits. */
  method CheckBitVectorEq(a: seq<bv8>, b: seq<bv8>, end: nat) returns (eq: bool)
    requires end <= 8 * |a| && end <= 8 * |b|
    ensures eq <==> forall i | 0 <= i < end :: IsSet(a, i) == IsSet(b, i)
  {
    var bytes := end / 8;
    BytesAgree(a, b, bytes);
    if a[..bytes] != b[..bytes] {
      return false;
    }
    var i := bytes * 8;
    while i < end
      invariant bytes * 8 <= i <= end
      invariant forall k | 0 <= k < i :: IsSet(a, k) == IsSet(b, k)
    {
      if (IsSet(a, i) && !IsSet(b, i)) || (!IsSet(a, i) && IsSet(b, i)) {
        return false;
      }
      i := i + 1;
    }
    return true;
  }

  /** `bitwiseAnd`, byte by byte; bytes past the last one needed keep their value. */
  method BitwiseAnd(output: array<bv8>, a: seq<bv8>, b: seq<bv8>, bitNum: nat)
    requires (bitNum + 7) / 8 <= output.Length && (bitNum + 7) / 8 <= |a| && (bitNum + 7) / 8 <= |b|
    modifies output
    ensures forall i | 0 <= i < bitNum :: IsSet(output[..], i) == (IsSet(a, i) && IsSet(b, i))
    ensures forall j | (bitNum + 7) / 8 <= j < output.Length :: output[j] == old(output[j])
  {
    var len := (bitNum + 7) / 8;
    for k := 0 to len
      invariant forall j | 0 <= j < k :: output[j] == a[j] & b[j]
      invariant forall j | k <= j < output.Length :: output[j] == old(output[j])
    {
      output[k] := a[k] & b[k];
    }
    AndBytes(output[..], a, b, bitNum);
  }

  lemma AndBytes(output: seq<bv8>, a: seq<bv8>, b: seq<bv8>, bitNum: nat)
    requires var len := (bitNum + 7) / 8;
             len <= |output| && len <= |a| && len <= |b| && forall j | 0 <= j < len :: output[j] == a[j] & b[j]
    ensures forall i | 0 <= i < bitNum :: IsSet(output, i) == (IsSet(a, i) && IsSet(b, i))
  {
    forall i | 0 <= i < bitNum
      ensures IsSet(output, i) == (IsSet(a, i) && IsSet(b, i))
    {
      AndBit(a[i / 8], b[i / 8], i % 8);
    }
  }

  // ---------------------------------------------------------------- alignment

  function Pow2(k: nat): (r: nat)
    ensures r >= 1
  {
    if k == 0 then 1 else 2 * Pow2(k - 1)
  }

  /** The lambda that computes `kAlignmentOffset`. */
  method AlignmentOffset(factor: nat) returns (ans: nat)
    requires factor >= 1 && exists k: nat :: factor == Pow2(k)
    ensures Pow2(ans) == factor
  {
    var num := factor;
    ghost var k: nat :| factor == Pow2(k);
    ans := 0;
    while num / 2 != 0
      invariant 0 <= ans <= k && num == Pow2(k - ans) && num >= 1
      decreases num
    {
      assert ans < k;
      num := num / 2;
      ans := ans + 1;
    }
  }

  /** `alignBitsNum`: shifts by three and by the alignment offset. */
  function AlignBitsNum(wanted: nat, offset: nat): nat {
    ((wanted + 7) / 8 + (Pow2(offset) - 1)) / Pow2(offset) * Pow2(offset) * 8
  }

  /** The least number of bits that is large enough and a multiple of `8 * factor`. */
  lemma AlignIsLeast(wanted: nat, offset: nat, other: nat)
    requires other % (8 * Pow2(offset)) == 0 && other >= wanted
    ensures AlignBitsNum(wanted, offset) % (8 * Pow2(offset)) == 0
    ensures wanted <= AlignBitsNum(wanted, offset) <= other
  {
    var f := Pow2(offset);
    var bytes := (wanted + 7) / 8;
    var k := (bytes + (f - 1)) / f;
    assert AlignBitsNum(wanted, offset) == k * f * 8;
    RoundUpDiv(bytes, f, k);
    var m := other / (8 * f);
    ExactMultiple(other, 8 * f);
    MultipleUnits(k, m, f, wanted, bytes);
  }

  lemma ExactMultiple(n: nat, p: nat)
    requires p >= 1 && n % p == 0
    ensures n == n / p * p
  {
  }

  lemma RoundUpDiv(bytes: nat, f: nat, k: nat)
    requires f >= 1 && k == (bytes + (f - 1)) / f
    ensures bytes <= k * f < bytes + f
  {
    var x := bytes + (f - 1);
    assert x == k * f + x % f;
  }

  lemma MultipleUnits(k: nat, m: nat, f: nat, wanted: nat, bytes: nat)
    requires f >= 1 && bytes == (wanted + 7) / 8 && bytes <= k * f < bytes + f && m * (8 * f) >= wanted
    ensures (k * f * 8) % (8 * f) == 0 && wanted <= k * f * 8 <= m * (8 * f)
  {
    assert k * f * 8 == k * (8 * f);
    assert m * (8 * f) == 8 * (m * f);
    assert m * f >= bytes;
    assert (k - 1) * f == k * f - f;
    Least(k, m, f);
    MultipleMod(k, 8 * f);
  }

  lemma Least(k: nat, m: nat, f: nat)
    requires f >= 1 && (k - 1) * f < m * f
    ensures k * f <= m * f
  {
    if m <= k - 1 {
      MulMono(m, k - 1, f);
      assert false;
    }
    MulMono(k, m, f);
  }

  lemma MulMono(a: int, b: int, f: nat)
    requires a <= b
    ensures a * f <= b * f
  {
    assert b * f == a * f + (b - a) * f;
  }

  lemma MultipleMod(k: nat, p: nat)
    requires p >= 1
    ensures (k * p) % p == 0
  {
    var q, r := (k * p) / p, (k * p) % p;
    assert k * p == q * p + r;
    assert (k - q) * p == r;
    Within(k - q, p);
  }

  lemma Within(d: int, p: nat)
    requires 0 <= d * p < p
    ensures d == 0
  {
  }
}

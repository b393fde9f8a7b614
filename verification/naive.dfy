/**
 * NaiveBitVector: the reference implementation. Rank scans every byte before
 * the index, select scans every position, access extracts one bit.
 */
module Naive {
  import opened Results
  import opened Bytes
  import opened BitPrefix

  /** The bit buffer and its logical length in bits. */
  datatype NaiveBitVector = NaiveBitVector(segment: seq<Byte>, bitSize: int)

  /** `Integer.compress(x, mask)`: the bits of x at the set positions of mask, packed downwards. */
  function Compress(x: nat, mask: nat): nat
    decreases mask
  {
    if mask == 0 then 0
    else if mask % 2 == 1 then x % 2 + 2 * Compress(x / 2, mask / 2)
    else Compress(x / 2, mask / 2)
  }

  /** Compressing with the single-bit mask `1 << k` extracts bit k. */
  lemma {:induction false} CompressSingleBit(x: nat, k: nat)
    ensures Compress(x, Pow2(k)) == BitOf(x, k)
  {
    if k > 0 {
      assert Pow2(k) % 2 == 0 && Pow2(k) / 2 == Pow2(k - 1);
      CompressSingleBit(x / 2, k - 1);
    }
  }

  /** Number of `bit`-valued positions in [0, index): the whole bytes plus the masked last byte. */
  function Rank(v: NaiveBitVector, index: int, bit: int): (r: int)
    requires bit == 0 || bit == 1
    requires 0 <= index < 8 * |v.segment|
    ensures r == Count(v.segment, index, bit)
  {
    var target := index / 8;
    var last := v.segment[target];
    ByteOnesIsOnes(v.segment, 0, target);
    OnesInByte(v.segment, target, index % 8);
    MaskedPopcount(last, index % 8);
    var ones := ByteOnes(v.segment, 0, target) + Popcount(LowBits(last, index % 8));
    if bit == 0 then index - ones else ones
  }

  /**
   * `Integer.compress(b, 1 << (index & 7))` on byte `index / 8`. Java's
   * division truncates, so an index from -7 to -1 reads byte 0 (at bit
   * `index & 7`, that is index + 8); any other index whose byte lies outside
   * the buffer fails as the memory segment's bounds check does.
   */
  function Access(v: NaiveBitVector, index: int): (r: Result<int>)
    ensures r.Success? <==> |v.segment| > 0 && -8 < index < 8 * |v.segment|
    ensures r.Success? && index >= 0 ==> r.value == BitAt(v.segment, index)
    ensures r.Success? && index < 0 ==> r.value == BitAt(v.segment, index + 8)
  {
    JavaByteIndex(index, |v.segment|);
    var byteIndex := JavaDiv(index, 8);
    if !(0 <= byteIndex < |v.segment|) then Failure(OutOfBounds)
    else
      CompressSingleBit(v.segment[byteIndex], index % 8);
      Success(Compress(v.segment[byteIndex], Pow2(index % 8)))
  }

  /**
   * `i - 1` for the least i in [1, bitSize) whose rank is `rank`, or -1 when
   * no such i exists.
   */
  method Select(v: NaiveBitVector, rank: int, bit: int) returns (r: int)
    requires bit == 0 || bit == 1
    requires v.bitSize <= 8 * |v.segment|
    ensures r == -1 <==> forall i :: 1 <= i < v.bitSize ==> Count(v.segment, i, bit) != rank
    ensures r != -1 ==> 0 <= r && r + 1 < v.bitSize && Count(v.segment, r + 1, bit) == rank
    ensures r != -1 ==> forall i :: 1 <= i <= r ==> Count(v.segment, i, bit) != rank
  {
    var i := 1;
    while i < v.bitSize
      invariant 1 <= i
      invariant forall j :: 1 <= j < i && j < v.bitSize ==> Count(v.segment, j, bit) != rank
    {
      if Rank(v, i, bit) == rank {
        return i - 1;
      }
      i := i + 1;
    }
    return -1;
  }

  /**
   * For a rank of at least 1, the position naive select returns holds `bit`
   * and is preceded by exactly rank - 1 occurrences: it is the rank-th
   * occurrence, counting from 1.
   */
  lemma SelectFindsOccurrence(buf: seq<Byte>, r: nat, rank: int, bit: int)
    requires bit == 0 || bit == 1
    requires rank >= 1
    requires Count(buf, r + 1, bit) == rank
    requires forall i :: 1 <= i <= r ==> Count(buf, i, bit) != rank
    ensures BitAt(buf, r) == bit
    ensures Count(buf, r, bit) == rank - 1
  {
    CountStep(buf, r, bit);
    if r >= 1 {
      assert Count(buf, r, bit) != rank;
    }
  }

  /** The bits as a string of '0' and '1', one character per position. */
  function ToString(v: NaiveBitVector): (s: seq<char>)
    requires 0 <= v.bitSize <= 8 * |v.segment|
    ensures |s| == v.bitSize
    ensures forall l :: 0 <= l < |s| ==> s[l] == if BitAt(v.segment, l) == 1 then '1' else '0'
  {
    seq(v.bitSize, l requires 0 <= l < v.bitSize => ('0' as int + Access(v, l).value) as char)
  }

  /** Bytes used: the buffer alone. */
  function MemoryUsage(v: NaiveBitVector): nat
  {
    |v.segment|
  }

  /** The long 0b100110101110001 stored little-endian, as in the access test. */
  const AccessSample: seq<Byte> := [113, 77, 0, 0, 0, 0, 0, 0]

  lemma AccessSmall()
    ensures var v := NaiveBitVector(AccessSample, 64);
      Access(v, 0) == Success(1) && Access(v, 1) == Success(0) && Access(v, 4) == Success(1)
        && Access(v, 5) == Success(1) && Access(v, 7) == Success(0)
  {
    assert ShiftRight(113, 1) == 56 && ShiftRight(113, 4) == 7;
    assert ShiftRight(113, 5) == 3 && ShiftRight(113, 7) == 0;
  }
}

/**
 * EfficientBitVector: the bit buffer together with its rank table and its
 * select table, and the three queries answered from them.
 */
module Efficient {
  import opened Results
  import opened Bytes
  import opened BitPrefix
  import opened RankIndex
  import opened SelectCodec

  /** Bytes of one rank record: the 64-bit ones count, 256 block bytes, 32 overflow bytes. */
  const RankRecordBytes: nat := 8 + 256 + 32

  /**
   * The engine: the buffer, one rank record per superblock, the select
   * table's 12-byte records, and the logical length in bits.
   */
  datatype Engine = Engine(segment: seq<Byte>, supers: seq<Superblock>, selectTable: seq<Record>, bitSize: int)

  /** Math.ceilDiv for a non-negative dividend. */
  function CeilDiv(a: nat, d: nat): (r: nat)
    requires d > 0
    ensures d * r >= a && (r == 0 || d * (r - 1) < a)
  {
    if a == 0 then 0 else (a - 1) / d + 1
  }

  /**
   * What the build establishes and the queries rely on: one matching rank
   * record per superblock of bitSize, and a select table whose every entry
   * (written or still zero) names an existing superblock.
   */
  predicate Valid(e: Engine)
  {
    0 <= e.bitSize < TwoTo63
    && |e.supers| == CeilDiv(e.bitSize, 0x1_0000)
    && |e.supers| >= 1
    && (forall s {:trigger Matches(e.segment, s, e.supers[s])} :: 0 <= s < |e.supers| ==> Matches(e.segment, s, e.supers[s]))
    && |e.selectTable| >= 1
    && (forall j :: 0 <= j < |e.selectTable| ==>
          0 <= GetSelect(e.selectTable[j], 0) < |e.supers| && 0 <= GetSelect(e.selectTable[j], 1) < |e.supers|)
  }

  /**
   * access: `(b >>> (index & 7)) & 1` on byte `index / 8`, with Java's
   * truncating division: an index from -7 to -1 reads bit index + 8 of byte
   * 0, and any other index whose byte lies outside the buffer fails.
   */
  function Access(e: Engine, index: int): (r: Result<int>)
    ensures r.Success? <==> |e.segment| > 0 && -8 < index < 8 * |e.segment|
    ensures r.Success? && index >= 0 ==> r.value == BitAt(e.segment, index)
    ensures r.Success? && index < 0 ==> r.value == BitAt(e.segment, index + 8)
  {
    JavaByteIndex(index, |e.segment|);
    var byteIndex := JavaDiv(index, 8);
    if !(0 <= byteIndex < |e.segment|) then Failure(OutOfBounds)
    else Success(BitOf(e.segment[byteIndex], index % 8))
  }

  /** Superblock, block-in-superblock and byte offsets recompose the index. */
  lemma IndexSplit(index: nat)
    ensures 0x1_0000 * (index / 0x1_0000) + 256 * ((index % 0x1_0000) / 256) == 256 * (index / 256)
    ensures 8 * (index / 8) + index % 8 == index
    ensures 32 * (index / 256) <= index / 8 < 32 * (index / 256) + 32
  {
    var s, t := index / 0x1_0000, index % 0x1_0000;
    var m, u := t / 256, t % 256;
    assert index == 0x1_0000 * s + 256 * m + u;
    assert index / 256 == 256 * s + m by {
      DivModUnique(index, 256, 256 * s + m, u);
    }
    var q, w := index / 256, index % 256;
    assert index == 256 * q + w;
    assert index / 8 == 32 * q + w / 8 by {
      DivModUnique(index, 8, 32 * q + w / 8, w % 8);
    }
  }

  /** The four terms of rank add up to the ones before the index. */
  lemma RankTerms(buf: seq<Byte>, sb: Superblock, s: nat, m: nat, t: nat, q: nat, r: nat, index: nat)
    requires q < |buf| && r < 8 && index == 8 * q + r
    requires m < 256 && t == 256 * s + m && 32 * t <= q <= 32 * t + 32
    requires Matches(buf, s, sb)
    ensures sb.onesBefore + TrueSum(sb, m) + CountBits(buf, q, t) + OnesBelow(buf[q], r) == Ones(buf, index)
  {
    TrueSumIsOnes(buf, s, sb, m);
    OnesInByte(buf, q, r);
  }

  /**
   * rank: the superblock count, the whole-block sum with overflow correction,
   * the kernel over the bytes before the index's byte, and the masked low
   * bits of that byte. The result counts `bit` in [0, index), exclusive.
   */
  function Rank(e: Engine, index: int, bit: int): (r: int)
    requires Valid(e)
    requires bit == 0 || bit == 1
    requires 0 <= index < 8 * |e.segment|
    requires index / 0x1_0000 < |e.supers|
    ensures r == Count(e.segment, index, bit)
  {
    var s := index / 0x1_0000;
    var sb := e.supers[s];
    var target := index / 8;
    var last := e.segment[target];
    IndexSplit(index);
    RankTerms(e.segment, sb, s, (index % 0x1_0000) / 256, index / 256, target, index % 8, index);
    MaskedPopcount(last, index % 8);
    var ones := sb.onesBefore + SumBlocksUntil(sb, (index % 0x1_0000) / 256)
      + CountBits(e.segment, target, index / 256) + Popcount(LowBits(last, index % 8));
    if bit == 0 then index - ones else ones
  }

  /** Rank's own bounds check and the rank-table lookup both succeed at index. */
  predicate RankDefined(e: Engine, index: int)
  {
    0 <= index < 8 * |e.segment| && index / 0x1_0000 < |e.supers|
  }

  /**
   * rank as called from select, stated by what it returns: the index
   * assertion fails outside the buffer, the rank-table read fails past the
   * last superblock, and otherwise the value is the prefix count (which
   * Rank's contract shows the table walk computes).
   */
  function RankChecked(e: Engine, index: int, bit: int): (r: Result<int>)
    requires (bit == 0 || bit == 1)
    ensures r.Success? <==> RankDefined(e, index)
    ensures r.Success? ==> r.value == Count(e.segment, index, bit)
  {
    if !(0 <= index < 8 * |e.segment|) then Failure(AssertionFailed)
    else if index / 0x1_0000 >= |e.supers| then Failure(OutOfBounds)
    else Success(Count(e.segment, index, bit))
  }

  /** One rank probe from select, computed with the table walk of Rank. */
  method RankProbe(e: Engine, index: int, bit: int) returns (r: Result<int>)
    requires Valid(e) && (bit == 0 || bit == 1)
    ensures r == RankChecked(e, index, bit)
  {
    if !(0 <= index < 8 * |e.segment|) {
      return Failure(AssertionFailed);
    }
    if index / 0x1_0000 >= |e.supers| {
      return Failure(OutOfBounds);
    }
    return Success(Rank(e, index, bit));
  }

  /**
   * The quantity phase 1 of select compares: the ones before superblock c,
   * or for bit 0 the zeros before it, `c * 65536 - onesBefore`.
   */
  function ToRank(e: Engine, c: int, bit: int): (r: int)
    requires Valid(e) && (bit == 0 || bit == 1) && 0 <= c < |e.supers|
    ensures r == Count(e.segment, 0x1_0000 * c, bit)
  {
    assert Matches(e.segment, c, e.supers[c]);
    var ones := e.supers[c].onesBefore;
    if bit == 1 then ones else c * 0x1_0000 - ones
  }

  lemma ToRankMonotone(e: Engine, c: int, d: int, bit: int)
    requires Valid(e) && (bit == 0 || bit == 1) && 0 <= c <= d < |e.supers|
    ensures ToRank(e, c, bit) <= ToRank(e, d, bit)
  {
    CountMonotone(e.segment, 0x1_0000 * c, 0x1_0000 * d, bit);
  }

  /** getSelect on the table: records past its end cannot be read. */
  function SelectEntry(e: Engine, bit: int, index: int): (r: Result<int>)
    requires Valid(e) && (bit == 0 || bit == 1)
    ensures r.Success? <==> 0 <= index < |e.selectTable|
    ensures r.Success? ==> 0 <= r.value < |e.supers|
  {
    if 0 <= index < |e.selectTable| then Success(GetSelect(e.selectTable[index], bit)) else Failure(OutOfBounds)
  }

  /**
   * Reference for the superblock search: the least c in [lo, hi) whose
   * ToRank reaches k, or hi when there is none; lo itself when the range is
   * empty.
   */
  function FirstSuperblockReaching(e: Engine, k: int, bit: int, lo: int, hi: int): (r: int)
    requires Valid(e) && (bit == 0 || bit == 1) && 0 <= lo && hi <= |e.supers|
    ensures lo >= hi ==> r == lo
    ensures lo < hi ==> lo <= r <= hi && (r < hi ==> ToRank(e, r, bit) >= k)
    ensures forall c :: lo <= c < r && c < hi ==> ToRank(e, c, bit) < k
    decreases hi - lo
  {
    if lo >= hi then lo
    else if ToRank(e, lo, bit) >= k then lo
    else FirstSuperblockReaching(e, k, bit, lo + 1, hi)
  }

  /** The superblock search result is the only c meeting its description. */
  lemma FirstSuperblockReachingIs(e: Engine, k: int, bit: int, lo: int, hi: int, c: int)
    requires Valid(e) && (bit == 0 || bit == 1) && 0 <= lo <= c <= hi <= |e.supers|
    requires forall d :: lo <= d < c ==> ToRank(e, d, bit) < k
    requires c < hi ==> ToRank(e, c, bit) >= k
    ensures FirstSuperblockReaching(e, k, bit, lo, hi) == c
  {
  }

  /** Phase 1 of select: binary search over superblocks for the lower bound. */
  method LocateSuperblock(e: Engine, k: int, bit: int, lo0: int, hi0: int) returns (c: int)
    requires Valid(e) && (bit == 0 || bit == 1) && 0 <= lo0 && hi0 <= |e.supers|
    ensures c == FirstSuperblockReaching(e, k, bit, lo0, hi0)
  {
    if lo0 >= hi0 {
      return lo0;
    }
    var lo, hi := lo0, hi0;
    while lo < hi
      invariant lo0 <= lo <= hi <= hi0
      invariant forall d :: lo0 <= d < lo ==> ToRank(e, d, bit) < k
      invariant hi < hi0 ==> ToRank(e, hi, bit) >= k
      decreases hi - lo
    {
      var mid := lo + (hi - lo) / 2;
      if ToRank(e, mid, bit) >= k {
        hi := mid;
      } else {
        forall d | lo0 <= d <= mid
          ensures ToRank(e, d, bit) < k
        {
          ToRankMonotone(e, d, mid, bit);
        }
        lo := mid + 1;
      }
    }
    c := lo;
  }

  /**
   * The step-back check after phase 1 as corrected: step back when lo is
   * past the last superblock or its count already reaches k. It never reads
   * past the rank table.
   */
  function StepBack(e: Engine, lo: int, k: int, bit: int): (r: bool)
    requires Valid(e) && (bit == 0 || bit == 1) && 0 <= lo
    ensures lo >= |e.supers| ==> r
    ensures lo < |e.supers| ==> (r <==> ToRank(e, lo, bit) >= k)
  {
    lo >= |e.supers| || ToRank(e, lo, bit) >= k
  }

  /** Phase 1 from the select-table hint to the superblock phase 2 searches. */
  function Phase1(e: Engine, k: int, bit: int): (r: Result<int>)
    requires Valid(e) && (bit == 0 || bit == 1) && 0 <= k
    ensures r.Success? ==> -1 <= r.value < |e.supers|
  {
    var selectIndex := k / 0x1_0000;
    var upper := SelectEntry(e, bit, selectIndex);
    if upper.Failure? then Failure(upper.error)
    else
      // record selectIndex - 1 precedes a readable record, so it is readable too
      var lower := if selectIndex == 0 then 0 else SelectEntry(e, bit, selectIndex - 1).value;
      var lo := FirstSuperblockReaching(e, k, bit, lower, upper.value + 1);
      Success(if StepBack(e, lo, k, bit) then lo - 1 else lo)
  }

  /** Phase 1 when the select-table record of k's bucket can be read. */
  lemma Phase1Succeeds(e: Engine, k: int, bit: int, upper: int, lower: int, lo: int)
    requires Valid(e) && (bit == 0 || bit == 1) && 0 <= k
    requires SelectEntry(e, bit, k / 0x1_0000) == Success(upper)
    requires lower == if k / 0x1_0000 == 0 then 0 else SelectEntry(e, bit, k / 0x1_0000 - 1).value
    requires lo == FirstSuperblockReaching(e, k, bit, lower, upper + 1)
    ensures Phase1(e, k, bit) == Success(if StepBack(e, lo, k, bit) then lo - 1 else lo)
  {
  }

  /**
   * Phase 1 lands just before superblock c when the table entries bracket c
   * and c is the first superblock from `lower` whose start reaches k.
   */
  lemma Phase1At(e: Engine, k: int, bit: int, upper: int, lower: int, c: int)
    requires Valid(e) && (bit == 0 || bit == 1) && 0 <= k
    requires SelectEntry(e, bit, k / 0x1_0000) == Success(upper)
    requires lower == if k / 0x1_0000 == 0 then 0 else SelectEntry(e, bit, k / 0x1_0000 - 1).value
    requires 0 <= lower <= c <= upper + 1
    requires forall d :: lower <= d < c ==> ToRank(e, d, bit) < k
    requires c < |e.supers| ==> ToRank(e, c, bit) >= k
    ensures Phase1(e, k, bit) == Success(c - 1)
  {
    FirstSuperblockReachingIs(e, k, bit, lower, upper + 1, c);
    Phase1Succeeds(e, k, bit, upper, lower, c);
  }

  /** Phase 1 as select runs it: the table lookups, the binary search, the step back. */
  method SuperblockOf(e: Engine, k: int, bit: int) returns (r: Result<int>)
    requires Valid(e) && (bit == 0 || bit == 1) && 0 <= k
    ensures r == Phase1(e, k, bit)
  {
    var selectIndex := k / 0x1_0000;
    var upper := SelectEntry(e, bit, selectIndex);
    if upper.Failure? {
      return Failure(upper.error);
    }
    var lower := if selectIndex == 0 then 0 else SelectEntry(e, bit, selectIndex - 1).value;
    var lo := LocateSuperblock(e, k, bit, lower, upper.value + 1);
    var back := StepBack(e, lo, k, bit);
    Phase1Succeeds(e, k, bit, upper.value, lower, lo);
    return Success(if back then lo - 1 else lo);
  }

  /**
   * The least l in [l0, h0) whose count of `bit` reaches k, or h0 when there
   * is none; l0 itself when the range is empty.
   */
  predicate IsFirstReaching(e: Engine, k: int, bit: int, l0: int, h0: int, l: int)
    requires bit == 0 || bit == 1
  {
    0 <= l0
    && (h0 <= l0 ==> l == l0)
    && (l0 < h0 ==>
          l0 <= l <= h0
          && (forall c :: l0 <= c < l ==> Count(e.segment, c, bit) < k)
          && (l < h0 ==> Count(e.segment, l, bit) >= k))
  }

  /**
   * Phase 2 of select as a function: the binary search with rank over [l, h),
   * halving the range at each probe; the first probe rank rejects ends it.
   */
  function Phase2Search(e: Engine, k: int, bit: int, l: int, h: int): (r: Result<int>)
    requires (bit == 0 || bit == 1) && 0 <= l
    decreases h - l
  {
    if l >= h then Success(l)
    else
      var mid := l + (h - l) / 2;
      var probe := RankChecked(e, mid, bit);
      if probe.Failure? then Failure(probe.error)
      else if probe.value >= k then Phase2Search(e, k, bit, l, mid)
      else Phase2Search(e, k, bit, mid + 1, h)
  }

  /** A probe rank rejects ends the search with rank's error. */
  lemma Phase2StepFails(e: Engine, k: int, bit: int, l: int, h: int, mid: int)
    requires (bit == 0 || bit == 1) && 0 <= l < h
    requires mid == l + (h - l) / 2 && !RankDefined(e, mid)
    ensures Phase2Search(e, k, bit, l, h) == Failure(RankChecked(e, mid, bit).error)
  {
    Phase2Step(e, k, bit, l, h, mid);
  }

  /** A probe whose count reaches k keeps the lower half. */
  lemma Phase2StepLeft(e: Engine, k: int, bit: int, l: int, h: int, mid: int)
    requires (bit == 0 || bit == 1) && 0 <= l < h
    requires mid == l + (h - l) / 2 && RankDefined(e, mid) && Count(e.segment, mid, bit) >= k
    ensures Phase2Search(e, k, bit, l, h) == Phase2Search(e, k, bit, l, mid)
  {
    Phase2Step(e, k, bit, l, h, mid);
  }

  /** A probe whose count stays below k keeps the upper half. */
  lemma Phase2StepRight(e: Engine, k: int, bit: int, l: int, h: int, mid: int)
    requires (bit == 0 || bit == 1) && 0 <= l < h
    requires mid == l + (h - l) / 2 && RankDefined(e, mid) && Count(e.segment, mid, bit) < k
    ensures Phase2Search(e, k, bit, l, h) == Phase2Search(e, k, bit, mid + 1, h)
  {
    Phase2Step(e, k, bit, l, h, mid);
  }

  /** One probe of the search: it fails, keeps the lower half or keeps the upper half. */
  lemma Phase2Step(e: Engine, k: int, bit: int, l: int, h: int, mid: int)
    requires (bit == 0 || bit == 1) && 0 <= l < h
    requires mid == l + (h - l) / 2
    ensures !RankDefined(e, mid) ==> Phase2Search(e, k, bit, l, h) == Failure(RankChecked(e, mid, bit).error)
    ensures RankDefined(e, mid) && Count(e.segment, mid, bit) >= k ==>
      Phase2Search(e, k, bit, l, h) == Phase2Search(e, k, bit, l, mid)
    ensures RankDefined(e, mid) && Count(e.segment, mid, bit) < k ==>
      Phase2Search(e, k, bit, l, h) == Phase2Search(e, k, bit, mid + 1, h)
  {
    var probe := RankChecked(e, mid, bit);
    assert Phase2Search(e, k, bit, l, h)
      == if probe.Failure? then Failure(probe.error)
         else if probe.value >= k then Phase2Search(e, k, bit, l, mid)
         else Phase2Search(e, k, bit, mid + 1, h);
  }

  /** Rank accepts every index below one it accepts. */
  lemma RankDefinedDown(e: Engine, c: int, d: int)
    requires 0 <= c <= d && RankDefined(e, d)
    ensures RankDefined(e, c)
  {
    assert c / 0x1_0000 <= d / 0x1_0000;
  }

  /** A first reaching position left of a reaching midpoint is first in the whole range. */
  lemma FirstReachingLeft(e: Engine, k: int, bit: int, l: int, h: int, mid: int, v: int)
    requires (bit == 0 || bit == 1) && 0 <= l <= mid < h
    requires Count(e.segment, mid, bit) >= k
    requires IsFirstReaching(e, k, bit, l, mid, v)
    ensures IsFirstReaching(e, k, bit, l, h, v)
  {
  }

  /** A first reaching position right of a midpoint below k is first in the whole range. */
  lemma FirstReachingRight(e: Engine, k: int, bit: int, l: int, h: int, mid: int, v: int)
    requires (bit == 0 || bit == 1) && 0 <= l <= mid < h
    requires Count(e.segment, mid, bit) < k
    requires IsFirstReaching(e, k, bit, mid + 1, h, v)
    ensures IsFirstReaching(e, k, bit, l, h, v)
  {
    forall c | l <= c <= mid
      ensures Count(e.segment, c, bit) < k
    {
      CountMonotone(e.segment, c, mid, bit);
    }
  }

  /**
   * The search fails only when rank rejects the last index of the range, so
   * never when rank accepts the whole range.
   */
  lemma {:induction false} Phase2SearchFails(e: Engine, k: int, bit: int, l: int, h: int)
    requires (bit == 0 || bit == 1) && 0 <= l
    requires Phase2Search(e, k, bit, l, h).Failure?
    ensures l < h && !RankDefined(e, h - 1)
    decreases h - l
  {
    var mid := l + (h - l) / 2;
    if !RankDefined(e, mid) {
      if RankDefined(e, h - 1) {
        RankDefinedDown(e, mid, h - 1);
      }
    } else if Count(e.segment, mid, bit) >= k {
      Phase2StepLeft(e, k, bit, l, h, mid);
      Phase2SearchFails(e, k, bit, l, mid);
      if RankDefined(e, h - 1) {
        RankDefinedDown(e, mid - 1, h - 1);
      }
    } else {
      Phase2StepRight(e, k, bit, l, h, mid);
      Phase2SearchFails(e, k, bit, mid + 1, h);
    }
  }

  /** When the search succeeds it finds the first position of [l, h) whose count reaches k. */
  lemma {:induction false} Phase2SearchFinds(e: Engine, k: int, bit: int, l: int, h: int, v: int)
    requires (bit == 0 || bit == 1) && 0 <= l
    requires Phase2Search(e, k, bit, l, h) == Success(v)
    ensures IsFirstReaching(e, k, bit, l, h, v)
    decreases h - l
  {
    if l < h {
      var mid := l + (h - l) / 2;
      if !RankDefined(e, mid) {
        Phase2StepFails(e, k, bit, l, h, mid);
      } else if Count(e.segment, mid, bit) >= k {
        Phase2StepLeft(e, k, bit, l, h, mid);
        Phase2SearchFinds(e, k, bit, l, mid, v);
        FirstReachingLeft(e, k, bit, l, h, mid, v);
      } else {
        Phase2StepRight(e, k, bit, l, h, mid);
        Phase2SearchFinds(e, k, bit, mid + 1, h, v);
        FirstReachingRight(e, k, bit, l, h, mid, v);
      }
    }
  }

  /** What the search's outcome means, success and failure together. */
  lemma Phase2SearchMeaning(e: Engine, k: int, bit: int, l: int, h: int)
    requires (bit == 0 || bit == 1) && 0 <= l
    ensures var r := Phase2Search(e, k, bit, l, h);
      (r.Success? ==> IsFirstReaching(e, k, bit, l, h, r.value))
      && (r.Failure? ==> l < h && !RankDefined(e, h - 1))
  {
    var r := Phase2Search(e, k, bit, l, h);
    if r.Success? {
      Phase2SearchFinds(e, k, bit, l, h, r.value);
    } else {
      Phase2SearchFails(e, k, bit, l, h);
    }
  }

  /**
   * Phase 2 of select: binary search with rank over [l0, h0), each probe
   * computed with the table walk. It finds the first position of the range
   * whose rank reaches k (h0 when none does), or fails when the rank table
   * stops short of h0 - 1.
   */
  method LocateBit(e: Engine, k: int, bit: int, l0: int, h0: int) returns (r: Result<int>)
    requires Valid(e) && (bit == 0 || bit == 1)
    requires 0 <= l0
    ensures r == Phase2Search(e, k, bit, l0, h0)
    ensures r.Success? ==> IsFirstReaching(e, k, bit, l0, h0, r.value)
    ensures r.Failure? ==> l0 < h0 && !RankDefined(e, h0 - 1)
  {
    r := SearchLoop(e, k, bit, l0, h0);
    Phase2SearchMeaning(e, k, bit, l0, h0);
  }

  /** The loop of phase 2: each probe keeps the half the search function keeps. */
  method SearchLoop(e: Engine, k: int, bit: int, l0: int, h0: int) returns (r: Result<int>)
    requires Valid(e) && (bit == 0 || bit == 1)
    requires 0 <= l0
    ensures r == Phase2Search(e, k, bit, l0, h0)
  {
    var l, h := l0, h0;
    while l < h
      invariant 0 <= l
      invariant Phase2Search(e, k, bit, l, h) == Phase2Search(e, k, bit, l0, h0)
      decreases h - l
    {
      var mid := l + (h - l) / 2;
      Phase2Step(e, k, bit, l, h, mid);
      var probe := RankProbe(e, mid, bit);
      if probe.Failure? {
        return Failure(probe.error);
      }
      if probe.value >= k {
        h := mid;
      } else {
        l := mid + 1;
      }
    }
    r := Success(l);
  }

  /**
   * The exclusive upper end of phase 2's range for superblock sb, as
   * corrected: the end of the superblock or bitSize, whichever comes first.
   */
  function Phase2End(e: Engine, sb: int): (h: int)
    ensures h <= e.bitSize && h <= (sb + 1) * 0x1_0000
    ensures h == e.bitSize || h == (sb + 1) * 0x1_0000
  {
    if (sb + 1) * 0x1_0000 < e.bitSize then (sb + 1) * 0x1_0000 else e.bitSize
  }

  /**
   * select as a function: phase 1, then phase 2 over the superblock it
   * picks, then l - 1 after stepping l back once when rank(l) is not exactly
   * k. A superblock of -1 (for k = 0) makes the first probe of phase 2
   * negative, so rank's assertion fails.
   */
  function SelectSpec(e: Engine, k: int, bit: int): (r: Result<int>)
    requires Valid(e) && (bit == 0 || bit == 1) && 0 <= k
  {
    var lo :- Phase1(e, k, bit);
    if lo < 0 then Failure(AssertionFailed)
    else
      var l :- Phase2Search(e, k, bit, lo * 0x1_0000, Phase2End(e, lo));
      SelectFinish(e, k, bit, l)
  }

  /** The last step of select: one more rank probe at l, then the step back. */
  function SelectFinish(e: Engine, k: int, bit: int, l: int): (r: Result<int>)
    requires (bit == 0 || bit == 1)
    ensures r.Success? <==> RankDefined(e, l)
    ensures r.Success? ==> r.value == if Count(e.segment, l, bit) == k then l - 1 else l - 2
  {
    var atL :- RankChecked(e, l, bit);
    Success(if atL == k then l - 1 else l - 2)
  }

  /** Once both phases succeed, select is decided by its last rank probe. */
  lemma SelectSpecFrom(e: Engine, k: int, bit: int, lo: int, l: int)
    requires Valid(e) && (bit == 0 || bit == 1) && 0 <= k
    requires Phase1(e, k, bit) == Success(lo) && 0 <= lo
    requires Phase2Search(e, k, bit, lo * 0x1_0000, Phase2End(e, lo)) == Success(l)
    ensures SelectSpec(e, k, bit) == SelectFinish(e, k, bit, l)
  {
  }

  /**
   * What select returns: a failure when phase 1 answers -1; otherwise, on
   * success, the first position l of the chosen superblock's range whose
   * count reaches k, less one when count(l) is exactly k and less two when
   * it overshoots.
   */
  lemma SelectSpecResult(e: Engine, k: int, bit: int)
    requires Valid(e) && (bit == 0 || bit == 1) && 0 <= k
    ensures Phase1(e, k, bit) == Success(-1) ==> SelectSpec(e, k, bit).Failure?
    ensures SelectSpec(e, k, bit).Success? ==>
      var sb := Phase1(e, k, bit).value;
      Phase1(e, k, bit).Success? && sb >= 0
      && var p2 := Phase2Search(e, k, bit, sb * 0x1_0000, Phase2End(e, sb));
      p2.Success?
      && IsFirstReaching(e, k, bit, sb * 0x1_0000, Phase2End(e, sb), p2.value)
      && RankDefined(e, p2.value)
      && SelectSpec(e, k, bit).value == (if Count(e.segment, p2.value, bit) == k then p2.value - 1 else p2.value - 2)
  {
    var p1 := Phase1(e, k, bit);
    if p1.Success? && p1.value >= 0 {
      var p2 := Phase2Search(e, k, bit, p1.value * 0x1_0000, Phase2End(e, p1.value));
      if p2.Success? {
        Phase2SearchFinds(e, k, bit, p1.value * 0x1_0000, Phase2End(e, p1.value), p2.value);
      }
    }
  }

  /** select: the two phases as loops, computing what SelectSpec describes. */
  method Select(e: Engine, k: int, bit: int) returns (r: Result<int>)
    requires Valid(e)
    requires bit == 0 || bit == 1
    requires 0 <= k < 8 * |e.segment|
    ensures r == SelectSpec(e, k, bit)
  {
    var phase1 := SuperblockOf(e, k, bit);
    if phase1.Failure? {
      return Failure(phase1.error);
    }
    var lo := phase1.value;
    if lo < 0 {
      return Failure(AssertionFailed);
    }
    var found := LocateBit(e, k, bit, lo * 0x1_0000, Phase2End(e, lo));
    if found.Failure? {
      return Failure(found.error);
    }
    r := FinishSelect(e, k, bit, found.value);
  }

  /** The last step of select, with the probe computed by the table walk. */
  method FinishSelect(e: Engine, k: int, bit: int, l0: int) returns (r: Result<int>)
    requires Valid(e) && (bit == 0 || bit == 1)
    ensures r == SelectFinish(e, k, bit, l0)
  {
    var l := l0;
    var atL := RankProbe(e, l, bit);
    if atL.Failure? {
      return Failure(atL.error);
    }
    if atL.value != k {
      l := l - 1;
    }
    return Success(l - 1);
  }

  /** Bytes used: the buffer, the rank table and the select table. */
  function MemoryUsage(e: Engine): nat
  {
    |e.segment| + RankRecordBytes * |e.supers| + RecordBytes * |e.selectTable|
  }
}

/**
 * The efficient bit vector answers rank, access and select exactly as the
 * naive reference does on the same buffer: both are measured against the
 * same prefix count.
 */
module Agreement {
  import opened Bytes
  import opened Results
  import opened BitPrefix
  import opened SelectCodec
  import Naive
  import Efficient
  import Build

  /** The naive vector over the efficient engine's buffer. */
  function Reference(e: Efficient.Engine): Naive.NaiveBitVector
  {
    Naive.NaiveBitVector(e.segment, e.bitSize)
  }

  /** access agrees with the reference on every index, failures included. */
  lemma AccessAgrees(e: Efficient.Engine, index: int)
    ensures Efficient.Access(e, index) == Naive.Access(Reference(e), index)
  {
  }

  /** rank agrees with the reference wherever the rank table covers the index. */
  lemma RankAgrees(e: Efficient.Engine, index: int, bit: int)
    requires Efficient.Valid(e) && (bit == 0 || bit == 1)
    requires 0 <= index < 8 * |e.segment| && index / 0x1_0000 < |e.supers|
    ensures Efficient.Rank(e, index, bit) == Naive.Rank(Reference(e), index, bit)
  {
  }

  /**
   * Stepping the index by one adds the bit at that index to the rank of ones,
   * and its complement to the rank of zeros: rank never decreases.
   */
  lemma {:induction false} RankStep(v: Naive.NaiveBitVector, index: int)
    requires 0 <= index && index + 1 < 8 * |v.segment|
    ensures Naive.Rank(v, index + 1, 1) - Naive.Rank(v, index, 1) == Naive.Access(v, index).value
    ensures Naive.Rank(v, index + 1, 0) - Naive.Rank(v, index, 0) == 1 - Naive.Access(v, index).value
  {
    CountStep(v.segment, index, 1);
    CountStep(v.segment, index, 0);
  }

  /**
   * The efficient engine costs the naive vector's buffer plus 296 bytes per
   * superblock record and 12 bytes per select record.
   */
  lemma MemoryOverhead(buf: seq<Byte>, bitSize: int)
    requires 0 <= bitSize < 0x8000_0000_0000_0000
    ensures Build.BuildSpec(buf, bitSize).Success?
    ensures var n := Efficient.CeilDiv(bitSize, 0x1_0000);
      Efficient.MemoryUsage(Build.BuildSpec(buf, bitSize).value)
        == Naive.MemoryUsage(Naive.NaiveBitVector(buf, bitSize)) + 296 * n + 12 * (n + 1)
  {
    Build.BuildMemoryUsage(buf, bitSize);
  }

  /** A buffer holding bitSize bits, a size the engine can be built for. */
  predicate Covers(buf: seq<Byte>, bitSize: int)
  {
    0 < bitSize <= 8 * |buf| && bitSize < 0x8000_0000_0000_0000
  }

  /** p is the first position (from 1, below bitSize) whose count of `bit` is k >= 1. */
  predicate FirstWithCount(buf: seq<Byte>, bitSize: int, k: int, bit: int, p: int)
  {
    (bit == 0 || bit == 1) && k >= 1 && 1 <= p < bitSize
    && Count(buf, p, bit) == k
    && forall i :: 1 <= i < p ==> Count(buf, i, bit) != k
  }

  /** The engine built over the buffer. */
  function Built(buf: seq<Byte>, bitSize: int): (e: Efficient.Engine)
    requires Covers(buf, bitSize)
    ensures Build.BuildSpec(buf, bitSize) == Success(e)
    ensures Efficient.Valid(e) && e.segment == buf && e.bitSize == bitSize
    ensures |e.supers| == Efficient.CeilDiv(bitSize, 0x1_0000)
  {
    Build.BuildValid(buf, bitSize);
    Build.BuildSpec(buf, bitSize).value
  }

  /** Counts move by at most one per step, so below the first count of k they stay below k. */
  lemma {:induction false} CountBelowFirst(buf: seq<Byte>, bit: int, k: int, p: nat, c: nat)
    requires bit == 0 || bit == 1
    requires k >= 1
    requires forall i :: 1 <= i < p ==> Count(buf, i, bit) != k
    requires c < p
    ensures Count(buf, c, bit) < k
    decreases c
  {
    if c > 0 {
      CountBelowFirst(buf, bit, k, p, c - 1);
      CountStep(buf, c - 1, bit);
    }
  }

  /** Exactly the positions from p on have a count of at least k. */
  lemma ReachesFrom(buf: seq<Byte>, bitSize: int, k: int, bit: int, p: int, c: nat)
    requires FirstWithCount(buf, bitSize, k, bit, p)
    ensures Count(buf, c, bit) >= k <==> c >= p
  {
    if c < p {
      CountBelowFirst(buf, bit, k, p, c);
    } else {
      CountMonotone(buf, p, c, bit);
    }
  }

  /** The trigger lists hold at most one superblock per superblock. */
  lemma TriggersAtMost(buf: seq<Byte>, bitSize: int, bit: int)
    requires Covers(buf, bitSize) && (bit == 0 || bit == 1)
    ensures var n := Efficient.CeilDiv(bitSize, 0x1_0000); |Build.Triggers(buf, 256 * n, bit)| <= n
  {
    var n := Efficient.CeilDiv(bitSize, 0x1_0000);
    var m := 0x1_0000 * n;
    Build.TriggersCount(buf, 256 * n, bit);
    assert 256 * (256 * n) == m;
    CountMonotone(buf, m, m, bit);
    assert Count(buf, m, bit) / 0x1_0000 <= n;
  }

  /** The select table has an entry for k / 65536: the trigger list is at least that long. */
  lemma TriggersCover(buf: seq<Byte>, bitSize: int, k: int, bit: int, p: int)
    requires Covers(buf, bitSize) && FirstWithCount(buf, bitSize, k, bit, p)
    ensures var n := Efficient.CeilDiv(bitSize, 0x1_0000);
      k / 0x1_0000 <= |Build.Triggers(buf, 256 * n, bit)|
  {
    var n := Efficient.CeilDiv(bitSize, 0x1_0000);
    var m := 0x1_0000 * n;
    Build.TriggersCount(buf, 256 * n, bit);
    assert 256 * (256 * n) == m;
    CountMonotone(buf, p, m, bit);
    assert k / 0x1_0000 <= Count(buf, m, bit) / 0x1_0000;
  }

  /**
   * What select relies on in an engine over buf: one superblock record per
   * 65536 bits, and select-table entries for `bit` that read the trigger
   * list followed by the sentinel n - 1.
   */
  predicate EngineOver(e: Efficient.Engine, buf: seq<Byte>, bitSize: int, bit: int)
  {
    Covers(buf, bitSize) && (bit == 0 || bit == 1)
    && var n := Efficient.CeilDiv(bitSize, 0x1_0000);
    var list := Build.Triggers(buf, 256 * n, bit);
    Efficient.Valid(e) && e.segment == buf && e.bitSize == bitSize && |e.supers| == n
    && |list| <= n && |e.selectTable| == n + 1
    && forall j :: 0 <= j <= |list| ==> GetSelect(e.selectTable[j], bit) == if j < |list| then list[j] else n - 1
  }

  /** The built engine is such an engine, for either bit. */
  lemma BuiltOver(buf: seq<Byte>, bitSize: int, bit: int)
    requires Covers(buf, bitSize) && (bit == 0 || bit == 1)
    ensures EngineOver(Built(buf, bitSize), buf, bitSize, bit)
  {
    TriggersAtMost(buf, bitSize, bit);
    BuiltTable(buf, bitSize, bit);
  }

  /** The built select table reads the trigger list for `bit`, then the sentinel n - 1. */
  lemma BuiltTable(buf: seq<Byte>, bitSize: int, bit: int)
    requires Covers(buf, bitSize) && (bit == 0 || bit == 1)
    ensures var n := Efficient.CeilDiv(bitSize, 0x1_0000); var list := Build.Triggers(buf, 256 * n, bit);
      var table := Built(buf, bitSize).selectTable;
      |table| == n + 1
      && forall j :: 0 <= j <= |list| && j <= n ==> GetSelect(table[j], bit) == if j < |list| then list[j] else n - 1
  {
    var n := Efficient.CeilDiv(bitSize, 0x1_0000);
    var list := Build.Triggers(buf, 256 * n, bit);
    var table := Built(buf, bitSize).selectTable;
    Build.BuildSelectEntry(buf, bitSize, 0, bit);
    forall j | 0 <= j <= |list| && j <= n
      ensures GetSelect(table[j], bit) == if j < |list| then list[j] else n - 1
    {
      Build.BuildSelectEntry(buf, bitSize, j, bit);
    }
  }

  /** A trigger superblock for block j + 1 of 65536 occurrences ends at or after p, when k lies in that block. */
  lemma TriggerAbove(buf: seq<Byte>, bitSize: int, k: int, bit: int, p: int, J: nat, j: nat)
    requires FirstWithCount(buf, bitSize, k, bit, p)
    requires j < |Build.Triggers(buf, J, bit)| && k < 0x1_0000 * (j + 1)
    ensures p <= 0x1_0000 * (Build.Triggers(buf, J, bit)[j] + 1)
  {
    var x := Build.Triggers(buf, J, bit)[j];
    Build.TriggerLocates(buf, J, j, bit);
    ReachesFrom(buf, bitSize, k, bit, p, 0x1_0000 * x + 0x1_0000);
  }

  /** A trigger superblock for an earlier block of 65536 occurrences starts before p. */
  lemma TriggerBelow(buf: seq<Byte>, bitSize: int, k: int, bit: int, p: int, J: nat, j: nat)
    requires FirstWithCount(buf, bitSize, k, bit, p)
    requires j < |Build.Triggers(buf, J, bit)| && 0x1_0000 * (j + 1) <= k
    ensures 0 <= Build.Triggers(buf, J, bit)[j] && 0x1_0000 * Build.Triggers(buf, J, bit)[j] < p
  {
    var x := Build.Triggers(buf, J, bit)[j];
    Build.TriggerLocates(buf, J, j, bit);
    ReachesFrom(buf, bitSize, k, bit, p, 0x1_0000 * x);
  }

  /** The upper table entry names a superblock at or past the one holding p. */
  lemma UpperEntry(e: Efficient.Engine, buf: seq<Byte>, bitSize: int, k: int, bit: int, p: int) returns (u: int)
    requires EngineOver(e, buf, bitSize, bit) && FirstWithCount(buf, bitSize, k, bit, p)
    ensures Efficient.SelectEntry(e, bit, k / 0x1_0000) == Success(u)
    ensures p <= 0x1_0000 * (u + 1)
  {
    var n := Efficient.CeilDiv(bitSize, 0x1_0000);
    var j := k / 0x1_0000;
    var list := Build.Triggers(buf, 256 * n, bit);
    TriggersCover(buf, bitSize, k, bit, p);
    assert GetSelect(e.selectTable[j], bit) == if j < |list| then list[j] else n - 1;
    if j < |list| {
      u := list[j];
      TriggerAbove(buf, bitSize, k, bit, p, 256 * n, j);
    } else {
      u := n - 1;
    }
  }

  /** The lower table entry names a superblock starting before p. */
  lemma LowerEntry(e: Efficient.Engine, buf: seq<Byte>, bitSize: int, k: int, bit: int, p: int) returns (lower: int)
    requires EngineOver(e, buf, bitSize, bit) && FirstWithCount(buf, bitSize, k, bit, p)
    ensures k / 0x1_0000 > 0 ==> Efficient.SelectEntry(e, bit, k / 0x1_0000 - 1).Success?
    ensures lower == if k / 0x1_0000 == 0 then 0 else Efficient.SelectEntry(e, bit, k / 0x1_0000 - 1).value
    ensures 0 <= lower && 0x1_0000 * lower < p
  {
    var n := Efficient.CeilDiv(bitSize, 0x1_0000);
    var j := k / 0x1_0000;
    if j == 0 {
      lower := 0;
    } else {
      var list := Build.Triggers(buf, 256 * n, bit);
      TriggersCover(buf, bitSize, k, bit, p);
      assert GetSelect(e.selectTable[j - 1], bit) == list[j - 1];
      lower := list[j - 1];
      TriggerBelow(buf, bitSize, k, bit, p, 256 * n, j - 1);
    }
  }

  /** Every superblock from `lower` up to the one holding p starts with a count below k. */
  lemma RanksBelow(e: Efficient.Engine, buf: seq<Byte>, bitSize: int, k: int, bit: int, p: int, lower: int, c0: int)
    requires EngineOver(e, buf, bitSize, bit) && FirstWithCount(buf, bitSize, k, bit, p)
    requires 0 <= lower && 0x1_0000 * (c0 - 1) < p && c0 <= |e.supers|
    ensures forall d :: lower <= d < c0 ==> Efficient.ToRank(e, d, bit) < k
  {
    forall d | lower <= d < c0
      ensures Efficient.ToRank(e, d, bit) < k
    {
      ReachesFrom(buf, bitSize, k, bit, p, 0x1_0000 * d);
    }
  }

  /** Phase 1 of select stops on the superblock holding position p - 1. */
  lemma SelectPhase1(e: Efficient.Engine, buf: seq<Byte>, bitSize: int, k: int, bit: int, p: int, lo: int)
    requires EngineOver(e, buf, bitSize, bit) && FirstWithCount(buf, bitSize, k, bit, p)
    requires lo == (p + 0xFFFF) / 0x1_0000 - 1
    ensures Efficient.Phase1(e, k, bit) == Success(lo)
  {
    var c0 := (p + 0xFFFF) / 0x1_0000;
    assert 0x1_0000 * (c0 - 1) < p <= 0x1_0000 * c0;
    var u := UpperEntry(e, buf, bitSize, k, bit, p);
    var lower := LowerEntry(e, buf, bitSize, k, bit, p);
    RanksBelow(e, buf, bitSize, k, bit, p, lower, c0);
    if c0 < |e.supers| {
      ReachesFrom(buf, bitSize, k, bit, p, 0x1_0000 * c0);
    }
    Efficient.Phase1At(e, k, bit, u, lower, c0);
  }

  /** The phase-2 window of the superblock holding p - 1 contains p, and rank is defined at its end. */
  lemma Phase2Window(e: Efficient.Engine, buf: seq<Byte>, bitSize: int, k: int, bit: int, p: int)
    requires EngineOver(e, buf, bitSize, bit) && FirstWithCount(buf, bitSize, k, bit, p)
    ensures var lo := (p + 0xFFFF) / 0x1_0000 - 1; var h := Efficient.Phase2End(e, lo);
      0 <= lo && lo * 0x1_0000 < p <= h && Efficient.RankDefined(e, h - 1)
  {
  }

  /** A first-reaching position in a window holding p is p itself. */
  lemma FirstReachingIsP(e: Efficient.Engine, buf: seq<Byte>, bitSize: int, k: int, bit: int, p: int, l0: int, h: int, v: int)
    requires e.segment == buf && FirstWithCount(buf, bitSize, k, bit, p)
    requires 0 <= l0 < p <= h && Efficient.IsFirstReaching(e, k, bit, l0, h, v)
    ensures v == p
  {
    ReachesFrom(buf, bitSize, k, bit, p, v);
  }

  /** Phase 2 of select, searching that superblock, finds p. */
  lemma SelectPhase2(e: Efficient.Engine, buf: seq<Byte>, bitSize: int, k: int, bit: int, p: int, lo: int)
    requires EngineOver(e, buf, bitSize, bit) && FirstWithCount(buf, bitSize, k, bit, p)
    requires lo == (p + 0xFFFF) / 0x1_0000 - 1
    ensures lo >= 0 && Efficient.Phase2Search(e, k, bit, lo * 0x1_0000, Efficient.Phase2End(e, lo)) == Success(p)
  {
    Phase2Window(e, buf, bitSize, k, bit, p);
    SearchFindsP(e, buf, bitSize, k, bit, p, lo * 0x1_0000, Efficient.Phase2End(e, lo));
  }

  /** The phase-2 search over a window holding p, with rank defined at its end, finds p. */
  lemma SearchFindsP(e: Efficient.Engine, buf: seq<Byte>, bitSize: int, k: int, bit: int, p: int, l0: int, h: int)
    requires EngineOver(e, buf, bitSize, bit) && FirstWithCount(buf, bitSize, k, bit, p)
    requires 0 <= l0 < p <= h && Efficient.RankDefined(e, h - 1)
    ensures Efficient.Phase2Search(e, k, bit, l0, h) == Success(p)
  {
    var r := Efficient.Phase2Search(e, k, bit, l0, h);
    if r.Failure? {
      Efficient.Phase2SearchFails(e, k, bit, l0, h);
    }
    Efficient.Phase2SearchFinds(e, k, bit, l0, h, r.value);
    FirstReachingIsP(e, buf, bitSize, k, bit, p, l0, h, r.value);
  }

  /** On such an engine, select answers p - 1. */
  lemma SelectOver(e: Efficient.Engine, buf: seq<Byte>, bitSize: int, k: int, bit: int, p: int)
    requires EngineOver(e, buf, bitSize, bit) && FirstWithCount(buf, bitSize, k, bit, p)
    ensures Efficient.SelectSpec(e, k, bit) == Success(p - 1)
  {
    var lo := (p + 0xFFFF) / 0x1_0000 - 1;
    SelectPhase1(e, buf, bitSize, k, bit, p, lo);
    SelectPhase2(e, buf, bitSize, k, bit, p, lo);
    Efficient.SelectSpecFrom(e, k, bit, lo, p);
    FinishAtP(e, buf, bitSize, k, bit, p);
  }

  /** Rank is defined at p and reaches k exactly there, so select steps back to p - 1. */
  lemma FinishAtP(e: Efficient.Engine, buf: seq<Byte>, bitSize: int, k: int, bit: int, p: int)
    requires EngineOver(e, buf, bitSize, bit) && FirstWithCount(buf, bitSize, k, bit, p)
    ensures Efficient.SelectFinish(e, k, bit, p) == Success(p - 1)
  {
    assert Efficient.RankDefined(e, p);
  }

  /** On the built engine, select answers p - 1. */
  lemma SelectOnBuilt(buf: seq<Byte>, bitSize: int, k: int, bit: int, p: int)
    requires Covers(buf, bitSize) && FirstWithCount(buf, bitSize, k, bit, p)
    ensures Efficient.SelectSpec(Built(buf, bitSize), k, bit) == Success(p - 1)
  {
    BuiltOver(buf, bitSize, bit);
    SelectOver(Built(buf, bitSize), buf, bitSize, k, bit, p);
  }

  /**
   * select agrees with the reference: when the naive scan answers r (so
   * position r + 1 is the first, from 1, whose count of `bit` is k), the
   * efficient select answers r as well, for every k >= 1.
   */
  lemma SelectAgrees(buf: seq<Byte>, bitSize: int, k: int, bit: int, r: int)
    requires 0 < bitSize <= 8 * |buf| && bitSize < 0x8000_0000_0000_0000
    requires bit == 0 || bit == 1
    requires k >= 1
    requires 0 <= r && r + 1 < bitSize && Count(buf, r + 1, bit) == k
    requires forall i :: 1 <= i <= r ==> Count(buf, i, bit) != k
    ensures Efficient.SelectSpec(Built(buf, bitSize), k, bit) == Success(r)
  {
    assert FirstWithCount(buf, bitSize, k, bit, r + 1);
    SelectOnBuilt(buf, bitSize, k, bit, r + 1);
  }
}

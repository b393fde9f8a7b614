/**
 * createEfficientBitVector: one pass over the blocks of the buffer fills the
 * rank table, collects the two select lists and writes them into the select
 * table. This module holds the corrected build; the build as written, and
 * the inputs on which it fails, are in module BuildAsWritten.
 */
module Build {
  import opened Results
  import opened Bytes
  import opened BitPrefix
  import opened RankIndex
  import opened SelectCodec
  import opened Efficient

  /** Two non-negative counts at most 65536 apart differ by at most one in their quotient by 65536. */
  lemma QuotientStep(a: int, b: int)
    requires 0 <= a <= b <= a + 0x1_0000
    ensures b / 0x1_0000 == a / 0x1_0000 || b / 0x1_0000 == a / 0x1_0000 + 1
    ensures a / 0x1_0000 + (if a / 0x1_0000 != b / 0x1_0000 then 1 else 0) == b / 0x1_0000
  {
    var q, r := a / 0x1_0000, a % 0x1_0000;
    var d := b - a;
    if r + d < 0x1_0000 {
      DivModUnique(b, 0x1_0000, q, r + d);
    } else {
      DivModUnique(b, 0x1_0000, q + 1, r + d - 0x1_0000);
    }
  }

  /** A count of crossed multiples of 65536 that grows by one per crossing stays the quotient. */
  lemma QuotientCount(n: int, m: int, a: int, b: int)
    requires 0 <= a <= b <= a + 0x1_0000
    requires n == a / 0x1_0000 && m == n + (if a / 0x1_0000 != b / 0x1_0000 then 1 else 0)
    ensures m == b / 0x1_0000
  {
    QuotientStep(a, b);
  }

  /** The ones in the first J blocks, summed block by block as the build's running count keeps them. */
  function RunningOnes(buf: seq<Byte>, J: nat): nat
  {
    if J == 0 then 0 else RunningOnes(buf, J - 1) + BlockCount(buf, J - 1)
  }

  lemma {:induction false} RunningOnesIsOnes(buf: seq<Byte>, J: nat)
    ensures RunningOnes(buf, J) == Ones(buf, 256 * J)
  {
    if J > 0 {
      RunningOnesIsOnes(buf, J - 1);
      BlockCountIsOnes(buf, J - 1);
    }
  }

  /**
   * The ones list over the first J blocks: block J - 1 appends its superblock
   * when the ones before it and the ones after it lie in different multiples
   * of 65536.
   */
  function OnesTriggers(buf: seq<Byte>, J: nat): seq<int>
  {
    if J == 0 then []
    else
      var crossed := RunningOnes(buf, J - 1) / 0x1_0000 != RunningOnes(buf, J) / 0x1_0000;
      OnesTriggers(buf, J - 1) + (if crossed then [(J - 1) / 256] else [])
  }

  /**
   * The zero list over the first J blocks, as corrected: the zeros before
   * block J - 1 against the zeros after it, `block + 256 - n`.
   */
  function ZeroTriggers(buf: seq<Byte>, J: nat): seq<int>
  {
    if J == 0 then []
    else
      var before := 256 * (J - 1) - RunningOnes(buf, J - 1);
      var after := 256 * J - RunningOnes(buf, J);
      ZeroTriggers(buf, J - 1) + (if before / 0x1_0000 != after / 0x1_0000 then [(J - 1) / 256] else [])
  }

  /**
   * One pass of the block loop extends both lists as their definitions say:
   * `before` and `after` are the running count of ones, or of zeros, before
   * and after block J.
   */
  lemma OnesStep(buf: seq<Byte>, J: nat, before: int, after: int, ones: seq<int>)
    requires before == RunningOnes(buf, J) && after == before + BlockCount(buf, J)
    requires ones == OnesTriggers(buf, J)
    ensures after == RunningOnes(buf, J + 1)
    ensures OnesTriggers(buf, J + 1) == ones + (if before / 0x1_0000 != after / 0x1_0000 then [J / 256] else [])
  {
  }

  lemma ZerosStep(buf: seq<Byte>, J: nat, before: int, after: int, zeros: seq<int>)
    requires before == 256 * J - RunningOnes(buf, J)
    requires after == 256 * J + 256 - (RunningOnes(buf, J) + BlockCount(buf, J))
    requires zeros == ZeroTriggers(buf, J)
    ensures ZeroTriggers(buf, J + 1) == zeros + (if before / 0x1_0000 != after / 0x1_0000 then [J / 256] else [])
  {
  }

  /** A select list: non-decreasing superblock indices, all below `bound`. */
  predicate SortedBelow(list: seq<int>, bound: int)
  {
    (forall i :: 0 <= i < |list| ==> 0 <= list[i] < bound)
    && (forall i, j :: 0 <= i <= j < |list| ==> list[i] <= list[j])
  }

  lemma {:induction false} RunningOnesMonotone(buf: seq<Byte>, J: nat, K: nat)
    requires J <= K
    ensures RunningOnes(buf, J) <= RunningOnes(buf, K)
    decreases K
  {
    if J < K {
      RunningOnesMonotone(buf, J, K - 1);
    }
  }

  lemma RunningOnesBound(buf: seq<Byte>, J: nat)
    ensures RunningOnes(buf, J) <= 256 * J
  {
    RunningOnesIsOnes(buf, J);
  }

  /** Block J - 1 adds one entry to the ones list exactly when it crosses a multiple of 65536 ones. */
  lemma OnesTriggersGrow(buf: seq<Byte>, J: nat)
    requires J > 0
    ensures |OnesTriggers(buf, J)| == |OnesTriggers(buf, J - 1)|
      + if RunningOnes(buf, J - 1) / 0x1_0000 != RunningOnes(buf, J) / 0x1_0000 then 1 else 0
  {
  }

  /** Block J - 1 adds one entry to the zero list exactly when it crosses a multiple of 65536 zeros. */
  lemma ZeroTriggersGrow(buf: seq<Byte>, J: nat)
    requires J > 0
    ensures |ZeroTriggers(buf, J)| == |ZeroTriggers(buf, J - 1)|
      + if (256 * (J - 1) - RunningOnes(buf, J - 1)) / 0x1_0000 != (256 * J - RunningOnes(buf, J)) / 0x1_0000 then 1 else 0
  {
  }

  lemma {:induction false} OnesTriggersLength(buf: seq<Byte>, J: nat)
    ensures |OnesTriggers(buf, J)| == RunningOnes(buf, J) / 0x1_0000
  {
    if J > 0 {
      OnesTriggersLength(buf, J - 1);
      assert RunningOnes(buf, J) == RunningOnes(buf, J - 1) + BlockCount(buf, J - 1);
      OnesTriggersGrow(buf, J);
      QuotientCount(|OnesTriggers(buf, J - 1)|, |OnesTriggers(buf, J)|, RunningOnes(buf, J - 1), RunningOnes(buf, J));
    }
  }

  lemma {:induction false} ZeroTriggersLength(buf: seq<Byte>, J: nat)
    ensures |ZeroTriggers(buf, J)| == (256 * J - RunningOnes(buf, J)) / 0x1_0000
  {
    if J > 0 {
      var n := |ZeroTriggers(buf, J - 1)|;
      var before := 256 * (J - 1) - RunningOnes(buf, J - 1);
      assert n == before / 0x1_0000 by {
        ZeroTriggersLength(buf, J - 1);
      }
      var after := 256 * J - RunningOnes(buf, J);
      assert 0 <= before <= after <= before + 256 by {
        RunningOnesBound(buf, J - 1);
        assert RunningOnes(buf, J) == RunningOnes(buf, J - 1) + BlockCount(buf, J - 1);
      }
      var m := |ZeroTriggers(buf, J)|;
      assert m == n + (if before / 0x1_0000 != after / 0x1_0000 then 1 else 0) by {
        ZeroTriggersGrow(buf, J);
      }
      QuotientCount(n, m, before, after);
    }
  }

  /** The ones list holds one entry per multiple of 65536 ones the first J blocks reach. */
  lemma OnesTriggersCount(buf: seq<Byte>, J: nat)
    ensures |OnesTriggers(buf, J)| == Ones(buf, 256 * J) / 0x1_0000
  {
    OnesTriggersLength(buf, J);
    RunningOnesIsOnes(buf, J);
  }

  /** The zero list holds one entry per multiple of 65536 zeros the first J blocks reach. */
  lemma ZeroTriggersCount(buf: seq<Byte>, J: nat)
    ensures |ZeroTriggers(buf, J)| == Count(buf, 256 * J, 0) / 0x1_0000
  {
    ZeroTriggersLength(buf, J);
    RunningOnesIsOnes(buf, J);
  }

  /** The list of superblocks select uses for `bit`. */
  function Triggers(buf: seq<Byte>, J: nat, bit: int): seq<int>
  {
    if bit == 1 then OnesTriggers(buf, J) else ZeroTriggers(buf, J)
  }

  /** The list for `bit` has one entry per full 65536 occurrences of `bit` in the first J blocks. */
  lemma TriggersCount(buf: seq<Byte>, J: nat, bit: int)
    requires bit == 0 || bit == 1
    ensures |Triggers(buf, J, bit)| == Count(buf, 256 * J, bit) / 0x1_0000
  {
    if bit == 1 {
      OnesTriggersCount(buf, J);
    } else {
      ZeroTriggersCount(buf, J);
    }
  }

  /** The ones list names superblocks of the first J blocks, in non-decreasing order. */
  lemma {:induction false} OnesTriggersSorted(buf: seq<Byte>, J: nat)
    ensures SortedBelow(OnesTriggers(buf, J), (J + 255) / 256)
  {
    if J > 0 {
      OnesTriggersSorted(buf, J - 1);
      assert (J + 254) / 256 <= (J + 255) / 256;
      assert (J - 1) / 256 < (J + 255) / 256;
    }
  }

  /** The zero list names superblocks of the first J blocks, in non-decreasing order. */
  lemma {:induction false} ZeroTriggersSorted(buf: seq<Byte>, J: nat)
    ensures SortedBelow(ZeroTriggers(buf, J), (J + 255) / 256)
  {
    if J > 0 {
      ZeroTriggersSorted(buf, J - 1);
      assert (J + 254) / 256 <= (J + 255) / 256;
      assert (J - 1) / 256 < (J + 255) / 256;
    }
  }

  lemma TriggersSorted(buf: seq<Byte>, J: nat)
    ensures SortedBelow(OnesTriggers(buf, J), (J + 255) / 256)
    ensures SortedBelow(ZeroTriggers(buf, J), (J + 255) / 256)
  {
    OnesTriggersSorted(buf, J);
    ZeroTriggersSorted(buf, J);
  }

  lemma {:induction false} OnesTriggerBrackets(buf: seq<Byte>, J: nat, j: nat)
    requires j < |OnesTriggers(buf, J)|
    ensures var x := OnesTriggers(buf, J)[j];
      0 <= x && RunningOnes(buf, 256 * x) < 0x1_0000 * (j + 1) <= RunningOnes(buf, 256 * x + 256)
  {
    var prev := OnesTriggers(buf, J - 1);
    if j < |prev| {
      OnesTriggerBrackets(buf, J - 1, j);
    } else {
      var a, b := RunningOnes(buf, J - 1), RunningOnes(buf, J);
      assert a <= b <= a + 256 by {
        assert b == a + BlockCount(buf, J - 1);
      }
      assert a / 0x1_0000 == j by {
        OnesTriggersLength(buf, J - 1);
      }
      OnesTriggersGrow(buf, J);
      CrossedMultiple(a, b, j);
      var x := (J - 1) / 256;
      assert OnesTriggers(buf, J)[j] == x;
      assert 256 * x <= J - 1 < 256 * x + 256;
      RunningOnesMonotone(buf, 256 * x, J - 1);
      RunningOnesMonotone(buf, J, 256 * x + 256);
    }
  }

  /** A count that moves into the next multiple of 65536 passes 65536 (j + 1) on the way. */
  lemma CrossedMultiple(a: int, b: int, j: int)
    requires 0 <= a <= b <= a + 0x1_0000
    requires a / 0x1_0000 == j && b / 0x1_0000 != j
    ensures a < 0x1_0000 * (j + 1) <= b
  {
    QuotientStep(a, b);
  }

  /**
   * Entry j of the ones list is the superblock holding the one of rank
   * 65536 (j + 1): fewer ones precede the superblock, at least that many end
   * inside it. This is the hint select starts from.
   */
  lemma OnesTriggerLocates(buf: seq<Byte>, J: nat, j: nat)
    requires j < |OnesTriggers(buf, J)|
    ensures var x := OnesTriggers(buf, J)[j];
      0 <= x && Ones(buf, 0x1_0000 * x) < 0x1_0000 * (j + 1) <= Ones(buf, 0x1_0000 * x + 0x1_0000)
  {
    OnesTriggerBrackets(buf, J, j);
    RunningOnesAtSuperblock(buf, OnesTriggers(buf, J)[j]);
  }

  /** The running count at the blocks that open superblocks x and x + 1. */
  lemma RunningOnesAtSuperblock(buf: seq<Byte>, x: nat)
    ensures RunningOnes(buf, 256 * x) == Ones(buf, 0x1_0000 * x)
    ensures RunningOnes(buf, 256 * x + 256) == Ones(buf, 0x1_0000 * x + 0x1_0000)
  {
    var a := 256 * x;
    RunningOnesIsOnes(buf, a);
    RunningOnesIsOnes(buf, a + 256);
    assert 256 * a == 0x1_0000 * x && 256 * (a + 256) == 0x1_0000 * x + 0x1_0000;
  }

  /** The zeros before block J: the bits of the first J blocks less their ones. */
  lemma ZerosBefore(buf: seq<Byte>, J: nat)
    ensures 256 * J - RunningOnes(buf, J) == Count(buf, 256 * J, 0)
  {
    RunningOnesIsOnes(buf, J);
  }

  lemma {:induction false} ZeroTriggerBrackets(buf: seq<Byte>, J: nat, j: nat)
    requires j < |ZeroTriggers(buf, J)|
    ensures var x := ZeroTriggers(buf, J)[j];
      0 <= x && Count(buf, 0x1_0000 * x, 0) < 0x1_0000 * (j + 1) <= Count(buf, 0x1_0000 * x + 0x1_0000, 0)
  {
    var prev := ZeroTriggers(buf, J - 1);
    ZeroTriggersGrow(buf, J);
    if j < |prev| {
      ZeroTriggerBrackets(buf, J - 1, j);
      assert ZeroTriggers(buf, J)[j] == prev[j];
    } else {
      ZeroTriggerAdded(buf, J, j);
    }
  }

  /**
   * When block J - 1 appends entry j to the zero list, the entry is that
   * block's superblock and the block carries the zero count across
   * 65536 (j + 1).
   */
  lemma ZeroCrossing(buf: seq<Byte>, J: nat, j: nat)
    requires J > 0 && j == |ZeroTriggers(buf, J - 1)| && j < |ZeroTriggers(buf, J)|
    ensures ZeroTriggers(buf, J)[j] == (J - 1) / 256
    ensures Count(buf, 256 * (J - 1), 0) < 0x1_0000 * (j + 1) <= Count(buf, 256 * J, 0)
  {
    ZeroTriggersLength(buf, J - 1);
    ZeroTriggersGrow(buf, J);
    ZeroCrossingCount(buf, J, j);
  }

  /** A block whose running zero count changes its multiple of 65536 crosses the next multiple. */
  lemma ZeroCrossingCount(buf: seq<Byte>, J: nat, j: nat)
    requires J > 0
    requires (256 * (J - 1) - RunningOnes(buf, J - 1)) / 0x1_0000 == j
    requires (256 * J - RunningOnes(buf, J)) / 0x1_0000 != j
    ensures Count(buf, 256 * (J - 1), 0) < 0x1_0000 * (j + 1) <= Count(buf, 256 * J, 0)
  {
    ZeroBlockBounds(buf, J);
    CrossedMultiple(256 * (J - 1) - RunningOnes(buf, J - 1), 256 * J - RunningOnes(buf, J), j);
    ZerosBefore(buf, J - 1);
    ZerosBefore(buf, J);
  }

  /** The entry block J - 1 appends to the zero list brackets the zero it crosses. */
  lemma ZeroTriggerAdded(buf: seq<Byte>, J: nat, j: nat)
    requires J > 0 && j == |ZeroTriggers(buf, J - 1)| && j < |ZeroTriggers(buf, J)|
    ensures var x := ZeroTriggers(buf, J)[j];
      0 <= x && Count(buf, 0x1_0000 * x, 0) < 0x1_0000 * (j + 1) <= Count(buf, 0x1_0000 * x + 0x1_0000, 0)
  {
    ZeroCrossing(buf, J, j);
    var x := (J - 1) / 256;
    assert 256 * x <= J - 1 < 256 * x + 256;
    WidenBracket(buf, x, J, 0x1_0000 * (j + 1), 0);
  }

  /** A count crossing t inside block J - 1 crosses it inside that block's superblock x. */
  lemma WidenBracket(buf: seq<Byte>, x: nat, J: nat, t: int, bit: int)
    requires bit == 0 || bit == 1
    requires 0 < J && 256 * x <= J - 1 < 256 * x + 256
    requires Count(buf, 256 * (J - 1), bit) < t <= Count(buf, 256 * J, bit)
    ensures Count(buf, 0x1_0000 * x, bit) < t <= Count(buf, 0x1_0000 * x + 0x1_0000, bit)
  {
    CountMonotone(buf, 0x1_0000 * x, 256 * (J - 1), bit);
    CountMonotone(buf, 256 * J, 0x1_0000 * x + 0x1_0000, bit);
  }

  /** A block adds between 0 and 256 zeros to the running zero count. */
  lemma ZeroBlockBounds(buf: seq<Byte>, J: nat)
    requires J > 0
    ensures var a := 256 * (J - 1) - RunningOnes(buf, J - 1);
      a <= 256 * J - RunningOnes(buf, J) <= a + 256
  {
    assert RunningOnes(buf, J) == RunningOnes(buf, J - 1) + BlockCount(buf, J - 1);
  }

  /**
   * Entry j of the list for `bit` is the superblock holding the occurrence of
   * rank 65536 (j + 1): fewer occurrences precede the superblock, at least
   * that many end inside it.
   */
  lemma TriggerLocates(buf: seq<Byte>, J: nat, j: nat, bit: int)
    requires bit == 0 || bit == 1
    requires j < |Triggers(buf, J, bit)|
    ensures var x := Triggers(buf, J, bit)[j];
      0 <= x && Count(buf, 0x1_0000 * x, bit) < 0x1_0000 * (j + 1) <= Count(buf, 0x1_0000 * x + 0x1_0000, bit)
  {
    if bit == 1 {
      var x := OnesTriggers(buf, J)[j];
      OnesTriggerLocates(buf, J, j);
      assert Count(buf, 0x1_0000 * x, 1) == Ones(buf, 0x1_0000 * x);
      assert Count(buf, 0x1_0000 * x + 0x1_0000, 1) == Ones(buf, 0x1_0000 * x + 0x1_0000);
    } else {
      assert Triggers(buf, J, bit) == ZeroTriggers(buf, J);
      ZeroTriggerBrackets(buf, J, j);
    }
  }

  /** The rank record the build writes for superblock s. */
  function SuperblockFor(buf: seq<Byte>, s: nat): Superblock
  {
    Superblock(RunningOnes(buf, 256 * s),
      seq(256, l requires 0 <= l < 256 => LocalCount(buf, s, l) % 256),
      seq(256, l requires 0 <= l < 256 => LocalCount(buf, s, l) == 256))
  }

  /** The record written for superblock s is the one rank reads it as. */
  lemma SuperblockForMatches(buf: seq<Byte>, s: nat)
    ensures Matches(buf, s, SuperblockFor(buf, s))
  {
    RunningOnesIsOnes(buf, 256 * s);
  }

  /** Entry j of a list, if the list has one, written into a record. */
  function WriteEntry(rec: Record, bit: int, list: seq<int>, j: nat): Record
    requires bit == 0 || bit == 1
    requires forall i :: 0 <= i < |list| ==> IsLong(list[i])
  {
    if j < |list| then SetSelect(rec, bit, list[j]) else rec
  }

  /** The select table of `capacity` records after both lists are written. */
  function SelectTable(capacity: nat, zeros: seq<int>, ones: seq<int>): (t: seq<Record>)
    requires forall i :: 0 <= i < |zeros| ==> IsLong(zeros[i])
    requires forall i :: 0 <= i < |ones| ==> IsLong(ones[i])
    ensures |t| == capacity
  {
    seq(capacity, j requires 0 <= j < capacity => WriteEntry(WriteEntry(EmptyRecord, 0, zeros, j), 1, ones, j))
  }

  /** Select list entries that the 48-bit record field holds. */
  predicate Storable(list: seq<int>)
  {
    forall i :: 0 <= i < |list| ==> -TwoTo47 <= list[i] < TwoTo47
  }

  /** Reading record j for a bit gives entry j of that bit's list, or 0 past its end. */
  lemma SelectTableReads(capacity: nat, zeros: seq<int>, ones: seq<int>, j: nat)
    requires Storable(zeros) && Storable(ones) && j < capacity
    ensures GetSelect(SelectTable(capacity, zeros, ones)[j], 0) == (if j < |zeros| then zeros[j] else 0)
    ensures GetSelect(SelectTable(capacity, zeros, ones)[j], 1) == (if j < |ones| then ones[j] else 0)
  {
    var r0 := WriteEntry(EmptyRecord, 0, zeros, j);
    EmptyRecordReadsZero(0);
    EmptyRecordReadsZero(1);
    if j < |zeros| {
      SelectRoundTrip(EmptyRecord, 0, zeros[j]);
      SelectIndependent(EmptyRecord, 0, 1, zeros[j]);
    }
    if j < |ones| {
      SelectRoundTrip(r0, 1, ones[j]);
      SelectIndependent(r0, 1, 0, ones[j]);
    }
  }

  /**
   * The corrected build: ceilDiv(bitSize, 65536) rank records, both lists
   * closed by the sentinel n - 1, and a select table of n + 1 records, the
   * most either list can need. A list that does not fit fails as the
   * out-of-bounds write would.
   */
  function BuildSpec(buf: seq<Byte>, bitSize: int): (r: Result<Engine>)
    requires 0 <= bitSize < TwoTo63
    ensures r.Success? ==> r.value.segment == buf && r.value.bitSize == bitSize
    ensures r.Success? ==> |r.value.supers| == CeilDiv(bitSize, 0x1_0000) && |r.value.selectTable| == |r.value.supers| + 1
  {
    var n := CeilDiv(bitSize, 0x1_0000);
    var ones := OnesTriggers(buf, 256 * n) + [n - 1];
    var zeros := ZeroTriggers(buf, 256 * n) + [n - 1];
    if |ones| > n + 1 || |zeros| > n + 1 then Failure(OutOfBounds)
    else
      TriggersSorted(buf, 256 * n);
      Success(Engine(buf, seq(n, s requires 0 <= s < n => SuperblockFor(buf, s)), SelectTable(n + 1, zeros, ones), bitSize))
  }

  /** Entry j of the table for `bit` reads the trigger list for `bit`, then the sentinel n - 1. */
  lemma BuildSelectEntry(buf: seq<Byte>, bitSize: int, j: nat, bit: int)
    requires 0 <= bitSize < TwoTo63 && (bit == 0 || bit == 1)
    requires j <= CeilDiv(bitSize, 0x1_0000)
    ensures BuildSpec(buf, bitSize).Success?
    ensures var n := CeilDiv(bitSize, 0x1_0000);
      var e := BuildSpec(buf, bitSize).value;
      var list := Triggers(buf, 256 * n, bit);
      |e.selectTable| == n + 1
      && (j < |list| ==> GetSelect(e.selectTable[j], bit) == list[j])
      && (j == |list| ==> GetSelect(e.selectTable[j], bit) == n - 1)
  {
    BuildSelectTable(buf, bitSize, j);
  }

  /** Neither list can outgrow n + 1 records: the corrected build never fails. */
  lemma BuildSucceeds(buf: seq<Byte>, bitSize: int)
    requires 0 <= bitSize < TwoTo63
    ensures BuildSpec(buf, bitSize).Success?
  {
    var n := CeilDiv(bitSize, 0x1_0000);
    OnesTriggersCount(buf, 256 * n);
    ZeroTriggersCount(buf, 256 * n);
    assert 256 * (256 * n) == 0x1_0000 * n;
  }

  /** A build of at least one bit yields an engine every query may use. */
  lemma BuildValid(buf: seq<Byte>, bitSize: int)
    requires 0 < bitSize < TwoTo63
    ensures BuildSpec(buf, bitSize).Success?
    ensures Valid(BuildSpec(buf, bitSize).value)
  {
    BuildSucceeds(buf, bitSize);
    var n := CeilDiv(bitSize, 0x1_0000);
    var ones := OnesTriggers(buf, 256 * n) + [n - 1];
    var zeros := ZeroTriggers(buf, 256 * n) + [n - 1];
    TriggersSorted(buf, 256 * n);
    assert (256 * n + 255) / 256 == n;
    var e := BuildSpec(buf, bitSize).value;
    assert e.selectTable == SelectTable(n + 1, zeros, ones);
    forall j | 0 <= j < |e.selectTable|
      ensures 0 <= GetSelect(e.selectTable[j], 0) < n && 0 <= GetSelect(e.selectTable[j], 1) < n
    {
      SelectTableReads(n + 1, zeros, ones, j);
    }
    forall s | 0 <= s < n
      ensures Matches(buf, s, e.supers[s])
    {
      assert e.supers[s] == SuperblockFor(buf, s);
      SuperblockForMatches(buf, s);
    }
  }

  /**
   * Record j of the built select table holds entry j of each list, and the
   * record just past a list's last entry holds the sentinel n - 1.
   */
  lemma BuildSelectTable(buf: seq<Byte>, bitSize: int, j: nat)
    requires 0 <= bitSize < TwoTo63
    requires j <= CeilDiv(bitSize, 0x1_0000)
    ensures BuildSpec(buf, bitSize).Success?
    ensures var n := CeilDiv(bitSize, 0x1_0000);
      var e := BuildSpec(buf, bitSize).value;
      var ones := OnesTriggers(buf, 256 * n);
      var zeros := ZeroTriggers(buf, 256 * n);
      |e.selectTable| == n + 1
      && (j < |ones| ==> GetSelect(e.selectTable[j], 1) == ones[j])
      && (j == |ones| ==> GetSelect(e.selectTable[j], 1) == n - 1)
      && (j < |zeros| ==> GetSelect(e.selectTable[j], 0) == zeros[j])
      && (j == |zeros| ==> GetSelect(e.selectTable[j], 0) == n - 1)
  {
    BuildSucceeds(buf, bitSize);
    var n := CeilDiv(bitSize, 0x1_0000);
    var ones := OnesTriggers(buf, 256 * n) + [n as int - 1];
    var zeros := ZeroTriggers(buf, 256 * n) + [n as int - 1];
    TriggersSorted(buf, 256 * n);
    assert (256 * n + 255) / 256 == n;
    assert BuildSpec(buf, bitSize).value.selectTable == SelectTable(n + 1, zeros, ones);
    SelectTableReads(n + 1, zeros, ones, j);
  }

  /** The stored ones counts never decrease from one superblock to the next. */
  lemma OnesBeforeMonotone(buf: seq<Byte>, bitSize: int, s: nat, t: nat)
    requires 0 <= bitSize < TwoTo63
    requires BuildSpec(buf, bitSize).Success?
    requires s <= t < |BuildSpec(buf, bitSize).value.supers|
    ensures BuildSpec(buf, bitSize).value.supers[s].onesBefore <= BuildSpec(buf, bitSize).value.supers[t].onesBefore
  {
    RunningOnesMonotone(buf, 256 * s, 256 * t);
  }

  /** The select table costs 12 bytes a record on top of the rank table's 296 a superblock. */
  lemma BuildMemoryUsage(buf: seq<Byte>, bitSize: int)
    requires 0 <= bitSize < TwoTo63
    ensures BuildSpec(buf, bitSize).Success?
    ensures MemoryUsage(BuildSpec(buf, bitSize).value)
      == |buf| + 296 * CeilDiv(bitSize, 0x1_0000) + 12 * (CeilDiv(bitSize, 0x1_0000) + 1)
  {
    BuildSucceeds(buf, bitSize);
  }

  /**
   * BitSet.toLongArray on a set of block indices: as many 64-bit words as
   * reach the highest member, word w holding members 64 w .. 64 w + 63.
   */
  function LongArray(bits: set<int>): (words: seq<seq<bool>>)
    requires forall b :: b in bits ==> 0 <= b < 256
    ensures |words| <= 4
    ensures forall w :: 0 <= w < |words| ==> |words[w]| == 64
    ensures forall b :: b in bits ==> b / 64 < |words|
    ensures forall w, i :: 0 <= w < |words| && 0 <= i < 64 ==> (words[w][i] <==> 64 * w + i in bits)
  {
    var used :=
      if exists b :: b in bits && b >= 192 then 4
      else if exists b :: b in bits && b >= 128 then 3
      else if exists b :: b in bits && b >= 64 then 2
      else if bits != {} then 1
      else 0;
    seq(used, w requires 0 <= w < used => seq(64, i requires 0 <= i < 64 => 64 * w + i in bits))
  }

  /**
   * flushOverflowBitset: the words are copied into the zeroed 32-byte
   * overflow area of the record, the bytes past them stay zero, and the
   * flag of block l reads bit l of that area. Every member of the set, and
   * only those, comes out set; the set is then cleared.
   */
  method FlushOverflowBitset(overflow: set<int>) returns (flags: seq<bool>, cleared: set<int>)
    requires forall b :: b in overflow ==> 0 <= b < 256
    ensures |flags| == 256
    ensures forall l :: 0 <= l < 256 ==> (flags[l] <==> l in overflow)
    ensures cleared == {}
  {
    var words := LongArray(overflow);
    flags := seq(256, l requires 0 <= l < 256 => l / 64 < |words| && words[l / 64][l % 64]);
    cleared := {};
  }

  /**
   * The block loop of one superblock: each 256-bit block is counted, its
   * count kept modulo 256, a full block added to the overflow set, and the
   * select lists extended when the running ones or zeros count passes a
   * multiple of 65536.
   */
  method ScanSuperblock(buf: seq<Byte>, superBlock: nat, onesSum0: int, ones0: seq<int>, zeros0: seq<int>)
    returns (blocks: seq<Byte>, overflow: set<int>, onesSum: int, ones: seq<int>, zeros: seq<int>)
    requires onesSum0 == RunningOnes(buf, 256 * superBlock)
    requires ones0 == OnesTriggers(buf, 256 * superBlock)
    requires zeros0 == ZeroTriggers(buf, 256 * superBlock)
    ensures blocks == SuperblockFor(buf, superBlock).blocks
    ensures forall l :: l in overflow <==> 0 <= l < 256 && LocalCount(buf, superBlock, l) == 256
    ensures forall l :: l in overflow ==> 0 <= l < 256
    ensures onesSum == RunningOnes(buf, 256 * (superBlock + 1))
    ensures ones == OnesTriggers(buf, 256 * (superBlock + 1))
    ensures zeros == ZeroTriggers(buf, 256 * (superBlock + 1))
  {
    blocks, overflow, onesSum, ones, zeros := [], {}, onesSum0, ones0, zeros0;
    var block := superBlock * 0x1_0000;
    var local := 0;
    ghost var J := 256 * superBlock;
    while local < 256
      invariant 0 <= local <= 256
      invariant J == 256 * superBlock + local && block == 256 * J
      invariant |blocks| == local
      invariant forall l :: 0 <= l < local ==> blocks[l] == LocalCount(buf, superBlock, l) % 256
      invariant forall l :: l in overflow <==> 0 <= l < local && LocalCount(buf, superBlock, l) == 256
      invariant onesSum == RunningOnes(buf, J)
      invariant ones == OnesTriggers(buf, J)
      invariant zeros == ZeroTriggers(buf, J)
    {
      var count := BlockCount(buf, 256 * superBlock + local);
      assert count == LocalCount(buf, superBlock, local);
      assert J / 256 == superBlock;
      if count == 256 {
        overflow := overflow + {local};
      }
      blocks := blocks + [count % 256];
      var next := onesSum + count;
      OnesStep(buf, J, onesSum, next, ones);
      if onesSum / 0x1_0000 != next / 0x1_0000 {
        ones := ones + [superBlock];
      }
      var zerosBefore, zerosAfter := block - onesSum, block + 256 - next;
      ZerosStep(buf, J, zerosBefore, zerosAfter, zeros);
      if zerosBefore / 0x1_0000 != zerosAfter / 0x1_0000 {
        zeros := zeros + [superBlock];
      }
      onesSum := next;
      block := block + 256;
      local := local + 1;
      J := J + 1;
    }
    assert J == 256 * (superBlock + 1);
  }

  /** The record the superblock loop assembles is the one its specification names. */
  lemma SuperblockRecord(buf: seq<Byte>, s: nat, onesBefore: int, blocks: seq<Byte>, flags: seq<bool>)
    requires onesBefore == RunningOnes(buf, 256 * s)
    requires blocks == SuperblockFor(buf, s).blocks
    requires |flags| == 256 && forall l :: 0 <= l < 256 ==> (flags[l] <==> LocalCount(buf, s, l) == 256)
    ensures Superblock(onesBefore, blocks, flags) == SuperblockFor(buf, s)
  {
    assert flags == SuperblockFor(buf, s).overflow;
  }

  /** Appending the record of the next superblock keeps the table a prefix of the built one. */
  lemma SupersExtend(buf: seq<Byte>, supers: seq<Superblock>, next: Superblock)
    requires forall t :: 0 <= t < |supers| ==> supers[t] == SuperblockFor(buf, t)
    requires next == SuperblockFor(buf, |supers|)
    ensures forall t :: 0 <= t < |supers| + 1 ==> (supers + [next])[t] == SuperblockFor(buf, t)
  {
  }

  /**
   * The superblock loop of createEfficientBitVector: store the ones before
   * each superblock, run its block loop, then flush and clear the overflow
   * set into the record.
   */
  method FillRankTable(buf: seq<Byte>, n: nat) returns (supers: seq<Superblock>, ones: seq<int>, zeros: seq<int>)
    ensures supers == seq(n, s requires 0 <= s < n => SuperblockFor(buf, s))
    ensures ones == OnesTriggers(buf, 256 * n)
    ensures zeros == ZeroTriggers(buf, 256 * n)
  {
    supers, ones, zeros := [], [], [];
    var onesSum := 0;
    var overflow: set<int> := {};
    var superBlock := 0;
    while superBlock < n
      invariant 0 <= superBlock <= n
      invariant |supers| == superBlock
      invariant forall t :: 0 <= t < superBlock ==> supers[t] == SuperblockFor(buf, t)
      invariant onesSum == RunningOnes(buf, 256 * superBlock)
      invariant ones == OnesTriggers(buf, 256 * superBlock)
      invariant zeros == ZeroTriggers(buf, 256 * superBlock)
      invariant overflow == {}
    {
      var onesBefore := onesSum;
      var blocks, flags;
      blocks, overflow, onesSum, ones, zeros := ScanSuperblock(buf, superBlock, onesSum, ones, zeros);
      flags, overflow := FlushOverflowBitset(overflow);
      SuperblockRecord(buf, superBlock, onesBefore, blocks, flags);
      SupersExtend(buf, supers, Superblock(onesBefore, blocks, flags));
      supers := supers + [Superblock(onesBefore, blocks, flags)];
      superBlock := superBlock + 1;
    }
  }

  /**
   * createEfficientBitVector, corrected: fill the rank table, close both
   * lists with the sentinel n - 1, and write them into a select table of
   * n + 1 records.
   */
  method Create(buf: seq<Byte>, bitSize: int) returns (r: Result<Engine>)
    requires 0 <= bitSize < TwoTo63
    ensures r == BuildSpec(buf, bitSize)
  {
    var n: int := CeilDiv(bitSize, 0x1_0000);
    var supers, ones, zeros := FillRankTable(buf, n);
    ones := ones + [n - 1];
    zeros := zeros + [n - 1];
    if |ones| > n + 1 || |zeros| > n + 1 {
      return Failure(OutOfBounds);
    }
    TriggersSorted(buf, 256 * n);
    return Success(Engine(buf, supers, SelectTable(n + 1, zeros, ones), bitSize));
  }
}

/**
 * createEfficientBitVector and the step back of select as written, next to
 * the corrected definitions the rest of the model uses, with the inputs on
 * which they part ways.
 *
 * 1. The select table is allocated with n = ceilDiv(bitSize, 65536) records,
 *    but each list holds up to n + 1 entries counting its sentinel.
 * 2. The zero-list trigger compares `(block - onesSum) / 65536` with
 *    `(block - n) / 65536`: it subtracts the block's ones from the zeros
 *    before the block instead of adding its zeros. It fires when a block's
 *    ones take that difference below a multiple of 65536, not where the zero
 *    count crosses one: a crossing is recorded at a later block that holds
 *    more ones than the zeros past the multiple, once for each such block,
 *    or never when no later block does.
 * 3. The step back after phase 1 of select reads the rank record of
 *    superblock lo when lo == bitSize / 65536, which for a bitSize that is a
 *    multiple of 65536 is one past the rank table.
 * 4. Phase 2 of select searches up to bitSize + 1 exclusive, so it can probe
 *    rank(bitSize), which fails rank's assertion when the buffer holds
 *    exactly bitSize bits.
 */
module BuildAsWritten {
  import opened Results
  import opened Bytes
  import opened BitPrefix
  import opened RankIndex
  import opened SelectCodec
  import opened Efficient
  import opened Build
  import Agreement

  /** The zero-list trigger of line 150 for a block at bit `block`, with the ones before and after it. */
  predicate LineCrossed(block: int, onesSum: int, n: int)
  {
    JavaDiv(block - onesSum, 0x1_0000) != JavaDiv(block - n, 0x1_0000)
  }

  /** The zero list over the first J blocks with the trigger exactly as line 150 states it. */
  function ZeroTriggersAsWritten(buf: seq<Byte>, J: nat): seq<int>
  {
    if J == 0 then []
    else
      var crossed := LineCrossed(256 * (J - 1), RunningOnes(buf, J - 1), RunningOnes(buf, J));
      ZeroTriggersAsWritten(buf, J - 1) + (if crossed then [(J - 1) / 256] else [])
  }

  /** One block's step of the list as written. */
  lemma ZeroTriggersAsWrittenStep(buf: seq<Byte>, J: nat)
    requires J > 0
    ensures ZeroTriggersAsWritten(buf, J) == ZeroTriggersAsWritten(buf, J - 1)
      + (if LineCrossed(256 * (J - 1), RunningOnes(buf, J - 1), RunningOnes(buf, J)) then [(J - 1) / 256] else [])
  {
  }

  lemma {:induction false} ZeroTriggersAsWrittenSorted(buf: seq<Byte>, J: nat)
    ensures SortedBelow(ZeroTriggersAsWritten(buf, J), (J + 255) / 256)
  {
    if J > 0 {
      ZeroTriggersAsWrittenSorted(buf, J - 1);
      assert (J + 254) / 256 <= (J + 255) / 256;
      assert (J - 1) / 256 < (J + 255) / 256;
    }
  }

  /**
   * createEfficientBitVector as written: a select table of n records and the
   * zero list of line 150. A write past record n - 1 fails.
   */
  function BuildAsWritten(buf: seq<Byte>, bitSize: int): (r: Result<Engine>)
    requires 0 <= bitSize < TwoTo63
    ensures r.Success? ==> |r.value.selectTable| == CeilDiv(bitSize, 0x1_0000)
    ensures r.Failure? <==>
      |OnesTriggers(buf, 256 * CeilDiv(bitSize, 0x1_0000))| >= CeilDiv(bitSize, 0x1_0000)
      || |ZeroTriggersAsWritten(buf, 256 * CeilDiv(bitSize, 0x1_0000))| >= CeilDiv(bitSize, 0x1_0000)
  {
    var n := CeilDiv(bitSize, 0x1_0000);
    var ones := OnesTriggers(buf, 256 * n) + [n - 1];
    var zeros := ZeroTriggersAsWritten(buf, 256 * n) + [n - 1];
    if |ones| > n || |zeros| > n then Failure(OutOfBounds)
    else
      TriggersSorted(buf, 256 * n);
      ZeroTriggersAsWrittenSorted(buf, 256 * n);
      Success(Engine(buf, seq(n, s requires 0 <= s < n => SuperblockFor(buf, s)), SelectTable(n, zeros, ones), bitSize))
  }

  /**
   * The ones list alone overflows the n records exactly when every one of
   * the 65536 n bits is set: only then does it reach n entries before its
   * sentinel.
   */
  lemma OnesListOverflows(buf: seq<Byte>, bitSize: int)
    requires 0 <= bitSize < TwoTo63
    ensures var n := CeilDiv(bitSize, 0x1_0000);
      |OnesTriggers(buf, 256 * n)| >= n <==> Ones(buf, 0x1_0000 * n) == 0x1_0000 * n
  {
    var n := CeilDiv(bitSize, 0x1_0000);
    OnesTriggersCount(buf, 256 * n);
    assert 256 * (256 * n) == 0x1_0000 * n;
    var o := Ones(buf, 0x1_0000 * n);
    assert o < 0x1_0000 * n ==> o / 0x1_0000 < n;
  }

  /** The number of set bits in a buffer of equal bytes. */
  lemma UniformOnes(buf: seq<Byte>, v: Byte)
    requires forall p :: 0 <= p < |buf| ==> buf[p] == v
    ensures Ones(buf, 8 * |buf|) == |buf| * Popcount(v)
  {
    ByteOnesIsOnes(buf, 0, |buf|);
    ByteOnesUniform(buf, 0, |buf|, v);
  }

  /**
   * Finding 1: 8192 bytes of 0xFF, 65536 bits. The ones list gets its one
   * entry at the last block and its sentinel after it, two entries for the
   * one record allocated; the corrected build succeeds.
   */
  lemma AllOnesBuildFails(buf: seq<Byte>)
    requires |buf| == 8192 && forall p :: 0 <= p < |buf| ==> buf[p] == 255
    ensures |OnesTriggers(buf, 256)| == 1
    ensures BuildAsWritten(buf, 0x1_0000) == Failure(OutOfBounds)
    ensures BuildSpec(buf, 0x1_0000).Success?
  {
    FullAndEmptyByte(8);
    UniformOnes(buf, 255);
    OnesTriggersCount(buf, 256);
    BuildSucceeds(buf, 0x1_0000);
  }

  /** A byte range lying wholly past the buffer counts no ones. */
  lemma {:induction false} ByteOnesPastEnd(buf: seq<Byte>, a: nat, b: nat)
    requires |buf| <= a
    ensures ByteOnes(buf, a, b) == 0
    decreases b
  {
    if b > a {
      ByteOnesPastEnd(buf, a, b - 1);
    }
  }

  /** 8192 zero bytes, then 96 bytes of 0xFF: one superblock of zeros, then three full blocks. */
  predicate ZerosThenOnes(buf: seq<Byte>)
  {
    |buf| == 8288
    && (forall p :: 0 <= p < 8192 ==> buf[p] == 0)
    && (forall p :: 8192 <= p < 8288 ==> buf[p] == 255)
  }

  lemma BlockCounts(buf: seq<Byte>, j: nat)
    requires ZerosThenOnes(buf)
    ensures BlockCount(buf, j) == if 256 <= j < 259 then 256 else 0
  {
    FullAndEmptyByte(8);
    if j < 256 {
      ByteOnesUniform(buf, 32 * j, 32 * j + 32, 0);
    } else if j < 259 {
      ByteOnesUniform(buf, 32 * j, 32 * j + 32, 255);
    } else {
      ByteOnesPastEnd(buf, 32 * j, 32 * j + 32);
    }
  }

  /** No ones before the end of the first superblock. */
  lemma {:induction false} RunningOnesEarly(buf: seq<Byte>, J: nat)
    requires ZerosThenOnes(buf) && J <= 256
    ensures RunningOnes(buf, J) == 0
  {
    if J > 0 {
      RunningOnesEarly(buf, J - 1);
      BlockCounts(buf, J - 1);
    }
  }

  /** 256 ones for each of the three full blocks passed. */
  lemma {:induction false} RunningOnesFull(buf: seq<Byte>, J: nat)
    requires ZerosThenOnes(buf) && 256 <= J <= 259
    ensures RunningOnes(buf, J) == 256 * (J - 256)
  {
    if J == 256 {
      RunningOnesEarly(buf, J);
    } else {
      RunningOnesFull(buf, J - 1);
      BlockCounts(buf, J - 1);
    }
  }

  /** All 768 ones lie before block 259. */
  lemma {:induction false} RunningOnesAfter(buf: seq<Byte>, J: nat)
    requires ZerosThenOnes(buf) && 259 <= J
    ensures RunningOnes(buf, J) == 768
  {
    if J == 259 {
      RunningOnesFull(buf, J);
    } else {
      RunningOnesAfter(buf, J - 1);
      BlockCounts(buf, J - 1);
    }
  }

  /** The ones before block J in that buffer. */
  function OnesProfile(J: nat): nat
  {
    if J <= 256 then 0 else if J <= 259 then 256 * (J - 256) else 768
  }

  /** The running ones count of a buffer follows that profile. */
  ghost predicate HasProfile(buf: seq<Byte>)
  {
    forall J: nat :: RunningOnes(buf, J) == OnesProfile(J)
  }

  lemma ZerosThenOnesProfile(buf: seq<Byte>)
    requires ZerosThenOnes(buf)
    ensures HasProfile(buf)
  {
    forall J: nat
      ensures RunningOnes(buf, J) == OnesProfile(J)
    {
      if J <= 256 {
        RunningOnesEarly(buf, J);
      } else if J <= 259 {
        RunningOnesFull(buf, J);
      } else {
        RunningOnesAfter(buf, J);
      }
    }
  }

  /** One block's step of the corrected zero list. */
  lemma ZeroTriggersStep(buf: seq<Byte>, J: nat)
    requires J > 0
    ensures ZeroTriggers(buf, J) == ZeroTriggers(buf, J - 1)
      + (if (256 * (J - 1) - RunningOnes(buf, J - 1)) / 0x1_0000 != (256 * J - RunningOnes(buf, J)) / 0x1_0000 then [(J - 1) / 256] else [])
  {
  }

  /** No block of the first superblock but the last reaches 65536 zeros. */
  lemma {:induction false} ZeroListEarly(buf: seq<Byte>, J: nat)
    requires HasProfile(buf) && J < 256
    ensures ZeroTriggers(buf, J) == []
  {
    if J > 0 {
      ZeroListEarly(buf, J - 1);
      assert RunningOnes(buf, J - 1) == 0 && RunningOnes(buf, J) == 0;
      ZeroTriggersStep(buf, J);
      assert (256 * (J - 1)) / 0x1_0000 == 0 && (256 * J) / 0x1_0000 == 0;
    }
  }

  /** The corrected zero list records the 65536th zero, in superblock 0, and nothing after it. */
  lemma {:induction false} ZeroListLate(buf: seq<Byte>, J: nat)
    requires HasProfile(buf) && 256 <= J <= 512
    ensures ZeroTriggers(buf, J) == [0]
  {
    var prev := ZeroTriggers(buf, J - 1);
    assert prev == if J == 256 then [] else [0] by {
      if J == 256 {
        ZeroListEarly(buf, J - 1);
      } else {
        ZeroListLate(buf, J - 1);
      }
    }
    var a, b := RunningOnes(buf, J - 1), RunningOnes(buf, J);
    assert a == OnesProfile(J - 1) && b == OnesProfile(J);
    var before, after := 256 * (J - 1) - a, 256 * J - b;
    var crossed := before / 0x1_0000 != after / 0x1_0000;
    assert crossed <==> J == 256 by {
      if J == 256 {
        assert before == 0xFF00 && after == 0x1_0000;
      } else if J <= 259 {
        assert before == after;
      } else {
        assert 0x1_0000 <= before <= after < 0x2_0000;
        assert before / 0x1_0000 == 1 == after / 0x1_0000;
      }
    }
    ZeroTriggersStep(buf, J);
    assert ZeroTriggers(buf, J) == prev + (if crossed then [(J - 1) / 256] else []);
  }

  /** As written, nothing is recorded while the ones count stays put. */
  lemma {:induction false} ZeroListAsWrittenEarly(buf: seq<Byte>, J: nat)
    requires HasProfile(buf) && J <= 256
    ensures ZeroTriggersAsWritten(buf, J) == []
  {
    if J > 0 {
      ZeroListAsWrittenEarly(buf, J - 1);
      assert RunningOnes(buf, J - 1) == 0 && RunningOnes(buf, J) == 0;
      ZeroTriggersAsWrittenStep(buf, J);
    }
  }

  /** As written, each full block records superblock 1. */
  lemma {:induction false} ZeroListAsWrittenFull(buf: seq<Byte>, J: nat)
    requires HasProfile(buf) && 256 <= J <= 259
    ensures ZeroTriggersAsWritten(buf, J) == [1, 1, 1][..J - 256]
  {
    if J == 256 {
      ZeroListAsWrittenEarly(buf, J);
    } else {
      var prev := ZeroTriggersAsWritten(buf, J - 1);
      assert prev == [1, 1, 1][..J - 257] by {
        ZeroListAsWrittenFull(buf, J - 1);
      }
      var a, b := RunningOnes(buf, J - 1), RunningOnes(buf, J);
      assert a == OnesProfile(J - 1) && b == OnesProfile(J);
      assert 256 * (J - 1) - a == 0x1_0000 && 256 * (J - 1) - b == 0xFF00;
      assert LineCrossed(256 * (J - 1), a, b);
      ZeroTriggersAsWrittenStep(buf, J);
      assert prev + [1] == [1, 1, 1][..J - 256];
    }
  }

  /** As written, nothing more is recorded once the ones are all counted. */
  lemma {:induction false} ZeroListAsWrittenAfter(buf: seq<Byte>, J: nat)
    requires HasProfile(buf) && 259 <= J
    ensures ZeroTriggersAsWritten(buf, J) == [1, 1, 1]
  {
    if J == 259 {
      ZeroListAsWrittenFull(buf, J);
    } else {
      ZeroListAsWrittenAfter(buf, J - 1);
      assert RunningOnes(buf, J - 1) == 768 == RunningOnes(buf, J);
      ZeroTriggersAsWrittenStep(buf, J);
    }
  }

  /**
   * Finding 2: 8192 zero bytes then 96 bytes of 0xFF, 66304 bits. The
   * buffer has one multiple of 65536 zeros, reached in superblock 0. The
   * corrected list records it there; the list of line 150 names superblock 1
   * three times, more entries than even n + 1 records hold, so the build
   * fails.
   */
  lemma ZeroListAsWrittenWrong(buf: seq<Byte>)
    requires ZerosThenOnes(buf)
    ensures Count(buf, 0x2_0000, 0) / 0x1_0000 == 1
    ensures ZeroTriggers(buf, 512) == [0]
    ensures ZeroTriggersAsWritten(buf, 512) == [1, 1, 1]
    ensures |ZeroTriggersAsWritten(buf, 512) + [1]| > CeilDiv(66304, 0x1_0000) + 1
    ensures BuildAsWritten(buf, 66304) == Failure(OutOfBounds)
    ensures BuildSpec(buf, 66304).Success?
  {
    ZerosThenOnesProfile(buf);
    ZeroListLate(buf, 512);
    ZeroListAsWrittenAfter(buf, 512);
    ZeroTriggersCount(buf, 512);
    BuildSucceeds(buf, 66304);
  }

  /**
   * The step back after phase 1 as written: step back when lo exceeds
   * bitSize / 65536, otherwise read the rank record of lo, which fails past
   * the table. Whenever it succeeds it agrees with the corrected check.
   */
  function StepBackAsWritten(e: Engine, lo: int, k: int, bit: int): (r: Result<bool>)
    requires Valid(e) && (bit == 0 || bit == 1) && 0 <= lo
    ensures r.Failure? <==> |e.supers| <= lo <= e.bitSize / 0x1_0000
    ensures r.Success? ==> r.value == StepBack(e, lo, k, bit)
  {
    if lo > e.bitSize / 0x1_0000 then Success(true)
    else if lo >= |e.supers| then Failure(OutOfBounds)
    else Success(ToRank(e, lo, bit) >= k)
  }

  /** Phase 1 of select with the step back as written. */
  function Phase1AsWritten(e: Engine, k: int, bit: int): (r: Result<int>)
    requires Valid(e) && (bit == 0 || bit == 1) && 0 <= k
    ensures r.Success? ==> r == Phase1(e, k, bit)
  {
    var selectIndex := k / 0x1_0000;
    var upper := SelectEntry(e, bit, selectIndex);
    if upper.Failure? then Failure(upper.error)
    else
      var lower := if selectIndex == 0 then 0 else SelectEntry(e, bit, selectIndex - 1).value;
      var lo := FirstSuperblockReaching(e, k, bit, lower, upper.value + 1);
      var back := StepBackAsWritten(e, lo, k, bit);
      if back.Failure? then Failure(back.error)
      else
        Phase1Succeeds(e, k, bit, upper.value, lower, lo);
        Success(if back.value then lo - 1 else lo)
  }

  /**
   * Finding 3: a vector of exactly 65536 bits, select(k, bit) for any
   * 1 <= k < 65536. The only superblock has no `bit` before it, so the search
   * runs to lo = 1 = bitSize / 65536 and the check as written reads the rank
   * record of superblock 1 of a one-record table; the corrected check steps
   * back to superblock 0.
   */
  lemma StepBackPastTable(e: Engine, k: int, bit: int)
    requires Valid(e) && e.bitSize == 0x1_0000
    requires (bit == 0 || bit == 1) && 1 <= k < 0x1_0000
    ensures Phase1AsWritten(e, k, bit) == Failure(OutOfBounds)
    ensures Phase1(e, k, bit) == Success(0)
  {
    assert |e.supers| == 1;
    var upper := SelectEntry(e, bit, 0).value;
    assert upper == 0;
    assert FirstSuperblockReaching(e, k, bit, 0, 1) == 1 by {
      assert ToRank(e, 0, bit) == 0;
    }
    Phase1Succeeds(e, k, bit, 0, 0, 1);
  }

  /** The input of finding 3 concretely: 8192 zero bytes, select(1, 1). */
  lemma SelectAsWrittenFails(buf: seq<Byte>)
    requires |buf| == 8192 && forall p :: 0 <= p < |buf| ==> buf[p] == 0
    ensures BuildSpec(buf, 0x1_0000).Success? && Valid(BuildSpec(buf, 0x1_0000).value)
    ensures Phase1AsWritten(BuildSpec(buf, 0x1_0000).value, 1, 1) == Failure(OutOfBounds)
    ensures Phase1(BuildSpec(buf, 0x1_0000).value, 1, 1) == Success(0)
    ensures SelectSpecAsWritten(BuildSpec(buf, 0x1_0000).value, 1, 1) == Failure(OutOfBounds)
  {
    BuildValid(buf, 0x1_0000);
    StepBackPastTable(BuildSpec(buf, 0x1_0000).value, 1, 1);
  }

  /** The exclusive upper end of phase 2's range as written: capped at bitSize + 1. */
  function Phase2EndAsWritten(e: Engine, sb: int): (h: int)
    ensures h <= e.bitSize + 1
    ensures h != Phase2End(e, sb) ==> h == e.bitSize + 1 && Phase2End(e, sb) == e.bitSize
  {
    if (sb + 1) * 0x1_0000 < e.bitSize + 1 then (sb + 1) * 0x1_0000 else e.bitSize + 1
  }

  /** select as written: the literal step back of phase 1, then phase 2 searching up to bitSize + 1. */
  function SelectSpecAsWritten(e: Engine, k: int, bit: int): (r: Result<int>)
    requires Valid(e) && (bit == 0 || bit == 1) && 0 <= k
  {
    var lo :- Phase1AsWritten(e, k, bit);
    if lo < 0 then Failure(AssertionFailed)
    else
      var l :- Phase2Search(e, k, bit, lo * 0x1_0000, Phase2EndAsWritten(e, lo));
      SelectFinish(e, k, bit, l)
  }

  /** In a buffer of 0xFF bytes every prefix count of ones is the prefix length. */
  lemma AllOnesPrefix(buf: seq<Byte>, i: nat)
    requires forall p :: 0 <= p < |buf| ==> buf[p] == 255
    requires i <= 8 * |buf|
    ensures Count(buf, i, 1) == i
  {
    FullAndEmptyByte(8);
    UniformOnes(buf, 255);
    CountMonotone(buf, i, 8 * |buf|, 0);
  }

  /** A probe below k in an all-ones engine sends the search right. */
  lemma AllOnesRight(e: Engine, l: int, h: int, mid: int)
    requires Valid(e) && |e.segment| == 24 && |e.supers| == 1
    requires forall p :: 0 <= p < |e.segment| ==> e.segment[p] == 255
    requires 0 <= l < h && mid == l + (h - l) / 2 && mid < 191
    ensures Phase2Search(e, 191, 1, l, h) == Phase2Search(e, 191, 1, mid + 1, h)
  {
    AllOnesPrefix(e.segment, mid);
    Phase2StepRight(e, 191, 1, l, h, mid);
  }

  /**
   * The probes of phase 2 as written over 192 set bits, for k = 191: 96,
   * 145, 169, 181, 187, 190 all count fewer than 191 ones, and the next
   * probe is rank(192), one past the buffer.
   */
  lemma AllOnesSearchFails(e: Engine)
    requires Valid(e) && |e.segment| == 24 && |e.supers| == 1
    requires forall p :: 0 <= p < |e.segment| ==> e.segment[p] == 255
    ensures Phase2Search(e, 191, 1, 0, 193) == Failure(AssertionFailed)
  {
    AllOnesRight(e, 0, 193, 96);
    AllOnesRight(e, 97, 193, 145);
    AllOnesRight(e, 146, 193, 169);
    AllOnesRight(e, 170, 193, 181);
    AllOnesRight(e, 182, 193, 187);
    AllOnesRight(e, 188, 193, 190);
    Phase2StepFails(e, 191, 1, 191, 193, 192);
  }

  /**
   * Finding 4: 24 bytes of 0xFF, 192 bits, select(191, 1). The 191st one
   * is bit 190; the corrected search finds it, while the search as written
   * probes rank(192) and fails rank's assertion.
   */
  lemma LastProbeFails(buf: seq<Byte>)
    requires |buf| == 24 && forall p :: 0 <= p < |buf| ==> buf[p] == 255
    ensures Phase1(Agreement.Built(buf, 192), 191, 1) == Success(0)
    ensures SelectSpecAsWritten(Agreement.Built(buf, 192), 191, 1) == Failure(AssertionFailed)
    ensures SelectSpec(Agreement.Built(buf, 192), 191, 1) == Success(190)
  {
    var e := Agreement.Built(buf, 192);
    AllOnesFirst(buf);
    Agreement.BuiltOver(buf, 192, 1);
    Agreement.SelectPhase1(e, buf, 192, 191, 1, 191, 0);
    AllOnesAsWritten(e);
    Agreement.SelectOnBuilt(buf, 192, 191, 1, 191);
  }

  /** Over 192 set bits, position 191 is the first whose count of ones is 191. */
  lemma AllOnesFirst(buf: seq<Byte>)
    requires |buf| == 24 && forall p :: 0 <= p < |buf| ==> buf[p] == 255
    ensures Agreement.FirstWithCount(buf, 192, 191, 1, 191)
  {
    forall i | 1 <= i <= 191
      ensures Count(buf, i, 1) == i
    {
      AllOnesPrefix(buf, i);
    }
  }

  /** Once phase 1 picks superblock 0, select as written fails at its last probe. */
  lemma AllOnesAsWritten(e: Engine)
    requires Valid(e) && |e.segment| == 24 && |e.supers| == 1 && e.bitSize == 192
    requires forall p :: 0 <= p < |e.segment| ==> e.segment[p] == 255
    requires Phase1(e, 191, 1) == Success(0)
    ensures SelectSpecAsWritten(e, 191, 1) == Failure(AssertionFailed)
  {
    AllOnesSearchFails(e);
    assert Phase2EndAsWritten(e, 0) == 193;
  }
}

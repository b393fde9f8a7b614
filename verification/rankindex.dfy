/**
 * The two-level rank table. Per superblock of 65536 bits it keeps the number
 * of ones before the superblock, an 8-bit count per 256-bit block and a 256-bit
 * overflow set: a block count is a 9-bit number 0..256 split into its low 8
 * bits and the flag "the count is 256". Block width is fixed at 256 bits
 * (32 bytes), the width of one 256-bit byte vector.
 */
module RankIndex {
  import opened Bytes
  import opened BitPrefix

  const SuperBlockBits: nat := 0x1_0000
  const BlockBits: nat := 256
  const BlockBytes: nat := 32
  const BlocksPerSuperBlock: nat := 256
  const TwoTo16: nat := 0x1_0000

  /** One record of the rank table. */
  datatype Superblock = Superblock(onesBefore: int, blocks: seq<Byte>, overflow: seq<bool>)

  predicate Shaped(e: Superblock)
  {
    |e.blocks| == BlocksPerSuperBlock && |e.overflow| == BlocksPerSuperBlock
  }

  /**
   * The true ones count of global block j as the build measures it: the
   * kernel over the block's 32 bytes, loads masked to the buffer.
   */
  function BlockCount(buf: seq<Byte>, j: nat): (r: nat)
    ensures r <= BlockBits
  {
    BlockCountIsOnes(buf, j);
    ByteOnes(buf, 32 * j, 32 * j + 32)
  }

  /** The kernel's count of block j is the number of ones in bits [256 j, 256 j + 256). */
  lemma BlockCountIsOnes(buf: seq<Byte>, j: nat)
    ensures ByteOnes(buf, 32 * j, 32 * j + 32) == Ones(buf, 256 * (j + 1)) - Ones(buf, 256 * j)
    ensures Ones(buf, 256 * (j + 1)) - Ones(buf, 256 * j) <= 256
  {
    ByteOnesIsOnes(buf, 32 * j, 32 * j + 32);
    OnesMonotone(buf, 256 * j, 256 * (j + 1));
  }

  /** The count of block l of superblock s. */
  function LocalCount(buf: seq<Byte>, s: nat, l: nat): (r: nat)
    ensures r <= BlockBits
  {
    BlockCount(buf, 256 * s + l)
  }

  lemma LocalCountIsOnes(buf: seq<Byte>, s: nat, l: nat)
    ensures LocalCount(buf, s, l) == Ones(buf, 0x1_0000 * s + 256 * (l + 1)) - Ones(buf, 0x1_0000 * s + 256 * l)
  {
    var g := 256 * s + l;
    BlockCountIsOnes(buf, g);
    assert 256 * g == 0x1_0000 * s + 256 * l;
    assert 256 * (g + 1) == 0x1_0000 * s + 256 * (l + 1);
  }

  /** The record the build stores for superblock s of buf. */
  predicate Matches(buf: seq<Byte>, s: nat, e: Superblock)
  {
    Shaped(e)
    && e.onesBefore == Ones(buf, 0x1_0000 * s)
    && (forall l :: 0 <= l < BlocksPerSuperBlock ==> e.blocks[l] == LocalCount(buf, s, l) % 256)
    && (forall l :: 0 <= l < BlocksPerSuperBlock ==> (e.overflow[l] <==> LocalCount(buf, s, l) == 256))
  }

  function Sum(s: seq<int>): int
  {
    if |s| == 0 then 0 else Sum(s[..|s| - 1]) + s[|s| - 1]
  }

  function CountTrue(s: seq<bool>): (r: nat)
    ensures r <= |s|
  {
    if |s| == 0 then 0 else CountTrue(s[..|s| - 1]) + (if s[|s| - 1] then 1 else 0)
  }

  /** Short lane k of a byte vector reinterpreted as shorts (little-endian). */
  function ShortLane(a: seq<Byte>, k: nat): int
    requires 2 * k + 1 < |a|
  {
    a[2 * k] as int + 256 * (a[2 * k + 1] as int)
  }

  /**
   * sumPairwise: lane k adds the short's low byte (`& 0xFF`) and its high byte
   * (`>>> 8 & 0xFF`), which are the unsigned bytes 2k and 2k+1.
   */
  function SumPairwise(a: seq<Byte>): (r: seq<int>)
    requires |a| % 2 == 0
    ensures |r| == |a| / 2
    ensures forall k :: 0 <= k < |r| ==> r[k] == a[2 * k] as int + a[2 * k + 1] as int
  {
    seq(|a| / 2, k requires 0 <= k < |a| / 2 => ShortLane(a, k) % 256 + (ShortLane(a, k) / 256) % 256)
  }

  /** Pairing lanes never changes the total. */
  lemma {:induction false} SumPairwiseTotal(a: seq<Byte>)
    requires |a| % 2 == 0
    ensures Sum(SumPairwise(a)) == Sum(a)
  {
    if |a| > 0 {
      var a' := a[..|a| - 2];
      var p := SumPairwise(a);
      SumPairwiseTotal(a');
      assert SumPairwise(a') == p[..|p| - 1];
      assert a[..|a| - 1][..|a| - 2] == a';
    }
  }

  /** Stored count plus overflow correction of the first m blocks: the reference sum. */
  function TrueSum(e: Superblock, m: nat): int
    requires Shaped(e) && m <= BlocksPerSuperBlock
  {
    if m == 0 then 0
    else TrueSum(e, m - 1) + e.blocks[m - 1] + (if e.overflow[m - 1] then 256 else 0)
  }

  /** The stored bytes of the first m blocks. */
  function StoredSum(e: Superblock, m: nat): (r: int)
    requires Shaped(e) && m <= BlocksPerSuperBlock
    ensures 0 <= r <= 255 * m
  {
    if m == 0 then 0 else StoredSum(e, m - 1) + e.blocks[m - 1]
  }

  /** The block bytes as the vector loads see them: bytes from m on are masked to 0. */
  function Window(e: Superblock, m: nat): (w: seq<Byte>)
    requires Shaped(e) && m <= BlocksPerSuperBlock
    ensures |w| == BlocksPerSuperBlock
  {
    seq(BlocksPerSuperBlock, j requires 0 <= j < BlocksPerSuperBlock => if j < m then e.blocks[j] else 0)
  }

  lemma {:induction false} WindowSum(e: Superblock, m: nat, k: nat)
    requires Shaped(e) && m <= BlocksPerSuperBlock && k <= BlocksPerSuperBlock
    ensures Sum(Window(e, m)[..k]) == StoredSum(e, if k < m then k else m)
  {
    if k > 0 {
      WindowSum(e, m, k - 1);
      assert Window(e, m)[..k][..k - 1] == Window(e, m)[..k - 1];
    }
  }

  lemma {:induction false} SplitTrueSum(e: Superblock, m: nat)
    requires Shaped(e) && m <= BlocksPerSuperBlock
    ensures TrueSum(e, m) == StoredSum(e, m) + 256 * CountTrue(e.overflow[..m])
  {
    if m > 0 {
      SplitTrueSum(e, m - 1);
      assert e.overflow[..m][..m - 1] == e.overflow[..m - 1];
    }
  }

  /**
   * sumBlocksUntil: the pairwise short sums reduced and masked with 0xFFFF,
   * plus 256 per overflow bit below m. It is the reference sum: the mask
   * discards nothing, because the stored bytes add up to at most 255 * 256.
   */
  function SumBlocksUntil(e: Superblock, m: nat): (r: int)
    requires Shaped(e) && m <= BlocksPerSuperBlock
    ensures r == TrueSum(e, m)
  {
    var w := Window(e, m);
    SumPairwiseTotal(w);
    WindowSum(e, m, BlocksPerSuperBlock);
    assert w[..BlocksPerSuperBlock] == w;
    SplitTrueSum(e, m);
    var h := Sum(SumPairwise(w)) % TwoTo16;
    h + CountTrue(e.overflow[..m]) * 256
  }

  /** A count 0..256 is its low 8 bits plus 256 when the overflow flag is set. */
  lemma NineBitSplit(c: nat)
    requires c <= 256
    ensures c % 256 + (if c == 256 then 256 else 0) == c
  {
    if c < 256 {
      DivModUnique(c, 256, 0, c);
    }
  }

  lemma TrueSumStep(e: Superblock, l: nat, c: nat)
    requires Shaped(e) && l < BlocksPerSuperBlock && c <= 256
    requires e.blocks[l] == c % 256 && (e.overflow[l] <==> c == 256)
    ensures TrueSum(e, l + 1) == TrueSum(e, l) + c
  {
    NineBitSplit(c);
  }

  /** The true counts of the first m blocks of superblock s. */
  function LocalSum(buf: seq<Byte>, s: nat, m: nat): nat
  {
    if m == 0 then 0 else LocalSum(buf, s, m - 1) + LocalCount(buf, s, m - 1)
  }

  /** Block counts telescope to the ones count of the whole blocks. */
  lemma {:induction false} LocalSumIsOnes(buf: seq<Byte>, s: nat, m: nat)
    ensures LocalSum(buf, s, m) == Ones(buf, 0x1_0000 * s + 256 * m) - Ones(buf, 0x1_0000 * s)
  {
    if m > 0 {
      LocalSumIsOnes(buf, s, m - 1);
      LocalCountIsOnes(buf, s, m - 1);
    }
  }

  lemma {:induction false} TrueSumIsLocalSum(buf: seq<Byte>, s: nat, e: Superblock, m: nat)
    requires Matches(buf, s, e) && m <= BlocksPerSuperBlock
    ensures TrueSum(e, m) == LocalSum(buf, s, m)
  {
    if m > 0 {
      TrueSumIsLocalSum(buf, s, e, m - 1);
      TrueSumStep(e, m - 1, LocalCount(buf, s, m - 1));
    }
  }

  /** On a matching record the reference sum is the ones count of the whole blocks. */
  lemma TrueSumIsOnes(buf: seq<Byte>, s: nat, e: Superblock, m: nat)
    requires Matches(buf, s, e) && m <= BlocksPerSuperBlock
    ensures TrueSum(e, m) == Ones(buf, 0x1_0000 * s + 256 * m) - Ones(buf, 0x1_0000 * s)
  {
    TrueSumIsLocalSum(buf, s, e, m);
    LocalSumIsOnes(buf, s, m);
  }

  /**
   * countBits: the kernel over bytes [32 * blockPos, last), limited to one
   * 32-byte vector by the load mask.
   */
  function CountBits(buf: seq<Byte>, last: nat, blockPos: nat): (r: nat)
    requires 32 * blockPos <= last <= 32 * blockPos + 32
    ensures r == Ones(buf, 8 * last) - Ones(buf, 256 * blockPos)
  {
    ByteOnesIsOnes(buf, 32 * blockPos, last);
    ByteOnes(buf, 32 * blockPos, last)
  }
}

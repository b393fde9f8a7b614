/**
 * The specification every query is measured against: the number of set bits
 * in a prefix of the bit buffer. Bytes past the end of the buffer read as zero,
 * which is what the masked vector loads of the Java code amount to.
 */
module BitPrefix {
  import opened Bytes

  /** Bit i of the buffer, 0 past its end. */
  function BitAt(buf: seq<Byte>, i: nat): (r: nat)
    ensures r == 0 || r == 1
  {
    if i / 8 < |buf| then BitOf(buf[i / 8], i % 8) else 0
  }

  /** ones(buf, 0, i): the number of set bits at positions [0, i). */
  function Ones(buf: seq<Byte>, i: nat): (r: nat)
    ensures r <= i
  {
    if i == 0 then 0 else Ones(buf, i - 1) + BitAt(buf, i - 1)
  }

  /** The number of positions in [0, i) holding `bit`. */
  function Count(buf: seq<Byte>, i: nat, bit: int): (r: nat)
    requires bit == 0 || bit == 1
  {
    if bit == 1 then Ones(buf, i) else i - Ones(buf, i)
  }

  /** Popcount of byte p, 0 past the end of the buffer. */
  function ByteAt(buf: seq<Byte>, p: nat): (r: nat)
    ensures r <= 8
  {
    if p < |buf| then Popcount(buf[p]) else 0
  }

  /** The bit-counting kernel: set bits in the byte range [a, b). */
  function ByteOnes(buf: seq<Byte>, a: nat, b: nat): (r: nat)
    decreases b
  {
    if b <= a then 0 else ByteOnes(buf, a, b - 1) + ByteAt(buf, b - 1)
  }

  /** Within byte q, the prefix count grows by the set bits of that byte below r. */
  lemma {:induction false} OnesInByte(buf: seq<Byte>, q: nat, r: nat)
    requires r <= 8
    ensures Ones(buf, 8 * q + r) == Ones(buf, 8 * q) + (if q < |buf| then OnesBelow(buf[q], r) else 0)
  {
    if r > 0 {
      OnesInByte(buf, q, r - 1);
      assert (8 * q + r - 1) / 8 == q && (8 * q + r - 1) % 8 == r - 1;
    }
  }

  /** The kernel over whole bytes agrees with the prefix count. */
  lemma {:induction false} ByteOnesIsOnes(buf: seq<Byte>, a: nat, b: nat)
    requires a <= b
    ensures ByteOnes(buf, a, b) == Ones(buf, 8 * b) - Ones(buf, 8 * a)
  {
    if b > a {
      ByteOnesIsOnes(buf, a, b - 1);
      OnesInByte(buf, b - 1, 8);
    }
    OnesMonotone(buf, 8 * a, 8 * b);
  }

  /** The prefix count never decreases. */
  lemma {:induction false} OnesMonotone(buf: seq<Byte>, i: nat, j: nat)
    requires i <= j
    ensures Ones(buf, i) <= Ones(buf, j)
    ensures Ones(buf, j) - Ones(buf, i) <= j - i
  {
    if i < j {
      OnesMonotone(buf, i, j - 1);
    }
  }

  /** Both counts never decrease, and together they count every position. */
  lemma CountMonotone(buf: seq<Byte>, i: nat, j: nat, bit: int)
    requires bit == 0 || bit == 1
    requires i <= j
    ensures Count(buf, i, bit) <= Count(buf, j, bit)
    ensures Count(buf, i, 0) + Count(buf, i, 1) == i
  {
    OnesMonotone(buf, i, j);
  }

  /** Stepping one position adds one exactly when that position holds `bit`. */
  lemma CountStep(buf: seq<Byte>, i: nat, bit: int)
    requires bit == 0 || bit == 1
    ensures Count(buf, i + 1, bit) == Count(buf, i, bit) + (if BitAt(buf, i) == bit then 1 else 0)
  {
  }

  /** A run of equal bytes contributes one popcount per byte. */
  lemma {:induction false} ByteOnesUniform(buf: seq<Byte>, a: nat, b: nat, v: Byte)
    requires a <= b <= |buf|
    requires forall p :: a <= p < b ==> buf[p] == v
    ensures ByteOnes(buf, a, b) == (b - a) * Popcount(v)
  {
    if b > a {
      ByteOnesUniform(buf, a, b - 1, v);
    }
  }
}

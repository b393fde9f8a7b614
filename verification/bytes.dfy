/**
 * Bytes and the bits inside them. A byte of the bit buffer is modelled by its
 * unsigned value 0..255; bit k of a byte is its k-th least significant bit, so
 * bit position i of a buffer lives in bit i % 8 of byte i / 8. Java's signed
 * bytes are sign-extended before shifting and masking, but every shift and
 * mask of the model stays within bits 0..7, where the signed and the unsigned
 * reading agree.
 */
module Bytes {

  type Byte = x: int | 0 <= x < 256

  function Pow2(k: nat): (r: nat)
    ensures r >= 1
  {
    if k == 0 then 1 else 2 * Pow2(k - 1)
  }

  /** Java's `/` on long: the quotient rounded toward zero. */
  function JavaDiv(a: int, d: int): (q: int)
    requires d > 0
    ensures -d < a - d * q < d
    ensures a >= 0 ==> 0 <= a - d * q
    ensures a <= 0 ==> a - d * q <= 0
  {
    if a >= 0 then a / d else -((-a) / d)
  }

  /** The byte `index / 8` (Java division) of n bytes exists exactly for -8 < index < 8n. */
  lemma JavaByteIndex(index: int, n: nat)
    ensures 0 <= JavaDiv(index, 8) < n <==> n > 0 && -8 < index < 8 * n
    ensures index >= 0 ==> JavaDiv(index, 8) == index / 8
    ensures -8 < index < 0 ==> JavaDiv(index, 8) == 0
  {
    var q := JavaDiv(index, 8);
    assert -8 < index - 8 * q < 8;
    if index >= 0 {
      assert 0 <= index - 8 * q;
    } else {
      assert index - 8 * q <= 0;
    }
  }

  /** `x >>> k` for a non-negative x: k halvings. */
  function ShiftRight(x: nat, k: nat): nat
  {
    if k == 0 then x else ShiftRight(x / 2, k - 1)
  }

  /** `(x >>> k) & 1`: bit k of x. */
  function BitOf(x: nat, k: nat): (r: nat)
    ensures r == 0 || r == 1
  {
    ShiftRight(x, k) % 2
  }

  /** Number of set bits among bits 0..k-1 of x. */
  function OnesBelow(x: nat, k: nat): (r: nat)
    ensures r <= k
  {
    if k == 0 then 0 else OnesBelow(x, k - 1) + BitOf(x, k - 1)
  }

  /** `Integer.bitCount` of a byte. */
  function Popcount(b: Byte): (r: nat)
    ensures r <= 8
  {
    OnesBelow(b, 8)
  }

  /** `x & ((1 << k) - 1)`, the mask `~(-1 << k)` applied to x: the low k bits. */
  function LowBits(x: nat, k: nat): (r: nat)
    ensures r <= x
  {
    ModBelow(x, Pow2(k));
    x % Pow2(k)
  }

  lemma ModBelow(x: nat, m: nat)
    requires m >= 1
    ensures x % m <= x
  {
    if x >= m {
      assert x % m < m;
    } else {
      DivModUnique(x, m, 0, x);
    }
  }

  /** Taking a remainder by 2P commutes with halving. */
  lemma HalveMod(x: nat, p: nat)
    requires p >= 1
    ensures (x % (2 * p)) % 2 == x % 2
    ensures (x % (2 * p)) / 2 == (x / 2) % p
  {
    var q := x / (2 * p);
    var r := x % (2 * p);
    assert x == 2 * p * q + r;
    assert x / 2 == p * q + r / 2;
    assert x % 2 == r % 2;
    DivModUnique(x / 2, p, q, r / 2);
  }

  lemma DivModUnique(x: int, d: int, q: int, r: int)
    requires d > 0 && 0 <= r < d && x == d * q + r
    ensures x / d == q && x % d == r
  {
    var q' := x / d;
    var r' := x % d;
    assert x == d * q' + r';
    assert d * (q - q') == r' - r;
    if q - q' >= 1 {
      MulAtLeast(d, q - q');
    } else if q' - q >= 1 {
      MulAtLeast(d, q' - q);
    }
  }

  lemma {:induction false} MulAtLeast(d: int, n: int)
    requires d > 0 && n >= 1
    ensures d * n >= d
  {
    if n > 1 {
      MulAtLeast(d, n - 1);
      assert d * n == d * (n - 1) + d;
    }
  }

  lemma {:induction false} ShiftRightZero(k: nat)
    ensures ShiftRight(0, k) == 0
  {
    if k > 0 {
      ShiftRightZero(k - 1);
    }
  }

  /** Bit j of the low k bits of x is bit j of x below k, and 0 from k on. */
  lemma {:induction false} LowBitsBit(x: nat, k: nat, j: nat)
    ensures BitOf(LowBits(x, k), j) == if j < k then BitOf(x, j) else 0
  {
    if k == 0 {
      ShiftRightZero(j);
    } else {
      HalveMod(x, Pow2(k - 1));
      if j > 0 {
        LowBitsBit(x / 2, k - 1, j - 1);
      }
    }
  }

  lemma {:induction false} OnesBelowLowBits(x: nat, k: nat, m: nat)
    ensures OnesBelow(LowBits(x, k), m) == OnesBelow(x, if m < k then m else k)
  {
    if m > 0 {
      OnesBelowLowBits(x, k, m - 1);
      LowBitsBit(x, k, m - 1);
    }
  }

  /**
   * The masked popcount of the last byte in rank: `bitCount(b & ~(-1 << k))`
   * counts exactly the set bits of b below position k.
   */
  lemma MaskedPopcount(b: Byte, k: nat)
    requires k < 8
    ensures Popcount(LowBits(b, k)) == OnesBelow(b, k)
  {
    OnesBelowLowBits(b, k, 8);
  }

  /** Every bit of 255 is set and no bit of 0 is. */
  lemma {:induction false} FullAndEmptyByte(k: nat)
    requires k <= 8
    ensures OnesBelow(255, k) == k
    ensures OnesBelow(0, k) == 0
  {
    if k > 0 {
      FullAndEmptyByte(k - 1);
      ShiftRightZero(k - 1);
      var j := k - 1;
      assert ShiftRight(255, 1) == 127 && ShiftRight(255, 2) == 63 && ShiftRight(255, 3) == 31;
      assert ShiftRight(255, 4) == 15 && ShiftRight(255, 5) == 7 && ShiftRight(255, 6) == 3;
      assert ShiftRight(255, 7) == 1;
    }
  }
}

/**
 * Packing the driver's bit string into the buffer the bit vectors read. The
 * string is cut into chunks of 64 characters; each chunk is parsed in base 2
 * (first character most significant), bit-reversed as a long so that the first
 * character lands in bit 0, shifted down when it is the short last chunk, and
 * stored as a little-endian long. A long is modelled by its 64-bit pattern,
 * bit 0 first.
 */
module Loader {
  import opened Results
  import opened Bytes
  import opened BitPrefix
  import opened MemorySupport
  import Naive

  /** The low w bits of v, least significant first. */
  function Bits(v: nat, w: nat): (r: seq<bool>)
    ensures |r| == w
  {
    if w == 0 then [] else [v % 2 == 1] + Bits(v / 2, w - 1)
  }

  /** The two's-complement bit pattern of a long. */
  function LongBits(x: int): (r: seq<bool>)
    ensures |r| == 64
  {
    Bits(x % TwoTo64, 64)
  }

  /** Long.reverse: bit k of the result is bit 63 - k of the argument. */
  function Reverse(b: seq<bool>): (r: seq<bool>)
    ensures |r| == |b| && forall k :: 0 <= k < |b| ==> r[k] == b[|b| - 1 - k]
  {
    seq(|b|, k requires 0 <= k < |b| => b[|b| - 1 - k])
  }

  /** `x >>> s` on a bit pattern: bit k of the result is bit k + s, zeros shifted in at the top. */
  function ShiftRightLogical(b: seq<bool>, s: nat): (r: seq<bool>)
    requires s <= |b|
    ensures |r| == |b|
    ensures forall k :: 0 <= k < |b| ==> r[k] == (k + s < |b| && b[k + s])
  {
    b[s..] + seq(s, k => false)
  }

  /** The distance a long shift moves by: only the low six bits of the count are used. */
  function ShiftDistance(count: int): (s: nat)
    ensures s < 64
  {
    count % 64
  }

  /** A byte from up to eight bits, least significant first. */
  function ByteOfBits(b: seq<bool>): (r: nat)
    ensures r < Pow2(|b|)
  {
    if |b| == 0 then 0 else (if b[0] then 1 else 0) + 2 * ByteOfBits(b[1..])
  }

  /** The eight bytes of a long in native (little-endian) order. */
  function LongBytes(b: seq<bool>): (r: seq<Byte>)
    requires |b| == 64
    ensures |r| == 8
  {
    seq(8, k requires 0 <= k < 8 => (Pow2Eight(); ByteOfBits(b[8 * k..8 * k + 8])))
  }

  lemma Pow2Eight()
    ensures Pow2(8) == 256
  {
  }

  /** Which long a chunk is stored at. */
  datatype Addressing =
    | ByOffset  // the character offset l of the chunk, as Main.java line 77 has it
    | ByChunk   // the chunk number l / 64

  function StoreIndex(a: Addressing, l: nat): nat
  {
    match a
    case ByOffset => l
    case ByChunk => l / 64
  }

  /** Where the chunk at character offset l ends: 64 characters on, or the end of the bit string. */
  function ChunkEnd(vecStart: int, vecEnd: int, l: nat): int
  {
    if vecEnd < vecStart + l + 64 then vecEnd else vecStart + l + 64
  }

  /** The chunk that reaches the end of the bit string is shifted by 64 - vecLen, taken modulo 64. */
  function Align(reversed: seq<bool>, last: bool, vecLen: int): (r: seq<bool>)
    requires |reversed| == 64
    ensures |r| == 64
  {
    if last then ShiftRightLogical(reversed, ShiftDistance(64 - vecLen)) else reversed
  }

  /**
   * The packed long for the chunk starting at character offset l of the bit
   * string [vecStart, vecEnd): parse in base 2, reverse, align.
   */
  function PackChunk(file: seq<Byte>, vecStart: int, vecEnd: int, l: nat): (r: Result<seq<bool>>)
    ensures r.Success? ==> |r.value| == 64
  {
    var end := ChunkEnd(vecStart, vecEnd, l);
    var next :- ParseLong(file, vecStart + l, end, 2);
    Success(Align(Reverse(LongBits(next)), end == vecEnd, vecEnd - vecStart))
  }

  /** setAtIndex(JAVA_LONG, index, word): the eight bytes at 8 * index, which must lie in the segment. */
  function StoreLong(seg: seq<Byte>, index: nat, word: seq<bool>): (r: Result<seq<Byte>>)
    requires |word| == 64
    ensures r.Success? <==> 8 * index + 8 <= |seg|
    ensures r.Success? ==> |r.value| == |seg| && r.value[8 * index..8 * index + 8] == LongBytes(word)
    ensures r.Success? ==> forall p :: 0 <= p < |seg| && !(8 * index <= p < 8 * index + 8) ==> r.value[p] == seg[p]
  {
    if 8 * index + 8 > |seg| then Failure(OutOfBounds)
    else
      var r := seg[..8 * index] + LongBytes(word) + seg[8 * index + 8..];
      assert r[8 * index..8 * index + 8] == LongBytes(word);
      Success(r)
  }

  /** The chunk loop from character offset l on. */
  function LoadChunks(file: seq<Byte>, vecStart: int, vecEnd: int, a: Addressing, l: nat, seg: seq<Byte>): (r: Result<seq<Byte>>)
    ensures r.Success? ==> |r.value| == |seg|
    decreases vecEnd - vecStart - l
  {
    if l >= vecEnd - vecStart then Success(seg)
    else
      var word :- PackChunk(file, vecStart, vecEnd, l);
      var stored :- StoreLong(seg, StoreIndex(a, l), word);
      LoadChunks(file, vecStart, vecEnd, a, l + 64, stored)
  }

  /** `Math.ceilDiv(x, 64)`: rounds toward positive infinity, also for negative x. */
  function CeilDiv64(x: int): (r: int)
    ensures 64 * r >= x && 64 * (r - 1) < x
  {
    if x >= 0 then (x + 63) / 64 else -((-x) / 64)
  }

  /**
   * loadBitVector: a zeroed segment of ceilDiv(vecLen, 64) longs (a negative
   * count is rejected), then the chunk loop.
   */
  function LoadBitVector(file: seq<Byte>, vecStart: int, vecEnd: int, a: Addressing): (r: Result<seq<Byte>>)
    ensures r.Success? ==> |r.value| == 8 * CeilDiv64(vecEnd - vecStart)
    ensures CeilDiv64(vecEnd - vecStart) < 0 ==> r == Failure(BadSize)
  {
    var longs := CeilDiv64(vecEnd - vecStart);
    if longs < 0 then Failure(BadSize)
    else LoadChunks(file, vecStart, vecEnd, a, 0, seq(8 * longs, p => 0))
  }

  /** Multiplying powers of two adds exponents. */
  lemma {:induction false} Pow2Add(a: nat, b: nat)
    ensures Pow2(a + b) == Pow2(a) * Pow2(b)
  {
    if a > 0 {
      Pow2Add(a - 1, b);
    }
  }

  lemma Pow2SixtyFour()
    ensures Pow2(64) == TwoTo64
  {
    Pow2Eight();
    Pow2Add(8, 8);
    Pow2Add(16, 16);
    Pow2Add(32, 32);
  }

  /** Only the low w bits of v matter. */
  lemma {:induction false} BitsMod(v: nat, w: nat)
    ensures Bits(v, w) == Bits(v % Pow2(w), w)
  {
    if w > 0 {
      HalveMod(v, Pow2(w - 1));
      BitsMod(v / 2, w - 1);
    }
  }

  lemma {:induction false} BitsZero(w: nat)
    ensures forall k :: 0 <= k < w ==> !Bits(0, w)[k]
  {
    if w > 0 {
      BitsZero(w - 1);
    }
  }

  /**
   * The bits of a base-2 digit run: bit k is the digit k places from the
   * right end, and every bit past the run's length is 0.
   */
  lemma {:induction false} BinaryBits(file: seq<Byte>, a: int, e: int, w: nat)
    requires 0 <= a <= e <= |file| && ValidDigits(file, a, e, 2)
    ensures forall k :: 0 <= k < w ==>
      Bits(DigitsValue(file, a, e, 2), w)[k] == (k < e - a && file[e - 1 - k] == 49)
    decreases e - a
  {
    if e == a {
      BitsZero(w);
    } else if w > 0 {
      BinaryBits(file, a, e - 1, w - 1);
      var x := DigitsValue(file, a, e - 1, 2);
      assert DigitAt(file, e - 1, 2);
      var d := Digit(file[e - 1]);
      assert DigitsValue(file, a, e, 2) == 2 * x + d;
      assert (2 * x + d) % 2 == d && (2 * x + d) / 2 == x;
      assert Bits(2 * x + d, w) == [d == 1] + Bits(x, w - 1);
    }
  }

  /** The pattern of the long parseLong returns is the run's exact value, which fits in 64 bits. */
  lemma ParsedPattern(dv: nat)
    ensures LongBits(Wrap64(dv)) == Bits(dv, 64)
  {
    var next := Wrap64(dv);
    var t := (dv - next) / TwoTo64;
    assert dv - next == TwoTo64 * t;
    var q := next / TwoTo64;
    assert dv == TwoTo64 * (t + q) + next % TwoTo64;
    DivModUnique(dv, TwoTo64, t + q, next % TwoTo64);
    Pow2SixtyFour();
    BitsMod(dv, 64);
  }

  /** After Long.reverse, the m characters of a chunk sit in the top m bits, first character lowest. */
  lemma ReversedChunk(file: seq<Byte>, a: nat, m: int)
    requires 1 <= m <= 64 && a + m <= |file| && ValidDigits(file, a, a + m, 2)
    ensures ParseLong(file, a, a + m, 2).Success?
    ensures var rev := Reverse(LongBits(ParseLong(file, a, a + m, 2).value));
      forall k :: 0 <= k < 64 ==> rev[k] == (64 - m <= k && file[a + m - 64 + k] == 49)
  {
    var dv := DigitsValue(file, a, a + m, 2);
    ParsedPattern(dv);
    BinaryBits(file, a, a + m, 64);
  }

  /** Bit k of the word is character a + k for the chunk's m characters, and 0 above them. */
  predicate HoldsChunk(word: seq<bool>, file: seq<Byte>, a: int, m: int)
    requires |word| == 64 && 0 <= a && a + m <= |file|
  {
    forall k :: 0 <= k < 64 ==> word[k] == (k < m && file[a + k] == 49)
  }

  /** The short last chunk: the shift by (64 - vecLen) mod 64 = 64 - m brings it down to bit 0. */
  lemma ShiftedChunk(file: seq<Byte>, a: nat, m: int, vecLen: int)
    requires 1 <= m <= 64 && a + m <= |file| && ValidDigits(file, a, a + m, 2)
    requires ShiftDistance(64 - vecLen) == 64 - m
    ensures ParseLong(file, a, a + m, 2).Success?
    ensures HoldsChunk(ShiftRightLogical(Reverse(LongBits(ParseLong(file, a, a + m, 2).value)), 64 - m), file, a, m)
  {
    ReversedChunk(file, a, m);
    var rev := Reverse(LongBits(ParseLong(file, a, a + m, 2).value));
    var word := ShiftRightLogical(rev, 64 - m);
    forall k | 0 <= k < 64
      ensures word[k] == (k < m && file[a + k] == 49)
    {
      assert word[k] == (k + 64 - m < 64 && rev[k + 64 - m]);
    }
  }

  /** Unfolds one chunk once its parse is known to succeed. */
  lemma PackChunkIs(file: seq<Byte>, vecStart: int, vecEnd: int, l: nat, next: int)
    requires ParseLong(file, vecStart + l, ChunkEnd(vecStart, vecEnd, l), 2) == Success(next)
    ensures PackChunk(file, vecStart, vecEnd, l)
      == Success(Align(Reverse(LongBits(next)), ChunkEnd(vecStart, vecEnd, l) == vecEnd, vecEnd - vecStart))
  {
  }

  /** A full chunk needs no shift: after Long.reverse its characters already start at bit 0. */
  lemma FullChunk(file: seq<Byte>, a: nat)
    requires a + 64 <= |file| && ValidDigits(file, a, a + 64, 2)
    ensures ParseLong(file, a, a + 64, 2).Success?
    ensures HoldsChunk(Reverse(LongBits(ParseLong(file, a, a + 64, 2).value)), file, a, 64)
  {
    ReversedChunk(file, a, 64);
  }

  /** The last chunk, m characters ending at vecEnd: reversed, then shifted down by 64 - m. */
  lemma LastChunkAt(file: seq<Byte>, vecStart: nat, vecEnd: int, l: nat, c: nat, m: int) returns (word: seq<bool>)
    requires 1 <= m <= 64 && vecStart + l + m <= |file| && ValidDigits(file, vecStart + l, vecStart + l + m, 2)
    requires l == 64 * c && vecStart + l + m == vecEnd
    ensures PackChunk(file, vecStart, vecEnd, l) == Success(word) && |word| == 64
    ensures HoldsChunk(word, file, vecStart + l, m)
  {
    var vecLen := vecEnd - vecStart;
    var a := vecStart + l;
    assert ChunkEnd(vecStart, vecEnd, l) == vecEnd;
    DivModUnique(64 - vecLen, 64, -(c as int), 64 - m);
    ShiftedChunk(file, a, m, vecLen);
    var next := ParseLong(file, a, a + m, 2).value;
    PackChunkIs(file, vecStart, vecEnd, l, next);
    var rev := Reverse(LongBits(next));
    word := ShiftRightLogical(rev, 64 - m);
    assert Align(rev, true, vecLen) == word;
  }

  /** A chunk of 64 characters that stops short of vecEnd: reversed, not shifted. */
  lemma FullChunkAt(file: seq<Byte>, vecStart: nat, vecEnd: int, l: nat) returns (word: seq<bool>)
    requires vecStart + l + 64 <= |file| && ValidDigits(file, vecStart + l, vecStart + l + 64, 2)
    requires vecStart + l + 64 < vecEnd
    ensures PackChunk(file, vecStart, vecEnd, l) == Success(word) && |word| == 64
    ensures HoldsChunk(word, file, vecStart + l, 64)
  {
    var a := vecStart + l;
    assert ChunkEnd(vecStart, vecEnd, l) == a + 64;
    FullChunk(file, a);
    var next := ParseLong(file, a, a + 64, 2).value;
    PackChunkIs(file, vecStart, vecEnd, l, next);
    word := Reverse(LongBits(next));
    assert Align(word, false, vecEnd - vecStart) == word;
  }

  /** The chunk at offset l holds its characters in bits 0.. upward, zeros above them. */
  lemma ChunkBits(file: seq<Byte>, vecStart: nat, vecEnd: int, l: nat, c: nat) returns (word: seq<bool>)
    requires vecStart <= vecEnd <= |file| && ValidDigits(file, vecStart, vecEnd, 2)
    requires l == 64 * c && l < vecEnd - vecStart
    ensures PackChunk(file, vecStart, vecEnd, l) == Success(word) && |word| == 64
    ensures HoldsChunk(word, file, vecStart + l, if vecEnd - vecStart - l < 64 then vecEnd - vecStart - l else 64)
  {
    var m := if vecEnd - vecStart - l < 64 then vecEnd - vecStart - l else 64;
    assert ValidDigits(file, vecStart + l, vecStart + l + m, 2);
    if vecStart + l + m == vecEnd {
      word := LastChunkAt(file, vecStart, vecEnd, l, c, m);
    } else {
      word := FullChunkAt(file, vecStart, vecEnd, l);
    }
  }

  /** Bit i of a byte assembled from bits is the i-th of those bits. */
  lemma {:induction false} ByteOfBitsBit(b: seq<bool>, i: nat)
    requires i < |b|
    ensures BitOf(ByteOfBits(b), i) == if b[i] then 1 else 0
  {
    var x := ByteOfBits(b);
    var c := if b[0] then 1 else 0;
    assert x == c + 2 * ByteOfBits(b[1..]);
    assert x % 2 == c && x / 2 == ByteOfBits(b[1..]);
    if i > 0 {
      ByteOfBitsBit(b[1..], i - 1);
    }
  }

  /** Storing a long at index c rewrites bit positions [64c, 64c + 64) with its bits and keeps every other. */
  lemma StoreLongBits(seg: seq<Byte>, c: nat, word: seq<bool>)
    requires |word| == 64 && 8 * c + 8 <= |seg|
    ensures forall j :: 0 <= j < 8 * |seg| ==>
      BitAt(StoreLong(seg, c, word).value, j)
        == if 64 * c <= j < 64 * c + 64 then (if word[j - 64 * c] then 1 else 0) else BitAt(seg, j)
  {
    var r := StoreLong(seg, c, word).value;
    forall j | 0 <= j < 8 * |seg|
      ensures BitAt(r, j) == if 64 * c <= j < 64 * c + 64 then (if word[j - 64 * c] then 1 else 0) else BitAt(seg, j)
    {
      var p := j / 8;
      if 64 * c <= j < 64 * c + 64 {
        var q := p - 8 * c;
        assert 0 <= q < 8;
        assert r[p] == r[8 * c..8 * c + 8][q] == LongBytes(word)[q];
        Pow2Eight();
        assert LongBytes(word)[q] == ByteOfBits(word[8 * q..8 * q + 8]);
        ByteOfBitsBit(word[8 * q..8 * q + 8], j % 8);
        assert 8 * q + j % 8 == j - 64 * c;
      }
    }
  }

  /** Bits [0, upTo) of the buffer hold their characters of the bit string; every other bit is 0. */
  predicate Filled(seg: seq<Byte>, file: seq<Byte>, vecStart: nat, vecEnd: int, upTo: int)
    requires vecEnd <= |file|
  {
    forall j :: 0 <= j < 8 * |seg| ==>
      BitAt(seg, j) == if j < upTo && j < vecEnd - vecStart then Digit(file[vecStart + j]) else 0
  }

  /** One turn of the chunk loop: pack, store, continue 64 characters on. */
  lemma LoadChunksStep(file: seq<Byte>, vecStart: int, vecEnd: int, a: Addressing, l: nat, seg: seq<Byte>,
                       word: seq<bool>, stored: seq<Byte>)
    requires l < vecEnd - vecStart && |word| == 64
    requires PackChunk(file, vecStart, vecEnd, l) == Success(word)
    requires StoreLong(seg, StoreIndex(a, l), word) == Success(stored)
    ensures LoadChunks(file, vecStart, vecEnd, a, l, seg) == LoadChunks(file, vecStart, vecEnd, a, l + 64, stored)
  {
  }

  /** The chunk loop stops at the first store that falls outside the segment. */
  lemma LoadChunksStop(file: seq<Byte>, vecStart: int, vecEnd: int, a: Addressing, l: nat, seg: seq<Byte>, word: seq<bool>)
    requires l < vecEnd - vecStart && |word| == 64
    requires PackChunk(file, vecStart, vecEnd, l) == Success(word)
    requires 8 * StoreIndex(a, l) + 8 > |seg|
    ensures LoadChunks(file, vecStart, vecEnd, a, l, seg) == Failure(OutOfBounds)
  {
  }

  /** After the chunk at l is stored, the bits below l + 64 hold their characters. */
  lemma FillStep(file: seq<Byte>, vecStart: nat, vecEnd: int, l: nat, c: nat, seg: seq<Byte>) returns (stored: seq<Byte>)
    requires vecStart <= vecEnd <= |file| && ValidDigits(file, vecStart, vecEnd, 2)
    requires l == 64 * c && l < vecEnd - vecStart && |seg| == 8 * CeilDiv64(vecEnd - vecStart)
    requires Filled(seg, file, vecStart, vecEnd, l)
    ensures |stored| == |seg|
    ensures LoadChunks(file, vecStart, vecEnd, ByChunk, l, seg) == LoadChunks(file, vecStart, vecEnd, ByChunk, l + 64, stored)
    ensures Filled(stored, file, vecStart, vecEnd, l + 64)
  {
    var word := ChunkBits(file, vecStart, vecEnd, l, c);
    assert 8 * c + 8 <= |seg| by {
      assert c + 1 <= CeilDiv64(vecEnd - vecStart);
    }
    stored := StoreLong(seg, c, word).value;
    assert LoadChunks(file, vecStart, vecEnd, ByChunk, l, seg) == LoadChunks(file, vecStart, vecEnd, ByChunk, l + 64, stored) by {
      DivModUnique(l, 64, c, 0);
      LoadChunksStep(file, vecStart, vecEnd, ByChunk, l, seg, word, stored);
    }
    FilledAfterStore(file, vecStart, vecEnd, l, c, seg, word);
  }

  /** Storing the packed chunk at long c extends the filled prefix by 64 bits. */
  lemma FilledAfterStore(file: seq<Byte>, vecStart: nat, vecEnd: int, l: nat, c: nat, seg: seq<Byte>, word: seq<bool>)
    requires vecStart <= vecEnd <= |file| && ValidDigits(file, vecStart, vecEnd, 2)
    requires l == 64 * c && l < vecEnd - vecStart && 8 * c + 8 <= |seg| && |word| == 64
    requires HoldsChunk(word, file, vecStart + l, if vecEnd - vecStart - l < 64 then vecEnd - vecStart - l else 64)
    requires Filled(seg, file, vecStart, vecEnd, l)
    ensures Filled(StoreLong(seg, c, word).value, file, vecStart, vecEnd, l + 64)
  {
    var vecLen := vecEnd - vecStart;
    var stored := StoreLong(seg, c, word).value;
    StoreLongBits(seg, c, word);
    forall j | 0 <= j < 8 * |stored|
      ensures BitAt(stored, j) == if j < l + 64 && j < vecLen then Digit(file[vecStart + j]) else 0
    {
      if l <= j < l + 64 && j < vecLen {
        assert DigitAt(file, vecStart + j, 2);
      }
    }
  }

  /**
   * The chunk loop with chunk-number addressing: if the bits below l already
   * hold the characters of the bit string and the rest are 0, every bit ends
   * up holding its character, and the padding past the string stays 0.
   */
  lemma {:induction false} LoadChunksFill(file: seq<Byte>, vecStart: nat, vecEnd: int, l: nat, c: nat, seg: seq<Byte>)
    requires vecStart <= vecEnd <= |file| && ValidDigits(file, vecStart, vecEnd, 2)
    requires l == 64 * c && |seg| == 8 * CeilDiv64(vecEnd - vecStart)
    requires Filled(seg, file, vecStart, vecEnd, l)
    ensures LoadChunks(file, vecStart, vecEnd, ByChunk, l, seg).Success?
    ensures Filled(LoadChunks(file, vecStart, vecEnd, ByChunk, l, seg).value, file, vecStart, vecEnd, vecEnd - vecStart)
    decreases vecEnd - vecStart - l
  {
    if l < vecEnd - vecStart {
      var stored := FillStep(file, vecStart, vecEnd, l, c, seg);
      LoadChunksFill(file, vecStart, vecEnd, l + 64, c + 1, stored);
    } else {
      assert LoadChunks(file, vecStart, vecEnd, ByChunk, l, seg) == Success(seg);
    }
  }

  lemma ZeroBufferBits(buf: seq<Byte>)
    requires forall p :: 0 <= p < |buf| ==> buf[p] == 0
    ensures forall j :: 0 <= j < 8 * |buf| ==> BitAt(buf, j) == 0
  {
    forall j | 0 <= j < 8 * |buf|
      ensures BitAt(buf, j) == 0
    {
      ShiftRightZero(j % 8);
    }
  }

  /**
   * With the chunk number as the store address, loading a bit string of '0'
   * and '1' characters succeeds and bit j of the buffer is character j; the
   * padding up to the next whole long is 0.
   */
  lemma LoadRoundTrip(file: seq<Byte>, vecStart: nat, vecEnd: int)
    requires vecStart <= vecEnd <= |file| && ValidDigits(file, vecStart, vecEnd, 2)
    ensures LoadBitVector(file, vecStart, vecEnd, ByChunk).Success?
    ensures var seg := LoadBitVector(file, vecStart, vecEnd, ByChunk).value;
      forall j :: 0 <= j < 8 * |seg| ==>
        BitAt(seg, j) == if j < vecEnd - vecStart then Digit(file[vecStart + j]) else 0
  {
    var longs := CeilDiv64(vecEnd - vecStart);
    var zeros := seq(8 * longs, p => 0);
    ZeroBufferBits(zeros);
    assert Filled(zeros, file, vecStart, vecEnd, 0);
    LoadChunksFill(file, vecStart, vecEnd, 0, 0, zeros);
  }

  /** The reference vector over the loaded buffer prints back the bit string it was loaded from. */
  lemma LoadToStringRoundTrip(file: seq<Byte>, vecStart: nat, vecEnd: int)
    requires vecStart <= vecEnd <= |file| && ValidDigits(file, vecStart, vecEnd, 2)
    ensures LoadBitVector(file, vecStart, vecEnd, ByChunk).Success?
    ensures var v := Naive.NaiveBitVector(LoadBitVector(file, vecStart, vecEnd, ByChunk).value, vecEnd - vecStart);
      var s := Naive.ToString(v);
      |s| == vecEnd - vecStart && forall l :: 0 <= l < |s| ==> s[l] as int == file[vecStart + l]
  {
    LoadRoundTrip(file, vecStart, vecEnd);
    var seg := LoadBitVector(file, vecStart, vecEnd, ByChunk).value;
    var s := Naive.ToString(Naive.NaiveBitVector(seg, vecEnd - vecStart));
    forall l | 0 <= l < |s|
      ensures s[l] as int == file[vecStart + l]
    {
      assert DigitAt(file, vecStart + l, 2);
    }
  }

  /**
   * As written, the store address is the character offset: a bit string of
   * 65 to 4096 characters needs at most 64 longs, and the second chunk is
   * stored at long index 64, past the end of the segment.
   */
  lemma LoadAsWrittenFails(file: seq<Byte>, vecStart: nat, vecEnd: int)
    requires vecStart <= vecEnd <= |file| && ValidDigits(file, vecStart, vecEnd, 2)
    requires 64 < vecEnd - vecStart <= 4096
    ensures LoadBitVector(file, vecStart, vecEnd, ByOffset) == Failure(OutOfBounds)
  {
    var longs := CeilDiv64(vecEnd - vecStart);
    assert 2 <= longs <= 64;
    var seg := seq(8 * longs, p => 0);
    assert LoadBitVector(file, vecStart, vecEnd, ByOffset) == LoadChunks(file, vecStart, vecEnd, ByOffset, 0, seg);
    var w0 := ChunkBits(file, vecStart, vecEnd, 0, 0);
    var first := StoreLong(seg, 0, w0).value;
    LoadChunksStep(file, vecStart, vecEnd, ByOffset, 0, seg, w0, first);
    var w1 := ChunkBits(file, vecStart, vecEnd, 64, 1);
    LoadChunksStop(file, vecStart, vecEnd, ByOffset, 64, first, w1);
  }

  /** Up to one long of characters, the two addressings agree: the only chunk goes to long 0 either way. */
  lemma LoadAsWrittenShort(file: seq<Byte>, vecStart: nat, vecEnd: int)
    requires vecEnd - vecStart <= 64
    ensures LoadBitVector(file, vecStart, vecEnd, ByOffset) == LoadBitVector(file, vecStart, vecEnd, ByChunk)
  {
    var longs := CeilDiv64(vecEnd - vecStart);
    if longs >= 0 {
      var seg := seq(8 * longs, p => 0);
      assert StoreIndex(ByOffset, 0) == StoreIndex(ByChunk, 0) == 0;
      assert LoadChunks(file, vecStart, vecEnd, ByOffset, 0, seg) == LoadChunks(file, vecStart, vecEnd, ByChunk, 0, seg);
    }
  }
}

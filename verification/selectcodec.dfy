/**
 * One record of the select table: a 12-byte union holding the select entry for
 * bit 0 in bytes [0, 6) and the one for bit 1 in bytes [6, 12). An entry is a
 * 48-bit split of a Java long: a 16-bit char (the low 16 bits) followed by a
 * 32-bit int (the next 32 bits), both stored little-endian (native order on
 * the platforms the code targets).
 */
module SelectCodec {
  import opened Bytes

  const RecordBytes: nat := 12
  const TwoTo16: int := 0x1_0000
  const TwoTo31: int := 0x8000_0000
  const TwoTo32: int := 0x1_0000_0000
  const TwoTo47: int := 0x8000_0000_0000
  const TwoTo63: int := 0x8000_0000_0000_0000
  const TwoTo64: int := 0x1_0000_0000_0000_0000

  type Record = r: seq<Byte> | |r| == 12 witness [0, 0, 0, 0, 0, 0, 0, 0, 0, 0, 0, 0]

  /** A freshly allocated record: arena memory starts zeroed. */
  const EmptyRecord: Record := [0, 0, 0, 0, 0, 0, 0, 0, 0, 0, 0, 0]

  predicate IsLong(v: int)
  {
    -TwoTo63 <= v < TwoTo63
  }

  /** Byte offset of the entry for `bit` inside a record. */
  function Offset(bit: int): (off: nat)
    requires bit == 0 || bit == 1
    ensures off + 6 <= RecordBytes
  {
    if bit == 0 then 0 else 6
  }

  function Le16(x: int): (r: seq<Byte>)
    requires 0 <= x < TwoTo16
    ensures |r| == 2
  {
    [x % 256, x / 256]
  }

  function Le32(x: int): (r: seq<Byte>)
    requires 0 <= x < TwoTo32
    ensures |r| == 4
  {
    [x % 256, (x / 256) % 256, (x / 256 / 256) % 256, x / 256 / 256 / 256]
  }

  function Read16(rec: Record, off: nat): (r: int)
    requires off + 2 <= RecordBytes
    ensures 0 <= r < TwoTo16
  {
    rec[off] as int + 256 * (rec[off + 1] as int)
  }

  function Read32(rec: Record, off: nat): (r: int)
    requires off + 4 <= RecordBytes
    ensures 0 <= r < TwoTo32
  {
    rec[off] as int + 256 * (rec[off + 1] as int) + 0x1_0000 * (rec[off + 2] as int) + 0x100_0000 * (rec[off + 3] as int)
  }

  /** The Java int whose bit pattern is the 32-bit value u. */
  function Signed32(u: int): int
    requires 0 <= u < TwoTo32
  {
    if u < TwoTo31 then u else u - TwoTo32
  }

  /**
   * setSelect: store `(char) value` and `(int) (value >>> 16)` at the
   * entry's offset. Bytes outside the entry are left alone.
   */
  function SetSelect(rec: Record, bit: int, value: int): (r: Record)
    requires bit == 0 || bit == 1
    requires IsLong(value)
    ensures forall j :: 0 <= j < RecordBytes && !(Offset(bit) <= j < Offset(bit) + 6) ==> r[j] == rec[j]
  {
    var off := Offset(bit);
    var low := value % TwoTo16;
    var high := ((value % TwoTo64) / TwoTo16) % TwoTo32;
    rec[..off] + Le16(low) + Le32(high) + rec[off + 6..]
  }

  /** getSelect: the unsigned char plus the sign-extended int shifted left by 16. */
  function GetSelect(rec: Record, bit: int): int
    requires bit == 0 || bit == 1
  {
    var off := Offset(bit);
    Read16(rec, off) + TwoTo16 * Signed32(Read32(rec, off + 2))
  }

  lemma Le16Read(rec: Record, off: nat, x: int)
    requires off + 2 <= RecordBytes && 0 <= x < TwoTo16
    requires rec[off..off + 2] == Le16(x)
    ensures Read16(rec, off) == x
  {
    var le := rec[off..off + 2];
    assert rec[off] == le[0] == x % 256 && rec[off + 1] == le[1] == x / 256;
  }

  lemma Le32Read(rec: Record, off: nat, x: int)
    requires off + 4 <= RecordBytes && 0 <= x < TwoTo32
    requires rec[off..off + 4] == Le32(x)
    ensures Read32(rec, off) == x
  {
    var y := x / 256;
    var z := y / 256;
    var le := rec[off..off + 4];
    assert rec[off] == le[0] == x % 256 && rec[off + 1] == le[1] == y % 256;
    assert rec[off + 2] == le[2] == z % 256 && rec[off + 3] == le[3] == z / 256;
    assert x == x % 256 + 256 * y && y == y % 256 + 256 * z && z == z % 256 + 256 * (z / 256);
  }

  /** The bytes an entry write leaves behind are the encodings of its two halves. */
  lemma SetSelectBytes(rec: Record, bit: int, value: int)
    requires bit == 0 || bit == 1
    requires IsLong(value)
    ensures var r := SetSelect(rec, bit, value); var off := Offset(bit);
      Read16(r, off) == value % TwoTo16
      && Read32(r, off + 2) == ((value % TwoTo64) / TwoTo16) % TwoTo32
  {
    var r := SetSelect(rec, bit, value);
    var off := Offset(bit);
    var low := value % TwoTo16;
    var high := ((value % TwoTo64) / TwoTo16) % TwoTo32;
    assert r[off..off + 2] == Le16(low);
    assert r[off + 2..off + 6] == Le32(high);
    Le16Read(r, off, low);
    Le32Read(r, off + 2, high);
  }

  /** Shifting the 64-bit pattern right by 16 keeps the low 32 bits of the floor quotient. */
  lemma HighHalf(value: int)
    requires IsLong(value)
    ensures ((value % TwoTo64) / TwoTo16) % TwoTo32 == (value / TwoTo16) % TwoTo32
  {
    var q := value / TwoTo16;
    if value < 0 {
      assert value % TwoTo64 == value + TwoTo64;
      DivModUnique(value + TwoTo64, TwoTo16, q + 0x1_0000_0000_0000, value % TwoTo16);
      DivModUnique(q + 0x1_0000_0000_0000, TwoTo32, q / TwoTo32 + 0x1_0000, q % TwoTo32);
    } else {
      assert value % TwoTo64 == value;
    }
  }

  /** Reading the low 32 bits of q back as a Java int gives q exactly when q is an int. */
  lemma Signed32Low(q: int)
    ensures Signed32(q % TwoTo32) == q <==> -TwoTo31 <= q < TwoTo31
  {
    if -TwoTo31 <= q < 0 {
      DivModUnique(q, TwoTo32, -1, q + TwoTo32);
    } else if 0 <= q < TwoTo31 {
      DivModUnique(q, TwoTo32, 0, q);
    }
  }

  /** The floor quotient by 2^16 is an int exactly for the longs in [-2^47, 2^47). */
  lemma QuotientIsInt(value: int)
    ensures -TwoTo31 <= value / TwoTo16 < TwoTo31 <==> -TwoTo47 <= value < TwoTo47
  {
    var q := value / TwoTo16;
    var r := value % TwoTo16;
    assert value == TwoTo16 * q + r && 0 <= r < TwoTo16;
    if q < -TwoTo31 {
      assert TwoTo16 * q <= TwoTo16 * (-TwoTo31 - 1);
    } else if q >= TwoTo31 {
      assert TwoTo16 * q >= TwoTo16 * TwoTo31;
    } else {
      assert TwoTo16 * q >= TwoTo16 * (-TwoTo31);
      assert TwoTo16 * q <= TwoTo16 * (TwoTo31 - 1);
    }
  }

  /**
   * The entry round-trips exactly for the values the 48-bit split can hold:
   * every long in [-2^47, 2^47), and no other.
   */
  lemma SelectRoundTrip(rec: Record, bit: int, value: int)
    requires bit == 0 || bit == 1
    requires IsLong(value)
    ensures GetSelect(SetSelect(rec, bit, value), bit) == value <==> -TwoTo47 <= value < TwoTo47
  {
    var q := value / TwoTo16;
    var low := value % TwoTo16;
    var r := SetSelect(rec, bit, value);
    var off := Offset(bit);
    SetSelectBytes(rec, bit, value);
    HighHalf(value);
    var s := Signed32(Read32(r, off + 2));
    assert s == Signed32(q % TwoTo32);
    assert GetSelect(r, bit) == low + TwoTo16 * s;
    assert value == low + TwoTo16 * q;
    Signed32Low(q);
    QuotientIsInt(value);
  }

  /** Writing the entry of one bit leaves the entry of the other bit unchanged. */
  lemma SelectIndependent(rec: Record, bit: int, other: int, value: int)
    requires bit == 0 || bit == 1
    requires other == 1 - bit
    requires IsLong(value)
    ensures GetSelect(SetSelect(rec, bit, value), other) == GetSelect(rec, other)
  {
    var r := SetSelect(rec, bit, value);
    var off := Offset(other);
    assert forall j :: off <= j < off + 6 ==> r[j] == rec[j];
  }

  /** An entry never written reads as 0. */
  lemma EmptyRecordReadsZero(bit: int)
    requires bit == 0 || bit == 1
    ensures GetSelect(EmptyRecord, bit) == 0
  {
  }
}

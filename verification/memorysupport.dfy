/**
 * The two text-scanning helpers the driver reads its input file with: finding
 * the next occurrence of a byte, and reading a run of digits as a Java long.
 * The file is a sequence of bytes; an index outside it is what a memory-segment
 * access would reject with IndexOutOfBoundsException.
 */
module MemorySupport {
  import opened Results
  import opened Bytes

  const Newline: Byte := 10
  const Space: Byte := 32
  const DigitZero: Byte := 48

  const TwoTo63: int := 0x8000_0000_0000_0000
  const TwoTo64: int := 0x1_0000_0000_0000_0000

  /**
   * indexOf: the first position at or after `start` holding `b`, or -1 when
   * there is none before the end of the file.
   */
  function IndexOf(file: seq<Byte>, start: nat, b: Byte): (r: int)
    ensures r == -1 <==> forall l :: start <= l < |file| ==> file[l] != b
    ensures r != -1 ==> start <= r < |file| && file[r] == b
    ensures forall l :: start <= l < r ==> file[l] != b
    decreases |file| - start
  {
    if start >= |file| then -1
    else if file[start] == b then start
    else IndexOf(file, start + 1, b)
  }

  /** The long whose two's-complement bit pattern is x modulo 2^64. */
  function Wrap64(x: int): (r: int)
    ensures -TwoTo63 <= r < TwoTo63
    ensures (x - r) % TwoTo64 == 0
    ensures -TwoTo63 <= x < TwoTo63 ==> r == x
  {
    (x + 0x8000_0000_0000_0000) % 0x1_0000_0000_0000_0000 - 0x8000_0000_0000_0000
  }

  /** The digit value a byte stands for: its distance from '0'. */
  function Digit(b: Byte): int
  {
    b as int - 48
  }

  /** Position l lies in the file and holds a digit below radix. */
  predicate DigitAt(file: seq<Byte>, l: int, radix: int)
  {
    0 <= l < |file| && 0 <= Digit(file[l]) < radix
  }

  /** Every position of [start, end) holds a digit below radix. */
  predicate ValidDigits(file: seq<Byte>, start: int, end: int, radix: int)
  {
    forall l :: start <= l < end ==> DigitAt(file, l, radix)
  }

  /** The unbounded number the digits of [start, end) spell, most significant first. */
  function DigitsValue(file: seq<Byte>, start: int, end: int, radix: nat): (v: nat)
    requires ValidDigits(file, start, end, radix)
    decreases end - start
  {
    if end <= start then 0
    else
      assert DigitAt(file, end - 1, radix);
      DigitsValue(file, start, end - 1, radix) * radix + Digit(file[end - 1])
  }

  /** Adding a multiple of 2^64 does not change the wrapped long. */
  lemma WrapShift(x: int, m: int)
    ensures Wrap64(x + TwoTo64 * m) == Wrap64(x)
  {
    var y := x + 0x8000_0000_0000_0000;
    var q := y / 0x1_0000_0000_0000_0000;
    var r := y % 0x1_0000_0000_0000_0000;
    assert y + 0x1_0000_0000_0000_0000 * m == 0x1_0000_0000_0000_0000 * (q + m) + r;
    DivModUnique(y + 0x1_0000_0000_0000_0000 * m, 0x1_0000_0000_0000_0000, q + m, r);
  }

  /** One Horner step on a wrapped value wraps to the same long as on the exact one. */
  lemma WrapStep(a: int, radix: int, v: int)
    ensures Wrap64(Wrap64(a) * radix + v) == Wrap64(a * radix + v)
  {
    var w := Wrap64(a);
    var m := (a - w) / TwoTo64;
    assert a - w == TwoTo64 * m;
    assert w * radix + v == (a * radix + v) + TwoTo64 * (-m * radix);
    WrapShift(a * radix + v, -m * radix);
  }

  /**
   * parseLong: Horner evaluation of the digits in [start, end) in long
   * arithmetic. Each byte read must lie in the file and be a digit below the
   * radix (the Java assert, with assertions enabled); the first position to
   * break either rule decides the failure. An empty or reversed range reads 0.
   */
  function ParseLong(file: seq<Byte>, start: int, end: int, radix: int): (r: Result<int>)
    requires 2 <= radix <= 10
    ensures r.Success? <==> ValidDigits(file, start, end, radix)
    ensures r.Success? ==> r.value == Wrap64(DigitsValue(file, start, end, radix))
    decreases end - start
  {
    if end <= start then Success(0)
    else
      var prefix :- ParseLong(file, start, end - 1, radix);
      if !(0 <= end - 1 < |file|) then
        assert !DigitAt(file, end - 1, radix);
        Failure(OutOfBounds)
      else
        var v := Digit(file[end - 1]);
        if !(0 <= v < radix) then
          assert !DigitAt(file, end - 1, radix);
          Failure(AssertionFailed)
        else
          WrapStep(DigitsValue(file, start, end - 1, radix), radix, v);
          Success(Wrap64(prefix * radix + v))
  }

  /** The first bad position decides the error: out of the file, or not a digit. */
  lemma {:induction false} ParseLongError(file: seq<Byte>, start: int, end: int, radix: int, l: int)
    requires 2 <= radix <= 10
    requires start <= l < end
    requires ValidDigits(file, start, l, radix) && !ValidDigits(file, start, l + 1, radix)
    ensures ParseLong(file, start, end, radix)
      == Failure(if 0 <= l < |file| then AssertionFailed else OutOfBounds)
    decreases end - start
  {
    if end - 1 > l {
      ParseLongError(file, start, end - 1, radix, l);
    } else {
      assert !DigitAt(file, l, radix);
    }
  }

  /** k digits in a radix stay below radix^k. */
  function Power(radix: nat, k: nat): (p: nat)
  {
    if k == 0 then 1 else radix * Power(radix, k - 1)
  }

  lemma {:induction false} DigitsBound(file: seq<Byte>, start: int, end: int, radix: nat)
    requires start <= end
    requires ValidDigits(file, start, end, radix)
    ensures DigitsValue(file, start, end, radix) < Power(radix, end - start)
    decreases end - start
  {
    if end > start {
      DigitsBound(file, start, end - 1, radix);
      var p := DigitsValue(file, start, end - 1, radix);
      assert DigitAt(file, end - 1, radix);
      var d := Digit(file[end - 1]);
      assert p * radix + d < (p + 1) * radix;
      assert p + 1 <= Power(radix, end - 1 - start);
      assert (p + 1) * radix <= Power(radix, end - 1 - start) * radix;
    }
  }

  /** A digit run splits at any point m: the high part scaled by radix^(end-m), plus the low part. */
  lemma {:induction false} DigitsSplit(file: seq<Byte>, start: int, m: int, end: int, radix: nat)
    requires start <= m <= end
    requires ValidDigits(file, start, end, radix)
    ensures ValidDigits(file, start, m, radix) && ValidDigits(file, m, end, radix)
    ensures DigitsValue(file, start, end, radix)
      == DigitsValue(file, start, m, radix) * Power(radix, end - m) + DigitsValue(file, m, end, radix)
    decreases end - m
  {
    if end > m {
      DigitsSplit(file, start, m, end - 1, radix);
      var hi := DigitsValue(file, start, m, radix);
      var lo := DigitsValue(file, m, end - 1, radix);
      var p := Power(radix, end - 1 - m);
      assert DigitAt(file, end - 1, radix);
      var d := Digit(file[end - 1]);
      assert DigitsValue(file, start, end, radix) == DigitsValue(file, start, end - 1, radix) * radix + d;
      assert DigitsValue(file, m, end, radix) == lo * radix + d;
      assert Power(radix, end - m) == radix * p;
      HornerShift(hi, p, lo, radix, d);
    }
  }

  /** A positive radix has positive powers. */
  lemma {:induction false} PowerPositive(radix: nat, k: nat)
    requires radix >= 1
    ensures Power(radix, k) >= 1
  {
    if k > 0 {
      PowerPositive(radix, k - 1);
      assert radix * Power(radix, k - 1) >= Power(radix, k - 1);
    }
  }

  /**
   * Without overflow, parsing splits at any point m: the high digits scaled
   * by radix^(end-m), plus the low digits.
   */
  lemma ParseLongSplit(file: seq<Byte>, start: int, m: int, end: int, radix: int)
    requires 2 <= radix <= 10 && start <= m <= end
    requires ValidDigits(file, start, end, radix)
    requires DigitsValue(file, start, end, radix) < TwoTo63
    ensures ParseLong(file, start, m, radix).Success? && ParseLong(file, m, end, radix).Success?
    ensures ParseLong(file, start, end, radix).Success?
    ensures ParseLong(file, start, end, radix).value
      == ParseLong(file, start, m, radix).value * Power(radix, end - m) + ParseLong(file, m, end, radix).value
  {
    DigitsSplit(file, start, m, end, radix);
    PowerPositive(radix, end - m);
    var whole := DigitsValue(file, start, end, radix);
    var hi := DigitsValue(file, start, m, radix);
    var lo := DigitsValue(file, m, end, radix);
    var p := Power(radix, end - m);
    assert whole == hi * p + lo;
    assert hi <= hi * p by {
      MulAtLeast(hi, p);
    }
    assert Wrap64(hi) == hi && Wrap64(lo) == lo && Wrap64(whole) == whole;
  }

  lemma MulAtLeast(a: nat, p: nat)
    requires p >= 1
    ensures a <= a * p
  {
  }

  /** One more low digit: the high part's weight grows by the radix along with the low part. */
  lemma HornerShift(hi: int, p: int, lo: int, radix: int, d: int)
    ensures (hi * p + lo) * radix + d == hi * (radix * p) + (lo * radix + d)
  {
    calc {
      (hi * p + lo) * radix + d;
      hi * p * radix + lo * radix + d;
      hi * (radix * p) + (lo * radix + d);
    }
  }

  /** The decimal rendering of a natural number, without leading zeros. */
  function Dec(v: nat): (s: seq<Byte>)
    ensures |s| >= 1
    ensures forall j :: 0 <= j < |s| ==> 48 <= s[j] < 58
  {
    if v < 10 then [48 + v] else Dec(v / 10) + [48 + v % 10]
  }

  /** Wherever the decimal rendering of v sits in the file, its digits spell v. */
  lemma {:induction false} DecValue(file: seq<Byte>, p: nat, v: nat)
    requires p + |Dec(v)| <= |file| && file[p..p + |Dec(v)|] == Dec(v)
    ensures ValidDigits(file, p, p + |Dec(v)|, 10)
    ensures DigitsValue(file, p, p + |Dec(v)|, 10) == v
  {
    var s := Dec(v);
    assert forall l :: p <= l < p + |s| ==> file[l] == s[l - p];
    if v >= 10 {
      var s0 := Dec(v / 10);
      assert s == s0 + [48 + v % 10];
      assert file[p..p + |s0|] == s[..|s0|] == s0;
      DecValue(file, p, v / 10);
    }
  }

  /** Parsing the decimal rendering of a long gives that long back. */
  lemma DecRoundTrip(file: seq<Byte>, p: nat, v: nat)
    requires v < TwoTo63
    requires p + |Dec(v)| <= |file| && file[p..p + |Dec(v)|] == Dec(v)
    ensures ParseLong(file, p, p + |Dec(v)|, 10) == Success(v)
  {
    DecValue(file, p, v);
  }
}

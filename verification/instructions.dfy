/**
 * The driver's instruction list. After the count line and the bit-string line
 * come n lines, each `access <index>`, `rank <bit> <index>` or
 * `select <bit> <rank>`; the parser dispatches on the first byte of a line and
 * reads the fields at fixed offsets from it, the last one up to the next
 * newline.
 */
module Instructions {
  import opened Results
  import opened Bytes
  import opened MemorySupport

  datatype Instruction =
    | Access(index: int)
    | Rank(index: int, bit: int)
    | Select(index: int, bit: int)

  const LetterA: Byte := 97
  const LetterR: Byte := 114
  const LetterS: Byte := 115
  const IntMax: int := 0x7fff_ffff

  /**
   * The decimal field starting at `offset` and running to the next newline.
   * Returns the value and the position of that newline (-1 when there is none,
   * in which case the range is empty and the value 0).
   */
  function TailField(file: seq<Byte>, offset: nat): (r: Result<(int, int)>)
    ensures r.Success? ==> r.value.1 == IndexOf(file, offset, Newline)
    ensures r.Success? <==> ValidDigits(file, offset, IndexOf(file, offset, Newline), 10)
  {
    var end := IndexOf(file, offset, Newline);
    var index :- ParseLong(file, offset, end, 10);
    Success((index, end))
  }

  /**
   * One iteration of the parse loop: the instruction the line at `lineStart`
   * holds, or None when its first byte is none of 'a', 'r', 's' (the slot stays
   * null), together with where the next line starts (unchanged in the None case).
   */
  function ParseLine(file: seq<Byte>, lineStart: int): (r: Result<(Option<Instruction>, int)>)
    ensures r.Success? && r.value.0.None? ==> r.value.1 == lineStart
    ensures r.Success? && r.value.0.Some? ==>
      r.value.1 == 0 || (0 <= lineStart < r.value.1 <= |file| && file[r.value.1 - 1] == Newline)
    ensures 0 <= lineStart < |file| && file[lineStart] !in {LetterA, LetterR, LetterS}
      ==> r == Success((None, lineStart))
    ensures !(0 <= lineStart < |file|) ==> r == Failure(OutOfBounds)
  {
    if !(0 <= lineStart < |file|) then Failure(OutOfBounds)
    else if file[lineStart] == LetterA then
      var field :- TailField(file, lineStart + 7);
      Success((Some(Access(field.0)), field.1 + 1))
    else if file[lineStart] == LetterR then
      var bit :- ParseLong(file, lineStart + 5, lineStart + 6, 2);
      var field :- TailField(file, lineStart + 7);
      Success((Some(Rank(field.0, bit)), field.1 + 1))
    else if file[lineStart] == LetterS then
      var bit :- ParseLong(file, lineStart + 7, lineStart + 8, 2);
      var field :- TailField(file, lineStart + 9);
      Success((Some(Select(field.0, bit)), field.1 + 1))
    else Success((None, lineStart))
  }

  /** The parse loop from `lineStart` on, one slot per iteration, in line order. */
  function ParseAll(file: seq<Byte>, lineStart: int, count: nat): (r: Result<seq<Option<Instruction>>>)
    ensures r.Success? ==> |r.value| == count
    decreases count
  {
    if count == 0 then Success([])
    else
      var line :- ParseLine(file, lineStart);
      var rest :- ParseAll(file, line.1, count - 1);
      Success([line.0] + rest)
  }

  /**
   * parseInstructions: an array of exactly n slots, allocated after
   * `Math.toIntExact(n)`; a count outside [0, 2^31) is rejected before any
   * line is read.
   */
  function ParseInstructions(file: seq<Byte>, instructionsStart: int, n: int): (r: Result<seq<Option<Instruction>>>)
    ensures !(0 <= n <= IntMax) ==> r == Failure(BadSize)
    ensures r.Success? ==> |r.value| == n
  {
    if !(0 <= n <= IntMax) then Failure(BadSize)
    else ParseAll(file, instructionsStart, n)
  }

  /** n empty slots. */
  function Nones(n: nat): (r: seq<Option<Instruction>>)
    ensures |r| == n && forall k :: 0 <= k < n ==> r[k].None?
  {
    if n == 0 then [] else [None] + Nones(n - 1)
  }

  /** Every instruction in its own filled slot. */
  function Somes(instrs: seq<Instruction>): (r: seq<Option<Instruction>>)
    ensures |r| == |instrs|
  {
    if |instrs| == 0 then [] else [Some(instrs[0])] + Somes(instrs[1..])
  }

  /** Slot k of Somes(instrs) holds instruction k. */
  lemma {:induction false} SomesSlots(instrs: seq<Instruction>, k: nat)
    requires k < |instrs|
    ensures Somes(instrs)[k] == Some(instrs[k])
    decreases k
  {
    if k > 0 {
      SomesSlots(instrs[1..], k - 1);
    }
  }

  /** A line whose first byte is not an instruction letter is never left: every later slot stays empty. */
  lemma {:induction false} StuckLine(file: seq<Byte>, lineStart: int, count: nat)
    requires 0 <= lineStart < |file| && file[lineStart] !in {LetterA, LetterR, LetterS}
    ensures ParseAll(file, lineStart, count) == Success(Nones(count))
  {
    if count > 0 {
      StuckLine(file, lineStart, count - 1);
      assert ParseLine(file, lineStart) == Success((None, lineStart));
    }
  }

  /** The instructions the driver's file format can express. */
  predicate WellFormed(i: Instruction)
  {
    0 <= i.index < TwoTo63 && (i.Access? || i.bit == 0 || i.bit == 1)
  }

  type Renderable = i: Instruction | WellFormed(i) witness Access(0)

  /** The fixed-width part of a line, up to where its decimal field starts. */
  function Head(i: Renderable): (h: seq<Byte>)
  {
    match i
    case Access(_) => [97, 99, 99, 101, 115, 115, 32]
    case Rank(_, bit) => [114, 97, 110, 107, 32, 48 + bit, 32]
    case Select(_, bit) => [115, 101, 108, 101, 99, 116, 32, 48 + bit, 32]
  }

  /** The text of one instruction line, newline included. */
  function RenderLine(i: Renderable): (s: seq<Byte>)
  {
    Head(i) + Dec(i.index) + [Newline]
  }

  function Render(instrs: seq<Renderable>): (s: seq<Byte>)
  {
    if |instrs| == 0 then [] else RenderLine(instrs[0]) + Render(instrs[1..])
  }

  /** A decimal rendering followed by a newline reads back as its value, ending at that newline. */
  lemma TailFieldRoundTrip(file: seq<Byte>, start: nat, v: nat)
    requires v < TwoTo63
    requires start + |Dec(v)| < |file| && file[start..start + |Dec(v)|] == Dec(v)
    requires file[start + |Dec(v)|] == Newline
    ensures TailField(file, start) == Success((v, start + |Dec(v)|))
  {
    var d := Dec(v);
    var e := start + |d|;
    forall l | start <= l < e
      ensures file[l] != Newline
    {
      assert file[l] == file[start..e][l - start] == d[l - start];
    }
    assert IndexOf(file, start, Newline) == e;
    DecRoundTrip(file, start, v);
  }

  /** A one-character binary field holding '0' or '1' reads as that bit. */
  lemma BitFieldRoundTrip(file: seq<Byte>, pos: nat, bit: int)
    requires bit == 0 || bit == 1
    requires pos < |file| && file[pos] == 48 + bit
    ensures ParseLong(file, pos, pos + 1, 2) == Success(bit)
  {
    assert DigitAt(file, pos, 2);
    assert DigitsValue(file, pos, pos + 1, 2) == bit;
  }

  /** The bytes a line must hold at fixed offsets for the parser to read instruction i from it. */
  predicate LineAt(file: seq<Byte>, p: nat, i: Renderable)
  {
    var h := if i.Select? then 9 else 7;
    var e := p + h + |Dec(i.index)|;
    e < |file| && file[p + h..e] == Dec(i.index) && file[e] == Newline
    && file[p] == (if i.Access? then LetterA else if i.Rank? then LetterR else LetterS)
    && (i.Rank? ==> file[p + 5] == 48 + i.bit)
    && (i.Select? ==> file[p + 7] == 48 + i.bit)
  }

  /** An access line: 'a' at p, the decimal index from p + 7 up to a newline. */
  lemma AccessLineAt(file: seq<Byte>, p: nat, index: nat, e: nat)
    requires index < TwoTo63 && e == p + 7 + |Dec(index)| && e < |file|
    requires file[p + 7..e] == Dec(index) && file[e] == Newline && file[p] == LetterA
    ensures ParseLine(file, p) == Success((Some(Access(index)), e + 1))
  {
    TailFieldRoundTrip(file, p + 7, index);
  }

  /** A rank line: 'r' at p, the bit at p + 5, the decimal index from p + 7 up to a newline. */
  lemma RankLineAt(file: seq<Byte>, p: nat, index: nat, bit: int, e: nat)
    requires bit == 0 || bit == 1
    requires index < TwoTo63 && e == p + 7 + |Dec(index)| && e < |file|
    requires file[p + 7..e] == Dec(index) && file[e] == Newline && file[p] == LetterR && file[p + 5] == 48 + bit
    ensures ParseLine(file, p) == Success((Some(Rank(index, bit)), e + 1))
  {
    TailFieldRoundTrip(file, p + 7, index);
    BitFieldRoundTrip(file, p + 5, bit);
    assert file[p] != LetterA;
  }

  /** A select line: 's' at p, the bit at p + 7, the decimal rank from p + 9 up to a newline. */
  lemma SelectLineAt(file: seq<Byte>, p: nat, index: nat, bit: int, e: nat)
    requires bit == 0 || bit == 1
    requires index < TwoTo63 && e == p + 9 + |Dec(index)| && e < |file|
    requires file[p + 9..e] == Dec(index) && file[e] == Newline && file[p] == LetterS && file[p + 7] == 48 + bit
    ensures ParseLine(file, p) == Success((Some(Select(index, bit)), e + 1))
  {
    TailFieldRoundTrip(file, p + 9, index);
    BitFieldRoundTrip(file, p + 7, bit);
    assert file[p] != LetterA && file[p] != LetterR;
  }

  /** A line with the expected bytes at the expected offsets parses to its instruction. */
  lemma ParseLineAt(file: seq<Byte>, p: nat, i: Renderable)
    requires LineAt(file, p, i)
    ensures ParseLine(file, p) == Success((Some(i), p + (if i.Select? then 9 else 7) + |Dec(i.index)| + 1))
  {
    var e := p + (if i.Select? then 9 else 7) + |Dec(i.index)|;
    match i
    case Access(index) => AccessLineAt(file, p, index, e);
    case Rank(index, bit) => RankLineAt(file, p, index, bit, e);
    case Select(index, bit) => SelectLineAt(file, p, index, bit, e);
  }

  /** A rendered line has the bytes the parser looks for at the offsets it looks at. */
  lemma RenderedLineAt(file: seq<Byte>, p: nat, i: Renderable)
    requires p + |RenderLine(i)| <= |file| && file[p..p + |RenderLine(i)|] == RenderLine(i)
    ensures LineAt(file, p, i)
    ensures |RenderLine(i)| == (if i.Select? then 9 else 7) + |Dec(i.index)| + 1
  {
    var line := RenderLine(i);
    var h := |Head(i)|;
    var d := Dec(i.index);
    assert h == if i.Select? then 9 else 7;
    assert line == Head(i) + d + [Newline];
    forall k | 0 <= k < |d|
      ensures file[p + h + k] == d[k]
    {
      assert file[p + h + k] == file[p..p + |line|][h + k] == line[h + k];
    }
    assert file[p + h..p + h + |d|] == d;
    assert file[p + h + |d|] == line[h + |d|] == Newline;
    assert file[p] == line[0];
    assert file[p + 5] == line[5];
    assert file[p + 7] == line[7];
  }

  /** Parsing a rendered line gives back its instruction and steps past its newline. */
  lemma ParseLineRoundTrip(file: seq<Byte>, p: nat, i: Renderable)
    requires p + |RenderLine(i)| <= |file| && file[p..p + |RenderLine(i)|] == RenderLine(i)
    ensures ParseLine(file, p) == Success((Some(i), p + |RenderLine(i)|))
  {
    RenderedLineAt(file, p, i);
    ParseLineAt(file, p, i);
  }

  /** One turn of the parse loop: a parsed line followed by the parse of the lines after it. */
  lemma ParseAllStep(file: seq<Byte>, p: int, count: nat, slot: Option<Instruction>, q: int, rest: seq<Option<Instruction>>)
    requires count > 0
    requires ParseLine(file, p) == Success((slot, q))
    requires ParseAll(file, q, count - 1) == Success(rest)
    ensures ParseAll(file, p, count) == Success([slot] + rest)
  {
  }

  /** The rendering of a list is the rendering of its first line followed by that of the rest. */
  lemma RenderSplit(file: seq<Byte>, p: nat, instrs: seq<Renderable>)
    requires |instrs| > 0
    requires p + |Render(instrs)| <= |file| && file[p..p + |Render(instrs)|] == Render(instrs)
    ensures var q := p + |RenderLine(instrs[0])|;
      file[p..q] == RenderLine(instrs[0])
      && q + |Render(instrs[1..])| <= |file| && file[q..q + |Render(instrs[1..])|] == Render(instrs[1..])
  {
    assert Render(instrs) == RenderLine(instrs[0]) + Render(instrs[1..]);
    SliceSplit(file, p, RenderLine(instrs[0]), Render(instrs[1..]));
  }

  /** Where a concatenation sits in the file, so do its two parts, one after the other. */
  lemma SliceSplit(file: seq<Byte>, p: nat, a: seq<Byte>, b: seq<Byte>)
    requires p + |a + b| <= |file| && file[p..p + |a + b|] == a + b
    ensures file[p..p + |a|] == a
    ensures p + |a| + |b| <= |file| && file[p + |a|..p + |a| + |b|] == b
  {
    assert file[p..p + |a|] == file[p..p + |a + b|][..|a|];
    assert file[p + |a|..p + |a| + |b|] == file[p..p + |a + b|][|a|..];
  }

  /** The first parsed line in front of the parsed rest is the parse of the whole list. */
  lemma ParseAllCons(file: seq<Byte>, p: nat, instrs: seq<Renderable>, tail: seq<Renderable>, q: nat)
    requires |instrs| > 0 && tail == instrs[1..]
    requires ParseLine(file, p) == Success((Some(instrs[0]), q))
    requires ParseAll(file, q, |tail|) == Success(Somes(tail))
    ensures ParseAll(file, p, |instrs|) == Success(Somes(instrs))
  {
    assert Somes(instrs) == [Some(instrs[0])] + Somes(tail);
    ParseAllStep(file, p, |instrs|, Some(instrs[0]), q, Somes(tail));
  }

  /** The rendering of each instruction of the list sits in the file line after line from p on. */
  predicate RenderedAt(file: seq<Byte>, p: nat, instrs: seq<Renderable>)
    decreases |instrs|
  {
    |instrs| == 0
    || (var q := p + |RenderLine(instrs[0])|;
        q <= |file| && file[p..q] == RenderLine(instrs[0]) && RenderedAt(file, q, instrs[1..]))
  }

  /** Where the rendering of a list sits in the file, its lines sit one after the other. */
  lemma {:induction false} RenderedLines(file: seq<Byte>, p: nat, instrs: seq<Renderable>)
    requires p + |Render(instrs)| <= |file| && file[p..p + |Render(instrs)|] == Render(instrs)
    ensures RenderedAt(file, p, instrs)
    decreases |instrs|
  {
    if |instrs| > 0 {
      RenderSplit(file, p, instrs);
      RenderedLines(file, p + |RenderLine(instrs[0])|, instrs[1..]);
    }
  }

  /** Parsing rendered lines, line after line, fills every slot with its instruction. */
  lemma {:induction false} ParseLinesRoundTrip(file: seq<Byte>, p: nat, instrs: seq<Renderable>)
    requires RenderedAt(file, p, instrs)
    ensures ParseAll(file, p, |instrs|) == Success(Somes(instrs))
    decreases |instrs|
  {
    if |instrs| > 0 {
      var q, tail := p + |RenderLine(instrs[0])|, instrs[1..];
      ParseLineRoundTrip(file, p, instrs[0]);
      ParseLinesRoundTrip(file, q, tail);
      ParseAllCons(file, p, instrs, tail, q);
    }
  }

  /** Parsing the rendering of a whole instruction list fills every slot with its instruction. */
  lemma ParseAllRoundTrip(file: seq<Byte>, p: nat, instrs: seq<Renderable>)
    requires p + |Render(instrs)| <= |file| && file[p..p + |Render(instrs)|] == Render(instrs)
    ensures ParseAll(file, p, |instrs|) == Success(Somes(instrs))
  {
    RenderedLines(file, p, instrs);
    ParseLinesRoundTrip(file, p, instrs);
  }

}

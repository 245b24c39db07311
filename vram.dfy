/** Writers into the frame buffer: decimal counters, erasing the piece cells of the
    playfield area and stamping one piece cell. The buffer is the byte array the view
    owns; the screen positions of the playfield area (`gridOrigin`, `gridEnd`) are
    parameters. */
module Vram {
  import opened Ints
  import opened View

  /** '0', ' ' and 'H' in ASCII. */
  const ZERO_CHAR: Byte := 48
  const SPACE_CHAR: Byte := 32
  const TETROMINO_CELL_CHAR: Byte := 72

  /** The ASCII code of a decimal digit; the u8 addition panics past 255. */
  function DigitToUtf8(digit: Byte): (r: Byte)
    requires ZERO_CHAR + digit < 256
    ensures DigitValue(r) == digit
    ensures digit <= 9 ==> IsAsciiDigit(r)
  {
    ZERO_CHAR + digit
  }

  predicate IsAsciiDigit(b: Byte) {
    ZERO_CHAR <= b <= ZERO_CHAR + 9
  }

  /** The digit an ASCII digit stands for. */
  function DigitValue(b: Byte): int {
    b - ZERO_CHAR
  }

  function Pow10(e: nat): (p: nat)
    ensures p > 0
  {
    if e == 0 then 1 else 10 * Pow10(e - 1)
  }

  /** The ASCII digits of n modulo 10^width, most significant first, padded with '0'. */
  function DecimalDigits(n: nat, width: nat): (s: seq<Byte>)
    ensures |s| == width
    ensures forall k :: 0 <= k < width ==> IsAsciiDigit(s[k])
  {
    if width == 0 then [] else DecimalDigits(n / 10, width - 1) + [DigitToUtf8(n % 10)]
  }

  /** The number a string of digits spells, most significant first. */
  function DecimalValue(s: seq<Byte>): int {
    if s == [] then 0 else DecimalValue(s[..|s| - 1]) * 10 + DigitValue(s[|s| - 1])
  }

  /** Reading back the digits of n gives n modulo 10^width. */
  lemma {:induction false} DecimalRoundTrip(n: nat, width: nat)
    ensures DecimalValue(DecimalDigits(n, width)) == n % Pow10(width)
  {
    if width > 0 {
      var s := DecimalDigits(n, width);
      assert s[..|s| - 1] == DecimalDigits(n / 10, width - 1);
      DecimalRoundTrip(n / 10, width - 1);
      ModTenTimes(n, Pow10(width - 1));
    }
  }

  /** The five digits of n, each taken from the quotient by its power of ten. */
  lemma FiveDigits(n: nat)
    ensures DecimalDigits(n, 5) == [
      DigitToUtf8((n / 10000) % 10), DigitToUtf8((n / 1000) % 10), DigitToUtf8((n / 100) % 10),
      DigitToUtf8((n / 10) % 10), DigitToUtf8(n % 10)]
  {
    DivDiv(n, 10, 10);
    DivDiv(n, 100, 10);
    DivDiv(n, 1000, 10);
    assert n / 10 / 10 / 10 / 10 == n / 10000;
  }

  /** Writes the last five decimal digits of n so that the least significant lands at `position`. */
  method LoadUint(vram: array<Byte>, n: U32, position: Usize)
    requires 4 <= position < vram.Length
    modifies vram
    ensures vram[position - 4 .. position + 1] == DecimalDigits(n, 5)
    ensures DecimalValue(vram[position - 4 .. position + 1]) == n % 100000
    ensures forall q :: 0 <= q < vram.Length && !(position - 4 <= q <= position) ==> vram[q] == old(vram[q])
  {
    var digit0 := DigitToUtf8(n % 10);
    var digit1 := DigitToUtf8((n / 10) % 10);
    var digit2 := DigitToUtf8((n / 100) % 10);
    var digit3 := DigitToUtf8((n / 1000) % 10);
    var digit4 := DigitToUtf8((n / 10000) % 10);

    vram[position] := digit0;
    vram[position - 1] := digit1;
    vram[position - 2] := digit2;
    vram[position - 3] := digit3;
    vram[position - 4] := digit4;

    FiveDigits(n);
    assert vram[position - 4 .. position + 1] == [digit4, digit3, digit2, digit1, digit0];
    DecimalRoundTrip(n, 5);
  }

  /** The buffer with every 'H' in [gridOrigin, gridEnd) turned into a space. */
  function ClearedGrid(s: seq<Byte>, gridOrigin: nat, gridEnd: nat): (r: seq<Byte>)
    ensures |r| == |s|
    ensures forall q :: 0 <= q < |s| && gridOrigin <= q < gridEnd ==> r[q] != TETROMINO_CELL_CHAR
    ensures forall q :: 0 <= q < |s| && gridOrigin <= q < gridEnd && s[q] == TETROMINO_CELL_CHAR ==> r[q] == SPACE_CHAR
    ensures forall q :: 0 <= q < |s| && !(gridOrigin <= q < gridEnd) ==> r[q] == s[q]
    ensures forall q :: 0 <= q < |s| && s[q] != TETROMINO_CELL_CHAR ==> r[q] == s[q]
  {
    seq(|s|, q requires 0 <= q < |s| =>
      if gridOrigin <= q < gridEnd && s[q] == TETROMINO_CELL_CHAR then SPACE_CHAR else s[q])
  }

  /** Clearing twice is clearing once. */
  lemma ClearedGridIdempotent(s: seq<Byte>, gridOrigin: nat, gridEnd: nat)
    ensures ClearedGrid(ClearedGrid(s, gridOrigin, gridEnd), gridOrigin, gridEnd) == ClearedGrid(s, gridOrigin, gridEnd)
  {
  }

  /** Replaces every 'H' between gridOrigin (included) and gridEnd (excluded) by a space. */
  method ClearGrid(vram: array<Byte>, gridOrigin: Usize, gridEnd: Usize)
    requires gridEnd <= gridOrigin || gridEnd <= vram.Length
    modifies vram
    ensures vram[..] == ClearedGrid(old(vram[..]), gridOrigin, gridEnd)
  {
    var index := gridOrigin;
    while index < gridEnd
      invariant index == gridOrigin || gridOrigin < index <= gridEnd
      invariant vram[..] == ClearedGrid(old(vram[..]), gridOrigin, index)
    {
      if vram[index] == TETROMINO_CELL_CHAR {
        vram[index] := SPACE_CHAR;
      }
      index := index + 1;
    }
    assert ClearedGrid(old(vram[..]), gridOrigin, index) == ClearedGrid(old(vram[..]), gridOrigin, gridEnd);
  }

  /** The buffer after stamping a piece cell at p as written: untouched when p lies
      before gridOrigin or after gridEnd, otherwise 'H' at p and p + 1. */
  function StampedCell(s: seq<Byte>, p: nat, gridOrigin: nat, gridEnd: nat): (r: seq<Byte>)
    requires p < gridOrigin || p > gridEnd || p + 1 < |s|
    ensures |r| == |s|
    ensures p < gridOrigin || p > gridEnd ==> r == s
    ensures gridOrigin <= p <= gridEnd ==>
      r[p] == TETROMINO_CELL_CHAR && r[p + 1] == TETROMINO_CELL_CHAR
      && forall q :: 0 <= q < |s| && q != p && q != p + 1 ==> r[q] == s[q]
  {
    if p < gridOrigin || p > gridEnd then s else s[p := TETROMINO_CELL_CHAR][p + 1 := TETROMINO_CELL_CHAR]
  }

  method LoadHoldedTetrominoCell(vram: array<Byte>, cellScreenPosition: Usize, gridOrigin: Usize, gridEnd: Usize)
    requires cellScreenPosition < gridOrigin || cellScreenPosition > gridEnd || cellScreenPosition + 1 < vram.Length
    modifies vram
    ensures vram[..] == StampedCell(old(vram[..]), cellScreenPosition, gridOrigin, gridEnd)
  {
    if cellScreenPosition < gridOrigin || cellScreenPosition > gridEnd {
      return;
    }
    vram[cellScreenPosition] := TETROMINO_CELL_CHAR;
    vram[cellScreenPosition + 1] := TETROMINO_CELL_CHAR;
  }

  /** As written, a cell stamped at gridEnd lies outside the range ClearGrid erases:
      both of its bytes survive the next clearing. */
  lemma StampAtGridEndSurvivesClear(s: seq<Byte>, gridOrigin: nat, gridEnd: nat)
    requires gridOrigin <= gridEnd && gridEnd + 1 < |s|
    ensures var cleared := ClearedGrid(StampedCell(s, gridEnd, gridOrigin, gridEnd), gridOrigin, gridEnd);
      cleared[gridEnd] == TETROMINO_CELL_CHAR && cleared[gridEnd + 1] == TETROMINO_CELL_CHAR
  {
  }

  /** The stamp as evidently intended: only a cell whose two bytes both lie in
      [gridOrigin, gridEnd), the range ClearGrid erases, is drawn. */
  function StampedCellIntended(s: seq<Byte>, p: nat, gridOrigin: nat, gridEnd: nat): (r: seq<Byte>)
    requires p < gridOrigin || p + 1 >= gridEnd || gridEnd <= |s|
    ensures |r| == |s|
    ensures p < gridOrigin || p + 1 >= gridEnd ==> r == s
    ensures gridOrigin <= p && p + 1 < gridEnd ==>
      r[p] == TETROMINO_CELL_CHAR && r[p + 1] == TETROMINO_CELL_CHAR
      && forall q :: 0 <= q < |s| && q != p && q != p + 1 ==> r[q] == s[q]
  {
    if p < gridOrigin || p + 1 >= gridEnd then s else s[p := TETROMINO_CELL_CHAR][p + 1 := TETROMINO_CELL_CHAR]
  }

  method LoadHoldedTetrominoCellIntended(vram: array<Byte>, cellScreenPosition: Usize, gridOrigin: Usize, gridEnd: Usize)
    requires cellScreenPosition < gridOrigin || cellScreenPosition + 1 >= gridEnd || gridEnd <= vram.Length
    modifies vram
    ensures vram[..] == StampedCellIntended(old(vram[..]), cellScreenPosition, gridOrigin, gridEnd)
  {
    if cellScreenPosition < gridOrigin || cellScreenPosition + 1 >= gridEnd {
      return;
    }
    vram[cellScreenPosition] := TETROMINO_CELL_CHAR;
    vram[cellScreenPosition + 1] := TETROMINO_CELL_CHAR;
  }

  /** With the intended guard, clearing erases whatever one stamp drew: the result is
      the cleared buffer with the stamped bytes blank. */
  lemma ClearErasesIntendedStamp(s: seq<Byte>, p: nat, gridOrigin: nat, gridEnd: nat)
    requires p < gridOrigin || p + 1 >= gridEnd || gridEnd <= |s|
    ensures var cleared := ClearedGrid(StampedCellIntended(s, p, gridOrigin, gridEnd), gridOrigin, gridEnd);
      if p < gridOrigin || p + 1 >= gridEnd then cleared == ClearedGrid(s, gridOrigin, gridEnd)
      else cleared == ClearedGrid(s, gridOrigin, gridEnd)[p := SPACE_CHAR][p + 1 := SPACE_CHAR]
  {
  }
}

/** The playfield's dimensions and its coordinates. */
module Grid {
  import opened Ints

  const GRID_WIDTH: Usize := 10
  const GRID_HEIGHT: Usize := 20
  const GRID_LENGTH: Usize := GRID_HEIGHT * GRID_WIDTH
  const NEXT_TETROMINOS_QUEUE_SIZE: Usize := 3

  /** A (row, column) pair of unsigned machine integers. A coordinate computed
      from a negative signed value holds that value wrapped modulo 2^64. */
  datatype GridCoords = GridCoords(i: Usize, j: Usize)
  {
    predicate Equals(other: GridCoords)
      ensures Equals(other) <==> this == other
    {
      i == other.i && j == other.j
    }

    /** Row-major index of the cell; for a cell of the playfield it lies in
        [0, GRID_LENGTH) and gives back the row and the column. */
    function ToGridIndex(): (r: Usize)
      requires i * GRID_WIDTH + j < USIZE_MODULUS
      ensures InGrid(this) ==> r < GRID_LENGTH && r / GRID_WIDTH == i && r % GRID_WIDTH == j
    {
      i * GRID_WIDTH + j
    }
  }

  predicate InGrid(c: GridCoords) {
    c.i < GRID_HEIGHT && c.j < GRID_WIDTH
  }

  /** The cell of the playfield with a given row-major index. */
  function CoordsOfIndex(index: Usize): GridCoords {
    GridCoords(index / GRID_WIDTH, index % GRID_WIDTH)
  }

  /** Converting a playfield cell to its index and back gives the cell. */
  lemma CoordsOfIndexRoundTrip(c: GridCoords)
    requires InGrid(c)
    ensures CoordsOfIndex(c.ToGridIndex()) == c
  {
  }

  /** Two cells of the playfield with the same index are the same cell. */
  lemma ToGridIndexInjective(a: GridCoords, b: GridCoords)
    requires InGrid(a) && InGrid(b)
    requires a.ToGridIndex() == b.ToGridIndex()
    ensures a == b
  {
    assert a.i == a.ToGridIndex() / GRID_WIDTH == b.i;
  }

  /** The usize that a small signed value becomes: itself, or itself plus 2^64 when negative. */
  function Wrap(x: int): int {
    if x >= 0 then x else x + USIZE_MODULUS
  }

  /** A signed offset (delta row, delta column). */
  type Offset = (int, int)

  /** The i32 arithmetic of `(c.i as i32 + d.0) as usize` does not overflow. */
  predicate CanTranslate(c: GridCoords, d: Offset) {
    FitsI32(AsI32(c.i) + d.0) && FitsI32(AsI32(c.j) + d.1)
  }

  /** `(c as i32 + d) as usize`, componentwise. For a cell with small coordinates
      this is plain addition, a negative result wrapping to a value >= 2^63. */
  function Translate(c: GridCoords, d: Offset): (r: GridCoords)
    requires CanTranslate(c, d)
    ensures c.i <= I32_MAX ==> r.i == Wrap(c.i + d.0)
    ensures c.j <= I32_MAX ==> r.j == Wrap(c.j + d.1)
  {
    GridCoords(AsUsize(AsI32(c.i) + d.0), AsUsize(AsI32(c.j) + d.1))
  }

  /** A cell near the playfield moved by a small offset: plain addition, a negative
      component wrapping to a value far outside the playfield. */
  lemma TranslateSmall(c: GridCoords, d: Offset)
    requires c.i <= GRID_HEIGHT + 2 && c.j <= GRID_WIDTH + 2
    requires -2 <= d.0 <= 2 && -2 <= d.1 <= 2
    ensures CanTranslate(c, d)
    ensures Translate(c, d) == GridCoords(Wrap(c.i + d.0), Wrap(c.j + d.1))
    ensures InGrid(Translate(c, d)) <==> 0 <= c.i + d.0 < GRID_HEIGHT && 0 <= c.j + d.1 < GRID_WIDTH
  {
  }

  /** The cell at small signed coordinates (x, y), stored wrapped; moving it adds
      the offset to the signed coordinates, and it is on the playfield exactly
      when the signed coordinates are. */
  lemma TranslateWrapped(x: int, y: int, d: Offset)
    requires -4 <= x <= GRID_HEIGHT + 4 && -4 <= y <= GRID_HEIGHT + 4
    requires -2 <= d.0 <= 2 && -2 <= d.1 <= 2
    ensures CanTranslate(GridCoords(Wrap(x), Wrap(y)), d)
    ensures Translate(GridCoords(Wrap(x), Wrap(y)), d) == GridCoords(Wrap(x + d.0), Wrap(y + d.1))
    ensures InGrid(GridCoords(Wrap(x), Wrap(y))) <==> 0 <= x < GRID_HEIGHT && 0 <= y < GRID_WIDTH
  {
    AsI32OfAsUsize(x);
    AsI32OfAsUsize(y);
  }

  /** Moving a cell at small signed coordinates by an offset and back returns it. */
  lemma TranslateBack(x: int, y: int, d: Offset)
    requires -3 <= x <= GRID_HEIGHT + 3 && -3 <= y <= GRID_HEIGHT + 3
    requires -1 <= d.0 <= 1 && -1 <= d.1 <= 1
    ensures CanTranslate(GridCoords(Wrap(x), Wrap(y)), d)
    ensures CanTranslate(Translate(GridCoords(Wrap(x), Wrap(y)), d), (-d.0, -d.1))
    ensures Translate(Translate(GridCoords(Wrap(x), Wrap(y)), d), (-d.0, -d.1)) == GridCoords(Wrap(x), Wrap(y))
  {
    TranslateWrapped(x, y, d);
    TranslateWrapped(x + d.0, y + d.1, (-d.0, -d.1));
  }
}

/** Projection of pieces onto the screen: the frame-buffer index of each of the four
    cells of a piece. The screen position of the playfield's top-left cell and the
    width of a cell on screen are parameters (`gridOrigin`, `cellWidth`). */
module Sprites {
  import opened Ints
  import opened Options
  import opened Grid
  import opened Tetrominoes
  import opened GameState
  import opened View

  /** Screen indices of the four cells, centre first; None for a cell above or left of the buffer's start. */
  type ScreenCells = (Option<Usize>, Option<Usize>, Option<Usize>, Option<Usize>)

  datatype TetrominoSprite = TetrominoSprite(tetromino: Tetromino, cellsScreenPosition: ScreenCells)

  /** The usize arithmetic of a cell's screen index does not overflow. */
  predicate ScreenIndexDefined(c: GridCoords, gridOrigin: Usize, cellWidth: Usize) {
    gridOrigin + c.i * SCREEN_WIDTH + c.j * cellWidth < USIZE_MODULUS
  }

  /** Screen index of a grid cell: the origin moved down i lines and right j cells. */
  function ToScreenIndex(c: GridCoords, gridOrigin: Usize, cellWidth: Usize): (r: Usize)
    requires ScreenIndexDefined(c, gridOrigin, cellWidth)
    ensures r >= gridOrigin + c.i * SCREEN_WIDTH
  {
    gridOrigin + c.i * SCREEN_WIDTH + c.j * cellWidth
  }

  /** The playfield's cells fit side by side on one screen line. */
  predicate RowFitsLine(cellWidth: Usize) {
    0 < cellWidth && GRID_WIDTH * cellWidth <= SCREEN_WIDTH
  }

  /** The row and the column of a playfield cell can be read back from its screen index. */
  lemma ToScreenIndexRoundTrip(c: GridCoords, gridOrigin: Usize, cellWidth: Usize)
    requires InGrid(c) && RowFitsLine(cellWidth)
    requires ScreenIndexDefined(c, gridOrigin, cellWidth)
    ensures var offset := ToScreenIndex(c, gridOrigin, cellWidth) - gridOrigin;
      offset / SCREEN_WIDTH == c.i && (offset % SCREEN_WIDTH) / cellWidth == c.j
      && (offset % SCREEN_WIDTH) % cellWidth == 0
  {
    BoundedTimes(c.j, GRID_WIDTH - 1, cellWidth);
    DivModUnique(c.i * SCREEN_WIDTH + c.j * cellWidth, SCREEN_WIDTH, c.i, c.j * cellWidth);
    DivModUnique(c.j * cellWidth, cellWidth, c.j, 0);
  }

  /** Distinct playfield cells are shown at distinct screen indices. */
  lemma ToScreenIndexInjective(a: GridCoords, b: GridCoords, gridOrigin: Usize, cellWidth: Usize)
    requires InGrid(a) && InGrid(b) && RowFitsLine(cellWidth)
    requires ScreenIndexDefined(a, gridOrigin, cellWidth) && ScreenIndexDefined(b, gridOrigin, cellWidth)
    requires ToScreenIndex(a, gridOrigin, cellWidth) == ToScreenIndex(b, gridOrigin, cellWidth)
    ensures a == b
  {
    ToScreenIndexRoundTrip(a, gridOrigin, cellWidth);
    ToScreenIndexRoundTrip(b, gridOrigin, cellWidth);
  }

  /** None of the i32 operations computing the screen index of one cell overflows. */
  predicate ScreenCellDefined(screenCenter: Usize, d: Offset, cellWidth: Usize) {
    && FitsI32(d.0 * SCREEN_WIDTH_I32)
    && FitsI32(AsI32(screenCenter) + d.0 * SCREEN_WIDTH_I32)
    && FitsI32(d.1 * AsI32(cellWidth))
    && FitsI32(AsI32(screenCenter) + d.0 * SCREEN_WIDTH_I32 + d.1 * AsI32(cellWidth))
  }

  predicate ScreenCellsDefined(screenCenter: Usize, shape: Shape, cellWidth: Usize) {
    ScreenCellDefined(screenCenter, shape[0], cellWidth)
    && ScreenCellDefined(screenCenter, shape[1], cellWidth)
    && ScreenCellDefined(screenCenter, shape[2], cellWidth)
  }

  /** Screen index of the cell at offset d from the centre, computed in i32;
      a negative index gives None. */
  function ScreenCell(screenCenter: Usize, d: Offset, cellWidth: Usize): (r: Option<Usize>)
    requires ScreenCellDefined(screenCenter, d, cellWidth)
    ensures screenCenter <= I32_MAX && cellWidth <= I32_MAX ==>
      var v := screenCenter + d.0 * SCREEN_WIDTH + d.1 * cellWidth;
      r == if v >= 0 then Some(v) else None
  {
    var index := AsI32(screenCenter) + d.0 * SCREEN_WIDTH_I32 + d.1 * AsI32(cellWidth);
    if index >= 0 then Some(AsUsize(index)) else None
  }

  function GetScreenCellsFromShape(screenCenter: Usize, shape: Shape, cellWidth: Usize): (r: ScreenCells)
    requires ScreenCellsDefined(screenCenter, shape, cellWidth)
    ensures r.0 == Some(screenCenter)
    ensures screenCenter <= I32_MAX && cellWidth <= I32_MAX ==>
      forall k :: 0 <= k < 3 ==>
        var v := screenCenter + shape[k].0 * SCREEN_WIDTH + shape[k].1 * cellWidth;
        ScreenCellsAsSeq(r)[k + 1] == if v >= 0 then Some(v) else None
  {
    (
      Some(screenCenter),
      ScreenCell(screenCenter, shape[0], cellWidth),
      ScreenCell(screenCenter, shape[1], cellWidth),
      ScreenCell(screenCenter, shape[2], cellWidth)
    )
  }

  function ScreenCellsAsSeq(c: ScreenCells): (s: seq<Option<Usize>>)
    ensures |s| == 4
  {
    [c.0, c.1, c.2, c.3]
  }

  /** The sprite shown for a kind in the preview areas, centred at a screen index. */
  function DisplaySprite(t: Tetromino, centerScreenPosition: Usize, cellWidth: Usize): (sprite: TetrominoSprite)
    requires ScreenCellsDefined(centerScreenPosition, GetDisplayShape(t), cellWidth)
    ensures sprite.tetromino == t
    ensures sprite.cellsScreenPosition.0 == Some(centerScreenPosition)
  {
    TetrominoSprite(t, GetScreenCellsFromShape(centerScreenPosition, GetDisplayShape(t), cellWidth))
  }

  /** The screen is large enough in i32 for every piece centred on the playfield. */
  predicate ProjectionFits(gridOrigin: Usize, cellWidth: Usize) {
    gridOrigin + (GRID_HEIGHT + 2) * SCREEN_WIDTH + (GRID_WIDTH + 2) * cellWidth <= I32_MAX
  }

  predicate SpriteDefined(piece: CurrentTetromino, gridOrigin: Usize, cellWidth: Usize)
    reads piece
  {
    && RotationDefined(piece.tetromino, piece.rotation)
    && ScreenIndexDefined(piece.position, gridOrigin, cellWidth)
    && ScreenCellsDefined(ToScreenIndex(piece.position, gridOrigin, cellWidth), GetShape(piece.tetromino, piece.rotation), cellWidth)
  }

  /** The sprite of the falling piece: its shape around the screen index of its centre. */
  function OfCurrentTetromino(piece: CurrentTetromino, gridOrigin: Usize, cellWidth: Usize): (sprite: TetrominoSprite)
    reads piece
    requires SpriteDefined(piece, gridOrigin, cellWidth)
    ensures sprite.tetromino == piece.tetromino
    ensures sprite.cellsScreenPosition.0 == Some(ToScreenIndex(piece.position, gridOrigin, cellWidth))
  {
    TetrominoSprite(
      piece.tetromino,
      GetScreenCellsFromShape(
        ToScreenIndex(piece.position, gridOrigin, cellWidth),
        GetShape(piece.tetromino, piece.rotation),
        cellWidth))
  }

  /** A small offset times a non-negative number stays within twice that number. */
  lemma SmallTimes(a: int, b: int)
    requires -1 <= a <= 2 && b >= 0
    ensures -b <= a * b <= 2 * b
  {
    if a == -1 {
    } else if a == 0 {
    } else if a == 1 {
    } else {
    }
  }

  /** Moving a factor by a step moves the product by the step times the other factor. */
  lemma ShiftTimes(a: int, step: int, b: int)
    ensures (a + step) * b == a * b + step * b
  {
  }

  /** A row-major product is bounded by its largest row. */
  lemma BoundedTimes(a: nat, n: nat, b: nat)
    requires a <= n
    ensures a * b <= n * b
  {
    assert (n - a) * b >= 0;
    assert n * b == a * b + (n - a) * b;
  }

  /** For a piece centred on the playfield, and a screen that fits in i32, no overflow occurs. */
  lemma SpriteDefinedInGrid(piece: CurrentTetromino, gridOrigin: Usize, cellWidth: Usize)
    requires RotationDefined(piece.tetromino, piece.rotation) && InGrid(piece.position)
    requires ProjectionFits(gridOrigin, cellWidth)
    ensures SpriteDefined(piece, gridOrigin, cellWidth)
  {
    var c := piece.position;
    BoundedTimes(c.j, GRID_WIDTH, cellWidth);
    var center := ToScreenIndex(c, gridOrigin, cellWidth);
    var shape := GetShape(piece.tetromino, piece.rotation);
    ScreenCellDefinedNear(center, shape[0], cellWidth);
    ScreenCellDefinedNear(center, shape[1], cellWidth);
    ScreenCellDefinedNear(center, shape[2], cellWidth);
  }

  /** A small offset from a centre at least one line and one cell inside a screen that fits in i32 cannot overflow. */
  lemma ScreenCellDefinedNear(center: Usize, d: Offset, cellWidth: Usize)
    requires -1 <= d.0 <= 2 && -1 <= d.1 <= 2
    requires center + 2 * SCREEN_WIDTH + 2 * cellWidth <= I32_MAX
    ensures ScreenCellDefined(center, d, cellWidth)
  {
    SmallTimes(d.1, cellWidth);
  }

  /** The screen cell at a small offset from a playfield cell, when the offset
      stays on the playfield, is the screen index of the cell it reaches. */
  lemma ScreenCellCommutes(c: GridCoords, d: Offset, gridOrigin: Usize, cellWidth: Usize)
    requires InGrid(c) && -1 <= d.0 <= 2 && -1 <= d.1 <= 2
    requires ProjectionFits(gridOrigin, cellWidth)
    requires 0 <= c.i + d.0 < GRID_HEIGHT && 0 <= c.j + d.1 < GRID_WIDTH
    ensures ScreenCellDefined(ToScreenIndex(c, gridOrigin, cellWidth), d, cellWidth)
    ensures gridOrigin + (c.i + d.0) * SCREEN_WIDTH + (c.j + d.1) * cellWidth <= I32_MAX
    ensures ScreenCell(ToScreenIndex(c, gridOrigin, cellWidth), d, cellWidth)
      == Some(ToScreenIndex(GridCoords(c.i + d.0, c.j + d.1), gridOrigin, cellWidth))
  {
    BoundedTimes(c.j, GRID_WIDTH, cellWidth);
    BoundedTimes(c.j + d.1, GRID_WIDTH, cellWidth);
    var center := ToScreenIndex(c, gridOrigin, cellWidth);
    ScreenCellDefinedNear(center, d, cellWidth);
    ShiftTimes(c.j, d.1, cellWidth);
    var target := GridCoords(c.i + d.0, c.j + d.1);
    BoundedTimes(0, target.j, cellWidth);
    var v := center + d.0 * SCREEN_WIDTH + d.1 * cellWidth;
    assert v == gridOrigin + target.i * SCREEN_WIDTH + target.j * cellWidth;
    assert 0 <= v && center <= I32_MAX && cellWidth <= I32_MAX;
    assert ScreenCell(center, d, cellWidth) == Some(v);
    assert ToScreenIndex(target, gridOrigin, cellWidth) == v;
  }

  /** Projecting a piece commutes with its cells: for a piece centred on the playfield,
      each of its cells that lies on the playfield is shown at that cell's screen index. */
  lemma SpriteCellsAreScreenIndexes(piece: CurrentTetromino, gridOrigin: Usize, cellWidth: Usize, k: nat)
    requires RotationDefined(piece.tetromino, piece.rotation) && InGrid(piece.position)
    requires ProjectionFits(gridOrigin, cellWidth)
    requires k < 4
    ensures CellsDefined(piece.tetromino, piece.position, piece.rotation)
    ensures SpriteDefined(piece, gridOrigin, cellWidth)
    ensures var cell := CellsAsSeq(GetCellsCoords(piece.tetromino, piece.position, piece.rotation))[k];
      InGrid(cell) ==>
        && ScreenIndexDefined(cell, gridOrigin, cellWidth)
        && ScreenCellsAsSeq(OfCurrentTetromino(piece, gridOrigin, cellWidth).cellsScreenPosition)[k]
          == Some(ToScreenIndex(cell, gridOrigin, cellWidth))
  {
    SpriteDefinedInGrid(piece, gridOrigin, cellWidth);
    CellsDefinedInGrid(piece.tetromino, piece.position, piece.rotation);
    var c := piece.position;
    var shape := GetShape(piece.tetromino, piece.rotation);
    var cell := CellsAsSeq(GetCellsCoords(piece.tetromino, piece.position, piece.rotation))[k];
    if k == 0 {
      BoundedTimes(c.j, GRID_WIDTH, cellWidth);
    } else if InGrid(cell) {
      var d := shape[k - 1];
      assert cell == Moved(c, d);
      assert cell == GridCoords(c.i + d.0, c.j + d.1);
      ScreenCellCommutes(c, d, gridOrigin, cellWidth);
      var center := ToScreenIndex(c, gridOrigin, cellWidth);
      assert ScreenCellsAsSeq(GetScreenCellsFromShape(center, shape, cellWidth))[k] == ScreenCell(center, d, cellWidth);
    }
  }

  /** The preview sprite of a kind is the sprite of a piece of that kind in its display rotation. */
  lemma DisplaySpriteIsDisplayRotation(piece: CurrentTetromino, gridOrigin: Usize, cellWidth: Usize)
    requires piece.rotation == DisplayRotation(piece.tetromino)
    requires SpriteDefined(piece, gridOrigin, cellWidth)
    ensures DisplaySprite(piece.tetromino, ToScreenIndex(piece.position, gridOrigin, cellWidth), cellWidth)
      == OfCurrentTetromino(piece, gridOrigin, cellWidth)
  {
  }
}

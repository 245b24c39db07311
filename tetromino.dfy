/** The seven tetrominoes, their shape tables and the cells a piece occupies. */
module Tetrominoes {
  import opened Ints
  import opened Grid

  datatype Tetromino = I | O | T | J | L | S | Z

  const NB_TETROMINOS: U32 := 7

  /** The three non-centre cells of a piece, as offsets from its centre. */
  type Shape = s: seq<Offset> | |s| == 3 witness [(0, 0), (0, 0), (0, 0)]

  const SHAPES_I: seq<Shape> := [
    [( 0, -1), ( 0,  1), ( 0,  2)],
    [(-1,  0), ( 1,  0), ( 2,  0)]
  ]

  const SHAPE_O: Shape :=
    [(-1,  0), (-1,  1), ( 0,  1)]

  const SHAPES_T: seq<Shape> := [
    [( 0, -1), ( 0,  1), ( 1,  0)],
    [(-1,  0), ( 0,  1), ( 1,  0)],
    [(-1,  0), ( 0, -1), ( 0,  1)],
    [(-1,  0), ( 0, -1), ( 1,  0)]
  ]

  const SHAPES_J: seq<Shape> := [
    [(-1,  0), ( 1, -1), ( 1,  0)],
    [( 0, -1), ( 0,  1), ( 1,  1)],
    [(-1,  0), (-1,  1), ( 1,  0)],
    [(-1, -1), ( 0, -1), ( 0,  1)]
  ]

  const SHAPES_L: seq<Shape> := [
    [(-1, -1), (-1,  0), ( 1,  0)],
    [(-1,  1), ( 0, -1), ( 0,  1)],
    [(-1,  0), ( 1,  0), ( 1,  1)],
    [( 0, -1), ( 0,  1), ( 1,  0)]
  ]

  const SHAPES_S: seq<Shape> := [
    [(-1,  0), (-1,  1), ( 0, -1)],
    [(-1,  0), ( 1,  0), ( 1,  1)]
  ]

  const SHAPES_Z: seq<Shape> := [
    [(-1, -1), (-1,  0), ( 0,  1)],
    [(-1,  1), ( 0,  1), ( 1,  0)]
  ]

  /** Three pairwise-distinct offsets, none of them the centre, each component in [-1, 2]. */
  predicate WellFormed(s: Shape) {
    && (forall k :: 0 <= k < 3 ==> s[k] != (0, 0) && -1 <= s[k].0 <= 2 && -1 <= s[k].1 <= 2)
    && s[0] != s[1] && s[0] != s[2] && s[1] != s[2]
  }

  /** Position of the kind in the enum's declaration order. */
  function Ordinal(t: Tetromino): nat {
    match t
    case I => 0
    case O => 1
    case T => 2
    case J => 3
    case L => 4
    case S => 5
    case Z => 6
  }

  /** Number of distinct rotations the shape table of the kind holds. */
  function RotationCount(t: Tetromino): nat {
    match t
    case O => 1
    case I | S | Z => 2
    case T | J | L => 4
  }

  /** T, J and L index a four-entry table directly; the others reduce the rotation first. */
  predicate RotationDefined(t: Tetromino, rotation: Usize) {
    (t.T? || t.J? || t.L?) ==> rotation < 4
  }

  /** Kind for a random index: the index is taken modulo the number of kinds; the panic arm cannot be reached. */
  function FromIndex(index: U32): (t: Tetromino)
    ensures Ordinal(t) == index % NB_TETROMINOS
  {
    match index % NB_TETROMINOS
    case 0 => I
    case 1 => O
    case 2 => T
    case 3 => J
    case 4 => L
    case 5 => S
    case 6 => Z
    case _ => assert false; I
  }

  /** Every kind is produced by its own ordinal, and by every index congruent to it. */
  lemma FromIndexOfOrdinal(t: Tetromino, index: U32)
    requires index % NB_TETROMINOS == Ordinal(t)
    ensures FromIndex(index) == t
  {
  }

  /** Shape of a kind at a rotation. */
  function GetShape(t: Tetromino, rotation: Usize): (s: Shape)
    requires RotationDefined(t, rotation)
    ensures WellFormed(s)
  {
    match t
    case I => SHAPES_I[rotation % 2]
    case O => SHAPE_O
    case T => SHAPES_T[rotation]
    case J => SHAPES_J[rotation]
    case L => SHAPES_L[rotation]
    case S => SHAPES_S[rotation % 2]
    case Z => SHAPES_Z[rotation % 2]
  }

  /** The shape depends on the rotation only modulo the number of table entries of the kind. */
  lemma ShapeDependsOnRotationModulo(t: Tetromino, r1: Usize, r2: Usize)
    requires RotationDefined(t, r1) && RotationDefined(t, r2)
    requires r1 % RotationCount(t) == r2 % RotationCount(t)
    ensures GetShape(t, r1) == GetShape(t, r2)
  {
  }

  /** Within one period every rotation has a shape of its own. */
  lemma RotationsAreDistinct(t: Tetromino, r1: Usize, r2: Usize)
    requires r1 < r2 < RotationCount(t)
    ensures GetShape(t, r1) != GetShape(t, r2)
  {
  }

  /** Table index of the shape shown in the HOLD and NEXT sections. */
  function DisplayRotation(t: Tetromino): Usize {
    match t
    case I => 0
    case O => 0
    case T => 2
    case J => 3
    case L => 1
    case S => 0
    case Z => 0
  }

  /** The shape shown in the HOLD and NEXT sections: one of the kind's rotations, whatever the piece's own rotation. */
  function GetDisplayShape(t: Tetromino): (s: Shape)
    ensures RotationDefined(t, DisplayRotation(t)) && s == GetShape(t, DisplayRotation(t))
  {
    match t
    case I => SHAPES_I[0]
    case O => SHAPE_O
    case T => SHAPES_T[2]
    case J => SHAPES_J[3]
    case L => SHAPES_L[1]
    case S => SHAPES_S[0]
    case Z => SHAPES_Z[0]
  }

  /** Centre plus offset in plain integers, a negative component standing for its wrapped usize value. */
  function Moved(c: GridCoords, d: Offset): GridCoords
    requires -USIZE_MODULUS <= c.i + d.0 < USIZE_MODULUS && -USIZE_MODULUS <= c.j + d.1 < USIZE_MODULUS
  {
    GridCoords(Wrap(c.i + d.0), Wrap(c.j + d.1))
  }

  /** The four cells of a piece: the centre, then the three cells of the shape. */
  type Cells = (GridCoords, GridCoords, GridCoords, GridCoords)

  function CellsAsSeq(c: Cells): (s: seq<GridCoords>)
    ensures |s| == 4
  {
    [c.0, c.1, c.2, c.3]
  }

  /** The four cells are pairwise distinct. */
  predicate Distinct(c: Cells) {
    && c.0 != c.1 && c.0 != c.2 && c.0 != c.3
    && c.1 != c.2 && c.1 != c.3
    && c.2 != c.3
  }

  /** The shape is defined and none of the i32 additions of the cell computation overflows. */
  predicate CellsDefined(t: Tetromino, position: GridCoords, rotation: Usize) {
    && RotationDefined(t, rotation)
    && CanTranslate(position, GetShape(t, rotation)[0])
    && CanTranslate(position, GetShape(t, rotation)[1])
    && CanTranslate(position, GetShape(t, rotation)[2])
  }

  /** A centre on the playfield leaves room for every shape. */
  lemma CellsDefinedInGrid(t: Tetromino, position: GridCoords, rotation: Usize)
    requires RotationDefined(t, rotation) && InGrid(position)
    ensures CellsDefined(t, position, rotation)
  {
  }

  /** Cells occupied by the piece of kind t centred at position with the given rotation. */
  function GetCellsCoords(t: Tetromino, position: GridCoords, rotation: Usize): (cells: Cells)
    requires CellsDefined(t, position, rotation)
    ensures cells.0 == position
    ensures var s := GetShape(t, rotation);
      cells.1 == Translate(position, s[0]) && cells.2 == Translate(position, s[1]) && cells.3 == Translate(position, s[2])
    ensures InGrid(position) ==> forall k :: 0 <= k < 3 ==>
      CellsAsSeq(cells)[k + 1] == Moved(position, GetShape(t, rotation)[k])
    ensures InGrid(position) ==> Distinct(cells)
  {
    var shape := GetShape(t, rotation);
    var center := position;
    var cells := (center, Translate(center, shape[0]), Translate(center, shape[1]), Translate(center, shape[2]));
    if InGrid(position) then
      TranslatedCellsDistinct(center, shape);
      cells
    else
      cells
  }

  /** Distinct offsets from a centre on the playfield lead to distinct cells, none of them the centre. */
  lemma TranslatedCellsDistinct(c: GridCoords, s: Shape)
    requires InGrid(c) && WellFormed(s)
    ensures CanTranslate(c, s[0]) && CanTranslate(c, s[1]) && CanTranslate(c, s[2])
    ensures Distinct((c, Translate(c, s[0]), Translate(c, s[1]), Translate(c, s[2])))
    ensures Translate(c, s[0]) == Moved(c, s[0]) && Translate(c, s[1]) == Moved(c, s[1]) && Translate(c, s[2]) == Moved(c, s[2])
  {
    CellsDiffer(c, (0, 0), s[0]);
    CellsDiffer(c, (0, 0), s[1]);
    CellsDiffer(c, (0, 0), s[2]);
    CellsDiffer(c, s[0], s[1]);
    CellsDiffer(c, s[0], s[2]);
    CellsDiffer(c, s[1], s[2]);
  }

  lemma CellsDiffer(c: GridCoords, d1: Offset, d2: Offset)
    requires InGrid(c) && d1 != d2
    requires -2 <= d1.0 <= 2 && -2 <= d1.1 <= 2 && -2 <= d2.0 <= 2 && -2 <= d2.1 <= 2
    ensures CanTranslate(c, d1) && CanTranslate(c, d2) && Translate(c, d1) != Translate(c, d2)
    ensures d1 == (0, 0) ==> Translate(c, d1) == c
    ensures Translate(c, d2) == Moved(c, d2)
  {
    TranslateSmall(c, d1);
    TranslateSmall(c, d2);
  }


  /** Whether the cell is one of the four cells of the piece; the centre always is. */
  predicate IsCellPartOfMe(t: Tetromino, position: GridCoords, rotation: Usize, cell: GridCoords)
    requires CellsDefined(t, position, rotation)
    ensures IsCellPartOfMe(t, position, rotation, cell) <==> cell in CellsAsSeq(GetCellsCoords(t, position, rotation))
    ensures cell == position ==> IsCellPartOfMe(t, position, rotation, cell)
  {
    var cells := GetCellsCoords(t, position, rotation);
    cells.0.Equals(cell) || cells.1.Equals(cell) || cells.2.Equals(cell) || cells.3.Equals(cell)
  }
}

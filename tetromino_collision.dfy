/** The cells a piece would run into when moved one step: the neighbour candidates
    of its four cells, with the piece's own cells filtered out. */
module TetrominoCollision {
  import opened Ints
  import opened Options
  import opened Grid
  import opened Tetrominoes
  import opened GameState

  const LEFT: Offset := (0, -1)
  const RIGHT: Offset := (0, 1)
  /** The direction the source passes for a downward move: (0, 1), the same as RIGHT. */
  const DOWN_AS_WRITTEN: Offset := (0, 1)
  /** One row down, the direction a downward move evidently intends. */
  const DOWN: Offset := (1, 0)

  predicate PieceDefined(piece: CurrentTetromino)
    reads piece
  {
    CellsDefined(piece.tetromino, piece.position, piece.rotation)
  }

  /** None of the i32 additions of the cell and candidate computations overflows. */
  predicate CandidatesDefined(t: Tetromino, position: GridCoords, rotation: Usize, direction: Offset) {
    && CellsDefined(t, position, rotation)
    && var cells := GetCellsCoords(t, position, rotation);
    && CanTranslate(cells.0, direction) && CanTranslate(cells.1, direction)
    && CanTranslate(cells.2, direction) && CanTranslate(cells.3, direction)
  }

  /** What one candidate cell contributes: nothing when it is a cell of the piece,
      None when it lies off the playfield, its grid index otherwise. */
  function CandidateEntry(t: Tetromino, position: GridCoords, rotation: Usize, candidate: GridCoords): (e: seq<Option<Usize>>)
    requires CellsDefined(t, position, rotation)
    ensures e == [] <==> IsCellPartOfMe(t, position, rotation, candidate)
    ensures e == [None] <==> !IsCellPartOfMe(t, position, rotation, candidate) && !InGrid(candidate)
    ensures |e| <= 1 && forall v :: Some(v) in e ==> InGrid(candidate) && v < GRID_LENGTH && v == candidate.ToGridIndex()
  {
    if IsCellPartOfMe(t, position, rotation, candidate) then []
    else if candidate.i >= GRID_HEIGHT || candidate.j >= GRID_WIDTH then [None]
    else [Some(candidate.ToGridIndex())]
  }

  /** The candidates of the four cells, in the order centre, cell 0, cell 1, cell 2. */
  function Candidates(t: Tetromino, position: GridCoords, rotation: Usize, direction: Offset): (c: seq<GridCoords>)
    requires CandidatesDefined(t, position, rotation, direction)
    ensures |c| == 4
  {
    var cells := GetCellsCoords(t, position, rotation);
    [Translate(cells.0, direction), Translate(cells.1, direction), Translate(cells.2, direction), Translate(cells.3, direction)]
  }

  /** The entries of the candidates, in order. */
  function Entries(t: Tetromino, position: GridCoords, rotation: Usize, candidates: seq<GridCoords>): (r: seq<Option<Usize>>)
    requires CellsDefined(t, position, rotation)
    ensures |r| <= |candidates|
  {
    if candidates == [] then []
    else CandidateEntry(t, position, rotation, candidates[0]) + Entries(t, position, rotation, candidates[1..])
  }

  /** The collision list of a piece moved in a direction. */
  function Collisions(t: Tetromino, position: GridCoords, rotation: Usize, direction: Offset): (r: seq<Option<Usize>>)
    requires CandidatesDefined(t, position, rotation, direction)
  {
    Entries(t, position, rotation, Candidates(t, position, rotation, direction))
  }

  /** The entries of a list of candidates: those of its head, then those of its tail. */
  lemma EntriesCons(t: Tetromino, position: GridCoords, rotation: Usize, head: GridCoords, tail: seq<GridCoords>)
    requires CellsDefined(t, position, rotation)
    ensures Entries(t, position, rotation, [head] + tail)
      == CandidateEntry(t, position, rotation, head) + Entries(t, position, rotation, tail)
  {
    assert ([head] + tail)[1..] == tail;
  }

  /** The entries of four candidates, one after the other. */
  lemma EntriesOfFour(t: Tetromino, position: GridCoords, rotation: Usize, candidates: seq<GridCoords>)
    requires CellsDefined(t, position, rotation) && |candidates| == 4
    ensures Entries(t, position, rotation, candidates)
      == CandidateEntry(t, position, rotation, candidates[0]) + CandidateEntry(t, position, rotation, candidates[1])
       + CandidateEntry(t, position, rotation, candidates[2]) + CandidateEntry(t, position, rotation, candidates[3])
  {
    var rest := candidates[1..];
    EntriesCons(t, position, rotation, candidates[0], rest);
    assert candidates == [candidates[0]] + rest;
    EntriesOfThree(t, position, rotation, rest);
    assert rest[0] == candidates[1] && rest[1] == candidates[2] && rest[2] == candidates[3];
  }

  /** The entries of three candidates, one after the other. */
  lemma EntriesOfThree(t: Tetromino, position: GridCoords, rotation: Usize, candidates: seq<GridCoords>)
    requires CellsDefined(t, position, rotation) && |candidates| == 3
    ensures Entries(t, position, rotation, candidates)
      == CandidateEntry(t, position, rotation, candidates[0]) + CandidateEntry(t, position, rotation, candidates[1])
       + CandidateEntry(t, position, rotation, candidates[2])
  {
    var rest := candidates[1..];
    EntriesCons(t, position, rotation, candidates[0], rest);
    assert candidates == [candidates[0]] + rest;
    EntriesOfTwo(t, position, rotation, rest);
  }

  /** The entries of two candidates, one after the other. */
  lemma EntriesOfTwo(t: Tetromino, position: GridCoords, rotation: Usize, candidates: seq<GridCoords>)
    requires CellsDefined(t, position, rotation) && |candidates| == 2
    ensures Entries(t, position, rotation, candidates)
      == CandidateEntry(t, position, rotation, candidates[0]) + CandidateEntry(t, position, rotation, candidates[1])
  {
    var rest := candidates[1..];
    EntriesCons(t, position, rotation, candidates[0], rest);
    assert candidates == [candidates[0]] + rest;
    EntriesCons(t, position, rotation, rest[0], []);
    assert rest == [rest[0]] + [];
  }

  /** Every index in the list is a cell of the playfield that is not a cell of the piece. */
  lemma {:induction false} EntriesAreForeign(t: Tetromino, position: GridCoords, rotation: Usize, candidates: seq<GridCoords>)
    requires CellsDefined(t, position, rotation)
    ensures forall e :: e in Entries(t, position, rotation, candidates) && e.Some? ==>
      e.value < GRID_LENGTH && !IsCellPartOfMe(t, position, rotation, CoordsOfIndex(e.value))
  {
    if candidates != [] {
      EntriesAreForeign(t, position, rotation, candidates[1..]);
      var head := CandidateEntry(t, position, rotation, candidates[0]);
      if head != [] && head != [None] {
        var v := head[0].value;
        assert Some(v) in head;
        CoordsOfIndexRoundTrip(candidates[0]);
      }
    }
  }

  /** A collision list holds at most four entries, and each index it holds is a
      playfield cell that is not a cell of the piece. */
  lemma CollisionsBounded(t: Tetromino, position: GridCoords, rotation: Usize, direction: Offset)
    requires CandidatesDefined(t, position, rotation, direction)
    ensures |Collisions(t, position, rotation, direction)| <= 4
    ensures forall e :: e in Collisions(t, position, rotation, direction) && e.Some? ==>
      e.value < GRID_LENGTH && !IsCellPartOfMe(t, position, rotation, CoordsOfIndex(e.value))
  {
    EntriesAreForeign(t, position, rotation, Candidates(t, position, rotation, direction));
  }

  /** Each index in the entries is the index of one of the candidates, and that candidate is on the playfield. */
  lemma {:induction false} EntriesComeFromCandidates(t: Tetromino, position: GridCoords, rotation: Usize, candidates: seq<GridCoords>, v: Usize)
    requires CellsDefined(t, position, rotation)
    requires Some(v) in Entries(t, position, rotation, candidates)
    ensures exists k :: 0 <= k < |candidates| && InGrid(candidates[k]) && v == candidates[k].ToGridIndex()
  {
    var head := CandidateEntry(t, position, rotation, candidates[0]);
    if Some(v) in head {
      assert InGrid(candidates[0]) && v == candidates[0].ToGridIndex();
    } else {
      EntriesComeFromCandidates(t, position, rotation, candidates[1..], v);
      var k :| 0 <= k < |candidates[1..]| && InGrid(candidates[1..][k]) && v == candidates[1..][k].ToGridIndex();
      assert candidates[k + 1] == candidates[1..][k];
    }
  }

  /** Offset of cell k of a piece from its centre: none for the centre, then the shape's offsets. */
  function CellOffset(s: Shape, k: nat): Offset
    requires k < 4
  {
    if k == 0 then (0, 0) else s[k - 1]
  }

  /** Cell k of a piece centred on the playfield is the centre moved by the cell's offset,
      in plain integers, a negative component wrapped. */
  lemma CellOfInGridPiece(t: Tetromino, position: GridCoords, rotation: Usize, k: nat)
    requires RotationDefined(t, rotation) && InGrid(position) && k < 4
    ensures CellsDefined(t, position, rotation)
    ensures var d := CellOffset(GetShape(t, rotation), k);
      var cell := CellsAsSeq(GetCellsCoords(t, position, rotation))[k];
      cell.i == Wrap(position.i + d.0) && cell.j == Wrap(position.j + d.1)
  {
    CellsDefinedInGrid(t, position, rotation);
  }

  /** Moving cell k of a piece centred on the playfield adds the direction to its plain coordinates. */
  lemma CellTranslated(t: Tetromino, position: GridCoords, rotation: Usize, direction: Offset, k: nat)
    requires RotationDefined(t, rotation) && InGrid(position) && k < 4
    requires -1 <= direction.0 <= 1 && -1 <= direction.1 <= 1
    ensures CellsDefined(t, position, rotation)
    ensures var d := CellOffset(GetShape(t, rotation), k);
      var x := position.i + d.0 + direction.0;
      var y := position.j + d.1 + direction.1;
      var cell := CellsAsSeq(GetCellsCoords(t, position, rotation))[k];
      && CanTranslate(cell, direction)
      && Translate(cell, direction).i == Wrap(x) && Translate(cell, direction).j == Wrap(y)
      && (InGrid(Translate(cell, direction)) <==> 0 <= x < GRID_HEIGHT && 0 <= y < GRID_WIDTH)
  {
    CellOfInGridPiece(t, position, rotation, k);
    var d := CellOffset(GetShape(t, rotation), k);
    assert -1 <= d.0 <= 2 && -1 <= d.1 <= 2;
    var x, y := position.i + d.0, position.j + d.1;
    assert CellsAsSeq(GetCellsCoords(t, position, rotation))[k] == GridCoords(Wrap(x), Wrap(y));
    TranslateWrapped(x, y, direction);
  }

  /** Moving cell k of a piece centred on the playfield by the direction and back gives cell k again. */
  lemma CellTranslatedBack(t: Tetromino, position: GridCoords, rotation: Usize, direction: Offset, k: nat)
    requires RotationDefined(t, rotation) && InGrid(position) && k < 4
    requires -1 <= direction.0 <= 1 && -1 <= direction.1 <= 1
    ensures CellsDefined(t, position, rotation)
    ensures var cell := CellsAsSeq(GetCellsCoords(t, position, rotation))[k];
      && CanTranslate(cell, direction)
      && CanTranslate(Translate(cell, direction), (-direction.0, -direction.1))
      && Translate(Translate(cell, direction), (-direction.0, -direction.1)) == cell
  {
    CellOfInGridPiece(t, position, rotation, k);
    var d := CellOffset(GetShape(t, rotation), k);
    assert -1 <= d.0 <= 2 && -1 <= d.1 <= 2;
    var x, y := position.i + d.0, position.j + d.1;
    assert CellsAsSeq(GetCellsCoords(t, position, rotation))[k] == GridCoords(Wrap(x), Wrap(y));
    TranslateBack(x, y, direction);
  }

  /** Cell k of a piece moved by a direction, in plain integers: the centre plus the
      cell's offset plus the direction, before any cast. */
  function PlainCandidate(t: Tetromino, position: GridCoords, rotation: Usize, direction: Offset, k: nat): (int, int)
    requires RotationDefined(t, rotation) && k < 4
  {
    var d := CellOffset(GetShape(t, rotation), k);
    (position.i + d.0 + direction.0, position.j + d.1 + direction.1)
  }

  /** For a piece centred on the playfield, candidate k is the centre moved by the
      cell's offset and the direction in plain integers, and it is on the playfield
      exactly when those sums are: a negative sum, wrapped by the cast, is off it. */
  lemma CandidateOfInGridPiece(t: Tetromino, position: GridCoords, rotation: Usize, direction: Offset, k: nat)
    requires RotationDefined(t, rotation) && InGrid(position) && k < 4
    requires -1 <= direction.0 <= 1 && -1 <= direction.1 <= 1
    ensures CandidatesDefined(t, position, rotation, direction)
    ensures var p := PlainCandidate(t, position, rotation, direction, k);
      var candidate := Candidates(t, position, rotation, direction)[k];
      && candidate.i == Wrap(p.0) && candidate.j == Wrap(p.1)
      && (InGrid(candidate) <==> 0 <= p.0 < GRID_HEIGHT && 0 <= p.1 < GRID_WIDTH)
  {
    CandidatesDefinedInGrid(t, position, rotation, direction);
    CellTranslated(t, position, rotation, direction, k);
    assert Candidates(t, position, rotation, direction)[k]
      == Translate(CellsAsSeq(GetCellsCoords(t, position, rotation))[k], direction);
  }

  /** Candidate k is the cell whose coordinates are its plain sums, when those are not negative. */
  lemma CandidateAt(t: Tetromino, position: GridCoords, rotation: Usize, direction: Offset, k: nat, c: GridCoords)
    requires RotationDefined(t, rotation) && InGrid(position) && k < 4
    requires -1 <= direction.0 <= 1 && -1 <= direction.1 <= 1
    requires PlainCandidate(t, position, rotation, direction, k) == (c.i, c.j)
    ensures CandidatesDefined(t, position, rotation, direction)
    ensures Candidates(t, position, rotation, direction)[k] == c
  {
    CandidateOfInGridPiece(t, position, rotation, direction, k);
  }

  /** Moving candidate k back against the direction gives cell k of the piece again. */
  lemma CandidateMovesBack(t: Tetromino, position: GridCoords, rotation: Usize, direction: Offset, k: nat)
    requires RotationDefined(t, rotation) && InGrid(position) && k < 4
    requires -1 <= direction.0 <= 1 && -1 <= direction.1 <= 1
    ensures CandidatesDefined(t, position, rotation, direction)
    ensures var candidate := Candidates(t, position, rotation, direction)[k];
      && CanTranslate(candidate, (-direction.0, -direction.1))
      && Translate(candidate, (-direction.0, -direction.1)) == CellsAsSeq(GetCellsCoords(t, position, rotation))[k]
  {
    CandidatesDefinedInGrid(t, position, rotation, direction);
    CellTranslatedBack(t, position, rotation, direction, k);
    assert Candidates(t, position, rotation, direction)[k]
      == Translate(CellsAsSeq(GetCellsCoords(t, position, rotation))[k], direction);
  }

  /** A piece centred on the playfield can be moved one step in any direction without overflow. */
  lemma CandidatesDefinedInGrid(t: Tetromino, position: GridCoords, rotation: Usize, direction: Offset)
    requires RotationDefined(t, rotation) && InGrid(position)
    requires -1 <= direction.0 <= 1 && -1 <= direction.1 <= 1
    ensures CandidatesDefined(t, position, rotation, direction)
  {
    CellTranslated(t, position, rotation, direction, 0);
    CellTranslated(t, position, rotation, direction, 1);
    CellTranslated(t, position, rotation, direction, 2);
    CellTranslated(t, position, rotation, direction, 3);
  }

  /** For a piece centred on the playfield, moving each indexed cell back against
      the direction lands on a cell of the piece: every index is a true neighbour. */
  lemma EntriesAreNeighbours(t: Tetromino, position: GridCoords, rotation: Usize, direction: Offset, v: Usize)
    requires RotationDefined(t, rotation) && InGrid(position)
    requires -1 <= direction.0 <= 1 && -1 <= direction.1 <= 1
    requires CandidatesDefined(t, position, rotation, direction)
    requires Some(v) in Collisions(t, position, rotation, direction)
    ensures CanTranslate(CoordsOfIndex(v), (-direction.0, -direction.1))
    ensures IsCellPartOfMe(t, position, rotation, Translate(CoordsOfIndex(v), (-direction.0, -direction.1)))
  {
    var candidates := Candidates(t, position, rotation, direction);
    EntriesComeFromCandidates(t, position, rotation, candidates, v);
    var k :| 0 <= k < 4 && InGrid(candidates[k]) && v == candidates[k].ToGridIndex();
    CandidateMovesBack(t, position, rotation, direction, k);
    CoordsOfIndexRoundTrip(candidates[k]);
  }

  /** The cell with the given index lies next to a cell of the piece, in the given direction. */
  predicate NeighbourOfPiece(t: Tetromino, position: GridCoords, rotation: Usize, direction: Offset, index: Usize)
    requires CellsDefined(t, position, rotation)
  {
    && CanTranslate(CoordsOfIndex(index), (-direction.0, -direction.1))
    && IsCellPartOfMe(t, position, rotation, Translate(CoordsOfIndex(index), (-direction.0, -direction.1)))
  }

  /** For a piece centred on the playfield, every index of its collision list is a neighbour of the piece in that direction. */
  lemma AllEntriesAreNeighbours(t: Tetromino, position: GridCoords, rotation: Usize, direction: Offset)
    requires RotationDefined(t, rotation) && InGrid(position)
    requires -1 <= direction.0 <= 1 && -1 <= direction.1 <= 1
    ensures CandidatesDefined(t, position, rotation, direction)
    ensures forall v :: Some(v) in Collisions(t, position, rotation, direction) ==> NeighbourOfPiece(t, position, rotation, direction, v)
  {
    CandidatesDefinedInGrid(t, position, rotation, direction);
    forall v | Some(v) in Collisions(t, position, rotation, direction)
      ensures NeighbourOfPiece(t, position, rotation, direction, v)
    {
      EntriesAreNeighbours(t, position, rotation, direction, v);
    }
  }

  method AddToCollisionsIfValid(piece: CurrentTetromino, collisions: seq<Option<Usize>>, possibleNeighboor: GridCoords)
    returns (result: seq<Option<Usize>>)
    requires PieceDefined(piece)
    ensures result == collisions + CandidateEntry(piece.tetromino, piece.position, piece.rotation, possibleNeighboor)
  {
    if IsCellPartOfMe(piece.tetromino, piece.position, piece.rotation, possibleNeighboor) {
      return collisions;
    }
    if possibleNeighboor.i >= GRID_HEIGHT || possibleNeighboor.j >= GRID_WIDTH {
      result := collisions + [None];
    } else {
      result := collisions + [Some(possibleNeighboor.ToGridIndex())];
    }
  }

  /** The collision list is the entries of the four moved cells, one after the other. */
  lemma CollisionsByCell(t: Tetromino, position: GridCoords, rotation: Usize, direction: Offset)
    requires CandidatesDefined(t, position, rotation, direction)
    ensures var cells := GetCellsCoords(t, position, rotation);
      Collisions(t, position, rotation, direction)
      == CandidateEntry(t, position, rotation, Translate(cells.0, direction))
       + CandidateEntry(t, position, rotation, Translate(cells.1, direction))
       + CandidateEntry(t, position, rotation, Translate(cells.2, direction))
       + CandidateEntry(t, position, rotation, Translate(cells.3, direction))
  {
    EntriesOfFour(t, position, rotation, Candidates(t, position, rotation, direction));
  }

  method GetCollisionsCellIndexes(piece: CurrentTetromino, direction: Offset) returns (collisions: seq<Option<Usize>>)
    requires CandidatesDefined(piece.tetromino, piece.position, piece.rotation, direction)
    ensures collisions == Collisions(piece.tetromino, piece.position, piece.rotation, direction)
    ensures |collisions| <= 4
  {
    var cellsCoords := GetCellsCoords(piece.tetromino, piece.position, piece.rotation);
    collisions := [];

    var possibleNeighboor0 := Translate(cellsCoords.0, direction);
    collisions := AddToCollisionsIfValid(piece, collisions, possibleNeighboor0);

    var possibleNeighboor1 := Translate(cellsCoords.1, direction);
    collisions := AddToCollisionsIfValid(piece, collisions, possibleNeighboor1);

    var possibleNeighboor2 := Translate(cellsCoords.2, direction);
    collisions := AddToCollisionsIfValid(piece, collisions, possibleNeighboor2);

    var possibleNeighboor3 := Translate(cellsCoords.3, direction);
    collisions := AddToCollisionsIfValid(piece, collisions, possibleNeighboor3);

    CollisionsByCell(piece.tetromino, piece.position, piece.rotation, direction);
  }

  method GetLeftCollisionsCellIndexes(piece: CurrentTetromino) returns (collisions: seq<Option<Usize>>)
    requires CandidatesDefined(piece.tetromino, piece.position, piece.rotation, LEFT)
    ensures collisions == Collisions(piece.tetromino, piece.position, piece.rotation, LEFT)
  {
    collisions := GetCollisionsCellIndexes(piece, (0, -1));
  }

  method GetRightCollisionsCellIndexes(piece: CurrentTetromino) returns (collisions: seq<Option<Usize>>)
    requires CandidatesDefined(piece.tetromino, piece.position, piece.rotation, RIGHT)
    ensures collisions == Collisions(piece.tetromino, piece.position, piece.rotation, RIGHT)
  {
    collisions := GetCollisionsCellIndexes(piece, (0, 1));
  }

  /** As written: the direction passed is (0, 1), so the result is the right-hand list. */
  method GetDownCollisionsCellIndexes(piece: CurrentTetromino) returns (collisions: seq<Option<Usize>>)
    requires CandidatesDefined(piece.tetromino, piece.position, piece.rotation, DOWN_AS_WRITTEN)
    ensures collisions == Collisions(piece.tetromino, piece.position, piece.rotation, RIGHT)
  {
    collisions := GetCollisionsCellIndexes(piece, (0, 1));
  }

  /** The downward list as evidently intended: every index it holds lies directly
      below a cell of the piece. */
  method GetDownCollisionsCellIndexesIntended(piece: CurrentTetromino) returns (collisions: seq<Option<Usize>>)
    requires RotationDefined(piece.tetromino, piece.rotation) && InGrid(piece.position)
    ensures CandidatesDefined(piece.tetromino, piece.position, piece.rotation, DOWN)
    ensures collisions == Collisions(piece.tetromino, piece.position, piece.rotation, DOWN)
    ensures forall v :: Some(v) in collisions ==> NeighbourOfPiece(piece.tetromino, piece.position, piece.rotation, DOWN, v)
  {
    AllEntriesAreNeighbours(piece.tetromino, piece.position, piece.rotation, DOWN);
    collisions := GetCollisionsCellIndexes(piece, DOWN);
  }

  /** The cells of J spawned at (1, 4) in rotation 0. */
  lemma SpawnedJCells()
    ensures CellsDefined(J, GridCoords(1, 4), 0)
    ensures GetCellsCoords(J, GridCoords(1, 4), 0) == (GridCoords(1, 4), GridCoords(0, 4), GridCoords(2, 3), GridCoords(2, 4))
  {
    var position := GridCoords(1, 4);
    CellOfInGridPiece(J, position, 0, 1);
    CellOfInGridPiece(J, position, 0, 2);
    CellOfInGridPiece(J, position, 0, 3);
  }

  /** The candidates of J spawned at (1, 4) moved by (0, 1): the cells one column to the right. */
  lemma SpawnedJRightCandidates()
    ensures CandidatesDefined(J, GridCoords(1, 4), 0, DOWN_AS_WRITTEN)
    ensures Candidates(J, GridCoords(1, 4), 0, DOWN_AS_WRITTEN)
      == [GridCoords(1, 5), GridCoords(0, 5), GridCoords(2, 4), GridCoords(2, 5)]
  {
    var position := GridCoords(1, 4);
    assert GetShape(J, 0) == [(-1, 0), (1, -1), (1, 0)];
    CandidatesDefinedInGrid(J, position, 0, DOWN_AS_WRITTEN);
    CandidateAt(J, position, 0, DOWN_AS_WRITTEN, 0, GridCoords(1, 5));
    CandidateAt(J, position, 0, DOWN_AS_WRITTEN, 1, GridCoords(0, 5));
    CandidateAt(J, position, 0, DOWN_AS_WRITTEN, 2, GridCoords(2, 4));
    CandidateAt(J, position, 0, DOWN_AS_WRITTEN, 3, GridCoords(2, 5));
  }

  /** The downward list as written, for J spawned at (1, 4): it holds the cells to the
      right of the piece (15, 5 and 25), not those below it. */
  lemma DownAsWrittenLooksRight()
    ensures CandidatesDefined(J, GridCoords(1, 4), 0, DOWN_AS_WRITTEN)
    ensures Collisions(J, GridCoords(1, 4), 0, DOWN_AS_WRITTEN) == [Some(15), Some(5), Some(25)]
  {
    var position := GridCoords(1, 4);
    var candidates := [GridCoords(1, 5), GridCoords(0, 5), GridCoords(2, 4), GridCoords(2, 5)];
    SpawnedJCells();
    assert Entries(J, position, 0, candidates) == [Some(15), Some(5), Some(25)] by {
      SpawnedJRightEntries();
      EntriesOfFour(J, position, 0, candidates);
      var none: seq<Option<Usize>> := [];
      assert [Some(15)] + [Some(5)] + none + [Some(25)] == [Some(15), Some(5), Some(25)];
    }
    SpawnedJRightCandidates();
  }

  /** What the candidates to the right of J spawned at (1, 4) contribute: the cell inside
      the piece nothing, the three others their grid indexes. */
  lemma SpawnedJRightEntries()
    ensures CellsDefined(J, GridCoords(1, 4), 0)
    ensures CandidateEntry(J, GridCoords(1, 4), 0, GridCoords(1, 5)) == [Some(15)]
    ensures CandidateEntry(J, GridCoords(1, 4), 0, GridCoords(0, 5)) == [Some(5)]
    ensures CandidateEntry(J, GridCoords(1, 4), 0, GridCoords(2, 4)) == []
    ensures CandidateEntry(J, GridCoords(1, 4), 0, GridCoords(2, 5)) == [Some(25)]
  {
    SpawnedJCells();
  }

  /** The candidates of J spawned at (1, 4) moved by (1, 0): the cells one row below. */
  lemma SpawnedJDownCandidates()
    ensures CandidatesDefined(J, GridCoords(1, 4), 0, DOWN)
    ensures Candidates(J, GridCoords(1, 4), 0, DOWN)
      == [GridCoords(2, 4), GridCoords(1, 4), GridCoords(3, 3), GridCoords(3, 4)]
  {
    var position := GridCoords(1, 4);
    assert GetShape(J, 0) == [(-1, 0), (1, -1), (1, 0)];
    assert PlainCandidate(J, position, 0, DOWN, 0) == (2, 4);
    assert PlainCandidate(J, position, 0, DOWN, 1) == (1, 4);
    assert PlainCandidate(J, position, 0, DOWN, 2) == (3, 3) by {
      assert CellOffset(GetShape(J, 0), 2) == (1, -1);
    }
    assert PlainCandidate(J, position, 0, DOWN, 3) == (3, 4) by {
      assert CellOffset(GetShape(J, 0), 3) == (1, 0);
    }
    CandidateAt(J, position, 0, DOWN, 0, GridCoords(2, 4));
    CandidateAt(J, position, 0, DOWN, 1, GridCoords(1, 4));
    CandidateAt(J, position, 0, DOWN, 2, GridCoords(3, 3));
    CandidateAt(J, position, 0, DOWN, 3, GridCoords(3, 4));
  }

  /** What each of those candidates contributes: the two cells inside the piece nothing,
      the two below it their grid indexes. */
  lemma SpawnedJDownEntries()
    ensures CellsDefined(J, GridCoords(1, 4), 0)
    ensures CandidateEntry(J, GridCoords(1, 4), 0, GridCoords(2, 4)) == []
    ensures CandidateEntry(J, GridCoords(1, 4), 0, GridCoords(1, 4)) == []
    ensures CandidateEntry(J, GridCoords(1, 4), 0, GridCoords(3, 3)) == [Some(33)]
    ensures CandidateEntry(J, GridCoords(1, 4), 0, GridCoords(3, 4)) == [Some(34)]
  {
    SpawnedJCells();
  }

  /** The intended downward list for the same piece: the two cells under its bottom row. */
  lemma DownIntendedLooksDown()
    ensures CandidatesDefined(J, GridCoords(1, 4), 0, DOWN)
    ensures Collisions(J, GridCoords(1, 4), 0, DOWN) == [Some(33), Some(34)]
  {
    var position := GridCoords(1, 4);
    var candidates := [GridCoords(2, 4), GridCoords(1, 4), GridCoords(3, 3), GridCoords(3, 4)];
    SpawnedJCells();
    assert Entries(J, position, 0, candidates) == [Some(33), Some(34)] by {
      SpawnedJDownEntries();
      EntriesOfFour(J, position, 0, candidates);
      var none: seq<Option<Usize>> := [];
      assert none + none + [Some(33)] + [Some(34)] == [Some(33), Some(34)];
    }
    SpawnedJDownCandidates();
  }
}

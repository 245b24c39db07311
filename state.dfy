/** The game state: the falling piece, the playfield, the hold slot, the
    next-queue and the counters, with the operations that update them in place. */
module GameState {
  import opened Ints
  import opened Options
  import opened Grid
  import opened Tetrominoes

  /** Content of a playfield cell. Only Empty is used by the operations modelled here. */
  datatype Cell = Empty | Filled

  /** Routines of the state that the engine calls but whose bodies are not part of this model. */
  datatype Routine =
    | MoveCurrentTetrominoLeft
    | MoveCurrentTetrominoRight
    | MoveCurrentTetrominoDown
    | RotateCurrentTetromino
    | SwapCurrentStoredTetrominos
    | IncrementClock
    | ClearGridLinesFull

  /** Cyclic successor of a rotation: `(rotation + 1) % 4`. */
  function NextRotation(rotation: Usize): (r: Usize)
    requires rotation + 1 < USIZE_MODULUS
    ensures r < 4
    ensures rotation < 4 ==> r == if rotation == 3 then 0 else rotation + 1
  {
    (rotation + 1) % 4
  }

  /** Four quarter turns bring every valid rotation back to itself. */
  lemma {:induction false} FourRotationsRestore(rotation: Usize)
    requires rotation < 4
    ensures NextRotation(NextRotation(NextRotation(NextRotation(rotation)))) == rotation
  {
    var r1 := NextRotation(rotation);
    var r2 := NextRotation(r1);
    var r3 := NextRotation(r2);
    assert r1 == (rotation + 1) % 4 && r2 == (rotation + 2) % 4 && r3 == (rotation + 3) % 4;
  }

  /** The piece under the player's control. */
  class CurrentTetromino {
    var tetromino: Tetromino
    var position: GridCoords
    var rotation: Usize

    constructor (tetromino: Tetromino, position: GridCoords, rotation: Usize)
      ensures this.tetromino == tetromino && this.position == position && this.rotation == rotation
    {
      this.tetromino := tetromino;
      this.position := position;
      this.rotation := rotation;
    }

    /** Moves the centre one column to the left; the source panics at column 0. */
    method MoveLeft()
      requires position.j != 0
      modifies this
      ensures position == GridCoords(old(position.i), old(position.j) - 1)
      ensures tetromino == old(tetromino) && rotation == old(rotation)
      ensures old(InGrid(position)) ==> InGrid(position)
    {
      position := position.(j := position.j - 1);
    }

    /** Moves the centre one column to the right; the source panics at the last column. */
    method MoveRight()
      requires position.j + 1 != GRID_WIDTH && position.j + 1 < USIZE_MODULUS
      modifies this
      ensures position == GridCoords(old(position.i), old(position.j) + 1)
      ensures tetromino == old(tetromino) && rotation == old(rotation)
      ensures old(InGrid(position)) ==> InGrid(position)
    {
      position := position.(j := position.j + 1);
    }
  }

  /** A move to the right undone by a move to the left restores the piece. */
  method MoveRightThenLeft(piece: CurrentTetromino)
    requires piece.position.j + 1 != GRID_WIDTH && piece.position.j + 1 < USIZE_MODULUS
    modifies piece
    ensures piece.position == old(piece.position)
    ensures piece.tetromino == old(piece.tetromino) && piece.rotation == old(piece.rotation)
  {
    piece.MoveRight();
    piece.MoveLeft();
  }

  class State {
    /** The playfield and the piece are held by value in the source's state, so
        their objects never change; what changes is their contents. */
    const grid: array<Cell>
    const currentTetromino: CurrentTetromino
    var hold: Option<Tetromino>
    var nextTetrominosQueue: seq<Option<Tetromino>>
    var score: U32
    var level: U32
    var lines: U32
    /** Tick counter read and advanced by routines that are not part of this model. */
    var clock: nat
    /** The routines without a body here that have been called, oldest first. */
    ghost var Calls: seq<Routine>

    ghost predicate Valid()
      reads this
    {
      grid.Length == GRID_LENGTH && |nextTetrominosQueue| == NEXT_TETROMINOS_QUEUE_SIZE
    }

    /** The initial state: an empty playfield and fixed placeholder contents. */
    constructor ()
      ensures Valid() && fresh(grid) && fresh(currentTetromino)
      ensures forall k :: 0 <= k < grid.Length ==> grid[k] == Empty
      ensures currentTetromino.tetromino == J && currentTetromino.position == GridCoords(1, 4)
      ensures currentTetromino.rotation == 0
      ensures hold == None && nextTetrominosQueue == [Some(J), Some(O), None]
      ensures score == 1500 && level == 3 && lines == 17
      ensures Calls == []
    {
      grid := new Cell[GRID_LENGTH](_ => Empty);
      currentTetromino := new CurrentTetromino(J, GridCoords(1, 4), 0);
      hold := None;
      nextTetrominosQueue := [Some(J), Some(O), None];
      score := 1500;
      level := 3;
      lines := 17;
      Calls := [];
    }

    function GetCurrentTetromino(): Tetromino
      reads this, currentTetromino
    {
      currentTetromino.tetromino
    }

    function GetCurrentTetrominoPosition(): GridCoords
      reads this, currentTetromino
    {
      currentTetromino.position
    }

    function GetCurrentTetrominoRotation(): Usize
      reads this, currentTetromino
    {
      currentTetromino.rotation
    }

    function GetStoredTetromino(): Option<Tetromino>
      reads this
    {
      hold
    }

    /** Entry of the next-queue; the source panics on an index past the queue's end. */
    function GetInNextTetrominoQueue(index: Usize): (t: Option<Tetromino>)
      reads this
      requires Valid() && index < NEXT_TETROMINOS_QUEUE_SIZE
      ensures t in nextTetrominosQueue
    {
      nextTetrominosQueue[index]
    }

    function GetScore(): U32
      reads this
    {
      score
    }

    function GetLevel(): U32
      reads this
    {
      level
    }

    function GetLines(): U32
      reads this
    {
      lines
    }

    function GetClock(): nat
      reads this
    {
      clock
    }

    method IncrementLevel()
      requires level + 1 < U32_MODULUS
      requires Valid()
      modifies this
      ensures Valid()
      ensures level == old(level) + 1
      ensures score == old(score) && lines == old(lines) && clock == old(clock)
      ensures hold == old(hold) && nextTetrominosQueue == old(nextTetrominosQueue)
      ensures Calls == old(Calls)
    {
      level := level + 1;
    }

    /** Lowers the level by one, saturating at 0. */
    method DecrementLevel()
      requires Valid()
      modifies this
      ensures Valid()
      ensures level <= old(level) && (old(level) > 0 ==> level == old(level) - 1)
      ensures old(level) == 0 ==> level == 0
      ensures score == old(score) && lines == old(lines) && clock == old(clock)
      ensures hold == old(hold) && nextTetrominosQueue == old(nextTetrominosQueue)
      ensures Calls == old(Calls)
    {
      var l := level;
      level := if l > 0 then l - 1 else l;
    }

    method IncrementRotation()
      requires Valid() && currentTetromino.rotation + 1 < USIZE_MODULUS
      modifies currentTetromino
      ensures Valid()
      ensures currentTetromino.rotation == NextRotation(old(currentTetromino.rotation))
      ensures currentTetromino.tetromino == old(currentTetromino.tetromino)
      ensures currentTetromino.position == old(currentTetromino.position)
    {
      currentTetromino.rotation := (currentTetromino.rotation + 1) % 4;
    }

    method SetStoredTetromino(tetromino: Option<Tetromino>)
      requires Valid()
      modifies this
      ensures Valid()
      ensures GetStoredTetromino() == tetromino
      ensures level == old(level) && score == old(score) && lines == old(lines) && clock == old(clock)
      ensures nextTetrominosQueue == old(nextTetrominosQueue)
      ensures Calls == old(Calls)
    {
      hold := tetromino;
    }

    // Stand-ins for the routines whose bodies are not part of this model. Each
    // records its call and may change any field, the piece and the playfield;
    // the fixed sizes of the playfield and of the next-queue are kept. Only
    // IncrementClock advances the clock, by one, and it changes nothing but the
    // clock; nothing else is promised about their effects.

    method MoveCurrentTetrominoLeft()
      requires Valid()
      modifies this, currentTetromino, grid
      ensures Valid()
      ensures Calls == old(Calls) + [Routine.MoveCurrentTetrominoLeft]
      ensures clock == old(clock)
    {
      Calls := Calls + [Routine.MoveCurrentTetrominoLeft];
    }

    method MoveCurrentTetrominoRight()
      requires Valid()
      modifies this, currentTetromino, grid
      ensures Valid()
      ensures Calls == old(Calls) + [Routine.MoveCurrentTetrominoRight]
      ensures clock == old(clock)
    {
      Calls := Calls + [Routine.MoveCurrentTetrominoRight];
    }

    method MoveCurrentTetrominoDown()
      requires Valid()
      modifies this, currentTetromino, grid
      ensures Valid()
      ensures Calls == old(Calls) + [Routine.MoveCurrentTetrominoDown]
      ensures clock == old(clock)
    {
      Calls := Calls + [Routine.MoveCurrentTetrominoDown];
    }

    method RotateCurrentTetromino()
      requires Valid()
      modifies this, currentTetromino, grid
      ensures Valid()
      ensures Calls == old(Calls) + [Routine.RotateCurrentTetromino]
      ensures clock == old(clock)
    {
      Calls := Calls + [Routine.RotateCurrentTetromino];
    }

    method SwapCurrentStoredTetrominos()
      requires Valid()
      modifies this, currentTetromino, grid
      ensures Valid()
      ensures Calls == old(Calls) + [Routine.SwapCurrentStoredTetrominos]
      ensures clock == old(clock)
    {
      Calls := Calls + [Routine.SwapCurrentStoredTetrominos];
    }

    method IncrementClock()
      requires Valid()
      modifies this
      ensures Valid()
      ensures Calls == old(Calls) + [Routine.IncrementClock]
      ensures clock == old(clock) + 1
      ensures level == old(level) && score == old(score) && lines == old(lines)
      ensures hold == old(hold) && nextTetrominosQueue == old(nextTetrominosQueue)
    {
      clock := clock + 1;
      Calls := Calls + [Routine.IncrementClock];
    }

    method ClearGridLinesFull()
      requires Valid()
      modifies this, currentTetromino, grid
      ensures Valid()
      ensures Calls == old(Calls) + [Routine.ClearGridLinesFull]
      ensures clock == old(clock)
    {
      Calls := Calls + [Routine.ClearGridLinesFull];
    }
  }

  /** Four rotations in a row leave the piece as it was. */
  method RotateFullTurn(state: State)
    requires state.Valid() && state.currentTetromino.rotation < 4
    modifies state.currentTetromino
    ensures state.Valid()
    ensures state.currentTetromino.rotation == old(state.currentTetromino.rotation)
    ensures state.currentTetromino.position == old(state.currentTetromino.position)
  {
    FourRotationsRestore(state.currentTetromino.rotation);
    state.IncrementRotation();
    state.IncrementRotation();
    state.IncrementRotation();
    state.IncrementRotation();
  }
}

/** The engine: dispatch of a player action and the per-frame tick that advances
    the clock and fires gravity and the line check at their cadences. */
module Core {
  import opened Ints
  import opened GameState

  const LINES_FULL_CHECKING_TIME: nat := 10
  const DEFAULT_TETROMINO_FALLING_TIME: nat := 80
  const DELTA_FALLING_TIME: nat := 5

  /** The player's commands, as the input layer produces them. */
  datatype GameAction = Left | Right | Down | Rotate | Store | Pause | Quit

  /** The routine an action runs: one for each of the five game moves, none for Pause and Quit. */
  function ActionCalls(action: GameAction): (calls: seq<Routine>)
    ensures |calls| <= 1
    ensures calls == [] <==> action == Pause || action == Quit
    ensures calls != [] ==> calls[0] != IncrementClock && calls[0] != ClearGridLinesFull
  {
    match action
    case Left => [MoveCurrentTetrominoLeft]
    case Right => [MoveCurrentTetrominoRight]
    case Down => [MoveCurrentTetrominoDown]
    case Rotate => [RotateCurrentTetromino]
    case Store => [SwapCurrentStoredTetrominos]
    case Pause => []
    case Quit => []
  }

  /** Distinct game moves run distinct routines: no action is dispatched to another's routine. */
  lemma ActionCallsInjective(a: GameAction, b: GameAction)
    requires ActionCalls(a) != [] && a != b
    ensures ActionCalls(a) != ActionCalls(b)
  {
  }

  /** Runs the routine of a game move; Pause and Quit leave the state alone here. */
  method PerformAction(state: State, action: GameAction)
    requires state.Valid()
    modifies state, state.currentTetromino, state.grid
    ensures state.Valid()
    ensures state.Calls == old(state.Calls) + ActionCalls(action)
    ensures state.clock == old(state.clock)
    ensures action == Pause || action == Quit ==>
      unchanged(state) && unchanged(state.currentTetromino) && unchanged(state.grid)
  {
    match action {
      case Left => state.MoveCurrentTetrominoLeft();
      case Right => state.MoveCurrentTetrominoRight();
      case Down => state.MoveCurrentTetrominoDown();
      case Rotate => state.RotateCurrentTetromino();
      case Store => state.SwapCurrentStoredTetrominos();
      case _ =>
    }
  }

  /** Ticks between two gravity steps at a level. The source's unsigned subtraction
      underflows past level 16 and the divisor is zero at level 16. */
  function FallingPeriod(level: U32): (p: nat)
    requires level < 16
    ensures DELTA_FALLING_TIME <= p <= DEFAULT_TETROMINO_FALLING_TIME
    ensures p % DELTA_FALLING_TIME == 0
  {
    DEFAULT_TETROMINO_FALLING_TIME - level * DELTA_FALLING_TIME
  }

  /** Each level up shortens the falling period by DELTA_FALLING_TIME ticks. */
  lemma FallingPeriodShrinks(level: U32)
    requires level + 1 < 16
    ensures FallingPeriod(level + 1) == FallingPeriod(level) - DELTA_FALLING_TIME
    ensures FallingPeriod(level + 1) < FallingPeriod(level)
  {
  }

  /** A list of calls that names no routine twice. */
  predicate Distinct(calls: seq<Routine>)
  {
    forall a, b :: 0 <= a < b < |calls| ==> calls[a] != calls[b]
  }

  /** The routines one tick runs once the clock has reached `clock`: the clock increment
      first, then a gravity step when the clock is a multiple of the falling period,
      then the line check when it is a multiple of LINES_FULL_CHECKING_TIME. */
  function TickCalls(clock: nat, level: U32): (calls: seq<Routine>)
    requires level < 16
    ensures 1 <= |calls| <= 3 && calls[0] == IncrementClock
    ensures MoveCurrentTetrominoDown in calls <==> clock % FallingPeriod(level) == 0
    ensures ClearGridLinesFull in calls <==> clock % LINES_FULL_CHECKING_TIME == 0
    ensures ClearGridLinesFull in calls ==> calls[|calls| - 1] == ClearGridLinesFull
    ensures forall k :: 1 <= k < |calls| ==> calls[k] == MoveCurrentTetrominoDown || calls[k] == ClearGridLinesFull
    ensures Distinct(calls)
  {
    [IncrementClock]
    + (if clock % FallingPeriod(level) == 0 then [MoveCurrentTetrominoDown] else [])
    + (if clock % LINES_FULL_CHECKING_TIME == 0 then [ClearGridLinesFull] else [])
  }

  /** One frame of the engine: the clock advances, then gravity and the line check
      run when the new clock value is a multiple of their periods. */
  method IncrementClockAndTriggerEvents(state: State)
    requires state.Valid() && state.level < 16
    modifies state, state.currentTetromino, state.grid
    ensures state.Valid()
    ensures state.clock == old(state.clock) + 1
    ensures state.Calls == old(state.Calls) + TickCalls(state.clock, old(state.level))
    ensures TickCalls(state.clock, old(state.level)) == [IncrementClock] ==>
      && unchanged(state.currentTetromino) && unchanged(state.grid)
      && state.level == old(state.level) && state.score == old(state.score) && state.lines == old(state.lines)
      && state.hold == old(state.hold) && state.nextTetrominosQueue == old(state.nextTetrominosQueue)
  {
    state.IncrementClock();

    if state.GetClock() % (DEFAULT_TETROMINO_FALLING_TIME - state.GetLevel() * DELTA_FALLING_TIME) == 0 {
      state.MoveCurrentTetrominoDown();
    }

    if state.GetClock() % LINES_FULL_CHECKING_TIME == 0 {
      state.ClearGridLinesFull();
    }
  }

  /** How many of the ticks that bring the clock to from + 1, ..., from + n run the routine. */
  function TicksRunning(routine: Routine, from: nat, n: nat, level: U32): (count: nat)
    requires level < 16
    ensures count <= n
  {
    if n == 0 then 0
    else TicksRunning(routine, from, n - 1, level) + (if routine in TickCalls(from + n, level) then 1 else 0)
  }

  /** The calls of the ticks that bring the clock to from + 1, ..., from + n, one list per tick. */
  function TickLists(from: nat, n: nat, level: U32): (ticks: seq<seq<Routine>>)
    requires level < 16
    ensures |ticks| == n
    ensures forall i :: 0 <= i < n ==> Distinct(ticks[i])
  {
    if n == 0 then [] else TickLists(from, n - 1, level) + [TickCalls(from + n, level)]
  }

  /** The calls of consecutive ticks, in the order they are recorded. */
  function Flatten(ticks: seq<seq<Routine>>): seq<Routine>
  {
    if ticks == [] then [] else Flatten(ticks[..|ticks| - 1]) + ticks[|ticks| - 1]
  }

  /** How many of the ticks' lists name the routine. */
  function Containing(ticks: seq<seq<Routine>>, routine: Routine): (count: nat)
    ensures count <= |ticks|
  {
    if ticks == [] then 0
    else Containing(ticks[..|ticks| - 1], routine) + (if routine in ticks[|ticks| - 1] then 1 else 0)
  }

  /** Number of occurrences of a routine in a list of calls. */
  function Occurrences(calls: seq<Routine>, routine: Routine): (count: nat)
    ensures count <= |calls|
    ensures count == 0 <==> routine !in calls
  {
    if calls == [] then 0
    else Occurrences(calls[..|calls| - 1], routine) + (if calls[|calls| - 1] == routine then 1 else 0)
  }

  /** Occurrences in a concatenation add up. */
  lemma {:induction false} OccurrencesAppend(a: seq<Routine>, b: seq<Routine>, routine: Routine)
    ensures Occurrences(a + b, routine) == Occurrences(a, routine) + Occurrences(b, routine)
  {
    if b != [] {
      OccurrencesAppend(a, b[..|b| - 1], routine);
      assert (a + b)[..|a + b| - 1] == a + b[..|b| - 1];
    } else {
      assert a + b == a;
    }
  }

  /** In a list without repetitions a routine occurs once if it occurs at all. */
  lemma {:induction false} OccursAtMostOnce(calls: seq<Routine>, routine: Routine)
    requires Distinct(calls)
    ensures Occurrences(calls, routine) == if routine in calls then 1 else 0
  {
    if calls != [] {
      var init := calls[..|calls| - 1];
      OccursAtMostOnce(init, routine);
      if calls[|calls| - 1] == routine {
        forall a | 0 <= a < |init|
          ensures init[a] != routine
        {
          assert calls[a] != calls[|calls| - 1];
        }
      } else {
        assert calls == init + [calls[|calls| - 1]];
      }
    }
  }

  /** When no list repeats a routine, the lists naming it number its calls. */
  lemma {:induction false} ContainingCountsOccurrences(ticks: seq<seq<Routine>>, routine: Routine)
    requires forall i :: 0 <= i < |ticks| ==> Distinct(ticks[i])
    ensures Containing(ticks, routine) == Occurrences(Flatten(ticks), routine)
  {
    if ticks != [] {
      var init := ticks[..|ticks| - 1];
      var last := ticks[|ticks| - 1];
      ContainingCountsOccurrences(init, routine);
      OccursAtMostOnce(last, routine);
      OccurrencesAppend(Flatten(init), last, routine);
    }
  }

  /** The ticks' lists name the routine as often as TicksRunning counts. */
  lemma {:induction false} TicksRunningIsContaining(routine: Routine, from: nat, n: nat, level: U32)
    requires level < 16
    ensures TicksRunning(routine, from, n, level) == Containing(TickLists(from, n, level), routine)
  {
    if n > 0 {
      var m: nat := n - 1;
      TicksRunningIsContaining(routine, from, m, level);
      var ticks := TickLists(from, n, level);
      assert ticks[..n - 1] == TickLists(from, m, level);
    }
  }

  /** Counting the ticks that run a routine counts its calls: no tick runs a routine twice. */
  lemma TicksRunningCountsCalls(routine: Routine, from: nat, n: nat, level: U32)
    requires level < 16
    ensures TicksRunning(routine, from, n, level) == Occurrences(Flatten(TickLists(from, n, level)), routine)
  {
    TicksRunningIsContaining(routine, from, n, level);
    ContainingCountsOccurrences(TickLists(from, n, level), routine);
  }

  /** Number of multiples of p in the interval (from, from + n]. */
  function MultiplesIn(from: nat, n: nat, p: nat): (count: nat)
    requires p > 0
  {
    if n == 0 then 0 else MultiplesIn(from, n - 1, p) + (if (from + n) % p == 0 then 1 else 0)
  }

  /** Advancing by one crosses a multiple of p exactly when the new value is one. */
  lemma DivStep(x: nat, p: nat)
    requires p > 0
    ensures (x + 1) / p == x / p + (if (x + 1) % p == 0 then 1 else 0)
  {
    var q := x / p;
    var r := x % p;
    if r + 1 == p {
      DivModUnique(x + 1, p, q + 1, 0);
    } else {
      DivModUnique(x + 1, p, q, r + 1);
    }
  }

  /** The multiples of p in (from, from + n] are counted by the difference of quotients. */
  lemma {:induction false} MultiplesInByQuotients(from: nat, n: nat, p: nat)
    requires p > 0
    ensures MultiplesIn(from, n, p) == (from + n) / p - from / p
  {
    if n > 0 {
      MultiplesInByQuotients(from, n - 1, p);
      DivStep(from + n - 1, p);
    }
  }

  /** Any window of k * p consecutive values holds exactly k multiples of p. */
  lemma MultiplesInWindow(from: nat, k: nat, p: nat)
    requires p > 0
    ensures MultiplesIn(from, k * p, p) == k
  {
    MultiplesInByQuotients(from, k * p, p);
    DivModUnique(from + k * p, p, from / p + k, from % p);
  }

  /** Counting ticks that run a routine is counting multiples of its cadence. */
  lemma {:induction false} TicksRunningAreMultiples(routine: Routine, from: nat, n: nat, level: U32, p: nat)
    requires level < 16
    requires (routine == MoveCurrentTetrominoDown && p == FallingPeriod(level))
          || (routine == ClearGridLinesFull && p == LINES_FULL_CHECKING_TIME)
    ensures TicksRunning(routine, from, n, level) == MultiplesIn(from, n, p)
  {
    if n > 0 {
      TicksRunningAreMultiples(routine, from, n - 1, level, p);
    }
  }

  /** Gravity fires exactly k times in any k falling periods of consecutive ticks. */
  lemma GravityCadence(from: nat, k: nat, level: U32)
    requires level < 16
    ensures TicksRunning(MoveCurrentTetrominoDown, from, k * FallingPeriod(level), level) == k
  {
    TicksRunningAreMultiples(MoveCurrentTetrominoDown, from, k * FallingPeriod(level), level, FallingPeriod(level));
    MultiplesInWindow(from, k, FallingPeriod(level));
  }

  /** The line check fires exactly k times in any 10 * k consecutive ticks. */
  lemma LineCheckCadence(from: nat, k: nat, level: U32)
    requires level < 16
    ensures TicksRunning(ClearGridLinesFull, from, k * LINES_FULL_CHECKING_TIME, level) == k
  {
    TicksRunningAreMultiples(ClearGridLinesFull, from, k * LINES_FULL_CHECKING_TIME, level, LINES_FULL_CHECKING_TIME);
    MultiplesInWindow(from, k, LINES_FULL_CHECKING_TIME);
  }

  /** Every tick runs the clock increment once. */
  lemma {:induction false} ClockRunsEveryTick(from: nat, n: nat, level: U32)
    requires level < 16
    ensures TicksRunning(IncrementClock, from, n, level) == n
  {
    if n > 0 {
      ClockRunsEveryTick(from, n - 1, level);
    }
  }

  /** The calls recorded over any k falling periods of consecutive ticks hold exactly k gravity steps. */
  lemma GravityCalls(from: nat, k: nat, level: U32)
    requires level < 16
    ensures Occurrences(Flatten(TickLists(from, k * FallingPeriod(level), level)), MoveCurrentTetrominoDown) == k
  {
    GravityCadence(from, k, level);
    TicksRunningCountsCalls(MoveCurrentTetrominoDown, from, k * FallingPeriod(level), level);
  }

  /** The calls recorded over any 10 * k consecutive ticks hold exactly k line checks. */
  lemma LineCheckCalls(from: nat, k: nat, level: U32)
    requires level < 16
    ensures Occurrences(Flatten(TickLists(from, k * LINES_FULL_CHECKING_TIME, level)), ClearGridLinesFull) == k
  {
    LineCheckCadence(from, k, level);
    TicksRunningCountsCalls(ClearGridLinesFull, from, k * LINES_FULL_CHECKING_TIME, level);
  }
}

/**
 * The game reducer of hooks/use-game-state.ts: a state machine over the action union.
 *
 * `Date.now()` becomes the parameter `now` (ms) and each `getRandomPiece()` call a
 * random draw. The initial state is built once, when the module loads, from two random
 * pieces and the clock; `Boot` carries those three values, so that RESET, which
 * spreads that one record, deals the same two pieces every time.
 */
module GameEngine {
  import opened Wrappers
  import opened Grid
  import opened GameTypes
  import opened Pieces
  import opened Collision
  import PowerUps

  /** The draws and the clock reading taken when the initial state was built. */
  datatype Boot = Boot(currentDraw: Draw, nextDraw: Draw, loadTime: int)

  /**
   * An empty 20-by-10 board, two random pieces, no score at level 1 and 180 s on the
   * clock; the power-up fields, which the record does not set, start out empty.
   */
  function InitialState(boot: Boot): (s: GameState)
    ensures s.board == EmptyBoard(BoardHeight, BoardWidth)
    ensures s.currentPiece == Some(GetRandomPiece(boot.currentDraw))
    ensures s.nextPiece == Some(GetRandomPiece(boot.nextDraw))
    ensures s.score == 0 && s.level == 1 && s.lines == 0 && s.combo == 0
    ensures !s.isGameOver && !s.isPaused && s.timeLeft == DefaultTimeLimit * 1000
  {
    GameState(
      EmptyBoard(BoardHeight, BoardWidth),
      Some(GetRandomPiece(boot.currentDraw)),
      Some(GetRandomPiece(boot.nextDraw)),
      0, 1, 0, false, false,
      DefaultTimeLimit * 1000, boot.loadTime, 0, boot.loadTime,
      [], false, false, map[])
  }

  /** The piece moved to `newPosition` does not collide (outside ghost mode). */
  predicate IsValidMove(board: Board, piece: GamePiece, newPosition: Position) {
    !HasCollision(board, piece.(position := newPosition), false)
  }

  /** Line-clear points: 0, 100, 300, 500, 800 for 0 to 4 rows, and 0 for any other count. */
  function CalculateScore(linesCleared: int): (points: nat)
    ensures linesCleared == 0 ==> points == 0
    ensures linesCleared == 1 ==> points == SingleLine
    ensures linesCleared == 2 ==> points == DoubleLine
    ensures linesCleared == 3 ==> points == TripleLine
    ensures linesCleared == 4 ==> points == Tetris
    ensures (linesCleared < 0 || linesCleared > 4) ==> points == 0
  {
    var basePoints := [0, SingleLine, DoubleLine, TripleLine, Tetris];
    if 0 <= linesCleared < |basePoints| then basePoints[linesCleared] else 0
  }

  /** Clearing rows together pays more than clearing them one batch at a time. */
  lemma ClearingTogetherPaysMore(a: int, b: int)
    requires 1 <= a && 1 <= b && a + b <= 4
    ensures CalculateScore(a + b) > CalculateScore(a) + CalculateScore(b)
  {
  }

  // ---------------------------------------------------------------------------
  // The lock path

  /** The board after a lock: the piece written in and the full rows cleared. */
  function LockedBoard(board: Board, landed: GamePiece): Board {
    var newBoard := MergePieceToBoard(board, landed);
    ClearRows(newBoard, FindFullRows(newBoard))
  }

  /** The rows a lock clears: the full rows of the board with the piece written in. */
  function ClearedCount(board: Board, landed: GamePiece): nat {
    |FindFullRows(MergePieceToBoard(board, landed))|
  }

  /**
   * A landed piece is written into the board and the full rows are cleared. If the
   * result tops out, only the board and the game-over flag change; otherwise the next
   * piece becomes current, a new next piece is drawn, and score, lines and level are
   * credited (`bonus` is the hard-drop distance).
   */
  function Lock(state: GameState, landed: GamePiece, bonus: int, draw: Draw): GameState {
    var updatedBoard := LockedBoard(state.board, landed);
    var cleared := ClearedCount(state.board, landed);
    if IsGameOver(state.(board := updatedBoard)) then
      state.(board := updatedBoard, isGameOver := true)
    else
      state.(board := updatedBoard,
             currentPiece := state.nextPiece,
             nextPiece := Some(GetRandomPiece(draw)),
             score := state.score + CalculateScore(cleared) + bonus,
             lines := state.lines + cleared,
             level := (state.lines + cleared) / 10 + 1)
  }

  /**
   * The board a lock leaves keeps its size and, when it is `BoardWidth` wide, has no
   * full row and one fresh empty row on top per cleared row.
   */
  lemma LockedBoardCleared(board: Board, landed: GamePiece)
    requires Rect(board, BoardWidth) && |board| > 0
    ensures var r := LockedBoard(board, landed);
            var n := ClearedCount(board, landed);
            && |r| == |board| && Rect(r, BoardWidth)
            && FindFullRows(r) == [] && n <= |r|
            && (forall k :: 0 <= k < n ==> r[k] == Empties(BoardWidth))
  {
    var merged := MergePieceToBoard(board, landed);
    var full := FindFullRows(merged);
    assert Width(merged) == BoardWidth;
    ClearFullRows(merged);
    var r := ClearRows(merged, full);
    var pad := |merged| - |KeptRows(merged, full, 0)|;
    assert pad == |full|;
    forall k | 0 <= k < |full| ensures r[k] == Empties(BoardWidth) {
    }
  }

  /**
   * What a lock does to the record: when the new board tops out only the board and the
   * game-over flag differ; otherwise the next piece is promoted and score, lines and
   * level are credited with the rows cleared.
   */
  lemma LockOutcome(state: GameState, landed: GamePiece, bonus: int, draw: Draw)
    ensures var s := Lock(state, landed, bonus, draw);
            var n := ClearedCount(state.board, landed);
            var topped := IsGameOver(state.(board := LockedBoard(state.board, landed)));
            && s.board == LockedBoard(state.board, landed)
            && (topped ==> s == state.(board := s.board, isGameOver := true))
            && (!topped ==>
                  && s == state.(board := s.board, currentPiece := state.nextPiece,
                                 nextPiece := Some(GetRandomPiece(draw)),
                                 score := s.score, lines := s.lines, level := s.level)
                  && s.score == state.score + CalculateScore(n) + bonus
                  && s.lines == state.lines + n
                  && s.level == s.lines / 10 + 1)
  {
  }

  // ---------------------------------------------------------------------------
  // Moves and rotation

  /** MOVE_LEFT (`dx` = -1) and MOVE_RIGHT (`dx` = 1). */
  function MoveHorizontal(state: GameState, dx: int): GameState {
    if state.currentPiece.None? then state
    else
      var piece := state.currentPiece.value;
      var newPosition := Position(piece.position.x + dx, piece.position.y);
      if IsValidMove(state.board, piece, newPosition) then
        state.(currentPiece := Some(piece.(position := newPosition)))
      else state
  }

  /**
   * A sideways move shifts the current piece by exactly `dx` columns when the shifted
   * piece fits, and otherwise changes nothing.
   */
  lemma MoveHorizontalShifts(state: GameState, dx: int)
    requires state.currentPiece.Some?
    ensures var piece := state.currentPiece.value;
            var shifted := Position(piece.position.x + dx, piece.position.y);
            && (IsValidMove(state.board, piece, shifted) ==>
                  MoveHorizontal(state, dx) == state.(currentPiece := Some(piece.(position := shifted))))
            && (!IsValidMove(state.board, piece, shifted) ==> MoveHorizontal(state, dx) == state)
  {
  }

  /** From a piece that fits, a move left that succeeds is undone by a move right. */
  lemma LeftThenRight(state: GameState)
    requires state.currentPiece.Some?
    requires var piece := state.currentPiece.value;
             && IsValidMove(state.board, piece, piece.position)
             && IsValidMove(state.board, piece, Position(piece.position.x - 1, piece.position.y))
    ensures MoveHorizontal(MoveHorizontal(state, -1), 1) == state
  {
    var piece := state.currentPiece.value;
    var moved := MoveHorizontal(state, -1).currentPiece.value;
    assert moved.(position := Position(moved.position.x + 1, moved.position.y)) == piece;
    assert moved.(position := piece.position) == piece;
  }

  /** MOVE_DOWN: one row down when the piece fits there; otherwise the piece locks. */
  function MoveDownResult(state: GameState, draw: Draw): GameState {
    if state.currentPiece.None? then state
    else
      var piece := state.currentPiece.value;
      var newPosition := Position(piece.position.x, piece.position.y + 1);
      if IsValidMove(state.board, piece, newPosition) then
        state.(currentPiece := Some(piece.(position := newPosition)))
      else Lock(state, piece, 0, draw)
  }

  /**
   * A step down moves the current piece exactly one row lower when it fits there and
   * changes nothing else; otherwise the piece locks where it is, with no bonus.
   */
  lemma MoveDownShifts(state: GameState, draw: Draw)
    requires state.currentPiece.Some?
    ensures var piece := state.currentPiece.value;
            var lower := Position(piece.position.x, piece.position.y + 1);
            && (IsValidMove(state.board, piece, lower) ==>
                  MoveDownResult(state, draw) == state.(currentPiece := Some(piece.(position := lower))))
            && (!IsValidMove(state.board, piece, lower) ==> MoveDownResult(state, draw) == Lock(state, piece, 0, draw))
  {
  }

  /** ROTATE: the shape turned clockwise at the same position, if it fits there; no wall kick. */
  function RotateCurrent(state: GameState): GameState {
    if state.currentPiece.None? then state
    else
      var piece := state.currentPiece.value;
      var rotatedPiece := piece.(shape := Rotated(piece.shape));
      if IsValidMove(state.board, rotatedPiece, piece.position) then
        state.(currentPiece := Some(rotatedPiece))
      else state
  }

  /**
   * A rotation only ever replaces the shape: position, colour and the rotation field
   * are kept, and the rotated shape fits where the piece is.
   */
  lemma RotateReplacesShapeOnly(state: GameState)
    requires state.currentPiece.Some?
    ensures var piece := state.currentPiece.value;
            var s := RotateCurrent(state);
            && s.currentPiece.Some?
            && (s == state || (s == state.(currentPiece := Some(piece.(shape := Rotated(piece.shape))))
                              && IsValidMove(state.board, s.currentPiece.value, piece.position)))
  {
    var piece := state.currentPiece.value;
    assert piece.(shape := Rotated(piece.shape)).(position := piece.position) ==
           piece.(shape := Rotated(piece.shape));
  }

  /** Four accepted rotations of a square shape give back the state. */
  lemma RotateFourTimesState(state: GameState)
    requires state.currentPiece.Some? && IsSquare(state.currentPiece.value.shape)
    requires var p := state.currentPiece.value;
             && IsValidMove(state.board, p.(shape := Rotated(p.shape)), p.position)
             && IsValidMove(state.board, p.(shape := Rotated(Rotated(p.shape))), p.position)
             && IsValidMove(state.board, p.(shape := Rotated(Rotated(Rotated(p.shape)))), p.position)
             && IsValidMove(state.board, p, p.position)
    ensures RotateCurrent(RotateCurrent(RotateCurrent(RotateCurrent(state)))) == state
  {
    var p := state.currentPiece.value;
    RotateFourTimes(p.shape);
    var s1 := RotateCurrent(state);
    assert p.(shape := Rotated(p.shape)).(position := p.position) == p.(shape := Rotated(p.shape));
    assert s1 == state.(currentPiece := Some(p.(shape := Rotated(p.shape))));
    var s2 := RotateCurrent(s1);
    assert p.(shape := Rotated(Rotated(p.shape))).(position := p.position) == p.(shape := Rotated(Rotated(p.shape)));
    assert s2 == state.(currentPiece := Some(p.(shape := Rotated(Rotated(p.shape)))));
    var s3 := RotateCurrent(s2);
    assert p.(shape := Rotated(Rotated(Rotated(p.shape)))).(position := p.position)
        == p.(shape := Rotated(Rotated(Rotated(p.shape))));
    assert s3 == state.(currentPiece := Some(p.(shape := Rotated(Rotated(Rotated(p.shape))))));
    assert p.(shape := Rotated(Rotated(Rotated(Rotated(p.shape))))) == p;
    assert p.(position := p.position) == p;
  }

  // ---------------------------------------------------------------------------
  // Hard drop

  /** The piece fits `j` rows below its position. */
  predicate FitsAt(board: Board, piece: GamePiece, j: int) {
    IsValidMove(board, piece, Position(piece.position.x, piece.position.y + j))
  }

  /** A piece that fits `k + 1` rows lower than its position still has a cell above the floor there. */
  lemma FitsBelowFloor(board: Board, piece: GamePiece, k: nat)
    requires HasBlock(piece.shape)
    requires FitsAt(board, piece, k + 1)
    ensures piece.position.y + k + 1 < |board|
  {
    var i, j :| 0 <= i < |piece.shape| && 0 <= j < |piece.shape[i]| && piece.shape[i][j];
    var moved := piece.(position := Position(piece.position.x, piece.position.y + k + 1));
    assert !Blocked(board, moved.position.y + i, moved.position.x + j, false);
  }

  /**
   * The number of rows the piece can fall from `k` rows below its position: every
   * step from `k` to the result fits and the next one does not.
   */
  function DropFrom(board: Board, piece: GamePiece, k: nat): (d: nat)
    requires HasBlock(piece.shape)
    ensures d >= k
    ensures forall j :: k < j <= d ==> FitsAt(board, piece, j)
    ensures !FitsAt(board, piece, d + 1)
    decreases |board| - piece.position.y - k
  {
    if FitsAt(board, piece, k + 1) then
      FitsBelowFloor(board, piece, k);
      DropFrom(board, piece, k + 1)
    else k
  }

  /** How far a hard drop moves the piece. */
  function DropDistance(board: Board, piece: GamePiece): (d: nat)
    requires HasBlock(piece.shape)
    ensures forall j :: 0 < j <= d ==> FitsAt(board, piece, j)
    ensures !FitsAt(board, piece, d + 1)
  {
    DropFrom(board, piece, 0)
  }

  /** The drop distance is the only one whose intermediate steps fit and whose next step does not. */
  lemma DropDistanceUnique(board: Board, piece: GamePiece, e: nat)
    requires HasBlock(piece.shape)
    requires forall j :: 0 < j <= e ==> FitsAt(board, piece, j)
    requires !FitsAt(board, piece, e + 1)
    ensures e == DropDistance(board, piece)
  {
    var d := DropDistance(board, piece);
    assert e < d ==> FitsAt(board, piece, e + 1);
    assert d < e ==> FitsAt(board, piece, d + 1);
  }

  /** The piece moved down by its drop distance. */
  function Landed(board: Board, piece: GamePiece): (landed: GamePiece)
    requires HasBlock(piece.shape)
  {
    piece.(position := Position(piece.position.x, piece.position.y + DropDistance(board, piece)))
  }

  /** HARD_DROP: the piece falls as far as it fits and locks, scoring one point per row fallen. */
  function HardDropResult(state: GameState, draw: Draw): GameState
    requires state.currentPiece.Some? ==> HasBlock(state.currentPiece.value.shape)
  {
    if state.currentPiece.None? then state
    else
      var piece := state.currentPiece.value;
      Lock(state, Landed(state.board, piece), DropDistance(state.board, piece), draw)
  }

  /** The hard drop's search loop: the piece is moved down one row at a time while the next row fits. */
  method DropSearch(board: Board, piece: GamePiece) returns (newPosition: Position, dropDistance: nat)
    requires HasBlock(piece.shape)
    ensures dropDistance == DropDistance(board, piece)
    ensures newPosition == Position(piece.position.x, piece.position.y + dropDistance)
  {
    dropDistance := 0;
    newPosition := piece.position;
    ghost var d := DropDistance(board, piece);
    while IsValidMove(board, piece, Position(newPosition.x, newPosition.y + 1))
      invariant newPosition == Position(piece.position.x, piece.position.y + dropDistance)
      invariant 0 <= dropDistance <= d
      decreases d - dropDistance
    {
      assert FitsAt(board, piece, dropDistance + 1);
      newPosition := newPosition.(y := newPosition.y + 1);
      dropDistance := dropDistance + 1;
    }
    assert dropDistance < d ==> FitsAt(board, piece, dropDistance + 1);
  }

  /** HARD_DROP in the reducer: the search loop, then the lock. */
  method HardDropSearch(state: GameState, draw: Draw) returns (next: GameState)
    requires state.currentPiece.Some? ==> HasBlock(state.currentPiece.value.shape)
    ensures next == HardDropResult(state, draw)
  {
    if state.currentPiece.None? {
      next := state;
    } else {
      var piece := state.currentPiece.value;
      var newPosition, dropDistance := DropSearch(state.board, piece);
      assert piece.(position := newPosition) == Landed(state.board, piece);
      next := Lock(state, piece.(position := newPosition), dropDistance, draw);
    }
  }

  /**
   * A hard drop lands the piece its drop distance `d` lower and locks it there; unless
   * the board tops out it adds the line-clear points plus `d` to the score.
   */
  lemma HardDropScores(state: GameState, draw: Draw)
    requires state.currentPiece.Some? && HasBlock(state.currentPiece.value.shape)
    ensures var piece := state.currentPiece.value;
            var d := DropDistance(state.board, piece);
            var landed := Landed(state.board, piece);
            var s := HardDropResult(state, draw);
            && landed.position == Position(piece.position.x, piece.position.y + d)
            && s.board == LockedBoard(state.board, landed)
            && (!IsGameOver(state.(board := s.board)) ==>
                  s.score == state.score + CalculateScore(ClearedCount(state.board, landed)) + d)
  {
    var piece := state.currentPiece.value;
    LockOutcome(state, Landed(state.board, piece), DropDistance(state.board, piece), draw);
  }

  /** A hard drop keeps the state consistent and never lowers the score or the line count. */
  lemma HardDropKeepsConsistent(state: GameState, draw: Draw)
    requires state.currentPiece.Some? ==> HasBlock(state.currentPiece.value.shape)
    requires Consistent(state)
    ensures Consistent(HardDropResult(state, draw))
    ensures HardDropResult(state, draw).score >= state.score
    ensures HardDropResult(state, draw).lines >= state.lines
  {
    if state.currentPiece.Some? {
      var piece := state.currentPiece.value;
      LockKeepsConsistent(state, Landed(state.board, piece), DropDistance(state.board, piece), draw);
    }
  }

  // ---------------------------------------------------------------------------
  // Clock, pause and reset

  /** TICK: the time since the last tick comes off the budget, which stops at zero and then ends the game. */
  function TickResult(state: GameState, now: int): GameState {
    var deltaTime := now - state.lastTick;
    var newTimeLeft := if state.timeLeft - deltaTime > 0 then state.timeLeft - deltaTime else 0;
    if newTimeLeft == 0 then state.(timeLeft := 0, isGameOver := true, lastTick := now)
    else state.(timeLeft := newTimeLeft, lastTick := now)
  }

  /**
   * A tick leaves a budget of max(0, timeLeft - elapsed), never negative, ends the game
   * exactly when that is zero, and changes nothing but the clock fields and that flag.
   */
  lemma TickBudget(state: GameState, now: int)
    ensures var s := TickResult(state, now);
            var left := state.timeLeft - (now - state.lastTick);
            && s.timeLeft >= 0
            && s.timeLeft == (if left > 0 then left else 0)
            && s.isGameOver == (state.isGameOver || left <= 0)
            && s == state.(timeLeft := s.timeLeft, lastTick := now, isGameOver := s.isGameOver)
  {
  }

  /** Two ticks, the first leaving time on the clock, take off the same as one tick. */
  lemma TicksAdd(state: GameState, t1: int, t2: int)
    requires state.timeLeft - (t1 - state.lastTick) > 0
    ensures TickResult(TickResult(state, t1), t2) == TickResult(state, t2)
  {
  }

  /** TOGGLE_PAUSE: flips the pause flag and restarts the tick clock. */
  function TogglePauseResult(state: GameState, now: int): GameState {
    state.(isPaused := !state.isPaused, lastTick := now)
  }

  /** The budget RESET starts with: `timeLimit || 180`, so a missing or zero limit falls back to 180 s. */
  function ResetTimeLeft(timeLimit: Option<int>): (ms: int)
    ensures timeLimit.Some? && timeLimit.value != 0 ==> ms == timeLimit.value * 1000
    ensures timeLimit.None? || timeLimit.value == 0 ==> ms == DefaultTimeLimit * 1000
  {
    if timeLimit.Some? && timeLimit.value != 0 then timeLimit.value * 1000 else DefaultTimeLimit * 1000
  }

  /** RESET: the initial state with the requested budget and a restarted tick clock. */
  function ResetResult(boot: Boot, timeLimit: Option<int>, now: int): GameState {
    InitialState(boot).(timeLeft := ResetTimeLeft(timeLimit), lastTick := now)
  }

  // ---------------------------------------------------------------------------
  // The reducer

  /** The reducer may be asked to hard-drop a piece only if the piece occupies a cell. */
  predicate CanReduce(state: GameState, action: GameAction) {
    action.HardDrop? && state.currentPiece.Some? ==> HasBlock(state.currentPiece.value.shape)
  }

  /**
   * The reducer's decision: a finished game ignores everything but RESET, a paused
   * game everything but TOGGLE_PAUSE and RESET; actions without a case (SOFT_DROP,
   * UPDATE_SCORE, CLEAR_LINES, GAME_OVER) return the state.
   */
  function Reduce(boot: Boot, state: GameState, action: GameAction, now: int, draw: Draw): GameState
    requires CanReduce(state, action)
  {
    if state.isGameOver && !action.Reset? then state
    else if state.isPaused && !(action.TogglePause? || action.Reset?) then state
    else
      match action
      case MoveLeft => MoveHorizontal(state, -1)
      case MoveRight => MoveHorizontal(state, 1)
      case MoveDown => MoveDownResult(state, draw)
      case Rotate(_) => RotateCurrent(state)
      case HardDrop => HardDropResult(state, draw)
      case Tick => TickResult(state, now)
      case TogglePause => TogglePauseResult(state, now)
      case Reset(timeLimit) => ResetResult(boot, timeLimit, now)
      case _ => state
  }

  /** `gameReducer`: the hard drop runs its search loop, rotation its matrix fill. */
  method GameReducer(boot: Boot, state: GameState, action: GameAction, now: int, draw: Draw)
    returns (next: GameState)
    requires CanReduce(state, action)
    ensures next == Reduce(boot, state, action, now, draw)
  {
    if state.isGameOver && !action.Reset? {
      return state;
    }
    if state.isPaused && !(action.TogglePause? || action.Reset?) {
      return state;
    }
    match action {
      case MoveLeft => next := MoveHorizontal(state, -1);
      case MoveRight => next := MoveHorizontal(state, 1);
      case MoveDown => next := MoveDownResult(state, draw);
      case Rotate(_) =>
        if state.currentPiece.None? {
          return state;
        }
        var piece := state.currentPiece.value;
        var rotatedShape := RotatePiece(piece);
        var rotatedPiece := piece.(shape := rotatedShape);
        if IsValidMove(state.board, rotatedPiece, piece.position) {
          next := state.(currentPiece := Some(rotatedPiece));
        } else {
          next := state;
        }
      case HardDrop => next := HardDropSearch(state, draw);
      case Tick => next := TickResult(state, now);
      case TogglePause => next := TogglePauseResult(state, now);
      case Reset(timeLimit) => next := ResetResult(boot, timeLimit, now);
      case _ => next := state;
    }
  }

  /** A finished game ignores every action but RESET. */
  lemma GameOverFreezes(boot: Boot, state: GameState, action: GameAction, now: int, draw: Draw)
    requires CanReduce(state, action) && state.isGameOver && !action.Reset?
    ensures Reduce(boot, state, action, now, draw) == state
  {
  }

  /** A paused game ignores every action but TOGGLE_PAUSE and RESET. */
  lemma PauseFreezes(boot: Boot, state: GameState, action: GameAction, now: int, draw: Draw)
    requires CanReduce(state, action) && state.isPaused && !action.TogglePause? && !action.Reset?
    ensures Reduce(boot, state, action, now, draw) == state
  {
  }

  /** RESET does not depend on the state it replaces, and works even in a finished or paused game. */
  lemma ResetForgetsState(boot: Boot, s1: GameState, s2: GameState, timeLimit: Option<int>, now: int, d1: Draw, d2: Draw)
    ensures Reduce(boot, s1, GameAction.Reset(timeLimit), now, d1) == Reduce(boot, s2, GameAction.Reset(timeLimit), now, d2)
    ensures Reduce(boot, s1, GameAction.Reset(timeLimit), now, d1).timeLeft == ResetTimeLeft(timeLimit)
    ensures !Reduce(boot, s1, GameAction.Reset(timeLimit), now, d1).isGameOver
  {
  }

  /** Pausing twice in a row restores everything but the tick clock. */
  lemma PauseTwice(boot: Boot, state: GameState, t1: int, t2: int, d: Draw)
    requires !state.isGameOver
    ensures Reduce(boot, Reduce(boot, state, GameAction.TogglePause, t1, d), GameAction.TogglePause, t2, d) == state.(lastTick := t2)
  {
  }

  /** Every occupied cell of the piece, at its position, lies inside a 20-by-10 board. */
  predicate OnBoard(p: GamePiece) {
    forall i, j :: 0 <= i < |p.shape| && 0 <= j < |p.shape[i]| && p.shape[i][j] ==>
      0 <= p.position.y + i < BoardHeight && 0 <= p.position.x + j < BoardWidth
  }

  /**
   * A piece the game can play: a square shape with an occupied cell, on or below the
   * top row, and with every occupied cell inside the board (it may overlap blocks).
   */
  predicate PieceReady(p: GamePiece) {
    IsSquare(p.shape) && HasBlock(p.shape) && p.position.y >= 0 && OnBoard(p)
  }

  /**
   * The bookkeeping every game state keeps: a 20-by-10 board, level derived from the
   * lines cleared, no negative score or line count, and a current and next piece that
   * occupy a cell on the board.
   */
  predicate Consistent(s: GameState) {
    && |s.board| == BoardHeight && Rect(s.board, BoardWidth)
    && s.lines >= 0 && s.score >= 0
    && s.level == s.lines / 10 + 1
    && (s.currentPiece.Some? ==> PieceReady(s.currentPiece.value))
    && (s.nextPiece.Some? ==> PieceReady(s.nextPiece.value))
  }

  /** On a 20-by-10 board, a piece lies on the board exactly when it has no ghost-mode collision. */
  lemma OnBoardIsGhostFree(b: Board, p: GamePiece)
    requires |b| == BoardHeight && Rect(b, BoardWidth)
    ensures OnBoard(p) <==> !HasCollision(b, p, true)
  {
    GhostCollisionIsBoundsOnly(b, p);
  }

  /** Every freshly created catalog piece is ready. */
  lemma CatalogPieceReady(t: PieceType)
    ensures PieceReady(CreatePiece(t))
  {
    var p := CreatePiece(t);
    CatalogShapesHaveFourCells(t);
    assert p.shape[1][1];
    assert |p.shape| + p.position.x <= BoardWidth;
  }

  /** Every drawn piece is ready. */
  lemma RandomPieceReady(draw: Draw)
    ensures PieceReady(GetRandomPiece(draw))
  {
    CatalogPieceReady(PieceTypes[draw * |PieceTypes| / RandomScale]);
  }

  /** A ready piece moved to a valid position on or below the top row is ready there. */
  lemma MovedPieceReady(b: Board, p: GamePiece, pos: Position)
    requires |b| == BoardHeight && Rect(b, BoardWidth)
    requires PieceReady(p) && IsValidMove(b, p, pos) && pos.y >= 0
    ensures PieceReady(p.(position := pos))
  {
    var q := p.(position := pos);
    forall i, j | 0 <= i < |q.shape| && 0 <= j < |q.shape[i]| && q.shape[i][j]
      ensures 0 <= q.position.y + i < BoardHeight && 0 <= q.position.x + j < BoardWidth
    {
      assert !Blocked(b, q.position.y + i, q.position.x + j, false);
    }
  }

  /** A ready piece whose rotation is valid where it stands is ready rotated. */
  lemma RotatedPieceReady(b: Board, p: GamePiece)
    requires |b| == BoardHeight && Rect(b, BoardWidth)
    requires PieceReady(p) && IsValidMove(b, p.(shape := Rotated(p.shape)), p.position)
    ensures PieceReady(p.(shape := Rotated(p.shape)))
  {
    RotationKeepsBlock(p.shape);
    var q := p.(shape := Rotated(p.shape));
    assert q.(position := p.position) == q;
    forall i, j | 0 <= i < |q.shape| && 0 <= j < |q.shape[i]| && q.shape[i][j]
      ensures 0 <= q.position.y + i < BoardHeight && 0 <= q.position.x + j < BoardWidth
    {
      assert !Blocked(b, q.position.y + i, q.position.x + j, false);
    }
  }

  lemma InitialConsistent(boot: Boot)
    ensures Consistent(InitialState(boot))
  {
    RandomPieceReady(boot.currentDraw);
    RandomPieceReady(boot.nextDraw);
  }

  /** The upright I piece fits on an empty board two columns left of it, from any of the top 17 rows. */
  lemma UprightIFits(p: GamePiece, y: int)
    requires p.shape == Rotated(CatalogShape(I))
    requires 0 <= y <= BoardHeight - 4
    ensures IsValidMove(EmptyBoard(BoardHeight, BoardWidth), p, Position(-2, y))
  {
    var upright := Rotated(CatalogShape(I));
    forall i, j | 0 <= i < |upright| && 0 <= j < |upright[i]| && upright[i][j]
      ensures j == 2
    {
      RotatedAt(CatalogShape(I), i, j);
    }
  }

  /**
   * A consistent state can hold a piece left of the board: the I piece turned upright
   * occupies only its matrix's third column, so against the left wall a MOVE_LEFT takes
   * it from x = -1 to x = -2 on an empty board. The line blast as written pays 1000
   * points there for a board without a block.
   */
  lemma UprightIPassesLeftEdge(boot: Boot, state: GameState, y: int, now: int, draw: Draw)
    requires Consistent(state) && !state.isGameOver && !state.isPaused
    requires state.board == EmptyBoard(BoardHeight, BoardWidth)
    requires 0 <= y <= BoardHeight - 4
    requires state.currentPiece == Some(CreatePiece(I).(shape := Rotated(CatalogShape(I)), position := Position(-1, y)))
    ensures var s := Reduce(boot, state, MoveLeft, now, draw);
            && Consistent(s)
            && s.currentPiece.Some? && s.currentPiece.value.position == Position(-2, y)
            && PowerUps.BlastAnchor(s)
            && PowerUps.LineBlastEffect(s).score == Some(s.score + 1000)
  {
    var p := state.currentPiece.value;
    var pos := Position(-2, y);
    UprightIFits(p, y);
    MovedPieceReady(state.board, p, pos);
    var s := Reduce(boot, state, MoveLeft, now, draw);
    assert s == state.(currentPiece := Some(p.(position := pos)));
    ConsistentBlastAnchor(s);
    PowerUps.LineBlastOffBoardOverpays(s);
  }

  /** In a consistent state the reducer accepts every action: a current piece always occupies a cell. */
  lemma ConsistentCanReduce(state: GameState, action: GameAction)
    requires Consistent(state)
    ensures CanReduce(state, action)
  {
  }

  /**
   * In a consistent state the current piece's row lies on the board and its column is
   * not right of it, so the line blast can run; the column can lie left of the board.
   */
  lemma ConsistentBlastAnchor(state: GameState)
    requires Consistent(state)
    ensures PowerUps.BlastAnchor(state)
  {
    if state.currentPiece.Some? {
      var p := state.currentPiece.value;
      var i, j :| 0 <= i < |p.shape| && 0 <= j < |p.shape[i]| && p.shape[i][j];
      assert 0 <= p.position.y + i < BoardHeight && 0 <= p.position.x + j < BoardWidth;
    }
  }

  /**
   * Every action keeps the state consistent, and only RESET ever lowers the score or
   * the line count.
   */
  lemma ReduceKeepsConsistent(boot: Boot, state: GameState, action: GameAction, now: int, draw: Draw)
    requires CanReduce(state, action) && Consistent(state)
    ensures Consistent(Reduce(boot, state, action, now, draw))
    ensures !action.Reset? ==>
              Reduce(boot, state, action, now, draw).score >= state.score
              && Reduce(boot, state, action, now, draw).lines >= state.lines
  {
    if action.MoveLeft? || action.MoveRight? || action.Rotate? {
      PieceMovesKeepConsistent(boot, state, action, now, draw);
    } else if action.Tick? || action.TogglePause? {
      ClockActionsKeepBoard(boot, state, action, now, draw);
      assert Reduce(boot, state, action, now, draw).nextPiece == state.nextPiece;
    } else if action.MoveDown? || action.HardDrop? {
      DropsKeepConsistent(boot, state, action, now, draw);
    } else if action.Reset? {
      InitialConsistent(boot);
      assert Reduce(boot, state, action, now, draw) == InitialState(boot).(timeLeft := ResetTimeLeft(action.timeLimit), lastTick := now);
    }
  }

  /** A sideways move or a rotation changes at most the current piece. */
  lemma PieceMovesKeepRecord(boot: Boot, state: GameState, action: GameAction, now: int, draw: Draw)
    requires action.MoveLeft? || action.MoveRight? || action.Rotate?
    ensures var s := Reduce(boot, state, action, now, draw);
            s == state.(currentPiece := s.currentPiece)
  {
  }

  /** A sideways move or a rotation keeps the state consistent. */
  lemma PieceMovesKeepConsistent(boot: Boot, state: GameState, action: GameAction, now: int, draw: Draw)
    requires Consistent(state)
    requires action.MoveLeft? || action.MoveRight? || action.Rotate?
    ensures Consistent(Reduce(boot, state, action, now, draw))
  {
    PieceMovesKeepRecord(boot, state, action, now, draw);
    if state.currentPiece.Some? && !state.isGameOver && !state.isPaused {
      var p := state.currentPiece.value;
      if action.Rotate? {
        if IsValidMove(state.board, p.(shape := Rotated(p.shape)), p.position) {
          RotatedPieceReady(state.board, p);
        }
      } else {
        var dx := if action.MoveLeft? then -1 else 1;
        var pos := Position(p.position.x + dx, p.position.y);
        if IsValidMove(state.board, p, pos) {
          MovedPieceReady(state.board, p, pos);
        }
      }
    }
  }

  /** TICK and TOGGLE_PAUSE never touch the board, the piece, the score or the line count. */
  lemma ClockActionsKeepBoard(boot: Boot, state: GameState, action: GameAction, now: int, draw: Draw)
    requires action.Tick? || action.TogglePause?
    ensures var s := Reduce(boot, state, action, now, draw);
            && s.board == state.board && s.currentPiece == state.currentPiece
            && s.score == state.score && s.lines == state.lines && s.level == state.level
  {
  }

  /** MOVE_DOWN and HARD_DROP keep the state consistent and never lower the score or the line count. */
  lemma DropsKeepConsistent(boot: Boot, state: GameState, action: GameAction, now: int, draw: Draw)
    requires CanReduce(state, action) && Consistent(state)
    requires action.MoveDown? || action.HardDrop?
    ensures Consistent(Reduce(boot, state, action, now, draw))
    ensures Reduce(boot, state, action, now, draw).score >= state.score
    ensures Reduce(boot, state, action, now, draw).lines >= state.lines
  {
    if state.isGameOver || state.isPaused {
    } else if action.MoveDown? {
      MoveDownKeepsConsistent(state, draw);
    } else {
      HardDropKeepsConsistent(state, draw);
    }
  }

  /** MOVE_DOWN keeps the state consistent and never lowers the score or the line count. */
  lemma MoveDownKeepsConsistent(state: GameState, draw: Draw)
    requires Consistent(state)
    ensures Consistent(MoveDownResult(state, draw))
    ensures MoveDownResult(state, draw).score >= state.score
    ensures MoveDownResult(state, draw).lines >= state.lines
  {
    if state.currentPiece.Some? {
      var piece := state.currentPiece.value;
      var lower := Position(piece.position.x, piece.position.y + 1);
      if IsValidMove(state.board, piece, lower) {
        MovedPieceReady(state.board, piece, lower);
      } else {
        LockKeepsConsistent(state, piece, 0, draw);
      }
    }
  }

  /** A lock keeps the state consistent and never lowers the score or the line count. */
  lemma LockKeepsConsistent(state: GameState, landed: GamePiece, bonus: int, draw: Draw)
    requires Consistent(state) && bonus >= 0
    ensures Consistent(Lock(state, landed, bonus, draw))
    ensures Lock(state, landed, bonus, draw).score >= state.score
    ensures Lock(state, landed, bonus, draw).lines >= state.lines
  {
    LockedBoardCleared(state.board, landed);
    LockOutcome(state, landed, bonus, draw);
    RandomPieceReady(draw);
  }

  // ---------------------------------------------------------------------------
  // The driver's speed curve

  /** The gravity timer period in ms: 800 at level 1, 50 less per level, never below 100. */
  function GravityInterval(level: int): int {
    var v := InitialInterval - (level - 1) * IntervalDecrement;
    if v > MinimumInterval then v else MinimumInterval
  }

  /** The period is at least 100 ms, at most 800 ms from level 1 on, and shrinks as the level grows. */
  lemma GravityIntervalBounds(l1: int, l2: int)
    ensures GravityInterval(l1) >= MinimumInterval
    ensures l1 >= 1 ==> GravityInterval(l1) <= InitialInterval
    ensures l1 <= l2 ==> GravityInterval(l2) <= GravityInterval(l1)
    ensures l1 >= 15 ==> GravityInterval(l1) == MinimumInterval
  {
  }
}

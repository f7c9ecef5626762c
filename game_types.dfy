/**
 * Positions, pieces, the game state record, the action union and the game's
 * configuration constants.
 *
 * Time is kept in integer milliseconds: `timeLeft` is the remaining time budget in
 * ms (the game stores seconds as a float), `lastTick` and `lastComboTime` are
 * clock readings in ms.
 */
module GameTypes {
  import opened Wrappers
  import opened Grid
  import opened PowerUpTypes

  /** Grid coordinates: x grows to the right, y grows downwards. */
  datatype Position = Position(x: int, y: int)

  /** A square matrix of booleans; true marks a cell the piece occupies. */
  type Shape = seq<seq<bool>>

  /** A falling piece; `position` is the top-left corner of its shape on the board. */
  datatype GamePiece = GamePiece(
    shape: Shape,
    color: string,
    position: Position,
    rotation: int,
    powerUp: Option<PowerUp>)

  /**
   * The game state, extended with the power-up fields the power-up effects read
   * and write (`activePowerUps`, `isTimeFrozen`, `isGhostMode`, `powerUpStates`).
   */
  datatype GameState = GameState(
    board: Board,
    currentPiece: Option<GamePiece>,
    nextPiece: Option<GamePiece>,
    score: int,
    level: int,
    lines: int,
    isGameOver: bool,
    isPaused: bool,
    timeLeft: int,
    lastTick: int,
    combo: int,
    lastComboTime: int,
    activePowerUps: seq<ActivePowerUp>,
    isTimeFrozen: bool,
    isGhostMode: bool,
    powerUpStates: map<PowerUpKind, PowerUpStatus>)

  datatype RotationDirection = Clockwise | Counterclockwise

  /** The actions the game can dispatch; `timeLimit` is in seconds. */
  datatype GameAction =
    | MoveLeft
    | MoveRight
    | MoveDown
    | Rotate(direction: RotationDirection)
    | HardDrop
    | SoftDrop
    | TogglePause
    | Tick
    | Reset(timeLimit: Option<int>)
    | UpdateScore(points: int)
    | ClearLines(count: int)
    | GameOver

  /** A random draw `Math.random()` in [0, 1), as floor(random * 10000). */
  const RandomScale: nat := 10000
  type Draw = d: int | 0 <= d < RandomScale

  // Board size and time budget of the default configuration.
  const BoardWidth: nat := 10
  const BoardHeight: nat := 20
  const DefaultTimeLimit: nat := 180

  // Line-clear points for 1, 2, 3 and 4 rows.
  const SingleLine: nat := 100
  const DoubleLine: nat := 300
  const TripleLine: nat := 500
  const Tetris: nat := 800

  // The speed curve of the gravity timer, in ms.
  const InitialInterval: int := 800
  const IntervalDecrement: int := 50
  const MinimumInterval: int := 100
}

/**
 * The power-up effects of lib/power-ups.ts: the power-up piece, the random draws that
 * decide whether and which power-up appears, the three instantaneous effects (colour
 * bomb, line blast, shuffle), activation, and the periodic refresh of timed power-ups.
 *
 * Each effect returns the fields of the game state it changes (a `Partial<GameState>`
 * in the game), modelled by `Patch`. `Date.now()` becomes the parameter `now` (ms) and
 * the random order in which the shuffle places columns becomes the parameter `perm`.
 */
module PowerUps {
  import opened Wrappers
  import opened Grid
  import opened PowerUpTypes
  import opened GameTypes
  import opened Pieces
  import opened Collision

  /** The fields an effect writes; `None` leaves the field as it is. */
  datatype Patch = Patch(
    board: Option<Board>,
    score: Option<int>,
    currentPiece: Option<Option<GamePiece>>,
    activePowerUps: Option<seq<ActivePowerUp>>,
    powerUpStates: Option<map<PowerUpKind, PowerUpStatus>>,
    isTimeFrozen: Option<bool>,
    isGhostMode: Option<bool>)

  /** The empty patch `{}`. */
  const NoChange: Patch := Patch(None, None, None, None, None, None, None)

  // ---------------------------------------------------------------------------
  // The power-up piece and the random draws

  const PowerUpShape: Shape := [[true, true], [true, true]]

  /** A 2-by-2 piece in the power-up's colour, carrying the power-up, spawned at (4, 0). */
  function CreatePowerUpPiece(kind: PowerUpKind): (p: GamePiece)
    ensures p.powerUp == Some(Catalog(kind)) && p.color == Catalog(kind).color
    ensures p.position == Position(4, 0) && p.rotation == 0
    ensures IsSquare(p.shape) && |p.shape| == 2 && forall i, j :: 0 <= i < 2 && 0 <= j < 2 ==> p.shape[i][j]
  {
    GamePiece(PowerUpShape, Catalog(kind).color, Position(4, 0), 0, Some(Catalog(kind)))
  }

  lemma PowerUpShapeCells()
    ensures |Occupied(PowerUpShape)| == 4
  {
    OccupiedIs(PowerUpShape, {(0, 0), (0, 1), (1, 0), (1, 1)});
  }

  lemma PowerUpShapeRotation()
    ensures Rotated(PowerUpShape) == PowerUpShape
  {
    var s := PowerUpShape;
    forall r | 0 <= r < 2 ensures Rotated(s)[r] == s[r] {
      forall c | 0 <= c < 2 ensures Rotated(s)[r][c] == s[r][c] {
        RotatedAt(s, r, c);
      }
    }
  }

  /** A power-up piece occupies four cells and is unchanged by rotation. */
  lemma PowerUpPieceSquare(kind: PowerUpKind)
    ensures |Occupied(CreatePowerUpPiece(kind).shape)| == 4
    ensures Rotated(CreatePowerUpPiece(kind).shape) == CreatePowerUpPiece(kind).shape
  {
    PowerUpShapeCells();
    PowerUpShapeRotation();
  }

  /** A power-up piece always fits on an empty board of the default size at its spawn position. */
  lemma PowerUpPieceFits(kind: PowerUpKind)
    ensures !HasCollision(EmptyBoard(BoardHeight, BoardWidth), CreatePowerUpPiece(kind), false)
  {
    var b := EmptyBoard(BoardHeight, BoardWidth);
    assert b[0] == Empties(BoardWidth) && b[1] == Empties(BoardWidth);
  }

  /** The chance in basis points: 5% plus 1% per whole 1000 points. */
  function PowerUpChance(score: int): int {
    500 + 100 * (score / 1000)
  }

  /** `Math.random() < 0.05 + floor(score / 1000) * 0.01`, with the draw in basis points. */
  predicate ShouldGeneratePowerUp(score: int, draw: Draw) {
    draw < PowerUpChance(score)
  }

  /** A higher score never lowers the chance: a draw that succeeds still succeeds. */
  lemma PowerUpChanceGrows(s1: int, s2: int, draw: Draw)
    requires s1 <= s2
    ensures PowerUpChance(s1) <= PowerUpChance(s2)
    ensures ShouldGeneratePowerUp(s1, draw) ==> ShouldGeneratePowerUp(s2, draw)
  {
    assert s1 / 1000 <= s2 / 1000;
  }

  /** Below 1000 points the chance is 5%; from 95000 points on, every draw succeeds. */
  lemma PowerUpChanceBounds(score: int, draw: Draw)
    ensures 0 <= score < 1000 ==> (ShouldGeneratePowerUp(score, draw) <==> draw < 500)
    ensures score >= 95000 ==> ShouldGeneratePowerUp(score, draw)
  {
    if score >= 95000 {
      assert score / 1000 >= 95;
    }
  }

  /** The kind that the draw `floor(random * 5)` selects: the one whose fifth of [0, 1) holds the draw. */
  function GetRandomPowerUpType(draw: Draw): (k: PowerUpKind)
    ensures draw * |AllKinds| / RandomScale < |AllKinds|
    ensures exists n :: 0 <= n < |AllKinds| && n * 2000 <= draw < (n + 1) * 2000 && k == AllKinds[n]
  {
    assert draw * |AllKinds| / RandomScale == draw / 2000;
    AllKinds[draw * |AllKinds| / RandomScale]
  }

  /** Each kind is drawn by the draws of its fifth of [0, 1). */
  lemma RandomPowerUpCoversKinds(k: nat, draw: Draw)
    requires k < |AllKinds|
    requires k * 2000 <= draw < (k + 1) * 2000
    ensures GetRandomPowerUpType(draw) == AllKinds[k]
  {
    assert draw * |AllKinds| / RandomScale == draw / 2000;
  }

  // ---------------------------------------------------------------------------
  // Colour bomb

  /** Every row of `b` with all of its cells emptied. */
  function Cleared(b: Board): Board {
    seq(|b|, r requires 0 <= r < |b| => Empties(|b[r]|))
  }

  lemma {:induction false} ClearedIsEmpty(b: Board)
    ensures |Cleared(b)| == |b|
    ensures forall r :: 0 <= r < |b| ==> |Cleared(b)[r]| == |b[r]| && IsEmptyRow(Cleared(b)[r])
    ensures BoardCount(Cleared(b)) == 0
  {
    if b != [] {
      var n := |b|;
      ClearedIsEmpty(b[..n - 1]);
      assert Cleared(b)[..n - 1] == Cleared(b[..n - 1]);
      CountEmpties(|b[n - 1]|);
    }
  }

  /**
   * The colour bomb: nothing when there is no piece or its colour is empty (falsy);
   * otherwise every block leaves the board and each one is worth 100 points.
   */
  function ColorBombEffect(s: GameState): Patch {
    if s.currentPiece.None? || s.currentPiece.value.color == "" then NoChange
    else NoChange.(board := Some(Cleared(s.board)), score := Some(s.score + 100 * BoardCount(s.board)))
  }

  method HandleColorBomb(state: GameState) returns (patch: Patch)
    ensures patch == ColorBombEffect(state)
  {
    if state.currentPiece.None? || state.currentPiece.value.color == "" {
      return NoChange;
    }
    var b := state.board;
    var blocksCleared := 0;
    var newBoard: Board := [];
    for r := 0 to |b|
      invariant |newBoard| == r && forall k :: 0 <= k < r ==> newBoard[k] == Empties(|b[k]|)
      invariant blocksCleared == BoardCount(b[..r])
    {
      var row := b[r];
      var newRow: Row := [];
      for c := 0 to |row|
        invariant newRow == Empties(c)
        invariant blocksCleared == BoardCount(b[..r]) + Count(row[..c])
      {
        if row[c] != Empty {
          blocksCleared := blocksCleared + 1;
          newRow := newRow + [Empty];
        } else {
          newRow := newRow + [row[c]];
        }
        CountPrefixStep(row, c);
      }
      assert row[..|row|] == row;
      BoardCountStep(b, r);
      newBoard := newBoard + [newRow];
    }
    assert b[..|b|] == b;
    assert newBoard == Cleared(b);
    patch := NoChange.(board := Some(newBoard), score := Some(state.score + blocksCleared * 100));
  }

  /** After a colour bomb fires the board keeps its shape and holds no block. */
  lemma ColorBombEmptiesBoard(s: GameState)
    requires s.currentPiece.Some? && s.currentPiece.value.color != ""
    ensures var p := ColorBombEffect(s);
            && p.board.Some? && |p.board.value| == |s.board|
            && (forall r :: 0 <= r < |s.board| ==> |p.board.value[r]| == |s.board[r]|)
            && BoardCount(p.board.value) == 0
            && p.score == Some(s.score + 100 * (BoardCount(s.board) - BoardCount(p.board.value)))
  {
    ClearedIsEmpty(s.board);
  }

  // ---------------------------------------------------------------------------
  // Line blast

  /**
   * What the line blast needs of the piece's position: its row lies on the (well-formed)
   * board, so that `newBoard[y]` exists, and its column is not right of the board. The
   * column may lie left of it: a piece whose occupied cells sit right of its matrix's
   * first column can stand at a negative x.
   */
  predicate BlastAnchor(s: GameState) {
    s.currentPiece.Some? ==>
      var pos := s.currentPiece.value.position;
      WellFormed(s.board) && 0 <= pos.y < |s.board| && pos.x < |s.board[0]|
  }

  /** The board with row `y` emptied. */
  function RowGone(b: Board, y: nat): Board
    requires WellFormed(b) && y < |b|
  {
    b[y := Empties(|b[0]|)]
  }

  /** The board after the column loop: column x emptied; left of the board no cell changes. */
  function ColumnPass(b: Board, x: int): Board
    requires forall r :: 0 <= r < |b| ==> x < |b[r]|
  {
    if x < 0 then b else ClearColumn(b, x)
  }

  /**
   * What the column loop counts: the blocks of column x. Left of the board it counts
   * every row, since `newBoard[row][x]` is `undefined` there, and `undefined !== null`.
   */
  function ColumnPassCount(b: Board, x: int): nat
    requires forall r :: 0 <= r < |b| ==> x < |b[r]|
  {
    if x < 0 then |b| else Count(Column(b, x))
  }

  /** Row `y` and column `x` emptied. */
  function Blasted(b: Board, x: nat, y: nat): (r: Board)
    requires WellFormed(b) && y < |b| && x < |b[0]|
    ensures WellFormed(r) && |r| == |b| && |r[0]| == |b[0]|
  {
    seq(|b|, r requires 0 <= r < |b| => if r == y then Empties(|b[0]|) else b[r][x := Empty])
  }

  /** The blocks in row `y` plus those in column `x`, the crossing cell counted once. */
  function CrossCount(b: Board, x: nat, y: nat): int
    requires WellFormed(b) && y < |b| && x < |b[0]|
  {
    Count(b[y]) + Count(Column(b, x)) - Ind(b[y][x])
  }

  /**
   * The line blast: nothing without a piece; otherwise row y, then column x, are
   * emptied, the remaining blocks fall, and every cell the two passes count is worth
   * 50 points.
   */
  function LineBlastEffect(s: GameState): Patch
    requires BlastAnchor(s)
  {
    if s.currentPiece.None? then NoChange
    else
      var pos := s.currentPiece.value.position;
      var rowGone := RowGone(s.board, pos.y);
      NoChange.(board := Some(Gravity(ColumnPass(rowGone, pos.x))),
                score := Some(s.score + 50 * (Count(s.board[pos.y]) + ColumnPassCount(rowGone, pos.x))))
  }

  /** On the board, the row pass then the column pass empty exactly the cross and count its blocks. */
  lemma BlastIsCross(b: Board, x: nat, y: nat)
    requires WellFormed(b) && y < |b| && x < |b[0]|
    ensures ColumnPass(RowGone(b, y), x) == Blasted(b, x, y)
    ensures Count(b[y]) + ColumnPassCount(RowGone(b, y), x) == CrossCount(b, x, y)
  {
    assert Empties(|b[0]|)[x := Empty] == Empties(|b[0]|);
    assert Column(RowGone(b, y), x) == Column(b, x)[y := Empty];
    CountUpdate(Column(b, x), y, Empty);
  }

  /** The blast removes exactly the blocks of its row and its column. */
  lemma BlastRemovesCross(b: Board, x: nat, y: nat)
    requires WellFormed(b) && y < |b| && x < |b[0]|
    ensures BoardCount(Blasted(b, x, y)) + CrossCount(b, x, y) == BoardCount(b)
  {
    var rowGone := RowGone(b, y);
    BoardCountUpdate(b, y, Empties(|b[0]|));
    CountEmpties(|b[0]|);
    ClearColumnCount(rowGone, x);
    BlastIsCross(b, x, y);
  }

  /**
   * A line blast keeps the board's dimensions and leaves every column settled. With the
   * piece on the board it pays 50 points per block that left the board; with the piece
   * left of the board it pays 50 points more for every row.
   */
  lemma LineBlastPays(s: GameState)
    requires BlastAnchor(s) && s.currentPiece.Some?
    ensures var p := LineBlastEffect(s);
            var x := s.currentPiece.value.position.x;
            && p.board.Some? && |p.board.value| == |s.board| && Rect(p.board.value, |s.board[0]|)
            && (forall c :: 0 <= c < |s.board[0]| ==> Settle(Column(p.board.value, c)) == Column(p.board.value, c))
            && p.score == Some(s.score + 50 * (BoardCount(s.board) - BoardCount(p.board.value))
                                       + (if x < 0 then 50 * |s.board| else 0))
  {
    var pos := s.currentPiece.value.position;
    var rowGone := RowGone(s.board, pos.y);
    var passed := ColumnPass(rowGone, pos.x);
    BoardCountUpdate(s.board, pos.y, Empties(|s.board[0]|));
    CountEmpties(|s.board[0]|);
    if pos.x >= 0 {
      ClearColumnCount(rowGone, pos.x);
    }
    GravityKeepsCount(passed);
    GravitySettles(passed);
  }

  /** After gravity every column is settled. */
  lemma GravitySettles(b: Board)
    requires WellFormed(b)
    ensures forall c :: 0 <= c < |b[0]| ==> Settle(Column(Gravity(b), c)) == Column(Gravity(b), c)
  {
    GravityColumns(b);
    forall c | 0 <= c < |b[0]| ensures Settle(Column(Gravity(b), c)) == Column(Gravity(b), c) {
      SettleIdempotent(Column(b, c));
    }
  }

  /**
   * The line blast as evidently intended: the column pass counts only cells of the
   * board, so a piece left of the board clears and pays for its row alone.
   */
  function LineBlastIntended(s: GameState): Patch
    requires BlastAnchor(s)
  {
    if s.currentPiece.None? then NoChange
    else
      var pos := s.currentPiece.value.position;
      var rowGone := RowGone(s.board, pos.y);
      var columnBlocks := if pos.x < 0 then 0 else Count(Column(rowGone, pos.x));
      NoChange.(board := Some(Gravity(ColumnPass(rowGone, pos.x))),
                score := Some(s.score + 50 * (Count(s.board[pos.y]) + columnBlocks)))
  }

  /**
   * The intended line blast leaves the same board and pays exactly 50 points per block
   * that left it, wherever the piece stands; on the board it is the blast as written.
   */
  lemma LineBlastIntendedPaysPerBlock(s: GameState)
    requires BlastAnchor(s) && s.currentPiece.Some?
    ensures var p := LineBlastIntended(s);
            && p.board.Some? && p.board == LineBlastEffect(s).board
            && p.score == Some(s.score + 50 * (BoardCount(s.board) - BoardCount(p.board.value)))
    ensures s.currentPiece.value.position.x >= 0 ==> LineBlastIntended(s) == LineBlastEffect(s)
  {
    LineBlastPays(s);
  }

  /**
   * On an empty 20-by-10 board, a piece standing left of the board (a vertical I piece
   * against the left wall stands at x = -2) removes no block, yet the blast as written
   * pays 1000 points; the intended blast pays nothing.
   */
  lemma LineBlastOffBoardOverpays(s: GameState)
    requires s.board == EmptyBoard(BoardHeight, BoardWidth) && s.currentPiece.Some?
    requires s.currentPiece.value.position.x < 0 && 0 <= s.currentPiece.value.position.y < BoardHeight
    ensures BlastAnchor(s)
    ensures BoardCount(s.board) == 0 && BoardCount(LineBlastEffect(s).board.value) == 0
    ensures LineBlastEffect(s).score == Some(s.score + 1000)
    ensures LineBlastIntended(s).score == Some(s.score)
  {
    var b := s.board;
    assert b[0] == Empties(BoardWidth);
    ClearedIsEmpty(b);
    assert Cleared(b) == b;
    LineBlastPays(s);
    LineBlastIntendedPaysPerBlock(s);
  }

  /**
   * The column `now` halfway through the `writePos` pass over the original column `C`:
   * rows up to `row` untouched, the blocks seen so far (`bu`, bottom first) stacked
   * below `writePos`, and empty cells in between.
   */
  ghost predicate FallInvariant(C: seq<Cell>, row: int, writePos: int, bu: seq<Cell>, now: seq<Cell>) {
    && |now| == |C| && -1 <= row <= writePos <= |C| - 1
    && bu == BottomUp(C[row + 1..]) && writePos == |C| - 1 - |bu|
    && forall r :: 0 <= r < |C| ==>
         now[r] == if r <= row then C[r] else if r <= writePos then Empty else bu[|C| - 1 - r]
  }

  /** Passing over an empty cell keeps the invariant. */
  lemma FallPastEmpty(C: seq<Cell>, row: int, writePos: int, bu: seq<Cell>, now: seq<Cell>)
    requires FallInvariant(C, row, writePos, bu, now) && row >= 0 && C[row] == Empty
    ensures FallInvariant(C, row - 1, writePos, bu, now)
  {
    assert C[row..][1..] == C[row + 1..];
  }

  /** Moving a block down to `writePos` (when it is not already there) keeps the invariant. */
  lemma FallBlock(C: seq<Cell>, row: int, writePos: int, bu: seq<Cell>, now: seq<Cell>)
    requires FallInvariant(C, row, writePos, bu, now) && row >= 0 && C[row] != Empty
    ensures writePos >= 0
    ensures FallInvariant(C, row - 1, writePos - 1, bu + [C[row]],
                          if writePos != row then now[writePos := now[row]][row := Empty] else now)
  {
    assert C[row..][1..] == C[row + 1..];
    BottomUpFacts(C[row + 1..]);
    CountBound(C[row + 1..]);
  }

  /** At the end of the pass the column is settled. */
  lemma FallDone(C: seq<Cell>, writePos: int, bu: seq<Cell>, now: seq<Cell>)
    requires FallInvariant(C, -1, writePos, bu, now)
    ensures now == Settle(C)
  {
    assert C[0..] == C;
    forall r | 0 <= r < |C| ensures now[r] == Settle(C)[r] {
      SettleAt(C, |C| - 1 - r);
    }
  }

  /** One move of the pass: the cell at `row` goes down to `writePos` and `row` is emptied. */
  method SinkCell(g': Board, col: nat, row: nat, writePos: nat, ghost g: Board, ghost now: seq<Cell>)
    returns (g'': Board)
    requires |now| == |g| && forall k :: 0 <= k < |g| ==> col < |g[k]|
    requires row < |g| && writePos < |g| && g' == SetColumn(g, col, now)
    ensures g'' == SetColumn(g, col, now[writePos := now[row]][row := Empty])
  {
    SetColumnUpdate(g, col, now, writePos, now[row]);
    g'' := g'[writePos := g'[writePos][col := g'[row][col]]];
    SetColumnUpdate(g, col, now[writePos := now[row]], row, Empty);
    g'' := g''[row := g''[row][col := Empty]];
  }

  /** The `writePos` pass over one column: its blocks sink to the bottom, order kept. */
  method FallColumn(g: Board, col: nat, w: nat) returns (g': Board)
    requires Rect(g, w) && col < w
    ensures g' == SetColumn(g, col, Settle(Column(g, col)))
  {
    g' := g;
    ghost var C := Column(g, col);
    var h := |g|;
    var writePos := h - 1;
    var row := h - 1;
    ghost var bu: seq<Cell> := [];
    ghost var now := C;
    SetColumnSame(g, col);
    assert C[h..] == [];
    while row >= 0
      invariant FallInvariant(C, row, writePos, bu, now)
      invariant g' == SetColumn(g, col, now)
      decreases row + 1
    {
      if g'[row][col] != Empty {
        FallBlock(C, row, writePos, bu, now);
        if writePos != row {
          g' := SinkCell(g', col, row, writePos, g, now);
          now := now[writePos := now[row]][row := Empty];
        }
        writePos := writePos - 1;
        bu := bu + [C[row]];
      } else {
        FallPastEmpty(C, row, writePos, bu, now);
      }
      row := row - 1;
    }
    FallDone(C, writePos, bu, now);
  }

  /** Gravity over the whole board, one column at a time from the left. */
  method FallBlocks(b: Board) returns (g: Board)
    requires WellFormed(b)
    ensures g == Gravity(b)
  {
    g := b;
    var h, w := |b|, |b[0]|;
    for col := 0 to w
      invariant |g| == h && Rect(g, w)
      invariant forall r, c :: 0 <= r < h && 0 <= c < w ==>
                  g[r][c] == if c < col then Settle(Column(b, c))[r] else b[r][c]
    {
      assert Column(g, col) == Column(b, col);
      g := FallColumn(g, col, w);
    }
    forall r | 0 <= r < h ensures g[r] == Gravity(b)[r] {
    }
  }

  /**
   * The column loop of the line blast: every row whose `newBoard[row][x]` is not `null`
   * is counted and, on the board, emptied. Left of the board the read gives `undefined`
   * and the write sets a property outside the row's cells.
   */
  method EmptyColumn(g: Board, x: int) returns (g': Board, removed: nat)
    requires forall r :: 0 <= r < |g| ==> x < |g[r]|
    ensures g' == ColumnPass(g, x) && removed == ColumnPassCount(g, x)
  {
    g' := g;
    removed := 0;
    for row := 0 to |g|
      invariant |g'| == |g|
      invariant forall r :: 0 <= r < |g| ==> g'[r] == if r < row && x >= 0 then g[r][x := Empty] else g[r]
      invariant removed == if x < 0 then row else Count(Column(g, x)[..row])
    {
      if x < 0 || g'[row][x] != Empty {
        removed := removed + 1;
        if x >= 0 {
          g' := g'[row := g'[row][x := Empty]];
        }
      } else {
        assert g[row][x := Empty] == g[row];
      }
      if x >= 0 {
        CountPrefixStep(Column(g, x), row);
      }
    }
    if x >= 0 {
      assert Column(g, x)[..|g|] == Column(g, x);
    }
  }

  /** The first two steps of the line blast: empty row `y`, then column `x`, counting what they clear. */
  method BlastCross(b: Board, x: int, y: nat) returns (newBoard: Board, blocksCleared: int)
    requires WellFormed(b) && y < |b| && x < |b[0]|
    ensures newBoard == ColumnPass(RowGone(b, y), x)
    ensures blocksCleared == Count(b[y]) + ColumnPassCount(RowGone(b, y), x)
  {
    var w := |b[0]|;
    blocksCleared := Count(b[y]);
    var rowGone := b[y := Empties(w)];
    var removed;
    newBoard, removed := EmptyColumn(rowGone, x);
    blocksCleared := blocksCleared + removed;
  }

  method HandleLineBlast(state: GameState) returns (patch: Patch)
    requires BlastAnchor(state)
    ensures patch == LineBlastEffect(state)
  {
    if state.currentPiece.None? {
      return NoChange;
    }
    var y := state.currentPiece.value.position.y;
    var x := state.currentPiece.value.position.x;
    var newBoard, blocksCleared := BlastCross(state.board, x, y);
    newBoard := FallBlocks(newBoard);
    patch := NoChange.(board := Some(newBoard), score := Some(state.score + blocksCleared * 50));
  }

  // ---------------------------------------------------------------------------
  // Shuffle

  /**
   * `g` is `b` with column c moved to column perm[c] and its blocks stacked from the
   * bottom in their original bottom-to-top order.
   */
  predicate IsShuffleOf(b: Board, perm: seq<int>, g: Board)
    requires WellFormed(b) && IsPermutation(perm, |b[0]|)
  {
    && |g| == |b| && Rect(g, |b[0]|)
    && forall c :: 0 <= c < |b[0]| ==> Column(g, perm[c]) == Settle(Column(b, c))
  }

  /** `column.forEach` of the shuffle: the listed blocks written upwards from the bottom row. */
  method StackColumn(g: Board, w: nat, newX: nat, column: seq<Cell>) returns (g': Board)
    requires Rect(g, w) && newX < w && |column| <= |g|
    ensures g' == SetColumn(g, newX, seq(|g|, r requires 0 <= r < |g| =>
                 if r >= |g| - |column| then column[|g| - 1 - r] else g[r][newX]))
  {
    var h := |g|;
    g' := g;
    ghost var now := Column(g, newX);
    SetColumnSame(g, newX);
    var bottomY := h - 1;
    for k := 0 to |column|
      invariant bottomY == h - 1 - k
      invariant |now| == h && g' == SetColumn(g, newX, now)
      invariant forall r :: 0 <= r < h ==> now[r] == if r > bottomY then column[h - 1 - r] else g[r][newX]
    {
      SetColumnUpdate(g, newX, now, bottomY, column[k]);
      g' := g'[bottomY := g'[bottomY][newX := column[k]]];
      now := now[bottomY := column[k]];
      bottomY := bottomY - 1;
    }
    assert now == seq(h, r requires 0 <= r < h => if r >= h - |column| then column[h - 1 - r] else g[r][newX]);
  }

  /** Stacking a column's blocks from the bottom of an empty column settles that column. */
  lemma StackedIsSettled(g: Board, w: nat, newX: nat, C: seq<Cell>)
    requires Rect(g, w) && newX < w && |C| == |g| && Column(g, newX) == Empties(|g|)
    ensures |BottomUp(C)| <= |g|
    ensures seq(|g|, r requires 0 <= r < |g| =>
              if r >= |g| - |BottomUp(C)| then BottomUp(C)[|g| - 1 - r] else g[r][newX]) == Settle(C)
  {
    var h := |g|;
    var column := BottomUp(C);
    BottomUpFacts(C);
    CountBound(C);
    var placed := seq(h, r requires 0 <= r < h =>
      if r >= h - |column| then column[h - 1 - r] else g[r][newX]);
    forall r | 0 <= r < h ensures placed[r] == Settle(C)[r] {
      SettleAt(C, h - 1 - r);
      assert g[r][newX] == Column(g, newX)[r];
    }
  }

  /** The blocks of column `x`, from the bottom row upwards. */
  method CollectColumn(b: Board, x: nat) returns (column: seq<Cell>)
    requires forall r :: 0 <= r < |b| ==> x < |b[r]|
    ensures column == BottomUp(Column(b, x))
  {
    ghost var C := Column(b, x);
    column := [];
    var y := |b| - 1;
    while y >= 0
      invariant -1 <= y < |b|
      invariant column == BottomUp(C[y + 1..])
      decreases y + 1
    {
      assert C[y..][1..] == C[y + 1..];
      if b[y][x] != Empty {
        column := column + [b[y][x]];
      }
      y := y - 1;
    }
    assert C[0..] == C;
  }

  /** The blocks of every column, bottom first, listed column by column. */
  method CollectColumns(b: Board) returns (cellsByColumn: seq<seq<Cell>>)
    requires WellFormed(b)
    ensures |cellsByColumn| == |b[0]|
    ensures forall c :: 0 <= c < |b[0]| ==> cellsByColumn[c] == BottomUp(Column(b, c))
  {
    cellsByColumn := [];
    for x := 0 to |b[0]|
      invariant |cellsByColumn| == x
      invariant forall c :: 0 <= c < x ==> cellsByColumn[c] == BottomUp(Column(b, c))
    {
      var column := CollectColumn(b, x);
      cellsByColumn := cellsByColumn + [column];
    }
  }

  /**
   * The shuffle: every column's blocks move, in order, to the column the permutation
   * names, stacked from the bottom; the score rises by 100 whether or not a piece exists.
   */
  method HandleShuffle(state: GameState, perm: seq<int>) returns (patch: Patch)
    requires WellFormed(state.board) && IsPermutation(perm, |state.board[0]|)
    ensures patch.board.Some? && IsShuffleOf(state.board, perm, patch.board.value)
    ensures patch == NoChange.(board := patch.board, score := Some(state.score + 100))
  {
    var b := state.board;
    var h, w := |b|, |b[0]|;
    var cellsByColumn := CollectColumns(b);
    var newBoard := EmptyBoard(h, w);
    for originalX := 0 to w
      invariant |newBoard| == h && Rect(newBoard, w)
      invariant forall c :: 0 <= c < originalX ==> Column(newBoard, perm[c]) == Settle(Column(b, c))
      invariant forall nc :: 0 <= nc < w && nc !in perm[..originalX] ==> Column(newBoard, nc) == Empties(h)
    {
      var newX := perm[originalX];
      var column := cellsByColumn[originalX];
      ghost var C := Column(b, originalX);
      BottomUpFacts(C);
      CountBound(C);
      assert newX !in perm[..originalX];
      ghost var before := newBoard;
      newBoard := StackColumn(newBoard, w, newX, column);
      StackedIsSettled(before, w, newX, C);
      SetColumnColumns(before, w, newX, Settle(C));
      assert perm[..originalX + 1] == perm[..originalX] + [newX];
    }
    patch := NoChange.(board := Some(newBoard), score := Some(state.score + 100));
  }

  /**
   * A shuffle keeps the number of blocks and each column's bottom-to-top order, and
   * leaves every column settled.
   */
  lemma ShuffleKeepsBlocks(b: Board, perm: seq<int>, g: Board)
    requires WellFormed(b) && IsPermutation(perm, |b[0]|) && IsShuffleOf(b, perm, g)
    ensures BoardCount(g) == BoardCount(b)
    ensures forall c :: 0 <= c < |b[0]| ==> BottomUp(Column(g, perm[c])) == BottomUp(Column(b, c))
    ensures forall nc :: 0 <= nc < |b[0]| ==> Settle(Column(g, nc)) == Column(g, nc)
  {
    var w := |b[0]|;
    var t, u := ColumnCounts(b, w), ColumnCounts(g, w);
    forall c | 0 <= c < w ensures u[perm[c]] == t[c] && BottomUp(Column(g, perm[c])) == BottomUp(Column(b, c)) {
      SettleIsBottomRun(Column(b, c));
      SettleKeepsOrder(Column(b, c));
    }
    SumPermuted(t, u, perm);
    BoardCountByColumns(b, w);
    BoardCountByColumns(g, w);
    forall nc | 0 <= nc < w ensures Settle(Column(g, nc)) == Column(g, nc) {
      assert nc in perm;
      var c :| 0 <= c < w && perm[c] == nc;
      SettleIdempotent(Column(b, c));
    }
  }

  // ---------------------------------------------------------------------------
  // Timed power-ups

  /** When a power-up activated at `now` stops: `duration` seconds later, or at once. */
  function EndTime(p: PowerUp, now: int): int {
    if p.duration > 0 then now + p.duration * 1000 else now
  }

  /** Some entry is of kind `k` (`some(powerUp => powerUp.type === k)`). */
  predicate HasKind(entries: seq<ActivePowerUp>, k: PowerUpKind) {
    exists i :: 0 <= i < |entries| && entries[i].powerUp.kind == k
  }

  /** The entries the refresh keeps, in order: those still running at `now`. */
  function Survivors(entries: seq<ActivePowerUp>, now: int): (kept: seq<ActivePowerUp>)
    ensures forall e :: e in kept <==> e in entries && e.endTime > now
    ensures |kept| <= |entries|
  {
    if entries == [] then []
    else (if entries[0].endTime > now then [entries[0]] else []) + Survivors(entries[1..], now)
  }

  /** The filter as the refresh writes it: an expired GhostBlock entry is kept as well. */
  function SurvivorsAsWritten(entries: seq<ActivePowerUp>, now: int): (kept: seq<ActivePowerUp>)
    ensures forall e :: e in kept <==> e in entries && (e.endTime > now || e.powerUp.kind == GhostBlock)
  {
    if entries == [] then []
    else
      var e := entries[0];
      (if e.endTime > now || e.powerUp.kind == GhostBlock then [e] else []) + SurvivorsAsWritten(entries[1..], now)
  }

  /**
   * A ghost-block power-up that ended at 15000 ms is still kept, and ghost mode still
   * reported, by the filter as written at 20000 ms; the corrected filter drops it.
   */
  lemma ExpiredGhostStaysAsWritten()
    ensures var e := ActivePowerUp(Catalog(GhostBlock), 0, 15000);
            && SurvivorsAsWritten([e], 20000) == [e]
            && HasKind(SurvivorsAsWritten([e], 20000), GhostBlock)
            && Survivors([e], 20000) == []
  {
    var e := ActivePowerUp(Catalog(GhostBlock), 0, 15000);
    assert [e][1..] == [];
    assert SurvivorsAsWritten([e], 20000)[0] == e;
  }

  /** Refreshing at a later time after an earlier one is the same as refreshing only later. */
  lemma {:induction false} SurvivorsLater(entries: seq<ActivePowerUp>, t1: int, t2: int)
    requires t1 <= t2
    ensures Survivors(Survivors(entries, t1), t2) == Survivors(entries, t2)
  {
    if entries != [] {
      SurvivorsLater(entries[1..], t1, t2);
      var head := if entries[0].endTime > t1 then [entries[0]] else [];
      var rest := Survivors(entries[1..], t1);
      assert Survivors(entries, t1) == head + rest;
      if head == [] {
        assert head + rest == rest;
      } else {
        assert (head + rest)[1..] == rest;
      }
    }
  }

  /**
   * Once every entry has ended, the corrected filter keeps nothing, so no kind is in
   * effect; the filter as written still reports ghost mode whenever a GhostBlock entry
   * was active, and no other kind.
   */
  lemma {:induction false} SurvivorsAllExpired(entries: seq<ActivePowerUp>, now: int)
    requires forall i :: 0 <= i < |entries| ==> entries[i].endTime <= now
    ensures Survivors(entries, now) == []
    ensures forall k :: !HasKind(Survivors(entries, now), k)
    ensures forall k :: HasKind(SurvivorsAsWritten(entries, now), k) <==> k == GhostBlock && HasKind(entries, GhostBlock)
  {
    if entries != [] {
      SurvivorsAllExpired(entries[1..], now);
    }
    forall k ensures HasKind(SurvivorsAsWritten(entries, now), k) <==> k == GhostBlock && HasKind(entries, GhostBlock) {
      ExpiredKindAsWritten(entries, now, k);
    }
  }

  /** Once every entry has ended, the filter as written keeps exactly the GhostBlock entries' kind. */
  lemma ExpiredKindAsWritten(entries: seq<ActivePowerUp>, now: int, k: PowerUpKind)
    requires forall i :: 0 <= i < |entries| ==> entries[i].endTime <= now
    ensures HasKind(SurvivorsAsWritten(entries, now), k) <==> k == GhostBlock && HasKind(entries, GhostBlock)
  {
    var kept := SurvivorsAsWritten(entries, now);
    {
      if HasKind(kept, k) {
        var i :| 0 <= i < |kept| && kept[i].powerUp.kind == k;
        assert kept[i] in kept;
        var j :| 0 <= j < |entries| && entries[j] == kept[i];
      }
      if k == GhostBlock && HasKind(entries, GhostBlock) {
        var j :| 0 <= j < |entries| && entries[j].powerUp.kind == GhostBlock;
        assert entries[j] in entries;
        var i :| 0 <= i < |kept| && kept[i] == entries[j];
      }
    }
  }

  /** Some GhostBlock entry has ended at `now`. */
  predicate GhostExpired(entries: seq<ActivePowerUp>, now: int) {
    exists i :: 0 <= i < |entries| && entries[i].powerUp.kind == GhostBlock && entries[i].endTime <= now
  }

  /** No entry after index i has the kind of entry i. */
  predicate IsLastOfKind(entries: seq<ActivePowerUp>, i: int)
    requires 0 <= i < |entries|
  {
    forall j :: i < j < |entries| ==> entries[j].powerUp.kind != entries[i].powerUp.kind
  }

  /**
   * `m` is `states` with, for every kind some kept entry has, the status of the last
   * such entry (active, with the time left in ms); other kinds keep their old status.
   */
  predicate StatusesRefreshed(states: map<PowerUpKind, PowerUpStatus>, kept: seq<ActivePowerUp>,
                              now: int, m: map<PowerUpKind, PowerUpStatus>)
  {
    && (forall k :: k in m <==> k in states || HasKind(kept, k))
    && (forall k :: k in states && !HasKind(kept, k) ==> m[k] == states[k])
    && (forall i :: 0 <= i < |kept| && IsLastOfKind(kept, i) ==>
          kept[i].powerUp.kind in m && m[kept[i].powerUp.kind] == PowerUpStatus(true, kept[i].endTime - now))
  }

  /** Appending an entry adds exactly its kind to the kinds present. */
  lemma HasKindAppend(pre: seq<ActivePowerUp>, e: ActivePowerUp, k: PowerUpKind)
    ensures HasKind(pre + [e], k) <==> HasKind(pre, k) || k == e.powerUp.kind
  {
    var post := pre + [e];
    if HasKind(post, k) && k != e.powerUp.kind {
      var j :| 0 <= j < |post| && post[j].powerUp.kind == k;
      assert pre[j] == post[j];
    }
    if HasKind(pre, k) {
      var j :| 0 <= j < |pre| && pre[j].powerUp.kind == k;
      assert post[j] == pre[j];
    }
    if k == e.powerUp.kind {
      assert post[|pre|] == e;
    }
  }

  /** An entry that is last of its kind before an append stays last unless the new entry shares its kind. */
  lemma IsLastOfKindAppend(pre: seq<ActivePowerUp>, e: ActivePowerUp, j: nat)
    requires j < |pre|
    ensures IsLastOfKind(pre + [e], j) <==> IsLastOfKind(pre, j) && pre[j].powerUp.kind != e.powerUp.kind
  {
    var post := pre + [e];
    assert post[|pre|] == e;
    if IsLastOfKind(pre, j) && pre[j].powerUp.kind != e.powerUp.kind {
      forall l | j < l < |post| ensures post[l].powerUp.kind != post[j].powerUp.kind {
        if l < |pre| {
          assert post[l] == pre[l];
        }
      }
    }
    if IsLastOfKind(post, j) {
      forall l | j < l < |pre| ensures pre[l].powerUp.kind != pre[j].powerUp.kind {
        assert post[l] == pre[l];
      }
    }
  }

  lemma RefreshStep(states: map<PowerUpKind, PowerUpStatus>, kept: seq<ActivePowerUp>, now: int,
                    m: map<PowerUpKind, PowerUpStatus>, i: nat)
    requires i < |kept| && StatusesRefreshed(states, kept[..i], now, m)
    ensures StatusesRefreshed(states, kept[..i + 1], now,
                              m[kept[i].powerUp.kind := PowerUpStatus(true, kept[i].endTime - now)])
  {
    var e := kept[i];
    var pre, post := kept[..i], kept[..i + 1];
    var m' := m[e.powerUp.kind := PowerUpStatus(true, e.endTime - now)];
    assert post == pre + [e];
    forall k ensures HasKind(post, k) <==> HasKind(pre, k) || k == e.powerUp.kind {
      HasKindAppend(pre, e, k);
    }
    forall j | 0 <= j < |post| && IsLastOfKind(post, j)
      ensures post[j].powerUp.kind in m' && m'[post[j].powerUp.kind] == PowerUpStatus(true, post[j].endTime - now)
    {
      if j < i {
        IsLastOfKindAppend(pre, e, j);
        assert post[j] == pre[j];
      }
    }
  }

  /** The status loop: each kept entry, in order, sets its kind's status to active with the time left. */
  method RefreshStatuses(states: map<PowerUpKind, PowerUpStatus>, kept: seq<ActivePowerUp>, now: int)
    returns (powerUpStates: map<PowerUpKind, PowerUpStatus>)
    ensures StatusesRefreshed(states, kept, now, powerUpStates)
  {
    powerUpStates := states;
    for i := 0 to |kept|
      invariant StatusesRefreshed(states, kept[..i], now, powerUpStates)
    {
      RefreshStep(states, kept, now, powerUpStates, i);
      var p := kept[i];
      powerUpStates := powerUpStates[p.powerUp.kind := PowerUpStatus(true, p.endTime - now)];
    }
    assert kept[..|kept|] == kept;
  }

  /**
   * The refresh of timed power-ups as the code writes it: the filter keeps an ended
   * GhostBlock entry (its callback returns an object, which is truthy), so ghost mode
   * stays on, that entry's status shows a negative time left, and the current piece is
   * never touched.
   */
  method UpdatePowerUpsAsWritten(state: GameState, now: int) returns (patch: Patch)
    ensures patch.board == None && patch.score == None && patch.currentPiece == None
    ensures patch.activePowerUps == Some(SurvivorsAsWritten(state.activePowerUps, now))
    ensures patch.powerUpStates.Some?
    ensures StatusesRefreshed(state.powerUpStates, SurvivorsAsWritten(state.activePowerUps, now), now,
                              patch.powerUpStates.value)
    ensures patch.isTimeFrozen == Some(HasKind(SurvivorsAsWritten(state.activePowerUps, now), TimeFreeze))
    ensures patch.isGhostMode == Some(HasKind(SurvivorsAsWritten(state.activePowerUps, now), GhostBlock))
  {
    var activePowerUps := SurvivorsAsWritten(state.activePowerUps, now);
    var powerUpStates := RefreshStatuses(state.powerUpStates, activePowerUps, now);
    patch := NoChange.(
      activePowerUps := Some(activePowerUps),
      powerUpStates := Some(powerUpStates),
      isTimeFrozen := Some(HasKind(activePowerUps, TimeFreeze)),
      isGhostMode := Some(HasKind(activePowerUps, GhostBlock)));
  }

  /**
   * After the refresh as written, a ghost block that ended at 15000 ms shows, at
   * 20000 ms, an active status with 5000 ms less than nothing left.
   */
  lemma ExpiredGhostStatusNegative(states: map<PowerUpKind, PowerUpStatus>, m: map<PowerUpKind, PowerUpStatus>)
    requires var e := ActivePowerUp(Catalog(GhostBlock), 0, 15000);
             StatusesRefreshed(states, SurvivorsAsWritten([e], 20000), 20000, m)
    ensures GhostBlock in m && m[GhostBlock] == PowerUpStatus(true, -5000)
  {
    var e := ActivePowerUp(Catalog(GhostBlock), 0, 15000);
    ExpiredGhostStaysAsWritten();
    assert IsLastOfKind([e], 0);
  }

  /**
   * The refresh of timed power-ups, with the evidently intended filter: entries that
   * have ended are dropped (and an ended GhostBlock also takes the power-up off the
   * current piece); the time-freeze and ghost-mode flags say whether an entry of that
   * kind is left, and each kept entry's kind gets its status.
   */
  method UpdatePowerUps(state: GameState, now: int) returns (patch: Patch)
    ensures patch.board == None && patch.score == None
    ensures patch.activePowerUps == Some(Survivors(state.activePowerUps, now))
    ensures patch.powerUpStates.Some?
    ensures StatusesRefreshed(state.powerUpStates, Survivors(state.activePowerUps, now), now,
                              patch.powerUpStates.value)
    ensures patch.isTimeFrozen == Some(HasKind(Survivors(state.activePowerUps, now), TimeFreeze))
    ensures patch.isGhostMode == Some(HasKind(Survivors(state.activePowerUps, now), GhostBlock))
    ensures patch.currentPiece ==
              if !GhostExpired(state.activePowerUps, now) then None
              else if state.currentPiece.None? then Some(None)
              else Some(Some(state.currentPiece.value.(powerUp := None)))
  {
    var activePowerUps := Survivors(state.activePowerUps, now);
    var powerUpStates := RefreshStatuses(state.powerUpStates, activePowerUps, now);
    var piece: Option<Option<GamePiece>> := None;
    if GhostExpired(state.activePowerUps, now) {
      piece := Some(if state.currentPiece.Some? then Some(state.currentPiece.value.(powerUp := None)) else None);
    }
    patch := NoChange.(
      currentPiece := piece,
      activePowerUps := Some(activePowerUps),
      powerUpStates := Some(powerUpStates),
      isTimeFrozen := Some(HasKind(activePowerUps, TimeFreeze)),
      isGhostMode := Some(HasKind(activePowerUps, GhostBlock)));
  }

  // ---------------------------------------------------------------------------
  // Activation

  /**
   * Activating a power-up: the three instantaneous kinds apply their effect; the timed
   * kinds are appended to the active list with their start and end times.
   */
  method ActivatePowerUp(state: GameState, powerUp: PowerUp, now: int, perm: seq<int>) returns (patch: Patch)
    requires powerUp.kind == LineBlast ==> BlastAnchor(state)
    requires powerUp.kind == Shuffle ==> WellFormed(state.board) && IsPermutation(perm, |state.board[0]|)
    ensures powerUp.kind == ColorBomb ==> patch == ColorBombEffect(state)
    ensures powerUp.kind == LineBlast ==> patch == LineBlastEffect(state)
    ensures powerUp.kind == Shuffle ==>
              && patch.board.Some? && IsShuffleOf(state.board, perm, patch.board.value)
              && patch == NoChange.(board := patch.board, score := Some(state.score + 100))
    ensures powerUp.kind == TimeFreeze || powerUp.kind == GhostBlock ==>
              patch == NoChange.(activePowerUps := Some(state.activePowerUps +
                                   [ActivePowerUp(powerUp, now, EndTime(powerUp, now))]))
  {
    var activePowerUp := ActivePowerUp(powerUp, now, EndTime(powerUp, now));
    match powerUp.kind
    case ColorBomb =>
      patch := HandleColorBomb(state);
    case LineBlast =>
      patch := HandleLineBlast(state);
    case Shuffle =>
      patch := HandleShuffle(state, perm);
    case _ =>
      patch := NoChange.(activePowerUps := Some(state.activePowerUps + [activePowerUp]));
  }

  /**
   * A time freeze runs for 10 s and a ghost block for 15 s: the entry activation appends
   * survives the corrected refresh exactly until then; the refresh as written drops a
   * time freeze then, but keeps a ghost block for ever.
   */
  lemma TimedPowerUpLifetime(kind: PowerUpKind, entries: seq<ActivePowerUp>, now: int, t: int)
    requires kind == TimeFreeze || kind == GhostBlock
    ensures var e := ActivePowerUp(Catalog(kind), now, EndTime(Catalog(kind), now));
            && e.endTime == now + (if kind == TimeFreeze then 10000 else 15000)
            && (e in Survivors(entries + [e], t) <==> t < e.endTime)
            && (e in SurvivorsAsWritten(entries + [e], t) <==> t < e.endTime || kind == GhostBlock)
  {
  }
}

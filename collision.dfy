/**
 * The board helpers the game reducer imports from lib/collision.ts. That file's body
 * is not part of this model: each helper here is a reference definition of the
 * documented behaviour (collision against edges and blocks, writing a piece into
 * the board, finding full rows, removing rows with empty padding on top, and top-out),
 * and the contracts state that behaviour.
 */
module Collision {
  import opened Wrappers
  import opened Grid
  import opened GameTypes
  import opened Pieces

  /** A piece cell at board cell (r, c) collides: outside the board, or on a block unless in ghost mode. */
  predicate Blocked(b: Board, r: int, c: int, ghostMode: bool) {
    !(0 <= r < |b| && 0 <= c < |b[r]|) || (!ghostMode && b[r][c].Filled?)
  }

  /** Some occupied cell of the piece, placed at its position, collides. */
  predicate HasCollision(b: Board, piece: GamePiece, ghostMode: bool) {
    exists i, j :: 0 <= i < |piece.shape| && 0 <= j < |piece.shape[i]| && piece.shape[i][j] &&
      Blocked(b, piece.position.y + i, piece.position.x + j, ghostMode)
  }

  /** Every occupied cell of a collision-free piece lies inside the board, on an empty cell. */
  lemma NoCollisionInside(b: Board, piece: GamePiece, i: int, j: int)
    requires !HasCollision(b, piece, false) && CellAt(piece.shape, i, j)
    ensures 0 <= piece.position.y + i < |b|
    ensures 0 <= piece.position.x + j < |b[piece.position.y + i]|
    ensures b[piece.position.y + i][piece.position.x + j] == Empty
  {
  }

  /** Ghost mode only ever removes collisions: a ghost collision is an ordinary one too. */
  lemma GhostCollisionIsBoundsOnly(b: Board, piece: GamePiece)
    ensures HasCollision(b, piece, true) ==> HasCollision(b, piece, false)
    ensures HasCollision(b, piece, true) <==>
              exists i, j :: 0 <= i < |piece.shape| && 0 <= j < |piece.shape[i]| && piece.shape[i][j] &&
                !(0 <= piece.position.y + i < |b| && 0 <= piece.position.x + j < |b[piece.position.y + i]|)
  {
  }

  /** The board cell (r, c) is covered by an occupied cell of the piece. */
  predicate Covers(piece: GamePiece, r: int, c: int) {
    CellAt(piece.shape, r - piece.position.y, c - piece.position.x)
  }

  /** The board with the piece's occupied cells written in its colour. */
  function MergePieceToBoard(b: Board, piece: GamePiece): (merged: Board)
    ensures |merged| == |b| && forall r :: 0 <= r < |b| ==> |merged[r]| == |b[r]|
    ensures forall r, c :: 0 <= r < |b| && 0 <= c < |b[r]| ==>
              merged[r][c] == if Covers(piece, r, c) then Filled(piece.color) else b[r][c]
  {
    seq(|b|, r requires 0 <= r < |b| =>
      seq(|b[r]|, c requires 0 <= c < |b[r]| =>
        if Covers(piece, r, c) then Filled(piece.color) else b[r][c]))
  }

  /**
   * Merging a piece that does not collide keeps every block already on the board,
   * and every one of the piece's occupied cells now holds its colour.
   */
  lemma MergeKeepsBlocks(b: Board, piece: GamePiece)
    requires !HasCollision(b, piece, false)
    ensures forall r, c :: 0 <= r < |b| && 0 <= c < |b[r]| && b[r][c].Filled? ==>
              MergePieceToBoard(b, piece)[r][c] == b[r][c]
    ensures forall i, j :: CellAt(piece.shape, i, j) ==>
              var r, c := piece.position.y + i, piece.position.x + j;
              0 <= r < |b| && 0 <= c < |b[r]| && MergePieceToBoard(b, piece)[r][c] == Filled(piece.color)
  {
    var merged := MergePieceToBoard(b, piece);
    forall r, c | 0 <= r < |b| && 0 <= c < |b[r]| && b[r][c].Filled?
      ensures merged[r][c] == b[r][c]
    {
      if Covers(piece, r, c) {
        NoCollisionInside(b, piece, r - piece.position.y, c - piece.position.x);
      }
    }
    forall i, j | CellAt(piece.shape, i, j)
      ensures var r, c := piece.position.y + i, piece.position.x + j;
              0 <= r < |b| && 0 <= c < |b[r]| && merged[r][c] == Filled(piece.color)
    {
      NoCollisionInside(b, piece, i, j);
    }
  }

  /** Indices from `i` on of the rows whose every cell holds a block, in ascending order. */
  function FullRowsFrom(b: Board, i: nat): (rows: seq<nat>)
    ensures forall k :: 0 <= k < |rows| ==> i <= rows[k] < |b| && IsFull(b[rows[k]])
    ensures forall r :: i <= r < |b| && IsFull(b[r]) ==> r in rows
    ensures forall k, l :: 0 <= k < l < |rows| ==> rows[k] < rows[l]
    decreases |b| - i
  {
    if i >= |b| then [] else (if IsFull(b[i]) then [i] else []) + FullRowsFrom(b, i + 1)
  }

  /** The indices of the full rows, in ascending order. */
  function FindFullRows(b: Board): (rows: seq<nat>)
    ensures forall r :: r in rows <==> 0 <= r < |b| && IsFull(b[r])
    ensures forall k, l :: 0 <= k < l < |rows| ==> rows[k] < rows[l]
  {
    FullRowsFrom(b, 0)
  }

  /** The rows from index `i` on whose index is not listed in `rows`, in order. */
  function KeptRows(b: Board, rows: seq<nat>, i: nat): (kept: Board)
    requires i <= |b|
    ensures |kept| <= |b| - i
    ensures forall k :: 0 <= k < |kept| ==> exists r :: i <= r < |b| && r !in rows && kept[k] == b[r]
    decreases |b| - i
  {
    if i == |b| then [] else (if i in rows then [] else [b[i]]) + KeptRows(b, rows, i + 1)
  }

  /** The indices from `i` up to `n` that are not listed in `rows`, in ascending order. */
  function KeptIndices(n: nat, rows: seq<nat>, i: nat): seq<nat>
    requires i <= n
    decreases n - i
  {
    if i == n then [] else (if i in rows then [] else [i]) + KeptIndices(n, rows, i + 1)
  }

  /** The kept indices lie in [i, n), ascend, and are exactly the unlisted ones. */
  lemma {:induction false} KeptIndicesAscend(n: nat, rows: seq<nat>, i: nat)
    requires i <= n
    ensures var idx := KeptIndices(n, rows, i);
            && (forall k :: 0 <= k < |idx| ==> i <= idx[k] < n)
            && (forall k, l :: 0 <= k < l < |idx| ==> idx[k] < idx[l])
            && (forall r :: r in idx <==> i <= r < n && r !in rows)
    decreases n - i
  {
    if i < n {
      KeptIndicesAscend(n, rows, i + 1);
      var rest := KeptIndices(n, rows, i + 1);
      if i !in rows {
        var idx := KeptIndices(n, rows, i);
        assert idx == [i] + rest;
        forall k | 0 < k < |idx| ensures idx[k] == rest[k - 1] {
        }
      }
    }
  }

  /** Each kept row is the board's row at the matching kept index. */
  lemma {:induction false} KeptRowsAt(b: Board, rows: seq<nat>, i: nat)
    requires i <= |b|
    ensures var idx, kept := KeptIndices(|b|, rows, i), KeptRows(b, rows, i);
            && |idx| == |kept|
            && (forall k :: 0 <= k < |idx| ==> 0 <= idx[k] < |b| && kept[k] == b[idx[k]])
    decreases |b| - i
  {
    if i < |b| {
      KeptRowsAt(b, rows, i + 1);
      if i !in rows {
        var rest, restRows := KeptIndices(|b|, rows, i + 1), KeptRows(b, rows, i + 1);
        var idx, kept := KeptIndices(|b|, rows, i), KeptRows(b, rows, i);
        assert idx == [i] + rest && kept == [b[i]] + restRows;
        forall k | 0 < k < |idx| ensures idx[k] == rest[k - 1] && kept[k] == restRows[k - 1] {
        }
      }
    }
  }

  /**
   * The kept rows are the rows at the unlisted indices, every one of them, each once,
   * in ascending order of index.
   */
  lemma KeptRowsInOrder(b: Board, rows: seq<nat>, i: nat)
    requires i <= |b|
    ensures var idx, kept := KeptIndices(|b|, rows, i), KeptRows(b, rows, i);
            && |idx| == |kept|
            && (forall k :: 0 <= k < |idx| ==> i <= idx[k] < |b| && kept[k] == b[idx[k]])
            && (forall k, l :: 0 <= k < l < |idx| ==> idx[k] < idx[l])
            && (forall r :: r in idx <==> i <= r < |b| && r !in rows)
  {
    KeptIndicesAscend(|b|, rows, i);
    KeptRowsAt(b, rows, i);
  }

  /** The listed rows removed, the others kept in order, and as many empty rows added on top. */
  function ClearRows(b: Board, rows: seq<nat>): (cleared: Board)
    ensures |cleared| == |b|
    ensures var pad := |b| - |KeptRows(b, rows, 0)|;
            && (forall k :: 0 <= k < pad ==> cleared[k] == Empties(Width(b)))
            && cleared[pad..] == KeptRows(b, rows, 0)
  {
    var kept := KeptRows(b, rows, 0);
    EmptyBoard(|b| - |kept|, Width(b)) + kept
  }

  /** Removing the full rows removes one row per full row found. */
  lemma {:induction false} KeptPlusFull(b: Board, i: nat)
    requires i <= |b|
    ensures |KeptRows(b, FindFullRows(b), i)| + |FullRowsFrom(b, i)| == |b| - i
    decreases |b| - i
  {
    if i < |b| {
      KeptPlusFull(b, i + 1);
    }
  }

  /** A board with no full row has no full-row indices. */
  lemma {:induction false} NoFullRows(b: Board, i: nat)
    requires forall r :: 0 <= r < |b| ==> !IsFull(b[r])
    ensures FullRowsFrom(b, i) == []
    decreases |b| - i
  {
    if i < |b| {
      NoFullRows(b, i + 1);
    }
  }

  /** A kept row is a row of the board that is not full. */
  lemma KeptRowNotFull(b: Board, k: int)
    requires 0 <= k < |KeptRows(b, FindFullRows(b), 0)|
    ensures !IsFull(KeptRows(b, FindFullRows(b), 0)[k])
    ensures exists r :: 0 <= r < |b| && KeptRows(b, FindFullRows(b), 0)[k] == b[r]
  {
  }

  /**
   * Clearing the full rows keeps the board's dimensions, pads exactly one empty row per
   * cleared row, and (on a board of positive width) leaves no row full.
   */
  lemma ClearFullRows(b: Board)
    requires Rect(b, Width(b))
    ensures var full := FindFullRows(b);
            var cleared := ClearRows(b, full);
            && |cleared| == |b| && Rect(cleared, Width(b))
            && |b| - |KeptRows(b, full, 0)| == |full|
            && (Width(b) > 0 ==> FindFullRows(cleared) == [])
  {
    var full := FindFullRows(b);
    var cleared := ClearRows(b, full);
    var kept := KeptRows(b, full, 0);
    var pad := |b| - |kept|;
    KeptPlusFull(b, 0);
    forall k | 0 <= k < |b| ensures |cleared[k]| == Width(b) && (Width(b) > 0 ==> !IsFull(cleared[k])) {
      if k < pad {
        assert cleared[k] == Empties(Width(b));
        if Width(b) > 0 {
          assert cleared[k][0] == Empty;
        }
      } else {
        assert cleared[k] == kept[k - pad];
        KeptRowNotFull(b, k - pad);
      }
    }
    if Width(b) > 0 {
      NoFullRows(cleared, 0);
    }
  }

  /** Top-out: a block sits in the top row, where pieces spawn. */
  predicate IsGameOver(state: GameState) {
    |state.board| > 0 && exists c :: 0 <= c < |state.board[0]| && state.board[0][c].Filled?
  }
}

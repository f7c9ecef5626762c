/**
 * The piece catalog (five shapes with their colours), spawning a piece, choosing one
 * at random, and the clockwise rotation of a shape matrix.
 */
module Pieces {
  import opened Wrappers
  import opened GameTypes

  datatype PieceType = I | O | T | L | J

  /** The catalog keys in declaration order, which is the order `Object.keys` lists them in. */
  const PieceTypes: seq<PieceType> := [I, O, T, L, J]

  function CatalogShape(t: PieceType): Shape {
    match t
    case I => [[false, false, false, false],
               [true, true, true, true],
               [false, false, false, false],
               [false, false, false, false]]
    case O => [[true, true],
               [true, true]]
    case T => [[false, true, false],
               [true, true, true],
               [false, false, false]]
    case L => [[false, false, true],
               [true, true, true],
               [false, false, false]]
    case J => [[true, false, false],
               [true, true, true],
               [false, false, false]]
  }

  function CatalogColor(t: PieceType): string {
    match t
    case I => "#00f0f0"
    case O => "#f0f000"
    case T => "#a000f0"
    case L => "#f0a000"
    case J => "#0000f0"
  }

  /** Cell (i, j) of a shape; a cell outside a (short) row reads as unoccupied. */
  predicate CellAt(s: Shape, i: int, j: int) {
    0 <= i < |s| && 0 <= j < |s[i]| && s[i][j]
  }

  predicate IsSquare(s: Shape) {
    forall i :: 0 <= i < |s| ==> |s[i]| == |s|
  }

  /** The shape occupies at least one cell. */
  predicate HasBlock(s: Shape) {
    exists i, j :: 0 <= i < |s| && 0 <= j < |s[i]| && s[i][j]
  }

  /** The occupied cells of a shape, as (row, column) pairs. */
  ghost function Occupied(s: Shape): set<(int, int)> {
    set i, j | 0 <= i < |s| && 0 <= j < |s[i]| && s[i][j] :: (i, j)
  }

  /** A fresh piece of catalog type `t`: its shape and colour, rotation 0, spawned on row 0. */
  function CreatePiece(t: PieceType): (p: GamePiece)
    ensures p.shape == CatalogShape(t) && p.color == CatalogColor(t)
    ensures p.rotation == 0 && p.powerUp == None
    ensures p.position.y == 0
    ensures p.position.x == BoardWidth / 2 - |CatalogShape(t)[0]| / 2
    ensures p.position.x == if t == I then 3 else 4
  {
    var shape := CatalogShape(t);
    GamePiece(shape, CatalogColor(t), Position(BoardWidth / 2 - |shape[0]| / 2, 0), 0, None)
  }

  /**
   * The catalog piece that the draw `floor(random * 5)` selects: a fresh piece of the
   * type whose fifth of [0, 1) holds the draw.
   */
  function GetRandomPiece(draw: Draw): (p: GamePiece)
    ensures draw * |PieceTypes| / RandomScale < |PieceTypes|
    ensures exists k :: 0 <= k < |PieceTypes| && k * 2000 <= draw < (k + 1) * 2000 && p == CreatePiece(PieceTypes[k])
  {
    assert draw * |PieceTypes| / RandomScale == draw / 2000;
    CreatePiece(PieceTypes[draw * |PieceTypes| / RandomScale])
  }

  /** Every catalog type is drawn, by the draws of its fifth of [0, 1). */
  lemma RandomPieceCoversCatalog(k: nat, draw: Draw)
    requires k < |PieceTypes|
    requires k * (RandomScale / |PieceTypes|) <= draw < (k + 1) * (RandomScale / |PieceTypes|)
    ensures GetRandomPiece(draw) == CreatePiece(PieceTypes[k])
  {
    assert draw * |PieceTypes| / RandomScale == draw / 2000;
  }

  /** The occupied cells of a square shape are exactly `cells`, when rows say so one by one. */
  lemma OccupiedIs(s: Shape, cells: set<(int, int)>)
    requires IsSquare(s)
    requires forall p :: p in cells ==> 0 <= p.0 < |s| && 0 <= p.1 < |s| && s[p.0][p.1]
    requires forall i, j :: 0 <= i < |s| && 0 <= j < |s| && s[i][j] ==> (i, j) in cells
    ensures Occupied(s) == cells
  {
  }

  /** The cells a catalog shape occupies, row by row. */
  function CatalogCells(t: PieceType): set<(int, int)> {
    match t
    case I => {(1, 0), (1, 1), (1, 2), (1, 3)}
    case O => {(0, 0), (0, 1), (1, 0), (1, 1)}
    case T => {(0, 1), (1, 0), (1, 1), (1, 2)}
    case L => {(0, 2), (1, 0), (1, 1), (1, 2)}
    case J => {(0, 0), (1, 0), (1, 1), (1, 2)}
  }

  lemma CatalogOccupied(t: PieceType)
    ensures IsSquare(CatalogShape(t))
    ensures Occupied(CatalogShape(t)) == CatalogCells(t)
  {
    var s := CatalogShape(t);
    forall i, j | 0 <= i < |s| && 0 <= j < |s| && s[i][j] ensures (i, j) in CatalogCells(t) {
      if i == 0 {
      } else if i == 1 {
      } else if i == 2 {
      } else {
      }
    }
    OccupiedIs(s, CatalogCells(t));
  }

  /** Every catalog shape is square and occupies exactly four cells. */
  lemma CatalogShapesHaveFourCells(t: PieceType)
    ensures IsSquare(CatalogShape(t))
    ensures |Occupied(CatalogShape(t))| == 4
  {
    CatalogOccupied(t);
  }

  // ---------------------------------------------------------------------------
  // Rotation

  /** The clockwise rotation of an N-by-N matrix: cell (i, j) moves to (j, N-1-i). */
  function Rotated(s: Shape): (r: Shape)
    ensures |r| == |s| && IsSquare(r)
  {
    var n := |s|;
    seq(n, row requires 0 <= row < n =>
      seq(n, col requires 0 <= col < n => CellAt(s, n - 1 - col, row)))
  }

  lemma RotatedAt(s: Shape, row: int, col: int)
    requires 0 <= row < |s| && 0 <= col < |s|
    ensures Rotated(s)[row][col] == CellAt(s, |s| - 1 - col, row)
  {
  }

  /** `rotatePiece`: fills a fresh N-by-N matrix cell by cell. */
  method RotatePiece(piece: GamePiece) returns (rotated: Shape)
    ensures rotated == Rotated(piece.shape)
    ensures |rotated| == |piece.shape| && IsSquare(rotated)
    ensures forall i, j :: 0 <= i < |rotated| && 0 <= j < |rotated| ==>
              rotated[j][|rotated| - 1 - i] == CellAt(piece.shape, i, j)
  {
    var matrix := piece.shape;
    var n := |matrix|;
    rotated := seq(n, _ => seq(n, _ => false));
    for i := 0 to n
      invariant |rotated| == n && forall r :: 0 <= r < n ==> |rotated[r]| == n
      invariant forall r, c :: 0 <= r < n && 0 <= c < n ==>
                  rotated[r][c] == (if n - 1 - c < i then CellAt(matrix, n - 1 - c, r) else false)
    {
      for j := 0 to n
        invariant |rotated| == n && forall r :: 0 <= r < n ==> |rotated[r]| == n
        invariant forall r, c :: 0 <= r < n && 0 <= c < n ==>
                    rotated[r][c] == (if n - 1 - c < i || (n - 1 - c == i && r < j)
                                      then CellAt(matrix, n - 1 - c, r) else false)
      {
        rotated := rotated[j := rotated[j][n - 1 - i := CellAt(matrix, i, j)]];
      }
    }
    forall r | 0 <= r < n ensures rotated[r] == Rotated(matrix)[r] {
      forall c | 0 <= c < n ensures rotated[r][c] == Rotated(matrix)[r][c] {
        RotatedAt(matrix, r, c);
      }
    }
  }

  /** Rotating twice turns the shape half way round. */
  lemma RotatedTwice(s: Shape)
    ensures forall i, j :: 0 <= i < |s| && 0 <= j < |s| ==>
              Rotated(Rotated(s))[i][j] == CellAt(s, |s| - 1 - i, |s| - 1 - j)
  {
    var n := |s|;
    forall i, j | 0 <= i < n && 0 <= j < n
      ensures Rotated(Rotated(s))[i][j] == CellAt(s, n - 1 - i, n - 1 - j)
    {
      RotatedAt(Rotated(s), i, j);
      RotatedAt(s, n - 1 - j, i);
    }
  }

  /** Rotating a square shape four times gives it back. */
  lemma RotateFourTimes(s: Shape)
    requires IsSquare(s)
    ensures Rotated(Rotated(Rotated(Rotated(s)))) == s
  {
    var n := |s|;
    RotatedTwice(s);
    var r2 := Rotated(Rotated(s));
    RotatedTwice(r2);
    var r4 := Rotated(Rotated(r2));
    forall i | 0 <= i < n ensures r4[i] == s[i] {
      forall j | 0 <= j < n ensures r4[i][j] == s[i][j] {
        assert r4[i][j] == CellAt(r2, n - 1 - i, n - 1 - j);
      }
    }
  }

  /** The image of a set of cells under the rotation map (i, j) -> (j, n-1-i). */
  ghost function RotateCells(cells: set<(int, int)>, n: int): set<(int, int)> {
    set p | p in cells :: (p.1, n - 1 - p.0)
  }

  /** A cell is in the rotated set exactly when the cell it came from is in the original. */
  lemma RotateCellsMember(cells: set<(int, int)>, n: int, q: (int, int))
    ensures q in RotateCells(cells, n) <==> (n - 1 - q.1, q.0) in cells
  {
    var origin := (n - 1 - q.1, q.0);
    if origin in cells {
      assert q == (origin.1, n - 1 - origin.0);
    }
  }

  lemma {:induction false} RotateCellsCard(cells: set<(int, int)>, n: int)
    ensures |RotateCells(cells, n)| == |cells|
  {
    if cells != {} {
      var p :| p in cells;
      var rest := cells - {p};
      var moved := (p.1, n - 1 - p.0);
      RotateCellsCard(rest, n);
      RotateCellsMember(rest, n, moved);
      forall q ensures q in RotateCells(cells, n) <==> q in RotateCells(rest, n) + {moved} {
        RotateCellsMember(cells, n, q);
        RotateCellsMember(rest, n, q);
      }
      assert RotateCells(cells, n) == RotateCells(rest, n) + {moved};
    }
  }

  /** Rotation of a square shape keeps the number of occupied cells. */
  lemma RotationKeepsCellCount(s: Shape)
    requires IsSquare(s)
    ensures |Occupied(Rotated(s))| == |Occupied(s)|
  {
    var n := |s|;
    var r := Rotated(s);
    forall q | q in Occupied(r) ensures q in RotateCells(Occupied(s), n) {
      var (row, col) := q;
      assert (n - 1 - col, row) in Occupied(s);
    }
    forall q | q in RotateCells(Occupied(s), n) ensures q in Occupied(r) {
      var p :| p in Occupied(s) && q == (p.1, n - 1 - p.0);
      RotatedAt(s, p.1, n - 1 - p.0);
    }
    assert Occupied(r) == RotateCells(Occupied(s), n);
    RotateCellsCard(Occupied(s), n);
  }

  /** A square shape that occupies a cell still occupies one after rotation. */
  lemma RotationKeepsBlock(s: Shape)
    requires IsSquare(s) && HasBlock(s)
    ensures HasBlock(Rotated(s))
  {
    var i, j :| 0 <= i < |s| && 0 <= j < |s[i]| && s[i][j];
    RotatedAt(s, j, |s| - 1 - i);
    assert Rotated(s)[j][|s| - 1 - i];
  }
}

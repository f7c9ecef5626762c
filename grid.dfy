/**
 * The playing field as the game stores it: a list of rows, row 0 at the top,
 * each cell empty (`null` in the game) or holding the colour string of a block.
 *
 * Counting blocks, reading a column, and settling a column under gravity are
 * defined here once; the collision helpers and the power-up effects use them.
 */
module Grid {

  datatype Cell = Empty | Filled(color: string)

  type Row = seq<Cell>
  type Board = seq<Row>

  /** Every row of `b` has exactly `width` cells. */
  predicate Rect(b: Board, width: nat) {
    forall r :: 0 <= r < |b| ==> |b[r]| == width
  }

  /** The width the game reads off the first row (`board[0].length`). */
  function Width(b: Board): nat {
    if |b| == 0 then 0 else |b[0]|
  }

  /** At least one row, and every row as wide as the first. */
  predicate WellFormed(b: Board) {
    |b| > 0 && Rect(b, |b[0]|)
  }

  function Empties(n: nat): Row {
    seq(n, _ => Empty)
  }

  /** A board of `height` empty rows of `width` cells each. */
  function EmptyBoard(height: nat, width: nat): Board {
    seq(height, _ => Empties(width))
  }

  /** True when every cell of the row holds a block. */
  predicate IsFull(row: Row) {
    forall c :: 0 <= c < |row| ==> row[c].Filled?
  }

  predicate IsEmptyRow(row: Row) {
    forall c :: 0 <= c < |row| ==> row[c] == Empty
  }

  // ---------------------------------------------------------------------------
  // Counting blocks

  function Ind(c: Cell): nat {
    if c.Filled? then 1 else 0
  }

  /** Number of blocks in a row or column. */
  function Count(s: seq<Cell>): nat {
    if s == [] then 0 else Count(s[..|s| - 1]) + Ind(s[|s| - 1])
  }

  /** Number of blocks on the whole board, summed row by row. */
  function BoardCount(b: Board): nat {
    if b == [] then 0 else BoardCount(b[..|b| - 1]) + Count(b[|b| - 1])
  }

  lemma {:induction false} CountAppend(a: seq<Cell>, b: seq<Cell>)
    ensures Count(a + b) == Count(a) + Count(b)
  {
    if b != [] {
      assert (a + b)[..|a + b| - 1] == a + b[..|b| - 1];
      CountAppend(a, b[..|b| - 1]);
    } else {
      assert a + b == a;
    }
  }

  lemma {:induction false} CountBound(s: seq<Cell>)
    ensures Count(s) <= |s|
  {
    if s != [] {
      CountBound(s[..|s| - 1]);
    }
  }

  lemma {:induction false} CountEmpties(n: nat)
    ensures Count(Empties(n)) == 0
  {
    if n > 0 {
      assert Empties(n)[..n - 1] == Empties(n - 1);
      CountEmpties(n - 1);
    }
  }

  /** A sequence made only of blocks has as many blocks as cells. */
  lemma {:induction false} CountAllFilled(s: seq<Cell>)
    requires forall i :: 0 <= i < |s| ==> s[i].Filled?
    ensures Count(s) == |s|
  {
    if s != [] {
      CountAllFilled(s[..|s| - 1]);
    }
  }

  lemma CountPrefixStep(s: seq<Cell>, i: nat)
    requires i < |s|
    ensures Count(s[..i + 1]) == Count(s[..i]) + Ind(s[i])
  {
    assert s[..i + 1][..i] == s[..i];
  }

  lemma CountCons(x: Cell, s: seq<Cell>)
    ensures Count([x] + s) == Ind(x) + Count(s)
  {
    CountAppend([x], s);
    assert [x][..0] == [];
  }

  /** Overwriting one cell changes the count by the difference of the two cells. */
  lemma CountUpdate(s: seq<Cell>, i: nat, v: Cell)
    requires i < |s|
    ensures Count(s[i := v]) + Ind(s[i]) == Count(s) + Ind(v)
  {
    assert s == s[..i] + [s[i]] + s[i + 1..];
    assert s[i := v] == s[..i] + [v] + s[i + 1..];
    CountAppend(s[..i] + [s[i]], s[i + 1..]);
    CountAppend(s[..i] + [v], s[i + 1..]);
    CountAppend(s[..i], [s[i]]);
    CountAppend(s[..i], [v]);
    assert [s[i]][..0] == [v][..0];
  }

  lemma BoardCountStep(b: Board, i: nat)
    requires i < |b|
    ensures BoardCount(b[..i + 1]) == BoardCount(b[..i]) + Count(b[i])
  {
    assert b[..i + 1][..i] == b[..i];
  }

  lemma {:induction false} BoardCountAppend(a: Board, b: Board)
    ensures BoardCount(a + b) == BoardCount(a) + BoardCount(b)
  {
    if b != [] {
      assert (a + b)[..|a + b| - 1] == a + b[..|b| - 1];
      BoardCountAppend(a, b[..|b| - 1]);
    } else {
      assert a + b == a;
    }
  }

  /** Replacing one row changes the board count by the difference of the two rows. */
  lemma BoardCountUpdate(b: Board, i: nat, row: Row)
    requires i < |b|
    ensures BoardCount(b[i := row]) + Count(b[i]) == BoardCount(b) + Count(row)
  {
    assert b == b[..i] + [b[i]] + b[i + 1..];
    assert b[i := row] == b[..i] + [row] + b[i + 1..];
    BoardCountAppend(b[..i] + [b[i]], b[i + 1..]);
    BoardCountAppend(b[..i] + [row], b[i + 1..]);
    BoardCountAppend(b[..i], [b[i]]);
    BoardCountAppend(b[..i], [row]);
    assert [b[i]][..0] == [row][..0];
  }

  // ---------------------------------------------------------------------------
  // Columns and settling

  /** Column `c`, read from the top row to the bottom row. */
  function Column(b: Board, c: nat): seq<Cell>
    requires forall r :: 0 <= r < |b| ==> c < |b[r]|
  {
    seq(|b|, r requires 0 <= r < |b| => b[r][c])
  }

  /** The blocks of a column listed from the bottom cell upwards. */
  function BottomUp(s: seq<Cell>): seq<Cell> {
    if s == [] then [] else BottomUp(s[1..]) + (if s[0].Filled? then [s[0]] else [])
  }

  /** BottomUp keeps exactly the blocks: one entry per block, and only blocks. */
  lemma {:induction false} BottomUpFacts(s: seq<Cell>)
    ensures |BottomUp(s)| == Count(s)
    ensures forall i :: 0 <= i < |BottomUp(s)| ==> BottomUp(s)[i].Filled?
  {
    if s != [] {
      BottomUpFacts(s[1..]);
      assert s == [s[0]] + s[1..];
      CountCons(s[0], s[1..]);
    }
  }

  lemma {:induction false} BottomUpAppend(a: seq<Cell>, b: seq<Cell>)
    ensures BottomUp(a + b) == BottomUp(b) + BottomUp(a)
  {
    if a == [] {
      assert a + b == b;
    } else {
      assert (a + b)[1..] == a[1..] + b;
      BottomUpAppend(a[1..], b);
    }
  }

  lemma {:induction false} BottomUpEmpties(n: nat)
    ensures BottomUp(Empties(n)) == []
  {
    if n > 0 {
      assert Empties(n)[1..] == Empties(n - 1);
      BottomUpEmpties(n - 1);
    }
  }

  function Reversed(s: seq<Cell>): seq<Cell> {
    seq(|s|, k requires 0 <= k < |s| => s[|s| - 1 - k])
  }

  lemma {:induction false} BottomUpReversed(s: seq<Cell>)
    requires forall i :: 0 <= i < |s| ==> s[i].Filled?
    ensures BottomUp(Reversed(s)) == s
  {
    if s != [] {
      var n := |s|;
      assert Reversed(s)[1..] == Reversed(s[..n - 1]);
      BottomUpReversed(s[..n - 1]);
      assert s == s[..n - 1] + [s[n - 1]];
    }
  }

  /**
   * A column after gravity: its blocks, in their original order, stacked as one
   * run that ends at the bottom cell; every cell above the run is empty.
   */
  function Settle(col: seq<Cell>): (r: seq<Cell>)
    ensures |r| == |col|
  {
    BottomUpFacts(col);
    CountBound(col);
    Empties(|col| - |BottomUp(col)|) + Reversed(BottomUp(col))
  }

  /** The i-th block counted from the bottom lands i cells above the bottom row. */
  lemma SettleAt(col: seq<Cell>, i: nat)
    requires i < |col|
    ensures Settle(col)[|col| - 1 - i] ==
            if i < |BottomUp(col)| then BottomUp(col)[i] else Empty
  {
    var bu := BottomUp(col);
    BottomUpFacts(col);
    CountBound(col);
    var n, k := |col|, |bu|;
    var e, rv := Empties(n - k), Reversed(bu);
    assert Settle(col) == e + rv;
    if i < k {
      assert (e + rv)[n - 1 - i] == rv[k - 1 - i];
    } else {
      assert (e + rv)[n - 1 - i] == e[n - 1 - i];
    }
  }

  /**
   * Settling yields one contiguous run of blocks ending at the bottom row, as long
   * as the number of blocks in the column, and keeps the block count.
   */
  lemma SettleIsBottomRun(col: seq<Cell>)
    ensures forall r :: 0 <= r < |col| ==>
              (Settle(col)[r].Filled? <==> r >= |col| - Count(col))
    ensures Count(Settle(col)) == Count(col)
  {
    var bu := BottomUp(col);
    BottomUpFacts(col);
    CountBound(col);
    forall r | 0 <= r < |col|
      ensures Settle(col)[r].Filled? <==> r >= |col| - Count(col)
    {
      SettleAt(col, |col| - 1 - r);
    }
    CountAppend(Empties(|col| - |bu|), Reversed(bu));
    CountEmpties(|col| - |bu|);
    CountAllFilled(Reversed(bu));
  }

  /** Settling keeps the bottom-to-top order of the blocks. */
  lemma SettleKeepsOrder(col: seq<Cell>)
    ensures BottomUp(Settle(col)) == BottomUp(col)
  {
    var bu := BottomUp(col);
    BottomUpFacts(col);
    CountBound(col);
    BottomUpAppend(Empties(|col| - |bu|), Reversed(bu));
    BottomUpEmpties(|col| - |bu|);
    BottomUpReversed(bu);
  }

  /** Settling an already settled column changes nothing. */
  lemma SettleIdempotent(col: seq<Cell>)
    ensures Settle(Settle(col)) == Settle(col)
  {
    SettleKeepsOrder(col);
    SettleIsBottomRun(col);
  }

  /** Per-column gravity over the whole board. */
  function Gravity(b: Board): (g: Board)
    requires WellFormed(b)
    ensures |g| == |b| && Rect(g, |b[0]|)
  {
    seq(|b|, r requires 0 <= r < |b| =>
      seq(|b[0]|, c requires 0 <= c < |b[0]| => Settle(Column(b, c))[r]))
  }

  /** Each column of the result of gravity is the settled original column. */
  lemma GravityColumns(b: Board)
    requires WellFormed(b)
    ensures forall c :: 0 <= c < |b[0]| ==> Column(Gravity(b), c) == Settle(Column(b, c))
  {
    var g := Gravity(b);
    forall c | 0 <= c < |b[0]|
      ensures Column(g, c) == Settle(Column(b, c))
    {
      assert forall r :: 0 <= r < |b| ==> Column(g, c)[r] == Settle(Column(b, c))[r];
    }
  }

  /** Every row with cell `x` emptied. */
  function ClearColumn(b: Board, x: nat): (r: Board)
    requires forall i :: 0 <= i < |b| ==> x < |b[i]|
    ensures |r| == |b| && forall i :: 0 <= i < |b| ==> r[i] == b[i][x := Empty]
  {
    seq(|b|, i requires 0 <= i < |b| => b[i][x := Empty])
  }

  /** Emptying a column removes exactly the blocks that column held. */
  lemma {:induction false} ClearColumnCount(b: Board, x: nat)
    requires forall i :: 0 <= i < |b| ==> x < |b[i]|
    ensures BoardCount(b) == BoardCount(ClearColumn(b, x)) + Count(Column(b, x))
  {
    if b != [] {
      var n := |b|;
      ClearColumnCount(b[..n - 1], x);
      assert ClearColumn(b, x)[..n - 1] == ClearColumn(b[..n - 1], x);
      assert Column(b, x)[..n - 1] == Column(b[..n - 1], x);
      CountUpdate(b[n - 1], x, Empty);
    }
  }

  /** Column `c` replaced by `col`, every other cell kept. */
  function SetColumn(b: Board, c: nat, col: seq<Cell>): (r: Board)
    requires |col| == |b| && forall i :: 0 <= i < |b| ==> c < |b[i]|
    ensures |r| == |b| && forall i :: 0 <= i < |b| ==> r[i] == b[i][c := col[i]]
  {
    seq(|b|, i requires 0 <= i < |b| => b[i][c := col[i]])
  }

  /** Writing one cell of the replaced column is replacing the column with that cell changed. */
  lemma SetColumnUpdate(b: Board, c: nat, col: seq<Cell>, i: nat, v: Cell)
    requires |col| == |b| && forall k :: 0 <= k < |b| ==> c < |b[k]|
    requires i < |b|
    ensures SetColumn(b, c, col)[i := SetColumn(b, c, col)[i][c := v]] == SetColumn(b, c, col[i := v])
  {
    var lhs := SetColumn(b, c, col)[i := SetColumn(b, c, col)[i][c := v]];
    forall k | 0 <= k < |b| ensures lhs[k] == SetColumn(b, c, col[i := v])[k] {
      if k == i {
        assert b[i][c := col[i]][c := v] == b[i][c := v];
      }
    }
  }

  lemma SetColumnSame(b: Board, c: nat)
    requires forall i :: 0 <= i < |b| ==> c < |b[i]|
    ensures SetColumn(b, c, Column(b, c)) == b
  {
    forall i | 0 <= i < |b| ensures SetColumn(b, c, Column(b, c))[i] == b[i] {
      assert b[i][c := b[i][c]] == b[i];
    }
  }

  /** Replacing column `c` leaves that column equal to `col` and every other column as it was. */
  lemma SetColumnColumns(b: Board, w: nat, c: nat, col: seq<Cell>)
    requires Rect(b, w) && c < w && |col| == |b|
    ensures Rect(SetColumn(b, c, col), w)
    ensures Column(SetColumn(b, c, col), c) == col
    ensures forall c' :: 0 <= c' < w && c' != c ==> Column(SetColumn(b, c, col), c') == Column(b, c')
  {
  }

  // ---------------------------------------------------------------------------
  // Counting by columns

  function Sum(s: seq<int>): int {
    if s == [] then 0 else Sum(s[..|s| - 1]) + s[|s| - 1]
  }

  /** Block counts of the first `w` columns. */
  function ColumnCounts(b: Board, w: nat): seq<int>
    requires Rect(b, w)
  {
    seq(w, c requires 0 <= c < w => Count(Column(b, c)))
  }

  lemma {:induction false} SumAppend(a: seq<int>, b: seq<int>)
    ensures Sum(a + b) == Sum(a) + Sum(b)
  {
    if b != [] {
      assert (a + b)[..|a + b| - 1] == a + b[..|b| - 1];
      SumAppend(a, b[..|b| - 1]);
    } else {
      assert a + b == a;
    }
  }

  lemma {:induction false} SumPointwise(a: seq<int>, b: seq<int>, s: seq<int>)
    requires |a| == |b| == |s|
    requires forall i :: 0 <= i < |s| ==> s[i] == a[i] + b[i]
    ensures Sum(s) == Sum(a) + Sum(b)
  {
    if s != [] {
      var n := |s|;
      SumPointwise(a[..n - 1], b[..n - 1], s[..n - 1]);
    }
  }

  lemma {:induction false} SumOfIndicators(row: Row, s: seq<int>)
    requires |s| == |row|
    requires forall c :: 0 <= c < |row| ==> s[c] == Ind(row[c])
    ensures Sum(s) == Count(row)
  {
    if row != [] {
      var n := |row|;
      SumOfIndicators(row[..n - 1], s[..n - 1]);
    }
  }

  lemma {:induction false} SumOfZeros(s: seq<int>)
    requires forall i :: 0 <= i < |s| ==> s[i] == 0
    ensures Sum(s) == 0
  {
    if s != [] {
      SumOfZeros(s[..|s| - 1]);
    }
  }

  /** Counting the blocks column by column gives the row-by-row count. */
  lemma {:induction false} BoardCountByColumns(b: Board, w: nat)
    requires Rect(b, w)
    ensures BoardCount(b) == Sum(ColumnCounts(b, w))
  {
    if b == [] {
      forall c | 0 <= c < w ensures ColumnCounts(b, w)[c] == 0 {
        assert Column(b, c) == [];
      }
      SumOfZeros(ColumnCounts(b, w));
    } else {
      var n := |b|;
      var top := b[..n - 1];
      var last := b[n - 1];
      BoardCountByColumns(top, w);
      var inds := seq(w, c requires 0 <= c < w => Ind(last[c]));
      forall c | 0 <= c < w
        ensures ColumnCounts(b, w)[c] == ColumnCounts(top, w)[c] + inds[c]
      {
        assert Column(b, c)[..n - 1] == Column(top, c);
      }
      SumPointwise(ColumnCounts(top, w), inds, ColumnCounts(b, w));
      SumOfIndicators(last, inds);
    }
  }

  /** The column-by-column counts of a settled board equal those of the original. */
  lemma GravityKeepsCount(b: Board)
    requires WellFormed(b)
    ensures BoardCount(Gravity(b)) == BoardCount(b)
  {
    var w := |b[0]|;
    var g := Gravity(b);
    GravityColumns(b);
    forall c | 0 <= c < w ensures ColumnCounts(g, w)[c] == ColumnCounts(b, w)[c] {
      SettleIsBottomRun(Column(b, c));
    }
    assert ColumnCounts(g, w) == ColumnCounts(b, w);
    BoardCountByColumns(g, w);
    BoardCountByColumns(b, w);
  }

  // ---------------------------------------------------------------------------
  // Permutations of column indices

  /** `perm` lists each of 0 .. n-1 exactly once. */
  predicate IsPermutation(perm: seq<int>, n: nat) {
    && |perm| == n
    && (forall i :: 0 <= i < n ==> 0 <= perm[i] < n)
    && (forall i, j :: 0 <= i < j < n ==> perm[i] != perm[j])
    && (forall v :: 0 <= v < n ==> v in perm)
  }

  /** Dropping the entry n-1 (at index j) from a permutation of 0 .. n-1 leaves one of 0 .. n-2. */
  lemma DropLargest(perm: seq<int>, n: nat, j: nat)
    requires n > 0 && IsPermutation(perm, n) && j < n && perm[j] == n - 1
    ensures IsPermutation(perm[..j] + perm[j + 1..], n - 1)
  {
    var perm' := perm[..j] + perm[j + 1..];
    forall c | 0 <= c < n - 1 ensures perm'[c] == perm[if c < j then c else c + 1] {
    }
    forall v | 0 <= v < n - 1 ensures v in perm' {
      assert v in perm;
      var i :| 0 <= i < n && perm[i] == v;
      if i < j {
        assert perm'[i] == v;
      } else {
        assert perm'[i - 1] == v;
      }
    }
  }

  lemma SumRemove(t: seq<int>, j: nat)
    requires j < |t|
    ensures Sum(t) == Sum(t[..j] + t[j + 1..]) + t[j]
  {
    assert t == t[..j] + [t[j]] + t[j + 1..];
    SumAppend(t[..j] + [t[j]], t[j + 1..]);
    SumAppend(t[..j], [t[j]]);
    SumAppend(t[..j], t[j + 1..]);
    assert [t[j]][..0] == [];
  }

  /** Removing index j from both sides keeps the pairing of entries. */
  lemma PairingWithout(t: seq<int>, u: seq<int>, perm: seq<int>, j: nat,
                       t': seq<int>, u': seq<int>, perm': seq<int>)
    requires |t| == |u| == |perm| && 0 < |t| && j < |t| && perm[j] == |t| - 1
    requires t' == t[..j] + t[j + 1..] && u' == u[..|t| - 1] && perm' == perm[..j] + perm[j + 1..]
    requires IsPermutation(perm', |t| - 1)
    requires forall c :: 0 <= c < |t| ==> 0 <= perm[c] < |t| && u[perm[c]] == t[c]
    ensures forall c :: 0 <= c < |t'| ==> u'[perm'[c]] == t'[c]
  {
    forall c | 0 <= c < |t'| ensures u'[perm'[c]] == t'[c] {
      var c0 := if c < j then c else c + 1;
      assert perm'[c] == perm[c0] && t'[c] == t[c0];
    }
  }

  /** Moving the entries of a sequence by a permutation keeps their sum. */
  lemma {:induction false} SumPermuted(t: seq<int>, u: seq<int>, perm: seq<int>)
    requires |t| == |u| && IsPermutation(perm, |t|)
    requires forall c :: 0 <= c < |t| ==> u[perm[c]] == t[c]
    ensures Sum(u) == Sum(t)
  {
    var n := |t|;
    if n > 0 {
      assert n - 1 in perm;
      var j :| 0 <= j < n && perm[j] == n - 1;
      DropLargest(perm, n, j);
      var t', u', perm' := t[..j] + t[j + 1..], u[..n - 1], perm[..j] + perm[j + 1..];
      PairingWithout(t, u, perm, j, t', u', perm');
      SumPermuted(t', u', perm');
      SumRemove(t, j);
    }
  }
}

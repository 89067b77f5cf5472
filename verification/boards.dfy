/** The 9x9 board shared by the solver, the generator and the game session:
    cells hold 0 (empty) or a digit 1..9, rows and columns are numbered 0..8,
    and the nine 3x3 blocks are the cells whose row and column agree in `/ 3`. */
module Boards {

  datatype Option<T> = None | Some(value: T)

  /** A cell coordinate. */
  datatype Pos = Pos(row: int, col: int)

  predicate InBounds(p: Pos) {
    0 <= p.row < 9 && 0 <= p.col < 9
  }

  /** Position of a cell in the row-major scan order used by the solver and by hints. */
  function Index(p: Pos): int {
    9 * p.row + p.col
  }

  predicate IsBoard(g: seq<seq<int>>) {
    && |g| == 9
    && forall r :: 0 <= r < 9 ==> |g[r]| == 9 && forall c :: 0 <= c < 9 ==> 0 <= g[r][c] <= 9
  }

  type Grid = g: seq<seq<int>> | IsBoard(g) witness seq(9, _ => seq(9, _ => 0))

  /** The all-empty board the generator starts from. */
  function Blank(): (g: Grid)
    ensures forall r, c :: 0 <= r < 9 && 0 <= c < 9 ==> g[r][c] == 0
  {
    seq(9, _ => seq(9, _ => 0))
  }

  /** Writes one cell, the `board[row][col] = v` of the source. */
  function Put(g: Grid, row: int, col: int, v: int): (h: Grid)
    requires 0 <= row < 9 && 0 <= col < 9 && 0 <= v <= 9
    ensures h[row][col] == v
    ensures forall r, c :: 0 <= r < 9 && 0 <= c < 9 && (r != row || c != col) ==> h[r][c] == g[r][c]
  {
    g[row := g[row][col := v]]
  }

  /** Writing back the value a cell held before leaves the board as it was. */
  lemma PutSame(g: Grid, row: int, col: int)
    requires 0 <= row < 9 && 0 <= col < 9
    ensures Put(g, row, col, g[row][col]) == g
  {
    assert g[row][col := g[row][col]] == g[row];
  }

  /** The set of empty cells. */
  function ZeroSet(g: Grid): set<Pos> {
    set r, c | 0 <= r < 9 && 0 <= c < 9 && g[r][c] == 0 :: Pos(r, c)
  }

  lemma ZeroSetMember(g: Grid, p: Pos)
    ensures p in ZeroSet(g) <==> InBounds(p) && g[p.row][p.col] == 0
  {
  }

  /** Filling an empty cell removes exactly that cell from the empty set. */
  lemma PutFillsOne(g: Grid, row: int, col: int, v: int)
    requires 0 <= row < 9 && 0 <= col < 9 && 1 <= v <= 9
    requires g[row][col] == 0
    ensures ZeroSet(Put(g, row, col, v)) == ZeroSet(g) - {Pos(row, col)}
    ensures |ZeroSet(Put(g, row, col, v))| == |ZeroSet(g)| - 1
  {
    var h := Put(g, row, col, v);
    forall p | true
      ensures p in ZeroSet(h) <==> p in ZeroSet(g) - {Pos(row, col)}
    {
      ZeroSetMember(g, p);
      ZeroSetMember(h, p);
    }
    assert ZeroSet(h) == ZeroSet(g) - {Pos(row, col)};
  }

  /** A board with no empty cell. */
  predicate Complete(g: Grid) {
    forall r, c :: 0 <= r < 9 && 0 <= c < 9 ==> g[r][c] != 0
  }

  /** Two cells share a row, a column or a 3x3 block. */
  predicate SameUnit(r1: int, c1: int, r2: int, c2: int) {
    r1 == r2 || c1 == c2 || (r1 / 3 == r2 / 3 && c1 / 3 == c2 / 3)
  }

  /** No row, column or block holds the same digit twice. */
  predicate Valid(g: Grid) {
    forall r1, c1, r2, c2 ::
      && 0 <= r1 < 9 && 0 <= c1 < 9 && 0 <= r2 < 9 && 0 <= c2 < 9
      && (r1 != r2 || c1 != c2) && SameUnit(r1, c1, r2, c2) && g[r1][c1] != 0
      ==> g[r1][c1] != g[r2][c2]
  }

  /** A finished sudoku: every cell filled and no unit repeats a digit. */
  predicate Solution(g: Grid) {
    Complete(g) && Valid(g)
  }

  /** `s` keeps every given (non-zero) cell of `g`. */
  predicate Extends(g: Grid, s: Grid) {
    forall r, c :: 0 <= r < 9 && 0 <= c < 9 && g[r][c] != 0 ==> s[r][c] == g[r][c]
  }

  /** `a` comes no later than `b` in row-major lexicographic order: they are
      equal, or at the first cell where they differ `a` holds the smaller digit. */
  predicate RowMajorLeq(a: Grid, b: Grid) {
    || a == b
    || exists r, c :: 0 <= r < 9 && 0 <= c < 9 && a[r][c] < b[r][c] && SameBefore(a, b, 9 * r + c)
  }

  /** `a` and `b` agree on every cell that precedes row-major position `k`. */
  predicate SameBefore(a: Grid, b: Grid, k: int) {
    forall r, c :: 0 <= r < 9 && 0 <= c < 9 && 9 * r + c < k ==> a[r][c] == b[r][c]
  }

  /** Boards that agree on every cell are equal. */
  lemma CellwiseEqual(a: Grid, b: Grid)
    requires forall r, c :: 0 <= r < 9 && 0 <= c < 9 ==> a[r][c] == b[r][c]
    ensures a == b
  {
    forall r | 0 <= r < 9
      ensures a[r] == b[r]
    {
    }
  }

  /** The first cell where `a` and `b` differ, if `a` is smaller there, orders them. */
  lemma RowMajorLeqAt(a: Grid, b: Grid, r: int, c: int)
    requires 0 <= r < 9 && 0 <= c < 9 && a[r][c] < b[r][c] && SameBefore(a, b, 9 * r + c)
    ensures RowMajorLeq(a, b)
  {
  }

  /** Removing digits from a valid board keeps it valid. */
  lemma SubBoardValid(g: Grid, s: Grid)
    requires Extends(g, s) && Valid(s)
    ensures Valid(g)
  {
  }

  /** The cell after (row, col) in row-major scan order. */
  function Next(row: int, col: int): (n: Pos)
    requires 0 <= row < 9 && 0 <= col < 9
    ensures Index(n) == 9 * row + col + 1
    ensures 0 <= n.row <= 9 && 0 <= n.col < 9 && (n.row == 9 ==> n.col == 0)
  {
    if col == 8 then Pos(row + 1, 0) else Pos(row, col + 1)
  }

  /** Every cell at a row-major position in `lo` .. `hi` - 1 holds a digit. */
  predicate FilledBetween(g: Grid, lo: int, hi: int) {
    forall r, c :: 0 <= r < 9 && 0 <= c < 9 && lo <= 9 * r + c < hi ==> g[r][c] != 0
  }

  /** A filled cell at position `lo` extends a filled range that starts just after it. */
  lemma FilledStep(g: Grid, row: int, col: int, hi: int)
    requires 0 <= row < 9 && 0 <= col < 9 && g[row][col] != 0
    ensures FilledBetween(g, 9 * row + col + 1, hi) ==> FilledBetween(g, 9 * row + col, hi)
  {
  }

  /** The empty cells from (row, col) to the end of the board, in row-major
      order: the list comprehension over `range(9)` x `range(9)` that hints
      pick from. */
  function EmptyFrom(g: Grid, row: int, col: int): (cells: seq<Pos>)
    requires 0 <= row <= 9 && 0 <= col < 9 && (row == 9 ==> col == 0)
    ensures forall i :: 0 <= i < |cells| ==>
      InBounds(cells[i]) && g[cells[i].row][cells[i].col] == 0 && 9 * row + col <= Index(cells[i])
    ensures |cells| == 0 <==> FilledBetween(g, 9 * row + col, 81)
    decreases 81 - (9 * row + col)
  {
    if row == 9 then []
    else
      var n := Next(row, col);
      var rest := EmptyFrom(g, n.row, n.col);
      if g[row][col] == 0 then [Pos(row, col)] + rest
      else
        FilledStep(g, row, col, 81);
        rest
  }

  /** The scan from (row, col) misses no empty cell at or after it. */
  lemma {:induction false} EmptyFromComplete(g: Grid, row: int, col: int)
    requires 0 <= row <= 9 && 0 <= col < 9 && (row == 9 ==> col == 0)
    ensures forall p :: InBounds(p) && g[p.row][p.col] == 0 && 9 * row + col <= Index(p) ==>
      p in EmptyFrom(g, row, col)
    decreases 81 - (9 * row + col)
  {
    if row < 9 {
      var n := Next(row, col);
      EmptyFromComplete(g, n.row, n.col);
      forall p | InBounds(p) && g[p.row][p.col] == 0 && 9 * row + col <= Index(p)
        ensures p in EmptyFrom(g, row, col)
      {
        if p != Pos(row, col) {
          assert Index(p) != 9 * row + col;
        }
      }
    }
  }

  /** The scan lists cells in strictly increasing row-major position, so
      without repeats. */
  lemma {:induction false} EmptyFromAscending(g: Grid, row: int, col: int)
    requires 0 <= row <= 9 && 0 <= col < 9 && (row == 9 ==> col == 0)
    ensures Ascending(EmptyFrom(g, row, col))
    decreases 81 - (9 * row + col)
  {
    if row < 9 {
      var n := Next(row, col);
      EmptyFromAscending(g, n.row, n.col);
    }
  }

  /** Cells in strictly increasing row-major position. */
  predicate Ascending(cells: seq<Pos>) {
    forall i, j :: 0 <= i < j < |cells| ==> Index(cells[i]) < Index(cells[j])
  }

  /** The empty cells of the board, each once, in row-major order: the list
      holds exactly the empty cells and is empty exactly when the board is full. */
  function EmptyCells(g: Grid): (cells: seq<Pos>)
    ensures forall i :: 0 <= i < |cells| ==> InBounds(cells[i]) && g[cells[i].row][cells[i].col] == 0
    ensures forall p :: InBounds(p) && g[p.row][p.col] == 0 ==> p in cells
    ensures Ascending(cells) && Distinct(cells)
    ensures |cells| == 0 <==> Complete(g)
  {
    EmptyFromComplete(g, 0, 0);
    EmptyFromAscending(g, 0, 0);
    EmptyFrom(g, 0, 0)
  }

  /** The solver's nested `for row` / `for col` scan, from (row, col) on: the
      first empty cell it meets, if any. */
  function FirstEmptyFrom(g: Grid, row: int, col: int): (p: Option<Pos>)
    requires 0 <= row <= 9 && 0 <= col < 9 && (row == 9 ==> col == 0)
    ensures p.None? <==> FilledBetween(g, 9 * row + col, 81)
    ensures p.Some? ==> InBounds(p.value) && g[p.value.row][p.value.col] == 0
    ensures p.Some? ==> 9 * row + col <= Index(p.value)
    ensures p.Some? ==> FilledBetween(g, 9 * row + col, Index(p.value))
    decreases 81 - (9 * row + col)
  {
    if row == 9 then None
    else if g[row][col] == 0 then Some(Pos(row, col))
    else
      var n := Next(row, col);
      var q := FirstEmptyFrom(g, n.row, n.col);
      FilledStep(g, row, col, if q.Some? then Index(q.value) else 81);
      q
  }

  /** The first empty cell in row-major order, where the solver branches;
      none exactly when the board is full. */
  function FirstEmpty(g: Grid): (p: Option<Pos>)
    ensures p.None? <==> Complete(g)
    ensures p.Some? ==> InBounds(p.value) && g[p.value.row][p.value.col] == 0
    ensures p.Some? ==> forall r, c :: 0 <= r < 9 && 0 <= c < 9 && 9 * r + c < Index(p.value) ==> g[r][c] != 0
  {
    FirstEmptyFrom(g, 0, 0)
  }

  predicate Distinct<T(==)>(xs: seq<T>) {
    forall i, j :: 0 <= i < j < |xs| ==> xs[i] != xs[j]
  }

  /** A sequence without repeats has as many elements as its set. */
  lemma {:induction false} DistinctCard<T>(xs: seq<T>)
    requires Distinct(xs)
    ensures |set x | x in xs| == |xs|
  {
    if xs != [] {
      DistinctCard(xs[1..]);
      assert (set x | x in xs) == (set x | x in xs[1..]) + {xs[0]};
      assert xs[0] !in xs[1..];
    }
  }
}

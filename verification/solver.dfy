/** `SudokuSolver.is_valid` and `SudokuSolver.solve`: depth-first backtracking
    over the first empty cell in row-major order, trying 1..9 in ascending
    order. The source mutates one board in place and undoes a tentative digit
    when the search below it fails; here `Solve` returns that board as it stands
    after the call, so the undo is part of what is proved. */
module Solver {
  import opened Boards

  /** `is_valid`: `num` is absent from row `row`, column `col` and the block
      starting at (row / 3 * 3, col / 3 * 3). The cell itself is scanned too. */
  function IsValid(g: Grid, row: int, col: int, num: int): bool
    requires 0 <= row < 9 && 0 <= col < 9
  {
    && (forall x :: 0 <= x < 9 ==> g[row][x] != num && g[x][col] != num)
    && var startRow, startCol := row / 3 * 3, col / 3 * 3;
       forall r, c :: startRow <= r < startRow + 3 && startCol <= c < startCol + 3 ==> g[r][c] != num
  }

  /** `is_valid` holds exactly when no cell sharing a unit with (row, col),
      the cell itself included, holds `num`. */
  lemma IsValidIffAbsent(g: Grid, row: int, col: int, num: int)
    requires 0 <= row < 9 && 0 <= col < 9
    ensures IsValid(g, row, col, num) <==>
      forall r, c :: 0 <= r < 9 && 0 <= c < 9 && SameUnit(row, col, r, c) ==> g[r][c] != num
  {
    if IsValid(g, row, col, num) {
      forall r, c | 0 <= r < 9 && 0 <= c < 9 && SameUnit(row, col, r, c)
        ensures g[r][c] != num
      {
        if r != row && c != col {
          assert row / 3 * 3 <= r < row / 3 * 3 + 3;
        }
      }
    }
  }

  /** The board after a `solve` call, and whether it returned True. */
  datatype Outcome = Outcome(solved: bool, board: Grid)

  /** `solve(board)`. On success the board is filled and keeps every given;
      on failure it is the input board again. */
  function Solve(g: Grid): (r: Outcome)
    ensures r.solved ==> Complete(r.board) && Extends(g, r.board)
    ensures !r.solved ==> r.board == g
    ensures Complete(g) ==> r == Outcome(true, g)
    decreases |ZeroSet(g)|, 2, 0
  {
    match FirstEmpty(g)
    case None => Outcome(true, g)
    case Some(p) => TryDigits(g, p, 1)
  }

  /** The `for num in range(1, 10)` loop at the empty cell `p`, from `num` on:
      the first digit whose attempt succeeds wins; when none does, the cell is
      left empty and the call fails. */
  function TryDigits(g: Grid, p: Pos, num: int): (r: Outcome)
    requires InBounds(p) && g[p.row][p.col] == 0 && 1 <= num <= 10
    ensures r.solved ==> Complete(r.board) && Extends(g, r.board)
    ensures !r.solved ==> r.board == g
    decreases |ZeroSet(g)|, 1, 10 - num
  {
    if num > 9 then Outcome(false, g)
    else
      var a := Attempt(g, p, num);
      if a.solved then a else TryDigits(a.board, p, num + 1)
  }

  /** One pass of the digit loop: if `num` passes `is_valid`, place it and
      recurse; a failed recursion resets the cell to 0, so a failed attempt
      hands back the board it was given. */
  function Attempt(g: Grid, p: Pos, num: int): (r: Outcome)
    requires InBounds(p) && g[p.row][p.col] == 0 && 1 <= num <= 9
    ensures r.solved ==> Complete(r.board) && Extends(g, r.board) && r.board[p.row][p.col] == num
    ensures !r.solved ==> r.board == g
    decreases |ZeroSet(g)|, 0, 0
  {
    if IsValid(g, p.row, p.col, num) then
      var placed := Put(g, p.row, p.col, num);
      PutFillsOne(g, p.row, p.col, num);
      var sub := Solve(placed);
      if sub.solved then
        ExtendsPut(g, p.row, p.col, num, sub.board);
        sub
      else
        PutUndo(g, p.row, p.col, num);
        Outcome(false, Put(sub.board, p.row, p.col, 0))
    else Outcome(false, g)
  }

  /** A board that keeps the givens of `g` with one more digit placed keeps
      the givens of `g` and holds that digit. */
  lemma ExtendsPut(g: Grid, row: int, col: int, v: int, b: Grid)
    requires 0 <= row < 9 && 0 <= col < 9 && 1 <= v <= 9 && g[row][col] == 0
    requires Extends(Put(g, row, col, v), b)
    ensures Extends(g, b) && b[row][col] == v
  {
    var placed := Put(g, row, col, v);
    assert placed[row][col] == v;
    forall r, c | 0 <= r < 9 && 0 <= c < 9 && g[r][c] != 0
      ensures b[r][c] == g[r][c]
    {
      assert placed[r][c] == g[r][c];
    }
  }

  /** Every digit `solve` places passed `is_valid`, so a duplicate-free board
      stays duplicate-free: a successful call on a valid board returns a valid one. */
  lemma {:induction false} SolveKeepsValid(g: Grid)
    requires Valid(g)
    ensures Solve(g).solved ==> Valid(Solve(g).board)
    decreases |ZeroSet(g)|, 2, 0
  {
    match FirstEmpty(g)
    case None =>
    case Some(p) => TryDigitsKeepsValid(g, p, 1);
  }

  lemma {:induction false} TryDigitsKeepsValid(g: Grid, p: Pos, num: int)
    requires InBounds(p) && g[p.row][p.col] == 0 && 1 <= num <= 10
    requires Valid(g)
    ensures TryDigits(g, p, num).solved ==> Valid(TryDigits(g, p, num).board)
    decreases |ZeroSet(g)|, 1, 10 - num
  {
    if num <= 9 {
      var a := Attempt(g, p, num);
      AttemptKeepsValid(g, p, num);
      if !a.solved {
        TryDigitsKeepsValid(a.board, p, num + 1);
      }
    }
  }

  lemma {:induction false} AttemptKeepsValid(g: Grid, p: Pos, num: int)
    requires InBounds(p) && g[p.row][p.col] == 0 && 1 <= num <= 9
    requires Valid(g)
    ensures Attempt(g, p, num).solved ==> Valid(Attempt(g, p, num).board)
    decreases |ZeroSet(g)|, 0, 0
  {
    if IsValid(g, p.row, p.col, num) {
      var placed := Put(g, p.row, p.col, num);
      PutFillsOne(g, p.row, p.col, num);
      PlacementKeepsValid(g, p.row, p.col, num);
      SolveKeepsValid(placed);
    }
  }

  /** An attempt succeeds exactly when the digit passes `is_valid` and the
      search below it succeeds, and then its board is that search's. */
  lemma AttemptSucceeds(g: Grid, p: Pos, num: int)
    requires InBounds(p) && g[p.row][p.col] == 0 && 1 <= num <= 9
    ensures var placed := Put(g, p.row, p.col, num);
      && (Attempt(g, p, num).solved <==> IsValid(g, p.row, p.col, num) && Solve(placed).solved)
      && (Attempt(g, p, num).solved ==> Attempt(g, p, num) == Solve(placed))
  {
  }

  /** Resetting a tentative digit restores the board it was placed on. */
  lemma PutUndo(g: Grid, row: int, col: int, v: int)
    requires 0 <= row < 9 && 0 <= col < 9 && 0 <= v <= 9 && g[row][col] == 0
    ensures Put(Put(g, row, col, v), row, col, 0) == g
  {
    assert Put(g, row, col, v)[row][col := 0] == g[row];
  }

  /** A digit that passes `is_valid` on an empty cell of a valid board keeps it valid. */
  lemma PlacementKeepsValid(g: Grid, row: int, col: int, num: int)
    requires 0 <= row < 9 && 0 <= col < 9 && 1 <= num <= 9 && g[row][col] == 0
    requires IsValid(g, row, col, num)
    ensures Valid(g) ==> Valid(Put(g, row, col, num))
  {
    IsValidIffAbsent(g, row, col, num);
    var h := Put(g, row, col, num);
    if Valid(g) {
      forall r1, c1, r2, c2 |
        && 0 <= r1 < 9 && 0 <= c1 < 9 && 0 <= r2 < 9 && 0 <= c2 < 9
        && (r1 != r2 || c1 != c2) && SameUnit(r1, c1, r2, c2) && h[r1][c1] != 0
        ensures h[r1][c1] != h[r2][c2]
      {
        if r1 == row && c1 == col {
          assert g[r2][c2] != num;
        } else if r2 == row && c2 == col {
          assert SameUnit(row, col, r1, c1);
          assert g[r1][c1] != num;
        }
      }
    }
  }

  /** The digit a solution puts in an empty cell passes `is_valid` there. */
  lemma SolutionDigitIsValid(g: Grid, s: Grid, row: int, col: int)
    requires Solution(s) && Extends(g, s)
    requires 0 <= row < 9 && 0 <= col < 9 && g[row][col] == 0
    ensures IsValid(g, row, col, s[row][col])
  {
    var v := s[row][col];
    forall r, c | 0 <= r < 9 && 0 <= c < 9 && SameUnit(row, col, r, c)
      ensures g[r][c] != v
    {
      if g[r][c] != 0 {
        assert s[r][c] == g[r][c];
        assert r != row || c != col;
      }
    }
    IsValidIffAbsent(g, row, col, v);
  }

  /** The search is complete and keeps the first solution it meets: whenever
      some solution `s` keeps the givens of `g`, `solve` succeeds, and the board
      it leaves is no later than `s` in row-major order (digits are tried in
      ascending order, cells in row-major order). */
  lemma {:induction false} SolveFindsSolution(g: Grid, s: Grid)
    requires Solution(s) && Extends(g, s)
    ensures Solve(g).solved
    ensures RowMajorLeq(Solve(g).board, s)
    decreases |ZeroSet(g)|, 2, 0
  {
    match FirstEmpty(g)
    case None => CellwiseEqual(g, s);
    case Some(p) => TryDigitsFindsSolution(g, s, p, 1);
  }

  lemma {:induction false} TryDigitsFindsSolution(g: Grid, s: Grid, p: Pos, num: int)
    requires Solution(s) && Extends(g, s)
    requires InBounds(p) && g[p.row][p.col] == 0 && 1 <= num <= s[p.row][p.col]
    requires forall r, c :: 0 <= r < 9 && 0 <= c < 9 && 9 * r + c < Index(p) ==> g[r][c] != 0
    ensures TryDigits(g, p, num).solved
    ensures RowMajorLeq(TryDigits(g, p, num).board, s)
    decreases |ZeroSet(g)|, 1, 10 - num
  {
    var v := s[p.row][p.col];
    var placed := Put(g, p.row, p.col, num);
    var a := Attempt(g, p, num);
    AttemptSucceeds(g, p, num);
    if num == v {
      PutFillsOne(g, p.row, p.col, num);
      SolutionDigitIsValid(g, s, p.row, p.col);
      PlacedExtends(g, s, p);
      SolveFindsSolution(placed, s);
    } else if a.solved {
      FirstSolutionBelow(g, s, p, num);
    } else {
      assert TryDigits(g, p, num) == TryDigits(g, p, num + 1);
      TryDigitsFindsSolution(g, s, p, num + 1);
    }
  }

  /** Placing the digit a solution has at an empty cell keeps that solution
      an extension. */
  lemma PlacedExtends(g: Grid, s: Grid, p: Pos)
    requires Extends(g, s) && InBounds(p) && 1 <= s[p.row][p.col]
    ensures Extends(Put(g, p.row, p.col, s[p.row][p.col]), s)
  {
  }

  /** A solution found with a digit smaller than the one `s` uses at the first
      empty cell comes before `s`. */
  lemma FirstSolutionBelow(g: Grid, s: Grid, p: Pos, num: int)
    requires Extends(g, s)
    requires InBounds(p) && g[p.row][p.col] == 0 && 1 <= num < s[p.row][p.col]
    requires forall r, c :: 0 <= r < 9 && 0 <= c < 9 && 9 * r + c < Index(p) ==> g[r][c] != 0
    requires Solve(Put(g, p.row, p.col, num)).solved
    ensures RowMajorLeq(Solve(Put(g, p.row, p.col, num)).board, s)
  {
    var placed := Put(g, p.row, p.col, num);
    var b := Solve(placed).board;
    assert Extends(placed, b);
    assert b[p.row][p.col] == num;
    forall r, c | 0 <= r < 9 && 0 <= c < 9 && 9 * r + c < 9 * p.row + p.col
      ensures b[r][c] == s[r][c]
    {
      assert g[r][c] != 0;
      assert placed[r][c] == g[r][c];
    }
    RowMajorLeqAt(b, s, p.row, p.col);
  }

  /** On a board without duplicates, `solve` succeeds exactly when the board
      can be completed to a solution, and what it returns is one. */
  lemma SolveSucceedsIffSolvable(g: Grid)
    requires Valid(g)
    ensures Solve(g).solved <==> exists s :: Solution(s) && Extends(g, s)
    ensures Solve(g).solved ==> Solution(Solve(g).board) && Extends(g, Solve(g).board)
  {
    if exists s :: Solution(s) && Extends(g, s) {
      var s :| Solution(s) && Extends(g, s);
      SolveFindsSolution(g, s);
    }
    SolveKeepsValid(g);
  }
}

/** `SudokuSolver.fill_diagonal`, `remove_cells` and `generate_puzzle`, and the
    `MainWindow.new_game` pipeline that re-solves the holed puzzle to get the
    stored solution. The shuffles are parameters: one permutation of 1..9 per
    diagonal block and one ordering of the 81 coordinates. */
module Generator {
  import opened Boards
  import opened Solver

  /** Number of difficulty levels: Easy, Medium, Hard, Expert. */
  const Levels := 4

  /** `cells_to_remove`: how many cells a difficulty level clears. */
  function CellsToRemove(difficulty: int): (n: int)
    requires 0 <= difficulty < Levels
    ensures 45 <= n <= 60
  {
    [45, 50, 55, 60][difficulty]
  }

  /** `nums` is the list 1..9 reordered. */
  predicate IsDigitPermutation(nums: seq<int>) {
    && |nums| == 9
    && (forall i :: 0 <= i < 9 ==> 1 <= nums[i] <= 9)
    && (forall i, j :: 0 <= i < j < 9 ==> nums[i] != nums[j])
    && (forall v :: 1 <= v <= 9 ==> v in nums)
  }

  /** `positions` is the 81 coordinates of the board reordered. */
  predicate IsPositionOrder(positions: seq<Pos>) {
    && |positions| == 81
    && (forall i :: 0 <= i < 81 ==> InBounds(positions[i]))
    && Distinct(positions)
  }

  /** The nine digits of block (`br`, `bc`), read in row-major order. */
  function BlockDigits(g: Grid, br: int, bc: int): (ds: seq<int>)
    requires 0 <= br < 3 && 0 <= bc < 3
    ensures |ds| == 9
  {
    seq(9, k requires 0 <= k < 9 => g[3 * br + k / 3][3 * bc + k % 3])
  }

  /** The digit `fill_diagonal` writes at (r, c) of a diagonal block: entry
      `3 * (r % 3) + c % 3` of that block's permutation. */
  function DiagonalDigit(perms: seq<seq<int>>, r: int, c: int): (d: int)
    requires |perms| == 3 && forall b :: 0 <= b < 3 ==> IsDigitPermutation(perms[b])
    requires 0 <= r < 9 && 0 <= c < 9 && r / 3 == c / 3
    ensures 1 <= d <= 9
  {
    var b := r / 3;
    assert IsDigitPermutation(perms[b]);
    var k := 3 * (r % 3) + c % 3;
    assert 0 <= k < 9;
    perms[b][k]
  }

  /** `fill_diagonal`: the blocks at (0,0), (3,3) and (6,6) receive `perms[0]`,
      `perms[1]` and `perms[2]` in row-major order; cells off the diagonal
      blocks are untouched. */
  function FillDiagonal(g: Grid, perms: seq<seq<int>>): (h: Grid)
    requires |perms| == 3 && forall b :: 0 <= b < 3 ==> IsDigitPermutation(perms[b])
    ensures forall b :: 0 <= b < 3 ==> BlockDigits(h, b, b) == perms[b]
    ensures forall r, c :: 0 <= r < 9 && 0 <= c < 9 && r / 3 != c / 3 ==> h[r][c] == g[r][c]
  {
    var h: Grid := seq(9, r requires 0 <= r < 9 => seq(9, c requires 0 <= c < 9 =>
      if r / 3 == c / 3 then DiagonalDigit(perms, r, c) else g[r][c]));
    DiagonalBlocks(h, perms);
    h
  }

  /** A board carrying `DiagonalDigit` on the diagonal blocks holds each
      permutation in its block, in row-major order. */
  lemma DiagonalBlocks(h: Grid, perms: seq<seq<int>>)
    requires |perms| == 3 && forall b :: 0 <= b < 3 ==> IsDigitPermutation(perms[b])
    requires forall r, c :: 0 <= r < 9 && 0 <= c < 9 && r / 3 == c / 3 ==> h[r][c] == DiagonalDigit(perms, r, c)
    ensures forall b :: 0 <= b < 3 ==> BlockDigits(h, b, b) == perms[b]
  {
    forall b | 0 <= b < 3
      ensures BlockDigits(h, b, b) == perms[b]
    {
      assert IsDigitPermutation(perms[b]);
      forall k | 0 <= k < 9
        ensures BlockDigits(h, b, b)[k] == perms[b][k]
      {
        var r, c := 3 * b + k / 3, 3 * b + k % 3;
        assert r / 3 == b && c / 3 == b && r % 3 == k / 3 && c % 3 == k % 3;
        assert 3 * (r % 3) + c % 3 == k;
        assert h[r][c] == DiagonalDigit(perms, r, c);
      }
    }
  }

  /** Read back from the blocks, a diagonal cell holds its `DiagonalDigit`. */
  lemma DiagonalCell(h: Grid, perms: seq<seq<int>>, r: int, c: int)
    requires |perms| == 3 && forall b :: 0 <= b < 3 ==> IsDigitPermutation(perms[b])
    requires forall b :: 0 <= b < 3 ==> BlockDigits(h, b, b) == perms[b]
    requires 0 <= r < 9 && 0 <= c < 9 && r / 3 == c / 3
    ensures h[r][c] == DiagonalDigit(perms, r, c)
  {
    var b, k := r / 3, 3 * (r % 3) + c % 3;
    assert k / 3 == r % 3 && k % 3 == c % 3;
    assert BlockDigits(h, b, b)[k] == h[3 * b + k / 3][3 * b + k % 3];
  }

  /** The seed has no duplicate in any row, column or block, and each diagonal
      block holds a permutation of 1..9. */
  lemma DiagonalSeedValid(perms: seq<seq<int>>)
    requires |perms| == 3 && forall b :: 0 <= b < 3 ==> IsDigitPermutation(perms[b])
    ensures Valid(FillDiagonal(Blank(), perms))
    ensures forall b :: 0 <= b < 3 ==> IsDigitPermutation(BlockDigits(FillDiagonal(Blank(), perms), b, b))
  {
    var h := FillDiagonal(Blank(), perms);
    forall r1, c1, r2, c2 |
      && 0 <= r1 < 9 && 0 <= c1 < 9 && 0 <= r2 < 9 && 0 <= c2 < 9
      && (r1 != r2 || c1 != c2) && SameUnit(r1, c1, r2, c2) && h[r1][c1] != 0
      ensures h[r1][c1] != h[r2][c2]
    {
      if h[r2][c2] != 0 {
        assert r1 / 3 == c1 / 3 && r2 / 3 == c2 / 3 && r1 / 3 == r2 / 3;
        DiagonalCell(h, perms, r1, c1);
        DiagonalCell(h, perms, r2, c2);
        assert 3 * (r1 % 3) + c1 % 3 != 3 * (r2 % 3) + c2 % 3;
      }
    }
  }

  /** The loop of `remove_cells`, zeroing the listed cells one after another. */
  function ClearCells(g: Grid, cells: seq<Pos>): (h: Grid)
    requires forall i :: 0 <= i < |cells| ==> InBounds(cells[i])
    ensures forall r, c :: 0 <= r < 9 && 0 <= c < 9 ==>
      h[r][c] == if Pos(r, c) in cells then 0 else g[r][c]
    decreases |cells|
  {
    if cells == [] then g
    else
      var p := cells[0];
      assert InBounds(p);
      ClearCells(Put(g, p.row, p.col, 0), cells[1..])
  }

  /** The first `n` coordinates of a shuffled list, as a set. */
  function Prefix(positions: seq<Pos>, n: int): set<Pos>
    requires 0 <= n <= |positions|
  {
    set i | 0 <= i < n :: positions[i]
  }

  /** `remove_cells`: the first `CellsToRemove(difficulty)` coordinates of the
      shuffled list are zeroed; every other cell keeps its digit. On a full
      board this leaves exactly that many empty cells. */
  function RemoveCells(g: Grid, difficulty: int, positions: seq<Pos>): (h: Grid)
    requires 0 <= difficulty < Levels
    requires IsPositionOrder(positions)
    ensures ZeroSet(h) == ZeroSet(g) + Prefix(positions, CellsToRemove(difficulty))
    ensures Extends(h, g)
    ensures forall i :: CellsToRemove(difficulty) <= i < 81 && g[positions[i].row][positions[i].col] != 0 ==>
      h[positions[i].row][positions[i].col] == g[positions[i].row][positions[i].col]
    ensures |ZeroSet(h)| >= CellsToRemove(difficulty)
    ensures Complete(g) ==> |ZeroSet(h)| == CellsToRemove(difficulty)
  {
    var n := CellsToRemove(difficulty);
    var h := ClearCells(g, positions[..n]);
    ClearedZeroSet(g, positions, n);
    PrefixCard(positions, n);
    UnionCard(ZeroSet(g), Prefix(positions, n));
    CompleteHasNoZero(g);
    h
  }

  /** Clearing the first `n` listed cells adds exactly them to the empty set. */
  lemma ClearedZeroSet(g: Grid, positions: seq<Pos>, n: int)
    requires IsPositionOrder(positions) && 0 <= n <= 81
    ensures ZeroSet(ClearCells(g, positions[..n])) == ZeroSet(g) + Prefix(positions, n)
  {
    var cleared := positions[..n];
    var h := ClearCells(g, cleared);
    var removed := Prefix(positions, n);
    forall p | true
      ensures p in ZeroSet(h) <==> p in ZeroSet(g) + removed
    {
      ZeroSetMember(g, p);
      ZeroSetMember(h, p);
      if p in cleared {
        var i :| 0 <= i < n && cleared[i] == p;
        assert p in removed;
      }
    }
  }

  /** The first `n` coordinates of a list without repeats are `n` distinct cells. */
  lemma PrefixCard(positions: seq<Pos>, n: int)
    requires IsPositionOrder(positions) && 0 <= n <= 81
    ensures |Prefix(positions, n)| == n
  {
    var cleared := positions[..n];
    assert Prefix(positions, n) == set x | x in cleared;
    DistinctCard(cleared);
  }

  /** A union is at least as large as either part, and as large as the second
      when the first is empty. */
  lemma UnionCard<T>(a: set<T>, b: set<T>)
    ensures |a + b| >= |b|
    ensures a == {} ==> |a + b| == |b|
  {
    assert b <= a + b;
    SubsetCard(b, a + b);
  }

  lemma {:induction false} SubsetCard<T>(a: set<T>, b: set<T>)
    requires a <= b
    ensures |a| <= |b|
    decreases |a|
  {
    if a != {} {
      var x :| x in a;
      SubsetCard(a - {x}, b - {x});
    }
  }

  /** A full board has no empty cell. */
  lemma CompleteHasNoZero(g: Grid)
    ensures Complete(g) ==> ZeroSet(g) == {}
  {
    if Complete(g) {
      forall p | p in ZeroSet(g) ensures false {
        ZeroSetMember(g, p);
      }
    }
  }

  /** `generate_puzzle`: seed the diagonal, run `solve` (its result is not
      looked at), and clear cells from a copy. */
  function GeneratePuzzle(difficulty: int, perms: seq<seq<int>>, positions: seq<Pos>): (puzzle: Grid)
    requires 0 <= difficulty < Levels
    requires |perms| == 3 && forall b :: 0 <= b < 3 ==> IsDigitPermutation(perms[b])
    requires IsPositionOrder(positions)
    ensures Valid(puzzle)
    ensures Extends(puzzle, Solve(FillDiagonal(Blank(), perms)).board)
    ensures |ZeroSet(puzzle)| >= CellsToRemove(difficulty)
    ensures SeedSolvable(perms) ==>
      && Solution(Solve(FillDiagonal(Blank(), perms)).board)
      && |ZeroSet(puzzle)| == CellsToRemove(difficulty)
  {
    var seeded := FillDiagonal(Blank(), perms);
    DiagonalSeedValid(perms);
    SolveKeepsValid(seeded);
    var filled := Solve(seeded);
    var puzzle := RemoveCells(filled.board, difficulty, positions);
    SubBoardValid(puzzle, filled.board);
    puzzle
  }

  /** The diagonal seed drawn from `perms` can be completed by `solve`. */
  predicate SeedSolvable(perms: seq<seq<int>>)
    requires |perms| == 3 && forall b :: 0 <= b < 3 ==> IsDigitPermutation(perms[b])
  {
    Solve(FillDiagonal(Blank(), perms)).solved
  }

  /** What `new_game` hands to the board: the puzzle and the stored solution. */
  datatype NewPuzzle = NewPuzzle(puzzle: Grid, solution: Grid)

  /** `MainWindow.new_game`: generate a puzzle, then run `solve` on a copy of
      it. The stored solution always keeps the puzzle's givens; when the seed
      was solvable it is a full valid grid, and it is the first such grid in
      row-major order, so it never comes after the grid the puzzle was cut from. */
  function NewGame(difficulty: int, perms: seq<seq<int>>, positions: seq<Pos>): (game: NewPuzzle)
    requires 0 <= difficulty < Levels
    requires |perms| == 3 && forall b :: 0 <= b < 3 ==> IsDigitPermutation(perms[b])
    requires IsPositionOrder(positions)
    ensures Valid(game.puzzle) && Extends(game.puzzle, game.solution)
    ensures SeedSolvable(perms) ==>
      && Solution(game.solution)
      && |ZeroSet(game.puzzle)| == CellsToRemove(difficulty)
      && RowMajorLeq(game.solution, Solve(FillDiagonal(Blank(), perms)).board)
  {
    var puzzle := GeneratePuzzle(difficulty, perms, positions);
    var solved := Solve(puzzle);
    ResolveFindsSolution(puzzle, Solve(FillDiagonal(Blank(), perms)).board);
    NewPuzzle(puzzle, solved.board)
  }

  /** Re-solving a puzzle cut from a full valid grid succeeds and ends no later
      than that grid. */
  lemma ResolveFindsSolution(puzzle: Grid, cut: Grid)
    requires Extends(puzzle, cut)
    ensures Solution(cut) ==> Solve(puzzle).solved && Solution(Solve(puzzle).board) && RowMajorLeq(Solve(puzzle).board, cut)
  {
    if Solution(cut) {
      SolveFindsSolution(puzzle, cut);
      SubBoardValid(puzzle, cut);
      SolveKeepsValid(puzzle);
    }
  }
}

/** The game logic of `SudokuBoard` with the widgets taken away: the board the
    player edits, the stored solution, the mistake and hint counters and the
    elapsed-seconds counter. Read-only widgets become an explicit set of fixed
    cells; signals and dialogs become flags in the returned `Events`; the
    periodic timer becomes a `Tick` the environment calls. */
module Session {
  import opened Boards
  import opened Validator

  /** The mistake count at which the game-over dialog is shown. */
  const MaxMistakes := 3

  datatype Game = Game(
    board: Grid,
    solution: Grid,
    fixed: set<Pos>,
    mistakes: nat,
    hintsUsed: nat,
    elapsed: nat,
    running: bool)

  /** What a handler raised: the game-over dialog (`show_game_over`) and the
      `puzzle_solved` signal. */
  datatype Events = Events(gameOver: bool, solved: bool)

  const Quiet := Events(false, false)

  /** A handler's result: the new state and what it raised. */
  datatype Step = Step(game: Game, events: Events)

  /** The cells holding a digit. */
  function Givens(g: Grid): set<Pos> {
    set r, c | 0 <= r < 9 && 0 <= c < 9 && g[r][c] != 0 :: Pos(r, c)
  }

  /** `is_solved`: every cell of the board equals the solution. */
  predicate IsSolved(s: Game) {
    forall r, c :: 0 <= r < 9 && 0 <= c < 9 ==> s.board[r][c] == s.solution[r][c]
  }

  /** `check_solution`'s verdict: every cell is empty or equals the solution. */
  predicate CheckSolution(s: Game) {
    forall r, c :: 0 <= r < 9 && 0 <= c < 9 ==> s.board[r][c] == s.solution[r][c] || s.board[r][c] == 0
  }

  /** The fixed cells (givens and hinted cells) hold their solution digit. */
  predicate Consistent(s: Game) {
    forall p :: p in s.fixed ==> InBounds(p) && s.board[p.row][p.col] == s.solution[p.row][p.col]
  }

  /** The text a cell shows for a digit, `str(d)`. */
  function DigitText(d: int): (t: string)
    requires 0 <= d <= 9
    ensures |t| == 1 && '0' <= t[0] <= '9'
  {
    [('0' as int + d) as char]
  }

  /** `int(text)` on a one-character digit text. */
  function DigitValue(t: string): (d: int)
    requires |t| == 1 && '0' <= t[0] <= '9'
    ensures 0 <= d <= 9
  {
    t[0] as int - '0' as int
  }

  /** Writing a digit and reading it back gives the digit. */
  lemma DigitRoundTrip(d: int)
    requires 0 <= d <= 9
    ensures DigitValue(DigitText(d)) == d
  {
  }

  /** What a cell's `textChanged` can carry: nothing, or one digit character
      (the widget keeps at most one character). */
  predicate CellText(t: string) {
    |t| == 0 || (|t| == 1 && '0' <= t[0] <= '9')
  }

  /** `load_puzzle`: copy the puzzle and the solution, reset the counters and
      start the clock; the cells holding a digit become fixed. */
  function Load(puzzle: Grid, solution: Grid): (s: Game)
    ensures s.board == puzzle && s.solution == solution
    ensures s.fixed == Givens(puzzle)
    ensures s.mistakes == 0 && s.hintsUsed == 0 && s.elapsed == 0 && s.running
    ensures Extends(puzzle, solution) ==> Consistent(s) && CheckSolution(s)
  {
    Game(puzzle, solution, Givens(puzzle), 0, 0, 0, true)
  }

  /** `start_timer`: the counter restarts from zero and runs. */
  function StartTimer(s: Game): (t: Game)
    ensures t.elapsed == 0 && t.running
  {
    s.(elapsed := 0, running := true)
  }

  /** `stop_timer`: the counter stops; its value is kept. */
  function StopTimer(s: Game): (t: Game)
    ensures !t.running
  {
    s.(running := false)
  }

  /** `update_timer`, fired each second while the timer runs: one more second. */
  function Tick(s: Game): (t: Game)
    ensures s.running ==> t == s.(elapsed := s.elapsed + 1)
    ensures !s.running ==> t == s
  {
    if s.running then s.(elapsed := s.elapsed + 1) else s
  }

  /** `update_timer` fired `k` times. */
  function Ticks(s: Game, k: nat): (t: Game)
    ensures t.board == s.board && t.mistakes == s.mistakes && t.running == s.running
    decreases k
  {
    if k == 0 then s else Ticks(Tick(s), k - 1)
  }

  /** After `start_timer`, the counter shows the number of seconds fired since. */
  lemma {:induction false} TimerCountsSeconds(s: Game, k: nat)
    ensures Ticks(StartTimer(s), k).elapsed == k
    ensures Ticks(StartTimer(s), k).board == s.board && Ticks(StartTimer(s), k).mistakes == s.mistakes
  {
    TicksAdd(StartTimer(s), k);
  }

  /** While the timer runs, `k` ticks add `k` seconds; while it is stopped they add none. */
  lemma {:induction false} TicksAdd(s: Game, k: nat)
    ensures Ticks(s, k).elapsed == s.elapsed + (if s.running then k else 0)
    decreases k
  {
    if k > 0 {
      TicksAdd(Tick(s), k - 1);
    }
  }

  /** `divmod(elapsed, 60)`: minutes and seconds of the clock label. */
  function Clock(elapsed: nat): (ms: (nat, nat))
    ensures 60 * ms.0 + ms.1 == elapsed && ms.1 < 60
  {
    (elapsed / 60, elapsed % 60)
  }

  /** `on_cell_changed(row, col, text)`. Empty text clears the cell and stops
      there. A digit is stored whether right or wrong; a wrong one counts a
      mistake, and from the third mistake on each wrong digit raises game
      over and stops the clock. Then, if the board now equals the solution,
      the clock stops and `puzzle_solved` is raised. */
  function CellChanged(s: Game, row: int, col: int, text: string): (st: Step)
    requires 0 <= row < 9 && 0 <= col < 9 && CellText(text)
    ensures text == "" ==> st == Step(s.(board := Put(s.board, row, col, 0)), Quiet)
    ensures text != "" ==> st.game.board == Put(s.board, row, col, DigitValue(text))
    ensures st.game.solution == s.solution && st.game.fixed == s.fixed
    ensures st.game.hintsUsed == s.hintsUsed && st.game.elapsed == s.elapsed
    ensures st.game.mistakes == s.mistakes + 1 <==> text != "" && DigitValue(text) != s.solution[row][col]
    ensures st.game.mistakes == s.mistakes || st.game.mistakes == s.mistakes + 1
    ensures st.events.gameOver <==> st.game.mistakes == s.mistakes + 1 && st.game.mistakes >= MaxMistakes
    ensures st.events.solved <==> text != "" && IsSolved(st.game)
    ensures st.game.running <==> s.running && !st.events.gameOver && !st.events.solved
  {
    if text == "" then Step(s.(board := Put(s.board, row, col, 0)), Quiet)
    else
      var value := DigitValue(text);
      var placed := s.(board := Put(s.board, row, col, value));
      var afterMistake :=
        if value == s.solution[row][col] then placed
        else placed.(mistakes := s.mistakes + 1);
      var gameOver := afterMistake.mistakes > s.mistakes && afterMistake.mistakes >= MaxMistakes;
      var afterGameOver := if gameOver then StopTimer(afterMistake) else afterMistake;
      var solved := IsSolved(afterGameOver);
      var final := if solved then StopTimer(afterGameOver) else afterGameOver;
      Step(final, Events(gameOver, solved))
  }

  /** A player typing into a cell: the widget is editable (the cell is not
      fixed) and the validator let the text through. */
  function PlayerEdit(s: Game, row: int, col: int, text: string): (st: Step)
    requires 0 <= row < 9 && 0 <= col < 9 && Pos(row, col) !in s.fixed
    requires |text| <= 1 && Validate(text)
    ensures Consistent(s) ==> Consistent(st.game)
    ensures forall r, c :: 0 <= r < 9 && 0 <= c < 9 && (r != row || c != col) ==>
      st.game.board[r][c] == s.board[r][c]
    ensures text != "" ==> 1 <= st.game.board[row][col] <= 9
  {
    ValidatedText(text);
    CellChanged(s, row, col, text)
  }

  /** Text the validator lets into a one-character cell is empty or a digit 1..9. */
  lemma ValidatedText(text: string)
    requires |text| <= 1 && Validate(text)
    ensures CellText(text)
    ensures text != "" ==> 1 <= DigitValue(text) <= 9
  {
    if text != "" {
      assert text == [text[0]];
      SingleCharacter(text[0]);
    }
  }

  /** `give_hint`. With no empty cell nothing happens. Otherwise one empty
      cell receives its solution digit through the same `textChanged` path as
      a player's entry, becomes read-only, and `hints_used` goes up by one.
      The cell is entry `pick % n` of the row-major list of the `n` empty
      cells, which holds each empty cell once, so every outcome of
      `random.choice` is reached by some `pick`. */
  function GiveHint(s: Game, pick: nat): (st: Step)
    ensures Complete(s.board) ==> st == Step(s, Quiet)
    ensures st.game.solution == s.solution && st.game.elapsed == s.elapsed
    ensures !Complete(s.board) ==>
      var p := EmptyCells(s.board)[pick % |EmptyCells(s.board)|];
      && InBounds(p) && s.board[p.row][p.col] == 0
      && st.game.board == Put(s.board, p.row, p.col, s.solution[p.row][p.col])
      && st.game.fixed == s.fixed + {p}
      && st.game.hintsUsed == s.hintsUsed + 1
      && st.game.mistakes == s.mistakes
      && !st.events.gameOver
      && (st.events.solved <==> IsSolved(st.game))
      && (st.game.running <==> s.running && !st.events.solved)
  {
    var cells := EmptyCells(s.board);
    if |cells| == 0 then Step(s, Quiet)
    else
      var p := cells[pick % |cells|];
      var digit := s.solution[p.row][p.col];
      DigitRoundTrip(digit);
      var shown := CellChanged(s, p.row, p.col, DigitText(digit));
      Step(shown.game.(fixed := s.fixed + {p}, hintsUsed := s.hintsUsed + 1), shown.events)
  }

  /** `is_solved` is board equality. */
  lemma IsSolvedIffEqual(s: Game)
    ensures IsSolved(s) <==> s.board == s.solution
  {
    if IsSolved(s) {
      CellwiseEqual(s.board, s.solution);
    }
  }

  /** A board that `check_solution` accepts and that has no empty cell is
      solved; a solved board with a full solution is accepted and full. */
  lemma CheckedAndFullIsSolved(s: Game)
    requires Complete(s.solution)
    ensures IsSolved(s) <==> CheckSolution(s) && Complete(s.board)
  {
  }

  /** A hint keeps the fixed cells right, keeps `check_solution` happy, and on
      a board that had an empty cell leaves one empty cell fewer when the
      solution is full. */
  lemma HintProgress(s: Game, pick: nat)
    requires Consistent(s)
    ensures Consistent(GiveHint(s, pick).game)
    ensures CheckSolution(s) ==> CheckSolution(GiveHint(s, pick).game)
    ensures Complete(s.solution) && !Complete(s.board) ==>
      |ZeroSet(GiveHint(s, pick).game.board)| == |ZeroSet(s.board)| - 1
  {
    if !Complete(s.board) {
      var cells := EmptyCells(s.board);
      var p := cells[pick % |cells|];
      var t := GiveHint(s, pick).game;
      HintedCell(s, p, t);
      if Complete(s.solution) {
        PutFillsOne(s.board, p.row, p.col, s.solution[p.row][p.col]);
      }
    }
  }

  /** Writing an empty cell's solution digit and fixing that cell keeps the
      fixed cells right and keeps `check_solution` happy. */
  lemma HintedCell(s: Game, p: Pos, t: Game)
    requires Consistent(s) && InBounds(p) && s.board[p.row][p.col] == 0
    requires t.board == Put(s.board, p.row, p.col, s.solution[p.row][p.col])
    requires t.solution == s.solution && t.fixed == s.fixed + {p}
    ensures Consistent(t)
    ensures CheckSolution(s) ==> CheckSolution(t)
  {
  }

  /** A cell the player got wrong: it holds a digit other than the solution's. */
  predicate Wrong(s: Game, r: int, c: int)
    requires 0 <= r < 9 && 0 <= c < 9
  {
    s.board[r][c] != 0 && s.board[r][c] != s.solution[r][c]
  }

  /** `check_solution` passes exactly when no cell is wrong. */
  lemma CheckSolutionNoWrong(s: Game)
    ensures CheckSolution(s) <==> forall r, c :: 0 <= r < 9 && 0 <= c < 9 ==> !Wrong(s, r, c)
  {
    if forall r, c :: 0 <= r < 9 && 0 <= c < 9 ==> !Wrong(s, r, c) {
      forall r, c | 0 <= r < 9 && 0 <= c < 9
        ensures s.board[r][c] == s.solution[r][c] || s.board[r][c] == 0
      {
        assert !Wrong(s, r, c);
      }
    }
  }

  /** One press of Hint on a board with an empty cell and a full solution:
      one empty cell fewer, the wrong cells stay exactly the wrong cells, the
      counters move as `give_hint` moves them, and the clock stops iff the
      press solves the board. */
  lemma HintStep(t: Game, pick: nat)
    requires Complete(t.solution) && !Complete(t.board)
    ensures var u := GiveHint(t, pick).game;
      && u.solution == t.solution && u.mistakes == t.mistakes && u.hintsUsed == t.hintsUsed + 1
      && |ZeroSet(u.board)| == |ZeroSet(t.board)| - 1
      && (forall r, c :: 0 <= r < 9 && 0 <= c < 9 ==> (Wrong(u, r, c) <==> Wrong(t, r, c)))
      && (Consistent(t) ==> Consistent(u))
      && (u.running <==> t.running && !IsSolved(u))
  {
    var cells := EmptyCells(t.board);
    var p := cells[pick % |cells|];
    var u := GiveHint(t, pick).game;
    PutFillsOne(t.board, p.row, p.col, t.solution[p.row][p.col]);
    HintedKeepsWrong(t, p, u);
    if Consistent(t) {
      HintedCell(t, p, u);
    }
  }

  /** Writing an empty cell's solution digit neither creates nor removes a wrong cell. */
  lemma HintedKeepsWrong(s: Game, p: Pos, t: Game)
    requires InBounds(p) && s.board[p.row][p.col] == 0
    requires t.board == Put(s.board, p.row, p.col, s.solution[p.row][p.col])
    requires t.solution == s.solution
    ensures forall r, c :: 0 <= r < 9 && 0 <= c < 9 ==> (Wrong(t, r, c) <==> Wrong(s, r, c))
  {
  }

  /** Pressing Hint until the board is full, the `i`-th press choosing its
      cell by `picks[i]`, whatever those choices are. The presses always end
      with the board full, one hint counted per cell that was empty and no
      mistake counted. The board ends solved exactly when the player had
      entered no wrong digit; then the last press stopped the clock, and
      otherwise the clock runs on as before. */
  method HintUntilFull(s: Game, picks: seq<nat>) returns (t: Game)
    requires Complete(s.solution)
    requires |picks| >= |ZeroSet(s.board)|
    ensures Complete(t.board)
    ensures IsSolved(t) <==> CheckSolution(s)
    ensures Consistent(s) ==> Consistent(t)
    ensures t.hintsUsed == s.hintsUsed + |ZeroSet(s.board)|
    ensures t.mistakes == s.mistakes && t.solution == s.solution
    ensures t.running <==> s.running && !(|ZeroSet(s.board)| > 0 && CheckSolution(s))
  {
    t := s;
    var i := 0;
    while !Complete(t.board)
      invariant t.solution == s.solution && t.mistakes == s.mistakes
      invariant forall r, c :: 0 <= r < 9 && 0 <= c < 9 ==> (Wrong(t, r, c) <==> Wrong(s, r, c))
      invariant Consistent(s) ==> Consistent(t)
      invariant 0 <= i && i + |ZeroSet(t.board)| == |ZeroSet(s.board)|
      invariant t.hintsUsed == s.hintsUsed + i
      invariant t.running <==> s.running && !(i > 0 && IsSolved(t))
      decreases |ZeroSet(t.board)|
    {
      var r, c :| 0 <= r < 9 && 0 <= c < 9 && t.board[r][c] == 0;
      ZeroSetMember(t.board, Pos(r, c));
      assert !IsSolved(t);
      HintStep(t, picks[i]);
      t := GiveHint(t, picks[i]).game;
      i := i + 1;
    }
    FullBoardEmptySet(t.board);
    CheckSolutionNoWrong(s);
    CheckSolutionNoWrong(t);
    CheckedAndFullIsSolved(t);
  }

  /** A full board has no empty cell. */
  lemma FullBoardEmptySet(g: Grid)
    requires Complete(g)
    ensures |ZeroSet(g)| == 0
  {
    assert ZeroSet(g) == {} by {
      forall p | p in ZeroSet(g) ensures false {
        ZeroSetMember(g, p);
      }
    }
  }

  /** Game over does not end the game: from three mistakes on, every wrong
      digit is stored, counts another mistake and raises game over again,
      and a right digit is stored without a mistake. */
  lemma GameOverNotTerminal(s: Game, row: int, col: int, d: int)
    requires 0 <= row < 9 && 0 <= col < 9 && 1 <= d <= 9
    requires s.mistakes >= MaxMistakes
    ensures var st := CellChanged(s, row, col, DigitText(d));
      && st.game.board[row][col] == d
      && (d != s.solution[row][col] ==> st.game.mistakes == s.mistakes + 1 && st.events.gameOver)
      && (d == s.solution[row][col] ==> st.game.mistakes == s.mistakes && !st.events.gameOver)
  {
    DigitRoundTrip(d);
  }

  /** The third wrong digit of a fresh game raises game over and stops the
      clock, which then no longer advances. */
  lemma ThirdMistakeStopsClock(s: Game, row: int, col: int, d: int)
    requires 0 <= row < 9 && 0 <= col < 9 && 1 <= d <= 9
    requires s.mistakes == 2 && d != s.solution[row][col]
    ensures var st := CellChanged(s, row, col, DigitText(d));
      && st.events.gameOver && st.game.mistakes == 3
      && !st.game.running && Tick(st.game).elapsed == s.elapsed
  {
    DigitRoundTrip(d);
  }

  /** `load_puzzle` shows each given with `setText`, which runs the handler
      with the given's own digit. On a puzzle whose solution keeps the givens
      and that is not yet solved, that echo changes nothing and raises nothing. */
  lemma GivenEchoHarmless(s: Game, p: Pos)
    requires InBounds(p) && s.board[p.row][p.col] != 0
    requires s.board[p.row][p.col] == s.solution[p.row][p.col]
    requires !IsSolved(s)
    ensures CellChanged(s, p.row, p.col, DigitText(s.board[p.row][p.col])) ==
      Step(s, Quiet)
  {
    DigitRoundTrip(s.board[p.row][p.col]);
    PutSame(s.board, p.row, p.col);
  }

  /** The one case where the echo is not harmless: on a board that already
      equals the solution, showing a given stops the clock and raises
      `puzzle_solved`. */
  lemma GivenEchoOnSolved(s: Game, p: Pos)
    requires InBounds(p) && s.board[p.row][p.col] != 0
    requires IsSolved(s)
    ensures CellChanged(s, p.row, p.col, DigitText(s.board[p.row][p.col])) ==
      Step(s.(running := false), Events(false, true))
  {
    DigitRoundTrip(s.board[p.row][p.col]);
    PutSame(s.board, p.row, p.col);
  }
}

/** The game state of the puzzle screen: the board, the region grid, the
    stored solution and the `won` flag, with the three actions that change
    them (start a game, tap a cell, reveal the solution). */
module App {
  import opened Puzzle
  import opened SolutionGen
  import opened Rules

  /** Any two queens on the board differ in row, column and region, and are
      more than one king move apart. */
  ghost predicate NoConflicts(board: Board, regions: RegionGrid)
    requires IsGrid(board) && IsGrid(regions)
  {
    forall i, j, k, l :: QueenPair(board, i, j, k, l) ==>
      && i != k && j != l && regions[i][j] != regions[k][l]
      && Chebyshev(Queen(i, j), Queen(k, l)) > 1
  }

  lemma EmptyBoardNoConflicts(regions: RegionGrid)
    requires IsGrid(regions)
    ensures NoConflicts(CreateEmptyBoard(), regions)
  {
  }

  /** The board after one tap at (r, c) in a game not yet won: the cell
      cycles empty -> x -> queen -> empty, the x -> queen step only when the
      move validator accepts it on the board before the tap. */
  function Tapped(board: Board, regions: RegionGrid, r: int, c: int): (after: Board)
    requires IsGrid(board) && IsGrid(regions) && InBounds(r, c)
    ensures IsGrid(after)
    ensures forall i, j :: InBounds(i, j) && (i, j) != (r, c) ==> after[i][j] == board[i][j]
    ensures board[r][c] == EmptyCell ==> after[r][c] == XCell
    ensures board[r][c] == XCell ==>
              after[r][c] == (if MoveAllowed(board, regions, r, c) then QueenCell else XCell)
    ensures board[r][c] == QueenCell ==> after[r][c] == EmptyCell
  {
    var cell := match board[r][c]
      case EmptyCell => XCell
      case XCell => if MoveAllowed(board, regions, r, c) then QueenCell else XCell
      case QueenCell => EmptyCell;
    board[r := board[r][c := cell]]
  }

  /** A tap never brings two queens into conflict. */
  lemma TapKeepsNoConflicts(board: Board, regions: RegionGrid, r: int, c: int)
    requires IsGrid(board) && IsGrid(regions) && InBounds(r, c)
    requires NoConflicts(board, regions)
    ensures NoConflicts(Tapped(board, regions, r, c), regions)
  {
    var after := Tapped(board, regions, r, c);
    forall i, j, k, l | QueenPair(after, i, j, k, l)
      ensures && i != k && j != l && regions[i][j] != regions[k][l]
              && Chebyshev(Queen(i, j), Queen(k, l)) > 1
    {
      if (i, j) == (r, c) {
        assert board[k][l] == QueenCell;
        assert !Blocks(board, regions, r, c, k, l);
      } else if (k, l) == (r, c) {
        assert board[i][j] == QueenCell;
        assert !Blocks(board, regions, r, c, i, j);
      } else {
        assert QueenPair(board, i, j, k, l);
      }
    }
  }

  /** The board reached from `board` by the taps in order; once the board is
      won, the remaining taps are ignored. */
  ghost function Replay(board: Board, regions: RegionGrid, taps: seq<(int, int)>): (b: Board)
    requires IsGrid(board) && IsGrid(regions)
    requires forall t :: t in taps ==> InBounds(t.0, t.1)
    ensures IsGrid(b)
    decreases |taps|
  {
    if taps == [] || IsWin(board, regions) then board
    else Replay(Tapped(board, regions, taps[0].0, taps[0].1), regions, taps[1..])
  }

  lemma {:induction false} ReplayKeepsNoConflicts(board: Board, regions: RegionGrid, taps: seq<(int, int)>)
    requires IsGrid(board) && IsGrid(regions)
    requires forall t :: t in taps ==> InBounds(t.0, t.1)
    requires NoConflicts(board, regions)
    ensures NoConflicts(Replay(board, regions, taps), regions)
    decreases |taps|
  {
    if taps != [] && !IsWin(board, regions) {
      TapKeepsNoConflicts(board, regions, taps[0].0, taps[0].1);
      assert forall t :: t in taps[1..] ==> t in taps;
      ReplayKeepsNoConflicts(Tapped(board, regions, taps[0].0, taps[0].1), regions, taps[1..]);
    }
  }

  /** Every board reached by taps from the empty board has its queens in
      distinct rows, columns and regions, none touching another. */
  lemma ReachableBoardsConflictFree(regions: RegionGrid, taps: seq<(int, int)>)
    requires IsGrid(regions)
    requires forall t :: t in taps ==> InBounds(t.0, t.1)
    ensures NoConflicts(Replay(CreateEmptyBoard(), regions, taps), regions)
  {
    ReplayKeepsNoConflicts(CreateEmptyBoard(), regions, taps);
  }

  /** The region ids at the queens of a solution, in row order. */
  function SolutionRegionIds(sol: seq<Queen>, regions: RegionGrid): (ids: seq<int>)
    requires IsSolution(sol) && IsGrid(regions)
    ensures |ids| == SIZE
    ensures forall k :: 0 <= k < SIZE ==> ids[k] == regions[sol[k].row][sol[k].col]
  {
    seq(SIZE, k requires 0 <= k < SIZE => regions[sol[k].row][sol[k].col])
  }

  /** board shows the queens of sol and nothing else. */
  ghost predicate ShowsSolution(board: Board, sol: seq<Queen>)
    requires IsGrid(board)
  {
    forall i, j :: InBounds(i, j) ==> board[i][j] == (if Queen(i, j) in sol then QueenCell else EmptyCell)
  }

  /** The revealed solution is a won board without conflicts, provided its
      queens lie in pairwise distinct regions (what `startGame` ensures). */
  lemma SolvedBoardWins(board: Board, regions: RegionGrid, sol: seq<Queen>)
    requires IsGrid(board) && IsGrid(regions)
    requires IsSolution(sol) && Distinct(SolutionRegionIds(sol, regions))
    requires ShowsSolution(board, sol)
    ensures IsWin(board, regions) && NoConflicts(board, regions)
  {
    var ids := SolutionRegionIds(sol, regions);
    var cells := seq(SIZE, k requires 0 <= k < SIZE => (sol[k].row, sol[k].col));
    forall p: (int, int) ensures p in cells <==> InBounds(p.0, p.1) && board[p.0][p.1] == QueenCell {
      if p in cells {
        var k :| 0 <= k < SIZE && cells[k] == p;
        assert sol[k] == Queen(p.0, p.1);
      }
      if InBounds(p.0, p.1) && board[p.0][p.1] == QueenCell {
        assert Queen(p.0, p.1) in sol;
        var k :| 0 <= k < SIZE && sol[k] == Queen(p.0, p.1);
        assert cells[k] == p;
      }
    }
    assert ListsQueens(board, cells);
    ListedQueensCount(board, cells);
    forall i, j, k, l | QueenPair(board, i, j, k, l)
      ensures && i != k && j != l && regions[i][j] != regions[k][l]
              && Chebyshev(Queen(i, j), Queen(k, l)) > 1
    {
      assert Queen(i, j) in sol && Queen(k, l) in sol;
      var a :| 0 <= a < SIZE && sol[a] == Queen(i, j);
      var b :| 0 <= b < SIZE && sol[b] == Queen(k, l);
      if a < b {
        assert NonAttacking(sol[a], sol[b]) && ids[a] != ids[b];
      } else {
        assert NonAttacking(sol[b], sol[a]) && ids[b] != ids[a];
      }
    }
  }

  /** One pass of the `startGame` loop: the search's random draws and the
      region grid produced beside them. */
  datatype Attempt = Attempt(draws: Draws, regions: RegionGrid)

  /** The loop guard of `startGame` is false for this attempt: its solution's
      queens stand in pairwise distinct regions. */
  ghost predicate Compatible(a: Attempt)
    requires IsGrid(a.regions)
  {
    Distinct(SolutionRegionIds(Solve(a.draws), a.regions))
  }

  /** The `new Set(...).size !== SIZE` loop guard is false exactly for a
      compatible attempt. */
  lemma GuardMeansCompatible(a: Attempt)
    requires IsGrid(a.regions)
    ensures |Elems(SolutionRegionIds(Solve(a.draws), a.regions))| == SIZE <==> Compatible(a)
  {
    ElemsSize(SolutionRegionIds(Solve(a.draws), a.regions));
  }

  /** The attempts of one run of the `startGame` loop: every region grid is a
      board-sized grid, and the last attempt ends the loop. */
  ghost predicate Startable(attempts: seq<Attempt>) {
    && |attempts| > 0
    && (forall k :: 0 <= k < |attempts| ==> IsGrid(attempts[k].regions))
    && Compatible(attempts[|attempts| - 1])
  }

  class Game {
    var board: Board
    var regions: RegionGrid
    var solution: seq<Queen>
    var won: bool

    /** The state a running game keeps: a stored solution whose queens lie in
        distinct regions, a board without conflicting queens, and `won` set
        exactly when the board is a win. */
    ghost predicate Valid()
      reads this
    {
      && IsGrid(board) && IsGrid(regions)
      && IsSolution(solution) && Distinct(SolutionRegionIds(solution, regions))
      && NoConflicts(board, regions)
      && (won <==> IsWin(board, regions))
    }

    /** Mounting the screen: the state starts empty and `startGame` runs. */
    constructor (attempts: seq<Attempt>)
      requires Startable(attempts)
      ensures Valid() && board == CreateEmptyBoard() && !won
      ensures exists u :: 0 <= u < |attempts| && (forall k :: 0 <= k < u ==> !Compatible(attempts[k]))
                && solution == Solve(attempts[u].draws) && regions == attempts[u].regions
    {
      board, regions, solution, won := [], [], [], false;
      new;
      var u := StartGame(attempts);
    }

    /** `startGame`: draws a solution and a region grid until the solution's
        queens fall in SIZE distinct regions, then stores both with an empty
        board. Returns the index of the attempt that was kept. */
    method StartGame(attempts: seq<Attempt>) returns (used: nat)
      requires Startable(attempts)
      modifies this
      ensures used < |attempts|
      ensures forall k :: 0 <= k < used ==> !Compatible(attempts[k])
      ensures solution == Solve(attempts[used].draws) && regions == attempts[used].regions
      ensures Distinct(SolutionRegionIds(solution, regions))
      ensures board == CreateEmptyBoard() && !won
      ensures Valid()
    {
      var sol: seq<Queen> := [];
      var reg: RegionGrid := [];
      used := 0;
      while true
        invariant used < |attempts|
        invariant forall k :: 0 <= k < used ==> !Compatible(attempts[k])
        decreases |attempts| - used
      {
        sol := Solve(attempts[used].draws);
        reg := attempts[used].regions;
        GuardMeansCompatible(attempts[used]);
        if |Elems(SolutionRegionIds(sol, reg))| == SIZE {
          break;
        }
        assert used != |attempts| - 1;
        used := used + 1;
      }
      solution := sol;
      regions := reg;
      board := CreateEmptyBoard();
      won := false;
      EmptyBoardNotWon(regions);
      EmptyBoardNoConflicts(regions);
    }

    /** `handleTap(r, c)`. */
    method HandleTap(r: int, c: int)
      requires Valid() && InBounds(r, c)
      modifies this
      ensures Valid()
      ensures regions == old(regions) && solution == old(solution)
      ensures old(won) ==> board == old(board) && won
      ensures !old(won) ==> board == Tapped(old(board), regions, r, c)
      ensures !old(won) ==> (won <==> IsWin(board, regions))
    {
      if won {
        return;
      }
      var newBoard := board;
      var cell := newBoard[r][c];
      if cell == EmptyCell {
        newBoard := newBoard[r := newBoard[r][c := XCell]];
      } else if cell == XCell {
        var ok := IsValidMove(board, regions, r, c);
        if ok {
          newBoard := newBoard[r := newBoard[r][c := QueenCell]];
        } else {
          assert board[r][c := XCell] == board[r];
          assert board[r := board[r][c := XCell]] == board;
        }
      } else {
        newBoard := newBoard[r := newBoard[r][c := EmptyCell]];
      }
      assert newBoard == Tapped(board, regions, r, c);
      TapKeepsNoConflicts(board, regions, r, c);
      board := newBoard;
      var w := CheckWin(newBoard, regions);
      if w {
        won := true;
      }
    }

    /** `solvePuzzle`: shows the stored solution on an otherwise empty board
        and marks the game won. */
    method SolvePuzzle()
      requires Valid()
      modifies this
      ensures Valid() && won && IsWin(board, regions)
      ensures regions == old(regions) && solution == old(solution)
      ensures ShowsSolution(board, solution)
    {
      var solved := CreateEmptyBoard();
      for k := 0 to |solution|
        invariant IsGrid(solved)
        invariant forall i, j :: InBounds(i, j) ==>
                    solved[i][j] == (if Queen(i, j) in solution[..k] then QueenCell else EmptyCell)
      {
        var q := solution[k];
        assert solution[..k + 1] == solution[..k] + [q];
        solved := solved[q.row := solved[q.row][q.col := QueenCell]];
      }
      assert solution[..|solution|] == solution;
      board := solved;
      won := true;
      SolvedBoardWins(board, regions, solution);
    }
  }
}

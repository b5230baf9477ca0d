/** The play-time predicates of the puzzle engine: the empty board, the
    move validator and the win checker. */
module Rules {
  import opened Puzzle

  /** `createEmptyBoard`. */
  function CreateEmptyBoard(): (b: Board)
    ensures IsGrid(b)
    ensures forall r, c :: InBounds(r, c) ==> b[r][c] == EmptyCell
  {
    seq(SIZE, _ => seq(SIZE, _ => EmptyCell))
  }

  /** A queen at (i, j) forbids a queen at (r, c): same row, same column,
      same region, or within the 3x3 block around (r, c). */
  predicate Blocks(board: Board, regions: RegionGrid, r: int, c: int, i: int, j: int)
    requires IsGrid(board) && IsGrid(regions) && InBounds(r, c) && InBounds(i, j)
  {
    && board[i][j] == QueenCell
    && (i == r || j == c || regions[i][j] == regions[r][c] || (Abs(i - r) <= 1 && Abs(j - c) <= 1))
  }

  /** No queen on the board forbids a queen at (r, c). */
  predicate MoveAllowed(board: Board, regions: RegionGrid, r: int, c: int)
    requires IsGrid(board) && IsGrid(regions) && InBounds(r, c)
  {
    forall i, j :: 0 <= i < SIZE && 0 <= j < SIZE ==> !Blocks(board, regions, r, c, i, j)
  }

  /** `isValidMove`: three read-only scans with early returns. */
  method IsValidMove(board: Board, regions: RegionGrid, r: int, c: int) returns (ok: bool)
    requires IsGrid(board) && IsGrid(regions) && InBounds(r, c)
    ensures ok <==> MoveAllowed(board, regions, r, c)
  {
    for i := 0 to SIZE
      invariant forall k :: 0 <= k < i ==> board[r][k] != QueenCell && board[k][c] != QueenCell
    {
      if board[r][i] == QueenCell {
        assert Blocks(board, regions, r, c, r, i);
        return false;
      }
      if board[i][c] == QueenCell {
        assert Blocks(board, regions, r, c, i, c);
        return false;
      }
    }

    var region := regions[r][c];
    for i := 0 to SIZE
      invariant forall a, b :: 0 <= a < i && 0 <= b < SIZE ==>
                  !(regions[a][b] == region && board[a][b] == QueenCell)
    {
      for j := 0 to SIZE
        invariant forall a, b :: (0 <= a < i && 0 <= b < SIZE) || (a == i && 0 <= b < j) ==>
                    !(regions[a][b] == region && board[a][b] == QueenCell)
      {
        if regions[i][j] == region && board[i][j] == QueenCell {
          assert Blocks(board, regions, r, c, i, j);
          return false;
        }
      }
    }

    for dr := -1 to 2
      invariant forall a, b :: InBounds(a, b) && r - 1 <= a < r + dr && c - 1 <= b <= c + 1 ==>
                  board[a][b] != QueenCell
    {
      for dc := -1 to 2
        invariant forall a, b ::
                    InBounds(a, b) &&
                    ((r - 1 <= a < r + dr && c - 1 <= b <= c + 1) || (a == r + dr && c - 1 <= b < c + dc))
                    ==> board[a][b] != QueenCell
      {
        var nr, nc := r + dr, c + dc;
        if nr >= 0 && nc >= 0 && nr < SIZE && nc < SIZE {
          if board[nr][nc] == QueenCell {
            assert Blocks(board, regions, r, c, nr, nc);
            return false;
          }
        }
      }
    }

    return true;
  }

  /** The cells holding a queen. */
  ghost function QueenCells(board: Board): set<(int, int)>
    requires IsGrid(board)
  {
    set i, j | 0 <= i < SIZE && 0 <= j < SIZE && board[i][j] == QueenCell :: (i, j)
  }

  /** (i, j) and (k, l) are two different cells both holding a queen. */
  predicate QueenPair(board: Board, i: int, j: int, k: int, l: int)
    requires IsGrid(board)
  {
    InBounds(i, j) && InBounds(k, l) && (i, j) != (k, l) &&
    board[i][j] == QueenCell && board[k][l] == QueenCell
  }

  /** Any two queens on the board differ in row, column and region. */
  ghost predicate DistinctLines(board: Board, regions: RegionGrid)
    requires IsGrid(board) && IsGrid(regions)
  {
    forall i, j, k, l :: QueenPair(board, i, j, k, l) ==>
      i != k && j != l && regions[i][j] != regions[k][l]
  }

  /** A won board: exactly SIZE queens, pairwise in different rows, columns
      and regions. Adjacency is not part of it. */
  ghost predicate IsWin(board: Board, regions: RegionGrid)
    requires IsGrid(board) && IsGrid(regions)
  {
    |QueenCells(board)| == SIZE && DistinctLines(board, regions)
  }

  /** queens names every queen cell of the board, each once. */
  ghost predicate ListsQueens(board: Board, queens: seq<(int, int)>)
    requires IsGrid(board)
  {
    && (forall p :: p in queens <==> InBounds(p.0, p.1) && board[p.0][p.1] == QueenCell)
    && Distinct(queens)
  }

  /** The rows, columns and region ids of a list of cells. */
  function Rows(queens: seq<(int, int)>): (s: seq<int>)
    ensures |s| == |queens| && forall k :: 0 <= k < |queens| ==> s[k] == queens[k].0
  {
    seq(|queens|, k requires 0 <= k < |queens| => queens[k].0)
  }

  function Cols(queens: seq<(int, int)>): (s: seq<int>)
    ensures |s| == |queens| && forall k :: 0 <= k < |queens| ==> s[k] == queens[k].1
  {
    seq(|queens|, k requires 0 <= k < |queens| => queens[k].1)
  }

  function RegionIds(regions: RegionGrid, queens: seq<(int, int)>): (s: seq<int>)
    requires IsGrid(regions)
    requires forall k :: 0 <= k < |queens| ==> 0 <= queens[k].0 < SIZE && 0 <= queens[k].1 < SIZE
    ensures |s| == |queens|
    ensures forall k :: 0 <= k < |queens| ==> s[k] == regions[queens[k].0][queens[k].1]
  {
    seq(|queens|, k requires 0 <= k < |queens| => regions[queens[k].0][queens[k].1])
  }

  /** `checkWin`: collects the queens row by row, then compares the sizes of
      the sets of their rows, columns and region ids with SIZE. */
  method CheckWin(board: Board, regions: RegionGrid) returns (win: bool)
    requires IsGrid(board) && IsGrid(regions)
    ensures win <==> IsWin(board, regions)
  {
    var queens: seq<(int, int)> := [];
    for r := 0 to SIZE
      invariant forall p :: p in queens <==>
                  InBounds(p.0, p.1) && p.0 < r && board[p.0][p.1] == QueenCell
      invariant Distinct(queens)
    {
      for c := 0 to SIZE
        invariant forall p :: p in queens <==>
                    InBounds(p.0, p.1) && (p.0 < r || (p.0 == r && p.1 < c)) && board[p.0][p.1] == QueenCell
        invariant Distinct(queens)
      {
        if board[r][c] == QueenCell {
          queens := queens + [(r, c)];
        }
      }
    }

    ListedQueens(board, regions, queens);
    if |queens| != SIZE {
      return false;
    }
    var rows := Elems(Rows(queens));
    var cols := Elems(Cols(queens));
    var regs := Elems(RegionIds(regions, queens));
    win := |rows| == SIZE && |cols| == SIZE && |regs| == SIZE;
  }

  /** For a list naming every queen cell once, IsWin is the source's test:
      SIZE queens, and SIZE distinct rows, columns and region ids. */
  lemma ListedQueens(board: Board, regions: RegionGrid, queens: seq<(int, int)>)
    requires IsGrid(board) && IsGrid(regions)
    requires ListsQueens(board, queens)
    ensures |queens| == |QueenCells(board)|
    ensures IsWin(board, regions) <==>
      && |queens| == SIZE
      && |Elems(Rows(queens))| == SIZE
      && |Elems(Cols(queens))| == SIZE
      && |Elems(RegionIds(regions, queens))| == SIZE
  {
    ListedQueensCount(board, queens);
    ListedQueensLines(board, regions, queens);
    ElemsSize(Rows(queens));
    ElemsSize(Cols(queens));
    ElemsSize(RegionIds(regions, queens));
  }

  lemma ListedQueensCount(board: Board, queens: seq<(int, int)>)
    requires IsGrid(board) && ListsQueens(board, queens)
    ensures |queens| == |QueenCells(board)|
  {
    assert Elems(queens) == QueenCells(board);
    ElemsSize(queens);
  }

  lemma ListedQueensLines(board: Board, regions: RegionGrid, queens: seq<(int, int)>)
    requires IsGrid(board) && IsGrid(regions) && ListsQueens(board, queens)
    ensures DistinctLines(board, regions) <==>
      Distinct(Rows(queens)) && Distinct(Cols(queens)) && Distinct(RegionIds(regions, queens))
  {
    var n := |queens|;
    var rows, cols, regs := Rows(queens), Cols(queens), RegionIds(regions, queens);
    if Distinct(rows) && Distinct(cols) && Distinct(regs) {
      forall i, j, k, l | QueenPair(board, i, j, k, l)
        ensures i != k && j != l && regions[i][j] != regions[k][l]
      {
        assert (i, j) in queens && (k, l) in queens;
        var a :| 0 <= a < n && queens[a] == (i, j);
        var b :| 0 <= b < n && queens[b] == (k, l);
        if a < b {
          assert rows[a] != rows[b] && cols[a] != cols[b] && regs[a] != regs[b];
        } else {
          assert rows[b] != rows[a] && cols[b] != cols[a] && regs[b] != regs[a];
        }
      }
    }
    if DistinctLines(board, regions) {
      forall a, b | 0 <= a < b < n
        ensures rows[a] != rows[b] && cols[a] != cols[b] && regs[a] != regs[b]
      {
        assert queens[a] in queens && queens[b] in queens;
        assert QueenPair(board, queens[a].0, queens[a].1, queens[b].0, queens[b].1);
      }
    }
  }

  /** `checkWin(createEmptyBoard(), regions)` is false. */
  lemma EmptyBoardNotWon(regions: RegionGrid)
    requires IsGrid(regions)
    ensures !IsWin(CreateEmptyBoard(), regions)
  {
    assert QueenCells(CreateEmptyBoard()) == {};
  }

  /** With a queen at (0, 0), a queen at (1, 1) is refused, being
      both on its diagonal and next to it. */
  lemma DiagonalNeighbourRefused(board: Board, regions: RegionGrid)
    requires IsGrid(board) && IsGrid(regions)
    requires board[0][0] == QueenCell
    ensures !MoveAllowed(board, regions, 1, 1)
  {
    assert Blocks(board, regions, 1, 1, 0, 0);
  }

  /** The validator does not look at diagonals beyond the 3x3 block: on the
      board whose only queen is at (0, 0), with one region per row, a queen
      at (2, 2) on the same diagonal is accepted. */
  lemma DistantDiagonalAllowed()
    ensures var board := CreateEmptyBoard()[0 := CreateEmptyBoard()[0][0 := QueenCell]];
            var regions := seq(SIZE, r => seq(SIZE, _ => r));
            MoveAllowed(board, regions, 2, 2)
  {
    var board := CreateEmptyBoard()[0 := CreateEmptyBoard()[0][0 := QueenCell]];
    var regions := seq(SIZE, r => seq(SIZE, _ => r));
    forall i, j | InBounds(i, j) ensures !Blocks(board, regions, 2, 2, i, j) {
      if (i, j) != (0, 0) {
        assert board[i][j] == EmptyCell;
      }
    }
  }

  /** The win check ignores adjacency: queens on the main diagonal, with
      one region per row, win although the queens at (0, 0) and (1, 1)
      touch. */
  lemma WinIgnoresAdjacency(board: Board, regions: RegionGrid)
    requires IsGrid(board) && IsGrid(regions)
    requires forall r, c :: InBounds(r, c) ==>
               board[r][c] == (if r == c then QueenCell else EmptyCell) && regions[r][c] == r
    ensures IsWin(board, regions)
    ensures board[0][0] == QueenCell && board[1][1] == QueenCell
  {
    var diagonal := seq(SIZE, k => (k, k));
    forall p: (int, int) ensures p in diagonal <==> InBounds(p.0, p.1) && board[p.0][p.1] == QueenCell {
      if InBounds(p.0, p.1) && board[p.0][p.1] == QueenCell {
        assert diagonal[p.0] == p;
      }
    }
    assert ListsQueens(board, diagonal);
    ListedQueens(board, regions, diagonal);
    ElemsSize(Rows(diagonal));
    ElemsSize(Cols(diagonal));
    ElemsSize(RegionIds(regions, diagonal));
  }
}

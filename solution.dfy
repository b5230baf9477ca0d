/** The solution search of the puzzle engine: the placement rule, the
    Fisher-Yates shuffle of the column order, and the depth-first
    backtracking that places one queen per row. */
module SolutionGen {
  import opened Puzzle

  /** The four conditions two queens of a solution must meet: different
      rows, different columns, different diagonals, and more than one king
      move apart. */
  predicate NonAttacking(a: Queen, b: Queen) {
    && a.row != b.row
    && a.col != b.col
    && Abs(a.row - b.row) != Abs(a.col - b.col)
    && Chebyshev(a, b) > 1
  }

  /** A solution: SIZE queens, queen i in row i and on the board, pairwise
      non-attacking. */
  predicate IsSolution(s: seq<Queen>) {
    && |s| == SIZE
    && (forall i :: 0 <= i < SIZE ==> s[i].row == i && 0 <= s[i].col < SIZE)
    && (forall i, j :: 0 <= i < j < SIZE ==> NonAttacking(s[i], s[j]))
  }

  /** The test run on each placed queen by `placed.some(...)`: true when q
      rules the candidate out. */
  predicate Clashes(q: Queen, candidate: Queen) {
    if q.row == candidate.row then true
    else if q.col == candidate.col then true
    else if Abs(q.row - candidate.row) == Abs(q.col - candidate.col) then true
    else if Abs(q.row - candidate.row) <= 1 && Abs(q.col - candidate.col) <= 1 then true
    else false
  }

  /** The placement rule: no placed queen clashes with the candidate. */
  function IsSafeClassic(placed: seq<Queen>, candidate: Queen): (safe: bool)
    ensures safe <==> forall i :: 0 <= i < |placed| ==> NonAttacking(placed[i], candidate)
  {
    if placed == [] then true
    else !Clashes(placed[0], candidate) && IsSafeClassic(placed[1..], candidate)
  }

  /** The king-adjacency test never decides anything on its own: two queens
      in different rows and columns that are one king move apart share a
      diagonal. */
  lemma AdjacencyImpliedByDiagonal(a: Queen, b: Queen)
    requires a.row != b.row && a.col != b.col
    ensures Chebyshev(a, b) <= 1 ==> Abs(a.row - b.row) == Abs(a.col - b.col)
  {
  }

  // ---------------------------------------------------------------- shuffle

  function Swap(s: seq<int>, i: nat, j: nat): (t: seq<int>)
    requires i < |s| && j < |s|
    ensures |t| == |s| && t[i] == s[j] && t[j] == s[i]
    ensures forall k :: 0 <= k < |s| && k != i && k != j ==> t[k] == s[k]
  {
    s[i := s[j]][j := s[i]]
  }

  /** Exchanging two positions keeps the elements with their multiplicities. */
  lemma SwapPermutes(s: seq<int>, i: nat, j: nat)
    requires i < |s| && j < |s|
    ensures multiset(Swap(s, i, j)) == multiset(s)
  {
  }

  /** s after the Fisher-Yates passes |s|-1, |s|-2, ..., i+1, in that order:
      pass k swaps position k with position pick(k) mod (k+1), which is any
      index in [0, k]. FisherYates(s, 0, pick) is the whole shuffle. */
  function FisherYates(s: seq<int>, i: int, pick: nat -> int): (t: seq<int>)
    requires -1 <= i
    ensures |t| == |s|
    decreases |s| - i
  {
    if i >= |s| - 1 then s
    else Swap(FisherYates(s, i + 1, pick), i + 1, pick(i + 1) % (i + 2))
  }

  lemma {:induction false} FisherYatesPermutes(s: seq<int>, i: int, pick: nat -> int)
    requires -1 <= i
    ensures multiset(FisherYates(s, i, pick)) == multiset(s)
    decreases |s| - i
  {
    if i < |s| - 1 {
      FisherYatesPermutes(s, i + 1, pick);
      SwapPermutes(FisherYates(s, i + 1, pick), i + 1, pick(i + 1) % (i + 2));
    }
  }

  /** `shuffle`: copies arr into a fresh array and swaps inside the copy;
      pick(i) stands for the random draw of step i. The argument is a value,
      so it cannot be changed. */
  method Shuffle(arr: seq<int>, pick: nat -> int) returns (shuffled: seq<int>)
    ensures shuffled == FisherYates(arr, 0, pick)
    ensures multiset(shuffled) == multiset(arr)
  {
    var copy := new int[|arr|](k requires 0 <= k < |arr| => arr[k]);
    assert copy[..] == arr;
    var i := |arr| - 1;
    while i > 0
      invariant -1 <= i < |arr|
      invariant copy[..] == FisherYates(arr, i, pick)
    {
      var j := pick(i) % (i + 1);
      ghost var before := copy[..];
      copy[i], copy[j] := copy[j], copy[i];
      assert copy[..] == Swap(before, i, j);
      assert FisherYates(arr, i - 1, pick) == Swap(FisherYates(arr, i, pick), i, j);
      i := i - 1;
    }
    shuffled := copy[..];
    FisherYatesPermutes(arr, 0, pick);
  }

  /** `[...Array(n).keys()]`: the indices 0 .. n-1. */
  function Range(n: nat): (r: seq<int>)
    ensures |r| == n && forall i :: 0 <= i < n ==> r[i] == i
  {
    seq(n, i => i)
  }

  // ---------------------------------------------------------------- search

  /** The random draws of the whole search: draws(placed, i) is the draw of
      Fisher-Yates step i in the shuffle done at the search node reached
      with the queens `placed`. Each node shuffles once, so any sequence of
      Math.random() results corresponds to some Draws. */
  type Draws = (seq<Queen>, nat) -> int

  /** The column order tried at the node `placed`: a shuffle of 0 .. SIZE-1. */
  function Columns(placed: seq<Queen>, draws: Draws): (cols: seq<int>)
    ensures forall c :: c in cols <==> 0 <= c < SIZE
  {
    var pick := (i: nat) => draws(placed, i);
    ShuffledRangeCovers(pick);
    FisherYates(Range(SIZE), 0, pick)
  }

  /** A shuffle of 0 .. SIZE-1 holds exactly the columns of the board. */
  lemma ShuffledRangeCovers(pick: nat -> int)
    ensures forall c :: c in FisherYates(Range(SIZE), 0, pick) <==> 0 <= c < SIZE
  {
    var r := Range(SIZE);
    var cols := FisherYates(r, 0, pick);
    FisherYatesPermutes(r, 0, pick);
    forall c ensures c in cols <==> 0 <= c < SIZE {
      calc {
        c in cols;
        c in multiset(cols);
        c in multiset(r);
        c in r;
      }
      if 0 <= c < SIZE { assert r[c] == c; }
    }
  }

  /** full completes placed with queens in rows row .. SIZE-1, one per row,
      each on the board and non-attacking with every queen before it. */
  ghost predicate Extends(placed: seq<Queen>, full: seq<Queen>, row: nat)
    requires row <= SIZE
  {
    && |full| == |placed| + (SIZE - row)
    && full[..|placed|] == placed
    && (forall k :: |placed| <= k < |full| ==>
          full[k].row == row + (k - |placed|) && 0 <= full[k].col < SIZE)
    && (forall j, k :: 0 <= j < k < |full| && |placed| <= k ==> NonAttacking(full[j], full[k]))
  }

  /** Some completion of placed from row `row` on exists. */
  ghost predicate Completable(row: nat, placed: seq<Queen>)
    requires row <= SIZE
  {
    exists full :: Extends(placed, full, row)
  }

  /** `generateSolution(row, placed)`: None stands for the source's null. */
  function GenerateSolution(row: nat, placed: seq<Queen>, draws: Draws): (res: Option<seq<Queen>>)
    requires row <= SIZE
    ensures res.Some? ==> Extends(placed, res.value, row)
    decreases SIZE - row, 1
  {
    if row == SIZE then Some(placed)
    else TryColumns(row, placed, Columns(placed, draws), draws)
  }

  /** The loop `for (const col of cols)` of `generateSolution`, which returns
      the first successful recursive result. */
  function TryColumns(row: nat, placed: seq<Queen>, cols: seq<int>, draws: Draws)
    : (res: Option<seq<Queen>>)
    requires row < SIZE
    requires forall c :: c in cols ==> 0 <= c < SIZE
    ensures res.Some? ==> Extends(placed, res.value, row)
    decreases SIZE - row, 0, |cols|
  {
    if cols == [] then None
    else
      assert forall c :: c in cols[1..] ==> c in cols;
      assert cols[0] in cols;
      var q := Queen(row, cols[0]);
      if IsSafeClassic(placed, q) then
        var res := GenerateSolution(row + 1, placed + [q], draws);
        if res.Some? then
          ExtendsStep(placed, q, res.value, row);
          res
        else TryColumns(row, placed, cols[1..], draws)
      else TryColumns(row, placed, cols[1..], draws)
  }

  /** A completion of placed + [q] from the next row, with q safe after
      placed, is a completion of placed. */
  lemma ExtendsStep(placed: seq<Queen>, q: Queen, full: seq<Queen>, row: nat)
    requires row < SIZE && q.row == row && 0 <= q.col < SIZE
    requires IsSafeClassic(placed, q)
    requires Extends(placed + [q], full, row + 1)
    ensures Extends(placed, full, row)
  {
    var n := |placed|;
    assert full[..n + 1] == placed + [q];
    assert full[..n] == (placed + [q])[..n] == placed;
    assert full[n] == q;
    forall j, k | 0 <= j < k < |full| && n <= k ensures NonAttacking(full[j], full[k]) {
      if k == n {
        assert full[j] == placed[j];
      }
    }
  }

  /** The search is complete: it fails only when no completion exists,
      because the column order at each node is a permutation of 0 .. SIZE-1. */
  lemma {:induction false} GenerateSolutionComplete(row: nat, placed: seq<Queen>, draws: Draws)
    requires row <= SIZE
    ensures GenerateSolution(row, placed, draws).Some? <==> Completable(row, placed)
    decreases SIZE - row, 1
  {
    var res := GenerateSolution(row, placed, draws);
    if res.Some? {
      assert Extends(placed, res.value, row);
    } else if row < SIZE {
      var cols := Columns(placed, draws);
      TryColumnsComplete(row, placed, cols, draws);
    }
  }

  lemma {:induction false} TryColumnsComplete(row: nat, placed: seq<Queen>, cols: seq<int>, draws: Draws)
    requires row < SIZE
    requires forall c :: c in cols ==> 0 <= c < SIZE
    ensures TryColumns(row, placed, cols, draws).None? ==>
              forall full: seq<Queen> :: Extends(placed, full, row) ==> full[|placed|].col !in cols
    decreases SIZE - row, 0, |cols|
  {
    if cols != [] && TryColumns(row, placed, cols, draws).None? {
      var q := Queen(row, cols[0]);
      assert forall c :: c in cols[1..] ==> c in cols;
      TryColumnsComplete(row, placed, cols[1..], draws);
      forall full: seq<Queen> | Extends(placed, full, row) ensures full[|placed|].col !in cols {
        var n := |placed|;
        if full[n].col == cols[0] {
          assert full[n] == q;
          forall i | 0 <= i < n ensures NonAttacking(placed[i], q) {
            assert full[..n][i] == placed[i];
          }
          GenerateSolutionComplete(row + 1, placed + [q], draws);
          assert full[..n + 1] == full[..n] + [full[n]];
          assert Extends(placed + [q], full, row + 1);
          assert false;
        }
      }
    }
  }

  /** A solution that the search can find: the rows 0 .. 7 get the columns
      0, 4, 7, 5, 2, 6, 1, 3. */
  const Witness: seq<Queen> := [Queen(0, 0), Queen(1, 4), Queen(2, 7), Queen(3, 5),
                                Queen(4, 2), Queen(5, 6), Queen(6, 1), Queen(7, 3)]

  /** Each queen of the witness is safe against the ones above it. */
  lemma WitnessRowsSafe()
    ensures forall k :: 1 <= k < |Witness| ==> IsSafeClassic(Witness[..k], Witness[k])
  {
    assert IsSafeClassic(Witness[..1], Witness[1]);
    assert IsSafeClassic(Witness[..2], Witness[2]);
    assert IsSafeClassic(Witness[..3], Witness[3]);
    assert IsSafeClassic(Witness[..4], Witness[4]);
    assert IsSafeClassic(Witness[..5], Witness[5]);
    assert IsSafeClassic(Witness[..6], Witness[6]);
    assert IsSafeClassic(Witness[..7], Witness[7]);
  }

  lemma {:induction false} EightQueensExist()
    ensures Completable(0, [])
  {
    var w := Witness;
    WitnessRowsSafe();
    forall j, k | 0 <= j < k < |w| ensures NonAttacking(w[j], w[k]) {
      assert IsSafeClassic(w[..k], w[k]);
      assert w[..k][j] == w[j];
    }
    forall k | 0 <= k < |w| ensures w[k].row == k && 0 <= w[k].col < SIZE {
      assert k in {0, 1, 2, 3, 4, 5, 6, 7};
    }
    assert w[..0] == [];
    assert Extends([], w, 0);
  }

  /** `generateSolution()!` as `startGame` calls it: the top-level search
      never returns null, and what it returns is a solution. */
  function Solve(draws: Draws): (s: seq<Queen>)
    ensures IsSolution(s)
  {
    EightQueensExist();
    GenerateSolutionComplete(0, [], draws);
    GenerateSolution(0, [], draws).value
  }
}

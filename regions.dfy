/** Region growth around a solution: every queen seeds a region with its own
    index, the regions spread by a breadth-first search that takes each
    free neighbour only when a random draw allows it, and one row-major
    sweep then copies a neighbour's id into the cells still unassigned.
    The sweep can leave a cell at -1 when none of its neighbours is assigned
    by the time it is visited, so no contract here claims full coverage. */
module RegionGen {
  import opened Puzzle

  /** A queue entry of the search: a cell and the region id spreading from it. */
  datatype Entry = Entry(row: int, col: int, id: int)

  /** The four orthogonal steps, in the order they are tried. */
  const Dirs: seq<(int, int)> := [(1, 0), (-1, 0), (0, 1), (0, -1)]

  /** a and b share a side. */
  predicate Adjacent(a: (int, int), b: (int, int)) {
    Abs(a.0 - b.0) + Abs(a.1 - b.1) == 1
  }

  function Cell(q: Queen): (int, int) {
    (q.row, q.col)
  }

  predicate QueensOnBoard(queens: seq<Queen>) {
    forall k :: 0 <= k < |queens| ==> InBounds(queens[k].row, queens[k].col)
  }

  /** No later queen stands on queen k's cell, so its seed is not overwritten
      during seeding. */
  predicate LastOnCell(queens: seq<Queen>, k: int)
    requires 0 <= k < |queens|
  {
    forall m :: k < m < |queens| ==> queens[m] != queens[k]
  }

  /** p is a walk of side-sharing board cells from queen id's cell to target,
      every cell after the first holding id in grid. */
  ghost predicate Joins(grid: RegionGrid, queens: seq<Queen>, id: int, p: seq<(int, int)>, target: (int, int))
    requires IsGrid(grid)
    requires 0 <= id < |queens|
  {
    && |p| > 0 && p[0] == Cell(queens[id]) && p[|p| - 1] == target
    && (forall m :: 0 <= m < |p| ==> InBounds(p[m].0, p[m].1))
    && (forall m :: 0 < m < |p| ==> grid[p[m].0][p[m].1] == id)
    && (forall m :: 0 <= m < |p| - 1 ==> Adjacent(p[m], p[m + 1]))
  }

  /** The assigned cell (i, j) traces back to the queen whose id it holds:
      it is that queen's own cell, or its recorded parent is a side-sharing
      cell of smaller depth that holds the same id or is that queen's cell. */
  ghost predicate Traces(grid: RegionGrid, queens: seq<Queen>, parent: map<(int, int), (int, int)>,
                         depth: map<(int, int), nat>, i: int, j: int)
    requires IsGrid(grid) && InBounds(i, j) && 0 <= grid[i][j] < |queens|
  {
    var v, x := grid[i][j], (i, j);
    && x in depth
    && (|| x == Cell(queens[v])
        || (&& x in parent && parent[x] in depth && depth[parent[x]] < depth[x]
            && InBounds(parent[x].0, parent[x].1) && Adjacent(parent[x], x)
            && (grid[parent[x].0][parent[x].1] == v || parent[x] == Cell(queens[v]))))
  }

  /** The invariant of the growth phases: assigned cells hold queen indices
      and trace back to their queen, only assigned cells carry a depth, and
      each queen not followed by another on its cell still owns that cell. */
  ghost predicate Grown(grid: RegionGrid, queens: seq<Queen>, parent: map<(int, int), (int, int)>,
                        depth: map<(int, int), nat>)
    requires IsGrid(grid) && QueensOnBoard(queens)
  {
    && (forall x :: x in depth ==> InBounds(x.0, x.1) && grid[x.0][x.1] != -1)
    && (forall i, j :: InBounds(i, j) && grid[i][j] != -1 ==> 0 <= grid[i][j] < |queens|)
    && (forall i, j {:trigger Traces(grid, queens, parent, depth, i, j)} ::
          InBounds(i, j) && grid[i][j] != -1 ==> Traces(grid, queens, parent, depth, i, j))
    && (forall k :: 0 <= k < |queens| && LastOnCell(queens, k) ==>
          grid[queens[k].row][queens[k].col] == k)
  }

  /** A queue entry that can spread: its cell carries a depth and holds its
      id, or is the cell of the queen it was seeded from. */
  ghost predicate Spreads(grid: RegionGrid, queens: seq<Queen>, depth: map<(int, int), nat>, e: Entry)
    requires IsGrid(grid)
  {
    && InBounds(e.row, e.col) && 0 <= e.id < |queens| && (e.row, e.col) in depth
    && (grid[e.row][e.col] == e.id || (e.row, e.col) == Cell(queens[e.id]))
  }

  /** Giving the unassigned cell (a, b) id v from the adjacent cell `from`
      leaves every other assigned cell tracing back to its queen, and makes
      (a, b) trace back through `from`. */
  lemma AssignTraces(grid: RegionGrid, queens: seq<Queen>, parent: map<(int, int), (int, int)>,
                     depth: map<(int, int), nat>, a: int, b: int, v: int, from: (int, int))
    requires IsGrid(grid) && QueensOnBoard(queens) && Grown(grid, queens, parent, depth)
    requires InBounds(a, b) && grid[a][b] == -1
    requires 0 <= v < |queens| && from in depth && Adjacent(from, (a, b))
    requires grid[from.0][from.1] == v || from == Cell(queens[v])
    ensures IsGrid(grid[a := grid[a][b := v]])
    ensures forall i, j {:trigger Traces(grid[a := grid[a][b := v]], queens, parent[(a, b) := from],
                                         depth[(a, b) := depth[from] + 1], i, j)} ::
              InBounds(i, j) && grid[a := grid[a][b := v]][i][j] != -1 ==>
                Traces(grid[a := grid[a][b := v]], queens, parent[(a, b) := from],
                       depth[(a, b) := depth[from] + 1], i, j)
  {
    var g := grid[a := grid[a][b := v]];
    var np, nd := parent[(a, b) := from], depth[(a, b) := depth[from] + 1];
    assert (a, b) !in depth;
    forall i, j | InBounds(i, j) && g[i][j] != -1
      ensures Traces(g, queens, np, nd, i, j)
    {
      if (i, j) != (a, b) {
        assert Traces(grid, queens, parent, depth, i, j);
      }
    }
  }

  /** The same step, for the whole invariant and every spreading entry. */
  lemma Assign(grid: RegionGrid, queens: seq<Queen>, parent: map<(int, int), (int, int)>,
               depth: map<(int, int), nat>, a: int, b: int, v: int, from: (int, int))
    requires IsGrid(grid) && QueensOnBoard(queens) && Grown(grid, queens, parent, depth)
    requires InBounds(a, b) && grid[a][b] == -1
    requires 0 <= v < |queens| && from in depth && Adjacent(from, (a, b))
    requires grid[from.0][from.1] == v || from == Cell(queens[v])
    ensures IsGrid(grid[a := grid[a][b := v]])
    ensures Grown(grid[a := grid[a][b := v]], queens, parent[(a, b) := from], depth[(a, b) := depth[from] + 1])
    ensures forall e :: Spreads(grid, queens, depth, e) ==>
              Spreads(grid[a := grid[a][b := v]], queens, depth[(a, b) := depth[from] + 1], e)
  {
    var g := grid[a := grid[a][b := v]];
    AssignTraces(grid, queens, parent, depth, a, b, v, from);
    forall k | 0 <= k < |queens| && LastOnCell(queens, k)
      ensures g[queens[k].row][queens[k].col] == k
    {
      assert grid[queens[k].row][queens[k].col] == k;
    }
  }

  /** A walk to an entry, extended by one step into a cell that now holds the
      entry's id, is a walk to that cell. */
  lemma ExtendJoins(grid: RegionGrid, queens: seq<Queen>, id: int, p: seq<(int, int)>, from: (int, int), to: (int, int))
    requires IsGrid(grid) && 0 <= id < |queens| && Joins(grid, queens, id, p, from)
    requires InBounds(to.0, to.1) && Adjacent(from, to) && grid[to.0][to.1] == id
    ensures Joins(grid, queens, id, p + [to], to)
  {
    var q := p + [to];
    forall m | 0 < m < |q| ensures grid[q[m].0][q[m].1] == id {
      if m < |q| - 1 {
        assert q[m] == p[m];
      }
    }
    forall m | 0 <= m < |q| - 1 ensures Adjacent(q[m], q[m + 1]) {
      if m < |q| - 2 {
        assert q[m] == p[m] && q[m + 1] == p[m + 1];
      }
    }
  }

  /** An assigned cell's recorded parents lead back to its queen along a
      walk of cells holding its id. */
  lemma {:induction false} WalkBack(grid: RegionGrid, queens: seq<Queen>, parent: map<(int, int), (int, int)>,
                                    depth: map<(int, int), nat>, x: (int, int), v: int)
    requires IsGrid(grid) && QueensOnBoard(queens) && Grown(grid, queens, parent, depth)
    requires 0 <= v < |queens| && x in depth && (grid[x.0][x.1] == v || x == Cell(queens[v]))
    ensures exists p :: Joins(grid, queens, v, p, x)
    decreases depth[x]
  {
    if x == Cell(queens[v]) {
      assert Joins(grid, queens, v, [x], x);
    } else {
      assert Traces(grid, queens, parent, depth, x.0, x.1);
      var y := parent[x];
      WalkBack(grid, queens, parent, depth, y, v);
      var p :| Joins(grid, queens, v, p, y);
      ExtendJoins(grid, queens, v, p, y, x);
    }
  }

  /** One of the four steps of `Dirs` moves to a side-sharing cell. */
  lemma DirIsStep(d: int, r: int, c: int)
    requires 0 <= d < |Dirs|
    ensures Adjacent((r, c), (r + Dirs[d].0, c + Dirs[d].1))
  {
    assert d == 0 || d == 1 || d == 2 || d == 3;
  }

  /** The array holds exactly the ghost grid g. */
  ghost predicate Mirrors(grid: array2<int>, g: RegionGrid)
    reads grid
  {
    && grid.Length0 == SIZE && grid.Length1 == SIZE && IsGrid(g)
    && forall i, j :: InBounds(i, j) ==> grid[i, j] == g[i][j]
  }

  /** Writes id v into the unassigned cell (a, b), recording the adjacent
      cell `from` (which holds v or is queen v's cell) as its parent. */
  method Write(grid: array2<int>, queens: seq<Queen>, a: int, b: int, v: int, from: (int, int),
               ghost g0: RegionGrid, ghost parent0: map<(int, int), (int, int)>, ghost depth0: map<(int, int), nat>)
    returns (ghost g: RegionGrid, ghost parent: map<(int, int), (int, int)>, ghost depth: map<(int, int), nat>)
    requires QueensOnBoard(queens) && Mirrors(grid, g0) && Grown(g0, queens, parent0, depth0)
    requires InBounds(a, b) && g0[a][b] == -1
    requires 0 <= v < |queens| && from in depth0 && Adjacent(from, (a, b))
    requires g0[from.0][from.1] == v || from == Cell(queens[v])
    modifies grid
    ensures Mirrors(grid, g) && Grown(g, queens, parent, depth)
    ensures g == g0[a := g0[a][b := v]]
    ensures Spreads(g, queens, depth, Entry(a, b, v))
    ensures forall e :: Spreads(g0, queens, depth0, e) ==> Spreads(g, queens, depth, e)
  {
    Assign(g0, queens, parent0, depth0, a, b, v, from);
    grid[a, b] := v;
    g := g0[a := g0[a][b := v]];
    parent := parent0[(a, b) := from];
    depth := depth0[(a, b) := depth0[from] + 1];
  }

  /** The seeding loop after its first k turns: only assigned cells carry a
      depth, each assigned cell holds the index of a queen among the first k
      standing on it, and each of those queens' cells holds an index at
      least its own. */
  ghost predicate SeededUpTo(g: RegionGrid, queens: seq<Queen>, depth: map<(int, int), nat>, k: int)
    requires IsGrid(g) && QueensOnBoard(queens) && 0 <= k <= |queens|
  {
    && (forall x :: x in depth ==> InBounds(x.0, x.1) && g[x.0][x.1] != -1)
    && (forall i, j :: InBounds(i, j) && g[i][j] != -1 ==>
          0 <= g[i][j] < k && Cell(queens[g[i][j]]) == (i, j) && (i, j) in depth)
    && (forall m :: 0 <= m < k ==> m <= g[queens[m].row][queens[m].col])
  }

  /** One turn of the seeding loop keeps its invariant. */
  lemma SeedStep(g: RegionGrid, queens: seq<Queen>, depth: map<(int, int), nat>, k: int)
    requires IsGrid(g) && QueensOnBoard(queens) && 0 <= k < |queens| && SeededUpTo(g, queens, depth, k)
    ensures IsGrid(g[queens[k].row := g[queens[k].row][queens[k].col := k]])
    ensures SeededUpTo(g[queens[k].row := g[queens[k].row][queens[k].col := k]], queens,
                       depth[(queens[k].row, queens[k].col) := 0], k + 1)
  {
    var r, c := queens[k].row, queens[k].col;
    var g', depth' := g[r := g[r][c := k]], depth[(r, c) := 0];
    forall x | x in depth' ensures InBounds(x.0, x.1) && g'[x.0][x.1] != -1 {
      if x != (r, c) {
        assert x in depth;
      }
    }
    forall i, j | InBounds(i, j) && g'[i][j] != -1
      ensures 0 <= g'[i][j] < k + 1 && Cell(queens[g'[i][j]]) == (i, j) && (i, j) in depth'
    {
      if (i, j) != (r, c) {
        assert g'[i][j] == g[i][j];
      }
    }
    forall m | 0 <= m < k + 1 ensures m <= g'[queens[m].row][queens[m].col] {
      if m < k && Cell(queens[m]) != (r, c) {
        assert g'[queens[m].row][queens[m].col] == g[queens[m].row][queens[m].col];
      }
    }
  }

  /** What the seeding loop leaves: each assigned cell holds the index of
      the last queen on it and has depth 0, and every queen cell is assigned. */
  lemma Seeded(g: RegionGrid, queens: seq<Queen>, depth: map<(int, int), nat>)
    requires IsGrid(g) && QueensOnBoard(queens) && SeededUpTo(g, queens, depth, |queens|)
    ensures Grown(g, queens, map[], depth)
    ensures forall k :: 0 <= k < |queens| ==>
              g[queens[k].row][queens[k].col] != -1 && (queens[k].row, queens[k].col) in depth
  {
    forall k | 0 <= k < |queens| && LastOnCell(queens, k)
      ensures g[queens[k].row][queens[k].col] == k
    {
      var v := g[queens[k].row][queens[k].col];
      assert Cell(queens[v]) == Cell(queens[k]);
      assert queens[v] == queens[k];
    }
    forall i, j | InBounds(i, j) && g[i][j] != -1
      ensures Traces(g, queens, map[], depth, i, j)
    {
    }
    forall k | 0 <= k < |queens|
      ensures g[queens[k].row][queens[k].col] != -1 && (queens[k].row, queens[k].col) in depth
    {
      assert k <= g[queens[k].row][queens[k].col];
    }
  }

  /** The seeding loop `queens.forEach((q, i) => grid[q.row][q.col] = i)` on
      an all-unassigned grid: afterwards the assigned cells are exactly the
      queen cells, each holding the index of the last queen standing on it. */
  method Seed(grid: array2<int>, queens: seq<Queen>) returns (ghost g: RegionGrid, ghost depth: map<(int, int), nat>)
    requires QueensOnBoard(queens)
    requires grid.Length0 == SIZE && grid.Length1 == SIZE
    requires forall i, j :: InBounds(i, j) ==> grid[i, j] == -1
    modifies grid
    ensures Mirrors(grid, g) && Grown(g, queens, map[], depth)
    ensures forall k :: 0 <= k < |queens| ==>
              g[queens[k].row][queens[k].col] != -1 && (queens[k].row, queens[k].col) in depth
  {
    g := seq(SIZE, i => seq(SIZE, j => -1));
    depth := map[];
    for k := 0 to |queens|
      invariant Mirrors(grid, g) && SeededUpTo(g, queens, depth, k)
    {
      var q := queens[k];
      SeedStep(g, queens, depth, k);
      grid[q.row, q.col] := k;
      g := g[q.row := g[q.row][q.col := k]];
      depth := depth[(q.row, q.col) := 0];
    }
    Seeded(g, queens, depth);
  }

  /** The board has SIZE * SIZE cells, so at most that many can ever be
      taken from the free set. */
  lemma BoardCells()
    ensures |set i, j | 0 <= i < SIZE && 0 <= j < SIZE :: (i, j)| <= SIZE * SIZE
  {
    var cells := set i, j | 0 <= i < SIZE && 0 <= j < SIZE :: (i, j);
    var s := seq(SIZE * SIZE, k requires 0 <= k < SIZE * SIZE => (k / SIZE, k % SIZE));
    forall x | x in cells ensures x in s {
      var k := x.0 * SIZE + x.1;
      assert s[k] == x;
    }
    assert cells == Elems(s);
    ElemsSize(s);
  }

  /** Assigning the unassigned cell (a, b) takes it out of the cells still
      free, and every cell still unassigned stays among them. */
  lemma FreeShrinks(g0: RegionGrid, g: RegionGrid, free: set<(int, int)>, a: int, b: int, v: int)
    requires IsGrid(g0) && InBounds(a, b) && g0[a][b] == -1 && v != -1
    requires g == g0[a := g0[a][b := v]]
    requires forall i, j :: InBounds(i, j) && g0[i][j] == -1 ==> (i, j) in free
    ensures |free - {(a, b)}| == |free| - 1
    ensures forall i, j :: InBounds(i, j) && g[i][j] == -1 ==> (i, j) in free - {(a, b)}
  {
    forall i, j | InBounds(i, j) && g[i][j] == -1 ensures (i, j) in free - {(a, b)} {
      assert g0[i][j] == -1;
    }
  }

  /** Appending a spreading entry to a queue of spreading entries, after a
      step that keeps every spreading entry spreading. */
  lemma SpreadsAppend(g0: RegionGrid, depth0: map<(int, int), nat>, g: RegionGrid, depth: map<(int, int), nat>,
                      queens: seq<Queen>, queue: seq<Entry>, e: Entry)
    requires IsGrid(g0) && IsGrid(g)
    requires forall t :: 0 <= t < |queue| ==> Spreads(g0, queens, depth0, queue[t])
    requires forall x :: Spreads(g0, queens, depth0, x) ==> Spreads(g, queens, depth, x)
    requires Spreads(g, queens, depth, e)
    ensures forall t :: 0 <= t < |queue + [e]| ==> Spreads(g, queens, depth, (queue + [e])[t])
  {
    forall t | 0 <= t < |queue + [e]| ensures Spreads(g, queens, depth, (queue + [e])[t]) {
      if t < |queue| {
        assert (queue + [e])[t] == queue[t] && Spreads(g0, queens, depth0, queue[t]);
      }
    }
  }

  /** queue' is queue followed by entries carrying cur's id, each on a cell
      sharing a side with cur's cell. */
  ghost predicate Pushed(queue: seq<Entry>, queue': seq<Entry>, cur: Entry) {
    && |queue| <= |queue'| && queue'[..|queue|] == queue
    && forall t :: |queue| <= t < |queue'| ==>
         queue'[t].id == cur.id && Adjacent((cur.row, cur.col), (queue'[t].row, queue'[t].col))
  }

  /** g differs from g0 only in cells that were unassigned, share a side
      with cur's cell and now hold cur's id. */
  ghost predicate Widened(g0: RegionGrid, g: RegionGrid, cur: Entry)
    requires IsGrid(g0) && IsGrid(g)
  {
    forall i, j :: InBounds(i, j) && g[i][j] != g0[i][j] ==>
      g0[i][j] == -1 && g[i][j] == cur.id && Adjacent((cur.row, cur.col), (i, j))
  }

  lemma PushedStep(queue: seq<Entry>, queue': seq<Entry>, cur: Entry, e: Entry)
    requires Pushed(queue, queue', cur)
    requires e.id == cur.id && Adjacent((cur.row, cur.col), (e.row, e.col))
    ensures Pushed(queue, queue' + [e], cur)
  {
    assert (queue' + [e])[..|queue|] == queue'[..|queue|];
  }

  lemma WidenedStep(g0: RegionGrid, g: RegionGrid, cur: Entry, a: int, b: int)
    requires IsGrid(g0) && IsGrid(g) && Widened(g0, g, cur)
    requires InBounds(a, b) && g[a][b] == -1 && Adjacent((cur.row, cur.col), (a, b))
    ensures IsGrid(g[a := g[a][b := cur.id]]) && Widened(g0, g[a := g[a][b := cur.id]], cur)
  {
  }

  /** The d-th neighbour of cur's cell, in `Dirs` order. */
  function Nbr(cur: Entry, d: int): (int, int)
    requires 0 <= d < |Dirs|
  {
    (cur.row + Dirs[d].0, cur.col + Dirs[d].1)
  }

  lemma NbrsDistinct(cur: Entry, d: int, e: int)
    requires 0 <= d < |Dirs| && 0 <= e < |Dirs| && d != e
    ensures Nbr(cur, d) != Nbr(cur, e)
  {
  }

  /** The d-th neighbour of cur is on the board and unassigned in g0, so the
      turn draws a coin for it. */
  ghost predicate FreeNbr(g0: RegionGrid, cur: Entry, d: int)
    requires IsGrid(g0) && 0 <= d < |Dirs|
  {
    InBounds(Nbr(cur, d).0, Nbr(cur, d).1) && g0[Nbr(cur, d).0][Nbr(cur, d).1] == -1
  }

  /** How many of the first d neighbours of cur draw a coin. */
  ghost function Tried(g0: RegionGrid, cur: Entry, d: int): nat
    requires IsGrid(g0) && 0 <= d <= |Dirs|
  {
    if d == 0 then 0
    else Tried(g0, cur, d - 1) + (if FreeNbr(g0, cur, d - 1) then 1 else 0)
  }

  /** The entries the first d directions of a turn push: every free
      neighbour whose coin allows it, in `Dirs` order, with cur's id. */
  ghost function Spawned(g0: RegionGrid, cur: Entry, coin: nat -> bool, flips: nat, d: int): seq<Entry>
    requires IsGrid(g0) && 0 <= d <= |Dirs|
  {
    if d == 0 then []
    else
      Spawned(g0, cur, coin, flips, d - 1) +
      (if FreeNbr(g0, cur, d - 1) && coin(flips + Tried(g0, cur, d - 1))
       then [Entry(Nbr(cur, d - 1).0, Nbr(cur, d - 1).1, cur.id)] else [])
  }

  /** The grid after the first d directions of a turn: each free neighbour
      whose coin allows it takes cur's id. */
  ghost function Turned(g0: RegionGrid, cur: Entry, coin: nat -> bool, flips: nat, d: int): (g: RegionGrid)
    requires IsGrid(g0) && 0 <= d <= |Dirs|
    ensures IsGrid(g)
  {
    if d == 0 then g0
    else
      var g := Turned(g0, cur, coin, flips, d - 1);
      var x := Nbr(cur, d - 1);
      if FreeNbr(g0, cur, d - 1) && coin(flips + Tried(g0, cur, d - 1))
      then g[x.0 := g[x.0][x.1 := cur.id]]
      else g
  }

  /** A neighbour not yet tried still holds what it held when the turn began,
      so testing the current grid, as the loop does, is testing g0. */
  lemma {:induction false} TurnedUntouched(g0: RegionGrid, cur: Entry, coin: nat -> bool, flips: nat, d: int, e: int)
    requires IsGrid(g0) && 0 <= d <= e < |Dirs| && InBounds(Nbr(cur, e).0, Nbr(cur, e).1)
    ensures Turned(g0, cur, coin, flips, d)[Nbr(cur, e).0][Nbr(cur, e).1] == g0[Nbr(cur, e).0][Nbr(cur, e).1]
    decreases d
  {
    if d > 0 {
      TurnedUntouched(g0, cur, coin, flips, d - 1, e);
      NbrsDistinct(cur, d - 1, e);
    }
  }

  /** Once tried, a free neighbour holds cur's id exactly when the coin drawn
      for it allowed it, and later directions leave it alone. */
  lemma {:induction false} TurnedSettled(g0: RegionGrid, cur: Entry, coin: nat -> bool, flips: nat, d: int, e: int)
    requires IsGrid(g0) && 0 <= e < d <= |Dirs| && FreeNbr(g0, cur, e) && 0 <= cur.id
    ensures (Turned(g0, cur, coin, flips, d)[Nbr(cur, e).0][Nbr(cur, e).1] == cur.id) ==
            coin(flips + Tried(g0, cur, e))
    decreases d
  {
    if e < d - 1 {
      TurnedSettled(g0, cur, coin, flips, d - 1, e);
      NbrsDistinct(cur, d - 1, e);
    } else {
      TurnedUntouched(g0, cur, coin, flips, e, e);
    }
  }

  /** After the whole turn, each free neighbour holds cur's id exactly when
      its coin allowed it, the coins being drawn in `Dirs` order. */
  lemma TurnOutcome(g0: RegionGrid, cur: Entry, coin: nat -> bool, flips: nat)
    requires IsGrid(g0) && 0 <= cur.id
    ensures forall d :: 0 <= d < |Dirs| && FreeNbr(g0, cur, d) ==>
              (Turned(g0, cur, coin, flips, |Dirs|)[Nbr(cur, d).0][Nbr(cur, d).1] == cur.id
               <==> coin(flips + Tried(g0, cur, d)))
  {
    forall d | 0 <= d < |Dirs| && FreeNbr(g0, cur, d)
      ensures Turned(g0, cur, coin, flips, |Dirs|)[Nbr(cur, d).0][Nbr(cur, d).1] == cur.id
              <==> coin(flips + Tried(g0, cur, d))
    {
      TurnedSettled(g0, cur, coin, flips, |Dirs|, d);
    }
  }

  /** Pushing the d-th neighbour when the turn takes it extends the queue by
      the entry `Spawned` adds for it. */
  lemma SpawnedTake(queue: seq<Entry>, g0: RegionGrid, cur: Entry, coin: nat -> bool, flips: nat, d: int)
    requires IsGrid(g0) && 0 <= d < |Dirs| && FreeNbr(g0, cur, d) && coin(flips + Tried(g0, cur, d))
    ensures queue + Spawned(g0, cur, coin, flips, d + 1) ==
            (queue + Spawned(g0, cur, coin, flips, d)) + [Entry(Nbr(cur, d).0, Nbr(cur, d).1, cur.id)]
  {
    var e := Entry(Nbr(cur, d).0, Nbr(cur, d).1, cur.id);
    assert Spawned(g0, cur, coin, flips, d + 1) == Spawned(g0, cur, coin, flips, d) + [e];
    assert queue + (Spawned(g0, cur, coin, flips, d) + [e]) == (queue + Spawned(g0, cur, coin, flips, d)) + [e];
  }

  /** How one direction, towards (a, b), extends a turn: the count of coins
      drawn, the grid and the queue after the first d + 1 directions, from
      those after d. */
  lemma TurnStep(queue: seq<Entry>, g0: RegionGrid, cur: Entry, coin: nat -> bool, flips: nat, d: int, a: int, b: int)
    requires IsGrid(g0) && 0 <= d < |Dirs| && (a, b) == Nbr(cur, d)
    ensures Tried(g0, cur, d + 1) == Tried(g0, cur, d) + (if FreeNbr(g0, cur, d) then 1 else 0)
    ensures FreeNbr(g0, cur, d) && coin(flips + Tried(g0, cur, d)) ==>
      var g := Turned(g0, cur, coin, flips, d);
      && Turned(g0, cur, coin, flips, d + 1) == g[a := g[a][b := cur.id]]
      && queue + Spawned(g0, cur, coin, flips, d + 1) ==
         (queue + Spawned(g0, cur, coin, flips, d)) + [Entry(a, b, cur.id)]
    ensures !(FreeNbr(g0, cur, d) && coin(flips + Tried(g0, cur, d))) ==>
      && Turned(g0, cur, coin, flips, d + 1) == Turned(g0, cur, coin, flips, d)
      && queue + Spawned(g0, cur, coin, flips, d + 1) == queue + Spawned(g0, cur, coin, flips, d)
  {
    if FreeNbr(g0, cur, d) && coin(flips + Tried(g0, cur, d)) {
      SpawnedTake(queue, g0, cur, coin, flips, d);
    } else {
      assert Spawned(g0, cur, coin, flips, d + 1) == Spawned(g0, cur, coin, flips, d) + [];
    }
  }

  /** Every entry a turn pushes carries cur's id on a side-neighbour of cur. */
  lemma {:induction false} SpawnedPushed(queue: seq<Entry>, g0: RegionGrid, cur: Entry, coin: nat -> bool, flips: nat, d: int)
    requires IsGrid(g0) && 0 <= d <= |Dirs|
    ensures Pushed(queue, queue + Spawned(g0, cur, coin, flips, d), cur)
    decreases d
  {
    if d == 0 {
      assert queue + [] == queue;
    } else {
      SpawnedPushed(queue, g0, cur, coin, flips, d - 1);
      if FreeNbr(g0, cur, d - 1) && coin(flips + Tried(g0, cur, d - 1)) {
        DirIsStep(d - 1, cur.row, cur.col);
        SpawnedTake(queue, g0, cur, coin, flips, d - 1);
        PushedStep(queue, queue + Spawned(g0, cur, coin, flips, d - 1), cur,
                   Entry(Nbr(cur, d - 1).0, Nbr(cur, d - 1).1, cur.id));
      } else {
        assert Spawned(g0, cur, coin, flips, d) == Spawned(g0, cur, coin, flips, d - 1) + [];
      }
    }
  }

  /** A turn only gives cur's id to unassigned side-neighbours of cur. */
  lemma {:induction false} TurnedWidened(g0: RegionGrid, cur: Entry, coin: nat -> bool, flips: nat, d: int)
    requires IsGrid(g0) && 0 <= d <= |Dirs|
    ensures Widened(g0, Turned(g0, cur, coin, flips, d), cur)
    decreases d
  {
    if d > 0 {
      var gp, x := Turned(g0, cur, coin, flips, d - 1), Nbr(cur, d - 1);
      TurnedWidened(g0, cur, coin, flips, d - 1);
      if FreeNbr(g0, cur, d - 1) && coin(flips + Tried(g0, cur, d - 1)) {
        assert Turned(g0, cur, coin, flips, d) == gp[x.0 := gp[x.0][x.1 := cur.id]];
        DirIsStep(d - 1, cur.row, cur.col);
        TurnedUntouched(g0, cur, coin, flips, d - 1, d - 1);
        WidenedStep(g0, gp, cur, x.0, x.1);
      } else {
        assert Turned(g0, cur, coin, flips, d) == gp;
      }
    }
  }

  /** The turn so far, after one more direction whose concrete effect is
      given: nothing when the neighbour (a, b) is off the board or assigned,
      one more draw otherwise, and the write and push on a positive draw. */
  lemma OfferAccount(queue: seq<Entry>, g0: RegionGrid, cur: Entry, coin: nat -> bool, flips: nat, d: int,
                     a: int, b: int, g: RegionGrid, q: seq<Entry>, n: nat, g': RegionGrid, q': seq<Entry>, n': nat)
    requires IsGrid(g0) && IsGrid(g) && 0 <= d < |Dirs| && (a, b) == Nbr(cur, d)
    requires g == Turned(g0, cur, coin, flips, d)
    requires q == queue + Spawned(g0, cur, coin, flips, d)
    requires n == flips + Tried(g0, cur, d)
    requires !(InBounds(a, b) && g[a][b] == -1) ==> g' == g && q' == q && n' == n
    requires InBounds(a, b) && g[a][b] == -1 && coin(n) ==>
               g' == g[a := g[a][b := cur.id]] && q' == q + [Entry(a, b, cur.id)] && n' == n + 1
    requires InBounds(a, b) && g[a][b] == -1 && !coin(n) ==> g' == g && q' == q && n' == n + 1
    ensures g' == Turned(g0, cur, coin, flips, d + 1)
    ensures q' == queue + Spawned(g0, cur, coin, flips, d + 1)
    ensures n' == flips + Tried(g0, cur, d + 1)
  {
    if InBounds(a, b) {
      TurnedUntouched(g0, cur, coin, flips, d, d);
    }
    assert FreeNbr(g0, cur, d) == (InBounds(a, b) && g[a][b] == -1);
    TurnStep(queue, g0, cur, coin, flips, d, a, b);
  }

  /** A positive draw: the unassigned neighbour (a, b) of `cur` takes its id
      and joins the queue. */
  method Take(grid: array2<int>, queens: seq<Queen>, cur: Entry, a: int, b: int, q: seq<Entry>,
              ghost g: RegionGrid, ghost parent: map<(int, int), (int, int)>, ghost depth: map<(int, int), nat>,
              ghost free: set<(int, int)>)
    returns (q': seq<Entry>, ghost g': RegionGrid, ghost parent': map<(int, int), (int, int)>,
             ghost depth': map<(int, int), nat>, ghost free': set<(int, int)>)
    requires QueensOnBoard(queens) && Mirrors(grid, g) && Grown(g, queens, parent, depth)
    requires Spreads(g, queens, depth, cur)
    requires forall t :: 0 <= t < |q| ==> Spreads(g, queens, depth, q[t])
    requires forall i, j :: InBounds(i, j) && g[i][j] == -1 ==> (i, j) in free
    requires InBounds(a, b) && g[a][b] == -1 && Adjacent((cur.row, cur.col), (a, b))
    modifies grid
    ensures Mirrors(grid, g') && Grown(g', queens, parent', depth') && Spreads(g', queens, depth', cur)
    ensures forall t :: 0 <= t < |q'| ==> Spreads(g', queens, depth', q'[t])
    ensures forall i, j :: InBounds(i, j) && g'[i][j] == -1 ==> (i, j) in free'
    ensures g' == g[a := g[a][b := cur.id]] && q' == q + [Entry(a, b, cur.id)] && |free'| + 1 == |free|
  {
    g', parent', depth' := Write(grid, queens, a, b, cur.id, (cur.row, cur.col), g, parent, depth);
    SpreadsAppend(g, depth, g', depth', queens, q, Entry(a, b, cur.id));
    q' := q + [Entry(a, b, cur.id)];
    FreeShrinks(g, g', free, a, b, cur.id);
    free' := free - {(a, b)};
  }

  /** One direction of a turn: the d-th neighbour of `cur`, when it is inside
      the board and unassigned, draws the next coin, and on a positive draw
      takes `cur`'s id and joins the queue. Stated against the turn so far:
      the grid, queue and draw count after d directions become those after
      d + 1. */
  method Offer(grid: array2<int>, queens: seq<Queen>, cur: Entry, queue: seq<Entry>, coin: nat -> bool, flips: nat,
               d: int, q: seq<Entry>, n: nat, ghost g0: RegionGrid, ghost g: RegionGrid,
               ghost parent: map<(int, int), (int, int)>, ghost depth: map<(int, int), nat>,
               ghost free: set<(int, int)>)
    returns (q': seq<Entry>, n': nat, ghost g': RegionGrid, ghost parent': map<(int, int), (int, int)>,
             ghost depth': map<(int, int), nat>, ghost free': set<(int, int)>)
    requires QueensOnBoard(queens) && IsGrid(g0) && Mirrors(grid, g) && Grown(g, queens, parent, depth)
    requires 0 <= d < |Dirs| && Spreads(g, queens, depth, cur)
    requires forall t :: 0 <= t < |q| ==> Spreads(g, queens, depth, q[t])
    requires forall i, j :: InBounds(i, j) && g[i][j] == -1 ==> (i, j) in free
    requires g == Turned(g0, cur, coin, flips, d)
    requires q == queue + Spawned(g0, cur, coin, flips, d)
    requires n == flips + Tried(g0, cur, d)
    modifies grid
    ensures Mirrors(grid, g') && Grown(g', queens, parent', depth') && Spreads(g', queens, depth', cur)
    ensures forall t :: 0 <= t < |q'| ==> Spreads(g', queens, depth', q'[t])
    ensures forall i, j :: InBounds(i, j) && g'[i][j] == -1 ==> (i, j) in free'
    ensures (q' == q && free' == free) || (|q'| == |q| + 1 && |free'| + 1 == |free|)
    ensures g' == Turned(g0, cur, coin, flips, d + 1)
    ensures q' == queue + Spawned(g0, cur, coin, flips, d + 1)
    ensures n' == flips + Tried(g0, cur, d + 1)
  {
    q', n', g', parent', depth', free' := q, n, g, parent, depth, free;
    var nr, nc := Nbr(cur, d).0, Nbr(cur, d).1;
    if InBounds(nr, nc) && grid[nr, nc] == -1 {
      if coin(n) {
        DirIsStep(d, cur.row, cur.col);
        q', g', parent', depth', free' := Take(grid, queens, cur, nr, nc, q, g, parent, depth, free);
      }
      n' := n + 1;
    }
    OfferAccount(queue, g0, cur, coin, flips, d, nr, nc, g, q, n, g', q', n');
  }

  /** One turn of the search loop: the four neighbours of `cur` are tried
      in order, and each unassigned one inside the board takes `cur`'s id
      and joins the queue when its draw allows. Every assignment removes a
      cell from `free`, which bounds the number of turns. */
  method Visit(grid: array2<int>, queens: seq<Queen>, cur: Entry, queue: seq<Entry>, coin: nat -> bool, flips: nat,
               ghost g0: RegionGrid, ghost parent0: map<(int, int), (int, int)>, ghost depth0: map<(int, int), nat>,
               ghost free0: set<(int, int)>)
    returns (queue': seq<Entry>, flips': nat,
             ghost g: RegionGrid, ghost parent: map<(int, int), (int, int)>, ghost depth: map<(int, int), nat>,
             ghost free: set<(int, int)>, ghost pushed: nat)
    requires QueensOnBoard(queens) && Mirrors(grid, g0) && Grown(g0, queens, parent0, depth0)
    requires Spreads(g0, queens, depth0, cur)
    requires forall t :: 0 <= t < |queue| ==> Spreads(g0, queens, depth0, queue[t])
    requires forall i, j :: InBounds(i, j) && g0[i][j] == -1 ==> (i, j) in free0
    modifies grid
    ensures Mirrors(grid, g) && Grown(g, queens, parent, depth)
    ensures forall t :: 0 <= t < |queue'| ==> Spreads(g, queens, depth, queue'[t])
    ensures forall i, j :: InBounds(i, j) && g[i][j] == -1 ==> (i, j) in free
    ensures |queue'| == |queue| + pushed && |free| + pushed == |free0|
    ensures pushed == 0 ==> queue' == queue
    ensures Pushed(queue, queue', cur) && Widened(g0, g, cur)
    ensures g == Turned(g0, cur, coin, flips, |Dirs|)
    ensures queue' == queue + Spawned(g0, cur, coin, flips, |Dirs|)
    ensures flips' == flips + Tried(g0, cur, |Dirs|)
  {
    queue', flips', g, parent, depth, free, pushed := queue, flips, g0, parent0, depth0, free0, 0;
    for d := 0 to |Dirs|
      invariant Mirrors(grid, g) && Grown(g, queens, parent, depth)
      invariant Spreads(g, queens, depth, cur)
      invariant forall t :: 0 <= t < |queue'| ==> Spreads(g, queens, depth, queue'[t])
      invariant forall i, j :: InBounds(i, j) && g[i][j] == -1 ==> (i, j) in free
      invariant |queue'| == |queue| + pushed && |free| + pushed == |free0|
      invariant pushed == 0 ==> queue' == queue
      invariant g == Turned(g0, cur, coin, flips, d)
      invariant queue' == queue + Spawned(g0, cur, coin, flips, d)
      invariant flips' == flips + Tried(g0, cur, d)
    {
      ghost var before := queue';
      queue', flips', g, parent, depth, free :=
        Offer(grid, queens, cur, queue, coin, flips, d, queue', flips', g0, g, parent, depth, free);
      pushed := pushed + (|queue'| - |before|);
    }
    SpawnedPushed(queue, g0, cur, coin, flips, |Dirs|);
    TurnedWidened(g0, cur, coin, flips, |Dirs|);
  }

  /** Every cell assigned in g0 holds the same id in g. */
  ghost predicate Kept(g0: RegionGrid, g: RegionGrid)
    requires IsGrid(g0) && IsGrid(g)
  {
    forall i, j :: InBounds(i, j) && g0[i][j] != -1 ==> g[i][j] == g0[i][j]
  }

  /** No in-board neighbour of (i, j) in `Dirs` is assigned in g. */
  ghost predicate Isolated(g: RegionGrid, i: int, j: int)
    requires IsGrid(g)
  {
    forall d :: 0 <= d < |Dirs| && InBounds(i + Dirs[d].0, j + Dirs[d].1) ==>
      g[i + Dirs[d].0][j + Dirs[d].1] == -1
  }

  /** Every cell before (r, c) in row-major order that is unassigned in g was
      isolated in g0. */
  ghost predicate IsolatedBefore(g0: RegionGrid, g: RegionGrid, r: int, c: int)
    requires IsGrid(g0) && IsGrid(g)
  {
    forall i, j :: InBounds(i, j) && (i < r || (i == r && j < c)) && g[i][j] == -1 ==> Isolated(g0, i, j)
  }

  /** The id of the first assigned in-board neighbour of (r, c) among
      `Dirs[d..]`, or -1 when there is none. */
  ghost function FirstAssigned(g: RegionGrid, r: int, c: int, d: int): int
    requires IsGrid(g) && 0 <= d <= |Dirs|
    decreases |Dirs| - d
  {
    if d == |Dirs| then -1
    else if InBounds(r + Dirs[d].0, c + Dirs[d].1) && g[r + Dirs[d].0][c + Dirs[d].1] != -1
    then g[r + Dirs[d].0][c + Dirs[d].1]
    else FirstAssigned(g, r, c, d + 1)
  }

  /** No neighbour among `Dirs[d..]` is assigned exactly when the search for
      one finds nothing. */
  lemma {:induction false} FirstAssignedNone(g: RegionGrid, r: int, c: int, d: int)
    requires IsGrid(g) && 0 <= d <= |Dirs|
    ensures FirstAssigned(g, r, c, d) == -1 <==>
            forall e :: d <= e < |Dirs| && InBounds(r + Dirs[e].0, c + Dirs[e].1) ==>
              g[r + Dirs[e].0][c + Dirs[e].1] == -1
    decreases |Dirs| - d
  {
    if d < |Dirs| {
      FirstAssignedNone(g, r, c, d + 1);
    }
  }

  /** A cell with no assigned neighbour is exactly one the search leaves
      unassigned. */
  lemma IsolatedIffNone(g: RegionGrid, r: int, c: int)
    requires IsGrid(g)
    ensures Isolated(g, r, c) <==> FirstAssigned(g, r, c, 0) == -1
  {
    FirstAssignedNone(g, r, c, 0);
  }

  /** Writing v at (r, c) changes that cell and no other. */
  lemma UpdateOne(g0: RegionGrid, r: int, c: int, v: int)
    requires IsGrid(g0) && InBounds(r, c)
    ensures IsGrid(g0[r := g0[r][c := v]]) && g0[r := g0[r][c := v]][r][c] == v
    ensures forall i, j :: InBounds(i, j) && (i, j) != (r, c) ==> g0[r := g0[r][c := v]][i][j] == g0[i][j]
  {
  }

  /** (r, c) takes the id of its assigned neighbour (a, b). */
  method CopyFrom(grid: array2<int>, queens: seq<Queen>, r: int, c: int, a: int, b: int,
                  ghost g0: RegionGrid, ghost parent0: map<(int, int), (int, int)>, ghost depth0: map<(int, int), nat>)
    returns (ghost g: RegionGrid, ghost parent: map<(int, int), (int, int)>, ghost depth: map<(int, int), nat>)
    requires QueensOnBoard(queens) && Mirrors(grid, g0) && Grown(g0, queens, parent0, depth0)
    requires InBounds(r, c) && g0[r][c] == -1 && InBounds(a, b) && g0[a][b] != -1
    requires Adjacent((a, b), (r, c))
    modifies grid
    ensures Mirrors(grid, g) && Grown(g, queens, parent, depth)
    ensures g == g0[r := g0[r][c := g0[a][b]]]
  {
    var v := grid[a, b];
    assert Traces(g0, queens, parent0, depth0, a, b);
    g, parent, depth := Write(grid, queens, r, c, v, (a, b), g0, parent0, depth0);
  }

  /** The search of one sweep cell: the index in `Dirs` of the first assigned
      in-board neighbour of (r, c), or `|Dirs|` when there is none. */
  method FirstNeighbour(grid: array2<int>, r: int, c: int, ghost g: RegionGrid) returns (d: int)
    requires Mirrors(grid, g)
    ensures 0 <= d <= |Dirs|
    ensures d < |Dirs| ==>
              && InBounds(r + Dirs[d].0, c + Dirs[d].1)
              && g[r + Dirs[d].0][c + Dirs[d].1] != -1
              && g[r + Dirs[d].0][c + Dirs[d].1] == FirstAssigned(g, r, c, 0)
    ensures d == |Dirs| ==> Isolated(g, r, c) && FirstAssigned(g, r, c, 0) == -1
  {
    d := 0;
    while d < |Dirs|
      invariant 0 <= d <= |Dirs|
      invariant FirstAssigned(g, r, c, 0) == FirstAssigned(g, r, c, d)
      invariant forall e :: 0 <= e < d && InBounds(r + Dirs[e].0, c + Dirs[e].1) ==>
                  g[r + Dirs[e].0][c + Dirs[e].1] == -1
    {
      var nr, nc := r + Dirs[d].0, c + Dirs[d].1;
      if InBounds(nr, nc) && grid[nr, nc] != -1 {
        return;
      }
      d := d + 1;
    }
  }

  /** One cell of the sweep: if (r, c) is unassigned, it copies the id of its
      first assigned neighbour in `Dirs` order, if any. */
  method Fill(grid: array2<int>, queens: seq<Queen>, r: int, c: int,
              ghost g0: RegionGrid, ghost parent0: map<(int, int), (int, int)>, ghost depth0: map<(int, int), nat>)
    returns (ghost g: RegionGrid, ghost parent: map<(int, int), (int, int)>, ghost depth: map<(int, int), nat>)
    requires QueensOnBoard(queens) && Mirrors(grid, g0) && Grown(g0, queens, parent0, depth0)
    requires InBounds(r, c)
    modifies grid
    ensures Mirrors(grid, g) && Grown(g, queens, parent, depth)
    ensures forall i, j :: InBounds(i, j) && (i, j) != (r, c) ==> g[i][j] == g0[i][j]
    ensures g0[r][c] != -1 ==> g[r][c] == g0[r][c]
    ensures g[r][c] == -1 ==> Isolated(g0, r, c)
    ensures g0[r][c] == -1 ==> g[r][c] == FirstAssigned(g0, r, c, 0)
  {
    g, parent, depth := g0, parent0, depth0;
    if grid[r, c] == -1 {
      var d := FirstNeighbour(grid, r, c, g);
      if d < |Dirs| {
        var nr, nc := r + Dirs[d].0, c + Dirs[d].1;
        DirIsStep(d, r, c);
        g, parent, depth := CopyFrom(grid, queens, r, c, nr, nc, g, parent, depth);
        UpdateOne(g0, r, c, g0[nr][nc]);
      }
    }
  }

  /** After one cell of the sweep, assigned cells are still kept and the
      cells left unassigned so far, now including (r, c), were isolated. */
  lemma FillStep(g0: RegionGrid, g1: RegionGrid, g: RegionGrid, r: int, c: int)
    requires IsGrid(g0) && IsGrid(g1) && IsGrid(g) && InBounds(r, c)
    requires Kept(g0, g1) && IsolatedBefore(g0, g1, r, c)
    requires forall i, j :: InBounds(i, j) && (i, j) != (r, c) ==> g[i][j] == g1[i][j]
    requires g1[r][c] != -1 ==> g[r][c] == g1[r][c]
    requires g[r][c] == -1 ==> Isolated(g1, r, c)
    ensures Kept(g0, g) && IsolatedBefore(g0, g, r, c + 1)
  {
    if g[r][c] == -1 {
      forall d | 0 <= d < |Dirs| && InBounds(r + Dirs[d].0, c + Dirs[d].1)
        ensures g0[r + Dirs[d].0][c + Dirs[d].1] == -1
      {
        assert g1[r + Dirs[d].0][c + Dirs[d].1] == -1;
      }
    }
  }

  /** Every cell before (r, c) in row-major order that is unassigned in g has
      its upper and left neighbours unassigned in g too. */
  ghost predicate ChainedBefore(g: RegionGrid, r: int, c: int)
    requires IsGrid(g)
  {
    forall i, j :: InBounds(i, j) && (i < r || (i == r && j < c)) && g[i][j] == -1 ==>
      (i > 0 ==> g[i - 1][j] == -1) && (j > 0 ==> g[i][j - 1] == -1)
  }

  /** Filling (r, c) in place keeps the cells before it, and leaves (r, c)
      unassigned only when its upper and left neighbours, already swept,
      are unassigned. */
  lemma ChainStep(g1: RegionGrid, g: RegionGrid, r: int, c: int)
    requires IsGrid(g1) && IsGrid(g) && InBounds(r, c) && ChainedBefore(g1, r, c)
    requires forall i, j :: InBounds(i, j) && (i, j) != (r, c) ==> g[i][j] == g1[i][j]
    requires g[r][c] == -1 ==> Isolated(g1, r, c)
    ensures ChainedBefore(g, r, c + 1)
  {
    if g[r][c] == -1 {
      if r > 0 {
        assert InBounds(r + Dirs[1].0, c + Dirs[1].1);
      }
      if c > 0 {
        assert InBounds(r + Dirs[3].0, c + Dirs[3].1);
      }
    }
  }

  /** The final sweep over the cells in row-major order. Assigned cells keep
      their ids, and a cell left unassigned had no assigned neighbour before
      the sweep. The sweep writes in place, so a cell can copy an id written
      earlier in the same sweep: a cell left unassigned has its upper and
      left neighbours unassigned at the end. */
  method Sweep(grid: array2<int>, queens: seq<Queen>,
               ghost g0: RegionGrid, ghost parent0: map<(int, int), (int, int)>, ghost depth0: map<(int, int), nat>)
    returns (ghost g: RegionGrid, ghost parent: map<(int, int), (int, int)>, ghost depth: map<(int, int), nat>)
    requires QueensOnBoard(queens) && Mirrors(grid, g0) && Grown(g0, queens, parent0, depth0)
    modifies grid
    ensures Mirrors(grid, g) && Grown(g, queens, parent, depth)
    ensures Kept(g0, g)
    ensures forall i, j :: InBounds(i, j) && g[i][j] == -1 ==> Isolated(g0, i, j)
    ensures forall i, j :: InBounds(i, j) && g[i][j] == -1 ==>
              (i > 0 ==> g[i - 1][j] == -1) && (j > 0 ==> g[i][j - 1] == -1)
  {
    g, parent, depth := g0, parent0, depth0;
    for r := 0 to SIZE
      invariant Mirrors(grid, g) && Grown(g, queens, parent, depth)
      invariant Kept(g0, g) && IsolatedBefore(g0, g, r, 0) && ChainedBefore(g, r, 0)
    {
      for c := 0 to SIZE
        invariant Mirrors(grid, g) && Grown(g, queens, parent, depth)
        invariant Kept(g0, g) && IsolatedBefore(g0, g, r, c) && ChainedBefore(g, r, c)
      {
        ghost var g1 := g;
        g, parent, depth := Fill(grid, queens, r, c, g, parent, depth);
        FillStep(g0, g1, g, r, c);
        ChainStep(g1, g, r, c);
      }
    }
  }

  /** What the growth invariant says of the finished grid. */
  lemma Outcome(g: RegionGrid, queens: seq<Queen>, parent: map<(int, int), (int, int)>, depth: map<(int, int), nat>)
    requires IsGrid(g) && QueensOnBoard(queens) && Grown(g, queens, parent, depth)
    ensures forall i, j :: InBounds(i, j) ==> g[i][j] == -1 || 0 <= g[i][j] < |queens|
    ensures forall k :: 0 <= k < |queens| && LastOnCell(queens, k) ==> g[queens[k].row][queens[k].col] == k
    ensures Distinct(queens) ==>
              forall a, b :: 0 <= a < b < |queens| ==>
                g[queens[a].row][queens[a].col] != g[queens[b].row][queens[b].col]
    ensures forall i, j :: InBounds(i, j) && g[i][j] != -1 ==> exists p :: Joins(g, queens, g[i][j], p, (i, j))
  {
    forall i, j | InBounds(i, j) && g[i][j] != -1
      ensures exists p :: Joins(g, queens, g[i][j], p, (i, j))
    {
      assert Traces(g, queens, parent, depth, i, j);
      WalkBack(g, queens, parent, depth, (i, j), g[i][j]);
    }
  }

  /** The grid the array holds, as the nested sequence the function returns. */
  method Contents(grid: array2<int>, ghost g: RegionGrid) returns (regions: RegionGrid)
    requires Mirrors(grid, g)
    ensures regions == g
  {
    regions := seq(SIZE, i requires 0 <= i < SIZE reads grid =>
                 seq(SIZE, j requires 0 <= j < SIZE reads grid => grid[i, j]));
    forall i | 0 <= i < SIZE ensures regions[i] == g[i] {
    }
  }

  /** `generateRegionsFromSolution(queens)`. `coin(n)` stands for the n-th
      draw of `Math.random() > 0.3`, made only for an unassigned in-board
      neighbour. */
  method GenerateRegionsFromSolution(queens: seq<Queen>, coin: nat -> bool)
    returns (regions: RegionGrid, ghost pushes: nat)
    requires QueensOnBoard(queens)
    ensures IsGrid(regions)
    ensures forall i, j :: InBounds(i, j) ==> regions[i][j] == -1 || 0 <= regions[i][j] < |queens|
    ensures forall k :: 0 <= k < |queens| && LastOnCell(queens, k) ==>
              regions[queens[k].row][queens[k].col] == k
    ensures Distinct(queens) ==>
              forall a, b :: 0 <= a < b < |queens| ==>
                regions[queens[a].row][queens[a].col] != regions[queens[b].row][queens[b].col]
    ensures forall i, j :: InBounds(i, j) && regions[i][j] != -1 ==>
              exists p :: Joins(regions, queens, regions[i][j], p, (i, j))
    ensures pushes <= SIZE * SIZE
  {
    var grid := new int[SIZE, SIZE]((i, j) => -1);
    ghost var g, depth := Seed(grid, queens);
    ghost var parent: map<(int, int), (int, int)> := map[];

    var queue := seq(|queens|, k requires 0 <= k < |queens| => Entry(queens[k].row, queens[k].col, k));
    assert forall t :: 0 <= t < |queue| ==> Spreads(g, queens, depth, queue[t]);
    ghost var free: set<(int, int)> := set i, j | 0 <= i < SIZE && 0 <= j < SIZE :: (i, j);
    var flips: nat := 0;
    BoardCells();
    pushes := 0;

    while |queue| > 0
      invariant Mirrors(grid, g) && Grown(g, queens, parent, depth)
      invariant forall t :: 0 <= t < |queue| ==> Spreads(g, queens, depth, queue[t])
      invariant forall i, j :: InBounds(i, j) && g[i][j] == -1 ==> (i, j) in free
      invariant pushes + |free| <= SIZE * SIZE
      decreases |free|, |queue|
    {
      var cur := queue[0];
      queue := queue[1..];
      ghost var pushed;
      queue, flips, g, parent, depth, free, pushed := Visit(grid, queens, cur, queue, coin, flips, g, parent, depth, free);
      pushes := pushes + pushed;
    }

    g, parent, depth := Sweep(grid, queens, g, parent, depth);

    regions := Contents(grid, g);
    Outcome(regions, queens, parent, depth);
  }
}

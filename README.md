# Queens puzzle engine — Dafny model

The game is an 8×8 queens puzzle whose board is split into coloured regions.
The player must place eight queens so that no two share a row, a column or a
region. This project models the engine behind it and the game screen's state
transitions, and proves what they promise.

- **Solution search.** A depth-first backtracking search places one queen per
  row. Each row tries the columns in an order shuffled by Fisher–Yates. A
  queen is accepted only if no earlier queen shares its row, column or
  diagonal or stands next to it.
- **Region growth.** Each queen seeds a region with its own index. The
  regions then spread by a breadth-first search in which every free
  orthogonal neighbour is taken only when a random coin allows it. A single
  row-major sweep then copies a neighbour's id into the cells that are still
  unassigned (`-1`). That sweep can leave cells at `-1`, so no contract
  claims the grid is fully covered.
- **Play rules.** The empty board; the move validator (row, column, region
  and the 3×3 block around the cell); the win check (eight queens in
  pairwise distinct rows, columns and regions, adjacency not checked).
- **Game state.** The fields `board`, `regions`, `solution` and `won` form a
  class with three actions:
  - starting a game draws solutions and region grids until the solution's
    queens fall in eight distinct regions;
  - a tap cycles a cell empty → x → queen → empty, refused while the game is
    won;
  - revealing writes the stored solution onto an empty board.

Modules:

| module | file | contents |
|---|---|---|
| `Puzzle` | `puzzle.dfy` | `SIZE`, `CellState`, `Queen`, grids, `Elems` (the set built by `new Set(...)`) |
| `SolutionGen` | `solution.dfy` | placement rule, shuffle, search and its completeness |
| `RegionGen` | `regions.dfy` | region growth over a mutable `array2<int>`, with a ghost mirror of the grid |
| `Rules` | `rules.dfy` | `createEmptyBoard`, `isValidMove`, `checkWin` |
| `App` | `app.dfy` | the game state class `Game` and the reachability results |

Randomness enters as oracle parameters:
- `shuffle`'s `Math.random()` becomes `pick: nat -> int`, and step `i` swaps
  with `pick(i) % (i + 1)`, which can be any index in `[0, i]`.
- The search's draws become `Draws`, keyed by the search node and the step.
  Each node shuffles exactly once, so every stream of draws is covered.
- The coin `Math.random() > 0.3` becomes `coin: nat -> bool`, indexed by the
  number of flips made so far.

## Model

| member | source | states |
|---|---|---|
| `SolutionGen.IsSafeClassic` | src/components/PuzzleLogic.tsx:11-31 | The candidate is safe exactly when every placed queen differs from it in row and column, is not on a shared diagonal, and is more than one king move away. |
| `SolutionGen.AdjacencyImpliedByDiagonal` | src/components/PuzzleLogic.tsx:19-27 | For queens in different rows and columns, king-adjacency implies a shared diagonal, so the adjacency test never rejects anything on its own. |
| `SolutionGen.Swap` | src/components/PuzzleLogic.tsx:39 | The destructuring swap exchanges positions i and j and leaves every other position unchanged. |
| `SolutionGen.SwapPermutes` | src/components/PuzzleLogic.tsx:39 | A swap keeps the multiset of elements. |
| `SolutionGen.FisherYates` | src/components/PuzzleLogic.tsx:37-40 | The shuffle passes from the last index down keep the length. |
| `SolutionGen.FisherYatesPermutes` | src/components/PuzzleLogic.tsx:37-40 | Any number of shuffle passes, for any draws, yields a permutation of the input. |
| `SolutionGen.Shuffle` | src/components/PuzzleLogic.tsx:33-43 | The in-place swap loop on a copied array yields exactly the Fisher–Yates result and a permutation of the argument. The argument is a value and stays unchanged. |
| `SolutionGen.Range` | src/components/PuzzleLogic.tsx:53 | `[...Array(n).keys()]` is 0 .. n-1 in order. |
| `SolutionGen.Columns` | src/components/PuzzleLogic.tsx:53 | The column order tried at a search node holds exactly the columns 0 .. SIZE-1. |
| `SolutionGen.ShuffledRangeCovers` | src/components/PuzzleLogic.tsx:53 | A shuffle of 0 .. SIZE-1 contains exactly the values 0 .. SIZE-1. |
| `SolutionGen.GenerateSolution` | src/components/PuzzleLogic.tsx:45-71 | A non-null result extends `placed`: `placed` is a prefix, each later queen sits in the next row on the board, and it does not attack any queen before it. Recursion is bounded by SIZE − row. |
| `SolutionGen.TryColumns` | src/components/PuzzleLogic.tsx:55-68 | The column loop returns the first successful recursive result, and any result extends `placed`. |
| `SolutionGen.ExtendsStep` | src/components/PuzzleLogic.tsx:57-64 | A completion of `[...placed, q]` with q safe is a completion of `placed`. |
| `SolutionGen.GenerateSolutionComplete` | src/components/PuzzleLogic.tsx:45-71 | The search returns null exactly when no safe completion of `placed` exists, whatever the draws. |
| `SolutionGen.TryColumnsComplete` | src/components/PuzzleLogic.tsx:55-70 | When the column loop fails, no completion of `placed` puts its next queen in any of the tried columns. |
| `SolutionGen.WitnessRowsSafe` | src/components/PuzzleLogic.tsx:11-31 | Every queen of one fixed placement passes the placement rule against the queens above it. |
| `SolutionGen.EightQueensExist` | src/components/PuzzleLogic.tsx:45-71 | The empty placement has a completion, so the top-level search cannot fail. |
| `SolutionGen.Solve` | src/components/PuzzleLogic.tsx:45-71 | `generateSolution()` never returns null. Its result has SIZE queens, queen i in row i with a column on the board, and every pair non-attacking. |
| `RegionGen.AssignTraces` | src/components/PuzzleLogic.tsx:106-110 | Assigning a free cell the id of an adjacent assigned cell leaves every assigned cell tracing back to its own queen. |
| `RegionGen.Assign` | src/components/PuzzleLogic.tsx:106-110 | The same assignment keeps the growth invariant: ids in range, no assigned cell changed, each queen still owns its cell. Every queue entry that could spread still can. |
| `RegionGen.ExtendJoins` | src/components/PuzzleLogic.tsx:101-110 | A walk from a queen to a cell, extended by one side-sharing step into a cell holding the same id, reaches that cell. |
| `RegionGen.WalkBack` | src/components/PuzzleLogic.tsx:97-128 | Following recorded parents from any assigned cell gives a walk of same-id side-sharing cells back to its queen. |
| `RegionGen.DirIsStep` | src/components/PuzzleLogic.tsx:82 | Each of the four directions moves to a side-sharing cell. |
| `RegionGen.Write` | src/components/PuzzleLogic.tsx:106-123 | Writing an id into a free cell next to a cell holding it changes that one grid cell. It keeps the growth invariant and makes the new entry one that can spread. |
| `RegionGen.SeedStep` | src/components/PuzzleLogic.tsx:84-86 | One turn of the seeding loop keeps its invariant: only assigned cells carry a depth, each assigned cell holds a seeded queen's index on that queen's own cell, and the queens seeded so far own their cells unless a later one overwrote them. |
| `RegionGen.Seeded` | src/components/PuzzleLogic.tsx:84-86 | After seeding, every queen not followed by another on its cell owns it, and the grid meets the growth invariant. |
| `RegionGen.Seed` | src/components/PuzzleLogic.tsx:84-86 | The seeding loop yields the seeded grid in the array. |
| `RegionGen.BoardCells` | src/components/PuzzleLogic.tsx:78-80 | The board has at most SIZE·SIZE cells. |
| `RegionGen.FreeShrinks` | src/components/PuzzleLogic.tsx:106-110 | Assigning a free cell removes exactly one cell from the free set. Every cell still at -1 is in the smaller set. |
| `RegionGen.SpreadsAppend` | src/components/PuzzleLogic.tsx:110 | Pushing a spreading entry onto a queue of spreading entries gives a queue of spreading entries. |
| `RegionGen.NbrsDistinct` | src/components/PuzzleLogic.tsx:82 | The four directions lead from a cell to four different cells. |
| `RegionGen.TurnedUntouched` | src/components/PuzzleLogic.tsx:101-113 | The directions tried so far leave the neighbours of later directions as they were at the start of the turn. |
| `RegionGen.TurnedSettled` | src/components/PuzzleLogic.tsx:106-111 | Once its direction has been tried, a neighbour that was unassigned at the start of the turn holds `cur`'s id exactly when the draw it was offered was positive. |
| `RegionGen.TurnOutcome` | src/components/PuzzleLogic.tsx:101-113 | After a whole turn, each neighbour unassigned at its start holds `cur`'s id exactly when its draw was positive. The draw it is offered is the next one after those of the unassigned neighbours before it in direction order. |
| `RegionGen.SpawnedTake` | src/components/PuzzleLogic.tsx:110 | A positive draw for a free neighbour appends that neighbour, with `cur`'s id, to the queue the turn has built so far. |
| `RegionGen.TurnStep` | src/components/PuzzleLogic.tsx:101-113 | One more direction draws a coin exactly when its neighbour is free. On a positive draw it writes `cur`'s id to that neighbour and appends one entry; otherwise it changes neither the grid nor the queue. |
| `RegionGen.SpawnedPushed` | src/components/PuzzleLogic.tsx:110 | Every entry a turn pushes carries `cur`'s id and sits on a cell sharing a side with `cur`'s, and the original queue is kept as a prefix. |
| `RegionGen.TurnedWidened` | src/components/PuzzleLogic.tsx:106-109 | A turn changes only cells that were unassigned, share a side with `cur` and now hold `cur`'s id. |
| `RegionGen.OfferAccount` | src/components/PuzzleLogic.tsx:101-113 | A direction that does nothing to an off-board or assigned neighbour, draws once for a free one, and writes and pushes on a positive draw advances the turn by exactly one direction. |
| `RegionGen.Take` | src/components/PuzzleLogic.tsx:109-110 | A positive draw writes `cur`'s id into the free neighbour and changes no other cell. It appends exactly that entry and uses up one free cell, keeping the growth invariant and the queue's spreading. |
| `RegionGen.Offer` | src/components/PuzzleLogic.tsx:103-112 | One direction turns the grid, queue and draw count after the directions before it into those after it, as the turn's definition prescribes. It keeps the growth invariant and uses up at most one free cell. |
| `RegionGen.Visit` | src/components/PuzzleLogic.tsx:99-113 | One turn of the search loop gives exactly the grid, queue and draw count that trying the four directions in order gives: each free neighbour draws the next coin and, on a positive draw, takes `cur`'s id and is appended to the queue. So the turn only appends entries with `cur`'s id on cells next to `cur`'s, and overwrites no assigned cell. Each push uses up one free cell, and the growth invariant and the queue's spreading are kept. |
| `RegionGen.PushedStep` | src/components/PuzzleLogic.tsx:110 | Pushing an entry with `cur`'s id on a side-neighbour of `cur` keeps the queue an extension of the original by such entries. |
| `RegionGen.WidenedStep` | src/components/PuzzleLogic.tsx:106-109 | Writing `cur`'s id into an unassigned side-neighbour of `cur` keeps every change since the turn began a change of an unassigned side-neighbour to `cur`'s id. |
| `RegionGen.FirstAssignedNone` | src/components/PuzzleLogic.tsx:119-125 | The search through the remaining directions finds no id exactly when none of those in-board neighbours is assigned. |
| `RegionGen.IsolatedIffNone` | src/components/PuzzleLogic.tsx:119-125 | A cell has no assigned in-board neighbour exactly when the search for one finds nothing. |
| `RegionGen.UpdateOne` | src/components/PuzzleLogic.tsx:122 | Writing one cell of the grid changes that cell and no other. |
| `RegionGen.FirstNeighbour` | src/components/PuzzleLogic.tsx:119-125 | The search returns the first direction whose neighbour is on the board and assigned, and that neighbour's id is the first assigned one in direction order. If it returns past the last direction, no in-board neighbour is assigned. |
| `RegionGen.CopyFrom` | src/components/PuzzleLogic.tsx:121-123 | An unassigned cell copies the id of an adjacent assigned cell, changing only that cell, and the growth invariant is kept. |
| `RegionGen.Fill` | src/components/PuzzleLogic.tsx:118-126 | One cell of the sweep changes only that cell, and only if it was unassigned. It then takes the id of its first assigned in-board neighbour in direction order, or stays -1 when there is none. If it stays unassigned, none of its in-board neighbours was assigned. The growth invariant is kept. |
| `RegionGen.FillStep` | src/components/PuzzleLogic.tsx:116-128 | After each cell in row-major order, the cells assigned before the sweep still hold their ids, and every cell visited and left unassigned had no assigned neighbour before the sweep. |
| `RegionGen.ChainStep` | src/components/PuzzleLogic.tsx:116-128 | Filling one cell in place keeps the earlier cells. The cell is left unassigned only when its upper and left neighbours, already visited, are unassigned. |
| `RegionGen.Sweep` | src/components/PuzzleLogic.tsx:116-128 | The sweep keeps every cell assigned before it, and every cell it leaves at -1 had no assigned in-board neighbour before the sweep. Because it writes in place, a cell left at -1 also has its upper and left neighbours at -1 at the end. It keeps the growth invariant, so each cell it fills traces back, through an adjacent cell holding the same id, to that id's queen. |
| `RegionGen.Contents` | src/components/PuzzleLogic.tsx:130 | The returned grid is exactly the grid the array holds. |
| `RegionGen.Outcome` | src/components/PuzzleLogic.tsx:84-128 | On a grown grid: every cell is -1 or a queen index, each queen not followed by another on its cell owns it, queens on distinct cells get distinct ids, and every assigned cell is joined to its queen. |
| `RegionGen.GenerateRegionsFromSolution` | src/components/PuzzleLogic.tsx:74-131 | The result is an 8×8 grid of -1 or queen indices. Queen i's cell holds i, unless a later queen stands on it, and distinct queens get distinct ids. Every assigned cell is joined to its queen by same-id side-sharing cells. The search pushes at most SIZE·SIZE entries. |
| `Rules.CreateEmptyBoard` | src/components/PuzzleLogic.tsx:134-138 | The board is SIZE×SIZE with every cell empty. |
| `Rules.IsValidMove` | src/components/PuzzleLogic.tsx:141-176 | The move is refused exactly when some queen is in row r, in column c, in the region of (r, c), or in the 3×3 block around (r, c). |
| `Rules.Rows` | src/components/PuzzleLogic.tsx:194 | The rows of the listed queens, in order. |
| `Rules.Cols` | src/components/PuzzleLogic.tsx:195 | The columns of the listed queens, in order. |
| `Rules.RegionIds` | src/components/PuzzleLogic.tsx:196 | The region ids at the listed queens, in order. |
| `Rules.CheckWin` | src/components/PuzzleLogic.tsx:179-199 | The board wins exactly when it holds SIZE queens in pairwise distinct rows, columns and regions. |
| `Rules.ListedQueens` | src/components/PuzzleLogic.tsx:184-198 | For a list naming every queen cell once, the win holds exactly when the list has SIZE entries and its row, column and region sets each have SIZE elements. |
| `Rules.ListedQueensCount` | src/components/PuzzleLogic.tsx:184-192 | Such a list has as many entries as the board has queens. |
| `Rules.ListedQueensLines` | src/components/PuzzleLogic.tsx:194-198 | Queens pairwise differ in rows, columns and regions exactly when the listed rows, columns and region ids are each free of repeats. |
| `Rules.EmptyBoardNotWon` | src/components/PuzzleLogic.tsx:179-192 | The empty board is never a win. |
| `Rules.DiagonalNeighbourRefused` | src/components/PuzzleLogic.tsx:164-173 | With a queen at (0, 0), a queen at (1, 1) is refused. |
| `Rules.DistantDiagonalAllowed` | src/components/PuzzleLogic.tsx:141-176 | A queen two cells away on the same diagonal is accepted, because the validator checks no diagonals beyond the 3×3 block. |
| `Rules.WinIgnoresAdjacency` | src/components/PuzzleLogic.tsx:179-199 | Eight queens on the main diagonal, with one region per row, win although the queens touch. |
| `Puzzle.Elems` | src/components/PuzzleLogic.tsx:194-196 | `new Set(s)` holds exactly the elements of s. |
| `Puzzle.ElemsSize` | src/components/PuzzleLogic.tsx:194-198 | The set built from a sequence is no larger than it. Its size equals the sequence's length exactly when no element repeats. |
| `App.EmptyBoardNoConflicts` | src/App.tsx:37 | The empty board has no conflicting queens. |
| `App.Tapped` | src/App.tsx:48-59 | A tap changes only cell (r, c): empty becomes x, queen becomes empty. x becomes queen only when the validator accepts it on the board before the tap, and stays x otherwise. |
| `App.TapKeepsNoConflicts` | src/App.tsx:45-66 | A tap never brings two queens into the same row, column or region, or next to each other. |
| `App.Replay` | src/App.tsx:45-66 | Replaying taps in order, frozen once the board is won, yields an 8×8 board. |
| `App.ReplayKeepsNoConflicts` | src/App.tsx:45-66 | Replaying any taps from a conflict-free board keeps it conflict-free. |
| `App.ReachableBoardsConflictFree` | src/App.tsx:45-66 | On every board reached by taps from the empty board, any two queens differ in row, column and region, and are more than one king move apart. |
| `App.SolutionRegionIds` | src/App.tsx:32 | The region ids at the solution's queens, in row order. |
| `App.SolvedBoardWins` | src/App.tsx:68-77 | The revealed solution, with its queens in distinct regions, is a win and has no conflicting queens. |
| `App.GuardMeansCompatible` | src/App.tsx:31-33 | The `startGame` loop guard is false exactly when the solution's queens lie in pairwise distinct regions. |
| `App.Game.constructor` | src/App.tsx:41-43 | Mounting starts a game: the state is consistent, the board is empty and the game is not won. The solution and regions come from the first drawn attempt whose regions give the solution's queens distinct ids, with every earlier attempt rejected. |
| `App.Game.StartGame` | src/App.tsx:24-39 | The loop keeps the first attempt whose solution's queens lie in distinct regions; every earlier attempt failed the guard. It stores that solution and grid with an empty board and `won` false. |
| `App.Game.HandleTap` | src/App.tsx:45-66 | A won game is frozen. Otherwise the board becomes the tapped board, and `won` becomes true exactly when it is a win. The regions and the solution are unchanged and the state stays consistent. |
| `App.Game.SolvePuzzle` | src/App.tsx:68-77 | The board shows queens exactly at the solution's cells and is empty elsewhere. It is a win and `won` is true. |

## Left out
- JSX rendering, MUI components, styling, the `hsl` region colours and the background image are presentation only.
- The player name, the `visible` flag and their screens are UI state with no logic.
- React's `useState`/`useEffect` become fields of `App.Game` updated by its methods. Batched setter updates and re-rendering are not modelled.
- `Math.random()` is replaced by oracle parameters; the distribution of draws is not modelled.
- `generateRegions`, imported by `src/App.tsx:6`, is not part of this model because the engine file does not define it. The region grid of each `startGame` attempt is an input (`App.Attempt`).
- App.Game.StartGame: the loop ends only with probability one. The model takes the sequence of attempts and requires that the last one passes the guard.
- RegionGen.GenerateRegionsFromSolution: requires every queen to lie on the board. The source's behaviour for an off-board queen is not modelled: an off-board row throws a TypeError when the seed is written, and an off-board column writes outside the row's SIZE cells without an error. Nothing in `src/App.tsx` calls this function, and a solution's queens always lie on the board.
- RegionGen.GenerateRegionsFromSolution: does not claim every cell is assigned, because the single sweep can leave a cell at -1 when none of its neighbours is assigned by the time it is visited.
- RegionGen.GenerateRegionsFromSolution: the queue is a sequence value reassigned on shift and push. The grid is an `array2<int>` mirrored by a ghost sequence.
- App.Game.HandleTap: `board.map(row => [...row])` is a copy of a value, so aliasing between the old and the new board is not modelled.
- App.Game.SolvePuzzle: assumes the stored solution lies in distinct regions, as after `startGame`. It is never called before a game has started.

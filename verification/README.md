# A verified model of a stack-based Sudoku solver

This project models the solving engine of a small Python Sudoku solver
(`main.py`) in Dafny and proves what its operations compute.

The solver works on an N x N grid of integers, where 0 marks an empty cell
and N = k * k for a block side k. Its parts, and the modules that model
them, are:

- **Grid views** (`SudokuGrid`). A row, a column and the block of a cell.
  The block partition `BLOCKS` is built once per puzzle. The module
  globals `NUMBERS` and `BLOCKS` become an immutable `Config(k)` passed to
  every operation. A grid that the solver changes in place is a `Grid`
  object with a `cells` field. `BaseK` holds the base-k digit arithmetic
  behind the block partition.
- **Validator** (`Validator`). `is_valid` checks every row, every column
  and every block against the values 1..N. `Consistency` defines a
  conflict-free grid (no unit holds a value twice) and proves that a full
  conflict-free grid is exactly a grid `is_valid` accepts.
- **Candidate engine** (`CandidateEngine`).
  - `possible_per_spot` gives the values still legal for one empty cell.
  - `build_possible_positions` maps every empty cell to its candidates.
- **Propagation** (`Propagation`).
  - `fill_guaranteed` walks the candidate map, largest candidate set
    first. It drops cells without candidates. It writes the only
    candidate of the first single-candidate cell it meets, then starts
    over.
  - The walk order (a stable sort over the dictionary's row-major
    insertion order) is modelled exactly, in `KeySort`.
  - The ghost function `Propagate` gives the grid the loop leaves behind.
- **Search** (`Search`). `solve_stack` is a depth-first search over an
  explicit stack of grids. It branches on the empty cell with the fewest
  candidates, or on the first empty cell in "dumb" mode.
- **Reader** (`Parser`).
  - `parse_int` splits a line into tokens.
  - `parse_sudoku` rejects bad tokens, empty input and a row count that
    differs from the length of the first row.

The main results:

- **Search.** `solve_stack` terminates. The measure is the sum over the
  stack of (N+1)^(empty cells). It returns either a grid without empty
  cells that keeps every given of the input, or the input object. The
  input object comes back with empty cells only when the input has no
  solution. When the input has a solution, the result is a solution of
  it: every value the search writes is a candidate, so no grid on the
  stack ever holds a conflict. An input whose givens conflict has no
  solution, and for it the search may still return a full grid that
  `is_valid` rejects, as the source does.
- **Propagation.** Propagation keeps exactly the solutions of the grid it
  starts from.
- **Block partition.** The blocks partition the grid.
- **Candidate map.** The map has exactly the empty cells as keys.
- **Reader.** Reading back the plain printout of a grid gives the grid.

On a search that fails, the docstring of `solve_sudoku` (`main.py:79-80`)
says that an unsolvable sudoku comes back as the original one. The code
returns the input object itself (`main.py:151`), but only after the first
call of `fill_guaranteed` has filled it in place (`main.py:112-123`). The
model follows the code. `Search.SolveStack` ensures
`sudoku.cells == Propagate(old(sudoku.cells))`, that an unsolvable
input without conflicting givens comes back as the input object, and that
so does an input the first propagation leaves without empty cells.

## Model

| member | source | states |
|---|---|---|
| SudokuGrid.SetCell | main.py:140-141 | the copy keeps the grid's shape, holds v at (row, col) and equals the grid at every other cell |
| SudokuGrid.Row | main.py:220-222 | row i has the length of the grid's row i, entry j being the value in row i, column j |
| SudokuGrid.Column | main.py:225-228 | column i has N entries, entry j being the value in row j, column i |
| SudokuGrid.Blocks | main.py:58-61 | the partition has N blocks of N coordinates each |
| SudokuGrid.BlocksPartition | main.py:58-61 | every coordinate lies on the grid, no block lists a cell twice, a cell lies in block b exactly when b is its block index, every cell of the grid has a block index in 0..N-1, and two cells have the same block index exactly when they lie in the same k x k square: the blocks partition the N x N cells |
| SudokuGrid.BlockMembership | main.py:58-61 | a cell is in block b if and only if b == (row / k) * k + col / k |
| SudokuGrid.BlockCoordinates | main.py:58-61 | (row, col) sits in the block with that index, at offset (col % k) * k + row % k |
| SudokuGrid.BlockCorner | main.py:58-61 | block b's corner ((b / k) * k, (b % k) * k) is on the grid and lies in block b |
| SudokuGrid.GetBlock | main.py:231-244 | the linear search over the partition stops at the block that holds (row, col), and the result is the values at that block's coordinates |
| SudokuGrid.BlockAtCorner | main.py:231-244 | value t of the block of (row, col) is the cell t % k rows below and t / k columns right of ((row / k) * k, (col / k) * k) |
| SudokuGrid.ZeroCells | main.py:202-205 | exactly the cells on the grid that hold 0 |
| SudokuGrid.FillOneZero | main.py:186 | writing a non-zero value into an empty cell removes exactly that cell from the empty cells, so their number drops by one |
| SudokuGrid.FillExtends | main.py:140-141 | writing into an empty cell keeps every non-zero cell, and a solution holding that value there still completes the new grid |
| SudokuGrid.Grid.constructor | main.py:140 | a new grid object holding the given cells |
| SudokuGrid.Grid.Set | main.py:186 | the cells become the old cells with v written at (row, col) |
| Validator.NumbersUpTo | main.py:56 | the set holds exactly 1..n and has n members |
| Validator.IsValid | main.py:247-258 | true exactly when for every pair (i, j) row i, column j and the block of (i, j) each hold 1..N once |
| Validator.PermutationMembers | main.py:253-256 | a unit that sorts to 1..N has N entries, each within 1..N |
| Validator.PermutationDistinct | main.py:253-256 | a unit that sorts to 1..N holds no value twice |
| Validator.ValidGridIsFull | main.py:247-258 | a grid the validator accepts has no empty cell and only values in 1..N |
| Validator.ValidGridUnits | main.py:247-258 | checking every pair (i, j) is the same as checking every row, every column and every one of the N blocks |
| CandidateEngine.PossiblePerSpot | main.py:210-217 | the result is the set of values in 1..N absent from the cell's column, row and block |
| CandidateEngine.CandidatesAvoidUnits | main.py:210-217 | a value is a candidate of (row, col) exactly when it is in 1..N and no cell of the same row, the same column or the same k x k block holds it |
| CandidateEngine.BuildPossiblePositions | main.py:198-207 | the keys are exactly the empty cells, each mapped to its candidate set; the grid is a value and cannot change |
| CandidateEngine.CandidatesWithinNumbers | main.py:213-215 | every candidate is in 1..N (0 never is), so a cell has at most N candidates |
| CandidateEngine.CandidateSound | main.py:213-215 | the value a solution puts into an empty cell is among that cell's candidates |
| CandidateEngine.EmptyCandidatesUnsolvable | main.py:173-174 | an empty cell without candidates leaves the grid without solutions |
| Propagation.OpenInRow | main.py:203-205 | the empty cells of one row from a column on, left to right |
| Propagation.OpenFrom | main.py:202-205 | the empty cells of the rows from `row` on, in row-major order |
| Propagation.OpenCells | main.py:202-205 | the dictionary's key order: exactly the empty cells, in row-major order, each once |
| KeySort.BucketMember | main.py:168-170 | a key is in the group of size s exactly when it is a key with s candidates |
| KeySort.DescMember | main.py:168-170 | the sorted keys are exactly the keys with at most `size` candidates, so with size N all the keys |
| KeySort.SizeDescendingSorted | main.py:168-170 | the sorted keys come in non-increasing order of candidate count |
| KeySort.SizeDescendingDistinct | main.py:168-170 | sorting lists no key twice |
| KeySort.FirstOfSize | main.py:168-170 | the first sorted key with a given count is the first key with that count in dictionary order, so the sort is stable |
| KeySort.FewestIndex | main.py:132-133 | the first sorted key: a key with the fewest candidates, all keys before it having strictly more |
| Propagation.FirstForced | main.py:168-177 | the cell the walk fills is empty and has exactly one candidate |
| Propagation.FirstForcedIsFirst | main.py:168-177 | that cell comes first in row-major order among such cells, and there is none exactly when no empty cell has one candidate |
| Propagation.ScanFrom | main.py:168-177 | a cell found by the row-major scan is empty and has exactly one candidate |
| Propagation.ScanFromFirst | main.py:168-177 | the scan from (row, col) finds the first such cell at or after (row, col), and finds none exactly when all such cells lie before it |
| Propagation.FirstSingleton | main.py:168-177 | the first cell of the whole grid found by the scan is empty and has exactly one candidate |
| Propagation.FirstForcedIsFirstSingleton | main.py:168-177 | the walk, largest candidate set first, meets the same single-candidate cell as a plain row-major scan |
| Propagation.OnlyMember | main.py:182 | the value popped from a one-element set is its member |
| Propagation.Propagate | main.py:158-191 | the grid the loop leaves behind keeps every non-zero cell of the input and has no more empty cells |
| Propagation.PropagateFixpoint | main.py:160-191 | the loop stops only when no empty cell has exactly one candidate |
| Propagation.FillForced | main.py:177-186 | writing the only candidate into the forced cell keeps every given and removes one empty cell, so each restart fills one more cell and the loop ends |
| Propagation.ForcedStep | main.py:177-186 | the written value is the cell's only candidate, the grid loses one empty cell and still propagates to the same result |
| Propagation.WalkOrder | main.py:168-170 | the walk visits every key of the map exactly once |
| Propagation.WalkForced | main.py:172-186 | when the walk first meets a key with one candidate at position i, that key is the forced cell |
| Propagation.WalkMissesForced | main.py:168-191 | a walk that meets no key with one candidate leaves no forced cell |
| Propagation.DroppedLookup | main.py:172-177 | the key the walk reaches is still in the map with its original candidates |
| Propagation.WalkDoneMap | main.py:172-174 | a walk over every key leaves the live candidate map |
| Propagation.FirstSingleKey | main.py:168-186 | the key where the walk stops is one of the walked keys and has exactly one candidate |
| Propagation.FirstSingleKeyIndex | main.py:168-186 | every key before the one where the walk stops has a candidate count other than one; when the walk does not stop, no key has exactly one |
| Propagation.FirstSingleKeyPast | main.py:173-177 | walking past a key without exactly one candidate does not change where the walk stops |
| Propagation.WalkKeys | main.py:168-191 | the walk stops at the first key in the given order with one candidate and takes a value from that key's set; a walk that does not stop returns the map without the keys that had no candidates |
| Propagation.WalkFindsFirstSingleton | main.py:168-186 | the first key with one candidate in the size-descending order of the candidate map is the first empty cell, in row-major order, with one candidate |
| Propagation.FillPass | main.py:162-191 | one pass either writes the only candidate into the first single-candidate cell and loses an empty cell, or writes nothing and returns the empty-cell count and the live candidate map of a grid at the fixpoint |
| Propagation.DroppedStep | main.py:173-174 | visiting a key drops it from the map exactly when its candidate set is empty |
| Propagation.FillGuaranteed | main.py:154-195 | the grid becomes Propagate of the input, the open count is its number of empty cells, and the map holds its empty cells that have candidates, each with at least two of them |
| Propagation.ForcedSameSolutions | main.py:177-186 | writing a cell's only candidate keeps exactly the solutions the grid had |
| Propagation.PropagateSameSolutions | main.py:158-191 | a grid and its propagated form have the same solutions |
| Propagation.LiveCandidatesAtFixpoint | main.py:172-195 | at a grid with no forced cell, every key of the map is an empty cell with at least two candidates |
| Propagation.PropagatedLiveCandidates | main.py:160-195 | every key of the map returned for a propagated grid is an empty cell with at least two candidates |
| Propagation.LiveCandidatesCount | main.py:125-127 | the map has at most as many keys as there are empty cells; it has as many exactly when it is the full candidate map; fewer means the grid has no solution |
| Propagation.LiveCandidatesComplete | main.py:125-127 | the returned map is the full candidate map exactly when every empty cell still has a candidate |
| Propagation.PropagateNoConflicts | main.py:177-186 | propagation keeps a conflict-free grid conflict-free |
| Consistency.CandidateAvoidsPeers | main.py:213-215 | a candidate of a cell is the value of no other cell in its row, column or block |
| Consistency.FillCandidateKeeps | main.py:213-215 | writing a candidate into an empty cell of a conflict-free grid keeps it conflict-free |
| Consistency.ValidNoConflicts | main.py:247-258 | a grid the validator accepts is conflict-free |
| Consistency.SolvableNoConflicts | main.py:247-258 | a grid that has a solution is conflict-free |
| Consistency.DistinctInRangePermutation | main.py:253-256 | N values in 1..N without a repetition hold each of 1..N exactly once |
| Consistency.FullUnitsHold | main.py:247-258 | in a full conflict-free grid, row i, column j and the block of (i, j) each hold 1..N once |
| Consistency.FullNoConflictsValid | main.py:247-258 | the validator accepts a grid exactly when it has no empty cell and no conflict |
| Search.ChooseKey | main.py:129-133 | the branching key is an empty cell |
| Search.ChooseKeySpec | main.py:129-133 | in dumb mode the key is the first empty cell in row-major order; otherwise it has the fewest candidates, and every empty cell before it has more |
| Search.Children | main.py:138-143 | one pushed grid per value, in push order |
| Search.Branch | main.py:138-143 | the pushed grids are the copies of the grid with each candidate written at the key, each candidate exactly once, in an order the set iteration leaves open |
| Search.ChildrenGrids | main.py:140-141 | each copy has one empty cell fewer than its parent and keeps every given of the input |
| Search.ChildrenNoConflicts | main.py:138-141 | the copies of a conflict-free grid with a candidate written at the key are conflict-free |
| Search.ChildCompletes | main.py:138-143 | a solution of the parent completes the copy that holds its value at the key |
| Search.ChildrenCover | main.py:138-143 | replacing a grid by its copies loses no solution |
| Consistency.DistinctCount | main.py:138-143 | a listing of a set without repetitions has as many entries as the set has members, so one copy is pushed per candidate |
| Search.WeightAppend | main.py:138-143 | pushing grids with z empty cells adds (N+1)^z per grid to the stack's weight |
| Search.ChildrenLighter | main.py:138-143 | at most N children with fewer empty cells weigh less than their parent |
| Search.ChildrenLighterOnStack | main.py:138-143 | the stack with the children pushed weighs less than the stack holding the parent |
| Search.FrontierStart | main.py:112 | the stack holding only the input keeps the input's givens and covers its solutions |
| Search.FrontierEmpty | main.py:151 | an empty stack that covers every solution of the input means the input has none |
| Search.CoverPop | main.py:119-120 | after the top grid is popped and propagated, every solution it covered completes the propagated grid |
| Search.SolvedStep | main.py:122-123 | the propagated top grid keeps every given of the input, and when it has no empty cell and the input has a solution, or has no conflicting givens, it is a solution of the input |
| Search.DeadEndStep | main.py:125-149 | discarding a grid without solutions keeps every solution covered and lightens the stack |
| Search.BranchStep | main.py:125-143 | replacing the popped grid by its copies keeps every solution covered and lightens the stack |
| Search.Advance | main.py:119-143 | each turn that does not return keeps the search invariant and lightens the stack |
| Search.Expand | main.py:119-149 | the popped grid becomes Propagate of itself; solved exactly when no empty cell is left; otherwise it branches exactly when every empty cell still has a candidate, on the key ChooseKey picks for the branching mode, with one copy per candidate of that key; it branches on nothing only for a grid without solutions |
| Search.SolveStack | main.py:108-151 | the result keeps every given of the input and has no empty cells, unless it is the input object and the input has no solution; when the input has a solution the result is one; an unsolvable input without conflicting givens comes back as the input object itself, and so does an input that the first propagation leaves full (`return top` on the first popped grid); the input object ends up propagated |
| Parser.WordEnd | main.py:69 | the run of non-separators starting at i ends at a separator or at the end of the line |
| Parser.Split | main.py:69 | every token is non-empty and holds no separator |
| Parser.SplitToken | main.py:69 | a token followed by a separator or by nothing splits off whole |
| Parser.SplitPrinted | main.py:261-266 | a line of the plain printout splits into the decimal forms of its values |
| Parser.Decimal | main.py:265 | str(n) is a digit string without a leading zero |
| Parser.DecimalRoundTrip | main.py:73-74 | int(str(n)) == n |
| Parser.DecimalCanonical | main.py:73-74 | str(int(t)) == t for a digit string without a leading zero |
| Parser.ParseToken | main.py:70-75 | an accepted token has a value of at least 0; a rejected one raises the wrong-characters error |
| Parser.ParseTokenAccepts | main.py:70-75 | a token is accepted exactly when it is "_" or a digit string; "_" is 0 |
| Parser.ParseDecimal | main.py:73-74 | the decimal form of a value reads back as that value |
| Parser.ParseTokens | main.py:69-75 | a line is accepted exactly when every token is, and then its values are the tokens' values in order |
| Parser.ParseInt | main.py:66-75 | a line is accepted exactly when each of its tokens is, and then it yields one value per token, in order, each the token's value; a rejected line raises the wrong-characters error |
| Parser.ParsePrintedLine | main.py:66-75 | parse_int reads a printed row back as that row |
| Parser.ParseLines | main.py:31-34 | all lines are accepted exactly when each is, and then row i is line i's values |
| Parser.ParseSudoku | main.py:38-46 | an accepted file has at least one row, as many rows as lines, row i being line i's values, and as many rows as its first row has entries |
| Parser.ParseSudokuOutcome | main.py:31-46 | a bad token anywhere is the wrong-characters error; no lines is the empty error; otherwise a row count different from the length of the first row is the not-square error; on success only the first row's length is known |
| Parser.ParseSudokuRoundTrip | main.py:31-46 | the printout of an N x N grid reads back as that grid |
| Parser.BlockSideOf | main.py:48 | the block side is the largest k with k * k at most the row count |
| Parser.BlockSideOfSquare | main.py:48 | for N = k * k rows the block side is k |

## Left out

- `recognize.py`: it reads a grid from a photograph through an external computer-vision library, and holds no algorithm of its own to verify.
- Reading the file (`open`, the missing-file error, `main.py:31-37`): the reader takes the file's lines as a sequence of strings.
- Printing and the command line: the verbose traces, `pretty_print_sudoku`, the timing harness of `solve_sudoku` and `main`'s argument handling. `Parser.PrintedLine` gives the text of one line of `dirty_print_sudoku`, only as the reader's partner in the round-trip lemmas.
- The unused global `POSITIONS`.
- Parser.IsSpace: `str.split()` and `str.isdigit()` also accept non-ASCII whitespace and digits; the model knows the ASCII ones only.
- Parser.BlockSideOf: `int(math.sqrt(size))` is computed in floating point; the model uses the exact integer square root, which agrees with it for every grid size in practice.
- Grids that are ragged, or whose size N is not a square: the engine requires an N x N grid for a `Config(k)` with N = k * k. The reader checks only that the row count equals the length of the first row, as the source does.
- Search.Branch: Python iterates a set in hash order; the model leaves the order of the pushed copies open.
- Search.SolveStack: the stack holds grid values, and a `Grid` object is allocated for a copy when it is popped rather than when it is pushed. Every copy is an independent grid in both versions, so no aliasing is lost.
- Propagation.FillPass and Search.Expand are the bodies of the loops of `fill_guaranteed` and `solve_stack`, written as methods of their own.
- Propagation.WalkKeys: the inner loop returns the key it stopped at and the value it popped, and `FillPass` writes that value into the grid. In the source the write happens inside the loop, just before `break`. Nothing runs between the two, so the grid ends up the same.

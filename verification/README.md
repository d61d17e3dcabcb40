# Verified models of the algorithmic and concurrent cores

This project models the self-contained cores of a collection of systems recipes and of the muduo C++
library, and proves what they are for. Code that updates things in place is modelled by classes and
methods that do the same, each proved against a specification; protocols between threads are state
machines over the steps of their threads, and their results hold for every run.

- **Exact cover by dancing links** (`Chains`, `LinkMatrix`, `ExactCover`, `MatrixBuild`, `DancingLinks`). The toroidal
  lists live in arrays of indices. `LinkMatrix.Rep` says what it means for links to represent a matrix with some
  columns covered. Cover is proved to go from one such state to the next and uncover to restore every link exactly.
- **Sudoku on top of it** (`SudokuRules`, `SudokuEncoding`, `SudokuBuild`, `SudokuSearch`, `SudokuSolver`), from the 81
  characters of a puzzle to the result, with the counting argument that covers contradictory puzzles.
- **Queens three ways**: dancing links with optional diagonals (`QueenEncoding`, `CountCovers`, `QueenSolver`), tables
  (`QueenArrays`) and bit masks with the mirror-image halving (`Bits`, `QueenMasks`), all against one definition
  (`Queens`).
- **Backtracking with an incremental cache** (`NeighborSearch`, `CacheSolver`, `SudokuTable`), for any symmetric
  neighbour table, and then for the 9 by 9 board.
- **Arbitrary-precision integers** (`Limbs`, `BigInt`, `Numerals`, `BigIntText`) and two clients, the four Fibonacci
  programs (`Fibonacci`) and the exact decimal expansion of binary fractions (`ExactDecimal`).
- **Protocols**: the bounded queue and the thread pool (`BlockingQueue`), and the double-buffered logger (`LogBuffer`,
  `AsyncLogging`).
- **Fast forms against simple ones**: the ring buffers of per-second statistics (`SudokuStat`), sorting words by
  frequency in bounded memory (`WordCounts`, `WordFreq`), packets over a fragmented stream (`Framing`), breadth-first
  search over jug states (`WaterPour`) and calendar arithmetic (`Calendar`).

`Finite`, `Chains` and `Options` hold facts about finite sets and circular lists and the option type. `dfyconfig.toml` names all files.

How the models relate to the code:

- Node pointers are indices, a null column is 0 and nodes come out of the arrays zeroed, as memZero leaves them. The
  body of the row loop in `solve` is a method of its own (`TryRow`, `CountRow`), and the constructors are split
  into the steps that fill the matrix.
- Limbs are numbers below 2^32; carries and products are checked to stay below 2^64, and the wrap-around that `sub`
  relies on is written out. Counters and times that the code keeps in 64 bits are unbounded.
- An assert that aborts is a refusal in the result (`Sub`), a precondition, or, in the logger, a predicate that every
  run is shown to satisfy.
- A thread is a program counter; a step is a lock grant, the work between two waits or a spurious wake-up. A signal
  wakes some sleeper if there is one.
- Files are sequences of lines, the heap functions and `std::sort` are modelled by what they promise.

Where the code falls short of what one would expect, the exact condition is proved: `backtracking(1)` is 0
(`QueenMasks.Backtracking`); the neighbour search accepts conflicting givens (`SudokuTable.FoundIsValid`); `add(0)` on
an empty number and `parseHex` of long zero-padded strings leave normal form (`AddSmall`, `ParseHex`, `NineZeros`); a queue of size 0
can block both sides (`BlockingQueue.StuckWithoutRoom`); an empty packet at the end of a stream is held back
(`Framing.RoundTrip`); a window of statistics that ends at second 0 is lost (`SudokuStat.EarlyTimes`); day numbers below -32044 decode to no date (`Calendar.ValidExactly`), and valid dates before
1 March -4800 are not read back, among them 29 February -4800, which shares its number with the day after it
(`Calendar.DateRoundTrip`, `Calendar.LeapDay`, `Calendar.NextDayNumber`).

## Model

| member | source | states |
|---|---|---|
| LinkMatrix.RelinkUndoesUnlink | Linux多线程服务端编程/muduo/examples/sudoku/sudoku.cc:223-239 | putting a node back into its column right after taking it out restores every link and size, given only that its neighbours point at it |
| LinkMatrix.ShowUndoesHide | Linux多线程服务端编程/muduo/examples/sudoku/sudoku.cc:218-242 | the same for a column header in the header list |
| LinkMatrix.UnlinkAllRep | Linux多线程服务端编程/muduo/examples/sudoku/sudoku.cc:222-228 | taking any distinct linked nodes out one by one leaves exactly the other nodes in each column list, with the size field equal to the length of the list, and no row list touched |
| LinkMatrix.RemovedSet | Linux多线程服务端编程/muduo/examples/sudoku/sudoku.cc:222-228 | the nodes that covering a column unlinks are exactly the linked nodes of other columns that share a row with it |
| LinkMatrix.HideHeaderRep | Linux多线程服务端编程/muduo/examples/sudoku/sudoku.cc:218-221 | hiding a header leaves the header list of the other open columns, in order |
| LinkMatrix.CoverRep | Linux多线程服务端编程/muduo/examples/sudoku/sudoku.cc:218-229 | after cover(c) the links represent the matrix with the covered columns extended by c: header list, vertical lists, sizes and row lists |
| LinkMatrix.WalkStep | Linux多线程服务端编程/muduo/examples/sudoku/sudoku.cc:222-241 | the links after each single unlink of a cover, and that relinking that node goes back exactly one step |
| LinkMatrix.StageLists | Linux多线程服务端编程/muduo/examples/sudoku/sudoku.cc:222-237 | while a column is being covered or uncovered its own vertical list and all row lists stay walkable |
| DancingLinks.NodeArray.NewNode | Linux多线程服务端编程/muduo/examples/sudoku/sudoku.cc:144-156 | a new node is linked to itself in all directions and nothing else changes |
| DancingLinks.NodeArray.PutLeft | Linux多线程服务端编程/muduo/examples/sudoku/sudoku.cc:244-250 | the whole new link state after inserting a node to the left of another |
| DancingLinks.NodeArray.PutUp | Linux多线程服务端编程/muduo/examples/sudoku/sudoku.cc:252-260 | the whole new link state after inserting a node above another, with column and size |
| DancingLinks.NodeArray.AppendColumn | Linux多线程服务端编程/muduo/examples/sudoku/sudoku.cc:158-165 | the links represent the matrix with one more empty column at the end of the header list |
| DancingLinks.NodeArray.NewOptionalColumn | Linux多线程服务端编程/recipes/puzzle/nqueens_dl.cc:44-51 | the links represent the matrix with one more column that is in no header list, so that it may be left uncovered |
| DancingLinks.NodeArray.NewRow | Linux多线程服务端编程/muduo/examples/sudoku/sudoku.cc:167-184 | the links represent the matrix with one more one-node row at the bottom of its column |
| DancingLinks.NodeArray.JoinRow | Linux多线程服务端编程/muduo/examples/sudoku/sudoku.cc:82-88 | the links represent the matrix with the node joined to the end of the row |
| DancingLinks.NodeArray.AddPlacement | Linux多线程服务端编程/muduo/examples/sudoku/sudoku.cc:82-88 | the links represent the matrix with one row of four nodes in four given columns |
| DancingLinks.NodeArray.Cover | Linux多线程服务端编程/muduo/examples/sudoku/sudoku.cc:218-229 | in place: exactly the covered link state, which represents the matrix without the column |
| DancingLinks.NodeArray.Uncover | Linux多线程服务端编程/muduo/examples/sudoku/sudoku.cc:231-242 | in place: every left, right, up and down link and every size is what it was before the matching cover |
| DancingLinks.NodeArray.CoverRowmates | Linux多线程服务端编程/muduo/examples/sudoku/sudoku.cc:120-122 | covers the columns of the other nodes of a row, walking its right links while columns disappear |
| DancingLinks.NodeArray.UncoverRowmates | Linux多线程服务端编程/muduo/examples/sudoku/sudoku.cc:127-129 | undoes that exactly, walking the left links |
| DancingLinks.NodeArray.GetMinColumn | Linux多线程服务端编程/muduo/examples/sudoku/sudoku.cc:201-216 | the first open column with the fewest rows left, where a column of at most one row ends the scan |
| MatrixBuild.AddColumnWhole | Linux多线程服务端编程/muduo/examples/sudoku/sudoku.cc:144-165 | new node and put_left of the root turn links for a matrix into links for it with one more column |
| MatrixBuild.AddRowWhole | Linux多线程服务端编程/muduo/examples/sudoku/sudoku.cc:167-184 | new node and put_up of the column header turn links for a matrix into links for it with one more row |
| MatrixBuild.JoinRowWhole | Linux多线程服务端编程/muduo/examples/sudoku/sudoku.cc:82-88 | put_left of the first node of a row joins a one-node row to it |
| MatrixBuild.PlaceHits | Linux多线程服务端编程/muduo/examples/sudoku/sudoku.cc:82-88 | the columns that a placement row meets are exactly its four, and other rows meet what they met |
| ExactCover.Branch | Linux多线程服务端编程/muduo/examples/sudoku/sudoku.cc:116-131 | there is an exact cover of what is left exactly if for some row of the chosen column there is one of what that row leaves |
| ExactCover.CoverExtends | Linux多线程服务端编程/muduo/examples/sudoku/sudoku.cc:116-125 | a cover of what a row leaves, with the row, is a cover |
| ExactCover.CoverShrinks | Linux多线程服务端编程/muduo/examples/sudoku/sudoku.cc:116-125 | a cover without one of its rows covers what that row leaves |
| ExactCover.CoverPicks | Linux多线程服务端编程/muduo/examples/sudoku/sudoku.cc:116-131 | every cover takes exactly one live row of an open column |
| ExactCover.HeaderSize | Linux多线程服务端编程/muduo/examples/sudoku/sudoku.cc:201-216 | at every point of the search the size field of each open column is the number of its live rows |
| ExactCover.BranchReady | Linux多线程服务端编程/muduo/examples/sudoku/sudoku.cc:116-125 | after cover(col) each row of its list can be chosen, and choosing it leaves links for the smaller problem |
| ExactCover.FewerOpen | Linux多线程服务端编程/muduo/examples/sudoku/sudoku.cc:95-133 | each level of the search closes a column, so the search ends |
| SudokuSolver.Solver.Build | Linux多线程服务端编程/muduo/examples/sudoku/sudoku.cc:33-93 | the constructed links represent a matrix whose columns are the empty cells and the values missing from each row, column and box, and whose rows are the allowed placements |
| SudokuSolver.Solver.constructor | Linux多线程服务端编程/muduo/examples/sudoku/sudoku.cc:33-93 | the same, with an empty stack and the given board |
| SudokuSolver.Solver.DecodeRow | Linux多线程服务端编程/muduo/examples/sudoku/sudoku.cc:99-112 | reads cell and value of a row back from the column names |
| SudokuSolver.Solver.Decode | Linux多线程服务端编程/muduo/examples/sudoku/sudoku.cc:98-113 | writes exactly the placements on the stack into the board |
| SudokuSolver.Solver.TryRow | Linux多线程服务端编程/muduo/examples/sudoku/sudoku.cc:118-130 | one turn of the row loop: found exactly if the problem left by the row has a cover; otherwise links, stack and board are as before |
| SudokuSolver.Solver.Solve | Linux多线程服务端编程/muduo/examples/sudoku/sudoku.cc:95-133 | true exactly if what is left has an exact cover; then the stack holds one and the board is filled from it; otherwise every link, size, the stack and the board are as found |
| SudokuSolver.CoverIffSolution | Linux多线程服务端编程/muduo/examples/sudoku/sudoku.cc:33-113 | the constructed matrix has an exact cover exactly if the puzzle has a valid completion, contradictory givens included |
| SudokuEncoding.CoverCompletes | Linux多线程服务端编程/muduo/examples/sudoku/sudoku.cc:43-113 | the board read from any exact cover is a valid grid that extends the puzzle |
| SudokuEncoding.SolutionCovers | Linux多线程服务端编程/muduo/examples/sudoku/sudoku.cc:43-92 | the rows of any valid completion are an exact cover |
| SudokuRules.SurjectiveIsValid | Linux多线程服务端编程/muduo/examples/sudoku/sudoku.cc:43-92 | nine values in nine cells of every unit are distinct: the counting argument for contradictory givens |
| SudokuSolver.SolveSudoku | Linux多线程服务端编程/muduo/examples/sudoku/sudoku.cc:263-291 | for any 81 characters: if the puzzle has a completion the result is one, otherwise the result is NoSolution |
| QueenEncoding.CoversAreSolutions | Linux多线程服务端编程/recipes/puzzle/nqueens_dl.cc:29-67 | with the diagonals as optional columns, covers of the matrix correspond one to one to placements of n queens |
| QueenEncoding.BoardCovers | Linux多线程服务端编程/recipes/puzzle/nqueens_dl.cc:29-67 | every placement is a cover |
| QueenEncoding.CoverBoard | Linux多线程服务端编程/recipes/puzzle/nqueens_dl.cc:29-67 | every cover is a placement |
| CountCovers.CoversFromStep | Linux多线程服务端编程/recipes/puzzle/nqueens_dl.cc:75-86 | the covers found up to a row of the chosen column grow by exactly the covers of what that row leaves |
| CountCovers.OneCover | Linux多线程服务端编程/recipes/puzzle/nqueens_dl.cc:70-74 | with no open column there is exactly one cover |
| QueenSolver.Solver.Build | Linux多线程服务端编程/recipes/puzzle/nqueens_dl.cc:29-67 | the constructed links represent the matrix of n ranks and files with optional diagonals |
| QueenSolver.Solver.constructor | Linux多线程服务端编程/recipes/puzzle/nqueens_dl.cc:29-67 | the same, with a count of zero |
| QueenSolver.Solver.CountRow | Linux多线程服务端编程/recipes/puzzle/nqueens_dl.cc:77-85 | one turn of the row loop adds the covers of what the row leaves and restores all links |
| QueenSolver.Solver.Solve | Linux多线程服务端编程/recipes/puzzle/nqueens_dl.cc:69-87 | adds exactly the number of covers of what is left and restores all links |
| QueenSolver.CountQueens | Linux多线程服务端编程/recipes/puzzle/nqueens_dl.cc:201-208 | the count is the number of placements of n queens, for every n the tables have room for |
| QueenArrays.MarkedSnoc | Linux多线程服务端编程/recipes/puzzle/nqueens.cc:79-81 | setting three table entries makes the tables those of the longer placement |
| QueenArrays.FreeIsSafe | Linux多线程服务端编程/recipes/puzzle/nqueens.cc:73-74 | the three table entries are clear exactly if a queen is safe there |
| QueenArrays.BackTracking.Search | Linux多线程服务端编程/recipes/puzzle/nqueens.cc:70-89 | adds the number of completions of the partial placement and leaves the three tables as found |
| QueenArrays.CountQueens | Linux多线程服务端编程/recipes/puzzle/nqueens.cc:92-97 | the count is the number of placements |
| QueenMasks.MasksSnoc | Linux多线程服务端编程/recipes/puzzle/nqueens_opt_mt.cc:45-49 | or-ing in a column bit and shifting the diagonals makes the masks those of the longer placement |
| QueenMasks.AvailIsFree | Linux多线程服务端编程/recipes/puzzle/nqueens_opt_mt.cc:38-39 | the available bits are exactly the safe columns of the board |
| QueenMasks.BackTracking.Search | Linux多线程服务端编程/recipes/puzzle/nqueens_opt_mt.cc:33-52 | adds the number of completions of the partial placement, the same number the table search adds; nothing if the board is full already |
| QueenMasks.MirrorSolution | Linux多线程服务端编程/recipes/puzzle/nqueens_opt_mt.cc:65-76 | reflection maps placements to placements and is its own inverse |
| QueenMasks.MirrorCount | Linux多线程服务端编程/recipes/puzzle/nqueens_opt_mt.cc:65-76 | as many placements start in a column as in its mirror image |
| QueenMasks.MirrorSum | Linux多线程服务端编程/recipes/puzzle/nqueens_opt_mt.cc:65-76 | the right half of the columns contributes as much as the left half |
| QueenMasks.BacktrackingSub | Linux多线程服务端编程/recipes/puzzle/nqueens_opt_mt.cc:55-62 | the number of placements starting in a column, and 0 for a single queen |
| QueenMasks.Backtracking | Linux多线程服务端编程/recipes/puzzle/nqueens_opt_mt.cc:65-76 | twice the left half plus the middle column is the number of placements exactly if n is not 1; for one queen the program says 0 |
| NeighborSearch.HeldAfter | Linux多线程服务端编程/recipes/sudoku/sudoku_basic.cc:31-40 | which values the neighbours hold after one more cell is filled, for any symmetric neighbour table |
| NeighborSearch.FreeCountAfter | Linux多线程服务端编程/recipes/sudoku/sudoku_min_arity.cc:7-15 | how the number of free values of each cell changes when a cell is filled |
| NeighborSearch.HeldIsOut | Linux多线程服务端编程/recipes/sudoku/sudoku_basic.cc:31-40 | a value held by a neighbour is in no completion |
| NeighborSearch.PlaceFree | Linux多线程服务端编程/recipes/sudoku/sudoku_min_arity_cache.cc:60-95 | a completion of the board with a free value placed is one of the board, and every completion with that value is one of the board with it placed |
| CacheSolver.HoldCached | Linux多线程服务端编程/recipes/sudoku/sudoku_min_arity_cache.cc:61-76 | after a guess the marks and arities agree again with a fresh scan of the neighbours of every empty cell |
| CacheSolver.UndoMarks | Linux多线程服务端编程/recipes/sudoku/sudoku_min_arity_cache.cc:83-94 | clearing the guess and the newly set marks gives back exactly the marks from before |
| CacheSolver.Solver.FindSpaces | Linux多线程服务端编程/recipes/sudoku/sudoku_basic.cc:13-20 | lists exactly the empty cells |
| CacheSolver.Solver.InitCache | Linux多线程服务端编程/recipes/sudoku/sudoku_min_arity_cache.cc:30-48 | whatever the tables held, the cache agrees with a fresh scan |
| CacheSolver.Solver.FindMinArity | Linux多线程服务端编程/recipes/sudoku/sudoku_min_arity_cache.cc:11-28 | brings to the front a remaining cell with the fewest free values and only permutes the tail |
| CacheSolver.Solver.Mark | Linux多线程服务端编程/recipes/sudoku/sudoku_min_arity_cache.cc:66-76 | marks a value at the neighbours, lowers the arity of exactly the newly marked ones and remembers them |
| CacheSolver.Solver.Unmark | Linux多线程服务端编程/recipes/sudoku/sudoku_min_arity_cache.cc:88-94 | takes exactly the remembered marks and arities back |
| CacheSolver.Solver.TryGuess | Linux多线程服务端编程/recipes/sudoku/sudoku_min_arity_cache.cc:60-95 | a guess succeeds only with a completion; otherwise board, marks and arities are restored exactly and no completion has that value |
| CacheSolver.Solver.Solve | Linux多线程服务端编程/recipes/sudoku/sudoku_min_arity_cache.cc:50-98 | found means the board now is a completion; not found means there is none, and board, marks and arities are restored exactly with only the tail of the spaces permuted |
| CacheSolver.SolveCached | Linux多线程服务端编程/recipes/sudoku/sudoku_min_arity_cache.cc:50-98 | found exactly if a completion exists, for any symmetric table and any number of values |
| CacheSolver.Available | Linux多线程服务端编程/recipes/sudoku/sudoku_basic.cc:31-40 | no neighbour holds the value |
| CacheSolver.Arity | Linux多线程服务端编程/recipes/sudoku/sudoku_min_arity.cc:7-15 | the number of values that no neighbour holds, the scan that the cache stands for |
| SudokuTable.MarkAdjacent | Linux多线程服务端编程/recipes/sudoku/neighbor.cc:11-28 | marks exactly the cells of the same row, column or box |
| SudokuTable.CollectNeighbors | Linux多线程服务端编程/recipes/sudoku/neighbor.cc:30-42 | exactly the other marked cells, in order, always 20 of them |
| SudokuTable.InitNeighbors | Linux多线程服务端编程/recipes/sudoku/neighbor.cc:61-76 | the neighbour table of the 9 by 9 board, which is symmetric and irreflexive |
| SudokuTable.Solved | Linux多线程服务端编程/recipes/sudoku/neighbor.cc:78-123 | true exactly for valid grids |
| SudokuTable.FoundIsValid | Linux多线程服务端编程/recipes/sudoku/sudoku_min_arity_cache.cc:50-98 | what the search finds is a valid grid exactly if no two givens conflict, since it never compares givens with each other |
| SudokuTable.SolutionFits | Linux多线程服务端编程/recipes/sudoku/sudoku_min_arity_cache.cc:50-98 | every valid completion is among those the search looks for |
| SudokuTable.SearchDecides | Linux多线程服务端编程/recipes/sudoku/sudoku_min_arity_cache.cc:50-98 | without conflicting givens the search finds something exactly if there is a valid completion |
| SudokuTable.SolveAndCheck | Linux多线程服务端编程/recipes/sudoku/main.cc:18-48 | neighbour table, cached search and final check together: found and accepted exactly if there is a valid completion, which the board then is; the assert on the check fails exactly if something is found for conflicting givens |
| SudokuTable.OnesAreAccepted | Linux多线程服务端编程/recipes/sudoku/sudoku_min_arity_cache.cc:50-58 | the board full of ones, on which the search reports success though it is no valid grid |
| Limbs.NormalUnique | Linux多线程服务端编程/recipes/basic/uint.h:30 | two normal-form numbers of equal value have equal limbs |
| BigInt.UnsignedInt.constructor | Linux多线程服务端编程/recipes/basic/uint.h:17-23 | holds x in normal form |
| BigInt.UnsignedInt.Assign | Linux多线程服务端编程/recipes/basic/uint.h:44-55 | holds x in normal form |
| BigInt.UnsignedInt.AddSmall | Linux多线程服务端编程/recipes/basic/uint.h:57-80 | exact sum; from normal form the result is normal unless 0 is added to the empty number |
| BigInt.UnsignedInt.Propagate | Linux多线程服务端编程/recipes/basic/uint.h:67-79 | a carry entering at any limb is added exactly |
| BigInt.UnsignedInt.Add | Linux多线程服务端编程/recipes/basic/uint.h:82-110 | exact sum, normal form kept, also when both operands are the same object |
| BigInt.UnsignedInt.LessThan | Linux多线程服务端编程/recipes/basic/uint.h:31-40 | in normal form, exactly the order of the values |
| BigInt.UnsignedInt.Borrow | Linux多线程服务端编程/recipes/basic/uint.cc:28-36 | a borrow entering at any limb is subtracted exactly, through 64-bit wrap-around |
| BigInt.UnsignedInt.Sub | Linux多线程服务端编程/recipes/basic/uint.cc:10-44 | exact difference in normal form; refused exactly if the result would be negative |
| BigInt.ProductFits | Linux多线程服务端编程/recipes/basic/uint.h:151-155 | limb product plus partial sum plus carry is at most 2^64-1, and the bound is reached |
| BigInt.UnsignedInt.MulSmall | Linux多线程服务端编程/recipes/basic/uint.h:114-133 | exact product by one limb, normal form kept |
| BigInt.MulRow | Linux多线程服务端编程/recipes/basic/uint.h:148-157 | one row of the product adds the shifted multiple exactly |
| BigInt.Product | Linux多线程服务端编程/recipes/basic/uint.h:135-162 | the limbs of the exact product, normal after dropping at most one |
| BigInt.ProductSize | Linux多线程服务端编程/recipes/basic/uint.h:159-160 | one leading zero at most comes out of normal operands |
| BigInt.UnsignedInt.Mul | Linux多线程服务端编程/recipes/basic/uint.h:135-162 | exact product, normal form kept, also for a number times itself in place |
| BigInt.Quotient | Linux多线程服务端编程/recipes/basic/uint.h:165-181 | value = quotient * x + remainder with remainder below x; normal after dropping at most one limb exactly if the value is not too small for the limbs, as from normal form |
| BigInt.QuotientSize | Linux多线程服务端编程/recipes/basic/uint.h:177-179 | when the assert holds: with at most one limb, or a value of at least x times the place below the top limb |
| BigInt.UnsignedInt.Divide | Linux多线程服务端编程/recipes/basic/uint.h:165-181 | the same in place |
| BigInt.UnsignedInt.Power | Linux多线程服务端编程/recipes/basic/uint.h:184-205 | exact power by repeated squaring in place, normal form kept |
| Numerals.FromHex | Linux多线程服务端编程/recipes/basic/uint.cc:136-145 | the place of the character among the lower or upper case digits, and the pattern of -1 for all others |
| Numerals.FromDec | Linux多线程服务端编程/recipes/basic/uint.cc:164-169 | the decimal digits only, with the same values |
| Numerals.DigitValues | Linux多线程服务端编程/recipes/basic/uint.cc:136-169 | by character codes: the ranges start at 0 and 10 and go up by one from character to character |
| Numerals.PushFixed | Linux多线程服务端编程/recipes/basic/uint.cc:61-66 | exactly k digits that stand for x, least significant first |
| Numerals.PushAll | Linux多线程服务端编程/recipes/basic/uint.cc:69-75 | the digits of x without superfluous zeros, at least one |
| Numerals.CanonicalUnique | Linux多线程服务端编程/recipes/basic/uint.cc:46-117 | a number has one canonical numeral |
| BigIntText.ToHex | Linux多线程服务端编程/recipes/basic/uint.cc:46-80 | a lower-case numeral for exactly the value, canonical exactly if the number is normal or has at most one limb |
| BigIntText.ToDec | Linux多线程服务端编程/recipes/basic/uint.cc:82-117 | the canonical decimal numeral of the value, for every number on which the assert of devide holds |
| BigIntText.ParseSegment | Linux多线程服务端编程/recipes/basic/uint.cc:171-180 | for any characters the 32-bit remainder of their evaluation, exact on up to nine digits |
| BigIntText.ParseDec | Linux多线程服务端编程/recipes/basic/uint.cc:182-203 | for any string the value of its groups of nine characters, on digits of any length the number; normal exactly if the string is empty or the value positive, else a single zero limb |
| BigIntText.GroupsNumber | Linux多线程服务端编程/recipes/basic/uint.cc:182-203 | on digits the groups of nine make up the number |
| BigIntText.NibbleStep | Linux多线程服务端编程/recipes/basic/uint.cc:154-156 | or-ing in the shifted word of the next character puts a digit above those present, and a character that is no digit fills the word with ones for good |
| BigIntText.ParseHex | Linux多线程服务端编程/recipes/basic/uint.cc:147-162 | for any string its limbs of eight characters each, on hexadecimal digits the number; normal exactly if there are at most eight digits or the top group of digits is not zero |
| BigIntText.HexLimbsNumber | Linux多线程服务端编程/recipes/basic/uint.cc:147-162 | on hexadecimal digits the limbs stand for the number |
| BigIntText.NineZeros | Linux多线程服务端编程/recipes/basic/uint.cc:158-161 | nine zeros are read as two zero limbs, which is not normal |
| BigIntText.DecRoundTrip | Linux多线程服务端编程/recipes/basic/uint.cc:82-203 | parseDec(toDec(u)) has the value of u, and its limbs unless u is zero |
| BigIntText.DecTextRoundTrip | Linux多线程服务端编程/recipes/basic/uint.cc:82-203 | toDec(parseDec(s)) is the canonical form of s, and s itself if s is canonical |
| BigIntText.HexRoundTrip | Linux多线程服务端编程/recipes/basic/uint.cc:46-162 | parseHex(toHex(u)) has the limbs of u |
| BigIntText.HexTextRoundTrip | Linux多线程服务端编程/recipes/basic/uint.cc:46-162 | toHex(parseHex(s)) has the value of s, and is s if s is canonical |
| Fibonacci.AdditionLaw | Linux多线程服务端编程/recipes/basic/fibonacci.cc:135-136 | F(m+n+1) = F(m+1)F(n+1) + F(m)F(n) |
| Fibonacci.Square | Linux多线程服务端编程/recipes/basic/fibonacci.cc:47-58 | squares the matrix of Fibonacci numbers in place |
| Fibonacci.Compose | Linux多线程服务端编程/recipes/basic/fibonacci.cc:62-79 | multiplies two such matrices in place: exponents add |
| Fibonacci.RaiseFromLow | Linux多线程服务端编程/recipes/basic/fibonacci.cc:45-81 | the loop from the low bit ends at exponent N, or N+1 if N is even |
| Fibonacci.Fast | Linux多线程服务端编程/recipes/basic/fibonacci.cc:26-85 | the canonical decimal text of F(N) |
| Fibonacci.RaiseFromTop | Linux多线程服务端编程/recipes/basic/fibonacci.cc:100-129 | the loop from the top bit ends at exponent N |
| Fibonacci.Faster | Linux多线程服务端编程/recipes/basic/fibonacci.cc:87-133 | the canonical decimal text of F(N), and of 1 for a negative N |
| Fibonacci.Fib.Calc | Linux多线程服务端编程/recipes/basic/fibonacci.cc:164-190 | every cache entry is right before and after, entries stay, and the one for N is there; the recursion ends |
| Fibonacci.Fib.constructor | Linux多线程服务端编程/recipes/basic/fibonacci.cc:140-157 | the cache is right and holds F(N) |
| Fibonacci.Fastest | Linux多线程服务端编程/recipes/basic/fibonacci.cc:196-200 | the canonical decimal text of F(N) |
| Fibonacci.FibonacciIterator.Next | Linux多线程服务端编程/recipes/basic/fibonacci.cc:210-215 | moves from F(k) to F(k+1) |
| Fibonacci.Linear | Linux多线程服务端编程/recipes/basic/fibonacci.cc:221-232 | the canonical decimal text of F(N) |
| Fibonacci.Compare | Linux多线程服务端编程/recipes/basic/fibonacci.cc:264-272 | the four programs print the same text for every N |
| ExactDecimal.Integer | Linux多线程服务端编程/recipes/basic/exact.cc:47-73 | the canonical text of the integer part of M * 2^E |
| ExactDecimal.Fraction | Linux多线程服务端编程/recipes/basic/exact.cc:87-113 | digits and leading zeros that make up exactly the fractional part, ending in 5 unless it is zero |
| ExactDecimal.NextBit | Linux多线程服务端编程/recipes/basic/exact.cc:99-109 | one turn of the loop: the value collected is the low bits times a power of five |
| ExactDecimal.Decimal | Linux多线程服务端编程/recipes/basic/exact.cc:17-25 | the text is exactly M * 2^E for every E and M, with the integer part before the point and no superfluous digit behind it |
| BlockingQueue.StepExclusive | Linux多线程服务端编程/muduo/muduo/base/BoundedBlockingQueue.h:30-66 | at most one thread is inside, and it holds the mutex |
| BlockingQueue.StepFifo | Linux多线程服务端编程/muduo/muduo/base/BoundedBlockingQueue.h:30-66 | items come out in the order they went in and the bound is kept |
| BlockingQueue.StepDelivered | Linux多线程服务端编程/muduo/muduo/base/ThreadPool.cc:93-112 | a taker leaves with the item it took from the front, and with nothing only from a stopped empty queue |
| BlockingQueue.StepPlaced | Linux多线程服务端编程/muduo/muduo/base/ThreadPool.cc:52-91 | a putter past the queue has its item in it as the last one accepted, and leaves with nothing put only from a stopped queue; stop() clears running_ before it broadcasts |
| BlockingQueue.StepHeard | Linux多线程服务端编程/muduo/muduo/base/BoundedBlockingQueue.h:30-66 | every step keeps: while a taker sleeps the items are no more than the takers woken and not yet back at the queue plus the notifications under way, dually for putters and free slots, and after running_ is cleared sleepers remain only until the broadcasts |
| BlockingQueue.RunInv | Linux多线程服务端编程/muduo/muduo/base/BoundedBlockingQueue.h:30-66 | all of this in every state of every run, spurious wake-ups included |
| BlockingQueue.RunGrows | Linux多线程服务端编程/muduo/muduo/base/ThreadPool.cc:52-91 | the limit is fixed, a stopped pool stays stopped and accepts nothing more |
| BlockingQueue.StepHistory | Linux多线程服务端编程/muduo/muduo/base/BoundedBlockingQueue.h:30-66 | only a putter getting in changes what has been accepted, by its own item, and only a taker coming out what has been taken |
| BlockingQueue.RunCarried | Linux多线程服务端编程/muduo/muduo/base/BoundedBlockingQueue.h:30-41 | in every run a putter is busy with the item of its own call, through any number of waits |
| BlockingQueue.RunHistory | Linux多线程服务端编程/muduo/muduo/base/BoundedBlockingQueue.h:30-66 | what has been accepted is the items of the calls that got in, in the order they got in, and what has been taken is the items that takers came away with |
| BlockingQueue.RunFifo | Linux多线程服务端编程/muduo/muduo/base/BoundedBlockingQueue.h:30-66 | over whole runs: the items takers came away with, followed by the queue, are exactly the items of the put calls that got in, in order, within the bound |
| BlockingQueue.QuietMeansReason | Linux多线程服务端编程/muduo/muduo/base/BoundedBlockingQueue.h:30-66 | when no thread can move, takers sleep only on an empty running queue and putters only on a full running one |
| BlockingQueue.NeverBothStuck | Linux多线程服务端编程/muduo/muduo/base/BoundedBlockingQueue.h:30-66 | a putter and a taker never wait for each other if the queue has room for anything |
| BlockingQueue.StuckWithoutRoom | Linux多线程服务端编程/muduo/muduo/base/BoundedBlockingQueue.h:22-66 | a run of a queue of size 0 that ends with both asleep for good |
| BlockingQueue.StoppedMeansAwake | Linux多线程服务端编程/muduo/muduo/base/ThreadPool.cc:52-64 | once running_ is cleared and the broadcasts are made nobody sleeps, in any later state |
| LogBuffer.FixedBuffer.Append | Linux多线程服务端编程/muduo/muduo/base/LogStream.h:39-47 | appends the line whole if a byte stays free, otherwise nothing |
| LogBuffer.FixedBuffer.constructor | Linux多线程服务端编程/muduo/muduo/base/LogStream.h:28-32 | an empty buffer of the given size |
| LogBuffer.FixedBuffer.Reset | Linux多线程服务端编程/muduo/muduo/base/LogStream.h:57 | the buffer is empty |
| LogBuffer.FixedBuffer.Avail | Linux多线程服务端编程/muduo/muduo/base/LogStream.h:54 | contents and free bytes make up the size |
| AsyncLogging.FitIsAppend | Linux多线程服务端编程/muduo/muduo/base/LogStream.h:39-47 | the buffer of lines used in the state machine has the bytes of the array buffer, and never fills up |
| AsyncLogging.AppendInv | Linux多线程服务端编程/muduo/muduo/base/AsyncLogging.cc:34-56 | append keeps the invariant in every branch |
| AsyncLogging.SwapInv | Linux多线程服务端编程/muduo/muduo/base/AsyncLogging.cc:75-90 | the logging thread's critical section keeps it |
| AsyncLogging.DropInv | Linux多线程服务端编程/muduo/muduo/base/AsyncLogging.cc:92-101 | so does dropping the buffers from the third on when more than 25 are queued |
| AsyncLogging.WriteInv | Linux多线程服务端编程/muduo/muduo/base/AsyncLogging.cc:103-107 | so does writing a buffer |
| AsyncLogging.RecycleInv | Linux多线程服务端编程/muduo/muduo/base/AsyncLogging.cc:115-131 | so does recycling the two spare buffers |
| AsyncLogging.RunInv | Linux多线程服务端编程/muduo/muduo/base/AsyncLogging.cc:34-135 | in every interleaving all asserts hold, nextBuffer_ null implies buffers_ non-empty, and batches taken, full buffers and current buffer hold the accepted lines in order, none split, lost or doubled |
| AsyncLogging.RunAccepted | Linux多线程服务端编程/muduo/muduo/base/AsyncLogging.cc:34-56 | in every run the accepted lines are those of the append calls shorter than a buffer, whole and in order; the logger runs until told to stop |
| AsyncLogging.NothingLost | Linux多线程服务端编程/muduo/muduo/base/AsyncLogging.cc:34-135 | unless more than 25 buffers were queued at once, bytes in the file followed by pending lines are exactly the lines of the append calls that fit in a buffer, in order |
| AsyncLogging.OnlyOverrunLost | Linux多线程服务端编程/muduo/muduo/base/AsyncLogging.cc:92-107 | in every state the file holds every batch taken whole, or its first two buffers if it had more than 25, and the written part of the current one; batches, full buffers and current buffer are exactly the lines of the append calls that fit in a buffer |
| AsyncLogging.OneNoticeEach | Linux多线程服务端编程/muduo/muduo/base/AsyncLogging.cc:92-101 | the file holds exactly one notice for each batch of more than 25 buffers |
| AsyncLogging.LogProgress | Linux多线程服务端编程/muduo/muduo/base/AsyncLogging.cc:69-134 | every step of a running logging thread lowers the number of steps until given lines have gone out, whatever has been appended |
| AsyncLogging.WrittenSoon | Linux多线程服务端编程/muduo/muduo/base/AsyncLogging.cc:34-134 | after 61 steps of the logging thread, with any appends between them, every line appended before has gone out with a batch, and is in the file unless buffers were dropped |
| SudokuStat.NextSecond | Linux多线程服务端编程/muduo/examples/sudoku/stat.h:108-116 | pushing a zero moves the window on by one second |
| SudokuStat.Counted | Linux多线程服务端编程/muduo/examples/sudoku/stat.h:148-151 | counting a response at its place keeps both buffers equal to the history of the window |
| SudokuStat.Discarded | Linux多线程服务端编程/muduo/examples/sudoku/stat.h:153-158 | a response before the window, or with negative latency, changes no second of it |
| SudokuStat.Stat.constructor | Linux多线程服务端编程/muduo/examples/sudoku/stat.h:6-19 | an empty history |
| SudokuStat.Stat.Reset | Linux多线程服务端编程/muduo/examples/sudoku/stat.h:68-83 | an empty history; the dropped requests are not reset |
| SudokuStat.Stat.JumpAhead | Linux多线程服务端编程/muduo/examples/sudoku/stat.h:117-138 | the window ends at the new second and still holds the history; after less than a minute it covers exactly what it covered of the last 60 seconds and every second since, otherwise that second alone |
| SudokuStat.Stat.PlaceNext | Linux多线程服务端编程/muduo/examples/sudoku/stat.h:108-116 | the branch for the next second and for the first response: the window holds the history afterwards exactly if its place is kept |
| SudokuStat.Stat.Place | Linux多线程服务端编程/muduo/examples/sudoku/stat.h:101-158 | every branch: last second and span are exact, the seconds covered are those of JumpAhead for a later second and unchanged for any other, and the window holds the history afterwards exactly unless a last second of 0 is taken for no window |
| SudokuStat.NeverBack | Linux多线程服务端编程/muduo/examples/sudoku/stat.h:101-158 | as long as it keeps its place the window never moves back |
| SudokuStat.SpanMovesOn | Linux多线程服务端编程/muduo/examples/sudoku/stat.h:101-158 | the sizes computed branch by branch are those of a window over the last 60 seconds |
| SudokuStat.PositiveTimes | Linux多线程服务端编程/muduo/examples/sudoku/stat.h:108 | with positive times it always keeps its place |
| SudokuStat.EarlyTimes | Linux多线程服务端编程/muduo/examples/sudoku/stat.h:108-116 | responses of seconds -1, 0 and 7, after which the counts are in the wrong place |
| SudokuStat.Stat.RecordResponse | Linux多线程服务端编程/muduo/examples/sudoku/stat.h:85-160 | each buffer entry is the count, or latency sum, of the responses of its second in the history, exactly as long as the window keeps its place, as it does with positive times; the seconds covered are exact, stated in terms of the old window and 60 seconds; totals are those of the history |
| SudokuStat.Stat.Report | Linux多线程服务端编程/muduo/examples/sudoku/stat.h:41-63 | the sums over the window are those of the history between its first and last second, the averages rounded down |
| WordFreq.Split | Linux多线程服务端编程/recipes/topk/word_freq_sort.cc:45-72 | segments sorted by word whose counts add up to the occurrences in the file, all but the last holding exactly one word more than the table size |
| WordFreq.Input | Linux多线程服务端编程/recipes/topk/word_freq_sort.cc:38-76 | the segments of each file in turn, sorted by word, of the sizes and with the counts of that file; all together count the occurrences in all files |
| WordFreq.Output | Linux多线程服务端编程/recipes/topk/word_freq_sort.cc:116-136 | the table strictly by count and then word, both descending, each of its words once |
| WordCounts.LessByFirst | Linux多线程服务端编程/recipes/topk/word_freq_sort.cc:67-70 | words are in order by the first character that differs, a word before its extensions |
| WordFreq.Combine | Linux多线程服务端编程/recipes/topk/word_freq_sort.cc:138-200 | each word lands in exactly one count file, once, with its total over all segments; all files but the last hold exactly one word more than the table size |
| WordFreq.Merge | Linux多线程服务端编程/recipes/topk/word_freq_sort.cc:247-283 | the lines of all count files, by descending count |
| WordFreq.SortByFrequency | Linux多线程服务端编程/recipes/topk/word_freq_sort.cc:285-290 | whatever the table size, every distinct word once, with its number of occurrences, by descending count |
| WordFreq.SortInMemory | Linux多线程服务端编程/recipes/topk/word_freq.cc:9-33 | the same for the in-memory program |
| WordCounts.AgreeUpToTies | Linux多线程服务端编程/recipes/topk/word_freq.cc:9-33 | any two such outputs have the same lines, and the same counts line by line |
| WordFreq.Compare | Linux多线程服务端编程/recipes/topk/word_freq_sort.cc:285-290 | external and in-memory sorting agree up to the order of words with equal counts |
| WaterPour.SuccessorsAreMoves | Linux多线程服务端编程/recipes/puzzle/waterpour.cc:88-154 | the six cases are exactly the moves that change something: empty, fill, or pour until one jug is empty or the other full |
| WaterPour.Expand | Linux多线程服务端编程/recipes/puzzle/waterpour.cc:81-154 | the successors in the order tried |
| WaterPour.NoSelf | Linux多线程服务端编程/recipes/puzzle/waterpour.cc:91-150 | no move leads back to the state it starts from, as asserted |
| WaterPour.Pour | Linux多线程服务端编程/recipes/puzzle/waterpour.cc:124-154 | pouring conserves the water, as asserted |
| WaterPour.PushNew | Linux多线程服务端编程/recipes/puzzle/waterpour.cc:86-155 | every successor is seen or listed with the current step as parent, and depths never fall along the list |
| WaterPour.MetFirst | Linux多线程服务端编程/recipes/puzzle/waterpour.cc:86-155 | processing a new state keeps: all successors of processed steps are listed one deeper at most |
| WaterPour.MetAgain | Linux多线程服务端编程/recipes/puzzle/waterpour.cc:156-159 | so does skipping a state seen before |
| WaterPour.Followed | Linux多线程服务端编程/recipes/puzzle/waterpour.cc:78-163 | every path is followed in the list up to a step not yet processed |
| WaterPour.Shortest | Linux多线程服务端编程/recipes/puzzle/waterpour.cc:78-163 | no path to the target is shorter than the depth at which it is found |
| WaterPour.Exhausted | Linux多线程服务端编程/recipes/puzzle/waterpour.cc:161-162 | with every step processed no path reaches the target |
| WaterPour.Print | Linux多线程服务端编程/recipes/puzzle/waterpour.cc:57-64 | the parent chain is a legal sequence of moves back to the empty jugs |
| WaterPour.Search | Linux多线程服务端编程/recipes/puzzle/waterpour.cc:73-163 | ends for all sizes, finds the target exactly if it can be reached, along a shortest sequence |
| Framing.Resume | Linux多线程服务端编程/muduo/examples/multiplexer/multiplexer.cc:108-138 | reading what has arrived and going on with the rest gives the packets of the whole, for any bytes |
| Framing.WireFormat | Linux多线程服务端编程/muduo/examples/multiplexer/multiplexer.cc:64-73 | on the wire: the length, the low and the high byte of the id, the payload |
| Framing.HeadBytes | Linux多线程服务端编程/muduo/examples/multiplexer/demux.cc:85-92 | a buffer is complete if a byte and the length announced follow the header; the id is read low byte first, and header, payload and rest are the buffer |
| Framing.Receiver.OnMessage | Linux多线程服务端编程/muduo/examples/multiplexer/demux.cc:79-115 | after every call, delivered packets and buffer are those of all bytes received so far; the first new packet, or that there is none, in terms of the bytes |
| Framing.ReceiveAll | Linux多线程服务端编程/muduo/examples/multiplexer/multiplexer.cc:108-138 | the packets delivered do not depend on how the stream is cut up |
| Framing.HeaderRoundTrip | Linux多线程服务端编程/muduo/examples/multiplexer/multiplexer.cc:64-73 | a packet survives the header exactly if its id has 16 bits |
| Framing.RoundTrip | Linux多线程服务端编程/muduo/examples/multiplexer/multiplexer.cc:64-138 | all packets come out again, except that an empty one at the very end waits for another byte |
| Framing.Sender.SendPacket | Linux多线程服务端编程/muduo/examples/multiplexer/multiplexer.cc:64-83 | appends length, low and high byte of the id and the data to the stream, and nothing without a connection |
| Framing.Sender.SendBuffer | Linux多线程服务端编程/muduo/examples/multiplexer/multiplexer.cc:93-106 | sends exactly the chunks of the data, and nothing without a connection |
| Framing.ChunksCut | Linux多线程服务端编程/muduo/examples/multiplexer/multiplexer.cc:93-106 | chunks have 1 to 255 bytes, and all but the last have 255 |
| Framing.ChunksStream | Linux多线程服务端编程/muduo/examples/multiplexer/multiplexer.cc:93-106 | the chunks run together are the data, and no other id gets any of it |
| Framing.SendAll | Linux多线程服务端编程/muduo/examples/multiplexer/demux.cc:184-215 | over any sequence of sends, the stream decodes to exactly their chunks and nothing is left over |
| Framing.Transfer | Linux多线程服务端编程/muduo/examples/multiplexer/multiplexer.cc:64-138 | for any sends and any fragmentation of the stream the packets delivered are the packets sent, nothing is left over, and each id's bytes come out complete and in order |
| Framing.Demux.Deliver | Linux多线程服务端编程/muduo/examples/multiplexer/demux.cc:93-106 | a packet is handed to its connection at once, or waits if that is not up yet; nothing waits for one that is up, as asserted |
| Framing.Demux.DeliverAll | Linux多线程服务端编程/muduo/examples/multiplexer/demux.cc:79-115 | bytes handed on and waiting are, connection by connection, the bytes that came, in order |
| Framing.Demux.Announce | Linux多线程服务端编程/muduo/examples/multiplexer/demux.cc:124-138 | a new connection, not yet up, with nothing waiting |
| Framing.Demux.Withdraw | Linux多线程服务端编程/muduo/examples/multiplexer/demux.cc:140-152 | a connection not yet up is forgotten, others stay as they are |
| Framing.Demux.Connect | Linux多线程服务端编程/muduo/examples/multiplexer/demux.cc:155-166 | what has been waiting is sent, and so everything has been |
| Calendar.NextDayNumber | Linux多线程服务端编程/muduo/muduo/base/Date.cc:21-28 | for every valid date the number goes up by one over the next day exactly if the date is in the range, does not end February, or neither its year nor the one before is a leap year |
| Calendar.NextDayInRange | Linux多线程服务端编程/muduo/muduo/base/Date.cc:21-28 | among valid dates with a number from -32044 on, successive days have successive numbers, over the ends of months, leap Februaries and centuries, exactly from 1 March -4800 on |
| Calendar.OutsideNumber | Linux多线程服务端编程/muduo/muduo/base/Date.cc:21-28 | 29 February -4800 is the only valid date before 1 March -4800 with a number from -32044 on |
| Calendar.LeapDay | Linux多线程服务端编程/muduo/muduo/base/Date.cc:21-43 | 29 February -4800 has the number of 1 March, to which it is therefore read back |
| Calendar.DateRoundTrip | Linux多线程服务端编程/muduo/muduo/base/Date.cc:21-43 | for every valid date, reading back its number gives the date exactly from 1 March -4800 on |
| Calendar.NumberRoundTrip | Linux多线程服务端编程/muduo/muduo/base/Date.cc:21-43 | every number from -32044 on decodes to the valid date reached by counting days, and encodes back |
| Calendar.ValidExactly | Linux多线程服务端编程/muduo/muduo/base/Date.cc:30-43 | decoding gives a valid date exactly from -32044 on |
| Calendar.Tm.FillHMS | Linux多线程服务端编程/recipes/datetime/TimeZone.cc:70-76 | minute and second in range and an hour that make up the seconds; the hour is below 24 exactly for less than a day |
| Calendar.ToUtcTime | Linux多线程服务端编程/recipes/datetime/TimeZone.cc:307-332 | the date of the day that the second falls on and the time in it, before 1970 as well, the day of the week and, if wanted, of the year |
| Calendar.WeekDayCounts | Linux多线程服务端编程/muduo/muduo/base/Date.h:96-99 | the day of the week counts on from Thursday, 1 January 1970; before day number -1 the remainder comes out not positive |
| Calendar.YearDayCounts | Linux多线程服务端编程/recipes/datetime/TimeZone.cc:326-330 | the day of the year is the days of the months before plus the day, one too low in the year -4800 |
| Calendar.FloorDay | Linux多线程服务端编程/recipes/datetime/TimeZone.cc:311-317 | truncating division with the correction is floor division |
| Calendar.UtcRoundTrip | Linux多线程服务端编程/recipes/datetime/TimeZone.cc:307-347 | fromUtcTime(toUtcTime(t)) = t for every t from the first day on |
| Calendar.TimeRoundTrip | Linux多线程服务端编程/recipes/datetime/TimeZone.cc:334-347 | for every valid date and time of day, toUtcTime undoes fromUtcTime exactly from 1 March -4800 on |

## Left out

- Sockets, event loops, timers, printing, file access and thread creation; clocks are parameters.
- The search loops of sudoku_basic.cc and sudoku_min_arity.cc: the same search without the cache; their `available` and `arity` are modelled.
- `backtracking_mt` and the brute-force queens: a sum over threads of `BacktrackingSub`, and a permutation scan.
- Fibonacci.Faster: asks for N below 2^30, beyond which the code shifts a signed int out of range.
- ExactDecimal.Decimal: excludes exponent -2^31 with an odd mantissa, where the code negates the least int; starts from exponent and mantissa; `fromDouble`, which takes no care of zeros and subnormals, is not modelled.
- BlockingQueue.RunInv: the queue and the pool are steps over a state value, not objects; a pool without threads, which calls what it is given at once, and exceptions from the calls are not modelled.
- AsyncLogging.RunInv: each critical section is one step; the flush interval, file rolling and the text of the drop notice are left open, and lines appended after the last swap stay unwritten on stop, as in the code.
- SudokuStat.Stat.RecordResponse: excludes a first usable response of second 0, where the code counts at the end of an empty buffer; SudokuStat.Stat.Place excludes the same.
- SudokuStat.Stat.Place: see there.
- WordFreq.Input: a trailing empty segment that the code may write at the end of a file is not modelled, as it holds no line; lines are records, without their text form.
- WaterPour.Search: ends with found or not found and does not model the read behind the last step after an exhausted search.
- Framing.Receiver.OnMessage: delivers to a list; looking up the connection is modelled in Framing.Demux, the text of the commands on id 0 is not, nor clients of the multiplexer that are gone.
- Framing.Transfer: connection ids are given; their assignment is not modelled.
- Calendar.ToUtcTime: overflow of int for years in the millions is not modelled; time zones are not part of this model.
- Client libraries, string classes, percentile and other single-function utilities: only easy members.

# Regex operators, maze grid, maze generator and TSP genome, in Dafny

This project models four pieces of a C++ coursework repository and proves properties of them:

- **`regex.dfy`, module `Regex`** models `Week6/regex.cc`.
  - A regex operator is a value. It holds its kind (`MatchChar`, `MatchAny`, `MatchFromSubset`, `ExcludeFromSubset`), its repeat bounds and its stack of match ranges.
  - The four single-character `match` methods are pure functions.
  - `parseRegex` is a left fold of one loop iteration (`Step`) over the pattern (`Run`). The source's four loop locals (`escape`, `bracket`, `negateBracket`, `inBracket`) are the fold state.
- **`maze.dfy`, module `MazeGrid`** models `Week4/maze.cc`.
  - A maze of R x C cells is one flat array over the expanded (2R+1) x (2C+1) grid. Cells sit at odd/odd coordinates and walls one step away.
  - The maze is an immutable value, so every mutator returns the new maze.
  - The index arithmetic (`getArrayIndex`, `getCellArrayCoord`, `getWallArrayCoord`) is modelled as written. It is proved to keep cells and walls in distinct, in-bounds slots.
- **`genmaze.dfy`, module `MazeGen`** models `generateMaze` and `addDirectionOption` of `Week5/genmaze.cc`.
  - It is a randomized depth-first search. One loop iteration is `DfsStep`, and the loop is `GenerateMaze`.
  - The loop invariant is `Generating`: every opened wall lies between two cells and beside a visited cell, and the start cell is visited.
  - Every cell on the path stack is visited (`PathVisited`).
  - The termination measure is the lexicographic pair (number of unvisited cells, stack height).
- **`tspga.dfy`, module `TspGenome`** models the genome of `Week3/tsp-ga.cc`. This covers its two constructors, `getOrder`, `mutate` and `crosslink`, with permutation-preservation proofs.

Randomness is a parameter:
- `generateMaze` reads `rand(k)` on iteration k and uses `rand(k) % |options|`, as the source does.
  - The source draws only on iterations that carve, so the model's stream is indexed differently.
  - Because the stream is arbitrary, every sequence of draws is still covered.
- The genome constructor's shuffle reads a stream `rand`.
- `mutate` takes its two positions as parameters, and so does `crosslink` its cut point.

## Model

| member | source | states |
|---|---|---|
| Regex.NewOperator | Week6/regex.cc:8-13 | a new operator has the given kind, `minRepeat = maxRepeat = 1` and no recorded matches |
| Regex.SetMinRepeat | Week6/regex.cc:33-36 | callable only with `n >= 0` (the source's assertion); sets `minRepeat` and changes nothing else |
| Regex.SetMaxRepeat | Week6/regex.cc:40-43 | callable only with `n >= -1` (`-1` = unbounded); sets `maxRepeat` and changes nothing else |
| Regex.ClearMatches | Week6/regex.cc:49-51 | afterwards `numMatches` is 0; kind and bounds are untouched |
| Regex.PushMatch | Week6/regex.cc:55-57 | `numMatches` grows by one, earlier ranges are kept and the new range is on top |
| Regex.PopMatch | Week6/regex.cc:63-74 | needs a non-empty history (`back()` on an empty vector is not allowed); `numMatches` drops by one, and pushing the returned range back gives the original operator |
| Regex.PushThenPop | Week6/regex.cc:55-74 | push followed by pop returns the pushed range and the original operator (stack round trip) |
| Regex.MatchCharAt | Week6/regex.cc:80-97 | fails when `r.start` is past the end; otherwise succeeds exactly when the character equals `to_match`; on success the range becomes `[start, start+1)`, on failure it is unchanged |
| Regex.MatchAnyAt | Week6/regex.cc:103-114 | succeeds exactly when `r.start` is inside the string, then with range `[start, start+1)` |
| Regex.FindInSubset | Week6/regex.cc:131-139 | the scan loop over `subset` finds the character exactly when it is a member of the subset |
| Regex.MatchFromSubsetAt | Week6/regex.cc:121-142 | succeeds exactly when `r.start` is inside the string and its character is in the subset; range as above |
| Regex.ExcludeFromSubsetAt | Week6/regex.cc:149-170 | inside the string, succeeds exactly when `MatchFromSubset` on the same subset fails, i.e. the character is not in the subset; past the end it fails like the others |
| Regex.MatchAt | Week6/regex.cc:80-170 | the virtual dispatch: the result agrees with the reference predicate `Accepts` on the operator's kind |
| Regex.StepOutside | Week6/regex.cc:183-277 | one loop iteration outside brackets keeps the state well formed (an escape is pending only with an operator on the list; every operator has min in {0,1}, max in {1,-1}); it fails exactly on an unescaped quantifier with an empty list |
| Regex.StepInside | Week6/regex.cc:279-306 | one loop iteration inside brackets never fails and keeps the state well formed |
| Regex.Step | Week6/regex.cc:181-307 | the loop body fails exactly when, outside brackets and escapes, a quantifier meets an empty operator list |
| Regex.RunAppend | Week6/regex.cc:181-307 | parsing `a + b` is parsing `a`, then continuing from that state with `b` |
| Regex.ParseRegex | Week6/regex.cc:172-310 | every returned operator has min in {0,1}, max in {1,-1}, an empty history, valid bounds, and `min <= max` whenever max is bounded |
| Regex.LiteralPattern | Week6/regex.cc:270-275 | a pattern without special characters parses to one `MatchChar` per character, in order |
| Regex.DotIsAny | Week6/regex.cc:199-205 | an unescaped `.` after a complete parse adds exactly one `MatchAny` operator and changes nothing before it |
| Regex.QuantifierOnLast | Week6/regex.cc:216-263 | `?`, `*`, `+` after a complete operator change only the last operator: `?` sets min 0, `*` sets min 0 and max -1, `+` sets max -1; kind and all earlier operators stay |
| Regex.DanglingQuantifierRejected | Week6/regex.cc:216-253 | a quantifier with no operator before it makes the whole parse fail, whatever follows |
| Regex.EscapedSpecial | Week6/regex.cc:185-263 | `\.`, `\?`, `\*`, `\+` and `\\` each add exactly one literal operator for the escaped character |
| Regex.EscapedOrdinary | Week6/regex.cc:185-275 | `\a` for a non-special `a` adds two literal operators, `\` and `a`: the pushed backslash is removed only before `.`, `?`, `*`, `+` |
| Regex.TrailingBackslashKept | Week6/regex.cc:185-192 | a pattern ending in an unescaped `\` keeps it as a literal operator |
| Regex.RunInBracket | Week6/regex.cc:298-305 | inside brackets, characters other than `]` are collected into the class, except `^`, which sets the negate flag wherever it occurs |
| Regex.BracketClass | Week6/regex.cc:265-306 | `[m]` adds one operator: `MatchFromSubset(m)` when `m` has no `^`, otherwise `ExcludeFromSubset` of `m` with every `^` removed |
| Regex.UnterminatedBracketDropped | Week6/regex.cc:265-309 | a `[` that is never closed adds nothing: the parse returns the operators before it |
| Regex.ClearRegex | Week6/regex.cc:312-318 | the pop loop empties only its by-value copy of the list; that copy never reaches the caller, so the visible effect is none: the caller's list is unchanged and the operators it points to are never freed |
| Regex.NumMatches | Week6/regex.cc:63-65 | the size of the match stack: never negative, and zero exactly when no range is stored; `PushMatch` raises it by one and `PopMatch` lowers it by one |
| MazeGrid.ArrayIndex | Week4/maze.cc:57-64 | an expanded coordinate inside the (2R+1) x (2C+1) grid maps to a slot inside the array |
| MazeGrid.ArrayIndexInjective | Week4/maze.cc:57-64 | distinct expanded coordinates (column within the grid width) map to distinct slots |
| MazeGrid.CellCoordDecodes | Week4/maze.cc:70-76 | the expanded coordinate `MazeGrid.CellArrayCoord` gives a cell (the model of `getCellArrayCoord`) is odd/odd and decodes back to the cell |
| MazeGrid.WallArrayCoord | Week4/maze.cc:83-109 | a wall's coordinate is one step, horizontally or vertically, from its cell's coordinate |
| MazeGrid.WallCoordParity | Week4/maze.cc:83-109 | exactly one coordinate of a wall slot is even |
| MazeGrid.CellIndexInjective | Week4/maze.cc:57-76 | different cells occupy different array slots |
| MazeGrid.CellNotWall | Week4/maze.cc:57-109 | no cell slot is ever a wall slot |
| MazeGrid.WallSlotOwners | Week4/maze.cc:83-109 | two walls of in-range cells share a slot only if they are the same wall, or the same wall seen from the neighbour in the opposite direction |
| MazeGrid.SharedWall | Week4/maze.cc:273-303 | a cell's wall towards a neighbour is the neighbour's wall in the opposite direction |
| MazeGrid.GetCell | Week4/maze.cc:243-251 | reads the slot at `CellIndex`; the requires are the source's two range assertions |
| MazeGrid.HasWall | Week4/maze.cc:310-323 | true exactly when the slot at `WallIndex` for that direction holds `Wall`; the requires are the source's two range assertions |
| MazeGrid.IsVisited | Week4/maze.cc:357-370 | true exactly when the cell's slot at `CellIndex` holds `Visited`; the requires are the source's two range assertions |
| MazeGrid.SlotClosedForm | Week4/maze.cc:57-109 | with W = 2C+1, cell (r,c) is read at W(2r+1)+2c+1, and its north, south, west and east walls at W(2r)+2c+1, W(2r+2)+2c+1, W(2r+1)+2c and W(2r+1)+2c+2 |
| MazeGrid.Init | Week4/maze.cc:11-29 | the array has (2R+1)(2C+1) slots, all empty; start is (0,0) and end is (R-1,C-1) |
| MazeGrid.Copy | Week4/maze.cc:36-50 | the copy has the same dimensions, start, end and every slot |
| MazeGrid.SetStart | Week4/maze.cc:168-174 | needs an in-range position; only the start changes |
| MazeGrid.SetEnd | Week4/maze.cc:189-195 | needs an in-range position; only the end changes |
| MazeGrid.Clear | Week4/maze.cc:202-211 | every slot, cell or wall, becomes empty; the shape is kept |
| MazeGrid.SetFourWalls | Week4/maze.cc:221-234 | the four wall slots of one cell hold walls; every slot is unchanged or a wall; no cell changes |
| MazeGrid.SetRowWalls | Week4/maze.cc:219-235 | after one row of the double loop, every wall of that row's cells is set; no cell changes |
| MazeGrid.SetAllWalls | Week4/maze.cc:217-237 | every wall of every cell is present afterwards; cell values are unchanged; each slot is unchanged or a wall |
| MazeGrid.SetCell | Week4/maze.cc:243-265 | `getCell` afterwards returns the new value; every other cell and every wall is unchanged |
| MazeGrid.SetVisited | Week4/maze.cc:357-384 | `isVisited` holds afterwards; every other cell and every wall is unchanged |
| MazeGrid.SetWall | Week4/maze.cc:310-337 | `hasWall` holds afterwards; only that wall's slot changes, so no cell changes and no wall is removed |
| MazeGrid.ClearWall | Week4/maze.cc:310-351 | `hasWall` is false afterwards; a wall is present afterwards exactly when it was before and does not share the cleared slot; no cell changes |
| MazeGrid.GetNeighborCell | Week4/maze.cc:273-303 | needs a neighbour in that direction (the source's assertions); returns the in-range cell one step north, east, south or west |
| MazeGen.AddDirectionOption | Week5/genmaze.cc:154-162 | appends the direction exactly when the neighbour that way is unvisited |
| MazeGen.DirectionOptions | Week5/genmaze.cc:96-116 | at most four options, each towards an existing neighbour |
| MazeGen.DirectionOptionsExact | Week5/genmaze.cc:96-116 | a direction is offered exactly when a neighbour exists that way and is unvisited |
| MazeGen.PrepareMaze | Week5/genmaze.cc:57-73 | before the loop, every wall is set, start and end are the corners, and the start is the only visited cell |
| MazeGen.ClearWallSound | Week5/genmaze.cc:135-137 | opening the wall from a visited cell to a neighbour opens no border wall and opens only beside a visited cell or the neighbour |
| MazeGen.CarveKeepsInvariant | Week5/genmaze.cc:135-141 | opening the wall and visiting the neighbour keeps the loop invariant |
| MazeGen.CarveVisitsNeighbor | Week5/genmaze.cc:139-141 | the set of unvisited cells loses exactly the neighbour, so it shrinks |
| MazeGen.CarveKeepsPath | Week5/genmaze.cc:139-142 | after pushing the neighbour, every location on the stack is an in-range, visited cell |
| MazeGen.DfsStep | Week5/genmaze.cc:79-143 | one iteration of the generation loop either pops one location off the path stack or pushes exactly one; which of the two, and what it does to the maze, is stated by the `DfsStep*` lemmas below |
| MazeGen.DfsStepPops | Week5/genmaze.cc:84-125 | at the end cell, or with no options, the iteration only pops the stack |
| MazeGen.DfsStepCarves | Week5/genmaze.cc:133-143 | otherwise it opens the wall towards option `rand % |options|`, whose neighbour was unvisited, visits and pushes that neighbour, and keeps the invariant; one fewer cell is unvisited |
| MazeGen.DfsStepProgress | Week5/genmaze.cc:76-145 | every iteration keeps the invariant and either visits a new cell or leaves the maze alone and shortens the stack (the termination argument) |
| MazeGen.GenerateMaze | Week5/genmaze.cc:55-148 | the loop terminates with an R x C maze, start (0,0), end (R-1,C-1), start visited, outer border closed, and every open wall beside a visited cell |
| TspGenome.FromOrder | Week3/tsp-ga.cc:33-43 | the order-taking constructor stores exactly the given order, and `TspGenome.GetOrder` (the model of `getOrder`) returns it |
| TspGenome.NewGenome | Week3/tsp-ga.cc:19-28 | for any random stream, the order is a permutation of 0..n-1 (empty for n <= 0): right length, values exactly 0..n-1, no repeats |
| TspGenome.Swap | Week3/tsp-ga.cc:77-79 | the two values change places, every other position is unchanged, and the multiset is kept |
| TspGenome.Mutate | Week3/tsp-ga.cc:68-80 | with distinct in-range positions, the two values change places, the rest stay, and the order is a permutation of the old one |
| TspGenome.MutateInvolution | Week3/tsp-ga.cc:77-79 | mutating twice at the same positions restores the genome |
| TspGenome.MutateKeepsTour | Week3/tsp-ga.cc:68-80 | a duplicate-free order stays duplicate-free |
| TspGenome.AppendMissing | Week3/tsp-ga.cc:95-102 | the built prefix is kept; the result holds exactly the values of the prefix and of `xs`; no appended value was already present |
| TspGenome.AppendMissingInOrder | Week3/tsp-ga.cc:95-102 | the appended values are a subsequence of `xs`: their relative order is kept |
| TspGenome.AppendMissingNoDup | Week3/tsp-ga.cc:95-102 | appending to a duplicate-free prefix gives a duplicate-free result |
| TspGenome.Crosslink | Week3/tsp-ga.cc:84-107 | for a cut below `|g1|`: the child starts with `g1[0..cut)`, holds exactly the values of that prefix and of `g2`, and appends `g2`'s new values in `g2`'s order without repeats |
| TspGenome.CrosslinkPermutation | Week3/tsp-ga.cc:84-107 | if `g1` is duplicate-free and `g2` is a permutation of it, the child is duplicate-free and a permutation of `g1` |
| TspGenome.PermutationKeepsNoDup | Week3/tsp-ga.cc:19-28 | a rearrangement of a duplicate-free order is duplicate-free, e.g. the shuffled 0..n-1 |

## Left out

- Operator pointers: `parseRegex` pushes addresses of loop-local operators (`&op1`), which dangle once the iteration ends. The model keeps a sequence of operator values, which is what the code evidently means.
- Empty operator list: a quantifier meeting an empty list calls `back()` on an empty vector, which is undefined behaviour in C++. The model returns `Err(DanglingQuantifier(q))` for that input.
- Escape flag across brackets: the `escape` flag is not cleared by `[`. In `\[a].` the `.` therefore pops the bracket's operator. The model keeps this behaviour and proves no separate lemma about it.
- Characters: a `char` of the model stands for one byte (`char`) of the C++ `std::string`, which the parser and the matchers read one byte at a time. Non-ASCII text must be given byte by byte; a multibyte UTF-8 character is several operators, or several subset members, in the source.
- Three quirks of `parseRegex` are kept as written:
  - any `^` inside brackets negates, not only a leading one;
  - an unterminated `[` is silently dropped: the code accepts it;
  - a trailing `\` is kept as a literal: the code accepts it.
- Matcher ranges: the matchers require `r.start >= 0`. A negative start would index before the string in C++.
- The `printf` tracing in the matchers is left out.
- No whole-pattern backtracking match driver appears in the source, so none is modelled.
- Trivial accessors are left out: `getType`, `getMinRepeat` and `getMaxRepeat` in the regex file, and `getNumRows`, `getNumCols`, `getStart` and `getEnd` in the maze file. They are plain field reads of the datatypes.
- Maze memory management: the destructor and `new`/`delete[]` are left out, as are the constructors that only call `init`/`copy` and `Maze::print`.
- MazeGrid.Init: requires `rows, cols >= 0`. With exactly one negative dimension the size `(2R+1)(2C+1)` is negative and the allocation fails. With both negative the size is positive, e.g. 1 for `init(-1, -1)`, and `init` builds a maze whose end lies off the grid; `generateMaze` then trips the range assertion of `setStart`. The model excludes both cases.
- 32-bit `int` overflow is not modelled anywhere: sizes, indices and counts are unbounded integers.
- Main programs: `main` and `printUsage` in `Week5/genmaze.cc`, `srand(time(...))`, and `Week3/tsp-main.cc` are left out.
- MazeGen.GenerateMaze: does not state that every cell ends up visited or that the maze is connected. The contract covers the border, the visited start and that every opened wall is beside a visited cell.
- TspGenome.NewGenome: `random_shuffle` is a library algorithm. The model uses the usual Fisher–Yates sweep, exchanging the value at k with the one at `rand(k-1) % (k+1)`, and proves the result a permutation for every stream. Which permutations are reachable is not stated.
- TspGenome.Mutate: the retry loop that redraws `index2` until it differs from `index1` is not modelled. The two distinct positions are parameters. For an order of length 1 that loop never ends, and for length 0 `rand() % 0` is undefined; the precondition excludes both.
- TspGenome.Crosslink: the cut `rand() % g1.size()` is a parameter below `|g1|`. For an empty `g1` the source divides by zero.
- The allocated child pointer is left out.
- The TSP search is left out: `computeCircuitLength`, `getCircuitLength`, `isShorterPath`, `findAShortPath` and the `1e9` sentinel depend on floating point, library sorting and console output.
- `Week1` (point geometry) and `Week2/tsp.cc` (brute-force search) are not part of this model.

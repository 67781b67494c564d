# Exact-cover Sudoku solver (dancing links), modelled in Dafny

This project models the solving engine of `src/sudoku.py`. The engine solves an
n x n Sudoku grid with Knuth's Algorithm X on a "dancing links" matrix:

- every Candidate (a digit in a cell) is a row of the matrix;
- every Constraint (a cell, a row digit, a column digit or a box digit) is a column;
- `solve` recursively covers Constraints, chooses Candidates and undoes both in LIFO order.

`find_solutions` builds a `SudokuMatrix` for a grid and asks `solve` for up to
`numSols` solutions. It returns the single solution when exactly one was found,
the original grid when two or more were, and raises IndexError when none was
found.

Modules:

- **Layout.** The static shape of the matrix. The Root, the 4n² Constraint headers and the
  five Nodes of every Candidate (its head and one Node per Constraint) live in one
  arena of integer indices. Layout holds the index arithmetic: the box formula, the
  Candidate number `row*n*n + col*n + num`, and the Constraints a Candidate meets.
- **Rings.** Circular doubly linked lists as sequences: the ring a `left`/`right` (or
  `up`/`down`) pair of maps encodes, and what unlinking or relinking one element does to it.
- **Dance.** The link state of the matrix as a value `Dlx`, and the operations on it as
  pure functions:
  - `cover_node`/`uncover_node` (`CoverNodeF`, `UncoverNodeF`);
  - `Constraint.cover`/`uncover` (`CoverF`, `UncoverF`);
  - `Candidate.choose`/`unchoose` (`ChooseF`, `UnchooseF`).

  `Good` is the well-formedness invariant: every ring intact, the sizes right, and the
  Nodes of covered columns unlinked exactly.
- **Build.** The construction steps of `initialize_matrix` as functions: Root, Constraint,
  Candidate head and Node, with the invariant each step keeps.
- **Walks.** The step lemmas the loops of `cover` and `uncover` need.
- **History.** The trail of states saved by `choose`. `Chain` says each saved state is
  restored by undoing the matching choice.
- **Grid.** The digit symbols, the exceptions, `get_string`'s text (`Shows`), and the
  ordering `sorted(self.choices)` puts the choices in.
- **Givens.** How `add_filled_cell` reads a cell (integer, `int(s)` or `int(s, n + 1)`)
  and which Candidate it picks, and what `set_grid` loads from a whole grid (`Load`).
- **Search.** What a solution is:
  - `Solution(cfg, g, prefix)`: g is the text of an exact cover, by Candidates in
    distinct cells, that keeps every choice in `prefix`;
  - the lemmas that tie an empty header ring to an exact cover.
- **Completeness.** Why the search finds every solution exactly once. An open
  Constraint of size 0 rules out every solution. Otherwise every solution runs through
  exactly one Node of the chosen Constraint, and distinct Nodes give distinct texts.
- **Solver.** The class `SudokuMatrix`. Its fields are the link state (`left`, `right`,
  `up`, `down`, `size`, the covered flags and the set of linked Nodes) together with
  `choices` and `numSols`. Its methods do what the source's methods do, in place, each
  proved to leave the state that the matching pure function of Dance or Build describes.
  The module also holds `FindSolutions`.

The Python objects (Root, Constraint, Candidate, Node) are not separate heap
objects here. Their `left`, `right`, `up`, `down` and `size` attributes are entries
of the matrix's sequence fields, indexed by the arena position of the object.
`Candidate.choose` pushes a pair (location, Candidate) onto `choices`. The model
pushes `Choice(location, cand)`, and a ghost trail keeps the state before each push.

## Model

| member | source | states |
|---|---|---|
| Solver.FindSolutions | src/sudoku.py:81-110 | An invalid n or boxWidth raises AssertionError or ZeroDivisionError. A grid of the wrong length raises AssertionError. Text that is not a digit raises ValueError. If numSols <= 0, or if no solution exists, the result is IndexError, and for numSols > 0 an IndexError happens exactly when no grid is a solution that keeps the givens. A returned grid is such a solution, and when numSols >= 2 it is the only one. Returning the original grid means numSols >= 2 and two distinct solutions exist. For numSols > 0, a grid whose every cell is filled is returned unchanged, each cell shown as its symbol. |
| Solver.SolveGrid | src/sudoku.py:101-102 | Building the matrix for a grid (`__init__` with `set_grid`) and solving it: a wrong length is AssertionError, the load error is the one `Load` gives, and every solution returned is distinct and keeps the givens. When fewer than numSols were found, every solution was found. For numSols > 0, a fully given grid yields exactly its own text. |
| Solver.Ready | src/sudoku.py:175-218 | A fully built arena is well formed, has every Constraint uncovered with size n, a Root column of n³ Candidates, and every Candidate alive. |
| Solver.SudokuMatrix.constructor | src/sudoku.py:132-173 | The new matrix keeps cfg and numSols, is well formed with no choices, every Constraint is open with n Nodes, and every Candidate is alive. |
| Solver.SudokuMatrix.InitializeMatrix | src/sudoku.py:175-218 | Rebuilds the whole matrix from nothing: the same fresh state as the constructor, numSols unchanged. |
| Solver.SudokuMatrix.Built | src/sudoku.py:175-218 | A finished construction satisfies the class invariant with all Constraints of size n and all Candidates alive. |
| Solver.SudokuMatrix.Clear | src/sudoku.py:177-200 | Starts the build from the blank arena with no choices. |
| Solver.SudokuMatrix.NewRoot | src/sudoku.py:393-402 | The state afterwards is `RootF` of the state before: the Root links to itself in both directions. |
| Solver.SudokuMatrix.AddConstraints | src/sudoku.py:202-208 | After the loop, all 4n² Constraint headers are built in order on the Root's ring. |
| Solver.SudokuMatrix.NewConstraint | src/sudoku.py:588-606 | The state afterwards is `ConstraintF` of the state before: header k is linked in just left of the Root, starts with size n and an empty column, and is not covered. |
| Solver.SudokuMatrix.AddCandidates | src/sudoku.py:210-218 | After the triple loop, every Candidate of every cell is built, and the arena is complete. |
| Solver.SudokuMatrix.AddCandidate | src/sudoku.py:210-218 | One iteration builds the Candidate (row, col, num) and advances to the next head. |
| Solver.SudokuMatrix.NewCandidate | src/sudoku.py:474-520 | The state afterwards is `CandidateF` of the state before: the head, then its four Nodes in the cell, row, column and box Constraints. |
| Solver.SudokuMatrix.LinkHead | src/sudoku.py:502-507 | The state afterwards is `HeadF`: the Candidate head is added at the bottom of the Root's column. |
| Solver.SudokuMatrix.NewNode | src/sudoku.py:415-425 | The state afterwards is `NodeF`: the Node is added at the bottom of its Constraint's column, and (as lines 515-520 do) at the end of its Candidate's row, just left of the head. Sizes are not touched, since a Constraint starts at n. |
| Solver.SudokuMatrix.CoverNode | src/sudoku.py:427-445 | The state afterwards is `CoverNodeF`: the Node is unlinked vertically and its column's size drops by one. `Dance.CoverNodeUndo` proves that `uncover_node` undoes it. |
| Solver.SudokuMatrix.UncoverNode | src/sudoku.py:447-459 | The state afterwards is `UncoverNodeF`: the Node is relinked where it was and its column's size grows by one. |
| Solver.SudokuMatrix.CoverRow | src/sudoku.py:626-629 | Walking right from a Node covers each of its row mates in order (`CoverSeq`). |
| Solver.SudokuMatrix.UncoverRow | src/sudoku.py:649-652 | Walking left uncovers the row mates in reverse order (`UncoverSeq`). |
| Solver.SudokuMatrix.Cover | src/sudoku.py:608-630 | The state afterwards is `CoverF` of the state before. A Constraint already covered is left as it is. |
| Solver.SudokuMatrix.CoverColumn | src/sudoku.py:622-630 | With the header unlinked, covering every row of the column yields `CoverF`. |
| Solver.SudokuMatrix.Uncover | src/sudoku.py:632-653 | The state afterwards is `UncoverF` of the state before, and right after a cover it is the very state before that cover. |
| Solver.SudokuMatrix.UncoverColumn | src/sudoku.py:646-653 | With the header relinked first, uncovering the rows of the column bottom up restores the state from before the cover exactly. |
| Solver.SudokuMatrix.CoverConstraints | src/sudoku.py:527-530 | Covering the four Constraints of a Candidate yields `ChooseF`. |
| Solver.SudokuMatrix.Choose | src/sudoku.py:522-530 | `choices` gains (location, Candidate) at its end, the state becomes `ChooseF`, and the class invariant is kept. |
| Solver.SudokuMatrix.Unchoose | src/sudoku.py:532-535 | Uncovering the four Constraints in reverse order restores the state from before the choice. |
| Solver.SudokuMatrix.Backtrack | src/sudoku.py:371-374 | Fails (IndexError) exactly when `choices` is empty. Otherwise it pops the last choice and restores the state saved before it. |
| Solver.SudokuMatrix.BacktrackAll | src/sudoku.py:266-268 | Backtracking until `choices` is empty returns the matrix to its freshly built state. |
| Solver.SudokuMatrix.AddFilledCell | src/sudoku.py:278-318 | Digit 0 changes nothing. A digit outside 1 .. n raises CellViolation and changes nothing. Text that does not parse raises ValueError. A digit d chooses the Candidate that places d in that cell. |
| Solver.SudokuMatrix.SetGrid | src/sudoku.py:254-276 | A grid of the wrong length raises AssertionError and changes nothing. Otherwise the matrix is reset and then `choices` is exactly what `Load` gives for the grid: the givens in row-major order, CellViolation cells skipped, and loading stopped at the first ValueError. |
| Solver.SudokuMatrix.FillRow | src/sudoku.py:270-276 | One row of the loading loop extends `Load` by n cells, or stops with its error. |
| Solver.SudokuMatrix.FillCell | src/sudoku.py:271-276 | One cell of the loading loop extends `Load` by that cell. |
| Solver.SudokuMatrix.Solve | src/sudoku.py:320-361 | Appends to `sols` and lowers numSols by the number appended. Every text appended is a distinct solution keeping the choices made on entry. If numSols is still positive at the end, every such solution was appended. With numSols <= 0 nothing is appended. An empty header ring appends exactly the current grid. The choices stack is restored or popped as the source's backtracks do. |
| Solver.SudokuMatrix.Explore | src/sudoku.py:336-361 | The branching case of `solve`. A chosen Constraint of size 0 appends nothing and backtracks. Otherwise the solutions of every branch are appended, and the matrix backtracks below depth 0. |
| Solver.SudokuMatrix.TryColumn | src/sudoku.py:343-355 | The loop over the chosen Constraint's column leaves the matrix as it found it. It appends distinct solutions, each keeping one Node of the column. While numSols stays positive, the solutions of every Node were appended. |
| Solver.SudokuMatrix.TryNode | src/sudoku.py:348-355 | One iteration: the solutions under branch i, the state unchanged, and the next Node of the column. |
| Solver.SudokuMatrix.Descend | src/sudoku.py:348-351 | Choosing a Candidate and recursing appends the solutions that extend the choices with it, and returns the matrix to where it was. |
| Solver.SudokuMatrix.SolutionFound | src/sudoku.py:363-369 | numSols drops by one, the current text is appended, and the last choice is backtracked. With the header ring empty, that text is the unique solution keeping the choices. |
| Solver.SudokuMatrix.RecordSolution | src/sudoku.py:365-367 | The text appended shows the current choices. With every Constraint covered it is a solution, and the only one. |
| Solver.SudokuMatrix.ChosenConstraint | src/sudoku.py:376-389 | Returns an uncovered Constraint of least size, and the first such one in ring order (a strict `<` keeps the earliest). |
| Solver.SudokuMatrix.ScanHeaders | src/sudoku.py:378-389 | The loop over the header ring ends at the first header of least size. |
| Solver.SudokuMatrix.GetString | src/sudoku.py:231-252 | The text shows each choice's symbol at its location and '0' at every other cell. |
| Solver.SudokuMatrix.Render | src/sudoku.py:235-252 | The row-by-row loop over choices sorted by location produces the text `Shows` describes. |
| Grid.ConfigError | src/sudoku.py:153-154 | The two asserts of `__init__` raise only AssertionError or ZeroDivisionError. For a width >= 0 they pass exactly the valid configurations. |
| Grid.ZeroIsNoSymbol | src/sudoku.py:65 | '0' is never the symbol of a digit, so an empty cell is never confused with a given. |
| Grid.ShowsReordered | src/sudoku.py:233 | Sorting the choices does not change the text they show. |
| Grid.Insert | src/sudoku.py:233 | Inserting into an ascending list keeps it a permutation and ascending. |
| Grid.SortByLocation | src/sudoku.py:233 | `sorted(choices)` is a permutation of the choices, ascending by location when locations are distinct. |
| Givens.DigitValue | src/sudoku.py:305 | The digit value Python's `int(s, base)` gives a character is in -1 .. 35, and a decimal character has its decimal value. |
| Givens.DecimalRoundTrip | src/sudoku.py:303 | Reading back the decimal text of a number gives the number. |
| Givens.ParseIntRoundTrip | src/sudoku.py:303 | `int(s)` of a signed decimal text gives the number written. |
| Givens.SymbolRoundTrip | src/sudoku.py:300-305 | A digit's symbol, given as text, reads back as that digit, and "0" reads as the empty cell. |
| Givens.SymbolValue | src/sudoku.py:65 | The symbol at position i of the digit alphabet has the value i + 1 in base n + 1. |
| Givens.DecimalSymbols | src/sudoku.py:65 | The first nine symbols are the decimal digits. |
| Givens.LetterSymbols | src/sudoku.py:65 | The symbols after the ninth are the capital letters, in order. |
| Givens.ListIndex | src/sudoku.py:317 | A list index picks an element in range, counting a negative index from the end. Outside -N .. N - 1 it raises IndexError. |
| Givens.CellTarget | src/sudoku.py:300-318 | A chosen Candidate is always in range (the corrected add_filled_cell; see Findings). |
| Givens.CellTargetOnGrid | src/sudoku.py:300-318 | On the grid: digit 0 leaves the cell empty; a digit d in 1 .. n chooses the Candidate with that row, column and num d - 1; any other digit raises CellViolation; unparsable text raises ValueError. |
| Givens.AddFilledCellDoctest | src/sudoku.py:292-297 | Digit 3 in cell (0, 0) of a 9 x 9 grid chooses a Candidate with location 0 and num 2. |
| Givens.NegativeDigitAsWritten | src/sudoku.py:311-317 | As written, digit -1 in cell (0, 1) of a 9 x 9 grid chooses candidates[7], which is digit 8 in cell (0, 0). The corrected reading raises CellViolation. |
| Givens.CellTargetAgrees | src/sudoku.py:308-318 | For every digit that is not negative, the corrected reading and the reading as written agree. |
| Givens.LoadRaises | src/sudoku.py:270-276 | The only error that escapes the loading loop is ValueError. CellViolation is caught. |
| Givens.LoadFollowsCell | src/sudoku.py:270-276 | Each step of `Load` is `add_filled_cell` on that cell: it appends the chosen Candidate, skips an empty or violating cell, or stops with ValueError. |
| Givens.LoadStep | src/sudoku.py:270-276 | A cell with digit d in 1 .. n appends the choice (location k, Candidate k*n + d - 1). |
| Givens.LoadSound | src/sudoku.py:270-276 | Every loaded choice comes from a given of the grid in range, and the choices are ascending by location. |
| Givens.LoadPlaced | src/sudoku.py:270-276 | Every loaded choice sits at its Candidate's own location. |
| Givens.LoadComplete | src/sudoku.py:270-276 | Every cell given a digit in 1 .. n has a loaded choice at its location. |
| Givens.LoadedText | src/sudoku.py:231-276 | After loading a grid without error, the text of the loaded choices shows each given's symbol and '0' elsewhere: the grid round-trips through set_grid and get_string. |
| Givens.LoadError | src/sudoku.py:270-276 | Loading fails exactly when some cell holds unparsable text, and then with ValueError. |
| Givens.LoadDisjoint | src/sudoku.py:270-276 | A prefix of a conflict-free load is conflict free. |
| Givens.FreshOpen | src/sudoku.py:522-530 | A Candidate sharing no Constraint with the choices so far still has all four Constraints open, so choosing it is legal. |
| Search.SolutionsOne | src/sudoku.py:367 | Appending one solution keeps the list a list of solutions. |
| Search.SolutionWeaken | src/sudoku.py:320-361 | A solution that keeps more choices keeps fewer. |
| Search.EmptyRingCover | src/sudoku.py:332-333 | When the header ring is empty, the choices made form an exact cover. |
| Search.ChosenObeyRules | src/sudoku.py:522-530 | Two conflict-free choices lie in distinct cells and never repeat a digit in a row, a column or a box. |
| Search.ExactCoverFills | src/sudoku.py:202-208 | An exact cover places a Candidate in every cell. |
| Search.SolutionFilled | src/sudoku.py:231-252 | A solution's text has n² cells, none of them '0', and shows every kept choice. |
| Completeness.CoverOpenAlive | src/sudoku.py:608-630 | Covering keeps alive every Candidate whose Constraints are all still open. |
| Completeness.ChainOpenAlive | src/sudoku.py:522-535 | The same holds after any sequence of choices from the freshly built matrix. |
| Completeness.ChainFacts | src/sudoku.py:320-361 | From the fresh matrix, the open Constraints are those the choices do not cover, every open Candidate is alive, and the choices are conflict free. |
| Completeness.SolutionNode | src/sudoku.py:343-355 | Every solution that keeps the choices uses a Node of the chosen Constraint that is still linked. |
| Completeness.DeadEnd | src/sudoku.py:338-341 | An open Constraint of size 0 means that no solution keeps the current choices. |
| Completeness.SolutionBranch | src/sudoku.py:346-355 | Every solution that keeps the choices keeps the choices of some branch of the column loop. |
| Completeness.BranchesDiffer | src/sudoku.py:346-355 | No text is a solution under two different Candidates of one Constraint, so branches never repeat a solution. |
| Completeness.CoverText | src/sudoku.py:231-252 | Choices that keep an exact cover show the same text as the cover. |
| Completeness.CoverFound | src/sudoku.py:332-333 | An exact cover has exactly one solution text. |
| Completeness.BranchJoin | src/sudoku.py:346-355 | Appending the solutions of one more branch keeps the list tagged by branch and distinct. |
| Completeness.FoundJoin | src/sudoku.py:346-355 | After one more branch, every branch tried so far has all of its solutions in the list. |
| Completeness.SweepStep | src/sudoku.py:346-355 | The loop invariant of the column loop is kept by one iteration. |
| Completeness.ColumnFound | src/sudoku.py:346-355 | If every branch has all of its solutions in the list, then every solution keeping the choices is in it. |
| Completeness.TaggedSolutions | src/sudoku.py:346-355 | Solutions of the branches are solutions that keep the choices. |
| Completeness.FullCover | src/sudoku.py:202-218 | n² conflict-free Candidates form an exact cover. |
| Completeness.FullGridCover | src/sudoku.py:254-276 | A full conflict-free grid loads without error into an exact cover. |
| Completeness.FullRing | src/sudoku.py:332 | With the choices an exact cover, the header ring is empty. |
| Completeness.StuckNone | src/sudoku.py:338-341 | The dead end of `solve`, from the class invariant: no solution exists. |
| Completeness.BranchesFound | src/sudoku.py:346-361 | If every branch found all of its solutions, the column loop found every solution. |
| Completeness.FullStart | src/sudoku.py:101-102 | A full conflict-free grid starts `solve` with an empty header ring. |
| Completeness.Outcome | src/sudoku.py:102-110 | What the list from `solve` means for `find_solutions`. It is empty exactly when no solution exists, and its first entry is a solution. One entry with numSols >= 2 is the unique solution. Two entries are two distinct solutions. |
| Dance.CoverNodeUndo | src/sudoku.py:427-459 | `uncover_node` after `cover_node` restores the state. |
| Dance.CoverNodeStep | src/sudoku.py:427-445 | `cover_node` keeps every column well formed and is undone by `uncover_node`. |
| Dance.CoverGood | src/sudoku.py:608-653 | `cover` keeps the invariant, marks exactly that Constraint covered, and unlinks exactly the rows of its column. It leaves the column's own Nodes in place and is undone by `uncover`. |
| Dance.CoverUndo | src/sudoku.py:608-653 | `uncover` after `cover` restores the state. |
| Dance.CoverListGood | src/sudoku.py:525-535 | Covering distinct open Constraints in order keeps the invariant and is undone by uncovering them in reverse. |
| Dance.ChooseGood | src/sudoku.py:522-535 | `choose` keeps the invariant, closes exactly its four Constraints, and is undone by `unchoose`. |
| Build.RootOk | src/sudoku.py:393-402 | The Root alone is a correct start of the construction. |
| Build.ConstraintOk | src/sudoku.py:588-606 | Appending the next Constraint header keeps the construction correct. |
| Build.NodeStep | src/sudoku.py:415-425 | Adding the next Node keeps the construction correct. |
| Build.CandidateBuilt | src/sudoku.py:474-520 | Adding a whole Candidate keeps the construction correct. |
| Build.Finished | src/sudoku.py:175-218 | The finished construction is well formed, has every Constraint uncovered, and every Candidate alive. |
| History.ChainPush | src/sudoku.py:522-530 | A choice extends the trail, and undoing it is the recorded step. |
| History.ChainPop | src/sudoku.py:371-374 | Popping the last choice gives back the previous trail and the state saved for it. |
| History.ChainUncovered | src/sudoku.py:320-361 | The open Constraints are the initial ones minus those the choices cover, and the choices are conflict free. |
| History.ChainPlaced | src/sudoku.py:522-530 | Every recorded choice pairs a Candidate with its own location. |
| History.ChooseShrinks | src/sudoku.py:348-351 | Each choice closes at least one open Constraint, so the recursion of `solve` terminates. |
| History.HeaderWalk | src/sudoku.py:378-387 | The header ring, walked from the Root, lists the uncovered Constraints in increasing order. |
| Layout.BoxInRange | src/sudoku.py:213-214 | The box of a cell is in 0 .. n - 1. |
| Layout.BoxPosRoundTrip | src/sudoku.py:213-214 | A cell is recovered from its box and its position in the box. |
| Layout.CandRoundTrip | src/sudoku.py:210-218 | The Candidate number of (row, col, num) is in range and decodes back to its location, row, column and num. |
| Layout.HeaderRoundTrip | src/sudoku.py:202-208 | Every Constraint header index decodes back to its family and index. |
| Layout.MembersLength | src/sudoku.py:489-520 | Every Constraint column holds n Candidates, and the Root's column holds all n³. |

## Left out

- Solver.FindSolutions: requires the givens to be conflict free (`Consistent`). `set_grid` accepts givens that put the same digit twice in a row, column or box. The second `choose` then covers Constraints that are already covered, and a later `unchoose` relinks Nodes out of order. That corrupts the rings, and the model does not follow it.
- Solver.SudokuMatrix.SetGrid: requires `Consistent` too, for the same reason.
- Solver.FindSolutions: requires boxWidth >= 0. A negative width passes the assert at src/sudoku.py:154 (9 % -3 == 0 in Python). It then gives a negative box height, and the box arithmetic at src/sudoku.py:213-214 goes outside 0 .. n - 1. That ends in an IndexError at src/sudoku.py:492, or, for some sizes, in boxes different from the intended ones. Negative widths are not modelled.
- Givens.ParseInt: Python's `int(s)` also accepts surrounding whitespace, as in " 5". The model rejects such text as a ValueError.
- Solver.SudokuMatrix.SetGrid: the `print e` of a caught CellViolation (src/sudoku.py:276) is output only. The model skips the cell silently.
- Solver.FindSolutions: numSols is an integer. The `float('inf')` setting of src/sudoku.py:79 means "find every solution". It behaves as any integer larger than the number of solutions, which the contracts cover.
- Grid.SortByLocation: orders by location only. On two choices with the same location, Python's `sorted` would go on to compare the Candidate objects by identity. Conflict-free choices never share a location, so the text is the same.
- `Candidate.legality_check` (src/sudoku.py:537-574) is not called by the solving path and is not modelled.
- `pretty_print`, `__str__` and `__repr__` are display only and are not modelled.
- The CGI `__main__` block (src/sudoku.py:722-755) and the doctest runner do I/O and are not modelled.
- The other error classes of the module are not raised by the modelled core. CellViolation is modelled as `Grid.Exception.CellViolation(row, col, digit)`. Its message text is not modelled.
- Python object identity is modelled by arena indices. Each Root, Constraint, Candidate and Node object is one index of the matrix's sequence fields, so two objects can never alias.
- The recursion of `solve` moves to the next Node (`selectedNode.down`) after the recursive call returns. The model reads `down[node]` just before the call. The call restores the link state exactly, so the two readings are the same Node.

## Findings

| source | as written | input that shows it | evidently intended | confidence | as-written member | corrected member |
|---|---|---|---|---|---|---|
| src/sudoku.py:311-317 | `add_filled_cell` rejects only digits above n. A negative digit reaches `self.candidates[row * n**2 + col * n + digit - 1]`, and Python counts a negative index from the end (or from a neighbouring cell). | n = 9, boxWidth = 3, the text "-1" in cell (0, 1): the index is 9 - 2 = 7, so `candidates[7]` (digit 8 in cell (0, 0)) is chosen. | The digit must lie in 1 .. n, as the docstring at src/sudoku.py:290 says. A digit below 1 should raise CellViolation like one above n, and `set_grid` then skips that cell. | not executed | Givens.NegativeDigitAsWritten | Givens.CellTarget, Solver.SudokuMatrix.AddFilledCell |

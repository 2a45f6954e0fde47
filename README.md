# Sudoku solver by constraint propagation and search

This project models the solving engine of `solution.py`, a 9×9 Sudoku solver
that also handles the diagonal variant, where the two long diagonals are extra
all-different units. The model is written in Dafny and its properties are proved.

The engine has four parts:

- **Topology** (module `Topology`): the boxes `A1`..`I9` as `cross(rows, cols)`,
  the 27 row, column and block units, and the two diagonals. It also builds
  `units` and `peers` from the unit list. Boxes are the integers 0..80 in row-major
  order. Lemmas tie each box to its name and each unit to the names the source
  builds. The flag `diagonal` chooses the units and peers of elimination and
  only-choice: `true` gives the diagonal ones the source always uses, `false`
  the classic ones.
- **Candidate grid** (module `Grid`): box → the digits still possible there.
  - In methods the grid is an `array<set<int>>` of length 81, updated in place as
    the source updates its dictionary. Specifications use a `seq<set<int>>`.
  - `assign_value` writes a box and, when the box becomes a single digit, appends a
    grid snapshot to the `assignments` trace. The `Trace` class owns that list.
  - `grid_values` parses the puzzle text.
- **Propagation** (module `Propagation`): elimination, only-choice and naked twins,
  and `reduce_puzzle`, which repeats the three until the number of solved boxes
  stops growing or a box runs out of candidates.
- **Search** (module `Search`): `search` branches on the unsolved box with the
  fewest candidates, one grid copy per digit. `solve` parses the text and starts
  the search.

Every rule is proved to narrow the grid and to keep every solution that fits it
(`KeepsSolutions`). So `Search` is sound and complete: a grid it returns is a
solution that fits the input, and "no result" means that no solution fits the
input. When `ReducePuzzle` returns true, it ends with no solved box's digit
left among its peers' candidates.

Some lines of the source would crash or test the wrong thing. The model follows
the evident intent at each of them, and the member's doc comment says so:

- Line 39 compares a peer's candidates with themselves. The model compares them
  with the box's candidates; see Findings.
- Line 71 passes the twin pair where the grid is meant. The model passes the grid.
- Line 85 joins both diagonals into one 18-box unit. The model uses two 9-box
  units; see Findings.
- Lines 86-87 index a list with a box name. The model derives the diagonal peers
  from the unit list, as line 16 does.
- Line 185 applies `len` to a generator. The model's check is "every box has
  exactly one candidate".
- Lines 184 and 196 return `False` and `None`. The model has one failure value.

`naked_twins` uses the classic `peers` and `unitlist` (lines 38, 46-47 and 67),
while elimination and only-choice use the diagonal ones. The model does the same:
`NakedTwins` takes no flag, and it is proved to keep both the classic and the
diagonal solutions, since every diagonal solution is a classic one.

Elimination is not idempotent: a pass can solve a box whose digit only the next
pass removes from its peers. `EliminationNotIdempotent` shows grids where two
passes differ from one, with the diagonal peers as with the classic ones. `EliminationIdempotentWhenNoNewSolved` states when a
second pass changes nothing.

## Model

| member | source | states |
|---|---|---|
| Topology.Cross | solution.py:5-7 | `cross(A, B)`: each label of A joined with each label of B, A outer and B inner; its length and contents are stated by the next two lemmas |
| Topology.CrossLength | solution.py:5-7 | `cross(A, B)` has \|A\|·\|B\| names |
| Topology.CrossAt | solution.py:5-7 | the name at position i·\|B\|+j of `cross(A, B)` is A[i] followed by B[j] |
| Topology.BoxesInRowMajorOrder | solution.py:11 | `boxes` has 81 names, and box b is named by row b/9 and column b%9 |
| Topology.BoxNamesDistinct | solution.py:11 | different boxes have different names |
| Topology.LabelsAscending | solution.py:3-4 | the row letters and column digits are in ascending character order |
| Topology.BoxOrderIsNameOrder | solution.py:188 | box index order is the string order of box names, which `min` uses to break ties |
| Topology.StandardUnits | solution.py:12-14 | the classic `unitlist`: the nine columns, then the nine rows, then the nine 3×3 blocks, as box indices |
| Topology.UnitList | solution.py:85 | the unit list: the classic one, with the two diagonals in front as two separate units when `diagonal` holds (the corrected line 85) |
| Topology.UnitsOf | solution.py:15 | `units[s]`: the units of the list that contain s, in list order |
| Topology.Containing | solution.py:15 | `units[s]` holds exactly the units of the list that contain s |
| Topology.Flatten | solution.py:16 | `sum(units, [])` holds exactly the boxes of those units |
| Topology.UnitPeers | solution.py:16 | `peers[s]`: the boxes of all units containing s, without s itself |
| Topology.Peers | solution.py:16 | the peers in coordinate form: the other boxes sharing a row, column or block with s, or a diagonal when `diagonal` holds (the `diag_peers` of line 87); proved equal to `UnitPeers` |
| Topology.UnitListWellFormed | solution.py:12-14 | the list has 27 units (29 with the diagonals), each of 9 distinct boxes |
| Topology.InColumn | solution.py:13 | a column unit holds exactly the boxes of that column |
| Topology.InRow | solution.py:13 | a row unit holds exactly the boxes of that row |
| Topology.InBlock | solution.py:13-14 | a block unit holds exactly the boxes of that 3×3 block |
| Topology.BlockIsUnit | solution.py:13-14 | each 3×3 block lists 9 distinct boxes |
| Topology.InDiagonal1 | solution.py:82 | the first diagonal holds exactly the boxes with row = column |
| Topology.InDiagonal2 | solution.py:83-84 | the second diagonal holds exactly the boxes with row + column = 8 |
| Topology.ColumnNames | solution.py:13 | column unit c names the boxes `cross(rows, cols[c])` |
| Topology.RowNames | solution.py:13 | row unit r names the boxes `cross(rows[r], cols)` |
| Topology.BlockNames | solution.py:13-14 | block unit (br, bc) names the boxes of `cross` of its row triple and column triple |
| Topology.DiagonalNames | solution.py:82-84 | the diagonals name A1..I9 and A9..I1 |
| Topology.UnitPeersShareUnit | solution.py:16 | b is in `peers[s]` iff b ≠ s and some unit holds both |
| Topology.PeersAreUnitPeers | solution.py:16 | the coordinate form of the peers equals the peers built from the unit list |
| Topology.PeersShareUnit | solution.py:16 | the same characterisation for the coordinate form of the peers |
| Topology.PeerRelation | solution.py:16 | the peer relation is irreflexive and symmetric, and relates boxes only |
| Topology.UnitMembersArePeers | solution.py:15-16 | two different boxes of one unit are peers |
| Grid.CountSolved | solution.py:161 | the number of boxes with exactly one candidate, as `solved_before` and `solved_after` (line 169) count them; never more than the boxes |
| Grid.CountSolvedMonotone | solution.py:161-171 | narrowing a grid with no empty box never lowers the solved count, and an equal count means the same boxes are solved |
| Grid.TotalCandidatesMonotone | solution.py:182 | narrowing never raises the number of candidates left |
| Grid.TotalCandidatesNarrow | solution.py:192 | fixing a box to a strict subset of its candidates lowers the number of candidates left |
| Grid.SettledSolvedIsSolution | solution.py:185-186 | a well-formed grid that is solved and settled is a solution |
| Grid.DiagonalSolutionIsClassic | solution.py:12-16 | a solution of the diagonal puzzle is a solution of the classic one |
| Grid.SolutionIffUnitsAllDifferent | solution.py:12-16 | a grid is a solution (solved, no two peers alike) iff it is solved and every unit of the variant holds pairwise different digits |
| Grid.SolutionUnitsCoverDigits | solution.py:145-149 | every unit of a solution holds all nine digits |
| Grid.UnitCoversDigits | solution.py:145-149 | nine pairwise different single digits in a unit are the digits 1..9 |
| Grid.UnitHoldsDigit | solution.py:145-149 | a solved all-different unit has a box holding any given digit |
| Grid.JoinedDiagonalsNeverAllDifferent | solution.py:85 | the joined 18-box diagonal unit lists box E5 twice, so no grid makes it all-different |
| Grid.Least | solution.py:52-53 | the first character of a candidate string is its smallest digit |
| Grid.Trace.constructor | solution.py:18 | the trace starts empty |
| Grid.AssignValue | solution.py:21-29 | the box gets the value; a snapshot is appended iff the value is one digit |
| Grid.CellOf | solution.py:103-106 | one character: `.` gives all nine digits, a digit gives itself, any other character is dropped |
| Grid.ParsedCells | solution.py:100-106 | one cell per kept character, never more cells than characters |
| Grid.ParsedCellsShape | solution.py:100-106 | every parsed cell is all nine digits or one digit |
| Grid.GridValues | solution.py:90-108 | a grid comes back iff exactly 81 cells are kept, and it is the parsed, well-formed grid |
| Grid.CharOfRoundTrip | solution.py:102-106 | a cell's character parses back to the cell |
| Grid.ParseEncode | solution.py:100-106 | parsing the text of an initial grid gives back the grid |
| Grid.EncodeParse | solution.py:100-106 | text made only of kept characters is recovered from its parse |
| Propagation.SolutionPeersDiffer | solution.py:16 | two peers hold different digits in a solution |
| Propagation.SolutionKeepsSolved | solution.py:131-133 | a solution that fits a grid agrees with every solved box of it |
| Propagation.Eliminated | solution.py:126-137 | one elimination pass only removes candidates |
| Propagation.EliminationSound | solution.py:126-137 | every solution that fits the grid fits it after elimination |
| Propagation.EliminationIdempotentWhenNoNewSolved | solution.py:126-137 | when a pass solves no new box, a second pass changes nothing |
| Propagation.NotIdempotentWitness | solution.py:126-137 | the grid A1 = {1}, A2 = {1, 2}, A3 = {2, 3}, all other boxes open, has the witness shape |
| Propagation.EliminationNotIdempotent | solution.py:126-137 | with the diagonal peers the source uses, and with the classic ones, on a grid of the witness shape neither of two passes empties a box, and the second pass changes the grid again |
| Propagation.Eliminate | solution.py:126-137 | only removes candidates; clears each solved box's digit from its peers; equals the pass function when no box empties; keeps every solution |
| Propagation.Places | solution.py:147 | `dplaces` holds exactly the boxes of the unit that still allow the digit, without repeats |
| Propagation.OnlyPlaceIff | solution.py:147-148 | `dplaces` is the single box k iff k is the only box of the unit allowing the digit |
| Propagation.PlaceStep | solution.py:147-149 | one digit check keeps each box or reduces it to one of its candidates alone |
| Propagation.PlaceStepMeaning | solution.py:147-149 | the only place of the digit is set to it, and otherwise the grid is unchanged |
| Propagation.PlaceStepSound | solution.py:147-149 | placing a digit at its only place keeps every solution |
| Propagation.SolutionAtOnlyPlace | solution.py:147-149 | a solution that fits the grid holds the digit at its only place in the unit |
| Propagation.DigitPlaceInSolution | solution.py:147-149 | every unit of a solution holds each digit in one of its boxes |
| Propagation.PlaceDigits | solution.py:146-149 | running digits d..9 over a unit only sets boxes to digits they allowed |
| Propagation.PlaceUnits | solution.py:145-149 | running over a list of units only sets boxes to digits they allowed |
| Propagation.PlaceDigitsSound | solution.py:146-149 | running digits d..9 over a unit keeps every solution |
| Propagation.PlaceUnitsSound | solution.py:145-149 | running over units of the list keeps every solution |
| Propagation.PlaceUnitDigits | solution.py:146-149 | the in-place loop over the nine digits computes the specification function |
| Propagation.PlaceDigit | solution.py:147-149 | one in-place (unit, digit) check computes the specification of that check |
| Propagation.OnlyChoice | solution.py:140-150 | the in-place pass computes the specification; it only fixes boxes to candidates they had and keeps every solution |
| Propagation.IsTwinPair | solution.py:37-39 | the corrected twin test: b is a peer of a, a has exactly two candidates, and b has the same two |
| Propagation.IsTwinPairAsWritten | solution.py:39 | the twin test as written: b is a peer of a with two candidates, and b's candidates are compared with themselves |
| Propagation.TautologicalTwinTest | solution.py:39 | the test as written pairs two boxes with different candidates |
| Propagation.TwinsExclude | solution.py:44-54 | in a solution, a common peer of twins holds neither twin digit |
| Propagation.FindNakedTwinsUnit | solution.py:32-41 | every pair found is a twin pair whose first box is in the unit, and every such pair is found |
| Propagation.TwinRemovalSound | solution.py:44-54 | removing twin digits from common peers keeps every solution |
| Propagation.ClearPair | solution.py:46-53 | one pair's pass only removes candidates and never touches a box with two or fewer |
| Propagation.ClearPairs | solution.py:45-53 | the passes for the pairs in list order only remove candidates and never touch a box with two or fewer |
| Propagation.ClearPairsClears | solution.py:45-53 | after the passes, every common peer of each pair holds neither of its twin digits, or two candidates or fewer |
| Propagation.ClearPairsKeeps | solution.py:45-53 | the passes empty no box, and each digit they remove is a twin digit of a pair whose common peer the box is, and that box ends with neither of the pair's digits |
| Propagation.RemoveTwoDigits | solution.py:52-53 | the box loses both digits and no other box changes |
| Propagation.ClearTwinDigits | solution.py:46-53 | the in-place pass for one pair equals `ClearPair` with the first twin's two candidates: each common peer with more than two candidates loses them, nothing else changes |
| Propagation.RemoveNakedTwinsUnit | solution.py:44-54 | the in-place removal equals `ClearPairs` over the whole list; so it only removes candidates, never from a box with two or fewer, empties no box, removes only twin digits from common peers and then both of them, and leaves every common peer clear of its pair's digits or with two or fewer |
| Propagation.PairClearedNarrow | solution.py:57-73 | a pair whose common peers are cleared stays cleared when the grid narrows further |
| Propagation.ClassicKeepsDiagonal | solution.py:57-73 | a step that keeps every classic solution keeps every diagonal solution |
| Propagation.TwinDigitKept | solution.py:57-73 | a step that leaves boxes with two candidates or fewer alone and only narrows keeps the twin pair that justifies a removed digit, and the box stays free of both its digits |
| Propagation.TwinRemovalJustified | solution.py:68-71 | after a removal over the unit's pairs, every digit lost so far is a candidate of twins, first box in the unit, whose common peer lost it together with the other twin digit |
| Propagation.NakedTwinsInUnit | solution.py:68-71 | for one unit: only removes candidates, keeps boxes with two or fewer, empties no box, clears the common peers of every twin pair whose first box is in the unit, removes a digit only from a common peer of twins in the unit holding it, and that peer ends with neither twin digit; keeps every classic solution |
| Propagation.NakedTwins | solution.py:57-73 | only removes candidates, keeps boxes with two or fewer unchanged, empties no box; every twin pair of the input ends with each common peer free of the pair's digits or down to two candidates; a digit is removed only from a common peer of twins holding it, and that peer ends with neither twin digit; keeps every classic and every diagonal solution |
| Propagation.SettledAfterStall | solution.py:159-171 | a pass that solves no new box leaves the grid settled |
| Propagation.ReducePass | solution.py:159-171 | one pass narrows, keeps every solution, and is settled when the solved count does not grow |
| Propagation.ReducePuzzle | solution.py:153-176 | narrows, keeps every solution, succeeds iff no box is empty, and is settled on success |
| Search.Fewest | solution.py:188 | no box is chosen iff every box has at most one candidate; otherwise the chosen box has the fewest candidates among boxes with more than one, the earliest on a tie |
| Search.BranchRefines | solution.py:190-193 | a solution holding digit d at box s fits the branch that fixes s to d |
| Search.NextDigit | solution.py:190-195 | a digit that is not a candidate at s, or whose branch found nothing, is held at s by no solution that fits the grid |
| Search.BranchNarrows | solution.py:191-193 | the branch grid is well formed and has strictly fewer candidates, so the recursion ends |
| Search.CopyWith | solution.py:191-192 | the copy is a new grid equal to the old one except that box s holds the chosen digit |
| Search.NoDigitLeft | solution.py:190-196 | when every digit is ruled out at s, no solution fits the grid |
| Search.Search | solution.py:179-196 | a result is a solution that fits the input; no result means no solution fits it |
| Search.Solve | solution.py:198-207 | bad text iff the parse does not give 81 cells; a solution fits the parsed grid; "unsolvable" means none does |

## Left out

- Display (`display`, lines 111-123) and the `__main__` block with its visualisation (lines 210-222) are output only.
- Python's set iteration order is not specified: the peer sets walked on lines 38, 49 and 134. The model walks them in ascending box index. Dictionary order is insertion order, so `values.keys()` on line 131 is the row-major order of `boxes`, as modelled.
- The source has no variant switch. `eliminate` and `only_choice` always use the diagonal peers and units (lines 134 and 145), and `naked_twins` always the classic ones. `diagonal = true` is the source; `diagonal = false`, classic units and peers for elimination and only-choice too, is a generalisation the source does not offer.
- Candidate strings are modelled as sets of digits. "The i-th character" is the i-th smallest digit, since the strings start as "123456789" and are only filtered.
- Search.Search: the contract does not say which of several solutions comes back. The result is a value snapshot, not the source's dictionary object.
- Propagation.RemoveTwoDigits, Propagation.ClearTwinDigits, Propagation.RemoveNakedTwinsUnit, Propagation.NakedTwinsInUnit, Propagation.NakedTwins, Propagation.ReducePass, Propagation.ReducePuzzle, Search.Search: these state only that the trace is extended. They do not state the snapshots appended.
- Propagation.Eliminate: states the exact result only when no box is emptied. Otherwise it states bounds on both sides.
- Propagation.FindNakedTwinsUnit: states the set of pairs found, not their order or repetitions. The source's `False` for "none found" is the empty list.
- Propagation.NakedTwins: states narrowing, soundness, which digits may leave which box, and that every twin pair of the input ends with its common peers cleared, not the exact grid. A box is cleared only while it has more than two candidates, so the exact result depends on the order of the units and pairs, and on pairs that only appear during the pass.
- Lines 71, 86-87 and 185 would raise an exception in Python. They are modelled by their intent, as described above.

## Findings

| source | as written | input that shows it | evidently intended | confidence | as-written member | corrected member |
|---|---|---|---|---|---|---|
| solution.py:39 | `values[peer] == values[peer]` is always true, so every peer of a two-candidate box counts as its twin | A1 = {1,2}, A2 = {3,4}, all other boxes open: A2 is reported as A1's twin | `values[peer] == values[box]` | not executed | Propagation.TautologicalTwinTest | Propagation.TwinsExclude |
| solution.py:85 | both diagonals are joined into one 18-box unit in which E5 appears twice | any grid: the joined unit can never hold pairwise different values | two 9-box units, one per diagonal | not executed | Grid.JoinedDiagonalsNeverAllDifferent | Topology.UnitListWellFormed |

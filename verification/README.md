# Minesweeper game store and auto-player, in Dafny

This project models the core of a browser Minesweeper game with an automatic player:

- the board utilities (`src/utils.ts`):
  - counting the mines around a cell;
  - recounting a neighbourhood;
  - generating a board;
  - moving a mine away from the first click;
- the game store (`src/stores/useGame.ts`):
  - the board and its four status flags;
  - revealing a cell, with the recursive flood fill over empty cells;
  - the win check, flag toggling, the mine counter and resetting;
- the solver (`src/solver.ts`):
  - the per-cell neighbour summary and the list of numbered cells;
  - the two deterministic rules (all unknown neighbours are mines; all unknown neighbours are safe);
  - the averaged mine probabilities;
  - the first-click position and the choice of the next move.

The board is an `array2<Cell>` (`Length0` is the height, `Length1` the width) that the methods
update in place, as the source's `CellState[][]` is. The specifications read it as a value
(`Grid`, rows of cells, indexed `g[y][x]` like the source) through `Board.Snap`.

The modules:

- `Board` holds the shared vocabulary:
  - positions and cells;
  - the 3x3 block (`Window`) and the eight neighbours (`Adjacent`), both in the source's scan order;
  - the mine counts (`WindowMines` includes the cell itself, `AdjacentMines` does not);
  - the correctness of every safe cell's count (`CountsCorrect`);
  - the flag count.
- `Utils` is `src/utils.ts`.
- `SolverSpec` holds the reference definitions the solver is proved against:
  - `NeighborInfo`, `NumberedCells`, `DefiniteMines`, `DefiniteSafe`;
  - `Averages`, `Lowest`, `FirstUnknown`, `FirstClickPos`, `NextMove`;
  - and what is proved about them:
    - The mine rule is sound on any board whose counts are right and whose revealed cells are safe.
    - The safe rule is sound when, in addition, every flag sits on a mine.
    - The probabilities lie in (0, 1].
    - Once some cell is revealed, the next move never waits and only names unknown cells.
    - On a non-empty board with nothing revealed, and draws in [0, 1), the move reveals one cell
      of the inner band.
- `Solver` is the `MinesweeperSolver` class. Each method is proved equal to its reference definition.
- `Game` is the store: a class `Game` with the store's state as fields. The class invariant
  (`ValidState`) says:
  - the counts are right and the board holds `mineCount` mines;
  - no cell is both revealed and flagged;
  - a won game has every safe cell revealed;
  - a game still on shows no mine;
  - nothing is revealed before the first click.

  Revealing is proved to:
  - reveal only (the first click may also move one mine);
  - uncover no mine except possibly the clicked cell;
  - leave every newly revealed empty cell with its whole neighbourhood revealed or flagged;
  - reveal no cell that the flood from the click cannot reach (`FloodBounded`). A flood path is
    a chain of neighbouring cells in which every cell but the last is hidden, unflagged, safe
    and has count 0.

  `Game.FloodDetermined` shows that these bounds together fix the resulting board, and
  `Game.NumberRevealsOne` shows that a click on a number or a mine reveals only that cell.

Randomness is an input. `generateBoard` receives the sequence of positions its `Math.random`
calls would draw. `handleFirstClick` receives the candidate positions for the moved mine.
`getFirstClickPosition` receives two reals. Its method accepts any reals. Only
`SolverSpec.FirstClickOnBoard`, which proves the position lies on the board, assumes both are in
[0, 1), the range of `Math.random`.

## Model

| member | source | states |
|---|---|---|
| Utils.CalculateNeighborMines | src/utils.ts:4-16 | the result is the number of mines among the on-board cells of the 3x3 block around (x, y), the cell itself included; it equals the adjacent mines plus the cell's own mine, and is at most 9 |
| Board.ScanMinesNext | src/utils.ts:6-12 | one step of the block scan at offset (dx, dy) adds exactly one when that neighbour is on the board and a mine |
| Board.ScanMinesPrefix | src/utils.ts:6-14 | after k steps the running count is the mine count of the first k block positions in scan order |
| Board.WindowIsAdjacentPlusCentre | src/utils.ts:6-12 | the block count is the eight-neighbour count plus the cell's own mine |
| Board.NeighbourhoodBounds | src/utils.ts:4-16 | a cell has at most 8 adjacent mines and at most 9 in its block |
| Board.WindowMembers | src/utils.ts:6-9 | the block scan visits exactly the positions within distance 1 in both coordinates |
| Board.WindowSplit | src/utils.ts:6-9 | the block in scan order is the first four neighbours, then the cell, then the last four |
| Board.AdjacentMembers | src/solver.ts:29-33 | the neighbour scan, which skips offset (0, 0), visits exactly the positions near the cell other than the cell itself |
| Board.SameMinesSameCounts | src/stores/useGame.ts:60-61 | boards with the same mines have the same counts everywhere |
| Board.AdjacentMinesFrame | src/utils.ts:84-85 | a cell far from both changed positions keeps its neighbour count, so recounting the two blocks suffices |
| Board.ZeroCellHasSafeNeighbours | src/stores/useGame.ts:64-71 | on a correctly counted board, every on-board neighbour of a safe cell showing 0 is safe |
| Board.GridFlagsUpdate | src/stores/useGame.ts:14-22 | replacing one cell changes the flag count by the difference of the two cells' flags |
| Board.GridFlagsNone | src/stores/useGame.ts:14-22 | a board without flags has flag count 0 |
| Utils.UpdateNeighborMines | src/utils.ts:19-30 | every safe on-board cell of the block around (x, y) gets the count of its neighbours' mines on the board as it was; every other cell is unchanged |
| Utils.RecountRun | src/utils.ts:21-29 | one row of a row-major recount scan: the scanned safe cells of the region are recounted, the rest left alone |
| Utils.RecountCell | src/utils.ts:25-26 | one safe cell gets its recomputed count and nothing else changes |
| Utils.RecountStep | src/utils.ts:55-60 | passing one more scan position keeps "every passed safe cell of the region is recounted, every other cell as before" |
| Utils.RecountNextRow | src/utils.ts:55-56 | a finished row carries the recount relation to the start of the next row |
| Utils.GenerateBoard | src/utils.ts:32-64 | a fresh height x width board with nothing revealed or flagged; the mines lie exactly at the distinct draws up to the first prefix holding `mineCount` of them; there are `mineCount` mines; every safe cell's count is right; mine cells keep count 0 |
| Utils.LayMines | src/utils.ts:34-52 | an empty board with mines exactly at the draws up to the first prefix holding `mineCount` distinct positions, and nothing else set |
| Utils.MinePositionsOf | src/utils.ts:48-51 | a board holding mines exactly at an on-board set has that set as its mine positions |
| Utils.PlaceOne | src/utils.ts:48-51 | a draw adds a mine exactly when the cell has none, and the mine set becomes the old one plus the draw |
| Utils.PlaceMines | src/utils.ts:44-52 | the placement loop stops at the first prefix of draws holding `mineCount` distinct positions, and the mines are those positions |
| Utils.DrawnInBounds | src/utils.ts:46-47 | every drawn position lies on the board |
| Utils.RecountAll | src/utils.ts:55-61 | afterwards every safe cell's count is right; the mines, reveals and flags are unchanged, and mine cells are untouched |
| Utils.RecountedAll | src/utils.ts:55-61 | a finished whole-board recount scan gives a correctly counted board with the same mines and marks |
| Utils.FirstAccepted | src/utils.ts:74-77 | the index of the first draw that is neither a mine nor the clicked cell; every earlier draw is one of those two |
| Utils.HandleFirstClick | src/utils.ts:67-86 | a safe click leaves the board unchanged; a mine click moves that mine to the first acceptable draw and recounts both neighbourhoods, keeping reveals and flags |
| Utils.DrawFreePosition | src/utils.ts:73-77 | the rejection loop returns the first draw that is neither a mine nor the clicked cell |
| Utils.MoveMine | src/utils.ts:80-85 | clears the clicked cell's mine, sets the target's, then recounts both blocks: the result is the relocation of the mine |
| Utils.TwoUpdates | src/utils.ts:84-85 | the two block recounts after the move together give the relocation relation |
| Utils.RelocationKeepsCounts | src/utils.ts:80-85 | a relocation of a correctly counted board is correctly counted again |
| Utils.RelocationMovesOneMine | src/utils.ts:80-81 | a relocation removes the clicked position from the mine set and adds the target, so the number of mines is unchanged |
| SolverSpec.ScanNext | src/solver.ts:29-42 | one neighbour visit: skipping (0, 0), then counting a flagged neighbour, else recording a hidden one |
| SolverSpec.ScanPrefix | src/solver.ts:29-44 | the running list and count after k scan steps are the unknown and flagged filters over the neighbours visited so far |
| SolverSpec.UnknownAmongMembers | src/solver.ts:35-41 | a position is recorded as unknown exactly when it is listed, on the board, neither flagged nor revealed |
| SolverSpec.FlaggedUnknownBound | src/solver.ts:35-41 | each listed position counts as flagged or as unknown at most once, so the two counts together are at most the length of the list |
| SolverSpec.NeighborInfoBound | src/solver.ts:29-44 | a record names at most eight neighbours as flagged or unknown, together |
| SolverSpec.UnknownAmongDistinct | src/solver.ts:29-44 | the unknown neighbours of a cell are recorded without repetition |
| SolverSpec.MinesSplit | src/solver.ts:35-41 | the mines among positions split into flagged mines, revealed mines and mines among the unknown ones; flagged mines never exceed flags |
| SolverSpec.NoShownMines | src/solver.ts:62 | when revealed cells are safe, no revealed position holds a mine |
| SolverSpec.AllFlagsMines | src/solver.ts:37-38 | when every flag is on a mine, the flagged mines are the flags |
| SolverSpec.Accounting | src/solver.ts:24-54 | for a safe cell on a correctly counted board whose revealed cells are safe: count minus flags is at most the mines among its unknown neighbours, at most their number, and equal to the mines among them when flags are correct |
| SolverSpec.FullCountAllMines | src/solver.ts:78 | when the mines among positions equal their number, every one is an on-board mine |
| SolverSpec.ZeroCountNoMines | src/solver.ts:99 | when the mines among positions are zero, none on the board is a mine |
| SolverSpec.NumberedRowMembers | src/solver.ts:60-65 | one row of the scan records exactly the numbered cells of the row, each with its neighbour summary |
| SolverSpec.NumberedRowsMembers | src/solver.ts:59-66 | the rows scanned so far contribute exactly their numbered cells |
| SolverSpec.NumberedCellsExactly | src/solver.ts:56-69 | every record is the summary of a revealed safe cell with a positive count, and every such cell has its summary in the list |
| SolverSpec.RecordedUnknownsOnBoard | src/solver.ts:56-69 | every unknown neighbour named by a record is an on-board cell neither revealed nor flagged |
| SolverSpec.SameMembers | src/solver.ts:282-288 | for repetition-free lists, equal sizes plus inclusion is the same as having the same members |
| SolverSpec.AddNewMembers | src/solver.ts:79-83 | adding a record's neighbours to the set keeps the old members and adds exactly the neighbours passing the rule's filter, without repetition |
| SolverSpec.CollectDistinct | src/solver.ts:87-90 | the collected positions never repeat |
| SolverSpec.CollectMembers | src/solver.ts:76-85 | a position is collected exactly when it passes the rule's filter and some record to which the rule applies lists it |
| SolverSpec.CollectedFrom | src/solver.ts:94-111 | a collected position is unknown and comes from a numbered cell's record to which the rule applies |
| SolverSpec.DefiniteMinesAreMines | src/solver.ts:72-91 | on a correctly counted board whose revealed cells are safe, every position the mine rule reports is unknown and holds a mine, whatever the flags |
| SolverSpec.DefiniteSafeAreSafe | src/solver.ts:94-112 | when in addition every flag is on a mine, every position the safe rule reports is unknown and holds no mine |
| SolverSpec.HitsPositive | src/solver.ts:126-129 | a position is counted at least once exactly when it is among the neighbours |
| SolverSpec.HitSumBounds | src/solver.ts:126-129 | adding a share in (0, 1] once per occurrence stays between 0 and the number of occurrences, and is positive when it occurs |
| SolverSpec.ShareBounds | src/solver.ts:121-124 | a record whose remaining mines are positive and at most its unknown neighbours gives each a share in (0, 1] |
| SolverSpec.ProbSumBounds | src/solver.ts:120-134 | the summed probabilities of a position lie between 0 and the number of contributions, and are positive when it has one |
| SolverSpec.ProbCountPositive | src/solver.ts:126-133 | a position listed by a contributing record has a positive count |
| SolverSpec.CollectedHaveCounts | src/solver.ts:120-134 | every key of the probability map has a positive count |
| SolverSpec.UnseenHasNoProbability | src/solver.ts:120-134 | a position no contributing record lists has sum 0 and count 0 |
| SolverSpec.NumberedCellsConsistent | src/solver.ts:121-122 | on a correctly counted board whose revealed cells are safe, no record has more remaining mines than unknown neighbours |
| SolverSpec.AverageInRange | src/solver.ts:137-141 | a position with a contribution has an average in (0, 1] |
| SolverSpec.ProbabilitiesInRange | src/solver.ts:115-144 | every key of the probability map is unknown, has a contribution, and has an average probability in (0, 1] |
| SolverSpec.LowestIsMinimum | src/solver.ts:248-259 | the minimum found is at most 1 and at most every average, and is 1 or some key's average; the best positions are exactly the keys at the minimum; there is at least one whenever some average is at most 1 |
| SolverSpec.FirstUnknownFromIsFirst | src/solver.ts:268-277 | from a scan position, the result is empty exactly when no unknown cell follows, else the first following unknown cell in row-major order |
| SolverSpec.FirstUnknownIsFirst | src/solver.ts:268-279 | the fallback is empty exactly when no cell is unknown, else the first unknown cell in row-major order |
| SolverSpec.BandInside | src/solver.ts:172-185 | the band start is non-negative, start plus a scaled draw stays below the band end, and the end is at most the board size |
| SolverSpec.ScaledFloor | src/solver.ts:181-182 | the floor of a draw in [0, 1) times a positive span lies in [0, span) |
| SolverSpec.FirstClickOnBoard | src/solver.ts:172-185 | on a non-empty board the first-click position lies on the board and inside the inner band in both coordinates |
| SolverSpec.NextMoveSound | src/solver.ts:188-280 | once something is revealed, on a correctly counted board with safe revealed cells: the move never waits; it names only unknown cells; it flags exactly when the mine rule fires, and only mines; a safe-rule reveal with correct flags names only safe cells; it names something whenever an unknown cell is left |
| SolverSpec.NextMoveFirstClick | src/solver.ts:189-195 | on an untouched non-empty board the move reveals one cell, on the board and inside the inner band |
| Solver.MinesweeperSolver.constructor | src/solver.ts:18-22 | the solver holds the given board and dimensions |
| Solver.MinesweeperSolver.GetNeighborInfo | src/solver.ts:24-54 | the record equals the neighbour summary `NeighborInfo`: the cell, its unknown neighbours in scan order, its flagged neighbours and its count; flagged plus unknown neighbours are at most 8 |
| Solver.MinesweeperSolver.VisitNeighbor | src/solver.ts:31-42 | one visit advances the scan relation by one block position |
| Solver.MinesweeperSolver.GetAllNumberedCells | src/solver.ts:56-69 | the list equals `NumberedCells`, the summaries of the revealed safe cells with positive counts in row-major order |
| Solver.MinesweeperSolver.AddUnknowns | src/solver.ts:79-83 | adding a record's neighbours under the rule's filter gives `AddNew` |
| Solver.MinesweeperSolver.FindDefiniteMines | src/solver.ts:72-91 | the result equals `DefiniteMines`, which is sound by `DefiniteMinesAreMines` |
| Solver.MinesweeperSolver.FindDefiniteSafeCells | src/solver.ts:94-112 | the result equals `DefiniteSafe`, which is sound by `DefiniteSafeAreSafe` |
| Solver.MinesweeperSolver.TallyRecord | src/solver.ts:121-133 | folding one contributing record extends the keys and keeps sums and counts equal to the totals over the records seen |
| Solver.TallyStep | src/solver.ts:126-132 | adding the share of one neighbour keeps the running totals |
| Solver.TallyClose | src/solver.ts:126-133 | a finished record folds into the totals over the records seen |
| Solver.AverageKeys | src/solver.ts:137-141 | the second pass maps each key to its summed probability divided by its count, which is `Averages` |
| Solver.MinesweeperSolver.CalculateProbabilities | src/solver.ts:115-144 | the keys in insertion order are `ProbKeys` and each maps to its average contributed probability, which lies in (0, 1] by `ProbabilitiesInRange` |
| Solver.MinesweeperSolver.HasDefiniteMoves | src/solver.ts:147-157 | true exactly when either rule reports a position |
| Solver.MinesweeperSolver.IsFirstClick | src/solver.ts:160-169 | true exactly when no cell is revealed |
| Solver.MinesweeperSolver.GetFirstClickPosition | src/solver.ts:172-185 | the position is `FirstClickPos` of the two draws, on the board and inside the band by `FirstClickOnBoard` |
| Solver.MinesweeperSolver.BandPoint | src/solver.ts:174-182 | one coordinate is `BandAt`: the band start plus the floor of the draw times the band's width, inside the band by `BandInside` |
| Solver.MinesweeperSolver.LowestRisk | src/solver.ts:248-259 | the minimum and the best positions are those of `Lowest`, characterised by `LowestIsMinimum` |
| Solver.MinesweeperSolver.FirstUnknownCell | src/solver.ts:268-277 | the scan finds the first unknown cell in row-major order, or nothing |
| Solver.MinesweeperSolver.GetNextMove | src/solver.ts:188-280 | the move equals `NextMove`, whose properties are `NextMoveSound` and `NextMoveFirstClick` |
| Solver.MinesweeperSolver.AreSetsEqual | src/solver.ts:282-288 | for repetition-free lists, true exactly when both have the same members |
| Game.NewBoard | src/stores/useGame.ts:8 | a fresh generated board meets the store invariant for a new game and has nothing revealed or flagged; its mines are those laid by the draws (`DrawnLayout`); mine cells keep count 0 |
| Game.FreshBoardValid | src/stores/useGame.ts:8-12 | a generated board with no marks meets the store invariant with the game not over, not won and waiting for the first click |
| Game.Game.constructor | src/stores/useGame.ts:7-12 | a new game: a generated board, not over, not won, waiting for the first click, not auto-playing, nothing revealed or flagged; the mines are those laid by the draws; mine cells have count 0 |
| Game.Game.RemainingMines | src/stores/useGame.ts:14-22 | the counter is the mine count minus the number of flags on the board |
| Game.NoFlagsNoCount | src/stores/useGame.ts:14-22 | a board without flags has no flags to subtract |
| Game.Game.CheckWinCondition | src/stores/useGame.ts:25-38 | the game becomes won, and auto-play stops, exactly when every safe cell is revealed; otherwise nothing changes |
| Game.Game.ToggleFlag | src/stores/useGame.ts:81-85 | on a hidden cell of a game still on, the flag is switched; otherwise the board is unchanged; the invariant is kept |
| Game.ToggleTwice | src/stores/useGame.ts:81-85 | switching a flag twice gives the board back |
| Game.ToggleCountsFlag | src/stores/useGame.ts:81-85 | switching a flag changes the flag count by one, down when it was set |
| Game.ToggleKeepsBoard | src/stores/useGame.ts:81-85 | switching a flag keeps the mines and the correctness of the counts |
| Game.Game.RevealCell | src/stores/useGame.ts:41-78 | a click on a finished game or a flag changes nothing; otherwise the cell ends revealed; the game is lost exactly when it holds a mine, and won exactly when not lost and every safe cell is revealed; the first click never hits a mine and moves at most that one mine to the first acceptable draw; later clicks only reveal; only the clicked cell can be a revealed mine; every newly revealed empty safe cell has its neighbourhood revealed or flagged; the hidden set never grows; every newly revealed cell is reached by the flood from the click (`FloodBounded`) |
| Game.Game.PrepareFirstClick | src/stores/useGame.ts:47-50 | the first click leaves a safe clicked cell, the same marks, the mines of `FirstClickMines`, and the first-click flag off |
| Game.FirstClickFacts | src/utils.ts:67-86 | after the first-click relocation the clicked cell is safe, the counts are right, the marks and the number of mines are unchanged, and the new-game invariant carries over |
| Game.Game.Uncover | src/stores/useGame.ts:52-77 | after the first click: the cell ends revealed; lost exactly on a mine; won exactly when every safe cell is revealed; only reveals; uncovers no other mine; closes the flood; reveals only what the flood from the cell reaches; a mine or a number reveals that cell and nothing else |
| Game.Game.RevealMine | src/stores/useGame.ts:53-58 | clicking a mine reveals it, ends the game and stops auto-play; the new board is the old one with exactly that cell revealed |
| Game.Game.RevealAround | src/stores/useGame.ts:64-74 | the flood from an empty safe cell leaves every on-board neighbour revealed or flagged, reveals only safe cells, and keeps the game not lost; every cell it reveals is reached by a flood started next to the cell (`AroundBounded`) |
| Game.Game.RevealNeighbour | src/stores/useGame.ts:67-71 | one neighbour of the flood is revealed or skipped, keeping the flood relation and the bound `AroundBounded`, and advancing the scan by one offset |
| Game.Game.FloodClick | src/stores/useGame.ts:70 | the flood's recursive click on a safe neighbour: `RevealCell` without draws, keeping the invariant, revealing only safe cells within the flood from that neighbour, and leaving it revealed or flagged |
| Game.FloodNeighbourSafe | src/stores/useGame.ts:64-71 | every on-board neighbour of the empty cell the flood started from is safe |
| Game.FloodStep | src/stores/useGame.ts:69-71 | a recursive reveal of a safe neighbour extends the flood relation by one offset |
| Game.FloodSkip | src/stores/useGame.ts:69 | an off-board offset extends the flood relation without changes |
| Game.SettledStep | src/stores/useGame.ts:65-73 | a neighbour left revealed or flagged joins the settled part of the block |
| Game.SettledNextRow | src/stores/useGame.ts:65-66 | a finished row of offsets carries to the next row |
| Game.SettledAll | src/stores/useGame.ts:65-73 | a finished scan settles the whole block |
| Game.FloodClosedFrom | src/stores/useGame.ts:60-74 | revealing a cell and then settling its block closes the flood from the original board |
| Game.RevealOne | src/stores/useGame.ts:60-61 | revealing one hidden cell only reveals, removes exactly that cell from the hidden set, and closes the flood when its count is not 0 |
| Game.RevealOneValid | src/stores/useGame.ts:53-61 | revealing an unflagged cell keeps the store invariant, with the game over exactly when the cell is a mine |
| Game.OnlyRevealsKeeps | src/stores/useGame.ts:60-61 | revealing cells keeps the mines and the correctness of the counts, and shrinks the hidden set |
| Game.OnlyRevealsTrans | src/stores/useGame.ts:64-74 | two reveal-only steps compose to one |
| Game.SafeExceptTrans | src/stores/useGame.ts:64-74 | the "no other mine uncovered" relation composes across a nested reveal of a safe cell |
| Game.FloodClosedTrans | src/stores/useGame.ts:64-74 | the flood-closed relation composes across reveal-only steps |
| Game.SameMarksSwap | src/stores/useGame.ts:47-50 | the relations measured from the board before the mine move equal those measured after it, since the marks are the same |
| Game.PathTransfer | src/stores/useGame.ts:60-71 | a flood path stays a path when fewer cells were revealed beforehand and the flags, mines and counts it reads agree |
| Game.RevealOneBounded | src/stores/useGame.ts:53-61 | a click that reveals only the clicked cell stays within the flood from it |
| Game.PathFrom | src/stores/useGame.ts:64-71 | a path starting next to an empty hidden cell extends to a path from that cell |
| Game.UncoverBounded | src/stores/useGame.ts:60-74 | revealing an empty cell and then scanning around it reveals only what the flood from the cell reaches |
| Game.AroundStep | src/stores/useGame.ts:65-73 | a click on one neighbour keeps the scan within the floods started next to the cell |
| Game.BoundedSwap | src/stores/useGame.ts:47-50 | the flood bound measured from the board before the mine move holds, since the marks are the same |
| Game.PathRevealed | src/stores/useGame.ts:60-74 | on a closed flood whose first path cell is revealed, every cell of the path is revealed or flagged |
| Game.NumberRevealsOne | src/stores/useGame.ts:53-64 | a click on a mine or a number reveals no cell other than itself |
| Game.RevealedInBoth | src/stores/useGame.ts:60-74 | a cell one bounded outcome of a click reveals is revealed in every closed outcome of the same click |
| Game.FloodDetermined | src/stores/useGame.ts:41-78 | two outcomes of a click that only reveal, reveal the click, are closed, stay within the flood and show no revealed flag are the same board |
| Game.Game.ResetGame | src/stores/useGame.ts:88-94 | a new generated board meeting the new-game invariant, nothing revealed or flagged, not over, not won, waiting for the first click, auto-play off; the mines are those laid by the draws; mine cells have count 0 |

## Left out

- `autoPlay` and `stopAutoPlay` (`src/stores/useGame.ts:97-142`) are not part of this model: they run the solver on a timer, asynchronously. `isAutoPlaying` is kept as a plain field that the modelled actions clear as the source does.
- The Vue reactivity (`ref`, `computed`) is not modelled. `remainingMines` becomes a method that computes the value on demand.
- `Math.random` is not modelled; the draws are inputs. Board generation takes the sequence of drawn positions. The first-click relocation takes the sequence of candidate targets. The first-click position takes two reals; only its on-board proof assumes them in [0, 1).
- The rejection loops of `generateBoard` and `handleFirstClick` may not terminate when no acceptable draw comes. The model requires the draw sequence to contain enough distinct positions (`mineCount <= |Drawn(draws, |draws|)|`) or an acceptable target (`SomeAccepted`). Nested reveals during the flood pass no draws, since the first click has already happened then.
- Floating point is modelled as exact reals. The probability average uses `real` division. `Math.floor(n * 0.2)` is taken as `n / 5`, and `Math.ceil(n * 0.8)` as `(4 * n + 4) / 5`. Rounding of the binary products is not modelled.
- The string keys `"x,y"` of the solver's sets and maps are modelled as `Pos` values. A JavaScript `Set`/`Map` becomes a repetition-free `seq<Pos>` in insertion order, plus a `map<Pos, real>` for the averages.
- `src/types.ts` is not part of this model. `Cell` carries the four fields the core reads and writes.
- Inline code of the source is split into helper methods so each proof stays small. These are `Game.Game.Uncover`, `RevealMine`, `RevealAround`, `RevealNeighbour`, `FloodClick`, `PrepareFirstClick`, `Game.NewBoard`, `Utils.LayMines`, `PlaceMines`, `RecountAll`, `DrawFreePosition`, `MoveMine`, `Solver.AverageKeys`, `Solver.MinesweeperSolver.BandPoint` and `VisitNeighbor`. Their behaviour is the inline code's.
- Solver.MinesweeperSolver.GetNextMove: the rule loop runs once. `lastDefiniteMoves` starts empty, so a reported mine is flagged at once. The branch that would wait for pending rules is proved unreachable and kept only as a dead branch.

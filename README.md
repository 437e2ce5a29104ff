# 81-puzzle engine in Dafny

This project models the state engine of the 81-puzzle, a nine-by-nine sliding-tile puzzle. It is the 15-puzzle enlarged: 80 numbered tiles and one blank on a square grid. The board is a grid of integer labels in which `0` is the blank (`BOARD_SIZE = 9`, `js/main.js:3`). The engine functions are:

- `getTilePos`: a row-major search for a label;
- `createBoard`: builds the solved board;
- `getBlankPos`;
- `isValidMove`: the four-neighbour rule;
- `moveTile`: the in-place swap of a tile with the blank;
- `shuffleBoard`: a random walk of the blank;
- `isSolved`;
- `validateBoard`: a report of repeated and absent labels.

The model also covers `startGame` and `handleTileClick`, which wire those functions into a game with a move counter.

The model has five modules:

- `Grid` (`grid.dfy`) is the vocabulary on values. A board is a `seq<seq<int>>` of rows. The module defines:
  - cell positions;
  - `Find`, the first cell holding a label in row-major order;
  - `Flatten`, the row-major reading produced by `Array.prototype.flat`;
  - single-cell update and its effect on the multiset of labels.
- `Rules` (`rules.dfy`) defines, as functions on values:
  - `ValidMove`, the move rule;
  - `Slide` and `Moved`, the two writes of a move;
  - `Neighbors`, `StepTarget`, `Step` and `Shuffled`, the shuffle walk.
- `Checks` (`checks.dfy`) defines `Solved` and `Validate` with its `Report`. It also holds the lemmas that characterise both.
- `Engine` (`engine.dfy`) holds the source's functions as methods over a mutable `array2<int>` board:
  - the loops are written the way the source writes them;
  - `moveTile` and `shuffleBoard` write the board in place;
  - each method is proved against the value definitions through `View`, the array read as rows.
- `Session` (`session.dfy`) is a class `Game` with the board and the move counter. Its invariant is that the board always holds the solved board's labels in some order.

The board size is a parameter `N >= 1` of the engine, and `Session.BoardSize` fixes it at 9 as the source does.

Randomness is modelled by `Math.random` results passed in by the caller as a sequence of reals in `[0, 1)`, one per shuffle iteration. The neighbour index is `Math.floor(roll * count)`, as at `js/main.js:86`, but the product is taken in exact reals (see `Rules.Pick` under "## Left out").

## Model

| member | source | states |
|---|---|---|
| Grid.Find | js/main.js:18-25 | the answer is None exactly when the label occurs nowhere; otherwise it is an in-bounds cell holding the label, with no earlier cell in row-major order holding it |
| Grid.FindSpec | js/main.js:18-25 | the answer is unique: a cell is the first holding t exactly when Find returns it |
| Grid.DistinctFind | js/main.js:18-25 | on a board of distinct labels, searching for the label of any cell returns that very cell |
| Grid.FlattenAt | js/main.js:96 | cell (r, c) of a board of width w is entry r*w + c of the row-major reading |
| Grid.FlattenIndex | js/main.js:96 | every index of the row-major reading comes from some cell (r, c), with r*w + c equal to that index |
| Grid.OccursFlat | js/main.js:96-107 | a label occurs on the board exactly when it occurs in the flattened board |
| Grid.PutMultiset | js/main.js:62-63 | overwriting one cell removes its old label from the multiset of labels and adds the new one |
| Grid.Flatten | js/main.js:96 | the one-level row-major reading of .flat(); characterised by Grid.FlattenLength, Grid.FlattenAt and Grid.FlattenIndex |
| Rules.ValidMove | js/main.js:42-53 | the move rule as a value: the first blank and the first cell holding the tile are both found and adjacent; characterised by Rules.ValidMoveNecessary (missing blank or tile, or tile 0, refuses) and Rules.ValidMoveOnDistinct (the if-and-only-if on distinct boards) |
| Rules.Adjacent | js/main.js:52 | the adjacency test is exactly Manhattan distance 1, so there are no diagonal moves and no wrap-around |
| Rules.ValidMoveNecessary | js/main.js:42-53 | isValidMove is false when the blank or the tile is missing, and false for the blank itself; when it is true, the first blank cell and the first cell holding the tile are adjacent |
| Rules.ValidMoveOnDistinct | js/main.js:42-53 | on a board of distinct labels, a move is valid if and only if some blank cell and some cell holding the tile are 4-neighbours |
| Rules.Slide | js/main.js:58-63 | the two writes of a move as a value; the result is a square board of the same size, and Rules.SlideSpec gives its cells and its multiset |
| Rules.Moved | js/main.js:58-63 | the board after moveTile succeeds, a square board of the same size; Rules.MoveEffect gives its cells and its multiset, Rules.MoveInvolution its inverse |
| Rules.SlideSpec | js/main.js:62-63 | the two writes exchange the blank with the tile's label, leave every other cell unchanged and keep the multiset of labels |
| Rules.MoveEffect | js/main.js:55-65 | after a valid move, the blank's old cell holds the tile and the tile's old cell holds 0; every other cell is unchanged and the multiset of labels is kept |
| Rules.MoveInvolution | js/main.js:55-65 | on a board of distinct labels, a move keeps the labels distinct and can be made again with the same tile; making it again restores the board |
| Rules.Neighbors | js/main.js:75-82 | the neighbour list as a value, one candidate per direction in order; characterised by Rules.NeighborsSpec |
| Rules.NeighborsSpec | js/main.js:69-82 | the neighbour list holds exactly the in-bounds 4-neighbours of the blank, each once; there are at least two when N >= 2 and none when N = 1 |
| Rules.Pick | js/main.js:86 | Math.floor(random * length) is a valid index into the neighbour list |
| Rules.StepTarget | js/main.js:72-86 | the chosen cell is an in-bounds 4-neighbour of the first blank; there is none only on a 1-by-1 board |
| Rules.Step | js/main.js:72-91 | one iteration keeps the board square, keeps a blank on it and keeps its multiset of labels |
| Rules.StepIsLegalMove | js/main.js:76-91 | on a board of distinct labels, each shuffle step is a move that isValidMove accepts, and it yields exactly the board moveTile would |
| Rules.Shuffled | js/main.js:68-93 | any number of iterations keeps the shape, the blank and the multiset of labels |
| Rules.ShuffledDistinct | js/main.js:68-93 | shuffling a board of distinct labels leaves them distinct |
| Checks.SolvedOrder | js/main.js:28-31 | the canonical reading has N*N entries: entry i is i+1 for i < N*N-1, and the last entry is 0 |
| Checks.Solved | js/main.js:95-103 | the board reads 1, ..., N*N-1, 0; characterised by Checks.SolvedReading (entry by entry) and Checks.SolvedCells (cell by cell) |
| Checks.SolvedReading | js/main.js:95-103 | a board is solved exactly when entry i of its reading is i+1 for every i < N*N-1 and its last entry is 0 |
| Checks.SolvedCells | js/main.js:95-103 | a board is solved exactly when cell (r, c) holds r*N + c + 1 for every cell except the bottom-right one, which holds 0 |
| Checks.SolvedBlank | js/main.js:95-103 | a solved board has its blank in the bottom-right cell |
| Checks.MissingBelow | js/main.js:119-124 | the missing list holds exactly the i below the bound that do not occur, strictly ascending |
| Checks.Elems | js/main.js:107 | the Set of the flattened board; its size is bounded and compared with N*N by Checks.ElemsSize |
| Checks.Tally | js/main.js:109-113 | the seen dictionary once every entry is counted; built step by step as Checks.TallySnoc states |
| Checks.Duplicates | js/main.js:114-118 | the labels counted above 1, each with its count; characterised by Checks.ReportSpec and built step by step as Checks.DuplicatesAmongSnoc states |
| Checks.ElemsSize | js/main.js:107-108 | the Set of the flattened board has at most N*N labels, and exactly N*N exactly when no label repeats |
| Checks.TallySnoc | js/main.js:111-113 | counting one more entry v raises v's count by one (from 0 when absent) and changes no other count |
| Checks.DuplicatesAmongSnoc | js/main.js:114-118 | looking at one more label adds it to the duplicates, with its count, exactly when its count is above 1 |
| Checks.Validate | js/main.js:105-128 | validateBoard as a value; characterised by Checks.ValidateNone (null exactly on distinct labels) and Checks.ReportSpec (the content of the report) |
| Checks.ValidateNone | js/main.js:105-128 | validateBoard returns null if and only if all N*N cells hold distinct labels |
| Checks.ReportSpec | js/main.js:108-125 | the duplicates are exactly the labels with count above 1, each with its count; the missing list is exactly the i in 0..N*N-1 that no cell holds, ascending; neither part is empty |
| Checks.ValidateInRange | js/main.js:107-108 | on a board whose labels all lie in 0..N*N-1, validateBoard returns null exactly when every label 0..N*N-1 is present |
| Checks.ValidateIgnoresRange | js/main.js:107-108 | only the count of distinct labels is checked: a 1-by-1 board holding 5 has no blank, yet it passes |
| Checks.PermutationIsValid | js/main.js:107-108 | every rearrangement of the solved board's labels passes validateBoard and has distinct labels |
| Engine.GetTilePos | js/main.js:18-25 | the nested scan returns Find: None exactly when the label is absent, otherwise the first cell in row-major order that holds it |
| Engine.GetBlankPos | js/main.js:38-40 | the first blank cell, or None when there is no blank |
| Engine.IsValidMove | js/main.js:42-53 | the result is ValidMove of the current board |
| Engine.WriteSlide | js/main.js:62-63 | the two array writes turn the board into Slide of the old board |
| Engine.MoveTile | js/main.js:55-66 | the result is ValidMove of the old board; a refused move leaves every cell unchanged; an accepted one leaves Moved of the old board |
| Engine.NeighborList | js/main.js:69-82 | the loop over the four directions builds Neighbors, which holds exactly the in-bounds 4-neighbours |
| Engine.ShuffleStep | js/main.js:72-91 | one iteration turns the board into Step of the old board with that roll |
| Engine.ShuffleBoard | js/main.js:68-93 | after moves iterations the board is Shuffled of the old board on the rolls used; with moves <= 0 it is unchanged |
| Engine.IsSolved | js/main.js:95-103 | the early-exit scan answers Solved of the board |
| Engine.CountSeen | js/main.js:109-113 | the seen dictionary maps each label on the board, and only those, to its number of occurrences |
| Engine.CollectDuplicates | js/main.js:114-118 | the duplicates collected are exactly the labels with count above 1, with their counts |
| Engine.CollectMissing | js/main.js:119-124 | the missing list is exactly the absent labels below N*N, ascending |
| Engine.ValidateBoard | js/main.js:105-128 | the report is Validate of the board: None when the N*N labels are distinct, otherwise the duplicates and the missing list |
| Engine.SolvedLabels | js/main.js:28-31 | the push loop builds 1, ..., N*N-1, 0 |
| Engine.CutRows | js/main.js:33-34 | splice(0, N) repeated on N*N entries cuts N rows of N which read back as the original list |
| Engine.CreateBoard | js/main.js:27-36 | a fresh N-by-N board whose row-major reading is 1, 2, ..., N*N-1, 0, so it is solved |
| Session.Game.Start | js/main.js:223-228 | after a 1000-move shuffle of the created board, the game invariant holds, the counter is 0 and validateBoard returns null |
| Session.Game.HandleTileClick | js/main.js:204-210 | the counter goes up by one exactly when moveTile succeeds; the board is then Moved, otherwise unchanged; a win is reported exactly when a successful move leaves the board solved; the invariant is kept |

## Left out

- DOM presentation is left out: tile elements, pixel positions, messages, CSS classes, event listeners and timers. This is UI output (`js/main.js:5, 8-13, 130-202, 207-219, 229-253`). Only the state each handler changes is modelled.
- Rules.Pick: the product `roll * count` is taken in exact reals, not in double precision. At isolated rolls the double product rounds up to the next integer, and the model's index is then one lower than the source's. The rolls stand for arbitrary choices, so every neighbour stays reachable and no proved property depends on this.
- The fairness of `Math.random`, and whether the scramble is solvable (parity), are not modelled. The caller supplies the random values as a sequence `rolls`. The iteration that finds no neighbour (only possible on a 1-by-1 board) draws no random number in the source, but in the model it still consumes its entry of `rolls`.
- The text of the error message built by validateBoard (`js/main.js:116, 125`) is not modelled. The report is modelled as structured data: a map from label to count, and an ascending list.
- The `for..in` order in which the duplicates are enumerated is left out; it only affects the text of the message. `Engine.CollectDuplicates` visits the labels by a pass over the flattened board instead, and its result, a map, does not depend on order.
- The stray identifier after the `if`/`else` of handleTileClick (`js/main.js:220`) is left out. It throws a ReferenceError after every click, but only once the counter and the board have been updated, so it changes none of the modelled state.
- The source's board is an array of row arrays, and the model's is a two-dimensional array. The rows therefore cannot alias one another, and no row can have a different length.
- The loops of the source run to the constant `BOARD_SIZE`. The engine runs them to the board's own dimension, which is the same for every board the program builds.
- `Engine.ShuffleBoard` requires a blank on the board when `moves > 0`. The source destructures the result of getBlankPos (`js/main.js:73`) and throws without one.
- `Engine.CreateBoard` requires `N >= 1`. With `N = 0`, the splice loop at `js/main.js:34` never empties the list.
- Session.Game.Start does not state which board the shuffle produces, only its invariant (a rearrangement of the solved labels). `Engine.ShuffleBoard` states the exact board.

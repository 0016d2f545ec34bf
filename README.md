# Tic-tac-toe against a minimax computer player: a Dafny model

The game is a single page. The human plays "O" and always moves first. The
computer plays "X". It answers every human move that neither fills the board
nor completes a human line with the cell chosen by a full-depth minimax
search. After a move that fills the board the game is a tie. After a human
line on a board that is not full, the page raises an error (see below).
This project models the game logic of `src/js/script.js` and proves
properties of it in three modules.

- `Board` (`board.dfy`): the board encoding and the pure queries over it.
  - The board is nine cells in row-major order. An empty cell holds its own
    position as a number; an occupied cell holds a player's mark.
  - `WinCombos` is the eight winning lines, in the source's order.
  - `CheckWin` collects the positions a player has marked, then returns the
    first winning line they cover (`Win(index, player)`), or nothing.
  - `EmptySquares` keeps the numbers still on the board.
  - `Place` is the one-cell write of a move.
- `Search` (`search.dfy`): the search.
  - `Value` is its meaning as a pure function. The terminal tests come in a
    fixed order: a human line scores -10, a computer line +10, a full board 0.
  - On any other board, every empty cell is tried in ascending order and the
    other player's reply is scored. The first strictly best candidate is
    kept: the greatest score for the computer, the least for the human,
    measured against the ±10000 starting sentinels.
  - `Minimax` is the search as the program runs it. It marks a cell of the
    live board array, recurses, and writes the cell's number back. It is
    proved to return `Value` of the board and to leave the board as it
    found it.
- `Controller` (`controller.dfy`): the running game, as class `Game`.
  - The fields are the live `board` array and a flag `over`.
  - `over` stands for the page's click listeners. It is set where the page
    removes them (a win, a tie) and cleared where a new game adds them.
  - The methods are `StartGame`, `Turn`, `CheckTie`, `BestSpot` and
    `TurnClick`. `Game.Valid` requires that while the game is running, the
    board is `Live`: both players have the same number of marks, nobody has
    a line and a cell is free. Every click keeps this.

When the human completes a line on a board that is not full, the code still
asks `bestSpot` for a cell. `minimax` then returns a move without an index,
and `turn(undefined, "X")` writes the computer's mark into a property named
`undefined` on the board array. The element lookup that follows returns
`null`, so setting its text raises a `TypeError` that ends the click handler.
`TurnClick` models this path as it happens to the cells: they stay as the
human's move left them, and the out-parameter `threw` reports the error.

## Model

| member | source | states |
|---|---|---|
| Board.NewBoard | src/js/script.js:21 | the new board holds the numbers 0 to 8, each in its own cell, so every cell is empty |
| Board.UnmarkedBoard | src/js/script.js:21 | a board without marks gives a player no plays and no complete line |
| Board.Other | src/js/script.js:147-153 | the player to reply is always the other player |
| Board.PlaysAreMarks | src/js/script.js:49 | the reduce collects exactly the positions holding the player's mark, in ascending order |
| Board.FirstCovered | src/js/script.js:52-57 | the scan of the winning lines returns the first line the plays cover, with that player, and nothing only when no line from the starting entry on is covered |
| Board.CoversIffLine | src/js/script.js:53 | the `indexOf` test on the plays holds for a line exactly when every cell of the line holds the player's mark |
| Board.CheckWinReportsFirstLine | src/js/script.js:47-60 | checkWin is null exactly when the player has no complete line; otherwise it names the player and the first complete line of `winCombos` |
| Board.Plays | src/js/script.js:49 | the reduce over the board; its meaning, exactly the player's marked positions in ascending order, is stated by `Board.PlaysAreMarks` |
| Board.Covers | src/js/script.js:53 | the `every`/`indexOf` test of one line against the plays; `Board.CoversIffLine` states that it holds exactly when the line's cells all hold the mark |
| Board.CheckWin | src/js/script.js:47-60 | a report names the player asked about and one of the eight lines; `Board.CheckWinReportsFirstLine` states that it is the first complete line, and absent exactly when there is none |
| Board.EmptySquares | src/js/script.js:105-107 | the filter keeps at most as many entries as the board has cells; `Board.EmptySquaresArePositions` states that they are exactly the empty positions, ascending |
| Board.IsFull | src/js/script.js:89 | `emptySquares().length == 0`, the full-board test of checkTie and of minimax's third terminal test; `Controller.Game.CheckTie` states that it holds exactly when no cell holds a number |
| Board.FirstEmptyFirst | src/js/script.js:105-107 | the first cell holding a number is the first entry of emptySquares |
| Board.EmptySquaresArePositions | src/js/script.js:105-107 | on a board whose empty cells hold their own numbers, emptySquares lists exactly the empty positions, in ascending order and within the board |
| Board.CellsAccountedFor | src/js/script.js:49 | empty squares plus the human's plays plus the computer's plays count every cell once |
| Board.Place | src/js/script.js:40 | the move writes the mark into that cell only, keeps empty cells holding their own numbers, and removes one empty square when the cell was empty |
| Board.PlaceShrinks | src/js/script.js:145 | marking an empty cell removes exactly one empty square; marking an occupied one removes none |
| Board.PlaceAddsPlay | src/js/script.js:40 | marking an empty cell adds one play for the mover and none for the other player |
| Board.PlaceKeepsOtherLines | src/js/script.js:40 | a player's mark never completes a line for the other player |
| Search.Scan | src/js/script.js:160-177 | the selection finds nothing only when no score beats the sentinel; otherwise it returns a move's score, no move beats it, and it strictly beats every earlier move (the first best) |
| Search.Value | src/js/script.js:129-180 | every score the search gives is -10, 0 or 10 |
| Search.Candidates | src/js/script.js:140-158 | the search records one move per available spot |
| Search.CandidateAt | src/js/script.js:142-158 | the k-th recorded move is the k-th available spot, scored by the other player's reply after the mover marks it |
| Search.ValueOfTerminal | src/js/script.js:132-138 | a human line scores -10, else a computer line 10, else a full board 0; none of them names a cell, and exactly the boards that are not terminal get a cell |
| Search.ValueTakesEmptyCell | src/js/script.js:144 | any cell the search names is an empty cell of the board |
| Search.ValueIsFirstBest | src/js/script.js:160-179 | on a board that is not terminal, the result is the k-th candidate: no candidate scores better for the mover, every earlier one scores strictly worse, and its index is the k-th empty square |
| Search.ValueIsCandidate | src/js/script.js:179 | on a board that is not terminal, the result is the k-th empty square with the score recorded for it |
| Search.LosingChoiceIsFirst | src/js/script.js:161-168 | when the computer's best score is -10, the strict `>` scan from -10000 keeps the first move: the computer takes the first empty square |
| Search.ImmediateWin | src/js/script.js:129-180 | when no line is complete and an empty cell completes a computer line, with no earlier empty cell already scoring 10, the computer picks that cell with score 10 |
| Search.TopRowOpen | src/js/script.js:4-13 | on the board X X _ / O O _ / _ _ _ no line is complete, and an X on cell 2 completes the first winning line |
| Search.TakesTopRow | src/js/script.js:129-180 | on the board X X _ / O O _ / _ _ _ the computer takes cell 2 with score 10 |
| Search.HumanTakesWin | src/js/script.js:169-176 | with no line yet and an empty cell that completes a human line, the human to move scores -10 |
| Search.LineSurvives | src/js/script.js:145 | a line that marking c completes stays complete when another empty cell is marked first |
| Search.OtherCellLoses | src/js/script.js:142-158 | when marking c completes a human line and no single computer mark completes a computer line, any other empty cell scores -10 for the computer, as the human replies at c |
| Search.NonBlockLoses | src/js/script.js:142-158 | under the same conditions, every candidate of the computer at a cell other than c scores -10 |
| Search.BlockOrLose | src/js/script.js:160-179 | with no line yet, when an empty cell c completes a human line and no single computer mark completes a computer line, the computer takes c, or else its move scores -10 and it takes the first empty square (the strict scan keeps the first of equal scores) |
| Search.ForcedBlock | src/js/script.js:129-180 | when the threatened cell c of `BlockOrLose` is also the first empty cell, the computer takes c |
| Search.TopRowThreat | src/js/script.js:4-13 | on the board O O _ / X _ _ / _ _ _ no line is complete, an O on cell 2 completes the first line, and no single X completes a line |
| Search.TakesBlock | src/js/script.js:129-180 | on the board O O _ / X _ _ / _ _ _ the computer blocks at cell 2 |
| Search.SelectBest | src/js/script.js:160-177 | the two selection loops with their sentinels return the position the first-best scan finds |
| Search.Minimax | src/js/script.js:129-180 | the in-place search returns `Value` of the board and leaves every cell as it was |
| Search.BestOf | src/js/script.js:140-179 | on a board that passed the terminal tests, recording then selecting yields `Value` and leaves the board unchanged |
| Search.RecordMoves | src/js/script.js:142-158 | the search loop records exactly the candidate moves, in order, and restores the board |
| Search.TryCell | src/js/script.js:143-157 | one pass marks the spot, records the spot's own number and the reply's score, and writes the number back |
| Controller.NewBoardIsLive | src/js/script.js:18-29 | a new game is running: no marks, no line, free cells |
| Controller.RoundKeepsLive | src/js/script.js:31-37 | after a human move that neither fills the board nor wins, and a computer move that does not win, the game is still running with equal mark counts |
| Controller.Game.constructor | src/js/script.js:16 | the page load starts a game: a new board, listeners in place |
| Controller.Game.StartGame | src/js/script.js:18-29 | a new board array of numbered cells, listeners in place, game running |
| Controller.Game.Turn | src/js/script.js:39-45 | the mark is written into the cell whatever it held; the result is checkWin's report, absent exactly when the mover has no line, and a win ends the game |
| Controller.Game.CheckTie | src/js/script.js:88-99 | a tie exactly when no cell is empty, and a tie ends the game |
| Controller.Game.BestSpot | src/js/script.js:80-82 | the cell is `Value`'s index for the computer on the live board, absent exactly on terminal boards, always an empty cell, and the board is left unchanged |
| Controller.Game.TurnClick | src/js/script.js:31-37 | nothing changes once the game is over or on an occupied cell; otherwise the human's mark is written, and then one of three things happens: a full board ends the game as a tie; a human line without a full board ends it and raises the error; otherwise the computer marks the empty cell `Value` names and the game ends exactly when that completes its line; the running-game invariant holds after every click |

## Left out

- Everything the page draws is not modelled: cell texts, the colours of a winning line or a tie, and the end-of-game banner with its text. Nor is a human line on a full board, after which the page shows "Tie Game!" over "You win!" (text only).
- Adding and removing the click listeners is modelled only by the flag `over`. A click while `over` holds is the handler not running at all.
- Cell ids on the page are strings such as `"4"`. The model takes the cell position as an integer from 0 to 8, since every clickable cell has such an id and indexing the board with the string reaches the same cell.
- On the error path of `TurnClick`, the computer's mark written into the array property named `undefined` is not modelled, as it is not a cell. The `TypeError` itself is modelled only as the flag `threw`.
- emptySquares reads the global board rather than the board minimax was given. It is modelled over the board being searched; `bestSpot` passes the global board, so in the program both are the same array.
- Search.Value: its own ensures states only the score range. What the search computes is stated by `ValueOfTerminal`, `CandidateAt` and `ValueIsFirstBest`, which unfold it.
- These facts about the whole game tree are not proved: the empty board scores 0, and the computer never loses. Each needs an exhaustive evaluation of the game tree. Proved instead are an immediate win (`ImmediateWin`, `TakesTopRow`) and the blocking rule the search follows (`BlockOrLose`, `ForcedBlock`, `TakesBlock`): the computer blocks a single threat unless every move scores -10. An unconditional "always blocks" is not stated because it does not hold of the search. Against two open human lines every candidate scores -10, and the search takes the first empty cell, whether or not it blocks.

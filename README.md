# Tic-tac-toe game logic in Dafny

This project models the in-memory logic of an iOS tic-tac-toe game and proves
properties of it. The game has two modes: two humans on one device (duo), or one
human against an automated opponent (computer). The model has three parts, one per
source file:

- `GameModel.dfy` (module `GameModel`) holds the data model. `Turn` has the raw
  values `"O"`/`"X"`. The board's cells are the closed type `Cell = Empty | X | O`,
  which maps one-to-one onto the strings `""`, `"X"`, `"O"` the source stores. It
  also has the `GameMode` enumeration, the `GameState` record with its defaulted
  initialiser, and `CountEmpty`, the quantity that the state caches as `freeCells`.
- `AIPlayer.dfy` (module `AIPlayer`) holds the minimax engine. The source's
  `evaluate`, `minimax` and `findBestMove` are loops. Each one is a method
  (`Evaluate`, `Minimax`, `FindBestMove`) proved equal to a recursive
  specification function (`Evaluation`, `MinimaxValue`, `BestMove`) that follows
  the loop step by step. The lemmas then say what those functions mean:
  - the first decisive line decides the score;
  - the score bounds;
  - the `Int.min`/`Int.max` start values never escape;
  - the returned cell is legal;
  - ties go to the lowest index.
- `Presenter.dfy` (module `Presenter`) holds the turn logic. It is the class
  `MainScreenPresenter`, holding the `GameState` and a ghost log of the
  notifications sent to the view (`SetTurn(tag, turn)`, `Finish(result)`,
  `Reset`). Each method is proved against the pure function `SetTurnStep` /
  `FreshState` / `Judge`. The computer-mode branch of `setTurn` and the
  automated player's answer inside it are methods of their own
  (`ComputerTurn`, `AnswerMove`), which `SetTurn` calls at the same points.
  The lemmas about those functions state:
  - what a move does in each mode;
  - the invariant `freeCells == CountEmpty(board)` (with nine cells, and the
    human to move in computer mode).

The model keeps the source's quirks, and lemmas state each of them:
- `checkForWin` looks for the mark opposite to `currentTurn`.
- In computer mode the automated player picks the cell that is best for Cross and
  writes `"O"` there.
- So in computer mode a line of X is never announced (`ComputerNeverAnnouncesCross`;
  `CrossRowIgnoredExample` shows a game where Cross completes a row and Nought is
  then announced the winner).
- A result found by the first check of `setTurn` is announced a second time by the
  final check (`ComputerTerminalReportedTwice`).

Two behaviours of the code are kept as written:
- An out-of-range cell makes the source trap. It is not silently ignored, so
  `SetTurn` requires `0 <= cell < 9`.
- The first check of a computer-mode move looks for `"O"`, not for the mark that
  has just been played.

## Model

| member | source | states |
|---|---|---|
| GameModel.MarkOf | tic-tac-toe/tic-tac-toe/MainScreenModel.swift:10-13 | the cell a turn writes is non-empty and its string is the turn's raw value |
| GameModel.RawValuesDistinct | tic-tac-toe/tic-tac-toe/MainScreenModel.swift:10-13 | the raw values "O" and "X" differ from each other and from the empty marker "" |
| GameModel.TwoCases | tic-tac-toe/tic-tac-toe/MainScreenModel.swift:10-18 | Turn has exactly the cases Nought and Cross, GameMode exactly computer and duo |
| GameModel.ParseCell | tic-tac-toe/tic-tac-toe/MainScreenModel.swift:22 | a string denotes a cell exactly when it is "", "X" or "O", and the cell's string is that string |
| GameModel.ParseCellString | tic-tac-toe/tic-tac-toe/MainScreenModel.swift:22 | reading back a cell's string gives the cell: the cell type and the three strings correspond one to one |
| GameModel.MakeGameState | tic-tac-toe/tic-tac-toe/MainScreenModel.swift:26-36 | the initialiser stores each argument unchanged in its field |
| GameModel.DefaultGameState | tic-tac-toe/tic-tac-toe/MainScreenModel.swift:26-31 | the default state is Cross to move, an empty board array, 0 free cells, computer mode |
| GameModel.CountEmptyBounds | tic-tac-toe/tic-tac-toe/MainScreenModel.swift:23 | the free-cell count is at most the board length and is 0 exactly when no cell is empty |
| GameModel.CountEmptyPlace | tic-tac-toe/tic-tac-toe/MainScreenPresenter.swift:66-69 | writing a mark into an empty cell lowers the free-cell count by exactly one |
| GameModel.CountEmptyAllEmpty | tic-tac-toe/tic-tac-toe/MainScreenPresenter.swift:31-35 | a board of n empty cells has n free cells |
| GameModel.Opponent | tic-tac-toe/tic-tac-toe/MainScreenPresenter.swift:49 | the opposite side differs from the given one |
| AIPlayer.EvaluateFromScan | tic-tac-toe/tic-tac-toe/AIPlayer.swift:18-27 | the scan from line k is 10 (or -10) exactly when the first line from k on with three equal non-empty cells holds X (or O), and 0 exactly when no such line exists |
| AIPlayer.EvaluationSpec | tic-tac-toe/tic-tac-toe/AIPlayer.swift:11-28 | evaluate is 10 or -10 by the mark of the first decided line in the listed order, 0 exactly when no line is all X or all O, and never anything else |
| AIPlayer.EvaluationOneSided | tic-tac-toe/tic-tac-toe/AIPlayer.swift:11-28 | a board with lines of only one mark scores for that mark; a score of 10 (-10) implies a line of X (O) |
| AIPlayer.Evaluate | tic-tac-toe/tic-tac-toe/AIPlayer.swift:11-28 | the loop with early return computes the evaluation |
| AIPlayer.MovesLeftCount | tic-tac-toe/tic-tac-toe/AIPlayer.swift:30-32 | isMovesLeft holds exactly when some cell is empty, i.e. when the free-cell count is positive |
| AIPlayer.MinimaxTerminal | tic-tac-toe/tic-tac-toe/AIPlayer.swift:35-47 | a board with lines of X only scores 10 - depth, one with lines of O only -10 + depth, a full board with no line 0, before any recursion |
| AIPlayer.BestScoreFromSpec | tic-tac-toe/tic-tac-toe/AIPlayer.swift:49-73 | the loop's accumulator ends as its start value or as a child's score, and it is at least or at most every child's score from the mover's side |
| AIPlayer.MinimaxBounds | tic-tac-toe/tic-tac-toe/AIPlayer.swift:34-74 | from depth d >= 0 with d plus the free cells at most 10, the score lies in [-10 + d, 10 - d] |
| AIPlayer.MinimaxRecursiveCase | tic-tac-toe/tic-tac-toe/AIPlayer.swift:49-73 | in the recursive case the score is neither Int.min nor Int.max; it is a child's score and the maximum (X placed, minimiser next) or minimum (O placed, maximiser next) over all empty cells |
| AIPlayer.Minimax | tic-tac-toe/tic-tac-toe/AIPlayer.swift:34-74 | the two loops over copies of the board compute the minimax score |
| AIPlayer.MoveScoreBounds | tic-tac-toe/tic-tac-toe/AIPlayer.swift:82-84 | the score of X placed in an empty cell, searched at depth 0, lies in [-10, 10] |
| AIPlayer.BestSoFarStep | tic-tac-toe/tic-tac-toe/AIPlayer.swift:80-89 | one turn of the findBestMove loop keeps "the best move so far is the first maximum among the cells seen" |
| AIPlayer.BestMoveFromSpec | tic-tac-toe/tic-tac-toe/AIPlayer.swift:80-92 | the rest of the findBestMove loop ends with -1 on a full board or with the first maximum among empty cells |
| AIPlayer.BestMoveLegal | tic-tac-toe/tic-tac-toe/AIPlayer.swift:76-93 | findBestMove returns -1 exactly when no cell is empty, and otherwise an index in 0..8 of an empty cell |
| AIPlayer.BestMoveFirstMaximum | tic-tac-toe/tic-tac-toe/AIPlayer.swift:80-90 | the returned cell has the greatest score among empty cells and every empty cell before it scores strictly less |
| AIPlayer.TopRowExample | tic-tac-toe/tic-tac-toe/AIPlayer.swift:80-90 | on X X _ / _ _ _ / _ _ _ findBestMove returns 2 |
| AIPlayer.AntiDiagonalExample | tic-tac-toe/tic-tac-toe/AIPlayer.swift:80-90 | on X O X / O X O / _ _ O findBestMove returns 6, the cell completing Cross's diagonal |
| AIPlayer.FindBestMove | tic-tac-toe/tic-tac-toe/AIPlayer.swift:76-93 | the loop computes the best move, which is -1 exactly on a full board and an empty cell otherwise |
| Presenter.Report | tic-tac-toe/tic-tac-toe/MainScreenPresenter.swift:41-62 | checkForWin sends at most one notification |
| Presenter.FreshStateSpec | tic-tac-toe/tic-tac-toe/MainScreenPresenter.swift:28-38 | resetBoard leaves nine empty cells, freeCells 9, Cross to move, the given mode, and a consistent state |
| Presenter.OccupiedCellIgnored | tic-tac-toe/tic-tac-toe/MainScreenPresenter.swift:65 | a tap on an occupied cell changes neither the state nor the notifications |
| Presenter.DuoMove | tic-tac-toe/tic-tac-toe/MainScreenPresenter.swift:80-93 | in duo mode the cell becomes the mover's raw value and no other cell changes, freeCells drops by one, the turn flips, and a line of the mover's mark or else a full board is announced |
| Presenter.ComputerMove | tic-tac-toe/tic-tac-toe/MainScreenPresenter.swift:69-79 | when the first check passes, "O" goes into findBestMove's cell, an empty cell other than the human's; freeCells drops by two; Cross moves next; only a line of O or a full board is announced |
| Presenter.ComputerTerminalReportedTwice | tic-tac-toe/tic-tac-toe/MainScreenPresenter.swift:72-93 | a line of O or a full board after the human's move in computer mode is announced twice and the automated player does not move |
| Presenter.ComputerNeverAnnouncesCross | tic-tac-toe/tic-tac-toe/MainScreenPresenter.swift:49 | in computer mode both checks run with Cross to move, so a win for Cross is never announced |
| Presenter.CrossRowIgnoredExample | tic-tac-toe/tic-tac-toe/MainScreenPresenter.swift:69-93 | Cross completes the top row unannounced, the automated player takes cell 5 and Nought is announced the winner |
| Presenter.TopRowScores | tic-tac-toe/tic-tac-toe/AIPlayer.swift:80-84 | on X X X / O O _ / _ _ _ every empty cell scores 10 for Cross |
| Presenter.TopRowPlayedOn | tic-tac-toe/tic-tac-toe/AIPlayer.swift:80-90 | on X X X / O O _ / _ _ _ findBestMove returns 5, the first empty cell |
| Presenter.ReportAnnounced | tic-tac-toe/tic-tac-toe/MainScreenPresenter.swift:41-62 | with freeCells equal to the number of empty cells, checkForWin announces a line of the side opposite to the current turn, else a draw exactly on a full board |
| Presenter.SetTurnKeepsConsistent | tic-tac-toe/tic-tac-toe/MainScreenPresenter.swift:64-95 | every setTurn keeps nine cells, freeCells equal to the number of empty cells, and Cross to move in computer mode |
| Presenter.MainScreenPresenter.constructor | tic-tac-toe/tic-tac-toe/MainScreenPresenter.swift:22-26 | init starts a new game in computer mode and sends one reset notification |
| Presenter.MainScreenPresenter.ResetBoard | tic-tac-toe/tic-tac-toe/MainScreenPresenter.swift:28-38 | the state becomes the fresh state with the mode kept |
| Presenter.MainScreenPresenter.CheckForWin | tic-tac-toe/tic-tac-toe/MainScreenPresenter.swift:41-62 | announces a win for the side opposite to the current turn if one of the eight lines holds its mark, else a draw exactly when freeCells is 0, and returns true exactly when it announced |
| Presenter.MainScreenPresenter.SetTurn | tic-tac-toe/tic-tac-toe/MainScreenPresenter.swift:64-95 | the state and the notifications become those of the setTurn step, and the invariant is kept |
| Presenter.MainScreenPresenter.ComputerTurn | tic-tac-toe/tic-tac-toe/MainScreenPresenter.swift:68-79 | the computer-mode branch leaves the state of the setTurn step, and its notifications followed by those of the final check are the step's |
| Presenter.MainScreenPresenter.AnswerMove | tic-tac-toe/tic-tac-toe/MainScreenPresenter.swift:73-78 | "O" goes into the empty cell findBestMove picks, Cross moves next, one cell fewer is free, and the view is told of the move |
| Presenter.MainScreenPresenter.NewGame | tic-tac-toe/tic-tac-toe/MainScreenPresenter.swift:97-100 | the fresh state with the mode kept, plus one reset notification |
| Presenter.MainScreenPresenter.ChangeGameMode | tic-tac-toe/tic-tac-toe/MainScreenPresenter.swift:102-105 | a fresh board whose mode is the new one, plus one reset notification |

## Left out

- The view controller and the scene delegate are not modelled. They hold the UIKit layout, menus, alerts and label text.
- The weak optional view is replaced by a ghost log that is always present. The model does not cover a missing view or object lifetimes.
- The Russian result texts are left out. A result is `Win(side)` or `Draw`.
- The raw values of `GameMode` ("pc", "person.2.fill") are left out. They are icon names for the screen.
- An out-of-range cell index makes the source trap. `SetTurn` and `SetTurnStep` require `0 <= cell < 9` instead.
- The engine's functions require a board of exactly nine cells. The presenter never passes any other board.
- Swift's 64-bit overflow of `depth` and `freeCells` is not modelled (integers are unbounded). `Int.min` and `Int.max` are kept as the exact 64-bit constants.
- Claims about optimal play over a whole game (perfect self-play ending in a draw, choices that need the full search tree) are not stated. The lemmas are about structure: bounds, legality, tie-breaking and the invariant.
- MinimaxBounds: requires `depth + CountEmpty(b) <= 10` as well as `depth >= 0`, because for `depth > 10` the bound `|score| <= 10 - depth` is false.
- Presenter.MainScreenPresenter.SetTurn: requires the presenter's invariant (nine cells, consistent free-cell count, Cross to move in computer mode). The constructor and every method establish it.

/** The turn logic of the main screen: the presenter owns the game state,
    applies a tap on a cell, lets the automated player answer in computer
    mode, decides wins and draws, and tells the view what happened. The view
    is replaced by a ghost log of the notifications the presenter sends it. */
module Presenter {
  import opened GameModel
  import opened AIPlayer

  /** The result shown when a game ends. */
  datatype Outcome = Win(winner: Turn) | Draw

  /** A notification to the view. */
  datatype Event = SetTurn(tag: int, turn: Turn) | Finish(result: Outcome) | Reset

  /** The state after a call together with the notifications it sent. */
  datatype Step = Step(state: GameState, events: seq<Event>)

  /** The state resetBoard installs: nine empty cells, Cross to move. */
  function FreshState(mode: GameMode): GameState
  {
    MakeGameState(Cross, seq(9, _ => Empty), 9, mode)
  }

  /** The invariant every presenter state keeps: nine cells, the cached
      counter equal to the number of empty cells, and in computer mode the
      human (Cross) to move. */
  predicate Consistent(s: GameState)
  {
    |s.board| == 9 && s.freeCells == CountEmpty(s.board) &&
    (s.gameMode == Computer ==> s.currentTurn == Cross)
  }

  /** The decision of checkForWin: a line of the mark opposite to the current
      turn wins for that side; otherwise no free cell is a draw. */
  function Judge(s: GameState): Option<Outcome>
    requires |s.board| == 9
  {
    var side := Opponent(s.currentTurn);
    if WinFor(s.board, MarkOf(side)) then Some(Win(side))
    else if s.freeCells == 0 then Some(Draw)
    else None
  }

  /** The notifications checkForWin sends: at most one. */
  function Report(s: GameState): (r: seq<Event>)
    requires |s.board| == 9
    ensures |r| <= 1
  {
    match Judge(s)
    case Some(o) => [Finish(o)]
    case None => []
  }

  /** What setTurn(cell) does to the state, and what it tells the view. */
  function SetTurnStep(s: GameState, cell: int): Step
    requires Consistent(s) && 0 <= cell < 9
  {
    if s.board[cell] != Empty then Step(s, [])
    else
      var t := s.currentTurn;
      var s1 := s.(freeCells := s.freeCells - 1, board := s.board[cell := MarkOf(t)]);
      match s.gameMode
      case Duo =>
        var s2 := s1.(currentTurn := Opponent(t));
        Step(s2, [SetTurn(cell, t)] + Report(s2))
      case Computer =>
        if Judge(s1).Some? then
          Step(s1, [SetTurn(cell, t)] + Report(s1) + Report(s1))
        else
          CountEmptyPlace(s.board, cell, MarkOf(t));
          MovesLeftCount(s1.board);
          BestMoveLegal(s1.board);
          var aiMove := BestMove(s1.board);
          var s2 := s1.(currentTurn := Cross, board := s1.board[aiMove := MarkOf(Nought)],
                        freeCells := s1.freeCells - 1);
          Step(s2, [SetTurn(cell, t), SetTurn(aiMove, Nought)] + Report(s2))
  }

  /** The notifications checkForWin sends, spelled out for the mark it looks for. */
  function Announced(b: seq<Cell>, side: Turn): seq<Event>
    requires |b| == 9
  {
    if WinFor(b, MarkOf(side)) then [Finish(Win(side))]
    else if CountEmpty(b) == 0 then [Finish(Draw)]
    else []
  }

  /** With the counter in step with the board, the notifications of
      checkForWin are those of Announced for the side it looks for. */
  lemma ReportAnnounced(s: GameState)
    requires |s.board| == 9 && s.freeCells == CountEmpty(s.board)
    ensures Report(s) == Announced(s.board, Opponent(s.currentTurn))
  {
  }

  /** resetBoard leaves nine empty cells, nine free cells, Cross to move and
      the given mode: a consistent state. */
  lemma FreshStateSpec(mode: GameMode)
    ensures var s := FreshState(mode);
      Consistent(s) && |s.board| == 9 && (forall i :: 0 <= i < 9 ==> s.board[i] == Empty) &&
      s.freeCells == 9 && s.currentTurn == Cross && s.gameMode == mode
  {
    CountEmptyAllEmpty(9);
  }

  /** A tap on an occupied cell changes nothing and tells the view nothing. */
  lemma OccupiedCellIgnored(s: GameState, cell: int)
    requires Consistent(s) && 0 <= cell < 9 && s.board[cell] != Empty
    ensures SetTurnStep(s, cell) == Step(s, [])
  {
  }

  /** In duo mode a move writes the mover's mark into the cell and nowhere
      else, frees one cell fewer, passes the turn, and then reports a line of
      the mover's mark, or a draw when the board is full. */
  lemma DuoMove(s: GameState, cell: int)
    requires Consistent(s) && 0 <= cell < 9 && s.gameMode == Duo && s.board[cell] == Empty
    ensures var t := s.currentTurn;
      var r := SetTurnStep(s, cell);
      r.state.board == s.board[cell := MarkOf(t)] &&
      CellString(r.state.board[cell]) == RawValue(t) &&
      r.state.freeCells == s.freeCells - 1 &&
      r.state.currentTurn == Opponent(t) && r.state.gameMode == Duo &&
      r.events == [SetTurn(cell, t)] + Announced(r.state.board, t)
  {
    var t := s.currentTurn;
    CountEmptyPlace(s.board, cell, MarkOf(t));
    assert Opponent(Opponent(t)) == t;
    ReportAnnounced(SetTurnStep(s, cell).state);
  }

  /** In computer mode, when the human's move does not end the game, the
      automated player writes "O" into the cell findBestMove picks for Cross,
      an empty cell other than the human's; two cells fewer are free, Cross
      moves next, and only a line of O or a full board is reported. */
  lemma ComputerMove(s: GameState, cell: int)
    requires Consistent(s) && 0 <= cell < 9 && s.gameMode == Computer && s.board[cell] == Empty
    requires !WinFor(s.board[cell := X], O) && s.freeCells > 1
    ensures var b1 := s.board[cell := X];
      var m := BestMove(b1);
      var r := SetTurnStep(s, cell);
      0 <= m < 9 && m != cell && s.board[m] == Empty &&
      r.state.board == b1[m := O] &&
      r.state.freeCells == s.freeCells - 2 &&
      r.state.currentTurn == Cross && r.state.gameMode == Computer &&
      r.events == [SetTurn(cell, Cross), SetTurn(m, Nought)] + Announced(r.state.board, Nought)
  {
    var b1 := s.board[cell := X];
    CountEmptyPlace(s.board, cell, X);
    MovesLeftCount(b1);
    BestMoveLegal(b1);
    var m := BestMove(b1);
    CountEmptyPlace(b1, m, O);
    ReportAnnounced(SetTurnStep(s, cell).state);
  }

  /** In computer mode, when the human's move ends the game (a line of O, or
      no free cell), the two checks of setTurn both report it: the result is
      announced twice and the automated player does not move. */
  lemma ComputerTerminalReportedTwice(s: GameState, cell: int)
    requires Consistent(s) && 0 <= cell < 9 && s.gameMode == Computer && s.board[cell] == Empty
    requires WinFor(s.board[cell := X], O) || s.freeCells == 1
    ensures var o := if WinFor(s.board[cell := X], O) then Win(Nought) else Draw;
      SetTurnStep(s, cell) ==
        Step(s.(board := s.board[cell := X], freeCells := s.freeCells - 1),
             [SetTurn(cell, Cross), Finish(o), Finish(o)])
  {
  }

  /** In computer mode both checks look for O only: a win for Cross is never
      announced. */
  lemma ComputerNeverAnnouncesCross(s: GameState, cell: int)
    requires Consistent(s) && 0 <= cell < 9 && s.gameMode == Computer
    ensures Finish(Win(Cross)) !in SetTurnStep(s, cell).events
  {
  }

  /** Cross completes the top row, the game goes on, the automated player
      takes cell 5, completing the middle row for O, and Nought is announced
      the winner. */
  lemma CrossRowIgnoredExample(s: GameState)
    requires s == GameState(Cross, [X, X, Empty, O, O, Empty, Empty, Empty, Empty], 5, Computer)
    ensures Consistent(s)
    ensures SetTurnStep(s, 2) ==
      Step(GameState(Cross, [X, X, X, O, O, O, Empty, Empty, Empty], 3, Computer),
           [SetTurn(2, Cross), SetTurn(5, Nought), Finish(Win(Nought))])
  {
    CrossRowStart(s);
    var b1 := s.board[2 := X];
    TopRowOpenForO(b1);
    TopRowPlayedOn(b1);
    MiddleRowForO(b1[5 := O]);
    ComputerMove(s, 2);
  }

  /** The starting position of the example is consistent and cell 2 is free. */
  lemma CrossRowStart(s: GameState)
    requires s == GameState(Cross, [X, X, Empty, O, O, Empty, Empty, Empty, Empty], 5, Computer)
    ensures Consistent(s) && s.board[2] == Empty && s.freeCells == 5
    ensures s.board[2 := X] == [X, X, X, O, O, Empty, Empty, Empty, Empty]
    ensures s.board[2 := X][5 := O] == [X, X, X, O, O, O, Empty, Empty, Empty]
  {
    CrossRowBoards(s.board);
  }

  /** The boards of the example: five free cells, Cross's move into cell 2
      completes the top row, O's answer into cell 5 the middle row. */
  lemma CrossRowBoards(b: seq<Cell>)
    requires b == [X, X, Empty, O, O, Empty, Empty, Empty, Empty]
    ensures CountEmpty(b) == 5
    ensures b[2 := X] == [X, X, X, O, O, Empty, Empty, Empty, Empty]
    ensures b[2 := X][5 := O] == [X, X, X, O, O, O, Empty, Empty, Empty]
  {
    assert CountEmpty([X, X, Empty, O, O, Empty, Empty, Empty, Empty]) == 5;
  }

  /** After Cross's move the middle row still lacks an O, so the game goes on. */
  lemma TopRowOpenForO(b: seq<Cell>)
    requires b == [X, X, X, O, O, Empty, Empty, Empty, Empty]
    ensures !WinFor(b, O)
  {
    forall k | 0 <= k < 8 ensures !LineOf(b, k, O) {
    }
  }

  /** Once O takes cell 5 the middle row is O's, and checkForWin announces it. */
  lemma MiddleRowForO(b: seq<Cell>)
    requires b == [X, X, X, O, O, O, Empty, Empty, Empty]
    ensures Announced(b, Nought) == [Finish(Win(Nought))]
  {
    assert LineOf(b, 1, O);
  }

  /** On X X X / O O _ / _ _ _ the top row is already Cross's, so every
      empty cell scores 10 for Cross. */
  lemma TopRowScores(b: seq<Cell>)
    requires b == [X, X, X, O, O, Empty, Empty, Empty, Empty]
    ensures forall i :: 0 <= i < 9 && b[i] == Empty ==> MoveScore(b, i) == 10
  {
    forall i | 0 <= i < 9 && b[i] == Empty ensures MoveScore(b, i) == 10 {
      assert LineOf(b[i := X], 0, X);
      EvaluationSpec(b[i := X]);
    }
  }

  /** findBestMove on X X X / O O _ / _ _ _ : all candidates tie, so the
      first empty cell, 5, is chosen. */
  lemma TopRowPlayedOn(b: seq<Cell>)
    requires b == [X, X, X, O, O, Empty, Empty, Empty, Empty]
    ensures BestMove(b) == 5
  {
    TopRowScores(b);
    BestMoveFirstMaximum(b);
  }

  /** Every call of setTurn keeps the presenter's invariant. */
  lemma SetTurnKeepsConsistent(s: GameState, cell: int)
    requires Consistent(s) && 0 <= cell < 9
    ensures Consistent(SetTurnStep(s, cell).state)
  {
    if s.board[cell] == Empty {
      var t := s.currentTurn;
      var b1 := s.board[cell := MarkOf(t)];
      CountEmptyPlace(s.board, cell, MarkOf(t));
      if s.gameMode == Computer {
        var s1 := s.(freeCells := s.freeCells - 1, board := b1);
        if Judge(s1).None? {
          MovesLeftCount(b1);
          BestMoveLegal(b1);
          CountEmptyPlace(b1, BestMove(b1), O);
        }
      }
    }
  }

  /** The presenter: its game state and the notifications it has sent. */
  class MainScreenPresenter {
    var state: GameState
    ghost var events: seq<Event>

    ghost predicate Valid()
      reads this
    {
      Consistent(state)
    }

    /** init: the default state, then newGame. */
    constructor ()
      ensures Valid() && state == FreshState(Computer) && events == [Reset]
    {
      state := MakeGameState();
      events := [];
      new;
      NewGame();
    }

    method ResetBoard()
      modifies this`state
      ensures state == FreshState(old(state).gameMode)
    {
      state := MakeGameState(Cross, seq(9, _ => Empty), 9, state.gameMode);
    }

    /** checkForWin: scan the lines for the mark opposite to the current turn,
        then test for a draw; report at most once and say whether it did. */
    method CheckForWin() returns (finished: bool)
      requires |state.board| == 9
      modifies this`events
      ensures events == old(events) + Report(state)
      ensures finished <==> Judge(state).Some?
    {
      var mark := if state.currentTurn == Cross then O else X;
      for k := 0 to |WinningPositions|
        invariant forall j :: 0 <= j < k ==> !LineOf(state.board, j, mark)
      {
        var (p, q, r) := WinningPositions[k];
        if [state.board[p], state.board[q], state.board[r]] == [mark, mark, mark] {
          assert LineOf(state.board, k, mark);
          events := events + [Finish(Win(if state.currentTurn == Cross then Nought else Cross))];
          return true;
        }
      }
      if state.freeCells == 0 {
        events := events + [Finish(Draw)];
        return true;
      }
      return false;
    }

    /** setTurn: the human taps a cell. */
    method SetTurn(cell: int)
      requires Valid() && 0 <= cell < 9
      modifies this
      ensures Valid()
      ensures state == SetTurnStep(old(state), cell).state
      ensures events == old(events) + SetTurnStep(old(state), cell).events
    {
      if state.board[cell] == Empty {
        ghost var s0 := state;
        ghost var e0 := events;
        state := state.(freeCells := state.freeCells - 1);
        match state.gameMode {
          case Computer =>
            ComputerTurn(cell, s0);
          case Duo =>
            match state.currentTurn {
              case Cross =>
                state := state.(board := state.board[cell := MarkOf(state.currentTurn)]);
                events := events + [Event.SetTurn(cell, state.currentTurn)];
                state := state.(currentTurn := Nought);
              case Nought =>
                state := state.(board := state.board[cell := MarkOf(state.currentTurn)]);
                events := events + [Event.SetTurn(cell, state.currentTurn)];
                state := state.(currentTurn := Cross);
            }
            assert state == SetTurnStep(s0, cell).state;
            assert events == e0 + [Event.SetTurn(cell, s0.currentTurn)];
            assert SetTurnStep(s0, cell).events == [Event.SetTurn(cell, s0.currentTurn)] + Report(state);
        }
        SetTurnKeepsConsistent(s0, cell);
        assert events + Report(state) == e0 + SetTurnStep(s0, cell).events;
        var _ := CheckForWin();
      }
    }

    /** The computer-mode branch of setTurn, entered with the counter already
        decremented: the human's mark, a first check, and unless that check
        ended the game the automated player's answer. The final check of
        setTurn then completes the notifications of SetTurnStep. */
    method ComputerTurn(cell: int, ghost s0: GameState)
      requires Consistent(s0) && 0 <= cell < 9 && s0.gameMode == Computer && s0.board[cell] == Empty
      requires state == s0.(freeCells := s0.freeCells - 1)
      modifies this
      ensures state == SetTurnStep(s0, cell).state && Consistent(state)
      ensures events + Report(state) == old(events) + SetTurnStep(s0, cell).events
    {
      ghost var e0 := events;
      state := state.(board := state.board[cell := MarkOf(state.currentTurn)]);
      events := events + [Event.SetTurn(cell, state.currentTurn)];
      var finished := CheckForWin();
      if !finished {
        assert events == e0 + [Event.SetTurn(cell, Cross)];
        CountEmptyPlace(s0.board, cell, MarkOf(s0.currentTurn));
        MovesLeftCount(state.board);
        ghost var b1 := state.board;
        AnswerMove();
        assert state == SetTurnStep(s0, cell).state;
        assert events == e0 + [Event.SetTurn(cell, Cross), Event.SetTurn(BestMove(b1), Nought)];
        assert SetTurnStep(s0, cell).events ==
          [Event.SetTurn(cell, Cross), Event.SetTurn(BestMove(b1), Nought)] + Report(state);
      } else {
        assert state == SetTurnStep(s0, cell).state;
        assert events == e0 + [Event.SetTurn(cell, Cross)] + Report(state);
        assert SetTurnStep(s0, cell).events ==
          [Event.SetTurn(cell, Cross)] + Report(state) + Report(state);
      }
      SetTurnKeepsConsistent(s0, cell);
    }

    /** The automated player's answer in computer mode: Nought takes the
        cell findBestMove picks, which is empty, then Cross moves again and
        one cell fewer is free. */
    method AnswerMove()
      requires |state.board| == 9 && IsMovesLeft(state.board)
      modifies this
      ensures var m := BestMove(old(state).board);
        0 <= m < 9 && old(state).board[m] == Empty &&
        state == old(state).(currentTurn := Cross, board := old(state).board[m := O],
                             freeCells := old(state).freeCells - 1) &&
        events == old(events) + [Event.SetTurn(m, Nought)]
    {
      BestMoveLegal(state.board);
      state := state.(currentTurn := Nought);
      var aiMove := FindBestMove(state.board);
      state := state.(board := state.board[aiMove := MarkOf(state.currentTurn)]);
      events := events + [Event.SetTurn(aiMove, state.currentTurn)];
      state := state.(currentTurn := Cross);
      state := state.(freeCells := state.freeCells - 1);
    }

    method NewGame()
      modifies this
      ensures Valid()
      ensures state == FreshState(old(state).gameMode)
      ensures events == old(events) + [Reset]
    {
      ResetBoard();
      events := events + [Reset];
      FreshStateSpec(state.gameMode);
    }

    /** changeGameMode: a new game, then the mode is switched. */
    method ChangeGameMode(mode: GameMode)
      modifies this
      ensures Valid()
      ensures state == FreshState(mode)
      ensures events == old(events) + [Reset]
    {
      NewGame();
      state := state.(gameMode := mode);
      FreshStateSpec(mode);
    }
  }
}

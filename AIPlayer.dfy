/** The automated opponent: a static evaluation of a board, a full-depth
    minimax search and the choice of the best cell for Cross. Every operation
    is a loop method proved equal to a recursive specification function; the
    properties of the search are lemmas about those functions. */
module AIPlayer {
  import opened GameModel

  /** An index of the 3x3 board, row-major. */
  type Pos = p: nat | p < 9

  /** The eight winning lines in the order the engine scans them: three rows,
      three columns, two diagonals. */
  const WinningPositions: seq<(Pos, Pos, Pos)> :=
    [(0, 1, 2), (3, 4, 5), (6, 7, 8),
     (0, 3, 6), (1, 4, 7), (2, 5, 8),
     (0, 4, 8), (2, 4, 6)]

  /** The initial values of the accumulators, Swift's 64-bit Int.min and Int.max. */
  const IntMin: int := -0x8000_0000_0000_0000
  const IntMax: int := 0x7FFF_FFFF_FFFF_FFFF

  /** Line k holds three copies of c. */
  predicate LineOf(b: seq<Cell>, k: nat, c: Cell)
    requires |b| == 9 && k < 8
  {
    var (p, q, r) := WinningPositions[k];
    b[p] == c && b[q] == c && b[r] == c
  }

  /** Some line holds three copies of c. */
  predicate WinFor(b: seq<Cell>, c: Cell)
    requires |b| == 9
  {
    exists k :: 0 <= k < 8 && LineOf(b, k, c)
  }

  /** Line k has three equal non-empty cells. */
  predicate Decided(b: seq<Cell>, k: nat)
    requires |b| == 9 && k < 8
  {
    LineOf(b, k, X) || LineOf(b, k, O)
  }

  // ---------------------------------------------------------------- evaluate

  /** The scan of evaluate, from line k on. */
  function EvaluateFrom(b: seq<Cell>, k: nat): int
    requires |b| == 9 && k <= 8
    decreases 8 - k
  {
    if k == 8 then 0
    else
      var (p, q, r) := WinningPositions[k];
      if b[p] == b[q] && b[p] == b[r] then
        if b[p] == X then 10
        else if b[p] == O then -10
        else EvaluateFrom(b, k + 1)
      else EvaluateFrom(b, k + 1)
  }

  /** The static score of a board. */
  function Evaluation(b: seq<Cell>): int
    requires |b| == 9
  {
    EvaluateFrom(b, 0)
  }

  lemma {:induction false} EvaluateFromScan(b: seq<Cell>, k: nat)
    requires |b| == 9 && k <= 8
    ensures EvaluateFrom(b, k) == 10 <==>
      exists j :: k <= j < 8 && LineOf(b, j, X) && forall i :: k <= i < j ==> !Decided(b, i)
    ensures EvaluateFrom(b, k) == -10 <==>
      exists j :: k <= j < 8 && LineOf(b, j, O) && forall i :: k <= i < j ==> !Decided(b, i)
    ensures EvaluateFrom(b, k) == 0 <==> forall j :: k <= j < 8 ==> !Decided(b, j)
    ensures EvaluateFrom(b, k) in {-10, 0, 10}
    decreases 8 - k
  {
    if k < 8 {
      EvaluateFromScan(b, k + 1);
      if LineOf(b, k, X) {
        assert EvaluateFrom(b, k) == 10;
        FirstLine(b, k, X, O);
      } else if LineOf(b, k, O) {
        assert EvaluateFrom(b, k) == -10;
        FirstLine(b, k, O, X);
      } else {
        assert !Decided(b, k);
        assert EvaluateFrom(b, k) == EvaluateFrom(b, k + 1);
        ScanShift(b, k, X);
        ScanShift(b, k, O);
      }
    }
  }

  /** A decided line k is the first decisive line from k on, for its own mark only. */
  lemma FirstLine(b: seq<Cell>, k: nat, c: Cell, d: Cell)
    requires |b| == 9 && k < 8 && LineOf(b, k, c) && c != Empty && d != Empty && c != d
    ensures exists j :: k <= j < 8 && LineOf(b, j, c) && forall i :: k <= i < j ==> !Decided(b, i)
    ensures !exists j :: k <= j < 8 && LineOf(b, j, d) && forall i :: k <= i < j ==> !Decided(b, i)
    ensures !forall j :: k <= j < 8 ==> !Decided(b, j)
  {
    assert Decided(b, k);
  }

  /** When line k is undecided, a first decisive line from k on is one from k + 1 on. */
  lemma ScanShift(b: seq<Cell>, k: nat, c: Cell)
    requires |b| == 9 && k < 8 && !Decided(b, k) && c != Empty
    ensures (exists j :: k <= j < 8 && LineOf(b, j, c) && forall i :: k <= i < j ==> !Decided(b, i)) <==>
            (exists j :: k + 1 <= j < 8 && LineOf(b, j, c) && forall i :: k + 1 <= i < j ==> !Decided(b, i))
  {
  }

  /** evaluate is 10 or -10 according to the mark of the first decided line in
      the scan order, and 0 exactly when no line is all X or all O. */
  lemma EvaluationSpec(b: seq<Cell>)
    requires |b| == 9
    ensures Evaluation(b) == 10 <==>
      exists j :: 0 <= j < 8 && LineOf(b, j, X) && forall i :: 0 <= i < j ==> !Decided(b, i)
    ensures Evaluation(b) == -10 <==>
      exists j :: 0 <= j < 8 && LineOf(b, j, O) && forall i :: 0 <= i < j ==> !Decided(b, i)
    ensures Evaluation(b) == 0 <==> !WinFor(b, X) && !WinFor(b, O)
    ensures Evaluation(b) in {-10, 0, 10}
  {
    EvaluateFromScan(b, 0);
  }

  lemma {:induction false} EvaluateFromOneSided(b: seq<Cell>, k: nat, c: Cell, d: Cell)
    requires |b| == 9 && k <= 8 && c != Empty && d != Empty && c != d
    requires exists j :: k <= j < 8 && LineOf(b, j, c)
    requires forall j :: k <= j < 8 ==> !LineOf(b, j, d)
    ensures EvaluateFrom(b, k) == if c == X then 10 else -10
    decreases 8 - k
  {
    assert c == X || c == O;
    assert !LineOf(b, k, d);
    if !LineOf(b, k, c) {
      assert !Decided(b, k);
      assert EvaluateFrom(b, k) == EvaluateFrom(b, k + 1);
      var j :| k <= j < 8 && LineOf(b, j, c);
      assert j != k;
      EvaluateFromOneSided(b, k + 1, c, d);
    }
  }

  /** A board with lines of one mark only is scored for that mark, and a
      non-zero score names a mark that has a line. */
  lemma EvaluationOneSided(b: seq<Cell>)
    requires |b| == 9
    ensures WinFor(b, X) && !WinFor(b, O) ==> Evaluation(b) == 10
    ensures WinFor(b, O) && !WinFor(b, X) ==> Evaluation(b) == -10
    ensures Evaluation(b) == 10 ==> WinFor(b, X)
    ensures Evaluation(b) == -10 ==> WinFor(b, O)
  {
    EvaluationSpec(b);
    if WinFor(b, X) && !WinFor(b, O) {
      EvaluateFromOneSided(b, 0, X, O);
    }
    if WinFor(b, O) && !WinFor(b, X) {
      EvaluateFromOneSided(b, 0, O, X);
    }
  }

  /** evaluate: the scan over the winning lines with an early return. */
  method Evaluate(b: seq<Cell>) returns (score: int)
    requires |b| == 9
    ensures score == Evaluation(b)
  {
    for k := 0 to |WinningPositions|
      invariant EvaluateFrom(b, k) == Evaluation(b)
    {
      var (p, q, r) := WinningPositions[k];
      if b[p] == b[q] && b[p] == b[r] {
        if b[p] == X {
          return 10;
        } else if b[p] == O {
          return -10;
        }
      }
    }
    return 0;
  }

  /** isMovesLeft: some cell is still empty. */
  predicate IsMovesLeft(b: seq<Cell>)
  {
    Empty in b
  }

  lemma MovesLeftCount(b: seq<Cell>)
    ensures IsMovesLeft(b) <==> CountEmpty(b) > 0
    ensures IsMovesLeft(b) <==> exists i :: 0 <= i < |b| && b[i] == Empty
  {
  }

  // ----------------------------------------------------------------- minimax

  /** The mark a ply places: X when maximising, O when minimising. */
  function Mover(isMaximizing: bool): (c: Cell)
    ensures c != Empty
  {
    if isMaximizing then X else O
  }

  function Max(a: int, b: int): int { if a >= b then a else b }
  function Min(a: int, b: int): int { if a <= b then a else b }

  /** The score of minimax on a board. */
  function MinimaxValue(b: seq<Cell>, depth: int, isMaximizing: bool): int
    requires |b| == 9
    decreases CountEmpty(b), 1
  {
    var score := Evaluation(b);
    if score == 10 then score - depth
    else if score == -10 then score + depth
    else if !IsMovesLeft(b) then 0
    else if isMaximizing then BestScoreFrom(b, depth, true, 0, IntMin)
    else BestScoreFrom(b, depth, false, 0, IntMax)
  }

  /** The loop of minimax over cells i..8, with the best score so far. */
  function BestScoreFrom(b: seq<Cell>, depth: int, isMaximizing: bool, i: nat, best: int): int
    requires |b| == 9 && i <= 9
    decreases CountEmpty(b), 0, 9 - i
  {
    if i == 9 then best
    else if b[i] == Empty then
      CountEmptyPlace(b, i, Mover(isMaximizing));
      var s := ChildValue(b, depth, isMaximizing, i);
      BestScoreFrom(b, depth, isMaximizing, i + 1, if isMaximizing then Max(best, s) else Min(best, s))
    else BestScoreFrom(b, depth, isMaximizing, i + 1, best)
  }

  /** The score of the child where the mover takes empty cell i. */
  function ChildValue(b: seq<Cell>, depth: int, isMaximizing: bool, i: nat): int
    requires |b| == 9 && i < 9 && b[i] == Empty
    decreases CountEmpty(b), 0, 0
  {
    CountEmptyPlace(b, i, Mover(isMaximizing));
    MinimaxValue(b[i := Mover(isMaximizing)], depth + 1, !isMaximizing)
  }

  /** The loop's accumulator ends as its start value or as the score of a
      child, and it bounds every child's score from the mover's side. */
  lemma {:induction false} BestScoreFromSpec(b: seq<Cell>, depth: int, isMaximizing: bool, i: nat, best: int)
    requires |b| == 9 && i <= 9
    ensures var r := BestScoreFrom(b, depth, isMaximizing, i, best);
      (r == best || exists j :: i <= j < 9 && b[j] == Empty && r == ChildValue(b, depth, isMaximizing, j)) &&
      (isMaximizing ==> r >= best && forall j :: i <= j < 9 && b[j] == Empty ==> r >= ChildValue(b, depth, isMaximizing, j)) &&
      (!isMaximizing ==> r <= best && forall j :: i <= j < 9 && b[j] == Empty ==> r <= ChildValue(b, depth, isMaximizing, j))
    decreases 9 - i
  {
    if i < 9 {
      if b[i] == Empty {
        var s := ChildValue(b, depth, isMaximizing, i);
        BestScoreFromSpec(b, depth, isMaximizing, i + 1, if isMaximizing then Max(best, s) else Min(best, s));
      } else {
        BestScoreFromSpec(b, depth, isMaximizing, i + 1, best);
      }
    }
  }

  /** The search never reaches further than the board has empty cells, so
      from non-negative depth d its score lies within [-(10 - d), 10 - d]. */
  lemma {:induction false} MinimaxBounds(b: seq<Cell>, depth: int, isMaximizing: bool)
    requires |b| == 9 && 0 <= depth && depth + CountEmpty(b) <= 10
    ensures -10 + depth <= MinimaxValue(b, depth, isMaximizing) <= 10 - depth
    decreases CountEmpty(b)
  {
    var score := Evaluation(b);
    EvaluationSpec(b);
    if score == 0 && IsMovesLeft(b) {
      MovesLeftCount(b);
      var m := Mover(isMaximizing);
      forall j | 0 <= j < 9 && b[j] == Empty
        ensures -10 + depth + 1 <= ChildValue(b, depth, isMaximizing, j) <= 10 - depth - 1
      {
        CountEmptyPlace(b, j, m);
        MinimaxBounds(b[j := m], depth + 1, !isMaximizing);
      }
      BestScoreFromSpec(b, depth, isMaximizing, 0, if isMaximizing then IntMin else IntMax);
    }
  }

  /** In the recursive case the loop updates its accumulator at least once:
      the Int.min / Int.max start value never escapes, and the score is the
      maximum (maximising) or minimum (minimising) over the children. */
  lemma MinimaxRecursiveCase(b: seq<Cell>, depth: int, isMaximizing: bool)
    requires |b| == 9 && 0 <= depth && depth + CountEmpty(b) <= 10
    requires Evaluation(b) != 10 && Evaluation(b) != -10 && IsMovesLeft(b)
    ensures var r := MinimaxValue(b, depth, isMaximizing);
      r != IntMin && r != IntMax &&
      (exists j :: 0 <= j < 9 && b[j] == Empty && r == ChildValue(b, depth, isMaximizing, j)) &&
      (isMaximizing ==> forall j :: 0 <= j < 9 && b[j] == Empty ==> r >= ChildValue(b, depth, isMaximizing, j)) &&
      (!isMaximizing ==> forall j :: 0 <= j < 9 && b[j] == Empty ==> r <= ChildValue(b, depth, isMaximizing, j))
  {
    MinimaxBounds(b, depth, isMaximizing);
    BestScoreFromSpec(b, depth, isMaximizing, 0, if isMaximizing then IntMin else IntMax);
  }

  /** The terminal scores, checked in this order before any recursion. */
  lemma MinimaxTerminal(b: seq<Cell>, depth: int, isMaximizing: bool)
    requires |b| == 9
    ensures WinFor(b, X) && !WinFor(b, O) ==> MinimaxValue(b, depth, isMaximizing) == 10 - depth
    ensures WinFor(b, O) && !WinFor(b, X) ==> MinimaxValue(b, depth, isMaximizing) == -10 + depth
    ensures !WinFor(b, X) && !WinFor(b, O) && CountEmpty(b) == 0 ==> MinimaxValue(b, depth, isMaximizing) == 0
  {
    EvaluationOneSided(b);
    EvaluationSpec(b);
    MovesLeftCount(b);
  }

  /** minimax: the two loops that try every empty cell on a copy of the board. */
  method Minimax(b: seq<Cell>, depth: int, isMaximizing: bool) returns (score: int)
    requires |b| == 9
    ensures score == MinimaxValue(b, depth, isMaximizing)
    decreases CountEmpty(b)
  {
    score := Evaluate(b);
    if score == 10 {
      return score - depth;
    }
    if score == -10 {
      return score + depth;
    }
    if !IsMovesLeft(b) {
      return 0;
    }
    if isMaximizing {
      var bestScore := IntMin;
      for i := 0 to 9
        invariant BestScoreFrom(b, depth, true, i, bestScore) == MinimaxValue(b, depth, true)
      {
        if b[i] == Empty {
          var newBoard := b[i := X];
          CountEmptyPlace(b, i, X);
          var s := Minimax(newBoard, depth + 1, false);
          bestScore := Max(bestScore, s);
        }
      }
      return bestScore;
    } else {
      var bestScore := IntMax;
      for i := 0 to 9
        invariant BestScoreFrom(b, depth, false, i, bestScore) == MinimaxValue(b, depth, false)
      {
        if b[i] == Empty {
          var newBoard := b[i := O];
          CountEmptyPlace(b, i, O);
          var s := Minimax(newBoard, depth + 1, true);
          bestScore := Min(bestScore, s);
        }
      }
      return bestScore;
    }
  }

  // ------------------------------------------------------------ findBestMove

  /** The score findBestMove gives cell i: X placed there, then minimax at
      depth 0 with Nought to move. */
  function MoveScore(b: seq<Cell>, i: nat): int
    requires |b| == 9 && i < 9
  {
    MinimaxValue(b[i := X], 0, false)
  }

  /** The loop of findBestMove over cells i..8, with the best move and score so far. */
  function BestMoveFrom(b: seq<Cell>, i: nat, bestMove: int, bestVal: int): int
    requires |b| == 9 && i <= 9
    decreases 9 - i
  {
    if i == 9 then bestMove
    else if b[i] == Empty && MoveScore(b, i) > bestVal then BestMoveFrom(b, i + 1, i, MoveScore(b, i))
    else BestMoveFrom(b, i + 1, bestMove, bestVal)
  }

  /** The cell findBestMove returns. */
  function BestMove(b: seq<Cell>): int
    requires |b| == 9
  {
    BestMoveFrom(b, 0, -1, IntMin)
  }

  /** Every candidate score lies in [-10, 10]. */
  lemma MoveScoreBounds(b: seq<Cell>, i: nat)
    requires |b| == 9 && i < 9 && b[i] == Empty
    ensures -10 <= MoveScore(b, i) <= 10
  {
    CountEmptyPlace(b, i, X);
    CountEmptyBounds(b);
    MinimaxBounds(b[i := X], 0, false);
  }

  /** What the loop of findBestMove knows after cells 0..i-1. */
  ghost predicate BestSoFar(b: seq<Cell>, i: nat, bestMove: int, bestVal: int)
    requires |b| == 9 && i <= 9
  {
    (bestMove == -1 && bestVal == IntMin && forall j :: 0 <= j < i ==> b[j] != Empty) ||
    (0 <= bestMove < i && b[bestMove] == Empty && bestVal == MoveScore(b, bestMove) &&
     (forall j :: 0 <= j < i && b[j] == Empty ==> MoveScore(b, j) <= bestVal) &&
     (forall j :: 0 <= j < bestMove && b[j] == Empty ==> MoveScore(b, j) < bestVal))
  }

  /** One turn of the loop of findBestMove keeps BestSoFar. */
  lemma BestSoFarStep(b: seq<Cell>, i: nat, bestMove: int, bestVal: int)
    requires |b| == 9 && i < 9 && BestSoFar(b, i, bestMove, bestVal)
    ensures b[i] == Empty && MoveScore(b, i) > bestVal ==> BestSoFar(b, i + 1, i, MoveScore(b, i))
    ensures !(b[i] == Empty && MoveScore(b, i) > bestVal) ==> BestSoFar(b, i + 1, bestMove, bestVal)
  {
    if b[i] == Empty {
      MoveScoreBounds(b, i);
    }
  }

  /** What findBestMove promises of the cell m it returns. */
  ghost predicate Chosen(b: seq<Cell>, m: int)
    requires |b| == 9
  {
    (m == -1 && forall j :: 0 <= j < 9 ==> b[j] != Empty) ||
    (0 <= m < 9 && b[m] == Empty &&
     (forall j :: 0 <= j < 9 && b[j] == Empty ==> MoveScore(b, j) <= MoveScore(b, m)) &&
     (forall j :: 0 <= j < m && b[j] == Empty ==> MoveScore(b, j) < MoveScore(b, m)))
  }

  lemma {:induction false} BestMoveFromSpec(b: seq<Cell>, i: nat, bestMove: int, bestVal: int)
    requires |b| == 9 && i <= 9 && BestSoFar(b, i, bestMove, bestVal)
    ensures Chosen(b, BestMoveFrom(b, i, bestMove, bestVal))
    decreases 9 - i
  {
    if i == 9 {
      assert BestMoveFrom(b, i, bestMove, bestVal) == bestMove;
    } else {
      BestSoFarStep(b, i, bestMove, bestVal);
      if b[i] == Empty && MoveScore(b, i) > bestVal {
        BestMoveFromSpec(b, i + 1, i, MoveScore(b, i));
      } else {
        BestMoveFromSpec(b, i + 1, bestMove, bestVal);
      }
    }
  }

  /** findBestMove returns an empty cell when there is one, and -1 otherwise. */
  lemma BestMoveLegal(b: seq<Cell>)
    requires |b| == 9
    ensures BestMove(b) == -1 <==> !IsMovesLeft(b)
    ensures BestMove(b) != -1 ==> 0 <= BestMove(b) < 9 && b[BestMove(b)] == Empty
  {
    BestMoveFromSpec(b, 0, -1, IntMin);
  }

  /** findBestMove returns the lowest-indexed empty cell among those of
      greatest score: the strict comparison keeps the first maximum. */
  lemma BestMoveFirstMaximum(b: seq<Cell>)
    requires |b| == 9 && IsMovesLeft(b)
    ensures var m := BestMove(b);
      0 <= m < 9 && b[m] == Empty &&
      (forall j :: 0 <= j < 9 && b[j] == Empty ==> MoveScore(b, j) <= MoveScore(b, m)) &&
      (forall j :: 0 <= j < m && b[j] == Empty ==> MoveScore(b, j) < MoveScore(b, m))
  {
    BestMoveFromSpec(b, 0, -1, IntMin);
    BestMoveLegal(b);
  }

  /** With two crosses at cells 0 and 1, findBestMove picks cell 2, the first
      empty cell and one that completes the top row. */
  lemma TopRowExample()
    ensures BestMove([X, X, Empty, Empty, Empty, Empty, Empty, Empty, Empty]) == 2
  {
    var b := [X, X, Empty, Empty, Empty, Empty, Empty, Empty, Empty];
    assert Evaluation(b[2 := X]) == 10;
    assert MoveScore(b, 2) == 10;
    BestMoveFirstMaximum(b);
    var m := BestMove(b);
    if m > 2 {
      MoveScoreBounds(b, m);
    }
  }

  /** On X O X / O X O / _ _ O, cell 6 completes the anti-diagonal for Cross
      and findBestMove picks it. */
  lemma AntiDiagonalExample()
    ensures BestMove([X, O, X, O, X, O, Empty, Empty, O]) == 6
  {
    var b := [X, O, X, O, X, O, Empty, Empty, O];
    assert Evaluation(b[6 := X]) == 10;
    assert MoveScore(b, 6) == 10;
    BestMoveFirstMaximum(b);
    var m := BestMove(b);
    if m > 6 {
      MoveScoreBounds(b, m);
    }
  }

  /** findBestMove: try every empty cell in ascending order. */
  method FindBestMove(b: seq<Cell>) returns (bestMove: int)
    requires |b| == 9
    ensures bestMove == BestMove(b)
    ensures bestMove == -1 <==> !IsMovesLeft(b)
    ensures bestMove != -1 ==> 0 <= bestMove < 9 && b[bestMove] == Empty
  {
    bestMove := -1;
    var bestVal := IntMin;
    for i := 0 to 9
      invariant BestMoveFrom(b, i, bestMove, bestVal) == BestMove(b)
    {
      if b[i] == Empty {
        var newBoard := b[i := X];
        var moveVal := Minimax(newBoard, 0, false);
        if moveVal > bestVal {
          bestMove := i;
          bestVal := moveVal;
        }
      }
    }
    BestMoveLegal(b);
  }
}

/** The game's data model: whose turn it is, the game mode, the cells of the
    board and the game state record that the presenter owns. */
module GameModel {

  datatype Option<T> = None | Some(value: T)

  /** Which side moves next. */
  datatype Turn = Nought | Cross

  /** The raw value of a turn, the string that is written into a board cell. */
  function RawValue(t: Turn): string
  {
    match t
    case Nought => "O"
    case Cross => "X"
  }

  /** The other side. */
  function Opponent(t: Turn): (r: Turn)
    ensures r != t
  {
    match t
    case Nought => Cross
    case Cross => Nought
  }

  datatype GameMode = Computer | Duo

  /** A board cell. The source stores cells as the strings "", "X" and "O";
      this closed type has exactly one value per string. */
  datatype Cell = Empty | X | O

  /** The string the source keeps in a cell. */
  function CellString(c: Cell): string
  {
    match c
    case Empty => ""
    case X => "X"
    case O => "O"
  }

  /** Reads a cell back from its string; any other string is no cell. */
  function ParseCell(s: string): (r: Option<Cell>)
    ensures r.Some? <==> (s == "" || s == "X" || s == "O")
    ensures r.Some? ==> CellString(r.value) == s
  {
    if s == "" then Some(Empty)
    else if s == "X" then Some(X)
    else if s == "O" then Some(O)
    else None
  }

  /** The cell that a turn's raw value denotes. */
  function MarkOf(t: Turn): (c: Cell)
    ensures c != Empty
    ensures CellString(c) == RawValue(t)
  {
    match t
    case Nought => O
    case Cross => X
  }

  lemma ParseCellString(c: Cell)
    ensures ParseCell(CellString(c)) == Some(c)
  {
  }

  /** The two raw values differ from each other and from the empty marker. */
  lemma RawValuesDistinct()
    ensures RawValue(Nought) != RawValue(Cross)
    ensures RawValue(Nought) != CellString(Empty) && RawValue(Cross) != CellString(Empty)
  {
  }

  /** Each enumeration has exactly its two cases. */
  lemma TwoCases(t: Turn, m: GameMode)
    ensures t == Nought || t == Cross
    ensures m == Computer || m == Duo
  {
  }

  /** The presenter's state. */
  datatype GameState = GameState(currentTurn: Turn, board: seq<Cell>, freeCells: int, gameMode: GameMode)

  /** The struct's initialiser, with its default arguments. */
  function MakeGameState(currentTurn: Turn := Cross, board: seq<Cell> := [], freeCells: int := 0,
                         gameMode: GameMode := Computer): (s: GameState)
    ensures s.currentTurn == currentTurn && s.board == board
    ensures s.freeCells == freeCells && s.gameMode == gameMode
  {
    GameState(currentTurn, board, freeCells, gameMode)
  }

  lemma DefaultGameState()
    ensures MakeGameState() == GameState(Cross, [], 0, Computer)
  {
  }

  /** The number of empty cells of a board, which the state caches as freeCells. */
  function CountEmpty(b: seq<Cell>): nat
  {
    if b == [] then 0 else (if b[0] == Empty then 1 else 0) + CountEmpty(b[1..])
  }

  lemma {:induction false} CountEmptyBounds(b: seq<Cell>)
    ensures CountEmpty(b) <= |b|
    ensures CountEmpty(b) == 0 <==> Empty !in b
  {
    if b != [] {
      CountEmptyBounds(b[1..]);
      assert b == [b[0]] + b[1..];
    }
  }

  /** Writing a mark into an empty cell frees one cell fewer. */
  lemma {:induction false} CountEmptyPlace(b: seq<Cell>, i: nat, c: Cell)
    requires i < |b| && b[i] == Empty && c != Empty
    ensures CountEmpty(b[i := c]) == CountEmpty(b) - 1
  {
    if i == 0 {
      assert b[i := c][1..] == b[1..];
    } else {
      assert b[i := c][1..] == b[1..][i - 1 := c];
      CountEmptyPlace(b[1..], i - 1, c);
    }
  }

  lemma {:induction false} CountEmptyAllEmpty(n: nat)
    ensures CountEmpty(seq(n, _ => Empty)) == n
  {
    if n > 0 {
      assert seq(n, _ => Empty)[1..] == seq(n - 1, _ => Empty);
      CountEmptyAllEmpty(n - 1);
    }
  }
}

/** The rules of the game: the 3x3 board as a value, its eight lines,
    the terminal tests and the static evaluation of a position.

    A board is stored row-major: cell (i, j) sits at index 3 * i + j. */
module Rules {

  /** The three marks a cell can hold. */
  const Empty: char := ' '
  const Human: char := 'X'  // the minimizing side, always moves first
  const Ai: char := 'O'     // the maximizing side

  /** Side length of the board (SIZE in main.cpp). */
  const Size: nat := 3

  type Pos = k: nat | k < 9
  type Board = b: seq<char> | |b| == 9 witness "         "

  /** A move as the selectors return it: zero-based row and column, or the
      sentinel (-1, -1) when there is no empty cell. */
  datatype Move = Move(row: int, col: int)

  const NoMove: Move := Move(-1, -1)

  function IndexOf(i: nat, j: nat): (k: Pos)
    requires i < Size && j < Size
    ensures k / Size == i && k % Size == j
  {
    Size * i + j
  }

  /** The move that names the cell at index k. */
  function At(k: Pos): (m: Move)
    ensures 0 <= m.row < Size && 0 <= m.col < Size && IndexOf(m.row, m.col) == k
  {
    Move(k / Size, k % Size)
  }

  /** A move that names an in-range cell that is still empty. */
  predicate IsOpen(b: Board, m: Move) {
    0 <= m.row < Size && 0 <= m.col < Size && b[IndexOf(m.row, m.col)] == Empty
  }

  /** The board a new game starts from. */
  function Blank(): (b: Board)
    ensures forall k :: 0 <= k < 9 ==> b[k] == Empty
  {
    seq(9, _ => Empty)
  }

  /** The eight lines of the board: rows 0..2, columns 0..2, then the main
      diagonal and the anti-diagonal. */
  function Line(l: nat): (Pos, Pos, Pos)
    requires l < 8
  {
    if l < 3 then (3 * l, 3 * l + 1, 3 * l + 2)
    else if l < 6 then (l - 3, l, l + 3)
    else if l == 6 then (0, 4, 8)
    else (2, 4, 6)
  }

  predicate Completes(b: Board, line: (Pos, Pos, Pos), p: char) {
    b[line.0] == p && b[line.1] == p && b[line.2] == p
  }

  /** Mark p occupies all three cells of some line. */
  predicate Wins(b: Board, p: char) {
    exists l :: 0 <= l < 8 && Completes(b, Line(l), p)
  }

  /** Some cell is still empty. */
  predicate HasEmpty(b: Board) {
    exists k :: 0 <= k < 9 && b[k] == Empty
  }

  const AllPos: set<Pos> := {0, 1, 2, 3, 4, 5, 6, 7, 8}

  /** The set of empty positions; it shrinks by one with every placed mark. */
  function Empties(b: Board): set<Pos> {
    set k: Pos | b[k] == Empty
  }

  /** Static evaluation: O's line is tested first, so a board on which both
      marks have a line reads as a win for O. */
  function Evaluation(b: Board): (r: int)
    ensures r == 10 || r == 0 || r == -10
    ensures r == 10 <==> Wins(b, Ai)
    ensures r == -10 <==> Wins(b, Human) && !Wins(b, Ai)
    ensures r == 0 <==> !Wins(b, Ai) && !Wins(b, Human)
  {
    if Wins(b, Ai) then 10
    else if Wins(b, Human) then -10
    else 0
  }

  /** What the game loop decides after the current player has moved. */
  datatype Outcome = Won(winner: char) | Draw | Continue(next: char)

  function Opponent(p: char): char {
    if p == Human then Ai else Human
  }

  /** The end-of-turn step of the game loop: a win by the player who just
      moved is tested before a full board, then the turn passes. */
  function EndOfTurn(b: Board, current: char): (o: Outcome)
    ensures o == Won(current) <==> Wins(b, current)
    ensures o == Draw <==> !Wins(b, current) && !HasEmpty(b)
    ensures o.Continue? <==> !Wins(b, current) && HasEmpty(b)
    ensures o.Continue? && (current == Human || current == Ai) ==>
              o.next != current && (o.next == Human || o.next == Ai)
  {
    if Wins(b, current) then Won(current)
    else if !HasEmpty(b) then Draw
    else Continue(Opponent(current))
  }

  /** A fresh board has an empty cell and no line for either mark. */
  lemma BlankIsOpen()
    ensures HasEmpty(Blank())
    ensures forall p :: p != Empty ==> !Wins(Blank(), p)
    ensures Evaluation(Blank()) == 0
    ensures Empties(Blank()) == AllPos
  {
    assert Blank()[0] == Empty;
  }

  /** Writing a cell back to empty undoes a mark placed on an empty cell. */
  lemma Restore(b: Board, k: Pos, mark: char)
    requires b[k] == Empty
    ensures b[k := mark][k := Empty] == b
  {
  }

  /** At most nine cells can be empty. */
  lemma {:induction false} EmptiesAtMostNine(b: Board)
    ensures |Empties(b)| <= 9
  {
    SubsetCard(Empties(b), AllPos);
  }

  lemma {:induction false} SubsetCard<T>(a: set<T>, s: set<T>)
    requires a <= s
    ensures |a| <= |s|
    decreases s
  {
    if a != {} {
      var x :| x in a;
      SubsetCard(a - {x}, s - {x});
    }
  }

  /** Putting a mark on an empty cell removes exactly that cell from the
      empty set. */
  lemma PlaceShrinks(b: Board, k: Pos, mark: char)
    requires b[k] == Empty && mark != Empty
    ensures Empties(b[k := mark]) == Empties(b) - {k}
    ensures Empties(b[k := mark]) < Empties(b)
    ensures |Empties(b[k := mark])| == |Empties(b)| - 1
  {
    assert k in Empties(b);
  }

  /** A cell that holds something other than p before and after a write
      lies on none of p's complete lines, so the write neither makes nor
      breaks a line for p. */
  lemma LineOffCell(b: Board, k: Pos, mark: char, p: char)
    requires b[k] != p && mark != p
    ensures Wins(b[k := mark], p) <==> Wins(b, p)
  {
    if Wins(b, p) {
      var l :| 0 <= l < 8 && Completes(b, Line(l), p);
      assert Completes(b[k := mark], Line(l), p);
    }
    if Wins(b[k := mark], p) {
      var l :| 0 <= l < 8 && Completes(b[k := mark], Line(l), p);
      assert Completes(b, Line(l), p);
    }
  }
}

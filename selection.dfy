/** The two move selectors as pure scans over the board: the list of tied
    best moves that the optimal selector builds, the list of empty cells
    that the random selector builds, and the pick rand() % size. */
module Selection {
  import opened Rules
  import opened Search

  /** Value of O playing the empty cell k: the search of the resulting
      position from depth 0 with X to move. */
  function MoveValue(b: Board, k: Pos): (v: int)
    requires b[k] == Empty
    ensures -10 <= v <= 10
    ensures v == 10 <==> Wins(b[k := Ai], Ai)
  {
    EmptiesAtMostNine(b);
    PlaceShrinks(b, k, Ai);
    ValueBounds(b[k := Ai], 0, false);
    MinimaxValue(b[k := Ai], 0, false)
  }

  /** The value of every cell for O (0 for an occupied cell, never used). */
  function MoveValues(b: Board): (vals: seq<int>)
    ensures |vals| == 9
    ensures forall k :: 0 <= k < 9 && b[k] == Empty ==> vals[k] == MoveValue(b, k)
  {
    seq(9, k requires 0 <= k < 9 => if b[k] == Empty then MoveValue(b, k) else 0)
  }

  /** State of the best-move loop after the cells with index below n: the
      best value seen so far and the moves that reach it, in visiting order. */
  datatype Best = Best(bestVal: int, bestMoves: seq<Move>)

  function BestScan(b: Board, vals: seq<int>, n: nat): Best
    requires n <= 9 && |vals| == 9
  {
    if n == 0 then Best(IntMin, [])
    else
      var acc := BestScan(b, vals, n - 1);
      var k: Pos := n - 1;
      if b[k] != Empty then acc
      else
        var moveVal := vals[k];
        if moveVal > acc.bestVal then Best(moveVal, [At(k)])
        else if moveVal == acc.bestVal then Best(acc.bestVal, acc.bestMoves + [At(k)])
        else acc
  }

  /** The tied best moves of a board, as the optimal selector collects them. */
  function BestMoves(b: Board): seq<Move> {
    BestScan(b, MoveValues(b), 9).bestMoves
  }

  /** State of the empty-cell loop after the cells with index below n. */
  function OpenCells(b: Board, n: nat): seq<Move>
    requires n <= 9
  {
    if n == 0 then []
    else if b[n - 1] == Empty then OpenCells(b, n - 1) + [At(n - 1)]
    else OpenCells(b, n - 1)
  }

  /** The pick moves[rand() % size], or (-1, -1) for an empty list. */
  function Choose(moves: seq<Move>, rand: nat): (m: Move)
    ensures moves == [] ==> m == NoMove
    ensures moves != [] ==> m in moves
  {
    if moves == [] then NoMove else moves[rand % |moves|]
  }

  /** Moves listed in strictly increasing row-major order. */
  predicate RowMajor(moves: seq<Move>) {
    forall x, y :: 0 <= x < y < |moves| ==>
      moves[x].row < moves[y].row || (moves[x].row == moves[y].row && moves[x].col < moves[y].col)
  }

  /** Appending a move that comes after every listed move keeps the order. */
  lemma AppendKeepsRowMajor(moves: seq<Move>, m: Move)
    requires RowMajor(moves)
    requires forall x :: x in moves ==> x.row < m.row || (x.row == m.row && x.col < m.col)
    ensures RowMajor(moves + [m])
  {
    var s := moves + [m];
    forall x, y | 0 <= x < y < |s|
      ensures s[x].row < s[y].row || (s[x].row == s[y].row && s[x].col < s[y].col)
    {
      if y == |moves| {
        assert s[x] in moves;
      }
    }
  }

  /** A list in strictly increasing row-major order whose every element is
      m, and which holds m, is exactly [m]. */
  lemma OnlyMove(moves: seq<Move>, m: Move)
    requires RowMajor(moves) && m in moves
    requires forall x :: x in moves ==> x == m
    ensures moves == [m]
  {
    assert moves[0] in moves;
    assert moves[|moves| - 1] in moves;
  }

  /** The empty-cell list holds exactly the open cells below n, each once,
      in row-major order. */
  lemma {:induction false} OpenCellsExact(b: Board, n: nat)
    requires n <= 9
    ensures forall m :: m in OpenCells(b, n) <==> IsOpen(b, m) && IndexOf(m.row, m.col) < n
    ensures RowMajor(OpenCells(b, n))
    ensures OpenCells(b, n) == [] <==> forall k: Pos :: k < n ==> b[k] != Empty
  {
    if n > 0 {
      OpenCellsExact(b, n - 1);
      if b[n - 1] == Empty {
        AppendKeepsRowMajor(OpenCells(b, n - 1), At(n - 1));
        assert OpenCells(b, n)[|OpenCells(b, n)| - 1] == At(n - 1);
      }
    }
  }

  /** The best-move loop keeps: every collected move is an open cell whose
      value is bestVal; bestVal is at least the value of every open cell
      visited; every visited open cell with that value was collected; the
      list is empty (and bestVal the sentinel) only when no open cell was
      visited; and it is in row-major order. */
  lemma {:induction false} BestScanSound(b: Board, vals: seq<int>, n: nat)
    requires n <= 9 && |vals| == 9
    requires forall k :: 0 <= k < n && b[k] == Empty ==> IntMin < vals[k]
    ensures forall m :: m in BestScan(b, vals, n).bestMoves ==>
              IsOpen(b, m) && IndexOf(m.row, m.col) < n &&
              vals[IndexOf(m.row, m.col)] == BestScan(b, vals, n).bestVal
    ensures forall k :: 0 <= k < n && b[k] == Empty ==> vals[k] <= BestScan(b, vals, n).bestVal
    ensures forall k :: 0 <= k < n && b[k] == Empty && vals[k] == BestScan(b, vals, n).bestVal ==>
              At(k) in BestScan(b, vals, n).bestMoves
    ensures BestScan(b, vals, n).bestMoves == [] <==> forall k :: 0 <= k < n ==> b[k] != Empty
    ensures BestScan(b, vals, n).bestMoves == [] ==> BestScan(b, vals, n).bestVal == IntMin
    ensures RowMajor(BestScan(b, vals, n).bestMoves)
  {
    if n > 0 {
      BestScanSound(b, vals, n - 1);
      var k: Pos := n - 1;
      if b[k] == Empty {
        var acc := BestScan(b, vals, n - 1);
        if vals[k] == acc.bestVal {
          AppendKeepsRowMajor(acc.bestMoves, At(k));
          assert BestScan(b, vals, n).bestMoves[|BestScan(b, vals, n).bestMoves| - 1] == At(k);
        }
      }
    }
  }

  /** The tied best moves of a board: every empty cell whose value is the
      maximum over all empty cells, and no other cell. */
  lemma BestMovesAreTheMaxima(b: Board)
    ensures forall m :: m in BestMoves(b) <==>
              IsOpen(b, m) && forall k: Pos :: b[k] == Empty ==> MoveValue(b, k) <= MoveValue(b, IndexOf(m.row, m.col))
    ensures BestMoves(b) == [] <==> !HasEmpty(b)
    ensures RowMajor(BestMoves(b))
  {
    var vals := MoveValues(b);
    BestScanSound(b, vals, 9);
    forall m | IsOpen(b, m) && forall k: Pos :: b[k] == Empty ==> MoveValue(b, k) <= MoveValue(b, IndexOf(m.row, m.col))
      ensures m in BestMoves(b)
    {
      var c := IndexOf(m.row, m.col);
      assert At(c) == m;
      var w := BestMoves(b)[0];
      assert w in BestMoves(b);
      assert MoveValue(b, IndexOf(w.row, w.col)) <= MoveValue(b, c);
    }
  }

  /** A move that completes a line for O at once is among the best moves,
      and then every best move does: an immediate win outscores any other. */
  lemma ImmediateWinIsBest(b: Board, k: Pos)
    requires b[k] == Empty && Wins(b[k := Ai], Ai)
    ensures At(k) in BestMoves(b)
    ensures forall m :: m in BestMoves(b) ==> IsOpen(b, m) && Wins(b[IndexOf(m.row, m.col) := Ai], Ai)
  {
    BestMovesAreTheMaxima(b);
    assert At(k) in BestMoves(b);
  }

  /** X threatens to complete a line at cell c and nowhere else, neither
      mark has a line yet, and O has no move that completes one. */
  predicate SingleThreat(b: Board, c: Pos) {
    !Wins(b, Ai) && !Wins(b, Human) &&
    b[c] == Empty && Wins(b[c := Human], Human) &&
    (forall k: Pos :: b[k] == Empty && k != c ==> !Wins(b[k := Human], Human)) &&
    (forall k: Pos :: b[k] == Empty ==> !Wins(b[k := Ai], Ai))
  }

  /** X to move on a position without a line and with an empty cell: some
      reply of X attains the value. */
  lemma BestReply(b1: Board) returns (k: Pos)
    requires !Wins(b1, Ai) && !Wins(b1, Human) && HasEmpty(b1) && |Empties(b1)| <= 9
    ensures b1[k] == Empty && MinimaxValue(b1, 0, false) == MinimaxValue(b1[k := Human], 1, true)
  {
    var vals := ChildValues(b1, 0, false);
    MinimaxUnfolds(b1, 0, false);
    forall j | 0 <= j < 9 && b1[j] == Empty
      ensures IntMin <= vals[j] <= IntMax
    {
      ChildValueAt(b1, 0, false, j);
      PlaceShrinks(b1, j, Human);
      ValueBounds(b1[j := Human], 1, true);
    }
    ScanIsExtremum(b1, false, vals, 9);
    k :| 0 <= k < 9 && b1[k] == Empty && Scan(b1, false, vals, 9) == vals[k];
    ChildValueAt(b1, 0, false, k);
  }

  /** X to move on a position without a line, where no reply of X
      completes one: every reply is worth at least -(9 - 1). */
  lemma NoReplyWins(b1: Board)
    requires !Wins(b1, Ai) && !Wins(b1, Human) && |Empties(b1)| <= 8
    requires forall k: Pos :: b1[k] == Empty ==> !Wins(b1[k := Human], Human)
    ensures MinimaxValue(b1, 0, false) >= -8
  {
    if HasEmpty(b1) {
      var k := BestReply(b1);
      assert !Wins(b1[k := Human], Human);
      PlaceShrinks(b1, k, Human);
      ValueBounds(b1[k := Human], 1, true);
    }
  }

  /** X to move on a position without a line, where the reply c completes
      a line for X alone: the position is worth at most -10 + 1. */
  lemma ReplyWins(b1: Board, c: Pos)
    requires !Wins(b1, Ai) && !Wins(b1, Human) && |Empties(b1)| <= 9
    requires b1[c] == Empty && Wins(b1[c := Human], Human) && !Wins(b1[c := Human], Ai)
    ensures MinimaxValue(b1, 0, false) <= -9
  {
    assert HasEmpty(b1);
    MinimaxCases(b1, 0, false);
    assert MinimaxValue(b1, 0, false) <= MinimaxValue(b1[c := Human], 1, true);
    PlaceShrinks(b1, c, Human);
    MinimaxCases(b1[c := Human], 1, true);
  }

  /** Blocking the threat is worth at least -8: after O plays c, no reply of
      X completes a line. */
  lemma BlockWorth(b: Board, c: Pos)
    requires SingleThreat(b, c)
    ensures MoveValue(b, c) >= -8
  {
    var b1 := b[c := Ai];
    EmptiesAtMostNine(b);
    PlaceShrinks(b, c, Ai);
    LineOffCell(b, c, Ai, Human);
    forall k: Pos | b1[k] == Empty
      ensures !Wins(b1[k := Human], Human)
    {
      assert b1[k := Human] == b[k := Human][c := Ai];
      LineOffCell(b[k := Human], c, Ai, Human);
    }
    NoReplyWins(b1);
  }

  /** Any other open cell is worth at most -9: X answers at c and
      completes its line at depth 1. */
  lemma OtherWorth(b: Board, c: Pos, k: Pos)
    requires SingleThreat(b, c) && b[k] == Empty && k != c
    ensures MoveValue(b, k) <= -9
  {
    var b1 := b[k := Ai];
    EmptiesAtMostNine(b);
    PlaceShrinks(b, k, Ai);
    LineOffCell(b, k, Ai, Human);
    assert b1[c := Human] == b[c := Human][k := Ai];
    LineOffCell(b[c := Human], k, Ai, Human);
    LineOffCell(b1, c, Human, Ai);
    ReplyWins(b1, c);
  }

  /** Two threats of X at different cells, and O has no winning move: every
      O move is worth exactly -9, since X completes whichever line O left
      open at depth 1. */
  lemma DoubleThreatLoses(b: Board, c1: Pos, c2: Pos, k: Pos)
    requires !Wins(b, Ai) && !Wins(b, Human) && c1 != c2
    requires b[c1] == Empty && Wins(b[c1 := Human], Human)
    requires b[c2] == Empty && Wins(b[c2 := Human], Human)
    requires b[k] == Empty && !Wins(b[k := Ai], Ai)
    ensures MoveValue(b, k) == -9
  {
    var c := if k != c1 then c1 else c2;
    var b1 := b[k := Ai];
    EmptiesAtMostNine(b);
    PlaceShrinks(b, k, Ai);
    LineOffCell(b, k, Ai, Human);
    assert b1[c := Human] == b[c := Human][k := Ai];
    LineOffCell(b[c := Human], k, Ai, Human);
    LineOffCell(b1, c, Human, Ai);
    ReplyWins(b1, c);
    ValueBounds(b1, 0, false);
  }

  /** The blocking scenario: when X threatens a single cell c and O cannot
      win at once, the optimal selector's only best move is c, whatever
      rand() returns. */
  lemma BlockIsOnlyBest(b: Board, c: Pos, rand: nat)
    requires SingleThreat(b, c)
    ensures BestMoves(b) == [At(c)]
    ensures Choose(BestMoves(b), rand) == At(c)
  {
    BestMovesAreTheMaxima(b);
    BlockWorth(b, c);
    forall k: Pos | b[k] == Empty && k != c
      ensures MoveValue(b, k) < MoveValue(b, c)
    {
      OtherWorth(b, c, k);
    }
    var bm := BestMoves(b);
    assert At(c) in bm;
    forall m | m in bm
      ensures m == At(c)
    {
      assert IndexOf(m.row, m.col) == c;
    }
    OnlyMove(bm, At(c));
  }

  /** X holds (1, 0) and (1, 1), O holds (0, 0): X threatens (1, 2) only,
      and O has no winning move. */
  lemma ScenarioThreat(b: Board)
    requires b == "O  XX    "
    ensures SingleThreat(b, 5)
  {
    forall k: Pos, l | b[k] == Empty && k != 5 && 0 <= l < 8
      ensures !Completes(b[k := Human], Line(l), Human)
    {
    }
    forall k: Pos, l | b[k] == Empty && 0 <= l < 8
      ensures !Completes(b[k := Ai], Line(l), Ai)
    {
    }
    assert Completes(b[5 := Human], Line(1), Human);
  }

  /** In that position the optimal selector blocks at (1, 2), whatever
      rand() returns. */
  lemma BlockScenario(b: Board, rand: nat)
    requires b == "O  XX    "
    ensures Choose(BestMoves(b), rand) == Move(1, 2)
  {
    ScenarioThreat(b);
    BlockIsOnlyBest(b, 5, rand);
  }
}

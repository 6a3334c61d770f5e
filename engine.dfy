/** The engine as the program runs it: one mutable 3x3 array of marks and
    the routines that read it, fill it and search it in place. Each method
    is proved against the pure definitions of Rules, Search and Selection. */
module Engine {
  import opened Rules
  import opened Search
  import opened Selection

  class Game {
    /** The global board of the program, board[row, col]. */
    var board: array2<char>

    ghost predicate Valid()
      reads this
    {
      board.Length0 == Size && board.Length1 == Size
    }

    /** The board as a value, row-major. */
    ghost function Cells(): Board
      reads this, board
      requires Valid()
    {
      [board[0, 0], board[0, 1], board[0, 2],
       board[1, 0], board[1, 1], board[1, 2],
       board[2, 0], board[2, 1], board[2, 2]]
    }

    /** A program-wide char array starts zero-filled, before any game. */
    constructor ()
      ensures Valid() && fresh(board)
      ensures forall k :: 0 <= k < 9 ==> Cells()[k] == '\0'
    {
      board := new char[3, 3]((i, j) => '\0');
    }

    /** Cell (i, j) of the array is cell 3 * i + j of the value. */
    lemma CellAt(i: nat, j: nat)
      requires Valid() && i < Size && j < Size
      ensures Cells()[IndexOf(i, j)] == board[i, j]
    {
      assert i == 0 || i == 1 || i == 2;
      assert j == 0 || j == 1 || j == 2;
    }

    /** The single cell write the routines perform inline. */
    method Put(i: nat, j: nat, mark: char)
      requires Valid() && i < Size && j < Size
      modifies board
      ensures Valid()
      ensures Cells() == old(Cells())[IndexOf(i, j) := mark]
    {
      board[i, j] := mark;
    }

    /** initializeBoard: every cell becomes empty. */
    method InitializeBoard()
      requires Valid()
      modifies board
      ensures Valid()
      ensures Cells() == Blank()
    {
      for i := 0 to Size
        invariant forall k :: 0 <= k < 3 * i ==> Cells()[k] == Empty
      {
        for j := 0 to Size
          invariant forall k :: 0 <= k < 3 * i + j ==> Cells()[k] == Empty
        {
          Put(i, j, Empty);
        }
      }
    }

    /** isMovesLeft: whether some cell is still empty; reads only. */
    method IsMovesLeft() returns (left: bool)
      requires Valid()
      ensures left <==> HasEmpty(Cells())
    {
      for i := 0 to Size
        invariant forall k :: 0 <= k < 3 * i ==> Cells()[k] != Empty
      {
        for j := 0 to Size
          invariant forall k :: 0 <= k < 3 * i + j ==> Cells()[k] != Empty
        {
          if board[i, j] == Empty {
            assert Cells()[IndexOf(i, j)] == Empty;
            return true;
          }
        }
      }
      return false;
    }

    /** checkWin: rows and columns in one loop, then the two diagonals;
        true exactly when player holds one of the eight lines. */
    method CheckWin(player: char) returns (won: bool)
      requires Valid()
      ensures won <==> Wins(Cells(), player)
    {
      for i := 0 to Size
        invariant forall l :: 0 <= l < 8 && (l < i || 3 <= l < 3 + i) ==> !Completes(Cells(), Line(l), player)
      {
        if board[i, 0] == player && board[i, 1] == player && board[i, 2] == player {
          assert Completes(Cells(), Line(i), player);
          return true;
        }
        if board[0, i] == player && board[1, i] == player && board[2, i] == player {
          assert Completes(Cells(), Line(3 + i), player);
          return true;
        }
      }
      if board[0, 0] == player && board[1, 1] == player && board[2, 2] == player {
        assert Completes(Cells(), Line(6), player);
        return true;
      }
      if board[0, 2] == player && board[1, 1] == player && board[2, 0] == player {
        assert Completes(Cells(), Line(7), player);
        return true;
      }
      return false;
    }

    /** evaluate: +10 when O has a line, -10 when only X has one, else 0. */
    method Evaluate() returns (score: int)
      requires Valid()
      ensures score == Evaluation(Cells())
    {
      var o := CheckWin(Ai);
      if o { return 10; }
      var x := CheckWin(Human);
      if x { return -10; }
      return 0;
    }

    /** minimax: the exhaustive search. Every speculative mark is written
        back to empty after the recursive call, so the board is left as it
        was found; the value is the one MinimaxValue defines. */
    method Minimax(depth: nat, isMax: bool) returns (value: int)
      requires Valid()
      modifies board
      ensures Valid()
      ensures Cells() == old(Cells())
      ensures value == MinimaxValue(old(Cells()), depth, isMax)
      decreases Empties(Cells())
    {
      var score := Evaluate();
      if score == 10 { return score - depth; }
      if score == -10 { return score + depth; }
      var movesLeft := IsMovesLeft();
      if !movesLeft { return 0; }
      ghost var b := Cells();
      ghost var vals := ChildValues(b, depth, isMax);
      MinimaxUnfolds(b, depth, isMax);
      if isMax {
        var best := IntMin;
        for i := 0 to Size
          invariant Cells() == b
          invariant best == Scan(b, true, vals, 3 * i)
        {
          for j := 0 to Size
            invariant Cells() == b
            invariant best == Scan(b, true, vals, 3 * i + j)
          {
            ghost var k := IndexOf(i, j);
            CellAt(i, j);
            ScanStep(b, true, vals, k);
            if board[i, j] == Empty {
              ChildValueAt(b, depth, true, k);
              Put(i, j, Ai);
              var val := Minimax(depth + 1, false);
              Put(i, j, Empty);
              Restore(b, k, Ai);
              best := Max(best, val);
            }
          }
        }
        return best;
      } else {
        var best := IntMax;
        for i := 0 to Size
          invariant Cells() == b
          invariant best == Scan(b, false, vals, 3 * i)
        {
          for j := 0 to Size
            invariant Cells() == b
            invariant best == Scan(b, false, vals, 3 * i + j)
          {
            ghost var k := IndexOf(i, j);
            CellAt(i, j);
            ScanStep(b, false, vals, k);
            if board[i, j] == Empty {
              ChildValueAt(b, depth, false, k);
              Put(i, j, Human);
              var val := Minimax(depth + 1, true);
              Put(i, j, Empty);
              Restore(b, k, Human);
              best := Min(best, val);
            }
          }
        }
        return best;
      }
    }

    /** findBestMove: scores every empty cell for O with minimax(0, false),
        keeps the cells that reach the best value and picks one of them
        with rand() % size; (-1, -1) when no cell is empty. The board is
        unchanged afterwards. */
    method FindBestMove(rand: nat) returns (move: Move)
      requires Valid()
      modifies board
      ensures Valid()
      ensures Cells() == old(Cells())
      ensures move == Choose(BestMoves(old(Cells())), rand)
      ensures move == NoMove <==> !HasEmpty(old(Cells()))
      ensures move != NoMove ==>
                IsOpen(old(Cells()), move) &&
                forall k: Pos :: old(Cells())[k] == Empty ==>
                  MoveValue(old(Cells()), k) <= MoveValue(old(Cells()), IndexOf(move.row, move.col))
    {
      ghost var b := Cells();
      ghost var vals := MoveValues(b);
      var bestVal := IntMin;
      var bestMoves: seq<Move> := [];
      for i := 0 to Size
        invariant Cells() == b
        invariant Best(bestVal, bestMoves) == BestScan(b, vals, 3 * i)
      {
        for j := 0 to Size
          invariant Cells() == b
          invariant Best(bestVal, bestMoves) == BestScan(b, vals, 3 * i + j)
        {
          ghost var k := IndexOf(i, j);
          CellAt(i, j);
          if board[i, j] == Empty {
            assert At(k) == Move(i, j);
            Put(i, j, Ai);
            var moveVal := Minimax(0, false);
            assert moveVal == vals[k];
            Put(i, j, Empty);
            Restore(b, k, Ai);
            if moveVal > bestVal {
              bestVal := moveVal;
              bestMoves := [Move(i, j)];
            } else if moveVal == bestVal {
              bestMoves := bestMoves + [Move(i, j)];
            }
          }
        }
      }
      BestMovesAreTheMaxima(b);
      if |bestMoves| != 0 {
        var idx := rand % |bestMoves|;
        return bestMoves[idx];
      }
      return NoMove;
    }

    /** getRandomMove: collects the empty cells in row-major order and picks
        one with rand() % size; (-1, -1) when the board is full. */
    method GetRandomMove(rand: nat) returns (move: Move)
      requires Valid()
      ensures move == Choose(OpenCells(Cells(), 9), rand)
      ensures move == NoMove <==> !HasEmpty(Cells())
      ensures move != NoMove ==> IsOpen(Cells(), move)
    {
      var emptyCells: seq<Move> := [];
      for i := 0 to Size
        invariant emptyCells == OpenCells(Cells(), 3 * i)
      {
        for j := 0 to Size
          invariant emptyCells == OpenCells(Cells(), 3 * i + j)
        {
          if board[i, j] == Empty {
            assert At(IndexOf(i, j)) == Move(i, j);
            emptyCells := emptyCells + [Move(i, j)];
          }
        }
      }
      OpenCellsExact(Cells(), 9);
      if |emptyCells| == 0 { return NoMove; }
      var idx := rand % |emptyCells|;
      return emptyCells[idx];
    }
  }
}

/** The value the exhaustive minimax search assigns to a position, as a
    pure function of the board, the depth and the side to move, with the
    facts the search relies on: it aggregates exactly over the empty cells
    and its values are bounded by the depth (faster wins score higher). */
module Search {
  import opened Rules

  /** numeric_limits<int>::min() and ::max() for a 32-bit int: the starting
      values of the running best in the maximizing and minimizing loops. */
  const IntMin: int := -0x8000_0000
  const IntMax: int := 0x7fff_ffff

  function Max(a: int, b: int): int { if a < b then b else a }
  function Min(a: int, b: int): int { if a < b then a else b }

  /** The mark the side to move places. */
  function Mark(isMax: bool): char {
    if isMax then Ai else Human
  }

  /** Value of a position: wins for O score 10 - depth, wins for X score
      -10 + depth, a full board without a line scores 0; otherwise the best
      child for the side to move, as the loops over the cells compute it. */
  function MinimaxValue(b: Board, depth: nat, isMax: bool): int
    decreases Empties(b), 1
  {
    var score := Evaluation(b);
    if score == 10 then score - depth
    else if score == -10 then score + depth
    else if !HasEmpty(b) then 0
    else Scan(b, isMax, ChildValues(b, depth, isMax), 9)
  }

  /** For every cell, the value the recursive call returns after the side
      to move has put its mark there (0 for an occupied cell, never used). */
  function ChildValues(b: Board, depth: nat, isMax: bool): (vals: seq<int>)
    ensures |vals| == 9
    decreases Empties(b), 0
  {
    seq(9, k requires 0 <= k < 9 =>
      if b[k] != Empty then 0
      else
        PlaceShrinks(b, k, Mark(isMax));
        MinimaxValue(b[k := Mark(isMax)], depth + 1, !isMax))
  }

  /** Running best after a loop has visited the cells with index below n in
      row-major order: it starts from the sentinel and folds in with max
      (O to move) or min (X to move) the value of each empty cell. */
  function Scan(b: Board, isMax: bool, vals: seq<int>, n: nat): int
    requires n <= 9 && |vals| == 9
  {
    if n == 0 then (if isMax then IntMin else IntMax)
    else
      var best := Scan(b, isMax, vals, n - 1);
      if b[n - 1] != Empty then best
      else if isMax then Max(best, vals[n - 1])
      else Min(best, vals[n - 1])
  }

  /** A position without a line that still has an empty cell is worth
      what the scan over all nine cells gives. */
  lemma MinimaxUnfolds(b: Board, depth: nat, isMax: bool)
    requires Evaluation(b) == 0 && HasEmpty(b)
    ensures MinimaxValue(b, depth, isMax) == Scan(b, isMax, ChildValues(b, depth, isMax), 9)
  {
  }

  /** One step of the loop: an occupied cell k leaves the running best as it
      is, an empty one folds in its value. */
  lemma ScanStep(b: Board, isMax: bool, vals: seq<int>, k: Pos)
    requires |vals| == 9
    ensures Scan(b, isMax, vals, k + 1) ==
              if b[k] != Empty then Scan(b, isMax, vals, k)
              else if isMax then Max(Scan(b, isMax, vals, k), vals[k])
              else Min(Scan(b, isMax, vals, k), vals[k])
  {
  }

  /** The value recorded for an empty cell is that of the position after the
      side to move has put its mark there, which has one empty cell fewer. */
  lemma ChildValueAt(b: Board, depth: nat, isMax: bool, k: Pos)
    requires b[k] == Empty
    ensures Empties(b[k := Mark(isMax)]) < Empties(b)
    ensures ChildValues(b, depth, isMax)[k] == MinimaxValue(b[k := Mark(isMax)], depth + 1, !isMax)
  {
    PlaceShrinks(b, k, Mark(isMax));
  }

  /** The scan over the first n cells is an upper bound (maximizing) or a
      lower bound (minimizing) of the values of the empty cells it visited;
      once it has visited an empty cell, and all values lie inside the
      32-bit range, it equals the value of one of them; before that it is
      the sentinel. */
  lemma {:induction false} ScanIsExtremum(b: Board, isMax: bool, vals: seq<int>, n: nat)
    requires n <= 9 && |vals| == 9
    requires forall k :: 0 <= k < n && b[k] == Empty ==> IntMin <= vals[k] <= IntMax
    ensures forall k :: 0 <= k < n && b[k] == Empty ==>
              if isMax then vals[k] <= Scan(b, isMax, vals, n) else Scan(b, isMax, vals, n) <= vals[k]
    ensures (exists k :: 0 <= k < n && b[k] == Empty) ==>
              exists k :: 0 <= k < n && b[k] == Empty && Scan(b, isMax, vals, n) == vals[k]
    ensures (forall k :: 0 <= k < n ==> b[k] != Empty) ==>
              Scan(b, isMax, vals, n) == if isMax then IntMin else IntMax
  {
    if n > 0 {
      ScanIsExtremum(b, isMax, vals, n - 1);
    }
  }

  /** Depth-biased bounds: from depth d every value lies in [-(10-d), 10-d],
      and a position that is not already won by O (resp. X) is worth at most
      9 - d (resp. at least -(9 - d)), so a sooner win scores strictly more. */
  lemma {:induction false} ValueBounds(b: Board, depth: nat, isMax: bool)
    requires depth + |Empties(b)| <= 9
    ensures -(10 - depth) <= MinimaxValue(b, depth, isMax) <= 10 - depth
    ensures Evaluation(b) != 10 ==> MinimaxValue(b, depth, isMax) <= 9 - depth
    ensures Evaluation(b) != -10 ==> MinimaxValue(b, depth, isMax) >= -(9 - depth)
    decreases Empties(b)
  {
    if Evaluation(b) == 0 && HasEmpty(b) {
      var vals := ChildValues(b, depth, isMax);
      forall k | 0 <= k < 9 && b[k] == Empty
        ensures -(9 - depth) <= vals[k] <= 9 - depth
      {
        PlaceShrinks(b, k, Mark(isMax));
        ValueBounds(b[k := Mark(isMax)], depth + 1, !isMax);
      }
      ScanIsExtremum(b, isMax, vals, 9);
    }
  }

  /** What one minimax call returns, case by case: the depth-adjusted
      terminal scores, 0 on a full board without a line, and otherwise the
      maximum (O to move) or minimum (X to move) over the values of all
      empty cells at depth + 1, attained by one of them. */
  lemma MinimaxCases(b: Board, depth: nat, isMax: bool)
    requires depth + |Empties(b)| <= 9
    ensures Wins(b, Ai) ==> MinimaxValue(b, depth, isMax) == 10 - depth
    ensures Wins(b, Human) && !Wins(b, Ai) ==> MinimaxValue(b, depth, isMax) == -10 + depth
    ensures !Wins(b, Ai) && !Wins(b, Human) && !HasEmpty(b) ==> MinimaxValue(b, depth, isMax) == 0
    ensures !Wins(b, Ai) && !Wins(b, Human) && HasEmpty(b) ==>
              (forall k: Pos :: b[k] == Empty ==>
                 if isMax then MinimaxValue(b[k := Mark(isMax)], depth + 1, !isMax) <= MinimaxValue(b, depth, isMax)
                 else MinimaxValue(b, depth, isMax) <= MinimaxValue(b[k := Mark(isMax)], depth + 1, !isMax)) &&
              (exists k: Pos :: b[k] == Empty && MinimaxValue(b, depth, isMax) == MinimaxValue(b[k := Mark(isMax)], depth + 1, !isMax))
  {
    if !Wins(b, Ai) && !Wins(b, Human) && HasEmpty(b) {
      var vals := ChildValues(b, depth, isMax);
      forall k | 0 <= k < 9 && b[k] == Empty
        ensures IntMin <= vals[k] <= IntMax
      {
        PlaceShrinks(b, k, Mark(isMax));
        ValueBounds(b[k := Mark(isMax)], depth + 1, !isMax);
      }
      ScanIsExtremum(b, isMax, vals, 9);
      var w :| 0 <= w < 9 && b[w] == Empty && Scan(b, isMax, vals, 9) == vals[w];
      assert MinimaxValue(b, depth, isMax) == MinimaxValue(b[w := Mark(isMax)], depth + 1, !isMax);
    }
  }
}

/** The neighbour table of the 9 by 9 board, the final check, and what they make of the neighbour search. */
module SudokuTable {
  import opened Chains
  import opened Finite
  import R = SudokuRules
  import opened NeighborSearch
  import CacheSolver

  const NEIGHBOR := 20

  /** The cells in the same row, column or box, the cell itself among them. */
  predicate Adjacent(row: nat, col: nat, y: nat, x: nat) {
    y == row || x == col || (y / 3 == row / 3 && x / 3 == col / 3)
  }

  predicate SameUnit(c: nat, d: nat) {
    Adjacent(c / 9, c % 9, d / 9, d % 9)
  }

  lemma SameUnitIs(c: nat, d: nat)
    requires c < 81 && d < 81
    ensures SameUnit(c, d) <==> exists k :: 0 <= k < 3 && R.UnitOf(k, c) == R.UnitOf(k, d)
  {
    assert SameUnit(c, d) <==> R.UnitOf(0, c) == R.UnitOf(0, d) || R.UnitOf(1, c) == R.UnitOf(1, d) || R.UnitOf(2, c) == R.UnitOf(2, d) by {
      BoxOf(c / 9, c % 9, d / 9, d % 9);
    }
  }

  lemma BoxOf(row: nat, col: nat, y: nat, x: nat)
    requires row < 9 && col < 9 && y < 9 && x < 9
    ensures row / 3 * 3 + col / 3 == y / 3 * 3 + x / 3 <==> row / 3 == y / 3 && col / 3 == x / 3
  {
  }

  method MarkAdjacent(adjacent: array2<bool>, row: nat, col: nat)
    requires adjacent.Length0 == 9 && adjacent.Length1 == 9 && row < 9 && col < 9
    requires forall y, x :: 0 <= y < 9 && 0 <= x < 9 ==> !adjacent[y, x]
    modifies adjacent
    ensures forall y, x :: 0 <= y < 9 && 0 <= x < 9 ==> (adjacent[y, x] <==> Adjacent(row, col, y, x))
  {
    for i := 0 to 9
      invariant forall y, x :: 0 <= y < 9 && 0 <= x < 9 ==> (adjacent[y, x] <==> (y == row && x < i) || (x == col && y < i))
    {
      adjacent[row, i] := true;
      adjacent[i, col] := true;
    }
    var top, left := row / 3 * 3, col / 3 * 3;
    adjacent[top, left] := true;
    adjacent[top, left + 1] := true;
    adjacent[top, left + 2] := true;
    adjacent[top + 1, left] := true;
    adjacent[top + 1, left + 1] := true;
    adjacent[top + 1, left + 2] := true;
    adjacent[top + 2, left] := true;
    adjacent[top + 2, left + 1] := true;
    adjacent[top + 2, left + 2] := true;
  }

  function Clamp(z: int): (c: int)
    ensures 0 <= c <= 3
  {
    if z < 0 then 0 else if z > 3 then 3 else z
  }

  /** How many neighbours the rows before y hold, and how many the first x cells of row y. */
  function RowsBefore(row: nat, y: nat): (n: int) {
    y + 2 * Clamp(y - row / 3 * 3) + if y > row then 5 else 0
  }

  function CellsBefore(row: nat, col: nat, y: nat, x: nat): (n: int) {
    if y == row then x - (if x > col then 1 else 0)
    else if y / 3 == row / 3 then Clamp(x - col / 3 * 3)
    else if x > col then 1 else 0
  }

  lemma CellsBeforeStep(row: nat, col: nat, y: nat, x: nat)
    requires row < 9 && col < 9 && y < 9 && x < 9
    ensures CellsBefore(row, col, y, x + 1) == CellsBefore(row, col, y, x)
      + if Adjacent(row, col, y, x) && !(y == row && x == col) then 1 else 0
    ensures CellsBefore(row, col, y, 0) == 0 && RowsBefore(row, y + 1) == RowsBefore(row, y) + CellsBefore(row, col, y, 9)
    ensures RowsBefore(row, y + 1) <= NEIGHBOR && CellsBefore(row, col, y, x + 1) <= CellsBefore(row, col, y, 9)
  {
  }

  /** The neighbours of a cell in increasing order; there are always exactly twenty. */
  method CollectNeighbors(adjacent: array2<bool>, row: nat, col: nat) returns (mine: seq<nat>)
    requires adjacent.Length0 == 9 && adjacent.Length1 == 9 && row < 9 && col < 9
    requires forall y, x :: 0 <= y < 9 && 0 <= x < 9 ==> (adjacent[y, x] <==> Adjacent(row, col, y, x))
    ensures |mine| == 20
    ensures forall d :: d in mine <==> 0 <= d < 81 && d != row * 9 + col && Adjacent(row, col, d / 9, d % 9)
    ensures forall i, j :: 0 <= i < j < |mine| ==> mine[i] < mine[j]
  {
    mine := [];
    for y := 0 to 9
      invariant |mine| == RowsBefore(row, y)
      invariant forall d :: d in mine <==> 0 <= d < 9 * y && d != row * 9 + col && Adjacent(row, col, d / 9, d % 9)
      invariant forall i, j :: 0 <= i < j < |mine| ==> mine[i] < mine[j]
    {
      CellsBeforeStep(row, col, y, 0);
      for x := 0 to 9
        invariant |mine| == RowsBefore(row, y) + CellsBefore(row, col, y, x)
        invariant forall d :: d in mine <==> 0 <= d < 9 * y + x && d != row * 9 + col && Adjacent(row, col, d / 9, d % 9)
        invariant forall i, j :: 0 <= i < j < |mine| ==> mine[i] < mine[j]
      {
        CellsBeforeStep(row, col, y, x);
        assert (9 * y + x) / 9 == y && (9 * y + x) % 9 == x;
        if adjacent[y, x] && !(y == row && x == col) {
          assert |mine| < NEIGHBOR;
          assert forall i :: 0 <= i < |mine| ==> mine[i] in mine;
          mine := mine + [y * 9 + x];
        }
      }
    }
  }

  /** Every cell is listed with the cells of its row, column and box. */
  ghost predicate IsSudokuTable(nbs: Table) {
    |nbs| == 81 && forall c :: 0 <= c < 81 ==> ListsUnit(nbs[c], c)
  }

  ghost predicate ListsUnit(mine: seq<nat>, c: nat) {
    |mine| == 20 && forall d :: d in mine <==> 0 <= d < 81 && d != c && SameUnit(c, d)
  }

  method InitNeighbors() returns (nbs: Table)
    ensures IsSudokuTable(nbs) && ValidTable(nbs)
  {
    nbs := [];
    for row := 0 to 9
      invariant |nbs| == 9 * row && forall c :: 0 <= c < |nbs| ==> ListsUnit(nbs[c], c)
    {
      for col := 0 to 9
        invariant |nbs| == 9 * row + col && forall c :: 0 <= c < |nbs| ==> ListsUnit(nbs[c], c)
      {
        var adjacent := new bool[9, 9]((_, _) => false);
        MarkAdjacent(adjacent, row, col);
        var mine := CollectNeighbors(adjacent, row, col);
        assert (9 * row + col) / 9 == row && (9 * row + col) % 9 == col;
        assert ListsUnit(mine, row * 9 + col);
        nbs := nbs + [mine];
      }
    }
    TableIsValid(nbs);
  }

  lemma TableIsValid(nbs: Table)
    requires IsSudokuTable(nbs)
    ensures ValidTable(nbs)
  {
    forall c | 0 <= c < 81
      ensures c !in nbs[c] && (forall i :: 0 <= i < |nbs[c]| ==> nbs[c][i] < 81)
      ensures forall d :: d in nbs[c] ==> 0 <= d < 81 && c in nbs[d]
    {
      assert ListsUnit(nbs[c], c);
      assert forall i :: 0 <= i < |nbs[c]| ==> nbs[c][i] in nbs[c];
      forall d | d in nbs[c]
        ensures 0 <= d < 81 && c in nbs[d]
      {
        assert ListsUnit(nbs[d], d);
      }
    }
  }

  // ---------------------------------------------------------------- the final check

  /** Nine values, each of 1..9, are all different exactly when nine of the ten counters stand at 1. */
  method AllOnce(s: seq<int>) returns (ok: bool)
    requires |s| == 9 && forall i :: 0 <= i < 9 ==> 1 <= s[i] <= 9
    ensures ok <==> Distinct(s)
  {
    var occurs := new int[10](_ => 0);
    for i := 0 to 9
      invariant forall v :: 0 <= v < 10 ==> occurs[v] == multiset(s[..i])[v]
    {
      assert s[..i + 1] == s[..i] + [s[i]];
      occurs[s[i]] := occurs[s[i]] + 1;
    }
    assert s[..9] == s;
    assert multiset(s)[0] == 0;
    var count := 0;
    for v := 0 to 10
      invariant v == 0 ==> count == 0
      invariant v > 0 ==> count <= v - 1 && (count == v - 1 <==> forall w :: 1 <= w < v ==> occurs[w] == 1)
    {
      if occurs[v] == 1 {
        count := count + 1;
      }
    }
    OnceIsDistinct(s);
    ok := count == 9;
  }

  lemma OnceIsDistinct(s: seq<int>)
    requires |s| == 9 && forall i :: 0 <= i < 9 ==> 1 <= s[i] <= 9
    ensures (forall w :: 1 <= w < 10 ==> multiset(s)[w] == 1) <==> Distinct(s)
  {
    if forall w :: 1 <= w < 10 ==> multiset(s)[w] == 1 {
      forall w | 1 <= w < 1 + |s|
        ensures w in s
      {
        assert multiset(s)[w] == 1;
        assert w in multiset(s);
      }
      OntoIsDistinct(s, 1);
    }
    if Distinct(s) {
      forall w | 1 <= w < 10
        ensures multiset(s)[w] == 1
      {
        DistinctIsOnto(s, 1, w);
        AtMostOnce(s, w);
      }
    }
  }

  lemma {:induction false} AtMostOnce(s: seq<int>, w: int)
    requires Distinct(s)
    ensures multiset(s)[w] == if w in s then 1 else 0
  {
    if s == [] {
    } else {
      var k := |s| - 1;
      assert s == s[..k] + [s[k]];
      AtMostOnce(s[..k], w);
      assert s[k] !in s[..k];
    }
  }

  /** solved: whether a full board is a valid grid. */
  method Solved(g: seq<int>) returns (ok: bool)
    requires |g| == R.CELLS && forall i :: 0 <= i < R.CELLS ==> 1 <= g[i] <= 9
    ensures ok <==> R.ValidGrid(g)
  {
    hide R.CellOf, R.UnitOf;
    for k := 0 to 3
      invariant forall j, u :: 0 <= j < k && 0 <= u < 9 ==> Distinct(R.UnitValues(g, j, u))
    {
      for u := 0 to 9
        invariant forall j, w :: 0 <= j < k && 0 <= w < 9 ==> Distinct(R.UnitValues(g, j, w))
        invariant forall w :: 0 <= w < u ==> Distinct(R.UnitValues(g, k, w))
      {
        var once := AllOnce(R.UnitValues(g, k, u));
        if !once {
          if R.ValidGrid(g) {
            R.ValidUnit(g, k, u);
          }
          return false;
        }
      }
    }
    R.UnitsAreValid(g);
    return true;
  }

  // ---------------------------------------------------------------- what the search finds

  /** No two givens in the same unit are equal. */
  ghost predicate NoConflict(board: seq<int>)
    requires |board| == 81
  {
    forall c, d :: 0 <= c < 81 && 0 <= d < 81 && c != d && SameUnit(c, d) && board[c] != 0 ==> board[c] != board[d]
  }

  lemma ValidIsPairwise(g: seq<int>)
    requires |g| == 81 && forall i :: 0 <= i < 81 ==> 1 <= g[i] <= 9
    ensures R.ValidGrid(g) <==> forall c, d :: 0 <= c < 81 && 0 <= d < 81 && c != d && SameUnit(c, d) ==> g[c] != g[d]
  {
    hide SameUnit, R.UnitOf;
    if R.ValidGrid(g) {
      forall c, d | 0 <= c < 81 && 0 <= d < 81 && c != d && SameUnit(c, d)
        ensures g[c] != g[d]
      {
        SameUnitIs(c, d);
        var k :| 0 <= k < 3 && R.UnitOf(k, c) == R.UnitOf(k, d);
        if c < d {
          assert g[c] != g[d];
        } else {
          assert g[d] != g[c];
        }
      }
    }
    if forall c, d :: 0 <= c < 81 && 0 <= d < 81 && c != d && SameUnit(c, d) ==> g[c] != g[d] {
      forall k, i, j | 0 <= k < 3 && 0 <= i < j < 81 && R.UnitOf(k, i) == R.UnitOf(k, j)
        ensures g[i] != g[j]
      {
        SameUnitIs(i, j);
      }
    }
  }

  /** A completion found by the neighbour search is a valid grid exactly when the givens do not conflict. */
  lemma FoundIsValid(nbs: Table, g: seq<int>, board: seq<int>)
    requires IsSudokuTable(nbs) && ValidTable(nbs) && Fits(nbs, 9, g, board)
    ensures R.ValidGrid(g) <==> NoConflict(board)
  {
    hide SameUnit, ValidTable;
    ValidIsPairwise(g);
    if NoConflict(board) {
      forall c, d | 0 <= c < 81 && 0 <= d < 81 && c != d && SameUnit(c, d)
        ensures g[c] != g[d]
      {
        SameUnitSym(c, d);
        if board[c] == 0 {
          FitsDiffer(nbs, g, board, c, d);
        } else if board[d] == 0 {
          FitsDiffer(nbs, g, board, d, c);
        }
      }
    }
  }

  lemma SameUnitSym(c: nat, d: nat)
    ensures SameUnit(c, d) <==> SameUnit(d, c)
  {
  }

  lemma FitsDiffer(nbs: Table, g: seq<int>, board: seq<int>, c: nat, d: nat)
    requires IsSudokuTable(nbs) && ValidTable(nbs) && Fits(nbs, 9, g, board)
    requires c < 81 && d < 81 && c != d && SameUnit(c, d) && board[c] == 0
    ensures g[c] != g[d]
  {
    assert ListsUnit(nbs[c], c);
    assert d in nbs[c];
    var i :| 0 <= i < |nbs[c]| && nbs[c][i] == d;
    assert g[nbs[c][i]] != g[c];
  }

  /** Every solution of the puzzle is a completion. */
  lemma SolutionFits(nbs: Table, g: seq<int>, board: seq<int>)
    requires IsSudokuTable(nbs) && ValidTable(nbs) && R.Completes(g, board)
    ensures Fits(nbs, 9, g, board) && NoConflict(board)
  {
    hide SameUnit;
    ValidIsPairwise(g);
    forall c, i | 0 <= c < 81 && board[c] == 0 && 0 <= i < |nbs[c]|
      ensures g[nbs[c][i]] != g[c]
    {
      assert ListsUnit(nbs[c], c);
      assert nbs[c][i] in nbs[c];
    }
  }

  /** Where the givens do not conflict the neighbour search decides the puzzle. */
  lemma SearchDecides(nbs: Table, board: seq<int>)
    requires IsSudokuTable(nbs) && ValidTable(nbs) && |board| == 81 && NoConflict(board)
    ensures (exists g :: Fits(nbs, 9, g, board)) <==> (exists g :: R.Completes(g, board))
  {
    hide NoConflict, IsSudokuTable, ValidTable;
    if g :| Fits(nbs, 9, g, board) {
      FoundIsValid(nbs, g, board);
      assert R.Completes(g, board);
    }
    if g :| R.Completes(g, board) {
      SolutionFits(nbs, g, board);
    }
  }

  /** The whole program on one puzzle: it reports a solution that passes the final check exactly if the puzzle has one. */
  method SolveAndCheck(board: seq<int>) returns (found: bool, accepted: bool, g: seq<int>)
    requires |board| == 81 && forall c :: 0 <= c < 81 ==> 0 <= board[c] <= 9
    ensures found && accepted <==> exists h :: R.Completes(h, board)
    ensures found && accepted ==> R.Completes(g, board)
    ensures found ==> (accepted <==> NoConflict(board))
    ensures NoConflict(board) ==> (found <==> exists h :: R.Completes(h, board))
  {
    hide IsSudokuTable, ValidTable, NoConflict, R.ValidGrid;
    var nbs := InitNeighbors();
    TableSize(nbs);
    found, g := CacheSolver.SolveCached(nbs, 9, board);
    accepted := false;
    if found {
      accepted := Solved(g);
      FoundIsValid(nbs, g, board);
      if accepted {
        assert R.Completes(g, board);
      }
    }
    if h :| R.Completes(h, board) {
      SolutionFits(nbs, h, board);
    }
  }

  lemma TableSize(nbs: Table)
    requires IsSudokuTable(nbs)
    ensures |nbs| == 81
  {
  }

  /** Conflicting givens are not noticed: a board full of ones is accepted as it stands, and the final check rejects it. */
  lemma OnesAreAccepted(nbs: Table)
    requires IsSudokuTable(nbs) && ValidTable(nbs)
    ensures var ones := seq(81, _ => 1);
      IsBoard(nbs, 9, ones) && Fits(nbs, 9, ones, ones) && !NoConflict(ones) && !R.ValidGrid(ones)
  {
    var ones := seq(81, _ => 1);
    assert SameUnit(0, 1) && ones[0] == ones[1];
    FoundIsValid(nbs, ones, ones);
  }
}

/** What a Sudoku solution is, without reference to any solver. */
module SudokuRules {
  import opened Chains
  import opened Finite

  const CELLS := 81

  /** The row (k = 0), column (k = 1) or box (k = 2) that cell i lies in. */
  function UnitOf(k: nat, i: nat): (u: nat)
    requires k < 3 && i < CELLS
    ensures u < 9
  {
    if k == 0 then i / 9 else if k == 1 then i % 9 else i / 9 / 3 * 3 + i % 9 / 3
  }

  /** The j-th cell of unit u of kind k. */
  function CellOf(k: nat, u: nat, j: nat): (i: nat)
    requires k < 3 && u < 9 && j < 9
    ensures i < CELLS
  {
    if k == 0 then 9 * u + j else if k == 1 then 9 * j + u else (u / 3 * 3 + j / 3) * 9 + u % 3 * 3 + j % 3
  }

  function PlaceIn(k: nat, i: nat): (j: nat)
    requires k < 3 && i < CELLS
    ensures j < 9
  {
    if k == 0 then i % 9 else if k == 1 then i / 9 else i / 9 % 3 * 3 + i % 9 % 3
  }

  /** Each unit has exactly nine cells. */
  lemma UnitCells(k: nat, u: nat, j: nat, i: nat)
    requires k < 3 && u < 9 && j < 9 && i < CELLS
    ensures UnitOf(k, CellOf(k, u, j)) == u && PlaceIn(k, CellOf(k, u, j)) == j
    ensures CellOf(k, UnitOf(k, i), PlaceIn(k, i)) == i
  {
    if k == 2 {
      BoxCells(u, j);
      CellBox(i);
    }
  }

  lemma Split(a: nat, b: nat, n: nat)
    requires (n == 3 || n == 9) && b < n
    ensures (n * a + b) / n == a && (n * a + b) % n == b
  {
    if n == 3 {
    } else {
    }
  }

  lemma BoxCells(u: nat, j: nat)
    requires u < 9 && j < 9
    ensures UnitOf(2, CellOf(2, u, j)) == u && PlaceIn(2, CellOf(2, u, j)) == j
  {
    var a, b, c, d := u / 3, u % 3, j / 3, j % 3;
    var i := CellOf(2, u, j);
    assert i == 9 * (3 * a + c) + (3 * b + d);
    Split(3 * a + c, 3 * b + d, 9);
    Split(a, c, 3);
    Split(b, d, 3);
  }

  lemma CellBox(i: nat)
    requires i < CELLS
    ensures CellOf(2, UnitOf(2, i), PlaceIn(2, i)) == i
  {
    var y, x := i / 9, i % 9;
    Split(y / 3, x / 3, 3);
    Split(y % 3, x % 3, 3);
    assert UnitOf(2, i) == 3 * (y / 3) + x / 3;
    assert PlaceIn(2, i) == 3 * (y % 3) + x % 3;
  }

  ghost predicate IsBoard(board: seq<int>) {
    |board| == CELLS && forall i :: 0 <= i < CELLS ==> 0 <= board[i] <= 9
  }

  /** Every cell holds 1..9 and no unit holds a value twice. */
  ghost predicate ValidGrid(g: seq<int>) {
    && |g| == CELLS && (forall i :: 0 <= i < CELLS ==> 1 <= g[i] <= 9)
    && (forall k, i, j :: 0 <= k < 3 && 0 <= i < j < CELLS && UnitOf(k, i) == UnitOf(k, j) ==> g[i] != g[j])
  }

  /** g is a solution of the puzzle board, in which 0 marks an empty cell. */
  ghost predicate Completes(g: seq<int>, board: seq<int>) {
    ValidGrid(g) && |g| == CELLS && |board| == CELLS && forall i :: 0 <= i < CELLS && board[i] != 0 ==> g[i] == board[i]
  }

  // ---------------------------------------------------------------- units hold every value once

  function UnitValues(g: seq<int>, k: nat, u: nat): (s: seq<int>)
    requires |g| == CELLS && k < 3 && u < 9
    ensures |s| == 9 && forall j :: 0 <= j < 9 ==> s[j] == g[CellOf(k, u, j)]
  {
    seq(9, j requires 0 <= j < 9 => g[CellOf(k, u, j)])
  }

  /** A grid whose units have no repetitions is valid, and the other way round. */
  lemma UnitsAreValid(g: seq<int>)
    requires |g| == CELLS && (forall i :: 0 <= i < CELLS ==> 1 <= g[i] <= 9)
    requires forall k, u :: 0 <= k < 3 && 0 <= u < 9 ==> Distinct(UnitValues(g, k, u))
    ensures ValidGrid(g)
  {
    forall k, i, j | 0 <= k < 3 && 0 <= i < j < CELLS && UnitOf(k, i) == UnitOf(k, j)
      ensures g[i] != g[j]
    {
      var u := UnitOf(k, i);
      var s, a, b := UnitValues(g, k, u), PlaceIn(k, i), PlaceIn(k, j);
      UnitCells(k, u, a, i);
      UnitCells(k, u, b, j);
      assert s[a] == g[i] && s[b] == g[j];
    }
  }

  lemma ValidUnit(g: seq<int>, k: nat, u: nat)
    requires ValidGrid(g) && k < 3 && u < 9
    ensures Distinct(UnitValues(g, k, u))
  {
    var s := UnitValues(g, k, u);
    forall a, b | 0 <= a < b < 9
      ensures s[a] != s[b]
    {
      UnitCells(k, u, a, 0);
      UnitCells(k, u, b, 0);
    }
  }

  /** A grid in which every unit holds every value is valid. */
  lemma SurjectiveIsValid(g: seq<int>)
    requires |g| == CELLS && (forall i :: 0 <= i < CELLS ==> 1 <= g[i] <= 9)
    requires forall k, u, v :: 0 <= k < 3 && 0 <= u < 9 && 1 <= v <= 9 ==> v in UnitValues(g, k, u)
    ensures ValidGrid(g)
  {
    forall k, u | 0 <= k < 3 && 0 <= u < 9
      ensures Distinct(UnitValues(g, k, u))
    {
      OntoIsDistinct(UnitValues(g, k, u), 1);
    }
    UnitsAreValid(g);
  }

  /** In a valid grid every unit holds every value. */
  lemma ValidIsSurjective(g: seq<int>, k: nat, u: nat, v: int) returns (i: nat)
    requires ValidGrid(g) && k < 3 && u < 9 && 1 <= v <= 9
    ensures i < CELLS && UnitOf(k, i) == u && g[i] == v
  {
    var s := UnitValues(g, k, u);
    ValidUnit(g, k, u);
    DistinctIsOnto(s, 1, v);
    var j :| 0 <= j < 9 && s[j] == v;
    UnitCells(k, u, j, 0);
    i := CellOf(k, u, j);
  }
}

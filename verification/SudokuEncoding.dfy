/** The exact-cover encoding of a Sudoku puzzle, and why its covers are the puzzle's solutions. */
module SudokuEncoding {
  import opened LinkMatrix
  import EC = ExactCover
  import opened SudokuRules
  import opened SudokuSearch

  const NAMES := 400

  /** The constraint that unit u of kind k holds value v: kRow, kCol, kBox are 100, 200, 300. */
  function Slot(k: nat, u: nat, v: nat): (n: nat)
    requires k < 3 && u < 9 && 1 <= v <= 9
    ensures 100 < n < NAMES && n / 100 - 1 == k && n % 100 / 10 == u && n % 10 == v
  {
    100 * (k + 1) + 10 * u + v
  }

  lemma SlotOf(n: nat)
    requires 100 <= n < NAMES && n % 100 / 10 < 9 && 1 <= n % 10
    ensures n / 100 - 1 < 3 && n == Slot(n / 100 - 1, n % 100 / 10, n % 10)
  {
  }

  ghost predicate Given(board: seq<int>, k: nat, u: nat, v: int)
    requires |board| == CELLS && k < 3
  {
    exists i :: 0 <= i < CELLS && UnitOf(k, i) == u && board[i] == v
  }

  /** Value v may go into the empty cell i as far as the givens are concerned. */
  ghost predicate Allowed(board: seq<int>, i: nat, v: nat)
    requires |board| == CELLS
  {
    i < CELLS && board[i] == 0 && 1 <= v <= 9
    && forall k :: 0 <= k < 3 ==> !Given(board, k, UnitOf(k, i), v)
  }

  /** The constraints that still have to be met: fill every empty cell, and put every missing value into every unit. */
  ghost predicate Needed(board: seq<int>, n: nat)
    requires |board| == CELLS
  {
    if n < 100 then n < CELLS && board[n] == 0
    else n < NAMES && n % 100 / 10 < 9 && 1 <= n % 10 && !Given(board, n / 100 - 1, n % 100 / 10, n % 10)
  }

  lemma NeededSlot(board: seq<int>, k: nat, u: nat, v: nat)
    requires |board| == CELLS && k < 3 && u < 9 && 1 <= v <= 9
    ensures Needed(board, Slot(k, u, v)) <==> !Given(board, k, u, v)
  {
  }

  /** The constraint n is one of the four that writing v into cell i meets. */
  ghost predicate Meets4(i: nat, v: nat, n: nat)
    requires i < CELLS && 1 <= v <= 9
  {
    n == i || n == Slot(0, UnitOf(0, i), v) || n == Slot(1, UnitOf(1, i), v) || n == Slot(2, UnitOf(2, i), v)
  }

  lemma MeetsSlot(i: nat, v: nat, k: nat, u: nat, w: nat)
    requires i < CELLS && 1 <= v <= 9 && k < 3 && u < 9 && 1 <= w <= 9
    ensures Meets4(i, v, Slot(k, u, w)) <==> UnitOf(k, i) == u && v == w
  {
  }

  lemma MeetsNeeded(board: seq<int>, i: nat, v: nat, n: nat)
    requires |board| == CELLS && Allowed(board, i, v) && Meets4(i, v, n)
    ensures Needed(board, n)
  {
  }

  /** Row r has its nodes in the columns of exactly those four constraints. */
  ghost predicate HitsFour(m: Matrix, cols: seq<nat>, i: nat, v: nat, r: nat)
    requires |cols| == NAMES && i < CELLS && 1 <= v <= 9
  {
    forall c :: Hits(m, r, c) <==> exists n :: 0 <= n < NAMES && Meets4(i, v, n) && cols[n] == c
  }

  ghost predicate ColumnsEncode(m: Matrix, cols: seq<nat>, board: seq<int>)
    requires |cols| == NAMES && |board| == CELLS
  {
    && (forall n :: 0 <= n < NAMES && Needed(board, n) ==> cols[n] in m.headers)
    && (forall n, n' :: 0 <= n < n' < NAMES && Needed(board, n) && Needed(board, n') ==> cols[n] != cols[n'])
    && (forall c :: c in m.headers ==> exists n :: 0 <= n < NAMES && Needed(board, n) && cols[n] == c)
  }

  ghost predicate RowEncodes(m: Matrix, cols: seq<nat>, rd: Reading, board: seq<int>, r: nat)
    requires |cols| == NAMES && |board| == CELLS
  {
    && r in rd.cell && r in rd.val && Allowed(board, rd.cell[r], rd.val[r])
    && HitsFour(m, cols, rd.cell[r], rd.val[r], r)
  }

  ghost predicate HasRow(m: Matrix, rd: Reading, i: nat, v: nat) {
    exists r :: r in m.rows && r in rd.cell && r in rd.val && rd.cell[r] == i && rd.val[r] == v
  }

  /** The columns are the needed constraints and the rows are the allowed placements. */
  ghost predicate Encodes(m: Matrix, cols: seq<nat>, rd: Reading, board: seq<int>) {
    && |cols| == NAMES && |board| == CELLS
    && ColumnsEncode(m, cols, board)
    && (forall r :: r in m.rows ==> RowEncodes(m, cols, rd, board, r))
    && (forall i, v :: Allowed(board, i, v) ==> HasRow(m, rd, i, v))
  }

  lemma ReadableRows(m: Matrix, cols: seq<nat>, rd: Reading, board: seq<int>)
    requires Encodes(m, cols, rd, board)
    ensures Readable(m, rd)
  {
    forall r | r in m.rows
      ensures r in rd.cell && rd.cell[r] < CELLS && r in rd.val
    {
      assert RowEncodes(m, cols, rd, board, r);
    }
  }

  /** Of two needed constraints only one can have a given column. */
  lemma SameColumn(m: Matrix, cols: seq<nat>, board: seq<int>, n: nat, n': nat)
    requires |cols| == NAMES && |board| == CELLS && ColumnsEncode(m, cols, board)
    requires n < NAMES && n' < NAMES && Needed(board, n) && Needed(board, n') && cols[n] == cols[n']
    ensures n == n'
  {
  }

  /** A needed constraint's column is hit by exactly the rows that meet the constraint. */
  lemma HitsMeets(m: Matrix, cols: seq<nat>, rd: Reading, board: seq<int>, r: nat, n: nat)
    requires Encodes(m, cols, rd, board) && r in m.rows && n < NAMES && Needed(board, n)
    ensures RowEncodes(m, cols, rd, board, r)
    ensures Hits(m, r, cols[n]) <==> Meets4(rd.cell[r], rd.val[r], n)
  {
    hide Needed, Meets4;
    assert RowEncodes(m, cols, rd, board, r);
    if Hits(m, r, cols[n]) {
      var n' :| 0 <= n' < NAMES && Meets4(rd.cell[r], rd.val[r], n') && cols[n'] == cols[n];
      MeetsNeeded(board, rd.cell[r], rd.val[r], n');
      SameColumn(m, cols, board, n, n');
    }
  }

  // ---------------------------------------------------------------- a cover is a solution

  ghost predicate CellsDiffer(m: Matrix, rd: Reading, xs: seq<nat>) {
    && ValidRows(m) && OnRows(m, xs) && Readable(m, rd)
    && forall i, j :: 0 <= i < j < |xs| ==> rd.cell[m.rowOf[xs[i]]] != rd.cell[m.rowOf[xs[j]]]
  }

  /** Writing rows with different cells puts every value where it belongs and leaves the other cells alone. */
  lemma {:induction false} FilledCells(board: seq<int>, m: Matrix, rd: Reading, xs: seq<nat>)
    requires |board| == CELLS && CellsDiffer(m, rd, xs)
    ensures forall i :: 0 <= i < |xs| ==> Filled(board, m, rd, xs)[rd.cell[m.rowOf[xs[i]]]] == rd.val[m.rowOf[xs[i]]]
    ensures forall j :: 0 <= j < CELLS && (forall i :: 0 <= i < |xs| ==> rd.cell[m.rowOf[xs[i]]] != j) ==>
      Filled(board, m, rd, xs)[j] == board[j]
  {
    if xs == [] {
    } else {
      var front, k := xs[..|xs| - 1], |xs| - 1;
      FilledCells(board, m, rd, front);
      var g, r := Filled(board, m, rd, front), m.rowOf[xs[k]];
      RowOfIn(m, xs[k]);
      forall i | 0 <= i < |xs|
        ensures Filled(board, m, rd, xs)[rd.cell[m.rowOf[xs[i]]]] == rd.val[m.rowOf[xs[i]]]
      {
        if i < k {
          assert front[i] == xs[i];
        }
      }
      forall j | 0 <= j < CELLS && (forall i :: 0 <= i < |xs| ==> rd.cell[m.rowOf[xs[i]]] != j)
        ensures Filled(board, m, rd, xs)[j] == board[j]
      {
        assert rd.cell[m.rowOf[xs[k]]] != j;
      }
    }
  }

  lemma RowOfIn(m: Matrix, x: nat)
    requires ValidRows(m) && x in m.rowOf
    ensures m.rowOf[x] in m.rows
  {
  }

  lemma PicksCells(m: Matrix, cols: seq<nat>, rd: Reading, board: seq<int>, xs: seq<nat>)
    requires Valid(m) && Encodes(m, cols, rd, board) && Picks(m, [], xs)
    ensures CellsDiffer(m, rd, xs)
  {
    hide ValidHeaders, ValidColumns, OnePerColumn, Encodes;
    ReadableRows(m, cols, rd, board);
    forall i, j | 0 <= i < j < |xs|
      ensures rd.cell[m.rowOf[xs[i]]] != rd.cell[m.rowOf[xs[j]]]
    {
      var a, b := m.rowOf[xs[i]], m.rowOf[xs[j]];
      assert a in RowsOf(m, xs) && b in RowsOf(m, xs);
      CellNeeded(m, cols, rd, board, a);
      CellNeeded(m, cols, rd, board, b);
    }
  }

  /** A row hits the column of its own cell. */
  lemma CellNeeded(m: Matrix, cols: seq<nat>, rd: Reading, board: seq<int>, r: nat)
    requires Encodes(m, cols, rd, board) && r in m.rows
    ensures RowEncodes(m, cols, rd, board, r) && Hits(m, r, cols[rd.cell[r]])
  {
    assert RowEncodes(m, cols, rd, board, r);
    HitsMeets(m, cols, rd, board, r, rd.cell[r]);
  }

  /** Every needed constraint is met by one of the picked rows. */
  lemma PickFor(m: Matrix, cols: seq<nat>, rd: Reading, board: seq<int>, xs: seq<nat>, n: nat) returns (i: nat)
    requires Valid(m) && Encodes(m, cols, rd, board) && Picks(m, [], xs) && n < NAMES && Needed(board, n)
    ensures i < |xs| && m.rowOf[xs[i]] in m.rows && RowEncodes(m, cols, rd, board, m.rowOf[xs[i]])
    ensures Meets4(rd.cell[m.rowOf[xs[i]]], rd.val[m.rowOf[xs[i]]], n)
  {
    hide Valid, Needed, Meets4, HitsFour;
    assert cols[n] in m.headers;
    var r :| r in RowsOf(m, xs) && Hits(m, r, cols[n]);
    i :| 0 <= i < |xs| && m.rowOf[xs[i]] == r;
    HitsMeets(m, cols, rd, board, r, n);
  }

  lemma FilledValues(m: Matrix, cols: seq<nat>, rd: Reading, board: seq<int>, xs: seq<nat>, j: nat)
    requires Valid(m) && Encodes(m, cols, rd, board) && Picks(m, [], xs) && IsBoard(board) && j < CELLS
    requires CellsDiffer(m, rd, xs)
    ensures 1 <= Filled(board, m, rd, xs)[j] <= 9
    ensures board[j] != 0 ==> Filled(board, m, rd, xs)[j] == board[j]
  {
    hide Valid, ValidRows, Filled, HitsFour;
    FilledCells(board, m, rd, xs);
    if board[j] == 0 {
      var i := PickFor(m, cols, rd, board, xs, j);
    } else {
      forall i | 0 <= i < |xs|
        ensures rd.cell[m.rowOf[xs[i]]] != j
      {
        RowOfIn(m, xs[i]);
        assert RowEncodes(m, cols, rd, board, m.rowOf[xs[i]]);
      }
    }
  }

  lemma FilledUnit(m: Matrix, cols: seq<nat>, rd: Reading, board: seq<int>, xs: seq<nat>, k: nat, u: nat, v: nat)
    requires Valid(m) && Encodes(m, cols, rd, board) && Picks(m, [], xs) && IsBoard(board)
    requires CellsDiffer(m, rd, xs) && k < 3 && u < 9 && 1 <= v <= 9
    ensures v in UnitValues(Filled(board, m, rd, xs), k, u)
  {
    hide Valid, ValidRows, Filled, HitsFour, Encodes, Picks;
    var g := Filled(board, m, rd, xs);
    var j: nat;
    if Given(board, k, u, v) {
      j :| 0 <= j < CELLS && UnitOf(k, j) == u && board[j] == v;
      FilledValues(m, cols, rd, board, xs, j);
    } else {
      NeededSlot(board, k, u, v);
      var i := PickFor(m, cols, rd, board, xs, Slot(k, u, v));
      j := rd.cell[m.rowOf[xs[i]]];
      MeetsSlot(j, rd.val[m.rowOf[xs[i]]], k, u, v);
      FilledCells(board, m, rd, xs);
    }
    UnitCells(k, u, 0, j);
    assert UnitValues(g, k, u)[PlaceIn(k, j)] == v;
  }

  /** Every exact cover of the encoding writes out a solution, even when the givens contradict each other:
      nine cells of a unit that hold all nine values hold each of them once. */
  lemma CoverCompletes(m: Matrix, cols: seq<nat>, rd: Reading, board: seq<int>, xs: seq<nat>)
    requires Valid(m) && Encodes(m, cols, rd, board) && Picks(m, [], xs) && IsBoard(board)
    ensures Readable(m, rd) && Completes(Filled(board, m, rd, xs), board)
  {
    hide Valid, Filled, Encodes, Picks, ValidGrid;
    PicksCells(m, cols, rd, board, xs);
    var g := Filled(board, m, rd, xs);
    forall j | 0 <= j < CELLS
      ensures 1 <= g[j] <= 9 && (board[j] != 0 ==> g[j] == board[j])
    {
      FilledValues(m, cols, rd, board, xs, j);
    }
    forall k, u, v | 0 <= k < 3 && 0 <= u < 9 && 1 <= v <= 9
      ensures v in UnitValues(g, k, u)
    {
      FilledUnit(m, cols, rd, board, xs, k, u, v);
    }
    SurjectiveIsValid(g);
  }

  // ---------------------------------------------------------------- a solution is a cover

  /** A solution only makes allowed placements. */
  lemma SolutionAllowed(g: seq<int>, board: seq<int>, i: nat)
    requires Completes(g, board) && i < CELLS && board[i] == 0
    ensures Allowed(board, i, g[i])
  {
    forall k | 0 <= k < 3
      ensures !Given(board, k, UnitOf(k, i), g[i])
    {
    }
  }

  ghost function RowFor(m: Matrix, rd: Reading, i: nat, v: nat): (r: nat)
    requires HasRow(m, rd, i, v)
    ensures r in m.rows && r in rd.cell && r in rd.val && rd.cell[r] == i && rd.val[r] == v
  {
    var r :| r in m.rows && r in rd.cell && r in rd.val && rd.cell[r] == i && rd.val[r] == v;
    r
  }

  /** The rows that a solution picks, one for each empty cell. */
  ghost function SolutionRows(m: Matrix, rd: Reading, board: seq<int>, g: seq<int>): (rs: set<nat>)
    requires |board| == CELLS && |g| == CELLS
  {
    set i | 0 <= i < CELLS && board[i] == 0 && 0 <= g[i] && HasRow(m, rd, i, g[i]) :: RowFor(m, rd, i, g[i])
  }

  lemma SolutionRow(m: Matrix, cols: seq<nat>, rd: Reading, board: seq<int>, g: seq<int>, i: nat)
    requires Encodes(m, cols, rd, board) && Completes(g, board) && i < CELLS && board[i] == 0
    ensures HasRow(m, rd, i, g[i]) && RowFor(m, rd, i, g[i]) in SolutionRows(m, rd, board, g)
  {
    SolutionAllowed(g, board, i);
  }

  /** Two rows of a solution share no column. */
  lemma SolutionDisjoint(m: Matrix, cols: seq<nat>, rd: Reading, board: seq<int>, g: seq<int>, a: nat, b: nat, c: nat)
    requires Encodes(m, cols, rd, board) && Completes(g, board)
    requires a in SolutionRows(m, rd, board, g) && b in SolutionRows(m, rd, board, g) && Hits(m, a, c) && Hits(m, b, c)
    ensures a == b
  {
    hide Needed, Meets4, Allowed;
    var i :| 0 <= i < CELLS && board[i] == 0 && 0 <= g[i] && HasRow(m, rd, i, g[i]) && RowFor(m, rd, i, g[i]) == a;
    var j :| 0 <= j < CELLS && board[j] == 0 && 0 <= g[j] && HasRow(m, rd, j, g[j]) && RowFor(m, rd, j, g[j]) == b;
    assert RowEncodes(m, cols, rd, board, a) && RowEncodes(m, cols, rd, board, b);
    SolutionAllowed(g, board, i);
    SolutionAllowed(g, board, j);
    var n :| 0 <= n < NAMES && Meets4(i, g[i], n) && cols[n] == c;
    var n' :| 0 <= n' < NAMES && Meets4(j, g[j], n') && cols[n'] == c;
    MeetsNeeded(board, i, g[i], n);
    MeetsNeeded(board, j, g[j], n');
    SameColumn(m, cols, board, n, n');
    SharedConstraint(g, i, j, n);
  }

  lemma SharedConstraint(g: seq<int>, i: nat, j: nat, n: nat)
    requires ValidGrid(g) && i < CELLS && j < CELLS && Meets4(i, g[i], n) && Meets4(j, g[j], n)
    ensures i == j
  {
    if n >= 100 {
      var k := n / 100 - 1;
      assert UnitOf(k, i) == UnitOf(k, j) && g[i] == g[j];
    }
  }

  /** A solution meets every needed constraint in an empty cell. */
  lemma SolutionCell(g: seq<int>, board: seq<int>, n: nat) returns (i: nat)
    requires Completes(g, board) && n < NAMES && Needed(board, n)
    ensures i < CELLS && board[i] == 0 && Meets4(i, g[i], n)
  {
    if n < 100 {
      i := n;
    } else {
      hide Slot, UnitOf, Meets4;
      var k, u, v := n / 100 - 1, n % 100 / 10, n % 10;
      SlotOf(n);
      i := ValidIsSurjective(g, k, u, v);
      MeetsSlot(i, g[i], k, u, v);
    }
  }

  lemma SolutionHits(m: Matrix, cols: seq<nat>, rd: Reading, board: seq<int>, g: seq<int>, n: nat) returns (r: nat)
    requires Encodes(m, cols, rd, board) && Completes(g, board) && n < NAMES && Needed(board, n)
    ensures r in SolutionRows(m, rd, board, g) && Hits(m, r, cols[n])
  {
    hide Encodes, Needed, Meets4, ValidGrid, HitsFour, SolutionRows;
    var i := SolutionCell(g, board, n);
    SolutionRow(m, cols, rd, board, g, i);
    r := RowFor(m, rd, i, g[i]);
    HitsMeets(m, cols, rd, board, r, n);
  }

  /** Every solution of the puzzle is an exact cover of the encoding. */
  lemma SolutionCovers(m: Matrix, cols: seq<nat>, rd: Reading, board: seq<int>, g: seq<int>)
    requires Valid(m) && Encodes(m, cols, rd, board) && Completes(g, board)
    ensures EC.IsCover(m, [], SolutionRows(m, rd, board, g))
  {
    hide Valid, HitsFour, Allowed, ValidGrid;
    var rs := SolutionRows(m, rd, board, g);
    forall a, b, c | a in rs && b in rs && Hits(m, a, c) && Hits(m, b, c)
      ensures a == b
    {
      SolutionDisjoint(m, cols, rd, board, g, a, b, c);
    }
    forall c | c in m.headers
      ensures exists r :: r in rs && Hits(m, r, c)
    {
      var n :| 0 <= n < NAMES && Needed(board, n) && cols[n] == c;
      var r := SolutionHits(m, cols, rd, board, g, n);
    }
  }
}

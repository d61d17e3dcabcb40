/** The Sudoku solver of muduo's sudoku example. */
module SudokuSolver {
  import opened Chains
  import LM = LinkMatrix
  import EC = ExactCover
  import MB = MatrixBuild
  import opened DancingLinks
  import opened SudokuRules
  import opened SudokuSearch
  import opened SudokuEncoding
  import opened SudokuBuild

  const MAX_NODES := 1 + 81 * 4 + 9 * 9 * 9 * 4

  // ---------------------------------------------------------------- which values the givens use up

  ghost predicate GivenBelow(board: seq<int>, k: nat, u: nat, v: int, n: nat)
    requires |board| == CELLS && k < 3
  {
    exists i :: 0 <= i < n && i < CELLS && UnitOf(k, i) == u && board[i] == v
  }

  /** t[u, v] tells whether one of the first n cells, in unit u of kind k, holds v. */
  ghost predicate TableOf(t: array2<bool>, board: seq<int>, k: nat, n: nat)
    requires |board| == CELLS && k < 3
    reads t
  {
    && t.Length0 == CELLS && t.Length1 == 10
    && forall u, v :: 0 <= u < 9 && 0 <= v < 10 ==> (t[u, v] <==> GivenBelow(board, k, u, v, n))
  }

  lemma GivenBelowStep(board: seq<int>, k: nat, u: nat, v: int, n: nat)
    requires |board| == CELLS && k < 3 && n < CELLS
    ensures GivenBelow(board, k, u, v, n + 1) <==> GivenBelow(board, k, u, v, n) || (UnitOf(k, n) == u && board[n] == v)
  {
    if GivenBelow(board, k, u, v, n + 1) {
      var i :| 0 <= i < n + 1 && i < CELLS && UnitOf(k, i) == u && board[i] == v;
      assert i == n || GivenBelow(board, k, u, v, n);
    }
    if GivenBelow(board, k, u, v, n) {
      var i :| 0 <= i < n && i < CELLS && UnitOf(k, i) == u && board[i] == v;
      assert i < n + 1;
    }
  }

  lemma GivenBelowAll(board: seq<int>, k: nat, u: nat, v: int)
    requires |board| == CELLS && k < 3
    ensures GivenBelow(board, k, u, v, CELLS) <==> Given(board, k, u, v)
  {
  }

  method Mark(t: array2<bool>, board: seq<int>, k: nat, n: nat)
    requires IsBoard(board) && k < 3 && n < CELLS && TableOf(t, board, k, n)
    modifies t
    ensures TableOf(t, board, k, n + 1)
  {
    hide GivenBelow;
    forall u, v | 0 <= u < 9 && 0 <= v < 10
      ensures GivenBelow(board, k, u, v, n + 1) <==> GivenBelow(board, k, u, v, n) || (UnitOf(k, n) == u && board[n] == v)
    {
      GivenBelowStep(board, k, u, v, n);
    }
    t[UnitOf(k, n), board[n]] := true;
  }

  method GivenTables(board: array<int>) returns (rows: array2<bool>, cols: array2<bool>, boxes: array2<bool>)
    requires board.Length == CELLS && IsBoard(board[..])
    ensures fresh(rows) && fresh(cols) && fresh(boxes)
    ensures TableOf(rows, board[..], 0, CELLS) && TableOf(cols, board[..], 1, CELLS) && TableOf(boxes, board[..], 2, CELLS)
  {
    rows := new bool[CELLS, 10]((_, _) => false);
    cols := new bool[CELLS, 10]((_, _) => false);
    boxes := new bool[CELLS, 10]((_, _) => false);
    for i := 0 to CELLS
      invariant fresh(rows) && fresh(cols) && fresh(boxes) && rows != cols && rows != boxes && cols != boxes
      invariant TableOf(rows, board[..], 0, i) && TableOf(cols, board[..], 1, i) && TableOf(boxes, board[..], 2, i)
      modifies rows, cols, boxes
    {
      Mark(rows, board[..], 0, i);
      Mark(cols, board[..], 1, i);
      Mark(boxes, board[..], 2, i);
    }
  }

  class Solver {
    const nodes: NodeArray
    const inout: array<int>
    const columns: array<nat>  // the column of each constraint name, 0 for none
    const root: nat
    var stack: seq<nat>
    ghost var matrix: LM.Matrix
    ghost var reading: Reading

    ghost predicate Shape() {
      && nodes.Shape() && inout.Length == CELLS && columns.Length == NAMES
      && inout as object !in {nodes.left as object, nodes.right as object, nodes.up as object, nodes.down as object,
                              nodes.col as object, nodes.size as object, nodes.name as object, columns as object}
      && columns as object !in {nodes.left as object, nodes.right as object, nodes.up as object, nodes.down as object,
                                nodes.col as object, nodes.size as object, nodes.name as object}
    }

    // ---------------------------------------------------------------- construction

    /** The columns for ns are in place and there are no rows yet. */
    ghost predicate HasColumns(ns: set<nat>)
      reads this, nodes, nodes.left, nodes.right, nodes.up, nodes.down, nodes.col, nodes.size, columns
    {
      && MB.Built(matrix, nodes.View(), nodes.cur) && root == matrix.root == 0
      && ColumnsFor(matrix, columns[..], ns)
    }

    method AppendColumn(n: nat, ghost ns: set<nat>)
      requires Shape() && HasColumns(ns) && n < NAMES && n !in ns && nodes.cur < nodes.size.Length
      modifies nodes.left, nodes.right, nodes.up, nodes.down, nodes.col, nodes.size, nodes.name, nodes`cur, columns, this`matrix
      ensures HasColumns(ns + {n}) && nodes.cur == old(nodes.cur) + 1
    {
      hide MB.Built, MB.Fresh, ColumnsFor;
      MB.BuiltClosed(matrix, nodes.View(), nodes.cur);
      NotYet(matrix, columns[..], ns, n);
      assert columns[n] == 0;
      FreshHeader(matrix, nodes.cur);
      AppendedColumn(matrix, columns[..], ns, n, nodes.cur);
      var c := nodes.AppendColumn(root, n, matrix);
      columns[n] := c;
      matrix := MB.AddColumn(matrix, c);
    }

    method AppendSlot(k: nat, u: nat, v: nat, taken: bool, ghost board: seq<int>)
      requires Shape() && |board| == CELLS && u < 9 && 1 <= v <= 9 && k < 3
      requires HasColumns(NamesAt(board, u, v, k)) && (taken <==> Given(board, k, u, v)) && nodes.cur < nodes.size.Length
      modifies nodes.left, nodes.right, nodes.up, nodes.down, nodes.col, nodes.size, nodes.name, nodes`cur, columns, this`matrix
      ensures HasColumns(NamesAt(board, u, v, k + 1)) && nodes.cur <= old(nodes.cur) + 1
    {
      hide MB.Built, ColumnsFor, NamesAt, Given;
      NamesStep(board, u, v, k);
      if !taken {
        AppendColumn(Slot(k, u, v), NamesAt(board, u, v, k));
      }
      assert NamesAt(board, u, v, k) + {} == NamesAt(board, u, v, k);
    }

    method AppendCells()
      requires Shape() && IsBoard(inout[..]) && HasColumns({}) && nodes.cur == 1 && nodes.size.Length == MAX_NODES
      modifies nodes.left, nodes.right, nodes.up, nodes.down, nodes.col, nodes.size, nodes.name, nodes`cur, columns, this`matrix
      ensures HasColumns(NamesAt(inout[..], 0, 1, 0)) && nodes.cur <= 1 + CELLS
    {
      hide MB.Built, ColumnsFor;
      assert CellNames(inout[..], 0) == {};
      for i := 0 to CELLS
        invariant HasColumns(CellNames(inout[..], i)) && nodes.cur <= 1 + i
        invariant inout[..] == old(inout[..])
      {
        CellStep(inout[..], i);
        if inout[i] == 0 {
          AppendColumn(i, CellNames(inout[..], i));
        }
      }
      NamesStart(inout[..]);
    }

    /** One column for every empty cell and for every value that a row, column or box still lacks. */
    method AppendSlots(rows: array2<bool>, cols: array2<bool>, boxes: array2<bool>)
      requires Shape() && IsBoard(inout[..]) && HasColumns(NamesAt(inout[..], 0, 1, 0))
      requires TableOf(rows, inout[..], 0, CELLS) && TableOf(cols, inout[..], 1, CELLS) && TableOf(boxes, inout[..], 2, CELLS)
      requires nodes.cur <= 1 + CELLS && nodes.size.Length == MAX_NODES
      modifies nodes.left, nodes.right, nodes.up, nodes.down, nodes.col, nodes.size, nodes.name, nodes`cur, columns, this`matrix
      ensures HasColumns(NamesAt(inout[..], 9, 1, 0)) && nodes.cur <= 1 + CELLS + 243
    {
      hide MB.Built, ColumnsFor, NamesAt, GivenBelow, Given;
      ghost var board := inout[..];
      for i := 0 to 9
        invariant HasColumns(NamesAt(board, i, 1, 0)) && nodes.cur <= 1 + CELLS + 27 * i
        invariant inout[..] == board
      {
        for v := 1 to 10
          invariant HasColumns(NamesAt(board, i, v, 0)) && nodes.cur <= 1 + CELLS + 27 * i + 3 * (v - 1)
          invariant inout[..] == board
        {
          GivenBelowAll(board, 0, i, v);
          GivenBelowAll(board, 1, i, v);
          GivenBelowAll(board, 2, i, v);
          AppendSlot(0, i, v, rows[i, v], board);
          AppendSlot(1, i, v, cols[i, v], board);
          AppendSlot(2, i, v, boxes[i, v], board);
          NamesNext(board, i, v);
        }
        NamesNext(board, i, 1);
      }
    }

    /** All placements before value v of cell i have their rows. */
    ghost predicate HasRows(board: seq<int>, i: nat, v: nat)
      reads this, nodes, nodes.left, nodes.right, nodes.up, nodes.down, nodes.col, nodes.size, nodes.name, columns
    {
      && MB.Built(matrix, nodes.View(), nodes.cur) && root == matrix.root
      && RowsFor(matrix, columns[..], nodes.name[..], reading, board, i, v)
    }

    method AddPlacement(i: nat, v: nat, ghost board: seq<int>)
      requires Shape() && |board| == CELLS && HasRows(board, i, v) && Allowed(board, i, v)
      requires nodes.cur + 4 <= nodes.size.Length
      modifies nodes.left, nodes.right, nodes.up, nodes.down, nodes.col, nodes.size, nodes.name, nodes`cur, this`matrix, this`reading
      ensures HasRows(board, i, v + 1) && nodes.cur == old(nodes.cur) + 4
    {
      hide MB.Built, MB.Place, RowsFor, LM.Valid, MB.Unused, Slot, Allowed;
      AllowedRange(board, i, v);
      var n0, n1, n2 := Slot(0, UnitOf(0, i), v), Slot(1, UnitOf(1, i), v), Slot(2, UnitOf(2, i), v);
      MB.BuiltUnused(matrix, nodes.View(), nodes.cur);
      ReadyToPlace(matrix, columns[..], nodes.name[..], reading, board, i, v, nodes.cur);
      RowsPlace(matrix, columns[..], nodes.name[..], reading, board, i, v, nodes.cur,
                columns[i], columns[n0], columns[n1], columns[n2]);
      MB.PlaceShape(matrix, nodes.cur, columns[i], columns[n0], columns[n1], columns[n2]);
      var x := nodes.AddPlacement(columns[i], columns[n0], columns[n1], columns[n2], i, n0, n1, n2, matrix);
      matrix := MB.Place(matrix, x, columns[i], columns[n0], columns[n1], columns[n2]);
      reading := WithRow(reading, x, i, v);
    }

    method AddCell(i: nat, rows: array2<bool>, cols: array2<bool>, boxes: array2<bool>)
      requires Shape() && IsBoard(inout[..]) && i < CELLS && inout[i] == 0 && HasRows(inout[..], i, 1)
      requires TableOf(rows, inout[..], 0, CELLS) && TableOf(cols, inout[..], 1, CELLS) && TableOf(boxes, inout[..], 2, CELLS)
      requires nodes.cur + 36 <= nodes.size.Length
      modifies nodes.left, nodes.right, nodes.up, nodes.down, nodes.col, nodes.size, nodes.name, nodes`cur, this`matrix, this`reading
      ensures HasRows(inout[..], i + 1, 1) && nodes.cur <= old(nodes.cur) + 36
    {
      hide MB.Built, RowsFor, GivenBelow, Given;
      ghost var board := inout[..];
      var row := UnitOf(0, i);
      var col := UnitOf(1, i);
      var box := UnitOf(2, i);
      for v := 1 to 10
        invariant HasRows(board, i, v) && nodes.cur <= old(nodes.cur) + 4 * (v - 1)
        invariant inout[..] == board
      {
        GivenBelowAll(board, 0, row, v);
        GivenBelowAll(board, 1, col, v);
        GivenBelowAll(board, 2, box, v);
        RowsSkip(matrix, columns[..], nodes.name[..], reading, board, i, v);
        if !(rows[row, v] || cols[col, v] || boxes[box, v]) {
          AddPlacement(i, v, board);
        }
      }
      RowsSkip(matrix, columns[..], nodes.name[..], reading, board, i, 10);
    }

    /** One row for every value that an empty cell may take. */
    method AddCells(rows: array2<bool>, cols: array2<bool>, boxes: array2<bool>)
      requires Shape() && IsBoard(inout[..]) && HasRows(inout[..], 0, 1)
      requires TableOf(rows, inout[..], 0, CELLS) && TableOf(cols, inout[..], 1, CELLS) && TableOf(boxes, inout[..], 2, CELLS)
      requires nodes.cur <= 1 + CELLS + 243 && nodes.size.Length == MAX_NODES
      modifies nodes.left, nodes.right, nodes.up, nodes.down, nodes.col, nodes.size, nodes.name, nodes`cur, this`matrix, this`reading
      ensures HasRows(inout[..], CELLS, 1)
    {
      hide MB.Built, RowsFor, TableOf;
      ghost var board := inout[..];
      for i := 0 to CELLS
        invariant HasRows(board, i, 1) && nodes.cur <= 1 + CELLS + 243 + 36 * i
        invariant inout[..] == board
      {
        RowsSkip(matrix, columns[..], nodes.name[..], reading, board, i, 1);
        if inout[i] == 0 {
          AddCell(i, rows, cols, boxes);
        }
      }
    }

    method Build()
      requires Shape() && IsBoard(inout[..]) && nodes.cur == 0 && nodes.size.Length == MAX_NODES && root == 0
      requires LM.Closed(nodes.View()) && forall n :: 0 <= n < NAMES ==> columns[..][n] == 0
      modifies nodes.left, nodes.right, nodes.up, nodes.down, nodes.col, nodes.size, nodes.name, nodes`cur
      modifies columns, this`matrix, this`reading
      ensures LM.Rep(matrix, nodes.View(), []) && root == matrix.root
      ensures Named(matrix, nodes.name[..], reading) && Encodes(matrix, columns[..], reading, inout[..])
    {
      hide MB.Built, MB.Whole, RowsFor, LM.Rep, Named, Encodes, NamesAt, TableOf, ColumnsFor;
      var r := nodes.NewNode(0);
      matrix, reading := MB.EmptyMatrix(0), Reading(map[], map[]);
      NothingBuilt(nodes.View(), columns[..]);
      var rows, cols, boxes := GivenTables(inout);
      AppendCells();
      AppendSlots(rows, cols, boxes);
      RowsStart(matrix, columns[..], nodes.name[..], inout[..]);
      AddCells(rows, cols, boxes);
      RowsDone(matrix, columns[..], nodes.name[..], reading, inout[..]);
      MB.BuiltRep(matrix, nodes.View(), nodes.cur);
    }

    /** Encodes the puzzle; every assertion the original makes on the way holds. */
    constructor (board: array<int>)
      requires board.Length == CELLS && IsBoard(board[..])
      ensures Shape() && inout == board && stack == [] && fresh(nodes) && fresh(columns)
      ensures fresh(nodes.left) && fresh(nodes.right) && fresh(nodes.up) && fresh(nodes.down) && fresh(nodes.col)
           && fresh(nodes.size) && fresh(nodes.name)
      ensures LM.Rep(matrix, nodes.View(), []) && root == matrix.root
      ensures Named(matrix, nodes.name[..], reading) && Encodes(matrix, columns[..], reading, board[..])
    {
      inout := board;
      stack := [];
      nodes := new NodeArray(MAX_NODES);
      columns := new nat[NAMES](_ => 0);
      root := 0;
      new;
      hide LM.Rep, Named, Encodes;
      Build();
    }

    // ---------------------------------------------------------------- search

    /** Goes right round a row until it has seen both the cell and the value. */
    method DecodeRow(x: nat, ghost m: LM.Matrix, ghost ks: seq<nat>, ghost rd: Reading) returns (cell: int, val: int)
      requires Shape() && LM.Rep(m, nodes.View(), ks) && Named(m, nodes.name[..], rd) && x in m.rowOf
      ensures m.rowOf[x] in m.rows && cell == rd.cell[m.rowOf[x]] && val == rd.val[m.rowOf[x]]
    {
      hide LM.Rep, LM.Valid, LM.Closed, EC.RoundFrom, EC.RestColumns, Named;
      EC.RepClosed(m, nodes.View(), ks);
      ghost var t, k := EC.RoundFrom(m, x), 0;
      RowRound(m, nodes.View(), ks, rd, nodes.name[..], x);
      var n := x;
      cell, val := -1, -1;
      while cell == -1 || val == -1
        invariant k < |t| && n == t[k]
        invariant cell == -1 || cell == rd.cell[m.rowOf[x]]
        invariant val == -1 || val == rd.val[m.rowOf[x]]
        invariant cell == -1 ==> forall i :: 0 <= i < k ==> 100 <= nodes.name[..][t[i]]
        invariant val == -1 ==> forall i :: 0 <= i < k ==> nodes.name[..][t[i]] < 100
        decreases |t| - k
      {
        assert NodeNamed(nodes.name[..], rd, m.rowOf[x], t[k]);
        if nodes.name[n] < 100 {
          cell := nodes.name[n];
        } else {
          val := nodes.name[n] % 10;
        }
        n := nodes.right[n];
        k := k + 1;
      }
    }

    /** Writes the value of every row on the stack into its cell. */
    method Decode(ghost m: LM.Matrix, ghost ks: seq<nat>, ghost rd: Reading)
      requires Shape() && LM.Rep(m, nodes.View(), ks) && Named(m, nodes.name[..], rd) && OnRows(m, stack)
      modifies inout
      ensures LM.Valid(m) && inout[..] == Filled(old(inout[..]), m, rd, stack)
    {
      hide LM.Rep, LM.Valid;
      EC.RepClosed(m, nodes.View(), ks);
      var i := 0;
      while i < |stack|
        invariant i <= |stack| && LM.Rep(m, nodes.View(), ks) && Named(m, nodes.name[..], rd)
        invariant inout[..] == Filled(old(inout[..]), m, rd, stack[..i])
      {
        var cell, val := DecodeRow(stack[i], m, ks, rd);
        inout[cell] := val;
        i := i + 1;
        assert stack[..i][..i - 1] == stack[..i - 1];
      }
      assert stack[..i] == stack;
    }

    /** The body of the loop over the rows of the covered column c: descends into the i-th of them, and backs out. */
    method TryRow(row: nat, ghost m: LM.Matrix, ghost st: LM.Links, ghost ks: seq<nat>, ghost rd: Reading, ghost c: nat, ghost i: nat)
      returns (found: bool)
      requires Shape() && LM.Coverable(m, st, ks, c) && c in m.headers && |st.size| == nodes.size.Length
      requires nodes.View() == LM.Cover(m, st, ks, c) && i < |LM.Live(m, ks, c)| && row == LM.Live(m, ks, c)[i]
      requires Named(m, nodes.name[..], rd) && OnRows(m, stack) && root == m.root
      modifies nodes.left, nodes.right, nodes.up, nodes.down, nodes.size, this`stack, inout
      ensures found <==> EC.HasCover(m, EC.After(m, ks, row))
      ensures found ==> old(stack) <= stack && Picks(m, ks, stack[|old(stack)|..]) && EC.HasCover(m, ks)
      ensures found ==> OnRows(m, stack) && inout[..] == Filled(old(inout[..]), m, rd, stack)
      ensures !found ==> nodes.View() == old(nodes.View()) && stack == old(stack) && inout[..] == old(inout[..])
      decreases |LM.OpenSet(m, ks)|, 0
    {
      hide LM.Rep, LM.Valid, LM.Live, LM.Cover, LM.Vertical, LM.Closed, LM.OpenSet;
      hide EC.HasCover, EC.After, EC.Chosen, EC.Choosable, EC.RestColumns, Named, Picks, Filled, OnRows;
      ghost var st' := nodes.View();
      EC.BranchReady(m, st, ks, c, i);
      EC.FewerOpen(m, ks, c, row);
      stack := stack + [row];
      nodes.CoverRowmates(row, m, ks + [c]);
      StackGrows(m, old(stack), row);
      found := Solve(m, EC.After(m, ks, row), rd);
      if found {
        FoundBelow(m, ks, c, i, old(stack), stack);
      } else {
        stack := stack[..|stack| - 1];
        nodes.UncoverRowmates(row, m, st', ks + [c]);
      }
    }

    /** Covers every open constraint if that can be done, and otherwise leaves all as it was. */
    method Solve(ghost m: LM.Matrix, ghost ks: seq<nat>, ghost rd: Reading) returns (found: bool)
      requires Shape() && LM.Rep(m, nodes.View(), ks) && Named(m, nodes.name[..], rd) && OnRows(m, stack) && root == m.root
      modifies nodes.left, nodes.right, nodes.up, nodes.down, nodes.size, this`stack, inout
      ensures found <==> EC.HasCover(m, ks)
      ensures found ==> old(stack) <= stack && Picks(m, ks, stack[|old(stack)|..])
      ensures found ==> LM.Valid(m) && OnRows(m, stack) && inout[..] == Filled(old(inout[..]), m, rd, stack)
      ensures !found ==> nodes.View() == old(nodes.View()) && stack == old(stack) && inout[..] == old(inout[..])
      decreases |LM.OpenSet(m, ks)|, 1
    {
      hide LM.Rep, LM.Valid, LM.OpenHeaders, LM.Live, LM.Cover, LM.Vertical, LM.Closed, LM.OpenSet, LM.Coverable;
      hide EC.HasCover, EC.After, EC.Sizes, ScanStops, Named, Picks, Filled, OnRows, Wrap;
      ghost var st := nodes.View();
      EC.RepClosed(m, st, ks);
      EC.HeaderLinks(m, st, ks, |LM.OpenHeaders(m, ks)|);
      if nodes.left[root] == root {
        NothingToPick(m, ks);
        Decode(m, ks, rd);
        assert stack[|old(stack)|..] == [];
        return true;
      }
      var c := nodes.GetMinColumn(root, m, ks);
      ghost var k :| 0 <= k < |LM.OpenHeaders(m, ks)| && LM.OpenHeaders(m, ks)[k] == c;
      EC.HeaderSize(m, st, ks, k);
      EC.Ready(m, st, ks, c);
      nodes.Cover(c, m, ks);
      ghost var t, i := LM.Vertical(m, ks, c), 0;
      EC.BranchLinks(m, st, ks, c, 0);
      var row := nodes.down[c];
      while row != c
        invariant i + 2 <= |t| && row == t[i + 1] && (row == c <==> i + 2 == |t|)
        invariant nodes.View() == LM.Cover(m, st, ks, c) && stack == old(stack) && inout[..] == old(inout[..])
        invariant forall h :: 0 <= h < i ==> !EC.HasCover(m, EC.After(m, ks, LM.Live(m, ks, c)[h]))
        decreases |t| - i
      {
        found := TryRow(row, m, st, ks, rd, c, i);
        if found {
          return;
        }
        i := i + 1;
        EC.BranchLinks(m, st, ks, c, i);
        row := nodes.down[row];
      }
      nodes.Uncover(c, m, st, ks);
      NoneFound(m, ks, c);
      found := false;
    }
  }

  // ---------------------------------------------------------------- strings in, strings out

  const NO_SOLUTION := "NoSolution"

  function Digits(s: string): (b: seq<int>)
    ensures |b| == |s| && forall i :: 0 <= i < |s| ==> b[i] == s[i] as int - '0' as int
  {
    seq(|s|, i requires 0 <= i < |s| => s[i] as int - '0' as int)
  }

  ghost predicate HasSolution(board: seq<int>) {
    exists g :: Completes(g, board)
  }

  /** A puzzle that is not 81 digits has no solution, whatever it contains. */
  lemma NotDigits(board: seq<int>, i: nat)
    requires |board| == CELLS && i < CELLS && !(0 <= board[i] <= 9)
    ensures !HasSolution(board)
  {
  }

  lemma CompletesBoard(g: seq<int>, board: seq<int>)
    requires Completes(g, board)
    ensures IsBoard(g)
  {
  }

  /** The encoding has an exact cover exactly when the puzzle has a solution. */
  lemma CoverIffSolution(m: LM.Matrix, cols: seq<nat>, rd: Reading, board: seq<int>)
    requires LM.Valid(m) && Encodes(m, cols, rd, board) && IsBoard(board)
    ensures EC.HasCover(m, []) <==> HasSolution(board)
  {
    hide LM.Valid, Encodes, EC.IsCover, Completes;
    if HasSolution(board) {
      var g :| Completes(g, board);
      SolutionCovers(m, cols, rd, board, g);
    }
    if EC.HasCover(m, []) {
      var rs :| EC.IsCover(m, [], rs);
      CoverRows(m, rs);
      var xs := ListRows(m, rs);
      CoverCompletes(m, cols, rd, board, xs);
    }
  }

  lemma CoverRows(m: LM.Matrix, rs: set<nat>)
    requires EC.IsCover(m, [], rs)
    ensures rs <= m.rows.Keys
  {
  }

  /** The solver's answer is a solution of the puzzle, and it has none only if there is none. */
  method SolveSudoku(puzzle: string) returns (result: string)
    requires |puzzle| == CELLS
    ensures HasSolution(Digits(puzzle)) ==> Completes(Digits(result), Digits(puzzle))
    ensures !HasSolution(Digits(puzzle)) ==> result == "NoSolution"
  {
    hide LM.Rep, Encodes, Named, Completes, Picks, Filled, EC.HasCover;
    result := NO_SOLUTION;
    var board := new int[CELLS](_ => 0);
    var valid := true;
    for i := 0 to CELLS
      invariant board[..i] == Digits(puzzle)[..i]
      invariant valid <==> forall j :: 0 <= j < i ==> 0 <= Digits(puzzle)[j] <= 9
    {
      board[i] := puzzle[i] as int - '0' as int;
      valid := valid && 0 <= board[i] <= 9;
    }
    assert board[..] == board[..CELLS] == Digits(puzzle)[..CELLS] == Digits(puzzle);
    if valid {
      var s := new Solver(board);
      EC.RepClosed(s.matrix, s.nodes.View(), []);
      CoverIffSolution(s.matrix, s.columns[..], s.reading, Digits(puzzle));
      ghost var cols, rd := s.columns[..], s.reading;
      var found := s.Solve(s.matrix, [], s.reading);
      if found {
        assert s.stack[0..] == s.stack;
        CoverCompletes(s.matrix, cols, rd, Digits(puzzle), s.stack);
        CompletesBoard(board[..], Digits(puzzle));
        result := Render(board);
      }
    } else {
      ghost var j :| 0 <= j < CELLS && !(0 <= Digits(puzzle)[j] <= 9);
      NotDigits(Digits(puzzle), j);
    }
  }

  method Render(board: array<int>) returns (result: string)
    requires board.Length == CELLS && IsBoard(board[..])
    ensures Digits(result) == board[..]
  {
    result := "";
    for i := 0 to CELLS
      invariant |result| == i && forall j :: 0 <= j < i ==> result[j] as int == board[j] + '0' as int
    {
      assert board[i] == board[..][i];
      result := result + [(board[i] + '0' as int) as char];
    }
  }
}

/** What the constructor of the Sudoku solver has built at each point of its loops. */
module SudokuBuild {
  import opened LinkMatrix
  import MB = MatrixBuild
  import opened SudokuRules
  import opened SudokuSearch
  import opened SudokuEncoding

  // ---------------------------------------------------------------- columns

  /** There are columns for exactly the constraints ns, and no rows yet; `cols` finds a column by its name. */
  ghost predicate ColumnsFor(m: Matrix, cols: seq<nat>, ns: set<nat>) {
    && |cols| == NAMES && m.rows == map[] && m.rowOf == map[] && m.colOf == map[]
    && (forall n :: n in ns ==> n < NAMES && cols[n] != 0 && cols[n] in m.headers)
    && (forall n :: 0 <= n < NAMES && n !in ns ==> cols[n] == 0)
    && (forall n, n' :: n in ns && n' in ns && n != n' ==> n < NAMES && n' < NAMES && cols[n] != cols[n'])
    && (forall c :: c in m.headers ==> exists n :: n in ns && n < NAMES && cols[n] == c)
    && (forall c :: c in m.vert ==> c in m.headers)
  }

  lemma AppendedColumn(m: Matrix, cols: seq<nat>, ns: set<nat>, n: nat, c: nat)
    requires ColumnsFor(m, cols, ns) && n < NAMES && n !in ns && c != 0 && c !in m.headers
    ensures ColumnsFor(MB.AddColumn(m, c), cols[n := c], ns + {n})
  {
    var m', cols', ns' := MB.AddColumn(m, c), cols[n := c], ns + {n};
    forall d | d in m'.headers
      ensures exists k :: k in ns' && k < NAMES && cols'[k] == d
    {
      if d == c {
        assert n in ns' && cols'[n] == d;
      } else {
        var k :| k in ns && k < NAMES && cols[k] == d;
        assert k in ns' && cols'[k] == d;
      }
    }
  }

  /** The empty cells below i. */
  ghost function CellNames(board: seq<int>, i: nat): (ns: set<nat>)
    requires |board| == CELLS && i <= CELLS
  {
    set n | 0 <= n < i && Needed(board, n)
  }

  /** Constraint n comes before the k-th kind for value v of unit u in the order of the loops. */
  predicate Before(n: nat, u: nat, v: nat, k: nat) {
    n < 100 || n % 100 / 10 < u || (n % 100 / 10 == u && (n % 10 < v || (n % 10 == v && n / 100 - 1 < k)))
  }

  ghost function NamesAt(board: seq<int>, u: nat, v: nat, k: nat): (ns: set<nat>)
    requires |board| == CELLS
  {
    set n | 0 <= n < NAMES && Needed(board, n) && Before(n, u, v, k)
  }

  lemma NamesStart(board: seq<int>)
    requires |board| == CELLS
    ensures NamesAt(board, 0, 1, 0) == CellNames(board, CELLS)
  {
  }

  lemma NamesStep(board: seq<int>, u: nat, v: nat, k: nat)
    requires |board| == CELLS && u < 9 && 1 <= v <= 9 && k < 3
    ensures NamesAt(board, u, v, k + 1)
         == NamesAt(board, u, v, k) + if Given(board, k, u, v) then {} else {Slot(k, u, v)}
    ensures Slot(k, u, v) !in NamesAt(board, u, v, k)
  {
    NeededSlot(board, k, u, v);
    forall n | 0 <= n < NAMES && Needed(board, n)
      ensures Before(n, u, v, k + 1) <==> Before(n, u, v, k) || n == Slot(k, u, v)
    {
      if n >= 100 {
        SlotOf(n);
      }
    }
  }

  lemma NamesNext(board: seq<int>, u: nat, v: nat)
    requires |board| == CELLS && u < 9 && 1 <= v <= 9
    ensures NamesAt(board, u, v, 3) == NamesAt(board, u, v + 1, 0)
    ensures NamesAt(board, u, 10, 0) == NamesAt(board, u + 1, 1, 0)
  {
  }

  /** When the loops are done the columns are the needed constraints. */
  lemma ColumnsDone(m: Matrix, cols: seq<nat>, board: seq<int>)
    requires |board| == CELLS && ColumnsFor(m, cols, NamesAt(board, 9, 1, 0))
    ensures ColumnsEncode(m, cols, board)
  {
    var ns := NamesAt(board, 9, 1, 0);
    forall n | 0 <= n < NAMES
      ensures n in ns <==> Needed(board, n)
    {
    }
  }

  // ---------------------------------------------------------------- rows

  /** All placements before value v of cell i have their rows, and no others. */
  ghost predicate RowsFor(m: Matrix, cols: seq<nat>, names: seq<nat>, rd: Reading, board: seq<int>, i: nat, v: nat) {
    && |cols| == NAMES && |board| == CELLS
    && ColumnsEncode(m, cols, board) && Named(m, names, rd)
    && (forall r :: r in m.rows ==> RowEncodes(m, cols, rd, board, r))
    && (forall j: nat, w: nat :: Allowed(board, j, w) && (j < i || (j == i && w < v)) ==> HasRow(m, rd, j, w))
  }

  lemma RowsStart(m: Matrix, cols: seq<nat>, names: seq<nat>, board: seq<int>)
    requires |board| == CELLS && ColumnsFor(m, cols, NamesAt(board, 9, 1, 0))
    ensures RowsFor(m, cols, names, Reading(map[], map[]), board, 0, 1)
  {
    ColumnsDone(m, cols, board);
  }

  lemma RowsSkip(m: Matrix, cols: seq<nat>, names: seq<nat>, rd: Reading, board: seq<int>, i: nat, v: nat)
    requires RowsFor(m, cols, names, rd, board, i, v) && i < CELLS
    ensures !Allowed(board, i, v) ==> RowsFor(m, cols, names, rd, board, i, v + 1)
    ensures v == 10 || board[i] != 0 ==> RowsFor(m, cols, names, rd, board, i + 1, 1)
  {
  }

  lemma RowsDone(m: Matrix, cols: seq<nat>, names: seq<nat>, rd: Reading, board: seq<int>)
    requires RowsFor(m, cols, names, rd, board, CELLS, 1)
    ensures Encodes(m, cols, rd, board) && Named(m, names, rd)
  {
  }

  /** The columns of the four constraints that placing v in cell i meets exist and are different. */
  lemma FourColumns(m: Matrix, cols: seq<nat>, board: seq<int>, i: nat, v: nat)
    requires |cols| == NAMES && |board| == CELLS && ColumnsEncode(m, cols, board) && Allowed(board, i, v) && ValidHeaders(m)
    ensures var n0, n1, n2 := Slot(0, UnitOf(0, i), v), Slot(1, UnitOf(1, i), v), Slot(2, UnitOf(2, i), v);
      && cols[i] in m.vert && cols[n0] in m.vert && cols[n1] in m.vert && cols[n2] in m.vert
      && cols[i] != cols[n0] && cols[i] != cols[n1] && cols[i] != cols[n2]
      && cols[n0] != cols[n1] && cols[n0] != cols[n2] && cols[n1] != cols[n2]
  {
    hide Needed;
    var n0, n1, n2 := Slot(0, UnitOf(0, i), v), Slot(1, UnitOf(1, i), v), Slot(2, UnitOf(2, i), v);
    MeetsNeeded(board, i, v, i);
    MeetsNeeded(board, i, v, n0);
    MeetsNeeded(board, i, v, n1);
    MeetsNeeded(board, i, v, n2);
  }

  ghost predicate FourOf(cols: seq<nat>, i: nat, v: nat, c0: nat, c1: nat, c2: nat, c3: nat)
    requires |cols| == NAMES && i < CELLS && 1 <= v <= 9
  {
    && c0 == cols[i] && c1 == cols[Slot(0, UnitOf(0, i), v)]
    && c2 == cols[Slot(1, UnitOf(1, i), v)] && c3 == cols[Slot(2, UnitOf(2, i), v)]
  }

  ghost function WithRow(rd: Reading, x: nat, i: nat, v: nat): (r: Reading) {
    Reading(rd.cell[x := i], rd.val[x := v])
  }

  ghost function FourNames(names: seq<nat>, x: nat, i: nat, v: nat): (r: seq<nat>)
    requires x + 3 < |names| && i < CELLS && 1 <= v <= 9
  {
    names[x := i][x + 1 := Slot(0, UnitOf(0, i), v)][x + 2 := Slot(1, UnitOf(1, i), v)][x + 3 := Slot(2, UnitOf(2, i), v)]
  }

  lemma PlacedRow(m: Matrix, cols: seq<nat>, rd: Reading, board: seq<int>, i: nat, v: nat,
                  x: nat, c0: nat, c1: nat, c2: nat, c3: nat, r: nat)
    requires |cols| == NAMES && |board| == CELLS && MB.Placeable(m, x, c0, c1, c2, c3) && Allowed(board, i, v)
    requires FourOf(cols, i, v, c0, c1, c2, c3)
    requires r == x || (r in m.rows && RowEncodes(m, cols, rd, board, r))
    ensures RowEncodes(MB.Place(m, x, c0, c1, c2, c3), cols, WithRow(rd, x, i, v), board, r)
  {
    hide Valid, Hits, MB.Place, Allowed, Slot;
    var m' := MB.Place(m, x, c0, c1, c2, c3);
    forall c
      ensures Hits(m', r, c) <==> if r == x then c == c0 || c == c1 || c == c2 || c == c3 else Hits(m, r, c)
    {
      RowsOfValid(m);
      MB.PlaceHits(m, x, c0, c1, c2, c3, r, c);
    }
    if r == x {
      AllowedRange(board, i, v);
      FourHits(m', cols, i, v, c0, c1, c2, c3, x);
    }
  }

  lemma AllowedRange(board: seq<int>, i: nat, v: nat)
    requires |board| == CELLS && Allowed(board, i, v)
    ensures i < CELLS && board[i] == 0 && 1 <= v <= 9
  {
  }

  lemma RowsOfValid(m: Matrix)
    requires Valid(m)
    ensures ValidRows(m)
  {
  }

  lemma FourHits(m: Matrix, cols: seq<nat>, i: nat, v: nat, c0: nat, c1: nat, c2: nat, c3: nat, x: nat)
    requires |cols| == NAMES && i < CELLS && 1 <= v <= 9 && FourOf(cols, i, v, c0, c1, c2, c3)
    requires forall c :: Hits(m, x, c) <==> c == c0 || c == c1 || c == c2 || c == c3
    ensures HitsFour(m, cols, i, v, x)
  {
    hide Hits;
    forall c
      ensures Hits(m, x, c) <==> exists n :: 0 <= n < NAMES && Meets4(i, v, n) && cols[n] == c
    {
      if Hits(m, x, c) {
        var n := if c == c0 then i else if c == c1 then Slot(0, UnitOf(0, i), v)
                 else if c == c2 then Slot(1, UnitOf(1, i), v) else Slot(2, UnitOf(2, i), v);
        assert Meets4(i, v, n) && cols[n] == c;
      }
    }
  }

  lemma PlacedNodes(m: Matrix, names: seq<nat>, rd: Reading, i: nat, v: nat,
                    x: nat, c0: nat, c1: nat, c2: nat, c3: nat, y: nat)
    requires MB.Placeable(m, x, c0, c1, c2, c3) && Named(m, names, rd) && x + 3 < |names| && i < CELLS && 1 <= v <= 9
    requires y in MB.Place(m, x, c0, c1, c2, c3).rowOf
    ensures NodeNamed(FourNames(names, x, i, v), WithRow(rd, x, i, v), MB.Place(m, x, c0, c1, c2, c3).rowOf[y], y)
  {
    hide Valid, MB.Place, NodeNamed, FourNames;
    MB.PlaceShape(m, x, c0, c1, c2, c3);
    if y in m.rowOf {
      RowsOfValid(m);
      OldNode(names, rd, x, i, v, m.rowOf[y], y);
    } else {
      NewNode(names, rd, x, i, v, y);
    }
  }

  lemma OldNode(names: seq<nat>, rd: Reading, x: nat, i: nat, v: nat, r: nat, y: nat)
    requires NodeNamed(names, rd, r, y) && r < x && y < x && x + 3 < |names| && i < CELLS && 1 <= v <= 9
    ensures NodeNamed(FourNames(names, x, i, v), WithRow(rd, x, i, v), r, y)
  {
  }

  lemma NewNode(names: seq<nat>, rd: Reading, x: nat, i: nat, v: nat, y: nat)
    requires x <= y <= x + 3 < |names| && i < CELLS && 1 <= v <= 9
    ensures NodeNamed(FourNames(names, x, i, v), WithRow(rd, x, i, v), x, y)
  {
  }

  /** The new row's node names say which cell and value it stands for; the old names are untouched. */
  lemma PlacedNames(m: Matrix, names: seq<nat>, rd: Reading, i: nat, v: nat,
                    x: nat, c0: nat, c1: nat, c2: nat, c3: nat)
    requires MB.Placeable(m, x, c0, c1, c2, c3) && Named(m, names, rd) && x + 3 < |names| && i < CELLS && 1 <= v <= 9
    ensures Named(MB.Place(m, x, c0, c1, c2, c3), FourNames(names, x, i, v), WithRow(rd, x, i, v))
  {
    hide Valid, ValidRows, MB.Place, NodeNamed, RowNamed, FourNames;
    var m', names', rd' := MB.Place(m, x, c0, c1, c2, c3), FourNames(names, x, i, v), WithRow(rd, x, i, v);
    MB.PlaceShape(m, x, c0, c1, c2, c3);
    RowsOfValid(m);
    forall y | y in m'.rowOf
      ensures NodeNamed(names', rd', m'.rowOf[y], y)
    {
      PlacedNodes(m, names, rd, i, v, x, c0, c1, c2, c3, y);
    }
    forall r | r in m'.rows
      ensures RowNamed(m', names', r)
    {
      if r == x {
        NewRowNamed(m', names, x, i, v);
      } else {
        assert RowNamed(m, names, r);
        OldRowNamed(m, m', names, r, x, i, v);
      }
    }
  }

  lemma NewRowNamed(m: Matrix, names: seq<nat>, x: nat, i: nat, v: nat)
    requires x in m.rows && m.rows[x] == [x, x + 1, x + 2, x + 3] && x + 3 < |names| && i < CELLS && 1 <= v <= 9
    ensures RowNamed(m, FourNames(names, x, i, v), x)
  {
    assert x in m.rows[x] && x + 1 in m.rows[x];
  }

  lemma OldRowNamed(m: Matrix, m': Matrix, names: seq<nat>, r: nat, x: nat, i: nat, v: nat)
    requires ValidRows(m) && r in m.rows && RowNamed(m, names, r) && MB.Unused(m, x)
    requires x + 3 < |names| && i < CELLS && 1 <= v <= 9 && r in m'.rows && m'.rows[r] == m.rows[r]
    ensures RowNamed(m', FourNames(names, x, i, v), r)
  {
    var a :| a in m.rows[r] && a < |names| && names[a] < 100;
    assert a in m.rowOf;
    var b :| b in m.rows[r] && b < |names| && 100 <= names[b];
    assert b in m.rowOf;
  }

  /** One pass of the innermost loop. */
  lemma RowsPlace(m: Matrix, cols: seq<nat>, names: seq<nat>, rd: Reading, board: seq<int>, i: nat, v: nat,
                  x: nat, c0: nat, c1: nat, c2: nat, c3: nat)
    requires RowsFor(m, cols, names, rd, board, i, v) && MB.Placeable(m, x, c0, c1, c2, c3) && Allowed(board, i, v)
    requires x + 3 < |names| && FourOf(cols, i, v, c0, c1, c2, c3)
    ensures RowsFor(MB.Place(m, x, c0, c1, c2, c3), cols, FourNames(names, x, i, v), WithRow(rd, x, i, v), board, i, v + 1)
  {
    hide Valid, MB.Place, Allowed, RowEncodes, Named, FourOf, FourNames, Needed;
    var m', rd' := MB.Place(m, x, c0, c1, c2, c3), WithRow(rd, x, i, v);
    MB.PlaceShape(m, x, c0, c1, c2, c3);
    AllowedRange(board, i, v);
    PlacedNames(m, names, rd, i, v, x, c0, c1, c2, c3);
    forall r | r in m'.rows
      ensures RowEncodes(m', cols, rd', board, r)
    {
      PlacedRow(m, cols, rd, board, i, v, x, c0, c1, c2, c3, r);
    }
    forall j: nat, w: nat | Allowed(board, j, w) && (j < i || (j == i && w < v + 1))
      ensures HasRow(m', rd', j, w)
    {
      if j == i && w == v {
        assert x in m'.rows;
      } else {
        assert HasRow(m, rd, j, w);
        var r :| r in m.rows && r in rd.cell && r in rd.val && rd.cell[r] == j && rd.val[r] == w;
        assert r in m'.rows;
      }
    }
  }

  lemma NotYet(m: Matrix, cols: seq<nat>, ns: set<nat>, n: nat)
    requires ColumnsFor(m, cols, ns) && n < NAMES && n !in ns
    ensures |cols| == NAMES && cols[n] == 0
  {
  }

  lemma FreshHeader(m: Matrix, x: nat)
    requires Valid(m) && MB.Fresh(m, x)
    ensures x !in m.headers
  {
  }

  lemma CellStep(board: seq<int>, i: nat)
    requires |board| == CELLS && i < CELLS
    ensures CellNames(board, i + 1) == CellNames(board, i) + if board[i] == 0 then {i} else {}
    ensures i !in CellNames(board, i) && CellNames(board, i) + {} == CellNames(board, i)
  {
  }

  lemma NothingBuilt(st: Links, cols: seq<nat>)
    requires Closed(st) && 1 <= |st.size| && st.left[0] == 0 && st.right[0] == 0
    requires |cols| == NAMES && forall n :: 0 <= n < NAMES ==> cols[n] == 0
    ensures MB.Built(MB.EmptyMatrix(0), st, 1) && ColumnsFor(MB.EmptyMatrix(0), cols, {})
  {
    MB.EmptyWhole(st, 0);
  }

  lemma ReadyToPlace(m: Matrix, cols: seq<nat>, names: seq<nat>, rd: Reading, board: seq<int>, i: nat, v: nat, x: nat)
    requires RowsFor(m, cols, names, rd, board, i, v) && Allowed(board, i, v) && Valid(m) && MB.Unused(m, x)
    ensures |cols| == NAMES && i < CELLS && 1 <= v <= 9
    ensures var c0, c1, c2, c3 := cols[i], cols[Slot(0, UnitOf(0, i), v)], cols[Slot(1, UnitOf(1, i), v)], cols[Slot(2, UnitOf(2, i), v)];
      && MB.Placeable(m, x, c0, c1, c2, c3) && FourOf(cols, i, v, c0, c1, c2, c3)
      && c0 != c1 && c0 != c2 && c0 != c3 && c1 != c2 && c1 != c3 && c2 != c3
  {
    hide ValidColumns, ValidRows, OnePerColumn, ColumnsEncode, Named, RowEncodes;
    FourColumns(m, cols, board, i, v);
  }
}

/** The dancing-links N-queens counter. */
module QueenSolver {
  import opened Chains
  import LM = LinkMatrix
  import EC = ExactCover
  import MB = MatrixBuild
  import opened DancingLinks
  import opened CountCovers
  import opened Queens
  import opened QueenEncoding

  const MAX_QUEENS := 20
  const MAX_COLUMNS := MAX_QUEENS * 6
  const MAX_NODES := 1 + MAX_COLUMNS + MAX_QUEENS * MAX_QUEENS * 4

  // ---------------------------------------------------------------- columns

  /** There are columns for exactly the names ns, those below 2n in the header list, and no rows yet. */
  ghost predicate ColumnsFor(m: LM.Matrix, cols: seq<nat>, n: nat, ns: set<nat>) {
    && |cols| == MAX_COLUMNS && m.rows == map[] && m.rowOf == map[] && m.colOf == map[]
    && (forall j :: j in ns ==> j < MAX_COLUMNS && cols[j] != 0 && cols[j] in m.vert)
    && (forall j :: 0 <= j < MAX_COLUMNS && j !in ns ==> cols[j] == 0)
    && (forall j, k :: j in ns && k in ns && j != k ==> j < MAX_COLUMNS && k < MAX_COLUMNS && cols[j] != cols[k])
    && (forall j :: j in ns && j < 2 * n ==> j < MAX_COLUMNS && cols[j] in m.headers)
    && (forall c :: c in m.headers ==> exists j :: j in ns && j < 2 * n && j < MAX_COLUMNS && cols[j] == c)
  }

  lemma AddedColumn(m: LM.Matrix, cols: seq<nat>, n: nat, ns: set<nat>, j: nat, c: nat)
    requires ColumnsFor(m, cols, n, ns) && j < MAX_COLUMNS && j !in ns && c != 0 && c !in m.vert && LM.ValidHeaders(m)
    ensures j < 2 * n ==> ColumnsFor(MB.AddColumn(m, c), cols[j := c], n, ns + {j})
    ensures 2 * n <= j ==> ColumnsFor(MB.AddOptional(m, c), cols[j := c], n, ns + {j})
  {
    var cols', ns' := cols[j := c], ns + {j};
    forall d | d in m.headers
      ensures exists k :: k in ns' && k < 2 * n && k < MAX_COLUMNS && cols'[k] == d
    {
      var k :| k in ns && k < 2 * n && k < MAX_COLUMNS && cols[k] == d;
      assert k in ns' && cols'[k] == d;
    }
    assert j in ns' && cols'[j] == c;
  }

  predicate FirstName(n: nat, i: nat, j: nat) {
    j < i || n <= j < n + i
  }

  predicate SomeName(n: nat, i: nat, j: nat) {
    j < 2 * n + i || 4 * n <= j < 4 * n + i
  }

  ghost function FirstNames(n: nat, i: nat): (ns: set<nat>) {
    set j: nat | 0 <= j < 2 * n && FirstName(n, i, j)
  }

  ghost function SomeNames(n: nat, i: nat): (ns: set<nat>) {
    set j: nat | 0 <= j < 6 * n && SomeName(n, i, j)
  }

  lemma FirstNamesStep(n: nat, i: nat)
    requires i < n
    ensures FirstNames(n, i + 1) == FirstNames(n, i) + {i} + {n + i}
    ensures i !in FirstNames(n, i) && n + i !in FirstNames(n, i) + {i}
  {
  }

  lemma SomeNamesStep(n: nat, i: nat)
    requires i < 2 * n
    ensures SomeNames(n, i + 1) == SomeNames(n, i) + {2 * n + i} + {4 * n + i}
    ensures 2 * n + i !in SomeNames(n, i) && 4 * n + i !in SomeNames(n, i) + {2 * n + i}
  {
  }

  lemma NamesMeet(n: nat)
    ensures FirstNames(n, 0) == {} && FirstNames(n, n) == SomeNames(n, 0)
  {
    if n == 0 {
      assert FirstNames(n, n) == SomeNames(n, 0);
    } else {
      forall j: nat
        ensures j in FirstNames(n, n) <==> j in SomeNames(n, 0)
      {
      }
    }
  }

  lemma ColumnsDone(m: LM.Matrix, cols: seq<nat>, n: nat)
    requires ColumnsFor(m, cols, n, SomeNames(n, 2 * n)) && n <= MAX_QUEENS
    ensures QueenColumns(m, cols, n)
    ensures forall j :: 0 <= j < 6 * n ==> cols[j] in m.vert
  {
    assert forall j: nat :: j < 6 * n ==> j in SomeNames(n, 2 * n);
  }

  // ---------------------------------------------------------------- rows

  predicate Earlier(c: nat, r: nat, c': nat, r': nat) {
    c < c' || (c == c' && r < r')
  }

  /** The squares before (c, r) in the order of the loops have their rows, and no others. */
  ghost predicate RowsFor(m: LM.Matrix, cols: seq<nat>, n: nat, sq: Squares, c: nat, r: nat) {
    && QueenColumns(m, cols, n) && QueenRows(m, cols, n, sq) && (forall j :: 0 <= j < 6 * n ==> cols[j] in m.vert)
    && (forall x :: x in m.rows && x in sq ==> Earlier(sq[x].0, sq[x].1, c, r))
    && (forall a: nat, b: nat :: a < n && b < n && Earlier(a, b, c, r) ==> HasSquare(m, sq, a, b))
  }

  lemma RowsStart(m: LM.Matrix, cols: seq<nat>, n: nat)
    requires ColumnsFor(m, cols, n, SomeNames(n, 2 * n)) && n <= MAX_QUEENS
    ensures RowsFor(m, cols, n, map[], 0, 0)
  {
    ColumnsDone(m, cols, n);
  }

  lemma RowsNext(m: LM.Matrix, cols: seq<nat>, n: nat, sq: Squares, c: nat)
    requires RowsFor(m, cols, n, sq, c, n)
    ensures RowsFor(m, cols, n, sq, c + 1, 0)
  {
  }

  lemma RowsDone(m: LM.Matrix, cols: seq<nat>, n: nat, sq: Squares)
    requires RowsFor(m, cols, n, sq, n, 0)
    ensures Encodes(m, cols, n, sq)
  {
  }

  ghost predicate FourOf(cols: seq<nat>, n: nat, c: nat, r: nat, c0: nat, c1: nat, c2: nat, c3: nat)
    requires 6 * n <= |cols| && c < n && r < n
  {
    && c0 == cols[NameOf(n, 0, c, r)] && c1 == cols[NameOf(n, 1, c, r)]
    && c2 == cols[NameOf(n, 2, c, r)] && c3 == cols[NameOf(n, 3, c, r)]
  }

  lemma FourColumns(m: LM.Matrix, cols: seq<nat>, n: nat, sq: Squares, c: nat, r: nat, c0: nat, c1: nat, c2: nat, c3: nat)
    requires RowsFor(m, cols, n, sq, c, r) && c < n && r < n && FourOf(cols, n, c, r, c0, c1, c2, c3)
    ensures c0 in m.vert && c1 in m.vert && c2 in m.vert && c3 in m.vert
    ensures c0 != c1 && c0 != c2 && c0 != c3 && c1 != c2 && c1 != c3 && c2 != c3
  {
    hide QueenRows, HasSquare;
  }

  lemma PlacedRow(m: LM.Matrix, cols: seq<nat>, n: nat, sq: Squares, c: nat, r: nat,
                  x: nat, c0: nat, c1: nat, c2: nat, c3: nat, y: nat)
    requires 6 * n <= |cols| && c < n && r < n && FourOf(cols, n, c, r, c0, c1, c2, c3) && MB.Placeable(m, x, c0, c1, c2, c3)
    requires y == x || (y in m.rows && OnSquare(n, sq, y) && HitsSquare(m, cols, n, sq, y))
    ensures OnSquare(n, sq[x := (c, r)], y)
    ensures HitsSquare(MB.Place(m, x, c0, c1, c2, c3), cols, n, sq[x := (c, r)], y)
  {
    hide LM.Hits, MB.Place, NameOf, LM.ValidHeaders, LM.ValidColumns, LM.OnePerColumn;
    var m', sq' := MB.Place(m, x, c0, c1, c2, c3), sq[x := (c, r)];
    forall d
      ensures LM.Hits(m', y, d) <==> exists k :: 0 <= k < 4 && d == cols[NameOf(n, k, sq'[y].0, sq'[y].1)]
    {
      MB.PlaceHits(m, x, c0, c1, c2, c3, y, d);
      if y == x {
        if d == c0 || d == c1 || d == c2 || d == c3 {
          var k := if d == c0 then 0 else if d == c1 then 1 else if d == c2 then 2 else 3;
          assert d == cols[NameOf(n, k, c, r)];
        }
      }
    }
  }

  /** One pass of the inner loop. */
  lemma RowsPlace(m: LM.Matrix, cols: seq<nat>, n: nat, sq: Squares, c: nat, r: nat,
                  x: nat, c0: nat, c1: nat, c2: nat, c3: nat)
    requires RowsFor(m, cols, n, sq, c, r) && c < n && r < n && FourOf(cols, n, c, r, c0, c1, c2, c3)
    requires MB.Placeable(m, x, c0, c1, c2, c3)
    ensures RowsFor(MB.Place(m, x, c0, c1, c2, c3), cols, n, sq[x := (c, r)], c, r + 1)
  {
    hide MB.Place, LM.Valid, HitsSquare, FourOf;
    var m', sq' := MB.Place(m, x, c0, c1, c2, c3), sq[x := (c, r)];
    MB.PlaceShape(m, x, c0, c1, c2, c3);
    forall y | y in m'.rows
      ensures OnSquare(n, sq', y) && HitsSquare(m', cols, n, sq', y)
    {
      PlacedRow(m, cols, n, sq, c, r, x, c0, c1, c2, c3, y);
    }
    forall a: nat, b: nat | a < n && b < n && Earlier(a, b, c, r + 1)
      ensures HasSquare(m', sq', a, b)
    {
      if a == c && b == r {
        assert sq'[x] == (a, b);
      } else {
        assert HasSquare(m, sq, a, b);
        var y :| y in m.rows && y in sq && sq[y] == (a, b);
        assert y in m'.rows && sq'[y] == (a, b);
      }
    }
  }

  // ---------------------------------------------------------------- the solver

  class Solver {
    const nodes: NodeArray
    const columns: array<nat>  // the column of each constraint name, 0 for none
    const root: nat
    var count: int
    ghost var matrix: LM.Matrix
    ghost var squares: Squares

    ghost predicate Shape() {
      && nodes.Shape() && columns.Length == MAX_COLUMNS
      && columns as object !in {nodes.left as object, nodes.right as object, nodes.up as object, nodes.down as object,
                                nodes.col as object, nodes.size as object, nodes.name as object}
    }

    // ---------------------------------------------------------------- construction

    ghost predicate HasColumns(n: nat, ns: set<nat>)
      reads this, nodes, nodes.left, nodes.right, nodes.up, nodes.down, nodes.col, nodes.size, columns
    {
      && MB.Built(matrix, nodes.View(), nodes.cur) && root == matrix.root == 0
      && ColumnsFor(matrix, columns[..], n, ns)
    }

    /** append_column for a name below 2n; otherwise a column outside the header list. */
    method AddColumn(n: nat, j: nat, ghost ns: set<nat>)
      requires Shape() && HasColumns(n, ns) && j < MAX_COLUMNS && j !in ns && nodes.cur < nodes.size.Length
      modifies nodes.left, nodes.right, nodes.up, nodes.down, nodes.col, nodes.size, nodes.name, nodes`cur, columns, this`matrix
      ensures HasColumns(n, ns + {j}) && nodes.cur == old(nodes.cur) + 1
    {
      hide MB.Built, ColumnsFor;
      MB.BuiltClosed(matrix, nodes.View(), nodes.cur);
      ReadyForColumn(matrix, columns[..], n, ns, j, nodes.cur);
      assert columns[j] == 0;
      var c;
      if j < 2 * n {
        c := nodes.AppendColumn(root, j, matrix);
        matrix := MB.AddColumn(matrix, c);
      } else {
        c := nodes.NewOptionalColumn(j, matrix);
        matrix := MB.AddOptional(matrix, c);
      }
      columns[j] := c;
    }

    method AddColumns(n: nat)
      requires Shape() && n <= MAX_QUEENS && HasColumns(n, {}) && nodes.cur == 1 && nodes.size.Length == MAX_NODES
      modifies nodes.left, nodes.right, nodes.up, nodes.down, nodes.col, nodes.size, nodes.name, nodes`cur, columns, this`matrix
      ensures HasColumns(n, SomeNames(n, 2 * n)) && nodes.cur == 1 + 6 * n
    {
      hide MB.Built, ColumnsFor, FirstNames, SomeNames;
      NamesMeet(n);
      for i := 0 to n
        invariant HasColumns(n, FirstNames(n, i)) && nodes.cur == 1 + 2 * i
      {
        FirstNamesStep(n, i);
        AddColumn(n, i, FirstNames(n, i));
        AddColumn(n, n + i, FirstNames(n, i) + {i});
      }
      for j := 0 to 2 * n
        invariant HasColumns(n, SomeNames(n, j)) && nodes.cur == 1 + 2 * n + 2 * j
      {
        SomeNamesStep(n, j);
        AddColumn(n, 2 * n + j, SomeNames(n, j));
        AddColumn(n, 4 * n + j, SomeNames(n, j) + {2 * n + j});
      }
    }

    ghost predicate HasRows(n: nat, c: nat, r: nat)
      reads this, nodes, nodes.left, nodes.right, nodes.up, nodes.down, nodes.col, nodes.size, columns
    {
      && MB.Built(matrix, nodes.View(), nodes.cur) && root == matrix.root
      && RowsFor(matrix, columns[..], n, squares, c, r)
    }

    method AddSquare(n: nat, c: nat, r: nat)
      requires Shape() && HasRows(n, c, r) && c < n <= MAX_QUEENS && r < n && nodes.cur + 4 <= nodes.size.Length
      modifies nodes.left, nodes.right, nodes.up, nodes.down, nodes.col, nodes.size, nodes.name, nodes`cur, this`matrix, this`squares
      ensures HasRows(n, c, r + 1) && nodes.cur == old(nodes.cur) + 4
    {
      hide MB.Built, MB.Place, RowsFor, LM.Valid, MB.Unused;
      var n0, n1, n2, n3 := c, n + r, 2 * n + r + c, 5 * n + r - c;
      MB.BuiltUnused(matrix, nodes.View(), nodes.cur);
      var c0, c1, c2, c3 := columns[n0], columns[n1], columns[n2], columns[n3];
      FourColumns(matrix, columns[..], n, squares, c, r, c0, c1, c2, c3);
      RowsPlace(matrix, columns[..], n, squares, c, r, nodes.cur, c0, c1, c2, c3);
      MB.PlaceShape(matrix, nodes.cur, c0, c1, c2, c3);
      var x := nodes.AddPlacement(c0, c1, c2, c3, n0, n1, n2, n3, matrix);
      matrix := MB.Place(matrix, x, c0, c1, c2, c3);
      squares := squares[x := (c, r)];
    }

    method AddSquares(n: nat)
      requires Shape() && HasRows(n, 0, 0) && n <= MAX_QUEENS && nodes.cur == 1 + 6 * n && nodes.size.Length == MAX_NODES
      modifies nodes.left, nodes.right, nodes.up, nodes.down, nodes.col, nodes.size, nodes.name, nodes`cur, this`matrix, this`squares
      ensures HasRows(n, n, 0)
    {
      hide MB.Built, RowsFor;
      for c := 0 to n
        invariant HasRows(n, c, 0) && nodes.cur <= 1 + 6 * n + 80 * c
      {
        for r := 0 to n
          invariant HasRows(n, c, r) && nodes.cur <= 1 + 6 * n + 80 * c + 4 * r
        {
          AddSquare(n, c, r);
        }
        RowsNext(matrix, columns[..], n, squares, c);
      }
    }

    method Build(n: nat)
      requires Shape() && n <= MAX_QUEENS && nodes.cur == 0 && nodes.size.Length == MAX_NODES && root == 0
      requires LM.Closed(nodes.View()) && forall j :: 0 <= j < MAX_COLUMNS ==> columns[..][j] == 0
      modifies nodes.left, nodes.right, nodes.up, nodes.down, nodes.col, nodes.size, nodes.name, nodes`cur
      modifies columns, this`matrix, this`squares
      ensures LM.Rep(matrix, nodes.View(), []) && root == matrix.root && Encodes(matrix, columns[..], n, squares)
    {
      hide MB.Built, MB.Whole, RowsFor, LM.Rep, Encodes, ColumnsFor, SomeNames;
      var r := nodes.NewNode(0);
      matrix, squares := MB.EmptyMatrix(0), map[];
      NothingBuilt(nodes.View(), columns[..], n);
      AddColumns(n);
      RowsStart(matrix, columns[..], n);
      AddSquares(n);
      RowsDone(matrix, columns[..], n, squares);
      MB.BuiltRep(matrix, nodes.View(), nodes.cur);
    }

    constructor (n: nat)
      requires n <= 20
      ensures Shape() && count == 0 && fresh(nodes) && fresh(columns)
      ensures fresh(nodes.left) && fresh(nodes.right) && fresh(nodes.up) && fresh(nodes.down) && fresh(nodes.col)
           && fresh(nodes.size) && fresh(nodes.name)
      ensures LM.Rep(matrix, nodes.View(), []) && root == matrix.root && Encodes(matrix, columns[..], n, squares)
    {
      count := 0;
      nodes := new NodeArray(MAX_NODES);
      columns := new nat[MAX_COLUMNS](_ => 0);
      root := 0;
      new;
      hide LM.Rep, Encodes;
      Build(n);
    }

    // ---------------------------------------------------------------- search

    /** The body of the loop over the rows of the covered column c. */
    method CountRow(row: nat, ghost m: LM.Matrix, ghost st: LM.Links, ghost ks: seq<nat>, ghost c: nat, ghost i: nat)
      requires Shape() && LM.Coverable(m, st, ks, c) && c in m.headers && |st.size| == nodes.size.Length && AllPrimary(m)
      requires nodes.View() == LM.Cover(m, st, ks, c) && i < |LM.Live(m, ks, c)| && row == LM.Live(m, ks, c)[i]
      requires root == m.root
      modifies nodes.left, nodes.right, nodes.up, nodes.down, nodes.size, this`count
      ensures nodes.View() == old(nodes.View()) && count == old(count) + |Covers(m, EC.After(m, ks, row))|
      decreases |LM.OpenSet(m, ks)|, 0
    {
      hide LM.Rep, LM.Valid, LM.Live, LM.Cover, LM.Vertical, LM.Closed, LM.OpenSet, AllPrimary;
      hide Covers, EC.After, EC.Chosen, EC.Choosable, EC.RestColumns;
      ghost var st' := nodes.View();
      EC.BranchReady(m, st, ks, c, i);
      EC.FewerOpen(m, ks, c, row);
      nodes.CoverRowmates(row, m, ks + [c]);
      Solve(m, EC.After(m, ks, row));
      nodes.UncoverRowmates(row, m, st', ks + [c]);
    }

    /** Adds the number of exact covers to `count` and puts every link back. */
    method Solve(ghost m: LM.Matrix, ghost ks: seq<nat>)
      requires Shape() && LM.Rep(m, nodes.View(), ks) && AllPrimary(m) && root == m.root
      modifies nodes.left, nodes.right, nodes.up, nodes.down, nodes.size, this`count
      ensures nodes.View() == old(nodes.View()) && count == old(count) + |Covers(m, ks)|
      decreases |LM.OpenSet(m, ks)|, 1
    {
      hide LM.Rep, LM.Valid, LM.OpenHeaders, LM.Live, LM.Cover, LM.Vertical, LM.Closed, LM.OpenSet, LM.Coverable;
      hide Covers, CoversFrom, EC.After, EC.Sizes, ScanStops, AllPrimary, Wrap;
      ghost var st := nodes.View();
      EC.RepClosed(m, st, ks);
      EC.HeaderLinks(m, st, ks, |LM.OpenHeaders(m, ks)|);
      if nodes.left[root] == root {
        OneCover(m, ks);
        count := count + 1;
        return;
      }
      var c := nodes.GetMinColumn(root, m, ks);
      ghost var k :| 0 <= k < |LM.OpenHeaders(m, ks)| && LM.OpenHeaders(m, ks)[k] == c;
      EC.HeaderSize(m, st, ks, k);
      EC.Ready(m, st, ks, c);
      CoversFromAll(m, ks, c);
      nodes.Cover(c, m, ks);
      ghost var t, i := LM.Vertical(m, ks, c), 0;
      EC.BranchLinks(m, st, ks, c, 0);
      var row := nodes.down[c];
      while row != c
        invariant i + 2 <= |t| && row == t[i + 1] && (row == c <==> i + 2 == |t|)
        invariant nodes.View() == LM.Cover(m, st, ks, c)
        invariant count == old(count) + |CoversFrom(m, ks, c, i)|
        decreases |t| - i
      {
        CountRow(row, m, st, ks, c, i);
        CoversFromStep(m, ks, c, i);
        i := i + 1;
        EC.BranchLinks(m, st, ks, c, i);
        row := nodes.down[row];
      }
      nodes.Uncover(c, m, st, ks);
    }
  }

  lemma NothingBuilt(st: LM.Links, cols: seq<nat>, n: nat)
    requires LM.Closed(st) && 1 <= |st.size| && st.left[0] == 0 && st.right[0] == 0
    requires |cols| == MAX_COLUMNS && forall j :: 0 <= j < MAX_COLUMNS ==> cols[j] == 0
    ensures MB.Built(MB.EmptyMatrix(0), st, 1) && ColumnsFor(MB.EmptyMatrix(0), cols, n, {})
  {
    MB.EmptyWhole(st, 0);
  }

  lemma ReadyForColumn(m: LM.Matrix, cols: seq<nat>, n: nat, ns: set<nat>, j: nat, c: nat)
    requires ColumnsFor(m, cols, n, ns) && j < MAX_COLUMNS && j !in ns && LM.Valid(m) && MB.Fresh(m, c) && 0 < c
    ensures |cols| == MAX_COLUMNS && cols[j] == 0
    ensures j < 2 * n ==> ColumnsFor(MB.AddColumn(m, c), cols[j := c], n, ns + {j})
    ensures 2 * n <= j ==> ColumnsFor(MB.AddOptional(m, c), cols[j := c], n, ns + {j})
  {
    AddedColumn(m, cols, n, ns, j, c);
  }

  /** The dancing-links count of N queens. */
  method CountQueens(n: nat) returns (count: int)
    requires n <= 20
    ensures count == |Solutions(n)|
  {
    hide LM.Rep, Encodes, AllPrimary, Covers, Solutions;
    var s := new Solver(n);
    EncodesPrimary(s.matrix, s.columns[..], n, s.squares);
    CoversAreSolutions(s.matrix, s.columns[..], n, s.squares);
    s.Solve(s.matrix, []);
    count := s.count;
  }
}

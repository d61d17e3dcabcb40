/** Building a link matrix node by node: the value-level effect of new_column, new_row, put_left and put_up. */
module MatrixBuild {
  import opened Chains
  import opened LinkMatrix

  // ---------------------------------------------------------------- a matrix with no column covered

  ghost predicate WholeColumn(m: Matrix, st: Links, c: nat)
    requires c in m.vert
  {
    c < |st.size| && st.size[c] == |m.vert[c]| && Chain(st.down, st.up, Wrap(c, m.vert[c]))
  }

  ghost predicate WholeHeaders(m: Matrix, st: Links) {
    && Chain(st.right, st.left, Wrap(m.root, m.headers))
    && (forall c :: c in m.vert && c !in m.headers ==>
          c < |st.left| && c < |st.right| && st.left[c] == c && st.right[c] == c)
  }

  /** st holds the whole of m. */
  ghost predicate Whole(m: Matrix, st: Links) {
    && Valid(m) && Closed(st)
    && WholeHeaders(m, st) && RowsRep(m, st)
    && (forall c :: c in m.vert ==> WholeColumn(m, st, c))
  }

  lemma WholeColumnRep(m: Matrix, st: Links, c: nat)
    requires Valid(m) && c in m.vert && WholeColumn(m, st, c)
    ensures ColumnRep(m, st, LinkedSet(m, []), c)
  {
    hide OnePerColumn, Chain, ValidHeaders;
    forall i | 0 <= i < |m.vert[c]|
      ensures m.vert[c][i] in LinkedSet(m, [])
    {
      InColumn(m, c, m.vert[c][i]);
    }
    KeepAll(m.vert[c], LinkedSet(m, []));
  }

  /** A whole matrix is one in which no column has been covered. */
  lemma WholeIsRep(m: Matrix, st: Links)
    requires Whole(m, st)
    ensures Rep(m, st, [])
  {
    hide RowsRep, ValidHeaders, ValidRows, ValidColumns, OnePerColumn, Chain, WholeColumn, ColumnRep, Closed;
    KeepAll(m.headers, OpenSet(m, []));
    forall c | c in m.vert
      ensures ColumnRep(m, st, LinkedSet(m, []), c)
    {
      WholeColumnRep(m, st, c);
    }
  }

  // ---------------------------------------------------------------- link edits

  /** A node linked to itself in all four directions and heading its own, empty, column. */
  function NewNode(st: Links, x: nat): (r: Links)
    requires Closed(st) && x < |st.size|
    ensures Closed(r) && |r.size| == |st.size|
  {
    Links(st.left[x := x], st.right[x := x], st.up[x := x], st.down[x := x], st.col[x := x], st.size[x := 0])
  }

  function PutLeft(st: Links, at: nat, x: nat): (r: Links)
    requires Closed(st) && x < |st.size| && at < |st.size|
    ensures Closed(r) && |r.size| == |st.size|
  {
    var left := st.left[x := st.left[at]];
    var right := st.right[x := at][left[at] := x];
    st.(left := left[at := x], right := right)
  }

  function PutUp(st: Links, at: nat, x: nat): (r: Links)
    requires Closed(st) && x < |st.size| && at < |st.size|
    ensures Closed(r) && |r.size| == |st.size|
  {
    var up := st.up[x := st.up[at]];
    var down := st.down[x := at][up[at] := x];
    st.(up := up[at := x], down := down, size := st.size[at := st.size[at] + 1], col := st.col[x := at])
  }

  // ---------------------------------------------------------------- matrix edits

  ghost predicate Fresh(m: Matrix, x: nat) {
    x != m.root && x !in m.vert && x !in m.colOf && x !in m.rowOf && x !in m.rows
  }

  ghost function AddColumn(m: Matrix, x: nat): (r: Matrix) {
    m.(headers := m.headers + [x], vert := m.vert[x := []])
  }

  ghost function AddOptional(m: Matrix, x: nat): (r: Matrix) {
    m.(vert := m.vert[x := []])
  }

  /** A new row that so far has the one node x, in column c. */
  ghost function AddRow(m: Matrix, c: nat, x: nat): (r: Matrix)
    requires c in m.vert
  {
    m.(vert := m.vert[c := m.vert[c] + [x]], rows := m.rows[x := [x]], rowOf := m.rowOf[x := x], colOf := m.colOf[x := c])
  }

  /** The one-node row x moved to the end of row a. */
  ghost function JoinRow(m: Matrix, a: nat, x: nat): (r: Matrix)
    requires a in m.rows
  {
    m.(rows := (m.rows - {x})[a := m.rows[a] + [x]], rowOf := m.rowOf[x := a])
  }

  lemma AddColumnHeaders(m: Matrix, x: nat)
    requires ValidHeaders(m) && Fresh(m, x)
    ensures ValidHeaders(AddColumn(m, x)) && ValidHeaders(AddOptional(m, x))
  {
    assert x !in m.headers;
    DistinctConcat(m.headers, [x]);
    var r := AddOptional(m, x);
    assert r.vert.Keys == m.vert.Keys + {x};
  }

  lemma AddColumnColumns(m: Matrix, x: nat)
    requires ValidColumns(m) && Fresh(m, x)
    ensures ValidColumns(AddColumn(m, x)) && ValidColumns(AddOptional(m, x))
  {
    var r := AddOptional(m, x);
    forall c | c in r.vert
      ensures Distinct(r.vert[c]) && forall y :: y in r.vert[c] ==> y in r.colOf && r.colOf[y] == c
    {
    }
  }

  lemma AddColumnValid(m: Matrix, x: nat)
    requires Valid(m) && Fresh(m, x)
    ensures Valid(AddColumn(m, x)) && Valid(AddOptional(m, x))
  {
    hide ValidHeaders, ValidColumns;
    AddColumnHeaders(m, x);
    AddColumnColumns(m, x);
  }

  lemma AddRowColumns(m: Matrix, c: nat, x: nat)
    requires ValidColumns(m) && Fresh(m, x) && c in m.vert
    ensures ValidColumns(AddRow(m, c, x))
  {
    var r := AddRow(m, c, x);
    assert x !in m.vert[c];
    DistinctConcat(m.vert[c], [x]);
    forall d | d in r.vert
      ensures Distinct(r.vert[d]) && forall y :: y in r.vert[d] ==> y in r.colOf && r.colOf[y] == d
    {
    }
    forall y | y in r.colOf
      ensures r.colOf[y] in r.vert && y in r.vert[r.colOf[y]]
    {
    }
  }

  lemma AddRowHeaders(m: Matrix, c: nat, x: nat)
    requires ValidHeaders(m) && Fresh(m, x) && c in m.vert
    ensures ValidHeaders(AddRow(m, c, x))
  {
    assert AddRow(m, c, x).vert.Keys == m.vert.Keys;
    assert AddRow(m, c, x).colOf.Keys == m.colOf.Keys + {x};
  }

  lemma AddRowRows(m: Matrix, c: nat, x: nat)
    requires ValidRows(m) && Fresh(m, x) && c in m.vert
    ensures ValidRows(AddRow(m, c, x))
  {
    var r := AddRow(m, c, x);
    forall b | b in r.rows
      ensures r.rows[b] != [] && Distinct(r.rows[b]) && forall y :: y in r.rows[b] ==> y in r.rowOf && r.rowOf[y] == b
    {
    }
    forall y | y in r.rowOf
      ensures r.rowOf[y] in r.rows && y in r.rows[r.rowOf[y]]
    {
    }
  }

  lemma AddRowOnePer(m: Matrix, c: nat, x: nat)
    requires OnePerColumn(m) && Fresh(m, x) && c in m.vert && (forall y :: y in m.rowOf ==> m.rowOf[y] != x)
    ensures OnePerColumn(AddRow(m, c, x))
  {
  }

  lemma RowOfRow(m: Matrix)
    requires ValidRows(m)
    ensures forall y :: y in m.rowOf ==> m.rowOf[y] in m.rows
  {
  }

  lemma AddRowValid(m: Matrix, c: nat, x: nat)
    requires Valid(m) && Fresh(m, x) && c in m.vert
    ensures Valid(AddRow(m, c, x))
  {
    hide ValidHeaders, ValidColumns, ValidRows, OnePerColumn;
    AddRowHeaders(m, c, x);
    AddRowColumns(m, c, x);
    assert forall y :: y in m.rowOf ==> m.rowOf[y] != x by {
      RowOfRow(m);
    }
    AddRowRows(m, c, x);
    AddRowOnePer(m, c, x);
  }

  ghost predicate Joinable(m: Matrix, a: nat, x: nat) {
    && a in m.rows && m.rows[a] != [] && m.rows[a][0] == a
    && x in m.rows && a != x && m.rows[x] == [x]
    && x in m.colOf && !Hits(m, a, m.colOf[x])
  }

  lemma JoinRowOnePer(m: Matrix, a: nat, x: nat)
    requires ValidRows(m) && OnePerColumn(m) && Joinable(m, a, x)
    ensures OnePerColumn(JoinRow(m, a, x))
  {
    var r := JoinRow(m, a, x);
    assert m.rowOf[x] == x by {
      assert x in m.rows[x];
    }
    forall y | y in m.colOf && y != x && m.rowOf[y] == a
      ensures m.colOf[y] != m.colOf[x]
    {
      assert y in m.rows[a];
    }
  }

  lemma JoinRowValid(m: Matrix, a: nat, x: nat)
    requires Valid(m) && Joinable(m, a, x)
    ensures Valid(JoinRow(m, a, x))
  {
    hide ValidHeaders, ValidColumns, OnePerColumn;
    JoinRowOnePer(m, a, x);
    assert x in m.rows[x];
    JoinRowRows(m, a, x);
    var r := JoinRow(m, a, x);
    SameColumns(m, r);
  }

  lemma SameColumns(m: Matrix, r: Matrix)
    requires ValidHeaders(m) && ValidColumns(m)
    requires r.root == m.root && r.headers == m.headers && r.vert == m.vert && r.colOf == m.colOf
    ensures ValidHeaders(r) && ValidColumns(r)
  {
  }

  lemma JoinRowRows(m: Matrix, a: nat, x: nat)
    requires Valid(m) && Joinable(m, a, x) && x in m.rowOf && m.rowOf[x] == x && x !in m.rows[a]
    ensures ValidRows(JoinRow(m, a, x))
  {
    hide ValidHeaders, ValidColumns, OnePerColumn;
    var r := JoinRow(m, a, x);
    assert r.rowOf.Keys == r.colOf.Keys;
    forall b | b in r.rows
      ensures r.rows[b] != [] && Distinct(r.rows[b])
    {
    }
    forall y | y in r.rowOf
      ensures r.rowOf[y] in r.rows && y in r.rows[r.rowOf[y]]
    {
      if y != x {
        assert m.rowOf[y] != x by {
          assert y !in m.rows[x];
        }
      }
    }
  }

  // ---------------------------------------------------------------- the links follow the matrix

  lemma FreshOffRows(m: Matrix, x: nat, r: nat)
    requires ValidRows(m) && Fresh(m, x) && r in m.rows
    ensures x !in Wrap(m.rows[r][0], m.rows[r][1..])
  {
    InWrap(m.rows[r][0], m.rows[r][1..], x);
    assert x !in m.rows[r];
  }

  lemma FreshOffColumns(m: Matrix, x: nat, c: nat)
    requires ValidColumns(m) && Fresh(m, x) && c in m.vert
    ensures x !in Wrap(c, m.vert[c])
  {
    InWrap(c, m.vert[c], x);
  }

  /** Initialising a fresh node disturbs nothing. */
  lemma NewNodeWhole(m: Matrix, st: Links, x: nat)
    requires Whole(m, st) && Fresh(m, x) && x < |st.size|
    ensures Whole(m, NewNode(st, x))
  {
    hide Chain, ValidHeaders, ValidColumns, ValidRows, OnePerColumn, Closed;
    var st' := NewNode(st, x);
    NewNodeHeaders(m, st, x);
    NewNodeRows(m, st, x);
    forall c | c in m.vert
      ensures WholeColumn(m, st', c)
    {
      assert WholeColumn(m, st, c);
      NewNodeColumn(m, st, x, c);
    }
  }

  lemma NewNodeHeaders(m: Matrix, st: Links, x: nat)
    requires ValidHeaders(m) && Closed(st) && WholeHeaders(m, st) && Fresh(m, x) && x < |st.size|
    ensures WholeHeaders(m, NewNode(st, x))
  {
    InWrap(m.root, m.headers, x);
    ChainFrame(st.right, st.left, Wrap(m.root, m.headers), x, x, x, x);
  }

  lemma NewNodeRows(m: Matrix, st: Links, x: nat)
    requires ValidRows(m) && Closed(st) && RowsRep(m, st) && Fresh(m, x) && x < |st.size|
    ensures RowsRep(m, NewNode(st, x))
  {
    hide Chain;
    forall r | r in m.rows
      ensures RowRep(m, NewNode(st, x), r)
    {
      assert RowRep(m, st, r);
      FreshOffRows(m, x, r);
      ChainFrame(st.right, st.left, Wrap(m.rows[r][0], m.rows[r][1..]), x, x, x, x);
    }
  }

  lemma NewNodeColumn(m: Matrix, st: Links, x: nat, c: nat)
    requires ValidColumns(m) && Closed(st) && c in m.vert && WholeColumn(m, st, c) && Fresh(m, x) && x < |st.size|
    ensures WholeColumn(m, NewNode(st, x), c)
  {
    hide Chain;
    FreshOffColumns(m, x, c);
    ChainFrame(st.down, st.up, Wrap(c, m.vert[c]), x, x, x, x);
  }

  lemma AddOptionalWhole(m: Matrix, st: Links, x: nat)
    requires Whole(m, st) && Fresh(m, x) && x < |st.size|
    ensures Whole(AddOptional(m, x), NewNode(st, x))
  {
    hide Chain, ValidHeaders, ValidColumns, ValidRows, OnePerColumn;
    var st', r := NewNode(st, x), AddOptional(m, x);
    NewNodeWhole(m, st, x);
    AddColumnValid(m, x);
    forall c | c in r.vert
      ensures WholeColumn(r, st', c)
    {
      if c == x {
        EmptyColumn(st', x);
      } else {
        assert WholeColumn(m, st', c);
      }
    }
    assert RowsRep(r, st');
  }

  lemma EmptyColumn(st: Links, x: nat)
    requires Closed(st) && x < |st.size| && st.down[x] == x && st.up[x] == x
    ensures Chain(st.down, st.up, Wrap(x, []))
  {
  }

  /** append_column: a new column at the end of the header list. */
  lemma AddColumnWhole(m: Matrix, st: Links, x: nat)
    requires Whole(m, st) && Fresh(m, x) && x < |st.size|
    ensures m.root < |st.size|
    ensures Whole(AddColumn(m, x), PutLeft(NewNode(st, x), m.root, x))
  {
    hide Chain, ValidHeaders, ValidColumns, ValidRows, OnePerColumn, Closed;
    var st0, r0, r := NewNode(st, x), AddOptional(m, x), AddColumn(m, x);
    AddOptionalWhole(m, st, x);
    NewNodeHeaders(m, st, x);
    AddColumnValid(m, x);
    AppendHeader(m, st0, x);
    var st' := PutLeft(st0, m.root, x);
    forall c | c in r.vert
      ensures WholeColumn(r, st', c)
    {
      assert WholeColumn(r0, st0, c);
    }
    RowsRepHide(r0, st0, st');
    assert RowsRep(r, st');
  }

  lemma AppendHeader(m: Matrix, st: Links, x: nat)
    requires ValidHeaders(m) && Closed(st) && WholeHeaders(m, st) && Fresh(m, x) && x < |st.size|
    ensures m.root < |st.size|
    ensures WholeHeaders(AddColumn(m, x), PutLeft(st, m.root, x))
    ensures forall y :: y in m.colOf && y < |st.size| ==>
      PutLeft(st, m.root, x).left[y] == st.left[y] && PutLeft(st, m.root, x).right[y] == st.right[y]
  {
    assert x !in m.headers;
    assert Distinct([m.root] + m.headers) by {
      assert m.root !in m.headers;
      DistinctConcat([m.root], m.headers);
    }
    assert Wrap(m.root, m.headers)[0] == m.root;
    ChainAppend(st.right, st.left, m.root, m.headers, x);
    assert st.left[m.root] == m.root || st.left[m.root] in m.headers by {
      var t := Wrap(m.root, m.headers);
      InWrap(m.root, m.headers, t[|m.headers|]);
    }
  }

  lemma AppendNode(m: Matrix, st: Links, c: nat, x: nat, d: nat)
    requires Valid(m) && Closed(st) && Fresh(m, x) && x < |st.size| && c in m.vert && d in m.vert
    requires WholeColumn(m, st, c) && WholeColumn(m, st, d)
    ensures WholeColumn(AddRow(m, c, x), PutUp(st, c, x), d)
  {
    hide ValidRows, OnePerColumn;
    assert Distinct([c] + m.vert[c]) by {
      assert c !in m.vert[c];
      DistinctConcat([c], m.vert[c]);
    }
    assert x !in m.vert[c];
    ChainAppend(st.down, st.up, c, m.vert[c], x);
    if d != c {
      AppendNodeElsewhere(m, st, c, x, d);
    }
  }

  lemma AppendNodeElsewhere(m: Matrix, st: Links, c: nat, x: nat, d: nat)
    requires Valid(m) && Closed(st) && Fresh(m, x) && x < |st.size| && c in m.vert && d in m.vert && c != d
    requires WholeColumn(m, st, c) && WholeColumn(m, st, d) && st.up[c] == Wrap(c, m.vert[c])[|m.vert[c]|]
    ensures WholeColumn(AddRow(m, c, x), PutUp(st, c, x), d)
  {
    hide ValidRows, OnePerColumn;
    var t, u, v := Wrap(d, m.vert[d]), st.up[c], Wrap(c, m.vert[c]);
    FreshOffColumns(m, x, d);
    InWrap(c, m.vert[c], v[|m.vert[c]|]);
    assert u !in t by {
      InWrap(d, m.vert[d], u);
      assert forall z :: z in m.vert[d] ==> z in m.colOf && m.colOf[z] == d;
    }
    assert c !in t by {
      InWrap(d, m.vert[d], c);
    }
    ChainFrame(st.down, st.up, t, x, c, x, u);
    ChainFrame(st.down[x := c], st.up[x := u], t, u, x, c, x);
  }

  /** new_row: a new node at the bottom of column c, alone in its row. */
  lemma AddRowWhole(m: Matrix, st: Links, c: nat, x: nat)
    requires Whole(m, st) && Fresh(m, x) && x < |st.size| && c in m.vert
    ensures c < |st.size|
    ensures Whole(AddRow(m, c, x), PutUp(NewNode(st, x), c, x))
  {
    hide Chain, ValidHeaders, ValidColumns, ValidRows, OnePerColumn, RowsRep, WholeHeaders, AddRow;
    assert WholeColumn(m, st, c);
    var st0, r := NewNode(st, x), AddRow(m, c, x);
    var st' := PutUp(st0, c, x);
    NewNodeWhole(m, st, x);
    AddRowValid(m, c, x);
    AddRowLinks(m, st0, st', c, x);
    forall d | d in r.vert
      ensures WholeColumn(r, st', d)
    {
      AddRowKeys(m, c, x);
      assert WholeColumn(m, st0, d);
      AppendNode(m, st0, c, x, d);
    }
  }

  lemma AddRowKeys(m: Matrix, c: nat, x: nat)
    requires c in m.vert
    ensures AddRow(m, c, x).vert.Keys == m.vert.Keys
  {
  }

  lemma AddRowLinks(m: Matrix, st: Links, st': Links, c: nat, x: nat)
    requires Valid(m) && Fresh(m, x) && c in m.vert && Closed(st) && x < |st.size|
    requires WholeHeaders(m, st) && RowsRep(m, st) && st.right[x] == x && st.left[x] == x
    requires st'.left == st.left && st'.right == st.right && st'.col == st.col[x := c]
    ensures WholeHeaders(AddRow(m, c, x), st') && RowsRep(AddRow(m, c, x), st')
  {
    hide Chain, Valid;
    var r := AddRow(m, c, x);
    assert r.vert.Keys == m.vert.Keys;
    forall b | b in r.rows
      ensures RowRep(r, st', b)
    {
      if b == x {
        assert [x][1..] == [];
        LoneRow(st, x);
      } else {
        assert RowRep(m, st, b);
      }
    }
  }

  lemma LoneRow(st: Links, x: nat)
    requires Closed(st) && x < |st.size| && st.right[x] == x && st.left[x] == x
    ensures Chain(st.right, st.left, Wrap(x, []))
  {
  }

  // ---------------------------------------------------------------- joining rows

  /** put_left on two row nodes: the new node closes the row of a. */
  lemma JoinRowWhole(m: Matrix, st: Links, a: nat, x: nat)
    requires Whole(m, st) && Joinable(m, a, x)
    ensures a < |st.size| && x < |st.size|
    ensures Whole(JoinRow(m, a, x), PutLeft(st, a, x))
  {
    hide Chain, ValidHeaders, ValidColumns, OnePerColumn, Closed, RowsRep, WholeHeaders;
    JoinedRow(m, st, a, x);
    JoinRowValid(m, a, x);
    JoinHeaders(m, st, a, x);
    JoinRows(m, st, a, x);
    forall c | c in m.vert
      ensures WholeColumn(JoinRow(m, a, x), PutLeft(st, a, x), c)
    {
      assert WholeColumn(m, st, c);
    }
  }

  /** The nodes whose row links put_left writes all lie in the two rows. */
  lemma JoinedRow(m: Matrix, st: Links, a: nat, x: nat)
    requires ValidRows(m) && Closed(st) && RowsRep(m, st) && Joinable(m, a, x)
    ensures a < |st.size| && x < |st.size| && (st.left[a] in m.rows[a])
    ensures Chain(PutLeft(st, a, x).right, PutLeft(st, a, x).left, Wrap(a, (m.rows[a] + [x])[1..]))
  {
    var row := m.rows[a];
    assert RowRep(m, st, a);
    assert x in m.rows[x];
    assert a in row;
    assert x !in row;
    assert row == [a] + row[1..];
    assert (row + [x])[1..] == row[1..] + [x];
    ChainAppend(st.right, st.left, a, row[1..], x);
    var t := Wrap(a, row[1..]);
    assert t[|row| - 1] == row[|row| - 1];
  }

  lemma JoinHeaders(m: Matrix, st: Links, a: nat, x: nat)
    requires Valid(m) && Closed(st) && WholeHeaders(m, st) && Joinable(m, a, x)
    requires a < |st.size| && x < |st.size| && st.left[a] in m.rows[a]
    ensures WholeHeaders(JoinRow(m, a, x), PutLeft(st, a, x))
  {
    hide Chain, OnePerColumn, ValidColumns;
    assert x in m.rows[x] && a in m.rows[a];
    assert x in m.colOf && a in m.colOf && st.left[a] in m.colOf;
    assert forall c :: c in m.headers ==> c in m.vert;
    InWrap(m.root, m.headers, a);
    InWrap(m.root, m.headers, x);
    InWrap(m.root, m.headers, st.left[a]);
    PutLeftElsewhere(st, a, x, Wrap(m.root, m.headers));
  }

  lemma JoinRows(m: Matrix, st: Links, a: nat, x: nat)
    requires Valid(m) && Closed(st) && RowsRep(m, st) && Joinable(m, a, x)
    requires a < |st.size| && x < |st.size| && st.left[a] in m.rows[a]
    requires Chain(PutLeft(st, a, x).right, PutLeft(st, a, x).left, Wrap(a, (m.rows[a] + [x])[1..]))
    ensures RowsRep(JoinRow(m, a, x), PutLeft(st, a, x))
  {
    hide Chain, Valid, ValidRows;
    var r, st' := JoinRow(m, a, x), PutLeft(st, a, x);
    forall b | b in r.rows
      ensures RowRep(r, st', b)
    {
      JoinRowsAt(m, st, a, x, b);
    }
  }

  lemma JoinRowsAt(m: Matrix, st: Links, a: nat, x: nat, b: nat)
    requires Valid(m) && Closed(st) && RowsRep(m, st) && Joinable(m, a, x)
    requires a < |st.size| && x < |st.size| && st.left[a] in m.rows[a] && b in JoinRow(m, a, x).rows
    requires Chain(PutLeft(st, a, x).right, PutLeft(st, a, x).left, Wrap(a, (m.rows[a] + [x])[1..]))
    ensures RowRep(JoinRow(m, a, x), PutLeft(st, a, x), b)
  {
    hide Chain, ValidHeaders, ValidColumns, OnePerColumn, PutLeft;
    if b != a {
      var row := m.rows[b];
      assert RowRep(m, st, b);
      assert x in m.rows[x] && a in m.rows[a];
      OffRow(m, b, x);
      OffRow(m, b, a);
      OffRow(m, b, st.left[a]);
      PutLeftElsewhere(st, a, x, Wrap(row[0], row[1..]));
    }
  }

  lemma OffRow(m: Matrix, b: nat, y: nat)
    requires ValidRows(m) && b in m.rows && y in m.rowOf && m.rowOf[y] != b
    ensures y !in Wrap(m.rows[b][0], m.rows[b][1..])
  {
    InWrap(m.rows[b][0], m.rows[b][1..], y);
    assert y !in m.rows[b];
  }

  lemma PutLeftElsewhere(st: Links, a: nat, x: nat, t: seq<nat>)
    requires Closed(st) && a < |st.size| && x < |st.size| && Chain(st.right, st.left, t)
    requires a !in t && x !in t && st.left[a] !in t && x != a
    ensures Chain(PutLeft(st, a, x).right, PutLeft(st, a, x).left, t)
  {
    hide Chain;
    ChainFrame(st.right, st.left, t, x, a, x, st.left[a]);
    ChainFrame(st.right[x := a], st.left[x := st.left[a]], t, st.left[a], x, a, x);
  }

  // ---------------------------------------------------------------- the start, and fresh node numbers

  ghost function EmptyMatrix(root: nat): (m: Matrix) {
    Matrix(root, [], map[], map[], map[], map[])
  }

  lemma EmptyWhole(st: Links, root: nat)
    requires Closed(st) && root < |st.size| && st.left[root] == root && st.right[root] == root
    ensures Whole(EmptyMatrix(root), st)
  {
    LoneRow(st, root);
  }

  /** All nodes of m have numbers below k. */
  ghost predicate Within(m: Matrix, k: nat) {
    && m.root < k && (forall c :: c in m.vert ==> c < k) && (forall r :: r in m.rows ==> r < k)
    && (forall x :: x in m.colOf ==> x < k) && (forall x :: x in m.rowOf ==> x < k)
  }

  /** st holds the whole of m, and the nodes from number k on are unused. */
  ghost predicate Built(m: Matrix, st: Links, k: nat) {
    Whole(m, st) && Within(m, k) && k <= |st.size|
  }

  lemma BuiltClosed(m: Matrix, st: Links, k: nat)
    requires Built(m, st, k)
    ensures Closed(st) && Valid(m) && m.root < k <= |st.size| && Fresh(m, k)
  {
  }

  lemma AddColumnBuilt(m: Matrix, st: Links, k: nat)
    requires Built(m, st, k) && k < |st.size|
    ensures Closed(st) && m.root < |st.size|
    ensures Built(AddColumn(m, k), PutLeft(NewNode(st, k), m.root, k), k + 1)
    ensures Built(AddOptional(m, k), NewNode(st, k), k + 1)
  {
    hide Whole;
    BuiltClosed(m, st, k);
    AddColumnWhole(m, st, k);
    AddOptionalWhole(m, st, k);
  }

  lemma AddRowBuilt(m: Matrix, st: Links, c: nat, k: nat)
    requires Built(m, st, k) && k < |st.size| && c in m.vert
    ensures Closed(st) && c < |st.size|
    ensures Built(AddRow(m, c, k), PutUp(NewNode(st, k), c, k), k + 1)
  {
    hide Whole;
    BuiltClosed(m, st, k);
    AddRowWhole(m, st, c, k);
  }

  lemma JoinRowBuilt(m: Matrix, st: Links, a: nat, x: nat, k: nat)
    requires Built(m, st, k) && Joinable(m, a, x)
    ensures Closed(st) && a < |st.size| && x < |st.size|
    ensures Built(JoinRow(m, a, x), PutLeft(st, a, x), k)
  {
    hide Whole;
    BuiltClosed(m, st, k);
    JoinRowWhole(m, st, a, x);
  }

  // ---------------------------------------------------------------- a row of four nodes

  /** Four one-node rows x, x + 1, x + 2, x + 3 in the columns c0, c1, c2, c3. */
  ghost function FourRows(m: Matrix, x: nat, c0: nat, c1: nat, c2: nat, c3: nat): (r: Matrix)
    requires c0 in m.vert && c1 in m.vert && c2 in m.vert && c3 in m.vert
    ensures r.root == m.root && r.headers == m.headers && r.vert.Keys == m.vert.Keys
    ensures r.rows == m.rows[x := [x]][x + 1 := [x + 1]][x + 2 := [x + 2]][x + 3 := [x + 3]]
    ensures r.colOf == m.colOf[x := c0][x + 1 := c1][x + 2 := c2][x + 3 := c3]
    ensures r.rowOf == m.rowOf[x := x][x + 1 := x + 1][x + 2 := x + 2][x + 3 := x + 3]
  {
    AddRow(AddRow(AddRow(AddRow(m, c0, x), c1, x + 1), c2, x + 2), c3, x + 3)
  }

  lemma FourRowsSteps(m: Matrix, x: nat, c0: nat, c1: nat, c2: nat, c3: nat)
    requires c0 in m.vert && c1 in m.vert && c2 in m.vert && c3 in m.vert
    ensures var m1 := AddRow(m, c0, x);
      && c1 in m1.vert
      && var m2 := AddRow(m1, c1, x + 1);
      && c2 in m2.vert
      && var m3 := AddRow(m2, c2, x + 2);
      && c3 in m3.vert
      && FourRows(m, x, c0, c1, c2, c3) == AddRow(m3, c3, x + 3)
  {
  }

  /** Joined into the one row x. */
  ghost function Place(m: Matrix, x: nat, c0: nat, c1: nat, c2: nat, c3: nat): (r: Matrix)
    requires c0 in m.vert && c1 in m.vert && c2 in m.vert && c3 in m.vert
  {
    JoinRow(JoinRow(JoinRow(FourRows(m, x, c0, c1, c2, c3), x, x + 1), x, x + 2), x, x + 3)
  }

  ghost predicate Unused(m: Matrix, k: nat) {
    && (forall r :: r in m.rows ==> r < k) && (forall x :: x in m.colOf ==> x < k) && (forall x :: x in m.rowOf ==> x < k)
  }

  ghost predicate Placeable(m: Matrix, x: nat, c0: nat, c1: nat, c2: nat, c3: nat) {
    Valid(m) && c0 in m.vert && c1 in m.vert && c2 in m.vert && c3 in m.vert && Unused(m, x)
  }

  lemma PlaceShape(m: Matrix, x: nat, c0: nat, c1: nat, c2: nat, c3: nat)
    requires c0 in m.vert && c1 in m.vert && c2 in m.vert && c3 in m.vert && Unused(m, x)
    ensures var r := Place(m, x, c0, c1, c2, c3);
      && r.root == m.root && r.headers == m.headers && r.vert.Keys == m.vert.Keys
      && r.rows == m.rows[x := [x, x + 1, x + 2, x + 3]]
      && r.colOf == m.colOf[x := c0][x + 1 := c1][x + 2 := c2][x + 3 := c3]
      && r.rowOf == m.rowOf[x := x][x + 1 := x][x + 2 := x][x + 3 := x]
  {
    hide FourRows;
    assert x + 1 !in m.rows && x + 2 !in m.rows && x + 3 !in m.rows;
    assert [x] + [x + 1] + [x + 2] + [x + 3] == [x, x + 1, x + 2, x + 3];
    var r := Place(m, x, c0, c1, c2, c3);
    assert r.rows[x] == [x] + [x + 1] + [x + 2] + [x + 3];
  }

  /** The new row hits its four columns and the others hit what they did. */
  lemma PlaceHits(m: Matrix, x: nat, c0: nat, c1: nat, c2: nat, c3: nat, r: nat, c: nat)
    requires c0 in m.vert && c1 in m.vert && c2 in m.vert && c3 in m.vert && Unused(m, x) && ValidRows(m)
    requires r in m.rows || r == x
    ensures Hits(Place(m, x, c0, c1, c2, c3), r, c) <==>
      if r == x then c == c0 || c == c1 || c == c2 || c == c3 else Hits(m, r, c)
  {
    hide Place;
    PlaceShape(m, x, c0, c1, c2, c3);
    var p := Place(m, x, c0, c1, c2, c3);
    if r == x {
      var row := p.rows[x];
      assert row[0] in row && row[1] in row && row[2] in row && row[3] in row;
    } else {
      assert p.rows[r] == m.rows[r];
      forall y | y in m.rows[r]
        ensures y < x
      {
        assert y in m.rowOf;
      }
    }
  }

  lemma JoinableFirst(m: Matrix, x: nat, c0: nat, c1: nat, c2: nat, c3: nat)
    requires c0 in m.vert && c1 in m.vert && c2 in m.vert && c3 in m.vert && Unused(m, x)
    requires c0 != c1 && c0 != c2 && c0 != c3 && c1 != c2 && c1 != c3 && c2 != c3
    ensures var f := FourRows(m, x, c0, c1, c2, c3);
      && Joinable(f, x, x + 1)
      && Joinable(JoinRow(f, x, x + 1), x, x + 2)
      && Joinable(JoinRow(JoinRow(f, x, x + 1), x, x + 2), x, x + 3)
  {
    hide FourRows, JoinRow;
    var f := FourRows(m, x, c0, c1, c2, c3);
    assert f.rows[x] == [x];
    assert Joinable(f, x, x + 1) && Joinable(f, x, x + 2) && Joinable(f, x, x + 3);
    JoinableStill(f, x, x + 1, x + 2);
    JoinableStill(f, x, x + 1, x + 3);
    JoinableStill(JoinRow(f, x, x + 1), x, x + 2, x + 3);
  }

  /** A row that could be joined can be joined after another in a different column. */
  lemma JoinableStill(m: Matrix, a: nat, x: nat, y: nat)
    requires Joinable(m, a, x) && Joinable(m, a, y) && x != y && m.colOf[x] != m.colOf[y]
    ensures Joinable(JoinRow(m, a, x), a, y) && JoinRow(m, a, x).colOf == m.colOf
  {
  }

  lemma BuiltUnused(m: Matrix, st: Links, k: nat)
    requires Built(m, st, k)
    ensures Unused(m, k) && Valid(m)
  {
  }

  /** What has been built is the matrix with no column covered. */
  lemma BuiltRep(m: Matrix, st: Links, k: nat)
    requires Built(m, st, k)
    ensures Rep(m, st, [])
  {
    WholeIsRep(m, st);
  }
}

/** The link matrix of the dancing-links solvers as a value, and what covering a column does to it. */
module LinkMatrix {
  import opened Chains

  /** The link fields of all nodes, indexed by node number. */
  datatype Links = Links(left: seq<nat>, right: seq<nat>, up: seq<nat>, down: seq<nat>, col: seq<nat>, size: seq<int>)

  ghost predicate Indices(s: seq<nat>, n: nat) {
    |s| == n && forall i :: 0 <= i < n ==> s[i] < n
  }

  /** Every field is present for every node and every link stays inside the node array. */
  ghost predicate Closed(st: Links) {
    var n := |st.size|;
    Indices(st.left, n) && Indices(st.right, n) && Indices(st.up, n) && Indices(st.down, n) && Indices(st.col, n)
  }

  /** Which nodes exist, which column and row each belongs to, and the order of every list.
      A row is named by its first node; columns that are not in `headers` are the optional ones. */
  datatype Matrix = Matrix(
    root: nat, headers: seq<nat>,
    vert: map<nat, seq<nat>>, rows: map<nat, seq<nat>>,
    rowOf: map<nat, nat>, colOf: map<nat, nat>)

  ghost predicate ValidHeaders(m: Matrix) {
    && m.root !in m.vert && m.root !in m.colOf
    && m.vert.Keys !! m.colOf.Keys
    && Distinct(m.headers)
    && (forall c :: c in m.headers ==> c in m.vert)
  }

  ghost predicate ValidColumns(m: Matrix) {
    && (forall c :: c in m.vert ==> Distinct(m.vert[c]))
    && (forall c, x :: c in m.vert && x in m.vert[c] ==> x in m.colOf && m.colOf[x] == c)
    && (forall x :: x in m.colOf ==> m.colOf[x] in m.vert && x in m.vert[m.colOf[x]])
  }

  ghost predicate ValidRows(m: Matrix) {
    && m.rowOf.Keys == m.colOf.Keys
    && (forall r :: r in m.rows ==> m.rows[r] != [] && Distinct(m.rows[r]))
    && (forall r, x :: r in m.rows && x in m.rows[r] ==> x in m.rowOf && m.rowOf[x] == r)
    && (forall x :: x in m.rowOf ==> m.rowOf[x] in m.rows && x in m.rows[m.rowOf[x]])
  }

  /** A row has at most one node in a column. */
  ghost predicate OnePerColumn(m: Matrix) {
    forall x, y ::
      (x in m.rowOf && y in m.rowOf && m.rowOf[x] == m.rowOf[y] && x in m.colOf && y in m.colOf && m.colOf[x] == m.colOf[y])
      ==> x == y
  }

  ghost predicate Valid(m: Matrix) {
    ValidHeaders(m) && ValidColumns(m) && ValidRows(m) && OnePerColumn(m)
  }

  // ---------------------------------------------------------------- which nodes are linked vertically

  ghost predicate Hits(m: Matrix, r: nat, c: nat) {
    r in m.rows && exists x :: x in m.rows[r] && x in m.colOf && m.colOf[x] == c
  }

  ghost predicate Meets(m: Matrix, r: nat, cs: seq<nat>) {
    exists c :: c in cs && Hits(m, r, c)
  }

  /** x is still on its vertical list after the columns ks have been covered in that order:
      no column covered before its own one takes x's row away. */
  ghost predicate Linked(m: Matrix, ks: seq<nat>, x: nat)
    requires x in m.colOf && x in m.rowOf
  {
    ks == [] || (
      var k := |ks| - 1;
      && Linked(m, ks[..k], x)
      && (m.colOf[x] in ks || !Hits(m, m.rowOf[x], ks[k])))
  }

  ghost function LinkedSet(m: Matrix, ks: seq<nat>): (s: set<nat>)
    requires ValidRows(m)
  {
    set x | x in m.colOf && Linked(m, ks, x)
  }

  /** In a column that is still open, the linked nodes are those of the rows that avoid all covered columns. */
  lemma {:induction false} LinkedInOpenColumn(m: Matrix, ks: seq<nat>, x: nat)
    requires x in m.colOf && x in m.rowOf && m.colOf[x] !in ks
    ensures Linked(m, ks, x) <==> !Meets(m, m.rowOf[x], ks)
  {
    if ks == [] {
    } else {
      var front := ks[..|ks| - 1];
      assert ks == front + [ks[|ks| - 1]];
      LinkedInOpenColumn(m, front, x);
    }
  }

  /** The nodes a column's vertical list holds after the columns ks have been covered. */
  ghost function Live(m: Matrix, ks: seq<nat>, c: nat): (xs: seq<nat>)
    requires Valid(m) && c in m.vert
    ensures forall i :: 0 <= i < |xs| ==> xs[i] in m.rowOf && xs[i] in m.colOf && m.colOf[xs[i]] == c
  {
    Keep(m.vert[c], LinkedSet(m, ks))
  }

  // ---------------------------------------------------------------- representation

  ghost predicate ColumnRep(m: Matrix, st: Links, linked: set<nat>, c: nat)
    requires c in m.vert
  {
    var xs := Keep(m.vert[c], linked);
    && c < |st.size| && st.size[c] == |xs|
    && Chain(st.down, st.up, Wrap(c, xs))
  }

  /** Every vertical list holds exactly its linked nodes, in order, and `size` counts them. */
  ghost predicate ColumnsRep(m: Matrix, st: Links, linked: set<nat>) {
    forall c :: c in m.vert ==> ColumnRep(m, st, linked, c)
  }

  ghost predicate RowRep(m: Matrix, st: Links, r: nat)
    requires r in m.rows
  {
    m.rows[r] != [] && Chain(st.right, st.left, Wrap(m.rows[r][0], m.rows[r][1..]))
  }

  /** `right` and `left` go round every row, and every node knows its column. */
  ghost predicate RowsRep(m: Matrix, st: Links) {
    && (forall r :: r in m.rows ==> RowRep(m, st, r))
    && (forall x :: x in m.colOf ==> x < |st.col| && st.col[x] == m.colOf[x])
  }

  ghost function OpenSet(m: Matrix, ks: seq<nat>): (s: set<nat>) {
    set c | c in m.headers && c !in ks
  }

  ghost function OpenHeaders(m: Matrix, ks: seq<nat>): (hs: seq<nat>) {
    Keep(m.headers, OpenSet(m, ks))
  }

  /** The header list holds the open primary columns; an optional column is alone in its list. */
  ghost predicate HeaderRep(m: Matrix, st: Links, ks: seq<nat>) {
    && Chain(st.right, st.left, Wrap(m.root, OpenHeaders(m, ks)))
    && (forall c :: c in m.vert && c !in m.headers ==>
          c < |st.left| && c < |st.right| && st.left[c] == c && st.right[c] == c)
  }

  /** st represents the matrix m after the columns ks have been covered in that order. */
  ghost predicate Rep(m: Matrix, st: Links, ks: seq<nat>) {
    && Valid(m) && Closed(st)
    && Distinct(ks) && (forall c :: c in ks ==> c in m.vert)
    && HeaderRep(m, st, ks) && RowsRep(m, st)
    && ColumnsRep(m, st, LinkedSet(m, ks))
  }

  // ---------------------------------------------------------------- the four link edits

  function Unlink(st: Links, j: nat): (r: Links)
    requires Closed(st) && j < |st.size|
    ensures Closed(r) && |r.size| == |st.size|
    ensures r.left == st.left && r.right == st.right && r.col == st.col
  {
    var up := st.up[st.down[j] := st.up[j]];
    var down := st.down[up[j] := st.down[j]];
    st.(up := up, down := down, size := st.size[st.col[j] := st.size[st.col[j]] - 1])
  }

  function Relink(st: Links, j: nat): (r: Links)
    requires Closed(st) && j < |st.size|
    ensures Closed(r) && |r.size| == |st.size|
  {
    var up := st.up[st.down[j] := j];
    var down := st.down[up[j] := j];
    st.(up := up, down := down, size := st.size[st.col[j] := st.size[st.col[j]] + 1])
  }

  function HideHeader(st: Links, c: nat): (r: Links)
    requires Closed(st) && c < |st.size|
    ensures Closed(r) && |r.size| == |st.size|
    ensures r.up == st.up && r.down == st.down && r.col == st.col && r.size == st.size
  {
    var left := st.left[st.right[c] := st.left[c]];
    var right := st.right[left[c] := st.right[c]];
    st.(left := left, right := right)
  }

  function ShowHeader(st: Links, c: nat): (r: Links)
    requires Closed(st) && c < |st.size|
    ensures Closed(r) && |r.size| == |st.size|
  {
    var left := st.left[st.right[c] := c];
    var right := st.right[left[c] := c];
    st.(left := left, right := right)
  }

  /** Linking x back in undoes unlinking it, field by field, whenever both neighbours pointed at x. */
  lemma RelinkUndoesUnlink(st: Links, x: nat)
    requires Closed(st) && x < |st.size|
    requires st.up[st.down[x]] == x && st.down[st.up[x]] == x
    ensures Relink(Unlink(st, x), x) == st
  {
    var u, d := st.up[x], st.down[x];
    var st' := Unlink(st, x);
    assert st'.down[x] == d && st'.up[x] == u;
    var st'' := Relink(st', x);
    assert st''.up == st.up;
    assert st''.down == st.down;
    assert st''.size == st.size;
  }

  lemma ShowUndoesHide(st: Links, c: nat)
    requires Closed(st) && c < |st.size|
    requires st.left[st.right[c]] == c && st.right[st.left[c]] == c
    ensures ShowHeader(HideHeader(st, c), c) == st
  {
    var l, r := st.left[c], st.right[c];
    var st' := HideHeader(st, c);
    assert st'.right[c] == r && st'.left[c] == l;
    var st'' := ShowHeader(st', c);
    assert st''.left == st.left;
    assert st''.right == st.right;
  }

  // ---------------------------------------------------------------- unlinking a list of nodes

  ghost predicate Below(xs: seq<nat>, n: nat) {
    forall i :: 0 <= i < |xs| ==> xs[i] < n
  }

  function UnlinkAll(st: Links, xs: seq<nat>): (r: Links)
    requires Closed(st) && Below(xs, |st.size|)
    ensures Closed(r) && |r.size| == |st.size|
    ensures r.left == st.left && r.right == st.right && r.col == st.col
  {
    if xs == [] then st
    else Unlink(UnlinkAll(st, xs[..|xs| - 1]), xs[|xs| - 1])
  }

  lemma UnlinkAllSnoc(st: Links, xs: seq<nat>, x: nat)
    requires Closed(st) && Below(xs, |st.size|) && x < |st.size|
    ensures UnlinkAll(st, xs + [x]) == Unlink(UnlinkAll(st, xs), x)
  {
    assert (xs + [x])[..|xs + [x]| - 1] == xs;
  }

  /** A linked node points at its neighbours and they point back. */
  lemma LinkedNeighbours(m: Matrix, st: Links, linked: set<nat>, x: nat)
    requires Valid(m) && Closed(st) && ColumnsRep(m, st, linked) && RowsRep(m, st)
    requires x in m.colOf && x in linked
    ensures x < |st.size| && st.col[x] == m.colOf[x]
    ensures st.up[st.down[x]] == x && st.down[st.up[x]] == x
    ensures st.up[x] == m.colOf[x] || st.up[x] in m.vert[m.colOf[x]]
    ensures st.down[x] == m.colOf[x] || st.down[x] in m.vert[m.colOf[x]]
    ensures st.down[x] != x
  {
    var c := m.colOf[x];
    var xs := Keep(m.vert[c], linked);
    assert ColumnRep(m, st, linked, c);
    var k :| 0 <= k < |xs| && xs[k] == x;
    HeadedDistinct(m, linked, c);
    ChainNeighbours(st.down, st.up, c, xs, k);
  }

  lemma HeadedDistinct(m: Matrix, linked: set<nat>, c: nat)
    requires Valid(m) && c in m.vert
    ensures Distinct([c] + Keep(m.vert[c], linked))
  {
    KeepDistinct(m.vert[c], linked);
    var xs := Keep(m.vert[c], linked);
    assert c !in xs;
    assert forall i :: 0 <= i < |xs| ==> xs[i] in xs;
  }

  /** Unlinking a linked node removes it from its own column and touches no other column. */
  lemma UnlinkRep(m: Matrix, st: Links, linked: set<nat>, x: nat)
    requires Valid(m) && Closed(st) && ColumnsRep(m, st, linked) && RowsRep(m, st)
    requires x in m.colOf && x in linked
    ensures x < |st.size|
    ensures ColumnsRep(m, Unlink(st, x), linked - {x})
  {
    LinkedNeighbours(m, st, linked, x);
    forall d | d in m.vert
      ensures ColumnRep(m, Unlink(st, x), linked - {x}, d)
    {
      if d == m.colOf[x] {
        UnlinkOwnColumn(m, st, linked, x);
      } else {
        UnlinkOtherColumn(m, st, linked, x, d);
      }
    }
  }

  lemma UnlinkOwnColumn(m: Matrix, st: Links, linked: set<nat>, x: nat)
    requires Valid(m) && Closed(st) && ColumnsRep(m, st, linked)
    requires x in m.colOf && x in linked && x < |st.size| && st.col[x] == m.colOf[x]
    requires st.up[st.down[x]] == x && st.down[st.up[x]] == x
    ensures ColumnRep(m, Unlink(st, x), linked - {x}, m.colOf[x])
  {
    var c := m.colOf[x];
    var xs := Keep(m.vert[c], linked);
    assert ColumnRep(m, st, linked, c);
    HeadedDistinct(m, linked, c);
    var k := KeepRemove(m.vert[c], linked, x);
    ChainRemove(st.down, st.up, c, xs, k);
    var t := Wrap(c, xs);
    assert t[k + 1] == x && t[k] != x;
    assert st.down[x] != x;
  }

  /** No node of another column is on column d's list. */
  lemma Foreign(m: Matrix, linked: set<nat>, c: nat, d: nat, y: nat)
    requires ValidHeaders(m) && ValidColumns(m) && c in m.vert && d in m.vert && c != d
    requires y == c || y in m.vert[c]
    ensures y !in Wrap(d, Keep(m.vert[d], linked))
  {
    InWrap(d, Keep(m.vert[d], linked), y);
    assert forall z :: z in m.vert[d] ==> z in m.colOf && m.colOf[z] == d;
  }

  lemma UnlinkOtherColumn(m: Matrix, st: Links, linked: set<nat>, x: nat, d: nat)
    requires Valid(m) && Closed(st) && d in m.vert && ColumnRep(m, st, linked, d)
    requires x in m.colOf && x < |st.size| && st.col[x] == m.colOf[x]
    requires st.up[x] == m.colOf[x] || st.up[x] in m.vert[m.colOf[x]]
    requires st.down[x] == m.colOf[x] || st.down[x] in m.vert[m.colOf[x]]
    requires st.down[x] != x
    requires d != m.colOf[x]
    ensures ColumnRep(m, Unlink(st, x), linked - {x}, d)
  {
    var xs := Keep(m.vert[d], linked);
    KeepCong(m.vert[d], linked, linked - {x});
    Foreign(m, linked, m.colOf[x], d, st.up[x]);
    Foreign(m, linked, m.colOf[x], d, st.down[x]);
    ChainFrame(st.down, st.up, Wrap(d, xs), st.up[x], st.down[x], st.down[x], st.up[x]);
  }

  ghost function ToSet(xs: seq<nat>): (s: set<nat>) {
    set x | x in xs
  }

  lemma RowsRepFrame(m: Matrix, st: Links, st': Links)
    requires Valid(m) && RowsRep(m, st)
    requires st'.left == st.left && st'.right == st.right && st'.col == st.col
    ensures RowsRep(m, st')
  {
  }

  /** Unlinking distinct linked nodes one after the other. */
  lemma {:induction false} UnlinkAllRep(m: Matrix, st: Links, linked: set<nat>, xs: seq<nat>)
    requires Valid(m) && Closed(st) && ColumnsRep(m, st, linked) && RowsRep(m, st)
    requires Distinct(xs) && (forall i :: 0 <= i < |xs| ==> xs[i] in m.colOf && xs[i] in linked)
    ensures Below(xs, |st.size|)
    ensures ColumnsRep(m, UnlinkAll(st, xs), linked - ToSet(xs))
    ensures RowsRep(m, UnlinkAll(st, xs))
  {
    hide Valid, ColumnsRep, RowsRep;
    if xs == [] {
      assert linked - ToSet(xs) == linked;
    } else {
      var k := |xs| - 1;
      var front, x := xs[..k], xs[k];
      UnlinkAllRep(m, st, linked, front);
      var st' := UnlinkAll(st, front);
      assert x !in front;
      UnlinkRep(m, st', linked - ToSet(front), x);
      assert linked - ToSet(front) - {x} == linked - ToSet(xs) by {
        assert xs == front + [x];
      }
      RowsRepFrame(m, st, UnlinkAll(st, xs));
    }
  }

  // ---------------------------------------------------------------- covering a column

  /** The nodes of x's row after x, going right round the row. */
  ghost function Rest(m: Matrix, x: nat): (r: seq<nat>)
    requires ValidRows(m) && x in m.rowOf
    ensures forall y :: y in r <==> y in m.rows[m.rowOf[x]] && y != x
  {
    var row := m.rows[m.rowOf[x]];
    var p :| 0 <= p < |row| && row[p] == x;
    row[p + 1..] + row[..p]
  }

  lemma RestDistinct(m: Matrix, x: nat)
    requires ValidRows(m) && x in m.rowOf
    ensures Distinct([x] + Rest(m, x))
  {
    var row := m.rows[m.rowOf[x]];
    var p :| 0 <= p < |row| && row[p] == x && Rest(m, x) == row[p + 1..] + row[..p];
    assert Distinct(row);
  }

  /** `right` and `left` go round the row from x. */
  lemma RowFrom(m: Matrix, st: Links, x: nat)
    requires ValidRows(m) && RowsRep(m, st) && x in m.rowOf
    ensures Chain(st.right, st.left, Wrap(x, Rest(m, x)))
  {
    var row := m.rows[m.rowOf[x]];
    var p :| 0 <= p < |row| && row[p] == x && Rest(m, x) == row[p + 1..] + row[..p];
    ChainRotate(st.right, st.left, row, p);
  }

  /** What covering a column unlinks when xs are the nodes on its vertical list. */
  ghost function Rests(m: Matrix, xs: seq<nat>): (r: seq<nat>)
    requires ValidRows(m) && (forall i :: 0 <= i < |xs| ==> xs[i] in m.rowOf)
  {
    if xs == [] then [] else Rests(m, xs[..|xs| - 1]) + Rest(m, xs[|xs| - 1])
  }

  /** y is unlinked exactly when it shares a row with some other node of xs. */
  lemma {:induction false} InRests(m: Matrix, xs: seq<nat>, y: nat)
    requires ValidRows(m) && (forall i :: 0 <= i < |xs| ==> xs[i] in m.rowOf)
    ensures y in Rests(m, xs) <==> exists i :: 0 <= i < |xs| && y in Rest(m, xs[i])
  {
    hide Rest;
    if xs == [] {
    } else {
      var k := |xs| - 1;
      InRests(m, xs[..k], y);
      if y in Rests(m, xs[..k]) {
        var i :| 0 <= i < k && y in Rest(m, xs[..k][i]);
        assert xs[i] == xs[..k][i];
      }
      if i :| 0 <= i < |xs| && y in Rest(m, xs[i]) {
        if i < k {
          assert y in Rest(m, xs[..k][i]);
        }
      }
    }
  }

  lemma RestRow(m: Matrix, x: nat, y: nat)
    requires ValidRows(m) && x in m.rowOf && y in Rest(m, x)
    ensures y in m.rowOf && m.rowOf[y] == m.rowOf[x] && y != x
  {
    hide Rest;
  }

  lemma {:induction false} RestsDistinct(m: Matrix, xs: seq<nat>)
    requires ValidRows(m) && (forall i :: 0 <= i < |xs| ==> xs[i] in m.rowOf)
    requires forall i, j :: 0 <= i < j < |xs| ==> m.rowOf[xs[i]] != m.rowOf[xs[j]]
    ensures Distinct(Rests(m, xs))
  {
    hide ValidRows, Rest;
    if xs == [] {
    } else {
      var k := |xs| - 1;
      RestsDistinct(m, xs[..k]);
      var front, last := Rests(m, xs[..k]), Rest(m, xs[k]);
      assert Distinct(last) by {
        RestDistinct(m, xs[k]);
        assert last == ([xs[k]] + last)[1..];
      }
      forall y | y in front
        ensures y !in last
      {
        InRests(m, xs[..k], y);
        var h :| 0 <= h < k && y in Rest(m, xs[..k][h]);
        RestRow(m, xs[h], y);
        if y in last {
          RestRow(m, xs[k], y);
        }
      }
      DistinctConcat(front, last);
    }
  }

  /** The nodes that covering column c unlinks, in the order in which it does so. */
  ghost function Removed(m: Matrix, ks: seq<nat>, c: nat): (r: seq<nat>)
    requires Valid(m) && c in m.vert
  {
    Rests(m, Live(m, ks, c))
  }

  /** A node shares a row with a live node of the open column c exactly when its own row is live and hits c. */
  lemma RemovedIsLive(m: Matrix, ks: seq<nat>, c: nat, x: nat, y: nat)
    requires Valid(m) && c in m.vert && c !in ks
    requires x in Live(m, ks, c) && y in Rest(m, x)
    ensures y in m.colOf && Linked(m, ks, y) && !Linked(m, ks + [c], y) && m.colOf[y] != c && m.colOf[y] !in ks
  {
    hide Rest;
    LinkedInOpenColumn(m, ks, x);
    assert y in m.rows[m.rowOf[x]] && m.rowOf[y] == m.rowOf[x];
    assert m.colOf[y] in ks ==> Hits(m, m.rowOf[y], m.colOf[y]);
    LinkedInOpenColumn(m, ks, y);
    assert Hits(m, m.rowOf[y], c);
    assert (ks + [c])[|ks + [c]| - 1] == c;
  }

  lemma LiveRowmate(m: Matrix, ks: seq<nat>, c: nat, y: nat) returns (x: nat)
    requires Valid(m) && c in m.vert && c !in ks
    requires y in m.colOf && Linked(m, ks, y) && m.colOf[y] !in ks && m.colOf[y] != c && Hits(m, m.rowOf[y], c)
    ensures x in Live(m, ks, c) && y in m.rows[m.rowOf[x]] && y != x
  {
    LinkedInOpenColumn(m, ks, y);
    x :| x in m.rows[m.rowOf[y]] && x in m.colOf && m.colOf[x] == c;
    assert m.rowOf[x] == m.rowOf[y];
    LinkedInOpenColumn(m, ks, x);
  }

  lemma UnlinkedIsRemoved(m: Matrix, ks: seq<nat>, c: nat, y: nat)
    requires Valid(m) && c in m.vert && c !in ks
    requires y in m.colOf && Linked(m, ks, y) && !Linked(m, ks + [c], y)
    ensures y in Removed(m, ks, c)
  {
    hide Rest, ValidColumns, ValidRows, OnePerColumn;
    assert (ks + [c])[..|ks|] == ks;
    var x := LiveRowmate(m, ks, c, y);
    var xs := Live(m, ks, c);
    var i :| 0 <= i < |xs| && xs[i] == x;
    assert y in Rest(m, xs[i]);
    InRests(m, xs, y);
  }

  lemma RemovedDistinct(m: Matrix, ks: seq<nat>, c: nat)
    requires Valid(m) && c in m.vert
    ensures Distinct(Removed(m, ks, c))
  {
    hide Rest, Rests;
    var xs := Live(m, ks, c);
    KeepDistinct(m.vert[c], LinkedSet(m, ks));
    forall i, j | 0 <= i < j < |xs|
      ensures m.rowOf[xs[i]] != m.rowOf[xs[j]]
    {
      assert m.colOf[xs[i]] == c && m.colOf[xs[j]] == c;
    }
    RestsDistinct(m, xs);
  }

  lemma RemovedAreLinked(m: Matrix, ks: seq<nat>, c: nat, y: nat)
    requires Valid(m) && c in m.vert && c !in ks && y in Removed(m, ks, c)
    ensures y in m.colOf && Linked(m, ks, y) && !Linked(m, ks + [c], y) && m.colOf[y] != c
  {
    hide Rest, Rests;
    var xs := Live(m, ks, c);
    InRests(m, xs, y);
    var i :| 0 <= i < |xs| && y in Rest(m, xs[i]);
    RemovedIsLive(m, ks, c, xs[i], y);
  }

  /** Covering column c unlinks exactly the nodes that are linked after ks but not after ks followed by c. */
  lemma RemovedSet(m: Matrix, ks: seq<nat>, c: nat)
    requires Valid(m) && c in m.vert && c !in ks
    ensures LinkedSet(m, ks + [c]) == LinkedSet(m, ks) - ToSet(Removed(m, ks, c))
  {
    hide Removed, ValidColumns, OnePerColumn;
    assert (ks + [c])[..|ks|] == ks;
    forall y | y in m.colOf
      ensures y in LinkedSet(m, ks + [c]) <==> y in LinkedSet(m, ks) && y !in Removed(m, ks, c)
    {
      if y in Removed(m, ks, c) {
        RemovedAreLinked(m, ks, c, y);
      } else if Linked(m, ks, y) && !Linked(m, ks + [c], y) {
        UnlinkedIsRemoved(m, ks, c, y);
      }
    }
    forall y | y in Removed(m, ks, c)
      ensures y in m.colOf
    {
      RemovedAreLinked(m, ks, c, y);
    }
  }

  // ---------------------------------------------------------------- the header list

  lemma OpenHeadersDistinct(m: Matrix, ks: seq<nat>)
    requires ValidHeaders(m)
    ensures Distinct([m.root] + OpenHeaders(m, ks))
  {
    KeepDistinct(m.headers, OpenSet(m, ks));
    assert m.root !in m.headers;
    assert forall i :: 0 <= i < |OpenHeaders(m, ks)| ==> OpenHeaders(m, ks)[i] in m.headers;
  }

  /** Hiding an open primary column takes its header out of the header list. */
  lemma HidePrimary(m: Matrix, st: Links, ks: seq<nat>, c: nat)
    requires ValidHeaders(m) && Closed(st) && HeaderRep(m, st, ks)
    requires c in m.headers && c !in ks
    ensures c < |st.size| && st.left[st.right[c]] == c && st.right[st.left[c]] == c
    ensures st.left[c] == m.root || st.left[c] in m.headers
    ensures st.right[c] == m.root || st.right[c] in m.headers
    ensures Chain(HideHeader(st, c).right, HideHeader(st, c).left, Wrap(m.root, OpenHeaders(m, ks + [c])))
  {
    var hs := OpenHeaders(m, ks);
    OpenHeadersDistinct(m, ks);
    var k := KeepRemove(m.headers, OpenSet(m, ks), c);
    ChainNeighbours(st.right, st.left, m.root, hs, k);
    ChainRemove(st.right, st.left, m.root, hs, k);
    assert OpenSet(m, ks + [c]) == OpenSet(m, ks) - {c};
  }

  lemma HideHeaderRep(m: Matrix, st: Links, ks: seq<nat>, c: nat)
    requires ValidHeaders(m) && Closed(st) && HeaderRep(m, st, ks)
    requires c in m.vert && c !in ks
    ensures c < |st.size| && st.left[st.right[c]] == c && st.right[st.left[c]] == c
    ensures HeaderRep(m, HideHeader(st, c), ks + [c])
    ensures forall x :: x in m.colOf && x < |st.size| ==>
      HideHeader(st, c).left[x] == st.left[x] && HideHeader(st, c).right[x] == st.right[x]
  {
    hide Chain;
    if c in m.headers {
      HidePrimary(m, st, ks, c);
    } else {
      assert HideHeader(st, c) == st;
      assert OpenSet(m, ks + [c]) == OpenSet(m, ks);
    }
  }

  lemma RowsRepHide(m: Matrix, st: Links, st': Links)
    requires Valid(m) && Closed(st) && Closed(st') && RowsRep(m, st) && st'.col == st.col
    requires |st'.size| == |st.size|
    requires forall x :: x in m.colOf && x < |st.size| ==> st'.left[x] == st.left[x] && st'.right[x] == st.right[x]
    ensures RowsRep(m, st')
  {
    forall r | r in m.rows
      ensures RowRep(m, st', r)
    {
      assert RowRep(m, st, r);
      var t := Wrap(m.rows[r][0], m.rows[r][1..]);
      forall i | 0 <= i < |t|
        ensures t[i] in m.colOf
      {
        assert t[i] in m.rows[r];
      }
      ChainSame(st.right, st.left, st'.right, st'.left, t);
    }
  }

  // ---------------------------------------------------------------- cover

  ghost predicate Coverable(m: Matrix, st: Links, ks: seq<nat>, c: nat) {
    Valid(m) && Rep(m, st, ks) && c in m.vert && c !in ks
  }

  /** st with its header for c hidden: where `cover` starts to unlink nodes. */
  lemma Hidden(m: Matrix, st: Links, ks: seq<nat>, c: nat)
    requires Coverable(m, st, ks, c)
    ensures c < |st.size| && ShowHeader(HideHeader(st, c), c) == st
    ensures HeaderRep(m, HideHeader(st, c), ks + [c])
    ensures RowsRep(m, HideHeader(st, c)) && ColumnsRep(m, HideHeader(st, c), LinkedSet(m, ks))
  {
    hide ValidColumns, ValidRows, OnePerColumn, RowsRep, HeaderRep;
    HideHeaderRep(m, st, ks, c);
    ShowUndoesHide(st, c);
    RowsRepHide(m, st, HideHeader(st, c));
    var st' := HideHeader(st, c);
    forall d | d in m.vert
      ensures ColumnRep(m, st', LinkedSet(m, ks), d)
    {
      assert ColumnRep(m, st, LinkedSet(m, ks), d);
    }
  }

  /** Every initial stretch of what `cover` unlinks leaves the lists of the nodes still linked. */
  lemma PartlyRemoved(m: Matrix, st: Links, ks: seq<nat>, c: nat, ys: seq<nat>)
    requires Coverable(m, st, ks, c) && ys <= Removed(m, ks, c)
    ensures c < |st.size| && Below(ys, |st.size|)
    ensures RowsRep(m, UnlinkAll(HideHeader(st, c), ys))
    ensures ColumnsRep(m, UnlinkAll(HideHeader(st, c), ys), LinkedSet(m, ks) - ToSet(ys))
  {
    hide ValidColumns, OnePerColumn, RowsRep, HeaderRep, ColumnsRep;
    Hidden(m, st, ks, c);
    RemovedDistinct(m, ks, c);
    var rs := Removed(m, ks, c);
    forall i | 0 <= i < |ys|
      ensures ys[i] in m.colOf && ys[i] in LinkedSet(m, ks)
    {
      assert ys[i] == rs[i];
      RemovedAreLinked(m, ks, c, rs[i]);
    }
    UnlinkAllRep(m, HideHeader(st, c), LinkedSet(m, ks), ys);
  }

  /** The links part-way through `cover(c)`, when the nodes ys have been unlinked. */
  ghost function Stage(m: Matrix, st: Links, ks: seq<nat>, c: nat, ys: seq<nat>): (r: Links)
    requires Coverable(m, st, ks, c) && ys <= Removed(m, ks, c)
    ensures Closed(r) && |r.size| == |st.size|
  {
    PartlyRemoved(m, st, ks, c, ys);
    UnlinkAll(HideHeader(st, c), ys)
  }

  /** One step of `cover`, and the step of `uncover` that undoes it. */
  lemma StageStep(m: Matrix, st: Links, ks: seq<nat>, c: nat, ys: seq<nat>, y: nat)
    requires Coverable(m, st, ks, c) && ys + [y] <= Removed(m, ks, c)
    ensures y < |st.size| && ys <= Removed(m, ks, c)
    ensures Stage(m, st, ks, c, ys + [y]) == Unlink(Stage(m, st, ks, c, ys), y)
    ensures Relink(Stage(m, st, ks, c, ys + [y]), y) == Stage(m, st, ks, c, ys)
  {
    hide ValidColumns, ValidRows, OnePerColumn, RowsRep, ColumnsRep, HeaderRep, Removed;
    NextRemoved(m, ks, c, ys, y);
    PartlyRemoved(m, st, ks, c, ys);
    var at := Stage(m, st, ks, c, ys);
    LinkedNeighbours(m, at, LinkedSet(m, ks) - ToSet(ys), y);
    UnlinkAllSnoc(HideHeader(st, c), ys, y);
    RelinkUndoesUnlink(at, y);
  }

  lemma NextRemoved(m: Matrix, ks: seq<nat>, c: nat, ys: seq<nat>, y: nat)
    requires Valid(m) && c in m.vert && c !in ks && ys + [y] <= Removed(m, ks, c)
    ensures ys <= Removed(m, ks, c) && y in m.colOf && y in LinkedSet(m, ks) - ToSet(ys)
  {
    hide Removed;
    var rs, k := Removed(m, ks, c), |ys|;
    assert rs[k] == (ys + [y])[k] == y;
    assert ys == (ys + [y])[..k] == rs[..k];
    RemovedAreLinked(m, ks, c, y);
    RemovedDistinct(m, ks, c);
    assert forall i :: 0 <= i < k ==> ys[i] == rs[i] != rs[k];
  }

  /** All through `cover(c)` the vertical list of c and every row stay whole. */
  lemma StageLists(m: Matrix, st: Links, ks: seq<nat>, c: nat, ys: seq<nat>)
    requires Coverable(m, st, ks, c) && ys <= Removed(m, ks, c)
    ensures Chain(Stage(m, st, ks, c, ys).down, Stage(m, st, ks, c, ys).up, Wrap(c, Live(m, ks, c)))
    ensures RowsRep(m, Stage(m, st, ks, c, ys))
  {
    hide ValidColumns, OnePerColumn, RowsRep, Chain;
    PartlyRemoved(m, st, ks, c, ys);
    var linked := LinkedSet(m, ks);
    forall i | 0 <= i < |m.vert[c]|
      ensures m.vert[c][i] in linked <==> m.vert[c][i] in linked - ToSet(ys)
    {
      var y := m.vert[c][i];
      if y in ys {
        assert y in Removed(m, ks, c);
        RemovedAreLinked(m, ks, c, y);
        InColumn(m, c, y);
      }
    }
    KeepCong(m.vert[c], linked, linked - ToSet(ys));
    assert ColumnRep(m, Stage(m, st, ks, c, ys), linked - ToSet(ys), c);
  }

  lemma InColumn(m: Matrix, c: nat, y: nat)
    requires Valid(m) && c in m.vert && y in m.vert[c]
    ensures y in m.colOf && m.colOf[y] == c
  {
  }

  lemma RestsSplit(m: Matrix, xs: seq<nat>, i: nat)
    requires ValidRows(m) && (forall i :: 0 <= i < |xs| ==> xs[i] in m.rowOf) && i < |xs|
    ensures Rests(m, xs[..i + 1]) == Rests(m, xs[..i]) + Rest(m, xs[i])
  {
    assert xs[..i + 1][..i] == xs[..i];
  }

  lemma {:induction false} RestsPrefix(m: Matrix, xs: seq<nat>, i: nat)
    requires ValidRows(m) && (forall i :: 0 <= i < |xs| ==> xs[i] in m.rowOf) && i <= |xs|
    ensures Rests(m, xs[..i]) <= Rests(m, xs)
    decreases |xs| - i
  {
    if i == |xs| {
      assert xs[..i] == xs;
    } else {
      RestsSplit(m, xs, i);
      RestsPrefix(m, xs, i + 1);
    }
  }

  /** The position of `cover(c)` in its double loop: all of the first i rows are unlinked, and k nodes of the next. */
  ghost function Walk(m: Matrix, ks: seq<nat>, c: nat, i: nat, k: nat): (ys: seq<nat>)
    requires Valid(m) && c in m.vert && i < |Live(m, ks, c)| && k <= |Rest(m, Live(m, ks, c)[i])|
  {
    Rests(m, Live(m, ks, c)[..i]) + Rest(m, Live(m, ks, c)[i])[..k]
  }

  /** Both loops together go through `Removed` from left to right. */
  lemma WalkPrefix(m: Matrix, ks: seq<nat>, c: nat, i: nat, k: nat)
    requires Valid(m) && c in m.vert && i < |Live(m, ks, c)| && k <= |Rest(m, Live(m, ks, c)[i])|
    ensures Walk(m, ks, c, i, k) <= Removed(m, ks, c)
    ensures Walk(m, ks, c, i, 0) == Rests(m, Live(m, ks, c)[..i])
    ensures Walk(m, ks, c, i, |Rest(m, Live(m, ks, c)[i])|) == Rests(m, Live(m, ks, c)[..i + 1])
    ensures k < |Rest(m, Live(m, ks, c)[i])| ==>
      Walk(m, ks, c, i, k + 1) == Walk(m, ks, c, i, k) + [Rest(m, Live(m, ks, c)[i])[k]]
  {
    hide Live, Rest, ValidColumns, OnePerColumn;
    var xs := Live(m, ks, c);
    var rest := Rest(m, xs[i]);
    RestsSplit(m, xs, i);
    RestsPrefix(m, xs, i + 1);
    assert rest[..|rest|] == rest;
  }

  ghost predicate InWalk(m: Matrix, st: Links, ks: seq<nat>, c: nat, i: nat, k: nat) {
    Coverable(m, st, ks, c) && i < |Live(m, ks, c)| && k <= |Rest(m, Live(m, ks, c)[i])|
  }

  /** The links at that point of the double loop. */
  ghost function At(m: Matrix, st: Links, ks: seq<nat>, c: nat, i: nat, k: nat): (r: Links)
    requires InWalk(m, st, ks, c, i, k)
    ensures Closed(r) && |r.size| == |st.size|
  {
    WalkPrefix(m, ks, c, i, k);
    Stage(m, st, ks, c, Walk(m, ks, c, i, k))
  }

  /** The row of the i-th live node of c, opened at that node. */
  ghost function Round(m: Matrix, st: Links, ks: seq<nat>, c: nat, i: nat): (t: seq<nat>)
    requires InWalk(m, st, ks, c, i, 0)
    ensures |t| == |Rest(m, Live(m, ks, c)[i])| + 2 && t[0] == t[|t| - 1] == Live(m, ks, c)[i]
  {
    Wrap(Live(m, ks, c)[i], Rest(m, Live(m, ks, c)[i]))
  }

  /** From the k-th element of a circular list that starts and ends with t[0]. */
  ghost predicate LeadsOn(next: seq<nat>, prev: seq<nat>, t: seq<nat>, k: nat) {
    && k + 1 < |t| && t[k] < |next| && t[k + 1] < |prev|
    && next[t[k]] == t[k + 1] && prev[t[k + 1]] == t[k]
    && (t[k + 1] == t[0] <==> k + 2 == |t|)
    && (t[k] == t[0] <==> k == 0)
  }

  lemma ChainLeadsOn(next: seq<nat>, prev: seq<nat>, h: nat, s: seq<nat>, k: nat)
    requires Chain(next, prev, Wrap(h, s)) && Distinct([h] + s) && k <= |s|
    ensures LeadsOn(next, prev, Wrap(h, s), k)
  {
    var t := Wrap(h, s);
    assert forall i :: 0 <= i < |t| - 1 ==> t[i] == ([h] + s)[i];
    assert next[t[k]] == t[k + 1] && prev[t[k + 1]] == t[k];
  }

  /** Where `right` and `left` lead at each point of the double loop. */
  lemma WalkLinks(m: Matrix, st: Links, ks: seq<nat>, c: nat, i: nat, k: nat)
    requires InWalk(m, st, ks, c, i, k)
    ensures LeadsOn(At(m, st, ks, c, i, k).right, At(m, st, ks, c, i, k).left, Round(m, st, ks, c, i), k)
  {
    hide Live, Rest, RowsRep, ValidColumns, OnePerColumn, Stage, Walk, HeaderRep, ColumnsRep;
    WalkPrefix(m, ks, c, i, k);
    StageLists(m, st, ks, c, Walk(m, ks, c, i, k));
    var x := Live(m, ks, c)[i];
    RowFrom(m, Stage(m, st, ks, c, Walk(m, ks, c, i, k)), x);
    RestDistinct(m, x);
    ChainLeadsOn(At(m, st, ks, c, i, k).right, At(m, st, ks, c, i, k).left, x, Rest(m, x), k);
  }

  /** One turn of the inner loop of `cover`, and the turn of `uncover` that undoes it. */
  lemma WalkStep(m: Matrix, st: Links, ks: seq<nat>, c: nat, i: nat, k: nat)
    requires InWalk(m, st, ks, c, i, k + 1)
    ensures var y := Round(m, st, ks, c, i)[k + 1];
      && y < |st.size|
      && At(m, st, ks, c, i, k + 1) == Unlink(At(m, st, ks, c, i, k), y)
      && Relink(At(m, st, ks, c, i, k + 1), y) == At(m, st, ks, c, i, k)
  {
    hide Live, Rest, Stage, Walk, Valid, Rep, Removed;
    WalkPrefix(m, ks, c, i, k);
    WalkPrefix(m, ks, c, i, k + 1);
    StageStep(m, st, ks, c, Walk(m, ks, c, i, k), Round(m, st, ks, c, i)[k + 1]);
  }

  /** The list of c, opened at c. */
  ghost function Vertical(m: Matrix, ks: seq<nat>, c: nat): (t: seq<nat>)
    requires Valid(m) && c in m.vert
    ensures |t| == |Live(m, ks, c)| + 2 && t[0] == t[|t| - 1] == c
    ensures forall i :: 0 <= i < |Live(m, ks, c)| ==> t[i + 1] == Live(m, ks, c)[i]
  {
    Wrap(c, Live(m, ks, c))
  }

  /** All through `cover(c)` the list of c is whole. */
  lemma StageDown(m: Matrix, st: Links, ks: seq<nat>, c: nat, ys: seq<nat>, i: nat)
    requires Coverable(m, st, ks, c) && ys <= Removed(m, ks, c) && i <= |Live(m, ks, c)|
    ensures LeadsOn(Stage(m, st, ks, c, ys).down, Stage(m, st, ks, c, ys).up, Vertical(m, ks, c), i)
  {
    hide Rep, Stage, Removed, ValidRows, ValidColumns, OnePerColumn;
    StageLists(m, st, ks, c, ys);
    HeadedDistinct(m, LinkedSet(m, ks), c);
    ChainLeadsOn(Stage(m, st, ks, c, ys).down, Stage(m, st, ks, c, ys).up, c, Live(m, ks, c), i);
  }

  /** Between two rows of the outer loop: the first i rows are unlinked. */
  ghost function AtRow(m: Matrix, st: Links, ks: seq<nat>, c: nat, i: nat): (r: Links)
    requires Coverable(m, st, ks, c) && i <= |Live(m, ks, c)|
    ensures Closed(r) && |r.size| == |st.size|
  {
    RestsPrefix(m, Live(m, ks, c), i);
    Stage(m, st, ks, c, Rests(m, Live(m, ks, c)[..i]))
  }

  /** The outer loop starts with the header hidden, goes row by row, and ends with c covered. */
  lemma WalkRows(m: Matrix, st: Links, ks: seq<nat>, c: nat, i: nat)
    requires Coverable(m, st, ks, c) && i <= |Live(m, ks, c)|
    ensures LeadsOn(AtRow(m, st, ks, c, i).down, AtRow(m, st, ks, c, i).up, Vertical(m, ks, c), i)
    ensures i == |Live(m, ks, c)| ==> AtRow(m, st, ks, c, i) == Cover(m, st, ks, c)
  {
    hide Rep, Live, Rest, Stage, HeaderRep, LeadsOn, Vertical, ValidColumns, OnePerColumn;
    var xs := Live(m, ks, c);
    RestsPrefix(m, xs, i);
    StageDown(m, st, ks, c, Rests(m, xs[..i]), i);
    if i == |xs| {
      assert xs[..i] == xs;
    }
  }

  lemma WalkStart(m: Matrix, st: Links, ks: seq<nat>, c: nat)
    requires Coverable(m, st, ks, c)
    ensures c < |st.size| && Closed(st) && AtRow(m, st, ks, c, 0) == HideHeader(st, c)
    ensures ShowHeader(HideHeader(st, c), c) == st
  {
    hide Live, ValidColumns, OnePerColumn, HeaderRep, RowsRep, ColumnsRep;
    PartlyRemoved(m, st, ks, c, []);
    Hidden(m, st, ks, c);
  }

  lemma WalkRow(m: Matrix, st: Links, ks: seq<nat>, c: nat, i: nat)
    requires Coverable(m, st, ks, c) && i < |Live(m, ks, c)|
    ensures var n := |Rest(m, Live(m, ks, c)[i])|;
      && InWalk(m, st, ks, c, i, 0) && InWalk(m, st, ks, c, i, n)
      && |Round(m, st, ks, c, i)| == n + 2
      && AtRow(m, st, ks, c, i) == At(m, st, ks, c, i, 0)
      && AtRow(m, st, ks, c, i + 1) == At(m, st, ks, c, i, n)
      && LeadsOn(AtRow(m, st, ks, c, i + 1).down, AtRow(m, st, ks, c, i + 1).up, Vertical(m, ks, c), i)
      && LeadsOn(AtRow(m, st, ks, c, i).down, AtRow(m, st, ks, c, i).up, Vertical(m, ks, c), i)
  {
    hide Rep, Live, Rest, Stage, LeadsOn, Vertical, Removed, ValidColumns, OnePerColumn;
    WalkPrefix(m, ks, c, i, 0);
    WalkPrefix(m, ks, c, i, |Rest(m, Live(m, ks, c)[i])|);
    RestsPrefix(m, Live(m, ks, c), i);
    RestsPrefix(m, Live(m, ks, c), i + 1);
    StageDown(m, st, ks, c, Rests(m, Live(m, ks, c)[..i]), i);
    StageDown(m, st, ks, c, Rests(m, Live(m, ks, c)[..i + 1]), i);
  }

  /** What `cover(c)` makes of the links. */
  ghost function Cover(m: Matrix, st: Links, ks: seq<nat>, c: nat): (r: Links)
    requires Coverable(m, st, ks, c)
    ensures Closed(r) && |r.size| == |st.size|
  {
    Stage(m, st, ks, c, Removed(m, ks, c))
  }

  /** Covering keeps the representation: column c and every row that hits it are gone from all other lists. */
  lemma CoverRep(m: Matrix, st: Links, ks: seq<nat>, c: nat)
    requires Coverable(m, st, ks, c)
    ensures Rep(m, Cover(m, st, ks, c), ks + [c])
  {
    hide Valid, RowsRep, ColumnsRep;
    var rs := Removed(m, ks, c);
    Hidden(m, st, ks, c);
    PartlyRemoved(m, st, ks, c, rs);
    RemovedSet(m, ks, c);
  }

  lemma CoverNext(m: Matrix, st: Links, ks: seq<nat>, cs: seq<nat>)
    requires cs != [] && Rep(m, st, ks + cs[..|cs| - 1]) && Distinct(ks + cs) && cs[|cs| - 1] in m.vert
    ensures Coverable(m, st, ks + cs[..|cs| - 1], cs[|cs| - 1])
    ensures Rep(m, Cover(m, st, ks + cs[..|cs| - 1], cs[|cs| - 1]), ks + cs)
  {
    hide Valid, HeaderRep, RowsRep, ColumnsRep;
    var k := |cs| - 1;
    assert ks + cs == ks + cs[..k] + [cs[k]];
    assert (ks + cs)[|ks| + k] == cs[k];
    assert forall i :: 0 <= i < |ks| + k ==> (ks + cs[..k])[i] == (ks + cs)[i];
    CoverRep(m, st, ks + cs[..k], cs[k]);
  }

  lemma DistinctFront(ks: seq<nat>, cs: seq<nat>)
    requires Distinct(ks + cs) && cs != []
    ensures Distinct(ks + cs[..|cs| - 1])
  {
    assert ks + cs[..|cs| - 1] == (ks + cs)[..|ks| + |cs| - 1];
  }

  /** Covering the columns cs one after the other. */
  ghost function CoverAll(m: Matrix, st: Links, ks: seq<nat>, cs: seq<nat>): (r: Links)
    requires Rep(m, st, ks) && Distinct(ks + cs) && (forall i :: 0 <= i < |cs| ==> cs[i] in m.vert)
    ensures Rep(m, r, ks + cs) && |r.size| == |st.size|
  {
    hide Rep;
    if cs == [] then
      assert ks + cs == ks;
      st
    else
      var k := |cs| - 1;
      DistinctFront(ks, cs);
      var before := CoverAll(m, st, ks, cs[..k]);
      CoverNext(m, before, ks, cs);
      Cover(m, before, ks + cs[..k], cs[k])
  }
}

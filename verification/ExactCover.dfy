/** Exact covers of the rows and columns that covering the columns ks leaves, and how choosing a row branches. */
module ExactCover {
  import opened Chains
  import opened Finite
  import opened LinkMatrix

  /** rs are live rows, no two of them share a column, and they hit every open primary column. */
  ghost predicate IsCover(m: Matrix, ks: seq<nat>, rs: set<nat>) {
    && rs <= m.rows.Keys
    && (forall r :: r in rs ==> !Meets(m, r, ks))
    && (forall r, r', c :: r in rs && r' in rs && Hits(m, r, c) && Hits(m, r', c) ==> r == r')
    && (forall c :: c in m.headers && c !in ks ==> exists r :: r in rs && Hits(m, r, c))
  }

  ghost function ColumnsOf(m: Matrix, xs: seq<nat>): (cs: seq<nat>)
    requires forall i :: 0 <= i < |xs| ==> xs[i] in m.colOf
  {
    seq(|xs|, i requires 0 <= i < |xs| => m.colOf[xs[i]])
  }

  ghost function RestColumns(m: Matrix, x: nat): (cs: seq<nat>)
    requires Valid(m) && x in m.rowOf
    ensures |cs| == |Rest(m, x)|
    ensures forall i :: 0 <= i < |cs| ==> Rest(m, x)[i] in m.colOf && cs[i] == m.colOf[Rest(m, x)[i]] && cs[i] in m.vert
  {
    assert forall i :: 0 <= i < |Rest(m, x)| ==> Rest(m, x)[i] in Rest(m, x);
    ColumnsOf(m, Rest(m, x))
  }

  /** The covered columns once the row of x, found in its column, has been chosen. */
  ghost function After(m: Matrix, ks: seq<nat>, x: nat): (ks': seq<nat>)
    requires Valid(m) && x in m.rowOf
  {
    ks + [m.colOf[x]] + RestColumns(m, x)
  }

  lemma InAfter(m: Matrix, ks: seq<nat>, x: nat, c: nat)
    requires Valid(m) && x in m.rowOf
    ensures c in After(m, ks, x) <==> c in ks || Hits(m, m.rowOf[x], c)
  {
    hide Rest;
    var cs, rest := RestColumns(m, x), Rest(m, x);
    if c in cs {
      var i :| 0 <= i < |cs| && cs[i] == c;
      assert rest[i] in rest;
      assert rest[i] in m.rows[m.rowOf[x]];
    }
    if Hits(m, m.rowOf[x], c) {
      var y :| y in m.rows[m.rowOf[x]] && y in m.colOf && m.colOf[y] == c;
      if y != x {
        assert y in rest;
        var i :| 0 <= i < |rest| && rest[i] == y;
        assert cs[i] == c;
      }
    }
  }

  lemma HitsOwn(m: Matrix, x: nat)
    requires Valid(m) && x in m.rowOf
    ensures Hits(m, m.rowOf[x], m.colOf[x])
  {
  }

  /** The columns that a chosen row adds are new and pairwise different. */
  lemma AfterDistinct(m: Matrix, ks: seq<nat>, x: nat)
    requires Valid(m) && x in m.rowOf && Distinct(ks) && !Meets(m, m.rowOf[x], ks)
    ensures Distinct(After(m, ks, x))
  {
    hide Rest, ValidColumns, ValidHeaders;
    var cs, rest := RestColumns(m, x), Rest(m, x);
    RestDistinct(m, x);
    var own := [x] + rest;
    forall i | 0 <= i < |own|
      ensures own[i] in m.rowOf && m.rowOf[own[i]] == m.rowOf[x] && own[i] in m.colOf
    {
      assert own[i] == x || own[i] in rest;
    }
    var all := [m.colOf[x]] + cs;
    assert forall i :: 0 <= i < |own| ==> all[i] == m.colOf[own[i]];
    assert Distinct(all);
    forall i | 0 <= i < |all|
      ensures Hits(m, m.rowOf[x], all[i])
    {
      assert own[i] in m.rows[m.rowOf[x]];
    }
    assert forall c :: c in ks ==> !Hits(m, m.rowOf[x], c);
    DistinctConcat(ks, all);
    assert After(m, ks, x) == ks + all;
  }

  /** The live nodes of an open column are its nodes in rows that avoid all covered columns. */
  lemma InLive(m: Matrix, ks: seq<nat>, c: nat, x: nat)
    requires Valid(m) && c in m.vert && c !in ks
    ensures x in Live(m, ks, c) <==> x in m.colOf && m.colOf[x] == c && !Meets(m, m.rowOf[x], ks)
  {
    if x in m.colOf && m.colOf[x] == c {
      LinkedInOpenColumn(m, ks, x);
    }
  }

  /** A cover of what is left after choosing x's row, together with that row, is a cover. */
  lemma CoverExtends(m: Matrix, ks: seq<nat>, x: nat, rs: set<nat>)
    requires Valid(m) && x in m.rowOf && !Meets(m, m.rowOf[x], ks)
    requires IsCover(m, After(m, ks, x), rs)
    ensures m.rowOf[x] !in rs && IsCover(m, ks, rs + {m.rowOf[x]})
  {
    hide After, ValidColumns, OnePerColumn;
    var own := m.rowOf[x];
    HitsOwn(m, x);
    InAfter(m, ks, x, m.colOf[x]);
    assert own !in rs;
    forall r, c | r in rs && Hits(m, r, c)
      ensures c !in ks && !Hits(m, own, c)
    {
      InAfter(m, ks, x, c);
    }
    forall c | c in m.headers && c !in ks
      ensures exists r :: r in rs + {own} && Hits(m, r, c)
    {
      InAfter(m, ks, x, c);
      if Hits(m, own, c) {
        assert own in rs + {own};
      } else {
        var r :| r in rs && Hits(m, r, c);
        assert r in rs + {own};
      }
    }
  }

  /** A cover without the row of one of its nodes covers what is left after choosing that row. */
  lemma CoverShrinks(m: Matrix, ks: seq<nat>, x: nat, rs: set<nat>)
    requires Valid(m) && x in m.rowOf && m.rowOf[x] in rs
    requires IsCover(m, ks, rs)
    ensures IsCover(m, After(m, ks, x), rs - {m.rowOf[x]})
  {
    hide After, ValidColumns, OnePerColumn;
    var own := m.rowOf[x];
    var ks' := After(m, ks, x);
    forall r, c | r in rs - {own} && Hits(m, r, c)
      ensures c !in ks'
    {
      InAfter(m, ks, x, c);
    }
    forall c | c in m.headers && c !in ks'
      ensures exists r :: r in rs - {own} && Hits(m, r, c)
    {
      InAfter(m, ks, x, c);
      var r :| r in rs && Hits(m, r, c);
      assert r in rs - {own};
    }
  }

  /** Every cover picks exactly one live node of an open primary column. */
  lemma CoverPicks(m: Matrix, ks: seq<nat>, c: nat, rs: set<nat>) returns (x: nat)
    requires Valid(m) && c in m.headers && c !in ks && IsCover(m, ks, rs)
    ensures x in Live(m, ks, c) && m.rowOf[x] in rs
    ensures forall y :: y in Live(m, ks, c) && m.rowOf[y] in rs ==> y == x
  {
    hide ValidColumns;
    var r :| r in rs && Hits(m, r, c);
    x :| x in m.rows[r] && x in m.colOf && m.colOf[x] == c;
    InLive(m, ks, c, x);
    forall y | y in Live(m, ks, c) && m.rowOf[y] in rs
      ensures y == x
    {
      InLive(m, ks, c, y);
      HitsOwn(m, y);
    }
  }

  ghost predicate HasCover(m: Matrix, ks: seq<nat>) {
    exists rs :: IsCover(m, ks, rs)
  }

  /** Branching on an open primary column is complete and sound. */
  lemma Branch(m: Matrix, ks: seq<nat>, c: nat)
    requires Valid(m) && c in m.headers && c !in ks
    ensures HasCover(m, ks) <==>
      exists i :: 0 <= i < |Live(m, ks, c)| && HasCover(m, After(m, ks, Live(m, ks, c)[i]))
  {
    hide IsCover, After, Live, ValidColumns, ValidRows, OnePerColumn;
    var xs := Live(m, ks, c);
    if HasCover(m, ks) {
      var rs :| IsCover(m, ks, rs);
      var x := CoverPicks(m, ks, c, rs);
      CoverShrinks(m, ks, x, rs);
      var i :| 0 <= i < |xs| && xs[i] == x;
      assert HasCover(m, After(m, ks, xs[i]));
    }
    if i :| 0 <= i < |xs| && HasCover(m, After(m, ks, xs[i])) {
      InLive(m, ks, c, xs[i]);
      var rs :| IsCover(m, After(m, ks, xs[i]), rs);
      CoverExtends(m, ks, xs[i], rs);
    }
  }

  /** With every primary column covered there is nothing left to do. */
  lemma Done(m: Matrix, ks: seq<nat>)
    requires Valid(m) && (forall c :: c in m.headers ==> c in ks)
    ensures IsCover(m, ks, {})
  {
  }

  // ---------------------------------------------------------------- choosing a row, link by link

  lemma RepClosed(m: Matrix, st: Links, ks: seq<nat>)
    requires Rep(m, st, ks)
    ensures Valid(m) && Closed(st)
  {
  }

  /** The columns cs can be covered one after the other. */
  ghost predicate AllCoverable(m: Matrix, st: Links, ks: seq<nat>, cs: seq<nat>) {
    Rep(m, st, ks) && Distinct(ks + cs) && (forall i :: 0 <= i < |cs| ==> cs[i] in m.vert)
  }

  lemma AllCoverablePrefix(m: Matrix, st: Links, ks: seq<nat>, cs: seq<nat>, k: nat)
    requires AllCoverable(m, st, ks, cs) && k <= |cs|
    ensures AllCoverable(m, st, ks, cs[..k])
  {
    hide Rep;
    assert ks + cs[..k] == (ks + cs)[..|ks| + k];
  }

  ghost function CoverFirst(m: Matrix, st: Links, ks: seq<nat>, cs: seq<nat>, k: nat): (r: Links)
    requires AllCoverable(m, st, ks, cs) && k <= |cs|
  {
    AllCoverablePrefix(m, st, ks, cs, k);
    CoverAll(m, st, ks, cs[..k])
  }

  lemma CoverFirstRep(m: Matrix, st: Links, ks: seq<nat>, cs: seq<nat>, k: nat)
    requires AllCoverable(m, st, ks, cs) && k <= |cs|
    ensures Rep(m, CoverFirst(m, st, ks, cs, k), ks + cs[..k]) && Closed(CoverFirst(m, st, ks, cs, k))
    ensures |CoverFirst(m, st, ks, cs, k).size| == |st.size|
  {
    hide Rep, CoverAll;
    AllCoverablePrefix(m, st, ks, cs, k);
    RepClosed(m, CoverFirst(m, st, ks, cs, k), ks + cs[..k]);
  }

  lemma CoverFirstStep(m: Matrix, st: Links, ks: seq<nat>, cs: seq<nat>, k: nat)
    requires AllCoverable(m, st, ks, cs) && k < |cs|
    ensures Coverable(m, CoverFirst(m, st, ks, cs, k), ks + cs[..k], cs[k])
    ensures CoverFirst(m, st, ks, cs, k + 1) == Cover(m, CoverFirst(m, st, ks, cs, k), ks + cs[..k], cs[k])
  {
    hide Rep, Cover, Valid;
    AllCoverablePrefix(m, st, ks, cs, k);
    AllCoverablePrefix(m, st, ks, cs, k + 1);
    var ds := cs[..k + 1];
    assert ds[..|ds| - 1] == cs[..k];
    CoverNext(m, CoverAll(m, st, ks, cs[..k]), ks, ds);
  }

  /** The column of x is covered and the other columns of its row are still open. */
  ghost predicate Choosable(m: Matrix, st: Links, ks: seq<nat>, x: nat) {
    Valid(m) && x in m.rowOf && AllCoverable(m, st, ks, RestColumns(m, x))
  }

  /** The links after k of the row's other columns have been covered, going right from x. */
  ghost function Chosen(m: Matrix, st: Links, ks: seq<nat>, x: nat, k: nat): (r: Links)
    requires Choosable(m, st, ks, x) && k <= |RestColumns(m, x)|
    ensures Closed(r) && |r.size| == |st.size|
    ensures Rep(m, r, ks + RestColumns(m, x)[..k])
  {
    CoverFirstRep(m, st, ks, RestColumns(m, x), k);
    CoverFirst(m, st, ks, RestColumns(m, x), k)
  }

  /** The row of x, opened at x. */
  ghost function RoundFrom(m: Matrix, x: nat): (t: seq<nat>)
    requires Valid(m) && x in m.rowOf
    ensures |t| == |RestColumns(m, x)| + 2 && t[0] == t[|t| - 1] == x
  {
    Wrap(x, Rest(m, x))
  }

  lemma ChosenStart(m: Matrix, st: Links, ks: seq<nat>, x: nat)
    requires Choosable(m, st, ks, x)
    ensures Valid(m) && x in m.rowOf && Chosen(m, st, ks, x, 0) == st && Closed(st)
  {
    hide RestColumns;
    RepClosed(m, st, ks);
  }

  lemma ChosenLinks(m: Matrix, st: Links, ks: seq<nat>, x: nat, k: nat)
    requires Choosable(m, st, ks, x) && k <= |RestColumns(m, x)|
    ensures LeadsOn(Chosen(m, st, ks, x, k).right, Chosen(m, st, ks, x, k).left, RoundFrom(m, x), k)
  {
    hide Chosen, Rest, ValidColumns, OnePerColumn, HeaderRep, ColumnsRep;
    var at := Chosen(m, st, ks, x, k);
    RowFrom(m, at, x);
    RestDistinct(m, x);
    ChainLeadsOn(at.right, at.left, x, Rest(m, x), k);
  }

  lemma ChosenStep(m: Matrix, st: Links, ks: seq<nat>, x: nat, k: nat)
    requires Choosable(m, st, ks, x) && k < |RestColumns(m, x)|
    ensures var y, c := RoundFrom(m, x)[k + 1], RestColumns(m, x)[k];
      && y < |st.size| && Chosen(m, st, ks, x, k).col[y] == c && Chosen(m, st, ks, x, k + 1).col[y] == c
      && Coverable(m, Chosen(m, st, ks, x, k), ks + RestColumns(m, x)[..k], c)
      && Chosen(m, st, ks, x, k + 1) == Cover(m, Chosen(m, st, ks, x, k), ks + RestColumns(m, x)[..k], c)
  {
    hide CoverFirst, Cover, Rest, ValidColumns, ValidHeaders, OnePerColumn, HeaderRep, ColumnsRep, Chain;
    var y := RoundFrom(m, x)[k + 1];
    assert y == Rest(m, x)[k];
    CoverFirstStep(m, st, ks, RestColumns(m, x), k);
  }

  // ---------------------------------------------------------------- what the search sees

  /** The header list and the column sizes. */
  lemma HeaderLinks(m: Matrix, st: Links, ks: seq<nat>, k: nat)
    requires Rep(m, st, ks) && k <= |OpenHeaders(m, ks)|
    ensures LeadsOn(st.right, st.left, Wrap(m.root, OpenHeaders(m, ks)), k)
  {
    hide RowsRep, ColumnsRep, ValidRows, ValidColumns, OnePerColumn;
    OpenHeadersDistinct(m, ks);
    ChainLeadsOn(st.right, st.left, m.root, OpenHeaders(m, ks), k);
  }

  /** How many live rows each open primary column has. */
  ghost function Sizes(m: Matrix, ks: seq<nat>): (ss: seq<int>)
    requires Valid(m)
    ensures |ss| == |OpenHeaders(m, ks)|
  {
    var hs := OpenHeaders(m, ks);
    seq(|hs|, i requires 0 <= i < |hs| => if hs[i] in m.vert then |Live(m, ks, hs[i])| else 0)
  }

  /** The column that a scan for the fewest rows settles on. */
  ghost predicate FewestRows(m: Matrix, ks: seq<nat>, c: nat)
    requires Valid(m)
  {
    exists k :: 0 <= k < |OpenHeaders(m, ks)| && OpenHeaders(m, ks)[k] == c && ScanStops(Sizes(m, ks), k)
  }

  lemma HeaderSize(m: Matrix, st: Links, ks: seq<nat>, k: nat)
    requires Rep(m, st, ks) && k < |OpenHeaders(m, ks)|
    ensures var c := OpenHeaders(m, ks)[k];
      && c in m.headers && c !in ks && c in m.vert && c < |st.size| && st.size[c] == Sizes(m, ks)[k]
      && Wrap(m.root, OpenHeaders(m, ks))[k + 1] == c
  {
    hide HeaderRep, RowsRep, ValidRows, ValidColumns, OnePerColumn;
    var c := OpenHeaders(m, ks)[k];
    assert c in OpenHeaders(m, ks);
    assert ColumnRep(m, st, LinkedSet(m, ks), c);
  }

  lemma NoneOpen(m: Matrix, ks: seq<nat>)
    requires OpenHeaders(m, ks) == []
    ensures forall c :: c in m.headers ==> c in ks
  {
    forall c | c in m.headers
      ensures c in ks
    {
      assert c !in OpenHeaders(m, ks);
    }
  }

  lemma Ready(m: Matrix, st: Links, ks: seq<nat>, c: nat)
    requires Rep(m, st, ks) && c in m.vert && c !in ks
    ensures Coverable(m, st, ks, c)
  {
  }

  /** Everything the search needs to go into the i-th row of the column c it has covered. */
  lemma BranchReady(m: Matrix, st: Links, ks: seq<nat>, c: nat, i: nat)
    requires Coverable(m, st, ks, c) && i < |Live(m, ks, c)|
    ensures var x, st' := Live(m, ks, c)[i], Cover(m, st, ks, c);
      && Vertical(m, ks, c)[i + 1] == x
      && Choosable(m, st', ks + [c], x)
      && After(m, ks, x) == ks + [c] + RestColumns(m, x)
      && Rep(m, Chosen(m, st', ks + [c], x, |RestColumns(m, x)|), After(m, ks, x))
  {
    hide Live, HeaderRep, RowsRep, ColumnsRep, ValidRows, ValidColumns, OnePerColumn, Cover, Chosen, RestColumns;
    var x := Live(m, ks, c)[i];
    InLive(m, ks, c, x);
    AfterDistinct(m, ks, x);
    CoverRep(m, st, ks, c);
    var cs := RestColumns(m, x);
    assert cs[..|cs|] == cs;
  }

  lemma BranchLinks(m: Matrix, st: Links, ks: seq<nat>, c: nat, i: nat)
    requires Coverable(m, st, ks, c) && i <= |Live(m, ks, c)|
    ensures LeadsOn(Cover(m, st, ks, c).down, Cover(m, st, ks, c).up, Vertical(m, ks, c), i)
  {
    hide Valid, Rep, Live, Vertical, LeadsOn, Stage;
    StageDown(m, st, ks, c, Removed(m, ks, c), i);
  }

  /** Each level of the search covers one more primary column. */
  lemma FewerOpen(m: Matrix, ks: seq<nat>, c: nat, x: nat)
    requires Valid(m) && c in m.headers && c !in ks && x in m.rowOf && m.colOf[x] == c
    ensures |OpenSet(m, After(m, ks, x))| < |OpenSet(m, ks)|
  {
    hide RestColumns;
    var a, b := OpenSet(m, After(m, ks, x)), OpenSet(m, ks);
    assert c in After(m, ks, x);
    assert a <= b - {c};
    SubsetSize(a, b - {c});
  }
}

/** `SudokuSolver::solve`: backtracking over the dancing links until every constraint is covered. */
module SudokuSearch {
  import opened Chains
  import LM = LinkMatrix
  import EC = ExactCover
  import opened SudokuRules

  /** What each matrix row stands for: a value written into a cell. */
  datatype Reading = Reading(cell: map<nat, nat>, val: map<nat, nat>)

  ghost predicate NodeNamed(names: seq<nat>, rd: Reading, r: nat, x: nat) {
    && x < |names| && r in rd.cell && r in rd.val
    && (if names[x] < 100 then names[x] == rd.cell[r] else names[x] % 10 == rd.val[r])
  }

  ghost predicate RowNamed(m: LM.Matrix, names: seq<nat>, r: nat)
    requires r in m.rows
  {
    && (exists x :: x in m.rows[r] && x < |names| && names[x] < 100)
    && (exists x :: x in m.rows[r] && x < |names| && 100 <= names[x])
  }

  ghost predicate Readable(m: LM.Matrix, rd: Reading) {
    forall r :: r in m.rows ==> r in rd.cell && rd.cell[r] < CELLS && r in rd.val
  }

  /** Node names below 100 are cells, the others end in a value, and every row has both kinds. */
  ghost predicate Named(m: LM.Matrix, names: seq<nat>, rd: Reading) {
    && Readable(m, rd)
    && (forall x :: x in m.rowOf ==> NodeNamed(names, rd, m.rowOf[x], x))
    && (forall r :: r in m.rows ==> RowNamed(m, names, r))
  }

  ghost predicate OnRows(m: LM.Matrix, xs: seq<nat>) {
    forall i :: 0 <= i < |xs| ==> xs[i] in m.rowOf
  }

  ghost function RowsOf(m: LM.Matrix, xs: seq<nat>): (rs: set<nat>)
    requires OnRows(m, xs)
  {
    set i | 0 <= i < |xs| :: m.rowOf[xs[i]]
  }

  /** The board after the rows of xs have been written into it. */
  ghost function Filled(board: seq<int>, m: LM.Matrix, rd: Reading, xs: seq<nat>): (b: seq<int>)
    requires |board| == CELLS && LM.ValidRows(m) && OnRows(m, xs) && Readable(m, rd)
    ensures |b| == CELLS
  {
    if xs == [] then board
    else
      var r := m.rowOf[xs[|xs| - 1]];
      Filled(board, m, rd, xs[..|xs| - 1])[rd.cell[r] := rd.val[r]]
  }

  /** The nodes xs pick pairwise different rows that form an exact cover. */
  ghost predicate Picks(m: LM.Matrix, ks: seq<nat>, xs: seq<nat>) {
    && OnRows(m, xs)
    && (forall i, j :: 0 <= i < j < |xs| ==> m.rowOf[xs[i]] != m.rowOf[xs[j]])
    && EC.IsCover(m, ks, RowsOf(m, xs))
  }

  /** A pick of what is left after choosing x's row, with x in front, is a pick. */
  lemma PicksExtend(m: LM.Matrix, ks: seq<nat>, x: nat, xs: seq<nat>)
    requires LM.Valid(m) && x in m.rowOf && !LM.Meets(m, m.rowOf[x], ks)
    requires Picks(m, EC.After(m, ks, x), xs)
    ensures Picks(m, ks, [x] + xs)
  {
    hide EC.IsCover, EC.After, LM.Valid;
    EC.CoverExtends(m, ks, x, RowsOf(m, xs));
    var all := [x] + xs;
    assert OnRows(m, all);
    assert RowsOf(m, all) == RowsOf(m, xs) + {m.rowOf[x]} by {
      assert all[0] == x;
      assert forall i :: 0 <= i < |xs| ==> all[i + 1] == xs[i];
      forall r | r in RowsOf(m, xs) + {m.rowOf[x]}
        ensures r in RowsOf(m, all)
      {
        if r != m.rowOf[x] {
          var i :| 0 <= i < |xs| && m.rowOf[xs[i]] == r;
          assert m.rowOf[all[i + 1]] == r;
        }
      }
    }
    assert forall i :: 0 <= i < |xs| ==> m.rowOf[xs[i]] in RowsOf(m, xs);
  }

  lemma NothingToPick(m: LM.Matrix, ks: seq<nat>)
    requires LM.Valid(m) && LM.OpenHeaders(m, ks) == []
    ensures Picks(m, ks, []) && EC.HasCover(m, ks)
  {
    EC.NoneOpen(m, ks);
    EC.Done(m, ks);
    assert RowsOf(m, []) == {};
  }

  /** Following `right` along t visits nodes of row r, both kinds among them, before the last element. */
  ghost predicate RoundNamed(t: seq<nat>, right: seq<nat>, names: seq<nat>, rd: Reading, r: nat) {
    && r in rd.cell && r in rd.val && |right| == |names|
    && (forall i :: 0 <= i < |t| ==> NodeNamed(names, rd, r, t[i]))
    && (forall i :: 0 <= i < |t| - 1 ==> right[t[i]] == t[i + 1])
    && (exists i :: 0 <= i < |t| - 1 && names[t[i]] < 100)
    && (exists i :: 0 <= i < |t| - 1 && 100 <= names[t[i]])
  }

  lemma RowRound(m: LM.Matrix, st: LM.Links, ks: seq<nat>, rd: Reading, names: seq<nat>, x: nat)
    requires LM.Valid(m) && LM.Rep(m, st, ks) && |names| == |st.size| && Named(m, names, rd) && x in m.rowOf
    ensures m.rowOf[x] in m.rows && RoundNamed(EC.RoundFrom(m, x), st.right, names, rd, m.rowOf[x])
  {
    hide LM.Valid, LM.Rep, Chain, EC.RestColumns, EC.RoundFrom, RowNamed, Readable;
    var t, r := EC.RoundFrom(m, x), m.rowOf[x];
    RoundChain(m, st, ks, x);
    forall i | 0 <= i < |t|
      ensures NodeNamed(names, rd, r, t[i])
    {
      RoundInRow(m, x, i);
    }
    BothKinds(m, names, x);
  }

  lemma BothKinds(m: LM.Matrix, names: seq<nat>, x: nat)
    requires LM.Valid(m) && x in m.rowOf && m.rowOf[x] in m.rows && RowNamed(m, names, m.rowOf[x])
    requires forall i :: 0 <= i < |EC.RoundFrom(m, x)| ==> EC.RoundFrom(m, x)[i] < |names|
    ensures exists i :: 0 <= i < |EC.RoundFrom(m, x)| - 1 && names[EC.RoundFrom(m, x)[i]] < 100
    ensures exists i :: 0 <= i < |EC.RoundFrom(m, x)| - 1 && 100 <= names[EC.RoundFrom(m, x)[i]]
  {
    hide LM.Valid, EC.RestColumns, EC.RoundFrom;
    var r := m.rowOf[x];
    var y :| y in m.rows[r] && y < |names| && names[y] < 100;
    OnRound(m, x, y);
    var z :| z in m.rows[r] && z < |names| && 100 <= names[z];
    OnRound(m, x, z);
  }

  lemma RoundChain(m: LM.Matrix, st: LM.Links, ks: seq<nat>, x: nat)
    requires LM.Valid(m) && LM.Rep(m, st, ks) && x in m.rowOf
    ensures m.rowOf[x] in m.rows && |st.right| == |st.size|
    ensures forall i :: 0 <= i < |EC.RoundFrom(m, x)| - 1 ==>
      EC.RoundFrom(m, x)[i] < |st.right| && st.right[EC.RoundFrom(m, x)[i]] == EC.RoundFrom(m, x)[i + 1]
  {
    hide LM.Rest, EC.RestColumns, LM.ValidHeaders, LM.ValidColumns, LM.OnePerColumn, LM.HeaderRep, LM.ColumnsRep;
    LM.RowFrom(m, st, x);
  }

  lemma RoundInRow(m: LM.Matrix, x: nat, i: nat)
    requires LM.Valid(m) && x in m.rowOf && i < |EC.RoundFrom(m, x)|
    ensures EC.RoundFrom(m, x)[i] in m.rowOf && m.rowOf[EC.RoundFrom(m, x)[i]] == m.rowOf[x]
  {
    hide LM.Rest, EC.RestColumns;
    var t := EC.RoundFrom(m, x);
    assert t[i] in t;
    InWrap(x, LM.Rest(m, x), t[i]);
    assert t[i] in m.rows[m.rowOf[x]];
  }

  lemma OnRound(m: LM.Matrix, x: nat, y: nat)
    requires LM.Valid(m) && x in m.rowOf && y in m.rows[m.rowOf[x]]
    ensures exists i :: 0 <= i < |EC.RoundFrom(m, x)| - 1 && EC.RoundFrom(m, x)[i] == y
  {
    hide LM.Rest, EC.RestColumns;
    var rest, t := LM.Rest(m, x), EC.RoundFrom(m, x);
    if y == x {
      assert t[0] == y;
    } else {
      var i :| 0 <= i < |rest| && rest[i] == y;
      assert t[i + 1] == y;
    }
  }

  lemma StackGrows(m: LM.Matrix, stack: seq<nat>, x: nat)
    requires OnRows(m, stack) && x in m.rowOf
    ensures OnRows(m, stack + [x])
  {
  }

  /** What a successful descent into row x found, read from the level above. */
  lemma FoundBelow(m: LM.Matrix, ks: seq<nat>, c: nat, i: nat, before: seq<nat>, stack: seq<nat>)
    requires LM.Valid(m) && c in m.headers && c !in ks && c in m.vert && i < |LM.Live(m, ks, c)|
    requires before + [LM.Live(m, ks, c)[i]] <= stack
    requires EC.HasCover(m, EC.After(m, ks, LM.Live(m, ks, c)[i]))
    requires Picks(m, EC.After(m, ks, LM.Live(m, ks, c)[i]), stack[|before| + 1..])
    ensures before <= stack && Picks(m, ks, stack[|before|..]) && EC.HasCover(m, ks)
  {
    hide LM.Valid, LM.Live, EC.HasCover, EC.After, Picks;
    var x := LM.Live(m, ks, c)[i];
    EC.InLive(m, ks, c, x);
    EC.Branch(m, ks, c);
    assert stack[|before|] == (before + [x])[|before|] == x;
    assert stack[|before|..] == [x] + stack[|before| + 1..];
    assert before == (before + [x])[..|before|] == stack[..|before|];
    PicksExtend(m, ks, x, stack[|before| + 1..]);
  }

  lemma NoneFound(m: LM.Matrix, ks: seq<nat>, c: nat)
    requires LM.Valid(m) && c in m.headers && c !in ks && c in m.vert
    requires forall h :: 0 <= h < |LM.Live(m, ks, c)| ==> !EC.HasCover(m, EC.After(m, ks, LM.Live(m, ks, c)[h]))
    ensures !EC.HasCover(m, ks)
  {
    hide LM.Valid, LM.Live, EC.HasCover, EC.After;
    EC.Branch(m, ks, c);
  }

  lemma RowsOfSnoc(m: LM.Matrix, xs: seq<nat>, x: nat)
    requires OnRows(m, xs) && x in m.rowOf
    ensures OnRows(m, xs + [x]) && RowsOf(m, xs + [x]) == RowsOf(m, xs) + {m.rowOf[x]}
  {
    var all := xs + [x];
    assert all[|xs|] == x;
    forall r | r in RowsOf(m, xs)
      ensures r in RowsOf(m, all)
    {
      var i :| 0 <= i < |xs| && m.rowOf[xs[i]] == r;
      assert m.rowOf[all[i]] == r;
    }
  }

  lemma FirstNode(m: LM.Matrix, r: nat)
    requires LM.Valid(m) && r in m.rows
    ensures m.rows[r] != [] && m.rows[r][0] in m.rowOf && m.rowOf[m.rows[r][0]] == r
  {
    assert m.rows[r][0] in m.rows[r];
  }

  /** Any set of rows can be listed by one node of each. */
  lemma {:induction false} ListRows(m: LM.Matrix, rs: set<nat>) returns (xs: seq<nat>)
    requires LM.Valid(m) && rs <= m.rows.Keys
    ensures OnRows(m, xs) && RowsOf(m, xs) == rs
    ensures forall i, j :: 0 <= i < j < |xs| ==> m.rowOf[xs[i]] != m.rowOf[xs[j]]
  {
    hide LM.Valid;
    if rs == {} {
      xs := [];
    } else {
      var r :| r in rs;
      var front := ListRows(m, rs - {r});
      FirstNode(m, r);
      xs := front + [m.rows[r][0]];
      RowsOfSnoc(m, front, m.rows[r][0]);
      assert forall i :: 0 <= i < |front| ==> m.rowOf[front[i]] in RowsOf(m, front);
    }
  }
}

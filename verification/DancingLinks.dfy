/** The node array of the dancing-links solvers: cover, uncover and column choice, in place. */
module DancingLinks {
  import opened Chains
  import LM = LinkMatrix
  import EC = ExactCover
  import MB = MatrixBuild

  class NodeArray {
    const left: array<nat>
    const right: array<nat>
    const up: array<nat>
    const down: array<nat>
    const col: array<nat>
    const size: array<int>
    const name: array<nat>
    var cur: nat  // the next node to hand out

    ghost predicate Shape() {
      && name !in {left, right, up, down, col} && size as object != name as object && name.Length == size.Length
      && left.Length == right.Length == up.Length == down.Length == col.Length == size.Length
      && left != right && left != up && left != down && left != col && right != up && right != down && right != col
      && up != down && up != col && down != col
      && size as object !in {left as object, right as object, up as object, down as object, col as object}
    }

    ghost function View(): (st: LM.Links)
      reads left, right, up, down, col, size
    {
      LM.Links(left[..], right[..], up[..], down[..], col[..], size[..])
    }

    /** Nodes are initialised when they are handed out; until then no link leads to them. */
    constructor (n: nat)
      requires n > 0
      ensures Shape() && size.Length == n && cur == 0 && LM.Closed(View())
      ensures fresh(left) && fresh(right) && fresh(up) && fresh(down) && fresh(col) && fresh(size) && fresh(name)
    {
      left := new nat[n](_ => 0);
      right := new nat[n](_ => 0);
      up := new nat[n](_ => 0);
      down := new nat[n](_ => 0);
      col := new nat[n](_ => 0);
      size := new int[n](_ => 0);
      name := new nat[n](_ => 0);
      cur := 0;
    }

    // ---------------------------------------------------------------- building

    method NewNode(n: nat) returns (x: nat)
      requires Shape() && LM.Closed(View()) && cur < size.Length
      modifies left, right, up, down, col, size, name, this`cur
      ensures x == old(cur) && cur == x + 1
      ensures View() == MB.NewNode(old(View()), x) && name[..] == old(name[..])[x := n]
    {
      x := cur;
      cur := cur + 1;
      left[x], right[x], up[x], down[x], col[x] := x, x, x, x, x;
      size[x] := 0;
      name[x] := n;
    }

    method PutLeft(at: nat, x: nat)
      requires Shape() && LM.Closed(View()) && at < size.Length && x < size.Length
      modifies left, right
      ensures View() == MB.PutLeft(old(View()), at, x)
    {
      left[x] := left[at];
      right[x] := at;
      right[left[at]] := x;
      left[at] := x;
    }

    method PutUp(at: nat, x: nat)
      requires Shape() && LM.Closed(View()) && at < size.Length && x < size.Length
      modifies up, down, size, col
      ensures View() == MB.PutUp(old(View()), at, x)
    {
      up[x] := up[at];
      down[x] := at;
      down[up[at]] := x;
      up[at] := x;
      size[at] := size[at] + 1;
      col[x] := at;
    }

    method AppendColumn(root: nat, n: nat, ghost m: LM.Matrix) returns (c: nat)
      requires Shape() && cur < size.Length && MB.Built(m, View(), cur) && root == m.root
      modifies left, right, up, down, col, size, name, this`cur
      ensures c == old(cur) && cur == c + 1 && MB.Built(MB.AddColumn(m, c), View(), cur)
      ensures name[..] == old(name[..])[c := n]
    {
      hide MB.Built, MB.AddColumn, MB.PutLeft, MB.NewNode;
      MB.AddColumnBuilt(m, View(), cur);
      c := NewNode(n);
      PutLeft(root, c);
    }

    /** A column outside the header list: it may stay uncovered, but no two chosen rows may share it. */
    method NewOptionalColumn(n: nat, ghost m: LM.Matrix) returns (c: nat)
      requires Shape() && cur < size.Length && MB.Built(m, View(), cur)
      modifies left, right, up, down, col, size, name, this`cur
      ensures c == old(cur) && cur == c + 1 && MB.Built(MB.AddOptional(m, c), View(), cur)
      ensures name[..] == old(name[..])[c := n]
    {
      hide MB.Built, MB.AddColumn, MB.PutLeft, MB.NewNode;
      MB.AddColumnBuilt(m, View(), cur);
      c := NewNode(n);
    }

    method NewRow(c: nat, n: nat, ghost m: LM.Matrix) returns (x: nat)
      requires Shape() && cur < size.Length && MB.Built(m, View(), cur) && c in m.vert
      modifies left, right, up, down, col, size, name, this`cur
      ensures x == old(cur) && cur == x + 1 && MB.Built(MB.AddRow(m, c, x), View(), cur)
      ensures name[..] == old(name[..])[x := n]
    {
      hide MB.Built, MB.AddRow, MB.PutUp, MB.NewNode;
      MB.AddRowBuilt(m, View(), c, cur);
      x := NewNode(n);
      PutUp(c, x);
    }

    /** Puts the one-node row x at the end of the row that starts with a. */
    method JoinRow(a: nat, x: nat, ghost m: LM.Matrix)
      requires Shape() && MB.Built(m, View(), cur) && MB.Joinable(m, a, x)
      modifies left, right
      ensures MB.Built(MB.JoinRow(m, a, x), View(), cur)
    {
      hide MB.Built, MB.JoinRow, MB.PutLeft;
      MB.JoinRowBuilt(m, View(), a, x, cur);
      PutLeft(a, x);
    }

    method NewFourRows(c0: nat, c1: nat, c2: nat, c3: nat, n0: nat, n1: nat, n2: nat, n3: nat, ghost m: LM.Matrix)
      returns (x: nat)
      requires Shape() && cur + 4 <= size.Length && MB.Built(m, View(), cur)
      requires c0 in m.vert && c1 in m.vert && c2 in m.vert && c3 in m.vert
      modifies left, right, up, down, col, size, name, this`cur
      ensures x == old(cur) && cur == x + 4
      ensures name[..] == old(name[..])[x := n0][x + 1 := n1][x + 2 := n2][x + 3 := n3]
      ensures MB.Built(MB.FourRows(m, x, c0, c1, c2, c3), View(), cur)
    {
      hide MB.Built, MB.AddRow, MB.FourRows;
      MB.FourRowsSteps(m, cur, c0, c1, c2, c3);
      x := NewRow(c0, n0, m);
      ghost var m1 := MB.AddRow(m, c0, x);
      var y := NewRow(c1, n1, m1);
      ghost var m2 := MB.AddRow(m1, c1, y);
      var z := NewRow(c2, n2, m2);
      ghost var m3 := MB.AddRow(m2, c2, z);
      var w := NewRow(c3, n3, m3);
    }

    /** One node in each of four columns, all in one new row. */
    method AddPlacement(c0: nat, c1: nat, c2: nat, c3: nat, n0: nat, n1: nat, n2: nat, n3: nat, ghost m: LM.Matrix)
      returns (x: nat)
      requires Shape() && cur + 4 <= size.Length && MB.Built(m, View(), cur)
      requires c0 in m.vert && c1 in m.vert && c2 in m.vert && c3 in m.vert
      requires c0 != c1 && c0 != c2 && c0 != c3 && c1 != c2 && c1 != c3 && c2 != c3
      modifies left, right, up, down, col, size, name, this`cur
      ensures x == old(cur) && cur == x + 4
      ensures name[..] == old(name[..])[x := n0][x + 1 := n1][x + 2 := n2][x + 3 := n3]
      ensures MB.Built(MB.Place(m, x, c0, c1, c2, c3), View(), cur)
    {
      hide MB.Built, MB.JoinRow, MB.FourRows, MB.Unused, LM.Hits, LM.Valid, LM.Closed;
      MB.BuiltUnused(m, View(), cur);
      MB.JoinableFirst(m, cur, c0, c1, c2, c3);
      x := NewFourRows(c0, c1, c2, c3, n0, n1, n2, n3, m);
      ghost var m4 := MB.FourRows(m, x, c0, c1, c2, c3);
      JoinRow(x, x + 1, m4);
      ghost var m5 := MB.JoinRow(m4, x, x + 1);
      JoinRow(x, x + 2, m5);
      JoinRow(x, x + 3, MB.JoinRow(m5, x, x + 2));
    }

    // ---------------------------------------------------------------- link edits

    method HideHeader(c: nat)
      requires Shape() && LM.Closed(View()) && c < size.Length
      modifies left, right
      ensures View() == LM.HideHeader(old(View()), c)
    {
      left[right[c]] := left[c];
      right[left[c]] := right[c];
    }

    method ShowHeader(c: nat)
      requires Shape() && LM.Closed(View()) && c < size.Length
      modifies left, right
      ensures View() == LM.ShowHeader(old(View()), c)
    {
      left[right[c]] := c;
      right[left[c]] := c;
    }

    method Unlink(j: nat)
      requires Shape() && LM.Closed(View()) && j < size.Length
      modifies up, down, size
      ensures View() == LM.Unlink(old(View()), j)
    {
      up[down[j]] := up[j];
      down[up[j]] := down[j];
      size[col[j]] := size[col[j]] - 1;
    }

    method Relink(j: nat)
      requires Shape() && LM.Closed(View()) && j < size.Length
      modifies up, down, size
      ensures View() == LM.Relink(old(View()), j)
    {
      size[col[j]] := size[col[j]] + 1;
      up[down[j]] := j;
      down[up[j]] := j;
    }

    // ---------------------------------------------------------------- cover

    /** The inner loop of `cover`: unlinks the other nodes of the i-th row on column c's list. */
    method UnlinkRowmates(row: nat, ghost m: LM.Matrix, ghost st: LM.Links, ghost ks: seq<nat>, ghost c: nat, ghost i: nat)
      requires Shape() && LM.InWalk(m, st, ks, c, i, 0) && |st.size| == size.Length
      requires row == LM.Live(m, ks, c)[i] && View() == LM.At(m, st, ks, c, i, 0)
      modifies up, down, size
      ensures LM.InWalk(m, st, ks, c, i, |LM.Round(m, st, ks, c, i)| - 2)
      ensures View() == LM.At(m, st, ks, c, i, |LM.Round(m, st, ks, c, i)| - 2)
    {
      hide LM.Coverable, LM.Live, LM.At, LM.Round, LM.Rest, LM.Unlink, LM.Relink;
      ghost var t, k := LM.Round(m, st, ks, c, i), 0;
      LM.WalkLinks(m, st, ks, c, i, 0);
      var j := right[row];
      while j != row
        invariant k + 2 <= |t| && LM.InWalk(m, st, ks, c, i, k) && j == t[k + 1]
        invariant View() == LM.At(m, st, ks, c, i, k)
        invariant j == row <==> k + 2 == |t|
        decreases |t| - k
      {
        LM.WalkStep(m, st, ks, c, i, k);
        Unlink(j);
        k := k + 1;
        LM.WalkLinks(m, st, ks, c, i, k);
        j := right[j];
      }
    }

    /** The inner loop of `uncover`: links the other nodes of the i-th row back in, last one first. */
    method RelinkRowmates(row: nat, ghost m: LM.Matrix, ghost st: LM.Links, ghost ks: seq<nat>, ghost c: nat, ghost i: nat)
      requires Shape() && LM.InWalk(m, st, ks, c, i, 0) && |st.size| == size.Length
      requires row == LM.Live(m, ks, c)[i]
      requires LM.InWalk(m, st, ks, c, i, |LM.Round(m, st, ks, c, i)| - 2)
      requires View() == LM.At(m, st, ks, c, i, |LM.Round(m, st, ks, c, i)| - 2)
      modifies up, down, size
      ensures View() == LM.At(m, st, ks, c, i, 0)
    {
      hide LM.Coverable, LM.Live, LM.At, LM.Round, LM.Rest, LM.Unlink, LM.Relink;
      ghost var t := LM.Round(m, st, ks, c, i);
      ghost var k := |t| - 2;
      LM.WalkLinks(m, st, ks, c, i, k);
      var j := left[row];
      while j != row
        invariant 0 <= k && k + 2 <= |t| && LM.InWalk(m, st, ks, c, i, k) && j == t[k]
        invariant View() == LM.At(m, st, ks, c, i, k)
        invariant j == row <==> k == 0
        decreases k
      {
        k := k - 1;
        LM.WalkStep(m, st, ks, c, i, k);
        Relink(j);
        LM.WalkLinks(m, st, ks, c, i, k);
        j := left[j];
      }
    }

    /** Takes column c out of the header list and every row that hits it out of all other columns. */
    method Cover(c: nat, ghost m: LM.Matrix, ghost ks: seq<nat>)
      requires Shape() && LM.Coverable(m, View(), ks, c)
      modifies left, right, up, down, size
      ensures LM.Coverable(m, old(View()), ks, c) && View() == LM.Cover(m, old(View()), ks, c)
      ensures LM.Rep(m, View(), ks + [c])
    {
      hide LM.Live, LM.At, LM.AtRow, LM.Round, LM.Rest, LM.Valid, LM.Rep, LM.HideHeader, LM.Cover, LM.Vertical;
      ghost var st, t, i := View(), LM.Vertical(m, ks, c), 0;
      LM.CoverRep(m, st, ks, c);
      LM.WalkStart(m, st, ks, c);
      HideHeader(c);
      LM.WalkRows(m, st, ks, c, 0);
      var row := down[c];
      while row != c
        invariant i + 2 <= |t| && row == t[i + 1]
        invariant View() == LM.AtRow(m, st, ks, c, i)
        invariant row == c <==> i + 2 == |t|
        decreases |t| - i
      {
        LM.WalkRow(m, st, ks, c, i);
        UnlinkRowmates(row, m, st, ks, c, i);
        i := i + 1;
        LM.WalkRows(m, st, ks, c, i);
        row := down[row];
      }
      LM.WalkRows(m, st, ks, c, i);
    }

    /** Undoes the last `Cover`: every link and every size is as it was before. */
    method Uncover(c: nat, ghost m: LM.Matrix, ghost st: LM.Links, ghost ks: seq<nat>)
      requires Shape() && LM.Coverable(m, st, ks, c) && |st.size| == size.Length
      requires View() == LM.Cover(m, st, ks, c)
      modifies left, right, up, down, size
      ensures View() == st
    {
      hide LM.Live, LM.At, LM.AtRow, LM.Round, LM.Rest, LM.Valid, LM.Rep, LM.HideHeader, LM.ShowHeader, LM.Cover, LM.Vertical;
      ghost var t := LM.Vertical(m, ks, c);
      ghost var i := |t| - 2;
      LM.WalkRows(m, st, ks, c, i);
      LM.WalkStart(m, st, ks, c);
      var row := up[c];
      while row != c
        invariant 0 <= i && i + 2 <= |t| && row == t[i]
        invariant View() == LM.AtRow(m, st, ks, c, i)
        invariant row == c <==> i == 0
        decreases i
      {
        i := i - 1;
        LM.WalkRow(m, st, ks, c, i);
        RelinkRowmates(row, m, st, ks, c, i);
        LM.WalkRows(m, st, ks, c, i);
        row := up[row];
      }
      ShowHeader(c);
    }

    // ---------------------------------------------------------------- choosing a row

    /** Covers the columns of row's other nodes, going right. */
    method CoverRowmates(row: nat, ghost m: LM.Matrix, ghost ks: seq<nat>)
      requires Shape() && EC.Choosable(m, View(), ks, row)
      modifies left, right, up, down, size
      ensures EC.Choosable(m, old(View()), ks, row)
      ensures View() == EC.Chosen(m, old(View()), ks, row, |EC.RestColumns(m, row)|)
    {
      hide EC.Chosen, EC.RestColumns, EC.RoundFrom, EC.Choosable, LM.Cover, LM.Rep, LM.Valid;
      ghost var st := View();
      EC.ChosenStart(m, st, ks, row);
      ghost var t, k := EC.RoundFrom(m, row), 0;
      EC.ChosenLinks(m, st, ks, row, 0);
      var j := right[row];
      while j != row
        invariant k + 2 <= |t| && j == t[k + 1]
        invariant View() == EC.Chosen(m, st, ks, row, k)
        invariant j == row <==> k + 2 == |t|
        decreases |t| - k
      {
        EC.ChosenStep(m, st, ks, row, k);
        Cover(col[j], m, ks + EC.RestColumns(m, row)[..k]);
        k := k + 1;
        EC.ChosenLinks(m, st, ks, row, k);
        j := right[j];
      }
    }

    /** Uncovers them again, going left. */
    method UncoverRowmates(row: nat, ghost m: LM.Matrix, ghost st: LM.Links, ghost ks: seq<nat>)
      requires Shape() && EC.Choosable(m, st, ks, row) && |st.size| == size.Length
      requires View() == EC.Chosen(m, st, ks, row, |EC.RestColumns(m, row)|)
      modifies left, right, up, down, size
      ensures View() == st
    {
      hide EC.Chosen, EC.RestColumns, EC.RoundFrom, EC.Choosable, LM.Cover, LM.Rep, LM.Valid;
      EC.ChosenStart(m, st, ks, row);
      ghost var t := EC.RoundFrom(m, row);
      ghost var k := |t| - 2;
      EC.ChosenLinks(m, st, ks, row, k);
      var j := left[row];
      while j != row
        invariant 0 <= k && k + 2 <= |t| && j == t[k]
        invariant View() == EC.Chosen(m, st, ks, row, k)
        invariant j == row <==> k == 0
        decreases k
      {
        k := k - 1;
        EC.ChosenStep(m, st, ks, row, k);
        Uncover(col[j], m, EC.Chosen(m, st, ks, row, k), ks + EC.RestColumns(m, row)[..k]);
        EC.ChosenLinks(m, st, ks, row, k);
        j := left[j];
      }
    }

    // ---------------------------------------------------------------- choosing a column

    /** The first of the open columns with the fewest rows, except that the scan stops at one with at most one row. */
    method GetMinColumn(root: nat, ghost m: LM.Matrix, ghost ks: seq<nat>) returns (c: nat)
      requires Shape() && LM.Rep(m, View(), ks) && root == m.root && LM.OpenHeaders(m, ks) != []
      ensures LM.Valid(m) && EC.FewestRows(m, ks, c)
    {
      hide LM.Rep, LM.OpenHeaders, Wrap, LM.Valid, LM.Closed, EC.Sizes;
      EC.RepClosed(m, View(), ks);
      ghost var hs, t, ss := LM.OpenHeaders(m, ks), Wrap(root, LM.OpenHeaders(m, ks)), EC.Sizes(m, ks);
      EC.HeaderLinks(m, View(), ks, 0);
      EC.HeaderSize(m, View(), ks, 0);
      c := right[root];
      ghost var k := 0;
      var minSize := size[c];
      if minSize > 1 {
        EC.HeaderLinks(m, View(), ks, 1);
        var cc := right[c];
        ghost var i := 1;
        while cc != root
          invariant 1 <= i <= |hs| && cc == t[i + 1] && (cc == root <==> i == |hs|)
          invariant k < i && c == hs[k] && minSize == ss[k]
          invariant FirstLeast(ss, i, k)
          decreases |hs| - i
        {
          EC.HeaderSize(m, View(), ks, i);
          if minSize > size[cc] {
            c, k := cc, i;
            minSize := size[cc];
            if minSize <= 1 {
              break;
            }
          }
          i := i + 1;
          EC.HeaderLinks(m, View(), ks, i);
          cc := right[cc];
        }
      }
    }
  }
}

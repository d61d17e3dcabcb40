/** N queens by backtracking over three tables of booleans. */
module QueenArrays {
  import opened Queens

  const MAX_QUEENS := 16

  ghost predicate Attacks(p: seq<nat>, k: nat, line: int) {
    exists r :: 0 <= r < |p| && LineOf(p, k, r) == line
  }

  /** The column, antidiagonal or diagonal that the queen of row r stands on. */
  function LineOf(p: seq<nat>, k: nat, r: nat): (line: int)
    requires r < |p|
  {
    if k == 0 then p[r] else if k == 1 then r + p[r] else r - p[r]
  }

  /** The tables mark the lines of the queens placed so far. */
  ghost predicate Marked(n: nat, p: seq<nat>, columns: seq<bool>, diagonal: seq<bool>, antidiagonal: seq<bool>) {
    && n <= MAX_QUEENS && |columns| == MAX_QUEENS && |diagonal| == |antidiagonal| == 2 * MAX_QUEENS
    && (forall i :: 0 <= i < n ==> (columns[i] <==> Attacks(p, 0, i)))
    && (forall s :: 0 <= s < 2 * n ==> (antidiagonal[s] <==> Attacks(p, 1, s)))
    && (forall d :: 0 <= d < 2 * n ==> (diagonal[d] <==> Attacks(p, 2, d - n)))
  }

  lemma AttacksSnoc(p: seq<nat>, i: nat, k: nat, line: int)
    ensures Attacks(p + [i], k, line) <==> Attacks(p, k, line) || LineOf(p + [i], k, |p|) == line
  {
    var q := p + [i];
    assert forall r :: 0 <= r < |p| ==> LineOf(q, k, r) == LineOf(p, k, r);
    if Attacks(p, k, line) {
      var r :| 0 <= r < |p| && LineOf(p, k, r) == line;
      assert LineOf(q, k, r) == line;
    }
    if LineOf(q, k, |p|) == line {
      assert Attacks(q, k, line);
    }
  }

  lemma MarkedSnoc(n: nat, p: seq<nat>, i: nat, columns: seq<bool>, diagonal: seq<bool>, antidiagonal: seq<bool>)
    requires Marked(n, p, columns, diagonal, antidiagonal) && |p| < n && i < n
    ensures Marked(n, p + [i], columns[i := true], diagonal[n + |p| - i := true], antidiagonal[|p| + i := true])
  {
    forall k: nat, line
      ensures Attacks(p + [i], k, line) <==> Attacks(p, k, line) || LineOf(p + [i], k, |p|) == line
    {
      AttacksSnoc(p, i, k, line);
    }
  }

  /** A square is free in the tables exactly when a queen there attacks none of the others. */
  lemma FreeIsSafe(n: nat, p: seq<nat>, i: nat, columns: seq<bool>, diagonal: seq<bool>, antidiagonal: seq<bool>)
    requires Marked(n, p, columns, diagonal, antidiagonal) && |p| < n && i < n && Safe(p)
    ensures Safe(p + [i]) <==> !(columns[i] || antidiagonal[|p| + i] || diagonal[n + |p| - i])
  {
    var q := p + [i];
    assert forall r :: 0 <= r < |p| ==> q[r] == p[r];
    if Safe(q) {
      forall k, r | 0 <= k < 3 && 0 <= r < |p|
        ensures LineOf(p, k, r) != LineOf(q, k, |p|)
      {
        assert q[r] == p[r];
      }
    } else {
      var a, b :| 0 <= a < b < |q| && !(q[a] != q[b] && q[a] + a != q[b] + b && q[a] - a != q[b] - b);
      assert b == |p|;
      var k := if q[a] == q[b] then 0 else if q[a] + a == q[b] + b then 1 else 2;
      assert LineOf(p, k, a) == LineOf(q, k, b);
      assert Attacks(p, k, LineOf(q, k, b));
    }
  }

  class BackTracking {
    const N: nat
    var count: int
    const columns: array<bool>
    const diagonal: array<bool>
    const antidiagonal: array<bool>

    ghost predicate Shape() {
      columns != diagonal && columns != antidiagonal && diagonal != antidiagonal
    }

    /** The tables mark the queens of p. */
    ghost predicate Holds(p: seq<nat>)
      reads this, columns, diagonal, antidiagonal
    {
      Marked(N, p, columns[..], diagonal[..], antidiagonal[..])
    }

    constructor (nqueens: nat)
      requires 0 < nqueens <= 16
      ensures Shape() && N == nqueens && count == 0 && Holds([])
      ensures fresh(columns) && fresh(diagonal) && fresh(antidiagonal)
    {
      N := nqueens;
      count := 0;
      columns := new bool[MAX_QUEENS](_ => false);
      diagonal := new bool[2 * MAX_QUEENS](_ => false);
      antidiagonal := new bool[2 * MAX_QUEENS](_ => false);
    }

    /** Adds the number of ways to complete the queens p, and leaves the tables as it found them. */
    method Search(row: nat, ghost p: seq<nat>)
      requires Shape() && Holds(p) && row == |p| < N && IsWord(N, row, p) && Safe(p)
      modifies this`count, columns, diagonal, antidiagonal
      ensures count == old(count) + |Completions(N, p)|
      ensures columns[..] == old(columns[..]) && diagonal[..] == old(diagonal[..]) && antidiagonal[..] == old(antidiagonal[..])
      decreases N - row
    {
      hide Completions, CompletionsBelow, Safe, Marked;
      CompletionsAll(N, p);
      TableSizes(N, p, columns[..], diagonal[..], antidiagonal[..]);
      for i := 0 to N
        invariant count == old(count) + |CompletionsBelow(N, p, i)|
        invariant columns[..] == old(columns[..]) && diagonal[..] == old(diagonal[..]) && antidiagonal[..] == old(antidiagonal[..])
      {
        CompletionsStep(N, p, i);
        FreeIsSafe(N, p, i, columns[..], diagonal[..], antidiagonal[..]);
        var d := N + row - i;
        if !(columns[i] || antidiagonal[row + i] || diagonal[d]) {
          if row == N - 1 {
            FullBoard(N, p + [i]);
            count := count + 1;
          } else {
            MarkedSnoc(N, p, i, columns[..], diagonal[..], antidiagonal[..]);
            columns[i] := true;
            antidiagonal[row + i] := true;
            diagonal[d] := true;
            Search(row + 1, p + [i]);
            columns[i] := false;
            antidiagonal[row + i] := false;
            diagonal[d] := false;
          }
        } else {
          NoCompletions(N, p + [i]);
        }
      }
    }
  }

  lemma TableSizes(n: nat, p: seq<nat>, columns: seq<bool>, diagonal: seq<bool>, antidiagonal: seq<bool>)
    requires Marked(n, p, columns, diagonal, antidiagonal)
    ensures n <= MAX_QUEENS && |columns| == MAX_QUEENS && |diagonal| == |antidiagonal| == 2 * MAX_QUEENS
  {
  }

  /** The table-driven count of N queens. */
  method CountQueens(n: nat) returns (count: int)
    requires 0 < n <= 16
    ensures count == |Solutions(n)|
  {
    hide Completions;
    CompletionsAll(n, []);
    var bt := new BackTracking(n);
    bt.Search(0, []);
    count := bt.count;
  }
}

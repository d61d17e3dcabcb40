/** N queens by bit masks, and the count that searches only half of the first row. */
module QueenMasks {
  import opened Finite
  import opened Queens
  import opened Bits

  const MAX_QUEENS := 20

  /** Row row's square i is on the column, diagonal or antidiagonal of an earlier queen. */
  ghost predicate OnColumn(p: seq<nat>, i: nat) {
    exists r :: 0 <= r < |p| && p[r] == i
  }

  ghost predicate OnDiagonal(p: seq<nat>, i: nat) {
    exists r :: 0 <= r < |p| && p[r] - (|p| - r) == i
  }

  ghost predicate OnAntidiagonal(p: seq<nat>, i: nat) {
    exists r :: 0 <= r < |p| && p[r] + (|p| - r) == i
  }

  /** The three masks, shifted along with the rows, hold the lines of the queens p. */
  ghost predicate Masks(p: seq<nat>, columns: bv32, diagonal: bv32, antidiagonal: bv32) {
    forall i :: 0 <= i < 32 ==>
      && (Bit(columns, i) <==> OnColumn(p, i))
      && (Bit(diagonal, i) <==> OnDiagonal(p, i))
      && (Bit(antidiagonal, i) <==> OnAntidiagonal(p, i))
  }

  lemma SnocLines(p: seq<nat>, k: nat, i: nat)
    ensures OnColumn(p + [k], i) <==> OnColumn(p, i) || i == k
    ensures OnDiagonal(p + [k], i) <==> OnDiagonal(p, i + 1) || i + 1 == k
    ensures OnAntidiagonal(p + [k], i) <==> 0 < i && (OnAntidiagonal(p, i - 1) || i - 1 == k)
  {
    var q := p + [k];
    assert q[|p|] == k;
    assert forall r :: 0 <= r < |p| ==> q[r] == p[r];
    if OnColumn(p, i) {
      var r :| 0 <= r < |p| && p[r] == i;
      assert q[r] == i;
    }
    if OnDiagonal(p, i + 1) {
      var r :| 0 <= r < |p| && p[r] - (|p| - r) == i + 1;
      assert q[r] - (|q| - r) == i;
    }
    if 0 < i && OnAntidiagonal(p, i - 1) {
      var r :| 0 <= r < |p| && p[r] + (|p| - r) == i - 1;
      assert q[r] + (|q| - r) == i;
    }
  }

  /** The masks for the next row. */
  lemma MasksSnoc(n: nat, p: seq<nat>, k: nat, columns: bv32, diagonal: bv32, antidiagonal: bv32)
    requires Masks(p, columns, diagonal, antidiagonal) && IsWord(n, |p|, p) && n <= MAX_QUEENS && k < n
    ensures Masks(p + [k], Or(columns, One(k)), Half(Or(diagonal, One(k))), Twice(Or(antidiagonal, One(k))))
  {
    hide Bit, One, Half, Twice, Or, OnColumn, OnDiagonal, OnAntidiagonal;
    forall i | 0 <= i < 32
      ensures Bit(Or(columns, One(k)), i) <==> OnColumn(p + [k], i)
      ensures Bit(Half(Or(diagonal, One(k))), i) <==> OnDiagonal(p + [k], i)
      ensures Bit(Twice(Or(antidiagonal, One(k))), i) <==> OnAntidiagonal(p + [k], i)
    {
      SnocLines(p, k, i);
      BitOr(columns, One(k), i);
      BitOne(k, i);
      BitHalf(Or(diagonal, One(k)), i);
      BitTwice(Or(antidiagonal, One(k)), i);
      if i < 31 {
        BitOr(diagonal, One(k), i + 1);
        BitOne(k, i + 1);
      } else {
        NoHighDiagonal(n, p);
      }
      if 0 < i {
        BitOr(antidiagonal, One(k), i - 1);
        BitOne(k, i - 1);
      }
    }
  }

  lemma NoHighDiagonal(n: nat, p: seq<nat>)
    requires IsWord(n, |p|, p) && n <= MAX_QUEENS
    ensures !OnDiagonal(p, 32)
  {
  }

  /** A queen on square i of the next row is safe exactly when i is on none of the lines. */
  lemma FreeIsSafe(p: seq<nat>, i: nat)
    requires Safe(p)
    ensures Safe(p + [i]) <==> !OnColumn(p, i) && !OnDiagonal(p, i) && !OnAntidiagonal(p, i)
  {
    var q := p + [i];
    assert forall r :: 0 <= r < |p| ==> q[r] == p[r];
    assert q[|p|] == i;
    if Safe(q) {
      forall r | 0 <= r < |p|
        ensures p[r] != i && p[r] - (|p| - r) != i && p[r] + (|p| - r) != i
      {
        assert q[r] != q[|p|];
      }
    } else {
      var a, b :| 0 <= a < b < |q| && !(q[a] != q[b] && q[a] + a != q[b] + b && q[a] - a != q[b] - b);
      assert b == |p|;
    }
  }

  /** The free squares of the next row. */
  ghost predicate Free(n: nat, p: seq<nat>, i: nat) {
    i < n && Safe(p + [i])
  }

  lemma AvailIsFree(n: nat, p: seq<nat>, columns: bv32, diagonal: bv32, antidiagonal: bv32, i: nat)
    requires n <= MAX_QUEENS && Safe(p) && Masks(p, columns, diagonal, antidiagonal) && i < 32
    ensures Bit(Not(Or(Or(Or(columns, diagonal), antidiagonal), Not(Minus1(One(n))))), i) <==> Free(n, p, i)
  {
    hide Bit, One, Or, Not, Minus1, OnColumn, OnDiagonal, OnAntidiagonal, Safe;
    FreeIsSafe(p, i);
    BitNot(Or(Or(Or(columns, diagonal), antidiagonal), Not(Minus1(One(n)))), i);
    BitOr(Or(Or(columns, diagonal), antidiagonal), Not(Minus1(One(n))), i);
    BitOr(Or(columns, diagonal), antidiagonal, i);
    BitOr(columns, diagonal, i);
    BitNot(Minus1(One(n)), i);
    BitBelow(n, i);
  }

  /** Rows that are not free add nothing. */
  lemma {:induction false} SkipTaken(n: nat, p: seq<nat>, a: nat, b: nat)
    requires |p| < n && a <= b <= n && forall i :: a <= i < b ==> !Free(n, p, i)
    ensures |CompletionsBelow(n, p, b)| == |CompletionsBelow(n, p, a)|
    decreases b
  {
    hide CompletionsBelow, Completions, Safe;
    if a < b {
      SkipTaken(n, p, a, b - 1);
      assert !Free(n, p, b - 1);
      NoCompletions(n, p + [b - 1]);
      CompletionsStep(n, p, b - 1);
    }
  }

  /** A full board has no free square in a further row. */
  lemma FullIsTaken(n: nat, p: seq<nat>, i: nat)
    requires IsSolution(n, p)
    ensures !Free(n, p, i)
  {
    if i < n {
      DistinctIsOnto(p, 0, i);
      var r :| 0 <= r < n && p[r] == i;
      assert (p + [i])[r] == (p + [i])[n];
    }
  }

  class BackTracking {
    const N: nat
    const mask: bv32
    var count: int

    constructor (nqueens: nat)
      requires 0 < nqueens <= 20
      ensures N == nqueens && mask == Not(Minus1(One(N))) && count == 0
    {
      N := nqueens;
      mask := Not(Minus1(One(nqueens)));
      count := 0;
    }

    /** Adds the number of ways to complete the queens p. At row N there is no row left to look at, and nothing is added. */
    method Search(row: nat, columns: bv32, diagonal: bv32, antidiagonal: bv32, ghost p: seq<nat>)
      requires N <= MAX_QUEENS && mask == Not(Minus1(One(N)))
      requires row == |p| <= N && IsWord(N, row, p) && Safe(p) && Masks(p, columns, diagonal, antidiagonal)
      modifies this`count
      ensures count == old(count) + if row < N then |Completions(N, p)| else 0
      decreases N - row
    {
      hide Bit, One, Or, Not, Minus1, ClearLow, Masks, Completions, CompletionsBelow, Safe, Free, Ctz, Half, Twice;
      var avail := Not(Or(Or(Or(columns, diagonal), antidiagonal), mask));
      ghost var next := 0;
      forall i | 0 <= i < 32
        ensures Bit(avail, i) <==> Free(N, p, i)
      {
        AvailIsFree(N, p, columns, diagonal, antidiagonal, i);
      }
      if row < N {
        CompletionsAll(N, p);
      }
      while avail != 0
        invariant next <= N
        invariant forall i :: 0 <= i < 32 ==> (Bit(avail, i) <==> next <= i && Free(N, p, i))
        invariant count == old(count) + if row < N then |CompletionsBelow(N, p, next)| else 0
        decreases N - next
      {
        var i := Ctz(avail);
        FreeBelow(N, p, i);
        forall j | 0 <= j < 32
          ensures Bit(ClearLow(avail), j) <==> Bit(avail, j) && j != i
        {
          ClearLowest(avail, i, j);
        }
        if row == N {
          FullIsTaken(N, p, i);
        }
        NoneBetween(N, p, avail, next, i);
        SkipTaken(N, p, next, i);
        CompletionsStep(N, p, i);
        if row == N - 1 {
          FreeFull(N, p, i);
          count := count + 1;
        } else {
          FreeFull(N, p, i);
          MasksSnoc(N, p, i, columns, diagonal, antidiagonal);
          Search(row + 1, Or(columns, One(i)), Half(Or(diagonal, One(i))), Twice(Or(antidiagonal, One(i))), p + [i]);
        }
        avail := ClearLow(avail);
        next := i + 1;
      }
      if row < N {
        NoneLeft(N, p, avail, next);
        SkipTaken(N, p, next, N);
      }
    }
  }

  lemma FreeBelow(n: nat, p: seq<nat>, i: nat)
    ensures Free(n, p, i) ==> i < n
  {
  }

  lemma FreeFull(n: nat, p: seq<nat>, i: nat)
    requires Free(n, p, i) && IsWord(n, |p|, p) && |p| < n
    ensures Safe(p + [i]) && IsWord(n, |p| + 1, p + [i]) && i < n
    ensures |p| == n - 1 ==> |Completions(n, p + [i])| == 1
  {
    if |p| == n - 1 {
      FullBoard(n, p + [i]);
    }
  }

  lemma NoneBetween(n: nat, p: seq<nat>, avail: bv32, next: nat, i: nat)
    requires i < 32 && forall j :: 0 <= j < i ==> !Bit(avail, j)
    requires forall j :: 0 <= j < 32 ==> (Bit(avail, j) <==> next <= j && Free(n, p, j))
    ensures forall j :: next <= j < i ==> !Free(n, p, j)
  {
    hide Bit, Free;
  }

  lemma NoneLeft(n: nat, p: seq<nat>, avail: bv32, next: nat)
    requires n <= MAX_QUEENS && avail == 0
    requires forall j :: 0 <= j < 32 ==> (Bit(avail, j) <==> next <= j && Free(n, p, j))
    ensures forall j :: next <= j < n ==> !Free(n, p, j)
  {
    hide Free, One;
    forall j | next <= j < n
      ensures !Free(n, p, j)
    {
      HasWord(One(j), 0);
      assert !Bit(avail, j);
    }
  }

  // ---------------------------------------------------------------- half of the first row

  /** The board seen in a mirror. */
  ghost function Mirror(n: nat, q: seq<nat>): (m: seq<nat>)
    requires forall i :: 0 <= i < |q| ==> q[i] < n
    ensures |m| == |q| && forall i :: 0 <= i < |q| ==> m[i] == n - 1 - q[i]
  {
    seq(|q|, i requires 0 <= i < |q| => n - 1 - q[i])
  }

  lemma MirrorSolution(n: nat, q: seq<nat>)
    requires IsSolution(n, q)
    ensures IsSolution(n, Mirror(n, q)) && Mirror(n, Mirror(n, q)) == q
  {
    var m := Mirror(n, q);
    forall i, j | 0 <= i < j < n
      ensures m[i] != m[j] && m[i] + i != m[j] + j && m[i] - i != m[j] - j
    {
      assert q[i] != q[j];
    }
  }

  lemma StartsWith(q: seq<nat>, i: nat)
    ensures [i] <= q <==> q != [] && q[0] == i
  {
    if q != [] && q[0] == i {
      assert q[..1] == [i];
    }
  }

  /** As many solutions start in column i as in the mirrored column. */
  lemma MirrorCount(n: nat, i: nat)
    requires i < n
    ensures |Completions(n, [i])| == |Completions(n, [n - 1 - i])|
  {
    hide Solutions, Safe;
    var dom, img := Completions(n, [i]), Completions(n, [n - 1 - i]);
    var f := map q | q in dom :: Mirror(n, q);
    forall q | q in dom
      ensures f[q] in img
    {
      MirrorSolution(n, q);
      StartsWith(q, i);
      StartsWith(Mirror(n, q), n - 1 - i);
    }
    forall q, q' | q in dom && q' in dom && f[q] == f[q']
      ensures q == q'
    {
      MirrorSolution(n, q);
      MirrorSolution(n, q');
    }
    forall q' | q' in img
      ensures exists q :: q in dom && f[q] == q'
    {
      MirrorSolution(n, q');
      StartsWith(q', n - 1 - i);
      StartsWith(Mirror(n, q'), i);
      assert Mirror(n, q') in dom;
    }
    SameSize(dom, img, f);
  }

  /** The solutions whose first queen stands left of column i. */
  ghost function CountBelow(n: nat, i: nat): (c: nat) {
    |CompletionsBelow(n, [], i)|
  }

  lemma CountStep(n: nat, i: nat)
    requires i < n
    ensures CountBelow(n, i + 1) == CountBelow(n, i) + |Completions(n, [i])|
    ensures CountBelow(n, 0) == 0 && CountBelow(n, n) == |Solutions(n)|
  {
    hide Completions, CompletionsBelow;
    CompletionsStep(n, [], i);
    CompletionsAll(n, []);
    assert [] + [i] == [i];
  }

  /** The rightmost i columns hold as many as the leftmost i. */
  lemma {:induction false} MirrorSum(n: nat, i: nat)
    requires i <= n
    ensures CountBelow(n, n) - CountBelow(n, n - i) == CountBelow(n, i) - CountBelow(n, 0)
  {
    hide CountBelow, Completions;
    if i == 0 {
    } else {
      MirrorSum(n, i - 1);
      CountStep(n, i - 1);
      CountStep(n, n - i);
      MirrorCount(n, i - 1);
    }
  }

  lemma NoMasks()
    ensures Masks([], 0, 0, 0)
  {
    hide One;
    forall i | 0 <= i < 32
      ensures !Bit(0, i)
    {
      HasWord(One(i), 0);
    }
  }

  lemma OrNothing(x: bv32)
    ensures Or(0, x) == x
  {
  }

  lemma FirstMasks(n: nat, i: nat)
    requires i < n <= MAX_QUEENS
    ensures Masks([i], One(i), Half(One(i)), Twice(One(i)))
  {
    hide Masks, One, Half, Twice, Or;
    NoMasks();
    MasksSnoc(n, [], i, 0, 0, 0);
    OrNothing(One(i));
    assert [] + [i] == [i];
  }

  /** The solutions whose first queen stands in column i, except that the search starts one row too late when N is 1. */
  method BacktrackingSub(n: nat, i: nat) returns (count: int)
    requires 0 < n <= 20 && i < n
    ensures count == if n == 1 then 0 else |Completions(n, [i])|
  {
    hide One, Half, Twice, Masks, Completions, Not, Minus1;
    var m := One(i);
    FirstMasks(n, i);
    var bt := new BackTracking(n);
    bt.Search(1, m, Half(m), Twice(m), [i]);
    count := bt.count;
  }

  /** Twice the left half and, for odd N, the middle column: the number of solutions for every N but 1. */
  method Backtracking(n: nat) returns (total: int)
    requires 0 < n <= 20
    ensures total == |Solutions(n)| <==> n != 1
    ensures n == 1 ==> total == 0
  {
    hide CountBelow, Completions, Solutions;
    total := 0;
    CountStep(n, 0);
    for i := 0 to n / 2
      invariant total == if n == 1 then 0 else CountBelow(n, i)
    {
      CountStep(n, i);
      var sub := BacktrackingSub(n, i);
      total := total + sub;
    }
    MirrorSum(n, n / 2);
    total := total * 2;
    if n % 2 == 1 {
      CountStep(n, n / 2);
      var sub := BacktrackingSub(n, n / 2);
      total := total + sub;
    }
    OneQueen();
  }

  lemma OneQueen()
    ensures |Solutions(1)| == 1
  {
    forall q
      ensures IsSolution(1, q) <==> q == [0]
    {
      if IsSolution(1, q) {
        assert q[0] == 0;
      }
    }
    assert Solutions(1) == {[0]};
  }
}

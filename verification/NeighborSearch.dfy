/** Filling cells so that neighbours differ: what a completion is, and the scans the solvers use.

The table of neighbours is any symmetric one; the 9 by 9 Sudoku table is one instance. */
module NeighborSearch {

  type Table = seq<seq<nat>>

  ghost predicate ValidTable(nbs: Table) {
    && (forall c, i :: 0 <= c < |nbs| && 0 <= i < |nbs[c]| ==> nbs[c][i] < |nbs|)
    && (forall c :: 0 <= c < |nbs| ==> c !in nbs[c])
    && (forall c, d :: 0 <= c < |nbs| && 0 <= d < |nbs| && d in nbs[c] ==> c in nbs[d])
  }

  ghost predicate IsBoard(nbs: Table, num: nat, board: seq<int>) {
    |board| == |nbs| && forall c :: 0 <= c < |board| ==> 0 <= board[c] <= num
  }

  /** Some neighbour of cell c holds v. */
  ghost predicate Held(nbs: Table, board: seq<int>, c: nat, v: int)
    requires ValidTable(nbs) && |board| == |nbs| && c < |nbs|
  {
    exists i :: 0 <= i < |nbs[c]| && board[nbs[c][i]] == v
  }

  /** How many of the values 1..k no neighbour of c holds. */
  ghost function FreeCount(nbs: Table, board: seq<int>, c: nat, k: nat): (n: nat)
    requires ValidTable(nbs) && |board| == |nbs| && c < |nbs|
    ensures n <= k
  {
    if k == 0 then 0 else FreeCount(nbs, board, c, k - 1) + if Held(nbs, board, c, k) then 0 else 1
  }

  /** g fills the empty cells of board so that each of them differs from all its neighbours. */
  ghost predicate Fits(nbs: Table, num: nat, g: seq<int>, board: seq<int>)
    requires ValidTable(nbs)
  {
    && |g| == |board| == |nbs|
    && (forall c :: 0 <= c < |g| ==> 1 <= g[c] <= num)
    && (forall c :: 0 <= c < |g| && board[c] != 0 ==> g[c] == board[c])
    && (forall c, i :: 0 <= c < |g| && board[c] == 0 && 0 <= i < |nbs[c]| ==> g[nbs[c][i]] != g[c])
  }

  // ---------------------------------------------------------------- placing one value

  lemma HeldAfter(nbs: Table, board: seq<int>, cell: nat, guess: int, c: nat, v: int)
    requires ValidTable(nbs) && |board| == |nbs| && cell < |nbs| && c < |nbs| && board[cell] == 0 && v != 0
    ensures Held(nbs, board[cell := guess], c, v) <==> Held(nbs, board, c, v) || (v == guess && cell in nbs[c])
  {
    var board' := board[cell := guess];
    if Held(nbs, board, c, v) {
      var i :| 0 <= i < |nbs[c]| && board[nbs[c][i]] == v;
      assert board'[nbs[c][i]] == v;
    }
    if cell in nbs[c] && v == guess {
      var i :| 0 <= i < |nbs[c]| && nbs[c][i] == cell;
      assert board'[nbs[c][i]] == v;
    }
  }

  lemma {:induction false} FreeCountAfter(nbs: Table, board: seq<int>, cell: nat, guess: nat, c: nat, k: nat)
    requires ValidTable(nbs) && |board| == |nbs| && cell < |nbs| && c < |nbs| && board[cell] == 0 && 1 <= guess
    ensures FreeCount(nbs, board[cell := guess], c, k)
         == FreeCount(nbs, board, c, k) - if guess <= k && cell in nbs[c] && !Held(nbs, board, c, guess) then 1 else 0
  {
    hide ValidTable, Held;
    if k == 0 {
    } else {
      FreeCountAfter(nbs, board, cell, guess, c, k - 1);
      HeldAfter(nbs, board, cell, guess, c, k);
      HeldAfter(nbs, board, cell, guess, c, guess);
    }
  }

  /** A value that no neighbour holds can be placed without loss: the completions with it there are the same. */
  lemma PlaceFree(nbs: Table, num: nat, g: seq<int>, board: seq<int>, cell: nat, guess: int)
    requires ValidTable(nbs) && |board| == |nbs| && cell < |nbs| && board[cell] == 0 && guess != 0
    ensures Fits(nbs, num, g, board) && g[cell] == guess ==> Fits(nbs, num, g, board[cell := guess])
    ensures !Held(nbs, board, cell, guess) && Fits(nbs, num, g, board[cell := guess]) ==> Fits(nbs, num, g, board)
  {
    var board' := board[cell := guess];
    if !Held(nbs, board, cell, guess) && Fits(nbs, num, g, board') {
      forall i | 0 <= i < |nbs[cell]|
        ensures g[nbs[cell][i]] != g[cell]
      {
        var d := nbs[cell][i];
        if board'[d] == 0 {
          BackTo(nbs, cell, d);
          var j :| 0 <= j < |nbs[d]| && nbs[d][j] == cell;
          assert g[nbs[d][j]] != g[d];
        } else {
          assert board[d] != guess;
        }
      }
    }
  }

  lemma BackTo(nbs: Table, c: nat, d: nat)
    requires ValidTable(nbs) && c < |nbs| && d in nbs[c]
    ensures d < |nbs| && c in nbs[d]
  {
  }

  /** A value that a neighbour holds is in no completion. */
  lemma HeldIsOut(nbs: Table, num: nat, g: seq<int>, board: seq<int>, cell: nat, guess: int)
    requires ValidTable(nbs) && |board| == |nbs| && cell < |nbs| && board[cell] == 0 && guess != 0
    requires Held(nbs, board, cell, guess) && Fits(nbs, num, g, board)
    ensures g[cell] != guess
  {
    var i :| 0 <= i < |nbs[cell]| && board[nbs[cell][i]] == guess;
    assert nbs[cell][i] < |nbs|;
    assert g[nbs[cell][i]] == guess;
  }

  /** A full board completes itself. */
  lemma FullFits(nbs: Table, num: nat, board: seq<int>)
    requires ValidTable(nbs) && IsBoard(nbs, num, board) && forall c :: 0 <= c < |board| ==> board[c] != 0
    ensures Fits(nbs, num, board, board)
  {
  }
}

/** Backtracking with incrementally kept `occupied` and `arity` tables. */
module CacheSolver {
  import opened Chains
  import opened NeighborSearch

  type Marks = set<(nat, nat)>  // the pairs (cell, value) for which occupied[cell][value] is set

  /** For every empty cell the tables say what a fresh scan of its neighbours would. */
  ghost predicate Cached(nbs: Table, num: nat, board: seq<int>, occ: Marks, arity: seq<int>)
    requires ValidTable(nbs)
  {
    && |board| == |arity| == |nbs|
    && (forall c, v :: 0 <= c < |nbs| && board[c] == 0 && 1 <= v <= num ==> ((c, v) in occ <==> Held(nbs, board, c, v)))
    && (forall c :: 0 <= c < |nbs| && board[c] == 0 ==> arity[c] == FreeCount(nbs, board, c, num))
  }

  ghost function Pairs(ds: seq<nat>, v: nat): (s: Marks)
    ensures forall d, w :: (d, w) in s <==> d in ds && w == v
  {
    set i | 0 <= i < |ds| :: (ds[i], v)
  }

  /** ds are the cells of list that were not yet marked with v. */
  ghost predicate NewlyMarked(ds: seq<nat>, list: seq<nat>, occ: Marks, v: nat) {
    Distinct(ds) && forall d :: d in ds <==> d in list && (d, v) !in occ
  }

  ghost predicate Shifted(arity: seq<int>, before: seq<int>, ds: seq<nat>, delta: int) {
    |arity| == |before| && forall c :: 0 <= c < |arity| ==> arity[c] == before[c] + if c in ds then delta else 0
  }

  /** Placing a value and marking the neighbours keeps the tables right. */
  lemma HoldCached(nbs: Table, num: nat, board: seq<int>, occ: Marks, arity: seq<int>, cell: nat, guess: nat,
                   ds: seq<nat>, occ': Marks, arity': seq<int>)
    requires ValidTable(nbs) && Cached(nbs, num, board, occ, arity) && cell < |nbs| && board[cell] == 0 && 1 <= guess <= num
    requires NewlyMarked(ds, nbs[cell], occ, guess) && Shifted(arity', arity, ds, -1)
    requires occ' == occ + {(cell, guess)} + Pairs(nbs[cell], guess)
    ensures Cached(nbs, num, board[cell := guess], occ', arity')
  {
    hide Held;
    var board' := board[cell := guess];
    forall c | 0 <= c < |nbs| && board'[c] == 0
      ensures forall v :: 1 <= v <= num ==> ((c, v) in occ' <==> Held(nbs, board', c, v))
      ensures arity'[c] == FreeCount(nbs, board', c, num)
    {
      assert c in nbs[cell] <==> cell in nbs[c];
      forall v | 1 <= v <= num
        ensures (c, v) in occ' <==> Held(nbs, board', c, v)
      {
        HeldAfter(nbs, board, cell, guess, c, v);
      }
      FreeCountAfter(nbs, board, cell, guess, c, num);
    }
  }

  /** Unmarking exactly the newly marked cells restores the tables. */
  lemma UndoMarks(occ: Marks, cell: nat, guess: nat, list: seq<nat>, ds: seq<nat>)
    requires NewlyMarked(ds, list, occ, guess) && (cell, guess) !in occ && cell !in list
    ensures occ + {(cell, guess)} + Pairs(list, guess) - {(cell, guess)} - Pairs(ds, guess) == occ
  {
  }

  lemma UndoArity(arity: seq<int>, arity': seq<int>, arity'': seq<int>, ds: seq<nat>)
    requires Shifted(arity', arity, ds, -1) && Shifted(arity'', arity', ds, 1)
    ensures arity'' == arity
  {
  }

  // ---------------------------------------------------------------- the cells still to fill

  /** From position w on, spaces lists exactly the empty cells. */
  ghost predicate Lists(board: seq<int>, spaces: seq<nat>, w: nat) {
    && w <= |spaces| && Distinct(spaces) && (forall i :: 0 <= i < |spaces| ==> spaces[i] < |board|)
    && (forall c :: 0 <= c < |board| ==> (board[c] == 0 <==> c in spaces[w..]))
  }

  /** after is before with the tail from w on permuted. */
  ghost predicate TailPermuted(after: seq<nat>, before: seq<nat>, w: nat) {
    && |after| == |before| && w <= |before| && after[..w] == before[..w]
    && multiset(after[w..]) == multiset(before[w..])
  }

  lemma {:induction false} DistinctOnce(s: seq<nat>, x: nat)
    requires Distinct(s)
    ensures multiset(s)[x] <= 1
  {
    if s == [] {
    } else {
      var k := |s| - 1;
      assert s == s[..k] + [s[k]];
      DistinctOnce(s[..k], x);
      assert s[k] !in s[..k];
      assert multiset(s[..k])[s[k]] == 0;
    }
  }

  lemma OnceDistinct(s: seq<nat>)
    requires forall x :: multiset(s)[x] <= 1
    ensures Distinct(s)
  {
    forall i, j | 0 <= i < j < |s|
      ensures s[i] != s[j]
    {
      assert s == s[..j] + s[j..];
      assert s[i] in multiset(s[..j]) && s[j] in multiset(s[j..]);
      assert multiset(s) == multiset(s[..j]) + multiset(s[j..]);
      assert multiset(s)[s[i]] <= 1;
    }
  }

  lemma PermutedLists(board: seq<int>, before: seq<nat>, after: seq<nat>, w: nat)
    requires Lists(board, before, w) && TailPermuted(after, before, w)
    ensures Lists(board, after, w)
  {
    assert before == before[..w] + before[w..] && after == after[..w] + after[w..];
    assert multiset(after) == multiset(before);
    forall x
      ensures multiset(after)[x] <= 1
    {
      DistinctOnce(before, x);
    }
    OnceDistinct(after);
    forall x
      ensures x in after[w..] <==> x in before[w..]
    {
      assert x in multiset(after[w..]) <==> x in multiset(before[w..]);
    }
    forall i | 0 <= i < |after|
      ensures after[i] < |board|
    {
      assert after[i] in multiset(after);
      assert after[i] in before;
    }
  }

  lemma PermutedTrans(a: seq<nat>, b: seq<nat>, c: seq<nat>, w: nat, w': nat)
    requires TailPermuted(b, a, w) && TailPermuted(c, b, w') && w <= w'
    ensures TailPermuted(c, a, w)
  {
    assert b[..w'][..w] == b[..w] && c[..w'][..w] == c[..w];
    assert b[w..] == b[w..w'] + b[w'..] && c[w..] == c[w..w'] + c[w'..];
    assert b[w..w'] == b[..w'][w..] && c[w..w'] == c[..w'][w..];
  }

  lemma PermutedSame(a: seq<nat>, w: nat)
    requires w <= |a|
    ensures TailPermuted(a, a, w)
  {
  }

  lemma SwapPermutes(a: seq<nat>, w: nat, i: nat)
    requires w <= i < |a|
    ensures TailPermuted(a[w := a[i]][i := a[w]], a, w)
  {
    var b := a[w := a[i]][i := a[w]];
    if i == w {
      assert b == a;
    } else {
      var mid, end := a[w + 1..i], a[i + 1..];
      assert a[w..] == [a[w]] + mid + [a[i]] + end;
      assert b[w..] == [a[i]] + mid + [a[w]] + end;
    }
  }

  /** Filling the cell at position w leaves the ones after it. */
  lemma FillNext(board: seq<int>, spaces: seq<nat>, w: nat, guess: int)
    requires Lists(board, spaces, w) && w < |spaces| && guess != 0
    ensures board[spaces[w]] == 0 && Lists(board[spaces[w] := guess], spaces, w + 1)
  {
    assert spaces[w..] == [spaces[w]] + spaces[w + 1..];
    assert spaces[w] in spaces[w..];
    forall i | w + 1 <= i < |spaces|
      ensures spaces[i] != spaces[w]
    {
    }
    assert spaces[w] !in spaces[w + 1..];
  }

  /** The arities of the given cells, counted by scanning their neighbours. */
  ghost function Counts(nbs: Table, num: nat, board: seq<int>, cells: seq<nat>): (s: seq<int>)
    requires ValidTable(nbs) && |board| == |nbs|
    ensures |s| == |cells| && forall i :: 0 <= i < |cells| && cells[i] < |nbs| ==> s[i] == FreeCount(nbs, board, cells[i], num)
  {
    seq(|cells|, i requires 0 <= i < |cells| => if cells[i] < |nbs| then FreeCount(nbs, board, cells[i], num) else 0)
  }

  /** cell is where a scan of the given cells for the least arity stops. */
  ghost predicate LeastFree(nbs: Table, num: nat, board: seq<int>, cells: seq<nat>, cell: nat)
    requires ValidTable(nbs) && |board| == |nbs|
  {
    exists k :: 0 <= k < |cells| && cells[k] == cell && ScanStops(Counts(nbs, num, board, cells), k)
  }

  /** The kept arities are the scanned ones. */
  lemma CountsAre(nbs: Table, num: nat, board: seq<int>, occ: Marks, arity: seq<int>, spaces: seq<nat>, w: nat)
    requires ValidTable(nbs) && Cached(nbs, num, board, occ, arity) && Lists(board, spaces, w)
    ensures forall i :: 0 <= i < |spaces| - w ==>
      spaces[w..][i] < |arity| && arity[spaces[w..][i]] == Counts(nbs, num, board, spaces[w..])[i]
  {
    hide Held, ValidTable;
    forall i | 0 <= i < |spaces| - w
      ensures spaces[w..][i] < |arity| && arity[spaces[w..][i]] == Counts(nbs, num, board, spaces[w..])[i]
    {
      assert spaces[w..][i] == spaces[w + i];
      assert spaces[w..][i] in spaces[w..];
    }
  }

  lemma FreeMark(nbs: Table, num: nat, board: seq<int>, occ: Marks, arity: seq<int>, cell: nat, guess: nat)
    requires ValidTable(nbs) && Cached(nbs, num, board, occ, arity) && cell < |nbs| && board[cell] == 0 && 1 <= guess <= num
    requires !Held(nbs, board, cell, guess)
    ensures (cell, guess) !in occ && cell !in nbs[cell]
  {
  }

  lemma CachedMark(nbs: Table, num: nat, board: seq<int>, occ: Marks, arity: seq<int>, cell: nat, guess: nat)
    requires ValidTable(nbs) && Cached(nbs, num, board, occ, arity) && cell < |nbs| && board[cell] == 0 && 1 <= guess <= num
    ensures (cell, guess) in occ <==> Held(nbs, board, cell, guess)
  {
  }

  lemma NeighborsIn(nbs: Table, cell: nat)
    requires ValidTable(nbs) && cell < |nbs|
    ensures forall i :: 0 <= i < |nbs[cell]| ==> nbs[cell][i] < |nbs|
  {
  }

  /** Marking the cell itself first does not change which neighbours are newly marked. */
  lemma FreshMarks(ds: seq<nat>, list: seq<nat>, occ: Marks, cell: nat, guess: nat)
    requires NewlyMarked(ds, list, occ + {(cell, guess)}, guess) && cell !in list
    ensures NewlyMarked(ds, list, occ, guess)
  {
  }

  lemma MarkedCells(ds: seq<nat>, list: seq<nat>, occ: Marks, cell: nat, guess: nat, n: nat)
    requires NewlyMarked(ds, list, occ, guess) && cell !in list && forall i :: 0 <= i < |list| ==> list[i] < n
    ensures Distinct(ds) && (forall i :: 0 <= i < |ds| ==> ds[i] < n)
    ensures Pairs(ds, guess) <= occ + {(cell, guess)} + Pairs(list, guess) - {(cell, guess)}
  {
    assert forall i :: 0 <= i < |ds| ==> ds[i] in ds;
  }

  lemma ListsSize(board: seq<int>, spaces: seq<nat>, w: nat)
    requires Lists(board, spaces, w)
    ensures w <= |spaces|
  {
  }

  lemma NoneEmpty(board: seq<int>, spaces: seq<nat>, w: nat)
    requires Lists(board, spaces, w) && w >= |spaces|
    ensures forall c :: 0 <= c < |board| ==> board[c] != 0
  {
  }

  lemma EmptyCell(board: seq<int>, spaces: seq<nat>, w: nat)
    requires Lists(board, spaces, w) && w < |spaces|
    ensures spaces[w] < |board| && board[spaces[w]] == 0
  {
    assert spaces[w..][0] == spaces[w];
  }

  lemma PermutedLists1(board: seq<int>, before: seq<nat>, after: seq<nat>, w: nat)
    requires Lists(board, before, w) && w < |before| && TailPermuted(after, before, w + 1)
    ensures Lists(board, after, w) && after[w] == before[w]
  {
    hide Lists;
    PermutedSame(before, w);
    PermutedTrans(before, before, after, w, w + 1);
    PermutedLists(board, before, after, w);
    assert after[..w + 1][w] == before[..w + 1][w];
  }

  lemma NoneWithHeld(nbs: Table, num: nat, board: seq<int>, cell: nat, guess: int)
    requires ValidTable(nbs) && |board| == |nbs| && cell < |nbs| && board[cell] == 0 && guess != 0
    requires Held(nbs, board, cell, guess)
    ensures forall g :: Fits(nbs, num, g, board) && cell < |g| ==> g[cell] != guess
  {
    hide Held, Fits, ValidTable;
    forall g | Fits(nbs, num, g, board) && cell < |g|
      ensures g[cell] != guess
    {
      HeldIsOut(nbs, num, g, board, cell, guess);
    }
  }

  /** A cell for which every value is ruled out has no completion. */
  lemma NoneAtAll(nbs: Table, num: nat, board: seq<int>, cell: nat)
    requires ValidTable(nbs) && |board| == |nbs| && cell < |nbs|
    requires forall g :: Fits(nbs, num, g, board) && cell < |g| ==> !(1 <= g[cell] < num + 1)
    ensures !exists g :: Fits(nbs, num, g, board)
  {
  }

  /** The board with only its first k cells filled in. */
  ghost function UpTo(board: seq<int>, k: nat): (b: seq<int>)
    requires k <= |board|
    ensures |b| == |board| && forall c :: 0 <= c < |b| ==> b[c] == if c < k then board[c] else 0
  {
    board[..k] + seq(|board| - k, _ => 0)
  }

  lemma UpToStep(board: seq<int>, k: nat)
    requires k < |board|
    ensures UpTo(board, k + 1) == UpTo(board, k)[k := board[k]] && UpTo(board, k)[k] == 0
    ensures board[k] == 0 ==> UpTo(board, k + 1) == UpTo(board, k)
  {
  }

  lemma UpToAll(board: seq<int>)
    ensures UpTo(board, |board|) == board
  {
  }

  /** The marks other than those for the value 0. */
  ghost function Real(occ: Marks): (s: Marks) {
    set p | p in occ && p.1 != 0
  }

  lemma RealMark(occ: Marks, cell: nat)
    ensures Real(occ + {(cell, 0)}) == Real(occ)
  {
  }

  lemma {:induction false} AllFree(nbs: Table, board: seq<int>, c: nat, k: nat)
    requires ValidTable(nbs) && |board| == |nbs| && c < |nbs| && forall d :: 0 <= d < |nbs| ==> board[d] == 0
    ensures FreeCount(nbs, board, c, k) == k
  {
    if k == 0 {
    } else {
      AllFree(nbs, board, c, k - 1);
    }
  }

  lemma NothingCached(nbs: Table, num: nat, board: seq<int>, arity: seq<int>)
    requires ValidTable(nbs) && |board| == |nbs| == |arity| && forall c :: 0 <= c < |arity| ==> arity[c] == num
    ensures Cached(nbs, num, UpTo(board, 0), Real({}), arity)
  {
    forall c | 0 <= c < |nbs|
      ensures FreeCount(nbs, UpTo(board, 0), c, num) == num
    {
      AllFree(nbs, UpTo(board, 0), c, num);
    }
  }

  /** A given counts like a placed value, even one that is already marked. */
  lemma HoldGiven(nbs: Table, num: nat, board: seq<int>, occ: Marks, arity: seq<int>, cell: nat, val: nat,
                  ds: seq<nat>, occ': Marks, arity': seq<int>)
    requires ValidTable(nbs) && Cached(nbs, num, board, Real(occ), arity) && cell < |nbs| && board[cell] == 0 && 1 <= val <= num
    requires NewlyMarked(ds, nbs[cell], occ + {(cell, val)}, val) && Shifted(arity', arity, ds, -1)
    requires occ' == occ + {(cell, val)} + Pairs(nbs[cell], val)
    ensures Cached(nbs, num, board[cell := val], Real(occ'), arity')
  {
    hide Cached, Shifted;
    assert cell !in nbs[cell];
    FreshMarks(ds, nbs[cell], occ, cell, val);
    assert NewlyMarked(ds, nbs[cell], Real(occ), val);
    assert Real(occ') == Real(occ) + {(cell, val)} + Pairs(nbs[cell], val);
    HoldCached(nbs, num, board, Real(occ), arity, cell, val, ds, Real(occ'), arity');
  }

  lemma RealCached(nbs: Table, num: nat, board: seq<int>, occ: Marks, arity: seq<int>)
    requires ValidTable(nbs)
    ensures Cached(nbs, num, board, Real(occ), arity) <==> Cached(nbs, num, board, occ, arity)
  {
    hide Held;
  }

  class Solver {
    const nbs: Table
    const num: nat
    const board: array<int>
    const occupied: array2<bool>
    const arity: array<int>
    const spaces: array<nat>
    var nspaces: nat

    ghost predicate Shape()
      reads this
    {
      && ValidTable(nbs) && board != arity
      && board.Length == arity.Length == spaces.Length == occupied.Length0 == |nbs| && occupied.Length1 == num + 1
      && nspaces <= spaces.Length
    }

    ghost function Occ(): (s: Marks)
      reads occupied
    {
      set c: nat, v: nat | 0 <= c < occupied.Length0 && 0 <= v < occupied.Length1 && occupied[c, v] :: (c, v)
    }

    ghost predicate Ready()
      requires Shape()
      reads this, board, occupied, arity
    {
      IsBoard(nbs, num, board[..]) && Cached(nbs, num, board[..], Occ(), arity[..])
    }

    /** Marks v as taken for the cells of list and reports those for which that was new. */
    method Mark(list: seq<nat>, v: nat) returns (modified: seq<nat>)
      requires Shape() && 1 <= v <= num && forall i :: 0 <= i < |list| ==> list[i] < |nbs|
      modifies occupied, arity
      ensures Occ() == old(Occ()) + Pairs(list, v)
      ensures NewlyMarked(modified, list, old(Occ()), v) && Shifted(arity[..], old(arity[..]), modified, -1)
    {
      modified := [];
      for n := 0 to |list|
        invariant Occ() == old(Occ()) + Pairs(list[..n], v)
        invariant NewlyMarked(modified, list[..n], old(Occ()), v) && Shifted(arity[..], old(arity[..]), modified, -1)
      {
        var neighbor := list[n];
        assert list[..n + 1] == list[..n] + [neighbor];
        assert (neighbor, v) in Occ() <==> occupied[neighbor, v];
        if !occupied[neighbor, v] {
          SetMark(neighbor, v, true);
          arity[neighbor] := arity[neighbor] - 1;
          modified := modified + [neighbor];
        }
      }
      assert list[..|list|] == list;
    }

    method SetMark(c: nat, v: nat, b: bool)
      requires c < occupied.Length0 && v < occupied.Length1
      modifies occupied
      ensures Occ() == if b then old(Occ()) + {(c, v)} else old(Occ()) - {(c, v)}
    {
      occupied[c, v] := b;
    }

    method Unmark(modified: seq<nat>, v: nat)
      requires Shape() && 1 <= v <= num && Distinct(modified) && forall i :: 0 <= i < |modified| ==> modified[i] < |nbs|
      requires Pairs(modified, v) <= Occ()
      modifies occupied, arity
      ensures Occ() == old(Occ()) - Pairs(modified, v) && Shifted(arity[..], old(arity[..]), modified, 1)
    {
      for i := 0 to |modified|
        invariant Occ() == old(Occ()) - Pairs(modified[..i], v) && Shifted(arity[..], old(arity[..]), modified[..i], 1)
      {
        var neighbor := modified[i];
        assert modified[..i + 1] == modified[..i] + [neighbor];
        assert neighbor in modified && neighbor !in modified[..i];
        assert (neighbor, v) in Occ() <==> occupied[neighbor, v];
        assert occupied[neighbor, v];
        SetMark(neighbor, v, false);
        arity[neighbor] := arity[neighbor] + 1;
      }
      assert modified[..|modified|] == modified;
    }

    // ---------------------------------------------------------------- setting up

    constructor (nbs: Table, num: nat, input: seq<int>)
      requires ValidTable(nbs) && IsBoard(nbs, num, input)
      ensures Shape() && Ready() && board[..] == input && Lists(input, spaces[..nspaces], 0)
      ensures this.nbs == nbs && this.num == num
      ensures fresh(board) && fresh(occupied) && fresh(arity) && fresh(spaces)
    {
      this.nbs := nbs;
      this.num := num;
      board := new int[|nbs|](i requires 0 <= i < |input| => input[i]);
      occupied := new bool[|nbs|, num + 1]((_, _) => false);
      arity := new int[|nbs|](_ => num);
      spaces := new nat[|nbs|](_ => 0);
      nspaces := 0;
      new;
      hide ValidTable, Cached, Lists;
      assert board[..] == input;
      FindSpaces();
      InitCache();
    }

    method FindSpaces()
      requires Shape()
      modifies spaces, this`nspaces
      ensures Shape() && Lists(board[..], spaces[..nspaces], 0)
    {
      hide ValidTable;
      nspaces := 0;
      for cell := 0 to board.Length
        invariant Shape() && nspaces <= cell && Distinct(spaces[..nspaces])
        invariant forall c :: c in spaces[..nspaces] <==> 0 <= c < cell && board[c] == 0
      {
        if board[cell] == 0 {
          ghost var before := spaces[..nspaces];
          assert cell !in before;
          spaces[nspaces] := cell;
          nspaces := nspaces + 1;
          assert spaces[..nspaces] == before + [cell];
          DistinctConcat(before, [cell]);
        }
      }
      assert spaces[..nspaces][0..] == spaces[..nspaces];
      assert forall i :: 0 <= i < nspaces ==> spaces[..nspaces][i] in spaces[..nspaces];
    }

    /** No value marked anywhere, every value free. */
    method ClearCache()
      requires Shape()
      modifies occupied, arity
      ensures Occ() == {} && forall c :: 0 <= c < arity.Length ==> arity[c] == num
    {
      hide ValidTable;
      forall c, v | 0 <= c < occupied.Length0 && 0 <= v < occupied.Length1 {
        occupied[c, v] := false;
      }
      forall c | 0 <= c < arity.Length {
        arity[c] := num;
      }
    }

    /** Clears the cache, whatever it held, and counts in the givens one after the other. */
    method InitCache()
      requires Shape() && IsBoard(nbs, num, board[..])
      modifies occupied, arity
      ensures Ready()
    {
      hide ValidTable, Cached, NewlyMarked, Shifted, FreeCount;
      ghost var b := board[..];
      ClearCache();
      NothingCached(nbs, num, b, arity[..]);
      for cell := 0 to board.Length
        invariant board[..] == b && Cached(nbs, num, UpTo(b, cell), Real(Occ()), arity[..])
      {
        RealMark(Occ(), cell);
        SetMark(cell, 0, true);
        var val := board[cell];
        UpToStep(b, cell);
        if val > 0 {
          ghost var o0, a0 := Occ(), arity[..];
          SetMark(cell, val, true);
          NeighborsIn(nbs, cell);
          var modified := Mark(nbs[cell], val);
          HoldGiven(nbs, num, UpTo(b, cell), o0, a0, cell, val, modified, Occ(), arity[..]);
        }
      }
      UpToAll(b);
      RealCached(nbs, num, b, Occ(), arity[..]);
    }

    // ---------------------------------------------------------------- the search

    /** Brings the first cell of least arity to the front of the tail; the scan stops at an arity of at most 1. */
    method FindMinArity(space: nat)
      requires Shape() && Ready() && Lists(board[..], spaces[..nspaces], space) && space < nspaces
      modifies spaces
      ensures TailPermuted(spaces[..nspaces], old(spaces[..nspaces]), space)
      ensures spaces[nspaces..] == old(spaces[nspaces..])
      ensures LeastFree(nbs, num, board[..], old(spaces[space..nspaces]), spaces[space])
    {
      hide Cached, Lists, FreeCount;
      ghost var tail := spaces[space..nspaces];
      ghost var ss := Counts(nbs, num, board[..], tail);
      assert tail == spaces[..nspaces][space..];
      CountsAre(nbs, num, board[..], Occ(), arity[..], spaces[..nspaces], space);
      var cell := spaces[space];
      var minSpace := space;
      var minArity := arity[cell];
      assert cell == tail[0];
      var sp := space + 1;
      while sp < nspaces && minArity > 1
        invariant space < sp <= nspaces && space <= minSpace < sp
        invariant minArity == ss[minSpace - space] && FirstLeast(ss, sp - space, minSpace - space)
        invariant minArity > 1 || sp == minSpace + 1
      {
        assert spaces[sp] == tail[sp - space];
        var curArity := arity[spaces[sp]];
        if curArity < minArity {
          minArity := curArity;
          minSpace := sp;
        }
        sp := sp + 1;
      }
      assert ScanStops(ss, minSpace - space);
      assert spaces[minSpace] == tail[minSpace - space];
      SwapPermutes(spaces[..nspaces], space, minSpace);
      if space != minSpace {
        spaces[minSpace], spaces[space] := spaces[space], spaces[minSpace];
      }
      assert spaces[..nspaces] == old(spaces[..nspaces])[space := old(spaces[minSpace])][minSpace := old(spaces[space])];
    }

    /** Whether the tables and the board are as they were, and spaces only changed its order from w on. */
    twostate predicate Restored(w: nat)
      requires old(Shape()) && Shape()
      reads this, board, occupied, arity, spaces
    {
      && board[..] == old(board[..]) && Occ() == old(Occ()) && arity[..] == old(arity[..]) && nspaces == old(nspaces)
      && TailPermuted(spaces[..nspaces], old(spaces[..nspaces]), w) && spaces[nspaces..] == old(spaces[nspaces..])
    }

    /** Tries one value in the cell at position w: hold, search on, and undo everything if that fails. */
    method TryGuess(w: nat, guess: nat) returns (found: bool)
      requires Shape() && Ready() && w < nspaces && Lists(board[..], spaces[..nspaces], w)
      requires 1 <= guess <= num && spaces[w] < |nbs| && !Held(nbs, board[..], spaces[w], guess)
      modifies board, occupied, arity, spaces
      ensures found ==> Fits(nbs, num, board[..], old(board[..]))
      ensures !found ==> Restored(w + 1)
      ensures !found ==> forall g :: Fits(nbs, num, g, old(board[..])) && old(spaces[w]) < |g| ==> g[old(spaces[w])] != guess
      decreases nspaces - w, 0
    {
      hide Cached, Lists, Fits, Held, NewlyMarked, Shifted, TailPermuted, ValidTable;
      var cell := spaces[w];
      ghost var b0, o0, a0, s0 := board[..], Occ(), arity[..], spaces[..nspaces];
      assert s0[w] == cell;
      FillNext(b0, s0, w, guess);
      FreeMark(nbs, num, b0, o0, a0, cell, guess);
      assert board[cell] == 0;
      board[cell] := guess;
      SetMark(cell, guess, true);
      NeighborsIn(nbs, cell);
      var modified := Mark(nbs[cell], guess);
      FreshMarks(modified, nbs[cell], o0, cell, guess);
      HoldCached(nbs, num, b0, o0, a0, cell, guess, modified, Occ(), arity[..]);
      ghost var a1 := arity[..];
      assert board[..] == b0[cell := guess];
      forall g
        ensures Fits(nbs, num, g, b0) && cell < |g| && g[cell] == guess ==> Fits(nbs, num, g, b0[cell := guess])
        ensures Fits(nbs, num, g, b0[cell := guess]) ==> Fits(nbs, num, g, b0)
      {
        PlaceFree(nbs, num, g, b0, cell, guess);
      }
      found := Solve(w + 1);
      if !found {
        SetMark(cell, guess, false);
        assert board[cell] == guess;
        board[cell] := 0;
        UndoMarks(o0, cell, guess, nbs[cell], modified);
        MarkedCells(modified, nbs[cell], o0, cell, guess, |nbs|);
        Unmark(modified, guess);
        UndoArity(a0, a1, arity[..], modified);
        assert board[..] == b0;
      }
    }

    /** Fills all cells from position w on, or shows that it cannot be done and leaves everything as it was. */
    method Solve(w: nat) returns (found: bool)
      requires Shape() && Ready() && Lists(board[..], spaces[..nspaces], w)
      modifies board, occupied, arity, spaces
      ensures found ==> Fits(nbs, num, board[..], old(board[..]))
      ensures !found ==> Restored(w)
      ensures !found ==> !exists g :: Fits(nbs, num, g, old(board[..]))
      decreases nspaces - w, 1
    {
      hide Cached, Lists, Fits, Held, TailPermuted, LeastFree, ValidTable;
      ListsSize(board[..], spaces[..nspaces], w);
      if w >= nspaces {
        NoneEmpty(board[..], spaces[..nspaces], w);
        FullFits(nbs, num, board[..]);
        return true;
      }
      ghost var b0, o0, a0, s0 := board[..], Occ(), arity[..], spaces[..nspaces];
      FindMinArity(w);
      PermutedLists(b0, s0, spaces[..nspaces], w);
      var cell := spaces[w];
      ghost var s1 := spaces[..nspaces];
      assert s1[w] == cell;
      PermutedSame(s1, w + 1);
      EmptyCell(b0, s1, w);
      for guess := 1 to num + 1
        invariant board[..] == b0 && Occ() == o0 && arity[..] == a0
        invariant TailPermuted(spaces[..nspaces], s1, w + 1) && spaces[nspaces..] == old(spaces[nspaces..])
        invariant forall g :: Fits(nbs, num, g, b0) && cell < |g| ==> !(1 <= g[cell] < guess)
      {
        ghost var s2 := spaces[..nspaces];
        PermutedLists1(b0, s1, s2, w);
        assert spaces[w] == spaces[..nspaces][w] == cell;
        assert (cell, guess) in Occ() <==> occupied[cell, guess];
        CachedMark(nbs, num, b0, o0, a0, cell, guess);
        if !occupied[cell, guess] {
          found := TryGuess(w, guess);
          if found {
            return;
          }
          PermutedTrans(s1, s2, spaces[..nspaces], w + 1, w + 1);
        } else {
          NoneWithHeld(nbs, num, b0, cell, guess);
        }
      }
      NoneAtAll(nbs, num, b0, cell);
      PermutedTrans(s0, s1, spaces[..nspaces], w, w + 1);
      found := false;
    }
  }

  // ---------------------------------------------------------------- the scans of the simpler solvers

  /** available: no neighbour holds the guess. */
  method Available(nbs: Table, board: seq<int>, guess: int, cell: nat) returns (ok: bool)
    requires ValidTable(nbs) && |board| == |nbs| && cell < |nbs|
    ensures ok <==> !Held(nbs, board, cell, guess)
  {
    for i := 0 to |nbs[cell]|
      invariant forall j :: 0 <= j < i ==> board[nbs[cell][j]] != guess
    {
      if board[nbs[cell][i]] == guess {
        return false;
      }
    }
    return true;
  }

  /** arity: how many values no neighbour holds. */
  method Arity(nbs: Table, num: nat, board: seq<int>, cell: nat) returns (count: nat)
    requires ValidTable(nbs) && IsBoard(nbs, num, board) && cell < |nbs|
    ensures count == FreeCount(nbs, board, cell, num)
  {
    var occupied := new bool[num + 1](_ => false);
    for i := 0 to |nbs[cell]|
      invariant forall v :: 0 <= v <= num ==> (occupied[v] <==> exists j :: 0 <= j < i && board[nbs[cell][j]] == v)
    {
      occupied[board[nbs[cell][i]]] := true;
    }
    count := 0;
    for v := 1 to num + 1
      invariant count == FreeCount(nbs, board, cell, v - 1)
    {
      assert occupied[v] <==> Held(nbs, board, cell, v);
      if !occupied[v] {
        count := count + 1;
      }
    }
  }

  /** The cached solver decides whether the empty cells can be filled. */
  method SolveCached(nbs: Table, num: nat, input: seq<int>) returns (found: bool, g: seq<int>)
    requires ValidTable(nbs) && IsBoard(nbs, num, input)
    ensures found <==> exists h :: Fits(nbs, num, h, input)
    ensures found ==> Fits(nbs, num, g, input)
  {
    hide ValidTable, Cached, Lists, Fits;
    var s := new Solver(nbs, num, input);
    found := s.Solve(0);
    g := s.board[..];
  }
}

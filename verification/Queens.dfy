/** The N-queens problem, without reference to any solver. */
module Queens {

  ghost predicate IsWord(n: nat, k: nat, w: seq<nat>) {
    |w| == k && forall i :: 0 <= i < k ==> w[i] < n
  }

  /** All words of length k over the letters 0..n-1. */
  ghost function Words(n: nat, k: nat): (ws: set<seq<nat>>) {
    if k == 0 then {[]} else set w, a | w in Words(n, k - 1) && 0 <= a < n :: w + [a]
  }

  lemma {:induction false} InWords(n: nat, k: nat, w: seq<nat>)
    ensures w in Words(n, k) <==> IsWord(n, k, w)
  {
    if k == 0 {
    } else {
      if w in Words(n, k) {
        var v, a :| v in Words(n, k - 1) && 0 <= a < n && w == v + [a];
        InWords(n, k - 1, v);
      }
      if IsWord(n, k, w) {
        InWords(n, k - 1, w[..k - 1]);
        assert w == w[..k - 1] + [w[k - 1]];
      }
    }
  }

  /** No two queens share a column or a diagonal; the queen of row i stands in column q[i]. */
  ghost predicate Safe(q: seq<nat>) {
    forall i, j :: 0 <= i < j < |q| ==> q[i] != q[j] && q[i] + i != q[j] + j && q[i] - i != q[j] - j
  }

  ghost predicate IsSolution(n: nat, q: seq<nat>) {
    IsWord(n, n, q) && Safe(q)
  }

  ghost function Solutions(n: nat): (qs: set<seq<nat>>)
    ensures forall q :: q in qs <==> IsSolution(n, q)
  {
    assert forall q :: q in Words(n, n) <==> IsWord(n, n, q) by {
      forall q
        ensures q in Words(n, n) <==> IsWord(n, n, q)
      {
        InWords(n, n, q);
      }
    }
    set q | q in Words(n, n) && Safe(q)
  }

  /** The solutions that start with p. */
  ghost function Completions(n: nat, p: seq<nat>): (qs: set<seq<nat>>) {
    set q | q in Solutions(n) && p <= q
  }

  /** Extending p by one queen can be done in n ways, and they exclude each other. */
  ghost function CompletionsBelow(n: nat, p: seq<nat>, i: nat): (qs: set<seq<nat>>) {
    set q | q in Completions(n, p) && |p| < |q| && q[|p|] < i
  }

  lemma PrefixStep(p: seq<nat>, i: nat, q: seq<nat>)
    ensures p + [i] <= q <==> p <= q && |p| < |q| && q[|p|] == i
  {
    if p <= q && |p| < |q| && q[|p|] == i {
      assert q[..|p| + 1] == q[..|p|] + [i];
    }
    if p + [i] <= q {
      assert (p + [i])[..|p|] == p;
    }
  }

  lemma CompletionsStep(n: nat, p: seq<nat>, i: nat)
    requires |p| < n && i < n
    ensures |CompletionsBelow(n, p, i + 1)| == |CompletionsBelow(n, p, i)| + |Completions(n, p + [i])|
  {
    hide Solutions;
    var a, b := CompletionsBelow(n, p, i), Completions(n, p + [i]);
    forall q | q in Solutions(n)
      ensures q in b <==> p <= q && |p| < |q| && q[|p|] == i
    {
      PrefixStep(p, i, q);
    }
    assert CompletionsBelow(n, p, i + 1) == a + b;
    assert a !! b;
  }

  lemma CompletionsAll(n: nat, p: seq<nat>)
    requires |p| < n
    ensures CompletionsBelow(n, p, 0) == {} && CompletionsBelow(n, p, n) == Completions(n, p)
    ensures Completions(n, []) == Solutions(n)
  {
  }

  /** A queen that is attacked rules out every completion. */
  lemma NoCompletions(n: nat, p: seq<nat>)
    requires !Safe(p)
    ensures Completions(n, p) == {}
  {
    forall q | q in Completions(n, p)
      ensures false
    {
      assert forall i :: 0 <= i < |p| ==> p[i] == q[i];
    }
  }

  /** A full safe board is its own only completion. */
  lemma FullBoard(n: nat, p: seq<nat>)
    requires IsSolution(n, p)
    ensures Completions(n, p) == {p}
  {
    forall q | q in Completions(n, p)
      ensures q == p
    {
      assert q[..n] == q;
    }
  }
}

/** Sequences without repetition, filtering, and doubly linked chains over index arrays.

A chain is a sequence of node numbers that the `next` and `prev` links follow in both
directions. A circular list headed by `h` is the chain that starts and ends with `h`. */
module Chains {

  ghost predicate Distinct<T>(s: seq<T>) {
    forall i, j :: 0 <= i < j < |s| ==> s[i] != s[j]
  }

  /** Position k is the first of the least among the first n numbers. */
  ghost predicate FirstLeast(ss: seq<int>, n: nat, k: nat) {
    && k < n <= |ss|
    && (forall h :: 0 <= h < k ==> ss[k] < ss[h])
    && (forall h :: k < h < n ==> ss[k] <= ss[h])
  }

  /** Where a scan for the least number stops that gives up as soon as it sees one that is at most 1. */
  ghost predicate ScanStops(ss: seq<int>, k: nat) {
    FirstLeast(ss, |ss|, k) || (FirstLeast(ss, k + 1, k) && ss[k] <= 1)
  }

  lemma DistinctConcat<T>(a: seq<T>, b: seq<T>)
    requires Distinct(a) && Distinct(b) && (forall x :: x in a ==> x !in b)
    ensures Distinct(a + b)
  {
    assert forall i :: 0 <= i < |a| ==> a[i] in a;
    assert forall j :: 0 <= j < |b| ==> b[j] in b;
  }

  /** The elements of s that lie in keep, in order. */
  ghost function Keep(s: seq<nat>, keep: set<nat>): (r: seq<nat>)
    ensures forall x :: x in r <==> x in s && x in keep
    ensures |r| <= |s|
  {
    if s == [] then []
    else
      var front := Keep(s[..|s| - 1], keep);
      assert s == s[..|s| - 1] + [s[|s| - 1]];
      if s[|s| - 1] in keep then front + [s[|s| - 1]] else front
  }

  lemma {:induction false} KeepDistinct(s: seq<nat>, keep: set<nat>)
    requires Distinct(s)
    ensures Distinct(Keep(s, keep))
  {
    if s == [] {
    } else {
      KeepDistinct(s[..|s| - 1], keep);
      assert s[|s| - 1] !in s[..|s| - 1];
    }
  }

  /** Only membership of the elements of s matters. */
  lemma {:induction false} KeepCong(s: seq<nat>, keep: set<nat>, keep': set<nat>)
    requires forall i :: 0 <= i < |s| ==> (s[i] in keep <==> s[i] in keep')
    ensures Keep(s, keep) == Keep(s, keep')
  {
    if s == [] {
    } else {
      KeepCong(s[..|s| - 1], keep, keep');
    }
  }

  lemma {:induction false} KeepAll(s: seq<nat>, keep: set<nat>)
    requires forall i :: 0 <= i < |s| ==> s[i] in keep
    ensures Keep(s, keep) == s
  {
    if s == [] {
    } else {
      KeepAll(s[..|s| - 1], keep);
      assert s == s[..|s| - 1] + [s[|s| - 1]];
    }
  }

  /** Dropping one kept element removes exactly its position. */
  lemma {:induction false} KeepRemove(s: seq<nat>, keep: set<nat>, x: nat) returns (k: nat)
    requires Distinct(s) && x in s && x in keep
    ensures k < |Keep(s, keep)| && Keep(s, keep)[k] == x
    ensures Keep(s, keep - {x}) == Keep(s, keep)[..k] + Keep(s, keep)[k + 1..]
  {
    hide Keep;
    var front, last := s[..|s| - 1], s[|s| - 1];
    KeepLast(s, keep);
    KeepLast(s, keep - {x});
    if last == x {
      k := |Keep(front, keep)|;
      KeepCong(front, keep, keep - {x});
    } else {
      assert s == front + [last];
      k := KeepRemove(front, keep, x);
    }
  }

  lemma KeepLast(s: seq<nat>, keep: set<nat>)
    requires s != []
    ensures Keep(s, keep) == Keep(s[..|s| - 1], keep) + (if s[|s| - 1] in keep then [s[|s| - 1]] else [])
  {
  }

  // ---------------------------------------------------------------- chains

  ghost predicate Chain(next: seq<nat>, prev: seq<nat>, t: seq<nat>) {
    && |next| == |prev|
    && (forall i :: 0 <= i < |t| ==> t[i] < |next|)
    && (forall i {:trigger next[t[i]]} :: 0 <= i < |t| - 1 ==> next[t[i]] == t[i + 1])
    && (forall i {:trigger prev[t[i]]} :: 0 < i < |t| ==> prev[t[i]] == t[i - 1])
  }

  /** The circular list headed by h, opened at h. */
  ghost function Wrap(h: nat, s: seq<nat>): (t: seq<nat>)
    ensures |t| == |s| + 2 && t[0] == h && t[|t| - 1] == h
  {
    [h] + s + [h]
  }

  lemma InWrap(h: nat, s: seq<nat>, x: nat)
    ensures x in Wrap(h, s) <==> x == h || x in s
  {
  }

  /** Both neighbours of an element of a circular list are on the list and point back at it. */
  lemma ChainNeighbours(next: seq<nat>, prev: seq<nat>, h: nat, s: seq<nat>, k: nat)
    requires Chain(next, prev, Wrap(h, s)) && k < |s|
    ensures var x := s[k];
      && x < |next| && next[x] < |next| && prev[x] < |next|
      && prev[next[x]] == x && next[prev[x]] == x
      && (next[x] == h || next[x] in s) && (prev[x] == h || prev[x] in s)
    ensures Distinct([h] + s) ==> next[s[k]] != s[k]
  {
    var t := Wrap(h, s);
    assert t[k + 1] == s[k];
    assert next[t[k + 1]] == t[k + 2] && prev[t[k + 1]] == t[k];
    assert prev[t[k + 2]] == t[k + 1] && next[t[k]] == t[k + 1];
    assert t[k] == ([h] + s)[k];
    assert k + 1 < |s| ==> t[k + 2] == ([h] + s)[k + 2];
  }

  /** Unlinking the element at position k of a circular list. */
  lemma ChainRemove(next: seq<nat>, prev: seq<nat>, h: nat, s: seq<nat>, k: nat)
    requires Chain(next, prev, Wrap(h, s)) && k < |s| && Distinct([h] + s)
    ensures s[k] < |next| && next[s[k]] == Wrap(h, s)[k + 2] && prev[s[k]] == Wrap(h, s)[k]
    ensures Chain(next[prev[s[k]] := next[s[k]]], prev[next[s[k]] := prev[s[k]]], Wrap(h, s[..k] + s[k + 1..]))
  {
    var t, u := Wrap(h, s), Wrap(h, s[..k] + s[k + 1..]);
    assert t[k + 1] == s[k] && next[t[k + 1]] == t[k + 2] && prev[t[k + 1]] == t[k];
    assert forall i :: 0 <= i < |s| + 1 ==> t[i] == ([h] + s)[i];
    assert forall i :: 0 <= i <= k ==> u[i] == t[i];
    assert forall i :: k < i < |u| ==> u[i] == t[i + 1];
    var next', prev' := next[prev[s[k]] := next[s[k]]], prev[next[s[k]] := prev[s[k]]];
    forall i | 0 <= i < |u| - 1
      ensures next'[u[i]] == u[i + 1]
    {
      if i < k {
        assert next[t[i]] == t[i + 1];
      } else if k < i {
        assert next[t[i + 1]] == t[i + 2];
      }
    }
    forall i | 0 < i < |u|
      ensures prev'[u[i]] == u[i - 1]
    {
      if i <= k {
        assert prev[t[i]] == t[i - 1];
      } else if k + 1 < i {
        assert prev[t[i + 1]] == t[i];
      }
    }
  }

  /** Writing links of nodes that are not on the chain leaves it a chain. */
  lemma ChainFrame(next: seq<nat>, prev: seq<nat>, t: seq<nat>, a: nat, a': nat, b: nat, b': nat)
    requires Chain(next, prev, t)
    requires a < |next| && a !in t && b < |prev| && b !in t
    ensures Chain(next[a := a'], prev[b := b'], t)
  {
    assert forall i :: 0 <= i < |t| ==> t[i] in t;
  }

  lemma ChainSame(next: seq<nat>, prev: seq<nat>, next': seq<nat>, prev': seq<nat>, t: seq<nat>)
    requires Chain(next, prev, t) && |next'| == |prev'| == |next|
    requires forall i :: 0 <= i < |t| ==> next'[t[i]] == next[t[i]] && prev'[t[i]] == prev[t[i]]
    ensures Chain(next', prev', t)
  {
  }

  /** A circular list may be opened at any of its elements. */
  lemma ChainRotate(next: seq<nat>, prev: seq<nat>, s: seq<nat>, p: nat)
    requires p < |s| && Chain(next, prev, Wrap(s[0], s[1..]))
    ensures Chain(next, prev, Wrap(s[p], s[p + 1..] + s[..p]))
  {
    var t, u := Wrap(s[0], s[1..]), Wrap(s[p], s[p + 1..] + s[..p]);
    assert t == s + [s[0]];
    assert u == t[p..] + t[1..p + 1];
    hide Wrap;
    forall i | 0 <= i < |u| - 1
      ensures next[u[i]] == u[i + 1]
    {
      RotatedAt(t, u, p, i);
      RotatedAt(t, u, p, i + 1);
      if i < |t| - p - 1 {
        assert next[t[p + i]] == t[p + i + 1];
      } else if i == |t| - p - 1 {
        assert next[t[0]] == t[1];
      } else {
        assert next[t[i - (|t| - p) + 1]] == t[i - (|t| - p) + 2];
      }
    }
    forall i | 0 < i < |u|
      ensures prev[u[i]] == u[i - 1]
    {
      RotatedAt(t, u, p, i);
      RotatedAt(t, u, p, i - 1);
      if i < |t| - p {
        assert prev[t[p + i]] == t[p + i - 1];
      } else if i == |t| - p {
        assert prev[t[1]] == t[0];
      } else {
        assert prev[t[i - (|t| - p) + 1]] == t[i - (|t| - p)];
      }
    }
    forall i | 0 <= i < |u|
      ensures u[i] < |next|
    {
      RotatedAt(t, u, p, i);
    }
  }

  /** Where an element of a rotated chain comes from. */
  lemma RotatedAt(t: seq<nat>, u: seq<nat>, p: nat, i: nat)
    requires p < |t| - 1 && u == t[p..] + t[1..p + 1] && i < |u|
    ensures u[i] == if i < |t| - p then t[p + i] else t[i - (|t| - p) + 1]
  {
  }

  /** Linking a fresh node x in before the head of a circular list. */
  lemma ChainAppend(next: seq<nat>, prev: seq<nat>, h: nat, s: seq<nat>, x: nat)
    requires Chain(next, prev, Wrap(h, s)) && Distinct([h] + s) && x !in s && x != h && x < |next|
    ensures prev[h] == Wrap(h, s)[|s|]
    ensures Chain(next[x := h][prev[h] := x], prev[x := prev[h]][h := x], Wrap(h, s + [x]))
  {
    var t, u := Wrap(h, s), Wrap(h, s + [x]);
    assert forall i :: 0 <= i <= |s| ==> u[i] == t[i];
    assert forall i :: 0 <= i < |s| + 1 ==> t[i] == ([h] + s)[i];
    assert u[|s| + 1] == x;
    assert prev[t[|s| + 1]] == t[|s|];
    var next', prev' := next[x := h][prev[h] := x], prev[x := prev[h]][h := x];
    forall i | 0 <= i < |u| - 1
      ensures next'[u[i]] == u[i + 1]
    {
      if i < |s| {
        assert next[t[i]] == t[i + 1];
      }
    }
    forall i | 0 < i < |u|
      ensures prev'[u[i]] == u[i - 1]
    {
      if i <= |s| {
        assert prev[t[i]] == t[i - 1];
      }
    }
  }
}

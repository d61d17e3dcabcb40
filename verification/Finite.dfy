/** Sizes of finite sets: one-to-one matchings and the pigeonhole principle. */
module Finite {
  import opened Chains

  lemma SubsetSize<T>(a: set<T>, b: set<T>)
    requires a <= b
    ensures |a| <= |b| && (|a| == |b| ==> a == b)
  {
    assert b == a + (b - a);
  }

  /** Two finite sets matched one to one have the same size. */
  lemma {:induction false} SameSize<A, B>(dom: set<A>, img: set<B>, f: map<A, B>)
    requires f.Keys == dom && (forall a :: a in dom ==> f[a] in img)
    requires forall a, a' :: a in dom && a' in dom && f[a] == f[a'] ==> a == a'
    requires forall b :: b in img ==> exists a :: a in dom && f[a] == b
    ensures |dom| == |img|
  {
    if dom != {} {
      var a :| a in dom;
      var dom', img', f' := dom - {a}, img - {f[a]}, f - {a};
      forall b | b in img'
        ensures exists a' :: a' in dom' && f'[a'] == b
      {
        var a' :| a' in dom && f[a'] == b;
        assert a' in dom' && f'[a'] == b;
      }
      SameSize(dom', img', f');
    }
  }

  /** The n integers from lo on. */
  ghost function Interval(lo: int, n: nat): (s: set<int>)
    ensures |s| == n && forall v :: v in s <==> lo <= v < lo + n
  {
    if n == 0 then {} else Interval(lo, n - 1) + {lo + n - 1}
  }

  ghost function Elements(s: seq<int>): (e: set<int>)
    ensures forall v :: v in e <==> v in s
    ensures |e| <= |s|
  {
    if s == [] then {}
    else
      assert s == s[..|s| - 1] + [s[|s| - 1]];
      Elements(s[..|s| - 1]) + {s[|s| - 1]}
  }

  lemma {:induction false} DistinctSize(s: seq<int>)
    requires Distinct(s)
    ensures |Elements(s)| == |s|
  {
    if s == [] {
    } else {
      DistinctSize(s[..|s| - 1]);
      assert s[|s| - 1] !in s[..|s| - 1];
    }
  }

  /** n places that hold all of n values hold each of them once. */
  lemma OntoIsDistinct(s: seq<int>, lo: int)
    requires forall v :: lo <= v < lo + |s| ==> v in s
    ensures Distinct(s)
  {
    forall i, j | 0 <= i < j < |s|
      ensures s[i] != s[j]
    {
      if s[i] == s[j] {
        Redundant(s, lo, i, j);
        assert false;
      }
    }
  }

  lemma Redundant(s: seq<int>, lo: int, i: nat, j: nat)
    requires i < j < |s| && s[i] == s[j]
    ensures exists v :: lo <= v < lo + |s| && v !in s
  {
    var rest, all := s[..j] + s[j + 1..], Interval(lo, |s|);
    if forall v :: v in all ==> v in s {
      forall v | v in all
        ensures v in rest
      {
        assert v in s;
        var h :| 0 <= h < |s| && s[h] == v;
        assert v == if h < j then rest[h] else if h == j then rest[i] else rest[h - 1];
      }
      assert all <= Elements(rest);
      SubsetSize(all, Elements(rest));
      assert false;
    }
  }

  /** n different values out of n are all of them. */
  lemma DistinctIsOnto(s: seq<int>, lo: int, v: int)
    requires Distinct(s) && (forall i :: 0 <= i < |s| ==> lo <= s[i] < lo + |s|) && lo <= v < lo + |s|
    ensures v in s
  {
    DistinctSize(s);
    assert Elements(s) <= Interval(lo, |s|);
    SubsetSize(Elements(s), Interval(lo, |s|));
  }
}

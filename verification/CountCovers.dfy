/** How many exact covers there are, and how they split over the rows of a column. */
module CountCovers {
  import opened Chains
  import opened Finite
  import opened LinkMatrix
  import opened ExactCover

  /** All exact covers of what is left after covering the columns ks. */
  ghost function Covers(m: Matrix, ks: seq<nat>): (s: set<set<nat>>)
    ensures forall rs :: rs in s <==> IsCover(m, ks, rs)
  {
    set rs | rs <= m.rows.Keys && IsCover(m, ks, rs)
  }

  /** The covers that contain x's row. */
  ghost function CoversWith(m: Matrix, ks: seq<nat>, x: nat): (s: set<set<nat>>)
    requires x in m.rowOf
  {
    set rs | rs in Covers(m, ks) && m.rowOf[x] in rs
  }

  /** They are the covers of what is left after choosing that row. */
  lemma CoversWithSize(m: Matrix, ks: seq<nat>, x: nat)
    requires Valid(m) && x in m.rowOf && !Meets(m, m.rowOf[x], ks)
    ensures |CoversWith(m, ks, x)| == |Covers(m, After(m, ks, x))|
  {
    hide Valid, IsCover, After;
    var r, dom, img := m.rowOf[x], CoversWith(m, ks, x), Covers(m, After(m, ks, x));
    var f := map rs | rs in dom :: rs - {r};
    forall rs | rs in dom
      ensures f[rs] in img
    {
      CoverShrinks(m, ks, x, rs);
    }
    forall a, a' | a in dom && a' in dom && f[a] == f[a']
      ensures a == a'
    {
      assert a == (a - {r}) + {r};
      assert a' == (a' - {r}) + {r};
    }
    forall b | b in img
      ensures exists a :: a in dom && f[a] == b
    {
      CoverExtends(m, ks, x, b);
      assert b + {r} in dom && f[b + {r}] == b;
    }
    SameSize(dom, img, f);
  }

  /** The covers that contain one of the first i live rows of column c. */
  ghost function CoversFrom(m: Matrix, ks: seq<nat>, c: nat, i: nat): (s: set<set<nat>>)
    requires Valid(m) && c in m.vert && i <= |Live(m, ks, c)|
  {
    set rs | rs in Covers(m, ks) && exists h :: 0 <= h < i && m.rowOf[Live(m, ks, c)[h]] in rs
  }

  lemma CoversFromStep(m: Matrix, ks: seq<nat>, c: nat, i: nat)
    requires Valid(m) && c in m.headers && c in m.vert && c !in ks && i < |Live(m, ks, c)|
    ensures |CoversFrom(m, ks, c, i + 1)|
         == |CoversFrom(m, ks, c, i)| + |Covers(m, After(m, ks, Live(m, ks, c)[i]))|
  {
    hide Valid, IsCover, After, Live, Covers;
    var xs := Live(m, ks, c);
    var a, b := CoversFrom(m, ks, c, i), CoversWith(m, ks, xs[i]);
    InLive(m, ks, c, xs[i]);
    CoversWithSize(m, ks, xs[i]);
    forall rs | rs in a
      ensures rs !in b
    {
      var h :| 0 <= h < i && m.rowOf[xs[h]] in rs;
      var x := CoverPicks(m, ks, c, rs);
      LiveDistinct(m, ks, c);
    }
    assert CoversFrom(m, ks, c, i + 1) == a + b;
  }

  lemma LiveDistinct(m: Matrix, ks: seq<nat>, c: nat)
    requires Valid(m) && c in m.vert
    ensures Distinct(Live(m, ks, c))
  {
    KeepDistinct(m.vert[c], LinkedSet(m, ks));
  }

  lemma CoversFromAll(m: Matrix, ks: seq<nat>, c: nat)
    requires Valid(m) && c in m.headers && c in m.vert && c !in ks
    ensures CoversFrom(m, ks, c, |Live(m, ks, c)|) == Covers(m, ks) && CoversFrom(m, ks, c, 0) == {}
  {
    hide Valid, IsCover, Live, Covers;
    forall rs | rs in Covers(m, ks)
      ensures rs in CoversFrom(m, ks, c, |Live(m, ks, c)|)
    {
      var x := CoverPicks(m, ks, c, rs);
      var i :| 0 <= i < |Live(m, ks, c)| && Live(m, ks, c)[i] == x;
    }
  }

  /** Every row has a node in some primary column. */
  ghost predicate AllPrimary(m: Matrix) {
    forall r :: r in m.rows ==> exists c :: c in m.headers && Hits(m, r, c)
  }

  /** With every primary column covered only the empty cover is left. */
  lemma OneCover(m: Matrix, ks: seq<nat>)
    requires Valid(m) && AllPrimary(m) && OpenHeaders(m, ks) == []
    ensures Covers(m, ks) == {{}}
  {
    hide Valid;
    NoneOpen(m, ks);
    Done(m, ks);
    forall rs | rs in Covers(m, ks)
      ensures rs == {}
    {
      forall r | r in rs
        ensures false
      {
      }
    }
  }
}

/** The exact-cover encoding of N queens: files and ranks must be covered, diagonals may be covered once. */
module QueenEncoding {
  import opened Chains
  import opened Finite
  import opened LinkMatrix
  import EC = ExactCover
  import opened CountCovers
  import opened Queens

  /** The four constraints of a queen in file c and rank r: file, rank, diagonal, antidiagonal. */
  function NameOf(n: nat, k: nat, c: nat, r: nat): (j: nat)
    requires k < 4 && c < n && r < n
    ensures j < 6 * n && (j < 2 * n <==> k < 2)
  {
    if k == 0 then c else if k == 1 then n + r else if k == 2 then 2 * n + r + c else 5 * n + r - c
  }

  function Line(k: nat, c: nat, r: nat): (z: int) {
    if k == 0 then c else if k == 1 then r else if k == 2 then r + c else r - c
  }

  lemma NameLine(n: nat, k: nat, c: nat, r: nat, k': nat, c': nat, r': nat)
    requires k < 4 && c < n && r < n && k' < 4 && c' < n && r' < n
    ensures NameOf(n, k, c, r) == NameOf(n, k', c', r') <==> k == k' && Line(k, c, r) == Line(k', c', r')
  {
  }

  /** The square that each matrix row stands for. */
  type Squares = map<nat, (nat, nat)>

  ghost predicate OnSquare(n: nat, sq: Squares, x: nat) {
    x in sq && sq[x].0 < n && sq[x].1 < n
  }

  /** Row x has its nodes in the columns of the four constraints of its square. */
  ghost predicate HitsSquare(m: Matrix, cols: seq<nat>, n: nat, sq: Squares, x: nat)
    requires 6 * n <= |cols| && OnSquare(n, sq, x)
  {
    forall d :: Hits(m, x, d) <==> exists k :: 0 <= k < 4 && d == cols[NameOf(n, k, sq[x].0, sq[x].1)]
  }

  ghost predicate HasSquare(m: Matrix, sq: Squares, c: nat, r: nat) {
    exists x :: x in m.rows && x in sq && sq[x] == (c, r)
  }

  ghost predicate QueenColumns(m: Matrix, cols: seq<nat>, n: nat) {
    && 6 * n <= |cols|
    && (forall j, j' :: 0 <= j < j' < 6 * n ==> cols[j] != cols[j'])
    && (forall j :: 0 <= j < 2 * n ==> cols[j] in m.headers)
    && (forall d :: d in m.headers ==> exists j :: 0 <= j < 2 * n && cols[j] == d)
  }

  ghost predicate QueenRows(m: Matrix, cols: seq<nat>, n: nat, sq: Squares)
    requires 6 * n <= |cols|
  {
    && (forall x :: x in m.rows ==> OnSquare(n, sq, x) && HitsSquare(m, cols, n, sq, x))
    && (forall x, y :: x in m.rows && y in m.rows && x in sq && y in sq && sq[x] == sq[y] ==> x == y)
  }

  /** One row for each square, in the columns of its four constraints. */
  ghost predicate Encodes(m: Matrix, cols: seq<nat>, n: nat, sq: Squares) {
    && QueenColumns(m, cols, n) && QueenRows(m, cols, n, sq)
    && (forall c, r :: 0 <= c < n && 0 <= r < n ==> HasSquare(m, sq, c, r))
  }

  /** Two squares share a column exactly when they share a line of that kind. */
  lemma SharedLine(m: Matrix, cols: seq<nat>, n: nat, sq: Squares, x: nat, y: nat, d: nat) returns (k: nat)
    requires Encodes(m, cols, n, sq) && x in m.rows && y in m.rows && Hits(m, x, d) && Hits(m, y, d)
    ensures OnSquare(n, sq, x) && OnSquare(n, sq, y)
    ensures k < 4 && Line(k, sq[x].0, sq[x].1) == Line(k, sq[y].0, sq[y].1)
  {
    hide NameOf, Line, Hits;
    assert HitsSquare(m, cols, n, sq, x) && HitsSquare(m, cols, n, sq, y);
    k :| 0 <= k < 4 && d == cols[NameOf(n, k, sq[x].0, sq[x].1)];
    var k' :| 0 <= k' < 4 && d == cols[NameOf(n, k', sq[y].0, sq[y].1)];
    NameLine(n, k, sq[x].0, sq[x].1, k', sq[y].0, sq[y].1);
  }

  lemma HitsLine(m: Matrix, cols: seq<nat>, n: nat, sq: Squares, x: nat, k: nat, c: nat, r: nat)
    requires Encodes(m, cols, n, sq) && x in m.rows && k < 4 && c < n && r < n
    ensures OnSquare(n, sq, x)
    ensures Hits(m, x, cols[NameOf(n, k, c, r)]) <==> Line(k, sq[x].0, sq[x].1) == Line(k, c, r)
  {
    hide NameOf, Line, Hits;
    assert HitsSquare(m, cols, n, sq, x);
    var d := cols[NameOf(n, k, c, r)];
    if Hits(m, x, d) {
      var k' :| 0 <= k' < 4 && d == cols[NameOf(n, k', sq[x].0, sq[x].1)];
      NameLine(n, k, c, r, k', sq[x].0, sq[x].1);
    }
    if Line(k, sq[x].0, sq[x].1) == Line(k, c, r) {
      NameLine(n, k, c, r, k, sq[x].0, sq[x].1);
    }
  }

  lemma EncodesPrimary(m: Matrix, cols: seq<nat>, n: nat, sq: Squares)
    requires Encodes(m, cols, n, sq)
    ensures AllPrimary(m)
  {
    forall x | x in m.rows
      ensures exists d :: d in m.headers && Hits(m, x, d)
    {
      assert OnSquare(n, sq, x);
      HitsLine(m, cols, n, sq, x, 0, sq[x].0, sq[x].1);
      assert cols[NameOf(n, 0, sq[x].0, sq[x].1)] in m.headers;
    }
  }

  // ---------------------------------------------------------------- from boards to covers

  /** The matrix rows of the queens on board q. */
  ghost function Chosen(m: Matrix, sq: Squares, q: seq<nat>): (rs: set<nat>) {
    set x | x in m.rows && x in sq && sq[x].0 < |q| && q[sq[x].0] == sq[x].1
  }

  ghost function RowAt(m: Matrix, sq: Squares, c: nat, r: nat): (x: nat)
    requires HasSquare(m, sq, c, r)
    ensures x in m.rows && x in sq && sq[x] == (c, r)
  {
    var x :| x in m.rows && x in sq && sq[x] == (c, r);
    x
  }

  lemma SafeLines(q: seq<nat>, i: nat, j: nat, k: nat)
    requires Safe(q) && i < |q| && j < |q| && k < 4 && Line(k, i, q[i]) == Line(k, j, q[j])
    ensures i == j
  {
  }

  lemma BoardCovers(m: Matrix, cols: seq<nat>, n: nat, sq: Squares, q: seq<nat>)
    requires Encodes(m, cols, n, sq) && IsSolution(n, q)
    ensures EC.IsCover(m, [], Chosen(m, sq, q))
  {
    hide NameOf, Line, Hits, HitsSquare, Safe;
    var rs := Chosen(m, sq, q);
    forall x, y, d | x in rs && y in rs && Hits(m, x, d) && Hits(m, y, d)
      ensures x == y
    {
      var k := SharedLine(m, cols, n, sq, x, y, d);
      SafeLines(q, sq[x].0, sq[y].0, k);
    }
    forall d | d in m.headers
      ensures exists x :: x in rs && Hits(m, x, d)
    {
      var j :| 0 <= j < 2 * n && cols[j] == d;
      var x := BoardHits(m, cols, n, sq, q, j);
    }
  }

  lemma BoardHits(m: Matrix, cols: seq<nat>, n: nat, sq: Squares, q: seq<nat>, j: nat) returns (x: nat)
    requires Encodes(m, cols, n, sq) && IsSolution(n, q) && j < 2 * n
    ensures x in Chosen(m, sq, q) && Hits(m, x, cols[j])
  {
    hide Hits, HitsSquare;
    if j < n {
      x := RowAt(m, sq, j, q[j]);
      HitsLine(m, cols, n, sq, x, 0, j, q[j]);
    } else {
      assert Distinct(q);
      DistinctIsOnto(q, 0, j - n);
      var c :| 0 <= c < n && q[c] == j - n;
      x := RowAt(m, sq, c, j - n);
      HitsLine(m, cols, n, sq, x, 1, c, j - n);
    }
  }

  // ---------------------------------------------------------------- from covers to boards

  /** The queen that a cover places in file c. */
  ghost predicate InFile(sq: Squares, rs: set<nat>, c: nat, x: nat) {
    x in rs && x in sq && sq[x].0 == c
  }

  ghost predicate HasFile(sq: Squares, rs: set<nat>, c: nat) {
    exists x :: InFile(sq, rs, c, x)
  }

  ghost predicate QueenAt(sq: Squares, rs: set<nat>, c: nat, r: nat) {
    exists x :: InFile(sq, rs, c, x) && sq[x].1 == r
  }

  lemma CoverFile(m: Matrix, cols: seq<nat>, n: nat, sq: Squares, rs: set<nat>, c: nat)
    requires Encodes(m, cols, n, sq) && EC.IsCover(m, [], rs) && c < n
    ensures HasFile(sq, rs, c)
  {
    hide Hits, HitsSquare;
    assert cols[NameOf(n, 0, c, 0)] in m.headers;
    var x :| x in rs && Hits(m, x, cols[NameOf(n, 0, c, 0)]);
    HitsLine(m, cols, n, sq, x, 0, c, 0);
    assert InFile(sq, rs, c, x);
  }

  /** Two queens of a cover share no line. */
  lemma CoverLines(m: Matrix, cols: seq<nat>, n: nat, sq: Squares, rs: set<nat>, x: nat, y: nat, k: nat)
    requires Encodes(m, cols, n, sq) && EC.IsCover(m, [], rs) && x in rs && y in rs && k < 4
    ensures OnSquare(n, sq, x) && OnSquare(n, sq, y)
    ensures Line(k, sq[x].0, sq[x].1) == Line(k, sq[y].0, sq[y].1) ==> x == y
  {
    hide Hits, HitsSquare, NameOf, Line;
    assert OnSquare(n, sq, x) && OnSquare(n, sq, y);
    HitsLine(m, cols, n, sq, x, k, sq[x].0, sq[x].1);
    HitsLine(m, cols, n, sq, y, k, sq[x].0, sq[x].1);
  }

  ghost function BoardOf(sq: Squares, rs: set<nat>, n: nat): (q: seq<nat>)
    requires forall c :: 0 <= c < n ==> HasFile(sq, rs, c)
    ensures |q| == n && forall c :: 0 <= c < n ==> QueenAt(sq, rs, c, q[c])
  {
    seq(n, c requires 0 <= c < n => QueenOf(sq, rs, c))
  }

  ghost function QueenOf(sq: Squares, rs: set<nat>, c: nat): (r: nat)
    requires HasFile(sq, rs, c)
    ensures QueenAt(sq, rs, c, r)
  {
    var x :| InFile(sq, rs, c, x);
    sq[x].1
  }

  lemma CoverBoard(m: Matrix, cols: seq<nat>, n: nat, sq: Squares, rs: set<nat>) returns (q: seq<nat>)
    requires Encodes(m, cols, n, sq) && EC.IsCover(m, [], rs)
    ensures IsSolution(n, q) && Chosen(m, sq, q) == rs
  {
    hide Encodes, EC.IsCover, Line;
    forall c | 0 <= c < n
      ensures HasFile(sq, rs, c)
    {
      CoverFile(m, cols, n, sq, rs, c);
    }
    q := BoardOf(sq, rs, n);
    forall c | 0 <= c < n
      ensures q[c] < n
    {
      assert QueenAt(sq, rs, c, q[c]);
      var x :| InFile(sq, rs, c, x) && sq[x].1 == q[c];
      CoverLines(m, cols, n, sq, rs, x, x, 0);
    }
    CoverBoardSafe(m, cols, n, sq, rs, q);
    CoverBoardChosen(m, cols, n, sq, rs, q);
  }

  lemma CoverBoardSafe(m: Matrix, cols: seq<nat>, n: nat, sq: Squares, rs: set<nat>, q: seq<nat>)
    requires Encodes(m, cols, n, sq) && EC.IsCover(m, [], rs)
    requires |q| == n && forall c :: 0 <= c < n ==> QueenAt(sq, rs, c, q[c])
    ensures Safe(q)
  {
    hide Encodes, EC.IsCover;
    forall i, j | 0 <= i < j < n
      ensures q[i] != q[j] && q[i] + i != q[j] + j && q[i] - i != q[j] - j
    {
      assert QueenAt(sq, rs, i, q[i]) && QueenAt(sq, rs, j, q[j]);
      var x :| InFile(sq, rs, i, x) && sq[x].1 == q[i];
      var y :| InFile(sq, rs, j, y) && sq[y].1 == q[j];
      CoverLines(m, cols, n, sq, rs, x, y, 1);
      CoverLines(m, cols, n, sq, rs, x, y, 2);
      CoverLines(m, cols, n, sq, rs, x, y, 3);
    }
  }

  lemma CoverBoardChosen(m: Matrix, cols: seq<nat>, n: nat, sq: Squares, rs: set<nat>, q: seq<nat>)
    requires Encodes(m, cols, n, sq) && EC.IsCover(m, [], rs)
    requires |q| == n && forall c :: 0 <= c < n ==> QueenAt(sq, rs, c, q[c])
    ensures Chosen(m, sq, q) == rs
  {
    hide HitsSquare, Hits, Line;
    forall x | x in rs
      ensures x in Chosen(m, sq, q)
    {
      CoverLines(m, cols, n, sq, rs, x, x, 0);
      assert QueenAt(sq, rs, sq[x].0, q[sq[x].0]);
      var y :| InFile(sq, rs, sq[x].0, y) && sq[y].1 == q[sq[x].0];
      FileLine(sq, x, y);
      CoverLines(m, cols, n, sq, rs, x, y, 0);
    }
    forall x | x in Chosen(m, sq, q)
      ensures x in rs
    {
      assert QueenAt(sq, rs, sq[x].0, q[sq[x].0]);
      var y :| InFile(sq, rs, sq[x].0, y) && sq[y].1 == q[sq[x].0];
      assert sq[x] == sq[y];
      assert y in m.rows;
    }
  }

  lemma FileLine(sq: Squares, x: nat, y: nat)
    requires x in sq && y in sq && sq[x].0 == sq[y].0
    ensures Line(0, sq[x].0, sq[x].1) == Line(0, sq[y].0, sq[y].1)
  {
  }

  /** The exact covers of the encoding are the solutions of the puzzle, one for one. */
  lemma CoversAreSolutions(m: Matrix, cols: seq<nat>, n: nat, sq: Squares)
    requires Encodes(m, cols, n, sq)
    ensures |Covers(m, [])| == |Solutions(n)|
  {
    hide Encodes, EC.IsCover, Safe;
    var f := map q | q in Solutions(n) :: Chosen(m, sq, q);
    forall q | q in Solutions(n)
      ensures f[q] in Covers(m, [])
    {
      BoardCovers(m, cols, n, sq, q);
    }
    forall q, q' | q in Solutions(n) && q' in Solutions(n) && f[q] == f[q']
      ensures q == q'
    {
      SameBoard(m, cols, n, sq, q, q');
    }
    forall rs | rs in Covers(m, [])
      ensures exists q :: q in Solutions(n) && f[q] == rs
    {
      var q := CoverBoard(m, cols, n, sq, rs);
    }
    SameSize(Solutions(n), Covers(m, []), f);
  }

  lemma SameBoard(m: Matrix, cols: seq<nat>, n: nat, sq: Squares, q: seq<nat>, q': seq<nat>)
    requires Encodes(m, cols, n, sq) && IsSolution(n, q) && IsSolution(n, q') && Chosen(m, sq, q) == Chosen(m, sq, q')
    ensures q == q'
  {
    hide HitsSquare, Safe;
    forall c | 0 <= c < n
      ensures q[c] == q'[c]
    {
      var x := RowAt(m, sq, c, q[c]);
      assert x in Chosen(m, sq, q);
    }
  }
}

/** Four ways to a Fibonacci number on arbitrary-precision integers, all equal to the recurrence. */
module Fibonacci {
  import opened Limbs
  import opened BigInt
  import opened Numerals
  import opened BigIntText

  ghost function F(n: nat): (f: nat) {
    if n <= 1 then n else F(n - 1) + F(n - 2)
  }

  // ---------------------------------------------------------------- the addition law

  lemma {:induction false} AdditionLaw(m: nat, n: nat)
    ensures F(m + n + 1) == F(m + 1) * F(n + 1) + F(m) * F(n)
  {
    hide F;
    if n <= 1 {
      AdditionBase(m, n);
    } else {
      AdditionLaw(m, n - 1);
      AdditionLaw(m, n - 2);
      AdditionStep(m, n - 2);
    }
  }

  lemma Recurrence(n: nat)
    ensures F(n + 2) == F(n + 1) + F(n)
  {
  }

  lemma AdditionBase(m: nat, n: nat)
    requires n <= 1
    ensures F(m + n + 1) == F(m + 1) * F(n + 1) + F(m) * F(n)
  {
    Recurrence(m);
    assert F(0) == 0 && F(1) == 1 && F(2) == 1;
    hide F;
    Commute(F(m + 1), 1);
    Commute(F(m), n);
    Times(1, F(m + 1));
    Times(n, F(m));
  }

  lemma AdditionStep(m: nat, n: nat)
    requires F(m + n + 1) == F(m + 1) * F(n + 1) + F(m) * F(n)
    requires F(m + n + 2) == F(m + 1) * F(n + 2) + F(m) * F(n + 1)
    ensures F(m + n + 3) == F(m + 1) * F(n + 3) + F(m) * F(n + 2)
  {
    hide F;
    Recurrence(m + n + 1);
    Recurrence(n + 1);
    Recurrence(n);
    Distribute(F(n + 2), F(n + 1), F(m + 1));
    Distribute(F(n + 1), F(n), F(m));
  }

  /** One multiplication of matrices [F(k+1) F(k); F(k) F(k-1)]: exponents add. */
  lemma MatrixProduct(m: nat, j: nat)
    requires m > 0 && j > 0
    ensures F(m + j - 1) == F(m - 1) * F(j - 1) + F(m) * F(j)
    ensures F(m + j) == F(m + 1) * F(j) + F(m) * F(j - 1)
    ensures F(m + j + 1) == F(m + 1) * F(j + 1) + F(m) * F(j)
  {
    hide F;
    AdditionLaw(m - 1, j - 1);
    AdditionLaw(m, j - 1);
    AdditionLaw(m, j);
  }

  lemma MatrixSquare(j: nat)
    requires j > 0
    ensures F(2 * j - 1) == F(j - 1) * F(j - 1) + F(j) * F(j)
    ensures F(2 * j) == (F(j + 1) + F(j - 1)) * F(j)
    ensures F(2 * j + 1) == F(j + 1) * F(j + 1) + F(j) * F(j)
  {
    hide F;
    MatrixProduct(j, j);
    Distribute(F(j + 1), F(j - 1), F(j));
    Commute(F(j), F(j - 1));
  }

  // ---------------------------------------------------------------- the matrix loops

  /** The object holds v in normal form. */
  ghost predicate Holds(x: UnsignedInt, v: nat)
    reads x
  {
    x.Valid() && Normal(x.limbs) && x.V() == v
  }

  /** The three objects hold the matrix for exponent k. */
  ghost predicate Matrix(x0: UnsignedInt, x1: UnsignedInt, x2: UnsignedInt, k: nat)
    reads x0, x1, x2
  {
    k > 0 && Holds(x0, F(k - 1)) && Holds(x1, F(k)) && Holds(x2, F(k + 1))
  }

  method Square(t0: UnsignedInt, t1: UnsignedInt, t2: UnsignedInt, t3: UnsignedInt, ghost j: nat)
    requires t0 != t1 && t0 != t2 && t0 != t3 && t1 != t2 && t1 != t3 && t2 != t3
    requires Matrix(t0, t1, t2, j)
    modifies t0, t1, t2, t3
    ensures Matrix(t0, t1, t2, 2 * j)
  {
    hide F, Value;
    MatrixSquare(j);
    t3.CopyFrom(t2);
    t3.Add(t0);
    t3.Mul(t1);
    t0.Mul(t0);
    t1.Mul(t1);
    t2.Mul(t2);
    t2.Add(t1);
    t0.Add(t1);
    t1.Swap(t3);
  }

  /** Multiplies the matrix n by the matrix t. */
  method Compose(n0: UnsignedInt, n1: UnsignedInt, n2: UnsignedInt, t0: UnsignedInt, t1: UnsignedInt, t2: UnsignedInt,
                 s1: UnsignedInt, s2: UnsignedInt, ghost m: nat, ghost j: nat)
    requires n0 != n1 && n0 != n2 && n1 != n2 && s1 != s2
    requires {n0, n1, n2} !! {t0, t1, t2} && {n0, n1, n2} !! {s1, s2} && {t0, t1, t2} !! {s1, s2}
    requires Matrix(n0, n1, n2, m) && Matrix(t0, t1, t2, j)
    modifies n0, n1, n2, s1, s2
    ensures Matrix(n0, n1, n2, m + j)
  {
    hide F, Value;
    MatrixProduct(m, j);
    s1.CopyFrom(n1);
    s1.Mul(t0);
    s2.CopyFrom(n2);
    s2.Mul(t1);
    s2.Add(s1);
    n1.Mul(t1);
    n2.Mul(t2);
    n2.Add(n1);
    n0.Mul(t0);
    n0.Add(n1);
    n1.Swap(s2);
  }

  /** The text of a number in canonical decimal form. */
  ghost predicate Shows(s: string, v: nat) {
    Canonical(s, 10) && Number(s, 10) == v
  }

  lemma FirstMatrix(x0: UnsignedInt, x1: UnsignedInt, x2: UnsignedInt)
    requires Holds(x0, 0) && Holds(x1, 1) && Holds(x2, 1)
    ensures Matrix(x0, x1, x2, 1) && F(0) == 0 && F(1) == 1 && F(2) == 1
  {
    assert F(2) == F(1) + F(0);
  }

  /** One bit of the exponent. */
  method Turn(n0: UnsignedInt, n1: UnsignedInt, n2: UnsignedInt, t0: UnsignedInt, t1: UnsignedInt, t2: UnsignedInt,
              bit: bool, ghost m: nat, ghost j: nat) returns (ghost m': nat)
    requires n0 != n1 && n0 != n2 && n1 != n2 && t0 != t1 && t0 != t2 && t1 != t2 && {n0, n1, n2} !! {t0, t1, t2}
    requires Matrix(n0, n1, n2, m) && Matrix(t0, t1, t2, j)
    modifies n0, n1, n2, t0, t1, t2
    ensures m' == (if bit then m + 2 * j else m)
    ensures Matrix(n0, n1, n2, m') && Matrix(t0, t1, t2, 2 * j)
  {
    hide Matrix;
    var t3 := new UnsignedInt(0);
    Square(t0, t1, t2, t3, j);
    m' := m;
    if bit {
      var s1 := new UnsignedInt(0);
      var s2 := new UnsignedInt(0);
      Compose(n0, n1, n2, t0, t1, t2, s1, s2, m, 2 * j);
      m' := m + 2 * j;
    }
  }

  /** The loop of fastFibonacci: an even exponent comes out one too high. */
  method RaiseFromLow(n0: UnsignedInt, n1: UnsignedInt, n2: UnsignedInt, N: nat)
    requires n0 != n1 && n0 != n2 && n1 != n2 && Matrix(n0, n1, n2, 1)
    modifies n0, n1, n2
    ensures Matrix(n0, n1, n2, if N % 2 == 0 then N + 1 else N)
  {
    hide F, Value, Matrix, Scaled;
    var t0 := new UnsignedInt(0);
    var t1 := new UnsignedInt(1);
    var t2 := new UnsignedInt(1);
    FirstMatrix(t0, t1, t2);
    ghost var m: nat, j: nat := 1, 1;
    var k := N / 2;
    Unscaled(k);
    while k != 0
      invariant fresh(t0) && fresh(t1) && fresh(t2)
      invariant Matrix(n0, n1, n2, m) && Matrix(t0, t1, t2, j)
      invariant k >= 0 && m + 2 * Scaled(k, j) == (if N % 2 == 0 then N + 1 else N)
    {
      Halve(k, j);
      m := Turn(n0, n1, n2, t0, t1, t2, k % 2 == 1, m, j);
      j := 2 * j;
      k := k / 2;
    }
    Unscaled(j);
  }

  ghost function Scaled(k: nat, j: nat): nat {
    k * j
  }

  lemma Unscaled(k: nat)
    ensures Scaled(k, 1) == k && Scaled(0, k) == 0
  {
  }

  lemma Halve(k: nat, j: nat)
    ensures 2 * Scaled(k, j) == 2 * Scaled(k / 2, 2 * j) + (if k % 2 == 1 then 2 * j else 0)
  {
    MulAssoc(k / 2, 2, j);
    Distribute(2 * (k / 2), k % 2, j);
    Times(k % 2, j);
  }

  /** fastFibonacci: squares from the low bit up. */
  method Fast(N: nat) returns (s: string)
    ensures Shows(s, F(N))
  {
    hide F, Value, Canonical, Number, Matrix;
    var n0 := new UnsignedInt(0);
    var n1 := new UnsignedInt(1);
    var n2 := new UnsignedInt(1);
    FirstMatrix(n0, n1, n2);
    var result := n1;
    if N == 0 {
      result := n0;
    } else if N >= 3 {
      if N % 2 == 0 {
        result := n0;
      }
      RaiseFromLow(n0, n1, n2, N);
      MatrixEntries(n0, n1, n2, if N % 2 == 0 then N + 1 else N);
    }
    NormalIsPrintable(result.limbs);
    s := ToDec(result);
  }

  lemma MatrixEntries(x0: UnsignedInt, x1: UnsignedInt, x2: UnsignedInt, k: nat)
    requires Matrix(x0, x1, x2, k)
    ensures k > 0 && Holds(x0, F(k - 1)) && Holds(x1, F(k))
  {
  }

  // ---------------------------------------------------------------- from the top bit down

  lemma TopBit(n: nat, b: nat)
    requires 0 < b <= n < 2 * b
    ensures Div(n, b) == 1
  {
    DivMod(n, b);
    SameDigit(Div(n, b), Mod(n, b), 1, n - b, b);
  }

  /** Multiplies by [1 1; 1 0]. */
  method Advance(n0: UnsignedInt, n1: UnsignedInt, n2: UnsignedInt, ghost k: nat)
    requires n0 != n1 && n0 != n2 && n1 != n2 && Matrix(n0, n1, n2, k)
    modifies n0, n1, n2
    ensures Matrix(n0, n1, n2, k + 1)
  {
    hide F, Value;
    Recurrence(k);
    n0.Swap(n1);
    n1.CopyFrom(n2);
    n2.Add(n0);
  }

  /** The loops of fasterFibonacci; bit is a power of two, so testing it is a division. */
  method RaiseFromTop(n0: UnsignedInt, n1: UnsignedInt, n2: UnsignedInt, N: nat)
    requires n0 != n1 && n0 != n2 && n1 != n2 && Matrix(n0, n1, n2, 1) && N > 0
    modifies n0, n1, n2
    ensures Matrix(n0, n1, n2, N)
  {
    hide F, Value, Matrix, Exp, Div, Mod;
    var bit := 1;
    ghost var p: nat := 0;
    LowNone(2);
    while bit <= N
      invariant bit == Exp(2, p) > 0 && (p > 0 ==> Exp(2, p - 1) <= N) && Matrix(n0, n1, n2, 1)
      decreases N - bit
    {
      ExpStep(2, p);
      bit := bit * 2;
      p := p + 1;
    }
    ExpStep(2, p - 1);
    bit := bit / 2;
    p := p - 1;
    TopBit(N, bit);
    assert Div(N, Exp(2, p)) == 1;
    bit := bit / 2;
    while bit > 0
      invariant Exp(2, p) > 0 && bit == Exp(2, p) / 2 && Matrix(n0, n1, n2, Div(N, Exp(2, p)))
      invariant p == 0 ==> Exp(2, p) == 1
      decreases bit
    {
      ExpStep(2, p - 1);
      HalfQuotient(N, bit);
      var t := new UnsignedInt(0);
      Square(n0, n1, n2, t, Div(N, 2 * bit));
      if Div(N, bit) % 2 == 1 {
        Advance(n0, n1, n2, 2 * Div(N, 2 * bit));
      }
      p := p - 1;
      bit := bit / 2;
      LowNone(2);
    }
    if p > 0 {
      ExpStep(2, p - 1);
    }
    Whole(N);
  }

  lemma Whole(n: nat)
    ensures Div(n, 1) == n
  {
  }

  /** fasterFibonacci; the shifted bit must fit an int, and a negative argument is not refused. */
  method Faster(N: int) returns (s: string)
    requires N < 0x4000_0000
    ensures Shows(s, if N < 0 then 1 else F(N))
  {
    hide F, Value, Canonical, Number, Matrix;
    var n0 := new UnsignedInt(0);
    var n1 := new UnsignedInt(1);
    var n2 := new UnsignedInt(1);
    FirstMatrix(n0, n1, n2);
    var result := n1;
    if N == 0 {
      result := n0;
    } else if N >= 3 {
      RaiseFromTop(n0, n1, n2, N);
      MatrixEntries(n0, n1, n2, N);
    }
    NormalIsPrintable(result.limbs);
    s := ToDec(result);
  }

  // ---------------------------------------------------------------- memoised doubling

  class Fib {
    var cache: map<nat, UnsignedInt>

    /** Every entry of the cache is right. */
    ghost predicate Valid()
      reads this, cache.Values
    {
      && 0 in cache && 1 in cache && 2 in cache
      && forall k :: k in cache ==> Holds(cache[k], F(k))
    }

    constructor (N: nat)
      ensures Valid() && N in cache
    {
      var c0 := new UnsignedInt(0);
      var c1 := new UnsignedInt(1);
      var c2 := new UnsignedInt(1);
      FirstMatrix(c0, c1, c2);
      cache := map[0 := c0, 1 := c1, 2 := c2];
      new;
      Calc(N);
    }

    /** Fills in the entry for N; entries already there stay as they are. */
    method Calc(N: nat)
      requires Valid()
      modifies this
      ensures Valid() && N in cache
      ensures forall k :: k in old(cache) ==> k in cache && cache[k] == old(cache[k])
      decreases N
    {
      hide F, Holds;
      if N !in cache {
        Calc(N / 2);
        Calc(N / 2 + 1);
        if N % 2 == 1 {
          var a := OddEntry(cache[N / 2], cache[N / 2 + 1], N / 2);
          cache := cache[N := a];
        } else {
          Calc(N / 2 - 1);
          var a := EvenEntry(cache[N / 2 - 1], cache[N / 2], cache[N / 2 + 1], N / 2);
          cache := cache[N := a];
        }
      }
    }
  }

  /** f(2k+1) = f(k)^2 + f(k+1)^2 */
  method OddEntry(at: UnsignedInt, above: UnsignedInt, ghost k: nat) returns (a: UnsignedInt)
    requires k > 0 && Holds(at, F(k)) && Holds(above, F(k + 1))
    ensures fresh(a) && Holds(a, F(2 * k + 1))
  {
    hide F, Value;
    MatrixSquare(k);
    a := new UnsignedInt.Copy(at);
    a.Mul(a);
    var b := new UnsignedInt.Copy(above);
    b.Mul(b);
    a.Add(b);
  }

  /** f(2k) = f(k) * (f(k-1) + f(k+1)) */
  method EvenEntry(below: UnsignedInt, at: UnsignedInt, above: UnsignedInt, ghost k: nat) returns (a: UnsignedInt)
    requires k > 0 && Holds(below, F(k - 1)) && Holds(at, F(k)) && Holds(above, F(k + 1))
    ensures fresh(a) && Holds(a, F(2 * k))
  {
    hide F, Value;
    MatrixSquare(k);
    a := new UnsignedInt.Copy(below);
    a.Add(above);
    a.Mul(at);
  }

  method Fastest(N: nat) returns (s: string)
    ensures Shows(s, F(N))
  {
    var f := new Fib(N);
    NormalIsPrintable(f.cache[N].limbs);
    s := ToDec(f.cache[N]);
  }

  // ---------------------------------------------------------------- one step at a time

  class FibonacciIterator {
    var fn: UnsignedInt
    var prev: UnsignedInt

    /** The iterator stands at F(k). */
    ghost predicate At(k: nat)
      reads this, fn, prev
    {
      fn != prev && k > 0 && Holds(fn, F(k)) && Holds(prev, F(k - 1))
    }

    constructor ()
      ensures At(1) && fresh(fn) && fresh(prev)
    {
      fn := new UnsignedInt(1);
      prev := new UnsignedInt(0);
    }

    method Next(ghost k: nat)
      requires At(k)
      modifies fn, prev
      ensures At(k + 1)
    {
      hide F, Value;
      Recurrence(k - 1);
      prev.Swap(fn);
      fn.Add(prev);
    }
  }

  method Linear(N: nat) returns (s: string)
    ensures Shows(s, F(N))
  {
    var iter := new FibonacciIterator();
    for i := 1 to (if N == 0 then 1 else N)
      invariant iter.At(i) && fresh(iter) && fresh(iter.fn) && fresh(iter.prev)
    {
      iter.Next(i);
    }
    if N == 0 {
      ZeroText(10);
      return "0";
    }
    NormalIsPrintable(iter.fn.limbs);
    s := ToDec(iter.fn);
  }

  /** The comparison in the self test: the four texts are always the same. */
  method Compare(N: nat) returns (same: bool)
    requires N < 0x4000_0000
    ensures same
  {
    var linear := Linear(N);
    var fast := Fast(N);
    var faster := Faster(N);
    var fastest := Fastest(N);
    CanonicalUnique(fast, linear, 10);
    CanonicalUnique(faster, linear, 10);
    CanonicalUnique(fastest, linear, 10);
    same := fast == linear && faster == linear && fastest == linear;
  }
}

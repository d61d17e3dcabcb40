/** The bits of a 32-bit unsigned word. */
module Bits {

  /** 1 << i, by repeated doubling. */
  function One(i: nat): (m: bv32) {
    if i == 0 then 1 else Twice(One(i - 1))
  }

  function Twice(m: bv32): (r: bv32) {
    m << 1
  }

  function Half(m: bv32): (r: bv32) {
    m >> 1
  }

  function Or(x: bv32, y: bv32): (r: bv32) {
    x | y
  }

  function Not(x: bv32): (r: bv32) {
    !x
  }

  function Minus1(x: bv32): (r: bv32) {
    x - 1
  }

  /** x & (x - 1) */
  function ClearLow(x: bv32): (r: bv32) {
    x & (x - 1)
  }

  /** x and m have a bit in common. */
  predicate Has(x: bv32, m: bv32) {
    x & m != 0
  }

  predicate Bit(x: bv32, i: nat) {
    Has(x, One(i))
  }

  /** m has exactly one bit set. */
  predicate Single(m: bv32) {
    m != 0 && m & (m - 1) == 0
  }

  predicate IsTop(m: bv32) {
    m == 0x8000_0000
  }

  // ---------------------------------------------------------------- facts about whole words

  lemma OrRaw(x: bv32, y: bv32, m: bv32)
    ensures (x | y) & m != 0 <==> x & m != 0 || y & m != 0
    ensures m & (x | y) != 0 <==> m & x != 0 || m & y != 0
  {
  }

  lemma NotRaw(x: bv32, m: bv32)
    requires m != 0 && m & (m - 1) == 0
    ensures (!x) & m != 0 <==> x & m == 0
  {
  }

  lemma ClearRaw(x: bv32, m: bv32)
    requires m != 0 && m & (m - 1) == 0 && x & m != 0 && x & (m - 1) == 0
    ensures x & (x - 1) == x & !m
  {
  }

  lemma MaskRaw(x: bv32, m: bv32, k: bv32)
    ensures m & k == 0 ==> (x & !m) & k == x & k
    ensures (x & !m) & m == 0
  {
  }

  lemma SinglesRaw(m: bv32, k: bv32)
    requires m != 0 && m & (m - 1) == 0 && k != 0 && k & (k - 1) == 0
    ensures m == k || m & k == 0
  {
  }

  lemma OrWord(x: bv32, y: bv32, m: bv32)
    ensures Has(Or(x, y), m) <==> Has(x, m) || Has(y, m)
    ensures Has(m, Or(x, y)) <==> Has(m, x) || Has(m, y)
  {
    OrRaw(x, y, m);
  }

  lemma NotWord(x: bv32, m: bv32)
    requires Single(m)
    ensures Has(Not(x), m) <==> !Has(x, m)
  {
    NotRaw(x, m);
  }

  lemma HasWord(a: bv32, b: bv32)
    ensures Has(a, b) <==> Has(b, a)
    ensures !Has(0, a) && (Single(a) ==> Has(a, a))
    ensures !Has(1, Twice(a))
    ensures Has(Twice(a), Twice(b)) ==> Has(a, b)
    ensures Single(b) && !IsTop(b) ==> (Has(Twice(a), Twice(b)) <==> Has(a, b))
    ensures Single(b) && !IsTop(b) ==> (Has(Half(a), b) <==> Has(a, Twice(b)))
    ensures IsTop(b) ==> !Has(Half(a), b)
  {
  }

  lemma TwiceWord(m: bv32)
    requires Single(m)
    ensures Minus1(Twice(m)) == Or(Minus1(m), m)
    ensures !IsTop(m) ==> Single(Twice(m))
  {
  }

  lemma ClearWord(x: bv32, m: bv32, k: bv32)
    requires Single(m) && Single(k) && Has(x, m) && !Has(x, Minus1(m))
    ensures Has(ClearLow(x), k) <==> Has(x, k) && m != k
  {
    ClearRaw(x, m);
    MaskRaw(x, m, k);
    SinglesRaw(m, k);
  }

  lemma TopWord(x: bv32, m: bv32)
    requires IsTop(m) && !Has(x, m) && !Has(x, Minus1(m))
    ensures x == 0
  {
  }

  // ---------------------------------------------------------------- facts about single bits

  lemma TopBit()
    ensures IsTop(One(31))
  {
    assert One(3) == 8;
    assert One(6) == 0x40;
    assert One(9) == 0x200;
    assert One(12) == 0x1000;
    assert One(15) == 0x8000;
    assert One(18) == 0x4_0000;
    assert One(21) == 0x20_0000;
    assert One(24) == 0x100_0000;
    assert One(27) == 0x800_0000;
    assert One(29) == 0x2000_0000;
  }

  lemma OneStep(i: nat)
    ensures One(0) == 1 && One(i + 1) == Twice(One(i))
  {
  }

  lemma {:induction false} OnesDisjoint(i: nat, j: nat)
    requires i < j
    ensures !Has(One(i), One(j)) && !Has(One(j), One(i))
  {
    hide One, Twice, Has;
    OneStep(j - 1);
    if i == 0 {
      HasWord(One(j - 1), 0);
    } else {
      OneStep(i - 1);
      OnesDisjoint(i - 1, j - 1);
      HasWord(One(i - 1), One(j - 1));
    }
    HasWord(One(i), One(j));
  }

  lemma SingleHas(m: bv32)
    requires Single(m)
    ensures Has(m, m)
  {
  }

  lemma {:induction false} OneSingle(i: nat)
    requires i < 32
    ensures Single(One(i)) && (IsTop(One(i)) <==> i == 31)
  {
    hide One, Twice, Has, Single, IsTop;
    TopBit();
    if i == 0 {
      OneStep(0);
      FirstWord();
    } else {
      OneStep(i - 1);
      OneSingle(i - 1);
      TwiceWord(One(i - 1));
    }
    if i < 31 {
      OnesDisjoint(i, 31);
      SingleHas(One(i));
      SameTop(One(i), One(31));
    }
  }

  lemma FirstWord()
    ensures Single(1)
  {
  }

  lemma SameTop(a: bv32, b: bv32)
    requires IsTop(b)
    ensures IsTop(a) <==> a == b
  {
  }

  lemma BitOne(i: nat, j: nat)
    requires i < 32 && j < 32
    ensures Bit(One(i), j) <==> i == j
  {
    hide One, Has, Single, Not, Minus1, ClearLow;
    if i < j {
      OnesDisjoint(i, j);
    } else if j < i {
      OnesDisjoint(j, i);
    } else {
      OneSingle(i);
      SingleHas(One(i));
    }
  }

  lemma BitOr(x: bv32, y: bv32, i: nat)
    ensures Bit(Or(x, y), i) <==> Bit(x, i) || Bit(y, i)
  {
    hide One, Has, Or;
    OrWord(x, y, One(i));
  }

  lemma BitNot(x: bv32, i: nat)
    requires i < 32
    ensures Bit(Not(x), i) <==> !Bit(x, i)
  {
    hide One, Has, Single, Not, Minus1, ClearLow;
    OneSingle(i);
    NotWord(x, One(i));
  }

  lemma BitHalf(x: bv32, i: nat)
    requires i < 32
    ensures Bit(Half(x), i) <==> i < 31 && Bit(x, i + 1)
  {
    hide One, Has, Single, IsTop, Half, Twice;
    OneSingle(i);
    OneStep(i);
    HasWord(x, One(i));
  }

  lemma BitTwice(x: bv32, i: nat)
    requires i < 32
    ensures Bit(Twice(x), i) <==> 0 < i && Bit(x, i - 1)
  {
    hide One, Has, Single, IsTop, Half, Twice;
    OneStep(0);
    HasWord(x, 0);
    HasWord(1, Twice(x));
    if i > 0 {
      OneStep(i - 1);
      OneSingle(i - 1);
      HasWord(x, One(i - 1));
    }
  }

  /** The bits below i. */
  lemma {:induction false} BitBelow(i: nat, j: nat)
    requires i < 32 && j < 32
    ensures Bit(Minus1(One(i)), j) <==> j < i
  {
    hide One, Has, Single, Twice, Or, Minus1;
    OneStep(0);
    if i == 0 {
      ZeroLess();
      HasWord(One(j), 0);
    } else {
      OneStep(i - 1);
      OneSingle(i - 1);
      TwiceWord(One(i - 1));
      BitBelow(i - 1, j);
      BitOr(Minus1(One(i - 1)), One(i - 1), j);
      BitOne(i - 1, j);
    }
  }

  lemma {:induction false} NothingBelow(x: bv32, i: nat)
    requires i < 32 && forall j :: 0 <= j < i ==> !Bit(x, j)
    ensures !Has(x, Minus1(One(i)))
  {
    hide One, Has, Single, Twice, Or, Minus1;
    OneStep(0);
    HasWord(x, 0);
    if i > 0 {
      OneStep(i - 1);
      NothingBelow(x, i - 1);
      OneSingle(i - 1);
      TwiceWord(One(i - 1));
      assert !Bit(x, i - 1);
      OrWord(Minus1(One(i - 1)), One(i - 1), x);
    } else {
      ZeroLess();
      HasWord(0, x);
    }
  }

  lemma ZeroLess()
    ensures Minus1(1) == 0
  {
  }

  lemma NothingAtAll(x: bv32)
    requires forall j :: 0 <= j < 32 ==> !Bit(x, j)
    ensures x == 0
  {
    hide One, Has, IsTop, Minus1;
    NothingBelow(x, 31);
    TopBit();
    assert !Bit(x, 31);
    TopWord(x, One(31));
  }

  /** avail & (avail - 1) clears the lowest set bit and no other. */
  lemma ClearLowest(x: bv32, i: nat, j: nat)
    requires i < 32 && j < 32 && Bit(x, i) && forall h :: 0 <= h < i ==> !Bit(x, h)
    ensures Bit(ClearLow(x), j) <==> Bit(x, j) && j != i
  {
    hide One, Has, Single, Not, Minus1, ClearLow;
    OneSingle(i);
    OneSingle(j);
    NothingBelow(x, i);
    ClearWord(x, One(i), One(j));
    BitOne(i, j);
    SingleHas(One(i));
  }

  /** __builtin_ctz: the position of the lowest set bit. */
  function Ctz(x: bv32): (i: nat)
    requires x != 0
    ensures i < 32 && Bit(x, i) && forall j :: 0 <= j < i ==> !Bit(x, j)
  {
    CtzFrom(x, 0)
  }

  function CtzFrom(x: bv32, k: nat): (i: nat)
    requires x != 0 && k < 32 && forall j :: 0 <= j < k ==> !Bit(x, j)
    ensures i < 32 && Bit(x, i) && forall j :: 0 <= j < i ==> !Bit(x, j)
    decreases 32 - k
  {
    hide Bit;
    if Bit(x, k) then k
    else
      assert k < 31 by {
        if k == 31 {
          NothingAtAll(x);
        }
      }
      CtzFrom(x, k + 1)
  }
}

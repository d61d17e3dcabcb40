/** Arbitrary-precision unsigned integers, updated in place. */
module BigInt {
  import opened Limbs

  const WORD64 := BASE * BASE  // 64-bit arithmetic wraps at this value

  lemma NormalIfBig(s: seq<nat>)
    requires Words(s) && s != [] && Pow(|s| - 1) <= Value(s)
    ensures Normal(s)
  {
    hide Pow, Value;
    if s[|s| - 1] == 0 {
      PopZero(s);
      ValueBound(s[..|s| - 1]);
    }
  }

  /** What one turn of a carry loop does to the limbs, with position i settled and the rest untouched. */
  lemma Settle(before: seq<nat>, after: seq<nat>, i: nat, digit: nat, carry: nat, sum: int)
    requires i < |before| && after == before[i := digit] && sum == digit + BASE * carry
    ensures Value(after[..i + 1]) + carry * Pow(i + 1) == Value(before[..i]) + sum * Pow(i)
    ensures after[i + 1..] == before[i + 1..]
  {
    hide Value;
    ValueTake(after, i);
    assert after[..i] == before[..i];
    CarryStep(Pow(i), digit, carry, sum);
  }

  class UnsignedInt {
    var limbs: seq<nat>

    ghost predicate Valid()
      reads this
    {
      Words(limbs)
    }

    ghost function V(): (v: nat)
      reads this
    {
      Value(limbs)
    }

    constructor (x: nat)
      requires x < BASE
      ensures Valid() && V() == x && Normal(limbs)
    {
      limbs := if x > 0 then [x] else [];
      ValueOne(x);
    }

    /** The copy constructor. */
    constructor Copy(x: UnsignedInt)
      ensures limbs == x.limbs
    {
      limbs := x.limbs;
    }

    method Assign(x: nat)
      requires x < BASE
      modifies this
      ensures Valid() && V() == x && Normal(limbs)
    {
      limbs := if x == 0 then [] else [x];
      ValueOne(x);
    }

    /** Adds a carry at position start and lets it run. */
    method Propagate(start: nat, carry0: nat)
      requires Valid() && start <= |limbs| && carry0 <= 1
      modifies this
      ensures Valid() && V() == old(V()) + carry0 * Pow(start)
      ensures |old(limbs)| <= |limbs| <= |old(limbs)| + 1
      ensures |limbs| > |old(limbs)| ==> limbs[|limbs| - 1] == 1
    {
      hide Pow, Value;
      var i, carry := start, carry0;
      ghost var before := limbs;
      while i < |limbs| && carry != 0
        invariant Valid() && start <= i <= |limbs| == |before| && 0 <= carry <= 1 && limbs[i..] == before[i..]
        invariant Value(limbs[..i]) + carry * Pow(i) == Value(before[..i]) + carry0 * Pow(start)
      {
        ghost var prev := limbs;
        var sum := limbs[i] + carry;
        assert sum < WORD64;
        limbs := limbs[i := sum % BASE];
        var carry' := if sum >= BASE then 1 else 0;
        Settle(prev, limbs, i, sum % BASE, carry', sum);
        assert prev[i..][0] == before[i..][0];
        ValueTake(before, i);
        Distribute(prev[i], carry, Pow(i));
        assert before[i..][1..] == before[i + 1..] && prev[i..][1..] == prev[i + 1..];
        carry := carry';
        i := i + 1;
      }
      ValueSplit(limbs, i);
      ValueSplit(before, i);
      if carry != 0 {
        assert limbs[..i] == limbs && before[..i] == before;
        ValueSnoc(limbs, carry);
        limbs := limbs + [carry];
      } else {
        Times(carry, Pow(i));
      }
    }

    /** add(uint32_t): exact, and normal unless 0 is added to the empty number, which then gets a zero limb. */
    method AddSmall(x: nat)
      requires Valid() && x < BASE
      modifies this
      ensures Valid() && V() == old(V()) + x
      ensures Normal(old(limbs)) ==> (Normal(limbs) <==> old(limbs) != [] || x != 0)
      ensures old(limbs) == [] ==> limbs == [x]
      ensures |old(limbs)| <= |limbs| && (old(limbs) != [] && |limbs| > |old(limbs)| ==> limbs[|limbs| - 1] != 0)
    {
      hide Pow, Value;
      ghost var before := limbs;
      if limbs == [] {
        ValueSnoc([], x);
        PowZero();
        limbs := [x];
        assert [] + [x] == [x];
        return;
      }
      var sum := limbs[0] + x;
      limbs := limbs[0 := sum % BASE];
      var carry := if sum >= BASE then 1 else 0;
      Settle(before, limbs, 0, sum % BASE, carry, sum);
      ValueSplit(limbs, 1);
      ValueSplit(before, 1);
      ValueTake(before, 0);
      PowZero();
      Propagate(1, carry);
      if Normal(before) && |limbs| == |before| {
        NormalBound(before);
        NormalIfBig(limbs);
      }
    }

    /** add(const UnsignedInt&); x may be this object itself. */
    method Add(x: UnsignedInt)
      requires Valid() && x.Valid()
      modifies this
      ensures Valid() && V() == old(V()) + old(x.V())
      ensures Normal(old(limbs)) && Normal(old(x.limbs)) ==> Normal(limbs)
    {
      hide Pow, Value;
      ghost var a, b := limbs, x.limbs;
      if |x.limbs| > |limbs| {
        PadValue(limbs, |x.limbs| - |limbs|);
        limbs := limbs + seq(|x.limbs| - |limbs|, _ => 0);
      }
      ghost var before := limbs;
      var len := |x.limbs|;
      var carry := 0;
      EmptyPrefix(before, b);
      for i := 0 to len
        invariant Valid() && x.Valid() && |limbs| == |before| && |x.limbs| == |b| && 0 <= carry <= 1
        invariant limbs[i..] == before[i..] && x.limbs[i..] == b[i..]
        invariant Value(limbs[..i]) + carry * Pow(i) == Value(before[..i]) + Value(b[..i])
      {
        ghost var prev := limbs;
        assert limbs[i] == limbs[i..][0] == before[i..][0] && x.limbs[i] == x.limbs[i..][0] == b[i..][0];
        var sum := limbs[i] + x.limbs[i] + carry;
        assert sum < WORD64;
        ghost var xs := x.limbs;
        limbs := limbs[i := sum % BASE];
        var carry' := if sum >= BASE then 1 else 0;
        AddSettle(before, b, prev, limbs, i, carry, carry', sum);
        TailDrops(prev, before, i);
        TailDrops(xs, b, i);
        carry := carry';
      }
      assert b[..len] == b;
      ValueSplit(limbs, len);
      ValueSplit(before, len);
      ghost var mid := limbs;
      Propagate(len, carry);
      SumIsNormal(a, b, limbs, before);
    }

    /** Exact on normal forms: compares the lengths, then the limbs from the top. */
    method LessThan(x: UnsignedInt) returns (less: bool)
      requires Valid() && x.Valid()
      ensures Normal(limbs) && Normal(x.limbs) ==> (less <==> V() < x.V())
      ensures !less ==> |x.limbs| <= |limbs|
    {
      hide Pow, Value;
      if |x.limbs| != |limbs| {
        less := |x.limbs| > |limbs|;
        if Normal(limbs) && Normal(x.limbs) {
          LongerIsMore(if less then limbs else x.limbs, if less then x.limbs else limbs);
        }
        return;
      }
      var i := |limbs|;
      while i > 0 && limbs[i - 1] == x.limbs[i - 1]
        invariant 0 <= i <= |limbs| && limbs[i..] == x.limbs[i..]
      {
        i := i - 1;
        assert limbs[i..] == [limbs[i]] + limbs[i + 1..] && x.limbs[i..] == [x.limbs[i]] + x.limbs[i + 1..];
      }
      ValueSplit(limbs, i);
      ValueSplit(x.limbs, i);
      if i == 0 {
        EmptyPrefix(limbs, x.limbs);
        return false;
      }
      less := limbs[i - 1] < x.limbs[i - 1];
      TopDecides(limbs, x.limbs, i - 1);
    }

    /** Takes a borrow from position start on; it must be covered. */
    method Borrow(start: nat, borrow0: nat) returns (borrow: nat)
      requires Valid() && start <= |limbs| && borrow0 <= 1
      modifies this
      ensures Valid() && |limbs| == |old(limbs)| && borrow <= 1
      ensures V() - borrow * Pow(|limbs|) == old(V()) - borrow0 * Pow(start)
    {
      hide Pow, Value;
      var i := start;
      borrow := borrow0;
      ghost var before := limbs;
      while i < |limbs| && borrow != 0
        invariant Valid() && start <= i <= |limbs| == |before| && borrow <= 1 && limbs[i..] == before[i..]
        invariant Value(limbs[..i]) - borrow * Pow(i) == Value(before[..i]) - borrow0 * Pow(start)
      {
        ghost var prev := limbs;
        assert prev[i] == prev[i..][0] == before[i..][0];
        var diff := limbs[i] - borrow;
        var sum := if diff < 0 then diff + WORD64 else diff;
        limbs := limbs[i := sum % BASE];
        var borrow' := if sum >= BASE then 1 else 0;
        WrapWord(diff, sum);
        SettleBorrow(prev, limbs, i, sum % BASE, borrow', diff);
        ValueTake(before, i);
        Minus(before[i], 0, borrow, Pow(i));
        assert before[i..][1..] == before[i + 1..] && prev[i..][1..] == prev[i + 1..];
        borrow := borrow';
        i := i + 1;
      }
      ValueSplit(limbs, i);
      ValueSplit(before, i);
      Times(borrow, Pow(i));
      Times(borrow, Pow(|limbs|));
    }

    /** sub: exact and normal when it succeeds; on normal forms it fails only when there is nothing to subtract from.
        Where the original aborts, the number keeps whatever limbs it had then. */
    method Sub(x: UnsignedInt) returns (ok: bool)
      requires Valid() && x.Valid()
      modifies this
      ensures ok ==> Valid() && V() == old(V()) - old(x.V()) && Normal(limbs)
      ensures Normal(old(limbs)) && Normal(old(x.limbs)) ==> (ok <==> old(x.V()) <= old(V()))
    {
      hide Pow, Value;
      ghost var before, b := limbs, x.limbs;
      var less := LessThan(x);
      if less {
        return false;
      }
      var len := |x.limbs|;
      var borrow: nat := 0;
      EmptyPrefix(before, b);
      for i := 0 to len
        invariant Valid() && x.Valid() && |limbs| == |before| && |x.limbs| == |b| && borrow <= 1
        invariant limbs[i..] == before[i..] && x.limbs[i..] == b[i..]
        invariant Value(limbs[..i]) - borrow * Pow(i) == Value(before[..i]) - Value(b[..i])
      {
        ghost var prev, xs := limbs, x.limbs;
        assert prev[i] == prev[i..][0] == before[i..][0] && xs[i] == xs[i..][0] == b[i..][0];
        var diff := limbs[i] - x.limbs[i] - borrow;
        var sum := if diff < 0 then diff + WORD64 else diff;
        limbs := limbs[i := sum % BASE];
        var borrow' := if sum >= BASE then 1 else 0;
        WrapWord(diff, sum);
        SettleBorrow(prev, limbs, i, sum % BASE, borrow', diff);
        ValueTake(before, i);
        ValueTake(b, i);
        Minus(before[i], b[i], borrow, Pow(i));
        assert before[i..][1..] == before[i + 1..] && prev[i..][1..] == prev[i + 1..];
        assert b[i..][1..] == b[i + 1..] && xs[i..][1..] == xs[i + 1..];
        borrow := borrow';
      }
      assert b[..len] == b;
      ValueSplit(limbs, len);
      ValueSplit(before, len);
      borrow := Borrow(len, borrow);
      Times(borrow, Pow(|limbs|));
      ValueBound(limbs);
      if borrow != 0 {
        return false;
      }
      while limbs != [] && limbs[|limbs| - 1] == 0
        invariant Valid() && V() == Value(before) - Value(b)
      {
        PopZero(limbs);
        limbs := limbs[..|limbs| - 1];
      }
      ok := true;
    }

    method MulSmall(x: nat)
      requires Valid() && x < BASE
      modifies this
      ensures Valid() && V() == old(V()) * x && (Normal(old(limbs)) ==> Normal(limbs))
      ensures x > 0 ==> |old(limbs)| <= |limbs| && (|limbs| > |old(limbs)| ==> limbs[|limbs| - 1] != 0)
    {
      hide Pow, Value;
      ghost var before := limbs;
      EmptyPrefix(before, before);
      if x == 0 {
        limbs := [];
        PowZero();
        return;
      }
      var carry := 0;
      for i := 0 to |limbs|
        invariant Valid() && |limbs| == |before| && 0 <= carry < BASE && limbs[i..] == before[i..]
        invariant Value(limbs[..i]) + carry * Pow(i) == Value(before[..i]) * x
      {
        ghost var prev := limbs;
        assert prev[i] == prev[i..][0] == before[i..][0];
        ProductFits(limbs[i], x, carry, 0);
        var prod := limbs[i] * x + carry;
        assert prod < WORD64;
        limbs := limbs[i := prod % BASE];
        MulSettle(before, prev, limbs, i, x, carry, prod);
        assert before[i..][1..] == before[i + 1..] && prev[i..][1..] == prev[i + 1..];
        carry := prod / BASE;
      }
      assert limbs[..|limbs|] == limbs && before[..|limbs|] == before;
      if carry != 0 {
        ValueSnoc(limbs, carry);
        limbs := limbs + [carry];
      } else {
        Times(carry, Pow(|limbs|));
        if Normal(before) && before != [] {
          NormalBound(before);
          AtLeast(Value(before), x);
          NormalIfBig(limbs);
        }
      }
    }

    /** multiply(const UnsignedInt&); x may be this object itself. */
    method Mul(x: UnsignedInt)
      requires Valid() && x.Valid()
      modifies this
      ensures Valid() && V() == old(V()) * old(x.V())
      ensures Normal(old(limbs)) && Normal(old(x.limbs)) ==> Normal(limbs)
    {
      var product := Product(limbs, x.limbs);
      limbs := product;
    }

    /** devide: quotient in place, remainder returned. */
    method Divide(x: nat) returns (rem: nat)
      requires Valid() && 0 < x < BASE
      modifies this
      ensures Valid() && old(V()) == V() * x + rem && rem < x && |limbs| <= |old(limbs)|
      ensures Normal(limbs) <==> |old(limbs)| <= 1 || old(V()) >= x * Pow(|old(limbs)| - 2)
      ensures Normal(old(limbs)) ==> Normal(limbs)
    {
      limbs, rem := Quotient(limbs, x);
    }

    /** The assignment operator. */
    method CopyFrom(x: UnsignedInt)
      modifies this
      ensures limbs == old(x.limbs)
    {
      limbs := x.limbs;
    }

    method Swap(x: UnsignedInt)
      modifies this, x
      ensures limbs == old(x.limbs) && x.limbs == old(limbs)
    {
      limbs, x.limbs := x.limbs, limbs;
    }

    /** Repeated squaring; the squaring is a multiplication of this object by itself. */
    method Power(n: nat)
      requires Valid() && n < BASE
      modifies this
      ensures Valid() && V() == Exp(old(V()), n)
      ensures Normal(old(limbs)) ==> Normal(limbs)
    {
      hide Pow, Value;
      if n == 0 {
        Assign(1);
      } else if n > 1 {
        ghost var v := V();
        var result := new UnsignedInt(1);
        var k := n;
        Times(1, Exp(v, n));
        while k != 0
          invariant fresh(result) && Valid() && result.Valid() && 0 <= k
          invariant result.V() * Exp(V(), k) == Exp(v, n)
          invariant Normal(old(limbs)) ==> Normal(limbs) && Normal(result.limbs)
        {
          SquareStep(result.V(), V(), k);
          if k % 2 == 1 {
            result.Mul(this);
          }
          Mul(this);
          k := k / 2;
        }
        Swap(result);
      } else {
        ExpOne(V());
      }
    }
  }

  /** The limbs of a product, row by row; at most one leading zero has to go. */
  method Product(a: seq<nat>, b: seq<nat>) returns (result: seq<nat>)
    requires Words(a) && Words(b)
    ensures Words(result) && Value(result) == Value(a) * Value(b)
    ensures Normal(a) && Normal(b) ==> Normal(result)
  {
    if a == [] || b == [] {
      result := [];
      Times(Value(a), Value(b));
      return;
    }
    hide Pow, Value;
    result := seq(|a| + |b|, _ => 0);
    ValueZeros(result);
    EmptyPrefix(b, result);
    for i := 0 to |b|
      invariant Words(result) && |result| == |a| + |b|
      invariant forall k :: i + |a| <= k < |result| ==> result[k] == 0
      invariant Value(result) == Value(a) * Value(b[..i])
    {
      ValueTake(b, i);
      if b[i] != 0 {
        ghost var before := result;
        result := MulRow(a, b[i], result, i);
        ZeroTail(before, result, i + |a| + 1);
      }
      NextRow(Value(a), Value(b[..i]), b[i], Pow(i));
    }
    assert b[..|b|] == b;
    ProductSize(a, b, result);
    if result[|result| - 1] == 0 {
      PopZero(result);
      result := result[..|result| - 1];
    }
  }

  lemma ZeroTail(before: seq<nat>, after: seq<nat>, i: nat)
    requires i <= |before| == |after| && after[i..] == before[i..]
    ensures forall k :: i <= k < |after| ==> after[k] == before[k]
  {
    forall k | i <= k < |after|
      ensures after[k] == before[k]
    {
      assert after[i..][k - i] == before[i..][k - i];
    }
  }

  function Div(a: nat, x: nat): nat
    requires x > 0
  {
    a / x
  }

  function Mod(a: nat, x: nat): nat
    requires x > 0
  {
    a % x
  }

  /** Long division by one limb, from the top limb down. */
  method Quotient(a: seq<nat>, x: nat) returns (q: seq<nat>, rem: nat)
    requires Words(a) && 0 < x < BASE
    ensures Words(q) && Value(a) == Value(q) * x + rem && rem < x && |q| <= |a|
    ensures Normal(q) <==> |a| <= 1 || Value(a) >= x * Pow(|a| - 2)
    ensures Normal(a) ==> Normal(q)
  {
    hide Pow, Value, Div, Mod;
    q, rem := a, 0;
    EmptyPrefix(a, a);
    var i := |q|;
    assert q[i..] == q[..0] && a[i..] == a[..0];
    while i > 0
      invariant 0 <= i <= |q| == |a| && Words(q) && rem < x && q[..i] == a[..i]
      invariant Value(a[i..]) == Value(q[i..]) * x + rem
    {
      ghost var prev := q;
      i := i - 1;
      assert prev[i] == prev[..i + 1][i] == a[..i + 1][i];
      var prod := rem * BASE + q[i];
      QuotientFits(rem, q[i], x);
      q := q[i := Div(prod, x)];
      DivStep(a, prev, q, i, x, rem, prod);
      assert q[..i] == prev[..i + 1][..i] && a[..i + 1][..i] == a[..i];
      rem := Mod(prod, x);
    }
    assert a[0..] == a && q[0..] == q;
    QuotientSize(a, q, x, rem);
    if q != [] && q[|q| - 1] == 0 {
      PopZero(q);
      q := q[..|q| - 1];
    }
  }

  /** One row of the schoolbook product: adds r times a, shifted by i places. */
  method MulRow(a: seq<nat>, r: nat, result: seq<nat>, i: nat) returns (res: seq<nat>)
    requires Words(a) && Words(result) && r < BASE && i + |a| < |result| && result[i + |a|] == 0
    ensures Words(res) && |res| == |result| && res[i + |a| + 1..] == result[i + |a| + 1..]
    ensures Value(res) == Value(result) + (r * Value(a)) * Pow(i)
  {
    hide Pow, Value;
    res := result;
    var carry := 0;
    EmptyPrefix(a, a);
    Times(r * 0, Pow(i));
    for j := 0 to |a|
      invariant Words(res) && |res| == |result| && 0 <= carry < BASE && res[i + j..] == result[i + j..]
      invariant Value(res[..i + j]) + carry * Pow(i + j) == Value(result[..i + j]) + (r * Value(a[..j])) * Pow(i)
    {
      ghost var prev := res;
      assert prev[i + j] == prev[i + j..][0] == result[i + j..][0];
      ProductFits(r, a[j], carry, res[i + j]);
      var prod := r * a[j] + res[i + j] + carry;
      assert prod < WORD64;
      res := res[i + j := prod % BASE];
      RowStep(a, r, result, prev, res, i, j, carry, prod);
      carry := prod / BASE;
    }
    assert a[..|a|] == a;
    var k := i + |a|;
    ghost var prev := res;
    assert prev[k] == prev[k..][0] == result[k..][0];
    res := res[k := carry];
    LastLimb(result, prev, res, k, carry);
  }

  lemma ValueOne(x: nat)
    ensures Value([x]) == x && Value([]) == 0
  {
    assert [x][1..] == [];
  }

  lemma PowZero()
    ensures Pow(0) == 1 && Value([]) == 0
  {
  }

  lemma EmptyPrefix(a: seq<nat>, b: seq<nat>)
    ensures Value(a[..0]) == 0 && Value(b[..0]) == 0 && Pow(0) == 1
  {
  }

  lemma PadValue(s: seq<nat>, n: nat)
    requires Words(s)
    ensures Value(s + seq(n, _ => 0)) == Value(s) && Words(s + seq(n, _ => 0))
  {
    hide Pow;
    var zeros := seq(n, _ => 0);
    ValueConcat(s, zeros);
    ValueZeros(zeros);
  }

  lemma SumIsNormal(a: seq<nat>, b: seq<nat>, r: seq<nat>, before: seq<nat>)
    requires Words(a) && Words(b) && Words(r) && Value(r) == Value(a) + Value(b)
    requires |before| == (if |b| > |a| then |b| else |a|) && |before| <= |r| <= |before| + 1
    requires |r| > |before| ==> r[|r| - 1] == 1
    ensures Normal(a) && Normal(b) ==> Normal(r)
  {
    hide Pow, Value;
    if Normal(a) && Normal(b) && |r| == |before| && r != [] {
      if |b| > |a| {
        NormalBound(b);
      } else {
        NormalBound(a);
      }
      NormalIfBig(r);
    }
  }

  lemma LongerIsMore(a: seq<nat>, b: seq<nat>)
    requires Words(a) && Words(b) && |a| < |b| && Normal(b)
    ensures Value(a) < Value(b)
  {
    hide Pow, Value;
    ValueBound(a);
    NormalBound(b);
    PowMono(|a|, |b| - 1);
  }

  /** The highest limb in which two numbers differ decides. */
  lemma TopDecides(a: seq<nat>, b: seq<nat>, i: nat)
    requires Words(a) && Words(b) && |a| == |b| && i < |a| && a[i] != b[i] && a[i + 1..] == b[i + 1..]
    ensures Value(a) < Value(b) <==> a[i] < b[i]
  {
    hide Pow, Value;
    ValueSplit(a, i + 1);
    ValueSplit(b, i + 1);
    ValueTake(a, i);
    ValueTake(b, i);
    ValueBound(a[..i]);
    ValueBound(b[..i]);
    if a[i] < b[i] {
      OneMore(a[i], b[i], Pow(i));
    } else {
      OneMore(b[i], a[i], Pow(i));
    }
  }

  lemma OneMore(a: nat, b: nat, p: nat)
    requires a < b
    ensures a * p + p <= b * p
  {
    MulMono(a + 1, b, p);
    Distribute(a, 1, p);
  }

  /** 64-bit wrap-around: the low half of the wrapped difference and whether it wrapped. */
  lemma WrapWord(diff: int, sum: int)
    requires -BASE <= diff < BASE && sum == if diff < 0 then diff + WORD64 else diff
    ensures 0 <= sum % BASE < BASE && diff == sum % BASE - BASE * if sum >= BASE then 1 else 0
  {
  }

  lemma Minus(a: int, b: int, c: int, p: int)
    ensures (a - b - c) * p == a * p - b * p - c * p && (0 - b) * p == 0 - b * p
  {
  }

  lemma SettleBorrow(before: seq<nat>, after: seq<nat>, i: nat, digit: nat, borrow: nat, diff: int)
    requires i < |before| && after == before[i := digit] && diff == digit - BASE * borrow
    ensures Value(after[..i + 1]) - borrow * Pow(i + 1) == Value(before[..i]) + diff * Pow(i)
    ensures after[i + 1..] == before[i + 1..]
  {
    hide Value;
    ValueTake(after, i);
    assert after[..i] == before[..i];
    var lent: int := borrow;
    CarryStep(Pow(i), digit, 0 - lent, diff);
    Minus(0, lent, 0, BASE * Pow(i));
  }

  /** The largest intermediate product is exactly the largest 64-bit word. */
  lemma ProductFits(a: nat, x: nat, carry: nat, part: nat)
    requires a < BASE && x < BASE && carry < BASE && part < BASE
    ensures a * x + part + carry <= (BASE - 1) * (BASE - 1) + 2 * (BASE - 1) == WORD64 - 1
    ensures (a * x + part + carry) / BASE < BASE
  {
    MulMono(a, BASE - 1, x);
    MulMono(x, BASE - 1, BASE - 1);
  }

  lemma Swap(a: int, p: int, x: int)
    ensures (a * p) * x == (a * x) * p
  {
    MulAssoc(a, p, x);
    MulAssoc(a, x, p);
    Commute(p, x);
  }

  lemma AtLeast(v: nat, x: nat)
    requires x >= 1
    ensures v <= v * x
  {
    MulMono(1, x, v);
  }

  lemma AddSettle(before: seq<nat>, b: seq<nat>, prev: seq<nat>, after: seq<nat>, i: nat, carry: nat, carry': nat, sum: nat)
    requires i < |before| == |prev| && i < |b| && prev[i] == before[i]
    requires sum == before[i] + b[i] + carry && after == prev[i := sum % BASE] && sum == sum % BASE + BASE * carry'
    requires Value(prev[..i]) + carry * Pow(i) == Value(before[..i]) + Value(b[..i])
    ensures Value(after[..i + 1]) + carry' * Pow(i + 1) == Value(before[..i + 1]) + Value(b[..i + 1])
    ensures after[i + 1..] == prev[i + 1..]
  {
    hide Pow, Value;
    Settle(prev, after, i, sum % BASE, carry', sum);
    ValueTake(before, i);
    ValueTake(b, i);
    Distribute(before[i] + b[i], carry, Pow(i));
    Distribute(before[i], b[i], Pow(i));
  }

  lemma TailDrops(a: seq<nat>, b: seq<nat>, i: nat)
    requires i < |a| == |b| && a[i..] == b[i..]
    ensures a[i + 1..] == b[i + 1..]
  {
    assert a[i..][1..] == a[i + 1..] && b[i..][1..] == b[i + 1..];
  }

  lemma MulSettle(before: seq<nat>, prev: seq<nat>, after: seq<nat>, i: nat, x: nat, carry: nat, prod: nat)
    requires i < |before| == |prev| && prev[i] == before[i] && after == prev[i := prod % BASE]
    requires prod == before[i] * x + carry && Value(prev[..i]) + carry * Pow(i) == Value(before[..i]) * x
    ensures Value(after[..i + 1]) + (prod / BASE) * Pow(i + 1) == Value(before[..i + 1]) * x
    ensures after[i + 1..] == prev[i + 1..]
  {
    hide Pow, Value;
    Settle(prev, after, i, prod % BASE, prod / BASE, prod);
    ValueTake(before, i);
    Distribute(Value(before[..i]), before[i] * Pow(i), x);
    Distribute(before[i] * x, carry, Pow(i));
    Swap(before[i], Pow(i), x);
  }

  lemma RowStep(a: seq<nat>, r: nat, result: seq<nat>, prev: seq<nat>, res: seq<nat>, i: nat, j: nat, carry: nat, prod: nat)
    requires j < |a| && i + j < |result| == |prev| && prev[i + j..] == result[i + j..] && res == prev[i + j := prod % BASE]
    requires prod == r * a[j] + prev[i + j] + carry
    requires Value(prev[..i + j]) + carry * Pow(i + j) == Value(result[..i + j]) + (r * Value(a[..j])) * Pow(i)
    ensures Value(res[..i + j + 1]) + (prod / BASE) * Pow(i + j + 1) == Value(result[..i + j + 1]) + (r * Value(a[..j + 1])) * Pow(i)
    ensures res[i + j + 1..] == result[i + j + 1..]
  {
    hide Pow, Value;
    var k := i + j;
    Settle(prev, res, k, prod % BASE, prod / BASE, prod);
    assert prev[k] == prev[k..][0] == result[k..][0] == result[k];
    ValueTake(result, k);
    ValueTake(a, j);
    Distribute(r * a[j] + result[k], carry, Pow(k));
    Distribute(r * a[j], result[k], Pow(k));
    Distribute(Value(a[..j]), a[j] * Pow(j), r);
    Distribute(r * Value(a[..j]), r * (a[j] * Pow(j)), Pow(i));
    PowAdd(i, j);
    Regroup(r, a[j], Pow(j), Pow(i), Pow(k));
    assert res[k + 1..] == prev[k..][1..] && result[k + 1..] == result[k..][1..];
  }

  lemma Regroup(r: int, d: int, pj: int, pi: int, pk: int)
    requires pk == pi * pj
    ensures (r * (d * pj)) * pi == (r * d) * pk
  {
    MulAssoc(r, d, pj);
    MulAssoc(r * d, pj, pi);
    Commute(pj, pi);
  }

  lemma LastLimb(result: seq<nat>, prev: seq<nat>, res: seq<nat>, k: nat, carry: nat)
    requires k < |result| == |prev| && prev[k..] == result[k..] && result[k] == 0 && res == prev[k := carry]
    ensures Value(res) == Value(result) + (Value(prev[..k]) + carry * Pow(k) - Value(result[..k]))
    ensures res[k + 1..] == result[k + 1..]
  {
    hide Pow, Value;
    ValueSplit(res, k + 1);
    ValueSplit(result, k + 1);
    ValueTake(res, k);
    ValueTake(result, k);
    Times(result[k], Pow(k));
    assert res[..k] == prev[..k];
    assert res[k + 1..] == prev[k..][1..] && result[k + 1..] == result[k..][1..];
  }

  lemma NextRow(v: int, w: int, d: int, p: int)
    ensures v * (w + d * p) == v * w + (d * v) * p
    ensures d == 0 ==> v * (w + d * p) == v * w
  {
    Distribute(w, d * p, v);
    MulAssoc(v, d, p);
    Commute(v, d);
  }

  /** The product of two numbers in normal form fills all but at most one of its places. */
  lemma ProductSize(a: seq<nat>, b: seq<nat>, r: seq<nat>)
    requires Words(a) && Words(b) && a != [] && b != [] && Words(r) && |r| == |a| + |b| && Value(r) == Value(a) * Value(b)
    ensures Normal(a) && Normal(b) && r[|r| - 1] == 0 ==> Normal(r[..|r| - 1])
  {
    hide Pow, Value;
    if Normal(a) && Normal(b) && r[|r| - 1] == 0 {
      NormalBound(a);
      NormalBound(b);
      PowAdd(|a| - 1, |b| - 1);
      MulMono(Pow(|a| - 1), Value(a), Pow(|b| - 1));
      MulMono(Pow(|b| - 1), Value(b), Value(a));
      PopOne(r);
    }
  }

  lemma QuotientFits(carry: nat, limb: nat, x: nat)
    requires carry < x < BASE && limb < BASE
    ensures Div(carry * BASE + limb, x) < BASE && Mod(carry * BASE + limb, x) < x && carry * BASE + limb < WORD64
  {
    MulMono(carry + 1, x, BASE);
    DivLess(carry * BASE + limb, x, BASE);
  }

  lemma DivLess(a: nat, x: nat, b: nat)
    requires x > 0 && a < x * b
    ensures a / x < b
  {
    var q := a / x;
    DivMod(a, x);
    if q >= b {
      MulMono(b, q, x);
      Commute(q, x);
      Commute(b, x);
    }
  }

  lemma DivMod(a: nat, x: nat)
    requires x > 0
    ensures a == (a / x) * x + a % x && 0 <= a / x && a % x < x
  {
  }

  lemma ValueHead(s: seq<nat>, i: nat)
    requires i < |s|
    ensures Value(s[i..]) == s[i] + BASE * Value(s[i + 1..])
  {
    assert s[i..][1..] == s[i + 1..];
  }

  lemma DivStep(before: seq<nat>, prev: seq<nat>, after: seq<nat>, i: nat, x: nat, carry: nat, prod: nat)
    requires i < |before| == |prev| && prev[i] == before[i] && x > 0 && after == prev[i := Div(prod, x)]
    requires prod == carry * BASE + before[i] && Value(before[i + 1..]) == Value(prev[i + 1..]) * x + carry
    ensures Value(before[i..]) == Value(after[i..]) * x + Mod(prod, x)
  {
    hide Pow, Value;
    ValueHead(before, i);
    ValueHead(after, i);
    assert after[i + 1..] == prev[i + 1..];
    DivMod(prod, x);
    var q := Value(prev[i + 1..]);
    Distribute(prod / x, BASE * q, x);
    MulAssoc(BASE, q, x);
    Distribute(q * x, carry, BASE);
  }

  /** Dropping one leading zero of a quotient by one limb is enough exactly if the dividend is not too small for its places. */
  lemma QuotientSize(a: seq<nat>, q: seq<nat>, x: nat, rem: nat)
    requires Words(a) && Words(q) && |q| == |a| && 0 < x < BASE && rem < x && Value(a) == Value(q) * x + rem
    ensures var r := if q != [] && q[|q| - 1] == 0 then q[..|q| - 1] else q;
      && (Normal(r) <==> |a| <= 1 || Value(a) >= x * Pow(|a| - 2))
      && (Normal(a) ==> Normal(r))
  {
    hide Pow, Value;
    if |q| >= 2 {
      var p := Pow(|q| - 2);
      PowStep(|q| - 2);
      QuotientSmall(Value(q), p, x, rem);
      PlacesLeft(q);
      if Normal(a) {
        NormalBound(a);
        MulMono(x, BASE, p);
      }
    }
  }

  lemma PlacesLeft(q: seq<nat>)
    requires Words(q) && |q| >= 2
    ensures var r := if q[|q| - 1] == 0 then q[..|q| - 1] else q; Normal(r) <==> Value(q) >= Pow(|q| - 2)
  {
    hide Pow, Value;
    if q[|q| - 1] != 0 {
      NormalBound(q);
      PowMono(|q| - 2, |q| - 1);
    } else {
      PopZero(q);
      if Value(q) >= Pow(|q| - 2) {
        PopOne(q);
      } else if Normal(q[..|q| - 1]) {
        NormalBound(q[..|q| - 1]);
      }
    }
  }

  lemma PowStep(i: nat)
    ensures Pow(i + 1) == BASE * Pow(i)
  {
  }

  lemma QuotientSmall(q: nat, p: nat, x: nat, rem: nat)
    requires 0 < x && rem < x
    ensures q * x + rem >= x * p <==> q >= p
  {
    Commute(x, p);
    if q < p {
      MulMono(q + 1, p, x);
      Distribute(q, 1, x);
    } else {
      MulMono(p, q, x);
    }
  }

  // ---------------------------------------------------------------- powers

  ghost function Exp(b: nat, n: nat): (p: nat) {
    if n == 0 then 1 else b * Exp(b, n - 1)
  }

  lemma ExpOne(b: nat)
    ensures Exp(b, 1) == b
  {
    assert Exp(b, 0) == 1;
  }

  lemma {:induction false} ExpAdd(b: nat, m: nat, n: nat)
    ensures Exp(b, m + n) == Exp(b, m) * Exp(b, n)
  {
    if m == 0 {
      Times(1, Exp(b, n));
    } else {
      ExpAdd(b, m - 1, n);
      MulAssoc(b, Exp(b, m - 1), Exp(b, n));
    }
  }

  lemma {:induction false} ExpSquare(b: nat, n: nat)
    ensures Exp(b * b, n) == Exp(b, 2 * n)
  {
    if n == 0 {
    } else {
      ExpSquare(b, n - 1);
      assert Exp(b, 2 * n) == b * Exp(b, 2 * n - 1) == b * (b * Exp(b, 2 * n - 2));
      MulAssoc(b, b, Exp(b, 2 * n - 2));
    }
  }

  lemma SquareStep(r: nat, b: nat, k: nat)
    requires k > 0
    ensures (if k % 2 == 1 then r * b else r) * Exp(b * b, k / 2) == r * Exp(b, k)
  {
    ExpSquare(b, k / 2);
    if k % 2 == 1 {
      assert k == 2 * (k / 2) + 1;
      MulAssoc(r, b, Exp(b, k - 1));
    } else {
      assert k == 2 * (k / 2);
    }
  }
}

/** Natural numbers as sequences of 32-bit limbs, least significant first. */
module Limbs {

  const BASE := 0x1_0000_0000

  ghost predicate Words(s: seq<nat>) {
    forall i :: 0 <= i < |s| ==> s[i] < BASE
  }

  /** No leading zero limb. */
  predicate Normal(s: seq<nat>) {
    s == [] || s[|s| - 1] != 0
  }

  ghost function Pow(i: nat): (p: nat)
    ensures p > 0
  {
    if i == 0 then 1 else BASE * Pow(i - 1)
  }

  /** The number that the limbs stand for. */
  ghost function Value(s: seq<nat>): (v: nat) {
    if s == [] then 0 else s[0] + BASE * Value(s[1..])
  }

  // ---------------------------------------------------------------- arithmetic facts

  lemma MulAssoc(a: int, b: int, c: int)
    ensures a * (b * c) == (a * b) * c
  {
  }

  lemma Distribute(a: int, b: int, c: int)
    ensures (a + b) * c == a * c + b * c && c * (a + b) == c * a + c * b
  {
  }

  lemma MulMono(a: nat, b: nat, c: nat)
    requires a <= b
    ensures a * c <= b * c && c * a <= c * b
  {
  }

  /** One step of any carry loop: what is carried is worth BASE times as much one place up. */
  lemma CarryStep(p: int, digit: int, carry: int, sum: int)
    requires sum == digit + BASE * carry
    ensures digit * p + carry * (BASE * p) == sum * p
  {
    MulAssoc(carry, BASE, p);
    Distribute(digit, carry * BASE, p);
  }

  lemma {:induction false} PowAdd(i: nat, j: nat)
    ensures Pow(i + j) == Pow(i) * Pow(j)
  {
    if i == 0 {
    } else {
      PowAdd(i - 1, j);
      MulAssoc(BASE, Pow(i - 1), Pow(j));
    }
  }

  // ---------------------------------------------------------------- the value of a sequence of limbs

  lemma {:induction false} ValueConcat(a: seq<nat>, b: seq<nat>)
    ensures Value(a + b) == Value(a) + Pow(|a|) * Value(b)
  {
    if a == [] {
      assert a + b == b;
    } else {
      ValueConcat(a[1..], b);
      assert (a + b)[1..] == a[1..] + b;
      Distribute(Value(a[1..]), Pow(|a| - 1) * Value(b), BASE);
      MulAssoc(BASE, Pow(|a| - 1), Value(b));
    }
  }

  lemma ValueSnoc(a: seq<nat>, d: nat)
    ensures Value(a + [d]) == Value(a) + d * Pow(|a|)
  {
    hide Pow;
    ValueConcat(a, [d]);
    assert Value([d]) == d by {
      assert [d][1..] == [];
    }
    Commute(Pow(|a|), d);
  }

  lemma Commute(a: int, b: int)
    ensures a * b == b * a
  {
  }

  lemma ValueTake(s: seq<nat>, i: nat)
    requires i < |s|
    ensures Value(s[..i + 1]) == Value(s[..i]) + s[i] * Pow(i)
  {
    assert s[..i + 1] == s[..i] + [s[i]];
    ValueSnoc(s[..i], s[i]);
  }

  lemma ValueSplit(s: seq<nat>, i: nat)
    requires i <= |s|
    ensures Value(s) == Value(s[..i]) + Pow(i) * Value(s[i..])
  {
    assert s == s[..i] + s[i..];
    ValueConcat(s[..i], s[i..]);
  }

  lemma {:induction false} ValueZeros(s: seq<nat>)
    requires forall i :: 0 <= i < |s| ==> s[i] == 0
    ensures Value(s) == 0
  {
    if s == [] {
    } else {
      ValueZeros(s[1..]);
    }
  }

  lemma {:induction false} ValueBound(s: seq<nat>)
    requires Words(s)
    ensures Value(s) < Pow(|s|)
  {
    if s == [] {
    } else {
      ValueBound(s[1..]);
      MulMono(Value(s[1..]) + 1, Pow(|s| - 1), BASE);
    }
  }

  /** A number in normal form fills its top limb. */
  lemma NormalBound(s: seq<nat>)
    requires Normal(s) && s != []
    ensures Pow(|s| - 1) <= Value(s)
  {
    hide Pow, Value;
    var k := |s| - 1;
    ValueTake(s, k);
    assert s[..k + 1] == s;
    MulMono(1, s[k], Pow(k));
  }

  lemma {:induction false} PowMono(i: nat, j: nat)
    requires i <= j
    ensures Pow(i) <= Pow(j)
  {
    if i < j {
      PowMono(i, j - 1);
    }
  }

  /** Only the empty sequence is a normal zero. */
  lemma NormalZero(s: seq<nat>)
    requires Words(s) && Normal(s)
    ensures Value(s) == 0 <==> s == []
  {
    if s != [] {
      NormalBound(s);
    }
  }

  /** Equal numbers in normal form have equal limbs. */
  lemma {:induction false} NormalUnique(a: seq<nat>, b: seq<nat>)
    requires Words(a) && Words(b) && Normal(a) && Normal(b) && Value(a) == Value(b)
    ensures a == b
  {
    if a == [] || b == [] {
      NormalZero(a);
      NormalZero(b);
    } else {
      DigitUnique(a[0], Value(a[1..]), b[0], Value(b[1..]));
      assert Normal(a[1..]) && Normal(b[1..]);
      NormalUnique(a[1..], b[1..]);
      assert a == [a[0]] + a[1..] && b == [b[0]] + b[1..];
    }
  }

  lemma DigitUnique(d: nat, x: nat, e: nat, y: nat)
    requires d < BASE && e < BASE && d + BASE * x == e + BASE * y
    ensures d == e && x == y
  {
  }

  /** Popping at most one zero limb is enough when the number needs all but one of the places. */
  lemma PopOne(s: seq<nat>)
    requires Words(s) && 2 <= |s| && Pow(|s| - 2) <= Value(s) && s[|s| - 1] == 0
    ensures Normal(s[..|s| - 1]) && Value(s[..|s| - 1]) == Value(s)
  {
    hide Pow, Value;
    var k := |s| - 1;
    PopZero(s);
    ValueTake(s, k - 1);
    ValueBound(s[..k - 1]);
    Times(s[k - 1], Pow(k - 1));
  }

  lemma Times(a: int, b: int)
    ensures a == 0 ==> a * b == 0
    ensures a == 1 ==> a * b == b
  {
  }

  lemma PopZero(s: seq<nat>)
    requires s != [] && s[|s| - 1] == 0
    ensures Value(s[..|s| - 1]) == Value(s)
  {
    hide Pow, Value;
    var k := |s| - 1;
    ValueTake(s, k);
    Times(s[k], Pow(k));
    assert s[..k + 1] == s;
  }
}

/** Decimal and hexadecimal text of arbitrary-precision integers. */
module BigIntText {
  import opened Limbs
  import opened BigInt
  import opened Numerals

  const SEGMENT := 1000000000

  // ---------------------------------------------------------------- printing

  /** Nine decimal digits to a segment, eight hexadecimal digits to a limb. */
  lemma GroupSizes()
    ensures Exp(10, 9) == SEGMENT && Exp(16, 8) == BASE
  {
    ExpOne(10);
    ExpSquare(10, 1);
    assert Exp(10, 3) == 10 * Exp(10, 2);
    ExpAdd(10, 3, 3);
    ExpAdd(10, 6, 3);
    ExpOne(16);
    ExpAdd(16, 1, 1);
    ExpAdd(16, 2, 2);
    ExpAdd(16, 4, 4);
  }

  lemma {:induction false} LimbPower(i: nat)
    ensures Exp(16, 8 * i) == Pow(i)
  {
    GroupSizes();
    if i == 0 {
    } else {
      LimbPower(i - 1);
      ExpAdd(16, 8, 8 * (i - 1));
    }
  }

  method ToHex(x: UnsignedInt) returns (s: string)
    requires x.Valid()
    ensures Printed(s, 16) && Number(s, 16) == x.V()
    ensures Canonical(s, 16) <==> |x.limbs| <= 1 || Normal(x.limbs)
  {
    hide Pow, Value, Exp, Low, Number;
    var limbs := x.limbs;
    if limbs == [] {
      ZeroText(16);
      return "0";
    }
    GroupSizes();
    var result := "";
    LowNone(16);
    EmptyPrefix(limbs, limbs);
    var n := |limbs| - 1;
    for i := 0 to n
      invariant |result| == 8 * i && Printed(result, 16) && Low(result, 16) == Value(limbs[..i])
    {
      var digits := PushFixed(limbs[i], 16, 8);
      LowConcat(result, digits, 16);
      LimbPower(i);
      ValueTake(limbs, i);
      Commute(Pow(i), limbs[i]);
      result := result + digits;
    }
    var digits := PushAll(limbs[n], 16);
    LowConcat(result, digits, 16);
    LimbPower(n);
    ValueTake(limbs, n);
    Commute(Pow(n), limbs[n]);
    assert limbs[..n + 1] == limbs;
    TopDigit(digits, limbs[n], 16);
    result := result + digits;
    NumberReverse(result, 16);
    PrintedReverse(result, 16);
    ReverseAt(result, 0);
    s := Reverse(result);
  }

  lemma ZeroText(b: nat)
    requires 2 <= b <= 16
    ensures Canonical("0", b) && Number("0", b) == 0 && Value([]) == 0
  {
    assert "0"[..0] == "" && Number("", b) == 0;
    assert FromHex('0') == 0 && Shown(0) == '0';
    Times(0, b);
  }

  /** The most significant digit is zero only for zero. */
  lemma TopDigit(r: string, x: nat, b: nat)
    requires 2 <= b && r != "" && Printed(r, b) && Low(r, b) == x && (|r| > 1 ==> r[|r| - 1] != '0')
    ensures r[|r| - 1] == '0' <==> x == 0
    ensures x == 0 ==> |r| == 1
  {
    var s := Reverse(r);
    NumberReverse(r, b);
    PrintedReverse(r, b);
    ReverseAt(r, 0);
    if s[0] != '0' {
      Positive(s, b);
    } else {
      LowOne(r[0], b);
      assert r == [r[0]];
    }
  }

  /** What the assert after every division in toDec comes to: enough value for the places, which normal form always has. */
  ghost predicate Printable(limbs: seq<nat>) {
    |limbs| <= 1 || Value(limbs) >= SEGMENT * Pow(|limbs| - 2)
  }

  lemma NormalIsPrintable(limbs: seq<nat>)
    requires Words(limbs) && Normal(limbs)
    ensures Printable(limbs)
  {
    hide Pow, Value;
    if |limbs| > 1 {
      NormalBound(limbs);
      PowStep(|limbs| - 2);
      MulMono(SEGMENT, BASE, Pow(|limbs| - 2));
    }
  }

  method ToDec(x: UnsignedInt) returns (s: string)
    requires x.Valid() && Printable(x.limbs)
    ensures Canonical(s, 10) && Number(s, 10) == x.V()
  {
    hide Pow, Value, Exp, Low, Number, Printable;
    if x.limbs == [] {
      ZeroText(10);
      return "0";
    }
    GroupSizes();
    var result := "";
    LowNone(10);
    Times(1, x.V());
    var copy := new UnsignedInt.Copy(x);
    while |copy.limbs| > 1
      invariant fresh(copy) && copy.Valid() && copy.limbs != [] && Printable(copy.limbs)
      invariant Printed(result, 10) && Low(result, 10) + Exp(10, |result|) * copy.V() == x.V()
      invariant result != "" ==> Normal(copy.limbs)
      decreases copy.V()
    {
      PrintableIs(copy.limbs);
      var rem := copy.Divide(SEGMENT);
      NormalZero(copy.limbs);
      NormalIsPrintable(copy.limbs);
      var digits := PushFixed(rem, 10, 9);
      LowConcat(result, digits, 10);
      ExpAdd(10, |result|, 9);
      SplitOff(Exp(10, |result|), copy.V(), rem);
      result := result + digits;
    }
    var digits := PushAll(copy.limbs[0], 10);
    OneLimb(copy.limbs);
    LowConcat(result, digits, 10);
    TopDigit(digits, copy.limbs[0], 10);
    result := result + digits;
    NumberReverse(result, 10);
    PrintedReverse(result, 10);
    ReverseAt(result, 0);
    s := Reverse(result);
  }

  lemma PrintableIs(limbs: seq<nat>)
    requires Printable(limbs) && |limbs| > 1
    ensures Value(limbs) >= SEGMENT * Pow(|limbs| - 2) && Value(limbs) >= SEGMENT
  {
    hide Pow, Value;
    MulMono(1, Pow(|limbs| - 2), SEGMENT);
  }

  lemma SplitOff(p: nat, q: nat, rem: nat)
    ensures p * (q * SEGMENT + rem) == p * rem + (p * SEGMENT) * q
  {
    Distribute(q * SEGMENT, rem, p);
    Commute(q, SEGMENT);
    MulAssoc(p, SEGMENT, q);
  }

  lemma OneLimb(limbs: seq<nat>)
    requires |limbs| == 1
    ensures Value(limbs) == limbs[0]
  {
    assert limbs[1..] == [];
    assert Value([]) == 0;
  }

  // ---------------------------------------------------------------- reading decimal

  lemma {:induction false} NumberConcat(s: string, t: string, b: nat)
    ensures Number(s + t, b) == Number(s, b) * Exp(b, |t|) + Number(t, b)
  {
    if t == "" {
      assert s + t == s;
      Commute(Number(s, b), 1);
      Times(1, Number(s, b));
    } else {
      var t' := t[..|t| - 1];
      NumberConcat(s, t', b);
      assert (s + t)[..|s + t| - 1] == s + t';
      Distribute(Number(s, b) * Exp(b, |t'|), Number(t', b), b);
      MulAssoc(Number(s, b), Exp(b, |t'|), b);
      Commute(Exp(b, |t'|), b);
    }
  }

  lemma {:induction false} NumberBound(s: string, b: nat)
    requires Numeral(s, b)
    ensures Number(s, b) < Exp(b, |s|)
  {
    if s == "" {
    } else {
      var s' := s[..|s| - 1];
      NumberBound(s', b);
      MulMono(Number(s', b) + 1, Exp(b, |s'|), b);
      Distribute(Number(s', b), 1, b);
      Commute(Exp(b, |s'|), b);
    }
  }

  lemma {:induction false} ExpMono(b: nat, m: nat, n: nat)
    requires b > 0 && m <= n
    ensures Exp(b, m) <= Exp(b, n)
  {
    if m < n {
      ExpMono(b, m, n - 1);
      MulMono(1, b, Exp(b, n - 1));
    }
  }

  /** Horner evaluation with every character that is no digit taken for the word of ones. */
  ghost function Horner(s: string): (n: nat) {
    if s == "" then 0 else Horner(s[..|s| - 1]) * 10 + FromDec(s[|s| - 1])
  }

  lemma {:induction false} HornerNumber(s: string)
    requires Numeral(s, 10)
    ensures Horner(s) == Number(s, 10)
  {
    if s == "" {
    } else {
      HornerNumber(s[..|s| - 1]);
    }
  }

  /** What a string of any characters is read as: 32-bit words of nine characters each, from the right. */
  ghost function DecGroups(s: string): (n: nat) {
    if |s| <= 9 then Horner(s) % BASE
    else DecGroups(s[..|s| - 9]) * SEGMENT + Horner(s[|s| - 9..]) % BASE
  }

  /** On digits that is the number. */
  lemma {:induction false} GroupsNumber(s: string)
    requires Numeral(s, 10)
    ensures DecGroups(s) == Number(s, 10)
    decreases |s|
  {
    hide Horner, Number;
    if |s| <= 9 {
      HornerNumber(s);
      SegmentBound(s);
    } else {
      var front, last := s[..|s| - 9], s[|s| - 9..];
      GroupsNumber(front);
      HornerNumber(last);
      SegmentBound(last);
      NumberConcat(front, last, 10);
      GroupSizes();
      assert s == front + last;
    }
  }

  /** 32-bit Horner evaluation: exact on up to nine decimal digits. */
  method ParseSegment(str: string) returns (seg: nat)
    ensures seg == Horner(str) % BASE
    ensures Numeral(str, 10) && |str| <= 9 ==> seg == Number(str, 10) < SEGMENT
  {
    hide Number, Horner;
    seg := 0;
    HornerNone();
    for i := 0 to |str|
      invariant seg == Horner(str[..i]) % BASE
    {
      HornerStep(str, i);
      WrapStep(Horner(str[..i]), FromDec(str[i]));
      seg := (seg * 10) % BASE;
      seg := (seg + FromDec(str[i])) % BASE;
    }
    assert str[..|str|] == str;
    if Numeral(str, 10) && |str| <= 9 {
      HornerNumber(str);
      SegmentBound(str);
    }
  }

  lemma HornerNone()
    ensures Horner("") == 0
  {
  }

  lemma HornerStep(str: string, i: nat)
    requires i < |str|
    ensures Horner(str[..i + 1]) == Horner(str[..i]) * 10 + FromDec(str[i])
  {
    assert str[..i + 1][..i] == str[..i];
  }

  /** Cutting to a word before each step or after all of them is the same. */
  lemma WrapStep(h: nat, d: nat)
    ensures (((h % BASE) * 10) % BASE + d) % BASE == (h * 10 + d) % BASE
  {
    var q, r := h / BASE, h % BASE;
    assert h * 10 + d == (q * 10) * BASE + (r * 10 + d);
    Wraps(q * 10, r * 10 + d);
    var q', r' := (r * 10) / BASE, (r * 10) % BASE;
    Wraps(q', r' + d);
  }

  lemma Wraps(q: nat, r: nat)
    ensures (q * BASE + r) % BASE == r % BASE
  {
    var a := q * BASE + r;
    DivMod(a, BASE);
    DivMod(r, BASE);
    Distribute(q, r / BASE, BASE);
    SameDigit(a / BASE, a % BASE, q + r / BASE, r % BASE, BASE);
  }

  lemma SegmentBound(str: string)
    requires Numeral(str, 10) && |str| <= 9
    ensures Number(str, 10) < SEGMENT
  {
    NumberBound(str, 10);
    ExpMono(10, |str|, 9);
    GroupSizes();
  }

  /** Reads any digit string exactly; the limbs come out normal except for the lone zero limb of a zero numeral. */
  method ParseDec(str: string) returns (x: UnsignedInt)
    ensures fresh(x) && x.Valid() && x.V() == DecGroups(str)
    ensures Numeral(str, 10) ==> x.V() == Number(str, 10)
    ensures Normal(x.limbs) || x.limbs == [0]
    ensures Normal(x.limbs) <==> str == "" || x.V() > 0
  {
    hide Exp, Number, Pow, Value, Numeral, Horner, DecGroups;
    x := new UnsignedInt(0);
    NormalZero(x.limbs);
    var first := |str| % 9;
    FirstGroup(str[..first]);
    if first != 0 {
      var seg := ParseSegment(str[..first]);
      x.AddSmall(seg);
    }
    var i := first;
    ZeroLimb();
    while i < |str|
      invariant fresh(x) && x.Valid() && 0 <= i <= |str| && (|str| - i) % 9 == 0
      invariant x.V() == DecGroups(str[..i])
      invariant Normal(x.limbs) || x.limbs == [0]
      invariant i == 0 <==> x.limbs == []
    {
      assert i + 9 <= |str|;
      var seg := ParseSegment(str[i..i + 9]);
      NextGroup(str, i);
      ghost var before := x.limbs;
      x.MulSmall(SEGMENT);
      ghost var middle := x.limbs;
      ScaleShape(before, middle);
      x.AddSmall(seg);
      GrowShape(middle, x.limbs, seg);
      i := i + 9;
    }
    assert str[..|str|] == str;
    NormalZero2(x.limbs);
    if Numeral(str, 10) {
      GroupsNumber(str);
    }
  }

  lemma FirstGroup(s: string)
    requires |s| < 9
    ensures DecGroups(s) == Horner(s) % BASE
    ensures s == "" ==> DecGroups(s) == 0
  {
  }

  lemma NextGroup(str: string, i: nat)
    requires i + 9 <= |str|
    ensures DecGroups(str[..i + 9]) == DecGroups(str[..i]) * SEGMENT + Horner(str[i..i + 9]) % BASE
  {
    hide Horner;
    var s := str[..i + 9];
    assert s[..|s| - 9] == str[..i] && s[|s| - 9..] == str[i..i + 9];
    if i == 0 {
      HornerNone();
      assert str[..0] == "" && s == str[0..9];
    }
  }

  lemma ZeroLimb()
    ensures Value([0]) == 0
  {
    OneLimb([0]);
  }

  lemma NormalZero2(limbs: seq<nat>)
    requires Words(limbs)
    ensures Normal(limbs) ==> (Value(limbs) == 0 <==> limbs == [])
  {
    if Normal(limbs) {
      NormalZero(limbs);
    }
  }

  lemma ScaleShape(before: seq<nat>, after: seq<nat>)
    requires Words(after) && (Normal(before) ==> Normal(after)) && Value(after) == Value(before) * SEGMENT
    requires |before| <= |after| && (|after| > |before| ==> after[|after| - 1] != 0)
    requires Normal(before) || before == [0]
    ensures Normal(after) || after == [0]
    ensures before == [] <==> after == []
  {
    OneLimb([0]);
    if before == [] {
      NormalZero(after);
    } else if before == [0] {
      if Normal(after) {
        NormalZero(after);
      }
    }
  }

  lemma GrowShape(before: seq<nat>, after: seq<nat>, x: nat)
    requires Words(after) && x < BASE && Value(after) == Value(before) + x
    requires Normal(before) ==> (Normal(after) <==> before != [] || x != 0)
    requires |before| <= |after| && (before != [] && |after| > |before| ==> after[|after| - 1] != 0)
    requires before == [] ==> after == [x]
    requires Normal(before) || before == [0]
    ensures Normal(after) || after == [0]
    ensures after != []
  {
    OneLimb([0]);
    if before == [0] && |after| == 1 {
      OneLimb(after);
    }
  }

  // ---------------------------------------------------------------- reading hexadecimal

  /** Bitwise or of two n-bit numbers. */
  function Or(x: nat, y: nat, n: nat): (z: nat)
    ensures z < Exp(2, n)
  {
    if n == 0 then 0
    else 2 * Or(x / 2, y / 2, n - 1) + (if x % 2 == 1 || y % 2 == 1 then 1 else 0)
  }

  lemma OrBit(l: nat, x: nat, y: nat, n: nat)
    requires l < 2
    ensures Or(l + 2 * x, 2 * y, n + 1) == l + 2 * Or(x, y, n)
  {
    assert (l + 2 * x) / 2 == x && (l + 2 * x) % 2 == l && (2 * y) / 2 == y && (2 * y) % 2 == 0;
  }

  /** The low nibble of one operand stays when the other has none. */
  lemma OrNibble(d: nat, x: nat, y: nat, n: nat)
    requires d < 16
    ensures Or(d + 16 * x, 16 * y, n + 4) == d + 16 * Or(x, y, n)
  {
    hide Or;
    OrPair(d % 4, d / 4 + 4 * x, 4 * y, n + 2);
    OrPair(d / 4, x, y, n);
  }

  lemma OrPair(d: nat, x: nat, y: nat, n: nat)
    requires d < 4
    ensures Or(d + 4 * x, 4 * y, n + 2) == d + 4 * Or(x, y, n)
  {
    hide Or;
    OrBit(d % 2, d / 2 + 2 * x, 2 * y, n + 1);
    OrBit(d / 2, x, y, n);
  }

  lemma {:induction false} OrNone(y: nat, n: nat)
    requires y < Exp(2, n)
    ensures Or(0, y, n) == y
  {
    if n == 0 {
    } else {
      OrNone(y / 2, n - 1);
    }
  }

  lemma {:induction false} OrOnes(y: nat, n: nat)
    requires y < Exp(2, n)
    ensures Or(Exp(2, n) - 1, y, n) == Exp(2, n) - 1
  {
    if n == 0 {
    } else {
      assert Exp(2, n) == 2 * Exp(2, n - 1);
      assert (Exp(2, n) - 1) / 2 == Exp(2, n - 1) - 1 && (Exp(2, n) - 1) % 2 == 1;
      OrOnes(y / 2, n - 1);
    }
  }

  /** limb |= digit << shift in 32 bits. */
  function OrShifted(limb: nat, digit: nat, shift: nat): (r: nat)
    ensures r < BASE
  {
    WordBits();
    Or(limb, Shl(digit, shift), 32)
  }

  /** A 32-bit shift drops what leaves the word. */
  function Shl(digit: nat, shift: nat): (r: nat) {
    (digit * Exp2(shift)) % BASE
  }

  function Exp2(n: nat): (p: nat)
    ensures p == Exp(2, n)
  {
    if n == 0 then 1 else 2 * Exp2(n - 1)
  }

  lemma WordBits()
    ensures Exp(2, 32) == BASE
  {
    NibblePower(8);
    GroupSizes();
  }

  lemma {:induction false} NibblePower(i: nat)
    ensures Exp(2, 4 * i) == Exp(16, i)
  {
    if i == 0 {
    } else {
      NibblePower(i - 1);
      ExpAdd(2, 4, 4 * (i - 1));
      ExpOne(2);
      ExpAdd(2, 1, 1);
      ExpAdd(2, 2, 2);
    }
  }

  /**
   * What n nibbles hold after some characters, the first of them least significant: digits one above the other, and ones
   * from the first character on that is no digit.
   */
  ghost function Nibbles(r: string, n: nat): (v: nat)
    requires |r| <= n
  {
    Positive16(n);
    if r == "" then 0
    else if FromHex(r[0]) >= 16 then Exp(16, n) - 1
    else FromHex(r[0]) + 16 * Nibbles(r[1..], n - 1)
  }

  lemma {:induction false} NibblesBound(r: string, n: nat)
    requires |r| <= n
    ensures Nibbles(r, n) < Exp(16, n)
  {
    if r == "" || FromHex(r[0]) >= 16 {
      Positive16(n);
    } else {
      NibblesBound(r[1..], n - 1);
      ExpStep(16, n - 1);
    }
  }

  lemma {:induction false} Positive16(n: nat)
    ensures Exp(16, n) > 0
  {
    if n == 0 {
    } else {
      Positive16(n - 1);
    }
  }

  lemma {:induction false} NibblesNumber(r: string, n: nat)
    requires |r| <= n && Numeral(r, 16)
    ensures Nibbles(r, n) == Low(r, 16)
  {
    if r == "" {
    } else {
      assert forall i :: 0 <= i < |r| - 1 ==> r[1..][i] == r[i + 1];
      NibblesNumber(r[1..], n - 1);
    }
  }

  /** A digit shifted by j nibbles in a word of n. */
  ghost function Shifted(d: nat, j: nat, n: nat): (v: nat) {
    Positive16(n);
    (d * Exp(16, j)) % Exp(16, n)
  }

  lemma ShiftedStep(d: nat, j: nat, n: nat)
    ensures Shifted(d, j + 1, n + 1) == 16 * Shifted(d, j, n)
  {
    hide Exp;
    Positive16(n);
    ExpStep(16, j);
    ExpStep(16, n);
    MulAssoc(d, 16, Exp(16, j));
    Commute(d, 16);
    MulAssoc(16, d, Exp(16, j));
    ModBy16(d * Exp(16, j), Exp(16, n));
  }

  lemma ModBy16(z: nat, w: nat)
    requires w > 0
    ensures (16 * z) % (16 * w) == 16 * (z % w)
  {
    DivMod(z, w);
    DivMod(16 * z, 16 * w);
    var q, r := z / w, z % w;
    Commute(q, w);
    MulAssoc(16, w, q);
    Commute(16 * w, q);
    SameDigit((16 * z) / (16 * w), (16 * z) % (16 * w), q, 16 * r, 16 * w);
  }

  /** A digit, or the word of ones, put into an empty word. */
  lemma ShiftedNone(d: nat, n: nat)
    requires 1 <= n <= 8 && (d < 16 || d == BASE - 1)
    ensures Shifted(d, 0, n) == if d < 16 then d else Exp(16, n) - 1
  {
    hide Exp;
    Positive16(n);
    Positive16(8 - n);
    LowNone(16);
    Commute(d, 1);
    Times(1, d);
    GroupSizes();
    ExpMono(16, 1, n);
    ExpOne(16);
    if d < 16 {
      SmallMod(d, Exp(16, n));
    } else {
      ExpAdd(16, 8 - n, n);
      Distribute(Exp(16, 8 - n) - 1, 1, Exp(16, n));
      Times(1, Exp(16, n));
      DivMod(d, Exp(16, n));
      SameDigit(d / Exp(16, n), d % Exp(16, n), Exp(16, 8 - n) - 1, Exp(16, n) - 1, Exp(16, n));
    }
  }

  lemma SmallMod(a: nat, b: nat)
    requires a < b
    ensures a % b == a
  {
    DivMod(a, b);
    Times(0, b);
    SameDigit(a / b, a % b, 0, a, b);
  }

  /** Or-ing in the next character. */
  lemma {:induction false} NibbleStep(r: string, c: char, n: nat)
    requires |r| < n <= 8
    ensures Or(Nibbles(r, n), Shifted(FromHex(c), |r|, n), 4 * n) == Nibbles(r + [c], n)
  {
    hide Or, Exp, Shifted, FromHex;
    ShiftedBound(FromHex(c), |r|, n);
    NibblePower(n);
    if r == "" {
      assert (r + [c])[1..] == "";
      ShiftedNone(FromHex(c), n);
      OrNone(Shifted(FromHex(c), 0, n), 4 * n);
    } else if FromHex(r[0]) >= 16 {
      OrOnes(Shifted(FromHex(c), |r|, n), 4 * n);
    } else {
      var b := Shifted(FromHex(c), |r| - 1, n - 1);
      NibbleStep(r[1..], c, n - 1);
      ShiftedStep(FromHex(c), |r| - 1, n - 1);
      OrNibble(FromHex(r[0]), Nibbles(r[1..], n - 1), b, 4 * (n - 1));
      assert (r + [c])[1..] == r[1..] + [c];
    }
  }

  lemma ShiftedBound(d: nat, j: nat, n: nat)
    ensures Shifted(d, j, n) < Exp(16, n)
  {
    hide Exp;
    Positive16(n);
    DivMod(d * Exp(16, j), Exp(16, n));
  }

  lemma OrShiftedIs(limb: nat, digit: nat, j: nat)
    ensures OrShifted(limb, digit, 4 * j) == Or(limb, Shifted(digit, j, 8), 32)
  {
    hide Or, Exp;
    NibblePower(j);
    GroupSizes();
  }

  /** The limbs that the characters make, eight to a limb, the first of them least significant. */
  ghost function HexLimbs(r: string): (limbs: seq<nat>) {
    if r == "" then []
    else if |r| <= 8 then [Nibbles(r, 8)]
    else [Nibbles(r[..8], 8)] + HexLimbs(r[8..])
  }

  lemma {:induction false} HexLimbsWords(r: string)
    ensures Words(HexLimbs(r)) && |HexLimbs(r)| == (|r| + 7) / 8
  {
    hide Nibbles;
    GroupSizes();
    if r == "" {
    } else if |r| <= 8 {
      NibblesBound(r, 8);
    } else {
      NibblesBound(r[..8], 8);
      HexLimbsWords(r[8..]);
    }
  }

  /** On hexadecimal digits the limbs stand for the number. */
  lemma {:induction false} HexLimbsNumber(r: string)
    requires Numeral(r, 16)
    ensures Value(HexLimbs(r)) == Low(r, 16)
  {
    hide Nibbles, Low, Exp;
    LowNone(16);
    if r == "" {
    } else if |r| <= 8 {
      NibblesNumber(r, 8);
      OneLimb(HexLimbs(r));
    } else {
      var first, rest := r[..8], r[8..];
      assert forall i :: 0 <= i < |rest| ==> rest[i] == r[i + 8];
      NibblesNumber(first, 8);
      HexLimbsNumber(rest);
      assert r == first + rest;
      LowConcat(first, rest, 16);
      GroupSizes();
      assert HexLimbs(r)[1..] == HexLimbs(rest);
    }
  }

  /** The last limb holds a group and takes one more character. */
  ghost predicate LastGrows(limbs: seq<nat>, limbs': seq<nat>, group: string, c: char)
    requires |group| < 8
  {
    && limbs != [] && limbs[|limbs| - 1] == Nibbles(group, 8)
    && limbs' == limbs[|limbs| - 1 := Nibbles(group + [c], 8)]
  }

  /** One more character: a new limb after every eighth, otherwise one more nibble of the last. */
  lemma {:induction false} HexLimbsStep(r: string, c: char)
    ensures |r| % 8 == 0 ==> HexLimbs(r + [c]) == HexLimbs(r) + [Nibbles([c], 8)]
    ensures |r| % 8 != 0 ==> LastGrows(HexLimbs(r), HexLimbs(r + [c]), r[|r| - |r| % 8..], c)
  {
    hide Nibbles;
    if |r| < 8 {
      assert r[0..] == r && r + [c] == "" + (r + [c]);
      if r == "" {
        assert r + [c] == [c];
      }
    } else if |r| == 8 {
      assert (r + [c])[..8] == r && (r + [c])[8..] == [c] && r[..8] == r && r[8..] == "";
    } else {
      HexLimbsStep(r[8..], c);
      assert (r + [c])[..8] == r[..8] && (r + [c])[8..] == r[8..] + [c];
      var k := |r| % 8;
      assert |r[8..]| % 8 == k;
      if k != 0 {
        assert r[8..][|r| - 8 - k..] == r[|r| - k..];
      }
    }
  }

  /** The last limb comes from the characters behind the last full group. */
  lemma {:induction false} HexLimbsTop(r: string)
    requires r != ""
    ensures HexLimbs(r) != [] && HexLimbs(r)[|HexLimbs(r)| - 1] == Nibbles(r[TopStart(|r|)..], 8)
  {
    hide Nibbles;
    if |r| <= 8 {
      assert r[0..] == r;
    } else {
      HexLimbsTop(r[8..]);
      var g := TopStart(|r| - 8);
      assert r[8..][g..] == r[g + 8..] && TopStart(|r|) == g + 8;
    }
  }

  /** The characters that make up the most significant limb. */
  function TopGroup(str: string): (t: string)
    ensures t <= str
  {
    if str == "" then "" else str[..(|str| - 1) % 8 + 1]
  }

  /** Reads any hexadecimal string exactly; only a single zero limb is stripped. */
  method ParseHex(str: string) returns (x: UnsignedInt)
    ensures fresh(x) && x.Valid()
    ensures x.limbs == if HexLimbs(Reverse(str)) == [0] then [] else HexLimbs(Reverse(str))
    ensures Numeral(str, 16) ==> x.V() == Number(str, 16)
    ensures Numeral(str, 16) ==> (Normal(x.limbs) <==> |str| <= 8 || Number(TopGroup(str), 16) > 0)
  {
    hide Exp, Low, Value, Pow, Number, OrShifted, HexLimbs, TopGroup, Reverse, Nibbles;
    x := new UnsignedInt(0);
    EmptyLimbs(x.limbs);
    ghost var r := Reverse(str);
    for i := 0 to |str|
      invariant fresh(x) && x.Valid() && |x.limbs| == (i + 7) / 8
      invariant x.limbs == HexLimbs(r[..i])
    {
      ghost var before := x.limbs;
      if i % 8 == 0 {
        x.limbs := x.limbs + [0];
      }
      var digit := FromHex(str[|str| - i - 1]);
      var shift := 4 * (i % 8);
      var last := |x.limbs| - 1;
      ReverseAt(str, i);
      ReadOne(before, r, i, x.limbs[last], digit);
      x.limbs := x.limbs[last := OrShifted(x.limbs[last], digit, shift)];
    }
    assert r[..|str|] == r;
    if Numeral(str, 16) {
      HexRead(x.limbs, str);
    }
    if |x.limbs| == 1 && x.limbs[0] == 0 {
      OneLimb(x.limbs);
      EmptyPrefix(x.limbs, x.limbs);
      assert x.limbs[..0] == [];
      x.limbs := [];
    }
  }

  lemma ReadOne(before: seq<nat>, r: string, i: nat, limb: nat, digit: nat)
    requires i < |r| && before == HexLimbs(r[..i]) && digit == FromHex(r[i])
    requires if i % 8 == 0 then limb == 0 else before != [] && limb == before[|before| - 1]
    ensures
      var after := OrShifted(limb, digit, 4 * (i % 8));
      HexLimbs(r[..i + 1]) == if i % 8 == 0 then before + [after] else before[|before| - 1 := after]
  {
    hide HexLimbs, Or, Shifted, OrShifted, FromHex;
    var k := i % 8;
    var group := r[i - k..i];
    HexLimbsStep(r[..i], r[i]);
    assert r[..i + 1] == r[..i] + [r[i]] && r[..i][i - k..] == group;
    NibbleStep(group, r[i], 8);
    OrShiftedIs(limb, digit, k);
    if k == 0 {
      assert group == "" && group + [r[i]] == [r[i]];
    }
  }

  lemma NumeralReverse(s: string, b: nat)
    ensures Numeral(s, b) ==> Numeral(Reverse(s), b)
  {
    forall i | 0 <= i < |s|
      ensures Reverse(s)[i] == s[|s| - 1 - i]
    {
      ReverseAt(s, i);
    }
  }

  lemma EmptyLimbs(limbs: seq<nat>)
    requires Words(limbs) && Normal(limbs) && Value(limbs) == 0
    ensures limbs == HexLimbs("") == []
  {
    NormalZero(limbs);
  }

  lemma ReverseTail(str: string, k: nat)
    requires k <= |str|
    ensures Reverse(Reverse(str)[k..]) == str[..|str| - k]
  {
    hide Reverse;
    var r := Reverse(str);
    var t := Reverse(r[k..]);
    forall i | 0 <= i < |t|
      ensures t[i] == str[i]
    {
      ReverseAt(r[k..], i);
      ReverseAt(str, |str| - 1 - i);
    }
  }

  lemma HexRead(limbs: seq<nat>, str: string)
    requires limbs == HexLimbs(Reverse(str)) && Numeral(str, 16)
    ensures Value(limbs) == Number(str, 16)
    ensures str != "" ==> |limbs| == (|str| + 7) / 8 && limbs[|limbs| - 1] == Number(TopGroup(str), 16)
  {
    hide Low, Number, Value, HexLimbs, Reverse, Numeral, TopGroup;
    var r := Reverse(str);
    NumeralReverse(str, 16);
    HexLimbsNumber(r);
    HexLimbsWords(r);
    ReverseTail(str, 0);
    assert r[0..] == r && str[..|str| - 0] == str;
    NumberReverse(r, 16);
    if str != "" {
      TopRead(str);
    }
  }

  lemma TopRead(str: string)
    requires str != "" && Numeral(str, 16)
    ensures var limbs := HexLimbs(Reverse(str)); limbs != [] && limbs[|limbs| - 1] == Number(TopGroup(str), 16)
  {
    hide Low, Number, HexLimbs, Reverse, Nibbles, Numeral, TopGroup;
    var r := Reverse(str);
    var g := TopStart(|str|);
    var top := r[g..];
    TopGroupIs(str);
    NumeralReverse(str, 16);
    NumeralTail(r, g, 16);
    HexLimbsTop(r);
    NibblesNumber(top, 8);
    ReverseTail(str, g);
    NumberReverse(top, 16);
  }

  lemma NumeralTail(r: string, g: nat, b: nat)
    requires g <= |r| && Numeral(r, b)
    ensures Numeral(r[g..], b)
  {
    assert forall i :: 0 <= i < |r| - g ==> r[g..][i] == r[g + i];
  }

  /** Where the last group of eight begins, counted from the right. */
  ghost function TopStart(n: nat): (g: nat)
    requires n > 0
    ensures n - 8 <= g < n
  {
    (n - 1) / 8 * 8
  }

  lemma TopGroupIs(str: string)
    requires str != ""
    ensures TopGroup(str) == str[..|str| - TopStart(|str|)]
  {
  }

  /** Nine zeros are read as two zero limbs, which is no normal form of zero. */
  method NineZeros() returns (x: UnsignedInt)
    ensures x.V() == 0 && |x.limbs| == 2 && !Normal(x.limbs)
  {
    hide HexLimbs, Reverse;
    var zeros := "000000000";
    ZeroNine();
    HexLimbsWords(Reverse(zeros));
    x := ParseHex(zeros);
  }

  lemma ZeroNine()
    ensures var zeros := "000000000"; Numeral(zeros, 16) && Number(zeros, 16) == 0 && Number(TopGroup(zeros), 16) == 0
  {
    var zeros := "000000000";
    forall i | 0 <= i <= 9
      ensures Number(zeros[..i], 16) == 0
    {
      NoZeros(zeros, i);
    }
    assert zeros[..9] == zeros && TopGroup(zeros) == zeros[..1];
  }

  lemma {:induction false} NoZeros(zeros: string, i: nat)
    requires i <= |zeros| && forall k :: 0 <= k < |zeros| ==> zeros[k] == '0'
    ensures Number(zeros[..i], 16) == 0
  {
    if i == 0 {
    } else {
      NoZeros(zeros, i - 1);
      assert zeros[..i][..i - 1] == zeros[..i - 1];
    }
  }

  // ---------------------------------------------------------------- round trips

  /** Printing and reading back gives the same number, and the same limbs but for zero's own. */
  method DecRoundTrip(x: UnsignedInt) returns (y: UnsignedInt)
    requires x.Valid() && Normal(x.limbs)
    ensures y.Valid() && y.V() == x.V()
    ensures x.limbs != [] ==> y.limbs == x.limbs
    ensures x.limbs == [] ==> y.limbs == [0]
  {
    NormalIsPrintable(x.limbs);
    var s := ToDec(x);
    NumeralIfPrinted(s, 10);
    y := ParseDec(s);
    NormalZero(x.limbs);
    if x.limbs != [] {
      NormalUnique(x.limbs, y.limbs);
    }
  }

  lemma NumeralIfPrinted(s: string, b: nat)
    requires Printed(s, b)
    ensures Numeral(s, b)
  {
  }

  /** Reading and printing gives back the canonical form of any decimal numeral, and a canonical one unchanged. */
  method DecTextRoundTrip(s: string) returns (t: string)
    requires Numeral(s, 10)
    ensures Canonical(t, 10) && Number(t, 10) == Number(s, 10)
    ensures Canonical(s, 10) ==> t == s
  {
    var x := ParseDec(s);
    if Normal(x.limbs) {
      NormalIsPrintable(x.limbs);
    }
    t := ToDec(x);
    if Canonical(s, 10) {
      CanonicalUnique(s, t, 10);
    }
  }

  method HexRoundTrip(x: UnsignedInt) returns (y: UnsignedInt)
    requires x.Valid() && Normal(x.limbs)
    ensures y.limbs == x.limbs
  {
    var s := ToHex(x);
    NumeralIfPrinted(s, 16);
    y := ParseHex(s);
    TopGroupPositive(s);
    NormalUnique(x.limbs, y.limbs);
  }

  lemma TopGroupPositive(s: string)
    requires Canonical(s, 16)
    ensures |s| > 1 ==> Number(TopGroup(s), 16) > 0
  {
    if |s| > 1 {
      Positive(TopGroup(s), 16);
    }
  }

  method HexTextRoundTrip(s: string) returns (t: string)
    requires Numeral(s, 16)
    ensures Printed(t, 16) && Number(t, 16) == Number(s, 16)
    ensures Canonical(s, 16) ==> t == s
  {
    var x := ParseHex(s);
    t := ToHex(x);
    if Canonical(s, 16) {
      TopGroupPositive(s);
      CanonicalUnique(s, t, 16);
    }
  }
}

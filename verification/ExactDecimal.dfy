/** The exact decimal expansion of a binary floating-point number. */
module ExactDecimal {
  import opened Limbs
  import opened BigInt
  import opened Numerals
  import opened BigIntText

  /** Stands for M * 2^E, with a 64-bit M. */
  datatype Float = Float(E: int, M: nat)

  ghost predicate Representable(x: Float) {
    x.M < WORD64 && -0x8000_0000 <= x.E < 0x8000_0000
  }

  /** Where the number of binary places after stripping zero bits can be negated in an int. */
  ghost predicate Negatable(x: Float) {
    x.E == -0x8000_0000 ==> x.M % 2 == 0
  }

  ghost function Up(e: int): nat {
    if e > 0 then e else 0
  }

  ghost function Down(e: int): nat {
    if e < 0 then -e else 0
  }

  /** The bits that make up the integer part. */
  ghost function Floor(x: Float): nat {
    Positive2(Down(x.E));
    Div(x.M * Exp(2, Up(x.E)), Exp(2, Down(x.E)))
  }

  lemma {:induction false} Positive2(n: nat)
    ensures Exp(2, n) > 0
  {
    if n == 0 {
    } else {
      Positive2(n - 1);
    }
  }

  /** ip.fp stands for exactly M * 2^E: the equation is cleared of its denominators. */
  ghost predicate Denotes(ip: string, fp: string, x: Float) {
    (Number(ip, 10) * Exp(10, |fp|) + Number(fp, 10)) * Exp(2, Down(x.E)) == (x.M * Exp(2, Up(x.E))) * Exp(10, |fp|)
  }

  // ---------------------------------------------------------------- the integer part

  method Integer(x: Float) returns (s: string)
    requires Representable(x)
    ensures Canonical(s, 10) && Number(s, 10) == Floor(x)
  {
    hide Exp, Value, Div, Canonical, Number;
    var e, m := x.E, x.M;
    ghost var i := 0;
    LowNone(2);
    DivOne(m);
    while e < 0
      invariant 0 <= m < WORD64 && 0 <= i && e == x.E + i && (x.E >= 0 ==> i == 0) && (x.E < 0 ==> e <= 0)
      invariant Exp(2, i) > 0 && m == Div(x.M, Exp(2, i))
    {
      ExpStep(2, i);
      HalfQuotient(x.M, Exp(2, i));
      m := m / 2;
      e := e + 1;
      i := i + 1;
    }
    var u := FromWord(m);
    FloorIs(x, m);
    if e != 0 {
      var y := new UnsignedInt(2);
      y.Power(e);
      u.Mul(y);
    }
    NormalIsPrintable(u.limbs);
    s := ToDec(u);
  }

  /** A 64-bit word as two limbs. */
  method FromWord(m: nat) returns (u: UnsignedInt)
    requires m < WORD64
    ensures fresh(u) && u.Valid() && Normal(u.limbs) && u.V() == m
  {
    hide Value;
    var lo := m % BASE;
    var hi := m / BASE;
    u := new UnsignedInt(lo);
    if hi != 0 {
      var h := new UnsignedInt(hi);
      h.MulSmall(0x10000);
      h.MulSmall(0x10000);
      u.Add(h);
    }
  }

  lemma DivOne(n: nat)
    ensures Div(n, 1) == n && Mod(n, 1) == 0
  {
  }

  lemma FloorIs(x: Float, m: nat)
    requires Exp(2, Down(x.E)) > 0 && m == Div(x.M, Exp(2, Down(x.E)))
    ensures Floor(x) == m * Exp(2, Up(x.E))
  {
    hide Exp, Div;
    LowNone(2);
    DivOne(x.M);
    DivOne(x.M * Exp(2, Up(x.E)));
    Commute(x.M, 1);
    Commute(m, 1);
    Times(1, x.M);
    Times(1, m);
  }

  // ---------------------------------------------------------------- the fraction

  /** The bits after the binary point. */
  ghost function Rest(x: Float): nat {
    Positive2(Down(x.E));
    Mod(x.M * Exp(2, Up(x.E)), Exp(2, Down(x.E)))
  }

  /** After a zero bits have been dropped, m with so many binary digits after the point is left. */
  ghost predicate Stripped(x: Float, digits: nat, a: nat, m: nat) {
    x.M == m * Exp(2, a) && Down(x.E) == digits + a
  }

  /** What the fraction loop holds after j bits. */
  ghost predicate Halfway(m0: nat, j: nat, m: nat, f: nat, d: nat) {
    Exp(2, j) > 0 && m == Div(m0, Exp(2, j)) && f == Mod(m0, Exp(2, j)) * Exp(5, j) && d == 5 * Exp(10, j)
  }

  /** s, after so many zeros, is the whole fraction and ends in no zero. */
  ghost predicate FractionOf(s: string, zeros: nat, x: Float) {
    && Number(s, 10) * Exp(2, Down(x.E)) == Rest(x) * Exp(10, zeros + |s|)
    && (if Rest(x) == 0 then zeros + |s| == 1 else Number(s, 10) % 10 == 5)
  }

  method Fraction(x: Float) returns (s: string, zeros: nat)
    requires Representable(x) && Negatable(x)
    ensures Canonical(s, 10) && FractionOf(s, zeros, x)
  {
    hide Exp, Value, Div, Mod, Canonical, Number, Stripped, Halfway, FractionOf;
    var e, m := x.E, x.M;
    ghost var a := 0;
    NotStripped(x);
    while e < 0 && m % 2 == 0
      invariant 0 <= m && 0 <= a && e == x.E + a && (x.E >= 0 ==> a == 0) && (x.E < 0 ==> e <= 0)
      invariant Stripped(x, Down(e), a, m) && (a == 0 ==> m == x.M)
      decreases 0 - e
    {
      StripOne(x, Down(e), a, m);
      m := m / 2;
      e := e + 1;
      a := a + 1;
    }
    assert -0x8000_0000 < e;
    var digits := if e < 0 then 0 - e else 0;
    var f := new UnsignedInt(0);
    var d := new UnsignedInt(5);
    ghost var m0 := m;
    ghost var j := 0;
    FirstBit(m0);
    while e < 0
      invariant 0 <= m && 0 <= j <= digits && (e < 0 ==> j == digits + e) && (e >= 0 ==> j == digits)
      invariant fresh(f) && fresh(d) && f != d && f.Valid() && d.Valid() && Normal(f.limbs) && Normal(d.limbs)
      invariant Halfway(m0, j, m, f.V(), d.V())
      decreases 0 - e
    {
      NextBit(m0, j, m, f.V(), d.V());
      f.MulSmall(5);
      if m % 2 == 1 {
        f.Add(d);
      }
      m := m / 2;
      e := e + 1;
      d.MulSmall(10);
      j := j + 1;
    }
    NormalIsPrintable(f.limbs);
    s := ToDec(f);
    zeros := if |s| < digits then digits - |s| else 0;
    FractionText(x, s, zeros, digits, a, m0, m, f.V(), d.V());
  }

  lemma NotStripped(x: Float)
    ensures Stripped(x, Down(x.E), 0, x.M)
  {
    Commute(x.M, 1);
    Times(1, x.M);
  }

  lemma StripOne(x: Float, digits: nat, a: nat, m: nat)
    requires Stripped(x, digits, a, m) && digits > 0 && m % 2 == 0
    ensures Stripped(x, digits - 1, a + 1, m / 2)
  {
    MulAssoc(m / 2, 2, Exp(2, a));
  }

  lemma FirstBit(m0: nat)
    ensures Halfway(m0, 0, m0, 0, 5)
  {
    DivOne(m0);
    Times(0, 1);
  }

  lemma NextBit(m0: nat, j: nat, m: nat, f: nat, d: nat)
    requires Halfway(m0, j, m, f, d)
    ensures Halfway(m0, j + 1, m / 2, if m % 2 == 1 then f * 5 + d else f * 5, d * 10)
  {
    ExpStep(2, j);
    ExpStep(5, j);
    ExpStep(10, j);
    TenPower(j);
    hide Exp, Div, Mod;
    HalfQuotient(m0, Exp(2, j));
    BitValue(Mod(m0, Exp(2, j)), m % 2, Exp(2, j), Exp(5, j), Exp(10, j));
  }

  lemma BitValue(r: nat, bit: nat, p2: nat, p5: nat, p10: nat)
    requires bit <= 1 && p10 == p2 * p5
    ensures (r + bit * p2) * (5 * p5) == (r * p5) * 5 + bit * (5 * p10)
  {
    Distribute(r, bit * p2, 5 * p5);
    Commute(5, p5);
    MulAssoc(r, p5, 5);
    MulAssoc(bit * p2, p5, 5);
    MulAssoc(bit, p2, p5);
    Times(bit, p10);
    Times(bit, 5 * p10);
  }

  lemma {:induction false} TenPower(k: nat)
    ensures Exp(10, k) == Exp(2, k) * Exp(5, k)
  {
    if k == 0 {
    } else {
      TenPower(k - 1);
      var p, q := Exp(2, k - 1), Exp(5, k - 1);
      assert Exp(10, k) == 10 * Exp(10, k - 1) && Exp(2, k) == 2 * p && Exp(5, k) == 5 * q;
      FourFactors(p, q);
    }
  }

  lemma FourFactors(p: nat, q: nat)
    ensures (2 * p) * (5 * q) == 10 * (p * q)
  {
    MulAssoc(2 * p, 5, q);
    Commute(2 * p, 5);
    MulAssoc(10, p, q);
  }

  lemma ModScale(m: nat, b: nat, c: nat)
    requires b > 0 && c > 0 && b * c > 0
    ensures Mod(m * c, b * c) == Mod(m, b) * c
  {
    DivMod(m, b);
    DivMod(m * c, b * c);
    var q, r := Div(m, b), Mod(m, b);
    Distribute(q * b, r, c);
    MulAssoc(q, b, c);
    MulMono(r + 1, b, c);
    Distribute(r, 1, c);
    SameDigit(Div(m * c, b * c), Mod(m * c, b * c), q, r * c, b * c);
  }

  lemma {:induction false} CanonicalLength(s: string)
    requires Printed(s, 10) && s != "" && s[0] != '0'
    ensures Number(s, 10) >= Exp(10, |s| - 1)
  {
    if |s| == 1 {
      Positive(s, 10);
    } else {
      CanonicalLength(s[..|s| - 1]);
      MulMono(Exp(10, |s| - 2), Number(s[..|s| - 1], 10), 10);
    }
  }

  /** A canonical numeral below 10^k has at most k digits. */
  lemma FitsDigits(s: string, k: nat)
    requires Canonical(s, 10) && k > 0 && Number(s, 10) < Exp(10, k)
    ensures |s| <= k
  {
    if |s| > k {
      CanonicalLength(s);
      ExpMono(10, k, |s| - 1);
    }
  }

  lemma RestIs(x: Float, digits: nat, a: nat, m: nat)
    requires Stripped(x, digits, a, m)
    ensures Exp(2, digits) > 0 && Rest(x) == Mod(m, Exp(2, digits)) * Exp(2, a)
  {
    hide Mod;
    Positive2(digits);
    Positive2(a);
    Positive2(digits + a);
    ExpAdd(2, digits, a);
    ModScale(m, Exp(2, digits), Exp(2, a));
    if x.E >= 0 {
      DivOne(x.M * Exp(2, Up(x.E)));
      DivOne(m);
      Times(0, Exp(2, a));
    } else {
      Commute(x.M, 1);
      Times(1, x.M);
    }
  }

  lemma FractionText(x: Float, s: string, zeros: nat, digits: nat, a: nat, m0: nat, m: nat, f: nat, d: nat)
    requires Stripped(x, digits, a, m0) && (digits > 0 ==> m0 % 2 == 1)
    requires Halfway(m0, digits, m, f, d) && Canonical(s, 10) && Number(s, 10) == f
    requires zeros == if |s| < digits then digits - |s| else 0
    ensures FractionOf(s, zeros, x)
  {
    hide Mod, Exp, Canonical, Rest, Number;
    RestIs(x, digits, a, m0);
    var r := Mod(m0, Exp(2, digits));
    TenPower(digits);
    ExpAdd(2, digits, a);
    Rearrange(r, Exp(5, digits), Exp(2, digits), Exp(2, a));
    if digits == 0 {
      LowNone(2);
      DivOne(m0);
      Times(0, Exp(5, 0));
      Times(0, Exp(2, a));
      ZeroText(10);
      CanonicalUnique(s, "0", 10);
      Times(0, Exp(2, Down(x.E)));
      Times(0, Exp(10, 1));
    } else {
      Positive5(digits);
      RestOdd(m0, digits);
      MulMono(r + 1, Exp(2, digits), Exp(5, digits));
      Distribute(r, 1, Exp(5, digits));
      FitsDigits(s, digits);
      EndsInFive(r, digits);
      Positive2(a);
      MulMono(1, r, Exp(2, a));
    }
  }

  lemma Rearrange(r: nat, p5: nat, p2: nat, pa: nat)
    ensures (r * p5) * (p2 * pa) == (r * pa) * (p2 * p5)
  {
    MulAssoc(r * p5, p2, pa);
    MulAssoc(r, p5, p2);
    Commute(p5, p2);
    MulAssoc(r, p2 * p5, pa);
    Commute(p2 * p5, pa);
    MulAssoc(r, pa, p2 * p5);
  }

  lemma {:induction false} Positive5(n: nat)
    ensures Exp(5, n) > 0 && Exp(5, n) % 2 == 1
  {
    if n == 0 {
    } else {
      Positive5(n - 1);
      OddProduct(5, Exp(5, n - 1));
    }
  }

  lemma RestOdd(m: nat, k: nat)
    requires k > 0 && m % 2 == 1 && Exp(2, k) > 0
    ensures Mod(m, Exp(2, k)) % 2 == 1 && Mod(m, Exp(2, k)) < Exp(2, k)
  {
    hide Exp, Div, Mod;
    var p := Exp(2, k - 1);
    ExpStep(2, k - 1);
    DivMod2(m, 2 * p);
    ModBelow(m, 2 * p);
    OddRest(m, Div(m, 2 * p), p, Mod(m, 2 * p));
  }

  lemma ModBelow(a: nat, x: nat)
    requires x > 0
    ensures Mod(a, x) < x
  {
  }

  lemma OddRest(m: nat, q: nat, p: nat, r: nat)
    requires m == q * (2 * p) + r && m % 2 == 1
    ensures r % 2 == 1
  {
    MulAssoc(q, 2, p);
    Commute(q, 2);
    MulAssoc(2, q, p);
    Parity(q * p, r);
  }

  lemma Parity(h: nat, r: nat)
    requires (2 * h + r) % 2 == 1
    ensures r % 2 == 1
  {
  }

  lemma EndsInFive(r: nat, k: nat)
    requires k > 0 && r % 2 == 1
    ensures (r * Exp(5, k)) % 10 == 5
  {
    hide Exp;
    var p := Exp(5, k - 1);
    ExpStep(5, k - 1);
    Positive5(k - 1);
    MulAssoc(r, 5, p);
    Commute(r, 5);
    MulAssoc(5, r, p);
    OddProduct(r, p);
    FiveTimes(r * p);
  }

  lemma FiveTimes(n: nat)
    requires n % 2 == 1
    ensures (5 * n) % 10 == 5
  {
  }

  lemma OddProduct(a: nat, b: nat)
    requires a % 2 == 1 && b % 2 == 1
    ensures (a * b) % 2 == 1
  {
    var h := a / 2;
    assert a == 2 * h + 1;
    Distribute(2 * h, 1, b);
    MulAssoc(2, h, b);
  }

  // ---------------------------------------------------------------- the whole text

  function Zeros(k: nat): (z: string)
    ensures |z| == k
  {
    seq(k, _ => '0')
  }

  lemma {:induction false} LeadingZeros(k: nat, s: string)
    ensures Number(Zeros(k) + s, 10) == Number(s, 10)
  {
    NumberConcat(Zeros(k), s, 10);
    NoValue(k);
    Times(0, Exp(10, |s|));
  }

  lemma {:induction false} NoValue(k: nat)
    ensures Number(Zeros(k), 10) == 0
  {
    if k == 0 {
    } else {
      NoValue(k - 1);
      assert Zeros(k)[..k - 1] == Zeros(k - 1);
    }
  }

  /** The text is a point between the integer part and a fraction without superfluous digits, and stands for exactly M * 2^E. */
  ghost predicate Reads(dec: string, x: Float) {
    exists k :: 0 <= k < |dec| && dec[k] == '.' && Exact(dec[..k], dec[k + 1..], x)
  }

  ghost predicate Exact(ip: string, fp: string, x: Float) {
    && Canonical(ip, 10) && Numeral(fp, 10)
    && Denotes(ip, fp, x) && Number(ip, 10) == Floor(x)
    && if Rest(x) == 0 then fp == "0" else Number(fp, 10) % 10 == 5
  }

  method Decimal(x: Float) returns (dec: string)
    requires Representable(x) && Negatable(x)
    ensures Reads(dec, x)
  {
    hide Denotes, FractionOf, Rest, Floor, Number, Canonical, Numeral, Reads;
    dec := Integer(x);
    ghost var ip := dec;
    var frac, zeros := Fraction(x);
    Assemble(x, ip, frac, zeros);
    dec := dec + ".";
    dec := dec + Zeros(zeros);
    dec := dec + frac;
    AtPoint(dec, ip, Zeros(zeros) + frac, x);
  }

  lemma AtPoint(dec: string, ip: string, fp: string, x: Float)
    requires dec == ip + "." + fp && Exact(ip, fp, x)
    ensures Reads(dec, x)
  {
    hide Exact;
    assert dec[|ip|] == '.' && dec[..|ip|] == ip && dec[|ip| + 1..] == fp;
  }

  lemma Assemble(x: Float, ip: string, frac: string, zeros: nat)
    requires Number(ip, 10) == Floor(x) && Canonical(frac, 10) && FractionOf(frac, zeros, x)
    ensures Denotes(ip, Zeros(zeros) + frac, x) && Numeral(Zeros(zeros) + frac, 10)
    ensures if Rest(x) == 0 then Zeros(zeros) + frac == "0" else Number(Zeros(zeros) + frac, 10) % 10 == 5
  {
    hide Number, Exp, Mod, Div, Numeral, Canonical, Zeros;
    LeadingZeros(zeros, frac);
    PaddedNumeral(zeros, frac);
    var p, q := Exp(2, Down(x.E)), Exp(10, zeros + |frac|);
    Positive2(Down(x.E));
    DivMod2(x.M * Exp(2, Up(x.E)), p);
    ClearDenominators(Floor(x), Rest(x), Number(frac, 10), p, q);
    if Rest(x) == 0 {
      Times(0, q);
      OnlyZero(frac, p);
      assert Zeros(zeros) == "";
    }
  }

  lemma DivMod2(a: nat, x: nat)
    requires x > 0
    ensures a == Div(a, x) * x + Mod(a, x)
  {
    DivMod(a, x);
  }

  lemma PaddedNumeral(k: nat, s: string)
    requires Canonical(s, 10)
    ensures Numeral(Zeros(k) + s, 10) && s != ""
  {
  }

  lemma ClearDenominators(floor: nat, rest: nat, f: nat, p: nat, q: nat)
    requires f * p == rest * q
    ensures (floor * q + f) * p == (floor * p + rest) * q
  {
    Distribute(floor * q, f, p);
    Distribute(floor * p, rest, q);
    MulAssoc(floor, p, q);
    MulAssoc(floor, q, p);
    Commute(p, q);
  }

  lemma OnlyZero(s: string, p: nat)
    requires |s| == 1 && p > 0 && Canonical(s, 10) && Number(s, 10) * p == 0
    ensures s == "0"
  {
    if Number(s, 10) > 0 {
      MulMono(1, Number(s, 10), p);
    }
    ZeroText(10);
    CanonicalUnique(s, "0", 10);
  }
}

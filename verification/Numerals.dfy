/** Numerals: strings of digits in a radix of at most 16, and the numbers they stand for. */
module Numerals {
  import opened Limbs
  import opened BigInt

  const DIGITS := "0123456789abcdef"
  const UPPER_DIGITS := "0123456789ABCDEF"

  /** fromHex: a character that is no hexadecimal digit gives the 32-bit pattern of -1. */
  function FromHex(c: char): (d: nat)
    ensures d < 16 ==> c == DIGITS[d] || c == UPPER_DIGITS[d]
    ensures d >= 16 ==> c !in DIGITS && c !in UPPER_DIGITS && d == BASE - 1
    ensures d < 10 <==> '0' <= c <= '9'
    ensures d < 16 <==> '0' <= c <= '9' || 'a' <= c <= 'f' || 'A' <= c <= 'F'
  {
    if '0' <= c <= '9' then c as int - '0' as int
    else if 'a' <= c <= 'f' then c as int - 'a' as int + 10
    else if 'A' <= c <= 'F' then c as int - 'A' as int + 10
    else BASE - 1
  }

  /** fromDec: agrees with FromHex on the decimal digits and refuses all others. */
  function FromDec(c: char): (d: nat)
    ensures d < 10 <==> '0' <= c <= '9'
    ensures d < 10 ==> d == FromHex(c)
    ensures d >= 10 ==> d == BASE - 1
  {
    if '0' <= c <= '9' then c as int - '0' as int else BASE - 1
  }

  /** Digits by their character codes: each range starts at its value and goes up by one from character to character. */
  lemma DigitValues(c: char)
    ensures FromHex('0') == FromDec('0') == 0 && FromHex('a') == FromHex('A') == 10
    ensures '0' <= c < '9' ==> FromHex((c as int + 1) as char) == FromHex(c) + 1 && FromDec((c as int + 1) as char) == FromDec(c) + 1
    ensures 'a' <= c < 'f' || 'A' <= c < 'F' ==> FromHex((c as int + 1) as char) == FromHex(c) + 1
  {
  }

  function Shown(d: nat): (c: char)
    requires d < 16
    ensures FromHex(c) == d && ('0' <= c <= '9' || 'a' <= c <= 'f')
    ensures c == '0' <==> d == 0
  {
    DIGITS[d]
  }

  /** Every character is a digit of the radix. */
  ghost predicate Numeral(s: string, b: nat) {
    forall i :: 0 <= i < |s| ==> FromHex(s[i]) < b
  }

  /** Every character is the one that the printers use for its digit. */
  ghost predicate Printed(s: string, b: nat) {
    b <= 16 && forall i :: 0 <= i < |s| ==> FromHex(s[i]) < b && s[i] == Shown(FromHex(s[i]))
  }

  /** A printed numeral with no superfluous leading zero. */
  ghost predicate Canonical(s: string, b: nat) {
    Printed(s, b) && s != "" && (|s| > 1 ==> s[0] != '0')
  }

  /** The number that a numeral stands for, most significant digit first. */
  ghost function Number(s: string, b: nat): (n: nat) {
    if s == "" then 0 else Number(s[..|s| - 1], b) * b + FromHex(s[|s| - 1])
  }

  /** The same with the least significant digit first. */
  ghost function Low(r: string, b: nat): (n: nat) {
    if r == "" then 0 else FromHex(r[0]) + b * Low(r[1..], b)
  }

  /** std::reverse. */
  function Reverse(r: string): (s: string)
    ensures |s| == |r|
  {
    if r == "" then "" else Reverse(r[1..]) + [r[0]]
  }

  lemma {:induction false} ReverseAt(r: string, i: nat)
    requires i < |r|
    ensures Reverse(r)[i] == r[|r| - 1 - i]
  {
    if i < |r| - 1 {
      ReverseAt(r[1..], i);
    }
  }

  lemma {:induction false} NumberReverse(r: string, b: nat)
    ensures Number(Reverse(r), b) == Low(r, b)
  {
    if r == "" {
    } else {
      NumberReverse(r[1..], b);
      assert Reverse(r)[..|r| - 1] == Reverse(r[1..]);
      Commute(Low(r[1..], b), b);
    }
  }

  lemma {:induction false} LowConcat(r: string, t: string, b: nat)
    ensures Low(r + t, b) == Low(r, b) + Exp(b, |r|) * Low(t, b)
  {
    if r == "" {
      assert r + t == t;
      Times(1, Low(t, b));
    } else {
      LowConcat(r[1..], t, b);
      assert (r + t)[1..] == r[1..] + t;
      Distribute(Low(r[1..], b), Exp(b, |r| - 1) * Low(t, b), b);
      MulAssoc(b, Exp(b, |r| - 1), Low(t, b));
    }
  }

  lemma LowOne(c: char, b: nat)
    ensures Low([c], b) == FromHex(c)
  {
    assert Low("", b) == 0;
    Times(0, b);
    Commute(0, b);
    assert [c][1..] == "";
  }

  lemma LowSnoc(r: string, c: char, b: nat)
    ensures Low(r + [c], b) == Low(r, b) + Exp(b, |r|) * FromHex(c)
  {
    LowConcat(r, [c], b);
    LowOne(c, b);
  }

  lemma {:induction false} LowBound(r: string, b: nat)
    requires b > 0 && Numeral(r, b)
    ensures Low(r, b) < Exp(b, |r|)
  {
    if r == "" {
    } else {
      LowBound(r[1..], b);
      MulMono(Low(r[1..], b) + 1, Exp(b, |r| - 1), b);
      Distribute(Low(r[1..], b), 1, b);
    }
  }

  lemma PrintedReverse(r: string, b: nat)
    requires Printed(r, b)
    ensures Printed(Reverse(r), b)
  {
    forall i | 0 <= i < |r|
      ensures Reverse(r)[i] == r[|r| - 1 - i]
    {
      ReverseAt(r, i);
    }
  }

  /** One canonical numeral per number: printing is injective and its image is known exactly. */
  lemma {:induction false} CanonicalUnique(s: string, t: string, b: nat)
    requires 2 <= b && Canonical(s, b) && Canonical(t, b) && Number(s, b) == Number(t, b)
    ensures s == t
    decreases |s|
  {
    hide Number, Shown, FromHex;
    var s', t' := s[..|s| - 1], t[..|t| - 1];
    LastDigit(s, b);
    LastDigit(t, b);
    SameDigit(Number(s', b), FromHex(s[|s| - 1]), Number(t', b), FromHex(t[|t| - 1]), b);
    if |s| > 1 && |t| > 1 {
      CanonicalUnique(s', t', b);
    } else if |s| > 1 {
      Positive(s', b);
    } else if |t| > 1 {
      Positive(t', b);
    }
    assert s == s' + [s[|s| - 1]] && t == t' + [t[|t| - 1]];
  }

  lemma LastDigit(s: string, b: nat)
    requires s != "" && Canonical(s, b)
    ensures Number(s, b) == Number(s[..|s| - 1], b) * b + FromHex(s[|s| - 1]) && FromHex(s[|s| - 1]) < b
    ensures s[|s| - 1] == Shown(FromHex(s[|s| - 1]))
    ensures |s| > 1 ==> Canonical(s[..|s| - 1], b)
    ensures |s| == 1 ==> Number(s[..|s| - 1], b) == 0
  {
    if |s| > 2 {
      assert s[..|s| - 1][0] == s[0];
    }
  }

  lemma {:induction false} Positive(s: string, b: nat)
    requires 2 <= b && Printed(s, b) && s != "" && s[0] != '0'
    ensures Number(s, b) > 0
  {
    if |s| > 1 {
      Positive(s[..|s| - 1], b);
      MulMono(1, Number(s[..|s| - 1], b), b);
    }
  }

  lemma SameDigit(x: nat, d: nat, y: nat, e: nat, b: nat)
    requires d < b && e < b && x * b + d == y * b + e
    ensures x == y && d == e
  {
    if x < y {
      MulMono(x + 1, y, b);
      Distribute(x, 1, b);
    } else if y < x {
      MulMono(y + 1, x, b);
      Distribute(y, 1, b);
    }
  }

  /** A run of exactly k digits, least significant first. */
  method PushFixed(x: nat, b: nat, k: nat) returns (r: string)
    requires 2 <= b <= 16 && x < Exp(b, k)
    ensures |r| == k && Printed(r, b) && Low(r, b) == x
  {
    hide Exp, Low, Div, Mod;
    r := "";
    LowNone(b);
    var y := x;
    Times(1, y);
    for i := 0 to k
      invariant |r| == i && Printed(r, b) && y >= 0
      invariant Low(r, b) + Exp(b, i) * y == x
    {
      DigitStep(y, b, Exp(b, i));
      LowSnoc(r, Shown(Mod(y, b)), b);
      ExpStep(b, i);
      r := r + [Shown(Mod(y, b))];
      y := Div(y, b);
    }
    if y > 0 {
      MulMono(1, y, Exp(b, k));
    }
    Commute(Exp(b, k), 0);
  }

  /** At least one digit, and no zero at the significant end of a longer run. */
  method PushAll(x: nat, b: nat) returns (r: string)
    requires 2 <= b <= 16
    ensures r != "" && Printed(r, b) && Low(r, b) == x
    ensures |r| > 1 ==> r[|r| - 1] != '0'
  {
    hide Exp, Low, Div, Mod;
    LowNone(b);
    r := "";
    var y := x;
    Times(1, y);
    while true
      invariant Printed(r, b) && y >= 0 && (r != "" ==> y > 0)
      invariant Low(r, b) + Exp(b, |r|) * y == x
      decreases y
    {
      DigitStep(y, b, Exp(b, |r|));
      LowSnoc(r, Shown(Mod(y, b)), b);
      ExpStep(b, |r|);
      r := r + [Shown(Mod(y, b))];
      Commute(Exp(b, |r|), 0);
      if Div(y, b) == 0 {
        break;
      }
      y := Div(y, b);
    }
  }

  lemma LowNone(b: nat)
    ensures Low("", b) == 0 && Exp(b, 0) == 1
  {
  }

  lemma ExpStep(b: nat, n: nat)
    ensures Exp(b, n + 1) == b * Exp(b, n)
  {
  }

  lemma DigitStep(y: nat, b: nat, p: nat)
    requires b >= 2
    ensures Mod(y, b) < b && (y > 0 ==> Div(y, b) < y)
    ensures y > 0 && Div(y, b) == 0 ==> Mod(y, b) > 0
    ensures p * Mod(y, b) + (b * p) * Div(y, b) == p * y
  {
    DivMod(y, b);
    if y > 0 && Div(y, b) >= y {
      MulMono(y, Div(y, b), b);
      MulMono(2, b, y);
    }
    Times(0, b);
    Commute(Div(y, b), b);
    Distribute(b * Div(y, b), Mod(y, b), p);
    MulAssoc(p, b, Div(y, b));
    Commute(p, b);
  }

  /** One more bit of a binary number. */
  lemma HalfQuotient(n: nat, b: nat)
    requires b > 0
    ensures Div(n, 2 * b) == Div(n, b) / 2
    ensures Mod(n, 2 * b) == Mod(n, b) + (Div(n, b) % 2) * b
  {
    var q, r := Div(n, b), Mod(n, b);
    DivMod(n, b);
    MulAssoc(q / 2, 2, b);
    Distribute(2 * (q / 2), q % 2, b);
    Times(q % 2, b);
    assert n == (q / 2) * (2 * b) + ((q % 2) * b + r);
    DivMod(n, 2 * b);
    SameDigit(Div(n, 2 * b), Mod(n, 2 * b), q / 2, (q % 2) * b + r, 2 * b);
  }
}

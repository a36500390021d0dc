/** Writing a signed value as a string of binary digits, by way of a number whose decimal digits
    look like them; a negative value comes out as the complement of its absolute value. */
module Numerals {
  import opened Bits
  import opened Blocks

  /** The string of '0' and '1' for a bit string, and back. */
  function BitStr(b: seq<bool>): (s: string)
    ensures |s| == |b|
  {
    seq(|b|, i requires 0 <= i < |b| => if b[i] then '1' else '0')
  }

  function StrBits(s: string): (b: seq<bool>)
    ensures |b| == |s|
  {
    seq(|s|, i requires 0 <= i < |s| => s[i] != '0')
  }

  function Complement(b: seq<bool>): (r: seq<bool>)
    ensures |r| == |b|
  {
    seq(|b|, i requires 0 <= i < |b| => !b[i])
  }

  /** The binary numeral of n without leading zeros; "0" for 0. */
  function Binary(n: nat): (r: seq<bool>)
    ensures r != []
  {
    if n < 2 then [n == 1] else Binary(n / 2) + [n % 2 == 1]
  }

  /** What tobin returns. */
  function Numeral(n: int): string {
    if n >= 0 then BitStr(Binary(n)) else BitStr(Complement(Binary(-n)))
  }

  // C's division and remainder truncate toward zero.
  function DivTrunc(a: int, b: int): int
    requires b > 0
  {
    if a >= 0 then a / b else -((-a) / b)
  }

  function ModTrunc(a: int, b: int): int
    requires b > 0
  {
    a - b * DivTrunc(a, b)
  }

  function Abs(n: int): nat { if n >= 0 then n else -n }

  /** The number whose decimal digits are the binary digits of n. */
  function Decimal(n: nat): nat {
    if n == 0 then 0 else 10 * Decimal(n / 2) + n % 2
  }

  /** The shortest decimal numeral of n, as digit characters. */
  function DigitStr(n: nat): (r: string)
    ensures r != []
  {
    if n < 10 then [Digit(n)] else DigitStr(n / 10) + [Digit(n % 10)]
  }

  function Digit(d: nat): char
    requires d < 10
  {
    "0123456789"[d]
  }

  function Flip(c: char): char { if c == '1' then '0' else '1' }

  function FlipAll(s: string): (r: string)
    ensures |r| == |s|
  {
    seq(|s|, i requires 0 <= i < |s| => Flip(s[i]))
  }

  /** Prints n in decimal; the digits of a negative n are complemented one by one. */
  method Itoa(n: int) returns (s: string)
    ensures s == if n < 0 then FlipAll(DigitStr(-n)) else DigitStr(n)
  {
    hide Digit, Reversed, FlipAll, DigitStr;
    var m := if n < 0 then -n else n;
    ghost var total := DigitStr(m);
    DigitStep(m);
    var digits: string := [Digit(m % 10)];  // least significant digit first
    ReversedSnoc("", Digit(m % 10));
    assert digits == "" + [Digit(m % 10)];
    m := m / 10;
    while m > 0
      invariant m >= 0
      invariant total == (if m == 0 then [] else DigitStr(m)) + Reversed(digits)
    {
      DigitStep(m);
      ReversedSnoc(digits, Digit(m % 10));
      digits := digits + [Digit(m % 10)];
      m := m / 10;
    }
    assert total == Reversed(digits);
    s := ReverseOut(digits, n < 0);
  }

  lemma {:induction false} DigitStep(m: nat)
    ensures DigitStr(m) == (if m < 10 then [] else DigitStr(m / 10)) + [Digit(m % 10)]
  {}

  /** Copies the digits in reverse, complementing them on the way for a negative number. */
  method ReverseOut(digits: string, negative: bool) returns (s: string)
    ensures s == if negative then FlipAll(Reversed(digits)) else Reversed(digits)
  {
    s := [];
    var k := 0;
    while k < |digits|
      invariant 0 <= k <= |digits| && |s| == k
      invariant forall i :: 0 <= i < k ==>
                  s[i] == if negative then Flip(digits[|digits| - 1 - i]) else digits[|digits| - 1 - i]
    {
      var c := digits[|digits| - 1 - k];
      s := s + [if negative then (if c == '1' then '0' else '1') else c];
      k := k + 1;
    }
  }

  function Reversed(s: string): (r: string)
    ensures |r| == |s|
  {
    seq(|s|, i requires 0 <= i < |s| => s[|s| - 1 - i])
  }

  lemma {:induction false} ReversedSnoc(s: string, c: char)
    ensures Reversed(s + [c]) == [c] + Reversed(s) && (s == "" ==> Reversed(s) == "")
  {}

  lemma {:induction false} DigitsOfDecimal(n: nat)
    ensures DigitStr(Decimal(n)) == BitStr(Binary(n))
  {
    if n >= 2 {
      DigitsOfDecimal(n / 2);
      DecimalPositive(n / 2);
      assert Decimal(n) / 10 == Decimal(n / 2) && Decimal(n) % 10 == n % 2;
      assert BitStr(Binary(n)) == BitStr(Binary(n / 2)) + [if n % 2 == 1 then '1' else '0'];
    }
  }

  lemma {:induction false} DecimalPositive(n: nat)
    ensures n > 0 ==> Decimal(n) > 0
  {
    if n > 1 { DecimalPositive(n / 2); }
  }

  lemma {:induction false} DecimalStep(a: nat, b: nat, i: nat)
    ensures (10 * a + b) * i == a * (10 * i) + b * i
  {}

  lemma {:induction false} FlipComplement(b: seq<bool>)
    ensures FlipAll(BitStr(b)) == BitStr(Complement(b))
  {}

  function Pow10(n: nat): (r: nat)
    ensures r > 0
  {
    if n == 0 then 1 else 10 * Pow10(n - 1)
  }

  lemma {:induction false} Pow10Mono(a: nat, b: nat)
    requires a <= b
    ensures Pow10(a) <= Pow10(b)
  {
    if a < b { Pow10Mono(a, b - 1); }
  }

  /** A 64-bit long long. */
  predicate Long(x: int) { -0x8000_0000_0000_0000 <= x < 0x8000_0000_0000_0000 }

  /** After some steps, `binary` holds their digits of n, m the rest of n, i the next power of 10. */
  ghost predicate Digits(n: int, m: int, binary: int, i: int, steps: nat) {
    && (n >= 0 ==> m >= 0 && binary >= 0) && (n <= 0 ==> m <= 0 && binary <= 0)
    && steps <= 18 && i == Pow10(steps) && Abs(m) < Pow2(18 - steps)
    && Abs(binary) < i && Decimal(Abs(m)) * i + Abs(binary) == Decimal(Abs(n))
  }

  lemma {:induction false} StepArith(d: nat, r: nat, i: nat, binary: nat)
    requires r <= 1 && binary < i
    ensures d * (i * 10) + (binary + r * i) == (10 * d + r) * i + binary
    ensures binary + r * i < i * 10
  {
    DecimalStep(d, r, i);
  }

  lemma {:induction false} DigitsStep(n: int, m: int, binary: int, i: int, steps: nat)
    requires Digits(n, m, binary, i, steps) && m != 0
    ensures Digits(n, DivTrunc(m, 2), binary + ModTrunc(m, 2) * i, i * 10, steps + 1)
  {
    hide Pow10, Long, Decimal, Pow2;
    var a, r := Abs(m), Abs(m) % 2;
    assert Pow10(steps + 1) == 10 * Pow10(steps) by { Pow10Next(steps); }
    Halved(a, 18 - steps);
    StepArith(Decimal(a / 2), r, i, Abs(binary));
    assert Abs(DivTrunc(m, 2)) == a / 2;
    if m > 0 {
      assert ModTrunc(m, 2) == r;
    } else {
      assert ModTrunc(m, 2) == -r;
      assert (-r) * i == -(r * i);
    }
  }

  lemma {:induction false} Halved(a: nat, k: nat)
    requires 0 < a < Pow2(k)
    ensures Decimal(a) == 10 * Decimal(a / 2) + a % 2
    ensures k > 0 && a / 2 < Pow2(k - 1)
  {}

  lemma {:induction false} Pow10Next(n: nat)
    ensures Pow10(n + 1) == 10 * Pow10(n)
  {}

  lemma {:induction false} DigitsLong(n: int, m: int, binary: int, i: int, steps: nat)
    requires Digits(n, m, binary, i, steps)
    ensures Long(i) && Long(binary)
  {
    Pow10Mono(steps, 18);
    assert Pow10(6) == 1_000_000;
    assert Pow10(12) == 1_000_000_000_000;
    assert Pow10(18) == 1_000_000_000_000_000_000;
  }

  /** The binary digits of n. Up to 18 of them, the decimal-looking number and its power of ten
      stay within a long long. */
  method Tobin(n: int) returns (s: string)
    requires Abs(n) < Pow2(18)
    ensures s == Numeral(n)
  {
    var binaryNumber, i, m := 0, 1, n;
    ghost var steps := 0;
    while m != 0
      invariant Digits(n, m, binaryNumber, i, steps)
      invariant Long(i) && Long(binaryNumber)
      decreases Abs(m)
    {
      DigitsStep(n, m, binaryNumber, i, steps);
      DigitsLong(n, DivTrunc(m, 2), binaryNumber + ModTrunc(m, 2) * i, i * 10, steps + 1);
      var remainder := ModTrunc(m, 2);
      m := DivTrunc(m, 2);
      binaryNumber := binaryNumber + remainder * i;
      i := i * 10;
      steps := steps + 1;
    }
    DigitsOfDecimal(Abs(n));
    DecimalPositive(Abs(n));
    s := Itoa(binaryNumber);
    if n < 0 { FlipComplement(Binary(-n)); }
  }

  lemma {:induction false} BinaryVal(b: seq<bool>)
    requires b != [] && b[0]
    ensures Binary(Val(b)) == b
  {
    if |b| == 1 {
      assert b[..0] == [];
    } else {
      var a := b[..|b| - 1];
      BinaryVal(a);
      ValLeading(a);
      assert b == a + [b[|b| - 1]];
    }
  }

  /** A bit string that starts with a one denotes at least half its range, one that starts with a
      zero less. */
  lemma {:induction false} ValLeading(b: seq<bool>)
    requires b != []
    ensures b[0] <==> Val(b) >= Pow2(|b| - 1)
  {
    if |b| == 1 {
      assert b[..0] == [];
    } else {
      ValLeading(b[..|b| - 1]);
    }
  }

  lemma {:induction false} ValComplement(b: seq<bool>)
    ensures Val(b) + Val(Complement(b)) + 1 == Pow2(|b|)
  {
    if b != [] {
      ValComplement(b[..|b| - 1]);
      assert Complement(b)[..|b| - 1] == Complement(b[..|b| - 1]);
    }
  }

  /** Magnitude bits round trip: sign-extending s raw bits to a coefficient and printing it back
      gives the s bits that were read, whatever the sign. */
  lemma {:induction false} MagnitudeRoundTrip(b: seq<bool>)
    requires b != []
    ensures Numeral(Extend(Val(b), |b|)) == BitStr(b)
  {
    ValLeading(b);
    if b[0] {
      BinaryVal(b);
    } else {
      var c := Complement(b);
      ValComplement(b);
      BinaryVal(c);
      ValLeading(c);
      assert Complement(c) == b;
    }
  }

  lemma {:induction false} StrBitsBitStr(b: seq<bool>)
    ensures StrBits(BitStr(b)) == b
  {}
}

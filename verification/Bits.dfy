/** Bit strings, most significant bit first, and the numbers they denote. */
module Bits {
  type byte = x: int | 0 <= x < 256

  datatype Option<+T> = None | Some(value: T)

  /** x << k */
  function Shl(x: nat, k: nat): (r: nat)
    ensures r >= x
  {
    if k == 0 then x else 2 * Shl(x, k - 1)
  }

  /** x >> k */
  function Shr(x: nat, k: nat): nat {
    if k == 0 then x else Shr(x, k - 1) / 2
  }

  /** x & ((1 << n) - 1) */
  function Low(x: nat, n: nat): nat {
    if n == 0 then 0 else 2 * Low(x / 2, n - 1) + x % 2
  }

  function Pow2(n: nat): (r: nat)
    ensures r >= 1
  {
    Shl(1, n)
  }

  /** The number a bit string denotes. */
  function Val(s: seq<bool>): nat {
    if s == [] then 0 else 2 * Val(s[..|s| - 1]) + (if s[|s| - 1] then 1 else 0)
  }

  /** The low n bits of v. */
  function BitsOf(v: nat, n: nat): (s: seq<bool>)
    ensures |s| == n
  {
    if n == 0 then [] else BitsOf(v / 2, n - 1) + [v % 2 == 1]
  }

  function Ones(n: nat): (s: seq<bool>)
    ensures |s| == n
  {
    seq(n, _ => true)
  }

  function Zeros(n: nat): (s: seq<bool>)
    ensures |s| == n
  {
    seq(n, _ => false)
  }

  /** The bits of a byte string, byte after byte. */
  function BytesBits(bs: seq<byte>): (s: seq<bool>)
    ensures |s| == 8 * |bs|
  {
    if bs == [] then [] else BytesBits(bs[..|bs| - 1]) + BitsOf(bs[|bs| - 1], 8)
  }

  lemma {:induction false} ShlAdd(x: nat, a: nat, b: nat)
    ensures Shl(Shl(x, a), b) == Shl(x, a + b)
  {
    if b > 0 { ShlAdd(x, a, b - 1); }
  }

  lemma {:induction false} ShlFits(c: nat, a: nat, b: nat, n: nat)
    requires n == a + b
    ensures c <= Pow2(a) <==> Shl(c, b) <= Pow2(n)
    ensures c < Pow2(a) <==> Shl(c, b) < Pow2(n)
  {
    ShlAdd(1, a, b);
    ShlLe(c, Pow2(a), b);
    ShlLe(Pow2(a), c, b);
  }

  lemma {:induction false} ShlSum(x: nat, y: nat, k: nat)
    ensures Shl(x + y, k) == Shl(x, k) + Shl(y, k)
  {
    if k > 0 { ShlSum(x, y, k - 1); }
  }

  lemma {:induction false} ShlZero(k: nat)
    ensures Shl(0, k) == 0
  {
    if k > 0 { ShlZero(k - 1); }
  }

  lemma {:induction false} ShlLe(x: nat, y: nat, k: nat)
    ensures Shl(x, k) <= Shl(y, k) <==> x <= y
  {
    if k > 0 { ShlLe(x, y, k - 1); }
  }

  lemma {:induction false} Pow2Mono(a: nat, b: nat)
    requires a <= b
    ensures Pow2(a) <= Pow2(b)
  {
    if a < b { Pow2Mono(a, b - 1); }
  }

  /** A number below 2^k is what a shift by k leaves room for. */
  lemma {:induction false} Interval(q: nat, c: nat, k: nat, r: nat)
    requires r < Pow2(k)
    ensures q == c <==> Shl(c, k) <= Shl(q, k) + r < Shl(c, k) + Pow2(k)
  {
    hide Shl;
    ShlSum(q, 1, k);
    ShlSum(c, 1, k);
    ShlLe(q + 1, c, k);
    ShlLe(c + 1, q, k);
  }

  lemma {:induction false} ValBound(s: seq<bool>)
    ensures Val(s) < Pow2(|s|)
  {
    if s != [] { ValBound(s[..|s| - 1]); }
  }

  lemma {:induction false} ValBitsOf(v: nat, n: nat)
    requires v < Pow2(n)
    ensures Val(BitsOf(v, n)) == v
  {
    if n > 0 {
      ValBitsOf(v / 2, n - 1);
      var s := BitsOf(v, n);
      assert s[..|s| - 1] == BitsOf(v / 2, n - 1);
    }
  }

  lemma {:induction false} BitsOfVal(s: seq<bool>)
    ensures BitsOf(Val(s), |s|) == s
  {
    if s != [] {
      BitsOfVal(s[..|s| - 1]);
      assert s == s[..|s| - 1] + [s[|s| - 1]];
    }
  }

  /** Two bit strings of one length that denote the same number are equal. */
  lemma {:induction false} ValInjective(a: seq<bool>, b: seq<bool>)
    requires |a| == |b| && Val(a) == Val(b)
    ensures a == b
  {
    BitsOfVal(a);
    BitsOfVal(b);
  }

  lemma {:induction false} ValConcat(a: seq<bool>, b: seq<bool>)
    ensures Val(a + b) == Shl(Val(a), |b|) + Val(b)
  {
    if b == [] {
      assert a + b == a;
    } else {
      var b' := b[..|b| - 1];
      ValConcat(a, b');
      assert (a + b)[..|a + b| - 1] == a + b';
    }
  }

  /** Shifting right drops the last k bits ... */
  lemma {:induction false} ValShr(s: seq<bool>, k: nat)
    requires k <= |s|
    ensures Shr(Val(s), k) == Val(s[..|s| - k])
  {
    if k == 0 {
      assert s[..|s|] == s;
    } else {
      ValShr(s, k - 1);
      var t := s[..|s| - k + 1];
      assert t[..|t| - 1] == s[..|s| - k];
    }
  }

  /** ... and masking keeps them. */
  lemma {:induction false} ValLow(s: seq<bool>, k: nat)
    requires k <= |s|
    ensures Low(Val(s), k) == Val(s[|s| - k..])
  {
    if k > 0 {
      var t := s[..|s| - 1];
      ValLow(t, k - 1);
      var u := s[|s| - k..];
      assert u[..|u| - 1] == t[|t| - (k - 1)..];
      assert u[|u| - 1] == s[|s| - 1];
      assert Val(s) / 2 == Val(t);
    }
  }

  lemma {:induction false} MulStep(a: int, b: int, d: nat)
    requires a > b
    ensures a * d >= b * d + d
  {
    var k := a - b - 1;
    assert a * d == (b + 1 + k) * d == b * d + d + k * d;
    assert k * d >= 0;
  }

  lemma {:induction false} DivModUnique(x: nat, q: nat, d: nat, r: nat)
    requires x == q * d + r && r < d
    ensures x / d == q && x % d == r
  {
    assert x == (x / d) * d + x % d;
    if x / d > q { MulStep(x / d, q, d); }
    if x / d < q { MulStep(q, x / d, d); }
  }

  lemma {:induction false} BytesBitsConcat(a: seq<byte>, b: seq<byte>)
    ensures BytesBits(a + b) == BytesBits(a) + BytesBits(b)
  {
    if b == [] {
      assert a + b == a;
    } else {
      var b' := b[..|b| - 1];
      BytesBitsConcat(a, b');
      assert (a + b)[..|a + b| - 1] == a + b';
    }
  }

  lemma {:induction false} BytesBitsOne(x: byte)
    ensures BytesBits([x]) == BitsOf(x, 8)
  {
    assert [x][..0] == [];
  }
}

/** The decoder's tables: a 512-entry lookup for codes of up to 9 bits, and for each longer size a
    zero-terminated chain of (code, value) pairs. */
module HuffmanTables {
  import opened Bits
  import opened Canonical

  const HASH_NBITS := 9
  const CHAIN := 256

  /** The 9-bit window w starts with the code of entry i. */
  predicate Hit(s: seq<nat>, i: nat, w: nat)
    requires Ordered(s) && i < |s|
  {
    s[i] <= 9 && Shl(Code(s, i), 9 - s[i]) <= w < Shl(Code(s, i), 9 - s[i]) + Pow2(9 - s[i])
  }

  /** The lookup entry of w after the first n table entries: a value, or -1. */
  function Slot(h: Huff, n: nat, w: nat): int
    requires Ordered(h.sizes) && |h.vals| == |h.sizes| && n <= |h.sizes|
  {
    if n == 0 then -1
    else if Hit(h.sizes, n - 1, w) then h.vals[n - 1]
    else Slot(h, n - 1, w)
  }

  /** Those of the first n entries that have a code of the given size, in order. */
  function Chain(s: seq<nat>, size: nat, n: nat): (c: seq<nat>)
    requires n <= |s|
    ensures forall q :: 0 <= q < |c| ==> c[q] < n && s[c[q]] == size
  {
    if n == 0 then []
    else if s[n - 1] == size then Chain(s, size, n - 1) + [n - 1]
    else Chain(s, size, n - 1)
  }

  lemma {:induction false} ChainLength(s: seq<nat>, size: nat, n: nat)
    requires n <= |s|
    ensures |Chain(s, size, n)| == Occurrences(s[..n], size)
  {
    if n > 0 {
      ChainLength(s, size, n - 1);
      assert s[..n][..n - 1] == s[..n - 1];
    }
  }

  lemma {:induction false} ChainNext(s: seq<nat>, size: nat, i: nat)
    requires i < |s|
    ensures Chain(s, size, i + 1) == Chain(s, size, i) + (if s[i] == size then [i] else [])
  {}

  lemma {:induction false} ChainMono(s: seq<nat>, size: nat, m: nat, n: nat)
    requires m <= n <= |s|
    ensures |Chain(s, size, m)| <= |Chain(s, size, n)|
  {
    if m < n { ChainMono(s, size, m, n - 1); }
  }

  /** 256 numbers are enough for a chain of up to 127 codes and its terminator. */
  lemma {:induction false} ChainFits(h: Huff, size: nat, n: nat)
    requires Good(h) && n <= |h.sizes| && 10 <= size <= 16
    ensures 2 * |Chain(h.sizes, size, n)| + 1 < CHAIN
  {
    ChainMono(h.sizes, size, n, |h.sizes|);
    ChainLength(h.sizes, size, |h.sizes|);
    assert h.sizes[..|h.sizes|] == h.sizes;
  }

  lemma {:induction false} ChainHas(s: seq<nat>, size: nat, n: nat, i: nat)
    requires i < n <= |s| && s[i] == size
    ensures i in Chain(s, size, n)
  {
    if i < n - 1 { ChainHas(s, size, n - 1, i); }
  }

  /** Slow codes are never 0, so 0 can terminate their chains. */
  lemma {:induction false} SlowCodePositive(s: seq<nat>, i: nat)
    requires Ordered(s) && i < |s| && s[0] <= 9 < s[i]
    ensures Code(s, i) > 0
  {
    CodeGap(s, 0, i);
  }

  lemma {:induction false} HitPrefix(s: seq<nat>, i: nat, b: seq<bool>)
    requires Kraftful(s) && i < |s| && |b| == 9 && s[i] <= 9
    ensures Hit(s, i, Val(b)) <==> Codeword(s, i) <= b
  {
    PrefixInterval(s, i, b, 9 - s[i]);
  }

  lemma {:induction false} SlotNone(h: Huff, n: nat, b: seq<bool>)
    requires Kraftful(h.sizes) && |h.vals| == |h.sizes| && n <= |h.sizes| && |b| == 9
    requires forall i :: 0 <= i < n ==> !(Codeword(h.sizes, i) <= b)
    ensures Slot(h, n, Val(b)) == -1
  {
    if n > 0 {
      SlotNone(h, n - 1, b);
      if h.sizes[n - 1] <= 9 { HitPrefix(h.sizes, n - 1, b); }
    }
  }

  lemma {:induction false} SlotSome(h: Huff, n: nat, b: seq<bool>, k: nat)
    requires Kraftful(h.sizes) && |h.vals| == |h.sizes| && k < n <= |h.sizes| && |b| == 9
    requires Codeword(h.sizes, k) <= b
    ensures Slot(h, n, Val(b)) == h.vals[k]
  {
    var i := n - 1;
    if h.sizes[i] <= 9 { HitPrefix(h.sizes, i, b); }
    if i == k {
    } else {
      if h.sizes[i] <= 9 && Codeword(h.sizes, i) <= b { PrefixFree(h.sizes, i, k, b); }
      SlotSome(h, n - 1, b, k);
    }
  }

  /** Each lookup slot holds the value of the one short code that starts its index, or -1. */
  lemma {:induction false} SlotIsFind(h: Huff, b: seq<bool>)
    requires Kraftful(h.sizes) && |h.vals| == |h.sizes| && |b| == 9
    ensures Slot(h, |h.sizes|, Val(b)) == match Find(h.sizes, b, 0) case Some(i) => h.vals[i] case None => -1
  {
    FindSpec(h.sizes, b, 0);
    match Find(h.sizes, b, 0)
    case Some(k) => SlotSome(h, |h.sizes|, b, k);
    case None => SlotNone(h, |h.sizes|, b);
  }

  /** When no shorter code matched, a code matches b exactly when it is in the chain of that size. */
  lemma {:induction false} ChainIsFind(h: Huff, b: seq<bool>, k: nat)
    requires Kraftful(h.sizes) && k < |h.sizes| && h.sizes[k] == |b|
    ensures Codeword(h.sizes, k) <= b <==> Code(h.sizes, k) == Val(b)
  {
    PrefixHead(h.sizes, k, b);
    assert b[..|b|] == b;
  }

  class HuffmanTable {
    const lookup: array<int>
    const codeSize: array<int>
    const slow: array2<int>
    ghost var h: Huff

    ghost const Repr: set<object>

    ghost predicate Shape() {
      && lookup.Length == 512 && codeSize.Length == 512 && lookup != codeSize
      && slow.Length0 == 7 && slow.Length1 == CHAIN
      && Repr == {this, lookup, codeSize, slow}
    }

    ghost predicate LookupOk(t: Huff, n: nat)
      requires Ordered(t.sizes) && |t.vals| == |t.sizes| && n <= |t.sizes|
      reads lookup
    {
      lookup.Length == 512 && forall w :: 0 <= w < 512 ==> lookup[w] == Slot(t, n, w)
    }

    ghost predicate SizesOk(t: Huff, n: nat)
      requires n <= |t.sizes| && |t.vals| == |t.sizes|
      reads codeSize
    {
      codeSize.Length == 512
      && forall i :: 0 <= i < n ==> t.vals[i] < 256 && codeSize[t.vals[i]] == t.sizes[i]
    }

    ghost predicate RowOk(t: Huff, n: nat, e: nat)
      requires Ordered(t.sizes) && |t.vals| == |t.sizes| && n <= |t.sizes|
      reads slow
    {
      && slow.Length0 == 7 && slow.Length1 == CHAIN && e < 7
      && var c := Chain(t.sizes, e + 10, n);
         && 2 * |c| + 1 < CHAIN && slow[e, 2 * |c|] == 0
         && forall q :: 0 <= q < |c| ==>
              slow[e, 2 * q] == Code(t.sizes, c[q]) && slow[e, 2 * q + 1] == t.vals[c[q]]
    }

    ghost predicate RowsOk(t: Huff, n: nat)
      requires Ordered(t.sizes) && |t.vals| == |t.sizes| && n <= |t.sizes|
      reads slow
    {
      forall e :: 0 <= e < 7 ==> RowOk(t, n, e)
    }

    ghost predicate Holds(t: Huff, n: nat)
      requires Ordered(t.sizes) && |t.vals| == |t.sizes| && n <= |t.sizes|
      reads lookup, codeSize, slow
    {
      LookupOk(t, n) && SizesOk(t, n) && RowsOk(t, n)
    }

    /** The table represents h. */
    ghost predicate Valid()
      reads this, lookup, codeSize, slow
    {
      Shape() && Good(h) && Holds(h, |h.sizes|)
    }

    /** Fills the lookup entries that start with a short code. */
    method FillShort(code: nat, size: nat, val: nat)
      requires Shape() && 1 <= size <= 9 && Shl(code, 9 - size) + Pow2(9 - size) <= 512
      modifies lookup
      ensures forall w :: 0 <= w < 512 ==>
                lookup[w] == if Shl(code, 9 - size) <= w < Shl(code, 9 - size) + Pow2(9 - size)
                             then val else old(lookup[w])
    {
      var repeat := Pow2(9 - size);
      var first := Shl(code, 9 - size);
      var k := first;
      while repeat > 0
        invariant k + repeat == first + Pow2(9 - size) && repeat >= 0
        invariant forall w :: 0 <= w < 512 ==>
                    lookup[w] == if first <= w < k then val else old(lookup[w])
      {
        repeat := repeat - 1;
        lookup[k] := val;
        k := k + 1;
      }
    }

    /** Appends a code to the chain of its size, walking to the terminator. `used` codes are there. */
    method AppendSlow(code: nat, e: nat, val: nat, ghost used: nat)
      requires Shape() && e < 7 && 2 * used + 3 < CHAIN
      requires slow[e, 2 * used] == 0
      requires forall q :: 0 <= q < used ==> slow[e, 2 * q] != 0
      modifies slow
      ensures slow[e, 2 * used] == code && slow[e, 2 * used + 1] == val && slow[e, 2 * used + 2] == 0
      ensures forall r, k :: 0 <= r < 7 && 0 <= k < CHAIN && !(r == e && 2 * used <= k <= 2 * used + 2) ==>
                slow[r, k] == old(slow[r, k])
    {
      var k := 0;
      ghost var q := 0;
      while slow[e, k] != 0
        invariant k == 2 * q && q <= used
        decreases used - q
      {
        k := k + 2;
        q := q + 1;
      }
      assert q == used;
      slow[e, k] := code;
      slow[e, k + 1] := val;
      slow[e, k + 2] := 0;
    }

    /** Enters entry i of t. */
    method AddEntry(ghost t: Huff, ghost i: nat, code: nat, size: nat, val: nat)
      requires Shape() && Good(t) && i < |t.sizes| && Holds(t, i)
      requires code == Code(t.sizes, i) && size == t.sizes[i] && val == t.vals[i]
      modifies lookup, codeSize, slow
      ensures Holds(t, i + 1)
    {
      hide Good, LookupOk, RowsOk;
      GoodEntry(t, i);
      codeSize[val] := size;
      if size <= HASH_NBITS {
        RowsShort(t, i);
        AddShort(t, i, code, size, val);
      } else {
        LookupLong(t, i);
        AddSlow(t, i, code, size, val);
      }
    }

    lemma {:induction false} RowsShort(t: Huff, i: nat)
      requires Ordered(t.sizes) && |t.vals| == |t.sizes| && i < |t.sizes| && t.sizes[i] <= 9
      requires RowsOk(t, i)
      ensures RowsOk(t, i + 1)
    {
      var n := i + 1;
      forall e: nat | e < 7 ensures RowOk(t, n, e) {
        assert RowOk(t, i, e);
        assert Chain(t.sizes, e + 10, i + 1) == Chain(t.sizes, e + 10, i);
      }
    }

    lemma {:induction false} LookupLong(t: Huff, i: nat)
      requires Ordered(t.sizes) && |t.vals| == |t.sizes| && i < |t.sizes| && t.sizes[i] > 9
      requires LookupOk(t, i)
      ensures LookupOk(t, i + 1)
    {}

    method AddShort(ghost t: Huff, ghost i: nat, code: nat, size: nat, val: nat)
      requires Shape() && Good(t) && i < |t.sizes| && t.sizes[i] <= 9 && LookupOk(t, i)
      requires code == Code(t.sizes, i) && size == t.sizes[i] && val == t.vals[i]
      modifies lookup
      ensures LookupOk(t, i + 1)
    {
      hide Code, Pow2, Shl;
      WindowFits(t.sizes, i);
      FillShort(code, size, val);
    }

    method AddSlow(ghost t: Huff, ghost i: nat, code: nat, size: nat, val: nat)
      requires Shape() && Good(t) && i < |t.sizes| && size > 9 && RowsOk(t, i)
      requires code == Code(t.sizes, i) && size == t.sizes[i] && val == t.vals[i]
      modifies slow
      ensures RowsOk(t, i + 1)
    {
      hide Code, Good, Chain, Ordered;
      GoodEntry(t, i);
      var row := size - HASH_NBITS - 1;
      ghost var c := Chain(t.sizes, row + 10, i);
      assert RowOk(t, i, row);
      SlowRow(t, i);
      AppendSlow(code, row, val, |c|);
      ghost var n := i + 1;
      forall e: nat | e < 7 ensures RowOk(t, n, e) {
        assert old(RowOk(t, i, e));
        ChainNext(t.sizes, e + 10, i);
      }
    }

    lemma {:induction false} SlowRow(t: Huff, i: nat)
      requires Good(t) && i < |t.sizes| && t.sizes[i] > 9
      ensures var c := Chain(t.sizes, t.sizes[i], i);
              && 2 * |c| + 3 < CHAIN && Chain(t.sizes, t.sizes[i], i + 1) == c + [i]
              && forall q :: 0 <= q < |c| ==> Code(t.sizes, c[q]) != 0
    {
      hide Code;
      var c := Chain(t.sizes, t.sizes[i], i);
      ChainFits(t, t.sizes[i], i + 1);
      forall q | 0 <= q < |c| ensures Code(t.sizes, c[q]) != 0 {
        SlowCodePositive(t.sizes, c[q]);
      }
    }

    constructor ()
      ensures Shape() && fresh(Repr)
    {
      var l, c, s := new int[512], new int[512], new int[7, CHAIN];
      lookup, codeSize, slow := l, c, s;
      Repr := {this, l, c, s};
    }

    /** Empties the lookup and the chains. */
    method Reset(ghost t: Huff)
      requires Shape() && Good(t)
      modifies lookup, slow
      ensures LookupOk(t, 0) && RowsOk(t, 0)
    {
      for k := 0 to 512
        invariant forall w :: 0 <= w < k ==> lookup[w] == -1
      {
        lookup[k] := -1;
      }
      for i := 0 to 16 - HASH_NBITS
        invariant forall w :: 0 <= w < 512 ==> lookup[w] == -1
        invariant forall e :: 0 <= e < i ==> slow[e, 0] == 0
      {
        slow[i, 0] := 0;
      }
    }

    /** Enters all entries. */
    method AddEntries(ghost t: Huff, huffsize: array<int>, huffcode: array<int>, vals: seq<nat>)
      requires Shape() && Good(t) && huffsize.Length == huffcode.Length == 257 && t.vals <= vals
      requires huffsize !in Repr && huffcode !in Repr && huffsize[|t.sizes|] == 0
      requires forall k :: 0 <= k < |t.sizes| ==> huffsize[k] == t.sizes[k] && huffcode[k] == Code(t.sizes, k)
      requires Holds(t, 0)
      modifies lookup, codeSize, slow
      ensures Holds(t, |t.sizes|)
    {
      hide Good, Holds, Code;
      GoodSize(t);
      var i := 0;
      while huffsize[i] != 0
        invariant 0 <= i <= |t.sizes| && Holds(t, i)
        decreases |t.sizes| - i
      {
        AddEntry(t, i, huffcode[i], huffsize[i], vals[i]);
        i := i + 1;
      }
    }

    /** Builds the table from the 16 length counts and the values. */
    method Build(bits: seq<nat>, vals: seq<nat>)
      requires Shape() && |bits| == 16 && |SizesOf(bits)| <= |vals| && Good(TableOf(bits, vals))
      modifies Repr
      ensures Valid() && h == TableOf(bits, vals)
    {
      hide Good, Code, SizesOf;
      ghost var t := TableOf(bits, vals);
      GoodSize(t);
      var huffsize, huffcode := new int[257], new int[257];
      var n := BuildSizes(bits, huffsize);
      Reset(t);
      BuildCodes(huffsize, huffcode, t.sizes);
      AddEntries(t, huffsize, huffcode, vals);
      h := t;
    }

    /** The value found in the chain of a size for a code, or -1; b is the code as a bit string. */
    method SearchChain(e: nat, hcode: nat, ghost b: seq<bool>) returns (val: int)
      requires Valid() && e < 7 && |b| == e + 10 && hcode == Val(b)
      requires Find(h.sizes, b[..e + 9], 0) == None
      ensures val == ValueOf(h, b)
    {
      ghost var c := Chain(h.sizes, e + 10, |h.sizes|);
      assert RowOk(h, |h.sizes|, e);
      var k := 0;
      ghost var q := 0;
      while slow[e, k] != 0
        invariant k == 2 * q && q <= |c|
        invariant forall r :: 0 <= r < q ==> Code(h.sizes, c[r]) != hcode
        decreases |c| - q
      {
        assert q < |c|;
        if slow[e, k] == hcode {
          ChainHit(h, b, c[q]);
          return slow[e, k + 1];
        }
        k := k + 2;
        q := q + 1;
      }
      if q < |c| { SlowCodePositive(h.sizes, c[q]); }
      ChainMiss(h, b);
      return -1;
    }
  }

  function TableOf(bits: seq<nat>, vals: seq<nat>): Huff
    requires |bits| == 16 && |SizesOf(bits)| <= |vals|
  {
    Huff(SizesOf(bits), vals[..|SizesOf(bits)|])
  }

  lemma {:induction false} GoodSize(t: Huff)
    requires Good(t)
    ensures Kraftful(t.sizes) && |t.vals| == |t.sizes| <= 256
    ensures forall i :: 0 <= i < |t.sizes| ==> 1 <= t.sizes[i] <= 16
  {}

  /** What plain prefix decoding finds: a value, or -1. */
  function ValueOf(h: Huff, b: seq<bool>): int
    requires Ordered(h.sizes) && |h.vals| == |h.sizes|
  {
    match Find(h.sizes, b, 0) case Some(i) => h.vals[i] case None => -1
  }

  lemma {:induction false} ChainHit(h: Huff, b: seq<bool>, k: nat)
    requires Kraftful(h.sizes) && |h.vals| == |h.sizes| && k < |h.sizes| && h.sizes[k] == |b|
    requires Code(h.sizes, k) == Val(b)
    ensures ValueOf(h, b) == h.vals[k]
  {
    ChainIsFind(h, b, k);
    FindUnique(h.sizes, b, k);
  }

  lemma {:induction false} PrefixShorter(a: seq<bool>, b: seq<bool>)
    requires a <= b && |a| < |b|
    ensures a <= b[..|b| - 1]
  {}

  lemma {:induction false} ChainMiss(h: Huff, b: seq<bool>)
    requires Kraftful(h.sizes) && |h.vals| == |h.sizes| && b != []
    requires Find(h.sizes, b[..|b| - 1], 0) == None
    requires var c := Chain(h.sizes, |b|, |h.sizes|);
             forall q :: 0 <= q < |c| ==> Code(h.sizes, c[q]) != Val(b)
    ensures ValueOf(h, b) == -1
  {
    hide Code, Codeword, Val;
    FindSpec(h.sizes, b[..|b| - 1], 0);
    FindSpec(h.sizes, b, 0);
    forall i | 0 <= i < |h.sizes| ensures !(Codeword(h.sizes, i) <= b) {
      if h.sizes[i] == |b| {
        ChainHas(h.sizes, |b|, |h.sizes|, i);
        ChainIsFind(h, b, i);
      } else if Codeword(h.sizes, i) <= b {
        PrefixShorter(Codeword(h.sizes, i), b);
      }
    }
  }

  lemma {:induction false} GoodEntry(t: Huff, i: nat)
    requires Good(t) && i < |t.sizes|
    ensures Kraftful(t.sizes) && 1 <= t.sizes[i] <= 16
    ensures t.vals[i] < 256 && |t.vals| == |t.sizes| && forall k :: 0 <= k < i ==> t.vals[k] != t.vals[i]
  {}

  lemma {:induction false} WindowFits(s: seq<nat>, i: nat)
    requires Kraftful(s) && i < |s| && s[i] <= 9
    ensures Shl(Code(s, i), 9 - s[i]) + Pow2(9 - s[i]) <= 512
  {
    hide Code, Shl;
    KraftFits(s);
    ShlSum(Code(s, i), 1, 9 - s[i]);
    ShlFits(Code(s, i) + 1, s[i], 9 - s[i], 9);
    assert Pow2(9) == 512 by { Pow2Nine(); }
  }

  lemma {:induction false} Pow2Nine()
    ensures Pow2(9) == 512
  {}

  lemma {:induction false} SizesPrefix(c: seq<nat>, m: nat, n: nat)
    requires m <= n <= |c|
    ensures SizesUpTo(c, m) <= SizesUpTo(c, n)
  {
    if m < n { SizesPrefix(c, m, n - 1); }
  }

  /** The size of every code, from the 16 length counts, and a terminating 0. */
  method BuildSizes(bits: seq<nat>, huffsize: array<int>) returns (n: nat)
    requires |bits| == 16 && huffsize.Length == 257 && |SizesOf(bits)| <= 256
    modifies huffsize
    ensures n == |SizesOf(bits)| && huffsize[n] == 0
    ensures forall k :: 0 <= k < n ==> huffsize[k] == SizesOf(bits)[k]
  {
    n := 0;
    var i := 1;
    while i <= 16
      invariant 1 <= i <= 17 && n == |SizesUpTo(bits, i - 1)| <= 256
      invariant forall k :: 0 <= k < n ==> huffsize[k] == SizesUpTo(bits, i - 1)[k]
    {
      SizesPrefix(bits, i, 16);
      var j := 1;
      while j <= bits[i - 1]
        invariant 1 <= j <= bits[i - 1] + 1 && n == |SizesUpTo(bits, i - 1)| + j - 1
        invariant forall k :: 0 <= k < n ==> huffsize[k] == SizesUpTo(bits, i)[k]
      {
        huffsize[n] := i;
        n := n + 1;
        j := j + 1;
      }
      i := i + 1;
    }
    huffsize[n] := 0;
  }

  /** The code of every entry: successive numbers, shifted whenever the size grows. */
  method BuildCodes(huffsize: array<int>, huffcode: array<int>, ghost s: seq<nat>)
    requires huffsize.Length == huffcode.Length == 257 && huffsize != huffcode
    requires Ordered(s) && |s| <= 256 && huffsize[|s|] == 0
    requires forall k :: 0 <= k < |s| ==> huffsize[k] == s[k]
    modifies huffcode
    ensures forall k :: 0 <= k < |s| ==> huffcode[k] == Code(s, k)
  {
    hide Code, Pending;
    var code: nat, hz := 0, 0;
    var nbits := huffsize[0];
    PendingFirst(s);
    while huffsize[hz] != 0
      invariant Coded(s, hz, nbits, code) && nbits <= 17
      invariant forall k :: 0 <= k < hz ==> huffcode[k] == Code(s, k)
      decreases 17 - nbits
    {
      while huffsize[hz] == nbits
        invariant Coded(s, hz, nbits, code) && 0 < nbits <= 16
        invariant forall k :: 0 <= k < hz ==> huffcode[k] == Code(s, k)
        decreases |s| - hz
      {
        PendingNext(s, hz, nbits);
        huffcode[hz] := code;
        code := code + 1;
        hz := hz + 1;
      }
      PendingShift(s, hz, nbits);
      code := 2 * code;
      nbits := nbits + 1;
    }
  }

  /** The first i codes are given out, and the next number is the code of n bits. */
  ghost predicate Coded(s: seq<nat>, i: int, n: int, code: nat)
    requires Ordered(s)
  {
    && 0 <= i <= |s| && (i > 0 ==> s[i - 1] <= n)
    && (i < |s| ==> 0 < n <= s[i] && code == Pending(s, i, n))
  }
}

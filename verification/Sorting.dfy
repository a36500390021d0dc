/** Sorting symbol counts, most frequent first, with the permutation carried along; and why that
    order is the best one for a nondecreasing list of code lengths. */
module Sorting {
  import opened Bits

  // ----- counts pass through a float when they are swapped -----

  /** The exponent that brings x into 24 bits. */
  function FloatExp(x: nat): nat {
    if x < 0x100_0000 then 0 else 1 + FloatExp(x / 2)
  }

  /** x rounded to the nearest single-precision float, ties to even. */
  function ToFloat(x: nat): nat {
    var e := FloatExp(x);
    if e == 0 then x
    else
      var q, r := Shr(x, e), Low(x, e);
      if r > Pow2(e - 1) || (r == Pow2(e - 1) && q % 2 == 1) then Shl(q + 1, e) else Shl(q, e)
  }

  predicate Exact(x: nat) { ToFloat(x) == x }

  lemma {:induction false} ShiftParts(x: nat, e: nat)
    ensures x == Shl(Shr(x, e), e) + Low(x, e) && Low(x, e) < Pow2(e)
  {
    if e > 0 {
      ShiftParts(x / 2, e - 1);
      ShrHalf(x, e - 1);
      assert Shl(Shr(x, e), e) == 2 * Shl(Shr(x / 2, e - 1), e - 1);
    }
  }

  lemma {:induction false} ShrHalf(x: nat, e: nat)
    ensures Shr(x, e + 1) == Shr(x / 2, e)
  {
    if e > 0 { ShrHalf(x, e - 1); }
  }

  /** A count survives the float exactly when the bits below its first 24 are all 0. */
  lemma {:induction false} ExactCounts(x: nat)
    ensures Exact(x) <==> Low(x, FloatExp(x)) == 0
  {
    hide Shl, Shr, Low, FloatExp;
    var e := FloatExp(x);
    if e == 0 {
      NoLow(x);
    } else {
      var q, r := Shr(x, e), Low(x, e);
      ShiftParts(x, e);
      ShlSum(q, 1, e);
      HalfPower(e);
    }
  }

  lemma {:induction false} NoLow(x: nat)
    ensures Low(x, 0) == 0
  {}

  lemma {:induction false} HalfPower(e: nat)
    requires e > 0
    ensures Pow2(e) == 2 * Pow2(e - 1)
  {}

  /** Counts up to 2^24 survive; 2^24 + 1 is the first that does not. */
  lemma {:induction false} SmallCountsExact(x: nat)
    requires x <= 0x100_0000
    ensures Exact(x)
  {
    ExactCounts(x);
    if x == 0x100_0000 {
      assert FloatExp(x) == 1 + FloatExp(0x80_0000) == 1;
      assert Low(x, 1) == 0;
    }
  }

  lemma {:induction false} LargeCountLost()
    ensures !Exact(0x100_0001)
  {
    ExactCounts(0x100_0001);
    assert FloatExp(0x100_0001) == 1 + FloatExp(0x80_0000) == 1;
    assert Low(0x100_0001, 1) == 1;
  }

  // ----- bubble sort -----

  predicate Permutation(index: seq<int>) {
    && (forall k :: 0 <= k < |index| ==> 0 <= index[k] < |index|)
    && (forall a, b :: 0 <= a < b < |index| ==> index[a] != index[b])
  }

  lemma {:induction false} DistinctSet(s: seq<int>)
    requires forall a, b :: 0 <= a < b < |s| ==> s[a] != s[b]
    ensures |set x | x in s| == |s|
  {
    if s != [] {
      var t, y := s[..|s| - 1], s[|s| - 1];
      DistinctSet(t);
      assert (set x | x in s) == (set x | x in t) + {y};
      assert y !in t;
    }
  }

  function Range(n: nat): set<int> {
    if n == 0 then {} else Range(n - 1) + {n - 1}
  }

  lemma {:induction false} RangeSet(n: nat)
    ensures |Range(n)| == n && forall x :: x in Range(n) <==> 0 <= x < n
  {
    if n > 0 { RangeSet(n - 1); }
  }

  /** A permutation meets every position. */
  lemma {:induction false} PermutationOnto(index: seq<int>, x: int)
    requires Permutation(index) && 0 <= x < |index|
    ensures x in index
  {
    var r, s := Range(|index|), set y | y in index;
    DistinctSet(index);
    RangeSet(|index|);
    assert s <= r;
    assert |r - s| == |r| - |s|;
    assert x in r;
  }

  /** Entry k of p is the original entry index[k]. */
  predicate Tracks(p: seq<int>, index: seq<int>, original: seq<int>) {
    && |p| == |index| == |original| && Permutation(index)
    && forall k :: 0 <= k < |p| ==> p[k] == original[index[k]]
  }

  predicate Descending(p: seq<int>) {
    forall a, b :: 0 <= a < b < |p| ==> p[a] >= p[b]
  }

  /** Swapping two neighbours of both sequences. */
  function Swap(s: seq<int>, j: nat): seq<int>
    requires j + 1 < |s|
  {
    s[j := s[j + 1]][j + 1 := s[j]]
  }

  lemma {:induction false} SwapTracks(p: seq<int>, index: seq<int>, original: seq<int>, j: nat)
    requires Tracks(p, index, original) && j + 1 < |p|
    ensures Tracks(Swap(p, j), Swap(index, j), original)
  {
    var i := Swap(index, j);
    forall a, b | 0 <= a < b < |i| ensures i[a] != i[b] {
      var a' := if a == j then j + 1 else if a == j + 1 then j else a;
      var b' := if b == j then j + 1 else if b == j + 1 then j else b;
      assert i[a] == index[a'] && i[b] == index[b'] && a' != b';
    }
  }

  /** The last done entries are in order and no larger than any before them. */
  predicate TailSorted(p: seq<int>, done: nat) {
    done <= |p| && forall a, b :: 0 <= a < b < |p| && |p| - done <= b ==> p[a] >= p[b]
  }

  /** Entry j is the smallest of the first j + 1. */
  predicate SmallestAt(p: seq<int>, j: nat) {
    j < |p| ==> forall a :: 0 <= a < j ==> p[a] >= p[j]
  }

  predicate Counts(p: seq<int>) {
    forall k :: 0 <= k < |p| ==> p[k] >= 0 && Exact(p[k])
  }

  class Sorter {
    const p: array<int>      // the counts
    const index: array<int>  // which entry each came from
    const length: nat

    constructor (p: array<int>, length: nat)
      requires length <= p.Length
      ensures this.p == p && this.length == length && fresh(index) && index.Length == length
    {
      this.p, this.length := p, length;
      index := new int[length];
    }

    ghost predicate Valid() {
      length <= p.Length && index.Length == length && p != index
    }

    /** Orders one pair of neighbours; the count that moves back goes through a float. */
    method Order(j: nat, ghost original: seq<int>, ghost done: nat)
      requires Valid() && j + 1 < length - done && done <= length
      requires Tracks(p[..length], index[..], original) && Counts(original)
      requires TailSorted(p[..length], done) && SmallestAt(p[..length], j)
      modifies p, index
      ensures Tracks(p[..length], index[..], original)
      ensures TailSorted(p[..length], done) && SmallestAt(p[..length], j + 1)
      ensures p[length..] == old(p[length..])
    {
      ghost var before, ids := p[..length], index[..];
      if p[j] < p[j + 1] {
        assert Exact(original[index[j]]);
        var temp := ToFloat(p[j]);
        p[j] := p[j + 1];
        p[j + 1] := temp;
        var indTemp := index[j];
        index[j] := index[j + 1];
        index[j + 1] := indTemp;
        assert p[..length] == Swap(before, j) && index[..] == Swap(ids, j);
        SwapTracks(before, ids, original, j);
        SwapKeepsTail(before, j, done);
      }
    }

    /** Sorts the first `length` counts in descending order; `index` becomes the permutation that
        tells where each came from. */
    method BubbleSort()
      requires Valid() && Counts(p[..length])
      modifies p, index
      ensures Descending(p[..length]) && Tracks(p[..length], index[..], old(p[..length]))
      ensures p[length..] == old(p[length..])
    {
      hide Tracks, TailSorted, SmallestAt, Counts, Descending, Exact;
      ghost var original := p[..length];
      for m := 0 to length
        invariant forall k :: 0 <= k < m ==> index[k] == k
        invariant p[..length] == original && p[length..] == old(p[length..])
      {
        index[m] := m;
      }
      TracksSelf(original, index[..]);
      TailSortedNone(original);
      for i := 0 to length
        invariant Tracks(p[..length], index[..], original) && TailSorted(p[..length], i)
        invariant p[length..] == old(p[length..])
      {
        SmallestFirst(p[..length]);
        for j := 0 to length - i - 1
          invariant Tracks(p[..length], index[..], original) && TailSorted(p[..length], i)
          invariant SmallestAt(p[..length], j) && p[length..] == old(p[length..])
        {
          Order(j, original, i);
        }
        TailGrows(p[..length], i);
      }
      TailIsAll(p[..length]);
    }
  }

  lemma {:induction false} SwapKeepsTail(p: seq<int>, j: nat, done: nat)
    requires TailSorted(p, done) && j + 1 < |p| - done && p[j] < p[j + 1] && SmallestAt(p, j)
    ensures TailSorted(Swap(p, j), done) && SmallestAt(Swap(p, j), j + 1)
  {
    var q := Swap(p, j);
    forall a, b | 0 <= a < b < |q| && |q| - done <= b ensures q[a] >= q[b] {
      assert q[b] == p[b];
      assert p[a] >= p[b] && p[j] >= p[b] && p[j + 1] >= p[b];
    }
  }

  lemma {:induction false} TracksSelf(original: seq<int>, index: seq<int>)
    requires |index| == |original| && forall k :: 0 <= k < |index| ==> index[k] == k
    ensures Tracks(original, index, original)
  {}

  lemma {:induction false} TailSortedNone(p: seq<int>)
    ensures TailSorted(p, 0)
  {}

  lemma {:induction false} SmallestFirst(p: seq<int>)
    ensures SmallestAt(p, 0)
  {}

  lemma {:induction false} TailGrows(p: seq<int>, done: nat)
    requires done < |p| && TailSorted(p, done) && SmallestAt(p, |p| - done - 1)
    ensures TailSorted(p, done + 1)
  {}

  lemma {:induction false} TailIsAll(p: seq<int>)
    requires TailSorted(p, |p|)
    ensures Descending(p)
  {}

  /** Brings the values into the order of their counts. */
  method MoveArray(arr: array<int>, index: array<int>, length: nat)
    requires length <= arr.Length && index.Length == length && arr != index
    requires Permutation(index[..])
    modifies arr
    ensures forall k :: 0 <= k < length ==> arr[k] == old(arr[index[k]])
    ensures arr[length..] == old(arr[length..])
  {
    var temp := new int[length];
    for i := 0 to length
      invariant forall k :: 0 <= k < i ==> temp[k] == arr[index[k]]
      invariant arr[..] == old(arr[..])
    {
      temp[i] := arr[index[i]];
    }
    for i := 0 to length
      invariant forall k :: 0 <= k < length ==> temp[k] == old(arr[index[k]])
      invariant forall k :: 0 <= k < i ==> arr[k] == temp[k]
      invariant arr[length..] == old(arr[length..])
    {
      arr[i] := temp[i];
    }
  }

  // ----- the best assignment of code lengths -----

  /** Bits spent on symbols with the given counts and code lengths. */
  function Cost(counts: seq<int>, lens: seq<int>): int
    requires |counts| == |lens|
  {
    if counts == [] then 0
    else Cost(counts[..|counts| - 1], lens[..|lens| - 1]) + counts[|counts| - 1] * lens[|lens| - 1]
  }

  predicate Ascending(s: seq<int>) {
    forall a, b :: 0 <= a < b < |s| ==> s[a] <= s[b]
  }

  /** Changing one length changes the cost by its count times the difference. */
  lemma {:induction false} CostUpdate(counts: seq<int>, lens: seq<int>, k: nat, x: int)
    requires |counts| == |lens| && k < |lens|
    ensures Cost(counts, lens[k := x]) == Cost(counts, lens) + counts[k] * (x - lens[k])
  {
    var n := |counts| - 1;
    var up := lens[k := x];
    if k == n {
      assert up[..n] == lens[..n];
      assert counts[k] * x == counts[k] * lens[k] + counts[k] * (x - lens[k]);
    } else {
      CostUpdate(counts[..n], lens[..n], k, x);
      assert up[..n] == lens[..n][k := x];
    }
  }

  /** One more occurrence costs its length. */
  lemma {:induction false} CostOneMore(counts: seq<int>, lens: seq<int>, k: nat)
    requires |counts| == |lens| && k < |lens|
    ensures Cost(counts[k := counts[k] + 1], lens) == Cost(counts, lens) + lens[k]
  {
    var n := |counts| - 1;
    var up := counts[k := counts[k] + 1];
    if k == n {
      assert up[..n] == counts[..n];
      assert (counts[n] + 1) * lens[n] == counts[n] * lens[n] + lens[n];
    } else {
      CostOneMore(counts[..n], lens[..n], k);
      assert up[..n] == counts[..n][k := counts[k] + 1];
    }
  }

  lemma {:induction false} CostZero(counts: seq<int>, lens: seq<int>)
    requires |counts| == |lens| && forall k :: 0 <= k < |counts| ==> counts[k] == 0
    ensures Cost(counts, lens) == 0
  {
    if counts != [] {
      CostZero(counts[..|counts| - 1], lens[..|lens| - 1]);
      assert 0 * lens[|lens| - 1] == 0;
    }
  }

  lemma {:induction false} MulGap(c: int, d: int, x: int, y: int)
    requires c >= d && x >= y
    ensures d * (x - y) + c * (y - x) <= 0
  {
    assert d * (x - y) + c * (y - x) == -((c - d) * (x - y));
    assert (c - d) * (x - y) >= 0;
  }

  function Exchange(s: seq<int>, k: nat, n: nat): (r: seq<int>)
    requires k < |s| && n < |s|
    ensures |r| == |s|
  {
    s[k := s[n]][n := s[k]]
  }

  /** Giving the longer of two codes to the rarer symbol does not cost more. */
  lemma {:induction false} ExchangeCost(counts: seq<int>, lens: seq<int>, k: nat, n: nat)
    requires |counts| == |lens| && k < |lens| && n < |lens|
    requires counts[k] >= counts[n] && lens[k] >= lens[n]
    ensures Cost(counts, Exchange(lens, k, n)) <= Cost(counts, lens)
  {
    hide Cost;
    var x, y := lens[k], lens[n];
    CostUpdate(counts, lens, k, y);
    if k != n {
      CostUpdate(counts, lens[k := y], n, x);
      MulGap(counts[k], counts[n], x, y);
    } else {
      assert Exchange(lens, k, n) == lens;
    }
  }

  lemma {:induction false} ExchangeMultiset(s: seq<int>, k: nat, n: nat)
    requires k < |s| && n < |s|
    ensures multiset(Exchange(s, k, n)) == multiset(s)
  {}

  lemma {:induction false} DropLast(a: seq<int>, b: seq<int>)
    requires |a| == |b| > 0 && a[|a| - 1] == b[|b| - 1] && multiset(a) == multiset(b)
    ensures multiset(a[..|a| - 1]) == multiset(b[..|b| - 1])
  {
    var n := |a| - 1;
    assert a == a[..n] + [a[n]] && b == b[..n] + [a[n]];
    assert multiset(a) == multiset(a[..n]) + multiset{a[n]};
    assert multiset(b) == multiset(b[..n]) + multiset{a[n]};
    assert multiset(a[..n]) == multiset(a) - multiset{a[n]};
    assert multiset(b[..n]) == multiset(b) - multiset{a[n]};
  }

  /** Rearrangement: with counts in descending order, no way of handing out the same lengths costs
      less than handing them out in ascending order. */
  lemma {:induction false} Rearrangement(counts: seq<int>, lens: seq<int>, other: seq<int>)
    requires |counts| == |lens| == |other| && Descending(counts) && Ascending(lens)
    requires multiset(other) == multiset(lens)
    ensures Cost(counts, lens) <= Cost(counts, other)
  {
    hide Exchange, Cost;
    if counts != [] {
      var n := |counts| - 1;
      var k := LastAt(lens, other);
      ExchangeCost(counts, other, k, n);
      ExchangeMultiset(other, k, n);
      var swapped := Exchange(other, k, n);
      ExchangeLast(other, k, n);
      DropLast(lens, swapped);
      Rearrangement(counts[..n], lens[..n], swapped[..n]);
      CostLast(counts, lens, lens[n]);
      CostLast(counts, swapped, lens[n]);
    } else {
      assert lens == [] && other == [];
    }
  }

  lemma {:induction false} CostLast(counts: seq<int>, lens: seq<int>, last: int)
    requires |counts| == |lens| > 0 && lens[|lens| - 1] == last
    ensures var n := |counts| - 1; Cost(counts, lens) == Cost(counts[..n], lens[..n]) + counts[n] * last
  {}

  /** The largest length stands somewhere in the other list, too. */
  lemma {:induction false} LastAt(lens: seq<int>, other: seq<int>) returns (k: nat)
    requires |lens| == |other| > 0 && Ascending(lens) && multiset(other) == multiset(lens)
    ensures k < |other| && other[k] == lens[|lens| - 1] && other[k] >= other[|other| - 1]
  {
    var n := |lens| - 1;
    assert lens[n] in multiset(other);
    k :| k < |other| && other[k] == lens[n];
    assert other[n] in multiset(lens);
  }

  lemma {:induction false} ExchangeLast(s: seq<int>, k: nat, n: nat)
    requires k < |s| && n < |s|
    ensures Exchange(s, k, n)[n] == s[k]
  {}
}

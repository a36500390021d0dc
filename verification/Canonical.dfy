/** Canonical Huffman codes (Annex C of ITU-T T.81): codes are handed out in order of size,
    each one the successor of the previous code, shifted to its own size. */
module Canonical {
  import opened Bits

  /** The sizes a table lists: 1 to 16 bits, shorter codes first. */
  predicate Ordered(s: seq<nat>) {
    && (forall i :: 0 <= i < |s| ==> 1 <= s[i] <= 16)
    && (forall i, j :: 0 <= i < j < |s| ==> s[i] <= s[j])
  }

  function Code(s: seq<nat>, i: nat): nat
    requires Ordered(s) && i < |s|
  {
    if i == 0 then 0 else Shl(Code(s, i - 1) + 1, s[i] - s[i - 1])
  }

  /** The codeword of the i-th entry. */
  function Codeword(s: seq<nat>, i: nat): (w: seq<bool>)
    requires Ordered(s) && i < |s|
    ensures |w| == s[i]
  {
    BitsOf(Code(s, i), s[i])
  }

  /** The share of the 16-bit code space that the first n codes take. */
  function Kraft(s: seq<nat>, n: nat): nat
    requires Ordered(s) && n <= |s|
  {
    if n == 0 then 0 else Kraft(s, n - 1) + Pow2(16 - s[n - 1])
  }

  /** The Kraft inequality: the sizes leave room for every code. */
  predicate Kraftful(s: seq<nat>) {
    Ordered(s) && Kraft(s, |s|) <= Pow2(16)
  }

  /** The code that entry i would get if it had n bits. */
  ghost function Pending(s: seq<nat>, i: nat, n: nat): nat
    requires Ordered(s) && i < |s| && n <= s[i]
  {
    if i == 0 then 0 else if n >= s[i - 1] then Shl(Code(s, i - 1) + 1, n - s[i - 1]) else 0
  }

  lemma {:induction false} PendingFirst(s: seq<nat>)
    requires Ordered(s)
    ensures s != [] ==> Pending(s, 0, s[0]) == 0
  {}

  lemma {:induction false} PendingNext(s: seq<nat>, i: nat, n: nat)
    requires Ordered(s) && i < |s| && s[i] == n && (i > 0 ==> s[i - 1] <= n)
    ensures Pending(s, i, n) == Code(s, i)
    ensures i + 1 < |s| ==> n <= s[i + 1] && Pending(s, i + 1, n) == Code(s, i) + 1
  {}

  lemma {:induction false} PendingShift(s: seq<nat>, i: nat, n: nat)
    requires Ordered(s) && i <= |s| && (i > 0 ==> s[i - 1] <= n)
    ensures i < |s| && n < s[i] ==> Pending(s, i, n + 1) == 2 * Pending(s, i, n)
  {}

  lemma {:induction false} CodeKraft(s: seq<nat>, i: nat)
    requires Ordered(s) && i < |s|
    ensures Shl(Code(s, i), 16 - s[i]) == Kraft(s, i)
    ensures Shl(Code(s, i) + 1, 16 - s[i]) == Kraft(s, i + 1)
  {
    hide Shl;
    if i == 0 {
      ShlZero(16 - s[0]);
    } else {
      CodeKraft(s, i - 1);
      ShlAdd(Code(s, i - 1) + 1, s[i] - s[i - 1], 16 - s[i]);
    }
    ShlSum(Code(s, i), 1, 16 - s[i]);
  }

  lemma {:induction false} KraftMono(s: seq<nat>, m: nat, n: nat)
    requires Ordered(s) && m <= n <= |s|
    ensures Kraft(s, m) <= Kraft(s, n)
  {
    if m < n { KraftMono(s, m, n - 1); }
  }

  lemma {:induction false} CodeFits(s: seq<nat>, i: nat)
    requires Ordered(s) && i < |s|
    ensures Code(s, i) < Pow2(s[i]) <==> Kraft(s, i + 1) <= Pow2(16)
    ensures Code(s, i) + 1 < Pow2(s[i]) <==> Kraft(s, i + 1) < Pow2(16)
  {
    hide Shl, Kraft, Code;
    CodeKraft(s, i);
    ShlFits(Code(s, i) + 1, s[i], 16 - s[i], 16);
  }

  /** Every code fits its size exactly when the sizes obey the Kraft inequality. */
  lemma {:induction false} KraftFits(s: seq<nat>)
    requires Ordered(s)
    ensures Kraftful(s) <==> (forall i :: 0 <= i < |s| ==> Code(s, i) < Pow2(s[i]))
  {
    forall i | 0 <= i < |s|
      ensures Code(s, i) < Pow2(s[i]) <==> Kraft(s, i + 1) <= Pow2(16)
      ensures Code(s, i) < Pow2(s[i]) || Kraft(s, |s|) > Pow2(16)
    {
      CodeFits(s, i);
      KraftMono(s, i + 1, |s|);
    }
    if |s| > 0 && (forall i :: 0 <= i < |s| ==> Code(s, i) < Pow2(s[i])) {
      assert Code(s, |s| - 1) < Pow2(s[|s| - 1]);
    }
    Pow2Mono(0, 16);
  }

  lemma {:induction false} CodeGap(s: seq<nat>, i: nat, j: nat)
    requires Ordered(s) && i < j < |s|
    ensures Code(s, j) >= Shl(Code(s, i) + 1, s[j] - s[i])
  {
    hide Shl;
    if i + 1 < j {
      CodeGap(s, i, j - 1);
      var d, e := s[j - 1] - s[i], s[j] - s[j - 1];
      ShlAdd(Code(s, i) + 1, d, e);
      ShlLe(Shl(Code(s, i) + 1, d), Code(s, j - 1) + 1, e);
    }
  }

  lemma {:induction false} PrefixHead(s: seq<nat>, i: nat, w: seq<bool>)
    requires Kraftful(s) && i < |s| && s[i] <= |w|
    ensures Codeword(s, i) <= w <==> Val(w[..s[i]]) == Code(s, i)
  {
    KraftFits(s);
    var head := w[..s[i]];
    ValBitsOf(Code(s, i), s[i]);
    if Val(head) == Code(s, i) { ValInjective(head, Codeword(s, i)); }
    assert Codeword(s, i) <= w <==> Codeword(s, i) == head;
  }

  /** A codeword is a prefix of w exactly when w, read as a number, falls into its interval. */
  lemma {:induction false} PrefixInterval(s: seq<nat>, i: nat, w: seq<bool>, k: nat)
    requires Kraftful(s) && i < |s| && s[i] + k == |w|
    ensures Codeword(s, i) <= w <==>
            Shl(Code(s, i), k) <= Val(w) < Shl(Code(s, i), k) + Pow2(k)
  {
    PrefixHead(s, i, w);
    var tail := w[s[i]..];
    assert |tail| == k && w == w[..s[i]] + tail;
    ValConcat(w[..s[i]], tail);
    ValBound(tail);
    Interval(Val(w[..s[i]]), Code(s, i), k, Val(tail));
  }

  lemma {:induction false} NotBothPrefixes(s: seq<nat>, i: nat, j: nat, v: seq<bool>)
    requires Kraftful(s) && i < j < |s|
    ensures !(Codeword(s, i) <= v && Codeword(s, j) <= v)
  {
    hide Shl, Val, BitsOf, Code;
    if Codeword(s, i) <= v && Codeword(s, j) <= v {
      var w := v[..s[j]];
      assert Codeword(s, i) <= w && Codeword(s, j) <= w;
      PrefixInterval(s, i, w, s[j] - s[i]);
      PrefixHead(s, j, w);
      assert w[..s[j]] == w;
      CodeGap(s, i, j);
      ShlSum(Code(s, i), 1, s[j] - s[i]);
    }
  }

  /** Prefix-freeness: at most one codeword starts any bit string. */
  lemma {:induction false} PrefixFree(s: seq<nat>, i: nat, j: nat, v: seq<bool>)
    requires Kraftful(s) && i < |s| && j < |s|
    requires Codeword(s, i) <= v && Codeword(s, j) <= v
    ensures i == j
  {
    if i < j { NotBothPrefixes(s, i, j, v); }
    if j < i { NotBothPrefixes(s, j, i, v); }
  }

  /** No codeword is all ones when the sizes leave some code space over. */
  lemma {:induction false} NotAllOnes(s: seq<nat>, i: nat)
    requires Ordered(s) && i < |s| && Kraft(s, |s|) < Pow2(16)
    ensures Codeword(s, i) != Ones(s[i])
  {
    KraftMono(s, i + 1, |s|);
    CodeFits(s, i);
    ValBitsOf(Code(s, i), s[i]);
    ValOnes(s[i]);
  }

  lemma {:induction false} ValOnes(n: nat)
    ensures Val(Ones(n)) + 1 == Pow2(n)
  {
    if n > 0 {
      ValOnes(n - 1);
      assert Ones(n)[..n - 1] == Ones(n - 1);
    }
  }

  /** Plain prefix decoding: the first entry from i on whose codeword starts v. */
  function Find(s: seq<nat>, v: seq<bool>, i: nat): (r: Option<nat>)
    requires Ordered(s) && i <= |s|
    ensures r.Some? ==> i <= r.value < |s| && s[r.value] <= |v|
    decreases |s| - i
  {
    if i == |s| then None
    else if Codeword(s, i) <= v then Some(i)
    else Find(s, v, i + 1)
  }

  /** It finds a codeword that starts v, and misses none. */
  lemma {:induction false} FindSpec(s: seq<nat>, v: seq<bool>, i: nat)
    requires Ordered(s) && i <= |s|
    ensures match Find(s, v, i)
            case Some(k) => Codeword(s, k) <= v
            case None => forall k :: i <= k < |s| ==> !(Codeword(s, k) <= v)
    decreases |s| - i
  {
    if i < |s| && !(Codeword(s, i) <= v) { FindSpec(s, v, i + 1); }
  }

  lemma {:induction false} FindNone(s: seq<nat>, w: seq<bool>, v: seq<bool>)
    requires Ordered(s) && w <= v && forall k :: 0 <= k < |s| ==> !(Codeword(s, k) <= v)
    ensures Find(s, w, 0) == None
  {
    FindSpec(s, w, 0);
  }

  lemma {:induction false} FindUnique(s: seq<nat>, v: seq<bool>, k: nat)
    requires Kraftful(s) && k < |s| && Codeword(s, k) <= v
    ensures Find(s, v, 0) == Some(k)
  {
    FindSpec(s, v, 0);
    PrefixFree(s, k, Find(s, v, 0).value, v);
  }

  // ----- the 16 length counts of a DHT segment -----

  function Repeat(x: nat, n: nat): (s: seq<nat>)
    ensures |s| == n
  {
    seq(n, _ => x)
  }

  /** The sizes that the counts of the lengths 1 to n stand for. */
  function SizesUpTo(counts: seq<nat>, n: nat): seq<nat>
    requires n <= |counts|
  {
    if n == 0 then [] else SizesUpTo(counts, n - 1) + Repeat(n, counts[n - 1])
  }

  function SizesOf(counts: seq<nat>): seq<nat>
    requires |counts| == 16
  {
    SizesUpTo(counts, 16)
  }

  function Occurrences(s: seq<nat>, x: nat): nat {
    if s == [] then 0
    else Occurrences(s[..|s| - 1], x) + (if s[|s| - 1] == x then 1 else 0)
  }

  function CountsOf(s: seq<nat>): (c: seq<nat>)
    ensures |c| == 16
  {
    seq(16, k requires 0 <= k < 16 => Occurrences(s, k + 1))
  }

  lemma {:induction false} OccurrencesZero(s: seq<nat>, x: nat)
    requires x !in s
    ensures Occurrences(s, x) == 0
  {
    if s != [] { OccurrencesZero(s[..|s| - 1], x); }
  }

  lemma {:induction false} SizesEmpty(c: seq<nat>, n: nat)
    requires n <= |c| && forall k :: 0 <= k < n ==> c[k] == 0
    ensures SizesUpTo(c, n) == []
  {
    if n > 0 { SizesEmpty(c, n - 1); }
  }

  lemma {:induction false} SizesAppend(c: seq<nat>, d: seq<nat>, x: nat, n: nat)
    requires 1 <= x <= |c| && n <= |c| && d == c[x - 1 := c[x - 1] + 1]
    requires forall k :: x <= k < |c| ==> c[k] == 0
    ensures SizesUpTo(d, n) == SizesUpTo(c, n) + (if x <= n then [x] else [])
  {
    if n > 0 {
      hide Repeat;
      SizesAppend(c, d, x, n - 1);
      RepeatEmpty(n);
      RepeatOneMore(x, c[x - 1]);
    }
  }

  lemma {:induction false} RepeatEmpty(x: nat)
    ensures Repeat(x, 0) == []
  {}

  lemma {:induction false} RepeatOneMore(x: nat, n: nat)
    ensures Repeat(x, n + 1) == Repeat(x, n) + [x]
  {}

  /** One more entry of the largest size. */
  lemma {:induction false} CountsSnoc(t: seq<nat>, x: nat)
    requires 1 <= x <= 16 && forall i :: 0 <= i < |t| ==> t[i] <= x
    ensures CountsOf(t + [x]) == CountsOf(t)[x - 1 := CountsOf(t)[x - 1] + 1]
    ensures forall k :: x <= k < 16 ==> CountsOf(t)[k] == 0
  {
    assert (t + [x])[..|t|] == t;
    forall k | x <= k < 16 ensures CountsOf(t)[k] == 0 { OccurrencesZero(t, k + 1); }
  }

  /** A nondecreasing size list is rebuilt from its 16 length counts. */
  lemma {:induction false} SizesCounts(s: seq<nat>)
    requires Ordered(s)
    ensures SizesOf(CountsOf(s)) == s
  {
    hide CountsOf, SizesUpTo;
    if s == [] {
      NoCounts();
      SizesEmpty(CountsOf(s), 16);
    } else {
      var t, x := s[..|s| - 1], s[|s| - 1];
      SizesCounts(t);
      assert s == t + [x];
      CountsSnoc(t, x);
      SizesAppend(CountsOf(t), CountsOf(s), x, 16);
    }
  }

  lemma {:induction false} NoCounts()
    ensures forall k :: 0 <= k < 16 ==> CountsOf([])[k] == 0
  {}

  lemma {:induction false} OccurrencesRepeat(s: seq<nat>, x: nat, n: nat, y: nat)
    ensures Occurrences(s + Repeat(x, n), y) == Occurrences(s, y) + (if x == y then n else 0)
  {
    if n == 0 {
      assert s + Repeat(x, n) == s;
    } else {
      OccurrencesRepeat(s, x, n - 1, y);
      var t := s + Repeat(x, n);
      assert t[..|t| - 1] == s + Repeat(x, n - 1);
    }
  }

  lemma {:induction false} OccurrencesSizes(c: seq<nat>, n: nat, y: nat)
    requires n <= |c| && 1 <= y <= |c|
    ensures Occurrences(SizesUpTo(c, n), y) == if y <= n then c[y - 1] else 0
  {
    if n > 0 {
      OccurrencesSizes(c, n - 1, y);
      OccurrencesRepeat(SizesUpTo(c, n - 1), n, c[n - 1], y);
    }
  }

  /** ... and the counts are read back from the sizes. */
  lemma {:induction false} CountsSizes(c: seq<nat>)
    requires |c| == 16
    ensures CountsOf(SizesOf(c)) == c
  {
    forall k | 0 <= k < 16 ensures CountsOf(SizesOf(c))[k] == c[k] {
      OccurrencesSizes(c, 16, k + 1);
    }
  }

  // ----- tables -----

  /** A Huffman table: the i-th value has a code of sizes[i] bits. */
  datatype Huff = Huff(sizes: seq<nat>, vals: seq<nat>)

  predicate Distinct(s: seq<nat>) {
    forall i, j :: 0 <= i < j < |s| ==> s[i] != s[j]
  }

  /** What build_huffman_table needs: the code fits, values are distinct bytes, code 0 is not a
      slow code, and no length above 9 overflows its chain of 127 entries. */
  predicate Good(h: Huff) {
    && Kraftful(h.sizes) && |h.vals| == |h.sizes| <= 256
    && (forall i :: 0 <= i < |h.vals| ==> h.vals[i] < 256)
    && Distinct(h.vals)
    && (|h.sizes| > 0 ==> h.sizes[0] <= 9)
    && (forall n :: 10 <= n <= 16 ==> Occurrences(h.sizes, n) <= 127)
  }

  /** The position of value v in a table. */
  function IndexOf(vals: seq<nat>, v: nat): (i: nat)
    requires v in vals
    ensures i < |vals| && vals[i] == v
  {
    if vals[0] == v then 0 else 1 + IndexOf(vals[1..], v)
  }

  function CodeOf(h: Huff, v: nat): seq<bool>
    requires Ordered(h.sizes) && |h.vals| == |h.sizes| && v in h.vals
  {
    Codeword(h.sizes, IndexOf(h.vals, v))
  }
}

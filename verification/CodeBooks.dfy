/** The new tables: the symbols that occur, most frequent first, with their code strings. */
module CodeBooks {
  import opened Canonical
  import opened BitReader
  import opened Blocks
  import opened Numerals
  import opened Sorting
  import opened HuffmanTables
  import opened CodeAssigner
  import opened FirstPass

  /** h is the table for the symbols of one class in toks: exactly those that occur, no symbol
      before a more frequent one, with the sizes of the profile. */
  ghost predicate Assigned(h: Huff, toks: seq<Tok>, table: nat) {
    && |h.vals| <= 256 && h.sizes == NewSizes(|h.vals|) && Distinct(h.vals)
    && (forall v: nat :: v in h.vals <==> v < 256 && Count(toks, table, v) > 0)
    && (forall i, j :: 0 <= i < j < |h.vals| ==> Count(toks, table, h.vals[i]) >= Count(toks, table, h.vals[j]))
  }

  lemma {:induction false} AssignedUsable(h: Huff, toks: seq<Tok>, table: nat)
    requires Assigned(h, toks, table)
    ensures Usable(h)
  {
    NewKraftful(|h.vals|);
    forall i | 0 <= i < |h.vals| ensures h.vals[i] < 256 { assert h.vals[i] in h.vals; }
  }

  /** The decoder's arrays hold a new table exactly when it lists at most 148 symbols: its 16-bit codes
      share one chain of 127 entries. */
  lemma {:induction false} AssignedGood(h: Huff, toks: seq<Tok>, table: nat)
    requires Assigned(h, toks, table)
    ensures Good(h) <==> |h.vals| <= 148
  {
    hide NewSizes, Kraftful;
    var n := |h.vals|;
    NewKraftful(n);
    forall i | 0 <= i < n ensures h.vals[i] < 256 { assert h.vals[i] in h.vals; }
    forall x: nat | 10 <= x <= 16
      ensures Occurrences(h.sizes, x) == if x == 16 && n > 21 then n - 21 else 0
    {
      NewLongSizes(n, x);
    }
    assert n > 0 ==> h.sizes[0] <= 9 by {
      if n > 0 { FirstSize(n); }
    }
    if Good(h) { assert Occurrences(h.sizes, 16) <= 127; }
  }

  /** Table agreement: from the 16 length counts and the values in order, the decoder's table builder
      rebuilds the table whose codes the assigner handed out, whatever follows the values. */
  lemma {:induction false} TableAgreement(h: Huff, toks: seq<Tok>, table: nat, rest: seq<nat>)
    requires Assigned(h, toks, table)
    ensures SizesOf(CountsOf(h.sizes)) == h.sizes && TableOf(CountsOf(h.sizes), h.vals + rest) == h
  {
    hide SizesOf, CountsOf, NewSizes;
    NewSizesOrdered(|h.vals|);
    SizesCounts(h.sizes);
    assert (h.vals + rest)[..|h.sizes|] == h.vals;
  }

  lemma {:induction false} FirstSize(n: nat)
    requires n > 0
    ensures NewSizes(n)[0] == 1
  {
    NewSizeCases(0);
  }

  function CountsOfVals(toks: seq<Tok>, table: nat, vals: seq<nat>): (c: seq<int>)
    ensures |c| == |vals|
  {
    seq(|vals|, i requires 0 <= i < |vals| => Count(toks, table, vals[i]))
  }

  function Ints(s: seq<nat>): (r: seq<int>)
    ensures |r| == |s|
  {
    seq(|s|, i requires 0 <= i < |s| => s[i])
  }

  /** The assignment is the cheapest for its code lengths: handing the same lengths to the symbols in
      any other way takes at least as many bits. */
  lemma {:induction false} AssignedBest(h: Huff, toks: seq<Tok>, table: nat, other: seq<int>)
    requires Assigned(h, toks, table) && multiset(other) == multiset(Ints(h.sizes)) && |other| == |h.sizes|
    ensures Cost(CountsOfVals(toks, table, h.vals), Ints(h.sizes)) <= Cost(CountsOfVals(toks, table, h.vals), other)
  {
    hide NewSizes;
    NewSizesOrdered(|h.vals|);
    Rearrangement(CountsOfVals(toks, table, h.vals), Ints(h.sizes), other);
  }

  /** How many bits the codes of the symbols of one table take in all. */
  function CodeBits(h: Huff, toks: seq<Tok>, table: nat): nat
    requires |h.vals| == |h.sizes| && Ordered(h.sizes)
    requires forall v :: Sym(table, v) in toks ==> v in h.vals
  {
    if toks == [] then 0
    else
      var t := toks[|toks| - 1];
      CodeBits(h, toks[..|toks| - 1], table)
      + (if t.Sym? && t.table == table then |CodeOf(h, t.val)| else 0)
  }

  lemma {:induction false} CodeBitsCost(h: Huff, toks: seq<Tok>, table: nat)
    requires |h.vals| == |h.sizes| && Ordered(h.sizes) && Distinct(h.vals)
    requires forall v :: Sym(table, v) in toks ==> v in h.vals
    ensures CodeBits(h, toks, table) == Cost(CountsOfVals(toks, table, h.vals), Ints(h.sizes))
  {
    hide Cost, Ordered, Codeword;
    var now := CountsOfVals(toks, table, h.vals);
    if toks == [] {
      CostZero(now, Ints(h.sizes));
    } else {
      var before, t := toks[..|toks| - 1], toks[|toks| - 1];
      CodeBitsCost(h, before, table);
      var earlier := CountsOfVals(before, table, h.vals);
      if t.Sym? && t.table == table {
        assert t in toks;
        var i := IndexOf(h.vals, t.val);
        assert now == earlier[i := earlier[i] + 1];
        CostOneMore(earlier, Ints(h.sizes), i);
      } else {
        assert now == earlier;
      }
    }
  }

  lemma {:induction false} Counted(toks: seq<Tok>, c: nat, v: nat)
    requires Sym(c, v) in toks
    ensures Count(toks, c, v) > 0
  {
    if toks[|toks| - 1] != Sym(c, v) { Counted(toks[..|toks| - 1], c, v); }
  }

  /** So the new codes take the fewest bits that these code lengths allow, over all files counted. */
  lemma {:induction false} FewestBits(h: Huff, toks: seq<Tok>, table: nat, other: seq<int>)
    requires Assigned(h, toks, table) && Ordered(h.sizes) && |other| == |h.sizes|
    requires multiset(other) == multiset(Ints(h.sizes)) && forall v :: Sym(table, v) in toks ==> v < 256
    ensures forall v :: Sym(table, v) in toks ==> v in h.vals
    ensures CodeBits(h, toks, table) <= Cost(CountsOfVals(toks, table, h.vals), other)
  {
    hide Cost, CodeBits, NewSizes;
    forall v | Sym(table, v) in toks ensures v in h.vals { Counted(toks, table, v); }
    CodeBitsCost(h, toks, table);
    AssignedBest(h, toks, table, other);
  }

  /** The values below n that occur. */
  function Used(toks: seq<Tok>, table: nat, n: nat): (s: seq<nat>)
    ensures |s| <= n
  {
    if n == 0 then []
    else if Count(toks, table, n - 1) != 0 then Used(toks, table, n - 1) + [n - 1]
    else Used(toks, table, n - 1)
  }

  lemma {:induction false} UsedSpec(toks: seq<Tok>, table: nat, n: nat)
    ensures var s := Used(toks, table, n);
            Distinct(s) && forall v: nat :: v in s <==> v < n && Count(toks, table, v) > 0
  {
    if n > 0 { UsedSpec(toks, table, n - 1); }
  }

  class OneHuff {
    const val: array<int>
    const num: array<int>
    const code: array<string>
    var count: nat
    ghost var h: Huff

    constructor ()
      ensures Shape() && fresh(val) && fresh(num) && fresh(code)
    {
      val := new int[256];
      num := new int[256];
      code := new string[256];
      count := 0;
      h := Huff([], []);
    }

    ghost predicate Shape() {
      val.Length == 256 && num.Length == 256 && code.Length == 256 && val != num
    }

    /** The first count entries list the table h with its code strings. */
    ghost predicate Valid()
      reads this, val, code
    {
      && Shape() && count <= 256 && |h.vals| == count && h.sizes == NewSizes(count) && Ordered(h.sizes)
      && (forall i: nat :: i < count ==> val[i] == h.vals[i] && code[i] == BitStr(Codeword(h.sizes, i)))
    }

    /** Each value sits beside its own count. */
    ghost predicate Paired(toks: seq<Tok>, table: nat, n: nat)
      reads val, num
    {
      && Shape() && n <= 256
      && forall i: nat :: i < n ==> 0 <= val[i] < 256 && num[i] == Count(toks, table, val[i])
    }

    /** Collects the symbols of a class that occur, in ascending order. */
    method Collect(hv: HuffVal, table: nat)
      requires Shape() && hv.Valid() && table < 4
      modifies this`count, val, num
      ensures var used := Used(hv.seen, table, 256);
              && count == |used| && (forall i: nat :: i < count ==> val[i] == used[i])
              && Paired(hv.seen, table, count)
    {
      count := 0;
      for i := 0 to 256
        invariant hv.Valid()
        invariant var used := Used(hv.seen, table, i);
                  count == |used| && (forall k: nat :: k < count ==> val[k] == used[k])
        invariant Paired(hv.seen, table, count)
      {
        if hv.n[table, i] != 0 {
          val[count] := i;
          num[count] := hv.n[table, i];
          count := count + 1;
        }
      }
    }

    /** Sorts the collected symbols by count and gives them their codes. */
    method BuildTree(ghost toks: seq<Tok>, ghost table: nat)
      requires Shape() && Paired(toks, table, count) && Counts(num[..count])
      requires var used := Used(toks, table, 256);
               count == |used| && forall i: nat :: i < count ==> val[i] == used[i]
      modifies this`h, val, num, code
      ensures Valid() && Assigned(h, toks, table)
    {
      hide Used, NewSizes, Codeword, BitStr, Assigned, Counts;
      ghost var used, nums := Used(toks, table, 256), num[..count];
      var sorter := new Sorter(num, count);
      sorter.BubbleSort();
      assert Permutation(sorter.index[..]);
      MoveArray(val, sorter.index, count);
      CalNewHuffman(code, count);
      ghost var vals := Pick(used, sorter.index[..]);
      h := Huff(NewSizes(count), vals);
      ShuffledAssigned(toks, table, sorter.index[..], vals, num[..count]);
    }

    /** The code string of a symbol. A listed symbol is found among the first count entries; what a
        missing one would meet behind them is left open. */
    method FindNewCode(v: nat) returns (found: bool, s: string)
      requires Valid()
      ensures v in h.vals ==> found && s == BitStr(CodeOf(h, v))
    {
      hide NewSizes, Codeword, BitStr;
      for i := 0 to 256
        invariant forall k: nat :: k < i && k < count ==> h.vals[k] != v
      {
        if val[i] == v {
          if i < count { FirstIndex(h.vals, v, i); }
          return true, code[i];
        }
      }
      return false, "";
    }
  }

  lemma {:induction false} FirstIndex(vals: seq<nat>, v: nat, i: nat)
    requires i < |vals| && vals[i] == v && forall k :: 0 <= k < i ==> vals[k] != v
    ensures v in vals && IndexOf(vals, v) == i
  {
    if i > 0 { FirstIndex(vals[1..], v, i - 1); }
  }

  function Pick(used: seq<nat>, index: seq<int>): (r: seq<nat>)
    requires |index| == |used| && forall k :: 0 <= k < |index| ==> 0 <= index[k] < |used|
    ensures |r| == |index| && forall k :: 0 <= k < |r| ==> r[k] == used[index[k]]
  {
    seq(|index|, i requires 0 <= i < |index| => used[index[i]])
  }

  /** A permutation of the symbols that occur, with their counts in descending order, is a table. */
  lemma {:induction false} ShuffledAssigned(toks: seq<Tok>, table: nat, index: seq<int>, vals: seq<nat>, nums: seq<int>)
    requires var used := Used(toks, table, 256);
             && Permutation(index) && |index| == |vals| == |nums| == |used|
             && (forall i :: 0 <= i < |vals| ==> vals[i] == used[index[i]])
             && (forall i :: 0 <= i < |vals| ==> nums[i] == Count(toks, table, vals[i]))
             && Descending(nums)
    ensures Assigned(Huff(NewSizes(|vals|), vals), toks, table)
  {
    hide Used, NewSizes;
    var used := Used(toks, table, 256);
    UsedSpec(toks, table, 256);
    forall v: nat | v in used ensures v in vals {
      var x :| 0 <= x < |used| && used[x] == v;
      PermutationOnto(index, x);
      var i :| 0 <= i < |index| && index[i] == x;
      assert vals[i] == v;
    }
    assert Distinct(vals);
  }
}

/** Assigning new codes: symbols sorted by frequency receive the codes of a fixed length profile. */
module CodeAssigner {
  import opened Bits
  import opened Canonical
  import opened Numerals

  /** How many codes of each size, 1 to 16, the profile offers. */
  const ONE_SIZE_MAX: seq<nat> := [0, 1, 0, 1, 3, 3, 2, 4, 7, 0, 0, 0, 0, 0, 0, 0, 256]

  /** The size of the i-th code, counted from the first code of size `size`. */
  function SizeFrom(i: nat, size: nat): (r: nat)
    requires 1 <= size <= 16
    ensures size <= r <= 16
    decreases 16 - size
  {
    if size == 16 || i < ONE_SIZE_MAX[size] then size else SizeFrom(i - ONE_SIZE_MAX[size], size + 1)
  }

  function NewSize(i: nat): (r: nat)
    ensures 1 <= r <= 16
  {
    SizeFrom(i, 1)
  }

  /** The sizes of the first n codes. */
  function NewSizes(n: nat): (s: seq<nat>)
    ensures |s| == n
  {
    seq(n, i requires i >= 0 => NewSize(i))
  }

  lemma {:induction false} SizeFromHere(i: nat, size: nat)
    requires 1 <= size <= 16 && i < ONE_SIZE_MAX[size]
    ensures SizeFrom(i, size) == size
  {}

  lemma {:induction false} SizeFromNext(i: nat, size: nat)
    requires 1 <= size < 16 && i >= ONE_SIZE_MAX[size]
    ensures SizeFrom(i, size) == SizeFrom(i - ONE_SIZE_MAX[size], size + 1)
  {}

  lemma {:induction false} NewSizeCases(i: nat)
    ensures NewSize(i) ==
            if i < 1 then 1 else if i < 2 then 3 else if i < 5 then 4 else if i < 8 then 5
            else if i < 10 then 6 else if i < 14 then 7 else if i < 21 then 8 else 16
  {
    hide SizeFrom;
    if i < 1 {
      SizeFromHere(i, 1);
    } else {
      SizeFromNext(i, 1);
      SizeFromNext(i - 1, 2);
      SizesFrom3(i);
    }
  }

  lemma {:induction false} SizesFrom3(i: nat)
    requires i >= 1
    ensures SizeFrom(i - 1, 3) ==
            if i < 2 then 3 else if i < 5 then 4 else if i < 8 then 5
            else if i < 10 then 6 else if i < 14 then 7 else if i < 21 then 8 else 16
  {
    hide SizeFrom;
    if i < 2 {
      SizeFromHere(i - 1, 3);
    } else {
      SizeFromNext(i - 1, 3);
      if i < 5 {
        SizeFromHere(i - 2, 4);
      } else {
        SizeFromNext(i - 2, 4);
        if i < 8 {
          SizeFromHere(i - 5, 5);
        } else {
          SizeFromNext(i - 5, 5);
          SizesFrom6(i);
        }
      }
    }
  }

  lemma {:induction false} SizesFrom6(i: nat)
    requires i >= 8
    ensures SizeFrom(i - 8, 6) == if i < 10 then 6 else if i < 14 then 7 else if i < 21 then 8 else 16
  {
    hide SizeFrom;
    if i < 10 {
      SizeFromHere(i - 8, 6);
    } else {
      SizeFromNext(i - 8, 6);
      if i < 14 {
        SizeFromHere(i - 10, 7);
      } else {
        SizeFromNext(i - 10, 7);
        if i < 21 {
          SizeFromHere(i - 14, 8);
        } else {
          SizeFromNext(i - 14, 8);
          SizeFromLast(i - 21, 9);
        }
      }
    }
  }

  lemma {:induction false} SizeFromLast(k: nat, size: nat)
    requires 9 <= size <= 16
    ensures SizeFrom(k, size) == 16
    decreases 16 - size
  {
    hide SizeFrom;
    if size < 16 {
      SizeFromNext(k, size);
      SizeFromLast(k, size + 1);
    } else {
      SizeFromEnd(k);
    }
  }

  lemma {:induction false} SizeFromEnd(k: nat)
    ensures SizeFrom(k, 16) == 16
  {}

  lemma {:induction false} NewSizesOrdered(n: nat)
    ensures Ordered(NewSizes(n))
  {
    forall i: nat, j: nat | i < j < n ensures NewSizes(n)[i] <= NewSizes(n)[j] {
      NewSizeCases(i);
      NewSizeCases(j);
    }
  }

  /** The code space that the first k codes of the profile take. */
  lemma {:induction false} NewKraft(n: nat, k: nat)
    requires k <= n && Ordered(NewSizes(n))
    ensures Kraft(NewSizes(n), k) ==
            if k <= 1 then 0x8000 * k else if k <= 2 then 0x8000 + 0x2000 * (k - 1)
            else if k <= 5 then 0xa000 + 0x1000 * (k - 2) else if k <= 8 then 0xd000 + 0x800 * (k - 5)
            else if k <= 10 then 0xe800 + 0x400 * (k - 8) else if k <= 14 then 0xf000 + 0x200 * (k - 10)
            else if k <= 21 then 0xf800 + 0x100 * (k - 14) else 0xff00 + (k - 21)
  {
    if k > 0 {
      hide Pow2, NewSize;
      NewKraft(n, k - 1);
      NewSizeCases(k - 1);
      ProfilePowers();
      assert NewSizes(n)[k - 1] == NewSize(k - 1);
    }
  }

  lemma {:induction false} ProfilePowers()
    ensures Pow2(15) == 0x8000 && Pow2(13) == 0x2000 && Pow2(12) == 0x1000 && Pow2(11) == 0x800
    ensures Pow2(10) == 0x400 && Pow2(9) == 0x200 && Pow2(8) == 0x100 && Pow2(0) == 1 && Pow2(16) == 0x1_0000
  {
    assert Pow2(8) == 0x100;
    assert Pow2(12) == 0x1000;
    assert Pow2(16) == 0x1_0000;
  }

  lemma {:induction false} NewKraftful(n: nat)
    requires n <= 256
    ensures Kraftful(NewSizes(n)) && Kraft(NewSizes(n), n) < Pow2(16)
  {
    hide NewSizes;
    NewSizesOrdered(n);
    NewKraft(n, n);
    ProfilePowers();
  }

  /** Of the sizes above 9 bits, the profile only uses 16. */
  lemma {:induction false} NewLongSizes(n: nat, x: nat)
    requires 10 <= x <= 16
    ensures Occurrences(NewSizes(n), x) == if x == 16 && n > 21 then n - 21 else 0
  {
    hide NewSize;
    if n > 0 {
      NewLongSizes(n - 1, x);
      NewSizeCases(n - 1);
      assert NewSizes(n)[..n - 1] == NewSizes(n - 1);
    }
  }

  /** The profile serves up to 256 symbols: sizes are nondecreasing, the codes are a prefix code,
      and none of them is all ones. */
  lemma {:induction false} ProfileWellFormed(n: nat)
    requires n <= 256
    ensures Kraftful(NewSizes(n)) && Kraft(NewSizes(n), n) < Pow2(16)
    ensures forall i: nat :: i < n ==> Codeword(NewSizes(n), i) != Ones(NewSizes(n)[i])
    ensures forall i: nat, j: nat :: i < j < n ==> !(Codeword(NewSizes(n), i) <= Codeword(NewSizes(n), j))
  {
    hide Codeword, Ones, NewSizes;
    var s := NewSizes(n);
    NewKraftful(n);
    forall i: nat | i < n ensures Codeword(s, i) != Ones(s[i]) { NotAllOnes(s, i); }
    forall i: nat, j: nat | i < j < n ensures !(Codeword(s, i) <= Codeword(s, j)) {
      NotBothPrefixes(s, i, j, Codeword(s, j));
    }
  }

  /** The numeral of a code has exactly the code's size, so no zero padding is ever needed. */
  lemma {:induction false} CodeNumeral(n: nat, i: nat)
    requires i < n <= 256
    ensures Ordered(NewSizes(n)) && Code(NewSizes(n), i) < Pow2(16)
    ensures Numeral(Code(NewSizes(n), i)) == BitStr(Codeword(NewSizes(n), i))
  {
    hide NewSize, Numeral, Shl, Kraft, Code, Binary, BitStr, BitsOf;
    var s := NewSizes(n);
    NewKraftful(n);
    KraftFits(s);
    Pow2Mono(s[i], 16);
    NewSizeCases(0);
    CodeLead(s, i);
    BinaryBitsOf(Code(s, i), s[i]);
    NumeralOf(Code(s, i));
  }

  /** Behind a first code of one bit, all codes start with a one. */
  lemma {:induction false} CodeLead(s: seq<nat>, i: nat)
    requires Ordered(s) && i < |s| && s[0] == 1
    ensures s[i] == 1 || Code(s, i) >= Pow2(s[i] - 1)
  {
    hide Shl;
    if i > 0 {
      CodeGap(s, 0, i);
      assert Code(s, 0) == 0;
    }
  }

  lemma {:induction false} NumeralOf(c: nat)
    ensures Numeral(c) == BitStr(Binary(c))
  {}

  lemma {:induction false} BinaryBitsOf(c: nat, n: nat)
    requires n >= 1 && c < Pow2(n) && (n == 1 || c >= Pow2(n - 1))
    ensures Binary(c) == BitsOf(c, n)
  {
    var b := BitsOf(c, n);
    ValBitsOf(c, n);
    ValLeading(b);
    if b[0] {
      BinaryVal(b);
    } else {
      assert n == 1 && c == 0;
      assert BitsOf(0, 0) == [];
    }
  }

  /** Writes the code strings of `length` symbols, shortest first. */
  method CalNewHuffman(arr: array<string>, length: nat)
    requires length <= 256 && length <= arr.Length
    modifies arr
    ensures Ordered(NewSizes(length))
    ensures forall i: nat :: i < length ==> arr[i] == BitStr(Codeword(NewSizes(length), i))
  {
    hide NewSizes, Codeword, BitStr, Code, Pending, Cursor;
    ghost var s := NewSizes(length);
    NewSizesOrdered(length);
    var huffcode: nat, size: nat, sizeNum: nat := 0, 1, 0;
    var i := 0;
    CursorStart(length);
    while i < length
      invariant 0 <= i <= length && 1 <= size <= 16 && Cursor(length, i, size, sizeNum, huffcode)
      invariant forall k: nat :: k < i ==> arr[k] == BitStr(Codeword(s, k))
      decreases length - i, 16 - size
    {
      if sizeNum < ONE_SIZE_MAX[size] {
        CursorTake(length, i, size, sizeNum, huffcode);
        if sizeNum != 0 { huffcode := huffcode + 1; }
        CodeNumeral(length, i);
        Pow2Mono(16, 18);
        var str := Tobin(huffcode);
        assert |str| == size;  // strlen(str) < size never holds: no padding
        arr[i] := str;
        sizeNum := sizeNum + 1;
        i := i + 1;
      } else {
        CursorGrow(length, i, size, sizeNum, huffcode);
        sizeNum := 0;
        if ONE_SIZE_MAX[size] != 0 { huffcode := huffcode + 1; }
        size := size + 1;
        huffcode := 2 * huffcode;
      }
    }
  }

  /** Before code i of n: `sizeNum` codes of the current size are given out; `huffcode` is the last of
      them, or if there is none yet, the next number. */
  ghost predicate Cursor(n: nat, i: nat, size: nat, sizeNum: nat, huffcode: nat) {
    var s := NewSizes(n);
    && Ordered(s) && 1 <= size <= 16 && i <= n && sizeNum <= i && sizeNum <= ONE_SIZE_MAX[size]
    && (forall k: nat :: i - sizeNum <= k ==> NewSize(k) == SizeFrom(k - (i - sizeNum), size))
    && (sizeNum > 0 ==> s[i - 1] == size && huffcode == Code(s, i - 1))
    && (sizeNum == 0 && i < n ==> (i > 0 ==> s[i - 1] <= size <= s[i]) && huffcode == Pended(s, i, size))
  }

  ghost function Pended(s: seq<nat>, i: nat, n: nat): nat
    requires Ordered(s) && i < |s|
  {
    if n <= s[i] then Pending(s, i, n) else 0
  }

  lemma {:induction false} CursorStart(n: nat)
    ensures Cursor(n, 0, 1, 0, 0)
  {
    NewSizesOrdered(n);
  }

  /** There is room at this size: give out the next number. */
  lemma {:induction false} CursorTake(n: nat, i: nat, size: nat, sizeNum: nat, huffcode: nat)
    requires 1 <= size <= 16 && Cursor(n, i, size, sizeNum, huffcode) && i < n && sizeNum < ONE_SIZE_MAX[size]
    ensures var s, c := NewSizes(n), huffcode + (if sizeNum != 0 then 1 else 0);
            Ordered(s) && s[i] == size && c == Code(s, i) && Cursor(n, i + 1, size, sizeNum + 1, c)
  {
    hide Pending, Code, NewSize, SizeFrom;
    var s := NewSizes(n);
    SizeFromHere(sizeNum, size);
    assert s[i] == NewSize(i) == SizeFrom(sizeNum, size);
    PendingNext(s, i, size);
    if sizeNum > 0 { PendingNext(s, i - 1, size); }
  }

  /** The size is used up: go on with numbers of one bit more. */
  lemma {:induction false} CursorGrow(n: nat, i: nat, size: nat, sizeNum: nat, huffcode: nat)
    requires 1 <= size <= 16 && Cursor(n, i, size, sizeNum, huffcode) && i < n <= 256
    requires sizeNum >= ONE_SIZE_MAX[size]
    ensures size < 16
    ensures Cursor(n, i, size + 1, 0, 2 * (huffcode + if ONE_SIZE_MAX[size] != 0 then 1 else 0))
  {
    hide Pending, Code, NewSize, SizeFrom;
    var s := NewSizes(n);
    assert size < 16;
    SizeFromNext(sizeNum, size);
    assert s[i] == NewSize(i) == SizeFrom(0, size + 1);
    if sizeNum > 0 { PendingNext(s, i - 1, size); }
    PendingShift(s, i, size);
    forall k: nat | i <= k ensures NewSize(k) == SizeFrom(k - i, size + 1) {
      assert NewSize(k) == SizeFrom(k - (i - sizeNum), size);
      SizeFromNext(k - (i - sizeNum), size);
    }
  }
}

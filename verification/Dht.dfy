/** The segment that defines the four Huffman tables: printing it and parsing it back
    (section B.2.4.2 of ITU-T T.81). */
module Dht {
  import opened Bits
  import opened Canonical
  import opened BitReader
  import opened Numerals
  import opened HuffmanTables
  import opened BitWriter
  import opened CodeBooks
  import opened SecondPass

  function Bytes(s: seq<nat>): (r: seq<byte>)
    requires forall i :: 0 <= i < |s| ==> s[i] < 256
    ensures |r| == |s| && forall i :: 0 <= i < |s| ==> r[i] == s[i]
  {
    seq(|s|, i requires 0 <= i < |s| => s[i])
  }

  function Nats(s: seq<byte>): (r: seq<nat>)
    ensures |r| == |s| && forall i :: 0 <= i < |s| ==> r[i] == s[i]
  {
    seq(|s|, i requires 0 <= i < |s| => s[i])
  }

  /** Bytes can list the table. */
  predicate Listable(h: Huff) {
    && |h.sizes| == |h.vals| < 256
    && forall i :: 0 <= i < |h.vals| ==> h.vals[i] < 256
  }

  lemma {:induction false} OccurrencesBound(s: seq<nat>, x: nat)
    ensures Occurrences(s, x) <= |s|
  {
    if s != [] { OccurrencesBound(s[..|s| - 1], x); }
  }

  lemma {:induction false} CountsSmall(s: seq<nat>)
    requires |s| < 256
    ensures forall i :: 0 <= i < 16 ==> CountsOf(s)[i] < 256
  {
    forall i | 0 <= i < 16 ensures CountsOf(s)[i] < 256 { OccurrencesBound(s, i + 1); }
  }

  /** A table's identifier, its 16 length counts, its values. */
  function TableBytes(id: byte, h: Huff): (r: seq<byte>)
    requires Listable(h)
    ensures |r| == 17 + |h.vals|
  {
    CountsSmall(h.sizes);
    [id] + Bytes(CountsOf(h.sizes)) + Bytes(h.vals)
  }

  lemma {:induction false} OccurrencesCount(s: seq<nat>, x: nat)
    ensures Occurrences(s, x) == multiset(s)[x]
  {
    if s != [] {
      OccurrencesCount(s[..|s| - 1], x);
      assert s == s[..|s| - 1] + [s[|s| - 1]];
    }
  }

  /** Byte n of a printed table, for n from 1 to 16, is the number of its codes of n bits. */
  lemma {:induction false} TableFields(id: byte, h: Huff, n: nat)
    requires Listable(h) && 1 <= n <= 16
    ensures TableBytes(id, h)[0] == id && TableBytes(id, h)[n] == multiset(h.sizes)[n]
    ensures TableBytes(id, h)[17..] == h.vals
  {
    OccurrencesCount(h.sizes, n);
  }

  predicate Writable(codes: seq<Huff>) {
    && |codes| == 4 && (forall c :: 0 <= c < 4 ==> Listable(codes[c]))
    && |codes[0].vals| + |codes[1].vals| + |codes[2].vals| + |codes[3].vals| <= 185
  }

  function DhtLength(codes: seq<Huff>): nat
    requires |codes| == 4
  {
    70 + |codes[0].vals| + |codes[1].vals| + |codes[2].vals| + |codes[3].vals|
  }

  /** The segment behind its marker: a length below 256, and the tables DC 0, AC 0, DC 1, AC 1. */
  function DhtBytes(codes: seq<Huff>): (r: seq<byte>)
    requires Writable(codes)
    ensures |r| == DhtLength(codes)
  {
    [0, DhtLength(codes)] + TableBytes(0x00, codes[0]) + TableBytes(0x10, codes[2])
    + TableBytes(0x01, codes[1]) + TableBytes(0x11, codes[3])
  }

  // ----- parsing -----

  /** The tables HTDC[0..3] and HTAC[0..3], as far as they are defined. */
  datatype Tables = Tables(dc: seq<Option<Huff>>, ac: seq<Option<Huff>>)

  predicate ValidTables(t: Tables) {
    |t.dc| == 4 && |t.ac| == 4
  }

  /** A high nibble other than 0 means an AC table. */
  function Enter(t: Tables, id: byte, h: Huff): (r: Tables)
    requires ValidTables(t) && id % 16 < 4
    ensures ValidTables(r)
  {
    if id / 16 != 0 then t.(ac := t.ac[id % 16 := Some(h)]) else t.(dc := t.dc[id % 16 := Some(h)])
  }

  datatype DhtOut = DhtOut(t: Tables, end: nat, left: int)

  function Be16(buf: seq<byte>, p: nat): nat
    requires p + 2 <= |buf|
  {
    256 * (buf[p] as int) + buf[p + 1]
  }

  /** The tables listed from p on, until `length` is used up. None when the file is too short, or when
      a table does not fit the decoder: no such number, or no code that its arrays can hold. */
  function ParseTables(buf: seq<byte>, p: nat, length: int, t: Tables): (r: Option<DhtOut>)
    requires p <= |buf| && ValidTables(t)
    ensures r.Some? ==> ValidTables(r.value.t) && p <= r.value.end <= |buf| && r.value.left <= 0
    decreases |buf| - p
  {
    if length <= 0 then Some(DhtOut(t, p, length))
    else if p + 17 > |buf| then None
    else
      var bits := Nats(buf[p + 1..p + 17]);
      var n := |SizesOf(bits)|;
      if p + 17 + n > |buf| || buf[p] % 16 >= 4 then None
      else
        var h := TableOf(bits, Nats(buf[p + 17..]));
        if !Good(h) then None
        else ParseTables(buf, p + 17 + n, length - 17 - n, Enter(t, buf[p], h))
  }

  /** The segment whose length field is at p. */
  function ParseDht(buf: seq<byte>, p: nat, t: Tables): (r: Option<DhtOut>)
    requires ValidTables(t)
    ensures r.Some? ==> ValidTables(r.value.t) && p <= r.value.end <= |buf|
  {
    if p + 2 > |buf| then None else ParseTables(buf, p + 2, Be16(buf, p) - 2, t)
  }

  /** One printed table is parsed back. */
  lemma {:induction false} ParsePrinted(buf: seq<byte>, p: nat, length: int, t: Tables, id: byte, h: Huff)
    requires ValidTables(t) && Listable(h) && Good(h) && id % 16 < 4 && length > 0
    requires var e := p + 17 + |h.vals|; e <= |buf| && buf[p..e] == TableBytes(id, h)
    ensures var e := p + 17 + |h.vals|;
            ParseTables(buf, p, length, t) == ParseTables(buf, e, length - 17 - |h.vals|, Enter(t, id, h))
  {
    hide Good, CountsOf, SizesOf, Enter;
    var e, bits := p + 17 + |h.vals|, Nats(buf[p + 1..p + 17]);
    var w := buf[p..e];
    GoodSize(h);
    CountsSmall(h.sizes);
    assert bits == CountsOf(h.sizes) by {
      forall i | 0 <= i < 16 ensures bits[i] == CountsOf(h.sizes)[i] {
        assert bits[i] == buf[p + 1 + i] == w[1 + i];
      }
    }
    SizesCounts(h.sizes);
    assert buf[p] == w[0];
    var vals := Nats(buf[p + 17..]);
    assert vals[..|h.vals|] == h.vals by {
      forall i | 0 <= i < |h.vals| ensures vals[i] == h.vals[i] {
        assert vals[i] == buf[p + 17 + i] == w[17 + i];
      }
    }
  }

  /** The tables after parsing what DhtBytes prints. */
  function Defined(t: Tables, codes: seq<Huff>): (r: Tables)
    requires ValidTables(t) && |codes| == 4
    ensures ValidTables(r)
  {
    Tables([Some(codes[0]), Some(codes[1])] + t.dc[2..], [Some(codes[2]), Some(codes[3])] + t.ac[2..])
  }

  /** Printing and parsing undo each other: wherever the segment stands and whatever follows it, the
      parser recovers all four tables, its length counter reaches exactly 0, and it stops behind the
      segment, where its length field says. */
  lemma {:induction false} DhtRoundTrip(pre: seq<byte>, codes: seq<Huff>, post: seq<byte>, t: Tables)
    requires ValidTables(t) && Writable(codes) && forall c :: 0 <= c < 4 ==> Good(codes[c])
    ensures var buf := pre + DhtBytes(codes) + post;
            var e := |pre| + |DhtBytes(codes)|;
            && ParseDht(buf, |pre|, t) == Some(DhtOut(Defined(t, codes), e, 0))
            && |pre| + Be16(buf, |pre|) == e
  {
    hide Good, TableBytes, ParseTables, Listable, Enter;
    var buf, p0 := pre + DhtBytes(codes) + post, |pre| + 2;
    var a, b := TableBytes(0x00, codes[0]), TableBytes(0x10, codes[2]);
    var c, d := TableBytes(0x01, codes[1]), TableBytes(0x11, codes[3]);
    var p1 := p0 + |a|;
    var p2 := p1 + |b|;
    var p3 := p2 + |c|;
    var p4 := p3 + |d|;
    FourParts(buf, pre + [0, DhtLength(codes)], a, b, c, d, post);
    assert buf[|pre|] == 0 && buf[|pre| + 1] == DhtLength(codes);
    var n := DhtLength(codes) - 2;
    var t1 := Enter(t, 0x00, codes[0]);
    var t2 := Enter(t1, 0x10, codes[2]);
    var t3 := Enter(t2, 0x01, codes[1]);
    ParsePrinted(buf, p0, n, t, 0x00, codes[0]);
    ParsePrinted(buf, p1, n - |a|, t1, 0x10, codes[2]);
    ParsePrinted(buf, p2, n - |a| - |b|, t2, 0x01, codes[1]);
    ParsePrinted(buf, p3, |d|, t3, 0x11, codes[3]);
    ParseDone(buf, p4, Enter(t3, 0x11, codes[3]));
    EnterFour(t, codes);
  }

  lemma {:induction false} FourParts(buf: seq<byte>, h: seq<byte>, a: seq<byte>, b: seq<byte>, c: seq<byte>,
                                     d: seq<byte>, post: seq<byte>)
    requires buf == h + a + b + c + d + post
    ensures var p := |h|;
            && p + |a| + |b| + |c| + |d| <= |buf|
            && buf[..p] == h && buf[p..p + |a|] == a && buf[p + |a|..p + |a| + |b|] == b
            && buf[p + |a| + |b|..p + |a| + |b| + |c|] == c
            && buf[p + |a| + |b| + |c|..p + |a| + |b| + |c| + |d|] == d
  {}

  lemma {:induction false} ParseDone(buf: seq<byte>, p: nat, t: Tables)
    requires p <= |buf| && ValidTables(t)
    ensures ParseTables(buf, p, 0, t) == Some(DhtOut(t, p, 0))
  {}

  lemma {:induction false} EnterFour(t: Tables, codes: seq<Huff>)
    requires ValidTables(t) && |codes| == 4
    ensures Enter(Enter(Enter(Enter(t, 0x00, codes[0]), 0x10, codes[2]), 0x01, codes[1]), 0x11, codes[3])
            == Defined(t, codes)
  {}

  // ----- printing -----

  lemma {:induction false} BinaryByte(v: nat, k: nat)
    requires v < Pow2(k) && k >= 1
    ensures Val(Binary(v)) == v && |Binary(v)| <= k
  {
    if v < 2 {
      assert Binary(v)[..0] == [];
    } else {
      BinaryByte(v / 2, k - 1);
      assert Binary(v)[..|Binary(v)| - 1] == Binary(v / 2);
    }
  }

  /** A byte is written as itself. */
  lemma {:induction false} NumeralByte(v: nat)
    requires v < 256
    ensures |Numeral(v)| <= 8 && Val(StrBits(Numeral(v))) == v && Abs(v) < Pow2(18)
  {
    hide Binary, Val, BitStr, StrBits;
    assert Pow2(8) == 256;
    Pow2Mono(8, 18);
    BinaryByte(v, 8);
    StrBitsBitStr(Binary(v));
  }

  method WriteOne(w: Packer, v: nat)
    requires w.Idle() && v < 256
    modifies w
    ensures w.Idle() && w.out == old(w.out) + [v]
  {
    hide Numeral, Pow2, Val, StrBits, Packer.Idle;
    NumeralByte(v);
    var s := Tobin(v);
    w.WriteNumber(s);
  }

  /** Writes how many codes have i digits. */
  method WriteCount(w: Packer, huff: OneHuff, i: nat)
    requires w.Idle() && huff.Valid() && {w as object} !! {huff, huff.val, huff.code} && huff.count < 256
    modifies w
    ensures w.Idle() && Occurrences(huff.h.sizes, i) < 256
    ensures w.out == old(w.out) + [Occurrences(huff.h.sizes, i)]
  {
    hide Packer.Idle, Codeword, BitStr;
    ghost var s := huff.h.sizes;
    var count := 0;
    for j := 0 to huff.count
      invariant count == Occurrences(s[..j], i)
    {
      assert s[..j + 1][..j] == s[..j];
      if |huff.code[j]| == i { count := count + 1; }
    }
    assert s[..|s|] == s;
    OccurrencesBound(s, i);
    WriteOne(w, count);
  }

  method WriteCounts(w: Packer, huff: OneHuff)
    requires w.Idle() && huff.Valid() && {w as object} !! {huff, huff.val, huff.code} && Listable(huff.h)
    modifies w
    ensures w.Idle() && forall i :: 0 <= i < 16 ==> CountsOf(huff.h.sizes)[i] < 256
    ensures w.out == old(w.out) + Bytes(CountsOf(huff.h.sizes))
  {
    hide Packer.Idle, Occurrences, Bytes, OneHuff.Valid;
    ghost var h, start := huff.h, w.out;
    CountsSmall(h.sizes);
    SmallBook(huff);
    ghost var counts := Bytes(CountsOf(h.sizes));
    for i := 1 to 17
      invariant w.Idle() && w.out == start + counts[..i - 1]
    {
      WriteCount(w, huff, i);
      TakeNext(start, counts, i - 1);
    }
    assert counts[..16] == counts;
  }

  lemma {:induction false} SmallBook(huff: OneHuff)
    requires huff.Valid() && Listable(huff.h)
    ensures huff.count == |huff.h.vals| < 256
  {}

  method WriteValues(w: Packer, huff: OneHuff)
    requires w.Idle() && huff.Valid() && {w as object} !! {huff, huff.val, huff.code} && Listable(huff.h)
    modifies w
    ensures w.Idle() && w.out == old(w.out) + Bytes(huff.h.vals)
  {
    hide Packer.Idle, Bytes;
    ghost var h, start := huff.h, w.out;
    for i := 0 to huff.count
      invariant w.Idle() && w.out == start + Bytes(h.vals)[..i]
    {
      WriteOne(w, huff.val[i]);
      TakeNext(start, Bytes(h.vals), i);
    }
    assert Bytes(h.vals)[..huff.count] == Bytes(h.vals);
  }

  /** Writes one table: identifier, 16 counts, values. */
  method WriteTable(w: Packer, id: byte, huff: OneHuff)
    requires w.Idle() && huff.Valid() && {w as object} !! {huff, huff.val, huff.code} && Listable(huff.h)
    modifies w
    ensures w.Idle() && w.out == old(w.out) + TableBytes(id, huff.h)
  {
    hide Packer.Idle, CountsOf, Bytes, OneHuff.Valid;
    w.Raw(id);
    WriteCounts(w, huff);
    WriteValues(w, huff);
  }

  lemma {:induction false} TakeNext(a: seq<byte>, s: seq<byte>, i: nat)
    requires i < |s|
    ensures a + s[..i + 1] == a + s[..i] + [s[i]]
  {}

  /** Writes the segment behind its marker, for images without subsampling. */
  method WriteHuffmanTable(w: Packer, book: CodeBook, ghost codes: seq<Huff>)
    requires w.Idle() && book.Holds(codes) && w !in book.repr && Writable(codes)
    modifies w
    ensures w.Idle() && book.Holds(codes) && w.out == old(w.out) + DhtBytes(codes)
  {
    hide Packer.Idle, OneHuff.Valid, Listable, TableBytes, Usable;
    ghost var start := w.out;
    BookEntries(book, codes);
    w.Raw(0);
    WriteOne(w, 70 + book.t[0].count + book.t[1].count + book.t[2].count + book.t[3].count);
    WriteTable(w, 0x00, book.t[0]);
    WriteTable(w, 0x10, book.t[2]);
    WriteTable(w, 0x01, book.t[1]);
    WriteTable(w, 0x11, book.t[3]);
  }

  lemma {:induction false} BookEntries(book: CodeBook, codes: seq<Huff>)
    requires book.Holds(codes)
    ensures |book.t| == 4
    ensures forall c: nat :: c < 4 ==>
              book.t[c].Valid() && book.t[c].h == codes[c] && book.t[c].count == |codes[c].vals|
              && {book.t[c], book.t[c].val, book.t[c].code} <= book.repr
  {}
}

/** The decoder object: the stream pointer, a 32-bit reservoir of bits, tables, predictors. */
module Decoders {
  import opened Bits
  import opened Canonical
  import opened BitReader
  import opened Blocks
  import opened Scans
  import opened HuffmanTables

  lemma {:induction false} Pow2Values()
    ensures Pow2(8) == 0x100 && Pow2(15) == 0x8000 && Pow2(16) == 0x1_0000 && Pow2(32) == 0x1_0000_0000
  {
    assert Pow2(8) == 0x100;
    assert Pow2(15) == 0x8000;
    assert Pow2(16) == 0x1_0000;
    assert Pow2(24) == 0x100_0000;
    assert Pow2(32) == 0x1_0000_0000;
  }

  /** Shifting a byte into a reservoir of n bits appends its bits. */
  lemma {:induction false} ShiftIn(r: nat, n: nat, c: byte)
    requires r < Pow2(n) && n <= 24
    ensures 256 * r + c < Pow2(n + 8) <= 0x1_0000_0000
    ensures BitsOf(256 * r + c, n + 8) == BitsOf(r, n) + BitsOf(c, 8)
  {
    hide BitsOf, Val, Shl;
    var s := BitsOf(r, n) + BitsOf(c, 8);
    assert Val(s) == 256 * r + c by {
      Pow2Values();
      ValBitsOf(r, n);
      ValBitsOf(c, 8);
      ValConcat(BitsOf(r, n), BitsOf(c, 8));
      ShlEight(r);
    }
    ValBound(s);
    BitsOfVal(s);
    Pow2Mono(n + 8, 32);
    Pow2Values();
  }

  lemma {:induction false} ShlEight(r: nat)
    ensures Shl(r, 8) == 256 * r
  {
    assert Shl(r, 1) == 2 * r;
    assert Shl(r, 3) == 8 * r;
    assert Shl(r, 5) == 32 * r;
    assert Shl(r, 7) == 128 * r;
  }

  /** Looking at the first k bits, and dropping them. */
  lemma {:induction false} LookAndSkip(r: nat, n: nat, k: nat)
    requires r < Pow2(n) && k <= n
    ensures Shr(r, n - k) == Val(BitsOf(r, n)[..k])
    ensures Low(r, n - k) < Pow2(n - k) && BitsOf(Low(r, n - k), n - k) == BitsOf(r, n)[k..]
  {
    hide BitsOf, Val, Shr, Low, Shl;
    var s := BitsOf(r, n);
    ValBitsOf(r, n);
    ValShr(s, n - k);
    ValLow(s, n - k);
    ValBound(s[k..]);
    BitsOfVal(s[k..]);
  }

  /** Adding 0xFFFFFFFF << s and 1 to a short subtracts 2^s - 1. */
  lemma {:induction false} NegativeValue(raw: nat, s: nat)
    requires 1 <= s <= 15 && raw < Pow2(s)
    ensures Pow2(s) <= 0x8000
    ensures Wrap16(raw + Shl(0xffff_ffff, s) + 1) == raw - Pow2(s) + 1
  {
    hide Shl;
    ShlSum(0xffff_ffff, 1, s);
    ShlWord(s);
    Pow2Mono(s, 15);
    Pow2Values();
    ModWord(Shl(0x1_0000, s), raw - Pow2(s) + 1 + 0x8000);
  }

  lemma {:induction false} ModWord(q: nat, y: nat)
    requires y < 0x1_0000
    ensures (0x1_0000 * q + y) % 0x1_0000 == y
  {}

  lemma {:induction false} ShlWord(s: nat)
    ensures Shl(0x1_0000_0000, s) == 0x1_0000 * Shl(0x1_0000, s)
  {
    if s > 0 { ShlWord(s - 1); }
  }

  /** DC symbols are sizes; the coefficient type holds 15 bits and a sign. */
  predicate SmallVals(h: Huff) {
    forall i :: 0 <= i < |h.vals| ==> h.vals[i] <= 15
  }

  method NewTables() returns (ts: seq<HuffmanTable>, ghost repr: set<object>)
    ensures |ts| == 8 && fresh(repr)
    ensures forall i :: 0 <= i < 8 ==> ts[i].Shape() && ts[i].Repr <= repr
    ensures forall i, j :: 0 <= i < j < 8 ==> ts[i].Repr !! ts[j].Repr
  {
    ts, repr := [], {};
    while |ts| < 8
      invariant |ts| <= 8 && fresh(repr)
      invariant forall i :: 0 <= i < |ts| ==> ts[i].Shape() && ts[i].Repr <= repr
      invariant forall i, j :: 0 <= i < j < |ts| ==> ts[i].Repr !! ts[j].Repr
    {
      var t := new HuffmanTable();
      ts := ts + [t];
      repr := repr + t.Repr;
    }
  }

  class Jdec {
    const buf: seq<byte>
    const streamEnd: nat
    var stream: nat
    var reservoir: nat   // an unsigned 32-bit integer
    var nbits: nat       // nbits_in_reservoir

    // HTDC[0..3] and HTAC[0..3], and which of them each component uses; None is a null pointer
    const tables: seq<HuffmanTable>
    ghost const tableRepr: set<object>
    var dcOf: seq<Option<nat>>
    var acOf: seq<Option<nat>>

    var previousDc: seq<int>      // per component: the DC predictor
    var dct: seq<seq<int>>        // per component: the coefficients of its last block
    ghost var blocks: seq<seq<int>>  // the coefficients of all blocks so far
    var restartInterval: nat
    var restartsToGo: int
    var lastRst: nat              // last_rst_marker_seen
    var width: nat
    var height: nat
    var hfactor: seq<nat>
    var vfactor: seq<nat>

    /** A zeroed object over a file of which streamEnd bytes may be fetched. */
    constructor (buf: seq<byte>, streamEnd: nat)
      requires streamEnd < |buf|
      ensures this.buf == buf && this.streamEnd == streamEnd
      ensures Reading() && Wired() && Settled() && fresh(tableRepr) && this !in tableRepr
      ensures Reader() == Rd(0, []) && blocks == []
      ensures restartInterval == 0 && lastRst == 0 && width == 0 && height == 0
      ensures hfactor == [0, 0, 0] && vfactor == [0, 0, 0]
      ensures dcOf == acOf == [None, None, None]
    {
      this.buf, this.streamEnd := buf, streamEnd;
      stream, reservoir, nbits := 0, 0, 0;
      var ts;
      ghost var repr;
      ts, repr := NewTables();
      tables, tableRepr := ts, repr;
      dcOf, acOf := [None, None, None], [None, None, None];
      hfactor, vfactor := [0, 0, 0], [0, 0, 0];
      previousDc, dct := [0, 0, 0], [ZeroBlock(0), ZeroBlock(0), ZeroBlock(0)];
      restartInterval, restartsToGo, lastRst, width, height := 0, 0, 0, 0, 0;
      blocks := [];
    }

    /** The eight tables share no storage. */
    ghost predicate Wired() {
      && |tables| == 8 && (forall i :: 0 <= i < 8 ==> tables[i].Shape() && tables[i].Repr <= tableRepr)
      && (forall i, j :: 0 <= i < j < 8 ==> tables[i].Repr !! tables[j].Repr)
    }

    /** The per-component fields cover three components. */
    ghost predicate Settled()
      reads this`previousDc, this`dct, this`hfactor, this`vfactor, this`lastRst
    {
      |previousDc| == 3 && |dct| == 3 && |hfactor| == 3 && |vfactor| == 3 && lastRst < 8
    }

    /** Three components are bound to tables. */
    ghost predicate Bound()
      reads this`dcOf, this`acOf
    {
      && Wired() && |dcOf| == 3 && |acOf| == 3
      && forall c :: 0 <= c < 3 ==> dcOf[c].Some? && dcOf[c].value < 4 && acOf[c].Some? && acOf[c].value < 4
    }

    function DcT(c: nat): (t: HuffmanTable)
      requires Bound() && c < 3
      reads this`dcOf, this`acOf
    {
      tables[dcOf[c].value]
    }

    function AcT(c: nat): (t: HuffmanTable)
      requires Bound() && c < 3
      reads this`dcOf, this`acOf
    {
      tables[4 + acOf[c].value]
    }

    /** A DC table of sizes of at most 15 bits, and any AC table. */
    ghost predicate ComponentReady(c: nat)
      requires Bound() && c < 3
      reads this`dcOf, this`acOf, tableRepr
    {
      && DcT(c).Valid() && AcT(c).Valid() && SmallVals(DcT(c).h)
    }

    /** The tables of all components are built. */
    ghost predicate TablesReady()
      reads this`dcOf, this`acOf, tableRepr
    {
      Bound() && this !in tableRepr && forall c: nat :: c < 3 ==> ComponentReady(c)
    }

    lemma {:induction false} ComponentTables(c: nat)
      requires TablesReady() && c < 3
      ensures Bound() && this !in tableRepr
      ensures DcT(c).Repr <= tableRepr && AcT(c).Repr <= tableRepr
      ensures DcT(c).Valid() && AcT(c).Valid() && SmallVals(DcT(c).h)
      ensures DcT(c).h == DcH(c) && AcT(c).h == AcH(c)
    {
      hide HuffmanTable.Valid;
      assert ComponentReady(c);
    }

    /** Everything decoding needs. */
    ghost predicate Ready()
      reads this, tableRepr
    {
      Reading() && Settled() && TablesReady()
    }

    ghost function DcH(c: nat): (h: Huff)
      requires TablesReady() && c < 3
      reads this`dcOf, this`acOf, tableRepr
      ensures Usable(h) && SmallVals(h)
    {
      assert ComponentReady(c);
      DcT(c).h
    }

    ghost function AcH(c: nat): (h: Huff)
      requires TablesReady() && c < 3
      reads this`dcOf, this`acOf, tableRepr
      ensures Usable(h)
    {
      assert ComponentReady(c);
      AcT(c).h
    }

    ghost function Tables(mcu: seq<nat>): (e: Env)
      requires TablesReady() && forall i :: 0 <= i < |mcu| ==> mcu[i] < 3
      reads this`dcOf, this`acOf, this`restartInterval, tableRepr
      ensures ValidEnv(e)
    {
      Env([DcH(0), DcH(1), DcH(2)], [AcH(0), AcH(1), AcH(2)], mcu, restartInterval)
    }

    ghost function State(): (st: St)
      requires Settled()
      reads this
      ensures ValidSt(st)
    {
      St(Reader(), previousDc, restartsToGo, lastRst)
    }

    /** The file; the constructor leaves at least one byte behind streamEnd. */
    ghost function Source(): (src: Src)
      ensures ValidSrc(src) && (streamEnd < |buf| ==> src == Src(buf, streamEnd))
    {
      if streamEnd < |buf| then Src(buf, streamEnd) else Src([0], 0)
    }

    /** The reservoir holds nbits bits, all fetched from bytes before `stream`, and never more than
        23, so no shift loses any. */
    ghost predicate Reading()
      reads this`stream, this`reservoir, this`nbits
    {
      && streamEnd < |buf| && stream <= |buf|
      && nbits <= 23 && nbits <= 8 * stream && reservoir < Pow2(nbits)
    }

    ghost function Reader(): Rd
      reads this`stream, this`reservoir, this`nbits
    {
      Rd(stream, BitsOf(reservoir, nbits))
    }

    /** Fetches bytes until `need` bits are in the reservoir; false when the file ends first. */
    method Refill(need: nat) returns (ok: bool)
      requires Reading() && need <= 16
      modifies this`stream, this`reservoir, this`nbits
      ensures Reading()
      ensures match Fill(Source(), old(Reader()), need)
              case None => !ok
              case Some(r) => ok && Reader() == r && nbits >= need
    {
      hide BitsOf, Pow2;
      ghost var goal := Fill(Source(), Reader(), need);
      while nbits < need
        invariant Reading() && Fill(Source(), Reader(), need) == goal
        decreases need - nbits
      {
        if stream >= streamEnd { return false; }
        var c := buf[stream];
        ShiftIn(reservoir, nbits, c);
        stream := stream + 1;
        reservoir := (reservoir * 256) % 0x1_0000_0000;
        if c == 0xff && buf[stream] == 0x00 { stream := stream + 1; }
        reservoir := reservoir + c;
        nbits := nbits + 8;
      }
      return true;
    }

    /** Drops the first k bits of the reservoir. */
    method Skip(k: nat)
      requires Reading() && k <= nbits
      modifies this`reservoir, this`nbits
      ensures Reading() && nbits == old(nbits) - k
      ensures Reader() == Rd(stream, old(Reader()).bits[k..])
    {
      LookAndSkip(reservoir, nbits, k);
      nbits := nbits - k;
      reservoir := Low(reservoir, nbits);
    }

    /** Reads `size` magnitude bits and extends their sign. A short receives the raw bits, to which
        0xFFFFFFFF << size and 1 are added when they start with a zero. */
    method GetValue(size: nat) returns (ok: bool, value: int, ghost raw: seq<bool>)
      requires Reading() && 1 <= size <= 15
      modifies this`stream, this`reservoir, this`nbits
      ensures Reading()
      ensures match ReadBits(Source(), old(Reader()), size)
              case None => !ok
              case Some((b, r)) => ok && raw == b && Reader() == r && value == Extend(Val(b), size)
    {
      hide Fill, BitsOf, Shl, Wrap16;
      ok := Refill(size);
      if !ok { return false, 0, []; }
      raw := Reader().bits[..size];
      value := Look(size);
      Skip(size);
      if value < Shl(1, size - 1) {
        NegativeValue(value, size);
        value := Wrap16(value + Shl(0xffff_ffff, size) + 1);
      }
    }

    /** The first n bits of the reservoir as a number. */
    method Look(n: nat) returns (hcode: nat)
      requires Reading() && n <= nbits
      ensures hcode == Val(Reader().bits[..n]) && hcode < Pow2(n)
    {
      LookAndSkip(reservoir, nbits, n);
      ValBound(Reader().bits[..n]);
      hcode := Shr(reservoir, nbits - n);
    }

    /** The next symbol: one lookup for the codes of up to 9 bits, then the chains of the longer
        sizes, one bit more at a time. False when the file ends first. */
    method NextCode(table: HuffmanTable) returns (ok: bool, sym: int)
      requires Reading() && table.Valid()
      modifies this`stream, this`reservoir, this`nbits
      ensures Reading() && table.Valid()
      ensures match ReadCode(Source(), table.h, old(Reader()), 9)
              case Starved => !ok
              case Got(s, _, r) => ok && sym == s && Reader() == r
    {
      hide Good, Fill, Find, Slot;
      ValidTable(table);
      ok := Refill(9);
      if !ok { return false, 0; }
      var hcode := Look(9);
      ghost var b := Reader().bits[..9];
      SlotIsFind(table.h, b);
      Pow2Nine();
      var value := table.lookup[hcode];
      if value >= 0 {
        var codeSize := table.codeSize[value];
        Skip(codeSize);
        return true, value;
      }
      ok, sym := SlowCode(table);
    }

    /** Fetches 10 + extra bits and searches the chain of that size for them. */
    method Probe(table: HuffmanTable, extra: nat) returns (ok: bool, value: int)
      requires Reading() && table.Valid() && extra < 7 && nbits >= extra + 9
      requires Find(table.h.sizes, Reader().bits[..extra + 9], 0) == None
      modifies this`stream, this`reservoir, this`nbits
      ensures Reading() && table.Valid()
      ensures match Fill(Source(), old(Reader()), extra + 10)
              case None => !ok
              case Some(r) => ok && Reader() == r && nbits >= extra + 10
                              && value == ValueOf(table.h, r.bits[..extra + 10])
                              && (value >= 0 ==>
                                    table.h.sizes[Find(table.h.sizes, r.bits[..extra + 10], 0).value] == extra + 10)
    {
      hide Good, Fill, Find, Codeword, BitsOf, Val;
      ValidTable(table);
      var n := HASH_NBITS + 1 + extra;
      ghost var before := Reader();
      ok := Refill(n);
      if !ok { return false, 0; }
      FillExtends(Source(), before, n);
      ghost var b := Reader().bits[..n];
      assert b[..extra + 9] == before.bits[..extra + 9];
      var hcode := Look(n);
      value := table.SearchChain(extra, hcode, b);
      ExactSize(table.h, b);
    }

    /** No code of up to 9 bits: search the chains of 10, 11, ... 16 bits. */
    method SlowCode(table: HuffmanTable) returns (ok: bool, sym: int)
      requires Reading() && table.Valid() && nbits >= 9
      requires Find(table.h.sizes, Reader().bits[..9], 0) == None
      modifies this`stream, this`reservoir, this`nbits
      ensures Reading() && table.Valid()
      ensures match ReadCode(Source(), table.h, old(Reader()), 10)
              case Starved => !ok
              case Got(s, _, r) => ok && sym == s && Reader() == r
    {
      hide Good, Fill, Find, BitsOf, Val;
      ValidTable(table);
      ghost var goal := ReadCode(Source(), table.h, Reader(), 10);
      for extra := 0 to 16 - HASH_NBITS
        invariant Reading() && table.Valid() && nbits >= extra + 9
        invariant Find(table.h.sizes, Reader().bits[..extra + 9], 0) == None
        invariant if extra < 7 then ReadCode(Source(), table.h, Reader(), extra + 10) == goal
                  else goal == Got(0, 0, Reader())
      {
        var value;
        ok, value := Probe(table, extra);
        if !ok { return false, 0; }
        if value >= 0 {
          Skip(HASH_NBITS + 1 + extra);
          return true, value;
        }
      }
      return true, 0;
    }

    /** Looks for the next restart marker from `stream` on. */
    method SeekRst() returns (m: MarkerOut)
      requires Reading() && lastRst < 8
      ensures m == FindMarker(buf, stream, lastRst)
    {
      ghost var goal := FindMarker(buf, stream, lastRst);
      var p := stream;
      while true
        invariant p <= |buf| && FindMarker(buf, p, lastRst) == goal
        decreases |buf| - p
      {
        while p < |buf| && buf[p] != 0xff
          invariant p <= |buf| && FindMarker(buf, p, lastRst) == goal
        {
          p := p + 1;
        }
        if p == |buf| { return Lost; }
        p := p + 1;
        ghost var q := SkipFf(buf, p);
        while p < |buf| && buf[p] == 0xff
          invariant p <= |buf| && SkipFf(buf, p) == q
        {
          p := p + 1;
        }
        if p == |buf| { return Lost; }
        var marker := buf[p];
        p := p + 1;
        if marker == 0xd0 + lastRst { return MarkerOut.Found(p); }
        if marker == 0xd9 { return AtEoi; }
      }
    }

    /** Predictors to 0, an empty reservoir, a full restart interval. */
    method ResyncHere()
      requires Reading() && Settled()
      modifies this`previousDc, this`reservoir, this`nbits, this`restartsToGo
      ensures Reading() && Settled()
      ensures State() == Resync(stream, restartInterval, lastRst)
    {
      previousDc := [0, 0, 0];
      reservoir, nbits := 0, 0;
      restartsToGo := if restartInterval > 0 then restartInterval else -1;
    }

    /** At the end of a restart interval: gives the unread bytes back and resynchronises. */
    method RewindAndResync()
      requires Reading() && Settled()
      modifies this`stream, this`previousDc, this`reservoir, this`nbits, this`restartsToGo
      ensures Reading() && Settled()
      ensures State() == Resync(Rewind(Source(), old(Reader())), restartInterval, lastRst)
    {
      stream := stream - nbits / 8;
      nbits := 0;
      reservoir := 0;
      ResyncHere();
    }

    /** ... and goes on behind the next restart marker, when it comes before the end of the image. */
    method PassMarker() returns (m: MarkerOut)
      requires Reading() && Settled()
      modifies this`stream, this`previousDc, this`reservoir, this`nbits, this`restartsToGo, this`lastRst
      ensures Reading() && Settled()
      ensures var p := Rewind(Source(), old(Reader()));
              && m == FindMarker(Source().buf, p, old(lastRst))
              && match m
                 case Found(q) => State() == Resync(q, restartInterval, (old(lastRst) + 1) % 8)
                 case AtEoi => State() == Resync(p, restartInterval, old(lastRst))
                 case Lost => true
    {
      hide FindMarker, Rewind;
      RewindAndResync();
      m := SeekRst();
      if m.Found? {
        stream := m.pos;
        lastRst := (lastRst + 1) % 8;
      }
    }
  }

  lemma {:induction false} ExactSize(h: Huff, b: seq<bool>)
    requires Kraftful(h.sizes) && |h.vals| == |h.sizes| && b != []
    requires Find(h.sizes, b[..|b| - 1], 0) == None
    ensures Find(h.sizes, b, 0).Some? ==> h.sizes[Find(h.sizes, b, 0).value] == |b|
  {
    hide Find, BitsOf, Code;
    FindSpec(h.sizes, b[..|b| - 1], 0);
    FindSpec(h.sizes, b, 0);
    var f := Find(h.sizes, b, 0);
    if f.Some? && h.sizes[f.value] < |b| { PrefixShorter(Codeword(h.sizes, f.value), b); }
  }

  lemma {:induction false} ValidTable(table: HuffmanTable)
    requires table.Valid()
    ensures Usable(table.h) && Good(table.h)
  {}

  lemma {:induction false} TableRepr(table: HuffmanTable)
    requires table.Valid()
    ensures table.Repr == {table, table.lookup, table.codeSize, table.slow}
  {}

  lemma {:induction false} FillExtends(src: Src, rd: Rd, need: nat)
    requires ValidSrc(src) && Fill(src, rd, need).Some?
    ensures rd.bits <= Fill(src, rd, need).value.bits
    decreases src.end - rd.pos
  {
    if |rd.bits| < need {
      FillExtends(src, Rd(Next(src, rd.pos), rd.bits + BitsOf(src.buf[rd.pos], 8)), need);
    }
  }
}

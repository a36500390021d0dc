/** The second pass over an image: decode it again and write every symbol with its new code, every
    magnitude as it was. */
module SecondPass {
  import opened Bits
  import opened Canonical
  import opened BitReader
  import opened Blocks
  import opened Scans
  import opened Packing
  import opened Transcoding
  import opened Numerals
  import opened HuffmanTables
  import opened Decoders
  import opened BitWriter
  import opened FirstPass
  import opened CodeBooks

  /** The new tables of the four classes. */
  class CodeBook {
    const t: seq<OneHuff>
    ghost const repr: set<object>

    ghost predicate Wired() {
      |t| == 4 && forall c: nat :: c < 4 ==> {t[c], t[c].val, t[c].code} <= repr
    }

    ghost predicate Holds(codes: seq<Huff>)
      reads repr
    {
      && Wired() && UsableCodes(codes)
      && forall c: nat :: c < 4 ==> t[c].Valid() && t[c].h == codes[c]
    }

    constructor (t: seq<OneHuff>)
      requires |t| == 4
      ensures this.t == t && Wired()
      ensures repr == {t[0], t[0].val, t[0].code, t[1], t[1].val, t[1].code,
                       t[2], t[2].val, t[2].code, t[3], t[3].val, t[3].code}
    {
      this.t := t;
      repr := {t[0], t[0].val, t[0].code, t[1], t[1].val, t[1].code,
               t[2], t[2].val, t[2].code, t[3], t[3].val, t[3].code};
    }
  }

  // ----- what is still to be written -----

  /** Writing `toks` behind pk ends up where writing all of `all` behind pk0 does. */
  ghost predicate Writes(codes: seq<Huff>, pk0: Pk, all: seq<Tok>, pk: Pk, toks: seq<Tok>) {
    && UsableCodes(codes) && ValidPk(pk0) && ValidPk(pk) && AllCovered(codes, all) && AllCovered(codes, toks)
    && EmitAll(codes, pk0, all) == EmitAll(codes, pk, toks)
  }

  lemma {:induction false} WritesStart(codes: seq<Huff>, pk: Pk, all: seq<Tok>)
    requires UsableCodes(codes) && ValidPk(pk) && AllCovered(codes, all)
    ensures Writes(codes, pk, all, pk, all)
  {}

  lemma {:induction false} WritesPart(codes: seq<Huff>, pk0: Pk, all: seq<Tok>, pk: Pk, a: seq<Tok>, b: seq<Tok>)
    requires Writes(codes, pk0, all, pk, a + b)
    ensures UsableCodes(codes) && ValidPk(pk) && AllCovered(codes, a) && AllCovered(codes, b)
    ensures Writes(codes, pk0, all, EmitAll(codes, pk, a), b)
  {
    hide EmitAll, UsableCodes;
    CoveredParts(codes, a, b);
    EmitTwice(codes, pk, a, b);
  }

  lemma {:induction false} WritesEnd(codes: seq<Huff>, pk0: Pk, all: seq<Tok>, pk: Pk, toks: seq<Tok>)
    requires Writes(codes, pk0, all, pk, toks)
    ensures UsableCodes(codes) && ValidPk(pk0) && ValidPk(pk) && AllCovered(codes, all) && AllCovered(codes, toks)
    ensures EmitAll(codes, pk0, all) == EmitAll(codes, pk, toks)
    ensures toks == [] ==> pk == EmitAll(codes, pk0, all)
  {
    hide UsableCodes;
  }

  lemma {:induction false} EmitSingle(codes: seq<Huff>, pk: Pk, t: Tok)
    requires UsableCodes(codes) && ValidPk(pk) && Covered(codes, t)
    ensures AllCovered(codes, [t]) && EmitAll(codes, pk, [t]) == EmitOne(codes, pk, t)
  {
    hide EmitOne, UsableCodes;
    assert [t][1..] == [];
  }

  lemma {:induction false} SplitEmit(codes: seq<Huff>, pk: Pk, a: seq<Tok>, b: seq<Tok>)
    requires UsableCodes(codes) && ValidPk(pk) && AllCovered(codes, a + b)
    ensures AllCovered(codes, a) && AllCovered(codes, b)
    ensures EmitAll(codes, pk, a + b) == EmitAll(codes, EmitAll(codes, pk, a), b)
  {
    hide UsableCodes, EmitAll;
    CoveredParts(codes, a, b);
    EmitTwice(codes, pk, a, b);
  }

  lemma {:induction false} EmitNone(codes: seq<Huff>, pk: Pk)
    requires UsableCodes(codes) && ValidPk(pk)
    ensures AllCovered(codes, []) && EmitAll(codes, pk, []) == pk
  {}

  lemma {:induction false} EmitMarker(codes: seq<Huff>, pk: Pk, k: nat)
    requires UsableCodes(codes) && ValidPk(pk) && k < 8
    ensures AllCovered(codes, [Rst(k)]) && EmitAll(codes, pk, [Rst(k)]) == FlushRst(pk, k)
  {
    hide UsableCodes, FlushRst;
    EmitSingle(codes, pk, Rst(k));
  }

  lemma {:induction false} EmitPair(codes: seq<Huff>, pk: Pk, t: Tok, u: Tok)
    requires UsableCodes(codes) && ValidPk(pk) && Covered(codes, t) && Covered(codes, u)
    ensures AllCovered(codes, [t, u])
    ensures EmitAll(codes, pk, [t, u]) == EmitOne(codes, EmitOne(codes, pk, t), u)
  {
    hide EmitOne, UsableCodes;
    assert [t, u][1..] == [u];
    EmitSingle(codes, EmitOne(codes, pk, t), u);
  }

  // ----- the strings -----

  /** Looks a symbol up and writes its new code. */
  method WriteSym(w: Packer, book: CodeBook, c: nat, v: nat, ghost codes: seq<Huff>)
    requires w.Valid() && book.Holds(codes) && w !in book.repr && c < 4 && Covered(codes, Sym(c, v))
    modifies w
    ensures w.Valid() && book.Holds(codes) && w.pk == EmitOne(codes, old(w.pk), Sym(c, v))
  {
    hide Put, BitStr, StrBits, OneHuff.Valid;
    var found, s := book.t[c].FindNewCode(v);
    StrBitsBitStr(CodeOf(codes[c], v));
    TokLen(codes, Sym(c, v));
    w.WriteStream(s);
  }

  /** Writes a value as binary digits: the magnitude bits it was read from. */
  method WriteVal(w: Packer, value: int, ghost raw: seq<bool>, ghost codes: seq<Huff>)
    requires w.Valid() && UsableCodes(codes) && 1 <= |raw| <= 15 && value == Extend(Val(raw), |raw|)
    modifies w
    ensures w.Valid() && w.pk == EmitOne(codes, old(w.pk), Mag(raw))
  {
    hide Put, BitStr, StrBits, UsableCodes, Numeral;
    ExtendRange(raw);
    var s := Tobin(value);
    MagnitudeRoundTrip(raw);
    StrBitsBitStr(raw);
    w.WriteStream(s);
  }

  lemma {:induction false} ExtendRange(raw: seq<bool>)
    requires 1 <= |raw| <= 15
    ensures Abs(Extend(Val(raw), |raw|)) < Pow2(18)
  {
    hide Val, Shl;
    ValBound(raw);
    Pow2Mono(|raw|, 18);
  }

  /** One AC symbol: write its code, then the coefficient it announces. */
  method WriteAcSymbol(d: Jdec, w: Packer, book: CodeBook, table: HuffmanTable, class_: nat, j: nat,
                       dct: array<int>, ghost codes: seq<Huff>)
    returns (ok: bool, more: bool, next: nat)
    requires d.Reading() && w.Valid() && book.Holds(codes) && table.Valid() && class_ < 4 && j < 64
    requires dct.Length == 64 && dct !in table.Repr && {d, w, dct} !! book.repr && w !in table.Repr
    requires AllCovered(codes, AcStep(d.Source(), table.h, class_, d.Reader(), j, dct[..]).toks)
    modifies d`stream, d`reservoir, d`nbits, w, dct
    ensures d.Reading() && w.Valid() && book.Holds(codes) && table.Valid()
    ensures var r := AcStep(d.Source(), table.h, class_, old(d.Reader()), j, old(dct[..]));
            && w.pk == EmitAll(codes, old(w.pk), r.toks)
            && match r
               case Stop(toks, good, rd) => ok == good && !more && (ok ==> d.Reader() == rd) && dct[..] == old(dct[..])
               case Go(toks, rd, j1, dct1) => ok && more && d.Reader() == rd && next == j1 && dct[..] == dct1
  {
    hide ReadCode, ReadBits, Good, Usable, HuffmanTable.Holds, UsableCodes, EmitOne, CodeBook.Holds, Packer.Valid;
    BookCodes(book, codes);
    ValidTable(table);
    next := j;
    var huffCode;
    ok, huffCode := d.NextCode(table);
    if !ok { return false, false, next; }
    ReadCodeByte(d.Source(), table.h, old(d.Reader()));
    ghost var pk, toks := w.pk, AcStep(d.Source(), table.h, class_, old(d.Reader()), j, dct[..]).toks;
    PackerPk(w);
    assert toks[0] == Sym(class_, huffCode);
    EmitSingle(codes, pk, toks[0]);
    WriteSym(w, book, class_, huffCode, codes);
    var sizeVal, count0 := huffCode % 16, huffCode / 16;
    if sizeVal == 0 {
      if count0 == 0 { return true, false, next; }
      if count0 == 15 { next := next + 16; }
      return true, true, next;
    }
    next := next + count0;
    if next >= 64 { return true, false, next; }
    var value;
    ghost var raw;
    ok, value, raw := d.GetValue(sizeVal);
    if !ok { return false, false, next; }
    assert toks == [toks[0], Mag(raw)] && Covered(codes, toks[1]);
    EmitPair(codes, pk, toks[0], Mag(raw));
    WriteVal(w, value, raw, codes);
    dct[next] := value;
    next := next + 1;
    return true, true, next;
  }

  lemma {:induction false} BookCodes(book: CodeBook, codes: seq<Huff>)
    requires book.Holds(codes)
    ensures UsableCodes(codes)
  {}

  lemma {:induction false} PackerPk(w: Packer)
    requires w.Valid()
    ensures ValidPk(w.pk)
  {}

  /** The DC difference: its bits, and the prediction. */
  method WriteDifference(d: Jdec, w: Packer, size: nat, component: nat, ghost codes: seq<Huff>)
    returns (ok: bool, dc: int)
    requires d.Reading() && d.Settled() && w.Valid() && UsableCodes(codes) && 1 <= size <= 15 && component < 3
    modifies d`stream, d`reservoir, d`nbits, d`previousDc, w
    ensures d.Reading() && d.Settled() && w.Valid()
    ensures match ReadBits(d.Source(), old(d.Reader()), size)
            case None => !ok && w.pk == old(w.pk)
            case Some((b, r)) =>
              && ok && w.pk == EmitOne(codes, old(w.pk), Mag(b)) && d.Reader() == r
              && dc == Wrap16(Extend(Val(b), size) + old(d.previousDc)[component])
              && d.previousDc == old(d.previousDc)[component := dc]
  {
    hide ReadBits, Jdec.Reading, Jdec.Reader, Jdec.Source, Packer.Valid, UsableCodes, EmitOne, Extend, Wrap16;
    PackerPk(w);
    ghost var raw;
    ok, dc, raw := d.GetValue(size);
    if !ok { return false, 0; }
    WriteVal(w, dc, raw, codes);
    dc := Wrap16(dc + d.previousDc[component]);
    d.previousDc := d.previousDc[component := dc];
  }

  /** The DC symbol, its bits and the prediction. */
  method WriteDcSymbol(d: Jdec, w: Packer, book: CodeBook, table: HuffmanTable, class_: nat, component: nat,
                       ghost codes: seq<Huff>)
    returns (ok: bool, dc: int)
    requires d.Reading() && d.Settled() && w.Valid() && book.Holds(codes) && table.Valid() && SmallVals(table.h)
    requires class_ < 4 && component < 3 && {d, w} !! book.repr && w !in table.Repr
    requires AllCovered(codes, DcStep(d.Source(), table.h, class_, d.Reader(), d.previousDc[component]).toks)
    modifies d`stream, d`reservoir, d`nbits, d`previousDc, w
    ensures d.Reading() && d.Settled() && w.Valid() && book.Holds(codes) && table.Valid()
    ensures var r := DcStep(d.Source(), table.h, class_, old(d.Reader()), old(d.previousDc)[component]);
            && w.pk == EmitAll(codes, old(w.pk), r.toks) && ok == r.ok
            && (ok ==> d.Reader() == r.rd && dc == r.prev
                       && d.previousDc == old(d.previousDc)[component := r.prev])
  {
    hide ReadCode, ReadBits, Usable, HuffmanTable.Valid, UsableCodes, EmitOne, EmitAll, CodeBook.Holds, Packer.Valid,
         Jdec.Reading, Jdec.Reader, Jdec.Source, Extend, Wrap16;
    BookCodes(book, codes);
    PackerPk(w);
    EmitNone(codes, w.pk);
    ValidTable(table);
    var huffCode;
    ok, huffCode := d.NextCode(table);
    if !ok { return false, 0; }
    ReadCodeSmall(d.Source(), table.h, old(d.Reader()));
    ghost var pk := w.pk;
    ghost var toks := DcStep(d.Source(), table.h, class_, old(d.Reader()), d.previousDc[component]).toks;
    assert toks[0] == Sym(class_, huffCode);
    EmitSingle(codes, pk, toks[0]);
    WriteSym(w, book, class_, huffCode, codes);
    if huffCode != 0 {
      ghost var bits := ReadBits(d.Source(), d.Reader(), huffCode);
      if bits.Some? {
        assert toks == [toks[0], Mag(bits.value.0)] && Covered(codes, toks[1]);
        EmitPair(codes, pk, toks[0], Mag(bits.value.0));
      }
      ok, dc := WriteDifference(d, w, huffCode, component, codes);
    } else {
      dc := d.previousDc[component];
    }
  }

  /** The AC symbols of a block. */
  method WriteAcSymbols(d: Jdec, w: Packer, book: CodeBook, table: HuffmanTable, class_: nat, dct: array<int>,
                        ghost codes: seq<Huff>)
    returns (ok: bool)
    requires d.Reading() && w.Valid() && book.Holds(codes) && table.Valid() && class_ < 4
    requires dct.Length == 64 && dct !in table.Repr && {d, w, dct} !! book.repr && w !in table.Repr
    requires AllCovered(codes, AcRun(d.Source(), table.h, class_, d.Reader(), 1, dct[..]).toks)
    modifies d`stream, d`reservoir, d`nbits, w, dct
    ensures d.Reading() && w.Valid() && book.Holds(codes) && table.Valid()
    ensures var r := AcRun(d.Source(), table.h, class_, old(d.Reader()), 1, old(dct[..]));
            && w.pk == EmitAll(codes, old(w.pk), r.toks) && ok == r.ok
            && (ok ==> d.Reader() == r.rd && dct[..] == r.dct)
  {
    hide AcRun, AcStep, Behind, View, EmitAll, UsableCodes, Writes, AllCovered,
         HuffmanTable.Valid, Packer.Valid, CodeBook.Holds, Jdec.Reading, Jdec.Reader;
    ValidTable(table);
    BookCodes(book, codes);
    PackerPk(w);
    var j := 1;
    ghost var goal, done := AcRun(d.Source(), table.h, class_, d.Reader(), j, dct[..]), [];
    BehindNone(goal);
    WritesStart(codes, w.pk, goal.toks);
    while j < 64
      invariant d.Reading() && w.Valid() && book.Holds(codes) && table.Valid() && Usable(table.h)
      invariant goal == Behind(done, AcRun(d.Source(), table.h, class_, d.Reader(), j, dct[..]))
      invariant Writes(codes, old(w.pk), goal.toks, w.pk,
                       AcRun(d.Source(), table.h, class_, d.Reader(), j, dct[..]).toks)
      decreases |View(d.Source(), d.Reader())|
    {
      AcRunStep(d.Source(), table.h, class_, d.Reader(), j, dct[..]);
      ghost var step := AcStep(d.Source(), table.h, class_, d.Reader(), j, dct[..]);
      ghost var now := AcRun(d.Source(), table.h, class_, d.Reader(), j, dct[..]);
      ghost var pk := w.pk;
      ghost var rest := if step.Go? then AcRun(d.Source(), table.h, class_, step.rd, step.j, step.dct).toks else [];
      BehindFields(done, now);
      if step.Go? { BehindFields(step.toks, AcRun(d.Source(), table.h, class_, step.rd, step.j, step.dct)); }
      assert now.toks == step.toks + rest;
      WritesPart(codes, old(w.pk), goal.toks, pk, step.toks, rest);
      var more;
      ok, more, j := WriteAcSymbol(d, w, book, table, class_, j, dct, codes);
      if !more {
        WritesEnd(codes, old(w.pk), goal.toks, w.pk, rest);
        return ok;
      }
      BehindStep(goal, done, now, step.toks, AcRun(d.Source(), table.h, class_, d.Reader(), j, dct[..]));
      done := done + step.toks;
    }
    AcRunEnd(d.Source(), table.h, class_, d.Reader(), j, dct[..]);
    BehindFields(done, AcRun(d.Source(), table.h, class_, d.Reader(), j, dct[..]));
    WritesEnd(codes, old(w.pk), goal.toks, w.pk, []);
    return true;
  }

  /** Clears the coefficients and writes the first one. */
  method StartBlock(d: Jdec, w: Packer, book: CodeBook, table: HuffmanTable, class_: nat, component: nat,
                    ghost codes: seq<Huff>)
    returns (ok: bool, dct: array<int>)
    requires d.Reading() && d.Settled() && w.Valid() && book.Holds(codes) && table.Valid() && SmallVals(table.h)
    requires class_ < 4 && component < 3 && {d, w} !! book.repr && w !in table.Repr
    requires AllCovered(codes, DcStep(d.Source(), table.h, class_, d.Reader(), d.previousDc[component]).toks)
    modifies d`stream, d`reservoir, d`nbits, d`previousDc, w
    ensures d.Reading() && d.Settled() && w.Valid() && book.Holds(codes) && table.Valid()
    ensures fresh(dct) && dct.Length == 64
    ensures var r := DcStep(d.Source(), table.h, class_, old(d.Reader()), old(d.previousDc)[component]);
            && w.pk == EmitAll(codes, old(w.pk), r.toks) && ok == r.ok
            && (ok ==> d.Reader() == r.rd && dct[..] == ZeroBlock(r.prev)
                       && d.previousDc == old(d.previousDc)[component := r.prev])
  {
    hide DcStep, Usable, HuffmanTable.Valid, EmitAll, UsableCodes, AllCovered, Packer.Valid, CodeBook.Holds,
         Jdec.Reading, Jdec.Reader, Jdec.Source, CodeBook.Wired, ValidPk, ValidSrc;
    BookCodes(book, codes);
    PackerPk(w);
    ValidTable(table);
    var dc;
    dct := new int[64](i => 0);
    ok, dc := WriteDcSymbol(d, w, book, table, class_, component, codes);
    dct[0] := dc;
  }

  /** Writes one block with the given tables. */
  method WriteBlock(d: Jdec, w: Packer, book: CodeBook, dcTable: HuffmanTable, acTable: HuffmanTable,
                    component: nat, ghost codes: seq<Huff>)
    returns (ok: bool)
    requires d.Reading() && d.Settled() && w.Valid() && book.Holds(codes) && component < 3
    requires dcTable.Valid() && acTable.Valid() && SmallVals(dcTable.h)
    requires {d, w} !! book.repr && w !in dcTable.Repr && w !in acTable.Repr
    requires AllCovered(codes,
                        Unit(d.Source(), dcTable.h, acTable.h, component, d.Reader(), d.previousDc[component]).toks)
    modifies d`stream, d`reservoir, d`nbits, d`previousDc, d`dct, d`blocks, w
    ensures d.Reading() && d.Settled() && w.Valid() && book.Holds(codes)
    ensures var r := Unit(d.Source(), old(dcTable.h), old(acTable.h), component,
                          old(d.Reader()), old(d.previousDc)[component]);
            && w.pk == EmitAll(codes, old(w.pk), r.toks) && ok == r.ok
            && (ok ==> d.Reader() == r.rd && d.previousDc == old(d.previousDc)[component := r.prev]
                       && d.dct == old(d.dct)[component := r.dct])
            && d.blocks == old(d.blocks) + (if ok then [r.dct] else [])
  {
    hide Unit, AcRun, DcStep, Usable, HuffmanTable.Valid, EmitAll, UsableCodes, AllCovered, Packer.Valid,
         CodeBook.Holds, Jdec.Reading, Jdec.Reader, DcTable, AcTable, Jdec.Source, CodeBook.Wired, ValidPk, ValidSrc;
    TableNumbers(component);
    ValidTable(dcTable);
    ValidTable(acTable);
    UnitParts(d.Source(), dcTable.h, acTable.h, component, d.Reader(), d.previousDc[component]);
    BookCodes(book, codes);
    PackerPk(w);
    var dct;
    ghost var step := DcStep(d.Source(), dcTable.h, DcTable(component), d.Reader(), d.previousDc[component]);
    if step.ok {
      SplitEmit(codes, w.pk, step.toks,
                AcRun(d.Source(), acTable.h, AcTable(component), step.rd, 1, ZeroBlock(step.prev)).toks);
    }
    ok, dct := StartBlock(d, w, book, dcTable, DcTable(component), component, codes);
    if !ok { return false; }
    ok := WriteAcSymbols(d, w, book, acTable, AcTable(component), dct, codes);
    if ok {
      d.dct := d.dct[component := dct[..]];
      d.blocks := d.blocks + [dct[..]];
    }
  }

  /** Writes one block of a component. */
  method WriteUnit(d: Jdec, w: Packer, book: CodeBook, component: nat, ghost mcu: seq<nat>, ghost codes: seq<Huff>)
    returns (ok: bool)
    requires d.Ready() && w.Valid() && book.Holds(codes) && component < 3
    requires {d, w} !! book.repr && w !in d.tableRepr
    requires forall i :: 0 <= i < |mcu| ==> mcu[i] < 3
    requires AllCovered(codes, UnitIn(d.Source(), d.Tables(mcu), component, d.State()).toks)
    modifies d`stream, d`reservoir, d`nbits, d`previousDc, d`dct, d`blocks, w
    ensures d.Ready() && w.Valid() && book.Holds(codes) && d.Tables(mcu) == old(d.Tables(mcu))
    ensures var r := UnitIn(d.Source(), d.Tables(mcu), component, old(d.State()));
            && w.pk == EmitAll(codes, old(w.pk), r.toks) && ok == r.ok
            && (ok ==> d.State() == UnitSt(old(d.State()), component, r)
                       && d.dct == old(d.dct)[component := r.dct])
            && d.blocks == old(d.blocks) + (if ok then [r.dct] else [])
  {
    hide Unit, Usable, HuffmanTable.Valid, Jdec.TablesReady, Jdec.DcH, Jdec.AcH, EmitAll, UsableCodes, AllCovered,
         Packer.Valid, CodeBook.Holds;
    BookCodes(book, codes);
    PackerPk(w);
    d.ComponentTables(component);
    ok := WriteBlock(d, w, book, d.DcT(component), d.AcT(component), component, codes);
  }

  /** Writes the blocks of one MCU. */
  method WriteMcu(d: Jdec, w: Packer, book: CodeBook, mcu: seq<nat>, ghost codes: seq<Huff>) returns (ok: bool)
    requires d.Ready() && w.Valid() && book.Holds(codes) && {d, w} !! book.repr && w !in d.tableRepr
    requires forall i :: 0 <= i < |mcu| ==> mcu[i] < 3
    requires AllCovered(codes, Units(d.Source(), d.Tables(mcu), mcu, d.State()).toks)
    modifies d`stream, d`reservoir, d`nbits, d`previousDc, d`dct, d`blocks, w
    ensures d.Ready() && w.Valid() && book.Holds(codes) && d.Tables(mcu) == old(d.Tables(mcu))
    ensures var r := Units(d.Source(), d.Tables(mcu), mcu, old(d.State()));
            && w.pk == EmitAll(codes, old(w.pk), r.toks) && ok == r.ok
            && d.blocks == old(d.blocks) + r.blocks && (ok ==> d.State() == r.st)
  {
    hide UnitIn, UnitSt, Units, SameRun, Progress, Writes, EmitAll, AllCovered, UsableCodes, Packer.Valid,
         CodeBook.Holds, Jdec.TablesReady, Jdec.Reading, Jdec.Bound, Jdec.Wired, Jdec.Settled, Jdec.State,
         Jdec.Source, Jdec.Tables, ValidSrc, ValidEnv, ValidSt;
    d.ComponentTables(0);
    BookCodes(book, codes);
    PackerPk(w);
    ghost var env := d.Tables(mcu);
    ghost var goal, done := Units(d.Source(), env, mcu, d.State()), [];
    ProgressStart(goal, [], d.blocks);
    WritesStart(codes, w.pk, goal.toks);
    assert mcu[0..] == mcu;
    for i := 0 to |mcu|
      invariant d.Ready() && w.Valid() && book.Holds(codes) && d.Tables(mcu) == env
      invariant Progress(goal, [], old(d.blocks), done, d.blocks, Units(d.Source(), env, mcu[i..], d.State()))
      invariant Writes(codes, old(w.pk), goal.toks, w.pk, Units(d.Source(), env, mcu[i..], d.State()).toks)
    {
      ghost var now := Units(d.Source(), env, mcu[i..], d.State());
      ghost var u := UnitIn(d.Source(), env, mcu[i], d.State());
      ghost var next := if u.ok then Units(d.Source(), env, mcu[i + 1..], UnitSt(d.State(), mcu[i], u)) else Ended(now);
      ghost var blocks, pk := d.blocks, w.pk;
      UnitsStep(d.Source(), env, mcu[i..], d.State());
      assert mcu[i..][1..] == mcu[i + 1..];
      ProgressEnd(goal, [], old(d.blocks), done, blocks, now);
      if u.ok { SameRunEnd(now, u.toks, [u.dct], next); }
      assert now.toks == u.toks + next.toks;
      WritesPart(codes, old(w.pk), goal.toks, pk, u.toks, next.toks);
      ok := WriteUnit(d, w, book, mcu[i], mcu, codes);
      if !ok {
        WritesEnd(codes, old(w.pk), goal.toks, w.pk, next.toks);
        return false;
      }
      ProgressStep(goal, [], old(d.blocks), done, blocks, now, u.toks, [u.dct], next);
      done := done + u.toks;
    }
    UnitsEmpty(d.Source(), env, mcu[|mcu|..], d.State());
    ProgressEnd(goal, [], old(d.blocks), done, d.blocks, Units(d.Source(), env, mcu[|mcu|..], d.State()));
    WritesEnd(codes, old(w.pk), goal.toks, w.pk, Units(d.Source(), env, mcu[|mcu|..], d.State()).toks);
    return true;
  }

  /** A run with nothing left. */
  ghost function Ended(r: ScanOut): ScanOut { r.(toks := []) }

  /** Behind an MCU: counts the restart interval down, passes the restart marker and writes it. */
  method WriteBoundary(d: Jdec, w: Packer, ghost codes: seq<Huff>) returns (ok: bool)
    requires d.Ready() && w.Valid() && UsableCodes(codes) && w !in d.tableRepr
    requires AllCovered(codes, Boundary(d.Source(), d.restartInterval, d.State()).toks)
    modifies d`stream, d`reservoir, d`nbits, d`previousDc, d`restartsToGo, d`lastRst, w
    ensures d.Ready() && w.Valid()
    ensures var b := Boundary(d.Source(), d.restartInterval, old(d.State()));
            && w.pk == EmitAll(codes, old(w.pk), b.toks) && ok == b.ok && (ok ==> d.State() == b.st)
  {
    hide Jdec.TablesReady, FindMarker, Rewind, Packer.Valid, UsableCodes, FlushRst, EmitAll, AllCovered,
         Jdec.Reading, Jdec.Source, Jdec.Reader;
    d.ComponentTables(0);
    PackerPk(w);
    EmitNone(codes, w.pk);
    if d.restartsToGo > 0 {
      d.restartsToGo := d.restartsToGo - 1;
      if d.restartsToGo == 0 {
        var k := d.lastRst;
        var m := d.PassMarker();
        match m {
          case Found(_) =>
            EmitMarker(codes, w.pk, k);
            w.FlushRestart(k);
          case AtEoi =>
          case Lost => return false;
        }
      }
    }
    return true;
  }

  /** One MCU with its boundary. */
  method WriteNext(d: Jdec, w: Packer, book: CodeBook, mcu: seq<nat>, ghost codes: seq<Huff>) returns (ok: bool)
    requires d.Ready() && w.Valid() && book.Holds(codes) && {d, w} !! book.repr && w !in d.tableRepr
    requires forall i :: 0 <= i < |mcu| ==> mcu[i] < 3
    requires AllCovered(codes, Mcu(d.Source(), d.Tables(mcu), d.State()).toks)
    modifies d`stream, d`reservoir, d`nbits, d`previousDc, d`dct, d`blocks, d`restartsToGo, d`lastRst, w
    ensures d.Ready() && w.Valid() && book.Holds(codes) && d.Tables(mcu) == old(d.Tables(mcu))
    ensures var r := Mcu(d.Source(), d.Tables(mcu), old(d.State()));
            && w.pk == EmitAll(codes, old(w.pk), r.toks) && ok == r.ok
            && d.blocks == old(d.blocks) + r.blocks && (ok ==> d.State() == r.st)
  {
    hide Units, Boundary, Usable, UsableCodes, EmitAll, AllCovered, Packer.Valid, CodeBook.Holds,
         Jdec.TablesReady, BitsOf, Pow2, Jdec.DcH, Jdec.AcH;
    d.ComponentTables(0);
    BookCodes(book, codes);
    PackerPk(w);
    ghost var u := Units(d.Source(), d.Tables(mcu), mcu, d.State());
    ghost var b := Boundary(d.Source(), d.restartInterval, u.st).toks;
    if u.ok {
      SplitEmit(codes, w.pk, u.toks, b);
    }
    ok := WriteMcu(d, w, book, mcu, codes);
    if !ok { return false; }
    ok := WriteBoundary(d, w, codes);
  }

  /** One row of MCUs. */
  method WriteRow(d: Jdec, w: Packer, book: CodeBook, l: Layout, limit: nat, ghost codes: seq<Huff>) returns (ok: bool)
    requires d.Ready() && w.Valid() && book.Holds(codes) && {d, w} !! book.repr && w !in d.tableRepr
    requires l.xstride > 0 && forall i :: 0 <= i < |l.mcu| ==> l.mcu[i] < 3
    requires AllCovered(codes, Scan(d.Source(), d.Tables(l.mcu), CeilDiv(limit, l.xstride), d.State()).toks)
    modifies d`stream, d`reservoir, d`nbits, d`previousDc, d`dct, d`blocks, d`restartsToGo, d`lastRst, w
    ensures d.Ready() && w.Valid() && book.Holds(codes) && d.Tables(l.mcu) == old(d.Tables(l.mcu))
    ensures var r := Scan(d.Source(), d.Tables(l.mcu), CeilDiv(limit, l.xstride), old(d.State()));
            && w.pk == EmitAll(codes, old(w.pk), r.toks) && ok == r.ok
            && d.blocks == old(d.blocks) + r.blocks && (ok ==> d.State() == r.st)
  {
    hide Mcu, Scan, SameRun, Progress, Writes, EmitAll, AllCovered, UsableCodes, Packer.Valid, CodeBook.Holds,
         CeilDiv, Steps, Jdec.TablesReady, Jdec.Reading, Jdec.Settled, Jdec.Bound, Jdec.Wired, Jdec.State,
         Jdec.Source, Jdec.Tables, ValidSrc, ValidEnv, ValidSt;
    d.ComponentTables(0);
    BookCodes(book, codes);
    PackerPk(w);
    ghost var env, left := d.Tables(l.mcu), CeilDiv(limit, l.xstride);
    ghost var goal, done := Scan(d.Source(), env, left, d.State()), [];
    ProgressStart(goal, [], d.blocks);
    WritesStart(codes, w.pk, goal.toks);
    var x := 0;
    StepsFrom(limit, l.xstride);
    while x < limit
      invariant left == Steps(limit, x, l.xstride)
      invariant d.Ready() && w.Valid() && book.Holds(codes) && d.Tables(l.mcu) == env
      invariant Progress(goal, [], old(d.blocks), done, d.blocks, Scan(d.Source(), env, left, d.State()))
      invariant Writes(codes, old(w.pk), goal.toks, w.pk, Scan(d.Source(), env, left, d.State()).toks)
      decreases limit - x
    {
      StepsNext(limit, x, l.xstride);
      ghost var m, now := Mcu(d.Source(), env, d.State()), Scan(d.Source(), env, left, d.State());
      ghost var next := if m.ok then Scan(d.Source(), env, left - 1, m.st) else Ended(now);
      ghost var blocks, pk := d.blocks, w.pk;
      ScanStep(d.Source(), env, left, d.State());
      ProgressEnd(goal, [], old(d.blocks), done, blocks, now);
      if m.ok { SameRunEnd(now, m.toks, m.blocks, next); }
      assert now.toks == m.toks + next.toks;
      WritesPart(codes, old(w.pk), goal.toks, pk, m.toks, next.toks);
      ok := WriteNext(d, w, book, l.mcu, codes);
      if !ok {
        WritesEnd(codes, old(w.pk), goal.toks, w.pk, next.toks);
        return false;
      }
      ProgressStep(goal, [], old(d.blocks), done, blocks, now, m.toks, m.blocks, next);
      done := done + m.toks;
      x := x + l.xstride;
      left := left - 1;
    }
    StepsDone(limit, x, l.xstride);
    ScanEmpty(d.Source(), env, d.State());
    ProgressEnd(goal, [], old(d.blocks), done, d.blocks, Scan(d.Source(), env, 0, d.State()));
    WritesEnd(codes, old(w.pk), goal.toks, w.pk, Scan(d.Source(), env, 0, d.State()).toks);
    return true;
  }

  /** The rows of MCUs. */
  method WriteRows(d: Jdec, w: Packer, book: CodeBook, l: Layout, ghost codes: seq<Huff>) returns (ok: bool)
    requires d.Ready() && w.Valid() && book.Holds(codes) && {d, w} !! book.repr && w !in d.tableRepr
    requires l.xstride > 0 && l.ystride > 0 && forall i :: 0 <= i < |l.mcu| ==> l.mcu[i] < 3
    requires AllCovered(codes, Scan(d.Source(), d.Tables(l.mcu),
                                    Times(CeilDiv(d.height, l.ystride), CeilDiv(d.width, l.xstride)), d.State()).toks)
    modifies d`stream, d`reservoir, d`nbits, d`previousDc, d`dct, d`blocks, d`restartsToGo, d`lastRst, w
    ensures w.Valid() && book.Holds(codes)
    ensures var n := Times(CeilDiv(d.height, l.ystride), CeilDiv(d.width, l.xstride));
            var r := Scan(d.Source(), old(d.Tables(l.mcu)), n, old(d.State()));
            w.pk == EmitAll(codes, old(w.pk), r.toks) && ok == r.ok && d.blocks == old(d.blocks) + r.blocks
  {
    hide Mcu, Scan, SameRun, Progress, Writes, EmitAll, AllCovered, UsableCodes, Packer.Valid, CodeBook.Holds,
         CeilDiv, Jdec.TablesReady, Jdec.Reading, Jdec.Settled, Jdec.Bound, Jdec.Wired, Jdec.State,
         Jdec.Source, Jdec.Tables, ValidSrc, ValidEnv, ValidSt;
    d.ComponentTables(0);
    BookCodes(book, codes);
    PackerPk(w);
    var rows := CeilDiv(d.height, l.ystride);
    ghost var cols := CeilDiv(d.width, l.xstride);
    ghost var env := d.Tables(l.mcu);
    ghost var left := Times(rows, cols);
    ghost var goal, done := Scan(d.Source(), env, left, d.State()), [];
    ProgressStart(goal, [], d.blocks);
    WritesStart(codes, w.pk, goal.toks);
    var y := 0;
    while y < rows
      invariant y <= rows && left == Times(rows - y, cols)
      invariant d.Ready() && w.Valid() && book.Holds(codes) && d.Tables(l.mcu) == env
      invariant Progress(goal, [], old(d.blocks), done, d.blocks, Scan(d.Source(), env, left, d.State()))
      invariant Writes(codes, old(w.pk), goal.toks, w.pk, Scan(d.Source(), env, left, d.State()).toks)
    {
      ghost var n, blocks, pk := left - cols, d.blocks, w.pk;
      ghost var m, now := Scan(d.Source(), env, cols, d.State()), Scan(d.Source(), env, left, d.State());
      ghost var next := if m.ok then Scan(d.Source(), env, n, m.st) else Ended(now);
      SplitRun(d.Source(), env, cols, n, d.State());
      ProgressEnd(goal, [], old(d.blocks), done, blocks, now);
      if m.ok { SameRunEnd(now, m.toks, m.blocks, next); }
      assert now.toks == m.toks + next.toks;
      WritesPart(codes, old(w.pk), goal.toks, pk, m.toks, next.toks);
      ok := WriteRow(d, w, book, l, d.width, codes);
      if !ok {
        WritesEnd(codes, old(w.pk), goal.toks, w.pk, next.toks);
        return false;
      }
      ProgressStep(goal, [], old(d.blocks), done, blocks, now, m.toks, m.blocks, next);
      done := done + m.toks;
      left := n;
      y := y + 1;
    }
    ScanEmpty(d.Source(), env, d.State());
    ProgressEnd(goal, [], old(d.blocks), done, d.blocks, Scan(d.Source(), env, 0, d.State()));
    WritesEnd(codes, old(w.pk), goal.toks, w.pk, Scan(d.Source(), env, 0, d.State()).toks);
    return true;
  }

  /** The scan header written for images without subsampling: component 0 with tables 0, the
      others with tables 1. */
  const SCAN_HEADER: seq<byte> :=
    [0xff, 0xda, 0x00, 0x0c, 0x03, 0x00, 0x00, 0x01, 0x11, 0x02, 0x11, 0x00, 0x3f, 0x00]

  method WriteScanHeader(w: Packer)
    requires w.Idle()
    modifies w
    ensures w.Idle() && w.out == old(w.out) + SCAN_HEADER
  {
    hide Packer.Idle;
    for i := 0 to |SCAN_HEADER|
      invariant w.Idle() && w.out == old(w.out) + SCAN_HEADER[..i]
    {
      w.Raw(SCAN_HEADER[i]);
    }
  }

  lemma {:induction false} IdlePacker(w: Packer)
    requires w.Idle()
    ensures w.Valid() && w.pk == Pk(w.out, [], [])
  {}

  lemma {:induction false} SecondTimes(width: nat, height: nat, l: Layout)
    requires l.xstride > 0 && l.ystride > 0
    ensures Times(CeilDiv(height, l.ystride), CeilDiv(width, l.xstride)) == SecondCount(width, height, l)
  {
    TimesIs(CeilDiv(height, l.ystride), CeilDiv(width, l.xstride));
  }

  /** What the second pass decodes. */
  ghost function SecondAhead(d: Jdec): ScanOut
    requires d.Ready()
    reads d, d.tableRepr
  {
    Ahead(d, SecondCount(d.width, d.height, LayoutNow(d)))
  }

  /** Decodes the image again and writes it with the new codes. */
  method WriteScan(d: Jdec, w: Packer, book: CodeBook, ghost codes: seq<Huff>) returns (ok: bool)
    requires d.Ready() && w.Valid() && book.Holds(codes) && {d, w} !! book.repr && w !in d.tableRepr
    requires AllCovered(codes, SecondAhead(d).toks)
    modifies d`stream, d`reservoir, d`nbits, d`previousDc, d`dct, d`blocks, d`restartsToGo, d`lastRst, w
    ensures w.Valid() && book.Holds(codes) && UsableCodes(codes) && ValidPk(old(w.pk))
    ensures var r := old(SecondAhead(d));
            w.pk == EmitAll(codes, old(w.pk), r.toks) && ok == r.ok && d.blocks == old(d.blocks) + r.blocks
  {
    hide Scan, UsableCodes, EmitAll, AllCovered, CodeBook.Holds, Jdec.TablesReady, Jdec.Tables, Jdec.Source,
         Jdec.Reading, Jdec.State, Resync, Packer.Valid, LayoutOf, CeilDiv, SecondCount, Times;
    d.ComponentTables(0);
    BookCodes(book, codes);
    PackerPk(w);
    var l := LayoutOf(d.hfactor[0], d.vfactor[0]);
    SecondTimes(d.width, d.height, l);
    d.ResyncHere();
    ok := WriteRows(d, w, book, l, codes);
  }

  /** Writes the scan header, decodes the image again and writes it with the new codes, up to the
      end-of-image marker, also when the data runs out early. */
  method WriteBody(d: Jdec, w: Packer, book: CodeBook, ghost codes: seq<Huff>) returns (ok: bool)
    requires d.Ready() && w.Idle() && book.Holds(codes) && {d, w} !! book.repr && w !in d.tableRepr
    requires AllCovered(codes, SecondAhead(d).toks)
    modifies d`stream, d`reservoir, d`nbits, d`previousDc, d`dct, d`blocks, d`restartsToGo, d`lastRst, w
    ensures w.Idle() && book.Holds(codes) && UsableCodes(codes)
    ensures var r := old(SecondAhead(d));
            && w.out == File(codes, Pk(old(w.out) + SCAN_HEADER, [], []), r.toks) && ok == r.ok
            && d.blocks == old(d.blocks) + r.blocks
  {
    hide SecondAhead, UsableCodes, EmitAll, AllCovered, CodeBook.Holds, FlushEnd, Jdec.Ready, Packer.Valid, Packer.Idle;
    BookCodes(book, codes);
    ReadyApart(d);
    WriteScanHeader(w);
    IdlePacker(w);
    ok := WriteScan(d, w, book, codes);
    w.Finish();
  }

  lemma {:induction false} ReadyApart(d: Jdec)
    requires d.Ready()
    ensures d !in d.tableRepr
  {
    hide HuffmanTable.Valid;
    d.ComponentTables(0);
  }
}

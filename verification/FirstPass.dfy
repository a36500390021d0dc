/** The first pass over an image: decode it and count the symbols of the four table classes. */
module FirstPass {
  import opened Bits
  import opened Canonical
  import opened BitReader
  import opened Blocks
  import opened Scans
  import opened HuffmanTables
  import opened Decoders

  /** How often a symbol occurs. */
  function Count(toks: seq<Tok>, table: nat, val: nat): nat {
    if toks == [] then 0
    else Count(toks[..|toks| - 1], table, val) + (if toks[|toks| - 1] == Sym(table, val) then 1 else 0)
  }

  lemma {:induction false} CountSnoc(toks: seq<Tok>, t: Tok, table: nat, val: nat)
    ensures Count(toks + [t], table, val) == Count(toks, table, val) + (if t == Sym(table, val) then 1 else 0)
  {
    assert (toks + [t])[..|toks|] == toks;
  }

  lemma {:induction false} CountConcat(a: seq<Tok>, b: seq<Tok>, table: nat, val: nat)
    ensures Count(a + b, table, val) == Count(a, table, val) + Count(b, table, val)
  {
    if b == [] {
      assert a + b == a;
    } else {
      var n := |b| - 1;
      assert (a + b)[..|a + b| - 1] == a + b[..n];
      CountConcat(a, b[..n], table, val);
    }
  }

  /** The counters of the four tables. */
  class HuffVal {
    const n: array2<int>
    ghost var seen: seq<Tok>   // everything counted

    constructor ()
      ensures Valid() && seen == [] && fresh(n)
    {
      n := new int[4, 256]((i, j) => 0);
      seen := [];
    }

    ghost predicate Valid()
      reads this, n
    {
      && n.Length0 == 4 && n.Length1 == 256
      && forall c: nat, v: nat :: c < 4 && v < 256 ==> n[c, v] == Count(seen, c, v)
    }

    method Add(table: nat, val: nat)
      requires Valid() && table < 4 && val < 256
      modifies this, n
      ensures Valid() && seen == old(seen) + [Sym(table, val)]
    {
      n[table, val] := n[table, val] + 1;
      forall c: nat, v: nat | c < 4 && v < 256
        ensures Count(seen + [Sym(table, val)], c, v) == Count(seen, c, v) + if c == table && v == val then 1 else 0
      {
        CountSnoc(seen, Sym(table, val), c, v);
      }
      seen := seen + [Sym(table, val)];
    }

    /** Magnitude bits and restart markers are not counted. */
    ghost method Pass(t: Tok)
      requires Valid() && !t.Sym?
      modifies this`seen
      ensures Valid() && seen == old(seen) + [t]
    {
      forall c: nat, v: nat | c < 4 && v < 256
        ensures Count(seen + [t], c, v) == Count(seen, c, v)
      {
        CountSnoc(seen, t, c, v);
      }
      seen := seen + [t];
    }
  }

  /** One AC symbol: count it, and store the coefficient it announces. */
  method AcSymbol(d: Jdec, hv: HuffVal, table: HuffmanTable, class_: nat, j: nat, dct: array<int>)
    returns (ok: bool, more: bool, next: nat)
    requires d.Reading() && hv.Valid() && table.Valid() && class_ < 4 && j < 64 && dct.Length == 64
    requires hv.n as object !in table.Repr && dct !in table.Repr
    modifies d`stream, d`reservoir, d`nbits, hv, hv.n, dct
    ensures d.Reading() && hv.Valid() && table.Valid()
    ensures match AcStep(d.Source(), table.h, class_, old(d.Reader()), j, old(dct[..]))
            case Stop(toks, good, rd) =>
              ok == good && !more && hv.seen == old(hv.seen) + toks && (ok ==> d.Reader() == rd)
              && dct[..] == old(dct[..])
            case Go(toks, rd, j1, dct1) =>
              ok && more && hv.seen == old(hv.seen) + toks && d.Reader() == rd
              && next == j1 && dct[..] == dct1
  {
    hide ReadCode, ReadBits, Good, Usable, HuffmanTable.Holds;
    ValidTable(table);
    next := j;
    var huffCode;
    ok, huffCode := d.NextCode(table);
    if !ok { return false, false, next; }
    ReadCodeByte(d.Source(), table.h, old(d.Reader()));
    hv.Add(class_, huffCode);
    var sizeVal, count0 := huffCode % 16, huffCode / 16;
    if sizeVal == 0 {
      if count0 == 0 { return true, false, next; }
      if count0 == 15 { next := next + 16; }
      return true, true, next;
    }
    next := next + count0;
    if next >= 64 { return true, false, next; }
    var value;
    ghost var raw;
    ok, value, raw := d.GetValue(sizeVal);
    if !ok { return false, false, next; }
    hv.Pass(Mag(raw));
    dct[next] := value;
    next := next + 1;
    return true, true, next;
  }

  lemma {:induction false} ReadCodeByte(src: Src, h: Huff, rd: Rd)
    requires ValidSrc(src) && Usable(h)
    ensures var r := ReadCode(src, h, rd, 9); r.Got? ==> r.sym < 256
  {}

  /** The DC difference, and the prediction. */
  method DcDifference(d: Jdec, hv: HuffVal, size: nat, component: nat) returns (ok: bool, dc: int)
    requires d.Reading() && d.Settled() && hv.Valid() && 1 <= size <= 15 && component < 3
    modifies d`stream, d`reservoir, d`nbits, d`previousDc, hv`seen
    ensures d.Reading() && d.Settled() && hv.Valid()
    ensures match ReadBits(d.Source(), old(d.Reader()), size)
            case None => !ok && hv.seen == old(hv.seen)
            case Some((b, r)) =>
              && ok && hv.seen == old(hv.seen) + [Mag(b)] && d.Reader() == r
              && dc == Wrap16(Extend(Val(b), size) + old(d.previousDc)[component])
              && d.previousDc == old(d.previousDc)[component := dc]
  {
    hide ReadBits, Jdec.Reading, Jdec.Reader, Jdec.Source, HuffVal.Valid, Extend, Wrap16;
    ghost var raw;
    ok, dc, raw := d.GetValue(size);
    if !ok { return false, 0; }
    hv.Pass(Mag(raw));
    dc := Wrap16(dc + d.previousDc[component]);
    d.previousDc := d.previousDc[component := dc];
  }

  /** The DC symbol and the prediction. */
  method DcSymbol(d: Jdec, hv: HuffVal, table: HuffmanTable, class_: nat, component: nat)
    returns (ok: bool, dc: int)
    requires d.Reading() && d.Settled() && hv.Valid() && table.Valid() && SmallVals(table.h)
    requires class_ < 4 && component < 3 && hv.n as object !in table.Repr
    modifies d`stream, d`reservoir, d`nbits, d`previousDc, hv, hv.n
    ensures d.Reading() && d.Settled() && hv.Valid() && table.Valid()
    ensures var r := DcStep(d.Source(), table.h, class_, old(d.Reader()), old(d.previousDc)[component]);
            && ok == r.ok && hv.seen == old(hv.seen) + r.toks
            && (ok ==> d.Reader() == r.rd && dc == r.prev
                       && d.previousDc == old(d.previousDc)[component := r.prev])
  {
    hide ReadCode, ReadBits, Usable, HuffmanTable.Valid, HuffVal.Valid, Jdec.Reading, Jdec.Reader, Jdec.Source,
         Extend, Wrap16;
    ValidTable(table);
    TableRepr(table);
    var huffCode;
    ok, huffCode := d.NextCode(table);
    if !ok { return false, 0; }
    ReadCodeSmall(d.Source(), table.h, old(d.Reader()));
    hv.Add(class_, huffCode);
    if huffCode != 0 {
      ok, dc := DcDifference(d, hv, huffCode, component);
    } else {
      dc := d.previousDc[component];
    }
  }

  lemma {:induction false} ReadCodeSmall(src: Src, h: Huff, rd: Rd)
    requires ValidSrc(src) && Usable(h) && SmallVals(h)
    ensures var r := ReadCode(src, h, rd, 9); r.Got? ==> r.sym <= 15
  {
    ReadCodeFrom(src, h, rd, 9);
  }

  /** A symbol read is one of the table's values, or 0. */
  lemma {:induction false} ReadCodeFrom(src: Src, h: Huff, rd: Rd, n: nat)
    requires ValidSrc(src) && Usable(h) && 9 <= n <= 16
    ensures var r := ReadCode(src, h, rd, n); r.Got? ==> r.sym == 0 || r.sym in h.vals
    decreases 16 - n
  {
    hide Find, Fill;
    var f := Fill(src, rd, n);
    if f.Some? && n < 16 { ReadCodeFrom(src, h, f.value, n + 1); }
  }

  /** The AC symbols of a block, until an end of block, an overflow or coefficient 64. */
  method AcSymbols(d: Jdec, hv: HuffVal, table: HuffmanTable, class_: nat, dct: array<int>) returns (ok: bool)
    requires d.Reading() && hv.Valid() && table.Valid() && class_ < 4 && dct.Length == 64
    requires hv.n as object !in table.Repr && dct !in table.Repr
    modifies d`stream, d`reservoir, d`nbits, hv, hv.n, dct
    ensures d.Reading() && hv.Valid() && table.Valid()
    ensures var r := AcRun(d.Source(), table.h, class_, old(d.Reader()), 1, old(dct[..]));
            && ok == r.ok && hv.seen == old(hv.seen) + r.toks
            && (ok ==> d.Reader() == r.rd && dct[..] == r.dct)
  {
    hide AcRun, AcStep, Behind, View, Usable, ValidSrc, HuffmanTable.Valid, HuffVal.Valid, Jdec.Reading, Jdec.Reader,
         Jdec.Source;
    ValidTable(table);
    var j := 1;
    ghost var goal, done := AcRun(d.Source(), table.h, class_, d.Reader(), j, dct[..]), [];
    BehindNone(goal);
    while j < 64
      invariant d.Reading() && hv.Valid() && table.Valid() && Usable(table.h)
      invariant hv.seen == old(hv.seen) + done
      invariant goal == Behind(done, AcRun(d.Source(), table.h, class_, d.Reader(), j, dct[..]))
      decreases |View(d.Source(), d.Reader())|
    {
      AcRunStep(d.Source(), table.h, class_, d.Reader(), j, dct[..]);
      ghost var step := AcStep(d.Source(), table.h, class_, d.Reader(), j, dct[..]);
      ghost var now := AcRun(d.Source(), table.h, class_, d.Reader(), j, dct[..]);
      BehindFields(done, now);
      var more;
      ok, more, j := AcSymbol(d, hv, table, class_, j, dct);
      if !more { return ok; }
      BehindStep(goal, done, now, step.toks, AcRun(d.Source(), table.h, class_, d.Reader(), j, dct[..]));
      done := done + step.toks;
    }
    AcRunEnd(d.Source(), table.h, class_, d.Reader(), j, dct[..]);
    BehindFields(done, AcRun(d.Source(), table.h, class_, d.Reader(), j, dct[..]));
    return true;
  }

  /** A run with symbols before it. */
  function Behind(toks: seq<Tok>, r: AcOut): AcOut {
    r.(toks := toks + r.toks)
  }

  lemma {:induction false} BehindNone(r: AcOut)
    ensures r == Behind([], r)
  {}

  lemma {:induction false} BehindFields(toks: seq<Tok>, r: AcOut)
    ensures Behind(toks, r) == AcOut(toks + r.toks, r.ok, r.rd, r.dct)
  {}

  lemma {:induction false} BehindStep(goal: AcOut, a: seq<Tok>, r: AcOut, b: seq<Tok>, q: AcOut)
    requires goal == Behind(a, r) && r == Behind(b, q)
    ensures goal == Behind(a + b, q)
  {
    assert a + (b + q.toks) == (a + b) + q.toks;
  }

  lemma {:induction false} AcRunStep(src: Src, h: Huff, table: nat, rd: Rd, j: nat, dct: seq<int>)
    requires ValidSrc(src) && Usable(h) && |dct| == 64 && j < 64
    ensures var r := AcRun(src, h, table, rd, j, dct);
            match AcStep(src, h, table, rd, j, dct)
            case Stop(toks, ok, rd1) => r == AcOut(toks, ok, rd1, dct)
            case Go(toks, rd1, j1, dct1) =>
              r == Behind(toks, AcRun(src, h, table, rd1, j1, dct1)) && |View(src, rd1)| < |View(src, rd)|
  {
    hide AcStep, Usable;
    AcStepShrinks(src, h, table, rd, j, dct);
  }

  lemma {:induction false} AcRunEnd(src: Src, h: Huff, table: nat, rd: Rd, j: nat, dct: seq<int>)
    requires ValidSrc(src) && Usable(h) && |dct| == 64 && j >= 64
    ensures AcRun(src, h, table, rd, j, dct) == AcOut([], true, rd, dct)
  {}

  lemma {:induction false} TableNumbers(component: nat)
    ensures DcTable(component) < 4 && AcTable(component) < 4
  {}

  /** Clears the coefficients and decodes the first one. */
  method OpenBlock(d: Jdec, hv: HuffVal, table: HuffmanTable, class_: nat, component: nat)
    returns (ok: bool, dct: array<int>)
    requires d.Reading() && d.Settled() && hv.Valid() && table.Valid() && SmallVals(table.h)
    requires class_ < 4 && component < 3 && hv.n as object !in table.Repr
    modifies d`stream, d`reservoir, d`nbits, d`previousDc, hv, hv.n
    ensures d.Reading() && d.Settled() && hv.Valid() && table.Valid() && fresh(dct) && dct.Length == 64
    ensures var r := DcStep(d.Source(), table.h, class_, old(d.Reader()), old(d.previousDc)[component]);
            && ok == r.ok && hv.seen == old(hv.seen) + r.toks
            && (ok ==> d.Reader() == r.rd && dct[..] == ZeroBlock(r.prev)
                       && d.previousDc == old(d.previousDc)[component := r.prev])
  {
    hide DcStep, Usable, HuffmanTable.Valid, HuffVal.Valid, Jdec.Reading, Jdec.Reader, Jdec.Source;
    ValidTable(table);
    TableRepr(table);
    var dc;
    dct := new int[64](i => 0);
    ok, dc := DcSymbol(d, hv, table, class_, component);
    dct[0] := dc;
  }

  /** Decodes one block with the given tables. */
  method DecodeBlock(d: Jdec, hv: HuffVal, dcTable: HuffmanTable, acTable: HuffmanTable, component: nat)
    returns (ok: bool)
    requires d.Reading() && d.Settled() && hv.Valid() && component < 3
    requires dcTable.Valid() && acTable.Valid() && SmallVals(dcTable.h)
    requires hv.n as object !in dcTable.Repr && hv.n as object !in acTable.Repr
    modifies d`stream, d`reservoir, d`nbits, d`previousDc, d`dct, d`blocks, hv, hv.n
    ensures d.Reading() && d.Settled() && hv.Valid()
    ensures var r := Unit(d.Source(), old(dcTable.h), old(acTable.h), component,
                          old(d.Reader()), old(d.previousDc)[component]);
            && ok == r.ok && hv.seen == old(hv.seen) + r.toks
            && (ok ==> d.Reader() == r.rd && d.previousDc == old(d.previousDc)[component := r.prev]
                       && d.dct == old(d.dct)[component := r.dct])
            && d.blocks == old(d.blocks) + (if ok then [r.dct] else [])
  {
    hide Unit, AcRun, DcStep, Usable, Good, HuffmanTable.Holds, HuffVal.Valid, Jdec.Reading, Jdec.Reader, Jdec.Source,
         DcTable, AcTable, ValidSrc;
    TableNumbers(component);
    ValidTable(dcTable);
    ValidTable(acTable);
    UnitParts(d.Source(), dcTable.h, acTable.h, component, d.Reader(), d.previousDc[component]);
    var dct;
    ok, dct := OpenBlock(d, hv, dcTable, DcTable(component), component);
    if !ok { return false; }
    ok := AcSymbols(d, hv, acTable, AcTable(component), dct);
    if ok {
      d.dct := d.dct[component := dct[..]];
      d.blocks := d.blocks + [dct[..]];
    }
  }

  /** Decodes one block of a component. */
  method DecodeUnit(d: Jdec, hv: HuffVal, component: nat, ghost mcu: seq<nat>) returns (ok: bool)
    requires d.Ready() && hv.Valid() && component < 3 && {hv, hv.n} !! d.tableRepr
    requires forall i :: 0 <= i < |mcu| ==> mcu[i] < 3
    modifies d`stream, d`reservoir, d`nbits, d`previousDc, d`dct, d`blocks, hv, hv.n
    ensures d.Ready() && hv.Valid() && d.Tables(mcu) == old(d.Tables(mcu))
    ensures var r := UnitIn(d.Source(), d.Tables(mcu), component, old(d.State()));
            && ok == r.ok && hv.seen == old(hv.seen) + r.toks
            && (ok ==> d.State() == UnitSt(old(d.State()), component, r)
                       && d.dct == old(d.dct)[component := r.dct])
            && d.blocks == old(d.blocks) + (if ok then [r.dct] else [])
  {
    hide Unit, Usable, HuffmanTable.Valid, Jdec.TablesReady, Jdec.DcH, Jdec.AcH;
    d.ComponentTables(component);
    ok := DecodeBlock(d, hv, d.DcT(component), d.AcT(component), component);
  }

  /** Decodes the blocks of one MCU. */
  method DecodeMcu(d: Jdec, hv: HuffVal, mcu: seq<nat>) returns (ok: bool)
    requires d.Ready() && hv.Valid() && {hv, hv.n} !! d.tableRepr
    requires forall i :: 0 <= i < |mcu| ==> mcu[i] < 3
    modifies d`stream, d`reservoir, d`nbits, d`previousDc, d`dct, d`blocks, hv, hv.n
    ensures d.Ready() && hv.Valid() && d.Tables(mcu) == old(d.Tables(mcu))
    ensures var r := Units(d.Source(), d.Tables(mcu), mcu, old(d.State()));
            && ok == r.ok && hv.seen == old(hv.seen) + r.toks && d.blocks == old(d.blocks) + r.blocks
            && (ok ==> d.State() == r.st)
  {
    hide UnitIn, UnitSt, Units, SameRun, Progress, Jdec.TablesReady, HuffVal.Valid, Jdec.Reading, Jdec.Bound,
         Jdec.Wired, Jdec.Settled, Jdec.State, Jdec.Source, Jdec.Tables, ValidSrc, ValidEnv, ValidSt;
    d.ComponentTables(0);
    ghost var env := d.Tables(mcu);
    ghost var goal := Units(d.Source(), env, mcu, d.State());
    ProgressStart(goal, hv.seen, d.blocks);
    assert mcu[0..] == mcu;
    for i := 0 to |mcu|
      invariant d.Ready() && hv.Valid() && d.Tables(mcu) == env
      invariant Progress(goal, old(hv.seen), old(d.blocks), hv.seen, d.blocks,
                         Units(d.Source(), env, mcu[i..], d.State()))
    {
      ghost var now := Units(d.Source(), env, mcu[i..], d.State());
      ghost var u := UnitIn(d.Source(), env, mcu[i], d.State());
      ghost var seen, blocks := hv.seen, d.blocks;
      UnitsStep(d.Source(), env, mcu[i..], d.State());
      ProgressEnd(goal, old(hv.seen), old(d.blocks), seen, blocks, now);
      assert mcu[i..][1..] == mcu[i + 1..];
      ok := DecodeUnit(d, hv, mcu[i], mcu);
      if !ok { return false; }
      ProgressStep(goal, old(hv.seen), old(d.blocks), seen, blocks, now, u.toks, [u.dct],
                   Units(d.Source(), env, mcu[i + 1..], d.State()));
    }
    UnitsEmpty(d.Source(), env, mcu[|mcu|..], d.State());
    ProgressEnd(goal, old(hv.seen), old(d.blocks), hv.seen, d.blocks, Units(d.Source(), env, mcu[|mcu|..], d.State()));
    return true;
  }

  /** Run `goal` is run r with symbols and blocks before it. */
  predicate SameRun(goal: ScanOut, toks: seq<Tok>, blocks: seq<seq<int>>, r: ScanOut) {
    && goal.toks == toks + r.toks && goal.blocks == blocks + r.blocks && goal.ok == r.ok
    && (goal.ok ==> goal.st == r.st)
  }

  lemma {:induction false} SameRunSelf(r: ScanOut)
    ensures SameRun(r, [], [], r)
  {}

  /** Run `goal` started when seen0 and blocks0 were there; seen and blocks are there now, and
      run r is still to come. */
  predicate Progress(goal: ScanOut, seen0: seq<Tok>, blocks0: seq<seq<int>>,
                     seen: seq<Tok>, blocks: seq<seq<int>>, r: ScanOut) {
    && seen0 + goal.toks == seen + r.toks && blocks0 + goal.blocks == blocks + r.blocks
    && goal.ok == r.ok && (goal.ok ==> goal.st == r.st)
  }

  lemma {:induction false} ProgressStart(goal: ScanOut, seen: seq<Tok>, blocks: seq<seq<int>>)
    ensures Progress(goal, seen, blocks, seen, blocks, goal)
  {}

  lemma {:induction false} ProgressStep(goal: ScanOut, seen0: seq<Tok>, blocks0: seq<seq<int>>,
                                        seen: seq<Tok>, blocks: seq<seq<int>>, r: ScanOut,
                                        toks: seq<Tok>, bs: seq<seq<int>>, q: ScanOut)
    requires Progress(goal, seen0, blocks0, seen, blocks, r) && SameRun(r, toks, bs, q)
    ensures Progress(goal, seen0, blocks0, seen + toks, blocks + bs, q)
  {
    assert seen + (toks + q.toks) == (seen + toks) + q.toks;
    assert blocks + (bs + q.blocks) == (blocks + bs) + q.blocks;
  }

  lemma {:induction false} ProgressEnd(goal: ScanOut, seen0: seq<Tok>, blocks0: seq<seq<int>>,
                                       seen: seq<Tok>, blocks: seq<seq<int>>, r: ScanOut)
    requires Progress(goal, seen0, blocks0, seen, blocks, r)
    ensures seen0 + goal.toks == seen + r.toks && blocks0 + goal.blocks == blocks + r.blocks
    ensures goal.ok == r.ok && (goal.ok ==> goal.st == r.st)
  {}

  lemma {:induction false} SameRunEnd(goal: ScanOut, toks: seq<Tok>, blocks: seq<seq<int>>, r: ScanOut)
    requires SameRun(goal, toks, blocks, r)
    ensures goal.toks == toks + r.toks && goal.blocks == blocks + r.blocks && goal.ok == r.ok
    ensures goal.ok ==> goal.st == r.st
  {}

  lemma {:induction false} SameRunTrans(goal: ScanOut, a: seq<Tok>, b: seq<seq<int>>, r: ScanOut,
                                        c: seq<Tok>, e: seq<seq<int>>, q: ScanOut)
    requires SameRun(goal, a, b, r) && SameRun(r, c, e, q)
    ensures SameRun(goal, a + c, b + e, q)
  {}

  lemma {:induction false} UnitsEmpty(src: Src, env: Env, comps: seq<nat>, st: St)
    requires ValidSrc(src) && ValidEnv(env) && ValidSt(st) && comps == []
    ensures var r := Units(src, env, comps, st); r.ok && r.toks == [] && r.blocks == [] && r.st == st
  {}

  lemma {:induction false} UnitsStep(src: Src, env: Env, comps: seq<nat>, st: St)
    requires ValidSrc(src) && ValidEnv(env) && ValidSt(st) && comps != []
    requires forall i :: 0 <= i < |comps| ==> comps[i] < 3
    ensures var u, r := UnitIn(src, env, comps[0], st), Units(src, env, comps, st);
            if u.ok then SameRun(r, u.toks, [u.dct], Units(src, env, comps[1..], UnitSt(st, comps[0], u)))
            else r.toks == u.toks && r.blocks == [] && !r.ok
  {
    hide UnitIn, UnitSt, Usable;
  }

  /** Behind an MCU: counts the restart interval down and passes the restart marker. */
  method PassBoundary(d: Jdec, hv: HuffVal) returns (ok: bool)
    requires d.Ready() && hv.Valid() && {hv, hv.n} !! d.tableRepr
    modifies d`stream, d`reservoir, d`nbits, d`previousDc, d`restartsToGo, d`lastRst, hv`seen
    ensures d.Ready() && hv.Valid()
    ensures var b := Boundary(d.Source(), d.restartInterval, old(d.State()));
            && ok == b.ok && hv.seen == old(hv.seen) + b.toks && (ok ==> d.State() == b.st)
  {
    hide Jdec.TablesReady, FindMarker, Rewind, HuffVal.Valid, Jdec.Reading, Jdec.Source, Jdec.Reader;
    d.ComponentTables(0);
    if d.restartsToGo > 0 {
      d.restartsToGo := d.restartsToGo - 1;
      if d.restartsToGo == 0 {
        ghost var k := d.lastRst;
        var m := d.PassMarker();
        match m {
          case Found(_) => hv.Pass(Rst(k));
          case AtEoi =>
          case Lost => return false;
        }
      }
    }
    return true;
  }

  /** How the blocks of an MCU are laid out, and the pixels an MCU covers. */
  datatype Layout = Layout(mcu: seq<nat>, xstride: nat, ystride: nat)

  /** Chosen by the sampling factors of the first component. */
  function LayoutOf(h: nat, v: nat): (l: Layout)
    ensures l.xstride > 0 && l.ystride > 0 && forall i :: 0 <= i < |l.mcu| ==> l.mcu[i] < 3
  {
    if (h == 1 && v <= 1) || (h == 0 && v == 1) then Layout([0, 1, 2], 8, 8)
    else if h == 1 then Layout([0, 0, 1, 2], 8, 16)
    else if v == 2 then Layout([0, 0, 0, 0, 1, 2], 16, 16)
    else Layout([0, 0, 1, 2], 16, 8)
  }

  /** One block per component in an MCU: exactly when the bitwise or of the two factors is 1. */
  lemma {:induction false} LayoutPlain(h: nat, v: nat)
    ensures LayoutOf(h, v) == Layout([0, 1, 2], 8, 8) <==> (h, v) == (1, 1) || (h, v) == (1, 0) || (h, v) == (0, 1)
  {
    assert [0, 1, 2] != [0, 0, 1, 2];
    assert |[0, 0, 0, 0, 1, 2]| == 6;
  }

  /** For factors of 1 and 2, an MCU has a block of component 0 for each 8 by 8 pixels of its 8 h by 8 v, and then one
      of each of the others. */
  lemma {:induction false} LayoutFactors(h: nat, v: nat)
    requires 1 <= h <= 2 && 1 <= v <= 2
    ensures LayoutOf(h, v) == Layout(seq(h * v, _ => 0) + [1, 2], 8 * h, 8 * v)
  {
    var lumas: seq<nat> := seq(h * v, _ => 0);
    if h == 1 && v == 1 {
      assert lumas == [0];
    } else if h == 2 && v == 2 {
      assert lumas == [0, 0, 0, 0];
    } else {
      assert lumas == [0, 0];
    }
  }

  function CeilDiv(a: nat, b: nat): nat
    requires b > 0
  {
    if a % b != 0 then a / b + 1 else a / b
  }

  /** The MCUs decoded by the first pass: its rows run to width + 1. */
  function FirstCount(width: nat, height: nat, l: Layout): nat
    requires l.xstride > 0 && l.ystride > 0
  {
    CeilDiv(height, l.ystride) * CeilDiv(width + 1, l.xstride)
  }

  /** The MCUs decoded by the second pass: the MCUs of the image. */
  function SecondCount(width: nat, height: nat, l: Layout): nat
    requires l.xstride > 0 && l.ystride > 0
  {
    CeilDiv(height, l.ystride) * CeilDiv(width, l.xstride)
  }

  /** The fewest strides that cover a pixels. */
  lemma {:induction false} CeilCovers(a: nat, b: nat)
    requires b > 0
    ensures CeilDiv(a, b) * b >= a && (a > 0 ==> CeilDiv(a, b) > 0 && (CeilDiv(a, b) - 1) * b < a)
  {
    var q, r := a / b, a % b;
    assert a == q * b + r && (q + 1) * b == q * b + b;
    if r == 0 && q > 0 { assert (q - 1) * b == q * b - b; }
  }

  /** The second pass decodes the fewest rows and columns of MCUs that cover the image, the first as many rows, and
      the fewest columns that cover one pixel more. */
  lemma {:induction false} McuCounts(width: nat, height: nat, l: Layout)
      returns (rows: nat, cols: nat, wide: nat)
    requires l.xstride > 0 && l.ystride > 0 && width > 0 && height > 0
    ensures (rows - 1) * l.ystride < height <= rows * l.ystride
    ensures (cols - 1) * l.xstride < width <= cols * l.xstride
    ensures (wide - 1) * l.xstride < width + 1 <= wide * l.xstride
    ensures SecondCount(width, height, l) == rows * cols && FirstCount(width, height, l) == rows * wide
  {
    hide CeilDiv;
    rows, cols := CeilDiv(height, l.ystride), CeilDiv(width, l.xstride);
    wide := CeilDiv(width + 1, l.xstride);
    CeilCovers(height, l.ystride);
    CeilCovers(width, l.xstride);
    CeilCovers(width + 1, l.xstride);
  }

  lemma {:induction false} CeilMono(a: nat, b: nat)
    requires b > 0
    ensures CeilDiv(a, b) <= CeilDiv(a + 1, b)
  {
    hide CeilDiv;
    CeilStep(a + 1, b);
    CeilZero(b);
    if a > 0 {
      CeilStep(a, b);
      if a > b { CeilMono(a - b, b); }
    }
  }

  lemma {:induction false} CeilZero(b: nat)
    requires b > 0
    ensures CeilDiv(0, b) == 0
  {
    assert 0 % b == 0;
  }

  lemma {:induction false} CeilStep(a: nat, b: nat)
    requires b > 0 && a > 0
    ensures CeilDiv(a, b) == 1 + (if a > b then CeilDiv(a - b, b) else 0)
  {
    if a >= b {
      DivStep(a, b);
    } else {
      assert a / b == 0 && a % b == a;
    }
  }

  lemma {:induction false} DivStep(a: nat, b: nat)
    requires 0 < b <= a
    ensures a / b == 1 + (a - b) / b && a % b == (a - b) % b
  {
    var q, r := (a - b) / b, (a - b) % b;
    assert a == (q + 1) * b + r;
    DivModUnique(a, q + 1, b, r);
  }

  /** The steps from x up to `limit`. */
  function Steps(limit: nat, x: nat, stride: nat): nat
    requires stride > 0
  {
    if x < limit then CeilDiv(limit - x, stride) else 0
  }

  lemma {:induction false} StepsNext(limit: nat, x: nat, stride: nat)
    requires stride > 0 && x < limit
    ensures Steps(limit, x, stride) == 1 + Steps(limit, x + stride, stride)
  {
    CeilStep(limit - x, stride);
  }

  lemma {:induction false} StepsDone(limit: nat, x: nat, stride: nat)
    requires stride > 0 && limit <= x
    ensures Steps(limit, x, stride) == 0
  {}

  lemma {:induction false} StepsFrom(limit: nat, stride: nat)
    requires stride > 0
    ensures Steps(limit, 0, stride) == CeilDiv(limit, stride)
  {}

  /** One MCU with its boundary. */
  method DecodeNext(d: Jdec, hv: HuffVal, mcu: seq<nat>) returns (ok: bool)
    requires d.Ready() && hv.Valid() && {hv, hv.n} !! d.tableRepr
    requires forall i :: 0 <= i < |mcu| ==> mcu[i] < 3
    modifies d`stream, d`reservoir, d`nbits, d`previousDc, d`dct, d`blocks, d`restartsToGo, d`lastRst, hv, hv.n
    ensures d.Ready() && hv.Valid() && d.Tables(mcu) == old(d.Tables(mcu))
    ensures var r := Mcu(d.Source(), d.Tables(mcu), old(d.State()));
            && ok == r.ok && hv.seen == old(hv.seen) + r.toks && d.blocks == old(d.blocks) + r.blocks
            && (ok ==> d.State() == r.st)
  {
    hide Units, Boundary, Usable, Jdec.TablesReady, HuffVal.Valid, BitsOf, Pow2, Jdec.DcH, Jdec.AcH;
    d.ComponentTables(0);
    ok := DecodeMcu(d, hv, mcu);
    if !ok { return false; }
    ok := PassBoundary(d, hv);
  }

  lemma {:induction false} ScanStep(src: Src, env: Env, n: nat, st: St)
    requires ValidSrc(src) && ValidEnv(env) && ValidSt(st) && n > 0
    ensures var m, r := Mcu(src, env, st), Scan(src, env, n, st);
            if m.ok then SameRun(r, m.toks, m.blocks, Scan(src, env, n - 1, m.st))
            else r.toks == m.toks && r.blocks == m.blocks && !r.ok
  {
    hide Mcu, Usable;
  }

  lemma {:induction false} ScanEmpty(src: Src, env: Env, st: St)
    requires ValidSrc(src) && ValidEnv(env) && ValidSt(st)
    ensures var r := Scan(src, env, 0, st); r.ok && r.toks == [] && r.blocks == [] && r.st == st
  {}

  lemma {:induction false} SplitRun(src: Src, env: Env, m: nat, n: nat, st: St)
    requires ValidSrc(src) && ValidEnv(env) && ValidSt(st)
    ensures var a, r := Scan(src, env, m, st), Scan(src, env, m + n, st);
            if a.ok then SameRun(r, a.toks, a.blocks, Scan(src, env, n, a.st))
            else r.toks == a.toks && r.blocks == a.blocks && !r.ok
    decreases m
  {
    hide Mcu, Usable, SameRun, Scan;
    if m == 0 {
      ScanEmpty(src, env, st);
      SameRunSelf(Scan(src, env, n, st));
    } else {
      ScanStep(src, env, m, st);
      ScanStep(src, env, m + n, st);
      var u := Mcu(src, env, st);
      if u.ok {
        SplitRun(src, env, m - 1, n, u.st);
        var a := Scan(src, env, m - 1, u.st);
        SameRunEnd(Scan(src, env, m, st), u.toks, u.blocks, a);
        if a.ok {
          SameRunTrans(Scan(src, env, m + n, st), u.toks, u.blocks, Scan(src, env, m - 1 + n, u.st),
                       a.toks, a.blocks, Scan(src, env, n, a.st));
        } else {
          SameRunEnd(Scan(src, env, m + n, st), u.toks, u.blocks, Scan(src, env, m - 1 + n, u.st));
        }
      }
    }
  }

  /** One row of MCUs, for x = 0, stride, 2 * stride, ... below `limit`. */
  method DecodeRow(d: Jdec, hv: HuffVal, l: Layout, limit: nat) returns (ok: bool)
    requires d.Ready() && hv.Valid() && {hv, hv.n} !! d.tableRepr
    requires l.xstride > 0 && forall i :: 0 <= i < |l.mcu| ==> l.mcu[i] < 3
    modifies d`stream, d`reservoir, d`nbits, d`previousDc, d`dct, d`blocks, d`restartsToGo, d`lastRst, hv, hv.n
    ensures d.Ready() && hv.Valid() && d.Tables(l.mcu) == old(d.Tables(l.mcu))
    ensures var r := Scan(d.Source(), d.Tables(l.mcu), CeilDiv(limit, l.xstride), old(d.State()));
            && ok == r.ok && hv.seen == old(hv.seen) + r.toks && d.blocks == old(d.blocks) + r.blocks
            && (ok ==> d.State() == r.st)
  {
    hide Mcu, Scan, SameRun, Progress, CeilDiv, Steps, Jdec.TablesReady, HuffVal.Valid, Jdec.Reading,
         Jdec.Settled, Jdec.Bound, Jdec.Wired, Jdec.State, Jdec.Source, Jdec.Tables, ValidSrc, ValidEnv,
         ValidSt;
    d.ComponentTables(0);
    ghost var env, left := d.Tables(l.mcu), CeilDiv(limit, l.xstride);
    ghost var goal := Scan(d.Source(), env, left, d.State());
    ProgressStart(goal, hv.seen, d.blocks);
    var x := 0;
    StepsFrom(limit, l.xstride);
    while x < limit
      invariant left == Steps(limit, x, l.xstride)
      invariant d.Ready() && hv.Valid() && d.Tables(l.mcu) == env
      invariant Progress(goal, old(hv.seen), old(d.blocks), hv.seen, d.blocks,
                         Scan(d.Source(), env, left, d.State()))
      decreases limit - x
    {
      StepsNext(limit, x, l.xstride);
      ghost var m, now := Mcu(d.Source(), env, d.State()), Scan(d.Source(), env, left, d.State());
      ghost var seen, blocks := hv.seen, d.blocks;
      ScanStep(d.Source(), env, left, d.State());
      ProgressEnd(goal, old(hv.seen), old(d.blocks), seen, blocks, now);
      ok := DecodeNext(d, hv, l.mcu);
      if !ok { return false; }
      ProgressStep(goal, old(hv.seen), old(d.blocks), seen, blocks, now, m.toks, m.blocks,
                   Scan(d.Source(), env, left - 1, d.State()));
      x := x + l.xstride;
      left := left - 1;
    }
    StepsDone(limit, x, l.xstride);
    ScanEmpty(d.Source(), env, d.State());
    ProgressEnd(goal, old(hv.seen), old(d.blocks), hv.seen, d.blocks, Scan(d.Source(), env, 0, d.State()));
    return true;
  }

  function Times(n: nat, k: nat): nat {
    if n == 0 then 0 else k + Times(n - 1, k)
  }

  lemma {:induction false} TimesIs(n: nat, k: nat)
    ensures Times(n, k) == n * k
  {
    if n > 0 { TimesIs(n - 1, k); }
  }

  /** Decodes the rows of MCUs. */
  method DecodeRows(d: Jdec, hv: HuffVal, l: Layout) returns (ok: bool)
    requires d.Ready() && hv.Valid() && {hv, hv.n} !! d.tableRepr
    requires l.xstride > 0 && l.ystride > 0 && forall i :: 0 <= i < |l.mcu| ==> l.mcu[i] < 3
    modifies d`stream, d`reservoir, d`nbits, d`previousDc, d`dct, d`blocks, d`restartsToGo, d`lastRst, hv, hv.n
    ensures hv.Valid()
    ensures var n := Times(CeilDiv(d.height, l.ystride), CeilDiv(d.width + 1, l.xstride));
            var r := Scan(d.Source(), old(d.Tables(l.mcu)), n, old(d.State()));
            ok == r.ok && hv.seen == old(hv.seen) + r.toks && d.blocks == old(d.blocks) + r.blocks
  {
    hide Mcu, Scan, SameRun, Progress, CeilDiv, Jdec.TablesReady, HuffVal.Valid, Jdec.Reading, Jdec.Settled,
         Jdec.Bound, Jdec.Wired, Jdec.State, Jdec.Source, Jdec.Tables, ValidSrc, ValidEnv, ValidSt;
    d.ComponentTables(0);
    var rows := CeilDiv(d.height, l.ystride);
    ghost var cols := CeilDiv(d.width + 1, l.xstride);
    ghost var env := d.Tables(l.mcu);
    ghost var left := Times(rows, cols);
    ghost var goal := Scan(d.Source(), env, left, d.State());
    ProgressStart(goal, hv.seen, d.blocks);
    var y := 0;
    while y < rows
      invariant y <= rows && left == Times(rows - y, cols)
      invariant d.Ready() && hv.Valid() && d.Tables(l.mcu) == env
      invariant Progress(goal, old(hv.seen), old(d.blocks), hv.seen, d.blocks,
                         Scan(d.Source(), env, left, d.State()))
    {
      ghost var n, seen, blocks := left - cols, hv.seen, d.blocks;
      ghost var m, now := Scan(d.Source(), env, cols, d.State()), Scan(d.Source(), env, left, d.State());
      SplitRun(d.Source(), env, cols, n, d.State());
      ProgressEnd(goal, old(hv.seen), old(d.blocks), seen, blocks, now);
      ok := DecodeRow(d, hv, l, d.width + 1);
      if !ok { return false; }
      ProgressStep(goal, old(hv.seen), old(d.blocks), seen, blocks, now, m.toks, m.blocks,
                   Scan(d.Source(), env, n, d.State()));
      left := n;
      y := y + 1;
    }
    ScanEmpty(d.Source(), env, d.State());
    ProgressEnd(goal, old(hv.seen), old(d.blocks), hv.seen, d.blocks, Scan(d.Source(), env, 0, d.State()));
    return true;
  }

  /** How the blocks of the image in the decoder are laid out. */
  ghost function LayoutNow(d: Jdec): (l: Layout)
    requires d.Settled()
    reads d
    ensures l.xstride > 0 && l.ystride > 0 && forall i :: 0 <= i < |l.mcu| ==> l.mcu[i] < 3
  {
    LayoutOf(d.hfactor[0], d.vfactor[0])
  }

  /** The next n MCUs of a scan that starts where the decoder stands. */
  ghost function Ahead(d: Jdec, n: nat): ScanOut
    requires d.Ready()
    reads d, d.tableRepr
  {
    Scan(d.Source(), d.Tables(LayoutNow(d).mcu), n, Resync(d.stream, d.restartInterval, d.lastRst))
  }

  /** What the first pass decodes. */
  ghost function FirstAhead(d: Jdec): ScanOut
    requires d.Ready()
    reads d, d.tableRepr
  {
    Ahead(d, FirstCount(d.width, d.height, LayoutNow(d)))
  }

  /** Decodes the image and counts its symbols. */
  method Decode(d: Jdec, hv: HuffVal) returns (ok: bool)
    requires d.Ready() && hv.Valid() && {hv, hv.n} !! d.tableRepr
    modifies d`stream, d`reservoir, d`nbits, d`previousDc, d`dct, d`blocks, d`restartsToGo, d`lastRst, hv, hv.n
    ensures hv.Valid()
    ensures var r := old(FirstAhead(d));
            ok == r.ok && hv.seen == old(hv.seen) + r.toks && d.blocks == old(d.blocks) + r.blocks
  {
    hide Scan, HuffVal.Valid, Jdec.TablesReady, Jdec.Tables, Jdec.Source, Jdec.Reading, Jdec.State, Resync, LayoutOf,
         CeilDiv, FirstCount, Times;
    d.ComponentTables(0);
    var l := LayoutOf(d.hfactor[0], d.vfactor[0]);
    FirstTimes(d.width, d.height, l);
    d.ResyncHere();
    ok := DecodeRows(d, hv, l);
  }

  lemma {:induction false} FirstTimes(width: nat, height: nat, l: Layout)
    requires l.xstride > 0 && l.ystride > 0
    ensures Times(CeilDiv(height, l.ystride), CeilDiv(width + 1, l.xstride)) == FirstCount(width, height, l)
  {
    TimesIs(CeilDiv(height, l.ystride), CeilDiv(width + 1, l.xstride));
  }
}

/** Decoding one 8x8 block: a DC size and difference, then AC run/size symbols
    (sections F.2.2.1 and F.2.2.2 of ITU-T T.81), and the strings that re-encode it. */
module Blocks {
  import opened Bits
  import opened Canonical
  import opened BitReader

  /** What decoding consumes, in order; the second pass writes one string for each.
      Tables are numbered 0: DC luma, 1: DC chroma, 2: AC luma, 3: AC chroma. */
  datatype Tok =
    | Sym(table: nat, val: nat)
    | Mag(bits: seq<bool>)
    | Rst(number: nat)

  function DcTable(component: nat): nat { if component == 0 then 0 else 1 }
  function AcTable(component: nat): nat { if component == 0 then 2 else 3 }

  /** A magnitude of `size` bits as a signed value: a leading 0 bit marks a negative one. */
  function Extend(raw: nat, size: nat): int
    requires size > 0
  {
    if raw < Pow2(size - 1) then raw - Pow2(size) + 1 else raw
  }

  /** The value kept by a 16-bit short. */
  function Wrap16(x: int): int {
    (x + 0x8000) % 0x10000 - 0x8000
  }

  datatype Step =
    | Stop(toks: seq<Tok>, ok: bool, rd: Rd)
    | Go(toks: seq<Tok>, rd: Rd, j: nat, dct: seq<int>)

  /** One AC symbol, read when coefficient j < 64 is next: end of block, a run of zeros, a run that
      overflows the block, or a run and a coefficient. Not ok when the file ends too early. */
  function AcStep(src: Src, h: Huff, table: nat, rd: Rd, j: nat, dct: seq<int>): (r: Step)
    requires ValidSrc(src) && Usable(h) && |dct| == 64 && j < 64
    ensures r.Go? ==> |r.dct| == 64
  {
    match ReadCode(src, h, rd, 9)
    case Starved => Stop([], false, rd)
    case Got(sym, _, rd1) =>
      var t, size, run := Sym(table, sym), sym % 16, sym / 16;
      if size == 0 then
        if run == 0 then Stop([t], true, rd1)
        else Go([t], rd1, if run == 15 then j + 16 else j, dct)
      else if j + run >= 64 then Stop([t], true, rd1)
      else
        match ReadBits(src, rd1, size)
        case None => Stop([t], false, rd1)
        case Some((bits, rd2)) =>
          Go([t, Mag(bits)], rd2, j + run + 1, dct[j + run := Extend(Val(bits), size)])
  }

  /** Every AC symbol that does not end the block uses up bits, so the block ends. */
  lemma {:induction false} AcStepShrinks(src: Src, h: Huff, table: nat, rd: Rd, j: nat, dct: seq<int>)
    requires ValidSrc(src) && Usable(h) && |dct| == 64 && j < 64
    ensures var r := AcStep(src, h, table, rd, j, dct);
            r.Go? ==> |View(src, r.rd)| < |View(src, rd)|
  {
    hide ReadCode, ReadBits, View, Usable, Reaches;
    ReadCodeView(src, h, rd, 9);
    var c := ReadCode(src, h, rd, 9);
    if c.Got? { ReadBitsView(src, c.rd, c.sym % 16); }
  }

  datatype AcOut = AcOut(toks: seq<Tok>, ok: bool, rd: Rd, dct: seq<int>)

  /** The AC symbols from coefficient j on. */
  function AcRun(src: Src, h: Huff, table: nat, rd: Rd, j: nat, dct: seq<int>): (r: AcOut)
    requires ValidSrc(src) && Usable(h) && |dct| == 64
    ensures |r.dct| == 64
    decreases |View(src, rd)|
  {
    if j >= 64 then AcOut([], true, rd, dct) else
    AcStepShrinks(src, h, table, rd, j, dct);
    match AcStep(src, h, table, rd, j, dct)
    case Stop(toks, ok, rd1) => AcOut(toks, ok, rd1, dct)
    case Go(toks, rd1, j1, dct1) =>
      var r := AcRun(src, h, table, rd1, j1, dct1);
      AcOut(toks + r.toks, r.ok, r.rd, r.dct)
  }

  datatype DcOut = DcOut(toks: seq<Tok>, ok: bool, rd: Rd, prev: int)

  /** The DC symbol and difference; `prev` is the DC value predicted from, and then the new one. */
  function DcStep(src: Src, h: Huff, table: nat, rd: Rd, prev: int): DcOut
    requires ValidSrc(src) && Usable(h)
  {
    match ReadCode(src, h, rd, 9)
    case Starved => DcOut([], false, rd, prev)
    case Got(size, _, rd1) =>
      if size == 0 then DcOut([Sym(table, 0)], true, rd1, prev)
      else
        match ReadBits(src, rd1, size)
        case None => DcOut([Sym(table, size)], false, rd1, prev)
        case Some((bits, rd2)) =>
          DcOut([Sym(table, size), Mag(bits)], true, rd2, Wrap16(Extend(Val(bits), size) + prev))
  }

  datatype UnitOut = UnitOut(toks: seq<Tok>, ok: bool, rd: Rd, dct: seq<int>, prev: int)

  function ZeroBlock(dc: int): (r: seq<int>)
    ensures |r| == 64
  {
    [dc] + seq(63, _ => 0)
  }

  /** One block of a component. */
  function Unit(src: Src, dc: Huff, ac: Huff, component: nat, rd: Rd, prev: int): (r: UnitOut)
    requires ValidSrc(src) && Usable(dc) && Usable(ac)
    ensures |r.dct| == 64
  {
    var d := DcStep(src, dc, DcTable(component), rd, prev);
    if !d.ok then UnitOut(d.toks, false, d.rd, ZeroBlock(0), prev)
    else
      var r := AcRun(src, ac, AcTable(component), d.rd, 1, ZeroBlock(d.prev));
      UnitOut(d.toks + r.toks, r.ok, r.rd, r.dct, d.prev)
  }

  lemma {:induction false} UnitParts(src: Src, dc: Huff, ac: Huff, component: nat, rd: Rd, prev: int)
    requires ValidSrc(src) && Usable(dc) && Usable(ac)
    ensures var u, d := Unit(src, dc, ac, component, rd, prev), DcStep(src, dc, DcTable(component), rd, prev);
            if d.ok then
              var r := AcRun(src, ac, AcTable(component), d.rd, 1, ZeroBlock(d.prev));
              u == UnitOut(d.toks + r.toks, r.ok, r.rd, r.dct, d.prev)
            else !u.ok && u.toks == d.toks
  {
    hide AcRun, DcStep, Usable;
  }

  // ----- re-encoding -----

  /** The new tables give this token a code: a listed symbol, or 1 to 15 magnitude bits. */
  predicate Covered(codes: seq<Huff>, t: Tok) {
    match t
    case Sym(c, v) => c < |codes| && v in codes[c].vals
    case Mag(b) => 1 <= |b| <= 15
    case Rst(k) => k < 8
  }

  predicate AllCovered(codes: seq<Huff>, toks: seq<Tok>) {
    forall i :: 0 <= i < |toks| ==> Covered(codes, toks[i])
  }

  predicate UsableCodes(codes: seq<Huff>) {
    |codes| == 4 && (forall c :: 0 <= c < 4 ==> Usable(codes[c]))
  }

  /** The string written for a token. */
  function TokBits(codes: seq<Huff>, t: Tok): seq<bool>
    requires UsableCodes(codes) && Covered(codes, t)
  {
    match t
    case Sym(c, v) => CodeOf(codes[c], v)
    case Mag(b) => b
    case Rst(_) => []
  }

  /** The strings written for toks up to the first restart marker, in a row. */
  function SegBits(codes: seq<Huff>, toks: seq<Tok>): seq<bool>
    requires UsableCodes(codes) && AllCovered(codes, toks)
  {
    if toks == [] || toks[0].Rst? then [] else TokBits(codes, toks[0]) + SegBits(codes, toks[1..])
  }

  predicate NoRst(toks: seq<Tok>) {
    forall i :: 0 <= i < |toks| ==> !toks[i].Rst?
  }

  lemma {:induction false} SegBitsConcat(codes: seq<Huff>, a: seq<Tok>, b: seq<Tok>)
    requires UsableCodes(codes) && AllCovered(codes, a) && AllCovered(codes, b) && NoRst(a)
    ensures AllCovered(codes, a + b)
    ensures SegBits(codes, a + b) == SegBits(codes, a) + SegBits(codes, b)
  {
    hide Usable, TokBits, Covered;
    if a == [] {
      assert a + b == b;
    } else {
      SegBitsConcat(codes, a[1..], b);
      assert (a + b)[1..] == a[1..] + b;
    }
  }

  lemma {:induction false} SegBitsOne(codes: seq<Huff>, t: Tok)
    requires UsableCodes(codes) && Covered(codes, t) && !t.Rst?
    ensures AllCovered(codes, [t]) && SegBits(codes, [t]) == TokBits(codes, t)
  {
    assert [t][1..] == [];
  }

  /** A reader that started at `start`, holds at most 15 bits and has x left to read. */
  predicate At(src: Src, start: nat, rd: Rd, x: seq<bool>)
    requires ValidSrc(src)
  {
    View(src, rd) == x && |rd.bits| <= 15 && Reaches(src, start, rd.pos)
  }

  /** Reading back one re-encoded symbol. */
  lemma {:induction false} SymAgree(codes: seq<Huff>, c: nat, v: nat, out: Src, start: nat, rd: Rd, x: seq<bool>)
    requires UsableCodes(codes) && ValidSrc(out) && Covered(codes, Sym(c, v))
    requires At(out, start, rd, TokBits(codes, Sym(c, v)) + x) && |x| >= 9
    ensures var q := ReadCode(out, codes[c], rd, 9);
            q.Got? && q.sym == v && At(out, start, q.rd, x)
  {
    var h := codes[c];
    var i := IndexOf(h.vals, v);
    assert Codeword(h.sizes, i) <= View(out, rd);
    ReadCodeHit(out, h, rd, 9, i);
    ReadCodeView(out, h, rd, 9);
    ReachesTrans(out, start, rd.pos, ReadCode(out, h, rd, 9).rd.pos);
  }

  /** Reading back the magnitude bits. */
  lemma {:induction false} MagAgree(out: Src, start: nat, rd: Rd, b: seq<bool>, x: seq<bool>)
    requires ValidSrc(out) && At(out, start, rd, b + x)
    ensures var q := ReadBits(out, rd, |b|);
            q.Some? && q.value.0 == b && At(out, start, q.value.1, x)
  {
    ReadBitsView(out, rd, |b|);
    ReachesTrans(out, start, rd.pos, ReadBits(out, rd, |b|).value.1.pos);
  }

  lemma {:induction false} EmptySeg(codes: seq<Huff>, x: seq<bool>)
    requires UsableCodes(codes)
    ensures SegBits(codes, []) + x == x
  {}

  lemma {:induction false} SegBitsTwo(codes: seq<Huff>, s: Tok, m: Tok, x: seq<bool>)
    requires UsableCodes(codes) && AllCovered(codes, [s, m]) && s.Sym? && m.Mag?
    ensures Covered(codes, s) && SegBits(codes, [s, m]) + x == TokBits(codes, s) + (m.bits + x)
  {
    hide Usable, SegBits;
    assert [s, m][0] == s && [s, m][1] == m && [s, m] == [s] + [m];
    SegBitsOne(codes, s);
    SegBitsOne(codes, m);
    SegBitsConcat(codes, [s], [m]);
  }

  /** Reading back a symbol alone, or a symbol and its magnitude bits. */
  lemma {:induction false} TokensAgree(codes: seq<Huff>, toks: seq<Tok>, c: nat, v: nat,
                                       out: Src, start: nat, rd: Rd, x: seq<bool>)
    requires UsableCodes(codes) && ValidSrc(out) && AllCovered(codes, toks) && c < 4 && |x| >= 16
    requires 1 <= |toks| <= 2 && toks[0] == Sym(c, v) && (|toks| == 2 ==> toks[1].Mag?)
    requires At(out, start, rd, SegBits(codes, toks) + x)
    ensures var q := ReadCode(out, codes[c], rd, 9);
            && q.Got? && q.sym == v
            && if |toks| == 1 then At(out, start, q.rd, x) else
               var m := ReadBits(out, q.rd, |toks[1].bits|);
               m.Some? && m.value.0 == toks[1].bits && At(out, start, m.value.1, x)
  {
    hide Usable, ReadCode, ReadBits, At, TokBits, SegBits;
    if |toks| == 1 {
      assert toks == [toks[0]];
      SegBitsOne(codes, toks[0]);
      SymAgree(codes, c, v, out, start, rd, x);
    } else {
      var b := toks[1].bits;
      assert toks == [toks[0], toks[1]];
      SegBitsTwo(codes, toks[0], toks[1], x);
      SymAgree(codes, c, v, out, start, rd, b + x);
      MagAgree(out, start, ReadCode(out, codes[c], rd, 9).rd, b, x);
    }
  }

  lemma {:induction false} AcStepAgree(src: Src, h: Huff, table: nat, rd: Rd, j: nat, dct: seq<int>,
                                       codes: seq<Huff>, out: Src, start: nat, rd2: Rd, x: seq<bool>)
    requires ValidSrc(src) && Usable(h) && |dct| == 64 && ValidSrc(out) && j < 64
    requires UsableCodes(codes) && table < 4 && |x| >= 16
    requires var r := AcStep(src, h, table, rd, j, dct);
             && (r.Go? || r.ok) && AllCovered(codes, r.toks)
             && At(out, start, rd2, SegBits(codes, r.toks) + x)
    ensures var r, q := AcStep(src, h, table, rd, j, dct), AcStep(out, codes[table], table, rd2, j, dct);
            && q.toks == r.toks && At(out, start, q.rd, x) && q.Go? == r.Go?
            && (if r.Go? then q.j == r.j && q.dct == r.dct else q.ok)
  {
    hide Usable, ReadCode, ReadBits, SegBits, At;
    var r := AcStep(src, h, table, rd, j, dct);
    TokensAgree(codes, r.toks, table, r.toks[0].val, out, start, rd2, x);
  }

  lemma {:induction false} AcNoRst(src: Src, h: Huff, table: nat, rd: Rd, j: nat, dct: seq<int>)
    requires ValidSrc(src) && Usable(h) && |dct| == 64
    ensures NoRst(AcRun(src, h, table, rd, j, dct).toks)
    decreases |View(src, rd)|
  {
    hide Usable, ReadCode, ReadBits, View;
    if j < 64 {
      AcStepShrinks(src, h, table, rd, j, dct);
      var r := AcStep(src, h, table, rd, j, dct);
      if r.Go? { AcNoRst(src, h, table, r.rd, r.j, r.dct); }
    }
  }

  /** Re-encoding the AC symbols of a block and decoding the result with the new table gives the
      same symbols and coefficients, and stops right behind them. */
  lemma {:induction false} AcAgree(src: Src, h: Huff, table: nat, rd: Rd, j: nat, dct: seq<int>,
                                   codes: seq<Huff>, out: Src, start: nat, rd2: Rd, x: seq<bool>)
    requires ValidSrc(src) && Usable(h) && |dct| == 64 && ValidSrc(out)
    requires UsableCodes(codes) && table < 4 && |x| >= 16
    requires var r := AcRun(src, h, table, rd, j, dct);
             && r.ok && AllCovered(codes, r.toks)
             && At(out, start, rd2, SegBits(codes, r.toks) + x)
    ensures var r, q := AcRun(src, h, table, rd, j, dct), AcRun(out, codes[table], table, rd2, j, dct);
            q.ok && q.toks == r.toks && q.dct == r.dct && At(out, start, q.rd, x)
    decreases |View(src, rd)|
  {
    hide Usable, ReadCode, ReadBits, SegBits, At, View;
    EmptySeg(codes, x);
    if j < 64 {
      AcStepShrinks(src, h, table, rd, j, dct);
      var r := AcStep(src, h, table, rd, j, dct);
      if r.Stop? {
        AcStepAgree(src, h, table, rd, j, dct, codes, out, start, rd2, x);
      } else {
        var rest := AcRun(src, h, table, r.rd, r.j, r.dct).toks;
        SplitSeg(codes, r.toks, rest, x);
        AcStepAgree(src, h, table, rd, j, dct, codes, out, start, rd2, SegBits(codes, rest) + x);
        var q := AcStep(out, codes[table], table, rd2, j, dct);
        AcAgree(src, h, table, r.rd, r.j, r.dct, codes, out, start, q.rd, x);
      }
    }
  }

  lemma {:induction false} SplitSeg(codes: seq<Huff>, a: seq<Tok>, b: seq<Tok>, x: seq<bool>)
    requires UsableCodes(codes) && AllCovered(codes, a + b) && NoRst(a)
    ensures AllCovered(codes, a) && AllCovered(codes, b)
    ensures SegBits(codes, a + b) + x == SegBits(codes, a) + (SegBits(codes, b) + x)
  {
    forall i | 0 <= i < |a| ensures Covered(codes, a[i]) { assert a[i] == (a + b)[i]; }
    forall i | 0 <= i < |b| ensures Covered(codes, b[i]) { assert b[i] == (a + b)[|a| + i]; }
    SegBitsConcat(codes, a, b);
  }

  lemma {:induction false} DcStepAgree(src: Src, h: Huff, table: nat, rd: Rd, prev: int,
                                       codes: seq<Huff>, out: Src, start: nat, rd2: Rd, x: seq<bool>)
    requires ValidSrc(src) && Usable(h) && ValidSrc(out)
    requires UsableCodes(codes) && table < 4 && |x| >= 16
    requires var r := DcStep(src, h, table, rd, prev);
             && r.ok && AllCovered(codes, r.toks)
             && At(out, start, rd2, SegBits(codes, r.toks) + x)
    ensures var r, q := DcStep(src, h, table, rd, prev), DcStep(out, codes[table], table, rd2, prev);
            q.ok && q.toks == r.toks && q.prev == r.prev && At(out, start, q.rd, x)
  {
    hide Usable, ReadCode, ReadBits, SegBits, At;
    var r := DcStep(src, h, table, rd, prev);
    TokensAgree(codes, r.toks, table, r.toks[0].val, out, start, rd2, x);
  }

  lemma {:induction false} UnitNoRst(src: Src, dc: Huff, ac: Huff, component: nat, rd: Rd, prev: int)
    requires ValidSrc(src) && Usable(dc) && Usable(ac)
    ensures NoRst(Unit(src, dc, ac, component, rd, prev).toks)
  {
    hide Usable, AcRun, ReadCode, ReadBits;
    var d := DcStep(src, dc, DcTable(component), rd, prev);
    if d.ok { AcNoRst(src, ac, AcTable(component), d.rd, 1, ZeroBlock(d.prev)); }
  }

  /** The same for a whole block, including its DC value. */
  lemma {:induction false} UnitAgree(src: Src, dc: Huff, ac: Huff, component: nat, rd: Rd, prev: int,
                                     codes: seq<Huff>, out: Src, start: nat, rd2: Rd, x: seq<bool>)
    requires ValidSrc(src) && Usable(dc) && Usable(ac) && ValidSrc(out)
    requires UsableCodes(codes) && |x| >= 16
    requires var r := Unit(src, dc, ac, component, rd, prev);
             && r.ok && AllCovered(codes, r.toks)
             && At(out, start, rd2, SegBits(codes, r.toks) + x)
    ensures var r := Unit(src, dc, ac, component, rd, prev);
            var q := Unit(out, codes[DcTable(component)], codes[AcTable(component)], component, rd2, prev);
            q.ok && q.toks == r.toks && q.dct == r.dct && q.prev == r.prev && At(out, start, q.rd, x)
  {
    hide Usable, SegBits, At, AcRun, ReadCode, ReadBits;
    var i, j := DcTable(component), AcTable(component);
    var d := DcStep(src, dc, i, rd, prev);
    var rest := AcRun(src, ac, j, d.rd, 1, ZeroBlock(d.prev)).toks;
    SplitSeg(codes, d.toks, rest, x);
    DcStepAgree(src, dc, i, rd, prev, codes, out, start, rd2, SegBits(codes, rest) + x);
    var q := DcStep(out, codes[i], i, rd2, prev);
    AcAgree(src, ac, j, d.rd, 1, ZeroBlock(d.prev), codes, out, start, q.rd, x);
  }
}

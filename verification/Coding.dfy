/** The coding of a scan as the standard describes it (sections F.1.2.1 and F.1.2.2 of ITU-T T.81: differences of DC
    values, runs of zeros, restart intervals), and that decoding undoes it. */
module Coding {
  import opened Bits
  import opened Canonical
  import opened BitReader
  import opened Blocks
  import opened Scans
  import opened Intervals
  import opened FirstPass
  import opened Packing
  import opened Transcoding

  // ----- values -----

  /** The number of bits of a magnitude. */
  function SizeOf(a: nat): nat { if a == 0 then 0 else 1 + SizeOf(a / 2) }

  function Abs(v: int): nat { if v >= 0 then v else -v }

  /** The magnitude bits of a value: its own when it is positive, and the low bits of v - 1 when it is negative. */
  function MagOf(v: int): seq<bool> {
    var n := SizeOf(Abs(v));
    if v > 0 then BitsOf(v, n) else SizeFits(Abs(v)); BitsOf(Pow2(n) - 1 + v, n)
  }

  lemma {:induction false} SizeFits(a: nat)
    ensures a < Pow2(SizeOf(a)) && (a > 0 ==> Pow2(SizeOf(a) - 1) <= a)
  {
    if a > 0 {
      SizeFits(a / 2);
      if a / 2 == 0 { assert a == 1 && SizeOf(0) == 0; }
    }
  }

  lemma {:induction false} SizeBound(a: nat, n: nat)
    requires a < Pow2(n)
    ensures SizeOf(a) <= n
  {
    if a > 0 { SizeBound(a / 2, n - 1); }
  }

  /** Sign extension undoes it. */
  lemma {:induction false} ExtendMag(v: int)
    requires v != 0
    ensures |MagOf(v)| == SizeOf(Abs(v)) > 0 && Extend(Val(MagOf(v)), SizeOf(Abs(v))) == v
  {
    hide Val, BitsOf, Shl;
    var n := SizeOf(Abs(v));
    SizeFits(Abs(v));
    assert Pow2(n) == 2 * Pow2(n - 1) by { Doubled(n); }
    ValBitsOf(if v > 0 then v else Pow2(n) - 1 + v, n);
  }

  lemma {:induction false} Doubled(n: nat)
    requires n > 0
    ensures Pow2(n) == 2 * Pow2(n - 1)
  {}

  /** What 15 bits can hold. */
  predicate Small(v: int) { -0x8000 < v < 0x8000 }

  lemma {:induction false} SmallSize(v: int)
    requires Small(v)
    ensures SizeOf(Abs(v)) <= 15
  {
    FifteenBits();
    SizeBound(Abs(v), 15);
  }

  lemma {:induction false} FifteenBits()
    ensures Pow2(15) == 0x8000
  {
    assert Pow2(5) == 32;
    assert Pow2(10) == 1024 by { ShlAdd(1, 5, 5); assert Shl(32, 5) == 1024; }
    ShlAdd(1, 10, 5);
    assert Shl(1024, 5) == 0x8000;
  }

  // ----- blocks -----

  function LeadingZeros(s: seq<int>): (z: nat)
    ensures z <= |s| && (z < |s| ==> s[z] != 0) && forall i :: 0 <= i < z ==> s[i] == 0
  {
    if s == [] || s[0] != 0 then 0 else 1 + LeadingZeros(s[1..])
  }

  /** The AC coefficients in s, coded: a symbol for up to 15 zeros and the value behind them, the symbol 0xF0 for 16
      zeros that are not the last ones, and the symbol 0 for the rest, when it is all zeros. */
  function RunToks(s: seq<int>, table: nat): seq<Tok>
    decreases |s|
  {
    var z := LeadingZeros(s);
    if s == [] then []
    else if z == |s| then [Sym(table, 0)]
    else if z >= 16 then [Sym(table, 0xf0)] + RunToks(s[16..], table)
    else [Sym(table, 16 * z + SizeOf(Abs(s[z]))), Mag(MagOf(s[z]))] + RunToks(s[z + 1..], table)
  }

  function Nulls(n: nat): (s: seq<int>)
    ensures |s| == n
  {
    seq(n, _ => 0)
  }

  predicate AllSmall(s: seq<int>) { forall i :: 0 <= i < |s| ==> Small(s[i]) }

  /** Decoding a coded AC run yields its coefficients. */
  lemma {:induction false} RunDecodes(codes: seq<Huff>, s: seq<int>, table: nat, done: seq<int>,
                                      out: Src, start: nat, rd: Rd, x: seq<bool>) returns (rd1: Rd)
    requires UsableCodes(codes) && ValidSrc(out) && table < 4 && |x| >= 16
    requires AllSmall(s) && |done| + |s| == 64 && AllCovered(codes, RunToks(s, table))
    requires At(out, start, rd, SegBits(codes, RunToks(s, table)) + x)
    ensures AcRun(out, codes[table], table, rd, |done|, done + Nulls(|s|))
            == AcOut(RunToks(s, table), true, rd1, done + s)
    ensures At(out, start, rd1, x)
    decreases |s|
  {
    hide Usable, ReadCode, ReadBits, SegBits, At, AcStep, AcRun, MagOf, SizeOf, LeadingZeros, AllCovered;
    var h, j, dct := codes[table], |done|, done + Nulls(|s|);
    var z := LeadingZeros(s);
    EmptySeg(codes, x);
    if s == [] {
      rd1 := rd;
      AcRunEnd(out, h, table, rd, j, dct);
      assert done + Nulls(0) == done == done + s;
    } else if z == |s| {
      assert [Sym(table, 0)] + [] == [Sym(table, 0)];
      rd1 := SymDecodes(codes, table, 0, j, dct, out, start, rd, [], x);
      AcRunStep(out, h, table, rd, j, dct);
      assert Nulls(|s|) == s;
    } else if z >= 16 {
      rd1 := SymDecodes(codes, table, 0xf0, j, dct, out, start, rd, RunToks(s[16..], table), x);
      AcRunStep(out, h, table, rd, j, dct);
      SixteenOn(done, s);
      rd1 := RunDecodes(codes, s[16..], table, done + s[..16], out, start, rd1, x);
    } else {
      rd1 := PairDecodes(codes, table, z, s[z], j, dct, out, start, rd, RunToks(s[z + 1..], table), x);
      AcRunStep(out, h, table, rd, j, dct);
      ValueOn(done, s, z);
      rd1 := RunDecodes(codes, s[z + 1..], table, done + s[..z + 1], out, start, rd1, x);
    }
  }

  lemma {:induction false} SixteenOn(done: seq<int>, s: seq<int>)
    requires |s| >= 16 && forall i :: 0 <= i < 16 ==> s[i] == 0
    ensures done + Nulls(|s|) == done + s[..16] + Nulls(|s[16..]|) && done + s[..16] + s[16..] == done + s
  {}

  lemma {:induction false} ValueOn(done: seq<int>, s: seq<int>, z: nat)
    requires z < |s| && forall i :: 0 <= i < z ==> s[i] == 0
    ensures (done + Nulls(|s|))[|done| + z := s[z]] == done + s[..z + 1] + Nulls(|s[z + 1..]|)
    ensures done + s[..z + 1] + s[z + 1..] == done + s
  {}

  /** The symbols without a magnitude. */
  lemma {:induction false} SymDecodes(codes: seq<Huff>, table: nat, sym: nat, j: nat, dct: seq<int>,
                                      out: Src, start: nat, rd: Rd, rest: seq<Tok>, x: seq<bool>) returns (rd1: Rd)
    requires UsableCodes(codes) && ValidSrc(out) && table < 4 && |x| >= 16 && |dct| == 64 && j < 64
    requires (sym == 0 || sym == 0xf0) && AllCovered(codes, [Sym(table, sym)] + rest)
    requires At(out, start, rd, SegBits(codes, [Sym(table, sym)] + rest) + x)
    ensures AllCovered(codes, rest) && At(out, start, rd1, SegBits(codes, rest) + x)
    ensures AcStep(out, codes[table], table, rd, j, dct)
            == if sym == 0 then Stop([Sym(table, 0)], true, rd1) else Go([Sym(table, 0xf0)], rd1, j + 16, dct)
  {
    hide Usable, ReadCode, ReadBits, SegBits, At;
    SplitSeg(codes, [Sym(table, sym)], rest, x);
    TokensAgree(codes, [Sym(table, sym)], table, sym, out, start, rd, SegBits(codes, rest) + x);
    rd1 := ReadCode(out, codes[table], rd, 9).rd;
  }

  /** A run of z zeros and the value v. */
  lemma {:induction false} PairDecodes(codes: seq<Huff>, table: nat, z: nat, v: int, j: nat, dct: seq<int>,
                                       out: Src, start: nat, rd: Rd, rest: seq<Tok>, x: seq<bool>) returns (rd1: Rd)
    requires UsableCodes(codes) && ValidSrc(out) && table < 4 && |x| >= 16 && |dct| == 64 && z < 16 && j + z < 64
    requires v != 0 && Small(v)
    requires var toks := [Sym(table, 16 * z + SizeOf(Abs(v))), Mag(MagOf(v))] + rest;
             AllCovered(codes, toks) && At(out, start, rd, SegBits(codes, toks) + x)
    ensures AllCovered(codes, rest) && At(out, start, rd1, SegBits(codes, rest) + x)
    ensures AcStep(out, codes[table], table, rd, j, dct)
            == Go([Sym(table, 16 * z + SizeOf(Abs(v))), Mag(MagOf(v))], rd1, j + z + 1, dct[j + z := v])
  {
    hide Usable, ReadCode, ReadBits, SegBits, At, MagOf, SizeOf, Extend, Val;
    var n := SizeOf(Abs(v));
    var sym, bits := 16 * z + n, MagOf(v);
    SmallSize(v);
    ExtendMag(v);
    assert sym % 16 == n && sym / 16 == z;
    SplitSeg(codes, [Sym(table, sym), Mag(bits)], rest, x);
    TokensAgree(codes, [Sym(table, sym), Mag(bits)], table, sym, out, start, rd, SegBits(codes, rest) + x);
    var c := ReadCode(out, codes[table], rd, 9);
    rd1 := ReadBits(out, c.rd, n).value.1;
  }

  /** A block of component c: the size and the bits of its DC difference, and its AC run. */
  function BlockToks(c: nat, diff: int, block: seq<int>): seq<Tok>
    requires |block| == 64
  {
    DcToks(c, diff) + RunToks(block[1..], AcTable(c))
  }

  function DcToks(c: nat, diff: int): seq<Tok> {
    [Sym(DcTable(c), SizeOf(Abs(diff)))] + if diff == 0 then [] else [Mag(MagOf(diff))]
  }

  /** Coefficients that the standard can code: AC values and DC differences of 15 bits, DC values of 16. */
  predicate Codable(block: seq<int>, prev: int) {
    |block| == 64 && AllSmall(block[1..]) && -0x8000 <= block[0] < 0x8000 && Small(block[0] - prev)
  }

  lemma {:induction false} DcDecodes(codes: seq<Huff>, c: nat, prev: int, v: int,
                                     out: Src, start: nat, rd: Rd, x: seq<bool>) returns (rd1: Rd)
    requires UsableCodes(codes) && ValidSrc(out) && c < 3 && |x| >= 16 && -0x8000 <= v < 0x8000 && Small(v - prev)
    requires AllCovered(codes, DcToks(c, v - prev)) && At(out, start, rd, SegBits(codes, DcToks(c, v - prev)) + x)
    ensures DcStep(out, codes[DcTable(c)], DcTable(c), rd, prev) == DcOut(DcToks(c, v - prev), true, rd1, v)
    ensures At(out, start, rd1, x)
  {
    hide Usable, ReadCode, ReadBits, SegBits, At, MagOf, Extend, Val;
    var d, t := v - prev, DcTable(c);
    var n := SizeOf(Abs(d));
    TokensAgree(codes, DcToks(c, d), t, n, out, start, rd, x);
    rd1 := ReadCode(out, codes[t], rd, 9).rd;
    if d != 0 {
      ExtendMag(d);
      rd1 := ReadBits(out, rd1, n).value.1;
    }
  }

  lemma {:induction false} BlockDecodes(codes: seq<Huff>, c: nat, prev: int, block: seq<int>,
                                        out: Src, start: nat, rd: Rd, x: seq<bool>) returns (rd1: Rd)
    requires UsableCodes(codes) && ValidSrc(out) && c < 3 && |x| >= 16 && Codable(block, prev)
    requires var toks := BlockToks(c, block[0] - prev, block);
             AllCovered(codes, toks) && At(out, start, rd, SegBits(codes, toks) + x)
    ensures Unit(out, codes[DcTable(c)], codes[AcTable(c)], c, rd, prev)
            == UnitOut(BlockToks(c, block[0] - prev, block), true, rd1, block, block[0])
    ensures At(out, start, rd1, x)
  {
    hide Usable, SegBits, At, DcStep, AcRun, RunToks, MagOf, SizeOf;
    var d := block[0] - prev;
    var rest := RunToks(block[1..], AcTable(c));
    SplitSeg(codes, DcToks(c, d), rest, x);
    rd1 := DcDecodes(codes, c, prev, block[0], out, start, rd, SegBits(codes, rest) + x);
    UnitParts(out, codes[DcTable(c)], codes[AcTable(c)], c, rd, prev);
    rd1 := RunDecodes(codes, block[1..], AcTable(c), [block[0]], out, start, rd1, x);
    assert ZeroBlock(block[0]) == [block[0]] + Nulls(63);
    assert [block[0]] + block[1..] == block;
  }

  // ----- MCUs -----

  /** The blocks of an MCU, each DC value as its difference from the one before of the same component. */
  function McuToks(comps: seq<nat>, blocks: seq<seq<int>>, prev: seq<int>): seq<Tok>
    requires McuCodable(comps, blocks, prev)
  {
    if comps == [] then []
    else
      var c, b := comps[0], blocks[0];
      BlockToks(c, b[0] - prev[c], b) + McuToks(comps[1..], blocks[1..], prev[c := b[0]])
  }

  predicate McuCodable(comps: seq<nat>, blocks: seq<seq<int>>, prev: seq<int>) {
    && |comps| == |blocks| && |prev| == 3
    && (comps == [] || (comps[0] < 3 && Codable(blocks[0], prev[comps[0]])
                        && McuCodable(comps[1..], blocks[1..], prev[comps[0] := blocks[0][0]])))
  }

  /** The predictors behind it. */
  function PrevAfter(comps: seq<nat>, blocks: seq<seq<int>>, prev: seq<int>): (r: seq<int>)
    requires McuCodable(comps, blocks, prev)
    ensures |r| == 3
  {
    if comps == [] then prev else PrevAfter(comps[1..], blocks[1..], prev[comps[0] := blocks[0][0]])
  }

  lemma {:induction false} RstBehind(a: seq<Tok>, b: seq<Tok>)
    requires NoRst(a) && NoRst(b)
    ensures NoRst(a + b)
  {}

  lemma {:induction false} RunNoRst(s: seq<int>, table: nat)
    ensures NoRst(RunToks(s, table))
    decreases |s|
  {
    hide SizeOf, MagOf, LeadingZeros;
    var z := LeadingZeros(s);
    if s != [] && z < |s| {
      if z >= 16 {
        RunNoRst(s[16..], table);
        RstBehind([Sym(table, 0xf0)], RunToks(s[16..], table));
      } else {
        RunNoRst(s[z + 1..], table);
        RstBehind([Sym(table, 16 * z + SizeOf(Abs(s[z]))), Mag(MagOf(s[z]))], RunToks(s[z + 1..], table));
      }
    }
  }

  lemma {:induction false} McuNoRst(comps: seq<nat>, blocks: seq<seq<int>>, prev: seq<int>)
    requires McuCodable(comps, blocks, prev)
    ensures NoRst(McuToks(comps, blocks, prev))
    ensures forall i :: 0 <= i < |comps| ==> comps[i] < 3
  {
    hide SizeOf, MagOf, RunToks, AllSmall, Small;
    if comps != [] {
      RunNoRst(blocks[0][1..], AcTable(comps[0]));
      McuNoRst(comps[1..], blocks[1..], prev[comps[0] := blocks[0][0]]);
    }
  }

  lemma {:induction false} McuDecodes(codes: seq<Huff>, comps: seq<nat>, blocks: seq<seq<int>>, mcu: seq<nat>,
                                      interval: nat, out: Src, start: nat, st: St, x: seq<bool>) returns (st1: St)
    requires UsableCodes(codes) && ValidSrc(out) && |x| >= 16 && ValidSt(st) && McuCodable(comps, blocks, st.prev)
    requires forall i :: 0 <= i < |mcu| ==> mcu[i] < 3
    requires forall i :: 0 <= i < |comps| ==> comps[i] < 3
    requires AllCovered(codes, McuToks(comps, blocks, st.prev))
    requires At(out, start, st.rd, SegBits(codes, McuToks(comps, blocks, st.prev)) + x)
    ensures ValidSt(st1) && st1 == st.(rd := st1.rd, prev := PrevAfter(comps, blocks, st.prev))
    ensures Units(out, NewEnv(codes, mcu, interval), comps, st)
            == ScanOut(McuToks(comps, blocks, st.prev), blocks, true, true, false, st1)
    ensures At(out, start, st1.rd, x)
  {
    hide Usable, SegBits, At, Unit, BlockToks, AllSmall, Small;
    EmptySeg(codes, x);
    st1 := st;
    if comps != [] {
      var c, b := comps[0], blocks[0];
      var prev1 := st.prev[c := b[0]];
      var head, rest := BlockToks(c, b[0] - st.prev[c], b), McuToks(comps[1..], blocks[1..], prev1);
      BlockNoRst(c, b[0] - st.prev[c], b);
      SplitSeg(codes, head, rest, x);
      var rd1 := BlockDecodes(codes, c, st.prev[c], b, out, start, st.rd, SegBits(codes, rest) + x);
      st1 := McuDecodes(codes, comps[1..], blocks[1..], mcu, interval, out, start, st.(rd := rd1, prev := prev1), x);
      assert [b] + blocks[1..] == blocks;
    } else {
      assert blocks == [];
    }
  }

  lemma {:induction false} BlockNoRst(c: nat, diff: int, block: seq<int>)
    requires |block| == 64
    ensures NoRst(BlockToks(c, diff, block))
  {
    hide SizeOf, MagOf, RunToks;
    RunNoRst(block[1..], AcTable(c));
  }

  // ----- scans -----

  /** MCUs in a row, with a restart marker behind every full interval but the last; `left` MCUs are left in the current
      interval (0: without restarts), marker k is due. */
  function CodedToks(mcu: seq<nat>, mcus: seq<seq<seq<int>>>, interval: nat, prev: seq<int>, left: nat, k: nat):
      seq<Tok>
    requires ScanCodable(mcu, mcus, interval, prev, left) && k < 8
  {
    if mcus == [] then []
    else
      McuToks(mcu, mcus[0], prev)
      + if left == 1 && |mcus| > 1 then
          [Rst(k)] + CodedToks(mcu, mcus[1..], interval, [0, 0, 0], interval, (k + 1) % 8)
        else
          CodedToks(mcu, mcus[1..], interval, PrevAfter(mcu, mcus[0], prev), if left > 0 then left - 1 else 0, k)
  }

  predicate ScanCodable(mcu: seq<nat>, mcus: seq<seq<seq<int>>>, interval: nat, prev: seq<int>, left: nat) {
    mcus == [] ||
    (&& McuCodable(mcu, mcus[0], prev)
     && if left == 1 && |mcus| > 1 then ScanCodable(mcu, mcus[1..], interval, [0, 0, 0], interval)
        else ScanCodable(mcu, mcus[1..], interval, PrevAfter(mcu, mcus[0], prev), if left > 0 then left - 1 else 0))
  }

  function Flatten(mcus: seq<seq<seq<int>>>): seq<seq<int>> {
    if mcus == [] then [] else mcus[0] + Flatten(mcus[1..])
  }

  function TogoOf(left: nat): int { if left > 0 then left else -1 }

  /** One MCU in the file, whatever follows it there. */
  lemma {:induction false} OneMcu(codes: seq<Huff>, mcu: seq<nat>, blocks: seq<seq<int>>, interval: nat, pk: Pk,
                                  tail: seq<Tok>, out: Src, st: St) returns (pk1: Pk, st1: St)
    requires UsableCodes(codes) && ValidPk(pk) && ValidSrc(out) && ValidSt(st) && McuCodable(mcu, blocks, st.prev)
    requires forall i :: 0 <= i < |mcu| ==> mcu[i] < 3
    requires var toks := McuToks(mcu, blocks, st.prev) + tail;
             && AllCovered(codes, toks) && out.buf[..out.end] == File(codes, pk, toks)
             && Synced(codes, pk, toks, out, st.rd)
    ensures ValidSt(st1) && st1 == st.(rd := st1.rd, prev := PrevAfter(mcu, blocks, st.prev))
    ensures Units(out, NewEnv(codes, mcu, interval), mcu, st)
            == ScanOut(McuToks(mcu, blocks, st.prev), blocks, true, true, false, st1)
    ensures ValidPk(pk1) && AllCovered(codes, tail) && out.buf[..out.end] == File(codes, pk1, tail)
    ensures Synced(codes, pk1, tail, out, st1.rd)
  {
    hide Usable, Units, File, Seg, At, SegBits, EmitOne, EmitAll, McuToks, McuCodable, NewEnv, PrevAfter;
    var u := McuToks(mcu, blocks, st.prev);
    CoveredParts(codes, u, tail);
    McuNoRst(mcu, blocks, st.prev);
    TailLong(codes, pk, u + tail, out);
    var x := SegBits(codes, tail) + SegTail(codes, pk, u + tail, out);
    SplitSeg(codes, u, tail, SegTail(codes, pk, u + tail, out));
    st1 := McuDecodes(codes, mcu, blocks, mcu, interval, out, |pk.prefix|, st, x);
    EmitAppend(codes, pk, u, tail);
    pk1 := EmitAll(codes, pk, u);
  }

  lemma {:induction false} ScanDecodes(codes: seq<Huff>, mcu: seq<nat>, mcus: seq<seq<seq<int>>>, interval: nat,
                                       left: nat, pk: Pk, out: Src, st: St)
    requires UsableCodes(codes) && ValidPk(pk) && ValidSrc(out) && ValidSt(st)
    requires forall i :: 0 <= i < |mcu| ==> mcu[i] < 3
    requires ScanCodable(mcu, mcus, interval, st.prev, left) && st.togo == TogoOf(left) && (left > 0 ==> interval > 0)
    requires var toks := CodedToks(mcu, mcus, interval, st.prev, left, st.rst);
             && AllCovered(codes, toks) && out.buf[..out.end] == File(codes, pk, toks)
             && Synced(codes, pk, toks, out, st.rd)
    ensures var r := Scan(out, NewEnv(codes, mcu, interval), |mcus|, st);
            && r.ok && r.clean && r.blocks == Flatten(mcus)
            && r.toks == CodedToks(mcu, mcus, interval, st.prev, left, st.rst)
    decreases |mcus|
  {
    hide Usable, Scan, Mcu, Units, Synced, File, FlushRst, EmitAll, SegBits, McuToks, McuCodable, NewEnv, PrevAfter,
         Boundary, AllCovered;
    var env := NewEnv(codes, mcu, interval);
    ScanUnfold(out, env, |mcus|, st);
    if mcus != [] {
      var u, more := McuToks(mcu, mcus[0], st.prev), mcus[1..];
      var prev1 := PrevAfter(mcu, mcus[0], st.prev);
      if left == 1 && |mcus| > 1 {
        var rest := CodedToks(mcu, more, interval, [0, 0, 0], interval, (st.rst + 1) % 8);
        var tail := [Rst(st.rst)] + rest;
        var pk1, st1 := OneMcu(codes, mcu, mcus[0], interval, pk, tail, out, st);
        McuUnfold(out, env, st);
        OutBoundary(codes, pk1, tail, out, interval, st1);
        assert tail[1..] == rest;
        ScanDecodes(codes, mcu, more, interval, interval, FlushRst(pk1, st.rst), out, Mcu(out, env, st).st);
        assert u + tail == (u + [Rst(st.rst)]) + rest;
      } else {
        var left1 := if left > 0 then left - 1 else 0;
        var tail := CodedToks(mcu, more, interval, prev1, left1, st.rst);
        var pk1, st1 := OneMcu(codes, mcu, mcus[0], interval, pk, tail, out, st);
        if left == 1 {
          McuUnfold(out, env, st);
          OutBoundary(codes, pk1, tail, out, interval, st1);
          ScanUnfold(out, env, 0, Mcu(out, env, st).st);
        } else {
          McuInside(out, env, st);
          ScanDecodes(codes, mcu, more, interval, left1, pk1, out, Mcu(out, env, st).st);
        }
        assert u + [] == u;
      }
    }
  }

  /** Decoding undoes coding: whatever the coefficients (AC values and DC differences of 15 bits), the MCU list, the
      restart interval, the tables that list the symbols, and the bytes before and behind, the scan that the
      standard prescribes for them decodes to them, and every restart marker is found. */
  lemma {:induction false} CodedScan(codes: seq<Huff>, mcu: seq<nat>, mcus: seq<seq<seq<int>>>, interval: nat,
                                     prefix: seq<byte>, slack: seq<byte>)
    requires UsableCodes(codes) && |slack| > 0 && (forall i :: 0 <= i < |mcu| ==> mcu[i] < 3)
    requires ScanCodable(mcu, mcus, interval, [0, 0, 0], interval)
    requires AllCovered(codes, CodedToks(mcu, mcus, interval, [0, 0, 0], interval, 0))
    ensures var toks := CodedToks(mcu, mcus, interval, [0, 0, 0], interval, 0);
            var bytes := File(codes, Pk(prefix, [], []), toks);
            var r := Scan(Src(bytes + slack, |bytes|), NewEnv(codes, mcu, interval), |mcus|,
                          Resync(|prefix|, interval, 0));
            prefix <= bytes && r.ok && r.clean && r.blocks == Flatten(mcus) && r.toks == toks
  {
    hide Usable, Scan, CodedToks, ScanCodable, File, Synced, NewEnv;
    var toks, pk := CodedToks(mcu, mcus, interval, [0, 0, 0], interval, 0), Pk(prefix, [], []);
    var bytes := File(codes, pk, toks);
    var out := Src(bytes + slack, |bytes|);
    assert out.buf[..out.end] == bytes;
    FilePrefix(codes, pk, toks);
    FreshSegment(codes, pk, toks, out);
    ScanDecodes(codes, mcu, mcus, interval, interval, pk, out, Resync(|prefix|, interval, 0));
  }
}

/** What the files of Samples decode to, before and after they are rewritten. One meets all that the main
    results ask for, one has a restart marker, and the others define something behind their first DHT and
    lose it: sometimes the picture with it, sometimes not. */
module Example {
  import opened Bits
  import opened Canonical
  import opened BitReader
  import opened Blocks
  import opened Scans
  import opened Intervals
  import opened Decoders
  import opened FirstPass
  import opened CodeAssigner
  import opened CodeBooks
  import opened Packing
  import opened Coverage
  import opened Dht
  import opened Headers
  import opened Program
  import opened Samples

  // ----- bits of bytes -----

  function Bit(b: bool): nat { if b then 1 else 0 }

  lemma {:induction false} ByteBits(b: seq<bool>)
    requires |b| == 8
    ensures BitsOf(Val(b), 8) == b
    ensures Val(b) == 128 * Bit(b[0]) + 64 * Bit(b[1]) + 32 * Bit(b[2]) + 16 * Bit(b[3])
                      + 8 * Bit(b[4]) + 4 * Bit(b[5]) + 2 * Bit(b[6]) + Bit(b[7])
  {
    hide BitsOf, Val, Bit;
    BitsOfVal(b);
    forall k | 0 <= k < 8 ensures Val(b[..k + 1]) == 2 * Val(b[..k]) + Bit(b[k]) { ValStep(b, k); }
    assert b[..8] == b && Val(b[..0]) == 0 by { ValNone(); }
    assert Val(b[..2]) == 2 * Val(b[..1]) + Bit(b[1]) && Val(b[..4]) == 2 * Val(b[..3]) + Bit(b[3]);
    assert Val(b[..6]) == 2 * Val(b[..5]) + Bit(b[5]) && Val(b[..8]) == 2 * Val(b[..7]) + Bit(b[7]);
  }

  lemma {:induction false} ValNone()
    ensures Val([]) == 0
  {}

  lemma {:induction false} ValStep(b: seq<bool>, k: nat)
    requires k < |b|
    ensures Val(b[..k + 1]) == 2 * Val(b[..k]) + Bit(b[k])
  {
    assert b[..k + 1][..k] == b[..k];
  }

  const NONE: seq<bool> := [false, false, false, false, false, false, false, false]

  /** The end-of-image marker, read as data. */
  const END: seq<bool> := [true, true, true, true, true, true, true, true,
                           true, true, false, true, true, false, false, true]

  /** Six 0 bits and padding. */
  const THREE: seq<bool> := [false, false, false, false, false, false, true, true]

  /** A byte that carries no stuffing. */
  lemma {:induction false} ByteAt(src: Src, p: nat, b: seq<bool>)
    requires ValidSrc(src) && p < src.end && |b| == 8 && src.buf[p] == Val(b)
    requires src.buf[p] == 0xff ==> src.buf[p + 1] != 0
    ensures Unstuff(src, p) == b + Unstuff(src, p + 1) && Reaches(src, p, p + 1)
  {
    hide Unstuff, BitsOf, Val;
    ByteBits(b);
    ReachesSelf(src, p);
    StepOver(src, p, p);
  }

  lemma {:induction false} EndAt(src: Src, e: nat)
    requires ValidSrc(src) && src.end == e + 2 && src.buf[e] == 0xff && src.buf[e + 1] == 0xd9
    ensures Unstuff(src, e) == END
  {
    hide Unstuff, Val;
    ByteBits(END[..8]);
    ByteBits(END[8..]);
    ByteAt(src, e, END[..8]);
    ByteAt(src, e + 1, END[8..]);
    UnstuffEnd(src, e + 2);
    assert END == END[..8] + (END[8..] + []);
  }

  lemma {:induction false} ThreeBits()
    ensures |THREE| == 8 && Val(THREE) == 3
  {
    hide Val;
    ByteBits(THREE);
  }

  lemma {:induction false} OneMcuData(src: Src, p: nat)
    requires ValidSrc(src) && src.end == p + 3 && src.buf[p..] == ONE_MCU + [0]
    ensures Unstuff(src, p) == THREE + END
  {
    hide Unstuff, THREE, END;
    var w := src.buf[p..];
    assert src.buf[p] == w[0] && src.buf[p + 1] == w[1] && src.buf[p + 2] == w[2];
    ThreeBits();
    ByteAt(src, p, THREE);
    EndAt(src, p + 1);
  }

  /** Two bytes of data, of which neither is 0xFF, and the end of the image. */
  lemma {:induction false} TwoByteData(src: Src, p: nat, a: seq<bool>, b: seq<bool>)
    requires ValidSrc(src) && src.end == p + 4 && |a| == |b| == 8 && Val(a) < 0xff && Val(b) < 0xff
    requires src.buf[p..p + 4] == [Val(a), Val(b), 0xff, 0xd9]
    ensures Unstuff(src, p) == a + b + END && Unstuff(src, p + 1) == b + END && Unstuff(src, p + 2) == END
    ensures Reaches(src, p, p + 1) && Reaches(src, p + 1, p + 2) && Reaches(src, p, p + 2)
    ensures src.buf[p + 1] == Val(b) && src.buf[p + 2] == 0xff && src.buf[p + 3] == 0xd9
  {
    hide Unstuff, Val, END, Reaches;
    var w := src.buf[p..p + 4];
    assert src.buf[p] == w[0] && src.buf[p + 1] == w[1] && src.buf[p + 2] == w[2] && src.buf[p + 3] == w[3];
    ByteAt(src, p, a);
    ByteAt(src, p + 1, b);
    EndAt(src, p + 2);
    ReachesTrans(src, p, p + 1, p + 2);
    assert a + (b + END) == a + b + END;
  }

  // ----- blocks -----

  /** A DC table of the examples. */
  predicate Dc(h: Huff) { (h == ONE || h == TWO) && Usable(h) }

  /** Every component uses such a DC table and the AC table with one symbol. */
  predicate Simple(env: Env) {
    && ValidEnv(env) && |env.dc| == |env.ac| == 3 && Usable(ONE) && env.mcu == [0, 1, 2]
    && forall c :: 0 <= c < 3 ==> Dc(env.dc[c]) && env.ac[c] == ONE
  }

  /** The input's tables. */
  function EnvAt(interval: nat): (env: Env)
    ensures |env.mcu| == 3 && env.interval == interval
  {
    Env([TWO, TWO, TWO], [ONE, ONE, ONE], [0, 1, 2], interval)
  }

  lemma {:induction false} EnvGood(interval: nat)
    ensures Simple(EnvAt(interval))
  {
    hide Usable;
    OneGood();
    TwoGood();
  }

  /** The tokens of an empty block. */
  function Empty(c: nat): seq<Tok> { [Sym(DcTable(c), 0), Sym(AcTable(c), 0)] }

  /** A 0 bit is the code of symbol 0. */
  lemma {:induction false} ZeroCode(src: Src, h: Huff, rd: Rd)
    requires ValidSrc(src) && Dc(h) && |rd.bits| <= 15 && |View(src, rd)| >= 9 && !View(src, rd)[0]
    ensures var c := ReadCode(src, h, rd, 9);
            c.Got? && c.sym == 0 && |c.rd.bits| <= 15 && View(src, c.rd) == View(src, rd)[1..]
  {
    hide View, ReadCode, Reaches, Usable;
    assert BitsOf(0, 0) == [] && BitsOf(0, 1) == [false];
    assert Codeword(h.sizes, 0) == [false] <= View(src, rd);
    ReadCodeHit(src, h, rd, 9, 0);
    ReadCodeView(src, h, rd, 9);
  }

  /** The bits 100 are the code of symbol 1. */
  lemma {:induction false} OneWord()
    ensures Ordered([1, 3]) && Codeword([1, 3], 1) == [true, false, false]
  {
    assert Code([1, 3], 1) == 4 by {
      hide BitsOf;
      assert Code([1, 3], 0) == 0 && Shl(1, 2) == 2 * Shl(1, 1);
    }
    assert BitsOf(4, 3) == [true, false, false] by {
      hide Code, Shl, Ordered;
      assert BitsOf(0, 0) == [] && BitsOf(1, 1) == [true] && BitsOf(2, 2) == BitsOf(1, 1) + [false];
    }
  }

  /** Two 1 bits start no code: the decoder reports symbol 0 and stays where it is. */
  lemma {:induction false} MissedCode(src: Src, h: Huff, rd: Rd)
    requires ValidSrc(src) && Dc(h) && |View(src, rd)| >= 16 && View(src, rd)[0] && View(src, rd)[1]
    ensures var c := ReadCode(src, h, rd, 9); c.Got? && c.sym == 0 && View(src, c.rd) == View(src, rd)
  {
    hide View, ReadCode, Usable;
    assert BitsOf(0, 0) == [] && BitsOf(0, 1) == [false];
    assert Codeword(h.sizes, 0)[0] == false;
    OneWord();
    ReadCodeMiss(src, h, rd, 9);
  }

  /** Two 0 bits are an empty block. */
  lemma {:induction false} EmptyBlock(src: Src, dc: Huff, c: nat, rd: Rd, prev: int)
    requires ValidSrc(src) && Dc(dc) && Dc(ONE) && |rd.bits| <= 15 && |View(src, rd)| >= 10
    requires !View(src, rd)[0] && !View(src, rd)[1]
    ensures var u := Unit(src, dc, ONE, c, rd, prev);
            && u.ok && u.toks == Empty(c) && u.dct == ZeroBlock(prev) && u.prev == prev
            && |u.rd.bits| <= 15 && View(src, u.rd) == View(src, rd)[2..]
  {
    hide ReadCode, Usable, ReadBits, ZeroBlock, View;
    ZeroCode(src, dc, rd);
    var rd1 := ReadCode(src, dc, rd, 9).rd;
    ZeroCode(src, ONE, rd1);
    assert View(src, rd)[1..][1..] == View(src, rd)[2..];
    UnitParts(src, dc, ONE, c, rd, prev);
    AcRunStep(src, ONE, AcTable(c), rd1, 1, ZeroBlock(prev));
  }

  /** So, to the decoder, is what starts with two 1 bits, but it uses none of them. */
  lemma {:induction false} MissedBlock(src: Src, dc: Huff, c: nat, rd: Rd, prev: int)
    requires ValidSrc(src) && Dc(dc) && Dc(ONE) && |View(src, rd)| >= 16 && View(src, rd)[0] && View(src, rd)[1]
    ensures var u := Unit(src, dc, ONE, c, rd, prev);
            && u.ok && u.toks == Empty(c) && u.dct == ZeroBlock(prev) && u.prev == prev
            && View(src, u.rd) == View(src, rd)
  {
    hide ReadCode, Usable, ReadBits, ZeroBlock, View;
    MissedCode(src, dc, rd);
    var rd1 := ReadCode(src, dc, rd, 9).rd;
    MissedCode(src, ONE, rd1);
    UnitParts(src, dc, ONE, c, rd, prev);
    AcRunStep(src, ONE, AcTable(c), rd1, 1, ZeroBlock(prev));
  }

  /** The bits 100 1 0 are a block with a DC difference of 1. */
  lemma {:induction false} StepBlock(src: Src, rd: Rd)
    requires ValidSrc(src) && Dc(TWO) && Dc(ONE) && |rd.bits| <= 15 && |View(src, rd)| >= 14
    requires View(src, rd)[..5] == [true, false, false, true, false]
    ensures var u := Unit(src, TWO, ONE, 0, rd, 0);
            && u.ok && u.toks == [Sym(0, 1), Mag([true]), Sym(2, 0)] && u.dct == ZeroBlock(1) && u.prev == 1
            && |u.rd.bits| <= 15 && View(src, u.rd) == View(src, rd)[5..]
  {
    hide ReadCode, Usable, ReadBits, ZeroBlock, View, Codeword, Reaches;
    var v := View(src, rd);
    OneWord();
    assert v[..3] == v[..5][..3] && v[3] == v[..5][3] && v[4] == v[..5][4];
    assert Codeword(TWO.sizes, 1) <= v;
    ReadCodeHit(src, TWO, rd, 9, 1);
    OneRead(src, rd);
    var rd1 := ReadCode(src, TWO, rd, 9).rd;
    ReadBitsView(src, rd1, 1);
    assert v[3..][..1] == [true] && v[3..][1..] == v[4..];
    assert Val([true]) == 1 && Extend(1, 1) == 1 by { ValStep([true], 0); assert [true][..1] == [true]; }
    var rd2 := ReadBits(src, rd1, 1).value.1;
    ZeroCode(src, ONE, rd2);
    assert v[4..][1..] == v[5..];
    UnitParts(src, TWO, ONE, 0, rd, 0);
    AcRunStep(src, ONE, 2, rd2, 1, ZeroBlock(1));
  }

  lemma {:induction false} OneRead(src: Src, rd: Rd)
    requires ValidSrc(src) && Dc(TWO)
    requires var c := ReadCode(src, TWO, rd, 9); c.Got? && c.sym == 1 && c.len == 3
    ensures |View(src, rd)| >= 3 && View(src, ReadCode(src, TWO, rd, 9).rd) == View(src, rd)[3..]
  {
    hide ReadCode, Usable, View, Reaches;
    ReadCodeView(src, TWO, rd, 9);
  }

  // ----- MCUs -----

  /** The blocks of an MCU without differences, and the tokens of empty ones. */
  function Flat(prev: seq<int>): seq<seq<int>>
    requires |prev| == 3
  {
    [ZeroBlock(prev[0]), ZeroBlock(prev[1]), ZeroBlock(prev[2])]
  }

  const MCU: seq<Tok> := Empty(0) + Empty(1) + Empty(2)

  function Flats(prev: seq<int>, n: nat): seq<seq<int>>
    requires |prev| == 3
  {
    if n == 0 then [] else Flat(prev) + Flats(prev, n - 1)
  }

  function Blacks(n: nat): seq<seq<int>> { Flats([0, 0, 0], n) }
  function Mcus(n: nat): seq<Tok> { if n == 0 then [] else MCU + Mcus(n - 1) }

  /** One block, and the components behind it. */
  lemma {:induction false} UnitsBehind(src: Src, env: Env, comps: seq<nat>, st: St)
    requires ValidSrc(src) && Simple(env) && ValidSt(st) && comps != []
    requires forall i :: 0 <= i < |comps| ==> comps[i] < 3
    requires var u := UnitIn(src, env, comps[0], st); u.ok && u.prev == st.prev[comps[0]]
    ensures var u, r := UnitIn(src, env, comps[0], st), Units(src, env, comps, st);
            var q := Units(src, env, comps[1..], st.(rd := u.rd));
            r.ok == q.ok && r.toks == u.toks + q.toks && r.blocks == [u.dct] + q.blocks
            && (q.ok ==> r.st == q.st)
  {
    hide Unit, Units, ValidEnv, Dc;
    UnitsStep(src, env, comps, st);
    var u := UnitIn(src, env, comps[0], st);
    assert st.prev[comps[0] := u.prev] == st.prev;
    assert UnitSt(st, comps[0], u) == st.(rd := u.rd);
  }

  /** Six 0 bits are the blocks of an MCU. */
  lemma {:induction false} EmptyUnits(src: Src, env: Env, st: St)
    requires ValidSrc(src) && Simple(env) && ValidSt(st)
    requires |st.rd.bits| <= 15 && |View(src, st.rd)| >= 16 && forall i :: 0 <= i < 6 ==> !View(src, st.rd)[i]
    ensures var r := Units(src, env, [0, 1, 2], st);
            && r.ok && r.blocks == Flat(st.prev) && r.toks == MCU && r.st == st.(rd := r.st.rd)
            && |r.st.rd.bits| <= 15 && View(src, r.st.rd) == View(src, st.rd)[6..]
  {
    hide Unit, Units, ValidEnv, Usable, ZeroBlock, Empty, View;
    var v := View(src, st.rd);
    EmptyBlock(src, env.dc[0], 0, st.rd, st.prev[0]);
    UnitsBehind(src, env, [0, 1, 2], st);
    var st1 := st.(rd := UnitIn(src, env, 0, st).rd);
    EmptyBlock(src, env.dc[1], 1, st1.rd, st.prev[1]);
    UnitsBehind(src, env, [1, 2], st1);
    var st2 := st.(rd := UnitIn(src, env, 1, st1).rd);
    assert v[2..][2..] == v[4..];
    EmptyBlock(src, env.dc[2], 2, st2.rd, st.prev[2]);
    UnitsBehind(src, env, [2], st2);
    assert v[4..][2..] == v[6..];
    UnitsEmpty(src, env, [], st.(rd := UnitIn(src, env, 2, st2).rd));
    assert [0, 1, 2][1..] == [1, 2] && [1, 2][1..] == [2] && [2][1..] == [];
  }

  /** Two 1 bits look like an MCU of empty blocks, too. */
  lemma {:induction false} MissedUnits(src: Src, env: Env, st: St)
    requires ValidSrc(src) && Simple(env) && ValidSt(st)
    requires |View(src, st.rd)| >= 16 && View(src, st.rd)[0] && View(src, st.rd)[1]
    ensures var r := Units(src, env, [0, 1, 2], st);
            && r.ok && r.blocks == Flat(st.prev) && r.toks == MCU && r.st == st.(rd := r.st.rd)
            && View(src, r.st.rd) == View(src, st.rd)
  {
    hide Unit, Units, ValidEnv, Usable, ZeroBlock, Empty, View;
    MissedBlock(src, env.dc[0], 0, st.rd, st.prev[0]);
    UnitsBehind(src, env, [0, 1, 2], st);
    var st1 := st.(rd := UnitIn(src, env, 0, st).rd);
    MissedBlock(src, env.dc[1], 1, st1.rd, st.prev[1]);
    UnitsBehind(src, env, [1, 2], st1);
    var st2 := st.(rd := UnitIn(src, env, 1, st1).rd);
    MissedBlock(src, env.dc[2], 2, st2.rd, st.prev[2]);
    UnitsBehind(src, env, [2], st2);
    UnitsEmpty(src, env, [], st.(rd := UnitIn(src, env, 2, st2).rd));
    assert [0, 1, 2][1..] == [1, 2] && [1, 2][1..] == [2] && [2][1..] == [];
  }

  /** Four 0 bits and two 1 bits: the last block is no block, but looks like one. */
  lemma {:induction false} MixedUnits(src: Src, env: Env, st: St)
    requires ValidSrc(src) && Simple(env) && ValidSt(st) && |st.rd.bits| <= 15 && |View(src, st.rd)| >= 20
    requires (forall i :: 0 <= i < 4 ==> !View(src, st.rd)[i]) && View(src, st.rd)[4] && View(src, st.rd)[5]
    ensures var r := Units(src, env, [0, 1, 2], st);
            && r.ok && r.blocks == Flat(st.prev) && View(src, r.st.rd) == View(src, st.rd)[4..]
  {
    hide Unit, Units, ValidEnv, Usable, ZeroBlock, Empty, View;
    var v := View(src, st.rd);
    EmptyBlock(src, env.dc[0], 0, st.rd, st.prev[0]);
    UnitsBehind(src, env, [0, 1, 2], st);
    var st1 := st.(rd := UnitIn(src, env, 0, st).rd);
    EmptyBlock(src, env.dc[1], 1, st1.rd, st.prev[1]);
    UnitsBehind(src, env, [1, 2], st1);
    var st2 := st.(rd := UnitIn(src, env, 1, st1).rd);
    assert v[2..][2..] == v[4..];
    MissedBlock(src, env.dc[2], 2, st2.rd, st.prev[2]);
    UnitsBehind(src, env, [2], st2);
    UnitsEmpty(src, env, [], st.(rd := UnitIn(src, env, 2, st2).rd));
    assert [0, 1, 2][1..] == [1, 2] && [1, 2][1..] == [2] && [2][1..] == [];
  }

  /** An MCU whose first block has a DC difference of 1. */
  const STEP: seq<Tok> := [Sym(0, 1), Mag([true]), Sym(2, 0)] + Empty(1) + Empty(2)

  lemma {:induction false} StepUnits(src: Src, env: Env, st: St)
    requires ValidSrc(src) && Simple(env) && env.dc[0] == TWO && ValidSt(st) && st.prev == [0, 0, 0]
    requires |st.rd.bits| <= 15 && |View(src, st.rd)| >= 20
    requires View(src, st.rd)[..9] == [true, false, false, true, false, false, false, false, false]
    ensures var r := Units(src, env, [0, 1, 2], st);
            && r.ok && r.blocks == Flat([1, 0, 0]) && r.toks == STEP
            && r.st == st.(rd := r.st.rd, prev := [1, 0, 0])
            && |r.st.rd.bits| <= 15 && View(src, r.st.rd) == View(src, st.rd)[9..]
  {
    hide Unit, Units, ValidEnv, Usable, ZeroBlock, Empty, View;
    var v := View(src, st.rd);
    assert v[..5] == v[..9][..5] && forall i :: 5 <= i < 9 ==> v[i] == v[..9][i];
    StepBlock(src, st.rd);
    UnitsStep(src, env, [0, 1, 2], st);
    var st1 := UnitSt(st, 0, UnitIn(src, env, 0, st));
    assert st1 == st.(rd := st1.rd, prev := [1, 0, 0]);
    EmptyBlock(src, env.dc[1], 1, st1.rd, 0);
    UnitsBehind(src, env, [1, 2], st1);
    var st2 := st1.(rd := UnitIn(src, env, 1, st1).rd);
    assert v[5..][2..] == v[7..];
    EmptyBlock(src, env.dc[2], 2, st2.rd, 0);
    UnitsBehind(src, env, [2], st2);
    assert v[7..][2..] == v[9..];
    UnitsEmpty(src, env, [], st1.(rd := UnitIn(src, env, 2, st2).rd));
    assert [0, 1, 2][1..] == [1, 2] && [1, 2][1..] == [2] && [2][1..] == [];
  }

  // ----- scans -----

  /** 6 n 0 bits are n MCUs. */
  lemma {:induction false} EmptyRun(src: Src, env: Env, n: nat, st: St)
    requires ValidSrc(src) && Simple(env) && ValidSt(st)
    requires |st.rd.bits| <= 15 && |View(src, st.rd)| >= 10 + 6 * n
    requires forall i :: 0 <= i < 6 * n ==> !View(src, st.rd)[i]
    ensures var r := Run(src, env, n, st);
            && r.ok && r.blocks == Flats(st.prev, n) && r.toks == Mcus(n)
            && |r.st.rd.bits| <= 15 && View(src, r.st.rd) == View(src, st.rd)[6 * n..]
    decreases n
  {
    hide Units, Usable, ValidEnv, Run, View, Dc, Flat, MCU;
    if n == 0 {
      RunEmpty(src, env, st);
    } else {
      EmptyUnits(src, env, st);
      RunStep(src, env, n, st);
      EmptyRun(src, env, n - 1, Units(src, env, [0, 1, 2], st).st);
    }
  }

  /** 6 a of them and two 1 bits are as many MCUs as are asked for. */
  lemma {:induction false} EmptyScan(src: Src, env: Env, a: nat, b: nat, st: St)
    requires ValidSrc(src) && Simple(env) && ValidSt(st) && st.togo <= 0 && (a > 0 ==> |st.rd.bits| <= 15)
    requires var v := View(src, st.rd);
             |v| >= 6 * a + 16 && (forall i :: 0 <= i < 6 * a ==> !v[i]) && v[6 * a] && v[6 * a + 1]
    ensures var r := Scan(src, env, a + b, st); r.ok && r.toks == Mcus(a + b)
    decreases a + b
  {
    hide Units, Usable, ValidEnv, Scan, Mcu, View, Dc, Flat, MCU;
    ScanUnfold(src, env, a + b, st);
    if a + b > 0 {
      var v := View(src, st.rd);
      McuInside(src, env, st);
      if a > 0 {
        EmptyUnits(src, env, st);
        assert forall i :: 0 <= i < 6 * (a - 1) ==> v[6..][i] == v[6 + i];
        EmptyScan(src, env, a - 1, b, Mcu(src, env, st).st);
      } else {
        MissedUnits(src, env, st);
        EmptyScan(src, env, 0, b - 1, Mcu(src, env, st).st);
      }
    }
  }

  /** An MCU with a difference, and then others. */
  lemma {:induction false} StepScan(src: Src, env: Env, n: nat, st: St) returns (st1: St)
    requires ValidSrc(src) && Simple(env) && env.dc[0] == TWO && ValidSt(st) && st.prev == [0, 0, 0] && st.togo <= 0
    requires |st.rd.bits| <= 15 && |View(src, st.rd)| >= 20
    requires View(src, st.rd)[..9] == [true, false, false, true, false, false, false, false, false]
    ensures ValidSt(st1) && st1.prev == [1, 0, 0] && st1.togo <= 0
    ensures |st1.rd.bits| <= 15 && View(src, st1.rd) == View(src, st.rd)[9..]
    ensures var r, q := Scan(src, env, n + 1, st), Scan(src, env, n, st1);
            r.ok == q.ok && r.toks == STEP + q.toks && r.blocks == Flat([1, 0, 0]) + q.blocks
  {
    hide Units, Usable, ValidEnv, Scan, Mcu, View, Dc, Flat, STEP;
    StepUnits(src, env, st);
    McuInside(src, env, st);
    ScanUnfold(src, env, n + 1, st);
    st1 := Mcu(src, env, st).st;
  }

  /** The scans of a file with such a header. */
  lemma {:induction false} ScansAre(src: Src, n: nat, interval: nat, p: nat)
    requires ValidSrc(src) && 1 <= n <= 2 && Header(src.buf, 2, BLANK) == Parsed(Bound(8 * n, interval, p))
    ensures Accepted(src) && HdOf(src) == Bound(8 * n, interval, p) && Simple(EnvAt(interval)) && McuCount(src) == n
    ensures FirstScan(src) == Scan(src, EnvAt(interval), 2 * n, Resync(p, interval, 0))
    ensures SecondScan(src) == Scan(src, EnvAt(interval), n, Resync(p, interval, 0))
    ensures ScanOf(src, HdOf(src), 1) == Scan(src, EnvAt(interval), 1, Resync(p, interval, 0))
  {
    hide Header, Good, Usable, Scan;
    EnvGood(interval);
    OneGood();
    TwoGood();
    assert EnvOf(Bound(8 * n, interval, p), PLAIN.mcu) == EnvAt(interval);
    assert CeilDiv(8, 8) == 1 && CeilDiv(9, 8) == 2 && CeilDiv(16, 8) == 2;
    assert SecondCount(8, 8 * n, PLAIN) == n && FirstCount(8, 8 * n, PLAIN) == 2 * n;
  }

  /** A file with such a header and enough zeros is complete and shows black. */
  lemma {:induction false} ShowsBlack(src: Src, n: nat, interval: nat, p: nat)
    requires ValidSrc(src) && 1 <= n <= 2 && Header(src.buf, 2, BLANK) == Parsed(Bound(8 * n, interval, p))
    requires |Unstuff(src, p)| >= 10 + 6 * n && forall i :: 0 <= i < 6 * n ==> !Unstuff(src, p)[i]
    requires interval == 0 || n < interval
    ensures Accepted(src) && HdOf(src) == Bound(8 * n, interval, p) && McuCount(src) == n && Complete(src)
    ensures DecodeFile(src) == Some(Picture(8, 8 * n, [1, 1, 1], [1, 1, 1], Blacks(n)))
    ensures SecondScan(src).toks == Mcus(n) && SecondScan(src).blocks == Blacks(n) && NoRst(SecondScan(src).toks)
  {
    hide Header, Usable, Scan, Run, Accepted, HdOf, SecondScan, FirstScan, ScanOf, DecodeFile, EnvAt, ValidEnv,
         Unstuff, McuCount, Flats, Mcus, Complete, Dc;
    var st := Resync(p, interval, 0);
    ScansAre(src, n, interval, p);
    assert View(src, st.rd) == Unstuff(src, p) by { FreshView(src, p); }
    EmptyRun(src, EnvAt(interval), n, st);
    FreeScan(src, EnvAt(interval), n, st);
    OnwardStart(src, p);
    RunOnward(src, EnvAt(interval), n, st, p);
    CompleteScan(src);
  }

  lemma {:induction false} FreshView(src: Src, start: nat)
    requires ValidSrc(src)
    ensures View(src, Rd(start, [])) == Unstuff(src, start)
  {
    hide Unstuff;
  }

  /** One MCU and a marker. */
  lemma {:induction false} IntervalData(src: Src, start: nat, rst: nat)
    requires ValidSrc(src) && start + 3 <= src.end && rst < 8 && Simple(EnvAt(1))
    requires src.buf[start] == 3 && src.buf[start + 1] == 0xff && src.buf[start + 2] in {0xd0, 0xd9}
    requires |Unstuff(src, start + 1)| >= 16
    ensures var r := Run(src, EnvAt(1), 1, Resync(start, 1, rst));
            && r.ok && r.blocks == Blacks(1) && r.toks == Mcus(1)
            && Ends(src, start, r.st.rd, [true, true], start + 1, start + 2)
  {
    hide Run, ValidEnv, Usable, View, Unstuff, Reaches, Flats, Mcus, EnvAt, Dc;
    var st := Resync(start, 1, rst);
    var v := Unstuff(src, start);
    ThreeBits();
    ByteAt(src, start, THREE);
    assert v[6..] == [true, true] + Unstuff(src, start + 1);
    assert View(src, st.rd) == v by { FreshView(src, start); }
    EmptyRun(src, EnvAt(1), 1, st);
  }

  lemma {:induction false} ByteAhead(src: Src, p: nat)
    requires ValidSrc(src) && p < src.end && (src.buf[p] == 0xff ==> src.buf[p + 1] != 0)
    ensures |Unstuff(src, p)| == 8 + |Unstuff(src, p + 1)|
  {
    hide BitsOf;
    assert Next(src, p) == p + 1;
  }

  lemma {:induction false} RestartingData(src: Src)
    requires ValidSrc(src) && src.end == 88 && src.buf[82..] == RST_MCUS + [0]
    ensures src.buf[82] == 3 && src.buf[83] == 0xff && src.buf[84] == 0xd0 && |Unstuff(src, 83)| >= 16
    ensures src.buf[85] == 3 && src.buf[86] == 0xff && src.buf[87] == 0xd9 && |Unstuff(src, 86)| >= 16
  {
    hide Unstuff;
    var w := src.buf[82..];
    assert src.buf[82] == w[0] && src.buf[83] == w[1] && src.buf[84] == w[2];
    assert src.buf[85] == w[3] && src.buf[86] == w[4] && src.buf[87] == w[5];
    ByteAhead(src, 87);
    ByteAhead(src, 86);
    ByteAhead(src, 85);
    ByteAhead(src, 84);
    ByteAhead(src, 83);
  }

  /** Both intervals are well formed, and the marker between them is passed. */
  lemma {:induction false} RestartingScan(src: Src)
    requires ValidSrc(src) && src.end == 88 && src.buf[82..] == RST_MCUS + [0] && Simple(EnvAt(1))
    ensures WellFormed(src, EnvAt(1), 2, 82, 0)
    ensures var r := Scan(src, EnvAt(1), 2, Resync(82, 1, 0));
            r.blocks == Blacks(2) && r.toks == Mcus(1) + [Rst(0)] + Mcus(1)
  {
    hide Run, ValidEnv, Usable, View, Unstuff, Reaches, Scan, Ends, Forward, Dc, Blacks, Mcus, EnvAt;
    RestartingData(src);
    var one, two := Resync(82, 1, 0), Resync(85, 1, 1);
    IntervalData(src, 82, 0);
    IntervalData(src, 85, 1);
    assert WellFormed(src, EnvAt(1), 1, 85, 1);
    OnwardStart(src, 82);
    OnwardStart(src, 85);
    ToEnd(src, EnvAt(1), 1, two, 85, [true, true], 86, 87);
    ThroughInterval(src, EnvAt(1), 1, 1, one, 82, [true, true], 83, 84);
    TwoBlacks();
  }

  lemma {:induction false} TwoBlacks()
    ensures Blacks(1) + Blacks(1) == Blacks(2)
  {
    hide Flat;
  }

  // ----- what is counted, and the tables for it -----

  /** The first pass reads a second MCU off the end-of-image marker. */
  lemma {:induction false} PlainCounted(src: Src)
    requires src == Loaded(PlainFile())
    ensures Accepted(src) && FirstScan(src).toks == Mcus(2)
  {
    hide Header, Usable, PlainFile, Scan, Accepted, HdOf, FirstScan, SecondScan, ScanOf, EnvAt, ValidEnv, Dc,
         FieldsWithin, FirstDht, Frame, Unstuff, Mcus;
    PlainHeader();
    OneMcuData(src, 76);
    ScansAre(src, 1, 0, 76);
    FreshView(src, 76);
    EmptyScan(src, EnvAt(0), 1, 1, Resync(76, 0, 0));
  }

  /** Only symbols below k, in the four tables. */
  predicate Below(toks: seq<Tok>, k: nat) {
    forall i :: 0 <= i < |toks| && toks[i].Sym? ==> toks[i].val < k && toks[i].table < 4
  }

  lemma {:induction false} CountBelow(toks: seq<Tok>, k: nat, c: nat, v: nat)
    requires Below(toks, k)
    ensures Count(toks, c, v) <= |toks| && (v >= k ==> Count(toks, c, v) == 0)
  {
    if toks != [] { CountBelow(toks[..|toks| - 1], k, c, v); }
  }

  lemma {:induction false} UsedBelow(toks: seq<Tok>, k: nat, c: nat, n: nat)
    requires Below(toks, k)
    ensures |Used(toks, c, n)| <= k && |Used(toks, c, n)| <= n
  {
    hide Below, Count;
    if n > 0 {
      UsedBelow(toks, k, c, n - 1);
      CountBelow(toks, k, c, n - 1);
    }
  }

  lemma {:induction false} BelowFits(seen: seq<Tok>)
    requires Below(seen, 2) && |seen| <= 0x100_0000
    ensures SymbolsFit(seen)
  {
    hide Used, Below;
    forall c: nat | c < 4 ensures |Used(seen, c, 256)| <= 2 { UsedBelow(seen, 2, c, 256); }
    forall c: nat, v: nat | c < 4 && v < 256 ensures Count(seen, c, v) <= 0x100_0000 { CountBelow(seen, 2, c, v); }
  }

  const ONES: seq<Huff> := [ONE, ONE, ONE, ONE]
  const TWOS: seq<Huff> := [TWO, ONE, ONE, ONE]

  lemma {:induction false} McuSymbols()
    ensures Below(MCU, 1) && |MCU| == 6 && NoRst(MCU) && (forall c: nat :: c < 4 ==> Sym(c, 0) in MCU)
    ensures forall i :: 0 <= i < |MCU| ==> MCU[i].Sym? && MCU[i].table < 4
  {
    assert MCU[0] == Sym(0, 0) && MCU[1] == Sym(2, 0) && MCU[2] == Sym(1, 0) && MCU[3] == Sym(3, 0);
  }

  lemma {:induction false} McusSymbols(n: nat)
    ensures Below(Mcus(n), 1) && |Mcus(n)| == 6 * n && NoRst(Mcus(n))
    ensures n > 0 ==> forall c: nat :: c < 4 ==> Sym(c, 0) in Mcus(n)
    ensures forall i :: 0 <= i < |Mcus(n)| ==> Mcus(n)[i].Sym? && Mcus(n)[i].table < 4
  {
    hide MCU;
    if n > 0 {
      McuSymbols();
      McusSymbols(n - 1);
    }
  }

  /** The table with one symbol is what the assigner makes of these counts, and nothing else is. */
  lemma {:induction false} OneAssigned(seen: seq<Tok>, c: nat)
    requires Sym(c, 0) in seen && forall v: nat :: v > 0 ==> Count(seen, c, v) == 0
    ensures Assigned(ONE, seen, c)
  {
    hide NewSizes, Count;
    FirstSize(1);
    forall v: nat ensures v in ONE.vals <==> v < 256 && Count(seen, c, v) > 0 {
      if v == 0 { Counted(seen, c, 0); }
    }
    assert NewSizes(1) == [1];
  }

  lemma {:induction false} FirstDiffer(s: seq<nat>)
    requires Distinct(s)
    ensures |s| > 1 ==> s[0] != s[1]
    ensures |s| > 2 ==> s[0] != s[2] && s[1] != s[2]
  {}

  lemma {:induction false} OneUnique(h: Huff, seen: seq<Tok>, c: nat)
    requires Assigned(h, seen, c) && Assigned(ONE, seen, c)
    ensures h == ONE
  {
    hide NewSizes, Count;
    assert 0 in ONE.vals && 0 in h.vals;
    FirstDiffer(h.vals);
    forall i | 0 <= i < |h.vals| ensures h.vals[i] == 0 { assert h.vals[i] in h.vals; }
    assert h.vals == [0];
  }

  /** So is the table with two symbols where 0 is the more frequent one. */
  lemma {:induction false} TwoAssigned(seen: seq<Tok>, c: nat)
    requires Count(seen, c, 0) > Count(seen, c, 1) > 0 && forall v: nat :: v > 1 ==> Count(seen, c, v) == 0
    ensures Assigned(TWO, seen, c)
  {
    hide Count;
    NewSizeCases(0);
    NewSizeCases(1);
    assert NewSizes(2) == [1, 3];
    forall v: nat ensures v in TWO.vals <==> v < 256 && Count(seen, c, v) > 0 {
      assert v in TWO.vals <==> v == 0 || v == 1;
    }
  }

  lemma {:induction false} TwoUnique(h: Huff, seen: seq<Tok>, c: nat)
    requires Assigned(h, seen, c) && Assigned(TWO, seen, c) && Count(seen, c, 0) > Count(seen, c, 1)
    ensures h == TWO
  {
    hide NewSizes, Count;
    assert TWO.vals[0] in TWO.vals && TWO.vals[1] in TWO.vals;
    assert 0 in h.vals && 1 in h.vals;
    FirstDiffer(h.vals);
    forall i | 0 <= i < |h.vals| ensures h.vals[i] == 0 || h.vals[i] == 1 {
      assert h.vals[i] in h.vals;
      assert h.vals[i] in TWO.vals;
    }
    assert h.vals == [0, 1];
  }

  /** The tables for n MCUs of empty blocks. */
  lemma {:induction false} OnesBook(n: nat)
    requires n > 0
    ensures Book(ONES, Mcus(n)) && forall codes: seq<Huff> :: Book(codes, Mcus(n)) ==> codes == ONES
  {
    hide Assigned, Mcus, Below, Count;
    McusSymbols(n);
    var seen := Mcus(n);
    forall c: nat | c < 4 ensures Assigned(ONES[c], seen, c) {
      forall v: nat | v > 0 ensures Count(seen, c, v) == 0 { CountBelow(seen, 1, c, v); }
      OneAssigned(seen, c);
    }
    forall codes: seq<Huff> | Book(codes, seen) ensures codes == ONES {
      forall c: nat | c < 4 ensures codes[c] == ONES[c] {
        assert ONES[c] == ONE;
        OneUnique(codes[c], seen, c);
      }
    }
  }

  lemma {:induction false} OnesGood()
    ensures Fits(ONES) && Writable(ONES) && UsableCodes(ONES)
  {
    hide Good, Listable, Usable;
    OneGood();
  }

  lemma {:induction false} TwosGood()
    ensures Fits(TWOS) && Writable(TWOS) && UsableCodes(TWOS)
  {
    hide Good, Listable, Usable;
    OneGood();
    TwoGood();
  }

  /** Tables that a file of n MCUs of zeros can be rewritten with. */
  lemma {:induction false} OnesServe(src: Src, n: nat)
    requires Accepted(src) && SecondScan(src).toks == Mcus(n)
    ensures Serves(ONES, src)
  {
    hide Accepted, SecondScan, Fits, Writable, Good, Mcus, UsableCodes;
    OneGood();
    OnesGood();
    McusSymbols(n);
    assert 0 in ONE.vals;
  }

  lemma {:induction false} SeenOne(src: Src)
    requires Accepted(src)
    ensures Seen([src]) == FirstScan(src).toks
  {
    hide Accepted, FirstScan;
    assert [src][..0] == [];
    assert Seen([]) == [];
    assert [] + FirstScan(src).toks == FirstScan(src).toks;
  }

  // ----- what is kept -----

  /** The plain file is complete, keeps its frame, and shows black. */
  lemma {:induction false} PlainShows(src: Src)
    requires src == Loaded(PlainFile())
    ensures Accepted(src) && Modelled(src) && KeepsFrame(src) && FieldsCopied(src) && Complete(src)
    ensures DecodeFile(src) == Some(Picture(8, 8, [1, 1, 1], [1, 1, 1], Blacks(1)))
  {
    hide Header, FirstDht, Frame, FieldsWithin, PlainFile, Tabled, DecodeFile, Unstuff, SecondScan, Mcus, NoRst,
         McuCount, Blacks, Complete;
    PlainHeader();
    OneMcuData(src, 76);
    ShowsBlack(src, 1, 0, 76);
  }

  /** The plain file meets everything that the main results ask for. */
  lemma {:induction false} PlainMeetsAll() returns (src: Src)
    ensures Modelled(src) && KeepsFrame(src) && Complete(src)
    ensures SymbolsFit(Seen([src])) && Book(ONES, Seen([src])) && Fits(ONES)
    ensures FrameSurvives(src, ONES) && HeaderSuits(src, ONES)
  {
    hide PlainFile, DecodeFile, Accepted, FirstScan, SecondScan, KeepsFrame, FrameSurvives, HeaderSuits, Modelled,
         FieldsCopied, Mcus, SymbolsFit, Book, Fits, Writable, Seen, Complete, Below, UsableCodes;
    src := Loaded(PlainFile());
    PlainShows(src);
    PlainCounted(src);
    OnesGood();
    SeenOne(src);
    OnesBook(2);
    McusFit(2);
    CopiedSurvives(src, ONES);
    SurvivingFrame(src, ONES);
  }

  lemma {:induction false} McusFit(n: nat)
    requires n <= 4
    ensures SymbolsFit(Mcus(n))
  {
    hide SymbolsFit, Mcus;
    McusSymbols(n);
    BelowFits(Mcus(n));
  }

  lemma {:induction false} RestartingCovered()
    ensures AllCovered(ONES, Mcus(1) + [Rst(0)] + Mcus(1)) && !NoRst(Mcus(1) + [Rst(0)] + Mcus(1))
  {
    hide Mcus, MCU;
    McusSymbols(1);
    var n := |Mcus(1)|;
    assert (Mcus(1) + [Rst(0)] + Mcus(1))[n] == Rst(0);
    assert 0 in ONE.vals;
  }

  lemma {:induction false} RestartingShows(src: Src)
    requires src == Loaded(Restarting())
    ensures Accepted(src) && Modelled(src) && FieldsCopied(src) && KeepsFrame(src) && DataWellFormed(src)
    ensures Serves(ONES, src) && !NoRst(SecondScan(src).toks) && Complete(src)
    ensures DecodeFile(src) == Some(Picture(8, 16, [1, 1, 1], [1, 1, 1], Blacks(2)))
  {
    hide Header, FirstDht, Frame, FieldsWithin, Restarting, Tabled, DecodeFile, Unstuff, Scan, Good, NoRst, Mcus,
         Flats, WellFormed, AllCovered, Fits, Writable, UsableCodes, SmallVals, Complete, Dc;
    RestartingHeader();
    ScansAre(src, 2, 1, 82);
    OneGood();
    TwoGood();
    RestartingScan(src);
    assert EnvOf(Bound(16, 1, 82), PLAIN.mcu) == EnvAt(1);
    WellFormedComplete(src);
    CompleteScan(src);
    RestartingCovered();
    OnesGood();
  }

  /** A file with a restart marker between its two MCUs: its data is well formed, so it shows them, and with
      whatever fitting tables it is rewritten, so does the output. */
  lemma {:induction false} RestartKept() returns (src: Src)
    ensures Modelled(src) && Serves(ONES, src) && DataWellFormed(src) && !NoRst(SecondScan(src).toks)
    ensures DecodeFile(src) == Some(Picture(8, 16, [1, 1, 1], [1, 1, 1], Blacks(2)))
    ensures forall codes: seq<Huff>, slack: seq<byte> :: Serves(codes, src) && |slack| > 0 ==>
              Complete(Output(src, codes, slack)) && DecodeFile(Output(src, codes, slack)) == DecodeFile(src)
  {
    hide Restarting, Tabled, DecodeFile, Accepted, Modelled, Serves, Output, KeepsFrame, FrameSurvives, HeaderSuits,
         HdOf, SecondScan, NoRst, DataWellFormed, Complete;
    src := Loaded(Restarting());
    RestartingShows(src);
    forall codes: seq<Huff>, slack: seq<byte> | Serves(codes, src) && |slack| > 0
      ensures Complete(Output(src, codes, slack)) && DecodeFile(Output(src, codes, slack)) == DecodeFile(src)
    {
      ServesParts(src, codes);
      CopiedSurvives(src, codes);
      SurvivingFrame(src, codes);
      RewrittenDecodes(src, codes, slack);
    }
  }

  // ----- what is lost -----

  lemma {:induction false} LateModelled(src: Src)
    requires Accepted(src) && |src.buf| >= 2
    ensures Modelled(src)
  {}

  lemma {:induction false} LateFrameShows(src: Src)
    requires src == Loaded(LateFrame())
    ensures Accepted(src) && HdOf(src) == Bound(8, 0, 76) && FieldsCopied(src) && OldFrame(src) == BLANK
    ensures DecodeFile(src) == Some(Picture(8, 8, [1, 1, 1], [1, 1, 1], Blacks(1))) && Serves(ONES, src)
    ensures Complete(src)
  {
    hide Header, FirstDht, Frame, FieldsWithin, LateFrame, Tabled, DecodeFile, Serves, Unstuff, SecondScan, Mcus,
         Complete, Flats, McuCount;
    LateFrameHeader();
    OneMcuData(src, 76);
    ShowsBlack(src, 1, 0, 76);
    OnesServe(src, 1);
  }

  /** A frame header behind the first DHT is lost: there is a file that the program rewrites, which shows
      three blocks, and whatever fitting tables it is rewritten with, the output does not show them. */
  lemma {:induction false} LateFrameLost() returns (src: Src)
    ensures Modelled(src) && Serves(ONES, src) && !KeepsFrame(src) && Complete(src)
    ensures DecodeFile(src) == Some(Picture(8, 8, [1, 1, 1], [1, 1, 1], Blacks(1)))
    ensures forall codes: seq<Huff>, slack: seq<byte> :: Serves(codes, src) && |slack| > 0 ==>
              DecodeFile(Output(src, codes, slack)) != DecodeFile(src)
  {
    hide LateFrame, Tabled, DecodeFile, Accepted, Serves, Output, FieldsCopied, HdOf, OldFrame, Header, FrameSurvives,
         HeaderSuits, SecondScan, NoRst, Complete;
    src := Loaded(LateFrame());
    LateFrameShows(src);
    LateModelled(src);
    forall codes: seq<Huff>, slack: seq<byte> | Serves(codes, src) && |slack| > 0
      ensures DecodeFile(Output(src, codes, slack)) != DecodeFile(src)
    {
      ServesParts(src, codes);
      CopiedNewFrame(src, codes);
      CompleteExactly(src, codes, slack);
    }
  }

  lemma {:induction false} LateRestartShows(src: Src)
    requires src == Loaded(LateRestart())
    ensures Accepted(src) && HdOf(src) == Bound(8, 5, 82) && FieldsCopied(src) && OldFrame(src) == Sized(BLANK, 8)
    ensures Complete(src) && NoRst(SecondScan(src).toks) && Serves(ONES, src)
  {
    hide Header, FirstDht, Frame, FieldsWithin, LateRestart, Tabled, DecodeFile, Serves, Unstuff, SecondScan,
         Mcus, NoRst, Complete, Flats, McuCount;
    LateRestartHeader();
    OneMcuData(src, 82);
    ShowsBlack(src, 1, 5, 82);
    OnesServe(src, 1);
  }

  /** The restart interval that a file sets. */
  function IntervalOf(src: Src): Option<nat> {
    match Header(src.buf, 2, BLANK) case Parsed(hd) => Some(hd.interval) case _ => None
  }

  /** A restart interval behind the first DHT is lost: here the input sets it to 5, every output to 0. The
      picture survives, because no interval of 5 ends in its one MCU. */
  lemma {:induction false} LateRestartLost() returns (src: Src)
    ensures Modelled(src) && Serves(ONES, src) && IntervalOf(src) == Some(5) && !KeepsFrame(src) && Complete(src)
    ensures forall codes: seq<Huff>, slack: seq<byte> :: Serves(codes, src) && |slack| > 0 ==>
              && IntervalOf(Output(src, codes, slack)) == Some(0)
              && Complete(Output(src, codes, slack)) && DecodeFile(Output(src, codes, slack)) == DecodeFile(src)
  {
    hide LateRestart, Tabled, Accepted, Serves, Output, FieldsCopied, HdOf, OldFrame, Header, HeaderOf, NewFrame, EnvOf,
         NewEnv, DecodeFile, SecondScan, NoRst, McuCount, Complete;
    src := Loaded(LateRestart());
    LateRestartShows(src);
    LateModelled(src);
    forall codes: seq<Huff>, slack: seq<byte> | Serves(codes, src) && |slack| > 0
      ensures IntervalOf(Output(src, codes, slack)) == Some(0)
      ensures Complete(Output(src, codes, slack)) && DecodeFile(Output(src, codes, slack)) == DecodeFile(src)
    {
      ServesParts(src, codes);
      CopiedNewFrame(src, codes);
      HeaderFirst(src, codes, slack);
      OutputHeader(src, codes, Output(src, codes, slack).buf);
      RewrittenDecodes(src, codes, slack);
    }
  }

  // ----- a late restart interval: what is written -----

  /** A file whose strings fill one byte and n bits of another. */
  lemma {:induction false} ShortFile(codes: seq<Huff>, prefix: seq<byte>, toks: seq<Tok>,
                                     a: seq<bool>, b: seq<bool>, n: nat)
    requires UsableCodes(codes) && AllCovered(codes, toks) && NoRst(toks) && 1 <= n < 8 && |a| == |b| == 8
    requires SegBits(codes, toks) == a + b[..n] && b == b[..n] + Ones(8 - n) && Val(a) < 0xff && Val(b) < 0xff
    ensures File(codes, Pk(prefix, [], []), toks) == prefix + [Val(a), Val(b), 0xff, 0xd9]
  {
    hide UsableCodes, AllCovered, EmitAll, SegBits, Val, Ones, StuffAll, LastByte;
    var start := Pk(prefix, [], []);
    EmitPrefix(codes, start, toks);
    EmitBits(codes, start, toks);
    assert PkBits(start) == [] && PkBits(start) + (a + b[..n]) == a + b[..n];
    ShortPacked(EmitAll(codes, start, toks), a, b, n);
  }

  lemma {:induction false} ShortPacked(pk: Pk, a: seq<bool>, b: seq<bool>, n: nat)
    requires ValidPk(pk) && 1 <= n < 8 && |a| == |b| == 8 && PkBits(pk) == a + b[..n]
    requires b == b[..n] + Ones(8 - n) && Val(a) < 0xff && Val(b) < 0xff
    ensures FlushEnd(pk) == pk.prefix + [Val(a), Val(b), 0xff, 0xd9]
  {
    hide BitsOf, Val, Ones, BytesBits, StuffAll;
    assert |pk.done| == 1;
    var x := pk.done[0];
    assert pk.done == [x];
    BytesBitsOne(x);
    assert BitsOf(x, 8) == PkBits(pk)[..8] == a && pk.pend == PkBits(pk)[8..] == b[..n];
    ByteBack(x);
    StuffOne(x);
    StuffOne(Val(b));
  }

  lemma {:induction false} ByteBack(x: byte)
    ensures Val(BitsOf(x, 8)) == x
  {
    assert Pow2(8) == 256;
    ValBitsOf(x, 8);
  }

  lemma {:induction false} StuffOne(x: byte)
    requires x != 0xff
    ensures StuffAll([x]) == [x]
  {
    assert StuffAll([x][..0]) == [];
  }

  /** The new tables give symbol 0 the string 0. */
  lemma {:induction false} ZeroBit(codes: seq<Huff>, c: nat)
    requires (codes == ONES || codes == TWOS) && UsableCodes(codes) && c < 4
    ensures Covered(codes, Sym(c, 0)) && TokBits(codes, Sym(c, 0)) == [false]
  {
    hide Usable;
    assert codes[c] == ONE || codes[c] == TWO;
    assert ONE.vals[0] in ONE.vals && TWO.vals[0] in TWO.vals;
    assert BitsOf(0, 0) == [] && BitsOf(0, 1) == [false];
  }

  lemma {:induction false} ZeroBits(codes: seq<Huff>, toks: seq<Tok>)
    requires (codes == ONES || codes == TWOS) && UsableCodes(codes)
    requires forall i :: 0 <= i < |toks| ==> toks[i].Sym? && toks[i].val == 0 && toks[i].table < 4
    ensures AllCovered(codes, toks) && NoRst(toks) && SegBits(codes, toks) == Zeros(|toks|)
  {
    hide UsableCodes, Covered, TokBits, ONES, TWOS;
    if toks != [] {
      ZeroBits(codes, toks[1..]);
      ZeroBit(codes, toks[0].table);
      assert toks[0] == Sym(toks[0].table, 0);
      assert forall i :: 1 <= i < |toks| ==> toks[i] == toks[1..][i - 1];
    }
  }

  lemma {:induction false} StepBits(toks: seq<Tok>)
    requires UsableCodes(TWOS) && forall i :: 0 <= i < |toks| ==> toks[i].Sym? && toks[i].val == 0 && toks[i].table < 4
    ensures AllCovered(TWOS, STEP + toks) && NoRst(STEP + toks)
    ensures SegBits(TWOS, STEP + toks) == [true, false, false, true] + Zeros(5 + |toks|)
  {
    hide Usable, Codeword;
    var rest := [Sym(2, 0)] + Empty(1) + Empty(2) + toks;
    var all := [Sym(0, 1), Mag([true])] + rest;
    ZeroBits(TWOS, rest);
    assert STEP + toks == all;
    assert TWO.vals[1] in TWO.vals && TWO.vals[0] != 1;
    OneWord();
    assert TokBits(TWOS, Sym(0, 1)) == [true, false, false] by { assert IndexOf(TWO.vals, 1) == 1; }
    assert all[1..] == [Mag([true])] + rest && all[1..][1..] == rest;
    assert SegBits(TWOS, all) == TokBits(TWOS, all[0]) + SegBits(TWOS, all[1..]);
    assert SegBits(TWOS, all[1..]) == [true] + SegBits(TWOS, rest);
  }

  /** The second byte of each scan: four 0 bits or seven, and padding. */
  const HALF: seq<bool> := [false, false, false, false, true, true, true, true]
  const LAST: seq<bool> := [false, false, false, false, false, false, false, true]

  /** The bits 100 1 0 and three 0 bits. */
  const NINE: seq<bool> := [true, false, false, true, false, false, false, false]

  lemma {:induction false} ByteVals()
    ensures |NONE| == |HALF| == |LAST| == |NINE| == 8
    ensures Val(NONE) == 0 && Val(HALF) == 0x0f && Val(LAST) == 0x01 && Val(NINE) == 0x90
  {
    hide Val;
    ByteBits(NONE);
    ByteBits(HALF);
    ByteBits(LAST);
    ByteBits(NINE);
  }

  /** The data of the output. */
  lemma {:induction false} OutData(src: Src, codes: seq<Huff>, slack: seq<byte>, a: seq<bool>, b: seq<bool>, n: nat)
    requires Serves(codes, src) && |slack| > 0 && NoRst(SecondScan(src).toks) && 1 <= n < 8 && |a| == |b| == 8
    requires SegBits(codes, SecondScan(src).toks) == a + b[..n] && b == b[..n] + Ones(8 - n)
    requires Val(a) < 0xff && Val(b) < 0xff
    ensures var out, h := Output(src, codes, slack), |HeaderOf(src, codes)|;
            out.end == h + 4 && out.buf[h..h + 4] == [Val(a), Val(b), 0xff, 0xd9]
  {
    hide UsableCodes, AllCovered, SegBits, Val, Ones, SecondScan, HeaderOf, Accepted, Fits, Writable, SmallVals, File;
    ServesParts(src, codes);
    ShortFile(codes, HeaderOf(src, codes), SecondScan(src).toks, a, b, n);
  }

  // ----- ... and what is read -----

  /** The output's tables. */
  lemma {:induction false} OutEnv(codes: seq<Huff>)
    requires codes == ONES || codes == TWOS
    ensures UsableCodes(codes) && Simple(NewEnv(codes, PLAIN.mcu, 1)) && NewEnv(codes, PLAIN.mcu, 1).dc[0] == codes[0]
  {
    hide Usable, Good, Listable, Fits, Writable;
    OneGood();
    TwoGood();
    OnesGood();
    TwosGood();
  }

  /** A last MCU that starts at m and ends before the end-of-image marker. */
  lemma {:induction false} LastOne(out: Src, env: Env, m: nat, pad: seq<bool>)
    requires ValidSrc(out) && Simple(env) && env.interval == 1 && out.end >= 2 && |pad| < 8
    requires out.buf[out.end - 2] == 0xff && out.buf[out.end - 1] == 0xd9 && Reaches(out, m, out.end - 2)
    requires var u := Units(out, env, env.mcu, Resync(m, 1, 0));
             u.ok && View(out, u.st.rd) == pad + Unstuff(out, out.end - 2)
    ensures var r := Scan(out, env, 1, Resync(m, 1, 0));
            r.ok && r.blocks == Units(out, env, env.mcu, Resync(m, 1, 0)).blocks
  {
    hide Units, ValidEnv, Usable, Scan, Mcu, View, Unstuff, Reaches, Dc;
    var st, e := Resync(m, 1, 0), out.end - 2;
    OnwardStart(out, m);
    assert SkipFf(out.buf, e + 1) == e + 1;
    LastMcu(out, env, st, m, pad, e, e + 1);
    ScanUnfold(out, env, 1, st);
    ScanUnfold(out, env, 0, Mcu(out, env, st).st);
  }

  /** The byte 0x0F is given back and read as the second MCU: two empty blocks, and a third that is none. */
  lemma {:induction false} ChangeMisread(out: Src, env: Env, h: nat)
    requires ValidSrc(out) && Simple(env) && env.interval == 1
    requires out.end == h + 4 && out.buf[h..h + 4] == [Val(NONE), Val(HALF), 0xff, 0xd9]
    ensures var run := Run(out, env, 1, Resync(h, 1, 0));
            var more := Scan(out, env, 1, Resync(Rewind(out, run.st.rd), 1, 0));
            more.ok && more.blocks == Blacks(1)
  {
    hide Units, ValidEnv, Usable, Scan, Run, View, Unstuff, Reaches, Dc, Rewind, Val, Flat;
    ByteVals();
    TwoByteData(out, h, NONE, HALF);
    var st, rd := Resync(h, 1, 0), Run(out, env, 1, Resync(h, 1, 0)).st.rd;
    FreshView(out, h);
    FreshView(out, h + 1);
    EmptyRun(out, env, 1, st);
    OnwardStart(out, h);
    RunOnward(out, env, 1, st, h);
    assert View(out, rd) == (NONE + HALF + END)[6..] == [false, false] + (HALF + END);
    LandOnMarker(out, h, rd, [false, false], h + 1);
    var st1 := Resync(h + 1, 1, 0);
    MixedUnits(out, env, st1);
    assert (HALF + END)[4..] == [true, true, true, true] + END;
    LastOne(out, env, h + 1, [true, true, true, true]);
    assert Flat([0, 0, 0]) == Blacks(1);
  }

  /** The end-of-image marker is given back and read as the second MCU: no codes, so blocks without
      differences from a predictor of 0. */
  lemma {:induction false} StepMisread(out: Src, env: Env, h: nat)
    requires ValidSrc(out) && Simple(env) && env.dc[0] == TWO && env.interval == 1
    requires out.end == h + 4 && out.buf[h..h + 4] == [Val(NINE), Val(LAST), 0xff, 0xd9]
    ensures var run := Run(out, env, 1, Resync(h, 1, 0));
            var more := Scan(out, env, 1, Resync(Rewind(out, run.st.rd), 1, 0));
            more.ok && more.blocks == Blacks(1)
  {
    hide Units, ValidEnv, Usable, Scan, Run, View, Unstuff, Reaches, Dc, Rewind, Val, Flat;
    ByteVals();
    TwoByteData(out, h, NINE, LAST);
    var st, rd := Resync(h, 1, 0), Run(out, env, 1, Resync(h, 1, 0)).st.rd;
    FreshView(out, h);
    FreshView(out, h + 2);
    StepUnits(out, env, st);
    RunStep(out, env, 1, st);
    RunEmpty(out, env, Units(out, env, env.mcu, st).st);
    OnwardStart(out, h);
    RunOnward(out, env, 1, st, h);
    assert View(out, rd) == (NINE + LAST + END)[9..] == LAST[1..] + END;
    LandOnMarker(out, h, rd, LAST[1..], h + 2);
    ReachesSelf(out, h + 2);
    MissedUnits(out, env, Resync(h + 2, 1, 0));
    assert [] + END == END;
    LastOne(out, env, h + 2, []);
    assert Flat([0, 0, 0]) == Blacks(1);
  }

  // ----- ... and what is shown -----

  /** Both files set a restart interval of 1 and take it back behind their tables. */
  predicate LateHeader(src: Src) {
    && Accepted(src) && Modelled(src) && HdOf(src) == Bound(16, 0, 88) && FieldsCopied(src) && McuCount(src) == 2
    && OldFrame(src) == Sized(BLANK, 16).(interval := 1)
  }

  lemma {:induction false} LateHeaders(src: Src, data: seq<byte>)
    requires src == Loaded(LateChange(data))
    ensures LateHeader(src)
  {
    hide Header, FirstDht, Frame, FieldsWithin, LateChange, Tabled, McuCount;
    LateChangeHeader(data);
    ScansAre(src, 2, 0, 88);
  }

  /** The first file: twelve 0 bits. */
  lemma {:induction false} ChangeData(src: Src)
    requires src == Loaded(LateChange(TWO_MCUS))
    ensures src.end == 92 && Unstuff(src, 88) == NONE + HALF + END
  {
    hide Header, FirstDht, Frame, FieldsWithin, LateChange, Val, Unstuff, END;
    LateChangeHeader(TWO_MCUS);
    assert src.buf[88..92] == src.buf[88..][..4] == TWO_MCUS;
    ByteVals();
    TwoByteData(src, 88, NONE, HALF);
  }

  lemma {:induction false} ChangeShows(src: Src)
    requires src == Loaded(LateChange(TWO_MCUS))
    ensures Accepted(src) && LateHeader(src) && Complete(src) && McuCount(src) == 2
    ensures DecodeFile(src) == Some(Picture(8, 16, [1, 1, 1], [1, 1, 1], Blacks(2)))
    ensures SecondScan(src).toks == Mcus(2) && SecondScan(src).blocks == Blacks(2) && NoRst(SecondScan(src).toks)
    ensures ScanOf(src, HdOf(src), 1).blocks == Blacks(1) && FirstScan(src).toks == Mcus(4)
  {
    hide Header, LateChange, LateHeader, Unstuff, View, Scan, Run, SecondScan, FirstScan, ScanOf, Mcus, Flats, NoRst,
         Complete, DecodeFile, Accepted, McuCount, Dc, Usable, EnvAt;
    LateChangeHeader(TWO_MCUS);
    LateHeaders(src, TWO_MCUS);
    ChangeData(src);
    ScansAre(src, 2, 0, 88);
    ShowsBlack(src, 2, 0, 88);
    var st := Resync(88, 0, 0);
    FreshView(src, 88);
    EmptyRun(src, EnvAt(0), 1, st);
    FreeScan(src, EnvAt(0), 1, st);
    EmptyScan(src, EnvAt(0), 2, 2, st);
  }

  /** The second: 100 1 0 and then ten 0 bits. */
  lemma {:induction false} StepData(src: Src)
    requires src == Loaded(LateChange(STEP_MCUS))
    ensures src.end == 92 && Unstuff(src, 88) == NINE + LAST + END
  {
    hide Header, FirstDht, Frame, FieldsWithin, LateChange, Val, Unstuff, END;
    LateChangeHeader(STEP_MCUS);
    assert src.buf[88..92] == src.buf[88..][..4] == STEP_MCUS;
    ByteVals();
    TwoByteData(src, 88, NINE, LAST);
  }

  /** The scans of its bits, read without restarts. */
  lemma {:induction false} StepScans(src: Src)
    requires ValidSrc(src) && Simple(EnvAt(0)) && Unstuff(src, 88) == NINE + LAST + END
    ensures var r := Scan(src, EnvAt(0), 2, Resync(88, 0, 0));
            r.ok && r.clean && NoRst(r.toks) && r.toks == STEP + Mcus(1) && r.blocks == Flats([1, 0, 0], 2)
    ensures Scan(src, EnvAt(0), 1, Resync(88, 0, 0)).blocks == Flats([1, 0, 0], 1)
    ensures Scan(src, EnvAt(0), 4, Resync(88, 0, 0)).toks == STEP + Mcus(3)
  {
    hide Unstuff, View, Scan, Run, Mcus, Flat, NoRst, Dc, Usable, ValidEnv, STEP;
    var env, st := EnvAt(0), Resync(88, 0, 0);
    var v := NINE + LAST + END;
    assert env.dc[0] == TWO;
    FreshView(src, 88);
    assert v[..9] == [true, false, false, true, false, false, false, false, false];
    var one := StepScan(src, env, 0, st);
    ScanUnfold(src, env, 0, one);
    var two := StepScan(src, env, 1, st);
    EmptyRun(src, env, 1, two);
    FreeScan(src, env, 1, two);
    var four := StepScan(src, env, 3, st);
    assert v[9..][6] && v[9..][7] && forall i :: 0 <= i < 6 ==> !v[9..][i];
    EmptyScan(src, env, 1, 2, four);
    FreeScan(src, env, 2, st);
    OnwardStart(src, 88);
    RunOnward(src, env, 2, st, 88);
    assert Flats([1, 0, 0], 2) == Flat([1, 0, 0]) + Flats([1, 0, 0], 1);
  }

  lemma {:induction false} StepShows(src: Src)
    requires src == Loaded(LateChange(STEP_MCUS))
    ensures Accepted(src) && LateHeader(src) && Complete(src) && McuCount(src) == 2
    ensures DecodeFile(src) == Some(Picture(8, 16, [1, 1, 1], [1, 1, 1], Flats([1, 0, 0], 2)))
    ensures SecondScan(src).toks == STEP + Mcus(1) && SecondScan(src).blocks == Flats([1, 0, 0], 2)
    ensures NoRst(SecondScan(src).toks)
    ensures ScanOf(src, HdOf(src), 1).blocks == Flats([1, 0, 0], 1) && FirstScan(src).toks == STEP + Mcus(3)
  {
    hide Header, LateChange, LateHeader, Unstuff, Scan, SecondScan, FirstScan, ScanOf, Mcus, Flats, NoRst,
         Complete, DecodeFile, Accepted, McuCount, Dc, Usable, EnvAt;
    LateChangeHeader(STEP_MCUS);
    LateHeaders(src, STEP_MCUS);
    StepData(src);
    ScansAre(src, 2, 0, 88);
    StepScans(src);
    CompleteScan(src);
  }

  // ----- the tables for the second file -----

  /** Symbol 1 occurs once, in table 0, and symbol 0 more often everywhere. */
  lemma {:induction false} StepCounts(c: nat)
    requires c < 4
    ensures var seen := STEP + Mcus(3);
            && Below(seen, 2) && |seen| == 25 && Sym(c, 0) in seen && Count(seen, c, 1) == (if c == 0 then 1 else 0)
            && Count(seen, c, 0) > 1 && forall v: nat :: v > 1 ==> Count(seen, c, v) == 0
  {
    hide MCU, Count;
    McuSymbols();
    McusSymbols(3);
    var rest := STEP[1..] + Mcus(3);
    var seen := STEP + Mcus(3);
    assert Below(rest, 1);
    assert seen == [Sym(0, 1)] + rest;
    CountConcat([Sym(0, 1)], rest, c, 1);
    CountOne(Sym(0, 1), c, 1);
    CountBelow(rest, 1, c, 1);
    assert Mcus(3) == MCU + Mcus(2) && Mcus(2) == MCU + Mcus(1);
    CountConcat(STEP, Mcus(3), c, 0);
    CountConcat(MCU, Mcus(2), c, 0);
    CountConcat(MCU, Mcus(1), c, 0);
    Counted(MCU, c, 0);
    forall v: nat | v > 1 ensures Count(seen, c, v) == 0 { CountBelow(seen, 2, c, v); }
  }

  lemma {:induction false} CountOne(t: Tok, c: nat, v: nat)
    ensures Count([t], c, v) == if t == Sym(c, v) then 1 else 0
  {
    assert [t][..0] == [];
  }

  lemma {:induction false} TwosBook()
    ensures var seen := STEP + Mcus(3);
            && SymbolsFit(seen) && Book(TWOS, seen)
            && forall codes: seq<Huff> :: Book(codes, seen) ==> codes == TWOS
  {
    hide Assigned, Mcus, Below, Count, STEP, SymbolsFit;
    var seen := STEP + Mcus(3);
    StepCounts(0);
    BelowFits(seen);
    forall c: nat | c < 4 ensures Assigned(TWOS[c], seen, c) {
      StepCounts(c);
      if c == 0 { TwoAssigned(seen, 0); } else { OneAssigned(seen, c); }
    }
    forall codes: seq<Huff> | Book(codes, seen) ensures codes == TWOS {
      forall c: nat | c < 4 ensures codes[c] == TWOS[c] {
        assert Assigned(codes[c], seen, c) && Assigned(TWOS[c], seen, c);
        if c == 0 { TwoUnique(codes[c], seen, c); } else { OneUnique(codes[c], seen, c); }
      }
    }
  }

  // ----- the two outputs -----

  /** The output of such a file sets an interval of 1, and is read on from elsewhere behind its first MCU. */
  lemma {:induction false} LateOutput(src: Src, codes: seq<Huff>, slack: seq<byte>)
    requires LateHeader(src) && Serves(codes, src) && |slack| > 0 && Complete(src) && NoRst(SecondScan(src).toks)
    ensures var out, more := Output(src, codes, slack), Misread(src, codes, slack, 1);
            && !Complete(out)
            && (DecodeFile(out) == DecodeFile(src) <==>
                  more.ok && ScanOf(src, HdOf(src), 1).blocks + more.blocks == SecondScan(src).blocks)
  {
    hide Accepted, Modelled, FieldsCopied, OldFrame, HdOf, NewFrame, Output, Misread, Complete, DecodeFile, DecodeMcus,
         SecondScan, ScanOf, NoRst, Serves, McuCount;
    ServesParts(src, codes);
    CopiedNewFrame(src, codes);
    MisreadExactly(src, codes, slack);
  }

  lemma {:induction false} ChangeOutput(src: Src, slack: seq<byte>)
    requires src == Loaded(LateChange(TWO_MCUS)) && |slack| > 0
    ensures Serves(ONES, src)
    ensures DecodeFile(Output(src, ONES, slack)) == DecodeFile(src)
  {
    hide LateChange, LateHeader, Serves, Accepted, Output, Complete, DecodeFile, SecondScan, FirstScan, ScanOf, NoRst,
         Scan, Run, Rewind, McuCount, HeaderOf, Mcus, Val, SegBits, Dc, Usable, ValidEnv, HdOf, AllCovered;
    ChangeShows(src);
    OnesServe(src, 2);
    LateOutput(src, ONES, slack);
    OutEnv(ONES);
    McusSymbols(2);
    ZeroBits(ONES, Mcus(2));
    ByteVals();
    assert Zeros(12) == NONE + HALF[..4] && HALF == HALF[..4] + Ones(4);
    OutData(src, ONES, slack, NONE, HALF, 4);
    ChangeMisread(Output(src, ONES, slack), NewEnv(ONES, PLAIN.mcu, 1), |HeaderOf(src, ONES)|);
    assert Blacks(1) + Blacks(1) == Blacks(2);
  }

  lemma {:induction false} StepOutput(src: Src, slack: seq<byte>)
    requires src == Loaded(LateChange(STEP_MCUS)) && |slack| > 0 && Serves(TWOS, src)
    ensures DecodeFile(Output(src, TWOS, slack)) != DecodeFile(src)
  {
    hide LateChange, LateHeader, Serves, Accepted, Output, Complete, DecodeFile, SecondScan, FirstScan, ScanOf, NoRst,
         Scan, Run, Rewind, McuCount, HeaderOf, Mcus, Val, SegBits, Dc, Usable, ValidEnv, HdOf, AllCovered, STEP;
    StepShows(src);
    LateOutput(src, TWOS, slack);
    OutEnv(TWOS);
    McusSymbols(1);
    StepBits(Mcus(1));
    ByteVals();
    assert [true, false, false, true] + Zeros(11) == NINE + LAST[..7] && LAST == LAST[..7] + Ones(1);
    OutData(src, TWOS, slack, NINE, LAST, 7);
    StepMisread(Output(src, TWOS, slack), NewEnv(TWOS, PLAIN.mcu, 1), |HeaderOf(src, TWOS)|);
    assert (Flats([1, 0, 0], 1) + Blacks(1))[3] == ZeroBlock(0) && Flats([1, 0, 0], 2)[3] == ZeroBlock(1);
    assert ZeroBlock(0)[0] == 0 && ZeroBlock(1)[0] == 1;
  }

  /** The tables that the program builds for the file alone keep the picture. */
  ghost predicate Keeps(src: Src) {
    hide Serves, Book, Seen, DecodeFile, SecondScan, Output, Fits, Writable, UsableCodes, AllCovered, Header;
    && Accepted(src) && (exists codes: seq<Huff> :: Book(codes, Seen([src])))
    && forall codes: seq<Huff>, slack: seq<byte> :: Book(codes, Seen([src])) && |slack| > 0 ==>
         Serves(codes, src) && DecodeFile(Output(src, codes, slack)) == DecodeFile(src)
  }

  /** ... or lose it. */
  ghost predicate Loses(src: Src) {
    hide Serves, Book, Seen, DecodeFile, SecondScan, Output, Fits, Writable, UsableCodes, AllCovered, Header;
    && Accepted(src) && (exists codes: seq<Huff> :: Book(codes, Seen([src])))
    && forall codes: seq<Huff>, slack: seq<byte> :: Book(codes, Seen([src])) && |slack| > 0 ==>
         Serves(codes, src) && DecodeFile(Output(src, codes, slack)) != DecodeFile(src)
  }

  lemma {:induction false} ChangeKeeps(src: Src)
    requires src == Loaded(LateChange(TWO_MCUS))
    ensures Keeps(src) && SymbolsFit(Seen([src]))
  {
    hide LateChange, LateHeader, Serves, Accepted, Output, Complete, DecodeFile, SecondScan, FirstScan, ScanOf, NoRst,
         McuCount, Mcus, HdOf, SymbolsFit, Book, Seen;
    ChangeShows(src);
    SeenOne(src);
    OnesBook(4);
    McusFit(4);
    forall codes: seq<Huff>, slack: seq<byte> | Book(codes, Seen([src])) && |slack| > 0
      ensures Serves(codes, src) && DecodeFile(Output(src, codes, slack)) == DecodeFile(src)
    {
      ChangeOutput(src, slack);
    }
  }

  lemma {:induction false} StepLoses(src: Src)
    requires src == Loaded(LateChange(STEP_MCUS))
    ensures Loses(src) && SymbolsFit(Seen([src]))
  {
    hide LateChange, LateHeader, Serves, Accepted, Output, Complete, DecodeFile, SecondScan, FirstScan, ScanOf, NoRst,
         McuCount, Mcus, HdOf, SymbolsFit, Book, Seen, Fits, STEP;
    StepShows(src);
    SeenOne(src);
    TwosBook();
    TwosGood();
    forall codes: seq<Huff>, slack: seq<byte> | Book(codes, Seen([src])) && |slack| > 0
      ensures Serves(codes, src) && DecodeFile(Output(src, codes, slack)) != DecodeFile(src)
    {
      TablesServe([src], 0, TWOS);
      StepOutput(src, slack);
    }
  }

  /** A restart interval behind the first DHT that takes back an earlier one is lost. Here no output is complete,
      whatever the tables; yet the one that the program writes shows the picture, by chance. */
  lemma {:induction false} LateChangeKept() returns (src: Src)
    ensures Modelled(src) && Complete(src) && SymbolsFit(Seen([src]))
    ensures DecodeFile(src) == Some(Picture(8, 16, [1, 1, 1], [1, 1, 1], Blacks(2)))
    ensures Keeps(src) && forall codes: seq<Huff>, slack: seq<byte> :: Serves(codes, src) && |slack| > 0 ==>
              !Complete(Output(src, codes, slack))
  {
    hide LateChange, Serves, Accepted, Output, Complete, DecodeFile, SecondScan, FirstScan, ScanOf, NoRst, McuCount,
         Mcus, HdOf, Modelled, FieldsCopied, OldFrame, SymbolsFit, Seen, Misread, Keeps;
    src := Loaded(LateChange(TWO_MCUS));
    ChangeShows(src);
    ChangeKeeps(src);
    forall codes: seq<Huff>, slack: seq<byte> | Serves(codes, src) && |slack| > 0
      ensures !Complete(Output(src, codes, slack))
    {
      LateOutput(src, codes, slack);
    }
  }

  /** And here the output that the program writes does not show it: the second MCU loses the DC value that it
      had from the first. */
  lemma {:induction false} LateStepLost() returns (src: Src)
    ensures Modelled(src) && Complete(src) && SymbolsFit(Seen([src]))
    ensures DecodeFile(src) == Some(Picture(8, 16, [1, 1, 1], [1, 1, 1], Flats([1, 0, 0], 2)))
    ensures Loses(src)
  {
    hide LateChange, Accepted, Complete, DecodeFile, SecondScan, FirstScan, ScanOf, NoRst, McuCount,
         Mcus, HdOf, Modelled, FieldsCopied, OldFrame, SymbolsFit, Seen, Loses, STEP;
    src := Loaded(LateChange(STEP_MCUS));
    StepShows(src);
    StepLoses(src);
  }

  /** The two files have the same headers: no condition on these, nor on the number of MCUs, says when such a
      picture survives. */
  lemma {:induction false} HeadersDoNotTell() returns (kept: Src, lost: Src)
    ensures Complete(kept) && Complete(lost) && |kept.buf| == |lost.buf|
    ensures HdOf(kept) == HdOf(lost) && kept.buf[..HdOf(kept).scan] == lost.buf[..HdOf(lost).scan]
    ensures Keeps(kept) && Loses(lost)
  {
    hide LateChange, Accepted, DecodeFile, HdOf, Seen, Modelled, FieldsCopied, OldFrame, McuCount, Header, FirstDht,
         Frame, FieldsWithin, Complete, Keeps, Loses, SecondScan, FirstScan, ScanOf, Mcus, STEP, NoRst;
    kept, lost := Loaded(LateChange(TWO_MCUS)), Loaded(LateChange(STEP_MCUS));
    ChangeShows(kept);
    ChangeKeeps(kept);
    StepShows(lost);
    StepLoses(lost);
    SameStart(TWO_MCUS, STEP_MCUS);
    LateChangeHeader(TWO_MCUS);
    LateChangeHeader(STEP_MCUS);
  }
}

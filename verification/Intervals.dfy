/** Restart intervals of any scan: how full the reservoir gets, and that every well-formed interval ends on
    its marker. */
module Intervals {
  import opened Bits
  import opened Canonical
  import opened BitReader
  import opened Blocks
  import opened Scans

  // ----- the reservoir -----

  /** A reader that started at a with nothing fetched, holds at most 23 bits, and has given none back. */
  predicate Forward(src: Src, a: nat, rd: Rd)
    requires ValidSrc(src)
  {
    Onward(src, a, rd) && |View(src, rd)| <= |Unstuff(src, a)|
  }

  lemma {:induction false} OnwardStart(src: Src, pos: nat)
    requires ValidSrc(src)
    ensures Forward(src, pos, Rd(pos, []))
  {
    ReachesSelf(src, pos);
  }

  lemma {:induction false} OnwardCode(src: Src, h: Huff, a: nat, rd: Rd)
    requires ValidSrc(src) && Usable(h) && Forward(src, a, rd)
    ensures var r := ReadCode(src, h, rd, 9); r.Got? ==> Forward(src, a, r.rd)
  {
    hide ReadCode, Reaches, Read, View;
    ReadCodeView(src, h, rd, 9);
    var r := ReadCode(src, h, rd, 9);
    if r.Got? { ReachesTrans(src, a, rd.pos, r.rd.pos); }
  }

  lemma {:induction false} OnwardBits(src: Src, a: nat, rd: Rd, s: nat)
    requires ValidSrc(src) && Forward(src, a, rd)
    ensures var r := ReadBits(src, rd, s); r.Some? ==> Forward(src, a, r.value.1)
  {
    hide ReadBits, Reaches, View;
    ReadBitsView(src, rd, s);
    var r := ReadBits(src, rd, s);
    if r.Some? { ReachesTrans(src, a, rd.pos, r.value.1.pos); }
  }

  lemma {:induction false} OnwardAcStep(src: Src, h: Huff, table: nat, a: nat, rd: Rd, j: nat, dct: seq<int>)
    requires ValidSrc(src) && Usable(h) && |dct| == 64 && j < 64 && Forward(src, a, rd)
    ensures Forward(src, a, AcStep(src, h, table, rd, j, dct).rd)
  {
    hide ReadCode, ReadBits, Usable, Forward;
    OnwardCode(src, h, a, rd);
    var c := ReadCode(src, h, rd, 9);
    if c.Got? { OnwardBits(src, a, c.rd, c.sym % 16); }
  }

  lemma {:induction false} OnwardAc(src: Src, h: Huff, table: nat, a: nat, rd: Rd, j: nat, dct: seq<int>)
    requires ValidSrc(src) && Usable(h) && |dct| == 64 && Forward(src, a, rd)
    ensures Forward(src, a, AcRun(src, h, table, rd, j, dct).rd)
    decreases |View(src, rd)|
  {
    hide AcStep, Usable, Forward, View;
    if j < 64 {
      OnwardAcStep(src, h, table, a, rd, j, dct);
      AcStepShrinks(src, h, table, rd, j, dct);
      var r := AcStep(src, h, table, rd, j, dct);
      if r.Go? { OnwardAc(src, h, table, a, r.rd, r.j, r.dct); }
    }
  }

  lemma {:induction false} OnwardUnit(src: Src, dc: Huff, ac: Huff, component: nat, a: nat, rd: Rd, prev: int)
    requires ValidSrc(src) && Usable(dc) && Usable(ac) && Forward(src, a, rd)
    ensures Forward(src, a, Unit(src, dc, ac, component, rd, prev).rd)
  {
    hide ReadCode, ReadBits, Usable, Forward, AcRun;
    OnwardCode(src, dc, a, rd);
    var c := ReadCode(src, dc, rd, 9);
    if c.Got? { OnwardBits(src, a, c.rd, c.sym); }
    var d := DcStep(src, dc, DcTable(component), rd, prev);
    if d.ok { OnwardAc(src, ac, AcTable(component), a, d.rd, 1, ZeroBlock(d.prev)); }
  }

  lemma {:induction false} OnwardUnits(src: Src, env: Env, comps: seq<nat>, a: nat, st: St)
    requires ValidSrc(src) && ValidEnv(env) && ValidSt(st) && Forward(src, a, st.rd)
    requires forall i :: 0 <= i < |comps| ==> comps[i] < 3
    ensures Forward(src, a, Units(src, env, comps, st).st.rd)
  {
    hide Usable, Forward, Unit;
    if comps != [] {
      var c := comps[0];
      OnwardUnit(src, env.dc[c], env.ac[c], c, a, st.rd, st.prev[c]);
      var u := UnitIn(src, env, c, st);
      if u.ok { OnwardUnits(src, env, comps[1..], a, UnitSt(st, c, u)); }
    }
  }

  // ----- decoding past no marker -----

  /** n MCUs without restarts. */
  function Run(src: Src, env: Env, n: nat, st: St): (r: ScanOut)
    requires ValidSrc(src) && ValidEnv(env) && ValidSt(st)
    ensures ValidSt(r.st)
  {
    Scan(src, env.(interval := 0), n, st.(togo := -1))
  }

  lemma {:induction false} UnitsPlain(src: Src, env: Env, i: nat, comps: seq<nat>, st: St, t: int)
    requires ValidSrc(src) && ValidEnv(env) && ValidSt(st) && ValidEnv(env.(interval := i))
    requires forall i :: 0 <= i < |comps| ==> comps[i] < 3
    ensures var r, q := Units(src, env, comps, st), Units(src, env.(interval := i), comps, st.(togo := t));
            q == r.(st := r.st.(togo := t)) && r.st.togo == st.togo
  {
    hide Usable, Unit, ValidEnv;
    if comps != [] {
      var u := UnitIn(src, env, comps[0], st);
      assert UnitIn(src, env.(interval := i), comps[0], st.(togo := t)) == u;
      if u.ok { UnitsPlain(src, env, i, comps[1..], UnitSt(st, comps[0], u), t); }
    }
  }

  /** The first MCU of a run, and the same MCU where restarts may follow it. */
  lemma {:induction false} RunStep(src: Src, env: Env, n: nat, st: St)
    requires ValidSrc(src) && ValidEnv(env) && ValidSt(st) && n > 0
    ensures var u, r := Units(src, env, env.mcu, st), Run(src, env, n, st);
            if u.ok then
              var q := Run(src, env, n - 1, u.st);
              r == ScanOut(u.toks + q.toks, u.blocks + q.blocks, q.ok, n == 1 || q.clean, n > 1 && q.eoi, q.st)
            else !r.ok
  {
    hide Units, Usable, Scan, Mcu;
    var env0 := env.(interval := 0);
    UnitsPlain(src, env, 0, env.mcu, st, -1);
    ScanUnfold(src, env0, n, st.(togo := -1));
    McuUnfold(src, env0, st.(togo := -1));
  }

  lemma {:induction false} RunEmpty(src: Src, env: Env, st: St)
    requires ValidSrc(src) && ValidEnv(env) && ValidSt(st)
    ensures Run(src, env, 0, st) == ScanOut([], [], true, true, false, st.(togo := -1))
  {}

  /** No marker is met on the way, and the reservoir is never fuller than 23 bits. */
  lemma {:induction false} RunOnward(src: Src, env: Env, n: nat, st: St, a: nat)
    requires ValidSrc(src) && ValidEnv(env) && ValidSt(st) && Forward(src, a, st.rd)
    ensures var r := Run(src, env, n, st);
            (r.ok ==> r.clean && !r.eoi && Forward(src, a, r.st.rd) && r.st.rst == st.rst) && NoRst(r.toks)
    decreases n
  {
    hide Units, Usable, Run, Forward;
    if n == 0 {
      RunEmpty(src, env, st);
    } else {
      RunStep(src, env, n, st);
      OnwardUnits(src, env, env.mcu, a, st);
      UnitsNoRst(src, env, env.mcu, st);
      UnitsTogo(src, env, env.mcu, st);
      var u := Units(src, env, env.mcu, st);
      if u.ok {
        RunOnward(src, env, n - 1, u.st, a);
      } else {
        RunStopped(src, env, n, st);
      }
    }
  }

  lemma {:induction false} RunStopped(src: Src, env: Env, n: nat, st: St)
    requires ValidSrc(src) && ValidEnv(env) && ValidSt(st) && n > 0 && !Units(src, env, env.mcu, st).ok
    ensures NoRst(Run(src, env, n, st).toks)
  {
    hide Units, Usable, Scan, Mcu;
    var env0 := env.(interval := 0);
    UnitsPlain(src, env, 0, env.mcu, st, -1);
    ScanUnfold(src, env0, n, st.(togo := -1));
    McuUnfold(src, env0, st.(togo := -1));
    UnitsNoRst(src, env, env.mcu, st);
  }

  /** Where no interval ends, an MCU is followed by nothing but the countdown. */
  lemma {:induction false} McuInside(src: Src, env: Env, st: St)
    requires ValidSrc(src) && ValidEnv(env) && ValidSt(st) && st.togo != 1
    ensures var u, m := Units(src, env, env.mcu, st), Mcu(src, env, st);
            && m.ok == u.ok
            && (u.ok ==> m.toks == u.toks && m.blocks == u.blocks && !m.eoi
                         && m.st == u.st.(togo := if st.togo > 0 then st.togo - 1 else st.togo))
  {
    hide Units, Usable, FindMarker, Rewind;
    UnitsTogo(src, env, env.mcu, st);
    McuUnfold(src, env, st);
  }

  lemma {:induction false} RunTogo(src: Src, env: Env, n: nat, st: St, t: int)
    requires ValidSrc(src) && ValidEnv(env) && ValidSt(st)
    ensures Run(src, env, n, st.(togo := t)) == Run(src, env, n, st)
  {
    hide Scan;
  }

  /** A scan in which no restart interval ends is a run. */
  lemma {:induction false} FreeScan(src: Src, env: Env, n: nat, st: St)
    requires ValidSrc(src) && ValidEnv(env) && ValidSt(st) && (st.togo <= 0 || n < st.togo)
    ensures var r, q := Scan(src, env, n, st), Run(src, env, n, st);
            && r.ok == q.ok
            && (q.ok ==> r.toks == q.toks && r.blocks == q.blocks && r.clean == q.clean && !r.eoi)
    decreases n
  {
    hide Units, Usable, Run, Mcu, Scan;
    ScanUnfold(src, env, n, st);
    if n == 0 {
      RunEmpty(src, env, st);
    } else {
      RunStep(src, env, n, st);
      McuInside(src, env, st);
      var m, u := Mcu(src, env, st), Units(src, env, env.mcu, st);
      if u.ok {
        FreeScan(src, env, n - 1, m.st);
        RunTogo(src, env, n - 1, u.st, m.st.togo);
      }
    }
  }

  // ----- whole intervals -----

  /** All that is left to read from rd is fewer than 8 padding bits and what stands at m: a marker, maybe
      with fill bytes. q is the position of the marker's code. */
  ghost predicate Ends(src: Src, start: nat, rd: Rd, pad: seq<bool>, m: nat, q: nat)
    requires ValidSrc(src)
  {
    && |pad| < 8 && View(src, rd) == pad + Unstuff(src, m) && Reaches(src, start, m)
    && m + 2 <= src.end && src.buf[m] == 0xff && q == SkipFf(src.buf, m + 1) < |src.buf| && src.buf[q] != 0
  }

  /** The reader lands on the marker. */
  lemma {:induction false} EndsLand(src: Src, start: nat, rd: Rd, pad: seq<bool>, m: nat, q: nat)
    requires ValidSrc(src) && Forward(src, start, rd) && Ends(src, start, rd, pad, m, q)
    ensures Rewind(src, rd) == m
    ensures |rd.bits| <= 15 ==> |rd.bits| <= |pad| + 8
  {
    hide View, Reaches, Rewind;
    if src.buf[m + 1] == 0xff { assert SkipFf(src.buf, m + 1) == SkipFf(src.buf, m + 2); }
    LandOnMarker(src, start, rd, pad, m);
  }

  /** Behind the last MCU of such an interval: restart marker k is passed, or the end of the image met. */
  lemma {:induction false} LastMcu(src: Src, env: Env, st: St, start: nat, pad: seq<bool>, m: nat, q: nat)
    requires ValidSrc(src) && ValidEnv(env) && ValidSt(st) && st.togo == 1 && Forward(src, start, st.rd)
    requires var u := Units(src, env, env.mcu, st); u.ok && Ends(src, start, u.st.rd, pad, m, q)
    ensures var u, r := Units(src, env, env.mcu, st), Mcu(src, env, st);
            && (src.buf[q] == 0xd0 + st.rst ==>
                  r == ScanOut(u.toks + [Rst(st.rst)], u.blocks, true, true, false,
                               Resync(q + 1, env.interval, (st.rst + 1) % 8)))
            && (src.buf[q] == 0xd9 ==> r.ok && r.eoi && r.toks == u.toks && r.blocks == u.blocks && r.clean)
  {
    hide Units, Usable, FindMarker, Rewind, Forward, View, Reaches, ValidSrc, Unstuff;
    var u := Units(src, env, env.mcu, st);
    UnitsTogo(src, env, env.mcu, st);
    OnwardUnits(src, env, env.mcu, start, st);
    EndsLand(src, start, u.st.rd, pad, m, q);
    McuUnfold(src, env, st);
    FindHere(src.buf, m, st.rst);
    assert u.toks + [] == u.toks;
  }

  /** A whole interval and what follows it: the marker is passed, and decoding goes on right behind it with
      fresh predictors and the next marker number. */
  lemma {:induction false} ThroughInterval(src: Src, env: Env, t: nat, rest: nat, st: St,
                                           start: nat, pad: seq<bool>, m: nat, q: nat)
    requires ValidSrc(src) && ValidEnv(env) && ValidSt(st) && t > 0 && st.togo == t && Forward(src, start, st.rd)
    requires var r := Run(src, env, t, st); r.ok && Ends(src, start, r.st.rd, pad, m, q)
    requires src.buf[q] == 0xd0 + st.rst
    ensures var r, run := Scan(src, env, t + rest, st), Run(src, env, t, st);
            var more := Scan(src, env, rest, Resync(q + 1, env.interval, (st.rst + 1) % 8));
            && r.ok == more.ok && r.clean == more.clean && r.eoi == more.eoi && r.st == more.st
            && r.toks == run.toks + [Rst(st.rst)] + more.toks && r.blocks == run.blocks + more.blocks
    decreases t
  {
    hide Units, Usable, Run, Mcu, Scan, Forward, Ends;
    RunStep(src, env, t, st);
    ScanUnfold(src, env, t + rest, st);
    OnwardUnits(src, env, env.mcu, start, st);
    UnitsTogo(src, env, env.mcu, st);
    var u := Units(src, env, env.mcu, st);
    if t == 1 {
      RunEmpty(src, env, u.st);
      LastMcu(src, env, st, start, pad, m, q);
      ScanUnfold(src, env, 0, Resync(q + 1, env.interval, (st.rst + 1) % 8));
    } else {
      McuInside(src, env, st);
      RunTogo(src, env, t - 1, u.st, t - 1);
      ThroughInterval(src, env, t - 1, rest, Mcu(src, env, st).st, start, pad, m, q);
    }
  }

  /** The last interval, with the end of the image behind it. */
  lemma {:induction false} ToEnd(src: Src, env: Env, t: nat, st: St, start: nat, pad: seq<bool>, m: nat, q: nat)
    requires ValidSrc(src) && ValidEnv(env) && ValidSt(st) && t > 0 && st.togo == t && Forward(src, start, st.rd)
    requires var r := Run(src, env, t, st); r.ok && Ends(src, start, r.st.rd, pad, m, q)
    requires src.buf[q] == 0xd9
    ensures var r, run := Scan(src, env, t, st), Run(src, env, t, st);
            r.ok && r.clean && r.eoi && r.toks == run.toks && r.blocks == run.blocks
    decreases t
  {
    hide Units, Usable, Run, Mcu, Scan, Forward, Ends;
    RunStep(src, env, t, st);
    ScanUnfold(src, env, t, st);
    OnwardUnits(src, env, env.mcu, start, st);
    UnitsTogo(src, env, env.mcu, st);
    var u := Units(src, env, env.mcu, st);
    if t == 1 {
      RunEmpty(src, env, u.st);
      LastMcu(src, env, st, start, pad, m, q);
      ScanUnfold(src, env, 0, Mcu(src, env, st).st);
    } else {
      McuInside(src, env, st);
      RunTogo(src, env, t - 1, u.st, t - 1);
      ToEnd(src, env, t - 1, Mcu(src, env, st).st, start, pad, m, q);
    }
  }

  /** n MCUs from `start` on are well formed: the data of every restart interval lasts for its MCUs, and
      behind it stand padding and the marker that is due, or behind the last one, the end of the image. */
  ghost predicate WellFormed(src: Src, env: Env, n: nat, start: nat, rst: nat)
    requires ValidSrc(src) && ValidEnv(env) && rst < 8
    decreases n
  {
    var i, st := env.interval, Resync(start, env.interval, rst);
    if i == 0 || n < i then Run(src, env, n, st).ok
    else
      var r := Run(src, env, i, st);
      && r.ok
      && exists pad: seq<bool>, m: nat, q: nat ::
           && Ends(src, start, r.st.rd, pad, m, q)
           && if n == i then src.buf[q] == 0xd0 + rst || src.buf[q] == 0xd9
              else src.buf[q] == 0xd0 + rst && WellFormed(src, env, n - i, q + 1, (rst + 1) % 8)
  }

  lemma {:induction false} FirstInterval(src: Src, env: Env, n: nat, start: nat, rst: nat)
      returns (pad: seq<bool>, m: nat, q: nat)
    requires ValidSrc(src) && ValidEnv(env) && rst < 8 && WellFormed(src, env, n, start, rst)
    requires 0 < env.interval <= n
    ensures var r := Run(src, env, env.interval, Resync(start, env.interval, rst));
            r.ok && Ends(src, start, r.st.rd, pad, m, q) && q < |src.buf|
    ensures src.buf[q] == 0xd0 + rst || (n == env.interval && src.buf[q] == 0xd9)
    ensures n > env.interval ==> WellFormed(src, env, n - env.interval, q + 1, (rst + 1) % 8)
  {
    hide Usable, Run, View, Reaches;
    var i, r := env.interval, Run(src, env, env.interval, Resync(start, env.interval, rst));
    pad, m, q :|
      && Ends(src, start, r.st.rd, pad, m, q)
      && if n == i then src.buf[q] == 0xd0 + rst || src.buf[q] == 0xd9
         else src.buf[q] == 0xd0 + rst && WellFormed(src, env, n - i, q + 1, (rst + 1) % 8);
  }

  lemma {:induction false} OpenInterval(src: Src, env: Env, n: nat, start: nat, rst: nat)
    requires ValidSrc(src) && ValidEnv(env) && rst < 8 && WellFormed(src, env, n, start, rst)
    requires env.interval == 0 || n < env.interval
    ensures Run(src, env, n, Resync(start, env.interval, rst)).ok
  {
    hide Usable, Run;
  }

  /** Restart resynchronisation, over a whole scan: every boundary of well-formed data finds its marker. */
  lemma {:induction false} WellFormedScan(src: Src, env: Env, n: nat, start: nat, rst: nat)
    requires ValidSrc(src) && ValidEnv(env) && rst < 8 && WellFormed(src, env, n, start, rst)
    ensures var r := Scan(src, env, n, Resync(start, env.interval, rst)); r.ok && r.clean
    decreases n
  {
    hide ValidEnv, Run, Scan, Forward, Ends, WellFormed;
    var i, st := env.interval, Resync(start, env.interval, rst);
    OnwardStart(src, start);
    if i == 0 || n < i {
      OpenInterval(src, env, n, start, rst);
      FreeScan(src, env, n, st);
      RunOnward(src, env, n, st, start);
    } else {
      var pad, m, q := FirstInterval(src, env, n, start, rst);
      if src.buf[q] == 0xd0 + rst {
        ThroughInterval(src, env, i, n - i, st, start, pad, m, q);
        if n == i {
          ScanUnfold(src, env, 0, Resync(q + 1, env.interval, (rst + 1) % 8));
        } else {
          WellFormedScan(src, env, n - i, q + 1, (rst + 1) % 8);
        }
      } else {
        ToEnd(src, env, i, st, start, pad, m, q);
      }
    }
  }

  // ----- the reservoir between symbols -----

  /** A codeword of the table comes next. */
  predicate CodeHit(src: Src, h: Huff, rd: Rd)
    requires ValidSrc(src) && Usable(h)
  {
    var c := ReadCode(src, h, rd, 9);
    c.Got? && c.len > 0
  }

  /** Every symbol read by an AC run, a block, the blocks of an MCU, or n MCUs without restarts is one of the
      table's, none a miss reported as symbol 0. */
  predicate AcHits(src: Src, h: Huff, table: nat, rd: Rd, j: nat, dct: seq<int>)
    requires ValidSrc(src) && Usable(h) && |dct| == 64
    decreases |View(src, rd)|
  {
    j >= 64 ||
    (&& CodeHit(src, h, rd)
     && (AcStepShrinks(src, h, table, rd, j, dct);
         var r := AcStep(src, h, table, rd, j, dct);
         r.Go? ==> AcHits(src, h, table, r.rd, r.j, r.dct)))
  }

  predicate UnitHits(src: Src, dc: Huff, ac: Huff, component: nat, rd: Rd, prev: int)
    requires ValidSrc(src) && Usable(dc) && Usable(ac)
  {
    && CodeHit(src, dc, rd)
    && var d := DcStep(src, dc, DcTable(component), rd, prev);
       d.ok ==> AcHits(src, ac, AcTable(component), d.rd, 1, ZeroBlock(d.prev))
  }

  predicate UnitsHit(src: Src, env: Env, comps: seq<nat>, st: St)
    requires ValidSrc(src) && ValidEnv(env) && ValidSt(st)
    requires forall i :: 0 <= i < |comps| ==> comps[i] < 3
  {
    comps == [] ||
    (var c, u := comps[0], UnitIn(src, env, comps[0], st);
     && UnitHits(src, env.dc[c], env.ac[c], c, st.rd, st.prev[c])
     && (u.ok ==> UnitsHit(src, env, comps[1..], UnitSt(st, c, u))))
  }

  predicate RunHits(src: Src, env: Env, n: nat, st: St)
    requires ValidSrc(src) && ValidEnv(env) && ValidSt(st)
    decreases n
  {
    n == 0 ||
    (var u := Units(src, env, env.mcu, st);
     UnitsHit(src, env, env.mcu, st) && (u.ok ==> RunHits(src, env, n - 1, u.st)))
  }

  lemma {:induction false} CodeBound(src: Src, h: Huff, rd: Rd)
    requires ValidSrc(src) && Usable(h) && CodeHit(src, h, rd) && |rd.bits| <= 15
    ensures |ReadCode(src, h, rd, 9).rd.bits| <= 15
  {
    hide View, Fill, Find, Codeword;
    ReadCodeView(src, h, rd, 9);
    FillView(src, rd, 9);
    var c := ReadCode(src, h, rd, 9);
    var i: nat :| i < |h.sizes| && c.len == h.sizes[i] && c.sym == h.vals[i] && Codeword(h.sizes, i) <= View(src, rd);
    ReadCodeHit(src, h, rd, 9, i);
  }

  lemma {:induction false} AcStepBound(src: Src, h: Huff, table: nat, rd: Rd, j: nat, dct: seq<int>)
    requires ValidSrc(src) && Usable(h) && |dct| == 64 && j < 64 && CodeHit(src, h, rd) && |rd.bits| <= 15
    ensures |AcStep(src, h, table, rd, j, dct).rd.bits| <= 15
  {
    hide ReadCode, ReadBits, Usable, View, Reaches;
    CodeBound(src, h, rd);
    var c := ReadCode(src, h, rd, 9);
    if c.Got? { ReadBitsView(src, c.rd, c.sym % 16); }
  }

  lemma {:induction false} AcBound(src: Src, h: Huff, table: nat, rd: Rd, j: nat, dct: seq<int>)
    requires ValidSrc(src) && Usable(h) && |dct| == 64 && |rd.bits| <= 15 && AcHits(src, h, table, rd, j, dct)
    ensures |AcRun(src, h, table, rd, j, dct).rd.bits| <= 15
    decreases |View(src, rd)|
  {
    hide AcStep, Usable, View, CodeHit;
    if j < 64 {
      AcStepBound(src, h, table, rd, j, dct);
      AcStepShrinks(src, h, table, rd, j, dct);
      var r := AcStep(src, h, table, rd, j, dct);
      if r.Go? { AcBound(src, h, table, r.rd, r.j, r.dct); }
    }
  }

  lemma {:induction false} UnitBound(src: Src, dc: Huff, ac: Huff, component: nat, rd: Rd, prev: int)
    requires ValidSrc(src) && Usable(dc) && Usable(ac) && |rd.bits| <= 15
    requires UnitHits(src, dc, ac, component, rd, prev)
    ensures |Unit(src, dc, ac, component, rd, prev).rd.bits| <= 15
  {
    hide ReadCode, ReadBits, Usable, AcRun, AcHits, View, Reaches;
    CodeBound(src, dc, rd);
    var c := ReadCode(src, dc, rd, 9);
    if c.Got? { ReadBitsView(src, c.rd, c.sym); }
    var d := DcStep(src, dc, DcTable(component), rd, prev);
    if d.ok { AcBound(src, ac, AcTable(component), d.rd, 1, ZeroBlock(d.prev)); }
  }

  lemma {:induction false} UnitsBound(src: Src, env: Env, comps: seq<nat>, st: St)
    requires ValidSrc(src) && ValidEnv(env) && ValidSt(st) && |st.rd.bits| <= 15
    requires (forall i :: 0 <= i < |comps| ==> comps[i] < 3) && UnitsHit(src, env, comps, st)
    ensures |Units(src, env, comps, st).st.rd.bits| <= 15
  {
    hide Usable, Unit, UnitHits;
    if comps != [] {
      var c := comps[0];
      UnitBound(src, env.dc[c], env.ac[c], c, st.rd, st.prev[c]);
      var u := UnitIn(src, env, c, st);
      if u.ok { UnitsBound(src, env, comps[1..], UnitSt(st, c, u)); }
    }
  }

  lemma {:induction false} RunBound(src: Src, env: Env, n: nat, st: St)
    requires ValidSrc(src) && ValidEnv(env) && ValidSt(st) && |st.rd.bits| <= 15 && RunHits(src, env, n, st)
    requires Run(src, env, n, st).ok
    ensures |Run(src, env, n, st).st.rd.bits| <= 15
    decreases n
  {
    hide Usable, Units, UnitsHit, Run;
    if n == 0 {
      RunEmpty(src, env, st);
    } else {
      RunStep(src, env, n, st);
      UnitsBound(src, env, env.mcu, st);
      RunBound(src, env, n - 1, Units(src, env, env.mcu, st).st);
    }
  }

  /** At the end of a well-formed interval whose symbols are all in the tables, the reservoir holds at most
      one whole unread byte, the marker's 0xFF, and giving it back lands on the marker. */
  lemma {:induction false} IntervalEnd(src: Src, env: Env, n: nat, start: nat, rst: nat, pad: seq<bool>, m: nat, q: nat)
    requires ValidSrc(src) && ValidEnv(env) && rst < 8
    requires var st := Resync(start, env.interval, rst);
             var r := Run(src, env, n, st); r.ok && Ends(src, start, r.st.rd, pad, m, q)
    ensures var st := Resync(start, env.interval, rst);
            var rd := Run(src, env, n, st).st.rd;
            && Rewind(src, rd) == m && |rd.bits| <= 23
            && (RunHits(src, env, n, st) ==> |rd.bits| / 8 <= 1 && Rewind(src, rd) == rd.pos - |rd.bits| / 8)
  {
    hide Usable, Run, RunHits, Ends, View;
    var st := Resync(start, env.interval, rst);
    var rd := Run(src, env, n, st).st.rd;
    OnwardStart(src, start);
    RunOnward(src, env, n, st, start);
    EndsLand(src, start, rd, pad, m, q);
    EndsShort(src, start, rd, pad, m, q);
    if RunHits(src, env, n, st) { RunBound(src, env, n, st); }
  }

  lemma {:induction false} EndsShort(src: Src, start: nat, rd: Rd, pad: seq<bool>, m: nat, q: nat)
    requires ValidSrc(src) && Forward(src, start, rd) && Ends(src, start, rd, pad, m, q)
    ensures m + 2 <= src.end && Rewind(src, rd) == rd.pos - |rd.bits| / 8
  {
    hide View, Reaches;
    EndsLand(src, start, rd, pad, m, q);
  }

  // ----- scans that pass no marker -----

  /** A complete scan that passes no restart marker is a run. */
  lemma {:induction false} NoRstRun(src: Src, env: Env, n: nat, st: St)
    requires ValidSrc(src) && ValidEnv(env) && ValidSt(st)
    requires var r := Scan(src, env, n, st); r.ok && r.clean && NoRst(r.toks)
    ensures var r, q := Scan(src, env, n, st), Run(src, env, n, st);
            q.ok && q.toks == r.toks && q.blocks == r.blocks
    decreases n
  {
    hide Units, Usable, Run, Mcu, Scan;
    ScanUnfold(src, env, n, st);
    if n == 0 {
      RunEmpty(src, env, st);
    } else {
      RunStep(src, env, n, st);
      var m, u := Mcu(src, env, st), Units(src, env, env.mcu, st);
      UnitsTogo(src, env, env.mcu, st);
      McuUnfold(src, env, st);
      NoRstParts(m.toks, Scan(src, env, n - 1, m.st).toks);
      if st.togo != 1 {
        McuInside(src, env, st);
        if n == 1 { ScanUnfold(src, env, 0, m.st); }
        NoRstRun(src, env, n - 1, m.st);
        RunTogo(src, env, n - 1, u.st, m.st.togo);
      } else {
        QuietEnd(src, env, st);
        RunEmpty(src, env, u.st);
        ScanUnfold(src, env, 0, m.st);
      }
    }
  }

  lemma {:induction false} NoRstParts(a: seq<Tok>, b: seq<Tok>)
    ensures NoRst(a + b) ==> NoRst(a) && NoRst(b)
  {
    if NoRst(a + b) {
      forall i | 0 <= i < |a| ensures !a[i].Rst? { assert a[i] == (a + b)[i]; }
      forall i | 0 <= i < |b| ensures !b[i].Rst? { assert b[i] == (a + b)[|a| + i]; }
    }
  }

  lemma {:induction false} RstSeen(k: nat)
    ensures !NoRst([Rst(k)])
  {
    assert [Rst(k)][0].Rst?;
  }

  lemma {:induction false} RunPart(src: Src, env: Env, k: nat, n: nat, st: St)
    requires ValidSrc(src) && ValidEnv(env) && ValidSt(st) && k <= n && Run(src, env, n, st).ok
    ensures Run(src, env, k, st).ok
    decreases k
  {
    hide Units, Usable, Run;
    if k == 0 {
      RunEmpty(src, env, st);
    } else {
      RunStep(src, env, k, st);
      RunStep(src, env, n, st);
      RunPart(src, env, k - 1, n - 1, Units(src, env, env.mcu, st).st);
    }
  }

  /** At the end of an interval, passing no marker means meeting the end of the image. */
  lemma {:induction false} QuietEnd(src: Src, env: Env, st: St)
    requires ValidSrc(src) && ValidEnv(env) && ValidSt(st) && st.togo == 1
    requires var m := Mcu(src, env, st); m.ok && NoRst(m.toks)
    ensures var u, m := Units(src, env, env.mcu, st), Mcu(src, env, st);
            u.ok && m.eoi && m.toks == u.toks && m.blocks == u.blocks
  {
    hide Units, Usable, FindMarker, Rewind;
    UnitsTogo(src, env, env.mcu, st);
    McuUnfold(src, env, st);
    var u := Units(src, env, env.mcu, st);
    var b := Boundary(src, env.interval, u.st);
    NoRstParts(u.toks, b.toks);
    RstSeen(u.st.rst);
    assert u.toks + [] == u.toks;
  }

  /** A file that passes no marker has no restart interval that ends before its last MCU. */
  lemma {:induction false} QuietLong(src: Src, env: Env, n: nat, st: St)
    requires ValidSrc(src) && ValidEnv(env) && ValidSt(st) && st.togo > 0
    requires var r := Scan(src, env, n, st); r.ok && r.clean && NoRst(r.toks)
    ensures n <= st.togo
    decreases n
  {
    hide Units, Usable, Mcu, Scan;
    ScanUnfold(src, env, n, st);
    if n > 0 {
      var m := Mcu(src, env, st);
      UnitsTogo(src, env, env.mcu, st);
      NoRstParts(m.toks, Scan(src, env, n - 1, m.st).toks);
      if st.togo != 1 {
        McuInside(src, env, st);
        if n == 1 { ScanUnfold(src, env, 0, m.st); }
        QuietLong(src, env, n - 1, m.st);
      } else {
        QuietEnd(src, env, st);
      }
    }
  }

  /** Where a restart interval ends and the search for its marker meets the end of the image, decoding goes
      on: the unread whole bytes are given back, the bits in front of them dropped, and the next MCU is read
      from there, with fresh predictors. */
  lemma {:induction false} MarkerMissing(src: Src, env: Env, t: nat, n: nat, st: St)
    requires ValidSrc(src) && ValidEnv(env) && ValidSt(st) && 0 < t <= n && st.togo == t
    requires var r := Run(src, env, t, st); r.ok && FindMarker(src.buf, Rewind(src, r.st.rd), st.rst) == AtEoi
    ensures var r, run := Scan(src, env, n, st), Run(src, env, t, st);
            var more := Scan(src, env, n - t, Resync(Rewind(src, run.st.rd), env.interval, st.rst));
            && r.ok == more.ok && r.toks == run.toks + more.toks && r.blocks == run.blocks + more.blocks
            && (r.clean <==> n == t)
    decreases t
  {
    hide Units, Usable, Run, Mcu, Scan, FindMarker, Rewind;
    ScanUnfold(src, env, n, st);
    RunStep(src, env, t, st);
    UnitsTogo(src, env, env.mcu, st);
    var m, u := Mcu(src, env, st), Units(src, env, env.mcu, st);
    McuUnfold(src, env, st);
    if t == 1 {
      RunEmpty(src, env, u.st);
      ScanUnfold(src, env, 0, m.st);
      assert u.toks + [] == u.toks;
    } else {
      McuInside(src, env, st);
      RunTogo(src, env, t - 1, u.st, t - 1);
      MarkerMissing(src, env, t - 1, n - 1, m.st);
    }
  }

  // ----- the end of the data -----

  lemma {:induction false} ReachesBits(src: Src, a: nat, b: nat)
    requires ValidSrc(src) && Reaches(src, a, b)
    ensures a <= b && |Unstuff(src, a)| <= |Unstuff(src, b)| + 8 * (b - a)
    decreases src.end - a
  {
    if a != b { ReachesBits(src, Next(src, a), b); }
  }

  /** A last byte other than 0xFF is not stepped over. */
  lemma {:induction false} ReachesInside(src: Src, a: nat, b: nat)
    requires ValidSrc(src) && Reaches(src, a, b) && a <= src.end && src.end > 0 && src.buf[src.end - 1] != 0xff
    ensures b <= src.end
    decreases src.end - a
  {
    if a != b { ReachesInside(src, Next(src, a), b); }
  }

  /** While the end marker is ahead, giving the unread bytes back stays in the data before it. */
  lemma {:induction false} RewindInside(src: Src, a: nat, rd: Rd)
    requires ValidSrc(src) && Forward(src, a, rd) && |View(src, rd)| >= 16 && a <= src.end && src.end >= 2
    requires src.buf[src.end - 2] == 0xff && src.buf[src.end - 1] == 0xd9
    ensures a <= Rewind(src, rd) <= src.end - 2
  {
    hide Reaches, BitsOf;
    var n, pos := |rd.bits|, rd.pos;
    assert |View(src, rd)| == n + |Unstuff(src, pos)|;
    ReachesBits(src, a, pos);
    ReachesInside(src, a, pos);
    LastBits(src, pos);
  }

  lemma {:induction false} LastBits(src: Src, pos: nat)
    requires ValidSrc(src) && src.end >= 2 && pos <= src.end && src.buf[src.end - 1] == 0xd9
    ensures pos == src.end ==> |Unstuff(src, pos)| == 0
    ensures pos == src.end - 1 ==> |Unstuff(src, pos)| == 8
  {
    hide BitsOf;
    if pos == src.end - 1 { assert Next(src, pos) == src.end; }
  }
}

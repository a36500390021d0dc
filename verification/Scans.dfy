/** Decoding a whole scan: MCUs of several components, restart intervals and their markers. */
module Scans {
  import opened Bits
  import opened Canonical
  import opened BitReader
  import opened Blocks

  /** The tables of the three components, the component of each block of an MCU,
      and the restart interval (0: none). */
  datatype Env = Env(dc: seq<Huff>, ac: seq<Huff>, mcu: seq<nat>, interval: nat)

  predicate ValidEnv(env: Env) {
    && |env.dc| == 3 && |env.ac| == 3
    && (forall c :: 0 <= c < 3 ==> Usable(env.dc[c]) && Usable(env.ac[c]))
    && (forall i :: 0 <= i < |env.mcu| ==> env.mcu[i] < 3)
  }

  /** The reader, the three DC predictors, the MCUs left in the restart interval (negative: no
      restarts), and the number of the next restart marker. */
  datatype St = St(rd: Rd, prev: seq<int>, togo: int, rst: nat)

  predicate ValidSt(st: St) {
    |st.prev| == 3 && st.rst < 8
  }

  function Resync(pos: nat, interval: nat, rst: nat): St {
    St(Rd(pos, []), [0, 0, 0], if interval > 0 then interval else -1, rst)
  }

  datatype MarkerOut = Found(pos: nat) | AtEoi | Lost

  function SkipFf(buf: seq<byte>, p: nat): (q: nat)
    requires p <= |buf|
    ensures p <= q <= |buf|
    decreases |buf| - p
  {
    if p < |buf| && buf[p] == 0xff then SkipFf(buf, p + 1) else p
  }

  /** Looks for restart marker k from p on, past data, fill bytes and other markers.
      `Lost`: the search runs off the buffer. */
  function FindMarker(buf: seq<byte>, p: nat, k: nat): (r: MarkerOut)
    requires p <= |buf|
    ensures r.Found? ==> p + 2 <= r.pos <= |buf| && buf[r.pos - 1] == 0xd0 + k
    decreases |buf| - p
  {
    if p == |buf| then Lost
    else if buf[p] != 0xff then FindMarker(buf, p + 1, k)
    else
      var q := SkipFf(buf, p + 1);
      if q == |buf| then Lost
      else if buf[q] == 0xd0 + k then Found(q + 1)
      else if buf[q] == 0xd9 then AtEoi
      else FindMarker(buf, q + 1, k)
  }

  /** The position after giving the whole unread bytes of the reservoir back. */
  function Rewind(src: Src, rd: Rd): (p: nat)
    requires ValidSrc(src)
    ensures p <= |src.buf|
  {
    var p := rd.pos - |rd.bits| / 8;
    if 0 <= p <= |src.buf| then p else |src.buf|
  }

  datatype BoundOut = BoundOut(toks: seq<Tok>, ok: bool, eoi: bool, st: St)

  /** What happens behind an MCU: at the end of a restart interval, resynchronise. */
  function Boundary(src: Src, interval: nat, st: St): (r: BoundOut)
    requires ValidSrc(src) && ValidSt(st)
    ensures ValidSt(r.st)
  {
    if st.togo <= 0 then BoundOut([], true, false, st)
    else if st.togo > 1 then BoundOut([], true, false, st.(togo := st.togo - 1))
    else
      var p := Rewind(src, st.rd);
      match FindMarker(src.buf, p, st.rst)
      case Found(q) => BoundOut([Rst(st.rst)], true, false, Resync(q, interval, (st.rst + 1) % 8))
      case AtEoi => BoundOut([], true, true, Resync(p, interval, st.rst))
      case Lost => BoundOut([], false, false, st)
  }

  /** `ok`: the data did not run out. `eoi`: the boundary behind the last MCU met the end of the
      image. `clean`: no earlier boundary did. */
  datatype ScanOut = ScanOut(toks: seq<Tok>, blocks: seq<seq<int>>, ok: bool, clean: bool, eoi: bool, st: St)

  /** One block of component c. */
  function UnitIn(src: Src, env: Env, c: nat, st: St): UnitOut
    requires ValidSrc(src) && ValidEnv(env) && ValidSt(st) && c < 3
  {
    Unit(src, env.dc[c], env.ac[c], c, st.rd, st.prev[c])
  }

  /** The state behind it. */
  function UnitSt(st: St, c: nat, u: UnitOut): (r: St)
    requires ValidSt(st) && c < 3
    ensures ValidSt(r)
  {
    st.(rd := u.rd, prev := st.prev[c := u.prev])
  }

  /** The blocks of one MCU. */
  function Units(src: Src, env: Env, comps: seq<nat>, st: St): (r: ScanOut)
    requires ValidSrc(src) && ValidEnv(env) && ValidSt(st)
    requires forall i :: 0 <= i < |comps| ==> comps[i] < 3
    ensures ValidSt(r.st)
  {
    if comps == [] then ScanOut([], [], true, true, false, st)
    else
      var u := UnitIn(src, env, comps[0], st);
      var st1 := UnitSt(st, comps[0], u);
      if !u.ok then ScanOut(u.toks, [], false, true, false, st1)
      else
        var r := Units(src, env, comps[1..], st1);
        r.(toks := u.toks + r.toks, blocks := [u.dct] + r.blocks)
  }

  /** One MCU and the boundary behind it. */
  function Mcu(src: Src, env: Env, st: St): (r: ScanOut)
    requires ValidSrc(src) && ValidEnv(env) && ValidSt(st)
    ensures ValidSt(r.st)
  {
    var u := Units(src, env, env.mcu, st);
    if !u.ok then u
    else
      var b := Boundary(src, env.interval, u.st);
      ScanOut(u.toks + b.toks, u.blocks, b.ok, true, b.eoi, b.st)
  }

  /** n MCUs. */
  function Scan(src: Src, env: Env, n: nat, st: St): (r: ScanOut)
    requires ValidSrc(src) && ValidEnv(env) && ValidSt(st)
    ensures ValidSt(r.st)
    decreases n
  {
    if n == 0 then ScanOut([], [], true, true, false, st)
    else
      var m := Mcu(src, env, st);
      if !m.ok then m
      else
        var r := Scan(src, env, n - 1, m.st);
        ScanOut(m.toks + r.toks, m.blocks + r.blocks, r.ok,
                n == 1 || (!m.eoi && r.clean), if n == 1 then m.eoi else r.eoi, r.st)
  }

  lemma {:induction false} PrefixConcat(a: seq<Tok>, x: seq<Tok>, y: seq<Tok>)
    requires x <= y
    ensures a + x <= a + y
  {
    assert a + y == (a + x) + y[|x|..];
  }

  /** The first MCUs of a scan do not depend on how many are decoded: the symbols of a shorter run
      are a prefix of those of a longer one, also when either runs out of data. */
  lemma {:induction false} ScanPrefix(src: Src, env: Env, m: nat, n: nat, st: St)
    requires ValidSrc(src) && ValidEnv(env) && ValidSt(st) && m <= n
    ensures Scan(src, env, m, st).toks <= Scan(src, env, n, st).toks
    decreases n
  {
    hide Usable, Mcu;
    if m > 0 {
      var u := Mcu(src, env, st);
      if u.ok {
        ScanPrefix(src, env, m - 1, n - 1, u.st);
        PrefixConcat(u.toks, Scan(src, env, m - 1, u.st).toks, Scan(src, env, n - 1, u.st).toks);
      }
    }
  }

  /** The environment of the re-encoded scan: component 0 uses tables 0 and 2, the others 1 and 3. */
  function NewEnv(codes: seq<Huff>, mcu: seq<nat>, interval: nat): (env: Env)
    requires UsableCodes(codes) && forall i :: 0 <= i < |mcu| ==> mcu[i] < 3
    ensures ValidEnv(env) && env.mcu == mcu && env.interval == interval
  {
    Env([codes[0], codes[1], codes[1]], [codes[2], codes[3], codes[3]], mcu, interval)
  }

  lemma {:induction false} UnitsNoRst(src: Src, env: Env, comps: seq<nat>, st: St)
    requires ValidSrc(src) && ValidEnv(env) && ValidSt(st)
    requires forall i :: 0 <= i < |comps| ==> comps[i] < 3
    ensures NoRst(Units(src, env, comps, st).toks)
  {
    hide Usable, Unit;
    if comps != [] {
      var c := comps[0];
      UnitNoRst(src, env.dc[c], env.ac[c], c, st.rd, st.prev[c]);
      var u := Unit(src, env.dc[c], env.ac[c], c, st.rd, st.prev[c]);
      if u.ok { UnitsNoRst(src, env, comps[1..], st.(rd := u.rd, prev := st.prev[c := u.prev])); }
    }
  }

  /** Without a restart interval there are no restart markers. */
  lemma {:induction false} ScanNoRst(src: Src, env: Env, n: nat, st: St)
    requires ValidSrc(src) && ValidEnv(env) && ValidSt(st) && st.togo <= 0
    ensures NoRst(Scan(src, env, n, st).toks)
    decreases n
  {
    hide Usable, Unit;
    if n > 0 {
      UnitsNoRst(src, env, env.mcu, st);
      UnitsTogo(src, env, env.mcu, st);
      var m := Mcu(src, env, st);
      if m.ok { ScanNoRst(src, env, n - 1, m.st); }
    }
  }

  /** The numbers of the restart markers passed, in order. */
  function Markers(toks: seq<Tok>): seq<nat> {
    if toks == [] then [] else Marker(toks[0]) + Markers(toks[1..])
  }

  function Marker(t: Tok): seq<nat> { if t.Rst? then [t.number] else [] }

  lemma {:induction false} MarkersConcat(a: seq<Tok>, b: seq<Tok>)
    ensures Markers(a + b) == Markers(a) + Markers(b)
  {
    hide Marker;
    if a == [] {
      assert a + b == b;
    } else {
      MarkersConcat(a[1..], b);
      assert (a + b)[0] == a[0] && (a + b)[1..] == a[1..] + b;
      assert Markers(a + b) == Marker(a[0]) + Markers(a[1..] + b);
    }
  }

  lemma {:induction false} MarkersNone(toks: seq<Tok>)
    requires NoRst(toks)
    ensures Markers(toks) == []
  {
    if toks != [] { MarkersNone(toks[1..]); }
  }

  /** One MCU passes no marker, or the one that is due. */
  lemma {:induction false} McuMarker(src: Src, env: Env, st: St)
    requires ValidSrc(src) && ValidEnv(env) && ValidSt(st)
    ensures var m := Mcu(src, env, st);
            || (Markers(m.toks) == [] && m.st.rst == st.rst)
            || (Markers(m.toks) == [st.rst] && m.st.rst == (st.rst + 1) % 8)
  {
    hide Unit, FindMarker, Rewind, Usable, Markers;
    UnitsNoRst(src, env, env.mcu, st);
    UnitsTogo(src, env, env.mcu, st);
    var u := Units(src, env, env.mcu, st);
    MarkersNone(u.toks);
    if u.ok {
      var b := Boundary(src, env.interval, u.st);
      MarkersConcat(u.toks, b.toks);
      MarkersOne(b.toks);
    }
  }

  lemma {:induction false} MarkersOne(toks: seq<Tok>)
    requires |toks| <= 1
    ensures Markers(toks) == if |toks| == 1 && toks[0].Rst? then [toks[0].number] else []
  {
    if |toks| == 1 { assert Markers(toks[1..]) == []; }
  }

  /** The k-th restart marker passed is RST(k mod 8), counted from the state's own number; the output
      carries the same tokens, so the k-th one written is the same. */
  lemma {:induction false} MarkersInOrder(src: Src, env: Env, n: nat, st: St, k: nat)
    requires ValidSrc(src) && ValidEnv(env) && ValidSt(st)
    requires k < |Markers(Scan(src, env, n, st).toks)|
    ensures Markers(Scan(src, env, n, st).toks)[k] == (st.rst + k) % 8
    decreases n
  {
    hide Mcu, ValidSrc, ValidEnv, Markers, Scan;
    ScanToks(src, env, n, st);
    MarkersNone([]);
    if n > 0 {
      var m := Mcu(src, env, st);
      McuMarker(src, env, st);
      if m.ok {
        var rest := Scan(src, env, n - 1, m.st).toks;
        MarkersConcat(m.toks, rest);
        if Markers(m.toks) == [] {
          MarkersInOrder(src, env, n - 1, m.st, k);
        } else if k > 0 {
          MarkersInOrder(src, env, n - 1, m.st, k - 1);
          NextNumber(st.rst, k - 1);
        }
      }
    }
  }

  lemma {:induction false} NextNumber(rst: nat, k: nat)
    requires rst < 8
    ensures ((rst + 1) % 8 + k) % 8 == (rst + (k + 1)) % 8
  {
    if rst == 7 { assert (7 + (k + 1)) % 8 == k % 8; }
  }

  lemma {:induction false} ScanToks(src: Src, env: Env, n: nat, st: St)
    requires ValidSrc(src) && ValidEnv(env) && ValidSt(st)
    ensures var r := Scan(src, env, n, st);
            if n == 0 then r.toks == [] else
            var m := Mcu(src, env, st);
            r.toks == if m.ok then m.toks + Scan(src, env, n - 1, m.st).toks else m.toks
  {
    hide Mcu, Usable;
  }

  lemma {:induction false} UnitsTogo(src: Src, env: Env, comps: seq<nat>, st: St)
    requires ValidSrc(src) && ValidEnv(env) && ValidSt(st)
    requires forall i :: 0 <= i < |comps| ==> comps[i] < 3
    ensures Units(src, env, comps, st).st.togo == st.togo && Units(src, env, comps, st).st.rst == st.rst
  {
    hide UnitIn, ValidEnv;
    if comps != [] {
      var u := UnitIn(src, env, comps[0], st);
      if u.ok { UnitsTogo(src, env, comps[1..], UnitSt(st, comps[0], u)); }
    }
  }

  /** Re-encoding the blocks of an MCU and decoding them again. */
  lemma {:induction false} UnitsAgree(src: Src, env: Env, comps: seq<nat>, st: St,
                                      codes: seq<Huff>, out: Src, start: nat, st2: St, x: seq<bool>)
    requires ValidSrc(src) && ValidEnv(env) && ValidSt(st) && ValidSrc(out) && UsableCodes(codes)
    requires forall i :: 0 <= i < |comps| ==> comps[i] < 3
    requires st2.prev == st.prev && st2.togo == st.togo && st2.rst == st.rst && |x| >= 16
    requires var r := Units(src, env, comps, st);
             && r.ok && AllCovered(codes, r.toks)
             && At(out, start, st2.rd, SegBits(codes, r.toks) + x)
    ensures var r := Units(src, env, comps, st);
            var q := Units(out, NewEnv(codes, env.mcu, env.interval), comps, st2);
            && q.ok && q.toks == r.toks && q.blocks == r.blocks && q.st == r.st.(rd := q.st.rd)
            && At(out, start, q.st.rd, x)
    decreases |comps|
  {
    hide Usable, Unit, SegBits, At;
    EmptySeg(codes, x);
    if comps != [] {
      var c := comps[0];
      var u := Unit(src, env.dc[c], env.ac[c], c, st.rd, st.prev[c]);
      var st1 := st.(rd := u.rd, prev := st.prev[c := u.prev]);
      var rest := Units(src, env, comps[1..], st1).toks;
      UnitNoRst(src, env.dc[c], env.ac[c], c, st.rd, st.prev[c]);
      SplitSeg(codes, u.toks, rest, x);
      UnitAgree(src, env.dc[c], env.ac[c], c, st.rd, st.prev[c], codes, out, start, st2.rd, SegBits(codes, rest) + x);
      var q := Unit(out, codes[DcTable(c)], codes[AcTable(c)], c, st2.rd, st2.prev[c]);
      UnitsAgree(src, env, comps[1..], st1, codes, out, start, st2.(rd := q.rd, prev := st2.prev[c := q.prev]), x);
    }
  }

  lemma {:induction false} UnstuffWhole(src: Src, p: nat)
    requires ValidSrc(src)
    ensures |Unstuff(src, p)| % 8 == 0
    decreases src.end - p
  {
    if p < src.end { UnstuffWhole(src, Next(src, p)); }
  }

  /** A reader that started at a, holds what fits the reservoir, and has not read past the end. */
  predicate Onward(src: Src, a: nat, rd: Rd)
    requires ValidSrc(src)
  {
    Reaches(src, a, rd.pos) && |rd.bits| <= 23
  }

  /** Restart resynchronisation: when fewer than 8 bits and what stands at m are left to read, a marker or any
      two bytes without stuffing, the unread bytes in the reservoir, of which there are at most two, are the
      first ones there, and giving them back lands on m. A reservoir of at most 15 bits holds at most one. */
  lemma {:induction false} LandOnMarker(src: Src, start: nat, rd: Rd, pad: seq<bool>, m: nat)
    requires ValidSrc(src) && m + 2 <= src.end && |pad| < 8
    requires (src.buf[m] == 0xff ==> src.buf[m + 1] != 0) && (src.buf[m + 1] == 0xff ==> src.buf[m + 2] != 0)
    requires Onward(src, start, rd) && Reaches(src, start, m) && View(src, rd) == pad + Unstuff(src, m)
    ensures Rewind(src, rd) == m
    ensures |rd.bits| == |pad| || |rd.bits| == |pad| + 8 || |rd.bits| == |pad| + 16
    ensures |rd.bits| <= 15 ==> |rd.bits| <= |pad| + 8
  {
    hide View, Reaches, BitsOf;
    var n := |rd.bits|;
    assert |Unstuff(src, rd.pos)| == |pad| + |Unstuff(src, m)| - n by { ViewCount(src, rd, pad, m); }
    UnstuffWhole(src, m);
    UnstuffWhole(src, rd.pos);
    StepOver(src, start, m);
    StepOver(src, start, m + 1);
    if n == |pad| {
      ReachesUnique(src, start, rd.pos, m);
    } else if n == |pad| + 8 {
      ReachesUnique(src, start, rd.pos, m + 1);
    } else {
      assert n == |pad| + 16;
      ReachesUnique(src, start, rd.pos, m + 2);
    }
  }

  lemma {:induction false} AtOnward(src: Src, start: nat, rd: Rd, x: seq<bool>)
    requires ValidSrc(src) && At(src, start, rd, x)
    ensures Onward(src, start, rd) && View(src, rd) == x && |rd.bits| <= 15
  {}

  lemma {:induction false} ViewCount(src: Src, rd: Rd, pad: seq<bool>, m: nat)
    requires ValidSrc(src) && View(src, rd) == pad + Unstuff(src, m)
    ensures |Unstuff(src, rd.pos)| == |pad| + |Unstuff(src, m)| - |rd.bits|
  {
    assert |View(src, rd)| == |rd.bits| + |Unstuff(src, rd.pos)|;
  }

  lemma {:induction false} FindHere(buf: seq<byte>, p: nat, k: nat)
    requires p < |buf| && buf[p] == 0xff && SkipFf(buf, p + 1) < |buf| && k < 8
    ensures var q := SkipFf(buf, p + 1);
            && (buf[q] == 0xd0 + k ==> FindMarker(buf, p, k) == Found(q + 1))
            && (buf[q] == 0xd9 ==> FindMarker(buf, p, k) == AtEoi)
  {}

  /** A byte behind p that 0xFF, and no fill byte, precedes. */
  predicate CodeByte(buf: seq<byte>, p: nat, i: nat) {
    p < i < |buf| && buf[i - 1] == 0xff && buf[i] != 0xff
  }

  /** The search for marker k, from outside: it stops at the first code byte that is that of RST(k) or of the end of the
      image, behind it or before its marker, and is lost when there is none. */
  ghost predicate FirstOf(buf: seq<byte>, p: nat, k: nat, i: nat) {
    && CodeByte(buf, p, i) && (buf[i] == 0xd0 + k || buf[i] == 0xd9)
    && forall l: nat :: CodeByte(buf, p, l) && l < i ==> buf[l] != 0xd0 + k && buf[l] != 0xd9
  }

  lemma {:induction false} MarkerFirst(buf: seq<byte>, p: nat, k: nat)
    requires p <= |buf| && k < 8
    ensures match FindMarker(buf, p, k)
            case Found(q) => q > 0 && FirstOf(buf, p, k, q - 1) && buf[q - 1] == 0xd0 + k
            case AtEoi => exists i: nat :: FirstOf(buf, p, k, i) && buf[i] == 0xd9
            case Lost => forall i: nat :: CodeByte(buf, p, i) ==> buf[i] != 0xd0 + k && buf[i] != 0xd9
    decreases |buf| - p
  {
    hide CodeByte, FirstOf, SkipFf;
    if p == |buf| {
      NoCodes(buf, p);
    } else if buf[p] != 0xff {
      MarkerFirst(buf, p + 1, k);
      SameCodes(buf, p, k);
    } else {
      var q := SkipFf(buf, p + 1);
      CodesFrom(buf, p, k);
      if q < |buf| && buf[q] != 0xd0 + k && buf[q] != 0xd9 { MarkerFirst(buf, q + 1, k); }
    }
  }

  lemma {:induction false} NoCodes(buf: seq<byte>, p: nat)
    requires p == |buf|
    ensures forall i: nat :: !CodeByte(buf, p, i)
  {}

  /** Behind another byte than 0xFF stands no code byte. */
  lemma {:induction false} SameCodes(buf: seq<byte>, p: nat, k: nat)
    requires p < |buf| && buf[p] != 0xff
    ensures forall i: nat :: CodeByte(buf, p, i) <==> CodeByte(buf, p + 1, i)
    ensures forall i: nat :: FirstOf(buf, p, k, i) <==> FirstOf(buf, p + 1, k, i)
  {
    assert forall i: nat :: CodeByte(buf, p, i) <==> CodeByte(buf, p + 1, i);
  }

  /** Behind 0xFF and fill bytes stands one. */
  lemma {:induction false} CodesFrom(buf: seq<byte>, p: nat, k: nat)
    requires p < |buf| && buf[p] == 0xff
    ensures var q := SkipFf(buf, p + 1);
            if q == |buf| then forall i: nat :: !CodeByte(buf, p, i)
            else
              && CodeByte(buf, p, q)
              && (forall i: nat :: CodeByte(buf, p, i) <==> i == q || CodeByte(buf, q + 1, i))
              && if buf[q] == 0xd0 + k || buf[q] == 0xd9 then FirstOf(buf, p, k, q)
                 else forall i: nat :: FirstOf(buf, q + 1, k, i) ==> FirstOf(buf, p, k, i)
  {
    hide SkipFf;
    var q := SkipFf(buf, p + 1);
    FillBytes(buf, p + 1);
    if q < |buf| {
      assert forall i: nat :: CodeByte(buf, p, i) <==> i == q || CodeByte(buf, q + 1, i);
    }
  }

  lemma {:induction false} FillBytes(buf: seq<byte>, p: nat)
    requires p <= |buf|
    ensures forall i :: p <= i < SkipFf(buf, p) ==> buf[i] == 0xff
    ensures SkipFf(buf, p) < |buf| ==> buf[SkipFf(buf, p)] != 0xff
    decreases |buf| - p
  {
    if p < |buf| && buf[p] == 0xff { FillBytes(buf, p + 1); }
  }

  /** A scan, MCU by MCU. */
  lemma {:induction false} ScanUnfold(src: Src, env: Env, n: nat, st: St)
    requires ValidSrc(src) && ValidEnv(env) && ValidSt(st)
    ensures var r := Scan(src, env, n, st);
            if n == 0 then r == ScanOut([], [], true, true, false, st) else
            var m := Mcu(src, env, st);
            if !m.ok then r == m else
            var q := Scan(src, env, n - 1, m.st);
            r == ScanOut(m.toks + q.toks, m.blocks + q.blocks, q.ok, n == 1 || (!m.eoi && q.clean),
                         if n == 1 then m.eoi else q.eoi, q.st)
  {
    hide Mcu, Usable;
  }

  lemma {:induction false} McuUnfold(src: Src, env: Env, st: St)
    requires ValidSrc(src) && ValidEnv(env) && ValidSt(st)
    ensures var u, m := Units(src, env, env.mcu, st), Mcu(src, env, st);
            if !u.ok then m == u && !m.ok else
            var b := Boundary(src, env.interval, u.st);
            m == ScanOut(u.toks + b.toks, u.blocks, b.ok, true, b.eoi, b.st)
  {
    hide Units, Boundary, Usable;
  }

  /** Behind a byte that carries no stuffing lies the next one. */
  lemma {:induction false} StepOver(src: Src, start: nat, m: nat)
    requires ValidSrc(src) && m < src.end && (src.buf[m] == 0xff ==> src.buf[m + 1] != 0)
    requires Reaches(src, start, m)
    ensures Reaches(src, start, m + 1) && Unstuff(src, m) == BitsOf(src.buf[m], 8) + Unstuff(src, m + 1)
  {
    assert Next(src, m) == m + 1;
    assert Reaches(src, m, m + 1);
    ReachesTrans(src, start, m, m + 1);
  }
}

/** The central result: a re-encoded scan decodes to the blocks of the original. */
module Transcoding {
  import opened Bits
  import opened Canonical
  import opened BitReader
  import opened Blocks
  import opened Scans
  import opened Packing

  /** Where the current segment of the output ends: the position of the 0xFF of its marker,
      the padding bits before it, and the marker. */
  datatype SegInfo = SegInfo(end: nat, pad: nat, marker: byte)

  function Seg(codes: seq<Huff>, pk: Pk, toks: seq<Tok>): (g: SegInfo)
    requires UsableCodes(codes) && ValidPk(pk) && AllCovered(codes, toks)
    ensures g.pad < 8 && 0xd0 <= g.marker <= 0xd9
    decreases |toks|
  {
    if toks == [] then SegInfo(|Out(pk)| + |StuffAll(LastByte(pk))|, PadLen(pk), 0xd9)
    else if toks[0].Rst? then SegInfo(|Out(pk)| + |LastByte(pk)|, PadLen(pk), 0xd0 + toks[0].number)
    else Seg(codes, EmitOne(codes, pk, toks[0]), toks[1..])
  }

  /** What a reader finds behind the strings of the current segment: padding, then the marker. */
  function SegTail(codes: seq<Huff>, pk: Pk, toks: seq<Tok>, out: Src): seq<bool>
    requires UsableCodes(codes) && ValidPk(pk) && AllCovered(codes, toks) && ValidSrc(out)
  {
    Ones(Seg(codes, pk, toks).pad) + Unstuff(out, Seg(codes, pk, toks).end)
  }

  lemma {:induction false} FilePrefix(codes: seq<Huff>, pk: Pk, toks: seq<Tok>)
    requires UsableCodes(codes) && ValidPk(pk) && AllCovered(codes, toks)
    ensures pk.prefix <= File(codes, pk, toks)
    decreases |toks|
  {
    hide Usable, LastByte, TokBits, StuffAll, ByteOf;
    if toks != [] { FilePrefix(codes, EmitOne(codes, pk, toks[0]), toks[1..]); }
  }

  /** A finished segment, with its last byte stuffed or not, reads back as its bits and padding. */
  lemma {:induction false} ClosedSegment(out: Src, pk: Pk, last: seq<byte>, m: byte)
    requires ValidSrc(out) && ValidPk(pk) && m != 0
    requires last == LastByte(pk) || last == StuffAll(LastByte(pk))
    requires Out(pk) + last + [0xff, m] <= out.buf[..out.end]
    ensures var e := |Out(pk)| + |last|;
            && e + 2 <= out.end && out.buf[e] == 0xff && out.buf[e + 1] == m
            && Reaches(out, |pk.prefix|, e)
            && Unstuff(out, |pk.prefix|) == PkBits(pk) + (Ones(PadLen(pk)) + Unstuff(out, e))
  {
    hide Stuff, ByteOf, Unstuff, Reaches, BytesBits, LastByte, StuffAll;
    var p, q, e := |pk.prefix|, |Out(pk)|, |Out(pk)| + |last|;
    Slices(out.buf, out.end, pk.prefix, StuffAll(pk.done), last, 0xff, m);
    UnstuffStuff(out, p, pk.done);
    LastBits(out, q, pk, last);
    ReachesTrans(out, p, q, e);
  }

  lemma {:induction false} Slices(buf: seq<byte>, end: nat, a: seq<byte>, d: seq<byte>, l: seq<byte>, x: byte, y: byte)
    requires end <= |buf| && a + d + l + [x, y] <= buf[..end]
    ensures var p, q, e := |a|, |a + d|, |a + d| + |l|;
            e + 2 <= end && buf[p..q] == d && buf[q..e] == l && buf[e] == x && buf[e + 1] == y
  {
    var w := a + d + l + [x, y];
    var p, q, e := |a|, |a + d|, |a + d| + |l|;
    assert w == buf[..|w|];
    assert w[p..q] == d && w[q..e] == l && w[e] == x && w[e + 1] == y;
    assert buf[p..q] == w[p..q] && buf[q..e] == w[q..e];
  }

  lemma {:induction false} LastBits(out: Src, q: nat, pk: Pk, last: seq<byte>)
    requires ValidSrc(out) && ValidPk(pk) && q + |last| + 2 <= out.end && out.buf[q..q + |last|] == last
    requires last == LastByte(pk) || last == StuffAll(LastByte(pk))
    requires out.buf[q + |last|] == 0xff
    ensures Unstuff(out, q) == pk.pend + Ones(PadLen(pk)) + Unstuff(out, q + |last|)
    ensures Reaches(out, q, q + |last|)
  {
    hide Stuff, ByteOf, Unstuff, Reaches, Next, Ones;
    if pk.pend == [] {
      ReachesSelf(out, q);
    } else {
      ByteOfBits(pk.pend + Ones(8 - |pk.pend|));
      LastStep(out, q, ByteOf(pk.pend + Ones(8 - |pk.pend|)), last);
    }
  }

  lemma {:induction false} LastStep(out: Src, q: nat, b: byte, last: seq<byte>)
    requires ValidSrc(out) && q + |last| + 2 <= out.end && out.buf[q..q + |last|] == last
    requires last == [b] || last == StuffAll([b])
    requires out.buf[q + |last|] == 0xff
    ensures Unstuff(out, q) == BitsOf(b, 8) + Unstuff(out, q + |last|)
    ensures Reaches(out, q, q + |last|)
  {
    hide Unstuff, BitsOf, Reaches, Next;
    assert StuffAll([b]) == Stuff(b) by { assert [b][..0] == []; }
    if last == Stuff(b) {
      StuffedStep(out, q, b);
    } else {
      assert out.buf[q] == out.buf[q..q + |last|][0];
      ReachesSelf(out, q);
      StepOver(out, q, q);
    }
  }

  /** From the start of the current segment, the finished file reads as the bits packed so far,
      the strings still to come, padding and a marker. */
  lemma {:induction false} OutView(codes: seq<Huff>, pk: Pk, toks: seq<Tok>, out: Src)
    requires UsableCodes(codes) && ValidPk(pk) && AllCovered(codes, toks)
    requires ValidSrc(out) && out.buf[..out.end] == File(codes, pk, toks)
    ensures var g := Seg(codes, pk, toks);
            && g.end + 2 <= out.end && out.buf[g.end] == 0xff && out.buf[g.end + 1] == g.marker
            && Reaches(out, |pk.prefix|, g.end)
    ensures Unstuff(out, |pk.prefix|) == PkBits(pk) + (SegBits(codes, toks) + SegTail(codes, pk, toks, out))
    decreases |toks|
  {
    hide Usable, Unstuff, Reaches, PkBits, LastByte, StuffAll, ByteOf;
    if toks == [] {
      ClosedSegment(out, pk, StuffAll(LastByte(pk)), 0xd9);
      EmptySeg(codes, SegTail(codes, pk, toks, out));
    } else if toks[0].Rst? {
      FilePrefix(codes, EmitOne(codes, pk, toks[0]), toks[1..]);
      ClosedSegment(out, pk, LastByte(pk), 0xd0 + toks[0].number);
      EmptySeg(codes, SegTail(codes, pk, toks, out));
    } else {
      var pk' := EmitOne(codes, pk, toks[0]);
      TokLen(codes, toks[0]);
      PutKeeps(pk, TokBits(codes, toks[0]));
      OutView(codes, pk', toks[1..], out);
      Assoc(PkBits(pk), TokBits(codes, toks[0]), SegBits(codes, toks[1..]), SegTail(codes, pk', toks[1..], out));
    }
  }

  lemma {:induction false} Assoc(a: seq<bool>, b: seq<bool>, c: seq<bool>, d: seq<bool>)
    ensures (a + b) + (c + d) == a + ((b + c) + d)
  {}

  lemma {:induction false} EmitAppend(codes: seq<Huff>, pk: Pk, u: seq<Tok>, rest: seq<Tok>)
    requires UsableCodes(codes) && ValidPk(pk) && AllCovered(codes, u) && NoRst(u)
    requires AllCovered(codes, rest) && AllCovered(codes, u + rest)
    ensures var pk1 := EmitAll(codes, pk, u);
            && pk1.prefix == pk.prefix
            && File(codes, pk, u + rest) == File(codes, pk1, rest)
            && Seg(codes, pk, u + rest) == Seg(codes, pk1, rest)
    decreases |u|
  {
    hide Usable, LastByte, TokBits, StuffAll, ByteOf, FlushEnd;
    if u == [] {
      assert u + rest == rest;
    } else {
      assert (u + rest)[1..] == u[1..] + rest;
      TokLen(codes, u[0]);
      EmitAppend(codes, EmitOne(codes, pk, u[0]), u[1..], rest);
    }
  }

  /** A reader in the output that has used up what was packed so far. */
  predicate Synced(codes: seq<Huff>, pk: Pk, toks: seq<Tok>, out: Src, rd: Rd)
    requires UsableCodes(codes) && ValidPk(pk) && AllCovered(codes, toks) && ValidSrc(out)
  {
    At(out, |pk.prefix|, rd, SegBits(codes, toks) + SegTail(codes, pk, toks, out))
  }

  lemma {:induction false} TailLong(codes: seq<Huff>, pk: Pk, toks: seq<Tok>, out: Src)
    requires UsableCodes(codes) && ValidPk(pk) && AllCovered(codes, toks)
    requires ValidSrc(out) && out.buf[..out.end] == File(codes, pk, toks)
    ensures |SegTail(codes, pk, toks, out)| >= 16
  {
    hide Usable, File, SegBits, Reaches, BitsOf, PkBits;
    OutView(codes, pk, toks, out);
    var e := Seg(codes, pk, toks).end;
    ReachesSelf(out, e);
    StepOver(out, e, e);
    assert |Unstuff(out, e + 1)| >= 8;
  }

  /** A fresh segment: the reader restarts exactly where the packer did. */
  lemma {:induction false} FreshSegment(codes: seq<Huff>, pk: Pk, toks: seq<Tok>, out: Src)
    requires UsableCodes(codes) && ValidPk(pk) && AllCovered(codes, toks)
    requires pk.done == [] && pk.pend == []
    requires ValidSrc(out) && out.buf[..out.end] == File(codes, pk, toks)
    ensures Synced(codes, pk, toks, out, Rd(|pk.prefix|, []))
  {
    hide Usable, File, SegBits, SegTail, Unstuff, Reaches, BytesBits;
    OutView(codes, pk, toks, out);
    ReachesSelf(out, |pk.prefix|);
  }

  predicate SameSt(a: St, b: St) {
    a.prev == b.prev && a.togo == b.togo && a.rst == b.rst
  }

  /** At the end of a segment the reader in the output lands on its marker. */
  lemma {:induction false} LandOnSegment(codes: seq<Huff>, pk: Pk, toks: seq<Tok>, out: Src, rd: Rd)
    requires UsableCodes(codes) && ValidPk(pk) && AllCovered(codes, toks)
    requires ValidSrc(out) && out.buf[..out.end] == File(codes, pk, toks)
    requires toks == [] || toks[0].Rst?
    requires Synced(codes, pk, toks, out, rd)
    ensures var g := Seg(codes, pk, toks);
            && Rewind(out, rd) == g.end && g.end + 2 <= |out.buf|
            && out.buf[g.end] == 0xff && out.buf[g.end + 1] == g.marker
  {
    hide Usable, File, At, View, Unstuff, Reaches, LastByte, Rewind;
    OutView(codes, pk, toks, out);
    var g := Seg(codes, pk, toks);
    EmptySeg(codes, SegTail(codes, pk, toks, out));
    AtOnward(out, |pk.prefix|, rd, SegTail(codes, pk, toks, out));
    LandOnMarker(out, |pk.prefix|, rd, Ones(g.pad), g.end);
  }

  /** Behind the last MCU of a restart interval of the output: the marker written there is passed, and the next
      segment starts; or the end of the image is met. */
  lemma {:induction false} OutBoundary(codes: seq<Huff>, pk: Pk, toks: seq<Tok>, out: Src, interval: nat, st: St)
    requires UsableCodes(codes) && ValidPk(pk) && AllCovered(codes, toks) && ValidSt(st) && st.togo == 1
    requires ValidSrc(out) && out.buf[..out.end] == File(codes, pk, toks) && Synced(codes, pk, toks, out, st.rd)
    requires toks == [] || toks[0] == Rst(st.rst)
    ensures var b := Boundary(out, interval, st);
            if toks == [] then b.ok && b.eoi && b.toks == [] && b.st == Resync(b.st.rd.pos, interval, st.rst)
            else
              var pk1 := FlushRst(pk, st.rst);
              && b == BoundOut([Rst(st.rst)], true, false, Resync(|pk1.prefix|, interval, (st.rst + 1) % 8))
              && AllCovered(codes, toks[1..]) && EmitAll(codes, pk, [Rst(st.rst)]) == pk1
              && out.buf[..out.end] == File(codes, pk1, toks[1..])
              && Synced(codes, pk1, toks[1..], out, b.st.rd)
  {
    hide Usable, Synced, FlushEnd, Rewind, FindMarker, LastByte, StuffAll;
    LandOnSegment(codes, pk, toks, out, st.rd);
    FindHere(out.buf, Rewind(out, st.rd), st.rst);
    if toks != [] {
      var pk1, rest := FlushRst(pk, st.rst), toks[1..];
      assert EmitAll(codes, pk, [Rst(st.rst)]) == pk1 by { assert [Rst(st.rst)][1..] == []; }
      assert File(codes, pk, toks) == File(codes, pk1, rest);
      FreshSegment(codes, pk1, rest, out);
    }
  }

  /** Behind an MCU: input and output resynchronise at the same MCUs, on the same marker numbers. */
  lemma {:induction false} BoundaryAgree(src: Src, interval: nat, st: St, rest: seq<Tok>,
                                         codes: seq<Huff>, pk: Pk, out: Src, st2: St)
    requires ValidSrc(src) && ValidSt(st) && ValidSrc(out) && ValidSt(st2) && SameSt(st, st2)
    requires UsableCodes(codes) && ValidPk(pk)
    requires var b := Boundary(src, interval, st);
             && b.ok && (b.eoi ==> rest == []) && AllCovered(codes, b.toks) && AllCovered(codes, rest)
             && AllCovered(codes, b.toks + rest)
             && out.buf[..out.end] == File(codes, pk, b.toks + rest)
             && Synced(codes, pk, b.toks + rest, out, st2.rd)
    ensures var b, q := Boundary(src, interval, st), Boundary(out, interval, st2);
            && q.ok && q.toks == b.toks && q.eoi == b.eoi && SameSt(b.st, q.st)
            && var pk1 := EmitAll(codes, pk, b.toks);
               out.buf[..out.end] == File(codes, pk1, rest)
               && (!b.eoi ==> Synced(codes, pk1, rest, out, q.st.rd))
  {
    hide Usable, Synced, FlushEnd, Rewind, FindMarker, LastByte, StuffAll;
    var b := Boundary(src, interval, st);
    var all := b.toks + rest;
    if st.togo != 1 {
      assert all == rest;
    } else {
      if !b.eoi { assert all[0] == Rst(st.rst) && all[1..] == rest; } else { assert all == []; }
      OutBoundary(codes, pk, all, out, interval, st2);
    }
  }

  lemma {:induction false} CoveredParts(codes: seq<Huff>, a: seq<Tok>, b: seq<Tok>)
    requires AllCovered(codes, a + b)
    ensures AllCovered(codes, a) && AllCovered(codes, b)
  {
    forall i | 0 <= i < |a| ensures Covered(codes, a[i]) { assert a[i] == (a + b)[i]; }
    forall i | 0 <= i < |b| ensures Covered(codes, b[i]) { assert b[i] == (a + b)[|a| + i]; }
  }

  /** One MCU of the output decodes to the blocks of the input's, and the reader stays in step with
      what the packer wrote. `rest` is written behind it. */
  lemma {:induction false} McuAgree(src: Src, env: Env, st: St, rest: seq<Tok>,
                                    codes: seq<Huff>, pk: Pk, out: Src, st2: St)
    requires ValidSrc(src) && ValidEnv(env) && ValidSt(st) && ValidSrc(out) && ValidSt(st2) && SameSt(st, st2)
    requires UsableCodes(codes) && ValidPk(pk)
    requires var m := Mcu(src, env, st);
             && m.ok && (m.eoi ==> rest == [])
             && AllCovered(codes, m.toks + rest)
             && out.buf[..out.end] == File(codes, pk, m.toks + rest)
             && Synced(codes, pk, m.toks + rest, out, st2.rd)
    ensures var m, q := Mcu(src, env, st), Mcu(out, NewEnv(codes, env.mcu, env.interval), st2);
            && q.ok && q.toks == m.toks && q.blocks == m.blocks && q.eoi == m.eoi && SameSt(m.st, q.st)
            && AllCovered(codes, m.toks) && AllCovered(codes, rest)
            && var pk1 := EmitAll(codes, pk, m.toks);
               out.buf[..out.end] == File(codes, pk1, rest)
               && (!m.eoi ==> Synced(codes, pk1, rest, out, q.st.rd))
  {
    hide Usable, Units, Boundary, File, Seg, At, SegBits, EmitOne, EmitAll;
    var u := Units(src, env, env.mcu, st);
    var b := Boundary(src, env.interval, u.st);
    var tail := b.toks + rest;
    var m := Mcu(src, env, st);
    assert m.toks + rest == u.toks + tail;
    CoveredParts(codes, u.toks, tail);
    CoveredParts(codes, m.toks, rest);
    CoveredParts(codes, u.toks, b.toks);
    CoveredParts(codes, b.toks, rest);
    UnitsNoRst(src, env, env.mcu, st);
    TailLong(codes, pk, u.toks + tail, out);
    var x := SegBits(codes, tail) + SegTail(codes, pk, u.toks + tail, out);
    SplitSeg(codes, u.toks, tail, SegTail(codes, pk, u.toks + tail, out));
    UnitsAgree(src, env, env.mcu, st, codes, out, |pk.prefix|, st2, x);
    EmitAppend(codes, pk, u.toks, tail);
    var pk1 := EmitAll(codes, pk, u.toks);
    var q := Units(out, NewEnv(codes, env.mcu, env.interval), env.mcu, st2);
    BoundaryAgree(src, env.interval, u.st, rest, codes, pk1, out, q.st);
    EmitTwice(codes, pk, u.toks, b.toks);
  }

  lemma {:induction false} EmitTwice(codes: seq<Huff>, pk: Pk, a: seq<Tok>, b: seq<Tok>)
    requires UsableCodes(codes) && ValidPk(pk) && AllCovered(codes, a) && AllCovered(codes, b)
    requires AllCovered(codes, a + b)
    ensures EmitAll(codes, pk, a + b) == EmitAll(codes, EmitAll(codes, pk, a), b)
    decreases |a|
  {
    hide Usable, EmitOne;
    if a == [] {
      assert a + b == b;
    } else {
      assert (a + b)[1..] == a[1..] + b;
      EmitTwice(codes, EmitOne(codes, pk, a[0]), a[1..], b);
    }
  }

  lemma {:induction false} SyncedLong(codes: seq<Huff>, pk: Pk, toks: seq<Tok>, out: Src, rd: Rd)
    requires UsableCodes(codes) && ValidPk(pk) && AllCovered(codes, toks)
    requires ValidSrc(out) && out.buf[..out.end] == File(codes, pk, toks) && Synced(codes, pk, toks, out, rd)
    ensures |View(out, rd)| >= 16
  {
    hide Usable, File, SegTail, SegBits, View, Reaches;
    TailLong(codes, pk, toks, out);
  }

  /** n MCUs, by induction: the decoder of the output stays in step with the packer,
      whatever is written behind them. */
  lemma {:induction false} ScanAgree(src: Src, env: Env, n: nat, st: St, rest: seq<Tok>,
                                     codes: seq<Huff>, pk: Pk, out: Src, st2: St)
    requires ValidSrc(src) && ValidEnv(env) && ValidSt(st) && ValidSrc(out) && ValidSt(st2) && SameSt(st, st2)
    requires UsableCodes(codes) && ValidPk(pk)
    requires var r := Scan(src, env, n, st);
             && r.ok && r.clean && (r.eoi ==> rest == []) && AllCovered(codes, r.toks + rest)
             && out.buf[..out.end] == File(codes, pk, r.toks + rest)
             && Synced(codes, pk, r.toks + rest, out, st2.rd)
    ensures var r, q := Scan(src, env, n, st), Scan(out, NewEnv(codes, env.mcu, env.interval), n, st2);
            && q.ok && q.clean && q.eoi == r.eoi && q.toks == r.toks && q.blocks == r.blocks
            && SameSt(r.st, q.st) && (!r.eoi ==> |View(out, q.st.rd)| >= 16)
    decreases n
  {
    hide Usable, Mcu, Synced, File, NewEnv, EmitAll, View;
    if n == 0 {
      assert Scan(src, env, 0, st).toks + rest == rest;
      SyncedLong(codes, pk, rest, out, st2.rd);
    }
    if n > 0 {
      var m := Mcu(src, env, st);
      var more := Scan(src, env, n - 1, m.st).toks + rest;
      assert Scan(src, env, n, st).toks + rest == m.toks + more;
      McuAgree(src, env, st, more, codes, pk, out, st2);
      var q := Mcu(out, NewEnv(codes, env.mcu, env.interval), st2);
      if n == 1 {
        assert more == rest;
        if !m.eoi { SyncedLong(codes, EmitAll(codes, pk, m.toks), rest, out, q.st.rd); }
      } else {
        ScanAgree(src, env, n - 1, m.st, rest, codes, EmitAll(codes, pk, m.toks), out, q.st);
      }
    }
  }

  /** Scan transcoding preserves meaning. Take the strings of any n MCUs, of any component list,
      whether the file lasts or not; write them behind any prefix with any tables that list their
      symbols; and look at the first k MCUs, as long as the input's data lasts that far and every
      restart boundary among them shows its marker (the end of the image may stand behind the last
      MCU of all). Decoding what was written, with the new tables, gives for these the same symbols
      and magnitude bits, restarts at the same MCUs with the same numbers, the same coefficients of
      every block, and the same predictors; and while the end is not reached, its marker is still ahead. */
  lemma {:induction false} TranscodedScan(src: Src, env: Env, k: nat, n: nat, pos: nat, codes: seq<Huff>,
                                          prefix: seq<byte>, slack: seq<byte>)
    requires ValidSrc(src) && ValidEnv(env) && UsableCodes(codes) && |slack| > 0 && k <= n
    requires var st := Resync(pos, env.interval, 0);
             var r, all := Scan(src, env, k, st), Scan(src, env, n, st);
             r.ok && r.clean && (r.eoi ==> all.toks == r.toks) && AllCovered(codes, all.toks)
    ensures var st := Resync(pos, env.interval, 0);
            var r, all := Scan(src, env, k, st), Scan(src, env, n, st);
            var bytes := File(codes, Pk(prefix, [], []), all.toks);
            var q := Scan(Src(bytes + slack, |bytes|), NewEnv(codes, env.mcu, env.interval), k,
                          Resync(|prefix|, env.interval, 0));
            && prefix <= bytes
            && q.ok && q.clean && q.eoi == r.eoi && q.toks == r.toks && q.blocks == r.blocks
            && SameSt(r.st, q.st)
            && (!r.eoi ==> |View(Src(bytes + slack, |bytes|), q.st.rd)| >= 16)
  {
    hide Usable, Scan, Synced, File, NewEnv, View;
    var pk := Pk(prefix, [], []);
    var st := Resync(pos, env.interval, 0);
    var r, all := Scan(src, env, k, st), Scan(src, env, n, st);
    ScanPrefix(src, env, k, n, st);
    var rest := all.toks[|r.toks|..];
    assert all.toks == r.toks + rest;
    var bytes := File(codes, pk, all.toks);
    var out := Src(bytes + slack, |bytes|);
    assert out.buf[..out.end] == bytes;
    FilePrefix(codes, pk, all.toks);
    FreshSegment(codes, pk, all.toks, out);
    ScanAgree(src, env, k, st, rest, codes, pk, out, Resync(|prefix|, env.interval, 0));
  }
}

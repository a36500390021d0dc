/** Packing code strings into bytes: fewer than 9 pending bits, a zero byte stuffed after every
    0xFF, one-padding before a marker (section F.1.2.3 of ITU-T T.81). */
module Packing {
  import opened Bits
  import opened Canonical
  import opened BitReader
  import opened Blocks
  import opened Scans

  function Stuff(b: byte): seq<byte> {
    if b == 0xff then [0xff, 0] else [b]
  }

  function StuffAll(bs: seq<byte>): seq<byte> {
    if bs == [] then [] else StuffAll(bs[..|bs| - 1]) + Stuff(bs[|bs| - 1])
  }

  function ByteOf(s: seq<bool>): byte
    requires |s| == 8
  {
    ValBound(s);
    Val(s)
  }

  /** What is written: `prefix` ends where the current segment begins, `done` are the segment's
      bytes before stuffing, `pend` the bits that wait for a full byte. */
  datatype Pk = Pk(prefix: seq<byte>, done: seq<byte>, pend: seq<bool>)

  predicate ValidPk(pk: Pk) {
    |pk.pend| <= 8
  }

  function Out(pk: Pk): seq<byte> {
    pk.prefix + StuffAll(pk.done)
  }

  /** The bits of the current segment. */
  function PkBits(pk: Pk): seq<bool> {
    BytesBits(pk.done) + pk.pend
  }

  /** Appends a string of at most 16 bits. Eight bits that just fit stay pending. */
  function Put(pk: Pk, s: seq<bool>): (r: Pk)
    requires ValidPk(pk) && |s| <= 16
    ensures ValidPk(r)
  {
    var all := pk.pend + s;
    if |all| <= 8 then pk.(pend := all)
    else if |all| < 16 then Pk(pk.prefix, pk.done + [ByteOf(all[..8])], all[8..])
    else Pk(pk.prefix, pk.done + [ByteOf(all[..8]), ByteOf(all[8..16])], all[16..])
  }

  function PadLen(pk: Pk): (n: nat)
    requires ValidPk(pk)
    ensures n < 8
  {
    if pk.pend == [] then 0 else 8 - |pk.pend|
  }

  /** The pending bits, padded with ones to a byte. */
  function LastByte(pk: Pk): (r: seq<byte>)
    requires ValidPk(pk)
  {
    if pk.pend == [] then [] else [ByteOf(pk.pend + Ones(8 - |pk.pend|))]
  }

  /** Pads without stuffing and writes restart marker k. */
  function FlushRst(pk: Pk, k: nat): (r: Pk)
    requires ValidPk(pk) && k < 8
    ensures ValidPk(r)
  {
    Pk(Out(pk) + LastByte(pk) + [0xff, 0xd0 + k], [], [])
  }

  /** Pads with stuffing and writes the end-of-image marker. */
  function FlushEnd(pk: Pk): seq<byte>
    requires ValidPk(pk)
  {
    Out(pk) + StuffAll(LastByte(pk)) + [0xff, 0xd9]
  }

  /** Before a restart marker, the padded bits are written as they are, even if they are all ones. */
  lemma {:induction false} RestartBytes(pk: Pk, k: nat)
    requires ValidPk(pk) && k < 8 && pk.pend != []
    ensures var n := |pk.pend|;
            && FlushRst(pk, k).done == [] && FlushRst(pk, k).pend == []
            && exists x: byte ::
                 && FlushRst(pk, k).prefix == pk.prefix + StuffAll(pk.done) + [x, 0xff, 0xd0 + k]
                 && BitsOf(x, 8)[..n] == pk.pend && forall i :: n <= i < 8 ==> BitsOf(x, 8)[i]
  {
    hide ByteOf, StuffAll;
    var s := pk.pend + Ones(8 - |pk.pend|);
    ByteOfBits(s);
    var x := ByteOf(s);
    assert s[..|pk.pend|] == pk.pend;
    assert FlushRst(pk, k).prefix == pk.prefix + StuffAll(pk.done) + [x, 0xff, 0xd0 + k];
  }

  function EmitOne(codes: seq<Huff>, pk: Pk, t: Tok): (r: Pk)
    requires UsableCodes(codes) && ValidPk(pk) && Covered(codes, t)
    ensures ValidPk(r)
  {
    if t.Rst? then FlushRst(pk, t.number) else TokLen(codes, t); Put(pk, TokBits(codes, t))
  }

  lemma {:induction false} TokLen(codes: seq<Huff>, t: Tok)
    requires UsableCodes(codes) && Covered(codes, t)
    ensures |TokBits(codes, t)| <= 16
  {}

  /** Writes the strings of all tokens. */
  function EmitAll(codes: seq<Huff>, pk: Pk, toks: seq<Tok>): (r: Pk)
    requires UsableCodes(codes) && ValidPk(pk) && AllCovered(codes, toks)
    ensures ValidPk(r)
    decreases |toks|
  {
    if toks == [] then pk else EmitAll(codes, EmitOne(codes, pk, toks[0]), toks[1..])
  }

  /** The finished file. */
  function File(codes: seq<Huff>, pk: Pk, toks: seq<Tok>): seq<byte>
    requires UsableCodes(codes) && ValidPk(pk) && AllCovered(codes, toks)
  {
    FlushEnd(EmitAll(codes, pk, toks))
  }

  lemma {:induction false} ByteOfBits(s: seq<bool>)
    requires |s| == 8
    ensures BitsOf(ByteOf(s), 8) == s
  {
    BitsOfVal(s);
  }

  /** The packer loses no bit: after appending s, the segment's bits are the old ones and s. */
  lemma {:induction false} PutKeeps(pk: Pk, s: seq<bool>)
    requires ValidPk(pk) && |s| <= 16
    ensures PkBits(Put(pk, s)) == PkBits(pk) + s
    ensures Put(pk, s).prefix == pk.prefix && pk.done <= Put(pk, s).done
  {
    hide BytesBits, ByteOf;
    var d, all := pk.done, pk.pend + s;
    if |all| > 8 {
      var a := all[..8];
      AppendByte(d, a, all[8..]);
      if |all| < 16 {
        Rejoin(BytesBits(d), pk.pend, s, a, all[8..]);
      } else {
        var b := all[8..16];
        assert d + [ByteOf(a), ByteOf(b)] == (d + [ByteOf(a)]) + [ByteOf(b)];
        assert all[8..] == b + all[16..];
        AppendByte(d + [ByteOf(a)], b, all[16..]);
        Rejoin(BytesBits(d), pk.pend, s, a, b + all[16..]);
      }
    }
  }

  lemma {:induction false} AppendByte(done: seq<byte>, a: seq<bool>, rest: seq<bool>)
    requires |a| == 8
    ensures BytesBits(done + [ByteOf(a)]) == BytesBits(done) + a
    ensures BytesBits(done + [ByteOf(a)]) + rest == BytesBits(done) + (a + rest)
  {
    hide BytesBits, ByteOf;
    BytesBitsSnoc(done, ByteOf(a));
    ByteOfBits(a);
  }

  lemma {:induction false} Rejoin(d: seq<bool>, pend: seq<bool>, s: seq<bool>, a: seq<bool>, rest: seq<bool>)
    requires pend + s == a + rest
    ensures d + (a + rest) == d + pend + s
  {}

  lemma {:induction false} StuffAllConcat(a: seq<byte>, b: seq<byte>)
    ensures StuffAll(a + b) == StuffAll(a) + StuffAll(b)
  {
    hide Stuff;
    if b == [] {
      assert a + b == a;
    } else {
      StuffAllConcat(a, b[..|b| - 1]);
      assert (a + b)[..|a + b| - 1] == a + b[..|b| - 1];
    }
  }

  /** Every 0xFF in stuffed data is followed by a zero. */
  lemma {:induction false} StuffedSafe(bs: seq<byte>, i: nat)
    requires i < |StuffAll(bs)| && StuffAll(bs)[i] == 0xff
    ensures i + 1 < |StuffAll(bs)| && StuffAll(bs)[i + 1] == 0
  {
    var a := StuffAll(bs[..|bs| - 1]);
    if i < |a| { StuffedSafe(bs[..|bs| - 1], i); }
  }

  /** In stuffed data the search for a restart marker meets nothing before the end of the image. */
  lemma {:induction false} StuffedSearch(buf: seq<byte>, p: nat, start: nat, e: nat, k: nat)
    requires start <= p <= e && e + 2 <= |buf| && buf[e] == 0xff && buf[e + 1] == 0xd9 && k < 8
    requires forall i :: start <= i < e && buf[i] == 0xff ==> i + 1 < e && buf[i + 1] == 0
    ensures FindMarker(buf, p, k) == AtEoi
    decreases e - p
  {
    if p < e {
      if buf[p] == 0xff {
        assert SkipFf(buf, p + 1) == p + 1;
        StuffedSearch(buf, p + 2, start, e, k);
      } else {
        StuffedSearch(buf, p + 1, start, e, k);
      }
    }
  }

  lemma {:induction false} EmitPrefix(codes: seq<Huff>, pk: Pk, toks: seq<Tok>)
    requires UsableCodes(codes) && ValidPk(pk) && AllCovered(codes, toks) && NoRst(toks)
    ensures EmitAll(codes, pk, toks).prefix == pk.prefix
    decreases |toks|
  {
    hide Usable, TokBits, ByteOf;
    if toks != [] {
      TokLen(codes, toks[0]);
      EmitPrefix(codes, EmitOne(codes, pk, toks[0]), toks[1..]);
    }
  }

  /** Without restart markers, the packer's bits are the strings of the tokens. */
  lemma {:induction false} EmitBits(codes: seq<Huff>, pk: Pk, toks: seq<Tok>)
    requires UsableCodes(codes) && ValidPk(pk) && AllCovered(codes, toks) && NoRst(toks)
    ensures PkBits(EmitAll(codes, pk, toks)) == PkBits(pk) + SegBits(codes, toks)
    decreases |toks|
  {
    hide Usable, TokBits, ByteOf, PkBits, Put;
    if toks == [] {
      assert PkBits(pk) + [] == PkBits(pk);
    } else {
      TokLen(codes, toks[0]);
      PutKeeps(pk, TokBits(codes, toks[0]));
      EmitBits(codes, Put(pk, TokBits(codes, toks[0])), toks[1..]);
    }
  }

  /** Stuffing safety: in a file written without restart markers, every 0xFF from the first scan byte
      up to the end-of-image marker is followed by a zero, the padded last byte included. */
  lemma {:induction false} StuffingSafety(codes: seq<Huff>, prefix: seq<byte>, toks: seq<Tok>, i: nat)
    requires UsableCodes(codes) && AllCovered(codes, toks) && NoRst(toks)
    requires var f := File(codes, Pk(prefix, [], []), toks); |prefix| <= i < |f| - 2 && f[i] == 0xff
    ensures var f := File(codes, Pk(prefix, [], []), toks);
            f[i + 1] == 0 && i + 1 < |f| - 2 && f[|f| - 2..] == [0xff, 0xd9]
  {
    hide UsableCodes, EmitAll, LastByte, Stuff, StuffAll;
    EmitPrefix(codes, Pk(prefix, [], []), toks);
    var pk := EmitAll(codes, Pk(prefix, [], []), toks);
    var f, data := FlushEnd(pk), StuffAll(pk.done + LastByte(pk));
    StuffAllConcat(pk.done, LastByte(pk));
    assert f == prefix + data + [0xff, 0xd9];
    StuffedSafe(pk.done + LastByte(pk), i - |prefix|);
    assert f[i] == data[i - |prefix|] && f[i + 1] == data[i - |prefix| + 1];
  }

  lemma {:induction false} FileEnd(codes: seq<Huff>, prefix: seq<byte>, toks: seq<Tok>)
    requires UsableCodes(codes) && AllCovered(codes, toks) && NoRst(toks)
    ensures var f := File(codes, Pk(prefix, [], []), toks);
            |prefix| + 2 <= |f| && prefix <= f && f[|f| - 2] == 0xff && f[|f| - 1] == 0xd9
  {
    hide UsableCodes, EmitAll, LastByte, StuffAll;
    EmitPrefix(codes, Pk(prefix, [], []), toks);
  }

  /** The whole scan of a file without restart markers: the strings of all tokens in a row, fewer than 8 ones, in bytes
      that are stuffed, and the end-of-image marker. */
  lemma {:induction false} FileBits(codes: seq<Huff>, prefix: seq<byte>, toks: seq<Tok>)
      returns (data: seq<byte>, n: nat)
    requires UsableCodes(codes) && AllCovered(codes, toks) && NoRst(toks)
    ensures File(codes, Pk(prefix, [], []), toks) == prefix + StuffAll(data) + [0xff, 0xd9]
    ensures n < 8 && BytesBits(data) == SegBits(codes, toks) + Ones(n)
  {
    hide UsableCodes, EmitAll, SegBits, AllCovered, StuffAll, ByteOf, BytesBits, Ones;
    var start := Pk(prefix, [], []);
    EmitPrefix(codes, start, toks);
    EmitBits(codes, start, toks);
    var pk := EmitAll(codes, start, toks);
    data, n := pk.done + LastByte(pk), PadLen(pk);
    StuffAllConcat(pk.done, LastByte(pk));
    PaddedBits(pk);
    assert PkBits(start) + SegBits(codes, toks) == SegBits(codes, toks) by { NoBits(prefix); }
  }

  lemma {:induction false} NoBits(prefix: seq<byte>)
    ensures PkBits(Pk(prefix, [], [])) == []
  {}

  lemma {:induction false} PaddedBits(pk: Pk)
    requires ValidPk(pk)
    ensures BytesBits(pk.done + LastByte(pk)) == PkBits(pk) + Ones(PadLen(pk))
  {
    hide BytesBits, ByteOf;
    if pk.pend == [] {
      assert pk.done + [] == pk.done && Ones(0) == [];
    } else {
      var s := pk.pend + Ones(8 - |pk.pend|);
      BytesBitsSnoc(pk.done, ByteOf(s));
      ByteOfBits(s);
    }
  }

  /** Reading stuffed data gives the data back. */
  lemma {:induction false} UnstuffStuff(src: Src, p: nat, bs: seq<byte>)
    requires ValidSrc(src) && p + |StuffAll(bs)| <= src.end
    requires src.buf[p..p + |StuffAll(bs)|] == StuffAll(bs)
    ensures Unstuff(src, p) == BytesBits(bs) + Unstuff(src, p + |StuffAll(bs)|)
    ensures Reaches(src, p, p + |StuffAll(bs)|)
  {
    hide Reaches, Stuff, Next, BitsOf, Unstuff;
    if bs == [] {
      ReachesSelf(src, p);
    } else {
      var a, b := bs[..|bs| - 1], bs[|bs| - 1];
      var q := p + |StuffAll(a)|;
      SplitSlice(src.buf, p, StuffAll(a), Stuff(b));
      UnstuffStuff(src, p, a);
      StuffedStep(src, q, b);
      ReachesTrans(src, p, q, q + |Stuff(b)|);
      BytesBitsSnoc(a, b);
    }
  }

  lemma {:induction false} SplitSlice(buf: seq<byte>, p: nat, a: seq<byte>, b: seq<byte>)
    requires p + |a + b| <= |buf| && buf[p..p + |a + b|] == a + b
    ensures buf[p..p + |a|] == a && buf[p + |a|..p + |a| + |b|] == b
  {
    var w := buf[p..p + |a + b|];
    assert buf[p..p + |a|] == w[..|a|];
    assert buf[p + |a|..p + |a| + |b|] == w[|a|..];
  }

  lemma {:induction false} BytesBitsSnoc(a: seq<byte>, b: byte)
    ensures BytesBits(a + [b]) == BytesBits(a) + BitsOf(b, 8)
  {
    BytesBitsConcat(a, [b]);
    BytesBitsOne(b);
  }

  lemma {:induction false} StuffedStep(src: Src, q: nat, b: byte)
    requires ValidSrc(src) && q + |Stuff(b)| <= src.end
    requires src.buf[q..q + |Stuff(b)|] == Stuff(b)
    ensures Unstuff(src, q) == BitsOf(b, 8) + Unstuff(src, q + |Stuff(b)|)
    ensures Reaches(src, q, q + |Stuff(b)|)
  {
    var w := src.buf[q..q + |Stuff(b)|];
    assert src.buf[q] == w[0];
    if b == 0xff { assert src.buf[q + 1] == w[1]; }
    assert Next(src, q) == q + |Stuff(b)|;
    ReachesSelf(src, Next(src, q));
  }

  // ----- many strings -----

  function PutAll(pk: Pk, strings: seq<seq<bool>>): (r: Pk)
    requires ValidPk(pk) && forall i :: 0 <= i < |strings| ==> |strings[i]| <= 16
    ensures ValidPk(r)
    decreases |strings|
  {
    if strings == [] then pk else PutAll(Put(pk, strings[0]), strings[1..])
  }

  function Concat(strings: seq<seq<bool>>): seq<bool> {
    if strings == [] then [] else strings[0] + Concat(strings[1..])
  }

  lemma {:induction false} PutAllKeeps(pk: Pk, strings: seq<seq<bool>>)
    requires ValidPk(pk) && forall i :: 0 <= i < |strings| ==> |strings[i]| <= 16
    ensures PkBits(PutAll(pk, strings)) == PkBits(pk) + Concat(strings)
    ensures PutAll(pk, strings).prefix == pk.prefix
    decreases |strings|
  {
    hide PkBits, Put, ByteOf;
    if strings == [] {
      assert PkBits(pk) + [] == PkBits(pk);
    } else {
      PutKeeps(pk, strings[0]);
      PutAllKeeps(Put(pk, strings[0]), strings[1..]);
    }
  }

  /** The packer invariant over any run: after any strings of at most 16 bits, the bytes written, with the
      stuffing removed, and then the pending bits, of which there are at most 8, are the strings in a row. */
  lemma {:induction false} PackedRun(prefix: seq<byte>, strings: seq<seq<bool>>, slack: seq<byte>)
    requires |slack| > 0 && forall i :: 0 <= i < |strings| ==> |strings[i]| <= 16
    ensures var pk := PutAll(Pk(prefix, [], []), strings);
            && |pk.pend| <= 8 && prefix <= Out(pk)
            && Unstuff(Src(Out(pk) + slack, |Out(pk)|), |prefix|) + pk.pend == Concat(strings)
  {
    hide PutAll, Concat, Put, Stuff, StuffAll, Unstuff, Reaches;
    var start := Pk(prefix, [], []);
    PutAllKeeps(start, strings);
    var pk := PutAll(start, strings);
    var src := Src(Out(pk) + slack, |Out(pk)|);
    assert src.buf[|prefix|..|prefix| + |StuffAll(pk.done)|] == StuffAll(pk.done);
    UnstuffStuff(src, |prefix|, pk.done);
    UnstuffEnd(src, src.end);
    assert PkBits(start) + Concat(strings) == Concat(strings);
    assert BytesBits(pk.done) + [] == BytesBits(pk.done);
  }

  lemma {:induction false} UnstuffEnd(src: Src, p: nat)
    requires ValidSrc(src) && p >= src.end
    ensures Unstuff(src, p) == []
  {}
}

/** Both passes meet the same symbols, so the second finds a new code for each of them. */
module Coverage {
  import opened Canonical
  import opened BitReader
  import opened Blocks
  import opened Scans
  import opened Decoders
  import opened FirstPass
  import opened CodeBooks

  predicate Formed(t: Tok) {
    match t
    case Sym(c, v) => c < 4 && v < 256 && (c < 2 ==> v <= 15)
    case Mag(b) => 1 <= |b| <= 15
    case Rst(k) => k < 8
  }

  predicate AllFormed(toks: seq<Tok>) {
    forall i :: 0 <= i < |toks| ==> Formed(toks[i])
  }

  predicate SmallSizes(env: Env) {
    |env.dc| == 3 && forall c :: 0 <= c < 3 ==> SmallVals(env.dc[c])
  }

  lemma {:induction false} AcFormed(src: Src, h: Huff, table: nat, rd: Rd, j: nat, dct: seq<int>)
    requires ValidSrc(src) && Usable(h) && |dct| == 64 && 2 <= table < 4
    ensures AllFormed(AcRun(src, h, table, rd, j, dct).toks)
    decreases |View(src, rd)|
  {
    hide ReadCode, ReadBits, Usable, View;
    if j < 64 {
      AcStepShrinks(src, h, table, rd, j, dct);
      ReadCodeByte(src, h, rd);
      var r := AcStep(src, h, table, rd, j, dct);
      if r.Go? { AcFormed(src, h, table, r.rd, r.j, r.dct); }
    }
  }

  lemma {:induction false} UnitFormed(src: Src, env: Env, c: nat, st: St)
    requires ValidSrc(src) && ValidEnv(env) && ValidSt(st) && c < 3 && SmallSizes(env)
    ensures AllFormed(UnitIn(src, env, c, st).toks)
  {
    hide ReadCode, ReadBits, AcRun, Usable;
    ReadCodeSmall(src, env.dc[c], st.rd);
    var d := DcStep(src, env.dc[c], DcTable(c), st.rd, st.prev[c]);
    assert AllFormed(d.toks);
    if d.ok { AcFormed(src, env.ac[c], AcTable(c), d.rd, 1, ZeroBlock(d.prev)); }
  }

  lemma {:induction false} UnitsFormed(src: Src, env: Env, comps: seq<nat>, st: St)
    requires ValidSrc(src) && ValidEnv(env) && ValidSt(st) && SmallSizes(env)
    requires forall i :: 0 <= i < |comps| ==> comps[i] < 3
    ensures AllFormed(Units(src, env, comps, st).toks)
  {
    hide UnitIn, UnitSt, SmallSizes, ValidEnv, Formed;
    if comps != [] {
      UnitFormed(src, env, comps[0], st);
      var u := UnitIn(src, env, comps[0], st);
      if u.ok { UnitsFormed(src, env, comps[1..], UnitSt(st, comps[0], u)); }
    }
  }

  /** Every token of a scan is a byte symbol of one of four tables, at most 15 for DC, or 1 to 15
      magnitude bits, or one of eight markers. */
  lemma {:induction false} ScanFormed(src: Src, env: Env, n: nat, st: St)
    requires ValidSrc(src) && ValidEnv(env) && ValidSt(st) && SmallSizes(env)
    ensures AllFormed(Scan(src, env, n, st).toks)
    decreases n
  {
    hide Units, FindMarker, Rewind, SmallSizes;
    if n > 0 {
      UnitsFormed(src, env, env.mcu, st);
      var m := Mcu(src, env, st);
      assert AllFormed(m.toks);
      if m.ok { ScanFormed(src, env, n - 1, m.st); }
    }
  }

  lemma {:induction false} CountedMember(toks: seq<Tok>, c: nat, v: nat)
    requires Count(toks, c, v) > 0
    ensures Sym(c, v) in toks
  {
    if toks[|toks| - 1] != Sym(c, v) { CountedMember(toks[..|toks| - 1], c, v); }
  }

  /** Four tables built from the counts of `seen`. */
  ghost predicate Book(codes: seq<Huff>, seen: seq<Tok>) {
    |codes| == 4 && forall c: nat :: c < 4 ==> Assigned(codes[c], seen, c)
  }

  lemma {:induction false} BookUsable(codes: seq<Huff>, seen: seq<Tok>)
    requires Book(codes, seen)
    ensures UsableCodes(codes)
  {
    hide Usable, Assigned;
    forall c: nat | c < 4 ensures Usable(codes[c]) { AssignedUsable(codes[c], seen, c); }
  }

  /** The new DC tables list sizes of at most 15 bits, as the old ones did. */
  lemma {:induction false} BookSmall(codes: seq<Huff>, seen: seq<Tok>, c: nat)
    requires Book(codes, seen) && AllFormed(seen) && c < 2
    ensures SmallVals(codes[c])
  {
    assert Assigned(codes[c], seen, c);
    forall i | 0 <= i < |codes[c].vals| ensures codes[c].vals[i] <= 15 {
      var v := codes[c].vals[i];
      assert v in codes[c].vals;
      CountedMember(seen, c, v);
      assert Formed(Sym(c, v));
    }
  }

  /** Symbols that were counted have a code. */
  lemma {:induction false} SeenCovered(codes: seq<Huff>, seen: seq<Tok>, toks: seq<Tok>)
    requires Book(codes, seen) && AllFormed(toks)
    requires forall t :: t in toks ==> t in seen
    ensures AllCovered(codes, toks)
  {
    forall i | 0 <= i < |toks| ensures Covered(codes, toks[i]) {
      var t := toks[i];
      assert Formed(t) && t in seen;
      if t.Sym? {
        Counted(seen, t.table, t.val);
        assert Assigned(codes[t.table], seen, t.table);
      }
    }
  }

  /** Two-pass coverage: whatever the first pass counted before and after this image, and however
      many MCUs more than the second it decoded or either stopped early, the symbols the second
      pass looks up all have a new code. */
  lemma {:induction false} TwoPassCoverage(src: Src, env: Env, width: nat, height: nat, l: Layout, st: St,
                                           codes: seq<Huff>, before: seq<Tok>, after: seq<Tok>)
    requires ValidSrc(src) && ValidEnv(env) && ValidSt(st) && SmallSizes(env) && l.xstride > 0 && l.ystride > 0
    requires Book(codes, before + Scan(src, env, FirstCount(width, height, l), st).toks + after)
    ensures Scan(src, env, SecondCount(width, height, l), st).toks
            <= Scan(src, env, FirstCount(width, height, l), st).toks
    ensures AllCovered(codes, Scan(src, env, SecondCount(width, height, l), st).toks)
  {
    hide Scan, SmallSizes, ValidEnv, Book, CeilDiv;
    var m, n := SecondCount(width, height, l), FirstCount(width, height, l);
    CeilMono(width, l.xstride);
    TimesMono(CeilDiv(height, l.ystride), CeilDiv(width, l.xstride), CeilDiv(width + 1, l.xstride));
    ScanPrefix(src, env, m, n, st);
    ScanFormed(src, env, m, st);
    var a, b := Scan(src, env, m, st).toks, Scan(src, env, n, st).toks;
    forall t | t in a ensures t in before + b + after { PrefixMember(a, b, before, after, t); }
    SeenCovered(codes, before + b + after, a);
  }

  lemma {:induction false} PrefixMember(a: seq<Tok>, b: seq<Tok>, before: seq<Tok>, after: seq<Tok>, t: Tok)
    requires a <= b && t in a
    ensures t in before + b + after
  {
    var i :| 0 <= i < |a| && a[i] == t;
    assert (before + b + after)[|before| + i] == t;
  }

  lemma {:induction false} TimesMono(k: nat, a: nat, b: nat)
    requires a <= b
    ensures k * a <= k * b
  {
    assert k * b == k * a + k * (b - a);
  }
}

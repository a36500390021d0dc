/** What the symbols and magnitudes of a scan say about its coefficients, in closed form: where each AC magnitude
    belongs, and which sum of differences each DC value is. All of it holds for any data. */
module Coefficients {
  import opened Bits
  import opened Canonical
  import opened BitReader
  import opened Blocks
  import opened Scans
  import opened FirstPass

  // ----- AC coefficients -----

  /** How far an AC symbol moves on: a run of zeros and the coefficient behind it, 16 zeros, or nothing. */
  function Span(sym: nat): nat {
    if sym % 16 != 0 then sym / 16 + 1 else if sym / 16 == 15 then 16 else 0
  }

  /** How far all the symbols move on. */
  function Passed(toks: seq<Tok>): nat {
    if toks == [] then 0 else TokSpan(toks[0]) + Passed(toks[1..])
  }

  function TokSpan(t: Tok): nat { if t.Sym? then Span(t.val) else 0 }

  lemma {:induction false} PassedConcat(a: seq<Tok>, b: seq<Tok>)
    ensures Passed(a + b) == Passed(a) + Passed(b)
  {
    hide TokSpan;
    if a == [] {
      assert a + b == b;
    } else {
      PassedConcat(a[1..], b);
      assert (a + b)[1..] == a[1..] + b;
    }
  }

  /** Where the magnitude at index i belongs, when the symbols start at coefficient j: behind all that the symbols
      before it move over, its own included. */
  function Place(toks: seq<Tok>, j: nat, i: nat): int
    requires i <= |toks|
  {
    j + Passed(toks[..i]) - 1
  }

  predicate IsMag(toks: seq<Tok>, i: int) { 0 <= i < |toks| && toks[i].Mag? }

  /** Each magnitude is at its place in `after`, and everywhere else stands what stood in `before`. */
  ghost predicate Places(toks: seq<Tok>, j: nat, before: seq<int>, after: seq<int>) {
    && |before| == |after| == 64
    && (forall i :: 0 <= i < |toks| && toks[i].Mag? ==>
          && j <= Place(toks, j, i) < 64 && toks[i].bits != []
          && after[Place(toks, j, i)] == Extend(Val(toks[i].bits), |toks[i].bits|))
    && (forall k {:trigger after[k]} :: 0 <= k < 64 && (forall i :: IsMag(toks, i) ==> Place(toks, j, i) != k) ==>
          after[k] == before[k])
  }

  /** The token at index i: no marker; a magnitude behind a symbol of its size; or a symbol of the table, met before
      coefficient 64, which unless it is the last neither ends the block nor lacks its magnitude, and as the
      last one has none because its run leads to coefficient 64 or beyond. */
  predicate TokForm(toks: seq<Tok>, i: nat, j: nat, table: nat)
    requires i < |toks|
  {
    match toks[i]
    case Rst(_) => false
    case Mag(bits) => i > 0 && toks[i - 1].Sym? && toks[i - 1].val % 16 == |bits| > 0
    case Sym(c, v) =>
      && c == table && j + Passed(toks[..i]) < 64
      && if i < |toks| - 1 then v != 0 && (v % 16 != 0 ==> toks[i + 1].Mag?)
         else v % 16 != 0 ==> j + Passed(toks[..i]) + v / 16 >= 64
  }

  /** The tokens of an AC run from coefficient j: it ends with the symbol 0, or at coefficient 64 or beyond. */
  ghost predicate AcForm(toks: seq<Tok>, j: nat, table: nat) {
    && (forall i :: 0 <= i < |toks| ==> TokForm(toks, i, j, table))
    && (toks == [] || toks[|toks| - 1] != Sym(table, 0) ==> j + Passed(toks) >= 64)
  }

  lemma {:induction false} NothingPlaced(toks: seq<Tok>, j: nat, dct: seq<int>)
    requires |dct| == 64 && forall i :: 0 <= i < |toks| ==> !toks[i].Mag?
    ensures Places(toks, j, dct, dct)
  {}

  /** One symbol and its magnitude, and then others. */
  lemma {:induction false} PlacesBehind(head: seq<Tok>, rest: seq<Tok>, j: nat, j1: nat,
                                        before: seq<int>, middle: seq<int>, after: seq<int>)
    requires Places(head, j, before, middle) && Places(rest, j1, middle, after) && j1 == j + Passed(head)
    requires forall i :: IsMag(head, i) ==> Place(head, j, i) < j1
    ensures Places(head + rest, j, before, after)
  {
    hide Passed;
    var toks, n := head + rest, |head|;
    forall i | IsMag(toks, i)
      ensures j <= Place(toks, j, i) < 64 && toks[i].bits != []
      ensures after[Place(toks, j, i)] == Extend(Val(toks[i].bits), |toks[i].bits|)
    {
      PlaceBehind(head, rest, j, j1, i);
      if i < n {
        assert IsMag(head, i) && toks[i] == head[i];
        var k := Place(head, j, i);
        forall l | IsMag(rest, l) ensures Place(rest, j1, l) != k { assert rest[l].Mag?; }
        assert after[k] == middle[k];
      } else {
        assert IsMag(rest, i - n) && toks[i] == rest[i - n];
      }
    }
    forall k | 0 <= k < 64 && forall i :: IsMag(toks, i) ==> Place(toks, j, i) != k
      ensures after[k] == before[k]
    {
      forall i | IsMag(head, i) ensures Place(head, j, i) != k {
        PlaceBehind(head, rest, j, j1, i);
        assert IsMag(toks, i);
      }
      forall i | IsMag(rest, i) ensures Place(rest, j1, i) != k {
        PlaceBehind(head, rest, j, j1, n + i);
        assert IsMag(toks, n + i);
      }
      assert after[k] == middle[k] && middle[k] == before[k];
    }
  }

  lemma {:induction false} PlaceBehind(head: seq<Tok>, rest: seq<Tok>, j: nat, j1: nat, i: nat)
    requires i <= |head + rest| && j1 == j + Passed(head)
    ensures Passed((head + rest)[..i]) == if i <= |head| then Passed(head[..i])
                                          else Passed(head) + Passed(rest[..i - |head|])
    ensures Place(head + rest, j, i) == if i <= |head| then Place(head, j, i) else Place(rest, j1, i - |head|)
    ensures i == |head| ==> Place(head + rest, j, i) == Place(rest, j1, 0)
  {
    hide Passed;
    if i <= |head| {
      assert (head + rest)[..i] == head[..i];
      if i == |head| {
        assert head[..i] == head && rest[..0] == [];
        PassedNone();
      }
    } else {
      assert (head + rest)[..i] == head + rest[..i - |head|];
      PassedConcat(head, rest[..i - |head|]);
    }
  }

  lemma {:induction false} PassedNone()
    ensures Passed([]) == 0
  {}

  lemma {:induction false} PassedFew(s: Tok, m: Tok)
    ensures Passed([s]) == TokSpan(s) && Passed([s, m]) == TokSpan(s) + TokSpan(m)
  {
    assert [s][1..] == [] && [s, m][1..] == [m] && [m][1..] == [];
  }

  /** A symbol and its magnitude. */
  lemma {:induction false} PairPlaces(s: Tok, m: Tok, j: nat, dct: seq<int>)
    requires s.Sym? && s.val % 16 != 0 && m.Mag? && m.bits != [] && |dct| == 64 && j + s.val / 16 < 64
    ensures Passed([s, m]) == s.val / 16 + 1 && Place([s, m], j, 1) == j + s.val / 16
    ensures IsMag([s, m], 1) && !IsMag([s, m], 0)
    ensures Places([s, m], j, dct, dct[j + s.val / 16 := Extend(Val(m.bits), |m.bits|)])
  {
    hide Passed, Extend, Val;
    var toks, p := [s, m], j + s.val / 16;
    PassedFew(s, m);
    assert toks[..1] == [s];
    assert forall i :: IsMag(toks, i) <==> i == 1;
  }

  /** What one AC symbol does. */
  lemma {:induction false} StepPlaces(src: Src, h: Huff, table: nat, rd: Rd, j: nat, dct: seq<int>)
    requires ValidSrc(src) && Usable(h) && |dct| == 64 && j < 64
    ensures var r := AcStep(src, h, table, rd, j, dct);
            && (r.Go? ==>
                  && r.j == j + Passed(r.toks) && Places(r.toks, j, dct, r.dct)
                  && (forall i :: IsMag(r.toks, i) ==> Place(r.toks, j, i) < r.j)
                  && 1 <= |r.toks| <= 2 && r.toks[0].Sym? && r.toks[0].table == table && r.toks[0].val != 0
                  && (|r.toks| == 2 <==> r.toks[0].val % 16 != 0)
                  && (|r.toks| == 2 ==> r.toks[1].Mag? && |r.toks[1].bits| == r.toks[0].val % 16))
            && (r.Stop? && r.ok ==>
                  && |r.toks| == 1 && r.toks[0].Sym? && r.toks[0].table == table
                  && (r.toks[0].val == 0 || (r.toks[0].val % 16 != 0 && j + r.toks[0].val / 16 >= 64)))
  {
    hide ReadCode, ReadBits, Usable, Extend, Val;
    var r := AcStep(src, h, table, rd, j, dct);
    if r.Go? {
      var s := r.toks[0];
      if |r.toks| == 1 {
        assert r.toks == [s];
        PassedFew(s, s);
        NothingPlaced(r.toks, j, dct);
      } else {
        assert r.toks == [s, r.toks[1]];
        PairPlaces(s, r.toks[1], j, dct);
      }
    }
  }

  lemma {:induction false} FormBehind(head: seq<Tok>, rest: seq<Tok>, j: nat, j1: nat, table: nat)
    requires j < 64 && j1 == j + Passed(head) && AcForm(rest, j1, table)
    requires 1 <= |head| <= 2 && head[0].Sym? && head[0].table == table && head[0].val != 0
    requires (|head| == 2 <==> head[0].val % 16 != 0)
    requires |head| == 2 ==> head[1].Mag? && |head[1].bits| == head[0].val % 16
    ensures AcForm(head + rest, j, table)
  {
    hide Passed, TokForm;
    var toks, n := head + rest, |head|;
    PassedConcat(head, rest);
    if rest == [] { assert toks == head; }
    forall i | 0 <= i < |toks| ensures TokForm(toks, i, j, table) {
      if i < n { HeadForm(head, rest, j, table, i); } else { RestForm(head, rest, j, j1, table, i - n); }
    }
  }

  lemma {:induction false} HeadForm(head: seq<Tok>, rest: seq<Tok>, j: nat, table: nat, i: nat)
    requires j < 64 && 1 <= |head| <= 2 && head[0].Sym? && head[0].table == table && head[0].val != 0 && i < |head|
    requires (|head| == 2 <==> head[0].val % 16 != 0)
    requires |head| == 2 ==> head[1].Mag? && |head[1].bits| == head[0].val % 16
    ensures TokForm(head + rest, i, j, table)
  {
    hide Passed;
    PassedNone();
    assert (head + rest)[..0] == [];
  }

  lemma {:induction false} RestForm(head: seq<Tok>, rest: seq<Tok>, j: nat, j1: nat, table: nat, i: nat)
    requires j1 == j + Passed(head) && i < |rest| && TokForm(rest, i, j1, table)
    ensures TokForm(head + rest, |head| + i, j, table)
  {
    hide Passed;
    var toks, n := head + rest, |head|;
    assert toks[..n + i] == head + rest[..i] && toks[n + i] == rest[i];
    PassedConcat(head, rest[..i]);
    if i > 0 { assert toks[n + i - 1] == rest[i - 1]; }
    if i < |rest| - 1 { assert toks[n + i + 1] == rest[i + 1]; }
  }

  /** The whole run: where the coefficients stand, and how it ends. */
  lemma {:induction false} RunPlaces(src: Src, h: Huff, table: nat, rd: Rd, j: nat, dct: seq<int>)
    requires ValidSrc(src) && Usable(h) && |dct| == 64 && AcRun(src, h, table, rd, j, dct).ok
    ensures var r := AcRun(src, h, table, rd, j, dct);
            Places(r.toks, j, dct, r.dct) && AcForm(r.toks, j, table)
    decreases |View(src, rd)|
  {
    hide AcStep, Usable, View, Places, AcForm, Passed;
    if j >= 64 {
      NothingPlaced([], j, dct);
      EmptyForm(j, table);
    } else {
      AcStepShrinks(src, h, table, rd, j, dct);
      StepPlaces(src, h, table, rd, j, dct);
      var r := AcStep(src, h, table, rd, j, dct);
      if r.Go? {
        RunPlaces(src, h, table, r.rd, r.j, r.dct);
        var q := AcRun(src, h, table, r.rd, r.j, r.dct);
        PlacesBehind(r.toks, q.toks, j, r.j, dct, r.dct, q.dct);
        FormBehind(r.toks, q.toks, j, r.j, table);
      } else {
        NothingPlaced(r.toks, j, dct);
        LastForm(r.toks, j, table);
      }
    }
  }

  lemma {:induction false} EmptyForm(j: nat, table: nat)
    requires j >= 64
    ensures AcForm([], j, table)
  {
    PassedNone();
  }

  lemma {:induction false} LastForm(toks: seq<Tok>, j: nat, table: nat)
    requires j < 64 && |toks| == 1 && toks[0].Sym? && toks[0].table == table
    requires toks[0].val == 0 || (toks[0].val % 16 != 0 && j + toks[0].val / 16 >= 64)
    ensures AcForm(toks, j, table)
  {
    PassedFew(toks[0], toks[0]);
    assert toks == [toks[0]] && toks[..0] == [];
  }

  /** Where the magnitude at index i belongs, said from the start of the block: at 1, and for each symbol before
      its own on by run + 1, or by 16 for 0xF0, or by 0 for other runs of size 0, and by its own run. */
  function Position(toks: seq<Tok>, i: nat): nat
    requires 0 < i <= |toks| && toks[i - 1].Sym?
  {
    1 + Passed(toks[..i - 1]) + toks[i - 1].val / 16
  }

  lemma {:induction false} PositionPlace(toks: seq<Tok>, i: nat)
    requires 0 < i <= |toks| && toks[i - 1].Sym? && toks[i - 1].val % 16 != 0
    ensures Place(toks, 1, i) == Position(toks, i)
  {
    hide Passed;
    assert toks[..i] == toks[..i - 1] + [toks[i - 1]];
    PassedConcat(toks[..i - 1], [toks[i - 1]]);
    PassedFew(toks[i - 1], toks[i - 1]);
  }

  /** Every magnitude is sign-extended and stands at its position, and all other AC coefficients are 0. */
  ghost predicate Positioned(toks: seq<Tok>, dct: seq<int>)
    requires |dct| == 64
  {
    && (forall i :: 0 <= i < |toks| && toks[i].Mag? ==>
          && i > 0 && toks[i - 1].Sym? && toks[i].bits != [] && 1 <= Position(toks, i) < 64
          && dct[Position(toks, i)] == Extend(Val(toks[i].bits), |toks[i].bits|))
    && (forall k :: 1 <= k < 64 && dct[k] != 0 ==> exists i :: MagFor(toks, i, k))
  }

  /** The magnitude at index i belongs to coefficient k. */
  predicate MagFor(toks: seq<Tok>, i: nat, k: nat) {
    0 < i < |toks| && toks[i].Mag? && toks[i - 1].Sym? && Position(toks, i) == k
  }

  /** AC decoding, for any data. */
  lemma {:induction false} AcPositions(src: Src, h: Huff, table: nat, rd: Rd, dc: int)
    requires ValidSrc(src) && Usable(h) && AcRun(src, h, table, rd, 1, ZeroBlock(dc)).ok
    ensures var r := AcRun(src, h, table, rd, 1, ZeroBlock(dc));
            r.dct[0] == dc && AcForm(r.toks, 1, table) && Positioned(r.toks, r.dct)
  {
    hide Usable, AcRun, AcForm, Places, Positioned;
    RunPlaces(src, h, table, rd, 1, ZeroBlock(dc));
    PositionsFrom(AcRun(src, h, table, rd, 1, ZeroBlock(dc)), table, dc);
  }

  lemma {:induction false} PositionsFrom(r: AcOut, table: nat, dc: int)
    requires |r.dct| == 64 && Places(r.toks, 1, ZeroBlock(dc), r.dct) && AcForm(r.toks, 1, table)
    ensures r.dct[0] == dc && Positioned(r.toks, r.dct)
  {
    hide Passed, Extend, Val, Place, Position;
    forall i | 0 <= i < |r.toks| && r.toks[i].Mag?
      ensures i > 0 && r.toks[i - 1].Sym? && Place(r.toks, 1, i) == Position(r.toks, i)
    {
      assert TokForm(r.toks, i, 1, table);
      PositionPlace(r.toks, i);
    }
    assert forall i :: IsMag(r.toks, i) ==> r.toks[i].Mag? && Place(r.toks, 1, i) != 0;
    forall k | 1 <= k < 64 && r.dct[k] != 0 ensures exists i :: MagFor(r.toks, i, k) {
      assert ZeroBlock(dc)[k] == 0;
      var i: nat :| IsMag(r.toks, i) && Place(r.toks, 1, i) == k;
      assert r.toks[i].Mag? && MagFor(r.toks, i, k);
    }
  }

  // ----- DC coefficients -----

  /** v is s modulo 2^16, as a 16-bit short. */
  predicate Wrapped(v: int, s: int) {
    -0x8000 <= v < 0x8000 && (v - s) % 0x1_0000 == 0
  }

  predicate Short(v: int) { -0x8000 <= v < 0x8000 }

  function Turns(x: int): (k: int)
    requires x % 0x1_0000 == 0
    ensures x == 0x1_0000 * k
  {
    x / 0x1_0000
  }

  lemma {:induction false} WholeTurns(x: int, k: int)
    requires x == 0x1_0000 * k
    ensures x % 0x1_0000 == 0
  {}

  lemma {:induction false} WrappedSum(v: int, s: int, d: int)
    requires Wrapped(v, s)
    ensures Wrapped(Wrap16(d + v), s + d)
  {
    var k := Turns(v - s);
    var q := (d + v + 0x8000) / 0x1_0000;
    assert d + v + 0x8000 == 0x1_0000 * q + (d + v + 0x8000) % 0x1_0000;
    WholeTurns(Wrap16(d + v) - (s + d), k - q);
  }

  /** The tokens of one block of component c: a DC symbol, its magnitude unless its size is 0, and an AC run; and the
      block's AC coefficients. */
  ghost predicate BlockForm(part: seq<Tok>, c: nat, block: seq<int>) {
    && part != [] && part[0].Sym? && part[0].table == DcTable(c) && |block| == 64
    && (part[0].val == 0 || (|part| > 1 && part[1].Mag? && |part[1].bits| == part[0].val))
    && AcForm(AcOf(part), 1, AcTable(c)) && Positioned(AcOf(part), block)
  }

  function AcOf(part: seq<Tok>): seq<Tok> {
    if |part| > 1 && part[1].Mag? then part[2..] else if part == [] then [] else part[1..]
  }

  /** The DC difference: the magnitude that stands second, if one does. */
  function DiffOf(part: seq<Tok>): int {
    if |part| > 1 && part[1].Mag? && part[1].bits != [] then Extend(Val(part[1].bits), |part[1].bits|) else 0
  }

  lemma {:induction false} UnitForm(src: Src, dc: Huff, ac: Huff, c: nat, rd: Rd, prev: int)
    requires ValidSrc(src) && Usable(dc) && Usable(ac) && Unit(src, dc, ac, c, rd, prev).ok
    ensures var u := Unit(src, dc, ac, c, rd, prev);
            && BlockForm(u.toks, c, u.dct) && u.prev == u.dct[0]
            && (forall s :: Wrapped(prev, s) ==> Wrapped(u.prev, s + DiffOf(u.toks)))
  {
    hide Usable, ReadCode, ReadBits, AcRun, AcForm, Positioned, Wrapped, Wrap16, Extend, Val;
    UnitParts(src, dc, ac, c, rd, prev);
    var d := DcStep(src, dc, DcTable(c), rd, prev);
    AcPositions(src, ac, AcTable(c), d.rd, d.prev);
    var r := AcRun(src, ac, AcTable(c), d.rd, 1, ZeroBlock(d.prev));
    var u := Unit(src, dc, ac, c, rd, prev);
    AcFirst(r.toks, AcTable(c));
    if |d.toks| == 2 {
      assert u.toks[1] == d.toks[1] && u.toks[2..] == r.toks;
      forall s | Wrapped(prev, s) ensures Wrapped(u.prev, s + DiffOf(u.toks)) {
        WrappedSum(prev, s, DiffOf(u.toks));
      }
    } else {
      assert u.toks[1..] == r.toks;
    }
  }

  lemma {:induction false} AcFirst(toks: seq<Tok>, table: nat)
    requires AcForm(toks, 1, table)
    ensures toks != [] ==> !toks[0].Mag?
  {
    if toks != [] { assert TokForm(toks, 0, 1, table); }
  }

  /** The sum of the DC differences of component c over the blocks a to b - 1. */
  function Total(parts: seq<seq<Tok>>, comps: seq<nat>, c: nat, a: nat, b: nat): int
    requires b <= |parts| == |comps|
  {
    if a >= b then 0 else Total(parts, comps, c, a, b - 1) + (if comps[b - 1] == c then DiffOf(parts[b - 1]) else 0)
  }

  lemma {:induction false} TotalShift(p: seq<seq<Tok>>, q: seq<seq<Tok>>, x: seq<nat>, y: seq<nat>, c: nat,
                                      a: nat, b: nat)
    requires |p| == |x| && b <= |q| == |y|
    ensures Total(p + q, x + y, c, |p| + a, |p| + b) == Total(q, y, c, a, b)
  {
    hide DiffOf;
    if a < b { TotalShift(p, q, x, y, c, a, b - 1); }
  }

  lemma {:induction false} TotalFront(p: seq<seq<Tok>>, q: seq<seq<Tok>>, x: seq<nat>, y: seq<nat>, c: nat,
                                      a: nat, b: nat)
    requires b <= |p| == |x| && |q| == |y|
    ensures Total(p + q, x + y, c, a, b) == Total(p, x, c, a, b)
  {
    hide DiffOf;
    if a < b { TotalFront(p, q, x, y, c, a, b - 1); }
  }

  lemma {:induction false} TotalJoin(parts: seq<seq<Tok>>, comps: seq<nat>, c: nat, a: nat, m: nat, b: nat)
    requires a <= m <= b <= |parts| == |comps|
    ensures Total(parts, comps, c, a, b) == Total(parts, comps, c, a, m) + Total(parts, comps, c, m, b)
  {
    hide DiffOf;
    if m < b { TotalJoin(parts, comps, c, a, m, b - 1); }
  }

  function Join(parts: seq<seq<Tok>>): seq<Tok> {
    if parts == [] then [] else parts[0] + Join(parts[1..])
  }

  lemma {:induction false} JoinConcat(a: seq<seq<Tok>>, b: seq<seq<Tok>>)
    ensures Join(a + b) == Join(a) + Join(b)
  {
    hide Join;
    JoinNone();
    if a == [] {
      assert a + b == b;
    } else {
      JoinConcat(a[1..], b);
      JoinFront(a[0], a[1..] + b);
      JoinFront(a[0], a[1..]);
      Regroup(a, b);
      Reassociate(a[0], Join(a[1..]), Join(b));
    }
  }

  lemma {:induction false} Regroup<T>(a: seq<T>, b: seq<T>)
    requires a != []
    ensures [a[0]] + a[1..] == a && [a[0]] + (a[1..] + b) == a + b
  {}

  lemma {:induction false} Reassociate<T>(a: seq<T>, b: seq<T>, c: seq<T>)
    ensures a + (b + c) == (a + b) + c
  {}

  lemma {:induction false} JoinNone()
    ensures Join([]) == []
  {}

  lemma {:induction false} JoinFront(p: seq<Tok>, rest: seq<seq<Tok>>)
    ensures Join([p] + rest) == p + Join(rest)
  {
    assert ([p] + rest)[1..] == rest;
  }

  /** The blocks come from these parts, and each DC value is the wrapped sum of `base` and the differences of its
      component since block `start(b)`. */
  ghost predicate BlocksFrom(parts: seq<seq<Tok>>, comps: seq<nat>, blocks: seq<seq<int>>, prev: seq<int>,
                             left: int, every: nat)
  {
    && |parts| == |comps| == |blocks| && |prev| == 3
    && forall b: nat :: b < |blocks| ==> BlockFrom(parts, comps, blocks, prev, left, every, b)
  }

  /** Block b, when the current interval ends behind `left` blocks (never, if that is not positive) and later ones
      have `every` blocks. */
  ghost predicate BlockFrom(parts: seq<seq<Tok>>, comps: seq<nat>, blocks: seq<seq<int>>, prev: seq<int>,
                            left: int, every: nat, b: nat)
    requires b < |parts| == |comps| == |blocks| && |prev| == 3
  {
    var c, a := comps[b], Start(b, left, every);
    && c < 3 && a <= b && BlockForm(parts[b], c, blocks[b])
    && Wrapped(blocks[b][0], (if a == 0 then prev[c] else 0) + Total(parts, comps, c, a, b + 1))
  }

  /** The first block of the restart interval of block b. */
  function Start(b: nat, left: int, every: nat): nat
    decreases b
  {
    if left <= 0 || b < left then 0 else left + Start(b - left, every, every)
  }

  /** From the start of an interval, it is a multiple of the interval's blocks. */
  lemma {:induction false} StartIs(b: nat, every: nat)
    requires every > 0
    ensures Start(b, every, every) == b - b % every
    decreases b
  {
    if b >= every {
      StartIs(b - every, every);
      ModMinus(b, every);
    } else {
      ModSmall(b, every);
    }
  }

  lemma {:induction false} ModMinus(b: nat, m: nat)
    requires b >= m > 0
    ensures b % m == (b - m) % m
  {
    var q, r := (b - m) / m, (b - m) % m;
    assert (q + 1) * m == q * m + m;
    DivModUnique(b, q + 1, m, r);
  }

  lemma {:induction false} ModSmall(b: nat, m: nat)
    requires b < m
    ensures b % m == b
  {}

  lemma {:induction false} WrappedTrans(v: int, w: int, s: int, d: int)
    requires Wrapped(v, w + d) && Wrapped(w, s)
    ensures Wrapped(v, s + d)
  {
    WholeTurns(v - (s + d), Turns(v - (w + d)) + Turns(w - s));
  }

  /** Blocks of one interval, and then others that go on from its predictors. */
  lemma {:induction false} BlocksGoOn(p: seq<seq<Tok>>, x: seq<nat>, bl: seq<seq<int>>, prev: seq<int>,
                                      q: seq<seq<Tok>>, y: seq<nat>, bm: seq<seq<int>>, prev1: seq<int>,
                                      left: int, left1: int, every: nat)
    requires BlocksFrom(p, x, bl, prev, 0, 0) && BlocksFrom(q, y, bm, prev1, left1, every)
    requires forall c: nat :: c < 3 ==> Wrapped(prev1[c], prev[c] + Total(p, x, c, 0, |p|))
    requires if left1 > 0 then left == |p| + left1 else left <= 0
    ensures BlocksFrom(p + q, x + y, bl + bm, prev, left, every)
  {
    hide AcForm, Positioned, Total, Wrapped;
    forall b: nat | b < |bl + bm| ensures BlockFrom(p + q, x + y, bl + bm, prev, left, every, b) {
      if b < |bl| {
        assert BlockFrom(p, x, bl, prev, 0, 0, b);
        TotalFront(p, q, x, y, x[b], 0, b + 1);
      } else {
        var e := b - |p|;
        assert BlockFrom(q, y, bm, prev1, left1, every, e);
        var c, a := y[e], Start(e, left1, every);
        TotalShift(p, q, x, y, c, a, e + 1);
        if a == 0 {
          TotalJoin(p + q, x + y, c, 0, |p|, b + 1);
          TotalFront(p, q, x, y, c, 0, |p|);
          WrappedTrans(bm[e][0], prev1[c], prev[c] + Total(p, x, c, 0, |p|), Total(q, y, c, 0, e + 1));
        }
      }
    }
  }

  /** So do the predictors behind them. */
  lemma {:induction false} PrevGoesOn(p: seq<seq<Tok>>, q: seq<seq<Tok>>, x: seq<nat>, y: seq<nat>,
                                      prev: seq<int>, prev1: seq<int>, prev2: seq<int>)
    requires |p| == |x| && |q| == |y| && |prev| == |prev1| == |prev2| == 3
    requires forall k: nat :: k < 3 ==> Wrapped(prev1[k], prev[k] + Total(p, x, k, 0, |p|))
    requires forall k: nat :: k < 3 ==> Wrapped(prev2[k], prev1[k] + Total(q, y, k, 0, |q|))
    ensures forall k: nat :: k < 3 ==> Wrapped(prev2[k], prev[k] + Total(p + q, x + y, k, 0, |p + q|))
  {
    hide Total, Wrapped;
    forall k: nat | k < 3 ensures Wrapped(prev2[k], prev[k] + Total(p + q, x + y, k, 0, |p + q|)) {
      TotalJoin(p + q, x + y, k, 0, |p|, |p + q|);
      TotalShift(p, q, x, y, k, 0, |q|);
      TotalFront(p, q, x, y, k, 0, |p|);
      WrappedTrans(prev2[k], prev1[k], prev[k] + Total(p, x, k, 0, |p|), Total(q, y, k, 0, |q|));
    }
  }

  /** Blocks that end an interval, and then others that start with predictors of 0. */
  lemma {:induction false} BlocksRestart(p: seq<seq<Tok>>, x: seq<nat>, bl: seq<seq<int>>, prev: seq<int>,
                                         q: seq<seq<Tok>>, y: seq<nat>, bm: seq<seq<int>>, left1: int, every: nat)
    requires BlocksFrom(p, x, bl, prev, 0, 0) && BlocksFrom(q, y, bm, [0, 0, 0], left1, every)
    requires p != [] && if every > 0 then left1 == every else left1 <= 0
    ensures BlocksFrom(p + q, x + y, bl + bm, prev, |p|, every)
  {
    hide AcForm, Positioned, Total, Wrapped;
    forall b: nat | b < |bl + bm| ensures BlockFrom(p + q, x + y, bl + bm, prev, |p|, every, b) {
      if b < |bl| {
        assert BlockFrom(p, x, bl, prev, 0, 0, b);
        TotalFront(p, q, x, y, x[b], 0, b + 1);
      } else {
        var e := b - |p|;
        assert BlockFrom(q, y, bm, [0, 0, 0], left1, every, e);
        assert Start(b, |p|, every) == |p| + Start(e, left1, every);
        TotalShift(p, q, x, y, y[e], Start(e, left1, every), e + 1);
      }
    }
  }

  /** One block. */
  lemma {:induction false} OneBlock(u: UnitOut, c: nat, prev: seq<int>)
    requires c < 3 && |prev| == 3 && BlockForm(u.toks, c, u.dct) && u.prev == u.dct[0]
    requires Wrapped(u.prev, prev[c] + DiffOf(u.toks)) && forall k :: 0 <= k < 3 ==> Short(prev[k])
    ensures BlocksFrom([u.toks], [c], [u.dct], prev, 0, 0)
    ensures forall k: nat :: k < 3 ==> Wrapped(prev[c := u.prev][k], prev[k] + Total([u.toks], [c], k, 0, 1))
  {
    hide BlockForm, DiffOf, Wrapped, Short;
    ShortWrapped(prev);
    forall k: nat ensures Total([u.toks], [c], k, 0, 1) == if c == k then DiffOf(u.toks) else 0 {
      assert Total([u.toks], [c], k, 0, 0) == 0;
    }
  }

  lemma {:induction false} NoBlocks(prev: seq<int>, left: int, every: nat)
    requires |prev| == 3
    ensures BlocksFrom([], [], [], prev, left, every) && NoMarks([]) == Join([])
  {}

  lemma {:induction false} NoTotal(c: nat)
    ensures Total([], [], c, 0, 0) == 0
  {}

  /** The blocks of an MCU, or of any list of components. */
  lemma {:induction false} UnitsForm(src: Src, env: Env, comps: seq<nat>, st: St) returns (parts: seq<seq<Tok>>)
    requires ValidSrc(src) && ValidEnv(env) && ValidSt(st) && forall i :: 0 <= i < |comps| ==> comps[i] < 3
    requires Units(src, env, comps, st).ok && forall c :: 0 <= c < 3 ==> Short(st.prev[c])
    ensures var r := Units(src, env, comps, st);
            && |parts| == |comps| && r.toks == Join(parts) && BlocksFrom(parts, comps, r.blocks, st.prev, 0, 0)
            && (forall c: nat :: c < 3 ==> Wrapped(r.st.prev[c], st.prev[c] + Total(parts, comps, c, 0, |comps|)))
    decreases |comps|
  {
    hide Usable, Unit, BlockForm, DiffOf, Wrapped, BlocksFrom, Total, Short;
    if comps == [] {
      parts := [];
      NoBlocks(st.prev, 0, 0);
      forall c: nat | c < 3 ensures Total([], [], c, 0, 0) == 0 { NoTotal(c); }
      ShortWrapped(st.prev);
    } else {
      var c, rest := comps[0], comps[1..];
      var u := UnitIn(src, env, c, st);
      UnitsStep(src, env, comps, st);
      UnitForm(src, env.dc[c], env.ac[c], c, st.rd, st.prev[c]);
      var st1 := UnitSt(st, c, u);
      ShortWrapped(st.prev);
      WrappedShort(u.prev, st.prev[c] + DiffOf(u.toks));
      var more := UnitsForm(src, env, rest, st1);
      parts := [u.toks] + more;
      assert comps == [c] + rest && parts[1..] == more;
      var q := Units(src, env, rest, st1);
      OneBlock(u, c, st.prev);
      BlocksGoOn([u.toks], [c], [u.dct], st.prev, more, rest, q.blocks, st1.prev, 0, 0, 0);
      PrevGoesOn([u.toks], more, [c], rest, st.prev, st1.prev, q.st.prev);
    }
  }

  lemma {:induction false} ShortWrapped(prev: seq<int>)
    requires |prev| == 3 && forall c :: 0 <= c < 3 ==> Short(prev[c])
    ensures forall c :: 0 <= c < 3 ==> Wrapped(prev[c], prev[c])
  {}

  lemma {:induction false} WrappedShort(v: int, s: int)
    requires Wrapped(v, s)
    ensures Short(v)
  {}


  // ----- whole scans -----

  function NoMarks(toks: seq<Tok>): seq<Tok> {
    if toks == [] then [] else Kept(toks[0]) + NoMarks(toks[1..])
  }

  function Kept(t: Tok): seq<Tok> { if t.Rst? then [] else [t] }

  lemma {:induction false} NoMarksConcat(a: seq<Tok>, b: seq<Tok>)
    ensures NoMarks(a + b) == NoMarks(a) + NoMarks(b)
  {
    hide NoMarks, Kept;
    NoMarksOne(0);
    if a == [] {
      assert a + b == b;
    } else {
      NoMarksConcat(a[1..], b);
      NoMarksFront(a[0], a[1..] + b);
      NoMarksFront(a[0], a[1..]);
      Regroup(a, b);
      Reassociate(Kept(a[0]), NoMarks(a[1..]), NoMarks(b));
    }
  }

  lemma {:induction false} NoMarksFront(t: Tok, rest: seq<Tok>)
    ensures NoMarks([t] + rest) == Kept(t) + NoMarks(rest)
  {
    assert ([t] + rest)[1..] == rest;
  }

  lemma {:induction false} NoMarksSame(toks: seq<Tok>)
    requires NoRst(toks)
    ensures NoMarks(toks) == toks
  {
    if toks != [] { NoMarksSame(toks[1..]); }
  }

  lemma {:induction false} NoMarksOne(k: nat)
    ensures NoMarks([Rst(k)]) == [] && NoMarks([]) == []
  {
    assert [Rst(k)][1..] == [];
  }

  /** The components of the blocks of n MCUs. */
  function Repeat(mcu: seq<nat>, n: nat): seq<nat> {
    if n == 0 then [] else mcu + Repeat(mcu, n - 1)
  }

  lemma {:induction false} RepeatAt(mcu: seq<nat>, n: nat, b: nat)
    requires mcu != [] && b < |Repeat(mcu, n)|
    ensures Repeat(mcu, n)[b] == mcu[b % |mcu|]
  {
    if b < |mcu| {
      ModSmall(b, |mcu|);
    } else {
      ModMinus(b, |mcu|);
      RepeatAt(mcu, n - 1, b - |mcu|);
    }
  }

  /** The blocks of k MCUs of m blocks. */
  function BlockCount(k: int, m: nat): int { k * m }

  lemma {:induction false} OneLess(k: int, m: nat)
    ensures BlockCount(k - 1, m) == BlockCount(k, m) - m
  {}

  lemma {:induction false} BlocksSign(k: int, m: nat)
    requires m > 0
    ensures (k > 0 <==> BlockCount(k, m) > 0) && BlockCount(1, m) == m && BlockCount(0, m) == 0
  {
    if k > 0 { MulStep(k, 0, m); } else { MulStep(1, k, m); }
  }

  /** The blocks of n MCUs, with restarts. */
  lemma {:induction false} ScanForm(src: Src, env: Env, n: nat, st: St) returns (parts: seq<seq<Tok>>)
    requires ValidSrc(src) && ValidEnv(env) && ValidSt(st) && env.mcu != [] && Scan(src, env, n, st).ok
    requires forall c :: 0 <= c < 3 ==> Short(st.prev[c])
    ensures var r, m := Scan(src, env, n, st), |env.mcu|;
            && NoMarks(r.toks) == Join(parts)
            && BlockCount(env.interval, m) >= 0
            && BlocksFrom(parts, Repeat(env.mcu, n), r.blocks, st.prev, BlockCount(st.togo, m),
                          BlockCount(env.interval, m))
    decreases n
  {
    hide Usable, Units, Scan, Mcu, BlocksFrom, Wrapped, Boundary, BlockCount, Join, NoMarks, Total;
    BlocksSign(env.interval, |env.mcu|);
    ScanUnfold(src, env, n, st);
    if n == 0 {
      parts := [];
      NoBlocks(st.prev, BlockCount(st.togo, |env.mcu|), BlockCount(env.interval, |env.mcu|));
    } else {
      var m, u := Mcu(src, env, st), Units(src, env, env.mcu, st);
      McuBehind(src, env, st);
      var p := UnitsForm(src, env, env.mcu, st);
      forall c: nat | c < 3 ensures Short(u.st.prev[c]) {
        WrappedShort(u.st.prev[c], st.prev[c] + Total(p, env.mcu, c, 0, |env.mcu|));
      }
      var more := ScanForm(src, env, n - 1, m.st);
      parts := p + more;
      JoinConcat(p, more);
      McuMarks(src, env, st);
      var r := Scan(src, env, n - 1, m.st);
      NoMarksConcat(m.toks, r.toks);
      var every, left := BlockCount(env.interval, |env.mcu|), BlockCount(m.st.togo, |env.mcu|);
      BlocksSign(st.togo, |env.mcu|);
      BlocksSign(m.st.togo, |env.mcu|);
      if st.togo == 1 {
        BlocksRestart(p, env.mcu, u.blocks, st.prev, more, Repeat(env.mcu, n - 1), r.blocks, left, every);
      } else {
        OneLess(st.togo, |env.mcu|);
        BlocksGoOn(p, env.mcu, u.blocks, st.prev, more, Repeat(env.mcu, n - 1), r.blocks, m.st.prev,
                   BlockCount(st.togo, |env.mcu|), left, every);
      }
    }
  }

  /** An MCU's blocks, and the countdown and the predictors behind it. */
  lemma {:induction false} McuBehind(src: Src, env: Env, st: St)
    requires ValidSrc(src) && ValidEnv(env) && ValidSt(st)
    ensures var u, m := Units(src, env, env.mcu, st), Mcu(src, env, st);
            m.ok ==>
              && u.ok && m.blocks == u.blocks
              && (st.togo == 1 ==> m.st.prev == [0, 0, 0] && m.st.togo == if env.interval > 0 then env.interval else -1)
              && (st.togo != 1 ==>
                    m.st.prev == u.st.prev && m.st.togo == if st.togo > 0 then st.togo - 1 else st.togo)
  {
    hide Usable, Units, FindMarker, Rewind;
    McuUnfold(src, env, st);
    UnitsTogo(src, env, env.mcu, st);
  }

  lemma {:induction false} McuMarks(src: Src, env: Env, st: St)
    requires ValidSrc(src) && ValidEnv(env) && ValidSt(st) && Mcu(src, env, st).ok
    ensures NoMarks(Mcu(src, env, st).toks) == Units(src, env, env.mcu, st).toks
  {
    hide Usable, Units, Mcu, FindMarker, Rewind, NoMarks;
    McuUnfold(src, env, st);
    var u := Units(src, env, env.mcu, st);
    UnitsNoRst(src, env, env.mcu, st);
    NoMarksSame(u.toks);
    NoMarksOne(u.st.rst);
    NoMarksConcat(u.toks, Boundary(src, env.interval, u.st).toks);
  }

  /** Where the restart interval of block b starts. */
  function Since(b: nat, every: nat): (a: nat)
    ensures a <= b
  {
    if every == 0 then 0 else b - b % every
  }

  /** Block b of a scan with `every` blocks in a restart interval (0: without restarts). */
  ghost predicate BlockMeans(parts: seq<seq<Tok>>, comps: seq<nat>, blocks: seq<seq<int>>, every: nat, b: nat)
    requires b < |parts| == |comps| == |blocks|
  {
    var c := comps[b];
    && c < 3 && BlockForm(parts[b], c, blocks[b])
    && Wrapped(blocks[b][0], Total(parts, comps, c, Since(b, every), b + 1))
  }

  ghost predicate Means(parts: seq<seq<Tok>>, comps: seq<nat>, blocks: seq<seq<int>>, every: nat) {
    && |parts| == |comps| == |blocks|
    && forall b: nat :: b < |blocks| ==> BlockMeans(parts, comps, blocks, every, b)
  }

  lemma {:induction false} FromMeans(parts: seq<seq<Tok>>, comps: seq<nat>, blocks: seq<seq<int>>, left: int,
                                     every: nat)
    requires BlocksFrom(parts, comps, blocks, [0, 0, 0], left, every) && if every > 0 then left == every else left <= 0
    ensures Means(parts, comps, blocks, every)
  {
    hide AcForm, Positioned, Total, Wrapped;
    forall b: nat | b < |blocks| ensures BlockMeans(parts, comps, blocks, every, b) {
      assert BlockFrom(parts, comps, blocks, [0, 0, 0], left, every, b);
      if every > 0 { StartIs(b, every); }
    }
  }

  /** Decoding a scan, for any data, MCU list and restart interval: its tokens, without the markers, are those of its
      blocks in a row. Block b is of component mcu[b % m]; its AC coefficients stand at their positions; and its
      DC value is the wrapped sum of the differences of that component in the restart interval so far. */
  lemma {:induction false} ScanMeaning(src: Src, env: Env, n: nat, pos: nat, rst: nat) returns (parts: seq<seq<Tok>>)
    requires ValidSrc(src) && ValidEnv(env) && env.mcu != [] && rst < 8
    requires Scan(src, env, n, Resync(pos, env.interval, rst)).ok
    ensures var r := Scan(src, env, n, Resync(pos, env.interval, rst));
            && NoMarks(r.toks) == Join(parts) && BlockCount(env.interval, |env.mcu|) >= 0
            && Means(parts, Repeat(env.mcu, n), r.blocks, BlockCount(env.interval, |env.mcu|))
  {
    hide Usable, Scan, BlocksFrom, Means, BlockCount;
    var st, m := Resync(pos, env.interval, rst), |env.mcu|;
    parts := ScanForm(src, env, n, st);
    BlocksSign(st.togo, m);
    BlocksSign(env.interval, m);
    FromMeans(parts, Repeat(env.mcu, n), Scan(src, env, n, st).blocks, BlockCount(st.togo, m),
              BlockCount(env.interval, m));
  }
}

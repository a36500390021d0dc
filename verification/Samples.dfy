/** Small files with one block per component in each MCU, and what their headers say. */
module Samples {
  import opened Bits
  import opened Canonical
  import opened BitReader
  import opened Scans
  import opened Decoders
  import opened Dht
  import opened Headers

  /** One symbol, 0, with the code 0. */
  const ONE: Huff := Huff([1], [0])

  /** Two symbols: 0 with the code 0, and 1 with the code 100. */
  const TWO: Huff := Huff([1, 3], [0, 1])

  const SOI_MARKER: seq<byte> := [0xff, 0xd8]

  /** A frame header for 8 pixels by `height`, and a restart interval. */
  function SofSegment(height: byte): (r: seq<byte>)
    ensures |r| == 19
  {
    [0xff, 0xc0, 0, 17, 8, 0, height, 0, 8, 3, 1, 0x11, 0, 2, 0x11, 0, 3, 0x11, 0]
  }

  function DriSegment(interval: byte): (r: seq<byte>)
    ensures |r| == 6
  {
    [0xff, 0xdd, 0, 4, 0, interval]
  }

  /** The scan header binds all components to tables 0. */
  const SOS_SEGMENT: seq<byte> := [0xff, 0xda, 0, 12, 3, 1, 0, 2, 0, 3, 0, 0, 63, 0]

  /** Six codes for one MCU, or twelve for two, padded with ones. */
  const ONE_MCU: seq<byte> := [0x03, 0xff, 0xd9]
  const TWO_MCUS: seq<byte> := [0x00, 0x0f, 0xff, 0xd9]

  /** Two MCUs, the first with a DC difference of 1 in component 0. */
  const STEP_MCUS: seq<byte> := [0x90, 0x01, 0xff, 0xd9]

  /** Two MCUs with a restart marker between them. */
  const RST_MCUS: seq<byte> := [0x03, 0xff, 0xd0, 0x03, 0xff, 0xd9]

  lemma {:induction false} OneGood()
    ensures Good(ONE) && Listable(ONE) && Usable(ONE) && SmallVals(ONE)
  {
    assert Kraft([1], 0) == 0;
    assert Kraft([1], 1) == Pow2(15);
    Pow2Mono(15, 16);
    forall n | 10 <= n <= 16 ensures Occurrences([1], n) <= 127 { OccurrencesBound([1], n); }
  }

  lemma {:induction false} TwoGood()
    ensures Good(TWO) && Listable(TWO) && Usable(TWO) && SmallVals(TWO)
  {
    assert Kraft([1, 3], 0) == 0;
    assert Kraft([1, 3], 1) == Pow2(15);
    assert Kraft([1, 3], 2) == Pow2(15) + Pow2(13);
    Pow2Mono(13, 15);
    assert Pow2(16) == 2 * Pow2(15);
    forall n | 10 <= n <= 16 ensures Occurrences([1, 3], n) <= 127 { OccurrencesBound([1, 3], n); }
  }

  /** A DC table and an AC table. */
  function DhtSegment(): (r: seq<byte>)
    ensures |r| == 41
  {
    OneGood();
    TwoGood();
    [0xff, 0xc4, 0, 39] + TableBytes(0x00, TWO) + TableBytes(0x10, ONE)
  }

  /** The frame header first; the tables first; and a restart interval behind the tables. */
  function PlainFile(): seq<byte> { SOI_MARKER + SofSegment(8) + DhtSegment() + SOS_SEGMENT + ONE_MCU }
  function LateFrame(): seq<byte> { SOI_MARKER + DhtSegment() + SofSegment(8) + SOS_SEGMENT + ONE_MCU }
  function LateRestart(): seq<byte> {
    SOI_MARKER + SofSegment(8) + DhtSegment() + DriSegment(5) + SOS_SEGMENT + ONE_MCU
  }

  /** A restart interval behind the tables that takes back an earlier one. */
  function LateChange(data: seq<byte>): seq<byte> {
    SOI_MARKER + SofSegment(16) + DriSegment(1) + DhtSegment() + DriSegment(0) + SOS_SEGMENT + data
  }

  /** A restart interval of one MCU, before the tables. */
  function Restarting(): seq<byte> {
    SOI_MARKER + SofSegment(16) + DriSegment(1) + DhtSegment() + SOS_SEGMENT + RST_MCUS
  }

  function Loaded(file: seq<byte>): (src: Src)
    ensures ValidSrc(src)
  {
    Src(file + [0], |file|)
  }

  // ----- the segments -----

  function Sized(hd: Hd, height: nat): Hd {
    hd.(width := 8, height := height, hf := [1, 1, 1], vf := [1, 1, 1])
  }

  lemma {:induction false} SofAt(buf: seq<byte>, p: nat, hd: Hd, height: byte)
    requires p + 22 <= |buf| && buf[p..p + 19] == SofSegment(height) && ValidHd(hd)
    ensures buf[p] == 0xff && SkipFf(buf, p + 1) == p + 1 && buf[p + 1] == SOF && Be16(buf, p + 2) == 17
    ensures ParseSof(buf, p + 2, hd) == Some(Sized(hd, height)) && buf[p + 9] == 3
  {
    var w := buf[p..p + 19];
    forall i: nat | i < 19 ensures buf[p + i] == w[i] {}
    assert buf[p + 1] == w[1] && buf[p + 2] == w[2] && buf[p + 3] == w[3];
    assert buf[p + 5] == w[5] && buf[p + 6] == w[6] && buf[p + 7] == w[7] && buf[p + 8] == w[8];
    assert buf[p + 9] == w[9] && buf[p + 11] == w[11] && buf[p + 14] == w[14] && buf[p + 17] == w[17];
    SofFactors(buf, p + 10, hd);
  }

  lemma {:induction false} SofFactors(buf: seq<byte>, p: nat, hd: Hd)
    requires p + 9 <= |buf| && buf[p + 1] == buf[p + 4] == buf[p + 7] == 0x11 && ValidHd(hd)
    ensures SofParts(buf, p, 0, 3, hd) == hd.(hf := [1, 1, 1], vf := [1, 1, 1])
  {
    var a := hd.(hf := hd.hf[0 := 1], vf := hd.vf[0 := 1]);
    var b := a.(hf := a.hf[1 := 1], vf := a.vf[1 := 1]);
    var c := b.(hf := b.hf[2 := 1], vf := b.vf[2 := 1]);
    assert SofParts(buf, p, 0, 3, hd) == SofParts(buf, p + 3, 1, 3, a);
    assert SofParts(buf, p + 3, 1, 3, a) == SofParts(buf, p + 6, 2, 3, b);
    assert SofParts(buf, p + 6, 2, 3, b) == SofParts(buf, p + 9, 3, 3, c) == c;
    assert c.hf == [1, 1, 1] && c.vf == [1, 1, 1];
  }

  /** Passing the frame header. */
  lemma {:induction false} PassSof(buf: seq<byte>, p: nat, hd: Hd, height: byte, k: nat)
    requires p + 22 <= |buf| && buf[p..p + 19] == SofSegment(height) && ValidHd(hd)
    ensures Header(buf, p, hd) == Header(buf, p + 19, Sized(hd, height))
    ensures FirstDht(buf, p) == FirstDht(buf, p + 19)
    ensures Frame(buf, p, hd) == Frame(buf, p + 19, Sized(hd, height))
    ensures p + 19 <= k && FieldsWithin(buf, p + 19, k) ==> FieldsWithin(buf, p, k)
  {
    hide ParseSof, ParseDht, SofSegment, SkipFf;
    SofAt(buf, p, hd, height);
  }

  function Twice(t: Tables): (r: Tables)
    requires ValidTables(t)
    ensures ValidTables(r)
  {
    t.(dc := t.dc[0 := Some(TWO)], ac := t.ac[0 := Some(ONE)])
  }

  lemma {:induction false} SubSlice(buf: seq<byte>, p: nat, n: nat, i: nat, j: nat)
    requires p + n <= |buf| && i <= j <= n
    ensures buf[p..p + n][i..j] == buf[p + i..p + j]
  {
    var w := buf[p..p + n];
    assert forall k :: 0 <= k < j - i ==> w[i..j][k] == w[i + k] == buf[p + i..p + j][k];
  }

  lemma {:induction false} TablesAt(buf: seq<byte>, p: nat, t: Tables)
    requires p + 41 <= |buf| && buf[p..p + 41] == DhtSegment() && ValidTables(t)
    ensures buf[p] == 0xff && SkipFf(buf, p + 1) == p + 1 && buf[p + 1] == DHT && Be16(buf, p + 2) == 39
    ensures ParseDht(buf, p + 2, t) == Some(DhtOut(Twice(t), p + 41, 0))
  {
    hide TableBytes, ParseTables, Good;
    OneGood();
    TwoGood();
    var w, a, b := buf[p..p + 41], TableBytes(0x00, TWO), TableBytes(0x10, ONE);
    FourParts(w, [0xff, 0xc4, 0, 39], a, b, [], [], []);
    assert buf[p] == w[0] && buf[p + 1] == w[1] && buf[p + 2] == w[2] && buf[p + 3] == w[3];
    SubSlice(buf, p, 41, 4, 23);
    SubSlice(buf, p, 41, 23, 41);
    ParsePrinted(buf, p + 4, 37, t, 0x00, TWO);
    ParsePrinted(buf, p + 23, 18, Enter(t, 0x00, TWO), 0x10, ONE);
    ParseDone(buf, p + 41, Enter(Enter(t, 0x00, TWO), 0x10, ONE));
  }

  /** Passing the tables. */
  lemma {:induction false} PassDht(buf: seq<byte>, p: nat, hd: Hd, k: nat)
    requires p + 41 <= |buf| && buf[p..p + 41] == DhtSegment() && ValidHd(hd)
    ensures Header(buf, p, hd) == Header(buf, p + 41, hd.(tables := Twice(hd.tables)))
    ensures FirstDht(buf, p) == Copied(p + 2) && Frame(buf, p, hd) == Some(hd) && FieldsWithin(buf, p, k)
  {
    hide ParseDht, DhtSegment, SkipFf;
    TablesAt(buf, p, hd.tables);
  }

  /** Passing a restart interval. */
  lemma {:induction false} PassDri(buf: seq<byte>, p: nat, hd: Hd, i: byte, k: nat)
    requires p + 6 <= |buf| && buf[p..p + 6] == DriSegment(i) && ValidHd(hd)
    ensures Header(buf, p, hd) == Header(buf, p + 6, hd.(interval := i))
    ensures FirstDht(buf, p) == FirstDht(buf, p + 6)
    ensures Frame(buf, p, hd) == Frame(buf, p + 6, hd.(interval := i))
    ensures FieldsWithin(buf, p + 6, k) ==> FieldsWithin(buf, p, k)
  {
    hide ParseSof, ParseDht;
    var w := buf[p..p + 6];
    assert buf[p] == w[0] && buf[p + 1] == w[1] && buf[p + 2] == w[2];
    assert buf[p + 3] == w[3] && buf[p + 4] == w[4] && buf[p + 5] == w[5];
    assert SkipFf(buf, p + 1) == p + 1;
  }

  const FIRSTS: seq<Option<nat>> := [Some(0), Some(0), Some(0)]

  lemma {:induction false} SosAt(buf: seq<byte>, p: nat, hd: Hd)
    requires p + 14 <= |buf| && buf[p..p + 14] == SOS_SEGMENT && ValidHd(hd)
    ensures Header(buf, p, hd) == Parsed(hd.(dcOf := FIRSTS, acOf := FIRSTS, scan := p + 14))
  {
    hide ParseDht, ParseSof, ParseDri, SosParts;
    var w := buf[p..p + 14];
    assert buf[p] == w[0] && buf[p + 1] == w[1] && buf[p + 2] == w[2] && buf[p + 3] == w[3] && buf[p + 4] == w[4];
    assert buf[p + 6] == w[6] && buf[p + 8] == w[8] && buf[p + 10] == w[10];
    assert SkipFf(buf, p + 1) == p + 1;
    SosBindings(buf, p + 5, hd);
  }

  lemma {:induction false} SosBindings(buf: seq<byte>, p: nat, hd: Hd)
    requires p + 6 <= |buf| && buf[p + 1] == buf[p + 3] == buf[p + 5] == 0 && ValidHd(hd)
    ensures SosParts(buf, p, 0, 3, hd) == Some(hd.(dcOf := FIRSTS, acOf := FIRSTS))
  {
    var a := hd.(dcOf := hd.dcOf[0 := Some(0)], acOf := hd.acOf[0 := Some(0)]);
    var b := a.(dcOf := a.dcOf[1 := Some(0)], acOf := a.acOf[1 := Some(0)]);
    var c := b.(dcOf := b.dcOf[2 := Some(0)], acOf := b.acOf[2 := Some(0)]);
    assert SosParts(buf, p, 0, 3, hd) == SosParts(buf, p + 2, 1, 3, a);
    assert SosParts(buf, p + 2, 1, 3, a) == SosParts(buf, p + 4, 2, 3, b);
    assert SosParts(buf, p + 4, 2, 3, b) == SosParts(buf, p + 6, 3, 3, c) == Some(c);
    assert c.dcOf == FIRSTS && c.acOf == FIRSTS;
  }

  // ----- the headers -----

  /** What the headers say, with the scan's data at `scan`. */
  function Bound(height: nat, interval: nat, scan: nat): (hd: Hd)
    ensures ValidHd(hd)
  {
    Sized(BLANK, height).(interval := interval, tables := Twice(BLANK.tables), dcOf := FIRSTS, acOf := FIRSTS,
                          scan := scan)
  }

  lemma {:induction false} Parts(buf: seq<byte>, a: seq<byte>, b: seq<byte>, c: seq<byte>, d: seq<byte>,
                                 e: seq<byte>, rest: seq<byte>)
    requires buf == a + b + c + d + e + rest
    ensures var p := |a|;
            && buf[p..p + |b|] == b && buf[p + |b|..p + |b| + |c|] == c
            && buf[p + |b| + |c|..p + |b| + |c| + |d|] == d
            && buf[p + |b| + |c| + |d|..p + |b| + |c| + |d| + |e|] == e
            && buf[p + |b| + |c| + |d| + |e|..] == rest
  {
    FourParts(buf, a, b, c, d, e, rest);
  }

  lemma {:induction false} Lengths()
    ensures |SOS_SEGMENT| == 14 && |ONE_MCU| == 3 && |SOI_MARKER| == 2
  {}

  lemma {:induction false} PlainHeader()
    ensures var buf := Loaded(PlainFile()).buf;
            && Header(buf, 2, BLANK) == Parsed(Bound(8, 0, 76)) && buf[76..] == ONE_MCU + [0] && |buf| == 80
            && FirstDht(buf, 2) == Copied(23) && Frame(buf, 2, BLANK) == Some(Sized(BLANK, 8))
            && FieldsWithin(buf, 2, 23)
  {
    hide Header, FirstDht, Frame, FieldsWithin, DhtSegment, SofSegment, SOS_SEGMENT, ONE_MCU, SOI_MARKER;
    Lengths();
    var buf := Loaded(PlainFile()).buf;
    assert buf == SOI_MARKER + SofSegment(8) + DhtSegment() + SOS_SEGMENT + [] + (ONE_MCU + [0]);
    Parts(buf, SOI_MARKER, SofSegment(8), DhtSegment(), SOS_SEGMENT, [], ONE_MCU + [0]);
    PassSof(buf, 2, BLANK, 8, 23);
    PassDht(buf, 21, Sized(BLANK, 8), 23);
    SosAt(buf, 62, Sized(BLANK, 8).(tables := Twice(BLANK.tables)));
  }

  lemma {:induction false} LateFrameHeader()
    ensures var buf := Loaded(LateFrame()).buf;
            && Header(buf, 2, BLANK) == Parsed(Bound(8, 0, 76)) && buf[76..] == ONE_MCU + [0] && |buf| == 80
            && FirstDht(buf, 2) == Copied(4) && Frame(buf, 2, BLANK) == Some(BLANK) && FieldsWithin(buf, 2, 4)
  {
    hide Header, FirstDht, Frame, FieldsWithin, DhtSegment, SofSegment, SOS_SEGMENT, ONE_MCU, SOI_MARKER;
    Lengths();
    var buf := Loaded(LateFrame()).buf;
    assert buf == SOI_MARKER + DhtSegment() + SofSegment(8) + SOS_SEGMENT + [] + (ONE_MCU + [0]);
    Parts(buf, SOI_MARKER, DhtSegment(), SofSegment(8), SOS_SEGMENT, [], ONE_MCU + [0]);
    PassDht(buf, 2, BLANK, 4);
    var hd := BLANK.(tables := Twice(BLANK.tables));
    PassSof(buf, 43, hd, 8, 62);
    SosAt(buf, 62, Sized(hd, 8));
  }

  lemma {:induction false} LateRestartHeader()
    ensures var buf := Loaded(LateRestart()).buf;
            && Header(buf, 2, BLANK) == Parsed(Bound(8, 5, 82)) && buf[82..] == ONE_MCU + [0] && |buf| == 86
            && FirstDht(buf, 2) == Copied(23) && Frame(buf, 2, BLANK) == Some(Sized(BLANK, 8))
            && FieldsWithin(buf, 2, 23)
  {
    hide Header, FirstDht, Frame, FieldsWithin, DhtSegment, SofSegment, DriSegment, SOS_SEGMENT, ONE_MCU, SOI_MARKER;
    Lengths();
    var buf := Loaded(LateRestart()).buf;
    assert buf == SOI_MARKER + SofSegment(8) + DhtSegment() + DriSegment(5) + SOS_SEGMENT + (ONE_MCU + [0]);
    Parts(buf, SOI_MARKER, SofSegment(8), DhtSegment(), DriSegment(5), SOS_SEGMENT, ONE_MCU + [0]);
    PassSof(buf, 2, BLANK, 8, 23);
    PassDht(buf, 21, Sized(BLANK, 8), 23);
    var hd := Sized(BLANK, 8).(tables := Twice(BLANK.tables));
    PassDri(buf, 62, hd, 5, 68);
    SosAt(buf, 68, hd.(interval := 5));
  }

  lemma {:induction false} LateChangeStart(buf: seq<byte>)
    requires |buf| >= 88 && buf[2..21] == SofSegment(16) && buf[21..27] == DriSegment(1) && buf[27..68] == DhtSegment()
    ensures Header(buf, 2, BLANK)
            == Header(buf, 68, Sized(BLANK, 16).(interval := 1, tables := Twice(BLANK.tables)))
    ensures FirstDht(buf, 2) == Copied(29) && Frame(buf, 2, BLANK) == Some(Sized(BLANK, 16).(interval := 1))
    ensures FieldsWithin(buf, 2, 29)
  {
    hide Header, FirstDht, Frame, FieldsWithin, DhtSegment, SofSegment, DriSegment;
    PassSof(buf, 2, BLANK, 16, 29);
    PassDri(buf, 21, Sized(BLANK, 16), 1, 29);
    PassDht(buf, 27, Sized(BLANK, 16).(interval := 1), 29);
  }

  lemma {:induction false} LateChangeHeader(data: seq<byte>)
    ensures var buf := Loaded(LateChange(data)).buf;
            && Header(buf, 2, BLANK) == Parsed(Bound(16, 0, 88)) && buf[88..] == data + [0] && |buf| == 89 + |data|
            && FirstDht(buf, 2) == Copied(29) && Frame(buf, 2, BLANK) == Some(Sized(BLANK, 16).(interval := 1))
            && FieldsWithin(buf, 2, 29)
  {
    hide Header, FirstDht, Frame, FieldsWithin, DhtSegment, SofSegment, DriSegment, SOS_SEGMENT, SOI_MARKER;
    Lengths();
    var buf, first := Loaded(LateChange(data)).buf, SOI_MARKER + SofSegment(16);
    var rest := SOS_SEGMENT + data + [0];
    assert buf == SOI_MARKER + SofSegment(16) + DriSegment(1) + DhtSegment() + DriSegment(0) + rest;
    Parts(buf, SOI_MARKER, SofSegment(16), DriSegment(1), DhtSegment(), DriSegment(0), rest);
    assert buf == first + DriSegment(1) + DhtSegment() + DriSegment(0) + SOS_SEGMENT + (data + [0]);
    Parts(buf, first, DriSegment(1), DhtSegment(), DriSegment(0), SOS_SEGMENT, data + [0]);
    LateChangeStart(buf);
    var hd := Sized(BLANK, 16).(interval := 1, tables := Twice(BLANK.tables));
    PassDri(buf, 68, hd, 0, 74);
    SosAt(buf, 74, hd.(interval := 0));
  }

  /** What stands before the data does not depend on it. */
  lemma {:induction false} SameStart(a: seq<byte>, b: seq<byte>)
    ensures var s, t := Loaded(LateChange(a)).buf, Loaded(LateChange(b)).buf;
            |s| >= 88 && |t| >= 88 && s[..88] == t[..88]
  {
    hide DhtSegment, SofSegment, DriSegment, SOS_SEGMENT, SOI_MARKER;
    Lengths();
    var start := SOI_MARKER + SofSegment(16) + DriSegment(1) + DhtSegment() + DriSegment(0) + SOS_SEGMENT;
    assert Loaded(LateChange(a)).buf == start + (a + [0]);
    assert Loaded(LateChange(b)).buf == start + (b + [0]);
  }

  lemma {:induction false} RestartingHeader()
    ensures var buf := Loaded(Restarting()).buf;
            && Header(buf, 2, BLANK) == Parsed(Bound(16, 1, 82)) && buf[82..] == RST_MCUS + [0] && |buf| == 89
            && FirstDht(buf, 2) == Copied(29) && Frame(buf, 2, BLANK) == Some(Sized(BLANK, 16).(interval := 1))
            && FieldsWithin(buf, 2, 29)
  {
    hide Header, FirstDht, Frame, FieldsWithin, DhtSegment, SofSegment, DriSegment, SOS_SEGMENT, RST_MCUS, SOI_MARKER;
    Lengths();
    assert |RST_MCUS| == 6 by { RstLength(); }
    var buf := Loaded(Restarting()).buf;
    assert buf == SOI_MARKER + SofSegment(16) + DriSegment(1) + DhtSegment() + SOS_SEGMENT + (RST_MCUS + [0]);
    Parts(buf, SOI_MARKER, SofSegment(16), DriSegment(1), DhtSegment(), SOS_SEGMENT, RST_MCUS + [0]);
    LateChangeStart(buf);
    SosAt(buf, 68, Sized(BLANK, 16).(interval := 1, tables := Twice(BLANK.tables)));
  }

  lemma {:induction false} RstLength()
    ensures |RST_MCUS| == 6
  {}
}

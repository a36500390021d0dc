/** The segments of a header as the standard lays them out (sections B.2.2, B.2.3 and B.2.4 of ITU-T T.81), and that
    parsing a header recovers what its segments say. */
module Segments {
  import opened Bits
  import opened Canonical
  import opened Scans
  import opened Dht
  import opened Headers

  /** A component of a frame header: its identifier, its sampling factors, its quantisation table. */
  datatype Component = Component(id: byte, h: nat, v: nat, quant: byte)

  /** A component of a scan header: its identifier, its DC table and its AC table. */
  datatype Binding = Binding(id: byte, dc: nat, ac: nat)

  /** A table of a DHT segment. */
  datatype Entry = Entry(ac: bool, index: nat, table: Huff)

  datatype Segment =
    | FrameHeader(precision: byte, width: nat, height: nat, components: seq<Component>)
    | RestartInterval(interval: nat)
    | TableList(entries: seq<Entry>)
    | Other(marker: byte, payload: seq<byte>)

  predicate Printable(s: Segment) {
    match s
    case FrameHeader(_, w, h, cs) =>
      w < 0x1_0000 && h < 0x1_0000 && |cs| <= 3 && forall i :: 0 <= i < |cs| ==> cs[i].h < 16 && cs[i].v < 16
    case RestartInterval(i) => i < 0x1_0000
    case TableList(es) =>
      && (forall i :: 0 <= i < |es| ==> es[i].index < 4 && Listable(es[i].table) && Good(es[i].table))
      && |EntriesBytes(es)| < 0xfffe
    case Other(m, payload) => m != 0xff && m != SOF && m != DRI && m != DHT && m != SOS && |payload| < 0xfffe
  }

  /** A number of two bytes, high byte first. */
  function Two(n: nat): (r: seq<byte>)
    requires n < 0x1_0000
    ensures |r| == 2
  {
    [n / 256, n % 256]
  }

  function ComponentBytes(cs: seq<Component>): (r: seq<byte>)
    requires forall i :: 0 <= i < |cs| ==> cs[i].h < 16 && cs[i].v < 16
    ensures |r| == 3 * |cs|
  {
    if cs == [] then [] else [cs[0].id, 16 * cs[0].h + cs[0].v, cs[0].quant] + ComponentBytes(cs[1..])
  }

  /** The tables in a row, each under its class (1 for AC) and its number. */
  function EntriesBytes(es: seq<Entry>): seq<byte>
    requires forall i :: 0 <= i < |es| ==> es[i].index < 4 && Listable(es[i].table)
  {
    if es == [] then []
    else TableBytes((if es[0].ac then 0x10 else 0) + es[0].index, es[0].table) + EntriesBytes(es[1..])
  }

  function MarkerOf(s: Segment): byte {
    match s
    case FrameHeader(_, _, _, _) => 0xc0
    case RestartInterval(_) => 0xdd
    case TableList(_) => 0xc4
    case Other(m, _) => m
  }

  function Payload(s: Segment): (r: seq<byte>)
    requires Printable(s)
    ensures |r| < 0xfffe
  {
    match s
    case FrameHeader(p, w, h, cs) => [p] + Two(h) + Two(w) + [|cs|] + ComponentBytes(cs)
    case RestartInterval(i) => Two(i)
    case TableList(es) => EntriesBytes(es)
    case Other(_, payload) => payload
  }

  /** A marker, a length that counts its own two bytes, and the payload. */
  function Print(s: Segment): (r: seq<byte>)
    requires Printable(s)
    ensures |r| == 4 + |Payload(s)|
  {
    [0xff, MarkerOf(s)] + Two(2 + |Payload(s)|) + Payload(s)
  }

  // ----- what they say -----

  /** s with other elements from index i on. */
  function Over<T>(s: seq<T>, i: nat, with: seq<T>): (r: seq<T>)
    requires i + |with| <= |s|
    ensures |r| == |s| && forall k :: 0 <= k < |s| ==> r[k] == if i <= k < i + |with| then with[k - i] else s[k]
  {
    s[..i] + with + s[i + |with|..]
  }

  lemma {:induction false} OverStep<T>(s: seq<T>, i: nat, x: T, rest: seq<T>)
    requires i + 1 + |rest| <= |s|
    ensures Over(s[i := x], i + 1, rest) == Over(s, i, [x] + rest)
  {}

  lemma {:induction false} OverNone<T>(s: seq<T>, i: nat)
    requires i <= |s|
    ensures Over(s, i, []) == s
  {}

  function Hs(cs: seq<Component>): (r: seq<nat>)
    ensures |r| == |cs|
  {
    seq(|cs|, i requires 0 <= i < |cs| => cs[i].h)
  }

  function Vs(cs: seq<Component>): (r: seq<nat>)
    ensures |r| == |cs|
  {
    seq(|cs|, i requires 0 <= i < |cs| => cs[i].v)
  }

  function DcOf(bs: seq<Binding>): (r: seq<Option<nat>>)
    ensures |r| == |bs|
  {
    seq(|bs|, i requires 0 <= i < |bs| => Some(bs[i].dc))
  }

  function AcOf(bs: seq<Binding>): (r: seq<Option<nat>>)
    ensures |r| == |bs|
  {
    seq(|bs|, i requires 0 <= i < |bs| => Some(bs[i].ac))
  }

  /** Size and factors, the restart interval, tables. Components and tables that a segment does not list stay. */
  function Apply(hd: Hd, s: Segment): (r: Hd)
    requires ValidHd(hd) && Printable(s)
    ensures ValidHd(r)
  {
    match s
    case FrameHeader(_, w, h, cs) =>
      hd.(width := w, height := h, hf := Over(hd.hf, 0, Hs(cs)), vf := Over(hd.vf, 0, Vs(cs)))
    case RestartInterval(i) => hd.(interval := i)
    case TableList(es) => hd.(tables := EnterAll(hd.tables, es))
    case Other(_, _) => hd
  }

  function EnterAll(t: Tables, es: seq<Entry>): (r: Tables)
    requires ValidTables(t) && forall i :: 0 <= i < |es| ==> es[i].index < 4
    ensures ValidTables(r)
    decreases |es|
  {
    if es == [] then t
    else
      var e := es[0];
      EnterAll(if e.ac then t.(ac := t.ac[e.index := Some(e.table)]) else t.(dc := t.dc[e.index := Some(e.table)]),
               es[1..])
  }

  // ----- parsing -----

  lemma {:induction false} ByteIn(buf: seq<byte>, p: nat, w: seq<byte>, i: nat)
    requires p + |w| <= |buf| && buf[p..p + |w|] == w && i < |w|
    ensures buf[p + i] == w[i]
  {
    assert buf[p + i] == buf[p..p + |w|][i];
  }

  lemma {:induction false} SliceIn(buf: seq<byte>, p: nat, w: seq<byte>, i: nat, j: nat)
    requires p + |w| <= |buf| && buf[p..p + |w|] == w && i <= j <= |w|
    ensures buf[p + i..p + j] == w[i..j]
  {
    var s := buf[p..p + |w|];
    assert forall k :: 0 <= k < j - i ==> w[i..j][k] == s[i + k] == buf[p + i..p + j][k];
  }

  lemma {:induction false} Halves(buf: seq<byte>, p: nat, a: seq<byte>, b: seq<byte>)
    requires p + |a + b| <= |buf| && buf[p..p + |a + b|] == a + b
    ensures buf[p..p + |a|] == a && buf[p + |a|..p + |a| + |b|] == b
  {
    SliceIn(buf, p, a + b, 0, |a|);
    SliceIn(buf, p, a + b, |a|, |a + b|);
    assert (a + b)[..|a|] == a && (a + b)[|a|..] == b;
  }

  lemma {:induction false} TwoBack(buf: seq<byte>, p: nat, w: seq<byte>, i: nat, n: nat)
    requires p + |w| <= |buf| && buf[p..p + |w|] == w && i + 2 <= |w| && n < 0x1_0000 && w[i..i + 2] == Two(n)
    ensures Be16(buf, p + i) == n
  {
    ByteIn(buf, p, w, i);
    ByteIn(buf, p, w, i + 1);
    assert w[i] == w[i..i + 2][0] && w[i + 1] == w[i..i + 2][1];
  }

  lemma {:induction false} Nibbles(h: nat, v: nat)
    requires h < 16 && v < 16
    ensures (16 * h + v) / 16 == h && (16 * h + v) % 16 == v
  {}

  /** The printed components, one by one. */
  lemma {:induction false} ComponentsParsed(buf: seq<byte>, p: nat, i: nat, cs: seq<Component>, hd: Hd)
    requires ValidHd(hd) && i + |cs| <= 3 && forall k :: 0 <= k < |cs| ==> cs[k].h < 16 && cs[k].v < 16
    requires p + 3 * |cs| <= |buf| && buf[p..p + 3 * |cs|] == ComponentBytes(cs)
    ensures SofParts(buf, p, i, i + |cs|, hd) == hd.(hf := Over(hd.hf, i, Hs(cs)), vf := Over(hd.vf, i, Vs(cs)))
    decreases |cs|
  {
    hide Over;
    if cs == [] {
      assert Hs(cs) == [] && Vs(cs) == [];
      OverNone(hd.hf, i);
      OverNone(hd.vf, i);
    } else {
      var w := ComponentBytes(cs);
      ByteIn(buf, p, w, 1);
      SliceIn(buf, p, w, 3, |w|);
      Nibbles(cs[0].h, cs[0].v);
      assert w[3..] == ComponentBytes(cs[1..]);
      var hf, vf := hd.hf[i := cs[0].h], hd.vf[i := cs[0].v];
      ComponentsParsed(buf, p + 3, i + 1, cs[1..], hd.(hf := hf, vf := vf));
      assert Hs(cs) == [cs[0].h] + Hs(cs[1..]) && Vs(cs) == [cs[0].v] + Vs(cs[1..]);
      OverStep(hd.hf, i, cs[0].h, Hs(cs[1..]));
      OverStep(hd.vf, i, cs[0].v, Vs(cs[1..]));
    }
  }

  /** The printed tables, one by one. */
  lemma {:induction false} EntriesParsed(buf: seq<byte>, p: nat, es: seq<Entry>, t: Tables)
    requires forall i :: 0 <= i < |es| ==> es[i].index < 4 && Listable(es[i].table) && Good(es[i].table)
    requires ValidTables(t)
    requires var w := EntriesBytes(es); p + |w| <= |buf| && buf[p..p + |w|] == w
    ensures var n := |EntriesBytes(es)|; ParseTables(buf, p, n, t) == Some(DhtOut(EnterAll(t, es), p + n, 0))
    decreases |es|
  {
    hide Good, TableBytes, Listable, ParseTables;
    if es == [] {
      ParseDone(buf, p, t);
    } else {
      var e, w, rest := es[0], EntriesBytes(es), EntriesBytes(es[1..]);
      var id: byte := (if e.ac then 0x10 else 0) + e.index;
      var one := TableBytes(id, e.table);
      assert w == one + rest;
      Halves(buf, p, one, rest);
      ListableSizes(e.table);
      ParsePrinted(buf, p, |w|, t, id, e.table);
      EntriesParsed(buf, p + |one|, es[1..], Enter(t, id, e.table));
    }
  }

  lemma {:induction false} ListableSizes(h: Huff)
    requires Listable(h)
    ensures |h.sizes| == |h.vals| < 256
  {}

  /** The length field and the marker of a printed segment. */
  lemma {:induction false} Framed(buf: seq<byte>, p: nat, s: Segment)
    requires Printable(s) && p + |Print(s)| <= |buf| && buf[p..p + |Print(s)|] == Print(s)
    ensures buf[p] == 0xff && buf[p + 1] == MarkerOf(s) && SkipFf(buf, p + 1) == p + 1
    ensures Be16(buf, p + 2) == 2 + |Payload(s)|
    ensures buf[p + 4..p + 4 + |Payload(s)|] == Payload(s)
  {
    hide Payload;
    var w := Print(s);
    ByteIn(buf, p, w, 0);
    ByteIn(buf, p, w, 1);
    assert w[2..4] == Two(2 + |Payload(s)|) && w[4..] == Payload(s);
    TwoBack(buf, p, w, 2, 2 + |Payload(s)|);
    SliceIn(buf, p, w, 4, |w|);
  }

  /** Parsing a printed segment. */
  lemma {:induction false} SegmentParsed(buf: seq<byte>, p: nat, s: Segment, hd: Hd)
    requires ValidHd(hd) && Printable(s) && p + |Print(s)| <= |buf| && buf[p..p + |Print(s)|] == Print(s)
    ensures ParseSegment(buf, MarkerOf(s), p + 2, hd) == Some(Apply(hd, s))
  {
    hide Good, Listable, ParseTables, SofParts, ComponentBytes, EntriesBytes, Two;
    Framed(buf, p, s);
    var w, a := Payload(s), p + 4;
    match s
    case FrameHeader(_, width, height, cs) =>
      assert w[1..3] == Two(height) && w[3..5] == Two(width) && w[5] == |cs| && w[6..] == ComponentBytes(cs);
      TwoBack(buf, a, w, 1, height);
      TwoBack(buf, a, w, 3, width);
      ByteIn(buf, a, w, 5);
      SliceIn(buf, a, w, 6, |w|);
      ComponentsParsed(buf, a + 6, 0, cs, hd);
    case RestartInterval(i) =>
      assert w[0..2] == Two(i);
      TwoBack(buf, a, w, 0, i);
    case TableList(es) =>
      EntriesParsed(buf, a, es, hd.tables);
    case Other(_, _) =>
  }

  predicate AllPrintable(ss: seq<Segment>) { forall i :: 0 <= i < |ss| ==> Printable(ss[i]) }

  /** Segments in a row. */
  function PrintAll(ss: seq<Segment>): seq<byte>
    requires AllPrintable(ss)
  {
    if ss == [] then [] else Print(ss[0]) + PrintAll(ss[1..])
  }

  /** What they say together; a later one overrides an earlier one. */
  function ApplyAll(hd: Hd, ss: seq<Segment>): (r: Hd)
    requires ValidHd(hd) && AllPrintable(ss)
    ensures ValidHd(r)
    decreases |ss|
  {
    if ss == [] then hd else ApplyAll(Apply(hd, ss[0]), ss[1..])
  }

  predicate Bindable(bs: seq<Binding>) {
    |bs| <= 3 && forall i :: 0 <= i < |bs| ==> bs[i].dc < 4 && bs[i].ac < 4
  }

  /** A scan header: three components at most, and the spectral selection of a full scan. */
  function PrintScan(bs: seq<Binding>): (r: seq<byte>)
    requires Bindable(bs)
    ensures |r| == 8 + 2 * |bs|
  {
    [0xff, 0xda] + Two(6 + 2 * |bs|) + [|bs|] + BindingBytes(bs) + [0, 63, 0]
  }

  function BindingBytes(bs: seq<Binding>): (r: seq<byte>)
    requires Bindable(bs)
    ensures |r| == 2 * |bs|
  {
    if bs == [] then [] else [bs[0].id, 16 * bs[0].dc + bs[0].ac] + BindingBytes(bs[1..])
  }

  function Bind(hd: Hd, bs: seq<Binding>): (r: Hd)
    requires ValidHd(hd) && Bindable(bs)
    ensures ValidHd(r)
  {
    hd.(dcOf := Over(hd.dcOf, 0, DcOf(bs)), acOf := Over(hd.acOf, 0, AcOf(bs)))
  }

  lemma {:induction false} BindingsParsed(buf: seq<byte>, p: nat, i: nat, bs: seq<Binding>, hd: Hd)
    requires ValidHd(hd) && i + |bs| <= 3 && Bindable(bs)
    requires p + 2 * |bs| <= |buf| && buf[p..p + 2 * |bs|] == BindingBytes(bs)
    ensures SosParts(buf, p, i, i + |bs|, hd)
            == Some(hd.(dcOf := Over(hd.dcOf, i, DcOf(bs)), acOf := Over(hd.acOf, i, AcOf(bs))))
    decreases |bs|
  {
    hide Over;
    if bs == [] {
      assert DcOf(bs) == [] && AcOf(bs) == [];
      OverNone(hd.dcOf, i);
      OverNone(hd.acOf, i);
    } else {
      var w := BindingBytes(bs);
      ByteIn(buf, p, w, 1);
      SliceIn(buf, p, w, 2, |w|);
      Nibbles(bs[0].dc, bs[0].ac);
      assert w[2..] == BindingBytes(bs[1..]);
      var dc, ac := hd.dcOf[i := Some(bs[0].dc)], hd.acOf[i := Some(bs[0].ac)];
      BindingsParsed(buf, p + 2, i + 1, bs[1..], hd.(dcOf := dc, acOf := ac));
      assert DcOf(bs) == [Some(bs[0].dc)] + DcOf(bs[1..]) && AcOf(bs) == [Some(bs[0].ac)] + AcOf(bs[1..]);
      OverStep(hd.dcOf, i, Some(bs[0].dc), DcOf(bs[1..]));
      OverStep(hd.acOf, i, Some(bs[0].ac), AcOf(bs[1..]));
    }
  }

  lemma {:induction false} ScanParsed(buf: seq<byte>, p: nat, bs: seq<Binding>, hd: Hd)
    requires ValidHd(hd) && Bindable(bs)
    requires p + |PrintScan(bs)| <= |buf| && buf[p..p + |PrintScan(bs)|] == PrintScan(bs)
    ensures Header(buf, p, hd) == Parsed(Bind(hd, bs).(scan := p + |PrintScan(bs)|))
  {
    hide ParseDht, ParseSof, ParseDri, BindingBytes, SosParts, Two;
    var w := PrintScan(bs);
    ByteIn(buf, p, w, 0);
    ByteIn(buf, p, w, 1);
    ByteIn(buf, p, w, 4);
    SliceIn(buf, p, w, 5, 5 + 2 * |bs|);
    assert w[5..5 + 2 * |bs|] == BindingBytes(bs);
    assert SkipFf(buf, p + 1) == p + 1;
    BindingsParsed(buf, p + 5, 0, bs, hd);
  }

  lemma {:induction false} RowThen(ss: seq<Segment>, rest: seq<byte>)
    requires AllPrintable(ss) && ss != []
    ensures Printable(ss[0]) && AllPrintable(ss[1..])
    ensures PrintAll(ss) + rest == Print(ss[0]) + (PrintAll(ss[1..]) + rest)
    ensures |PrintAll(ss)| == |Print(ss[0])| + |PrintAll(ss[1..])|
  {
    hide Print, Printable;
    var a, b := Print(ss[0]), PrintAll(ss[1..]);
    assert (a + b) + rest == a + (b + rest);
  }

  /** Header parsing: whatever segments stand in a row before a scan header, in whatever order, the decoder ends up
      with what they say, and with the scan's data right behind the scan header. */
  lemma {:induction false} HeaderParsed(buf: seq<byte>, p: nat, ss: seq<Segment>, bs: seq<Binding>, hd: Hd)
    requires ValidHd(hd) && AllPrintable(ss)
    requires Bindable(bs)
    requires var w := PrintAll(ss) + PrintScan(bs); p + |w| <= |buf| && buf[p..p + |w|] == w
    ensures Header(buf, p, hd)
            == Parsed(Bind(ApplyAll(hd, ss), bs).(scan := p + |PrintAll(ss) + PrintScan(bs)|))
    decreases |ss|
  {
    hide Print, PrintScan, Apply, Bind, Printable, Header, Bindable, PrintAll, ApplyAll, ValidHd, AllPrintable;
    if ss == [] {
      RowEnds(hd);
      assert [] + PrintScan(bs) == PrintScan(bs);
      ScanParsed(buf, p, bs, hd);
    } else {
      RowStep(hd, ss);
      var one, rest := Print(ss[0]), PrintAll(ss[1..]) + PrintScan(bs);
      RowThen(ss, PrintScan(bs));
      Halves(buf, p, one, rest);
      HeaderStep(buf, p, ss[0], hd);
      HeaderParsed(buf, p + |one|, ss[1..], bs, Apply(hd, ss[0]));
    }
  }

  lemma {:induction false} RowEnds(hd: Hd)
    requires ValidHd(hd)
    ensures PrintAll([]) == [] && ApplyAll(hd, []) == hd
  {}

  lemma {:induction false} RowStep(hd: Hd, ss: seq<Segment>)
    requires ValidHd(hd) && AllPrintable(ss) && ss != []
    ensures Printable(ss[0]) && AllPrintable(ss[1..])
    ensures PrintAll(ss) == Print(ss[0]) + PrintAll(ss[1..])
    ensures ApplyAll(hd, ss) == ApplyAll(Apply(hd, ss[0]), ss[1..])
  {
    hide Print, Apply, Printable;
  }

  lemma {:induction false} HeaderStep(buf: seq<byte>, p: nat, s: Segment, hd: Hd)
    requires ValidHd(hd) && Printable(s) && p + |Print(s)| <= |buf| && buf[p..p + |Print(s)|] == Print(s)
    ensures Header(buf, p, hd) == Header(buf, p + |Print(s)|, Apply(hd, s))
  {
    hide Apply, ParseSegment, Payload, SkipFf, Good, Listable;
    Framed(buf, p, s);
    SegmentParsed(buf, p, s, hd);
  }

  // ----- the part before the tables -----

  lemma {:induction false} HeadStep(buf: seq<byte>, p: nat, s: Segment, hd: Hd, k: nat)
    requires ValidHd(hd) && Printable(s) && !s.TableList? && p + |Print(s)| <= |buf| && p + |Print(s)| <= k
    requires buf[p..p + |Print(s)|] == Print(s)
    ensures FirstDht(buf, p) == FirstDht(buf, p + |Print(s)|)
    ensures Frame(buf, p, hd) == Frame(buf, p + |Print(s)|, Apply(hd, s))
    ensures FieldsWithin(buf, p + |Print(s)|, k) ==> FieldsWithin(buf, p, k)
  {
    hide Apply, ParseSegment, SkipFf, Good, Listable, ComponentBytes;
    Framed(buf, p, s);
    SegmentParsed(buf, p, s, hd);
    if s.FrameHeader? { ByteIn(buf, p + 4, Payload(s), 5); }
  }

  lemma {:induction false} TableStep(buf: seq<byte>, p: nat, s: Segment, hd: Hd, k: nat)
    requires ValidHd(hd) && Printable(s) && s.TableList? && p + |Print(s)| <= |buf|
    requires buf[p..p + |Print(s)|] == Print(s)
    ensures FirstDht(buf, p) == Copied(p + 2) && Frame(buf, p, hd) == Some(hd) && FieldsWithin(buf, p, k)
  {
    hide ParseSegment, SkipFf, Payload, Good, Listable;
    Framed(buf, p, s);
  }

  predicate NoTables(ss: seq<Segment>) { forall i :: 0 <= i < |ss| ==> !ss[i].TableList? }

  lemma {:induction false} NoTablesStep(ss: seq<Segment>)
    requires NoTables(ss) && ss != []
    ensures !ss[0].TableList? && NoTables(ss[1..])
  {}

  /** What segments before the first table define, and where the copied part of the header ends. */
  lemma {:induction false} FrameParsed(buf: seq<byte>, p: nat, ss: seq<Segment>, table: Segment, hd: Hd)
    requires ValidHd(hd) && AllPrintable(ss) && Printable(table) && table.TableList?
    requires NoTables(ss)
    requires var w := PrintAll(ss) + Print(table); p + |w| <= |buf| && buf[p..p + |w|] == w
    ensures var e := p + |PrintAll(ss)| + 2;
            FirstDht(buf, p) == Copied(e) && Frame(buf, p, hd) == Some(ApplyAll(hd, ss)) && FieldsWithin(buf, p, e)
    decreases |ss|
  {
    hide Print, Apply, Printable, FirstDht, Frame, FieldsWithin, PrintAll, ApplyAll, ValidHd, AllPrintable, NoTables;
    if ss == [] {
      RowEnds(hd);
      assert [] + Print(table) == Print(table);
      TableStep(buf, p, table, hd, p + 2);
    } else {
      RowStep(hd, ss);
      NoTablesStep(ss);
      var one, rest := Print(ss[0]), PrintAll(ss[1..]) + Print(table);
      RowThen(ss, Print(table));
      Halves(buf, p, one, rest);
      HeadStep(buf, p, ss[0], hd, p + |PrintAll(ss)| + 2);
      FrameParsed(buf, p + |one|, ss[1..], table, Apply(hd, ss[0]));
    }
  }
}

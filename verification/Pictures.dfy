/** Whole files, from the outside: the file that the standard prescribes for given coefficients shows them, and still
    does after it has been rewritten. */
module Pictures {
  import opened Bits
  import opened Canonical
  import opened BitReader
  import opened Blocks
  import opened Scans
  import opened Packing
  import opened Transcoding
  import opened Decoders
  import opened FirstPass
  import opened Dht
  import opened Headers
  import opened Program
  import opened Coding
  import opened Segments
  import Samples

  /** Size, sampling factors of component 0, restart interval, and the blocks of all MCUs. */
  datatype Still = Still(width: nat, height: nat, h: nat, v: nat, interval: nat, mcus: seq<seq<seq<int>>>)

  /** The size and the factors, and the restart interval. */
  function Head(s: Still): seq<Segment> {
    [FrameHeader(8, s.width, s.height, [Component(1, s.h, s.v, 0), Component(2, 1, 1, 1), Component(3, 1, 1, 1)]),
     RestartInterval(s.interval)]
  }

  /** Component 0 uses tables 0, the others tables 1. */
  function TableSegment(codes: seq<Huff>): Segment
    requires |codes| == 4
  {
    TableList([Entry(false, 0, codes[0]), Entry(true, 0, codes[2]),
               Entry(false, 1, codes[1]), Entry(true, 1, codes[3])])
  }

  const BINDINGS: seq<Binding> := [Binding(1, 0, 0), Binding(2, 1, 1), Binding(3, 1, 1)]

  function McuOf(s: Still): (r: seq<nat>)
    ensures forall i :: 0 <= i < |r| ==> r[i] < 3
  {
    LayoutOf(s.h, s.v).mcu
  }

  function ToksOf(s: Still): seq<Tok>
    requires ScanCodable(McuOf(s), s.mcus, s.interval, [0, 0, 0], s.interval)
  {
    CodedToks(McuOf(s), s.mcus, s.interval, [0, 0, 0], s.interval, 0)
  }

  /** The standard can code it with these tables: its numbers fit their fields, it has the MCUs that its size asks for,
      its values fit, and the tables list its symbols. */
  predicate Proper(s: Still, codes: seq<Huff>) {
    && s.width < 0x1_0000 && s.height < 0x1_0000 && s.interval < 0x1_0000 && 1 <= s.h <= 2 && 1 <= s.v <= 2
    && |s.mcus| == SecondCount(s.width, s.height, LayoutOf(s.h, s.v))
    && ScanCodable(McuOf(s), s.mcus, s.interval, [0, 0, 0], s.interval)
    && Fits(codes) && UsableCodes(codes) && SmallVals(codes[0]) && SmallVals(codes[1])
    && AllCovered(codes, ToksOf(s))
  }

  lemma {:induction false} TablesPrintable(codes: seq<Huff>)
    requires Fits(codes)
    ensures Printable(TableSegment(codes))
  {
    hide Good, Listable, TableBytes;
    EntriesShort(TableSegment(codes).entries);
  }

  lemma {:induction false} EntriesShort(es: seq<Entry>)
    requires forall i :: 0 <= i < |es| ==> es[i].index < 4 && Listable(es[i].table)
    ensures |EntriesBytes(es)| <= 272 * |es|
  {
    hide TableBytes;
    if es != [] { EntriesShort(es[1..]); }
  }

  /** The file's header: the start-of-image marker, the segments, the scan header. */
  function HeaderBytes(s: Still, codes: seq<Huff>): seq<byte>
    requires Proper(s, codes)
  {
    TablesPrintable(codes);
    [0xff, 0xd8] + (PrintAll(Head(s) + [TableSegment(codes)]) + PrintScan(BINDINGS))
  }

  /** The file that codes a picture. */
  function FileOf(s: Still, codes: seq<Huff>): seq<byte>
    requires Proper(s, codes)
  {
    File(codes, Pk(HeaderBytes(s, codes), [], []), ToksOf(s))
  }

  function Loaded(s: Still, codes: seq<Huff>, slack: seq<byte>): (src: Src)
    requires Proper(s, codes) && |slack| > 0
    ensures ValidSrc(src)
  {
    Src(FileOf(s, codes) + slack, |FileOf(s, codes)|)
  }

  function PictureOf(s: Still): Picture {
    Picture(s.width, s.height, [s.h, 1, 1], [s.v, 1, 1], Flatten(s.mcus))
  }

  // ----- what the headers define -----

  /** The tables of the file. */
  function TablesOf(codes: seq<Huff>): (t: Tables)
    requires |codes| == 4
    ensures ValidTables(t)
  {
    Tables([Some(codes[0]), Some(codes[1]), None, None], [Some(codes[2]), Some(codes[3]), None, None])
  }

  function FrameOf(s: Still): (hd: Hd)
    ensures ValidHd(hd)
  {
    BLANK.(width := s.width, height := s.height, hf := [s.h, 1, 1], vf := [s.v, 1, 1], interval := s.interval)
  }

  function HdFor(s: Still, codes: seq<Huff>, scan: nat): (hd: Hd)
    requires |codes| == 4
    ensures ValidHd(hd)
  {
    FrameOf(s).(tables := TablesOf(codes), dcOf := BINDING, acOf := BINDING, scan := scan)
  }

  lemma {:induction false} HeadApplied(s: Still, codes: seq<Huff>)
    requires Proper(s, codes)
    ensures AllPrintable(Head(s)) && Printable(TableSegment(codes)) && Bindable(BINDINGS)
    ensures ApplyAll(BLANK, Head(s)) == FrameOf(s)
    ensures Bind(ApplyAll(BLANK, Head(s) + [TableSegment(codes)]), BINDINGS).(scan := 0) == HdFor(s, codes, 0)
  {
    hide Good, Listable, EntriesBytes, CodedToks, ScanCodable, Over;
    TablesPrintable(codes);
    var ss, t := Head(s), TableSegment(codes);
    RowStep(BLANK, ss);
    var one := Apply(BLANK, ss[0]);
    RowStep(one, ss[1..]);
    RowEnds(FrameOf(s));
    assert ss[1..][1..] == [];
    FactorsApplied(s);
    assert Apply(one, ss[1]) == FrameOf(s);
    assert (ss + [t])[1..] == ss[1..] + [t] && (ss[1..] + [t])[1..] == [t] && [t][1..] == [];
    RowStep(BLANK, ss + [t]);
    RowStep(one, ss[1..] + [t]);
    RowStep(FrameOf(s), [t]);
    EnteredFour(codes);
    RowEnds(FrameOf(s).(tables := TablesOf(codes)));
    BindingsApplied();
  }

  lemma {:induction false} FactorsApplied(s: Still)
    ensures Over([0, 0, 0], 0, Hs(Head(s)[0].components)) == [s.h, 1, 1]
    ensures Over([0, 0, 0], 0, Vs(Head(s)[0].components)) == [s.v, 1, 1]
  {}

  lemma {:induction false} BindingsApplied()
    ensures Over([None, None, None], 0, DcOf(BINDINGS)) == BINDING
    ensures Over([None, None, None], 0, Segments.AcOf(BINDINGS)) == BINDING
  {}

  lemma {:induction false} EnteredFour(codes: seq<Huff>)
    requires |codes| == 4
    ensures EnterAll(BLANK.tables, TableSegment(codes).entries) == TablesOf(codes)
  {
    var es, t0 := TableSegment(codes).entries, BLANK.tables;
    var t1 := t0.(dc := t0.dc[0 := Some(codes[0])]);
    var t2 := t1.(ac := t1.ac[0 := Some(codes[2])]);
    var t3 := t2.(dc := t2.dc[1 := Some(codes[1])]);
    var t4 := t3.(ac := t3.ac[1 := Some(codes[3])]);
    assert EnterAll(t0, es) == EnterAll(t1, es[1..]);
    assert es[1..][1..] == es[2..] && es[2..][1..] == es[3..] && es[3..][1..] == [];
    assert EnterAll(t1, es[1..]) == EnterAll(t2, es[2..]);
    assert EnterAll(t2, es[2..]) == EnterAll(t3, es[3..]);
    assert EnterAll(t3, es[3..]) == EnterAll(t4, []) == t4;
    assert t4 == TablesOf(codes);
  }

  lemma {:induction false} TablesUsed(s: Still, codes: seq<Huff>, scan: nat)
    requires Proper(s, codes)
    ensures var hd := HdFor(s, codes, scan);
            && Tabled(hd) && LayoutIn(hd) == LayoutOf(s.h, s.v)
            && EnvOf(hd, McuOf(s)) == NewEnv(codes, McuOf(s), s.interval)
  {
    hide Good, Listable, SmallVals, Usable, CodedToks, ScanCodable, LayoutOf, AllCovered;
  }

  // ----- the file -----

  predicate StartsWith(buf: seq<byte>, head: seq<byte>) { |head| <= |buf| && buf[..|head|] == head }

  lemma {:induction false} FileStarts(s: Still, codes: seq<Huff>, slack: seq<byte>)
    requires Proper(s, codes) && |slack| > 0
    ensures StartsWith(Loaded(s, codes, slack).buf, HeaderBytes(s, codes))
  {
    hide Fits, UsableCodes, AllCovered, CodedToks, ScanCodable, HeaderBytes, File;
    FilePrefix(codes, Pk(HeaderBytes(s, codes), [], []), ToksOf(s));
  }

  lemma {:induction false} Inside(buf: seq<byte>, a: seq<byte>, w: seq<byte>, b: seq<byte>)
    requires StartsWith(buf, a + (w + b))
    ensures |a| + |w| <= |buf| && buf[|a|..|a| + |w|] == w
  {
    var s := a + (w + b);
    assert forall i :: 0 <= i < |w| ==> w[i] == s[|a| + i] == buf[..|s|][|a| + i];
  }

  /** What the decoder makes of its header. */
  lemma {:induction false} FileHeader(s: Still, codes: seq<Huff>, buf: seq<byte>)
    requires Proper(s, codes) && StartsWith(buf, HeaderBytes(s, codes))
    ensures Header(buf, 2, BLANK) == Parsed(HdFor(s, codes, |HeaderBytes(s, codes)|))
  {
    hide Good, Listable, CodedToks, ScanCodable, AllCovered, PrintAll, PrintScan, ApplyAll, Bind, Header, Print, File,
         Printable, Bindable;
    HeadApplied(s, codes);
    TablesPrintable(codes);
    var w := PrintAll(Head(s) + [TableSegment(codes)]) + PrintScan(BINDINGS);
    assert w + [] == w;
    Inside(buf, [0xff, 0xd8], w, []);
    HeaderParsed(buf, 2, Head(s) + [TableSegment(codes)], BINDINGS, BLANK);
  }

  /** The file of a picture shows it: the decoder recovers size, factors and every coefficient, for all picture
      sizes, sampling factors of 1 and 2, restart intervals, tables that fit, and coefficients that the standard
      can code. */
  lemma {:induction false} PictureShown(s: Still, codes: seq<Huff>, slack: seq<byte>)
    requires Proper(s, codes) && |slack| > 0
    ensures DecodeFile(Loaded(s, codes, slack)) == Some(PictureOf(s))
  {
    hide Good, Listable, CodedToks, ScanCodable, AllCovered, HeaderBytes, Header, File, Scan, Flatten, SecondCount,
         LayoutOf, EnvOf, NewEnv, UsableCodes, SmallVals, Tabled;
    var src, h := Loaded(s, codes, slack), |HeaderBytes(s, codes)|;
    FileStarts(s, codes, slack);
    FileHeader(s, codes, src.buf);
    TablesUsed(s, codes, h);
    CodedScan(codes, McuOf(s), s.mcus, s.interval, HeaderBytes(s, codes), slack);
  }

  // ----- rewriting it -----

  lemma {:induction false} RowSplit(ss: seq<Segment>, table: Segment)
    requires AllPrintable(ss) && Printable(table)
    ensures AllPrintable(ss + [table]) && PrintAll(ss + [table]) == PrintAll(ss) + Print(table)
    decreases |ss|
  {
    hide Print, Printable;
    if ss == [] {
      assert ss + [table] == [table] && [table][1..] == [];
    } else {
      RowSplit(ss[1..], table);
      assert (ss + [table])[0] == ss[0] && (ss + [table])[1..] == ss[1..] + [table];
    }
  }

  /** Its frame comes before its tables. */
  lemma {:induction false} FileFrame(s: Still, codes: seq<Huff>, buf: seq<byte>)
    requires Proper(s, codes) && StartsWith(buf, HeaderBytes(s, codes))
    ensures FirstDht(buf, 2).Copied? && Frame(buf, 2, BLANK) == Some(FrameOf(s))
    ensures FieldsWithin(buf, 2, FirstDht(buf, 2).end)
  {
    hide Good, Listable, CodedToks, ScanCodable, AllCovered, PrintAll, PrintScan, ApplyAll, Bind, FirstDht, Frame,
         FieldsWithin, Print, File, Printable, Bindable;
    HeadApplied(s, codes);
    RowSplit(Head(s), TableSegment(codes));
    var w := PrintAll(Head(s)) + Print(TableSegment(codes));
    Inside(buf, [0xff, 0xd8], w, PrintScan(BINDINGS));
    FrameParsed(buf, 2, Head(s), TableSegment(codes), BLANK);
  }

  /** A picture without subsampling is a complete file that the program accepts and whose frame it keeps. */
  lemma {:induction false} FileAccepted(s: Still, codes: seq<Huff>, slack: seq<byte>)
    requires Proper(s, codes) && |slack| > 0 && s.h == s.v == 1
    ensures var src := Loaded(s, codes, slack); Accepted(src) && Complete(src) && FieldsCopied(src) && KeepsFrame(src)
  {
    hide Good, Listable, CodedToks, ScanCodable, AllCovered, HeaderBytes, Header, File, Scan, Flatten, SecondCount,
         EnvOf, NewEnv, UsableCodes, SmallVals, Tabled, FirstDht, Frame, FieldsWithin;
    var src, h := Loaded(s, codes, slack), |HeaderBytes(s, codes)|;
    FileStarts(s, codes, slack);
    FileHeader(s, codes, src.buf);
    FileFrame(s, codes, src.buf);
    TablesUsed(s, codes, h);
    CodedScan(codes, McuOf(s), s.mcus, s.interval, HeaderBytes(s, codes), slack);
    CompleteScan(src);
  }

  /** From coefficients to coefficients: take any picture without subsampling and the file that codes it; rewrite that
      file with any fitting tables that list its symbols; the result is complete and shows the picture. */
  lemma {:induction false} PictureSurvives(s: Still, codes: seq<Huff>, slack: seq<byte>,
                                           news: seq<Huff>, slack2: seq<byte>)
    requires Proper(s, codes) && |slack| > 0 && |slack2| > 0 && s.h == s.v == 1
    requires Serves(news, Loaded(s, codes, slack))
    ensures var out := Output(Loaded(s, codes, slack), news, slack2);
            Complete(out) && DecodeFile(out) == Some(PictureOf(s))
  {
    hide Proper, Loaded, Serves, Accepted, Complete, DecodeFile, FieldsCopied, KeepsFrame, FrameSurvives, HeaderSuits,
         Output, Flatten, Writable;
    var src := Loaded(s, codes, slack);
    FileAccepted(s, codes, slack);
    PictureShown(s, codes, slack);
    ServesParts(src, news);
    CopiedSurvives(src, news);
    SurvivingFrame(src, news);
    RewrittenDecodes(src, news, slack2);
  }

  // ----- one such picture -----

  /** The symbols 0 and 0x11: a zero and a coefficient of one bit. */
  const RUN: Huff := Huff([1, 3], [0, 0x11])
  const TABLES: seq<Huff> := [Samples.ONE, Samples.ONE, RUN, Samples.ONE]

  /** Three blocks, of which the first has the AC coefficient 1 behind a zero. */
  function RunBlock(): (r: seq<int>)
    ensures |r| == 64
  {
    ZeroBlock(0)[2 := 1]
  }

  function RunPicture(): Still { Still(8, 8, 1, 1, 0, [[RunBlock(), ZeroBlock(0), ZeroBlock(0)]]) }

  lemma {:induction false} RunGood()
    ensures Good(RUN) && Listable(RUN) && Usable(RUN)
  {
    Samples.TwoGood();
    assert RUN.sizes == Samples.TWO.sizes;
  }

  /** What an AC run of zeros is coded as, and one with a coefficient behind a zero. */
  lemma {:induction false} RunsCoded(table: nat)
    ensures RunToks(ZeroBlock(0)[1..], table) == [Sym(table, 0)]
    ensures RunToks(RunBlock()[1..], table) == [Sym(table, 0x11), Mag([true]), Sym(table, 0)]
  {
    hide ZeroBlock, RunBlock, RunToks;
    BlockParts();
    ZeroRun(63, table);
    OneRun(RunBlock()[1..], table);
  }

  lemma {:induction false} OneRun(s: seq<int>, table: nat)
    requires |s| == 63 && s[0] == 0 && s[1] == 1 && s[2..] == Nulls(61)
    ensures RunToks(s, table) == [Sym(table, 0x11), Mag([true]), Sym(table, 0)]
  {
    hide Nulls;
    ZeroRun(61, table);
    assert LeadingZeros(s[1..]) == 0 && LeadingZeros(s) == 1;
    OneMag();
    assert RunToks(s, table) == [Sym(table, 0x11), Mag([true])] + RunToks(s[2..], table);
  }

  lemma {:induction false} OneMag()
    ensures SizeOf(Abs(1)) == 1 && MagOf(1) == [true]
  {
    assert BitsOf(0, 0) == [] && BitsOf(1, 1) == [true];
  }

  lemma {:induction false} BlockParts()
    ensures ZeroBlock(0)[1..] == Nulls(63)
    ensures var s := RunBlock()[1..]; |s| == 63 && s[0] == 0 && s[1] == 1 && s[2..] == Nulls(61)
  {}

  lemma {:induction false} ZeroRun(n: nat, table: nat)
    requires n > 0
    ensures RunToks(Nulls(n), table) == [Sym(table, 0)]
  {
    assert LeadingZeros(Nulls(n)) == n;
  }

  /** The coding of that picture exists, so its file shows it. */
  lemma {:induction false} RunShown(slack: seq<byte>)
    requires |slack| > 0
    ensures Proper(RunPicture(), TABLES)
    ensures DecodeFile(Loaded(RunPicture(), TABLES, slack)) == Some(PictureOf(RunPicture()))
  {
    hide Proper, Loaded, DecodeFile;
    RunProper();
    PictureShown(RunPicture(), TABLES, slack);
  }

  lemma {:induction false} RunProper()
    ensures Proper(RunPicture(), TABLES)
  {
    hide Good, Listable, Usable, RunToks, ZeroBlock, SizeOf, MagOf;
    RunGood();
    Samples.OneGood();
    assert CeilDiv(8, 8) == 1 && SecondCount(8, 8, LayoutOf(1, 1)) == 1;
    RunCovered();
  }

  /** One block that leaves the predictors at 0. */
  lemma {:induction false} McuStep(c: nat, comps: seq<nat>, block: seq<int>, blocks: seq<seq<int>>)
    requires c < 3 && Codable(block, 0) && block[0] == 0 && McuCodable(comps, blocks, [0, 0, 0])
    ensures McuCodable([c] + comps, [block] + blocks, [0, 0, 0])
    ensures McuToks([c] + comps, [block] + blocks, [0, 0, 0])
            == [Sym(DcTable(c), 0)] + RunToks(block[1..], AcTable(c)) + McuToks(comps, blocks, [0, 0, 0])
    ensures PrevAfter([c] + comps, [block] + blocks, [0, 0, 0]) == PrevAfter(comps, blocks, [0, 0, 0])
  {
    hide Codable, RunToks;
    assert ([c] + comps)[1..] == comps && ([block] + blocks)[1..] == blocks && [0, 0, 0][c := 0] == [0, 0, 0];
    assert SizeOf(0) == 0 && DcToks(c, 0) == [Sym(DcTable(c), 0)];
  }

  /** The tokens of its one MCU. */
  lemma {:induction false} RunTokens()
    ensures var mcu, blocks := [0, 1, 2], RunPicture().mcus[0];
            && McuCodable(mcu, blocks, [0, 0, 0])
            && McuToks(mcu, blocks, [0, 0, 0])
               == [Sym(0, 0), Sym(2, 0x11), Mag([true]), Sym(2, 0), Sym(1, 0), Sym(3, 0), Sym(1, 0), Sym(3, 0)]
  {
    hide RunToks, McuToks, McuCodable, PrevAfter;
    var b, z := RunBlock(), ZeroBlock(0);
    assert Codable(b, 0) && Codable(z, 0);
    NoMcu();
    assert [2] + [] == [2] && [1] + [2] == [1, 2] && [0] + [1, 2] == [0, 1, 2];
    assert [z] + [] == [z] && [z] + [z] == [z, z] && [b] + [z, z] == [b, z, z];
    McuStep(2, [], z, []);
    McuStep(1, [2], z, [z]);
    McuStep(0, [1, 2], b, [z, z]);
    RunsCoded(2);
    RunsCoded(3);
  }

  lemma {:induction false} NoMcu()
    ensures McuCodable([], [], [0, 0, 0]) && McuToks([], [], [0, 0, 0]) == []
  {}

  lemma {:induction false} RunCovered()
    ensures ScanCodable([0, 1, 2], RunPicture().mcus, 0, [0, 0, 0], 0)
    ensures AllCovered(TABLES, CodedToks([0, 1, 2], RunPicture().mcus, 0, [0, 0, 0], 0, 0))
  {
    hide McuToks, McuCodable, PrevAfter, RunBlock, ZeroBlock;
    RunTokens();
    var mcus := RunPicture().mcus;
    assert mcus[1..] == [];
    var toks := McuToks([0, 1, 2], mcus[0], [0, 0, 0]);
    assert CodedToks([0, 1, 2], mcus, 0, [0, 0, 0], 0, 0) == toks + [] == toks;
    assert Samples.ONE.vals[0] in Samples.ONE.vals && RUN.vals[0] in RUN.vals && RUN.vals[1] in RUN.vals;
  }
}

/** The whole program: count the symbols of all images, build one set of tables, rewrite every image.
    The rewritten images decode to the same pictures. */
module Program {
  import opened Bits
  import opened Canonical
  import opened BitReader
  import opened Blocks
  import opened Scans
  import opened Intervals
  import opened Packing
  import opened Transcoding
  import opened Sorting
  import opened HuffmanTables
  import opened Decoders
  import opened BitWriter
  import opened FirstPass
  import opened CodeAssigner
  import opened CodeBooks
  import opened Coverage
  import opened SecondPass
  import opened Dht
  import opened Headers

  // ----- decoding a file -----

  predicate Table(o: Option<Huff>) { o.Some? && Good(o.value) }

  /** The DC table that component c is bound to, if it is there. */
  function DcChoice(hd: Hd, c: nat): Option<Huff>
    requires ValidHd(hd) && c < 3
  {
    match hd.dcOf[c] case None => None case Some(i) => hd.tables.dc[i]
  }

  function AcChoice(hd: Hd, c: nat): Option<Huff>
    requires ValidHd(hd) && c < 3
  {
    match hd.acOf[c] case None => None case Some(i) => hd.tables.ac[i]
  }

  /** The tables of all components are defined, and DC symbols are sizes. */
  predicate Tabled(hd: Hd) {
    && ValidHd(hd)
    && forall c: nat :: c < 3 ==>
         Table(DcChoice(hd, c)) && SmallVals(DcChoice(hd, c).value) && Table(AcChoice(hd, c))
  }

  function DcIn(hd: Hd, c: nat): (h: Huff)
    requires Tabled(hd) && c < 3
    ensures Usable(h) && SmallVals(h)
  {
    DcChoice(hd, c).value
  }

  function AcIn(hd: Hd, c: nat): (h: Huff)
    requires Tabled(hd) && c < 3
    ensures Usable(h)
  {
    AcChoice(hd, c).value
  }

  lemma {:induction false} EnvValid(env: Env)
    requires |env.dc| == 3 && |env.ac| == 3 && forall i :: 0 <= i < |env.mcu| ==> env.mcu[i] < 3
    requires Usable(env.dc[0]) && Usable(env.dc[1]) && Usable(env.dc[2])
    requires Usable(env.ac[0]) && Usable(env.ac[1]) && Usable(env.ac[2])
    requires SmallVals(env.dc[0]) && SmallVals(env.dc[1]) && SmallVals(env.dc[2])
    ensures ValidEnv(env) && SmallSizes(env)
  {
    hide Usable, SmallVals;
  }

  function EnvOf(hd: Hd, mcu: seq<nat>): (env: Env)
    requires Tabled(hd) && forall i :: 0 <= i < |mcu| ==> mcu[i] < 3
    ensures ValidEnv(env) && SmallSizes(env) && env.mcu == mcu && env.interval == hd.interval
  {
    hide *;
    var env := Env([DcIn(hd, 0), DcIn(hd, 1), DcIn(hd, 2)], [AcIn(hd, 0), AcIn(hd, 1), AcIn(hd, 2)], mcu, hd.interval);
    EnvValid(env);
    env
  }

  /** Each component is decoded with the tables that the scan header binds it to. */
  lemma {:induction false} EnvTables(hd: Hd, mcu: seq<nat>, c: nat)
    requires Tabled(hd) && (forall i :: 0 <= i < |mcu| ==> mcu[i] < 3) && c < 3
    ensures hd.dcOf[c].Some? && hd.tables.dc[hd.dcOf[c].value] == Some(EnvOf(hd, mcu).dc[c])
    ensures hd.acOf[c].Some? && hd.tables.ac[hd.acOf[c].value] == Some(EnvOf(hd, mcu).ac[c])
  {
    hide Good, SmallVals, Usable;
    assert Table(DcChoice(hd, c)) && Table(AcChoice(hd, c));
    assert [DcIn(hd, 0), DcIn(hd, 1), DcIn(hd, 2)][c] == DcIn(hd, c);
    assert [AcIn(hd, 0), AcIn(hd, 1), AcIn(hd, 2)][c] == AcIn(hd, c);
  }

  function LayoutIn(hd: Hd): (l: Layout)
    requires ValidHd(hd)
    ensures l.xstride > 0 && l.ystride > 0 && forall i :: 0 <= i < |l.mcu| ==> l.mcu[i] < 3
  {
    LayoutOf(hd.hf[0], hd.vf[0])
  }

  /** n MCUs of the scan behind a header. */
  function ScanOf(src: Src, hd: Hd, n: nat): ScanOut
    requires ValidSrc(src) && Tabled(hd)
  {
    Scan(src, EnvOf(hd, LayoutIn(hd).mcu), n, Resync(hd.scan, hd.interval, 0))
  }

  datatype Picture = Picture(width: nat, height: nat, hf: seq<nat>, vf: seq<nat>, blocks: seq<seq<int>>)

  /** What the decoder makes of the first k MCUs of a file: its size, its sampling factors, and the
      coefficients of their blocks, provided that the data lasts that far. */
  function DecodeMcus(src: Src, k: nat): Option<Picture>
    requires ValidSrc(src)
  {
    match Header(src.buf, 2, BLANK)
    case Parsed(hd) =>
      if !Tabled(hd) then None
      else
        var r := ScanOf(src, hd, k);
        if r.ok then Some(Picture(hd.width, hd.height, hd.hf, hd.vf, r.blocks)) else None
    case _ => None
  }

  /** The MCUs of a picture of the size that the headers say. */
  function McuCount(src: Src): nat {
    match Header(src.buf, 2, BLANK)
    case Parsed(hd) => SecondCount(hd.width, hd.height, LayoutIn(hd))
    case _ => 0
  }

  /** What the decoder makes of a file. */
  function DecodeFile(src: Src): Option<Picture>
    requires ValidSrc(src)
  {
    DecodeMcus(src, McuCount(src))
  }

  // ----- rewriting a file -----

  const PLAIN: Layout := Layout([0, 1, 2], 8, 8)

  /** The program rewrites the file: headers lead to a scan without subsampling whose tables are there. */
  predicate Accepted(src: Src) {
    && ValidSrc(src) && Header(src.buf, 2, BLANK).Parsed?
    && Tabled(Header(src.buf, 2, BLANK).hd) && LayoutIn(Header(src.buf, 2, BLANK).hd) == PLAIN
  }

  function HdOf(src: Src): (hd: Hd)
    requires Accepted(src)
    ensures Tabled(hd) && LayoutIn(hd) == PLAIN && Header(src.buf, 2, BLANK) == Parsed(hd)
  {
    Header(src.buf, 2, BLANK).hd
  }

  lemma {:induction false} AcceptedDht(src: Src)
    requires Accepted(src)
    ensures FirstDht(src.buf, 2).Copied? && Frame(src.buf, 2, BLANK).Some?
  {
    hide Header, Frame, FirstDht, LayoutIn;
    BlankUntabled(HdOf(src));
    ReachesDht(src.buf, 2, BLANK);
    HeaderFrame(src.buf, 2, BLANK, FirstDht(src.buf, 2).end);
  }

  lemma {:induction false} BlankUntabled(hd: Hd)
    requires Tabled(hd)
    ensures hd.tables != BLANK.tables
  {
    hide Good, SmallVals;
    assert Table(DcChoice(hd, 0));
  }

  /** What the first pass decodes ... */
  function FirstScan(src: Src): ScanOut
    requires Accepted(src)
  {
    ScanOf(src, HdOf(src), FirstCount(HdOf(src).width, HdOf(src).height, PLAIN))
  }

  /** ... and the second. */
  function SecondScan(src: Src): ScanOut
    requires Accepted(src)
  {
    ScanOf(src, HdOf(src), SecondCount(HdOf(src).width, HdOf(src).height, PLAIN))
  }

  /** No restart boundary among the first k MCUs meets the end of the image, but maybe the one behind them. */
  predicate MarkersFound(src: Src, k: nat)
    requires Accepted(src)
  {
    ScanOf(src, HdOf(src), k).clean
  }

  /** A complete file: its data lasts for its picture, and the decoder finds every restart marker it needs. */
  predicate Complete(src: Src) {
    Accepted(src) && DecodeFile(src).Some? && MarkersFound(src, McuCount(src))
  }

  /** Everything that the first pass counts. */
  function Seen(files: seq<Src>): seq<Tok>
    requires forall i :: 0 <= i < |files| ==> Accepted(files[i])
  {
    if files == [] then [] else Seen(files[..|files| - 1]) + FirstScan(files[|files| - 1]).toks
  }

  /** The header of the rewritten file. */
  function HeaderOf(src: Src, codes: seq<Huff>): seq<byte>
    requires Accepted(src) && Writable(codes)
  {
    AcceptedDht(src);
    NewHeader(src.buf, FirstDht(src.buf, 2).end, codes)
  }

  /** The new tables fit one segment and the decoder. */
  predicate Fits(codes: seq<Huff>) {
    Writable(codes) && forall c :: 0 <= c < 4 ==> Good(codes[c])
  }

  /** They list all symbols of the file. */
  predicate Serves(codes: seq<Huff>, src: Src) {
    && Accepted(src) && Fits(codes) && UsableCodes(codes) && SmallVals(codes[0]) && SmallVals(codes[1])
    && AllCovered(codes, SecondScan(src).toks)
  }

  /** The rewritten file. */
  function Rewritten(src: Src, codes: seq<Huff>): seq<byte>
    requires Serves(codes, src)
  {
    File(codes, Pk(HeaderOf(src, codes), [], []), SecondScan(src).toks)
  }

  /** The rewritten file in memory, with other bytes behind it. */
  function Output(src: Src, codes: seq<Huff>, slack: seq<byte>): (out: Src)
    requires Serves(codes, src) && |slack| > 0
    ensures ValidSrc(out)
  {
    Src(Rewritten(src, codes) + slack, |Rewritten(src, codes)|)
  }

  lemma {:induction false} FitsUsable(codes: seq<Huff>)
    requires Fits(codes)
    ensures UsableCodes(codes)
  {}

  /** Before s stands a scan header for three components with the identifiers 0, 1, 2 and the selectors 0x00, 0x11,
      0x11, that announces all 64 coefficients. */
  predicate FullScanHeader(f: seq<byte>, s: nat) {
    && 14 <= s <= |f|
    && f[s - 14] == 0xff && f[s - 13] == 0xda && f[s - 12] == 0 && f[s - 11] == 12 && f[s - 10] == 3
    && f[s - 9] == 0 && f[s - 8] == 0x00 && f[s - 7] == 1 && f[s - 6] == 0x11 && f[s - 5] == 2 && f[s - 4] == 0x11
    && f[s - 3] == 0 && f[s - 2] == 63 && f[s - 1] == 0
  }

  lemma {:induction false} HeaderLength()
    ensures |SCAN_HEADER| == 14
  {}

  lemma {:induction false} HeaderEnd(f: seq<byte>, s: nat)
    requires 14 <= s <= |f| && f[..s][s - 14..] == SCAN_HEADER
    ensures FullScanHeader(f, s)
  {
    var w := f[..s][s - 14..];
    assert w[0] == f[s - 14] && w[1] == f[s - 13] && w[2] == f[s - 12] && w[3] == f[s - 11] && w[4] == f[s - 10];
    assert w[5] == f[s - 9] && w[6] == f[s - 8] && w[7] == f[s - 7] && w[8] == f[s - 6] && w[9] == f[s - 5];
    assert w[10] == f[s - 4] && w[11] == f[s - 3] && w[12] == f[s - 2] && w[13] == f[s - 1];
  }

  /** What stands in a rewritten file, byte by byte: the input up to and including its first DHT marker, the four new
      tables, and a scan header for three components with the identifiers 0, 1, 2 and the selectors 0x00, 0x11,
      0x11, that announces all coefficients; and right behind it the scan. */
  lemma {:induction false} RewrittenBytes(src: Src, codes: seq<Huff>)
    requires Serves(codes, src)
    ensures var f, s := Rewritten(src, codes), |HeaderOf(src, codes)|;
            s <= |f| && f[..s] == HeaderOf(src, codes) && FullScanHeader(f, s)
    ensures var f := Rewritten(src, codes);
            && FirstDht(src.buf, 2).Copied?
            && var e := FirstDht(src.buf, 2).end;
               2 <= e <= |f| && f[..e] == src.buf[..e] && f[e - 2] == 0xff && f[e - 1] == 0xc4
  {
    hide Rewritten, HeaderOf, Serves, FirstDht, Writable;
    ServesParts(src, codes);
    var e := RewrittenHead(src, codes);
    var f, s := Rewritten(src, codes), |HeaderOf(src, codes)|;
    HeaderEnd(f, s);
    DhtMarker(src.buf, 2);
    assert f[e - 2] == f[..e][e - 2] && f[e - 1] == f[..e][e - 1];
  }

  lemma {:induction false} RewrittenHead(src: Src, codes: seq<Huff>) returns (e: nat)
    requires Serves(codes, src)
    ensures var f, head := Rewritten(src, codes), HeaderOf(src, codes);
            14 <= |head| <= |f| && f[..|head|] == head && head[|head| - 14..] == SCAN_HEADER
    ensures FirstDht(src.buf, 2) == Copied(e) && 2 <= e <= |src.buf| && e <= |Rewritten(src, codes)|
    ensures Rewritten(src, codes)[..e] == src.buf[..e]
  {
    hide SecondScan, Accepted, UsableCodes, Fits, Writable, AllCovered, File, SmallVals, DhtBytes, Listable, FirstDht,
         SCAN_HEADER;
    ServesParts(src, codes);
    AcceptedDht(src);
    assert |SCAN_HEADER| == 14 by { HeaderLength(); }
    var f, head := Rewritten(src, codes), HeaderOf(src, codes);
    e := FirstDht(src.buf, 2).end;
    FilePrefix(codes, Pk(head, [], []), SecondScan(src).toks);
    assert f[..e] == f[..|head|][..e];
  }

  // ----- both passes -----

  lemma {:induction false} SeenFormed(files: seq<Src>)
    requires forall i :: 0 <= i < |files| ==> Accepted(files[i])
    ensures AllFormed(Seen(files))
  {
    hide Accepted, Scan, EnvOf, Formed, FirstCount, Header, Tabled;
    if files != [] {
      var src := files[|files| - 1];
      SeenFormed(files[..|files| - 1]);
      FirstFormed(src);
    }
  }

  lemma {:induction false} FirstFormed(src: Src)
    requires Accepted(src)
    ensures AllFormed(FirstScan(src).toks)
  {
    hide Scan, Header, Tabled, FirstCount;
    var hd := HdOf(src);
    var n := FirstCount(hd.width, hd.height, PLAIN);
    ScanFormed(src, EnvOf(hd, LayoutIn(hd).mcu), n, Resync(hd.scan, hd.interval, 0));
  }

  lemma {:induction false} SeenSplit(files: seq<Src>, i: nat) returns (before: seq<Tok>, after: seq<Tok>)
    requires forall i :: 0 <= i < |files| ==> Accepted(files[i])
    requires i < |files|
    ensures Seen(files) == before + FirstScan(files[i]).toks + after
  {
    hide Accepted, FirstScan;
    var last := |files| - 1;
    if i == last {
      before, after := Seen(files[..last]), [];
    } else {
      before, after := SeenSplit(files[..last], i);
      after := after + FirstScan(files[last]).toks;
    }
  }

  /** The second pass finds a new code for every symbol of every file. */
  lemma {:induction false} AllFound(files: seq<Src>, i: nat, codes: seq<Huff>)
    requires forall k :: 0 <= k < |files| ==> Accepted(files[k])
    requires i < |files| && Book(codes, Seen(files))
    ensures SecondScan(files[i]).toks <= FirstScan(files[i]).toks
    ensures AllCovered(codes, SecondScan(files[i]).toks)
  {
    hide Book, Seen, Scan, Header, Tabled, FirstCount, SecondCount, SmallSizes;
    var src := files[i];
    var hd := HdOf(src);
    var before, after := SeenSplit(files, i);
    TwoPassCoverage(src, EnvOf(hd, LayoutIn(hd).mcu), hd.width, hd.height, PLAIN, Resync(hd.scan, hd.interval, 0),
                    codes, before, after);
  }

  // ----- the main result -----

  /** The frame that the header to be written defines. */
  function NewFrame(src: Src, codes: seq<Huff>): (f: Option<Hd>)
    requires Accepted(src) && Writable(codes)
    ensures f.Some? ==> ValidHd(f.value)
  {
    Frame(HeaderOf(src, codes), 2, BLANK)
  }

  /** It is the one that the scan is decoded by. */
  predicate FrameSurvives(src: Src, codes: seq<Huff>)
    requires Accepted(src) && Writable(codes)
  {
    NewFrame(src, codes).Some? && SameFrame(NewFrame(src, codes).value, HdOf(src))
  }

  /** All fields of frame headers are copied. */
  predicate FieldsCopied(src: Src)
    requires Accepted(src)
  {
    AcceptedDht(src);
    FieldsWithin(src.buf, 2, FirstDht(src.buf, 2).end)
  }

  /** The input defines the frame before its first DHT. */
  predicate KeepsFrame(src: Src) {
    Accepted(src) && FieldsCopied(src) && SameFrame(OldFrame(src), HdOf(src))
  }

  function OldFrame(src: Src): Hd
    requires Accepted(src)
  {
    AcceptedDht(src);
    Frame(src.buf, 2, BLANK).value
  }

  lemma {:induction false} CopiedNewFrame(src: Src, codes: seq<Huff>)
    requires Accepted(src) && Writable(codes) && FieldsCopied(src)
    ensures NewFrame(src, codes) == Some(OldFrame(src))
  {
    hide Frame, FirstDht, FieldsWithin, NewHeader, Writable, Accepted;
    AcceptedDht(src);
    CopiedFrame(src.buf, FirstDht(src.buf, 2).end, codes);
  }

  lemma {:induction false} CopiedSurvives(src: Src, codes: seq<Huff>)
    requires Accepted(src) && Writable(codes) && FieldsCopied(src)
    ensures FrameSurvives(src, codes) <==> KeepsFrame(src)
  {
    hide NewFrame, OldFrame, FieldsCopied, Writable, Accepted, HdOf;
    CopiedNewFrame(src, codes);
  }

  /** The new tables serve all components. */
  lemma {:induction false} OutputTabled(f: Hd, codes: seq<Huff>, scan: nat)
    requires ValidHd(f) && Fits(codes) && SmallVals(codes[0]) && SmallVals(codes[1])
    ensures UsableCodes(codes)
    ensures var hd := f.(tables := Defined(f.tables, codes), dcOf := BINDING, acOf := BINDING, scan := scan);
            Tabled(hd) && EnvOf(hd, PLAIN.mcu) == NewEnv(codes, PLAIN.mcu, f.interval)
  {
    hide Good, Listable, SmallVals, Usable;
    FitsUsable(codes);
  }

  /** The header of the output: the new frame, the new tables, the scan behind it; or nothing to decode. */
  lemma {:induction false} OutputHeader(src: Src, codes: seq<Huff>, out: seq<byte>)
    requires Accepted(src) && Fits(codes) && UsableCodes(codes) && SmallVals(codes[0]) && SmallVals(codes[1])
    requires HeaderOf(src, codes) <= out
    ensures var f, r := NewFrame(src, codes), Header(out, 2, BLANK);
            && (f.None? ==> !r.Parsed? || !Tabled(r.hd))
            && (f.Some? ==> && r.Parsed? && Tabled(r.hd) && SameFrame(r.hd, f.value)
                            && EnvOf(r.hd, PLAIN.mcu) == NewEnv(codes, PLAIN.mcu, f.value.interval)
                            && r.hd.scan == |HeaderOf(src, codes)|)
  {
    hide Good, Header, Frame, FirstDht, NewHeader, Writable, SmallVals, Tabled, EnvOf, NewEnv, Defined, Accepted;
    AcceptedDht(src);
    RewrittenHeader(src.buf, FirstDht(src.buf, 2).end, codes, out);
    var f, r := NewFrame(src, codes), Header(out, 2, BLANK);
    if f.Some? { OutputTabled(f.value, codes, |HeaderOf(src, codes)|); }
    if r.Parsed? && Tabled(r.hd) { BlankUntabled(r.hd); }
  }

  /** Where the scan of a file starts, as its headers say. */
  function ScanStart(buf: seq<byte>): Option<nat> {
    match Header(buf, 2, BLANK) case Parsed(hd) => if Tabled(hd) then Some(hd.scan) else None case _ => None
  }

  /** There the output's scan header ends. */
  lemma {:induction false} ScanAnnounced(src: Src, codes: seq<Huff>, slack: seq<byte>)
    requires Serves(codes, src) && |slack| > 0
    ensures var buf := Output(src, codes, slack).buf;
            ScanStart(buf).Some? ==> FullScanHeader(buf, ScanStart(buf).value)
  {
    hide Serves, Header, Tabled, HeaderOf, Rewritten, Fits, UsableCodes, SmallVals, EnvOf, NewEnv, NewFrame, Accepted;
    ServesParts(src, codes);
    HeaderFirst(src, codes, slack);
    RewrittenBytes(src, codes);
    OutputHeader(src, codes, Output(src, codes, slack).buf);
  }

  /** The output has the input's frame exactly when the header to be written defines it. When the fields of
      all frame headers are copied, that is exactly when the input defines it before its first DHT. */
  lemma {:induction false} FrameKeptExactly(src: Src, codes: seq<Huff>, out: seq<byte>)
    requires Accepted(src) && Fits(codes) && UsableCodes(codes) && SmallVals(codes[0]) && SmallVals(codes[1])
    requires HeaderOf(src, codes) <= out
    ensures var r := Header(out, 2, BLANK);
            (r.Parsed? && Tabled(r.hd) && SameFrame(r.hd, HdOf(src))) <==> FrameSurvives(src, codes)
    ensures FieldsCopied(src) ==> (FrameSurvives(src, codes) <==> KeepsFrame(src))
  {
    hide Good, Header, NewFrame, HeaderOf, Writable, Tabled, Accepted, HdOf, SmallVals, FieldsCopied, EnvOf,
         NewEnv, KeepsFrame;
    OutputHeader(src, codes, out);
    if FieldsCopied(src) { CopiedSurvives(src, codes); }
  }

  /** The first k MCUs are there, and when the end of the image follows them, there are no more. */
  predicate LastsFor(src: Src, k: nat)
    requires Accepted(src)
  {
    var r := ScanOf(src, HdOf(src), k);
    k <= McuCount(src) && r.ok && r.clean && (r.eoi ==> r.toks == SecondScan(src).toks)
  }

  /** The output's scan, read with the new tables, shows the blocks of the input. */
  lemma {:induction false} OutputScan(src: Src, codes: seq<Huff>, slack: seq<byte>, k: nat)
    requires Serves(codes, src) && |slack| > 0 && LastsFor(src, k)
    ensures var hd, q := HdOf(src), Scan(Output(src, codes, slack), NewEnv(codes, PLAIN.mcu, HdOf(src).interval), k,
                                         Resync(|HeaderOf(src, codes)|, HdOf(src).interval, 0));
            q.ok && q.clean && q.blocks == ScanOf(src, hd, k).blocks
  {
    hide Scan, Header, HeaderOf, File, Tabled, NewEnv, EnvOf, SecondCount, AllCovered, UsableCodes, ValidEnv,
         Resync, Writable, LayoutIn;
    var hd := HdOf(src);
    TranscodedScan(src, EnvOf(hd, PLAIN.mcu), k, SecondCount(hd.width, hd.height, PLAIN), hd.scan, codes,
                   HeaderOf(src, codes), slack);
  }

  lemma {:induction false} HeaderFirst(src: Src, codes: seq<Huff>, slack: seq<byte>)
    requires Serves(codes, src) && |slack| > 0
    ensures HeaderOf(src, codes) <= Output(src, codes, slack).buf
  {
    hide SecondScan, HeaderOf, Accepted, UsableCodes, Writable, AllCovered, File, SmallVals;
    FilePrefix(codes, Pk(HeaderOf(src, codes), [], []), SecondScan(src).toks);
  }

  lemma {:induction false} DecodedAs(src: Src, k: nat)
    requires Accepted(src)
    ensures var hd, r := HdOf(src), ScanOf(src, HdOf(src), k);
            DecodeMcus(src, k) == if r.ok then Some(Picture(hd.width, hd.height, hd.hf, hd.vf, r.blocks)) else None
    ensures McuCount(src) == SecondCount(HdOf(src).width, HdOf(src).height, PLAIN)
    ensures Complete(src) ==> LastsFor(src, McuCount(src))
  {
    hide Scan, Header, Tabled, EnvOf, SecondCount, Resync;
  }

  /** Rewriting keeps the picture: one file, any fitting tables that list its symbols. The first MCUs show
      the same, as far as the data of the original lasts. */
  lemma {:induction false} RewrittenMcus(src: Src, codes: seq<Huff>, slack: seq<byte>, k: nat)
    requires Serves(codes, src) && FrameSurvives(src, codes) && |slack| > 0 && LastsFor(src, k)
    ensures DecodeMcus(Output(src, codes, slack), k) == DecodeMcus(src, k) && DecodeMcus(src, k).Some?
    ensures var out := Output(src, codes, slack);
            Accepted(out) && MarkersFound(out, k) && McuCount(out) == McuCount(src)
  {
    hide SecondScan, Header, NewFrame, HeaderOf, Output, Tabled, NewEnv, EnvOf, SecondCount, AllCovered,
         Accepted, UsableCodes, SmallVals, DecodeMcus, McuCount, Resync, Scan, HdOf, LayoutOf, Writable, Good;
    DecodedAs(src, k);
    OutputScan(src, codes, slack, k);
    HeaderFirst(src, codes, slack);
    var out := Output(src, codes, slack);
    OutputHeader(src, codes, out.buf);
    AcceptedOutput(out);
    DecodedAs(out, k);
    OutputScanIs(out, codes, HdOf(src), k);
  }

  // ----- files in which no restart marker is passed -----

  lemma {:induction false} SecondRun(src: Src)
    requires Accepted(src) && SecondScan(src).ok && SecondScan(src).clean && NoRst(SecondScan(src).toks)
    ensures var hd := HdOf(src);
            var r := Scan(src, EnvOf(hd, PLAIN.mcu).(interval := 0), McuCount(src), Resync(hd.scan, 0, 0));
            && r.ok && r.clean && !r.eoi && r.toks == SecondScan(src).toks && r.blocks == SecondScan(src).blocks
  {
    hide Scan, Header, Tabled, EnvOf, SecondCount, ValidEnv;
    var hd := HdOf(src);
    var st := Resync(hd.scan, hd.interval, 0);
    DecodedAs(src, 0);
    NoRstRun(src, EnvOf(hd, PLAIN.mcu), McuCount(src), st);
    OnwardStart(src, hd.scan);
    RunOnward(src, EnvOf(hd, PLAIN.mcu), McuCount(src), st, hd.scan);
  }

  /** Such a file has no restart interval that ends before its last MCU. */
  lemma {:induction false} ShortScan(src: Src, k: nat)
    requires Accepted(src) && SecondScan(src).ok && SecondScan(src).clean && NoRst(SecondScan(src).toks)
    requires k <= McuCount(src)
    ensures HdOf(src).interval == 0 || McuCount(src) <= HdOf(src).interval
    ensures var hd := HdOf(src);
            var r := Run(src, EnvOf(hd, PLAIN.mcu), k, Resync(hd.scan, hd.interval, 0));
            r.ok && ScanOf(src, hd, k).ok && ScanOf(src, hd, k).blocks == r.blocks
  {
    hide Scan, Run, Header, Tabled, EnvOf, SecondCount, ValidEnv;
    var hd, n := HdOf(src), McuCount(src);
    var env, st := EnvOf(hd, PLAIN.mcu), Resync(hd.scan, hd.interval, 0);
    DecodedAs(src, 0);
    if hd.interval > 0 { QuietLong(src, env, n, st); }
    NoRstRun(src, env, n, st);
    if k < n {
      RunPart(src, env, k, n, st);
      FreeScan(src, env, k, st);
    }
  }

  /** The first k MCUs of the output, read without restarts: they show the blocks, and the end marker is
      still ahead. */
  lemma {:induction false} OutputRun(src: Src, codes: seq<Huff>, slack: seq<byte>, k: nat)
    requires Serves(codes, src) && |slack| > 0 && k <= McuCount(src)
    requires SecondScan(src).ok && SecondScan(src).clean && NoRst(SecondScan(src).toks)
    ensures var out, h := Output(src, codes, slack), |HeaderOf(src, codes)|;
            var q := Scan(out, NewEnv(codes, PLAIN.mcu, 0), k, Resync(h, 0, 0));
            && q.ok && q.clean && |View(out, q.st.rd)| >= 16 && Forward(out, h, q.st.rd)
            && q.blocks == ScanOf(src, HdOf(src), k).blocks
  {
    hide Scan, Header, HeaderOf, File, Tabled, EnvOf, McuCount, AllCovered, Usable, Writable, LayoutIn, SecondScan,
         ScanOf, View, Forward, Accepted, Fits, SmallVals, HdOf;
    ServesParts(src, codes);
    var hd, n, out := HdOf(src), McuCount(src), Output(src, codes, slack);
    var env, st := EnvOf(hd, PLAIN.mcu).(interval := 0), Resync(hd.scan, 0, 0);
    AcceptedSrc(src);
    SecondRun(src);
    ShortScan(src, k);
    RunPart(src, env, k, n, st);
    OnwardStart(src, hd.scan);
    RunOnward(src, env, k, st, hd.scan);
    TranscodedScan(src, env, k, n, hd.scan, codes, HeaderOf(src, codes), slack);
    OnwardStart(out, |HeaderOf(src, codes)|);
    RunOnward(out, NewEnv(codes, PLAIN.mcu, 0), k, Resync(|HeaderOf(src, codes)|, 0, 0), |HeaderOf(src, codes)|);
  }

  lemma {:induction false} ServesParts(src: Src, codes: seq<Huff>)
    requires Serves(codes, src)
    ensures Accepted(src) && ValidSrc(src) && Writable(codes) && Fits(codes) && UsableCodes(codes)
    ensures SmallVals(codes[0]) && SmallVals(codes[1])
  {
    hide SecondScan, AllCovered, Header, UsableCodes, SmallVals, Writable;
  }

  lemma {:induction false} DecodedSize(src: Src)
    requires ValidSrc(src)
    ensures var r, d := Header(src.buf, 2, BLANK), DecodeFile(src);
            d.Some? ==>
              && r.Parsed? && Tabled(r.hd) && d.value.width == r.hd.width && d.value.height == r.hd.height
              && d.value.hf == r.hd.hf && d.value.vf == r.hd.vf
  {
    hide Header, Tabled, ScanOf, SecondCount, LayoutIn;
  }

  /** What the decoder reads behind the first i MCUs of the output when they end a restart interval, but no
      marker stands there: it gives the unread whole bytes back, drops the bits in front of them, and starts
      again. */
  function Misread(src: Src, codes: seq<Huff>, slack: seq<byte>, i: nat): ScanOut
    requires Serves(codes, src) && |slack| > 0 && i <= McuCount(src)
  {
    hide Scan, Run, Output, Serves, Accepted, UsableCodes, HeaderOf, Fits, Writable, SecondScan, Rewind, McuCount;
    ServesParts(src, codes);
    var out, env := Output(src, codes, slack), NewEnv(codes, PLAIN.mcu, i);
    var run := Run(out, env, i, Resync(|HeaderOf(src, codes)|, i, 0));
    Scan(out, env, McuCount(src) - i, Resync(Rewind(out, run.st.rd), i, 0))
  }

  /** The output's scan when its header sets restart interval i: it shows the blocks when no interval ends
      before the last MCU. Otherwise no marker is found at the first end of an interval, and behind it
      the decoder reads something else. */
  lemma {:induction false} OutputOther(src: Src, codes: seq<Huff>, slack: seq<byte>, i: nat)
    requires Serves(codes, src) && |slack| > 0
    requires SecondScan(src).ok && SecondScan(src).clean && NoRst(SecondScan(src).toks)
    ensures var n, out, h := McuCount(src), Output(src, codes, slack), |HeaderOf(src, codes)|;
            var q := Scan(out, NewEnv(codes, PLAIN.mcu, i), n, Resync(h, i, 0));
            && (i == 0 || n <= i ==> q.ok && q.clean && q.blocks == SecondScan(src).blocks)
            && (0 < i < n ==>
                  var more := Misread(src, codes, slack, i);
                  && !q.clean && q.ok == more.ok && q.blocks == ScanOf(src, HdOf(src), i).blocks + more.blocks
                  && var p := Scan(out, NewEnv(codes, PLAIN.mcu, i), i, Resync(h, i, 0));
                     p.ok && p.blocks == ScanOf(src, HdOf(src), i).blocks)
  {
    hide Scan, Header, HeaderOf, File, Tabled, EnvOf, McuCount, AllCovered, UsableCodes, ValidEnv, Writable, Output,
         LayoutIn, SecondScan, ScanOf, View, Forward, Accepted, Fits, SmallVals, HdOf, FindMarker, Rewind;
    ServesParts(src, codes);
    var n, out, h := McuCount(src), Output(src, codes, slack), |HeaderOf(src, codes)|;
    var env, st := NewEnv(codes, PLAIN.mcu, i), Resync(h, i, 0);
    OutputRun(src, codes, slack, n);
    SecondIs(src);
    if i > n {
      FreeScan(out, env, n, st);
    } else if i > 0 {
      OutputRun(src, codes, slack, i);
      OutputStuffed(src, codes, slack, Run(out, env, i, st).st.rd);
      MarkerMissing(out, env, i, n, st);
      MarkerMissing(out, env, i, i, st);
      ScanUnfold(out, env, 0, Resync(Rewind(out, Run(out, env, i, st).st.rd), i, 0));
    }
  }

  /** In the output of a file without restart markers, the search for one finds the end of the image. */
  lemma {:induction false} OutputStuffed(src: Src, codes: seq<Huff>, slack: seq<byte>, rd: Rd)
    requires Serves(codes, src) && |slack| > 0 && NoRst(SecondScan(src).toks)
    requires var out := Output(src, codes, slack);
             Forward(out, |HeaderOf(src, codes)|, rd) && |View(out, rd)| >= 16
    ensures var out := Output(src, codes, slack); FindMarker(out.buf, Rewind(out, rd), 0) == AtEoi
  {
    hide HeaderOf, File, AllCovered, UsableCodes, Writable, SecondScan, View, Forward, Accepted, Fits, SmallVals,
         FindMarker, Rewind;
    ServesParts(src, codes);
    var f, out, h := Rewritten(src, codes), Output(src, codes, slack), |HeaderOf(src, codes)|;
    FileEnd(codes, HeaderOf(src, codes), SecondScan(src).toks);
    forall i | h <= i < |f| - 2 && out.buf[i] == 0xff ensures i + 1 < |f| - 2 && out.buf[i + 1] == 0 {
      StuffingSafety(codes, HeaderOf(src, codes), SecondScan(src).toks, i);
    }
    RewindInside(out, h, rd);
    StuffedSearch(out.buf, Rewind(out, rd), h, |f| - 2, 0);
  }

  // ----- which pictures survive -----

  /** The frames agree but for the restart interval. */
  predicate SameSize(a: Hd, b: Hd) {
    a.width == b.width && a.height == b.height && a.hf == b.hf && a.vf == b.vf
  }

  /** The header to be written suits the scan behind it: it keeps the size, and the restart interval; or the
      file passes no restart marker, and the new interval does not end before its last MCU. */
  predicate HeaderSuits(src: Src, codes: seq<Huff>)
    requires Accepted(src) && Writable(codes)
  {
    var f := NewFrame(src, codes);
    && f.Some? && SameSize(f.value, HdOf(src))
    && (f.value.interval == HdOf(src).interval
        || (NoRst(SecondScan(src).toks) && (f.value.interval == 0 || McuCount(src) <= f.value.interval)))
  }

  lemma {:induction false} SurvivingFrame(src: Src, codes: seq<Huff>)
    requires Accepted(src) && Writable(codes) && FrameSurvives(src, codes)
    ensures HeaderSuits(src, codes)
  {
    hide NewFrame, HdOf, SecondScan, Accepted, Writable, NoRst, McuCount;
  }

  /** A complete file without a restart interval, or with one that no picture of its size reaches, passes no
      restart marker; and one that passes none has no interval that ends before its last MCU. */
  lemma {:induction false} IdleInterval(src: Src)
    requires Accepted(src) && SecondScan(src).ok
    ensures HdOf(src).interval == 0 || McuCount(src) < HdOf(src).interval ==> NoRst(SecondScan(src).toks)
    ensures SecondScan(src).clean && NoRst(SecondScan(src).toks) ==>
              HdOf(src).interval == 0 || McuCount(src) <= HdOf(src).interval
  {
    hide Scan, Header, Tabled, EnvOf, SecondCount, ValidEnv, NoRst;
    var hd := HdOf(src);
    var st := Resync(hd.scan, hd.interval, 0);
    DecodedAs(src, 0);
    if hd.interval == 0 || McuCount(src) < hd.interval {
      FreeScan(src, EnvOf(hd, PLAIN.mcu), McuCount(src), st);
      OnwardStart(src, hd.scan);
      RunOnward(src, EnvOf(hd, PLAIN.mcu), McuCount(src), st, hd.scan);
    } else if SecondScan(src).clean && NoRst(SecondScan(src).toks) {
      ShortScan(src, 0);
    }
  }

  lemma {:induction false} CompleteScan(src: Src)
    requires Accepted(src)
    ensures var hd, r := HdOf(src), SecondScan(src);
            DecodeFile(src) == if r.ok then Some(Picture(hd.width, hd.height, hd.hf, hd.vf, r.blocks)) else None
    ensures Complete(src) <==> SecondScan(src).ok && SecondScan(src).clean
  {
    hide Header, Tabled, EnvOf, SecondCount, DecodeMcus, ScanOf;
    DecodedAs(src, McuCount(src));
  }

  /** The data of the file: every restart interval lasts for its MCUs and is followed by the marker that is
      due, the last one by the end of the image. */
  ghost predicate DataWellFormed(src: Src)
    requires Accepted(src)
  {
    var hd := HdOf(src);
    WellFormed(src, EnvOf(hd, PLAIN.mcu), McuCount(src), hd.scan, 0)
  }

  /** A file with well-formed data is complete: no boundary loses its marker. */
  lemma {:induction false} WellFormedComplete(src: Src)
    requires Accepted(src) && DataWellFormed(src)
    ensures SecondScan(src).ok && SecondScan(src).clean && Complete(src)
  {
    hide Scan, Header, Tabled, EnvOf, SecondCount, WellFormed, DecodeFile, LayoutIn;
    var hd := HdOf(src);
    DecodedAs(src, 0);
    WellFormedScan(src, EnvOf(hd, PLAIN.mcu), McuCount(src), hd.scan, 0);
    CompleteScan(src);
  }

  /** What the output of a file without restart markers decodes to, when its size is kept. */
  lemma {:induction false} SizedOutput(src: Src, codes: seq<Huff>, slack: seq<byte>)
    requires Serves(codes, src) && |slack| > 0 && Complete(src) && NoRst(SecondScan(src).toks)
    requires NewFrame(src, codes).Some? && SameSize(NewFrame(src, codes).value, HdOf(src))
    ensures var i, n, out := NewFrame(src, codes).value.interval, McuCount(src), Output(src, codes, slack);
            && (Complete(out) <==> i == 0 || n <= i)
            && (i == 0 || n <= i ==> DecodeFile(out) == DecodeFile(src))
            && (0 < i < n ==>
                  var more := Misread(src, codes, slack, i);
                  && DecodeFile(src).Some? && DecodeMcus(out, i) == DecodeMcus(src, i)
                  && DecodeFile(out) == if !more.ok then None else
                       Some(DecodeFile(src).value.(blocks := ScanOf(src, HdOf(src), i).blocks + more.blocks)))
  {
    hide Scan, Header, HeaderOf, Tabled, EnvOf, NewEnv, AllCovered, UsableCodes, ValidEnv, Writable, Output, LayoutOf,
         SecondScan, ScanOf, Misread, Accepted, Fits, SmallVals, HdOf, DecodeFile, DecodeMcus, NewFrame, Resync, NoRst,
         SecondCount, McuCount, Complete;
    ServesParts(src, codes);
    CompleteScan(src);
    HeaderFirst(src, codes, slack);
    var out, f := Output(src, codes, slack), NewFrame(src, codes).value;
    OutputHeader(src, codes, out.buf);
    AcceptedOutput(out);
    CompleteScan(out);
    DecodedAs(src, 0);
    DecodedAs(out, 0);
    OutputOther(src, codes, slack, f.interval);
    OutputScanIs(out, codes, f, McuCount(src));
    SecondIs(out);
    if 0 < f.interval < McuCount(src) {
      DecodedAs(src, f.interval);
      DecodedAs(out, f.interval);
      ShortScan(src, f.interval);
      OutputScanIs(out, codes, f, f.interval);
    }
  }

  lemma {:induction false} SecondIs(src: Src)
    requires Accepted(src)
    ensures SecondScan(src) == ScanOf(src, HdOf(src), McuCount(src))
  {
    hide Scan, Header, Tabled, EnvOf, SecondCount, ScanOf;
    DecodedAs(src, 0);
  }

  /** A complete file, so rewritten, is a complete file that decodes to the same picture. */
  lemma {:induction false} RewrittenDecodes(src: Src, codes: seq<Huff>, slack: seq<byte>)
    requires Serves(codes, src) && HeaderSuits(src, codes) && |slack| > 0 && Complete(src)
    ensures var out := Output(src, codes, slack); Complete(out) && DecodeFile(out) == DecodeFile(src)
  {
    hide Serves, Accepted, Output, DecodeMcus, McuCount, LastsFor, Writable, NewFrame, HdOf, SecondScan, NoRst,
         MarkersFound;
    ServesParts(src, codes);
    DecodedAs(src, McuCount(src));
    if NewFrame(src, codes).value.interval == HdOf(src).interval {
      RewrittenMcus(src, codes, slack, McuCount(src));
    } else {
      SizedOutput(src, codes, slack);
    }
  }

  /** The output shows the picture of a complete file only if the header to be written keeps its size and
      sampling factors. When that header also keeps the restart interval, or when the file passes no restart
      marker, the output is complete and shows the picture exactly if the header suits the scan. */
  lemma {:induction false} CompleteExactly(src: Src, codes: seq<Huff>, slack: seq<byte>)
    requires Serves(codes, src) && |slack| > 0 && Complete(src)
    ensures DecodeFile(Output(src, codes, slack)) == DecodeFile(src) ==>
              NewFrame(src, codes).Some? && SameSize(NewFrame(src, codes).value, HdOf(src))
    ensures NoRst(SecondScan(src).toks)
            || (NewFrame(src, codes).Some? ==> NewFrame(src, codes).value.interval == HdOf(src).interval) ==>
              var out := Output(src, codes, slack);
              (Complete(out) && DecodeFile(out) == DecodeFile(src) <==> HeaderSuits(src, codes))
  {
    hide Serves, Accepted, Output, DecodeFile, Header, Tabled, NewFrame, HdOf, HeaderOf, Fits, Writable, UsableCodes,
         SmallVals, EnvOf, NewEnv, SecondScan, NoRst, McuCount, Complete;
    ServesParts(src, codes);
    HeaderFirst(src, codes, slack);
    var out := Output(src, codes, slack);
    OutputHeader(src, codes, out.buf);
    CompleteScan(src);
    DecodedSize(src);
    DecodedSize(out);
    if HeaderSuits(src, codes) {
      RewrittenDecodes(src, codes, slack);
    } else if DecodeFile(out) == DecodeFile(src) && NoRst(SecondScan(src).toks) {
      SizedOutput(src, codes, slack);
    }
  }

  /** What becomes of the picture when the file passes no restart marker, its size is kept, and the new
      interval ends before the last MCU: the first interval is shown as before, the output is not complete,
      and the picture is the same exactly if what is read from the wrong place decodes to the other blocks. */
  lemma {:induction false} MisreadExactly(src: Src, codes: seq<Huff>, slack: seq<byte>)
    requires Serves(codes, src) && |slack| > 0 && Complete(src) && NoRst(SecondScan(src).toks)
    requires NewFrame(src, codes).Some? && SameSize(NewFrame(src, codes).value, HdOf(src))
    requires 0 < NewFrame(src, codes).value.interval < McuCount(src)
    ensures var i, out := NewFrame(src, codes).value.interval, Output(src, codes, slack);
            var more := Misread(src, codes, slack, i);
            && !Complete(out) && DecodeMcus(out, i) == DecodeMcus(src, i)
            && (DecodeFile(out) == DecodeFile(src) <==>
                  more.ok && ScanOf(src, HdOf(src), i).blocks + more.blocks == SecondScan(src).blocks)
  {
    hide Accepted, Output, DecodeFile, DecodeMcus, NewFrame, HdOf, Fits, Writable, UsableCodes, SmallVals, SecondScan,
         ScanOf, Misread, NoRst, McuCount, Complete, AllCovered;
    CompleteScan(src);
    SizedOutput(src, codes, slack);
  }

  /** What the tables built from any set of files give each of them. */
  lemma {:induction false} TablesServe(files: seq<Src>, i: nat, codes: seq<Huff>)
    requires forall k :: 0 <= k < |files| ==> Accepted(files[k])
    requires i < |files| && Book(codes, Seen(files)) && Fits(codes)
    ensures Serves(codes, files[i])
  {
    hide Book, Seen, SecondScan, FirstScan, Accepted, Fits, Writable, AllCovered, AllFormed, UsableCodes, SmallVals;
    FitsUsable(codes);
    FitsWritable(codes);
    AllFound(files, i, codes);
    SeenFormed(files);
    BookSmall(codes, Seen(files), 0);
    BookSmall(codes, Seen(files), 1);
  }

  /** Lossless: take any files that the program accepts and the tables built from all of them. When a
      file is complete and the new header suits its scan, the rewritten file is complete, and decoding it
      with its own tables gives the picture that the original shows. */
  lemma {:induction false} Lossless(files: seq<Src>, i: nat, codes: seq<Huff>, slack: seq<byte>)
    requires forall k :: 0 <= k < |files| ==> Accepted(files[k])
    requires i < |files| && Book(codes, Seen(files)) && Fits(codes) && |slack| > 0
    requires HeaderSuits(files[i], codes) && Complete(files[i])
    ensures Serves(codes, files[i])
    ensures var out := Output(files[i], codes, slack); Complete(out) && DecodeFile(out) == DecodeFile(files[i])
  {
    hide Book, Seen, Serves, Accepted, HeaderSuits, Fits, Writable, Output, DecodeFile, Complete;
    TablesServe(files, i, codes);
    RewrittenDecodes(files[i], codes, slack);
  }

  /** A file whose data ends early shows as much as before: the first k MCUs, for every k that the original
      lasts for. */
  lemma {:induction false} LosslessPart(files: seq<Src>, i: nat, codes: seq<Huff>, slack: seq<byte>, k: nat)
    requires forall k :: 0 <= k < |files| ==> Accepted(files[k])
    requires i < |files| && Book(codes, Seen(files)) && Fits(codes) && |slack| > 0
    requires FrameSurvives(files[i], codes) && LastsFor(files[i], k)
    ensures Serves(codes, files[i])
    ensures DecodeMcus(Output(files[i], codes, slack), k) == DecodeMcus(files[i], k) && DecodeMcus(files[i], k).Some?
    ensures var out := Output(files[i], codes, slack); Accepted(out) && MarkersFound(out, k)
  {
    hide Book, Seen, Serves, Accepted, FrameSurvives, Fits, Writable, Output, DecodeMcus, LastsFor, MarkersFound;
    TablesServe(files, i, codes);
    RewrittenMcus(files[i], codes, slack, k);
  }

  lemma {:induction false} AcceptedOutput(src: Src)
    requires ValidSrc(src)
    requires var r := Header(src.buf, 2, BLANK); r.Parsed? && Tabled(r.hd) && LayoutIn(r.hd) == PLAIN
    ensures Accepted(src)
  {}

  lemma {:induction false} OutputScanIs(src: Src, codes: seq<Huff>, hd: Hd, k: nat)
    requires Accepted(src) && UsableCodes(codes) && ValidHd(hd) && SameFrame(HdOf(src), hd)
    requires EnvOf(HdOf(src), PLAIN.mcu) == NewEnv(codes, PLAIN.mcu, hd.interval)
    ensures ScanOf(src, HdOf(src), k) == Scan(src, NewEnv(codes, PLAIN.mcu, hd.interval), k,
                                             Resync(HdOf(src).scan, hd.interval, 0))
  {
    hide Scan, Accepted, Tabled, NewEnv, Resync, UsableCodes;
  }

  lemma {:induction false} FitsWritable(codes: seq<Huff>)
    requires Fits(codes)
    ensures Writable(codes) && |codes| == 4
  {}

  /** Without restarts, every 0xFF in the scan of a rewritten file is followed by a zero, up to the
      end-of-image marker. */
  lemma {:induction false} RewrittenStuffed(src: Src, codes: seq<Huff>, i: nat)
    requires Serves(codes, src) && HdOf(src).interval == 0
    requires var f := Rewritten(src, codes); |HeaderOf(src, codes)| <= i < |f| - 2 && f[i] == 0xff
    ensures var f := Rewritten(src, codes); f[i + 1] == 0 && i + 1 < |f| - 2 && f[|f| - 2..] == [0xff, 0xd9]
  {
    hide Scan, Header, HeaderOf, File, Tabled, EnvOf, SecondCount, AllCovered, UsableCodes, Writable, LayoutIn;
    var hd := HdOf(src);
    ScanNoRst(src, EnvOf(hd, PLAIN.mcu), SecondCount(hd.width, hd.height, PLAIN), Resync(hd.scan, 0, 0));
    StuffingSafety(codes, HeaderOf(src, codes), SecondScan(src).toks, i);
  }

  // ----- the program -----

  /** A file on which the program does not leave its arrays: its headers end within it, and a scan that is
      decoded finds its tables. */
  predicate Modelled(src: Src) {
    && ValidSrc(src) && |src.buf| >= 2
    && match Header(src.buf, 2, BLANK)
       case Parsed(hd) => LayoutIn(hd) == PLAIN ==> Tabled(hd)
       case Exits => true
       case Beyond => false
  }

  /** The headers lead to a scan, and the first component's sampling factors are 1 and 1, 1 and 0, or 0 and 1: their
      bitwise or is 1. */
  predicate Unsubsampled(src: Src) {
    match Header(src.buf, 2, BLANK)
    case Parsed(hd) => hd.hf[0] <= 1 && hd.vf[0] <= 1 && hd.hf[0] + hd.vf[0] > 0
    case _ => false
  }

  /** Those are the files that the program rewrites. */
  lemma {:induction false} AcceptedExactly(src: Src)
    requires Modelled(src)
    ensures Accepted(src) <==> Unsubsampled(src)
  {
    hide Header, Tabled, LayoutOf;
    match Header(src.buf, 2, BLANK)
    case Parsed(hd) => LayoutPlain(hd.hf[0], hd.vf[0]);
    case _ =>
  }

  lemma {:induction false} ShowsReady(d: Jdec, hd: Hd)
    requires Shows(d, hd) && Tabled(hd)
    ensures d.Ready() && d.Tables(LayoutIn(hd).mcu) == EnvOf(hd, LayoutIn(hd).mcu)
    ensures d.width == hd.width && d.height == hd.height && d.restartInterval == hd.interval
    ensures LayoutOf(d.hfactor[0], d.vfactor[0]) == LayoutIn(hd)
  {
    hide HuffmanTable.Valid, Usable, Good, LayoutOf, Jdec.Reading;
    forall c: nat | c < 3
      ensures hd.dcOf[c].Some? && hd.dcOf[c].value < 4 && hd.acOf[c].Some? && hd.acOf[c].value < 4
    {
      assert Table(DcChoice(hd, c)) && Table(AcChoice(hd, c));
    }
    assert d.Bound();
    forall c: nat | c < 3
      ensures d.DcT(c).Valid() && d.AcT(c).Valid() && d.DcT(c).h == DcIn(hd, c) && d.AcT(c).h == AcIn(hd, c)
    {
      assert Table(DcChoice(hd, c)) && Table(AcChoice(hd, c));
      var i, j := hd.dcOf[c].value, hd.acOf[c].value;
      assert TableIs(d, i, hd.tables.dc[i]) && TableIs(d, 4 + j, hd.tables.ac[j]);
    }
  }

  /** A new decoder with the file's headers parsed. False when the program exits. */
  method Load(src: Src) returns (d: Jdec, ok: bool)
    requires ValidSrc(src) && Header(src.buf, 2, BLANK) != Beyond
    ensures fresh(d) && fresh(d.tableRepr) && d.Source() == src && ok == Header(src.buf, 2, BLANK).Parsed?
    ensures ok ==> var hd := Header(src.buf, 2, BLANK).hd;
                   Shows(d, hd) && d.stream == hd.scan && d.lastRst == 0 && d.blocks == []
  {
    hide Header, Shows;
    d := new Jdec(src.buf, src.end);
    BlankShown(d);
    ok := ParseHeader(d, 2);
  }

  /** convert_one_image: decodes a file and counts its symbols. False when the program exits. */
  method CountFile(src: Src, hv: HuffVal) returns (ok: bool)
    requires Modelled(src) && hv.Valid()
    modifies hv, hv.n
    ensures hv.Valid() && ok == Accepted(src) == Unsubsampled(src)
    ensures ok ==> hv.seen == old(hv.seen) + FirstScan(src).toks
  {
    hide HuffVal.Valid, Tabled, Header, FirstDht, Shows, Scan, LayoutOf, LayoutIn, EnvOf, FirstCount, Resync,
         Jdec.Ready, Jdec.Tables, Jdec.Source, Unsubsampled, Accepted;
    AcceptedExactly(src);
    AcceptedIs(src);
    var d;
    d, ok := Load(src);
    if !ok { return false; }
    ghost var hd := Header(src.buf, 2, BLANK).hd;
    ShowsFactors(d, hd);
    if LayoutOf(d.hfactor[0], d.vfactor[0]) != PLAIN { return false; }
    ShowsReady(d, hd);
    var complete := Decode(d, hv);
  }

  lemma {:induction false} AcceptedIs(src: Src)
    requires Modelled(src)
    ensures var r := Header(src.buf, 2, BLANK);
            Accepted(src) == (r.Parsed? && LayoutIn(r.hd) == PLAIN) && (Accepted(src) ==> Tabled(r.hd))
  {
    hide Header, Tabled, LayoutIn;
  }

  lemma {:induction false} BlankShown(d: Jdec)
    requires d.Reading() && d.Wired() && d.Settled() && d !in d.tableRepr && d.Reader() == Rd(0, [])
    requires d.restartInterval == 0 && d.lastRst == 0 && d.width == 0 && d.height == 0
    requires d.hfactor == [0, 0, 0] && d.vfactor == [0, 0, 0] && d.dcOf == d.acOf == [None, None, None]
    ensures Shows(d, BLANK) && d.nbits == 0
  {
    hide HuffmanTable.Valid;
    assert |d.Reader().bits| == d.nbits;
  }

  lemma {:induction false} ShowsFactors(d: Jdec, hd: Hd)
    requires Shows(d, hd)
    ensures |d.hfactor| == 3 && |d.vfactor| == 3 && d !in d.tableRepr
    ensures LayoutOf(d.hfactor[0], d.vfactor[0]) == LayoutIn(hd)
  {
    hide TablesAre, LayoutOf;
  }

  /** Every count survives the sort's float, and the tables fit the decoder and one segment. */
  predicate SymbolsFit(seen: seq<Tok>) {
    && (forall c: nat, v: nat :: c < 4 && v < 256 ==> Count(seen, c, v) <= 0x100_0000)
    && (forall c: nat :: c < 4 ==> |Used(seen, c, 256)| <= 148)
    && |Used(seen, 0, 256)| + |Used(seen, 1, 256)| + |Used(seen, 2, 256)| + |Used(seen, 3, 256)| <= 185
  }

  /** The table of one class: collect, sort, assign. */
  method BuildTable(hv: HuffVal, c: nat) returns (t: OneHuff)
    requires hv.Valid() && c < 4 && SymbolsFit(hv.seen)
    ensures fresh(t) && fresh(t.val) && fresh(t.code)
    ensures t.Valid() && Assigned(t.h, hv.seen, c) && |t.h.vals| == |Used(hv.seen, c, 256)|
  {
    hide HuffVal.Valid, Used, Assigned, Exact, NewSizes, Codeword;
    t := new OneHuff();
    t.Collect(hv, c);
    forall k | 0 <= k < t.count ensures t.num[k] >= 0 && Exact(t.num[k]) {
      SmallCountsExact(t.num[k]);
    }
    t.BuildTree(hv.seen, c);
  }

  lemma {:induction false} BookFits(codes: seq<Huff>, seen: seq<Tok>)
    requires Book(codes, seen) && SymbolsFit(seen)
    requires forall c: nat :: c < 4 ==> |codes[c].vals| == |Used(seen, c, 256)|
    ensures Fits(codes)
  {
    hide Good, Used, Usable, NewSizes;
    forall c: nat | c < 4
      ensures Good(codes[c]) && |codes[c].sizes| == |codes[c].vals| < 256 && Usable(codes[c])
    {
      assert Assigned(codes[c], seen, c);
      AssignedGood(codes[c], seen, c);
      AssignedUsable(codes[c], seen, c);
    }
    assert forall c :: 0 <= c < 4 ==> Listable(codes[c]) by {
      forall c: nat | c < 4 ensures Listable(codes[c]) { UsableListable(codes[c]); }
    }
  }

  lemma {:induction false} UsableListable(h: Huff)
    requires Usable(h) && |h.vals| < 256
    ensures Listable(h)
  {}

  /** The four new tables. */
  method BuildBook(hv: HuffVal) returns (book: CodeBook, ghost codes: seq<Huff>)
    requires hv.Valid() && SymbolsFit(hv.seen)
    ensures fresh(book) && fresh(book.repr) && book.Holds(codes) && Book(codes, hv.seen) && Fits(codes)
  {
    hide HuffVal.Valid, Used, SymbolsFit, Assigned, OneHuff.Valid, Fits, Book, UsableCodes, CodeBook.Holds;
    var t0 := BuildTable(hv, 0);
    var t1 := BuildTable(hv, 1);
    var t2 := BuildTable(hv, 2);
    var t3 := BuildTable(hv, 3);
    codes := [t0.h, t1.h, t2.h, t3.h];
    BookOf(codes, hv.seen);
    BookFits(codes, hv.seen);
    BookUsable(codes, hv.seen);
    book := new CodeBook([t0, t1, t2, t3]);
    HoldsFour(book, codes);
  }

  lemma {:induction false} BookOf(codes: seq<Huff>, seen: seq<Tok>)
    requires |codes| == 4 && Assigned(codes[0], seen, 0) && Assigned(codes[1], seen, 1)
    requires Assigned(codes[2], seen, 2) && Assigned(codes[3], seen, 3)
    ensures Book(codes, seen)
  {
    hide Assigned;
  }

  lemma {:induction false} HoldsFour(book: CodeBook, codes: seq<Huff>)
    requires book.Wired() && UsableCodes(codes)
    requires book.t[0].Valid() && book.t[1].Valid() && book.t[2].Valid() && book.t[3].Valid()
    requires codes == [book.t[0].h, book.t[1].h, book.t[2].h, book.t[3].h]
    ensures book.Holds(codes)
  {
    hide OneHuff.Valid, UsableCodes;
  }

  /** WriteNewData_convert_one_image: writes the rewritten file. A file that the first pass accepted does not
      make the program exit here. */
  method RewriteFile(src: Src, w: Packer, book: CodeBook, ghost codes: seq<Huff>)
    requires Modelled(src) && Serves(codes, src) && w.Idle() && book.Holds(codes) && w !in book.repr
    modifies w
    ensures w.Idle() && book.Holds(codes) && w.out == Rewritten(src, codes)
  {
    hide Tabled, Header, FirstDht, Shows, Scan, LayoutOf, LayoutIn, EnvOf, SecondCount, Resync, AllCovered, UsableCodes,
         Jdec.Ready, Jdec.Tables, Jdec.Source, Packer.Idle, CodeBook.Holds, Fits, Writable, DhtBytes, File, Frame;
    FitsUsable(codes);
    FitsWritable(codes);
    AcceptedDht(src);
    var d, ok := Load(src);
    ghost var hd := HdOf(src);
    ShowsReady(d, hd);
    ShowsFactors(d, hd);
    w.Open();
    w.Raw(src.buf[0]);
    w.Raw(src.buf[1]);
    ok := CopyHeader(w, src.buf, 2);
    ghost var e := FirstDht(src.buf, 2).end;
    assert w.out == src.buf[..e];
    WriteHuffmanTable(w, book, codes);
    assert w.out + SCAN_HEADER == HeaderOf(src, codes);
    var complete := WriteBody(d, w, book, codes);
  }

  /** When the original's frame is kept and the original complete, the rewritten file is complete and decodes
      to its picture, whatever bytes lie behind it in memory. */
  ghost predicate Faithful(src: Src, out: seq<byte>) {
    KeepsFrame(src) && Complete(src) ==>
      forall slack: seq<byte> :: |slack| > 0 ==>
        Complete(Src(out + slack, |out|)) && DecodeFile(Src(out + slack, |out|)) == DecodeFile(src)
  }

  /** main: both passes over all files. Not done when the program exits: on a file that does not follow
      the segment structure, or whose components are subsampled. Otherwise every file is rewritten with
      the tables built from all of them, and every complete one that defines its frame before its first DHT
      still shows its picture. */
  method Transcode(files: seq<Src>) returns (done: bool, outs: seq<seq<byte>>, ghost codes: seq<Huff>)
    requires forall i :: 0 <= i < |files| ==> Modelled(files[i])
    requires (forall i :: 0 <= i < |files| ==> Accepted(files[i])) ==> SymbolsFit(Seen(files))
    ensures done <==> forall i :: 0 <= i < |files| ==> Accepted(files[i])
    ensures done <==> forall i :: 0 <= i < |files| ==> Unsubsampled(files[i])
    ensures done ==> |outs| == |files| && Book(codes, Seen(files)) && Fits(codes)
    ensures done ==> forall i :: 0 <= i < |files| ==>
              Serves(codes, files[i]) && outs[i] == Rewritten(files[i], codes) && Faithful(files[i], outs[i])
  {
    hide Accepted, Unsubsampled, Modelled, SymbolsFit, Book, Fits, FirstScan, Serves, Rewritten, Faithful,
         HuffVal.Valid, Packer.Idle, CodeBook.Holds;
    hide Seen;
    AllAccepted(files);
    SeenNone(files);
    outs, codes := [], [];
    var hv := new HuffVal();
    for workon := 0 to |files|
      invariant hv.Valid() && forall i :: 0 <= i < workon ==> Accepted(files[i])
      invariant hv.seen == Seen(files[..workon])
    {
      SeenNext(files, workon);
      var ok := CountFile(files[workon], hv);
      if !ok { return false, [], []; }
    }
    assert files[..|files|] == files;
    var book;
    book, codes := BuildBook(hv);
    var w := new Packer();
    w.Clear();
    for workon := 0 to |files|
      invariant w.Idle() && book.Holds(codes) && w !in book.repr && |outs| == workon
      invariant forall i :: 0 <= i < workon ==>
                  Serves(codes, files[i]) && outs[i] == Rewritten(files[i], codes) && Faithful(files[i], outs[i])
    {
      TablesServe(files, workon, codes);
      RewriteFile(files[workon], w, book, codes);
      RewrittenFaithful(files, workon, codes, w.out);
      outs := outs + [w.out];
    }
    done := true;
  }

  lemma {:induction false} SeenNone(files: seq<Src>)
    ensures Seen(files[..0]) == []
  {}

  lemma {:induction false} SeenNext(files: seq<Src>, n: nat)
    requires n < |files| && forall i :: 0 <= i < n ==> Accepted(files[i])
    ensures Accepted(files[n]) ==> Seen(files[..n + 1]) == Seen(files[..n]) + FirstScan(files[n]).toks
  {
    hide Accepted, FirstScan;
    assert files[..n + 1][..n] == files[..n];
  }

  lemma {:induction false} AllAccepted(files: seq<Src>)
    requires forall i :: 0 <= i < |files| ==> Modelled(files[i])
    ensures (forall i :: 0 <= i < |files| ==> Accepted(files[i]))
            <==> (forall i :: 0 <= i < |files| ==> Unsubsampled(files[i]))
  {
    hide Accepted, Unsubsampled, Modelled;
    forall i | 0 <= i < |files| ensures Accepted(files[i]) <==> Unsubsampled(files[i]) { AcceptedExactly(files[i]); }
  }

  lemma {:induction false} RewrittenFaithful(files: seq<Src>, i: nat, codes: seq<Huff>, out: seq<byte>)
    requires forall k :: 0 <= k < |files| ==> Accepted(files[k])
    requires i < |files| && Book(codes, Seen(files)) && Fits(codes)
    requires Serves(codes, files[i]) && out == Rewritten(files[i], codes)
    ensures Faithful(files[i], out)
  {
    hide Accepted, Book, Fits, Serves, Rewritten, FieldsCopied, OldFrame, HdOf, FrameSurvives,
         HeaderSuits, DecodeFile, Complete, Seen, Writable;
    AcceptedSrc(files[i]);
    if KeepsFrame(files[i]) && Complete(files[i]) {
      ServesParts(files[i], codes);
      CopiedSurvives(files[i], codes);
      SurvivingFrame(files[i], codes);
      forall slack: seq<byte> | |slack| > 0
        ensures Complete(Src(out + slack, |out|))
        ensures DecodeFile(Src(out + slack, |out|)) == DecodeFile(files[i])
      {
        Lossless(files, i, codes, slack);
      }
    }
  }

  lemma {:induction false} AcceptedSrc(src: Src)
    requires Accepted(src)
    ensures ValidSrc(src)
  {}
}

/** The segments before the entropy-coded data: parsing them, and copying them to the output. */
module Headers {
  import opened Bits
  import opened Canonical
  import opened Scans
  import opened HuffmanTables
  import opened Decoders
  import opened BitWriter
  import opened SecondPass
  import opened Dht

  const DRI: byte := 0xdd
  const SOF: byte := 0xc0
  const DHT: byte := 0xc4
  const SOS: byte := 0xda

  /** What the segments define: size, sampling factors of the three components, restart interval, tables,
      which of them each component uses (None: a null pointer), and where the scan's data starts. */
  datatype Hd = Hd(width: nat, height: nat, hf: seq<nat>, vf: seq<nat>, interval: nat,
                   tables: Tables, dcOf: seq<Option<nat>>, acOf: seq<Option<nat>>, scan: nat)

  predicate ValidHd(hd: Hd) {
    && |hd.hf| == 3 && |hd.vf| == 3 && ValidTables(hd.tables)
    && |hd.dcOf| == 3 && |hd.acOf| == 3
    && (forall c :: 0 <= c < 3 ==>
          (hd.dcOf[c].Some? ==> hd.dcOf[c].value < 4) && (hd.acOf[c].Some? ==> hd.acOf[c].value < 4))
  }

  /** A zeroed decoder. */
  const BLANK: Hd := Hd(0, 0, [0, 0, 0], [0, 0, 0], 0,
                        Tables([None, None, None, None], [None, None, None, None]),
                        [None, None, None], [None, None, None], 0)

  /** The sampling factors of components i to n - 1. */
  function SofParts(buf: seq<byte>, p: nat, i: nat, n: nat, hd: Hd): (r: Hd)
    requires ValidHd(hd) && i <= n <= 3 && p + 3 * (n - i) <= |buf|
    ensures ValidHd(r)
    decreases n - i
  {
    if i == n then hd
    else SofParts(buf, p + 3, i + 1, n, hd.(hf := hd.hf[i := buf[p + 1] / 16], vf := hd.vf[i := buf[p + 1] % 16]))
  }

  /** A frame header; None when it lies outside the file or has more components than the decoder. */
  function ParseSof(buf: seq<byte>, p: nat, hd: Hd): (r: Option<Hd>)
    requires ValidHd(hd)
    ensures r.Some? ==> ValidHd(r.value)
  {
    if p + 8 > |buf| then None
    else
      var n := buf[p + 7];
      if n > 3 || p + 8 + 3 * n > |buf| then None
      else Some(SofParts(buf, p + 8, 0, n, hd).(height := Be16(buf, p + 3), width := Be16(buf, p + 5)))
  }

  /** The tables of components i to n - 1; None for a table that the decoder does not have. */
  function SosParts(buf: seq<byte>, p: nat, i: nat, n: nat, hd: Hd): (r: Option<Hd>)
    requires ValidHd(hd) && i <= n <= 3 && p + 2 * (n - i) <= |buf|
    ensures r.Some? ==> ValidHd(r.value)
    decreases n - i
  {
    if i == n then Some(hd)
    else
      var t := buf[p + 1];
      if t / 16 >= 4 || t % 16 >= 4 then None
      else SosParts(buf, p + 2, i + 1, n, hd.(dcOf := hd.dcOf[i := Some(t / 16)], acOf := hd.acOf[i := Some(t % 16)]))
  }

  /** A scan header; None when it lies outside the file, has more components than the decoder, or names a
      table that the decoder does not have. */
  function ParseSos(buf: seq<byte>, p: nat, hd: Hd): (r: Option<Hd>)
    requires ValidHd(hd)
    ensures r.Some? ==> ValidHd(r.value) && r.value.scan <= |buf|
  {
    if p + 3 > |buf| then None
    else
      var n := buf[p + 2];
      if n > 3 || p + 6 + 2 * n > |buf| then None
      else
        match SosParts(buf, p + 3, 0, n, hd)
        case None => None
        case Some(r) => Some(r.(scan := p + 6 + 2 * n))
  }

  function ParseDri(buf: seq<byte>, p: nat, hd: Hd): (r: Option<Hd>)
    requires ValidHd(hd)
    ensures r.Some? ==> ValidHd(r.value)
  {
    if p + 4 > |buf| then None else Some(hd.(interval := Be16(buf, p + 2)))
  }

  /** One segment; p is the position of its length field. Other markers are skipped. */
  function ParseSegment(buf: seq<byte>, marker: byte, p: nat, hd: Hd): (r: Option<Hd>)
    requires ValidHd(hd)
    ensures r.Some? ==> ValidHd(r.value) && (marker == SOS ==> r.value.scan <= |buf|)
  {
    if marker == DRI then ParseDri(buf, p, hd)
    else if marker == SOF then ParseSof(buf, p, hd)
    else if marker == DHT then
      match ParseDht(buf, p, hd.tables)
      case None => None
      case Some(r) => Some(hd.(tables := r.t))
    else if marker == SOS then ParseSos(buf, p, hd)
    else Some(hd)
  }

  /** Exits: no marker where a segment should start. Beyond: the decoder leaves its arrays. */
  datatype HeaderOut = Parsed(hd: Hd) | Exits | Beyond

  /** The segments from p on, up to the scan header. */
  function Header(buf: seq<byte>, p: nat, hd: Hd): (r: HeaderOut)
    requires ValidHd(hd)
    ensures r.Parsed? ==> ValidHd(r.hd) && r.hd.scan <= |buf|
    decreases |buf| - p
  {
    if p >= |buf| then Beyond
    else if buf[p] != 0xff then Exits
    else
      var q := SkipFf(buf, p + 1);
      if q + 3 > |buf| then Beyond
      else
        match ParseSegment(buf, buf[q], q + 1, hd)
        case None => Beyond
        case Some(hd1) =>
          if buf[q] == SOS then Parsed(hd1) else Header(buf, q + 1 + Be16(buf, q + 1), hd1)
  }

  // ----- copying the header -----

  datatype HeadOut = Copied(end: nat) | HeadExits | HeadBeyond

  /** Where the copied part of the header ends: behind the first DHT marker from p on. */
  function FirstDht(buf: seq<byte>, p: nat): (r: HeadOut)
    ensures r.Copied? ==> p + 2 <= r.end && r.end + 2 <= |buf|
    decreases |buf| - p
  {
    if p >= |buf| then HeadBeyond
    else if buf[p] != 0xff then HeadExits
    else
      var q := SkipFf(buf, p + 1);
      if q + 3 > |buf| then HeadBeyond
      else if buf[q] == DHT then Copied(q + 1)
      else if q + 1 + Be16(buf, q + 1) > |buf| then HeadBeyond
      else FirstDht(buf, q + 1 + Be16(buf, q + 1))
  }

  /** It ends with that marker. */
  lemma {:induction false} DhtMarker(buf: seq<byte>, p: nat)
    requires FirstDht(buf, p).Copied?
    ensures var e := FirstDht(buf, p).end; buf[e - 2] == 0xff && buf[e - 1] == DHT
    decreases |buf| - p
  {
    var q := SkipFf(buf, p + 1);
    FillBytes(buf, p + 1);
    if buf[q] != DHT { DhtMarker(buf, q + 1 + Be16(buf, q + 1)); }
  }

  /** What the segments before the first DHT define; None when a scan header comes first or the decoder
      leaves its arrays. */
  function Frame(buf: seq<byte>, p: nat, hd: Hd): (r: Option<Hd>)
    requires ValidHd(hd)
    ensures r.Some? ==> ValidHd(r.value)
    decreases |buf| - p
  {
    if p >= |buf| || buf[p] != 0xff then None
    else
      var q := SkipFf(buf, p + 1);
      if q + 3 > |buf| || buf[q] == SOS then None
      else if buf[q] == DHT then Some(hd)
      else
        match ParseSegment(buf, buf[q], q + 1, hd)
        case None => None
        case Some(hd1) => Frame(buf, q + 1 + Be16(buf, q + 1), hd1)
  }

  /** The fields of a frame header lie in the first k bytes. */
  predicate SofWithin(buf: seq<byte>, p: nat, k: nat) {
    p + 8 <= k && (p + 8 <= |buf| && buf[p + 7] <= 3 ==> p + 8 + 3 * buf[p + 7] <= k)
  }

  /** So do those of all frame headers before the first DHT, also of one that is declared too short. */
  predicate FieldsWithin(buf: seq<byte>, p: nat, k: nat)
    decreases |buf| - p
  {
    if p >= |buf| || buf[p] != 0xff then true
    else
      var q := SkipFf(buf, p + 1);
      q + 3 > |buf| || buf[q] == SOS || buf[q] == DHT ||
      ((buf[q] == SOF ==> SofWithin(buf, q + 1, k)) && FieldsWithin(buf, q + 1 + Be16(buf, q + 1), k))
  }

  // ----- the rewritten header -----

  /** The segments behind a DHT marker that ends at e. */
  function BehindDht(buf: seq<byte>, e: nat, hd: Hd): HeaderOut
    requires ValidHd(hd) && e + 2 <= |buf|
  {
    match ParseDht(buf, e, hd.tables)
    case None => Beyond
    case Some(r) => Header(buf, e + Be16(buf, e), hd.(tables := r.t))
  }

  lemma {:induction false} SkipFfSame(a: seq<byte>, b: seq<byte>, p: nat, e: nat)
    requires e <= |a| && e <= |b| && a[..e] == b[..e] && p <= e && SkipFf(a, p) < e
    ensures SkipFf(b, p) == SkipFf(a, p)
    decreases |a| - p
  {
    assert a[p] == a[..e][p] == b[p];
    if a[p] == 0xff { SkipFfSame(a, b, p + 1, e); }
  }

  lemma {:induction false} SameByte(a: seq<byte>, b: seq<byte>, e: nat, i: nat)
    requires e <= |a| && e <= |b| && a[..e] == b[..e] && i < e
    ensures a[i] == b[i]
  {
    assert a[i] == a[..e][i];
  }

  lemma {:induction false} SofPartsSame(a: seq<byte>, b: seq<byte>, e: nat, p: nat, i: nat, n: nat, hd: Hd)
    requires e <= |a| && e <= |b| && a[..e] == b[..e] && ValidHd(hd) && i <= n <= 3 && p + 3 * (n - i) <= e
    ensures SofParts(a, p, i, n, hd) == SofParts(b, p, i, n, hd)
    decreases n - i
  {
    if i < n {
      SameByte(a, b, e, p + 1);
      SofPartsSame(a, b, e, p + 3, i + 1, n, hd.(hf := hd.hf[i := a[p + 1] / 16], vf := hd.vf[i := a[p + 1] % 16]));
    }
  }

  lemma {:induction false} SegmentSame(a: seq<byte>, b: seq<byte>, k: nat, marker: byte, p: nat, hd: Hd)
    requires k <= |a| && k <= |b| && a[..k] == b[..k] && ValidHd(hd) && marker != SOS && marker != DHT
    requires (marker == DRI ==> p + 4 <= k) && (marker == SOF ==> SofWithin(a, p, k))
    ensures ParseSegment(b, marker, p, hd) == ParseSegment(a, marker, p, hd)
  {
    hide SofParts;
    if marker == DRI {
      SameByte(a, b, k, p + 2);
      SameByte(a, b, k, p + 3);
    } else if marker == SOF {
      SameByte(a, b, k, p + 3);
      SameByte(a, b, k, p + 4);
      SameByte(a, b, k, p + 5);
      SameByte(a, b, k, p + 6);
      SameByte(a, b, k, p + 7);
      if a[p + 7] <= 3 { SofPartsSame(a, b, k, p + 8, 0, a[p + 7], hd); }
    }
  }

  /** A segment behind which the walk goes on has room for its length. */
  lemma {:induction false} LongSegment(buf: seq<byte>, p: nat)
    requires p + 2 <= |buf| && FirstDht(buf, p + Be16(buf, p)).Copied?
    ensures Be16(buf, p) >= 2
  {}

  /** The copied part ends alike in a buffer that starts with it. */
  lemma {:induction false} SameDht(a: seq<byte>, b: seq<byte>, p: nat, e: nat)
    requires FirstDht(a, p) == Copied(e) && e + 2 <= |b| && a[..e] == b[..e]
    ensures FirstDht(b, p) == Copied(e)
    decreases |a| - p
  {
    hide SkipFf;
    var q := SkipFf(a, p + 1);
    SkipFfSame(a, b, p + 1, e);
    SameByte(a, b, e, p);
    SameByte(a, b, e, q);
    if a[q] != DHT {
      SameByte(a, b, e, q + 1);
      SameByte(a, b, e, q + 2);
      SameDht(a, b, q + 1 + Be16(a, q + 1), e);
    }
  }

  /** So does the frame, when the fields it is read from are among the bytes shared. */
  lemma {:induction false} FrameSame(a: seq<byte>, b: seq<byte>, p: nat, hd: Hd, e: nat, k: nat)
    requires ValidHd(hd) && FirstDht(a, p) == Copied(e) && FieldsWithin(a, p, k)
    requires e <= k <= |a| && k <= |b| && e + 2 <= |b| && a[..k] == b[..k]
    ensures Frame(b, p, hd) == Frame(a, p, hd)
    decreases |a| - p
  {
    hide ParseDht, ParseSof, ParseDri, ParseSos, SofWithin, SkipFf, ValidHd;
    var q := SkipFf(a, p + 1);
    SkipFfSame(a, b, p + 1, k);
    SameByte(a, b, k, p);
    SameByte(a, b, k, q);
    if a[q] != DHT && a[q] != SOS {
      var p1 := q + 1 + Be16(a, q + 1);
      LongSegment(a, q + 1);
      SameByte(a, b, k, q + 1);
      SameByte(a, b, k, q + 2);
      SegmentSame(a, b, k, a[q], q + 1, hd);
      var next := ParseSegment(a, a[q], q + 1, hd);
      if next.Some? { FrameSame(a, b, p1, next.value, e, k); }
    }
  }

  /** Even a frame header that is declared too short reads at most 13 bytes beyond the DHT marker. */
  lemma {:induction false} FieldsNear(buf: seq<byte>, p: nat, e: nat, k: nat)
    requires FirstDht(buf, p) == Copied(e) && e + 13 <= k
    ensures FieldsWithin(buf, p, k)
    decreases |buf| - p
  {
    hide SkipFf;
    var q := SkipFf(buf, p + 1);
    if buf[q] != DHT {
      LongSegment(buf, q + 1);
      FieldsNear(buf, q + 1 + Be16(buf, q + 1), e, k);
    }
  }

  /** Parsing a header is parsing its frame, and then what stands behind the first DHT marker. When there is
      no frame, parsing fails or finds no table. */
  lemma {:induction false} HeaderFrame(buf: seq<byte>, p: nat, hd: Hd, e: nat)
    requires ValidHd(hd) && FirstDht(buf, p) == Copied(e) && e + 2 <= |buf|
    ensures match Frame(buf, p, hd)
            case Some(f) => Header(buf, p, hd) == BehindDht(buf, e, f)
            case None => !Header(buf, p, hd).Parsed? || Header(buf, p, hd).hd.tables == hd.tables
    decreases |buf| - p
  {
    hide ParseDht, ParseSof, ParseDri, ParseSos, SkipFf, ValidHd;
    var q := SkipFf(buf, p + 1);
    if buf[q] != DHT {
      TablesKept(buf, buf[q], q + 1, hd);
      var next := ParseSegment(buf, buf[q], q + 1, hd);
      if next.Some? && buf[q] != SOS { HeaderFrame(buf, q + 1 + Be16(buf, q + 1), next.value, e); }
    }
  }

  lemma {:induction false} TablesKept(buf: seq<byte>, marker: byte, p: nat, hd: Hd)
    requires ValidHd(hd) && marker != DHT
    ensures var r := ParseSegment(buf, marker, p, hd); r.Some? ==> r.value.tables == hd.tables
  {
    hide ValidHd, SofParts, SosParts;
    if marker == SOF && p + 8 <= |buf| && buf[p + 7] <= 3 && p + 8 + 3 * buf[p + 7] <= |buf| {
      SofTables(buf, p + 8, 0, buf[p + 7], hd);
    }
    if marker == SOS && p + 3 <= |buf| && buf[p + 2] <= 3 && p + 6 + 2 * buf[p + 2] <= |buf| {
      SosKeeps(buf, p + 3, 0, buf[p + 2], hd);
    }
  }

  lemma {:induction false} SofTables(buf: seq<byte>, p: nat, i: nat, n: nat, hd: Hd)
    requires ValidHd(hd) && i <= n <= 3 && p + 3 * (n - i) <= |buf|
    ensures SofParts(buf, p, i, n, hd).tables == hd.tables
    decreases n - i
  {
    if i < n {
      SofTables(buf, p + 3, i + 1, n, hd.(hf := hd.hf[i := buf[p + 1] / 16], vf := hd.vf[i := buf[p + 1] % 16]));
    }
  }

  lemma {:induction false} SosKeeps(buf: seq<byte>, p: nat, i: nat, n: nat, hd: Hd)
    requires ValidHd(hd) && i <= n <= 3 && p + 2 * (n - i) <= |buf|
    ensures var r := SosParts(buf, p, i, n, hd);
            r.Some? ==> r.value == hd.(dcOf := r.value.dcOf, acOf := r.value.acOf)
    decreases n - i
  {
    if i < n && buf[p + 1] / 16 < 4 && buf[p + 1] % 16 < 4 {
      var t := buf[p + 1];
      SosKeeps(buf, p + 2, i + 1, n, hd.(dcOf := hd.dcOf[i := Some(t / 16)], acOf := hd.acOf[i := Some(t % 16)]));
    }
  }

  /** A header that defines a table has a DHT segment to copy up to. */
  lemma {:induction false} ReachesDht(buf: seq<byte>, p: nat, hd: Hd)
    requires ValidHd(hd) && Header(buf, p, hd).Parsed? && Header(buf, p, hd).hd.tables != hd.tables
    ensures FirstDht(buf, p).Copied?
    decreases |buf| - p
  {
    hide ParseDht, ParseSof, ParseDri, ParseSos, SkipFf, ValidHd;
    var q := SkipFf(buf, p + 1);
    if buf[q] != DHT {
      TablesKept(buf, buf[q], q + 1, hd);
      ReachesDht(buf, q + 1 + Be16(buf, q + 1), ParseSegment(buf, buf[q], q + 1, hd).value);
    }
  }

  lemma {:induction false} ScanHeaderBytes(buf: seq<byte>, p: nat)
    requires p + 14 <= |buf| && buf[p..p + 14] == SCAN_HEADER
    ensures buf[p] == 0xff && buf[p + 1] == 0xda && buf[p + 2] == 0 && buf[p + 3] == 12 && buf[p + 4] == 3
    ensures buf[p + 6] == 0 && buf[p + 8] == 0x11 && buf[p + 10] == 0x11
  {
    var w := buf[p..p + 14];
    assert buf[p] == w[0];
    assert buf[p + 1] == w[1];
    assert buf[p + 2] == w[2];
    assert buf[p + 3] == w[3];
    assert buf[p + 4] == w[4];
    assert buf[p + 6] == w[6];
    assert buf[p + 8] == w[8];
    assert buf[p + 10] == w[10];
  }

  /** Component 0 uses tables 0, components 1 and 2 use tables 1. */
  const BINDING: seq<Option<nat>> := [Some(0), Some(1), Some(1)]

  /** The scan header that the second pass writes. */
  lemma {:induction false} ScanHeaderParsed(buf: seq<byte>, p: nat, hd: Hd)
    requires ValidHd(hd) && p + 14 <= |buf| && buf[p..p + 14] == SCAN_HEADER
    ensures Header(buf, p, hd) == Parsed(hd.(dcOf := BINDING, acOf := BINDING, scan := p + 14))
  {
    hide ParseDht, ParseSof, ParseDri, SCAN_HEADER;
    ScanHeaderBytes(buf, p);
    assert SkipFf(buf, p + 1) == p + 1;
  }

  /** The output's header: the input's bytes up to its first DHT marker, the new tables, the scan header. */
  function NewHeader(buf: seq<byte>, e: nat, codes: seq<Huff>): seq<byte>
    requires e <= |buf| && Writable(codes)
  {
    buf[..e] + DhtBytes(codes) + SCAN_HEADER
  }

  /** The header rewrite: parsing the output gives the frame that its own first bytes define, the four new
      tables as tables 0 and 1, component 0 bound to tables 0 and components 1 and 2 to tables 1, and the
      scan right behind the header; or it fails or finds no table, when they define no frame. */
  lemma {:induction false} RewrittenHeader(buf: seq<byte>, e: nat, codes: seq<Huff>, out: seq<byte>)
    requires FirstDht(buf, 2) == Copied(e) && Writable(codes) && forall c :: 0 <= c < 4 ==> Good(codes[c])
    requires NewHeader(buf, e, codes) <= out
    ensures match Frame(NewHeader(buf, e, codes), 2, BLANK)
            case Some(f) => Header(out, 2, BLANK) == Parsed(f.(tables := Defined(f.tables, codes), dcOf := BINDING,
                                                               acOf := BINDING, scan := |NewHeader(buf, e, codes)|))
            case None => !Header(out, 2, BLANK).Parsed? || Header(out, 2, BLANK).hd.tables == BLANK.tables
  {
    hide Good, Header, Frame, FirstDht, FieldsWithin, ParseDht, DhtBytes, Listable, Defined, BehindDht;
    var head, d := NewHeader(buf, e, codes), DhtBytes(codes);
    var n := |head|;
    assert head[..e] == buf[..e] && out[..n] == head[..n];
    SameDht(buf, head, 2, e);
    assert out[..e] == head[..e];
    SameDht(head, out, 2, e);
    FieldsNear(head, 2, e, n);
    FrameSame(head, out, 2, BLANK, e, n);
    HeaderFrame(out, 2, BLANK, e);
    if Frame(head, 2, BLANK).Some? { BehindNewDht(buf, e, codes, out, Frame(head, 2, BLANK).value); }
  }

  lemma {:induction false} BehindNewDht(buf: seq<byte>, e: nat, codes: seq<Huff>, out: seq<byte>, f: Hd)
    requires e <= |buf| && Writable(codes) && (forall c :: 0 <= c < 4 ==> Good(codes[c])) && ValidHd(f)
    requires NewHeader(buf, e, codes) <= out
    ensures BehindDht(out, e, f) == Parsed(f.(tables := Defined(f.tables, codes), dcOf := BINDING, acOf := BINDING,
                                              scan := |NewHeader(buf, e, codes)|))
  {
    hide Good, Header, ParseDht, DhtBytes, Listable, Defined;
    var d, n := DhtBytes(codes), |NewHeader(buf, e, codes)|;
    var post := SCAN_HEADER + out[n..];
    assert out == buf[..e] + d + post by { assert out == NewHeader(buf, e, codes) + out[n..]; }
    DhtRoundTrip(buf[..e], codes, post, f.tables);
    assert out[n - 14..n] == SCAN_HEADER;
    ScanHeaderParsed(out, n - 14, f.(tables := Defined(f.tables, codes)));
  }

  /** When the fields of all frame headers lie in the copied part, the output's first bytes define the frame
      that the input's define. */
  lemma {:induction false} CopiedFrame(buf: seq<byte>, e: nat, codes: seq<Huff>)
    requires FirstDht(buf, 2) == Copied(e) && Writable(codes) && FieldsWithin(buf, 2, e)
    ensures Frame(NewHeader(buf, e, codes), 2, BLANK) == Frame(buf, 2, BLANK)
  {
    hide Header, Frame, FirstDht, FieldsWithin, DhtBytes, Listable;
    assert NewHeader(buf, e, codes)[..e] == buf[..e];
    FrameSame(buf, NewHeader(buf, e, codes), 2, BLANK, e, e);
  }

  // ----- when the input's own frame is that of its first DHT -----

  /** All that pictures and scans are laid out by. */
  predicate SameFrame(a: Hd, b: Hd) {
    a.width == b.width && a.height == b.height && a.hf == b.hf && a.vf == b.vf && a.interval == b.interval
  }

  /** No frame header and no restart interval from p on, up to the scan header. */
  predicate Quiet(buf: seq<byte>, p: nat)
    decreases |buf| - p
  {
    if p >= |buf| || buf[p] != 0xff then true
    else
      var q := SkipFf(buf, p + 1);
      q + 3 > |buf| || buf[q] == SOS ||
      (buf[q] != SOF && buf[q] != DRI && Quiet(buf, q + 1 + Be16(buf, q + 1)))
  }

  lemma {:induction false} SosFrame(buf: seq<byte>, p: nat, hd: Hd)
    requires ValidHd(hd) && ParseSos(buf, p, hd).Some?
    ensures SameFrame(ParseSos(buf, p, hd).value, hd)
  {
    hide SosParts, ValidHd;
    SosKeeps(buf, p + 3, 0, buf[p + 2], hd);
  }

  lemma {:induction false} QuietHeader(buf: seq<byte>, p: nat, hd: Hd)
    requires ValidHd(hd) && Quiet(buf, p) && Header(buf, p, hd).Parsed?
    ensures SameFrame(Header(buf, p, hd).hd, hd)
    decreases |buf| - p
  {
    hide ParseDht, ParseSof, ParseDri, ParseSos, SkipFf, ValidHd;
    var q := SkipFf(buf, p + 1);
    if buf[q] == SOS {
      SosFrame(buf, q + 1, hd);
    } else {
      QuietHeader(buf, q + 1 + Be16(buf, q + 1), ParseSegment(buf, buf[q], q + 1, hd).value);
    }
  }

  /** An input whose frame header and restart interval come before its first DHT has the frame that they
      define. */
  lemma {:induction false} FrameKept(buf: seq<byte>, e: nat)
    requires FirstDht(buf, 2) == Copied(e) && Frame(buf, 2, BLANK).Some? && Header(buf, 2, BLANK).Parsed?
    requires e + 2 <= |buf| && Quiet(buf, e + Be16(buf, e))
    ensures SameFrame(Header(buf, 2, BLANK).hd, Frame(buf, 2, BLANK).value)
  {
    hide Header, Frame, FirstDht, ParseDht, Quiet;
    var f := Frame(buf, 2, BLANK).value;
    HeaderFrame(buf, 2, BLANK, e);
    QuietHeader(buf, e + Be16(buf, e), f.(tables := ParseDht(buf, e, f.tables).value.t));
  }

  // ----- the decoder object -----

  /** Table i of d is o, if o is a table. */
  ghost predicate TableIs(d: Jdec, i: nat, o: Option<Huff>)
    requires d.Wired() && i < 8
    reads d.tableRepr
  {
    o.Some? ==> d.tables[i].Valid() && d.tables[i].h == o.value
  }

  ghost predicate TablesAre(d: Jdec, t: Tables)
    requires d.Wired() && ValidTables(t)
    reads d.tableRepr
  {
    forall i: nat :: i < 4 ==> TableIs(d, i, t.dc[i]) && TableIs(d, 4 + i, t.ac[i])
  }

  /** The fields of d are those of hd. */
  ghost predicate FieldsAre(d: Jdec, hd: Hd)
    reads d
  {
    && ValidHd(hd) && d.Reading() && d.Settled()
    && d.width == hd.width && d.height == hd.height && d.hfactor == hd.hf && d.vfactor == hd.vf
    && d.restartInterval == hd.interval && d.dcOf == hd.dcOf && d.acOf == hd.acOf
  }

  /** d holds what hd says. */
  ghost predicate Shows(d: Jdec, hd: Hd)
    reads d, d.tableRepr
  {
    FieldsAre(d, hd) && d.Wired() && d !in d.tableRepr && ValidTables(hd.tables) && TablesAre(d, hd.tables)
  }

  lemma {:induction false} ShowsTables(d: Jdec, hd: Hd, t: Tables)
    requires FieldsAre(d, hd) && d.Wired() && d !in d.tableRepr && ValidTables(t) && TablesAre(d, t)
    ensures Shows(d, hd.(tables := t))
  {
    hide TablesAre, Jdec.Reading, Jdec.Settled, Jdec.Wired;
  }

  method ReadBe16(buf: seq<byte>, p: nat) returns (r: nat)
    requires p + 2 <= |buf|
    ensures r == Be16(buf, p)
  {
    r := 256 * (buf[p] as int) + buf[p + 1];
  }

  /** Reads the 16 length counts and adds them up. */
  method ReadCounts(buf: seq<byte>, p: nat) returns (bits: seq<nat>, count: nat)
    requires p + 16 <= |buf|
    ensures bits == Nats(buf[p..p + 16]) && count == |SizesOf(bits)|
  {
    bits, count := [], 0;
    for i := 0 to 16
      invariant |bits| == i && forall k :: 0 <= k < i ==> bits[k] == buf[p + k]
      invariant count == |SizesUpTo(bits, i)|
    {
      SizesUpToSame(bits, bits + [buf[p + i] as int], i);
      bits := bits + [buf[p + i]];
      count := count + buf[p + i];
    }
  }

  lemma {:induction false} SizesUpToSame(a: seq<nat>, b: seq<nat>, n: nat)
    requires n <= |a| && a <= b
    ensures SizesUpTo(a, n) == SizesUpTo(b, n)
  {
    if n > 0 { SizesUpToSame(a, b, n - 1); }
  }

  /** Builds table number `id` from what stands at p. */
  method EnterTable(d: Jdec, id: byte, bits: seq<nat>, vals: seq<nat>, ghost t: Tables)
    requires d.Wired() && ValidTables(t) && TablesAre(d, t) && id % 16 < 4
    requires |bits| == 16 && |SizesOf(bits)| <= |vals| && Good(TableOf(bits, vals))
    modifies d.tableRepr
    ensures TablesAre(d, Enter(t, id, TableOf(bits, vals)))
  {
    hide Good, TableOf, SizesOf, HuffmanTable.Valid;
    var k := if id / 16 != 0 then 4 + id % 16 else id % 16;
    d.tables[k].Build(bits, vals);
  }

  lemma {:induction false} ParseTablesStep(buf: seq<byte>, p: nat, length: int, t: Tables)
    requires p <= |buf| && ValidTables(t) && length > 0 && ParseTables(buf, p, length, t).Some?
    ensures p + 17 <= |buf| && buf[p] % 16 < 4
    ensures var bits := Nats(buf[p + 1..p + 17]);
            var n := |SizesOf(bits)|;
            && p + 17 + n <= |buf|
            && var h := TableOf(bits, Nats(buf[p + 17..]));
               && Good(h)
               && ParseTables(buf, p, length, t) == ParseTables(buf, p + 17 + n, length - 17 - n, Enter(t, buf[p], h))
  {
    hide Good, SizesOf, Enter, TableOf;
  }

  lemma {:induction false} ParseTablesEnd(buf: seq<byte>, p: nat, length: int, t: Tables)
    requires p <= |buf| && ValidTables(t) && length <= 0
    ensures ParseTables(buf, p, length, t) == Some(DhtOut(t, p, length))
  {}

  /** parse_DHT: enters every table of the segment. */
  method ParseDhtSegment(d: Jdec, p: nat, ghost hd: Hd)
    requires Shows(d, hd) && ParseDht(d.buf, p, hd.tables).Some?
    modifies d.tableRepr
    ensures Shows(d, hd.(tables := ParseDht(d.buf, p, hd.tables).value.t))
  {
    hide Good, SizesOf, Enter, TablesAre, FieldsAre, ParseTables, TableOf;
    ghost var goal, t := ParseDht(d.buf, p, hd.tables), hd.tables;
    var be := ReadBe16(d.buf, p);
    var length, stream := (be as int) - 2, p + 2;
    while length > 0
      invariant FieldsAre(d, hd) && ValidTables(t) && TablesAre(d, t)
      invariant stream <= |d.buf| && ParseTables(d.buf, stream, length, t) == goal
      decreases |d.buf| - stream
    {
      ParseTablesStep(d.buf, stream, length, t);
      var index := d.buf[stream];
      stream := stream + 1;
      var bits, count := ReadCounts(d.buf, stream);
      stream := stream + 16;
      EnterTable(d, index, bits, Nats(d.buf[stream..]), t);
      t := Enter(t, index, TableOf(bits, Nats(d.buf[stream..])));
      length := length - 1;
      length := length - 16;
      length := length - count;
      stream := stream + count;
    }
    ParseTablesEnd(d.buf, stream, length, t);
    ShowsTables(d, hd, t);
  }

  method ParseDriSegment(d: Jdec, p: nat, ghost hd: Hd)
    requires Shows(d, hd) && ParseDri(d.buf, p, hd).Some?
    modifies d`restartInterval
    ensures Shows(d, ParseDri(d.buf, p, hd).value)
  {
    hide TablesAre, Jdec.Reading, Jdec.Wired;
    d.restartInterval := ReadBe16(d.buf, p + 2);
  }

  /** parse_SOF: the size, and the sampling factors component by component. */
  method ParseSofSegment(d: Jdec, p: nat, ghost hd: Hd)
    requires Shows(d, hd) && ParseSof(d.buf, p, hd).Some?
    modifies d`width, d`height, d`hfactor, d`vfactor
    ensures Shows(d, ParseSof(d.buf, p, hd).value)
  {
    hide TablesAre, Jdec.Reading, Jdec.Wired;
    var height := ReadBe16(d.buf, p + 3);
    var width := ReadBe16(d.buf, p + 5);
    var n, stream := d.buf[p + 7], p + 8;
    ghost var goal, now := SofParts(d.buf, stream, 0, n, hd), hd;
    for i := 0 to n
      invariant stream == p + 8 + 3 * i && ValidHd(now) && now == hd.(hf := now.hf, vf := now.vf)
      invariant SofParts(d.buf, stream, i, n, now) == goal && FieldsAre(d, now)
    {
      var factor := d.buf[stream + 1];
      stream := stream + 3;
      d.vfactor := d.vfactor[i := factor % 16];
      d.hfactor := d.hfactor[i := factor / 16];
      now := now.(hf := d.hfactor, vf := d.vfactor);
    }
    d.width := width;
    d.height := height;
  }

  /** parse_SOS: binds the components to tables and finds the start of the scan. */
  method ParseSosSegment(d: Jdec, p: nat, ghost hd: Hd)
    requires Shows(d, hd) && d.nbits == 0 && ParseSos(d.buf, p, hd).Some?
    modifies d`stream, d`dcOf, d`acOf
    ensures Shows(d, ParseSos(d.buf, p, hd).value) && d.stream == ParseSos(d.buf, p, hd).value.scan
  {
    hide TablesAre, Jdec.Wired;
    var n, stream := d.buf[p + 2], p + 3;
    ghost var goal, now := SosParts(d.buf, stream, 0, n, hd), hd;
    for i := 0 to n
      invariant stream == p + 3 + 2 * i && ValidHd(now) && now == hd.(dcOf := now.dcOf, acOf := now.acOf)
      invariant SosParts(d.buf, stream, i, n, now) == goal && FieldsAre(d, now)
    {
      var table := d.buf[stream + 1];
      stream := stream + 2;
      d.acOf := d.acOf[i := Some(table % 16)];
      d.dcOf := d.dcOf[i := Some(table / 16)];
      now := now.(dcOf := d.dcOf, acOf := d.acOf);
    }
    d.stream := stream + 3;
  }

  /** One segment. */
  method DispatchSegment(d: Jdec, marker: byte, p: nat, ghost hd: Hd)
    requires Shows(d, hd) && d.nbits == 0 && ParseSegment(d.buf, marker, p, hd).Some?
    modifies d`stream, d`width, d`height, d`hfactor, d`vfactor, d`restartInterval, d`dcOf, d`acOf, d.tableRepr
    ensures Shows(d, ParseSegment(d.buf, marker, p, hd).value)
    ensures marker == SOS ==> d.stream == ParseSegment(d.buf, marker, p, hd).value.scan
  {
    hide Shows, ParseDht, ParseSof, ParseSos, ParseDri;
    ShowsValid(d, hd);
    if marker == DRI {
      ParseDriSegment(d, p, hd);
    } else if marker == SOF {
      ParseSofSegment(d, p, hd);
    } else if marker == DHT {
      ParseDhtSegment(d, p, hd);
    } else if marker == SOS {
      ParseSosSegment(d, p, hd);
    }
  }

  lemma {:induction false} ShowsValid(d: Jdec, hd: Hd)
    requires Shows(d, hd)
    ensures ValidHd(hd) && d !in d.tableRepr
  {}

  /** parse_JFIF: the segments up to the scan header. False when one does not start with a marker. */
  method ParseHeader(d: Jdec, start: nat) returns (ok: bool)
    requires Shows(d, BLANK) && d.nbits == 0 && Header(d.buf, start, BLANK) != Beyond
    modifies d`stream, d`width, d`height, d`hfactor, d`vfactor, d`restartInterval, d`dcOf, d`acOf, d.tableRepr
    ensures ok == Header(d.buf, start, BLANK).Parsed?
    ensures ok ==> Shows(d, Header(d.buf, start, BLANK).hd) && d.stream == Header(d.buf, start, BLANK).hd.scan
  {
    hide ParseSegment, Shows;
    ghost var goal, hd := Header(d.buf, start, BLANK), BLANK;
    ShowsValid(d, hd);
    var stream := start;
    while true
      invariant ValidHd(hd) && Shows(d, hd) && d.nbits == 0 && Header(d.buf, stream, hd) == goal
      decreases |d.buf| - stream
    {
      ghost var q := SkipFf(d.buf, stream + 1);
      if d.buf[stream] != 0xff { return false; }
      stream := stream + 1;
      while d.buf[stream] == 0xff
        invariant stream < |d.buf| && SkipFf(d.buf, stream) == q < |d.buf|
        decreases |d.buf| - stream
      {
        stream := stream + 1;
      }
      var marker := d.buf[stream];
      stream := stream + 1;
      var length := ReadBe16(d.buf, stream);
      DispatchSegment(d, marker, stream, hd);
      hd := ParseSegment(d.buf, marker, stream, hd).value;
      if marker == SOS { return true; }
      stream := stream + length;
    }
  }

  /** Witeheaddata_parse_JFIF: copies the segments up to and including the first DHT marker. */
  method CopyHeader(w: Packer, buf: seq<byte>, start: nat) returns (ok: bool)
    requires w.Idle() && FirstDht(buf, start) != HeadBeyond
    modifies w
    ensures w.Idle() && ok == FirstDht(buf, start).Copied?
    ensures ok ==> w.out == old(w.out) + buf[start..FirstDht(buf, start).end]
  {
    hide Packer.Idle;
    ghost var goal := FirstDht(buf, start);
    var stream := start;
    while true
      invariant w.Idle() && start <= stream && FirstDht(buf, stream) == goal
      invariant stream <= |buf| && w.out == old(w.out) + buf[start..stream]
      decreases |buf| - stream
    {
      if buf[stream] != 0xff { return false; }
      var marker;
      stream, marker := CopyMarker(w, buf, start, stream, old(w.out));
      var length := ReadBe16(buf, stream);
      if marker == DHT { return true; }
      CopySegment(w, buf, start, stream, length, old(w.out));
      stream := stream + length;
    }
  }

  /** Copies a marker with the fill bytes inside it. */
  method CopyMarker(w: Packer, buf: seq<byte>, ghost start: nat, p: nat, ghost before: seq<byte>)
    returns (q: nat, marker: byte)
    requires w.Idle() && start <= p < |buf| && SkipFf(buf, p + 1) < |buf| && w.out == before + buf[start..p]
    modifies w
    ensures w.Idle() && q == SkipFf(buf, p + 1) + 1 && marker == buf[q - 1] && w.out == before + buf[start..q]
  {
    hide Packer.Idle, SkipFf;
    Copy(w, buf, start, p, before);
    q := CopyFill(w, buf, start, p + 1, before);
    marker := buf[q];
    Copy(w, buf, start, q, before);
    q := q + 1;
  }

  /** Copies fill bytes. */
  method CopyFill(w: Packer, buf: seq<byte>, ghost start: nat, p: nat, ghost before: seq<byte>) returns (q: nat)
    requires w.Idle() && start <= p <= |buf| && SkipFf(buf, p) < |buf| && w.out == before + buf[start..p]
    modifies w
    ensures w.Idle() && q == SkipFf(buf, p) && w.out == before + buf[start..q]
  {
    hide Packer.Idle;
    q := p;
    while buf[q] == 0xff
      invariant w.Idle() && p <= q < |buf| && SkipFf(buf, q) == SkipFf(buf, p)
      invariant w.out == before + buf[start..q]
      decreases |buf| - q
    {
      Copy(w, buf, start, q, before);
      q := q + 1;
    }
  }

  /** Copies the rest of a segment. */
  method CopySegment(w: Packer, buf: seq<byte>, ghost start: nat, p: nat, length: nat, ghost before: seq<byte>)
    requires w.Idle() && start <= p && p + length <= |buf| && w.out == before + buf[start..p]
    modifies w
    ensures w.Idle() && w.out == before + buf[start..p + length]
  {
    hide Packer.Idle;
    for i := 0 to length
      invariant w.Idle() && w.out == before + buf[start..p + i]
    {
      Copy(w, buf, start, p + i, before);
    }
  }

  /** fprintf of one byte of the input. */
  method Copy(w: Packer, buf: seq<byte>, ghost start: nat, p: nat, ghost before: seq<byte>)
    requires w.Idle() && start <= p < |buf| && w.out == before + buf[start..p]
    modifies w
    ensures w.Idle() && w.out == before + buf[start..p + 1]
  {
    hide Packer.Idle;
    w.Raw(buf[p]);
    assert buf[start..p + 1] == buf[start..p] + [buf[p]];
  }
}

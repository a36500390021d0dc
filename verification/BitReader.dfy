/** What reading entropy-coded bytes means: a position in the file, the bits fetched ahead of it,
    and the removal of the zero byte stuffed after every 0xFF. */
module BitReader {
  import opened Bits
  import opened Canonical

  /** A file in memory. The byte at `end` can be looked at, but is never fetched. */
  datatype Src = Src(buf: seq<byte>, end: nat)

  predicate ValidSrc(src: Src) {
    src.end < |src.buf|
  }

  /** The next byte to fetch, and the bits fetched but not used. */
  datatype Rd = Rd(pos: nat, bits: seq<bool>)

  /** The position behind the byte at pos, and behind the zero stuffed after a 0xFF. */
  function Next(src: Src, pos: nat): (p: nat)
    requires ValidSrc(src) && pos < src.end
    ensures pos < p <= src.end + 1
  {
    if src.buf[pos] == 0xff && src.buf[pos + 1] == 0 then pos + 2 else pos + 1
  }

  /** The data bits from pos to the end of the file. */
  function Unstuff(src: Src, pos: nat): (s: seq<bool>)
    requires ValidSrc(src)
    decreases src.end - pos
  {
    if pos >= src.end then [] else BitsOf(src.buf[pos], 8) + Unstuff(src, Next(src, pos))
  }

  /** Everything the reader has still to use. */
  function View(src: Src, rd: Rd): seq<bool>
    requires ValidSrc(src)
  {
    rd.bits + Unstuff(src, rd.pos)
  }

  /** b is reached from a by fetching bytes. */
  predicate Reaches(src: Src, a: nat, b: nat)
    requires ValidSrc(src)
    decreases src.end - a
  {
    a == b || (a < src.end && Reaches(src, Next(src, a), b))
  }

  /** Fetches bytes until at least `need` bits are there; None when the file ends first. */
  function Fill(src: Src, rd: Rd, need: nat): (r: Option<Rd>)
    requires ValidSrc(src)
    ensures r.Some? ==> |r.value.bits| >= need
    decreases src.end - rd.pos
  {
    if |rd.bits| >= need then Some(rd)
    else if rd.pos >= src.end then None
    else Fill(src, Rd(Next(src, rd.pos), rd.bits + BitsOf(src.buf[rd.pos], 8)), need)
  }

  datatype CodeOut = Starved | Got(sym: nat, len: nat, rd: Rd)

  predicate Usable(h: Huff) {
    Kraftful(h.sizes) && |h.vals| == |h.sizes| && forall i :: 0 <= i < |h.vals| ==> h.vals[i] < 256
  }

  /** Plain prefix decoding: look at n, n + 1, ... 16 bits until they start with a codeword.
      When none does, the symbol is 0 and no bit is used. */
  function ReadCode(src: Src, h: Huff, rd: Rd, n: nat): (r: CodeOut)
    requires ValidSrc(src) && Usable(h) && 9 <= n <= 16
    ensures r.Got? ==> r.sym < 256
    decreases 16 - n
  {
    match Fill(src, rd, n)
    case None => Starved
    case Some(r) =>
      match Find(h.sizes, r.bits[..n], 0)
      case Some(i) => Got(h.vals[i], h.sizes[i], Rd(r.pos, r.bits[h.sizes[i]..]))
      case None => if n == 16 then Got(0, 0, r) else ReadCode(src, h, r, n + 1)
  }

  /** Reads the s magnitude bits that follow a symbol. */
  function ReadBits(src: Src, rd: Rd, s: nat): (r: Option<(seq<bool>, Rd)>)
    requires ValidSrc(src)
    ensures r.Some? ==> |r.value.0| == s
  {
    match Fill(src, rd, s)
    case None => None
    case Some(r) => Some((r.bits[..s], Rd(r.pos, r.bits[s..])))
  }

  function Max(a: nat, b: nat): nat { if a >= b then a else b }

  lemma {:induction false} ReachesSelf(src: Src, a: nat)
    requires ValidSrc(src)
    ensures Reaches(src, a, a)
  {}

  lemma {:induction false} ReachesTrans(src: Src, a: nat, b: nat, c: nat)
    requires ValidSrc(src) && Reaches(src, a, b) && Reaches(src, b, c)
    ensures Reaches(src, a, c)
    decreases src.end - a
  {
    if a != b { ReachesTrans(src, Next(src, a), b, c); }
  }

  /** Fetching preserves what there is to read, succeeds exactly when that is enough,
      and never holds more than 7 bits beyond the need. */
  lemma {:induction false} FillView(src: Src, rd: Rd, need: nat)
    requires ValidSrc(src)
    ensures Fill(src, rd, need).Some? <==> |View(src, rd)| >= need
    ensures var f := Fill(src, rd, need); f.Some? ==>
              && View(src, f.value) == View(src, rd)
              && |f.value.bits| <= Max(|rd.bits|, need + 7)
              && Reaches(src, rd.pos, f.value.pos)
              && (|rd.bits| <= 8 * rd.pos ==> |f.value.bits| <= 8 * f.value.pos)
    decreases src.end - rd.pos
  {
    if |rd.bits| < need && rd.pos < src.end {
      var b := BitsOf(src.buf[rd.pos], 8);
      var rd' := Rd(Next(src, rd.pos), rd.bits + b);
      FillView(src, rd', need);
      assert (rd.bits + b) + Unstuff(src, rd'.pos) == rd.bits + (b + Unstuff(src, rd'.pos));
    }
  }

  /** The symbol is the value of the entry whose codeword, of that length, starts v; or nothing is read. */
  ghost predicate Read(h: Huff, v: seq<bool>, sym: nat, len: nat)
    requires Usable(h)
  {
    || (len == 0 && sym == 0)
    || (exists i: nat :: i < |h.sizes| && len == h.sizes[i] && sym == h.vals[i] && Codeword(h.sizes, i) <= v)
  }

  lemma {:induction false} PrefixLonger(a: seq<bool>, b: seq<bool>, c: seq<bool>)
    requires a <= b <= c
    ensures a <= c
  {}

  /** Reading a symbol uses up exactly its codeword. */
  lemma {:induction false} ReadCodeView(src: Src, h: Huff, rd: Rd, n: nat)
    requires ValidSrc(src) && Usable(h) && 9 <= n <= 16
    ensures var r := ReadCode(src, h, rd, n); r.Got? ==>
              && r.len <= |View(src, rd)| && View(src, r.rd) == View(src, rd)[r.len..]
              && Read(h, View(src, rd), r.sym, r.len) && (r.len == 0 ==> r.sym == 0)
              && Reaches(src, rd.pos, r.rd.pos)
              && (|rd.bits| <= 23 ==> |r.rd.bits| <= 23)
              && (|rd.bits| <= 8 * rd.pos ==> |r.rd.bits| <= 8 * r.rd.pos)
    decreases 16 - n
  {
    hide Fill, Unstuff, Find, Codeword, Reaches;
    FillView(src, rd, n);
    var f := Fill(src, rd, n);
    if f.Some? {
      var i := Find(h.sizes, f.value.bits[..n], 0);
      FindSpec(h.sizes, f.value.bits[..n], 0);
      if i.Some? {
        var k := h.sizes[i.value];
        PrefixLonger(Codeword(h.sizes, i.value), f.value.bits[..n], View(src, f.value));
        assert View(src, f.value)[k..] == f.value.bits[k..] + Unstuff(src, f.value.pos);
      } else if n < 16 {
        ReadCodeView(src, h, f.value, n + 1);
        var r := ReadCode(src, h, f.value, n + 1);
        if r.Got? { ReachesTrans(src, rd.pos, f.value.pos, r.rd.pos); }
      }
    }
  }

  lemma {:induction false} ReadBitsView(src: Src, rd: Rd, s: nat)
    requires ValidSrc(src)
    ensures ReadBits(src, rd, s).Some? <==> |View(src, rd)| >= s
    ensures var r := ReadBits(src, rd, s); r.Some? ==>
              && r.value.0 == View(src, rd)[..s]
              && View(src, r.value.1) == View(src, rd)[s..]
              && Reaches(src, rd.pos, r.value.1.pos)
              && |r.value.1.bits| <= Max(|rd.bits|, 7)
              && (|rd.bits| <= 8 * rd.pos ==> |r.value.1.bits| <= 8 * r.value.1.pos)
  {
    FillView(src, rd, s);
    var f := Fill(src, rd, s);
    if f.Some? {
      assert View(src, f.value)[s..] == f.value.bits[s..] + Unstuff(src, f.value.pos);
      assert View(src, f.value)[..s] == f.value.bits[..s];
    }
  }

  /** When the unread bits start with the codeword of entry i, the i-th value is read, whatever
      the look-ahead, and at most 15 bits stay in the reservoir. */
  lemma {:induction false} ReadCodeHit(src: Src, h: Huff, rd: Rd, n: nat, i: nat)
    requires ValidSrc(src) && Usable(h) && 9 <= n <= 16 && i < |h.sizes|
    requires Codeword(h.sizes, i) <= View(src, rd) && |View(src, rd)| >= 9
    requires n == 9 || n <= h.sizes[i]
    requires |rd.bits| <= Max(15, n + 6)
    ensures var r := ReadCode(src, h, rd, n);
            r.Got? && r.sym == h.vals[i] && r.len == h.sizes[i] && |r.rd.bits| <= 15
    decreases 16 - n
  {
    hide Fill, Unstuff, Find;
    FillView(src, rd, n);
    var k := h.sizes[i];
    var f := Fill(src, rd, n).value;
    var w := f.bits[..n];
    assert w == View(src, f)[..n];
    if k <= n {
      assert Codeword(h.sizes, i) <= w;
      FindUnique(h.sizes, w, i);
    } else {
      forall e | 0 <= e < |h.sizes| && Codeword(h.sizes, e) <= w
        ensures e == i
      {
        PrefixFree(h.sizes, e, i, View(src, f));
      }
      FindSpec(h.sizes, w, 0);
      ReadCodeHit(src, h, f, n + 1, i);
    }
  }

  /** When no codeword starts the unread bits and 16 of them are there, the decoder reports 0. */
  lemma {:induction false} ReadCodeMiss(src: Src, h: Huff, rd: Rd, n: nat)
    requires ValidSrc(src) && Usable(h) && 9 <= n <= 16
    requires |View(src, rd)| >= 16
    requires forall i :: 0 <= i < |h.sizes| ==> !(Codeword(h.sizes, i) <= View(src, rd))
    ensures var r := ReadCode(src, h, rd, n);
            r.Got? && r.sym == 0 && r.len == 0 && View(src, r.rd) == View(src, rd)
    decreases 16 - n
  {
    FillView(src, rd, n);
    var f := Fill(src, rd, n).value;
    FindNone(h.sizes, f.bits[..n], View(src, f));
    if n < 16 { ReadCodeMiss(src, h, f, n + 1); }
  }

  /** A codeword of the table starts v. */
  ghost predicate StartsCode(h: Huff, v: seq<bool>)
    requires Usable(h)
  {
    exists i: nat :: i < |h.sizes| && Codeword(h.sizes, i) <= v
  }

  /** When a symbol is read: exactly when 9 bits are left, and a codeword starts them or 16 are. Whatever is held, it
      is that codeword's (ReadCodeView), and the symbol 0 of no bits when there is none. */
  lemma {:induction false} ReadCodeExactly(src: Src, h: Huff, rd: Rd, n: nat)
    requires ValidSrc(src) && Usable(h) && 9 <= n <= 16
    requires n == 9 || forall i: nat :: i < |h.sizes| && Codeword(h.sizes, i) <= View(src, rd) ==> h.sizes[i] >= n
    ensures var r, v := ReadCode(src, h, rd, n), View(src, rd);
            && (r.Got? <==> |v| >= n && (StartsCode(h, v) || |v| >= 16))
            && (r.Got? ==> (r.len > 0 <==> StartsCode(h, v)))
    decreases 16 - n
  {
    hide Fill, Unstuff, Find, Codeword, Reaches, View;
    FillView(src, rd, n);
    var f, v := Fill(src, rd, n), View(src, rd);
    if f.Some? {
      var w := f.value.bits[..n];
      assert w <= v by { HeldFirst(src, f.value, n); }
      FindSpec(h.sizes, w, 0);
      if Find(h.sizes, w, 0).None? {
        forall i: nat | i < |h.sizes| && Codeword(h.sizes, i) <= v ensures h.sizes[i] > n {
          if h.sizes[i] <= n { ShorterPrefix(Codeword(h.sizes, i), w, v); }
        }
        if n < 16 { ReadCodeExactly(src, h, f.value, n + 1); }
      } else {
        PrefixLonger(Codeword(h.sizes, Find(h.sizes, w, 0).value), w, v);
      }
    }
  }

  lemma {:induction false} HeldFirst(src: Src, rd: Rd, n: nat)
    requires ValidSrc(src) && n <= |rd.bits|
    ensures rd.bits[..n] <= View(src, rd)
  {}

  lemma {:induction false} ShorterPrefix(a: seq<bool>, b: seq<bool>, c: seq<bool>)
    requires a <= c && b <= c && |a| <= |b|
    ensures a <= b
  {}

  /** Of two positions reached from one start, the unread bits tell which comes first. */
  lemma {:induction false} ReachesUnique(src: Src, a: nat, b: nat, c: nat)
    requires ValidSrc(src) && Reaches(src, a, b) && Reaches(src, a, c)
    requires |Unstuff(src, b)| == |Unstuff(src, c)|
    ensures b == c
    decreases src.end - a
  {
    if a == b {
      ReachesShorter(src, a, c);
    } else if a == c {
      ReachesShorter(src, a, b);
    } else {
      ReachesUnique(src, Next(src, a), b, c);
    }
  }

  lemma {:induction false} ReachesShorter(src: Src, a: nat, b: nat)
    requires ValidSrc(src) && Reaches(src, a, b)
    ensures |Unstuff(src, b)| <= |Unstuff(src, a)|
    ensures a != b ==> |Unstuff(src, b)| < |Unstuff(src, a)|
    decreases src.end - a
  {
    if a != b { ReachesShorter(src, Next(src, a), b); }
  }
}

/** The bit packer: a global partial byte that code strings are shifted into. */
module BitWriter {
  import opened Bits
  import opened Packing
  import opened Numerals

  /** A bitset of 8, most significant bit first: bit i of the set is element 7 - i. */
  type Bitset = s: seq<bool> | |s| == 8 witness Zeros(8)

  function ShiftLeft(b: Bitset, k: nat): Bitset
    requires k <= 8
  {
    b[k..] + Zeros(k)
  }

  function Or(a: Bitset, b: Bitset): Bitset {
    seq(8, i requires 0 <= i < 8 => a[i] || b[i])
  }

  lemma {:induction false} OrDisjoint(x: seq<bool>, y: seq<bool>)
    requires |x| + |y| == 8
    ensures Or(x + Zeros(|y|), Zeros(|x|) + y) == x + y
  {}

  lemma {:induction false} ShiftPending(x: seq<bool>, k: nat)
    requires |x| + k <= 8
    ensures ShiftLeft(Zeros(8 - |x|) + x, k) == Zeros(8 - |x| - k) + x + Zeros(k)
  {
    assert (Zeros(8 - |x|) + x)[k..] == Zeros(8 - |x| - k) + x;
  }

  /** The bits of the code before the last `bits` ones, right-aligned. */
  method HeadString(code: string, bits: nat) returns (r: Bitset)
    requires bits <= |code| <= bits + 8
    ensures r == Zeros(8 - (|code| - bits)) + StrBits(code)[..|code| - bits]
  {
    r := Zeros(8);
    for i := 0 to |code| - bits
      invariant r == Zeros(8 - i) + StrBits(code)[|code| - bits - i..|code| - bits]
    {
      var a := code[|code| - 1 - i - bits];
      r := r[7 - i := a != '0'];
    }
  }

  /** The eight bits of the code before the last `bits` ones. */
  method Use8String(code: string, bits: nat) returns (r: Bitset)
    requires bits + 8 <= |code|
    ensures r == StrBits(code)[|code| - bits - 8..|code| - bits]
  {
    r := Zeros(8);
    for i := 0 to 8
      invariant r == Zeros(8 - i) + StrBits(code)[|code| - bits - i..|code| - bits]
    {
      var a := code[|code| - 1 - i - bits];
      r := r[7 - i := a != '0'];
    }
  }

  /** The last `bits` bits of the code, right-aligned. */
  method TailString(code: string, bits: nat) returns (r: Bitset)
    requires bits <= 8 && bits <= |code|
    ensures r == Zeros(8 - bits) + StrBits(code)[|code| - bits..]
  {
    r := Zeros(8);
    for i := 0 to bits
      invariant r == Zeros(8 - i) + StrBits(code)[|code| - i..]
    {
      var a := code[|code| - 1 - i];
      r := r[7 - i := a != '0'];
    }
  }

  class Packer {
    var stream: Bitset   // the pending bits, right-aligned
    var bits: nat        // how many are pending, 0 to 8
    var out: seq<byte>   // the file written
    ghost var pk: Pk

    ghost predicate Valid()
      reads this
    {
      && ValidPk(pk) && bits == |pk.pend|
      && stream == Zeros(8 - bits) + pk.pend && out == Out(pk)
    }

    constructor ()
      ensures Valid() && pk == Pk([], [], [])
    {
      stream, bits, out, pk := Zeros(8), 0, [], Pk([], [], []);
    }

    /** Writes the full partial byte, and a zero behind a 0xFF. */
    method WriteByte()
      modifies this`out
      ensures out == old(out) + Stuff(ByteOf(stream))
    {
      var byte := ByteOf(stream);
      out := out + [byte];
      if byte == 0xff { out := out + [0]; }
    }

    /** Writes the full partial byte and starts a new one. */
    method FlushByte()
      requires out == Out(pk)
      modifies this
      ensures Valid() && pk == Pk(old(pk).prefix, old(pk).done + [ByteOf(old(stream))], [])
    {
      WriteByte();
      OutSnoc(pk, ByteOf(stream));
      pk := Pk(pk.prefix, pk.done + [ByteOf(stream)], []);
      stream := ShiftLeft(stream, 8);
      bits := 0;
    }

    /** The code does not fit: fill the partial byte up with its first bits and write it.
        Returns how many bits of the code are left. */
    method FillByte(code: string) returns (left: nat)
      requires Valid() && 8 - bits < |code| <= 16
      modifies this
      ensures Valid() && left == |code| - (8 - old(bits))
      ensures pk == Pk(old(pk).prefix, old(pk).done + [ByteOf((old(pk).pend + StrBits(code) + Zeros(8))[..8])], [])
    {
      hide Zeros, Or, StrBits, ByteOf, ShiftLeft, Out;
      ghost var p, s := pk.pend, StrBits(code);
      ShiftPending(p, 8 - bits);
      stream := ShiftLeft(stream, 8 - bits);
      left := |code| - (8 - bits);
      assert stream == p + Zeros(8 - bits);
      var head := HeadString(code, left);
      OrDisjoint(p, s[..8 - bits]);
      stream := Or(stream, head);
      assert p + s[..8 - bits] == (p + s + Zeros(8))[..8];
      FlushByte();
    }

    /** Another whole byte of the code, right-aligned in the empty partial byte. */
    method WholeByte(code: string, left: nat)
      requires Valid() && bits == 0 && 8 <= left <= |code|
      modifies this
      ensures Valid()
      ensures pk == Pk(old(pk).prefix,
                       old(pk).done + [ByteOf(StrBits(code)[|code| - left..|code| - left + 8])], [])
    {
      var eight := Use8String(code, left - 8);
      OrDisjoint([], eight);
      assert stream == [] + Zeros(8) && Zeros(0) + eight == eight == [] + eight;
      stream := Or(stream, eight);
      FlushByte();
    }

    /** The last bits of the code, right-aligned in a partial byte with room for them. */
    method KeepTail(code: string, left: nat)
      requires ValidPk(pk) && |pk.pend| + left <= 8 && left <= |code| && out == Out(pk)
      requires stream == Zeros(8 - |pk.pend| - left) + pk.pend + Zeros(left)
      modifies this`stream, this`pk
      ensures pk == old(pk).(pend := old(pk).pend + StrBits(code)[|code| - left..])
      ensures stream == Zeros(8 - |pk.pend|) + pk.pend && out == Out(pk)
    {
      hide Or, StrBits, ByteOf, Zeros, Out;
      ghost var p, t := pk.pend, StrBits(code)[|code| - left..];
      var tail := TailString(code, left);
      OrDisjoint(Zeros(8 - |p| - left) + p, t);
      stream := Or(stream, tail);
      pk := pk.(pend := p + t);
      OutPend(old(pk), pk.pend);
    }

    /** Appends a code string of at most 16 bits. */
    method WriteStream(code: string)
      requires Valid() && |code| <= 16
      modifies this
      ensures Valid() && pk == Put(old(pk), StrBits(code))
    {
      hide Zeros, Or, StrBits, ByteOf, ShiftLeft, Out, Put;
      PutCases(pk, StrBits(code));
      if |code| > 8 - bits {
        var left := FillByte(code);
        if left >= 8 {
          WholeByte(code, left);
          left := left - 8;
        }
        ZerosSplit(left);
        KeepTail(code, left);
        bits := left;
      } else {
        ShiftPending(pk.pend, |code|);
        stream := ShiftLeft(stream, |code|);
        KeepTail(code, |code|);
        bits := bits + |code|;
      }
    }

    /** Between segments: nothing is pending, everything written counts as prefix. */
    ghost predicate Idle()
      reads this
    {
      Valid() && pk == Pk(out, [], [])
    }

    /** Starts another output file; the partial byte must be empty. */
    method Open()
      requires Idle()
      modifies this
      ensures Idle() && out == []
    {
      out := [];
      pk := Pk([], [], []);
    }

    /** fprintf of one character. */
    method Raw(b: byte)
      requires Idle()
      modifies this
      ensures Idle() && out == old(out) + [b]
    {
      out := out + [b];
      pk := Pk(out, [], []);
    }

    /** Fills the partial byte up with ones. */
    method PadOnes()
      requires Valid() && bits > 0
      modifies this`stream
      ensures stream == pk.pend + Ones(8 - |pk.pend|)
    {
      var move := 8 - bits;
      ShiftPending(pk.pend, move);
      stream := ShiftLeft(stream, move);
      assert stream == pk.pend + Zeros(move);
      for i := 0 to move
        invariant stream == pk.pend + Zeros(move - i) + Ones(i)
      {
        stream := stream[7 - i := true];
      }
    }

    /** Clears the packer. */
    method Clear()
      modifies this
      ensures Idle() && out == old(out)
    {
      stream := ShiftLeft(stream, 8);
      bits := 0;
      pk := Pk(out, [], []);
    }

    /** The writing half of Write_RST: pads with ones, without stuffing, and writes marker k. */
    method FlushRestart(k: nat)
      requires Valid() && k < 8
      modifies this
      ensures Valid() && pk == FlushRst(old(pk), k)
    {
      hide ByteOf, Ones, StuffAll;
      if bits > 0 {
        PadOnes();
        out := out + [ByteOf(stream)];
      }
      out := out + [0xff];
      out := out + [0xd0 + k];
      Clear();
    }

    /** Ends an image: pads with ones, stuffing a final 0xFF, and writes the end-of-image marker.
        The packer is empty again for the next image. */
    method Finish()
      requires Valid()
      modifies this
      ensures Idle() && out == FlushEnd(old(pk))
    {
      hide ByteOf, Ones;
      if bits > 0 {
        PadOnes();
        StuffOne(ByteOf(stream));
        WriteByte();
      }
      Clear();
      out := out + [0xff];
      out := out + [0xd9];
      pk := Pk(out, [], []);
    }

    /** Writes a number given as a string of at most 8 binary digits. */
    method WriteNumber(str: string)
      requires Idle() && |str| <= 8
      modifies this
      ensures Idle() && |StrBits(str)| <= 8 && Val(StrBits(str)) < 256
      ensures out == old(out) + [Val(StrBits(str))]
    {
      var full := TailString(str, |str|);
      assert stream == Zeros(8 - 0) + [];
      OrDisjoint([], full);
      assert stream == [] + Zeros(8) && Zeros(0) + full == full == [] + full;
      stream := Or(stream, full);
      LeadingZeros(8 - |str|, StrBits(str));
      out := out + [ByteOf(stream)];
      Clear();
    }
  }

  lemma {:induction false} StuffOne(b: byte)
    ensures StuffAll([b]) == Stuff(b) && StuffAll([]) == []
  {
    assert [b][..0] == [];
  }

  lemma {:induction false} LeadingZeros(n: nat, s: seq<bool>)
    ensures Val(Zeros(n) + s) == Val(s)
    ensures n + |s| == 8 ==> Val(s) < 256
  {
    ValConcat(Zeros(n), s);
    ValZeros(n);
    ShlZero(|s|);
    ValBound(Zeros(n) + s);
    assert Pow2(8) == 256;
  }

  lemma {:induction false} ValZeros(n: nat)
    ensures Val(Zeros(n)) == 0
  {
    if n > 0 {
      ValZeros(n - 1);
      assert Zeros(n)[..n - 1] == Zeros(n - 1);
    }
  }

  lemma {:induction false} OutPend(pk: Pk, p: seq<bool>)
    ensures Out(pk.(pend := p)) == Out(pk)
  {}

  lemma {:induction false} ZerosSplit(k: nat)
    requires k <= 8
    ensures Zeros(8) == Zeros(8 - k) + [] + Zeros(k)
  {}

  /** Put, in terms of the slices of the new string. */
  lemma {:induction false} PutCases(pk: Pk, s: seq<bool>)
    requires ValidPk(pk) && |s| <= 16
    ensures var p, first := pk.pend, pk.done + [ByteOf((pk.pend + s + Zeros(8))[..8])];
            && (|p| + |s| <= 8 ==> Put(pk, s) == pk.(pend := p + s[0..]))
            && (8 < |p| + |s| < 16 ==> Put(pk, s) == Pk(pk.prefix, first, s[8 - |p|..]))
            && (16 <= |p| + |s| ==>
                  Put(pk, s) == Pk(pk.prefix, first + [ByteOf(s[8 - |p|..16 - |p|])], s[16 - |p|..]))
  {
    hide ByteOf;
    var p, all := pk.pend, pk.pend + s;
    if |all| > 8 {
      assert (all + Zeros(8))[..8] == all[..8];
      assert all[8..] == s[8 - |p|..];
      if |all| >= 16 {
        assert all[8..16] == s[8 - |p|..16 - |p|];
        assert all[16..] == s[16 - |p|..];
      }
    }
  }

  lemma {:induction false} OutSnoc(pk: Pk, b: byte)
    ensures Out(pk.(done := pk.done + [b])) == Out(pk) + Stuff(b)
  {
    StuffAllConcat(pk.done, [b]);
    assert [b][..0] == [];
  }
}

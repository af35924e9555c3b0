/** pb_istream_t over a memory buffer, with the varint decoders that read from it byte by byte. */
module InputStream {
  import opened Basics
  import opened Bits
  import opened Wire
  import opened DecodeSpec

  class IStream {
    const data: seq<byte>
    var pos: nat
    var left: nat

    ghost predicate Valid()
      reads this
    {
      pos + left <= |data|
    }

    /** The bytes that the stream may still read. */
    ghost function Rest(): seq<byte>
      requires Valid()
      reads this
    {
      data[pos..pos + left]
    }

    /** Where the stream ends. Reading does not move it. */
    ghost function End(): nat
      reads this
    {
      pos + left
    }

    constructor (data: seq<byte>, pos: nat, left: nat)
      requires pos + left <= |data|
      ensures Valid() && this.data == data && this.pos == pos && this.left == left
    {
      this.data, this.pos, this.left := data, pos, left;
    }

    /** pb_read */
    method Read(count: nat) returns (ok: bool, bytes: seq<byte>)
      requires Valid()
      modifies this
      ensures Valid() && End() == old(End())
      ensures ok <==> count <= |old(Rest())|
      ensures ok ==> bytes == old(Rest())[..count] && Rest() == old(Rest())[count..]
      ensures !ok ==> Rest() == old(Rest())
    {
      if count == 0 { return true, []; }
      if left < count { return false, []; }
      bytes := data[pos..pos + count];
      pos, left := pos + count, left - count;
      ok := true;
    }

    /** pb_readbyte */
    method ReadByte() returns (ok: bool, b: byte)
      requires Valid()
      modifies this
      ensures Valid() && End() == old(End())
      ensures ok <==> old(Rest()) != []
      ensures ok ==> b == old(Rest())[0] && Rest() == old(Rest())[1..]
      ensures !ok ==> Rest() == old(Rest())
    {
      if left == 0 { return false, 0; }
      b := data[pos];
      pos, left := pos + 1, left - 1;
      ok := true;
    }
  }

  /** A method that returned ok and val and left rest in its stream did what r says. */
  ghost predicate Follows<T>(r: Parse<T>, ok: bool, val: T, rest: seq<byte>) {
    (ok <==> r.Done?) && (ok ==> r == Done(val, rest))
  }

  /** pb_decode_varint32_eof; eof tells that there was nothing to read. */
  method DecodeVarint32(stream: IStream) returns (ok: bool, value: nat, eof: bool)
    requires stream.Valid()
    modifies stream
    ensures stream.Valid() && stream.End() == old(stream.End())
    ensures Follows(Varint32(old(stream.Rest())), ok, value, stream.Rest())
    ensures ok ==> value < TWO_TO_32
    ensures eof <==> old(stream.Rest()) == []
  {
    ghost var s := stream.Rest();
    Varint32Stops(s);
    eof, value := false, 0;
    var b;
    ok, b := stream.ReadByte();
    if !ok { return false, 0, true; }
    if b < 128 { return true, b, false; }
    ok, value := DecodeVarint32Tail(stream, b % 128);
  }

  /** Its multibyte case: the loop has no length limit, and its shift counter is an 8-bit number. */
  method DecodeVarint32Tail(stream: IStream, first: nat) returns (ok: bool, result: nat)
    requires stream.Valid()
    modifies stream
    ensures stream.Valid() && stream.End() == old(stream.End())
    ensures Follows(Varint32Tail(old(stream.Rest()), 7, first), ok, result, stream.Rest())
  {
    var bitpos: nat := 7;
    result := first;
    while true
      invariant stream.Valid() && stream.End() == old(stream.End())
      invariant bitpos < 256
      invariant Varint32Tail(old(stream.Rest()), 7, first) == Varint32Tail(stream.Rest(), bitpos, result)
      decreases |stream.Rest()|
    {
      ghost var s := stream.Rest();
      var b;
      ok, b := stream.ReadByte();
      if !ok { return; }
      Varint32TailStep(s, bitpos, result);
      if bitpos >= 32 {
        var signExtension := if bitpos < 63 then 0xFF else 0x01;
        if b % 128 != 0 && (result < TWO_TO_31 || b != signExtension) { return false, result; }
      } else {
        result := Or(result, Shl(b % 128, bitpos) % TWO_TO_32);
      }
      bitpos := (bitpos + 7) % 256;
      if b < 128 {
        ok := bitpos != 35 || b / 16 % 8 == 0;
        return;
      }
    }
  }

  /** What one byte does to the multibyte case. */
  lemma Varint32TailStep(s: seq<byte>, bitpos: nat, result: nat)
    requires s != []
    ensures var b, bitpos' := s[0], (bitpos + 7) % 256;
            Varint32Tail(s, bitpos, result)
            == if 32 <= bitpos && b % 128 != 0 && (result < TWO_TO_31 || b != SignExtension(bitpos)) then Fail
               else if 128 <= b then Varint32Tail(s[1..], bitpos', Absorb(b, bitpos, result))
               else if bitpos' == 35 && b / 16 % 8 != 0 then Fail
               else Done(Absorb(b, bitpos, result), s[1..])
  {}

  /** One step of the 64-bit loop keeps its register equal to the value so far modulo 2^64. */
  lemma Register64(s: seq<byte>, i: nat, result: nat)
    requires i < |s| && i <= 9 && result == Groups(s[..i]) % TWO_TO_64
    ensures Or(result, Shl(s[i] % 128, 7 * i) % TWO_TO_64) == Groups(s[..i + 1]) % TWO_TO_64
  {
    assert s[..i] + [s[i]] == s[..i + 1];
    GroupsAppend(s[..i], s[i]);
    GroupsBound(s[..i]);
    Pow2Monotone(7 * i, 63);
    Pow2To70();
    Reduce64(0, Groups(s[..i]));
    Group64(Groups(s[..i]), s[i] % 128, i);
  }

  lemma Group64(g: nat, c: nat, i: nat)
    requires c < 128 && i <= 9 && g < Pow2(7 * i)
    ensures Or(g, Shl(c, 7 * i) % TWO_TO_64) == (g + Shl(c, 7 * i)) % TWO_TO_64
  {
    if i == 9 { TenthGroup(g, c); } else { EarlyGroup64(g, c, 7 * i); }
  }

  lemma EarlyGroup64(g: nat, c: nat, k: nat)
    requires c < 128 && k <= 56 && g < Pow2(k)
    ensures Or(g, Shl(c, k) % TWO_TO_64) == (g + Shl(c, k)) % TWO_TO_64
  {
    EarlyBound64(g, c, k);
    OrDisjoint(g, c, k);
    OrInRegister64(g, Shl(c, k));
  }

  lemma EarlyBound64(g: nat, c: nat, k: nat)
    requires c < 128 && k <= 56 && g < Pow2(k)
    ensures g < TWO_TO_63 && Shl(c, k) < TWO_TO_63
  {
    Pow2To70();
    Pow2To28();
    ShlBound(c, k, 7);
    Pow2Monotone(k + 7, 63);
    Pow2Monotone(k, 63);
  }

  lemma OrInRegister64(x: nat, y: nat)
    requires x < TWO_TO_63 && y < TWO_TO_63 && Or(x, y) == x + y
    ensures Or(x, y % TWO_TO_64) == (x + y) % TWO_TO_64
  {
    assert y % TWO_TO_64 == y && (x + y) % TWO_TO_64 == x + y;
  }

  /** Only one bit of the tenth group fits in the register. */
  lemma TenthGroup(g: nat, c: nat)
    requires g < Pow2(63)
    ensures Or(g, Shl(c, 63) % TWO_TO_64) == (g + Shl(c, 63)) % TWO_TO_64
  {
    Shl63(c);
    Shl63(c % 2);
    Pow2To70();
    Reduce64(c / 2, TWO_TO_63 * (c % 2));
    Reduce64(c / 2, g + TWO_TO_63 * (c % 2));
    OrDisjoint(g, c % 2, 63);
  }

  lemma Reduce64(q: nat, r: nat)
    requires r < TWO_TO_64
    ensures (TWO_TO_64 * q + r) % TWO_TO_64 == r
  {}

  /** pb_decode_varint */
  method DecodeVarint64(stream: IStream) returns (ok: bool, result: nat)
    requires stream.Valid()
    modifies stream
    ensures stream.Valid() && stream.End() == old(stream.End())
    ensures Follows(Varint64(old(stream.Rest())), ok, result, stream.Rest())
  {
    ghost var s := stream.Rest();
    ghost var i: nat := 0;
    var bitpos: nat := 0;
    result := 0;
    while true
      invariant stream.Valid() && stream.End() == old(stream.End())
      invariant i <= |s| && stream.Rest() == s[i..] && bitpos == 7 * i && i <= 10
      invariant forall k :: 0 <= k < i ==> 128 <= s[k]
      invariant result == Groups(s[..i]) % TWO_TO_64
      decreases 10 - i
    {
      if i == 10 || i == |s| { LongVarint(s, i); }
      if bitpos >= 64 { return false, result; }
      var b;
      ok, b := stream.ReadByte();
      if !ok { return; }
      Register64(s, i, result);
      result := Or(result, Shl(b % 128, bitpos) % TWO_TO_64);
      bitpos := bitpos + 7;
      i := i + 1;
      if b < 128 {
        VarLenIs(s, i);
        return;
      }
    }
  }

  /** A varint that does not end within i bytes is too long, or unfinished. */
  lemma LongVarint(s: seq<byte>, i: nat)
    requires i <= |s| && forall k :: 0 <= k < i ==> 128 <= s[k]
    ensures i == 10 || i == |s| ==> Varint64(s) == Fail
    ensures i == |s| ==> SkipVarint(s) == Fail
  {}

  /** pb_skip_varint */
  method SkipVarintBytes(stream: IStream) returns (ok: bool)
    requires stream.Valid()
    modifies stream
    ensures stream.Valid() && stream.End() == old(stream.End())
    ensures Follows(SkipVarint(old(stream.Rest())), ok, (), stream.Rest())
  {
    ghost var s := stream.Rest();
    ghost var i := 0;
    while true
      invariant stream.Valid() && stream.End() == old(stream.End())
      invariant i <= |s| && stream.Rest() == s[i..]
      invariant forall k :: 0 <= k < i ==> 128 <= s[k]
      decreases |stream.Rest()|
    {
      var bytes;
      ok, bytes := stream.Read(1);
      if !ok {
        LongVarint(s, i);
        return;
      }
      i := i + 1;
      if bytes[0] < 128 {
        VarLenIs(s, i);
        return;
      }
    }
  }

  /** pb_make_string_substream: the parent gives up the bytes of the substream. */
  method MakeSubstream(stream: IStream) returns (ok: bool, sub: IStream)
    requires stream.Valid()
    modifies stream
    ensures stream.Valid() && stream.End() <= old(stream.End())
    ensures fresh(sub) && sub.Valid() && sub.data == stream.data
    ensures ok <==> SubStream(old(stream.Rest())).Done?
    ensures ok ==> sub.Rest() == SubStream(old(stream.Rest())).val
    ensures ok ==> sub.End() + stream.left == old(stream.End())
    ensures ok ==> stream.data[sub.End()..sub.End() + stream.left] == SubStream(old(stream.Rest())).rest
  {
    var read, size, _ := DecodeVarint32(stream);
    ok := read;
    sub := new IStream(stream.data, stream.pos, 0);
    if !ok { return; }
    if stream.left < size { return false, sub; }
    ghost var p := stream.Rest();
    sub := new IStream(stream.data, stream.pos, size);
    stream.left := stream.left - size;
    assert sub.Rest() == p[..size];
    assert stream.data[sub.End()..sub.End() + stream.left] == p[size..];
  }

  /** pb_close_string_substream: skips what is left of the substream and moves the parent behind it. */
  method CloseSubstream(stream: IStream, sub: IStream)
    requires stream != sub && stream.Valid() && sub.Valid() && sub.data == stream.data
    requires sub.End() + stream.left <= |stream.data|
    modifies stream, sub
    ensures stream.Valid() && stream.pos == old(sub.End()) && stream.left == old(stream.left)
  {
    if sub.left != 0 {
      var _, _ := sub.Read(sub.left);
    }
    stream.pos := sub.pos;
  }
}

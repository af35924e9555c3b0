/**
 The integer field codecs of nanopb: C casts between integer widths, zigzag, fixed-width values, and
 the range checks that the field decoders make for fields of 1, 2, 4 and 8 bytes.
 */
module Scalars {
  import opened Basics
  import opened Bits
  import opened Wire

  /** Half the range of an integer of the given number of bytes. */
  function Half(size: nat): (h: int)
    ensures 0 < h <= TWO_TO_63
  {
    if size == 1 then 128 else if size == 2 then 32768 else if size == 4 then TWO_TO_31 else TWO_TO_63
  }

  predicate IntegerSize(size: nat) {
    size == 1 || size == 2 || size == 4 || size == 8
  }

  predicate InSigned(v: int, size: nat) {
    -Half(size) <= v < Half(size)
  }

  predicate InUnsigned(v: int, size: nat) {
    0 <= v < 2 * Half(size)
  }

  /** Cast to a signed integer of the given size: keep the low bits, read as two's complement. */
  function ToSigned(v: int, size: nat): int {
    var low := ToUnsigned(v, size);
    if low < Half(size) then low else low - 2 * Half(size)
  }

  /** Cast to an unsigned integer of the given size: keep the low bits. */
  function ToUnsigned(v: int, size: nat): (u: nat)
    ensures u < 2 * Half(size)
  {
    if size == 1 then v % 0x100
    else if size == 2 then v % 0x1_0000
    else if size == 4 then v % TWO_TO_32
    else v % TWO_TO_64
  }

  //////////////////////////////////////////////////////////////////////////////
  // Zigzag
  //////////////////////////////////////////////////////////////////////////////

  /** Bitwise complement in a 64-bit register. */
  function Not64(v: nat): nat
    requires v < TWO_TO_64
  {
    TWO_TO_64 - 1 - v
  }

  function ZigZag(v: int): nat
    requires InSigned(v, 8)
  {
    var doubled := 2 * ToUnsigned(v, 8) % TWO_TO_64;
    if v < 0 then Not64(doubled) else doubled
  }

  function UnZigZag(n: nat): int
    requires n < TWO_TO_64
  {
    if n % 2 == 1 then ToSigned(Not64(n / 2), 8) else ToSigned(n / 2, 8)
  }

  /** Zigzag interleaves the signs: 0, -1, 1, -2, 2 and so on take the codes 0, 1, 2, 3, 4. */
  lemma ZigZagOrder(v: int)
    requires InSigned(v, 8)
    ensures ZigZag(v) == if v < 0 then -2 * v - 1 else 2 * v
  {
    if v < 0 {
      assert ToUnsigned(v, 8) == v + TWO_TO_64;
    } else {
      assert ToUnsigned(v, 8) == v;
    }
  }

  /** Zigzag is a bijection between the signed and the unsigned 64-bit integers. */
  lemma ZigZagInverse(v: int, n: nat)
    requires InSigned(v, 8) && n < TWO_TO_64
    ensures ZigZag(v) < TWO_TO_64 && UnZigZag(ZigZag(v)) == v
    ensures InSigned(UnZigZag(n), 8) && ZigZag(UnZigZag(n)) == n
  {
    ZigZagOrder(v);
    UnZigZagOrder(n);
    UnZigZagOrder(ZigZag(v));
    ZigZagOrder(UnZigZag(n));
  }

  lemma UnZigZagOrder(n: nat)
    requires n < TWO_TO_64
    ensures InSigned(UnZigZag(n), 8)
    ensures UnZigZag(n) == if n % 2 == 1 then -(n / 2) - 1 else n / 2
  {
    if n % 2 == 1 {
      assert Not64(n / 2) % TWO_TO_64 == Not64(n / 2);
    } else {
      assert n / 2 % TWO_TO_64 == n / 2;
    }
  }

  //////////////////////////////////////////////////////////////////////////////
  // Fixed-width little-endian values
  //////////////////////////////////////////////////////////////////////////////

  function EncFixed(v: nat, n: nat): (s: seq<byte>)
    ensures |s| == n
  {
    if n == 0 then [] else [v % 256] + EncFixed(v / 256, n - 1)
  }

  function FixedValue(s: seq<byte>): nat {
    if s == [] then 0 else s[0] + 256 * FixedValue(s[1..])
  }

  function DecFixed(s: seq<byte>, n: nat): Parse<nat> {
    if |s| < n then Fail else Done(FixedValue(s[..n]), s[n..])
  }

  function Pow256(n: nat): nat {
    if n == 0 then 1 else 256 * Pow256(n - 1)
  }

  lemma {:induction false} FixedValueRange(s: seq<byte>)
    ensures FixedValue(s) < Pow256(|s|)
  {
    if s != [] { FixedValueRange(s[1..]); }
  }

  lemma {:induction false} FixedInverse(v: nat, n: nat)
    requires v < Pow256(n)
    ensures FixedValue(EncFixed(v, n)) == v
  {
    if n != 0 {
      FixedInverse(v / 256, n - 1);
      assert EncFixed(v, n)[1..] == EncFixed(v / 256, n - 1);
    }
  }

  lemma FixedRoundTrip(v: nat, n: nat, t: seq<byte>)
    requires v < Pow256(n)
    ensures DecFixed(EncFixed(v, n) + t, n) == Done(v, t)
  {
    var e := EncFixed(v, n);
    FixedInverse(v, n);
    assert (e + t)[..n] == e && (e + t)[n..] == t;
  }

  lemma Pow256Values()
    ensures Pow256(4) == TWO_TO_32 && Pow256(8) == TWO_TO_64
  {
    assert Pow256(4) == 256 * Pow256(3) == 0x1_0000 * Pow256(2) == 0x100_0000 * Pow256(1);
    assert Pow256(8) == 256 * Pow256(7) == 0x1_0000 * Pow256(6) == 0x100_0000 * Pow256(5);
  }

  //////////////////////////////////////////////////////////////////////////////
  // The varint, uvarint and svarint field codecs
  //////////////////////////////////////////////////////////////////////////////

  /** pb_dec_varint: fields narrower than 64 bits are cast to int32 before the range check. */
  function DecInt(s: seq<byte>, size: nat): Parse<int> {
    match Varint64(s)
    case Fail => Fail
    case Done(n, rest) =>
      var v := ToSigned(n, if size == 8 then 8 else 4);
      if !IntegerSize(size) || ToSigned(v, size) != v then Fail else Done(v, rest)
  }

  function DecUint(s: seq<byte>, size: nat): Parse<int> {
    match Varint64(s)
    case Fail => Fail
    case Done(n, rest) =>
      if !IntegerSize(size) || ToUnsigned(n, size) != n then Fail else Done(n, rest)
  }

  function DecSint(s: seq<byte>, size: nat): Parse<int> {
    match Varint64(s)
    case Fail => Fail
    case Done(n, rest) =>
      var v := UnZigZag(n);
      if !IntegerSize(size) || ToSigned(v, size) != v then Fail else Done(v, rest)
  }

  lemma CastExact(v: int, size: nat)
    ensures ToSigned(v, size) == v <==> InSigned(v, size)
    ensures ToUnsigned(v, size) == v <==> InUnsigned(v, size)
  {
    SignedCastExact(v, size);
    UnsignedCastExact(v, size);
  }

  lemma SignedCastExact(v: int, size: nat)
    ensures ToSigned(v, size) == v <==> InSigned(v, size)
  {}

  lemma UnsignedCastExact(v: int, size: nat)
    ensures ToUnsigned(v, size) == v <==> InUnsigned(v, size)
  {}

  /**
   A field decoder accepts a varint exactly if the number it stands for fits the field; for signed
   fields of less than 64 bits that number is the low half of the varint, read as an int32.
   */
  lemma NarrowDecodeExact(s: seq<byte>, size: nat)
    requires Varint64(s).Done? && IntegerSize(size)
    ensures var Done(n, rest) := Varint64(s);
            && DecUint(s, size) == (if InUnsigned(n, size) then Done(n, rest) else Fail)
            && DecSint(s, size) == (if InSigned(UnZigZag(n), size) then Done(UnZigZag(n), rest) else Fail)
            && DecInt(s, size) == (if size == 8 then Done(ToSigned(n, 8), rest)
                                   else if InSigned(ToSigned(n, 4), size) then Done(ToSigned(n, 4), rest)
                                   else Fail)
  {
    var n := Varint64(s).val;
    CastExact(n, size);
    CastExact(UnZigZag(n), size);
    CastExact(ToSigned(n, 4), size);
    CastExact(ToSigned(n, 8), 8);
  }

  lemma IntRoundTrip(v: int, size: nat, t: seq<byte>)
    requires IntegerSize(size) && InSigned(v, size)
    ensures DecInt(EncVarint(ToUnsigned(v, 8)) + t, size) == Done(v, t)
  {
    var n := ToUnsigned(v, 8);
    VarintRoundTrip(n, t);
    CastTwice(v, if size == 8 then 8 else 4);
    CastExact(v, size);
  }

  /** Sign-extending to 64 bits and casting back returns the value. */
  lemma CastTwice(v: int, size: nat)
    requires (size == 4 || size == 8) && InSigned(v, size)
    ensures ToSigned(ToUnsigned(v, 8), size) == v
  {
    if v < 0 {
      assert ToUnsigned(v, 8) == v + TWO_TO_64;
      assert ToUnsigned(v + TWO_TO_64, size) == v + 2 * Half(size);
    } else {
      assert ToUnsigned(v, 8) == v;
    }
  }

  lemma UintRoundTrip(v: nat, size: nat, t: seq<byte>)
    requires IntegerSize(size) && InUnsigned(v, size)
    ensures DecUint(EncVarint(v) + t, size) == Done(v, t)
  {
    VarintRoundTrip(v, t);
    CastExact(v, size);
  }

  lemma SintRoundTrip(v: int, size: nat, t: seq<byte>)
    requires IntegerSize(size) && InSigned(v, size)
    ensures DecSint(EncVarint(ZigZag(v)) + t, size) == Done(v, t)
  {
    ZigZagInverse(v, 0);
    VarintRoundTrip(ZigZag(v), t);
    CastExact(v, size);
  }
}

/** Readers whose fields have other sizes or types than the writer's, and the bytes of some known messages. */
module Compatibility {
  import opened Basics
  import opened Bits
  import opened Wire
  import opened Scalars
  import opened Schema
  import opened EncodeSpec
  import opened DecodeSpec
  import opened RoundTrip
  import opened Overlay

  //////////////////////////////////////////////////////////////////////////////
  // Integers
  //////////////////////////////////////////////////////////////////////////////

  /**
   A reader whose field is as wide as the writer's or wider gets the same number: a signed value is on the
   wire with the sign extended to 64 bits.
   */
  lemma WiderReader(f: Field, v: Value, size: nat, t: seq<byte>)
    requires IntegerSize(f.dataSize) && IntegerSize(size) && f.dataSize <= size && TypedValue(f, v)
    ensures f.ltype.LVarint? ==> DecInt(EncValue(f, v).out + t, size) == Done(v.n, t)
    ensures f.ltype.LUVarint? ==> DecUint(EncValue(f, v).out + t, size) == Done(v.n, t)
    ensures f.ltype.LSVarint? ==> DecSint(EncValue(f, v).out + t, size) == Done(v.n, t)
  {
    match f.ltype
    case LVarint => IntRoundTrip(v.n, size, t);
    case LUVarint => UintRoundTrip(v.n, size, t);
    case LSVarint => SintRoundTrip(v.n, size, t);
    case _ =>
  }

  /** A narrower reader gets the number if it fits; of a plain signed one, it looks at the low 32 bits. */
  lemma NarrowerReader(f: Field, v: Value, size: nat, t: seq<byte>)
    requires IntegerSize(f.dataSize) && IntegerSize(size) && size < f.dataSize && TypedValue(f, v)
    ensures f.ltype.LVarint? ==>
              var low := (v.n + TWO_TO_31) % TWO_TO_32 - TWO_TO_31;
              DecInt(EncValue(f, v).out + t, size) == if InSigned(low, size) then Done(low, t) else Fail
    ensures f.ltype.LUVarint? ==>
              DecUint(EncValue(f, v).out + t, size) == if InUnsigned(v.n, size) then Done(v.n, t) else Fail
    ensures f.ltype.LSVarint? ==>
              DecSint(EncValue(f, v).out + t, size) == if InSigned(v.n, size) then Done(v.n, t) else Fail
  {
    match f.ltype
    case LVarint => LowHalf(v.n); NarrowedVarint(ToUnsigned(v.n, 8), size, t);
    case LUVarint => NarrowedVarint(v.n, size, t);
    case LSVarint => ZigZagInverse(v.n, 0); NarrowedVarint(ZigZag(v.n), size, t);
    case _ =>
  }

  lemma NarrowedVarint(n: nat, size: nat, t: seq<byte>)
    requires n < TWO_TO_64 && IntegerSize(size) && size < 8
    ensures var s := EncVarint(n) + t;
            && DecUint(s, size) == (if InUnsigned(n, size) then Done(n, t) else Fail)
            && DecSint(s, size) == (if InSigned(UnZigZag(n), size) then Done(UnZigZag(n), t) else Fail)
            && DecInt(s, size) == (if InSigned(ToSigned(n, 4), size) then Done(ToSigned(n, 4), t) else Fail)
  {
    VarintRoundTrip(n, t);
    NarrowDecodeExact(EncVarint(n) + t, size);
  }

  /** The low 32 bits of a number, as an int32. */
  lemma LowHalf(n: int)
    requires InSigned(n, 8)
    ensures ToSigned(ToUnsigned(n, 8), 4) == (n + TWO_TO_31) % TWO_TO_32 - TWO_TO_31
  {
    var u := ToUnsigned(n, 8);
    assert u == n || u == n + TWO_TO_64;
    var q, low := u / TWO_TO_32, u % TWO_TO_32;
    assert u == q * TWO_TO_32 + low;
    Wrapped(q, low);
    if u != n { Wrapped(q - TWO_TO_32, low); }
  }

  lemma Wrapped(q: int, low: nat)
    requires low < TWO_TO_32
    ensures (q * TWO_TO_32 + low + TWO_TO_31) % TWO_TO_32
         == if low < TWO_TO_31 then low + TWO_TO_31 else low - TWO_TO_31
  {
    var r := if low < TWO_TO_31 then low + TWO_TO_31 else low - TWO_TO_31;
    var k := if low < TWO_TO_31 then q else q + 1;
    assert q * TWO_TO_32 + low + TWO_TO_31 == k * TWO_TO_32 + r;
  }

  /** A reader that takes an integer of up to 32 bits for a bool gets true exactly if it is not zero. */
  lemma BoolReadsInteger(f: Field, v: Value, b: Field, t: seq<byte>)
    requires b.ltype.LBool? && (f.ltype.LBool? || f.ltype.LVarint? || f.ltype.LUVarint?) && TypedValue(f, v)
    requires IntegerSize(f.dataSize) && 0 <= v.n + TWO_TO_31 && v.n < TWO_TO_32
    ensures DecNum(b, EncValue(f, v).out + t) == Done(Num(if v.n != 0 then 1 else 0), t)
  {
    if f.ltype.LBool? {
      Varint32RoundTrip(if v.n != 0 then 1 else 0, t);
    } else if v.n < 0 {
      NegativeUnsigned(v.n);
      Varint32AcceptsNegative(ToUnsigned(v.n, 8), t);
    } else {
      Small64(v.n);
      Varint32RoundTrip(v.n, t);
    }
  }

  lemma NegativeUnsigned(n: int)
    requires 0 <= n + TWO_TO_31 && n < 0
    ensures ToUnsigned(n, 8) == n + TWO_TO_64 && (n + TWO_TO_64) % TWO_TO_32 == n + TWO_TO_32
  {
    assert (n + TWO_TO_64) - (n + TWO_TO_32) == TWO_TO_32 * (TWO_TO_32 - 1);
  }

  //////////////////////////////////////////////////////////////////////////////
  // Byte strings and strings
  //////////////////////////////////////////////////////////////////////////////

  /** A reader with a buffer of another size accepts byte strings exactly if they fit, and gets all of their bytes. */
  lemma OtherBytes(f: Field, v: Value, r: Field, held: Value, t: seq<byte>)
    requires f.ltype.LBytes? && r.ltype.LBytes? && TypedValue(r, held) && Written(f, v)
    ensures var w := DecBytes(r, EncValue(f, v).out + t, held.buf);
            && (w.Done? <==> v.len <= |held.buf|)
            && (w.Done? ==> w.rest == t && w.val == Bytes(v.len, v.buf[..v.len] + held.buf[v.len..]))
  {
    DelimitedRoundTrip(v.buf[..v.len], t);
  }

  /** Strings, too, if they fit with a terminator; and what the reader gets ends there. */
  lemma OtherText(f: Field, v: Value, r: Field, held: Value, t: seq<byte>)
    requires f.ltype.LString? && r.ltype.LString? && TypedValue(r, held) && Written(f, v)
    ensures var w := DecText(r, EncValue(f, v).out + t, held.buf);
            && (w.Done? <==> |CString(v.buf)| < |held.buf|)
            && (w.Done? ==> w.rest == t && w.val.Text? && |w.val.buf| == |held.buf|)
            && (w.Done? ==> CString(w.val.buf) == CString(v.buf))
  {
    var c := CString(v.buf);
    CStringEnds(v.buf);
    DelimitedRoundTrip(c, t);
    if |c| < |held.buf| { CStringOf(c, held.buf[|c| + 1..]); }
  }

  /** Bytes of fixed length must have the reader's length, or be none at all, which stands for zeros. */
  lemma OtherInline(f: Field, v: Value, r: Field, t: seq<byte>)
    requires f.ltype.LFixedLengthBytes? && r.ltype.LFixedLengthBytes? && Written(f, v)
    ensures var w := DecInline(r, EncValue(f, v).out + t);
            && (w.Done? <==> f.dataSize == 0 || f.dataSize == r.dataSize)
            && (w.Done? ==> w.rest == t && w.val == if f.dataSize == 0 then Inline(ZeroBytes(r.dataSize)) else v)
  {
    DelimitedRoundTrip(v.buf, t);
    if f.dataSize == 0 { assert v.buf + t == t; }
  }

  /** A packed array is on the wire what a byte string is that consists of the encoded items. */
  lemma PackedIsBytes(f: Field, s: Slot, b: Field)
    requires f.htype.Repeated? && f.ltype.Packable() && TypedSlot(f, s) && 0 < s.size <= f.arraySize
    requires EncItems(f, s.data[..s.size]).ok && |EncItems(f, s.data[..s.size]).out| < TWO_TO_32
    requires b.ltype.LBytes? && b.tag == f.tag && b.dataSize == |EncItems(f, s.data[..s.size]).out| + BYTES_HEADER
    ensures var body := EncItems(f, s.data[..s.size]).out;
            TypedValue(b, Bytes(|body|, body)) && EncArray(f, s) == EncRecord(b, Bytes(|body|, body))
  {
    var body := EncItems(f, s.data[..s.size]).out;
    assert body[..|body|] == body;
  }

  //////////////////////////////////////////////////////////////////////////////
  // Known messages
  //////////////////////////////////////////////////////////////////////////////

  function Scalar(tag: nat, ltype: LType, size: nat): Field {
    Field(tag, ltype, Required, size, 0, 0, Num(0), [])
  }

  /** The key is eight times the field number plus the wire type; the value follows, with its low seven bits first. */
  lemma KnownVarints()
    ensures EncRecord(Scalar(1, LVarint, 4), Num(150)).out == [0x08, 0x96, 0x01]
    ensures EncRecord(Scalar(2, LUVarint, 4), Num(300)).out == [0x10, 0xAC, 0x02]
  {
    assert EncVarint(150) == [0x96, 0x01] && EncVarint(300) == [0xAC, 0x02];
  }

  lemma KnownSmallVarints()
    ensures EncRecord(Scalar(1, LBool, 1), Num(1)).out == [0x08, 0x01]
    ensures EncRecord(Scalar(3, LSVarint, 8), Num(-2)).out == [0x18, 0x03]
  {
    ZigZagOrder(-2);
  }

  /** Minus one has all 64 bits set, also in a field of 32 bits. */
  lemma KnownNegative()
    ensures EncRecord(Scalar(1, LVarint, 4), Num(-1)).out == [0x08] + (seq(9, _ => 0xFF) + [0x01])
  {
    MinusOne();
    AllOnes(9);
    NegativeRecord(seq(9, _ => 0xFF) + [0x01]);
  }

  lemma MinusOne()
    ensures ToUnsigned(-1, 8) == Ones(9)
  {
    OnesValue();
  }

  lemma NegativeRecord(s: seq<byte>)
    requires s == EncVarint(ToUnsigned(-1, 8))
    ensures EncRecord(Scalar(1, LVarint, 4), Num(-1)).out == [0x08] + s
  {
    assert EncVarint(8) == [8];
  }

  /** A number of seven bits for each k, and one more bit. */
  function Ones(k: nat): nat {
    if k == 0 then 1 else 128 * Ones(k - 1) + 127
  }

  lemma {:induction false} AllOnes(k: nat)
    ensures EncVarint(Ones(k)) == seq(k, _ => 0xFF) + [0x01]
  {
    if k != 0 {
      AllOnes(k - 1);
      assert seq(k, _ => 0xFF) == [0xFF] + seq(k - 1, _ => 0xFF);
    }
  }

  lemma OnesValue()
    ensures Ones(9) == TWO_TO_64 - 1
  {
    assert Ones(3) == 0x3F_FFFF;
    assert Ones(6) == 0x20_0000 * Ones(3) + 0x1F_FFFF;
    assert Ones(9) == 0x20_0000 * Ones(6) + 0x1F_FFFF;
  }

  /** Fixed-width values have their lowest byte first. */
  lemma KnownFixed()
    ensures EncRecord(Scalar(5, LFixed32, 4), Num(0x0403_0201)).out == [0x2D, 1, 2, 3, 4]
    ensures EncTag(6, WireType(LFixed64)) == [0x31]
  {
    assert EncFixed(0x0403, 2) == [3, 4];
    assert EncFixed(0x04_0302, 3) == [2] + EncFixed(0x0403, 2);
  }
}

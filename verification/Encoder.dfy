/** The encoder of pb_encode.c: it walks a descriptor and writes each field to a stream. */
module Encoder {
  import opened Basics
  import opened Bits
  import opened Wire
  import opened Scalars
  import opened Schema
  import opened EncodeSpec
  import opened EncodeSize
  import opened FieldIterator
  import opened OutputStream

  //////////////////////////////////////////////////////////////////////////////
  // Scalars
  //////////////////////////////////////////////////////////////////////////////

  /** pb_encode_varint: the ten-byte buffer is large enough for every 64-bit value. */
  method EncodeVarint(stream: OStream, value: nat) returns (ok: bool)
    requires stream.Valid() && value < TWO_TO_64
    modifies stream, stream.buf
    ensures stream.Valid()
    ensures Emitted(old(stream.State()), Enc(true, EncVarint(value)), ok, stream.State())
  {
    if value <= 0x7F {
      ok := stream.Write([value], 1);
    } else {
      var buffer, i := FillBuffer(value);
      ok := stream.Write(buffer[..i], i);
    }
  }

  lemma GroupWritten(value: nat, front: seq<byte>, v: nat)
    requires v != 0 && EncVarint(value) == front + EncVarint(v)
    ensures |front| < |EncVarint(value)|
    ensures v / 128 != 0 ==> EncVarint(value) == front + [v % 128 + 128] + EncVarint(v / 128)
    ensures v / 128 == 0 ==> EncVarint(value) == front + [v % 128]
  {
    EncFront(v, []);
  }

  /** The loop of pb_encode_varint: the ten-byte buffer is large enough for every 64-bit value. */
  method FillBuffer(value: nat) returns (buffer: array<byte>, i: nat)
    requires 0 < value < TWO_TO_64
    ensures fresh(buffer) && i <= buffer.Length == 10
    ensures buffer[..i] == EncVarint(value)
  {
    buffer := new byte[10];
    i := 0;
    var v := value;
    EncVarintFits(value);
    while v != 0
      invariant i <= 10 && (v == 0 ==> 0 < i)
      invariant v != 0 ==> EncVarint(value) == buffer[..i] + EncVarint(v)
      invariant v == 0 ==> EncVarint(value) == buffer[..i - 1] + [buffer[i - 1] % 128]
    {
      ghost var before := buffer[..i];
      GroupWritten(value, before, v);
      buffer[i] := v % 128 + 128;
      assert buffer[..i] == before && buffer[..i + 1] == before + [buffer[i]];
      v := v / 128;
      i := i + 1;
    }
    ghost var front := buffer[..i - 1];
    buffer[i - 1] := buffer[i - 1] % 128;
    assert buffer[..i] == front + [buffer[i - 1]];
  }

  /** pb_encode_svarint */
  method EncodeSvarint(stream: OStream, value: int) returns (ok: bool)
    requires stream.Valid() && InSigned(value, 8)
    modifies stream, stream.buf
    ensures stream.Valid()
    ensures Emitted(old(stream.State()), Enc(true, EncVarint(ZigZag(value))), ok, stream.State())
  {
    ZigZagInverse(value, 0);
    ok := EncodeVarint(stream, ZigZag(value));
  }

  /** pb_encode_fixed32 */
  method EncodeFixed32(stream: OStream, value: nat) returns (ok: bool)
    requires stream.Valid() && value < TWO_TO_32
    modifies stream, stream.buf
    ensures stream.Valid()
    ensures Emitted(old(stream.State()), Enc(true, EncFixed(value, 4)), ok, stream.State())
  {
    FixedBytes4(value);
    ok := stream.Write([value % 256, value / 0x100 % 256, value / 0x1_0000 % 256, value / 0x100_0000 % 256], 4);
  }

  lemma FixedBytes4(v: nat)
    ensures EncFixed(v, 4) == [v % 256, v / 0x100 % 256, v / 0x1_0000 % 256, v / 0x100_0000 % 256]
  {
    assert EncFixed(v, 4) == [v % 256] + EncFixed(v / 0x100, 3);
    assert EncFixed(v / 0x100, 3) == [v / 0x100 % 256] + EncFixed(v / 0x1_0000, 2);
    assert EncFixed(v / 0x1_0000, 2) == [v / 0x1_0000 % 256] + EncFixed(v / 0x100_0000, 1);
  }

  /** pb_encode_fixed64 */
  method EncodeFixed64(stream: OStream, value: nat) returns (ok: bool)
    requires stream.Valid() && value < TWO_TO_64
    modifies stream, stream.buf
    ensures stream.Valid()
    ensures Emitted(old(stream.State()), Enc(true, EncFixed(value, 8)), ok, stream.State())
  {
    var high := value / TWO_TO_32;
    FixedBytes4(value);
    FixedBytes4(high);
    FixedHalves(value);
    ok := stream.Write([value % 256, value / 0x100 % 256, value / 0x1_0000 % 256, value / 0x100_0000 % 256,
                        high % 256, high / 0x100 % 256, high / 0x1_0000 % 256, high / 0x100_0000 % 256], 8);
  }

  lemma FixedHalves(v: nat)
    ensures EncFixed(v, 8) == EncFixed(v, 4) + EncFixed(v / TWO_TO_32, 4)
  {
    FixedSplit(v, 8, 4);
    assert Div256(v, 4) == Div256(v / 0x100, 3) == Div256(v / 0x100 / 0x100, 2);
    assert Div256(v / 0x100 / 0x100, 2) == Div256(v / 0x100 / 0x100 / 0x100, 1);
    assert v / 0x100 / 0x100 / 0x100 / 0x100 == v / TWO_TO_32;
  }

  function Div256(v: nat, n: nat): nat {
    if n == 0 then v else Div256(v / 0x100, n - 1)
  }

  lemma {:induction false} FixedSplit(v: nat, m: nat, n: nat)
    requires n <= m
    ensures EncFixed(v, m) == EncFixed(v, n) + EncFixed(Div256(v, n), m - n)
  {
    if n != 0 {
      FixedSplit(v / 0x100, m - 1, n - 1);
    } else {
      assert EncFixed(v, 0) == [];
    }
  }

  /** pb_encode_tag */
  method EncodeTag(stream: OStream, wireType: nat, tag: nat) returns (ok: bool)
    requires stream.Valid() && tag < 0x2000_0000 && wireType < 8
    modifies stream, stream.buf
    ensures stream.Valid()
    ensures Emitted(old(stream.State()), Enc(true, EncTag(tag, wireType)), ok, stream.State())
  {
    ok := EncodeVarint(stream, 8 * tag + wireType);
  }

  /** pb_encode_string */
  method EncodeString(stream: OStream, data: seq<byte>) returns (ok: bool)
    requires stream.Valid() && |data| < TWO_TO_64
    modifies stream, stream.buf
    ensures stream.Valid()
    ensures Emitted(old(stream.State()), Enc(true, Delimited(data)), ok, stream.State())
  {
    ghost var a := stream.State();
    ok := EncodeVarint(stream, |data|);
    ghost var b := stream.State();
    if !ok {
      EmittedFailure(a, Enc(true, EncVarint(|data|)), b, Enc(true, data));
      return;
    }
    ok := stream.Write(data, |data|);
    EmittedThen(a, Enc(true, EncVarint(|data|)), b, Enc(true, data), ok, stream.State());
  }

  /** pb_encode_tag_for_field */
  method EncodeTagForField(stream: OStream, f: Field) returns (ok: bool)
    requires stream.Valid() && ValidField(f)
    modifies stream, stream.buf
    ensures stream.Valid()
    ensures Emitted(old(stream.State()), Enc(true, EncTag(f.tag, WireType(f.ltype))), ok, stream.State())
  {
    ok := EncodeTag(stream, WireType(f.ltype), f.tag);
  }

  lemma NextCharacter(buf: seq<byte>, k: nat)
    requires k < |buf| && buf[k] != 0 && CString(buf) == buf[..k] + CString(buf[k..])
    ensures CString(buf) == buf[..k + 1] + CString(buf[k + 1..])
  {
    assert buf[k..][1..] == buf[k + 1..];
    Regroup(buf[..k], buf[k], CString(buf[k + 1..]));
    assert buf[..k + 1] == buf[..k] + [buf[k]];
  }

  lemma Regroup(a: seq<byte>, x: byte, b: seq<byte>)
    ensures a + ([x] + b) == a + [x] + b
  {}

  /** The length of the string in a buffer (the loop of pb_enc_string). */
  method StringLength(buf: seq<byte>) returns (size: nat)
    ensures size <= |buf| && buf[..size] == CString(buf)
  {
    size := 0;
    while size < |buf| && buf[size] != 0
      invariant size <= |buf|
      invariant CString(buf) == buf[..size] + CString(buf[size..])
    {
      NextCharacter(buf, size);
      size := size + 1;
    }
  }

  //////////////////////////////////////////////////////////////////////////////
  // Values
  //////////////////////////////////////////////////////////////////////////////

  /** The varint encoders of integer fields, which refuse field sizes other than 1, 2, 4 and 8. */
  method EncodeInteger(stream: OStream, size: nat, value: nat) returns (ok: bool)
    requires stream.Valid() && value < TWO_TO_64
    modifies stream, stream.buf
    ensures stream.Valid()
    ensures Emitted(old(stream.State()), IntegerEnc(size, value), ok, stream.State())
  {
    if size != 1 && size != 2 && size != 4 && size != 8 { return false; }
    ok := EncodeVarint(stream, value);
  }

  /** pb_enc_bytes, pb_enc_string and pb_enc_fixed_length_bytes */
  method EncodeBuffer(stream: OStream, f: Field, v: Value) returns (ok: bool)
    requires stream.Valid() && ValidField(f) && TypedValue(f, v) && !f.ltype.Packable() && !f.ltype.LSubmessage?
    modifies stream, stream.buf
    ensures stream.Valid()
    ensures Emitted(old(stream.State()), EncValue(f, v), ok, stream.State())
  {
    match f.ltype
    case LBytes =>
      if f.dataSize < v.len + BYTES_HEADER { return false; }
      ok := EncodeString(stream, v.buf[..v.len]);
    case LString =>
      var size := StringLength(v.buf);
      ok := EncodeString(stream, v.buf[..size]);
    case LFixedLengthBytes => ok := EncodeString(stream, v.buf);
  }

  /** The PB_ENCODERS table. */
  method EncodeValue(stream: OStream, f: Field, v: Value) returns (ok: bool)
    requires stream.Valid() && ValidField(f) && TypedValue(f, v) && MaxValue(f) < TWO_TO_64
    modifies stream, stream.buf
    ensures stream.Valid()
    ensures Emitted(old(stream.State()), EncValue(f, v), ok, stream.State())
    decreases f, 0
  {
    match f.ltype
    case LBool => ok := EncodeVarint(stream, if v.n != 0 then 1 else 0);
    case LVarint => ok := EncodeInteger(stream, f.dataSize, ToUnsigned(v.n, 8));
    case LUVarint => ok := EncodeInteger(stream, f.dataSize, v.n);
    case LSVarint =>
      if !IntegerSize(f.dataSize) { return false; }
      ok := EncodeSvarint(stream, v.n);
    case LFixed32 => ok := EncodeFixed32(stream, v.n);
    case LFixed64 => ok := EncodeFixed64(stream, v.n);
    case LSubmessage => ok := EncodeSubmessage(stream, f.sub, v.msg);
    case _ => ok := EncodeBuffer(stream, f, v);
  }

  /**
   pb_encode_submessage: a sizing pass, the length, and a pass that writes. Both passes produce the
   same number of bytes, so the final comparison never fails.
   */
  method EncodeSubmessage(stream: OStream, fields: seq<Field>, m: Msg) returns (ok: bool)
    requires stream.Valid() && ValidFields(fields) && TypedMsg(fields, m) && MaxSize(fields) < TWO_TO_64
    modifies stream, stream.buf
    ensures stream.Valid()
    ensures Emitted(old(stream.State()), DelimitedEnc(EncMsg(fields, m)), ok, stream.State())
    decreases fields, 3
  {
    ghost var a := stream.State();
    ghost var e := EncMsg(fields, m);
    var sizer := new OStream.Sizing();
    ok := PbEncode(sizer, fields, m);
    if !ok { return; }
    var size := sizer.written;
    EncodedSizeBound(fields, m);
    ok := EncodeVarint(stream, size);
    ghost var b := stream.State();
    if !ok {
      EmittedFailure(a, Enc(true, EncVarint(size)), b, e);
      return;
    }
    ok := EncodeMeasured(stream, fields, m, size);
    EmittedThen(a, Enc(true, EncVarint(size)), b, e, ok, stream.State());
  }

  /** The pass of pb_encode_submessage that writes, through a substream of the size that was announced. */
  method EncodeMeasured(stream: OStream, fields: seq<Field>, m: Msg, size: nat) returns (ok: bool)
    requires stream.Valid() && ValidFields(fields) && TypedMsg(fields, m) && MaxSize(fields) < TWO_TO_64
    requires EncMsg(fields, m).ok && size == |EncMsg(fields, m).out|
    requires stream.buf == null || stream.written <= stream.maxSize
    modifies stream, stream.buf
    ensures stream.Valid()
    ensures Emitted(old(stream.State()), EncMsg(fields, m), ok, stream.State())
    decreases fields, 2
  {
    if stream.buf == null {
      ok := stream.Write([], size);
      return;
    }
    if stream.written + size > stream.maxSize { return false; }
    var substream := new OStream.FromBuffer(stream.buf, stream.pos, size);
    ok := PbEncode(substream, fields, m);
    assert ok && substream.written == size;
    stream.written := stream.written + substream.written;
    stream.pos := substream.pos;
    ok := substream.written == size && ok;
  }

  /** A tag and a value. */
  method EncodeRecord(stream: OStream, f: Field, v: Value) returns (ok: bool)
    requires stream.Valid() && ValidField(f) && TypedValue(f, v) && MaxValue(f) < TWO_TO_64
    modifies stream, stream.buf
    ensures stream.Valid()
    ensures Emitted(old(stream.State()), EncRecord(f, v), ok, stream.State())
    decreases f, 1
  {
    ghost var a := stream.State();
    ghost var tag := Enc(true, EncTag(f.tag, WireType(f.ltype)));
    ok := EncodeTagForField(stream, f);
    ghost var b := stream.State();
    if !ok {
      EmittedFailure(a, tag, b, EncValue(f, v));
      return;
    }
    ok := EncodeValue(stream, f, v);
    EmittedThen(a, tag, b, EncValue(f, v), ok, stream.State());
  }

  //////////////////////////////////////////////////////////////////////////////
  // Arrays
  //////////////////////////////////////////////////////////////////////////////

  /** The loops of encode_array over the items of a packed array. */
  method EncodeItems(stream: OStream, f: Field, items: seq<Value>) returns (ok: bool)
    requires stream.Valid() && ValidField(f) && MaxValue(f) < TWO_TO_64
    requires forall k :: 0 <= k < |items| ==> TypedValue(f, items[k])
    modifies stream, stream.buf
    ensures stream.Valid()
    ensures Emitted(old(stream.State()), EncItems(f, items), ok, stream.State())
    decreases f, 2
  {
    ghost var a := stream.State();
    ghost var done := NOTHING;
    for i := 0 to |items|
      invariant stream.Valid() && Emitted(a, done, true, stream.State())
      invariant Then(done, EncItems(f, items[i..])) == EncItems(f, items)
    {
      ghost var b := stream.State();
      ghost var e, tail := EncValue(f, items[i]), EncItems(f, items[i + 1..]);
      assert EncItems(f, items[i..]) == Then(e, tail);
      ThenAssociative(done, e, tail);
      ok := EncodeValue(stream, f, items[i]);
      EmittedThen(a, done, b, e, ok, stream.State());
      done := Then(done, e);
      if !ok {
        EmittedFailure(a, done, stream.State(), tail);
        return;
      }
    }
    ThenNothing(done);
    return true;
  }

  /** The loop of encode_array over items that each get a record. */
  method EncodeRecords(stream: OStream, f: Field, items: seq<Value>) returns (ok: bool)
    requires stream.Valid() && ValidField(f) && MaxValue(f) < TWO_TO_64
    requires forall k :: 0 <= k < |items| ==> TypedValue(f, items[k])
    modifies stream, stream.buf
    ensures stream.Valid()
    ensures Emitted(old(stream.State()), EncRecords(f, items), ok, stream.State())
    decreases f, 2
  {
    ghost var a := stream.State();
    ghost var done := NOTHING;
    for i := 0 to |items|
      invariant stream.Valid() && Emitted(a, done, true, stream.State())
      invariant Then(done, EncRecords(f, items[i..])) == EncRecords(f, items)
    {
      ghost var b := stream.State();
      ghost var e, tail := EncRecord(f, items[i]), EncRecords(f, items[i + 1..]);
      assert EncRecords(f, items[i..]) == Then(e, tail);
      ThenAssociative(done, e, tail);
      ok := EncodeRecord(stream, f, items[i]);
      EmittedThen(a, done, b, e, ok, stream.State());
      done := Then(done, e);
      if !ok {
        EmittedFailure(a, done, stream.State(), tail);
        return;
      }
    }
    ThenNothing(done);
    return true;
  }

  /** The packed branch of encode_array: the tag, the total size of the items, and the items. */
  method EncodePacked(stream: OStream, f: Field, items: seq<Value>) returns (ok: bool)
    requires stream.Valid() && ValidField(f) && f.ltype.Packable() && |items| < TWO_TO_32
    requires forall k :: 0 <= k < |items| ==> TypedValue(f, items[k])
    modifies stream, stream.buf
    ensures stream.Valid()
    ensures Emitted(old(stream.State()),
              Then(Enc(true, EncTag(f.tag, WT_STRING)), DelimitedEnc(EncItems(f, items))), ok, stream.State())
    decreases f, 4
  {
    ghost var a := stream.State();
    ghost var tag := Enc(true, EncTag(f.tag, WT_STRING));
    ghost var e := DelimitedEnc(EncItems(f, items));
    ok := EncodeTag(stream, WT_STRING, f.tag);
    ghost var b := stream.State();
    if !ok {
      EmittedFailure(a, tag, b, e);
      return;
    }
    var measured, size := PackedItemsSize(f, items);
    ok := measured;
    if ok { ok := EncodePackedItems(stream, f, items, size); }
    EmittedThen(a, tag, b, e, ok, stream.State());
  }

  /** The total size of the items of a packed array: known for fixed types, measured otherwise. */
  method PackedItemsSize(f: Field, items: seq<Value>) returns (ok: bool, size: nat)
    requires ValidField(f) && f.ltype.Packable() && |items| < TWO_TO_32
    requires forall k :: 0 <= k < |items| ==> TypedValue(f, items[k])
    ensures ok <==> EncItems(f, items).ok
    ensures ok ==> size == |EncItems(f, items).out|
    decreases f, 3
  {
    FixedItems(f, items);
    if f.ltype.LFixed32? { return true, 4 * |items|; }
    if f.ltype.LFixed64? { return true, 8 * |items|; }
    var sizer := new OStream.Sizing();
    ok := EncodeItems(sizer, f, items);
    size := sizer.written;
  }

  /** The size and, unless the stream only counts, the items themselves. */
  method EncodePackedItems(stream: OStream, f: Field, items: seq<Value>, size: nat) returns (ok: bool)
    requires stream.Valid() && ValidField(f) && f.ltype.Packable() && |items| < TWO_TO_32
    requires forall k :: 0 <= k < |items| ==> TypedValue(f, items[k])
    requires EncItems(f, items).ok && size == |EncItems(f, items).out|
    modifies stream, stream.buf
    ensures stream.Valid()
    ensures Emitted(old(stream.State()), DelimitedEnc(EncItems(f, items)), ok, stream.State())
    decreases f, 3
  {
    ghost var a, e, len := stream.State(), EncItems(f, items), Enc(true, EncVarint(size));
    ItemsSize(f, items);
    ok := EncodeVarint(stream, size);
    ghost var b := stream.State();
    if !ok {
      EmittedFailure(a, len, b, e);
      return;
    }
    if stream.buf == null {
      ok := stream.Write([], size);
    } else {
      ok := EncodeItems(stream, f, items);
    }
    EmittedThen(a, len, b, e, ok, stream.State());
  }

  lemma {:induction false} FixedItems(f: Field, items: seq<Value>)
    requires forall k :: 0 <= k < |items| ==> TypedValue(f, items[k])
    ensures f.ltype.LFixed32? ==> EncItems(f, items).ok && |EncItems(f, items).out| == 4 * |items|
    ensures f.ltype.LFixed64? ==> EncItems(f, items).ok && |EncItems(f, items).out| == 8 * |items|
  {
    if items != [] { FixedItems(f, items[1..]); }
  }

  /** encode_array */
  method EncodeArray(stream: OStream, f: Field, s: Slot) returns (ok: bool)
    requires stream.Valid() && ValidField(f) && MaxField(f) < TWO_TO_64
    requires f.htype.Repeated? && TypedSlot(f, s)
    modifies stream, stream.buf
    ensures stream.Valid()
    ensures Emitted(old(stream.State()), EncArray(f, s), ok, stream.State())
    decreases f, 5
  {
    if s.size == 0 { return true; }
    if s.size > f.arraySize { return false; }
    MaxValueOfField(f);
    if f.ltype.Packable() {
      ok := EncodePacked(stream, f, s.data[..s.size]);
    } else {
      ok := EncodeRecords(stream, f, s.data[..s.size]);
    }
  }

  //////////////////////////////////////////////////////////////////////////////
  // Fields and messages
  //////////////////////////////////////////////////////////////////////////////

  /** pb_check_proto3_default_value */
  method CheckDefault(f: Field, m: Msg, s: Slot) returns (isDefault: bool)
    requires TypedSlot(f, s)
    ensures isDefault <==> IsDefault(f, m, s)
    decreases f
  {
    match f.htype
    case Required => return false;
    case Optional => return s.size == 0;
    case Repeated => return s.size == 0;
    case Oneof => return m.Which(f.union) == 0;
    case Singular =>
      var v := s.data[0];
      assert TypedValue(f, v);
      match f.ltype
      case LBytes => return v.len == 0;
      case LString => return v.buf != [] && v.buf[0] == 0;
      case LFixedLengthBytes => return f.dataSize == 0;
      case LSubmessage => isDefault := CheckAllDefault(f.sub, v.msg);
      case _ => return v.n == 0;
  }

  /** Its loop over the fields of a submessage. */
  method CheckAllDefault(fields: seq<Field>, m: Msg) returns (isDefault: bool)
    requires TypedMsg(fields, m)
    ensures isDefault <==> AllDefault(fields, m)
    decreases fields
  {
    var iter := new FieldIter(fields);
    if fields == [] { return true; }
    while true
      invariant iter.Valid() && iter.fields == fields
      invariant forall j :: 0 <= j < iter.pos ==> IsDefault(fields[j], m, m.slots[j])
      decreases |fields| - iter.pos
    {
      var i := iter.pos;
      var ok := CheckDefault(fields[i], m, m.slots[i]);
      if !ok { return false; }
      var more := iter.Next();
      if !more { return true; }
    }
  }

  /** encode_basic_field */
  method EncodeField(stream: OStream, f: Field, m: Msg, s: Slot) returns (ok: bool)
    requires stream.Valid() && ValidField(f) && MaxField(f) < TWO_TO_64 && TypedSlot(f, s)
    modifies stream, stream.buf
    ensures stream.Valid()
    ensures Emitted(old(stream.State()), EncField(f, m, s), ok, stream.State())
    decreases f, 6
  {
    ok := true;
    match f.htype
    case Required => ok := EncodeRecord(stream, f, s.data[0]);
    case Optional => if s.size != 0 { ok := EncodeRecord(stream, f, s.data[0]); }
    case Singular =>
      var isDefault := CheckDefault(f, m, s);
      if !isDefault { ok := EncodeRecord(stream, f, s.data[0]); }
    case Repeated => ok := EncodeArray(stream, f, s);
    case Oneof => if m.Which(f.union) == f.tag { ok := EncodeRecord(stream, f, s.data[0]); }
  }

  /** pb_encode */
  method PbEncode(stream: OStream, fields: seq<Field>, m: Msg) returns (ok: bool)
    requires stream.Valid() && ValidFields(fields) && TypedMsg(fields, m) && MaxSize(fields) < TWO_TO_64
    modifies stream, stream.buf
    ensures stream.Valid()
    ensures Emitted(old(stream.State()), EncMsg(fields, m), ok, stream.State())
    decreases fields, 1
  {
    var iter := new FieldIter(fields);
    if fields == [] { return true; }
    ok := EncodeAll(stream, iter, m);
  }

  /** The loop of pb_encode. */
  method EncodeAll(stream: OStream, iter: FieldIter, m: Msg) returns (ok: bool)
    requires stream.Valid() && iter.Valid() && iter.fields != [] && iter.pos == 0
    requires ValidFields(iter.fields) && TypedMsg(iter.fields, m) && MaxSize(iter.fields) < TWO_TO_64
    requires {iter} !! {stream, stream.buf}
    modifies stream, stream.buf, iter
    ensures stream.Valid()
    ensures Emitted(old(stream.State()), EncMsg(iter.fields, m), ok, stream.State())
    decreases iter.fields, 0, 1
  {
    ghost var fields, a, done := iter.fields, stream.State(), NOTHING;
    ThenNothing(EncMsg(fields, m));
    var more := true;
    ok := true;
    while more
      invariant iter.Valid() && stream.Valid() && Emitted(a, done, ok, stream.State())
      invariant if more then ok && Then(done, EncFrom(fields, m, iter.pos)) == EncMsg(fields, m)
                else done == EncMsg(fields, m)
      decreases more, |fields| - iter.pos
    {
      MaxFromAtLeast(fields, 0, iter.pos);
      ok, done := EncodeNext(stream, iter.fields, m, iter.pos, a, done);
      more := false;
      if ok {
        more := iter.Next();
        if !more { ThenNothing(done); }
      }
    }
  }

  /** One round of pb_encode: the field at position i is written behind what is done. */
  method EncodeNext(stream: OStream, fields: seq<Field>, m: Msg, i: nat, ghost a: StreamState, ghost done: Enc)
    returns (ok: bool, ghost done': Enc)
    requires stream.Valid() && i < |fields| && ValidField(fields[i]) && TypedMsg(fields, m)
    requires MaxField(fields[i]) < TWO_TO_64 && Emitted(a, done, true, stream.State())
    modifies stream, stream.buf
    ensures stream.Valid()
    ensures Emitted(a, done', ok, stream.State())
    ensures var whole := Then(done, EncFrom(fields, m, i));
            if ok then Then(done', EncFrom(fields, m, i + 1)) == whole else done' == whole
    decreases fields, 0, 0
  {
    ghost var b := stream.State();
    ghost var e, tail := EncField(fields[i], m, m.slots[i]), EncFrom(fields, m, i + 1);
    ok := EncodeField(stream, fields[i], m, m.slots[i]);
    EmittedThen(a, done, b, e, ok, stream.State());
    ThenAssociative(done, e, tail);
    done' := Then(done, e);
    if !ok {
      EmittedFailure(a, done', stream.State(), tail);
      done' := Then(done', tail);
    }
  }

  /** pb_get_encoded_size */
  method PbGetEncodedSize(fields: seq<Field>, m: Msg) returns (ok: bool, size: nat)
    requires ValidFields(fields) && TypedMsg(fields, m) && MaxSize(fields) < TWO_TO_64
    ensures ok <==> EncodableMsg(fields, m)
    ensures ok ==> size == |EncMsg(fields, m).out| <= MaxSize(fields)
  {
    var stream := new OStream.Sizing();
    EncMsgOk(fields, m);
    EncodedSizeBound(fields, m);
    ok := PbEncode(stream, fields, m);
    size := stream.written;
  }

  /**
   pb_encode into a buffer: it succeeds exactly if the message is encodable and its size, as
   pb_get_encoded_size reports it, is at most that of the buffer. It never writes past the end.
   */
  method EncodeToBuffer(buf: array<byte>, fields: seq<Field>, m: Msg) returns (ok: bool, written: nat)
    requires ValidFields(fields) && TypedMsg(fields, m) && MaxSize(fields) < TWO_TO_64
    modifies buf
    ensures ok <==> EncodableMsg(fields, m) && |EncMsg(fields, m).out| <= buf.Length
    ensures written <= buf.Length && buf[..written] <= EncMsg(fields, m).out
    ensures ok ==> buf[..written] == EncMsg(fields, m).out
  {
    var stream := new OStream.FromBuffer(buf, 0, buf.Length);
    EncMsgOk(fields, m);
    ok := PbEncode(stream, fields, m);
    assert [] + EncMsg(fields, m).out == EncMsg(fields, m).out;
    written := stream.written;
  }
}

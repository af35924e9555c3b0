/** The decoder of pb_decode.c: it reads records from a stream and stores their contents in a message. */
module Decoder {
  import opened Basics
  import opened Bits
  import opened Wire
  import opened Scalars
  import opened Schema
  import opened EncodeSpec
  import opened DecodeSpec
  import opened FieldIterator
  import opened InputStream
  import opened RequiredFields

  //////////////////////////////////////////////////////////////////////////////
  // Scalars
  //////////////////////////////////////////////////////////////////////////////

  /** pb_decode_fixed32 and pb_decode_fixed64 */
  method DecodeFixed(stream: IStream, n: nat) returns (ok: bool, value: nat)
    requires stream.Valid() && (n == 4 || n == 8)
    modifies stream
    ensures stream.Valid() && stream.End() == old(stream.End())
    ensures Follows(DecFixed(old(stream.Rest()), n), ok, value, stream.Rest())
  {
    var bytes;
    ok, bytes := stream.Read(n);
    if !ok { return false, 0; }
    FixedValue4(bytes);
    value := LittleEndian4(bytes[0], bytes[1], bytes[2], bytes[3]);
    if n == 8 {
      FixedValue4(bytes[4..]);
      value := value + TWO_TO_32 * LittleEndian4(bytes[4], bytes[5], bytes[6], bytes[7]);
    }
  }

  function LittleEndian4(b0: int, b1: int, b2: int, b3: int): int {
    b0 + 0x100 * b1 + 0x1_0000 * b2 + 0x100_0000 * b3
  }

  lemma FixedValueFront(s: seq<byte>, i: nat)
    requires i < |s|
    ensures FixedValue(s[i..]) == s[i] + 256 * FixedValue(s[i + 1..])
  {
    assert s[i..][1..] == s[i + 1..];
  }

  lemma FixedValue4(s: seq<byte>)
    requires 4 <= |s|
    ensures FixedValue(s) == LittleEndian4(s[0], s[1], s[2], s[3]) + TWO_TO_32 * FixedValue(s[4..])
    ensures |s| == 4 ==> FixedValue(s[4..]) == 0
  {
    FixedValueFront(s, 0);
    FixedValueFront(s, 1);
    FixedValueFront(s, 2);
    FixedValueFront(s, 3);
    assert s[0..] == s;
  }

  /** pb_dec_bool */
  method DecodeBool(stream: IStream) returns (ok: bool, v: Value)
    requires stream.Valid()
    modifies stream
    ensures stream.Valid() && stream.End() == old(stream.End())
    ensures Follows(AsBool(Varint32(old(stream.Rest()))), ok, v, stream.Rest())
  {
    var read, n, _ := DecodeVarint32(stream);
    return read, Num(if n != 0 then 1 else 0);
  }

  /** pb_dec_varint */
  method DecodeInt(stream: IStream, size: nat) returns (ok: bool, v: Value)
    requires stream.Valid()
    modifies stream
    ensures stream.Valid() && stream.End() == old(stream.End())
    ensures Follows(AsNum(DecInt(old(stream.Rest()), size)), ok, v, stream.Rest())
  {
    var read, n := DecodeVarint64(stream);
    if !read { return false, Num(0); }
    var svalue := if size == 8 then ToSigned(n, 8) else ToSigned(n, 4);
    if size != 8 && size != 4 && size != 2 && size != 1 { return false, Num(0); }
    var clamped := ToSigned(svalue, size);
    return clamped == svalue, Num(clamped);
  }

  /** pb_dec_uvarint */
  method DecodeUint(stream: IStream, size: nat) returns (ok: bool, v: Value)
    requires stream.Valid()
    modifies stream
    ensures stream.Valid() && stream.End() == old(stream.End())
    ensures Follows(AsNum(DecUint(old(stream.Rest()), size)), ok, v, stream.Rest())
  {
    var read, n := DecodeVarint64(stream);
    if !read { return false, Num(0); }
    if size != 8 && size != 4 && size != 2 && size != 1 { return false, Num(0); }
    var clamped := ToUnsigned(n, size);
    return clamped == n, Num(clamped);
  }

  /** pb_dec_svarint */
  method DecodeSint(stream: IStream, size: nat) returns (ok: bool, v: Value)
    requires stream.Valid()
    modifies stream
    ensures stream.Valid() && stream.End() == old(stream.End())
    ensures Follows(AsNum(DecSint(old(stream.Rest()), size)), ok, v, stream.Rest())
  {
    var read, n := DecodeVarint64(stream);
    if !read { return false, Num(0); }
    var value := UnZigZag(n);
    if size != 8 && size != 4 && size != 2 && size != 1 { return false, Num(0); }
    var clamped := ToSigned(value, size);
    return clamped == value, Num(clamped);
  }

  //////////////////////////////////////////////////////////////////////////////
  // Values
  //////////////////////////////////////////////////////////////////////////////

  /** pb_dec_bytes */
  method DecodeBytes(stream: IStream, f: Field, v: Value) returns (ok: bool, v': Value)
    requires stream.Valid() && f.ltype.LBytes? && TypedValue(f, v)
    modifies stream
    ensures stream.Valid() && stream.End() == old(stream.End())
    ensures Follows(DecBytes(f, old(stream.Rest()), v.buf), ok, v', stream.Rest())
  {
    v' := v;
    var read, size, _ := DecodeVarint32(stream);
    if !read || f.dataSize < size + BYTES_HEADER { return false, v'; }
    var bytes;
    ok, bytes := stream.Read(size);
    if ok { v' := Bytes(size, bytes + v.buf[size..]); }
  }

  /** pb_dec_string */
  method DecodeString(stream: IStream, f: Field, v: Value) returns (ok: bool, v': Value)
    requires stream.Valid() && f.ltype.LString? && TypedValue(f, v)
    modifies stream
    ensures stream.Valid() && stream.End() == old(stream.End())
    ensures Follows(DecText(f, old(stream.Rest()), v.buf), ok, v', stream.Rest())
  {
    v' := v;
    var read, size, _ := DecodeVarint32(stream);
    if !read || f.dataSize < size + 1 { return false, v'; }
    var bytes;
    ok, bytes := stream.Read(size);
    if ok { v' := Text(bytes + [0] + v.buf[size + 1..]); }
  }

  /** pb_dec_fixed_length_bytes */
  method DecodeInline(stream: IStream, f: Field, v: Value) returns (ok: bool, v': Value)
    requires stream.Valid() && f.ltype.LFixedLengthBytes? && TypedValue(f, v)
    modifies stream
    ensures stream.Valid() && stream.End() == old(stream.End())
    ensures Follows(DecInline(f, old(stream.Rest())), ok, v', stream.Rest())
  {
    v' := v;
    var read, size, _ := DecodeVarint32(stream);
    if !read { return false, v'; }
    if size == 0 { return true, Inline(ZeroBytes(f.dataSize)); }
    if size != f.dataSize { return false, v'; }
    var bytes;
    ok, bytes := stream.Read(size);
    if ok { v' := Inline(bytes); }
  }

  /** The PB_DECODERS table; v is the value that the destination holds beforehand. */
  method DecodeValue(stream: IStream, f: Field, v: Value) returns (ok: bool, v': Value)
    requires stream.Valid() && ValidField(f) && TypedValue(f, v)
    modifies stream
    ensures stream.Valid() && stream.End() <= old(stream.End()) && (ok ==> stream.End() == old(stream.End()))
    ensures Follows(DecValue(f, old(stream.Rest()), v), ok, v', stream.Rest())
    decreases f, 0
  {
    match f.ltype
    case LBool => ok, v' := DecodeBool(stream);
    case LVarint => ok, v' := DecodeInt(stream, f.dataSize);
    case LUVarint => ok, v' := DecodeUint(stream, f.dataSize);
    case LSVarint => ok, v' := DecodeSint(stream, f.dataSize);
    case LFixed32 =>
      var read, n := DecodeFixed(stream, 4);
      ok, v' := read, Num(n);
    case LFixed64 =>
      var read, n := DecodeFixed(stream, 8);
      ok, v' := read, Num(n);
    case LBytes => ok, v' := DecodeBytes(stream, f, v);
    case LString => ok, v' := DecodeString(stream, f, v);
    case LSubmessage => ok, v' := DecodeSubmessage(stream, f, v);
    case LFixedLengthBytes => ok, v' := DecodeInline(stream, f, v);
  }

  /**
   pb_dec_submessage: the parent stream advances by the length prefix and the declared length, even
   when the submessage ends early at a zero key.
   */
  method DecodeSubmessage(stream: IStream, f: Field, v: Value) returns (ok: bool, v': Value)
    requires stream.Valid() && ValidField(f) && f.ltype.LSubmessage? && TypedValue(f, v)
    modifies stream
    ensures stream.Valid() && stream.End() <= old(stream.End()) && (ok ==> stream.End() == old(stream.End()))
    ensures Follows(DecSub(f, old(stream.Rest()), v.msg), ok, v', stream.Rest())
    decreases f.sub, 9
  {
    var made, substream := MakeSubstream(stream);
    if !made { return false, v; }
    var m;
    if f.htype.Repeated? {
      ok, m := PbDecode(substream, f.sub, v.msg);
    } else {
      ok, m := PbDecodeNoInit(substream, f.sub, v.msg);
    }
    CloseSubstream(stream, substream);
    v' := Sub(m);
  }

  //////////////////////////////////////////////////////////////////////////////
  // Default values
  //////////////////////////////////////////////////////////////////////////////

  /** pb_message_set_to_defaults */
  method SetMessageToDefaults(fields: seq<Field>, m: Msg) returns (m': Msg)
    requires ValidFields(fields) && TypedMsg(fields, m)
    ensures m' == SetDefaults(fields, m, 0)
    decreases fields
  {
    m' := m;
    var iter := new FieldIter(fields);
    if fields == [] { return; }
    while true
      invariant iter.Valid() && iter.fields == fields
      invariant TypedMsg(fields, m') && SetDefaults(fields, m', iter.pos) == SetDefaults(fields, m, 0)
      decreases |fields| - iter.pos
    {
      m' := SetFieldToDefault(fields, m', iter.pos);
      var more := iter.Next();
      if !more { return; }
    }
  }

  /** pb_field_set_to_default */
  method SetFieldToDefault(fields: seq<Field>, m: Msg, i: nat) returns (m': Msg)
    requires ValidFields(fields) && TypedMsg(fields, m) && i < |fields|
    ensures m' == DefaultField(fields, m, i)
    decreases fields, 0
  {
    var f, s := fields[i], m.slots[i];
    assert ValidField(f) && TypedSlot(f, s);
    if f.htype.Repeated? {
      m' := m.(slots := m.slots[i := s.(size := 0)]);
    } else if f.htype.Oneof? {
      m' := m.(which := m.which[f.union := 0]);
    } else {
      var v := f.init;
      if f.ltype.LSubmessage? {
        var sub := SetMessageToDefaults(f.sub, s.data[0].msg);
        v := Sub(sub);
      }
      m' := m.(slots := m.slots[i := Slot(0, [v])]);
    }
  }

  //////////////////////////////////////////////////////////////////////////////
  // Fields
  //////////////////////////////////////////////////////////////////////////////

  /** The loop of decode_static_field over a packed array, and the check that all of it fitted. */
  method DecodePackedItems(stream: IStream, f: Field, slot: Slot) returns (ok: bool, slot': Slot)
    requires stream.Valid() && ValidField(f) && f.htype.Repeated? && f.ltype.Packable() && TypedSlot(f, slot)
    modifies stream
    ensures stream.Valid() && stream.End() <= old(stream.End()) && (ok ==> stream.End() == old(stream.End()))
    ensures Follows(DecPacked(f, old(stream.Rest()), slot), ok, slot', stream.Rest())
    decreases f, 2
  {
    slot' := slot;
    while stream.left > 0 && slot'.size < f.arraySize
      invariant stream.Valid() && stream.End() == old(stream.End()) && TypedSlot(f, slot')
      invariant DecPacked(f, old(stream.Rest()), slot) == DecPacked(f, stream.Rest(), slot')
      decreases |stream.Rest()|
    {
      var v;
      ok, v := DecodeValue(stream, f, slot'.data[slot'.size]);
      if !ok { return; }
      slot' := StoreItem(slot', slot'.size, v, slot'.size + 1);
    }
    ok := stream.left == 0;
  }

  /** decode_static_field for repeated fields: the array in the slot and its count grow. */
  method DecodeRepeated(stream: IStream, f: Field, wireType: nat, slot: Slot) returns (ok: bool, slot': Slot)
    requires stream.Valid() && ValidField(f) && f.htype.Repeated? && TypedSlot(f, slot)
    modifies stream
    ensures stream.Valid() && stream.End() <= old(stream.End()) && (ok ==> stream.End() == old(stream.End()))
    ensures Follows(DecRepeated(f, wireType, old(stream.Rest()), slot), ok, slot', stream.Rest())
    decreases f, 3
  {
    slot' := slot;
    if wireType == WT_STRING && f.ltype.Packable() {
      var made, substream := MakeSubstream(stream);
      if !made { return false, slot; }
      ok, slot' := DecodePackedItems(substream, f, slot);
      if !ok { return; }
      CloseSubstream(stream, substream);
    } else {
      if slot.size >= f.arraySize { return false, slot; }
      var v;
      ok, v := DecodeValue(stream, f, slot.data[slot.size]);
      slot' := StoreItem(slot, slot.size, v, slot.size + 1);
    }
  }

  /** decode_static_field for required, optional, singular and oneof fields. */
  method DecodeSingle(stream: IStream, f: Field, slot: Slot, selected: bool) returns (ok: bool, slot': Slot)
    requires stream.Valid() && ValidField(f) && !f.htype.Repeated? && TypedSlot(f, slot)
    modifies stream
    ensures stream.Valid() && stream.End() <= old(stream.End()) && (ok ==> stream.End() == old(stream.End()))
    ensures Follows(DecSingle(f, old(stream.Rest()), slot, selected), ok, slot', stream.Rest())
    decreases f, 3
  {
    var target := slot.data[0];
    if f.htype.Oneof? && f.ltype.LSubmessage? && !selected {
      ZeroMsgTyped(f.sub);
      var m := SetMessageToDefaults(f.sub, ZeroMsg(f.sub));
      target := Sub(m);
    }
    var v;
    ok, v := DecodeValue(stream, f, target);
    slot' := StoreItem(slot, 0, v, if f.htype.Optional? then 1 else slot.size);
  }

  /** decode_static_field */
  method DecodeStaticField(stream: IStream, fields: seq<Field>, i: nat, wireType: nat, m: Msg)
    returns (ok: bool, m': Msg)
    requires stream.Valid() && i < |fields| && ValidFields(fields) && TypedMsg(fields, m)
    requires Releasable(fields, fields[i], m)
    modifies stream
    ensures stream.Valid() && stream.End() <= old(stream.End()) && (ok ==> stream.End() == old(stream.End()))
    ensures Follows(DecField(fields, i, wireType, old(stream.Rest()), m), ok, m', stream.Rest())
    decreases fields, 0
  {
    var f, slot := fields[i], m.slots[i];
    assert ValidField(f) && TypedSlot(f, slot);
    var slot';
    if f.htype.Repeated? {
      ok, slot' := DecodeRepeated(stream, f, wireType, slot);
    } else {
      ok, slot' := DecodeSingle(stream, f, slot, m.Which(f.union) == f.tag);
    }
    m' := Msg(m.slots[i := slot'], if f.htype.Oneof? then m.which[f.union := f.tag] else m.which);
  }

  /**
   pb_release_union_field: looks for the field that the oneof holds, and goes back to the one that is
   about to be decoded. Statically allocated members have nothing to release.
   */
  method ReleaseUnionField(iter: FieldIter, m: Msg) returns (ok: bool)
    requires iter.Valid() && iter.fields != [] && DistinctTags(iter.fields)
    requires iter.fields[iter.pos].htype.Oneof?
    modifies iter
    ensures iter.Valid() && iter.pos == old(iter.pos)
    ensures ok <==> Releasable(iter.fields, iter.fields[iter.pos], m)
  {
    var f := iter.fields[iter.pos];
    var oldTag, newTag := m.Which(f.union), f.tag;
    if oldTag == 0 || oldTag == newTag { return true; }
    ok := iter.FindTag(oldTag);
    if !ok { return; }
    ok := iter.FindTag(newTag);
  }

  /** pb_skip_field */
  method SkipField(stream: IStream, wireType: nat) returns (ok: bool)
    requires stream.Valid()
    modifies stream
    ensures stream.Valid() && stream.End() == old(stream.End())
    ensures Follows(Skip(wireType, old(stream.Rest())), ok, (), stream.Rest())
  {
    var bytes;
    if wireType == WT_VARINT {
      ok := SkipVarintBytes(stream);
    } else if wireType == WT_64BIT {
      ok, bytes := stream.Read(8);
    } else if wireType == WT_STRING {
      var read, length, _ := DecodeVarint32(stream);
      if !read { return false; }
      ok, bytes := stream.Read(length);
    } else if wireType == WT_32BIT {
      ok, bytes := stream.Read(4);
    } else {
      ok := false;
    }
  }

  /** pb_decode_tag */
  method DecodeTag(stream: IStream) returns (ok: bool, wireType: nat, tag: nat, eof: bool)
    requires stream.Valid()
    modifies stream
    ensures stream.Valid() && stream.End() == old(stream.End())
    ensures wireType < 8
    ensures match Varint32(old(stream.Rest()))
            case Fail => !ok && (eof <==> old(stream.Rest()) == [])
            case Done(key, rest) => stream.Rest() == rest && (eof <==> key == 0) && (ok <==> key != 0)
                                    && tag == key / 8 && wireType == key % 8
  {
    var read, temp, nothing := DecodeVarint32(stream);
    if !read { return false, 0, 0, nothing; }
    if temp == 0 { return false, 0, 0, true; }
    return true, temp % 8, temp / 8, false;
  }

  //////////////////////////////////////////////////////////////////////////////
  // Messages
  //////////////////////////////////////////////////////////////////////////////

  /** The state of the decoding loop: the message, the iterator and the bitmap of required fields. */
  ghost predicate LoopState(fields: seq<Field>, p: Progress, iter: FieldIter, seen: array<nat>)
    reads iter, seen
  {
    && TypedMsg(fields, p.msg)
    && iter.Valid() && iter.fields == fields
    && Marks(seen[..], Indices(fields, p.tags))
  }

  /** What a round of the decoding loop did, as DecRound says. */
  ghost predicate RoundFollows(r: Round, ok: bool, stop: bool, p: Progress, rest: seq<byte>) {
    match r
    case Error => !ok
    case Stop(rest') => ok && stop && rest == rest'
    case Next(p', rest') => ok && !stop && p == p' && rest == rest'
  }

  /** One round of the loop of pb_decode_noinit, on a stream that is not at its end. */
  method DecodeRound(stream: IStream, iter: FieldIter, seen: array<nat>, ghost p: Progress, m: Msg)
    returns (ok: bool, stop: bool, m': Msg, ghost p': Progress)
    requires stream.Valid() && stream.Rest() != [] && p.msg == m
    requires ValidFields(iter.fields) && LoopState(iter.fields, p, iter, seen)
    modifies stream, iter, seen
    ensures stream.Valid() && stream.End() <= old(stream.End()) && (ok ==> stream.End() == old(stream.End()))
    ensures ok ==> p'.msg == m' && LoopState(iter.fields, p', iter, seen)
    ensures ok && stop ==> p' == p
    ensures RoundFollows(DecRound(iter.fields, old(stream.Rest()), p), ok, stop, p', stream.Rest())
    decreases iter.fields, 1, 2
  {
    ghost var s := stream.Rest();
    var read, wireType, tag, eof := DecodeTag(stream);
    assert read ==> DecRound(iter.fields, s, p) == DecRecord(iter.fields, tag, wireType, stream.Rest(), p);
    if !read { return eof, true, m, p; }
    stop := false;
    ok, m', p' := DecodeRecord(stream, iter, seen, tag, wireType, p, m);
  }

  /** What follows a key: a field of the message, or something to skip. */
  method DecodeRecord(stream: IStream, iter: FieldIter, seen: array<nat>, tag: nat, wireType: nat,
                      ghost p: Progress, m: Msg)
    returns (ok: bool, m': Msg, ghost p': Progress)
    requires stream.Valid() && p.msg == m
    requires ValidFields(iter.fields) && LoopState(iter.fields, p, iter, seen)
    modifies stream, iter, seen
    ensures stream.Valid() && stream.End() <= old(stream.End()) && (ok ==> stream.End() == old(stream.End()))
    ensures ok ==> p'.msg == m' && LoopState(iter.fields, p', iter, seen)
    ensures RoundFollows(DecRecord(iter.fields, tag, wireType, old(stream.Rest()), p), ok, false, p', stream.Rest())
    decreases iter.fields, 1, 1
  {
    m', p' := m, p;
    var found := iter.FindTag(tag);
    if !found {
      ok := SkipField(stream, wireType);
    } else if iter.fields == [] {
      var v;
      ok, v := DecodeBool(stream);
    } else {
      SearchIsFind(iter.fields, tag, iter.pos);
      ok, m', p' := DecodeFoundField(stream, iter, seen, wireType, p, m);
    }
  }

  /** The marking of a required field that was found. */
  method MarkRequired(iter: FieldIter, seen: array<nat>, ghost tags: set<nat>)
    requires iter.Valid() && iter.fields != [] && DistinctTags(iter.fields)
    requires Marks(seen[..], Indices(iter.fields, tags))
    modifies seen
    ensures Marks(seen[..], Indices(iter.fields, tags + {iter.fields[iter.pos].tag}))
  {
    IndicesAfter(iter.fields, tags, iter.pos);
    if iter.fields[iter.pos].htype.Required? && iter.requiredIndex < MAX_REQUIRED {
      Mark(seen, iter.requiredIndex, Indices(iter.fields, tags));
    }
  }

  /** The part of a round that follows a successful search: marking a required field, and decode_field. */
  method DecodeFoundField(stream: IStream, iter: FieldIter, seen: array<nat>, wireType: nat,
                          ghost p: Progress, m: Msg)
    returns (ok: bool, m': Msg, ghost p': Progress)
    requires stream.Valid() && p.msg == m && iter.fields != []
    requires ValidFields(iter.fields) && LoopState(iter.fields, p, iter, seen)
    modifies stream, iter, seen
    ensures stream.Valid() && stream.End() <= old(stream.End()) && (ok ==> stream.End() == old(stream.End()))
    ensures iter.pos == old(iter.pos)
    ensures p' == Progress(m', p.tags + {iter.fields[iter.pos].tag})
    ensures ok ==> LoopState(iter.fields, p', iter, seen)
    ensures Follows(DecField(iter.fields, iter.pos, wireType, old(stream.Rest()), m), ok, m', stream.Rest())
    decreases iter.fields, 1, 0
  {
    var fields, i := iter.fields, iter.pos;
    MarkRequired(iter, seen, p.tags);
    m', ok := m, true;
    if fields[i].htype.Oneof? { ok := ReleaseUnionField(iter, m); }
    if ok { ok, m' := DecodeStaticField(stream, fields, i, wireType, m); }
    p' := Progress(m', p.tags + {fields[i].tag});
  }

  /** pb_decode_noinit: it succeeds exactly if the records decode and no tracked required field is missing. */
  method PbDecodeNoInit(stream: IStream, fields: seq<Field>, m: Msg) returns (ok: bool, m': Msg)
    requires stream.Valid() && ValidFields(fields) && TypedMsg(fields, m)
    modifies stream
    ensures stream.Valid() && stream.End() <= old(stream.End()) && (ok ==> stream.End() == old(stream.End()))
    ensures Follows(DecMsg(fields, old(stream.Rest()), m), ok, m', stream.Rest())
    decreases fields, 2
  {
    var fieldsSeen := new nat[2](_ => 0);
    var iter := new FieldIter(fields);
    m' := m;
    ghost var s := stream.Rest();
    ghost var p := Progress(m, {});
    forall w: nat, k: nat | w < 2 ensures !Bit(fieldsSeen[w], k) { BitZero(k); }
    while stream.left != 0
      invariant stream.Valid() && stream.End() == old(stream.End())
      invariant p.msg == m' && LoopState(fields, p, iter, fieldsSeen)
      invariant DecLoop(fields, s, Progress(m, {})) == DecLoop(fields, stream.Rest(), p)
      decreases |stream.Rest()|
    {
      var stop;
      ok, stop, m', p := DecodeRound(stream, iter, fieldsSeen, p, m');
      if !ok { return; }
      if stop { break; }
    }
    ok := CheckRequired(fields, iter, fieldsSeen, p.tags);
  }

  /** The end of pb_decode_noinit: counts the required fields and tests the bitmap. */
  method CheckRequired(fields: seq<Field>, iter: FieldIter, seen: array<nat>, ghost tags: set<nat>) returns (ok: bool)
    requires ValidFields(fields) && iter.Valid() && iter.fields == fields
    requires Marks(seen[..], Indices(fields, tags))
    modifies iter
    ensures ok <==> RequiredSeen(fields, tags)
  {
    var count, last;
    while true
      invariant iter.Valid()
      decreases |fields| - iter.pos
    {
      count := iter.requiredIndex;
      last := if iter.pos < |fields| then fields[iter.pos].htype else Required;
      var more := iter.Next();
      if !more { break; }
    }
    assert fields != [] ==> ValidField(fields[0]);
    if last.Required? && iter.Tag() != 0 { count := count + 1; }
    if count > MAX_REQUIRED { count := MAX_REQUIRED; }
    AllIndicesSeen(fields, tags);
    forall k | k in Indices(fields, tags) ensures k < count { IndicesBelow(fields, tags, k); }
    ok := true;
    if count > 0 { ok := AllMarked(seen, count, Indices(fields, tags)); }
  }

  /** pb_decode */
  method PbDecode(stream: IStream, fields: seq<Field>, m: Msg) returns (ok: bool, m': Msg)
    requires stream.Valid() && ValidFields(fields) && TypedMsg(fields, m)
    modifies stream
    ensures stream.Valid() && stream.End() <= old(stream.End()) && (ok ==> stream.End() == old(stream.End()))
    ensures Follows(Decode(fields, old(stream.Rest()), m), ok, m', stream.Rest())
    decreases fields, 3
  {
    var d := SetMessageToDefaults(fields, m);
    ok, m' := PbDecodeNoInit(stream, fields, d);
  }
}

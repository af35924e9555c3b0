/**
 How the decoder treats a byte string that is made of parts: complete records are decoded one after
 the other whatever follows them, so concatenation merges and unknown records do not matter.
 */
module Merge {
  import opened Basics
  import opened Bits
  import opened Wire
  import opened Schema
  import opened EncodeSpec
  import opened DecodeSpec

  //////////////////////////////////////////////////////////////////////////////
  // What follows a value, a field or a record does not change how it is read
  //////////////////////////////////////////////////////////////////////////////

  lemma DropExtends(s: seq<byte>, t: seq<byte>, n: nat)
    requires n <= |s|
    ensures (s + t)[..n] == s[..n] && (s + t)[n..] == s[n..] + t
  {}

  lemma DecNumExtends(f: Field, s: seq<byte>, t: seq<byte>)
    requires f.ltype.Packable() && DecNum(f, s).Done?
    ensures DecNum(f, s + t) == Extend(DecNum(f, s), t)
  {
    match f.ltype
    case LBool => Varint32Extends(s, t);
    case LFixed32 => DropExtends(s, t, 4);
    case LFixed64 => DropExtends(s, t, 8);
    case _ => Varint64Extends(s, t);
  }

  lemma SubStreamExtends(s: seq<byte>, t: seq<byte>)
    requires SubStream(s).Done?
    ensures SubStream(s + t) == Extend(SubStream(s), t)
  {
    Varint32Extends(s, t);
    DropExtends(Varint32(s).rest, t, Varint32(s).val);
  }

  lemma DecBufferExtends(f: Field, s: seq<byte>, v: Value, t: seq<byte>)
    requires TypedValue(f, v)
    ensures f.ltype.LBytes? && DecBytes(f, s, v.buf).Done? ==>
              DecBytes(f, s + t, v.buf) == Extend(DecBytes(f, s, v.buf), t)
    ensures f.ltype.LString? && DecText(f, s, v.buf).Done? ==>
              DecText(f, s + t, v.buf) == Extend(DecText(f, s, v.buf), t)
    ensures f.ltype.LFixedLengthBytes? && DecInline(f, s).Done? ==>
              DecInline(f, s + t) == Extend(DecInline(f, s), t)
  {
    if Varint32(s).Done? {
      Varint32Extends(s, t);
      var Done(n, p) := Varint32(s);
      if n <= |p| { DropExtends(p, t, n); }
    }
  }

  lemma DecValueExtends(f: Field, s: seq<byte>, v: Value, t: seq<byte>)
    requires ValidField(f) && TypedValue(f, v) && DecValue(f, s, v).Done?
    ensures DecValue(f, s + t, v) == Extend(DecValue(f, s, v), t)
  {
    match f.ltype
    case LBytes => DecBufferExtends(f, s, v, t);
    case LString => DecBufferExtends(f, s, v, t);
    case LFixedLengthBytes => DecBufferExtends(f, s, v, t);
    case LSubmessage => SubStreamExtends(s, t);
    case _ => DecNumExtends(f, s, t);
  }

  lemma DecRepeatedExtends(f: Field, wireType: nat, s: seq<byte>, slot: Slot, t: seq<byte>)
    requires ValidField(f) && f.htype.Repeated? && TypedSlot(f, slot)
    requires DecRepeated(f, wireType, s, slot).Done?
    ensures DecRepeated(f, wireType, s + t, slot) == Extend(DecRepeated(f, wireType, s, slot), t)
  {
    if wireType == WT_STRING && f.ltype.Packable() {
      SubStreamExtends(s, t);
    } else {
      DecValueExtends(f, s, slot.data[slot.size], t);
    }
  }

  lemma DecSingleExtends(f: Field, s: seq<byte>, slot: Slot, selected: bool, t: seq<byte>)
    requires ValidField(f) && !f.htype.Repeated? && TypedSlot(f, slot)
    requires DecSingle(f, s, slot, selected).Done?
    ensures DecSingle(f, s + t, slot, selected) == Extend(DecSingle(f, s, slot, selected), t)
  {
    var v := slot.data[0];
    DecValueExtends(f, s, if f.htype.Oneof? then OneofTarget(f, selected, v) else v, t);
  }

  lemma DecFieldExtends(fields: seq<Field>, i: nat, wireType: nat, s: seq<byte>, m: Msg, t: seq<byte>)
    requires i < |fields| && ValidFields(fields) && TypedMsg(fields, m)
    requires DecField(fields, i, wireType, s, m).Done?
    ensures DecField(fields, i, wireType, s + t, m) == Extend(DecField(fields, i, wireType, s, m), t)
  {
    var f, slot := fields[i], m.slots[i];
    assert ValidField(f) && TypedSlot(f, slot);
    if f.htype.Repeated? {
      DecRepeatedExtends(f, wireType, s, slot, t);
    } else {
      DecSingleExtends(f, s, slot, m.Which(f.union) == f.tag, t);
    }
  }

  lemma SkipExtends(wireType: nat, s: seq<byte>, t: seq<byte>)
    requires Skip(wireType, s).Done?
    ensures Skip(wireType, s + t) == Extend(Skip(wireType, s), t)
  {
    if wireType == WT_VARINT {
      SkipVarintExtends(s, t);
    } else if wireType == WT_STRING {
      SubStreamExtends(s, t);
    } else {
      DropExtends(s, t, if wireType == WT_64BIT then 8 else 4);
    }
  }

  lemma DecRoundExtends(fields: seq<Field>, s: seq<byte>, p: Progress, t: seq<byte>)
    requires ValidFields(fields) && TypedMsg(fields, p.msg) && DecRound(fields, s, p).Next?
    ensures DecRound(fields, s + t, p) == Next(DecRound(fields, s, p).state, DecRound(fields, s, p).rest + t)
  {
    Varint32Extends(s, t);
    var Done(key, rest) := Varint32(s);
    match Find(fields, key / 8)
    case None =>
      if fields == [] && key / 8 == 0 {
        Varint32Extends(rest, t);
      } else {
        SkipExtends(key % 8, rest, t);
      }
    case Some(i) => DecFieldExtends(fields, i, key % 8, rest, p.msg, t);
  }

  //////////////////////////////////////////////////////////////////////////////
  // Strings of complete records
  //////////////////////////////////////////////////////////////////////////////

  /** What s does to the message when it consists of complete records with nonzero keys. */
  function Records(fields: seq<Field>, s: seq<byte>, p: Progress): (r: Option<Progress>)
    requires ValidFields(fields) && TypedMsg(fields, p.msg)
    ensures r.Some? ==> TypedMsg(fields, r.value.msg)
    decreases |s|
  {
    if s == [] then Some(p)
    else
      match DecRound(fields, s, p)
      case Next(p', rest) => Records(fields, rest, p')
      case _ => None
  }

  /** Decoding complete records and then b goes on with b where the records leave off. */
  lemma {:induction false} DecLoopAppend(fields: seq<Field>, a: seq<byte>, b: seq<byte>, p: Progress)
    requires ValidFields(fields) && TypedMsg(fields, p.msg) && Records(fields, a, p).Some?
    ensures DecLoop(fields, a + b, p) == DecLoop(fields, b, Records(fields, a, p).value)
    decreases |a|
  {
    if a == [] {
      assert a + b == b;
    } else {
      var Next(p', rest) := DecRound(fields, a, p);
      DecRoundExtends(fields, a, p, b);
      DecLoopAppend(fields, rest, b, p');
    }
  }

  lemma {:induction false} RecordsAppend(fields: seq<Field>, a: seq<byte>, b: seq<byte>, p: Progress)
    requires ValidFields(fields) && TypedMsg(fields, p.msg) && Records(fields, a, p).Some?
    ensures Records(fields, a + b, p) == Records(fields, b, Records(fields, a, p).value)
    decreases |a|
  {
    if a == [] {
      assert a + b == b;
    } else {
      var Next(p', rest) := DecRound(fields, a, p);
      DecRoundExtends(fields, a, p, b);
      RecordsAppend(fields, rest, b, p');
    }
  }

  lemma DecLoopRecords(fields: seq<Field>, a: seq<byte>, p: Progress)
    requires ValidFields(fields) && TypedMsg(fields, p.msg) && Records(fields, a, p).Some?
    ensures DecLoop(fields, a, p) == Done(Records(fields, a, p).value, [])
  {
    DecLoopAppend(fields, a, [], p);
    assert a + [] == a;
  }

  //////////////////////////////////////////////////////////////////////////////
  // Unknown fields
  //////////////////////////////////////////////////////////////////////////////

  /**
   The bytes of one value of a wire type: a varint of any length, eight bytes, a length prefix and as many
   bytes as it says, or four bytes. There are no values of other wire types.
   */
  predicate CompleteValue(wireType: nat, s: seq<byte>) {
    match wireType
    case 0 => s != [] && s[|s| - 1] < 128 && forall k :: 0 <= k < |s| - 1 ==> 128 <= s[k]
    case 1 => |s| == 8
    case 2 =>
      (match Varint32(s)
       case Fail => false
       case Done(n, body) => |body| == n)
    case 5 => |s| == 4
    case _ => false
  }

  /** A value is skipped exactly if it is a complete one, whatever follows it. */
  lemma SkipExactly(wireType: nat, s: seq<byte>, t: seq<byte>)
    ensures Skip(wireType, s) == Done((), []) <==> CompleteValue(wireType, s)
    ensures CompleteValue(wireType, s) ==> Skip(wireType, s + t) == Done((), t)
  {
    if wireType == 0 && CompleteValue(0, s) { VarLenIs(s, |s|); }
    if CompleteValue(wireType, s) {
      SkipExtends(wireType, s, t);
      assert [] + t == t;
    }
  }

  /** One complete record whose field number is not listed, with any nonzero key (see DecRecord for an empty schema). */
  predicate UnknownRecord(fields: seq<Field>, u: seq<byte>) {
    match Varint32(u)
    case Fail => false
    case Done(key, rest) =>
      && key != 0 && (fields == [] ==> key / 8 != 0)
      && Find(fields, key / 8).None?
      && CompleteValue(key % 8, rest)
  }

  /** An unlisted key and what follows it are read exactly if they are such a record, and change nothing. */
  lemma UnknownExactly(fields: seq<Field>, u: seq<byte>, p: Progress)
    requires ValidFields(fields) && TypedMsg(fields, p.msg) && Varint32(u).Done?
    requires var key := Varint32(u).val; key != 0 && (fields == [] ==> key / 8 != 0) && Find(fields, key / 8).None?
    ensures DecRound(fields, u, p) == Next(p, []) <==> UnknownRecord(fields, u)
    ensures DecRound(fields, u, p).Next? ==> DecRound(fields, u, p).state == p
  {
    SkipExactly(Varint32(u).val % 8, Varint32(u).rest, []);
  }

  /** A zero key ends the message, and what follows it is left. */
  lemma ZeroKeyEnds(fields: seq<Field>, a: seq<byte>, b: seq<byte>, p: Progress)
    requires ValidFields(fields) && TypedMsg(fields, p.msg) && Records(fields, a, p).Some?
    ensures DecLoop(fields, a + [0] + b, p) == Done(Records(fields, a, p).value, b)
  {
    assert a + [0] + b == a + ([0] + b) && ([0] + b)[1..] == b;
    DecLoopAppend(fields, a, [0] + b, p);
  }

  /** Such a record can stand between any two records of any input without changing the outcome. */
  lemma UnknownFieldsTransparent(fields: seq<Field>, a: seq<byte>, u: seq<byte>, b: seq<byte>, p: Progress)
    requires ValidFields(fields) && TypedMsg(fields, p.msg)
    requires Records(fields, a, p).Some? && UnknownRecord(fields, u)
    ensures DecLoop(fields, a + u + b, p) == DecLoop(fields, a + b, p)
  {
    var p1 := Records(fields, a, p).value;
    assert a + u + b == a + (u + b);
    DecLoopAppend(fields, a, u + b, p);
    DecLoopAppend(fields, a, b, p);
    UnknownExactly(fields, u, p1);
    DecRoundExtends(fields, u, p1, b);
    assert [] + b == b;
  }

  /** The same for whole messages: success, the message and the bytes left over are unchanged. */
  lemma UnknownFieldsIgnored(fields: seq<Field>, a: seq<byte>, u: seq<byte>, b: seq<byte>, m: Msg)
    requires ValidFields(fields) && TypedMsg(fields, m) && UnknownRecord(fields, u)
    requires Records(fields, a, Progress(SetDefaults(fields, m, 0), {})).Some?
    ensures Decode(fields, a + u + b, m) == Decode(fields, a + b, m)
  {
    UnknownFieldsTransparent(fields, a, u, b, Progress(SetDefaults(fields, m, 0), {}));
  }

  /** So a submessage may end early, too: what is left of its body is passed over. */
  lemma ZeroKeyEndsBody(f: Field, s: seq<byte>, t: seq<byte>, a: seq<byte>, b: seq<byte>, rest: seq<byte>, m: Msg)
    requires ValidField(f) && f.ltype.LSubmessage? && TypedMsg(f.sub, m) && !f.htype.Repeated?
    requires SubStream(s) == Done(a, rest) && SubStream(t) == Done(a + [0] + b, rest)
    requires Records(f.sub, a, Progress(m, {})).Some?
    ensures DecSub(f, t, m) == DecSub(f, s, m)
  {
    ZeroKeyEnds(f.sub, a, b, Progress(m, {}));
    DecLoopRecords(f.sub, a, Progress(m, {}));
  }

  /** With an empty schema, a key of field number zero is followed by a varint, whatever the wire type. */
  lemma EmptySchemaReadsVarint(key: byte, v: nat, t: seq<byte>, p: Progress)
    requires 1 <= key < 8 && v < TWO_TO_32 && TypedMsg([], p.msg)
    ensures DecRound([], [key] + (EncVarint(v) + t), p) == Next(p, t)
  {
    Varint32RoundTrip(v, t);
    assert ([key] + (EncVarint(v) + t))[1..] == EncVarint(v) + t;
  }

  //////////////////////////////////////////////////////////////////////////////
  // Merging
  //////////////////////////////////////////////////////////////////////////////

  function WithTags(r: Parse<Progress>, tags: set<nat>): Parse<Progress> {
    match r
    case Fail => Fail
    case Done(p, rest) => Done(Progress(p.msg, tags + p.tags), rest)
  }

  /** The tags only accumulate: they have no influence on the message. */
  lemma {:induction false} TagsAccumulate(fields: seq<Field>, s: seq<byte>, p: Progress, tags: set<nat>)
    requires ValidFields(fields) && TypedMsg(fields, p.msg)
    ensures DecLoop(fields, s, Progress(p.msg, tags + p.tags)) == WithTags(DecLoop(fields, s, p), tags)
    decreases |s|
  {
    if s != [] {
      RoundTags(fields, s, p, tags);
      match DecRound(fields, s, p)
      case Next(p', rest) => TagsAccumulate(fields, rest, p', tags);
      case _ =>
    }
  }

  lemma RoundTags(fields: seq<Field>, s: seq<byte>, p: Progress, tags: set<nat>)
    requires ValidFields(fields) && TypedMsg(fields, p.msg)
    ensures DecRound(fields, s, Progress(p.msg, tags + p.tags))
         == match DecRound(fields, s, p)
            case Next(p', rest) => Next(Progress(p'.msg, tags + p'.tags), rest)
            case r => r
  {
    match Varint32(s)
    case Fail =>
    case Done(key, rest) => assert tags + p.tags + {key / 8} == tags + (p.tags + {key / 8});
  }

  /**
   Decoding a message followed by more bytes is the same as decoding the message and then decoding
   the bytes on top of it: concatenation merges.
   */
  lemma ConcatenationMerges(fields: seq<Field>, a: seq<byte>, b: seq<byte>, m: Msg)
    requires ValidFields(fields) && TypedMsg(fields, m)
    requires Records(fields, a, Progress(m, {})).Some? && DecMsg(fields, a, m).Done?
    ensures DecMsg(fields, a, m).rest == []
    ensures var first := DecMsg(fields, a, m).val;
            match DecLoop(fields, b, Progress(first, {}))
            case Fail => DecMsg(fields, a + b, m) == Fail
            case Done(p, rest) => DecMsg(fields, a + b, m) == Done(p.msg, rest)
  {
    var p1 := Records(fields, a, Progress(m, {})).value;
    DecLoopRecords(fields, a, Progress(m, {}));
    DecLoopAppend(fields, a, b, Progress(m, {}));
    TagsAccumulate(fields, b, Progress(p1.msg, {}), p1.tags);
    assert p1.tags + {} == p1.tags;
  }

  //////////////////////////////////////////////////////////////////////////////
  // Required fields
  //////////////////////////////////////////////////////////////////////////////

  /** A record with the field number is among those that the decoder reads. */
  predicate Occurs(fields: seq<Field>, s: seq<byte>, p: Progress, tag: nat)
    requires ValidFields(fields) && TypedMsg(fields, p.msg)
    decreases |s|
  {
    s != [] &&
    match DecRound(fields, s, p)
    case Next(p', rest) => (Varint32(s).Done? && Varint32(s).val / 8 == tag) || Occurs(fields, rest, p', tag)
    case _ => false
  }

  lemma {:induction false} TagsOccur(fields: seq<Field>, s: seq<byte>, p: Progress, i: nat)
    requires ValidFields(fields) && TypedMsg(fields, p.msg) && DecLoop(fields, s, p).Done? && i < |fields|
    ensures fields[i].tag in DecLoop(fields, s, p).val.tags
       <==> fields[i].tag in p.tags || Occurs(fields, s, p, fields[i].tag)
    decreases |s|
  {
    if s != [] && DecRound(fields, s, p).Next? {
      var Next(p', rest) := DecRound(fields, s, p);
      RoundAdds(fields, s, p, i);
      TagsOccur(fields, rest, p', i);
    }
  }

  lemma RoundAdds(fields: seq<Field>, s: seq<byte>, p: Progress, i: nat)
    requires ValidFields(fields) && TypedMsg(fields, p.msg) && DecRound(fields, s, p).Next? && i < |fields|
    ensures Varint32(s).Done?
    ensures fields[i].tag in DecRound(fields, s, p).state.tags
       <==> fields[i].tag in p.tags || Varint32(s).val / 8 == fields[i].tag
  {}

  /**
   Apart from records that cannot be decoded, a message is refused exactly if one of its first 64 required
   fields does not occur. Required fields beyond these are not missed.
   */
  lemma RequiredExactly(fields: seq<Field>, s: seq<byte>, m: Msg)
    requires ValidFields(fields) && TypedMsg(fields, m)
    ensures DecMsg(fields, s, m).Done?
       <==> && DecLoop(fields, s, Progress(m, {})).Done?
            && forall i :: 0 <= i < |fields| && fields[i].htype.Required? && RequiredIndex(fields, i) < 64 ==>
                 Occurs(fields, s, Progress(m, {}), fields[i].tag)
  {
    if DecLoop(fields, s, Progress(m, {})).Done? {
      forall i | 0 <= i < |fields|
        ensures fields[i].tag in DecLoop(fields, s, Progress(m, {})).val.tags
           <==> Occurs(fields, s, Progress(m, {}), fields[i].tag)
      {
        TagsOccur(fields, s, Progress(m, {}), i);
      }
    }
  }
}

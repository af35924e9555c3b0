/** Unknown records at any depth: the decoder ignores them inside nested submessages, too. */
module UnknownFields {
  import opened Basics
  import opened Wire
  import opened Schema
  import opened DecodeSpec
  import opened Merge
  import opened RoundTrip

  /**
   A message into which a record is inserted: here, between the records a and b; or inside the body of
   the submessage in the record of the field at position i, which stands between a and b. That record has
   any key of the field, and its body any length prefix, before and after.
   */
  datatype Insertion =
    | Here(a: seq<byte>, record: seq<byte>, b: seq<byte>)
    | Inside(a: seq<byte>, i: nat, key: seq<byte>, before: seq<byte>, after: seq<byte>, body: Insertion, b: seq<byte>)

  predicate FitsSchema(fields: seq<Field>, ins: Insertion)
    decreases ins
  {
    ins.Inside? ==> ins.i < |fields| && fields[ins.i].ltype.LSubmessage? && FitsSchema(fields[ins.i].sub, ins.body)
  }

  /** The message without the inserted record. */
  function Before(fields: seq<Field>, ins: Insertion): seq<byte>
    requires FitsSchema(fields, ins)
    decreases ins
  {
    match ins
    case Here(a, _, b) => a + b
    case Inside(a, i, key, len, _, body, b) => a + (key + (len + (Before(fields[i].sub, body) + b)))
  }

  /** The message with it, and with the length prefixes around it adjusted. */
  function After(fields: seq<Field>, ins: Insertion): seq<byte>
    requires FitsSchema(fields, ins)
    decreases ins
  {
    match ins
    case Here(a, u, b) => a + u + b
    case Inside(a, i, key, _, len, body, b) => a + (key + (len + (After(fields[i].sub, body) + b)))
  }

  /** A key with the field number of f, and any wire type. */
  predicate IsKey(f: Field, key: seq<byte>) {
    match Varint32(key)
    case Fail => false
    case Done(k, rest) => k / 8 == f.tag && rest == []
  }

  /** The array of the field is full, so that no item can be decoded into it. */
  predicate Full(f: Field, m: Msg, i: nat)
    requires i < |m.slots|
  {
    f.htype.Repeated? && f.arraySize <= m.slots[i].size
  }

  /** The destination of a submessage. */
  function Target(f: Field, m: Msg, i: nat): (v: Value)
    requires ValidField(f) && i < |m.slots| && TypedSlot(f, m.slots[i]) && !Full(f, m, i)
    ensures TypedValue(f, v)
  {
    var slot := m.slots[i];
    match f.htype
    case Repeated => slot.data[slot.size]
    case Oneof => OneofTarget(f, m.Which(f.union) == f.tag, slot.data[0])
    case _ => slot.data[0]
  }

  /** What the submessage is decoded on top of: the destination, or defaults for a new item of an array. */
  function Start(f: Field, v: Value): (m: Msg)
    requires ValidField(f) && f.ltype.LSubmessage? && TypedValue(f, v)
    ensures TypedMsg(f.sub, m)
  {
    if f.htype.Repeated? then SetDefaults(f.sub, v.msg, 0) else v.msg
  }

  /**
   Whatever stands before the insertion, at each depth, consists of complete records; the inserted record
   is an unknown one; and the keys and the length prefixes around it are right.
   */
  predicate WellPlaced(fields: seq<Field>, ins: Insertion, p: Progress)
    requires ValidFields(fields) && TypedMsg(fields, p.msg) && FitsSchema(fields, ins)
    decreases ins
  {
    && Records(fields, ins.a, p).Some?
    && match ins
       case Here(_, u, _) => UnknownRecord(fields, u)
       case Inside(a, i, key, before, after, body, _) =>
         var f, m := fields[i], Records(fields, a, p).value.msg;
         assert ValidField(f) && TypedSlot(f, m.slots[i]);
         && IsKey(f, key)
         && Varint32(before) == Done(|Before(f.sub, body)|, []) && Varint32(after) == Done(|After(f.sub, body)|, [])
         && (Full(f, m, i) || WellPlaced(f.sub, body, Progress(Start(f, Target(f, m, i)), {})))
  }

  /** A body behind a length prefix is a substream. */
  lemma PrefixedBody(len: seq<byte>, x: seq<byte>, b: seq<byte>)
    requires Varint32(len) == Done(|x|, [])
    ensures SubStream(len + (x + b)) == Done(x, b)
  {
    Varint32Extends(len, x + b);
    assert [] + (x + b) == x + b && (x + b)[..|x|] == x && (x + b)[|x|..] == b;
  }

  /** Two bodies that decode alike make two submessages that do. */
  lemma SubSame(f: Field, s: seq<byte>, x: seq<byte>, t: seq<byte>, y: seq<byte>, b: seq<byte>, v: Value)
    requires ValidField(f) && f.ltype.LSubmessage? && TypedValue(f, v)
    requires SubStream(s) == Done(x, b) && SubStream(t) == Done(y, b)
    requires DecLoop(f.sub, x, Progress(Start(f, v), {})) == DecLoop(f.sub, y, Progress(Start(f, v), {}))
    ensures DecSub(f, s, v.msg) == DecSub(f, t, v.msg)
  {}

  lemma FieldSame(fields: seq<Field>, i: nat, wireType: nat, s: seq<byte>, t: seq<byte>, m: Msg)
    requires ValidFields(fields) && TypedMsg(fields, m) && i < |fields| && fields[i].ltype.LSubmessage?
    requires ValidField(fields[i]) && TypedSlot(fields[i], m.slots[i])
    requires Full(fields[i], m, i)
          || DecValue(fields[i], s, Target(fields[i], m, i)) == DecValue(fields[i], t, Target(fields[i], m, i))
    ensures DecField(fields, i, wireType, s, m) == DecField(fields, i, wireType, t, m)
  {
    var f, slot := fields[i], m.slots[i];
    if f.htype.Repeated? {
      assert DecRepeated(f, wireType, s, slot) == DecRepeated(f, wireType, t, slot);
    } else {
      var selected := m.Which(f.union) == f.tag;
      assert DecSingle(f, s, slot, selected) == DecSingle(f, t, slot, selected);
    }
  }

  /** A key of the descriptor makes the decoder read the field. */
  lemma RoundIsRecord(fields: seq<Field>, i: nat, key: seq<byte>, s: seq<byte>, p: Progress)
    requires ValidFields(fields) && TypedMsg(fields, p.msg) && i < |fields| && IsKey(fields[i], key)
    ensures DecRound(fields, key + s, p)
         == match DecField(fields, i, Varint32(key).val % 8, s, p.msg)
            case Fail => Error
            case Done(m, rest) => Next(Progress(m, p.tags + {fields[i].tag}), rest)
  {
    assert ValidField(fields[i]);
    FindField(fields, i);
    Varint32Extends(key, s);
    assert [] + s == s;
  }

  lemma LoopSame(fields: seq<Field>, s: seq<byte>, t: seq<byte>, p: Progress)
    requires ValidFields(fields) && TypedMsg(fields, p.msg) && s != [] && t != []
    requires DecRound(fields, s, p) == DecRound(fields, t, p)
    ensures DecLoop(fields, s, p) == DecLoop(fields, t, p)
  {}

  /** Two records that decode alike are followed alike. */
  lemma RecordSame(fields: seq<Field>, i: nat, key: seq<byte>, s: seq<byte>, t: seq<byte>, p: Progress)
    requires ValidFields(fields) && TypedMsg(fields, p.msg) && i < |fields| && IsKey(fields[i], key)
    requires var wireType := Varint32(key).val % 8;
             DecField(fields, i, wireType, s, p.msg) == DecField(fields, i, wireType, t, p.msg)
    ensures DecLoop(fields, key + s, p) == DecLoop(fields, key + t, p)
  {
    RoundIsRecord(fields, i, key, s, p);
    RoundIsRecord(fields, i, key, t, p);
    LoopSame(fields, key + s, key + t, p);
  }

  /** An unknown record can be inserted at any depth without changing what the decoder makes of the message. */
  lemma {:induction false} UnknownFieldsAnywhere(fields: seq<Field>, ins: Insertion, p: Progress)
    requires ValidFields(fields) && TypedMsg(fields, p.msg) && FitsSchema(fields, ins) && WellPlaced(fields, ins, p)
    ensures DecLoop(fields, After(fields, ins), p) == DecLoop(fields, Before(fields, ins), p)
    decreases ins
  {
    match ins
    case Here(a, u, b) => UnknownFieldsTransparent(fields, a, u, b, p);
    case Inside(a, i, key, before, after, body, b) =>
      var f, p1 := fields[i], Records(fields, a, p).value;
      assert ValidField(f) && TypedSlot(f, p1.msg.slots[i]);
      var x, y := Before(f.sub, body), After(f.sub, body);
      var s, t := before + (x + b), after + (y + b);
      if !Full(f, p1.msg, i) {
        var v := Target(f, p1.msg, i);
        UnknownFieldsAnywhere(f.sub, body, Progress(Start(f, v), {}));
        PrefixedBody(before, x, b);
        PrefixedBody(after, y, b);
        SubSame(f, s, x, t, y, b, v);
      }
      FieldSame(fields, i, Varint32(key).val % 8, s, t, p1.msg);
      RecordSame(fields, i, key, s, t, p1);
      DecLoopAppend(fields, a, key + s, p);
      DecLoopAppend(fields, a, key + t, p);
  }

  /** The same for whole messages. */
  lemma UnknownFieldsIgnoredAnywhere(fields: seq<Field>, ins: Insertion, m: Msg)
    requires ValidFields(fields) && TypedMsg(fields, m) && FitsSchema(fields, ins)
    requires WellPlaced(fields, ins, Progress(SetDefaults(fields, m, 0), {}))
    ensures Decode(fields, After(fields, ins), m) == Decode(fields, Before(fields, ins), m)
  {
    UnknownFieldsAnywhere(fields, ins, Progress(SetDefaults(fields, m, 0), {}));
  }
}

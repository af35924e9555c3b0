/** What was decoded can be encoded again, and then be decoded to the same message. */
module Reencoding {
  import opened Basics
  import opened Bits
  import opened Wire
  import opened Schema
  import opened EncodeSpec
  import opened DecodeSpec
  import opened RoundTrip
  import opened Unterminated

  //////////////////////////////////////////////////////////////////////////////
  // Schemas and messages
  //////////////////////////////////////////////////////////////////////////////

  /** Required fields, which are encoded even when nothing was decoded into them, have initial values for that. */
  predicate SchemaOk(fields: seq<Field>)
    requires ValidFields(fields)
    decreases fields, 1
  {
    forall i :: 0 <= i < |fields| ==> ValidField(fields[i]) && FieldOk(fields[i])
  }

  predicate FieldOk(f: Field)
    requires ValidField(f)
    decreases f, 0
  {
    && SchemaOk(f.sub)
    && (f.htype.Required? && !f.ltype.LSubmessage? ==> Encodable(f, f.init) && Terminated(f, f.init))
  }

  /** The value can be encoded and decoded again; in a submessage, so can whatever will be decoded into it. */
  predicate Good(f: Field, v: Value)
    requires TypedValue(f, v)
    decreases f, 0
  {
    if f.ltype.LSubmessage? then GoodMsg(f.sub, v.msg) else Encodable(f, v) && Terminated(f, v)
  }

  predicate GoodField(f: Field, m: Msg, i: nat)
    requires i < |m.slots| && TypedSlot(f, m.slots[i])
    decreases f, 1
  {
    var s := m.slots[i];
    match f.htype
    case Repeated => s.size <= f.arraySize && forall k :: 0 <= k < s.size ==> Good(f, s.data[k])
    case Oneof => m.Which(f.union) == f.tag ==> Good(f, s.data[0])
    case Required => Good(f, s.data[0])
    case Optional => f.ltype.LSubmessage? || s.size != 0 ==> Good(f, s.data[0])
    case Singular => (!f.ltype.LSubmessage? && IsZero(f, s.data[0])) || Good(f, s.data[0])
  }

  predicate GoodMsg(fields: seq<Field>, m: Msg)
    requires TypedMsg(fields, m)
    decreases fields, 0
  {
    UnionsListed(fields, m) && forall i :: 0 <= i < |fields| ==> GoodField(fields[i], m, i)
  }

  lemma {:induction false} GoodValueEncodes(f: Field, v: Value)
    requires TypedValue(f, v) && Good(f, v)
    ensures Encodable(f, v) && Terminated(f, v)
    decreases f, 0
  {
    if f.ltype.LSubmessage? { GoodMsgEncodes(f.sub, v.msg); }
  }

  lemma {:induction false} GoodMsgEncodes(fields: seq<Field>, m: Msg)
    requires TypedMsg(fields, m) && GoodMsg(fields, m)
    ensures EncodableMsg(fields, m) && TerminatedMsg(fields, m)
    decreases fields, 1
  {
    forall i | 0 <= i < |fields|
      ensures EncodableField(fields[i], m, m.slots[i]) && TerminatedField(fields[i], m, m.slots[i])
    {
      GoodFieldEncodes(fields[i], m, i);
    }
  }

  lemma {:induction false} GoodFieldEncodes(f: Field, m: Msg, i: nat)
    requires i < |m.slots| && TypedSlot(f, m.slots[i]) && GoodField(f, m, i)
    ensures EncodableField(f, m, m.slots[i]) && TerminatedField(f, m, m.slots[i])
    decreases f, 1
  {
    var s := m.slots[i];
    forall k | 0 <= k < |s.data| && Good(f, s.data[k]) ensures Encodable(f, s.data[k]) && Terminated(f, s.data[k]) {
      GoodValueEncodes(f, s.data[k]);
    }
  }

  //////////////////////////////////////////////////////////////////////////////
  // Defaults
  //////////////////////////////////////////////////////////////////////////////

  lemma {:induction false} DefaultsGood(fields: seq<Field>, m: Msg)
    requires ValidFields(fields) && SchemaOk(fields) && TypedMsg(fields, m) && AllDefaulted(fields, m)
    ensures GoodMsg(fields, m)
    decreases fields, 1
  {
    forall i | 0 <= i < |fields| ensures GoodField(fields[i], m, i) {
      var f, s := fields[i], m.slots[i];
      assert ValidField(f) && FieldOk(f) && TypedSlot(f, s) && Defaulted(f, m, i);
      if f.ltype.LSubmessage? {
        if !f.htype.Repeated? && !f.htype.Oneof? { InitGood(f, s.data[0]); }
      } else if f.htype.Required? {
        InitGood(f, s.data[0]);
      } else if f.htype.Singular? {
        ZeroGood(f, s.data[0]);
      }
    }
    assert forall i :: 0 <= i < |fields| ==> Defaulted(fields[i], m, i);
  }

  lemma {:induction false} InitGood(f: Field, v: Value)
    requires ValidField(f) && FieldOk(f) && (f.ltype.LSubmessage? || f.htype.Required?)
    requires TypedValue(f, v) && HasInit(f, v)
    ensures Good(f, v)
    decreases f, 0
  {
    if f.ltype.LSubmessage? { DefaultsGood(f.sub, v.msg); }
  }

  /** A proto3 default is not written, or can be. */
  lemma ZeroGood(f: Field, v: Value)
    requires ValidField(f) && f.htype.Singular? && !f.ltype.LSubmessage? && TypedValue(f, v) && HasInit(f, v)
    ensures IsZero(f, v) || Good(f, v)
  {
    assert v == f.init == ZeroValue(f);
  }

  //////////////////////////////////////////////////////////////////////////////
  // Decoding
  //////////////////////////////////////////////////////////////////////////////

  lemma {:induction false} ValueGood(f: Field, s: seq<byte>, v: Value)
    requires ValidField(f) && FieldOk(f) && TypedValue(f, v) && DecValue(f, s, v).Done?
    requires f.ltype.LSubmessage? && !f.htype.Repeated? ==> Good(f, v)
    ensures Good(f, DecValue(f, s, v).val)
    decreases f, 1
  {
    if f.ltype.LSubmessage? { SubGood(f, s, v); } else { ScalarGood(f, s, v); }
  }

  lemma ScalarGood(f: Field, s: seq<byte>, v: Value)
    requires ValidField(f) && TypedValue(f, v) && !f.ltype.LSubmessage? && DecValue(f, s, v).Done?
    ensures Good(f, DecValue(f, s, v).val)
  {
    if f.ltype.LString? {
      var n := Varint32(s).val;
      assert DecText(f, s, v.buf).val.buf[n] == 0;
    }
  }

  lemma {:induction false} SubGood(f: Field, s: seq<byte>, v: Value)
    requires ValidField(f) && FieldOk(f) && TypedValue(f, v) && f.ltype.LSubmessage? && DecSub(f, s, v.msg).Done?
    requires f.htype.Repeated? || GoodMsg(f.sub, v.msg)
    ensures GoodMsg(f.sub, DecSub(f, s, v.msg).val.msg)
    decreases f, 0
  {
    var start := if f.htype.Repeated? then SetDefaults(f.sub, v.msg, 0) else v.msg;
    if f.htype.Repeated? {
      SetDefaultsExact(f.sub, v.msg);
      DefaultsGood(f.sub, start);
    }
    var body := SubStream(s).val;
    assert DecMsg(f.sub, body, start).Done?;
    LoopGood(f.sub, body, Progress(start, {}));
  }

  lemma {:induction false} PackedGood(f: Field, s: seq<byte>, slot: Slot)
    requires ValidField(f) && FieldOk(f) && f.htype.Repeated? && f.ltype.Packable() && TypedSlot(f, slot)
    requires slot.size <= f.arraySize && forall k :: 0 <= k < slot.size ==> Good(f, slot.data[k])
    requires DecPacked(f, s, slot).Done?
    ensures var slot' := DecPacked(f, s, slot).val;
            slot'.size <= f.arraySize && forall k :: 0 <= k < slot'.size ==> Good(f, slot'.data[k])
    decreases f, 2, |s|
  {
    if s != [] {
      var v := slot.data[slot.size];
      var Done(w, rest) := DecValue(f, s, v);
      ValueGood(f, s, v);
      PackedGood(f, rest, StoreItem(slot, slot.size, w, slot.size + 1));
    }
  }

  lemma {:induction false} RepeatedGood(f: Field, wireType: nat, s: seq<byte>, slot: Slot)
    requires ValidField(f) && FieldOk(f) && f.htype.Repeated? && TypedSlot(f, slot)
    requires slot.size <= f.arraySize && forall k :: 0 <= k < slot.size ==> Good(f, slot.data[k])
    requires DecRepeated(f, wireType, s, slot).Done?
    ensures var slot' := DecRepeated(f, wireType, s, slot).val;
            slot'.size <= f.arraySize && forall k :: 0 <= k < slot'.size ==> Good(f, slot'.data[k])
    decreases f, 3
  {
    if wireType == WT_STRING && f.ltype.Packable() {
      PackedGood(f, SubStream(s).val, slot);
    } else {
      ValueGood(f, s, slot.data[slot.size]);
    }
  }

  lemma {:induction false} SingleGood(f: Field, s: seq<byte>, m: Msg, i: nat)
    requires i < |m.slots| && ValidField(f) && FieldOk(f) && !f.htype.Repeated? && TypedSlot(f, m.slots[i])
    requires GoodField(f, m, i) && DecSingle(f, s, m.slots[i], m.Which(f.union) == f.tag).Done?
    ensures Good(f, DecSingle(f, s, m.slots[i], m.Which(f.union) == f.tag).val.data[0])
    decreases f, 2
  {
    var v, selected := m.slots[i].data[0], m.Which(f.union) == f.tag;
    var target := if f.htype.Oneof? then OneofTarget(f, selected, v) else v;
    if f.htype.Oneof? && f.ltype.LSubmessage? && !selected {
      ZeroMsgTyped(f.sub);
      SetDefaultsExact(f.sub, ZeroMsg(f.sub));
      DefaultsGood(f.sub, target.msg);
    }
    ValueGood(f, s, target);
  }

  /** A field that is decoded leaves all fields good. */
  lemma {:induction false} FieldGood(fields: seq<Field>, i: nat, wireType: nat, s: seq<byte>, m: Msg)
    requires ValidFields(fields) && SchemaOk(fields) && TypedMsg(fields, m) && i < |fields| && GoodMsg(fields, m)
    requires DecField(fields, i, wireType, s, m).Done?
    ensures GoodMsg(fields, DecField(fields, i, wireType, s, m).val)
    decreases fields, 0, 0
  {
    var f := fields[i];
    assert ValidField(f) && FieldOk(f) && TypedSlot(f, m.slots[i]) && GoodField(f, m, i);
    if f.htype.Repeated? { RepeatedGood(f, wireType, s, m.slots[i]); } else { SingleGood(f, s, m, i); }
    var m' := DecField(fields, i, wireType, s, m).val;
    FindField(fields, i);
    forall j | 0 <= j < |fields| ensures GoodField(fields[j], m', j) {
      assert TypedSlot(fields[j], m'.slots[j]) && GoodField(fields[j], m, j);
      if j != i { assert fields[j].tag != f.tag; }
    }
  }

  lemma {:induction false} RoundGood(fields: seq<Field>, s: seq<byte>, p: Progress)
    requires ValidFields(fields) && SchemaOk(fields) && TypedMsg(fields, p.msg) && GoodMsg(fields, p.msg)
    requires DecRound(fields, s, p).Next?
    ensures GoodMsg(fields, DecRound(fields, s, p).state.msg)
    decreases fields, 1, 0
  {
    var Done(key, rest) := Varint32(s);
    var found := Find(fields, key / 8);
    if found.Some? { FieldGood(fields, found.value, key % 8, rest, p.msg); }
  }

  lemma {:induction false} LoopGood(fields: seq<Field>, s: seq<byte>, p: Progress)
    requires ValidFields(fields) && SchemaOk(fields) && TypedMsg(fields, p.msg) && GoodMsg(fields, p.msg)
    requires DecLoop(fields, s, p).Done?
    ensures GoodMsg(fields, DecLoop(fields, s, p).val.msg)
    decreases fields, 2, |s|
  {
    if s != [] && DecRound(fields, s, p).Next? {
      var Next(p', rest) := DecRound(fields, s, p);
      RoundGood(fields, s, p);
      LoopGood(fields, rest, p');
    }
  }

  /**
   Whatever pb_decode accepts is a message that pb_encode accepts. When the encoding is shorter than 2^32
   bytes, pb_decode reads it, and makes the same message of it again.
   */
  lemma DecodedReencodes(fields: seq<Field>, s: seq<byte>, dest: Msg, dest': Msg)
    requires ValidFields(fields) && SchemaOk(fields) && TypedMsg(fields, dest) && TypedMsg(fields, dest')
    requires Decode(fields, s, dest).Done?
    ensures var m := Decode(fields, s, dest).val;
            && EncodableMsg(fields, m) && TerminatedMsg(fields, m)
            && (|EncMsg(fields, m).out| < TWO_TO_32 ==>
                  var r := Decode(fields, EncMsg(fields, m).out, dest');
                  r.Done? && r.rest == [] && SameMsg(fields, m, r.val))
  {
    var start := SetDefaults(fields, dest, 0);
    SetDefaultsExact(fields, dest);
    DefaultsGood(fields, start);
    LoopGood(fields, s, Progress(start, {}));
    var m := Decode(fields, s, dest).val;
    GoodMsgEncodes(fields, m);
    if |EncMsg(fields, m).out| < TWO_TO_32 { RoundTripExactly(fields, m, dest'); }
  }
}

/**
 Decoding an encoded message on top of another one: exactly when it succeeds, and what comes of it. The
 destination may hold anything that its layout allows.
 */
module Overlay {
  import opened Basics
  import opened Bits
  import opened Wire
  import opened Schema
  import opened EncodeSpec
  import opened DecodeSpec
  import opened Merge
  import opened RoundTrip
  import opened Presence

  //////////////////////////////////////////////////////////////////////////////
  // What the decoder accepts on top of a message
  //////////////////////////////////////////////////////////////////////////////

  /** v is accepted by a destination that holds d; a new array entry starts from defaults instead. */
  predicate TakesValue(f: Field, d: Value, v: Value)
    requires TypedValue(f, d) && TypedValue(f, v)
    decreases f, 0
  {
    if f.ltype.LSubmessage? && !f.htype.Repeated? then TakesMsg(f.sub, d.msg, v.msg) else Terminated(f, v)
  }

  /** What the oneof of the field selects is nothing, or the number of some field of the message. */
  predicate KnownSelection(fields: seq<Field>, f: Field, d: Msg) {
    var which := d.Which(f.union);
    f.htype.Oneof? ==> which == 0 || which == f.tag || exists k :: 0 <= k < |fields| && fields[k].tag == which
  }

  /** pb_release_union_field finds the member that was selected exactly if it is a field of the message. */
  lemma ReleasesExactly(fields: seq<Field>, f: Field, d: Msg)
    ensures Releasable(fields, f, d) <==> KnownSelection(fields, f, d)
  {}

  /** A oneof member that is not selected starts from defaults, too. */
  predicate TakesSingle(fields: seq<Field>, f: Field, d: Msg, i: nat, v: Value)
    requires i < |d.slots| && TypedSlot(f, d.slots[i]) && !f.htype.Repeated? && TypedValue(f, v)
    decreases f, 1
  {
    && KnownSelection(fields, f, d)
    && if f.htype.Oneof? && d.Which(f.union) != f.tag then Terminated(f, v) else TakesValue(f, d.slots[i].data[0], v)
  }

  /** The items fit into the rest of the array. */
  predicate TakesItems(f: Field, t: Slot, items: seq<Value>)
    requires forall k :: 0 <= k < |items| ==> TypedValue(f, items[k])
  {
    && (items != [] ==> t.size + |items| <= f.arraySize)
    && forall k :: 0 <= k < |items| ==> Terminated(f, items[k])
  }

  predicate TakesField(fields: seq<Field>, f: Field, d: Msg, m: Msg, i: nat)
    requires i < |d.slots| && i < |m.slots| && TypedSlot(f, d.slots[i]) && TypedSlot(f, m.slots[i])
    decreases f, 2
  {
    var s := m.slots[i];
    if Absent(f, m, s) then true
    else if f.htype.Repeated? then s.size <= |s.data| && TakesItems(f, d.slots[i], s.data[..s.size])
    else TakesSingle(fields, f, d, i, s.data[0])
  }

  /** m is accepted by a destination that holds d. */
  predicate TakesMsg(fields: seq<Field>, d: Msg, m: Msg)
    requires TypedMsg(fields, d) && TypedMsg(fields, m)
    decreases fields, 0
  {
    forall i :: 0 <= i < |fields| ==> TakesField(fields, fields[i], d, m, i)
  }

  //////////////////////////////////////////////////////////////////////////////
  // What comes of it
  //////////////////////////////////////////////////////////////////////////////

  /** r is v on top of d: submessages are merged, other values are replaced. */
  ghost predicate MergedValue(f: Field, d: Value, v: Value, r: Value)
    requires TypedValue(f, d) && TypedValue(f, v) && TypedValue(f, r)
    decreases f, 0
  {
    if f.ltype.LSubmessage? && !f.htype.Repeated? then MergedMsg(f.sub, d.msg, v.msg, r.msg) else SameValue(f, v, r)
  }

  ghost predicate MergedSingle(f: Field, d: Msg, i: nat, v: Value, r: Slot)
    requires i < |d.slots| && TypedSlot(f, d.slots[i]) && TypedSlot(f, r) && !f.htype.Repeated? && TypedValue(f, v)
    decreases f, 1
  {
    && (f.htype.Optional? ==> r.size != 0)
    && if f.htype.Oneof? && d.Which(f.union) != f.tag then SameValue(f, v, r.data[0])
       else MergedValue(f, d.slots[i].data[0], v, r.data[0])
  }

  /** r is what the slot at position i of d becomes: the last value wins, and array items are appended. */
  ghost predicate MergedSlot(f: Field, d: Msg, m: Msg, i: nat, r: Slot)
    requires i < |d.slots| && i < |m.slots|
    requires TypedSlot(f, d.slots[i]) && TypedSlot(f, m.slots[i]) && TypedSlot(f, r)
    decreases f, 2
  {
    var s, t := m.slots[i], d.slots[i];
    if Absent(f, m, s) then r == t
    else if f.htype.Repeated? then s.size <= |s.data| && Appended(f, s.data[..s.size], t, r)
    else MergedSingle(f, d, i, s.data[0], r)
  }

  /** One of the first n fields is the selected member of the oneof. */
  predicate Selects(fields: seq<Field>, m: Msg, union: nat, n: nat)
    requires n <= |fields|
  {
    exists i :: 0 <= i < n && fields[i].htype.Oneof? && fields[i].union == union && fields[i].tag == m.Which(union)
  }

  /** r selects what m does among the first n fields, and what d does where m selects none of them. */
  ghost predicate MergedWhich(fields: seq<Field>, d: Msg, m: Msg, r: Msg, n: nat)
    requires n <= |fields|
  {
    forall u: nat :: r.Which(u) == if Selects(fields, m, u, n) then m.Which(u) else d.Which(u)
  }

  /** r is m on top of d. */
  ghost predicate MergedMsg(fields: seq<Field>, d: Msg, m: Msg, r: Msg)
    requires TypedMsg(fields, d) && TypedMsg(fields, m) && TypedMsg(fields, r)
    decreases fields, 0
  {
    && MergedWhich(fields, d, m, r, |fields|)
    && forall i :: 0 <= i < |fields| ==> MergedSlot(fields[i], d, m, i, r.slots[i])
  }

  //////////////////////////////////////////////////////////////////////////////
  // Cleared destinations
  //////////////////////////////////////////////////////////////////////////////

  /** A cleared destination takes whatever is terminated. */
  lemma {:induction false} ClearedTakes(fields: seq<Field>, d: Msg, m: Msg)
    requires ValidFields(fields) && TypedMsg(fields, d) && TypedMsg(fields, m)
    requires Cleared(fields, d) && EncodableMsg(fields, m)
    ensures TakesMsg(fields, d, m) <==> TerminatedMsg(fields, m)
    decreases fields, 1
  {
    forall i | 0 <= i < |fields|
      ensures TakesField(fields, fields[i], d, m, i) <==> TerminatedField(fields[i], m, m.slots[i])
    {
      assert ValidField(fields[i]) && Pending(fields[i], d, i) && EncodableField(fields[i], m, m.slots[i]);
      ReleasesExactly(fields, fields[i], d);
      PendingTakes(fields, fields[i], d, m, i);
    }
  }

  lemma {:induction false} PendingTakes(fields: seq<Field>, f: Field, d: Msg, m: Msg, i: nat)
    requires ValidField(f) && i < |d.slots| && i < |m.slots| && TypedSlot(f, d.slots[i]) && TypedSlot(f, m.slots[i])
    requires Pending(f, d, i) && KnownSelection(fields, f, d) && EncodableField(f, m, m.slots[i])
    ensures TakesField(fields, f, d, m, i) <==> TerminatedField(f, m, m.slots[i])
    decreases f, 1
  {
    var s, t := m.slots[i], d.slots[i];
    AbsentExactly(f, m, s);
    if f.htype.Repeated? {
      assert forall k :: 0 <= k < s.size ==> s.data[..s.size][k] == s.data[k];
    } else if !f.htype.Oneof? && !Absent(f, m, s) {
      FreshTakes(f, t.data[0], s.data[0]);
    }
  }

  lemma {:induction false} FreshTakes(f: Field, d: Value, v: Value)
    requires ValidField(f) && TypedValue(f, d) && TypedValue(f, v) && Encodable(f, v)
    requires f.htype.Repeated? || Fresh(f, d)
    ensures TakesValue(f, d, v) <==> Terminated(f, v)
    decreases f, 0
  {
    if f.ltype.LSubmessage? && !f.htype.Repeated? { ClearedTakes(f.sub, d.msg, v.msg); }
  }

  /** What is merged into a cleared destination is restored. */
  lemma {:induction false} ClearedSame(fields: seq<Field>, d: Msg, m: Msg, r: Msg)
    requires ValidFields(fields) && TypedMsg(fields, d) && TypedMsg(fields, m) && TypedMsg(fields, r)
    requires Cleared(fields, d) && MergedMsg(fields, d, m, r)
    ensures SameMsg(fields, m, r)
    decreases fields, 1
  {
    forall i | 0 <= i < |fields| ensures SameField(fields[i], m, r, i) {
      assert ValidField(fields[i]) && Pending(fields[i], d, i) && MergedSlot(fields[i], d, m, i, r.slots[i]);
      var f := fields[i];
      if f.htype.Oneof? { SelectionArrives(fields, i, d, m, r); }
      PendingSame(f, d, m, r, i);
    }
  }

  lemma SelectionArrives(fields: seq<Field>, i: nat, d: Msg, m: Msg, r: Msg)
    requires i < |fields| && fields[i].htype.Oneof? && MergedWhich(fields, d, m, r, |fields|)
    requires d.Which(fields[i].union) != fields[i].tag
    ensures m.Which(fields[i].union) == fields[i].tag <==> r.Which(fields[i].union) == fields[i].tag
  {
    var u := fields[i].union;
    assert r.Which(u) == if Selects(fields, m, u, |fields|) then m.Which(u) else d.Which(u);
  }

  lemma {:induction false} PendingSame(f: Field, d: Msg, m: Msg, r: Msg, i: nat)
    requires ValidField(f) && i < |d.slots| && i < |m.slots| && i < |r.slots|
    requires TypedSlot(f, d.slots[i]) && TypedSlot(f, m.slots[i]) && TypedSlot(f, r.slots[i])
    requires Pending(f, d, i) && MergedSlot(f, d, m, i, r.slots[i])
    requires f.htype.Oneof? ==> (m.Which(f.union) == f.tag <==> r.Which(f.union) == f.tag)
    ensures SameField(f, m, r, i)
    decreases f, 1
  {
    AbsentExactly(f, m, m.slots[i]);
    if Absent(f, m, m.slots[i]) {
      AbsentSame(f, d, m, r, i);
    } else if f.htype.Repeated? {
      AppendedSame(f, d.slots[i], m.slots[i], r.slots[i]);
    } else if !f.htype.Oneof? {
      FreshSame(f, d.slots[i].data[0], m.slots[i].data[0], r.slots[i].data[0]);
    }
  }

  lemma {:induction false} AbsentSame(f: Field, d: Msg, m: Msg, r: Msg, i: nat)
    requires ValidField(f) && i < |d.slots| && i < |m.slots| && i < |r.slots| && r.slots[i] == d.slots[i]
    requires TypedSlot(f, d.slots[i]) && TypedSlot(f, m.slots[i])
    requires Pending(f, d, i) && Unwritten(f, m, m.slots[i])
    requires f.htype.Oneof? ==> r.Which(f.union) != f.tag
    ensures SameField(f, m, r, i)
  {
    if f.htype.Singular? { ZeroSame(f, m.slots[i].data[0], d.slots[i].data[0]); }
  }

  lemma AppendedSame(f: Field, t: Slot, s: Slot, r: Slot)
    requires t.size == 0 && s.size <= |s.data| == |r.data| && Appended(f, s.data[..s.size], t, r)
    ensures r.size == s.size && SameItems(f, s, r, s.size)
  {
    assert forall k :: 0 <= k < s.size ==> s.data[..s.size][k] == s.data[k];
  }

  lemma {:induction false} FreshSame(f: Field, d: Value, v: Value, r: Value)
    requires ValidField(f) && TypedValue(f, d) && TypedValue(f, v) && TypedValue(f, r)
    requires (f.htype.Repeated? || Fresh(f, d)) && MergedValue(f, d, v, r)
    ensures SameValue(f, v, r)
    decreases f, 0
  {
    if f.ltype.LSubmessage? && !f.htype.Repeated? { ClearedSame(f.sub, d.msg, v.msg, r.msg); }
  }

  //////////////////////////////////////////////////////////////////////////////
  // Values
  //////////////////////////////////////////////////////////////////////////////

  /** The value is written, in fewer than 2^32 bytes. */
  predicate Written(f: Field, v: Value) {
    TypedValue(f, v) && EncValue(f, v).ok && |EncValue(f, v).out| < TWO_TO_32
  }

  lemma {:induction false} ValueMerges(f: Field, v: Value, d: Value, t: seq<byte>)
    requires ValidField(f) && TypedValue(f, d) && Written(f, v)
    ensures var r := DecValue(f, EncValue(f, v).out + t, d);
            && (r.Done? <==> TakesValue(f, d, v))
            && (r.Done? ==> r.rest == t && MergedValue(f, d, v, r.val))
    decreases f, 0
  {
    match f.ltype
    case LBytes => BytesRoundTrip(f, v, d, t);
    case LString => TextRoundTrip(f, v, d, t);
    case LFixedLengthBytes => InlineRoundTrip(f, v, t);
    case LSubmessage => SubMerges(f, v, d, t);
    case _ => NumRoundTrip(f, v, t);
  }

  lemma {:induction false} SubMerges(f: Field, v: Value, d: Value, t: seq<byte>)
    requires ValidField(f) && f.ltype.LSubmessage? && TypedValue(f, d) && Written(f, v)
    ensures var r := DecSub(f, EncValue(f, v).out + t, d.msg);
            && (r.Done? <==> TakesValue(f, d, v))
            && (r.Done? ==> r.rest == t && MergedValue(f, d, v, r.val))
    decreases f, 0, 0
  {
    var e := EncMsg(f.sub, v.msg);
    DelimitedRoundTrip(e.out, t);
    if f.htype.Repeated? {
      SetDefaultsClears(f.sub, d.msg);
      ClearedMerges(f.sub, v.msg, SetDefaults(f.sub, d.msg, 0));
    } else {
      MessageMerges(f.sub, v.msg, d.msg);
    }
  }

  /** Into a cleared destination. */
  lemma {:induction false} ClearedMerges(fields: seq<Field>, m: Msg, d: Msg)
    requires ValidFields(fields) && TypedMsg(fields, m) && TypedMsg(fields, d) && Cleared(fields, d)
    requires EncMsg(fields, m).ok && |EncMsg(fields, m).out| < TWO_TO_32
    ensures var r := DecMsg(fields, EncMsg(fields, m).out, d);
            && (r.Done? <==> TerminatedMsg(fields, m))
            && (r.Done? ==> r.rest == [] && SameMsg(fields, m, r.val))
    decreases fields, 4
  {
    EncMsgOk(fields, m);
    MessageMerges(fields, m, d);
    ClearedTakes(fields, d, m);
    var r := DecMsg(fields, EncMsg(fields, m).out, d);
    if r.Done? { ClearedSame(fields, d, m, r.val); }
  }

  /** A oneof member that was not selected. */
  lemma {:induction false} SelectedMerges(f: Field, v: Value, d: Value, t: seq<byte>)
    requires ValidField(f) && f.htype.Oneof? && TypedValue(f, d) && Written(f, v)
    ensures var r := DecValue(f, EncValue(f, v).out + t, OneofTarget(f, false, d));
            && (r.Done? <==> Terminated(f, v))
            && (r.Done? ==> r.rest == t && SameValue(f, v, r.val))
    decreases f, 1
  {
    var target := OneofTarget(f, false, d);
    OneofTargetFresh(f, d);
    ValueMerges(f, v, target, t);
    EncValueOk(f, v);
    FreshTakes(f, target, v);
    var r := DecValue(f, EncValue(f, v).out + t, target);
    if r.Done? { FreshSame(f, target, v, r.val); }
  }

  //////////////////////////////////////////////////////////////////////////////
  // Fields with one value
  //////////////////////////////////////////////////////////////////////////////

  /** The message when the slot at position i has been decoded. */
  function Stored(f: Field, i: nat, d: Msg, slot: Slot): Msg
    requires i < |d.slots|
  {
    Msg(d.slots[i := slot], if f.htype.Oneof? then d.which[f.union := f.tag] else d.which)
  }

  /** The outcome of decoding a field, told from whether it succeeds and what it leaves in the slot. */
  function Outcome(f: Field, i: nat, d: Msg, ok: bool, slot: Slot, t: seq<byte>): Parse<Msg>
    requires i < |d.slots|
  {
    if ok then Done(Stored(f, i, d, slot), t) else Fail
  }

  lemma {:induction false} SingleMerges(fields: seq<Field>, i: nat, v: Value, d: Msg, t: seq<byte>)
    returns (r: Slot)
    requires ValidFields(fields) && TypedMsg(fields, d) && i < |fields|
    requires ValidField(fields[i]) && TypedSlot(fields[i], d.slots[i])
    requires !fields[i].htype.Repeated? && Written(fields[i], v)
    ensures TypedSlot(fields[i], r)
    ensures DecField(fields, i, WireType(fields[i].ltype), EncValue(fields[i], v).out + t, d)
         == Outcome(fields[i], i, d, TakesSingle(fields, fields[i], d, i, v), r, t)
    ensures TakesSingle(fields, fields[i], d, i, v) ==> MergedSingle(fields[i], d, i, v, r)
    decreases fields[i], 3
  {
    var f, slot, selected := fields[i], d.slots[i], d.Which(fields[i].union) == fields[i].tag;
    var w := DecSingle(f, EncValue(f, v).out + t, slot, selected);
    r := if w.Done? then w.val else slot;
    SingleReads(f, v, slot, selected, t);
    FieldIsSingle(fields, i, EncValue(f, v).out + t, d);
    ReleasesExactly(fields, f, d);
  }

  lemma FieldIsSingle(fields: seq<Field>, i: nat, s: seq<byte>, d: Msg)
    requires ValidFields(fields) && TypedMsg(fields, d) && i < |fields| && !fields[i].htype.Repeated?
    requires ValidField(fields[i]) && TypedSlot(fields[i], d.slots[i])
    ensures var f := fields[i];
            var r := DecSingle(f, s, d.slots[i], d.Which(f.union) == f.tag);
            DecField(fields, i, WireType(f.ltype), s, d)
            == if Releasable(fields, f, d) && r.Done? then Done(Stored(f, i, d, r.val), r.rest) else Fail
  {}

  lemma {:induction false} SingleReads(f: Field, v: Value, slot: Slot, selected: bool, t: seq<byte>)
    requires ValidField(f) && TypedSlot(f, slot) && !f.htype.Repeated? && Written(f, v)
    ensures var w, held := DecSingle(f, EncValue(f, v).out + t, slot, selected), slot.data[0];
            var reset := f.htype.Oneof? && !selected;
            && (w.Done? <==> if reset then Terminated(f, v) else TakesValue(f, held, v))
            && (w.Done? ==> && w.rest == t && (f.htype.Optional? ==> w.val.size != 0)
                            && if reset then SameValue(f, v, w.val.data[0]) else MergedValue(f, held, v, w.val.data[0]))
    decreases f, 2
  {
    var held := slot.data[0];
    if f.htype.Oneof? && !selected { SelectedMerges(f, v, held, t); } else { ValueMerges(f, v, held, t); }
  }

  /** A key of the descriptor is followed by decoding its field, and fails exactly if that does. */
  lemma RoundIsField(fields: seq<Field>, i: nat, wireType: nat, s: seq<byte>, p: Progress)
    requires ValidFields(fields) && TypedMsg(fields, p.msg) && i < |fields| && wireType < 8
    ensures DecRound(fields, EncTag(fields[i].tag, wireType) + s, p)
         == match DecField(fields, i, wireType, s, p.msg)
            case Fail => Error
            case Done(m, rest) => Next(Progress(m, p.tags + {fields[i].tag}), rest)
  {
    assert ValidField(fields[i]);
    TagRoundTrip(fields[i].tag, wireType, s);
    FindField(fields, i);
  }

  lemma RoundFailsLoop(fields: seq<Field>, s: seq<byte>, p: Progress)
    requires ValidFields(fields) && TypedMsg(fields, p.msg) && s != [] && DecRound(fields, s, p) == Error
    ensures DecLoop(fields, s, p) == Fail
  {}

  //////////////////////////////////////////////////////////////////////////////
  // Arrays
  //////////////////////////////////////////////////////////////////////////////

  predicate AllWritten(f: Field, items: seq<Value>) {
    && (forall k :: 0 <= k < |items| ==> TypedValue(f, items[k]))
    && (forall k :: 0 <= k < |items| ==> Written(f, items[k]))
  }

  lemma AllWrittenTail(f: Field, items: seq<Value>)
    requires AllWritten(f, items) && items != []
    ensures AllWritten(f, items[1..]) && Written(f, items[0])
    ensures EncItems(f, items).ok && EncRecords(f, items).ok
  {
    EncItemsOk(f, items);
  }

  lemma AllWrittenTailOk(f: Field, items: seq<Value>)
    requires AllWritten(f, items) && items != []
    ensures EncItems(f, items[1..]).ok && EncRecords(f, items[1..]).ok
  {
    EncItemsOk(f, items[1..]);
  }

  /** There is room for the item. */
  predicate TakesItem(f: Field, slot: Slot, v: Value)
    requires TypedValue(f, v)
  {
    slot.size < f.arraySize && Terminated(f, v)
  }

  /** The items fit exactly if the first one does, and then the others do behind it. */
  lemma TakesFirst(f: Field, slot: Slot, slot': Slot, items: seq<Value>)
    requires items != [] && AllWritten(f, items) && slot'.size == slot.size + 1
    ensures TakesItems(f, slot, items) <==> TakesItem(f, slot, items[0]) && TakesItems(f, slot', items[1..])
  {
    var tail := items[1..];
    assert forall k :: 0 < k < |items| ==> items[k] == tail[k - 1];
    assert forall k :: 0 <= k < |tail| ==> tail[k] == items[k + 1];
  }

  /** An item that is decoded with whatever follows it: numbers of a packed array as well. */
  lemma {:induction false} ItemMerges(f: Field, v: Value, slot: Slot, t: seq<byte>) returns (r: Slot)
    requires ValidField(f) && f.htype.Repeated? && TypedSlot(f, slot) && Written(f, v)
    ensures TypedSlot(f, r) && (TakesItem(f, slot, v) ==> ItemStored(f, v, slot, r))
    ensures DecItem(f, EncValue(f, v).out + t, slot) == if TakesItem(f, slot, v) then Done(r, t) else Fail
    decreases f, 1
  {
    r := slot;
    if slot.size < f.arraySize {
      var target := slot.data[slot.size];
      ValueMerges(f, v, target, t);
      var w := DecValue(f, EncValue(f, v).out + t, target);
      if w.Done? { r := StoreItem(slot, slot.size, w.val, slot.size + 1); }
    }
  }

  lemma {:induction false} PackedMerges(f: Field, items: seq<Value>, slot: Slot)
    requires ValidField(f) && f.htype.Repeated? && f.ltype.Packable() && TypedSlot(f, slot) && AllWritten(f, items)
    requires items != [] || slot.size <= f.arraySize
    ensures EncItems(f, items).ok
    ensures var r := DecPacked(f, EncItems(f, items).out, slot);
            && (r.Done? <==> TakesItems(f, slot, items))
            && (r.Done? ==> r.rest == [] && Appended(f, items, slot, r.val))
    decreases f, 2, |items|
  {
    if items != [] {
      AllWrittenTail(f, items);
      var tail := EncItems(f, items[1..]).out;
      var mid := ItemMerges(f, items[0], slot, tail);
      PackedItem(f, items[0], slot, tail);
      TakesFirst(f, slot, if TakesItem(f, slot, items[0]) then mid else Slot(slot.size + 1, []), items);
      if TakesItem(f, slot, items[0]) {
        PackedMerges(f, items[1..], mid);
        var r := DecPacked(f, tail, mid);
        if r.Done? { AppendedMore(f, items, slot, mid, r.val); }
      }
    }
  }

  /** Packed items are decoded as if each was sent on its own. */
  lemma PackedItem(f: Field, v: Value, slot: Slot, tail: seq<byte>)
    requires ValidField(f) && f.htype.Repeated? && f.ltype.Packable() && TypedSlot(f, slot) && Written(f, v)
    ensures var r := DecItem(f, EncValue(f, v).out + tail, slot);
            DecPacked(f, EncValue(f, v).out + tail, slot) == if r.Done? then DecPacked(f, r.rest, r.val) else Fail
  {
    assert EncValue(f, v).out != [];
  }

  /** What becomes of a message when items are appended to the array at position i. */
  predicate ArrayStored(f: Field, i: nat, items: seq<Value>, p: Progress, p': Progress) {
    && i < |p.msg.slots| == |p'.msg.slots|
    && p'.msg == Msg(p.msg.slots[i := p'.msg.slots[i]], p.msg.which)
    && Appended(f, items, p.msg.slots[i], p'.msg.slots[i])
    && p.tags <= p'.tags
  }

  /** One record of an array that is not packed. */
  lemma {:induction false} ItemRecord(fields: seq<Field>, i: nat, v: Value, p: Progress, t: seq<byte>)
    returns (p': Progress)
    requires ValidFields(fields) && TypedMsg(fields, p.msg) && i < |fields|
    requires ValidField(fields[i]) && TypedSlot(fields[i], p.msg.slots[i])
    requires fields[i].htype.Repeated? && Written(fields[i], v)
    ensures EncRecord(fields[i], v).ok
    ensures DecRound(fields, EncRecord(fields[i], v).out + t, p)
         == if TakesItem(fields[i], p.msg.slots[i], v) then Next(p', t) else Error
    ensures TakesItem(fields[i], p.msg.slots[i], v) ==>
              && |p'.msg.slots| == |p.msg.slots| && ItemStored(fields[i], v, p.msg.slots[i], p'.msg.slots[i])
              && p'.msg == Msg(p.msg.slots[i := p'.msg.slots[i]], p.msg.which) && p.tags <= p'.tags
    decreases fields[i], 2
  {
    var f := fields[i];
    var r := ItemMerges(f, v, p.msg.slots[i], t);
    p' := Progress(Msg(p.msg.slots[i := r], p.msg.which), p.tags + {f.tag});
    RoundIsField(fields, i, WireType(f.ltype), EncValue(f, v).out + t, p);
    RecordFront(f, v, t);
  }

  lemma RecordFront(f: Field, v: Value, t: seq<byte>)
    requires TypedValue(f, v)
    ensures EncRecord(f, v).ok == EncValue(f, v).ok && EncRecord(f, v).out != []
    ensures EncRecord(f, v).out + t == EncTag(f.tag, WireType(f.ltype)) + (EncValue(f, v).out + t)
  {}

  /**
   Items that are sent one by one are appended in order, as long as there is room. Numbers may arrive like
   this as well, although the encoder packs them.
   */
  lemma {:induction false} RecordsMerge(fields: seq<Field>, i: nat, items: seq<Value>, p: Progress, t: seq<byte>)
    requires ValidFields(fields) && TypedMsg(fields, p.msg) && i < |fields|
    requires fields[i].htype.Repeated? && AllWritten(fields[i], items)
    requires items != [] || p.msg.slots[i].size <= fields[i].arraySize
    ensures EncRecords(fields[i], items).ok
    ensures TakesItems(fields[i], p.msg.slots[i], items) ==>
              && Records(fields, EncRecords(fields[i], items).out, p).Some?
              && ArrayStored(fields[i], i, items, p, Records(fields, EncRecords(fields[i], items).out, p).value)
    ensures !TakesItems(fields[i], p.msg.slots[i], items) ==>
              DecLoop(fields, EncRecords(fields[i], items).out + t, p) == Fail
    decreases fields[i], 3, |items|
  {
    var f := fields[i];
    assert ValidField(f) && TypedSlot(f, p.msg.slots[i]);
    if items == [] {
      assert p.msg.slots == p.msg.slots[i := p.msg.slots[i]];
    } else {
      AllWrittenTail(f, items);
      if TakesItem(f, p.msg.slots[i], items[0]) {
        var p1 := FirstTaken(fields, i, items, p, t);
        TakesFirst(f, p.msg.slots[i], p1.msg.slots[i], items);
        RecordsMerge(fields, i, items[1..], p1, t);
        if TakesItems(f, p.msg.slots[i], items) {
          RecordsDone(f, i, items, p, p1, Records(fields, EncRecords(f, items[1..]).out, p1).value);
        }
      } else {
        TakesFirst(f, p.msg.slots[i], Slot(p.msg.slots[i].size + 1, []), items);
        FirstRefused(fields, i, items, p, t);
      }
    }
  }

  /** The first record is decoded, and decoding goes on with the others. */
  lemma {:induction false} FirstTaken(fields: seq<Field>, i: nat, items: seq<Value>, p: Progress, t: seq<byte>)
    returns (p1: Progress)
    requires ValidFields(fields) && TypedMsg(fields, p.msg) && i < |fields|
    requires ValidField(fields[i]) && TypedSlot(fields[i], p.msg.slots[i])
    requires fields[i].htype.Repeated? && items != [] && AllWritten(fields[i], items)
    requires TakesItem(fields[i], p.msg.slots[i], items[0])
    ensures TypedMsg(fields, p1.msg) && |p1.msg.slots| == |p.msg.slots|
    ensures ItemStored(fields[i], items[0], p.msg.slots[i], p1.msg.slots[i])
    ensures p1.msg == Msg(p.msg.slots[i := p1.msg.slots[i]], p.msg.which) && p.tags <= p1.tags
    ensures var s, tail := EncRecords(fields[i], items).out, EncRecords(fields[i], items[1..]).out;
            && Records(fields, s, p) == Records(fields, tail, p1)
            && DecLoop(fields, s + t, p) == DecLoop(fields, tail + t, p1)
    decreases fields[i], 3, 0
  {
    AllWrittenTail(fields[i], items);
    AllWrittenTailOk(fields[i], items);
    p1 := ItemRecord(fields, i, items[0], p, EncRecords(fields[i], items[1..]).out);
    DecRoundExtends(fields, EncRecords(fields[i], items).out, p, t);
  }

  lemma {:induction false} FirstRefused(fields: seq<Field>, i: nat, items: seq<Value>, p: Progress, t: seq<byte>)
    requires ValidFields(fields) && TypedMsg(fields, p.msg) && i < |fields|
    requires ValidField(fields[i]) && TypedSlot(fields[i], p.msg.slots[i])
    requires fields[i].htype.Repeated? && items != [] && AllWritten(fields[i], items)
    requires !TakesItem(fields[i], p.msg.slots[i], items[0])
    ensures DecLoop(fields, EncRecords(fields[i], items).out + t, p) == Fail
    decreases fields[i], 3, 0
  {
    var tail := EncRecords(fields[i], items[1..]).out;
    RecordsFront(fields[i], items, t);
    var _ := ItemRecord(fields, i, items[0], p, tail + t);
    RoundFailsLoop(fields, EncRecords(fields[i], items).out + t, p);
  }

  lemma RecordsFront(f: Field, items: seq<Value>, t: seq<byte>)
    requires items != [] && AllWritten(f, items)
    ensures Written(f, items[0]) && EncRecords(f, items).out != []
    ensures EncRecords(f, items).out + t == EncRecord(f, items[0]).out + (EncRecords(f, items[1..]).out + t)
  {
    AllWrittenTail(f, items);
    AllWrittenTailOk(f, items);
    RecordFront(f, items[0], EncRecords(f, items[1..]).out + t);
    var e, tail := EncRecord(f, items[0]).out, EncRecords(f, items[1..]).out;
    assert e + tail + t == e + (tail + t);
  }

  lemma RecordsDone(f: Field, i: nat, items: seq<Value>, p: Progress, p1: Progress, p2: Progress)
    requires items != [] && i < |p.msg.slots| == |p1.msg.slots| && ArrayStored(f, i, items[1..], p1, p2)
    requires ItemStored(f, items[0], p.msg.slots[i], p1.msg.slots[i])
    requires p1.msg == Msg(p.msg.slots[i := p1.msg.slots[i]], p.msg.which) && p.tags <= p1.tags
    ensures ArrayStored(f, i, items, p, p2)
  {
    AppendedMore(f, items, p.msg.slots[i], p1.msg.slots[i], p2.msg.slots[i]);
  }

  /** A packed array. */
  lemma {:induction false} PackedRecord(fields: seq<Field>, i: nat, items: seq<Value>, p: Progress, t: seq<byte>)
    requires ValidFields(fields) && TypedMsg(fields, p.msg) && i < |fields|
    requires fields[i].htype.Repeated? && fields[i].ltype.Packable() && AllWritten(fields[i], items)
    requires items != [] && |EncItems(fields[i], items).out| < TWO_TO_32
    ensures var s := EncTag(fields[i].tag, WT_STRING) + Delimited(EncItems(fields[i], items).out);
            && (TakesItems(fields[i], p.msg.slots[i], items) ==>
                  Records(fields, s, p).Some? && ArrayStored(fields[i], i, items, p, Records(fields, s, p).value))
            && (!TakesItems(fields[i], p.msg.slots[i], items) ==> DecLoop(fields, s + t, p) == Fail)
    decreases fields[i], 3
  {
    var f, slot, body := fields[i], p.msg.slots[i], EncItems(fields[i], items).out;
    var s := EncTag(f.tag, WT_STRING) + Delimited(body);
    assert ValidField(f) && TypedSlot(f, slot);
    PackedMerges(f, items, slot);
    if TakesItems(f, slot, items) {
      PackedBody(f, body, slot, []);
      RoundIsField(fields, i, WT_STRING, Delimited(body), p);
      assert Delimited(body) + [] == Delimited(body);
      var slot' := DecPacked(f, body, slot).val;
      OneRecord(fields, s, p, Progress(Msg(p.msg.slots[i := slot'], p.msg.which), p.tags + {f.tag}));
    } else {
      PackedBody(f, body, slot, t);
      RoundIsField(fields, i, WT_STRING, Delimited(body) + t, p);
      assert s + t == EncTag(f.tag, WT_STRING) + (Delimited(body) + t);
      RoundFailsLoop(fields, s + t, p);
    }
  }

  lemma PackedBody(f: Field, body: seq<byte>, slot: Slot, t: seq<byte>)
    requires ValidField(f) && f.htype.Repeated? && f.ltype.Packable() && TypedSlot(f, slot) && |body| < TWO_TO_32
    ensures var r := DecPacked(f, body, slot);
            DecRepeated(f, WT_STRING, Delimited(body) + t, slot) == if r.Done? then Done(r.val, t) else Fail
  {
    DelimitedRoundTrip(body, t);
  }

  lemma OneRecord(fields: seq<Field>, s: seq<byte>, p: Progress, p': Progress)
    requires ValidFields(fields) && TypedMsg(fields, p.msg) && s != [] && DecRound(fields, s, p) == Next(p', [])
    ensures Records(fields, s, p) == Some(p')
  {}

  //////////////////////////////////////////////////////////////////////////////
  // Fields
  //////////////////////////////////////////////////////////////////////////////

  /** The field at position i of m has been decoded into p, which gives p'. */
  ghost predicate FieldMerged(f: Field, m: Msg, i: nat, p: Progress, p': Progress)
    requires i < |m.slots| && i < |p.msg.slots| && TypedSlot(f, m.slots[i]) && TypedSlot(f, p.msg.slots[i])
  {
    && i < |p'.msg.slots| && p'.msg.slots == p.msg.slots[i := p'.msg.slots[i]]
    && p'.msg.which == (if f.htype.Oneof? && m.Which(f.union) == f.tag then p.msg.which[f.union := f.tag]
                        else p.msg.which)
    && TypedSlot(f, p'.msg.slots[i]) && MergedSlot(f, p.msg, m, i, p'.msg.slots[i])
    && p.tags <= p'.tags && (f.htype.Required? ==> f.tag in p'.tags)
  }

  lemma {:induction false} SingleField(fields: seq<Field>, m: Msg, i: nat, p: Progress, t: seq<byte>)
    requires ValidFields(fields) && TypedMsg(fields, m) && TypedMsg(fields, p.msg) && i < |fields|
    requires ValidField(fields[i]) && TypedSlot(fields[i], m.slots[i]) && TypedSlot(fields[i], p.msg.slots[i])
    requires !fields[i].htype.Repeated? && !Absent(fields[i], m, m.slots[i]) && Written(fields[i], m.slots[i].data[0])
    ensures var e := EncRecord(fields[i], m.slots[i].data[0]).out;
            && (TakesField(fields, fields[i], p.msg, m, i) ==>
                  Records(fields, e, p).Some? && FieldMerged(fields[i], m, i, p, Records(fields, e, p).value))
            && (!TakesField(fields, fields[i], p.msg, m, i) ==> DecLoop(fields, e + t, p) == Fail)
    decreases fields[i], 5
  {
    var f, v := fields[i], m.slots[i].data[0];
    AbsentExactly(f, m, m.slots[i]);
    SingleRecord(fields, i, v, p, t);
  }

  /** The record of a field that holds one value. */
  lemma {:induction false} SingleRecord(fields: seq<Field>, i: nat, v: Value, p: Progress, t: seq<byte>)
    requires ValidFields(fields) && TypedMsg(fields, p.msg) && i < |fields|
    requires ValidField(fields[i]) && TypedSlot(fields[i], p.msg.slots[i])
    requires !fields[i].htype.Repeated? && Written(fields[i], v)
    ensures var f, e := fields[i], EncRecord(fields[i], v).out;
            if TakesSingle(fields, f, p.msg, i, v) then
              && Records(fields, e, p).Some?
              && var p' := Records(fields, e, p).value;
                 && i < |p'.msg.slots| && TypedSlot(f, p'.msg.slots[i]) && MergedSingle(f, p.msg, i, v, p'.msg.slots[i])
                 && p' == Progress(Stored(f, i, p.msg, p'.msg.slots[i]), p.tags + {f.tag})
            else DecLoop(fields, e + t, p) == Fail
    decreases fields[i], 4
  {
    var f := fields[i];
    var t' := if TakesSingle(fields, f, p.msg, i, v) then [] else t;
    var r := SingleMerges(fields, i, v, p.msg, t');
    RoundIsField(fields, i, WireType(f.ltype), EncValue(f, v).out + t', p);
    RecordFront(f, v, t');
    if TakesSingle(fields, f, p.msg, i, v) {
      assert EncRecord(f, v).out + [] == EncRecord(f, v).out;
      OneRecord(fields, EncRecord(f, v).out, p, Progress(Stored(f, i, p.msg, r), p.tags + {f.tag}));
    } else {
      RoundFailsLoop(fields, EncRecord(f, v).out + t, p);
    }
  }

  lemma ArrayWritten(f: Field, s: Slot)
    requires f.htype.Repeated? && TypedSlot(f, s) && s.size != 0
    requires EncArray(f, s).ok && |EncArray(f, s).out| < TWO_TO_32
    ensures s.size <= f.arraySize && AllWritten(f, s.data[..s.size])
    ensures f.ltype.Packable() ==> EncItems(f, s.data[..s.size]).ok && |EncItems(f, s.data[..s.size]).out| < TWO_TO_32
  {
    var items := s.data[..s.size];
    EncItemsOk(f, items);
    forall k | 0 <= k < |items| ensures Written(f, items[k]) {
      ItemLengths(f, items, k);
      assert items[k] == s.data[k];
    }
  }

  lemma {:induction false} ArrayField(fields: seq<Field>, m: Msg, i: nat, p: Progress, t: seq<byte>)
    requires ValidFields(fields) && TypedMsg(fields, m) && TypedMsg(fields, p.msg) && i < |fields|
    requires ValidField(fields[i]) && TypedSlot(fields[i], m.slots[i]) && TypedSlot(fields[i], p.msg.slots[i])
    requires fields[i].htype.Repeated? && m.slots[i].size != 0
    requires EncArray(fields[i], m.slots[i]).ok && |EncArray(fields[i], m.slots[i]).out| < TWO_TO_32
    ensures var e := EncArray(fields[i], m.slots[i]).out;
            && (TakesField(fields, fields[i], p.msg, m, i) ==>
                  Records(fields, e, p).Some? && FieldMerged(fields[i], m, i, p, Records(fields, e, p).value))
            && (!TakesField(fields, fields[i], p.msg, m, i) ==> DecLoop(fields, e + t, p) == Fail)
    decreases fields[i], 4
  {
    var f, s := fields[i], m.slots[i];
    ArrayWritten(f, s);
    AbsentExactly(f, m, s);
    var items := s.data[..s.size];
    if f.ltype.Packable() { PackedRecord(fields, i, items, p, t); } else { RecordsMerge(fields, i, items, p, t); }
  }

  /** One field of the message, whatever is behind it. */
  lemma {:induction false} FieldMerges(fields: seq<Field>, m: Msg, i: nat, p: Progress, t: seq<byte>)
    requires ValidFields(fields) && TypedMsg(fields, m) && TypedMsg(fields, p.msg) && i < |fields|
    requires EncField(fields[i], m, m.slots[i]).ok && |EncField(fields[i], m, m.slots[i]).out| < TWO_TO_32
    ensures var e := EncField(fields[i], m, m.slots[i]).out;
            && (TakesField(fields, fields[i], p.msg, m, i) ==>
                  Records(fields, e, p).Some? && FieldMerged(fields[i], m, i, p, Records(fields, e, p).value))
            && (!TakesField(fields, fields[i], p.msg, m, i) ==> DecLoop(fields, e + t, p) == Fail)
    decreases fields[i], 6
  {
    var f, s := fields[i], m.slots[i];
    assert ValidField(f) && TypedSlot(f, s) && TypedSlot(f, p.msg.slots[i]);
    AbsentExactly(f, m, s);
    if Absent(f, m, s) {
      assert p.msg.slots == p.msg.slots[i := p.msg.slots[i]];
    } else if f.htype.Repeated? {
      ArrayField(fields, m, i, p, t);
    } else {
      SingleField(fields, m, i, p, t);
    }
  }

  //////////////////////////////////////////////////////////////////////////////
  // Messages
  //////////////////////////////////////////////////////////////////////////////

  /** The first n fields of m have been merged into d. */
  ghost predicate Partial(fields: seq<Field>, d: Msg, m: Msg, p: Progress, n: nat)
    requires TypedMsg(fields, d) && TypedMsg(fields, m) && TypedMsg(fields, p.msg) && n <= |fields|
  {
    && MergedWhich(fields, d, m, p.msg, n)
    && (forall i :: 0 <= i < n ==> MergedSlot(fields[i], d, m, i, p.msg.slots[i]))
    && (forall i :: n <= i < |fields| ==> p.msg.slots[i] == d.slots[i])
    && (forall i :: 0 <= i < n && fields[i].htype.Required? ==> fields[i].tag in p.tags)
  }

  /** Fields that have not been merged yet are taken as by the original. */
  lemma StillTakes(fields: seq<Field>, d: Msg, m: Msg, p: Progress, n: nat)
    requires ValidFields(fields) && TypedMsg(fields, d) && TypedMsg(fields, m) && TypedMsg(fields, p.msg)
    requires n < |fields| && Partial(fields, d, m, p, n)
    ensures TakesField(fields, fields[n], p.msg, m, n) <==> TakesField(fields, fields[n], d, m, n)
    ensures fields[n].htype.Oneof? && m.Which(fields[n].union) == fields[n].tag ==>
              p.msg.Which(fields[n].union) == d.Which(fields[n].union)
  {
    var f := fields[n];
    assert TypedSlot(f, d.slots[n]) && TypedSlot(f, m.slots[n]);
    AbsentExactly(f, m, m.slots[n]);
    assert p.msg.Which(f.union) == if Selects(fields, m, f.union, n) then m.Which(f.union) else d.Which(f.union);
  }

  lemma PartialNext(fields: seq<Field>, d: Msg, m: Msg, p: Progress, p': Progress, n: nat)
    requires ValidFields(fields) && TypedMsg(fields, d) && TypedMsg(fields, m)
    requires TypedMsg(fields, p.msg) && TypedMsg(fields, p'.msg)
    requires n < |fields| && Partial(fields, d, m, p, n) && FieldMerged(fields[n], m, n, p, p')
    ensures Partial(fields, d, m, p', n + 1)
  {
    StillTakes(fields, d, m, p, n);
    var f := fields[n];
    assert TypedSlot(f, d.slots[n]) && TypedSlot(f, m.slots[n]);
    MergedFrame(f, p.msg, d, m, n, p'.msg.slots[n]);
    WhichNext(fields, d, m, p, p', n);
    forall i | 0 <= i <= n ensures MergedSlot(fields[i], d, m, i, p'.msg.slots[i]) {
      if i < n { assert MergedSlot(fields[i], d, m, i, p.msg.slots[i]); }
    }
  }

  lemma MergedFrame(f: Field, d: Msg, d': Msg, m: Msg, i: nat, r: Slot)
    requires i < |d.slots| && i < |d'.slots| && i < |m.slots| && d.slots[i] == d'.slots[i]
    requires TypedSlot(f, d.slots[i]) && TypedSlot(f, m.slots[i]) && TypedSlot(f, r)
    requires f.htype.Oneof? && m.Which(f.union) == f.tag ==> d.Which(f.union) == d'.Which(f.union)
    ensures MergedSlot(f, d, m, i, r) <==> MergedSlot(f, d', m, i, r)
  {
    AbsentExactly(f, m, m.slots[i]);
  }

  lemma WhichNext(fields: seq<Field>, d: Msg, m: Msg, p: Progress, p': Progress, n: nat)
    requires n < |fields| && MergedWhich(fields, d, m, p.msg, n)
    requires var f := fields[n];
             p'.msg.which == (if f.htype.Oneof? && m.Which(f.union) == f.tag then p.msg.which[f.union := f.tag]
                              else p.msg.which)
    ensures MergedWhich(fields, d, m, p'.msg, n + 1)
  {
    forall u: nat ensures p'.msg.Which(u) == if Selects(fields, m, u, n + 1) then m.Which(u) else d.Which(u) {
      assert p.msg.Which(u) == if Selects(fields, m, u, n) then m.Which(u) else d.Which(u);
      SelectsNext(fields, m, u, n);
    }
  }

  lemma SelectsNext(fields: seq<Field>, m: Msg, u: nat, n: nat)
    requires n < |fields|
    ensures Selects(fields, m, u, n + 1)
       <==> Selects(fields, m, u, n) || (fields[n].htype.Oneof? && fields[n].union == u && fields[n].tag == m.Which(u))
  {}

  lemma {:induction false} FieldsMerge(fields: seq<Field>, d: Msg, m: Msg, p: Progress, n: nat, t: seq<byte>)
    requires ValidFields(fields) && TypedMsg(fields, d) && TypedMsg(fields, m) && TypedMsg(fields, p.msg)
    requires n <= |fields| && Partial(fields, d, m, p, n)
    requires EncFrom(fields, m, n).ok && |EncFrom(fields, m, n).out| < TWO_TO_32
    ensures (forall i :: n <= i < |fields| ==> TakesField(fields, fields[i], d, m, i)) ==>
              && Records(fields, EncFrom(fields, m, n).out, p).Some?
              && Partial(fields, d, m, Records(fields, EncFrom(fields, m, n).out, p).value, |fields|)
    ensures !(forall i :: n <= i < |fields| ==> TakesField(fields, fields[i], d, m, i)) ==>
              DecLoop(fields, EncFrom(fields, m, n).out + t, p) == Fail
    decreases fields, 1, |fields| - n
  {
    if n < |fields| {
      var e, tail := EncField(fields[n], m, m.slots[n]).out, EncFrom(fields, m, n + 1).out;
      assert e + tail + t == e + (tail + t);
      StillTakes(fields, d, m, p, n);
      FieldMerges(fields, m, n, p, tail + t);
      if TakesField(fields, fields[n], d, m, n) {
        var p1 := Records(fields, e, p).value;
        PartialNext(fields, d, m, p, p1, n);
        FieldsMerge(fields, d, m, p1, n + 1, t);
        RecordsAppend(fields, e, tail, p);
        DecLoopAppend(fields, e, tail + t, p);
      }
    }
  }

  lemma PartialBegins(fields: seq<Field>, m: Msg, p: Progress)
    requires TypedMsg(fields, p.msg) && TypedMsg(fields, m)
    ensures Partial(fields, p.msg, m, p, 0)
  {}

  lemma PartialEnds(fields: seq<Field>, d: Msg, m: Msg, p: Progress)
    requires TypedMsg(fields, d) && TypedMsg(fields, m) && TypedMsg(fields, p.msg) && Partial(fields, d, m, p, |fields|)
    ensures MergedMsg(fields, d, m, p.msg) && RequiredSeen(fields, p.tags)
  {}

  /** The loop of the decoder on an encoded message with whatever follows it. */
  lemma {:induction false} LoopMerges(fields: seq<Field>, m: Msg, p: Progress, t: seq<byte>)
    requires ValidFields(fields) && TypedMsg(fields, m) && TypedMsg(fields, p.msg)
    requires EncMsg(fields, m).ok && |EncMsg(fields, m).out| < TWO_TO_32
    ensures TakesMsg(fields, p.msg, m) ==>
              && Records(fields, EncMsg(fields, m).out, p).Some?
              && var p' := Records(fields, EncMsg(fields, m).out, p).value;
                 MergedMsg(fields, p.msg, m, p'.msg) && RequiredSeen(fields, p'.tags)
    ensures !TakesMsg(fields, p.msg, m) ==> DecLoop(fields, EncMsg(fields, m).out + t, p) == Fail
    decreases fields, 2
  {
    PartialBegins(fields, m, p);
    FieldsMerge(fields, p.msg, m, p, 0, t);
    if TakesMsg(fields, p.msg, m) {
      PartialEnds(fields, p.msg, m, Records(fields, EncMsg(fields, m).out, p).value);
    }
  }

  /**
   pb_decode_noinit of what pb_encode wrote, into a struct that may hold anything: it succeeds exactly if
   the strings are terminated, the arrays have room for the items and the oneofs can be released; then it
   consumes all of the bytes, and the struct holds the message on top of what it held before.
   */
  lemma {:induction false} MessageMerges(fields: seq<Field>, m: Msg, d: Msg)
    requires ValidFields(fields) && TypedMsg(fields, m) && TypedMsg(fields, d)
    requires EncMsg(fields, m).ok && |EncMsg(fields, m).out| < TWO_TO_32
    ensures var r := DecMsg(fields, EncMsg(fields, m).out, d);
            && (r.Done? <==> TakesMsg(fields, d, m))
            && (r.Done? ==> r.rest == [] && MergedMsg(fields, d, m, r.val))
    decreases fields, 3
  {
    var e, p := EncMsg(fields, m).out, Progress(d, {});
    LoopMerges(fields, m, p, []);
    assert e + [] == e;
    if TakesMsg(fields, d, m) { DecLoopRecords(fields, e, p); }
  }

  /**
   Two messages, one after the other: the second one is merged into what comes of the first one. There is
   no other way to fail than that one of them is refused.
   */
  lemma ConcatenatedExactly(fields: seq<Field>, m1: Msg, m2: Msg, dest: Msg)
    requires ValidFields(fields) && TypedMsg(fields, m1) && TypedMsg(fields, m2) && TypedMsg(fields, dest)
    requires EncMsg(fields, m1).ok && |EncMsg(fields, m1).out| < TWO_TO_32
    requires EncMsg(fields, m2).ok && |EncMsg(fields, m2).out| < TWO_TO_32
    ensures var first := Decode(fields, EncMsg(fields, m1).out, dest);
            var both := Decode(fields, EncMsg(fields, m1).out + EncMsg(fields, m2).out, dest);
            && (both.Done? <==> first.Done? && TakesMsg(fields, first.val, m2))
            && (both.Done? ==> both.rest == [] && MergedMsg(fields, first.val, m2, both.val))
  {
    var a, b, p := EncMsg(fields, m1).out, EncMsg(fields, m2).out, Progress(SetDefaults(fields, dest, 0), {});
    LoopMerges(fields, m1, p, b);
    MessageMerges(fields, m1, p.msg);
    if TakesMsg(fields, p.msg, m1) {
      var p1 := Records(fields, a, p).value;
      DecLoopRecords(fields, a, p);
      DecLoopAppend(fields, a, b, p);
      LoopMerges(fields, m2, p1, []);
      assert b + [] == b;
      if TakesMsg(fields, p1.msg, m2) { DecLoopRecords(fields, b, p1); }
    }
  }

  /** The field at position i of r has the value that m writes, or is as in d if m does not write it. */
  predicate LastWins(f: Field, i: nat, d: Msg, m: Msg, r: Msg)
    requires i < |m.slots| && TypedSlot(f, m.slots[i]) && !f.htype.Repeated?
  {
    && i < |d.slots| && i < |r.slots| && |r.slots[i].data| == 1
    && if EncField(f, m, m.slots[i]) == NOTHING then r.slots[i] == d.slots[i]
       else && SameValue(f, m.slots[i].data[0], r.slots[i].data[0])
            && (f.htype.Optional? ==> r.slots[i].size != 0)
            && (f.htype.Oneof? ==> r.Which(f.union) == f.tag)
  }

  lemma MergedLastWins(fields: seq<Field>, d: Msg, m: Msg, r: Msg, i: nat)
    requires TypedMsg(fields, d) && TypedMsg(fields, m) && TypedMsg(fields, r) && MergedMsg(fields, d, m, r)
    requires i < |fields| && !fields[i].htype.Repeated? && !fields[i].ltype.LSubmessage?
    ensures LastWins(fields[i], i, d, m, r)
  {
    var f := fields[i];
    assert TypedSlot(f, d.slots[i]) && TypedSlot(f, m.slots[i]) && TypedSlot(f, r.slots[i]);
    if f.htype.Oneof? { SelectionWins(fields, i, d, m, r); }
    SlotLastWins(f, d, m, r, i);
  }

  lemma SlotLastWins(f: Field, d: Msg, m: Msg, r: Msg, i: nat)
    requires i < |d.slots| && i < |m.slots| && i < |r.slots| && !f.htype.Repeated? && !f.ltype.LSubmessage?
    requires TypedSlot(f, d.slots[i]) && TypedSlot(f, m.slots[i]) && TypedSlot(f, r.slots[i])
    requires MergedSlot(f, d, m, i, r.slots[i])
    requires f.htype.Oneof? && m.Which(f.union) == f.tag ==> r.Which(f.union) == f.tag
    ensures LastWins(f, i, d, m, r)
  {
    AbsentExactly(f, m, m.slots[i]);
    if !Absent(f, m, m.slots[i]) {
      var v, w := m.slots[i].data[0], r.slots[i].data[0];
      assert MergedValue(f, d.slots[i].data[0], v, w) || SameValue(f, v, w);
    }
  }

  lemma SelectionWins(fields: seq<Field>, i: nat, d: Msg, m: Msg, r: Msg)
    requires i < |fields| && fields[i].htype.Oneof? && MergedWhich(fields, d, m, r, |fields|)
    ensures m.Which(fields[i].union) == fields[i].tag ==> r.Which(fields[i].union) == fields[i].tag
  {
    var u := fields[i].union;
    assert r.Which(u) == if Selects(fields, m, u, |fields|) then m.Which(u) else d.Which(u);
  }

  /**
   So the last record of a field wins: after both messages, a field with one value that is no submessage
   has the value that the second message writes, and the first one's if the second does not write it.
   */
  lemma LastRecordWins(fields: seq<Field>, m1: Msg, m2: Msg, dest: Msg, i: nat)
    requires ValidFields(fields) && TypedMsg(fields, m1) && TypedMsg(fields, m2) && TypedMsg(fields, dest)
    requires EncMsg(fields, m1).ok && |EncMsg(fields, m1).out| < TWO_TO_32
    requires EncMsg(fields, m2).ok && |EncMsg(fields, m2).out| < TWO_TO_32
    requires i < |fields| && !fields[i].htype.Repeated? && !fields[i].ltype.LSubmessage?
    ensures var first := Decode(fields, EncMsg(fields, m1).out, dest);
            var both := Decode(fields, EncMsg(fields, m1).out + EncMsg(fields, m2).out, dest);
            both.Done? ==> first.Done? && LastWins(fields[i], i, first.val, m2, both.val)
  {
    ConcatenatedExactly(fields, m1, m2, dest);
    var both := Decode(fields, EncMsg(fields, m1).out + EncMsg(fields, m2).out, dest);
    if both.Done? {
      MergedLastWins(fields, Decode(fields, EncMsg(fields, m1).out, dest).val, m2, both.val, i);
    }
  }
}

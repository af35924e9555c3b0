/** Which fields are written: told from the message alone. */
module Presence {
  import opened Schema
  import opened EncodeSpec

  /** The encoder writes nothing for the field. */
  predicate Absent(f: Field, m: Msg, s: Slot)
    requires TypedSlot(f, s)
  {
    EncField(f, m, s) == NOTHING
  }

  /** The tests by which pb_encode leaves a field out. */
  predicate Unwritten(f: Field, m: Msg, s: Slot)
    requires TypedSlot(f, s)
  {
    match f.htype
    case Required => false
    case Optional => s.size == 0
    case Singular => IsZero(f, s.data[0])
    case Repeated => s.size == 0
    case Oneof => m.Which(f.union) != f.tag
  }

  lemma AbsentExactly(f: Field, m: Msg, s: Slot)
    requires TypedSlot(f, s)
    ensures Absent(f, m, s) <==> Unwritten(f, m, s)
  {
    if f.htype.Repeated? {
      assert EncField(f, m, s) == EncArray(f, s);
      if 0 < s.size <= f.arraySize { ArrayNotNothing(f, s); }
    } else {
      RecordNotNothing(f, s.data[0]);
    }
  }

  lemma RecordNotNothing(f: Field, v: Value)
    requires TypedValue(f, v)
    ensures EncRecord(f, v).out != []
  {}

  lemma ArrayNotNothing(f: Field, s: Slot)
    requires f.htype.Repeated? && TypedSlot(f, s) && 0 < s.size <= f.arraySize
    ensures EncArray(f, s).out != []
  {
    var items := s.data[..s.size];
    RecordNotNothing(f, items[0]);
    assert EncRecords(f, items) == Then(EncRecord(f, items[0]), EncRecords(f, items[1..]));
  }

  /**
   A required field is always written, an optional one if it is marked as present, an array if it has
   items, and a member of a oneof if it is selected.
   */
  lemma WrittenExactly(f: Field, m: Msg, s: Slot)
    requires TypedSlot(f, s) && !f.htype.Singular?
    ensures EncField(f, m, s) == NOTHING
       <==> match f.htype
            case Optional => s.size == 0
            case Repeated => s.size == 0
            case Oneof => m.Which(f.union) != f.tag
            case _ => false
  {
    AbsentExactly(f, m, s);
  }

  /** A proto3 field is left out exactly if its value is the same as that of zeroed memory. */
  lemma SingularExactly(f: Field, m: Msg, s: Slot)
    requires ValidField(f) && TypedSlot(f, s) && f.htype.Singular?
    requires !f.ltype.LSubmessage? && !f.ltype.LFixedLengthBytes?
    ensures EncField(f, m, s) == NOTHING <==> SameValue(f, s.data[0], ZeroValue(f))
  {
    AbsentExactly(f, m, s);
    if f.ltype.LString? { assert CString(ZeroBytes(f.dataSize)) == []; }
  }

  /** But bytes of fixed length are always written, unless there are none. */
  lemma InlineExactly(f: Field, m: Msg, s: Slot)
    requires TypedSlot(f, s) && f.htype.Singular? && f.ltype.LFixedLengthBytes?
    ensures EncField(f, m, s) == NOTHING <==> f.dataSize == 0
  {
    AbsentExactly(f, m, s);
  }

  /** No oneof of the message has a selection. */
  predicate NothingSelected(fields: seq<Field>, m: Msg) {
    forall i :: 0 <= i < |fields| && fields[i].htype.Oneof? ==> m.Which(fields[i].union) == 0
  }

  /** The oneof of the field at position i has no selection, or that of one of its members. */
  predicate ProperSelection(fields: seq<Field>, m: Msg, i: nat)
    requires i < |fields|
  {
    fields[i].htype.Oneof? && m.Which(fields[i].union) != 0 ==>
      exists j :: 0 <= j < |fields| && Selected(fields, m, fields[i].union, j)
  }

  predicate ProperSelections(fields: seq<Field>, m: Msg) {
    forall i {:trigger ProperSelection(fields, m, i)} :: 0 <= i < |fields| ==> ProperSelection(fields, m, i)
  }

  predicate Selected(fields: seq<Field>, m: Msg, union: nat, j: nat)
    requires j < |fields|
  {
    fields[j].htype.Oneof? && fields[j].union == union && fields[j].tag == m.Which(union)
  }

  /** Nothing is written for a message exactly if nothing is written for any of its fields. */
  lemma {:induction false} NothingFrom(fields: seq<Field>, m: Msg, i: nat)
    requires TypedMsg(fields, m) && i <= |fields|
    ensures EncFrom(fields, m, i) == NOTHING
       <==> forall j :: i <= j < |fields| ==> EncField(fields[j], m, m.slots[j]) == NOTHING
    decreases |fields| - i
  {
    if i < |fields| { NothingFrom(fields, m, i + 1); }
  }

  lemma DefaultExactly(fields: seq<Field>, m: Msg)
    requires ValidFields(fields) && TypedMsg(fields, m)
    ensures AllDefault(fields, m) <==> EncMsg(fields, m) == NOTHING && NothingSelected(fields, m)
  {
    NothingFrom(fields, m, 0);
    forall i | 0 <= i < |fields|
      ensures IsDefault(fields[i], m, m.slots[i])
         <==> EncField(fields[i], m, m.slots[i]) == NOTHING
              && (fields[i].htype.Oneof? ==> m.Which(fields[i].union) == 0)
    {
      AbsentExactly(fields[i], m, m.slots[i]);
      assert ValidField(fields[i]);
    }
  }

  /**
   A proto3 submessage is left out exactly if nothing would be written for it and it selects no member
   of a oneof. A selection that is not of a member makes it be written although it is empty.
   */
  lemma SubmessageExactly(f: Field, m: Msg, s: Slot)
    requires ValidField(f) && TypedSlot(f, s) && f.htype.Singular? && f.ltype.LSubmessage?
    requires |s.data| == 1 && TypedValue(f, s.data[0])
    ensures EncField(f, m, s) == NOTHING
       <==> EncMsg(f.sub, s.data[0].msg) == NOTHING && NothingSelected(f.sub, s.data[0].msg)
    ensures ProperSelections(f.sub, s.data[0].msg) ==>
              (EncField(f, m, s) == NOTHING <==> EncMsg(f.sub, s.data[0].msg) == NOTHING)
  {
    var msg := s.data[0].msg;
    AbsentExactly(f, m, s);
    DefaultExactly(f.sub, msg);
    if ProperSelections(f.sub, msg) && EncMsg(f.sub, msg) == NOTHING {
      NothingIsUnselected(f.sub, msg);
    }
  }

  lemma NothingIsUnselected(fields: seq<Field>, m: Msg)
    requires TypedMsg(fields, m) && ProperSelections(fields, m) && EncMsg(fields, m) == NOTHING
    ensures NothingSelected(fields, m)
  {
    forall i | 0 <= i < |fields| && fields[i].htype.Oneof? ensures m.Which(fields[i].union) == 0 {
      if m.Which(fields[i].union) != 0 { SelectionIsWritten(fields, m, i); }
    }
  }

  lemma SelectionIsWritten(fields: seq<Field>, m: Msg, i: nat)
    requires TypedMsg(fields, m) && ProperSelections(fields, m)
    requires i < |fields| && fields[i].htype.Oneof? && m.Which(fields[i].union) != 0
    ensures EncMsg(fields, m) != NOTHING
  {
    assert ProperSelection(fields, m, i);
    var j :| 0 <= j < |fields| && Selected(fields, m, fields[i].union, j);
    AbsentExactly(fields[j], m, m.slots[j]);
    NothingFrom(fields, m, 0);
  }
}

/** Values are restored by decoding what was encoded; and what a struct is like in which nothing is set. */
module RoundTrip {
  import opened Basics
  import opened Bits
  import opened Wire
  import opened Scalars
  import opened Schema
  import opened EncodeSpec
  import opened DecodeSpec

  //////////////////////////////////////////////////////////////////////////////
  // Freshly initialized destinations
  //////////////////////////////////////////////////////////////////////////////

  /** Nothing has been decoded into the field at position i yet. */
  predicate Pending(f: Field, m: Msg, i: nat)
    requires i < |m.slots| && TypedSlot(f, m.slots[i])
    decreases f, 1
  {
    var s := m.slots[i];
    match f.htype
    case Repeated => s.size == 0
    case Oneof => m.Which(f.union) != f.tag
    case Optional => s.size == 0 && Fresh(f, s.data[0])
    case _ => Fresh(f, s.data[0])
  }

  predicate Fresh(f: Field, v: Value)
    requires TypedValue(f, v)
    decreases f, 0
  {
    && (f.ltype.LSubmessage? ==> Cleared(f.sub, v.msg))
    && (f.htype.Singular? && !f.ltype.LSubmessage? ==> v == ZeroValue(f))
  }

  predicate Cleared(fields: seq<Field>, m: Msg)
    requires TypedMsg(fields, m)
    decreases fields, 0
  {
    UnionsListed(fields, m) && forall i :: 0 <= i < |fields| ==> Pending(fields[i], m, i)
  }

  /** Every which_ member holds zero or a listed field number. */
  predicate UnionsListed(fields: seq<Field>, m: Msg) {
    forall i :: 0 <= i < |fields| && fields[i].htype.Oneof? ==>
      m.Which(fields[i].union) == 0 || Find(fields, m.Which(fields[i].union)).Some?
  }

  /** The field at position i has its default: no items, no selection, no has_ flag, its initial value. */
  predicate Defaulted(f: Field, m: Msg, i: nat)
    requires i < |m.slots| && TypedSlot(f, m.slots[i])
    decreases f, 1
  {
    var s := m.slots[i];
    match f.htype
    case Repeated => s.size == 0
    case Oneof => m.Which(f.union) == 0
    case _ => s.size == 0 && HasInit(f, s.data[0])
  }

  predicate HasInit(f: Field, v: Value)
    requires TypedValue(f, v)
    decreases f, 0
  {
    if f.ltype.LSubmessage? then AllDefaulted(f.sub, v.msg) else v == f.init
  }

  predicate AllDefaulted(fields: seq<Field>, m: Msg)
    requires TypedMsg(fields, m)
    decreases fields, 0
  {
    forall i :: 0 <= i < |fields| ==> Defaulted(fields[i], m, i)
  }

  /** pb_message_set_to_defaults brings every field to its default, whatever the struct held before. */
  lemma SetDefaultsExact(fields: seq<Field>, m: Msg)
    requires ValidFields(fields) && TypedMsg(fields, m)
    ensures AllDefaulted(fields, SetDefaults(fields, m, 0))
  {
    SetDefaultsFrom(fields, m, 0);
  }

  lemma {:induction false} SetDefaultsFrom(fields: seq<Field>, m: Msg, i: nat)
    requires ValidFields(fields) && TypedMsg(fields, m) && i <= |fields|
    requires forall j :: 0 <= j < i ==> Defaulted(fields[j], m, j)
    ensures AllDefaulted(fields, SetDefaults(fields, m, i))
    decreases fields, |fields| - i
  {
    if i < |fields| {
      var f, s := fields[i], m.slots[i];
      assert ValidField(f) && TypedSlot(f, s);
      var m' := DefaultField(fields, m, i);
      if !f.htype.Oneof? && !f.htype.Repeated? { DefaultHasInit(f, s.data[0]); }
      assert TypedSlot(f, m'.slots[i]);
      assert Defaulted(f, m', i);
      forall j | 0 <= j < i ensures Defaulted(fields[j], m', j) {
        assert Defaulted(fields[j], m, j);
      }
      SetDefaultsFrom(fields, m', i + 1);
    }
  }

  lemma {:induction false} DefaultHasInit(f: Field, v: Value)
    requires ValidField(f) && TypedValue(f, v)
    ensures HasInit(f, DefaultValue(f, v))
    decreases f, 0
  {
    if f.ltype.LSubmessage? { SetDefaultsFrom(f.sub, v.msg, 0); }
  }

  lemma {:induction false} DefaultedIsCleared(fields: seq<Field>, m: Msg)
    requires ValidFields(fields) && TypedMsg(fields, m) && AllDefaulted(fields, m)
    ensures Cleared(fields, m)
    decreases fields, 1
  {
    forall i | 0 <= i < |fields| ensures Pending(fields[i], m, i) {
      var f, s := fields[i], m.slots[i];
      assert ValidField(f) && TypedSlot(f, s) && Defaulted(f, m, i);
      if !f.htype.Repeated? && !f.htype.Oneof? { InitIsFresh(f, s.data[0]); }
    }
  }

  lemma {:induction false} InitIsFresh(f: Field, v: Value)
    requires ValidField(f) && TypedValue(f, v) && HasInit(f, v)
    ensures Fresh(f, v)
    decreases f, 0
  {
    if f.ltype.LSubmessage? { DefaultedIsCleared(f.sub, v.msg); }
  }

  /** So nothing is left behind of what the struct held. */
  lemma SetDefaultsClears(fields: seq<Field>, m: Msg)
    requires ValidFields(fields) && TypedMsg(fields, m)
    ensures Cleared(fields, SetDefaults(fields, m, 0))
  {
    SetDefaultsExact(fields, m);
    DefaultedIsCleared(fields, SetDefaults(fields, m, 0));
  }

  //////////////////////////////////////////////////////////////////////////////
  // Strings must be terminated
  //////////////////////////////////////////////////////////////////////////////

  /** Every string that the encoder writes ends with a NUL inside its buffer. */
  predicate Terminated(f: Field, v: Value)
    requires TypedValue(f, v)
    decreases f, 0
  {
    match f.ltype
    case LString => 0 in v.buf
    case LSubmessage => TerminatedMsg(f.sub, v.msg)
    case _ => true
  }

  predicate TerminatedField(f: Field, m: Msg, s: Slot)
    requires TypedSlot(f, s)
    decreases f, 1
  {
    match f.htype
    case Required => Terminated(f, s.data[0])
    case Optional => s.size != 0 ==> Terminated(f, s.data[0])
    case Singular => IsZero(f, s.data[0]) || Terminated(f, s.data[0])
    case Repeated => forall k :: 0 <= k < |s.data| && k < s.size ==> Terminated(f, s.data[k])
    case Oneof => m.Which(f.union) == f.tag ==> Terminated(f, s.data[0])
  }

  predicate TerminatedMsg(fields: seq<Field>, m: Msg)
    requires TypedMsg(fields, m)
    decreases fields, 0
  {
    forall i :: 0 <= i < |fields| ==> TerminatedField(fields[i], m, m.slots[i])
  }

  lemma {:induction false} CStringEnds(buf: seq<byte>)
    ensures |CString(buf)| <= |buf| && CString(buf) == buf[..|CString(buf)|]
    ensures |CString(buf)| < |buf| <==> 0 in buf
    ensures |CString(buf)| < |buf| ==> buf[|CString(buf)|] == 0
    ensures 0 !in CString(buf)
  {
    if buf != [] && buf[0] != 0 {
      CStringEnds(buf[1..]);
      assert buf == [buf[0]] + buf[1..];
    }
  }

  lemma {:induction false} CStringOf(s: seq<byte>, t: seq<byte>)
    requires 0 !in s
    ensures CString(s + [0] + t) == s
  {
    if s == [] {
      assert s + [0] + t == [0] + t;
    } else {
      assert (s + [0] + t)[1..] == s[1..] + [0] + t;
      assert 0 !in s[1..];
      CStringOf(s[1..], t);
    }
  }

  //////////////////////////////////////////////////////////////////////////////
  // Values
  //////////////////////////////////////////////////////////////////////////////

  lemma NumRoundTrip(f: Field, v: Value, t: seq<byte>)
    requires f.ltype.Packable() && TypedValue(f, v) && EncValue(f, v).ok
    ensures var r := DecNum(f, EncValue(f, v).out + t);
            r.Done? && r.rest == t && SameValue(f, v, r.val)
  {
    Pow256Values();
    match f.ltype
    case LBool => Varint32RoundTrip(if v.n != 0 then 1 else 0, t);
    case LVarint => IntRoundTrip(v.n, f.dataSize, t);
    case LUVarint => UintRoundTrip(v.n, f.dataSize, t);
    case LSVarint => SintRoundTrip(v.n, f.dataSize, t);
    case LFixed32 => FixedRoundTrip(v.n, 4, t);
    case LFixed64 => FixedRoundTrip(v.n, 8, t);
  }

  /** A length-delimited body is read back whole. */
  lemma DelimitedRoundTrip(s: seq<byte>, t: seq<byte>)
    requires |s| < TWO_TO_32
    ensures Varint32(Delimited(s) + t) == Done(|s|, s + t)
    ensures (s + t)[..|s|] == s && (s + t)[|s|..] == t
    ensures SubStream(Delimited(s) + t) == Done(s, t)
  {
    assert Delimited(s) + t == EncVarint(|s|) + (s + t);
    Varint32RoundTrip(|s|, s + t);
  }

  lemma BytesRoundTrip(f: Field, v: Value, w: Value, t: seq<byte>)
    requires f.ltype.LBytes? && TypedValue(f, v) && TypedValue(f, w) && EncValue(f, v).ok
    requires f.dataSize < TWO_TO_32
    ensures var r := DecBytes(f, EncValue(f, v).out + t, w.buf);
            r.Done? && r.rest == t && SameValue(f, v, r.val)
  {
    DelimitedRoundTrip(v.buf[..v.len], t);
  }

  /** A string is restored exactly if it is terminated inside its buffer. */
  lemma TextRoundTrip(f: Field, v: Value, w: Value, t: seq<byte>)
    requires f.ltype.LString? && TypedValue(f, v) && TypedValue(f, w)
    requires f.dataSize < TWO_TO_32
    ensures var r := DecText(f, EncValue(f, v).out + t, w.buf);
            && (r.Done? <==> Terminated(f, v))
            && (r.Done? ==> r.rest == t && SameValue(f, v, r.val))
  {
    var c := CString(v.buf);
    CStringEnds(v.buf);
    DelimitedRoundTrip(c, t);
    if 0 in v.buf { CStringOf(c, w.buf[|c| + 1..]); }
  }

  lemma InlineRoundTrip(f: Field, v: Value, t: seq<byte>)
    requires f.ltype.LFixedLengthBytes? && TypedValue(f, v)
    requires f.dataSize < TWO_TO_32
    ensures DecInline(f, EncValue(f, v).out + t) == Done(v, t)
  {
    DelimitedRoundTrip(v.buf, t);
    if f.dataSize == 0 { assert ZeroBytes(0) == v.buf && v.buf + t == t; }
  }

  //////////////////////////////////////////////////////////////////////////////
  // Records
  //////////////////////////////////////////////////////////////////////////////

  lemma TagRoundTrip(tag: nat, wireType: nat, t: seq<byte>)
    requires 1 <= tag < 0x2000_0000 && wireType < 8
    ensures var key := 8 * tag + wireType;
            && Varint32(EncTag(tag, wireType) + t) == Done(key, t)
            && key / 8 == tag && key % 8 == wireType && key != 0
  {
    Varint32RoundTrip(8 * tag + wireType, t);
  }

  lemma FindField(fields: seq<Field>, i: nat)
    requires DistinctTags(fields) && i < |fields|
    ensures Find(fields, fields[i].tag) == Some(i)
  {}

  lemma OneofTargetFresh(f: Field, v: Value)
    requires ValidField(f) && TypedValue(f, v) && f.htype.Oneof?
    ensures Fresh(f, OneofTarget(f, false, v))
  {
    if f.ltype.LSubmessage? {
      ZeroMsgTyped(f.sub);
      SetDefaultsClears(f.sub, ZeroMsg(f.sub));
    }
  }

  //////////////////////////////////////////////////////////////////////////////
  // Repeated fields
  //////////////////////////////////////////////////////////////////////////////

  /** slot' is slot with the items appended. */
  predicate Appended(f: Field, items: seq<Value>, slot: Slot, slot': Slot) {
    && slot'.size == slot.size + |items| <= |slot'.data| == |slot.data|
    && (forall k :: 0 <= k < slot.size ==> slot'.data[k] == slot.data[k])
    && (forall k :: 0 <= k < |items| ==> SameValue(f, items[k], slot'.data[slot.size + k]))
  }

  lemma AppendedMore(f: Field, items: seq<Value>, slot: Slot, mid: Slot, slot': Slot)
    requires items != [] && slot.size < |slot.data| == |mid.data|
    requires mid.size == slot.size + 1 && mid.data == slot.data[slot.size := mid.data[slot.size]]
    requires SameValue(f, items[0], mid.data[slot.size])
    requires Appended(f, items[1..], mid, slot')
    ensures Appended(f, items, slot, slot')
  {
    forall k | 0 <= k < |items| ensures SameValue(f, items[k], slot'.data[slot.size + k]) {
      if k != 0 { assert items[k] == items[1..][k - 1]; }
    }
  }

  /** slot' is slot with v appended. */
  predicate ItemStored(f: Field, v: Value, slot: Slot, slot': Slot) {
    && slot.size < |slot'.data| == |slot.data|
    && slot'.size == slot.size + 1
    && slot'.data == slot.data[slot.size := slot'.data[slot.size]]
    && SameValue(f, v, slot'.data[slot.size])
  }

  //////////////////////////////////////////////////////////////////////////////
  // Fields that are not written
  //////////////////////////////////////////////////////////////////////////////

  /** A proto3 value that is not written equals the one its field is initialized with. */
  lemma {:induction false} ZeroSame(f: Field, v: Value, w: Value)
    requires ValidField(f) && f.htype.Singular? && TypedValue(f, v) && TypedValue(f, w)
    requires IsZero(f, v) && Fresh(f, w)
    ensures SameValue(f, v, w)
    decreases f
  {
    if f.ltype.LSubmessage? { DefaultSame(f.sub, v.msg, w.msg); }
  }

  lemma {:induction false} DefaultSame(fields: seq<Field>, m: Msg, d: Msg)
    requires ValidFields(fields) && TypedMsg(fields, m) && TypedMsg(fields, d)
    requires AllDefault(fields, m) && Cleared(fields, d)
    ensures SameMsg(fields, m, d)
    decreases fields
  {
    forall i | 0 <= i < |fields| ensures SameField(fields[i], m, d, i) {
      var f := fields[i];
      assert ValidField(f) && IsDefault(f, m, m.slots[i]) && Pending(f, d, i);
      if f.htype.Singular? { ZeroSame(f, m.slots[i].data[0], d.slots[i].data[0]); }
    }
  }

  lemma {:induction false} ItemLengths(f: Field, items: seq<Value>, k: nat)
    requires forall j :: 0 <= j < |items| ==> TypedValue(f, items[j])
    requires k < |items|
    ensures EncItems(f, items).ok ==> |EncValue(f, items[k]).out| <= |EncItems(f, items).out|
    ensures EncRecords(f, items).ok ==> |EncValue(f, items[k]).out| <= |EncRecords(f, items).out|
  {
    if k != 0 { ItemLengths(f, items[1..], k - 1); }
  }
}

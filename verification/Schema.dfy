/**
 Message descriptors (pb_field_t arrays) and the C structs they describe. Only statically allocated
 fields are modelled, so submessages are embedded values and descriptors form a tree.
 */
module Schema {
  import opened Basics
  import opened Bits
  import opened Scalars

  datatype LType =
    | LBool | LVarint | LUVarint | LSVarint | LFixed32 | LFixed64
    | LBytes | LString | LSubmessage | LFixedLengthBytes
  {
    /** The type comes no later than PB_LTYPE_LAST_PACKABLE. */
    predicate Packable() {
      !LBytes? && !LString? && !LSubmessage? && !LFixedLengthBytes?
    }
  }

  /** Singular is the proto3 form of an optional field, the one without a has_ flag. */
  datatype HType = Required | Optional | Singular | Repeated | Oneof

  /**
   A field descriptor. A union number names the which_ member that the fields of one oneof share;
   init is the value that the field gets before decoding; sub describes a submessage.
   */
  datatype Field = Field(
    tag: nat, ltype: LType, htype: HType, dataSize: nat, arraySize: nat,
    union: nat, init: Value, sub: seq<Field>)

  /** Character and byte buffers are kept whole, including what is beyond their current contents. */
  datatype Value =
    | Num(n: int)
    | Bytes(len: nat, buf: seq<byte>)
    | Text(buf: seq<byte>)
    | Inline(buf: seq<byte>)
    | Sub(msg: Msg)

  /** A struct member: its has_ flag or count, and its items (one, unless the field is repeated). */
  datatype Slot = Slot(size: nat, data: seq<Value>)

  datatype Msg = Msg(slots: seq<Slot>, which: map<nat, nat>)
  {
    function Which(union: nat): nat {
      if union in which then which[union] else 0
    }
  }

  /** The bytes of a pb_bytes_array_t that come before its contents. */
  const BYTES_HEADER: nat := 4

  /** The string in a buffer: what comes before the first NUL, or all of it. */
  function CString(buf: seq<byte>): seq<byte> {
    if buf == [] || buf[0] == 0 then [] else [buf[0]] + CString(buf[1..])
  }

  //////////////////////////////////////////////////////////////////////////////
  // The layout that a descriptor prescribes
  //////////////////////////////////////////////////////////////////////////////

  predicate TypedValue(f: Field, v: Value)
    decreases f, 0
  {
    match f.ltype
    case LBool => v.Num? && 0 <= v.n < 256
    case LVarint => v.Num? && InSigned(v.n, f.dataSize)
    case LUVarint => v.Num? && InUnsigned(v.n, f.dataSize)
    case LSVarint => v.Num? && InSigned(v.n, f.dataSize)
    case LFixed32 => v.Num? && 0 <= v.n < TWO_TO_32
    case LFixed64 => v.Num? && 0 <= v.n < TWO_TO_64
    case LBytes => v.Bytes? && v.len < TWO_TO_32 && |v.buf| + BYTES_HEADER == f.dataSize
    case LString => v.Text? && |v.buf| == f.dataSize
    case LSubmessage => v.Sub? && TypedMsg(f.sub, v.msg)
    case LFixedLengthBytes => v.Inline? && |v.buf| == f.dataSize
  }

  function Capacity(f: Field): nat {
    if f.htype.Repeated? then f.arraySize else 1
  }

  predicate TypedSlot(f: Field, s: Slot)
    decreases f, 1
  {
    && |s.data| == Capacity(f)
    && s.size < TWO_TO_32
    && forall k :: 0 <= k < |s.data| ==> TypedValue(f, s.data[k])
  }

  predicate TypedMsg(fields: seq<Field>, m: Msg)
    decreases fields, 0
  {
    && |m.slots| == |fields|
    && forall i :: 0 <= i < |fields| ==> TypedSlot(fields[i], m.slots[i])
  }

  /** What the nanopb generator guarantees of the descriptors it emits. */
  predicate ValidField(f: Field)
    decreases f, 0
  {
    && 1 <= f.tag < 0x2000_0000
    && f.dataSize < TWO_TO_32
    && f.arraySize < TWO_TO_32
    && (f.ltype.LSubmessage? || TypedValue(f, f.init))
    && (f.ltype.LString? ==> 1 <= f.dataSize)
    && (f.htype.Singular? && !f.ltype.LSubmessage? ==> f.init == ZeroValue(f))
    && ValidFields(f.sub)
  }

  predicate DistinctTags(fields: seq<Field>) {
    forall i, j :: 0 <= i < j < |fields| ==> fields[i].tag != fields[j].tag
  }

  predicate ValidFields(fields: seq<Field>)
    decreases fields, 1
  {
    && DistinctTags(fields)
    && forall i :: 0 <= i < |fields| ==> ValidField(fields[i])
  }

  //////////////////////////////////////////////////////////////////////////////
  // Zeroed memory and default values
  //////////////////////////////////////////////////////////////////////////////

  function ZeroBytes(n: nat): (s: seq<byte>)
    ensures |s| == n
  {
    seq(n, _ => 0)
  }

  function ZeroValue(f: Field): Value
    decreases f, 0
  {
    match f.ltype
    case LBytes => Bytes(0, ZeroBytes(if BYTES_HEADER <= f.dataSize then f.dataSize - BYTES_HEADER else 0))
    case LString => Text(ZeroBytes(f.dataSize))
    case LFixedLengthBytes => Inline(ZeroBytes(f.dataSize))
    case LSubmessage => Sub(ZeroMsg(f.sub))
    case _ => Num(0)
  }

  function ZeroMsg(fields: seq<Field>): Msg
    decreases fields, 0
  {
    Msg(seq(|fields|, i requires 0 <= i < |fields| => ZeroSlot(fields[i])), map[])
  }

  function ZeroSlot(f: Field): Slot
    decreases f, 1
  {
    Slot(0, seq(Capacity(f), _ => ZeroValue(f)))
  }

  lemma {:induction false} ZeroMsgTyped(fields: seq<Field>)
    requires ValidFields(fields)
    ensures TypedMsg(fields, ZeroMsg(fields))
    decreases fields, 0
  {
    forall i | 0 <= i < |fields| ensures TypedSlot(fields[i], ZeroSlot(fields[i])) {
      ZeroValueTyped(fields[i]);
    }
  }

  lemma {:induction false} ZeroValueTyped(f: Field)
    requires ValidField(f)
    ensures TypedValue(f, ZeroValue(f))
    decreases f
  {
    if f.ltype.LSubmessage? { ZeroMsgTyped(f.sub); }
  }

  /** pb_message_set_to_defaults, from field i on. */
  function SetDefaults(fields: seq<Field>, m: Msg, i: nat): (r: Msg)
    requires ValidFields(fields) && TypedMsg(fields, m) && i <= |fields|
    ensures TypedMsg(fields, r)
    decreases fields, |fields| - i
  {
    if i == |fields| then m else SetDefaults(fields, DefaultField(fields, m, i), i + 1)
  }

  /** pb_field_set_to_default: repeated and oneof fields only lose their count or selection. */
  function DefaultField(fields: seq<Field>, m: Msg, i: nat): (r: Msg)
    requires ValidFields(fields) && TypedMsg(fields, m) && i < |fields|
    ensures TypedMsg(fields, r)
    decreases fields, 0
  {
    var f, s := fields[i], m.slots[i];
    assert ValidField(f) && TypedSlot(f, s);
    match f.htype
    case Oneof => m.(which := m.which[f.union := 0])
    case Repeated => m.(slots := m.slots[i := s.(size := 0)])
    case _ => m.(slots := m.slots[i := Slot(0, [DefaultValue(f, s.data[0])])])
  }

  function DefaultValue(f: Field, v: Value): (r: Value)
    requires ValidField(f) && TypedValue(f, v)
    ensures TypedValue(f, r)
    decreases f
  {
    if f.ltype.LSubmessage? then Sub(SetDefaults(f.sub, v.msg, 0)) else f.init
  }

  //////////////////////////////////////////////////////////////////////////////
  // Messages that differ only where no reader of the message looks
  //////////////////////////////////////////////////////////////////////////////

  predicate SameValue(f: Field, a: Value, b: Value)
    decreases f, 0
  {
    match f.ltype
    case LBytes => a.Bytes? && b.Bytes? && a.len == b.len <= |a.buf| == |b.buf| && a.buf[..a.len] == b.buf[..a.len]
    case LString => a.Text? && b.Text? && CString(a.buf) == CString(b.buf)
    case LFixedLengthBytes => a.Inline? && a == b
    case LSubmessage => a.Sub? && b.Sub? && SameMsg(f.sub, a.msg, b.msg)
    case LBool => a.Num? && b.Num? && (a.n == 0 <==> b.n == 0)
    case _ => a.Num? && a == b
  }

  predicate SameField(f: Field, a: Msg, b: Msg, i: nat)
    requires i < |a.slots| && i < |b.slots|
    decreases f, 2
  {
    var s, t := a.slots[i], b.slots[i];
    match f.htype
    case Optional => (s.size == 0 <==> t.size == 0) && (s.size != 0 ==> SameItems(f, s, t, 1))
    case Repeated => s.size == t.size && SameItems(f, s, t, s.size)
    case Oneof =>
      && (a.Which(f.union) == f.tag <==> b.Which(f.union) == f.tag)
      && (a.Which(f.union) == f.tag ==> SameItems(f, s, t, 1))
    case _ => SameItems(f, s, t, 1)
  }

  predicate SameItems(f: Field, s: Slot, t: Slot, n: nat)
    decreases f, 1
  {
    && n <= |s.data| == |t.data|
    && forall k :: 0 <= k < n ==> SameValue(f, s.data[k], t.data[k])
  }

  /**
   The two structs hold the same message: the same fields are present, with the same contents.
   Values of absent fields, unselected oneof members, items past the count and bytes past the end
   of a string do not matter.
   */
  predicate SameMsg(fields: seq<Field>, a: Msg, b: Msg)
    decreases fields, 0
  {
    && |a.slots| == |fields| == |b.slots|
    && forall i :: 0 <= i < |fields| ==> SameField(fields[i], a, b, i)
  }

  //////////////////////////////////////////////////////////////////////////////
  // Looking fields up
  //////////////////////////////////////////////////////////////////////////////

  function FindFrom(fields: seq<Field>, tag: nat, i: nat): (r: Option<nat>)
    requires i <= |fields|
    ensures r.Some? ==> i <= r.value < |fields| && fields[r.value].tag == tag
    ensures r.None? ==> forall k :: i <= k < |fields| ==> fields[k].tag != tag
    decreases |fields| - i
  {
    if i == |fields| then None
    else if fields[i].tag == tag then Some(i)
    else FindFrom(fields, tag, i + 1)
  }

  function Find(fields: seq<Field>, tag: nat): (r: Option<nat>)
    ensures r.Some? ==> r.value < |fields| && fields[r.value].tag == tag
    ensures r.None? ==> forall k :: 0 <= k < |fields| ==> fields[k].tag != tag
  {
    FindFrom(fields, tag, 0)
  }

  /** The number of required fields before position i. */
  function RequiredIndex(fields: seq<Field>, i: nat): nat
    requires i <= |fields|
  {
    if i == 0 then 0
    else RequiredIndex(fields, i - 1) + (if fields[i - 1].htype.Required? then 1 else 0)
  }

  /** PB_MAX_REQUIRED_FIELDS */
  const MAX_REQUIRED: nat := 64

  /** Every required field that the decoder keeps track of is among the given tags. */
  predicate RequiredSeen(fields: seq<Field>, tags: set<nat>) {
    forall i :: 0 <= i < |fields| && fields[i].htype.Required? && RequiredIndex(fields, i) < MAX_REQUIRED ==>
      fields[i].tag in tags
  }
}

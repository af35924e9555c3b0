/** What pb_encode writes: the bytes of every field in descriptor order, up to the first failure. */
module EncodeSpec {
  import opened Basics
  import opened Wire
  import opened Scalars
  import opened Schema

  /** The outcome of an encoder on a stream that never fills: success, and what was written. */
  datatype Enc = Enc(ok: bool, out: seq<byte>)

  const NOTHING: Enc := Enc(true, [])
  const FAILED: Enc := Enc(false, [])

  function Then(a: Enc, b: Enc): Enc {
    if a.ok then Enc(b.ok, a.out + b.out) else a
  }

  lemma ThenAssociative(a: Enc, b: Enc, c: Enc)
    ensures Then(a, Then(b, c)) == Then(Then(a, b), c)
  {
    assert a.out + (b.out + c.out) == a.out + b.out + c.out;
  }

  lemma ThenNothing(a: Enc)
    ensures Then(a, NOTHING) == a == Then(NOTHING, a)
  {
    assert a.out + [] == a.out == [] + a.out;
  }

  const WT_VARINT: nat := 0
  const WT_64BIT: nat := 1
  const WT_STRING: nat := 2
  const WT_32BIT: nat := 5

  function WireType(t: LType): nat {
    match t
    case LFixed32 => WT_32BIT
    case LFixed64 => WT_64BIT
    case _ => if t.Packable() then WT_VARINT else WT_STRING
  }

  function EncTag(tag: nat, wireType: nat): seq<byte> {
    EncVarint(8 * tag + wireType)
  }

  function Delimited(s: seq<byte>): seq<byte> {
    EncVarint(|s|) + s
  }

  /** A length-delimited record body, or nothing when the contents cannot be encoded. */
  function DelimitedEnc(e: Enc): Enc {
    if e.ok then Enc(true, Delimited(e.out)) else FAILED
  }

  function IntegerEnc(size: nat, v: nat): Enc {
    if IntegerSize(size) then Enc(true, EncVarint(v)) else FAILED
  }

  /** One value, as the encoder of its type writes it. */
  function EncValue(f: Field, v: Value): Enc
    requires TypedValue(f, v)
    decreases f, 0
  {
    match f.ltype
    case LBool => Enc(true, EncVarint(if v.n != 0 then 1 else 0))
    case LVarint => IntegerEnc(f.dataSize, ToUnsigned(v.n, 8))
    case LUVarint => IntegerEnc(f.dataSize, v.n)
    case LSVarint => IntegerEnc(f.dataSize, ZigZag(v.n))
    case LFixed32 => Enc(true, EncFixed(v.n, 4))
    case LFixed64 => Enc(true, EncFixed(v.n, 8))
    case LBytes => if f.dataSize < v.len + BYTES_HEADER then FAILED else Enc(true, Delimited(v.buf[..v.len]))
    case LString => Enc(true, Delimited(CString(v.buf)))
    case LSubmessage => DelimitedEnc(EncFrom(f.sub, v.msg, 0))
    case LFixedLengthBytes => Enc(true, Delimited(v.buf))
  }

  /** A record: the tag of the field, then a value. */
  function EncRecord(f: Field, v: Value): Enc
    requires TypedValue(f, v)
    decreases f, 1
  {
    Then(Enc(true, EncTag(f.tag, WireType(f.ltype))), EncValue(f, v))
  }

  /** The values alone, as in a packed array. */
  function EncItems(f: Field, items: seq<Value>): Enc
    requires forall k :: 0 <= k < |items| ==> TypedValue(f, items[k])
    decreases f, 1, |items|
  {
    if items == [] then NOTHING else Then(EncValue(f, items[0]), EncItems(f, items[1..]))
  }

  /** One record for each value. */
  function EncRecords(f: Field, items: seq<Value>): Enc
    requires forall k :: 0 <= k < |items| ==> TypedValue(f, items[k])
    decreases f, 2, |items|
  {
    if items == [] then NOTHING else Then(EncRecord(f, items[0]), EncRecords(f, items[1..]))
  }

  function EncArray(f: Field, s: Slot): Enc
    requires f.htype.Repeated? && TypedSlot(f, s)
    decreases f, 3
  {
    if s.size == 0 then NOTHING
    else if f.arraySize < s.size then FAILED
    else
      var items := s.data[..s.size];
      if f.ltype.Packable() then Then(Enc(true, EncTag(f.tag, WT_STRING)), DelimitedEnc(EncItems(f, items)))
      else EncRecords(f, items)
  }

  /** pb_check_proto3_default_value: the field need not be written. */
  predicate IsDefault(f: Field, m: Msg, s: Slot)
    requires TypedSlot(f, s)
    decreases f, 1
  {
    match f.htype
    case Required => false
    case Optional => s.size == 0
    case Repeated => s.size == 0
    case Oneof => m.Which(f.union) == 0
    case Singular => IsZero(f, s.data[0])
  }

  predicate IsZero(f: Field, v: Value)
    requires TypedValue(f, v)
    decreases f, 0
  {
    match f.ltype
    case LBytes => v.len == 0
    case LString => v.buf != [] && v.buf[0] == 0
    case LFixedLengthBytes => f.dataSize == 0
    case LSubmessage => AllDefault(f.sub, v.msg)
    case _ => v.n == 0
  }

  predicate AllDefault(fields: seq<Field>, m: Msg)
    requires TypedMsg(fields, m)
    decreases fields, 0
  {
    forall i :: 0 <= i < |fields| ==> IsDefault(fields[i], m, m.slots[i])
  }

  function EncField(f: Field, m: Msg, s: Slot): Enc
    requires TypedSlot(f, s)
    decreases f, 4
  {
    match f.htype
    case Required => EncRecord(f, s.data[0])
    case Optional => if s.size != 0 then EncRecord(f, s.data[0]) else NOTHING
    case Singular => if IsZero(f, s.data[0]) then NOTHING else EncRecord(f, s.data[0])
    case Repeated => EncArray(f, s)
    case Oneof => if m.Which(f.union) == f.tag then EncRecord(f, s.data[0]) else NOTHING
  }

  /** The fields from position i on. */
  function EncFrom(fields: seq<Field>, m: Msg, i: nat): Enc
    requires TypedMsg(fields, m) && i <= |fields|
    decreases fields, |fields| - i
  {
    if i == |fields| then NOTHING
    else Then(EncField(fields[i], m, m.slots[i]), EncFrom(fields, m, i + 1))
  }

  function EncMsg(fields: seq<Field>, m: Msg): Enc
    requires TypedMsg(fields, m)
  {
    EncFrom(fields, m, 0)
  }

  //////////////////////////////////////////////////////////////////////////////
  // When encoding succeeds
  //////////////////////////////////////////////////////////////////////////////

  /** The value is one that its encoder does not refuse. */
  predicate Encodable(f: Field, v: Value)
    requires TypedValue(f, v)
    decreases f, 0
  {
    match f.ltype
    case LVarint => IntegerSize(f.dataSize)
    case LUVarint => IntegerSize(f.dataSize)
    case LSVarint => IntegerSize(f.dataSize)
    case LBytes => v.len <= |v.buf|
    case LSubmessage => EncodableMsg(f.sub, v.msg)
    case _ => true
  }

  predicate EncodableField(f: Field, m: Msg, s: Slot)
    requires TypedSlot(f, s)
    decreases f, 1
  {
    match f.htype
    case Required => Encodable(f, s.data[0])
    case Optional => s.size != 0 ==> Encodable(f, s.data[0])
    case Singular => IsZero(f, s.data[0]) || Encodable(f, s.data[0])
    case Repeated => s.size <= f.arraySize && forall k :: 0 <= k < s.size ==> Encodable(f, s.data[k])
    case Oneof => m.Which(f.union) == f.tag ==> Encodable(f, s.data[0])
  }

  predicate EncodableMsg(fields: seq<Field>, m: Msg)
    requires TypedMsg(fields, m)
    decreases fields, 0
  {
    forall i :: 0 <= i < |fields| ==> EncodableField(fields[i], m, m.slots[i])
  }

  lemma {:induction false} EncItemsOk(f: Field, items: seq<Value>)
    requires forall k :: 0 <= k < |items| ==> TypedValue(f, items[k])
    ensures EncItems(f, items).ok <==> forall k :: 0 <= k < |items| ==> EncValue(f, items[k]).ok
    ensures EncRecords(f, items).ok <==> forall k :: 0 <= k < |items| ==> EncValue(f, items[k]).ok
  {
    if items != [] {
      EncItemsOk(f, items[1..]);
      assert forall k :: 0 < k < |items| ==> items[k] == items[1..][k - 1];
      assert forall k :: 0 <= k < |items| - 1 ==> items[1..][k] == items[k + 1];
    }
  }

  /** The encoder succeeds exactly on encodable values, fields and messages. */
  lemma {:induction false} EncValueOk(f: Field, v: Value)
    requires TypedValue(f, v)
    ensures EncValue(f, v).ok <==> Encodable(f, v)
    decreases f, 0
  {
    if f.ltype.LSubmessage? {
      EncFromOk(f.sub, v.msg, 0);
    }
  }

  lemma {:induction false} EncFieldOk(f: Field, m: Msg, s: Slot)
    requires TypedSlot(f, s)
    ensures EncField(f, m, s).ok <==> EncodableField(f, m, s)
    decreases f, 1
  {
    if f.htype.Repeated? {
      if s.size <= f.arraySize {
        var items := s.data[..s.size];
        forall k | 0 <= k < s.size ensures EncValue(f, items[k]).ok <==> Encodable(f, s.data[k]) {
          EncValueOk(f, s.data[k]);
        }
        EncItemsOk(f, items);
      }
    } else {
      EncValueOk(f, s.data[0]);
    }
  }

  lemma {:induction false} EncFromOk(fields: seq<Field>, m: Msg, i: nat)
    requires TypedMsg(fields, m) && i <= |fields|
    ensures EncFrom(fields, m, i).ok
       <==> forall k :: i <= k < |fields| ==> EncodableField(fields[k], m, m.slots[k])
    decreases fields, |fields| - i
  {
    if i < |fields| {
      EncFieldOk(fields[i], m, m.slots[i]);
      EncFromOk(fields, m, i + 1);
    }
  }

  lemma EncMsgOk(fields: seq<Field>, m: Msg)
    requires TypedMsg(fields, m)
    ensures EncMsg(fields, m).ok <==> EncodableMsg(fields, m)
  {
    EncFromOk(fields, m, 0);
  }
}

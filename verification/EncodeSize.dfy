/** How long the encoding of a message can get, computed from its descriptor alone. */
module EncodeSize {
  import opened Basics
  import opened Bits
  import opened Wire
  import opened Scalars
  import opened Schema
  import opened EncodeSpec

  function MaxValue(f: Field): nat
    decreases f, 0
  {
    if f.ltype.Packable() then 10
    else if f.ltype.LSubmessage? then 10 + MaxFrom(f.sub, 0)
    else 10 + f.dataSize
  }

  function MaxField(f: Field): nat
    decreases f, 1
  {
    if !f.htype.Repeated? then 10 + MaxValue(f)
    else if f.ltype.Packable() then 20 + f.arraySize * 10
    else f.arraySize * (10 + MaxValue(f))
  }

  function MaxFrom(fields: seq<Field>, i: nat): nat
    requires i <= |fields|
    decreases fields, |fields| - i
  {
    if i == |fields| then 0 else MaxField(fields[i]) + MaxFrom(fields, i + 1)
  }

  /** The largest encoding of any message with this descriptor. */
  function MaxSize(fields: seq<Field>): nat {
    MaxFrom(fields, 0)
  }

  lemma {:induction false} MaxFromAtLeast(fields: seq<Field>, i: nat, k: nat)
    requires i <= k < |fields|
    ensures MaxField(fields[k]) <= MaxFrom(fields, i)
    decreases k - i
  {
    if i < k { MaxFromAtLeast(fields, i + 1, k); }
  }

  lemma MaxValueOfField(f: Field)
    requires 0 < Capacity(f)
    ensures MaxValue(f) <= MaxField(f)
  {
    var n, b := f.arraySize, 10 + MaxValue(f);
    if f.htype.Repeated? && !f.ltype.Packable() {
      assert n * b == b + (n - 1) * b;
    }
  }

  lemma TagSize(tag: nat, wireType: nat)
    requires tag < 0x2000_0000 && wireType < 8
    ensures |EncTag(tag, wireType)| <= 10
  {
    EncVarintFits(8 * tag + wireType);
  }

  lemma NumSize(f: Field, v: Value)
    requires f.ltype.Packable() && TypedValue(f, v)
    ensures |EncValue(f, v).out| <= 10
  {
    match f.ltype
    case LVarint => EncVarintFits(ToUnsigned(v.n, 8));
    case LUVarint => EncVarintFits(v.n);
    case LSVarint => ZigZagInverse(v.n, 0); EncVarintFits(ZigZag(v.n));
    case _ =>
  }

  lemma BufferSize(f: Field, v: Value)
    requires TypedValue(f, v) && f.dataSize < TWO_TO_32
    requires f.ltype.LBytes? || f.ltype.LString? || f.ltype.LFixedLengthBytes?
    ensures |EncValue(f, v).out| <= 10 + f.dataSize
  {
    match f.ltype
    case LBytes => if v.len <= |v.buf| { EncVarintFits(v.len); }
    case LString => CStringSize(v.buf); EncVarintFits(|CString(v.buf)|);
    case LFixedLengthBytes => EncVarintFits(|v.buf|);
  }

  lemma {:induction false} CStringSize(buf: seq<byte>)
    ensures |CString(buf)| <= |buf|
  {
    if buf != [] && buf[0] != 0 { CStringSize(buf[1..]); }
  }

  lemma {:induction false} ValueSize(f: Field, v: Value)
    requires ValidField(f) && TypedValue(f, v) && MaxValue(f) < TWO_TO_64
    ensures |EncValue(f, v).out| <= MaxValue(f)
    decreases f, 0
  {
    if f.ltype.Packable() {
      NumSize(f, v);
    } else if f.ltype.LSubmessage? {
      SizeFrom(f.sub, v.msg, 0);
      EncVarintFits(|EncFrom(f.sub, v.msg, 0).out|);
    } else {
      BufferSize(f, v);
    }
  }

  lemma RecordSize(f: Field, v: Value)
    requires ValidField(f) && TypedValue(f, v) && MaxValue(f) < TWO_TO_64
    ensures |EncRecord(f, v).out| <= 10 + MaxValue(f)
    decreases f, 1
  {
    TagSize(f.tag, WireType(f.ltype));
    ValueSize(f, v);
  }

  lemma {:induction false} ItemsSize(f: Field, items: seq<Value>)
    requires f.ltype.Packable() && forall k :: 0 <= k < |items| ==> TypedValue(f, items[k])
    ensures |EncItems(f, items).out| <= |items| * 10
  {
    if items != [] {
      NumSize(f, items[0]);
      ItemsSize(f, items[1..]);
    }
  }

  lemma {:induction false} RecordsSize(f: Field, items: seq<Value>)
    requires ValidField(f) && MaxValue(f) < TWO_TO_64 && forall k :: 0 <= k < |items| ==> TypedValue(f, items[k])
    ensures |EncRecords(f, items).out| <= |items| * (10 + MaxValue(f))
    decreases f, 2, |items|
  {
    if items != [] {
      RecordSize(f, items[0]);
      RecordsSize(f, items[1..]);
      OneMoreTime(|items|, 10 + MaxValue(f));
    }
  }

  lemma FieldSize(f: Field, m: Msg, s: Slot)
    requires ValidField(f) && TypedSlot(f, s) && MaxField(f) < TWO_TO_64
    ensures |EncField(f, m, s).out| <= MaxField(f)
    decreases f, 3
  {
    if !f.htype.Repeated? {
      RecordSize(f, s.data[0]);
    } else if 0 < s.size <= f.arraySize {
      MaxValueOfField(f);
      ArraySize(f, s);
    }
  }

  lemma ArraySize(f: Field, s: Slot)
    requires ValidField(f) && f.htype.Repeated? && TypedSlot(f, s) && 0 < s.size <= f.arraySize
    requires MaxField(f) < TWO_TO_64 && MaxValue(f) < TWO_TO_64
    ensures |EncArray(f, s).out| <= MaxField(f)
    decreases f, 2
  {
    var items := s.data[..s.size];
    if f.ltype.Packable() {
      PackedSize(f, items);
    } else {
      RecordsSize(f, items);
      Scale(s.size, f.arraySize, 10 + MaxValue(f));
    }
  }

  lemma PackedSize(f: Field, items: seq<Value>)
    requires ValidField(f) && f.ltype.Packable() && |items| <= f.arraySize
    requires forall k :: 0 <= k < |items| ==> TypedValue(f, items[k])
    ensures |Then(Enc(true, EncTag(f.tag, WT_STRING)), DelimitedEnc(EncItems(f, items))).out| <= 20 + f.arraySize * 10
  {
    ItemsSize(f, items);
    EncVarintFits(|EncItems(f, items).out|);
    TagSize(f.tag, WT_STRING);
  }

  lemma OneMoreTime(n: nat, b: nat)
    requires 0 < n
    ensures n * b == b + (n - 1) * b
  {}

  lemma Scale(k: nat, n: nat, b: nat)
    requires k <= n
    ensures k * b <= n * b
  {}

  lemma {:induction false} SizeFrom(fields: seq<Field>, m: Msg, i: nat)
    requires ValidFields(fields) && TypedMsg(fields, m) && i <= |fields| && MaxFrom(fields, i) < TWO_TO_64
    ensures |EncFrom(fields, m, i).out| <= MaxFrom(fields, i)
    decreases fields, |fields| - i
  {
    if i < |fields| {
      assert ValidField(fields[i]) && TypedSlot(fields[i], m.slots[i]);
      FieldSize(fields[i], m, m.slots[i]);
      SizeFrom(fields, m, i + 1);
    }
  }

  /** No message of the type encodes to more bytes, whether its encoding succeeds or not. */
  lemma EncodedSizeBound(fields: seq<Field>, m: Msg)
    requires ValidFields(fields) && TypedMsg(fields, m) && MaxSize(fields) < TWO_TO_64
    ensures |EncMsg(fields, m).out| <= MaxSize(fields)
  {
    SizeFrom(fields, m, 0);
  }
}

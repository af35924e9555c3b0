/** What pb_decode makes of a byte string: the message it builds, and the bytes it leaves. */
module DecodeSpec {
  import opened Basics
  import opened Bits
  import opened Wire
  import opened Scalars
  import opened Schema
  import opened EncodeSpec

  //////////////////////////////////////////////////////////////////////////////
  // Values
  //////////////////////////////////////////////////////////////////////////////

  function AsNum(r: Parse<int>): Parse<Value> {
    match r
    case Fail => Fail
    case Done(n, rest) => Done(Num(n), rest)
  }

  function AsBool(r: Parse<nat>): Parse<Value> {
    match r
    case Fail => Fail
    case Done(n, rest) => Done(Num(if n != 0 then 1 else 0), rest)
  }

  function DecNum(f: Field, s: seq<byte>): Parse<Value>
    requires f.ltype.Packable()
  {
    match f.ltype
    case LBool => AsBool(Varint32(s))
    case LVarint => AsNum(DecInt(s, f.dataSize))
    case LUVarint => AsNum(DecUint(s, f.dataSize))
    case LSVarint => AsNum(DecSint(s, f.dataSize))
    case LFixed32 => AsNum(DecFixed(s, 4))
    case LFixed64 => AsNum(DecFixed(s, 8))
  }

  /** A decoded number fits its field, and at least one byte was read for it. */
  lemma DecNumTyped(f: Field, s: seq<byte>)
    requires f.ltype.Packable()
    ensures var r := DecNum(f, s); r.Done? ==> TypedValue(f, r.val) && |r.rest| < |s|
  {
    match f.ltype
    case LBool => Varint32Stops(s);
    case LFixed32 => FixedTyped(s, 4);
    case LFixed64 => FixedTyped(s, 8);
    case _ => IntegerTyped(f, s);
  }

  lemma FixedTyped(s: seq<byte>, n: nat)
    ensures var r := DecFixed(s, n); r.Done? ==> r.val < Pow256(n) && |r.rest| == |s| - n
    ensures Pow256(4) == TWO_TO_32 && Pow256(8) == TWO_TO_64
  {
    if n <= |s| { FixedValueRange(s[..n]); }
    Pow256Values();
  }

  lemma IntegerTyped(f: Field, s: seq<byte>)
    requires f.ltype.LVarint? || f.ltype.LUVarint? || f.ltype.LSVarint?
    ensures var r := DecNum(f, s); r.Done? ==> TypedValue(f, r.val) && |r.rest| < |s|
  {
    if Varint64(s).Done? && IntegerSize(f.dataSize) { NarrowDecodeExact(s, f.dataSize); }
  }

  /** pb_make_string_substream and pb_close_string_substream: a length prefix and that many bytes. */
  function SubStream(s: seq<byte>): (r: Parse<seq<byte>>)
    ensures r.Done? ==> |r.rest| + |r.val| < |s|
  {
    match Varint32(s)
    case Fail => Fail
    case Done(n, p) =>
      Varint32Stops(s);
      if |p| < n then Fail else Done(p[..n], p[n..])
  }

  function DecBytes(f: Field, s: seq<byte>, held: seq<byte>): Parse<Value>
    requires f.dataSize == |held| + BYTES_HEADER
  {
    match Varint32(s)
    case Fail => Fail
    case Done(n, p) =>
      if f.dataSize < n + BYTES_HEADER || |p| < n then Fail else Done(Bytes(n, p[..n] + held[n..]), p[n..])
  }

  function DecText(f: Field, s: seq<byte>, held: seq<byte>): Parse<Value>
    requires f.dataSize == |held|
  {
    match Varint32(s)
    case Fail => Fail
    case Done(n, p) =>
      if f.dataSize < n + 1 || |p| < n then Fail else Done(Text(p[..n] + [0] + held[n + 1..]), p[n..])
  }

  /** An empty byte string stands for all zeros. */
  function DecInline(f: Field, s: seq<byte>): Parse<Value> {
    match Varint32(s)
    case Fail => Fail
    case Done(n, p) =>
      if n == 0 then Done(Inline(ZeroBytes(f.dataSize)), p)
      else if n != f.dataSize || |p| < n then Fail
      else Done(Inline(p[..n]), p[n..])
  }

  lemma DecBufferTyped(f: Field, s: seq<byte>, v: Value)
    requires TypedValue(f, v)
    ensures f.ltype.LBytes? ==>
              var r := DecBytes(f, s, v.buf); r.Done? ==> TypedValue(f, r.val) && |r.rest| < |s|
    ensures f.ltype.LString? ==>
              var r := DecText(f, s, v.buf); r.Done? ==> TypedValue(f, r.val) && |r.rest| < |s|
    ensures f.ltype.LFixedLengthBytes? ==>
              var r := DecInline(f, s); r.Done? ==> TypedValue(f, r.val) && |r.rest| < |s|
  {
    Varint32Stops(s);
  }

  /** One value of the field's type; v is what the destination holds beforehand. */
  function DecValue(f: Field, s: seq<byte>, v: Value): (r: Parse<Value>)
    requires ValidField(f) && TypedValue(f, v)
    ensures r.Done? ==> TypedValue(f, r.val) && |r.rest| < |s|
    decreases f, 1
  {
    match f.ltype
    case LBytes => DecBufferTyped(f, s, v); DecBytes(f, s, v.buf)
    case LString => DecBufferTyped(f, s, v); DecText(f, s, v.buf)
    case LFixedLengthBytes => DecBufferTyped(f, s, v); DecInline(f, s)
    case LSubmessage => DecSub(f, s, v.msg)
    case _ => DecNumTyped(f, s); DecNum(f, s)
  }

  /** A submessage: new array entries are set to defaults first, other destinations are merged into. */
  function DecSub(f: Field, s: seq<byte>, m: Msg): (r: Parse<Value>)
    requires ValidField(f) && f.ltype.LSubmessage? && TypedMsg(f.sub, m)
    ensures r.Done? ==> TypedValue(f, r.val) && |r.rest| < |s|
    decreases f, 0
  {
    match SubStream(s)
    case Fail => Fail
    case Done(body, rest) =>
      match DecMsg(f.sub, body, if f.htype.Repeated? then SetDefaults(f.sub, m, 0) else m)
      case Fail => Fail
      case Done(m', _) => Done(Sub(m'), rest)
  }

  //////////////////////////////////////////////////////////////////////////////
  // Fields
  //////////////////////////////////////////////////////////////////////////////

  function StoreItem(s: Slot, k: nat, v: Value, size: nat): Slot
    requires k < |s.data|
  {
    Slot(size, s.data[k := v])
  }

  /** The items of a packed array, which must fit the rest of the array. */
  function DecPacked(f: Field, s: seq<byte>, slot: Slot): (r: Parse<Slot>)
    requires ValidField(f) && f.htype.Repeated? && f.ltype.Packable() && TypedSlot(f, slot)
    ensures r.Done? ==> TypedSlot(f, r.val)
    decreases f, 2, |s|
  {
    if s == [] then Done(slot, [])
    else if f.arraySize <= slot.size then Fail
    else
      match DecValue(f, s, slot.data[slot.size])
      case Fail => Fail
      case Done(v, rest) => DecPacked(f, rest, StoreItem(slot, slot.size, v, slot.size + 1))
  }

  /** An item that is sent on its own. */
  function DecItem(f: Field, s: seq<byte>, slot: Slot): (r: Parse<Slot>)
    requires ValidField(f) && f.htype.Repeated? && TypedSlot(f, slot)
    ensures r.Done? ==> TypedSlot(f, r.val) && |r.rest| < |s|
    decreases f, 2
  {
    if f.arraySize <= slot.size then Fail
    else
      match DecValue(f, s, slot.data[slot.size])
      case Fail => Fail
      case Done(v, rest) => Done(StoreItem(slot, slot.size, v, slot.size + 1), rest)
  }

  function DecRepeated(f: Field, wireType: nat, s: seq<byte>, slot: Slot): (r: Parse<Slot>)
    requires ValidField(f) && f.htype.Repeated? && TypedSlot(f, slot)
    ensures r.Done? ==> TypedSlot(f, r.val) && |r.rest| < |s|
    decreases f, 3
  {
    if wireType == WT_STRING && f.ltype.Packable() then
      match SubStream(s)
      case Fail => Fail
      case Done(body, rest) =>
        match DecPacked(f, body, slot)
        case Fail => Fail
        case Done(slot', _) => Done(slot', rest)
    else DecItem(f, s, slot)
  }

  /** What a oneof member holds before it is decoded into: a newly selected submessage is reset. */
  function OneofTarget(f: Field, selected: bool, v: Value): (r: Value)
    requires ValidField(f) && TypedValue(f, v)
    ensures TypedValue(f, r)
  {
    if f.ltype.LSubmessage? && !selected then ZeroMsgTyped(f.sub); Sub(SetDefaults(f.sub, ZeroMsg(f.sub), 0)) else v
  }

  /** A field that holds one value. */
  function DecSingle(f: Field, s: seq<byte>, slot: Slot, selected: bool): (r: Parse<Slot>)
    requires ValidField(f) && !f.htype.Repeated? && TypedSlot(f, slot)
    ensures r.Done? ==> TypedSlot(f, r.val) && |r.rest| < |s|
    decreases f, 2
  {
    var target := if f.htype.Oneof? then OneofTarget(f, selected, slot.data[0]) else slot.data[0];
    match DecValue(f, s, target)
    case Fail => Fail
    case Done(v, rest) => Done(StoreItem(slot, 0, v, if f.htype.Optional? then 1 else slot.size), rest)
  }

  /**
   pb_release_union_field: what the oneof holds must be nothing, the same field, or another listed one.
   Statically allocated members have nothing to release.
   */
  predicate Releasable(fields: seq<Field>, f: Field, m: Msg) {
    f.htype.Oneof? && m.Which(f.union) != 0 && m.Which(f.union) != f.tag ==> Find(fields, m.Which(f.union)).Some?
  }

  /** decode_field for the field at position i: the check of a oneof, then decode_static_field. */
  function DecField(fields: seq<Field>, i: nat, wireType: nat, s: seq<byte>, m: Msg): (r: Parse<Msg>)
    requires i < |fields| && ValidFields(fields) && TypedMsg(fields, m)
    ensures r.Done? ==> TypedMsg(fields, r.val) && |r.rest| < |s|
    decreases fields, 0, 0
  {
    var f, slot := fields[i], m.slots[i];
    assert ValidField(f) && TypedSlot(f, slot);
    var r := if !Releasable(fields, f, m) then Fail
             else if f.htype.Repeated? then DecRepeated(f, wireType, s, slot)
             else DecSingle(f, s, slot, m.Which(f.union) == f.tag);
    match r
    case Fail => Fail
    case Done(slot', rest) =>
      Done(Msg(m.slots[i := slot'], if f.htype.Oneof? then m.which[f.union := f.tag] else m.which), rest)
  }

  //////////////////////////////////////////////////////////////////////////////
  // Messages
  //////////////////////////////////////////////////////////////////////////////

  /** pb_skip_field */
  function Skip(wireType: nat, s: seq<byte>): (r: Parse<()>)
    ensures r.Done? ==> |r.rest| <= |s|
  {
    if wireType == WT_VARINT then SkipVarint(s)
    else if wireType == WT_64BIT then SkipBytes(8, s)
    else if wireType == WT_STRING then
      match SubStream(s)
      case Fail => Fail
      case Done(_, rest) => Done((), rest)
    else if wireType == WT_32BIT then SkipBytes(4, s)
    else Fail
  }

  function SkipBytes(n: nat, s: seq<byte>): Parse<()> {
    if |s| < n then Fail else Done((), s[n..])
  }

  /** The message so far, and the tags of the fields that have been decoded into it. */
  datatype Progress = Progress(msg: Msg, tags: set<nat>)

  /** One round of the decoder: it fails, meets a zero key and stops, or goes on. */
  datatype Round = Error | Stop(rest: seq<byte>) | Next(state: Progress, rest: seq<byte>)

  function DecRound(fields: seq<Field>, s: seq<byte>, p: Progress): (r: Round)
    requires ValidFields(fields) && TypedMsg(fields, p.msg)
    ensures r.Next? ==> TypedMsg(fields, r.state.msg) && |r.rest| < |s|
    decreases fields, 1
  {
    match Varint32(s)
    case Fail => Error
    case Done(key, rest) =>
      Varint32Stops(s);
      if key == 0 then Stop(rest)
      else DecRecord(fields, key / 8, key % 8, rest, p)
  }

  /**
   What follows a key. On an empty descriptor the iterator stands on the terminator, whose zero tag
   matches field number zero; the terminator then decodes as a required bool.
   */
  function DecRecord(fields: seq<Field>, tag: nat, wireType: nat, s: seq<byte>, p: Progress): (r: Round)
    requires ValidFields(fields) && TypedMsg(fields, p.msg)
    ensures r.Next? ==> TypedMsg(fields, r.state.msg) && |r.rest| <= |s|
    decreases fields, 0, 1
  {
    match Find(fields, tag)
    case None =>
      if fields == [] && tag == 0 then
        match Varint32(s)
        case Fail => Error
        case Done(_, rest) => Varint32Stops(s); Next(p, rest)
      else
        (match Skip(wireType, s)
         case Fail => Error
         case Done(_, rest) => Next(p, rest))
    case Some(i) =>
      match DecField(fields, i, wireType, s, p.msg)
      case Fail => Error
      case Done(m, rest) => Next(Progress(m, p.tags + {tag}), rest)
  }

  /** The loop of pb_decode_noinit: to the end of the stream, or to a zero key. */
  function DecLoop(fields: seq<Field>, s: seq<byte>, p: Progress): (r: Parse<Progress>)
    requires ValidFields(fields) && TypedMsg(fields, p.msg)
    ensures r.Done? ==> TypedMsg(fields, r.val.msg)
    decreases fields, 2, |s|
  {
    if s == [] then Done(p, [])
    else
      match DecRound(fields, s, p)
      case Error => Fail
      case Stop(rest) => Done(p, rest)
      case Next(p', rest) => DecLoop(fields, rest, p')
  }

  /** pb_decode_noinit */
  function DecMsg(fields: seq<Field>, s: seq<byte>, m: Msg): (r: Parse<Msg>)
    requires ValidFields(fields) && TypedMsg(fields, m)
    ensures r.Done? ==> TypedMsg(fields, r.val)
    decreases fields, 3
  {
    match DecLoop(fields, s, Progress(m, {}))
    case Fail => Fail
    case Done(p, rest) => if RequiredSeen(fields, p.tags) then Done(p.msg, rest) else Fail
  }

  /** pb_decode */
  function Decode(fields: seq<Field>, s: seq<byte>, m: Msg): Parse<Msg>
    requires ValidFields(fields) && TypedMsg(fields, m)
  {
    DecMsg(fields, s, SetDefaults(fields, m, 0))
  }
}

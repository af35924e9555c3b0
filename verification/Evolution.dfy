/**
 Schemas that differ: what the encoder writes for a field is ignored by a decoder that does not list it,
 so that a message of a newer schema can be read by an older one, and the other way round.
 */
module Evolution {
  import opened Basics
  import opened Bits
  import opened Wire
  import opened Scalars
  import opened Schema
  import opened EncodeSpec
  import opened DecodeSpec
  import opened Merge
  import opened RoundTrip
  import opened Presence
  import opened Overlay
  import opened Unterminated

  //////////////////////////////////////////////////////////////////////////////
  // Fields that the decoder does not list
  //////////////////////////////////////////////////////////////////////////////

  /** What the encoder writes for a value is what the decoder skips for its wire type. */
  lemma ValueSkipped(f: Field, v: Value, t: seq<byte>)
    requires Written(f, v)
    ensures Skip(WireType(f.ltype), EncValue(f, v).out + t) == Done((), t)
  {
    if f.ltype.Packable() {
      NumSkipped(f, v, t);
    } else {
      var body := DelimitedBody(f, v);
      DelimitedRoundTrip(body, t);
    }
  }

  lemma NumSkipped(f: Field, v: Value, t: seq<byte>)
    requires Written(f, v) && f.ltype.Packable()
    ensures Skip(WireType(f.ltype), EncValue(f, v).out + t) == Done((), t)
  {
    match f.ltype
    case LBool => VarintSkipped(if v.n != 0 then 1 else 0, t);
    case LVarint => VarintSkipped(ToUnsigned(v.n, 8), t);
    case LUVarint => VarintSkipped(v.n, t);
    case LSVarint => VarintSkipped(ZigZag(v.n), t);
    case LFixed32 => DropExtends(EncFixed(v.n, 4), t, 4);
    case LFixed64 => DropExtends(EncFixed(v.n, 8), t, 8);
  }

  /** The other values are byte strings with a length prefix. */
  lemma DelimitedBody(f: Field, v: Value) returns (body: seq<byte>)
    requires Written(f, v) && !f.ltype.Packable()
    ensures |body| < TWO_TO_32 && EncValue(f, v).out == Delimited(body)
  {
    match f.ltype
    case LBytes => body := v.buf[..v.len];
    case LString => body := CString(v.buf);
    case LSubmessage => body := EncFrom(f.sub, v.msg, 0).out;
    case LFixedLengthBytes => body := v.buf;
  }

  lemma VarintSkipped(v: nat, t: seq<byte>)
    ensures SkipVarint(EncVarint(v) + t) == Done((), t)
  {
    EncVarintEnds(v, t);
  }

  /** A record whose field is not listed is passed over. */
  lemma UnlistedRound(fields: seq<Field>, tag: nat, wireType: nat, s: seq<byte>, t: seq<byte>, p: Progress)
    requires ValidFields(fields) && TypedMsg(fields, p.msg) && 1 <= tag < 0x2000_0000 && Find(fields, tag).None?
    requires wireType < 8 && Skip(wireType, s) == Done((), t)
    ensures DecRound(fields, EncTag(tag, wireType) + s, p) == Next(p, t)
  {
    TagRoundTrip(tag, wireType, s);
  }

  lemma UnlistedRecord(fields: seq<Field>, f: Field, v: Value, t: seq<byte>, p: Progress)
    requires ValidFields(fields) && TypedMsg(fields, p.msg) && ValidField(f) && Find(fields, f.tag).None?
    requires Written(f, v)
    ensures DecLoop(fields, EncRecord(f, v).out + t, p) == DecLoop(fields, t, p)
  {
    ValueSkipped(f, v, t);
    UnlistedRound(fields, f.tag, WireType(f.ltype), EncValue(f, v).out + t, t, p);
    RecordFront(f, v, t);
  }

  lemma {:induction false} UnlistedRecords(
    fields: seq<Field>, f: Field, items: seq<Value>, t: seq<byte>, p: Progress)
    requires ValidFields(fields) && TypedMsg(fields, p.msg) && ValidField(f) && Find(fields, f.tag).None?
    requires AllWritten(f, items)
    ensures DecLoop(fields, EncRecords(f, items).out + t, p) == DecLoop(fields, t, p)
    decreases |items|
  {
    if items == [] {
      assert [] + t == t;
    } else {
      AllWrittenTail(f, items);
      var e, tail := EncRecord(f, items[0]).out, EncRecords(f, items[1..]).out;
      assert EncRecords(f, items).out + t == e + (tail + t);
      UnlistedRecord(fields, f, items[0], tail + t, p);
      UnlistedRecords(fields, f, items[1..], t, p);
    }
  }

  lemma UnlistedArray(fields: seq<Field>, f: Field, s: Slot, t: seq<byte>, p: Progress)
    requires ValidFields(fields) && TypedMsg(fields, p.msg) && ValidField(f) && Find(fields, f.tag).None?
    requires f.htype.Repeated? && TypedSlot(f, s) && EncArray(f, s).ok && |EncArray(f, s).out| < TWO_TO_32
    ensures DecLoop(fields, EncArray(f, s).out + t, p) == DecLoop(fields, t, p)
  {
    if s.size == 0 {
      assert [] + t == t;
    } else {
      ArrayWritten(f, s);
      var items := s.data[..s.size];
      if f.ltype.Packable() {
        UnlistedPacked(fields, f.tag, EncItems(f, items).out, t, p);
      } else {
        UnlistedRecords(fields, f, items, t, p);
      }
    }
  }

  lemma UnlistedPacked(fields: seq<Field>, tag: nat, body: seq<byte>, t: seq<byte>, p: Progress)
    requires ValidFields(fields) && TypedMsg(fields, p.msg) && 1 <= tag < 0x2000_0000 && Find(fields, tag).None?
    requires |body| < TWO_TO_32
    ensures DecLoop(fields, EncTag(tag, WT_STRING) + Delimited(body) + t, p) == DecLoop(fields, t, p)
  {
    DelimitedRoundTrip(body, t);
    UnlistedRound(fields, tag, WT_STRING, Delimited(body) + t, t, p);
    Regrouped(EncTag(tag, WT_STRING), Delimited(body), t);
  }

  lemma Regrouped(a: seq<byte>, b: seq<byte>, c: seq<byte>)
    ensures a + b + c == a + (b + c)
  {}

  lemma UnlistedField(fields: seq<Field>, f: Field, m: Msg, s: Slot, t: seq<byte>, p: Progress)
    requires ValidFields(fields) && TypedMsg(fields, p.msg) && ValidField(f) && Find(fields, f.tag).None?
    requires TypedSlot(f, s) && EncField(f, m, s).ok && |EncField(f, m, s).out| < TWO_TO_32
    ensures DecLoop(fields, EncField(f, m, s).out + t, p) == DecLoop(fields, t, p)
  {
    AbsentExactly(f, m, s);
    if Absent(f, m, s) {
      assert [] + t == t;
    } else if f.htype.Repeated? {
      UnlistedArray(fields, f, s, t, p);
    } else {
      UnlistedRecord(fields, f, s.data[0], t, p);
    }
  }

  /**
   What the encoder writes for any field that the decoder does not list can stand between any two records
   of any input: success, the message and the bytes left over are unchanged.
   */
  lemma UnlistedIgnored(
    fields: seq<Field>, f: Field, m: Msg, s: Slot, a: seq<byte>, b: seq<byte>, dest: Msg)
    requires ValidFields(fields) && TypedMsg(fields, dest) && ValidField(f) && Find(fields, f.tag).None?
    requires TypedSlot(f, s) && EncField(f, m, s).ok && |EncField(f, m, s).out| < TWO_TO_32
    requires Records(fields, a, Progress(SetDefaults(fields, dest, 0), {})).Some?
    ensures Decode(fields, a + EncField(f, m, s).out + b, dest) == Decode(fields, a + b, dest)
  {
    var p := Progress(SetDefaults(fields, dest, 0), {});
    assert a + EncField(f, m, s).out + b == a + (EncField(f, m, s).out + b);
    DecLoopAppend(fields, a, EncField(f, m, s).out + b, p);
    DecLoopAppend(fields, a, b, p);
    UnlistedField(fields, f, m, s, b, Records(fields, a, p).value);
  }

  //////////////////////////////////////////////////////////////////////////////
  // Newer and older schemas
  //////////////////////////////////////////////////////////////////////////////

  /** The older schema has the fields of the newer one at the given positions. */
  predicate Extends(newer: seq<Field>, older: seq<Field>, at: seq<nat>) {
    && |at| == |older|
    && Increasing(at)
    && (forall j :: 0 <= j < |at| ==> at[j] < |newer| && older[j] == newer[at[j]])
  }

  /** The message of the older schema has the slots and selections that the one of the newer schema has there. */
  predicate IsPart(m: Msg, at: seq<nat>, part: Msg) {
    && |part.slots| == |at| && part.which == m.which
    && forall j :: 0 <= j < |at| ==> at[j] < |m.slots| && part.slots[j] == m.slots[at[j]]
  }

  lemma OlderValid(newer: seq<Field>, older: seq<Field>, at: seq<nat>)
    requires ValidFields(newer) && Extends(newer, older, at)
    ensures ValidFields(older)
  {
    forall i | 0 <= i < |older| ensures ValidField(older[i]) {
      assert ValidField(newer[at[i]]);
    }
    forall i, j | 0 <= i < j < |older| ensures older[i].tag != older[j].tag {
      assert at[i] < at[j];
    }
  }

  lemma OlderTyped(newer: seq<Field>, older: seq<Field>, at: seq<nat>, m: Msg, part: Msg)
    requires Extends(newer, older, at) && TypedMsg(newer, m) && IsPart(m, at, part)
    ensures TypedMsg(older, part)
  {
    forall i | 0 <= i < |older| ensures TypedSlot(older[i], part.slots[i]) {
      assert TypedSlot(newer[at[i]], m.slots[at[i]]);
    }
  }

  predicate Increasing(at: seq<nat>) {
    forall j, k :: 0 <= j < k < |at| ==> at[j] < at[k]
  }

  /** Position i of the newer schema comes after exactly the first j fields of the older one. */
  predicate Reached(at: seq<nat>, i: nat, j: nat) {
    j <= |at| && (j > 0 ==> at[j - 1] < i) && (j < |at| ==> i <= at[j])
  }

  /** How many fields of the older schema there are up to and including position i of the newer one. */
  function Passed(at: seq<nat>, i: nat, j: nat): nat {
    if j < |at| && at[j] == i then j + 1 else j
  }

  lemma ReachedNext(at: seq<nat>, i: nat, j: nat)
    requires Increasing(at) && Reached(at, i, j)
    ensures Reached(at, i + 1, Passed(at, i, j))
  {}

  lemma NotReached(at: seq<nat>, i: nat, j: nat)
    requires Increasing(at) && Reached(at, i, j) && (j == |at| || at[j] != i)
    ensures i !in at
  {
    forall k | 0 <= k < |at| ensures at[k] != i {
      if k < j { assert at[k] <= at[j - 1]; } else { assert at[j] <= at[k]; }
    }
  }

  lemma Unlisted(newer: seq<Field>, older: seq<Field>, at: seq<nat>, i: nat, j: nat)
    requires ValidFields(newer) && Extends(newer, older, at) && i < |newer| && Reached(at, i, j)
    requires j == |at| || at[j] != i
    ensures Find(older, newer[i].tag).None?
  {
    NotReached(at, i, j);
    forall k | 0 <= k < |older| ensures older[k].tag != newer[i].tag {
      assert at[k] != i;
    }
  }

  /** The older schema's part of the message is written whenever the message is, in no more bytes. */
  lemma {:induction false} OlderWritten(
    newer: seq<Field>, older: seq<Field>, at: seq<nat>, m: Msg, part: Msg, i: nat, j: nat)
    requires Extends(newer, older, at) && TypedMsg(newer, m) && IsPart(m, at, part) && TypedMsg(older, part)
    requires i <= |newer| && Reached(at, i, j) && EncFrom(newer, m, i).ok
    ensures EncFrom(older, part, j).ok
    ensures |EncFrom(older, part, j).out| <= |EncFrom(newer, m, i).out|
    decreases |newer| - i
  {
    if i < |newer| {
      ReachedNext(at, i, j);
      OlderWritten(newer, older, at, m, part, i + 1, Passed(at, i, j));
      if j < |at| && at[j] == i { SameField(newer[i], m, part, m.slots[i]); }
    }
  }

  /** What is written for a field depends on its slot and on the selections. */
  lemma SameField(f: Field, m: Msg, m': Msg, s: Slot)
    requires TypedSlot(f, s) && m.which == m'.which
    ensures EncField(f, m, s) == EncField(f, m', s)
  {}

  /** To the older schema, the newer message decodes as its older part does, from any state of the decoder. */
  lemma {:induction false} NewerLoop(
    newer: seq<Field>, older: seq<Field>, at: seq<nat>, m: Msg, part: Msg, i: nat, j: nat, p: Progress)
    requires ValidFields(newer) && ValidFields(older) && Extends(newer, older, at)
    requires TypedMsg(newer, m) && IsPart(m, at, part) && TypedMsg(older, part) && TypedMsg(older, p.msg)
    requires i <= |newer| && Reached(at, i, j)
    requires EncFrom(newer, m, i).ok && |EncFrom(newer, m, i).out| < TWO_TO_32
    ensures DecLoop(older, EncFrom(newer, m, i).out, p) == DecLoop(older, EncFrom(older, part, j).out, p)
    decreases |newer| - i
  {
    if i < |newer| {
      ReachedNext(at, i, j);
      var next := NewerStep(newer, older, at, m, part, i, j, p);
      if next.Some? { NewerLoop(newer, older, at, m, part, i + 1, Passed(at, i, j), next.value); }
    }
  }

  lemma NewerStep(
    newer: seq<Field>, older: seq<Field>, at: seq<nat>, m: Msg, part: Msg, i: nat, j: nat, p: Progress)
    returns (next: Option<Progress>)
    requires ValidFields(newer) && ValidFields(older) && Extends(newer, older, at)
    requires TypedMsg(newer, m) && IsPart(m, at, part) && TypedMsg(older, part) && TypedMsg(older, p.msg)
    requires i < |newer| && Reached(at, i, j)
    requires EncFrom(newer, m, i).ok && |EncFrom(newer, m, i).out| < TWO_TO_32
    ensures EncFrom(newer, m, i + 1).ok && |EncFrom(newer, m, i + 1).out| < TWO_TO_32
    ensures var s, s' := EncFrom(newer, m, i).out, EncFrom(newer, m, i + 1).out;
            var t, t' := EncFrom(older, part, j).out, EncFrom(older, part, Passed(at, i, j)).out;
            if next.None? then DecLoop(older, s, p) == DecLoop(older, t, p)
            else && TypedMsg(older, next.value.msg)
                 && DecLoop(older, s, p) == DecLoop(older, s', next.value)
                 && DecLoop(older, t, p) == DecLoop(older, t', next.value)
  {
    if j < |at| && at[j] == i {
      next := NewerListed(newer, older, at, m, part, i, j, p);
    } else {
      NewerUnlisted(newer, older, at, m, i, j, p);
      next := Some(p);
    }
  }

  lemma NewerUnlisted(
    newer: seq<Field>, older: seq<Field>, at: seq<nat>, m: Msg, i: nat, j: nat, p: Progress)
    requires ValidFields(newer) && ValidFields(older) && Extends(newer, older, at)
    requires TypedMsg(newer, m) && TypedMsg(older, p.msg)
    requires i < |newer| && Reached(at, i, j) && (j == |at| || at[j] != i)
    requires EncFrom(newer, m, i).ok && |EncFrom(newer, m, i).out| < TWO_TO_32
    ensures EncFrom(newer, m, i + 1).ok && |EncFrom(newer, m, i + 1).out| < TWO_TO_32
    ensures DecLoop(older, EncFrom(newer, m, i).out, p) == DecLoop(older, EncFrom(newer, m, i + 1).out, p)
  {
    Unlisted(newer, older, at, i, j);
    assert ValidField(newer[i]) && TypedSlot(newer[i], m.slots[i]);
    UnlistedField(older, newer[i], m, m.slots[i], EncFrom(newer, m, i + 1).out, p);
  }

  lemma NewerListed(
    newer: seq<Field>, older: seq<Field>, at: seq<nat>, m: Msg, part: Msg, i: nat, j: nat, p: Progress)
    returns (next: Option<Progress>)
    requires ValidFields(newer) && ValidFields(older) && Extends(newer, older, at)
    requires TypedMsg(newer, m) && IsPart(m, at, part) && TypedMsg(older, part) && TypedMsg(older, p.msg)
    requires i < |newer| && j < |at| && at[j] == i
    requires EncFrom(newer, m, i).ok && |EncFrom(newer, m, i).out| < TWO_TO_32
    ensures EncFrom(newer, m, i + 1).ok && |EncFrom(newer, m, i + 1).out| < TWO_TO_32
    ensures var s, s' := EncFrom(newer, m, i).out, EncFrom(newer, m, i + 1).out;
            var t, t' := EncFrom(older, part, j).out, EncFrom(older, part, j + 1).out;
            if next.None? then DecLoop(older, s, p) == DecLoop(older, t, p)
            else && TypedMsg(older, next.value.msg)
                 && DecLoop(older, s, p) == DecLoop(older, s', next.value)
                 && DecLoop(older, t, p) == DecLoop(older, t', next.value)
  {
    OlderReached(at, j);
    OlderWritten(newer, older, at, m, part, i, j);
    SameField(newer[i], m, part, m.slots[i]);
    FirstField(newer, m, i);
    FirstField(older, part, j);
    next := ListedField(older, part, j, EncFrom(newer, m, i + 1).out, EncFrom(older, part, j + 1).out, p);
  }

  lemma OlderReached(at: seq<nat>, j: nat)
    requires j < |at| && Increasing(at)
    ensures Reached(at, at[j], j)
  {}

  lemma FirstField(fields: seq<Field>, m: Msg, i: nat)
    requires TypedMsg(fields, m) && i < |fields| && EncFrom(fields, m, i).ok
    ensures EncField(fields[i], m, m.slots[i]).ok && EncFrom(fields, m, i + 1).ok
    ensures EncFrom(fields, m, i).out == EncField(fields[i], m, m.slots[i]).out + EncFrom(fields, m, i + 1).out
  {}

  /** A field that is listed is decoded in the same way whatever follows it. */
  lemma ListedField(fields: seq<Field>, m: Msg, i: nat, s: seq<byte>, t: seq<byte>, p: Progress)
    returns (next: Option<Progress>)
    requires ValidFields(fields) && TypedMsg(fields, m) && TypedMsg(fields, p.msg) && i < |fields|
    requires EncField(fields[i], m, m.slots[i]).ok && |EncField(fields[i], m, m.slots[i]).out| < TWO_TO_32
    ensures var e := EncField(fields[i], m, m.slots[i]).out;
            match next
            case None => DecLoop(fields, e + s, p) == DecLoop(fields, e + t, p)
            case Some(p') =>
              && TypedMsg(fields, p'.msg)
              && DecLoop(fields, e + s, p) == DecLoop(fields, s, p')
              && DecLoop(fields, e + t, p) == DecLoop(fields, t, p')
  {
    var e := EncField(fields[i], m, m.slots[i]).out;
    FieldMerges(fields, m, i, p, s);
    FieldMerges(fields, m, i, p, t);
    next := Records(fields, e, p);
    if next.Some? {
      DecLoopAppend(fields, e, s, p);
      DecLoopAppend(fields, e, t, p);
    }
  }

  /**
   A message of a newer schema, read with an older one: it is refused exactly if one of the strings that
   the older schema knows is unterminated; otherwise all that the older schema knows is restored, and the
   other fields are passed over.
   */
  lemma NewerMessageRead(newer: seq<Field>, older: seq<Field>, at: seq<nat>, m: Msg, part: Msg, dest: Msg)
    requires ValidFields(newer) && Extends(newer, older, at)
    requires TypedMsg(newer, m) && IsPart(m, at, part) && TypedMsg(older, dest)
    requires EncMsg(newer, m).ok && |EncMsg(newer, m).out| < TWO_TO_32
    ensures ValidFields(older) && TypedMsg(older, part)
    ensures var r := Decode(older, EncMsg(newer, m).out, dest);
            && (r.Done? <==> TerminatedMsg(older, part))
            && (r.Done? ==> r.rest == [] && SameMsg(older, part, r.val))
  {
    OlderValid(newer, older, at);
    OlderTyped(newer, older, at, m, part);
    OlderWritten(newer, older, at, m, part, 0, 0);
    EncMsgOk(older, part);
    NewerLoop(newer, older, at, m, part, 0, 0, Progress(SetDefaults(older, dest, 0), {}));
    RoundTripExactly(older, part, dest);
  }

  /** Fields that are absent leave no trace: the message is written as by a schema without them. */
  lemma {:induction false} AbsentFieldsUntraced(
    newer: seq<Field>, older: seq<Field>, at: seq<nat>, m: Msg, part: Msg, i: nat, j: nat)
    requires Extends(newer, older, at) && TypedMsg(newer, m) && IsPart(m, at, part) && TypedMsg(older, part)
    requires i <= |newer| && Reached(at, i, j)
    requires forall k :: 0 <= k < |newer| && k !in at ==> EncField(newer[k], m, m.slots[k]) == NOTHING
    ensures EncFrom(newer, m, i) == EncFrom(older, part, j)
    decreases |newer| - i
  {
    if i < |newer| {
      ReachedNext(at, i, j);
      AbsentFieldsUntraced(newer, older, at, m, part, i + 1, Passed(at, i, j));
      if j < |at| && at[j] == i {
        SameFirst(newer, older, m, part, i, j);
      } else {
        NotReached(at, i, j);
        AbsentFirst(newer, m, i);
      }
    }
  }

  lemma SameFirst(newer: seq<Field>, older: seq<Field>, m: Msg, m': Msg, i: nat, j: nat)
    requires TypedMsg(newer, m) && TypedMsg(older, m') && i < |newer| && j < |older| && newer[i] == older[j]
    requires m.which == m'.which && m.slots[i] == m'.slots[j]
    requires EncFrom(newer, m, i + 1) == EncFrom(older, m', j + 1)
    ensures EncFrom(newer, m, i) == EncFrom(older, m', j)
  {
    SameField(newer[i], m, m', m.slots[i]);
  }

  lemma AbsentFirst(fields: seq<Field>, m: Msg, i: nat)
    requires TypedMsg(fields, m) && i < |fields| && EncField(fields[i], m, m.slots[i]) == NOTHING
    ensures EncFrom(fields, m, i) == EncFrom(fields, m, i + 1)
  {
    ThenNothing(EncFrom(fields, m, i + 1));
  }

  /**
   A message of an older schema, read with a newer one: it arrives like the message of the newer schema in
   which the fields that were added are absent.
   */
  lemma OlderMessageRead(newer: seq<Field>, older: seq<Field>, at: seq<nat>, m: Msg, part: Msg, dest: Msg)
    requires ValidFields(newer) && Extends(newer, older, at)
    requires TypedMsg(newer, m) && IsPart(m, at, part) && TypedMsg(older, part) && TypedMsg(newer, dest)
    requires forall k :: 0 <= k < |newer| && k !in at ==> EncField(newer[k], m, m.slots[k]) == NOTHING
    requires EncMsg(older, part).ok && |EncMsg(older, part).out| < TWO_TO_32
    ensures var r := Decode(newer, EncMsg(older, part).out, dest);
            && (r.Done? <==> TerminatedMsg(newer, m))
            && (r.Done? ==> r.rest == [] && SameMsg(newer, m, r.val))
  {
    AbsentFieldsUntraced(newer, older, at, m, part, 0, 0);
    EncMsgOk(newer, m);
    RoundTripExactly(newer, m, dest);
  }
}

/** The round trip of whole messages. One with an unterminated string is written, but not read back. */
module Unterminated {
  import opened Bits
  import opened Wire
  import opened Schema
  import opened EncodeSpec
  import opened DecodeSpec
  import opened RoundTrip
  import opened Overlay

  /**
   The round trip of the library: pb_decode succeeds on what pb_encode wrote exactly if every string
   that was written is terminated inside its buffer. Then it consumes all of the bytes and restores
   the message, whatever the destination struct held before.
   */
  lemma RoundTripExactly(fields: seq<Field>, m: Msg, dest: Msg)
    requires ValidFields(fields) && TypedMsg(fields, m) && TypedMsg(fields, dest)
    requires EncodableMsg(fields, m) && |EncMsg(fields, m).out| < TWO_TO_32
    ensures var r := Decode(fields, EncMsg(fields, m).out, dest);
            && (r.Done? <==> TerminatedMsg(fields, m))
            && (r.Done? ==> r.rest == [] && SameMsg(fields, m, r.val))
  {
    EncMsgOk(fields, m);
    SetDefaultsClears(fields, dest);
    ClearedMerges(fields, m, SetDefaults(fields, dest, 0));
  }

  /** A string field of two bytes. */
  function ExampleField(): Field {
    Field(1, LString, Required, 2, 0, 0, Text([65, 0]), [])
  }

  /** Both bytes are characters, so that there is no room for a terminator. */
  function ExampleMsg(): Msg {
    Msg([Slot(0, [Text([65, 66])])], map[])
  }

  lemma ExampleFits()
    ensures ValidFields([ExampleField()]) && TypedMsg([ExampleField()], ExampleMsg())
  {
    var f := ExampleField();
    assert ValidFields(f.sub) && TypedValue(f, f.init) && ValidField(f);
    assert TypedSlot(f, ExampleMsg().slots[0]);
  }

  lemma ExampleLength()
    requires TypedMsg([ExampleField()], ExampleMsg())
    ensures |EncMsg([ExampleField()], ExampleMsg()).out| < TWO_TO_32
  {
    var f := ExampleField();
    assert EncFrom([f], ExampleMsg(), 0) == Then(EncRecord(f, Text([65, 66])), NOTHING);
    CStringEnds([65, 66]);
    EncVarintFits(8 * 1 + WT_STRING);
    EncVarintFits(|CString([65, 66])|);
  }

  /** The message is written, but what was written is not read back. */
  lemma UnterminatedExample()
    ensures var fields, m := [ExampleField()], ExampleMsg();
            && ValidFields(fields) && TypedMsg(fields, m)
            && EncodableMsg(fields, m) && !TerminatedMsg(fields, m)
            && Decode(fields, EncMsg(fields, m).out, m) == Fail
  {
    var fields, m := [ExampleField()], ExampleMsg();
    ExampleFits();
    ExampleLength();
    assert !TerminatedField(fields[0], m, m.slots[0]);
    RoundTripExactly(fields, m, m);
  }
}

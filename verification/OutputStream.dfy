/** pb_ostream_t: a stream that writes into a caller's buffer, or that only counts. */
module OutputStream {
  import opened Basics
  import opened EncodeSpec

  /** What a stream has done so far. */
  datatype StreamState = StreamState(sizing: bool, maxSize: nat, written: nat, out: seq<byte>)

  class OStream {
    /** null for a sizing stream, which has no callback. */
    const buf: array?<byte>
    /** Where in the buffer the next byte goes (the stream's state pointer). */
    var pos: nat
    const maxSize: nat
    var written: nat

    /** What the stream may still write lies inside the buffer. */
    ghost predicate Valid()
      reads this
    {
      buf != null ==> written <= maxSize && pos + (maxSize - written) <= buf.Length
    }

    ghost function State(): StreamState
      requires Valid()
      reads this, buf
    {
      StreamState(buf == null, maxSize, written, if buf == null then [] else buf[..pos])
    }

    constructor Sizing()
      ensures Valid() && State() == StreamState(true, 0, 0, []) && buf == null
    {
      buf, pos, maxSize, written := null, 0, 0, 0;
    }

    /** A stream that writes at most size bytes from position start on. */
    constructor FromBuffer(buf: array<byte>, start: nat, size: nat)
      requires start + size <= buf.Length
      ensures Valid() && State() == StreamState(false, size, 0, buf[..start])
      ensures this.buf == buf && pos == start
    {
      this.buf, pos, maxSize, written := buf, start, size, 0;
    }

    /** pb_write; data may be omitted when the stream only counts. */
    method Write(data: seq<byte>, count: nat) returns (ok: bool)
      requires Valid() && (buf != null ==> |data| == count)
      modifies this, buf
      ensures Valid()
      ensures ok <==> buf == null || old(written) + count <= maxSize
      ensures State() == old(State()).(
                written := old(written) + (if ok then count else 0),
                out := old(State()).out + (if ok && buf != null then data else []))
      ensures |data| == count ==> Emitted(old(State()), Enc(true, data), ok, State())
    {
      if count > 0 && buf != null {
        if written + count > maxSize { return false; }
        WriteBuffer(data);
      }
      written := written + count;
      return true;
    }

    /** buf_write */
    method WriteBuffer(data: seq<byte>)
      requires buf != null && pos + |data| <= buf.Length
      modifies this`pos, buf
      ensures pos == old(pos) + |data|
      ensures buf[..pos] == old(buf[..pos]) + data
    {
      var dest := pos;
      pos := pos + |data|;
      for i := 0 to |data|
        invariant pos == dest + |data| && buf[..dest + i] == old(buf[..pos]) + data[..i]
      {
        buf[dest + i] := data[i];
        assert buf[..dest + i + 1] == buf[..dest + i] + [data[i]];
      }
      assert data[..|data|] == data;
    }
  }

  //////////////////////////////////////////////////////////////////////////////
  // What an encoder does to a stream
  //////////////////////////////////////////////////////////////////////////////

  ghost predicate Fits(a: StreamState, e: Enc) {
    a.sizing || a.written + |e.out| <= a.maxSize
  }

  /**
   An encoder with outcome e took the stream from a to b. It succeeds if and only if e does and its
   output fits. A sizing stream counts the output; a buffer holds all of it, or after a failure part.
   */
  ghost predicate Emitted(a: StreamState, e: Enc, ok: bool, b: StreamState) {
    && b.sizing == a.sizing && b.maxSize == a.maxSize
    && (ok <==> e.ok && Fits(a, e))
    && (a.sizing ==> b.out == a.out && b.written == a.written + |e.out|)
    && (!a.sizing ==> a.out <= b.out <= a.out + e.out && b.written - a.written == |b.out| - |a.out|)
    && (ok && !a.sizing ==> b.out == a.out + e.out)
  }

  lemma EmittedThen(a: StreamState, e: Enc, b: StreamState, e': Enc, ok: bool, c: StreamState)
    requires Emitted(a, e, true, b) && Emitted(b, e', ok, c)
    ensures Emitted(a, Then(e, e'), ok, c)
  {
    assert a.out + e.out + e'.out == a.out + (e.out + e'.out);
  }

  /** An encoder that fails ends the sequence it is part of. */
  lemma EmittedFailure(a: StreamState, e: Enc, b: StreamState, e': Enc)
    requires Emitted(a, e, false, b)
    ensures Emitted(a, Then(e, e'), false, b)
  {
    assert a.out + e.out + e'.out == a.out + (e.out + e'.out);
  }

}

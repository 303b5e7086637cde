/** pb_ostream_t over a memory buffer, and the sizing stream (pb_encode.c:74-124). */
module OStream {
  import opened Wrappers
  import opened Varint

  /** A stream's contents at one moment. */
  datatype Snap = Snap(sizing: bool, maxSize: nat, state: nat, written: nat, buf: seq<byte>) {
    /** size_t counters; a writing stream's unused room lies inside its buffer. */
    ghost predicate Valid() {
      && written < U64 && maxSize < U64
      && (!sizing ==> written <= maxSize && state + (maxSize - written) <= |buf|)
    }

    ghost predicate Fits(n: nat) { sizing || written + n <= maxSize }
  }

  /** What an encoding function may do to a stream.  It succeeds exactly when the value is `good`
      and its bytes fit; then it has appended exactly those bytes and touched nothing else.  When
      it fails it has still written only inside the stream's room. */
  ghost predicate Emitted(a: Snap, b: Snap, ok: bool, good: bool, bytes: seq<byte>) {
    && a.Valid() && b.Valid()
    && b.sizing == a.sizing && b.maxSize == a.maxSize && |b.buf| == |a.buf|
    && (ok <==> good && a.Fits(|bytes|))
    && (ok ==> b.written == a.written + |bytes|)
    && (!a.sizing ==>
      && a.written <= b.written && b.state - a.state == b.written - a.written
      && (ok ==> b.buf[a.state..b.state] == bytes)
      && var end := if ok then b.state else a.state + a.maxSize - a.written;
         forall k :: 0 <= k < |a.buf| && !(a.state <= k < end) ==> b.buf[k] == a.buf[k])
  }

  lemma {:induction false} EmittedState(a: Snap, b: Snap, ok: bool, good: bool, bytes: seq<byte>)
    requires Emitted(a, b, ok, good, bytes)
    ensures a.Valid() && b.Valid() && b.sizing == a.sizing && b.maxSize == a.maxSize
    ensures ok ==> good && b.written == a.written + |bytes|
  {
  }

  /** In places: success is when the value is good and, on a writing stream, the bytes fit its limit; then
      they stand where the stream was, before and behind them the buffer is as it was, and the counters
      have moved by their number.  After a failure the buffer is as it was outside the room there was. */
  lemma {:induction false} EmittedMeans(a: Snap, b: Snap, ok: bool, good: bool, bytes: seq<byte>)
    requires Emitted(a, b, ok, good, bytes)
    ensures ok <==> good && (a.sizing || a.written + |bytes| <= a.maxSize)
    ensures b.sizing == a.sizing && b.maxSize == a.maxSize && |b.buf| == |a.buf|
    ensures ok ==> b.written == a.written + |bytes|
    ensures ok && !a.sizing ==> b.state == a.state + |bytes| <= |a.buf|
                                && b.buf == a.buf[..a.state] + bytes + a.buf[a.state + |bytes|..]
    ensures !ok && !a.sizing ==> var end := a.state + (a.maxSize - a.written);
                                 && a.state <= end <= |a.buf|
                                 && b.buf[..a.state] == a.buf[..a.state] && b.buf[end..] == a.buf[end..]
  {
    if ok && !a.sizing { assert b.buf == b.buf[..a.state] + b.buf[a.state..b.state] + b.buf[b.state..]; }
  }

  /** Nothing done. */
  lemma {:induction false} EmittedNothing(a: Snap)
    requires a.Valid()
    ensures Emitted(a, a, true, true, [])
  {
  }

  /** Refused before anything was written. */
  lemma {:induction false} EmittedRefused(a: Snap, bytes: seq<byte>)
    requires a.Valid()
    ensures Emitted(a, a, false, false, bytes)
  {
  }

  /** A sizing stream fails only on a bad value, and counts exactly the bytes. */
  lemma {:induction false} SizingSucceeds(a: Snap, b: Snap, ok: bool, good: bool, bytes: seq<byte>)
    requires Emitted(a, b, ok, good, bytes) && a.sizing
    ensures ok == good
    ensures ok ==> b.written == a.written + |bytes|
  {
  }

  /** What Count does on a sizing stream stands for writing that many bytes. */
  lemma {:induction false} EmittedCount(a: Snap, bytes: seq<byte>, good: bool)
    requires a.Valid() && a.sizing && good && a.written + |bytes| < U64
    ensures Emitted(a, a.(written := a.written + |bytes|), true, good, bytes)
  {
  }

  lemma {:induction false} EmittedFull(a: Snap, bytes: seq<byte>)
    requires a.Valid() && !a.Fits(|bytes|)
    ensures Emitted(a, a, false, true, bytes)
  {
  }

  /** A substream exactly as long as its contents is filled. */
  lemma {:induction false} SubstreamFilled(a: Snap, b: Snap, ok: bool, bytes: seq<byte>)
    requires Emitted(a, b, ok, true, bytes) && !a.sizing && a.written == 0 && a.maxSize == |bytes|
    ensures ok && b.written == |bytes| && b.state == a.state + |bytes|
  {
  }

  /** What was emitted into a substream, seen from the stream it was cut from. */
  lemma {:induction false} EmittedInside(a: Snap, sub: Snap, subEnd: Snap, b: Snap, bytes: seq<byte>)
    requires a.Valid() && !a.sizing && a.Fits(|bytes|)
    requires sub == Snap(false, |bytes|, a.state, 0, a.buf)
    requires Emitted(sub, subEnd, true, true, bytes)
    requires b == a.(state := subEnd.state, written := a.written + subEnd.written, buf := subEnd.buf)
    ensures Emitted(a, b, true, true, bytes)
  {
  }

  /** One emission after a successful other. */
  lemma {:induction false} EmittedThen(a: Snap, b: Snap, c: Snap, x: seq<byte>, ok: bool, good: bool, y: seq<byte>)
    requires Emitted(a, b, true, true, x) && Emitted(b, c, ok, good, y)
    ensures Emitted(a, c, ok, good, x + y)
  {
    if !a.sizing {
      assert c.buf[a.state..b.state] == b.buf[a.state..b.state];
      if ok { assert c.buf[a.state..c.state] == c.buf[a.state..b.state] + c.buf[b.state..c.state]; }
    }
  }

  /** A failure ends the whole emission. */
  lemma {:induction false} EmittedFailure(a: Snap, b: Snap, good: bool, x: seq<byte>, all: bool, y: seq<byte>)
    requires Emitted(a, b, false, good, x)
    requires all ==> good
    ensures Emitted(a, b, false, all, x + y)
  {
  }

  class Stream {
    const buf: array<byte>
    const sizing: bool
    const maxSize: nat
    var state: nat
    var bytesWritten: nat

    ghost function Now(): Snap
      reads this, buf
    {
      Snap(sizing, maxSize, state, bytesWritten, buf[..])
    }

    /** PB_OSTREAM_SIZING */
    constructor Sizing()
      ensures Now().Valid() && sizing && bytesWritten == 0
      ensures fresh(buf)
    {
      buf := new byte[0];
      sizing, maxSize, state, bytesWritten := true, 0, 0, 0;
    }

    /** pb_ostream_from_buffer, and the substream of pb_encode_submessage. */
    constructor OnBuffer(buf: array<byte>, state: nat, maxSize: nat)
      requires maxSize < U64 && state + maxSize <= buf.Length
      ensures Now() == Snap(false, maxSize, state, 0, buf[..]) && Now().Valid()
      ensures this.buf == buf
    {
      this.buf, this.state, this.maxSize := buf, state, maxSize;
      sizing, bytesWritten := false, 0;
    }

    /** buf_write */
    method BufWrite(bytes: seq<byte>)
      requires state + |bytes| <= buf.Length
      modifies this`state, buf
      ensures state == old(state) + |bytes| && buf[old(state)..state] == bytes
      ensures forall k :: 0 <= k < buf.Length && !(old(state) <= k < state) ==> buf[k] == old(buf[k])
    {
      var dest := state;
      state := dest + |bytes|;
      for i := 0 to |bytes|
        invariant state == dest + |bytes|
        invariant forall k :: dest <= k < dest + i ==> buf[k] == bytes[k - dest]
        invariant forall k :: 0 <= k < buf.Length && !(dest <= k < dest + i) ==> buf[k] == old(buf[k])
      {
        buf[dest + i] := bytes[i];
      }
    }

    /** pb_write, with buf_write as the stream's callback. */
    method Write(bytes: seq<byte>) returns (ok: bool)
      requires Now().Valid() && bytesWritten + |bytes| < U64
      modifies this, buf
      ensures Emitted(old(Now()), Now(), ok, true, bytes)
    {
      var count := |bytes|;
      if count > 0 && !sizing {
        if (bytesWritten + count) % U64 < bytesWritten || (bytesWritten + count) % U64 > maxSize {
          return false;
        }
        BufWrite(bytes);
      }
      bytesWritten := (bytesWritten + count) % U64;
      return true;
    }

    /** pb_write(stream, NULL, count) on a sizing stream. */
    method Count(count: nat)
      requires Now().Valid() && sizing && bytesWritten + count < U64
      modifies this
      ensures Now() == old(Now()).(written := old(bytesWritten) + count) && Now().Valid()
    {
      bytesWritten := (bytesWritten + count) % U64;
    }
  }
}

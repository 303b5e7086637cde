/** pb_istream_t over a memory buffer, with the varint readers and the substreams
    (pb_decode.c:87-400). */
module IStream {
  import opened Wrappers
  import opened Bits
  import opened Varint
  import opened DecodeSpec

  class Stream {
    const source: seq<byte>
    var state: nat
    var bytesLeft: nat

    ghost predicate Valid()
      reads this
    {
      state + bytesLeft <= |source|
    }

    /** What the stream still has to give. */
    ghost function Rest(): seq<byte>
      requires Valid()
      reads this
    {
      source[state..state + bytesLeft]
    }

    /** A decoder that succeeds has moved the position up and bytes_left down by what it consumed:
        their sum is conserved. */
    twostate predicate Consumed(rest: seq<byte>)
      requires old(Valid())
      reads this
    {
      && Valid() && Rest() == rest
      && state + bytesLeft == old(state + bytesLeft)
    }

    /** Whatever happens, a decoder stays inside its stream. */
    twostate predicate Inside()
      reads this
    {
      Valid() && state + bytesLeft <= old(state + bytesLeft)
    }

    /** pb_istream_from_buffer */
    constructor FromBuffer(source: seq<byte>)
      ensures Valid() && this.source == source && Rest() == source
    {
      this.source := source;
      state, bytesLeft := 0, |source|;
    }

    constructor Substream(source: seq<byte>, state: nat, bytesLeft: nat)
      requires state + bytesLeft <= |source|
      ensures Valid() && this.source == source && this.state == state && this.bytesLeft == bytesLeft
    {
      this.source, this.state, this.bytesLeft := source, state, bytesLeft;
    }

    /** pb_read, with buf_read as the stream's callback. */
    method Read(count: nat) returns (ok: bool, data: seq<byte>)
      requires Valid()
      modifies this
      ensures Inside()
      ensures ok <==> ReadBytes(old(Rest()), count).Got?
      ensures ok ==> data == ReadBytes(old(Rest()), count).value && Consumed(ReadBytes(old(Rest()), count).rest)
    {
      if count == 0 { return true, []; }
      if bytesLeft < count { return false, []; }
      data := source[state..state + count];
      state := state + count;
      bytesLeft := bytesLeft - count;
      ok := true;
    }

    /** pb_readbyte */
    method ReadByte() returns (ok: bool, b: byte)
      requires Valid()
      modifies this
      ensures Inside()
      ensures ok <==> old(Rest()) != []
      ensures ok ==> b == old(Rest())[0] && Consumed(old(Rest())[1..])
      ensures !ok ==> unchanged(this)
    {
      if bytesLeft == 0 { return false, 0; }
      b := source[state];
      state := state + 1;
      bytesLeft := bytesLeft - 1;
      ok := true;
    }

    /** pb_decode_varint */
    method DecodeVarint() returns (ok: bool, value: nat)
      requires Valid()
      modifies this
      ensures Inside()
      ensures ok <==> DecVarint(old(Rest())).Got?
      ensures ok ==> value == DecVarint(old(Rest())).value && Consumed(DecVarint(old(Rest())).rest)
    {
      hide BitOr, Shl;
      ghost var s := Rest();
      var bitpos: nat := 0;
      value := 0;
      while true
        invariant Valid() && state + bytesLeft == old(state + bytesLeft)
        invariant DecVarintFrom(Rest(), bitpos, value) == DecVarint(s)
        decreases bytesLeft
      {
        if bitpos >= 64 { return false, 0; }
        var more, b := ReadByte();
        if !more { return false, 0; }
        value := BitOr(value, Shl(b % 128, bitpos) % U64);
        bitpos := (bitpos + 7) % 256;
        if b < 128 { return true, value; }
      }
    }

    /** pb_decode_varint32_eof: `eof` tells an empty stream from a truncated varint. */
    method DecodeVarint32() returns (ok: bool, value: nat, eof: bool)
      requires Valid()
      modifies this
      ensures Inside()
      ensures ok <==> DecVarint32(old(Rest())).Got?
      ensures ok ==> value == DecVarint32(old(Rest())).value && Consumed(DecVarint32(old(Rest())).rest)
      ensures !ok ==> (eof <==> old(Rest()) == [])
    {
      hide BitOr, Shl;
      ghost var s := Rest();
      eof := false;
      var more, b := ReadByte();
      if !more {
        if bytesLeft == 0 { eof := true; }
        return false, 0, eof;
      }
      if b < 128 { return true, b, eof; }
      var bitpos: nat := 7;
      value := b % 128;
      while true
        invariant Valid() && state + bytesLeft == old(state + bytesLeft)
        invariant DecVarint32From(Rest(), bitpos, value) == DecVarint32(s)
        decreases bytesLeft
      {
        more, b := ReadByte();
        if !more { return false, 0, eof; }
        if bitpos >= 32 {
          var signExtension: byte := if bitpos < 63 then 0xFF else 0x01;
          if b % 128 != 0 && (value / 0x8000_0000 == 0 || b != signExtension) { return false, 0, eof; }
        } else {
          value := BitOr(value, Shl(b % 128, bitpos) % U32);
        }
        bitpos := (bitpos + 7) % 256;
        if b < 128 { break; }
      }
      if bitpos == 35 && b / 16 % 8 != 0 { return false, 0, eof; }
      ok := true;
    }

    /** pb_decode_tag */
    method DecodeKey() returns (ok: bool, wiretype: nat, tag: nat, eof: bool)
      requires Valid()
      modifies this
      ensures Inside()
      ensures ok <==> DecKey(old(Rest())).KeyOf?
      ensures ok ==> DecKey(old(Rest())) == KeyOf(wiretype, tag, Rest()) && Consumed(Rest())
      ensures !ok ==> (eof <==> old(Rest()) == [] || DecKey(old(Rest())).EndOfMessage?)
      ensures !ok && DecKey(old(Rest())).EndOfMessage? ==> Consumed(DecKey(old(Rest())).rest)
    {
      hide DecVarint32;
      var key;
      ok, key, eof := DecodeVarint32();
      if !ok { return false, 0, 0, eof; }
      if key == 0 { return false, 0, 0, true; }
      wiretype, tag := key % 8, key / 8;
    }

    /** pb_skip_varint */
    method SkipVarint() returns (ok: bool)
      requires Valid()
      modifies this
      ensures Inside()
      ensures ok <==> TakeVarint(old(Rest())).Got?
      ensures ok ==> Consumed(TakeVarint(old(Rest())).rest)
    {
      ghost var s := Rest();
      while true
        invariant Valid() && state + bytesLeft == old(state + bytesLeft)
        invariant TakeVarint(Rest()).Got? <==> TakeVarint(s).Got?
        invariant TakeVarint(s).Got? ==> TakeVarint(Rest()).rest == TakeVarint(s).rest
        decreases bytesLeft
      {
        var more, data := Read(1);
        if !more { return false; }
        if data[0] < 128 { return true; }
      }
    }

    /** pb_skip_string */
    method SkipString() returns (ok: bool)
      requires Valid()
      modifies this
      ensures Inside()
      ensures ok <==> DecString(old(Rest())).Got?
      ensures ok ==> Consumed(DecString(old(Rest())).rest)
    {
      hide DecVarint32;
      var length, eof, data;
      ok, length, eof := DecodeVarint32();
      if ok { ok, data := Read(length); }
    }

    /** pb_skip_field */
    method Skip(wiretype: nat) returns (ok: bool)
      requires Valid()
      modifies this
      ensures Inside()
      ensures ok <==> SkipField(wiretype, old(Rest())).Some?
      ensures ok ==> Consumed(SkipField(wiretype, old(Rest())).value)
    {
      hide TakeVarint, DecString;
      var data;
      match wiretype {
        case 0 => ok := SkipVarint();
        case 1 => ok, data := Read(8);
        case 2 => ok := SkipString();
        case 5 => ok, data := Read(4);
        case _ => ok := false;
      }
    }

    /** pb_make_string_substream */
    method MakeSubstream() returns (ok: bool, substream: Stream)
      requires Valid()
      modifies this
      ensures Inside() && fresh(substream) && substream.Valid() && substream.source == source
      ensures ok <==> DecString(old(Rest())).Got?
      ensures ok ==> substream.Rest() == DecString(old(Rest())).value && substream.bytesLeft < old(bytesLeft)
      ensures ok ==> substream.state + substream.bytesLeft + bytesLeft == old(state + bytesLeft)
      ensures ok ==> var end := substream.state + substream.bytesLeft;
                     source[end..end + bytesLeft] == DecString(old(Rest())).rest
    {
      hide DecVarint32;
      ghost var s := Rest();
      VarintShrinks(s);
      var size, eof;
      ok, size, eof := DecodeVarint32();
      substream := new Stream.Substream(source, state, bytesLeft);
      if !ok { return; }
      if substream.bytesLeft < size { return false, substream; }
      assert source[state..state + size] == Rest()[..size];
      substream.bytesLeft := size;
      bytesLeft := bytesLeft - size;
    }

    /** pb_close_string_substream: whatever the substream has left is skipped. */
    method CloseSubstream(substream: Stream) returns (ok: bool)
      requires substream != this && substream.Valid()
      requires substream.state + substream.bytesLeft + bytesLeft <= |source|
      modifies this, substream
      ensures ok && Valid()
      ensures state == old(substream.state + substream.bytesLeft) && bytesLeft == old(bytesLeft)
    {
      if substream.bytesLeft != 0 {
        var data;
        ok, data := substream.Read(substream.bytesLeft);
        if !ok { return; }
      }
      state := substream.state;
      ok := true;
    }
  }
}

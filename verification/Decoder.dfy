/** The decoder (pb_decode.c), reading from a stream. */
module Decoder {
  import opened Wrappers
  import opened Bits
  import opened Descriptor
  import opened Varint
  import opened FieldIter
  import opened EncodeSpec
  import opened DecodeSpec
  import opened RequiredBits
  import opened IStream

  /** bytes[0] << 0 | bytes[1] << 8 | ... | bytes[n - 1] << 8 * (n - 1) */
  function OrBytes(b: seq<byte>): nat {
    if b == [] then 0
    else
      var n := |b| - 1;
      BitOr(OrBytes(b[..n]), Shl(b[n], 8 * n))
  }

  lemma {:induction false} LastByte(b: seq<byte>)
    requires b != []
    ensures FromLittleEndian(b) == FromLittleEndian(b[..|b| - 1]) + Shl(b[|b| - 1], 8 * (|b| - 1))
  {
    var n := |b| - 1;
    if n > 0 {
      LastByte(b[1..]);
      assert b[1..][..n - 1] == b[..n][1..];
      ByteUp(b[n], 8 * (n - 1));
    }
  }

  lemma {:induction false} ByteUp(d: nat, k: nat)
    ensures Shl(d, k + 8) == 256 * Shl(d, k)
  {
    ShlIsTimes(d, k);
    ShlIsTimes(d, k + 8);
    Pow2Add(8, k);
    assert Pow2(8) == 256;
    assert d * (256 * Pow2(k)) == 256 * (d * Pow2(k));
  }

  lemma {:induction false} ByteAbove(x: nat, d: nat, k: nat)
    requires x < Pow2(k) && d < 256
    ensures BitOr(x, Shl(d, k)) == x + Shl(d, k) < Pow2(k + 8)
  {
    hide BitOr, Shl, Pow2;
    ShlIsTimes(d, k);
    OrDisjoint(x, d, k);
    ScaledDigit(d, x, Pow2(k), 256);
    assert Pow2(k + 8) == 256 * Pow2(k) by { ByteUp(1, k); ShlIsTimes(1, k); ShlIsTimes(1, k + 8); }
  }

  /** Or-ing the shifted bytes gives the little-endian number. */
  lemma {:induction false} OrBytesMeans(b: seq<byte>)
    ensures OrBytes(b) == FromLittleEndian(b) < Pow2(8 * |b|)
  {
    hide BitOr, Shl;
    if b != [] {
      var n := |b| - 1;
      OrBytesMeans(b[..n]);
      LastByte(b);
      ByteAbove(OrBytes(b[..n]), b[n], 8 * n);
    }
  }

  /** The value a number has after a cast to an n-byte integer. */
  function Cast(v: int, signed: bool, n: nat): int {
    var h := HalfRange(n);
    if signed then (v + h) % (2 * h) - h else v % (2 * h)
  }

  /** A cast keeps a number exactly when the type holds it. */
  lemma {:induction false} CastKeeps(v: int, n: nat)
    requires IntegerSize(n)
    ensures Cast(v, true, n) == v <==> -HalfRange(n) <= v < HalfRange(n)
    ensures Cast(v, false, n) == v <==> 0 <= v < 2 * HalfRange(n)
  {
  }

  /** The checked store of pb_dec_varint, pb_dec_uvarint and pb_dec_svarint. */
  method Clamp(v: int, signed: bool, dataSize: nat) returns (ok: bool)
    ensures ok <==> Clamped(v, signed, dataSize, []).Got?
  {
    if !IntegerSize(dataSize) { return false; }
    var clamped := Cast(v, signed, dataSize);
    CastKeeps(v, dataSize);
    ok := clamped == v;
  }

  /** pb_dec_bool, pb_dec_varint, pb_dec_uvarint, pb_dec_svarint, pb_dec_fixed32, pb_dec_fixed64,
      pb_dec_bytes, pb_dec_string and pb_dec_fixed_length_bytes */
  method DecodeScalar(s: Stream, f: Field) returns (ok: bool, value: Value)
    requires s.Valid() && f.ltype != Submessage && f.ltype != Extension
    modifies s
    ensures s.Inside()
    ensures ok <==> DecScalar(f, old(s.Rest())).Got?
    ensures ok ==> value == DecScalar(f, old(s.Rest())).value && s.Consumed(DecScalar(f, old(s.Rest())).rest)
  {
    hide DecVarint, DecVarint32, OrBytes, FromLittleEndian, FromZigZag, ToI64, ToI32, IntegerSize, HalfRange, Zeros;
    value := Num(0);
    match f.ltype {
      case Bool =>
        var v, eof;
        ok, v, eof := s.DecodeVarint32();
        value := Num(if v != 0 then 1 else 0);
      case Varint =>
        var v;
        ok, v := s.DecodeVarint();
        if !ok { return; }
        var svalue := if f.dataSize == 8 then ToI64(v) else ToI32(v);
        ok := Clamp(svalue, true, f.dataSize);
        value := Num(svalue);
      case UVarint =>
        var v;
        ok, v := s.DecodeVarint();
        if !ok { return; }
        ok := Clamp(v, false, f.dataSize);
        value := Num(v);
      case SVarint =>
        var v;
        ok, v := s.DecodeVarint();
        if !ok { return; }
        var svalue := FromZigZag(v);
        ok := Clamp(svalue, true, f.dataSize);
        value := Num(svalue);
      case Fixed32 =>
        var data;
        ok, data := s.Read(4);
        OrBytesMeans(data);
        value := Num(OrBytes(data));
      case Fixed64 =>
        var data;
        ok, data := s.Read(8);
        OrBytesMeans(data);
        value := Num(OrBytes(data));
      case Bytes =>
        var size, eof, data;
        ok, size, eof := s.DecodeVarint32();
        if !ok { return; }
        if size > PB_SIZE_MAX || size + BYTES_HEADER > f.dataSize { return false, value; }
        ok, data := s.Read(size);
        value := Blob(data);
      case String =>
        var size, eof, data;
        ok, size, eof := s.DecodeVarint32();
        if !ok { return; }
        var allocSize := (size + 1) % U32;
        SizeFits(old(s.Rest()));
        if allocSize < size || allocSize > f.dataSize { return false, value; }
        ok, data := s.Read(size);
        value := Blob(data);
      case FixedLengthBytes =>
        var size, eof, data;
        ok, size, eof := s.DecodeVarint32();
        if !ok { return; }
        if size == 0 { return true, Blob(Zeros(f.dataSize)); }
        if size > PB_SIZE_MAX || size != f.dataSize { return false, value; }
        ok, data := s.Read(size);
        value := Blob(data);
    }
  }

  lemma {:induction false} SizeFits(s: seq<byte>)
    requires DecVarint32(s).Got?
    ensures DecVarint32(s).value < U32
  {
    DecVarint32Meaning(s);
  }

  // ---------- Messages ----------

  /** pb_field_set_to_default, on row i of a structure that held `was`. */
  method FieldToDefault(fields: seq<Field>, i: nat, was: Msg) returns (slot: Slot)
    requires i < |fields| && StaticRow(fields[i])
    ensures slot == DefaultSlot(fields, was, i)
    decreases fields, 0
  {
    hide StaticTable, WipedEntries, ZeroVal;
    var f := fields[i];
    slot := if i < |was| then was[i] else Shared;
    if f.htype == Repeated {
      var entries := EntriesOf(slot);
      slot := Many(0, if f.sizeOffset != 0 then entries else WipedEntries(f, entries, SIZEOF_PB_SIZE));
    } else if f.htype == Oneof {
      slot := if JoinsUnion(fields, i) then Shared else Pick(0, ValueOf(slot));
    } else {
      var v := ValueOf(slot);
      if f.ltype == Submessage {
        var sub := [];
        assert fields decreases to f;
        if f.ptr.SubFields? {
          SubTableIsStatic(f);
          sub := SetToDefaults(f.ptr.fields, if v.Sub? then v.msg else []);
        }
        v := Sub(sub);
      } else if f.ptr.DefaultValue? {
        v := f.ptr.value;
      } else {
        v := ZeroVal(f);
      }
      slot := if f.htype == Optional && f.sizeOffset != 0 then Opt(false, v) else One(v);
    }
  }

  /** pb_message_set_to_defaults, on a structure that held `was`. */
  method SetToDefaults(fields: seq<Field>, was: Msg) returns (m: Msg)
    requires StaticTable(fields)
    ensures m == Defaults(fields, was)
    decreases fields, 1
  {
    hide StaticTable, StaticRow, DefaultSlot;
    m := [];
    TableIsTagged(fields);
    var iter := new Iter(fields);
    if fields == [] {
      assert Defaults(fields, was) == [];
      return;
    }
    while true
      invariant fresh(iter) && iter.Valid() && iter.fields == fields
      invariant |m| == iter.pos && forall k :: 0 <= k < |m| ==> m[k] == DefaultSlot(fields, was, k)
      decreases |fields| - iter.pos
    {
      RowIsStatic(fields, iter.pos);
      var slot := FieldToDefault(fields, iter.pos, was);
      m := m + [slot];
      var more := iter.Next();
      if !more { break; }
    }
    forall k | 0 <= k < |fields| ensures m[k] == Defaults(fields, was)[k] { DefaultAt(fields, was, k); }
  }

  lemma {:induction false} DefaultAt(fields: seq<Field>, was: Msg, k: nat)
    requires k < |fields|
    ensures Defaults(fields, was)[k] == DefaultSlot(fields, was, k)
  {
    hide DefaultSlot;
  }

  /** Array entries are set to defaults before they are decoded. */
  function Onto(f: Field, dest: Value): Value { if f.htype == Repeated then DefaultVal(f, dest) else dest }

  /** One decoding function of PB_DECODERS.  A submessage is decoded onto what `dest` holds, from a
      substream of its length. */
  method DecodeValue(s: Stream, f: Field, dest: Value) returns (ok: bool, value: Value)
    requires s.Valid() && StaticRow(f)
    modifies s
    ensures s.Inside()
    ensures ok <==> DecVal(f, Onto(f, dest), old(s.Rest())).Got?
    ensures ok ==> value == DecVal(f, Onto(f, dest), old(s.Rest())).value
                   && s.Consumed(DecVal(f, Onto(f, dest), old(s.Rest())).rest)
    decreases s.bytesLeft, 1
  {
    hide DecString, DecMsg, DecLoop, StaticTable, DecScalar, Defaults;
    if f.ltype != Submessage {
      ok, value := DecodeScalar(s, f);
      return;
    }
    value := dest;
    var substream, status, m;
    ok, substream := s.MakeSubstream();
    if !ok { return; }
    if !f.ptr.SubFields? { return false, value; }
    if f.htype == Repeated {
      status, m := Decode(substream, f.ptr.fields, if dest.Sub? then dest.msg else []);
    } else {
      if !dest.Sub? { return false, value; }
      status, m := DecodeNoinit(substream, f.ptr.fields, dest.msg);
    }
    ok := s.CloseSubstream(substream);
    ok := status;
    value := Sub(m);
  }

  /** The packed loop of decode_static_field. */
  method DecodeItems(s: Stream, f: Field, room: nat) returns (ok: bool, items: seq<Value>)
    requires s.Valid() && StaticRow(f) && f.ltype.Packable()
    modifies s
    ensures s.Inside()
    ensures ok && s.bytesLeft == 0 <==> DecItems(f, old(s.Rest()), room).Some?
    ensures ok && s.bytesLeft == 0 ==> items == DecItems(f, old(s.Rest()), room).value
    ensures ok ==> s.state + s.bytesLeft == old(s.state + s.bytesLeft)
  {
    hide DecScalar, DecItems, StaticRow;
    items := [];
    ok := true;
    NothingBehind(DecItems(f, s.Rest(), room));
    while s.bytesLeft > 0 && |items| < room
      invariant s.Valid() && |items| <= room && ok
      invariant s.state + s.bytesLeft == old(s.state + s.bytesLeft)
      invariant DecItems(f, old(s.Rest()), room) == Behind(items, DecItems(f, s.Rest(), room - |items|))
      decreases s.bytesLeft
    {
      ghost var rest := s.Rest();
      ItemsStep(f, rest, room - |items|);
      var item;
      ok, item := DecodeScalar(s, f);
      if !ok { return; }
      BehindBoth(items, item, DecItems(f, s.Rest(), room - |items| - 1));
      items := items + [item];
    }
    ItemsStep(f, s.Rest(), room - |items|);
    assert items + [] == items;
  }

  /** The entries found, if there are any to find, behind those already there. */
  ghost function Behind(items: seq<Value>, more: Option<seq<Value>>): Option<seq<Value>> {
    if more.Some? then Some(items + more.value) else None
  }

  lemma {:induction false} NothingBehind(more: Option<seq<Value>>)
    ensures Behind([], more) == more
  {
    if more.Some? { assert [] + more.value == more.value; }
  }

  lemma {:induction false} BehindBoth(items: seq<Value>, item: Value, more: Option<seq<Value>>)
    ensures Behind(items, Behind([item], more)) == Behind(items + [item], more)
  {
    if more.Some? { assert items + ([item] + more.value) == (items + [item]) + more.value; }
  }

  lemma {:induction false} ItemsStep(f: Field, s: seq<byte>, room: nat)
    ensures s == [] ==> DecItems(f, s, room) == Some([])
    ensures s != [] && room == 0 ==> DecItems(f, s, room) == None
    ensures DecScalar(f, s).Got? ==> |DecScalar(f, s).rest| < |s|
    ensures s != [] && room > 0 ==>
              DecItems(f, s, room) ==
              if DecScalar(f, s).Got? then Behind([DecScalar(f, s).value], DecItems(f, DecScalar(f, s).rest, room - 1))
              else None
  {
    hide DecScalar;
    ScalarShrinks(f, s);
  }

  /** decode_static_field on an array row.  `count` stands for *pSize, and `entry` is at that index. */
  method DecodeEntries(s: Stream, f: Field, wiretype: nat, count: nat, entry: Value)
    returns (ok: bool, added: seq<Value>)
    requires s.Valid() && StaticRow(f) && f.htype == Repeated
    modifies s
    ensures s.Inside()
    ensures ok <==> DecEntries(f, wiretype, old(s.Rest()), count, entry).Got?
    ensures ok ==> added == DecEntries(f, wiretype, old(s.Rest()), count, entry).value
                   && s.Consumed(DecEntries(f, wiretype, old(s.Rest()), count, entry).rest)
    decreases s.bytesLeft, 2
  {
    hide DecString, DecItems, DecVal;
    added := [];
    if wiretype == WT_STRING && f.ltype.Packable() {
      var substream, status;
      ok, substream := s.MakeSubstream();
      if !ok { return; }
      status, added := DecodeItems(substream, f, if count < f.arraySize then f.arraySize - count else 0);
      if substream.bytesLeft != 0 { return false, added; }
      ok := s.CloseSubstream(substream);
      ok := status;
    } else {
      if count >= f.arraySize { return false, added; }
      var item;
      ok, item := DecodeValue(s, f, entry);
      added := [item];
    }
  }

  /** decode_field, decode_static_field */
  method DecodeRow(s: Stream, fields: seq<Field>, i: nat, wiretype: nat, m: Msg, fixedCount: nat, ghost st: DecState)
    returns (ok: bool, m': Msg, fixedCount': nat)
    requires s.Valid() && i < |fields| && |m| == |fields| && StaticRow(fields[i])
    requires st.msg == m && st.fixedCount == fixedCount
    modifies s
    ensures s.Inside()
    ensures ok <==> DecRow(fields, i, wiretype, old(s.Rest()), st).Some?
    ensures ok ==> s.Consumed(DecRow(fields, i, wiretype, old(s.Rest()), st).value.1)
    ensures ok ==> DecRow(fields, i, wiretype, old(s.Rest()), st).value.0 == st.(msg := m', fixedCount := fixedCount')
    decreases s.bytesLeft, 3
  {
    hide DecEntries, DecVal, StaticRow, DefaultVal, ZeroVal;
    var f := fields[i];
    m', fixedCount' := m, fixedCount;
    if f.htype == Repeated {
      if !m[i].Many? {
        NotAnArray(fields, i, wiretype, s.Rest(), st);
        return false, m', fixedCount';
      }
      var have, added := m[i].entries, [];
      var count := if f.sizeOffset == 0 then fixedCount else m[i].count;
      ok, added := DecodeEntries(s, f, wiretype, count, EntryAt(m[i], count));
      if !ok { return; }
      var end := count + |added|;
      if end > |have| { return false, m', fixedCount'; }
      var entries := have[..count] + added + have[end..];
      if f.sizeOffset != 0 {
        m' := m[i := Many(end, entries)];
      } else {
        m' := m[i := Many(if added != [] && end > m[i].count then end else m[i].count, entries)];
        fixedCount' := end;
      }
    } else {
      var h := UnionHead(fields, i);
      var slot, v := m[h], Num(0);
      if slot.Pick? && f.ltype == Submessage && slot.which != f.tag {
        slot := Pick(f.tag, DefaultVal(f, ZeroVal(f)));
      }
      ok, v := DecodeValue(s, f, BaseOf(f, slot));
      m' := m[h := StoreOne(f, slot, v)];
    }
  }

  lemma {:induction false} NotAnArray(fields: seq<Field>, i: nat, wiretype: nat, s: seq<byte>, st: DecState)
    requires i < |fields| && |st.msg| == |fields| && fields[i].htype == Repeated && !st.msg[i].Many?
    ensures DecRow(fields, i, wiretype, s, st).None?
  {
  }

  /** The part of the loop before decode_field: a new fixed-count row ends the one before it, and a
      required row is marked as seen. */
  method EnterRow(fields: seq<Field>, i: nat, requiredIndex: nat, fixedField: Option<nat>, fixedCount: nat,
                  fieldsSeen: seq<nat>, ghost st: DecState)
    returns (ok: bool, fixedField': Option<nat>, fixedCount': nat, fieldsSeen': seq<nat>)
    requires i < |fields| && requiredIndex == RequiredBefore(fields, i)
    requires st.fixed == fixedField && st.fixedCount == fixedCount
    requires |fieldsSeen| == 2 && Tracks(fieldsSeen, fields, st.seen)
    ensures |fieldsSeen'| == 2
    ensures ok <==> Enter(fields, i, st).Some?
    ensures ok ==> var st' := Enter(fields, i, st).value;
                   && st' == st.(fixed := fixedField', fixedCount := fixedCount', seen := st'.seen)
                   && Tracks(fieldsSeen', fields, st'.seen)
  {
    hide Tracks;
    var f := fields[i];
    ok, fixedField', fixedCount', fieldsSeen' := true, fixedField, fixedCount, fieldsSeen;
    if f.htype == Repeated && f.sizeOffset == 0 && fixedField != Some(i) {
      if fixedField.Some? && fixedField.value < |fields| && fixedCount != fields[fixedField.value].arraySize {
        ok := false;
        return;
      }
      fixedField', fixedCount' := Some(i), 0;
    }
    if f.htype == Required && requiredIndex < MAX_REQUIRED {
      MarkTracks(fieldsSeen, fields, st.seen, i);
      fieldsSeen' := Mark(fieldsSeen, requiredIndex);
    }
  }

  /** pb_decode_noinit */
  method DecodeNoinit(s: Stream, fields: seq<Field>, m0: Msg) returns (ok: bool, m: Msg)
    requires s.Valid() && StaticTable(fields)
    modifies s
    ensures s.Inside()
    ensures ok <==> DecMsg(fields, m0, old(s.Rest())).Some?
    ensures ok ==> m == DecMsg(fields, m0, old(s.Rest())).value
    ensures ok ==> s.Consumed(DecLoop(fields, old(s.Rest()), Start(m0)).rest)
    decreases s.bytesLeft, 4
  {
    hide DecLoop, DecField, DecRow, DecKey, StaticTable, StaticRow, RequiredSeen, Tracks, FieldIndex, SkipField, Enter,
      DecMsg, Accepts, Matches, Ahead, DataAt, SizeAt, RequiredBefore, Tagged, DistinctTags, DecVarint32, FixedComplete,
      UnionHead, JoinsUnion;
    m := m0;
    MessageEnds(fields, m0, s.Rest());
    if |m| != |fields| { return false, m; }
    var fieldsSeen := [0, 0];
    var extensionRangeStart := 0;
    var fixedField: Option<nat>, fixedCount := None, 0;
    TableIsTagged(fields);
    TracksNothing(fields);
    var iter := new Iter(fields);
    ghost var st, atZero := Start(m0), false;
    while s.bytesLeft != 0
      invariant s.Valid() && s.state + s.bytesLeft == old(s.state + s.bytesLeft)
      invariant s.bytesLeft <= old(s.bytesLeft)
      invariant fresh(iter) && iter.Valid() && iter.fields == fields
      invariant |m| == |fields| && st.msg == m && st.fixed == fixedField && st.fixedCount == fixedCount
      invariant |fieldsSeen| == 2 && Tracks(fieldsSeen, fields, st.seen)
      invariant extensionRangeStart == 0 || extensionRangeStart == U32 - 1
      invariant DecLoop(fields, old(s.Rest()), Start(m0)) == DecLoop(fields, s.Rest(), st)
      decreases s.bytesLeft
    {
      ghost var s0, st0 := s.Rest(), st;
      KeyShrinks(s0);
      var found, wiretype, tag, eof;
      LoopStep(fields, s0, st0);
      ok, wiretype, tag, eof := s.DecodeKey();
      if !ok {
        if eof { atZero := true; break; } else { return; }
      }
      ghost var steps;
      found, steps := iter.Find(tag);
      ghost var s1 := s.Rest();
      FieldStep(fields, wiretype, tag, s1, st0);
      if !found {
        if tag >= extensionRangeStart {
          var extension := iter.FindExtension();
          extensionRangeStart := U32 - 1;
        }
        ok := s.Skip(wiretype);
        if !ok { return; }
        continue;
      }
      if fields == [] {
        var v, e;
        ok, v, e := s.DecodeVarint32();
        if !ok { return; }
        continue;
      }
      var i := iter.pos;
      RowIsStatic(fields, i);
      ok, fixedField, fixedCount, fieldsSeen :=
        EnterRow(fields, i, iter.requiredFieldIndex, fixedField, fixedCount, fieldsSeen, st0);
      if !ok { return; }
      st := Enter(fields, i, st0).value;
      ok, m, fixedCount := DecodeRow(s, fields, i, wiretype, m, fixedCount, st);
      if !ok { return; }
      st := st.(msg := m, fixedCount := fixedCount);
    }
    if !atZero { LoopStep(fields, s.Rest(), st); }
    assert DecLoop(fields, old(s.Rest()), Start(m0)) == Stopped(st, s.Rest(), atZero);
    ok := FinalChecks(iter, fieldsSeen, fixedField, fixedCount, st);
  }

  /** The checks after the loop. */
  method FinalChecks(iter: Iter, fieldsSeen: seq<nat>, fixedField: Option<nat>, fixedCount: nat, ghost st: DecState)
    returns (ok: bool)
    requires iter.Valid() && st.fixed == fixedField && st.fixedCount == fixedCount
    requires |fieldsSeen| == 2 && Tracks(fieldsSeen, iter.fields, st.seen)
    modifies iter
    ensures ok <==> Accepts(iter.fields, st)
  {
    hide Tracks, RequiredSeen, Bit, Within;
    var fields := iter.fields;
    if fixedField.Some? && fixedField.value < |fields| && fixedCount != fields[fixedField.value].arraySize {
      return false;
    }
    var count := CountRequired(iter);
    if count > MAX_REQUIRED { count := MAX_REQUIRED; }
    BitsAreRows(fieldsSeen, fields, st.seen, count);
    ok := AllMarked(fieldsSeen, count);
  }

  /** pb_decode, into a structure that held `was`. */
  method Decode(s: Stream, fields: seq<Field>, was: Msg) returns (ok: bool, m: Msg)
    requires s.Valid() && StaticTable(fields)
    modifies s
    ensures s.Inside()
    ensures ok <==> DecMsg(fields, Defaults(fields, was), old(s.Rest())).Some?
    ensures ok ==> m == DecMsg(fields, Defaults(fields, was), old(s.Rest())).value
    ensures ok ==> s.Consumed(DecLoop(fields, old(s.Rest()), Start(Defaults(fields, was))).rest)
    decreases s.bytesLeft, 5
  {
    hide DecMsg, DecLoop, StaticTable, Defaults;
    m := SetToDefaults(fields, was);
    ok, m := DecodeNoinit(s, fields, m);
  }

  /** pb_decode_delimited_noinit */
  method DecodeDelimitedNoinit(s: Stream, fields: seq<Field>, m0: Msg) returns (ok: bool, m: Msg)
    requires s.Valid() && StaticTable(fields)
    modifies s
    ensures s.Inside()
    ensures ok <==> DecString(old(s.Rest())).Got? && DecMsg(fields, m0, DecString(old(s.Rest())).value).Some?
    ensures ok ==> Some(m) == DecMsg(fields, m0, DecString(old(s.Rest())).value)
    ensures ok ==> s.Consumed(DecString(old(s.Rest())).rest)
  {
    hide DecString, DecMsg, DecLoop, StaticTable;
    m := m0;
    var substream, status;
    ok, substream := s.MakeSubstream();
    if !ok { return; }
    status, m := DecodeNoinit(substream, fields, m0);
    ok := s.CloseSubstream(substream);
    if !ok { return; }
    ok := status;
  }

  /** pb_decode_delimited */
  method DecodeDelimited(s: Stream, fields: seq<Field>, was: Msg) returns (ok: bool, m: Msg)
    requires s.Valid() && StaticTable(fields)
    modifies s
    ensures s.Inside()
    ensures ok <==>
            DecString(old(s.Rest())).Got? && DecMsg(fields, Defaults(fields, was), DecString(old(s.Rest())).value).Some?
    ensures ok ==> Some(m) == DecMsg(fields, Defaults(fields, was), DecString(old(s.Rest())).value)
    ensures ok ==> s.Consumed(DecString(old(s.Rest())).rest)
  {
    hide DecString, DecMsg, DecLoop, StaticTable, Defaults;
    m := [];
    var substream, status;
    ok, substream := s.MakeSubstream();
    if !ok { return; }
    status, m := Decode(substream, fields, was);
    ok := s.CloseSubstream(substream);
    if !ok { return; }
    ok := status;
  }
}

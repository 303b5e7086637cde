/** A reader whose table has none of a message's fields still reads past all of them: the wire types the
    encoder announces are those its payloads have (pb_encode.c:669-707, pb_decode.c:278-331, 944-989). */
module Compatibility {
  import opened Wrappers
  import opened Descriptor
  import opened Varint
  import opened FieldIter
  import opened EncodeSpec
  import opened DecodeSpec
  import opened ScalarRoundTrip
  import opened RoundTrip

  lemma {:induction false} LittleEndianLength(v: nat, k: nat)
    ensures |LittleEndian(v, k)| == k
  {
    if k > 0 { LittleEndianLength(v / 256, k - 1); }
  }

  lemma {:induction false} VarintSkipped(v: nat, tail: seq<byte>)
    ensures SkipField(WT_VARINT, EncVarint(v) + tail) == Some(tail)
  {
    EncVarintIsVarint(v);
    TakeVarintOf(EncVarint(v), tail);
  }

  lemma {:induction false} FixedSkipped(v: nat, tail: seq<byte>)
    ensures SkipField(WT_32BIT, LittleEndian(v, 4) + tail) == Some(tail)
    ensures SkipField(WT_64BIT, LittleEndian(v, 8) + tail) == Some(tail)
  {
    hide LittleEndian;
    LittleEndianLength(v, 4);
    LittleEndianLength(v, 8);
    assert (LittleEndian(v, 4) + tail)[4..] == tail && (LittleEndian(v, 8) + tail)[8..] == tail;
  }

  lemma {:induction false} StringSkipped(b: seq<byte>, tail: seq<byte>)
    requires |b| < U32
    ensures SkipField(WT_STRING, EncString(b) + tail) == Some(tail)
  {
    hide DecString, EncString;
    StringRoundTrip(b, tail);
  }

  /** Skipping by the wire type of a row consumes exactly the payload emitted for it. */
  lemma {:induction false} ValSkipped(f: Field, v: Value, tail: seq<byte>)
    requires StaticRow(f) && ConformsVal(f, v) && TravelsVal(f, v)
    ensures SkipField(WireType(f.ltype), EncVal(f, v) + tail) == Some(tail)
  {
    hide SkipField, EncVarint, LittleEndian, EncString, ZigZag, CString, Conforms, Travels, EncMsg, StaticTable;
    match f.ltype {
      case Bool => VarintSkipped(if NumOf(v) != 0 then 1 else 0, tail);
      case Varint | UVarint => VarintSkipped(ToU64(NumOf(v)), tail);
      case SVarint => VarintSkipped(ZigZag(NumOf(v)), tail);
      case Fixed32 | Fixed64 => FixedSkipped(ToU64(NumOf(v)), tail);
      case Bytes | FixedLengthBytes => StringSkipped(v.bytes, tail);
      case String => StringSkipped(CString(v.bytes), tail);
      case Submessage => StringSkipped(EncMsg(SubTable(f), v.msg), tail);
    }
  }

  /** The reader knows none of the tags. */
  predicate Unaware(reader: seq<Field>, fields: seq<Field>) {
    forall i, j :: 0 <= i < |reader| && 0 <= j < |fields| ==> reader[i].tag != fields[j].tag
  }

  /** One field is read past. */
  lemma {:induction false} FieldPassed(reader: seq<Field>, wiretype: nat, tag: nat, body: seq<byte>, tail: seq<byte>,
                                       st: DecState)
    requires |st.msg| == |reader| && wiretype < 8 && 1 <= tag < 0x2000_0000 && FieldIndex(reader, tag).None?
    requires SkipField(wiretype, body + tail) == Some(tail)
    ensures DecLoop(reader, EncTag(wiretype, tag) + body + tail, st) == DecLoop(reader, tail, st)
  {
    hide DecLoop, DecField, DecKey, FieldIndex, EncTag, SkipField;
    var s := EncTag(wiretype, tag) + (body + tail);
    assert EncTag(wiretype, tag) + body + tail == s;
    KeyRoundTrip(wiretype, tag, body + tail);
    LoopStep(reader, s, st);
    FieldStep(reader, wiretype, tag, body + tail, st);
  }

  lemma {:induction false} NoIndex(reader: seq<Field>, fields: seq<Field>, j: nat)
    requires Unaware(reader, fields) && j < |fields|
    ensures FieldIndex(reader, fields[j].tag).None?
  {
    assert forall i :: 0 <= i < |reader| ==> !Matches(reader[i], fields[j].tag);
  }

  lemma {:induction false} TaggedPassed(reader: seq<Field>, f: Field, v: Value, tail: seq<byte>, st: DecState)
    requires |st.msg| == |reader| && StaticRow(f) && f.tag < 0x2000_0000 && FieldIndex(reader, f.tag).None?
    requires ConformsVal(f, v) && TravelsVal(f, v)
    ensures DecLoop(reader, EncTagged(f, v) + tail, st) == DecLoop(reader, tail, st)
  {
    hide EncVal, EncTag, SkipField, ConformsVal, TravelsVal, DecLoop, FieldIndex, StaticTable;
    ValSkipped(f, v, tail);
    FieldPassed(reader, WireType(f.ltype), f.tag, EncVal(f, v), tail, st);
  }

  lemma {:induction false} TaggedItemsPassed(reader: seq<Field>, f: Field, items: seq<Value>, tail: seq<byte>,
                                             st: DecState)
    requires |st.msg| == |reader| && StaticRow(f) && f.tag < 0x2000_0000 && FieldIndex(reader, f.tag).None?
    requires ConformsItems(f, items) && forall k :: 0 <= k < |items| ==> TravelsVal(f, items[k])
    ensures DecLoop(reader, EncTaggedItems(f, items) + tail, st) == DecLoop(reader, tail, st)
    decreases |items|
  {
    hide EncTagged, ConformsVal, TravelsVal, DecLoop, FieldIndex, StaticRow;
    if items == [] {
      assert EncTaggedItems(f, items) + tail == tail;
    } else {
      var more := EncTaggedItems(f, items[1..]);
      TaggedPassed(reader, f, items[0], more + tail, st);
      TaggedItemsPassed(reader, f, items[1..], tail, st);
      assert EncTagged(f, items[0]) + more + tail == EncTagged(f, items[0]) + (more + tail);
    }
  }

  lemma {:induction false} ArrayPassed(reader: seq<Field>, f: Field, items: seq<Value>, tail: seq<byte>, st: DecState)
    requires |st.msg| == |reader| && StaticRow(f) && f.tag < 0x2000_0000 && FieldIndex(reader, f.tag).None?
    requires ConformsItems(f, items) && TravelsItems(f, items)
    ensures DecLoop(reader, EncArray(f, items) + tail, st) == DecLoop(reader, tail, st)
  {
    hide EncTagged, EncItems, EncTag, EncString, ConformsVal, TravelsVal, DecLoop, FieldIndex, SkipField,
      EncTaggedItems;
    assert [] + tail == tail;
    if items != [] {
      if f.ltype.Packable() {
        StringSkipped(EncItems(f, items), tail);
        TagAtLeastOne(f);
        FieldPassed(reader, WT_STRING, f.tag, EncString(EncItems(f, items)), tail, st);
      } else {
        TaggedItemsPassed(reader, f, items, tail, st);
      }
    }
  }

  lemma {:induction false} TagAtLeastOne(f: Field)
    requires StaticRow(f)
    ensures f.tag >= 1
  {
  }

  lemma {:induction false} RowPassed(reader: seq<Field>, fields: seq<Field>, m: Msg, i: nat, tail: seq<byte>,
                                     st: DecState)
    requires |st.msg| == |reader| && Unaware(reader, fields) && i < |fields| && |m| == |fields|
    requires StaticRow(fields[i]) && ConformsRow(fields, m, i) && TravelsRow(fields, m, i)
    ensures DecLoop(reader, EncRow(fields, m, i) + tail, st) == DecLoop(reader, tail, st)
  {
    hide EncTagged, EncArray, ConformsVal, TravelsVal, ConformsItems, TravelsItems, DecLoop, FieldIndex, StaticRow,
      IsZero, Unaware, Items;
    NoIndex(reader, fields, i);
    assert [] + tail == tail;
    if fields[i].htype == Repeated {
      PrefixConforms(fields[i], m[i]);
      ArrayPassed(reader, fields[i], Items(fields[i], m[i]), tail, st);
    } else if Present(fields, m, i).Some? {
      TaggedPassed(reader, fields[i], Present(fields, m, i).value, tail, st);
    }
  }

  lemma {:induction false} RowsPassed(reader: seq<Field>, fields: seq<Field>, m: Msg, i: nat, st: DecState)
    requires |st.msg| == |reader| && Unaware(reader, fields) && i <= |fields|
    requires StaticTable(fields) && Conforms(fields, m) && Travels(fields, m)
    ensures |m| == |fields| && DecLoop(reader, EncFrom(fields, m, i), st) == Stopped(st, [], false)
    decreases |fields| - i
  {
    hide StaticRow, ConformsRow, TravelsRow, EncRow, DecLoop, Unaware;
    if i == |fields| {
      LoopStep(reader, [], st);
    } else {
      assert StaticRow(fields[i]) && ConformsRow(fields, m, i) && TravelsRow(fields, m, i);
      RowPassed(reader, fields, m, i, EncFrom(fields, m, i + 1), st);
      RowsPassed(reader, fields, m, i + 1, st);
    }
  }

  /** A reader that knows none of the fields reads to the end and has learned nothing: it accepts exactly
      when it would accept no bytes at all. */
  lemma {:induction false} UnawareReaderSkipsAll(reader: seq<Field>, m0: Msg, fields: seq<Field>, m: Msg)
    requires |m0| == |reader| && Unaware(reader, fields)
    requires StaticTable(fields) && Conforms(fields, m) && Travels(fields, m)
    ensures DecLoop(reader, EncMsg(fields, m), Start(m0)) == Stopped(Start(m0), [], false)
    ensures DecMsg(reader, m0, EncMsg(fields, m)) == DecMsg(reader, m0, [])
  {
    hide DecLoop, Unaware, StaticTable, EncFrom, DecMsg, Accepts, Conforms, Travels;
    RowsPassed(reader, fields, m, 0, Start(m0));
    EncMsgIsFrom(fields, m);
    MessageEnds(reader, m0, EncMsg(fields, m));
    MessageEnds(reader, m0, []);
    LoopStep(reader, [], Start(m0));
  }
}
